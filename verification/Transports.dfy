/** The way to the API server, known by its identity. */
module Transports {
  class Transport {
    constructor () {}
  }
}
