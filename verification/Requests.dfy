/** Requests on the heap: copies of a request share its URL. */
module Requests {
  import opened Headers
  import opened PathSegments

  /** The part of a request that the proxy looks at. */
  datatype Incoming = Incoming(header: Header, path: string, query: Query)

  class Url {
    var path: string
    var query: Query

    constructor (path: string, query: Query)
      ensures this.path == path && this.query == query
    {
      this.path := path;
      this.query := query;
    }
  }

  class Request {
    var header: Header
    const url: Url

    constructor (header: Header, url: Url)
      ensures this.header == header && this.url == url
    {
      this.header := header;
      this.url := url;
    }

    function View(): Incoming
      reads this, url
    {
      Incoming(header, url.path, url.query)
    }
  }
}
