/** The errors that reach the proxy's error handler, and their texts. */
module ProxyErrors {

  /** What somebody may not impersonate. */
  datatype Subject =
    | OfUser(name: string)
    | OfGroup(name: string)
    | OfUid(uid: string)
    | OfExtra(name: string, value: string)

  datatype Error =
    | Unauthorized
    | NoName
    | NoImpersonationConfig
    | NoImpersonationUserFound
    | NotAllowed(requester: string, subject: Subject)
    | UnknownHeader(key: string)
    | Foreign(message: string)  // from a reviewer or from json.Marshal

  const NOT_ALLOWED := "not allowed to impersonate"

  function SubjectText(subject: Subject): string {
    match subject
    case OfUser(name) => "user '" + name + "'"
    case OfGroup(name) => "group '" + name + "'"
    case OfUid(uid) => "uid '" + uid + "'"
    case OfExtra(name, value) => "extra info '" + name + "'='" + value + "'"
  }

  function Message(error: Error): string {
    match error
    case Unauthorized => "Unauthorized"
    case NoName => "No name in OIDC info"
    case NoImpersonationConfig => "No impersonation configuration in context"
    case NoImpersonationUserFound => "no Impersonation-User header found for request"
    case NotAllowed(requester, subject) => requester + " is " + NOT_ALLOWED + " " + SubjectText(subject)
    case UnknownHeader(key) => "unknown impersonation header '" + key + "'"
    case Foreign(message) => message
  }
}
