/** What the chain answers and forwards, field by field: statuses and errors, the identity that is forwarded, its groups
    and extras, and the record of the inbound user. */
module Forwarding {
  import opened Strings
  import opened Multimaps
  import opened Orders
  import opened Headers
  import opened ProxyErrors
  import opened Users
  import opened Impersonation
  import opened HeaderRules
  import opened PathSegments
  import opened Requests
  import opened Chain

  // ------------------------------------------------------------- refusals

  /** What the error handler answers, error by error. */
  lemma StatusExactly(error: Error)
    ensures match error
            case Unauthorized => StatusOf(error) == 401
            case NoName => StatusOf(error) == 403
            case NoImpersonationConfig => StatusOf(error) == 500
            case NoImpersonationUserFound => StatusOf(error) == 500
            case NotAllowed(_, _) => StatusOf(error) == 403
            case UnknownHeader(key) => IsToken(key) ==> StatusOf(error) == 500
            case Foreign(message) =>
              StatusOf(error) == if Contains(message, "not allowed to impersonate") then 403 else 500
  {
    match error {
      case NotAllowed(requester, subject) =>
        DenialsAreForbidden(requester, subject);
      case UnknownHeader(key) =>
        if IsToken(key) {
          UnknownHeadersAreInternalErrors(key);
        }
      case _ =>
    }
  }

  /** The text of a denial names the requester and what may not be impersonated. */
  lemma DenialsExactly(requester: string, name: string, value: string)
    ensures Message(NotAllowed(requester, OfUser(name)))
            == requester + " is " + "not allowed to impersonate" + " " + ("user '" + name + "'")
    ensures Message(NotAllowed(requester, OfGroup(name)))
            == requester + " is " + "not allowed to impersonate" + " " + ("group '" + name + "'")
    ensures Message(NotAllowed(requester, OfUid(name)))
            == requester + " is " + "not allowed to impersonate" + " " + ("uid '" + name + "'")
    ensures Message(NotAllowed(requester, OfExtra(name, value)))
            == requester + " is " + "not allowed to impersonate" + " " + ("extra info '" + name + "'='" + value + "'")
    ensures Message(UnknownHeader(name)) == "unknown impersonation header '" + name + "'"
  {
  }

  /** Which error a request that is not forwarded is answered with, exit by exit. */
  lemma RefusalsExactly(settings: Settings, wiring: Wiring, auth: Auth, token: TokenAnswer, incoming: Incoming,
                        oracle: Oracle, marshal: Marshal, addr: string, order: seq<string>, keepOrder: seq<string>)
    requires IsWired(settings, wiring) && IsOrder(order, incoming.header.Keys)
    ensures var event := Served(settings, wiring, auth, token, incoming, oracle, marshal, addr, order, keepOrder);
            if auth.AuthRefused? || (auth.AuthError? && !(settings.tokenReview && token == TokenAnswered(true)))
            then event == Responded(401, Unauthorized)
            else if auth.Authenticated? && !settings.disableImpersonation && auth.user.name == ""
            then event == Responded(403, NoName)
            else if auth.AuthError? || settings.disableImpersonation || !HasImpersonation(incoming.header)
            then !event.Responded?
            else
              match Check(oracle, auth.user, incoming.header, order).verdict
              case Rejected(error) => event == Responded(StatusOf(error), error)
              case IndexPanic => event == Crashed
              case Accepted =>
                if auth.user.extra != map[] && marshal(auth.user.extra).JsonError?
                then
                  var error := Foreign(marshal(auth.user.extra).message);
                  event == Responded(StatusOf(error), error)
                else !event.Responded?
  {
    if ActsForUser(settings, auth) {
      UserRefusals(settings, wiring, auth.user, incoming, oracle, marshal, addr, order, keepOrder);
    }
  }

  lemma UserRefusals(settings: Settings, wiring: Wiring, user: User, incoming: Incoming, oracle: Oracle,
                     marshal: Marshal, addr: string, order: seq<string>, keepOrder: seq<string>)
    requires wiring.impersonating != null && wiring.hasAccessReviewer && wiring.hasErrorHandler
    requires IsOrder(order, incoming.header.Keys)
    ensures var event := ServedUser(settings, wiring, user, incoming, oracle, marshal, addr, order, keepOrder);
            if !HasImpersonation(incoming.header) then !event.Responded?
            else
              match Check(oracle, user, incoming.header, order).verdict
              case Rejected(error) => event == Responded(StatusOf(error), error)
              case IndexPanic => event == Crashed
              case Accepted =>
                if user.extra != map[] && marshal(user.extra).JsonError?
                then
                  var error := Foreign(marshal(user.extra).message);
                  event == Responded(StatusOf(error), error)
                else !event.Responded?
  {
  }

  // ------------------------------------------------------------- without impersonation

  lemma PlainIs(wiring: Wiring, incoming: Incoming)
    requires Plain(wiring, incoming).ForwardedPlain?
    ensures Plain(wiring, incoming)
            == ForwardedPlain(wiring.noAuth, Incoming(
                 incoming.header["Authorization" :=
                   (if "Authorization" in incoming.header then incoming.header["Authorization"] else []) + [""]],
                 incoming.path, incoming.query))
  {
    CanonicalAuthorization();
    GetAndAdd(incoming.header, "Authorization", "");
  }

  lemma OnlyPlainIsPlain(settings: Settings, wiring: Wiring, auth: Auth, token: TokenAnswer, incoming: Incoming,
                         oracle: Oracle, marshal: Marshal, addr: string, order: seq<string>, keepOrder: seq<string>)
    requires IsWired(settings, wiring) && IsOrder(order, incoming.header.Keys)
    ensures var event := Served(settings, wiring, auth, token, incoming, oracle, marshal, addr, order, keepOrder);
            event.ForwardedPlain? ==> event == Plain(wiring, incoming)
  {
    if ActsForUser(settings, auth) {
      UserOutcomesExactly(settings, wiring, auth.user, incoming, oracle, marshal, addr, order, keepOrder);
    }
  }

  /** A request that is passed through keeps its URL and its headers, but for one more Authorization value, which is
      empty. */
  lemma PlainExactly(settings: Settings, wiring: Wiring, auth: Auth, token: TokenAnswer, incoming: Incoming,
                     oracle: Oracle, marshal: Marshal, addr: string, order: seq<string>, keepOrder: seq<string>)
    requires IsWired(settings, wiring) && IsOrder(order, incoming.header.Keys)
    ensures var event := Served(settings, wiring, auth, token, incoming, oracle, marshal, addr, order, keepOrder);
            event.ForwardedPlain? ==>
              event == ForwardedPlain(wiring.noAuth, Incoming(
                incoming.header["Authorization" :=
                  (if "Authorization" in incoming.header then incoming.header["Authorization"] else []) + [""]],
                incoming.path, incoming.query))
  {
    OnlyPlainIsPlain(settings, wiring, auth, token, incoming, oracle, marshal, addr, order, keepOrder);
    if Plain(wiring, incoming).ForwardedPlain? {
      PlainIs(wiring, incoming);
    }
  }

  // ------------------------------------------------------------- whom a forwarded request acts as

  /** The target of the check, or the inbound user. */
  function ActingUser(user: User, header: Header, order: seq<string>): User {
    if HasImpersonation(header) then Fold(TargetStep(header), NOBODY, order) else user
  }

  /** A forwarded event is that of the acting user. */
  lemma EventOfActing(settings: Settings, wiring: Wiring, user: User, incoming: Incoming, oracle: Oracle,
                      marshal: Marshal, addr: string, order: seq<string>, keepOrder: seq<string>)
    returns (sent: Incoming)
    requires IsOrder(order, incoming.header.Keys)
    ensures var event := ServedUser(settings, wiring, user, incoming, oracle, marshal, addr, order, keepOrder);
            event.ForwardedAs? ==>
              event == ForwardedFor(settings, wiring, ActingUser(user, incoming.header, order),
                                    HasImpersonation(incoming.header), user, sent, marshal, addr)
  {
    AcceptedExactlyWhenAuthorised(oracle, user, incoming.header, order);
    match ActingFor(wiring, user, incoming.header, oracle, order, keepOrder) {
      case ActsAs(_, _, header) =>
        sent := incoming.(header := header);
      case Ends(_) =>
        sent := incoming;
    }
  }

  lemma ForwardedIdentity(settings: Settings, wiring: Wiring, acting: User, isTarget: bool, inbound: User,
                          sent: Incoming, marshal: Marshal, addr: string)
    ensures var event := ForwardedFor(settings, wiring, acting, isTarget, inbound, sent, marshal, addr);
            event.ForwardedAs? ==>
              && event.user == acting.name && event.via == wiring.impersonating
              && event.groups == acting.groups + (if "system:authenticated" in acting.groups then []
                                                  else ["system:authenticated"])
  {
    assert acting.groups + [] == acting.groups;
  }

  /** Name, transport and groups: those of the acting user, with "system:authenticated" at the end unless it is
      among the groups already. */
  lemma IdentityExactly(settings: Settings, wiring: Wiring, user: User, incoming: Incoming, oracle: Oracle,
                        marshal: Marshal, addr: string, order: seq<string>, keepOrder: seq<string>)
    requires IsOrder(order, incoming.header.Keys)
    ensures var event := ServedUser(settings, wiring, user, incoming, oracle, marshal, addr, order, keepOrder);
            var acting := ActingUser(user, incoming.header, order);
            event.ForwardedAs? ==>
              && event.user == acting.name && event.via == wiring.impersonating
              && event.groups == acting.groups + (if "system:authenticated" in acting.groups then []
                                                  else ["system:authenticated"])
  {
    var sent := EventOfActing(settings, wiring, user, incoming, oracle, marshal, addr, order, keepOrder);
    ForwardedIdentity(settings, wiring, ActingUser(user, incoming.header, order), HasImpersonation(incoming.header),
                      user, sent, marshal, addr);
  }

  /** The values under one key before the inbound user is put on record. */
  function PlainValues(settings: Settings, acting: User, addr: string, k: string): seq<string> {
    (if k in acting.extra then acting.extra[k] else [])
    + (if k == "Remote-Client-IP" && settings.clientIPEnabled then [addr] else [])
    + (if k in settings.extraUserHeaders then settings.extraUserHeaders[k] else [])
  }

  lemma PlainValuesAre(settings: Settings, acting: User, addr: string, k: string)
    ensures ValuesOf(WithExtras(acting.extra, ClientIP(settings, addr), settings.extraUserHeaders), k)
            == PlainValues(settings, acting, addr, k)
  {
    ExtrasPerKey(acting.extra, ClientIP(settings, addr), settings.extraUserHeaders, k);
  }

  /** The values under one key of the record, when `plain` stood there before. */
  ghost predicate IsRecorded(user: User, marshal: Marshal, k: string, plain: seq<string>, values: seq<string>) {
    var record := "originaluser.jetstack.io-";
    if k == record + "user" then values == [user.name]
    else if k == record + "groups" && user.groups != [] then values == user.groups
    else if k == record + "uid" && user.uid != "" then values == [user.uid]
    else if k == record + "extra" && user.extra != map[] then |values| == 1 && Json(values[0]) == marshal(user.extra)
    else values == plain
  }

  lemma RecordedExactly(extra: Extra, user: User, marshal: Marshal, k: string)
    requires OnRecord(extra, user, marshal).Recorded?
    ensures IsRecorded(user, marshal, k, ValuesOf(extra, k), ValuesOf(OnRecord(extra, user, marshal).extra, k))
  {
    OriginalIsOnRecord(extra, user, if marshal(user.extra).Json? then marshal(user.extra).text else "");
  }

  lemma ForwardedExtra(settings: Settings, wiring: Wiring, acting: User, isTarget: bool, inbound: User, sent: Incoming,
                       marshal: Marshal, addr: string)
    ensures var event := ForwardedFor(settings, wiring, acting, isTarget, inbound, sent, marshal, addr);
            var extra := WithExtras(acting.extra, ClientIP(settings, addr), settings.extraUserHeaders);
            event.ForwardedAs? ==>
              if isTarget
              then OnRecord(extra, inbound, marshal).Recorded? && event.extra == OnRecord(extra, inbound, marshal).extra
              else event.extra == extra
  {
  }

  /** The extras, key by key: the acting user's values, the client address, the configured values; and when a client
      impersonates, the record of the inbound user instead under the keys that it fills. */
  lemma ExtrasExactly(settings: Settings, wiring: Wiring, user: User, incoming: Incoming, oracle: Oracle,
                      marshal: Marshal, addr: string, order: seq<string>, keepOrder: seq<string>, k: string)
    requires IsOrder(order, incoming.header.Keys)
    ensures var event := ServedUser(settings, wiring, user, incoming, oracle, marshal, addr, order, keepOrder);
            event.ForwardedAs? ==>
              var plain := PlainValues(settings, ActingUser(user, incoming.header, order), addr, k);
              var values := if k in event.extra then event.extra[k] else [];
              if HasImpersonation(incoming.header) then IsRecorded(user, marshal, k, plain, values)
              else values == plain
  {
    var acting := ActingUser(user, incoming.header, order);
    var sent := EventOfActing(settings, wiring, user, incoming, oracle, marshal, addr, order, keepOrder);
    ForwardedExtra(settings, wiring, acting, HasImpersonation(incoming.header), user, sent, marshal, addr);
    PlainValuesAre(settings, acting, addr, k);
    var extra := WithExtras(acting.extra, ClientIP(settings, addr), settings.extraUserHeaders);
    if OnRecord(extra, user, marshal).Recorded? {
      RecordedExactly(extra, user, marshal, k);
    }
  }

  /** What a served request leaves in its user's own map, key by key. */
  lemma OwnExtraExactly(settings: Settings, user: User, header: Header, addr: string, k: string)
    ensures var left := OwnExtra(settings, user.extra, header, addr);
            (if k in left then left[k] else [])
            == if HasImpersonation(header) then (if k in user.extra then user.extra[k] else [])
               else PlainValues(settings, user, addr, k)
    ensures k in OwnExtra(settings, user.extra, header, addr) <==>
              k in user.extra || (!HasImpersonation(header) && PlainValues(settings, user, addr, k) != [])
  {
    PlainValuesAre(settings, user, addr, k);
  }

  // ------------------------------------------------------------- what a forwarded request carries

  /** The URL: rewritten in its two stages when there is a namespace transport, and untouched otherwise. */
  lemma UrlExactly(settings: Settings, wiring: Wiring, user: User, incoming: Incoming, oracle: Oracle,
                   marshal: Marshal, addr: string, order: seq<string>, keepOrder: seq<string>)
    ensures var event := ServedUser(settings, wiring, user, incoming, oracle, marshal, addr, order, keepOrder);
            event.ForwardedAs? ==>
              Forwarded(event.sent.path, event.sent.query)
              == match wiring.mappings
                 case None => Forwarded(incoming.path, incoming.query)
                 case Some(table) =>
                   WithRegion(JoinedPath(Rewritten(Split(incoming.path, '/'), table)), incoming.query)
  {
    ForwardedIsRouted(settings, wiring, user, incoming, oracle, marshal, addr, order, keepOrder);
  }

  /** The headers, for keys as net/http's server makes them: all of them without impersonation, and otherwise those
      without the prefix that have a value. */
  lemma HeadersExactly(settings: Settings, wiring: Wiring, user: User, incoming: Incoming, oracle: Oracle,
                       marshal: Marshal, addr: string, order: seq<string>, keepOrder: seq<string>)
    requires IsOrder(keepOrder, incoming.header.Keys) && HasCanonicalKeys(incoming.header)
    ensures var event := ServedUser(settings, wiring, user, incoming, oracle, marshal, addr, order, keepOrder);
            event.ForwardedAs? ==>
              && (forall k | k in event.sent.header ::
                    k in incoming.header && event.sent.header[k] == incoming.header[k])
              && (forall k | k in incoming.header ::
                    k in event.sent.header <==>
                      || (forall h | h in incoming.header :: !("impersonate-" <= Lower(h)))
                      || (!("impersonate-" <= Lower(k)) && incoming.header[k] != []))
  {
    ForwardedIsRouted(settings, wiring, user, incoming, oracle, marshal, addr, order, keepOrder);
    KeptExactly(incoming.header, keepOrder);
    ImpersonatesExactly(incoming.header);
  }

  lemma ImpersonatesExactly(header: Header)
    ensures HasImpersonation(header) <==> exists k | k in header :: "impersonate-" <= Lower(k)
  {
    if k :| k in header && "impersonate-" <= Lower(k) {
      assert IsImpersonation(k);
    }
  }
}
