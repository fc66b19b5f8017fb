/** What becomes of a request, as a function of the settings, the request and the answers of the
    authenticators and reviewers. */
module Chain {
  import opened Strings
  import opened Multimaps
  import opened Orders
  import opened Headers
  import opened ProxyErrors
  import opened Users
  import opened Impersonation
  import opened HeaderRules
  import opened PathSegments
  import opened Requests
  import opened Transports

  const CLIENT_IP_KEY := "Remote-Client-IP"
  const ALL_AUTHENTICATED := "system:authenticated"
  const ORIGINAL := "originaluser.jetstack.io-"
  const ORIGINAL_USER := ORIGINAL + "user"
  const ORIGINAL_GROUPS := ORIGINAL + "groups"
  const ORIGINAL_UID := ORIGINAL + "uid"
  const ORIGINAL_EXTRA := ORIGINAL + "extra"

  datatype Settings = Settings(disableImpersonation: bool, tokenReview: bool,
                               clientIPEnabled: bool, extraUserHeaders: Extra)

  /** The OIDC authenticator: an error, no error but no user either, or a user. */
  datatype Auth = AuthError | AuthRefused | Authenticated(user: User)

  datatype TokenAnswer = TokenAnswered(ok: bool) | TokenError

  datatype Json = Json(text: string) | JsonError(message: string)

  type Marshal = Extra -> Json

  /** What RoundTrip and the handlers find in the proxy; null where nothing was set. `mappings` is the table in
      use when there is a namespace transport. */
  datatype Wiring = Wiring(noAuth: Transport?, impersonating: Transport?, mappings: Option<map<string, string>>,
                           hasTokenReviewer: bool, hasAccessReviewer: bool, hasErrorHandler: bool)

  datatype Event =
    | Responded(status: int, error: Error)
    | ForwardedPlain(via: Transport, sent: Incoming)
    | ForwardedAs(user: string, groups: seq<string>, extra: Extra, via: Transport, sent: Incoming)
    | Crashed  // a nil dereference or an index out of range

  /** The switch of the error handler. */
  function StatusOf(error: Error): int {
    match error
    case Unauthorized => 401
    case NoName => 403
    case NoImpersonationConfig => 500
    case NoImpersonationUserFound => 500
    case _ => if Contains(Message(error), NOT_ALLOWED) then 403 else 500
  }

  function Answer(wiring: Wiring, error: Error): Event {
    if wiring.hasErrorHandler then Responded(StatusOf(error), error) else Crashed
  }

  function WithAllAuthenticated(groups: seq<string>): seq<string> {
    if ALL_AUTHENTICATED in groups then groups else groups + [ALL_AUTHENTICATED]
  }

  function ClientIP(settings: Settings, addr: string): seq<string> {
    if settings.clientIPEnabled then [addr] else []
  }

  /** Per key: the user's own values, then the client address under its key when that is enabled,
      then the configured values. */
  function WithExtras(own: Extra, clientIP: seq<string>, configured: Extra): Extra {
    map k | k in own.Keys + configured.Keys + {CLIENT_IP_KEY}
            && (k in own || (k == CLIENT_IP_KEY && clientIP != []) || ValuesOf(configured, k) != [])
         :: ValuesOf(own, k) + (if k == CLIENT_IP_KEY then clientIP else []) + ValuesOf(configured, k)
  }

  /** The inbound user on record, under keys of its own. */
  function WithOriginal(extra: Extra, inbound: User, json: string): Extra {
    var e1 := extra[ORIGINAL_USER := [inbound.name]];
    var e2 := if inbound.groups != [] then e1[ORIGINAL_GROUPS := inbound.groups] else e1;
    var e3 := if inbound.uid != "" then e2[ORIGINAL_UID := [inbound.uid]] else e2;
    if inbound.extra != map[] then e3[ORIGINAL_EXTRA := [json]] else e3
  }

  datatype Recording = Recorded(extra: Extra) | NotRecorded(error: Error)

  /** The inbound extras go on record as JSON, when there are any. */
  function OnRecord(extra: Extra, inbound: User, marshal: Marshal): Recording {
    if inbound.extra == map[] then Recorded(WithOriginal(extra, inbound, ""))
    else
      match marshal(inbound.extra)
      case Json(text) => Recorded(WithOriginal(extra, inbound, text))
      case JsonError(message) => NotRecorded(Foreign(message))
  }

  function Plain(wiring: Wiring, incoming: Incoming): Event {
    if wiring.noAuth == null then Crashed
    else ForwardedPlain(wiring.noAuth, incoming.(header := Add(incoming.header, "Authorization", "")))
  }

  /** The namespace transport rewrites the URL; without one the URL stays. */
  function Routed(wiring: Wiring, incoming: Incoming): Forwarded {
    match wiring.mappings
    case None => Forwarded(incoming.path, incoming.query)
    case Some(table) => RoundTripped(incoming.path, incoming.query, table)
  }

  function SentAs(wiring: Wiring, name: string, groups: seq<string>, extra: Extra, incoming: Incoming): Event {
    if wiring.impersonating == null then Crashed
    else
      match Routed(wiring, incoming)
      case Panicked(_) => Crashed
      case Forwarded(path, query) =>
        ForwardedAs(name, groups, extra, wiring.impersonating, Incoming(incoming.header, path, query))
  }

  function As(wiring: Wiring, user: User, extra: Extra, incoming: Incoming): Event {
    SentAs(wiring, user.name, WithAllAuthenticated(user.groups), extra, incoming)
  }

  /** The user to act as, with the headers to forward: the inbound user, or the target of a client that may
      impersonate it. */
  datatype Acting = ActsAs(user: User, isTarget: bool, header: Header) | Ends(event: Event)

  function ActingFor(wiring: Wiring, user: User, header: Header, oracle: Oracle,
                     order: seq<string>, keepOrder: seq<string>): Acting
  {
    if !HasImpersonation(header) then ActsAs(user, false, header)
    else if !wiring.hasAccessReviewer then Ends(Crashed)
    else
      var checked := Check(oracle, user, header, order);
      match checked.verdict
      case Rejected(error) => Ends(Answer(wiring, error))
      case IndexPanic => Ends(Crashed)
      case Accepted => ActsAs(checked.target, true, Fold(KeepStep(header), map[], keepOrder))
  }

  function ForwardedFor(settings: Settings, wiring: Wiring, acting: User, isTarget: bool, inbound: User,
                        incoming: Incoming, marshal: Marshal, addr: string): Event
  {
    var extra := WithExtras(acting.extra, ClientIP(settings, addr), settings.extraUserHeaders);
    if !isTarget then As(wiring, acting, extra, incoming)
    else
      match OnRecord(extra, inbound, marshal)
      case Recorded(recorded) => As(wiring, acting, recorded, incoming)
      case NotRecorded(error) => Answer(wiring, error)
  }

  /** What a request of a user leaves in the user's own map: the client address and the configured values are added in
      place, unless the request acts as somebody else. */
  function OwnExtra(settings: Settings, own: Extra, header: Header, addr: string): Extra {
    if HasImpersonation(header) then own else WithExtras(own, ClientIP(settings, addr), settings.extraUserHeaders)
  }

  function ServedUser(settings: Settings, wiring: Wiring, user: User, incoming: Incoming, oracle: Oracle,
                      marshal: Marshal, addr: string, order: seq<string>, keepOrder: seq<string>): Event
  {
    AfterDeciding(settings, wiring, ActingFor(wiring, user, incoming.header, oracle, order, keepOrder),
                  user, incoming, marshal, addr)
  }

  function AfterDeciding(settings: Settings, wiring: Wiring, decided: Acting, user: User, incoming: Incoming,
                         marshal: Marshal, addr: string): Event
  {
    match decided
    case Ends(event) => event
    case ActsAs(acting, isTarget, header) =>
      ForwardedFor(settings, wiring, acting, isTarget, user, incoming.(header := header), marshal, addr)
  }

  /** The whole chain, from the authenticator's answer to the transport. `incoming.header` is the header map as the
      authenticator leaves it: on success it has removed Authorization from it. */
  function Served(settings: Settings, wiring: Wiring, auth: Auth, token: TokenAnswer, incoming: Incoming,
                  oracle: Oracle, marshal: Marshal, addr: string, order: seq<string>, keepOrder: seq<string>): Event
  {
    match auth
    case AuthRefused => Answer(wiring, Unauthorized)
    case AuthError =>
      if !settings.tokenReview then Answer(wiring, Unauthorized)
      else if !wiring.hasTokenReviewer then Crashed
      else if token == TokenAnswered(true) then Plain(wiring, incoming)
      else Answer(wiring, Unauthorized)
    case Authenticated(user) =>
      if settings.disableImpersonation then Plain(wiring, incoming)
      else if user.name == "" then Answer(wiring, NoName)
      else ServedUser(settings, wiring, user, incoming, oracle, marshal, addr, order, keepOrder)
  }

  // ------------------------------------------------------------- theorems

  /** What Run and the command line establish before the first request is served. */
  predicate IsWired(settings: Settings, wiring: Wiring) {
    && wiring.impersonating != null && wiring.hasAccessReviewer && wiring.hasErrorHandler
    && (settings.disableImpersonation || settings.tokenReview ==> wiring.noAuth != null)
    && (settings.tokenReview ==> wiring.hasTokenReviewer)
  }

  ghost predicate MayImpersonate(user: User, header: Header, oracle: Oracle, marshal: Marshal) {
    HasImpersonation(header) ==>
      && HasUser(header) && Authorised(oracle, user, header)
      && (user.extra == map[] || marshal(user.extra).Json?)
  }

  lemma ForwardedForExactly(settings: Settings, wiring: Wiring, acting: User, isTarget: bool, inbound: User,
                            incoming: Incoming, marshal: Marshal, addr: string)
    requires wiring.impersonating != null && wiring.hasErrorHandler
    ensures var event := ForwardedFor(settings, wiring, acting, isTarget, inbound, incoming, marshal, addr);
            var recorded := isTarget ==> inbound.extra == map[] || marshal(inbound.extra).Json?;
            && !event.ForwardedPlain?
            && (event.ForwardedAs? <==> recorded && Routed(wiring, incoming).Forwarded?)
            && (event.Crashed? <==> recorded && Routed(wiring, incoming).Panicked?)
            && (event.Responded? ==> event.error.Foreign?)
  {
  }

  /** The URL decides alone what the rewriter does with it. */
  lemma RoutedIgnoresHeaders(wiring: Wiring, incoming: Incoming, header: Header)
    ensures Routed(wiring, incoming.(header := header)) == Routed(wiring, incoming)
  {
  }

  lemma UserOutcomesExactly(settings: Settings, wiring: Wiring, user: User, incoming: Incoming, oracle: Oracle,
                            marshal: Marshal, addr: string, order: seq<string>, keepOrder: seq<string>)
    requires wiring.impersonating != null && wiring.hasAccessReviewer && wiring.hasErrorHandler
    requires IsOrder(order, incoming.header.Keys)
    ensures var event := ServedUser(settings, wiring, user, incoming, oracle, marshal, addr, order, keepOrder);
            var verdict := Check(oracle, user, incoming.header, order).verdict;
            && !event.ForwardedPlain?
            && (event.ForwardedAs? <==>
                  MayImpersonate(user, incoming.header, oracle, marshal) && Routed(wiring, incoming).Forwarded?)
            && (event.Crashed? <==>
                  || (HasImpersonation(incoming.header) && verdict == IndexPanic)
                  || (MayImpersonate(user, incoming.header, oracle, marshal) && Routed(wiring, incoming).Panicked?))
            && (event.Responded? ==> IsCheckError(event.error))
  {
    var header := incoming.header;
    match ActingFor(wiring, user, header, oracle, order, keepOrder) {
      case ActsAs(acting, isTarget, kept) =>
        ForwardedForExactly(settings, wiring, acting, isTarget, user, incoming.(header := kept), marshal, addr);
        RoutedIgnoresHeaders(wiring, incoming, kept);
      case Ends(_) =>
    }
    if HasImpersonation(header) {
      AcceptedExactlyWhenAuthorised(oracle, user, header, order);
      CheckEndsProperly(oracle, user, header, order);
      if Authorised(oracle, user, header) {
        AuthorisedNeedsUser(oracle, user, header);
      }
    }
  }

  /** The request is that of a named user whose impersonation is not switched off. */
  predicate ActsForUser(settings: Settings, auth: Auth) {
    auth.Authenticated? && !settings.disableImpersonation && auth.user.name != ""
  }

  /** Exactly when each outcome occurs. A request is forwarded without impersonation, forwarded with it, or
      answered with an error, which is never the missing configuration; what is forwarded does not depend on
      the order of any map. A crash is an index out of range, in the check or in the rewriter. */
  lemma OutcomesExactly(settings: Settings, wiring: Wiring, auth: Auth, token: TokenAnswer, incoming: Incoming,
                        oracle: Oracle, marshal: Marshal, addr: string, order: seq<string>, keepOrder: seq<string>)
    requires IsWired(settings, wiring) && IsOrder(order, incoming.header.Keys)
    ensures var event := Served(settings, wiring, auth, token, incoming, oracle, marshal, addr, order, keepOrder);
            && (event.ForwardedPlain? <==>
                  || (auth.Authenticated? && settings.disableImpersonation)
                  || (auth.AuthError? && settings.tokenReview && token == TokenAnswered(true)))
            && (event.ForwardedAs? <==>
                  && ActsForUser(settings, auth)
                  && MayImpersonate(auth.user, incoming.header, oracle, marshal) && Routed(wiring, incoming).Forwarded?)
            && (event.Crashed? <==>
                  && ActsForUser(settings, auth)
                  && (|| (HasImpersonation(incoming.header)
                          && Check(oracle, auth.user, incoming.header, order).verdict == IndexPanic)
                      || (MayImpersonate(auth.user, incoming.header, oracle, marshal)
                          && Routed(wiring, incoming).Panicked?)))
            && (event.Responded? ==> event.error != NoImpersonationConfig)
  {
    if ActsForUser(settings, auth) {
      UserOutcomesExactly(settings, wiring, auth.user, incoming, oracle, marshal, addr, order, keepOrder);
    }
  }

  /** When a request can crash at all. */
  ghost predicate MayCrash(settings: Settings, wiring: Wiring, auth: Auth, incoming: Incoming, oracle: Oracle,
                           marshal: Marshal) {
    && ActsForUser(settings, auth)
    && (|| MayPanic(incoming.header)
        || (MayImpersonate(auth.user, incoming.header, oracle, marshal) && Routed(wiring, incoming).Panicked?))
  }

  ghost predicate SomeOrderCrashes(settings: Settings, wiring: Wiring, auth: Auth, token: TokenAnswer,
                                   incoming: Incoming, oracle: Oracle, marshal: Marshal, addr: string)
  {
    exists order, keepOrder :: && IsOrder(order, incoming.header.Keys) && IsOrder(keepOrder, incoming.header.Keys)
                               && Served(settings, wiring, auth, token, incoming, oracle, marshal, addr,
                                         order, keepOrder).Crashed?
  }

  /** Some order of the header map makes the request crash if and only if a user or UID header has no value beside a
      user header that has one, or the request is authorised and its URL is one that the rewriter cannot index. */
  lemma CrashesExactly(settings: Settings, wiring: Wiring, auth: Auth, token: TokenAnswer, incoming: Incoming,
                       oracle: Oracle, marshal: Marshal, addr: string)
    requires IsWired(settings, wiring)
    ensures SomeOrderCrashes(settings, wiring, auth, token, incoming, oracle, marshal, addr)
            <==> MayCrash(settings, wiring, auth, incoming, oracle, marshal)
  {
    if SomeOrderCrashes(settings, wiring, auth, token, incoming, oracle, marshal, addr) {
      var order, keepOrder :| && IsOrder(order, incoming.header.Keys) && IsOrder(keepOrder, incoming.header.Keys)
                              && Served(settings, wiring, auth, token, incoming, oracle, marshal, addr, order,
                                      keepOrder).Crashed?;
      CrashNeedsCause(settings, wiring, auth, token, incoming, oracle, marshal, addr, order, keepOrder);
    }
    if MayCrash(settings, wiring, auth, incoming, oracle, marshal) {
      var order := CrashingOrder(settings, wiring, auth, token, incoming, oracle, marshal, addr);
    }
  }

  lemma CrashNeedsCause(settings: Settings, wiring: Wiring, auth: Auth, token: TokenAnswer, incoming: Incoming,
                        oracle: Oracle, marshal: Marshal, addr: string, order: seq<string>, keepOrder: seq<string>)
    requires IsWired(settings, wiring) && IsOrder(order, incoming.header.Keys)
    requires Served(settings, wiring, auth, token, incoming, oracle, marshal, addr, order, keepOrder).Crashed?
    ensures MayCrash(settings, wiring, auth, incoming, oracle, marshal)
  {
    OutcomesExactly(settings, wiring, auth, token, incoming, oracle, marshal, addr, order, keepOrder);
    PanicsExactly(oracle, auth.user, incoming.header);
  }

  lemma CrashingOrder(settings: Settings, wiring: Wiring, auth: Auth, token: TokenAnswer, incoming: Incoming,
                      oracle: Oracle, marshal: Marshal, addr: string) returns (order: seq<string>)
    requires IsWired(settings, wiring) && MayCrash(settings, wiring, auth, incoming, oracle, marshal)
    ensures IsOrder(order, incoming.header.Keys)
    ensures Served(settings, wiring, auth, token, incoming, oracle, marshal, addr, order, order).Crashed?
  {
    if MayPanic(incoming.header) {
      PanicsExactly(oracle, auth.user, incoming.header);
      order :| && IsOrder(order, incoming.header.Keys)
               && Check(oracle, auth.user, incoming.header, order).verdict == IndexPanic;
      MayPanicHasImpersonation(incoming.header);
    } else {
      order := SomeOrder(incoming.header.Keys);
    }
    OutcomesExactly(settings, wiring, auth, token, incoming, oracle, marshal, addr, order, order);
  }

  lemma MayPanicHasImpersonation(header: Header)
    requires MayPanic(header)
    ensures HasImpersonation(header)
  {
    var k :| k in header && KindOf(k) in {UserKind, UidKind} && header[k] == [];
    assert IsImpersonation(k);
  }

  lemma AuthorisedNeedsUser(oracle: Oracle, user: User, header: Header)
    requires HasImpersonation(header) && Authorised(oracle, user, header)
    ensures HasUser(header)
  {
    var k :| k in header && IsImpersonation(k);
    assert HeaderPasses(oracle, user, header, k);
  }

  /** What an impersonated request carries: the headers of ActingFor, and the URL that the rewriter makes. */
  lemma ForwardedIsRouted(settings: Settings, wiring: Wiring, user: User, incoming: Incoming, oracle: Oracle,
                          marshal: Marshal, addr: string, order: seq<string>, keepOrder: seq<string>)
    ensures var event := ServedUser(settings, wiring, user, incoming, oracle, marshal, addr, order, keepOrder);
            event.ForwardedAs? ==>
              && ActingFor(wiring, user, incoming.header, oracle, order, keepOrder).ActsAs?
              && event.sent.header == ActingFor(wiring, user, incoming.header, oracle, order, keepOrder).header
              && Routed(wiring, incoming) == Forwarded(event.sent.path, event.sent.query)
  {
  }

  /** No header that the API server would read as impersonation reaches the impersonating transport; with
      canonical keys all the others do, unchanged. */
  lemma ForwardedHeadersAreClean(settings: Settings, wiring: Wiring, user: User, incoming: Incoming, oracle: Oracle,
                                 marshal: Marshal, addr: string, order: seq<string>, keepOrder: seq<string>)
    requires IsOrder(keepOrder, incoming.header.Keys)
    ensures var event := ServedUser(settings, wiring, user, incoming, oracle, marshal, addr, order, keepOrder);
            event.ForwardedAs? ==>
              && (forall k | k in event.sent.header :: !IsImpersonation(k))
              && (HasCanonicalKeys(incoming.header) ==>
                    event.sent.header
                    == if HasImpersonation(incoming.header) then Kept(incoming.header) else incoming.header)
  {
    ForwardedIsRouted(settings, wiring, user, incoming, oracle, marshal, addr, order, keepOrder);
    ForwardedHeaders(incoming.header, keepOrder);
  }

  /** From the client's path to the API server: a request of a mapped tenant that is forwarded names the tenant's own
      namespace if and only if it is confined, as it is with a region in front. */
  lemma ForwardedRequestsAreConfined(settings: Settings, wiring: Wiring, user: User, incoming: Incoming, oracle: Oracle,
                                     marshal: Marshal, addr: string, order: seq<string>, keepOrder: seq<string>)
    requires wiring.mappings.Some?
    requires var parts, table := Split(incoming.path, '/'), wiring.mappings.value;
             Tenant(parts) in table && Tenant(parts) != "" && '/' !in table[Tenant(parts)]
    ensures var event := ServedUser(settings, wiring, user, incoming, oracle, marshal, addr, order, keepOrder);
            var parts := Split(incoming.path, '/');
            var namespace := wiring.mappings.value[Tenant(parts)];
            event.ForwardedAs? ==> (NamesNamespace(event.sent.path, namespace) <==> IsConfined(parts, namespace))
  {
    ForwardedIsRouted(settings, wiring, user, incoming, oracle, marshal, addr, order, keepOrder);
    if Routed(wiring, incoming).Forwarded? {
      MappedTenantIsConfined(incoming.path, incoming.query, wiring.mappings.value);
    }
  }

  /** Per key, in order: the user's own values, the client address under its key, the configured values; so
      only the client-address key and the configured keys of the user's own map can change. */
  lemma ExtrasPerKey(own: Extra, clientIP: seq<string>, configured: Extra, k: string)
    ensures ValuesOf(WithExtras(own, clientIP, configured), k)
            == ValuesOf(own, k) + (if k == CLIENT_IP_KEY then clientIP else []) + ValuesOf(configured, k)
    ensures k != CLIENT_IP_KEY && k !in configured ==>
              (k in own <==> k in WithExtras(own, clientIP, configured))
              && ValuesOf(WithExtras(own, clientIP, configured), k) == ValuesOf(own, k)
  {
    assert ValuesOf(own, k) + [] + [] == ValuesOf(own, k);
  }

  lemma OriginalIsOnRecord(extra: Extra, inbound: User, json: string)
    ensures var r := WithOriginal(extra, inbound, json);
            && r[ORIGINAL_USER] == [inbound.name]
            && (inbound.groups != [] ==> ValuesOf(r, ORIGINAL_GROUPS) == inbound.groups)
            && (inbound.uid != "" ==> ValuesOf(r, ORIGINAL_UID) == [inbound.uid])
            && (inbound.groups == [] ==> ValuesOf(r, ORIGINAL_GROUPS) == ValuesOf(extra, ORIGINAL_GROUPS))
            && (inbound.uid == "" ==> ValuesOf(r, ORIGINAL_UID) == ValuesOf(extra, ORIGINAL_UID))
            && (inbound.extra != map[] ==> ValuesOf(r, ORIGINAL_EXTRA) == [json])
            && (inbound.extra == map[] ==> ValuesOf(r, ORIGINAL_EXTRA) == ValuesOf(extra, ORIGINAL_EXTRA))
            && forall k | k !in {ORIGINAL_USER, ORIGINAL_GROUPS, ORIGINAL_UID, ORIGINAL_EXTRA} ::
                    ValuesOf(r, k) == ValuesOf(extra, k)
  {
    assert |ORIGINAL_USER| == 29 && |ORIGINAL_GROUPS| == 31 && |ORIGINAL_UID| == 28 && |ORIGINAL_EXTRA| == 30;
  }

  /** What the inbound user has that belongs under a record key. */
  function OriginalValues(user: User, marshal: Marshal, key: string): seq<string> {
    if key == ORIGINAL_USER then [user.name]
    else if key == ORIGINAL_GROUPS then user.groups
    else if key == ORIGINAL_UID then if user.uid == "" then [] else [user.uid]
    else if key == ORIGINAL_EXTRA && user.extra != map[] && marshal(user.extra).Json? then [marshal(user.extra).text]
    else []
  }

  const RECORD_KEYS := {ORIGINAL_USER, ORIGINAL_GROUPS, ORIGINAL_UID, ORIGINAL_EXTRA}

  /** The record as it is forwarded: the inbound user's values, or else what was under the key before. */
  lemma RecordAt(extra: Extra, user: User, marshal: Marshal, key: string)
    requires OnRecord(extra, user, marshal).Recorded? && key in RECORD_KEYS
    ensures var recorded, original := OnRecord(extra, user, marshal).extra, OriginalValues(user, marshal, key);
            ValuesOf(recorded, key) == if original != [] then original else ValuesOf(extra, key)
  {
    OriginalIsOnRecord(extra, user, if marshal(user.extra).Json? then marshal(user.extra).text else "");
  }

  /** The extras of an impersonated request before the record is added. */
  lemma ForwardedExtras(settings: Settings, wiring: Wiring, user: User, incoming: Incoming, oracle: Oracle,
                        marshal: Marshal, addr: string, order: seq<string>, keepOrder: seq<string>)
    returns (extra: Extra)
    requires HasImpersonation(incoming.header) && IsOrder(order, incoming.header.Keys)
    requires ServedUser(settings, wiring, user, incoming, oracle, marshal, addr, order, keepOrder).ForwardedAs?
    ensures var target := Fold(TargetStep(incoming.header), NOBODY, order);
            extra == WithExtras(target.extra, ClientIP(settings, addr), settings.extraUserHeaders)
    ensures OnRecord(extra, user, marshal).Recorded?
    ensures ServedUser(settings, wiring, user, incoming, oracle, marshal, addr, order, keepOrder).extra
            == OnRecord(extra, user, marshal).extra
  {
    AcceptedExactlyWhenAuthorised(oracle, user, incoming.header, order);
    var target := Check(oracle, user, incoming.header, order).target;
    extra := WithExtras(target.extra, ClientIP(settings, addr), settings.extraUserHeaders);
  }

  /** Somebody else puts values under this key: the client through a header, or the configuration. */
  predicate IsFilledElsewhere(settings: Settings, header: Header, key: string) {
    FillsExtra(header, key) || ValuesOf(settings.extraUserHeaders, key) != []
  }

  /** When a client impersonates, the forwarded record of the inbound user's name, groups, UID or extras is exact if
      and only if the inbound user has some, or nobody else fills the key. */
  lemma OriginalUserIsForwarded(settings: Settings, wiring: Wiring, user: User, incoming: Incoming, oracle: Oracle,
                                marshal: Marshal, addr: string, order: seq<string>, keepOrder: seq<string>, key: string)
    requires HasImpersonation(incoming.header) && IsOrder(order, incoming.header.Keys) && key in RECORD_KEYS
    ensures var event := ServedUser(settings, wiring, user, incoming, oracle, marshal, addr, order, keepOrder);
            var original := OriginalValues(user, marshal, key);
            event.ForwardedAs? ==>
              (ValuesOf(event.extra, key) == original <==>
                 original != [] || !IsFilledElsewhere(settings, incoming.header, key))
  {
    if ServedUser(settings, wiring, user, incoming, oracle, marshal, addr, order, keepOrder).ForwardedAs? {
      var extra := ForwardedExtras(settings, wiring, user, incoming, oracle, marshal, addr, order, keepOrder);
      RecordAt(extra, user, marshal, key);
      ExtraIsFilledExactly(incoming.header, order, key);
      ExtrasPerKey(Fold(TargetStep(incoming.header), NOBODY, order).extra, ClientIP(settings, addr),
                   settings.extraUserHeaders, key);
      RecordKeysAreNotTheAddress();
    }
  }

  lemma RecordKeysAreNotTheAddress()
    ensures CLIENT_IP_KEY !in RECORD_KEYS
  {
    assert |CLIENT_IP_KEY| == 16;
    assert |ORIGINAL_USER| == 29 && |ORIGINAL_GROUPS| == 31 && |ORIGINAL_UID| == 28 && |ORIGINAL_EXTRA| == 30;
  }

  const EXTRA_PREFIX := "impersonate-extra-"

  /** The keys that net/http's server makes of the two headers. */
  const USER_HEADER := CanonicalKey("impersonate-user")
  const GROUPS_HEADER := CanonicalKey(EXTRA_PREFIX + ORIGINAL_GROUPS)

  /** A client that impersonates and also sends groups for the record. */
  function WithForgedGroups(target: string, forged: seq<string>): Header {
    map[USER_HEADER := [target], GROUPS_HEADER := forged]
  }

  lemma LowerOfParts(a: string, b: string)
    ensures Lower(a + b) == Lower(a) + Lower(b)
  {
  }

  lemma LowerAlready()
    ensures Lower("impersonate-user") == "impersonate-user" && Lower("groups") == "groups"
    ensures Lower(EXTRA_PREFIX) == EXTRA_PREFIX
  {
  }

  lemma LowerOriginal()
    ensures Lower(ORIGINAL) == ORIGINAL
  {
  }

  lemma LowerOfGroupsHeader()
    ensures Lower(GROUPS_HEADER) == EXTRA_PREFIX + ORIGINAL_GROUPS
  {
    CanonicalKeepsLower(EXTRA_PREFIX + ORIGINAL_GROUPS);
    LowerOfParts(EXTRA_PREFIX, ORIGINAL_GROUPS);
    LowerOfParts(ORIGINAL, "groups");
    LowerAlready();
    LowerOriginal();
  }

  lemma KindsOfHeaders()
    ensures KindOf(USER_HEADER) == UserKind && IsImpersonation(USER_HEADER)
    ensures KindOf(GROUPS_HEADER) == ExtraKind(ORIGINAL_GROUPS)
  {
    CanonicalKeepsLower("impersonate-user");
    LowerAlready();
    LiteralKinds(USER_HEADER);
    LowerOfGroupsHeader();
    LiteralExtra(GROUPS_HEADER, ORIGINAL_GROUPS);
  }

  lemma ForgedGroupsHeader(target: string, forged: seq<string>)
    requires target != ""
    ensures var header := WithForgedGroups(target, forged);
            && header.Keys == {USER_HEADER, GROUPS_HEADER}
            && header[USER_HEADER] == [target] && header[GROUPS_HEADER] == forged
            && HasUser(header) && HasImpersonation(header) && DistinctSlots(header)
  {
    var header := WithForgedGroups(target, forged);
    KindsOfHeaders();
    assert USER_HEADER in header && GROUPS_HEADER in header;
  }

  /** Why the record needs that condition: with a reviewer that allows everything, a user without groups can have any
      groups on record. */
  lemma ForgedGroupsAreForwarded(settings: Settings, wiring: Wiring, user: User, incoming: Incoming, oracle: Oracle,
                                 marshal: Marshal, addr: string, order: seq<string>, keepOrder: seq<string>,
                                 target: string, forged: seq<string>)
    requires IsWired(settings, wiring) && Routed(wiring, incoming).Forwarded? && IsOrder(order, incoming.header.Keys)
    requires user.groups == [] && user.extra == map[] && forall spec :: oracle(spec) == Reviewed(true)
    requires target != "" && forged != [] && incoming.header == WithForgedGroups(target, forged)
    requires ValuesOf(settings.extraUserHeaders, ORIGINAL_GROUPS) == []
    ensures var event := ServedUser(settings, wiring, user, incoming, oracle, marshal, addr, order, keepOrder);
            event.ForwardedAs? && ValuesOf(event.extra, ORIGINAL_GROUPS) == forged
  {
    ForgedIsForwarded(settings, wiring, user, incoming, oracle, marshal, addr, order, keepOrder, target, forged);
    var extra := ForwardedExtras(settings, wiring, user, incoming, oracle, marshal, addr, order, keepOrder);
    RecordAt(extra, user, marshal, ORIGINAL_GROUPS);
    ForgedTarget(target, forged, order);
    ForgedExtras(settings, Fold(TargetStep(incoming.header), NOBODY, order).extra, addr, forged);
  }

  lemma ForgedIsForwarded(settings: Settings, wiring: Wiring, user: User, incoming: Incoming, oracle: Oracle,
                          marshal: Marshal, addr: string, order: seq<string>, keepOrder: seq<string>,
                          target: string, forged: seq<string>)
    requires IsWired(settings, wiring) && Routed(wiring, incoming).Forwarded? && IsOrder(order, incoming.header.Keys)
    requires user.extra == map[] && forall spec :: oracle(spec) == Reviewed(true)
    requires target != "" && incoming.header == WithForgedGroups(target, forged)
    ensures ServedUser(settings, wiring, user, incoming, oracle, marshal, addr, order, keepOrder).ForwardedAs?
    ensures HasImpersonation(incoming.header)
  {
    ForgedGroupsHeader(target, forged);
    EverythingAllowed(oracle, user, target, forged);
    UserOutcomesExactly(settings, wiring, user, incoming, oracle, marshal, addr, order, keepOrder);
  }

  lemma ForgedTarget(target: string, forged: seq<string>, order: seq<string>)
    requires target != "" && IsOrder(order, WithForgedGroups(target, forged).Keys)
    ensures ValuesOf(Fold(TargetStep(WithForgedGroups(target, forged)), NOBODY, order).extra, ORIGINAL_GROUPS) == forged
  {
    ForgedGroupsHeader(target, forged);
    KindsOfHeaders();
    SlotIsFilled(WithForgedGroups(target, forged), order, GROUPS_HEADER);
  }

  lemma ForgedExtras(settings: Settings, own: Extra, addr: string, forged: seq<string>)
    requires ValuesOf(own, ORIGINAL_GROUPS) == forged && ValuesOf(settings.extraUserHeaders, ORIGINAL_GROUPS) == []
    ensures ValuesOf(WithExtras(own, ClientIP(settings, addr), settings.extraUserHeaders), ORIGINAL_GROUPS) == forged
  {
    ExtrasPerKey(own, ClientIP(settings, addr), settings.extraUserHeaders, ORIGINAL_GROUPS);
    RecordKeysAreNotTheAddress();
    assert forged + [] + [] == forged;
  }

  lemma EverythingAllowed(oracle: Oracle, user: User, target: string, forged: seq<string>)
    requires target != "" && forall spec :: oracle(spec) == Reviewed(true)
    ensures Authorised(oracle, user, WithForgedGroups(target, forged))
  {
    var header := WithForgedGroups(target, forged);
    ForgedGroupsHeader(target, forged);
    KindsOfHeaders();
    forall k | k in header ensures HeaderPasses(oracle, user, header, k) {
      assert k == USER_HEADER || k == GROUPS_HEADER;
    }
  }

  // ------------------------------------------------------------- when the order shows

  /** What the target holds of this kind is not forwarded: the UID never is, and the record of the inbound user covers
      the keys that it fills. */
  predicate IsHidden(kind: Kind, inbound: User) {
    || kind == UidKind
    || kind == ExtraKind(ORIGINAL_USER)
    || (kind == ExtraKind(ORIGINAL_GROUPS) && inbound.groups != [])
    || (kind == ExtraKind(ORIGINAL_UID) && inbound.uid != "")
    || (kind == ExtraKind(ORIGINAL_EXTRA) && inbound.extra != map[])
  }

  /** Two targets that are forwarded alike. */
  ghost predicate SameOutwardly(u: User, v: User, inbound: User) {
    && u.name == v.name && u.groups == v.groups
    && forall n | !IsHidden(ExtraKind(n), inbound) :: SameAt(u.extra, v.extra, n)
  }

  predicate SameAt(x: Extra, y: Extra, n: string) {
    (n in x <==> n in y) && ValuesOf(x, n) == ValuesOf(y, n)
  }

  lemma AppendedSameAt(x: Extra, y: Extra, name: string, values: seq<string>, n: string)
    requires SameAt(x, y, n)
    ensures SameAt(AppendedAll(x, name, values), AppendedAll(y, name, values), n)
  {
  }

  /** The headers whose contents show. */
  function Shown(header: Header, inbound: User): Header {
    map k | k in header && !IsHidden(KindOf(k), inbound) :: header[k]
  }

  /** A hidden header changes nothing that shows. */
  lemma HiddenHeader(inbound: User, u: User, v: User, k: string, values: seq<string>)
    requires SameOutwardly(u, v, inbound) && IsHidden(KindOf(k), inbound)
    ensures SameOutwardly(ApplyHeader(u, k, values), v, inbound)
  {
  }

  /** Any other does the same to both. */
  lemma ShownHeader(inbound: User, u: User, v: User, k: string, values: seq<string>)
    requires SameOutwardly(u, v, inbound)
    ensures SameOutwardly(ApplyHeader(u, k, values), ApplyHeader(v, k, values), inbound)
  {
    if KindOf(k).ExtraKind? {
      var name := KindOf(k).name;
      forall n | !IsHidden(ExtraKind(n), inbound)
        ensures SameAt(AppendedAll(u.extra, name, values), AppendedAll(v.extra, name, values), n)
      {
        AppendedSameAt(u.extra, v.extra, name, values, n);
      }
    }
  }

  lemma StepOutwardly(header: Header, inbound: User, u: User, v: User, k: string)
    requires SameOutwardly(u, v, inbound)
    ensures SameOutwardly(TargetStep(header)(u, k), TargetStep(Shown(header, inbound))(v, k), inbound)
  {
    if k in header {
      if IsHidden(KindOf(k), inbound) {
        HiddenHeader(inbound, u, v, k, header[k]);
      } else {
        ShownHeader(inbound, u, v, k, header[k]);
      }
    }
  }

  lemma {:induction false} FoldOutwardly(header: Header, inbound: User, u: User, v: User, order: seq<string>)
    requires SameOutwardly(u, v, inbound)
    ensures SameOutwardly(Fold(TargetStep(header), u, order), Fold(TargetStep(Shown(header, inbound)), v, order),
                          inbound)
    decreases |order|
  {
    if order != [] {
      StepOutwardly(header, inbound, u, v, order[0]);
      FoldOutwardly(header, inbound, TargetStep(header)(u, order[0]), TargetStep(Shown(header, inbound))(v, order[0]),
                    order[1..]);
    }
  }

  /** No two spellings disagree on anything that is forwarded. */
  predicate ShowsNoOrder(header: Header, inbound: User) {
    forall a, b | a in header && b in header :: IsHidden(KindOf(a), inbound) || SlotsAgree(header, a, b)
  }

  lemma ShownCommute(header: Header, inbound: User, a: string, b: string)
    requires ShowsNoOrder(header, inbound) && a in header && b in header
    ensures Commute(TargetStep(Shown(header, inbound)), a, b)
  {
    var shown := Shown(header, inbound);
    var step := TargetStep(shown);
    forall t ensures step(step(t, a), b) == step(step(t, b), a) {
      if a in shown && b in shown {
        assert SlotsAgree(header, a, b);
        SlotsAgreeExactly(shown, a, b, t);
      }
    }
  }

  lemma TargetsShowNoOrder(header: Header, inbound: User, o1: seq<string>, o2: seq<string>)
    requires ShowsNoOrder(header, inbound) && IsOrder(o1, header.Keys) && IsOrder(o2, header.Keys)
    ensures SameOutwardly(Fold(TargetStep(header), NOBODY, o1), Fold(TargetStep(header), NOBODY, o2), inbound)
  {
    FoldOutwardly(header, inbound, NOBODY, NOBODY, o1);
    FoldOutwardly(header, inbound, NOBODY, NOBODY, o2);
    forall a, b | a in header.Keys && b in header.Keys ensures Commute(TargetStep(Shown(header, inbound)), a, b) {
      ShownCommute(header, inbound, a, b);
    }
    FoldIsOrderFree(TargetStep(Shown(header, inbound)), NOBODY, header.Keys, o1, o2);
    var g := Fold(TargetStep(Shown(header, inbound)), NOBODY, o1);
    SameThrough(Fold(TargetStep(header), NOBODY, o1), g, Fold(TargetStep(header), NOBODY, o2), inbound);
  }

  lemma SameThrough(u: User, g: User, v: User, inbound: User)
    requires SameOutwardly(u, g, inbound) && SameOutwardly(v, g, inbound)
    ensures SameOutwardly(u, v, inbound)
  {
    forall n | !IsHidden(ExtraKind(n), inbound) ensures SameAt(u.extra, v.extra, n) {
      assert SameAt(u.extra, g.extra, n) && SameAt(v.extra, g.extra, n);
    }
  }

  /** A key that the record covers, or one that it leaves as it is. */
  lemma RecordedKey(extra: Extra, inbound: User, json: string, n: string)
    ensures var r := WithOriginal(extra, inbound, json);
            if IsHidden(ExtraKind(n), inbound) then n in r
            else (n in r <==> n in extra) && ValuesOf(r, n) == ValuesOf(extra, n)
    ensures IsHidden(ExtraKind(n), inbound) ==>
              forall other: Extra :: ValuesOf(WithOriginal(other, inbound, json), n)
                                     == ValuesOf(WithOriginal(extra, inbound, json), n)
  {
    assert |ORIGINAL_USER| == 29 && |ORIGINAL_GROUPS| == 31 && |ORIGINAL_UID| == 28 && |ORIGINAL_EXTRA| == 30;
  }

  lemma SameExtras(u: User, v: User, inbound: User, clientIP: seq<string>, configured: Extra, json: string)
    requires SameOutwardly(u, v, inbound)
    ensures WithOriginal(WithExtras(u.extra, clientIP, configured), inbound, json)
            == WithOriginal(WithExtras(v.extra, clientIP, configured), inbound, json)
  {
    var eu, ev := WithExtras(u.extra, clientIP, configured), WithExtras(v.extra, clientIP, configured);
    var ru, rv := WithOriginal(eu, inbound, json), WithOriginal(ev, inbound, json);
    forall n ensures SameAt(ru, rv, n) {
      assert IsHidden(ExtraKind(n), inbound) || SameAt(u.extra, v.extra, n);
      RecordedKey(eu, inbound, json, n);
      RecordedKey(ev, inbound, json, n);
      ExtrasPerKey(u.extra, clientIP, configured, n);
      ExtrasPerKey(v.extra, clientIP, configured, n);
    }
    SameMaps(ru, rv);
  }

  lemma SameMaps(x: Extra, y: Extra)
    requires forall n :: SameAt(x, y, n)
    ensures x == y
  {
    forall n ensures (n in x <==> n in y) && (n in x ==> x[n] == y[n]) {
      assert SameAt(x, y, n);
    }
  }

  lemma SameForwarded(settings: Settings, wiring: Wiring, u: User, v: User, inbound: User, incoming: Incoming,
                      marshal: Marshal, addr: string)
    requires SameOutwardly(u, v, inbound)
    ensures ForwardedFor(settings, wiring, u, true, inbound, incoming, marshal, addr)
            == ForwardedFor(settings, wiring, v, true, inbound, incoming, marshal, addr)
  {
    var json := if marshal(inbound.extra).Json? then marshal(inbound.extra).text else "";
    SameExtras(u, v, inbound, ClientIP(settings, addr), settings.extraUserHeaders, json);
    SameExtras(u, v, inbound, ClientIP(settings, addr), settings.extraUserHeaders, "");
  }

  lemma GroupsShow(g1: seq<string>, g2: seq<string>)
    requires |g1| == |g2| && WithAllAuthenticated(g1) == WithAllAuthenticated(g2)
    ensures g1 == g2
  {
    if ALL_AUTHENTICATED !in g1 {
      assert WithAllAuthenticated(g1)[..|g1|] == g1;
      assert WithAllAuthenticated(g2)[..|g2|] == g2;
    }
  }

  lemma ExtraShows(u: Extra, v: Extra, inbound: User, clientIP: seq<string>, configured: Extra, json: string, n: string)
    requires !IsHidden(ExtraKind(n), inbound)
    requires WithOriginal(WithExtras(u, clientIP, configured), inbound, json)
             == WithOriginal(WithExtras(v, clientIP, configured), inbound, json)
    ensures ValuesOf(u, n) == ValuesOf(v, n)
  {
    RecordedKey(WithExtras(u, clientIP, configured), inbound, json, n);
    RecordedKey(WithExtras(v, clientIP, configured), inbound, json, n);
    ExtrasPerKey(u, clientIP, configured, n);
    ExtrasPerKey(v, clientIP, configured, n);
    var mid := if n == CLIENT_IP_KEY then clientIP else [];
    SamePrefix(ValuesOf(u, n), ValuesOf(v, n), mid, ValuesOf(configured, n));
  }

  lemma SamePrefix(x: seq<string>, y: seq<string>, mid: seq<string>, end: seq<string>)
    requires x + mid + end == y + mid + end
    ensures x == y
  {
    assert |x| == |y|;
    assert (x + mid + end)[..|x|] == x && (y + mid + end)[..|y|] == y;
  }

  /** Two spellings that disagree on something that is forwarded make two events. */
  lemma DisagreementShows(settings: Settings, wiring: Wiring, t: User, header: Header, a: string, b: string,
                          inbound: User, incoming: Incoming, marshal: Marshal, addr: string)
    requires a in header && b in header && KindOf(a) == KindOf(b) && !IsHidden(KindOf(a), inbound)
    requires !Swaps(t, a, b, header[a], header[b])
    requires var u := ApplyHeader(ApplyHeader(t, a, header[a]), b, header[b]);
             ForwardedFor(settings, wiring, u, true, inbound, incoming, marshal, addr).ForwardedAs?
    ensures var u := ApplyHeader(ApplyHeader(t, a, header[a]), b, header[b]);
            var v := ApplyHeader(ApplyHeader(t, b, header[b]), a, header[a]);
            ForwardedFor(settings, wiring, u, true, inbound, incoming, marshal, addr)
            != ForwardedFor(settings, wiring, v, true, inbound, incoming, marshal, addr)
  {
    var u := ApplyHeader(ApplyHeader(t, a, header[a]), b, header[b]);
    var v := ApplyHeader(ApplyHeader(t, b, header[b]), a, header[a]);
    if ForwardedFor(settings, wiring, u, true, inbound, incoming, marshal, addr)
       == ForwardedFor(settings, wiring, v, true, inbound, incoming, marshal, addr)
    {
      EqualEventsShow(settings, wiring, u, v, inbound, incoming, marshal, addr);
      SwapDiffers(t, a, b, header[a], header[b], inbound);
    }
  }

  /** What two targets have in common when their events are the same. */
  ghost predicate ShowAlike(u: User, v: User, inbound: User) {
    && u.name == v.name && (|u.groups| == |v.groups| ==> u.groups == v.groups)
    && forall n | !IsHidden(ExtraKind(n), inbound) :: ValuesOf(u.extra, n) == ValuesOf(v.extra, n)
  }

  lemma EqualEventsShow(settings: Settings, wiring: Wiring, u: User, v: User, inbound: User, incoming: Incoming,
                        marshal: Marshal, addr: string)
    requires ForwardedFor(settings, wiring, u, true, inbound, incoming, marshal, addr).ForwardedAs?
    requires ForwardedFor(settings, wiring, u, true, inbound, incoming, marshal, addr)
             == ForwardedFor(settings, wiring, v, true, inbound, incoming, marshal, addr)
    ensures ShowAlike(u, v, inbound)
  {
    var clientIP := ClientIP(settings, addr);
    var json := if inbound.extra != map[] && marshal(inbound.extra).Json? then marshal(inbound.extra).text else "";
    forall n | !IsHidden(ExtraKind(n), inbound) ensures ValuesOf(u.extra, n) == ValuesOf(v.extra, n) {
      ExtraShows(u.extra, v.extra, inbound, clientIP, settings.extraUserHeaders, json, n);
    }
    if |u.groups| == |v.groups| {
      GroupsShow(u.groups, v.groups);
    }
  }

  lemma SwapDiffers(t: User, a: string, b: string, va: seq<string>, vb: seq<string>, inbound: User)
    requires KindOf(a) == KindOf(b) && !IsHidden(KindOf(a), inbound) && !Swaps(t, a, b, va, vb)
    ensures !ShowAlike(ApplyHeader(ApplyHeader(t, a, va), b, vb), ApplyHeader(ApplyHeader(t, b, vb), a, va), inbound)
  {
    if KindOf(a).ExtraKind? {
      var name := KindOf(a).name;
      SameExtra(t, a, b, va, vb);
      ExtraTwice(t.extra, name, va, vb);
      ExtraTwice(t.extra, name, vb, va);
      ConcatCancels(ValuesOf(t.extra, name), va, vb);
    }
  }

  ghost predicate AllOrdersAgree(settings: Settings, wiring: Wiring, user: User, incoming: Incoming, oracle: Oracle,
                                 marshal: Marshal, addr: string)
  {
    forall o1, k1, o2, k2 | && IsOrder(o1, incoming.header.Keys) && IsOrder(k1, incoming.header.Keys)
                            && IsOrder(o2, incoming.header.Keys) && IsOrder(k2, incoming.header.Keys) ::
      ServedUser(settings, wiring, user, incoming, oracle, marshal, addr, o1, k1)
      == ServedUser(settings, wiring, user, incoming, oracle, marshal, addr, o2, k2)
  }

  /** When the order of the header map does not show: there is nothing to check, or all headers that fail do so for
      the same reason, or what is forwarded, if anything is, depends on no two spellings. */
  ghost predicate OrderDoesNotShow(wiring: Wiring, user: User, incoming: Incoming, oracle: Oracle, marshal: Marshal) {
    HasImpersonation(incoming.header) ==>
      if !Authorised(oracle, user, incoming.header) then FailAlike(oracle, user, incoming.header)
      else (user.extra == map[] || marshal(user.extra).Json?) && Routed(wiring, incoming).Forwarded? ==>
             ShowsNoOrder(incoming.header, user)
  }

  /** The event of a check that fails. */
  lemma FailedEvent(settings: Settings, wiring: Wiring, user: User, incoming: Incoming, oracle: Oracle,
                    marshal: Marshal, addr: string, order: seq<string>, keepOrder: seq<string>)
    requires wiring.hasAccessReviewer && wiring.hasErrorHandler && HasImpersonation(incoming.header)
    requires Check(oracle, user, incoming.header, order).verdict != Accepted
    ensures ServedUser(settings, wiring, user, incoming, oracle, marshal, addr, order, keepOrder)
            == match Check(oracle, user, incoming.header, order).verdict
               case Rejected(error) => Responded(StatusOf(error), error)
               case _ => Crashed
  {
  }

  /** The event of a check that succeeds. */
  lemma AcceptedEvent(settings: Settings, wiring: Wiring, user: User, incoming: Incoming, oracle: Oracle,
                      marshal: Marshal, addr: string, order: seq<string>, keepOrder: seq<string>)
    requires wiring.hasAccessReviewer && HasImpersonation(incoming.header)
    requires Authorised(oracle, user, incoming.header) && IsOrder(order, incoming.header.Keys)
    ensures ServedUser(settings, wiring, user, incoming, oracle, marshal, addr, order, keepOrder)
            == ForwardedFor(settings, wiring, Fold(TargetStep(incoming.header), NOBODY, order), true, user,
                            incoming.(header := Fold(KeepStep(incoming.header), map[], keepOrder)), marshal, addr)
  {
    AcceptedExactlyWhenAuthorised(oracle, user, incoming.header, order);
  }

  /** A target that is not forwarded makes no difference. */
  lemma NotForwarded(settings: Settings, wiring: Wiring, u: User, v: User, inbound: User, incoming: Incoming,
                     marshal: Marshal, addr: string)
    requires !((inbound.extra == map[] || marshal(inbound.extra).Json?) && Routed(wiring, incoming).Forwarded?)
    ensures ForwardedFor(settings, wiring, u, true, inbound, incoming, marshal, addr)
            == ForwardedFor(settings, wiring, v, true, inbound, incoming, marshal, addr)
  {
  }

  lemma AcceptedEventsAgree(settings: Settings, wiring: Wiring, user: User, incoming: Incoming, oracle: Oracle,
                            marshal: Marshal, addr: string, o1: seq<string>, k1: seq<string>,
                            o2: seq<string>, k2: seq<string>)
    requires var keys := incoming.header.Keys;
             IsOrder(o1, keys) && IsOrder(k1, keys) && IsOrder(o2, keys) && IsOrder(k2, keys)
    requires wiring.hasAccessReviewer && HasImpersonation(incoming.header) && Authorised(oracle, user, incoming.header)
    requires OrderDoesNotShow(wiring, user, incoming, oracle, marshal)
    ensures ServedUser(settings, wiring, user, incoming, oracle, marshal, addr, o1, k1)
            == ServedUser(settings, wiring, user, incoming, oracle, marshal, addr, o2, k2)
  {
    var header := incoming.header;
    AcceptedEvent(settings, wiring, user, incoming, oracle, marshal, addr, o1, k1);
    AcceptedEvent(settings, wiring, user, incoming, oracle, marshal, addr, o2, k2);
    KeptIsOrderFree(header, k1, k2);
    var sent := incoming.(header := Fold(KeepStep(header), map[], k1));
    var u, v := Fold(TargetStep(header), NOBODY, o1), Fold(TargetStep(header), NOBODY, o2);
    RoutedIgnoresHeaders(wiring, incoming, sent.header);
    if (user.extra == map[] || marshal(user.extra).Json?) && Routed(wiring, incoming).Forwarded? {
      TargetsShowNoOrder(header, user, o1, o2);
      SameForwarded(settings, wiring, u, v, user, sent, marshal, addr);
    } else {
      NotForwarded(settings, wiring, u, v, user, sent, marshal, addr);
    }
  }

  /** Which request is forwarded, where to, and as what, does not depend on the order of the header map, unless two
      spellings disagree on something that is forwarded. */
  lemma ForwardingIsOrderFree(settings: Settings, wiring: Wiring, user: User, incoming: Incoming, oracle: Oracle,
                              marshal: Marshal, addr: string, o1: seq<string>, k1: seq<string>,
                              o2: seq<string>, k2: seq<string>)
    requires var keys := incoming.header.Keys;
             IsOrder(o1, keys) && IsOrder(k1, keys) && IsOrder(o2, keys) && IsOrder(k2, keys)
    requires ShowsNoOrder(incoming.header, user)
    ensures var e1 := ServedUser(settings, wiring, user, incoming, oracle, marshal, addr, o1, k1);
            var e2 := ServedUser(settings, wiring, user, incoming, oracle, marshal, addr, o2, k2);
            e1.ForwardedAs? || e2.ForwardedAs? ==> e1 == e2
  {
    if HasImpersonation(incoming.header) && wiring.hasAccessReviewer {
      AcceptedExactlyWhenAuthorised(oracle, user, incoming.header, o1);
      AcceptedExactlyWhenAuthorised(oracle, user, incoming.header, o2);
      if Authorised(oracle, user, incoming.header) {
        AcceptedEventsAgree(settings, wiring, user, incoming, oracle, marshal, addr, o1, k1, o2, k2);
      }
    }
  }

  lemma FailedEventsAgree(settings: Settings, wiring: Wiring, user: User, incoming: Incoming, oracle: Oracle,
                          marshal: Marshal, addr: string, o1: seq<string>, k1: seq<string>,
                          o2: seq<string>, k2: seq<string>)
    requires IsOrder(o1, incoming.header.Keys) && IsOrder(o2, incoming.header.Keys)
    requires wiring.hasAccessReviewer && wiring.hasErrorHandler && HasImpersonation(incoming.header)
    requires !Authorised(oracle, user, incoming.header) && FailAlike(oracle, user, incoming.header)
    ensures ServedUser(settings, wiring, user, incoming, oracle, marshal, addr, o1, k1)
            == ServedUser(settings, wiring, user, incoming, oracle, marshal, addr, o2, k2)
  {
    AcceptedExactlyWhenAuthorised(oracle, user, incoming.header, o1);
    AcceptedExactlyWhenAuthorised(oracle, user, incoming.header, o2);
    VerdictIsOrderFreeExactly(oracle, user, incoming.header);
    FailedEvent(settings, wiring, user, incoming, oracle, marshal, addr, o1, k1);
    FailedEvent(settings, wiring, user, incoming, oracle, marshal, addr, o2, k2);
  }

  lemma FailuresShow(settings: Settings, wiring: Wiring, user: User, incoming: Incoming, oracle: Oracle,
                     marshal: Marshal, addr: string)
    requires wiring.hasAccessReviewer && wiring.hasErrorHandler && HasImpersonation(incoming.header)
    requires !FailAlike(oracle, user, incoming.header)
    ensures !AllOrdersAgree(settings, wiring, user, incoming, oracle, marshal, addr)
  {
    var header := incoming.header;
    var a, b :| && a in header && b in header
                && StepAt(oracle, user, header, a).0 != Accepted && StepAt(oracle, user, header, b).0 != Accepted
                && StepAt(oracle, user, header, a).0 != StepAt(oracle, user, header, b).0;
    var oa := FailingFirst(oracle, user, header, a);
    var ob := FailingFirst(oracle, user, header, b);
    FailedEvent(settings, wiring, user, incoming, oracle, marshal, addr, oa, oa);
    FailedEvent(settings, wiring, user, incoming, oracle, marshal, addr, ob, ob);
  }

  lemma SpellingsShow(settings: Settings, wiring: Wiring, user: User, incoming: Incoming, oracle: Oracle,
                      marshal: Marshal, addr: string)
    requires wiring.impersonating != null && wiring.hasAccessReviewer && wiring.hasErrorHandler
    requires HasImpersonation(incoming.header) && Authorised(oracle, user, incoming.header)
    requires (user.extra == map[] || marshal(user.extra).Json?) && Routed(wiring, incoming).Forwarded?
    requires !ShowsNoOrder(incoming.header, user)
    ensures !AllOrdersAgree(settings, wiring, user, incoming, oracle, marshal, addr)
  {
    var header := incoming.header;
    var a, b :| a in header && b in header && !IsHidden(KindOf(a), user) && !SlotsAgree(header, a, b);
    var o1, o2, t := DisagreeingOrders(header, a, b);
    var sent := incoming.(header := Fold(KeepStep(header), map[], o1));
    AcceptedEvent(settings, wiring, user, incoming, oracle, marshal, addr, o1, o1);
    AcceptedEvent(settings, wiring, user, incoming, oracle, marshal, addr, o2, o1);
    RoutedIgnoresHeaders(wiring, incoming, sent.header);
    ForwardedForExactly(settings, wiring, Fold(TargetStep(header), NOBODY, o1), true, user, sent, marshal, addr);
    DisagreementShows(settings, wiring, t, header, a, b, user, sent, marshal, addr);
    assert ServedUser(settings, wiring, user, incoming, oracle, marshal, addr, o1, o1)
           != ServedUser(settings, wiring, user, incoming, oracle, marshal, addr, o2, o1);
  }

  /** The whole event, error responses and crashes included, is the same for all orders of the header map if and only
      if the order does not show. */
  lemma EventIsOrderFree(settings: Settings, wiring: Wiring, user: User, incoming: Incoming, oracle: Oracle,
                         marshal: Marshal, addr: string)
    requires wiring.impersonating != null && wiring.hasAccessReviewer && wiring.hasErrorHandler
    ensures AllOrdersAgree(settings, wiring, user, incoming, oracle, marshal, addr)
            <==> OrderDoesNotShow(wiring, user, incoming, oracle, marshal)
  {
    if OrderDoesNotShow(wiring, user, incoming, oracle, marshal) {
      forall o1, k1, o2, k2 | && IsOrder(o1, incoming.header.Keys) && IsOrder(k1, incoming.header.Keys)
                              && IsOrder(o2, incoming.header.Keys) && IsOrder(k2, incoming.header.Keys)
        ensures ServedUser(settings, wiring, user, incoming, oracle, marshal, addr, o1, k1)
                == ServedUser(settings, wiring, user, incoming, oracle, marshal, addr, o2, k2)
      {
        if HasImpersonation(incoming.header) {
          if Authorised(oracle, user, incoming.header) {
            AcceptedEventsAgree(settings, wiring, user, incoming, oracle, marshal, addr, o1, k1, o2, k2);
          } else {
            FailedEventsAgree(settings, wiring, user, incoming, oracle, marshal, addr, o1, k1, o2, k2);
          }
        }
      }
    } else if Authorised(oracle, user, incoming.header) {
      SpellingsShow(settings, wiring, user, incoming, oracle, marshal, addr);
    } else {
      FailuresShow(settings, wiring, user, incoming, oracle, marshal, addr);
    }
  }

  /** A denial always answers 403, because its text says so. */
  lemma DenialsAreForbidden(requester: string, subject: Subject)
    ensures StatusOf(NotAllowed(requester, subject)) == 403
  {
    var before, after := requester + " is ", " " + SubjectText(subject);
    ContainsMiddle(before, NOT_ALLOWED, after);
    assert Message(NotAllowed(requester, subject)) == before + NOT_ALLOWED + after;
  }

  /** The spaces of an unknown-header message are those of its fixed part. */
  lemma SpacesOfUnknownHeader(key: string, p: nat)
    requires IsToken(key) && p < |Message(UnknownHeader(key))| && Message(UnknownHeader(key))[p] == ' '
    ensures p in {7, 21, 28}
  {
    var start := "unknown impersonation header '";
    assert |start| == 30;
    assert forall k | 0 <= k < |key| :: key[k] != ' ';
    if p < 30 {
      assert start[p] == ' ';
    }
  }

  /** An unknown impersonation header answers 500: the key is a token, so no space in it can make the text
      look like a denial. */
  lemma UnknownHeadersAreInternalErrors(key: string)
    requires IsToken(key)
    ensures StatusOf(UnknownHeader(key)) == 500
  {
    var message := Message(UnknownHeader(key));
    forall i | 0 <= i <= |message| ensures !HasPrefix(message[i..], NOT_ALLOWED) {
      if HasPrefix(message[i..], NOT_ALLOWED) {
        SpacesOfDenial(message, i);
        SpacesOfUnknownHeader(key, i + 3);
        SpacesOfUnknownHeader(key, i + 11);
      }
    }
  }

  lemma SpacesOfDenial(message: string, i: nat)
    requires i <= |message| && HasPrefix(message[i..], NOT_ALLOWED)
    ensures i + 11 < |message| && message[i + 3] == ' ' && message[i + 11] == ' '
  {
    assert |NOT_ALLOWED| == 26 && NOT_ALLOWED[3] == ' ' && NOT_ALLOWED[11] == ' ';
    assert message[i..][3] == NOT_ALLOWED[3] && message[i..][11] == NOT_ALLOWED[11];
  }
}
