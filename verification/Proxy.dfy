/** The proxy object: its construction, its wiring in Run, the chain of handlers and RoundTrip. */
module Proxies {
  import opened Strings
  import opened Multimaps
  import opened Orders
  import opened Headers
  import opened ProxyErrors
  import opened Users
  import opened Impersonation
  import opened SubjectAccessReviews
  import opened RequestContext
  import opened Requests
  import opened Chain
  import opened Runs
  import opened Transports
  import opened MappingManagers
  import MappingProtocol
  import opened NamespaceRoundTripper

  /** What the OIDC authenticator returns, with the user record it hands over. */
  datatype AuthAnswer = AuthFails | AuthSaysNo | AuthFinds(user: UserInfo)

  ghost function ViewOf(auth: AuthAnswer): Auth
    reads if auth.AuthFinds? then {auth.user, auth.user.extra} else {}
  {
    match auth
    case AuthFails => AuthError
    case AuthSaysNo => AuthRefused
    case AuthFinds(user) => Authenticated(user.View())
  }

  /** The inbound user's own map, which the handlers may extend in place. */
  ghost function SharedExtra(auth: AuthAnswer): set<ExtraMap?>
    reads if auth.AuthFinds? then {auth.user} else {}
  {
    if auth.AuthFinds? then {auth.user.extra} else {}
  }

  class TokenReviewer {
    constructor () {}
  }

  function ConfigStep(configured: Extra): (Extra, string) -> Extra {
    (extra, k) => if k in configured then AppendedAll(extra, k, configured[k]) else extra
  }

  /** What the loops leave under one key. */
  ghost predicate SumsAt(extra: Extra, configured: Extra, r: Extra, k: string) {
    && (k in r <==> k in extra || ValuesOf(configured, k) != [])
    && ValuesOf(r, k) == ValuesOf(extra, k) + ValuesOf(configured, k)
  }

  lemma {:induction false} ConfiguredBefore(extra: Extra, configured: Extra, order: seq<string>, k: string)
    requires k !in order
    ensures var r := Fold(ConfigStep(configured), extra, order);
            (k in r <==> k in extra) && ValuesOf(r, k) == ValuesOf(extra, k)
    decreases |order|
  {
    if order != [] {
      assert order == [order[0]] + order[1..];
      ConfiguredBefore(ConfigStep(configured)(extra, order[0]), configured, order[1..], k);
    }
  }

  lemma ConfiguredAtKey(extra: Extra, configured: Extra, order: seq<string>, k: string)
    requires IsOrder(order, configured.Keys)
    ensures SumsAt(extra, configured, Fold(ConfigStep(configured), extra, order), k)
  {
    if k in configured {
      var before, after := SplitAt(order, configured.Keys, k);
      var step := ConfigStep(configured);
      var t := Fold(step, extra, before);
      ConfiguredBefore(extra, configured, before, k);
      FoldAppend(step, extra, before, [k] + after);
      assert ([k] + after)[1..] == after;
      ConfiguredBefore(step(t, k), configured, after, k);
      StepAtKey(t, configured, k);
    } else {
      ConfiguredBefore(extra, configured, order, k);
      assert ValuesOf(extra, k) + [] == ValuesOf(extra, k);
    }
  }

  lemma StepAtKey(extra: Extra, configured: Extra, k: string)
    requires k in configured
    ensures SumsAt(extra, configured, ConfigStep(configured)(extra, k), k)
  {
    assert configured[k] == [] ==> ValuesOf(extra, k) + configured[k] == ValuesOf(extra, k);
  }

  /** The loops over the configuration, in any order, add what WithExtras says. */
  lemma ConfiguredInAnyOrder(own: Extra, clientIP: seq<string>, configured: Extra, order: seq<string>)
    requires IsOrder(order, configured.Keys)
    ensures Fold(ConfigStep(configured), AppendedAll(own, CLIENT_IP_KEY, clientIP), order)
            == WithExtras(own, clientIP, configured)
  {
    var start := AppendedAll(own, CLIENT_IP_KEY, clientIP);
    ConfiguredAll(start, configured, order);
    AddsUp(own, clientIP, configured, start, Fold(ConfigStep(configured), start, order));
  }

  lemma ConfiguredAll(extra: Extra, configured: Extra, order: seq<string>)
    requires IsOrder(order, configured.Keys)
    ensures Sums(extra, configured, Fold(ConfigStep(configured), extra, order))
  {
    forall k ensures SumsAt(extra, configured, Fold(ConfigStep(configured), extra, order), k) {
      ConfiguredAtKey(extra, configured, order, k);
    }
  }

  ghost predicate Sums(extra: Extra, configured: Extra, r: Extra) {
    forall k :: SumsAt(extra, configured, r, k)
  }

  lemma AddsUp(own: Extra, clientIP: seq<string>, configured: Extra, start: Extra, r: Extra)
    requires start == AppendedAll(own, CLIENT_IP_KEY, clientIP) && Sums(start, configured, r)
    ensures r == WithExtras(own, clientIP, configured)
  {
    var s := WithExtras(own, clientIP, configured);
    forall k ensures (k in r <==> k in s) && (k in r ==> r[k] == s[k]) {
      assert SumsAt(start, configured, r, k);
      ConfiguredAt(own, clientIP, configured, k);
    }
  }

  lemma ConfiguredAt(own: Extra, clientIP: seq<string>, configured: Extra, k: string)
    ensures var start, s := AppendedAll(own, CLIENT_IP_KEY, clientIP), WithExtras(own, clientIP, configured);
            && (k in s <==> k in start || ValuesOf(configured, k) != [])
            && (k in s ==> s[k] == ValuesOf(start, k) + ValuesOf(configured, k))
  {
    var s := WithExtras(own, clientIP, configured);
    var added := if k == CLIENT_IP_KEY then clientIP else [];
    if k in s {
      assert s[k] == ValuesOf(own, k) + added + ValuesOf(configured, k);
      assert added == [] ==> ValuesOf(own, k) + added == ValuesOf(own, k);
    }
  }

  /** The client address and the configured headers, in place on a map that may be the inbound user's own;
      the same result for every order of the configuration. */
  method AddExtras(extra: ExtraMap, settings: Settings, remoteAddr: string, order: seq<string>)
    requires IsOrder(order, settings.extraUserHeaders.Keys)
    modifies extra
    ensures extra.entries == WithExtras(old(extra.entries), ClientIP(settings, remoteAddr), settings.extraUserHeaders)
    ensures forall k :: ValuesOf(extra.entries, k)
                        == ValuesOf(old(extra.entries), k)
                           + (if k == CLIENT_IP_KEY && settings.clientIPEnabled then [remoteAddr] else [])
                           + ValuesOf(settings.extraUserHeaders, k)
    ensures forall k | k != CLIENT_IP_KEY && k !in settings.extraUserHeaders ::
              (k in extra.entries <==> k in old(extra.entries))
              && ValuesOf(extra.entries, k) == ValuesOf(old(extra.entries), k)
  {
    ghost var step := ConfigStep(settings.extraUserHeaders);
    if settings.clientIPEnabled {
      extra.entries := Appended(extra.entries, CLIENT_IP_KEY, remoteAddr);
    }
    ghost var start := extra.entries;
    assert start == AppendedAll(old(extra.entries), CLIENT_IP_KEY, ClientIP(settings, remoteAddr));
    for i := 0 to |order|
      invariant extra.entries == Fold(step, start, order[..i])
    {
      var k := order[i];
      assert k in order && order[..i + 1] == order[..i] + [k];
      FoldAppend(step, start, order[..i], [k]);
      FoldOne(step, extra.entries, k);
      AppendValues(extra, k, settings.extraUserHeaders[k]);
    }
    assert order[..|order|] == order;
    ConfiguredInAnyOrder(old(extra.entries), ClientIP(settings, remoteAddr), settings.extraUserHeaders, order);
    ExtrasByKey(old(extra.entries), ClientIP(settings, remoteAddr), settings.extraUserHeaders);
  }

  /** The inner loop over the values of one configured header. */
  method AppendValues(extra: ExtraMap, k: string, vs: seq<string>)
    modifies extra
    ensures extra.entries == AppendedAll(old(extra.entries), k, vs)
  {
    ghost var before := extra.entries;
    for j := 0 to |vs|
      invariant extra.entries == AppendedAll(before, k, vs[..j])
    {
      AppendedAllNext(before, k, vs, j);
      extra.entries := Appended(extra.entries, k, vs[j]);
    }
    assert vs[..|vs|] == vs;
  }

  lemma ExtrasByKey(own: Extra, clientIP: seq<string>, configured: Extra)
    ensures var r := WithExtras(own, clientIP, configured);
            && (forall k :: ValuesOf(r, k)
                            == ValuesOf(own, k) + (if k == CLIENT_IP_KEY then clientIP else [])
                               + ValuesOf(configured, k))
            && (forall k | k != CLIENT_IP_KEY && k !in configured ::
                  (k in own <==> k in r) && ValuesOf(r, k) == ValuesOf(own, k))
  {
    var r := WithExtras(own, clientIP, configured);
    forall k
      ensures ValuesOf(r, k)
              == ValuesOf(own, k) + (if k == CLIENT_IP_KEY then clientIP else []) + ValuesOf(configured, k)
      ensures k != CLIENT_IP_KEY && k !in configured ==> (k in own <==> k in r) && ValuesOf(r, k) == ValuesOf(own, k)
    {
      ExtrasPerKey(own, clientIP, configured, k);
    }
  }

  /** The inbound user's name, groups, UID and extras under keys of their own. */
  method AddOriginal(extra: ExtraMap, inbound: UserInfo, marshal: Marshal) returns (error: Option<Error>)
    requires extra != inbound.extra
    modifies extra
    ensures match OnRecord(old(extra.entries), inbound.View(), marshal)
            case Recorded(recorded) => error == None && extra.entries == recorded
            case NotRecorded(e) => error == Some(e)
  {
    ghost var user := inbound.View();
    extra.entries := extra.entries[ORIGINAL_USER := [inbound.name]];
    if |inbound.groups| > 0 {
      var groupNames := [];
      for i := 0 to |inbound.groups|
        invariant groupNames == inbound.groups[..i]
      {
        groupNames := groupNames + [inbound.groups[i]];
      }
      assert groupNames == user.groups;
      extra.entries := extra.entries[ORIGINAL_GROUPS := groupNames];
    }
    if inbound.uid != "" {
      extra.entries := extra.entries[ORIGINAL_UID := [inbound.uid]];
    }
    if inbound.extra != null && inbound.extra.entries != map[] {
      match marshal(inbound.extra.entries) {
        case JsonError(message) =>
          return Some(Foreign(message));
        case Json(text) =>
          extra.entries := extra.entries[ORIGINAL_EXTRA := [text]];
      }
    }
    error := None;
  }

  /** hasImpersonation: a search that stops at the first hit, in any order. */
  method FindImpersonation(header: Header, order: seq<string>) returns (found: bool)
    requires IsOrder(order, header.Keys)
    ensures found == HasImpersonation(header)
    ensures found <==> exists k | k in header :: "impersonate-" <= Lower(k)
  {
    for i := 0 to |order|
      invariant forall j | 0 <= j < i :: !IsImpersonation(order[j])
    {
      if HasPrefix(Lower(order[i]), "impersonate-") {
        assert order[i] in order;
        return true;
      }
    }
    forall k | k in header ensures !IsImpersonation(k) {
      assert k in order;
    }
    found := false;
  }

  method EnsureAllAuthenticated(groups: seq<string>) returns (r: seq<string>)
    ensures r == WithAllAuthenticated(groups)
    ensures "system:authenticated" in r && groups <= r && |r| <= |groups| + 1
    ensures "system:authenticated" in groups ==> r == groups
  {
    for i := 0 to |groups|
      invariant ALL_AUTHENTICATED !in groups[..i]
    {
      if groups[i] == ALL_AUTHENTICATED {
        return groups;
      }
      assert groups[..i + 1] == groups[..i] + [groups[i]];
    }
    assert groups[..|groups|] == groups;
    r := groups + [ALL_AUTHENTICATED];
  }

  ghost function CaseOf(req: Request, auth: AuthAnswer, env: Environment): Case
    reads req, req.url
    reads if auth.AuthFinds? then {auth.user, auth.user.extra} else {}
  {
    Case(ViewOf(auth), req.View(), env.observed(req.header))
  }

  class Proxy {
    const settings: Settings
    const tokenReviewer: TokenReviewer?
    const accessReviewer: SubjectAccessReview?
    const namespaceTransport: CustomNamespaceRoundTripper?
    var clientTransport: Transport?
    var noAuthClientTransport: Transport?
    var hasErrorHandler: bool

    /** Everything the proxy has answered or forwarded. */
    var events: seq<Event>

    /** What the command line builds: the token reviewer exists exactly when token review is enabled. */
    constructor Build(settings: Settings, accessReviewer: SubjectAccessReview,
                      namespaceTransport: CustomNamespaceRoundTripper)
      ensures this.settings == settings && this.accessReviewer == accessReviewer
      ensures this.namespaceTransport == namespaceTransport
      ensures tokenReviewer != null <==> settings.tokenReview
      ensures clientTransport == null && noAuthClientTransport == null && !hasErrorHandler && events == []
    {
      var reviewer: TokenReviewer? := null;
      if settings.tokenReview {
        reviewer := new TokenReviewer();
      }
      this.settings := settings;
      this.tokenReviewer := reviewer;
      this.accessReviewer := accessReviewer;
      this.namespaceTransport := namespaceTransport;
      this.clientTransport := null;
      this.noAuthClientTransport := null;
      this.hasErrorHandler := false;
      this.events := [];
    }

    function Reviews(): Reviewer? {
      if accessReviewer == null then null else accessReviewer.reviewer
    }

    function Mappings(): MappingManager? {
      if namespaceTransport == null then null else namespaceTransport.manager
    }

    function Lookups(): LookupLog? {
      if namespaceTransport == null then null else namespaceTransport.manager.log
    }

    function Wires(): Wiring
      reads this`clientTransport, this`noAuthClientTransport, this`hasErrorHandler, namespaceTransport, Mappings()
    {
      Wiring(noAuthClientTransport,
             if namespaceTransport != null then namespaceTransport.transport else clientTransport,
             if Mappings() != null then Some(Mappings().mappings) else None,
             tokenReviewer != null, accessReviewer != null, hasErrorHandler)
    }

    function ReviewOracle(): Oracle {
      if accessReviewer != null then accessReviewer.reviewer.oracle else (spec => Reviewed(false))
    }

    /** Run up to serving: the two round trippers may fail to build, and so may the URL. With token review or
        without impersonation the namespace transport is redirected to the transport without credentials. */
    method Run(clientRT: Transport?, noAuthClientRT: Transport?, urlParses: bool) returns (ok: bool)
      modifies this, namespaceTransport
      ensures events == old(events)
      ensures var needsNoAuth := settings.disableImpersonation || settings.tokenReview;
              && (ok <==> clientRT != null && (needsNoAuth ==> noAuthClientRT != null) && urlParses)
              && (ok ==>
                    && hasErrorHandler && clientTransport == clientRT
                    && (needsNoAuth ==> noAuthClientTransport == noAuthClientRT)
                    && (namespaceTransport != null ==>
                          namespaceTransport.transport == if needsNoAuth then noAuthClientRT else clientRT))
      ensures ok && accessReviewer != null && (settings.tokenReview ==> tokenReviewer != null) ==>
              IsWired(settings, Wires())
    {
      if clientRT == null {
        return false;
      }
      clientTransport := clientRT;
      if namespaceTransport != null {
        namespaceTransport.transport := clientRT;
      }
      if settings.disableImpersonation || settings.tokenReview {
        if noAuthClientRT == null {
          return false;
        }
        noAuthClientTransport := noAuthClientRT;
        if namespaceTransport != null {
          namespaceTransport.transport := noAuthClientRT;
        }
      }
      if !urlParses {
        return false;
      }
      hasErrorHandler := true;
      ok := true;
    }

    method Record(event: Event)
      modifies this`events
      ensures events == old(events) + [event]
    {
      events := events + [event];
    }

    /** handleError: a nil function before Run. */
    method HandleError(error: Error)
      modifies this`events
      ensures events == old(events) + [Answer(Wires(), error)]
    {
      Record(Answer(Wires(), error));
    }

    /** RoundTrip, up to the hand-over to the next transport. */
    method RoundTrip(req: Request, ctx: Context)
      modifies this`events, req, req.url, Lookups()
      ensures NoImpersonation(ctx) ==>
                events == old(events) + [
                  if noAuthClientTransport == null then Crashed
                  else ForwardedPlain(
                         noAuthClientTransport,
                         old(req.View()).(header := Add(old(req.header), "Authorization", BearerToken(ctx))))]
      ensures !NoImpersonation(ctx) && ImpersonationConfig(ctx) == None ==>
                events == old(events) + [Answer(Wires(), NoImpersonationConfig)]
      ensures !NoImpersonation(ctx) && ImpersonationConfig(ctx).Some? ==>
                var config := ImpersonationConfig(ctx).value;
                events == old(events) + [
                  old(SentAs(Wires(), config.userName, config.groups, config.extra.entries, req.View()))]
      ensures !NoImpersonation(ctx) ==> req.header == old(req.header)
    {
      if NoImpersonation(ctx) {
        var token := BearerToken(ctx);
        req.header := Add(req.header, "Authorization", token);
        if noAuthClientTransport == null {
          Record(Crashed);
        } else {
          Record(ForwardedPlain(noAuthClientTransport, req.View()));
        }
        return;
      }
      var impersonationConf := ImpersonationConfig(ctx);
      if impersonationConf == None {
        HandleError(NoImpersonationConfig);
        return;
      }
      Impersonate(req, impersonationConf.value);
    }

    /** The impersonating half of RoundTrip: the namespace transport, when there is one, rewrites the URL in place. */
    method Impersonate(req: Request, config: ImpersonationRequest)
      modifies this`events, req.url, Lookups()
      ensures events == old(events) + [
                old(SentAs(Wires(), config.userName, config.groups, config.extra.entries, req.View()))]
    {
      var delegate, routed := clientTransport, true;
      if namespaceTransport != null {
        routed := namespaceTransport.RoundTrip(req.url);
        delegate := namespaceTransport.transport;
      }
      if delegate == null || !routed {
        Record(Crashed);
      } else {
        Record(ForwardedAs(config.userName, config.groups, config.extra.entries, delegate, req.View()));
      }
    }

    /** The fresh target of a client that may impersonate it; null when the request has been answered. */
    method ActingTarget(req: Request, user: UserInfo, env: Environment)
      returns (target: UserInfo?, ghost decided: Acting)
      requires Suits(env, settings, req.header) && HasImpersonation(req.header)
      modifies this`events, req, Reviews()
      ensures decided == old(ActingFor(Wires(), user.View(), req.header, ReviewOracle(), env.order, env.keepOrder))
      ensures match decided
              case Ends(event) => target == null && events == old(events) + [event]
              case ActsAs(view, isTarget, header) =>
                && isTarget && target != null && fresh(target) && target.extra != null && fresh(target.extra)
                && target.View() == view && req.header == header && events == old(events)
    {
      decided := ActingFor(Wires(), user.View(), req.header, ReviewOracle(), env.order, env.keepOrder);
      target := null;
      if accessReviewer == null {
        Record(Crashed);
        return;
      }
      var outcome := accessReviewer.CheckAuthorizedForImpersonation(req, user, env.order, env.keepOrder);
      match outcome {
        case Failed(error) =>
          HandleError(error);
        case Panicked =>
          Record(Crashed);
        case TargetUser(targetUser) =>
          target := targetUser;
      }
    }

    /** Groups, extras, and the record of the inbound user when another one acts. The extras are added in place,
        to the inbound user's own map when there is no target. */
    method Configure(acting: UserInfo, inbound: UserInfo, remoteAddr: string, env: Environment)
      returns (config: ImpersonationRequest, error: Option<Error>)
      requires IsOrder(env.configOrder, settings.extraUserHeaders.Keys)
      requires acting != inbound ==> acting.extra != inbound.extra
      modifies acting.extra
      ensures var own := old(acting.View()).extra;
              var extra := WithExtras(own, ClientIP(settings, remoteAddr), settings.extraUserHeaders);
              && config.userName == old(acting.name) && config.groups == WithAllAuthenticated(old(acting.groups))
              && match (if acting == inbound then Recorded(extra)
                        else OnRecord(extra, old(inbound.View()), env.marshal))
                 case Recorded(recorded) => error == None && config.extra.entries == recorded
                 case NotRecorded(e) => error == Some(e)
      ensures acting.extra != null ==> config.extra == acting.extra
      ensures acting.extra == null ==> fresh(config.extra)
    {
      var groups := EnsureAllAuthenticated(acting.groups);
      var extra := acting.extra;
      if extra == null {
        extra := new ExtraMap();
      }
      AddExtras(extra, settings, remoteAddr, env.configOrder);
      error := None;
      if acting != inbound {
        error := AddOriginal(extra, inbound, env.marshal);
      }
      config := ImpersonationRequest(acting.name, groups, extra, inbound, if acting != inbound then acting else null);
    }

    /** The rest of withImpersonateRequest. */
    method ForwardAs(req: Request, ctx: Context, acting: UserInfo, inbound: UserInfo, remoteAddr: string,
                     env: Environment)
      requires IsOrder(env.configOrder, settings.extraUserHeaders.Keys) && !NoImpersonation(ctx)
      requires acting != inbound ==> acting.extra != inbound.extra
      modifies this`events, req, req.url, acting.extra, Lookups()
      ensures events == old(events) + [old(
                ForwardedFor(settings, Wires(), acting.View(), acting != inbound, inbound.View(), req.View(),
                             env.marshal, remoteAddr))]
      ensures acting == inbound && acting.extra != null ==>
                acting.extra.entries
                == WithExtras(old(acting.extra.entries), ClientIP(settings, remoteAddr), settings.extraUserHeaders)
    {
      var config, error := Configure(acting, inbound, remoteAddr, env);
      if error.Some? {
        HandleError(error.value);
        return;
      }
      ConfigIsRead(ctx, config);
      RoundTrip(req, WithImpersonationConfig(ctx, config));
    }

    /** A client that impersonates: the inbound user's own record and map are not touched. */
    method ServeTarget(req: Request, ctx: Context, user: UserInfo, remoteAddr: string, env: Environment)
      requires Suits(env, settings, req.header) && !NoImpersonation(ctx) && HasImpersonation(req.header)
      modifies this`events, req, req.url, Reviews(), Lookups()
      ensures events == old(events) + [old(
                ServedUser(settings, Wires(), user.View(), req.View(), ReviewOracle(), env.marshal, remoteAddr,
                           env.order, env.keepOrder))]
    {
      ghost var wires, inbound, incoming := Wires(), user.View(), req.View();
      var target, decided := ActingTarget(req, user, env);
      assert Wires() == wires && user.View() == inbound;
      assert req.View() == incoming.(header := req.header);
      if target != null {
        ForwardAs(req, ctx, target, user, remoteAddr, env);
      }
    }

    /** withImpersonateRequest for a request that carries a named user, after the no-impersonation exits. */
    method ServeUser(req: Request, ctx: Context, user: UserInfo, remoteAddr: string, env: Environment)
      requires Suits(env, settings, req.header) && !NoImpersonation(ctx)
      modifies this`events, req, req.url, user.extra, Reviews(), Lookups()
      ensures events == old(events) + [old(
                ServedUser(settings, Wires(), user.View(), req.View(), ReviewOracle(), env.marshal, remoteAddr,
                           env.order, env.keepOrder))]
      ensures user.extra != null ==>
                user.extra.entries == old(OwnExtra(settings, user.extra.entries, req.header, remoteAddr))
    {
      var found := FindImpersonation(req.header, env.hasOrder);
      if found {
        ServeTarget(req, ctx, user, remoteAddr, env);
      } else {
        ForwardAs(req, ctx, user, user, remoteAddr, env);
      }
    }

    /** withImpersonateRequest. */
    method ServeImpersonating(req: Request, ctx: Context, env: Environment, ghost inbound: UserInfo?)
      requires Suits(env, settings, req.header)
      requires UserFrom(ctx) == (if inbound == null then None else Some(inbound))
      requires BearerTokenKey !in ctx
      modifies this`events, req, req.url, if inbound != null then {inbound.extra} else {}, Reviews(), Lookups()
      ensures events == old(events) + [old(
                if NoImpersonation(ctx) || settings.disableImpersonation then Plain(Wires(), req.View())
                else if inbound == null || inbound.name == "" then Answer(Wires(), NoName)
                else ServedUser(settings, Wires(), inbound.View(), req.View(), ReviewOracle(), env.marshal,
                                RemoteAddr(ctx, env.observed(req.header)).1, env.order, env.keepOrder))]
      ensures inbound != null && inbound.extra != null ==> inbound.extra.entries == old(
                if NoImpersonation(ctx) || settings.disableImpersonation || inbound.name == ""
                then inbound.extra.entries
                else OwnExtra(settings, inbound.extra.entries, req.header, RemoteAddr(ctx, env.observed(req.header)).1))
    {
      if NoImpersonation(ctx) {
        RoundTrip(req, ctx);
        return;
      }
      var (known, remoteAddr) := RemoteAddr(ctx, env.observed(req.header));
      if settings.disableImpersonation {
        RoundTrip(req, WithNoImpersonation(known));
        return;
      }
      var user := UserFrom(known);
      if user == None || |user.value.name| == 0 {
        HandleError(NoName);
        return;
      }
      ServeUser(req, known, user.value, remoteAddr, env);
    }

    /** withTokenReview: the request that failed OIDC may carry a token the API server knows. */
    method ServeTokenReview(req: Request, ctx: Context, env: Environment)
      requires Suits(env, settings, req.header) && UserFrom(ctx) == None && BearerTokenKey !in ctx
      modifies this`events, req, req.url, Reviews(), Lookups()
      ensures events == old(events) + [old(
                Served(settings, Wires(), AuthError, env.token, req.View(), ReviewOracle(), env.marshal,
                       env.observed(req.header), env.order, env.keepOrder))]
    {
      if !settings.tokenReview {
        HandleError(Unauthorized);
        return;
      }
      if tokenReviewer == null {
        Record(Crashed);
        return;
      }
      var passed := match env.token case TokenError => false case TokenAnswered(ok) => ok;
      if !passed {
        HandleError(Unauthorized);
        return;
      }
      ServeImpersonating(req, WithNoImpersonation(ctx), env, null);
    }

    /** A user that the authenticator has found. */
    method ServeFound(req: Request, user: UserInfo, env: Environment)
      requires Suits(env, settings, req.header)
      modifies this`events, req, req.url, user.extra, Reviews(), Lookups()
      ensures events == old(events) + [old(
                Served(settings, Wires(), Authenticated(user.View()), env.token, req.View(), ReviewOracle(),
                       env.marshal, env.observed(req.header), env.order, env.keepOrder))]
      ensures user.extra != null ==> user.extra.entries == old(LeftBy(settings, CaseOf(req, AuthFinds(user), env)))
    {
      var (known, _) := RemoteAddr(map[], env.observed(req.header));
      UserIsRead(env.observed(req.header), user, env.observed(req.header));
      ServeImpersonating(req, WithUser(known, user), env, user);
    }

    /** The chain of withHandlers. Every request leaves exactly one event, and it is the one Served names. */
    method ServeHTTP(req: Request, auth: AuthAnswer, env: Environment)
      requires Suits(env, settings, req.header)
      modifies this`events, req, req.url, SharedExtra(auth), Reviews(), Lookups()
      ensures events == old(events) + [old(
                Served(settings, Wires(), ViewOf(auth), env.token, req.View(), ReviewOracle(), env.marshal,
                       env.observed(req.header), env.order, env.keepOrder))]
      ensures auth.AuthFinds? && auth.user.extra != null ==>
                auth.user.extra.entries == old(LeftBy(settings, CaseOf(req, auth, env)))
    {
      match auth {
        case AuthFails =>
          ServeTokenReview(req, map[], env);
        case AuthSaysNo =>
          HandleError(Unauthorized);
        case AuthFinds(user) =>
          ServeFound(req, user, env);
      }
    }
  }

  /** The proxy as the command builds and runs it. It starts exactly when the mapping file can be loaded and the
      transports and the URL can be made; what is returned is completely wired. */
  method Start(settings: Settings, accessReviewer: SubjectAccessReview,
               parse: MappingProtocol.Parser, read: Option<string>,
               defaultTransport: Transport, clientRT: Transport?, noAuthClientRT: Transport?, urlParses: bool)
    returns (proxy: Proxy?)
    ensures var needsNoAuth := settings.disableImpersonation || settings.tokenReview;
            proxy != null <==>
              Loadable(parse, read) && clientRT != null && (needsNoAuth ==> noAuthClientRT != null) && urlParses
    ensures proxy != null ==>
              fresh(proxy) && proxy.settings == settings && IsWired(settings, proxy.Wires()) && proxy.events == []
    ensures proxy != null ==>
              && proxy.accessReviewer == accessReviewer && proxy.namespaceTransport != null
              && proxy.Wires().mappings == Some(parse(read.value).value)
              && proxy.Wires().impersonating
                 == if settings.disableImpersonation || settings.tokenReview then noAuthClientRT else clientRT
  {
    var namespaceTransport := CustomNamespaceRoundTripper.New(parse, read, defaultTransport);
    if namespaceTransport == null {
      return null;
    }
    var p := new Proxy.Build(settings, accessReviewer, namespaceTransport);
    var ok := p.Run(clientRT, noAuthClientRT, urlParses);
    proxy := if ok then p else null;
  }

  ghost function ArrivalOf(req: Request, auth: AuthAnswer, env: Environment): Arrival
    reads req, req.url, if auth.AuthFinds? then {auth.user, auth.user.extra} else {}
  {
    Arrival(ViewOf(auth), if auth.AuthFinds? then auth.user.extra else null, req.View(), env)
  }

  ghost function ArrivalsOf(reqs: seq<Request>, auths: seq<AuthAnswer>, envs: seq<Environment>)
    : (arrivals: seq<Arrival>)
    requires |reqs| == |auths| == |envs|
    reads reqs, set i | 0 <= i < |reqs| :: reqs[i].url
    reads set i | 0 <= i < |auths| && auths[i].AuthFinds? :: auths[i].user
    reads set i | 0 <= i < |auths| && auths[i].AuthFinds? :: auths[i].user.extra
    ensures |arrivals| == |reqs|
    ensures forall i | 0 <= i < |reqs| :: arrivals[i] == ArrivalOf(reqs[i], auths[i], envs[i])
  {
    if reqs == [] then []
    else
      var last := |reqs| - 1;
      ArrivalsOf(reqs[..last], auths[..last], envs[..last]) + [ArrivalOf(reqs[last], auths[last], envs[last])]
  }

  /** The requests from the `n`-th on are as they came in. */
  ghost predicate StillUnserved(reqs: seq<Request>, n: nat, arrivals: seq<Arrival>)
    reads reqs, set i | 0 <= i < |reqs| :: reqs[i].url
  {
    |arrivals| == |reqs| && forall i | n <= i < |reqs| :: reqs[i].View() == arrivals[i].incoming
  }

  /** The authenticator's answers are as they came in, but for the contents of maps. */
  ghost predicate AreFound(auths: seq<AuthAnswer>, arrivals: seq<Arrival>)
    reads set i | 0 <= i < |auths| && auths[i].AuthFinds? :: auths[i].user
  {
    |auths| == |arrivals| && forall i | 0 <= i < |auths| :: IsFound(auths[i], arrivals[i])
  }

  ghost predicate IsFound(auth: AuthAnswer, a: Arrival)
    reads if auth.AuthFinds? then {auth.user} else {}
  {
    match auth
    case AuthFails => a.auth == AuthError && a.owner == null
    case AuthSaysNo => a.auth == AuthRefused && a.owner == null
    case AuthFinds(user) =>
      && a.auth == Authenticated(User(user.name, user.groups, user.uid, HeldBy(a.auth)))
      && a.owner == user.extra && (user.extra == null ==> HeldBy(a.auth) == map[])
  }

  /** Each map holds what these cases have left in it. */
  ghost predicate HoldLeft(settings: Settings, arrivals: seq<Arrival>, cases: seq<Case>)
    reads set i | 0 <= i < |arrivals| :: arrivals[i].owner
  {
    && |cases| <= |arrivals|
    && forall i | 0 <= i < |arrivals| && arrivals[i].owner != null ::
         arrivals[i].owner.entries == LeftIn(settings, arrivals, cases, arrivals[i].owner, HeldBy(arrivals[i].auth))
  }

  lemma RunStarts(settings: Settings, reqs: seq<Request>, auths: seq<AuthAnswer>, envs: seq<Environment>)
    requires |reqs| == |auths| == |envs|
    ensures var arrivals := ArrivalsOf(reqs, auths, envs);
            && StillUnserved(reqs, 0, arrivals) && AreFound(auths, arrivals)
            && HoldLeft(settings, arrivals, []) && forall i | 0 <= i < |envs| :: envs[i] == arrivals[i].env
  {
  }

  lemma FoundAfter(settings: Settings, auth: AuthAnswer, arrivals: seq<Arrival>, cases: seq<Case>, i: nat)
    requires HoldLeft(settings, arrivals, cases) && i < |arrivals| && IsFound(auth, arrivals[i])
    ensures ViewOf(auth) == AuthAfter(settings, arrivals, cases, i)
  {
    if arrivals[i].owner == null {
      LeftAlone(settings, arrivals, cases, null, HeldBy(arrivals[i].auth));
    }
  }

  /** What is served next is the next case of the run. */
  lemma ServesNextCase(settings: Settings, req: Request, auth: AuthAnswer, env: Environment, arrivals: seq<Arrival>,
                       cases: seq<Case>)
    requires HoldLeft(settings, arrivals, cases) && |cases| < |arrivals| && IsFound(auth, arrivals[|cases|])
    requires req.View() == arrivals[|cases|].incoming && env == arrivals[|cases|].env
    ensures CaseOf(req, auth, env) == NextCase(settings, arrivals, cases)
  {
    FoundAfter(settings, auth, arrivals, cases, |cases|);
  }

  lemma HoldNext(settings: Settings, arrivals: seq<Arrival>, cases: seq<Case>, c: Case)
    requires |cases| < |arrivals|
    requires forall i | 0 <= i < |arrivals| && arrivals[i].owner != null ::
               arrivals[i].owner.entries
               == if arrivals[|cases|].owner == arrivals[i].owner then LeftBy(settings, c)
                  else LeftIn(settings, arrivals, cases, arrivals[i].owner, HeldBy(arrivals[i].auth))
    ensures HoldLeft(settings, arrivals, cases + [c])
  {
    forall i | 0 <= i < |arrivals| && arrivals[i].owner != null
      ensures arrivals[i].owner.entries
              == LeftIn(settings, arrivals, cases + [c], arrivals[i].owner, HeldBy(arrivals[i].auth))
    {
      LeftNext(settings, arrivals, cases, c, arrivals[i].owner, HeldBy(arrivals[i].auth));
    }
  }

  /** ServeHTTP for one case of a run. */
  method ServeCase(proxy: Proxy, req: Request, auth: AuthAnswer, env: Environment, ghost c: Case)
    requires Suits(env, proxy.settings, req.header) && c == CaseOf(req, auth, env)
    modifies proxy`events, req, req.url, SharedExtra(auth), proxy.Reviews(), proxy.Lookups()
    ensures proxy.Wires() == old(proxy.Wires())
    ensures proxy.events == old(proxy.events) + [Serving(proxy.settings, proxy.Wires(), proxy.ReviewOracle())(c, env)]
    ensures auth.AuthFinds? && auth.user.extra != null ==> auth.user.extra.entries == LeftBy(proxy.settings, c)
  {
    proxy.ServeHTTP(req, auth, env);
  }

  /** The same, with all users and their maps in view. */
  method ServeHolding(proxy: Proxy, req: Request, auth: AuthAnswer, env: Environment, ghost auths: seq<AuthAnswer>,
                      ghost arrivals: seq<Arrival>, ghost cases: seq<Case>)
    requires AreFound(auths, arrivals) && HoldLeft(proxy.settings, arrivals, cases) && |cases| < |arrivals|
    requires auth == auths[|cases|]
    requires req.View() == arrivals[|cases|].incoming && env == arrivals[|cases|].env
    requires Suits(env, proxy.settings, req.header)
    modifies proxy`events, req, req.url, SharedExtra(auth), proxy.Reviews(), proxy.Lookups()
    ensures proxy.Wires() == old(proxy.Wires()) && AreFound(auths, arrivals)
    ensures HoldLeft(proxy.settings, arrivals, cases + [NextCase(proxy.settings, arrivals, cases)])
    ensures proxy.events == old(proxy.events)
                            + [Serving(proxy.settings, proxy.Wires(), proxy.ReviewOracle())(
                                 NextCase(proxy.settings, arrivals, cases), env)]
  {
    ghost var c := NextCase(proxy.settings, arrivals, cases);
    assert IsFound(auth, arrivals[|cases|]);
    ServesNextCase(proxy.settings, req, auth, env, arrivals, cases);
    ServeCase(proxy, req, auth, env, c);
    HoldNext(proxy.settings, arrivals, cases, c);
  }

  /** One request among others, which stay as they are. */
  method ServeNext(proxy: Proxy, reqs: seq<Request>, n: nat, auths: seq<AuthAnswer>, env: Environment,
                   ghost arrivals: seq<Arrival>, ghost cases: seq<Case>)
    requires n == |cases| < |reqs| == |auths| == |arrivals| && StillUnserved(reqs, n, arrivals)
    requires AreFound(auths, arrivals) && HoldLeft(proxy.settings, arrivals, cases) && arrivals[n].env == env
    requires forall i | n < i < |reqs| :: reqs[n] != reqs[i] && reqs[n].url != reqs[i].url
    requires Suits(env, proxy.settings, arrivals[n].incoming.header)
    modifies proxy`events, reqs[n], reqs[n].url, SharedExtra(auths[n]), proxy.Reviews(), proxy.Lookups()
    ensures StillUnserved(reqs, n + 1, arrivals) && proxy.Wires() == old(proxy.Wires())
    ensures AreFound(auths, arrivals)
    ensures HoldLeft(proxy.settings, arrivals, cases + [NextCase(proxy.settings, arrivals, cases)])
    ensures proxy.events == old(proxy.events)
                            + [Serving(proxy.settings, proxy.Wires(), proxy.ReviewOracle())(
                                 NextCase(proxy.settings, arrivals, cases), env)]
  {
    assert reqs[n].View() == arrivals[n].incoming;
    ServeHolding(proxy, reqs[n], auths[n], env, auths, arrivals, cases);
  }

  /** A run in which the requests are as they came in, and the maps hold what they held. */
  method ServeRun(proxy: Proxy, reqs: seq<Request>, auths: seq<AuthAnswer>, envs: seq<Environment>,
                  ghost arrivals: seq<Arrival>)
    requires |reqs| == |auths| == |envs| == |arrivals|
    requires forall i | 0 <= i < |envs| :: envs[i] == arrivals[i].env
    requires forall i, j | 0 <= i < j < |reqs| :: reqs[i] != reqs[j] && reqs[i].url != reqs[j].url
    requires AreSuited(proxy.settings, arrivals) && StillUnserved(reqs, 0, arrivals) && AreFound(auths, arrivals)
    requires HoldLeft(proxy.settings, arrivals, [])
    modifies proxy`events, reqs, set i | 0 <= i < |reqs| :: reqs[i].url
    modifies set i | 0 <= i < |auths| && auths[i].AuthFinds? :: auths[i].user.extra
    modifies proxy.Reviews(), proxy.Lookups()
    ensures proxy.Wires() == old(proxy.Wires())
    ensures proxy.events == old(proxy.events)
                            + EventsOf(Serving(proxy.settings, proxy.Wires(), proxy.ReviewOracle()), proxy.settings,
                                       arrivals, |reqs|)
    ensures HoldLeft(proxy.settings, arrivals, CasesOf(proxy.settings, arrivals, |reqs|))
  {
    ghost var settings, wires := proxy.settings, proxy.Wires();
    ghost var serve := Serving(settings, wires, proxy.ReviewOracle());
    ghost var before := proxy.events;
    for n := 0 to |reqs|
      invariant proxy.Wires() == wires
      invariant proxy.events == before + EventsOf(serve, settings, arrivals, n)
      invariant StillUnserved(reqs, n, arrivals)
      invariant AreFound(auths, arrivals) && HoldLeft(settings, arrivals, CasesOf(settings, arrivals, n))
    {
      EventsNext(before, serve, settings, arrivals, n);
      CasesNext(settings, arrivals, n);
      ServeNext(proxy, reqs, n, auths, envs[n], arrivals, CasesOf(settings, arrivals, n));
    }
  }

  /** One request after the other, each with a header map and a URL of its own: a wired proxy stays wired, answers or
      forwards each request exactly once, as Served says of the request, its authentication and what earlier requests
      have left in its user's map; it never misses a configuration, and crashes only where MayCrash holds. */
  method ServeAll(proxy: Proxy, reqs: seq<Request>, auths: seq<AuthAnswer>, envs: seq<Environment>)
    requires |reqs| == |auths| == |envs|
    requires forall i, j | 0 <= i < j < |reqs| :: reqs[i] != reqs[j] && reqs[i].url != reqs[j].url
    requires AreSuited(proxy.settings, ArrivalsOf(reqs, auths, envs))
    modifies proxy`events, reqs, set i | 0 <= i < |reqs| :: reqs[i].url
    modifies set i | 0 <= i < |auths| && auths[i].AuthFinds? :: auths[i].user.extra
    modifies proxy.Reviews(), proxy.Lookups()
    ensures proxy.Wires() == old(proxy.Wires())
    ensures proxy.events == old(proxy.events)
                            + EventsOf(Serving(proxy.settings, proxy.Wires(), proxy.ReviewOracle()), proxy.settings,
                                       old(ArrivalsOf(reqs, auths, envs)), |reqs|)
    ensures IsWired(proxy.settings, proxy.Wires()) ==>
              IsProperRun(proxy.settings, proxy.Wires(), proxy.ReviewOracle(), old(ArrivalsOf(reqs, auths, envs)),
                          CasesOf(proxy.settings, old(ArrivalsOf(reqs, auths, envs)), |reqs|),
                          proxy.events[|old(proxy.events)|..])
    ensures HoldLeft(proxy.settings, old(ArrivalsOf(reqs, auths, envs)),
                     CasesOf(proxy.settings, old(ArrivalsOf(reqs, auths, envs)), |reqs|))
  {
    ghost var arrivals := ArrivalsOf(reqs, auths, envs);
    RunStarts(proxy.settings, reqs, auths, envs);
    if IsWired(proxy.settings, proxy.Wires()) {
      AllRunsAreProper(proxy.settings, proxy.Wires(), proxy.ReviewOracle(), arrivals);
    }
    ServeRun(proxy, reqs, auths, envs, arrivals);
    assert proxy.events[|old(proxy.events)|..]
           == EventsOf(Serving(proxy.settings, proxy.Wires(), proxy.ReviewOracle()), proxy.settings, arrivals, |reqs|);
  }
}
