/** The values the handlers pass along in a request's context: a map that is copied, never updated. */
module RequestContext {
  import opened Strings
  import opened Users

  datatype Key = NoImpersonationKey | ImpersonationConfigKey | BearerTokenKey | ClientAddressKey | UserKey

  /** What the impersonating transport needs, and who asked. There is no UID in it. */
  datatype ImpersonationRequest = ImpersonationRequest(
    userName: string, groups: seq<string>, extra: ExtraMap, inboundUser: UserInfo, impersonatedUser: UserInfo?)

  datatype Value = Flag(on: bool) | Text(text: string) | Config(config: ImpersonationRequest) | Info(user: UserInfo)

  type Context = map<Key, Value>

  function WithNoImpersonation(ctx: Context): Context {
    ctx[NoImpersonationKey := Flag(true)]
  }

  predicate NoImpersonation(ctx: Context) {
    NoImpersonationKey in ctx && ctx[NoImpersonationKey].Flag? && ctx[NoImpersonationKey].on
  }

  function WithUser(ctx: Context, user: UserInfo): Context {
    ctx[UserKey := Info(user)]
  }

  function UserFrom(ctx: Context): Option<UserInfo> {
    if UserKey in ctx && ctx[UserKey].Info? then Some(ctx[UserKey].user) else None
  }

  function WithImpersonationConfig(ctx: Context, config: ImpersonationRequest): Context {
    var withConfig := ctx[ImpersonationConfigKey := Config(config)];
    if config.impersonatedUser != null then WithUser(withConfig, config.impersonatedUser) else withConfig
  }

  function ImpersonationConfig(ctx: Context): Option<ImpersonationRequest> {
    if ImpersonationConfigKey in ctx && ctx[ImpersonationConfigKey].Config?
    then Some(ctx[ImpersonationConfigKey].config) else None
  }

  lemma ConfigIsRead(ctx: Context, config: ImpersonationRequest)
    requires !NoImpersonation(ctx)
    ensures !NoImpersonation(WithImpersonationConfig(ctx, config))
    ensures ImpersonationConfig(WithImpersonationConfig(ctx, config)) == Some(config)
  {
  }

  /** The empty string when there is none; nothing in the proxy ever stores one. */
  function BearerToken(ctx: Context): string {
    if BearerTokenKey in ctx && ctx[BearerTokenKey].Text? then ctx[BearerTokenKey].text else ""
  }

  /** The client address of the context, or else the observed one, which the context keeps. */
  function RemoteAddr(ctx: Context, observed: string): (r: (Context, string))
  {
    if ClientAddressKey in ctx && ctx[ClientAddressKey].Text? then (ctx, ctx[ClientAddressKey].text)
    else (ctx[ClientAddressKey := Text(observed)], observed)
  }

  /** What the handlers read of a request that has just been authenticated. */
  lemma UserIsRead(observed: string, user: UserInfo, later: string)
    ensures var ctx := WithUser(RemoteAddr(map[], observed).0, user);
            && UserFrom(ctx) == Some(user) && !NoImpersonation(ctx) && BearerTokenKey !in ctx
            && RemoteAddr(ctx, later).1 == observed
  {
  }

  /** One thing a handler does to the context on the way to RoundTrip. */
  datatype Update =
    | SetNoImpersonation
    | SetUser(user: UserInfo)
    | SetConfig(config: ImpersonationRequest)
    | AskAddr(observed: string)

  function Updated(ctx: Context, update: Update): Context {
    match update
    case SetNoImpersonation => WithNoImpersonation(ctx)
    case SetUser(user) => WithUser(ctx, user)
    case SetConfig(config) => WithImpersonationConfig(ctx, config)
    case AskAddr(observed) => RemoteAddr(ctx, observed).0
  }

  function AllUpdated(ctx: Context, updates: seq<Update>): Context
    decreases |updates|
  {
    if updates == [] then ctx else AllUpdated(Updated(ctx, updates[0]), updates[1..])
  }

  /** The address is the one fixed by the first RemoteAddr call, whatever the handlers do to the context
      and to the request's headers afterwards; and the token of no request is ever known. */
  lemma {:induction false} FirstAddressStays(ctx: Context, first: string, updates: seq<Update>, later: string)
    requires BearerTokenKey !in ctx
    ensures var after := AllUpdated(RemoteAddr(ctx, first).0, updates);
            && RemoteAddr(after, later) == (after, RemoteAddr(ctx, first).1)
            && BearerToken(after) == ""
    decreases |updates|
  {
    AddressStays(RemoteAddr(ctx, first).0, updates);
  }

  lemma {:induction false} AddressStays(ctx: Context, updates: seq<Update>)
    requires ClientAddressKey in ctx && ctx[ClientAddressKey].Text? && BearerTokenKey !in ctx
    ensures var after := AllUpdated(ctx, updates);
            ClientAddressKey in after && after[ClientAddressKey] == ctx[ClientAddressKey] && BearerTokenKey !in after
    decreases |updates|
  {
    if updates != [] {
      AddressStays(Updated(ctx, updates[0]), updates[1..]);
    }
  }

  /** Once the no-impersonation mark or a configuration is set, no later update takes it away. */
  lemma {:induction false} MarksStay(ctx: Context, updates: seq<Update>)
    ensures NoImpersonation(ctx) ==> NoImpersonation(AllUpdated(ctx, updates))
    ensures ImpersonationConfig(ctx).Some? ==> ImpersonationConfig(AllUpdated(ctx, updates)).Some?
    decreases |updates|
  {
    if updates != [] {
      MarksStay(Updated(ctx, updates[0]), updates[1..]);
    }
  }
}
