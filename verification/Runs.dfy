/** One request after the other, as values: what each of them finds in the maps that users share, and what becomes
    of it. */
module Runs {
  import opened Headers
  import opened Orders
  import opened ProxyErrors
  import opened Users
  import opened Impersonation
  import opened Requests
  import opened Chain

  /** What the environment decides for one request: the answer of the token review, the address that
      can be observed from the headers, JSON, and the orders in which Go visits maps. */
  datatype Environment = Environment(token: TokenAnswer, observed: Header -> string, marshal: Marshal,
                                     hasOrder: seq<string>, order: seq<string>, keepOrder: seq<string>,
                                     configOrder: seq<string>)

  ghost predicate Suits(env: Environment, settings: Settings, header: Header) {
    && IsOrder(env.hasOrder, header.Keys) && IsOrder(env.order, header.Keys) && IsOrder(env.keepOrder, header.Keys)
    && IsOrder(env.configOrder, settings.extraUserHeaders.Keys)
  }

  /** One request with everything that decides what becomes of it. */
  datatype Case = Case(auth: Auth, incoming: Incoming, addr: string)

  /** What the request leaves in its user's map. */
  function LeftBy(settings: Settings, c: Case): Extra {
    if !c.auth.Authenticated? then map[]
    else if ActsForUser(settings, c.auth) then OwnExtra(settings, c.auth.user.extra, c.incoming.header, c.addr)
    else c.auth.user.extra
  }

  /** Neither the error that RoundTrip answers when it finds no configuration, nor a crash that has no cause in the
      request. */
  ghost predicate IsProper(event: Event, settings: Settings, wiring: Wiring, c: Case, oracle: Oracle,
                           env: Environment)
  {
    && (event.Responded? ==> event.error != NoImpersonationConfig)
    && (event.Crashed? ==> MayCrash(settings, wiring, c.auth, c.incoming, oracle, env.marshal))
  }

  /** The event of each case, as the chain of handlers makes it. */
  function Serving(settings: Settings, wiring: Wiring, oracle: Oracle): (Case, Environment) -> Event {
    (c: Case, env: Environment) =>
      Served(settings, wiring, c.auth, env.token, c.incoming, oracle, env.marshal, c.addr, env.order, env.keepOrder)
  }

  lemma ServedIsProper(settings: Settings, wiring: Wiring, oracle: Oracle, c: Case, env: Environment)
    requires IsWired(settings, wiring) && IsOrder(env.order, c.incoming.header.Keys)
    ensures IsProper(Serving(settings, wiring, oracle)(c, env), settings, wiring, c, oracle, env)
  {
    OutcomesExactly(settings, wiring, c.auth, env.token, c.incoming, oracle, env.marshal, c.addr, env.order,
                    env.keepOrder);
    if Serving(settings, wiring, oracle)(c, env).Crashed? {
      CrashNeedsCause(settings, wiring, c.auth, env.token, c.incoming, oracle, env.marshal, c.addr, env.order,
                      env.keepOrder);
    }
  }

  /** A request as it comes in, the map that its user holds, and what the environment will decide. */
  datatype Arrival = Arrival(auth: Auth, owner: ExtraMap?, incoming: Incoming, env: Environment)

  function Holding(auth: Auth, own: Extra): Auth {
    match auth
    case Authenticated(user) => Authenticated(user.(extra := own))
    case _ => auth
  }

  function HeldBy(auth: Auth): Extra {
    match auth
    case Authenticated(user) => user.extra
    case _ => map[]
  }

  /** What the requests so far have left in a map: what the last one of a user who holds it left. */
  function LeftIn(settings: Settings, arrivals: seq<Arrival>, cases: seq<Case>, owner: ExtraMap?, start: Extra): Extra
    requires |cases| <= |arrivals|
    decreases |cases|
  {
    if cases == [] then start
    else
      var last := |cases| - 1;
      if owner != null && arrivals[last].owner == owner then LeftBy(settings, cases[last])
      else LeftIn(settings, arrivals, cases[..last], owner, start)
  }

  /** What the authenticator finds for the `i`-th request, after these cases. */
  function AuthAfter(settings: Settings, arrivals: seq<Arrival>, cases: seq<Case>, i: nat): Auth
    requires |cases| <= |arrivals| && i < |arrivals|
  {
    var a := arrivals[i];
    Holding(a.auth, LeftIn(settings, arrivals, cases, a.owner, HeldBy(a.auth)))
  }

  function NextCase(settings: Settings, arrivals: seq<Arrival>, cases: seq<Case>): Case
    requires |cases| < |arrivals|
  {
    var a := arrivals[|cases|];
    Case(AuthAfter(settings, arrivals, cases, |cases|), a.incoming, a.env.observed(a.incoming.header))
  }

  /** The first `n` cases. Requests touch each other only through maps that their users share. */
  function CasesOf(settings: Settings, arrivals: seq<Arrival>, n: nat): (cases: seq<Case>)
    requires n <= |arrivals|
    ensures |cases| == n
  {
    if n == 0 then []
    else
      var before := CasesOf(settings, arrivals, n - 1);
      before + [NextCase(settings, arrivals, before)]
  }

  /** The first `n` events of a run. */
  function EventsOf(serve: (Case, Environment) -> Event, settings: Settings, arrivals: seq<Arrival>, n: nat)
    : (events: seq<Event>)
    requires n <= |arrivals|
    ensures |events| == n
  {
    if n == 0 then []
    else
      EventsOf(serve, settings, arrivals, n - 1)
      + [serve(NextCase(settings, arrivals, CasesOf(settings, arrivals, n - 1)), arrivals[n - 1].env)]
  }

  lemma {:induction false} CaseAt(settings: Settings, arrivals: seq<Arrival>, n: nat, i: nat)
    requires i < n <= |arrivals|
    ensures CasesOf(settings, arrivals, n)[i] == NextCase(settings, arrivals, CasesOf(settings, arrivals, i))
    decreases n
  {
    if i < n - 1 {
      CaseAt(settings, arrivals, n - 1, i);
    }
  }

  lemma {:induction false} EventAt(serve: (Case, Environment) -> Event, settings: Settings, arrivals: seq<Arrival>,
                                   n: nat, i: nat)
    requires i < n <= |arrivals|
    ensures EventsOf(serve, settings, arrivals, n)[i]
            == serve(NextCase(settings, arrivals, CasesOf(settings, arrivals, i)), arrivals[i].env)
    decreases n
  {
    if i < n - 1 {
      EventAt(serve, settings, arrivals, n - 1, i);
    }
  }

  /** The case of a request is that of the request: it has come in like this, and the authenticator has answered like
      this, with the name, groups and UID of the user it found. */
  ghost predicate IsCaseOf(c: Case, a: Arrival) {
    && c.incoming == a.incoming && c.addr == a.env.observed(a.incoming.header)
    && c.auth == Holding(a.auth, HeldBy(c.auth))
  }

  ghost predicate AreSuited(settings: Settings, arrivals: seq<Arrival>) {
    forall i | 0 <= i < |arrivals| :: Suits(arrivals[i].env, settings, arrivals[i].incoming.header)
  }

  /** Over any run of a wired proxy: each event is the one that Served names for the request's own case, it is not the
      missing configuration, and it is a crash only when MayCrash holds of that case. */
  lemma RunsAreProper(settings: Settings, wiring: Wiring, oracle: Oracle, arrivals: seq<Arrival>, i: nat)
    requires IsWired(settings, wiring) && AreSuited(settings, arrivals) && i < |arrivals|
    ensures var c := CasesOf(settings, arrivals, |arrivals|)[i];
            var event := EventsOf(Serving(settings, wiring, oracle), settings, arrivals, |arrivals|)[i];
            && IsCaseOf(c, arrivals[i]) && event == Serving(settings, wiring, oracle)(c, arrivals[i].env)
            && IsProper(event, settings, wiring, c, oracle, arrivals[i].env)
  {
    var c := NextCase(settings, arrivals, CasesOf(settings, arrivals, i));
    CaseAt(settings, arrivals, |arrivals|, i);
    EventAt(Serving(settings, wiring, oracle), settings, arrivals, |arrivals|, i);
    assert Suits(arrivals[i].env, settings, arrivals[i].incoming.header);
    ServedIsProper(settings, wiring, oracle, c, arrivals[i].env);
  }

  /** All requests of a run are served for their own case, and properly. */
  ghost predicate IsProperRun(settings: Settings, wiring: Wiring, oracle: Oracle, arrivals: seq<Arrival>,
                              cases: seq<Case>, events: seq<Event>)
  {
    && |arrivals| == |cases| == |events|
    && forall i | 0 <= i < |arrivals| ::
         && IsCaseOf(cases[i], arrivals[i])
         && IsProper(events[i], settings, wiring, cases[i], oracle, arrivals[i].env)
  }

  lemma AllRunsAreProper(settings: Settings, wiring: Wiring, oracle: Oracle, arrivals: seq<Arrival>)
    requires IsWired(settings, wiring) && AreSuited(settings, arrivals)
    ensures IsProperRun(settings, wiring, oracle, arrivals, CasesOf(settings, arrivals, |arrivals|),
                        EventsOf(Serving(settings, wiring, oracle), settings, arrivals, |arrivals|))
  {
    var cases := CasesOf(settings, arrivals, |arrivals|);
    var events := EventsOf(Serving(settings, wiring, oracle), settings, arrivals, |arrivals|);
    forall i | 0 <= i < |arrivals|
      ensures IsCaseOf(cases[i], arrivals[i])
      ensures IsProper(events[i], settings, wiring, cases[i], oracle, arrivals[i].env)
    {
      RunsAreProper(settings, wiring, oracle, arrivals, i);
    }
  }

  lemma CaseAlone(settings: Settings, arrivals: seq<Arrival>, i: nat)
    requires i < |arrivals|
    requires arrivals[i].owner == null || forall j | 0 <= j < i :: arrivals[j].owner != arrivals[i].owner
    ensures var a := arrivals[i];
            NextCase(settings, arrivals, CasesOf(settings, arrivals, i))
            == Case(a.auth, a.incoming, a.env.observed(a.incoming.header))
  {
    var a := arrivals[i];
    LeftAlone(settings, arrivals, CasesOf(settings, arrivals, i), a.owner, HeldBy(a.auth));
  }

  /** A request whose user holds a map that no earlier one has held is served as if it were the only one. */
  lemma RequestsAreSeparate(settings: Settings, wiring: Wiring, oracle: Oracle, arrivals: seq<Arrival>, i: nat)
    requires i < |arrivals|
    requires arrivals[i].owner == null || forall j | 0 <= j < i :: arrivals[j].owner != arrivals[i].owner
    ensures var a := arrivals[i];
            EventsOf(Serving(settings, wiring, oracle), settings, arrivals, |arrivals|)[i]
            == Served(settings, wiring, a.auth, a.env.token, a.incoming, oracle, a.env.marshal,
                      a.env.observed(a.incoming.header), a.env.order, a.env.keepOrder)
  {
    EventAt(Serving(settings, wiring, oracle), settings, arrivals, |arrivals|, i);
    CaseAlone(settings, arrivals, i);
  }

  lemma {:induction false} LeftAlone(settings: Settings, arrivals: seq<Arrival>, cases: seq<Case>, owner: ExtraMap?,
                                     start: Extra)
    requires |cases| <= |arrivals| && (owner == null || forall j | 0 <= j < |cases| :: arrivals[j].owner != owner)
    ensures LeftIn(settings, arrivals, cases, owner, start) == start
    decreases |cases|
  {
    if cases != [] {
      LeftAlone(settings, arrivals, cases[..|cases| - 1], owner, start);
    }
  }

  lemma LeftNext(settings: Settings, arrivals: seq<Arrival>, cases: seq<Case>, c: Case, owner: ExtraMap?, start: Extra)
    requires |cases| < |arrivals|
    ensures LeftIn(settings, arrivals, cases + [c], owner, start)
            == if owner != null && arrivals[|cases|].owner == owner then LeftBy(settings, c)
               else LeftIn(settings, arrivals, cases, owner, start)
  {
    assert (cases + [c])[..|cases|] == cases;
  }

  lemma EventsNext(before: seq<Event>, serve: (Case, Environment) -> Event, settings: Settings, arrivals: seq<Arrival>,
                   n: nat)
    requires n < |arrivals|
    ensures before + EventsOf(serve, settings, arrivals, n + 1)
            == before + EventsOf(serve, settings, arrivals, n)
               + [serve(NextCase(settings, arrivals, CasesOf(settings, arrivals, n)), arrivals[n].env)]
  {
  }

  lemma CasesNext(settings: Settings, arrivals: seq<Arrival>, n: nat)
    requires n < |arrivals|
    ensures CasesOf(settings, arrivals, n + 1)
            == CasesOf(settings, arrivals, n) + [NextCase(settings, arrivals, CasesOf(settings, arrivals, n))]
  {
  }
}
