/** The check of impersonation headers as it runs: it fills a fresh target header by header,
    asks the API server before each value, and replaces the request's header map at the end. */
module SubjectAccessReviews {
  import opened Strings
  import opened Multimaps
  import opened Orders
  import opened Headers
  import opened ProxyErrors
  import opened Requests
  import opened Users
  import opened Impersonation

  /** The client of the API server, with every review it was asked to create. */
  class Reviewer {
    const oracle: Oracle
    ghost var trace: seq<ReviewSpec>

    constructor (oracle: Oracle)
      ensures this.oracle == oracle && trace == []
    {
      this.oracle := oracle;
      trace := [];
    }

    method Create(spec: ReviewSpec) returns (result: ReviewResult)
      modifies this`trace
      ensures result == oracle(spec) && trace == old(trace) + [spec]
    {
      trace := trace + [spec];
      result := oracle(spec);
    }
  }

  datatype Outcome = TargetUser(user: UserInfo) | WithoutTarget | Failed(error: Error) | Panicked

  /** The first `i` reviews were allowed and `done` was submitted for them. */
  ghost predicate AllowedUpTo(oracle: Oracle, reviews: seq<Review>, i: nat, done: seq<ReviewSpec>)
    requires i <= |reviews|
  {
    RunReviews(oracle, reviews) == (RunFrom(oracle, reviews, i).0, done + RunFrom(oracle, reviews, i).1)
  }

  lemma NoneYet(oracle: Oracle, reviews: seq<Review>)
    ensures AllowedUpTo(oracle, reviews, 0, [])
  {
    assert [] + RunFrom(oracle, reviews, 0).1 == RunFrom(oracle, reviews, 0).1;
  }

  lemma NextReview(oracle: Oracle, reviews: seq<Review>, i: nat, done: seq<ReviewSpec>)
    requires i < |reviews| && AllowedUpTo(oracle, reviews, i, done)
    ensures var verdict, more := VerdictOf(oracle, reviews[i]), done + [reviews[i].spec];
            if verdict == Accepted then AllowedUpTo(oracle, reviews, i + 1, more)
            else RunReviews(oracle, reviews) == (verdict, more)
  {
    var rest := RunFrom(oracle, reviews, i + 1).1;
    assert done + ([reviews[i].spec] + rest) == done + [reviews[i].spec] + rest;
  }

  lemma OneReview(oracle: Oracle, review: Review)
    ensures RunReviews(oracle, [review]) == (VerdictOf(oracle, review), [review.spec])
  {
    assert RunFrom(oracle, [review], 1) == (Accepted, []);
    assert [review.spec] + [] == [review.spec];
  }

  lemma AllAllowed(oracle: Oracle, reviews: seq<Review>, done: seq<ReviewSpec>)
    requires AllowedUpTo(oracle, reviews, |reviews|, done)
    ensures RunReviews(oracle, reviews) == (Accepted, done)
  {
    assert done + [] == done;
  }

  lemma OneMore<T>(before: seq<T>, vs: seq<T>, i: nat)
    requires i < |vs|
    ensures before + vs[..i + 1] == before + vs[..i] + [vs[i]]
  {
  }

  /** The keys to remove after the first `i` turns of the loop. */
  ghost predicate RemovedUpTo(order: seq<string>, i: nat, removed: set<string>)
    requires i <= |order|
  {
    forall k :: k in removed <==> k in order[..i] && IsImpersonation(k)
  }

  lemma NextRemoved(order: seq<string>, i: nat, removed: set<string>)
    requires i < |order| && RemovedUpTo(order, i, removed)
    ensures RemovedUpTo(order, i + 1, if IsImpersonation(order[i]) then removed + {order[i]} else removed)
  {
    assert order[..i + 1] == order[..i] + [order[i]];
  }

  lemma AllRemoved(header: Header, order: seq<string>, removed: set<string>)
    requires IsOrder(order, header.Keys) && RemovedUpTo(order, |order|, removed)
    ensures forall k :: k in removed <==> k in header && IsImpersonation(k)
  {
    assert order[..|order|] == order;
  }

  /** `step` and `apply` say, key by key, what the loop body does. */
  ghost predicate DescribesBody(step: string -> (Verdict, seq<ReviewSpec>), apply: (User, string) -> User,
                                oracle: Oracle, requester: User, header: Header, hasUser: bool) {
    && (forall k {:trigger HeaderStep(oracle, requester, hasUser, k, header[k])} | k in header ::
          step(k) == HeaderStep(oracle, requester, hasUser, k, header[k]))
    && (forall target, k {:trigger ApplyHeader(target, k, header[k])} | k in header ::
          apply(target, k) == ApplyHeader(target, k, header[k]))
  }

  lemma StepOfDescribesBody(oracle: Oracle, requester: User, header: Header, hasUser: bool)
    ensures DescribesBody(StepOf(oracle, requester, header, hasUser), TargetStep(header), oracle, requester,
                          header, hasUser)
  {
  }

  /** The first `i` headers of the order were accepted and made `target`. */
  ghost predicate AcceptedUpTo(step: string -> (Verdict, seq<ReviewSpec>), apply: (User, string) -> User,
                               order: seq<string>, i: nat, done: seq<ReviewSpec>, target: User)
    requires i <= |order|
  {
    var rest := Loop(step, apply, order, i, target);
    Loop(step, apply, order, 0, NOBODY) == rest.(submitted := done + rest.submitted)
  }

  lemma NextHeader(step: string -> (Verdict, seq<ReviewSpec>), apply: (User, string) -> User,
                   order: seq<string>, i: nat, done: seq<ReviewSpec>, target: User)
    requires i < |order| && AcceptedUpTo(step, apply, order, i, done, target)
    ensures var (verdict, submitted) := step(order[i]);
            if verdict == Accepted
            then AcceptedUpTo(step, apply, order, i + 1, done + submitted, apply(target, order[i]))
            else Loop(step, apply, order, 0, NOBODY) == Checked(verdict, done + submitted, target)
  {
    var submitted := step(order[i]).1;
    var rest := Loop(step, apply, order, i + 1, apply(target, order[i]));
    assert done + (submitted + rest.submitted) == done + submitted + rest.submitted;
  }

  lemma AllAccepted(step: string -> (Verdict, seq<ReviewSpec>), apply: (User, string) -> User,
                    order: seq<string>, done: seq<ReviewSpec>, target: User)
    requires AcceptedUpTo(step, apply, order, |order|, done, target)
    ensures Loop(step, apply, order, 0, NOBODY) == Checked(Accepted, done, target)
  {
    assert done + [] == done;
  }

  lemma NoHeaderYet(step: string -> (Verdict, seq<ReviewSpec>), apply: (User, string) -> User, order: seq<string>)
    ensures AcceptedUpTo(step, apply, order, 0, [], NOBODY)
  {
    var all := Loop(step, apply, order, 0, NOBODY);
    assert [] + all.submitted == all.submitted;
  }

  class SubjectAccessReview {
    const reviewer: Reviewer

    constructor (reviewer: Reviewer)
      ensures this.reviewer == reviewer
    {
      this.reviewer := reviewer;
    }

    /** checkRbacImpersonationAuthorization; an error of the API server is returned as it is. */
    method CheckRbac(resource: string, name: string, requester: UserInfo) returns (result: ReviewResult)
      modifies reviewer`trace
      ensures var spec := SpecFor(old(requester.View()), resource, name);
              result == reviewer.oracle(spec) && reviewer.trace == old(reviewer.trace) + [spec]
    {
      var user := requester.View();
      var apiGroup, mainResource, subresource := "", resource, "";
      var parts := Split(resource, '/');
      if |parts| > 1 && parts[0] != "" {
        mainResource, subresource, apiGroup := parts[0], parts[1], "authentication.k8s.io";
      }
      result := reviewer.Create(
        ReviewSpec(user.name, user.groups, user.extra, apiGroup, mainResource, subresource, name));
    }

    /** One review; the verdict is the error to return, if any. */
    method Ask(resource: string, name: string, denial: Error, requester: UserInfo) returns (verdict: Verdict)
      modifies reviewer`trace
      ensures var review := Review(SpecFor(old(requester.View()), resource, name), denial);
              verdict == VerdictOf(reviewer.oracle, review) && reviewer.trace == old(reviewer.trace) + [review.spec]
    {
      var result := CheckRbac(resource, name, requester);
      match result {
        case ReviewError(message) => verdict := Rejected(Foreign(message));
        case Reviewed(allowed) => verdict := if allowed then Accepted else Rejected(denial);
      }
    }

    /** The review of one of several values, after the `i` before it were allowed. */
    method AskNext(resource: string, name: string, denial: Error, requester: UserInfo,
                   ghost reviews: seq<Review>, ghost i: nat, ghost done: seq<ReviewSpec>) returns (verdict: Verdict)
      requires i < |reviews| && AllowedUpTo(reviewer.oracle, reviews, i, done)
      requires reviews[i] == Review(SpecFor(requester.View(), resource, name), denial)
      modifies reviewer`trace
      ensures reviewer.trace == old(reviewer.trace) + [reviews[i].spec]
      ensures var more := done + [reviews[i].spec];
              if verdict == Accepted then AllowedUpTo(reviewer.oracle, reviews, i + 1, more)
              else RunReviews(reviewer.oracle, reviews) == (verdict, more)
    {
      NextReview(reviewer.oracle, reviews, i, done);
      verdict := Ask(resource, name, denial, requester);
    }

    method CheckUser(values: seq<string>, requester: UserInfo, target: UserInfo) returns (verdict: Verdict)
      requires target != requester && values != []
      modifies target`name, reviewer`trace
      ensures var (spec, submitted) := RunReviews(reviewer.oracle, UserReviews(old(requester.View()), values));
              && verdict == spec && reviewer.trace == old(reviewer.trace) + submitted
      ensures verdict == Accepted ==> target.name == if values[0] == "" then old(target.name) else values[0]
    {
      var userToImpersonate := values[0];
      if userToImpersonate == "" {
        return Accepted;
      }
      OneReview(reviewer.oracle, UserReview(requester.View(), userToImpersonate));
      verdict := Ask("users", userToImpersonate, NotAllowed(requester.name, OfUser(userToImpersonate)), requester);
      if verdict == Accepted {
        target.name := userToImpersonate;
      }
    }

    method CheckUid(values: seq<string>, requester: UserInfo, target: UserInfo) returns (verdict: Verdict)
      requires target != requester && values != []
      modifies target`uid, reviewer`trace
      ensures var (spec, submitted) := RunReviews(reviewer.oracle, UidReviews(old(requester.View()), values));
              && verdict == spec && reviewer.trace == old(reviewer.trace) + submitted
      ensures verdict == Accepted ==> target.uid == values[0]
    {
      var uidToImpersonate := values[0];
      OneReview(reviewer.oracle, UidReview(requester.View(), uidToImpersonate));
      verdict := Ask("uids", uidToImpersonate, NotAllowed(requester.name, OfUid(uidToImpersonate)), requester);
      if verdict == Accepted {
        target.uid := uidToImpersonate;
      }
    }

    /** The group branch: reviews and appends one group after the other. */
    method CheckGroups(values: seq<string>, requester: UserInfo, target: UserInfo) returns (verdict: Verdict)
      requires target != requester
      modifies target`groups, reviewer`trace
      ensures var (spec, submitted) := RunReviews(reviewer.oracle, GroupReviews(old(requester.View()), values));
              && verdict == spec && reviewer.trace == old(reviewer.trace) + submitted
              && (verdict == Accepted ==> target.groups == old(target.groups) + values)
    {
      ghost var user := requester.View();
      ghost var reviews := GroupReviews(user, values);
      ghost var done: seq<ReviewSpec> := [];
      NoneYet(reviewer.oracle, reviews);
      for i := 0 to |values|
        invariant AllowedUpTo(reviewer.oracle, reviews, i, done)
        invariant reviewer.trace == old(reviewer.trace) + done
        invariant target.groups == old(target.groups) + values[..i]
        invariant requester.View() == user
      {
        var groupName := values[i];
        assert reviews[i] == GroupReview(user, groupName);
        verdict := AskNext("groups", groupName, NotAllowed(requester.name, OfGroup(groupName)), requester,
                           reviews, i, done);
        done := done + [reviews[i].spec];
        if verdict != Accepted {
          return;
        }
        OneMore(old(target.groups), values, i);
        target.groups := target.groups + [groupName];
      }
      assert values[..|values|] == values;
      AllAllowed(reviewer.oracle, reviews, done);
      verdict := Accepted;
    }

    /** The extra branch: reviews and appends one value after the other. */
    method CheckExtras(extraName: string, values: seq<string>, requester: UserInfo, extra: ExtraMap)
      returns (verdict: Verdict)
      requires extra != requester.extra
      modifies extra, reviewer`trace
      ensures var reviews := ExtraReviews(old(requester.View()), extraName, values);
              var (spec, submitted) := RunReviews(reviewer.oracle, reviews);
              && verdict == spec && reviewer.trace == old(reviewer.trace) + submitted
              && (verdict == Accepted ==> extra.entries == AppendedAll(old(extra.entries), extraName, values))
    {
      ghost var user := requester.View();
      ghost var reviews := ExtraReviews(user, extraName, values);
      ghost var done: seq<ReviewSpec> := [];
      NoneYet(reviewer.oracle, reviews);
      for i := 0 to |values|
        invariant AllowedUpTo(reviewer.oracle, reviews, i, done)
        invariant reviewer.trace == old(reviewer.trace) + done
        invariant extra.entries == AppendedAll(old(extra.entries), extraName, values[..i])
        invariant requester.View() == user
      {
        assert reviews[i] == ExtraReview(user, extraName, values[i]);
        verdict := AskNext("userextras/" + extraName, values[i],
                           NotAllowed(requester.name, OfExtra(extraName, values[i])), requester, reviews, i, done);
        done := done + [reviews[i].spec];
        if verdict != Accepted {
          return;
        }
        AppendedAllNext(old(extra.entries), extraName, values, i);
        extra.entries := Appended(extra.entries, extraName, values[i]);
      }
      assert values[..|values|] == values;
      AllAllowed(reviewer.oracle, reviews, done);
      verdict := Accepted;
    }

    /** The body of the loop for one header. */
    method CheckHeader(header: Header, key: string, hasUser: bool, requester: UserInfo, target: UserInfo,
                       extra: ExtraMap, ghost step: string -> (Verdict, seq<ReviewSpec>),
                       ghost apply: (User, string) -> User)
      returns (verdict: Verdict)
      requires key in header
      requires DescribesBody(step, apply, reviewer.oracle, requester.View(), header, hasUser)
      requires target != requester && target.extra == extra && extra != requester.extra
      modifies target, extra, reviewer`trace
      ensures var (spec, submitted) := step(key);
              && verdict == spec && reviewer.trace == old(reviewer.trace) + submitted
      ensures target.extra == extra
      ensures verdict == Accepted ==> target.View() == apply(old(target.View()), key)
    {
      assert step(key) == HeaderStep(reviewer.oracle, requester.View(), hasUser, key, header[key]);
      assert apply(target.View(), key) == ApplyHeader(target.View(), key, header[key]);
      var keyToCheck := Lower(key);
      if !HasPrefix(keyToCheck, "impersonate-") {
        return Accepted;
      }
      if !hasUser {
        return Rejected(NoImpersonationUserFound);
      }
      var values := header[key];
      if keyToCheck == "impersonate-user" {
        if values == [] {
          return IndexPanic;
        }
        verdict := CheckUser(values, requester, target);
      } else if keyToCheck == "impersonate-group" {
        verdict := CheckGroups(values, requester, target);
      } else if keyToCheck == "impersonate-uid" {
        if values == [] {
          return IndexPanic;
        }
        verdict := CheckUid(values, requester, target);
      } else if HasPrefix(keyToCheck, "impersonate-extra-") {
        verdict := CheckExtras(Lower(key[18..]), values, requester, extra);
      } else {
        verdict := Rejected(UnknownHeader(key));
      }
    }

    /** The first loop: a fresh target, filled until a header is refused. */
    method CheckHeaders(header: Header, hasUser: bool, requester: UserInfo, order: seq<string>,
                        ghost step: string -> (Verdict, seq<ReviewSpec>), ghost apply: (User, string) -> User)
      returns (verdict: Verdict, target: UserInfo, headersToRemove: set<string>)
      requires IsOrder(order, header.Keys)
      requires DescribesBody(step, apply, reviewer.oracle, requester.View(), header, hasUser)
      modifies reviewer`trace
      ensures var checked := Loop(step, apply, order, 0, NOBODY);
              && verdict == checked.verdict && reviewer.trace == old(reviewer.trace) + checked.submitted
              && (verdict == Accepted ==> target.View() == checked.target)
      ensures fresh(target) && target.extra != null && fresh(target.extra)
      ensures verdict == Accepted ==> forall k :: k in headersToRemove <==> k in header && IsImpersonation(k)
    {
      ghost var user := requester.View();
      ghost var done: seq<ReviewSpec> := [];
      var extra := new ExtraMap();
      target := new UserInfo("", [], "", extra);
      headersToRemove := {};
      NoHeaderYet(step, apply, order);
      for i := 0 to |order|
        invariant target.extra == extra && fresh(target) && fresh(extra)
        invariant requester.View() == user
        invariant AcceptedUpTo(step, apply, order, i, done, target.View())
        invariant reviewer.trace == old(reviewer.trace) + done
        invariant RemovedUpTo(order, i, headersToRemove)
      {
        var key := order[i];
        assert key in order;
        NextRemoved(order, i, headersToRemove);
        NextHeader(step, apply, order, i, done, target.View());
        done := done + step(key).1;
        verdict := CheckHeader(header, key, hasUser, requester, target, extra, step, apply);
        if verdict != Accepted {
          return;
        }
        if IsImpersonation(key) {
          headersToRemove := headersToRemove + {key};
        }
      }
      AllRemoved(header, order, headersToRemove);
      AllAccepted(step, apply, order, done, target.View());
      verdict := Accepted;
    }

    /** After the first loop: the new headers and the target, when there was something to impersonate. */
    method Conclude(req: Request, verdict: Verdict, target: UserInfo, headersToRemove: set<string>,
                    keepOrder: seq<string>)
      returns (outcome: Outcome)
      requires IsOrder(keepOrder, req.header.Keys)
      requires verdict == Accepted ==> forall k :: k in headersToRemove <==> k in req.header && IsImpersonation(k)
      modifies req
      ensures match verdict
              case Rejected(error) => outcome == Failed(error) && req.header == old(req.header)
              case IndexPanic => outcome == Panicked && req.header == old(req.header)
              case Accepted =>
                if HasImpersonation(old(req.header))
                then outcome == TargetUser(target) && req.header == Fold(KeepStep(old(req.header)), map[], keepOrder)
                else outcome == WithoutTarget && req.header == old(req.header)
    {
      match verdict {
        case Rejected(error) =>
          outcome := Failed(error);
        case IndexPanic =>
          outcome := Panicked;
        case Accepted =>
          if headersToRemove != {} {
            var k :| k in headersToRemove;
            assert k in req.header && IsImpersonation(k);
            var newHeaders := RebuildHeaders(req.header, headersToRemove, keepOrder);
            req.header := newHeaders;
            outcome := TargetUser(target);
          } else {
            outcome := WithoutTarget;
          }
      }
    }

    /** CheckAuthorizedForImpersonation, with the orders in which Go visits the header map for the two
        loops. The target is always fresh, and a check that fails leaves the header map alone. */
    method CheckAuthorizedForImpersonation(req: Request, requester: UserInfo, order: seq<string>,
                                           keepOrder: seq<string>)
      returns (outcome: Outcome)
      requires IsOrder(order, req.header.Keys) && IsOrder(keepOrder, req.header.Keys)
      modifies req, reviewer`trace
      ensures var header := old(req.header);
              var checked := Check(reviewer.oracle, old(requester.View()), header, order);
              && reviewer.trace == old(reviewer.trace) + checked.submitted
              && match DecisionOf(header, checked)
                 case Failure(error) => outcome == Failed(error) && req.header == header
                 case Panic => outcome == Panicked && req.header == header
                 case NoTarget => outcome == WithoutTarget && req.header == header
                 case Target(user) =>
                   && outcome.TargetUser? && fresh(outcome.user)
                   && outcome.user.extra != null && fresh(outcome.user.extra)
                   && outcome.user.View() == user
                   && req.header == Fold(KeepStep(header), map[], keepOrder)
    {
      var header := req.header;
      var hasImpersonatedUser := Get(header, "impersonate-user") != "";
      ghost var user := requester.View();
      StepOfDescribesBody(reviewer.oracle, user, header, hasImpersonatedUser);
      var verdict, target, headersToRemove :=
        CheckHeaders(header, hasImpersonatedUser, requester, order,
                     StepOf(reviewer.oracle, user, header, hasImpersonatedUser), TargetStep(header));
      outcome := Conclude(req, verdict, target, headersToRemove, keepOrder);
    }
  }

  /** The inner loop of the second one: every value of one header. */
  method CopyValues(headers: Header, k: string, values: seq<string>) returns (newHeaders: Header)
    ensures newHeaders == AddAll(headers, k, values)
  {
    newHeaders := headers;
    for j := 0 to |values|
      invariant newHeaders == AddAll(headers, k, values[..j])
    {
      AddAllNext(headers, k, values, j);
      newHeaders := Add(newHeaders, k, values[j]);
    }
    assert values[..|values|] == values;
  }

  /** The second loop: every header that is not to be removed, value by value. */
  method RebuildHeaders(header: Header, headersToRemove: set<string>, order: seq<string>) returns (newHeaders: Header)
    requires IsOrder(order, header.Keys)
    requires forall k :: k in headersToRemove <==> k in header && IsImpersonation(k)
    ensures newHeaders == Fold(KeepStep(header), map[], order)
  {
    newHeaders := map[];
    for i := 0 to |order|
      invariant newHeaders == Fold(KeepStep(header), map[], order[..i])
    {
      var k := order[i];
      assert order[..i + 1] == order[..i] + [k];
      assert k in order;
      FoldAppend(KeepStep(header), map[], order[..i], [k]);
      FoldOne(KeepStep(header), newHeaders, k);
      if k !in headersToRemove {
        newHeaders := CopyValues(newHeaders, k, Values(header, k));
      }
    }
    assert order[..|order|] == order;
  }

  lemma AddAllSnoc(header: Header, k: string, vs: seq<string>, v: string)
    ensures Add(AddAll(header, k, vs), k, v) == AddAll(header, k, vs + [v])
  {
    assert Values(header, k) + vs + [v] == Values(header, k) + (vs + [v]);
    assert Values(header, k) + [v] == Values(header, k) + ([] + [v]);
  }

  lemma AddAllNext(header: Header, k: string, vs: seq<string>, j: nat)
    requires j < |vs|
    ensures Add(AddAll(header, k, vs[..j]), k, vs[j]) == AddAll(header, k, vs[..j + 1])
  {
    AddAllSnoc(header, k, vs[..j], vs[j]);
    assert vs[..j + 1] == vs[..j] + [vs[j]];
  }
}
