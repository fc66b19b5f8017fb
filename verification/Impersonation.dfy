/** What the check of impersonation headers must decide, header by header and along any order
    of the header map. */
module Impersonation {
  import opened Strings
  import opened Multimaps
  import opened Orders
  import opened Headers
  import opened ProxyErrors
  import opened Users

  /** The attributes of a SubjectAccessReview; the verb is always "impersonate". */
  datatype ReviewSpec = ReviewSpec(user: string, groups: seq<string>, extra: Extra,
                                   apiGroup: string, resource: string, subresource: string, name: string)

  datatype ReviewResult = Reviewed(allowed: bool) | ReviewError(message: string)

  /** The API server's answer: any function of the review. */
  type Oracle = ReviewSpec -> ReviewResult

  datatype Kind = Other | UserKind | GroupKind | UidKind | ExtraKind(name: string) | UnknownKind

  function KindOf(key: string): Kind {
    var keyToCheck := Lower(key);
    if !HasPrefix(keyToCheck, "impersonate-") then Other
    else if keyToCheck == "impersonate-user" then UserKind
    else if keyToCheck == "impersonate-group" then GroupKind
    else if keyToCheck == "impersonate-uid" then UidKind
    else if HasPrefix(keyToCheck, "impersonate-extra-") then
      assert |"impersonate-extra-"| == 18;
      ExtraKind(Lower(key[18..]))
    else UnknownKind
  }

  predicate IsImpersonation(key: string) {
    HasPrefix(Lower(key), "impersonate-")
  }

  /** A resource with a slash after its first character names a resource and a subresource. */
  function SpecFor(requester: User, resource: string, name: string): ReviewSpec {
    var parts := Split(resource, '/');
    if |parts| > 1 && parts[0] != "" then
      ReviewSpec(requester.name, requester.groups, requester.extra, "authentication.k8s.io", parts[0], parts[1], name)
    else
      ReviewSpec(requester.name, requester.groups, requester.extra, "", resource, "", name)
  }

  /** A review, and the error when it is not allowed. */
  datatype Review = Review(spec: ReviewSpec, denial: Error)

  function UserReview(requester: User, name: string): Review {
    Review(SpecFor(requester, "users", name), NotAllowed(requester.name, OfUser(name)))
  }

  function UidReview(requester: User, uid: string): Review {
    Review(SpecFor(requester, "uids", uid), NotAllowed(requester.name, OfUid(uid)))
  }

  function GroupReview(requester: User, group: string): Review {
    Review(SpecFor(requester, "groups", group), NotAllowed(requester.name, OfGroup(group)))
  }

  function ExtraReview(requester: User, extraName: string, value: string): Review {
    Review(SpecFor(requester, "userextras/" + extraName, value), NotAllowed(requester.name, OfExtra(extraName, value)))
  }

  function UserReviews(requester: User, values: seq<string>): seq<Review> {
    if values == [] || values[0] == "" then [] else [UserReview(requester, values[0])]
  }

  function UidReviews(requester: User, values: seq<string>): seq<Review> {
    if values == [] then [] else [UidReview(requester, values[0])]
  }

  function GroupReviews(requester: User, groups: seq<string>): (r: seq<Review>)
    ensures |r| == |groups|
    ensures forall i | 0 <= i < |groups| :: r[i] == GroupReview(requester, groups[i])
  {
    seq(|groups|, i requires 0 <= i < |groups| => GroupReview(requester, groups[i]))
  }

  function ExtraReviews(requester: User, extraName: string, values: seq<string>): (r: seq<Review>)
    ensures |r| == |values|
    ensures forall i | 0 <= i < |values| :: r[i] == ExtraReview(requester, extraName, values[i])
  {
    seq(|values|, i requires 0 <= i < |values| => ExtraReview(requester, extraName, values[i]))
  }

  /** The reviews one header asks for, in order. */
  function HeaderReviews(requester: User, key: string, values: seq<string>): seq<Review> {
    match KindOf(key)
    case UserKind => UserReviews(requester, values)
    case GroupKind => GroupReviews(requester, values)
    case UidKind => UidReviews(requester, values)
    case ExtraKind(name) => ExtraReviews(requester, name, values)
    case _ => []
  }

  datatype Verdict = Accepted | Rejected(error: Error) | IndexPanic

  /** What one review decides: an error of the API server, a denial, or nothing against it. */
  function VerdictOf(oracle: Oracle, review: Review): Verdict {
    match oracle(review.spec)
    case ReviewError(message) => Rejected(Foreign(message))
    case Reviewed(allowed) => if allowed then Accepted else Rejected(review.denial)
  }

  /** Reviews are submitted, from the `i`-th on, until one is not allowed. */
  function RunFrom(oracle: Oracle, reviews: seq<Review>, i: nat): (Verdict, seq<ReviewSpec>)
    requires i <= |reviews|
    decreases |reviews| - i
  {
    if i == |reviews| then (Accepted, [])
    else
      var verdict := VerdictOf(oracle, reviews[i]);
      if verdict != Accepted then (verdict, [reviews[i].spec])
      else
        var rest := RunFrom(oracle, reviews, i + 1);
        (rest.0, [reviews[i].spec] + rest.1)
  }

  function RunReviews(oracle: Oracle, reviews: seq<Review>): (Verdict, seq<ReviewSpec>) {
    RunFrom(oracle, reviews, 0)
  }

  /** One header of the loop: its verdict and the reviews submitted. */
  function HeaderStep(oracle: Oracle, requester: User, hasUser: bool, key: string, values: seq<string>)
    : (Verdict, seq<ReviewSpec>)
  {
    var kind := KindOf(key);
    if kind == Other then (Accepted, [])
    else if !hasUser then (Rejected(NoImpersonationUserFound), [])
    else if kind == UnknownKind then (Rejected(UnknownHeader(key)), [])
    else if (kind == UserKind || kind == UidKind) && values == [] then (IndexPanic, [])
    else RunReviews(oracle, HeaderReviews(requester, key, values))
  }

  /** What an accepted header adds to the target. */
  function ApplyHeader(target: User, key: string, values: seq<string>): User {
    match KindOf(key)
    case UserKind => if values == [] || values[0] == "" then target else target.(name := values[0])
    case GroupKind => target.(groups := target.groups + values)
    case UidKind => if values == [] then target else target.(uid := values[0])
    case ExtraKind(name) => target.(extra := AppendedAll(target.extra, name, values))
    case _ => target
  }

  const NOBODY := User("", [], "", map[])

  function HasUser(header: Header): bool {
    Get(header, "impersonate-user") != ""
  }

  datatype Checked = Checked(verdict: Verdict, submitted: seq<ReviewSpec>, target: User)

  /** The turn of the loop for one key of the map. */
  function StepAt(oracle: Oracle, requester: User, header: Header, key: string): (Verdict, seq<ReviewSpec>)
    requires key in header
  {
    HeaderStep(oracle, requester, HasUser(header), key, header[key])
  }

  function StepOf(oracle: Oracle, requester: User, header: Header, hasUser: bool)
    : string -> (Verdict, seq<ReviewSpec>)
  {
    key => if key in header then HeaderStep(oracle, requester, hasUser, key, header[key]) else (Accepted, [])
  }

  function TargetStep(header: Header): (User, string) -> User {
    (target, key) => if key in header then ApplyHeader(target, key, header[key]) else target
  }

  /** A loop along `order`, from position `i` on, that stops at the first step that is not accepted. */
  function Loop(step: string -> (Verdict, seq<ReviewSpec>), apply: (User, string) -> User,
                order: seq<string>, i: nat, target: User): Checked
    requires i <= |order|
    decreases |order| - i
  {
    if i == |order| then Checked(Accepted, [], target)
    else
      var (verdict, submitted) := step(order[i]);
      if verdict != Accepted then Checked(verdict, submitted, target)
      else
        var rest := Loop(step, apply, order, i + 1, apply(target, order[i]));
        rest.(submitted := submitted + rest.submitted)
  }

  /** The loop over the header map in the order Go happens to visit it. */
  function Check(oracle: Oracle, requester: User, header: Header, order: seq<string>): Checked {
    Loop(StepOf(oracle, requester, header, HasUser(header)), TargetStep(header), order, 0, NOBODY)
  }

  // ------------------------------------------------------------- soundness and completeness

  /** When a header passes, without any order: the guard of each branch, and every review allowed. */
  ghost predicate HeaderPasses(oracle: Oracle, requester: User, header: Header, key: string)
    requires key in header
  {
    var kind := KindOf(key);
    kind != Other ==>
      && HasUser(header)
      && kind != UnknownKind
      && (kind == UserKind || kind == UidKind ==> header[key] != [])
      && forall r | r in HeaderReviews(requester, key, header[key]) :: oracle(r.spec) == Reviewed(true)
  }

  ghost predicate Authorised(oracle: Oracle, requester: User, header: Header) {
    forall k | k in header :: HeaderPasses(oracle, requester, header, k)
  }

  function Specs(reviews: seq<Review>): (s: seq<ReviewSpec>)
    ensures |s| == |reviews| && forall i | 0 <= i < |s| :: s[i] == reviews[i].spec
  {
    seq(|reviews|, i requires 0 <= i < |reviews| => reviews[i].spec)
  }

  lemma {:induction false} ReviewsPassFrom(oracle: Oracle, reviews: seq<Review>, i: nat)
    requires i <= |reviews|
    ensures var (verdict, submitted) := RunFrom(oracle, reviews, i);
            && (verdict == Accepted <==> forall k | i <= k < |reviews| :: oracle(reviews[k].spec) == Reviewed(true))
            && (verdict == Accepted ==> submitted == Specs(reviews)[i..])
            && verdict != IndexPanic
    decreases |reviews| - i
  {
    if i < |reviews| {
      ReviewsPassFrom(oracle, reviews, i + 1);
      assert Specs(reviews)[i..] == [reviews[i].spec] + Specs(reviews)[i + 1..];
    }
  }

  lemma ReviewsPassExactly(oracle: Oracle, reviews: seq<Review>)
    ensures var (verdict, submitted) := RunReviews(oracle, reviews);
            && (verdict == Accepted <==> forall r | r in reviews :: oracle(r.spec) == Reviewed(true))
            && (verdict == Accepted ==> submitted == Specs(reviews))
            && verdict != IndexPanic
  {
    ReviewsPassFrom(oracle, reviews, 0);
    assert forall k | 0 <= k < |reviews| :: reviews[k] in reviews;
  }

  lemma HeaderPassesExactly(oracle: Oracle, requester: User, header: Header, key: string)
    requires key in header
    ensures var (verdict, submitted) := StepAt(oracle, requester, header, key);
            && (verdict == Accepted <==> HeaderPasses(oracle, requester, header, key))
            && (verdict == Accepted ==> submitted == Specs(HeaderReviews(requester, key, header[key])))
  {
    ReviewsPassExactly(oracle, HeaderReviews(requester, key, header[key]));
  }

  /** The reviews of all the headers of an order, one after the other. */
  function AllReviews(requester: User, header: Header, order: seq<string>): seq<ReviewSpec>
    requires forall k | k in order :: k in header
  {
    if order == [] then []
    else
      assert order[0] in order && forall k | k in order[1..] :: k in order;
      Specs(HeaderReviews(requester, order[0], header[order[0]])) + AllReviews(requester, header, order[1..])
  }

  lemma {:induction false} LoopAccepts(step: string -> (Verdict, seq<ReviewSpec>), apply: (User, string) -> User,
                                       order: seq<string>, i: nat, target: User)
    requires i <= |order|
    ensures var checked := Loop(step, apply, order, i, target);
            && (checked.verdict == Accepted <==> forall j | i <= j < |order| :: step(order[j]).0 == Accepted)
            && (checked.verdict == Accepted ==> checked.target == Fold(apply, target, order[i..]))
    decreases |order| - i
  {
    if i < |order| {
      assert order[i..][0] == order[i] && order[i..][1..] == order[i + 1..];
      LoopAccepts(step, apply, order, i + 1, apply(target, order[i]));
    }
  }

  lemma {:induction false} LoopSubmits(oracle: Oracle, requester: User, header: Header, order: seq<string>, i: nat,
                                       target: User)
    requires i <= |order| && forall k | k in order :: k in header
    requires forall j | i <= j < |order| :: StepAt(oracle, requester, header, order[j]).0 == Accepted
    ensures Loop(StepOf(oracle, requester, header, HasUser(header)), TargetStep(header), order, i, target).submitted
            == AllReviews(requester, header, order[i..])
    decreases |order| - i
  {
    if i < |order| {
      HeaderPassesExactly(oracle, requester, header, order[i]);
      assert order[i..][0] == order[i] && order[i..][1..] == order[i + 1..];
      LoopSubmits(oracle, requester, header, order, i + 1, TargetStep(header)(target, order[i]));
    }
  }

  /** Over a whole map the order does not matter for acceptance. */
  lemma LoopAcceptsMap(step: string -> (Verdict, seq<ReviewSpec>), apply: (User, string) -> User,
                       order: seq<string>, keys: set<string>)
    requires IsOrder(order, keys)
    ensures var checked := Loop(step, apply, order, 0, NOBODY);
            && (checked.verdict == Accepted <==> forall k | k in keys :: step(k).0 == Accepted)
            && (checked.verdict == Accepted ==> checked.target == Fold(apply, NOBODY, order))
  {
    LoopAccepts(step, apply, order, 0, NOBODY);
    assert order[0..] == order;
    assert forall j | 0 <= j < |order| :: order[j] in order;
    assert forall k | k in keys :: k in order;
  }

  lemma AuthorisedStepByStep(oracle: Oracle, requester: User, header: Header)
    ensures var step := StepOf(oracle, requester, header, HasUser(header));
            Authorised(oracle, requester, header) <==> forall k | k in header.Keys :: step(k).0 == Accepted
  {
    var step := StepOf(oracle, requester, header, HasUser(header));
    forall k | k in header
      ensures step(k).0 == Accepted <==> HeaderPasses(oracle, requester, header, k)
    {
      HeaderPassesExactly(oracle, requester, header, k);
    }
  }

  /** Soundness and completeness, for every order: the loop accepts exactly when every impersonation
      header passes on its own, and then it has submitted exactly the reviews of all the headers. */
  lemma AcceptedExactlyWhenAuthorised(oracle: Oracle, requester: User, header: Header, order: seq<string>)
    requires IsOrder(order, header.Keys)
    ensures var checked := Check(oracle, requester, header, order);
            && (checked.verdict == Accepted <==> Authorised(oracle, requester, header))
            && (checked.verdict == Accepted ==>
                  && checked.submitted == AllReviews(requester, header, order)
                  && checked.target == Fold(TargetStep(header), NOBODY, order))
  {
    LoopAcceptsMap(StepOf(oracle, requester, header, HasUser(header)), TargetStep(header), order, header.Keys);
    AuthorisedStepByStep(oracle, requester, header);
    if Check(oracle, requester, header, order).verdict == Accepted {
      AllSubmitted(oracle, requester, header, order);
    }
  }

  lemma AllSubmitted(oracle: Oracle, requester: User, header: Header, order: seq<string>)
    requires IsOrder(order, header.Keys) && Authorised(oracle, requester, header)
    ensures Check(oracle, requester, header, order).submitted == AllReviews(requester, header, order)
  {
    forall j | 0 <= j < |order|
      ensures order[j] in header && StepAt(oracle, requester, header, order[j]).0 == Accepted
    {
      assert order[j] in order;
      HeaderPassesExactly(oracle, requester, header, order[j]);
    }
    LoopSubmits(oracle, requester, header, order, 0, NOBODY);
    assert order[0..] == order;
  }

  /** Whatever the order, the same reviews are submitted, each as often. */
  lemma ReviewsAreOrderFree(requester: User, header: Header, o1: seq<string>, o2: seq<string>)
    requires IsOrder(o1, header.Keys) && IsOrder(o2, header.Keys)
    ensures multiset(AllReviews(requester, header, o1)) == multiset(AllReviews(requester, header, o2))
  {
    var step := CountStep(requester, header);
    AllReviewsAsFold(requester, header, multiset{}, o1);
    AllReviewsAsFold(requester, header, multiset{}, o2);
    forall a, b | a in header.Keys && b in header.Keys ensures Commute(step, a, b) {
      CountsCommute(requester, header, a, b);
    }
    FoldIsOrderFree(step, multiset{}, header.Keys, o1, o2);
  }

  function CountStep(requester: User, header: Header): (multiset<ReviewSpec>, string) -> multiset<ReviewSpec> {
    (counts, key) =>
      if key in header then counts + multiset(Specs(HeaderReviews(requester, key, header[key]))) else counts
  }

  lemma CountsCommute(requester: User, header: Header, a: string, b: string)
    requires a in header && b in header
    ensures Commute(CountStep(requester, header), a, b)
  {
    var ca := multiset(Specs(HeaderReviews(requester, a, header[a])));
    var cb := multiset(Specs(HeaderReviews(requester, b, header[b])));
    assert forall counts: multiset<ReviewSpec> :: counts + ca + cb == counts + cb + ca;
  }

  lemma {:induction false} AllReviewsAsFold(requester: User, header: Header, counts: multiset<ReviewSpec>,
                                            order: seq<string>)
    requires forall k | k in order :: k in header
    ensures Fold(CountStep(requester, header), counts, order) == counts + multiset(AllReviews(requester, header, order))
    decreases |order|
  {
    if order != [] {
      assert forall k | k in order[1..] :: k in order;
      assert order[0] in order;
      var first := Specs(HeaderReviews(requester, order[0], header[order[0]]));
      AllReviewsAsFold(requester, header, counts + multiset(first), order[1..]);
    }
  }

  lemma ReviewsAreForTheRequester(requester: User, key: string, values: seq<string>, r: Review)
    requires r in HeaderReviews(requester, key, values)
    ensures IsForRequester(requester, r.spec)
    ensures r.spec.name in values
  {
  }

  ghost predicate IsForRequester(requester: User, spec: ReviewSpec) {
    spec.user == requester.name && spec.groups == requester.groups && spec.extra == requester.extra
  }

  lemma RunIsForTheRequester(oracle: Oracle, requester: User, reviews: seq<Review>)
    requires forall r | r in reviews :: IsForRequester(requester, r.spec)
    ensures forall s | s in RunReviews(oracle, reviews).1 :: IsForRequester(requester, s)
  {
    SubmittedFrom(oracle, reviews, 0);
    var submitted := RunReviews(oracle, reviews).1;
    forall s | s in submitted ensures IsForRequester(requester, s) {
      var i :| 0 <= i < |submitted| && submitted[i] == s;
      assert reviews[i] in reviews;
    }
  }

  lemma StepIsForTheRequester(oracle: Oracle, requester: User, header: Header, key: string)
    requires key in header
    ensures forall s | s in StepAt(oracle, requester, header, key).1 :: IsForRequester(requester, s)
  {
    var reviews := HeaderReviews(requester, key, header[key]);
    forall r | r in reviews ensures IsForRequester(requester, r.spec) {
      ReviewsAreForTheRequester(requester, key, header[key], r);
    }
    RunIsForTheRequester(oracle, requester, reviews);
  }

  lemma {:induction false} LoopIsForTheRequester(step: string -> (Verdict, seq<ReviewSpec>),
                                                 apply: (User, string) -> User, requester: User, order: seq<string>,
                                                 i: nat, target: User)
    requires i <= |order|
    requires forall k, s | s in step(k).1 :: IsForRequester(requester, s)
    ensures forall s | s in Loop(step, apply, order, i, target).submitted :: IsForRequester(requester, s)
    decreases |order| - i
  {
    if i < |order| {
      LoopIsForTheRequester(step, apply, requester, order, i + 1, apply(target, order[i]));
    }
  }

  /** Every review that is submitted, also by a check that fails, asks on behalf of the requester. */
  lemma SubmittedAreForTheRequester(oracle: Oracle, requester: User, header: Header, order: seq<string>)
    ensures forall s | s in Check(oracle, requester, header, order).submitted :: IsForRequester(requester, s)
  {
    var step := StepOf(oracle, requester, header, HasUser(header));
    forall k, s | s in step(k).1 ensures IsForRequester(requester, s) {
      if k in header {
        StepIsForTheRequester(oracle, requester, header, k);
      }
    }
    LoopIsForTheRequester(step, TargetStep(header), requester, order, 0, NOBODY);
  }

  /** Submission stops at the first review that is not allowed. */
  lemma {:induction false} SubmittedFrom(oracle: Oracle, reviews: seq<Review>, i: nat)
    requires i <= |reviews|
    ensures var (verdict, submitted) := RunFrom(oracle, reviews, i);
            && |submitted| <= |reviews| - i
            && (forall k | 0 <= k < |submitted| :: submitted[k] == reviews[i + k].spec)
            && (forall k | 0 <= k < |submitted| ::
                  oracle(submitted[k]) == Reviewed(true) <==> (k < |submitted| - 1 || verdict == Accepted))
    decreases |reviews| - i
  {
    if i < |reviews| {
      SubmittedFrom(oracle, reviews, i + 1);
    }
  }

  lemma {:induction false} OthersPassFrom(oracle: Oracle, requester: User, header: Header, order: seq<string>, i: nat,
                                          target: User)
    requires i <= |order| && forall j | i <= j < |order| :: order[j] in header && !IsImpersonation(order[j])
    ensures Loop(StepOf(oracle, requester, header, HasUser(header)), TargetStep(header), order, i, target)
            == Checked(Accepted, [], target)
    decreases |order| - i
  {
    if i < |order| {
      assert KindOf(order[i]) == Other;
      OthersPassFrom(oracle, requester, header, order, i + 1, target);
    }
  }

  predicate HasImpersonation(header: Header) {
    exists k | k in header :: IsImpersonation(k)
  }

  /** What the caller gets: a target, no target and no error, an error, or a panic. */
  datatype Decision = Target(user: User) | NoTarget | Failure(error: Error) | Panic

  function DecisionOf(header: Header, checked: Checked): Decision {
    match checked.verdict
    case Rejected(error) => Failure(error)
    case IndexPanic => Panic
    case Accepted => if HasImpersonation(header) then Target(checked.target) else NoTarget
  }

  /** hasImpersonation is false exactly when the check returns no target and no error, and then it would have
      submitted no review. */
  lemma NoHeadersNoReviews(oracle: Oracle, requester: User, header: Header, order: seq<string>)
    requires IsOrder(order, header.Keys)
    ensures !HasImpersonation(header) <==> DecisionOf(header, Check(oracle, requester, header, order)) == NoTarget
    ensures !HasImpersonation(header) ==> Check(oracle, requester, header, order) == Checked(Accepted, [], NOBODY)
  {
    if !HasImpersonation(header) {
      assert forall j | 0 <= j < |order| :: order[j] in order;
      OthersPassFrom(oracle, requester, header, order, 0, NOBODY);
    }
  }

  /** Without a user header every order fails alike, and no review is submitted. */
  lemma WithoutUserEveryOrderFails(oracle: Oracle, requester: User, header: Header, order: seq<string>)
    requires IsOrder(order, header.Keys) && HasImpersonation(header) && !HasUser(header)
    ensures Check(oracle, requester, header, order) == Checked(Rejected(NoImpersonationUserFound), [], NOBODY)
  {
    var k :| k in header && IsImpersonation(k);
    assert k in order;
    assert forall j | 0 <= j < |order| :: order[j] in order;
    NoUserFrom(oracle, requester, header, order, 0, k);
  }

  lemma {:induction false} NoUserFrom(oracle: Oracle, requester: User, header: Header, order: seq<string>, i: nat,
                                      k: string)
    requires i <= |order| && k in order[i..] && IsImpersonation(k) && !HasUser(header)
    requires forall j | i <= j < |order| :: order[j] in header
    ensures Loop(StepOf(oracle, requester, header, HasUser(header)), TargetStep(header), order, i, NOBODY)
            == Checked(Rejected(NoImpersonationUserFound), [], NOBODY)
    decreases |order| - i
  {
    if !IsImpersonation(order[i]) {
      assert order[i..] == [order[i]] + order[i + 1..];
      assert KindOf(order[i]) == Other;
      NoUserFrom(oracle, requester, header, order, i + 1, k);
    }
  }

  // ------------------------------------------------------------- how a check can fail

  lemma {:induction false} LoopFails(step: string -> (Verdict, seq<ReviewSpec>), apply: (User, string) -> User,
                                     order: seq<string>, i: nat, target: User) returns (j: nat)
    requires i <= |order| && Loop(step, apply, order, i, target).verdict != Accepted
    ensures j < |order| && step(order[j]).0 == Loop(step, apply, order, i, target).verdict
    decreases |order| - i
  {
    if step(order[i]).0 != Accepted {
      j := i;
    } else {
      j := LoopFails(step, apply, order, i + 1, apply(target, order[i]));
    }
  }

  ghost predicate SomeOrderEnds(oracle: Oracle, requester: User, header: Header, verdict: Verdict) {
    exists order :: IsOrder(order, header.Keys) && Check(oracle, requester, header, order).verdict == verdict
  }

  ghost predicate SomeHeaderEnds(oracle: Oracle, requester: User, header: Header, verdict: Verdict) {
    exists k :: k in header && StepAt(oracle, requester, header, k).0 == verdict
  }

  /** The ways in which the check can fail over all orders are exactly those in which its headers fail, each on
      its own. */
  lemma FailuresExactly(oracle: Oracle, requester: User, header: Header, verdict: Verdict)
    requires verdict != Accepted
    ensures SomeOrderEnds(oracle, requester, header, verdict) <==> SomeHeaderEnds(oracle, requester, header, verdict)
  {
    if SomeOrderEnds(oracle, requester, header, verdict) {
      var order :| IsOrder(order, header.Keys) && Check(oracle, requester, header, order).verdict == verdict;
      AHeaderEnds(oracle, requester, header, order);
    }
    if SomeHeaderEnds(oracle, requester, header, verdict) {
      var k :| k in header && StepAt(oracle, requester, header, k).0 == verdict;
      var order := FailingFirst(oracle, requester, header, k);
    }
  }

  lemma AHeaderEnds(oracle: Oracle, requester: User, header: Header, order: seq<string>)
    requires IsOrder(order, header.Keys) && Check(oracle, requester, header, order).verdict != Accepted
    ensures SomeHeaderEnds(oracle, requester, header, Check(oracle, requester, header, order).verdict)
  {
    var step := StepOf(oracle, requester, header, HasUser(header));
    var j := LoopFails(step, TargetStep(header), order, 0, NOBODY);
    assert order[j] in order;
    assert step(order[j]) == StepAt(oracle, requester, header, order[j]);
  }

  /** An order that starts with a header that fails. */
  lemma FailingFirst(oracle: Oracle, requester: User, header: Header, k: string) returns (order: seq<string>)
    requires k in header && StepAt(oracle, requester, header, k).0 != Accepted
    ensures IsOrder(order, header.Keys)
    ensures Check(oracle, requester, header, order).verdict == StepAt(oracle, requester, header, k).0
  {
    var rest := SomeOrder(header.Keys - {k});
    order := [k] + rest;
    assert order[0] == k;
  }

  ghost predicate FailAlike(oracle: Oracle, requester: User, header: Header) {
    forall a, b | a in header && b in header ::
      StepAt(oracle, requester, header, a).0 != Accepted && StepAt(oracle, requester, header, b).0 != Accepted ==>
        StepAt(oracle, requester, header, a).0 == StepAt(oracle, requester, header, b).0
  }

  ghost predicate VerdictIsOrderFree(oracle: Oracle, requester: User, header: Header) {
    forall o1, o2 | IsOrder(o1, header.Keys) && IsOrder(o2, header.Keys) ::
      Check(oracle, requester, header, o1).verdict == Check(oracle, requester, header, o2).verdict
  }

  /** Every order reports the same error exactly when all the headers that fail do so for the same reason. */
  lemma VerdictIsOrderFreeExactly(oracle: Oracle, requester: User, header: Header)
    ensures VerdictIsOrderFree(oracle, requester, header) <==> FailAlike(oracle, requester, header)
  {
    if VerdictIsOrderFree(oracle, requester, header) {
      forall a, b | a in header && b in header
                    && StepAt(oracle, requester, header, a).0 != Accepted
                    && StepAt(oracle, requester, header, b).0 != Accepted
        ensures StepAt(oracle, requester, header, a).0 == StepAt(oracle, requester, header, b).0
      {
        var oa := FailingFirst(oracle, requester, header, a);
        var ob := FailingFirst(oracle, requester, header, b);
      }
    }
    if FailAlike(oracle, requester, header) {
      forall o1, o2 | IsOrder(o1, header.Keys) && IsOrder(o2, header.Keys)
        ensures Check(oracle, requester, header, o1).verdict == Check(oracle, requester, header, o2).verdict
      {
        AcceptedTogether(oracle, requester, header, o1, o2);
        if Check(oracle, requester, header, o1).verdict != Accepted {
          AHeaderEnds(oracle, requester, header, o1);
          AHeaderEnds(oracle, requester, header, o2);
        }
      }
    }
  }

  lemma AcceptedTogether(oracle: Oracle, requester: User, header: Header, o1: seq<string>, o2: seq<string>)
    requires IsOrder(o1, header.Keys) && IsOrder(o2, header.Keys)
    ensures Check(oracle, requester, header, o1).verdict == Accepted
            <==> Check(oracle, requester, header, o2).verdict == Accepted
  {
    AcceptedExactlyWhenAuthorised(oracle, requester, header, o1);
    AcceptedExactlyWhenAuthorised(oracle, requester, header, o2);
  }

  /** The guard of `values[0]`: a user or UID header without values, with a user header that has one. */
  predicate MayPanic(header: Header) {
    HasUser(header) && exists k | k in header :: KindOf(k) in {UserKind, UidKind} && header[k] == []
  }

  /** Some order of the header map makes the check panic exactly then. */
  lemma PanicsExactly(oracle: Oracle, requester: User, header: Header)
    ensures SomeOrderEnds(oracle, requester, header, IndexPanic) <==> MayPanic(header)
  {
    FailuresExactly(oracle, requester, header, IndexPanic);
    forall k | k in header
      ensures StepAt(oracle, requester, header, k).0 == IndexPanic <==>
              HasUser(header) && KindOf(k) in {UserKind, UidKind} && header[k] == []
    {
      HeaderPanicsExactly(oracle, requester, HasUser(header), k, header[k]);
    }
  }

  lemma HeaderPanicsExactly(oracle: Oracle, requester: User, hasUser: bool, key: string, values: seq<string>)
    ensures HeaderStep(oracle, requester, hasUser, key, values).0 == IndexPanic <==>
            hasUser && KindOf(key) in {UserKind, UidKind} && values == []
  {
    ReviewsPassExactly(oracle, HeaderReviews(requester, key, values));
  }

  /** The errors a check can end with. */
  predicate IsCheckError(error: Error) {
    error.NoImpersonationUserFound? || error.NotAllowed? || error.UnknownHeader? || error.Foreign?
  }

  ghost predicate EndsProperly(verdict: Verdict) {
    verdict.Rejected? ==> IsCheckError(verdict.error)
  }

  lemma {:induction false} RunEndsProperly(oracle: Oracle, reviews: seq<Review>, i: nat)
    requires i <= |reviews| && forall r | r in reviews :: r.denial.NotAllowed?
    ensures EndsProperly(RunFrom(oracle, reviews, i).0)
    decreases |reviews| - i
  {
    if i < |reviews| {
      assert reviews[i] in reviews;
      RunEndsProperly(oracle, reviews, i + 1);
    }
  }

  lemma HeaderEndsProperly(oracle: Oracle, requester: User, hasUser: bool, key: string, values: seq<string>)
    ensures EndsProperly(HeaderStep(oracle, requester, hasUser, key, values).0)
  {
    RunEndsProperly(oracle, HeaderReviews(requester, key, values), 0);
  }

  lemma {:induction false} LoopEndsProperly(step: string -> (Verdict, seq<ReviewSpec>), apply: (User, string) -> User,
                                            order: seq<string>, i: nat, target: User)
    requires i <= |order| && forall k :: EndsProperly(step(k).0)
    ensures EndsProperly(Loop(step, apply, order, i, target).verdict)
    decreases |order| - i
  {
    if i < |order| {
      assert EndsProperly(step(order[i]).0);
      LoopEndsProperly(step, apply, order, i + 1, apply(target, order[i]));
    }
  }

  /** A check that fails does so with one of its own errors, or with one of the API server's. */
  lemma CheckEndsProperly(oracle: Oracle, requester: User, header: Header, order: seq<string>)
    ensures EndsProperly(Check(oracle, requester, header, order).verdict)
  {
    var step := StepOf(oracle, requester, header, HasUser(header));
    forall k ensures EndsProperly(step(k).0) {
      if k in header {
        HeaderEndsProperly(oracle, requester, HasUser(header), k, header[k]);
      }
    }
    LoopEndsProperly(step, TargetStep(header), order, 0, NOBODY);
  }

  // ------------------------------------------------------------- independence of the order

  /** Whether two headers leave the same target in either order. Only headers that differ in case can
      fail this. */
  predicate SlotsAgree(header: Header, a: string, b: string)
    requires a in header && b in header
  {
    KindOf(a) == KindOf(b) ==>
      match KindOf(a)
      case UserKind =>
        || header[a] == [] || header[b] == [] || header[a][0] == "" || header[b][0] == ""
        || header[a][0] == header[b][0]
      case UidKind => header[a] == [] || header[b] == [] || header[a][0] == header[b][0]
      case GroupKind => header[a] + header[b] == header[b] + header[a]
      case ExtraKind(_) => header[a] + header[b] == header[b] + header[a]
      case _ => true
  }

  lemma SlotsAgreeExactly(header: Header, a: string, b: string, t: User)
    requires a in header && b in header
    ensures var step := TargetStep(header);
            SlotsAgree(header, a, b) <==> step(step(t, a), b) == step(step(t, b), a)
  {
    var va, vb := header[a], header[b];
    if KindOf(a) == KindOf(b) {
      match KindOf(a) {
        case UserKind =>
          SameUser(t, a, b, va, vb);
        case UidKind =>
          SameUid(t, a, b, va, vb);
        case GroupKind =>
          SameGroups(t, a, b, va, vb);
        case ExtraKind(_) =>
          SameExtra(t, a, b, va, vb);
        case _ =>
      }
    } else {
      ApartSwap(t, a, b, va, vb);
    }
  }

  /** Two headers of one kind, or of two kinds, in either order. */
  predicate Swaps(t: User, a: string, b: string, va: seq<string>, vb: seq<string>) {
    ApplyHeader(ApplyHeader(t, a, va), b, vb) == ApplyHeader(ApplyHeader(t, b, vb), a, va)
  }

  lemma SameUser(t: User, a: string, b: string, va: seq<string>, vb: seq<string>)
    requires KindOf(a) == KindOf(b) == UserKind
    ensures Swaps(t, a, b, va, vb) <==> va == [] || vb == [] || va[0] == "" || vb[0] == "" || va[0] == vb[0]
  {
  }

  lemma SameUid(t: User, a: string, b: string, va: seq<string>, vb: seq<string>)
    requires KindOf(a) == KindOf(b) == UidKind
    ensures Swaps(t, a, b, va, vb) <==> va == [] || vb == [] || va[0] == vb[0]
  {
  }

  lemma SameGroups(t: User, a: string, b: string, va: seq<string>, vb: seq<string>)
    requires KindOf(a) == KindOf(b) == GroupKind
    ensures Swaps(t, a, b, va, vb) <==> va + vb == vb + va
  {
    ConcatCancels(t.groups, va, vb);
  }

  lemma SameExtra(t: User, a: string, b: string, va: seq<string>, vb: seq<string>)
    requires KindOf(a) == KindOf(b) && KindOf(a).ExtraKind?
    ensures Swaps(t, a, b, va, vb) <==> va + vb == vb + va
  {
    var name := KindOf(a).name;
    var e1 := AppendedAll(AppendedAll(t.extra, name, va), name, vb);
    var e2 := AppendedAll(AppendedAll(t.extra, name, vb), name, va);
    assert ApplyHeader(ApplyHeader(t, a, va), b, vb) == t.(extra := e1);
    assert ApplyHeader(ApplyHeader(t, b, vb), a, va) == t.(extra := e2);
    ExtraSwaps(t.extra, name, va, vb);
  }

  lemma ExtraSwaps(extra: Extra, name: string, x: seq<string>, y: seq<string>)
    ensures AppendedAll(AppendedAll(extra, name, x), name, y) == AppendedAll(AppendedAll(extra, name, y), name, x)
            <==> x + y == y + x
  {
    var own := ValuesOf(extra, name);
    ExtraTwice(extra, name, x, y);
    ExtraTwice(extra, name, y, x);
    ConcatCancels(own, x, y);
    if x + y != [] {
      SameUpdate(extra, name, own + x + y, own + y + x);
    }
  }

  lemma SameUpdate(extra: Extra, name: string, x: seq<string>, y: seq<string>)
    ensures extra[name := x] == extra[name := y] <==> x == y
  {
    assert extra[name := x][name] == x && extra[name := y][name] == y;
  }

  lemma ApartSwap(t: User, a: string, b: string, va: seq<string>, vb: seq<string>)
    requires KindOf(a) != KindOf(b)
    ensures Swaps(t, a, b, va, vb)
  {
    if KindOf(a).ExtraKind? && KindOf(b).ExtraKind? {
      ExtraApart(t.extra, KindOf(a).name, KindOf(b).name, va, vb);
    }
  }

  lemma ConcatCancels(own: seq<string>, x: seq<string>, y: seq<string>)
    ensures own + x + y == own + y + x <==> x + y == y + x
  {
    assert own + x + y == own + (x + y) && own + y + x == own + (y + x);
    if own + (x + y) == own + (y + x) {
      assert (own + (x + y))[|own|..] == x + y && (own + (y + x))[|own|..] == y + x;
    }
  }

  lemma ExtraTwice(extra: Extra, name: string, x: seq<string>, y: seq<string>)
    ensures AppendedAll(AppendedAll(extra, name, x), name, y) ==
            if x + y == [] then extra else extra[name := ValuesOf(extra, name) + x + y]
  {
    var own := ValuesOf(extra, name);
    if x == [] {
      assert own + x + y == own + y && x + y == y;
    } else if y == [] {
      assert own + x + y == own + x && x + y == x;
    } else {
      assert extra[name := own + x][name := own + x + y] == extra[name := own + x + y];
    }
  }

  lemma ExtraApart(extra: Extra, m: string, n: string, x: seq<string>, y: seq<string>)
    requires m != n
    ensures AppendedAll(AppendedAll(extra, m, x), n, y) == AppendedAll(AppendedAll(extra, n, y), m, x)
  {
  }

  predicate OrderFree(header: Header) {
    forall a, b | a in header && b in header :: SlotsAgree(header, a, b)
  }

  /** The target does not depend on the order of the header map exactly when no two headers that
      differ in case disagree. */
  lemma TargetIsOrderFreeExactly(header: Header)
    ensures OrderFree(header) <==>
            forall o1, o2 | IsOrder(o1, header.Keys) && IsOrder(o2, header.Keys) ::
              Fold(TargetStep(header), NOBODY, o1) == Fold(TargetStep(header), NOBODY, o2)
  {
    var step := TargetStep(header);
    if OrderFree(header) {
      forall a, b | a in header.Keys && b in header.Keys ensures Commute(step, a, b) {
        forall t ensures step(step(t, a), b) == step(step(t, b), a) {
          SlotsAgreeExactly(header, a, b, t);
        }
      }
      forall o1, o2 | IsOrder(o1, header.Keys) && IsOrder(o2, header.Keys)
        ensures Fold(step, NOBODY, o1) == Fold(step, NOBODY, o2)
      {
        FoldIsOrderFree(step, NOBODY, header.Keys, o1, o2);
      }
    } else {
      var a, b :| a in header && b in header && !SlotsAgree(header, a, b);
      var o1, o2, t := DisagreeingOrders(header, a, b);
    }
  }

  lemma DisagreeingOrders(header: Header, a: string, b: string) returns (o1: seq<string>, o2: seq<string>, t: User)
    requires a in header && b in header && !SlotsAgree(header, a, b)
    ensures IsOrder(o1, header.Keys) && IsOrder(o2, header.Keys) && !Swaps(t, a, b, header[a], header[b])
    ensures Fold(TargetStep(header), NOBODY, o1) == ApplyHeader(ApplyHeader(t, a, header[a]), b, header[b])
    ensures Fold(TargetStep(header), NOBODY, o2) == ApplyHeader(ApplyHeader(t, b, header[b]), a, header[a])
  {
    assert a != b;
    var rest := SomeOrder(header.Keys - {a, b});
    t := Fold(TargetStep(header), NOBODY, rest);
    o1, o2 := EndingIn(header, rest, a, b), EndingIn(header, rest, b, a);
    SlotsAgreeExactly(header, a, b, t);
  }

  lemma FoldTwo<T, K>(step: (T, K) -> T, t: T, a: K, b: K)
    ensures Fold(step, t, [a, b]) == step(step(t, a), b)
  {
    assert [a, b][1..] == [b] && [b][1..] == [];
    assert Fold(step, step(t, a), [b]) == Fold(step, step(step(t, a), b), []);
  }

  lemma KindIsLower(a: string, b: string)
    requires KindOf(a) == KindOf(b) && KindOf(a) != Other && KindOf(a) != UnknownKind
    ensures Lower(a) == Lower(b)
  {
    if KindOf(a).ExtraKind? {
      ExtraIsLower(a);
      ExtraIsLower(b);
    }
  }

  lemma ExtraIsLower(key: string)
    requires KindOf(key).ExtraKind?
    ensures Lower(key) == "impersonate-extra-" + KindOf(key).name
  {
    assert Lower(key) == Lower(key)[..18] + Lower(key)[18..];
    assert Lower(key)[18..] == Lower(key[18..]);
  }

  ghost predicate DistinctUpToCase(header: Header) {
    forall a, b | a in header && b in header && Lower(a) == Lower(b) :: a == b
  }

  /** When no two keys differ in case only, the order never matters. */
  lemma DistinctKeysAreOrderFree(header: Header)
    requires DistinctUpToCase(header)
    ensures OrderFree(header)
  {
    forall a, b | a in header && b in header ensures SlotsAgree(header, a, b) {
      if KindOf(a) == KindOf(b) && KindOf(a) != Other && KindOf(a) != UnknownKind {
        KindIsLower(a, b);
      }
    }
  }

  /** Keys from net/http's server are canonical, and so distinct up to case. */
  lemma CanonicalKeysAreDistinct(header: Header)
    requires HasCanonicalKeys(header)
    ensures DistinctUpToCase(header)
  {
    forall a, b | a in header && b in header && Lower(a) == Lower(b) ensures a == b {
      CanonicalUpToCase(a, b);
    }
  }

  /** All orders together: they accept or refuse together, and when they accept they submit the same
      reviews and, unless two spellings of one header disagree, build the same target. */
  lemma OutcomeIsOrderFree(oracle: Oracle, requester: User, header: Header, o1: seq<string>, o2: seq<string>)
    requires IsOrder(o1, header.Keys) && IsOrder(o2, header.Keys)
    ensures var c1, c2 := Check(oracle, requester, header, o1), Check(oracle, requester, header, o2);
            && (c1.verdict == Accepted <==> c2.verdict == Accepted)
            && (c1.verdict == Accepted ==> multiset(c1.submitted) == multiset(c2.submitted))
            && (c1.verdict == Accepted && OrderFree(header) ==> c1.target == c2.target)
  {
    AcceptedExactlyWhenAuthorised(oracle, requester, header, o1);
    AcceptedExactlyWhenAuthorised(oracle, requester, header, o2);
    ReviewsAreOrderFree(requester, header, o1, o2);
    TargetIsOrderFreeExactly(header);
  }

  /** Why spellings matter: of two user headers with different values, whichever is visited last wins. */
  lemma TwoSpellingsDependOnTheOrder(header: Header, a: string, b: string) returns (o1: seq<string>, o2: seq<string>)
    requires a in header && b in header && KindOf(a) == KindOf(b) == UserKind
    requires header[a] != [] && header[b] != []
    requires header[a][0] != "" && header[b][0] != "" && header[a][0] != header[b][0]
    ensures !OrderFree(header) && IsOrder(o1, header.Keys) && IsOrder(o2, header.Keys)
    ensures Fold(TargetStep(header), NOBODY, o1).name == header[b][0]
    ensures Fold(TargetStep(header), NOBODY, o2).name == header[a][0]
  {
    assert !SlotsAgree(header, a, b);
    var rest := SomeOrder(header.Keys - {a, b});
    o1, o2 := EndingIn(header, rest, a, b), EndingIn(header, rest, b, a);
  }

  /** The rest of an order, then two keys. */
  function EndingIn(header: Header, rest: seq<string>, a: string, b: string): (order: seq<string>)
    requires a in header && b in header && a != b && IsOrder(rest, header.Keys - {a, b})
    ensures IsOrder(order, header.Keys)
    ensures var t := Fold(TargetStep(header), NOBODY, rest);
            Fold(TargetStep(header), NOBODY, order) == ApplyHeader(ApplyHeader(t, a, header[a]), b, header[b])
  {
    FoldAppend(TargetStep(header), NOBODY, rest, [a, b]);
    FoldTwo(TargetStep(header), Fold(TargetStep(header), NOBODY, rest), a, b);
    rest + [a, b]
  }

  // ------------------------------------------------------------- the contents of the target

  /** No two of the keys fill the same slot of the target. */
  ghost predicate DistinctSlots(header: Header) {
    forall a, b | a in header && b in header ::
      KindOf(a) == KindOf(b) && KindOf(a) != Other && KindOf(a) != UnknownKind ==> a == b
  }

  lemma DistinctKeysHaveDistinctSlots(header: Header)
    requires DistinctUpToCase(header)
    ensures DistinctSlots(header)
  {
    forall a, b | a in header && b in header && KindOf(a) == KindOf(b) && KindOf(a) != Other && KindOf(a) != UnknownKind
      ensures a == b
    {
      KindIsLower(a, b);
    }
  }

  /** What a user record holds for one kind of header. */
  function Slot(user: User, kind: Kind): seq<string> {
    match kind
    case UserKind => [user.name]
    case GroupKind => user.groups
    case UidKind => [user.uid]
    case ExtraKind(name) => ValuesOf(user.extra, name)
    case _ => []
  }

  /** What one header alone puts there. */
  function Content(key: string, values: seq<string>): seq<string> {
    match KindOf(key)
    case UserKind => if values == [] then [""] else values[..1]
    case UidKind => if values == [] then [""] else values[..1]
    case GroupKind => values
    case ExtraKind(_) => values
    case _ => []
  }

  lemma HeaderFillsItsSlot(target: User, key: string, values: seq<string>, kind: Kind)
    ensures kind != KindOf(key) ==> Slot(ApplyHeader(target, key, values), kind) == Slot(target, kind)
    ensures kind == KindOf(key) && Slot(target, kind) == Slot(NOBODY, kind) ==>
              Slot(ApplyHeader(target, key, values), kind) == Content(key, values)
    ensures (forall n | n in target.extra :: target.extra[n] != []) ==>
              forall n | n in ApplyHeader(target, key, values).extra :: ApplyHeader(target, key, values).extra[n] != []
  {
  }

  lemma {:induction false} SlotStays(header: Header, keys: seq<string>, target: User, kind: Kind)
    requires forall k | k in keys :: k in header && KindOf(k) != kind
    ensures Slot(Fold(TargetStep(header), target, keys), kind) == Slot(target, kind)
    decreases |keys|
  {
    if keys != [] {
      assert keys[0] in keys && forall k | k in keys[1..] :: k in keys;
      HeaderFillsItsSlot(target, keys[0], header[keys[0]], kind);
      SlotStays(header, keys[1..], ApplyHeader(target, keys[0], header[keys[0]]), kind);
    }
  }

  lemma {:induction false} ExtrasStayFilled(header: Header, keys: seq<string>, target: User)
    requires forall k | k in keys :: k in header
    requires forall n | n in target.extra :: target.extra[n] != []
    ensures forall n | n in Fold(TargetStep(header), target, keys).extra ::
            Fold(TargetStep(header), target, keys).extra[n] != []
    decreases |keys|
  {
    if keys != [] {
      assert keys[0] in keys && forall k | k in keys[1..] :: k in keys;
      HeaderFillsItsSlot(target, keys[0], header[keys[0]], Other);
      ExtrasStayFilled(header, keys[1..], ApplyHeader(target, keys[0], header[keys[0]]));
    }
  }

  /** The target is exactly what the headers say, slot by slot: the content of the one header of that kind,
      or nothing when there is none; and every extra it names has a value. */
  lemma TargetContents(header: Header, order: seq<string>)
    requires DistinctSlots(header) && IsOrder(order, header.Keys)
    ensures var target := Fold(TargetStep(header), NOBODY, order);
            && (forall k | k in header && KindOf(k) != Other && KindOf(k) != UnknownKind ::
                  Slot(target, KindOf(k)) == Content(k, header[k]))
            && (forall kind | forall k | k in header :: KindOf(k) != kind :: Slot(target, kind) == Slot(NOBODY, kind))
            && (forall n | n in target.extra :: target.extra[n] != [])
  {
    var target := Fold(TargetStep(header), NOBODY, order);
    forall k | k in header && KindOf(k) != Other && KindOf(k) != UnknownKind
      ensures Slot(target, KindOf(k)) == Content(k, header[k])
    {
      SlotIsFilled(header, order, k);
    }
    forall kind | forall k | k in header :: KindOf(k) != kind
      ensures Slot(target, kind) == Slot(NOBODY, kind)
    {
      SlotStays(header, order, NOBODY, kind);
    }
    ExtrasStayFilled(header, order, NOBODY);
  }

  lemma SlotIsFilled(header: Header, order: seq<string>, k: string)
    requires DistinctSlots(header) && IsOrder(order, header.Keys)
    requires k in header && KindOf(k) != Other && KindOf(k) != UnknownKind
    ensures Slot(Fold(TargetStep(header), NOBODY, order), KindOf(k)) == Content(k, header[k])
  {
    var kind := KindOf(k);
    var before, after := SplitAt(order, header.Keys, k);
    FoldAppend(TargetStep(header), NOBODY, before, [k] + after);
    var t := Fold(TargetStep(header), NOBODY, before);
    SlotStays(header, before, NOBODY, kind);
    HeaderFillsItsSlot(t, k, header[k], kind);
    assert ([k] + after)[1..] == after;
    SlotStays(header, after, ApplyHeader(t, k, header[k]), kind);
  }

  /** Some header gives the target values under this extra name. */
  predicate FillsExtra(header: Header, name: string) {
    exists k | k in header :: KindOf(k) == ExtraKind(name) && header[k] != []
  }

  lemma {:induction false} ExtraIsFilledFrom(header: Header, keys: seq<string>, target: User, name: string)
    requires forall k | k in keys :: k in header
    ensures ValuesOf(Fold(TargetStep(header), target, keys).extra, name) == [] <==>
            && ValuesOf(target.extra, name) == []
            && forall k | k in keys :: !(KindOf(k) == ExtraKind(name) && header[k] != [])
    decreases |keys|
  {
    if keys != [] {
      assert keys == [keys[0]] + keys[1..];
      assert keys[0] in keys && forall k | k in keys[1..] :: k in keys;
      ExtraIsFilledFrom(header, keys[1..], ApplyHeader(target, keys[0], header[keys[0]]), name);
    }
  }

  /** The target has values under an extra name exactly when a header gives some, in every order. */
  lemma ExtraIsFilledExactly(header: Header, order: seq<string>, name: string)
    requires IsOrder(order, header.Keys)
    ensures ValuesOf(Fold(TargetStep(header), NOBODY, order).extra, name) != [] <==> FillsExtra(header, name)
  {
    ExtraIsFilledFrom(header, order, NOBODY, name);
    assert forall k | k in header :: k in order;
  }

  // ------------------------------------------------------------- the headers that are forwarded

  /** newHeaders.Add for every value. */
  function AddAll(header: Header, k: string, vs: seq<string>): Header {
    if vs == [] then header else header[CanonicalKey(k) := Values(header, k) + vs]
  }

  /** One turn of the second loop: impersonation headers are left out, the others copied through their
      canonical key. */
  function KeepStep(header: Header): (Header, string) -> Header {
    (kept, k) => if IsImpersonation(k) then kept else AddAll(kept, k, Values(header, k))
  }

  lemma {:induction false} NoImpersonationIsKept(header: Header, kept: Header, order: seq<string>)
    requires forall k | k in kept :: !IsImpersonation(k)
    ensures forall k | k in Fold(KeepStep(header), kept, order) :: !IsImpersonation(k)
    decreases |order|
  {
    if order != [] {
      CanonicalKeepsLower(order[0]);
      NoImpersonationIsKept(header, KeepStep(header)(kept, order[0]), order[1..]);
    }
  }

  function Kept(header: Header): Header {
    map k | k in header && !IsImpersonation(k) && header[k] != [] :: header[k]
  }

  predicate IsKept(header: Header, k: string)
    requires k in header
  {
    !IsImpersonation(k) && header[k] != []
  }

  lemma {:induction false} CanonicalHeadersAreKept(header: Header, kept: Header, order: seq<string>)
    requires forall k | k in order :: k in header && IsToken(k) && CanonicalKey(k) == k && k !in kept
    requires forall i, j | 0 <= i < j < |order| :: order[i] != order[j]
    ensures var r := Fold(KeepStep(header), kept, order);
            && (forall k :: k in r <==> k in kept || (k in order && IsKept(header, k)))
            && (forall k | k in r :: r[k] == if k in kept then kept[k] else header[k])
    decreases |order|
  {
    if order != [] {
      var k := order[0];
      assert order == [k] + order[1..];
      var next := KeepStep(header)(kept, k);
      assert next == if IsKept(header, k) then kept[k := header[k]] else kept by {
        assert [] + header[k] == header[k];
      }
      assert forall x | x in order[1..] :: x in order && x != k;
      CanonicalHeadersAreKept(header, next, order[1..]);
    }
  }

  /** What is forwarded when impersonating: no header that the API server would take for impersonation,
      whatever the keys; and with canonical keys every other header, its values in their order, and
      nothing else. */
  lemma ForwardedHeaders(header: Header, order: seq<string>)
    requires IsOrder(order, header.Keys)
    ensures forall k | k in Fold(KeepStep(header), map[], order) :: !IsImpersonation(k)
    ensures HasCanonicalKeys(header) ==> Fold(KeepStep(header), map[], order) == Kept(header)
  {
    NoImpersonationIsKept(header, map[], order);
    if HasCanonicalKeys(header) {
      CanonicalHeadersAreKept(header, map[], order);
    }
  }

  lemma AddAllCommutes(kept: Header, a: string, b: string, va: seq<string>, vb: seq<string>)
    requires CanonicalKey(a) == CanonicalKey(b) ==> va == vb
    ensures AddAll(AddAll(kept, a, va), b, vb) == AddAll(AddAll(kept, b, vb), a, va)
  {
    if CanonicalKey(a) != CanonicalKey(b) && va != [] && vb != [] {
      var ca, cb, ha, hb := CanonicalKey(a), CanonicalKey(b), Values(kept, a) + va, Values(kept, b) + vb;
      assert kept[ca := ha][cb := hb] == kept[cb := hb][ca := ha];
    }
  }

  lemma KeptIsOrderFree(header: Header, o1: seq<string>, o2: seq<string>)
    requires IsOrder(o1, header.Keys) && IsOrder(o2, header.Keys)
    ensures Fold(KeepStep(header), map[], o1) == Fold(KeepStep(header), map[], o2)
  {
    forall a, b | a in header.Keys && b in header.Keys ensures Commute(KeepStep(header), a, b) {
      forall kept
        ensures KeepStep(header)(KeepStep(header)(kept, a), b) == KeepStep(header)(KeepStep(header)(kept, b), a)
      {
        AddAllCommutes(kept, a, b, Values(header, a), Values(header, b));
      }
    }
    FoldIsOrderFree(KeepStep(header), map[], header.Keys, o1, o2);
  }
}
