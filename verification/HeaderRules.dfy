/** The check of impersonation headers by their literal keys: which review each value needs, what a refusal says, and
    where the value ends up in the target. */
module HeaderRules {
  import opened Strings
  import opened Multimaps
  import opened Orders
  import opened Headers
  import opened ProxyErrors
  import opened Users
  import opened Impersonation

  /** The values are reviewed one after the other, up to the first that is not allowed: an error of the API server is
      passed on as it is, and a refusal says so. */
  ghost predicate AsksInTurn(oracle: Oracle, values: seq<string>, spec: string -> ReviewSpec, denial: string -> Error,
                             verdict: Verdict, submitted: seq<ReviewSpec>)
  {
    && |submitted| <= |values|
    && (forall i | 0 <= i < |submitted| :: submitted[i] == spec(values[i]))
    && (forall i | 0 <= i < |submitted| - 1 :: oracle(spec(values[i])) == Reviewed(true))
    && if verdict == Accepted
       then |submitted| == |values| && forall i | 0 <= i < |values| :: oracle(spec(values[i])) == Reviewed(true)
       else
         && submitted != []
         && var last := values[|submitted| - 1];
            match oracle(spec(last))
            case ReviewError(message) => verdict == Rejected(Foreign(message))
            case Reviewed(allowed) => !allowed && verdict == Rejected(denial(last))
  }

  lemma {:induction false} RunEnds(oracle: Oracle, reviews: seq<Review>, i: nat)
    requires i <= |reviews|
    ensures var (verdict, submitted) := RunFrom(oracle, reviews, i);
            if verdict == Accepted then |submitted| == |reviews| - i
            else 0 < |submitted| <= |reviews| - i && verdict == VerdictOf(oracle, reviews[i + |submitted| - 1])
    decreases |reviews| - i
  {
    if i < |reviews| {
      RunEnds(oracle, reviews, i + 1);
    }
  }

  lemma RunAsksInTurn(oracle: Oracle, reviews: seq<Review>, values: seq<string>, spec: string -> ReviewSpec,
                      denial: string -> Error)
    requires |reviews| == |values|
    requires forall i | 0 <= i < |values| :: reviews[i] == Review(spec(values[i]), denial(values[i]))
    ensures var (verdict, submitted) := RunReviews(oracle, reviews);
            AsksInTurn(oracle, values, spec, denial, verdict, submitted)
  {
    SubmittedFrom(oracle, reviews, 0);
    RunEnds(oracle, reviews, 0);
    var (verdict, submitted) := RunReviews(oracle, reviews);
    forall i | 0 <= i < |submitted|
      ensures submitted[i] == spec(values[i])
      ensures oracle(spec(values[i])) == Reviewed(true) <==> (i < |submitted| - 1 || verdict == Accepted)
    {
      assert submitted[i] == reviews[0 + i].spec;
    }
    AsksTogether(oracle, values, spec, denial, verdict, submitted);
  }

  lemma AsksTogether(oracle: Oracle, values: seq<string>, spec: string -> ReviewSpec, denial: string -> Error,
                     verdict: Verdict, submitted: seq<ReviewSpec>)
    requires |submitted| <= |values|
    requires forall i | 0 <= i < |submitted| :: submitted[i] == spec(values[i])
    requires forall i | 0 <= i < |submitted| ::
               oracle(spec(values[i])) == Reviewed(true) <==> (i < |submitted| - 1 || verdict == Accepted)
    requires verdict == Accepted ==> |submitted| == |values|
    requires verdict != Accepted ==>
               submitted != []
               && var last := values[|submitted| - 1]; verdict == VerdictOf(oracle, Review(spec(last), denial(last)))
    ensures AsksInTurn(oracle, values, spec, denial, verdict, submitted)
  {
  }

  /** The review of a name on behalf of the requester. */
  function Asks(requester: User, apiGroup: string, resource: string, subresource: string): string -> ReviewSpec {
    name => ReviewSpec(requester.name, requester.groups, requester.extra, apiGroup, resource, subresource, name)
  }

  lemma WithoutSlash(requester: User, resource: string, name: string)
    requires '/' !in resource
    ensures SpecFor(requester, resource, name) == Asks(requester, "", resource, "")(name)
  {
    SplitAtom(resource, '/');
  }

  lemma WithSlash(requester: User, resource: string, rest: string, name: string)
    requires '/' !in resource && resource != ""
    ensures SpecFor(requester, resource + "/" + rest, name)
            == Asks(requester, "authentication.k8s.io", resource, Split(rest, '/')[0])(name)
  {
    SplitCons(resource, rest, '/');
    assert resource + "/" + rest == resource + ['/'] + rest;
  }

  /** Users, groups and UIDs are resources of the core group. */
  lemma UsersSpec(requester: User, name: string)
    ensures UserReview(requester, name)
            == Review(Asks(requester, "", "users", "")(name), NotAllowed(requester.name, OfUser(name)))
  {
    WithoutSlash(requester, "users", name);
  }

  lemma GroupsSpec(requester: User, name: string)
    ensures GroupReview(requester, name)
            == Review(Asks(requester, "", "groups", "")(name), NotAllowed(requester.name, OfGroup(name)))
  {
    WithoutSlash(requester, "groups", name);
  }

  lemma UidsSpec(requester: User, uid: string)
    ensures UidReview(requester, uid)
            == Review(Asks(requester, "", "uids", "")(uid), NotAllowed(requester.name, OfUid(uid)))
  {
    WithoutSlash(requester, "uids", uid);
  }

  /** An extra is a subresource in authentication.k8s.io, by its name up to a slash. */
  lemma ExtraSpec(requester: User, extraName: string, name: string)
    ensures SpecFor(requester, "userextras/" + extraName, name)
            == Asks(requester, "authentication.k8s.io", "userextras", Split(extraName, '/')[0])(name)
  {
    WithSlash(requester, "userextras", extraName, name);
    UserExtras();
  }

  lemma UserExtras()
    ensures "userextras" + "/" == "userextras/"
  {
  }

  lemma LiteralKinds(key: string)
    ensures Lower(key) == "impersonate-user" ==> KindOf(key) == UserKind
    ensures Lower(key) == "impersonate-group" ==> KindOf(key) == GroupKind
    ensures Lower(key) == "impersonate-uid" ==> KindOf(key) == UidKind
    ensures !("impersonate-" <= Lower(key)) <==> KindOf(key) == Other
  {
  }

  lemma LiteralExtra(key: string, name: string)
    requires Lower(key) == "impersonate-extra-" + name
    ensures KindOf(key) == ExtraKind(name)
  {
    var lower, prefix := Lower(key), "impersonate-extra-";
    assert |prefix| == 18 && lower[18..] == name && Lower(key[18..]) == lower[18..];
    assert HasPrefix(lower, prefix) && HasPrefix(lower, "impersonate-");
    assert lower[12] == 'e' && "impersonate-user"[12] == 'u';
    assert "impersonate-group"[12] == 'g' && "impersonate-uid"[12] == 'u';
  }

  /** The reviews of a header, field by field. */
  lemma UserReviewsExactly(requester: User, key: string, values: seq<string>)
    requires Lower(key) == "impersonate-user"
    ensures HeaderReviews(requester, key, values)
            == if values == [] || values[0] == "" then []
               else [Review(ReviewSpec(requester.name, requester.groups, requester.extra, "", "users", "", values[0]),
                            NotAllowed(requester.name, OfUser(values[0])))]
  {
    LiteralKinds(key);
    if values != [] {
      UsersSpec(requester, values[0]);
    }
  }

  lemma GroupReviewsExactly(requester: User, key: string, values: seq<string>)
    requires Lower(key) == "impersonate-group"
    ensures |HeaderReviews(requester, key, values)| == |values|
    ensures forall i | 0 <= i < |values| ::
              HeaderReviews(requester, key, values)[i]
              == Review(ReviewSpec(requester.name, requester.groups, requester.extra, "", "groups", "", values[i]),
                        NotAllowed(requester.name, OfGroup(values[i])))
  {
    LiteralKinds(key);
    forall i | 0 <= i < |values|
      ensures GroupReview(requester, values[i])
              == Review(ReviewSpec(requester.name, requester.groups, requester.extra, "", "groups", "", values[i]),
                        NotAllowed(requester.name, OfGroup(values[i])))
    {
      GroupsSpec(requester, values[i]);
    }
  }

  lemma UidReviewsExactly(requester: User, key: string, values: seq<string>)
    requires Lower(key) == "impersonate-uid"
    ensures HeaderReviews(requester, key, values)
            == if values == [] then []
               else [Review(ReviewSpec(requester.name, requester.groups, requester.extra, "", "uids", "", values[0]),
                            NotAllowed(requester.name, OfUid(values[0])))]
  {
    LiteralKinds(key);
    if values != [] {
      UidsSpec(requester, values[0]);
    }
  }

  lemma ExtraReviewsExactly(requester: User, key: string, name: string, values: seq<string>)
    requires Lower(key) == "impersonate-extra-" + name && '/' !in name
    ensures |HeaderReviews(requester, key, values)| == |values|
    ensures forall i | 0 <= i < |values| ::
              HeaderReviews(requester, key, values)[i]
              == Review(ReviewSpec(requester.name, requester.groups, requester.extra, "authentication.k8s.io",
                                   "userextras", name, values[i]),
                        NotAllowed(requester.name, OfExtra(name, values[i])))
  {
    LiteralExtra(key, name);
    SplitAtom(name, '/');
    forall i | 0 <= i < |values|
      ensures ExtraReview(requester, name, values[i])
              == Review(ReviewSpec(requester.name, requester.groups, requester.extra, "authentication.k8s.io",
                                   "userextras", name, values[i]),
                        NotAllowed(requester.name, OfExtra(name, values[i])))
    {
      ExtraSpec(requester, name, values[i]);
    }
  }

  lemma UserAsksInTurn(oracle: Oracle, requester: User, values: seq<string>)
    requires values != []
    ensures var (verdict, submitted) := RunReviews(oracle, UserReviews(requester, values));
            AsksInTurn(oracle, if values[0] == "" then [] else [values[0]], Asks(requester, "", "users", ""),
                       name => NotAllowed(requester.name, OfUser(name)), verdict, submitted)
  {
    var names := if values[0] == "" then [] else [values[0]];
    UsersSpec(requester, values[0]);
    RunAsksInTurn(oracle, UserReviews(requester, values), names, Asks(requester, "", "users", ""),
                  name => NotAllowed(requester.name, OfUser(name)));
  }

  lemma UidAsksInTurn(oracle: Oracle, requester: User, values: seq<string>)
    requires values != []
    ensures var (verdict, submitted) := RunReviews(oracle, UidReviews(requester, values));
            AsksInTurn(oracle, [values[0]], Asks(requester, "", "uids", ""),
                       uid => NotAllowed(requester.name, OfUid(uid)), verdict, submitted)
  {
    UidsSpec(requester, values[0]);
    RunAsksInTurn(oracle, UidReviews(requester, values), [values[0]], Asks(requester, "", "uids", ""),
                  uid => NotAllowed(requester.name, OfUid(uid)));
  }

  /** The user header: its first value, reviewed as a user unless it is empty, becomes the target's name. */
  lemma UserHeader(oracle: Oracle, requester: User, key: string, values: seq<string>, target: User)
    requires Lower(key) == "impersonate-user" && values != []
    ensures var (verdict, submitted) := HeaderStep(oracle, requester, true, key, values);
            AsksInTurn(oracle, if values[0] == "" then [] else [values[0]], Asks(requester, "", "users", ""),
                       name => NotAllowed(requester.name, OfUser(name)), verdict, submitted)
    ensures ApplyHeader(target, key, values)
            == if values[0] == "" then target else User(values[0], target.groups, target.uid, target.extra)
  {
    LiteralKinds(key);
    UserAsksInTurn(oracle, requester, values);
  }

  /** The group header: every value, reviewed as a group, is appended to the target's groups. */
  lemma GroupHeader(oracle: Oracle, requester: User, key: string, values: seq<string>, target: User)
    requires Lower(key) == "impersonate-group"
    ensures var (verdict, submitted) := HeaderStep(oracle, requester, true, key, values);
            AsksInTurn(oracle, values, Asks(requester, "", "groups", ""),
                       name => NotAllowed(requester.name, OfGroup(name)), verdict, submitted)
    ensures ApplyHeader(target, key, values)
            == User(target.name, target.groups + values, target.uid, target.extra)
  {
    LiteralKinds(key);
    forall i | 0 <= i < |values|
      ensures GroupReview(requester, values[i])
              == Review(Asks(requester, "", "groups", "")(values[i]), NotAllowed(requester.name, OfGroup(values[i])))
    {
      GroupsSpec(requester, values[i]);
    }
    RunAsksInTurn(oracle, GroupReviews(requester, values), values, Asks(requester, "", "groups", ""),
                  name => NotAllowed(requester.name, OfGroup(name)));
  }

  /** The UID header: its first value, reviewed as a UID, becomes the target's UID. */
  lemma UidHeader(oracle: Oracle, requester: User, key: string, values: seq<string>, target: User)
    requires Lower(key) == "impersonate-uid" && values != []
    ensures var (verdict, submitted) := HeaderStep(oracle, requester, true, key, values);
            AsksInTurn(oracle, [values[0]], Asks(requester, "", "uids", ""),
                       uid => NotAllowed(requester.name, OfUid(uid)), verdict, submitted)
    ensures ApplyHeader(target, key, values) == User(target.name, target.groups, values[0], target.extra)
  {
    LiteralKinds(key);
    UidAsksInTurn(oracle, requester, values);
  }

  /** An extra header: every value, reviewed as a user extra of the name after the prefix in lower case, is appended
      to the target's values under that name. */
  lemma ExtraHeader(oracle: Oracle, requester: User, key: string, name: string, values: seq<string>, target: User)
    requires Lower(key) == "impersonate-extra-" + name
    ensures var (verdict, submitted) := HeaderStep(oracle, requester, true, key, values);
            AsksInTurn(oracle, values, Asks(requester, "authentication.k8s.io", "userextras", Split(name, '/')[0]),
                       value => NotAllowed(requester.name, OfExtra(name, value)), verdict, submitted)
    ensures '/' !in name ==> Split(name, '/') == [name]
    ensures var extra := ApplyHeader(target, key, values).extra;
            && ApplyHeader(target, key, values) == User(target.name, target.groups, target.uid, extra)
            && (values != [] ==>
                  name in extra && extra[name] == (if name in target.extra then target.extra[name] else []) + values)
            && (forall n | n != name || values == [] ::
                  (n in extra <==> n in target.extra) && (n in extra ==> extra[n] == target.extra[n]))
  {
    LiteralExtra(key, name);
    var spec := Asks(requester, "authentication.k8s.io", "userextras", Split(name, '/')[0]);
    forall i | 0 <= i < |values|
      ensures ExtraReview(requester, name, values[i])
              == Review(spec(values[i]), NotAllowed(requester.name, OfExtra(name, values[i])))
    {
      ExtraSpec(requester, name, values[i]);
    }
    RunAsksInTurn(oracle, ExtraReviews(requester, name, values), values, spec,
                  value => NotAllowed(requester.name, OfExtra(name, value)));
    if '/' !in name {
      SplitAtom(name, '/');
    }
  }

  /** Every other header: without the prefix it is none of the check's business; with it, it is refused. Without a
      user beside it, any impersonation header is. */
  lemma OtherHeader(oracle: Oracle, requester: User, hasUser: bool, key: string, values: seq<string>, target: User)
    requires Lower(key) !in {"impersonate-user", "impersonate-group", "impersonate-uid"} || !hasUser
    requires "impersonate-extra-" <= Lower(key) ==> !hasUser
    ensures HeaderStep(oracle, requester, hasUser, key, values)
            == if !("impersonate-" <= Lower(key)) then (Accepted, [])
               else if !hasUser then (Rejected(NoImpersonationUserFound), [])
               else (Rejected(UnknownHeader(key)), [])
    ensures !("impersonate-" <= Lower(key)) ==> ApplyHeader(target, key, values) == target
  {
  }

  /** Without a value, a user or UID header is indexed out of range. */
  lemma EmptyHeader(oracle: Oracle, requester: User, key: string)
    requires Lower(key) == "impersonate-user" || Lower(key) == "impersonate-uid"
    ensures HeaderStep(oracle, requester, true, key, []) == (IndexPanic, [])
  {
    LiteralKinds(key);
  }

  /** There is a user to impersonate when the key that net/http gives the user header has a first value that is not
      empty. */
  lemma UserIsFound(header: Header)
    ensures HasUser(header) <==>
            var key := "Impersonate-User"; key in header && header[key] != [] && header[key][0] != ""
  {
    CanonicalUser();
  }

  /** What the turns from `i` to `j` submit. */
  function SubmittedBy(step: string -> (Verdict, seq<ReviewSpec>), order: seq<string>, i: nat, j: nat): seq<ReviewSpec>
    requires j <= |order|
    decreases j - i
  {
    if i >= j then [] else step(order[i]).1 + SubmittedBy(step, order, i + 1, j)
  }

  lemma {:induction false} LoopStops(step: string -> (Verdict, seq<ReviewSpec>), apply: (User, string) -> User,
                                     order: seq<string>, i: nat, target: User) returns (j: nat)
    requires i <= |order| && Loop(step, apply, order, i, target).verdict != Accepted
    ensures i <= j < |order| && step(order[j]).0 == Loop(step, apply, order, i, target).verdict
    ensures forall k | i <= k < j :: step(order[k]).0 == Accepted
    ensures Loop(step, apply, order, i, target).submitted == SubmittedBy(step, order, i, j + 1)
    decreases |order| - i
  {
    if step(order[i]).0 != Accepted {
      j := i;
      assert SubmittedBy(step, order, i + 1, j + 1) == [];
    } else {
      j := LoopStops(step, apply, order, i + 1, apply(target, order[i]));
    }
  }

  /** A check that fails stops at the first header that is not accepted: its verdict is that header's, and nothing is
      reviewed for the headers after it. */
  lemma ChecksStopAtOnce(oracle: Oracle, requester: User, header: Header, order: seq<string>) returns (j: nat)
    requires IsOrder(order, header.Keys) && Check(oracle, requester, header, order).verdict != Accepted
    ensures j < |order| && forall k | 0 <= k <= j :: order[k] in header
    ensures forall k | 0 <= k < j :: StepAt(oracle, requester, header, order[k]).0 == Accepted
    ensures Check(oracle, requester, header, order).verdict == StepAt(oracle, requester, header, order[j]).0
    ensures Check(oracle, requester, header, order).submitted
            == SubmittedBy(StepOf(oracle, requester, header, HasUser(header)), order, 0, j + 1)
  {
    j := LoopStops(StepOf(oracle, requester, header, HasUser(header)), TargetStep(header), order, 0, NOBODY);
    assert forall k | 0 <= k <= j :: order[k] in order;
  }

  /** What the target holds of one literal key: the content of the header with that key, or nothing. */
  lemma SlotOfKey(header: Header, order: seq<string>, key: string, kind: Kind)
    requires DistinctUpToCase(header) && IsOrder(order, header.Keys)
    requires kind != Other && kind != UnknownKind && forall k | k in header :: KindOf(k) == kind <==> Lower(k) == key
    ensures var target := Fold(TargetStep(header), NOBODY, order);
            && (forall k | k in header && Lower(k) == key :: Slot(target, kind) == Content(k, header[k]))
            && ((forall k | k in header :: Lower(k) != key) ==> Slot(target, kind) == Slot(NOBODY, kind))
            && (forall n | n in target.extra :: target.extra[n] != [])
  {
    DistinctKeysHaveDistinctSlots(header);
    TargetContents(header, order);
  }

  /** The target's name, groups and UID by literal keys, when no two keys differ in case only; whatever the order. */
  lemma TargetExactly(header: Header, order: seq<string>)
    requires DistinctUpToCase(header) && IsOrder(order, header.Keys)
    ensures var target := Fold(TargetStep(header), NOBODY, order);
            && (forall k | k in header && Lower(k) == "impersonate-user" :: target.name == FirstOf(header[k]))
            && ((forall k | k in header :: Lower(k) != "impersonate-user") ==> target.name == "")
            && (forall k | k in header && Lower(k) == "impersonate-group" :: target.groups == header[k])
            && ((forall k | k in header :: Lower(k) != "impersonate-group") ==> target.groups == [])
            && (forall k | k in header && Lower(k) == "impersonate-uid" :: target.uid == FirstOf(header[k]))
            && ((forall k | k in header :: Lower(k) != "impersonate-uid") ==> target.uid == "")
  {
    TargetName(header, order);
    TargetGroups(header, order);
    TargetUid(header, order);
  }

  function FirstOf(values: seq<string>): string {
    if values == [] then "" else values[0]
  }

  lemma TargetName(header: Header, order: seq<string>)
    requires DistinctUpToCase(header) && IsOrder(order, header.Keys)
    ensures var name := Fold(TargetStep(header), NOBODY, order).name;
            && (forall k | k in header && Lower(k) == "impersonate-user" :: name == FirstOf(header[k]))
            && ((forall k | k in header :: Lower(k) != "impersonate-user") ==> name == "")
  {
    forall k | k in header ensures KindOf(k) == UserKind <==> Lower(k) == "impersonate-user" {
      LiteralKinds(k);
    }
    SlotOfKey(header, order, "impersonate-user", UserKind);
    var name := Fold(TargetStep(header), NOBODY, order).name;
    forall k | k in header && Lower(k) == "impersonate-user" ensures name == FirstOf(header[k]) {
      assert [name][0] == Content(k, header[k])[0];
    }
    assert [name][0] == name && [""][0] == "";
  }

  lemma TargetGroups(header: Header, order: seq<string>)
    requires DistinctUpToCase(header) && IsOrder(order, header.Keys)
    ensures var groups := Fold(TargetStep(header), NOBODY, order).groups;
            && (forall k | k in header && Lower(k) == "impersonate-group" :: groups == header[k])
            && ((forall k | k in header :: Lower(k) != "impersonate-group") ==> groups == [])
  {
    forall k | k in header ensures KindOf(k) == GroupKind <==> Lower(k) == "impersonate-group" {
      LiteralKinds(k);
    }
    SlotOfKey(header, order, "impersonate-group", GroupKind);
  }

  lemma TargetUid(header: Header, order: seq<string>)
    requires DistinctUpToCase(header) && IsOrder(order, header.Keys)
    ensures var uid := Fold(TargetStep(header), NOBODY, order).uid;
            && (forall k | k in header && Lower(k) == "impersonate-uid" :: uid == FirstOf(header[k]))
            && ((forall k | k in header :: Lower(k) != "impersonate-uid") ==> uid == "")
  {
    forall k | k in header ensures KindOf(k) == UidKind <==> Lower(k) == "impersonate-uid" {
      LiteralKinds(k);
    }
    SlotOfKey(header, order, "impersonate-uid", UidKind);
    var uid := Fold(TargetStep(header), NOBODY, order).uid;
    forall k | k in header && Lower(k) == "impersonate-uid" ensures uid == FirstOf(header[k]) {
      assert [uid][0] == Content(k, header[k])[0];
    }
    assert [uid][0] == uid && [""][0] == "";
  }

  /** And its extras: under a name, the values of the header with the prefix and that name, if it has any. */
  lemma TargetExtraExactly(header: Header, order: seq<string>, name: string)
    requires DistinctUpToCase(header) && IsOrder(order, header.Keys)
    ensures var extra := Fold(TargetStep(header), NOBODY, order).extra;
            && (forall k | k in header && Lower(k) == "impersonate-extra-" + name ::
                  (name in extra <==> header[k] != []) && (name in extra ==> extra[name] == header[k]))
            && ((forall k | k in header :: Lower(k) != "impersonate-extra-" + name) ==> name !in extra)
  {
    forall k | k in header ensures KindOf(k) == ExtraKind(name) <==> Lower(k) == "impersonate-extra-" + name {
      if Lower(k) == "impersonate-extra-" + name {
        LiteralExtra(k, name);
      }
      if KindOf(k) == ExtraKind(name) {
        ExtraIsLower(k);
      }
    }
    SlotOfKey(header, order, "impersonate-extra-" + name, ExtraKind(name));
  }

  /** What is forwarded beside the target, by the literal prefix: with canonical keys exactly the other headers, with
      their values. */
  lemma KeptExactly(header: Header, keepOrder: seq<string>)
    requires HasCanonicalKeys(header) && IsOrder(keepOrder, header.Keys)
    ensures var kept := Fold(KeepStep(header), map[], keepOrder);
            && (forall k :: k in kept <==> k in header && !("impersonate-" <= Lower(k)) && header[k] != [])
            && (forall k | k in kept :: kept[k] == header[k])
  {
    ForwardedHeaders(header, keepOrder);
  }
}
