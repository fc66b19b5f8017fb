/** What the path rewriter is meant to compute, on the raw segments of a path: empty
    segments count, because positions are taken before they are dropped. */
module PathSegments {
  import opened Strings

  const LABEL_SELECTOR_PREFIX := "pcd-kaapi.pf9.io/region="
  const ALL_CLUSTERS := "all-clusters-in-pf9-tenant-namespace"
  const LABELLED_KINDS: seq<string> :=
    ["byomachines", "byohosts", "hostedcontrolplanes", "openstackclusters", "machines", "machinedeployments",
     "clusters"]

  type Query = map<string, seq<string>>

  function NonEmpty(parts: seq<string>): seq<string> {
    if parts == [] then []
    else (if parts[0] != "" then [parts[0]] else []) + NonEmpty(parts[1..])
  }

  /** joinPath: the non-empty segments behind one leading slash. */
  function JoinedPath(parts: seq<string>): string {
    var fullPath := Join(NonEmpty(parts), "/");
    if HasPrefix(fullPath, "/") then fullPath else "/" + fullPath
  }

  function IndexFrom(parts: seq<string>, part: string, i: nat): (n: nat)
    requires i <= |parts|
    ensures i <= n <= |parts|
    ensures n < |parts| ==> parts[n] == part
    ensures forall k | i <= k < n :: parts[k] != part
    decreases |parts| - i
  {
    if i == |parts| || parts[i] == part then i else IndexFrom(parts, part, i + 1)
  }

  /** The first position of `part`, or the number of segments when there is none. */
  function IndexOf(parts: seq<string>, part: string): (n: nat)
    ensures n <= |parts|
    ensures n < |parts| ==> parts[n] == part
    ensures forall k | 0 <= k < n :: parts[k] != part
  {
    IndexFrom(parts, part, 0)
  }

  function NonEmptyFrom(parts: seq<string>, i: nat): (n: nat)
    requires i <= |parts|
    ensures i <= n <= |parts|
    ensures n < |parts| ==> parts[n] != ""
    ensures forall k | i <= k < n :: parts[k] == ""
    decreases |parts| - i
  {
    if i == |parts| || parts[i] != "" then i else NonEmptyFrom(parts, i + 1)
  }

  /** The position of the first non-empty segment. */
  function TenantAt(parts: seq<string>): (t: nat)
    ensures t <= |parts|
    ensures t < |parts| ==> parts[t] != ""
    ensures forall k | 0 <= k < t :: parts[k] == ""
  {
    NonEmptyFrom(parts, 0)
  }

  /** The tenant: the first non-empty segment, unless that is already "api". */
  function Tenant(parts: seq<string>): string {
    var t := TenantAt(parts);
    if t < |parts| && parts[t] != "api" then parts[t] else ""
  }

  /** The tenant's segment goes, and the one after position `n` becomes the tenant's namespace. */
  function Edited(parts: seq<string>, tenantAt: nat, tenant: string, n: nat, table: map<string, string>)
    : (r: seq<string>)
    ensures |r| == |parts|
  {
    seq(|parts|, k requires 0 <= k < |parts| =>
      if k == n + 1 && tenant in table then table[tenant]
      else if k == tenantAt && tenant != "" then ""
      else parts[k])
  }

  /** modifyNamespaceInPath on segments, with the namespace after the first "namespaces". */
  function Rewritten(parts: seq<string>, table: map<string, string>): (r: seq<string>)
    ensures |r| == |parts|
  {
    Edited(parts, TenantAt(parts), Tenant(parts), IndexOf(parts, "namespaces"), table)
  }

  datatype Scan = Panics(selected: bool) | Scanned(parts: seq<string>, selected: bool)

  /** The loop of addRegionLabelSelectorInPath from position `i` on, as it stands: a segment
      "namespaces" that is not third from the end either stops the loop or indexes out of range. */
  function ScanFrom(parts: seq<string>, i: nat, selected: bool): Scan
    requires i <= |parts|
    decreases |parts| - i
  {
    if i == |parts| then Scanned(parts, selected)
    else if parts[i] != "namespaces" then ScanFrom(parts, i + 1, selected)
    else if |parts| > i + 3 && parts[i + 3] != "" then
      Scanned(if parts[i + 2] == "clusters" && parts[i + 3] == ALL_CLUSTERS then parts[i + 3 := ""] else parts,
              selected)
    else if |parts| <= i + 2 then Panics(selected)
    else ScanFrom(parts, i + 1, selected || parts[i + 2] in LABELLED_KINDS)
  }

  /** Where a request goes; after a panic, nowhere, with this query left behind. */
  datatype Forwarded = Panicked(query: Query) | Forwarded(path: string, query: Query)

  function Selecting(query: Query, region: string, selected: bool): Query {
    if selected then query["labelSelector" := [LABEL_SELECTOR_PREFIX + region]] else query
  }

  /** addRegionLabelSelectorInPath: the region is the second segment, and it goes too. */
  function WithRegion(path: string, query: Query): Forwarded {
    var parts := Split(path, '/');
    if |parts| < 2 then Panicked(query)
    else
      match ScanFrom(parts[1 := ""], 0, false)
      case Panics(selected) => Panicked(Selecting(query, parts[1], selected))
      case Scanned(cleaned, selected) => Forwarded(JoinedPath(cleaned), Selecting(query, parts[1], selected))
  }

  /** The two stages: the second splits the path the first has joined. */
  function RoundTripped(path: string, query: Query, table: map<string, string>): Forwarded {
    WithRegion(JoinedPath(Rewritten(Split(path, '/'), table)), query)
  }

  // ---------------------------------------------------------- in one stage

  /** The segments after the region. */
  function AfterRegion(segments: seq<string>): seq<string> {
    if segments == [] then [] else segments[1..]
  }

  function RegionOf(segments: seq<string>): string {
    if segments == [] then "" else segments[0]
  }

  /** No index runs past the end: the first "namespaces" is fourth from the end or earlier, or
      third from the end and the last. */
  predicate IndexingIsSafe(rest: seq<string>) {
    var n := IndexOf(rest, "namespaces");
    n == |rest| || n + 3 < |rest| || (n + 3 == |rest| && "namespaces" !in rest[n + 1..])
  }

  predicate IsSelected(rest: seq<string>) {
    var n := IndexOf(rest, "namespaces");
    n + 3 == |rest| && rest[n + 2] in LABELLED_KINDS
  }

  function WithoutSentinel(rest: seq<string>): seq<string> {
    var n := IndexOf(rest, "namespaces");
    if n + 3 < |rest| && rest[n + 2] == "clusters" && rest[n + 3] == ALL_CLUSTERS
    then rest[..n + 3] + rest[n + 4..]
    else rest
  }

  function Closed(segments: seq<string>, query: Query): Forwarded {
    var rest := AfterRegion(segments);
    var selecting := Selecting(query, RegionOf(segments), IsSelected(rest));
    if IndexingIsSafe(rest) then Forwarded("/" + Join(WithoutSentinel(rest), "/"), selecting) else Panicked(selecting)
  }

  /** The segments that splitting a joined path gives: a part with slashes in it counts as several. */
  function Pieces(parts: seq<string>): seq<string> {
    if parts == [] then []
    else (if parts[0] == "" then [] else Split(parts[0], '/')) + Pieces(parts[1..])
  }

  /** No slash at either end, and no two in a row. */
  predicate IsClean(part: string) {
    part == "" || "" !in Split(part, '/')
  }

  /** The namespace that the first stage writes into this path, if it writes any. */
  function WrittenNamespace(parts: seq<string>, table: map<string, string>): Option<string> {
    if IndexOf(parts, "namespaces") + 1 < |parts| && Tenant(parts) in table then Some(table[Tenant(parts)]) else None
  }

  predicate WritesClean(parts: seq<string>, table: map<string, string>) {
    WrittenNamespace(parts, table).Some? ==> IsClean(WrittenNamespace(parts, table).value)
  }

  predicate WritesSlashFree(parts: seq<string>, table: map<string, string>) {
    WrittenNamespace(parts, table).Some? ==> '/' !in WrittenNamespace(parts, table).value
  }

  // ---------------------------------------------------------- lemmas

  lemma {:induction false} NonEmptyMembers(parts: seq<string>)
    ensures forall p :: p in NonEmpty(parts) <==> p != "" && p in parts
  {
    if parts != [] {
      NonEmptyMembers(parts[1..]);
      assert parts == [parts[0]] + parts[1..];
    }
  }

  lemma {:induction false} NonEmptyAppend(a: seq<string>, b: seq<string>)
    ensures NonEmpty(a + b) == NonEmpty(a) + NonEmpty(b)
  {
    if a == [] {
      assert a + b == b;
    } else {
      NonEmptyAppend(a[1..], b);
      assert (a + b)[1..] == a[1..] + b;
      var head := if a[0] != "" then [a[0]] else [];
      assert head + (NonEmpty(a[1..]) + NonEmpty(b)) == (head + NonEmpty(a[1..])) + NonEmpty(b);
    }
  }

  lemma {:induction false} NonEmptyKeepsAll(parts: seq<string>)
    requires "" !in parts
    ensures NonEmpty(parts) == parts
  {
    if parts != [] {
      assert parts[0] in parts;
      assert forall p | p in parts[1..] :: p in parts;
      NonEmptyKeepsAll(parts[1..]);
    }
  }

  lemma {:induction false} PiecesMembers(parts: seq<string>)
    ensures forall p | p in Pieces(parts) :: '/' !in p
    ensures (forall p | p in parts :: IsClean(p)) ==> "" !in Pieces(parts)
  {
    if parts != [] {
      SplitPartsAreSepFree(parts[0], '/');
      PiecesMembers(parts[1..]);
      assert parts[0] in parts && forall p | p in parts[1..] :: p in parts;
    }
  }

  lemma {:induction false} PiecesOfSlashFree(parts: seq<string>)
    requires forall p | p in parts :: '/' !in p
    ensures Pieces(parts) == NonEmpty(parts)
  {
    if parts != [] {
      assert parts[0] in parts && forall p | p in parts[1..] :: p in parts;
      SplitAtom(parts[0], '/');
      PiecesOfSlashFree(parts[1..]);
    }
  }

  lemma SlashFreeIsClean(part: string)
    requires '/' !in part
    ensures IsClean(part)
  {
    SplitAtom(part, '/');
  }

  lemma {:induction false} PiecesOfNonEmpty(parts: seq<string>)
    ensures Pieces(NonEmpty(parts)) == Pieces(parts)
  {
    if parts != [] {
      PiecesOfNonEmpty(parts[1..]);
      if parts[0] == "" {
        assert NonEmpty(parts) == NonEmpty(parts[1..]) && Pieces(parts) == Pieces(parts[1..]);
      } else {
        assert NonEmpty(parts) == [parts[0]] + NonEmpty(parts[1..]);
        assert NonEmpty(parts)[1..] == NonEmpty(parts[1..]);
      }
    }
  }

  lemma {:induction false} SplitOfJoined(segments: seq<string>)
    requires segments != [] && "" !in segments
    ensures Split(Join(segments, "/"), '/') == Pieces(segments)
  {
    var first := segments[0];
    assert first in segments && forall p | p in segments[1..] :: p in segments;
    if |segments| == 1 {
      assert Pieces(segments) == Split(first, '/') + [];
    } else {
      SplitOfJoined(segments[1..]);
      SplitConcat(first, Join(segments[1..], "/"), '/');
      assert Join(segments, "/") == first + ['/'] + Join(segments[1..], "/");
    }
  }

  lemma SlashInFront(s: string)
    requires s != ""
    ensures s[0] == '/' <==> Split(s, '/')[0] == ""
  {
  }

  lemma {:induction false} JoinIsNotEmpty(segments: seq<string>)
    requires segments != [] && "" !in segments
    ensures Join(segments, "/") != ""
  {
    assert segments[0] in segments;
  }

  /** Splitting a joined path gives back its pieces behind one empty one; behind none when they start with an
      empty one themselves, because then the join starts with a slash. */
  lemma SplitJoinedPath(parts: seq<string>)
    ensures NonEmpty(parts) != [] ==> Pieces(parts) != []
    ensures Split(JoinedPath(parts), '/') ==
            if NonEmpty(parts) == [] then ["", ""]
            else if Pieces(parts)[0] == "" then Pieces(parts)
            else [""] + Pieces(parts)
  {
    var segments := NonEmpty(parts);
    var joined := Join(segments, "/");
    NonEmptyMembers(parts);
    PiecesOfNonEmpty(parts);
    if segments == [] {
      assert Split("/", '/') == ["", ""] by { SplitStep('/', "", '/'); }
    } else {
      SplitOfJoined(segments);
      JoinIsNotEmpty(segments);
      SlashInFront(joined);
      SplitStep('/', joined, '/');
    }
  }

  lemma CleanPieces(parts: seq<string>)
    requires forall p | p in parts :: IsClean(p)
    ensures NonEmpty(parts) == [] <==> Pieces(parts) == []
    ensures Split(JoinedPath(parts), '/') == [""] + (if NonEmpty(parts) == [] then [""] else Pieces(parts))
  {
    SplitJoinedPath(parts);
    PiecesMembers(parts);
    PiecesAreSome(parts);
  }

  lemma SlashFreeJoin(segments: seq<string>)
    requires segments != [] ==> segments[0] != "" && '/' !in segments[0]
    ensures !HasPrefix(Join(segments, "/"), "/")
  {
    if segments != [] {
      assert segments[0][0] in segments[0];
      assert Join(segments, "/")[0] == segments[0][0];
    }
  }

  /** The same for slash-free parts, whose pieces are the parts themselves. */
  lemma SplitSlashFreePath(parts: seq<string>)
    requires forall p | p in parts :: '/' !in p
    ensures JoinedPath(parts) == "/" + Join(NonEmpty(parts), "/")
    ensures Split(JoinedPath(parts), '/') == [""] + (if NonEmpty(parts) == [] then [""] else NonEmpty(parts))
  {
    forall p | p in parts ensures IsClean(p) {
      SlashFreeIsClean(p);
    }
    CleanPieces(parts);
    PiecesOfSlashFree(parts);
    FirstNonEmpty(parts);
    SlashFreeJoin(NonEmpty(parts));
  }

  lemma FirstNonEmpty(parts: seq<string>)
    requires forall p | p in parts :: '/' !in p
    ensures NonEmpty(parts) != [] ==> NonEmpty(parts)[0] != "" && '/' !in NonEmpty(parts)[0]
  {
    NonEmptyMembers(parts);
    if NonEmpty(parts) != [] {
      assert NonEmpty(parts)[0] in NonEmpty(parts);
    }
  }

  /** joinPath makes a normal form: joining what was joined changes nothing. */
  lemma JoinedPathIsNormal(path: string)
    ensures var once := JoinedPath(Split(path, '/'));
            JoinedPath(Split(once, '/')) == once
  {
    SplitPartsAreSepFree(path, '/');
    var parts := Split(path, '/');
    SplitSlashFreePath(parts);
    JoinAgain(NonEmpty(parts));
    NonEmptyMembers(parts);
    assert NonEmpty(NonEmpty(parts)) == NonEmpty(parts) by { NonEmptyKeepsAll(NonEmpty(parts)); }
  }

  lemma NonEmptyBehindEmpty(parts: seq<string>)
    ensures NonEmpty([""] + parts) == NonEmpty(parts)
  {
    assert ([""] + parts)[1..] == parts;
  }

  lemma JoinAgain(segments: seq<string>)
    ensures NonEmpty([""] + (if segments == [] then [""] else segments)) == NonEmpty(segments)
  {
    if segments == [] {
      NonEmptyBehindEmpty([""]);
      NonEmptyBehindEmpty([]);
      assert [""] + [] == [""];
    } else {
      NonEmptyBehindEmpty(segments);
    }
  }

  lemma {:induction false} ScanSkips(parts: seq<string>, i: nat, n: nat, selected: bool)
    requires i <= n <= |parts|
    requires forall k | i <= k < n :: parts[k] != "namespaces"
    ensures ScanFrom(parts, i, selected) == ScanFrom(parts, n, selected)
    decreases n - i
  {
    if i < n {
      ScanSkips(parts, i + 1, n, selected);
    }
  }

  /** A "namespaces" fourth from the end or earlier stops the loop. */
  lemma ScanStops(parts: seq<string>, m: nat, selected: bool)
    requires m + 3 < |parts| && parts[m] == "namespaces" && parts[m + 3] != ""
    ensures ScanFrom(parts, m, selected) ==
            Scanned(if parts[m + 2] == "clusters" && parts[m + 3] == ALL_CLUSTERS then parts[m + 3 := ""] else parts,
                    selected)
  {
  }

  /** One third from the end selects, and the loop goes on to the last two segments. */
  lemma ScanThirdFromEnd(parts: seq<string>, m: nat, selected: bool)
    requires m + 3 == |parts| && parts[m] == "namespaces"
    ensures var after := selected || parts[m + 2] in LABELLED_KINDS;
            ScanFrom(parts, m, selected) ==
              if parts[m + 1] == "namespaces" || parts[m + 2] == "namespaces" then Panics(after)
              else Scanned(parts, after)
  {
    var after := selected || parts[m + 2] in LABELLED_KINDS;
    assert ScanFrom(parts, m, selected) == ScanFrom(parts, m + 1, after);
    if parts[m + 1] == "namespaces" {
      assert ScanFrom(parts, m + 1, after) == Panics(after);
    } else {
      assert ScanFrom(parts, m + 1, after) == ScanFrom(parts, m + 2, after);
      if parts[m + 2] != "namespaces" {
        assert ScanFrom(parts, m + 2, after) == ScanFrom(parts, m + 3, after);
      }
    }
  }

  lemma ScanTooShort(parts: seq<string>, m: nat, selected: bool)
    requires m < |parts| <= m + 2 && parts[m] == "namespaces"
    ensures ScanFrom(parts, m, selected) == Panics(selected)
  {
  }

  /** The two empty segments in front are skipped, and so is everything before the first "namespaces". */
  lemma ScanReaches(rest: seq<string>)
    ensures ScanFrom(["", ""] + rest, 0, false) == ScanFrom(["", ""] + rest, IndexOf(rest, "namespaces") + 2, false)
  {
    var parts, n := ["", ""] + rest, IndexOf(rest, "namespaces");
    forall k | 0 <= k < n + 2 ensures parts[k] != "namespaces" {
      if k >= 2 {
        assert parts[k] == rest[k - 2];
      }
    }
    ScanSkips(parts, 0, n + 2, false);
  }

  lemma LastTwo(rest: seq<string>, n: nat)
    requires n + 3 == |rest|
    ensures "namespaces" in rest[n + 1..] <==> rest[n + 1] == "namespaces" || rest[n + 2] == "namespaces"
  {
    assert rest[n + 1..] == [rest[n + 1], rest[n + 2]];
  }

  /** The loop on a normal path, in closed form. */
  lemma ScanOfNormalPath(rest: seq<string>)
    requires "" !in rest
    ensures ScanFrom(["", ""] + rest, 0, false) ==
            if IndexingIsSafe(rest) then Scanned(["", ""] + Cleaned(rest), IsSelected(rest))
            else Panics(IsSelected(rest))
  {
    var parts, n := ["", ""] + rest, IndexOf(rest, "namespaces");
    ScanReaches(rest);
    if n + 3 < |rest| {
      assert rest[n + 3] in rest;
      ScanStops(parts, n + 2, false);
      assert parts[n + 5 := ""] == ["", ""] + rest[n + 3 := ""];
    } else if n + 3 == |rest| {
      ScanThirdFromEnd(parts, n + 2, false);
      LastTwo(rest, n);
    } else if n < |rest| {
      ScanTooShort(parts, n + 2, false);
    }
  }

  /** The loop gets to position `j`: no "namespaces" before it stops the loop or runs past the end. */
  ghost predicate IsReached(parts: seq<string>, j: nat) {
    forall i | 0 <= i < j && i < |parts| && parts[i] == "namespaces" :: i + 2 < |parts| && !StopsAt(parts, i)
  }

  /** A segment follows two behind the one after "namespaces". */
  predicate StopsAt(parts: seq<string>, i: nat) {
    i + 3 < |parts| && parts[i + 3] != ""
  }

  predicate SelectsAt(parts: seq<string>, i: nat) {
    i + 2 < |parts| && !StopsAt(parts, i) && IsLabelled(parts[i + 2])
  }

  /** The seven kinds that get a label selector. */
  predicate IsLabelled(kind: string) {
    || kind == "byomachines" || kind == "byohosts" || kind == "hostedcontrolplanes" || kind == "openstackclusters"
    || kind == "machines" || kind == "machinedeployments" || kind == "clusters"
  }

  lemma LabelledExactly(kind: string)
    ensures kind in LABELLED_KINDS <==> IsLabelled(kind)
  {
    var kinds := LABELLED_KINDS;
    assert kinds[0] == "byomachines" && kinds[1] == "byohosts" && kinds[2] == "hostedcontrolplanes";
    assert kinds[3] == "openstackclusters" && kinds[4] == "machines" && kinds[5] == "machinedeployments";
    assert kinds[6] == "clusters" && |kinds| == 7;
  }

  predicate HasSentinelAt(parts: seq<string>, i: nat) {
    StopsAt(parts, i) && parts[i + 2] == "clusters" && parts[i + 3] == "all-clusters-in-pf9-tenant-namespace"
  }

  /** A "namespaces" that the loop reaches, at `i` or later. */
  ghost predicate IsTurn(parts: seq<string>, i: nat, j: nat) {
    i <= j < |parts| && parts[j] == "namespaces" && IsReached(parts, j)
  }

  ghost predicate PanicsAt(parts: seq<string>, i: nat, j: nat) {
    IsTurn(parts, i, j) && |parts| <= j + 2
  }

  ghost predicate SelectedAt(parts: seq<string>, i: nat, j: nat) {
    IsTurn(parts, i, j) && SelectsAt(parts, j)
  }

  ghost predicate ClearsAt(parts: seq<string>, i: nat, j: nat) {
    IsTurn(parts, i, j) && HasSentinelAt(parts, j)
  }

  lemma ReachedNext(parts: seq<string>, i: nat)
    requires i < |parts| && IsReached(parts, i)
    ensures IsReached(parts, i + 1) <==> parts[i] == "namespaces" ==> i + 2 < |parts| && !StopsAt(parts, i)
  {
    assert IsReached(parts, i + 1) && parts[i] == "namespaces" ==> i + 2 < |parts| && !StopsAt(parts, i);
  }

  lemma OnlyTurn(parts: seq<string>, i: nat, j: nat)
    requires IsTurn(parts, i, i) && IsTurn(parts, i, j) && (StopsAt(parts, i) || |parts| <= i + 2)
    ensures j == i
  {
  }

  ghost predicate ScansAs(parts: seq<string>, i: nat, selected: bool, scan: Scan) {
    && (scan.Panics? <==> exists j: nat :: PanicsAt(parts, i, j))
    && (scan.selected <==> selected || exists j: nat :: SelectedAt(parts, i, j))
    && (scan.Scanned? ==>
          && (forall j: nat | ClearsAt(parts, i, j) :: scan.parts == parts[j + 3 := ""])
          && ((forall j: nat :: !ClearsAt(parts, i, j)) ==> scan.parts == parts))
  }

  /** The loop over any segments, empty ones included: it indexes out of range exactly when it reaches a
      "namespaces" with fewer than two segments after it, selects exactly when it reaches one before a labelled kind
      that does not stop it, and clears exactly the sentinel of the one that does. */
  lemma ScanExactly(parts: seq<string>)
    ensures ScansAs(parts, 0, false, ScanFrom(parts, 0, false))
  {
    ScanExactlyFrom(parts, 0, false);
  }

  lemma {:induction false} ScanExactlyFrom(parts: seq<string>, i: nat, selected: bool)
    requires i <= |parts| && IsReached(parts, i)
    ensures ScansAs(parts, i, selected, ScanFrom(parts, i, selected))
    decreases |parts| - i
  {
    if i < |parts| {
      ReachedNext(parts, i);
      if parts[i] != "namespaces" {
        ScanExactlyFrom(parts, i + 1, selected);
        SkipsTurn(parts, i, i + 1, selected, ScanFrom(parts, i + 1, selected));
      } else {
        assert IsTurn(parts, i, i);
        if StopsAt(parts, i) || |parts| <= i + 2 {
          LastTurn(parts, i, selected);
        } else {
          var next := selected || parts[i + 2] in LABELLED_KINDS;
          LabelledExactly(parts[i + 2]);
          ScanExactlyFrom(parts, i + 1, next);
          TakesTurn(parts, i, i + 1, selected, ScanFrom(parts, i + 1, next));
        }
      }
    }
  }

  lemma LastTurn(parts: seq<string>, i: nat, selected: bool)
    requires IsTurn(parts, i, i) && (StopsAt(parts, i) || |parts| <= i + 2)
    ensures ScansAs(parts, i, selected, ScanFrom(parts, i, selected))
  {
    forall j: nat | IsTurn(parts, i, j) ensures j == i {
      OnlyTurn(parts, i, j);
    }
    assert PanicsAt(parts, i, i) <==> |parts| <= i + 2;
    assert ClearsAt(parts, i, i) <==> HasSentinelAt(parts, i);
    assert !SelectedAt(parts, i, i);
  }

  lemma SkipsTurn(parts: seq<string>, i: nat, next: nat, selected: bool, scan: Scan)
    requires next == i + 1 && i < |parts| && parts[i] != "namespaces" && ScansAs(parts, next, selected, scan)
    ensures ScansAs(parts, i, selected, scan)
  {
    assert forall j: nat :: PanicsAt(parts, i, j) <==> PanicsAt(parts, next, j);
    assert forall j: nat :: SelectedAt(parts, i, j) <==> SelectedAt(parts, next, j);
    assert forall j: nat :: ClearsAt(parts, i, j) <==> ClearsAt(parts, next, j);
  }

  lemma TakesTurn(parts: seq<string>, i: nat, next: nat, selected: bool, scan: Scan)
    requires next == i + 1 && i + 2 < |parts| && IsTurn(parts, i, i) && !StopsAt(parts, i)
    requires ScansAs(parts, next, selected || parts[i + 2] in LABELLED_KINDS, scan)
    ensures ScansAs(parts, i, selected, scan)
  {
    assert forall j: nat :: PanicsAt(parts, i, j) <==> PanicsAt(parts, next, j);
    assert forall j: nat | j != i :: SelectedAt(parts, i, j) <==> SelectedAt(parts, next, j);
    LabelledExactly(parts[i + 2]);
    assert SelectedAt(parts, i, i) <==> parts[i + 2] in LABELLED_KINDS;
    assert !SelectedAt(parts, next, i);
    assert forall j: nat :: ClearsAt(parts, i, j) <==> ClearsAt(parts, next, j);
  }

  /** The second stage on any path: what the loop reaches decides, and the query of a panic is already selecting when
      the loop has selected before. */
  lemma WithRegionExactly(path: string, query: Query)
    ensures var parts, r := Split(path, '/'), WithRegion(path, query);
            if |parts| < 2 then r == Panicked(query)
            else
              var scanned := parts[1 := ""];
              && (r.Panicked? <==> exists j: nat :: PanicsAt(scanned, 0, j))
              && r.query == Selecting(query, parts[1], exists j: nat :: SelectedAt(scanned, 0, j))
              && (r.Forwarded? ==>
                    && (forall j: nat | ClearsAt(scanned, 0, j) :: r.path == JoinedPath(scanned[j + 3 := ""]))
                    && ((forall j: nat :: !ClearsAt(scanned, 0, j)) ==> r.path == JoinedPath(scanned)))
  {
    var parts := Split(path, '/');
    if |parts| >= 2 {
      ScanExactly(parts[1 := ""]);
    }
  }

  ghost predicate AsksForLabel(parts: seq<string>) {
    exists j: nat :: SelectedAt(parts, 0, j)
  }

  /** Before and after, a query differs in "labelSelector" only, and there only when the path asks for it: when the
      loop reaches a "namespaces" that stands before a labelled kind and nothing else. */
  ghost predicate IsSelecting(path: string, before: Query, after: Query) {
    && (forall k | k != "labelSelector" :: (k in after <==> k in before) && (k in after ==> after[k] == before[k]))
    && var parts := Split(path, '/');
       if |parts| >= 2 && AsksForLabel(parts[1 := ""])
       then "labelSelector" in after && after["labelSelector"] == ["pcd-kaapi.pf9.io/region=" + parts[1]]
       else
         && ("labelSelector" in after <==> "labelSelector" in before)
         && ("labelSelector" in after ==> after["labelSelector"] == before["labelSelector"])
  }

  /** The query that the second stage leaves, panics included: no other parameter is touched. */
  lemma OnlyLabelSelectorChanges(path: string, query: Query)
    ensures IsSelecting(path, query, WithRegion(path, query).query)
  {
    WithRegionExactly(path, query);
  }

  lemma RewrittenAt(parts: seq<string>, table: map<string, string>, k: nat)
    requires k < |parts|
    ensures var r := Rewritten(parts, table)[k];
            r == parts[k] || r == "" || WrittenNamespace(parts, table) == Some(r)
  {
  }

  lemma RewrittenIsClean(path: string, table: map<string, string>)
    requires WritesClean(Split(path, '/'), table)
    ensures forall p | p in Rewritten(Split(path, '/'), table) :: IsClean(p)
  {
    SplitPartsAreSepFree(path, '/');
    var parts := Split(path, '/');
    forall k | 0 <= k < |parts| ensures IsClean(Rewritten(parts, table)[k]) {
      assert parts[k] in parts;
      SlashFreeIsClean(parts[k]);
      RewrittenAt(parts, table, k);
    }
  }

  lemma RewrittenIsSlashFree(path: string, table: map<string, string>)
    requires WritesSlashFree(Split(path, '/'), table)
    ensures forall p | p in Rewritten(Split(path, '/'), table) :: '/' !in p
  {
    SplitPartsAreSepFree(path, '/');
    var parts := Split(path, '/');
    forall k | 0 <= k < |parts| ensures '/' !in Rewritten(parts, table)[k] {
      assert parts[k] in parts;
      RewrittenAt(parts, table, k);
    }
  }

  /** The segments of the second stage after its loop, "" where the sentinel was. */
  function Cleaned(rest: seq<string>): seq<string> {
    var n := IndexOf(rest, "namespaces");
    if n + 3 < |rest| && rest[n + 2] == "clusters" && rest[n + 3] == ALL_CLUSTERS then rest[n + 3 := ""] else rest
  }

  lemma {:induction false} NonEmptyDrops(rest: seq<string>, m: nat)
    requires "" !in rest && m < |rest|
    ensures NonEmpty(rest[m := ""]) == rest[..m] + rest[m + 1..]
  {
    assert rest[0] in rest;
    if m == 0 {
      assert rest[0 := ""][1..] == rest[1..];
      NonEmptyKeepsAll(rest[1..]);
    } else {
      NonEmptyDrops(rest[1..], m - 1);
      assert rest[m := ""][1..] == rest[1..][m - 1 := ""];
    }
  }

  lemma NonEmptyAfterTwo(parts: seq<string>)
    ensures NonEmpty(["", ""] + parts) == NonEmpty(parts)
  {
    assert ["", ""] + parts == [""] + ([""] + parts);
    NonEmptyBehindEmpty([""] + parts);
    NonEmptyBehindEmpty(parts);
  }

  lemma CleanedSegments(rest: seq<string>)
    requires "" !in rest
    ensures NonEmpty(["", ""] + Cleaned(rest)) == WithoutSentinel(rest)
  {
    NonEmptyAfterTwo(Cleaned(rest));
    var n := IndexOf(rest, "namespaces");
    if n + 3 < |rest| {
      NonEmptyDrops(rest, n + 3);
    }
    NonEmptyKeepsAll(rest);
  }

  lemma SecondSplit(parts: seq<string>)
    requires forall p | p in parts :: IsClean(p)
    ensures var split, pieces := Split(JoinedPath(parts), '/'), Pieces(parts);
            && |split| >= 2 && split[1] == RegionOf(pieces)
            && split[1 := ""] == ["", ""] + AfterRegion(pieces)
  {
    CleanPieces(parts);
    BehindRegion(if NonEmpty(parts) == [] then [""] else Pieces(parts));
  }

  lemma PiecesAreSome(parts: seq<string>)
    ensures NonEmpty(parts) == [] <==> Pieces(parts) == []
  {
    PiecesOfNonEmpty(parts);
    if NonEmpty(parts) != [] {
      NonEmptyMembers(parts);
      assert NonEmpty(parts)[0] in NonEmpty(parts);
    }
  }

  lemma BehindRegion(segments: seq<string>)
    requires segments != []
    ensures ([""] + segments)[1 := ""] == ["", ""] + segments[1..]
  {
  }

  lemma AfterRegionMembers(pieces: seq<string>)
    requires "" !in pieces && forall p | p in pieces :: '/' !in p
    ensures forall p | p in AfterRegion(pieces) :: p != "" && '/' !in p
  {
    assert forall p | p in AfterRegion(pieces) :: p in pieces;
  }

  lemma CleanedPath(rest: seq<string>)
    requires forall p | p in rest :: p != "" && '/' !in p
    ensures JoinedPath(["", ""] + Cleaned(rest)) == "/" + Join(WithoutSentinel(rest), "/")
  {
    CleanedSegments(rest);
    forall p | p in ["", ""] + Cleaned(rest) ensures '/' !in p {
      if p != "" {
        assert p in rest;
      }
    }
    SplitSlashFreePath(["", ""] + Cleaned(rest));
  }

  /** The second stage on any parts without empty pieces. */
  lemma WithRegionInClosedForm(parts: seq<string>, query: Query)
    requires forall p | p in parts :: IsClean(p)
    ensures WithRegion(JoinedPath(parts), query) == Closed(Pieces(parts), query)
  {
    var rest := AfterRegion(Pieces(parts));
    PiecesMembers(parts);
    AfterRegionMembers(Pieces(parts));
    SecondSplit(parts);
    ScanOfNormalPath(rest);
    CleanedPath(rest);
  }

  /** The composed rewrite in one stage. The second split sees exactly the non-empty pieces of
      the first stage, so the whole is a function of the raw segments: it panics exactly when
      indexing is unsafe, drops tenant, region and sentinel, and sets labelSelector exactly for
      the labelled kinds. */
  lemma RoundTripInClosedForm(path: string, query: Query, table: map<string, string>)
    requires WritesClean(Split(path, '/'), table)
    ensures RoundTripped(path, query, table) == Closed(Pieces(Rewritten(Split(path, '/'), table)), query)
  {
    RewrittenIsClean(path, table);
    WithRegionInClosedForm(Rewritten(Split(path, '/'), table), query);
  }

  /** Without slashes in the namespace the pieces are the non-empty segments themselves. */
  lemma RoundTripOnSegments(path: string, query: Query, table: map<string, string>)
    requires WritesSlashFree(Split(path, '/'), table)
    ensures RoundTripped(path, query, table) == Closed(NonEmpty(Rewritten(Split(path, '/'), table)), query)
  {
    var parts := Split(path, '/');
    if WrittenNamespace(parts, table).Some? {
      SlashFreeIsClean(WrittenNamespace(parts, table).value);
    }
    RoundTripInClosedForm(path, query, table);
    RewrittenIsSlashFree(path, table);
    PiecesOfSlashFree(Rewritten(parts, table));
  }

  /** The namespace after the first "namespaces" replaced, the tenant still there. */
  function Substituted(parts: seq<string>, table: map<string, string>): (r: seq<string>)
    ensures |r| == |parts|
  {
    var n := IndexOf(parts, "namespaces");
    if n + 1 < |parts| && Tenant(parts) in table then parts[n + 1 := table[Tenant(parts)]] else parts
  }

  lemma {:induction false} NonEmptyWithoutFirst(parts: seq<string>, t: nat)
    requires t < |parts| && parts[t] != "" && forall k | 0 <= k < t :: parts[k] == ""
    ensures NonEmpty(parts) != [] && NonEmpty(parts)[0] == parts[t]
    ensures NonEmpty(parts[t := ""]) == NonEmpty(parts)[1..]
  {
    if t == 0 {
      assert parts[0 := ""][1..] == parts[1..];
    } else {
      NonEmptyWithoutFirst(parts[1..], t - 1);
      assert parts[t := ""][1..] == parts[1..][t - 1 := ""];
    }
  }

  /** The segments the first stage passes on: those of the path with its namespace replaced, without the first
      one, the tenant, unless that is "api". */
  lemma FirstStageDropsTheTenant(parts: seq<string>, table: map<string, string>)
    ensures NonEmpty(Substituted(parts, table))
            == (if Tenant(parts) == "" then [] else [Tenant(parts)]) + NonEmpty(Rewritten(parts, table))
  {
    var t, n, after := TenantAt(parts), IndexOf(parts, "namespaces"), Substituted(parts, table);
    if n < |parts| {
      TenantIsFirst(parts, parts, n);
    }
    if Tenant(parts) == "" {
      assert Rewritten(parts, table) == after;
    } else {
      assert Rewritten(parts, table) == after[t := ""];
      NonEmptyWithoutFirst(after, t);
    }
  }

  /** The first stage segment by segment: with the first non-empty segment at `t` and the first "namespaces" at `n`,
      the tenant's segment becomes empty, the one after "namespaces" becomes the namespace of a mapped tenant, and
      everything else stays. */
  lemma FirstStageExactly(parts: seq<string>, table: map<string, string>, t: nat, n: nat)
    requires t <= |parts| && (t < |parts| ==> parts[t] != "") && forall k | 0 <= k < t :: parts[k] == ""
    requires n <= |parts| && (n < |parts| ==> parts[n] == "namespaces")
    requires forall k | 0 <= k < n :: parts[k] != "namespaces"
    ensures var tenant := if t < |parts| && parts[t] != "api" then parts[t] else "";
            && |Rewritten(parts, table)| == |parts|
            && forall k | 0 <= k < |parts| ::
                 Rewritten(parts, table)[k]
                 == if k == n + 1 && tenant in table then table[tenant]
                    else if k == t && parts[t] != "api" then ""
                    else parts[k]
  {
    assert TenantAt(parts) == t && IndexOf(parts, "namespaces") == n;
  }

  lemma BehindOneSlash(first: string, rest: seq<string>)
    requires first != ""
    ensures NonEmpty(["", first] + rest) == [first] + NonEmpty(rest)
    ensures Tenant(["", first] + rest) == if first == "api" then "" else first
  {
    assert (["", first] + rest)[1..] == [first] + rest && ([first] + rest)[1..] == rest;
  }

  /** "apis" is not "api": without a tenant in front, a path of the core group keeps its prefix, and a path of
      any other group loses it. */
  lemma OnlyTheCoreGroupNeedsNoTenant(rest: seq<string>, table: map<string, string>)
    requires "" !in table && "apis" !in table
    ensures NonEmpty(Rewritten(["", "api"] + rest, table)) == ["api"] + NonEmpty(rest)
    ensures NonEmpty(Rewritten(["", "apis"] + rest, table)) == NonEmpty(rest)
  {
    var core, group := ["", "api"] + rest, ["", "apis"] + rest;
    FirstStageDropsTheTenant(core, table);
    FirstStageDropsTheTenant(group, table);
    BehindOneSlash("api", rest);
    BehindOneSlash("apis", rest);
    assert [] + NonEmpty(Rewritten(core, table)) == NonEmpty(Rewritten(core, table));
    assert (["apis"] + NonEmpty(Rewritten(group, table)))[1..] == NonEmpty(Rewritten(group, table));
    assert (["apis"] + NonEmpty(rest))[1..] == NonEmpty(rest);
  }

  /** A mapped tenant decides the namespace alone: what the client wrote in its place has no
      influence on what is forwarded. */
  lemma ClientNamespaceDoesNotMatter(parts: seq<string>, table: map<string, string>, other: string)
    requires IndexOf(parts, "namespaces") + 1 < |parts| && Tenant(parts) in table
    ensures Rewritten(parts[IndexOf(parts, "namespaces") + 1 := other], table) == Rewritten(parts, table)
  {
    var n := IndexOf(parts, "namespaces");
    var changed := parts[n + 1 := other];
    IndexIsFirst(parts, "namespaces", n);
    assert changed[..n] == parts[..n];
    IndexIsFirst(changed, "namespaces", n);
    TenantIsFirst(parts, changed, n);
  }

  lemma IndexIsFirst(parts: seq<string>, part: string, n: nat)
    requires n < |parts| && parts[n] == part && part !in parts[..n]
    ensures IndexOf(parts, part) == n
  {
    assert forall k | 0 <= k < n :: parts[..n][k] == parts[k];
  }

  /** The tenant is found no later than any non-empty segment. */
  lemma TenantIsFirst(a: seq<string>, b: seq<string>, n: nat)
    requires n < |a| && n < |b| && a[..n + 1] == b[..n + 1] && a[n] != ""
    ensures TenantAt(a) == TenantAt(b) <= n && Tenant(a) == Tenant(b)
  {
    assert forall k | 0 <= k <= n :: a[k] == a[..n + 1][k] && b[k] == b[..n + 1][k];
  }

  /** What follows the first "namespaces". */
  function Named(segments: seq<string>): Option<string> {
    var n := IndexOf(segments, "namespaces");
    if n + 1 < |segments| then Some(segments[n + 1]) else None
  }

  /** The first "namespaces" of the path is followed by this namespace. */
  predicate NamesNamespace(path: string, namespace: string) {
    var segments := Split(path, '/');
    var n := IndexOf(segments, "namespaces");
    n + 1 < |segments| && segments[n + 1] == namespace
  }

  function First(segments: seq<string>): Option<string> {
    if segments == [] then None else Some(segments[0])
  }

  lemma SentinelKeepsNamespace(rest: seq<string>)
    ensures var n := IndexOf(rest, "namespaces");
            && (n + 1 < |rest| ==> IndexOf(WithoutSentinel(rest), "namespaces") == n
                                   && n + 1 < |WithoutSentinel(rest)| && WithoutSentinel(rest)[n + 1] == rest[n + 1])
  {
    var n := IndexOf(rest, "namespaces");
    if n < |rest| {
      assert WithoutSentinel(rest)[..n] == rest[..n];
      IndexIsFirst(WithoutSentinel(rest), "namespaces", n);
    }
  }

  lemma NonEmptyAround(parts: seq<string>, n: nat)
    requires n < |parts| && parts[n] != ""
    ensures NonEmpty(parts) == NonEmpty(parts[..n]) + ([parts[n]] + NonEmpty(parts[n + 1..]))
  {
    assert parts == parts[..n] + ([parts[n]] + parts[n + 1..]);
    NonEmptyAppend(parts[..n], [parts[n]] + parts[n + 1..]);
    NonEmptyAppend([parts[n]], parts[n + 1..]);
    NonEmptyKeepsAll([parts[n]]);
  }

  /** Where the first "namespaces" of `parts` ends up once empty segments and the region are gone. */
  lemma NamespacesAfterRegion(parts: seq<string>, n: nat)
    requires n < |parts| && parts[n] == "namespaces" && "namespaces" !in parts[..n] && NonEmpty(parts[..n]) != []
    ensures var kept, rest := NonEmpty(parts[..n])[1..], AfterRegion(NonEmpty(parts));
            && rest == kept + (["namespaces"] + NonEmpty(parts[n + 1..]))
            && IndexOf(rest, "namespaces") == |kept|
  {
    NonEmptyAround(parts, n);
    NonEmptyMembers(parts[..n]);
    FirstAfterDrop(NonEmpty(parts[..n]), NonEmpty(parts[n + 1..]));
  }

  lemma FirstAfterDrop(before: seq<string>, after: seq<string>)
    requires before != [] && "namespaces" !in before
    ensures var all := before + (["namespaces"] + after);
            && all[1..] == before[1..] + (["namespaces"] + after)
            && IndexOf(all[1..], "namespaces") == |before| - 1
  {
    var rest := before[1..] + (["namespaces"] + after);
    assert rest[..|before| - 1] == before[1..];
    assert forall p | p in before[1..] :: p in before;
    IndexIsFirst(rest, "namespaces", |before| - 1);
  }

  /** The first stage leaves the first "namespaces" and a region before it where they are. */
  lemma FirstStageKeepsRegion(parts: seq<string>, table: map<string, string>, region: nat)
    requires TenantAt(parts) < region < IndexOf(parts, "namespaces") < |parts| && parts[region] != ""
    ensures var n, r := IndexOf(parts, "namespaces"), Rewritten(parts, table);
            r[n] == "namespaces" && "namespaces" !in r[..n] && NonEmpty(r[..n]) != []
  {
    var n := IndexOf(parts, "namespaces");
    var before := Rewritten(parts, table)[..n];
    NonEmptyMembers(before);
    assert before[region] == parts[region];
    assert parts[region] in NonEmpty(before);
    forall k | 0 <= k < n ensures before[k] != "namespaces" {
      assert parts[..n][k] == parts[k];
    }
  }

  /** The split of a forwarded path is its segments behind one empty one. */
  lemma SplitForwarded(segments: seq<string>)
    requires segments != [] && forall p | p in segments :: '/' !in p
    ensures Split("/" + Join(segments, "/"), '/') == [""] + segments
  {
    assert "" + ['/'] + Join(segments, "/") == "/" + Join(segments, "/");
    SplitCons("", Join(segments, "/"), '/');
    SplitJoin(segments, '/');
  }

  /** Segments before the first "namespaces" make no difference. */
  lemma NamedBehind(before: seq<string>, rest: seq<string>)
    requires "namespaces" !in before
    ensures Named(before + rest) == Named(rest)
  {
    var all, n := before + rest, IndexOf(rest, "namespaces");
    forall k | 0 <= k < |before| + n ensures all[k] != "namespaces" {
      assert k < |before| ==> all[k] in before;
      assert k >= |before| ==> all[k] == rest[k - |before|];
    }
    if n < |rest| {
      assert all[|before| + n] == rest[n];
      assert "namespaces" !in all[..|before| + n];
      IndexIsFirst(all, "namespaces", |before| + n);
    }
  }

  lemma NamedFirst(after: seq<string>)
    ensures Named(["namespaces"] + after) == First(after)
  {
    IndexIsFirst(["namespaces"] + after, "namespaces", 0);
  }

  lemma NamedWithoutSentinel(rest: seq<string>)
    ensures Named(WithoutSentinel(rest)) == Named(rest)
  {
    SentinelKeepsNamespace(rest);
  }

  /** What the path of the second stage names, as the API server splits it. */
  lemma NamedByPath(rest: seq<string>)
    requires forall p | p in rest :: '/' !in p
    ensures Named(Split("/" + Join(WithoutSentinel(rest), "/"), '/')) == Named(rest)
  {
    var kept := WithoutSentinel(rest);
    assert forall p | p in kept :: p in rest;
    NamedWithoutSentinel(rest);
    if kept == [] {
      assert Split("/" + Join(kept, "/"), '/') == ["", ""] by {
        assert "/" + "" == "/";
        SplitStep('/', "", '/');
      }
      NamedBehind(["", ""], []);
      assert ["", ""] + [] == ["", ""];
    } else {
      SplitForwarded(kept);
      NamedBehind([""], kept);
    }
  }

  lemma RestIsSlashFree(parts: seq<string>)
    requires forall p | p in parts :: '/' !in p
    ensures forall p | p in AfterRegion(NonEmpty(parts)) :: '/' !in p
  {
    NonEmptyMembers(parts);
    assert forall p | p in AfterRegion(NonEmpty(parts)) :: p in NonEmpty(parts);
  }

  lemma ClosedPath(segments: seq<string>, query: Query)
    requires Closed(segments, query).Forwarded?
    ensures Closed(segments, query).path == "/" + Join(WithoutSentinel(AfterRegion(segments)), "/")
  {
  }

  /** A forwarded request names what the rewritten segments name behind the region. */
  lemma NamedByForwarded(path: string, query: Query, table: map<string, string>)
    requires WritesSlashFree(Split(path, '/'), table) && RoundTripped(path, query, table).Forwarded?
    ensures Named(Split(RoundTripped(path, query, table).path, '/'))
            == Named(AfterRegion(NonEmpty(Rewritten(Split(path, '/'), table))))
  {
    var rewritten := Rewritten(Split(path, '/'), table);
    RoundTripOnSegments(path, query, table);
    RewrittenIsSlashFree(path, table);
    RestIsSlashFree(rewritten);
    ClosedPath(NonEmpty(rewritten), query);
    NamedByPath(AfterRegion(NonEmpty(rewritten)));
  }

  /** A region stands between the tenant and the first "namespaces". */
  predicate HasRegion(parts: seq<string>) {
    exists region | TenantAt(parts) < region < IndexOf(parts, "namespaces") :: parts[region] != ""
  }

  /** What follows the first "namespaces" when the namespace is written behind it. */
  function Following(parts: seq<string>, namespace: string): seq<string>
    requires IndexOf(parts, "namespaces") + 1 < |parts|
  {
    NonEmpty([namespace] + parts[IndexOf(parts, "namespaces") + 2..])
  }

  /** What a forwarded request of a mapped tenant names. Without a region, the second stage takes "namespaces"
      itself, or what follows it, for the region, and the client's later segments decide. */
  function NamedByRequest(parts: seq<string>, namespace: string): Option<string> {
    var n := IndexOf(parts, "namespaces");
    if n + 1 >= |parts| then None
    else
      var following := Following(parts, namespace);
      if HasRegion(parts) then First(following)
      else if TenantAt(parts) == n then Named(AfterRegion(following))
      else Named(following)
  }

  /** The rewritten segments from the first "namespaces" on. */
  lemma RewrittenAfter(parts: seq<string>, table: map<string, string>)
    requires Tenant(parts) in table && Tenant(parts) != "" && IndexOf(parts, "namespaces") + 1 < |parts|
    ensures var n, r := IndexOf(parts, "namespaces"), Rewritten(parts, table);
            && TenantAt(parts) <= n && r[n + 1..] == [table[Tenant(parts)]] + parts[n + 2..]
            && r[n] == (if TenantAt(parts) == n then "" else "namespaces")
  {
    TenantIsFirst(parts, parts, IndexOf(parts, "namespaces"));
  }

  lemma {:induction false} AllEmpty(parts: seq<string>)
    requires forall k | 0 <= k < |parts| :: parts[k] == ""
    ensures NonEmpty(parts) == []
  {
    if parts != [] {
      AllEmpty(parts[1..]);
    }
  }

  lemma NothingBefore(parts: seq<string>, table: map<string, string>)
    requires Tenant(parts) in table && Tenant(parts) != "" && IndexOf(parts, "namespaces") + 1 < |parts|
    requires !HasRegion(parts)
    ensures NonEmpty(Rewritten(parts, table)[..IndexOf(parts, "namespaces")]) == []
  {
    var n := IndexOf(parts, "namespaces");
    TenantIsFirst(parts, parts, n);
    var before := Rewritten(parts, table)[..n];
    forall k | 0 <= k < n ensures before[k] == "" {
    }
    AllEmpty(before);
  }

  /** With something in front, what follows the first "namespaces" is named. */
  lemma NamedAfterRegion(parts: seq<string>, n: nat)
    requires n < |parts| && parts[n] == "namespaces" && "namespaces" !in parts[..n] && NonEmpty(parts[..n]) != []
    ensures Named(AfterRegion(NonEmpty(parts))) == First(NonEmpty(parts[n + 1..]))
  {
    NonEmptyMembers(parts[..n]);
    NamespacesAfterRegion(parts, n);
    var kept := NonEmpty(parts[..n])[1..];
    assert forall p | p in kept :: p in NonEmpty(parts[..n]);
    NamedBehind(kept, ["namespaces"] + NonEmpty(parts[n + 1..]));
    NamedFirst(NonEmpty(parts[n + 1..]));
  }

  lemma RewrittenFollows(parts: seq<string>, table: map<string, string>)
    requires Tenant(parts) in table && Tenant(parts) != "" && IndexOf(parts, "namespaces") + 1 < |parts|
    ensures NonEmpty(Rewritten(parts, table)[IndexOf(parts, "namespaces") + 1..])
            == Following(parts, table[Tenant(parts)])
  {
    RewrittenAfter(parts, table);
  }

  lemma FirstStageKeepsSome(parts: seq<string>, table: map<string, string>)
    requires IndexOf(parts, "namespaces") < |parts| && HasRegion(parts)
    ensures var n, r := IndexOf(parts, "namespaces"), Rewritten(parts, table);
            r[n] == "namespaces" && "namespaces" !in r[..n] && NonEmpty(r[..n]) != []
  {
    var region :| TenantAt(parts) < region < IndexOf(parts, "namespaces") && parts[region] != "";
    FirstStageKeepsRegion(parts, table, region);
  }

  lemma NamedWithRegion(parts: seq<string>, table: map<string, string>)
    requires Tenant(parts) in table && Tenant(parts) != "" && IndexOf(parts, "namespaces") + 1 < |parts|
    requires HasRegion(parts)
    ensures Named(AfterRegion(NonEmpty(Rewritten(parts, table)))) == NamedByRequest(parts, table[Tenant(parts)])
  {
    FirstStageKeepsSome(parts, table);
    NamedAfterRegion(Rewritten(parts, table), IndexOf(parts, "namespaces"));
    RewrittenFollows(parts, table);
  }

  lemma RewrittenWithoutRegion(parts: seq<string>, table: map<string, string>)
    requires Tenant(parts) in table && Tenant(parts) != "" && IndexOf(parts, "namespaces") + 1 < |parts|
    requires !HasRegion(parts)
    ensures var following := Following(parts, table[Tenant(parts)]);
            NonEmpty(Rewritten(parts, table)) ==
              if TenantAt(parts) == IndexOf(parts, "namespaces") then following else ["namespaces"] + following
  {
    var n, r := IndexOf(parts, "namespaces"), Rewritten(parts, table);
    RewrittenAfter(parts, table);
    NothingBefore(parts, table);
    NothingInFront(r, n);
    assert [] + NonEmpty(r[n + 1..]) == NonEmpty(r[n + 1..]);
  }

  lemma NamedWithoutRegion(parts: seq<string>, table: map<string, string>)
    requires Tenant(parts) in table && Tenant(parts) != "" && IndexOf(parts, "namespaces") + 1 < |parts|
    requires !HasRegion(parts)
    ensures Named(AfterRegion(NonEmpty(Rewritten(parts, table)))) == NamedByRequest(parts, table[Tenant(parts)])
  {
    RewrittenWithoutRegion(parts, table);
    AfterFirst("namespaces", Following(parts, table[Tenant(parts)]));
  }

  lemma AfterFirst(first: string, rest: seq<string>)
    ensures AfterRegion([first] + rest) == rest
  {
  }

  lemma NothingInFront(parts: seq<string>, n: nat)
    requires n < |parts| && NonEmpty(parts[..n]) == []
    ensures NonEmpty(parts) == (if parts[n] == "" then [] else [parts[n]]) + NonEmpty(parts[n + 1..])
  {
    assert parts == parts[..n] + parts[n..];
    NonEmptyAppend(parts[..n], parts[n..]);
    assert parts[n..][1..] == parts[n + 1..];
  }

  /** Without anything behind the first "namespaces", no namespace is named. */
  lemma NamedWithoutFollowing(parts: seq<string>, table: map<string, string>)
    requires Tenant(parts) in table && Tenant(parts) != "" && IndexOf(parts, "namespaces") + 1 >= |parts|
    ensures Named(AfterRegion(NonEmpty(Rewritten(parts, table)))) == None
  {
    var n, r := IndexOf(parts, "namespaces"), Rewritten(parts, table);
    assert r == r[..n] + r[n..];
    forall p | p in r[..n] ensures p != "namespaces" {
      var k :| 0 <= k < n && r[k] == p;
      assert p == "" || p == parts[k];
    }
    NonEmptyAppend(r[..n], r[n..]);
    NonEmptyMembers(r[..n]);
    NonEmptyIsShorter(r[n..]);
    NamedOfShort(NonEmpty(r[..n]), NonEmpty(r[n..]));
  }

  lemma NamedOfShort(before: seq<string>, rest: seq<string>)
    requires "namespaces" !in before && |rest| <= 1
    ensures Named(AfterRegion(before + rest)) == None
  {
    if before == [] {
      assert before + rest == rest;
    } else {
      assert (before + rest)[1..] == before[1..] + rest;
      assert forall p | p in before[1..] :: p in before;
      NamedBehind(before[1..], rest);
    }
  }

  /** Exactly what a forwarded request of a mapped tenant names at the API server. */
  lemma TenantIsNamedExactly(path: string, query: Query, table: map<string, string>)
    requires var parts := Split(path, '/');
             && Tenant(parts) in table && Tenant(parts) != "" && '/' !in table[Tenant(parts)]
    requires RoundTripped(path, query, table).Forwarded?
    ensures var parts := Split(path, '/');
            Named(Split(RoundTripped(path, query, table).path, '/')) == NamedByRequest(parts, table[Tenant(parts)])
  {
    var parts := Split(path, '/');
    NamedByForwarded(path, query, table);
    if IndexOf(parts, "namespaces") + 1 >= |parts| {
      NamedWithoutFollowing(parts, table);
    } else if HasRegion(parts) {
      NamedWithRegion(parts, table);
    } else {
      NamedWithoutRegion(parts, table);
    }
  }

  lemma FollowingStarts(parts: seq<string>, namespace: string)
    requires IndexOf(parts, "namespaces") + 1 < |parts|
    ensures First(Following(parts, namespace)) == Some(namespace) <==> namespace != ""
  {
    var rest := parts[IndexOf(parts, "namespaces") + 2..];
    assert ([namespace] + rest)[1..] == rest;
    NonEmptyMembers(rest);
    if namespace == "" && NonEmpty(rest) != [] {
      assert NonEmpty(rest)[0] in NonEmpty(rest);
    }
  }

  /** When the path names the tenant's own namespace: with a region in front exactly when the mapping is not to the
      empty string, and without one exactly when the client's own later segments name it. */
  predicate IsConfined(parts: seq<string>, namespace: string) {
    if HasRegion(parts) then IndexOf(parts, "namespaces") + 1 < |parts| && namespace != ""
    else NamedByRequest(parts, namespace) == Some(namespace)
  }

  /** Confinement, exactly: a forwarded request of a mapped tenant names the tenant's own namespace, whatever
      namespace the client asked for, if and only if it is confined. */
  lemma MappedTenantIsConfined(path: string, query: Query, table: map<string, string>)
    requires var parts := Split(path, '/');
             && Tenant(parts) in table && Tenant(parts) != "" && '/' !in table[Tenant(parts)]
    requires RoundTripped(path, query, table).Forwarded?
    ensures var parts := Split(path, '/');
            NamesNamespace(RoundTripped(path, query, table).path, table[Tenant(parts)])
            <==> IsConfined(parts, table[Tenant(parts)])
  {
    var parts := Split(path, '/');
    TenantIsNamedExactly(path, query, table);
    NamesExactly(RoundTripped(path, query, table).path, table[Tenant(parts)]);
    ConfinedExactly(parts, table[Tenant(parts)]);
  }

  lemma NamesExactly(path: string, namespace: string)
    ensures NamesNamespace(path, namespace) <==> Named(Split(path, '/')) == Some(namespace)
  {
  }

  lemma ConfinedExactly(parts: seq<string>, namespace: string)
    ensures NamedByRequest(parts, namespace) == Some(namespace) <==> IsConfined(parts, namespace)
  {
    if IndexOf(parts, "namespaces") + 1 < |parts| {
      FollowingStarts(parts, namespace);
    }
  }

  /** A path in which nothing stands between the tenant and "namespaces". */
  function WithoutRegion(tenant: string, asked: string, tail: seq<string>): seq<string> {
    ["", tenant, "namespaces", asked] + tail
  }

  lemma WithoutRegionRewritten(tenant: string, asked: string, tail: seq<string>, table: map<string, string>)
    requires tenant !in {"", "api", "namespaces"} && tenant in table
    requires table[tenant] != "" && "" !in tail
    ensures var parts := WithoutRegion(tenant, asked, tail);
            && Tenant(parts) == tenant && IndexOf(parts, "namespaces") == 2
            && NonEmpty(Rewritten(parts, table)) == ["namespaces", table[tenant]] + tail
  {
    var parts := WithoutRegion(tenant, asked, tail);
    assert parts[0] == "" && parts[1] == tenant && parts[2] == "namespaces" && parts[3] == asked;
    assert parts[..2] == ["", tenant];
    IndexIsFirst(parts, "namespaces", 2);
    var kept := ["namespaces", table[tenant]] + tail;
    assert Rewritten(parts, table) == ["", ""] + kept;
    NonEmptyAfterTwo(kept);
    NonEmptyKeepsAll(kept);
  }

  /** Why IsConfined asks for a region: without one, what is forwarded names what the client's own tail names. */
  lemma WithoutRegionTheTailDecides(tenant: string, asked: string, tail: seq<string>, query: Query,
                                    table: map<string, string>)
    requires tenant !in {"", "api", "namespaces"} && tenant in table && '/' !in tenant && '/' !in asked
    requires table[tenant] != "" && '/' !in table[tenant]
    requires forall p | p in tail :: p != "" && '/' !in p
    ensures var path, rest := Join(WithoutRegion(tenant, asked, tail), "/"), [table[tenant]] + tail;
            var routed := RoundTripped(path, query, table);
            && (routed.Forwarded? <==> IndexingIsSafe(rest))
            && (routed.Forwarded? ==> Named(Split(routed.path, '/')) == Named(rest))
  {
    var parts := WithoutRegion(tenant, asked, tail);
    var path := Join(parts, "/");
    forall p | p in parts ensures '/' !in p {
      assert p in ["", tenant, "namespaces", asked] || p in tail;
    }
    SplitJoin(parts, '/');
    WithoutRegionRewritten(tenant, asked, tail, table);
    var rest := [table[tenant]] + tail;
    assert (["namespaces", table[tenant]] + tail)[1..] == rest;
    RoundTripOnSegments(path, query, table);
    if RoundTripped(path, query, table).Forwarded? {
      NamedByForwarded(path, query, table);
    }
  }

  lemma AnotherTail(namespace: string, other: string)
    requires namespace != "namespaces" && other != "namespaces"
    ensures var rest := [namespace] + ["api", "v1", "namespaces", other, "pods"];
            IndexingIsSafe(rest) && Named(rest) == Some(other)
  {
    var rest := [namespace] + ["api", "v1", "namespaces", other, "pods"];
    assert rest[3] == "namespaces" && rest[..3] == [namespace, "api", "v1"];
    IndexIsFirst(rest, "namespaces", 3);
    assert rest[4..] == [other, "pods"];
  }

  /** So such a request can name any other namespace. */
  lemma AnotherNamespaceIsNamed(tenant: string, asked: string, other: string, query: Query, table: map<string, string>)
    requires tenant !in {"", "api", "namespaces"} && tenant in table && '/' !in tenant && '/' !in asked
    requires table[tenant] !in {"", "namespaces"} && '/' !in table[tenant]
    requires other !in {"", "namespaces"} && '/' !in other
    ensures var tail := ["api", "v1", "namespaces", other, "pods"];
            var routed := RoundTripped(Join(WithoutRegion(tenant, asked, tail), "/"), query, table);
            routed.Forwarded? && NamesNamespace(routed.path, other)
  {
    var tail := ["api", "v1", "namespaces", other, "pods"];
    WithoutRegionTheTailDecides(tenant, asked, tail, query, table);
    AnotherTail(table[tenant], other);
    NamesExactly(RoundTripped(Join(WithoutRegion(tenant, asked, tail), "/"), query, table).path, other);
  }

  /** Listing namespaces, or naming one, runs the index past the end: whatever the tenant, the region
      and the API prefix, the request is never forwarded. */
  lemma NamespaceRequestsPanic(path: string, query: Query, table: map<string, string>, region: nat)
    requires var parts := Split(path, '/');
             && WritesSlashFree(parts, table)
             && TenantAt(parts) < region < IndexOf(parts, "namespaces") < |parts| && parts[region] != ""
             && |parts| <= IndexOf(parts, "namespaces") + 2
    ensures RoundTripped(path, query, table) == Panicked(query)
  {
    var parts := Split(path, '/');
    RoundTripOnSegments(path, query, table);
    FirstStageKeepsRegion(parts, table, region);
    NamespacesAfterRegion(Rewritten(parts, table), IndexOf(parts, "namespaces"));
    NonEmptyIsShorter(Rewritten(parts, table)[IndexOf(parts, "namespaces") + 1..]);
  }

  lemma {:induction false} NonEmptyIsShorter(parts: seq<string>)
    ensures |NonEmpty(parts)| <= |parts|
  {
    if parts != [] {
      NonEmptyIsShorter(parts[1..]);
    }
  }
}
