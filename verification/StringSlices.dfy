/** The test helper that compares string slices up to order by sorting copies. */
module StringSlices {

  /** Go's order on strings, character by character; a proper prefix comes first. */
  predicate AtMost(a: string, b: string) {
    a == "" || (b != "" && (a[0] < b[0] || (a[0] == b[0] && AtMost(a[1..], b[1..]))))
  }

  /** The first difference decides. */
  ghost predicate DiffersAt(a: string, b: string, i: nat) {
    i < |a| && i < |b| && a[..i] == b[..i] && a[i] < b[i]
  }

  lemma {:induction false} AtMostExactly(a: string, b: string)
    ensures AtMost(a, b) <==> a <= b || exists i: nat :: DiffersAt(a, b, i)
  {
    if a != "" && b != "" && a[0] == b[0] {
      AtMostExactly(a[1..], b[1..]);
      assert a == [a[0]] + a[1..] && b == [b[0]] + b[1..];
      if i: nat :| DiffersAt(a[1..], b[1..], i) {
        assert a[..i + 1] == [a[0]] + a[1..][..i] && b[..i + 1] == [b[0]] + b[1..][..i];
        assert DiffersAt(a, b, i + 1);
      }
      if i: nat :| DiffersAt(a, b, i) {
        assert a[1..][..i - 1] == a[..i][1..] && b[1..][..i - 1] == b[..i][1..];
        assert DiffersAt(a[1..], b[1..], i - 1);
      }
    } else if a != "" && b != "" {
      assert a[0] < b[0] ==> DiffersAt(a, b, 0);
      forall i: nat | DiffersAt(a, b, i) ensures i > 0 ==> a[0] == b[0] {
        StartAlike(a, b, i);
      }
    }
  }

  lemma StartAlike(a: string, b: string, i: nat)
    requires DiffersAt(a, b, i)
    ensures i > 0 ==> a[0] == b[0]
  {
    if i > 0 {
      assert a[..i][0] == b[..i][0];
    }
  }

  lemma {:induction false} AtMostIsTotal(a: string, b: string)
    ensures AtMost(a, b) || AtMost(b, a)
    ensures AtMost(a, b) && AtMost(b, a) ==> a == b
  {
    if a != "" && b != "" && a[0] == b[0] {
      AtMostIsTotal(a[1..], b[1..]);
      assert a == [a[0]] + a[1..] && b == [b[0]] + b[1..];
    }
  }

  lemma {:induction false} AtMostIsTransitive(a: string, b: string, c: string)
    requires AtMost(a, b) && AtMost(b, c)
    ensures AtMost(a, c)
  {
    if a != "" && a[0] == b[0] && b[0] == c[0] {
      AtMostIsTransitive(a[1..], b[1..], c[1..]);
    }
  }

  predicate Sorted(s: seq<string>) {
    forall i, j | 0 <= i < j < |s| :: AtMost(s[i], s[j])
  }

  /** sort.Strings: any in-place algorithm with this contract; here, insertion from the left. */
  method SortStrings(a: array<string>)
    modifies a
    ensures Sorted(a[..]) && multiset(a[..]) == multiset(old(a[..]))
  {
    for n := 0 to a.Length
      invariant Sorted(a[..n])
      invariant multiset(a[..]) == multiset(old(a[..]))
    {
      Insert(a, n);
    }
    assert a[..a.Length] == a[..];
  }

  method Insert(a: array<string>, n: nat)
    requires n < a.Length && Sorted(a[..n])
    modifies a
    ensures Sorted(a[..n + 1]) && multiset(a[..]) == multiset(old(a[..]))
  {
    var i := n;
    while i > 0 && !AtMost(a[i - 1], a[i])
      invariant 0 <= i <= n
      invariant SortedBut(a[..n + 1], i)
      invariant multiset(a[..]) == multiset(old(a[..]))
    {
      SwapKeepsSortedBut(a[..n + 1], i);
      Swap(a, i, n + 1);
      i := i - 1;
    }
    SortedButOne(a[..n + 1], i);
  }

  function Swapped(s: seq<string>, i: nat): seq<string>
    requires 0 < i < |s|
  {
    s[i - 1 := s[i]][i := s[i - 1]]
  }

  method Swap(a: array<string>, i: nat, n: nat)
    requires 0 < i < n <= a.Length
    modifies a
    ensures a[..n] == Swapped(old(a[..n]), i) && multiset(a[..]) == multiset(old(a[..]))
  {
    a[i - 1], a[i] := a[i], a[i - 1];
  }

  lemma SwapKeepsSortedBut(s: seq<string>, i: nat)
    requires 0 < i < |s| && SortedBut(s, i) && !AtMost(s[i - 1], s[i])
    ensures SortedBut(Swapped(s, i), i - 1)
  {
    AtMostIsTotal(s[i - 1], s[i]);
  }

  /** Sorted, except that the element at `i` may be too small for its place. */
  predicate SortedBut(s: seq<string>, i: int) {
    && (forall j, k | 0 <= j < k < |s| && j != i && k != i :: AtMost(s[j], s[k]))
    && (forall k | 0 <= i < k < |s| :: AtMost(s[i], s[k]))
  }

  lemma SortedButOne(s: seq<string>, i: nat)
    requires i < |s| && SortedBut(s, i) && (i > 0 ==> AtMost(s[i - 1], s[i]))
    ensures Sorted(s)
  {
    forall j | 0 <= j < i ensures AtMost(s[j], s[i]) {
      if j < i - 1 {
        AtMostIsTransitive(s[j], s[i - 1], s[i]);
      }
    }
  }

  /** Two sorted slices with the same elements are the same. */
  lemma {:induction false} SortedIsUnique(s: seq<string>, t: seq<string>)
    requires Sorted(s) && Sorted(t) && multiset(s) == multiset(t)
    ensures s == t
    decreases |s|
  {
    SameLength(s, t);
    if s != [] {
      SameFirst(s, t);
      RestAsMultiset(s);
      RestAsMultiset(t);
      SortedIsUnique(s[1..], t[1..]);
      assert s == [s[0]] + s[1..] && t == [t[0]] + t[1..];
    }
  }

  lemma SameLength(s: seq<string>, t: seq<string>)
    requires multiset(s) == multiset(t)
    ensures |s| == |t|
  {
    assert |multiset(s)| == |s| && |multiset(t)| == |t|;
  }

  lemma SameFirst(s: seq<string>, t: seq<string>)
    requires s != [] && t != [] && Sorted(s) && Sorted(t) && multiset(s) == multiset(t)
    ensures s[0] == t[0]
  {
    FirstIsLeast(s, t);
    FirstIsLeast(t, s);
    AtMostIsTotal(s[0], t[0]);
  }

  lemma RestAsMultiset(s: seq<string>)
    requires s != []
    ensures multiset(s[1..]) == multiset(s) - multiset{s[0]}
  {
    assert s == [s[0]] + s[1..];
  }

  lemma SortedCopiesDecide(s1: seq<string>, s2: seq<string>, sorted1: seq<string>, sorted2: seq<string>)
    requires Sorted(sorted1) && multiset(sorted1) == multiset(s1)
    requires Sorted(sorted2) && multiset(sorted2) == multiset(s2)
    ensures sorted1 == sorted2 <==> multiset(s1) == multiset(s2)
  {
    if multiset(s1) == multiset(s2) {
      SortedIsUnique(sorted1, sorted2);
    }
  }

  lemma FirstIsLeast(s: seq<string>, t: seq<string>)
    requires s != [] && t != [] && Sorted(s) && multiset(s) == multiset(t)
    ensures AtMost(s[0], t[0])
  {
    assert t[0] in multiset(t);
    var i :| 0 <= i < |s| && s[i] == t[0];
    AtMostIsTotal(s[0], s[0]);
  }

  method CopyOf(s: array<string>) returns (copy: array<string>)
    ensures fresh(copy) && copy[..] == s[..]
  {
    copy := new string[s.Length](i requires 0 <= i < s.Length reads s => s[i]);
  }

  /** True exactly when the slices have the same elements, each as often; only the copies are sorted. */
  method StringSlicesEqual(s1: array<string>, s2: array<string>) returns (equal: bool)
    ensures equal <==> multiset(s1[..]) == multiset(s2[..])
    ensures s1[..] == old(s1[..]) && s2[..] == old(s2[..])
  {
    if s1.Length != s2.Length {
      assert |multiset(s1[..])| == s1.Length && |multiset(s2[..])| == s2.Length;
      return false;
    }
    var s12 := CopyOf(s1);
    var s22 := CopyOf(s2);
    SortStrings(s12);
    SortStrings(s22);
    ghost var sorted1, sorted2 := s12[..], s22[..];
    SortedCopiesDecide(s1[..], s2[..], sorted1, sorted2);
    assert |multiset(sorted1)| == |sorted1| && |multiset(sorted2)| == |sorted2|;
    for i := 0 to s12.Length
      invariant forall j | 0 <= j < i :: sorted1[j] == sorted2[j]
    {
      if s12[i] != s22[i] {
        assert sorted1[i] != sorted2[i];
        return false;
      }
    }
    equal := true;
  }
}
