/** The flag value: a map of string lists, printed and parsed as one CSV record of key=value fields. */
module FlagValue {
  import opened Strings
  import opened Orders
  import opened Csv
  import opened Multimaps

  type Values = Multimap

  function Pairs(k: string, vs: seq<string>): (r: seq<string>)
    ensures |r| == |vs| && forall i | 0 <= i < |vs| :: r[i] == k + "=" + vs[i]
  {
    seq(|vs|, i requires 0 <= i < |vs| => k + "=" + vs[i])
  }

  /** The fields String writes when it visits the keys in this order, from the `n`-th key on. */
  function RecordsFrom(values: Values, order: seq<string>, n: nat): seq<string>
    requires n <= |order| && forall k | k in order :: k in values
    decreases |order| - n
  {
    if n == |order| then []
    else Pairs(order[n], values[order[n]]) + RecordsFrom(values, order, n + 1)
  }

  function Records(values: Values, order: seq<string>): seq<string>
    requires forall k | k in order :: k in values
  {
    RecordsFrom(values, order, 0)
  }

  /** The text between the brackets. */
  function Printed(records: seq<string>): string {
    TrimSpace(Written(records))
  }

  /** The pairs from the `i`-th on, or an error at the first that is not key=value. */
  function AddPairs(values: Values, pairs: seq<string>, i: nat): Csv.Result<Values>
    requires i <= |pairs|
    decreases |pairs| - i
  {
    if i == |pairs| then Ok(values)
    else
      var kv := Split(pairs[i], '=');
      if |kv| != 2 then Err(pairs[i] + " must be formatted as key=value")
      else AddPairs(Appended(values, kv[0], kv[1]), pairs, i + 1)
  }

  /** What Set makes of the values; an error leaves none. */
  function Parsed(values: Values, val: string): Csv.Result<Values> {
    if val == "" then Ok(values)
    else
      match Read(val)
      case Err(message) => Err(message)
      case Ok(pairs) => AddPairs(values, pairs, 0)
  }

  // ------------------------------------------------------------- the round trip

  predicate NoCrLf(s: string) {
    forall i | 0 <= i < |s| - 1 :: s[i] == '\r' ==> s[i + 1] != '\n'
  }

  /** A field whose end survives the trimming of the whole text. */
  predicate EndsClean(field: string) {
    field != "" && (NeedsQuotes(field) || !IsSpace(field[|field| - 1]))
  }

  ghost predicate AllNoCrLf(fields: seq<string>) {
    forall i | 0 <= i < |fields| :: NoCrLf(fields[i])
  }

  ghost predicate IsCleanKey(values: Values, k: string)
    requires k in values
  {
    NoCrLf(k) && AllNoCrLf(values[k])
  }

  ghost predicate HasNoCrLf(values: Values) {
    forall k | k in values :: IsCleanKey(values, k)
  }

  ghost predicate AreAllPairs(fields: seq<string>) {
    forall i | 0 <= i < |fields| :: '=' in fields[i]
  }

  predicate LastEndsClean(k: string, vs: seq<string>) {
    vs != [] ==> EndsClean(k + "=" + vs[|vs| - 1])
  }

  /** What the notation can carry when the keys are visited in this order: no empty list, no "=" and no "\r\n" in
      keys and values, and a last entry that does not end in white space outside quotes. */
  ghost predicate PrintableIn(values: Values, order: seq<string>)
    requires forall k | k in order :: k in values
  {
    && HasPairShape(values) && HasNoCrLf(values)
    && (order != [] ==> LastEndsClean(order[|order| - 1], values[order[|order| - 1]]))
  }

  /** What it can carry in any order. */
  ghost predicate Printable(values: Values) {
    && HasPairShape(values) && HasNoCrLf(values)
    && forall k | k in values :: LastEndsClean(k, values[k])
  }

  /** No empty list, and "=" in no key and no value. */
  ghost predicate HasPairShape(values: Values) {
    forall k | k in values :: Splittable(k, values[k])
  }

  // ------------------------------------------------------------- what printing and reading make of fields

  /** The text is trimmed as a whole, which cuts the last field when it is not in quotes. */
  function CutField(field: string): string {
    if NeedsQuotes(field) then field else TrimRight(field)
  }

  function CutLast(fields: seq<string>): (r: seq<string>)
    ensures |r| == |fields|
  {
    if fields == [] then [] else fields[|fields| - 1 := CutField(fields[|fields| - 1])]
  }

  lemma {:induction false} TrimRightAppend(p: string, w: string)
    requires TrimRight(w) != ""
    ensures TrimRight(p + w) == p + TrimRight(w)
    decreases |w|
  {
    if IsSpace(w[|w| - 1]) {
      assert (p + w)[..|p + w| - 1] == p + w[..|w| - 1];
      TrimRightAppend(p, w[..|w| - 1]);
    }
  }

  lemma {:induction false} TrimRightKeeps(s: string, c: char)
    requires c in s && !IsSpace(c)
    ensures c in TrimRight(s) && TrimRight(s)[0] == s[0]
    decreases |s|
  {
    if IsSpace(s[|s| - 1]) {
      assert s == s[..|s| - 1] + [s[|s| - 1]];
      TrimRightKeeps(s[..|s| - 1], c);
    }
  }

  lemma TrimmedField(field: string)
    requires '=' in field
    ensures TrimRight(WrittenField(field)) == WrittenField(CutField(field)) != ""
  {
    if !NeedsQuotes(field) {
      TrimRightKeeps(field, '=');
      TrimRightProperties(field);
      var cut := TrimRight(field);
      assert forall c | c in cut :: c in field;
      assert !NeedsQuotes(cut);
    }
  }

  lemma {:induction false} TrimmedFields(fields: seq<string>)
    requires fields != [] && '=' in fields[|fields| - 1]
    ensures TrimRight(WrittenFields(fields)) == WrittenFields(CutLast(fields)) != ""
    decreases |fields|
  {
    if |fields| == 1 {
      TrimmedField(fields[0]);
    } else {
      TrimmedFields(fields[1..]);
      TrimRightAppend(WrittenField(fields[0]) + ",", WrittenFields(fields[1..]));
      assert CutLast(fields)[1..] == CutLast(fields[1..]);
    }
  }

  lemma PrintedIsWritten(fields: seq<string>)
    requires fields != [] && fields[0] != "" && '=' in fields[|fields| - 1]
    ensures Printed(fields) == WrittenFields(CutLast(fields))
  {
    var s := WrittenFields(fields);
    WrittenStarts(fields);
    TrimmedFields(fields);
    assert TrimLeft(s + "\n") == s + "\n";
    assert (s + "\n")[..|s + "\n"| - 1] == s;
  }

  /** What comes back of fields that were printed. */
  function Back(fields: seq<string>): (r: seq<string>)
    ensures |r| == |fields|
  {
    Unbrokens(CutLast(fields))
  }

  lemma CutIsWritten(fields: seq<string>)
    requires fields != [] && AreAllPairs(fields)
    ensures CutLast(fields) != [] && CutLast(fields)[0] != "" && WrittenFields(CutLast(fields)) != ""
  {
    CutFieldShrinks(fields[0]);
    assert CutLast(fields)[0] != "";
    WrittenIsNotEmpty(CutLast(fields));
  }

  lemma PrintedReadsBack(fields: seq<string>)
    requires fields != [] && AreAllPairs(fields)
    ensures Printed(fields) != "" && Read(Printed(fields)) == Ok(Back(fields))
  {
    PrintedIsWritten(fields);
    CutIsWritten(fields);
    WrittenReadsBack(CutLast(fields));
  }

  lemma {:induction false} UnbrokenShrinks(field: string)
    ensures |Unbroken(field)| <= |field|
    ensures if NoCrLf(field) then Unbroken(field) == field else |Unbroken(field)| < |field|
    decreases |field|
  {
    if |field| > 1 && field[0] == '\r' && field[1] == '\n' {
      UnbrokenShrinks(field[2..]);
    } else if field != "" {
      UnbrokenShrinks(field[1..]);
      NoCrLfTail(field);
      assert [field[0]] + field[1..] == field;
    }
  }

  lemma NoCrLfTail(field: string)
    requires field != "" && !(|field| > 1 && field[0] == '\r' && field[1] == '\n')
    ensures NoCrLf(field) <==> NoCrLf(field[1..])
  {
    var tail := field[1..];
    if !NoCrLf(field) {
      var i :| 0 <= i < |field| - 1 && field[i] == '\r' && field[i + 1] == '\n';
      assert tail[i - 1] == '\r' && tail[i - 1 + 1] == '\n';
    }
    if !NoCrLf(tail) {
      var i :| 0 <= i < |tail| - 1 && tail[i] == '\r' && tail[i + 1] == '\n';
      assert field[i + 1] == '\r' && field[i + 1 + 1] == '\n';
    }
  }

  lemma CutFieldShrinks(field: string)
    requires '=' in field
    ensures |CutField(field)| <= |field| && CutField(field) != ""
    ensures if EndsClean(field) then CutField(field) == field else |CutField(field)| < |field|
    ensures NoCrLf(field) ==> NoCrLf(CutField(field))
  {
    TrimRightKeeps(field, '=');
    TrimRightProperties(field);
    if !EndsClean(field) {
      TrimRightProperties(field[..|field| - 1]);
    }
  }

  ghost predicate Survives(fields: seq<string>, i: nat)
    requires i < |fields|
  {
    NoCrLf(fields[i]) && (i == |fields| - 1 ==> EndsClean(fields[i]))
  }

  /** Coming back, a field is either the same or shorter. */
  lemma BackShrinks(fields: seq<string>, i: nat)
    requires i < |fields| && '=' in fields[i]
    ensures |Back(fields)[i]| <= |fields[i]|
    ensures if Survives(fields, i) then Back(fields)[i] == fields[i] else |Back(fields)[i]| < |fields[i]|
  {
    CutFieldShrinks(fields[i]);
    UnbrokenShrinks(fields[i]);
    UnbrokenShrinks(CutField(fields[i]));
  }

  function Total(fields: seq<string>): nat {
    if fields == [] then 0 else |fields[0]| + Total(fields[1..])
  }

  lemma {:induction false} TotalAppend(a: seq<string>, b: seq<string>)
    ensures Total(a + b) == Total(a) + Total(b)
  {
    if a == [] {
      assert a + b == b;
    } else {
      assert (a + b)[1..] == a[1..] + b;
      TotalAppend(a[1..], b);
    }
  }

  lemma {:induction false} SameElementsSameTotal(a: seq<string>, b: seq<string>)
    requires multiset(a) == multiset(b)
    ensures Total(a) == Total(b)
    decreases |a|
  {
    if a == [] {
      assert |multiset(b)| == |b|;
    } else {
      assert a[0] in multiset(b);
      var j :| 0 <= j < |b| && b[j] == a[0];
      var before, after := b[..j], b[j + 1..];
      assert b == before + ([a[0]] + after);
      WithoutFirst(a, before, after);
      SameElementsSameTotal(a[1..], before + after);
      TotalAppend(before, [a[0]] + after);
      TotalAppend(before, after);
      assert ([a[0]] + after)[1..] == after;
    }
  }

  lemma WithoutFirst(a: seq<string>, before: seq<string>, after: seq<string>)
    requires a != [] && multiset(a) == multiset(before + ([a[0]] + after))
    ensures multiset(a[1..]) == multiset(before + after)
  {
    assert a == [a[0]] + a[1..];
    assert multiset(a) == multiset{a[0]} + multiset(a[1..]);
    assert multiset(before + ([a[0]] + after)) == multiset(before) + (multiset{a[0]} + multiset(after));
    assert multiset(a[1..]) == multiset(a) - multiset{a[0]};
    assert multiset(before + after) == multiset(before) + multiset(after);
  }

  lemma {:induction false} SameTotalSameLengths(a: seq<string>, b: seq<string>)
    requires |a| == |b| && forall i | 0 <= i < |a| :: |a[i]| <= |b[i]|
    ensures Total(a) <= Total(b)
    ensures Total(a) == Total(b) ==> forall i | 0 <= i < |a| :: |a[i]| == |b[i]|
  {
    if a != [] {
      assert forall i | 0 <= i < |a| - 1 :: a[1..][i] == a[i + 1] && b[1..][i] == b[i + 1];
      SameTotalSameLengths(a[1..], b[1..]);
      assert forall i | 0 < i < |a| :: a[i] == a[1..][i - 1] && b[i] == b[1..][i - 1];
    }
  }

  // ------------------------------------------------------------- what parsing makes of pairs

  lemma SplitPair(k: string, v: string)
    requires '=' !in k && '=' !in v
    ensures Split(k + "=" + v, '=') == [k, v]
  {
    SplitCons(k, v, '=');
    SplitAtom(v, '=');
    assert k + ['='] + v == k + "=" + v;
  }

  lemma AddOnePair(values: Values, pairs: seq<string>, i: nat, k: string, v: string)
    requires i < |pairs| && pairs[i] == k + "=" + v && '=' !in k && '=' !in v
    ensures AddPairs(values, pairs, i) == AddPairs(Appended(values, k, v), pairs, i + 1)
  {
    SplitPair(k, v);
  }

  /** The map after the first `j` entries of key `k` have been added. */
  function WithFirst(before: Values, k: string, vs: seq<string>, j: nat): Values
    requires j <= |vs|
  {
    if j == 0 then before else before[k := vs[..j]]
  }

  lemma NextOfKey(before: Values, k: string, vs: seq<string>, j: nat)
    requires j < |vs| && k !in before
    ensures Appended(WithFirst(before, k, vs, j), k, vs[j]) == WithFirst(before, k, vs, j + 1)
  {
    assert vs[..j + 1] == vs[..j] + [vs[j]];
  }

  /** The pairs of k stand in `pairs` from `i` on. */
  predicate StandsAt(pairs: seq<string>, i: nat, k: string, vs: seq<string>) {
    i + |vs| <= |pairs| && pairs[i..i + |vs|] == Pairs(k, vs)
  }

  lemma PairAt(pairs: seq<string>, i: nat, k: string, vs: seq<string>, j: nat)
    requires StandsAt(pairs, i, k, vs) && j < |vs|
    ensures pairs[i + j] == k + "=" + vs[j]
  {
    assert pairs[i..i + |vs|][j] == Pairs(k, vs)[j];
  }

  lemma {:induction false} PairsAreAdded(k: string, vs: seq<string>, before: Values, pairs: seq<string>, i: nat, j: nat)
    requires j <= |vs| && k !in before && Splittable(k, vs) && StandsAt(pairs, i, k, vs)
    ensures AddPairs(WithFirst(before, k, vs, j), pairs, i + j)
            == AddPairs(WithFirst(before, k, vs, |vs|), pairs, i + |vs|)
    decreases |vs| - j
  {
    if j < |vs| {
      PairAt(pairs, i, k, vs, j);
      AddOnePair(WithFirst(before, k, vs, j), pairs, i + j, k, vs[j]);
      NextOfKey(before, k, vs, j);
      PairsAreAdded(k, vs, before, pairs, i, j + 1);
    }
  }

  ghost predicate Splittable(k: string, vs: seq<string>) {
    vs != [] && '=' !in k && forall i | 0 <= i < |vs| :: '=' !in vs[i]
  }

  lemma KeyIsAdded(k: string, vs: seq<string>, before: Values, pairs: seq<string>, i: nat, tail: seq<string>)
    requires Splittable(k, vs) && k !in before && i <= |pairs| && pairs[i..] == Pairs(k, vs) + tail
    ensures i + |vs| <= |pairs| && pairs[i + |vs|..] == tail
    ensures AddPairs(before, pairs, i) == AddPairs(before[k := vs], pairs, i + |vs|)
  {
    assert pairs[i..i + |vs|] == pairs[i..][..|vs|];
    assert pairs[i + |vs|..] == pairs[i..][|vs|..];
    PairsAreAdded(k, vs, before, pairs, i, 0);
    assert vs[..|vs|] == vs;
  }

  /** The map built up key by key, from the `n`-th key on. */
  function Rebuilt(values: Values, order: seq<string>, n: nat, before: Values): Values
    requires n <= |order| && forall k | k in order :: k in values
    decreases |order| - n
  {
    if n == |order| then before else Rebuilt(values, order, n + 1, before[order[n] := values[order[n]]])
  }

  /** The keys from the `n`-th on are not there yet, and different from each other. */
  ghost predicate AreNewFrom(order: seq<string>, n: nat, before: Values) {
    && (forall j | n <= j < |order| :: order[j] !in before)
    && (forall x, y | n <= x < y < |order| :: order[x] != order[y])
  }

  lemma NextIsNew(order: seq<string>, n: nat, before: Values, vs: seq<string>)
    requires n < |order| && AreNewFrom(order, n, before)
    ensures order[n] !in before && AreNewFrom(order, n + 1, before[order[n] := vs])
  {
  }

  lemma {:induction false} RecordsAreAdded(values: Values, order: seq<string>, n: nat, before: Values,
                                           pairs: seq<string>, i: nat)
    requires n <= |order| && forall k | k in order :: k in values
    requires HasPairShape(values) && AreNewFrom(order, n, before)
    requires i <= |pairs| && pairs[i..] == RecordsFrom(values, order, n)
    ensures AddPairs(before, pairs, i) == Ok(Rebuilt(values, order, n, before))
    decreases |order| - n
  {
    if n < |order| {
      var k := order[n];
      assert k in order && Splittable(k, values[k]);
      NextIsNew(order, n, before, values[k]);
      KeyIsAdded(k, values[k], before, pairs, i, RecordsFrom(values, order, n + 1));
      RecordsAreAdded(values, order, n + 1, before[k := values[k]], pairs, i + |values[k]|);
    }
  }

  lemma {:induction false} RebuiltIsWhole(values: Values, order: seq<string>, n: nat, before: Values)
    requires n <= |order| && forall k | k in order :: k in values
    requires forall k | k in before :: k in values && before[k] == values[k]
    requires forall k | k in values :: k in before || k in order[n..]
    ensures Rebuilt(values, order, n, before) == values
    decreases |order| - n
  {
    if n < |order| {
      assert order[n..] == [order[n]] + order[n + 1..];
      RebuiltIsWhole(values, order, n + 1, before[order[n] := values[order[n]]]);
    }
  }

  /** The pair of k and v breaks a line only where k or v does. */
  lemma PairBreaks(k: string, v: string, i: nat)
    requires var s := k + "=" + v; i < |s| - 1 && s[i] == '\r' && s[i + 1] == '\n'
    ensures !NoCrLf(k) || !NoCrLf(v)
  {
    if i > |k| {
      var j := i - |k| - 1;
      assert v[j] == '\r' && v[j + 1] == '\n';
    } else {
      assert k[i] == '\r' && k[i + 1] == '\n';
    }
  }

  lemma PairHasNoCrLf(k: string, v: string)
    ensures NoCrLf(k + "=" + v) <==> NoCrLf(k) && NoCrLf(v)
  {
    var s := k + "=" + v;
    if !NoCrLf(s) {
      var i :| 0 <= i < |s| - 1 && s[i] == '\r' && s[i + 1] == '\n';
      PairBreaks(k, v, i);
    } else {
      forall i | 0 <= i < |k| - 1 && k[i] == '\r' ensures k[i + 1] != '\n' {
        assert s[i] == k[i] && s[i + 1] == k[i + 1];
      }
      forall i | 0 <= i < |v| - 1 && v[i] == '\r' ensures v[i + 1] != '\n' {
        var j := |k| + 1 + i;
        assert s[j] == v[i] && s[j + 1] == v[i + 1];
      }
    }
  }

  lemma PairsHaveNoCrLf(k: string, vs: seq<string>)
    requires vs != []
    ensures AreAllPairs(Pairs(k, vs))
    ensures AllNoCrLf(Pairs(k, vs)) <==> NoCrLf(k) && AllNoCrLf(vs)
  {
    var pairs := Pairs(k, vs);
    forall i | 0 <= i < |vs| ensures NoCrLf(pairs[i]) <==> NoCrLf(k) && NoCrLf(vs[i]) {
      PairHasNoCrLf(k, vs[i]);
    }
    assert NoCrLf(pairs[0]) ==> NoCrLf(k);
  }

  lemma AppendedFields(a: seq<string>, b: seq<string>)
    ensures AllNoCrLf(a + b) <==> AllNoCrLf(a) && AllNoCrLf(b)
    ensures AreAllPairs(a) && AreAllPairs(b) ==> AreAllPairs(a + b)
  {
    if AllNoCrLf(a + b) {
      forall i | 0 <= i < |a| ensures NoCrLf(a[i]) {
        assert (a + b)[i] == a[i];
      }
      forall i | 0 <= i < |b| ensures NoCrLf(b[i]) {
        assert (a + b)[|a| + i] == b[i];
      }
    }
  }

  ghost predicate AreCleanFrom(values: Values, order: seq<string>, n: nat)
    requires forall k | k in order :: k in values
  {
    forall j | n <= j < |order| :: IsCleanKey(values, order[j])
  }

  lemma {:induction false} RecordsHaveNoCrLf(values: Values, order: seq<string>, n: nat)
    requires n <= |order| && (forall k | k in order :: k in values) && HasPairShape(values)
    ensures AreAllPairs(RecordsFrom(values, order, n))
    ensures AllNoCrLf(RecordsFrom(values, order, n)) <==> AreCleanFrom(values, order, n)
    decreases |order| - n
  {
    if n < |order| {
      var k := order[n];
      RecordsHaveNoCrLf(values, order, n + 1);
      assert k in order && Splittable(k, values[k]);
      PairsHaveNoCrLf(k, values[k]);
      AppendedFields(Pairs(k, values[k]), RecordsFrom(values, order, n + 1));
      assert IsCleanKey(values, order[n]) <==> NoCrLf(k) && AllNoCrLf(values[k]);
    }
  }

  lemma CleanInOrder(values: Values, order: seq<string>)
    requires IsOrder(order, values.Keys)
    ensures AreCleanFrom(values, order, 0) <==> HasNoCrLf(values)
  {
    assert forall j | 0 <= j < |order| :: order[j] in order;
    if AreCleanFrom(values, order, 0) {
      forall k | k in values ensures IsCleanKey(values, k) {
        assert k in order;
        var j :| 0 <= j < |order| && order[j] == k;
        assert IsCleanKey(values, order[j]);
      }
    }
  }

  lemma {:induction false} LastRecord(values: Values, order: seq<string>, n: nat)
    requires n < |order| && forall k | k in order :: k in values
    requires HasPairShape(values)
    ensures var records, k := RecordsFrom(values, order, n), order[|order| - 1];
            records != [] && records[|records| - 1] == k + "=" + values[k][|values[k]| - 1]
    decreases |order| - n
  {
    assert order[n] in order;
    if n + 1 < |order| {
      LastRecord(values, order, n + 1);
    }
  }

  /** The records come back as they were exactly when the map is printable in this order. */
  lemma RecordsComeBackExactly(values: Values, order: seq<string>)
    requires HasPairShape(values) && IsOrder(order, values.Keys) && order != []
    ensures var records := Records(values, order);
            && records != [] && AreAllPairs(records)
            && (PrintableIn(values, order) ==> Back(records) == records)
            && (Total(Back(records)) == Total(records) ==> PrintableIn(values, order))
  {
    RecordsHaveNoCrLf(values, order, 0);
    CleanInOrder(values, order);
    LastRecord(values, order, 0);
    LastIsSplittable(values, order);
    ComesBackExactly(Records(values, order));
  }

  lemma LastIsSplittable(values: Values, order: seq<string>)
    requires HasPairShape(values) && IsOrder(order, values.Keys) && order != []
    ensures Splittable(order[|order| - 1], values[order[|order| - 1]])
  {
    assert order[|order| - 1] in order;
  }

  lemma ComeBack(records: seq<string>)
    requires AreAllPairs(records) && forall i | 0 <= i < |records| :: Survives(records, i)
    ensures Back(records) == records
  {
    forall i | 0 <= i < |records| ensures Back(records)[i] == records[i] {
      BackShrinks(records, i);
    }
  }

  lemma NothingLost(records: seq<string>)
    requires AreAllPairs(records) && Total(Back(records)) == Total(records)
    ensures forall i | 0 <= i < |records| :: Survives(records, i)
  {
    var back := Back(records);
    forall i | 0 <= i < |records| ensures |back[i]| <= |records[i]| {
      BackShrinks(records, i);
    }
    SameTotalSameLengths(back, records);
    forall i | 0 <= i < |records| ensures Survives(records, i) {
      BackShrinks(records, i);
    }
  }

  lemma SurviveExactly(records: seq<string>)
    requires records != []
    ensures (forall i | 0 <= i < |records| :: Survives(records, i)) <==>
            AllNoCrLf(records) && EndsClean(records[|records| - 1])
  {
    if forall i | 0 <= i < |records| :: Survives(records, i) {
      assert Survives(records, |records| - 1);
      forall i | 0 <= i < |records| ensures NoCrLf(records[i]) {
        assert Survives(records, i);
      }
    }
  }

  lemma ComesBackExactly(records: seq<string>)
    requires records != [] && AreAllPairs(records)
    ensures AllNoCrLf(records) && EndsClean(records[|records| - 1]) ==> Back(records) == records
    ensures Total(Back(records)) == Total(records) ==> AllNoCrLf(records) && EndsClean(records[|records| - 1])
  {
    SurviveExactly(records);
    if AllNoCrLf(records) && EndsClean(records[|records| - 1]) {
      ComeBack(records);
    }
    if Total(Back(records)) == Total(records) {
      NothingLost(records);
    }
  }

  /** The parsed map determines how often each pair occurs. */
  lemma {:induction false} PairCounts(values: Values, pairs: seq<string>, i: nat, k: string, v: string)
    requires i <= |pairs| && AddPairs(values, pairs, i).Ok? && '=' !in k && '=' !in v
    ensures multiset(ValuesOf(AddPairs(values, pairs, i).value, k))[v]
            == multiset(ValuesOf(values, k))[v] + multiset(pairs[i..])[k + "=" + v]
    decreases |pairs| - i
  {
    if i < |pairs| {
      var kv := Split(pairs[i], '=');
      PairCounts(Appended(values, kv[0], kv[1]), pairs, i + 1, k, v);
      CountOfAppended(values, kv[0], kv[1], k, v);
      OnePair(pairs[i], k, v);
      CountOfTail(pairs, i, k + "=" + v);
    }
  }

  lemma CountOfAppended(values: Values, k0: string, v0: string, k: string, v: string)
    ensures multiset(ValuesOf(Appended(values, k0, v0), k))[v]
            == multiset(ValuesOf(values, k))[v] + if [k0, v0] == [k, v] then 1 else 0
  {
  }

  lemma CountOfTail(pairs: seq<string>, i: nat, pair: string)
    requires i < |pairs|
    ensures multiset(pairs[i..])[pair] == multiset(pairs[i + 1..])[pair] + if pairs[i] == pair then 1 else 0
  {
    assert pairs[i..] == [pairs[i]] + pairs[i + 1..];
  }

  /** A text is the pair of k and v exactly when it splits into them. */
  lemma OnePair(pair: string, k: string, v: string)
    requires '=' !in k && '=' !in v
    ensures pair == k + "=" + v <==> Split(pair, '=') == [k, v]
  {
    SplitPair(k, v);
    JoinSplit(pair, '=');
    assert Split(pair, '=') == [k, v] ==> Join([k, v], ['=']) == k + "=" + v by {
      assert [k, v][1..] == [v];
    }
  }

  lemma {:induction false} PairsSplit(values: Values, pairs: seq<string>, i: nat, pair: string)
    requires i <= |pairs| && AddPairs(values, pairs, i).Ok? && pair in pairs[i..]
    ensures |Split(pair, '=')| == 2
    decreases |pairs| - i
  {
    if pair != pairs[i] {
      var kv := Split(pairs[i], '=');
      assert pairs[i..] == [pairs[i]] + pairs[i + 1..];
      PairsSplit(Appended(values, kv[0], kv[1]), pairs, i + 1, pair);
    }
  }

  lemma CountInParsed(pairs: seq<string>, values: Values, pair: string)
    requires AddPairs(map[], pairs, 0) == Ok(values)
    ensures var kv := Split(pair, '=');
            multiset(pairs)[pair] == if |kv| == 2 then multiset(ValuesOf(values, kv[0]))[kv[1]] else 0
  {
    var kv := Split(pair, '=');
    assert pairs[0..] == pairs;
    if |kv| == 2 {
      SplitPartsAreSepFree(pair, '=');
      assert kv[0] in kv && kv[1] in kv && kv == [kv[0], kv[1]];
      OnePair(pair, kv[0], kv[1]);
      PairCounts(map[], pairs, 0, kv[0], kv[1]);
    } else if pair in pairs {
      PairsSplit(map[], pairs, 0, pair);
    }
  }

  lemma SameMapSamePairs(a: seq<string>, b: seq<string>)
    requires AddPairs(map[], a, 0).Ok? && AddPairs(map[], a, 0) == AddPairs(map[], b, 0)
    ensures multiset(a) == multiset(b)
  {
    var values := AddPairs(map[], a, 0).value;
    forall pair ensures multiset(a)[pair] == multiset(b)[pair] {
      CountInParsed(a, values, pair);
      CountInParsed(b, values, pair);
    }
  }

  /** Printing and parsing, exactly: Set on the text between the brackets, from no values at all, gives back the
      whole map if and only if the map is printable in the order that String has chosen. */
  lemma PrintThenParseExactly(values: Values, order: seq<string>)
    requires IsOrder(order, values.Keys)
    ensures Parsed(map[], Printed(Records(values, order))) == Ok(values) <==> PrintableIn(values, order)
  {
    var text := Printed(Records(values, order));
    if Parsed(map[], text) == Ok(values) {
      ParsedMapsHavePairShape(text, values);
    }
    if HasPairShape(values) {
      if order == [] {
        NothingPrints(values, order);
      } else {
        SomethingPrints(values, order);
      }
    }
  }

  lemma NothingPrints(values: Values, order: seq<string>)
    requires IsOrder(order, values.Keys) && order == []
    ensures values == map[] && Parsed(map[], Printed(Records(values, order))) == Ok(values)
  {
    OrderLength(order, values.Keys);
    assert Written([]) == "\n" && TrimLeft("\n") == "" by { assert "\n"[1..] == ""; }
  }

  lemma SomethingPrints(values: Values, order: seq<string>)
    requires IsOrder(order, values.Keys) && order != [] && HasPairShape(values)
    ensures Parsed(map[], Printed(Records(values, order))) == Ok(values) <==> PrintableIn(values, order)
  {
    var records := Records(values, order);
    RecordsComeBackExactly(values, order);
    PrintedReadsBack(records);
    AllRecordsAreAdded(values, order);
    if AddPairs(map[], Back(records), 0) == Ok(values) {
      SameMapSamePairs(Back(records), records);
      SameElementsSameTotal(Back(records), records);
    }
  }

  /** For every order at once: the map survives whatever order String chooses if and only if it is printable. */
  lemma PrintThenParse(values: Values)
    ensures Printable(values) <==>
            forall order | IsOrder(order, values.Keys) :: Parsed(map[], Printed(Records(values, order))) == Ok(values)
  {
    forall order | IsOrder(order, values.Keys)
      ensures Parsed(map[], Printed(Records(values, order))) == Ok(values) <==> PrintableIn(values, order)
    {
      PrintThenParseExactly(values, order);
    }
    if Printable(values) {
      forall order | IsOrder(order, values.Keys) ensures PrintableIn(values, order) {
        assert order != [] ==> order[|order| - 1] in order;
      }
    } else if k :| k in values && !LastEndsClean(k, values[k]) {
      var order := OrderEndingIn(values.Keys, k);
      assert !PrintableIn(values, order);
    } else {
      var order := SomeOrder(values.Keys);
      assert !PrintableIn(values, order);
    }
  }

  lemma OrderEndingIn(keys: set<string>, k: string) returns (order: seq<string>)
    requires k in keys
    ensures IsOrder(order, keys) && order != [] && order[|order| - 1] == k
  {
    var rest := SomeOrder(keys - {k});
    order := rest + [k];
  }

  lemma AllRecordsAreAdded(values: Values, order: seq<string>)
    requires HasPairShape(values) && IsOrder(order, values.Keys)
    ensures AddPairs(map[], Records(values, order), 0) == Ok(values)
  {
    var records := Records(values, order);
    assert records[0..] == records && order[0..] == order;
    RecordsAreAdded(values, order, 0, map[], records, 0);
    RebuiltIsWhole(values, order, 0, map[]);
  }

  lemma AppendedKeepsShape(values: Values, pair: string)
    requires HasPairShape(values) && |Split(pair, '=')| == 2
    ensures HasPairShape(Appended(values, Split(pair, '=')[0], Split(pair, '=')[1]))
  {
    var kv := Split(pair, '=');
    SplitPartsAreSepFree(pair, '=');
    assert kv[0] in kv && kv[1] in kv;
    var after := Appended(values, kv[0], kv[1]);
    forall k | k in after ensures Splittable(k, after[k]) {
      assert k != kv[0] ==> after[k] == values[k];
    }
  }

  lemma {:induction false} AddPairsKeepsShape(values: Values, pairs: seq<string>, i: nat)
    requires i <= |pairs| && HasPairShape(values)
    ensures AddPairs(values, pairs, i).Ok? ==> HasPairShape(AddPairs(values, pairs, i).value)
    decreases |pairs| - i
  {
    if i < |pairs| {
      var kv := Split(pairs[i], '=');
      if |kv| == 2 {
        AppendedKeepsShape(values, pairs[i]);
        AddPairsKeepsShape(Appended(values, kv[0], kv[1]), pairs, i + 1);
      }
    }
  }

  /** No text whatever parses to a map with an empty list, or with "=" in a key or a value. */
  lemma ParsedMapsHavePairShape(val: string, values: Values)
    requires Parsed(map[], val) == Ok(values)
    ensures HasPairShape(values)
  {
    match Read(val) {
      case Ok(pairs) =>
        AddPairsKeepsShape(map[], pairs, 0);
      case Err(_) =>
    }
  }

  // ------------------------------------------------------------- exactly what is printed, refused and added

  /** Nothing in the field calls for quotes. */
  predicate IsPlain(field: string) {
    && field != "" && field != "\\." && !IsSpace(field[0])
    && forall c | c in field :: c != ',' && c != '\"' && c != '\n' && c != '\r'
  }

  lemma {:induction false} PlainIsJoined(fields: seq<string>)
    requires forall i | 0 <= i < |fields| :: IsPlain(fields[i])
    ensures WrittenFields(fields) == Join(fields, ",")
  {
    if fields != [] {
      assert IsPlain(fields[0]) && forall i | 0 <= i < |fields[1..]| :: fields[1..][i] == fields[i + 1];
      PlainIsJoined(fields[1..]);
    }
  }

  /** Plain pairs are printed as they are, with commas between them. */
  lemma PlainPairsArePrinted(fields: seq<string>)
    requires fields != [] && AreAllPairs(fields) && forall i | 0 <= i < |fields| :: IsPlain(fields[i])
    requires var last := fields[|fields| - 1]; !IsSpace(last[|last| - 1])
    ensures Printed(fields) == Join(fields, ",")
  {
    PrintedIsWritten(fields);
    CutFieldShrinks(fields[|fields| - 1]);
    assert CutLast(fields) == fields;
    PlainIsJoined(fields);
  }

  /** The values that pairs give a key, in order. */
  function ValuesUnder(pairs: seq<string>, i: nat, k: string): seq<string>
    requires i <= |pairs|
    decreases |pairs| - i
  {
    if i == |pairs| then []
    else
      var kv := Split(pairs[i], '=');
      (if |kv| == 2 && kv[0] == k then [kv[1]] else []) + ValuesUnder(pairs, i + 1, k)
  }

  /** Pairs are added behind what the map holds, key by key in their order, if and only if each of them has a key and
      a value. */
  lemma {:induction false} PairsAreAddedExactly(values: Values, pairs: seq<string>, i: nat, k: string)
    requires i <= |pairs|
    ensures AddPairs(values, pairs, i).Ok? <==> forall j | i <= j < |pairs| :: |Split(pairs[j], '=')| == 2
    ensures AddPairs(values, pairs, i).Ok? ==>
              var after := AddPairs(values, pairs, i).value;
              && ValuesOf(after, k) == ValuesOf(values, k) + ValuesUnder(pairs, i, k)
              && (k in after <==> k in values || ValuesUnder(pairs, i, k) != [])
    decreases |pairs| - i
  {
    if i < |pairs| {
      var kv := Split(pairs[i], '=');
      if |kv| == 2 {
        PairsAreAddedExactly(Appended(values, kv[0], kv[1]), pairs, i + 1, k);
        OneMoreValue(values, kv[0], kv[1], k, ValuesUnder(pairs, i + 1, k));
      }
    }
  }

  /** The error is that of the first field without a key and a value. */
  lemma {:induction false} FirstBadPair(values: Values, pairs: seq<string>, i: nat) returns (j: nat)
    requires i <= |pairs| && AddPairs(values, pairs, i).Err?
    ensures i <= j < |pairs| && |Split(pairs[j], '=')| != 2
    ensures forall n | i <= n < j :: |Split(pairs[n], '=')| == 2
    ensures AddPairs(values, pairs, i) == Err(pairs[j] + " must be formatted as key=value")
    decreases |pairs| - i
  {
    var kv := Split(pairs[i], '=');
    if |kv| != 2 {
      j := i;
    } else {
      j := FirstBadPair(Appended(values, kv[0], kv[1]), pairs, i + 1);
    }
  }

  lemma OneMoreValue(values: Values, key: string, v: string, k: string, more: seq<string>)
    ensures ValuesOf(Appended(values, key, v), k) + more
            == ValuesOf(values, k) + ((if key == k then [v] else []) + more)
  {
    assert ValuesOf(values, k) + [v] + more == ValuesOf(values, k) + ([v] + more);
    assert [] + more == more;
  }

  /** A text that Set accepts: one record of the grammar, once line ends are normalised and empty lines skipped, in
      which each field has exactly one "=". */
  ghost predicate IsAccepted(val: string, pairs: seq<string>) {
    && SkipEmptyLines(Normalised(val)) != ""
    && IsRecord(SkipEmptyLines(Normalised(val)), pairs)
    && forall i | 0 <= i < |pairs| :: IsPair(pairs[i])
  }

  ghost predicate IsPair(pair: string) {
    exists k, v :: IsPairOf(pair, k, v)
  }

  ghost predicate IsPairOf(pair: string, k: string, v: string) {
    '=' !in k && '=' !in v && pair == k + "=" + v
  }

  lemma IsPairExactly(pair: string)
    ensures IsPair(pair) <==> |Split(pair, '=')| == 2
  {
    var kv := Split(pair, '=');
    if |kv| == 2 {
      SplitPartsAreSepFree(pair, '=');
      assert kv[0] in kv && kv[1] in kv && kv == [kv[0], kv[1]];
      OnePair(pair, kv[0], kv[1]);
      assert IsPairOf(pair, kv[0], kv[1]);
    }
    if IsPair(pair) {
      var k, v :| IsPairOf(pair, k, v);
      SplitPair(k, v);
    }
  }

  /** Set accepts the empty text, which changes nothing, and exactly the texts of the grammar; what it adds is what
      they denote. */
  lemma SetAcceptsExactly(values: Values, val: string, k: string)
    ensures Parsed(values, "") == Ok(values)
    ensures Parsed(values, val).Ok? <==> val == "" || exists pairs :: IsAccepted(val, pairs)
    ensures forall pairs | val != "" && IsAccepted(val, pairs) ::
              && Parsed(values, val) == AddPairs(values, pairs, 0)
              && ValuesOf(Parsed(values, val).value, k) == ValuesOf(values, k) + ValuesUnder(pairs, 0, k)
  {
    var text := SkipEmptyLines(Normalised(val));
    forall pairs | val != "" && IsAccepted(val, pairs)
      ensures Parsed(values, val) == AddPairs(values, pairs, 0) && Parsed(values, val).Ok?
      ensures ValuesOf(Parsed(values, val).value, k) == ValuesOf(values, k) + ValuesUnder(pairs, 0, k)
    {
      AcceptedIsAdded(values, val, pairs, k);
    }
    if val != "" && Parsed(values, val).Ok? {
      var pairs := Read(val).value;
      ReadsExactly(text, pairs);
      PairsAreAddedExactly(values, pairs, 0, k);
      forall i | 0 <= i < |pairs| ensures IsPair(pairs[i]) {
        IsPairExactly(pairs[i]);
      }
      assert IsAccepted(val, pairs);
    }
  }

  lemma AcceptedIsAdded(values: Values, val: string, pairs: seq<string>, k: string)
    requires val != "" && IsAccepted(val, pairs)
    ensures Parsed(values, val).Ok? && Parsed(values, val) == AddPairs(values, pairs, 0)
    ensures ValuesOf(Parsed(values, val).value, k) == ValuesOf(values, k) + ValuesUnder(pairs, 0, k)
  {
    ReadsExactly(SkipEmptyLines(Normalised(val)), pairs);
    forall i | 0 <= i < |pairs| ensures |Split(pairs[i], '=')| == 2 {
      IsPairExactly(pairs[i]);
    }
    PairsAreAddedExactly(values, pairs, 0, k);
  }

  lemma NextRecords(values: Values, order: seq<string>, i: nat, before: seq<string>)
    requires i < |order| && forall k | k in order :: k in values
    ensures before + RecordsFrom(values, order, i)
            == (before + Pairs(order[i], values[order[i]])) + RecordsFrom(values, order, i + 1)
  {
    var pairs, rest := Pairs(order[i], values[order[i]]), RecordsFrom(values, order, i + 1);
    assert before + (pairs + rest) == (before + pairs) + rest;
  }

  // ------------------------------------------------------------- the flag object

  /** A Go variable of map type; None is the nil map. */
  class MapVariable {
    var contents: Option<Values>

    constructor (contents: Option<Values>)
      ensures this.contents == contents
    {
      this.contents := contents;
    }
  }

  class StringToStringSliceValue {
    var values: MapVariable?

    constructor (values: MapVariable?)
      ensures this.values == values
    {
      this.values := values;
    }

    ghost function Current(): Values
      reads this, values
    {
      if values == null || values.contents == None then map[] else values.contents.value
    }

    /** Appends the pairs of one record; any error empties the map, whatever it held. */
    method Set(val: string) returns (error: Option<string>)
      modifies this, values
      ensures values != null && (old(values) != null ==> values == old(values)) && values.contents.Some?
      ensures match Parsed(old(Current()), val)
              case Ok(after) => error == None && Current() == after
              case Err(message) => error == Some(message) && Current() == map[]
    {
      if values == null {
        values := new MapVariable(Some(map[]));
      }
      if values.contents == None {
        values.contents := Some(map[]);
      }
      if |val| == 0 {
        return None;
      }
      ghost var before := Current();
      match Read(val) {
        case Err(message) =>
          values.contents := Some(map[]);
          error := Some(message);
        case Ok(ss) =>
          for i := 0 to |ss|
            invariant values != null && (old(values) != null ==> values == old(values)) && values.contents.Some?
            invariant old(values) == null ==> fresh(values)
            invariant AddPairs(before, ss, 0) == AddPairs(Current(), ss, i)
          {
            var kv := Split(ss[i], '=');
            if |kv| != 2 {
              values.contents := Some(map[]);
              return Some(ss[i] + " must be formatted as key=value");
            }
            var m := values.contents.value;
            values.contents := Some(m[kv[0] := (if kv[0] in m then m[kv[0]] else []) + [kv[1]]]);
          }
          error := None;
      }
    }

    /** The text with its brackets, for the order in which Go visits the keys. */
    method String(order: seq<string>) returns (text: string)
      requires values != null && IsOrder(order, Current().Keys)
      ensures text == "[" + Printed(Records(Current(), order)) + "]"
    {
      var m := if values.contents == None then map[] else values.contents.value;
      var records: seq<string> := [];
      for i := 0 to |order|
        invariant records + RecordsFrom(m, order, i) == Records(m, order)
      {
        var k := order[i];
        assert k in order;
        ghost var before := records;
        for j := 0 to |m[k]|
          invariant records == before + Pairs(k, m[k])[..j]
        {
          assert Pairs(k, m[k])[..j + 1] == Pairs(k, m[k])[..j] + [k + "=" + m[k][j]];
          records := records + [k + "=" + m[k][j]];
        }
        assert Pairs(k, m[k])[..|m[k]|] == Pairs(k, m[k]);
        NextRecords(m, order, i, before);
      }
      assert records + [] == records;
      text := "[" + TrimSpace(Written(records)) + "]";
    }
  }
}
