/** Go maps from strings to slices of strings: user extras, flag values and HTTP headers. */
module Multimaps {

  type Multimap = map<string, seq<string>>

  function ValuesOf(m: Multimap, k: string): seq<string> {
    if k in m then m[k] else []
  }

  /** append(m[k], v) on a map of slices: a missing key counts as an empty slice. */
  function Appended(m: Multimap, k: string, v: string): Multimap {
    m[k := ValuesOf(m, k) + [v]]
  }

  /** All of `vs` appended; nothing happens to a key that gets no value. */
  function AppendedAll(m: Multimap, k: string, vs: seq<string>): Multimap {
    if vs == [] then m else m[k := ValuesOf(m, k) + vs]
  }

  lemma AppendedAllSnoc(m: Multimap, k: string, vs: seq<string>, v: string)
    ensures Appended(AppendedAll(m, k, vs), k, v) == AppendedAll(m, k, vs + [v])
  {
    var own := ValuesOf(m, k);
    assert own + vs + [v] == own + (vs + [v]);
    assert own + [v] == own + ([] + [v]);
  }

  lemma AppendedAllNext(m: Multimap, k: string, vs: seq<string>, i: nat)
    requires i < |vs|
    ensures Appended(AppendedAll(m, k, vs[..i]), k, vs[i]) == AppendedAll(m, k, vs[..i + 1])
  {
    AppendedAllSnoc(m, k, vs[..i], vs[i]);
    assert vs[..i + 1] == vs[..i] + [vs[i]];
  }
}
