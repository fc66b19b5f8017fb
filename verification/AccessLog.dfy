/** The X-Forwarded-For part of the access log. */
module AccessLog {
  import opened Strings
  import opened Headers

  function TrimmedParts(parts: seq<string>): (r: seq<string>)
    ensures |r| == |parts| && forall i | 0 <= i < |parts| :: r[i] == TrimSpace(parts[i])
  {
    seq(|parts|, i requires 0 <= i < |parts| => TrimSpace(parts[i]))
  }

  function Without(parts: seq<string>, addr: string): seq<string> {
    if parts == [] then []
    else (if parts[0] == addr then [] else [parts[0]]) + Without(parts[1..], addr)
  }

  /** The addresses of the header, trimmed, in order, without the remote one. */
  function Filtered(value: string, addr: string): string {
    Join(Without(TrimmedParts(Split(value, ',')), addr), ", ")
  }

  /** The accumulator of the loop: every part followed by a comma and a space. */
  function Accumulated(parts: seq<string>): string {
    if parts == [] then "" else parts[0] + ", " + Accumulated(parts[1..])
  }

  lemma {:induction false} AccumulatedSnoc(parts: seq<string>, p: string)
    ensures Accumulated(parts + [p]) == Accumulated(parts) + p + ", "
  {
    if parts == [] {
      assert [p][1..] == [] && [] + [p] == [p];
      assert Accumulated([p]) == p + ", " + Accumulated([]);
    } else {
      assert (parts + [p])[1..] == parts[1..] + [p];
      AccumulatedSnoc(parts[1..], p);
      assert (parts + [p])[0] == parts[0];
    }
  }

  /** Cutting two characters off the accumulator leaves the joined parts. */
  lemma {:induction false} AccumulatedIsJoin(parts: seq<string>)
    requires parts != []
    ensures Accumulated(parts) == Join(parts, ", ") + ", "
  {
    if |parts| == 1 {
      assert parts[1..] == [];
      assert Accumulated(parts[1..]) == "";
    } else {
      AccumulatedIsJoin(parts[1..]);
    }
  }

  lemma {:induction false} WithoutAppend(a: seq<string>, b: seq<string>, addr: string)
    ensures Without(a + b, addr) == Without(a, addr) + Without(b, addr)
  {
    if a == [] {
      assert a + b == b;
    } else {
      assert (a + b)[1..] == a[1..] + b;
      WithoutAppend(a[1..], b, addr);
    }
  }

  lemma {:induction false} WithoutMembers(parts: seq<string>, addr: string)
    ensures forall p :: p in Without(parts, addr) <==> p in parts && p != addr
  {
    if parts != [] {
      WithoutMembers(parts[1..], addr);
      assert parts == [parts[0]] + parts[1..];
    }
  }

  lemma {:induction false} WithoutNothing(parts: seq<string>, addr: string)
    requires addr !in parts
    ensures Without(parts, addr) == parts
  {
    if parts != [] {
      assert parts[0] in parts && forall p | p in parts[1..] :: p in parts;
      WithoutNothing(parts[1..], addr);
    }
  }

  lemma WithoutSnoc(parts: seq<string>, p: string, addr: string)
    ensures Without(parts + [p], addr) == Without(parts, addr) + if p == addr then [] else [p]
  {
    WithoutAppend(parts, [p], addr);
    assert [p][1..] == [] && Without([p], addr) == (if p == addr then [] else [p]) + Without([], addr);
  }

  /** What is logged for a header value. */
  function Logged(value: string, addr: string): string {
    if value == "" then "" else Filtered(value, addr)
  }

  /** findXForwardedFor. The slice that cuts the last ", " off is always in range. */
  method FindXForwardedFor(headers: Header, remoteAddr: string) returns (xFwdFor: string)
    ensures xFwdFor == Logged(Get(headers, "x-forwarded-for"), remoteAddr)
  {
    xFwdFor := Get(headers, "x-forwarded-for");
    if xFwdFor != "" {
      xFwdFor := CleanOff(xFwdFor, remoteAddr);
    }
  }

  /** The loop of findXForwardedFor. */
  method CleanOff(value: string, remoteAddr: string) returns (newXFwdFor: string)
    ensures newXFwdFor == Filtered(value, remoteAddr)
  {
    var oneFound := false;
    newXFwdFor := "";
    var ips := Split(value, ',');
    ghost var trimmed := TrimmedParts(ips);
    ghost var kept: seq<string> := [];
    for i := 0 to |ips|
      invariant kept == Without(trimmed[..i], remoteAddr)
      invariant newXFwdFor == Accumulated(kept)
      invariant oneFound <==> kept != []
    {
      var ip := TrimSpace(ips[i]);
      assert trimmed[..i + 1] == trimmed[..i] + [ip];
      WithoutSnoc(trimmed[..i], ip, remoteAddr);
      if ip != remoteAddr {
        AccumulatedSnoc(kept, ip);
        kept := kept + [ip];
        newXFwdFor := newXFwdFor + ip + ", ";
        oneFound := true;
      }
    }
    assert trimmed[..|ips|] == trimmed;
    if oneFound {
      AccumulatedIsJoin(kept);
      newXFwdFor := newXFwdFor[0..|newXFwdFor| - 2];
    }
  }

  /** The pieces of a joined list, once the space after each comma is trimmed again. */
  lemma {:induction false} SplitOfJoined(parts: seq<string>)
    requires parts != []
    requires forall p | p in parts :: IsTrimmed(p) && ',' !in p
    ensures TrimmedParts(Split(Join(parts, ", "), ',')) == parts
  {
    TrimSpaceProperties(parts[0]);
    assert parts[0] in parts;
    if |parts| == 1 {
      SplitAtom(parts[0], ',');
    } else {
      assert forall p | p in parts[1..] :: p in parts;
      SplitOfJoined(parts[1..]);
      SplitOfTwo(parts[0], Join(parts[1..], ", "), parts[1..]);
      assert Join(parts, ", ") == parts[0] + ", " + Join(parts[1..], ", ");
    }
  }

  /** One address in front of a text that splits into the others. */
  lemma SplitOfTwo(p: string, rest: string, parts: seq<string>)
    requires IsTrimmed(p) && ',' !in p && TrimmedParts(Split(rest, ',')) == parts
    ensures TrimmedParts(Split(p + ", " + rest, ',')) == [p] + parts
  {
    TrimSpaceProperties(p);
    assert p + ", " + rest == p + [','] + (" " + rest);
    SplitCons(p, " " + rest, ',');
    SplitSpaced(rest);
    TrimmedAfterSpace(Split(rest, ','), parts);
  }

  lemma SplitSpaced(s: string)
    ensures Split(" " + s, ',') == [" " + Split(s, ',')[0]] + Split(s, ',')[1..]
  {
    assert (" " + s)[1..] == s;
  }

  lemma TrimmedAfterSpace(tail: seq<string>, parts: seq<string>)
    requires tail != [] && TrimmedParts(tail) == parts
    ensures TrimmedParts([" " + tail[0]] + tail[1..]) == parts
  {
    assert (" " + tail[0])[1..] == tail[0];
    assert TrimLeft(" " + tail[0]) == TrimLeft(tail[0]);
  }

  /** The log shows exactly the other addresses: what it shows splits into the trimmed parts of the header, in
      order, without the remote address. */
  lemma LoggedParts(value: string, addr: string)
    requires Logged(value, addr) != ""
    ensures TrimmedParts(Split(Logged(value, addr), ',')) == Without(TrimmedParts(Split(value, ',')), addr)
    ensures addr !in Without(TrimmedParts(Split(value, ',')), addr)
  {
    var trimmed := TrimmedParts(Split(value, ','));
    var parts := Without(trimmed, addr);
    WithoutMembers(trimmed, addr);
    SplitPartsAreSepFree(value, ',');
    forall p | p in parts ensures IsTrimmed(p) && ',' !in p {
      var i :| 0 <= i < |trimmed| && trimmed[i] == p;
      assert Split(value, ',')[i] in Split(value, ',');
      TrimSpaceProperties(Split(value, ',')[i]);
    }
    SplitOfJoined(parts);
  }

  /** Filtering its own output changes nothing. */
  lemma LoggedTwice(value: string, addr: string)
    ensures Logged(Logged(value, addr), addr) == Logged(value, addr)
  {
    if Logged(value, addr) != "" {
      LoggedParts(value, addr);
      WithoutNothing(Without(TrimmedParts(Split(value, ',')), addr), addr);
    }
  }

  /** Every part but one is the address, and that one is empty, if there is one at all. */
  predicate HasNothingElse(parts: seq<string>, addr: string) {
    forall i | 0 <= i < |parts| && parts[i] != addr ::
      parts[i] == "" && forall j | 0 <= j < |parts| && j != i :: parts[j] == addr
  }

  lemma {:induction false} WithoutIsShort(parts: seq<string>, addr: string)
    ensures Without(parts, addr) == [] || Without(parts, addr) == [""] <==> HasNothingElse(parts, addr)
  {
    if parts != [] {
      var rest := parts[1..];
      WithoutIsShort(rest, addr);
      WithoutMembers(rest, addr);
      assert forall i | 0 <= i < |rest| :: rest[i] == parts[i + 1];
      assert forall i | 0 < i < |parts| :: parts[i] == rest[i - 1];
      if parts[0] == addr {
        assert [] + Without(rest, addr) == Without(rest, addr);
        assert HasNothingElse(parts, addr) <==> HasNothingElse(rest, addr);
      } else {
        AllTheAddress(rest, addr);
        OnlyAnEmptyOne(parts[0], Without(rest, addr));
        assert HasNothingElse(parts, addr) <==>
                 parts[0] == "" && forall j | 0 <= j < |rest| :: rest[j] == addr;
      }
    }
  }

  lemma OnlyAnEmptyOne(part: string, rest: seq<string>)
    ensures [part] + rest == [""] <==> part == "" && rest == []
  {
    if [part] + rest == [""] {
      assert ([part] + rest)[0] == part && |rest| == 0;
    }
  }

  lemma AllTheAddress(parts: seq<string>, addr: string)
    ensures Without(parts, addr) == [] <==> forall j | 0 <= j < |parts| :: parts[j] == addr
  {
    WithoutMembers(parts, addr);
    if Without(parts, addr) == [] {
      forall j | 0 <= j < |parts| ensures parts[j] == addr {
        assert parts[j] in parts;
      }
    } else {
      assert Without(parts, addr)[0] in Without(parts, addr);
    }
  }

  /** Nothing is logged exactly when the header is empty, or names nobody but the remote address. */
  lemma LoggedIsEmpty(value: string, addr: string)
    ensures Logged(value, addr) == "" <==> value == "" || HasNothingElse(TrimmedParts(Split(value, ',')), addr)
  {
    var parts := Without(TrimmedParts(Split(value, ',')), addr);
    WithoutIsShort(TrimmedParts(Split(value, ',')), addr);
    assert |parts| > 1 ==> Join(parts, ", ") == parts[0] + ", " + Join(parts[1..], ", ");
    assert |parts| == 1 ==> parts == [parts[0]];
  }

  /** The addresses that are logged. */
  function Others(value: string, addr: string): seq<string> {
    Without(TrimmedParts(Split(value, ',')), addr)
  }

  lemma {:induction false} JoinAppend(a: seq<string>, b: seq<string>)
    requires a != [] && b != []
    ensures Join(a + b, ", ") == Join(a, ", ") + ", " + Join(b, ", ")
  {
    if |a| == 1 {
      assert a + b == [a[0]] + b && ([a[0]] + b)[1..] == b;
    } else {
      JoinAppend(a[1..], b);
      assert (a + b)[1..] == a[1..] + b;
    }
  }

  /** One address alone is logged trimmed, unless it is the remote one; two lists are logged one behind the other, with
      a comma and a space between them when both show something. */
  lemma LoggedExactly(one: string, value: string, more: string, addr: string)
    requires ',' !in one && one != "" && value != "" && more != ""
    ensures Logged(one, addr) == if TrimSpace(one) == addr then "" else TrimSpace(one)
    ensures Others(value + "," + more, addr) == Others(value, addr) + Others(more, addr)
    ensures Others(value, addr) != [] && Others(more, addr) != [] ==>
              Logged(value + "," + more, addr) == Logged(value, addr) + ", " + Logged(more, addr)
  {
    SplitAtom(one, ',');
    assert TrimmedParts([one]) == [TrimSpace(one)];
    WithoutSnoc([], TrimSpace(one), addr);
    assert [] + [TrimSpace(one)] == [TrimSpace(one)];
    OthersAppend(value, more, addr);
    assert value + "," + more == value + [','] + more;
    if Others(value, addr) != [] && Others(more, addr) != [] {
      JoinAppend(Others(value, addr), Others(more, addr));
    }
  }

  lemma TrimmedAppend(a: seq<string>, b: seq<string>)
    ensures TrimmedParts(a + b) == TrimmedParts(a) + TrimmedParts(b)
  {
  }

  lemma OthersAppend(value: string, more: string, addr: string)
    ensures Others(value + [','] + more, addr) == Others(value, addr) + Others(more, addr)
  {
    SplitConcat(value, more, ',');
    var a, b := Split(value, ','), Split(more, ',');
    TrimmedAppend(a, b);
    WithoutAppend(TrimmedParts(a), TrimmedParts(b), addr);
  }
}
