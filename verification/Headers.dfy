/** net/http's Header: a map whose methods canonicalise the key they are given. */
module Headers {
  import opened Multimaps
  import opened Strings

  type Header = Multimap

  /** A token of section 3.2.6 of RFC 7230. */
  predicate IsTokenChar(c: char) {
    || 'a' <= c <= 'z' || 'A' <= c <= 'Z' || '0' <= c <= '9'
    || c in "!#$%&'*+-.^_`|~"
  }

  predicate IsToken(k: string) {
    forall i | 0 <= i < |k| :: IsTokenChar(k[i])
  }

  function UpperChar(c: char): char {
    if 'a' <= c <= 'z' then (c as int - 32) as char else c
  }

  /** Upper case at the start and after each hyphen, lower case elsewhere. */
  function Canonical(k: string): (r: string)
    ensures |r| == |k|
    ensures forall i | 0 <= i < |k| ::
              r[i] == if i == 0 || k[i - 1] == '-' then UpperChar(k[i]) else LowerChar(k[i])
  {
    seq(|k|, i requires 0 <= i < |k| =>
      if i == 0 || k[i - 1] == '-' then UpperChar(k[i]) else LowerChar(k[i]))
  }

  /** textproto.CanonicalMIMEHeaderKey: keys that are not tokens stay as they are. */
  function CanonicalKey(k: string): string {
    if IsToken(k) then Canonical(k) else k
  }

  /** What net/http's server makes of every key it receives. */
  ghost predicate HasCanonicalKeys(header: Header) {
    forall k | k in header :: IsToken(k) && CanonicalKey(k) == k
  }

  function Values(header: Header, k: string): seq<string> {
    if CanonicalKey(k) in header then header[CanonicalKey(k)] else []
  }

  function Get(header: Header, k: string): string {
    var values := Values(header, k);
    if values == [] then "" else values[0]
  }

  function Add(header: Header, k: string, v: string): Header {
    header[CanonicalKey(k) := Values(header, k) + [v]]
  }

  lemma CanonicalKeepsLower(k: string)
    ensures Lower(CanonicalKey(k)) == Lower(k)
  {
    assert forall i | 0 <= i < |k| :: Lower(CanonicalKey(k))[i] == Lower(k)[i];
  }

  /** Two tokens have the same canonical form exactly when they differ in case only. */
  lemma CanonicalUpToCase(a: string, b: string)
    requires IsToken(a) && IsToken(b)
    ensures CanonicalKey(a) == CanonicalKey(b) <==> Lower(a) == Lower(b)
  {
    if CanonicalKey(a) == CanonicalKey(b) {
      CanonicalKeepsLower(a);
      CanonicalKeepsLower(b);
    }
    if Lower(a) == Lower(b) {
      forall i | 0 <= i < |a| ensures Canonical(a)[i] == Canonical(b)[i] {
        SameLower(a, b, i);
        if i > 0 {
          SameLower(a, b, i - 1);
        }
      }
    }
  }

  lemma SameLower(a: string, b: string, i: nat)
    requires |a| == |b| && Lower(a) == Lower(b) && i < |a|
    ensures LowerChar(a[i]) == LowerChar(b[i]) && UpperChar(a[i]) == UpperChar(b[i]) && (a[i] == '-' <==> b[i] == '-')
  {
    assert Lower(a)[i] == Lower(b)[i];
  }

  /** Tokens are the printable ASCII characters that are not delimiters, the other way in which section 3.2.6 says
      what they are. */
  lemma TokensAreNotDelimiters(c: char)
    ensures IsTokenChar(c) <==> '!' <= c <= '~' && c !in "\"(),/:;<=>?@[\\]{}"
  {
  }

  /** The canonical form, letter by letter. */
  lemma CanonicalExactly(k: string)
    requires IsToken(k)
    ensures var r := CanonicalKey(k);
            && |r| == |k|
            && forall i | 0 <= i < |k| ::
                 r[i] == if (i == 0 || k[i - 1] == '-') && 'a' <= k[i] <= 'z' then (k[i] as int - 32) as char
                         else if i > 0 && k[i - 1] != '-' && 'A' <= k[i] <= 'Z' then (k[i] as int + 32) as char
                         else k[i]
  {
  }

  lemma CanonicalUser()
    ensures CanonicalKey("impersonate-user") == "Impersonate-User" && Lower("Impersonate-User") == "impersonate-user"
  {
    var k, r := "impersonate-user", "Impersonate-User";
    forall i | 0 <= i < |k| ensures IsTokenChar(k[i]) && CanonicalAt(k, r, i) {
      CanonicalUserAt(i);
    }
    SameCanonical(k, r);
  }

  lemma CanonicalAuthorization()
    ensures CanonicalKey("Authorization") == "Authorization"
  {
    var k := "Authorization";
    forall i | 0 <= i < |k| ensures IsTokenChar(k[i]) && Canonical(k)[i] == k[i] {
      AuthorizationAt(i);
    }
  }

  lemma AuthorizationAt(i: nat)
    requires i < 13
    ensures var k := "Authorization";
            && |k| == 13 && IsTokenChar(k[i])
            && k[i] == if i == 0 || k[i - 1] == '-' then UpperChar(k[i]) else LowerChar(k[i])
  {
  }

  predicate CanonicalAt(k: string, r: string, i: nat)
    requires i < |k| && i < |r|
  {
    && r[i] == (if i == 0 || k[i - 1] == '-' then UpperChar(k[i]) else LowerChar(k[i]))
    && k[i] == LowerChar(r[i])
  }

  lemma CanonicalUserAt(i: nat)
    requires i < 16
    ensures var k, r := "impersonate-user", "Impersonate-User";
            |k| == |r| == 16 && IsTokenChar(k[i]) && CanonicalAt(k, r, i)
  {
  }

  lemma SameCanonical(k: string, r: string)
    requires |k| == |r| && forall i | 0 <= i < |k| :: IsTokenChar(k[i]) && CanonicalAt(k, r, i)
    ensures CanonicalKey(k) == r && Lower(r) == k
  {
    forall i | 0 <= i < |k| ensures Canonical(k)[i] == r[i] && Lower(r)[i] == k[i] {
      assert CanonicalAt(k, r, i);
    }
  }

  /** What Get and Add do on a key of their own form. */
  lemma GetAndAdd(header: Header, k: string, v: string)
    requires CanonicalKey(k) == k
    ensures Get(header, k) == if k in header && header[k] != [] then header[k][0] else ""
    ensures Add(header, k, v) == header[k := (if k in header then header[k] else []) + [v]]
  {
  }
}
