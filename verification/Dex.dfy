/** The names Dex gives its objects: the input with eight fixed bytes appended, in base32,
    without padding and in lower case. */
module Dex {
  import opened Strings
  import opened Base32

  const OFFSET_64_CHARS: seq<int> := [203, 242, 156, 228, 132, 34, 35, 37]

  function CodePoints(s: string): (r: seq<int>)
    ensures |r| == |s|
    ensures forall i | 0 <= i < |s| :: r[i] == s[i] as int
  {
    seq(|s|, i requires 0 <= i < |s| => s[i] as int)
  }

  function FakeHashFNV(s: string): seq<int> {
    CodePoints(s) + OFFSET_64_CHARS
  }

  /** std.strReplace with an empty replacement, for one character. */
  function Without(text: string, c: char): string {
    if text == "" then ""
    else (if text[0] == c then "" else [text[0]]) + Without(text[1..], c)
  }

  function DexNameHash(s: string): Encoding {
    match Encode(FakeHashFNV(s))
    case NotBytes => NotBytes
    case Encoded(text) => Encoded(Lower(Without(text, '=')))
  }

  /** The lower-case form of a digit of the stream. */
  function NameChar(a: seq<Byte>, j: nat): char {
    LowerChar(Symbol(StreamDigit(a, j)))
  }

  predicate IsNameChar(c: char) {
    'a' <= c <= 'z' || '2' <= c <= '7'
  }

  lemma {:induction false} WithoutPadding(text: string, n: nat)
    requires n <= |text|
    requires forall k | 0 <= k < n :: text[k] != '='
    requires forall k | n <= k < |text| :: text[k] == '='
    ensures Without(text, '=') == text[..n]
  {
    if text != "" {
      WithoutPadding(text[1..], if n == 0 then 0 else n - 1);
      if n > 0 {
        assert text[..n] == [text[0]] + text[1..][..n - 1];
      }
    }
  }

  /** The hash of bytes: one lower-case character per digit of the stream, and nothing else. */
  lemma HashIsTheStream(s: string)
    requires forall c | c in s :: c as int < 256
    ensures var a := LowBytes(FakeHashFNV(s));
            && DexNameHash(s).Encoded?
            && |DexNameHash(s).text| == DigitCount(|a|)
            && forall j | 0 <= j < DigitCount(|a|) :: DexNameHash(s).text[j] == NameChar(a, j)
  {
    var a := LowBytes(FakeHashFNV(s));
    BytesAreEncoded(s);
    EncoderEmitsTheStream(a);
    Counts(|a|);
    var text := Aux(a, 0, "");
    SymbolsAreNotPads(a, text);
    WithoutPadding(text, DigitCount(|a|));
  }

  lemma BytesAreEncoded(s: string)
    requires forall c | c in s :: c as int < 256
    ensures Encode(FakeHashFNV(s)) == Encoded(Aux(LowBytes(FakeHashFNV(s)), 0, ""))
  {
    var input := FakeHashFNV(s);
    forall i | 0 <= i < |input| ensures input[i] < 256 {
      if i < |s| {
        assert s[i] in s;
      }
    }
  }

  lemma LowerSymbolIsNameChar(d: nat)
    requires d < 32
    ensures IsNameChar(LowerChar(Symbol(d)))
  {
    DigitIsInvertible(d);
  }

  /** Lower-casing keeps two characters of the alphabet apart. */
  lemma LowerKeepsApart(x: char, y: char)
    requires DigitOf(x).Some? && DigitOf(y).Some? && LowerChar(x) == LowerChar(y)
    ensures x == y
  {
  }

  lemma LowerSymbolIsInvertible(d: nat, e: nat)
    requires d < 32 && e < 32 && LowerChar(Symbol(d)) == LowerChar(Symbol(e))
    ensures d == e
  {
    DigitIsInvertible(d);
    DigitIsInvertible(e);
    LowerKeepsApart(Symbol(d), Symbol(e));
  }

  /** A name uses only a-z and 2-7, and its length is the number of five-bit groups in the input and
      the eight appended bytes. */
  lemma HashShape(s: string)
    requires forall c | c in s :: c as int < 256
    ensures DexNameHash(s).Encoded?
    ensures var name := DexNameHash(s).text;
            && 5 * (|name| - 1) < 8 * (|s| + 8) <= 5 * |name|
            && forall c | c in name :: IsNameChar(c)
  {
    HashIsTheStream(s);
    var a := LowBytes(FakeHashFNV(s));
    var name := DexNameHash(s).text;
    assert |a| == |s| + 8;
    forall j | 0 <= j < |name| ensures IsNameChar(name[j]) {
      LowerSymbolIsNameChar(StreamDigit(a, j));
    }
  }

  lemma SameNameSameBytes(a: seq<Byte>, b: seq<Byte>)
    requires DigitCount(|a|) == DigitCount(|b|)
    requires forall j | 0 <= j < DigitCount(|a|) :: NameChar(a, j) == NameChar(b, j)
    ensures a == b
  {
    Counts(|a|);
    Counts(|b|);
    forall j | 0 <= j < DigitCount(|a|) ensures StreamDigit(a, j) == StreamDigit(b, j) {
      assert NameChar(a, j) == NameChar(b, j);
      LowerSymbolIsInvertible(StreamDigit(a, j), StreamDigit(b, j));
    }
    var digits := seq(DigitCount(|a|), j requires 0 <= j => StreamDigit(a, j));
    StreamDigitsDecode(a, digits);
    StreamDigitsDecode(b, digits);
  }

  /** Dropping the padding and the case loses nothing: different inputs get different names. Exactly
      the inputs with a code point of 256 or more get none. */
  lemma HashIsInjective(s: string, t: string)
    ensures DexNameHash(s).NotBytes? <==> exists c | c in s :: c as int >= 256
    ensures DexNameHash(s).Encoded? && DexNameHash(s) == DexNameHash(t) ==> s == t
  {
    NamedExactlyBytes(s);
    NamedExactlyBytes(t);
    if DexNameHash(s).Encoded? && DexNameHash(s) == DexNameHash(t) {
      HashIsTheStream(s);
      HashIsTheStream(t);
      var a, b := LowBytes(FakeHashFNV(s)), LowBytes(FakeHashFNV(t));
      forall j | 0 <= j < DigitCount(|a|) ensures NameChar(a, j) == NameChar(b, j) {
        assert DexNameHash(s).text[j] == DexNameHash(t).text[j];
      }
      SameNameSameBytes(a, b);
      assert |s| == |t|;
      forall i | 0 <= i < |s| ensures s[i] == t[i] {
        assert s[i] in s && t[i] in t;
        assert a[i] == LowByte(s[i] as int) && b[i] == LowByte(t[i] as int);
        LowByteIsInjective(s[i] as int, t[i] as int);
      }
    }
  }

  lemma NamedExactlyBytes(s: string)
    ensures DexNameHash(s).NotBytes? <==> exists c | c in s :: c as int >= 256
  {
    var input := FakeHashFNV(s);
    if c :| c in s && c as int >= 256 {
      var i :| 0 <= i < |s| && s[i] == c;
      assert input[i] == c as int && input[i] in input;
    } else {
      HashIsTheStream(s);
    }
  }

  /** The value of a character of a name. */
  function NameDigit(c: char): nat
    requires IsNameChar(c)
  {
    if 'a' <= c then c as int - 97 else c as int - 24
  }

  function NameDigits(name: string): (digits: seq<nat>)
    requires forall c | c in name :: IsNameChar(c)
    ensures |digits| == |name|
    ensures forall j | 0 <= j < |name| :: digits[j] == NameDigit(name[j])
  {
    seq(|name|, j requires 0 <= j < |name| => assert name[j] in name; NameDigit(name[j]))
  }

  lemma NameDigitOfSymbol(d: nat)
    requires d < 32
    ensures var c := LowerChar(Symbol(d)); IsNameChar(c) && NameDigit(c) == d
  {
    LowerSymbolIsNameChar(d);
    DigitIsInvertible(d);
  }

  /** A name read back: its characters, as digits of five bits each, carry the code points of the input followed by
      eight bytes, and nothing else. */
  lemma NamesDecode(s: string)
    requires forall c | c in s :: c as int < 256
    ensures DexNameHash(s).Encoded? && forall c | c in DexNameHash(s).text :: IsNameChar(c)
    ensures var bytes := DecodedBytes(NameDigits(DexNameHash(s).text));
            && |bytes| == |s| + 8
            && (forall i | 0 <= i < |s| :: bytes[i] as int == s[i] as int)
            && bytes[|s|..] == [203, 242, 156, 228, 132, 34, 35, 37]
            && UnusedAreZero(NameDigits(DexNameHash(s).text))
  {
    HashShape(s);
    HashIsTheStream(s);
    var a, name := LowBytes(FakeHashFNV(s)), DexNameHash(s).text;
    forall j | 0 <= j < |name| ensures NameDigits(name)[j] == StreamDigit(a, j) {
      NameDigitOfSymbol(StreamDigit(a, j));
    }
    StreamDigitsDecode(a, NameDigits(name));
    InputBytes(s);
  }

  lemma InputBytes(s: string)
    requires forall c | c in s :: c as int < 256
    ensures var a := LowBytes(FakeHashFNV(s));
            && |a| == |s| + 8
            && (forall i | 0 <= i < |s| :: a[i] as int == s[i] as int)
            && a[|s|..] == [203, 242, 156, 228, 132, 34, 35, 37]
  {
    var a := LowBytes(FakeHashFNV(s));
    forall i | 0 <= i < |s| ensures a[i] as int == s[i] as int {
      assert s[i] in s;
      LowByteValue(s[i] as int);
    }
    AppendedBytes(a, |s|, FakeHashFNV(s));
  }

  lemma AppendedBytes(a: seq<Byte>, n: nat, input: seq<int>)
    requires a == LowBytes(input) && |input| == n + 8 && input[n..] == OFFSET_64_CHARS
    ensures a[n..] == [203, 242, 156, 228, 132, 34, 35, 37]
  {
    var literal: seq<Byte> := [203, 242, 156, 228, 132, 34, 35, 37];
    forall j | 0 <= j < 8 ensures a[n + j] == literal[j] {
      assert input[n + j] == input[n..][j];
      LowByteValue(input[n + j]);
    }
  }
}
