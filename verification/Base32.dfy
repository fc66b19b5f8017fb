/** The base32 encoder of the Dex manifests, against section 6 of RFC 4648. */
module Base32 {
  import opened Strings

  const TABLE: string := "ABCDEFGHIJKLMNOPQRSTUVWXYZ234567"

  type Byte = bv8

  datatype Encoding = Encoded(text: string) | NotBytes

  // ------------------------------------------------------------- the encoder

  /** The digits are kept apart from their characters: `d` is the index into the table. */
  function Digit(d: Byte): char
    requires d < 32
  {
    TABLE[d as nat]
  }

  function OneChar(a: seq<Byte>, i: nat): string
    requires i < |a|
  {
    [Digit((a[i] & 248) >> 3)]
  }

  function TwoChars(a: seq<Byte>, i: nat): string
    requires i + 1 < |a|
  {
    OneChar(a, i)
    + [Digit(((a[i] & 7) << 2) | ((a[i + 1] & 192) >> 6))]
    + [Digit((a[i + 1] & 62) >> 1)]
  }

  function ThreeChars(a: seq<Byte>, i: nat): string
    requires i + 2 < |a|
  {
    TwoChars(a, i)
    + [Digit(((a[i + 1] & 1) << 4) | ((a[i + 2] & 240) >> 4))]
  }

  function FourChars(a: seq<Byte>, i: nat): string
    requires i + 3 < |a|
  {
    ThreeChars(a, i)
    + [Digit(((a[i + 2] & 15) << 1) | ((a[i + 3] & 128) >> 7))]
    + [Digit((a[i + 3] & 124) >> 2)]
  }

  /** One step of the recursion: eight characters for up to five bytes. */
  function Block(a: seq<Byte>, i: nat): string
    requires i < |a|
  {
    if i + 1 >= |a| then
      OneChar(a, i) + [Digit((a[i] & 7) << 2)] + "======"
    else if i + 2 >= |a| then
      TwoChars(a, i) + [Digit((a[i + 1] & 1) << 4)] + "===="
    else if i + 3 >= |a| then
      ThreeChars(a, i) + [Digit((a[i + 2] & 15) << 1)] + "==="
    else if i + 4 >= |a| then
      FourChars(a, i) + [Digit((a[i + 3] & 3) << 3)] + "="
    else
      FourChars(a, i)
      + [Digit(((a[i + 3] & 3) << 3) | ((a[i + 4] & 224) >> 5))]
      + [Digit(a[i + 4] & 31)]
  }

  function Aux(a: seq<Byte>, i: nat, r: string): string
    decreases |a| - i
  {
    if i >= |a| then r else Aux(a, i + 5, r + Block(a, i))
  }

  /** Bit operations on a negative number see the low byte of its two's complement. */
  function LowByte(n: int): Byte {
    (n % 256) as Byte
  }

  function LowBytes(input: seq<int>): (a: seq<Byte>)
    ensures |a| == |input|
    ensures forall i | 0 <= i < |input| :: a[i] == LowByte(input[i])
  {
    seq(|input|, i requires 0 <= i < |input| => LowByte(input[i]))
  }

  /** base32 on an array of integers; the check only refuses elements of 256 and above. */
  function Encode(input: seq<int>): Encoding {
    if exists n | n in input :: n >= 256 then NotBytes else Encoded(Aux(LowBytes(input), 0, ""))
  }

  // ------------------------------------------------------------- RFC 4648, section 6

  /** Bit `k` of a byte, the most significant first. */
  predicate Bit(b: Byte, k: nat) {
    match k
    case 0 => b & 128 != 0
    case 1 => b & 64 != 0
    case 2 => b & 32 != 0
    case 3 => b & 16 != 0
    case 4 => b & 8 != 0
    case 5 => b & 4 != 0
    case 6 => b & 2 != 0
    case 7 => b & 1 != 0
    case _ => false
  }

  /** Bit `p` of the big-endian bit stream, zero beyond the end. */
  predicate StreamBit(a: seq<Byte>, p: nat) {
    p / 8 < |a| && Bit(a[p / 8], p % 8)
  }

  function Flag(on: bool, weight: Byte): Byte {
    if on then weight else 0
  }

  function Weight(on: bool, weight: nat): nat {
    if on then weight else 0
  }

  /** The number with these five bits. */
  function FromFive(b0: bool, b1: bool, b2: bool, b3: bool, b4: bool): (d: nat)
    ensures d < 32
  {
    Weight(b0, 16) + Weight(b1, 8) + Weight(b2, 4) + Weight(b3, 2) + Weight(b4, 1)
  }

  function FiveOf(bits: nat -> bool): (d: nat)
    ensures d < 32
  {
    FromFive(bits(0), bits(1), bits(2), bits(3), bits(4))
  }

  /** The character of a five-bit number. */
  function Symbol(d: nat): char
    requires d < 32
  {
    TABLE[d]
  }

  /** Digit `j`: bits 5j to 5j+4 of the stream. */
  function StreamDigit(a: seq<Byte>, j: nat): (d: nat)
    ensures d < 32
  {
    FiveOf((e: nat) => StreamBit(a, 5 * j + e))
  }

  /** Five-bit groups needed for n bytes. */
  function DigitCount(n: nat): nat {
    (8 * n + 4) / 5
  }

  /** Characters after padding to a multiple of eight. */
  function PaddedCount(n: nat): nat {
    (n + 4) / 5 * 8
  }

  ghost predicate IsStreamText(a: seq<Byte>, text: string) {
    && |text| == PaddedCount(|a|)
    && forall j | 0 <= j < |text| :: text[j] == if j < DigitCount(|a|) then Symbol(StreamDigit(a, j)) else '='
  }

  /** The stream bits of the block that starts at byte `i`. */
  predicate BlockBit(a: seq<Byte>, i: nat, k: nat) {
    i + k / 8 < |a| && Bit(a[i + k / 8], k % 8)
  }

  lemma BlockBitIsStreamBit(a: seq<Byte>, q: nat, k: nat)
    ensures StreamBit(a, 40 * q + k) == BlockBit(a, 5 * q, k)
  {
    assert (40 * q + k) / 8 == 5 * q + k / 8;
    assert (40 * q + k) % 8 == k % 8;
  }

  function BlockDigit(a: seq<Byte>, i: nat, d: nat): (r: nat)
    ensures r < 32
  {
    FiveOf((e: nat) => BlockBit(a, i, 5 * d + e))
  }

  lemma SameBitsSameDigit(f: nat -> bool, g: nat -> bool)
    requires forall e: nat | e < 5 :: f(e) == g(e)
    ensures FiveOf(f) == FiveOf(g)
  {
  }

  lemma BlockDigitIsStreamDigit(a: seq<Byte>, q: nat, d: nat)
    ensures StreamDigit(a, 8 * q + d) == BlockDigit(a, 5 * q, d)
  {
    var f, g := (e: nat) => StreamBit(a, 5 * (8 * q + d) + e), (e: nat) => BlockBit(a, 5 * q, 5 * d + e);
    forall e: nat | e < 5 ensures f(e) == g(e) {
      assert 5 * (8 * q + d) + e == 40 * q + (5 * d + e);
      BlockBitIsStreamBit(a, q, 5 * d + e);
    }
    SameBitsSameDigit(f, g);
  }

  function FiveFlags(b0: bool, b1: bool, b2: bool, b3: bool, b4: bool): (d: Byte)
    ensures d < 32
  {
    Flag(b0, 16) | Flag(b1, 8) | Flag(b2, 4) | Flag(b3, 2) | Flag(b4, 1)
  }

  lemma FlagsAreWeights(b0: bool, b1: bool, b2: bool, b3: bool, b4: bool)
    ensures Digit(FiveFlags(b0, b1, b2, b3, b4)) == Symbol(FromFive(b0, b1, b2, b3, b4))
  {
    assert FiveFlags(b0, b1, b2, b3, b4) as nat == FromFive(b0, b1, b2, b3, b4);
  }

  lemma MaskOne(x: Byte)
    ensures Digit((x & 248) >> 3) == Symbol(FromFive(Bit(x, 0), Bit(x, 1), Bit(x, 2), Bit(x, 3), Bit(x, 4)))
  {
    assert (x & 248) >> 3 == FiveFlags(Bit(x, 0), Bit(x, 1), Bit(x, 2), Bit(x, 3), Bit(x, 4));
    FlagsAreWeights(Bit(x, 0), Bit(x, 1), Bit(x, 2), Bit(x, 3), Bit(x, 4));
  }

  lemma MaskTwo(x: Byte, y: Byte)
    ensures Digit(((x & 7) << 2) | ((y & 192) >> 6))
            == Symbol(FromFive(Bit(x, 5), Bit(x, 6), Bit(x, 7), Bit(y, 0), Bit(y, 1)))
  {
    assert ((x & 7) << 2) | ((y & 192) >> 6) == FiveFlags(Bit(x, 5), Bit(x, 6), Bit(x, 7), Bit(y, 0), Bit(y, 1));
    FlagsAreWeights(Bit(x, 5), Bit(x, 6), Bit(x, 7), Bit(y, 0), Bit(y, 1));
  }

  lemma MaskThree(y: Byte)
    ensures Digit((y & 62) >> 1) == Symbol(FromFive(Bit(y, 2), Bit(y, 3), Bit(y, 4), Bit(y, 5), Bit(y, 6)))
  {
    assert (y & 62) >> 1 == FiveFlags(Bit(y, 2), Bit(y, 3), Bit(y, 4), Bit(y, 5), Bit(y, 6));
    FlagsAreWeights(Bit(y, 2), Bit(y, 3), Bit(y, 4), Bit(y, 5), Bit(y, 6));
  }

  lemma MaskFour(y: Byte, z: Byte)
    ensures Digit(((y & 1) << 4) | ((z & 240) >> 4))
            == Symbol(FromFive(Bit(y, 7), Bit(z, 0), Bit(z, 1), Bit(z, 2), Bit(z, 3)))
  {
    assert ((y & 1) << 4) | ((z & 240) >> 4) == FiveFlags(Bit(y, 7), Bit(z, 0), Bit(z, 1), Bit(z, 2), Bit(z, 3));
    FlagsAreWeights(Bit(y, 7), Bit(z, 0), Bit(z, 1), Bit(z, 2), Bit(z, 3));
  }

  lemma MaskFive(z: Byte, w: Byte)
    ensures Digit(((z & 15) << 1) | ((w & 128) >> 7))
            == Symbol(FromFive(Bit(z, 4), Bit(z, 5), Bit(z, 6), Bit(z, 7), Bit(w, 0)))
  {
    assert ((z & 15) << 1) | ((w & 128) >> 7) == FiveFlags(Bit(z, 4), Bit(z, 5), Bit(z, 6), Bit(z, 7), Bit(w, 0));
    FlagsAreWeights(Bit(z, 4), Bit(z, 5), Bit(z, 6), Bit(z, 7), Bit(w, 0));
  }

  lemma MaskSix(w: Byte)
    ensures Digit((w & 124) >> 2) == Symbol(FromFive(Bit(w, 1), Bit(w, 2), Bit(w, 3), Bit(w, 4), Bit(w, 5)))
  {
    assert (w & 124) >> 2 == FiveFlags(Bit(w, 1), Bit(w, 2), Bit(w, 3), Bit(w, 4), Bit(w, 5));
    FlagsAreWeights(Bit(w, 1), Bit(w, 2), Bit(w, 3), Bit(w, 4), Bit(w, 5));
  }

  lemma MaskSeven(w: Byte, v: Byte)
    ensures Digit(((w & 3) << 3) | ((v & 224) >> 5))
            == Symbol(FromFive(Bit(w, 6), Bit(w, 7), Bit(v, 0), Bit(v, 1), Bit(v, 2)))
  {
    assert ((w & 3) << 3) | ((v & 224) >> 5) == FiveFlags(Bit(w, 6), Bit(w, 7), Bit(v, 0), Bit(v, 1), Bit(v, 2));
    FlagsAreWeights(Bit(w, 6), Bit(w, 7), Bit(v, 0), Bit(v, 1), Bit(v, 2));
  }

  lemma MaskEight(v: Byte)
    ensures Digit(v & 31) == Symbol(FromFive(Bit(v, 3), Bit(v, 4), Bit(v, 5), Bit(v, 6), Bit(v, 7)))
  {
    assert v & 31 == FiveFlags(Bit(v, 3), Bit(v, 4), Bit(v, 5), Bit(v, 6), Bit(v, 7));
    FlagsAreWeights(Bit(v, 3), Bit(v, 4), Bit(v, 5), Bit(v, 6), Bit(v, 7));
  }

  /** The masks of the tails, where the next byte is missing, are those of a zero byte. */
  lemma TailMasks(x: Byte)
    ensures (x & 7) << 2 == ((x & 7) << 2) | ((0 & 192) >> 6)
    ensures (x & 1) << 4 == ((x & 1) << 4) | ((0 & 240) >> 4)
    ensures (x & 15) << 1 == ((x & 15) << 1) | ((0 & 128) >> 7)
    ensures (x & 3) << 3 == ((x & 3) << 3) | ((0 & 224) >> 5)
  {
  }

  function ByteAt(a: seq<Byte>, i: nat): Byte {
    if i < |a| then a[i] else 0
  }

  lemma BlockBitIsByteBit(a: seq<Byte>, i: nat, m: nat, e: nat)
    requires e < 8
    ensures BlockBit(a, i, 8 * m + e) == Bit(ByteAt(a, i + m), e)
  {
    assert (8 * m + e) / 8 == m && (8 * m + e) % 8 == e;
  }

  lemma BlockDigitIs(a: seq<Byte>, i: nat, d: nat, b0: bool, b1: bool, b2: bool, b3: bool, b4: bool)
    requires BlockBit(a, i, 5 * d) == b0 && BlockBit(a, i, 5 * d + 1) == b1 && BlockBit(a, i, 5 * d + 2) == b2
    requires BlockBit(a, i, 5 * d + 3) == b3 && BlockBit(a, i, 5 * d + 4) == b4
    ensures BlockDigit(a, i, d) == FromFive(b0, b1, b2, b3, b4)
  {
  }

  lemma DigitOne(a: seq<Byte>, i: nat)
    ensures var x := ByteAt(a, i); Symbol(BlockDigit(a, i, 0)) == Digit((x & 248) >> 3)
  {
    var x := ByteAt(a, i);
    BlockBitIsByteBit(a, i, 0, 0);
    BlockBitIsByteBit(a, i, 0, 1);
    BlockBitIsByteBit(a, i, 0, 2);
    BlockBitIsByteBit(a, i, 0, 3);
    BlockBitIsByteBit(a, i, 0, 4);
    BlockDigitIs(a, i, 0, Bit(x, 0), Bit(x, 1), Bit(x, 2), Bit(x, 3), Bit(x, 4));
    MaskOne(x);
  }

  lemma DigitTwo(a: seq<Byte>, i: nat)
    ensures var x, y := ByteAt(a, i), ByteAt(a, i + 1);
            Symbol(BlockDigit(a, i, 1)) == Digit(((x & 7) << 2) | ((y & 192) >> 6))
  {
    var x, y := ByteAt(a, i), ByteAt(a, i + 1);
    BlockBitIsByteBit(a, i, 0, 5);
    BlockBitIsByteBit(a, i, 0, 6);
    BlockBitIsByteBit(a, i, 0, 7);
    BlockBitIsByteBit(a, i, 1, 0);
    BlockBitIsByteBit(a, i, 1, 1);
    BlockDigitIs(a, i, 1, Bit(x, 5), Bit(x, 6), Bit(x, 7), Bit(y, 0), Bit(y, 1));
    MaskTwo(x, y);
  }

  lemma DigitThree(a: seq<Byte>, i: nat)
    ensures var x := ByteAt(a, i + 1); Symbol(BlockDigit(a, i, 2)) == Digit((x & 62) >> 1)
  {
    var x := ByteAt(a, i + 1);
    BlockBitIsByteBit(a, i, 1, 2);
    BlockBitIsByteBit(a, i, 1, 3);
    BlockBitIsByteBit(a, i, 1, 4);
    BlockBitIsByteBit(a, i, 1, 5);
    BlockBitIsByteBit(a, i, 1, 6);
    BlockDigitIs(a, i, 2, Bit(x, 2), Bit(x, 3), Bit(x, 4), Bit(x, 5), Bit(x, 6));
    MaskThree(x);
  }

  lemma DigitFour(a: seq<Byte>, i: nat)
    ensures var x, y := ByteAt(a, i + 1), ByteAt(a, i + 2);
            Symbol(BlockDigit(a, i, 3)) == Digit(((x & 1) << 4) | ((y & 240) >> 4))
  {
    var x, y := ByteAt(a, i + 1), ByteAt(a, i + 2);
    BlockBitIsByteBit(a, i, 1, 7);
    BlockBitIsByteBit(a, i, 2, 0);
    BlockBitIsByteBit(a, i, 2, 1);
    BlockBitIsByteBit(a, i, 2, 2);
    BlockBitIsByteBit(a, i, 2, 3);
    BlockDigitIs(a, i, 3, Bit(x, 7), Bit(y, 0), Bit(y, 1), Bit(y, 2), Bit(y, 3));
    MaskFour(x, y);
  }

  lemma DigitFive(a: seq<Byte>, i: nat)
    ensures var x, y := ByteAt(a, i + 2), ByteAt(a, i + 3);
            Symbol(BlockDigit(a, i, 4)) == Digit(((x & 15) << 1) | ((y & 128) >> 7))
  {
    var x, y := ByteAt(a, i + 2), ByteAt(a, i + 3);
    BlockBitIsByteBit(a, i, 2, 4);
    BlockBitIsByteBit(a, i, 2, 5);
    BlockBitIsByteBit(a, i, 2, 6);
    BlockBitIsByteBit(a, i, 2, 7);
    BlockBitIsByteBit(a, i, 3, 0);
    BlockDigitIs(a, i, 4, Bit(x, 4), Bit(x, 5), Bit(x, 6), Bit(x, 7), Bit(y, 0));
    MaskFive(x, y);
  }

  lemma DigitSix(a: seq<Byte>, i: nat)
    ensures var x := ByteAt(a, i + 3); Symbol(BlockDigit(a, i, 5)) == Digit((x & 124) >> 2)
  {
    var x := ByteAt(a, i + 3);
    BlockBitIsByteBit(a, i, 3, 1);
    BlockBitIsByteBit(a, i, 3, 2);
    BlockBitIsByteBit(a, i, 3, 3);
    BlockBitIsByteBit(a, i, 3, 4);
    BlockBitIsByteBit(a, i, 3, 5);
    BlockDigitIs(a, i, 5, Bit(x, 1), Bit(x, 2), Bit(x, 3), Bit(x, 4), Bit(x, 5));
    MaskSix(x);
  }

  lemma DigitSeven(a: seq<Byte>, i: nat)
    ensures var x, y := ByteAt(a, i + 3), ByteAt(a, i + 4);
            Symbol(BlockDigit(a, i, 6)) == Digit(((x & 3) << 3) | ((y & 224) >> 5))
  {
    var x, y := ByteAt(a, i + 3), ByteAt(a, i + 4);
    BlockBitIsByteBit(a, i, 3, 6);
    BlockBitIsByteBit(a, i, 3, 7);
    BlockBitIsByteBit(a, i, 4, 0);
    BlockBitIsByteBit(a, i, 4, 1);
    BlockBitIsByteBit(a, i, 4, 2);
    BlockDigitIs(a, i, 6, Bit(x, 6), Bit(x, 7), Bit(y, 0), Bit(y, 1), Bit(y, 2));
    MaskSeven(x, y);
  }

  lemma DigitEight(a: seq<Byte>, i: nat)
    ensures var x := ByteAt(a, i + 4); Symbol(BlockDigit(a, i, 7)) == Digit(x & 31)
  {
    var x := ByteAt(a, i + 4);
    BlockBitIsByteBit(a, i, 4, 3);
    BlockBitIsByteBit(a, i, 4, 4);
    BlockBitIsByteBit(a, i, 4, 5);
    BlockBitIsByteBit(a, i, 4, 6);
    BlockBitIsByteBit(a, i, 4, 7);
    BlockDigitIs(a, i, 7, Bit(x, 3), Bit(x, 4), Bit(x, 5), Bit(x, 6), Bit(x, 7));
    MaskEight(x);
  }

  /** `s` gives, digit by digit, the characters the masks select from the block at byte `i`, with zero
      bytes after the last one. */
  ghost predicate FollowsMasks(a: seq<Byte>, i: nat, s: string) {
    var b0, b1, b2, b3, b4 := ByteAt(a, i), ByteAt(a, i + 1), ByteAt(a, i + 2), ByteAt(a, i + 3), ByteAt(a, i + 4);
    && |s| == 8
    && s[0] == Digit((b0 & 248) >> 3)
    && s[1] == Digit(((b0 & 7) << 2) | ((b1 & 192) >> 6))
    && s[2] == Digit((b1 & 62) >> 1)
    && s[3] == Digit(((b1 & 1) << 4) | ((b2 & 240) >> 4))
    && s[4] == Digit(((b2 & 15) << 1) | ((b3 & 128) >> 7))
    && s[5] == Digit((b3 & 124) >> 2)
    && s[6] == Digit(((b3 & 3) << 3) | ((b4 & 224) >> 5))
    && s[7] == Digit(b4 & 31)
  }

  function Min(x: int, y: int): int {
    if x < y then x else y
  }

  /** A block of `n` bytes, one to five: its digits, then padding up to eight characters. */
  ghost predicate IsBlockText(n: nat, s: string, text: string) {
    |text| == |s| == 8 && forall d | 0 <= d < 8 :: text[d] == if d < DigitCount(n) then s[d] else '='
  }

  lemma TwoCharsFollow(a: seq<Byte>, i: nat, s: string)
    requires i + 1 < |a| && FollowsMasks(a, i, s)
    ensures TwoChars(a, i) == [s[0], s[1], s[2]]
  {
  }

  lemma ThreeCharsFollow(a: seq<Byte>, i: nat, s: string)
    requires i + 2 < |a| && FollowsMasks(a, i, s)
    ensures ThreeChars(a, i) == [s[0], s[1], s[2], s[3]]
  {
    TwoCharsFollow(a, i, s);
  }

  lemma FourCharsFollow(a: seq<Byte>, i: nat, s: string)
    requires i + 3 < |a| && FollowsMasks(a, i, s)
    ensures FourChars(a, i) == [s[0], s[1], s[2], s[3], s[4], s[5]]
  {
    ThreeCharsFollow(a, i, s);
  }

  lemma LastOfOne(a: seq<Byte>, i: nat, s: string)
    requires i + 1 == |a| && FollowsMasks(a, i, s)
    ensures Digit((a[i] & 7) << 2) == s[1]
  {
    TailMasks(a[i]);
  }

  lemma LastOfTwo(a: seq<Byte>, i: nat, s: string)
    requires i + 2 == |a| && FollowsMasks(a, i, s)
    ensures Digit((a[i + 1] & 1) << 4) == s[3]
  {
    TailMasks(a[i + 1]);
  }

  lemma LastOfThree(a: seq<Byte>, i: nat, s: string)
    requires i + 3 == |a| && FollowsMasks(a, i, s)
    ensures Digit((a[i + 2] & 15) << 1) == s[4]
  {
    TailMasks(a[i + 2]);
  }

  lemma LastOfFour(a: seq<Byte>, i: nat, s: string)
    requires i + 4 == |a| && FollowsMasks(a, i, s)
    ensures Digit((a[i + 3] & 3) << 3) == s[6]
  {
    TailMasks(a[i + 3]);
  }

  lemma TailOfOne(a: seq<Byte>, i: nat, s: string)
    requires i + 1 == |a| && FollowsMasks(a, i, s)
    ensures Block(a, i) == OneChar(a, i) + [s[1]] + "======"
  {
    LastOfOne(a, i, s);
  }

  lemma TailOfTwo(a: seq<Byte>, i: nat, s: string)
    requires i + 2 == |a| && FollowsMasks(a, i, s)
    ensures Block(a, i) == TwoChars(a, i) + [s[3]] + "===="
  {
    LastOfTwo(a, i, s);
  }

  lemma TailOfThree(a: seq<Byte>, i: nat, s: string)
    requires i + 3 == |a| && FollowsMasks(a, i, s)
    ensures Block(a, i) == ThreeChars(a, i) + [s[4]] + "==="
  {
    LastOfThree(a, i, s);
  }

  lemma TailOfFour(a: seq<Byte>, i: nat, s: string)
    requires i + 4 == |a| && FollowsMasks(a, i, s)
    ensures Block(a, i) == FourChars(a, i) + [s[6]] + "="
  {
    LastOfFour(a, i, s);
  }

  lemma LastOfFull(a: seq<Byte>, i: nat, s: string)
    requires i + 4 < |a| && FollowsMasks(a, i, s)
    ensures Digit(((a[i + 3] & 3) << 3) | ((a[i + 4] & 224) >> 5)) == s[6]
    ensures Digit(a[i + 4] & 31) == s[7]
  {
  }

  lemma FullBlock(a: seq<Byte>, i: nat, c: char, d: char)
    requires i + 4 < |a|
    requires Digit(((a[i + 3] & 3) << 3) | ((a[i + 4] & 224) >> 5)) == c && Digit(a[i + 4] & 31) == d
    ensures Block(a, i) == FourChars(a, i) + [c] + [d]
  {
  }

  lemma BlockText(text: string, s: string, n: nat)
    requires 1 <= n <= 5 && |s| == 8
    requires text == if n == 1 then [s[0]] + [s[1]] + "======"
                     else if n == 2 then [s[0], s[1], s[2]] + [s[3]] + "===="
                     else if n == 3 then [s[0], s[1], s[2], s[3]] + [s[4]] + "==="
                     else if n == 4 then [s[0], s[1], s[2], s[3], s[4], s[5]] + [s[6]] + "="
                     else [s[0], s[1], s[2], s[3], s[4], s[5]] + [s[6]] + [s[7]]
    ensures IsBlockText(n, s, text)
  {
  }

  lemma BlockIsBlockText(a: seq<Byte>, i: nat, s: string)
    requires i < |a| && FollowsMasks(a, i, s)
    ensures IsBlockText(Min(5, |a| - i), s, Block(a, i))
  {
    if i + 4 < |a| {
      FourCharsFollow(a, i, s);
      LastOfFull(a, i, s);
      FullBlock(a, i, s[6], s[7]);
    } else if i + 3 < |a| {
      FourCharsFollow(a, i, s);
      TailOfFour(a, i, s);
    } else if i + 2 < |a| {
      ThreeCharsFollow(a, i, s);
      TailOfThree(a, i, s);
    } else if i + 1 < |a| {
      TwoCharsFollow(a, i, s);
      TailOfTwo(a, i, s);
    } else {
      TailOfOne(a, i, s);
    }
    BlockText(Block(a, i), s, Min(5, |a| - i));
  }

  /** `s` gives the digits of the block at byte `i`. */
  ghost predicate IsBlockDigits(a: seq<Byte>, i: nat, s: string) {
    |s| == 8 && forall d: nat | d < 8 :: s[d] == Symbol(BlockDigit(a, i, d))
  }

  /** The eight characters of the stream from digit 8q on. */
  function StreamSymbols(a: seq<Byte>, q: nat): (s: string)
    ensures IsStreamDigits(a, q, s)
  {
    seq(8, d requires 0 <= d < 8 => Symbol(StreamDigit(a, 8 * q + d)))
  }

  ghost predicate IsStreamDigits(a: seq<Byte>, q: nat, s: string) {
    |s| == 8 && forall d: nat | d < 8 :: s[d] == Symbol(StreamDigit(a, 8 * q + d))
  }

  lemma StreamGivesBlockDigits(a: seq<Byte>, q: nat, s: string)
    requires IsStreamDigits(a, q, s)
    ensures IsBlockDigits(a, 5 * q, s)
  {
    forall d: nat | d < 8 ensures s[d] == Symbol(BlockDigit(a, 5 * q, d)) {
      BlockDigitIsStreamDigit(a, q, d);
    }
  }

  lemma BlockDigitsFollowMasks(a: seq<Byte>, i: nat, s: string)
    requires i < |a| && IsBlockDigits(a, i, s)
    ensures FollowsMasks(a, i, s)
  {
    DigitOne(a, i);
    DigitTwo(a, i);
    DigitThree(a, i);
    DigitFour(a, i);
    DigitFive(a, i);
    DigitSix(a, i);
    DigitSeven(a, i);
    DigitEight(a, i);
  }

  /** The text up to byte i, a multiple of five, is the stream text up to there. */
  ghost predicate IsStreamPrefix(a: seq<Byte>, q: nat, text: string) {
    && |text| == 8 * q
    && forall j | 0 <= j < 8 * q :: text[j] == if j < DigitCount(|a|) then Symbol(StreamDigit(a, j)) else '='
  }

  lemma BlockTextExtends(a: seq<Byte>, q: nat, text: string, block: string, s: string)
    requires 5 * q < |a| && IsStreamPrefix(a, q, text)
    requires IsStreamDigits(a, q, s)
    requires IsBlockText(Min(5, |a| - 5 * q), s, block)
    ensures IsStreamPrefix(a, q + 1, text + block)
  {
    forall j | 8 * q <= j < 8 * q + 8
      ensures (text + block)[j] == if j < DigitCount(|a|) then Symbol(StreamDigit(a, j)) else '='
    {
      var d := j - 8 * q;
      assert (text + block)[j] == block[d];
    }
  }

  lemma BlockExtendsStream(a: seq<Byte>, q: nat, text: string, s: string)
    requires 5 * q < |a| && IsStreamPrefix(a, q, text)
    requires IsStreamDigits(a, q, s)
    ensures IsStreamPrefix(a, q + 1, text + Block(a, 5 * q))
  {
    StreamGivesBlockDigits(a, q, s);
    BlockDigitsFollowMasks(a, 5 * q, s);
    BlockIsBlockText(a, 5 * q, s);
    BlockTextExtends(a, q, text, Block(a, 5 * q), s);
  }

  lemma {:induction false} AuxIsStream(a: seq<Byte>, q: nat, r: string)
    requires q <= (|a| + 4) / 5 && IsStreamPrefix(a, q, r)
    ensures IsStreamText(a, Aux(a, 5 * q, r))
    decreases |a| + 5 - 5 * q
  {
    if 5 * q < |a| {
      BlockExtendsStream(a, q, r, StreamSymbols(a, q));
      AuxIsStream(a, q + 1, r + Block(a, 5 * q));
    }
  }

  // ------------------------------------------------------------- a decoder

  /** The value of a character in the alphabet of RFC 4648. */
  function DigitOf(c: char): (d: Option<nat>)
    ensures d.Some? ==> d.value < 32
  {
    if 'A' <= c <= 'Z' then Some(c as int - 65)
    else if '2' <= c <= '7' then Some(c as int - 24)
    else None
  }

  /** Bit `e` of a five-bit number, the most significant first. */
  predicate DigitBitOf(d: nat, e: nat) {
    match e
    case 0 => d / 16 % 2 == 1
    case 1 => d / 8 % 2 == 1
    case 2 => d / 4 % 2 == 1
    case 3 => d / 2 % 2 == 1
    case 4 => d % 2 == 1
    case _ => false
  }

  function FromEight(b: nat -> bool): Byte {
    Flag(b(0), 128) | Flag(b(1), 64) | Flag(b(2), 32) | Flag(b(3), 16)
    | Flag(b(4), 8) | Flag(b(5), 4) | Flag(b(6), 2) | Flag(b(7), 1)
  }

  /** Bit `p` of the stream that the digits carry, five bits each. */
  predicate DigitBit(digits: seq<nat>, p: nat) {
    p / 5 < |digits| && DigitBitOf(digits[p / 5], p % 5)
  }

  function DecodedByte(digits: seq<nat>, k: nat): Byte {
    FromEight((e: nat) => DigitBit(digits, 8 * k + e))
  }

  /** The whole bytes in the digits' stream. */
  function DecodedBytes(digits: seq<nat>): (a: seq<Byte>)
    ensures |a| == 5 * |digits| / 8
    ensures forall k | 0 <= k < |a| :: a[k] == DecodedByte(digits, k)
  {
    seq(5 * |digits| / 8, k requires 0 <= k => DecodedByte(digits, k))
  }

  /** The bits after the last whole byte. */
  predicate UnusedAreZero(digits: seq<nat>) {
    forall p | 5 * |digits| / 8 * 8 <= p < 5 * |digits| :: !DigitBit(digits, p)
  }

  function FirstPad(text: string): (n: nat)
    ensures n <= |text|
    ensures n < |text| ==> text[n] == '='
    ensures forall k | 0 <= k < n :: text[k] != '='
  {
    if text == "" || text[0] == '=' then 0 else 1 + FirstPad(text[1..])
  }

  function DigitsOf(text: string): (digits: seq<nat>)
    requires forall k | 0 <= k < |text| :: DigitOf(text[k]).Some?
    ensures |digits| == |text|
    ensures forall k | 0 <= k < |text| :: digits[k] == DigitOf(text[k]).value
  {
    seq(|text|, k requires 0 <= k < |text| => DigitOf(text[k]).value)
  }

  /** Nothing but padding from `n` on, up to a multiple of eight. */
  predicate WellPadded(text: string, n: nat) {
    && |text| % 8 == 0 && n <= |text| < n + 8 && n % 8 in {0, 2, 4, 5, 7}
    && forall k | n <= k < |text| :: text[k] == '='
  }

  /** The decoder of section 6: blocks of eight, padding only at the end and only of the five
      lengths the encoding of whole bytes can have, unused bits zero. */
  function Decode(text: string): Option<seq<Byte>> {
    var n := FirstPad(text);
    if !WellPadded(text, n) || exists k | 0 <= k < n :: DigitOf(text[k]).None? then None
    else
      var digits := DigitsOf(text[..n]);
      if UnusedAreZero(digits) then Some(DecodedBytes(digits)) else None
  }

  lemma DigitIsInvertible(d: nat)
    requires d < 32
    ensures DigitOf(Symbol(d)) == Some(d) && Symbol(d) != '='
  {
  }

  lemma DigitOfIsInvertible(c: char)
    requires DigitOf(c).Some?
    ensures Symbol(DigitOf(c).value) == c
  {
  }

  lemma BitOfFive(f: nat -> bool, e: nat)
    requires e < 5
    ensures DigitBitOf(FiveOf(f), e) == f(e)
  {
  }

  lemma FiveOfBits(d: nat)
    requires d < 32
    ensures FiveOf((e: nat) => DigitBitOf(d, e)) == d
  {
  }

  lemma EightOfBits(b: Byte, f: nat -> bool)
    requires f(0) == Bit(b, 0) && f(1) == Bit(b, 1) && f(2) == Bit(b, 2) && f(3) == Bit(b, 3)
    requires f(4) == Bit(b, 4) && f(5) == Bit(b, 5) && f(6) == Bit(b, 6) && f(7) == Bit(b, 7)
    ensures FromEight(f) == b
  {
  }

  lemma BitsOfEight(f: nat -> bool, k: nat)
    requires k < 8
    ensures Bit(FromEight(f), k) == f(k)
  {
  }

  /** `digits` are the five-bit groups of the stream of `a`. */
  ghost predicate CarryStream(a: seq<Byte>, digits: seq<nat>) {
    forall j | 0 <= j < |digits| :: digits[j] == StreamDigit(a, j)
  }

  lemma BitOfStreamDigit(a: seq<Byte>, j: nat, e: nat)
    requires e < 5
    ensures DigitBitOf(StreamDigit(a, j), e) == StreamBit(a, 5 * j + e)
  {
    BitOfFive((k: nat) => StreamBit(a, 5 * j + k), e);
  }

  lemma DigitBitIsStreamBit(a: seq<Byte>, digits: seq<nat>, p: nat)
    requires CarryStream(a, digits) && p < 5 * |digits|
    ensures DigitBit(digits, p) == StreamBit(a, p)
  {
    BitOfStreamDigit(a, p / 5, p % 5);
    assert p == 5 * (p / 5) + p % 5;
  }

  lemma DecodedByteIsByte(a: seq<Byte>, digits: seq<nat>, k: nat)
    requires CarryStream(a, digits) && 8 * k + 7 < 5 * |digits| && k < |a|
    ensures DecodedByte(digits, k) == a[k]
  {
    var f := (e: nat) => DigitBit(digits, 8 * k + e);
    forall e: nat | e < 8 ensures f(e) == Bit(a[k], e) {
      DigitBitIsStreamBit(a, digits, 8 * k + e);
      assert (8 * k + e) / 8 == k && (8 * k + e) % 8 == e;
    }
    EightOfBits(a[k], f);
  }

  /** The five-bit groups of a tail of `r` bytes. */
  function TailDigits(r: nat): nat
    requires r < 5
  {
    if r == 0 then 0 else if r == 1 then 2 else if r == 2 then 4 else if r == 3 then 5 else 7
  }

  lemma CountsAt(q: nat, r: nat)
    requires r < 5
    ensures DigitCount(5 * q + r) == 8 * q + TailDigits(r)
    ensures PaddedCount(5 * q + r) == if r == 0 then 8 * q else 8 * q + 8
    ensures 5 * (8 * q + TailDigits(r)) / 8 == 5 * q + r
  {
    assert DigitCount(5 * q + r) == 8 * q + (8 * r + 4) / 5;
    assert PaddedCount(5 * q + r) == 8 * q + (r + 4) / 5 * 8;
  }

  lemma Counts(n: nat)
    ensures 5 * DigitCount(n) / 8 == n
    ensures DigitCount(n) <= PaddedCount(n) < DigitCount(n) + 8
    ensures PaddedCount(n) % 8 == 0 && DigitCount(n) % 8 in {0, 2, 4, 5, 7}
  {
    CountsAt(n / 5, n % 5);
  }

  lemma {:induction false} FirstPadIs(text: string, n: nat)
    requires n <= |text| && (n < |text| ==> text[n] == '=')
    requires forall k | 0 <= k < n :: text[k] != '='
    ensures FirstPad(text) == n
  {
  }

  /** What the encoder emits is exactly the bit stream of the bytes, big-endian, cut into fives, filled
      with zeros and padded to eight: through the recursion and all five tails. */
  lemma EncoderEmitsTheStream(a: seq<Byte>)
    ensures IsStreamText(a, Aux(a, 0, ""))
  {
    AuxIsStream(a, 0, "");
  }

  lemma StreamDigitIsRead(a: seq<Byte>, text: string, j: nat)
    requires IsStreamText(a, text) && j < |text| && j < DigitCount(|a|)
    ensures text[j] != '=' && DigitOf(text[j]) == Some(StreamDigit(a, j))
  {
    DigitIsInvertible(StreamDigit(a, j));
  }

  lemma SymbolsAreNotPads(a: seq<Byte>, text: string)
    requires IsStreamText(a, text) && DigitCount(|a|) <= |text|
    ensures forall j | 0 <= j < DigitCount(|a|) :: text[j] != '='
    ensures forall j | DigitCount(|a|) <= j < |text| :: text[j] == '='
  {
    forall j | 0 <= j < DigitCount(|a|) ensures text[j] != '=' {
      StreamDigitIsRead(a, text, j);
    }
  }

  lemma StreamDigitsStart(a: seq<Byte>, text: string)
    requires IsStreamText(a, text)
    ensures DigitCount(|a|) <= |text| && FirstPad(text) == DigitCount(|a|)
  {
    Counts(|a|);
    SymbolsAreNotPads(a, text);
    FirstPadIs(text, DigitCount(|a|));
  }

  lemma StreamDigitsAreRead(a: seq<Byte>, text: string)
    requires IsStreamText(a, text) && DigitCount(|a|) <= |text|
    ensures var n := DigitCount(|a|);
            && (forall j | 0 <= j < n :: DigitOf(text[j]).Some?)
            && (forall j | 0 <= j < n :: DigitOf(text[..n][j]).Some?)
            && CarryStream(a, DigitsOf(text[..n]))
  {
    forall j | 0 <= j < DigitCount(|a|) ensures DigitOf(text[j]) == Some(StreamDigit(a, j)) {
      StreamDigitIsRead(a, text, j);
    }
  }

  lemma StreamDigitsDecode(a: seq<Byte>, digits: seq<nat>)
    requires CarryStream(a, digits) && |digits| == DigitCount(|a|)
    ensures DecodedBytes(digits) == a
    ensures UnusedAreZero(digits)
  {
    Counts(|a|);
    forall p | 5 * |digits| / 8 * 8 <= p < 5 * |digits| ensures !DigitBit(digits, p) {
      DigitBitIsStreamBit(a, digits, p);
    }
    forall k | 0 <= k < |a| ensures DecodedByte(digits, k) == a[k] {
      DecodedByteIsByte(a, digits, k);
    }
  }

  lemma StreamTextDecodes(a: seq<Byte>, text: string)
    requires IsStreamText(a, text)
    ensures Decode(text) == Some(a)
  {
    var n := DigitCount(|a|);
    StreamDigitsStart(a, text);
    StreamIsWellPadded(a, text);
    StreamDigitsAreRead(a, text);
    StreamDigitsDecode(a, DigitsOf(text[..n]));
    DecodeSteps(text, n, a);
  }

  lemma StreamIsWellPadded(a: seq<Byte>, text: string)
    requires IsStreamText(a, text)
    ensures WellPadded(text, DigitCount(|a|))
  {
    Counts(|a|);
  }

  /** What is left of the decoder once the padding is known. */
  lemma DecodeSteps(text: string, n: nat, a: seq<Byte>)
    requires FirstPad(text) == n && WellPadded(text, n)
    requires forall j | 0 <= j < n :: DigitOf(text[j]).Some?
    requires forall j | 0 <= j < n :: DigitOf(text[..n][j]).Some?
    requires UnusedAreZero(DigitsOf(text[..n])) && DecodedBytes(DigitsOf(text[..n])) == a
    ensures Decode(text) == Some(a)
  {
  }

  lemma DecodedBit(digits: seq<nat>, p: nat)
    requires p < 5 * |digits| && UnusedAreZero(digits)
    ensures StreamBit(DecodedBytes(digits), p) == DigitBit(digits, p)
  {
    var k := p / 8;
    if k < 5 * |digits| / 8 {
      BitsOfEight((e: nat) => DigitBit(digits, 8 * k + e), p % 8);
      assert 8 * k + p % 8 == p;
    }
  }

  lemma DigitBitAt(digits: seq<nat>, j: nat, e: nat)
    requires j < |digits| && e < 5
    ensures DigitBit(digits, 5 * j + e) == DigitBitOf(digits[j], e)
  {
    assert (5 * j + e) / 5 == j && (5 * j + e) % 5 == e;
  }

  lemma DecodedBitAt(digits: seq<nat>, j: nat, e: nat)
    requires j < |digits| && e < 5
    requires UnusedAreZero(digits)
    ensures StreamBit(DecodedBytes(digits), 5 * j + e) == DigitBitOf(digits[j], e)
  {
    DigitBitAt(digits, j, e);
    DecodedBit(digits, 5 * j + e);
  }

  lemma DecodedDigit(digits: seq<nat>, j: nat)
    requires j < |digits| && digits[j] < 32
    requires UnusedAreZero(digits)
    ensures StreamDigit(DecodedBytes(digits), j) == digits[j]
  {
    var f, g := (e: nat) => StreamBit(DecodedBytes(digits), 5 * j + e), (e: nat) => DigitBitOf(digits[j], e);
    forall e: nat | e < 5 ensures f(e) == g(e) {
      DecodedBitAt(digits, j, e);
    }
    SameBitsSameDigit(f, g);
    FiveOfBits(digits[j]);
  }

  lemma CountsOfDigits(n: nat, length: nat)
    requires n % 8 in {0, 2, 4, 5, 7} && length % 8 == 0 && n <= length < n + 8
    ensures DigitCount(5 * n / 8) == n && PaddedCount(5 * n / 8) == length
  {
    var q, d := n / 8, n % 8;
    var r := if d == 0 then 0 else if d == 2 then 1 else if d == 4 then 2 else if d == 5 then 3 else 4;
    CountsAt(q, r);
  }

  lemma DecodedSymbol(text: string, j: nat)
    requires forall k | 0 <= k < |text| :: DigitOf(text[k]).Some?
    requires j < |text| && UnusedAreZero(DigitsOf(text))
    ensures text[j] == Symbol(StreamDigit(DecodedBytes(DigitsOf(text)), j))
  {
    DecodedDigit(DigitsOf(text), j);
    DigitOfIsInvertible(text[j]);
  }

  lemma SymbolsArePadded(a: seq<Byte>, text: string, n: nat)
    requires n == DigitCount(|a|) <= |text| == PaddedCount(|a|)
    requires forall j | 0 <= j < n :: text[j] == Symbol(StreamDigit(a, j))
    requires forall k | n <= k < |text| :: text[k] == '='
    ensures IsStreamText(a, text)
  {
  }

  lemma DecodedIsStreamText(text: string)
    requires Decode(text).Some?
    ensures IsStreamText(Decode(text).value, text)
  {
    var n := FirstPad(text);
    var digits, a := DigitsOf(text[..n]), Decode(text).value;
    assert a == DecodedBytes(digits);
    CountsOfDigits(n, |text|);
    forall j | 0 <= j < n ensures text[j] == Symbol(StreamDigit(a, j)) {
      DecodedSymbol(text[..n], j);
    }
    SymbolsArePadded(a, text, n);
  }

  /** Encoding and decoding are inverse to each other: the decoder returns `a` for the encoding of `a`
      and for no other text. */
  lemma DecodeInvertsEncode(a: seq<Byte>, text: string)
    ensures Decode(text) == Some(a) <==> text == Aux(a, 0, "")
  {
    EncoderEmitsTheStream(a);
    StreamTextDecodes(a, Aux(a, 0, ""));
    if Decode(text) == Some(a) {
      DecodedIsStreamText(text);
      assert text == Aux(a, 0, "");
    }
  }

  lemma LowByteValue(n: int)
    requires 0 <= n < 256
    ensures LowByte(n) as int == n
  {
    assert n % 256 == n;
  }

  lemma LowByteIsInjective(m: int, n: int)
    requires 0 <= m < 256 && 0 <= n < 256 && LowByte(m) == LowByte(n)
    ensures m == n
  {
    LowByteValue(m);
    LowByteValue(n);
  }

  predicate IsByteArray(x: seq<int>) {
    forall n | n in x :: 0 <= n < 256
  }

  /** On arrays of bytes the encoder loses nothing. */
  lemma EncodeIsInjectiveOnBytes(x: seq<int>, y: seq<int>)
    requires IsByteArray(x) && IsByteArray(y)
    ensures Encode(x).Encoded? && (Encode(x) == Encode(y) ==> x == y)
  {
    if Encode(x) == Encode(y) {
      DecodeInvertsEncode(LowBytes(x), Aux(LowBytes(x), 0, ""));
      DecodeInvertsEncode(LowBytes(y), Aux(LowBytes(y), 0, ""));
      assert LowBytes(x) == LowBytes(y);
      forall i | 0 <= i < |x| ensures x[i] == y[i] {
        assert LowBytes(x)[i] == LowBytes(y)[i] && x[i] in x && y[i] in y;
        LowByteIsInjective(x[i], y[i]);
      }
    }
  }

  /** Accepted arrays have the same encoding exactly when they have the same low bytes. */
  lemma SameEncodingExactly(x: seq<int>, y: seq<int>)
    requires Encode(x).Encoded? && Encode(y).Encoded?
    ensures Encode(x) == Encode(y) <==> LowBytes(x) == LowBytes(y)
  {
    DecodeInvertsEncode(LowBytes(x), Aux(LowBytes(x), 0, ""));
    DecodeInvertsEncode(LowBytes(y), Aux(LowBytes(y), 0, ""));
  }

  /** Only elements of 256 and above are refused; negative ones are not. */
  lemma RefusedExactly(x: seq<int>)
    ensures Encode(x) == NotBytes <==> exists i :: 0 <= i < |x| && x[i] >= 256
  {
    if i :| 0 <= i < |x| && x[i] >= 256 {
      assert x[i] in x;
    }
  }

  function Reduced(x: seq<int>): (y: seq<int>)
    ensures |y| == |x| && forall i | 0 <= i < |x| :: y[i] == x[i] % 256
  {
    seq(|x|, i requires 0 <= i < |x| => x[i] % 256)
  }

  lemma ReducedIsByteArray(x: seq<int>)
    ensures IsByteArray(Reduced(x)) && Encode(Reduced(x)).Encoded? && LowBytes(Reduced(x)) == LowBytes(x)
    ensures Reduced(x) == x ==> IsByteArray(x)
  {
    forall i | 0 <= i < |x| ensures LowBytes(Reduced(x))[i] == LowBytes(x)[i] {
      assert x[i] % 256 % 256 == x[i] % 256;
    }
  }

  ghost predicate IsOnlyByteArrayLike(x: seq<int>) {
    forall y | IsByteArray(y) && Encode(y) == Encode(x) :: y == x
  }

  /** Which accepted arrays the encoder keeps apart from all byte arrays: exactly the byte arrays themselves. An
      element below 0, which the check lets pass, encodes like its low byte. */
  lemma NegativeElementsCollide(x: seq<int>)
    requires Encode(x).Encoded?
    ensures IsByteArray(x) <==> IsOnlyByteArrayLike(x)
    ensures IsByteArray(Reduced(x)) && Encode(Reduced(x)) == Encode(x)
  {
    ReducedIsByteArray(x);
    SameEncodingExactly(x, Reduced(x));
    if IsByteArray(x) {
      forall y | IsByteArray(y) && Encode(y) == Encode(x) ensures y == x {
        EncodeIsInjectiveOnBytes(x, y);
      }
    }
  }

  /** A test vector of section 10 of RFC 4648: the encoding of "fooba", one whole block. */
  lemma Fooba()
    ensures Encode([102, 111, 111, 98, 97]) == Encoded("MZXW6YTB")
  {
    var input, a: seq<Byte> := [102, 111, 111, 98, 97], [102, 111, 111, 98, 97];
    FoobaBytes(input, a);
    FoobaBlock(a);
    OneBlock(a, "MZXW6YTB");
  }

  lemma OneBlock(a: seq<Byte>, block: string)
    requires 0 < |a| <= 5 && Block(a, 0) == block
    ensures Aux(a, 0, "") == block
  {
    assert Aux(a, 0, "") == Aux(a, 5, "" + block);
  }

  lemma FoobaBytes(input: seq<int>, a: seq<Byte>)
    requires input == [102, 111, 111, 98, 97] && a == [102, 111, 111, 98, 97]
    ensures LowBytes(input) == a && IsByteArray(input)
  {
    forall i | 0 <= i < 5 ensures LowBytes(input)[i] == a[i] && input[i] < 256 {
      LowByteValue(input[i]);
    }
  }

  lemma FoobaBlock(a: seq<Byte>)
    requires a == [102, 111, 111, 98, 97]
    ensures Block(a, 0) == "MZXW6YTB"
  {
    assert (a[0] & 248) >> 3 == 12 && ((a[0] & 7) << 2) | ((a[1] & 192) >> 6) == 25;
    assert (a[1] & 62) >> 1 == 23 && ((a[1] & 1) << 4) | ((a[2] & 240) >> 4) == 22;
    assert ((a[2] & 15) << 1) | ((a[3] & 128) >> 7) == 30 && (a[3] & 124) >> 2 == 24;
    assert ((a[3] & 3) << 3) | ((a[4] & 224) >> 5) == 19 && a[4] & 31 == 1;
    assert Digit(12) == 'M' && Digit(25) == 'Z' && Digit(23) == 'X' && Digit(22) == 'W';
    assert Digit(30) == '6' && Digit(24) == 'Y' && Digit(19) == 'T' && Digit(1) == 'B';
    assert FourChars(a, 0) == "MZXW6Y";
  }
}
