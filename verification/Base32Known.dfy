/** The alphabet of Base32, and a test vector. */
module Base32Known {
  import opened Bytes
  import opened Base32

  const UPPER := "ABCDEFGHIJKLMNOPQRSTUVWXYZ234567"
  const LOWER := "abcdefghijklmnopqrstuvwxyz234567"

  lemma AlphabetIs(d: nat)
    requires d < 32
    ensures Alphabet(d) == UPPER[d] as int
  {
  }

  function LowerDigit(d: nat): Byte
    requires d < 32
  {
    if d < 26 then 97 + d else 24 + d
  }

  lemma LowerIs(d: nat)
    requires d < 32
    ensures LowerDigit(d) == LOWER[d] as int
  {
  }

  lemma DigitMeans(c: Byte, d: nat)
    requires d < 32
    ensures DigitOf(c) == Some(d) <==>
            || c == Alphabet(d) || c == LowerDigit(d)
            || (d == 14 && c == '0' as int) || (d == 11 && c == '1' as int) || (d == 1 && c == '8' as int)
  {
  }

  /** The digits that are read: letters of both cases, and three figures for the letters O, L and B. */
  lemma DigitIs(c: Byte, d: nat)
    requires d < 32
    ensures DigitOf(c) == Some(d) <==>
            || c == UPPER[d] as int || c == LOWER[d] as int
            || (d == 14 && c == '0' as int) || (d == 11 && c == '1' as int) || (d == 1 && c == '8' as int)
    ensures UPPER[14] == 'O' && UPPER[11] == 'L' && UPPER[1] == 'B'
  {
    DigitMeans(c, d);
    hide Alphabet, LowerDigit, DigitOf;
    AlphabetIs(d);
    LowerIs(d);
  }

  lemma SeparatorIs(c: Byte)
    ensures Separator(c) <==> c == ' ' as int || c == '\t' as int || c == '\r' as int || c == '\n' as int || c == '-' as int
  {
  }

  function Bit(b: bool): nat {
    if b then 1 else 0
  }

  lemma FiveBits(a: bool, b: bool, c: bool, d: bool, e: bool)
    ensures Value([a, b, c, d, e]) == 16 * Bit(a) + 8 * Bit(b) + 4 * Bit(c) + 2 * Bit(d) + Bit(e)
  {
    ValueNext([], a);
    ValueNext([a], b);
    ValueNext([a, b], c);
    ValueNext([a, b, c], d);
    ValueNext([a, b, c, d], e);
    assert [] + [a] == [a] && [a] + [b] == [a, b] && [a, b] + [c] == [a, b, c];
    assert [a, b, c] + [d] == [a, b, c, d] && [a, b, c, d] + [e] == [a, b, c, d, e];
  }

  lemma ValueNext(s: Bits, x: bool)
    ensures Value(s + [x]) == 2 * Value(s) + Bit(x)
  {
    assert (s + [x])[..|s|] == s;
  }

  function Halved(n: nat, times: nat): nat {
    if times == 0 then n else Halved(n / 2, times - 1)
  }

  /** The bits of a number, the highest one first. */
  lemma {:induction false} BitAt(n: nat, k: nat, j: nat)
    requires j < k
    ensures BitsOf(n, k)[j] == (Halved(n, k - 1 - j) % 2 == 1)
    decreases k
  {
    if j < k - 1 {
      BitAt(n / 2, k - 1, j);
    }
  }

  lemma ByteBits(n: Byte)
    ensures BitsOf(n, 8) == [Halved(n, 7) % 2 == 1, Halved(n, 6) % 2 == 1, Halved(n, 5) % 2 == 1, Halved(n, 4) % 2 == 1,
                             Halved(n, 3) % 2 == 1, Halved(n, 2) % 2 == 1, Halved(n, 1) % 2 == 1, Halved(n, 0) % 2 == 1]
  {
    hide BitsOf, Halved;
    forall j: nat | j < 8
      ensures BitsOf(n, 8)[j] == (Halved(n, 7 - j) % 2 == 1)
    {
      BitAt(n, 8, j);
    }
  }

  lemma TwoBytes()
    ensures BitsOf(102, 8) == [false, true, true, false, false, true, true, false]
    ensures BitsOf(111, 8) == [false, true, true, false, true, true, true, true]
  {
    hide BitsOf;
    ByteBits(102);
    ByteBits(111);
  }

  /** Section 10 of RFC 4648: the encoding of "fo" is "MZXQ", before the padding. */
  lemma TestVector()
    ensures Encoded(['f' as int, 'o' as int]) == ['M' as int, 'Z' as int, 'X' as int, 'Q' as int]
  {
    hide Value, Padded, BitsOf, Flatten;
    var b := Padded([102, 111]);
    FoBits();
    assert b[0..5] == [false, true, true, false, false] && b[5..10] == [true, true, false, false, true];
    assert b[10..15] == [true, false, true, true, true] && b[15..20] == [true, false, false, false, false];
    FiveBits(false, true, true, false, false);
    FiveBits(true, true, false, false, true);
    FiveBits(true, false, true, true, true);
    FiveBits(true, false, false, false, false);
    assert DigitAt(b, 0) == 77 && DigitAt(b, 1) == 90 && DigitAt(b, 2) == 88 && DigitAt(b, 3) == 81;
  }

  /** 01100110 01101111, and four zeros */
  lemma FoBits()
    ensures Padded([102, 111]) ==
            [false, true, true, false, false, true, true, false, false, true, true, false, true, true, true, true, false, false, false, false]
  {
    hide BitsOf;
    TwoBytes();
    FlattenAppend([], 102, 8);
    FlattenAppend([102], 111, 8);
    assert [] + [102] == [102] && [102] + [111] == [102, 111];
  }
}
