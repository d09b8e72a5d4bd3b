/** SHA-1 as FIPS 180-4 defines it: padding in section 5.1.1, the hash computation in section 6.1.2. */
module Sha1Spec {
  import opened Bytes

  const WORD_LIMIT := 0x1_0000_0000
  const LENGTH_LIMIT := 0x1_0000_0000_0000_0000

  // What is left of a length in whole words of bytes, blocks of words and blocks of bytes.

  function Mod4(n: int): (r: nat)
    ensures r < 4 && (n >= 0 ==> r <= n)
  {
    n % 4
  }

  function Mod16(n: int): (r: nat)
    ensures r < 16 && (n >= 0 ==> r <= n)
  {
    n % 16
  }

  function Mod64(n: int): (r: nat)
    ensures r < 64 && (n >= 0 ==> r <= n)
  {
    n % 64
  }

  type Word = x: int | 0 <= x < 0x1_0000_0000

  // ---------- operations on words ----------

  function Add(x: int): Word {
    x % WORD_LIMIT
  }

  function Rotl1(x: Word): Word {
    x * 2 % WORD_LIMIT + x / 0x8000_0000
  }

  function Rotl5(x: Word): Word {
    x * 32 % WORD_LIMIT + x / 0x800_0000
  }

  function Rotl30(x: Word): Word {
    x * 0x4000_0000 % WORD_LIMIT + x / 4
  }

  function OfBits(x: bv32): Word {
    x as Word
  }

  function Xor(x: Word, y: Word): Word {
    OfBits((x as bv32) ^ (y as bv32))
  }

  function Ch(x: Word, y: Word, z: Word): Word {
    var u, v, w := x as bv32, y as bv32, z as bv32;
    OfBits((u & v) ^ (!u & w))
  }

  function Parity(x: Word, y: Word, z: Word): Word {
    var u, v, w := x as bv32, y as bv32, z as bv32;
    OfBits(u ^ v ^ w)
  }

  function Maj(x: Word, y: Word, z: Word): Word {
    var u, v, w := x as bv32, y as bv32, z as bv32;
    OfBits((u & v) ^ (u & w) ^ (v & w))
  }

  /** The function of round `t`. */
  function Mix(t: nat, x: Word, y: Word, z: Word): Word {
    if t < 20 then Ch(x, y, z) else if 40 <= t < 60 then Maj(x, y, z) else Parity(x, y, z)
  }

  function K(t: nat): Word {
    if t < 20 then 0x5a827999 else if t < 40 then 0x6ed9eba1 else if t < 60 then 0x8f1bbcdc else 0xca62c1d6
  }

  // ---------- a block ----------

  datatype Hash = Hash(a: Word, b: Word, c: Word, d: Word, e: Word)

  const INITIAL := Hash(0x67452301, 0xefcdab89, 0x98badcfe, 0x10325476, 0xc3d2e1f0)

  function WordAt(s: seq<Byte>, i: nat): Word
    requires i + 4 <= |s|
  {
    BigEndian(s[i], s[i + 1], s[i + 2], s[i + 3])
  }

  function BigEndian(a: int, b: int, c: int, d: int): Word
    requires 0 <= a < 256 && 0 <= b < 256 && 0 <= c < 256 && 0 <= d < 256
  {
    a * 0x100_0000 + b * 0x1_0000 + c * 0x100 + d
  }

  /** The words of a text of whole words. */
  function Words(s: seq<Byte>): (w: seq<Word>)
    ensures |w| == |s| / 4
  {
    if |s| < 4 then [] else [WordAt(s, 0)] + Words(s[4..])
  }

  /** The message schedule up to word `t`. */
  function Schedule(w: seq<Word>, t: nat): (r: seq<Word>)
    requires |w| == 16 && t >= 16
    ensures |r| == t
  {
    if t == 16 then w else
      var r := Schedule(w, t - 1);
      r + [Rotl1(Xor(Xor(Xor(r[t - 4], r[t - 9]), r[t - 15]), r[t - 17]))]
  }

  function Round(t: nat, h: Hash, w: Word): Hash {
    Hash(Add(Rotl5(h.a) + Mix(t, h.b, h.c, h.d) + h.e + K(t) + w), h.a, Rotl30(h.b), h.c, h.d)
  }

  function Rounds(h: Hash, w: seq<Word>, t: nat): Hash
    requires t <= |w|
  {
    if t == 0 then h else Round(t - 1, Rounds(h, w, t - 1), w[t - 1])
  }

  function Sum(h: Hash, k: Hash): Hash {
    Hash(Add(h.a + k.a), Add(h.b + k.b), Add(h.c + k.c), Add(h.d + k.d), Add(h.e + k.e))
  }

  /** The hash after a block of sixteen words, and eighty rounds. */
  function Compress(h: Hash, w: seq<Word>): Hash
    requires |w| == 16
  {
    var schedule := Schedule(w, 5 * |w|);
    Sum(h, Rounds(h, schedule, |schedule|))
  }

  // ---------- a message ----------

  /** The hash after all blocks of `w`. */
  function Fold(w: seq<Word>): Hash
    requires Mod16(|w|) == 0
    decreases |w|
  {
    if w == [] then INITIAL else Compress(Fold(w[..|w| - 16]), w[|w| - 16..])
  }

  function Zeros(n: nat): seq<Byte> {
    seq(n, _ => 0)
  }

  /** The eight bytes of the length in bits, most significant first. */
  function LengthBytes(bits: nat): seq<Byte> {
    WordBytes(Add(bits / WORD_LIMIT)) + WordBytes(Add(bits))
  }

  function WordBytes(x: Word): seq<Byte> {
    [x / 0x100_0000, x / 0x1_0000 % 0x100, x / 0x100 % 0x100, x % 0x100]
  }

  /** How many zeros there are between the one bit's byte and the length. */
  function PadZeros(length: nat): (n: nat)
    ensures (length + 1 + n + 8) % 64 == 0 && n < 64
  {
    if length % 64 <= 55 then 55 - length % 64 else 119 - length % 64
  }

  /** The padded message; its length is a multiple of 64. */
  function Pad(m: seq<Byte>): (p: seq<Byte>)
    ensures Mod64(|p|) == 0 && |p| == |m| + 1 + PadZeros(|m|) + 8
  {
    m + [0x80] + Zeros(PadZeros(|m|)) + LengthBytes(8 * |m|)
  }

  /** The message that its parts make up. */
  function Joined(parts: seq<seq<Byte>>): seq<Byte> {
    if parts == [] then [] else Joined(parts[..|parts| - 1]) + parts[|parts| - 1]
  }

  lemma NoParts()
    ensures Joined([]) == []
  {
  }

  lemma JoinedNext(parts: seq<seq<Byte>>, i: nat)
    requires i < |parts|
    ensures Joined(parts[..i + 1]) == Joined(parts[..i]) + parts[i] && parts[i][0..|parts[i]|] == parts[i]
  {
    assert parts[..i + 1][..i] == parts[..i];
  }

  lemma WholeBlocks(n: nat)
    ensures n % 64 == 0 <==> n % 4 == 0 && n / 4 % 16 == 0
  {
  }

  function Digest(m: seq<Byte>): seq<Byte> {
    var padded := Pad(m);
    WholeBlocks(|padded|);
    HashBytes(Fold(Words(padded)))
  }

  function HashBytes(h: Hash): (s: seq<Byte>)
    ensures |s| == 20
  {
    WordBytes(h.a) + WordBytes(h.b) + WordBytes(h.c) + WordBytes(h.d) + WordBytes(h.e)
  }

  // ---------- the functions as the programs write them ----------

  function F1(x: Word, y: Word, z: Word): Word {
    var u, v, w := x as bv32, y as bv32, z as bv32;
    OfBits((u & v) | (!u & w))
  }

  function F3(x: Word, y: Word, z: Word): Word {
    var u, v, w := x as bv32, y as bv32, z as bv32;
    OfBits((u & v) | (u & w) | (v & w))
  }

  lemma ChBits(x: bv32, y: bv32, z: bv32)
    ensures (x & y) | (!x & z) == (x & y) ^ (!x & z)
  {
  }

  lemma MajBits(x: bv32, y: bv32, z: bv32)
    ensures (x & y) | (x & z) | (y & z) == (x & y) ^ (x & z) ^ (y & z)
  {
  }

  lemma F1IsCh(x: Word, y: Word, z: Word)
    ensures F1(x, y, z) == Ch(x, y, z)
  {
    ChBits(x as bv32, y as bv32, z as bv32);
  }

  lemma F3IsMaj(x: Word, y: Word, z: Word)
    ensures F3(x, y, z) == Maj(x, y, z)
  {
    MajBits(x as bv32, y as bv32, z as bv32);
  }
}
