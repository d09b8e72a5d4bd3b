/** The Java digest: it buffers a word of bytes, and a block of words. */
module Sha1Digest {
  import opened Bytes
  import opened Sha1Spec
  import opened Sha1Rounds
  import opened Sha1Info

  function ZeroWords(n: nat): seq<Word> {
    seq(n, _ => 0)
  }

  /** The long that counts the bytes, as a number below 2^64. */
  function Wrapped(n: nat): nat {
    n % LENGTH_LIMIT
  }

  lemma WrappedAdd(n: nat, k: nat)
    ensures Wrapped(Wrapped(n) + k) == Wrapped(n + k)
  {
  }

  // ---------- words of bytes ----------

  lemma WordBack(x: Word)
    ensures var s := WordBytes(x); BigEndian(s[0], s[1], s[2], s[3]) == x
  {
    var a, b, c := x / 0x100, x / 0x1_0000, x / 0x100_0000;
    assert b == a / 0x100 && c == b / 0x100;
  }

  lemma LengthWords(bits: nat)
    ensures Words(LengthBytes(bits)) == [Add(bits / WORD_LIMIT), Add(bits)]
  {
    hide WordBytes, BigEndian, Add;
    var high, low := Add(bits / WORD_LIMIT), Add(bits);
    WordBack(high);
    WordBack(low);
    BytesOf(high);
    BytesOf(low);
    WordsAppend(WordBytes(high), WordBytes(low));
    OneWord(WordBytes(high));
    OneWord(WordBytes(low));
  }

  lemma BytesOf(x: Word)
    ensures |WordBytes(x)| == 4
  {
  }

  lemma OneWord(s: seq<Byte>)
    requires |s| == 4
    ensures Words(s) == [BigEndian(s[0], s[1], s[2], s[3])]
  {
    assert s[4..] == [];
    assert Words(s) == [WordAt(s, 0)] + Words(s[4..]);
  }

  lemma ZerosAreWords(n: nat)
    ensures Words(Zeros(4 * n)) == ZeroWords(n)
  {
    hide Words;
    var zeros := Zeros(4 * n);
    forall i | 0 <= i < n
      ensures Words(zeros)[i] == 0
    {
      WordsIndex(zeros, i);
    }
  }

  lemma NoWords()
    ensures Words([]) == [] && Fold([]) == INITIAL
  {
  }

  class Sha1Digest {
    const xBuf: array<Byte>
    var xBufOff: nat
    var byteCount: nat
    var H1: Word
    var H2: Word
    var H3: Word
    var H4: Word
    var H5: Word
    const X: array<Word>
    var xOff: nat
    ghost var message: seq<Byte>

    ghost predicate Shape() {
      xBuf.Length == 4 && X.Length == 80
    }

    ghost function Current(): Hash
      reads this`H1, this`H2, this`H3, this`H4, this`H5
    {
      Hash(H1, H2, H3, H4, H5)
    }

    /** The words `w` have been processed: whole blocks are hashed, and the rest is at the start of the buffer. */
    ghost predicate Holds(w: seq<Word>)
      reads this`H1, this`H2, this`H3, this`H4, this`H5, this`xOff, X
    {
      && Shape() && xOff == Mod16(|w|) && X[..xOff] == w[|w| - xOff..] && (forall k :: xOff <= k < 16 ==> X[k] == 0)
      && Current() == Fold(w[..|w| - xOff])
    }

    /** Everything but the count of bytes. */
    ghost predicate Buffered(m: seq<Byte>)
      reads this, xBuf, X
    {
      && Shape() && xBufOff == Mod4(|m|) && xBuf[..xBufOff] == m[|m| - xBufOff..]
      && Holds(Words(m[..|m| - xBufOff]))
    }

    ghost predicate Valid()
      reads this, xBuf, X
    {
      Buffered(message) && byteCount == Wrapped(|message|)
    }

    constructor ()
      ensures Valid() && message == [] && fresh(xBuf) && fresh(X)
    {
      xBuf := new Byte[4];
      X := new Word[80];
      xBufOff, byteCount, xOff := 0, 0, 0;
      H1, H2, H3, H4, H5 := 0, 0, 0, 0, 0;
      new;
      Reset();
    }

    /** reset, of both classes */
    method Reset()
      requires Shape()
      modifies this, xBuf, X
      ensures Valid() && message == []
    {
      hide Words, Fold, Holds;
      byteCount, xBufOff := 0, 0;
      forall i | 0 <= i < xBuf.Length {
        xBuf[i] := 0;
      }
      message := [];
      ResetChain();
      NoWords();
      assert message[..0] == message && message[0..] == xBuf[..0];
    }

    /** The part of reset in the subclass. */
    method ResetChain()
      requires Shape()
      modifies this`H1, this`H2, this`H3, this`H4, this`H5, this`xOff, X
      ensures Holds([])
    {
      hide Fold;
      NoWords();
      H1, H2, H3, H4, H5 := 0x67452301, 0xefcdab89, 0x98badcfe, 0x10325476, 0xc3d2e1f0;
      xOff := 0;
      var i := 0;
      while i != X.Length
        invariant i <= X.Length && forall k :: 0 <= k < i ==> X[k] == 0
        modifies X
      {
        X[i] := 0;
        i := i + 1;
      }
    }

    /** The expansion of 16 words into 80. */
    method Expand()
      requires Shape()
      modifies X
      ensures X[..] == Schedule(old(X[..16]), 80)
    {
      hide Xor, Rotl1;
      ghost var words := X[..16];
      var i := 16;
      while i < 80
        invariant 16 <= i <= 80 && X[..i] == Schedule(words, i)
        modifies X
      {
        ghost var r := Schedule(words, i);
        assert X[i - 3] == r[i - 3] && X[i - 8] == r[i - 8] && X[i - 14] == r[i - 14] && X[i - 16] == r[i - 16];
        var t := Xor(Xor(Xor(X[i - 3], X[i - 8]), X[i - 14]), X[i - 16]);
        X[i] := Rotl1(t);
        assert X[..i + 1] == X[..i] + [X[i]];
        i := i + 1;
      }
      assert X[..] == X[..80];
    }

    /** processBlock */
    method ProcessBlock()
      requires Shape()
      modifies this`H1, this`H2, this`H3, this`H4, this`H5, this`xOff, X
      ensures Current() == Compress(old(Current()), old(X[..16]))
      ensures xOff == 0 && forall k :: 0 <= k < 16 ==> X[k] == 0
    {
      hide Rounds, Schedule;
      Expand();
      var r := FiveStepRounds(Hash(H1, H2, H3, H4, H5), X[..]);
      H1 := Add(H1 + r.a);
      H2 := Add(H2 + r.b);
      H3 := Add(H3 + r.c);
      H4 := Add(H4 + r.d);
      H5 := Add(H5 + r.e);
      xOff := 0;
      forall k | 0 <= k < 16 {
        X[k] := 0;
      }
    }

    /** processWord, on the four bytes at `inOff` */
    method ProcessWord(input: seq<Byte>, inOff: nat, ghost w: seq<Word>)
      requires Holds(w) && inOff + 4 <= |input|
      modifies this`H1, this`H2, this`H3, this`H4, this`H5, this`xOff, X
      ensures Holds(w + [WordAt(input, inOff)])
    {
      hide Fold, Compress, BigEndian, Schedule, Rounds, Mod16;
      var n := BigEndian(input[inOff], input[inOff + 1], input[inOff + 2], input[inOff + 3]);
      ghost var next, tail := w + [n], X[..xOff];
      NextWord(w, n, xOff);
      X[xOff] := n;
      xOff := xOff + 1;
      assert X[..xOff] == tail + [n];
      if xOff == 16 {
        FoldAppend(next[..|next| - 16], next[|next| - 16..]);
        ProcessBlock();
      }
    }

    /** update, of one byte */
    method UpdateByte(b: Byte)
      requires Valid()
      modifies this, xBuf, X
      ensures Valid() && message == old(message) + [b]
    {
      hide Holds, Words, Wrapped, Mod4, WordAt, BigEndian;
      ghost var next, whole, tail := message + [b], message[..|message| - xBufOff], xBuf[..xBufOff];
      NextByte(message, b, xBufOff);
      xBuf[xBufOff] := b;
      xBufOff := xBufOff + 1;
      assert xBuf[..xBufOff] == tail + [b];
      if xBufOff == xBuf.Length {
        assert xBuf[..] == xBuf[..4];
        ProcessWord(xBuf[..], 0, Words(whole));
        xBufOff := 0;
        WordsOfNext(whole, xBuf[..]);
      }
      byteCount := Wrapped(byteCount + 1);
      WrappedAdd(|message|, 1);
      message := next;
    }

    /** The body of the loop over whole words. */
    method UpdateWord(input: seq<Byte>, at: nat)
      requires Valid() && xBufOff == 0 && at + 4 <= |input|
      modifies this, xBuf, X
      ensures Valid() && xBufOff == 0 && message == old(message) + input[at..at + 4]
    {
      hide Holds, Words, Wrapped, Mod4;
      ghost var word := input[at..at + 4];
      WrappedAdd(|message|, 4);
      assert message[..|message|] == message;
      ProcessWord(input, at, Words(message));
      WordsOfNext(message, word);
      message := message + word;
      assert message[..|message|] == message;
      byteCount := Wrapped(byteCount + xBuf.Length);
    }

    /** update, of the bytes from `inOff` on: it fills a word, takes whole words, and keeps the rest. */
    method Update(input: seq<Byte>, inOff: nat, len: nat)
      requires Valid() && inOff + len <= |input|
      modifies this, xBuf, X
      ensures Valid() && message == old(message) + input[inOff..inOff + len]
    {
      hide Valid;
      ghost var was := message;
      var at, end := inOff, inOff + len;
      assert was + input[inOff..inOff] == was;
      WordSize();
      while xBufOff != 0 && at < end
        invariant inOff <= at <= end && Valid() && message == was + input[inOff..at]
        decreases end - at
      {
        UpdateByte(input[at]);
        Extended(was, input, inOff, at, at + 1);
        at := at + 1;
      }
      while end - at > xBuf.Length
        invariant inOff <= at <= end && Valid() && message == was + input[inOff..at] && (at < end ==> xBufOff == 0)
        decreases end - at
      {
        UpdateWord(input, at);
        Extended(was, input, inOff, at, at + 4);
        at := at + xBuf.Length;
      }
      while at < end
        invariant inOff <= at <= end && Valid() && message == was + input[inOff..at]
        decreases end - at
      {
        UpdateByte(input[at]);
        Extended(was, input, inOff, at, at + 1);
        at := at + 1;
      }
    }

    /** processLength and processBlock: the length goes to the end of a block, of another one if need be. */
    method ProcessLength(bitLength: nat, ghost w: seq<Word>)
      requires Holds(w) && bitLength < LENGTH_LIMIT
      modifies this`H1, this`H2, this`H3, this`H4, this`H5, this`xOff, X
      ensures Mod16(|w + LengthPadding(|w|, bitLength)|) == 0
      ensures Current() == Fold(w + LengthPadding(|w|, bitLength))
    {
      hide Fold, Compress, Schedule, Rounds;
      ghost var done, tail := w[..|w| - xOff], w[|w| - xOff..];
      assert w == done + tail;
      if xOff > 14 {
        ghost var block := X[..16];
        assert block == tail + [0];
        FoldAppend(done, block);
        ProcessBlock();
        done, tail := done + block, [];
      }
      var high, low := bitLength / WORD_LIMIT, bitLength % WORD_LIMIT;
      X[14] := high;
      X[15] := low;
      ghost var block := X[..16];
      assert block == tail + ZeroWords(14 - |tail|) + [high, low];
      FoldAppend(done, block);
      PaddingFits(w, done, tail, bitLength);
      ProcessBlock();
    }

    /** finish: the padding, and the last block */
    method Finish()
      requires Valid()
      modifies this, xBuf, X
      ensures Current() == Hashed(Pad(old(message)))
    {
      hide Valid, Pad, Hashed, Words;
      ghost var m, zeros := message, 0;
      var bitLength := byteCount * 8 % LENGTH_LIMIT;
      BytesCounted();
      BitLength(byteCount, |m|);
      UpdateByte(128);
      BytesCounted();
      assert Zeros(0) == [] && m + [0x80] == m + [0x80] + Zeros(0);
      ghost var need := MissingZeros(|m|);
      while xBufOff != 0
        invariant Valid() && message == m + [0x80] + Zeros(zeros) && zeros <= need && xBufOff == Mod4(|message|)
        decreases need - zeros
      {
        UpdateByte(0);
        BytesCounted();
        zeros := zeros + 1;
        assert Zeros(zeros) == Zeros(zeros - 1) + [0];
      }
      WholeWords();
      PadWords(m, message, zeros);
      ProcessLength(bitLength, Words(message));
      HashedPad(m);
    }

    lemma BytesCounted()
      requires Valid()
      ensures byteCount == Wrapped(|message|) && xBufOff == Mod4(|message|)
    {
    }

    lemma WholeWords()
      requires Valid() && xBufOff == 0
      ensures Holds(Words(message))
    {
      assert message[..|message|] == message;
    }

    /** doFinal: the digest of everything that was given to update; then the object is as new. */
    method DoFinal() returns (out: seq<Byte>)
      requires Valid()
      modifies this, xBuf, X
      ensures out == Digest(old(message)) && Valid() && message == []
    {
      hide Valid, Hashed, Pad, HashBytes;
      ShapeIs();
      DigestIs(message);
      Finish();
      out := HashBytes(Hash(H1, H2, H3, H4, H5));
      Reset();
    }

    lemma ShapeIs()
      requires Valid()
      ensures Shape()
    {
    }

    lemma WordSize()
      requires Valid()
      ensures xBuf.Length == 4
    {
    }
  }

  /** A whole computation: the digest is the one of the C code, however the message is cut. */
  method DigestOf(parts: seq<seq<Byte>>) returns (out: seq<Byte>)
    ensures out == Digest(Joined(parts))
  {
    hide Digest, Words, Pad, Hashed, Wrapped, Mod4, Joined, Sha1Digest.Valid;
    var digest := new Sha1Digest();
    NoParts();
    assert parts[..0] == [];
    for i := 0 to |parts|
      invariant digest.Valid() && digest.message == Joined(parts[..i])
    {
      JoinedNext(parts, i);
      digest.Update(parts[i], 0, |parts[i]|);
    }
    assert parts[..|parts|] == parts;
    out := digest.DoFinal();
  }

  lemma Extended(was: seq<Byte>, input: seq<Byte>, from: nat, at: nat, next: nat)
    requires from <= at <= next <= |input|
    ensures was + input[from..at] + input[at..next] == was + input[from..next]
    ensures next == at + 1 ==> was + input[from..at] + [input[at]] == was + input[from..next]
  {
  }

  lemma NextWord(w: seq<Word>, n: Word, off: nat)
    requires off == Mod16(|w|)
    ensures var next := w + [n];
            && next[|next| - (off + 1)..] == w[|w| - off..] + [n] && next[..|next| - (off + 1)] == w[..|w| - off]
            && next[..|next| - 0] == next && Mod16(|w[..|w| - off]|) == 0
            && Mod16(|next|) == (if off == 15 then 0 else off + 1)
            && (off == 15 ==> next == next[..|next| - 16] + next[|next| - 16..])
  {
  }

  lemma NextByte(m: seq<Byte>, b: Byte, off: nat)
    requires off == Mod4(|m|)
    ensures var next := m + [b];
            && next[|next| - (off + 1)..] == m[|m| - off..] + [b] && next[..|next| - (off + 1)] == m[..|m| - off]
            && Mod4(|m[..|m| - off]|) == 0 && Mod4(|next|) == (if off == 3 then 0 else off + 1)
            && next[..|next| - 0] == next && (off == 3 ==> next == m[..|m| - off] + (m[|m| - off..] + [b]))
  {
  }

  lemma WordsOfNext(a: seq<Byte>, b: seq<Byte>)
    requires Mod4(|a|) == 0 && |b| == 4
    ensures Mod4(|a + b|) == 0 && Words(a + b) == Words(a) + [WordAt(b, 0)]
  {
    WordsAppend(a, b);
    OneWord(b);
  }

  /** What stands behind the words of a message that fills its last word. */
  function LengthPadding(words: nat, bits: nat): seq<Word>
    requires bits < LENGTH_LIMIT
  {
    ZeroWords(if words % 16 <= 14 then 14 - words % 16 else 15) + [bits / WORD_LIMIT, bits % WORD_LIMIT]
  }

  /** The zeros that fill a word behind the one bit's byte. */
  function MissingZeros(length: nat): (n: nat)
    ensures (length + 1 + n) % 4 == 0 && n < 4
  {
    (3 - length % 4) % 4
  }

  lemma HashedPad(m: seq<Byte>)
    ensures Mod16(|Words(Pad(m))|) == 0 && Hashed(Pad(m)) == Fold(Words(Pad(m)))
  {
    hide Fold, Words, Pad;
    WholeBlocks(|Pad(m)|);
  }

  /** The padding of the standard, in words: it is what processLength puts behind a message of whole words. */
  lemma PadWords(m: seq<Byte>, p: seq<Byte>, zeros: nat)
    requires p == m + [0x80] + Zeros(zeros) && Mod4(|p|) == 0 && zeros < 4
    ensures Words(p) + LengthPadding(|Words(p)|, 8 * |m| % LENGTH_LIMIT) == Words(Pad(m))
  {
    hide Words, LengthBytes, ZeroWords, Pad;
    var bits := 8 * |m|;
    var words := |p| / 4;
    var k := if words % 16 <= 14 then 14 - words % 16 else 15;
    ZerosCount(|m|, zeros, words, k);
    var gap, length := Zeros(4 * k), LengthBytes(bits);
    PadIs(m, p, zeros, 4 * k);
    WordsAppend(p, gap + length);
    WordsAppend(gap, length);
    ZerosAreWords(k);
    LengthWords(bits);
    LengthHalves(bits);
  }

  lemma PadIs(m: seq<Byte>, p: seq<Byte>, zeros: nat, more: nat)
    requires p == m + [0x80] + Zeros(zeros) && PadZeros(|m|) == zeros + more
    ensures Pad(m) == p + (Zeros(more) + LengthBytes(8 * |m|))
  {
    hide LengthBytes, PadZeros;
    assert Zeros(zeros) + Zeros(more) == Zeros(zeros + more);
  }

  lemma ZerosCount(length: nat, zeros: nat, words: nat, k: nat)
    requires length + 1 + zeros == 4 * words && zeros < 4 && k == if words % 16 <= 14 then 14 - words % 16 else 15
    ensures PadZeros(length) == zeros + 4 * k
  {
    var q, r := words / 16, words % 16;
    assert length == 64 * q + (4 * r - 1 - zeros);
    if 4 * r - 1 - zeros >= 0 {
      By64(length, q, 4 * r - 1 - zeros);
    } else {
      By64(length, q - 1, 63 - zeros);
    }
  }

  lemma By64(x: nat, q: int, r: nat)
    requires x == 64 * q + r && r < 64
    ensures x % 64 == r
  {
  }

  lemma LengthHalves(bits: nat)
    requires bits % 8 == 0
    ensures var low := bits % LENGTH_LIMIT; low / WORD_LIMIT == Add(bits / WORD_LIMIT) && low % WORD_LIMIT == Add(bits)
  {
    var rest := bits % LENGTH_LIMIT;
    Digits(bits, bits / LENGTH_LIMIT, rest / WORD_LIMIT, rest % WORD_LIMIT);
  }

  lemma PaddingFits(w: seq<Word>, done: seq<Word>, tail: seq<Word>, bits: nat)
    requires bits < LENGTH_LIMIT && |tail| <= 14 && Mod16(|done|) == 0
    requires if Mod16(|w|) <= 14 then w == done + tail && |tail| == Mod16(|w|) else tail == [] && w + [0] == done
    ensures w + LengthPadding(|w|, bits) == done + (tail + ZeroWords(14 - |tail|) + [bits / WORD_LIMIT, bits % WORD_LIMIT])
  {
    if Mod16(|w|) == 15 {
      assert ZeroWords(15) == [0] + ZeroWords(14);
    }
  }

  lemma FoldAppend(a: seq<Word>, b: seq<Word>)
    requires Mod16(|a|) == 0 && |b| == 16
    ensures Mod16(|a + b|) == 0 && Fold(a + b) == Compress(Fold(a), b)
  {
    hide Compress;
    assert (a + b)[..|a + b| - 16] == a && (a + b)[|a + b| - 16..] == b;
  }

  lemma BitLength(count: nat, length: nat)
    requires count == Wrapped(length)
    ensures count * 8 % LENGTH_LIMIT == 8 * length % LENGTH_LIMIT
  {
    var k, j := length / LENGTH_LIMIT, count * 8 / LENGTH_LIMIT;
    assert length == k * LENGTH_LIMIT + count;
    Residue(8 * length, 8 * k + j, count * 8 % LENGTH_LIMIT);
  }
}
