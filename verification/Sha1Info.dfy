/** The C digest: an object that buffers a block of bytes, and counts bits in two words. */
module Sha1Info {
  import opened Bytes
  import opened Sha1Spec
  import opened Sha1Rounds

  const BLOCK := 64

  // ---------- words and blocks of a message ----------

  lemma {:induction false} WordsAppend(a: seq<Byte>, b: seq<Byte>)
    requires Mod4(|a|) == 0
    ensures Words(a + b) == Words(a) + Words(b)
    decreases |a|
  {
    if a == [] {
      assert a + b == b;
      assert [] + Words(b) == Words(b);
    } else {
      assert (a + b)[4..] == a[4..] + b;
      WordsAppend(a[4..], b);
      assert WordAt(a + b, 0) == WordAt(a, 0);
      assert [WordAt(a, 0)] + (Words(a[4..]) + Words(b)) == ([WordAt(a, 0)] + Words(a[4..])) + Words(b);
    }
  }

  lemma {:induction false} WordsIndex(s: seq<Byte>, i: nat)
    requires i < |s| / 4
    ensures 4 * i + 4 <= |s| && Words(s)[i] == WordAt(s, 4 * i)
    decreases i
  {
    if i > 0 {
      WordsIndex(s[4..], i - 1);
    }
  }

  /** The hash after the whole blocks of `m`. */
  function Hashed(m: seq<Byte>): Hash
    requires Mod64(|m|) == 0
  {
    WholeBlocks(|m|);
    Fold(Words(m))
  }

  lemma HashedNothing()
    ensures Hashed([]) == INITIAL
  {
  }

  lemma HashedBlock(m: seq<Byte>, block: seq<Byte>)
    requires Mod64(|m|) == 0 && |block| == 64
    ensures Hashed(m + block) == Compress(Hashed(m), Words(block))
  {
    hide Compress, Words;
    WholeBlocks(|m|);
    WholeBlocks(|m + block|);
    WordsAppend(m, block);
    var w, v := Words(m), Words(block);
    assert (w + v)[..|w + v| - 16] == w && (w + v)[|w + v| - 16..] == v;
  }

  predicate Counted(high: Word, low: Word, length: nat) {
    high * WORD_LIMIT + low == 8 * length % LENGTH_LIMIT
  }

  class Sha1Info {
    const digest: array<Word>
    const data: array<Byte>
    var countLo: Word
    var countHi: Word
    var local: nat
    ghost var message: seq<Byte>

    ghost predicate Shape()
      reads this
    {
      digest.Length == 5 && data.Length == BLOCK
    }

    ghost function Current(): Hash
      requires Shape()
      reads this, digest
    {
      Hash(digest[0], digest[1], digest[2], digest[3], digest[4])
    }

    /** The buffer holds the last `l` bytes of `m`, and those before them are hashed. */
    ghost predicate Buffered(m: seq<Byte>, l: nat)
      reads this, digest, data
    {
      && Shape() && l <= |m| && l <= BLOCK && Mod64(|m| - l) == 0
      && data[..l] == m[|m| - l..] && Current() == Hashed(m[..|m| - l])
    }

    /** The two words count the bits, modulo 2^64, and the buffer holds what does not fill a block. */
    ghost predicate Valid()
      reads this, digest, data
    {
      Buffered(message, local) && local == Mod64(|message|) && Counted(countHi, countLo, |message|)
    }

    /** sha1_init */
    constructor ()
      ensures Valid() && message == [] && fresh(digest) && fresh(data)
    {
      digest := new Word[5];
      data := new Byte[BLOCK];
      countLo, countHi, local, message := 0, 0, 0, [];
      new;
      digest[0], digest[1], digest[2], digest[3], digest[4] := 0x67452301, 0xefcdab89, 0x98badcfe, 0x10325476, 0xc3d2e1f0;
      HashedNothing();
    }

    /** The head of sha1_transform: the words of the buffer, most significant byte first, and the schedule. */
    method Expand() returns (W: array<Word>)
      requires Shape()
      ensures fresh(W) && W[..] == Schedule(Words(data[..]), 80)
    {
      hide Words, Xor, Rotl1, BigEndian;
      ghost var words := Words(data[..]);
      W := new Word[80];
      var i := 0;
      while i < 16
        invariant i <= 16 && forall x :: 0 <= x < i ==> W[x] == words[x]
        modifies W
      {
        WordsIndex(data[..], i);
        W[i] := BigEndian(data[4 * i], data[4 * i + 1], data[4 * i + 2], data[4 * i + 3]);
        i := i + 1;
      }
      assert W[..16] == words;
      while i < 80
        invariant 16 <= i <= 80 && W[..i] == Schedule(words, i)
        modifies W
      {
        ghost var r := Schedule(words, i);
        assert W[i - 3] == r[i - 3] && W[i - 8] == r[i - 8] && W[i - 14] == r[i - 14] && W[i - 16] == r[i - 16];
        W[i] := Xor(Xor(Xor(W[i - 3], W[i - 8]), W[i - 14]), W[i - 16]);
        W[i] := Rotl1(W[i]);
        assert W[..i + 1] == W[..i] + [W[i]];
        i := i + 1;
      }
      assert W[..] == W[..80];
    }

    /** sha1_transform; `unravel` is the choice that the macro UNRAVEL makes. */
    method Transform(unravel: bool)
      requires Shape()
      modifies digest
      ensures Current() == Compress(old(Current()), Words(data[..]))
    {
      hide Words, Rounds, Schedule;
      var W := Expand();
      var now, r := Hash(digest[0], digest[1], digest[2], digest[3], digest[4]), INITIAL;
      if unravel {
        r := UnraveledRounds(now, W[..]);
      } else {
        r := GenericRounds(now, W[..]);
      }
      digest[0] := Add(digest[0] + r.a);
      digest[1] := Add(digest[1] + r.b);
      digest[2] := Add(digest[2] + r.c);
      digest[3] := Add(digest[3] + r.d);
      digest[4] := Add(digest[4] + r.e);
    }

    /** The carry from the low word of the count to the high one. */
    method CountBits(count: nat, ghost length: nat)
      requires count < 0x8000_0000 && Counted(countHi, countLo, length)
      modifies `countLo, `countHi
      ensures Counted(countHi, countLo, length + count)
    {
      var clo: Word := (countLo + count * 8 % WORD_LIMIT) % WORD_LIMIT;
      if clo < countLo {
        countHi := (countHi + 1) % WORD_LIMIT;
      }
      countLo := clo;
      ghost var carried := countHi;
      countHi := (countHi + count / 0x2000_0000) % WORD_LIMIT;
      CarryIs(old(countLo), old(countHi), count, clo, carried, countHi);
      CountGrows(length, count);
    }

    /** memcpy into the buffer. */
    method Fill(at: nat, bytes: seq<Byte>)
      requires Shape() && at + |bytes| <= BLOCK
      modifies data
      ensures data[..at + |bytes|] == old(data[..at]) + bytes
    {
      forall x | 0 <= x < |bytes| {
        data[at + x] := bytes[x];
      }
    }

    /** A full buffer is hashed. */
    method Absorb(unravel: bool, ghost m: seq<Byte>)
      requires Shape() && Mod64(|m|) == 0 && Current() == Hashed(m)
      modifies digest
      ensures Mod64(|m + data[..]|) == 0 && Current() == Hashed(m + data[..])
    {
      hide Hashed, Compress, Words;
      HashedBlock(m, data[..]);
      Transform(unravel);
    }

    /** The first part of sha1_update: a started block is filled, and hashed when it is full. */
    method FillUp(buffer: seq<Byte>, unravel: bool, ghost m: seq<Byte>) returns (i: nat)
      requires Buffered(m, local) && 0 < local < BLOCK
      modifies `local, digest, data
      ensures i <= |buffer| && local == old(local) + i <= BLOCK
      ensures if local < BLOCK then i == |buffer| && Buffered(m + buffer, local) else Buffered(m + buffer[..i], 0)
    {
      hide Hashed, Mod64;
      i := BLOCK - local;
      if i > |buffer| {
        i := |buffer|;
      }
      ghost var done, next := m[..|m| - local], m + buffer[..i];
      Fill(local, buffer[..i]);
      local := local + i;
      assert next[|next| - local..] == data[..local] && next[..|next| - local] == done;
      if local == BLOCK {
        assert data[..] == data[..BLOCK];
        assert done + data[..] == next && next[..|next|] == next;
        Absorb(unravel, done);
      } else {
        assert buffer[..i] == buffer;
      }
    }

    method TakeBlock(block: seq<Byte>, unravel: bool, ghost m: seq<Byte>)
      requires Shape() && |block| == BLOCK && Mod64(|m|) == 0 && Current() == Hashed(m)
      modifies digest, data
      ensures Mod64(|m + block|) == 0 && Current() == Hashed(m + block)
    {
      hide Hashed, Mod64;
      Fill(0, block);
      assert data[..] == data[..BLOCK] == block;
      Absorb(unravel, m);
    }

    /** The second part of sha1_update: whole blocks are hashed, and the rest is kept. */
    method TakeBlocks(buffer: seq<Byte>, from: nat, unravel: bool, ghost m: seq<Byte>)
      requires Buffered(m, 0) && from <= |buffer|
      modifies `local, digest, data
      ensures Buffered(m + buffer[from..], local) && local < BLOCK
    {
      hide Hashed, Mod64;
      var at := from;
      ghost var done := m;
      Behind(m, []);
      Continued(m, buffer, from, from, from);
      while |buffer| - at >= BLOCK
        invariant from <= at <= |buffer| && Shape() && done == m + buffer[from..at]
        invariant Mod64(|done|) == 0 && Current() == Hashed(done)
      {
        Continued(m, buffer, from, at, at + BLOCK);
        TakeBlock(buffer[at..at + BLOCK], unravel, done);
        done := done + buffer[at..at + BLOCK];
        at := at + BLOCK;
      }
      Fill(0, buffer[at..]);
      local := |buffer| - at;
      Continued(m, buffer, from, at, |buffer|);
      Behind(done, buffer[at..]);
    }

    /** sha1_update */
    method Update(buffer: seq<Byte>, unravel: bool)
      requires Valid() && |buffer| < 0x8000_0000
      modifies this, digest, data
      ensures Valid() && message == old(message) + buffer
    {
      hide Hashed, Counted, Mod64;
      ghost var m := message;
      CountBits(|buffer|, |m|);
      message := m + buffer;
      var at := 0;
      if local != 0 {
        at := FillUp(buffer, unravel, m);
        m := m + buffer[..at];
        if local < BLOCK {
          LocalIs(|message|, local);
          return;
        }
      }
      TakeBlocks(buffer, at, unravel, m);
      assert m + buffer[at..] == message;
      LocalIs(|message|, local);
    }

    /** memset of the buffer. */
    method Clear(from: nat, to: nat)
      requires Shape() && from <= to <= BLOCK
      modifies data
      ensures data[..from] == old(data[..from]) && data[from..to] == Zeros(to - from) && data[to..] == old(data[to..])
    {
      forall x | from <= x < to {
        data[x] := 0;
      }
    }

    /** The length, most significant byte first. */
    method PutLength()
      requires Shape()
      modifies data
      ensures data[..] == old(data[..56]) + WordBytes(countHi) + WordBytes(countLo)
    {
      var high, low := WordBytes(countHi), WordBytes(countLo);
      data[56], data[57], data[58], data[59] := high[0], high[1], high[2], high[3];
      data[60], data[61], data[62], data[63] := low[0], low[1], low[2], low[3];
    }

    /** The first part of sha1_final: the one bit and the zeros, which may take a block more. */
    method PutPadding(unravel: bool) returns (ghost done: seq<Byte>)
      requires Valid()
      modifies digest, data
      ensures Mod64(|done|) == 0 && Current() == Hashed(done)
      ensures done + (data[..56] + LengthBytes(8 * |message|)) == Pad(message)
    {
      hide Hashed, LengthBytes, Pad, Counted;
      CountIs(countHi, countLo, |message|);
      var count := countLo / 8 % 64;
      ghost var tail := message[|message| - local..];
      done := message[..|message| - local];
      data[count] := 0x80;
      count := count + 1;
      assert data[..count] == tail + [0x80];
      if count > BLOCK - 8 {
        Clear(count, BLOCK);
        ghost var block := data[..];
        assert block == data[..count] + data[count..];
        Absorb(unravel, done);
        done := done + block;
        Clear(0, BLOCK - 8);
        assert data[0..56] == data[..56];
        LongPadding(message, tail, block, data[..56]);
      } else {
        Clear(count, BLOCK - 8);
        assert data[..56] == data[..count] + data[count..56];
        ShortPadding(message, tail, data[..56]);
      }
    }

    /** sha1_final: the digest of everything that was given to sha1_update. */
    method Final(unravel: bool) returns (out: seq<Byte>)
      requires Valid()
      modifies digest, data
      ensures out == Digest(message)
    {
      hide Hashed, Counted, LengthBytes, WordBytes, Pad;
      CountIs(countHi, countLo, |message|);
      var done := PutPadding(unravel);
      ghost var head := data[..56];
      PutLength();
      assert data[..] == head + LengthBytes(8 * |message|);
      Absorb(unravel, done);
      DigestIs(message);
      out := HashBytes(Hash(digest[0], digest[1], digest[2], digest[3], digest[4]));
    }
  }

  lemma Continued(m: seq<Byte>, buffer: seq<Byte>, from: nat, at: nat, next: nat)
    requires from <= at <= next <= |buffer|
    ensures (m + buffer[from..at]) + buffer[at..next] == m + buffer[from..next]
    ensures m + buffer[from..from] == m && buffer[at..|buffer|] == buffer[at..] && buffer[from..|buffer|] == buffer[from..]
  {
  }

  lemma Behind(done: seq<Byte>, rest: seq<Byte>)
    ensures (done + rest)[..|done + rest| - |rest|] == done && (done + rest)[|done + rest| - |rest|..] == rest
    ensures done + [] == done
  {
  }

  /** A whole computation: the digest does not depend on how the message is cut into updates. */
  method DigestOf(parts: seq<seq<Byte>>, unravel: bool) returns (out: seq<Byte>)
    requires forall k :: 0 <= k < |parts| ==> |parts[k]| < 0x8000_0000
    ensures out == Digest(Joined(parts))
  {
    hide Digest, Joined;
    var info := new Sha1Info();
    NoParts();
    assert parts[..0] == [];
    for i := 0 to |parts|
      invariant info.Valid() && info.message == Joined(parts[..i])
    {
      JoinedNext(parts, i);
      info.Update(parts[i], unravel);
    }
    assert parts[..|parts|] == parts;
    out := info.Final(unravel);
  }

  lemma DigestIs(m: seq<Byte>)
    ensures Digest(m) == HashBytes(Hashed(Pad(m)))
  {
    hide HashBytes, Pad, Fold, Words;
  }

  /** The words of the count. */
  lemma CountIs(high: Word, low: Word, length: nat)
    requires Counted(high, low, length)
    ensures low / 8 % 64 == length % 64 && LengthBytes(8 * length) == WordBytes(high) + WordBytes(low)
  {
    hide WordBytes;
    var bits := 8 * length;
    assert bits % LENGTH_LIMIT == bits - bits / LENGTH_LIMIT * LENGTH_LIMIT;
    assert bits == bits / LENGTH_LIMIT * LENGTH_LIMIT + high * WORD_LIMIT + low;
    Digits(bits, bits / LENGTH_LIMIT, high, low);
  }

  lemma Digits(bits: nat, top: nat, high: Word, low: Word)
    requires bits == top * LENGTH_LIMIT + high * WORD_LIMIT + low && bits % 8 == 0
    ensures bits % WORD_LIMIT == low && bits / WORD_LIMIT % WORD_LIMIT == high && low / 8 % 64 == bits / 8 % 64
  {
    var q := top * WORD_LIMIT + high;
    ByWord(bits, q, low);
    ByWord(q, top, high);
    var eighth := low / 8;
    assert low == eighth * 8;
    assert bits / 8 == q * 0x2000_0000 + eighth;
    Sixty(q * 0x80_0000, eighth);
  }

  lemma ByWord(x: nat, q: nat, r: nat)
    requires x == q * WORD_LIMIT + r && r < WORD_LIMIT
    ensures x / WORD_LIMIT == q && x % WORD_LIMIT == r
  {
  }

  lemma Sixty(q: nat, r: nat)
    ensures (q * 64 + r) % 64 == r % 64
  {
  }

  /** The padding fits the block that the message ends in. */
  lemma ShortPadding(m: seq<Byte>, tail: seq<Byte>, block: seq<Byte>)
    requires |tail| == Mod64(|m|) <= 55 && tail == m[|m| - |tail|..] && block == tail + [0x80] + Zeros(55 - |tail|)
    ensures m[..|m| - |tail|] + (block + LengthBytes(8 * |m|)) == Pad(m)
  {
    hide LengthBytes;
    assert m == m[..|m| - |tail|] + tail;
  }

  /** The padding takes one block more. */
  lemma LongPadding(m: seq<Byte>, tail: seq<Byte>, block: seq<Byte>, zeros: seq<Byte>)
    requires |tail| == Mod64(|m|) > 55 && tail == m[|m| - |tail|..] && block == tail + [0x80] + Zeros(63 - |tail|) && zeros == Zeros(56)
    ensures m[..|m| - |tail|] + block + (zeros + LengthBytes(8 * |m|)) == Pad(m)
  {
    hide LengthBytes;
    assert m == m[..|m| - |tail|] + tail;
    assert Zeros(63 - |tail|) + zeros == Zeros(119 - |tail|);
  }

  lemma LocalIs(length: nat, l: nat)
    requires l <= length && l < 64 && Mod64(length - l) == 0
    ensures Mod64(length) == l
  {
  }

  lemma CountGrows(length: nat, count: nat)
    ensures (8 * length % LENGTH_LIMIT + 8 * count) % LENGTH_LIMIT == 8 * (length + count) % LENGTH_LIMIT
  {
  }

  lemma Residue(x: int, k: int, r: int)
    requires x == k * LENGTH_LIMIT + r && 0 <= r < LENGTH_LIMIT
    ensures x % LENGTH_LIMIT == r
  {
  }

  /** Adding in two words, with the carry that the comparison finds. */
  lemma CarryIs(lo: Word, hi: Word, count: nat, clo: Word, carried: Word, high: Word)
    requires count < 0x8000_0000 && clo == (lo + count * 8 % WORD_LIMIT) % WORD_LIMIT
    requires carried == (if clo < lo then (hi + 1) % WORD_LIMIT else hi) && high == (carried + count / 0x2000_0000) % WORD_LIMIT
    ensures high * WORD_LIMIT + clo == (hi * WORD_LIMIT + lo + 8 * count) % LENGTH_LIMIT
  {
    var part, quotient := count * 8 % WORD_LIMIT, count / 0x2000_0000;
    assert 8 * count == quotient * WORD_LIMIT + part;
    var carry := if clo < lo then 1 else 0;
    assert lo + part == carry * WORD_LIMIT + clo;
    var total := hi + carry + quotient;
    var k := if total >= WORD_LIMIT then 1 else 0;
    assert high == total - k * WORD_LIMIT;
    Residue(hi * WORD_LIMIT + lo + 8 * count, k, high * WORD_LIMIT + clo);
  }
}
