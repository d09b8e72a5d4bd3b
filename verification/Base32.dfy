/** Base32, with the alphabet of section 6 of RFC 4648 and without its padding. */
module Base32 {
  import opened Bytes

  // ---------- bits ----------

  type Bits = seq<bool>

  /** Bits as a number, the most significant one first. */
  function Value(b: Bits): (n: nat)
    ensures n < Pow2(|b|)
  {
    if b == [] then 0 else 2 * Value(b[..|b| - 1]) + if b[|b| - 1] then 1 else 0
  }

  function Pow2(n: nat): (p: nat)
    ensures p > 0
  {
    if n == 0 then 1 else 2 * Pow2(n - 1)
  }

  /** The lowest `k` bits of a number. */
  function BitsOf(n: nat, k: nat): (b: Bits)
    ensures |b| == k
  {
    if k == 0 then [] else BitsOf(n / 2, k - 1) + [n % 2 == 1]
  }

  lemma {:induction false} ValueOfBits(n: nat, k: nat)
    requires n < Pow2(k)
    ensures Value(BitsOf(n, k)) == n
    decreases k
  {
    if k > 0 {
      ValueOfBits(n / 2, k - 1);
      assert BitsOf(n, k)[..k - 1] == BitsOf(n / 2, k - 1);
    }
  }

  lemma {:induction false} BitsOfValue(b: Bits)
    ensures BitsOf(Value(b), |b|) == b
    decreases |b|
  {
    if b != [] {
      var head := b[..|b| - 1];
      BitsOfValue(head);
      assert Value(b) / 2 == Value(head);
      assert b == head + [b[|b| - 1]];
    }
  }

  lemma {:induction false} ValueAppend(a: Bits, b: Bits)
    ensures Value(a + b) == Value(a) * Pow2(|b|) + Value(b)
    decreases |b|
  {
    if b == [] {
      assert a + b == a;
    } else {
      var head := b[..|b| - 1];
      assert (a + b)[..|a + b| - 1] == a + head;
      ValueAppend(a, head);
      Distribute(Value(a), Pow2(|head|), Value(head));
    }
  }

  lemma Distribute(x: nat, p: nat, y: nat)
    ensures 2 * (x * p + y) == x * (2 * p) + 2 * y
  {
  }

  /** The bits of bytes, and of digits of five bits. */
  function Flatten(s: seq<nat>, k: nat): (b: Bits)
    ensures |b| == k * |s|
  {
    if s == [] then [] else
      Grows(|s| - 1, k);
      Flatten(s[..|s| - 1], k) + BitsOf(s[|s| - 1], k)
  }

  lemma Grows(n: nat, k: nat)
    ensures k * n + k == k * (n + 1)
  {
  }

  lemma {:induction false} FlattenAppend(s: seq<nat>, x: nat, k: nat)
    ensures Flatten(s + [x], k) == Flatten(s, k) + BitsOf(x, k)
  {
    assert (s + [x])[..|s|] == s;
  }

  // ---------- digits ----------

  predicate Separator(c: Byte) {
    c == 32 || c == 9 || c == 13 || c == 10 || c == 45
  }

  datatype Option<T> = None | Some(value: T)

  /** The value of a digit; 0, 1 and 8 are taken for O, L and B, and the case of letters does not matter. */
  function DigitOf(c: Byte): (d: Option<nat>)
    ensures d.Some? ==> d.value < 32
  {
    var ch: nat := if c == 48 then 79 else if c == 49 then 76 else if c == 56 then 66 else c;
    if 65 <= ch <= 90 || 97 <= ch <= 122 then Some(ch % 32 - 1)
    else if 50 <= ch <= 55 then Some(ch - 24)
    else None
  }

  /** ABCDEFGHIJKLMNOPQRSTUVWXYZ234567 */
  function Alphabet(d: nat): Byte
    requires d < 32
  {
    if d < 26 then 65 + d else 24 + d
  }

  lemma AlphabetBack(d: nat)
    requires d < 32
    ensures DigitOf(Alphabet(d)) == Some(d) && !Separator(Alphabet(d)) && Alphabet(d) != 0
  {
  }

  // ---------- encoding ----------

  /** The bits of the data, with zeros up to a multiple of five. */
  function Padded(data: seq<Byte>): (b: Bits)
    ensures |b| == (8 * |data| + 4) / 5 * 5
  {
    Flatten(data, 8) + seq((8 * |data| + 4) / 5 * 5 - 8 * |data|, _ => false)
  }

  /** The encoded data: a digit for every five bits. */
  function Encoded(data: seq<Byte>): (s: seq<Byte>)
    ensures |s| == (8 * |data| + 4) / 5
  {
    var b := Padded(data);
    seq(|b| / 5, k requires 0 <= k < |b| / 5 => DigitAt(b, k))
  }

  function DigitAt(b: Bits, k: nat): Byte
    requires 5 * k + 5 <= |b|
  {
    Five();
    Alphabet(Value(b[5 * k..5 * k + 5]))
  }

  lemma Five()
    ensures Pow2(5) == 32 && Pow2(8) == 256
  {
    assert Pow2(2) == 4;
    assert Pow2(4) == 16;
    assert Pow2(6) == 64;
  }

  // ---------- decoding ----------

  /** The values of the digits from `i` to `e`. */
  function Digits(s: seq<Byte>, i: nat, e: nat): seq<nat>
    requires i <= e <= |s|
    decreases e - i
  {
    if i == e then []
    else
      var d := DigitOf(s[e - 1]);
      Digits(s, i, e - 1) + if Separator(s[e - 1]) || d.None? then [] else [d.value]
  }

  /** Where decoding stops: at the end, at what is no digit, or when the result is full. */
  function Stop(s: seq<Byte>, i: nat, m: nat, size: nat): (e: nat)
    requires i <= |s|
    ensures i <= e <= |s|
    decreases |s| - i
  {
    if i == |s| || 5 * m / 8 >= size then i
    else if Separator(s[i]) then Stop(s, i + 1, m, size)
    else if DigitOf(s[i]).None? then i
    else Stop(s, i + 1, m + 1, size)
  }

  /** The bytes that whole eights of bits make. */
  function BytesOf(b: Bits): seq<Byte> {
    seq(|b| / 8, j requires 0 <= j < |b| / 8 => ByteAt(b, j))
  }

  function ByteAt(b: Bits, j: nat): Byte
    requires 8 * j + 8 <= |b|
  {
    Five();
    Value(b[8 * j..8 * j + 8])
  }

  /** The decoded text, for a result of `size` bytes; nothing when decoding stops at what is no digit. */
  function Decoded(s: seq<Byte>, size: nat): Option<seq<Byte>> {
    var e := Stop(s, 0, 0, size);
    var digits := Digits(s, 0, e);
    if e < |s| && 5 * |digits| / 8 < size then None else Some(BytesOf(Flatten(digits, 5)))
  }

  // ---------- decoding undoes encoding ----------

  lemma {:induction false} AllDigits(s: seq<Byte>, d: seq<nat>, i: nat, size: nat)
    requires |d| == |s| && i <= |s| && (forall k :: 0 <= k < |s| ==> d[k] < 32 && s[k] == Alphabet(d[k])) && 5 * |s| / 8 <= size
    ensures Digits(s, 0, i) == d[..i]
    decreases i
  {
    if i > 0 {
      AllDigits(s, d, i - 1, size);
      AlphabetBack(d[i - 1]);
      assert d[..i] == d[..i - 1] + [d[i - 1]];
    }
  }

  lemma {:induction false} StopsAtEnd(s: seq<Byte>, d: seq<nat>, i: nat, size: nat)
    requires |d| == |s| && i <= |s| && (forall k :: 0 <= k < |s| ==> d[k] < 32 && s[k] == Alphabet(d[k]))
    requires 5 * (|s| - 1) < 8 * size
    ensures Stop(s, i, i, size) == |s|
    decreases |s| - i
  {
    if i < |s| {
      AlphabetBack(d[i]);
      StopsAtEnd(s, d, i + 1, size);
    }
  }

  /** The bits of digits that were cut out of bits. */
  lemma {:induction false} FlattenDigits(b: Bits, d: seq<nat>, n: nat)
    requires 5 * |d| <= |b| && n <= |d| && forall k :: 0 <= k < |d| ==> d[k] == Value(b[5 * k..5 * k + 5])
    ensures Flatten(d[..n], 5) == b[..5 * n]
    decreases n
  {
    hide Flatten, Value, BitsOf;
    if n == 0 {
      NoBits(d[..0], b[..0]);
    } else {
      FlattenDigits(b, d, n - 1);
      FlattenAppend(d[..n - 1], d[n - 1], 5);
      assert d[..n] == d[..n - 1] + [d[n - 1]];
      BitsOfValue(b[5 * (n - 1)..5 * (n - 1) + 5]);
      TakeMore(b, 5 * (n - 1), 5);
    }
  }

  lemma NoBits(d: seq<nat>, b: Bits)
    requires d == [] && b == []
    ensures Flatten(d, 5) == b
  {
  }

  lemma TakeMore(b: Bits, n: nat, k: nat)
    requires n + k <= |b|
    ensures b[..n + k] == b[..n] + b[n..n + k]
  {
  }

  /** The bits of the byte at `j`. */
  lemma {:induction false} FlattenSlice(s: seq<nat>, j: nat)
    requires j < |s|
    ensures Flatten(s, 8)[8 * j..8 * j + 8] == BitsOf(s[j], 8)
    decreases |s|
  {
    var head := s[..|s| - 1];
    if j < |s| - 1 {
      FlattenSlice(head, j);
      assert Flatten(s, 8)[8 * j..8 * j + 8] == Flatten(head, 8)[8 * j..8 * j + 8];
    }
  }

  /** Decoding into a buffer that is large enough undoes encoding. */
  lemma DecodeEncode(data: seq<Byte>, size: nat)
    requires size >= |data|
    ensures Decoded(Encoded(data), size) == Some(data)
  {
    hide Flatten, Value, Alphabet, DigitOf, Digits, Stop, BitsOf;
    var b, s := Padded(data), Encoded(data);
    Five();
    var d := seq(|s|, k requires 0 <= k < |s| => Value(b[5 * k..5 * k + 5]));
    AllDigits(s, d, |s|, size);
    StopsAtEnd(s, d, 0, size);
    FlattenDigits(b, d, |d|);
    assert d[..|d|] == d && b[..5 * |d|] == b;
    BytesBack(data);
  }

  lemma BytesBack(data: seq<Byte>)
    ensures BytesOf(Padded(data)) == data
  {
    hide Flatten, BitsOf, Value;
    Five();
    var b := Padded(data);
    assert |b| / 8 == |data|;
    forall j | 0 <= j < |data| ensures BytesOf(b)[j] == data[j] {
      FlattenSlice(data, j);
      assert b[8 * j..8 * j + 8] == Flatten(data, 8)[8 * j..8 * j + 8];
      ValueOfBits(data[j], 8);
    }
  }

  // ---------- the shifting of a bit buffer ----------

  lemma {:induction false} Multiple(r: nat, p: nat, t: nat)
    requires p > 0
    ensures (r + p * t) % p == r % p
    decreases t
  {
    if t > 0 {
      Multiple(r, p, t - 1);
      assert r + p * t == r + p * (t - 1) + p;
      OnePeriod(r + p * (t - 1), p);
    }
  }

  lemma OnePeriod(x: nat, p: nat)
    requires p > 0
    ensures (x + p) % p == x % p
  {
    var q, r := x / p, x % p;
    assert x + p == p * (q + 1) + r;
    Unique(x + p, p, q + 1, r);
  }

  lemma Unique(x: nat, p: nat, q: nat, r: nat)
    requires x == p * q + r && r < p
    ensures x / p == q && x % p == r
  {
    var a, m := x / p, x % p;
    assert x == p * a + m;
    if a > q {
      Scale(p, q + 1, a);
    } else if a < q {
      Scale(p, a + 1, q);
    }
  }

  lemma {:induction false} Scale(p: nat, a: nat, b: nat)
    requires a <= b
    ensures p * a <= p * b
    decreases b - a
  {
    if a < b {
      Scale(p, a, b - 1);
    }
  }

  lemma {:induction false} Pow2Add(a: nat, b: nat)
    ensures Pow2(a + b) == Pow2(a) * Pow2(b)
    decreases a
  {
    if a > 0 {
      Pow2Add(a - 1, b);
      Associate(Pow2(a - 1), Pow2(b));
    }
  }

  lemma Associate(x: nat, y: nat)
    ensures 2 * (x * y) == (2 * x) * y
  {
  }

  lemma Pow32()
    ensures Pow2(32) == 0x1_0000_0000
  {
    Five();
    Pow2Add(8, 8);
    Pow2Add(16, 16);
  }

  /** The lowest bits of the buffer. */
  predicate Holds(buffer: nat, b: Bits) {
    buffer % Pow2(|b|) == Value(b)
  }

  /** `buffer <<= k; buffer |= v` on an int of 32 bits. */
  function ShiftedIn(buffer: nat, v: nat, k: nat): nat {
    buffer * Pow2(k) % 0x1_0000_0000 + v
  }

  lemma ShiftIn(buffer: nat, b: Bits, v: nat, k: nat)
    requires Holds(buffer, b) && v < Pow2(k) && |b| + k <= 32
    ensures Holds(ShiftedIn(buffer, v, k), b + BitsOf(v, k))
  {
    hide Pow2, Value, BitsOf;
    var w := BitsOf(v, k);
    ValueOfBits(v, k);
    ValueAppend(b, w);
    Pow2Add(|b|, k);
    Pow2Add(|b| + k, 32 - |b| - k);
    Pow32();
    ShiftInNumbers(buffer, Pow2(|b|), Pow2(k), Pow2(32 - |b| - k), Value(b), v);
  }

  lemma ShiftInNumbers(buffer: nat, p: nat, k: nat, rest: nat, low: nat, v: nat)
    requires p > 0 && k > 0 && buffer % p == low && v < k && p * k * rest == 0x1_0000_0000 && low * k + v < p * k
    ensures (buffer * k % 0x1_0000_0000 + v) % (p * k) == low * k + v
  {
    var t := buffer / p;
    var x := buffer * k;
    var y, q := x % 0x1_0000_0000, x / 0x1_0000_0000;
    var unit := p * k;
    assert x == low * k + unit * t by {
      assert buffer == p * t + low;
      Expand(p, t, low, k);
    }
    assert x == y + unit * (rest * q) by {
      assert x == y + 0x1_0000_0000 * q;
      Regroup(unit, rest, q);
    }
    Multiple(low * k, unit, t);
    Multiple(y, unit, rest * q);
    Unique(low * k, unit, 0, low * k);
    var s := y / unit;
    assert y == unit * s + low * k;
    Unique(y + v, unit, s, low * k + v);
  }

  lemma Expand(p: nat, t: nat, low: nat, k: nat)
    ensures (p * t + low) * k == low * k + (p * k) * t
  {
  }

  lemma Regroup(a: nat, b: nat, c: nat)
    ensures (a * b) * c == a * (b * c)
  {
  }

  /** `(buffer >> a) & mask`, where `a` bits stay behind */
  lemma ShiftOut(buffer: nat, b: Bits, k: nat)
    requires Holds(buffer, b) && k <= |b|
    ensures buffer / Pow2(|b| - k) % Pow2(k) == Value(b[..k]) && Holds(buffer, b[k..])
  {
    hide Pow2, Value;
    var a := |b| - k;
    assert b == b[..k] + b[k..];
    ValueAppend(b[..k], b[k..]);
    Pow2Add(k, a);
    ShiftOutNumbers(buffer, Pow2(k), Pow2(a), Value(b[..k]), Value(b[k..]));
  }

  lemma ShiftOutNumbers(buffer: nat, k: nat, a: nat, high: nat, low: nat)
    requires k > 0 && a > 0 && high < k && low < a && buffer % (k * a) == high * a + low
    ensures buffer / a % k == high && buffer % a == low
  {
    var t := buffer / (k * a);
    assert buffer == (k * a) * t + (high * a + low);
    Collect(k, a, t, high);
    Unique(buffer, a, k * t + high, low);
    Unique(k * t + high, k, t, high);
  }

  lemma Collect(k: nat, a: nat, t: nat, high: nat)
    ensures (k * a) * t + high * a == a * (k * t + high)
  {
  }

  // ---------- the programs ----------

  /** The buffer holds the bits from `low` to `high`. */
  predicate Window(b: Bits, low: nat, high: nat, buffer: nat) {
    low <= high <= |b| && Holds(buffer, b[low..high])
  }

  lemma MoreBits(b: Bits, low: nat, high: nat, buffer: nat, v: nat, k: nat)
    requires Window(b, low, high, buffer) && high - low + k <= 32 && high + k <= |b| && v < Pow2(k) && b[high..high + k] == BitsOf(v, k)
    ensures Window(b, low, high + k, ShiftedIn(buffer, v, k))
  {
    hide Holds, ShiftedIn, BitsOf, Pow2;
    ShiftIn(buffer, b[low..high], v, k);
    assert b[low..high + k] == b[low..high] + b[high..high + k];
  }

  lemma FewerBits(b: Bits, low: nat, high: nat, buffer: nat, k: nat)
    requires Window(b, low, high, buffer) && low + k <= high
    ensures buffer / Pow2(high - low - k) % Pow2(k) == Value(b[low..low + k]) && Window(b, low + k, high, buffer)
  {
    hide Holds, Pow2, Value;
    var w := b[low..high];
    ShiftOut(buffer, w, k);
    assert w[..k] == b[low..low + k] && w[k..] == b[low + k..high];
  }

  /** Where the bits of the data and of the padding are. */
  lemma PaddedAt(d: seq<Byte>, j: nat)
    requires j < |d|
    ensures 8 * j + 8 <= |Padded(d)| && Padded(d)[8 * j..8 * j + 8] == BitsOf(d[j], 8)
  {
    hide BitsOf, Flatten;
    FlattenSlice(d, j);
    assert Padded(d)[8 * j..8 * j + 8] == Flatten(d, 8)[8 * j..8 * j + 8];
  }

  lemma PaddingAt(d: seq<Byte>, k: nat)
    requires 8 * |d| + k == |Padded(d)|
    ensures Padded(d)[8 * |d|..8 * |d| + k] == BitsOf(0, k)
  {
    hide BitsOf, Flatten;
    NoBitsSet(k);
  }

  lemma {:induction false} NoBitsSet(k: nat)
    ensures BitsOf(0, k) == seq(k, _ => false)
    decreases k
  {
    if k > 0 {
      NoBitsSet(k - 1);
    }
  }

  /** The place in the data that the loop of base32_encode has come to. */
  predicate Reached(d: seq<Byte>, count: nat, next: nat, bitsLeft: nat) {
    && 1 <= next <= |d|
    && (5 * count + bitsLeft == 8 * next || (next == |d| && 5 * count + bitsLeft == (8 * |d| + 4) / 5 * 5))
  }

  lemma TakeByte(d: seq<Byte>, count: nat, next: nat, bitsLeft: nat, buffer: nat)
    requires Reached(d, count, next, bitsLeft) && bitsLeft < 5 && next < |d|
    requires Window(Padded(d), 5 * count, 5 * count + bitsLeft, buffer)
    ensures Reached(d, count, next + 1, bitsLeft + 8)
    ensures Window(Padded(d), 5 * count, 5 * count + bitsLeft + 8, buffer * 256 % 0x1_0000_0000 + d[next])
  {
    hide Window, Padded, Pow2, BitsOf;
    Five();
    PaddedAt(d, next);
    MoreBits(Padded(d), 5 * count, 5 * count + bitsLeft, buffer, d[next], 8);
  }

  lemma PadWidth(n: nat, count: nat, bitsLeft: nat)
    requires 0 < bitsLeft < 5 && (5 * count + bitsLeft == 8 * n || 5 * count + bitsLeft == (8 * n + 4) / 5 * 5)
    ensures 5 * count + bitsLeft == 8 * n && 5 * count + 5 == (8 * n + 4) / 5 * 5
  {
  }

  lemma TakePadding(d: seq<Byte>, count: nat, next: nat, bitsLeft: nat, buffer: nat)
    requires Reached(d, count, next, bitsLeft) && 0 < bitsLeft < 5 && next == |d|
    requires Window(Padded(d), 5 * count, 5 * count + bitsLeft, buffer)
    ensures Reached(d, count, next, 5) && Window(Padded(d), 5 * count, 5 * count + 5, ShiftedIn(buffer, 0, 5 - bitsLeft))
  {
    hide Window, Padded, Pow2, BitsOf, ShiftedIn;
    var pad := 5 - bitsLeft;
    PadWidth(|d|, count, bitsLeft);
    PaddingAt(d, pad);
    MoreBits(Padded(d), 5 * count, 5 * count + bitsLeft, buffer, 0, pad);
  }

  /** The first part of the loop's body: five bits at least are in the buffer afterwards. */
  method Refill(d: seq<Byte>, count: nat, next0: nat, bitsLeft0: nat, buffer0: nat) returns (next: nat, bitsLeft: nat, buffer: nat)
    requires Reached(d, count, next0, bitsLeft0) && bitsLeft0 <= 8 && (bitsLeft0 > 0 || next0 < |d|)
    requires Window(Padded(d), 5 * count, 5 * count + bitsLeft0, buffer0)
    ensures Reached(d, count, next, bitsLeft) && 5 <= bitsLeft <= 12
    ensures Window(Padded(d), 5 * count, 5 * count + bitsLeft, buffer)
  {
    hide Window, Padded, ShiftedIn, Pow2;
    next, bitsLeft, buffer := next0, bitsLeft0, buffer0;
    if bitsLeft < 5 {
      if next < |d| {
        TakeByte(d, count, next, bitsLeft, buffer);
        buffer := buffer * 256 % 0x1_0000_0000 + d[next];
        next := next + 1;
        bitsLeft := bitsLeft + 8;
      } else {
        TakePadding(d, count, next, bitsLeft, buffer);
        var pad := 5 - bitsLeft;
        buffer := ShiftedIn(buffer, 0, pad);
        bitsLeft := bitsLeft + pad;
      }
    }
  }

  /** base32_encode: it writes what fits, and a terminator when there is room. */
  method Encode(data: seq<Byte>, length: int, result: array<Byte>, bufSize: nat) returns (count: int)
    requires length <= |data| && bufSize <= result.Length
    modifies result
    ensures length < 0 || length > 0x1000_0000 ==> count == -1 && result[..] == old(result[..])
    ensures 0 <= length <= 0x1000_0000 ==>
              var s := Encoded(data[..length]);
              && count == (if |s| < bufSize then |s| else bufSize) && result[..count] == s[..count]
              && (count < bufSize ==> result[count] == 0)
  {
    if length < 0 || length > 0x1000_0000 {
      return -1;
    }
    count := 0;
    if length > 0 {
      count := EncodeAll(data[..length], result, bufSize);
    }
    if count < bufSize {
      result[count] := 0;
    }
  }

  /** The loop of base32_encode. */
  method EncodeAll(d: seq<Byte>, result: array<Byte>, bufSize: nat) returns (count: nat)
    requires d != [] && bufSize <= result.Length
    modifies result
    ensures var s := Encoded(d);
            count == (if |s| < bufSize then |s| else bufSize) && result[..count] == s[..count]
  {
    hide Padded, Value, Alphabet, Pow2, Window, DigitAt, Encoded;
    ghost var b, s := Padded(d), Encoded(d);
    Five();
    FirstByte(d);
    count := 0;
    var buffer: nat, next: nat, bitsLeft: nat := d[0], 1, 8;
    while count < bufSize && (bitsLeft > 0 || next < |d|)
      invariant count <= bufSize && count <= |s| && bitsLeft <= 8
      invariant Reached(d, count, next, bitsLeft) && Window(b, 5 * count, 5 * count + bitsLeft, buffer)
      invariant forall x :: 0 <= x < count ==> result[x] == s[x]
      decreases |s| - count
    {
      next, bitsLeft, buffer := Refill(d, count, next, bitsLeft, buffer);
      FewerBits(b, 5 * count, 5 * count + bitsLeft, buffer, 5);
      Inside(b, 5 * count, 5 * count + bitsLeft, buffer);
      var index := buffer / Pow2(bitsLeft - 5) % 32;
      DigitIs(d, count, index);
      bitsLeft := bitsLeft - 5;
      result[count] := Alphabet(index);
      count := count + 1;
    }
  }

  lemma FirstByte(d: seq<Byte>)
    requires d != []
    ensures Window(Padded(d), 0, 8, d[0])
  {
    hide BitsOf, Padded, Value;
    PaddedAt(d, 0);
    Five();
    ValueOfBits(d[0], 8);
  }

  lemma Inside(b: Bits, low: nat, high: nat, buffer: nat)
    requires Window(b, low, high, buffer)
    ensures low <= high <= |b|
  {
  }

  lemma DigitIs(d: seq<Byte>, k: nat, index: nat)
    requires 5 * k + 5 <= |Padded(d)| && index == Value(Padded(d)[5 * k..5 * k + 5])
    ensures index < 32 && k < |Encoded(d)| && Encoded(d)[k] == Alphabet(index)
  {
    Five();
  }

  /** What the loop of base32_decode has come to at place `i` of the text `s`. */
  predicate Decoding(s: seq<Byte>, i: nat, size: nat, count: nat, bitsLeft: nat, buffer: nat, written: seq<Byte>)
    requires i <= |s|
  {
    var digits := Digits(s, 0, i);
    var b := Flatten(digits, 5);
    && Stop(s, 0, 0, size) == Stop(s, i, |digits|, size) && |digits| <= i
    && 8 * count + bitsLeft == |b| && bitsLeft < 8 && count <= size && count <= i
    && Window(b, 8 * count, |b|, buffer) && written == BytesOf(b)
  }

  lemma DecodingStarts(s: seq<Byte>, size: nat)
    ensures Decoding(s, 0, size, 0, 0, 0, [])
  {
    Five();
  }

  /** Going over a separator. */
  lemma DecodingSkips(s: seq<Byte>, i: nat, size: nat, count: nat, bitsLeft: nat, buffer: nat, written: seq<Byte>)
    requires i < |s| && Decoding(s, i, size, count, bitsLeft, buffer, written) && Separator(s[i]) && count < size
    ensures Decoding(s, i + 1, size, count, bitsLeft, buffer, written)
  {
    hide Flatten, Window, BytesOf, DigitOf;
    var digits := Digits(s, 0, i);
    assert digits + [] == digits && Digits(s, 0, i + 1) == digits;
    assert |Flatten(digits, 5)| == 5 * |digits|;
  }

  /** The whole bytes of some bits do not depend on the bits behind them. */
  lemma BytesLonger(b: Bits, more: Bits)
    requires |b| / 8 == |b + more| / 8 || |b| / 8 + 1 == |b + more| / 8
    ensures |b| / 8 == |b + more| / 8 ==> BytesOf(b + more) == BytesOf(b)
    ensures |b| / 8 + 1 == |b + more| / 8 ==> BytesOf(b + more) == BytesOf(b) + [ByteAt(b + more, |b| / 8)]
  {
    hide Value;
    var c := b + more;
    forall j | 0 <= j < |b| / 8 ensures ByteAt(c, j) == ByteAt(b, j) {
      assert c[8 * j..8 * j + 8] == b[8 * j..8 * j + 8];
    }
  }

  /** Taking a digit, which may complete a byte. */
  lemma DecodingTakes(s: seq<Byte>, i: nat, size: nat, count: nat, bitsLeft: nat, buffer: nat, written: seq<Byte>, v: nat)
    requires i < |s| && Decoding(s, i, size, count, bitsLeft, buffer, written) && count < size
    requires !Separator(s[i]) && DigitOf(s[i]) == Some(v)
    ensures v < 32
    ensures var buffer', bits := ShiftedIn(buffer, v, 5), bitsLeft + 5;
            if bits < 8 then Decoding(s, i + 1, size, count, bits, buffer', written)
            else Decoding(s, i + 1, size, count + 1, bits - 8, buffer', written + [buffer' / Pow2(bits - 8) % 256])
  {
    hide Flatten, Window, BytesOf, DigitOf, Pow2, ShiftedIn, BitsOf, Digits, Stop;
    OneDigitMore(s, i, size, v);
    var digits := Digits(s, 0, i);
    FlattenAppend(digits, v, 5);
    TakeBits(Flatten(digits, 5), count, bitsLeft, buffer, v);
  }

  /** Five bits more in the accumulator, and a byte out of it when there are eight. */
  lemma TakeBits(b: Bits, count: nat, bitsLeft: nat, buffer: nat, v: nat)
    requires 8 * count + bitsLeft == |b| && bitsLeft < 8 && v < 32 && Window(b, 8 * count, |b|, buffer)
    ensures var c, buffer', bits := b + BitsOf(v, 5), ShiftedIn(buffer, v, 5), bitsLeft + 5;
            if bits < 8 then Window(c, 8 * count, |c|, buffer') && BytesOf(c) == BytesOf(b)
            else Window(c, 8 * count + 8, |c|, buffer') && BytesOf(c) == BytesOf(b) + [buffer' / Pow2(bits - 8) % 256]
  {
    hide Window, BytesOf, Pow2, ShiftedIn, Value, BitsOf, ByteAt;
    Five();
    var more := BitsOf(v, 5);
    var c, buffer' := b + more, ShiftedIn(buffer, v, 5);
    WindowGrows(b, more, 8 * count, buffer);
    assert c[|b|..|b| + 5] == more;
    MoreBits(c, 8 * count, |b|, buffer, v, 5);
    BytesLonger(b, more);
    if bitsLeft + 5 >= 8 {
      FewerBits(c, 8 * count, |c|, buffer', 8);
      ByteIs(c, count);
    }
  }

  lemma OneDigitMore(s: seq<Byte>, i: nat, size: nat, v: nat)
    requires i < |s| && !Separator(s[i]) && DigitOf(s[i]) == Some(v)
    ensures v < 32 && Digits(s, 0, i + 1) == Digits(s, 0, i) + [v]
    ensures forall m: nat :: 5 * m < 8 * size ==> Stop(s, i, m, size) == Stop(s, i + 1, m + 1, size)
  {
    hide DigitOf;
  }

  lemma WindowGrows(b: Bits, more: Bits, low: nat, buffer: nat)
    requires Window(b, low, |b|, buffer)
    ensures Window(b + more, low, |b|, buffer)
  {
    hide Holds;
    assert (b + more)[low..|b|] == b[low..|b|];
  }

  lemma ByteIs(b: Bits, j: nat)
    requires 8 * j + 8 <= |b|
    ensures ByteAt(b, j) == Value(b[8 * j..8 * j + 8])
  {
  }

  /** What decoding ends with. */
  lemma DecodingEnds(s: seq<Byte>, i: nat, size: nat, count: nat, bitsLeft: nat, buffer: nat, written: seq<Byte>)
    requires i <= |s| && Decoding(s, i, size, count, bitsLeft, buffer, written)
    requires i == |s| || count == size || (!Separator(s[i]) && DigitOf(s[i]).None?)
    ensures |written| == count && Decoded(s, size) == if i < |s| && count < size then None else Some(written)
  {
    hide Flatten, Window, DigitOf;
    assert |Flatten(Digits(s, 0, i), 5)| == 5 * |Digits(s, 0, i)|;
  }

  /**
   base32_decode of the C string `s` that the first array holds.  The second array may be the same one, as it
   is for the PAM module's secret: what is written never gets ahead of what is read.
   */
  method Decode(encoded: array<Byte>, result: array<Byte>, bufSize: nat, ghost s: seq<Byte>) returns (count: int)
    requires |s| < encoded.Length && encoded[..|s|] == s && encoded[|s|] == 0 && (forall x :: 0 <= x < |s| ==> s[x] != 0)
    requires bufSize <= result.Length
    modifies result
    ensures Decoded(s, bufSize).None? ==> count == -1
    ensures Decoded(s, bufSize).Some? ==>
              && 0 <= count == |Decoded(s, bufSize).value| <= bufSize && result[..count] == Decoded(s, bufSize).value
              && (count < bufSize ==> result[count] == 0)
  {
    hide Decoding, Decoded, DigitOf, Separator, Pow2;
    var buffer: nat, bitsLeft: nat, i: nat := 0, 0, 0;
    count := 0;
    DecodingStarts(s, bufSize);
    assert forall x :: 0 <= x < |s| ==> encoded[x] == s[x];
    assert result[..0] == [];
    while count < bufSize && encoded[i] != 0
      invariant i <= |s| && 0 <= count <= bufSize && count <= i && bitsLeft < 8
      invariant forall x :: i <= x < |s| ==> encoded[x] == s[x]
      invariant encoded[|s|] == 0
      invariant Decoding(s, i, bufSize, count, bitsLeft, buffer, result[..count])
      decreases |s| - i
    {
      var ch := encoded[i];
      if Separator(ch) {
        DecodingSkips(s, i, bufSize, count, bitsLeft, buffer, result[..count]);
      } else {
        var digit := DigitOf(ch);
        if digit.None? {
          DecodingEnds(s, i, bufSize, count, bitsLeft, buffer, result[..count]);
          return -1;
        }
        DecodingTakes(s, i, bufSize, count, bitsLeft, buffer, result[..count], digit.value);
        ghost var written := result[..count];
        buffer := ShiftedIn(buffer, digit.value, 5);
        bitsLeft := bitsLeft + 5;
        if bitsLeft >= 8 {
          result[count] := buffer / Pow2(bitsLeft - 8) % 256;
          bitsLeft := bitsLeft - 8;
          count := count + 1;
          assert result[..count] == written + [result[count - 1]];
        }
      }
      i := i + 1;
    }
    DecodingEnds(s, i, bufSize, count, bitsLeft, buffer, result[..count]);
    if count < bufSize {
      result[count] := 0;
    }
  }
}
