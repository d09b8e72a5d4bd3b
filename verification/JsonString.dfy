/**
 How the parser reads a string: a first pass finds the end and how many bytes the escapes save, a buffer
 of that size is allocated, and a second pass fills it.

 The passes agree on what an escape is only while the text is well formed: the second one takes a \u
 escape for six or twelve bytes, the first for two.  The buffer is large enough even so.
 */
module JsonString {
  import opened Bytes
  import opened JsonSpec

  // ---------- the size of the output ----------

  /** How many escapes the first pass, now at `q`, counts before `p`. */
  function Skipped(b: seq<Byte>, q: nat, p: nat): (n: nat)
    requires p <= |b|
    ensures n <= if q < p then p - q else 0
    decreases p - q
  {
    if q >= p then 0
    else if b[q] == BACKSLASH then 1 + Skipped(b, q + 2, p)
    else Skipped(b, q + 1, p)
  }

  /** Escapes that the first pass counts are two bytes apart. */
  lemma {:induction false} SkippedStep(b: seq<Byte>, q: nat, p: nat)
    requires q <= p < |b|
    ensures b[p] != BACKSLASH ==> Skipped(b, q, p + 1) == Skipped(b, q, p)
    ensures p + 2 <= |b| ==> Skipped(b, q, p + 2) <= Skipped(b, q, p) + 1
    decreases p - q
  {
    if b[q] == BACKSLASH {
      if q + 2 <= p {
        SkippedStep(b, q + 2, p);
      }
    } else if q < p {
      SkippedStep(b, q + 1, p);
    }
  }

  lemma {:induction false} SkippedSteps(b: seq<Byte>, q: nat, p: nat, n: nat)
    requires q <= p && p + 2 * n <= |b|
    ensures Skipped(b, q, p + 2 * n) <= Skipped(b, q, p) + n
    decreases n
  {
    if n > 0 {
      SkippedSteps(b, q, p, n - 1);
      SkippedStep(b, q, p + 2 * (n - 1));
    }
  }

  /** The first pass does not take the byte before the end of the string for an escape. */
  lemma {:induction false} LastByte(b: seq<Byte>, q: nat, end: nat)
    requires q < end < |b| && StringEnd(b, q) == Some(end)
    ensures Skipped(b, q, end) == Skipped(b, q, end - 1)
    decreases end - q
  {
    if q + 1 < end {
      if b[q] == BACKSLASH {
        if q + 2 < end {
          LastByte(b, q + 2, end);
        }
      } else {
        LastByte(b, q + 1, end);
      }
    }
  }

  /** `w` bytes of output fit what the first pass has counted up to `p`. */
  predicate Fits(b: seq<Byte>, start: nat, p: nat, end: nat, w: nat)
    requires end <= |b|
  {
    var reached := if p < end then p else end;
    start <= reached && w + Skipped(b, start, reached) <= reached - start
  }

  /** How far one step of the second pass goes, and how much it writes. */
  predicate Stride(b: seq<Byte>, p: nat, end: nat, taken: nat, written: nat)
    requires p < end < |b|
  {
    || (taken == 1 && written == 1 && b[p] != BACKSLASH)
    || (taken == 2 && written == 1)
    || (taken == 6 && written <= 3 && p + 6 <= end)
    || (taken == 12 && written <= 4 && p + 12 <= end)
  }

  /** Every step of the second pass keeps the output inside the room the first pass has counted. */
  lemma StrideFits(b: seq<Byte>, start: nat, p: nat, end: nat, w: nat, taken: nat, written: nat)
    requires start <= p < end < |b| && StringEnd(b, start) == Some(end)
    requires Fits(b, start, p, end, w) && Stride(b, p, end, taken, written)
    ensures Fits(b, start, p + taken, end, w + written)
  {
    if p + taken <= end {
      SkippedStep(b, start, p);
      if taken > 1 {
        SkippedSteps(b, start, p, taken / 2);
      }
    } else {
      LastByte(b, start, end);
    }
  }

  // ---------- UTF-16 and UTF-8 ----------

  /** The code point that the UTF-8 sequence `s` encodes, read off its bytes (section 3 of RFC 3629). */
  function DecodeUtf8(s: seq<Byte>): (c: nat)
    requires 1 <= |s| <= 4
  {
    if |s| == 1 then s[0]
    else if |s| == 2 then Low(s[0], 32) * 64 + Low(s[1], 64)
    else if |s| == 3 then Low(s[0], 16) * 4096 + Low(s[1], 64) * 64 + Low(s[2], 64)
    else Low(s[0], 8) * 262144 + Low(s[1], 64) * 4096 + Low(s[2], 64) * 64 + Low(s[3], 64)
  }

  /** The bits of `c` below the one that is worth `bound`. */
  function Low(c: Byte, bound: nat): nat
    requires bound > 0
  {
    var n: nat := c;
    n % bound
  }

  /** The lead byte tells the length, and the others are continuation bytes. */
  predicate WellFormedUtf8(s: seq<Byte>) {
    && 1 <= |s| <= 4
    && (|s| == 1 ==> s[0] < 0x80) && (|s| == 2 ==> 0xC2 <= s[0] < 0xE0)
    && (|s| == 3 ==> 0xE0 <= s[0] < 0xF0) && (|s| == 4 ==> 0xF0 <= s[0] < 0xF5)
    && forall i :: 1 <= i < |s| ==> 0x80 <= s[i] < 0xC0
  }

  function ShortestUtf8(codepoint: nat): nat {
    if codepoint < 0x80 then 1 else if codepoint < 0x800 then 2 else if codepoint < 0x10000 then 3 else 4
  }

  /** UTF-8 sequences are well formed, the shortest possible, and decode to the code point. */
  lemma Utf8Back(codepoint: nat)
    requires codepoint < 0x110000
    ensures WellFormedUtf8(Utf8(codepoint)) && |Utf8(codepoint)| == ShortestUtf8(codepoint)
    ensures DecodeUtf8(Utf8(codepoint)) == codepoint
  {
    hide WellFormedUtf8, DecodeUtf8, Utf8;
    if codepoint < 0x80 {
      OneByteBack(codepoint);
    } else if codepoint < 0x800 {
      TwoBytesBack(codepoint);
    } else if codepoint < 0x10000 {
      ThreeBytesBack(codepoint);
    } else {
      FourBytesBack(codepoint);
    }
  }

  lemma OneByteBack(codepoint: nat)
    requires codepoint < 0x80
    ensures var s := Utf8(codepoint); |s| == 1 && WellFormedUtf8(s) && DecodeUtf8(s) == codepoint
  {
  }

  lemma TwoBytesBack(codepoint: nat)
    requires 0x80 <= codepoint < 0x800
    ensures var s := Utf8(codepoint); |s| == 2 && WellFormedUtf8(s) && DecodeUtf8(s) == codepoint
  {
    hide WellFormedUtf8, DecodeUtf8;
    Decode2(codepoint / 64, codepoint % 64);
  }

  lemma ThreeBytesBack(codepoint: nat)
    requires 0x800 <= codepoint < 0x10000
    ensures var s := Utf8(codepoint); |s| == 3 && WellFormedUtf8(s) && DecodeUtf8(s) == codepoint
  {
    hide WellFormedUtf8, DecodeUtf8;
    SextetsOf(codepoint);
    var high := codepoint / 64;
    Decode3(high / 64, high % 64, codepoint % 64);
  }

  lemma FourBytesBack(codepoint: nat)
    requires 0x10000 <= codepoint < 0x110000
    ensures var s := Utf8(codepoint); |s| == 4 && WellFormedUtf8(s) && DecodeUtf8(s) == codepoint
  {
    hide WellFormedUtf8, DecodeUtf8;
    SextetsOf(codepoint);
    var high := codepoint / 64;
    var top := high / 64;
    Decode4(top / 64, top % 64, high % 64, codepoint % 64);
  }

  lemma Decode2(a: nat, b: nat)
    requires 2 <= a < 32 && b < 64
    ensures var s := [0xC0 + a, 0x80 + b]; WellFormedUtf8(s) && DecodeUtf8(s) == a * 64 + b
  {
  }

  lemma Decode3(a: nat, b: nat, c: nat)
    requires a < 16 && b < 64 && c < 64
    ensures var s := [0xE0 + a, 0x80 + b, 0x80 + c]; WellFormedUtf8(s) && DecodeUtf8(s) == a * 4096 + b * 64 + c
  {
  }

  lemma Decode4(a: nat, b: nat, c: nat, d: nat)
    requires a < 5 && b < 64 && c < 64 && d < 64
    ensures var s := [0xF0 + a, 0x80 + b, 0x80 + c, 0x80 + d];
            WellFormedUtf8(s) && DecodeUtf8(s) == a * 262144 + b * 4096 + c * 64 + d
  {
  }

  lemma SextetsOf(n: nat)
    ensures n / 4096 == n / 64 / 64 && n / 262144 == n / 64 / 64 / 64
  {
  }

  /** The two halves of a surrogate pair (section 7 of RFC 8259). */
  function HighSurrogate(codepoint: nat): nat
    requires codepoint >= 0x10000
  {
    0xD800 + (codepoint - 0x10000) / 1024
  }

  function LowSurrogate(codepoint: nat): nat
    requires codepoint >= 0x10000
  {
    0xDC00 + (codepoint - 0x10000) % 1024
  }

  predicate Surrogate(code: nat) {
    0xD800 <= code <= 0xDFFF
  }

  /** Four hexadecimal digits of value `h` stand in `b` at `i`. */
  predicate ShowsHex(b: seq<Byte>, i: nat, h: nat) {
    i + 4 <= |b| && IsHex(b, i) && Hex4(b, i) == h
  }

  /** The escape of `codepoint`, six or twelve bytes, stands in `b` at `p`. */
  predicate ShowsEscape(b: seq<Byte>, p: nat, codepoint: nat) {
    && p + 6 <= |b| && b[p] == BACKSLASH && b[p + 1] == LOWER_U
    && if codepoint < 0x10000 then ShowsHex(b, p + 2, codepoint)
       else && p + 12 <= |b| && b[p + 6] == BACKSLASH && b[p + 7] == LOWER_U
            && ShowsHex(b, p + 2, HighSurrogate(codepoint)) && ShowsHex(b, p + 8, LowSurrogate(codepoint))
  }

  function EscapeSize(codepoint: nat): nat {
    if codepoint < 0x10000 then 6 else 12
  }

  /** The escape of `codepoint` stands at `p` and ends at `next`. */
  predicate Denotes(b: seq<Byte>, p: nat, codepoint: nat, next: nat) {
    codepoint < 0x110000 && !Surrogate(codepoint) && ShowsEscape(b, p, codepoint) && next == p + EscapeSize(codepoint)
  }

  /** Six bytes that are an escape but for digits that are none. */
  predicate Malformed(b: seq<Byte>, p: nat, end: nat)
    requires end <= |b|
  {
    p + 6 <= end && !IsHex(b, p + 2)
  }

  /**
   An escape whose first digits are hexadecimal is accepted exactly when it stands for a code point that is not
   a surrogate, and then that is the code point: pairs of surrogates, and nothing else, stand for the code
   points above the basic plane.  With other characters in place of its first digits an escape is accepted
   all the same, for a NUL byte.
   */
  lemma EscapeMeans(b: seq<Byte>, p: nat, end: nat, codepoint: nat, next: nat)
    requires p + 2 <= end <= |b| && b[p] == BACKSLASH && b[p + 1] == LOWER_U
    ensures Malformed(b, p, end) ==> Utf16(b, p, end) == Ok(0, p + 6) && Utf8(0) == [0]
    ensures !Malformed(b, p, end) ==> (Utf16(b, p, end) == Ok(codepoint, next) <==> Denotes(b, p, codepoint, next) && next <= end)
  {
    hide Hex4, IsHex;
    if !Malformed(b, p, end) {
      if Utf16(b, p, end) == Ok(codepoint, next) {
        MeaningOf(b, p, end);
      } else if 0x10000 <= codepoint < 0x110000 {
        PairOf(codepoint);
      }
    }
  }

  lemma MeaningOf(b: seq<Byte>, p: nat, end: nat)
    requires p + 2 <= end <= |b| && b[p] == BACKSLASH && b[p + 1] == LOWER_U && Utf16(b, p, end).Ok? && !Malformed(b, p, end)
    ensures Denotes(b, p, Utf16(b, p, end).value, Utf16(b, p, end).next)
  {
    hide Hex4, IsHex, HighSurrogate, LowSurrogate;
    if end - p >= 12 && Hex4(b, p + 2) >= 0xD800 && Hex4(b, p + 2) < 0xDC00 {
      PairBack(Hex4(b, p + 2) - 0xD800, Hex4(b, p + 8) - 0xDC00);
    }
  }

  lemma PairOf(codepoint: nat)
    requires 0x10000 <= codepoint < 0x110000
    ensures 0xD800 <= HighSurrogate(codepoint) < 0xDC00 <= LowSurrogate(codepoint) < 0xE000
    ensures 0x10000 + HighSurrogate(codepoint) % 1024 * 1024 + LowSurrogate(codepoint) % 1024 == codepoint
  {
  }

  lemma PairBack(high: nat, low: nat)
    requires high < 1024 && low < 1024
    ensures var codepoint := 0x10000 + high * 1024 + low;
            HighSurrogate(codepoint) == 0xD800 + high && LowSurrogate(codepoint) == 0xDC00 + low
  {
  }

  /** parse_hex4, which gives up with zero. */
  method ParseHex4(input: seq<Byte>, at: nat) returns (h: nat)
    requires at + 4 <= |input|
    ensures h == Hex4(input, at)
  {
    h := 0;
    var i := 0;
    while i < 4
      invariant i <= 4 && forall x :: at <= x < at + i ==> HexDigit(input[x]).Some?
      invariant i == 0 ==> h == 0
      invariant i == 1 ==> h == HexDigit(input[at]).value * 16
      invariant i == 2 ==> h == HexDigit(input[at]).value * 256 + HexDigit(input[at + 1]).value * 16
      invariant i == 3 ==> h == HexDigit(input[at]).value * 4096 + HexDigit(input[at + 1]).value * 256 + HexDigit(input[at + 2]).value * 16
      invariant i == 4 ==> h == Hex4(input, at)
    {
      var digit := HexDigit(input[at + i]);
      if digit.None? {
        return 0;
      }
      h := h + digit.value;
      if i < 3 {
        h := h * 16;
      }
      i := i + 1;
    }
  }

  /** The loop that writes the bytes of a code point from the last to the first, with masks as arithmetic. */
  method EncodeUtf8(codepoint: nat, output: array<Byte>, w: nat) returns (length: nat)
    requires codepoint < 0x110000 && w + |Utf8(codepoint)| <= output.Length
    modifies output
    ensures length == |Utf8(codepoint)| && output[w..w + length] == Utf8(codepoint)
    ensures output[..w] == old(output[..w])
  {
    var rest := codepoint;
    var firstByteMark := 0;
    if codepoint < 0x80 {
      length := 1;
    } else if codepoint < 0x800 {
      length, firstByteMark := 2, 0xC0;
    } else if codepoint < 0x10000 {
      length, firstByteMark := 3, 0xE0;
    } else {
      length, firstByteMark := 4, 0xF0;
    }
    ghost var u := Utf8(codepoint);
    var position := length - 1;
    while position > 0
      invariant 0 <= position < length
      invariant rest == Shifted(codepoint, length - 1 - position)
      invariant forall x :: position < x < length ==> output[w + x] == u[x]
      invariant output[..w] == old(output[..w])
    {
      ShiftedByte(codepoint, length, position);
      output[w + position] := 0x80 + rest % 64;
      rest := rest / 64;
      position := position - 1;
    }
    ShiftedByte(codepoint, length, 0);
    output[w] := firstByteMark + rest;
    assert forall x :: 0 <= x < length ==> output[w..w + length][x] == u[x];
  }

  function Shifted(codepoint: nat, times: nat): nat {
    if times == 0 then codepoint else Shifted(codepoint, times - 1) / 64
  }

  lemma ShiftedByte(codepoint: nat, length: nat, position: nat)
    requires codepoint < 0x110000 && length == |Utf8(codepoint)| && position < length
    ensures var rest := Shifted(codepoint, length - 1 - position);
            Utf8(codepoint)[position] == if position > 0 then 0x80 + rest % 64
                                         else (if length == 1 then 0 else if length == 2 then 0xC0 else if length == 3 then 0xE0 else 0xF0) + rest
  {
    SextetsOf(codepoint);
    var high := codepoint / 64;
    assert Shifted(codepoint, 0) == codepoint;
    assert Shifted(codepoint, 1) == high;
    assert Shifted(codepoint, 2) == high / 64;
    assert Shifted(codepoint, 3) == high / 64 / 64;
  }

  /** utf16_literal_to_utf8: writes the bytes at `w`, and returns the length of the escape, or 0. */
  method Utf16ToUtf8(input: seq<Byte>, p: nat, end: nat, output: array<Byte>, w: nat) returns (sequenceLength: nat, next: nat)
    requires p <= end <= |input| && w <= output.Length
    requires Utf16(input, p, end).Ok? ==> w + |Utf8(Utf16(input, p, end).value)| <= output.Length
    modifies output
    ensures sequenceLength == 0 <==> Utf16(input, p, end).Fail?
    ensures output[..w] == old(output[..w])
    ensures var u := Utf16(input, p, end); u.Ok? ==>
              && p + sequenceLength == u.next && next == w + |Utf8(u.value)|
              && output[w..next] == Utf8(u.value)
  {
    hide Hex4, Utf8;
    next := w;
    if end - p < 6 {
      return 0, w;
    }
    var first := ParseHex4(input, p + 2);
    if 0xDC00 <= first <= 0xDFFF {
      return 0, w;
    }
    var codepoint := first;
    sequenceLength := 6;
    if 0xD800 <= first <= 0xDBFF {
      var second := p + 6;
      sequenceLength := 12;
      if end - second < 6 {
        return 0, w;
      }
      if input[second] != BACKSLASH || input[second + 1] != LOWER_U {
        return 0, w;
      }
      var secondCode := ParseHex4(input, second + 2);
      if secondCode < 0xDC00 || secondCode > 0xDFFF {
        return 0, w;
      }
      codepoint := 0x10000 + first % 1024 * 1024 + secondCode % 1024;
    }
    assert Utf16(input, p, end) == Ok(codepoint, p + sequenceLength);
    var length := EncodeUtf8(codepoint, output, w);
    next := w + length;
  }

  // ---------- the two passes ----------

  /** The first pass: where the string that starts at `start` ends, and what its escapes save. */
  method MeasureString(content: seq<Byte>, start: nat) returns (ok: bool, end: nat, skipped: nat)
    requires start <= |content|
    ensures ok == StringEnd(content, start).Some?
    ensures ok ==> end == StringEnd(content, start).value && skipped == Skipped(content, start, end)
  {
    end, skipped := start, 0;
    while end < |content| && content[end] != QUOTE
      invariant start <= end <= |content|
      invariant StringEnd(content, start) == StringEnd(content, end)
      invariant forall p :: end <= p <= |content| ==> Skipped(content, start, p) == skipped + Skipped(content, end, p)
    {
      if content[end] == BACKSLASH {
        if end + 1 >= |content| {
          return false, end, skipped;
        }
        skipped := skipped + 1;
        end := end + 1;
      }
      end := end + 1;
    }
    ok := end < |content|;
  }

  /** Where the second pass goes on from `p`, and what it writes there. */
  function Step(b: seq<Byte>, p: nat, end: nat): (r: Parsed<seq<Byte>>)
    requires p < end < |b|
    ensures r.Ok? ==> p < r.next && Stride(b, p, end, r.next - p, |r.value|)
  {
    if b[p] != BACKSLASH then Ok([b[p]], p + 1)
    else if SimpleEscape(b[p + 1]).Some? then Ok([SimpleEscape(b[p + 1]).value], p + 2)
    else if b[p + 1] == LOWER_U && Utf16(b, p, end).Ok? then Ok(Utf8(Utf16(b, p, end).value), Utf16(b, p, end).next)
    else Fail
  }

  lemma StepPrepends(b: seq<Byte>, p: nat, end: nat, done: seq<Byte>, whole: Option<seq<Byte>>)
    requires p < end < |b| && whole == Prepend(done, Unescape(b, p, end))
    ensures var r := Step(b, p, end);
            whole == if r.Ok? then Prepend(done + r.value, Unescape(b, r.next, end)) else None
  {
    var r := Step(b, p, end);
    if r.Ok? {
      assert Unescape(b, p, end) == Prepend(r.value, Unescape(b, r.next, end));
      var rest := Unescape(b, r.next, end);
      if rest.Some? {
        assert done + (r.value + rest.value) == (done + r.value) + rest.value;
      }
    }
  }

  /** One turn of the second pass's loop. */
  method UnescapeOne(content: seq<Byte>, p: nat, end: nat, output: array<Byte>, w: nat) returns (ok: bool, p': nat, w': nat)
    requires p < end < |content| && w <= output.Length
    requires Step(content, p, end).Ok? ==> w + |Step(content, p, end).value| <= output.Length
    modifies output
    ensures ok == Step(content, p, end).Ok? && output[..w] == old(output[..w])
    ensures var r := Step(content, p, end); r.Ok? ==> p' == r.next && w' == w + |r.value| && output[w..w'] == r.value
  {
    ok, p', w' := true, p, w;
    if content[p] != BACKSLASH {
      output[w] := content[p];
      p', w' := p + 1, w + 1;
    } else {
      var sequenceLength := 2;
      var letter := SimpleEscape(content[p + 1]);
      if letter.Some? {
        output[w] := letter.value;
        w' := w + 1;
      } else if content[p + 1] == LOWER_U {
        sequenceLength, w' := Utf16ToUtf8(content, p, end, output, w);
        ok := sequenceLength != 0;
      } else {
        ok := false;
      }
      p' := p + sequenceLength;
    }
  }

  /** The second pass, over the string from `start` to `end`: every write stays inside the output. */
  method UnescapeInto(content: seq<Byte>, start: nat, end: nat, output: array<Byte>) returns (ok: bool, p: nat, w: nat)
    requires start <= end < |content| && StringEnd(content, start) == Some(end)
    requires output.Length == end - start - Skipped(content, start, end) + 2
    modifies output
    ensures ok == Unescape(content, start, end).Some?
    ensures ok ==> w < output.Length && output[..w] == Unescape(content, start, end).value
    ensures !ok ==> p < end
  {
    hide Step, Stride, Skipped, StringEnd;
    ghost var whole := Unescape(content, start, end);
    p, w := start, 0;
    assert whole.Some? ==> output[..0] + whole.value == whole.value;
    while p < end
      invariant start <= p && Fits(content, start, p, end, w) && w < output.Length
      invariant whole == Prepend(output[..w], Unescape(content, p, end))
      decreases end - p
    {
      ghost var r, done := Step(content, p, end), output[..w];
      StepPrepends(content, p, end, done, whole);
      if r.Ok? {
        StrideFits(content, start, p, end, w, r.next - p, |r.value|);
        FitsRoom(content, start, r.next, end, w + |r.value|);
      }
      var p', w';
      ok, p', w' := UnescapeOne(content, p, end, output, w);
      if !ok {
        return;
      }
      assert output[..w'] == output[..w] + output[w..w'];
      p, w := p', w';
    }
    ok := true;
  }

  lemma FitsRoom(b: seq<Byte>, start: nat, p: nat, end: nat, w: nat)
    requires start <= p && start <= end < |b| && Fits(b, start, p, end, w)
    ensures w <= end - start - Skipped(b, start, end)
  {
    if p < end {
      SkippedRest(b, start, p, end);
    }
  }

  /** Past `p` the first pass counts at most as many escapes as there are bytes. */
  lemma {:induction false} SkippedRest(b: seq<Byte>, q: nat, p: nat, end: nat)
    requires q <= p <= end < |b|
    ensures Skipped(b, q, end) <= Skipped(b, q, p) + (end - p)
    decreases p - q
  {
    if q < p {
      if b[q] == BACKSLASH {
        if q + 2 <= p {
          SkippedRest(b, q + 2, p, end);
        }
      } else {
        SkippedRest(b, q + 1, p, end);
      }
    }
  }
}
