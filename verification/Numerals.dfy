/** Decimal numbers in text: what sprintf writes, and what strtoul and strtol read. */
module Numerals {
  import opened Bytes
  import opened StateText

  const MINUS: Byte := 45
  const PLUS: Byte := 43

  predicate Digit(c: Byte) {
    48 <= c <= 57
  }

  /** isspace */
  predicate Space(c: Byte) {
    c == 32 || 9 <= c <= 13
  }

  /** The digits of `n`. */
  function Digits(n: nat): (s: Text)
    ensures s != [] && forall x :: 0 <= x < |s| ==> Digit(s[x])
  {
    if n < 10 then [48 + n] else Digits(n / 10) + [48 + n % 10]
  }

  /** "%d", and "%u" for what is not negative. */
  function Decimal(v: int): Text {
    if v < 0 then [MINUS] + Digits(-v) else Digits(v)
  }

  function SpaceEnd(s: Text, i: nat): (e: nat)
    requires i <= |s|
    ensures i <= e <= |s| && (e < |s| ==> !Space(s[e]))
    decreases |s| - i
  {
    if i < |s| && Space(s[i]) then SpaceEnd(s, i + 1) else i
  }

  function DigitEnd(s: Text, i: nat): (e: nat)
    requires i <= |s|
    ensures i <= e <= |s| && (e < |s| ==> !Digit(s[e]))
    decreases |s| - i
  {
    if i < |s| && Digit(s[i]) then DigitEnd(s, i + 1) else i
  }

  /** The value of the digits from `i` to `j`. */
  function Value(s: Text, i: nat, j: nat): nat
    requires i <= j <= |s|
    decreases j - i
  {
    if i == j then 0
    else Value(s, i, j - 1) * 10 + if Digit(s[j - 1]) then s[j - 1] - 48 else 0
  }

  datatype Scan = NoNumber | Scan(negative: bool, magnitude: nat, end: nat)

  /** The number at `i`, behind white space and a sign. */
  function ScanNumber(s: Text, i: nat): (r: Scan)
    requires i <= |s|
    ensures r.Scan? ==> i < r.end <= |s| && (r.end < |s| ==> !Digit(s[r.end]))
  {
    var p := SpaceEnd(s, i);
    var d := if p < |s| && (s[p] == MINUS || s[p] == PLUS) then p + 1 else p;
    var e := DigitEnd(s, d);
    if e == d then NoNumber else Scan(p < |s| && s[p] == MINUS, Value(s, d, e), e)
  }

  function Signed(negative: bool, magnitude: nat): int {
    if negative then 0 - magnitude else magnitude
  }

  /** A conversion to a 32-bit int. */
  function ToInt(x: int): int {
    var low := x % 0x1_0000_0000;
    if low < 0x8000_0000 then low else low - 0x1_0000_0000
  }

  /** (int)strtoul(s + i, &end, 10); nothing when there is no number, or errno is set. */
  function Strtoul(s: Text, i: nat): (r: Option<(int, nat)>)
    requires i <= |s|
    ensures r.Some? ==> i < r.value.1 <= |s| && (r.value.1 < |s| ==> !Digit(s[r.value.1]))
    ensures r.Some? ==> -0x8000_0000 <= r.value.0 < 0x8000_0000
  {
    var r := ScanNumber(s, i);
    if r.NoNumber? || r.magnitude >= 0x1_0000_0000_0000_0000 then None
    else Some((ToInt(Signed(r.negative, r.magnitude)), r.end))
  }

  /** strtol(s, NULL, 10), which is clamped to 64 bits, and 0 when there is no number. */
  function StrtolLong(s: Text): int {
    var r := ScanNumber(s, 0);
    if r.NoNumber? then 0
    else
      var limit := if r.negative then 0x8000_0000_0000_0000 else 0x7FFF_FFFF_FFFF_FFFF;
      Signed(r.negative, if r.magnitude > limit then limit else r.magnitude)
  }

  /** (int)strtol(s, NULL, 10) */
  function Strtol(s: Text): int {
    ToInt(StrtolLong(s))
  }

  // ---------- reading back ----------

  /** `t` stands in `s` at `i`. */
  predicate Stands(s: Text, i: nat, t: Text) {
    i + |t| <= |s| && s[i..i + |t|] == t
  }

  lemma {:induction false} DigitsEnd(s: Text, i: nat, e: nat)
    requires i <= e <= |s| && (forall x :: i <= x < e ==> Digit(s[x])) && (e < |s| ==> !Digit(s[e]))
    ensures DigitEnd(s, i) == e
    decreases e - i
  {
    if i < e {
      DigitsEnd(s, i + 1, e);
    }
  }

  lemma {:induction false} DigitsValue(s: Text, i: nat, n: nat)
    requires Stands(s, i, Digits(n))
    ensures Value(s, i, i + |Digits(n)|) == n
    decreases n
  {
    var t := Digits(n);
    assert s[i + |t| - 1] == t[|t| - 1];
    if n >= 10 {
      var head := Digits(n / 10);
      assert s[i..i + |head|] == t[..|head|] == head;
      DigitsValue(s, i, n / 10);
    }
  }

  /** A number that was written, with blanks in front and something else behind it, is read back. */
  lemma DecimalBack(s: Text, i: nat, p: nat, v: int)
    requires i <= p && -0x8000_0000 <= v < 0x8000_0000 && Stands(s, p, Decimal(v)) && SpaceEnd(s, i) == p
    requires p + |Decimal(v)| < |s| ==> !Digit(s[p + |Decimal(v)|])
    ensures Strtoul(s, i) == Some((v, p + |Decimal(v)|))
  {
    hide ScanNumber, Decimal, Stands;
    ScanBack(s, i, p, v);
  }

  /** The sign and the digits of a number, where it stands. */
  lemma DecimalStands(s: Text, p: nat, v: int)
    requires Stands(s, p, Decimal(v))
    ensures var t := Digits(if v < 0 then -v else v); var d := if v < 0 then p + 1 else p;
            && |Decimal(v)| == d - p + |t| && Stands(s, d, t) && (forall x :: d <= x < d + |t| ==> Digit(s[x]))
            && p < |s| && (if v < 0 then s[p] == MINUS else Digit(s[p]))
  {
    hide Digits;
    var t, u := Digits(if v < 0 then -v else v), Decimal(v);
    var d := if v < 0 then p + 1 else p;
    assert s[p] == u[0];
    forall x | d <= x < d + |t|
      ensures s[x] == t[x - d]
    {
      assert s[p..p + |u|][x - p] == u[x - p];
    }
    assert s[d..d + |t|] == t;
  }

  lemma ScanBack(s: Text, i: nat, p: nat, v: int)
    requires i <= p && Stands(s, p, Decimal(v)) && SpaceEnd(s, i) == p
    requires p + |Decimal(v)| < |s| ==> !Digit(s[p + |Decimal(v)|])
    ensures ScanNumber(s, i) == Scan(v < 0, if v < 0 then -v else v, p + |Decimal(v)|)
  {
    hide SpaceEnd, DigitEnd, Value, Digits, Decimal;
    var n: nat := if v < 0 then -v else v;
    var d := if v < 0 then p + 1 else p;
    var t := Digits(n);
    DecimalStands(s, p, v);
    DigitsEnd(s, d, d + |t|);
    DigitsValue(s, d, n);
  }

  // ---------- other text in front and behind ----------

  lemma {:induction false} EndsShift(s: Text, i: nat, j: nat)
    requires i <= j <= |s|
    ensures SpaceEnd(s[i..], j - i) == SpaceEnd(s, j) - i && DigitEnd(s[i..], j - i) == DigitEnd(s, j) - i
    decreases |s| - j
  {
    if j < |s| {
      EndsShift(s, i, j + 1);
    }
  }

  lemma {:induction false} ValueShift(s: Text, i: nat, a: nat, b: nat)
    requires i <= a <= b <= |s|
    ensures Value(s[i..], a - i, b - i) == Value(s, a, b)
    decreases b - a
  {
    if a < b {
      ValueShift(s, i, a, b - 1);
    }
  }

  lemma StrtoulShift(s: Text, i: nat, j: nat)
    requires i <= j <= |s|
    ensures var r, r' := Strtoul(s, j), Strtoul(s[i..], j - i);
            if r.None? then r'.None? else r' == Some((r.value.0, r.value.1 - i))
  {
    hide ScanNumber, ToInt;
    ScanShift(s, i, j);
  }

  lemma ScanShift(s: Text, i: nat, j: nat)
    requires i <= j <= |s|
    ensures var r, r' := ScanNumber(s, j), ScanNumber(s[i..], j - i);
            if r.NoNumber? then r'.NoNumber? else r' == Scan(r.negative, r.magnitude, r.end - i)
  {
    hide SpaceEnd, DigitEnd, Value;
    EndsShift(s, i, j);
    var p := SpaceEnd(s, j);
    var d := if p < |s| && (s[p] == MINUS || s[p] == PLUS) then p + 1 else p;
    EndsShift(s, i, d);
    ValueShift(s, i, d, DigitEnd(s, d));
  }

  lemma {:induction false} EndsLonger(s: Text, t: Text, j: nat)
    requires j <= |s|
    ensures SpaceEnd(s, j) < |s| ==> SpaceEnd(s + t, j) == SpaceEnd(s, j)
    ensures DigitEnd(s, j) < |s| || t == [] || !Digit(t[0]) ==> DigitEnd(s + t, j) == DigitEnd(s, j)
    decreases |s| - j
  {
    if j < |s| {
      EndsLonger(s, t, j + 1);
    }
  }

  lemma {:induction false} ValueLonger(s: Text, t: Text, a: nat, b: nat)
    requires a <= b <= |s|
    ensures Value(s + t, a, b) == Value(s, a, b)
    decreases b - a
  {
    if a < b {
      ValueLonger(s, t, a, b - 1);
    }
  }

  /** A number is read alike when text is put behind it that does not go on with digits. */
  lemma StrtoulLonger(s: Text, t: Text, j: nat)
    requires j <= |s| && Strtoul(s, j).Some?
    requires Strtoul(s, j).value.1 < |s| || t == [] || !Digit(t[0])
    ensures Strtoul(s + t, j) == Strtoul(s, j)
  {
    hide SpaceEnd, DigitEnd, Value, ToInt;
    EndsLonger(s, t, j);
    var p := SpaceEnd(s, j);
    var d := if p < |s| && (s[p] == MINUS || s[p] == PLUS) then p + 1 else p;
    EndsLonger(s, t, d);
    ValueLonger(s, t, d, DigitEnd(s, d));
  }

  lemma {:induction false} EndsShorter(s: Text, n: nat, j: nat)
    requires j <= n <= |s|
    ensures SpaceEnd(s, j) < n ==> SpaceEnd(s[..n], j) == SpaceEnd(s, j)
    ensures DigitEnd(s, j) <= n ==> DigitEnd(s[..n], j) == DigitEnd(s, j)
    decreases n - j
  {
    if j < n {
      EndsShorter(s, n, j + 1);
    }
  }

  /** A number is read alike when the text is cut behind it. */
  lemma StrtoulShorter(s: Text, j: nat)
    requires j <= |s| && Strtoul(s, j).Some?
    ensures Strtoul(s[..Strtoul(s, j).value.1], j) == Strtoul(s, j)
  {
    hide SpaceEnd, DigitEnd, Value, ToInt;
    var e := Strtoul(s, j).value.1;
    EndsShorter(s, e, j);
    var p := SpaceEnd(s, j);
    var d := if p < |s| && (s[p] == MINUS || s[p] == PLUS) then p + 1 else p;
    EndsShorter(s, e, d);
    ValueLonger(s[..e], s[e..], d, e);
    assert s[..e] + s[e..] == s;
  }
}
