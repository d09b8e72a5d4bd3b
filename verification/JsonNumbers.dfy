/** Which texts are numbers, and how much of a text the parser reads as one. */
module JsonNumbers {
  import opened Bytes
  import opened JsonSpec

  /** `s` has digits alone from `i` to `j`. */
  predicate DigitsAt(s: seq<Byte>, i: nat, j: nat) {
    i <= j <= |s| && forall x :: i <= x < j ==> '0' as int <= s[x] <= '9' as int
  }

  /** Behind `f` there is nothing up to `n`, or an exponent. */
  predicate ExponentAt(s: seq<Byte>, f: nat, n: nat) {
    && f <= n <= |s|
    && (f < n ==>
          && (s[f] == 'e' as int || s[f] == 'E' as int)
          && var d := if f + 1 < n && (s[f + 1] == '+' as int || s[f + 1] == '-' as int) then f + 2 else f + 1;
             d < n && DigitsAt(s, d, n))
  }

  /**
   The first `n` bytes of `s` are a number of section 6 of RFC 8259, but that its whole part, which ends
   at `a`, may start with zeros; its fraction, if it has one, ends at `f`.
   */
  predicate Spelled(s: seq<Byte>, a: nat, f: nat, n: nat) {
    && 0 < n <= |s|
    && var i := if s[0] == '-' as int then 1 else 0;
       && i < a <= f && DigitsAt(s, i, a) && ExponentAt(s, f, n)
       && (a < f ==> s[a] == '.' as int && a + 1 < f && DigitsAt(s, a + 1, f))
  }

  ghost predicate IsNumber(t: seq<Byte>) {
    exists a: nat, f: nat :: Spelled(t, a, f, |t|)
  }

  /** The same for section 7.22.1.3 of the C standard: a plus may stand in front, and digits on one side of the point do. */
  predicate Convertible(s: seq<Byte>, a: nat, f: nat, n: nat) {
    && 0 < n <= |s|
    && var i := if s[0] == '-' as int || s[0] == '+' as int then 1 else 0;
       && i <= a <= f && DigitsAt(s, i, a) && ExponentAt(s, f, n)
       && (a < f ==> s[a] == '.' as int && DigitsAt(s, a + 1, f))
       && (i < a || a + 1 < f)
  }

  /** A byte that can go on with a number. */
  predicate GoesOn(c: Byte) {
    '0' as int <= c <= '9' as int || c == '+' as int || c == '-' as int || c == '.' as int || c == 'e' as int || c == 'E' as int
  }

  // ---------- what strtod converts ----------

  lemma {:induction false} DigitsLongest(s: seq<Byte>, i: nat)
    requires i <= |s|
    ensures DigitsAt(s, i, i + Digits(s, i))
    ensures i + Digits(s, i) < |s| ==> !Digit(s[i + Digits(s, i)])
    decreases |s| - i
  {
    if i < |s| && Digit(s[i]) {
      DigitsLongest(s, i + 1);
    }
  }

  /** A stretch of digits does not go past where `Digits` stops. */
  lemma DigitsWithin(s: seq<Byte>, i: nat, j: nat)
    requires DigitsAt(s, i, j)
    ensures j <= i + Digits(s, i) && (j < |s| && !Digit(s[j]) ==> j == i + Digits(s, i))
  {
    DigitsLongest(s, i);
  }

  lemma ExponentLongest(s: seq<Byte>, f: nat)
    requires f <= |s|
    ensures ExponentAt(s, f, ExponentEnd(s, f)) && forall n: nat :: ExponentAt(s, f, n) ==> n <= ExponentEnd(s, f)
  {
    forall d | f <= d <= |s| {
      DigitsLongest(s, d);
    }
    forall n: nat | ExponentAt(s, f, n)
      ensures n <= ExponentEnd(s, f)
    {
      if f < n {
        DigitsWithin(s, if f + 1 < n && (s[f + 1] == PLUS || s[f + 1] == MINUS) then f + 2 else f + 1, n);
      }
    }
  }

  /** strtod converts the longest number that the text starts with, and nothing when there is none. */
  lemma StrtodLongest(s: seq<Byte>)
    ensures Strtod(s) > 0 ==> exists a: nat, f: nat :: Convertible(s, a, f, Strtod(s))
    ensures forall a: nat, f: nat, n: nat :: Convertible(s, a, f, n) ==> n <= Strtod(s)
  {
    StrtodConverts(s);
    forall a: nat, f: nat, n: nat | Convertible(s, a, f, n)
      ensures n <= Strtod(s)
    {
      StrtodReaches(s, a, f, n);
    }
  }

  lemma StrtodConverts(s: seq<Byte>)
    ensures Strtod(s) > 0 ==> exists a: nat, f: nat :: Convertible(s, a, f, Strtod(s))
  {
    hide Digits, ExponentEnd, ExponentAt, DigitsAt;
    if Strtod(s) > 0 {
      var i := if s[0] == PLUS || s[0] == MINUS then 1 else 0;
      var a := i + Digits(s, i);
      DigitsLongest(s, i);
      var dot := a < |s| && s[a] == DOT;
      var f := if dot then a + 1 + Digits(s, a + 1) else a;
      if dot {
        DigitsLongest(s, a + 1);
      }
      ExponentLongest(s, f);
      assert Convertible(s, a, f, Strtod(s));
    }
  }

  lemma StrtodReaches(s: seq<Byte>, a: nat, f: nat, n: nat)
    requires Convertible(s, a, f, n)
    ensures n <= Strtod(s)
  {
    hide Digits, ExponentEnd;
    var i := if s[0] == PLUS || s[0] == MINUS then 1 else 0;
    DigitsWithin(s, i, a);
    var whole := i + Digits(s, i);
    if a < f {
      DigitsWithin(s, a + 1, f);
    }
    ExponentLongest(s, f);
    var dot := whole < |s| && s[whole] == DOT;
    var end := if dot then whole + 1 + Digits(s, whole + 1) else whole;
    ExponentLongest(s, end);
  }

  // ---------- what the parser reads ----------

  /** All of a number is converted. */
  lemma NumberConverts(t: seq<Byte>)
    requires IsNumber(t)
    ensures 0 < |t| && Strtod(t) == |t|
  {
    var a: nat, f: nat :| Spelled(t, a, f, |t|);
    assert Convertible(t, a, f, |t|);
    StrtodLongest(t);
  }

  lemma ConvertedChars(t: seq<Byte>, a: nat, f: nat)
    requires Convertible(t, a, f, |t|)
    ensures forall x :: 0 <= x < |t| ==> NumberChar(t[x])
  {
  }

  lemma NumberChars(t: seq<Byte>)
    requires IsNumber(t)
    ensures (t[0] == MINUS || Digit(t[0])) && forall x :: 0 <= x < |t| ==> NumberChar(t[x])
  {
    var a: nat, f: nat :| Spelled(t, a, f, |t|);
    assert ExponentAt(t, f, |t|);
  }

  lemma {:induction false} RunIs(b: seq<Byte>, i: nat, t: seq<Byte>, room: nat)
    requires CString(b) && ShowsToken(b, i, t) && |t| <= room && (forall x :: 0 <= x < |t| ==> NumberChar(t[x]))
    requires i + |t| < |b| && (|t| == room || !NumberChar(b[i + |t|]))
    ensures NumberRun(b, i, room) == |t|
    decreases room
  {
    if |t| > 0 {
      assert b[i + 0] == t[0];
      assert forall x :: 0 <= x < |t[1..]| ==> t[1..][x] == t[1 + x];
      RunIs(b, i + 1, t[1..], room - 1);
    }
  }

  lemma RunReads(b: seq<Byte>, i: nat, t: seq<Byte>)
    requires CString(b) && i + |t| < |b| && b[i..i + |t|] == t && NumberRun(b, i, NUMBER_ROOM) == |t| && 0 < |t| == Strtod(t)
    ensures ParseNumber(b, i) == Ok(Number(t), i + |t|)
  {
    hide Strtod, NumberRun;
    assert t[..|t|] == t;
  }

  /** A number of up to 63 bytes is read whole, wherever it stands. */
  lemma NumberRead(b: seq<Byte>, i: nat, t: seq<Byte>)
    requires CString(b) && IsNumber(t) && |t| <= 63
    requires i + |t| < |b| && b[i..i + |t|] == t && !GoesOn(b[i + |t|])
    ensures ParseNumber(b, i) == Ok(Number(t), i + |t|)
  {
    NumberConverts(t);
    NumberChars(t);
    forall x {:trigger t[x]} | 0 <= x < |t| ensures b[i + x] == t[x] {
      assert b[i..i + |t|][x] == t[x];
    }
    RunIs(b, i, t, NUMBER_ROOM);
    RunReads(b, i, t);
  }

  /** So is whatever else strtod converts. */
  lemma ConvertibleRead(b: seq<Byte>, i: nat, t: seq<Byte>, a: nat, f: nat)
    requires CString(b) && Convertible(t, a, f, |t|) && |t| <= 63
    requires ShowsToken(b, i, t) && i + |t| < |b| && !NumberChar(b[i + |t|])
    ensures ParseNumber(b, i) == Ok(Number(t), i + |t|)
  {
    StrtodLongest(t);
    ConvertedChars(t, a, f);
    assert forall x :: 0 <= x < |t| ==> b[i..i + |t|][x] == b[i + x] == t[x];
    assert b[i..i + |t|] == t;
    RunIs(b, i, t, NUMBER_ROOM);
    RunReads(b, i, t);
  }

  /** Of more digits than 63 the first 63 are read. */
  lemma NumberCut(b: seq<Byte>, i: nat)
    requires CString(b) && i + 63 < |b| && DigitsAt(b, i, i + 63)
    ensures ParseNumber(b, i) == Ok(Number(b[i..i + 63]), i + 63)
  {
    var t := b[i..i + 63];
    assert Spelled(t, |t|, |t|, |t|);
    NumberConverts(t);
    RunIs(b, i, t, NUMBER_ROOM);
    RunReads(b, i, t);
  }
}
