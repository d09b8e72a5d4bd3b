/** What the options of a state file mean: the used time steps, the recent attempts, the window and the skew. */
module LoginState {
  import opened Bytes
  import opened StateText
  import opened Numerals

  const RATE_LIMIT: Text := [82, 65, 84, 69, 95, 76, 73, 77, 73, 84]
  const DISALLOW_REUSE: Text := [68, 73, 83, 65, 76, 76, 79, 87, 95, 82, 69, 85, 83, 69]
  const WINDOW_SIZE: Text := [87, 73, 78, 68, 79, 87, 95, 83, 73, 90, 69]
  const TIME_SKEW: Text := [84, 73, 77, 69, 95, 83, 75, 69, 87]
  const HOTP_COUNTER: Text := [72, 79, 84, 80, 95, 67, 79, 85, 78, 84, 69, 82]
  const TOTP_AUTH: Text := [84, 79, 84, 80, 95, 65, 85, 84, 72]

  lemma KeysDiffer()
    ensures IsKey(RATE_LIMIT) && IsKey(DISALLOW_REUSE) && IsKey(WINDOW_SIZE) && IsKey(TIME_SKEW) && IsKey(HOTP_COUNTER)
    ensures RATE_LIMIT != DISALLOW_REUSE && RATE_LIMIT != WINDOW_SIZE && RATE_LIMIT != TIME_SKEW && RATE_LIMIT != HOTP_COUNTER
    ensures DISALLOW_REUSE != WINDOW_SIZE && DISALLOW_REUSE != TIME_SKEW && DISALLOW_REUSE != HOTP_COUNTER
  {
    assert RATE_LIMIT[0] != DISALLOW_REUSE[0] && RATE_LIMIT[0] != WINDOW_SIZE[0] && RATE_LIMIT[0] != TIME_SKEW[0];
    assert DISALLOW_REUSE[0] != WINDOW_SIZE[0] && DISALLOW_REUSE[0] != TIME_SKEW[0];
    assert HOTP_COUNTER[0] != RATE_LIMIT[0] && HOTP_COUNTER[0] != DISALLOW_REUSE[0];
  }

  // ---------- lists of numbers ----------

  function Cat(a: seq<int>, b: Option<seq<int>>): Option<seq<int>> {
    if b.None? then None else Some(a + b.value)
  }

  /** The numbers, separated by blanks, from place `i` on; nothing when the list is malformed. */
  function Entries(s: Text, i: nat): Option<seq<int>>
    requires i <= |s|
    decreases |s| - i
  {
    var p := BlankEnd(s, i);
    if p == |s| then Some([]) else
      var r := Strtoul(s, p);
      if r.None? || (r.value.1 < |s| && !Blank(s[r.value.1])) then None
      else Cat([r.value.0], Entries(s, r.value.1))
  }

  lemma {:induction false} BlanksShift(s: Text, i: nat, j: nat)
    requires i <= j <= |s|
    ensures BlankEnd(s[i..], j - i) == BlankEnd(s, j) - i
    decreases |s| - j
  {
    if j < |s| {
      BlanksShift(s, i, j + 1);
    }
  }

  lemma {:induction false} EntriesShift(s: Text, i: nat, j: nat)
    requires i <= j <= |s|
    ensures Entries(s[i..], j - i) == Entries(s, j)
    decreases |s| - j
  {
    hide Strtoul, BlankEnd;
    BlanksShift(s, i, j);
    var p := BlankEnd(s, j);
    if p < |s| {
      StrtoulShift(s, i, p);
      var r := Strtoul(s, p);
      if r.Some? {
        EntriesShift(s, i, r.value.1);
      }
    }
  }

  lemma {:induction false} BlanksTwice(s: Text, i: nat)
    requires i <= |s|
    ensures BlankEnd(s, BlankEnd(s, i)) == BlankEnd(s, i)
    decreases |s| - i
  {
    if i < |s| && Blank(s[i]) {
      BlanksTwice(s, i + 1);
    }
  }

  lemma EntriesSkip(s: Text, i: nat)
    requires i <= |s|
    ensures Entries(s, BlankEnd(s, i)) == Entries(s, i)
  {
    hide Strtoul;
    BlanksTwice(s, i);
  }

  /** No number of the first text can run on into the second. */
  predicate Apart(a: Text, b: Text) {
    a == [] || b == [] || Blank(a[|a| - 1]) || Blank(b[0])
  }

  lemma {:induction false} BlanksLonger(a: Text, b: Text, i: nat)
    requires i <= |a|
    ensures BlankEnd(a, i) < |a| ==> BlankEnd(a + b, i) == BlankEnd(a, i)
    ensures BlankEnd(a, i) == |a| ==> BlankEnd(a + b, i) == |a| + BlankEnd(b, 0)
    decreases |a| - i
  {
    if i < |a| {
      BlanksLonger(a, b, i + 1);
    } else {
      assert (a + b)[|a|..] == b;
      BlanksShift(a + b, |a|, |a|);
    }
  }

  lemma {:induction false} EntriesSplit(a: Text, b: Text, i: nat)
    requires i <= |a| && Apart(a, b) && Entries(a, i).Some?
    ensures Entries(a + b, i) == Cat(Entries(a, i).value, Entries(b, 0))
    decreases |a| - i
  {
    hide Strtoul, BlankEnd;
    var p := BlankEnd(a, i);
    BlanksLonger(a, b, i);
    if p == |a| {
      EntriesSkip(a + b, i);
      EntriesShift(a + b, |a|, |a| + BlankEnd(b, 0));
      assert (a + b)[|a|..] == b;
      EntriesSkip(b, 0);
      NothingFirst(Entries(b, 0));
    } else {
      var r := Strtoul(a, p);
      var e := r.value.1;
      LastDigit(a, p);
      StrtoulLonger(a, b, p);
      EntriesSplit(a, b, e);
      Regroup([r.value.0], Entries(a, e).value, Entries(b, 0));
    }
  }

  lemma Regroup(a: seq<int>, b: seq<int>, c: Option<seq<int>>)
    ensures Cat(a, Cat(b, c)) == Cat(a + b, c)
  {
    if c.Some? {
      assert a + (b + c.value) == (a + b) + c.value;
    }
  }

  lemma NothingFirst(c: Option<seq<int>>)
    ensures Cat([], c) == c
  {
    assert c.Some? ==> [] + c.value == c.value;
  }

  /** A number ends with a digit. */
  lemma LastDigit(s: Text, p: nat)
    requires p <= |s| && Strtoul(s, p).Some?
    ensures Digit(s[Strtoul(s, p).value.1 - 1])
  {
    hide Value, ToInt;
    var q := SpaceEnd(s, p);
    DigitBefore(s, if q < |s| && (s[q] == MINUS || s[q] == PLUS) then q + 1 else q);
  }

  lemma {:induction false} DigitBefore(s: Text, i: nat)
    requires i <= |s|
    ensures DigitEnd(s, i) > i ==> Digit(s[DigitEnd(s, i) - 1])
    decreases |s| - i
  {
    if i < |s| && Digit(s[i]) {
      DigitBefore(s, i + 1);
    }
  }

  /** The number at `p` is the only one of what it stands in. */
  lemma OneEntry(s: Text, p: nat)
    requires p < |s| && !Blank(s[p]) && Strtoul(s, p).Some?
    ensures var r := Strtoul(s, p).value; Entries(s[p..r.1], 0) == Some([r.0])
  {
    hide SpaceEnd, DigitEnd, Value, ToInt, ScanNumber;
    var r := Strtoul(s, p).value;
    StrtoulShift(s, p, p);
    StrtoulShorter(s[p..], 0);
    var t := s[p..r.1];
    assert t == s[p..][..r.1 - p] && t[0] == s[p];
    assert Entries(t, r.1 - p) == Some([]);
    assert [r.0] + [] == [r.0];
  }

  /** What is written as a number is read as that entry. */
  lemma WrittenEntry(v: int)
    requires -0x8000_0000 <= v < 0x8000_0000
    ensures Entries(Decimal(v), 0) == Some([v]) && !Blank(Decimal(v)[0])
  {
    var s := Decimal(v);
    assert Stands(s, 0, s);
    assert Digit(Digits(if v < 0 then -v else v)[0]);
    assert SpaceEnd(s, 0) == 0;
    DecimalBack(s, 0, 0, v);
    assert Entries(s, |s|) == Some([]);
    assert [v] + [] == [v];
  }

  // ---------- used time steps ----------

  /** The steps that are not further from `tm` than the window reaches. */
  function Keep(steps: seq<int>, tm: int, window: int): seq<int> {
    if steps == [] then []
    else (if steps[0] - tm >= window || tm - steps[0] >= window then [] else [steps[0]]) + Keep(steps[1..], tm, window)
  }

  lemma {:induction false} KeepAppend(steps: seq<int>, v: int, tm: int, window: int)
    ensures Keep(steps + [v], tm, window) == Keep(steps, tm, window) + Keep([v], tm, window)
    decreases |steps|
  {
    if steps == [] {
      assert steps + [v] == [v];
    } else {
      assert (steps + [v])[1..] == steps[1..] + [v];
      KeepAppend(steps[1..], v, tm, window);
    }
  }

  lemma {:induction false} KeepMembers(steps: seq<int>, tm: int, window: int, v: int)
    ensures v in Keep(steps, tm, window) <==> v in steps && v - tm < window && tm - v < window
    decreases |steps|
  {
    if steps != [] {
      KeepMembers(steps[1..], tm, window, v);
      assert v in steps <==> v == steps[0] || v in steps[1..];
    }
  }

  /** The steps that may not be used again, when the option is there and well formed. */
  function Blocked(s: Text): Option<seq<int>> {
    var value := Get(s, DISALLOW_REUSE);
    if value.None? then None else Entries(value.value, 0)
  }

  /** window_size: 3 without the option, and 0 when it is invalid. */
  function Window(s: Text): (w: int)
    ensures 0 <= w <= 100
  {
    var value := Get(s, WINDOW_SIZE);
    if value.None? then 3 else
      var r := Strtoul(value.value, 0);
      if r.None? then 0
      else if r.value.1 < |value.value| && !Blank(value.value[r.value.1]) then 0
      else if r.value.0 < 1 || r.value.0 > 100 then 0
      else r.value.0
  }

  function Skew(s: Text): int {
    var value := Get(s, TIME_SKEW);
    if value.None? then 0 else Strtol(value.value)
  }

  /** get_hotp_counter: codes are time-based unless it is positive. */
  function Counter(s: Text): int {
    var value := Get(s, HOTP_COUNTER);
    if value.None? then 0 else StrtolLong(value.value)
  }

  // ---------- recent attempts ----------

  datatype Rate = Rate(attempts: int, interval: int, times: seq<nat>)

  /** A conversion to an unsigned int. */
  function ToUnsigned(x: int): nat {
    x % 0x1_0000_0000
  }

  predicate Unsigned(times: seq<nat>) {
    forall x :: 0 <= x < |times| ==> times[x] < 0x1_0000_0000
  }

  function ParseTimes(s: Text, i: nat): (r: Option<seq<nat>>)
    requires i <= |s|
    ensures r.Some? ==> Unsigned(r.value)
    decreases |s| - i
  {
    if i == |s| then Some([])
    else if !Blank(s[i]) then None
    else
      var r := Strtoul(s, i);
      if r.None? then None else
        var rest := ParseTimes(s, r.value.1);
        if rest.None? then None else Some([ToUnsigned(r.value.0)] + rest.value)
  }

  /** The RATE_LIMIT option: the number of attempts, the interval, and the times of attempts. */
  function ParseRate(s: Text): (r: Option<Rate>)
    ensures r.Some? ==> 1 <= r.value.attempts <= 100 && 1 <= r.value.interval <= 3600 && Unsigned(r.value.times)
  {
    var a := Strtoul(s, 0);
    if a.None? || a.value.0 < 1 || a.value.0 > 100 then None
    else if a.value.1 == |s| || !Blank(s[a.value.1]) then None
    else
      var n := Strtoul(s, a.value.1);
      if n.None? || n.value.0 < 1 || n.value.0 > 3600 then None else
        var times := ParseTimes(s, n.value.1);
        if times.None? then None else Some(Rate(a.value.0, n.value.0, times.value))
  }

  function TimesText(times: seq<nat>): Text {
    if times == [] then [] else [SPACE] + Decimal(times[0]) + TimesText(times[1..])
  }

  function RateText(rate: Rate): Text {
    Decimal(rate.attempts) + [SPACE] + Decimal(rate.interval) + TimesText(rate.times)
  }

  lemma {:induction false} TimesTextAppend(times: seq<nat>, t: nat)
    ensures TimesText(times + [t]) == TimesText(times) + [SPACE] + Decimal(t)
    decreases |times|
  {
    if times == [] {
      assert times + [t] == [t] && [t][1..] == [];
    } else {
      assert (times + [t])[1..] == times[1..] + [t];
      TimesTextAppend(times[1..], t);
    }
  }

  /** A number that is written behind a space is read back. */
  lemma BlankThenNumber(s: Text, i: nat, v: nat, rest: Text)
    requires i <= |s| && s[i..] == [SPACE] + Decimal(v) + rest && (rest == [] || !Digit(rest[0])) && v < 0x1_0000_0000
    ensures i < |s| && Blank(s[i])
    ensures Strtoul(s, i) == Some((ToInt(v), i + 1 + |Decimal(v)|)) && s[i + 1 + |Decimal(v)|..] == rest
  {
    hide Digits, ToInt;
    var t := s[i..];
    var e := i + 1 + |Decimal(v)|;
    assert s[i] == t[0] && s[i + 1] == t[1] == Decimal(v)[0];
    assert s[i + 1..e] == t[1..1 + |Decimal(v)|] == Decimal(v);
    assert s[e..] == t[1 + |Decimal(v)|..] == rest;
    assert SpaceEnd(s, i) == i + 1;
    assert e < |s| ==> s[e] == rest[0];
    ScanBack(s, i, i + 1, v);
  }

  lemma UnsignedBack(v: nat)
    requires v < 0x1_0000_0000
    ensures ToUnsigned(ToInt(v)) == v
  {
  }

  lemma {:induction false} TimesBack(s: Text, i: nat, times: seq<nat>)
    requires i <= |s| && s[i..] == TimesText(times) && Unsigned(times)
    ensures ParseTimes(s, i) == Some(times)
    decreases |times|
  {
    hide Decimal, Strtoul;
    if times != [] {
      UnsignedBack(times[0]);
      assert [times[0]] + times[1..] == times;
      var rest := TimesText(times[1..]);
      BlankThenNumber(s, i, times[0], rest);
      TimesBack(s, i + 1 + |Decimal(times[0])|, times[1..]);
    }
  }

  lemma RateBack(rate: Rate)
    requires 1 <= rate.attempts <= 100 && 1 <= rate.interval <= 3600 && Unsigned(rate.times)
    ensures ParseRate(RateText(rate)) == Some(rate)
  {
    hide Decimal, Strtoul, TimesText, ParseTimes;
    var s := RateText(rate);
    var a := Decimal(rate.attempts);
    var rest := TimesText(rate.times);
    var tail := [SPACE] + Decimal(rate.interval) + rest;
    assert s == a + tail;
    NumberThenText(a, rate.attempts, tail);
    TimesStart(rate.times);
    assert s[|a|..] == tail;
    BlankThenNumber(s, |a|, rate.interval, rest);
    TimesBack(s, |a| + 1 + |Decimal(rate.interval)|, rate.times);
  }

  lemma TimesStart(times: seq<nat>)
    ensures TimesText(times) == [] || TimesText(times)[0] == SPACE
  {
  }

  lemma NumberThenText(a: Text, v: nat, tail: Text)
    requires a == Decimal(v) && v < 0x8000_0000 && tail != [] && !Digit(tail[0])
    ensures Strtoul(a + tail, 0) == Some((v, |a|))
  {
    hide Digits;
    var s := a + tail;
    assert Stands(s, 0, a);
    var d := Digits(v);
    assert Digit(d[0]) && s[0] == d[0] && s[|a|] == tail[0];
    NoSpace(s, 0);
    DecimalBack(s, 0, 0, v);
  }

  lemma NoSpace(s: Text, i: nat)
    requires i < |s| && !Space(s[i])
    ensures SpaceEnd(s, i) == i
  {
  }
}
