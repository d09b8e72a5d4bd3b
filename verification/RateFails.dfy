/**
 Where the rate limit fails: times in the state file that are more than 2^31 seconds ahead of the clock.
 The comparator puts them in front, the pruning loop stops at the first of them, and nothing is counted.
 */
module RateFails {
  import opened Bytes
  import opened StateText
  import opened Numerals
  import opened LoginState
  import opened TimeSort
  import opened Authenticator
  import opened LoginRuns

  predicate FarAhead(times: seq<nat>, now: nat) {
    times != [] && Unsigned(times) && forall t :: t in times ==> t - now > HALF
  }

  lemma AheadComesFirst(now: nat, times: seq<nat>, ts: seq<nat>)
    requires FarAhead(times, now) && Arranges([now] + times, ts)
    ensures |ts| > 1 && ts[0] > now
  {
    var all: seq<nat> := [now] + times;
    assert |multiset(ts)| == |multiset(all)|;
    Members(all, ts, ts[0]);
    if ts[0] == now {
      WithoutFirst(all, ts);
      assert all[1..] == times;
      Members(times, ts[1..], ts[1]);
      AheadIsBefore(now, ts[1]);
    }
  }

  lemma WithoutFirst(all: seq<nat>, ts: seq<nat>)
    requires multiset(ts) == multiset(all) && all != [] && ts != [] && ts[0] == all[0]
    ensures multiset(ts[1..]) == multiset(all[1..])
  {
    FirstAndRest(all);
    FirstAndRest(ts);
  }

  lemma AheadIsBefore(now: nat, t: nat)
    requires t < 0x1_0000_0000 && t - now > HALF
    ensures Compare(now, t) > 0
  {
  }

  /** The login is let through and its time is lost, with all the others. */
  lemma NothingCounted(s: Text, now: nat, r: Outcome)
    requires RateOption(s).Some? && FarAhead(RateOption(s).value.times, now) && RateOption(s).value.interval <= now
    requires RateLimits(s, now, r)
    ensures r.rc == 0 && r.updated && RateOption(r.text) == Some(RateOption(s).value.(times := []))
  {
    hide Get, Set, RateText, ParseRate, Arranges;
    var rate := RateOption(s).value;
    var ts :| Arranges([now] + rate.times, ts) && r == Stored(s, rate, Kept(rate, now, ts));
    AheadComesFirst(now, rate.times, ts);
    assert rate.times[0] in rate.times;
    LimitStores(s, now, ts);
  }

  /** With one time in the file, a login is sure to be counted exactly when that time is less than 2^31 away. */
  lemma CountedExactly(rate: Rate, now: nat, t: nat)
    requires rate.times == [t] && t < 0x1_0000_0000 && 0 <= rate.interval <= 3600 && rate.interval <= now < 0x1_0000_0000
    ensures (forall ts :: Arranges([now, t], ts) ==> now in Kept(rate, now, ts)) <==> -HALF < t - now < HALF
  {
    hide Arranges, Kept, Compare;
    if -HALF < t - now < HALF {
      forall ts | Arranges([now, t], ts)
        ensures now in Kept(rate, now, ts)
      {
        NearCounts(rate, now, t, ts);
      }
    } else {
      var ts := FarLoses(rate, now, t);
      assert Arranges([now, t], ts);
    }
  }

  lemma NearCounts(rate: Rate, now: nat, t: nat, ts: seq<nat>)
    requires rate.times == [t] && t < 0x1_0000_0000 && 0 <= rate.interval <= now < 0x1_0000_0000 && -HALF < t - now < HALF
    requires Arranges([now, t], ts)
    ensures now in Kept(rate, now, ts)
  {
    hide Arrange, Arranged, Pruned;
    var both: seq<nat> := [now] + rate.times;
    assert both == [now, t];
    OneArrangement(both, ts);
    RecentWithin(rate, now);
    NowWithin(both, ts, now - rate.interval, now);
  }

  lemma FarLoses(rate: Rate, now: nat, t: nat) returns (ts: seq<nat>)
    requires t < 0x1_0000_0000 && 0 <= rate.interval <= 3600 && rate.interval <= now < 0x1_0000_0000
    requires t - now >= HALF || now - t >= HALF
    ensures Arranges([now, t], ts) && Kept(rate, now, ts) == []
  {
    hide Arranges, Pruned;
    ts := if t > now then [t, now] else [now, t];
    FarPair([now, t], ts);
    NothingKept(ts, now - rate.interval, now);
  }

  lemma FarPair(both: seq<nat>, ts: seq<nat>)
    requires |both| == 2 && (ts == both || ts == [both[1], both[0]]) && ts[0] < 0x1_0000_0000
    requires ts[0] - ts[1] >= HALF
    ensures Arranges(both, ts)
  {
    hide Compare;
    FarIsBefore(ts[0], ts[1]);
    assert both == [both[0], both[1]] && ts == [ts[0], ts[1]];
    assert multiset(both) == multiset{ts[0], ts[1]} == multiset(ts);
    var rest := ts[1..];
    assert |rest| == 1 && Arranged(rest);
    assert Arranged(ts);
  }

  lemma NothingKept(ts: seq<nat>, low: nat, high: nat)
    requires |ts| == 2 && low <= high
    requires ts[0] > high || (ts[0] == high && ts[1] < low)
    ensures Pruned(ts, low, high, []) == []
  {
    assert ts[1..] == [ts[1]] && ts[1..][1..] == [];
    if ts[0] == high {
      assert Pruned(ts, low, high, []) == Pruned([ts[1]], low, high, [high]) == Pruned([], low, high, []);
    }
  }

  lemma NowWithin(both: seq<nat>, ts: seq<nat>, low: int, high: nat)
    requires |both| == 2 && both[0] == high && multiset(ts) == multiset(both) && low <= high
    ensures high in Within(ts, low, high)
  {
    Members(both, ts, high);
    InWithin(ts, low, high, high);
  }

  lemma {:induction false} InWithin(ts: seq<nat>, low: int, high: int, t: nat)
    requires t in ts && low <= t <= high
    ensures t in Within(ts, low, high)
    decreases |ts|
  {
    if t != ts[0] {
      assert t in ts[1..];
      InWithin(ts[1..], low, high, t);
    }
  }

  /**
   In the first seconds of 1970 the start of the interval wraps around, every time lies before it, and nothing
   is counted either.
   */
  lemma EarlyClock(s: Text, now: nat, r: Outcome)
    requires RateOption(s).Some? && now < RateOption(s).value.interval && RateLimits(s, now, r)
    requires forall t :: t in RateOption(s).value.times ==> t < 0x1_0000_0000 - 3600
    ensures r.rc == 0 && r.updated
  {
    hide Get, Set, RateText, ParseRate, Arranges;
    var rate := RateOption(s).value;
    var ts :| Arranges([now] + rate.times, ts) && r == Stored(s, rate, Kept(rate, now, ts));
    forall t | t in ts
      ensures t < now - rate.interval + 0x1_0000_0000
    {
      ArrangedMember([now] + rate.times, ts, t);
      assert t == now || t in rate.times;
    }
    AllBefore(ts, now - rate.interval + 0x1_0000_0000, now, []);
  }

  lemma ArrangedMember(all: seq<nat>, ts: seq<nat>, t: nat)
    requires Arranges(all, ts) && t in ts
    ensures t in all
  {
    Members(all, ts, t);
  }

  lemma {:induction false} AllBefore(ts: seq<nat>, low: nat, high: nat, kept: seq<nat>)
    requires forall t :: t in ts ==> t < low
    ensures Pruned(ts, low, high, kept) == if ts == [] then kept else []
    decreases |ts|
  {
    if ts != [] {
      assert ts[0] in ts && forall t :: t in ts[1..] ==> t in ts;
      AllBefore(ts[1..], low, high, []);
    }
  }

  // ---------- two logins where one is allowed ----------

  const START: nat := 1700000000

  /** At most one login in 30 seconds, and a time of the year 2106. */
  const ONE_IN_THIRTY: Rate := Rate(1, 30, [0xFFFF_FFFF])

  /** A secret, the limit and the mark of time-based codes. */
  function FileLines(): seq<Text> {
    [[83, NEWLINE], OptionLine(RATE_LIMIT, RateText(ONE_IN_THIRTY)), OptionLine(TOTP_AUTH, [])]
  }

  const ATTEMPTS: seq<Attempt> := [Attempt(START, 0, true), Attempt(START + 1, 0, true)]

  function AnyCode(step: int): int {
    0
  }

  /** A file with a limit and a time-based secret, and the other options left out. */
  predicate Plain(s: Text) {
    && Get(s, DISALLOW_REUSE).None? && Get(s, WINDOW_SIZE).None? && Get(s, TIME_SKEW).None? && Get(s, HOTP_COUNTER).None?
    && Get(s, TOTP_AUTH).Some?
  }

  lemma TotpKey()
    ensures IsKey(TOTP_AUTH) && TOTP_AUTH != RATE_LIMIT && TOTP_AUTH != DISALLOW_REUSE && TOTP_AUTH != WINDOW_SIZE
    ensures TOTP_AUTH != TIME_SKEW && TOTP_AUTH != HOTP_COUNTER
  {
    assert TOTP_AUTH[0] != RATE_LIMIT[0] && TOTP_AUTH[0] != DISALLOW_REUSE[0] && TOTP_AUTH[0] != WINDOW_SIZE[0];
    assert TOTP_AUTH[1] != TIME_SKEW[1] && TOTP_AUTH[0] != HOTP_COUNTER[0];
  }

  lemma {:induction false} LineStands(lines: seq<Text>, x: nat)
    requires x < |lines|
    ensures exists i :: 0 <= i && Stands(Join(lines), i, lines[x])
    decreases |lines|
  {
    var s, rest := Join(lines), Join(lines[1..]);
    if x == 0 {
      assert Stands(s, 0, lines[0]);
    } else {
      LineStands(lines[1..], x - 1);
      var i :| 0 <= i && Stands(rest, i, lines[x]);
      assert s[|lines[0]|..] == rest;
      assert s[|lines[0]| + i..|lines[0]| + i + |lines[x]|] == rest[i..i + |lines[x]|];
      assert Stands(s, |lines[0]| + i, lines[x]);
    }
  }

  /** The option line is the mark that is_totp looks for. */
  lemma OptionIsMark(s: Text)
    requires Get(s, TOTP_AUTH).Some?
    ensures IsTotp(s)
  {
    hide Lines, LineFor, Join, Stands, GetFrom;
    var lines := Lines(s);
    FoundHas(lines, TOTP_AUTH);
    var x :| 0 <= x < |lines| && LineFor(lines[x], TOTP_AUTH);
    LinesWellFormed(s);
    LineStands(lines, x);
    var i :| 0 <= i && Stands(s, i, lines[x]);
    MarkStands(s, i, lines[x]);
  }

  lemma MarkStands(s: Text, i: nat, line: Text)
    requires Stands(s, i, line) && LineFor(line, TOTP_AUTH)
    ensures i <= |s| && Stands(s, i, TOTP_MARK)
  {
    var n := |TOTP_MARK|;
    assert TOTP_MARK == [QUOTE, SPACE] + line[2..n] == line[..n];
    assert s[i..i + |line|][..n] == s[i..i + n];
  }

  /** A login that passes the rate limit is granted, for any code is right. */
  lemma PlainLogin(s: Text, now: nat, r: Outcome)
    requires Plain(s) && RateLimits(s, now, r) && r.rc == 0 && r.updated
    ensures Plain(r.text) && LoginStep(s, Attempt(now, 0, true), AnyCode, Result(Some(FirstStep(s, now)), r.text))
  {
    hide Get, RateLimits, IsTotp, Strtol, Strtoul;
    KeysDiffer();
    TotpKey();
    RateKeepsAll(s, now, r);
    RateKeeps(s, now, r, WINDOW_SIZE);
    RateKeeps(s, now, r, TIME_SKEW);
    RateKeeps(s, now, r, TOTP_AUTH);
    OptionIsMark(r.text);
    assert Window(s) == 3 && Skew(s) == 0;
    assert StepOf(r.text, now, 0, AnyCode) == Some(FirstStep(s, now));
    assert Checks(r.text, now, 0, AnyCode, Outcome(0, false, r.text));
    assert LoginAfter(s, Attempt(now, 0, true), AnyCode, r, Result(Some(FirstStep(s, now)), r.text));
  }

  lemma FileIs()
    ensures var file := Join(FileLines()); Lines(file) == FileLines() && Plain(file) && RateOption(file) == Some(ONE_IN_THIRTY)
  {
    hide RateText, OptionLine, ParseRate, Trimmed, LineFor, Lines, ValueOn;
    KeysDiffer();
    TotpKey();
    var lines := FileLines();
    LinesFit();
    LinesOfJoin(lines);
    Unkeyed();
    RateTextIsValue(ONE_IN_THIRTY);
    OptionLineValue(RATE_LIMIT, RateText(ONE_IN_THIRTY));
    FirstCharacter(ONE_IN_THIRTY);
    RateBack(ONE_IN_THIRTY);
    forall key | IsKey(key)
      ensures !LineFor(lines[0], key) && (LineFor(lines[1], key) <==> key == RATE_LIMIT) && (LineFor(lines[2], key) <==> key == TOTP_AUTH)
    {
      OptionLineFor(RATE_LIMIT, RateText(ONE_IN_THIRTY), key);
      OptionLineFor(TOTP_AUTH, [], key);
    }
    ThreeLines(lines, RATE_LIMIT);
    ThreeLines(lines, TOTP_AUTH);
    ThreeLines(lines, DISALLOW_REUSE);
    ThreeLines(lines, WINDOW_SIZE);
    ThreeLines(lines, TIME_SKEW);
    ThreeLines(lines, HOTP_COUNTER);
  }

  lemma Unkeyed()
    ensures forall key: Text :: !LineFor([83, NEWLINE], key)
  {
  }

  lemma ThreeLines(lines: seq<Text>, key: Text)
    requires |lines| == 3
    ensures !LineFor(lines[0], key) && !LineFor(lines[1], key) && !LineFor(lines[2], key) ==> GetFrom(lines, key).None?
    ensures !LineFor(lines[0], key) && LineFor(lines[1], key) ==> GetFrom(lines, key) == Some(ValueOn(lines[1], key))
    ensures !LineFor(lines[0], key) && !LineFor(lines[1], key) && LineFor(lines[2], key) ==> GetFrom(lines, key).Some?
  {
    hide LineFor, ValueOn;
    var rest, last := lines[1..], lines[2..];
    assert rest[1..] == last && last[1..] == [];
    assert GetFrom(last, key).Some? <==> LineFor(lines[2], key);
    assert !LineFor(lines[1], key) ==> GetFrom(rest, key) == GetFrom(last, key);
  }

  lemma LinesFit()
    ensures WellFormed(FileLines())
  {
    hide RateText, OptionLine, NextLine;
    KeysDiffer();
    TotpKey();
    RateTextIsValue(ONE_IN_THIRTY);
    OptionLineIsLine(RATE_LIMIT, RateText(ONE_IN_THIRTY));
    OptionLineIsLine(TOTP_AUTH, []);
    SecretLine();
  }

  lemma SecretLine()
    ensures IsLine([83, NEWLINE])
  {
    NoEnd([83, NEWLINE], 0, 1);
    assert EolEnd([83, NEWLINE], 2) == 2;
  }

  /** Two logins are granted within a second, although one in 30 seconds is the limit. */
  lemma TwoLogins() returns (files: seq<Text>, steps: seq<Option<int>>)
    ensures Run(files, ATTEMPTS, steps, AnyCode) && files[0] == Join(FileLines()) && RateOption(files[0]) == Some(ONE_IN_THIRTY)
    ensures Granted(ATTEMPTS, steps, 2, START, START + 30) == 2 > ONE_IN_THIRTY.attempts
  {
    hide Get, Join, RateOption, Stored, Arrange, Kept, FirstStep, LoginStep, Plain, Arranges, RateLimits;
    FileIs();
    var file := Join(FileLines());
    var first := LimitAt(file, START);
    NothingCounted(file, START, first);
    PlainLogin(file, START, first);
    var second := LimitAt(first.text, START + 1);
    OneCounted(first.text, START + 1, second);
    PlainLogin(first.text, START + 1, second);
    files, steps := [file, first.text, second.text], [Some(FirstStep(file, START)), Some(FirstStep(first.text, START + 1))];
    PlainRange(file);
    PlainRange(first.text);
    assert Granted(ATTEMPTS, steps, 1, START, START + 30) == 1;
  }

  lemma LimitAt(s: Text, now: nat) returns (r: Outcome)
    requires RateOption(s).Some?
    ensures RateLimits(s, now, r)
  {
    hide Get, Stored, Kept, Arrange;
    var rate := RateOption(s).value;
    ArrangeArranges([now] + rate.times);
    r := Stored(s, rate, Kept(rate, now, Arrange([now] + rate.times)));
  }

  /** With no other time in the file, a login is within the limit. */
  lemma OneCounted(s: Text, now: nat, r: Outcome)
    requires RateOption(s).Some? && RateOption(s).value.times == [] && RateOption(s).value.interval <= now < 0x1_0000_0000
    requires RateLimits(s, now, r)
    ensures r.rc == 0 && r.updated
  {
    hide Get, Arrange, ParseRate, Pruned;
    var rate := RateOption(s).value;
    assert NarrowAt(s, now);
    LimitMeans(s, now, r);
    RecentCounts(rate, now, now);
  }

  lemma PlainRange(s: Text)
    requires Plain(s)
    ensures Counter(s) <= 0 && Skew(s) == 0
  {
    hide Get;
  }
}
