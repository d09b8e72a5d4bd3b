/**
 Login with a time-based code: the rate limit, the search for the code in the window around the current
 time step, the ban on reuse, and the write of the state file that every login must survive.
 */
module Authenticator {
  import opened Bytes
  import opened StateText
  import opened StateBuffer
  import opened Numerals
  import opened LoginState
  import opened TimeSort

  const TOTP_MARK: Text := [QUOTE, SPACE] + TOTP_AUTH

  /** What a check returns, whether it has changed the state, and the text it leaves. */
  datatype Outcome = Outcome(rc: int, updated: bool, text: Text)

  // ---------- the rate limit ----------

  function Newest(times: seq<nat>, n: nat): seq<nat> {
    if |times| <= n then times else times[|times| - n..]
  }

  /** What is left of arranged times in the interval up to `now`. */
  function Kept(rate: Rate, now: nat, ts: seq<nat>): seq<nat> {
    Pruned(ts, ToUnsigned(now - rate.interval), now, [])
  }

  /** The attempts of the current interval, with the one at `now`, when the comparator leaves no choice. */
  function Recent(rate: Rate, now: nat): seq<nat> {
    Kept(rate, now, Arrange([now] + rate.times))
  }

  function RateOption(s: Text): Option<Rate> {
    var value := Get(s, RATE_LIMIT);
    if value.None? then None else ParseRate(value.value)
  }

  /** What rate_limit does about the times that it has kept. */
  function Stored(s: Text, rate: Rate, recent: seq<nat>): Outcome
    requires rate.attempts >= 0
  {
    Outcome(if |recent| > rate.attempts then -1 else 0, true,
            Set(s, RATE_LIMIT, RateText(rate.(times := Newest(recent, rate.attempts)))))
  }

  /** What rate_limit may come to at time `now`, whatever arrangement the sort chooses. */
  ghost predicate RateLimits(s: Text, now: nat, r: Outcome) {
    if Get(s, RATE_LIMIT).None? then r == Outcome(0, false, s)
    else if RateOption(s).None? then r == Outcome(-1, false, s)
    else exists ts :: Arranges([now] + RateOption(s).value.times, ts) &&
                      r == Stored(s, RateOption(s).value, Kept(RateOption(s).value, now, ts))
  }

  /** The times of the option and the clock are less than 2^31 apart. */
  predicate NarrowAt(s: Text, now: nat) {
    RateOption(s).Some? ==> Narrow([now] + RateOption(s).value.times)
  }

  /** What rate_limit comes to at time `now`, when the comparator leaves no choice. */
  function RateLimited(s: Text, now: nat): Outcome {
    if Get(s, RATE_LIMIT).None? then Outcome(0, false, s)
    else if RateOption(s).None? then Outcome(-1, false, s)
    else Stored(s, RateOption(s).value, Recent(RateOption(s).value, now))
  }

  lemma LimitIsFunction(s: Text, now: nat, r: Outcome)
    requires NarrowAt(s, now) && now < 0x1_0000_0000
    ensures RateLimits(s, now, r) <==> r == RateLimited(s, now)
  {
    hide Get, Stored, Kept, Arrange, Arranges, ParseRate, Narrow;
    if RateOption(s).Some? {
      var times := [now] + RateOption(s).value.times;
      TimesUnsigned(s, now);
      ArrangeArranges(times);
      forall ts | Arranges(times, ts)
        ensures ts == Arrange(times)
      {
        OneArrangement(times, ts);
      }
    }
  }

  lemma TimesUnsigned(s: Text, now: nat)
    requires RateOption(s).Some? && now < 0x1_0000_0000
    ensures Unsigned([now] + RateOption(s).value.times)
  {
    hide Get;
  }

  lemma {:induction false} TimesTextIsValue(times: seq<nat>)
    ensures IsValue(TimesText(times))
    decreases |times|
  {
    if times != [] {
      TimesTextIsValue(times[1..]);
      DecimalIsValue(times[0]);
    }
  }

  lemma DecimalIsValue(v: int)
    ensures IsValue(Decimal(v)) && Decimal(v) != []
  {
  }

  lemma RateTextIsValue(rate: Rate)
    ensures IsValue(RateText(rate))
  {
    DecimalIsValue(rate.attempts);
    DecimalIsValue(rate.interval);
    TimesTextIsValue(rate.times);
  }

  /** The head of rate_limit: the numbers of the option, and the times behind them. */
  method ReadRate(value: Text) returns (rate: Option<Rate>)
    requires IsValue(value)
    ensures rate == ParseRate(value)
  {
    var first := Strtoul(value, 0);
    if first.None? || first.value.0 < 1 || first.value.0 > 100 {
      return None;
    }
    var (attempts, endptr) := first.value;
    if endptr == |value| || !Blank(value[endptr]) {
      return None;
    }
    var second := Strtoul(value, endptr);
    if second.None? || second.value.0 < 1 || second.value.0 > 3600 {
      return None;
    }
    var interval := second.value.0;
    endptr := second.value.1;
    var times: seq<nat> := [];
    ghost var start := endptr;
    PrefixedNothing(ParseTimes(value, start));
    while endptr < |value|
      invariant endptr <= |value|
      invariant ParseTimes(value, start) == Prefixed(times, ParseTimes(value, endptr))
      decreases |value| - endptr
    {
      if !Blank(value[endptr]) {
        return None;
      }
      var next := Strtoul(value, endptr);
      if next.None? {
        return None;
      }
      PrefixedTwice(times, [ToUnsigned(next.value.0)], ParseTimes(value, next.value.1));
      times := times + [ToUnsigned(next.value.0)];
      endptr := next.value.1;
    }
    assert times + [] == times;
    return Some(Rate(attempts, interval, times));
  }

  function Prefixed(a: seq<nat>, b: Option<seq<nat>>): Option<seq<nat>> {
    if b.None? then None else Some(a + b.value)
  }

  lemma PrefixedNothing(b: Option<seq<nat>>)
    ensures Prefixed([], b) == b
  {
    assert b.Some? ==> [] + b.value == b.value;
  }

  lemma PrefixedTwice(a: seq<nat>, b: seq<nat>, c: Option<seq<nat>>)
    ensures Prefixed(a, Prefixed(b, c)) == Prefixed(a + b, c)
  {
    if c.Some? {
      assert a + (b + c.value) == (a + b) + c.value;
    }
  }

  /** The loop that prunes the sorted times. */
  method Prune(timestamps: seq<nat>, interval: nat, now: nat) returns (start: int, stop: int)
    ensures 0 <= start <= stop + 1 <= |timestamps|
    ensures timestamps[start..stop + 1] == Pruned(timestamps, ToUnsigned(now - interval), now, [])
  {
    hide ToUnsigned;
    var low := ToUnsigned(now - interval);
    start, stop := 0, -1;
    var i := 0;
    assert timestamps[0..] == timestamps && timestamps[0..0] == [];
    while i < |timestamps|
      invariant 0 <= start <= i <= |timestamps| && stop == i - 1
      invariant Pruned(timestamps, low, now, []) == Pruned(timestamps[i..], low, now, timestamps[start..i])
    {
      ghost var rest := timestamps[i..];
      assert rest[0] == timestamps[i] && rest[1..] == timestamps[i + 1..];
      if timestamps[i] < low {
        start := i + 1;
        assert timestamps[i + 1..i + 1] == [];
      } else if timestamps[i] > now {
        break;
      }
      assert start <= i ==> timestamps[start..i] + [timestamps[i]] == timestamps[start..i + 1];
      stop := i;
      i := i + 1;
    }
  }

  /** qsort, which may choose any arrangement that the comparator accepts. */
  method Sort(times: seq<nat>) returns (timestamps: seq<nat>)
    ensures Arranges(times, timestamps)
  {
    ArrangeArranges(times);
    timestamps := Arrange(times);
  }

  lemma NoTimesText(head: Text)
    ensures head + TimesText([]) == head
  {
  }

  lemma Joined(a: Text, b: Text, c: Text, d: Text)
    ensures a + b + c + d == a + (b + c + d)
  {
  }

  /** The loop that prints the new list. */
  method PrintRate(attempts: int, interval: int, times: seq<nat>) returns (list: Text)
    ensures list == RateText(Rate(attempts, interval, times))
  {
    hide Decimal, TimesText;
    list := Decimal(attempts) + [SPACE] + Decimal(interval);
    ghost var head := list;
    var i := 0;
    NoTimesText(head);
    while i < |times|
      invariant i <= |times| && list == head + TimesText(times[..i])
    {
      TimesTextAppend(times[..i], times[i]);
      assert times[..i + 1] == times[..i] + [times[i]];
      Joined(head, TimesText(times[..i]), [SPACE], Decimal(times[i]));
      list := list + [SPACE] + Decimal(times[i]);
      i := i + 1;
    }
    assert times[..i] == times;
  }

  /** rate_limit */
  method RateLimit(state: StateBuffer, now: nat) returns (rc: int, updated: bool)
    requires state.Valid()
    modifies state, state.buf
    ensures state.Valid() && (state.buf == old(state.buf) || fresh(state.buf))
    ensures RateLimits(old(state.text), now, Outcome(rc, updated, state.text))
  {
    hide Get, Set, Arranges, Pruned, RateText, ParseRate;
    KeysDiffer();
    var value := state.GetCfgValue(RATE_LIMIT);
    if value.None? {
      return 0, false;
    }
    var parsed := ReadRate(value.value);
    if parsed.None? {
      return -1, false;
    }
    var Rate(attempts, interval, times) := parsed.value;
    var timestamps := Sort([now] + times);
    var start, stop := Prune(timestamps, interval, now);
    ghost var recent := timestamps[start..stop + 1];
    var exceeded := stop - start + 1 > attempts;
    if exceeded {
      start := stop - attempts + 1;
    }
    var kept := timestamps[start..stop + 1];
    assert kept == Newest(recent, attempts);
    var list := PrintRate(attempts, interval, kept);
    RateTextIsValue(Rate(attempts, interval, kept));
    state.SetCfgValue(RATE_LIMIT, list);
    return if exceeded then -1 else 0, true;
  }

  // ---------- the ban on reuse ----------

  /** window_size */
  method WindowSize(state: StateBuffer) returns (window: int)
    requires state.Valid()
    ensures window == Window(state.text)
  {
    hide Get, Strtoul;
    KeysDiffer();
    var value := state.GetCfgValue(WINDOW_SIZE);
    if value.None? {
      return 3;
    }
    var number := Strtoul(value.value, 0);
    if number.None? {
      return 0;
    }
    var (size, endptr) := number.value;
    if endptr < |value.value| && !Blank(value.value[endptr]) && !Eol(value.value[endptr]) {
      return 0;
    }
    if size < 1 || size > 100 {
      return 0;
    }
    return size;
  }

  /** `d` is a list of `steps`. */
  predicate Lists(d: Text, steps: seq<int>) {
    IsValue(d) && Entries(d, 0) == Some(steps)
  }

  /** What invalidate_timebased_code comes to for the step `tm`. */
  ghost predicate Invalidates(s: Text, tm: int, r: Outcome) {
    if Get(s, DISALLOW_REUSE).None? then r == Outcome(0, false, s)
    else if Window(s) == 0 || Blocked(s).None? || tm in Blocked(s).value then r == Outcome(-1, false, s)
    else
      && r.rc == 0 && r.updated
      && exists d: Text {:trigger Set(s, DISALLOW_REUSE, d)} ::
           Lists(d, Keep(Blocked(s).value, tm, Window(s)) + [tm]) && r.text == Set(s, DISALLOW_REUSE, d)
  }

  /** The part of the list before `ptr` has been read, and holds `kept`. */
  predicate Front(disallow: Text, ptr: nat, kept: seq<int>) {
    && ptr <= |disallow| && IsValue(disallow) && Entries(disallow[..ptr], 0) == Some(kept)
    && Apart(disallow[..ptr], disallow[ptr..])
  }

  lemma FrontStart(disallow: Text)
    requires IsValue(disallow)
    ensures Front(disallow, 0, [])
  {
    assert disallow[..0] == [];
  }

  /** Going over blanks. */
  lemma FrontSkip(disallow: Text, ptr: nat, kept: seq<int>)
    requires Front(disallow, ptr, kept)
    ensures Front(disallow, BlankEnd(disallow, ptr), kept)
    ensures Entries(disallow, BlankEnd(disallow, ptr)) == Entries(disallow, ptr)
    ensures BlankEnd(disallow, BlankEnd(disallow, ptr)) == BlankEnd(disallow, ptr)
  {
    hide IsValue, Entries, BlankEnd;
    BlanksTwice(disallow, ptr);
    var p := BlankEnd(disallow, ptr);
    var a, b := disallow[..ptr], disallow[ptr..p];
    EntriesSkip(disallow, ptr);
    AllBlank(disallow, ptr);
    OnlyBlanks(b, 0);
    assert Apart(a, b) by {
      if b != [] {
        assert b[0] == disallow[ptr];
      }
    }
    EntriesSplit(a, b, 0);
    assert a + b == disallow[..p];
    assert kept + [] == kept;
  }

  lemma {:induction false} AllBlank(s: Text, i: nat)
    requires i <= |s|
    ensures forall x :: i <= x < BlankEnd(s, i) ==> Blank(s[x])
    decreases |s| - i
  {
    if i < |s| && Blank(s[i]) {
      AllBlank(s, i + 1);
    }
  }

  lemma {:induction false} OnlyBlanks(s: Text, i: nat)
    requires i <= |s| && forall x :: i <= x < |s| ==> Blank(s[x])
    ensures BlankEnd(s, i) == |s| && Entries(s, i) == Some([])
    decreases |s| - i
  {
    if i < |s| {
      OnlyBlanks(s, i + 1);
    }
  }

  lemma TakeEntry(s: Text, p: nat)
    requires p < |s| && !Blank(s[p]) && Strtoul(s, p).Some?
    requires var e := Strtoul(s, p).value.1; e < |s| ==> Blank(s[e])
    ensures var (v, e) := Strtoul(s, p).value; Entries(s, p) == Cat([v], Entries(s, e))
  {
    hide Strtoul;
  }

  /** Going over a number that is kept. */
  lemma FrontTake(disallow: Text, p: nat, kept: seq<int>)
    requires Front(disallow, p, kept) && p < |disallow| && !Blank(disallow[p]) && Strtoul(disallow, p).Some?
    requires var e := Strtoul(disallow, p).value.1; e < |disallow| ==> Blank(disallow[e])
    ensures var (v, e) := Strtoul(disallow, p).value;
            Front(disallow, e, kept + [v]) && Entries(disallow, p) == Cat([v], Entries(disallow, e))
  {
    hide Strtoul, Entries, IsValue;
    var (v, e) := Strtoul(disallow, p).value;
    var a, b := disallow[..p], disallow[p..e];
    TakeEntry(disallow, p);
    OneEntry(disallow, p);
    assert Apart(a, b) by {
      assert disallow[p..][0] == disallow[p] == b[0];
    }
    EntriesSplit(a, b, 0);
    assert a + b == disallow[..e];
    assert e < |disallow| ==> disallow[e..][0] == disallow[e];
  }

  /** Taking a number out, with the blanks behind it. */
  lemma FrontDrop(disallow: Text, p: nat, kept: seq<int>)
    requires Front(disallow, p, kept) && p < |disallow| && !Blank(disallow[p]) && Strtoul(disallow, p).Some?
    requires var e := Strtoul(disallow, p).value.1; e < |disallow| ==> Blank(disallow[e])
    ensures var (v, e) := Strtoul(disallow, p).value; var q := BlankEnd(disallow, e); var cut := disallow[..p] + disallow[q..];
            && Front(cut, p, kept) && Entries(disallow, p) == Cat([v], Entries(cut, p))
  {
    hide Strtoul, IsValue, BlankEnd;
    CutIsValue(disallow, p, BlankEnd(disallow, Strtoul(disallow, p).value.1));
    FrontTake(disallow, p, kept);
    var (v, e) := Strtoul(disallow, p).value;
    var q := BlankEnd(disallow, e);
    var cut := disallow[..p] + disallow[q..];
    EntriesSkip(disallow, e);
    EntriesShift(disallow, q, q);
    EntriesShift(cut, p, p);
    assert cut[..p] == disallow[..p] && cut[p..] == disallow[q..];
    assert disallow[p..][0] == disallow[p];
  }

  lemma CutIsValue(s: Text, p: nat, q: nat)
    requires p <= q <= |s| && IsValue(s)
    ensures IsValue(s[..p] + s[q..])
  {
  }

  /** The end of the list, with the current step written behind it. */
  lemma ListWith(disallow: Text, kept: seq<int>, tm: int)
    requires Front(disallow, |disallow|, kept) && -0x8000_0000 <= tm < 0x8000_0000
    ensures Lists(disallow + (if disallow == [] then [] else [SPACE]) + Decimal(tm), kept + [tm])
  {
    hide Strtoul, Entries, IsValue, Decimal;
    var gap := if disallow == [] then [] else [SPACE];
    var t := gap + Decimal(tm);
    assert disallow[..|disallow|] == disallow;
    WrittenEntry(tm);
    DecimalIsValue(tm);
    GapIsValue(gap);
    ValuesJoined(disallow, gap);
    ValuesJoined(disallow + gap, Decimal(tm));
    GapEntry(gap, Decimal(tm));
    EntriesSplit(disallow, t, 0);
    assert disallow + t == disallow + gap + Decimal(tm);
  }

  lemma GapIsValue(gap: Text)
    requires gap == [] || gap == [SPACE]
    ensures IsValue(gap)
  {
  }

  lemma ValuesJoined(a: Text, b: Text)
    requires IsValue(a) && IsValue(b)
    ensures IsValue(a + b)
  {
  }

  lemma GapEntry(gap: Text, number: Text)
    requires gap == [] || gap == [SPACE]
    ensures Entries(gap + number, 0) == Entries(number, 0)
  {
    hide Strtoul;
    if gap == [] {
      assert gap + number == number;
    } else {
      assert Entries(gap, 0) == Some([]);
      EntriesSplit(gap, number, 0);
      NothingFirst(Entries(number, 0));
    }
  }

  /** invalidate_timebased_code */
  method InvalidateTimebasedCode(tm: int, state: StateBuffer) returns (rc: int, updated: bool)
    requires state.Valid() && -0x8000_0000 <= tm < 0x8000_0000
    modifies state, state.buf
    ensures state.Valid() && (state.buf == old(state.buf) || fresh(state.buf))
    ensures Invalidates(old(state.text), tm, Outcome(rc, updated, state.text))
  {
    hide Get, Set, Entries, Keep, Window;
    KeysDiffer();
    var value := state.GetCfgValue(DISALLOW_REUSE);
    if value.None? {
      return 0, false;
    }
    var window := WindowSize(state);
    if window == 0 {
      return -1, false;
    }
    var ok, disallow := PruneSteps(value.value, tm, window);
    if !ok {
      return -1, false;
    }
    state.SetCfgValue(DISALLOW_REUSE, disallow);
    return 0, true;
  }

  /** The loop over the blocked steps; it stops at a malformed one, and at the one that is asked for. */
  method PruneSteps(value: Text, tm: int, window: int) returns (ok: bool, disallow: Text)
    requires IsValue(value) && -0x8000_0000 <= tm < 0x8000_0000
    ensures ok == (Entries(value, 0).Some? && tm !in Entries(value, 0).value)
    ensures ok ==> Lists(disallow, Keep(Entries(value, 0).value, tm, window) + [tm])
  {
    hide Entries, Strtoul, Front, IsValue, BlankEnd;
    disallow := value;
    var ptr := 0;
    ghost var seen: seq<int>, kept: seq<int> := [], [];
    FrontStart(value);
    NothingFirst(Entries(value, 0));
    while true
      invariant ptr <= |disallow| && Front(disallow, ptr, kept) && kept == Keep(seen, tm, window) && tm !in seen
      invariant Entries(value, 0) == Cat(seen, Entries(disallow, ptr))
      decreases |disallow| - ptr
    {
      FrontSkip(disallow, ptr, kept);
      ptr := BlankEnd(disallow, ptr);
      EntriesNext(disallow, ptr);
      if ptr == |disallow| {
        break;
      }
      var number := Strtoul(disallow, ptr);
      if number.None? {
        return false, disallow;
      }
      var (blocked, endptr) := number.value;
      if endptr < |disallow| && !Blank(disallow[endptr]) {
        return false, disallow;
      }
      FrontTake(disallow, ptr, kept);
      Regroup(seen, [blocked], Entries(disallow, endptr));
      if tm == blocked {
        return false, disallow;
      }
      KeepAppend(seen, blocked, tm, window);
      FrontDrop(disallow, ptr, kept);
      seen := seen + [blocked];
      if blocked - tm >= window || tm - blocked >= window {
        endptr := BlankEnd(disallow, endptr);
        disallow := disallow[..ptr] + disallow[endptr..];
        Regroup(seen[..|seen| - 1], [blocked], Entries(disallow, ptr));
      } else {
        ptr := endptr;
        kept := kept + [blocked];
      }
    }
    assert seen + [] == seen;
    ListWith(disallow, kept, tm);
    ok, disallow := true, disallow + (if disallow == [] then [] else [SPACE]) + Decimal(tm);
  }

  /** What the next entry decides. */
  lemma EntriesNext(s: Text, p: nat)
    requires p <= |s| && BlankEnd(s, p) == p
    ensures p == |s| ==> Entries(s, p) == Some([])
    ensures p < |s| ==> !Blank(s[p])
    ensures p < |s| && (Strtoul(s, p).None? || (Strtoul(s, p).value.1 < |s| && !Blank(s[Strtoul(s, p).value.1]))) ==> Entries(s, p).None?
  {
  }

  // ---------- the code ----------

  /** is_totp */
  predicate IsTotp(s: Text) {
    exists i :: 0 <= i <= |s| && Stands(s, i, TOTP_MARK)
  }

  /** The first step from `step` to `last` whose code is the one that was entered. */
  function Matching(hash: int -> int, code: int, step: int, last: int): (r: Option<int>)
    ensures r.Some? ==> step <= r.value <= last && hash(r.value) == code
    decreases last - step + 1
  {
    if step > last then None
    else if hash(step) == code then Some(step)
    else Matching(hash, code, step + 1, last)
  }

  /** The steps that are accepted at time `now`: as many as the window says, around the skewed clock. */
  function FirstStep(s: Text, now: nat): int {
    now / 30 + Skew(s) - (Window(s) - 1) / 2
  }

  function LastStep(s: Text, now: nat): int {
    now / 30 + Skew(s) + Window(s) / 2
  }

  /** The step that the code is for, when one is looked for and found. */
  function StepOf(s: Text, now: nat, code: int, hash: int -> int): Option<int> {
    if !IsTotp(s) || code < 0 || code >= 1000000 || Window(s) == 0 then None
    else Matching(hash, code, FirstStep(s, now), LastStep(s, now))
  }

  /** check_timebased_code, without the learning of a skew. */
  ghost predicate Checks(s: Text, now: nat, code: int, hash: int -> int, r: Outcome) {
    if !IsTotp(s) || code < 0 || code >= 1000000 then r == Outcome(1, false, s)
    else if Window(s) == 0 then r == Outcome(-1, false, s)
    else if StepOf(s, now, code, hash).None? then r == Outcome(1, false, s)
    else Invalidates(s, StepOf(s, now, code, hash).value, r)
  }

  /** The clock and the skew stay in the range of an int. */
  predicate InRange(s: Text, now: nat) {
    now < 0x1_0000_0000 && -0x7FFF_FF00 <= now / 30 + Skew(s) <= 0x7FFF_FF00
  }

  /** What the code of the first step decides. */
  lemma MatchingNext(hash: int -> int, code: int, step: int, last: int)
    ensures Matching(hash, code, step, last) ==
            if step > last then None else if hash(step) == code then Some(step) else Matching(hash, code, step + 1, last)
  {
  }

  method CheckTimebasedCode(state: StateBuffer, now: nat, code: int, hash: int -> int) returns (rc: int, updated: bool)
    requires state.Valid() && InRange(state.text, now)
    modifies state, state.buf
    ensures state.Valid() && (state.buf == old(state.buf) || fresh(state.buf))
    ensures Checks(old(state.text), now, code, hash, Outcome(rc, updated, state.text))
  {
    hide Invalidates, Get, Strtol, Window, Skew, IsTotp, Matching;
    KeysDiffer();
    var totp := FindMark(state);
    if !totp {
      return 1, false;
    }
    if code < 0 || code >= 1000000 {
      return 1, false;
    }
    var tm := now / 30;
    var skewText := state.GetCfgValue(TIME_SKEW);
    var skew := 0;
    if skewText.Some? {
      skew := Strtol(skewText.value);
    }
    SkewIs(state.text, skewText);
    var window := WindowSize(state);
    if window == 0 {
      return -1, false;
    }
    var i := -((window - 1) / 2);
    ghost var s := state.text;
    while i <= window / 2
      invariant state.text == old(state.text) && state.Valid() && state.buf == old(state.buf)
      invariant -((window - 1) / 2) <= i <= window / 2 + 1
      invariant StepOf(s, now, code, hash) == Matching(hash, code, tm + skew + i, LastStep(s, now))
      decreases window / 2 - i
    {
      MatchingNext(hash, code, tm + skew + i, LastStep(s, now));
      if hash(tm + skew + i) == code {
        rc, updated := InvalidateTimebasedCode(tm + skew + i, state);
        return;
      }
      i := i + 1;
    }
    MatchingNext(hash, code, tm + skew + i, LastStep(s, now));
    return 1, false;
  }

  lemma SkewIs(s: Text, value: Option<Text>)
    requires value == Get(s, TIME_SKEW)
    ensures Skew(s) == if value.None? then 0 else Strtol(value.value)
  {
    hide Get, Strtol;
  }

  /** strstr(buf, "\" TOTP_AUTH") */
  method FindMark(state: StateBuffer) returns (found: bool)
    requires state.Valid()
    ensures found == IsTotp(state.text)
  {
    var i := 0;
    while state.buf[i] != 0
      invariant i <= |state.text| && forall j :: 0 <= j < i ==> !Stands(state.text, j, TOTP_MARK)
      decreases |state.text| - i
    {
      assert state.buf[i] == state.text[i];
      var k := 0;
      while k < |TOTP_MARK| && state.buf[i + k] == TOTP_MARK[k]
        invariant k <= |TOTP_MARK| && i + k <= |state.text|
        invariant forall x :: 0 <= x < k ==> state.text[i + x] == TOTP_MARK[x]
      {
        assert state.buf[i + k] == if i + k < |state.text| then state.text[i + k] else 0;
        k := k + 1;
      }
      if k == |TOTP_MARK| {
        assert state.text[i..i + k] == TOTP_MARK;
        assert Stands(state.text, i, TOTP_MARK);
        return true;
      }
      assert i + k < |state.text| ==> state.buf[i + k] == state.text[i + k];
      assert i + |TOTP_MARK| <= |state.text| ==> state.text[i..i + |TOTP_MARK|][k] != TOTP_MARK[k];
      i := i + 1;
    }
    assert !Stands(state.text, |state.text|, TOTP_MARK);
    return false;
  }

  // ---------- a login ----------

  /** The result of a login: the step that was granted, and the state file. */
  datatype Result = Result(granted: Option<int>, file: Text)

  /** A login attempt: the clock, the code, and whether the state file can be written. */
  datatype Attempt = Attempt(now: nat, code: int, writes: bool)

  /** A change that cannot be written is not made, and what needs it is not granted. */
  function Persisted(file: Text, attempt: Attempt, updated: bool, text: Text, granted: Option<int>): Result {
    if !updated then Result(granted, file)
    else if attempt.writes then Result(granted, text)
    else Result(None, file)
  }

  /** What google_authenticator may come to for a state file without a positive counter. */
  ghost predicate LoginStep(file: Text, attempt: Attempt, hash: int -> int, result: Result) {
    exists limit :: RateLimits(file, attempt.now, limit) && LoginAfter(file, attempt, hash, limit, result)
  }

  /** What it comes to after the rate limit has been looked at. */
  ghost predicate LoginAfter(file: Text, attempt: Attempt, hash: int -> int, limit: Outcome, result: Result) {
    if limit.rc < 0 then result == Persisted(file, attempt, limit.updated, limit.text, None)
    else exists check: Outcome ::
           && Checks(limit.text, attempt.now, attempt.code, hash, check)
           && result == Persisted(file, attempt, limit.updated || check.updated, check.text,
                                  if check.rc == 0 then StepOf(limit.text, attempt.now, attempt.code, hash) else None)
  }

  lemma {:induction false} FoundHas(lines: seq<Text>, key: Text)
    ensures GetFrom(lines, key).Some? <==> Has(lines, key)
    decreases |lines|
  {
    if lines != [] {
      FoundHas(lines[1..], key);
      HasTail(lines, key);
    }
  }

  /** An option that is there can be set, and the others keep their values. */
  lemma SetPresent(s: Text, key: Text, value: Text, key': Text)
    requires IsKey(key) && IsKey(key') && IsValue(value) && Get(s, key).Some?
    ensures Get(Set(s, key, value), key) == Some(Trimmed(value))
    ensures key' != key ==> Get(Set(s, key, value), key') == Get(s, key')
  {
    hide Set, GetFrom;
    FoundHas(Lines(s), key);
    SetThenGet(s, key, value);
    if key' != key {
      SetThenGetOther(s, key, value, key');
    }
  }

  /** The rate limit leaves the other options alone. */
  lemma RateKeeps(s: Text, now: nat, r: Outcome, key: Text)
    requires RateLimits(s, now, r) && IsKey(key) && key != RATE_LIMIT
    ensures Get(r.text, key) == Get(s, key)
  {
    hide Get, Set, Kept, Arranges, RateText, ParseRate;
    KeysDiffer();
    if RateOption(s).Some? {
      var rate := RateOption(s).value;
      var ts :| Arranges([now] + rate.times, ts) && r == Stored(s, rate, Kept(rate, now, ts));
      var kept := rate.(times := Newest(Kept(rate, now, ts), rate.attempts));
      RateTextIsValue(kept);
      SetPresent(s, RATE_LIMIT, RateText(kept), key);
    }
  }

  /** What the check of a code depends on stays. */
  lemma RateKeepsAll(s: Text, now: nat, r: Outcome)
    requires RateLimits(s, now, r)
    ensures Blocked(r.text) == Blocked(s) && Window(r.text) == Window(s) && Skew(r.text) == Skew(s)
    ensures Get(r.text, DISALLOW_REUSE) == Get(s, DISALLOW_REUSE) && Get(r.text, HOTP_COUNTER) == Get(s, HOTP_COUNTER)
  {
    hide Get, RateLimits, Entries, Strtol, Strtoul;
    KeysDiffer();
    RateKeeps(s, now, r, DISALLOW_REUSE);
    RateKeeps(s, now, r, WINDOW_SIZE);
    RateKeeps(s, now, r, TIME_SKEW);
    RateKeeps(s, now, r, HOTP_COUNTER);
  }

  lemma GrantedStep(s: Text, now: nat, code: int, hash: int -> int, r: Outcome)
    requires Checks(s, now, code, hash, r)
    ensures r.rc == 0 ==> StepOf(s, now, code, hash).Some?
    ensures !r.updated ==> r.text == s
  {
  }

  /** The login of a user with a time-based secret; `step` is the time step that is granted. */
  method Login(file: Text, attempt: Attempt, hash: int -> int) returns (granted: bool, newFile: Text, ghost step: Option<int>)
    requires NulFree(file) && InRange(file, attempt.now) && Counter(file) <= 0
    ensures LoginStep(file, attempt, hash, Result(step, newFile)) && granted == step.Some?
  {
    hide RateLimits, Checks, StepOf, Counter;
    var state := new StateBuffer(file);
    var updated, rc := false, -1;
    var limit, earlyUpdated := RateLimit(state, attempt.now);
    ghost var text := state.text;
    ghost var outcome := Outcome(limit, earlyUpdated, text);
    if limit >= 0 {
      RateKeepsAll(file, attempt.now, outcome);
      rc, updated := CheckTimebasedCode(state, attempt.now, attempt.code, hash);
      assert Checks(text, attempt.now, attempt.code, hash, Outcome(rc, updated, state.text));
      GrantedStep(text, attempt.now, attempt.code, hash, Outcome(rc, updated, state.text));
    }
    granted, newFile := rc == 0, file;
    if earlyUpdated || updated {
      if attempt.writes {
        var length := state.TailLength(0);
        newFile := state.buf[..length];
      } else {
        granted := false;
      }
    }
    step := if granted then StepOf(text, attempt.now, attempt.code, hash) else None;
    assert LoginAfter(file, attempt, hash, outcome, Result(step, newFile));
  }
}
