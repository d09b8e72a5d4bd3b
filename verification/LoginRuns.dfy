/** Whole runs of logins: no time step is granted twice, and no interval sees too many logins. */
module LoginRuns {
  import opened Bytes
  import opened StateText
  import opened Numerals
  import opened LoginState
  import opened TimeSort
  import opened Authenticator

  /** Logins one after the other, with time-based codes and a clock that does not go back; only they write the file. */
  ghost predicate Run(files: seq<Text>, attempts: seq<Attempt>, steps: seq<Option<int>>, hash: int -> int) {
    && |files| == |attempts| + 1 && |steps| == |attempts| && Counter(files[0]) <= 0
    && (forall k {:trigger steps[k]} :: 0 <= k < |attempts| ==>
          LoginStep(files[k], attempts[k], hash, Result(steps[k], files[k + 1])) && attempts[k].now < 0x1_0000_0000
          && -0x7FFF_FF00 <= attempts[k].now / 30 + Skew(files[k]) <= 0x7FFF_FF00)
    && (forall j, k :: 0 <= j <= k < |attempts| ==> attempts[j].now <= attempts[k].now)
  }

  // ---------- one login ----------

  lemma TrimmedEntries(d: Text)
    ensures Entries(Trimmed(d), 0) == Entries(d, 0)
  {
    hide Strtoul;
    EntriesSkip(d, 0);
    EntriesShift(d, BlankEnd(d, 0), BlankEnd(d, 0));
  }

  /** What the ban on reuse leaves in the file. */
  lemma InvalidatedState(s: Text, tm: int, r: Outcome)
    requires Invalidates(s, tm, r) && Get(s, DISALLOW_REUSE).Some?
    ensures Get(r.text, DISALLOW_REUSE).Some? && Window(r.text) == Window(s) && Skew(r.text) == Skew(s)
    ensures Get(r.text, RATE_LIMIT) == Get(s, RATE_LIMIT)
    ensures r.rc == 0 <==> Window(s) != 0 && Blocked(s).Some? && tm !in Blocked(s).value
    ensures if r.rc == 0 then Blocked(r.text) == Some(Keep(Blocked(s).value, tm, Window(s)) + [tm]) else r.text == s
    ensures r.updated == (r.rc == 0)
  {
    hide Get, Set, Entries, Strtol, Strtoul, Keep;
    KeysDiffer();
    if r.rc == 0 {
      var d: Text :| Lists(d, Keep(Blocked(s).value, tm, Window(s)) + [tm]) && r.text == Set(s, DISALLOW_REUSE, d);
      SetPresent(s, DISALLOW_REUSE, d, WINDOW_SIZE);
      SetPresent(s, DISALLOW_REUSE, d, TIME_SKEW);
      SetPresent(s, DISALLOW_REUSE, d, RATE_LIMIT);
      TrimmedEntries(d);
    }
  }

  /**
   With DISALLOW_REUSE, a step is granted exactly when the rate limit lets the attempt pass, the code is for
   that step, the step has not been used, and the file can be written.  Then the step is blocked.
   */
  lemma LoginMeans(file: Text, attempt: Attempt, hash: int -> int, limit: Outcome, result: Result)
    requires RateLimits(file, attempt.now, limit) && LoginAfter(file, attempt, hash, limit, result)
    requires Get(file, DISALLOW_REUSE).Some?
    ensures Get(result.file, DISALLOW_REUSE).Some? && Window(result.file) == Window(file) && Skew(result.file) == Skew(file)
    ensures forall g ::
              result.granted == Some(g) <==>
              && limit.rc >= 0 && StepOf(limit.text, attempt.now, attempt.code, hash) == Some(g)
              && Blocked(file).Some? && g !in Blocked(file).value && attempt.writes
    ensures if result.granted.Some?
            then Blocked(result.file) == Some(Keep(Blocked(file).value, result.granted.value, Window(file)) + [result.granted.value])
            else Blocked(result.file) == Blocked(file)
    ensures Get(result.file, RATE_LIMIT) == Get(if attempt.writes then limit.text else file, RATE_LIMIT)
  {
    hide Get, Entries, Strtol, Keep, RateLimits, Window, Skew, Invalidates;
    RateKeepsAll(file, attempt.now, limit);
    LimitShape(file, attempt.now, limit);
    if limit.rc >= 0 {
      var check: Outcome :|
        && Checks(limit.text, attempt.now, attempt.code, hash, check)
        && result == Persisted(file, attempt, limit.updated || check.updated, check.text,
                               if check.rc == 0 then StepOf(limit.text, attempt.now, attempt.code, hash) else None);
      CheckMeans(limit.text, attempt.now, attempt.code, hash, check);
    }
  }

  lemma LimitShape(s: Text, now: nat, r: Outcome)
    requires RateLimits(s, now, r)
    ensures (!r.updated ==> r.text == s) && (r.rc == 0 || r.rc == -1)
  {
    hide Get, Set, Kept, Arranges, RateText, RateOption;
  }

  /** The counter stays what it was, so that every login of a run has a time-based code. */
  lemma {:induction false} NoCounter(files: seq<Text>, attempts: seq<Attempt>, steps: seq<Option<int>>, hash: int -> int, k: nat)
    requires Run(files, attempts, steps, hash) && k <= |attempts|
    ensures Counter(files[k]) <= 0
    decreases k
  {
    hide LoginStep, Counter, Skew;
    if k > 0 {
      NoCounter(files, attempts, steps, hash, k - 1);
      assert steps[k - 1] == steps[k - 1];
      CounterKept(files[k - 1], attempts[k - 1], hash, Result(steps[k - 1], files[k]));
    }
  }

  lemma CounterKept(file: Text, attempt: Attempt, hash: int -> int, result: Result)
    requires LoginStep(file, attempt, hash, result)
    ensures Counter(result.file) == Counter(file)
  {
    hide Get, StrtolLong, RateLimits, Checks;
    var limit :| RateLimits(file, attempt.now, limit) && LoginAfter(file, attempt, hash, limit, result);
    RateKeepsAll(file, attempt.now, limit);
    if limit.rc >= 0 {
      var check: Outcome :|
        && Checks(limit.text, attempt.now, attempt.code, hash, check)
        && result == Persisted(file, attempt, limit.updated || check.updated, check.text,
                               if check.rc == 0 then StepOf(limit.text, attempt.now, attempt.code, hash) else None);
      CheckKeepsCounter(limit.text, attempt.now, attempt.code, hash, check);
    }
  }

  lemma CheckKeepsCounter(s: Text, now: nat, code: int, hash: int -> int, r: Outcome)
    requires Checks(s, now, code, hash, r)
    ensures Get(r.text, HOTP_COUNTER) == Get(s, HOTP_COUNTER)
  {
    hide Get, Set, Entries, Keep, Window, Skew, IsTotp;
    KeysDiffer();
    if r.text != s {
      var step := StepOf(s, now, code, hash).value;
      var d: Text :| Lists(d, Keep(Blocked(s).value, step, Window(s)) + [step]) && r.text == Set(s, DISALLOW_REUSE, d);
      SetPresent(s, DISALLOW_REUSE, d, HOTP_COUNTER);
    }
  }

  lemma CheckMeans(s: Text, now: nat, code: int, hash: int -> int, r: Outcome)
    requires Checks(s, now, code, hash, r) && Get(s, DISALLOW_REUSE).Some?
    ensures Get(r.text, DISALLOW_REUSE).Some? && Window(r.text) == Window(s) && Skew(r.text) == Skew(s)
    ensures Get(r.text, RATE_LIMIT) == Get(s, RATE_LIMIT)
    ensures r.rc == 0 <==> StepOf(s, now, code, hash).Some? && Blocked(s).Some? && StepOf(s, now, code, hash).value !in Blocked(s).value
    ensures r.updated == (r.rc == 0)
    ensures if r.rc == 0 then Blocked(r.text) == Some(Keep(Blocked(s).value, StepOf(s, now, code, hash).value, Window(s)) + [StepOf(s, now, code, hash).value])
            else r.text == s
  {
    hide Get, Entries, Strtol, Keep, Window, Skew, Invalidates, Blocked;
    var step := StepOf(s, now, code, hash);
    if step.Some? {
      InvalidatedState(s, step.value, r);
    }
  }

  // ---------- no time step twice ----------

  /** A step that was granted is blocked, or has left the range of what is accepted for good. */
  predicate Spent(file: Text, now: nat, g: int) {
    && g <= LastStep(file, now)
    && ((Blocked(file).Some? && g in Blocked(file).value) || g < FirstStep(file, now))
  }

  /** The entries that are pruned have left the range. */
  lemma PrunedIsPast(file: Text, now: nat, g: int, step: int)
    requires Window(file) != 0 && g <= LastStep(file, now) && FirstStep(file, now) <= step <= LastStep(file, now)
    requires g - step >= Window(file) || step - g >= Window(file)
    ensures g < FirstStep(file, now)
  {
    hide Window, Skew;
  }

  /** A spent step is not granted, and stays spent. */
  lemma SpentStays(file: Text, attempt: Attempt, hash: int -> int, result: Result, before: nat, g: int)
    requires LoginStep(file, attempt, hash, result) && Get(file, DISALLOW_REUSE).Some? && InRange(file, attempt.now)
    requires before <= attempt.now && Spent(file, before, g)
    ensures result.granted != Some(g) && Spent(result.file, attempt.now, g)
  {
    hide RateLimits, LoginAfter, Blocked, Window, Skew, Matching, Get;
    var limit :| RateLimits(file, attempt.now, limit) && LoginAfter(file, attempt, hash, limit, result);
    LoginMeans(file, attempt, hash, limit, result);
    ClockAdvances(file, before, attempt.now);
    if result.granted.Some? {
      var step := result.granted.value;
      GrantedRange(file, attempt, hash, limit, step);
      KeepMembers(Blocked(file).value, step, Window(file), g);
      if g in Blocked(file).value && g !in Keep(Blocked(file).value, step, Window(file)) {
        PrunedIsPast(file, attempt.now, g, step);
      }
    }
  }

  lemma ClockAdvances(file: Text, before: nat, now: nat)
    requires before <= now
    ensures FirstStep(file, before) <= FirstStep(file, now) && LastStep(file, before) <= LastStep(file, now)
  {
    hide Window, Skew;
  }

  /** What is granted is in the range of its time. */
  lemma GrantedRange(file: Text, attempt: Attempt, hash: int -> int, limit: Outcome, step: int)
    requires RateLimits(file, attempt.now, limit)
    requires StepOf(limit.text, attempt.now, attempt.code, hash) == Some(step)
    ensures Window(file) != 0 && FirstStep(file, attempt.now) <= step <= LastStep(file, attempt.now)
    ensures hash(step) == attempt.code
  {
    hide Window, Skew, RateLimits;
    RateKeepsAll(file, attempt.now, limit);
  }

  lemma {:induction false} SpentLater(files: seq<Text>, attempts: seq<Attempt>, steps: seq<Option<int>>, hash: int -> int, j: nat, k: nat, g: int)
    requires Run(files, attempts, steps, hash) && Get(files[0], DISALLOW_REUSE).Some?
    requires j < k < |attempts| && steps[j] == Some(g)
    ensures Get(files[k], DISALLOW_REUSE).Some? && Spent(files[k], attempts[k - 1].now, g)
    decreases k
  {
    hide LoginStep, Spent, Get, Skew;
    StaysOn(files, attempts, steps, hash, k - 1);
    StaysOn(files, attempts, steps, hash, k);
    assert steps[k - 1] == steps[k - 1];
    if k - 1 == j {
      GrantIsSpent(files[j], attempts[j], hash, Result(steps[j], files[j + 1]));
    } else {
      SpentLater(files, attempts, steps, hash, j, k - 1, g);
      SpentStays(files[k - 1], attempts[k - 1], hash, Result(steps[k - 1], files[k]), attempts[k - 2].now, g);
    }
  }

  lemma GrantIsSpent(file: Text, attempt: Attempt, hash: int -> int, result: Result)
    requires LoginStep(file, attempt, hash, result) && Get(file, DISALLOW_REUSE).Some? && InRange(file, attempt.now)
    requires result.granted.Some?
    ensures Spent(result.file, attempt.now, result.granted.value)
  {
    hide RateLimits, LoginAfter, Blocked, Window, Skew, Get;
    var limit :| RateLimits(file, attempt.now, limit) && LoginAfter(file, attempt, hash, limit, result);
    LoginMeans(file, attempt, hash, limit, result);
    GrantedRange(file, attempt, hash, limit, result.granted.value);
  }

  lemma BanStays(file: Text, attempt: Attempt, hash: int -> int, result: Result)
    requires LoginStep(file, attempt, hash, result) && Get(file, DISALLOW_REUSE).Some?
    ensures Get(result.file, DISALLOW_REUSE).Some?
  {
    hide RateLimits, LoginAfter, Get;
    var limit :| RateLimits(file, attempt.now, limit) && LoginAfter(file, attempt, hash, limit, result);
    LoginMeans(file, attempt, hash, limit, result);
  }

  /** The option stays in the file. */
  lemma {:induction false} StaysOn(files: seq<Text>, attempts: seq<Attempt>, steps: seq<Option<int>>, hash: int -> int, k: nat)
    requires Run(files, attempts, steps, hash) && Get(files[0], DISALLOW_REUSE).Some? && k <= |attempts|
    ensures Get(files[k], DISALLOW_REUSE).Some?
    decreases k
  {
    hide LoginStep, Get, Skew;
    if k > 0 {
      StaysOn(files, attempts, steps, hash, k - 1);
      assert steps[k - 1] == steps[k - 1];
      BanStays(files[k - 1], attempts[k - 1], hash, Result(steps[k - 1], files[k]));
    }
  }

  /**
   With DISALLOW_REUSE, no time step is granted twice in any run, although steps are pruned from the list
   (section 5.2 of RFC 6238).
   */
  lemma NoReplay(files: seq<Text>, attempts: seq<Attempt>, steps: seq<Option<int>>, hash: int -> int, j: nat, k: nat)
    requires Run(files, attempts, steps, hash) && Get(files[0], DISALLOW_REUSE).Some?
    requires j < k < |attempts| && steps[j].Some?
    ensures steps[k] != steps[j]
  {
    hide LoginStep, Spent, Get, Skew;
    var g := steps[j].value;
    SpentLater(files, attempts, steps, hash, j, k, g);
    SpentStays(files[k], attempts[k], hash, Result(steps[k], files[k + 1]), attempts[k - 1].now, g);
  }

  // ---------- at most so many logins in an interval ----------

  /** How many of the times are between `low` and `high`. */
  function Count(times: seq<nat>, low: int, high: int): nat {
    if times == [] then 0
    else (if low <= times[0] <= high then 1 else 0) + Count(times[1..], low, high)
  }

  lemma {:induction false} CountInsert(ts: seq<nat>, t: nat, low: int, high: int)
    ensures Count(Insert(ts, t), low, high) == Count(ts, low, high) + if low <= t <= high then 1 else 0
    decreases |ts|
  {
    hide Compare;
    if ts != [] && Compare(t, ts[0]) > 0 {
      CountInsert(ts[1..], t, low, high);
      assert Insert(ts, t)[1..] == Insert(ts[1..], t);
    } else {
      assert Insert(ts, t)[1..] == ts;
    }
  }

  lemma {:induction false} CountArranged(times: seq<nat>, low: int, high: int)
    ensures Count(Arrange(times), low, high) == Count(times, low, high)
    decreases |times|
  {
    hide Insert;
    if times != [] {
      CountArranged(times[1..], low, high);
      CountInsert(Arrange(times[1..]), times[0], low, high);
    }
  }

  lemma {:induction false} CountWithin(times: seq<nat>, low: int, high: int, x: int)
    ensures x >= low ==> Count(Within(times, low, high), x, high) == Count(times, x, high)
    ensures |Within(times, low, high)| == Count(times, low, high)
    ensures forall i :: 0 <= i < |Within(times, low, high)| ==> low <= Within(times, low, high)[i] <= high
    decreases |times|
  {
    if times != [] {
      CountWithin(times[1..], low, high, x);
      if low <= times[0] <= high {
        assert Within(times, low, high)[1..] == Within(times[1..], low, high);
      } else {
        assert Within(times, low, high) == Within(times[1..], low, high);
      }
    }
  }

  lemma {:induction false} WithinSorted(times: seq<nat>, low: int, high: int)
    requires Sorted(times)
    ensures Sorted(Within(times, low, high))
    decreases |times|
  {
    if times != [] {
      WithinSorted(times[1..], low, high);
      var rest := Within(times[1..], low, high);
      WithinFrom(times[1..], low, high, times[0]);
      assert Within(times, low, high) == (if low <= times[0] <= high then [times[0]] else []) + rest;
    }
  }

  lemma {:induction false} WithinFrom(times: seq<nat>, low: int, high: int, bound: nat)
    requires AtLeast(times, bound)
    ensures AtLeast(Within(times, low, high), bound)
    decreases |times|
  {
    if times != [] {
      WithinFrom(times[1..], low, high, bound);
    }
  }

  function Least(a: int, b: int): int {
    if a < b then a else b
  }

  lemma {:induction false} CountAll(times: seq<nat>, low: int, high: int)
    requires forall i :: 0 <= i < |times| ==> low <= times[i] <= high
    ensures Count(times, low, high) == |times|
    decreases |times|
  {
    if times != [] {
      CountAll(times[1..], low, high);
    }
  }

  /** Dropping the oldest entries costs nothing up to the number that is kept. */
  lemma {:induction false} CountNewest(times: seq<nat>, n: nat, x: int, high: int)
    requires Sorted(times) && forall i :: 0 <= i < |times| ==> times[i] <= high
    ensures Count(Newest(times, n), x, high) >= Least(n, Count(times, x, high))
    decreases |times|
  {
    if |times| > n {
      var rest := times[1..];
      CountNewest(rest, n, x, high);
      assert Newest(times, n) == Newest(rest, n);
      if x <= times[0] {
        CountAll(rest, x, high);
      }
    }
  }

  lemma {:induction false} CountWider(times: seq<nat>, low: int, high: int, high': int)
    requires high <= high'
    ensures Count(times, low, high) <= Count(times, low, high')
    decreases |times|
  {
    if times != [] {
      CountWider(times[1..], low, high, high');
    }
  }

  /** The list that rate_limit stores keeps count of the attempts from `x` on. */
  lemma RecentCounts(rate: Rate, now: nat, x: int)
    requires rate.interval <= now < 0x1_0000_0000 && rate.interval >= 0 && rate.attempts >= 0 && x >= now - rate.interval
    requires Unsigned(rate.times) && Narrow([now] + rate.times)
    ensures Count(Newest(Recent(rate, now), rate.attempts), x, now)
            >= Least(rate.attempts, Count(rate.times, x, now) + if x <= now then 1 else 0)
    ensures |Recent(rate, now)| == Count(rate.times, now - rate.interval, now) + 1
  {
    hide Arrange, Within, Newest, Sorted, Narrow, Pruned, Unsigned, Least;
    var low := now - rate.interval;
    RecentWithin(rate, now);
    OneMore(rate, now, x);
    OneMore(rate, now, low);
    var all := Arrange([now] + rate.times);
    CountWithin(all, low, now, x);
    WithinSorted(all, low, now);
    CountNewest(Recent(rate, now), rate.attempts, x, now);
  }

  lemma RecentWithin(rate: Rate, now: nat)
    requires 0 <= rate.interval <= now < 0x1_0000_0000 && Unsigned(rate.times) && Narrow([now] + rate.times)
    ensures var all := Arrange([now] + rate.times); Sorted(all) && Recent(rate, now) == Within(all, now - rate.interval, now)
  {
    hide Arrange, Sorted, Narrow, Pruned, Within;
    var all := [now] + rate.times;
    ArrangeArranges(all);
    OneArrangement(all, Arrange(all));
    PrunedSorted(Arrange(all), now - rate.interval, now, []);
  }

  lemma OneMore(rate: Rate, now: nat, x: int)
    ensures Count(Arrange([now] + rate.times), x, now) == Count(rate.times, x, now) + if x <= now then 1 else 0
  {
    hide Arrange;
    var all := [now] + rate.times;
    assert all[1..] == rate.times;
    CountArranged(all, x, now);
  }

  lemma FirstCharacter(rate: Rate)
    requires rate.attempts >= 0
    ensures Trimmed(RateText(rate)) == RateText(rate)
  {
    hide TimesText;
    var d := Digits(rate.attempts);
    assert Digit(d[0]) && RateText(rate)[0] == d[0];
  }

  /** What the rate limit leaves in the file, for any arrangement of the times. */
  lemma LimitStores(s: Text, now: nat, ts: seq<nat>)
    requires RateOption(s).Some? && now < 0x1_0000_0000
    ensures var rate := RateOption(s).value; var recent := Kept(rate, now, ts); var r := Stored(s, rate, recent);
            && RateOption(r.text) == Some(rate.(times := Newest(recent, rate.attempts)))
            && r.updated && (r.rc >= 0 <==> |recent| <= rate.attempts)
  {
    hide Get, Set, Kept, RateText, ParseRate;
    KeysDiffer();
    var rate := RateOption(s).value;
    var kept := rate.(times := Newest(Kept(rate, now, ts), rate.attempts));
    RateTextIsValue(kept);
    SetPresent(s, RATE_LIMIT, RateText(kept), RATE_LIMIT);
    FirstCharacter(kept);
    NewestUnsigned(rate, now, ts);
    RateBack(kept);
  }

  lemma NewestUnsigned(rate: Rate, now: nat, ts: seq<nat>)
    requires now < 0x1_0000_0000 && rate.attempts >= 0
    ensures Unsigned(Newest(Kept(rate, now, ts), rate.attempts))
  {
    hide Pruned;
    PrunedBounds(ts, ToUnsigned(now - rate.interval), now, []);
    var kept := Kept(rate, now, ts);
    forall x | 0 <= x < |Newest(kept, rate.attempts)|
      ensures Newest(kept, rate.attempts)[x] < 0x1_0000_0000
    {
      assert Newest(kept, rate.attempts)[x] in kept;
    }
  }

  /** What the rate limit leaves in the file, and what it decides. */
  lemma LimitMeans(s: Text, now: nat, r: Outcome)
    requires RateLimits(s, now, r) && RateOption(s).Some? && now < 0x1_0000_0000 && NarrowAt(s, now)
    ensures var rate := RateOption(s).value;
            && RateOption(r.text) == Some(rate.(times := Newest(Recent(rate, now), rate.attempts)))
            && r.updated && (r.rc >= 0 <==> |Recent(rate, now)| <= rate.attempts)
  {
    hide Get, RateLimits, Stored, Kept, Arrange, ParseRate, Narrow;
    LimitIsFunction(s, now, r);
    LimitStores(s, now, Arrange([now] + RateOption(s).value.times));
  }

  /** One login with a rate limit. */
  lemma RateMeans(file: Text, attempt: Attempt, hash: int -> int, result: Result)
    requires LoginStep(file, attempt, hash, result) && RateOption(file).Some? && NarrowAt(file, attempt.now)
    requires attempt.now < 0x1_0000_0000
    ensures var rate := RateOption(file).value;
            && (result.granted.Some? ==> attempt.writes && |Recent(rate, attempt.now)| <= rate.attempts)
            && RateOption(result.file) ==
               if attempt.writes then Some(rate.(times := Newest(Recent(rate, attempt.now), rate.attempts))) else Some(rate)
    ensures Skew(result.file) == Skew(file)
  {
    hide RateLimits, Checks, Get, Recent, ParseRate, Skew, Narrow;
    var limit :| RateLimits(file, attempt.now, limit) && LoginAfter(file, attempt, hash, limit, result);
    LimitMeans(file, attempt.now, limit);
    RateKeepsAll(file, attempt.now, limit);
    if limit.rc >= 0 {
      var check: Outcome :|
        && Checks(limit.text, attempt.now, attempt.code, hash, check)
        && result == Persisted(file, attempt, limit.updated || check.updated, check.text,
                               if check.rc == 0 then StepOf(limit.text, attempt.now, attempt.code, hash) else None);
      CheckKeepsRate(limit.text, attempt.now, attempt.code, hash, check);
    }
  }

  lemma CheckKeepsRate(s: Text, now: nat, code: int, hash: int -> int, r: Outcome)
    requires Checks(s, now, code, hash, r)
    ensures Get(r.text, RATE_LIMIT) == Get(s, RATE_LIMIT) && Skew(r.text) == Skew(s)
  {
    hide Get, Window, Skew, Invalidates, Blocked;
    if Get(s, DISALLOW_REUSE).Some? {
      CheckMeans(s, now, code, hash, r);
    } else {
      NoBan(s, now, code, hash, r);
    }
  }

  lemma NoBan(s: Text, now: nat, code: int, hash: int -> int, r: Outcome)
    requires Checks(s, now, code, hash, r) && Get(s, DISALLOW_REUSE).None?
    ensures r.text == s
  {
    hide Get, Window, Skew, StepOf;
  }

  /** How many of the first `n` attempts were granted between `low` and `high`. */
  function Granted(attempts: seq<Attempt>, steps: seq<Option<int>>, n: nat, low: int, high: int): nat
    requires n <= |attempts| == |steps|
  {
    if n == 0 then 0
    else Granted(attempts, steps, n - 1, low, high) + if steps[n - 1].Some? && low <= attempts[n - 1].now <= high then 1 else 0
  }

  /** The clock after `n` attempts. */
  function Clock(attempts: seq<Attempt>, n: nat): nat
    requires n <= |attempts|
  {
    if n == 0 then 0 else attempts[n - 1].now
  }

  /** All times are less than 2^31 behind `base`. */
  predicate InSpan(times: seq<nat>, base: int) {
    forall t :: t in times ==> base <= t < base + HALF
  }

  /** The clock of a run, and the times in the file that it starts with, are less than 2^31 apart. */
  predicate RunInSpan(attempts: seq<Attempt>, rate: Rate, base: int) {
    InSpan(rate.times, base) && forall k :: 0 <= k < |attempts| ==> base <= attempts[k].now < base + HALF
  }

  lemma SpanIsNarrow(times: seq<nat>, now: nat, base: int)
    requires InSpan(times, base) && base <= now < base + HALF
    ensures Narrow([now] + times)
  {
  }

  /** What is kept is the clock, or was there before. */
  lemma {:induction false} PrunedFrom(ts: seq<nat>, low: nat, high: nat, kept: seq<nat>, base: int)
    requires InSpan(ts, base) && InSpan(kept, base)
    ensures InSpan(Pruned(ts, low, high, kept), base)
    decreases |ts|
  {
    assert ts != [] ==> forall t :: t in ts[1..] ==> t in ts;
    if ts != [] && ts[0] < low {
      PrunedFrom(ts[1..], low, high, [], base);
    } else if ts != [] && ts[0] <= high {
      assert ts[0] in ts;
      PrunedFrom(ts[1..], low, high, kept + [ts[0]], base);
    }
  }

  lemma NewestInSpan(rate: Rate, now: nat, base: int)
    requires InSpan(rate.times, base) && base <= now < base + HALF && rate.attempts >= 0
    ensures InSpan(Newest(Recent(rate, now), rate.attempts), base)
  {
    hide Arrange, Pruned;
    var all := [now] + rate.times;
    ArrangeArranges(all);
    forall t | t in Arrange(all)
      ensures base <= t < base + HALF
    {
      Members(all, Arrange(all), t);
    }
    PrunedFrom(Arrange(all), ToUnsigned(now - rate.interval), now, [], base);
    assert forall t :: t in Newest(Recent(rate, now), rate.attempts) ==> t in Recent(rate, now);
  }

  /** The limit stays, and the stored times keep count of the logins that were granted, up to the limit. */
  lemma {:induction false} StoredCounts(files: seq<Text>, attempts: seq<Attempt>, steps: seq<Option<int>>, hash: int -> int, rate: Rate, base: int, n: nat, x: int)
    requires Run(files, attempts, steps, hash) && RateOption(files[0]) == Some(rate) && n <= |attempts|
    requires forall k :: 0 <= k < |attempts| ==> attempts[k].now >= rate.interval
    requires RunInSpan(attempts, rate, base)
    requires x >= Clock(attempts, n) - rate.interval
    ensures RateOption(files[n]).Some? && RateOption(files[n]).value.attempts == rate.attempts
    ensures RateOption(files[n]).value.interval == rate.interval && InSpan(RateOption(files[n]).value.times, base)
    ensures Count(RateOption(files[n]).value.times, x, Clock(attempts, n)) >= Least(rate.attempts, Granted(attempts, steps, n, x, Clock(attempts, n)))
    decreases n
  {
    hide LoginStep, RateOption, Skew, Recent, Newest, Least, Counter, InSpan, Narrow, Unsigned;
    RateBounds(files[0]);
    if n == 0 {
      LeastNothing(rate.attempts, Count(rate.times, x, 0));
    } else {
      assert steps[n - 1] == steps[n - 1];
      StoredCounts(files, attempts, steps, hash, rate, base, n - 1, x);
      var now, before := attempts[n - 1].now, Clock(attempts, n - 1);
      var stored := RateOption(files[n - 1]).value;
      SpanIsNarrow(stored.times, now, base);
      NewestInSpan(stored, now, base);
      StoredUnsigned(files[n - 1]);
      RateMeans(files[n - 1], attempts[n - 1], hash, Result(steps[n - 1], files[n]));
      RecentCounts(stored, now, x);
      CountWider(stored.times, x, before, now);
      GrantedWider(attempts, steps, n - 1, x, before, now);
      LeastStep(rate.attempts, Granted(attempts, steps, n - 1, x, now), Count(stored.times, x, now), Count(RateOption(files[n]).value.times, x, now));
    }
  }

  lemma LeastNothing(a: int, c: nat)
    requires a >= 0
    ensures c >= Least(a, 0)
  {
  }

  lemma LeastStep(a: int, granted: nat, stored: nat, next: nat)
    requires a >= 0 && stored >= Least(a, granted)
    ensures next >= stored ==> next >= Least(a, granted)
    ensures next >= Least(a, stored + 1) ==> next >= Least(a, granted + 1) && next >= Least(a, granted)
    ensures next >= Least(a, stored) ==> next >= Least(a, granted)
    ensures stored + 1 <= a ==> granted + 1 <= a
  {
  }

  lemma {:induction false} GrantedWider(attempts: seq<Attempt>, steps: seq<Option<int>>, n: nat, low: int, high: int, high': int)
    requires n <= |attempts| == |steps| && high <= high' && forall k :: 0 <= k < n ==> attempts[k].now <= high
    ensures Granted(attempts, steps, n, low, high) == Granted(attempts, steps, n, low, high')
    decreases n
  {
    if n > 0 {
      GrantedWider(attempts, steps, n - 1, low, high, high');
    }
  }

  lemma {:induction false} GrantedMore(attempts: seq<Attempt>, steps: seq<Option<int>>, n: nat, low: int, high: int, low': int, high': int)
    requires n <= |attempts| == |steps| && low' <= low && high <= high'
    ensures Granted(attempts, steps, n, low, high) <= Granted(attempts, steps, n, low', high')
    decreases n
  {
    if n > 0 {
      GrantedMore(attempts, steps, n - 1, low, high, low', high');
    }
  }

  /** In any run, a closed interval of the length that RATE_LIMIT names sees at most the logins that it names. */
  lemma {:induction false} RateHolds(files: seq<Text>, attempts: seq<Attempt>, steps: seq<Option<int>>, hash: int -> int, rate: Rate, base: int, n: nat, from: int)
    requires Run(files, attempts, steps, hash) && RateOption(files[0]) == Some(rate) && n <= |attempts|
    requires forall k :: 0 <= k < |attempts| ==> attempts[k].now >= rate.interval
    requires RunInSpan(attempts, rate, base)
    ensures Granted(attempts, steps, n, from, from + rate.interval) <= rate.attempts
    decreases n
  {
    hide LoginStep, RateOption, Skew, Recent, Newest, Least, Counter, InSpan, Narrow, Unsigned;
    RateBounds(files[0]);
    if n > 0 {
      assert steps[n - 1] == steps[n - 1];
      var now, before := attempts[n - 1].now, Clock(attempts, n - 1);
      if steps[n - 1].Some? && from <= now <= from + rate.interval {
        var low := now - rate.interval;
        StoredCounts(files, attempts, steps, hash, rate, base, n - 1, low);
        var stored := RateOption(files[n - 1]).value;
        SpanIsNarrow(stored.times, now, base);
        StoredUnsigned(files[n - 1]);
        RateMeans(files[n - 1], attempts[n - 1], hash, Result(steps[n - 1], files[n]));
        RecentCounts(stored, now, low);
        CountWider(stored.times, low, before, now);
        GrantedWider(attempts, steps, n - 1, low, before, from + rate.interval);
        GrantedMore(attempts, steps, n - 1, from, from + rate.interval, low, from + rate.interval);
        LeastStep(rate.attempts, Granted(attempts, steps, n - 1, low, before), Count(stored.times, low, now), 0);
      } else {
        RateHolds(files, attempts, steps, hash, rate, base, n - 1, from);
      }
    }
  }

  lemma StoredUnsigned(s: Text)
    requires RateOption(s).Some?
    ensures Unsigned(RateOption(s).value.times)
  {
    hide Get, Unsigned;
  }

  lemma RateBounds(s: Text)
    requires RateOption(s).Some?
    ensures 1 <= RateOption(s).value.attempts <= 100 && 1 <= RateOption(s).value.interval <= 3600
  {
    hide Get, ParseRate;
  }
}
