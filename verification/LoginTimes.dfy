/** When the code of a time step is accepted, in seconds of the clock. */
module LoginTimes {
  import opened Bytes
  import opened StateText
  import opened Numerals
  import opened LoginState
  import opened TimeSort
  import opened Authenticator
  import opened LoginRuns

  /** The state file shifts the clock by `k` steps: it says so in digits, or says nothing and `k` is 0. */
  predicate SkewedBy(s: Text, k: int) {
    -0x8000_0000 <= k < 0x8000_0000 && (Get(s, TIME_SKEW) == Some(Decimal(k)) || (Get(s, TIME_SKEW).None? && k == 0))
  }

  /** The state file asks for `w` steps: it says so in digits, or says nothing and `w` is 3. */
  predicate Asks(s: Text, w: int) {
    -0x8000_0000 <= w < 0x8000_0000 && (Get(s, WINDOW_SIZE) == Some(Decimal(w)) || (Get(s, WINDOW_SIZE).None? && w == 3))
  }

  lemma WrittenNumber(v: int)
    requires -0x8000_0000 <= v < 0x8000_0000
    ensures Strtoul(Decimal(v), 0) == Some((v, |Decimal(v)|)) && Strtol(Decimal(v)) == v
  {
    hide Digits, Value, DigitEnd;
    var s := Decimal(v);
    assert Stands(s, 0, s);
    DecimalStands(s, 0, v);
    assert SpaceEnd(s, 0) == 0;
    DecimalBack(s, 0, 0, v);
    ScanBack(s, 0, 0, v);
  }

  /** A window from 1 to 100 steps is taken, and every other number counts as invalid. */
  lemma WindowMeans(s: Text, w: int)
    requires Asks(s, w)
    ensures Window(s) == if 1 <= w <= 100 then w else 0
  {
    hide Get, Strtoul, Decimal;
    if Get(s, WINDOW_SIZE).Some? {
      WrittenNumber(w);
    }
  }

  lemma SkewMeans(s: Text, k: int)
    requires SkewedBy(s, k)
    ensures Skew(s) == k
  {
    hide Get, Strtol, Decimal;
    if Get(s, TIME_SKEW).Some? {
      WrittenNumber(k);
    }
  }

  lemma {:induction false} FirstMatching(hash: int -> int, code: int, step: int, last: int, g: int)
    ensures Matching(hash, code, step, last) == Some(g) <==>
            step <= g <= last && hash(g) == code && forall e :: step <= e < g ==> hash(e) != code
    decreases last - step + 1
  {
    if step <= last && hash(step) != code {
      FirstMatching(hash, code, step + 1, last, g);
    }
  }

  /** At `now` step `g` is one of the `w` steps around the clock, shifted by `k` steps; of an even number one more is ahead of it. */
  predicate InTime(now: nat, g: int, k: int, w: int) {
    30 * (g - k - w / 2) <= now < 30 * (g - k + (w - 1) / 2 + 1)
  }

  lemma StepsInTime(s: Text, now: nat, k: int, w: int, g: int)
    requires Skew(s) == k && Window(s) == w && 1 <= w
    ensures FirstStep(s, now) <= g <= LastStep(s, now) <==> InTime(now, g, k, w)
  {
    hide Skew, Window;
  }

  /**
   A code is taken for the first step that has it of those in time, whichever codes the steps have, and for
   none when none has it.
   */
  lemma StepInTime(s: Text, now: nat, code: int, hash: int -> int, k: int, w: int, g: int)
    requires IsTotp(s) && 0 <= code < 1000000 && SkewedBy(s, k) && Asks(s, w) && 1 <= w <= 100
    ensures StepOf(s, now, code, hash) == Some(g) <==>
            InTime(now, g, k, w) && hash(g) == code && forall e :: e < g && InTime(now, e, k, w) ==> hash(e) != code
  {
    hide IsTotp, Skew, Window, Matching, FirstStep, LastStep, InTime;
    WindowMeans(s, w);
    SkewMeans(s, k);
    forall e {
      StepsInTime(s, now, k, w, e);
    }
    FirstMatching(hash, code, FirstStep(s, now), LastStep(s, now), g);
  }

  /** The code is that of step `g`, and of no other. */
  ghost predicate Owns(hash: int -> int, code: int, g: int) {
    forall e :: hash(e) == code <==> e == g
  }

  /** Without options, the code of a step is accepted from half a minute before the step to half a minute after it. */
  lemma AcceptedAround(s: Text, now: nat, code: int, hash: int -> int, g: int)
    requires IsTotp(s) && 0 <= code < 1000000 && Owns(hash, code, g)
    requires Get(s, TIME_SKEW).None? && Get(s, WINDOW_SIZE).None?
    ensures StepOf(s, now, code, hash) == Some(g) <==> 30 * g - 30 <= now < 30 * g + 60
  {
    hide IsTotp, StepOf, Get;
    StepInTime(s, now, code, hash, 0, 3, g);
  }

  /** With both options in digits. */
  lemma AcceptedShifted(s: Text, now: nat, code: int, hash: int -> int, k: int, w: int, g: int)
    requires IsTotp(s) && 0 <= code < 1000000 && Owns(hash, code, g)
    requires -0x8000_0000 <= k < 0x8000_0000 && Get(s, TIME_SKEW) == Some(Decimal(k))
    requires 1 <= w <= 100 && Get(s, WINDOW_SIZE) == Some(Decimal(w))
    ensures StepOf(s, now, code, hash) == Some(g) <==> 30 * (g - k - w / 2) <= now < 30 * (g - k + (w - 1) / 2 + 1)
  {
    hide IsTotp, StepOf, Get, Decimal;
    StepInTime(s, now, code, hash, k, w, g);
  }

  /**
   A whole login with a file that bans reuse and has no other option: the step is granted exactly when the
   code comes in its time, the step is not in the list, and the file can be written.
   */
  lemma GrantedInTime(file: Text, attempt: Attempt, hash: int -> int, result: Result, g: int)
    requires LoginStep(file, attempt, hash, result)
    requires IsTotp(file) && 0 <= attempt.code < 1000000 && Owns(hash, attempt.code, g)
    requires Get(file, TIME_SKEW).None? && Get(file, WINDOW_SIZE).None? && Get(file, RATE_LIMIT).None?
    requires Get(file, DISALLOW_REUSE).Some?
    ensures result.granted == Some(g) <==>
            && 30 * g - 30 <= attempt.now < 30 * g + 60
            && Blocked(file).Some? && g !in Blocked(file).value && attempt.writes
  {
    hide IsTotp, StepOf, Get, Blocked, LoginAfter, Owns;
    var limit :| RateLimits(file, attempt.now, limit) && LoginAfter(file, attempt, hash, limit, result);
    LoginMeans(file, attempt, hash, limit, result);
    AcceptedAround(file, attempt.now, attempt.code, hash, g);
  }

  /** The rate limit lets an attempt pass exactly when fewer attempts than allowed are recorded in the interval up to now. */
  lemma PassesLimit(s: Text, now: nat, r: Outcome)
    requires RateLimits(s, now, r) && RateOption(s).Some? && NarrowAt(s, now)
    requires RateOption(s).value.interval <= now < 0x1_0000_0000
    ensures var rate := RateOption(s).value; r.rc >= 0 <==> Count(rate.times, now - rate.interval, now) < rate.attempts
  {
    hide Get, RateLimits, Recent, Count;
    LimitMeans(s, now, r);
    RecentCounts(RateOption(s).value, now, now);
  }
}
