/**
 * The token bucket of the Ethernet receive task in
 * backends/freertos/freertos_net.c: three credits, one charged per frame, one
 * refilled every `refill` ticks, on a 32-bit tick counter that wraps.
 */
module TokenBucket {
  import opened Arith

  /** ETH_RX_TOKEN_BURST, ETH_RX_TOKEN_REFILL_MS */
  const BURST: nat := 3
  const REFILL_MS: nat := 8

  /** The task's local variables. */
  datatype Bucket = Bucket(tokens: nat, refillAt: nat, backlog: bool)

  /** What one pass finds: the true tick count (the task sees it modulo 2^32) and what the driver returns if polled. */
  datatype Sample = Sample(now: nat, frames: int)

  /** What one pass does: the frames it charges and the ticks it then sleeps. */
  datatype Outcome = Outcome(used: nat, delay: nat)

  predicate Fits(b: Bucket) { b.tokens <= BURST && b.refillAt < WORD }

  predicate GoodPeriod(refill: nat) { 0 < refill && BURST * refill < WORD }

  /** pdMS_TO_TICKS of the refill period, never zero. */
  function RefillTicks(hz: nat): (r: nat)
    requires hz < WORD
    ensures GoodPeriod(r)
    ensures if 8 * hz < 1000 then r == 1 else 1000 * r <= 8 * hz < 1000 * (r + 1)
  {
    var ticks := REFILL_MS * hz / 1000;
    if ticks == 0 then 1 else ticks
  }

  function Elapsed(b: Bucket, now: nat): nat { (now - b.refillAt) % WORD }

  function Threshold(b: Bucket): nat { if b.backlog then BURST else 1 }

  /** The refill at the top of a pass. */
  function Refill(b: Bucket, now: nat, refill: nat): Bucket
    requires Fits(b) && refill > 0
  {
    if b.tokens == BURST then b.(refillAt := now % WORD)
    else
      var added := Elapsed(b, now) / refill;
      if added >= BURST - b.tokens then b.(tokens := BURST, refillAt := now % WORD)
      else if added > 0 then b.(tokens := b.tokens + added, refillAt := (b.refillAt + added * refill) % WORD)
      else b
  }

  function Wait(b: Bucket, now: nat, refill: nat): nat
    requires Fits(b)
  {
    ((Threshold(b) - b.tokens) * refill - Elapsed(b, now)) % WORD
  }

  function Used(b: Bucket, frames: int): nat
  {
    if frames <= 0 then 0 else if frames > b.tokens then b.tokens else frames
  }

  function Pass(b: Bucket, s: Sample, refill: nat): Bucket
    requires Fits(b) && refill > 0
  {
    var r := Refill(b, s.now, refill);
    if r.tokens < Threshold(r) then r
    else if s.frames > 0 then
      var used := Used(r, s.frames);
      r.(tokens := if used <= r.tokens then r.tokens - used else 0, backlog := used == r.tokens)
    else r.(backlog := false)
  }

  function PassOutcome(b: Bucket, s: Sample, refill: nat, poll: nat): Outcome
    requires Fits(b) && GoodPeriod(refill)
  {
    RefillFits(b, s.now, refill);
    var r := Refill(b, s.now, refill);
    if r.tokens < Threshold(r) then Outcome(0, Wait(r, s.now, refill))
    else Outcome(Used(r, s.frames), if Used(r, s.frames) < r.tokens then poll else 0)
  }

  // ------------------------------------------------------------- one pass, in credits

  lemma RefillFits(b: Bucket, now: nat, refill: nat)
    requires Fits(b) && refill > 0
    ensures Fits(Refill(b, now, refill))
    ensures Refill(b, now, refill).backlog == b.backlog && Refill(b, now, refill).tokens >= b.tokens
  {
  }

  /** Credit in ticks: whole tokens plus the part of the next one already earned. */
  function Credit(b: Bucket, now: nat, refill: nat): nat
    requires Fits(b)
  {
    if b.tokens == BURST then BURST * refill else b.tokens * refill + Elapsed(b, now)
  }

  /** Credit as a full bucket limits it. */
  function Clip(c: nat, refill: nat): nat { if c < BURST * refill then c else BURST * refill }

  /** Credit grows no faster than time, even across a wrap of the tick counter. */
  lemma CreditGrows(b: Bucket, t: nat, u: nat, refill: nat)
    requires Fits(b) && t <= u
    ensures Credit(b, u, refill) <= Credit(b, t, refill) + (u - t)
  {
    ModGrows(t - b.refillAt, u - t);
  }

  lemma ModGrows(x: int, d: nat)
    ensures (x + d) % WORD <= x % WORD + d
  {
    var q, r := x / WORD, x % WORD;
    assert x == q * WORD + r;
    if r + d < WORD { DivModUnique(x + d, WORD, q, r + d); }
  }

  /** Adding whole tokens takes exactly their ticks off the time since the last refill. */
  lemma RefillElapsed(b: Bucket, now: nat, refill: nat, added: nat)
    requires Fits(b) && refill > 0 && added == Elapsed(b, now) / refill
    ensures added * refill <= Elapsed(b, now) < added * refill + refill
    ensures (now - (b.refillAt + added * refill) % WORD) % WORD == Elapsed(b, now) - added * refill
  {
    var e := Elapsed(b, now);
    DivBounds(e, refill);
    var k := (now - b.refillAt) / WORD;
    var sum := b.refillAt + added * refill;
    var j := sum / WORD;
    assert now - b.refillAt == k * WORD + e;
    assert sum == j * WORD + sum % WORD;
    assert now - sum % WORD == (k + j) * WORD + (e - added * refill);
    DivModUnique(now - sum % WORD, WORD, k + j, e - added * refill);
  }

  lemma DivBounds(e: nat, refill: nat)
    requires refill > 0
    ensures e / refill * refill <= e < e / refill * refill + refill
  {
  }

  /**
   * The refill keeps the credit, up to the burst it clips to, and leaves less than
   * one period outstanding on a bucket that is not full.
   */
  lemma RefillKeepsCredit(b: Bucket, now: nat, refill: nat)
    requires Fits(b) && GoodPeriod(refill)
    ensures Fits(Refill(b, now, refill))
    ensures Credit(Refill(b, now, refill), now, refill) == Clip(Credit(b, now, refill), refill)
    ensures Refill(b, now, refill).tokens < BURST ==> Elapsed(Refill(b, now, refill), now) < refill
  {
    RefillFits(b, now, refill);
    if b.tokens < BURST {
      var added := Elapsed(b, now) / refill;
      RefillElapsed(b, now, refill, added);
      if added >= BURST - b.tokens {
        MulMono(BURST - b.tokens, added, refill);
        Distribute(b.tokens, BURST - b.tokens, refill);
      } else {
        MulMono(added + 1, BURST - b.tokens, refill);
        Distribute(b.tokens, added, refill);
        Distribute(b.tokens, BURST - b.tokens, refill);
        Distribute(added, 1, refill);
      }
    }
  }

  lemma Distribute(x: int, y: int, z: int)
    ensures (x + y) * z == x * z + y * z
  {
  }

  /** A pass spends exactly `refill` ticks of credit per frame it charges, from a credit clipped to the burst. */
  lemma PassSpends(b: Bucket, s: Sample, refill: nat, poll: nat)
    requires Fits(b) && GoodPeriod(refill)
    ensures Fits(Pass(b, s, refill))
    ensures Credit(Pass(b, s, refill), s.now, refill) + PassOutcome(b, s, refill, poll).used * refill
            == Clip(Credit(b, s.now, refill), refill)
  {
    RefillKeepsCredit(b, s.now, refill);
    var r := Refill(b, s.now, refill);
    var used := PassOutcome(b, s, refill, poll).used;
    if used > 0 {
      Distribute(r.tokens - used, used, refill);
      if r.tokens == BURST { DivModUnique(s.now - r.refillAt, WORD, s.now / WORD, 0); }
    }
  }

  // -------------------------------------------------------------------- whole runs

  predicate InOrder(env: seq<Sample>)
  {
    forall i, j :: 0 <= i < j < |env| ==> env[i].now <= env[j].now
  }

  function After(b: Bucket, env: seq<Sample>, refill: nat): (r: Bucket)
    requires Fits(b) && GoodPeriod(refill)
    ensures Fits(r)
    decreases |env|
  {
    if env == [] then b
    else
      PassSpends(b, env[0], refill, 0);
      After(Pass(b, env[0], refill), env[1..], refill)
  }

  function Outcomes(b: Bucket, env: seq<Sample>, refill: nat, poll: nat): (o: seq<Outcome>)
    requires Fits(b) && GoodPeriod(refill)
    ensures |o| == |env|
    decreases |env|
  {
    if env == [] then []
    else
      PassSpends(b, env[0], refill, 0);
      [PassOutcome(b, env[0], refill, poll)] + Outcomes(Pass(b, env[0], refill), env[1..], refill, poll)
  }

  function Charged(o: seq<Outcome>): nat
  {
    if o == [] then 0 else o[0].used + Charged(o[1..])
  }

  /** Frames charged over a stretch of passes are paid for by the credit at its start and the time it takes. */
  lemma {:induction false} ChargedPaid(b: Bucket, env: seq<Sample>, refill: nat, poll: nat)
    requires Fits(b) && GoodPeriod(refill) && env != [] && InOrder(env)
    ensures Charged(Outcomes(b, env, refill, poll)) * refill
            <= Clip(Credit(b, env[0].now, refill), refill) + (env[|env| - 1].now - env[0].now)
    decreases |env|
  {
    hide Pass, PassOutcome, Credit;
    var b1 := Pass(b, env[0], refill);
    var used := PassOutcome(b, env[0], refill, poll).used;
    PassSpends(b, env[0], refill, poll);
    var rest := Outcomes(b1, env[1..], refill, poll);
    assert Outcomes(b, env, refill, poll)[1..] == rest;
    Distribute(used, Charged(rest), refill);
    if |env| == 1 {
      assert rest == [];
    } else {
      ChargedPaid(b1, env[1..], refill, poll);
      CreditGrows(b1, env[0].now, env[1].now, refill);
    }
  }

  /**
   * The rate bound: over any window of any run, however the driver and the clock
   * behave and across any wrap of the tick counter, at most the burst plus one
   * frame per full refill period is charged.
   */
  lemma WindowBound(start: nat, before: seq<Sample>, window: seq<Sample>, refill: nat, poll: nat)
    requires start < WORD && GoodPeriod(refill) && window != [] && InOrder(window)
    ensures
      Charged(Outcomes(After(Bucket(BURST, start, false), before, refill), window, refill, poll))
      <= BURST + (window[|window| - 1].now - window[0].now) / refill
  {
    hide Outcomes, Charged, After;
    var b := After(Bucket(BURST, start, false), before, refill);
    ChargedPaid(b, window, refill, poll);
    DivideBound(Charged(Outcomes(b, window, refill, poll)), window[|window| - 1].now - window[0].now, refill);
  }

  lemma DivideBound(total: nat, time: nat, refill: nat)
    requires refill > 0 && total * refill <= BURST * refill + time
    ensures total <= BURST + time / refill
  {
    if total > BURST + time / refill {
      MulMono(BURST + time / refill + 1, total, refill);
      Distribute(BURST, time / refill, refill);
      Distribute(BURST + time / refill, 1, refill);
      DivBounds(time, refill);
      assert false;
    }
  }

  // --------------------------------------------------------------- frames received

  /** The driver is polled in this pass: the tokens reach the threshold. */
  predicate Polled(b: Bucket, now: nat, refill: nat)
    requires Fits(b) && refill > 0
  {
    Refill(b, now, refill).tokens >= if b.backlog then 3 else 1
  }

  /** The frames the driver hands over in a run, whatever is charged for them. */
  function Received(b: Bucket, env: seq<Sample>, refill: nat): nat
    requires Fits(b) && GoodPeriod(refill)
    decreases |env|
  {
    if env == [] then 0
    else
      PassSpends(b, env[0], refill, 0);
      (if Polled(b, env[0].now, refill) && env[0].frames > 0 then env[0].frames else 0)
      + Received(Pass(b, env[0], refill), env[1..], refill)
  }

  /** The driver never hands over more frames than the budget it is polled with. */
  predicate Honest(b: Bucket, env: seq<Sample>, refill: nat)
    requires Fits(b) && GoodPeriod(refill)
    decreases |env|
  {
    if env == [] then true
    else
      PassSpends(b, env[0], refill, 0);
      && (Polled(b, env[0].now, refill) ==> env[0].frames <= Refill(b, env[0].now, refill).tokens)
      && Honest(Pass(b, env[0], refill), env[1..], refill)
  }

  lemma PassCharges(b: Bucket, s: Sample, refill: nat, poll: nat)
    requires Fits(b) && GoodPeriod(refill)
    requires Polled(b, s.now, refill) ==> s.frames <= Refill(b, s.now, refill).tokens
    ensures PassOutcome(b, s, refill, poll).used
            == if Polled(b, s.now, refill) && s.frames > 0 then s.frames else 0
  {
    hide Refill;
    RefillFits(b, s.now, refill);
  }

  /** With such a driver every frame received is charged. */
  lemma {:induction false} HonestCharged(b: Bucket, env: seq<Sample>, refill: nat, poll: nat)
    requires Fits(b) && GoodPeriod(refill) && Honest(b, env, refill)
    ensures Charged(Outcomes(b, env, refill, poll)) == Received(b, env, refill)
    decreases |env|
  {
    hide Pass, PassOutcome, Polled;
    if env == [] {
    } else {
      PassSpends(b, env[0], refill, 0);
      PassCharges(b, env[0], refill, poll);
      HonestCharged(Pass(b, env[0], refill), env[1..], refill, poll);
      var rest := Outcomes(Pass(b, env[0], refill), env[1..], refill, poll);
      assert Outcomes(b, env, refill, poll)[1..] == rest;
    }
  }

  /**
   * The rate bound on what the network stack is handed: over any window of any run,
   * a driver that keeps to its budget hands over at most three frames plus one per
   * full refill period.
   */
  lemma ReceivedBound(start: nat, before: seq<Sample>, window: seq<Sample>, refill: nat)
    requires start < WORD && GoodPeriod(refill) && window != [] && InOrder(window)
    requires Honest(After(Bucket(BURST, start, false), before, refill), window, refill)
    ensures Received(After(Bucket(BURST, start, false), before, refill), window, refill)
            <= 3 + (window[|window| - 1].now - window[0].now) / refill
  {
    hide Outcomes, Charged, After, Received, Honest;
    HonestCharged(After(Bucket(BURST, start, false), before, refill), window, refill, 0);
    WindowBound(start, before, window, refill, 0);
  }

  /** A pass that finds a backlog or a full bucket, with a burst ready in the driver, takes a whole burst or nothing. */
  lemma SaturatedPass(b: Bucket, s: Sample, refill: nat, poll: nat)
    requires Fits(b) && GoodPeriod(refill) && (b.backlog || b.tokens == BURST) && s.frames >= BURST
    ensures Fits(Pass(b, s, refill)) && Pass(b, s, refill).backlog
    ensures PassOutcome(b, s, refill, poll).used == 0 || PassOutcome(b, s, refill, poll).used == BURST
  {
    hide Refill;
    RefillFits(b, s.now, refill);
  }

  /** Under saturation the task never takes frames one by one: every poll takes a whole burst. */
  lemma {:induction false} SaturatedCoalesces(b: Bucket, env: seq<Sample>, refill: nat, poll: nat)
    requires Fits(b) && GoodPeriod(refill) && (b.backlog || b.tokens == BURST)
    requires forall i :: 0 <= i < |env| ==> env[i].frames >= BURST
    ensures forall o :: o in Outcomes(b, env, refill, poll) ==> o.used == 0 || o.used == BURST
    decreases |env|
  {
    hide Pass, PassOutcome;
    if env == [] {
    } else {
      SaturatedPass(b, env[0], refill, poll);
      SaturatedCoalesces(Pass(b, env[0], refill), env[1..], refill, poll);
    }
  }

  /**
   * A throttled pass sleeps for a positive time of at most three periods, and that
   * time is exact: after any later number of ticks (short of a full wrap) the next
   * refill reaches the threshold if and only if the sleep has run out.
   */
  lemma WaitExact(b: Bucket, now: nat, later: nat, refill: nat)
    requires Fits(b) && GoodPeriod(refill) && now <= later
    requires Refill(b, now, refill).tokens < Threshold(b)
    requires later - now < WORD - refill
    ensures
      var r := Refill(b, now, refill);
      && Fits(r) && 0 < Wait(r, now, refill) <= BURST * refill
      && (Refill(r, later, refill).tokens >= Threshold(b) <==> later - now >= Wait(r, now, refill))
  {
    var r := Refill(b, now, refill);
    RefillKeepsCredit(b, now, refill);
    var e := Elapsed(r, now);
    var missing := Threshold(r) - r.tokens;
    DivModUnique(later - r.refillAt, WORD, (now - r.refillAt) / WORD, e + (later - now));
    assert Elapsed(r, later) == e + (later - now);
    MulMono(1, missing, refill);
    MulMono(missing, BURST, refill);
    DivModUnique(missing * refill - e, WORD, 0, missing * refill - e);
    WholeTokens(e + (later - now), missing, refill);
  }

  lemma WholeTokens(e: nat, missing: nat, refill: nat)
    requires refill > 0
    ensures e / refill >= missing <==> e >= missing * refill
  {
    DivBounds(e, refill);
    if e / refill >= missing {
      MulMono(missing, e / refill, refill);
    } else {
      MulMono(e / refill + 1, missing, refill);
      Distribute(e / refill, 1, refill);
    }
  }

  // ----------------------------------------------------------------- the task's loop

  /**
   * One turn of the task's loop, on the task's own variables. It takes one period
   * of credit per frame charged and never more than the clipped credit. A turn that
   * finds too few tokens charges nothing and sleeps for a positive time, exactly
   * until a refill reaches the threshold.
   */
  method Turn(tokens: nat, refillAt: nat, backlog: bool, s: Sample, refillTicks: nat, poll: nat)
    returns (t: nat, at: nat, bl: bool, o: Outcome)
    requires Fits(Bucket(tokens, refillAt, backlog)) && GoodPeriod(refillTicks)
    ensures Fits(Bucket(t, at, bl))
    ensures
      var c := Credit(Bucket(tokens, refillAt, backlog), s.now, refillTicks);
      Credit(Bucket(t, at, bl), s.now, refillTicks) + o.used * refillTicks == Clip(c, refillTicks)
    ensures
      var budget, threshold := t + o.used, if backlog then BURST else 1;
      if budget < threshold then o.used == 0
      else
        && o.used == (if s.frames <= 0 then 0 else if s.frames < budget then s.frames else budget)
        && bl == (s.frames > 0 && t == 0) && o.delay == (if t > 0 then poll else 0)
    ensures o.used == 0 && t < (if backlog then BURST else 1) ==>
      && bl == backlog && 0 < o.delay <= BURST * refillTicks
      && forall later :: s.now <= later < s.now + WORD - refillTicks ==>
           (Refill(Bucket(t, at, bl), later, refillTicks).tokens >= Threshold(Bucket(t, at, bl))
            <==> later - s.now >= o.delay)
    ensures Bucket(t, at, bl) == Pass(Bucket(tokens, refillAt, backlog), s, refillTicks)
    ensures o == PassOutcome(Bucket(tokens, refillAt, backlog), s, refillTicks, poll)
  {
    hide Refill, Wait, Credit, Clip;
    ghost var b := Bucket(tokens, refillAt, backlog);
    RefillFits(b, s.now, refillTicks);
    PassSpends(b, s, refillTicks, poll);
    t, at := TopUp(tokens, refillAt, backlog, s.now, refillTicks);
    bl := backlog;
    var threshold := if bl then BURST else 1;
    if t < threshold {
      var elapsed := (s.now - at) % WORD;
      var wait := ((threshold - t) * refillTicks - elapsed) % WORD;
      WaitIs(Bucket(t, at, bl), s.now, refillTicks);
      o := Outcome(0, wait);
      WaitExact(b, s.now, s.now, refillTicks);
      forall later | s.now <= later < s.now + WORD - refillTicks
        ensures Refill(Bucket(t, at, bl), later, refillTicks).tokens >= threshold <==> later - s.now >= wait
      {
        WaitExact(b, s.now, later, refillTicks);
      }
      return;
    }
    var budget := t;
    var used: nat := 0;
    if s.frames > 0 {
      used := s.frames;
      if used > budget { used := budget; }
      t := t - used;
      bl := used == budget;
    } else {
      bl := false;
    }
    o := Outcome(used, if t > 0 then poll else 0);
  }

  /** A run cut in two is the run of the second part from where the first ended. */
  lemma {:induction false} OutcomesSplit(b: Bucket, x: seq<Sample>, y: seq<Sample>, refill: nat, poll: nat)
    requires Fits(b) && GoodPeriod(refill)
    ensures Outcomes(b, x + y, refill, poll)
      == Outcomes(b, x, refill, poll) + Outcomes(After(b, x, refill), y, refill, poll)
    decreases |x|
  {
    hide Pass, PassOutcome;
    if x == [] {
      assert x + y == y;
    } else {
      assert (x + y)[0] == x[0] && (x + y)[1..] == x[1..] + y;
      PassSpends(b, x[0], refill, 0);
      OutcomesSplit(Pass(b, x[0], refill), x[1..], y, refill, poll);
    }
  }

  /** The rate bound for a slice of what a run returns. */
  lemma SliceBound(start: nat, env: seq<Sample>, refill: nat, poll: nat, i: nat, j: nat)
    requires start < WORD && GoodPeriod(refill) && InOrder(env) && i < j <= |env|
    ensures
      var done := Outcomes(Bucket(BURST, start, false), env, refill, poll);
      Charged(done[i..j]) <= BURST + (env[j - 1].now - env[i].now) / refill
  {
    hide Outcomes, Charged, After;
    var b := Bucket(BURST, start, false);
    assert env == env[..i] + env[i..] && env[i..] == env[i..j] + env[j..];
    OutcomesSplit(b, env[..i], env[i..], refill, poll);
    OutcomesSplit(After(b, env[..i], refill), env[i..j], env[j..], refill, poll);
    var done := Outcomes(b, env, refill, poll);
    assert done[i..j] == Outcomes(After(b, env[..i], refill), env[i..j], refill, poll);
    assert env[i..j][j - i - 1] == env[j - 1];
    WindowBound(start, env[..i], env[i..j], refill, poll);
  }

  /**
   * The receive task, run over any finite stretch of clock readings and driver
   * results: over every window of it at most the burst plus one frame per full
   * refill period is charged.
   */
  method RxTask(start: nat, env: seq<Sample>, hz: nat, poll: nat) returns (done: seq<Outcome>)
    requires hz < WORD
    ensures done == Outcomes(Bucket(BURST, start % WORD, false), env, RefillTicks(hz), poll)
    ensures |done| == |env|
    ensures InOrder(env) ==>
      forall i, j :: 0 <= i < j <= |env| ==>
        Charged(done[i..j]) <= 3 + (env[j - 1].now - env[i].now) / RefillTicks(hz)
    ensures Honest(Bucket(BURST, start % WORD, false), env, RefillTicks(hz)) ==>
      Charged(done) == Received(Bucket(BURST, start % WORD, false), env, RefillTicks(hz))
  {
    hide Outcomes, Pass, PassOutcome, Charged, Credit, Clip, Refill, Honest, Received;
    var tokens: nat, backlog: bool, refillAt: nat := BURST, false, start % WORD;
    var refillTicks := REFILL_MS * hz / 1000;
    if refillTicks == 0 { refillTicks := 1; }
    done := [];
    OutcomesNone(Bucket(tokens, refillAt, backlog), env, refillTicks, poll);
    for i := 0 to |env|
      invariant Fits(Bucket(tokens, refillAt, backlog))
      invariant done + Outcomes(Bucket(tokens, refillAt, backlog), env[i..], refillTicks, poll)
                == Outcomes(Bucket(BURST, start % WORD, false), env, refillTicks, poll)
    {
      OutcomesStep(Bucket(tokens, refillAt, backlog), env, i, refillTicks, poll);
      var o: Outcome;
      tokens, refillAt, backlog, o := Turn(tokens, refillAt, backlog, env[i], refillTicks, poll);
      done := done + [o];
    }
    assert env[|env|..] == [];
    OutcomesNone(Bucket(tokens, refillAt, backlog), [], refillTicks, poll);
    assert done == Outcomes(Bucket(BURST, start % WORD, false), env, refillTicks, poll);
    assert refillTicks == RefillTicks(hz);
    if Honest(Bucket(BURST, start % WORD, false), env, refillTicks) {
      HonestCharged(Bucket(BURST, start % WORD, false), env, refillTicks, poll);
    }
    if InOrder(env) {
      forall i, j | 0 <= i < j <= |env|
        ensures Charged(done[i..j]) <= BURST + (env[j - 1].now - env[i].now) / RefillTicks(hz)
      {
        SliceBound(start % WORD, env, refillTicks, poll, i, j);
      }
    }
  }

  lemma WaitIs(b: Bucket, now: nat, refill: nat)
    requires Fits(b)
    ensures Wait(b, now, refill) == ((Threshold(b) - b.tokens) * refill - (now - b.refillAt) % WORD) % WORD
  {
  }

  lemma OutcomesNone(b: Bucket, env: seq<Sample>, refill: nat, poll: nat)
    requires Fits(b) && GoodPeriod(refill)
    ensures Outcomes(b, [], refill, poll) == [] && env[0..] == env
  {
  }

  lemma OutcomesStep(b: Bucket, env: seq<Sample>, i: nat, refill: nat, poll: nat)
    requires Fits(b) && GoodPeriod(refill) && i < |env|
    ensures Fits(Pass(b, env[i], refill))
    ensures Outcomes(b, env[i..], refill, poll)
            == [PassOutcome(b, env[i], refill, poll)] + Outcomes(Pass(b, env[i], refill), env[i + 1..], refill, poll)
  {
    PassSpends(b, env[i], refill, 0);
    assert env[i..][1..] == env[i + 1..];
  }

  /**
   * The refill block, on the task's own variables: the credit is kept up to the
   * burst, and a bucket left short has less than one period outstanding.
   */
  method TopUp(tokens: nat, refillAt: nat, backlog: bool, now: nat, refillTicks: nat) returns (t: nat, at: nat)
    requires Fits(Bucket(tokens, refillAt, backlog)) && GoodPeriod(refillTicks)
    ensures tokens <= t <= BURST && at < WORD
    ensures Credit(Bucket(t, at, backlog), now, refillTicks)
            == Clip(Credit(Bucket(tokens, refillAt, backlog), now, refillTicks), refillTicks)
    ensures t < BURST ==> (now - at) % WORD < refillTicks
    ensures Bucket(t, at, backlog) == Refill(Bucket(tokens, refillAt, backlog), now, refillTicks)
  {
    t, at := tokens, refillAt;
    if t == BURST {
      at := now % WORD;
    } else {
      var elapsed := (now - at) % WORD;
      var added := elapsed / refillTicks;
      if added >= BURST - t {
        t, at := BURST, now % WORD;
      } else if added > 0 {
        t, at := t + added, (at + added * refillTicks) % WORD;
      }
    }
    RefillFits(Bucket(tokens, refillAt, backlog), now, refillTicks);
    RefillKeepsCredit(Bucket(tokens, refillAt, backlog), now, refillTicks);
  }
}
