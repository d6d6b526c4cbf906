/**
 * The power manager of src/ove_pm.c: four power states, the time spent in each, how
 * often each was entered, and the percentages reported from them. Clock readings
 * and the answers of the hardware layer are parameters; a reading is a 64-bit
 * microsecond count that never goes back. A ghost timeline of closed stays says
 * what the counters ought to hold.
 */
module PowerManager {
  import opened Arith

  /** OVE_PM_STATE_ACTIVE, IDLE, STANDBY, DEEP_SLEEP, COUNT */
  const ACTIVE: nat := 0
  const IDLE: nat := 1
  const STANDBY: nat := 2
  const DEEP_SLEEP: nat := 3
  const STATES: nat := 4

  datatype Config = Config(idleMs: nat, standbyMs: nat, deepSleepMs: nat)

  /** A closed stretch of time in one state. */
  datatype Stay = Stay(state: nat, start: nat, end: nat)

  datatype Stats = Stats(timeIn: seq<nat>, transitions: seq<nat>, total: nat, activePct: nat)

  // -------------------------------------------------------------------- timelines

  /** The stays follow each other without a gap from `from` to `to`. */
  ghost predicate Tiles(log: seq<Stay>, from: nat, to: nat)
  {
    if log == [] then from == to
    else
      var last := log[|log| - 1];
      last.state < STATES && last.start <= last.end == to && Tiles(log[..|log| - 1], from, last.start)
  }

  ghost function Spent(log: seq<Stay>, state: nat): int
  {
    if log == [] then 0
    else
      var last := log[|log| - 1];
      Spent(log[..|log| - 1], state) + if last.state == state then last.end - last.start else 0
  }

  ghost function Visits(log: seq<Stay>, state: nat): nat
  {
    if log == [] then 0
    else Visits(log[..|log| - 1], state) + if log[|log| - 1].state == state then 1 else 0
  }

  lemma EmptyTimeline(now: nat)
    ensures Tiles([], now, now) && forall k :: Spent([], k) == 0 && Visits([], k) == 0
  {
  }

  lemma Appended(log: seq<Stay>, s: Stay, state: nat)
    ensures Spent(log + [s], state) == Spent(log, state) + if s.state == state then s.end - s.start else 0
    ensures Visits(log + [s], state) == Visits(log, state) + if s.state == state then 1 else 0
  {
    assert (log + [s])[..|log|] == log;
  }

  lemma TilesOn(log: seq<Stay>, s: Stay, from: nat)
    requires Tiles(log, from, s.start) && s.state < STATES && s.start <= s.end
    ensures Tiles(log + [s], from, s.end)
  {
    assert (log + [s])[..|log|] == log;
  }

  /** One more stay adds its length to the total of its own state, which still fits, and to no other. */
  lemma StayCharged(log: seq<Stay>, s: Stay, from: nat)
    requires Tiles(log, from, s.start) && s.state < STATES && s.start <= s.end < DWORD
    ensures Tiles(log + [s], from, s.end)
    ensures 0 <= Spent(log, s.state) && Spent(log, s.state) + (s.end - s.start) < DWORD
    ensures forall k :: 0 <= k < STATES ==>
      Spent(log + [s], k) == Spent(log, k) + if s.state == k then s.end - s.start else 0
  {
    hide Spent, Visits, Tiles;
    SpentAddsUp(log, from, s.start);
    TilesOn(log, s, from);
    forall k | 0 <= k < STATES
      ensures Spent(log + [s], k) == Spent(log, k) + if s.state == k then s.end - s.start else 0
    {
      Appended(log, s, k);
    }
  }

  /** The time in the four states adds up to the whole timeline. */
  lemma {:induction false} SpentAddsUp(log: seq<Stay>, from: nat, to: nat)
    requires Tiles(log, from, to)
    ensures from <= to && forall k :: 0 <= k < STATES ==> 0 <= Spent(log, k)
    ensures Spent(log, 0) + Spent(log, 1) + Spent(log, 2) + Spent(log, 3) == to - from
  {
    if log == [] {
    } else {
      SpentAddsUp(log[..|log| - 1], from, log[|log| - 1].start);
    }
  }

  lemma CountUp(n: nat)
    ensures (n % WORD + 1) % WORD == (n + 1) % WORD
  {
    ModShift(n % WORD + 1, WORD, n / WORD);
  }

  // ------------------------------------------------------------------ percentages

  /** The active share in hundredths of a percent, with the product taken modulo 2^64. */
  function Pct(active: nat, total: nat): nat
  {
    if total > 0 then active * 10000 % DWORD / total else 10000
  }

  /** The share never exceeds 100 percent, so the low-power share never goes below zero. */
  lemma PctBounded(active: nat, total: nat)
    requires active <= total
    ensures Pct(active, total) <= 10000
  {
    if total > 0 {
      var p := active * 10000 % DWORD;
      assert p <= active * 10000;
      QuotientAtMost(p, total, 10000);
    }
  }

  lemma QuotientAtMost(x: nat, n: nat, k: nat)
    requires n > 0 && x <= n * k
    ensures x / n <= k
  {
    if x == n * k {
      DivModUnique(x, n, k, 0);
    } else {
      BelowMultiple(x, n, k);
    }
  }

  lemma {:induction false} BelowMultiple(x: nat, n: nat, k: nat)
    requires n > 0 && x < n * k
    ensures x / n < k
  {
    assert n * k == n * (k - 1) + n;
    if x < n * (k - 1) {
      BelowMultiple(x, n, k - 1);
    } else {
      DivModUnique(x, n, k - 1, x - n * (k - 1));
    }
  }

  /** The share is the true quotient if and only if the product fits in 64 bits. */
  lemma PctExactIff(active: nat, total: nat)
    requires active <= total < DWORD && total > 0
    ensures Pct(active, total) == active * 10000 / total <==> active * 10000 < DWORD
  {
    var x := active * 10000;
    if x < DWORD {
      DivModUnique(x, DWORD, 0, x);
    } else {
      WrappedQuotient(x, total);
    }
  }

  lemma WrappedQuotient(x: nat, total: nat)
    requires x >= DWORD > total > 0
    ensures x % DWORD / total < x / total
  {
    var r, q := x % DWORD, x / DWORD;
    assert x == DWORD * q + r;
    MulAtLeast(DWORD, q);
    var a := r / total;
    assert r == total * a + r % total;
    var b := x / total;
    assert x == total * b + x % total;
    if b <= a {
      assert total * a - total * b == total * (a - b);
      if a - b > 0 { MulAtLeast(total, a - b); }
      assert false;
    }
  }

  /** After 2^61 microseconds without sleep the report says that the system was never active. */
  lemma PctWraps()
    ensures Pct(0x2000_0000_0000_0000, 0x2000_0000_0000_0000) == 0
  {
  }

  // ----------------------------------------------------------------------- policy

  function DefaultPolicy(cfg: Config, idleMs: nat, nextTimeoutMs: nat): nat
  {
    if idleMs < cfg.idleMs then ACTIVE
    else if nextTimeoutMs < cfg.standbyMs then IDLE
    else if idleMs < cfg.deepSleepMs then STANDBY
    else DEEP_SLEEP
  }

  /**
   * The default policy keeps awake exactly below the idle threshold, goes deepest
   * exactly when all three thresholds are reached, and only ever escalates as the
   * idle time and the time to the next timeout grow.
   */
  lemma PolicyEscalates(cfg: Config, idleMs: nat, next: nat, idleMs': nat, next': nat)
    requires idleMs <= idleMs' && next <= next'
    ensures DefaultPolicy(cfg, idleMs, next) <= DefaultPolicy(cfg, idleMs', next') < STATES
    ensures DefaultPolicy(cfg, idleMs, next) == ACTIVE <==> idleMs < cfg.idleMs
    ensures DefaultPolicy(cfg, idleMs, next) == DEEP_SLEEP <==>
              idleMs >= cfg.idleMs && next >= cfg.standbyMs && idleMs >= cfg.deepSleepMs
    ensures DefaultPolicy(cfg, idleMs, next) == IDLE <==> idleMs >= cfg.idleMs && next < cfg.standbyMs
    ensures DefaultPolicy(cfg, idleMs, next) == STANDBY <==>
              idleMs >= cfg.idleMs && next >= cfg.standbyMs && idleMs < cfg.deepSleepMs
  {
  }

  lemma Thousandths(us: nat, ms: nat)
    ensures us / 1000 < ms <==> us < 1000 * ms
  {
    assert us == 1000 * (us / 1000) + us % 1000;
  }

  /** What the idle hook does with a policy's answer: an unknown state means stay awake. */
  function Recommended(answer: nat): nat { if answer >= STATES then ACTIVE else answer }

  // ---------------------------------------------------------------------- manager

  /** What the idle hook is about to do once it has the lock. */
  datatype Decision = Nothing | WakeUp | Sleep(to: nat)

  /** The calls, with the idle hook cut in two at the lock: other calls may come in between. */
  datatype Call =
    | SetTo(state: nat, now: nat)
    | Activity
    | IdleCheck(before: nat, nextTimeoutMs: nat, answer: nat)
    | IdleEnter(asleep: nat, woken: nat)
    | Reset(now: nat)

  /** Each call reads the clock in order, from `t` on. */
  predicate InOrder(t: nat, calls: seq<Call>)
    decreases |calls|
  {
    calls == []
    || (match calls[0]
        case SetTo(_, now) => t <= now < DWORD && InOrder(now, calls[1..])
        case Activity => InOrder(t, calls[1..])
        case IdleCheck(a, _, _) => t <= a < DWORD && InOrder(a, calls[1..])
        case IdleEnter(b, c) => t <= b <= c < DWORD && InOrder(c, calls[1..])
        case Reset(now) => t <= now < DWORD && InOrder(now, calls[1..]))
  }

  function LastReading(t: nat, calls: seq<Call>): nat
    decreases |calls|
  {
    if calls == [] then t
    else match calls[0]
      case SetTo(_, now) => LastReading(now, calls[1..])
      case Activity => LastReading(t, calls[1..])
      case IdleCheck(a, _, _) => LastReading(a, calls[1..])
      case IdleEnter(_, c) => LastReading(c, calls[1..])
      case Reset(now) => LastReading(now, calls[1..])
  }

  /** When the statistics were last cleared. */
  function LastReset(since: nat, calls: seq<Call>): nat
    decreases |calls|
  {
    if calls == [] then since
    else LastReset(if calls[0].Reset? then calls[0].now else since, calls[1..])
  }

  class Manager {
    var initialized: bool
    var current: nat
    var activity: bool
    var lastActivity: nat
    var stateEntry: nat
    var cfg: Config
    /** A policy other than the default one is installed. */
    var custom: bool
    /** What the idle hook found, from its checks to its locked section. */
    var decided: Decision
    const timeIn: array<nat>
    const transitions: array<nat>

    /** When the statistics were cleared, and every stay closed since. */
    ghost var since: nat
    ghost var log: seq<Stay>

    ghost predicate Shape()
      reads this
    {
      timeIn.Length == STATES && transitions.Length == STATES && timeIn != transitions
    }

    ghost predicate TimesOk()
      requires Shape()
      reads this, timeIn
    {
      forall k :: 0 <= k < STATES ==> timeIn[k] == Spent(log, k)
    }

    ghost predicate CountsOk()
      requires Shape()
      reads this, transitions
    {
      forall k :: 0 <= k < STATES ==> transitions[k] == (Visits(log, k) + if k == current then 1 else 0) % WORD
    }

    ghost predicate Valid()
      reads this, timeIn, transitions
    {
      && Shape() && (decided.Sleep? ==> decided.to < STATES)
      && (initialized ==>
           current < STATES && stateEntry < DWORD && Tiles(log, since, stateEntry) && TimesOk() && CountsOk())
    }

    /** The statically zeroed context. */
    constructor ()
      ensures Valid() && !initialized && fresh(timeIn) && fresh(transitions)
    {
      initialized, activity, custom := false, false, false;
      decided := Nothing;
      current, lastActivity, stateEntry := 0, 0, 0;
      cfg := Config(0, 0, 0);
      timeIn := new nat[STATES];
      transitions := new nat[STATES];
      since, log := 0, [];
    }

    method Clear()
      requires Shape()
      modifies timeIn, transitions
      ensures forall k :: 0 <= k < STATES ==> timeIn[k] == 0 && transitions[k] == 0
    {
      for i := 0 to STATES
        invariant forall k :: 0 <= k < i ==> timeIn[k] == 0 && transitions[k] == 0
      {
        timeIn[i], transitions[i] := 0, 0;
      }
    }

    /** Start afresh; a second start is refused, and a failing mutex or hardware setup leaves the manager off. */
    method Init(c: Config, now: nat, mutexOk: bool, halOk: bool) returns (ok: bool)
      requires Valid() && now < DWORD
      modifies this, timeIn, transitions
      ensures Valid() && ok == (!old(initialized) && mutexOk && halOk)
      ensures initialized == (old(initialized) || ok)
      ensures ok ==>
        && current == ACTIVE && !activity && !custom && cfg == c
        && lastActivity == stateEntry == since == now && log == []
      ensures old(initialized) ==> unchanged(this) && unchanged(timeIn) && unchanged(transitions)
    {
      hide Spent, Visits, Tiles;
      EmptyTimeline(now);
      if initialized { return false; }
      Clear();
      activity, custom, cfg := false, false, c;
      current, lastActivity := ACTIVE, now;
      stateEntry := lastActivity;
      since, log := now, [];
      if !mutexOk { return false; }
      initialized := true;
      transitions[ACTIVE] := 1;
      if !halOk {
        initialized := false;
        return false;
      }
      return true;
    }

    /** Charge the open stay to its state and start the next one now. */
    method UpdateStats(oldState: nat, now: nat)
      requires Shape() && oldState == current < STATES && stateEntry <= now < DWORD
      requires Tiles(log, since, stateEntry) && TimesOk()
      modifies timeIn, `stateEntry, `log
      ensures log == old(log) + [Stay(current, old(stateEntry), now)] && stateEntry == now
      ensures Tiles(log, since, stateEntry) && TimesOk()
    {
      hide Spent, Visits, Tiles;
      var elapsed := (now - stateEntry) % DWORD;
      ghost var stay := Stay(oldState, stateEntry, now);
      StayCharged(log, stay, since);
      timeIn[oldState] := (timeIn[oldState] + elapsed) % DWORD;
      stateEntry := now;
      log := log + [stay];
    }

    /** Charge the open stay, enter `next` and count the entry. */
    method Switch(next: nat, now: nat)
      requires Valid() && initialized && next < STATES && stateEntry <= now < DWORD
      modifies timeIn, transitions, `stateEntry, `log, `current
      ensures Valid() && current == next && stateEntry == now
      ensures log == old(log) + [Stay(old(current), old(stateEntry), now)]
    {
      hide Spent, Visits, Tiles;
      ghost var before := log;
      UpdateStats(current, now);
      forall k | 0 <= k < STATES
        ensures transitions[k] == Visits(log, k) % WORD
      {
        Appended(before, log[|log| - 1], k);
      }
      CountEntry(next);
    }

    method CountEntry(next: nat)
      requires Shape() && next < STATES
      requires forall k :: 0 <= k < STATES ==> transitions[k] == Visits(log, k) % WORD
      modifies transitions, `current
      ensures CountsOk() && current == next
    {
      hide Visits;
      current := next;
      CountUp(Visits(log, next));
      transitions[next] := (transitions[next] + 1) % WORD;
    }

    /** Manual choice of a state; entering a sleep state restarts the idle count. */
    method SetState(state: nat, now: nat) returns (ok: bool)
      requires Valid() && (initialized ==> stateEntry <= now < DWORD)
      modifies timeIn, transitions, `stateEntry, `log, `current, `lastActivity
      ensures Valid() && ok == (initialized && state < STATES)
      ensures !ok || state == old(current) ==>
                unchanged(timeIn) && unchanged(transitions) && unchanged(this)
      ensures ok && state != old(current) ==>
                && current == state && stateEntry == now
                && log == old(log) + [Stay(old(current), old(stateEntry), now)]
                && lastActivity == if state > ACTIVE then now else old(lastActivity)
    {
      hide Spent, Visits, Tiles;
      if !initialized || state >= STATES { return false; }
      ok := true;
      if current == state { return; }
      Switch(state, now);
      if state > ACTIVE { lastActivity := now; }
    }

    method Activity()
      requires Valid()
      modifies `activity
      ensures Valid() && activity
    {
      activity := true;
    }

    /**
     * The first part of the idle hook, before it takes the lock. Pending activity is
     * consumed, never invented, and asks for waking; otherwise the policy may ask for
     * a deeper state than the present one.
     */
    method Check(before: nat, nextTimeoutMs: nat, answer: nat)
      requires Valid() && (initialized ==> before < DWORD)
      modifies `lastActivity, `activity, `decided
      ensures Valid()
      ensures !initialized ==> decided == Nothing && activity == old(activity) && lastActivity == old(lastActivity)
      ensures initialized ==> !activity && lastActivity == if old(activity) then before else old(lastActivity)
      ensures initialized && old(activity) ==> decided == if current != ACTIVE then WakeUp else Nothing
      ensures initialized && !old(activity) ==>
                var to := Asked(before, nextTimeoutMs, answer);
                decided == if to > current then Sleep(to) else Nothing
    {
      hide Spent, Visits, Tiles;
      decided := Nothing;
      if !initialized { return; }
      if activity {
        activity := false;
        lastActivity := before;
        if current != ACTIVE { decided := WakeUp; }
        return;
      }
      var idleMs := (before - lastActivity) % DWORD / 1000 % WORD;
      var recommended := if custom then answer else DefaultPolicy(cfg, idleMs, nextTimeoutMs);
      if recommended >= STATES { recommended := ACTIVE; }
      if recommended <= current { return; }
      decided := Sleep(recommended);
    }

    /** The state the policy asks for at this reading. */
    function Asked(before: nat, nextTimeoutMs: nat, answer: nat): nat
      reads this
    {
      Recommended(if custom then answer
                  else DefaultPolicy(cfg, (before - lastActivity) % DWORD / 1000 % WORD, nextTimeoutMs))
    }

    /**
     * What is asked for, on the microsecond clock, while the idle time fits 32 bits of
     * milliseconds: the default policy compares it with the thresholds in
     * milliseconds, and an installed policy decides, unknown answers meaning awake.
     */
    lemma AskedMeans(before: nat, next: nat, answer: nat)
      requires lastActivity <= before < DWORD && before - lastActivity < 1000 * WORD
      ensures custom ==> Asked(before, next, answer) == if answer < 4 then answer else 0
      ensures
        var idleUs := before - lastActivity;
        !custom ==>
          Asked(before, next, answer) ==
          if idleUs < 1000 * cfg.idleMs then 0
          else if next < cfg.standbyMs then 1
          else if idleUs < 1000 * cfg.deepSleepMs then 2
          else 3
    {
      var idleUs := before - lastActivity;
      NearMod(idleUs, DWORD);
      NearMod(idleUs / 1000, WORD);
      Thousandths(idleUs, cfg.idleMs);
      Thousandths(idleUs, cfg.deepSleepMs);
    }

    /**
     * The locked part of the idle hook, whatever the state has become since the
     * checks: the timeline goes on without a gap and ends active. Sleeping does not
     * count as activity.
     */
    method Enter(asleep: nat, woken: nat)
      requires Valid() && (initialized ==> stateEntry <= asleep <= woken < DWORD)
      modifies timeIn, transitions, `stateEntry, `log, `current, `decided
      ensures Valid() && decided == Nothing
      ensures !initialized || old(decided) == Nothing ==>
                unchanged(timeIn) && unchanged(transitions) && unchanged(`stateEntry, `log, `current)
      ensures initialized && old(decided) == WakeUp ==>
                && current == ACTIVE && stateEntry == asleep
                && log == old(log) + [Stay(old(current), old(stateEntry), asleep)]
      ensures initialized && old(decided).Sleep? ==>
                && current == ACTIVE && stateEntry == woken
                && log == old(log) + [Stay(old(current), old(stateEntry), asleep), Stay(old(decided).to, asleep, woken)]
    {
      hide Spent, Visits, Tiles;
      var todo := decided;
      decided := Nothing;
      if !initialized { return; }
      match todo {
        case Nothing =>
        case WakeUp => Switch(ACTIVE, asleep);
        case Sleep(to) =>
          Switch(to, asleep);
          Switch(ACTIVE, woken);
      }
    }

    /** The idle hook with nothing in between its two parts. */
    method IdleProcess(before: nat, asleep: nat, woken: nat, nextTimeoutMs: nat, answer: nat)
      requires Valid()
      requires initialized ==> stateEntry <= before <= asleep <= woken < DWORD
      modifies timeIn, transitions, `stateEntry, `log, `current, `lastActivity, `activity, `decided
      ensures Valid()
      ensures !initialized ==>
                && unchanged(timeIn) && unchanged(transitions)
                && unchanged(`stateEntry, `log, `current, `lastActivity, `activity)
      ensures initialized && old(activity) ==>
                && !activity && lastActivity == before && current == ACTIVE
                && log == old(log)
                          + (if old(current) != ACTIVE then [Stay(old(current), old(stateEntry), asleep)] else [])
                && stateEntry == (if old(current) != ACTIVE then asleep else old(stateEntry))
      ensures initialized && !old(activity) ==>
                var to := old(Asked(before, nextTimeoutMs, answer));
                && !activity && lastActivity == old(lastActivity)
                && if to <= old(current) then
                     current == old(current) && log == old(log) && stateEntry == old(stateEntry)
                   else
                     && current == ACTIVE && stateEntry == woken
                     && log == old(log) + [Stay(old(current), old(stateEntry), asleep), Stay(to, asleep, woken)]
    {
      Check(before, nextTimeoutMs, answer);
      Enter(asleep, woken);
    }

    method ResetStats(now: nat)
      requires Valid() && (initialized ==> stateEntry <= now < DWORD)
      modifies timeIn, transitions, `stateEntry, `log, `since
      ensures Valid()
      ensures if initialized then stateEntry == since == now && log == []
              else unchanged(timeIn) && unchanged(transitions) && unchanged(this)
    {
      if !initialized { return; }
      Clear();
      stateEntry := now;
      since, log := now, [];
      transitions[current] := 1;
    }

    /**
     * The report: each state's time is that of the timeline up to now, the total is
     * exactly the time since the last reset, and each count is that state's visits.
     */
    method GetStats(now: nat) returns (ok: bool, st: Stats)
      requires Valid() && (initialized ==> stateEntry <= now < DWORD)
      ensures ok == initialized
      ensures ok ==>
                var whole := log + [Stay(current, stateEntry, now)];
                && Tiles(whole, since, now)
                && |st.timeIn| == STATES && |st.transitions| == STATES
                && (forall k :: 0 <= k < STATES ==> st.timeIn[k] == Spent(whole, k))
                && (forall k :: 0 <= k < STATES ==> st.transitions[k] == Visits(whole, k) % WORD)
                && st.total == now - since
                && st.timeIn[ACTIVE] <= st.total
                && st.activePct == Pct(st.timeIn[ACTIVE], st.total) <= 10000
    {
      hide Spent, Visits, Tiles, Pct;
      if !initialized { return false, Stats([], [], 0, 0); }
      ghost var stay := Stay(current, stateEntry, now);
      WithOpenStay(now);
      var times := timeIn[..];
      times := times[current := (times[current] + (now - stateEntry) % DWORD) % DWORD];
      assert forall k :: 0 <= k < STATES ==> times[k] == Spent(log + [stay], k);
      var total := Total(times);
      PctBounded(times[ACTIVE], total);
      var pct := Pct(times[ACTIVE], total);
      return true, Stats(times, transitions[..], total, pct % WORD);
    }

    /** The timeline with the open stay closed now. */
    lemma WithOpenStay(now: nat)
      requires Valid() && initialized && stateEntry <= now < DWORD
      ensures
        var whole := log + [Stay(current, stateEntry, now)];
        && Tiles(whole, since, now)
        && (forall k :: 0 <= k < STATES ==>
          0 <= Spent(whole, k) == timeIn[k] + if current == k then now - stateEntry else 0)
        && (forall k :: 0 <= k < STATES ==> Visits(whole, k) % WORD == transitions[k])
        && Spent(whole, 0) + Spent(whole, 1) + Spent(whole, 2) + Spent(whole, 3) == now - since
    {
      hide Spent, Visits, Tiles;
      var stay := Stay(current, stateEntry, now);
      TilesOn(log, stay, since);
      SpentAddsUp(log + [stay], since, now);
      forall k | 0 <= k < STATES
        ensures 0 <= Spent(log + [stay], k) == timeIn[k] + if current == k then now - stateEntry else 0
        ensures Visits(log + [stay], k) % WORD == transitions[k]
      {
        Appended(log, stay, k);
      }
    }

    /** The low-power share; it complements the active share and never wraps below zero. */
    method GetBudgetStatus(now: nat) returns (ok: bool, lowPct: nat)
      requires Valid() && (initialized ==> stateEntry <= now < DWORD)
      ensures ok == initialized
      ensures ok ==>
                var active := Spent(log + [Stay(current, stateEntry, now)], ACTIVE);
                && 0 <= active <= now - since
                && lowPct <= 10000 && lowPct + Pct(active, now - since) == 10000
    {
      lowPct := 0;
      var st;
      ok, st := GetStats(now);
      if ok { lowPct := (10000 - st.activePct) % WORD; }
    }

    /**
     * Any sequence of calls, with anything between the checks of the idle hook and
     * its locked section, keeps the books: the timeline covers exactly the time since
     * the last reset.
     */
    method Run(calls: seq<Call>, ghost t: nat)
      requires Valid() && initialized && stateEntry <= t < DWORD && InOrder(t, calls)
      modifies timeIn, transitions, `stateEntry, `log, `current, `lastActivity, `activity, `decided, `since
      ensures Valid() && initialized
      ensures since == LastReset(old(since), calls) && stateEntry <= LastReading(t, calls) < DWORD
      decreases |calls|
    {
      if calls == [] { return; }
      match calls[0] {
        case SetTo(state, now) => var ok := SetState(state, now); Run(calls[1..], now);
        case Activity => Activity(); Run(calls[1..], t);
        case IdleCheck(a, next, answer) => Check(a, next, answer); Run(calls[1..], a);
        case IdleEnter(b, c) => Enter(b, c); Run(calls[1..], c);
        case Reset(now) => ResetStats(now); Run(calls[1..], now);
      }
    }
  }

  function Prefix(times: seq<nat>, n: nat): nat
    requires n <= |times|
  {
    if n == 0 then 0 else Prefix(times, n - 1) + times[n - 1]
  }

  /** The running 64-bit sum of the four times. */
  method Total(times: seq<nat>) returns (total: nat)
    requires |times| == STATES && times[0] + times[1] + times[2] + times[3] < DWORD
    ensures total == times[0] + times[1] + times[2] + times[3]
  {
    PrefixFour(times);
    total := 0;
    for i := 0 to STATES
      invariant total == Prefix(times, i)
    {
      assert Prefix(times, i + 1) <= Prefix(times, STATES);
      total := (total + times[i]) % DWORD;
    }
  }

  lemma PrefixFour(times: seq<nat>)
    requires |times| == STATES
    ensures Prefix(times, STATES) == times[0] + times[1] + times[2] + times[3]
    ensures forall i :: 0 <= i <= STATES ==> Prefix(times, i) <= Prefix(times, STATES)
  {
    assert Prefix(times, 1) == times[0];
    assert Prefix(times, 2) == times[0] + times[1];
    assert Prefix(times, 3) == times[0] + times[1] + times[2];
  }
}
