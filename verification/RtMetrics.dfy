/**
 * The measurements of backends/common/lxp_ove_rt_scope.c: counting releases from
 * two hardware timers, the dispatch histogram, and the percentile read from it.
 */
module RtMetrics {
  import opened Arith
  import opened Common

  /** OVE_RT_SCOPE_TICKS_PER_US, OVE_RT_SCOPE_PERIOD_US, RT_SCOPE_HIST_BINS */
  const TICKS_PER_US: int := 54
  const PERIOD_US: int := 1000
  const BINS: int := 18

  // -------------------------------------------------------------- the timer

  /** Releases counted by the update interrupt of TIM3 against the free-running TIM5. */
  class Timer {
    var lastDeadlineUs: nat
    var deadlineCount: nat
    var overruns: nat
    /** Time of release 0, the index of the last release counted, and the interrupts taken. */
    ghost var epoch: nat
    ghost var index: nat
    ghost var interrupts: nat

    ghost predicate Valid()
      reads this
    {
      && lastDeadlineUs == Word(epoch + PERIOD_US * index)
      && deadlineCount == Word(index)
      && interrupts <= index && overruns == Word(index - interrupts)
    }

    constructor (nowUs: nat)
      requires nowUs < WORD
      ensures Valid() && index == 0 && interrupts == 0 && epoch % WORD == (nowUs - PERIOD_US) % WORD
    {
      lastDeadlineUs := Word(nowUs - PERIOD_US);
      deadlineCount, overruns := 0, 0;
      epoch, index, interrupts := Word(nowUs - PERIOD_US), 0, 0;
    }

    /**
     * The interrupt serves release k: the edge read back from the two timers is
     * within half a period of the true one, and less than a full wrap of the
     * microsecond timer has passed since the last.
     */
    ghost predicate Serves(nowUs: nat, phaseTicks: nat, k: nat, error: int)
      reads this
    {
      && k > index && PERIOD_US * (k - index) + PERIOD_US < WORD
      && -(PERIOD_US / 2) <= error < PERIOD_US / 2
      && Word(nowUs - phaseTicks / TICKS_PER_US) == Word(epoch + PERIOD_US * k + error)
    }

    /**
     * `timer_update`. Whatever the timers read, the count moves on and agrees with
     * the time base and the overruns. If the interrupt serves release k, the count
     * moves to exactly k, however many releases were collapsed into this interrupt,
     * and the error does not carry over to the next.
     */
    method Update(nowUs: nat, phaseTicks: nat, ghost k: nat, ghost error: int)
      requires Valid() && nowUs < WORD
      modifies this
      ensures Valid() && index > old(index) && epoch == old(epoch) && interrupts == old(interrupts) + 1
      ensures old(Serves(nowUs, phaseTicks, k, error)) ==> index == k
    {
      hide Word;
      var phaseUs := phaseTicks / TICKS_PER_US;
      var deadlineUs := Word(nowUs - phaseUs);
      var elapsedUs := Word(deadlineUs - lastDeadlineUs);
      var periods := Word(elapsedUs + PERIOD_US / 2) / PERIOD_US;
      if periods == 0 { periods := 1; }
      if Serves(nowUs, phaseTicks, k, error) {
        RoundsTo(k - index, error);
        ElapsedIs(epoch + PERIOD_US * index, PERIOD_US * (k - index) + error, deadlineUs, lastDeadlineUs);
        assert periods == k - index;
      }
      lastDeadlineUs := Word(lastDeadlineUs + periods * PERIOD_US);
      if periods > 1 { overruns := Word(overruns + (periods - 1)); }
      deadlineCount := Word(deadlineCount + periods);
      WordSum(epoch + PERIOD_US * index, periods * PERIOD_US);
      WordSum(index, periods);
      WordSum(index - interrupts, periods - 1);
      index := index + periods;
      interrupts := interrupts + 1;
    }
  }

  lemma WordSum(a: int, d: int)
    ensures Word(Word(a) + d) == Word(a + d)
  {
    ModShift(Word(a) + d, WORD, a / WORD);
  }

  /** The difference of two wrapped times is their true distance. */
  lemma ElapsedIs(from: int, d: int, b: nat, a: nat)
    requires a == Word(from) && b == Word(from + d) && 0 <= d < WORD
    ensures Word(b - a) == d
  {
    var q, r := from / WORD, (from + d) / WORD;
    assert b - a == d + WORD * (q - r);
    ModShift(d, WORD, q - r);
    NearMod(d, WORD);
  }

  /** Rounding to the nearest period absorbs an error of less than half of one. */
  lemma RoundsTo(n: nat, error: int)
    requires n > 0 && PERIOD_US * n + PERIOD_US < WORD && -(PERIOD_US / 2) <= error < PERIOD_US / 2
    ensures 0 <= PERIOD_US * n + error < WORD
    ensures Word(PERIOD_US * n + error + PERIOD_US / 2) / PERIOD_US == n
  {
    var x := PERIOD_US * n + error + PERIOD_US / 2;
    NearMod(x, WORD);
    DivModUnique(x, PERIOD_US, n, error + PERIOD_US / 2);
  }

  // ---------------------------------------------------------------- histogram

  /** g_hist_upper_us */
  const UPPER_US: seq<nat> := [1, 2, 3, 4, 5, 6, 8, 10, 12, 16, 20, 32, 50, 100, 250, 500, 750, 1000]

  /** Upper edge of bin i in ticks. */
  function Edge(i: nat): nat
    requires i < BINS
  {
    UPPER_US[i] * TICKS_PER_US
  }

  lemma EdgesAscend(i: nat, j: nat)
    requires i < j < BINS
    ensures Edge(i) < Edge(j)
  {
  }

  /** The bin a sample belongs to: the first whose edge it does not exceed, or the last. */
  predicate InBin(ticks: nat, b: nat)
  {
    && b < BINS
    && (ticks <= Edge(b) || b == BINS - 1)
    && (b > 0 ==> Edge(b - 1) < ticks)
  }

  /** `histogram_bin` */
  method HistogramBin(ticks: nat) returns (b: nat)
    ensures InBin(ticks, b)
  {
    for i := 0 to BINS
      invariant i > 0 ==> Edge(i - 1) < ticks
    {
      if ticks <= Edge(i) { return i; }
    }
    b := BINS - 1;
  }

  /** Number of samples in bin b. */
  function CountBin(samples: seq<nat>, b: nat): nat
    requires b < BINS
  {
    if samples == [] then 0
    else CountBin(samples[..|samples| - 1], b) + if InBin(samples[|samples| - 1], b) then 1 else 0
  }

  /** Number of samples of at most t ticks. */
  function CountUpTo(samples: seq<nat>, t: nat): nat
  {
    if samples == [] then 0
    else CountUpTo(samples[..|samples| - 1], t) + if samples[|samples| - 1] <= t then 1 else 0
  }

  /** Samples in the first n bins. */
  function Cumulative(samples: seq<nat>, n: nat): nat
    requires n <= BINS
  {
    if n == 0 then 0 else Cumulative(samples, n - 1) + CountBin(samples, n - 1)
  }

  /** One more sample adds one to the cumulative count exactly when its bin is among the first n. */
  lemma {:induction false} CumulativeStep(samples: seq<nat>, x: nat, n: nat)
    requires n <= BINS
    ensures Cumulative(samples + [x], n)
            == Cumulative(samples, n) + if exists b :: 0 <= b < n && InBin(x, b) then 1 else 0
  {
    if n == 0 {
    } else {
      CumulativeStep(samples, x, n - 1);
      assert (samples + [x])[..|samples|] == samples;
      if exists b :: 0 <= b < n - 1 && InBin(x, b) {
        var b :| 0 <= b < n - 1 && InBin(x, b);
        OneBin(x, b, n - 1);
      }
    }
  }

  lemma OneBin(x: nat, a: nat, b: nat)
    requires a < BINS && b < BINS && a != b && InBin(x, a)
    ensures !InBin(x, b)
  {
    if a < b - 1 { EdgesAscend(a, b - 1); }
    if b < a - 1 { EdgesAscend(b, a - 1); }
  }

  /** A sample falls in one of the first n bins exactly when it is at most the n-th edge, or n is all. */
  lemma {:induction false} BinsBelow(x: nat, n: nat)
    requires 0 < n <= BINS
    ensures (exists b :: 0 <= b < n && InBin(x, b)) <==> x <= Edge(n - 1) || n == BINS
  {
    if x <= Edge(n - 1) || n == BINS {
      var b := BinOf(x, n);
      assert InBin(x, b);
    } else {
      forall b | 0 <= b < n ensures !InBin(x, b) {
        if b < n - 1 { EdgesAscend(b, n - 1); }
      }
    }
  }

  lemma {:induction false} BinOf(x: nat, n: nat) returns (b: nat)
    requires 0 < n <= BINS && (x <= Edge(n - 1) || n == BINS)
    ensures b < n && InBin(x, b)
  {
    if n == 1 || x > Edge(n - 2) { b := n - 1; } else { b := BinOf(x, n - 1); }
  }

  /** The cumulative histogram counts samples by value: all up to the edge, and for the last bin all. */
  lemma {:induction false} CumulativeCounts(samples: seq<nat>, n: nat)
    requires 0 < n <= BINS
    ensures Cumulative(samples, n) == if n == BINS then |samples| else CountUpTo(samples, Edge(n - 1))
  {
    if samples == [] {
      NoSamples(n);
    } else {
      var front, x := samples[..|samples| - 1], samples[|samples| - 1];
      assert samples == front + [x];
      CumulativeCounts(front, n);
      CumulativeStep(front, x, n);
      BinsBelow(x, n);
    }
  }

  lemma {:induction false} NoSamples(n: nat)
    requires n <= BINS
    ensures Cumulative([], n) == 0
  {
    if n == 0 {
    } else {
      NoSamples(n - 1);
    }
  }

  lemma {:induction false} AllWithin(samples: seq<nat>, t: nat)
    requires forall i :: 0 <= i < |samples| ==> samples[i] <= t
    ensures CountUpTo(samples, t) == |samples|
  {
    if samples == [] {
    } else {
      AllWithin(samples[..|samples| - 1], t);
      assert samples[|samples| - 1] <= t;
    }
  }

  /** One execution as `metrics_add` is told of it. */
  datatype Record = Record(
    dispatch: nat, age: nat, work: nat, missed: nat, late: bool, locked: bool, owner: nat)
  {
    predicate Fits()
    {
      dispatch < WORD && age < WORD && work < WORD && missed < WORD && owner < WORD
    }
  }

  /** The quantities of which the largest or smallest is kept; where one does not apply it is 0. */
  datatype Field = Age | Work | Miss | LockedDispatch | UnlockedDispatch

  function Value(r: Record, f: Field): nat
  {
    match f
    case Age => r.age
    case Work => r.work
    case Miss => r.missed
    case LockedDispatch => if r.locked then r.dispatch else 0
    case UnlockedDispatch => if r.locked then 0 else r.dispatch
  }

  function Values(rs: seq<Record>, f: Field): (v: seq<nat>)
    ensures |v| == |rs|
  {
    if rs == [] then [] else Values(rs[..|rs| - 1], f) + [Value(rs[|rs| - 1], f)]
  }

  function Lates(rs: seq<Record>): nat
  {
    if rs == [] then 0 else Lates(rs[..|rs| - 1]) + if rs[|rs| - 1].late then 1 else 0
  }

  ghost predicate IsMax(m: nat, s: seq<nat>) { (forall x :: x in s ==> x <= m) && (m == 0 || m in s) }

  ghost predicate IsMin(m: nat, s: seq<nat>) { (forall x :: x in s ==> m <= x) && (m == WORD - 1 || m in s) }

  /** The owner kept is that of an execution with the largest dispatch latency under a lock. */
  ghost predicate OwnerOfMax(rs: seq<Record>, max: nat, owner: nat)
  {
    max > 0 ==> exists r :: r in rs && r.locked && r.dispatch == max && r.owner == owner
  }

  lemma ValuesStep(rs: seq<Record>, r: Record, f: Field)
    ensures Values(rs + [r], f) == Values(rs, f) + [Value(r, f)]
    ensures Lates(rs + [r]) == Lates(rs) + if r.late then 1 else 0
  {
    assert (rs + [r])[..|rs|] == rs;
  }

  lemma MaxStep(m: nat, rs: seq<Record>, r: Record, f: Field)
    requires IsMax(m, Values(rs, f))
    ensures IsMax(if Value(r, f) > m then Value(r, f) else m, Values(rs + [r], f))
  {
    hide Values;
    ValuesStep(rs, r, f);
  }

  lemma MinStep(m: nat, rs: seq<Record>, r: Record, f: Field)
    requires IsMin(m, Values(rs, f))
    ensures IsMin(if Value(r, f) < m then Value(r, f) else m, Values(rs + [r], f))
  {
    hide Values;
    ValuesStep(rs, r, f);
  }

  lemma {:induction false} ValuesAt(rs: seq<Record>, f: Field, i: nat)
    requires i < |rs|
    ensures Values(rs, f)[i] == Value(rs[i], f)
  {
    if i == |rs| - 1 {
    } else {
      ValuesAt(rs[..|rs| - 1], f, i);
    }
  }

  lemma MaxMeans(m: nat, rs: seq<Record>, f: Field, r: Record)
    requires IsMax(m, Values(rs, f)) && r in rs
    ensures Value(r, f) <= m && (m == 0 || exists x :: x in rs && Value(x, f) == m)
  {
    hide Values;
    var i :| 0 <= i < |rs| && rs[i] == r;
    ValuesAt(rs, f, i);
    assert Values(rs, f)[i] in Values(rs, f);
    if m != 0 {
      var j :| 0 <= j < |rs| && Values(rs, f)[j] == m;
      ValuesAt(rs, f, j);
      assert rs[j] in rs && Value(rs[j], f) == m;
    }
  }

  lemma MinMeans(m: nat, rs: seq<Record>, f: Field, r: Record)
    requires IsMin(m, Values(rs, f)) && r in rs
    ensures m <= Value(r, f) && (m == WORD - 1 || exists x :: x in rs && Value(x, f) == m)
  {
    hide Values;
    var i :| 0 <= i < |rs| && rs[i] == r;
    ValuesAt(rs, f, i);
    assert Values(rs, f)[i] in Values(rs, f);
    if m != WORD - 1 {
      var j :| 0 <= j < |rs| && Values(rs, f)[j] == m;
      ValuesAt(rs, f, j);
      assert rs[j] in rs && Value(rs[j], f) == m;
    }
  }

  lemma MissesStep(rs: seq<Record>, r: Record)
    ensures Word(Sum(Values(rs + [r], Miss))) == Word(Word(Sum(Values(rs, Miss))) + r.missed)
  {
    ValuesStep(rs, r, Miss);
    var v := Values(rs, Miss);
    assert (v + [r.missed])[..|v|] == v;
    WordSum(Sum(v), r.missed);
  }

  /** `struct rt_scope_metrics` */
  class Metrics {
    var executions: nat
    var dispatchMin: nat
    var dispatchMax: nat
    var dispatchSum: nat
    var hist: array<nat>
    var missed: nat
    var lateFinish: nat
    var ageMax: nat
    var missedMax: nat
    var lockedMax: nat
    var lockedOwner: nat
    var unlockedMax: nat
    var workMin: nat
    var workMax: nat
    /** Every dispatch latency recorded, in order, and all that came with it. */
    ghost var samples: seq<nat>
    ghost var records: seq<Record>

    ghost predicate DispatchOk()
      reads `executions, `dispatchMin, `dispatchMax, `dispatchSum, `samples, `hist, hist
    {
      && hist.Length == BINS && executions == Word(|samples|)
      && (forall b :: 0 <= b < BINS ==> hist[b] == Word(CountBin(samples, b)))
      && (forall i :: 0 <= i < |samples| ==> dispatchMin <= samples[i] <= dispatchMax)
      && (if samples == [] then dispatchMin == WORD - 1 && dispatchMax == 0
          else dispatchMin in samples && dispatchMax in samples)
      && dispatchSum == Sum(samples) % DWORD
    }

    ghost predicate MissesOk(rs: seq<Record>)
      reads `missed, `lateFinish, `ageMax, `missedMax
    {
      && missed == Word(Sum(Values(rs, Miss))) && lateFinish == Word(Lates(rs))
      && IsMax(ageMax, Values(rs, Age)) && IsMax(missedMax, Values(rs, Miss))
    }

    ghost predicate LocksOk(rs: seq<Record>)
      reads `lockedMax, `lockedOwner, `unlockedMax
    {
      && IsMax(lockedMax, Values(rs, LockedDispatch)) && OwnerOfMax(rs, lockedMax, lockedOwner)
      && IsMax(unlockedMax, Values(rs, UnlockedDispatch))
    }

    ghost predicate WorkOk(rs: seq<Record>)
      reads `workMin, `workMax
    {
      IsMin(workMin, Values(rs, Work)) && IsMax(workMax, Values(rs, Work))
    }

    ghost predicate Valid()
      reads this, hist
    {
      && DispatchOk() && MissesOk(records) && LocksOk(records) && WorkOk(records)
      && |samples| == |records| && forall i :: 0 <= i < |records| ==> samples[i] == records[i].dispatch
    }

    constructor ()
      ensures Valid() && samples == [] && records == [] && fresh(hist)
    {
      executions, dispatchMin, dispatchMax, dispatchSum := 0, WORD - 1, 0, 0;
      missed, lateFinish, ageMax, missedMax := 0, 0, 0, 0;
      lockedMax, lockedOwner, unlockedMax, workMin, workMax := 0, 0, 0, WORD - 1, 0;
      hist := new nat[BINS](_ => 0);
      samples, records := [], [];
    }

    /** `metrics_add`, its counters 32 bits and its sum 64 bits wide. */
    method Add(r: Record)
      requires Valid() && r.Fits()
      modifies this, hist
      ensures Valid() && hist == old(hist)
      ensures records == old(records) + [r] && samples == old(samples) + [r.dispatch]
      ensures missed == Word(old(missed) + r.missed) && lateFinish == Word(old(lateFinish) + if r.late then 1 else 0)
    {
      hide DispatchOk, MissesOk, LocksOk, WorkOk;
      AddDispatch(r.dispatch);
      AddMisses(r, records);
      AddLocks(r, records);
      AddWork(r, records);
      records := records + [r];
    }

    /** The kept extremes, field by field: none is exceeded, and each was reached. */
    lemma Extremes(r: Record)
      requires Valid() && r in records
      ensures r.age <= ageMax && r.missed <= missedMax && workMin <= r.work <= workMax
      ensures dispatchMin <= r.dispatch <= dispatchMax
      ensures if r.locked then r.dispatch <= lockedMax else r.dispatch <= unlockedMax
      ensures ageMax == 0 || exists x :: x in records && x.age == ageMax
      ensures missedMax == 0 || exists x :: x in records && x.missed == missedMax
      ensures workMax == 0 || exists x :: x in records && x.work == workMax
      ensures workMin == WORD - 1 || exists x :: x in records && x.work == workMin
      ensures lockedMax == 0 ||
        exists x :: x in records && x.locked && x.dispatch == lockedMax && x.owner == lockedOwner
      ensures unlockedMax == 0 || exists x :: x in records && !x.locked && x.dispatch == unlockedMax
    {
      hide Values, Sum, CountBin, Lates, IsMax, IsMin;
      var i :| 0 <= i < |records| && records[i] == r;
      assert samples[i] == r.dispatch;
      MaxMeans(ageMax, records, Age, r);
      MaxMeans(missedMax, records, Miss, r);
      MaxMeans(workMax, records, Work, r);
      MinMeans(workMin, records, Work, r);
      MaxMeans(lockedMax, records, LockedDispatch, r);
      MaxMeans(unlockedMax, records, UnlockedDispatch, r);
    }

    /** Count, extremes, sum and histogram of the dispatch latency. */
    method AddDispatch(ticks: nat)
      requires DispatchOk() && ticks < WORD
      modifies `executions, `dispatchMin, `dispatchMax, `dispatchSum, `samples, hist
      ensures DispatchOk() && samples == old(samples) + [ticks]
    {
      hide InBin, Edge, Word, CountBin, Sum;
      ghost var was := samples;
      WordSum(|was|, 1);
      executions := Word(executions + 1);
      if ticks < dispatchMin { dispatchMin := ticks; }
      if ticks > dispatchMax { dispatchMax := ticks; }
      SumStep(was, ticks);
      dispatchSum := (dispatchSum + ticks) % DWORD;
      var bin := HistogramBin(ticks);
      forall b | 0 <= b < BINS
        ensures Word(CountBin(was + [ticks], b))
                == if b == bin then Word(Word(CountBin(was, b)) + 1) else Word(CountBin(was, b))
      {
        BinStep(was, ticks, bin, b);
      }
      hist[bin] := Word(hist[bin] + 1);
      samples := samples + [ticks];
    }

    method AddMisses(r: Record, ghost rs: seq<Record>)
      requires MissesOk(rs)
      modifies `missed, `lateFinish, `ageMax, `missedMax
      ensures MissesOk(rs + [r])
      ensures missed == Word(old(missed) + r.missed) && lateFinish == Word(old(lateFinish) + if r.late then 1 else 0)
    {
      hide Values, Lates, Sum, Word, IsMax;
      WordSum(Lates(rs), 0);
      MissesStep(rs, r);
      ValuesStep(rs, r, Miss);
      WordSum(Lates(rs), 1);
      MaxStep(ageMax, rs, r, Age);
      MaxStep(missedMax, rs, r, Miss);
      missed := Word(missed + r.missed);
      if r.late { lateFinish := Word(lateFinish + 1); }
      if r.age > ageMax { ageMax := r.age; }
      if r.missed > missedMax { missedMax := r.missed; }
    }

    method AddLocks(r: Record, ghost rs: seq<Record>)
      requires LocksOk(rs)
      modifies `lockedMax, `lockedOwner, `unlockedMax
      ensures LocksOk(rs + [r])
    {
      hide Values, IsMax, OwnerOfMax;
      MaxStep(lockedMax, rs, r, LockedDispatch);
      MaxStep(unlockedMax, rs, r, UnlockedDispatch);
      OwnerStep(rs, r, lockedMax, lockedOwner);
      if r.locked && r.dispatch > lockedMax { lockedMax, lockedOwner := r.dispatch, r.owner; }
      if !r.locked && r.dispatch > unlockedMax { unlockedMax := r.dispatch; }
    }

    method AddWork(r: Record, ghost rs: seq<Record>)
      requires WorkOk(rs)
      modifies `workMin, `workMax
      ensures WorkOk(rs + [r])
    {
      hide Values, IsMax, IsMin;
      MinStep(workMin, rs, r, Work);
      MaxStep(workMax, rs, r, Work);
      if r.work < workMin { workMin := r.work; }
      if r.work > workMax { workMax := r.work; }
    }

    /**
     * `percentile_upper_us`: the smallest table bound such that the bins up to it
     * hold at least the asked share of the samples, or the last bound of the table,
     * for as long as the 32-bit counters have not wrapped.
     */
    method Percentile(perMille: nat) returns (bound: nat, ghost bin: nat)
      requires Valid()
      ensures bin < BINS && bound == UPPER_US[bin]
      ensures |samples| < WORD ==>
        && (bin == BINS - 1 || 1000 * Cumulative(samples, bin + 1) >= |samples| * perMille)
        && forall n :: 0 < n <= bin ==> 1000 * Cumulative(samples, n) < |samples| * perMille
    {
      ghost var small := |samples| < WORD;
      if small { CountsExact(samples); }
      var target := (executions * perMille + 999) / 1000;
      var cumulative := 0;
      for i := 0 to BINS
        invariant small ==> cumulative == Cumulative(samples, i)
        invariant small ==> forall n :: 0 < n <= i ==> 1000 * Cumulative(samples, n) < |samples| * perMille
      {
        cumulative := cumulative + hist[i];
        if cumulative >= target { return UPPER_US[i], i; }
      }
      bound, bin := UPPER_US[BINS - 1], BINS - 1;
    }
  }

  lemma SumStep(samples: seq<nat>, x: nat)
    ensures Sum(samples + [x]) % DWORD == (Sum(samples) % DWORD + x) % DWORD
  {
    assert (samples + [x])[..|samples|] == samples;
    ModShift(Sum(samples) % DWORD + x, DWORD, Sum(samples) / DWORD);
  }

  /** One more sample is counted in its own bin and in no other. */
  lemma BinStep(samples: seq<nat>, x: nat, bin: nat, b: nat)
    requires bin < BINS && b < BINS && InBin(x, bin)
    ensures Word(CountBin(samples + [x], b))
            == if b == bin then Word(Word(CountBin(samples, b)) + 1) else Word(CountBin(samples, b))
  {
    hide InBin, Word;
    assert (samples + [x])[..|samples|] == samples;
    WordSum(CountBin(samples, b), 1);
    if b != bin { OneBin(x, bin, b); }
  }

  lemma OwnerStep(rs: seq<Record>, r: Record, max: nat, owner: nat)
    requires OwnerOfMax(rs, max, owner)
    ensures if r.locked && r.dispatch > max then OwnerOfMax(rs + [r], r.dispatch, r.owner)
            else OwnerOfMax(rs + [r], max, owner)
  {
    assert r in rs + [r];
  }

  lemma {:induction false} CountAtMost(samples: seq<nat>, b: nat)
    requires b < BINS
    ensures CountBin(samples, b) <= |samples|
  {
    if samples == [] {
    } else {
      CountAtMost(samples[..|samples| - 1], b);
    }
  }

  /** Fewer samples than a word can count are counted exactly. */
  lemma CountsExact(samples: seq<nat>)
    requires |samples| < WORD
    ensures Word(|samples|) == |samples|
    ensures forall b :: 0 <= b < BINS ==> Word(CountBin(samples, b)) == CountBin(samples, b)
  {
    NearMod(|samples|, WORD);
    forall b | 0 <= b < BINS ensures Word(CountBin(samples, b)) == CountBin(samples, b) {
      CountAtMost(samples, b);
      NearMod(CountBin(samples, b), WORD);
    }
  }

  lemma ShareAtMostAll(n: nat, perMille: nat)
    requires perMille <= 1000
    ensures 1000 * n >= n * perMille
  {
    assert n * (1000 - perMille) >= 0;
  }

  function Sum(s: seq<nat>): nat
  {
    if s == [] then 0 else Sum(s[..|s| - 1]) + s[|s| - 1]
  }

  /**
   * What the reported bound means for the samples themselves, whatever they are if
   * it is not the last of the table, and if it is, as long as none exceeds one
   * period, because the last bin also takes everything above: at least the asked share of them is at most the
   * bound, and at the next smaller bound of the table that is not yet so.
   */
  lemma PercentileMeans(samples: seq<nat>, perMille: nat, bin: nat)
    requires bin < BINS
    requires bin == BINS - 1 ==> forall i :: 0 <= i < |samples| ==> samples[i] <= PERIOD_US * TICKS_PER_US
    requires perMille <= 1000 && (bin == BINS - 1 || 1000 * Cumulative(samples, bin + 1) >= |samples| * perMille)
    requires forall n :: 0 < n <= bin ==> 1000 * Cumulative(samples, n) < |samples| * perMille
    ensures 1000 * CountUpTo(samples, UPPER_US[bin] * TICKS_PER_US) >= |samples| * perMille
    ensures bin > 0 ==> 1000 * CountUpTo(samples, UPPER_US[bin - 1] * TICKS_PER_US) < |samples| * perMille
  {
    CumulativeCounts(samples, bin + 1);
    if bin == BINS - 1 {
      AllWithin(samples, UPPER_US[bin] * TICKS_PER_US);
      ShareAtMostAll(|samples|, perMille);
    }
    if bin > 0 { CumulativeCounts(samples, bin); }
  }
}
