/**
 * Release accounting of backends/common/lxp_ove_rt_scope.c as a step system: the
 * timer interrupt counts releases and publishes them under one sequence counter,
 * the response thread records executions under another, and a reader takes a
 * snapshot across both. Every load and store is one step and the three interleave
 * freely. Counters are kept as the natural numbers they stand for; the C variables
 * hold them modulo 2^32, and every comparison is made on those words.
 */
module RtScope {
  import opened Arith
  import opened Common

  predicate Odd(x: nat) { x % 2 == 1 }

  /** A release count with the lock attribution sampled by the same interrupt. */
  datatype Release = Release(count: nat, locked: nat)

  /** Inside `timer_update`, between the two increments of the release generation. */
  datatype Isr = Out | Entered(periods: nat, locked: nat) | Stamped(periods: nat) | Counted

  /** Inside `response_thread`. */
  datatype Response =
    | Waiting
    | SawGen(gen: nat)
    | SawCount(gen: nat, deadline: nat)
    | SawLock(gen: nat, deadline: nat, locked: nat)
    | Sampled(deadline: nat, locked: nat)
    | Working(deadline: nat, missed: nat)
    | Responded(deadline: nat, missed: nat)
    | Recording(deadline: nat, missed: nat, stage: nat)  // how many stores of the record are done

  /** What the reader has loaded so far in one attempt at a snapshot. */
  datatype Loaded = Loaded(gen: nat, executions: nat, missed: nat, last: nat, samples: nat, sampleMissed: nat)

  /** Inside `totals_snapshot`. */
  datatype Reader =
    | Away
    | Looping
    | Loading(v: Loaded, stage: nat)                       // how many fields are loaded
    | SawRelease(v: Loaded, relGen: nat)
    | SawReleases(v: Loaded, relGen: nat, releases: nat)
    | Rechecking(v: Loaded, releases: nat)
    | Accepted(v: Loaded, releases: nat)

  datatype State = State(
    // published by the interrupt
    relGen: nat, releases: nat, locked: nat,
    // published by the response thread
    totGen: nat, executions: nat, missed: nat, last: nat, samples: nat, sampleMissed: nat,
    responses: nat,
    isr: Isr, response: Response, reader: Reader,
    published: seq<Release>)  // every release the interrupt finished publishing

  function Init(): State
  {
    State(0, 0, 0, 0, 0, 0, 0, 0, 0, 0, Out, Waiting, Away, [Release(0, 0)])
  }

  datatype Step =
    | IsrEnter(periods: nat, locked: nat) | IsrStamp | IsrCount | IsrLeave
    | RespGen | RespCount | RespLock | RespRecheck | RespTest | RespDone | RespRecordBegin | RespRecord | RespRecordEnd
    | ReadStart | ReadGen | ReadField | ReadRelGen | ReadReleases | ReadRelRecheck | ReadRecheck | ReadFinish

  /**
   * When the code may take a step. Two bounds are stated where they matter: fewer
   * than 2^32 generation increments happen while one attempt at a consistent read
   * is under way, and fewer than 2^32 releases happen between two executions.
   */
  predicate Enabled(s: State, step: Step)
  {
    match step
    case IsrEnter(periods, _) => s.isr.Out? && periods >= 1
    case IsrStamp => s.isr.Entered?
    case IsrCount => s.isr.Stamped?
    case IsrLeave => s.isr.Counted?
    case RespGen => s.response.Waiting?
    case RespCount => s.response.SawGen?
    case RespLock => s.response.SawCount?
    case RespRecheck => s.response.SawLock? && s.relGen - s.response.gen < WORD
    case RespTest => s.response.Sampled? && s.response.deadline - s.last < WORD
    case RespDone => s.response.Working?
    case RespRecordBegin => s.response.Responded?
    case RespRecord => s.response.Recording? && s.response.stage < 5
    case RespRecordEnd => s.response.Recording? && s.response.stage == 5
    case ReadStart => s.reader.Away?
    case ReadGen => s.reader.Looping?
    case ReadField => s.reader.Loading? && s.reader.stage < 5
    case ReadRelGen => s.reader.Loading? && s.reader.stage == 5
    case ReadReleases => s.reader.SawRelease?
    case ReadRelRecheck => s.reader.SawReleases? && s.relGen - s.reader.relGen < WORD
    case ReadRecheck => s.reader.Rechecking? && s.totGen - s.reader.v.gen < WORD
    case ReadFinish => s.reader.Accepted?
  }

  // ------------------------------------------------------------ the interrupt

  function DoIsr(s: State, step: Step): State
    requires Enabled(s, step)
  {
    match step
    case IsrEnter(periods, locked) => s.(relGen := s.relGen + 1, isr := Entered(periods, locked))
    case IsrStamp => s.(locked := s.isr.locked, isr := Stamped(s.isr.periods))
    case IsrCount => s.(releases := s.releases + s.isr.periods, isr := Counted)
    case IsrLeave =>
      s.(relGen := s.relGen + 1, isr := Out, published := s.published + [Release(s.releases, s.locked)])
    case _ => s
  }

  // -------------------------------------------------------- the response thread

  /** The stores of one record, in program order. */
  function Recorded(s: State, stage: nat, deadline: nat, missed: nat): State
  {
    match stage
    case 0 => s.(samples := s.samples + 1)
    case 1 => s.(sampleMissed := s.sampleMissed + missed)
    case 2 => s.(executions := s.executions + 1)
    case 3 => s.(missed := s.missed + missed)
    case _ => s.(last := deadline)
  }

  function DoResponse(s: State, step: Step): State
    requires Enabled(s, step)
  {
    match step
    case RespGen => if Odd(Word(s.relGen)) then s else s.(response := SawGen(s.relGen))
    case RespCount => s.(response := SawCount(s.response.gen, s.releases))
    case RespLock => s.(response := SawLock(s.response.gen, s.response.deadline, s.locked))
    case RespRecheck =>
      var r := s.response;
      if Word(r.gen) == Word(s.relGen) && !Odd(Word(s.relGen)) then s.(response := Sampled(r.deadline, r.locked))
      else s.(response := Waiting)
    case RespTest =>
      var d := s.response.deadline;
      if Word(d) == Word(s.responses) then s.(response := Waiting)
      else s.(response := Working(d, (Sub32(d, s.last) - 1) % WORD))
    case RespDone =>
      s.(responses := s.response.deadline, response := Responded(s.response.deadline, s.response.missed))
    case RespRecordBegin =>
      s.(totGen := s.totGen + 1, response := Recording(s.response.deadline, s.response.missed, 0))
    case RespRecord =>
      var r := s.response;
      Recorded(s, r.stage, r.deadline, r.missed).(response := Recording(r.deadline, r.missed, r.stage + 1))
    case RespRecordEnd => s.(totGen := s.totGen + 1, response := Waiting)
    case _ => s
  }

  // ------------------------------------------------------------------ the reader

  function LoadField(s: State, v: Loaded, stage: nat): Loaded
  {
    match stage
    case 0 => v.(executions := s.executions)
    case 1 => v.(missed := s.missed)
    case 2 => v.(last := s.last)
    case 3 => v.(samples := s.samples)
    case _ => v.(sampleMissed := s.sampleMissed)
  }

  /** A retry jumps to the loop condition, which an odd generation always fails. */
  function DoReader(s: State, step: Step): State
    requires Enabled(s, step)
  {
    match step
    case ReadStart => s.(reader := Looping)
    case ReadGen =>
      if Odd(Word(s.totGen)) then s
      else s.(reader := Loading(Loaded(s.totGen, 0, 0, 0, 0, 0), 0))
    case ReadField => s.(reader := Loading(LoadField(s, s.reader.v, s.reader.stage), s.reader.stage + 1))
    case ReadRelGen => if Odd(Word(s.relGen)) then s else s.(reader := SawRelease(s.reader.v, s.relGen))
    case ReadReleases => s.(reader := SawReleases(s.reader.v, s.reader.relGen, s.releases))
    case ReadRelRecheck =>
      if Word(s.reader.relGen) == Word(s.relGen) && !Odd(Word(s.relGen)) then
        s.(reader := Rechecking(s.reader.v, s.reader.releases))
      else
        s.(reader := Loading(s.reader.v, 5))
    case ReadRecheck =>
      if Word(s.reader.v.gen) == Word(s.totGen) && !Odd(Word(s.totGen)) then
        s.(reader := Accepted(s.reader.v, s.reader.releases))
      else
        s.(reader := Looping)
    case ReadFinish => s.(reader := Away)
    case _ => s
  }

  function Do(s: State, step: Step): State
    requires Enabled(s, step)
  {
    match step
    case IsrEnter(_, _) => DoIsr(s, step)
    case IsrStamp => DoIsr(s, step)
    case IsrCount => DoIsr(s, step)
    case IsrLeave => DoIsr(s, step)
    case RespGen => DoResponse(s, step)
    case RespCount => DoResponse(s, step)
    case RespLock => DoResponse(s, step)
    case RespRecheck => DoResponse(s, step)
    case RespTest => DoResponse(s, step)
    case RespDone => DoResponse(s, step)
    case RespRecordBegin => DoResponse(s, step)
    case RespRecord => DoResponse(s, step)
    case RespRecordEnd => DoResponse(s, step)
    case _ => DoReader(s, step)
  }

  // --------------------------------------------------------------- what C reports

  /** `struct rt_scope_totals`, the counting part. */
  datatype Totals = Totals(releases: nat, executions: nat, missed: nat, pending: nat)

  /** The folding of the backlog on lines 509-514, on 32-bit words. */
  function Fold(v: Loaded, releases: nat): Totals
  {
    var pending := Sub32(releases, v.last);
    var backlog := if pending > 0 then pending - 1 else 0;
    var missed := if WORD - 1 - Word(v.missed) < backlog then WORD - 1 else Word(v.missed) + backlog;
    Totals(Word(releases), Word(v.executions), missed, pending)
  }

  // ------------------------------------------------------------------- invariant

  /** How far the two counts of the record in progress are ahead, stage by stage. */
  ghost predicate TotalsOk(s: State)
  {
    match s.response
    case Recording(d, m, k) =>
      && Odd(s.totGen) && k <= 5
      && s.samples + (if k > 0 then 0 else 1) == s.executions + (if k > 2 then 0 else 1)
      && s.sampleMissed + (if k > 1 then 0 else m) == s.missed + (if k > 3 then 0 else m)
      && s.executions + (if k > 2 then 0 else 1) + s.missed + (if k > 3 then 0 else m) == d
      && (if k > 4 then s.last == d else s.last + 1 + m == d)
      && s.responses == d
    case _ =>
      && !Odd(s.totGen)
      && s.samples == s.executions && s.sampleMissed == s.missed
      && s.executions + s.missed == s.last
  }

  ghost predicate ResponseOk(s: State)
  {
    && s.last <= s.releases
    && match s.response
       case Waiting => s.responses == s.last
       case SawGen(g) => s.responses == s.last && g <= s.relGen && !Odd(g)
       case SawCount(g, d) =>
         s.responses == s.last && g <= s.relGen && !Odd(g) && s.last <= d <= s.releases &&
           (g == s.relGen ==> d == s.releases)
       case SawLock(g, d, l) =>
         s.responses == s.last && g <= s.relGen && !Odd(g) && s.last <= d <= s.releases &&
         (g == s.relGen ==> d == s.releases && l == s.locked)
       case Sampled(d, l) => s.responses == s.last && s.last <= d <= s.releases && Release(d, l) in s.published
       case Working(d, m) => s.responses == s.last && d == s.last + 1 + m && d <= s.releases
       case Responded(d, m) => s.responses == d && d == s.last + 1 + m && d <= s.releases
       case Recording(d, m, _) => d <= s.releases
  }

  ghost predicate IsrOk(s: State)
  {
    && (s.isr.Out? <==> !Odd(s.relGen))
    && (s.isr.Entered? ==> s.isr.periods >= 1)
    && (s.isr.Stamped? ==> s.isr.periods >= 1)
    && |s.published| > 0
    && (s.isr.Out? ==> s.published[|s.published| - 1] == Release(s.releases, s.locked))
  }

  /** What has been loaded is current for as long as the generation has not moved. */
  ghost predicate LoadedOk(s: State, v: Loaded, stage: nat)
  {
    && v.gen <= s.totGen && !Odd(v.gen)
    && (stage > 2 ==> v.last <= s.releases)
    && (v.gen == s.totGen ==>
          && (stage > 0 ==> v.executions == s.executions)
          && (stage > 1 ==> v.missed == s.missed)
          && (stage > 2 ==> v.last == s.last)
          && (stage > 3 ==> v.samples == s.samples)
          && (stage > 4 ==> v.sampleMissed == s.sampleMissed))
  }

  ghost predicate ReaderOk(s: State)
  {
    match s.reader
    case Away => true
    case Looping => true
    case Loading(v, k) => k <= 5 && LoadedOk(s, v, k)
    case SawRelease(v, g) => LoadedOk(s, v, 5) && g <= s.relGen
    case SawReleases(v, g, r) => LoadedOk(s, v, 5) && v.last <= r && g <= s.relGen
    case Rechecking(v, r) => LoadedOk(s, v, 5) && v.last <= r
    case Accepted(v, r) =>
      v.executions + v.missed == v.last <= r && v.samples == v.executions && v.sampleMissed == v.missed
  }

  ghost predicate Inv(s: State)
  {
    TotalsOk(s) && ResponseOk(s) && IsrOk(s) && ReaderOk(s)
  }

  // ------------------------------------------------------------------ step lemmas

  lemma WordFacts(a: nat, b: nat)
    requires a <= b && b - a < WORD
    ensures Word(a) == Word(b) <==> a == b
    ensures Sub32(b, a) == b - a
    ensures Odd(Word(a)) <==> Odd(a)
  {
    if Word(a) == Word(b) { ModInjective(a, b, WORD); }
    var d := b - a;
    NearMod(Word(a) + d, WORD);
    WordAdd(a, d);
    NearMod(Word(b) - Word(a), WORD);
    OddWord(a);
  }

  lemma WordAdd(a: nat, d: nat)
    ensures Word(a + d) == (Word(a) + d) % WORD
  {
    ModShift(Word(a) + d, WORD, a / WORD);
  }

  lemma OddWord(a: nat)
    ensures Odd(Word(a)) <==> Odd(a)
  {
    ModOfMod(a, 2, WORD / 2);
  }

  lemma IsrKeeps(s: State, step: Step)
    requires Inv(s) && Enabled(s, step) && (step.IsrEnter? || step.IsrStamp? || step.IsrCount? || step.IsrLeave?)
    ensures Inv(Do(s, step))
  {
    hide Word, Sub32;
  }

  lemma SampleKeeps(s: State, step: Step)
    requires Inv(s) && Enabled(s, step) && (step.RespGen? || step.RespCount? || step.RespLock? || step.RespRecheck?)
    ensures Inv(Do(s, step))
  {
    hide Word, Sub32, Odd;
    match step
    case RespGen => OddWord(s.relGen);
    case RespRecheck =>
      WordFacts(s.response.gen, s.relGen);
      OddWord(s.relGen);
    case _ =>
  }

  lemma TestKeeps(s: State)
    requires Inv(s) && Enabled(s, RespTest)
    ensures Inv(Do(s, RespTest))
  {
    hide Word, Sub32, Odd;
    var d := s.response.deadline;
    WordFacts(s.last, d);
    if d > s.last { NearMod(d - s.last - 1, WORD); }
  }

  lemma RecordKeeps(s: State, step: Step)
    requires Inv(s) && Enabled(s, step) &&
      (step.RespDone? || step.RespRecordBegin? || step.RespRecord? || step.RespRecordEnd?)
    ensures Inv(Do(s, step))
  {
    hide Word, Sub32;
  }

  /** Loading one more field. */
  lemma FieldKeeps(s: State)
    requires Inv(s) && Enabled(s, ReadField)
    ensures Inv(Do(s, ReadField))
  {
    hide Word, Sub32, Odd, TotalsOk, IsrOk;
    var s' := Do(s, ReadField);
    assert TotalsOk(s') && IsrOk(s') by { ReaderOnly(s, s'); }
  }

  /** The reader changes nothing that the others rely on. */
  lemma ReaderOnly(s: State, s': State)
    requires Inv(s) && s' == s.(reader := s'.reader)
    ensures TotalsOk(s') && ResponseOk(s') && IsrOk(s')
  {
    hide Word, Sub32, Odd;
  }

  lemma ReadKeeps(s: State, step: Step)
    requires Inv(s) && Enabled(s, step)
    requires step.ReadStart? || step.ReadGen? || step.ReadField? || step.ReadRelGen? || step.ReadReleases? ||
      step.ReadRelRecheck? || step.ReadRecheck? || step.ReadFinish?
    ensures Inv(Do(s, step))
  {
    hide Word, Sub32, Odd, IsrOk;
    ReaderOnly(s, Do(s, step));
    match step
    case ReadField => FieldKeeps(s);
    case ReadGen => OddWord(s.totGen);
    case ReadRecheck =>
      WordFacts(s.reader.v.gen, s.totGen);
      OddWord(s.totGen);
    case _ =>
  }

  lemma StepKeeps(s: State, step: Step)
    requires Inv(s) && Enabled(s, step)
    ensures Inv(Do(s, step))
  {
    hide Inv, Do, Enabled;
    match step
    case IsrEnter(_, _) => IsrKeeps(s, step);
    case IsrStamp => IsrKeeps(s, step);
    case IsrCount => IsrKeeps(s, step);
    case IsrLeave => IsrKeeps(s, step);
    case RespGen => SampleKeeps(s, step);
    case RespCount => SampleKeeps(s, step);
    case RespLock => SampleKeeps(s, step);
    case RespRecheck => SampleKeeps(s, step);
    case RespTest => TestKeeps(s);
    case RespDone => RecordKeeps(s, step);
    case RespRecordBegin => RecordKeeps(s, step);
    case RespRecord => RecordKeeps(s, step);
    case RespRecordEnd => RecordKeeps(s, step);
    case _ => ReadKeeps(s, step);
  }

  // -------------------------------------------------------------------- whole runs

  predicate ValidRun(s: State, steps: seq<Step>)
    decreases |steps|
  {
    steps == [] || (Enabled(s, steps[0]) && ValidRun(Do(s, steps[0]), steps[1..]))
  }

  function Exec(s: State, steps: seq<Step>): State
    requires ValidRun(s, steps)
    decreases |steps|
  {
    if steps == [] then s else Exec(Do(s, steps[0]), steps[1..])
  }

  lemma {:induction false} RunKeeps(s: State, steps: seq<Step>)
    requires Inv(s) && ValidRun(s, steps)
    ensures Inv(Exec(s, steps))
    decreases |steps|
  {
    hide Inv, Do, Enabled;
    if steps == [] {
    } else {
      StepKeeps(s, steps[0]);
      RunKeeps(Do(s, steps[0]), steps[1..]);
    }
  }

  /** The reported misses are those recorded plus all pending releases but the newest, or the largest word. */
  lemma FoldSaturates(v: Loaded, releases: nat)
    ensures
      var t := Fold(v, releases);
      var all := v.missed % WORD + if t.pending > 0 then t.pending - 1 else 0;
      && t.missed == (if all < WORD then all else WORD - 1) && t.pending == (releases - v.last) % WORD
  {
  }

  /** The fold on a consistent set of loads. */
  lemma FoldBalances(v: Loaded, releases: nat)
    requires v.executions + v.missed == v.last <= releases < WORD
    ensures
      var t := Fold(v, releases);
      && t.releases == releases && t.executions == v.executions
      && t.pending == releases - v.last
      && t.releases == t.executions + t.missed + (if t.pending > 0 then 1 else 0)
  {
    hide Sub32;
    WordFacts(v.last, releases);
    NearMod(releases, WORD);
    NearMod(v.missed, WORD);
    NearMod(v.executions, WORD);
  }

  /**
   * Every interleaving: an accepted snapshot balances. Releases are executions
   * plus reported misses plus one if anything is pending, the pending subtraction
   * does not wrap, and the copied sample counts belong to the same instant.
   */
  lemma SnapshotBalances(steps: seq<Step>)
    requires ValidRun(Init(), steps)
    requires Exec(Init(), steps).reader.Accepted? && Exec(Init(), steps).reader.releases < WORD
    ensures
      var r := Exec(Init(), steps).reader;
      var t := Fold(r.v, r.releases);
      && r.v.last <= r.releases && t.pending == r.releases - r.v.last
      && t.releases == t.executions + t.missed + (if t.pending > 0 then 1 else 0)
      && t.executions == Word(r.v.samples) && r.v.sampleMissed == r.v.missed
  {
    hide Exec, ValidRun, Fold;
    InitOk();
    RunKeeps(Init(), steps);
    var r := Exec(Init(), steps).reader;
    FoldBalances(r.v, r.releases);
    NearMod(r.v.samples, WORD);
  }

  lemma InitOk()
    ensures Inv(Init())
  {
  }

  /**
   * Every interleaving: the response thread never combines a release count with
   * the attribution of another release, and the misses it computes never wrap.
   */
  lemma SampleIsOneRelease(steps: seq<Step>)
    requires ValidRun(Init(), steps)
    ensures
      var s := Exec(Init(), steps);
      && (s.response.Sampled? ==> Release(s.response.deadline, s.response.locked) in s.published)
      && (s.response.Working? ==> s.response.deadline == s.last + 1 + s.response.missed)
  {
    hide Exec, ValidRun;
    InitOk();
    RunKeeps(Init(), steps);
  }

  // -------------------------------------------------- a snapshot is of one instant

  /** A run is its first steps and then its last one. */
  lemma {:induction false} RunSplits(s: State, steps: seq<Step>)
    requires steps != [] && ValidRun(s, steps)
    ensures
      var n := |steps| - 1;
      && ValidRun(s, steps[..n]) && Enabled(Exec(s, steps[..n]), steps[n])
      && Exec(s, steps) == Do(Exec(s, steps[..n]), steps[n])
    decreases |steps|
  {
    hide Do, Enabled;
    var n := |steps| - 1;
    if n == 0 {
      assert steps[..0] == [] && steps[1..] == [];
    } else {
      RunSplits(Do(s, steps[0]), steps[1..]);
      assert steps[1..][..n - 1] == steps[..n][1..] && steps[1..][n - 1] == steps[n];
    }
  }

  /** The totals of a state are the ones loaded. */
  predicate Shows(s: State, v: Loaded)
  {
    && s.executions == v.executions && s.missed == v.missed && s.last == v.last
    && s.samples == v.samples && s.sampleMissed == v.sampleMissed
  }

  /** The reader holds a release count together with loaded totals. */
  predicate HasReleases(r: Reader) { r.SawReleases? || r.Rechecking? || r.Accepted? }

  /**
   * State p is one in which the count and, if the generation stands, the totals were as
   * the reader has them; once the count has been rechecked, one without an interrupt.
   */
  ghost predicate SeenIn(p: State, s: State)
    requires HasReleases(s.reader)
  {
    var v := s.reader.v;
    && p.releases == s.reader.releases && v.gen <= p.totGen <= s.totGen
    && (v.gen == p.totGen ==> Shows(p, v)) && (s.reader.Accepted? ==> Shows(p, v) && !Odd(p.totGen))
    && (if s.reader.SawReleases? then s.reader.relGen <= p.relGen <= s.relGen else !Odd(p.relGen))
  }

  lemma SeenNext(p: State, s: State, step: Step)
    requires Inv(s) && Enabled(s, step) && HasReleases(s.reader) && HasReleases(Do(s, step).reader) && SeenIn(p, s)
    ensures SeenIn(p, Do(s, step))
  {
    hide Word, Sub32, Odd;
    if step == ReadRecheck {
      WordFacts(s.reader.v.gen, s.totGen);
      OddWord(s.totGen);
    }
    if step == ReadRelRecheck {
      WordFacts(s.reader.relGen, s.relGen);
      OddWord(s.relGen);
    }
  }

  lemma SeenFirst(s: State, step: Step)
    requires Inv(s) && Enabled(s, step) && !HasReleases(s.reader) && HasReleases(Do(s, step).reader)
    ensures SeenIn(s, Do(s, step))
  {
    hide Word, Sub32, Odd;
  }

  lemma {:induction false} SeenSomewhere(steps: seq<Step>) returns (k: nat)
    requires ValidRun(Init(), steps) && HasReleases(Exec(Init(), steps).reader)
    ensures k <= |steps| && ValidRun(Init(), steps[..k]) && SeenIn(Exec(Init(), steps[..k]), Exec(Init(), steps))
    decreases |steps|
  {
    hide Inv, SeenIn, Do, Enabled;
    if steps == [] {
      assert false;
    } else {
      var n := |steps| - 1;
      RunSplits(Init(), steps);
      var s := Exec(Init(), steps[..n]);
      InitOk();
      RunKeeps(Init(), steps[..n]);
      if HasReleases(s.reader) {
        k := SeenSomewhere(steps[..n]);
        SeenNext(Exec(Init(), steps[..n][..k]), s, steps[n]);
        assert steps[..n][..k] == steps[..k];
      } else {
        SeenFirst(s, steps[n]);
        k := n;
      }
    }
  }

  /**
   * Every interleaving: an accepted snapshot is of one instant. Some prefix of the
   * run ends in a state, between two records and between two interrupts, whose release
   * count and totals are all the ones the reader has.
   */
  lemma SnapshotIsOneInstant(steps: seq<Step>) returns (k: nat)
    requires ValidRun(Init(), steps) && Exec(Init(), steps).reader.Accepted?
    ensures k <= |steps| && ValidRun(Init(), steps[..k])
    ensures
      var p, r := Exec(Init(), steps[..k]), Exec(Init(), steps).reader;
      p.releases == r.releases && Shows(p, r.v) && !p.response.Recording? && p.isr.Out?
  {
    hide Exec, ValidRun, Do, Enabled, Shows, Inv, Odd, SeenIn;
    k := SeenSomewhere(steps);
    var p := Exec(Init(), steps[..k]);
    SeenAccepted(p, Exec(Init(), steps));
    InitOk();
    RunKeeps(Init(), steps[..k]);
    BetweenRecords(p);
  }

  lemma SeenAccepted(p: State, s: State)
    requires s.reader.Accepted? && SeenIn(p, s)
    ensures p.releases == s.reader.releases && Shows(p, s.reader.v) && !Odd(p.totGen) && !Odd(p.relGen)
  {
  }

  lemma BetweenRecords(p: State)
    requires Inv(p) && !Odd(p.totGen) && !Odd(p.relGen)
    ensures !p.response.Recording? && p.isr.Out?
  {
    hide ResponseOk, ReaderOk;
  }

  // ------------------------------------------------------ the releases that were served

  /** What the interrupts have been told: after each, the sum of all periods so far and its lock attribution. */
  function Told(steps: seq<Step>): (h: seq<Release>)
    ensures |h| > 0
  {
    if steps == [] then [Release(0, 0)]
    else
      var h := Told(steps[..|steps| - 1]);
      var last := steps[|steps| - 1];
      if last.IsrEnter? then h + [Release(h[|h| - 1].count + last.periods, last.locked)] else h
  }

  /** The periods of an interrupt that has begun and not yet counted them. */
  function Uncounted(i: Isr): nat
  {
    if i.Entered? || i.Stamped? then i.periods else 0
  }

  /** The shared words against what the interrupts have been told. */
  ghost predicate Follows(s: State, h: seq<Release>)
  {
    && |h| > 0 && s.releases + Uncounted(s.isr) == h[|h| - 1].count
    && s.published == (if s.isr.Out? then h else h[..|h| - 1])
    && (s.isr.Entered? ==> s.isr.locked == h[|h| - 1].locked)
    && (!s.isr.Entered? ==> s.locked == h[|h| - 1].locked)
  }

  lemma StepFollows(s: State, step: Step, h: seq<Release>)
    requires Enabled(s, step) && Follows(s, h)
    ensures
      Follows(Do(s, step),
              if step.IsrEnter? then h + [Release(h[|h| - 1].count + step.periods, step.locked)] else h)
  {
    hide Word, Sub32, Odd;
    if step == IsrLeave { assert h == h[..|h| - 1] + [h[|h| - 1]]; }
  }

  /**
   * Every interleaving: the release count is the sum of the periods of all interrupts
   * that have counted theirs, and what they have published is, one by one, that sum
   * with the lock attribution each was given.
   */
  lemma {:induction false} ReleasesAreServed(steps: seq<Step>)
    requires ValidRun(Init(), steps)
    ensures Follows(Exec(Init(), steps), Told(steps))
    decreases |steps|
  {
    hide Do, Enabled, Follows;
    if steps == [] {
      StartFollows();
    } else {
      var n := |steps| - 1;
      RunSplits(Init(), steps);
      ReleasesAreServed(steps[..n]);
      StepFollows(Exec(Init(), steps[..n]), steps[n], Told(steps[..n]));
    }
  }

  lemma StartFollows()
    ensures Follows(Init(), [Release(0, 0)])
  {
  }

  /** The sum of the periods of all interrupts begun. */
  function Periods(steps: seq<Step>): nat
  {
    if steps == [] then 0
    else Periods(steps[..|steps| - 1]) + if steps[|steps| - 1].IsrEnter? then steps[|steps| - 1].periods else 0
  }

  lemma {:induction false} ToldCounts(steps: seq<Step>)
    ensures Told(steps)[|Told(steps)| - 1].count == Periods(steps)
  {
    if steps == [] {
    } else {
      ToldCounts(steps[..|steps| - 1]);
    }
  }

  /**
   * Every interleaving: a snapshot's release count is the number of periods served by
   * the interrupts begun up to one instant of the run between two of them, and its
   * totals are those of that instant.
   */
  lemma SnapshotCountsServed(steps: seq<Step>) returns (k: nat)
    requires ValidRun(Init(), steps) && Exec(Init(), steps).reader.Accepted?
    ensures k <= |steps| && ValidRun(Init(), steps[..k])
    ensures
      var p, r := Exec(Init(), steps[..k]), Exec(Init(), steps).reader;
      && r.releases == Periods(steps[..k])
      && Shows(p, r.v) && !p.response.Recording? && p.isr.Out?
  {
    hide Exec, ValidRun, Do, Enabled, Shows;
    k := SnapshotIsOneInstant(steps);
    ReleasesAreServed(steps[..k]);
    ToldCounts(steps[..k]);
  }

  /** A sampled release is one the interrupts were told of, count and attribution together. */
  lemma SampleWasTold(steps: seq<Step>)
    requires ValidRun(Init(), steps) && Exec(Init(), steps).response.Sampled?
    ensures
      var r := Exec(Init(), steps).response;
      Release(r.deadline, r.locked) in Told(steps)
  {
    hide Exec, ValidRun, Do, Enabled;
    SampleIsOneRelease(steps);
    ReleasesAreServed(steps);
  }

  /** The response thread works on a sample if and only if it has releases not yet executed. */
  lemma WorksIffNew(s: State)
    requires Inv(s) && Enabled(s, RespTest)
    ensures
      var d, next := s.response.deadline, Do(s, RespTest).response;
      && (d > s.last ==> next == Working(d, d - s.last - 1))
      && (d == s.last ==> next == Waiting) && s.last <= d
  {
    hide Word, Sub32, Odd, TotalsOk, IsrOk, ReaderOk;
    var d := s.response.deadline;
    WordFacts(s.last, d);
    if d > s.last { NearMod(d - s.last - 1, WORD); }
  }

  // ------------------------------------------------------------- a reader on its own

  /** The state with the reader in the given place. */
  function Reading(s: State, r: Reader): State { s.(reader := r) }

  /** What the reader has loaded after the given number of fields. */
  function Partly(s: State, stage: nat): Loaded
  {
    Loaded(s.totGen,
           if stage > 0 then s.executions else 0, if stage > 1 then s.missed else 0,
           if stage > 2 then s.last else 0, if stage > 3 then s.samples else 0,
           if stage > 4 then s.sampleMissed else 0)
  }

  lemma OneMore(s: State, step: Step, next: State, rest: seq<Step>)
    requires Enabled(s, step) && next == Do(s, step) && ValidRun(next, rest)
    ensures ValidRun(s, [step] + rest) && Exec(s, [step] + rest) == Exec(next, rest)
  {
    hide Do, Enabled;
    assert ([step] + rest)[0] == step && ([step] + rest)[1..] == rest;
  }

  lemma {:induction false} FieldsAlone(s: State, stage: nat, rest: seq<Step>)
    requires stage <= 5 && ValidRun(Reading(s, Loading(Partly(s, 5), 5)), rest)
    ensures
      var from, steps := Reading(s, Loading(Partly(s, stage), stage)), seq(5 - stage, _ => ReadField) + rest;
      ValidRun(from, steps) && Exec(from, steps) == Exec(Reading(s, Loading(Partly(s, 5), 5)), rest)
    decreases 5 - stage
  {
    hide ValidRun, Exec;
    if stage == 5 {
      assert seq(0, _ => ReadField) + rest == rest;
    } else {
      FieldsAlone(s, stage + 1, rest);
      var from := Reading(s, Loading(Partly(s, stage), stage));
      var next := Reading(s, Loading(Partly(s, stage + 1), stage + 1));
      var more := seq(5 - (stage + 1), _ => ReadField) + rest;
      assert seq(5 - stage, _ => ReadField) + rest == [ReadField] + more;
      assert Do(from, ReadField) == next;
      OneMore(from, ReadField, next, more);
    }
  }

  lemma LoadedGeneration(s: State)
    ensures Partly(s, 5).gen == s.totGen
  {
  }

  /** From the last field on. */
  lemma FinishAlone(s: State)
    requires !Odd(Word(s.relGen)) && !Odd(Word(s.totGen))
    ensures
      var from, steps := Reading(s, Loading(Partly(s, 5), 5)), [ReadRelGen, ReadReleases, ReadRelRecheck, ReadRecheck];
      ValidRun(from, steps) && Exec(from, steps) == Reading(s, Accepted(Partly(s, 5), s.releases))
  {
    hide ValidRun, Exec, Do, Enabled, Partly;
    var v := Partly(s, 5);
    var a, b := Reading(s, Loading(v, 5)), Reading(s, SawRelease(v, s.relGen));
    var c, d := Reading(s, SawReleases(v, s.relGen, s.releases)), Reading(s, Rechecking(v, s.releases));
    var e := Reading(s, Accepted(v, s.releases));
    LoadedGeneration(s);
    FinishSteps(s, v);
    NoMore(e);
    var r1 := [ReadRecheck] + [];
    var r2 := [ReadRelRecheck] + r1;
    var r3 := [ReadReleases] + r2;
    OneMore(d, ReadRecheck, e, []);
    OneMore(c, ReadRelRecheck, d, r1);
    OneMore(b, ReadReleases, c, r2);
    OneMore(a, ReadRelGen, b, r3);
    assert [ReadRelGen] + r3 == [ReadRelGen, ReadReleases, ReadRelRecheck, ReadRecheck];
  }

  lemma FinishSteps(s: State, v: Loaded)
    requires v.gen == s.totGen && !Odd(Word(s.relGen)) && !Odd(Word(s.totGen))
    ensures
      var a, b := Reading(s, Loading(v, 5)), Reading(s, SawRelease(v, s.relGen));
      var c, d := Reading(s, SawReleases(v, s.relGen, s.releases)), Reading(s, Rechecking(v, s.releases));
      && Enabled(a, ReadRelGen) && Do(a, ReadRelGen) == b
      && Enabled(b, ReadReleases) && Do(b, ReadReleases) == c
      && Enabled(c, ReadRelRecheck) && Do(c, ReadRelRecheck) == d
      && Enabled(d, ReadRecheck) && Do(d, ReadRecheck) == Reading(s, Accepted(v, s.releases))
  {
    hide Odd, Word;
  }

  lemma NoMore(s: State)
    ensures ValidRun(s, []) && Exec(s, []) == s
  {
  }

  /** The reader's steps when nobody interferes. */
  function ReadAlone(): seq<Step>
  {
    [ReadStart, ReadGen] + (seq(5, _ => ReadField) + [ReadRelGen, ReadReleases, ReadRelRecheck, ReadRecheck])
  }

  /** Between interrupts and records, a reader on its own gets the snapshot of that moment at the first attempt. */
  lemma SoloSnapshot(s: State)
    requires Inv(s) && s.reader.Away? && s.isr.Out? && !s.response.Recording?
    ensures ValidRun(s, ReadAlone())
    ensures
      Exec(s, ReadAlone()).reader
      == Accepted(Loaded(s.totGen, s.executions, s.missed, s.last, s.samples, s.sampleMissed), s.releases)
  {
    hide ValidRun, Exec, Word;
    OddWord(s.relGen);
    OddWord(s.totGen);
    FinishAlone(s);
    var finish := [ReadRelGen, ReadReleases, ReadRelRecheck, ReadRecheck];
    FieldsAlone(s, 0, finish);
    var rest := seq(5, _ => ReadField) + finish;
    var a, b := Reading(s, Looping), Reading(s, Loading(Partly(s, 0), 0));
    OneMore(a, ReadGen, b, rest);
    OneMore(s, ReadStart, a, [ReadGen] + rest);
    assert ReadAlone() == [ReadStart] + ([ReadGen] + rest);
  }
}
