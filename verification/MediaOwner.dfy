/**
 * The removable-media ownership word of src/ove_media.c as a step system: one bit
 * for the filesystem, one for a raw writer, and a count of raw readers above them,
 * all in one 32-bit word updated by compare-and-swap. Any number of agents (a
 * filesystem client or the holder of one lease) take the atomic steps of the C
 * code in any order, and the card may be swapped or removed at any time.
 */
module MediaOwner {
  import opened Arith

  /** MEDIA_FS, MEDIA_WRITER, MEDIA_READER_ONE */
  const FS: int := 1
  const WRITER: int := 2
  const READER_ONE: int := 4

  /** Where one agent stands. */
  datatype Agent =
    | Free
    | FsTry(seen: nat)
    | FsHeld
    | RawCheck(write: bool, gen: nat)
    | RawPresent(write: bool, gen: nat)
    | RawMatches(write: bool, gen: nat)
    | RawTry(write: bool, gen: nat, seen: nat)
    | RawGot(write: bool, gen: nat)
    | RawStillPresent(write: bool, gen: nat)
    | RawHeld(write: bool, gen: nat)
    | RawDropping(write: bool, gen: nat)
    | RawDropTry(gen: nat, seen: nat)
  {
    /** The agent's lease is counted in the word. */
    predicate HasRaw() { RawGot? || RawStillPresent? || RawHeld? || RawDropping? || RawDropTry? }

    predicate Writes() { HasRaw() && !RawDropTry? && write }

    predicate Reads() { HasRaw() && (RawDropTry? || !write) }
  }

  datatype State = State(owners: nat, generation: nat, present: bool, agents: map<nat, Agent>)

  function Init(): State { State(0, 0, false, map[]) }

  function At(s: State, a: nat): Agent { if a in s.agents then s.agents[a] else Free }

  function Put(s: State, a: nat, g: Agent): State { s.(agents := s.agents[a := g]) }

  datatype Step =
    | ObserveGeneration(generation: nat) | ObservePresence(present: bool) | Removed
    | FsLoad(a: nat) | FsCas(a: nat) | FsRelease(a: nat)
    | RawStart(a: nat, write: bool, gen: nat) | RawLoadPresent(a: nat) | RawLoadGeneration(a: nat)
    | RawLoadOwners(a: nat) | RawCas(a: nat) | RawRecheckPresent(a: nat) | RawRecheckGeneration(a: nat)
    | RawRelease(a: nat) | DropWriter(a: nat) | DropLoad(a: nat) | DropCas(a: nat)

  /** When the code may take a step; only a holder releases. */
  predicate Enabled(s: State, step: Step)
  {
    match step
    case ObserveGeneration(g) => g < WORD
    case ObservePresence(_) => true
    case Removed => true
    case FsLoad(a) => At(s, a).Free?
    case FsCas(a) => At(s, a).FsTry?
    case FsRelease(a) => At(s, a).FsHeld?
    case RawStart(a, _, g) => At(s, a).Free? && 0 < g < WORD
    case RawLoadPresent(a) => At(s, a).RawCheck?
    case RawLoadGeneration(a) => At(s, a).RawPresent?
    case RawLoadOwners(a) => At(s, a).RawMatches?
    case RawCas(a) => At(s, a).RawTry?
    case RawRecheckPresent(a) => At(s, a).RawGot?
    case RawRecheckGeneration(a) => At(s, a).RawStillPresent?
    case RawRelease(a) => At(s, a).RawHeld?
    case DropWriter(a) => At(s, a).RawDropping? && At(s, a).write
    case DropLoad(a) => At(s, a).RawDropping? && !At(s, a).write
    case DropCas(a) => At(s, a).RawDropTry?
  }

  /** The new word a raw acquire wants, if it may go ahead on the word it has seen. */
  function Desired(write: bool, seen: nat): int
  {
    if write then (if seen != 0 then -1 else WRITER)
    else if seen / 2 % 2 != 0 || seen > WORD - 1 - READER_ONE then -1
    else seen + READER_ONE
  }

  function Do(s: State, step: Step): State
    requires Enabled(s, step)
  {
    match step
    case ObserveGeneration(g) => s.(generation := if g == 0 then 1 else g)
    case ObservePresence(p) => s.(present := p)
    case Removed => s.(present := false)
    case FsLoad(a) => Put(s, a, FsTry(s.owners))
    case FsCas(a) =>
      var seen := At(s, a).seen;
      if seen % 4 != 0 then Put(s, a, Free)
      else if seen == s.owners then Put(s, a, FsHeld).(owners := s.owners + FS)
      else Put(s, a, FsTry(s.owners))
    case FsRelease(a) => Put(s, a, Free).(owners := s.owners - s.owners % 2)
    case RawStart(a, w, g) => Put(s, a, RawCheck(w, g))
    case RawLoadPresent(a) => Put(s, a, if s.present then RawPresent(At(s, a).write, At(s, a).gen) else Free)
    case RawLoadGeneration(a) =>
      var g := At(s, a);
      Put(s, a, if s.generation == g.gen then RawMatches(g.write, g.gen) else Free)
    case RawLoadOwners(a) => Put(s, a, RawTry(At(s, a).write, At(s, a).gen, s.owners))
    case RawCas(a) =>
      var g := At(s, a);
      var desired := Desired(g.write, g.seen);
      if desired < 0 then Put(s, a, Free)
      else if g.seen == s.owners then Put(s, a, RawGot(g.write, g.gen)).(owners := desired)
      else Put(s, a, RawTry(g.write, g.gen, s.owners))
    case RawRecheckPresent(a) =>
      var g := At(s, a);
      Put(s, a, if s.present then RawStillPresent(g.write, g.gen) else RawDropping(g.write, g.gen))
    case RawRecheckGeneration(a) =>
      var g := At(s, a);
      Put(s, a, if s.generation == g.gen then RawHeld(g.write, g.gen) else RawDropping(g.write, g.gen))
    case RawRelease(a) => Put(s, a, RawDropping(At(s, a).write, At(s, a).gen))
    case DropWriter(a) => Put(s, a, Free).(owners := s.owners - s.owners / 2 % 2 * 2)
    case DropLoad(a) => Put(s, a, RawDropTry(At(s, a).gen, s.owners))
    case DropCas(a) =>
      var seen := At(s, a).seen;
      if seen < READER_ONE then Put(s, a, Free)
      else if seen == s.owners then Put(s, a, Free).(owners := s.owners - READER_ONE)
      else Put(s, a, RawDropTry(At(s, a).gen, s.owners))
  }

  // ------------------------------------------------------------------- invariant

  function FsHolders(s: State): set<nat> { set a | a in s.agents && s.agents[a].FsHeld? }
  function Writers(s: State): set<nat> { set a | a in s.agents && s.agents[a].Writes() }
  function Readers(s: State): set<nat> { set a | a in s.agents && s.agents[a].Reads() }

  /**
   * The word counts one filesystem holder or one writer alone, or any number of readers,
   * or both readers and filesystem.
   */
  ghost predicate Counts(word: nat, fs: set<nat>, writers: set<nat>, readers: set<nat>)
  {
    && word < WORD
    && word == |fs| * FS + |writers| * WRITER + |readers| * READER_ONE
    && |fs| <= 1 && |writers| <= 1
    && (writers != {} ==> fs == {} && readers == {})
  }

  /** A reader inside its release loop last saw a word with a reader in it. */
  ghost predicate DropsSound(s: State)
  {
    forall a :: a in s.agents && s.agents[a].RawDropTry? ==> s.agents[a].seen >= READER_ONE
  }

  ghost predicate Inv(s: State)
  {
    Counts(s.owners, FsHolders(s), Writers(s), Readers(s)) && DropsSound(s)
  }

  /** Moving one agent moves it in and out of the three groups. */
  lemma Moved(s: State, a: nat, g: Agent)
    ensures FsHolders(Put(s, a, g)) == if g.FsHeld? then FsHolders(s) + {a} else FsHolders(s) - {a}
    ensures Writers(Put(s, a, g)) == if g.Writes() then Writers(s) + {a} else Writers(s) - {a}
    ensures Readers(Put(s, a, g)) == if g.Reads() then Readers(s) + {a} else Readers(s) - {a}
  {
  }

  lemma Member(s: State, a: nat)
    ensures a in FsHolders(s) <==> At(s, a).FsHeld?
    ensures a in Writers(s) <==> At(s, a).Writes()
    ensures a in Readers(s) <==> At(s, a).Reads()
  {
  }

  /** An agent that holds the same before and after a step changes no group. */
  lemma SameHolding(s: State, a: nat, g: Agent)
    requires Inv(s) && (g.FsHeld? <==> At(s, a).FsHeld?) && (g.Writes() <==> At(s, a).Writes()) &&
      (g.Reads() <==> At(s, a).Reads())
    requires g.RawDropTry? ==> g.seen >= READER_ONE
    ensures Inv(Put(s, a, g))
  {
    hide Counts, FsHolders, Writers, Readers;
    Moved(s, a, g);
    Member(s, a);
    assert FsHolders(Put(s, a, g)) == FsHolders(s);
    assert Writers(Put(s, a, g)) == Writers(s);
    assert Readers(Put(s, a, g)) == Readers(s);
  }

  /** The digits of the word are the sizes of the groups. */
  lemma Digits(s: State)
    requires Inv(s)
    ensures s.owners % 2 == |FsHolders(s)| && s.owners / 2 % 2 == |Writers(s)| && s.owners / 4 == |Readers(s)|
    ensures s.owners % 4 == 0 <==> FsHolders(s) == {} && Writers(s) == {}
    ensures s.owners == 0 <==> FsHolders(s) == {} && Writers(s) == {} && Readers(s) == {}
  {
    hide FsHolders, Writers, Readers, DropsSound;
    FieldsOf(|FsHolders(s)|, |Writers(s)|, |Readers(s)|);
  }

  lemma FieldsOf(f: nat, w: nat, r: nat)
    requires f <= 1 && w <= 1
    ensures
      var word := f * FS + w * WRITER + r * READER_ONE;
      && word % 2 == f && word / 2 % 2 == w && word / 4 == r
      && (word % 4 == 0 <==> f == 0 && w == 0) && (word == 0 <==> f == 0 && w == 0 && r == 0)
  {
    var word := f * FS + w * WRITER + r * READER_ONE;
    DivModUnique(word, 4, r, f + 2 * w);
    DivModUnique(word, 2, w + 2 * r, f);
    DivModUnique(w + 2 * r, 2, r, w);
  }

  /** The groups do not depend on the word. */
  lemma Unaffected(s: State, word: nat)
    ensures FsHolders(s.(owners := word)) == FsHolders(s) && Writers(s.(owners := word)) == Writers(s) &&
      Readers(s.(owners := word)) == Readers(s)
  {
  }

  /** A step that moves one agent and writes the word keeps the invariant when the new counts fit. */
  lemma MovedCounts(s: State, a: nat, g: Agent, word: nat)
    requires Inv(s) && !g.RawDropTry?
    requires Counts(word,
               if g.FsHeld? then FsHolders(s) + {a} else FsHolders(s) - {a},
               if g.Writes() then Writers(s) + {a} else Writers(s) - {a},
               if g.Reads() then Readers(s) + {a} else Readers(s) - {a})
    ensures Inv(Put(s, a, g).(owners := word))
  {
    hide Counts, FsHolders, Writers, Readers;
    Moved(s, a, g);
    Unaffected(Put(s, a, g), word);
  }

  lemma Without(group: set<nat>, a: nat)
    ensures a !in group ==> group - {a} == group
    ensures a in group ==> |group - {a}| == |group| - 1
    ensures a !in group ==> |group + {a}| == |group| + 1
  {
  }

  lemma FsAcquired(s: State, a: nat)
    requires Inv(s) && At(s, a).FsTry? && s.owners % 4 == 0
    ensures Inv(Put(s, a, FsHeld).(owners := s.owners + FS))
  {
    hide FsHolders, Writers, Readers, DropsSound;
    Digits(s);
    Member(s, a);
    Without(FsHolders(s), a);
    Without(Writers(s), a);
    Without(Readers(s), a);
    MovedCounts(s, a, FsHeld, s.owners + FS);
  }

  lemma FsReleased(s: State, a: nat)
    requires Inv(s) && At(s, a).FsHeld?
    ensures Inv(Put(s, a, Free).(owners := s.owners - s.owners % 2))
  {
    hide FsHolders, Writers, Readers, DropsSound;
    Digits(s);
    Member(s, a);
    Without(FsHolders(s), a);
    Without(Writers(s), a);
    Without(Readers(s), a);
    MovedCounts(s, a, Free, s.owners - s.owners % 2);
  }

  lemma WriterAcquired(s: State, a: nat, gen: nat)
    requires Inv(s) && At(s, a).RawTry? && s.owners == 0
    ensures Inv(Put(s, a, RawGot(true, gen)).(owners := WRITER))
  {
    hide FsHolders, Writers, Readers, DropsSound;
    Digits(s);
    Member(s, a);
    Without(Writers(s), a);
    MovedCounts(s, a, RawGot(true, gen), WRITER);
  }

  lemma ReaderAcquired(s: State, a: nat, gen: nat)
    requires Inv(s) && At(s, a).RawTry? && s.owners / 2 % 2 == 0 && s.owners <= WORD - 1 - READER_ONE
    ensures Inv(Put(s, a, RawGot(false, gen)).(owners := s.owners + READER_ONE))
  {
    hide FsHolders, Writers, Readers, DropsSound;
    Digits(s);
    Member(s, a);
    Without(FsHolders(s), a);
    Without(Writers(s), a);
    Without(Readers(s), a);
    MovedCounts(s, a, RawGot(false, gen), s.owners + READER_ONE);
  }

  lemma WriterDropped(s: State, a: nat)
    requires Inv(s) && At(s, a).RawDropping? && At(s, a).write
    ensures Inv(Put(s, a, Free).(owners := s.owners - s.owners / 2 % 2 * 2))
  {
    hide FsHolders, Writers, Readers, DropsSound;
    Digits(s);
    Member(s, a);
    Without(FsHolders(s), a);
    Without(Writers(s), a);
    Without(Readers(s), a);
    MovedCounts(s, a, Free, s.owners - s.owners / 2 % 2 * 2);
  }

  lemma ReaderDropped(s: State, a: nat)
    requires Inv(s) && At(s, a).RawDropTry?
    ensures s.owners >= READER_ONE
    ensures Inv(Put(s, a, Free).(owners := s.owners - READER_ONE))
  {
    hide FsHolders, Writers, Readers, DropsSound;
    Digits(s);
    Member(s, a);
    ReaderCounted(s, a);
    Without(FsHolders(s), a);
    Without(Writers(s), a);
    Without(Readers(s), a);
    MovedCounts(s, a, Free, s.owners - READER_ONE);
  }

  /** A reader on its way out is still counted in the word it loads. */
  lemma ReaderCounted(s: State, a: nat)
    requires Inv(s) && At(s, a).Reads()
    ensures s.owners >= READER_ONE
  {
    hide FsHolders, Writers, Readers;
    Member(s, a);
    Digits(s);
    assert |Readers(s)| >= 1;
  }

  lemma StepKeeps(s: State, step: Step)
    requires Inv(s) && Enabled(s, step)
    ensures Inv(Do(s, step))
  {
    hide Inv, FsHolders, Writers, Readers;
    match step
    case ObserveGeneration(g) => CardOnly(s, if g == 0 then 1 else g, s.present);
    case ObservePresence(p) => CardOnly(s, s.generation, p);
    case Removed => CardOnly(s, s.generation, false);
    case FsLoad(a) => SameHolding(s, a, FsTry(s.owners));
    case FsCas(a) =>
      if At(s, a).seen % 4 != 0 {
        SameHolding(s, a, Free);
      } else if At(s, a).seen == s.owners {
        FsAcquired(s, a);
      } else {
        SameHolding(s, a, FsTry(s.owners));
      }
    case FsRelease(a) => FsReleased(s, a);
    case RawCas(a) => RawCasKeeps(s, a);
    case DropWriter(a) => WriterDropped(s, a);
    case DropLoad(a) =>
      ReaderCounted(s, a);
      SameHolding(s, a, RawDropTry(At(s, a).gen, s.owners));
    case DropCas(a) => DropCasKeeps(s, a);
    case _ => SameHolding(s, step.a, At(Do(s, step), step.a));
  }

  lemma CardOnly(s: State, generation: nat, present: bool)
    requires Inv(s)
    ensures Inv(s.(generation := generation, present := present))
  {
    var s' := s.(generation := generation, present := present);
    assert FsHolders(s') == FsHolders(s) && Writers(s') == Writers(s) && Readers(s') == Readers(s);
  }

  lemma RawCasKeeps(s: State, a: nat)
    requires Inv(s) && Enabled(s, RawCas(a))
    ensures Inv(Do(s, RawCas(a)))
  {
    hide Inv, FsHolders, Writers, Readers;
    var g := At(s, a);
    if Desired(g.write, g.seen) < 0 {
      SameHolding(s, a, Free);
    } else if g.seen == s.owners {
      if g.write { WriterAcquired(s, a, g.gen); } else { ReaderAcquired(s, a, g.gen); }
    } else {
      SameHolding(s, a, RawTry(g.write, g.gen, s.owners));
    }
  }

  lemma DropCasKeeps(s: State, a: nat)
    requires Inv(s) && Enabled(s, DropCas(a))
    ensures Inv(Do(s, DropCas(a)))
  {
    hide FsHolders, Writers, Readers;
    var g := At(s, a);
    assert g.seen >= READER_ONE;
    ReaderDropped(s, a);
    if g.seen != s.owners { SameHolding(s, a, RawDropTry(g.gen, s.owners)); }
  }

  // -------------------------------------------------------------------- whole runs

  predicate ValidRun(s: State, steps: seq<Step>)
    decreases |steps|
  {
    steps == [] || (Enabled(s, steps[0]) && ValidRun(Do(s, steps[0]), steps[1..]))
  }

  function Exec(s: State, steps: seq<Step>): State
    requires ValidRun(s, steps)
    decreases |steps|
  {
    if steps == [] then s else Exec(Do(s, steps[0]), steps[1..])
  }

  lemma {:induction false} RunKeeps(s: State, steps: seq<Step>)
    requires Inv(s) && ValidRun(s, steps)
    ensures Inv(Exec(s, steps))
    decreases |steps|
  {
    hide Inv, Do, Enabled;
    if steps == [] {
    } else {
      StepKeeps(s, steps[0]);
      RunKeeps(Do(s, steps[0]), steps[1..]);
    }
  }

  /**
   * Every interleaving: the word is the filesystem bit plus the writer bit plus
   * four times the number of readers, counting exactly the agents that hold
   * something; it never wraps or borrows across its fields; a writer excludes all
   * others. An agent whose acquire failed is back outside and counted nowhere.
   */
  lemma WordCountsHolders(steps: seq<Step>)
    requires ValidRun(Init(), steps)
    ensures
      var s := Exec(Init(), steps);
      && s.owners < WORD
      && s.owners == |FsHolders(s)| + 2 * |Writers(s)| + 4 * |Readers(s)|
      && |FsHolders(s)| <= 1 && |Writers(s)| <= 1
      && (Writers(s) != {} ==> s.owners == WRITER && FsHolders(s) == {} && Readers(s) == {})
      && s.owners % 2 == |FsHolders(s)| && s.owners / 2 % 2 == |Writers(s)| && s.owners / 4 == |Readers(s)|
  {
    hide Exec, ValidRun, FsHolders, Writers, Readers;
    InitOk();
    RunKeeps(Init(), steps);
    var s := Exec(Init(), steps);
    Digits(s);
  }

  lemma InitOk()
    ensures Inv(Init())
  {
  }

  /** A run is its first steps and then its last one. */
  lemma {:induction false} RunSplits(s: State, steps: seq<Step>)
    requires steps != [] && ValidRun(s, steps)
    ensures
      var n := |steps| - 1;
      && ValidRun(s, steps[..n]) && Enabled(Exec(s, steps[..n]), steps[n])
      && Exec(s, steps) == Do(Exec(s, steps[..n]), steps[n])
    decreases |steps|
  {
    hide Do, Enabled;
    var n := |steps| - 1;
    if n == 0 {
      assert steps[..0] == [] && steps[1..] == [];
    } else {
      RunSplits(Do(s, steps[0]), steps[1..]);
      assert steps[1..][..n - 1] == steps[..n][1..] && steps[1..][n - 1] == steps[n];
    }
  }

  lemma NobodyYet(a: nat)
    ensures At(Init(), a) == Free
  {
  }

  /** How an agent comes to the two last places of a raw acquire. */
  lemma CameFrom(s: State, step: Step, a: nat)
    requires Enabled(s, step)
    ensures
      var g := At(Do(s, step), a);
      && (g.RawStillPresent? ==> At(s, a) == g || (At(s, a) == RawGot(g.write, g.gen) && s.present))
      && (g.RawHeld? ==> At(s, a) == g || (At(s, a) == RawStillPresent(g.write, g.gen) && s.generation == g.gen))
  {
  }

  lemma {:induction false} PresentSeen(steps: seq<Step>, a: nat) returns (j: nat)
    requires ValidRun(Init(), steps) && At(Exec(Init(), steps), a).RawStillPresent?
    ensures j < |steps| && ValidRun(Init(), steps[..j])
    ensures
      var p, g := Exec(Init(), steps[..j]), At(Exec(Init(), steps), a);
      p.present && At(p, a) == RawGot(g.write, g.gen)
    decreases |steps|
  {
    hide Do, Enabled, At;
    NobodyYet(a);
    if steps == [] {
      assert false;
    } else {
      var n := |steps| - 1;
      RunSplits(Init(), steps);
      var s := Exec(Init(), steps[..n]);
      CameFrom(s, steps[n], a);
      if At(s, a) == At(Exec(Init(), steps), a) {
        j := PresentSeen(steps[..n], a);
        assert steps[..n][..j] == steps[..j];
      } else {
        j := n;
      }
    }
  }

  /**
   * Every interleaving: a raw lease that is held was checked against the card while
   * it was already counted in the word. Two states of the run, one after the other,
   * have the card present and the generation the lease was asked for.
   */
  lemma {:induction false} HeldMeansCardSeen(steps: seq<Step>, a: nat) returns (j: nat, k: nat)
    requires ValidRun(Init(), steps) && At(Exec(Init(), steps), a).RawHeld?
    ensures j < k < |steps| && ValidRun(Init(), steps[..j]) && ValidRun(Init(), steps[..k])
    ensures
      var p, q := Exec(Init(), steps[..j]), Exec(Init(), steps[..k]);
      var g := At(Exec(Init(), steps), a);
      && p.present && At(p, a) == RawGot(g.write, g.gen)
      && q.generation == g.gen && At(q, a) == RawStillPresent(g.write, g.gen)
    decreases |steps|
  {
    hide Do, Enabled, At;
    NobodyYet(a);
    if steps == [] {
      assert false;
    } else {
      var n := |steps| - 1;
      RunSplits(Init(), steps);
      var s := Exec(Init(), steps[..n]);
      CameFrom(s, steps[n], a);
      if At(s, a) == At(Exec(Init(), steps), a) {
        j, k := HeldMeansCardSeen(steps[..n], a);
        assert steps[..n][..k] == steps[..k];
      } else {
        k := n;
        j := PresentSeen(steps[..n], a);
      }
      assert steps[..n][..j] == steps[..j];
    }
  }

  lemma {:induction false} PrefixRuns(s: State, steps: seq<Step>, k: nat)
    requires ValidRun(s, steps) && k <= |steps|
    ensures ValidRun(s, steps[..k])
    decreases |steps|
  {
    hide Do, Enabled;
    if k == |steps| {
      assert steps[..k] == steps;
    } else {
      RunSplits(s, steps);
      PrefixRuns(s, steps[..|steps| - 1], k);
      assert steps[..|steps| - 1][..k] == steps[..k];
    }
  }

  /** The generation after the first k steps. */
  ghost function GenerationAt(steps: seq<Step>, k: nat): nat
    requires ValidRun(Init(), steps) && k <= |steps|
  {
    PrefixRuns(Init(), steps, k);
    Exec(Init(), steps[..k]).generation
  }

  /** A generation that has been replaced never comes back. */
  ghost predicate NeverReused(steps: seq<Step>)
    requires ValidRun(Init(), steps)
  {
    forall i, j, k ::
      0 <= i <= j <= k <= |steps| && GenerationAt(steps, i) == GenerationAt(steps, k) ==>
      GenerationAt(steps, j) == GenerationAt(steps, i)
  }

  /** The agent has found the generation it asked for and has gone on. */
  predicate PastMatch(g: Agent) { g.RawMatches? || g.RawTry? || g.RawGot? }

  lemma MatchedFrom(s: State, step: Step, a: nat)
    requires Enabled(s, step) && PastMatch(At(Do(s, step), a))
    ensures
      var g := At(Do(s, step), a);
      if PastMatch(At(s, a)) then At(s, a).gen == g.gen else s.generation == g.gen
  {
  }

  /** Before it got its lease, the agent saw the generation it asked for. */
  lemma {:induction false} MatchSeen(steps: seq<Step>, a: nat) returns (i: nat)
    requires ValidRun(Init(), steps) && PastMatch(At(Exec(Init(), steps), a))
    ensures i <= |steps| && GenerationAt(steps, i) == At(Exec(Init(), steps), a).gen
    decreases |steps|
  {
    hide Do, Enabled, At, PastMatch;
    NobodyYet(a);
    OutsideIsNotPast();
    if steps == [] {
      assert false;
    } else {
      var n := |steps| - 1;
      RunSplits(Init(), steps);
      var s := Exec(Init(), steps[..n]);
      MatchedFrom(s, steps[n], a);
      if PastMatch(At(s, a)) {
        i := MatchSeen(steps[..n], a);
        assert steps[..n][..i] == steps[..i];
      } else {
        i := n;
      }
    }
  }

  lemma OutsideIsNotPast()
    ensures !PastMatch(Free)
  {
  }

  /**
   * Every interleaving in which no generation comes back: a raw lease that is held
   * was, at one instant while it was already counted in the word, a lease on the card
   * that was present with the generation asked for.
   */
  lemma HeldAtOneInstant(steps: seq<Step>, a: nat) returns (j: nat)
    requires ValidRun(Init(), steps) && NeverReused(steps) && At(Exec(Init(), steps), a).RawHeld?
    ensures j < |steps| && ValidRun(Init(), steps[..j])
    ensures
      var p, g := Exec(Init(), steps[..j]), At(Exec(Init(), steps), a);
      p.present && p.generation == g.gen && At(p, a) == RawGot(g.write, g.gen)
  {
    hide Exec, ValidRun, At, NeverReused;
    var k;
    j, k := HeldMeansCardSeen(steps, a);
    GotIsPast(At(Exec(Init(), steps[..j]), a));
    var i := MatchSeen(steps[..j], a);
    assert steps[..j][..i] == steps[..i];
    Between(steps, i, j, k);
  }

  lemma GotIsPast(g: Agent)
    ensures g.RawGot? ==> PastMatch(g)
  {
  }

  lemma Between(steps: seq<Step>, i: nat, j: nat, k: nat)
    requires ValidRun(Init(), steps) && NeverReused(steps) && i <= j <= k <= |steps|
    requires GenerationAt(steps, i) == GenerationAt(steps, k)
    ensures GenerationAt(steps, j) == GenerationAt(steps, k)
  {
    hide GenerationAt;
  }

  // ------------------------------------------------------- a call with no interference

  /** Run alone, the filesystem acquire succeeds exactly when nobody writes and nobody has the filesystem. */
  lemma SoloFsAcquire(s: State, a: nat)
    requires Inv(s) && At(s, a).Free?
    ensures ValidRun(s, [FsLoad(a), FsCas(a)])
    ensures
      var r := At(Exec(s, [FsLoad(a), FsCas(a)]), a);
      if FsHolders(s) == {} && Writers(s) == {} then r.FsHeld? else r.Free?
  {
    hide Inv, FsHolders, Writers, Readers;
    Digits(s);
    var s1 := Do(s, FsLoad(a));
    var s2 := Do(s1, FsCas(a));
    TwoSteps(s, FsLoad(a), FsCas(a));
  }

  /** The filesystem release gives up the filesystem and leaves every raw share in the word. */
  lemma SoloFsRelease(s: State, a: nat)
    requires Inv(s) && At(s, a).FsHeld?
    ensures Enabled(s, FsRelease(a)) && At(Do(s, FsRelease(a)), a) == Free
    ensures Do(s, FsRelease(a)).owners == s.owners - FS && FsHolders(Do(s, FsRelease(a))) == {}
  {
    hide FsHolders, Writers, Readers, DropsSound;
    Digits(s);
    Member(s, a);
    StepKeeps(s, FsRelease(a));
    Digits(Do(s, FsRelease(a)));
  }

  lemma TwoSteps(s: State, x: Step, y: Step)
    requires Enabled(s, x) && Enabled(Do(s, x), y)
    ensures ValidRun(s, [x, y]) && Exec(s, [x, y]) == Do(Do(s, x), y)
  {
    hide Do, Enabled;
    assert [x, y][1..] == [y] && [y][1..] == [];
    assert ValidRun(Do(Do(s, x), y), []) && Exec(Do(Do(s, x), y), []) == Do(Do(s, x), y);
    assert ValidRun(Do(s, x), [y]) && Exec(Do(s, x), [y]) == Exec(Do(Do(s, x), y), []);
    assert Exec(s, [x, y]) == Exec(Do(s, x), [y]);
  }

  /**
   * Run alone after the card checks, a raw acquire gets the word exactly when a
   * writer finds no owner at all, or a reader finds no writer and room for one
   * more reader.
   */
  lemma SoloRawAcquire(s: State, a: nat)
    requires Inv(s) && At(s, a).RawMatches?
    ensures ValidRun(s, [RawLoadOwners(a), RawCas(a)])
    ensures
      var g := At(s, a);
      var r := At(Exec(s, [RawLoadOwners(a), RawCas(a)]), a);
      var free := if g.write then FsHolders(s) == {} && Writers(s) == {} && Readers(s) == {}
                  else Writers(s) == {} && |Readers(s)| < WORD / READER_ONE - 1;
      r == if free then RawGot(g.write, g.gen) else Free
  {
    hide Inv, FsHolders, Writers, Readers;
    Digits(s);
    ReaderRoom(s);
    TwoSteps(s, RawLoadOwners(a), RawCas(a));
  }

  /** A run extended by one step. */
  lemma {:induction false} RunExtends(s: State, steps: seq<Step>, step: Step)
    requires ValidRun(s, steps) && Enabled(Exec(s, steps), step)
    ensures ValidRun(s, steps + [step]) && Exec(s, steps + [step]) == Do(Exec(s, steps), step)
    decreases |steps|
  {
    hide Do, Enabled;
    if steps == [] {
      assert [] + [step] == [step] && [step][1..] == [];
    } else {
      RunExtends(Do(s, steps[0]), steps[1..], step);
      assert (steps + [step])[0] == steps[0] && (steps + [step])[1..] == steps[1..] + [step];
    }
  }

  /** A step of agent a's own code. */
  predicate Own(step: Step, a: nat)
  {
    !step.ObserveGeneration? && !step.ObservePresence? && !step.Removed? && step.a == a
  }

  /** A run of a's own steps, extended by one more. */
  lemma OwnStep(s: State, steps: seq<Step>, step: Step, a: nat) returns (more: seq<Step>, next: State)
    requires ValidRun(s, steps) && Enabled(Exec(s, steps), step) && Own(step, a)
    requires forall x :: x in steps ==> Own(x, a)
    ensures ValidRun(s, more) && next == Exec(s, more) == Do(Exec(s, steps), step)
    ensures forall x :: x in more ==> Own(x, a)
  {
    hide Do, Enabled, Own, ValidRun, Exec;
    RunExtends(s, steps, step);
    more, next := steps + [step], Do(Exec(s, steps), step);
  }

  lemma NoSteps(s: State)
    ensures ValidRun(s, []) && Exec(s, []) == s
  {
  }

  /** The card a raw acquire asks for is there, and the word lets it in. */
  ghost predicate MayHave(s: State, write: bool, gen: nat)
  {
    && s.present && s.generation == gen
    && if write then FsHolders(s) == {} && Writers(s) == {} && Readers(s) == {}
       else Writers(s) == {} && |Readers(s)| < WORD / READER_ONE - 1
  }

  /**
   * An observation can come at any time and moves no lease: afterwards exactly the
   * generation observed is to be had, zero counting as one. After a removal nothing is,
   * nor before the first observation.
   */
  lemma ObservedThenRemoved(s: State, g: nat, write: bool, gen: nat)
    requires g < WORD
    ensures Enabled(s, ObserveGeneration(g)) && Enabled(Do(s, ObserveGeneration(g)), ObservePresence(true))
    ensures
      var t := Do(Do(s, ObserveGeneration(g)), ObservePresence(true));
      && t.owners == s.owners && t.agents == s.agents
      && (t.present && t.generation == gen <==> gen == if g == 0 then 1 else g)
    ensures
      Enabled(s, Removed) && !MayHave(Do(s, Removed), write, gen) && !MayHave(Init(), write, gen)
      && Do(s, Removed).owners == s.owners && Do(s, Removed).agents == s.agents
  {
    hide FsHolders, Writers, Readers;
  }

  /** The card checks on their own: the agent goes on if and only if they pass, and nothing else changes. */
  lemma SoloChecks(s: State, a: nat, write: bool, gen: nat) returns (steps: seq<Step>)
    requires At(s, a).Free? && 0 < gen < WORD
    ensures ValidRun(s, steps) && forall x :: x in steps ==> Own(x, a)
    ensures
      var t := Exec(s, steps);
      && t.owners == s.owners && t.present == s.present && t.generation == s.generation
      && At(t, a) == if s.present && s.generation == gen then RawMatches(write, gen) else Free
  {
    hide ValidRun, Exec;
    NoSteps(s);
    var t;
    steps, t := OwnStep(s, [], RawStart(a, write, gen), a);
    steps, t := OwnStep(s, steps, RawLoadPresent(a), a);
    if s.present { steps, t := OwnStep(s, steps, RawLoadGeneration(a), a); }
  }

  /**
   * Run without interference from its first step to its answer, a raw acquire
   * succeeds if and only if the card is present with the generation asked for and the
   * word lets it in. It then counts itself in the word; otherwise the word is as before.
   */
  lemma SoloAcquire(s: State, a: nat, write: bool, gen: nat) returns (steps: seq<Step>)
    requires Inv(s) && At(s, a).Free? && 0 < gen < WORD
    ensures ValidRun(s, steps) && forall x :: x in steps ==> Own(x, a)
    ensures
      var r := Exec(s, steps);
      if MayHave(s, write, gen) then
        At(r, a) == RawHeld(write, gen) && r.owners == s.owners + if write then WRITER else READER_ONE
      else At(r, a) == Free && r.owners == s.owners
  {
    hide Inv, FsHolders, Writers, Readers, ValidRun, Exec;
    Digits(s);
    ReaderRoom(s);
    steps := SoloChecks(s, a, write, gen);
    if !s.present || s.generation != gen { return; }
    var t;
    steps, t := OwnStep(s, steps, RawLoadOwners(a), a);
    steps, t := OwnStep(s, steps, RawCas(a), a);
    if Desired(write, s.owners) < 0 { return; }
    steps, t := OwnStep(s, steps, RawRecheckPresent(a), a);
    steps, t := OwnStep(s, steps, RawRecheckGeneration(a), a);
  }

  /** Run without interference, a release takes exactly the agent's own share out of the word. */
  lemma SoloRelease(s: State, a: nat) returns (steps: seq<Step>)
    requires Inv(s) && At(s, a).RawHeld?
    ensures ValidRun(s, steps) && forall x :: x in steps ==> Own(x, a)
    ensures At(Exec(s, steps), a) == Free
    ensures Exec(s, steps).owners == s.owners - if At(s, a).write then WRITER else READER_ONE
  {
    hide Inv, FsHolders, Writers, Readers, ValidRun, Exec;
    Digits(s);
    Member(s, a);
    NoSteps(s);
    var t;
    steps, t := OwnStep(s, [], RawRelease(a), a);
    if At(s, a).write {
      WriterAlone(s, a);
      steps, t := OwnStep(s, steps, DropWriter(a), a);
    } else {
      ReaderCounted(s, a);
      steps, t := OwnStep(s, steps, DropLoad(a), a);
      steps, t := OwnStep(s, steps, DropCas(a), a);
    }
  }

  lemma WriterAlone(s: State, a: nat)
    requires Inv(s) && At(s, a).Writes()
    ensures s.owners / 2 % 2 == 1
  {
    hide FsHolders, Writers, Readers;
    Digits(s);
    Member(s, a);
  }

  lemma ReaderRoom(s: State)
    requires Inv(s)
    ensures Writers(s) == {} ==> (s.owners <= WORD - 1 - READER_ONE <==> |Readers(s)| < WORD / READER_ONE - 1)
  {
    hide FsHolders, Writers, Readers;
  }

  /** Once every agent is back outside, the word is zero: nothing leaks. */
  lemma AllReturnedMeansFree(steps: seq<Step>)
    requires ValidRun(Init(), steps)
    requires forall a :: a in Exec(Init(), steps).agents ==> Exec(Init(), steps).agents[a].Free?
    ensures Exec(Init(), steps).owners == 0
  {
    InitOk();
    RunKeeps(Init(), steps);
    var s := Exec(Init(), steps);
    assert FsHolders(s) == {} && Writers(s) == {} && Readers(s) == {};
  }
}
