/**
 * The lock-free multi-producer, single-consumer sample ring of
 * backends/common/ove_profiler_ring.c, as a step system: every atomic load,
 * compare-and-swap or store of the C code is one step, any number of producers
 * and one consumer interleave freely, and memory is sequentially consistent.
 *
 * An index is kept as the natural number of reservations it stands for; the C
 * variable holds it modulo 2^32, and every test below is made on those words.
 */
module ProfilerRing {
  import opened Arith
  import opened Common

  datatype Sample = Sample(tsUs: nat, tid: nat, depth: nat, state: nat, pcs: seq<nat>)

  /** What a slot holds: a complete sample, or bytes a producer is half way through writing. */
  datatype Cell = Torn | Whole(sample: Sample)

  /** Where one producer stands inside `ove_profiler_ring_push`. */
  datatype Producer =
    | Outside
    | Trying(s: Sample)
    | SawWrite(s: Sample, w: nat)
    | SawBoth(s: Sample, w: nat, r: nat)
    | Reserved(s: Sample, w: nat)
    | Writing(s: Sample, w: nat)
    | Filled(s: Sample, w: nat)
  {
    /** The producer owns the slot of reservation w. */
    predicate InFlight() { Reserved? || Writing? || Filled? }

    predicate Owns(i: nat) { InFlight() && w == i }
  }

  /** Where the consumer stands inside `ove_profiler_ring_drain`. */
  datatype Consumer =
    | Resting
    | SawRead(max: nat, r: nat)
    | Scanning(max: nat, r: nat, w: nat, out: seq<Cell>)
    | SawCommit(max: nat, r: nat, w: nat, out: seq<Cell>)
    | Copied(max: nat, r: nat, w: nat, out: seq<Cell>)
    | Leaving(r: nat, out: seq<Cell>)

  /** The shared ring, the threads, and what has happened so far. */
  datatype State = State(
    size: nat,
    buf: seq<Cell>,
    committed: seq<bool>,
    write: nat,
    read: nat,
    dropped: nat,
    producers: map<nat, Producer>,
    consumer: Consumer,
    reserved: seq<Sample>,  // samples in the order their slots were reserved
    delivered: seq<Cell>,   // everything copied out, in order
    published: set<nat>,    // reservations whose push returned true
    refused: nat,           // pushes that returned false
    harvested: nat)         // sum of the values returned by dropped_get

  function Slot(i: nat, size: nat): (k: nat)
    requires size > 0
    ensures k < size
  {
    Word(i) % size
  }

  /** Sizes for which the slot sequence survives the wrap of a 32-bit index. */
  predicate GoodSize(size: nat) { 0 < size < WORD && WORD % size == 0 }

  function Init(size: nat): State
  {
    State(size, seq(size, _ => Torn), seq(size, _ => false), 0, 0, 0, map[], Resting, [], [], {}, 0, 0)
  }

  datatype Step =
    | Call(t: nat, s: Sample)
    | LoadWrite(t: nat)
    | LoadRead(t: nat)
    | Refuse(t: nat)
    | Cas(t: nat, spurious: bool)
    | BeginFill(t: nat)
    | EndFill(t: nat)
    | Commit(t: nat)
    | DrainLoadRead(max: nat)
    | DrainLoadWrite
    | DrainTest
    | DrainCopy
    | DrainClear
    | DrainPublish
    | Harvest

  function Thread(s: State, t: nat): Producer
  {
    if t in s.producers then s.producers[t] else Outside
  }

  /** The test on line 58: the ring looks full to a producer holding w and r. */
  predicate LooksFull(w: nat, r: nat, size: nat) { Sub32(w, r) >= size }

  /**
   * The code may take this step now. The compare-and-swap carries the one
   * assumption of the model: fewer than 2^32 reservations happen between a
   * producer's load of `write` and its compare-and-swap.
   */
  predicate Enabled(s: State, step: Step)
  {
    s.size > 0 && |s.buf| == s.size && |s.committed| == s.size &&
    match step
    case Call(t, _) => Thread(s, t).Outside?
    case LoadWrite(t) => Thread(s, t).Trying?
    case LoadRead(t) => Thread(s, t).SawWrite?
    case Refuse(t) => Thread(s, t).SawBoth? && LooksFull(Thread(s, t).w, Thread(s, t).r, s.size)
    case Cas(t, _) =>
      Thread(s, t).SawBoth? && !LooksFull(Thread(s, t).w, Thread(s, t).r, s.size) &&
      s.write - Thread(s, t).w < WORD
    case BeginFill(t) => Thread(s, t).Reserved?
    case EndFill(t) => Thread(s, t).Writing?
    case Commit(t) => Thread(s, t).Filled?
    case DrainLoadRead(_) => s.consumer.Resting?
    case DrainLoadWrite => s.consumer.SawRead?
    case DrainTest => s.consumer.Scanning?
    case DrainCopy => s.consumer.SawCommit?
    case DrainClear => s.consumer.Copied?
    case DrainPublish => s.consumer.Leaving?
    case Harvest => true
  }

  function Put(s: State, t: nat, p: Producer): State
  {
    s.(producers := s.producers[t := p])
  }

  function DoCas(s: State, t: nat, spurious: bool): State
    requires Thread(s, t).SawBoth?
  {
    var p := Thread(s, t);
    if !spurious && Word(s.write) == Word(p.w) then
      Put(s, t, Reserved(p.s, s.write)).(write := s.write + 1, reserved := s.reserved + [p.s])
    else
      Put(s, t, Trying(p.s))
  }

  function DoDrainTest(s: State): State
    requires s.consumer.Scanning? && s.size > 0 && |s.committed| == s.size
  {
    var c := s.consumer;
    if Word(c.r) == Word(c.w) || |c.out| >= Word(c.max) || !s.committed[Slot(c.r, s.size)] then
      s.(consumer := Leaving(c.r, c.out))
    else
      s.(consumer := SawCommit(c.max, c.r, c.w, c.out))
  }

  function Do(s: State, step: Step): State
    requires Enabled(s, step)
  {
    match step
    case Call(t, x) => Put(s, t, Trying(x))
    case LoadWrite(t) => Put(s, t, SawWrite(Thread(s, t).s, s.write))
    case LoadRead(t) => Put(s, t, SawBoth(Thread(s, t).s, Thread(s, t).w, s.read))
    case Refuse(t) => Put(s, t, Outside).(dropped := Word(s.dropped + 1), refused := s.refused + 1)
    case Cas(t, spurious) => DoCas(s, t, spurious)
    case BeginFill(t) =>
      var p := Thread(s, t);
      Put(s, t, Writing(p.s, p.w)).(buf := s.buf[Slot(p.w, s.size) := Torn])
    case EndFill(t) =>
      var p := Thread(s, t);
      Put(s, t, Filled(p.s, p.w)).(buf := s.buf[Slot(p.w, s.size) := Whole(p.s)])
    case Commit(t) =>
      var p := Thread(s, t);
      Put(s, t, Outside).(committed := s.committed[Slot(p.w, s.size) := true],
                          published := s.published + {p.w})
    case DrainLoadRead(max) => s.(consumer := SawRead(max, s.read))
    case DrainLoadWrite => s.(consumer := Scanning(s.consumer.max, s.consumer.r, s.write, []))
    case DrainTest => DoDrainTest(s)
    case DrainCopy =>
      var c := s.consumer;
      var x := s.buf[Slot(c.r, s.size)];
      s.(consumer := Copied(c.max, c.r, c.w, c.out + [x]), delivered := s.delivered + [x])
    case DrainClear =>
      var c := s.consumer;
      s.(consumer := Scanning(c.max, c.r + 1, c.w, c.out),
         committed := s.committed[Slot(c.r, s.size) := false])
    case DrainPublish => s.(consumer := Resting, read := s.consumer.r)
    case Harvest => s.(dropped := 0, harvested := s.harvested + s.dropped)
  }

  // ---------------------------------------------------------------- invariant

  /** First reservation whose commit byte the consumer has not yet cleared. */
  function Cleared(s: State): int
  {
    if s.consumer.Copied? then |s.delivered| - 1 else |s.delivered|
  }

  ghost predicate Shape(s: State)
  {
    && GoodSize(s.size)
    && |s.buf| == s.size && |s.committed| == s.size
    && s.write == |s.reserved|
    && s.read <= |s.delivered| <= s.write <= s.read + s.size
    && (forall i :: i in s.published ==> i < s.write)
  }

  ghost predicate ConsumerOk(s: State)
    requires Shape(s)
  {
    var n := |s.delivered|;
    match s.consumer
    case Resting => n == s.read
    case SawRead(_, r) => n == s.read == r
    case Scanning(max, r, w, out) =>
      n == r <= w <= s.write && out == s.delivered[s.read..] && |out| <= Word(max)
    case SawCommit(max, r, w, out) =>
      n == r < w <= s.write && out == s.delivered[s.read..] && |out| < Word(max) && r in s.published
    case Copied(max, r, w, out) =>
      n == r + 1 <= w <= s.write && s.read < n && out == s.delivered[s.read..] && |out| <= Word(max)
    case Leaving(r, out) => n == r && out == s.delivered[s.read..]
  }

  ghost predicate ProducerOk(s: State, p: Producer)
    requires Shape(s)
  {
    match p
    case Outside => true
    case Trying(_) => true
    case SawWrite(_, w) => w <= s.write && w <= s.read + s.size
    case SawBoth(_, w, r) => r <= s.read && w <= s.write && w <= r + s.size
    case Reserved(x, w) => w < s.write && w !in s.published && s.reserved[w] == x
    case Writing(x, w) => w < s.write && w !in s.published && s.reserved[w] == x
    case Filled(x, w) =>
      w < s.write && w !in s.published && s.reserved[w] == x && s.buf[Slot(w, s.size)] == Whole(x)
  }

  ghost predicate ProducersOk(s: State)
    requires Shape(s)
  {
    && (forall t :: t in s.producers ==> ProducerOk(s, s.producers[t]))
    && (forall t, u ::
          t in s.producers && u in s.producers && t != u && s.producers[t].InFlight() ==>
          !s.producers[u].Owns(s.producers[t].w))
  }

  /** Every reservation not yet published has a producer at work on it. */
  ghost predicate Owned(s: State)
  {
    forall i :: 0 <= i < s.write && i !in s.published ==>
      exists t :: t in s.producers && s.producers[t].Owns(i)
  }

  /** The commit bytes and contents of the slots of the current lap. */
  ghost predicate SlotsOk(s: State)
    requires Shape(s)
  {
    && (forall i: nat :: s.read <= i < s.read + s.size ==>
          (s.committed[Slot(i, s.size)] <==> i in s.published && i >= Cleared(s)))
    && (forall i :: Cleared(s) <= i < s.write && i in s.published ==>
          s.buf[Slot(i, s.size)] == Whole(s.reserved[i]))
  }

  ghost predicate DeliveredOk(s: State)
    requires Shape(s)
  {
    forall i :: 0 <= i < |s.delivered| ==> i in s.published && s.delivered[i] == Whole(s.reserved[i])
  }

  ghost predicate DropsOk(s: State)
  {
    && s.dropped < WORD
    && s.dropped + s.harvested <= s.refused
    && (s.refused - s.dropped - s.harvested) % WORD == 0
  }

  ghost predicate Inv(s: State)
  {
    Shape(s) && ConsumerOk(s) && ProducersOk(s) && Owned(s) && SlotsOk(s) && DeliveredOk(s) && DropsOk(s)
  }

  // ------------------------------------------------------- 32-bit arithmetic

  lemma SlotIsMod(i: nat, size: nat)
    requires GoodSize(size)
    ensures Slot(i, size) == i % size
  {
    var k := WORD / size;
    assert WORD == size * k;
    assert k > 0;
    ModOfMod(i, size, k);
  }

  /** Two reservations less than a lap apart never share a slot. */
  lemma SlotsDistinct(size: nat)
    requires GoodSize(size)
    ensures forall i: nat, j: nat :: i - j < size && j - i < size && Slot(i, size) == Slot(j, size) ==> i == j
  {
    forall i: nat, j: nat | i - j < size && j - i < size && Slot(i, size) == Slot(j, size)
      ensures i == j
    {
      SlotIsMod(i, size);
      SlotIsMod(j, size);
      ModInjective(i, j, size);
    }
  }

  lemma WordsDistinct(i: nat, j: nat)
    requires i - j < WORD && j - i < WORD
    ensures Word(i) == Word(j) <==> i == j
  {
    if Word(i) == Word(j) { ModInjective(i, j, WORD); }
  }

  lemma NextResidue(i: nat, size: nat)
    requires size > 0
    ensures (i % size + 1) % size == (i + 1) % size
  {
    ModShift(i % size + 1, size, i / size);
  }

  lemma SlotsConsecutive(size: nat, i: nat)
    requires GoodSize(size)
    ensures Slot(i + 1, size) == (Slot(i, size) + 1) % size
  {
    hide Slot;
    SlotIsMod(i, size);
    SlotIsMod(i + 1, size);
    NextResidue(i, size);
  }

  lemma SlotsAtWrap(size: nat)
    requires 0 < size < WORD
    ensures Slot(WORD, size) == 0 && (Slot(WORD - 1, size) + 1) % size == WORD % size
  {
    NextResidue(WORD - 1, size);
  }

  /**
   * Consecutive reservations use consecutive slots across the wrap of the
   * 32-bit index exactly when the configured size divides 2^32.
   */
  lemma SizeMustDivide(size: nat)
    requires 0 < size < WORD
    ensures (forall i: nat :: Slot(i + 1, size) == (Slot(i, size) + 1) % size) <==> GoodSize(size)
  {
    hide Slot;
    if GoodSize(size) {
      forall i: nat { SlotsConsecutive(size, i); }
    } else {
      SlotsAtWrap(size);
      assert Slot(WORD - 1 + 1, size) != (Slot(WORD - 1, size) + 1) % size;
    }
  }

  /**
   * What the fullness test really decides, for a write index loaded before the
   * read index: the ring was full, or the read index has already passed w.
   */
  lemma LooksFullMeans(w: nat, r: nat, size: nat)
    requires GoodSize(size) && w <= r + size && r <= w + WORD - size
    ensures LooksFull(w, r, size) <==> w == r + size || w < r
  {
    if w < r {
      assert (w - r) % WORD == w - r + WORD;
    }
  }

  // ------------------------------------------------------------ step lemmas

  /** Steps that change only where a producer stands, before it owns a slot. */
  lemma ApproachKeeps(s: State, t: nat, p: Producer)
    requires Inv(s) && !Thread(s, t).InFlight() && !p.InFlight() && ProducerOk(s, p)
    ensures Inv(Put(s, t, p))
  {
    var s' := Put(s, t, p);
    forall i | 0 <= i < s'.write && i !in s'.published
      ensures exists u :: u in s'.producers && s'.producers[u].Owns(i)
    {
      var u :| u in s.producers && s.producers[u].Owns(i);
      assert u in s'.producers && s'.producers[u].Owns(i);
    }
  }

  lemma CountDrop(s: State, s': State)
    requires DropsOk(s)
    requires s'.dropped == Word(s.dropped + 1) && s'.refused == s.refused + 1 && s'.harvested == s.harvested
    ensures DropsOk(s')
  {
    if s.dropped == WORD - 1 {
      ModShift(s.refused - s.dropped - s.harvested, WORD, 1);
    }
  }

  /** A refused push counts one drop, leaves, and changes nothing else. */
  lemma RefuseKeeps(s: State, t: nat)
    requires Inv(s) && Enabled(s, Refuse(t))
    ensures Inv(Do(s, Refuse(t))) && Thread(Do(s, Refuse(t)), t) == Outside
    ensures forall u :: u != t ==> Thread(Do(s, Refuse(t)), u) == Thread(s, u)
    ensures
      var s' := Do(s, Refuse(t));
      && s'.refused == s.refused + 1 && s'.dropped == Word(s.dropped + 1)
      && s' == s.(refused := s'.refused, dropped := s'.dropped, producers := s'.producers)
  {
    hide Slot, Word, Sub32, DropsOk;
    ApproachKeeps(s, t, Outside);
    var s' := Do(s, Refuse(t));
    CountDrop(s, s');
    assert Owned(s');
  }

  /** The state after a compare-and-swap that reserved a slot. */
  function Reserve(s: State, t: nat, x: Sample): State
  {
    Put(s, t, Reserved(x, s.write)).(write := s.write + 1, reserved := s.reserved + [x])
  }

  lemma ReserveProducers(s: State, t: nat, x: Sample)
    requires Inv(s) && !Thread(s, t).InFlight() && s.write < s.read + s.size
    ensures Shape(Reserve(s, t, x)) && ProducersOk(Reserve(s, t, x))
  {
    hide Slot, SlotsOk, Owned, DropsOk, DeliveredOk;
    var s' := Reserve(s, t, x);
    forall u | u in s'.producers
      ensures ProducerOk(s', s'.producers[u])
    {
      if u != t { assert ProducerOk(s, s.producers[u]); }
    }
    forall u, v | u in s'.producers && v in s'.producers && u != v && s'.producers[u].InFlight()
      ensures !s'.producers[v].Owns(s'.producers[u].w)
    {
      if u != t { assert ProducerOk(s, s.producers[u]); }
      if v != t { assert ProducerOk(s, s.producers[v]); }
    }
  }

  lemma ReserveKeeps(s: State, t: nat, x: Sample)
    requires Inv(s) && !Thread(s, t).InFlight() && s.write < s.read + s.size
    ensures Inv(Reserve(s, t, x))
  {
    hide Slot, Word, ProducersOk, DropsOk;
    var s' := Reserve(s, t, x);
    ReserveProducers(s, t, x);
    SameDrops(s, s');
    forall i | 0 <= i < s'.write && i !in s'.published
      ensures exists u :: u in s'.producers && s'.producers[u].Owns(i)
    {
      if i == s.write {
        assert s'.producers[t].Owns(i);
      } else {
        var u :| u in s.producers && s.producers[u].Owns(i);
        assert u in s'.producers && s'.producers[u].Owns(i);
      }
    }
    assert SlotsOk(s');
  }

  /** A successful compare-and-swap finds the ring with a free slot. */
  lemma CasKeeps(s: State, t: nat, spurious: bool)
    requires Inv(s) && Enabled(s, Cas(t, spurious))
    ensures Inv(Do(s, Cas(t, spurious)))
  {
    hide Slot, Inv, ProducerOk;
    var p := Thread(s, t);
    CasReady(s, t);
    if spurious || s.write != p.w {
      ApproachKeeps(s, t, Trying(p.s));
    } else {
      ReserveKeeps(s, t, p.s);
    }
  }

  /** What a compare-and-swap that sees the loaded write index unchanged relies on. */
  lemma CasReady(s: State, t: nat)
    requires Inv(s) && Thread(s, t).SawBoth? && s.write - Thread(s, t).w < WORD
    ensures Word(s.write) == Word(Thread(s, t).w) <==> s.write == Thread(s, t).w
    ensures Shape(s) && ProducerOk(s, Trying(Thread(s, t).s))
    ensures !LooksFull(Thread(s, t).w, Thread(s, t).r, s.size) && s.write == Thread(s, t).w ==>
      s.write < s.read + s.size
  {
    hide Slot, SlotsOk, Owned, DeliveredOk, DropsOk, ConsumerOk;
    var p := Thread(s, t);
    assert ProducerOk(s, p);
    WordsDistinct(s.write, p.w);
    if p.r <= p.w {
      if p.w - p.r < WORD { NearMod(p.w - p.r, WORD); }
    }
  }

  /**
   * The slot a producer fills is shared with no other reservation between the
   * published read index and the write index.
   */
  lemma OwnSlot(s: State, t: nat, i: nat)
    requires Inv(s) && Thread(s, t).InFlight()
    requires s.read <= i < s.read + s.size && i != Thread(s, t).w
    ensures |s.delivered| <= Thread(s, t).w < s.write
    ensures Slot(i, s.size) != Slot(Thread(s, t).w, s.size)
  {
    hide Slot;
    assert ProducerOk(s, Thread(s, t));
    SlotsDistinct(s.size);
  }

  /** The state after a producer stored c in its slot. */
  function Filling(s: State, t: nat, p: Producer, c: Cell): State
    requires s.size > 0 && |s.buf| == s.size && p.InFlight()
  {
    Put(s, t, p).(buf := s.buf[Slot(p.w, s.size) := c])
  }

  lemma FillProducers(s: State, t: nat, p: Producer, c: Cell)
    requires Inv(s) && Thread(s, t).InFlight() && p.InFlight()
    requires p.s == Thread(s, t).s && p.w == Thread(s, t).w && (p.Filled? ==> c == Whole(p.s))
    ensures Shape(Filling(s, t, p, c)) && ProducersOk(Filling(s, t, p, c))
  {
    hide Slot, SlotsOk, Owned, DeliveredOk, DropsOk, ConsumerOk;
    var s' := Filling(s, t, p, c);
    assert ProducerOk(s, Thread(s, t));
    forall u | u in s'.producers
      ensures ProducerOk(s', s'.producers[u])
    {
      if u != t {
        assert ProducerOk(s, s.producers[u]);
        assert !s.producers[t].InFlight() || !s.producers[u].Owns(s.producers[t].w);
        if s.producers[u].Filled? { FilledApart(s, t, u); }
      }
    }
  }

  /** Two slots being filled are different. */
  lemma FilledApart(s: State, t: nat, u: nat)
    requires Inv(s) && t != u && Thread(s, t).InFlight() && Thread(s, u).InFlight()
    ensures Slot(Thread(s, u).w, s.size) != Slot(Thread(s, t).w, s.size)
  {
    hide Slot, SlotsOk, Owned, DropsOk, ConsumerOk;
    assert ProducerOk(s, Thread(s, t)) && ProducerOk(s, Thread(s, u));
    assert !s.producers[u].Owns(s.producers[t].w);
    WindowOf(s, t);
    WindowOf(s, u);
    SlotsDistinct(s.size);
  }

  /** A slot being filled lies in the current lap. */
  lemma WindowOf(s: State, t: nat)
    requires Inv(s) && Thread(s, t).InFlight()
    ensures s.read <= |s.delivered| <= Thread(s, t).w < s.write <= s.read + s.size
  {
    hide Slot, SlotsOk, Owned, DropsOk;
    assert ProducerOk(s, Thread(s, t));
  }

  lemma FillSlots(s: State, t: nat, p: Producer, c: Cell)
    requires Inv(s) && Thread(s, t).InFlight() && p.InFlight() && p.w == Thread(s, t).w
    ensures Shape(Filling(s, t, p, c)) && SlotsOk(Filling(s, t, p, c))
  {
    hide Slot, Owned, DropsOk, ProducersOk;
    assert ProducerOk(s, Thread(s, t)) by { InFlightOk(s, t); }
    WindowOf(s, t);
    SlotsDistinct(s.size);
  }

  lemma InFlightOk(s: State, t: nat)
    requires Inv(s) && Thread(s, t).InFlight()
    ensures ProducerOk(s, Thread(s, t))
  {
    hide Slot, SlotsOk, Owned, DropsOk, ConsumerOk, DeliveredOk;
  }

  /** Filling a slot, in two halves so that a torn copy would be visible. */
  lemma FillKeeps(s: State, t: nat, p: Producer, c: Cell)
    requires Inv(s) && Thread(s, t).InFlight() && p.InFlight()
    requires p.s == Thread(s, t).s && p.w == Thread(s, t).w
    requires p.Filled? ==> c == Whole(p.s)
    ensures Inv(Put(s, t, p).(buf := s.buf[Slot(p.w, s.size) := c]))
  {
    hide Slot, SlotsOk, ProducersOk, DropsOk;
    var s' := Filling(s, t, p, c);
    FillProducers(s, t, p, c);
    FillSlots(s, t, p, c);
    forall i | 0 <= i < s'.write && i !in s'.published
      ensures exists u :: u in s'.producers && s'.producers[u].Owns(i)
    {
      var u :| u in s.producers && s.producers[u].Owns(i);
      assert u in s'.producers && s'.producers[u].Owns(i);
    }
    SameDrops(s, s');
  }

  lemma SameDrops(s: State, s': State)
    requires DropsOk(s) && s'.dropped == s.dropped && s'.harvested == s.harvested && s'.refused == s.refused
    ensures DropsOk(s')
  {
  }

  lemma CommitSlots(s: State, t: nat)
    requires Inv(s) && Enabled(s, Commit(t))
    ensures Shape(Do(s, Commit(t))) && SlotsOk(Do(s, Commit(t)))
  {
    hide Slot, Word, Sub32;
    var p := Thread(s, t);
    assert ProducerOk(s, p);
    SlotsDistinct(s.size);
  }

  lemma CommitKeeps(s: State, t: nat)
    requires Inv(s) && Enabled(s, Commit(t))
    ensures Inv(Do(s, Commit(t)))
  {
    hide Slot, Word, Sub32, SlotsOk;
    CommitSlots(s, t);
    var s' := Do(s, Commit(t));
    var p := Thread(s, t);
    assert ProducerOk(s, p);
    forall u | u in s'.producers
      ensures ProducerOk(s', s'.producers[u])
    {
      if u != t {
        assert ProducerOk(s, s.producers[u]);
        assert !s.producers[u].Owns(p.w);
      }
    }
    forall i | 0 <= i < s'.write && i !in s'.published
      ensures exists u :: u in s'.producers && s'.producers[u].Owns(i)
    {
      var u :| u in s.producers && s.producers[u].Owns(i);
      assert u in s'.producers && s'.producers[u].Owns(i);
    }
  }

  lemma DrainTestKeeps(s: State)
    requires Inv(s) && Enabled(s, DrainTest)
    ensures Inv(Do(s, DrainTest))
  {
    hide Slot;
    var c := s.consumer;
    WordsDistinct(c.r, c.w);
    var s' := Do(s, DrainTest);
    assert SlotsOk(s') && Owned(s') && ProducersOk(s');
  }

  lemma DrainCopyKeeps(s: State)
    requires Inv(s) && Enabled(s, DrainCopy)
    ensures Inv(Do(s, DrainCopy))
  {
    hide Slot, Word, Sub32;
    var s' := Do(s, DrainCopy);
    assert s'.delivered[s'.read..] == s.delivered[s.read..] + [s.buf[Slot(s.consumer.r, s.size)]];
    assert SlotsOk(s') && Owned(s');
    forall u | u in s'.producers
      ensures ProducerOk(s', s'.producers[u])
    {
      assert ProducerOk(s, s.producers[u]);
    }
  }

  lemma DrainClearKeeps(s: State)
    requires Inv(s) && Enabled(s, DrainClear)
    ensures Inv(Do(s, DrainClear))
  {
    hide Slot, Word, Sub32;
    var s' := Do(s, DrainClear);
    SlotsDistinct(s.size);
    assert SlotsOk(s') && Owned(s');
    forall u | u in s'.producers
      ensures ProducerOk(s', s'.producers[u])
    {
      assert ProducerOk(s, s.producers[u]);
    }
  }

  /** Publishing the read index opens the slots of [read, r) for the next lap. */
  lemma DrainPublishKeeps(s: State)
    requires Inv(s) && Enabled(s, DrainPublish)
    ensures Inv(Do(s, DrainPublish))
  {
    hide Slot, Word, Sub32;
    var s' := Do(s, DrainPublish);
    forall i: nat | s'.read <= i < s'.read + s'.size
      ensures s'.committed[Slot(i, s'.size)] <==> i in s'.published && i >= Cleared(s')
    {
      if i >= s.read + s.size {
        SlotLap(i - s.size, s.size);
        assert !(i in s.published);
      }
    }
    forall u | u in s'.producers
      ensures ProducerOk(s', s'.producers[u])
    {
      assert ProducerOk(s, s.producers[u]);
    }
    assert Owned(s');
  }

  lemma SlotLap(i: nat, size: nat)
    requires GoodSize(size)
    ensures Slot(i + size, size) == Slot(i, size)
  {
    SlotIsMod(i, size);
    SlotIsMod(i + size, size);
    ModShift(i, size, 1);
  }

  lemma StepKeeps(s: State, step: Step)
    requires Inv(s) && Enabled(s, step)
    ensures Inv(Do(s, step))
  {
    hide Inv, Slot, Word, Sub32;
    match step
    case Call(t, x) => ApproachStep(s, step);
    case LoadWrite(t) => ApproachStep(s, step);
    case LoadRead(t) => ApproachStep(s, step);
    case Refuse(t) => RefuseKeeps(s, t);
    case Cas(t, spurious) => CasKeeps(s, t, spurious);
    case BeginFill(t) => FillKeeps(s, t, Writing(Thread(s, t).s, Thread(s, t).w), Torn);
    case EndFill(t) => FillKeeps(s, t, Filled(Thread(s, t).s, Thread(s, t).w), Whole(Thread(s, t).s));
    case Commit(t) => CommitKeeps(s, t);
    case DrainLoadRead(_) => DrainEntryKeeps(s, step);
    case DrainLoadWrite => DrainEntryKeeps(s, step);
    case DrainTest => DrainTestKeeps(s);
    case DrainCopy => DrainCopyKeeps(s);
    case DrainClear => DrainClearKeeps(s);
    case DrainPublish => DrainPublishKeeps(s);
    case Harvest => DrainEntryKeeps(s, step);
  }

  lemma ApproachStep(s: State, step: Step)
    requires Inv(s) && Enabled(s, step) && (step.Call? || step.LoadWrite? || step.LoadRead?)
    ensures Inv(Do(s, step))
  {
    hide Slot, Word, Sub32;
    var p := Thread(s, step.t);
    assert ProducerOk(s, p);
    match step
    case Call(t, x) => ApproachKeeps(s, t, Trying(x));
    case LoadWrite(t) => ApproachKeeps(s, t, SawWrite(p.s, s.write));
    case LoadRead(t) => ApproachKeeps(s, t, SawBoth(p.s, p.w, s.read));
  }

  lemma DrainEntryKeeps(s: State, step: Step)
    requires Inv(s) && Enabled(s, step) && (step.DrainLoadRead? || step.DrainLoadWrite? || step.Harvest?)
    ensures Inv(Do(s, step))
  {
    hide Slot, Sub32;
    var s' := Do(s, step);
    assert SlotsOk(s') && Owned(s') && ProducersOk(s');
  }

  // ------------------------------------------------------------ whole runs

  predicate ValidRun(s: State, steps: seq<Step>)
    decreases |steps|
  {
    steps == [] || (Enabled(s, steps[0]) && ValidRun(Do(s, steps[0]), steps[1..]))
  }

  function Exec(s: State, steps: seq<Step>): State
    requires ValidRun(s, steps)
    decreases |steps|
  {
    if steps == [] then s else Exec(Do(s, steps[0]), steps[1..])
  }

  lemma {:induction false} RunKeeps(s: State, steps: seq<Step>)
    requires Inv(s) && ValidRun(s, steps)
    ensures Inv(Exec(s, steps))
    decreases |steps|
  {
    hide Inv, Do, Enabled;
    if steps == [] {
    } else {
      StepKeeps(s, steps[0]);
      RunKeeps(Do(s, steps[0]), steps[1..]);
    }
  }

  lemma InitOk(size: nat)
    requires GoodSize(size)
    ensures Inv(Init(size))
  {
  }

  /** Reservations committed in the ring and not yet copied out. */
  function Waiting(s: State): set<nat>
    requires s.size > 0 && |s.committed| == s.size
  {
    set i: nat | |s.delivered| <= i < s.write && s.committed[Slot(i, s.size)]
  }

  lemma {:induction false} CountBelow(p: set<nat>, n: nat)
    requires forall i: nat :: i < n ==> i in p
    ensures |p| == n + |set i | i in p && i >= n|
  {
    var rest := set i | i in p && i >= n;
    if n == 0 {
      assert rest == p;
    } else {
      CountBelow(p, n - 1);
      assert (set i | i in p && i >= n - 1) == rest + {n - 1};
    }
  }

  lemma WaitingArePublished(s: State)
    requires Inv(s)
    ensures Waiting(s) == set i | i in s.published && i >= |s.delivered|
  {
    hide Slot, Word, Sub32;
    forall i: nat | |s.delivered| <= i < s.write
      ensures s.committed[Slot(i, s.size)] <==> i in s.published
    {
    }
  }

  /**
   * Every interleaving: what has been delivered is exactly the first k
   * reservations, in order, each whole and each delivered only after the push
   * that made it had finished.
   */
  lemma DeliveryIsReservationOrder(size: nat, steps: seq<Step>)
    requires GoodSize(size) && ValidRun(Init(size), steps)
    ensures
      var s := Exec(Init(size), steps);
      && |s.delivered| <= |s.reserved|
      && forall i :: 0 <= i < |s.delivered| ==> s.delivered[i] == Whole(s.reserved[i]) && i in s.published
  {
    hide Slot, Word, Sub32, Exec, ValidRun, Init;
    InitOk(size);
    RunKeeps(Init(size), steps);
  }

  /**
   * Every interleaving: the indices stay within one lap, no two producers at
   * work share a physical slot, and a slot being filled is not one the consumer
   * has still to release.
   */
  lemma NoSlotShared(size: nat, steps: seq<Step>)
    requires GoodSize(size) && ValidRun(Init(size), steps)
    ensures
      var s := Exec(Init(size), steps);
      && s.size == size
      && s.read <= |s.delivered| <= s.write <= s.read + size
      && (forall t :: t in s.producers && s.producers[t].InFlight() ==> |s.delivered| <= s.producers[t].w < s.write)
      && (forall t, u ::
            t in s.producers && u in s.producers && t != u &&
            s.producers[t].InFlight() && s.producers[u].InFlight() ==>
            Slot(s.producers[t].w, size) != Slot(s.producers[u].w, size))
      && (forall t, i: nat :: t in s.producers && s.producers[t].InFlight() && s.read <= i < |s.delivered| ==>
            Slot(i, size) != Slot(s.producers[t].w, size))
  {
    hide Slot, Word, Sub32, Exec, ValidRun, Init;
    InitOk(size);
    RunKeeps(Init(size), steps);
    var s := Exec(Init(size), steps);
    SizeFixed(Init(size), steps);
    assert Init(size).size == size by { InitSize(size); }
    forall t | t in s.producers && s.producers[t].InFlight()
      ensures |s.delivered| <= s.producers[t].w < s.write
      ensures forall i: nat :: s.read <= i < |s.delivered| ==> Slot(i, size) != Slot(s.producers[t].w, size)
    {
      assert ProducerOk(s, s.producers[t]);
      forall i: nat | s.read <= i < |s.delivered|
        ensures Slot(i, size) != Slot(s.producers[t].w, size)
      {
        OwnSlot(s, t, i);
      }
    }
    forall t, u |
      t in s.producers && u in s.producers && t != u &&
      s.producers[t].InFlight() && s.producers[u].InFlight()
      ensures Slot(s.producers[t].w, size) != Slot(s.producers[u].w, size)
    {
      assert !s.producers[u].Owns(s.producers[t].w);
      OwnSlot(s, t, s.producers[u].w);
    }
  }

  lemma InitSize(size: nat)
    ensures Init(size).size == size
  {
  }

  lemma {:induction false} SizeFixed(s: State, steps: seq<Step>)
    requires ValidRun(s, steps)
    ensures Exec(s, steps).size == s.size
    decreases |steps|
  {
    if steps == [] {
    } else {
      SizeFixed(Do(s, steps[0]), steps[1..]);
    }
  }

  /**
   * Every interleaving: each finished push is accounted for. Those that returned
   * true are delivered or committed in the ring, those that returned false are in
   * the live counter or already harvested, up to the wrap of the 32-bit counter.
   */
  lemma PushesConserved(size: nat, steps: seq<Step>)
    requires GoodSize(size) && ValidRun(Init(size), steps)
    ensures
      var s := Exec(Init(size), steps);
      && |s.committed| == s.size > 0
      && |s.published| == |s.delivered| + |Waiting(s)| == AllCommits(steps)
      && s.refused == AllRefusals(steps)
      && s.dropped + s.harvested <= s.refused
      && (s.refused - (s.dropped + s.harvested)) % WORD == 0
      && (s.refused < WORD ==> s.refused == s.dropped + s.harvested)
  {
    hide Slot, Word, Sub32, Exec, ValidRun, Init;
    InitOk(size);
    RunKeeps(Init(size), steps);
    OutcomesCounted(size, steps);
    var s := Exec(Init(size), steps);
    WaitingArePublished(s);
    CountBelow(s.published, |s.delivered|);
  }

  /** What one drain hands out is the next stretch of reservations, and it is published by the same drain. */
  lemma DrainReturnsNextStretch(s: State)
    requires Inv(s) && s.consumer.Leaving?
    ensures
      var s' := Do(s, DrainPublish);
      && s'.read == s.read + |s.consumer.out|
      && s'.read <= |s.reserved|
      && forall i :: 0 <= i < |s.consumer.out| ==> s.consumer.out[i] == Whole(s.reserved[s.read + i])
  {
    hide Slot, Word, Sub32;
    var out := s.consumer.out;
    forall i | 0 <= i < |out|
      ensures out[i] == Whole(s.reserved[s.read + i])
    {
      assert out[i] == s.delivered[s.read + i];
    }
  }

  // ------------------------------------------------- drops without a full ring

  lemma {:induction false} RunExtends(s: State, steps: seq<Step>, step: Step)
    requires ValidRun(s, steps) && Enabled(Exec(s, steps), step)
    ensures ValidRun(s, steps + [step]) && Exec(s, steps + [step]) == Do(Exec(s, steps), step)
    decreases |steps|
  {
    hide Do, Enabled;
    if steps == [] {
    } else {
      RunExtends(Do(s, steps[0]), steps[1..], step);
      assert (steps + [step])[1..] == steps[1..] + [step];
    }
  }

  ghost predicate Reachable(size: nat, s: State)
  {
    exists steps :: ValidRun(Init(size), steps) && Exec(Init(size), steps) == s
  }

  lemma ReachStep(size: nat, s: State, step: Step) returns (s': State)
    requires Reachable(size, s) && Enabled(s, step)
    ensures s' == Do(s, step) && Reachable(size, s')
  {
    hide Do, Enabled;
    var steps :| ValidRun(Init(size), steps) && Exec(Init(size), steps) == s;
    RunExtends(Init(size), steps, step);
    s' := Do(s, step);
  }

  lemma ReachInit(size: nat)
    ensures Reachable(size, Init(size))
  {
    assert ValidRun(Init(size), []) && Exec(Init(size), []) == Init(size);
  }

  /** Thread 0 holds write index 0 while thread 1 reserves a slot of a four-slot ring. */
  lemma StalledAfterReserve(x: Sample) returns (s: State)
    ensures Reachable(4, s)
    ensures s == State(4, [Torn, Torn, Torn, Torn], [false, false, false, false], 1, 0, 0,
                       map[0 := SawWrite(x, 0), 1 := Reserved(x, 0)], Resting, [x], [], {}, 0, 0)
  {
    hide Reachable;
    ReachInit(4);
    s := Init(4);
    s := ReachStep(4, s, Call(0, x));
    s := ReachStep(4, s, LoadWrite(0));
    s := ReachStep(4, s, Call(1, x));
    s := ReachStep(4, s, LoadWrite(1));
    s := ReachStep(4, s, LoadRead(1));
    s := ReachStep(4, s, Cas(1, false));
  }

  /** Thread 1 then finishes its push. */
  lemma StalledAfterPush(x: Sample) returns (s: State)
    ensures Reachable(4, s)
    ensures s == State(4, [Whole(x), Torn, Torn, Torn], [true, false, false, false], 1, 0, 0,
                       map[0 := SawWrite(x, 0), 1 := Outside], Resting, [x], [], {0}, 0, 0)
  {
    hide Reachable;
    s := StalledAfterReserve(x);
    s := ReachStep(4, s, BeginFill(1));
    s := ReachStep(4, s, EndFill(1));
    s := ReachStep(4, s, Commit(1));
  }

  /**
   * The header promises that only a genuinely full ring drops. It does not hold:
   * thread 0 loads the write index, thread 1 pushes, the consumer drains, and
   * thread 0 then loads a read index beyond its write index and refuses its
   * sample although the ring is empty.
   */
  lemma RefusesOnEmptyRing(x: Sample) returns (s: State)
    ensures Reachable(4, s) && Enabled(s, Refuse(0))
    ensures s.write == s.read == |s.delivered| == 1
  {
    hide Reachable;
    s := StalledAfterPush(x);
    s := ReachStep(4, s, DrainLoadRead(8));
    s := ReachStep(4, s, DrainLoadWrite);
    s := ReachStep(4, s, DrainTest);
    s := ReachStep(4, s, DrainCopy);
    s := ReachStep(4, s, DrainClear);
    s := ReachStep(4, s, DrainTest);
    s := ReachStep(4, s, DrainPublish);
    s := ReachStep(4, s, LoadRead(0));
  }

  /**
   * When a refusal is genuine. In every reachable state, a producer holding w and
   * r (the read index not a whole index range ahead) is refused if and only if
   * the ring was full at w, or the consumer published past w between its two loads.
   */
  lemma RefusalMeans(s: State, t: nat)
    requires Inv(s) && Thread(s, t).SawBoth? && Thread(s, t).r <= Thread(s, t).w + WORD - s.size
    ensures Enabled(s, Refuse(t)) <==> Thread(s, t).w == Thread(s, t).r + s.size || Thread(s, t).w < Thread(s, t).r
  {
    hide Slot;
    assert ProducerOk(s, Thread(s, t));
    LooksFullMeans(Thread(s, t).w, Thread(s, t).r, s.size);
  }

  /** A run is its first steps and then its last one. */
  lemma {:induction false} RunSplits(s: State, steps: seq<Step>)
    requires steps != [] && ValidRun(s, steps)
    ensures
      var n := |steps| - 1;
      && ValidRun(s, steps[..n]) && Enabled(Exec(s, steps[..n]), steps[n])
      && Exec(s, steps) == Do(Exec(s, steps[..n]), steps[n])
    decreases |steps|
  {
    hide Do, Enabled;
    var n := |steps| - 1;
    if n == 0 {
      assert steps[..0] == [] && steps[1..] == [];
    } else {
      RunSplits(Do(s, steps[0]), steps[1..]);
      assert steps[1..][..n - 1] == steps[..n][1..] && steps[1..][n - 1] == steps[n];
    }
  }

  /** Only loading the read index makes a producer hold both. */
  lemma HoldsBothFrom(s: State, step: Step, t: nat)
    requires Enabled(s, step) && Thread(Do(s, step), t).SawBoth?
    ensures if step == LoadRead(t) then
              Thread(Do(s, step), t) == SawBoth(Thread(s, t).s, Thread(s, t).w, s.read)
            else Thread(s, t) == Thread(Do(s, step), t)
  {
    hide Slot, Word, Sub32;
  }

  /** The state in which a producer that holds both indices loaded the read index. */
  lemma {:induction false} ReadLoadedIn(size: nat, steps: seq<Step>, t: nat) returns (k: nat)
    requires GoodSize(size) && ValidRun(Init(size), steps) && Thread(Exec(Init(size), steps), t).SawBoth?
    ensures k < |steps| && ValidRun(Init(size), steps[..k])
    ensures
      var p, q := Exec(Init(size), steps[..k]), Thread(Exec(Init(size), steps), t);
      Thread(p, t) == SawWrite(q.s, q.w) && p.read == q.r
    decreases |steps|
  {
    hide Do, Enabled, Thread;
    NobodyYet(size, t);
    if steps == [] {
      assert false;
    } else {
      var n := |steps| - 1;
      RunSplits(Init(size), steps);
      var s := Exec(Init(size), steps[..n]);
      HoldsBothFrom(s, steps[n], t);
      if steps[n] == LoadRead(t) {
        k := n;
        LoadReadFrom(s, t);
      } else {
        k := ReadLoadedIn(size, steps[..n], t);
        assert steps[..n][..k] == steps[..k];
      }
    }
  }

  lemma NobodyYet(size: nat, t: nat)
    ensures Thread(Init(size), t) == Outside
  {
  }

  lemma LoadReadFrom(s: State, t: nat)
    requires Enabled(s, LoadRead(t))
    ensures Thread(s, t) == SawWrite(Thread(s, t).s, Thread(s, t).w)
  {
  }

  /**
   * Every interleaving: when a push is refused, either the ring was genuinely full
   * in the state in which it loaded the read index, or the consumer had by then
   * released the slot the push was after, and more.
   */
  lemma RefusedWhenFullOrPassed(size: nat, steps: seq<Step>, t: nat) returns (k: nat)
    requires GoodSize(size) && ValidRun(Init(size), steps) && Enabled(Exec(Init(size), steps), Refuse(t))
    requires
      var q := Thread(Exec(Init(size), steps), t);
      q.r <= q.w + WORD - size
    ensures k < |steps| && ValidRun(Init(size), steps[..k])
    ensures
      var p, q := Exec(Init(size), steps[..k]), Thread(Exec(Init(size), steps), t);
      p.read == q.r && (p.write == p.read + size || q.w < q.r)
  {
    hide Exec, ValidRun, Do, Inv;
    k := ReadLoadedIn(size, steps, t);
    InitOk(size);
    RunKeeps(Init(size), steps);
    RunKeeps(Init(size), steps[..k]);
    InitSize(size);
    SizeFixed(Init(size), steps);
    SizeFixed(Init(size), steps[..k]);
    RefusalMeans(Exec(Init(size), steps), t);
    WriteBounds(Exec(Init(size), steps[..k]), t);
  }

  lemma WriteBounds(s: State, t: nat)
    requires Inv(s) && Thread(s, t).SawWrite?
    ensures Thread(s, t).w <= s.write <= s.read + s.size
  {
    hide Slot;
    assert ProducerOk(s, Thread(s, t));
  }

  // ---------------------------------------------------------- every call is answered

  /** How many pushes thread t has begun. */
  function Calls(steps: seq<Step>, t: nat): nat
  {
    if steps == [] then 0
    else
      var last := steps[|steps| - 1];
      Calls(steps[..|steps| - 1], t) + if last.Call? && last.t == t then 1 else 0
  }

  /** How many of them returned true, and how many false. */
  function Commits(steps: seq<Step>, t: nat): nat
  {
    if steps == [] then 0
    else Commits(steps[..|steps| - 1], t) + if steps[|steps| - 1] == Commit(t) then 1 else 0
  }

  function Refusals(steps: seq<Step>, t: nat): nat
  {
    if steps == [] then 0
    else Refusals(steps[..|steps| - 1], t) + if steps[|steps| - 1] == Refuse(t) then 1 else 0
  }

  /** The sample of t's latest push. */
  function LastCall(steps: seq<Step>, t: nat): Sample
  {
    if steps == [] then Sample(0, 0, 0, 0, [])
    else
      var last := steps[|steps| - 1];
      if last.Call? && last.t == t then last.s else LastCall(steps[..|steps| - 1], t)
  }

  /** One step takes a thread in, takes it out, or leaves it inside with the sample it came with. */
  lemma StepAnswers(s: State, step: Step, t: nat)
    requires Enabled(s, step)
    ensures
      var p, q := Thread(s, t), Thread(Do(s, step), t);
      if step.Call? && step.t == t then p.Outside? && !q.Outside? && q.s == step.s
      else if step == Commit(t) || step == Refuse(t) then !p.Outside? && q.Outside?
      else (p.Outside? <==> q.Outside?) && (!p.Outside? ==> q.s == p.s)
  {
    hide Slot, Word, Sub32;
  }

  /**
   * Every interleaving: each push that was begun has returned true or false, or is
   * still inside with the sample it was called with. None is lost on the way.
   */
  lemma {:induction false} EveryCallAnswered(size: nat, steps: seq<Step>, t: nat)
    requires ValidRun(Init(size), steps)
    ensures
      var p := Thread(Exec(Init(size), steps), t);
      && Calls(steps, t) == Commits(steps, t) + Refusals(steps, t) + (if p.Outside? then 0 else 1)
      && (!p.Outside? ==> p.s == LastCall(steps, t))
    decreases |steps|
  {
    hide Do, Enabled, Thread;
    if steps == [] {
      NobodyYet(size, t);
    } else {
      var n := |steps| - 1;
      RunSplits(Init(size), steps);
      EveryCallAnswered(size, steps[..n], t);
      StepAnswers(Exec(Init(size), steps[..n]), steps[n], t);
    }
  }

  /** Pushes of all threads that returned true, and that returned false. */
  function AllCommits(steps: seq<Step>): nat
  {
    if steps == [] then 0
    else AllCommits(steps[..|steps| - 1]) + if steps[|steps| - 1].Commit? then 1 else 0
  }

  function AllRefusals(steps: seq<Step>): nat
  {
    if steps == [] then 0
    else AllRefusals(steps[..|steps| - 1]) + if steps[|steps| - 1].Refuse? then 1 else 0
  }

  lemma StepCounts(s: State, step: Step)
    requires Inv(s) && Enabled(s, step)
    ensures |Do(s, step).published| == |s.published| + if step.Commit? then 1 else 0
    ensures Do(s, step).refused == s.refused + if step.Refuse? then 1 else 0
  {
    hide Slot, Word, SlotsOk, DropsOk, Owned;
    if step.Commit? { assert ProducerOk(s, Thread(s, step.t)); }
  }

  /** Every interleaving: the published reservations are as many as the pushes that returned true, and so for false. */
  lemma {:induction false} OutcomesCounted(size: nat, steps: seq<Step>)
    requires GoodSize(size) && ValidRun(Init(size), steps)
    ensures |Exec(Init(size), steps).published| == AllCommits(steps)
    ensures Exec(Init(size), steps).refused == AllRefusals(steps)
    decreases |steps|
  {
    hide Do, Enabled, Inv;
    if steps == [] {
    } else {
      var n := |steps| - 1;
      RunSplits(Init(size), steps);
      OutcomesCounted(size, steps[..n]);
      InitOk(size);
      RunKeeps(Init(size), steps[..n]);
      StepCounts(Exec(Init(size), steps[..n]), steps[n]);
    }
  }

  /** Pushes that returned false since the drop count was last read. */
  function RefusalsSince(steps: seq<Step>): nat
  {
    if steps == [] then 0
    else
      var last, before := steps[|steps| - 1], steps[..|steps| - 1];
      if last.Harvest? then 0 else RefusalsSince(before) + if last.Refuse? then 1 else 0
  }

  /** Every interleaving: reading the drop count is always possible and gives the refusals since the last reading. */
  lemma {:induction false} HarvestReturns(size: nat, steps: seq<Step>)
    requires GoodSize(size) && ValidRun(Init(size), steps)
    ensures Enabled(Exec(Init(size), steps), Harvest)
    ensures Exec(Init(size), steps).dropped == RefusalsSince(steps) % WORD
    decreases |steps|
  {
    hide Do, Enabled, Inv;
    InitOk(size);
    RunKeeps(Init(size), steps);
    CanHarvest(Exec(Init(size), steps));
    if steps == [] {
    } else {
      var n := |steps| - 1;
      RunSplits(Init(size), steps);
      HarvestReturns(size, steps[..n]);
      StepDrops(Exec(Init(size), steps[..n]), steps[n]);
      if steps[n].Refuse? { ModAddLeft(RefusalsSince(steps[..n])); }
    }
  }

  lemma CanHarvest(s: State)
    requires Inv(s)
    ensures Enabled(s, Harvest)
  {
  }

  lemma StepDrops(s: State, step: Step)
    requires Enabled(s, step)
    ensures Do(s, step).dropped ==
            if step.Harvest? then 0 else if step.Refuse? then (s.dropped + 1) % WORD else s.dropped
  {
    hide Slot;
  }

  lemma ModAddLeft(n: nat)
    ensures (n % WORD + 1) % WORD == (n + 1) % WORD
  {
    ModShift(n % WORD + 1, WORD, n / WORD);
  }

  /**
   * Every interleaving: a push about to return true has reserved, filled and is about
   * to publish a reservation of its own that holds the sample it was called with.
   */
  lemma CommitsOwnSample(size: nat, steps: seq<Step>, t: nat)
    requires GoodSize(size) && ValidRun(Init(size), steps) && Enabled(Exec(Init(size), steps), Commit(t))
    ensures
      var s := Exec(Init(size), steps);
      var w := Thread(s, t).w;
      && w < |s.reserved| && s.reserved[w] == LastCall(steps, t) && w !in s.published
      && s.buf[Slot(w, s.size)] == Whole(LastCall(steps, t))
  {
    hide Exec, ValidRun, Slot, SlotsOk, Owned, DropsOk;
    EveryCallAnswered(size, steps, t);
    InitOk(size);
    RunKeeps(Init(size), steps);
    assert ProducerOk(Exec(Init(size), steps), Thread(Exec(Init(size), steps), t));
  }

  /** Run alone, a push reserves the next slot if there is one free, and is refused if the ring is full. */
  lemma SoloPush(s: State, t: nat, x: Sample)
    requires Inv(s) && Thread(s, t).Outside?
    ensures Enabled(s, Call(t, x))
    ensures
      var s1 := Do(s, Call(t, x));
      Enabled(s1, LoadWrite(t)) && Enabled(Do(s1, LoadWrite(t)), LoadRead(t))
    ensures
      var s3 := Do(Do(Do(s, Call(t, x)), LoadWrite(t)), LoadRead(t));
      if s.write < s.read + s.size then
        && !Enabled(s3, Refuse(t)) && Enabled(s3, Cas(t, false))
        && Thread(Do(s3, Cas(t, false)), t) == Reserved(x, s.write) && Do(s3, Cas(t, false)).write == s.write + 1
      else Enabled(s3, Refuse(t)) && !Enabled(s3, Cas(t, false))
  {
    hide Slot, SlotsOk, Owned, DeliveredOk, DropsOk, ConsumerOk, ProducersOk;
    NearMod(s.write - s.read, WORD);
  }

  /**
   * A drain that has copied up to r goes on if and only if it has not reached the
   * write index it loaded, its limit allows one more, and the next push has returned.
   */
  lemma DrainStopsIff(s: State)
    requires Inv(s) && Enabled(s, DrainTest)
    ensures
      var c := s.consumer;
      var next := Do(s, DrainTest).consumer;
      && (next.Leaving? <==> c.r == c.w || |c.out| >= c.max % WORD || c.r !in s.published)
      && (!next.Leaving? ==> next == SawCommit(c.max, c.r, c.w, c.out))
  {
    hide Slot, Owned, DropsOk, ProducersOk;
    var c := s.consumer;
    WordsDistinct(c.r, c.w);
  }

  /** How many reservations from i on are published without a gap, up to a limit. */
  function Ready(published: set<nat>, write: nat, i: nat, limit: nat): (n: nat)
    requires i <= write
    ensures n <= limit && i + n <= write && forall k :: i <= k < i + n ==> k in published
    ensures n == limit || i + n == write || i + n !in published
    decreases limit
  {
    if limit == 0 || i == write || i !in published then 0 else 1 + Ready(published, write, i + 1, limit - 1)
  }

  lemma RunHead(s: State, x: Step, rest: seq<Step>)
    requires Enabled(s, x) && ValidRun(Do(s, x), rest)
    ensures ValidRun(s, [x] + rest) && Exec(s, [x] + rest) == Exec(Do(s, x), rest)
  {
    hide Do, Enabled;
    assert ([x] + rest)[1..] == rest;
  }

  /** What a step of the consumer leaves alone. */
  predicate SameProducers(s: State, e: State)
  {
    e.published == s.published && e.write == s.write && e.reserved == s.reserved && e.producers == s.producers
  }

  /** One round of the drain loop: the next published sample is copied and its commit byte cleared. */
  lemma DrainRound(s: State)
    requires Inv(s) && Enabled(s, DrainTest) && !Do(s, DrainTest).consumer.Leaving?
    ensures
      var s1 := Do(s, DrainTest);
      && Enabled(s1, DrainCopy) && Enabled(Do(s1, DrainCopy), DrainClear)
      && var e := Do(Do(s1, DrainCopy), DrainClear);
      && Inv(e) && SameProducers(s, e)
      && e.consumer.Scanning? && e.consumer.max == s.consumer.max && e.consumer.w == s.consumer.w
      && e.consumer.r == s.consumer.r + 1 && |e.consumer.out| == |s.consumer.out| + 1
  {
    hide Inv, Slot, Word;
    var s1 := Do(s, DrainTest);
    StepKeeps(s, DrainTest);
    StepKeeps(s1, DrainCopy);
    StepKeeps(Do(s1, DrainCopy), DrainClear);
  }

  /** The rest of a drain that runs without interference. */
  lemma {:induction false} DrainRest(s: State) returns (steps: seq<Step>)
    requires Inv(s) && s.consumer.Scanning? && s.consumer.w == s.write
    ensures s.consumer.r <= s.write && |s.consumer.out| <= s.consumer.max % WORD && ValidRun(s, steps)
    ensures
      var e, c := Exec(s, steps), s.consumer;
      && SameProducers(s, e) && e.consumer.Resting?
      && e.read == c.r + Ready(s.published, s.write, c.r, c.max % WORD - |c.out|)
    decreases s.write - s.consumer.r
  {
    assert s.consumer.r <= s.write && |s.consumer.out| <= s.consumer.max % WORD by {
      hide Slot, Owned, SlotsOk, DeliveredOk, DropsOk, ProducersOk;
    }
    DrainStopsIff(s);
    hide Inv, ValidRun, Exec, Slot, Word;
    var s1 := Do(s, DrainTest);
    if s1.consumer.Leaving? {
      NoSteps(Do(s1, DrainPublish));
      RunHead(s1, DrainPublish, []);
      steps := [DrainPublish];
      assert [DrainPublish] + [] == steps;
    } else {
      DrainRound(s);
      var s2 := Do(s1, DrainCopy);
      var rest := DrainRest(Do(s2, DrainClear));
      RunHead(s2, DrainClear, rest);
      RunHead(s1, DrainCopy, [DrainClear] + rest);
      steps := [DrainCopy] + ([DrainClear] + rest);
    }
    RunHead(s, DrainTest, steps);
    steps := [DrainTest] + steps;
  }

  lemma NoSteps(s: State)
    ensures ValidRun(s, []) && Exec(s, []) == s
  {
  }

  /**
   * Run without interference, a drain hands over every published sample up to the first
   * gap, the write index or its limit, whichever comes first: each whole, in reservation
   * order, following on what was handed over before. It leaves the producers' side alone.
   */
  lemma SoloDrain(s: State, max: nat) returns (steps: seq<Step>)
    requires Inv(s) && s.consumer.Resting?
    ensures s.read <= s.write && ValidRun(s, steps)
    ensures
      var e := Exec(s, steps);
      && SameProducers(s, e) && e.consumer.Resting?
      && e.read == s.read + Ready(s.published, s.write, s.read, max % WORD) <= |e.reserved|
      && e.delivered == Wholes(s.reserved[..e.read])
  {
    assert s.read <= s.write by {
      hide Slot, Owned, SlotsOk, DeliveredOk, DropsOk, ProducersOk;
    }
    hide Inv, ValidRun, Exec, Slot, Word;
    var s1 := Do(s, DrainLoadRead(max));
    var s2 := Do(s1, DrainLoadWrite);
    StepKeeps(s, DrainLoadRead(max));
    StepKeeps(s1, DrainLoadWrite);
    steps := DrainRest(s2);
    RunKeeps(s2, steps);
    RestingDelivered(Exec(s2, steps));
    RunHead(s1, DrainLoadWrite, steps);
    RunHead(s, DrainLoadRead(max), [DrainLoadWrite] + steps);
    steps := [DrainLoadRead(max)] + ([DrainLoadWrite] + steps);
  }

  function Wholes(xs: seq<Sample>): seq<Cell> { seq(|xs|, i requires 0 <= i < |xs| => Whole(xs[i])) }

  lemma RestingDelivered(s: State)
    requires Inv(s) && s.consumer.Resting?
    ensures s.read <= |s.reserved| && s.delivered == Wholes(s.reserved[..s.read])
  {
    hide Slot, Owned, SlotsOk, DropsOk, ProducersOk;
  }
}
