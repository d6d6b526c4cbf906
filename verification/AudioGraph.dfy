/**
 * The audio graph of backends/common/ove_audio_graph.c: connecting nodes,
 * building the execution order, the formats and the buffers, and running a cycle.
 * The node callbacks are parameters: `configure` and `process` may answer anything.
 */
module AudioGraph {
  import opened Arith
  import opened Common
  import opened TopoSort

  /** OVE_AUDIO_GRAPH_MAX_EDGES */
  const MAX_EDGES: nat := 16

  datatype Status = Ok | InvalidParam | NotSupported | QueueFull | NoMemory | Callback(code: int)

  datatype Kind = Source | Processor | Sink

  datatype SampleFmt = S16 | S32 | F32 | Other

  datatype Fmt = Fmt(rate: nat, channels: nat, sample: SampleFmt)

  datatype Node = Node(kind: Kind, fmt: Fmt)

  datatype Phase = Idle | Ready | Running

  /** What a node's `configure` answers. */
  datatype Configured = Configured(code: Status, fmt: Fmt)

  /** What a node's `process` answers: success, and the bytes it left in its output buffer. */
  datatype Processed = Processed(ok: bool, bytes: seq<Byte>)

  /** One call of a node's `process`. */
  datatype Call = Call(node: nat, input: Option<seq<Byte>>)

  function SampleSize(f: SampleFmt): nat
  {
    match f
    case S16 => 2
    case S32 => 4
    case F32 => 4
    case Other => 0
  }

  /** `buf_byte_size`: a product in `uint64_t`. */
  function ByteSize(f: Fmt, frames: nat): nat
  {
    (frames * f.channels * SampleSize(f.sample)) % DWORD
  }

  /** `find_upstream`: the source of the first edge into v, or -1. */
  function Upstream(es: seq<Edge>, v: nat): (u: int)
    ensures u >= 0 ==> Edge(u, v) in es
    ensures u < 0 ==> forall e :: e in es ==> e.to != v
  {
    if es == [] then -1 else if es[0].to == v then es[0].from else Upstream(es[1..], v)
  }

  method FindUpstream(es: seq<Edge>, v: nat) returns (u: int)
    ensures u == Upstream(es, v)
  {
    for i := 0 to |es|
      invariant Upstream(es, v) == Upstream(es[i..], v)
    {
      if es[i].to == v { return es[i].from; }
    }
    u := -1;
  }

  /** At most one edge into each node. */
  predicate SingleInput(es: seq<Edge>)
  {
    forall i, j :: 0 <= i < j < |es| ==> es[i].to != es[j].to
  }

  /** The rules `connect` enforces on every edge. */
  predicate EdgeAllowed(nodes: seq<Node>, e: Edge)
  {
    && e.from < |nodes| && e.to < |nodes| && e.from != e.to
    && nodes[e.from].kind != Sink && nodes[e.to].kind != Source
  }

  predicate EdgesAllowed(nodes: seq<Node>, es: seq<Edge>)
  {
    SingleInput(es) && forall e :: e in es ==> EdgeAllowed(nodes, e)
  }

  // -------------------------------------------------------------------- buffers

  /** Bytes a node's output buffer takes; sinks have none. */
  function Room(node: Node, frames: nat): nat
  {
    if node.kind == Sink then 0 else ByteSize(node.fmt, frames)
  }

  /** Where the buffer of node i starts: after those of the nodes before it. */
  function Offset(nodes: seq<Node>, frames: nat, i: nat): nat
    requires i <= |nodes|
  {
    if i == 0 then 0 else Offset(nodes, frames, i - 1) + Room(nodes[i - 1], frames)
  }

  lemma {:induction false} OffsetsAscend(nodes: seq<Node>, frames: nat, i: nat, j: nat)
    requires i < j <= |nodes|
    ensures Offset(nodes, frames, i) + Room(nodes[i], frames) <= Offset(nodes, frames, j)
    decreases j - i
  {
    if i + 1 == j {
    } else {
      OffsetsAscend(nodes, frames, i, j - 1);
    }
  }

  /** The buffers of different nodes are disjoint and inside the first `total` bytes. */
  lemma BuffersDisjoint(nodes: seq<Node>, frames: nat, i: nat, j: nat)
    requires i < |nodes| && j < |nodes| && i != j
    ensures
      || Offset(nodes, frames, i) + Room(nodes[i], frames) <= Offset(nodes, frames, j)
      || Offset(nodes, frames, j) + Room(nodes[j], frames) <= Offset(nodes, frames, i)
    ensures Offset(nodes, frames, i) + Room(nodes[i], frames) <= Offset(nodes, frames, |nodes|)
  {
    OffsetsAscend(nodes, frames, if i < j then i else j, if i < j then j else i);
    OffsetsAscend(nodes, frames, i, |nodes|);
  }

  /**
   * The 64-bit size is the true period size exactly when the product of frames,
   * channels and sample size is below 2^64.
   */
  lemma ByteSizeExactIff(f: Fmt, frames: nat)
    ensures
      var bytesPerSample := if f.sample == S16 then 2 else if f.sample == S32 || f.sample == F32 then 4 else 0;
      ByteSize(f, frames) == frames * f.channels * bytesPerSample <==> frames * f.channels * bytesPerSample < DWORD
  {
  }

  /** Two 32-bit factors and a four-byte sample can reach 2^64: a period that large is given no room at all. */
  lemma ByteSizeCanWrap()
    ensures
      var f := Fmt(48000, 0x8000_0000, F32);
      f.channels < WORD && 0x8000_0000 < WORD && ByteSize(f, 0x8000_0000) == 0
  {
  }

  // ----------------------------------------------------------------- one cycle

  /** What `build` leaves fixed for every later cycle. */
  datatype Plan = Plan(nodes: seq<Node>, edges: seq<Edge>, frames: nat, order: seq<nat>)
  {
    function Total(): nat { Offset(nodes, frames, |nodes|) }

    predicate Usable(size: nat)
    {
      && EdgesAllowed(nodes, edges) && Topological(|nodes|, edges, order)
      && Total() <= size
    }
  }

  /** The bytes of node i's output buffer inside the storage. */
  function Buf(p: Plan, st: seq<Byte>, i: nat): seq<Byte>
    requires p.Usable(|st|) && i < |p.nodes|
  {
    OffsetsAscend(p.nodes, p.frames, i, |p.nodes|);
    var off := Offset(p.nodes, p.frames, i);
    st[off..off + Room(p.nodes[i], p.frames)]
  }

  /** What node i is handed: the buffer of its upstream node, if it has one. */
  function Input(p: Plan, st: seq<Byte>, i: nat): Option<seq<Byte>>
    requires p.Usable(|st|) && i < |p.nodes|
  {
    var u := Upstream(p.edges, i);
    if p.nodes[i].kind != Source && u >= 0 then Some(Buf(p, st, u)) else None
  }

  /** A callback writes within its buffer: the first n bytes of what it offers. */
  function Fit(bytes: seq<Byte>, n: nat): (r: seq<Byte>)
    ensures |r| == n
  {
    seq(n, i requires 0 <= i < n => if i < |bytes| then bytes[i] else 0)
  }

  /** The buffer after node i ran: its bytes, or zeros when it failed. */
  function Result(p: Plan, i: nat, r: Processed): (b: seq<Byte>)
    requires i < |p.nodes|
    ensures |b| == Room(p.nodes[i], p.frames)
  {
    Fit(if r.ok then r.bytes else [], Room(p.nodes[i], p.frames))
  }

  /** Writing node i's buffer replaces that buffer and no other. */
  lemma SpliceBuf(p: Plan, st: seq<Byte>, i: nat, bytes: seq<Byte>, j: nat)
    requires p.Usable(|st|) && i < |p.nodes| && j < |p.nodes| && |bytes| == Room(p.nodes[i], p.frames)
    ensures Offset(p.nodes, p.frames, i) + |bytes| <= |st|
    ensures Buf(p, Splice(st, Offset(p.nodes, p.frames, i), bytes), j) == if j == i then bytes else Buf(p, st, j)
  {
    hide Room, Offset, Topological, EdgesAllowed;
    OffsetsAscend(p.nodes, p.frames, i, |p.nodes|);
    OffsetsAscend(p.nodes, p.frames, j, |p.nodes|);
    if j != i { BuffersDisjoint(p.nodes, p.frames, i, j); }
  }

  /** The upstream of the j-th node to run has run before it. */
  lemma UpstreamRanBefore(p: Plan, size: nat, j: nat)
    requires p.Usable(size) && j < |p.order|
    ensures p.order[j] < |p.nodes|
    ensures
      var u := Upstream(p.edges, p.order[j]);
      u >= 0 ==> u in p.order[..j] && u < |p.nodes| && p.nodes[u].kind != Sink
  {
    var v := p.order[j];
    var u := Upstream(p.edges, v);
    if u >= 0 {
      assert Edge(u, v) in p.edges;
      assert EdgeAllowed(p.nodes, Edge(u, v));
    }
  }

  /** After i nodes have run: what each was given and what each left, all as the storage stands now. */
  ghost predicate RanSoFar(p: Plan, st: seq<Byte>, process: (nat, Option<seq<Byte>>) -> Processed, log: seq<Call>)
    requires p.Usable(|st|)
  {
    && |log| <= |p.order|
    && forall j :: 0 <= j < |log| ==> RanAt(p, st, process, log, j)
  }

  ghost predicate RanAt(p: Plan, st: seq<Byte>, process: (nat, Option<seq<Byte>>) -> Processed, log: seq<Call>, j: nat)
    requires p.Usable(|st|) && j < |log| <= |p.order|
  {
    var v := p.order[j];
    && log[j] == Call(v, Input(p, st, v))
    && (p.nodes[v].kind != Sink ==> Buf(p, st, v) == Result(p, v, process(v, Input(p, st, v))))
  }

  /** What node v is handed does not depend on the buffer of a node that has not run before it. */
  lemma InputUntouched(p: Plan, st: seq<Byte>, j: nat, i: nat, bytes: seq<Byte>)
    requires p.Usable(|st|) && j <= i < |p.order| && p.order[i] < |p.nodes| &&
      |bytes| == Room(p.nodes[p.order[i]], p.frames)
    ensures p.order[j] < |p.nodes| && Offset(p.nodes, p.frames, p.order[i]) + |bytes| <= |st|
    ensures Input(p, Splice(st, Offset(p.nodes, p.frames, p.order[i]), bytes), p.order[j]) == Input(p, st, p.order[j])
  {
    hide Room, Offset, Upstream, Buf, Splice;
    UpstreamRanBefore(p, |st|, j);
    SpliceBuf(p, st, p.order[i], bytes, p.order[i]);
    var u := Upstream(p.edges, p.order[j]);
    if u >= 0 {
      var k :| 0 <= k < j && p.order[k] == u;
      SpliceBuf(p, st, p.order[i], bytes, u);
    }
  }

  /** Running the next node keeps the record true of the new storage. */
  lemma RunNext(p: Plan, st: seq<Byte>, process: (nat, Option<seq<Byte>>) -> Processed, log: seq<Call>)
    requires p.Usable(|st|) && RanSoFar(p, st, process, log) && |log| < |p.order|
    ensures p.order[|log|] < |p.nodes|
    ensures
      var v := p.order[|log|];
      var input := Input(p, st, v);
      var bytes := Result(p, v, process(v, input));
      && Offset(p.nodes, p.frames, v) + |bytes| <= |st|
      && RanSoFar(p, Splice(st, Offset(p.nodes, p.frames, v), bytes), process, log + [Call(v, input)])
  {
    hide Room, Offset, Upstream, Buf, Splice, Input, Result;
    var i := |log|;
    UpstreamRanBefore(p, |st|, i);
    var v := p.order[i];
    var input := Input(p, st, v);
    var bytes := Result(p, v, process(v, input));
    SpliceBuf(p, st, v, bytes, v);
    var st' := Splice(st, Offset(p.nodes, p.frames, v), bytes);
    var log' := log + [Call(v, input)];
    forall j | 0 <= j < |log'| ensures RanAt(p, st', process, log', j) {
      InputUntouched(p, st, j, i, bytes);
      if j < i {
        assert RanAt(p, st, process, log, j);
        SpliceBuf(p, st, v, bytes, p.order[j]);
      }
    }
  }

  lemma NoRoomForSink(p: Plan, st: seq<Byte>, v: nat)
    requires p.Usable(|st|) && v < |p.nodes| && p.nodes[v].kind == Sink
    ensures Offset(p.nodes, p.frames, v) <= |st|
    ensures forall r :: Splice(st, Offset(p.nodes, p.frames, v), Result(p, v, r)) == st
  {
    OffsetsAscend(p.nodes, p.frames, v, |p.nodes|);
  }

  /** The equations of one cycle: every buffer is its node's answer to its upstream's buffer. */
  ghost predicate Dataflow(p: Plan, st: seq<Byte>, process: (nat, Option<seq<Byte>>) -> Processed)
    requires p.Usable(|st|)
  {
    forall v :: 0 <= v < |p.nodes| && p.nodes[v].kind != Sink ==>
      Buf(p, st, v) == Result(p, v, process(v, Input(p, st, v)))
  }

  /**
   * What a cycle leaves, byte by byte: in the buffer of every node that is no sink,
   * the bytes of its answer, zeros behind them, and zeros all over if it failed.
   */
  ghost predicate BytesLeft(p: Plan, st: seq<Byte>, process: (nat, Option<seq<Byte>>) -> Processed)
    requires p.Usable(|st|)
  {
    forall v, k ::
      0 <= v < |p.nodes| && p.nodes[v].kind != Sink && 0 <= k < ByteSize(p.nodes[v].fmt, p.frames) ==>
      ByteLeft(p, st, process, v, k)
  }

  ghost predicate ByteLeft(
    p: Plan, st: seq<Byte>, process: (nat, Option<seq<Byte>>) -> Processed, v: nat, k: nat)
    requires p.Usable(|st|) && v < |p.nodes|
  {
    var r := process(v, Input(p, st, v));
    && Offset(p.nodes, p.frames, v) + k < |st|
    && st[Offset(p.nodes, p.frames, v) + k] == if r.ok && k < |r.bytes| then r.bytes[k] else 0
  }

  lemma DataflowBytes(p: Plan, st: seq<Byte>, process: (nat, Option<seq<Byte>>) -> Processed)
    requires p.Usable(|st|) && Dataflow(p, st, process)
    ensures BytesLeft(p, st, process)
  {
    hide Offset, Input, Upstream, EdgesAllowed, Topological, ByteSize, Dataflow, ByteLeft;
    forall v, k | 0 <= v < |p.nodes| && p.nodes[v].kind != Sink && 0 <= k < ByteSize(p.nodes[v].fmt, p.frames)
      ensures ByteLeft(p, st, process, v, k)
    {
      BufferByte(p, st, process, v, k);
    }
  }

  lemma BufferByte(p: Plan, st: seq<Byte>, process: (nat, Option<seq<Byte>>) -> Processed, v: nat, k: nat)
    requires p.Usable(|st|) && Dataflow(p, st, process)
    requires v < |p.nodes| && p.nodes[v].kind != Sink && k < ByteSize(p.nodes[v].fmt, p.frames)
    ensures ByteLeft(p, st, process, v, k)
  {
    hide Offset, Input, Upstream, EdgesAllowed, Topological, ByteSize;
    OffsetsAscend(p.nodes, p.frames, v, |p.nodes|);
    var off := Offset(p.nodes, p.frames, v);
    assert Buf(p, st, v)[k] == st[off + k];
  }

  /** What every node is handed: the whole buffer at the other end of its edge, or nothing if there is none. */
  ghost predicate Wired(p: Plan, st: seq<Byte>)
    requires p.Usable(|st|)
  {
    && (forall e :: e in p.edges ==>
          && e.from < |p.nodes| && e.to < |p.nodes|
          && Offset(p.nodes, p.frames, e.from) + ByteSize(p.nodes[e.from].fmt, p.frames) <= |st|
          && Input(p, st, e.to)
             == Some(st[Offset(p.nodes, p.frames, e.from)..
                        Offset(p.nodes, p.frames, e.from) + ByteSize(p.nodes[e.from].fmt, p.frames)]))
    && (forall v :: 0 <= v < |p.nodes| && (forall e :: e in p.edges ==> e.to != v) ==> Input(p, st, v) == None)
  }

  /** With one edge into a node at most, the first one found is the one there is. */
  lemma UpstreamOf(nodes: seq<Node>, es: seq<Edge>, e: Edge)
    requires EdgesAllowed(nodes, es) && e in es
    ensures Upstream(es, e.to) == e.from && EdgeAllowed(nodes, e)
  {
    hide Upstream;
    var u := Upstream(es, e.to);
    if u >= 0 {
      var i :| 0 <= i < |es| && es[i] == e;
      var j :| 0 <= j < |es| && es[j] == Edge(u, e.to);
      assert es[i].to == es[j].to;
    }
  }

  lemma InputsWired(p: Plan, st: seq<Byte>)
    requires p.Usable(|st|)
    ensures Wired(p, st)
  {
    hide Offset, Upstream, Topological, ByteSize;
    forall e | e in p.edges
      ensures e.from < |p.nodes| && e.to < |p.nodes|
      ensures Offset(p.nodes, p.frames, e.from) + ByteSize(p.nodes[e.from].fmt, p.frames) <= |st|
      ensures Input(p, st, e.to)
              == Some(st[Offset(p.nodes, p.frames, e.from)..
                         Offset(p.nodes, p.frames, e.from) + ByteSize(p.nodes[e.from].fmt, p.frames)])
    {
      UpstreamOf(p.nodes, p.edges, e);
      OffsetsAscend(p.nodes, p.frames, e.from, |p.nodes|);
    }
  }

  /** How many of the calls failed. */
  function Failures(process: (nat, Option<seq<Byte>>) -> Processed, log: seq<Call>): nat
  {
    if log == [] then 0
    else
      var last := log[|log| - 1];
      Failures(process, log[..|log| - 1]) + if process(last.node, last.input).ok then 0 else 1
  }

  lemma FailuresStep(process: (nat, Option<seq<Byte>>) -> Processed, log: seq<Call>, c: Call, n: nat)
    ensures ((n + Failures(process, log)) % WORD + if process(c.node, c.input).ok then 0 else 1) % WORD
            == (n + Failures(process, log + [c])) % WORD
  {
    assert (log + [c])[..|log|] == log;
    var x := n + Failures(process, log);
    ModShift(x % WORD + 1, WORD, x / WORD);
    ModShift(x % WORD, WORD, x / WORD);
  }

  lemma OrderBelow(p: Plan, size: nat)
    requires p.Usable(size)
    ensures forall j :: 0 <= j < |p.order| ==> p.order[j] < |p.nodes|
  {
  }

  lemma NoFailures(process: (nat, Option<seq<Byte>>) -> Processed)
    ensures Failures(process, []) == 0
  {
  }

  lemma KeptBelow(x: nat)
    ensures x % WORD % WORD == x % WORD
  {
    NearMod(x % WORD, WORD);
  }

  lemma RecordSays(
    p: Plan, st: seq<Byte>, process: (nat, Option<seq<Byte>>) -> Processed, log: seq<Call>, j: nat)
    requires p.Usable(|st|) && RanSoFar(p, st, process, log) && j < |log|
    ensures log[j] == Call(p.order[j], Input(p, st, p.order[j]))
  {
    assert RanAt(p, st, process, log, j);
  }

  /** The j-th node to run left the same output in both. */
  ghost predicate SameAt(p: Plan, a: seq<Byte>, b: seq<Byte>, j: nat)
    requires p.Usable(|a|) && p.Usable(|b|) && j < |p.order|
  {
    p.order[j] < |p.nodes| && (p.nodes[p.order[j]].kind != Sink ==> Buf(p, a, p.order[j]) == Buf(p, b, p.order[j]))
  }

  lemma SameInput(p: Plan, a: seq<Byte>, b: seq<Byte>, k: nat)
    requires p.Usable(|a|) && p.Usable(|b|) && k < |p.order| && forall j :: 0 <= j < k ==> SameAt(p, a, b, j)
    ensures p.order[k] < |p.nodes| && Input(p, a, p.order[k]) == Input(p, b, p.order[k])
  {
    hide Room, Offset, Upstream, Buf, EdgesAllowed, FedFromEarlier, Distinct;
    UpstreamRanBefore(p, |a|, k);
    var u := Upstream(p.edges, p.order[k]);
    if u >= 0 {
      var j :| 0 <= j < k && p.order[j] == u;
      assert SameAt(p, a, b, j);
    }
  }

  lemma {:induction false} SameThrough(p: Plan, a: seq<Byte>, b: seq<Byte>,
      process: (nat, Option<seq<Byte>>) -> Processed, k: nat)
    requires p.Usable(|a|) && p.Usable(|b|) && Dataflow(p, a, process) && Dataflow(p, b, process) && k <= |p.order|
    ensures forall j :: 0 <= j < k ==> SameAt(p, a, b, j)
  {
    hide Room, Offset, Input, Buf, Result, EdgesAllowed, FedFromEarlier, Distinct;
    if k == 0 {
    } else {
      SameThrough(p, a, b, process, k - 1);
      SameInput(p, a, b, k - 1);
    }
  }

  /** The equations have one solution, so they say what every buffer holds. */
  lemma DataflowUnique(p: Plan, a: seq<Byte>, b: seq<Byte>, process: (nat, Option<seq<Byte>>) -> Processed)
    requires p.Usable(|a|) && p.Usable(|b|) && Dataflow(p, a, process) && Dataflow(p, b, process)
    ensures forall v :: 0 <= v < |p.nodes| && p.nodes[v].kind != Sink ==> Buf(p, a, v) == Buf(p, b, v)
  {
    hide Room, Offset, Input, Buf, Result, EdgesAllowed, FedFromEarlier, Dataflow;
    SameThrough(p, a, b, process, |p.order|);
    DistinctFits(p.order, |p.nodes|);
    forall v | 0 <= v < |p.nodes| && p.nodes[v].kind != Sink ensures Buf(p, a, v) == Buf(p, b, v) {
      assert v in p.order;
      var j :| 0 <= j < |p.order| && p.order[j] == v;
      assert SameAt(p, a, b, j);
    }
  }

  /** Every node has run, so the record of the cycle is the equations. */
  lemma CycleComplete(p: Plan, st: seq<Byte>, process: (nat, Option<seq<Byte>>) -> Processed, log: seq<Call>)
    requires p.Usable(|st|) && RanSoFar(p, st, process, log) && |log| == |p.order|
    ensures Dataflow(p, st, process)
  {
    hide Room, Offset, Upstream, Buf, Result, Input;
    DistinctFits(p.order, |p.nodes|);
    forall v | 0 <= v < |p.nodes| && p.nodes[v].kind != Sink
      ensures Buf(p, st, v) == Result(p, v, process(v, Input(p, st, v)))
    {
      assert v in p.order;
      var j :| 0 <= j < |p.order| && p.order[j] == v;
      assert RanAt(p, st, process, log, j);
    }
  }

  // ------------------------------------------------------------------- formats

  function InFmt(nodes: seq<Node>, es: seq<Edge>, i: nat): Option<Fmt>
    requires i < |nodes| && InRange(|nodes|, es)
  {
    var u := Upstream(es, i);
    if nodes[i].kind != Source && u >= 0 then Some(nodes[u].fmt) else None
  }

  /** Node i is configured against the present format of its upstream. */
  ghost predicate FormatFollows(nodes: seq<Node>, es: seq<Edge>, configure: (nat, Option<Fmt>) -> Configured, i: nat)
    requires i < |nodes| && InRange(|nodes|, es)
  {
    var c := configure(i, InFmt(nodes, es, i));
    c.code == Ok && (nodes[i].kind != Sink ==> nodes[i].fmt == c.fmt)
  }

  /** What a node is configured with: the format at the other end of its edge, or none. */
  lemma ConfiguredWith(nodes: seq<Node>, es: seq<Edge>)
    requires EdgesAllowed(nodes, es) && InRange(|nodes|, es)
    ensures forall e :: e in es ==> InFmt(nodes, es, e.to) == Some(nodes[e.from].fmt)
    ensures forall v :: 0 <= v < |nodes| && (forall e :: e in es ==> e.to != v) ==> InFmt(nodes, es, v) == None
  {
    hide Upstream;
    forall e | e in es ensures InFmt(nodes, es, e.to) == Some(nodes[e.from].fmt) { UpstreamOf(nodes, es, e); }
  }

  predicate SameShape(a: seq<Node>, b: seq<Node>)
  {
    |a| == |b| && forall i :: 0 <= i < |a| ==> a[i].kind == b[i].kind
  }

  /** Non-sink nodes have a usable format. */
  predicate FormatsUsable(nodes: seq<Node>)
  {
    forall i :: 0 <= i < |nodes| && nodes[i].kind != Sink ==> nodes[i].fmt.channels != 0 && nodes[i].fmt.rate != 0
  }

  /** Both ends of every edge between non-sinks run at one rate. */
  predicate RatesAgree(nodes: seq<Node>, es: seq<Edge>)
    requires InRange(|nodes|, es)
  {
    forall e :: e in es && nodes[e.to].kind != Sink ==> nodes[e.from].fmt.rate == nodes[e.to].fmt.rate
  }

  /** Hence every non-sink node reached from another runs at its rate. */
  lemma {:induction false} OneRateDownstream(nodes: seq<Node>, es: seq<Edge>, walk: seq<nat>)
    requires EdgesAllowed(nodes, es) && InRange(|nodes|, es) && RatesAgree(nodes, es)
    requires |walk| > 0 && IsWalk(es, walk) && walk[|walk| - 1] < |nodes| && nodes[walk[|walk| - 1]].kind != Sink
    ensures walk[0] < |nodes| && nodes[walk[0]].fmt.rate == nodes[walk[|walk| - 1]].fmt.rate
  {
    if |walk| == 1 {
    } else {
      var n := |walk| - 2;
      assert Edge(walk[n], walk[n + 1]) in es;
      assert EdgeAllowed(nodes, Edge(walk[n], walk[n + 1]));
      var front := walk[..n + 1];
      forall i | 0 <= i < |front| - 1 ensures Edge(front[i], front[i + 1]) in es {
        assert Edge(walk[i], walk[i + 1]) in es;
      }
      OneRateDownstream(nodes, es, front);
    }
  }

  /** Configuring the i-th node leaves the nodes before it configured. */
  lemma ConfigureNext(nodes: seq<Node>, es: seq<Edge>, order: seq<nat>, i: nat, fmt: Fmt,
      configure: (nat, Option<Fmt>) -> Configured, j: nat)
    requires InRange(|nodes|, es) && Topological(|nodes|, es, order) && j <= i < |order|
    ensures order[i] < |nodes| && order[j] < |nodes|
    ensures
      var nodes' := nodes[order[i] := nodes[order[i]].(fmt := fmt)];
      && InFmt(nodes', es, order[j]) == InFmt(nodes, es, order[j])
      && (j < i ==> (FormatFollows(nodes', es, configure, order[j]) <==> FormatFollows(nodes, es, configure, order[j])))
  {
    hide Upstream;
    var u := Upstream(es, order[j]);
    if u >= 0 {
      assert Edge(u, order[j]) in es;
      assert u in order[..j];
      var k :| 0 <= k < j && order[k] == u;
    }
  }

  /** `struct ove_audio_graph` */
  class Graph {
    /** Modulus of `size_t`. */
    const sizeMod: nat
    var nodes: seq<Node>
    var edges: seq<Edge>
    var order: seq<nat>
    var offsets: seq<nat>
    var storage: array<Byte>
    var callerBytes: nat  // buf_storage_size: 0 means the build allocates
    var frames: nat
    var phase: Phase
    var cycles: nat
    var nodeErrors: nat

    function ThePlan(): Plan
      reads this
    {
      Plan(nodes, edges, frames, order)
    }

    ghost predicate Valid()
      reads this, storage
    {
      && |nodes| <= MAX_NODES && |edges| <= MAX_EDGES && EdgesAllowed(nodes, edges)
      && callerBytes <= storage.Length && nodeErrors < WORD
      && (phase != Idle ==> Built())
    }

    /** The order, the formats and the buffer addresses are those of a finished build. */
    ghost predicate Built()
      reads this, storage
    {
      && ThePlan().Usable(storage.Length)
      && |offsets| == |nodes| && (forall i :: 0 <= i < |nodes| ==> offsets[i] == Offset(nodes, frames, i))
      && FormatsUsable(nodes) && InRange(|nodes|, edges) && RatesAgree(nodes, edges)
    }

    constructor (sizeMod: nat, frames: nat)
      requires frames > 0 && sizeMod > 0
      ensures Valid() && phase == Idle && nodes == [] && edges == [] && fresh(storage)
      ensures this.sizeMod == sizeMod && this.frames == frames
    {
      this.sizeMod := sizeMod;
      this.frames := frames;
      nodes, edges, order, offsets := [], [], [], [];
      storage := new Byte[0];
      callerBytes, phase, cycles, nodeErrors := 0, Idle, 0, 0;
    }

    /** `ove_audio_graph_add_node` */
    method AddNode(kind: Kind) returns (rc: Status, idx: nat)
      requires Valid()
      modifies this`nodes
      ensures Valid()
      ensures rc == Ok <==> old(phase) == Idle && |old(nodes)| < MAX_NODES
      ensures rc == Ok ==> idx == |old(nodes)| && nodes == old(nodes) + [Node(kind, Fmt(0, 0, S16))]
      ensures rc != Ok ==> nodes == old(nodes)
    {
      idx := 0;
      if phase != Idle { return NotSupported, 0; }
      if |nodes| >= MAX_NODES { return QueueFull, 0; }
      idx := |nodes|;
      nodes := nodes + [Node(kind, Fmt(0, 0, S16))];
      forall e | e in edges ensures EdgeAllowed(nodes, e) {
        assert EdgeAllowed(old(nodes), e);
      }
      rc := Ok;
    }

    /**
     * `ove_audio_graph_connect`: accepts exactly the edges that keep one input per
     * node, run out of non-sinks into non-sources and are not loops.
     */
    method Connect(from: nat, to: nat) returns (rc: Status)
      requires Valid()
      modifies this`edges
      ensures Valid()
      ensures rc == Ok <==>
        old(phase) == Idle && |old(edges)| < MAX_EDGES && EdgeAllowed(nodes, Edge(from, to)) &&
        forall e :: e in old(edges) ==> e.to != to
      ensures edges == if rc == Ok then old(edges) + [Edge(from, to)] else old(edges)
    {
      if phase != Idle { return NotSupported; }
      if from >= |nodes| || to >= |nodes| || from == to { return InvalidParam; }
      if |edges| >= MAX_EDGES { return QueueFull; }
      if nodes[from].kind == Sink { return InvalidParam; }
      if nodes[to].kind == Source { return InvalidParam; }
      for i := 0 to |edges|
        invariant forall j :: 0 <= j < i ==> edges[j].to != to
      {
        if edges[i].to == to {
          assert edges[i] in edges;
          return InvalidParam;
        }
      }
      edges := edges + [Edge(from, to)];
      rc := Ok;
    }

    /** Write a node's buffer. */
    method Write(off: nat, bytes: seq<Byte>)
      requires off + |bytes| <= storage.Length
      modifies storage
      ensures storage[..] == Splice(old(storage[..]), off, bytes)
    {
      for k := 0 to |bytes|
        invariant storage[..] == Splice(old(storage[..]), off, bytes[..k])
      {
        storage[off + k] := bytes[k];
        assert bytes[..k + 1] == bytes[..k] + [bytes[k]];
      }
      assert bytes[..|bytes|] == bytes;
    }

    /**
     * `ove_audio_graph_process`: each node runs exactly once, in order, on the
     * buffer its upstream filled in this cycle, and the buffers end as the
     * solution of the cycle's equations, a failed node's buffer being zero.
     */
    method Process(process: (nat, Option<seq<Byte>>) -> Processed) returns (rc: Status, log: seq<Call>)
      requires Valid()
      modifies storage, this`cycles, this`nodeErrors
      ensures Valid()
      ensures rc == Ok <==> phase != Idle
      ensures rc != Ok ==> storage[..] == old(storage[..]) && log == []
      ensures rc == Ok ==> ThePlan().Usable(storage.Length) && |log| == |order|
      ensures rc == Ok ==> Dataflow(ThePlan(), storage[..], process)
      ensures rc == Ok ==> BytesLeft(ThePlan(), storage[..], process) && Wired(ThePlan(), storage[..])
      ensures rc == Ok ==> cycles == (old(cycles) + 1) % WORD
      ensures rc == Ok ==> nodeErrors == (old(nodeErrors) + Failures(process, log)) % WORD
      ensures rc == Ok ==> forall j :: 0 <= j < |log| ==>
        log[j] == Call(order[j], Input(ThePlan(), storage[..], order[j]))
    {
      hide RanSoFar, BytesLeft, Wired, Dataflow, FormatsUsable, RatesAgree, Topological, EdgesAllowed, Offset, Input;
      log := [];
      if phase == Idle { return NotSupported, []; }
      ghost var p := ThePlan();
      log := RunAll(process);
      CycleComplete(p, storage[..], process, log);
      DataflowBytes(p, storage[..], process);
      InputsWired(p, storage[..]);
      OrderBelow(p, storage.Length);
      forall j | 0 <= j < |log| ensures log[j] == Call(order[j], Input(p, storage[..], order[j])) {
        RecordSays(p, storage[..], process, log, j);
      }
      cycles := (cycles + 1) % WORD;
      rc := Ok;
    }

    /** The loop over the nodes in order. */
    method RunAll(process: (nat, Option<seq<Byte>>) -> Processed) returns (log: seq<Call>)
      requires Built() && nodeErrors < WORD
      modifies storage, this`nodeErrors
      ensures Built() && |log| == |order| && RanSoFar(ThePlan(), storage[..], process, log)
      ensures nodeErrors == (old(nodeErrors) + Failures(process, log)) % WORD
    {
      hide RanAt, FormatsUsable, RatesAgree, Topological, EdgesAllowed, Offset, Input, Failures;
      log := [];
      ghost var n := nodeErrors;
      NearMod(n, WORD);
      NoFailures(process);
      for i := 0 to |order|
        invariant |log| == i && Built() && RanSoFar(ThePlan(), storage[..], process, log)
        invariant nodeErrors == (n + Failures(process, log)) % WORD
      {
        ghost var before := log;
        log := RunNode(process, log);
        FailuresStep(process, before, log[i], n);
        KeptBelow(n + Failures(process, before));
      }
    }

    /** The body of the cycle loop for the next node in order. */
    method RunNode(process: (nat, Option<seq<Byte>>) -> Processed, log0: seq<Call>) returns (log: seq<Call>)
      requires Built() && RanSoFar(ThePlan(), storage[..], process, log0) && |log0| < |order|
      modifies storage, this`nodeErrors
      ensures Built() && |log| == |log0| + 1 && log == log0 + [log[|log0|]]
      ensures RanSoFar(ThePlan(), storage[..], process, log)
      ensures
        var c := log[|log0|];
        nodeErrors == if process(c.node, c.input).ok then old(nodeErrors) else (old(nodeErrors) + 1) % WORD
    {
      hide RatesAgree, FormatsUsable, Topological, EdgesAllowed, Offset, RanAt, Splice, Fit;
      ghost var p, st := ThePlan(), storage[..];
      RunNext(p, st, process, log0);
      var idx := order[|log0|];
      UpstreamRanBefore(p, |st|, |log0|);
      var node := nodes[idx];
      var input: Option<seq<Byte>> := None;
      if node.kind != Source {
        var upstream := FindUpstream(edges, idx);
        if upstream >= 0 {
          OffsetsAscend(nodes, frames, upstream, |nodes|);
          input := Some(storage[offsets[upstream]..offsets[upstream] + Room(nodes[upstream], frames)]);
        }
      }
      assert input == Input(p, st, idx);
      var r := process(idx, input);
      if !r.ok { nodeErrors := (nodeErrors + 1) % WORD; }
      if node.kind != Sink {
        var bytes := Fit(if r.ok then r.bytes else [], ByteSize(node.fmt, frames));
        Write(offsets[idx], bytes);
      } else {
        NoRoomForSink(p, st, idx);
      }
      log := log0 + [Call(idx, input)];
    }

    /** The configure loop of `build`, along the execution order. */
    method Propagate(configure: (nat, Option<Fmt>) -> Configured) returns (rc: Status)
      requires EdgesAllowed(nodes, edges) && InRange(|nodes|, edges) && Topological(|nodes|, edges, order)
      modifies this`nodes
      ensures SameShape(nodes, old(nodes)) && InRange(|nodes|, edges)
      ensures rc == Ok <==> forall i :: 0 <= i < |nodes| ==> FormatFollows(nodes, edges, configure, i)
    {
      rc := Ok;
      for i := 0 to |order|
        invariant SameShape(nodes, old(nodes)) && InRange(|nodes|, edges)
        invariant forall j :: 0 <= j < i ==> FormatFollows(nodes, edges, configure, order[j])
      {
        var idx := order[i];
        var input: Option<Fmt> := None;
        if nodes[idx].kind != Source {
          var upstream := FindUpstream(edges, idx);
          if upstream >= 0 { input := Some(nodes[upstream].fmt); }
        }
        var c := configure(idx, input);
        ghost var before := nodes;
        if nodes[idx].kind != Sink {
          nodes := nodes[idx := nodes[idx].(fmt := c.fmt)];
          forall j | 0 <= j <= i ensures j < i ==> FormatFollows(nodes, edges, configure, order[j]) {
            ConfigureNext(before, edges, order, i, c.fmt, configure, j);
          }
          ConfigureNext(before, edges, order, i, c.fmt, configure, i);
        }
        if c.code != Ok {
          assert !FormatFollows(nodes, edges, configure, idx);
          return c.code;
        }
      }
      DistinctFits(order, |nodes|);
      forall i | 0 <= i < |nodes| ensures FormatFollows(nodes, edges, configure, i) {
        assert i in order;
        var j :| 0 <= j < |order| && order[j] == i;
      }
    }

    method CheckFormats() returns (ok: bool)
      ensures ok <==> FormatsUsable(nodes)
    {
      for i := 0 to |nodes|
        invariant forall j :: 0 <= j < i && nodes[j].kind != Sink ==>
          nodes[j].fmt.channels != 0 && nodes[j].fmt.rate != 0
      {
        if nodes[i].kind != Sink && (nodes[i].fmt.channels == 0 || nodes[i].fmt.rate == 0) { return false; }
      }
      ok := true;
    }

    method CheckRates() returns (ok: bool)
      requires InRange(|nodes|, edges)
      ensures ok <==> RatesAgree(nodes, edges)
    {
      for i := 0 to |edges|
        invariant forall j :: 0 <= j < i && nodes[edges[j].to].kind != Sink ==>
          nodes[edges[j].from].fmt.rate == nodes[edges[j].to].fmt.rate
      {
        assert edges[i] in edges;
        var from, to := nodes[edges[i].from], nodes[edges[i].to];
        if to.kind != Sink && from.fmt.rate != to.fmt.rate { return false; }
      }
      ok := true;
    }

    /** Lay the buffers one after another, refusing a total that `size_t` cannot hold. */
    method SizeBuffers() returns (ok: bool, total: nat, offs: seq<nat>)
      requires sizeMod > 0
      ensures ok <==> Offset(nodes, frames, |nodes|) < sizeMod
      ensures ok ==> total == Offset(nodes, frames, |nodes|)
      ensures ok ==> |offs| == |nodes| && forall i :: 0 <= i < |nodes| ==> offs[i] == Offset(nodes, frames, i)
    {
      hide ByteSize;
      total, offs := 0, [];
      for i := 0 to |nodes|
        invariant total == Offset(nodes, frames, i) < sizeMod && |offs| == i
        invariant forall j :: 0 <= j < i ==> offs[j] == Offset(nodes, frames, j)
      {
        offs := offs + [total];
        if nodes[i].kind != Sink {
          var bs := ByteSize(nodes[i].fmt, frames);
          if bs > sizeMod - 1 - total {
            OffsetsAscend(nodes, frames, i, |nodes|);
            return false, total, offs;
          }
          total := total + bs;
        }
      }
      ok := true;
    }

    /** Zero the first `total` bytes of the caller's storage. */
    method Clear(total: nat)
      requires total <= storage.Length
      modifies storage
      ensures forall k :: 0 <= k < total ==> storage[k] == 0
    {
      for i := 0 to total
        invariant forall k :: 0 <= k < i ==> storage[k] == 0
      {
        storage[i] := 0;
      }
    }

    /**
     * `ove_audio_graph_build`: succeeds exactly when the graph has no cycle, every
     * node accepts its upstream's format, the formats are usable, the rates agree
     * along every edge, and the buffers can be laid out in the storage available.
     * `heapGives` is whether the allocator would grant the buffer block.
     */
    method Build(configure: (nat, Option<Fmt>) -> Configured, heapGives: bool) returns (rc: Status)
      requires Valid() && sizeMod > 0
      modifies this, storage
      ensures Valid() && edges == old(edges) && SameShape(nodes, old(nodes)) && InRange(|nodes|, edges)
      ensures old(phase) == Idle && !Acyclic(edges) ==> rc == InvalidParam
      ensures rc == Ok <==>
        && old(phase) == Idle && Acyclic(edges)
        && (forall i :: 0 <= i < |nodes| ==> FormatFollows(nodes, edges, configure, i))
        && FormatsUsable(nodes) && RatesAgree(nodes, edges)
        && Offset(nodes, frames, |nodes|) < sizeMod
        && (Offset(nodes, frames, |nodes|) == 0 ||
            if callerBytes > 0 then Offset(nodes, frames, |nodes|) <= callerBytes else heapGives)
      ensures phase == if rc == Ok then Ready else old(phase)
      ensures rc == Ok ==> Topological(|nodes|, edges, order)
      ensures rc == Ok ==> Offset(nodes, frames, |nodes|) <= storage.Length
      ensures rc == Ok ==> forall k :: 0 <= k < Offset(nodes, frames, |nodes|) ==> storage[k] == 0
    {
      EdgesInRange(nodes, edges);
      if phase != Idle { return NotSupported; }
      var sorted;
      order, sorted := Sort(|nodes|, edges);
      if !sorted { return InvalidParam; }
      rc := Propagate(configure);
      ShapeKeepsEdges(old(nodes), nodes, edges);
      if rc != Ok { return; }
      var usable := CheckFormats();
      if !usable { return InvalidParam; }
      var agree := CheckRates();
      if !agree { return InvalidParam; }
      rc := Place(heapGives);
    }

    /** The last part of `build`: buffer addresses and storage. */
    method Place(heapGives: bool) returns (rc: Status)
      requires Valid() && sizeMod > 0 && phase == Idle
      requires Topological(|nodes|, edges, order) && InRange(|nodes|, edges) && FormatsUsable(nodes) &&
        RatesAgree(nodes, edges)
      modifies this`offsets, this`storage, this`phase, storage
      ensures Valid() && phase == if rc == Ok then Ready else Idle
      ensures rc == Ok || rc == NoMemory
      ensures rc == Ok <==>
        && Offset(nodes, frames, |nodes|) < sizeMod
        && (Offset(nodes, frames, |nodes|) == 0 ||
            if callerBytes > 0 then Offset(nodes, frames, |nodes|) <= callerBytes else heapGives)
      ensures rc == Ok ==> Offset(nodes, frames, |nodes|) <= storage.Length
      ensures rc == Ok ==> forall k :: 0 <= k < Offset(nodes, frames, |nodes|) ==> storage[k] == 0
    {
      hide Offset, Topological, EdgesAllowed, FormatsUsable, RatesAgree, InRange;
      var fits, total, offs := SizeBuffers();
      if !fits { return NoMemory; }
      if total > 0 {
        if callerBytes > 0 {
          if callerBytes < total { return NoMemory; }
          Clear(total);
        } else {
          if !heapGives { return NoMemory; }
          storage := new Byte[total](_ => 0);
        }
      }
      offsets := offs;
      phase := Ready;
      rc := Ok;
    }
  }

  lemma EdgesInRange(nodes: seq<Node>, es: seq<Edge>)
    requires EdgesAllowed(nodes, es)
    ensures InRange(|nodes|, es)
  {
    forall e | e in es ensures e.from < |nodes| && e.to < |nodes| {
      assert EdgeAllowed(nodes, e);
    }
  }

  lemma ShapeKeepsEdges(a: seq<Node>, b: seq<Node>, es: seq<Edge>)
    requires EdgesAllowed(a, es) && SameShape(a, b)
    ensures EdgesAllowed(b, es)
  {
    forall e | e in es ensures EdgeAllowed(b, e) {
      assert EdgeAllowed(a, e);
    }
  }
}
