/**
 * MQTT 3.1.1 framing in backends/common/ove_net_mqtt.c: the Remaining Length
 * field (section 2.2.3), building a PUBLISH, cutting a receive buffer into
 * packets, and parsing a PUBLISH back.
 */
module MqttFrame {
  import opened Common

  const PUBLISH: Byte := 0x30
  const MAX_REMAINING: int := 268435455

  // ----------------------------------------------------------- remaining length

  /** The bytes of a Remaining Length: seven bits each, low first, the top bit saying more follow. */
  function LenBytes(n: nat): (r: seq<Byte>)
    ensures |r| > 0
  {
    if n < 128 then [n] else [128 + n % 128] + LenBytes(n / 128)
  }

  datatype Decoded = Decoded(used: nat, value: nat)

  /** At most `left` more bytes of a Remaining Length. */
  function DecodeFrom(buf: seq<Byte>, left: nat): Option<Decoded>
  {
    if left == 0 || buf == [] then None
    else if buf[0] < 128 then Some(Decoded(1, buf[0]))
    else
      var rest := DecodeFrom(buf[1..], left - 1);
      if rest.None? then None else Some(Decoded(rest.value.used + 1, (buf[0] - 128) + 128 * rest.value.value))
  }

  /** `encode_remaining_length`, writing at `at`. */
  method EncodeRemainingLength(buf: array<Byte>, at: nat, len0: nat) returns (n: nat)
    requires at + |LenBytes(len0)| <= buf.Length
    modifies buf
    ensures n == |LenBytes(len0)| && buf[at..at + n] == LenBytes(len0)
    ensures forall i :: 0 <= i < buf.Length && !(at <= i < at + n) ==> buf[i] == old(buf[i])
  {
    hide LenBytes;
    var len := len0;
    n := 0;
    ghost var whole := LenBytes(len0);
    ghost var written: seq<Byte> := [];
    while true
      invariant |written| == n && written + LenBytes(len) == whole
      invariant forall i :: 0 <= i < n ==> buf[at + i] == written[i]
      invariant forall i :: 0 <= i < buf.Length && !(at <= i < at + n) ==> buf[i] == old(buf[i])
      decreases len
    {
      LenStep(len, written);
      var byte: Byte := len % 128;
      len := len / 128;
      if len > 0 { byte := byte + 128; }
      buf[at + n] := byte;
      n := n + 1;
      written := written + [byte];
      if len == 0 {
        assert buf[at..at + n] == written;
        return;
      }
    }
  }

  /** One byte of an encoded length behind those already written. */
  lemma LenStep(len: nat, written: seq<Byte>)
    ensures len / 128 == 0 ==> written + LenBytes(len) == written + [len % 128]
    ensures len / 128 > 0 ==> written + LenBytes(len) == (written + [len % 128 + 128]) + LenBytes(len / 128)
  {
  }

  /** `remaining_length_bytes` */
  method RemainingLengthBytes(len0: nat) returns (n: nat)
    ensures n == |LenBytes(len0)|
  {
    var len := len0;
    n := 1;
    while len >= 128
      invariant n - 1 + |LenBytes(len)| == |LenBytes(len0)|
      decreases len
    {
      len := len / 128;
      n := n + 1;
    }
  }

  /** `decode_remaining_length`: 0 bytes used means malformed. */
  method DecodeRemainingLength(buf: seq<Byte>) returns (used: nat, value: nat)
    ensures used == 0 <==> DecodeFrom(buf, 4).None?
    ensures used > 0 ==> DecodeFrom(buf, 4) == Some(Decoded(used, value))
  {
    hide Accounts, Times;
    value := 0;
    var multiplier: nat := 1;
    assert buf[0..] == buf;
    AccountsStart(buf);
    for i := 0 to 4
      invariant i <= |buf|
      invariant Accounts(buf, i, value, multiplier)
    {
      AccountsStep(buf, i, value, multiplier);
      if i >= |buf| { return 0, value; }
      var b := buf[i];
      Scaled(multiplier, Low(b));
      value := value + Low(b) * multiplier;
      if b < 128 { return i + 1, value; }
      multiplier := multiplier * 128;
    }
    AccountsEnd(buf, value, multiplier);
    used := 0;
  }

  /** After i bytes: the whole decodes to what is accumulated plus the weighted rest. */
  ghost predicate Accounts(buf: seq<Byte>, i: nat, value: nat, multiplier: nat)
    requires i <= |buf| && i <= 4
  {
    var rest := DecodeFrom(buf[i..], 4 - i);
    var all := DecodeFrom(buf, 4);
    if rest.None? then all.None?
    else all == Some(Decoded(rest.value.used + i, value + Times(multiplier, rest.value.value)))
  }

  function Times(a: nat, b: nat): nat { a * b }

  /** The seven value bits of a length byte. */
  function Low(b: Byte): nat { if b < 128 then b else b - 128 }

  lemma AccountsStart(buf: seq<Byte>)
    ensures Accounts(buf, 0, 0, 1)
  {
    assert buf[0..] == buf;
  }

  lemma AccountsStep(buf: seq<Byte>, i: nat, value: nat, multiplier: nat)
    requires i <= |buf| && i < 4 && Accounts(buf, i, value, multiplier)
    ensures i == |buf| ==> DecodeFrom(buf, 4).None?
    ensures i < |buf| && buf[i] < 128 ==>
      DecodeFrom(buf, 4) == Some(Decoded(i + 1, value + Times(multiplier, Low(buf[i]))))
    ensures i < |buf| && buf[i] >= 128 ==>
      Accounts(buf, i + 1, value + Times(multiplier, Low(buf[i])), multiplier * 128)
  {
    hide Times, DecodeFrom;
    DecodeHead(buf, i, 4 - i);
    if i < |buf| && buf[i] >= 128 {
      var tail := DecodeFrom(buf[i + 1..], 4 - i - 1);
      if tail.Some? { Distribute(multiplier, Low(buf[i]), tail.value.value); }
    }
  }

  /** What decoding at offset i makes of the byte there. */
  lemma DecodeHead(buf: seq<Byte>, i: nat, left: nat)
    requires i <= |buf| && left > 0
    ensures i == |buf| ==> DecodeFrom(buf[i..], left).None?
    ensures i < |buf| && buf[i] < 128 ==> DecodeFrom(buf[i..], left) == Some(Decoded(1, Low(buf[i])))
    ensures i < |buf| && buf[i] >= 128 ==>
              var tail := DecodeFrom(buf[i + 1..], left - 1);
              DecodeFrom(buf[i..], left) ==
              if tail.None? then None else Some(Decoded(tail.value.used + 1, Low(buf[i]) + 128 * tail.value.value))
  {
    if i < |buf| { assert buf[i..][0] == buf[i] && buf[i..][1..] == buf[i + 1..]; }
  }

  lemma Scaled(m: nat, low: nat)
    ensures Times(m, low) == low * m
  {
  }

  lemma AccountsEnd(buf: seq<Byte>, value: nat, multiplier: nat)
    requires 4 <= |buf| && Accounts(buf, 4, value, multiplier)
    ensures DecodeFrom(buf, 4).None?
  {
  }

  lemma Distribute(m: nat, low: nat, v: nat)
    ensures Times(m, low + 128 * v) == Times(m, low) + Times(m * 128, v)
  {
  }

  /**
   * Decoding an encoded length gives it back and consumes exactly its bytes, whatever
   * follows; longer fields are refused.
   */
  lemma {:induction false} LenRoundTrip(n: nat, rest: seq<Byte>, left: nat)
    ensures DecodeFrom(LenBytes(n) + rest, left) ==
      if |LenBytes(n)| <= left then Some(Decoded(|LenBytes(n)|, n)) else None
  {
    var s := LenBytes(n) + rest;
    if left == 0 || n < 128 {
    } else {
      LenRoundTrip(n / 128, rest, left - 1);
      assert s[1..] == LenBytes(n / 128) + rest;
    }
  }

  /** Four bytes carry exactly the values up to 268435455. */
  lemma LenFits(n: nat)
    ensures |LenBytes(n)| <= 4 <==> n <= MAX_REMAINING
  {
    var a := n / 128;
    var b := a / 128;
    var c := b / 128;
    assert n < 128 ==> |LenBytes(n)| == 1;
    assert a < 128 ==> |LenBytes(a)| == 1;
    assert b < 128 ==> |LenBytes(b)| == 1;
    assert c < 128 ==> |LenBytes(c)| == 1;
  }

  /** Section 2.2.3: a length survives encoding and decoding exactly when it is at most 268435455. */
  lemma LengthSurvivesIff(n: nat, rest: seq<Byte>)
    ensures DecodeFrom(LenBytes(n) + rest, 4) == Some(Decoded(|LenBytes(n)|, n)) <==> n <= MAX_REMAINING
  {
    LenRoundTrip(n, rest, 4);
    LenFits(n);
  }

  // ---------------------------------------------------------------- packet bounds

  /** `mqtt_packet_len`: the length of the packet at the front, or 0 if it is not all there. */
  function PacketLen(buf: seq<Byte>): (n: nat)
    ensures n <= |buf|
  {
    if |buf| < 2 then 0
    else
      var d := DecodeFrom(buf[1..], 4);
      if d.None? then 0
      else
        var total := 1 + d.value.used + d.value.value;
        if total <= |buf| then total else 0
  }

  /** A packet by the standard: a type byte, the length of the body, the body. */
  function Packet(first: Byte, body: seq<Byte>): seq<Byte>
  {
    [first] + LenBytes(|body|) + body
  }

  /** Any packet is delimited exactly, whatever follows it in the buffer. */
  lemma PacketDelimited(first: Byte, body: seq<Byte>, rest: seq<Byte>)
    requires |body| <= MAX_REMAINING
    ensures PacketLen(Packet(first, body) + rest) == |Packet(first, body)|
  {
    var buf := Packet(first, body) + rest;
    assert buf[1..] == LenBytes(|body|) + (body + rest);
    LengthSurvivesIff(|body|, body + rest);
  }

  /** What every proper beginning of a packet looks like to the scanner: nothing complete. */
  lemma PartialNotDelimited(first: Byte, body: seq<Byte>, k: nat)
    requires |body| <= MAX_REMAINING && k < |Packet(first, body)|
    ensures PacketLen(Packet(first, body)[..k]) == 0
  {
    var whole := Packet(first, body);
    var part := whole[..k];
    var len := LenBytes(|body|);
    if k >= 2 {
      var m := k - 1;
      assert whole[1..] == len + body;
      assert part[1..] == (len + body)[..m];
      if m >= |len| {
        assert (len + body)[..m] == len + body[..m - |len|];
        LengthSurvivesIff(|body|, body[..m - |len|]);
      } else {
        assert (len + body)[..m] == len[..m];
        CutLength(|body|, m, 4);
      }
    }
  }

  /** A Remaining Length cut short does not decode. */
  lemma {:induction false} CutLength(n: nat, m: nat, left: nat)
    requires m < |LenBytes(n)|
    ensures DecodeFrom(LenBytes(n)[..m], left).None?
  {
    if m == 0 || left == 0 {
    } else {
      CutLength(n / 128, m - 1, left - 1);
      assert LenBytes(n)[..m][1..] == LenBytes(n / 128)[..m - 1];
    }
  }

  // ---------------------------------------------------------------- the stream

  /** The packets the scan loop of `mqtt_wait_for` steps through. */
  function Packets(buf: seq<Byte>): seq<seq<Byte>>
    decreases |buf|
  {
    var n := PacketLen(buf);
    if n == 0 then [] else [buf[..n]] + Packets(buf[n..])
  }

  datatype Pkt = Pkt(first: Byte, body: seq<Byte>)

  function Wire(ps: seq<Pkt>): seq<Byte>
  {
    if ps == [] then [] else Packet(ps[0].first, ps[0].body) + Wire(ps[1..])
  }

  /** Packets sent back to back, followed by the beginning of another, are cut out one by one in order. */
  lemma {:induction false} StreamCutExactly(ps: seq<Pkt>, last: Pkt, k: nat)
    requires forall i :: 0 <= i < |ps| ==> |ps[i].body| <= MAX_REMAINING
    requires |last.body| <= MAX_REMAINING && k < |Packet(last.first, last.body)|
    ensures Packets(Wire(ps) + Packet(last.first, last.body)[..k])
      == seq(|ps|, i requires 0 <= i < |ps| => Packet(ps[i].first, ps[i].body))
  {
    var cut := Packet(last.first, last.body)[..k];
    if ps == [] {
      assert Wire(ps) + cut == cut;
      PartialNotDelimited(last.first, last.body, k);
    } else {
      var head := Packet(ps[0].first, ps[0].body);
      var buf := Wire(ps) + cut;
      assert buf == head + (Wire(ps[1..]) + cut);
      PacketDelimited(ps[0].first, ps[0].body, Wire(ps[1..]) + cut);
      assert buf[..|head|] == head && buf[|head|..] == Wire(ps[1..]) + cut;
      StreamCutExactly(ps[1..], last, k);
    }
  }

  // --------------------------------------------------------------------- PUBLISH

  function U16(v: nat): (r: seq<Byte>)
    requires v < 0x1_0000
    ensures |r| == 2
  {
    [v / 256, v % 256]
  }

  function GetU16(a: Byte, b: Byte): nat { (a as int) * 256 + b as int }

  /** Variable header and payload of a PUBLISH; the packet identifier is present at quality of service 1. */
  function PublishBody(topic: seq<Byte>, id: Option<nat>, payload: seq<Byte>): seq<Byte>
    requires |topic| < 0x1_0000 && (id.Some? ==> id.value < 0x1_0000)
  {
    U16(|topic|) + topic + (if id.Some? then U16(id.value) else []) + payload
  }

  function PublishFirst(qos1: bool): Byte { if qos1 then PUBLISH + 2 else PUBLISH }

  datatype Message = Message(topic: seq<Byte>, payload: seq<Byte>, ack: Option<nat>)

  /** `dispatch_publish`: what is handed to the callback, and the identifier acknowledged at quality of service 1. */
  function Dispatch(pkt: seq<Byte>): Option<Message>
  {
    if |pkt| < 2 then None
    else
      var d := DecodeFrom(pkt[1..], 4);
      if d.None? then None
      else
        var hdr := 1 + d.value.used;
        if hdr > |pkt| || d.value.value > |pkt| - hdr then None
        else ParseBody(pkt[0], pkt[hdr..hdr + d.value.value])
  }

  function ParseBody(first: Byte, body: seq<Byte>): Option<Message>
  {
    if |body| < 2 then None
    else
      var tlen := GetU16(body[0], body[1]);
      var rest := body[2..];
      if |rest| < tlen then None
      else
        var topic := rest[..tlen];
        var after := rest[tlen..];
        var qos := first / 2 % 4;
        if qos == 0 then Some(Message(topic, after, None))
        else if |after| < 2 then None
        else Some(Message(topic, after[2..], if qos == 1 then Some(GetU16(after[0], after[1])) else None))
  }

  lemma U16RoundTrip(v: nat)
    requires v < 0x1_0000
    ensures |U16(v)| == 2 && GetU16(U16(v)[0], U16(v)[1]) == v
  {
  }

  /** Parsing a body laid out as length, topic, rest. */
  lemma TopicParses(first: Byte, topic: seq<Byte>, rest: seq<Byte>)
    requires |topic| < 0x1_0000
    ensures ParseBody(first, U16(|topic|) + (topic + rest)) ==
      if first / 2 % 4 == 0 then Some(Message(topic, rest, None))
      else if |rest| < 2 then None
      else Some(Message(topic, rest[2..], if first / 2 % 4 == 1 then Some(GetU16(rest[0], rest[1])) else None))
  {
    hide U16, GetU16;
    U16RoundTrip(|topic|);
    var body := U16(|topic|) + (topic + rest);
    assert body[0] == U16(|topic|)[0] && body[1] == U16(|topic|)[1];
    assert body[2..] == topic + rest;
    assert (topic + rest)[..|topic|] == topic && (topic + rest)[|topic|..] == rest;
  }

  lemma BodyParses(qos1: bool, topic: seq<Byte>, id: Option<nat>, payload: seq<Byte>)
    requires |topic| < 0x1_0000 && (id.Some? ==> id.value < 0x1_0000) && (qos1 <==> id.Some?)
    ensures ParseBody(PublishFirst(qos1), PublishBody(topic, id, payload)) == Some(Message(topic, payload, id))
  {
    hide ParseBody, U16, GetU16;
    var mid := if id.Some? then U16(id.value) else [];
    assert PublishBody(topic, id, payload) == U16(|topic|) + (topic + (mid + payload));
    TopicParses(PublishFirst(qos1), topic, mid + payload);
    if id.Some? {
      U16RoundTrip(id.value);
      assert (mid + payload)[2..] == payload;
    } else {
      assert mid + payload == payload;
    }
  }

  /** A PUBLISH is parsed back to its own topic, payload and identifier. */
  lemma PublishRoundTrip(qos1: bool, topic: seq<Byte>, id: Option<nat>, payload: seq<Byte>)
    requires |topic| < 0x1_0000 && (id.Some? ==> id.value < 0x1_0000) && (qos1 <==> id.Some?)
    requires |PublishBody(topic, id, payload)| <= MAX_REMAINING
    ensures Dispatch(Packet(PublishFirst(qos1), PublishBody(topic, id, payload))) == Some(Message(topic, payload, id))
  {
    hide ParseBody, PublishBody;
    var body := PublishBody(topic, id, payload);
    var pkt := Packet(PublishFirst(qos1), body);
    assert pkt[1..] == LenBytes(|body|) + body;
    LengthSurvivesIff(|body|, body);
    var hdr := 1 + |LenBytes(|body|)|;
    assert pkt[hdr..hdr + |body|] == body;
    assert pkt[0] == PublishFirst(qos1);
    BodyParses(qos1, topic, id, payload);
  }

  // --------------------------------------------------------------- the scan loop

  /** `buf[offset] & 0xF0` */
  function TypeOf(first: Byte): Byte { first - first % 16 }

  /** Whether the packet waited for was there, the messages handed on and the identifiers acknowledged on the way. */
  datatype Scanned = Scanned(found: bool, delivered: seq<Message>, acks: seq<nat>)

  /** A parsed PUBLISH is acknowledged at quality of service 1, whether or not a subscription accepts it. */
  function Acks(m: Option<Message>): seq<nat>
  {
    if m.Some? && m.value.ack.Some? then [m.value.ack.value] else []
  }

  function Heard(m: Option<Message>, accepts: seq<Byte> -> bool): seq<Message>
  {
    if m.Some? && accepts(m.value.topic) then [m.value] else []
  }

  /**
   * Take the packets in order and stop at the expected type. Of every PUBLISH before
   * it, if there is a message callback: acknowledge it at quality of service 1, and
   * hand it on if a subscription accepts it.
   */
  function Walk(ps: seq<seq<Byte>>, expected: Byte, callback: bool, accepts: seq<Byte> -> bool): Scanned
  {
    if ps == [] then Scanned(false, [], [])
    else if ps[0] != [] && TypeOf(ps[0][0]) == expected then Scanned(true, [], [])
    else
      var rest := Walk(ps[1..], expected, callback, accepts);
      var m := if callback && ps[0] != [] && TypeOf(ps[0][0]) == PUBLISH then Dispatch(ps[0]) else None;
      Scanned(rest.found, Heard(m, accepts) + rest.delivered, Acks(m) + rest.acks)
  }

  /** The inner loop of `mqtt_wait_for` over one receive buffer. */
  method ScanBuffer(buf: seq<Byte>, expected: Byte, callback: bool, accepts: seq<Byte> -> bool) returns (r: Scanned)
    ensures r == Walk(Packets(buf), expected, callback, accepts)
  {
    hide StillToWalk, PacketLen, Dispatch, TypeOf;
    var offset := 0;
    var done := Scanned(false, [], []);
    WalkStart(buf, expected, callback, accepts);
    while offset < |buf|
      invariant offset <= |buf| && !done.found && StillToWalk(buf, offset, expected, callback, accepts, done)
      decreases |buf| - offset
    {
      var n := PacketLen(buf[offset..]);
      WalkNext(buf, offset, expected, callback, accepts, done);
      if n == 0 { break; }
      var kind := TypeOf(buf[offset]);
      if kind == expected { return done.(found := true); }
      ghost var before := done;
      ghost var note := if kind == PUBLISH && callback then Dispatch(buf[offset..][..n]) else None;
      if kind == PUBLISH && callback {
        var m := Dispatch(buf[offset..][..n]);
        if m.Some? {
          if m.value.ack.Some? { done := done.(acks := done.acks + [m.value.ack.value]); }
          if accepts(m.value.topic) { done := done.(delivered := done.delivered + [m.value]); }
        }
      }
      assert done == Noted(before, note, accepts);
      offset := offset + n;
    }
    WalkEnd(buf, offset, expected, callback, accepts, done);
    return done;
  }

  /** What has been done, followed by what the walk from offset on does, is the whole walk. */
  ghost predicate StillToWalk(
    buf: seq<Byte>, offset: nat, expected: Byte, callback: bool, accepts: seq<Byte> -> bool, done: Scanned)
    requires offset <= |buf|
  {
    var rest := Walk(Packets(buf[offset..]), expected, callback, accepts);
    Walk(Packets(buf), expected, callback, accepts)
    == Scanned(rest.found, done.delivered + rest.delivered, done.acks + rest.acks)
  }

  lemma WalkStart(buf: seq<Byte>, expected: Byte, callback: bool, accepts: seq<Byte> -> bool)
    ensures StillToWalk(buf, 0, expected, callback, accepts, Scanned(false, [], []))
  {
    assert buf[0..] == buf;
  }

  lemma WalkEnd(
    buf: seq<Byte>, offset: nat, expected: Byte, callback: bool, accepts: seq<Byte> -> bool, done: Scanned)
    requires offset <= |buf| && StillToWalk(buf, offset, expected, callback, accepts, done)
    requires PacketLen(buf[offset..]) == 0
    ensures Walk(Packets(buf), expected, callback, accepts) == Scanned(false, done.delivered, done.acks)
  {
    assert Packets(buf[offset..]) == [];
  }

  /** The record after one more PUBLISH. */
  function Noted(done: Scanned, m: Option<Message>, accepts: seq<Byte> -> bool): Scanned
  {
    Scanned(done.found, done.delivered + Heard(m, accepts), done.acks + Acks(m))
  }

  /** One turn of the loop. */
  lemma WalkNext(
    buf: seq<Byte>, offset: nat, expected: Byte, callback: bool, accepts: seq<Byte> -> bool, done: Scanned)
    requires offset < |buf| && StillToWalk(buf, offset, expected, callback, accepts, done)
    ensures
      var n := PacketLen(buf[offset..]);
      n > 0 ==>
        var kind := TypeOf(buf[offset]);
        var m := if kind == PUBLISH && callback then Dispatch(buf[offset..][..n]) else None;
        && (kind == expected ==>
              Walk(Packets(buf), expected, callback, accepts) == Scanned(true, done.delivered, done.acks))
        && (kind != expected ==>
              StillToWalk(buf, offset + n, expected, callback, accepts, Noted(done, m, accepts)))
  {
    hide PacketLen, Dispatch, TypeOf, Heard, Acks;
    var here := buf[offset..];
    var n := PacketLen(here);
    if n > 0 {
      var ps := Packets(here);
      assert here[n..] == buf[offset + n..];
      assert ps == [here[..n]] + Packets(buf[offset + n..]);
      assert ps[0][0] == buf[offset] && ps[1..] == Packets(buf[offset + n..]);
      var rest := Walk(ps[1..], expected, callback, accepts);
      var m := if TypeOf(buf[offset]) == PUBLISH && callback then Dispatch(here[..n]) else None;
      Associates(done.delivered, Heard(m, accepts), rest.delivered);
      Associates(done.acks, Acks(m), rest.acks);
      assert done.delivered + [] == done.delivered && done.acks + [] == done.acks;
    }
  }

  lemma Associates<T>(a: seq<T>, b: seq<T>, c: seq<T>)
    ensures a + (b + c) == (a + b) + c
  {
  }

  // ------------------------------------------------------------------ publishing

  datatype Status = Ok | InvalidParam

  /** The value of the Remaining Length field of a PUBLISH. */
  function Remaining(topic: seq<Byte>, payloadLen: nat, qos1: bool): nat
  {
    2 + |topic| + payloadLen + if qos1 then 2 else 0
  }

  /** The bytes `ove_mqtt_publish` sends; without a payload pointer none are copied. */
  function Sent(topic: seq<Byte>, id: Option<nat>, payload: Option<seq<Byte>>, payloadLen: nat): seq<Byte>
    requires |topic| < 0x1_0000 && (id.Some? ==> id.value < 0x1_0000)
  {
    [PublishFirst(id.Some?)] + LenBytes(Remaining(topic, payloadLen, id.Some?))
    + PublishBody(topic, id, if payload.Some? then payload.value else [])
  }

  /** The client state that publishing uses. */
  class Client {
    const tx: array<Byte>
    var pktId: nat

    ghost predicate Valid()
      reads this
    {
      0 < pktId < 0x1_0000
    }

    constructor (size: nat)
      ensures Valid() && fresh(tx) && tx.Length == size && pktId == 1
    {
      tx := new Byte[size](_ => 0);
      pktId := 1;
    }

    /** `memcpy` into the transmit buffer. */
    method Copy(at: nat, bytes: seq<Byte>)
      requires at + |bytes| <= tx.Length
      modifies tx
      ensures tx[..at + |bytes|] == old(tx[..at]) + bytes
    {
      for i := 0 to |bytes|
        invariant tx[..at + i] == old(tx[..at]) + bytes[..i]
      {
        tx[at + i] := bytes[i];
        assert tx[..at + i + 1] == tx[..at + i] + [bytes[i]];
        assert bytes[..i + 1] == bytes[..i] + [bytes[i]];
      }
      assert bytes[..|bytes|] == bytes;
    }

    /**
     * The frame building of `ove_mqtt_publish`: accepted exactly when the whole
     * frame fits the transmit buffer, and then these bytes are sent. Packet
     * identifiers run through 1 to 65535.
     */
    method Publish(topic: seq<Byte>, payload: Option<seq<Byte>>, payloadLen: nat, qos1: bool)
        returns (rc: Status, sent: seq<Byte>)
      requires Valid() && (payload.Some? ==> |payload.value| == payloadLen)
      modifies this`pktId, tx
      ensures Valid()
      ensures rc == Ok <==>
        |topic| <= 0xffff && 1 + |LenBytes(Remaining(topic, payloadLen, qos1))|
          + Remaining(topic, payloadLen, qos1) <= tx.Length
      ensures rc == Ok ==> sent == Sent(topic, if qos1 then Some(old(pktId)) else None, payload, payloadLen)
      ensures pktId == if rc == Ok && qos1 then (if old(pktId) == 0xffff then 1 else old(pktId) + 1) else old(pktId)
    {
      hide LenBytes, U16, Sent;
      sent := [];
      if |topic| > 0xffff { return InvalidParam, []; }
      if payloadLen > tx.Length { return InvalidParam, []; }
      var remaining := 2 + |topic| + payloadLen;
      if qos1 { remaining := remaining + 2; }
      var width := RemainingLengthBytes(remaining);
      if !(1 + width + remaining <= tx.Length) { return InvalidParam, []; }
      ghost var id: Option<nat> := if qos1 then Some(pktId) else None;
      var p := Head(remaining, qos1);
      p := Variable(p, topic, qos1);
      if qos1 {
        pktId := (pktId + 1) % 0x1_0000;
        if pktId == 0 { pktId := 1; }
      }
      if payload.Some? && payloadLen > 0 {
        Copy(p, payload.value);
        p := p + payloadLen;
      }
      sent := tx[..p];
      SentIs(topic, id, payload, payloadLen, sent);
      rc := Ok;
    }

    /** The fixed header: type byte and Remaining Length. */
    method Head(remaining: nat, qos1: bool) returns (p: nat)
      requires 1 + |LenBytes(remaining)| <= tx.Length
      modifies tx
      ensures p == 1 + |LenBytes(remaining)| && tx[..p] == [PublishFirst(qos1)] + LenBytes(remaining)
    {
      hide LenBytes;
      tx[0] := PUBLISH;
      if qos1 { tx[0] := PUBLISH + 2; }
      var n := EncodeRemainingLength(tx, 1, remaining);
      p := 1 + n;
      assert tx[..p] == [tx[0]] + tx[1..p];
    }

    /** The variable header: topic and, at quality of service 1, the packet identifier. */
    method Variable(at: nat, topic: seq<Byte>, qos1: bool) returns (p: nat)
      requires Valid() && |topic| <= 0xffff && at + 2 + |topic| + (if qos1 then 2 else 0) <= tx.Length
      modifies tx
      ensures p == at + 2 + |topic| + (if qos1 then 2 else 0)
      ensures tx[..p] == old(tx[..at]) + (U16(|topic|) + topic + (if qos1 then U16(pktId) else []))
    {
      ghost var before := tx[..at];
      Copy(at, U16(|topic|));
      Copy(at + 2, topic);
      p := at + 2 + |topic|;
      if qos1 {
        Copy(p, U16(pktId));
        p := p + 2;
      }
      assert before + U16(|topic|) + topic + (if qos1 then U16(pktId) else [])
        == before + (U16(|topic|) + topic + (if qos1 then U16(pktId) else []));
    }
  }

  lemma SentIs(topic: seq<Byte>, id: Option<nat>, payload: Option<seq<Byte>>, payloadLen: nat, sent: seq<Byte>)
    requires |topic| < 0x1_0000 && (id.Some? ==> id.value < 0x1_0000) &&
      (payload.Some? ==> |payload.value| == payloadLen)
    requires sent == [PublishFirst(id.Some?)] + LenBytes(Remaining(topic, payloadLen, id.Some?))
                   + (U16(|topic|) + topic + (if id.Some? then U16(id.value) else []))
                   + (if payload.Some? && payloadLen > 0 then payload.value else [])
    ensures sent == Sent(topic, id, payload, payloadLen)
  {
    hide LenBytes, U16;
    assert payload.Some? && payloadLen == 0 ==> payload.value == [];
  }

  /** With its payload present, what is sent is one well-formed PUBLISH packet. */
  lemma SentIsPacket(topic: seq<Byte>, id: Option<nat>, payload: seq<Byte>)
    requires |topic| < 0x1_0000 && (id.Some? ==> id.value < 0x1_0000)
    ensures Sent(topic, id, Some(payload), |payload|) == Packet(PublishFirst(id.Some?), PublishBody(topic, id, payload))
  {
    hide LenBytes;
    assert |PublishBody(topic, id, payload)| == Remaining(topic, |payload|, id.Some?);
  }

  /**
   * The frame is delimited, and so read back as one packet, exactly when a payload
   * was given or its length is zero, and the Remaining Length is at most 268435455.
   * Otherwise the receiver waits for bytes that belong to whatever is sent next, or
   * finds a length it cannot decode.
   */
  lemma SentDelimitedIff(topic: seq<Byte>, id: Option<nat>, payload: Option<seq<Byte>>, payloadLen: nat)
    requires |topic| < 0x1_0000 && (id.Some? ==> id.value < 0x1_0000)
    requires payload.Some? ==> |payload.value| == payloadLen
    ensures PacketLen(Sent(topic, id, payload, payloadLen)) == |Sent(topic, id, payload, payloadLen)| <==>
      (payload.Some? || payloadLen == 0) && Remaining(topic, payloadLen, id.Some?) <= MAX_REMAINING
  {
    hide LenBytes, DecodeFrom;
    var n := Remaining(topic, payloadLen, id.Some?);
    var body := PublishBody(topic, id, if payload.Some? then payload.value else []);
    var sent := Sent(topic, id, payload, payloadLen);
    assert sent[1..] == LenBytes(n) + body;
    LenRoundTrip(n, body, 4);
    LenFits(n);
  }

  /** A null payload said to be one byte long: the frame is one byte short. */
  lemma NullPayloadNotDelimited(topic: seq<Byte>)
    requires |topic| < 100
    ensures PacketLen(Sent(topic, None, None, 1)) == 0
  {
    hide LenBytes, DecodeFrom;
    var body := PublishBody(topic, None, []);
    assert Sent(topic, None, None, 1)[1..] == LenBytes(|topic| + 3) + body;
    LengthSurvivesIff(|topic| + 3, body);
  }

  /** A payload that makes the Remaining Length 268435456: five length bytes, which no receiver decodes. */
  lemma OversizeNotDelimited(payload: seq<Byte>)
    requires |payload| == MAX_REMAINING - 1
    ensures PacketLen(Sent([], None, Some(payload), |payload|)) == 0
  {
    hide LenBytes, DecodeFrom;
    var body := PublishBody([], None, payload);
    assert Sent([], None, Some(payload), |payload|)[1..] == LenBytes(MAX_REMAINING + 1) + body;
    LenRoundTrip(MAX_REMAINING + 1, body, 4);
    LenFits(MAX_REMAINING + 1);
  }

  // ------------------------------------------------------- from sender to callback

  /** One message as a publisher gives it, with its packet identifier at quality of service 1. */
  datatype Pub = Pub(topic: seq<Byte>, id: Option<nat>, payload: seq<Byte>)

  /** The lengths and the identifier that publishing accepts. */
  predicate Sendable(p: Pub)
  {
    && |p.topic| < 0x1_0000 && (p.id.Some? ==> p.id.value < 0x1_0000)
    && Remaining(p.topic, |p.payload|, p.id.Some?) <= MAX_REMAINING
  }

  /** What may come before the packet waited for: a message, or a packet of some third type. */
  datatype Item = Publish(pub: Pub) | Other(first: Byte, body: seq<Byte>)

  predicate Framed(x: Item) { if x.Publish? then Sendable(x.pub) else |x.body| <= MAX_REMAINING }

  predicate Passed(x: Item, expected: Byte)
  {
    x.Other? ==> TypeOf(x.first) != PUBLISH && TypeOf(x.first) != expected
  }

  function Frame(x: Item): seq<Byte>
    requires Framed(x)
  {
    match x
    case Publish(p) => Sent(p.topic, p.id, Some(p.payload), |p.payload|)
    case Other(first, body) => Packet(first, body)
  }

  /** The frames of the items back to back. */
  function Frames(xs: seq<Item>): seq<Byte>
    requires forall i :: 0 <= i < |xs| ==> Framed(xs[i])
  {
    if xs == [] then [] else Frame(xs[0]) + Frames(xs[1..])
  }

  /** The messages a subscription accepts, in order. */
  function Wanted(xs: seq<Item>, accepts: seq<Byte> -> bool): seq<Message>
  {
    if xs == [] then []
    else
      (if xs[0].Publish? && accepts(xs[0].pub.topic)
       then [Message(xs[0].pub.topic, xs[0].pub.payload, xs[0].pub.id)] else [])
      + Wanted(xs[1..], accepts)
  }

  /** The identifiers of the messages that have one, in order. */
  function Identifiers(xs: seq<Item>): seq<nat>
  {
    if xs == [] then []
    else (if xs[0].Publish? && xs[0].pub.id.Some? then [xs[0].pub.id.value] else []) + Identifiers(xs[1..])
  }

  /** The packets of a buffer that begins with a whole packet. */
  lemma PacketsHead(first: Byte, body: seq<Byte>, rest: seq<Byte>)
    requires |body| <= MAX_REMAINING
    ensures Packets(Packet(first, body) + rest) == [Packet(first, body)] + Packets(rest)
  {
    hide PacketLen, Packet;
    var head := Packet(first, body);
    PacketDelimited(first, body, rest);
    assert (head + rest)[..|head|] == head && (head + rest)[|head|..] == rest;
    PacketNotEmpty(first, body);
  }

  lemma PacketNotEmpty(first: Byte, body: seq<Byte>)
    ensures |Packet(first, body)| > 0 && Packet(first, body)[0] == first
  {
  }

  /** A PUBLISH at the front is acknowledged, handed on if a subscription accepts it, and the walk goes on. */
  lemma WalkPublish(p: Pub, ps: seq<seq<Byte>>, expected: Byte, callback: bool, accepts: seq<Byte> -> bool)
    requires Sendable(p) && expected != PUBLISH
    ensures
      var frame := Packet(PublishFirst(p.id.Some?), PublishBody(p.topic, p.id, p.payload));
      var rest := Walk(ps, expected, callback, accepts);
      var m := if callback then Some(Message(p.topic, p.payload, p.id)) else None;
      Walk([frame] + ps, expected, callback, accepts)
      == Scanned(rest.found, Heard(m, accepts) + rest.delivered, Acks(m) + rest.acks)
  {
    hide Packet, Dispatch, Heard, Acks;
    var body := PublishBody(p.topic, p.id, p.payload);
    var frame := Packet(PublishFirst(p.id.Some?), body);
    PacketNotEmpty(PublishFirst(p.id.Some?), body);
    PublishRoundTrip(p.id.Some?, p.topic, p.id, p.payload);
    assert ([frame] + ps)[0] == frame && ([frame] + ps)[1..] == ps;
    assert TypeOf(PublishFirst(p.id.Some?)) == PUBLISH;
  }

  /** A packet of a third type at the front changes nothing. */
  lemma WalkOther(
    first: Byte, body: seq<Byte>, ps: seq<seq<Byte>>, expected: Byte, callback: bool, accepts: seq<Byte> -> bool)
    requires TypeOf(first) != PUBLISH && TypeOf(first) != expected
    ensures Walk([Packet(first, body)] + ps, expected, callback, accepts) == Walk(ps, expected, callback, accepts)
  {
    hide Packet, Dispatch, TypeOf;
    var frame := Packet(first, body);
    PacketNotEmpty(first, body);
    assert ([frame] + ps)[0] == frame && ([frame] + ps)[1..] == ps;
  }

  /**
   * Whatever messages and other packets arrive back to back, followed by the packet
   * waited for and anything after it: the scan finds that packet. With a message
   * callback it has delivered exactly the accepted messages, each with its own topic,
   * payload and identifier, in order, and acknowledged every message that has an
   * identifier, in order, accepted or not. Without one it has done neither.
   */
  lemma {:induction false} WaitDelivers(
    xs: seq<Item>, first: Byte, body: seq<Byte>, after: seq<Byte>, callback: bool, accepts: seq<Byte> -> bool)
    requires forall i :: 0 <= i < |xs| ==> Framed(xs[i]) && Passed(xs[i], TypeOf(first))
    requires |body| <= MAX_REMAINING && TypeOf(first) != PUBLISH
    ensures Walk(Packets(Frames(xs) + (Packet(first, body) + after)), TypeOf(first), callback, accepts)
            == Scanned(true, if callback then Wanted(xs, accepts) else [], if callback then Identifiers(xs) else [])
  {
    hide Packets, Packet, Dispatch, PublishBody, Sent, TypeOf;
    var tail := Packet(first, body) + after;
    if xs == [] {
      assert Frames(xs) + tail == tail;
      PacketsHead(first, body, after);
      PacketNotEmpty(first, body);
      assert ([Packet(first, body)] + Packets(after))[0] == Packet(first, body);
    } else {
      var rest := Frames(xs[1..]) + tail;
      assert Framed(xs[0]) && Passed(xs[0], TypeOf(first));
      assert Frames(xs) + tail == Frame(xs[0]) + rest;
      match xs[0] {
        case Publish(p) =>
          var pf, pb := PublishFirst(p.id.Some?), PublishBody(p.topic, p.id, p.payload);
          SentIsPacket(p.topic, p.id, p.payload);
          BodyLength(p);
          PacketsHead(pf, pb, rest);
          WalkPublish(p, Packets(rest), TypeOf(first), callback, accepts);
        case Other(f, b) =>
          PacketsHead(f, b, rest);
          WalkOther(f, b, Packets(rest), TypeOf(first), callback, accepts);
      }
      WaitDelivers(xs[1..], first, body, after, callback, accepts);
    }
  }

  lemma BodyLength(p: Pub)
    requires Sendable(p)
    ensures |PublishBody(p.topic, p.id, p.payload)| <= MAX_REMAINING
  {
  }

  // ------------------------------------------------------------- frames as bytes

  /** A PUBLISH of "xyz" to topic "ab": type, length, topic length high byte first, topic, payload. */
  lemma PlainFrame()
    ensures Sent([97, 98], None, Some([120, 121, 122]), 3) == [0x30, 7, 0, 2, 97, 98, 120, 121, 122]
    ensures Dispatch([0x30, 7, 0, 2, 97, 98, 120, 121, 122]) == Some(Message([97, 98], [120, 121, 122], None))
  {
    assert LenBytes(7) == [7];
    PublishRoundTrip(false, [97, 98], None, [120, 121, 122]);
    SentIsPacket([97, 98], None, [120, 121, 122]);
  }

  /** The same at quality of service 1 with identifier 258, which goes between topic and payload. */
  lemma AckedFrame()
    ensures Sent([97, 98], Some(258), Some([120]), 1) == [0x32, 7, 0, 2, 97, 98, 1, 2, 120]
    ensures Dispatch([0x32, 7, 0, 2, 97, 98, 1, 2, 120]) == Some(Message([97, 98], [120], Some(258)))
  {
    assert LenBytes(7) == [7];
    PublishRoundTrip(true, [97, 98], Some(258), [120]);
    SentIsPacket([97, 98], Some(258), [120]);
  }

  /** The example of section 2.2.3 of MQTT 3.1.1: 321 is 65 plus 2 times 128. */
  lemma StandardLengths()
    ensures LenBytes(64) == [0x40] && LenBytes(321) == [0xc1, 0x02] && LenBytes(268435455) == [0xff, 0xff, 0xff, 0x7f]
  {
    assert LenBytes(2) == [2];
    assert LenBytes(127) == [127];
    assert LenBytes(16383) == [0xff, 0x7f];
    assert LenBytes(2097151) == [0xff, 0xff, 0x7f];
  }
}
