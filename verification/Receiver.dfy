// The receive state machine of ProcessRecvCallback (src/socket_util.c) on values, and its refinement
// of the stream splitter.

module Receiver {
  import opened Bytes
  import opened Doubling
  import opened Protocol
  import opened SocketModel
  import opened Splitter

  const MAX_TCP_BUF_SIZE := 4096
  const RECV_CAP := 4096

  /** The receiving half of a connection: the filled part of the buffer (`iRecvCurLen` bytes), the buffer's
      capacity, `iPacketLen`, and the socket's input. */
  datatype Rx = Rx(data: seq<byte>, capacity: nat, packetLen: int, queue: seq<Arrival>)

  datatype Outcome = Destroyed | Waiting | Delivered(frame: seq<byte>)

  /** The result of an event, and the bytes it took off the socket. */
  datatype Step = Step(rx: Rx, outcome: Outcome, read: seq<byte>)

  function Fresh(): Rx {
    Rx([], MAX_TCP_BUF_SIZE, 0, [])
  }

  /** The part of `ProcessRecvCallback` for an incomplete header; `None` when the body part follows. */
  function HeaderPart(r: Rx): (res: (Rx, Option<Outcome>, seq<byte>))
    requires 0 < r.capacity
  {
    var rd := RecvData(r.queue, PACKET_HEAD_LEN - |r.data|);
    if rd.ret <= 0 then (r.(queue := rd.queue), Some(Destroyed), rd.bytes)
    else
      var data := r.data + rd.bytes;
      var r1 := r.(queue := rd.queue, data := data);
      if |data| < PACKET_HEAD_LEN then (r1, Some(Waiting), rd.bytes)
      else
        var r2 := r1.(packetLen := PacketLen(data));
        if data[0] != PROTO_SOH || r2.packetLen <= PACKET_BODY_POS then (r2, Some(Destroyed), rd.bytes)
        else if r2.packetLen > PACKET_MAX_LEN then (r2, Some(Destroyed), rd.bytes)
        else (r2.(capacity := Grown(r.capacity, |data|, r2.packetLen - PACKET_HEAD_LEN)), None, rd.bytes)
  }

  /** How much the body part asks for: what the frame lacks, at most 4096 bytes. */
  function BodyWants(r: Rx): int {
    if r.packetLen - |r.data| > RECV_CAP then RECV_CAP else r.packetLen - |r.data|
  }

  /** The body part; a complete frame is handed on and the buffer reset. */
  function BodyPart(r: Rx): Step {
    if r.packetLen <= 0 then Step(r, Destroyed, [])
    else
      var rd := RecvData(r.queue, BodyWants(r));
      if rd.ret <= 0 then Step(r.(queue := rd.queue), Destroyed, rd.bytes)
      else
        var data := r.data + rd.bytes;
        if |data| < r.packetLen then Step(r.(queue := rd.queue, data := data), Waiting, rd.bytes)
        else Step(r.(queue := rd.queue, data := [], packetLen := 0), Delivered(data), rd.bytes)
  }

  /** One readable event, up to the callback's bookkeeping of the connection's timer. */
  function RecvEvent(r: Rx): Step
    requires 0 < r.capacity
  {
    if |r.data| < PACKET_HEAD_LEN then
      var (r1, o, read) := HeaderPart(r);
      if o.Some? then Step(r1, o.value, read)
      else
        var s := BodyPart(r1);
        s.(read := read + s.read)
    else BodyPart(r)
  }

  // ---------------------------------------------------------------------------------------------
  // One event

  /** A buffer size that started at 4096 and has only been doubled, at most up to a megabyte. */
  predicate Doubled(c: int) {
    c in {0x1000, 0x2000, 0x4000, 0x8000, 0x1_0000, 0x2_0000, 0x4_0000, 0x8_0000, 0x10_0000}
  }

  /** The machine between events: in an incomplete header, or inside a frame with an accepted header and
      room for all of it, beyond the header. */
  ghost predicate RxInv(r: Rx) {
    && Doubled(r.capacity)
    && (|r.data| < PACKET_HEAD_LEN ==> r.packetLen == 0)
    && (|r.data| >= PACKET_HEAD_LEN ==>
          HeaderOk(r.data) && r.packetLen == PacketLen(r.data) && PACKET_HEAD_LEN < |r.data| < r.packetLen <= r.capacity)
  }

  /** The body part is about to read: the header is in the buffer and accepted. */
  ghost predicate BodyReady(r: Rx) {
    && Doubled(r.capacity)
    && PACKET_HEAD_LEN <= |r.data| < r.packetLen <= r.capacity
    && HeaderOk(r.data) && r.packetLen == PacketLen(r.data)
  }

  /** A frame that the receiver accepts makes the buffer grow to the smallest doubling that holds it, which is at most a
      megabyte. */
  lemma GrownFits(capacity: nat, cur: nat, need: int)
    requires Doubled(capacity) && 0 <= need && cur + need <= PACKET_MAX_LEN
    ensures var c := Grown(capacity, cur, need);
      && Doubled(c) && LeastDoubling(capacity, cur, need, c)
      && (c == capacity || (c % 2 == 0 && c / 2 >= capacity && c / 2 - cur < need))
  {
    GrownDoubled(capacity, cur, need);
    GrownIsLeast(capacity, cur, need);
  }

  lemma {:induction false} GrownDoubled(capacity: nat, cur: nat, need: int)
    requires Doubled(capacity) && 0 <= need && cur + need <= PACKET_MAX_LEN
    ensures var c := Grown(capacity, cur, need);
      Doubled(c) && (c == capacity || (c % 2 == 0 && c / 2 >= capacity && c / 2 - cur < need))
    decreases need + cur - capacity
  {
    if capacity - cur < need {
      GrownDoubled(2 * capacity, cur, need);
    }
  }

  /** What an event achieves: its bytes come off the front of the socket's input; if the connection
      survives there is at least one of them, and they go to the end of the buffer; and a frame is
      handed on when it is complete, with nothing of the next one. */
  ghost predicate Achieves(r: Rx, s: Step) {
    && Flow(r.queue) == s.read + Flow(s.rx.queue)
    && match s.outcome
       case Destroyed => true
       case Waiting => RxInv(s.rx) && s.rx.data == r.data + s.read && 1 <= |s.read|
       case Delivered(f) =>
         RxInv(s.rx) && s.rx.data == [] && 1 <= |s.read| && f == r.data + s.read && IsFrame(f)
  }

  lemma BodyAchieves(r: Rx)
    requires BodyReady(r)
    ensures Achieves(r, BodyPart(r)) && |BodyPart(r).read| <= 4096
  {
    var rd := RecvData(r.queue, BodyWants(r));
    RecvDataConserves(r.queue, BodyWants(r));
    if rd.ret > 0 {
      HeaderOfPrefix(r.data, r.data + rd.bytes);
    }
  }

  lemma HeaderAchieves(r: Rx)
    requires RxInv(r) && |r.data| < PACKET_HEAD_LEN
    ensures var (r', o, read) := HeaderPart(r);
      && Flow(r.queue) == read + Flow(r'.queue) && |read| <= PACKET_HEAD_LEN - |r.data|
      && (o.Some? ==> Achieves(r, Step(r', o.value, read)))
      && (o.None? ==> BodyReady(r') && r'.data == r.data + read && |r'.data| == PACKET_HEAD_LEN && 1 <= |read|)
  {
    hide RecvData, Grown, Flow;
    var rd := RecvData(r.queue, PACKET_HEAD_LEN - |r.data|);
    RecvDataConserves(r.queue, PACKET_HEAD_LEN - |r.data|);
    var (r', o, read) := HeaderPart(r);
    if o.None? {
      GrownFits(r.capacity, PACKET_HEAD_LEN, r'.packetLen - PACKET_HEAD_LEN);
    }
  }

  /** What the header still lacks. */
  function HeaderMissing(r: Rx): nat {
    if |r.data| < PACKET_HEAD_LEN then PACKET_HEAD_LEN - |r.data| else 0
  }

  /** Every event, for any bytes and any way they arrive; besides the missing part of a header an event
      takes at most 4096 bytes. */
  lemma EventAchieves(r: Rx)
    requires RxInv(r)
    ensures Achieves(r, RecvEvent(r)) && |RecvEvent(r).read| <= HeaderMissing(r) + 4096
  {
    if |r.data| < PACKET_HEAD_LEN {
      HeaderAchieves(r);
      var (r1, o, read) := HeaderPart(r);
      if o.None? {
        BodyAchieves(r1);
        var s := BodyPart(r1);
        Associate(r.data, read, s.read);
        Associate(read, s.read, Flow(s.rx.queue));
      }
    } else {
      BodyAchieves(r);
    }
  }

  // ---------------------------------------------------------------------------------------------
  // When an event keeps the connection

  /** What an event asks for when it finds an acceptable header. */
  function EventWants(r: Rx, t: seq<byte>): int
    requires |t| >= PACKET_HEAD_LEN
  {
    var k := HeaderMissing(r);
    k + if PacketLen(t) - |r.data| - k > 4096 then 4096 else PacketLen(t) - |r.data| - k
  }

  /** The condition for that, where `a` are the bytes available and `dry` tells that more may follow them. */
  predicate Survives(r: Rx, a: seq<byte>, dry: bool) {
    var t := r.data + a;
    if |t| < PACKET_HEAD_LEN then a != [] && dry
    else HeaderOk(t) && HeaderMissing(r) < |a| && (dry || EventWants(r, t) <= |a|)
  }

  /** Any event, whatever is on the socket, keeps the connection exactly when some bytes are available, they leave the
      header incomplete or complete an acceptable one and go beyond it, and neither the end of the stream nor an error
      comes before what the event asks for. A peer whose bytes so far end with a header is cut off, however well-formed
      they are. */
  lemma EventSurvivesIff(r: Rx)
    requires RxInv(r)
    ensures RecvEvent(r).outcome != Destroyed <==> Survives(r, Available(r.queue), Dry(r.queue))
  {
    hide RecvData, Flow, Grown, Available, Dry;
    if |r.data| < PACKET_HEAD_LEN {
      HeaderSurvives(r);
    } else {
      var a := Available(r.queue);
      HeaderOfPrefix(r.data, r.data + a);
      BodySurvives(r);
    }
  }

  lemma BodySurvives(r: Rx)
    requires BodyReady(r)
    ensures var a := Available(r.queue);
      BodyPart(r).outcome != Destroyed <==> a != [] && (Dry(r.queue) || BodyWants(r) <= |a|)
  {
    hide RecvData, Flow, Available, Dry;
    RecvAvailable(r.queue, BodyWants(r));
  }

  /** The header part when enough bytes are there. */
  lemma HeaderAvailable(r: Rx)
    requires RxInv(r) && |r.data| < PACKET_HEAD_LEN
    ensures var k, a, h := PACKET_HEAD_LEN - |r.data|, Available(r.queue), HeaderPart(r);
      && (|a| < k ==> h.1 == Some(if a != [] && Dry(r.queue) then Waiting else Destroyed))
      && (|a| >= k ==> h.0.data == r.data + a[..k] && Available(h.0.queue) == a[k..] && Dry(h.0.queue) == Dry(r.queue))
      && (|a| >= k ==> h.1 == if HeaderOk(r.data + a[..k]) then None else Some(Destroyed))
  {
    hide RecvData, Flow, Grown, Available, Dry;
    RecvAvailable(r.queue, PACKET_HEAD_LEN - |r.data|);
  }

  lemma HeaderSurvives(r: Rx)
    requires RxInv(r) && |r.data| < PACKET_HEAD_LEN
    ensures RecvEvent(r).outcome != Destroyed <==> Survives(r, Available(r.queue), Dry(r.queue))
  {
    hide RecvData, Flow, Grown, Available, Dry, HeaderPart, BodyPart;
    var k, a, h := PACKET_HEAD_LEN - |r.data|, Available(r.queue), HeaderPart(r);
    HeaderAvailable(r);
    if |a| >= k {
      assert r.data + a[..k] <= r.data + a;
      HeaderOfPrefix(r.data + a[..k], r.data + a);
      if h.1 == None {
        HeaderAchieves(r);
        BodySurvives(h.0);
      }
    }
  }

  /** And what a surviving event takes: all that is available, but no more than the rest of the header, and behind it
      than 4096 bytes or the rest of the frame. */
  lemma EventReads(r: Rx)
    requires RxInv(r) && RecvEvent(r).outcome != Destroyed
    ensures var a := Available(r.queue);
      var t, missing := r.data + a, if |r.data| < 5 then 5 - |r.data| else 0;
      RecvEvent(r).read ==
        if |t| < 5 then a
        else
          var rest := FromBe32(t[1..5]) - |r.data| - missing;
          var n := missing + if rest > 4096 then 4096 else rest;
          if 0 <= n < |a| then a[..n] else a
  {
    hide RecvData, Flow, Grown, Available, Dry;
    EventSurvivesIff(r);
    var a := Available(r.queue);
    var t := r.data + a;
    if |r.data| < PACKET_HEAD_LEN {
      HeaderReads(r);
    } else {
      HeaderOfPrefix(r.data, t);
      RecvAvailable(r.queue, BodyWants(r));
      AcceptedLength(t);
    }
  }

  lemma HeaderReads(r: Rx)
    requires RxInv(r) && |r.data| < PACKET_HEAD_LEN && RecvEvent(r).outcome != Destroyed
    ensures var a, k := Available(r.queue), PACKET_HEAD_LEN - |r.data|;
      RecvEvent(r).read ==
        if |a| < k then a
        else
          var rest := FromBe32((r.data + a)[1..5]) - PACKET_HEAD_LEN;
          var n := k + if rest > 4096 then 4096 else rest;
          if 0 <= n < |a| then a[..n] else a
  {
    hide RecvData, Flow, Grown, Available, Dry, HeaderPart, BodyPart, FromBe32;
    var k, a, h := PACKET_HEAD_LEN - |r.data|, Available(r.queue), HeaderPart(r);
    HeaderAvailable(r);
    HeaderAchieves(r);
    HeaderTakes(r);
    if |a| >= k {
      assert r.data + a[..k] <= r.data + a;
      HeaderOfPrefix(r.data + a[..k], r.data + a);
      AcceptedLength(r.data + a);
      BodyTakes(h.0);
      TakeTwice(a, k, BodyWants(h.0));
      assert h.0.packetLen == FromBe32((r.data + a)[1..5]) && |h.0.data| == PACKET_HEAD_LEN;
    }
  }

  lemma TakeTwice<T>(a: seq<T>, k: nat, w: int)
    requires k <= |a|
    ensures a[..k] + a[k..] == a
    ensures 0 <= w <= |a[k..]| ==> a[..k] + a[k..][..w] == a[..k + w]
  {}

  lemma HeaderTakes(r: Rx)
    requires RxInv(r) && |r.data| < PACKET_HEAD_LEN
    ensures var k, a := PACKET_HEAD_LEN - |r.data|, Available(r.queue);
      HeaderPart(r).2 == if |a| < k then a else a[..k]
  {
    hide RecvData, Grown, Available;
    RecvAvailable(r.queue, PACKET_HEAD_LEN - |r.data|);
  }

  lemma BodyTakes(r: Rx)
    requires BodyReady(r)
    ensures var a := Available(r.queue); BodyPart(r).read == if |a| < BodyWants(r) then a else a[..BodyWants(r)]
  {
    hide RecvData, Available;
    RecvAvailable(r.queue, BodyWants(r));
  }

  /** The smallest peer that is cut off: its first packet's header arrives on its own. */
  lemma HeaderAloneIsFatal(p: Packet)
    requires Sendable(p)
    ensures RxInv(Fresh()) && RecvEvent(Fresh().(queue := [Data(Encode(p)[..5])])).outcome == Destroyed
  {
    var q := [Data(Encode(p)[..5])];
    EventSurvivesIff(Fresh().(queue := q));
    assert q[1..] == [] && Encode(p)[..5] + [] == Encode(p)[..5];
  }

  /** An event leaves nothing but bytes and interruptions on a socket that holds nothing else. */
  lemma EventPlain(r: Rx)
    requires RxInv(r) && Plain(r.queue)
    ensures Plain(RecvEvent(r).rx.queue)
  {
    hide RecvLoop, Flow, Grown, Plain;
    if |r.data| < PACKET_HEAD_LEN {
      RecvLoopPlain(r.queue, PACKET_HEAD_LEN - |r.data|, []);
      HeaderAchieves(r);
      var h := HeaderPart(r);
      if h.1 == None {
        RecvLoopPlain(h.0.queue, BodyWants(h.0), []);
      }
    } else {
      RecvLoopPlain(r.queue, BodyWants(r), []);
    }
  }

  // ---------------------------------------------------------------------------------------------
  // Runs

  /** A connection's receive history: the bytes taken off the socket, the frames handed to
      ProcessEntirePacket, and whether the connection is still there. */
  datatype History = History(rx: Rx, consumed: seq<byte>, frames: seq<seq<byte>>, alive: bool)

  /** One event, before which `arrivals` have reached the socket. Nothing happens on a closed connection. */
  function HistoryStep(h: History, arrivals: seq<Arrival>): History
    requires 0 < h.rx.capacity
  {
    if !h.alive then h
    else
      var s := RecvEvent(h.rx.(queue := h.rx.queue + arrivals));
      History(s.rx, h.consumed + s.read,
              if s.outcome.Delivered? then h.frames + [s.outcome.frame] else h.frames,
              !s.outcome.Destroyed?)
  }

  /** The frames handed on are among the first that the splitter cuts from the bytes consumed; on a live
      connection they are all of them, and the buffer holds exactly the rest. */
  ghost predicate HistoryInv(h: History) {
    && 0 < h.rx.capacity
    && h.frames <= Split(h.consumed).frames
    && (h.alive ==> RxInv(h.rx) && Split(h.consumed) == Cut(h.frames, h.rx.data, true))
  }

  /** Every event keeps that, for arbitrary bytes and arrivals, and also when it closes the connection. */
  lemma HistoryStepKeeps(h: History, arrivals: seq<Arrival>)
    requires HistoryInv(h)
    ensures HistoryInv(HistoryStep(h, arrivals))
    ensures h.frames <= HistoryStep(h, arrivals).frames
  {
    if h.alive {
      var r := h.rx.(queue := h.rx.queue + arrivals);
      EventAchieves(r);
      var s := RecvEvent(r);
      EventCapacity(r);
      SplitExtends(h.consumed, s.read);
      if s.outcome.Waiting? {
        SplitIncomplete(s.rx);
        assert h.frames + [] == h.frames;
      } else if s.outcome.Delivered? {
        SplitFrame(s.outcome.frame);
      }
    }
  }

  lemma SplitIncomplete(r: Rx)
    requires RxInv(r)
    ensures Split(r.data) == Cut([], r.data, true)
  {}

  /** The capacity never shrinks. */
  lemma EventCapacity(r: Rx)
    requires RxInv(r)
    ensures RecvEvent(r).rx.capacity >= r.capacity
  {
    hide RecvData, Flow, Grown, HeaderOk, PacketLen;
    if |r.data| < PACKET_HEAD_LEN {
      HeaderAchieves(r);
      var (r1, o, read) := HeaderPart(r);
      if o.None? {
        GrownFits(r.capacity, PACKET_HEAD_LEN, r1.packetLen - PACKET_HEAD_LEN);
      }
    }
  }

  ghost function ReceiveRun(h: History, events: seq<seq<Arrival>>): (h': History)
    requires HistoryInv(h)
    ensures HistoryInv(h') && h.frames <= h'.frames
    decreases |events|
  {
    if events == [] then h
    else
      HistoryStepKeeps(h, events[0]);
      ReceiveRun(HistoryStep(h, events[0]), events[1..])
  }

  const Accepted := History(Fresh(), [], [], true)

  /** All bytes that reach the socket over a run. */
  ghost function AllFlow(events: seq<seq<Arrival>>): seq<byte> {
    if events == [] then [] else Flow(events[0]) + AllFlow(events[1..])
  }

  lemma {:induction false} FlowConcat(p: seq<Arrival>, q: seq<Arrival>)
    ensures Flow(p + q) == Flow(p) + Flow(q)
    decreases |p|
  {
    if p == [] {
      assert p + q == q && [] + Flow(q) == Flow(q);
    } else {
      FlowConcat(p[1..], q);
      assert (p + q)[1..] == p[1..] + q;
      var d := if p[0].Data? then p[0].bytes else [];
      Associate(d, Flow(p[1..]), Flow(q));
    }
  }

  /** An event on a live connection moves bytes from the socket to the history and loses none. */
  lemma StepConserves(h: History, arrivals: seq<Arrival>)
    requires HistoryInv(h) && h.alive
    ensures var h' := HistoryStep(h, arrivals);
      h'.consumed + Flow(h'.rx.queue) == h.consumed + (Flow(h.rx.queue) + Flow(arrivals))
  {
    var r := h.rx.(queue := h.rx.queue + arrivals);
    EventAchieves(r);
    FlowConcat(h.rx.queue, arrivals);
    Associate(h.consumed, RecvEvent(r).read, Flow(RecvEvent(r).rx.queue));
  }

  /** What a run consumes is a beginning of what has arrived, in order. */
  lemma {:induction false} ConsumedIsPrefix(h: History, events: seq<seq<Arrival>>)
    requires HistoryInv(h)
    ensures ReceiveRun(h, events).consumed <= (h.consumed + Flow(h.rx.queue)) + AllFlow(events)
    decreases |events|
  {
    if !h.alive {
      DeadStays(h, events);
    } else if events != [] {
      HistoryStepKeeps(h, events[0]);
      var h' := HistoryStep(h, events[0]);
      ConsumedIsPrefix(h', events[1..]);
      StepConserves(h, events[0]);
      Associate(h.consumed, Flow(h.rx.queue), Flow(events[0]));
      Associate(h.consumed + Flow(h.rx.queue), Flow(events[0]), AllFlow(events[1..]));
    }
  }

  lemma {:induction false} DeadStays(h: History, events: seq<seq<Arrival>>)
    requires HistoryInv(h) && !h.alive
    ensures ReceiveRun(h, events) == h
    decreases |events|
  {
    if events != [] {
      DeadStays(h, events[1..]);
    }
  }

  /** End to end: whatever packets are encoded one after the other, however their bytes are cut into
      arrivals, interrupted and delayed, and however the connection ends, the packets handed on are
      the first ones sent, in order, with the same command, sequence number and body. */
  lemma EndToEnd(ps: seq<Packet>, events: seq<seq<Arrival>>)
    requires AllSendable(ps) && AllFlow(events) <= EncodeAll(ps)
    ensures HistoryInv(Accepted)
    ensures var frames := ReceiveRun(Accepted, events).frames;
      && |frames| <= |ps|
      && forall i :: 0 <= i < |frames| ==> |frames[i]| >= 14 && Decode(frames[i]) == Some(ps[i])
  {
    var h := ReceiveRun(Accepted, events);
    ConsumedIsPrefix(Accepted, events);
    assert [] + Flow([]) + AllFlow(events) == AllFlow(events);
    SplitEncoded(ps, h.consumed);
    forall i | 0 <= i < |h.frames| ensures |h.frames[i]| >= 14 && Decode(h.frames[i]) == Some(ps[i]) {
      assert h.frames[i] == Split(h.consumed).frames[i];
      DecodeEncode(ps[i]);
    }
  }
}
