// Progress of the receiver: complete streams are delivered completely, and a frame takes a number of
// events that its length bounds from both sides.

module ReceiverProgress {
  import opened Bytes
  import opened Protocol
  import opened SocketModel
  import opened Splitter
  import opened Receiver

  /** `n` events before which nothing new arrives. */
  function Idle(n: nat): seq<seq<Arrival>> {
    if n == 0 then [] else [[]] + Idle(n - 1)
  }

  function Encodings(ps: seq<Packet>): seq<seq<byte>>
    requires forall i :: 0 <= i < |ps| ==> |ps[i].body| + 14 < 0x1_0000_0000
  {
    seq(|ps|, i requires 0 <= i < |ps| => Encode(ps[i]))
  }

  lemma EncodedStart(ps: seq<Packet>)
    requires AllSendable(ps) && ps != []
    ensures var e := Encode(ps[0]);
      EncodeAll(ps) == e + EncodeAll(ps[1..]) && IsFrame(e) && HeaderOk(EncodeAll(ps)) && |EncodeAll(ps)| >= 14
      && PacketLen(EncodeAll(ps)) == |e|
  {
    EncodedIsFrame(ps[0]);
    HeaderOfPrefix(Encode(ps[0]), EncodeAll(ps));
  }

  /** The bytes that the next event finds. */
  ghost function Found(h: History, arrivals: seq<Arrival>): seq<byte> {
    Flow(h.rx.queue + arrivals)
  }

  /** One event in a stream of encoded packets, of which `later` has not arrived yet: unless the bytes end right after a
      header the connection survives, and what the buffer and the socket hold and what is to come is still such a
      stream. */
  lemma EventOnStream(h: History, arrivals: seq<Arrival>, later: seq<byte>, ps: seq<Packet>)
      returns (h': History, ps': seq<Packet>)
    requires HistoryInv(h) && h.alive && Plain(h.rx.queue + arrivals) && AllSendable(ps)
    requires var w := Found(h, arrivals);
      w != [] && |h.rx.data + w| != PACKET_HEAD_LEN && h.rx.data + (w + later) == EncodeAll(ps)
    ensures h' == HistoryStep(h, arrivals) && HistoryInv(h') && h'.alive && Plain(h'.rx.queue)
    ensures AllSendable(ps') && h'.rx.data + (Flow(h'.rx.queue) + later) == EncodeAll(ps')
    ensures var w := Found(h, arrivals); |Flow(h'.rx.queue)| < |w| && h'.consumed + Flow(h'.rx.queue) == h.consumed + w
  {
    hide RecvEvent, Split, Encode, Flow, HeaderOk, PacketLen, IsFrame, Doubled, Plain, EncodeAll;
    h' := HistoryStep(h, arrivals);
    var r, w := h.rx.(queue := h.rx.queue + arrivals), Found(h, arrivals);
    HistoryStepKeeps(h, arrivals);
    PlainAvailable(r.queue);
    EventSurvivesIff(r);
    StreamSurvives(r, w, later, ps);
    EventAchieves(r);
    EventPlain(r);
    var s := RecvEvent(r);
    var w' := Flow(s.rx.queue);
    ps' := ps;
    Associate(h.consumed, s.read, w');
    Associate(s.read, w', later);
    Associate(r.data, s.read, w' + later);
    if s.outcome.Delivered? {
      FrameOfStream(s.outcome.frame, w' + later, ps);
      ps' := ps[1..];
      assert [] + (w' + later) == w' + later;
    }
  }

  lemma StreamSurvives(r: Rx, w: seq<byte>, later: seq<byte>, ps: seq<Packet>)
    requires RxInv(r) && AllSendable(ps) && w != [] && |r.data + w| != PACKET_HEAD_LEN
        && r.data + (w + later) == EncodeAll(ps)
    ensures Survives(r, w, true) && ps != []
  {
    if |r.data + w| > PACKET_HEAD_LEN {
      EncodedStart(ps);
      assert r.data + w <= EncodeAll(ps) by {
        Associate(r.data, w, later);
      }
      HeaderOfPrefix(r.data + w, EncodeAll(ps));
    }
  }

  lemma FrameOfStream(f: seq<byte>, w: seq<byte>, ps: seq<Packet>)
    requires AllSendable(ps) && ps != [] && IsFrame(f) && f + w == EncodeAll(ps)
    ensures f == Encode(ps[0]) && w == EncodeAll(ps[1..])
  {
    var e, all := Encode(ps[0]), EncodeAll(ps);
    EncodedStart(ps);
    HeaderOfPrefix(f, all);
    assert f == all[..|e|] == e;
    assert w == all[|e|..] == EncodeAll(ps[1..]);
  }

  lemma RunCons(h: History, h1: History, e: seq<Arrival>, es: seq<seq<Arrival>>)
    requires HistoryInv(h) && HistoryInv(h1) && h1 == HistoryStep(h, e)
    ensures ReceiveRun(h, [e] + es) == ReceiveRun(h1, es)
  {
    assert ([e] + es)[1..] == es;
  }

  /** Some number of further events empties the socket. */
  lemma {:induction false} IdleUntilEmpty(h: History, ps: seq<Packet>) returns (n: nat, h': History)
    requires HistoryInv(h) && h.alive && Plain(h.rx.queue)
    requires AllSendable(ps) && h.rx.data + Flow(h.rx.queue) == EncodeAll(ps)
    ensures h' == ReceiveRun(h, Idle(n)) && HistoryInv(h')
    ensures h'.alive && Flow(h'.rx.queue) == [] && h'.consumed == h.consumed + Flow(h.rx.queue)
    decreases |Flow(h.rx.queue)|
  {
    var w := Flow(h.rx.queue);
    if w == [] {
      n, h' := 0, h;
      assert h.consumed + w == h.consumed;
    } else {
      assert h.rx.queue + [] == h.rx.queue && w + [] == w;
      StreamTooLong(ps, h.rx.data + w);
      var h1, ps' := EventOnStream(h, [], [], ps);
      assert Flow(h1.rx.queue) + [] == Flow(h1.rx.queue);
      n, h' := IdleUntilEmpty(h1, ps');
      RunCons(h, h1, [], Idle(n));
      n := n + 1;
    }
  }

  lemma StreamTooLong(ps: seq<Packet>, t: seq<byte>)
    requires AllSendable(ps) && t == EncodeAll(ps) && t != []
    ensures |t| >= 14
  {
    EncodedStart(ps);
  }

  /** Every event finds some bytes, nothing but bytes and interruptions arrives, and at no event do the bytes end right
      after a header. */
  ghost predicate Fed(h: History, events: seq<seq<Arrival>>)
    requires HistoryInv(h)
    decreases |events|
  {
    events == [] ||
    (Plain(events[0]) && Found(h, events[0]) != [] && |h.rx.data + Found(h, events[0])| != PACKET_HEAD_LEN &&
     (HistoryStepKeeps(h, events[0]); Fed(HistoryStep(h, events[0]), events[1..])))
  }

  /** While a stream of encoded packets arrives like that the connection survives, and nothing is lost. */
  lemma {:induction false} FedSurvives(h: History, events: seq<seq<Arrival>>, ps: seq<Packet>)
      returns (h': History, ps': seq<Packet>)
    requires HistoryInv(h) && h.alive && Plain(h.rx.queue) && Fed(h, events)
    requires AllSendable(ps) && h.rx.data + (Flow(h.rx.queue) + AllFlow(events)) == EncodeAll(ps)
    ensures h' == ReceiveRun(h, events) && HistoryInv(h') && h'.alive && Plain(h'.rx.queue)
    ensures AllSendable(ps') && h'.rx.data + Flow(h'.rx.queue) == EncodeAll(ps')
    ensures h'.consumed + Flow(h'.rx.queue) == h.consumed + (Flow(h.rx.queue) + AllFlow(events))
    decreases |events|
  {
    if events == [] {
      h', ps' := h, ps;
      assert Flow(h.rx.queue) + [] == Flow(h.rx.queue);
    } else {
      var later := AllFlow(events[1..]);
      FlowConcat(h.rx.queue, events[0]);
      Associate(Flow(h.rx.queue), Flow(events[0]), later);
      var h1, ps1 := EventOnStream(h, events[0], later, ps);
      h', ps' := FedSurvives(h1, events[1..], ps1);
      Associate(h.consumed, Found(h, events[0]), later);
      Associate(h1.consumed, Flow(h1.rx.queue), later);
    }
  }

  lemma {:induction false} RunConcat(h: History, es: seq<seq<Arrival>>, fs: seq<seq<Arrival>>)
    requires HistoryInv(h)
    ensures ReceiveRun(h, es + fs) == ReceiveRun(ReceiveRun(h, es), fs)
    decreases |es|
  {
    if es == [] {
      assert es + fs == fs;
    } else {
      HistoryStepKeeps(h, es[0]);
      assert (es + fs)[1..] == es[1..] + fs;
      RunConcat(HistoryStep(h, es[0]), es[1..], fs);
    }
  }

  /** A stream of encoded packets, arriving in any pieces over any events of that kind, is delivered completely, packet
      by packet, by those and some number of further events, and the connection is still there. */
  lemma DeliversEverything(h: History, events: seq<seq<Arrival>>, ps: seq<Packet>) returns (n: nat)
    requires HistoryInv(h) && h.alive && Plain(h.rx.queue) && Fed(h, events)
    requires AllSendable(ps) && h.rx.data + (Flow(h.rx.queue) + AllFlow(events)) == EncodeAll(ps)
    ensures var h' := ReceiveRun(h, events + Idle(n));
      && h'.alive && h'.rx.data == [] && Flow(h'.rx.queue) == []
      && h'.frames == h.frames + Encodings(ps)
  {
    hide Flow, AllFlow, Fed, HistoryInv, HistoryStep, ReceiveRun, EncodeAll, Encodings, Plain, AllSendable;
    var w := Flow(h.rx.queue) + AllFlow(events);
    var h1, ps1 := FedSurvives(h, events, ps);
    var h2;
    n, h2 := IdleUntilEmpty(h1, ps1);
    RunConcat(h, events, Idle(n));
    AllDelivered(h, h2, w, ps);
  }

  /** A live connection that has consumed whole packets has handed them on. */
  lemma AllDelivered(h: History, h': History, w: seq<byte>, ps: seq<Packet>)
    requires HistoryInv(h) && h.alive && HistoryInv(h') && h'.alive && h'.consumed == h.consumed + w
    requires AllSendable(ps) && h.rx.data + w == EncodeAll(ps)
    ensures h'.rx.data == [] && h'.frames == h.frames + Encodings(ps)
  {
    hide Split, RxInv, Encode, EncodeAll;
    SplitExtends(h.consumed, w);
    SplitEncoded(ps, EncodeAll(ps));
    assert Split(EncodeAll(ps)).frames == Encodings(ps);
  }

  // ---------------------------------------------------------------------------------------------
  // Events per frame

  /** From state `r` on, the frame `f` is handed on by the last of these events and not before. */
  ghost predicate CompletesAt(r: Rx, events: seq<seq<Arrival>>, f: seq<byte>)
    requires 0 < r.capacity
    decreases |events|
  {
    events != [] &&
    var s := RecvEvent(r.(queue := r.queue + events[0]));
    if |events| == 1 then s.outcome == Delivered(f)
    else s.outcome == Waiting && 0 < s.rx.capacity && CompletesAt(s.rx, events[1..], f)
  }

  /** Every event of a frame brings it forward by at least one byte, and beyond the header by at most 4096. */
  lemma {:induction false} EventsPerFrameFrom(r: Rx, events: seq<seq<Arrival>>, f: seq<byte>)
    requires RxInv(r) && CompletesAt(r, events, f)
    ensures IsFrame(f) && r.data <= f
    ensures |f| - |r.data| <= HeaderMissing(r) + 4096 * |events|
    ensures |events| <= |f| - |r.data|
    decreases |events|
  {
    var r1 := r.(queue := r.queue + events[0]);
    EventAchieves(r1);
    if |events| > 1 {
      EventsPerFrameFrom(RecvEvent(r1).rx, events[1..], f);
    }
  }

  /** No connection starves the others and none stalls: a frame of L bytes takes at least (L - 5) / 4096
      events, rounded up, and at most L. */
  lemma EventsPerFrame(r: Rx, events: seq<seq<Arrival>>, f: seq<byte>)
    requires RxInv(r) && r.data == [] && CompletesAt(r, events, f)
    ensures (|f| - 5 + 4095) / 4096 <= |events| <= |f|
  {
    EventsPerFrameFrom(r, events, f);
  }
}
