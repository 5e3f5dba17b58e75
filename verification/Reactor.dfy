// The worker's event loop on values: the connections with their buffers, the timers and the
// registration table together (src/reactor.c, src/socket_util.c).

module Reactor {
  import opened Answers
  import opened Bytes
  import opened Protocol
  import opened TimeMath
  import opened HeapModel
  import opened HeapProofs
  import opened HeapRuns
  import opened Registration
  import opened SocketModel
  import R = Receiver
  import S = Sender

  const MAX_CONN_TIMEOUT := 60000

  /** A live connection: its timer node, its receiving and sending halves with their histories, and the
      cached time of its accept or of its last completed packet. */
  datatype Conn<N> = Conn(node: N, rx: R.History, tx: S.TxHistory, active: Timeval)

  /** `EventBase`. `now` is the cached time, `conns` the live connections by descriptor, and `owner` the
      callback argument of every timer node: the connection to destroy on expiry. */
  datatype Base<N> = Base(now: Timeval, timers: Timers<N>, table: Table<Option<int>>, listen: int,
                          clientCount: int, conns: map<int, Conn<N>>, owner: map<N, int>)

  /** The deadline that RegisterTimerOutEvent computes from the cached time. */
  function Deadline(t: Timeval): Timeval {
    Add(t, Interval(MAX_CONN_TIMEOUT))
  }

  // ---------------------------------------------------------------------------------------------
  // The invariant

  /** The table and the kernel: exactly the listening descriptor and the live connections are watched, all
      of them for reading, and a connection for writing exactly while it has something to send. */
  ghost predicate Wired<N>(b: Base<N>) {
    && 0 <= b.listen < |b.table.events| && b.listen !in b.conns
    && (forall fd :: fd in b.conns ==> 0 <= fd < |b.table.events|)
    && (forall fd :: fd in b.table.kernel <==> fd in b.conns || fd == b.listen)
    && Mirrors(b.table, b.listen) && b.table.events[b.listen].mask == EVENT_READABLE
    && b.table.events[b.listen].onRead == AcceptCallback
    && (forall fd :: fd in b.conns ==> WiredConn(b.table, fd, b.conns[fd].tx.tx.interest))
  }

  ghost predicate WiredConn(t: Table<Option<int>>, fd: int, interest: bool) {
    && 0 <= fd < |t.events| && Mirrors(t, fd)
    && var e := t.events[fd];
       && e.mask == (if interest then EVENT_BOTH else EVENT_READABLE)
       && e.onRead == RecvCallback && e.arg == Some(fd)
       && (interest ==> e.onWrite == SendCallback)
  }

  /** The timers: nodes and live connections are in bijection, each node waits in the heap (except those of
      the connections in `popped`), and its deadline is a minute after the connection's last activity. */
  ghost predicate Timed<N>(b: Base<N>, popped: set<int>) {
    && TimersValid(b.timers) && Normal(b.now)
    && b.owner.Keys == b.timers.key.Keys
    && (forall n :: n in b.owner ==> b.owner[n] in b.conns && b.conns[b.owner[n]].node == n)
    && (forall fd :: fd in b.conns ==> TimedConn(b, fd, popped))
  }

  ghost predicate TimedConn<N>(b: Base<N>, fd: int, popped: set<int>)
    requires TimersValid(b.timers) && fd in b.conns
  {
    var c := b.conns[fd];
    && c.node in b.owner && b.owner[c.node] == fd && c.node in b.timers.key
    && (b.timers.heap.index[c.node] == -1 <==> fd in popped)
    && b.timers.key[c.node] == Deadline(c.active)
    && Normal(c.active) && AtMost(c.active, b.now)
  }

  /** The buffers of every live connection. */
  ghost predicate Buffered<N>(b: Base<N>) {
    forall fd :: fd in b.conns ==> BufferedConn(b.conns[fd])
  }

  ghost predicate BufferedConn<N>(c: Conn<N>) {
    R.HistoryInv(c.rx) && c.rx.alive && S.Fifo(c.tx) && c.tx.alive
  }

  /** Between callbacks. */
  ghost predicate Inv<N>(b: Base<N>) {
    Wired(b) && Timed(b, {}) && Buffered(b) && b.clientCount == |b.conns|
  }

  lemma InvTimers<N>(b: Base<N>)
    requires Inv(b)
    ensures TimersValid(b.timers) && b.owner.Keys == b.timers.key.Keys
  {}

  /** What the invariant says about the timer of a live connection. */
  lemma ConnTimer<N>(b: Base<N>, fd: int)
    requires Inv(b) && fd in b.conns
    ensures var n, s, c := b.conns[fd].node, b.timers, b.conns[fd];
      && n in s.key && n in s.heap.index && 0 <= s.heap.index[n] < |s.heap.slots| && s.heap.slots[s.heap.index[n]] == n
      && n in b.owner && b.owner[n] == fd
      && s.key[n] == Deadline(c.active) && Normal(c.active) && AtMost(c.active, b.now) && Normal(b.now)
  {
    assert TimedConn(b, fd, {});
  }

  lemma TimersOrdered<N>(b: Base<N>)
    requires Inv(b)
    ensures TimersValid(b.timers) && Keyed(b.timers.heap.slots, b.timers.key) && Ordered(b.timers.heap.slots, b.timers.key)
  {}

  // ---------------------------------------------------------------------------------------------
  // Creating and destroying connections

  ghost predicate Destroyable<N>(b: Base<N>, fd: int) {
    fd in b.conns && 0 <= fd < |b.table.events| && TimersValid(b.timers) && b.conns[fd].node in b.timers.key
  }

  /** `__DestroyConn` up to the point where it frees the connection. */
  ghost function Detached<N>(b: Base<N>, fd: int, rev: Revision): Base<N>
    requires Destroyable(b, fd)
  {
    b.(clientCount := b.clientCount - 1,
       table := FdInit(EventDel(b.table, fd, EVENT_BOTH, true).table, fd, None),
       timers := Do(b.timers, Unregister(b.conns[fd].node), rev))
  }

  /** `__DestroyConn` */
  ghost function Destroy<N>(b: Base<N>, fd: int, rev: Revision): Base<N>
    requires Destroyable(b, fd)
  {
    var node, d := b.conns[fd].node, Detached(b, fd, rev);
    d.(timers := FreeNode(d.timers, node), conns := b.conns - {fd}, owner := b.owner - {node})
  }

  ghost predicate SoundDestroy<N>(b: Base<N>, fd: int, rev: Revision)
    requires fd in b.conns && TimersValid(b.timers) && b.conns[fd].node in b.timers.key
  {
    Sound(b.timers, Unregister(b.conns[fd].node), rev)
  }

  /** `ProcessAcceptCallback` for a client that the kernel has given descriptor `fd`, with `__CreateNewConn`;
      `node` is the freshly allocated timer node. */
  ghost function Accept<N>(b: Base<N>, fd: int, node: N, rev: Revision): Base<N>
    requires Inv(b) && fd !in b.conns && fd != b.listen && 0 <= fd < |b.table.events| && node !in b.timers.key
  {
    InitKeepsValid(b.timers, node, rev);
    var conn := Conn(node, R.Accepted, S.TxHistory(S.Fresh(), [], [], true), b.now);
    var timers := Do(Do(b.timers, Init(node), rev), Register(node, Deadline(b.now)), rev);
    var table := EventAdd(FdInit(b.table, fd, None), fd, EVENT_READABLE, RecvCallback, Some(fd), true).table;
    Base(b.now, timers, table, b.listen, b.clientCount + 1, b.conns[fd := conn], b.owner[node := fd])
  }

  /** An unregistered node is out of the heap, and the others stay in or out of it as they were. */
  lemma UnregisterLeaves<N>(s: Timers<N>, n: N, rev: Revision)
    requires TimersValid(s) && n in s.key && Sound(s, Unregister(n), rev)
    ensures var r := Do(s, Unregister(n), rev);
      && TimersValid(r) && r.key == s.key && r.heap.index[n] == -1
      && (forall x :: x in s.key && x != n ==> (r.heap.index[x] == -1 <==> s.heap.index[x] == -1))
      && |r.heap.slots| == |s.heap.slots| - (if s.heap.index[n] == -1 then 0 else 1)
  {
    UnregisterStep(s, n, rev);
    var r := Do(s, Unregister(n), rev);
    if s.heap.index[n] != -1 {
      ValidMayErase(s.heap, s.key, n);
      EraseContents(s.heap, s.key, n, rev);
      EraseExact(s.heap, s.key, n, rev);
      InHeapIffMember(s);
      InHeapIffMember(r);
    }
  }

  lemma InHeapIffMember<N>(s: Timers<N>)
    requires TimersValid(s)
    ensures forall x :: x in s.key ==> (s.heap.index[x] != -1 <==> x in Members(s.heap))
  {}

  /** A timer unregistered and its node freed: the other nodes keep their deadlines and places. */
  lemma ReleaseLeaves<N>(s: Timers<N>, n: N, rev: Revision)
    requires TimersValid(s) && n in s.key && Sound(s, Unregister(n), rev)
    ensures var r := FreeNode(Do(s, Unregister(n), rev), n);
      && TimersValid(r) && r.key == s.key - {n}
      && (forall x :: x in r.key ==> x in s.heap.index && (r.heap.index[x] == -1 <==> s.heap.index[x] == -1))
      && |r.heap.slots| == |s.heap.slots| - (if s.heap.index[n] == -1 then 0 else 1)
  {
    UnregisterLeaves(s, n, rev);
    FreeNodeValid(Do(s, Unregister(n), rev), n);
  }

  lemma DestroyTimers<N>(b: Base<N>, fd: int, rev: Revision, popped: set<int>)
    requires Timed(b, popped) && Destroyable(b, fd) && popped <= {fd} && SoundDestroy(b, fd, rev)
    ensures Timed(Destroy(b, fd, rev), {})
    ensures |Destroy(b, fd, rev).timers.heap.slots| == |b.timers.heap.slots| - (if fd in popped then 0 else 1)
  {
    var node, b' := b.conns[fd].node, Destroy(b, fd, rev);
    assert TimedConn(b, fd, popped);
    ReleaseLeaves(b.timers, node, rev);
    assert b'.timers.key.Keys == b'.owner.Keys;
    forall g | g in b'.conns ensures TimedConn(b', g, {}) {
      assert TimedConn(b, g, popped);
    }
  }

  /** The entry of a destroyed connection. */
  lemma DestroyedTable(t: Table<Option<int>>, fd: nat, interest: bool)
    requires WiredConn(t, fd, interest)
    ensures var t' := FdInit(EventDel(t, fd, EVENT_BOTH, true).table, fd, None);
      OnlyAt(t, t', fd) && |t'.events| == |t.events| && fd !in t'.kernel && t'.events[fd] == FdEvent(EVENT_NONE, NoCallback, NoCallback, None)
  {
    EventDelMirrors(t, fd, EVENT_BOTH, true);
  }

  lemma DestroyWires<N>(b: Base<N>, fd: int, rev: Revision)
    requires Wired(b) && Destroyable(b, fd)
    ensures Wired(Destroy(b, fd, rev))
    ensures Destroy(b, fd, rev).table.events[fd] == FdEvent(EVENT_NONE, NoCallback, NoCallback, None)
  {
    hide HeapModel.Valid, Do, FreeNode, EventDel, FdInit;
    var b' := Destroy(b, fd, rev);
    assert WiredConn(b.table, fd, b.conns[fd].tx.tx.interest);
    DestroyedTable(b.table, fd, b.conns[fd].tx.tx.interest);
    forall g | g in b'.conns ensures WiredConn(b'.table, g, b'.conns[g].tx.tx.interest) {
      assert WiredConn(b.table, g, b.conns[g].tx.tx.interest);
    }
  }

  /** `__DestroyConn` takes exactly one connection out of everything: the count, the kernel's list, the
      timers and the table, whose entry no longer refers to it. In a sweep, where the node has been popped before, its
      erase does nothing. */
  lemma DestroyKeepsInv<N>(b: Base<N>, fd: int, rev: Revision, popped: set<int>)
    requires Wired(b) && Timed(b, popped) && Buffered(b) && b.clientCount == |b.conns|
    requires Destroyable(b, fd) && popped <= {fd} && SoundDestroy(b, fd, rev)
    ensures Inv(Destroy(b, fd, rev)) && Destroy(b, fd, rev).conns == b.conns - {fd}
    ensures Destroy(b, fd, rev).clientCount == b.clientCount - 1
    ensures 0 <= fd < |Destroy(b, fd, rev).table.events|
    ensures Destroy(b, fd, rev).table.events[fd] == FdEvent(EVENT_NONE, NoCallback, NoCallback, None)
  {
    hide Wired, Timed, HeapModel.Valid, Destroy, SoundDestroy, BufferedConn;
    DestroyFrame(b, fd, rev);
    DestroyWires(b, fd, rev);
    DestroyTimers(b, fd, rev, popped);
    assert (b.conns - {fd}).Keys == b.conns.Keys - {fd};
    forall g | g in Destroy(b, fd, rev).conns ensures BufferedConn(Destroy(b, fd, rev).conns[g]) {
      assert BufferedConn(b.conns[g]);
    }
  }

  lemma RegisterMoves<N>(s: Timers<N>, n: N, t: Timeval, rev: Revision)
    requires TimersValid(s) && Legal(s, Register(n, t)) && Sound(s, Register(n, t), rev)
    ensures var r := Do(s, Register(n, t), rev);
      && TimersValid(r) && r.key == s.key[n := t] && r.heap.index[n] != -1
      && (forall x :: x in s.key && x != n ==> (r.heap.index[x] == -1 <==> s.heap.index[x] == -1))
  {
    RegisterStep(s, n, t, rev);
    ReRegister(s.heap, s.key, n, t, rev);
    InHeapIffMember(s);
    InHeapIffMember(Do(s, Register(n, t), rev));
  }

  /** A node initialised and registered: the other nodes keep their deadlines and places. */
  lemma StartMoves<N>(s: Timers<N>, n: N, t: Timeval, rev: Revision)
    requires TimersValid(s) && n !in s.key
    ensures TimersValid(Do(s, Init(n), rev))
    ensures var r := Do(Do(s, Init(n), rev), Register(n, t), rev);
      && TimersValid(r) && r.key == s.key[n := t] && r.heap.index[n] != -1
      && (forall x :: x in s.key ==> x in r.heap.index && (r.heap.index[x] == -1 <==> s.heap.index[x] == -1))
  {
    InitKeepsValid(s, n, rev);
    RegisterMoves(Do(s, Init(n), rev), n, t, rev);
  }

  lemma AcceptTimers<N>(b: Base<N>, fd: int, node: N, rev: Revision)
    requires Inv(b) && fd !in b.conns && fd != b.listen && 0 <= fd < |b.table.events| && node !in b.timers.key
    ensures Timed(Accept(b, fd, node, rev), {})
  {
    hide Wired, Buffered, EventAdd, FdInit, Do, HeapModel.Valid, Deadline;
    var b' := Accept(b, fd, node, rev);
    StartMoves(b.timers, node, Deadline(b.now), rev);
    ComparisonIsByMicros(b.now, b.now);
    forall g | g in b'.conns ensures TimedConn(b', g, {}) {
      if g != fd {
        assert TimedConn(b, g, {});
      }
    }
  }

  /** The entry of an accepted connection. */
  lemma AcceptTable(t: Table<Option<int>>, fd: nat)
    requires fd < |t.events| && fd !in t.kernel
    ensures var t' := EventAdd(FdInit(t, fd, None), fd, EVENT_READABLE, RecvCallback, Some(fd), true).table;
      OnlyAt(t, t', fd) && |t'.events| == |t.events| && WiredConn(t', fd, false) && fd in t'.kernel
  {
    assert Mirrors(FdInit(t, fd, None), fd);
    EventAddMirrors(FdInit(t, fd, None), fd, EVENT_READABLE, RecvCallback, Some(fd), true);
  }

  lemma AcceptWires<N>(b: Base<N>, fd: int, node: N, rev: Revision)
    requires Inv(b) && fd !in b.conns && fd != b.listen && 0 <= fd < |b.table.events| && node !in b.timers.key
    ensures Wired(Accept(b, fd, node, rev))
  {
    hide Do, HeapModel.Valid, Timed, Buffered, Sound, EventAdd, FdInit;
    var b' := Accept(b, fd, node, rev);
    AcceptTable(b.table, fd);
    forall g | g in b'.conns ensures WiredConn(b'.table, g, b'.conns[g].tx.tx.interest) {
      if g != fd {
        assert WiredConn(b.table, g, b.conns[g].tx.tx.interest);
      }
    }
  }

  lemma AcceptBuffers<N>(b: Base<N>, fd: int, node: N, rev: Revision)
    requires Inv(b) && fd !in b.conns && fd != b.listen && 0 <= fd < |b.table.events| && node !in b.timers.key
    ensures Buffered(Accept(b, fd, node, rev))
  {
    var b' := Accept(b, fd, node, rev);
    AcceptedBuffered(b'.conns[fd]);
    forall g | g in b'.conns ensures BufferedConn(b'.conns[g]) {
      if g != fd {
        assert BufferedConn(b.conns[g]);
      }
    }
  }

  /** An accept puts exactly one connection into everything. */
  lemma AcceptKeepsInv<N>(b: Base<N>, fd: int, node: N, rev: Revision)
    requires Inv(b) && fd !in b.conns && fd != b.listen && 0 <= fd < |b.table.events| && node !in b.timers.key
    ensures Inv(Accept(b, fd, node, rev))
    ensures Accept(b, fd, node, rev).conns.Keys == b.conns.Keys + {fd}
  {
    hide Wired, Timed, Buffered, Do, EventAdd, FdInit, HeapModel.Valid;
    AcceptTimers(b, fd, node, rev);
    AcceptWires(b, fd, node, rev);
    AcceptBuffers(b, fd, node, rev);
    CountGrows(b.conns, fd, Accept(b, fd, node, rev).conns[fd]);
  }

  lemma CountGrows<V>(m: map<int, V>, k: int, v: V)
    requires k !in m
    ensures m[k := v].Keys == m.Keys + {k} && |m[k := v]| == |m| + 1
  {}

  lemma AcceptedBuffered<N>(c: Conn<N>)
    requires c.rx == R.Accepted && c.tx == S.TxHistory(S.Fresh(), [], [], true)
    ensures BufferedConn(c)
  {}

  // ---------------------------------------------------------------------------------------------
  // The read and write callbacks

  /** The packet that the test command's handler sends in answer to a frame. */
  function TestAnswer(request: Packet, reply: Reply, rev: Revision): Packet {
    Answer(request, if rev.AsIntended? then request.cmd else reply.cmd, reply.filler)
  }

  function AnswerSent(request: Packet, reply: Reply, rev: Revision): S.TxEvent
    requires |request.body| + 14 <= PACKET_MAX_LEN
  {
    S.Send(Encode(TestAnswer(request, reply, rev)), ReplyNeed(|request.body| + 14))
  }

  /** What the handler of a complete frame sends: an answer for the test command, the frame itself for an echo,
      nothing otherwise. */
  function HandlerSends(frame: seq<byte>, reply: Reply, rev: Revision): (es: seq<S.TxEvent>)
    requires FrameSized(frame)
  {
    match DispatchOf(frame)
    case TestCommand => [AnswerSent(Decode(frame).value, reply, rev)]
    case Echo => [S.SendEcho(frame)]
    case _ => []
  }

  /** The frame that an event on a connection has completed, if any. */
  ghost function NewFrame(before: R.History, after: R.History): Option<seq<byte>> {
    if |after.frames| > |before.frames| then Some(after.frames[|after.frames| - 1]) else None
  }

  /** `ProcessRecvCallback` after the bytes `arrivals` have reached the socket: destroy the connection, wait
      for more, or hand the frame on, start a new minute and register what the handler wants to send. */
  ghost function Recv<N>(b: Base<N>, fd: int, arrivals: seq<Arrival>, reply: Reply, rev: Revision): Base<N>
    requires Inv(b) && fd in b.conns && SoundRecv(b, fd, arrivals, reply, rev)
  {
    var c := b.conns[fd];
    var h := R.HistoryStep(c.rx, arrivals);
    if !h.alive then Destroy(b, fd, rev)
    else
      match NewFrame(c.rx, h)
      case None => b.(conns := b.conns[fd := c.(rx := h)])
      case Some(frame) =>
        RenewalIsLegal(b, fd);
        NewFrameIsFrame(c.rx, arrivals);
        Complete(b, fd, h, HandlerSends(frame, reply, rev), rev)
  }

  ghost predicate Renewable<N>(b: Base<N>, fd: int) {
    Destroyable(b, fd) && Legal(b.timers, Register(b.conns[fd].node, Deadline(b.now)))
  }

  /** The end of `ProcessRecvCallback` for a complete packet whose handler sends `es`. */
  ghost function Complete<N>(b: Base<N>, fd: int, h: R.History, es: seq<S.TxEvent>, rev: Revision): Base<N>
    requires Renewable(b, fd) && S.Fifo(b.conns[fd].tx) && S.SoundTxRun(b.conns[fd].tx, fd, es, rev)
  {
    var c := b.conns[fd];
    b.(conns := b.conns[fd := Conn(c.node, h, S.TxRun(c.tx, fd, es, rev), b.now)],
       table := SendTable(b.table, fd, es),
       timers := Do(b.timers, Register(c.node, Deadline(b.now)), rev))
  }

  /** The registration of write interest by a handler that sends `es`. */
  ghost function SendTable(t: Table<Option<int>>, fd: nat, es: seq<S.TxEvent>): Table<Option<int>>
    requires fd < |t.events|
  {
    if es == [] then t else EventAdd(t, fd, EVENT_WRITABLE, SendCallback, Some(fd), true).table
  }

  ghost predicate SoundRecv<N>(b: Base<N>, fd: int, arrivals: seq<Arrival>, reply: Reply, rev: Revision)
    requires Inv(b) && fd in b.conns
  {
    var c := b.conns[fd];
    assert BufferedConn(c) && TimedConn(b, fd, {});
    var h := R.HistoryStep(c.rx, arrivals);
    if !h.alive then SoundDestroy(b, fd, rev)
    else
      match NewFrame(c.rx, h)
      case None => true
      case Some(frame) =>
        RenewalIsLegal(b, fd);
        NewFrameIsFrame(c.rx, arrivals);
        && S.SoundTxRun(c.tx, fd, HandlerSends(frame, reply, rev), rev)
        && Sound(b.timers, Register(c.node, Deadline(b.now)), rev)
  }

  /** The read callback, case by case. */
  lemma RecvCases<N>(b: Base<N>, fd: int, arrivals: seq<Arrival>, reply: Reply, rev: Revision)
    requires Inv(b) && fd in b.conns && SoundRecv(b, fd, arrivals, reply, rev)
    ensures Renewable(b, fd) && R.HistoryInv(b.conns[fd].rx) && b.conns[fd].rx.alive && 0 < b.conns[fd].rx.rx.capacity
    ensures S.Fifo(b.conns[fd].tx) && b.conns[fd].tx.alive
    ensures var c := b.conns[fd];
      var h := R.HistoryStep(c.rx, arrivals);
      var b' := Recv(b, fd, arrivals, reply, rev);
      && (fd in b'.conns <==> h.alive)
      && (!h.alive ==> SoundDestroy(b, fd, rev) && b' == Destroy(b, fd, rev))
      && (h.alive && NewFrame(c.rx, h).None? ==> b' == b.(conns := b.conns[fd := c.(rx := h)]))
      && (h.alive && NewFrame(c.rx, h).Some? ==>
            var frame := NewFrame(c.rx, h).value;
            && FrameSized(frame) && S.SoundTxRun(c.tx, fd, HandlerSends(frame, reply, rev), rev)
            && Sound(b.timers, Register(c.node, Deadline(b.now)), rev)
            && b' == Complete(b, fd, h, HandlerSends(frame, reply, rev), rev))
  {
    assert BufferedConn(b.conns[fd]) && TimedConn(b, fd, {});
    RenewalIsLegal(b, fd);
    NewFrameIsFrame(b.conns[fd].rx, arrivals);
  }

  /** What is handed on is a frame. */
  lemma NewFrameIsFrame(h: R.History, arrivals: seq<Arrival>)
    requires R.HistoryInv(h)
    ensures var h' := R.HistoryStep(h, arrivals);
      && h.frames <= h'.frames && |h'.frames| <= |h.frames| + 1
      && h'.frames == (if NewFrame(h, h').Some? then h.frames + [NewFrame(h, h').value] else h.frames)
      && (NewFrame(h, h').Some? ==> FrameSized(NewFrame(h, h').value))
  {
    if h.alive {
      var r := h.rx.(queue := h.rx.queue + arrivals);
      R.EventAchieves(r);
      if R.RecvEvent(r).outcome.Delivered? {
        AcceptedLength(R.RecvEvent(r).outcome.frame);
      }
    }
  }

  /** `ProcessSendCallback` */
  ghost function Send<N>(b: Base<N>, fd: int, script: seq<Acceptance>, rev: Revision): Base<N>
    requires Inv(b) && fd in b.conns
  {
    var c := b.conns[fd];
    assert BufferedConn(c) && TimedConn(b, fd, {});
    var tx := S.TxStep(c.tx, fd, S.Writable(script), rev);
    if !tx.alive then Destroy(b, fd, rev)
    else SentBy(b, fd, tx, c.tx.tx.interest && !tx.tx.interest)
  }

  /** The end of `ProcessSendCallback` on a connection that survives with `tx`; `drained` ends write interest. */
  ghost function SentBy<N>(b: Base<N>, fd: int, tx: S.TxHistory, drained: bool): Base<N>
    requires fd in b.conns && 0 <= fd < |b.table.events|
  {
    b.(conns := b.conns[fd := b.conns[fd].(tx := tx)],
       table := if drained then EventDel(b.table, fd, EVENT_WRITABLE, true).table else b.table)
  }

  /** The write callback, case by case. */
  lemma SendCases<N>(b: Base<N>, fd: int, script: seq<Acceptance>, rev: Revision)
    requires Inv(b) && fd in b.conns
    ensures Destroyable(b, fd) && S.Fifo(b.conns[fd].tx) && b.conns[fd].tx.alive
    ensures b.conns[fd].tx.tx.cur <= |b.conns[fd].tx.tx.bytes| && 0 < b.conns[fd].tx.tx.capacity
    ensures var c := b.conns[fd];
      var tx := S.TxStep(c.tx, fd, S.Writable(script), rev);
      && (fd in Send(b, fd, script, rev).conns <==> tx.alive)
      && Send(b, fd, script, rev) ==
           if !tx.alive then Destroy(b, fd, rev) else SentBy(b, fd, tx, c.tx.tx.interest && !tx.tx.interest)
  {
    assert BufferedConn(b.conns[fd]) && TimedConn(b, fd, {});
  }

  ghost predicate SoundSend<N>(b: Base<N>, fd: int, script: seq<Acceptance>, rev: Revision)
    requires Inv(b) && fd in b.conns
  {
    assert BufferedConn(b.conns[fd]) && TimedConn(b, fd, {});
    S.TxStep(b.conns[fd].tx, fd, S.Writable(script), rev).alive || SoundDestroy(b, fd, rev)
  }

  /** With the line as intended a connection can always be destroyed. */
  lemma DestroyIsSound<N>(b: Base<N>, fd: int)
    requires Inv(b) && fd in b.conns
    ensures TimersValid(b.timers) && b.conns[fd].node in b.timers.key && SoundDestroy(b, fd, AsIntended)
  {
    hide Sound, HeapModel.Valid, Wired, Buffered;
    assert TimedConn(b, fd, {});
    IntendedIsSound(b.timers, Unregister(b.conns[fd].node));
  }

  lemma SendIsSound<N>(b: Base<N>, fd: int, script: seq<Acceptance>)
    requires Inv(b) && fd in b.conns
    ensures SoundSend(b, fd, script, AsIntended)
  {
    hide Inv, SoundDestroy, S.TxStep;
    DestroyIsSound(b, fd);
  }

  /** `b'` is `b` with connection `fd` replaced by `c`; the table and the timers may differ, too. */
  ghost predicate Updated<N>(b: Base<N>, b': Base<N>, fd: int, c: Conn<N>) {
    && fd in b.conns && c.node == b.conns[fd].node
    && b'.conns == b.conns[fd := c] && b'.now == b.now && b'.listen == b.listen
    && b'.owner == b.owner && b'.clientCount == b.clientCount
  }

  lemma UpdateWires<N>(b: Base<N>, b': Base<N>, fd: int, c: Conn<N>)
    requires Wired(b) && Updated(b, b', fd, c)
    requires OnlyAt(b.table, b'.table, fd) && WiredConn(b'.table, fd, c.tx.tx.interest)
    ensures Wired(b')
  {
    forall g | g in b'.conns ensures WiredConn(b'.table, g, b'.conns[g].tx.tx.interest) {
      assert WiredConn(b.table, g, b.conns[g].tx.tx.interest);
    }
  }

  lemma UpdateBuffers<N>(b: Base<N>, b': Base<N>, fd: int, c: Conn<N>)
    requires Buffered(b) && Updated(b, b', fd, c) && BufferedConn(c)
    ensures Buffered(b')
  {
    forall g | g in b'.conns ensures BufferedConn(b'.conns[g]) {
      assert BufferedConn(b.conns[g]);
    }
  }

  /** The last activity does not change: the timers are as before. */
  lemma UpdateTimers<N>(b: Base<N>, b': Base<N>, fd: int, c: Conn<N>)
    requires Timed(b, {}) && Updated(b, b', fd, c) && c.active == b.conns[fd].active && b'.timers == b.timers
    ensures Timed(b', {})
  {
    forall g | g in b'.conns ensures TimedConn(b', g, {}) {
      assert TimedConn(b, g, {});
    }
  }

  /** A new minute starts for one connection. */
  lemma RenewTimers<N>(b: Base<N>, b': Base<N>, fd: int, c: Conn<N>, rev: Revision)
    requires Timed(b, {}) && Updated(b, b', fd, c) && c.active == b.now
    requires Legal(b.timers, Register(c.node, Deadline(b.now))) && Sound(b.timers, Register(c.node, Deadline(b.now)), rev)
    requires b'.timers == Do(b.timers, Register(c.node, Deadline(b.now)), rev)
    ensures Timed(b', {})
  {
    hide Do, Legal, Sound, HeapModel.Valid, Deadline;
    assert TimedConn(b, fd, {});
    RegisterMoves(b.timers, c.node, Deadline(b.now), rev);
    ComparisonIsByMicros(b.now, b.now);
    forall g | g in b'.conns ensures TimedConn(b', g, {}) {
      assert TimedConn(b, g, {});
    }
  }

  /** The deadline of a live connection never moves backwards when it is renewed. */
  lemma RenewalIsLegal<N>(b: Base<N>, fd: int)
    requires Timed(b, {}) && fd in b.conns
    ensures TimersValid(b.timers) && Legal(b.timers, Register(b.conns[fd].node, Deadline(b.now)))
    ensures Sound(b.timers, Register(b.conns[fd].node, Deadline(b.now)), AsIntended)
    ensures 0 <= fd < |b.table.events| ==> Renewable(b, fd)
  {
    hide Sound, Deadline, HeapModel.Valid;
    assert TimedConn(b, fd, {});
    DeadlineMonotonic(b.conns[fd].active, b.now);
    IntendedIsSound(b.timers, Register(b.conns[fd].node, Deadline(b.now)));
  }

  lemma DeadlineMonotonic(a: Timeval, b: Timeval)
    requires Normal(a) && Normal(b)
    ensures Normal(Deadline(a)) && Micros(Deadline(a)) == Micros(a) + 60 * USEC_PER_SEC
    ensures Greater(Deadline(a), Deadline(b)) <==> Greater(a, b)
    ensures AtMost(a, b) <==> !Greater(a, b)
  {
    AddSubExact(a, Interval(MAX_CONN_TIMEOUT));
    AddSubExact(b, Interval(MAX_CONN_TIMEOUT));
    ComparisonIsByMicros(a, b);
    ComparisonIsByMicros(Deadline(a), Deadline(b));
  }

  /** The table after a handler has sent `es`. */
  lemma SendsWire<N>(b: Base<N>, fd: int, es: seq<S.TxEvent>)
    requires Wired(b) && fd in b.conns
    ensures var table := SendTable(b.table, fd, es);
      OnlyAt(b.table, table, fd) && |table.events| == |b.table.events|
          && WiredConn(table, fd, b.conns[fd].tx.tx.interest || es != [])
  {
    assert WiredConn(b.table, fd, b.conns[fd].tx.tx.interest);
    EventAddMirrors(b.table, fd, EVENT_WRITABLE, SendCallback, Some(fd), true);
  }

  /** Everything about the connections outside `fds` is as before. */
  ghost predicate OthersUntouched<N>(b: Base<N>, b': Base<N>, fds: set<int>) {
    && b'.now == b.now && b'.listen == b.listen && |b'.table.events| == |b.table.events|
    && (forall g :: g !in fds ==> (g in b'.conns <==> g in b.conns))
    && (forall g :: g !in fds && g in b.conns ==> b'.conns[g] == b.conns[g])
  }

  lemma ConnFacts<N>(b: Base<N>, fd: int)
    requires Inv(b) && fd in b.conns
    ensures BufferedConn(b.conns[fd]) && WiredConn(b.table, fd, b.conns[fd].tx.tx.interest)
  {}

  lemma CompleteKeepsInv<N>(b: Base<N>, fd: int, h: R.History, es: seq<S.TxEvent>, rev: Revision)
    requires Inv(b) && Renewable(b, fd) && R.HistoryInv(h) && h.alive
    requires S.SoundTxRun(b.conns[fd].tx, fd, es, rev) && forall i :: 0 <= i < |es| ==> !es[i].Writable?
    requires Sound(b.timers, Register(b.conns[fd].node, Deadline(b.now)), rev)
    ensures Inv(Complete(b, fd, h, es, rev)) && OthersUntouched(b, Complete(b, fd, h, es, rev), {fd})
  {
    hide Wired, Timed, Buffered, WiredConn, OnlyAt, R.HistoryInv, S.Fifo, S.SoundTxRun, S.TxRun, SendTable, Legal, Sound, HeapModel.Valid, Do;
    ConnFacts(b, fd);
    var b' := Complete(b, fd, h, es, rev);
    var conn := b'.conns[fd];
    S.SendsKeepAlive(b.conns[fd].tx, fd, es, rev);
    SendsWire(b, fd, es);
    assert Updated(b, b', fd, conn);
    UpdateWires(b, b', fd, conn);
    UpdateBuffers(b, b', fd, conn);
    RenewTimers(b, b', fd, conn, rev);
    assert b'.conns.Keys == b.conns.Keys;
  }

  lemma WaitKeepsInv<N>(b: Base<N>, fd: int, h: R.History)
    requires Inv(b) && fd in b.conns && R.HistoryInv(h) && h.alive
    ensures var b' := b.(conns := b.conns[fd := b.conns[fd].(rx := h)]); Inv(b') && OthersUntouched(b, b', {fd})
  {
    var c := b.conns[fd];
    var b' := b.(conns := b.conns[fd := c.(rx := h)]);
    assert BufferedConn(c) && WiredConn(b.table, fd, c.tx.tx.interest);
    UpdateWires(b, b', fd, c.(rx := h));
    UpdateBuffers(b, b', fd, c.(rx := h));
    UpdateTimers(b, b', fd, c.(rx := h));
    assert b'.conns.Keys == b.conns.Keys;
  }

  lemma DestroyFrame<N>(b: Base<N>, fd: int, rev: Revision)
    requires Destroyable(b, fd)
    ensures var b' := Destroy(b, fd, rev);
      && b'.now == b.now && b'.listen == b.listen && |b'.table.events| == |b.table.events|
      && b'.conns == b.conns - {fd} && b'.clientCount == b.clientCount - 1 && b'.owner == b.owner - {b.conns[fd].node}
  {
    hide HeapModel.Valid, Do, FreeNode;
  }

  /** `__DestroyConn` between events. */
  lemma DestroyLive<N>(b: Base<N>, fd: int, rev: Revision)
    requires Inv(b) && Destroyable(b, fd) && SoundDestroy(b, fd, rev)
    ensures Inv(Destroy(b, fd, rev)) && OthersUntouched(b, Destroy(b, fd, rev), {fd})
  {
    hide Wired, Timed, Buffered, SoundDestroy, Destroy;
    DestroyKeepsInv(b, fd, rev, {});
    DestroyFrame(b, fd, rev);
  }

  lemma SendsOnly(frame: seq<byte>, reply: Reply, rev: Revision)
    requires FrameSized(frame)
    ensures forall i :: 0 <= i < |HandlerSends(frame, reply, rev)| ==> !HandlerSends(frame, reply, rev)[i].Writable?
  {}

  /** What the handler of a frame sends is the frame's answer, and goes behind everything sent before. */
  lemma HandlerAnswers(tx: S.TxHistory, fd: int, frame: seq<byte>, reply: Reply, rev: Revision) returns (answer: seq<byte>)
    requires S.Fifo(tx) && tx.alive && FrameSized(frame) && S.SoundTxRun(tx, fd, HandlerSends(frame, reply, rev), rev)
    ensures IsAnswer(frame, answer, rev)
    ensures var tx' := S.TxRun(tx, fd, HandlerSends(frame, reply, rev), rev);
      tx'.appended == tx.appended + answer && tx'.wire == tx.wire
  {
    hide S.Fifo, S.SoundTx, S.SendPacket, S.Echo, S.SoundTxRun, S.TxRun, Encode;
    LiveInBounds(tx);
    match DispatchOf(frame)
    case TestCommand =>
      var e := AnswerSent(Decode(frame).value, reply, rev);
      S.TxRunOne(tx, fd, e, rev);
      S.TxStepAppends(tx, fd, e, rev);
      TestAnswerIs(frame, reply, rev);
      answer := e.packet;
    case Echo =>
      S.TxRunOne(tx, fd, S.SendEcho(frame), rev);
      S.TxStepAppends(tx, fd, S.SendEcho(frame), rev);
      answer := frame;
    case _ =>
      S.TxRunNone(tx, fd, rev);
      answer := [];
      assert tx.appended + [] == tx.appended;
  }

  lemma TestAnswerIs(frame: seq<byte>, reply: Reply, rev: Revision)
    requires FrameSized(frame) && DispatchOf(frame) == TestCommand
    ensures IsAnswer(frame, AnswerSent(Decode(frame).value, reply, rev).packet, rev)
  {
    hide Encode;
    var p := TestAnswer(Decode(frame).value, reply, rev);
    assert p == Packet(p.cmd, Decode(frame).value.sequence, p.body) && |p.body| == |frame| + 114;
  }

  /** The read callback keeps the invariant, whether it destroys the connection, waits, or completes a packet;
      only a completed packet renews the connection's minute. */
  lemma RecvKeepsInv<N>(b: Base<N>, fd: int, arrivals: seq<Arrival>, reply: Reply, rev: Revision)
    requires Inv(b) && fd in b.conns && SoundRecv(b, fd, arrivals, reply, rev)
    ensures Inv(Recv(b, fd, arrivals, reply, rev)) && OthersUntouched(b, Recv(b, fd, arrivals, reply, rev), {fd})
  {
    hide Inv, SoundRecv, Recv, Complete, Destroy, HandlerSends, OthersUntouched, R.HistoryInv, R.HistoryStep;
    RecvCases(b, fd, arrivals, reply, rev);
    var c := b.conns[fd];
    var h := R.HistoryStep(c.rx, arrivals);
    R.HistoryStepKeeps(c.rx, arrivals);
    NewFrameIsFrame(c.rx, arrivals);
    if !h.alive {
      DestroyLive(b, fd, rev);
    } else if NewFrame(c.rx, h).None? {
      WaitKeepsInv(b, fd, h);
    } else {
      var frame := NewFrame(c.rx, h).value;
      SendsOnly(frame, reply, rev);
      CompleteKeepsInv(b, fd, h, HandlerSends(frame, reply, rev), rev);
    }
  }

  lemma RecvShrinks<N>(b: Base<N>, fd: int, arrivals: seq<Arrival>, reply: Reply, rev: Revision)
    requires Inv(b) && fd in b.conns && SoundRecv(b, fd, arrivals, reply, rev)
    ensures Recv(b, fd, arrivals, reply, rev).conns.Keys <= b.conns.Keys
  {
    hide Inv, SoundRecv, Recv, HandlerSends;
    RecvCases(b, fd, arrivals, reply, rev);
  }

  /** What the read callback does to the connection itself. */
  lemma RecvEffect<N>(b: Base<N>, fd: int, arrivals: seq<Arrival>, reply: Reply, rev: Revision)
    requires Inv(b) && fd in b.conns && SoundRecv(b, fd, arrivals, reply, rev)
    ensures var b', h := Recv(b, fd, arrivals, reply, rev), R.HistoryStep(b.conns[fd].rx, arrivals);
      && (fd in b'.conns <==> h.alive)
      && (fd in b'.conns ==> b'.conns[fd].rx == h && b'.conns[fd].node == b.conns[fd].node)
      && (fd in b'.conns ==>
            b'.conns[fd].active == if NewFrame(b.conns[fd].rx, h).Some? then b.now else b.conns[fd].active)
  {
    assert BufferedConn(b.conns[fd]) && TimedConn(b, fd, {});
  }

  /** What it does to the bytes sent: the answer to a completed packet goes behind them, and nothing is written yet. */
  lemma RecvAnswers<N>(b: Base<N>, fd: int, arrivals: seq<Arrival>, reply: Reply, rev: Revision) returns (answer: seq<byte>)
    requires Inv(b) && fd in b.conns && SoundRecv(b, fd, arrivals, reply, rev) && fd in Recv(b, fd, arrivals, reply, rev).conns
    ensures var c, tx, h := b.conns[fd], Recv(b, fd, arrivals, reply, rev).conns[fd].tx, R.HistoryStep(b.conns[fd].rx, arrivals);
      && tx.appended == c.tx.appended + answer && tx.wire == c.tx.wire
      && match NewFrame(c.rx, h)
         case None => answer == []
         case Some(frame) => FrameSized(frame) && IsAnswer(frame, answer, rev)
  {
    hide Inv, SoundRecv, Recv, Destroy, HandlerSends, IsAnswer, R.HistoryStep, R.HistoryInv, S.Fifo, S.SoundTxRun, S.TxRun;
    RecvCases(b, fd, arrivals, reply, rev);
    var c := b.conns[fd];
    var h := R.HistoryStep(c.rx, arrivals);
    if NewFrame(c.rx, h).Some? {
      answer := HandlerAnswers(c.tx, fd, NewFrame(c.rx, h).value, reply, rev);
    } else {
      answer := [];
      assert c.tx.appended + [] == c.tx.appended;
    }
  }

  /** The table after a write callback. */
  lemma SentWires<N>(b: Base<N>, fd: int, interest: bool)
    requires Wired(b) && fd in b.conns && (interest ==> b.conns[fd].tx.tx.interest)
    ensures var table := if b.conns[fd].tx.tx.interest && !interest then EventDel(b.table, fd, EVENT_WRITABLE,
        true).table else b.table;
      OnlyAt(b.table, table, fd) && |table.events| == |b.table.events| && WiredConn(table, fd, interest)
  {
    assert WiredConn(b.table, fd, b.conns[fd].tx.tx.interest);
    EventDelMirrors(b.table, fd, EVENT_WRITABLE, true);
  }

  lemma SentKeepsInv<N>(b: Base<N>, fd: int, tx: S.TxHistory)
    requires Inv(b) && Destroyable(b, fd) && S.Fifo(tx) && tx.alive && (tx.tx.interest ==> b.conns[fd].tx.tx.interest)
    ensures var b' := SentBy(b, fd, tx, b.conns[fd].tx.tx.interest && !tx.tx.interest);
      Inv(b') && OthersUntouched(b, b', {fd})
  {
    hide Wired, Timed, Buffered, WiredConn, OnlyAt, R.HistoryInv, S.Fifo, HeapModel.Valid, EventDel;
    var c := b.conns[fd];
    var b' := SentBy(b, fd, tx, c.tx.tx.interest && !tx.tx.interest);
    ConnFacts(b, fd);
    SentWires(b, fd, tx.tx.interest);
    assert Updated(b, b', fd, c.(tx := tx));
    UpdateWires(b, b', fd, c.(tx := tx));
    UpdateBuffers(b, b', fd, c.(tx := tx));
    UpdateTimers(b, b', fd, c.(tx := tx));
    assert b'.conns.Keys == b.conns.Keys;
  }

  /** The write callback keeps the invariant. */
  lemma SendKeepsInv<N>(b: Base<N>, fd: int, script: seq<Acceptance>, rev: Revision)
    requires Inv(b) && fd in b.conns && SoundSend(b, fd, script, rev)
    ensures Inv(Send(b, fd, script, rev)) && OthersUntouched(b, Send(b, fd, script, rev), {fd})
  {
    hide Inv, Send, Destroy, SentBy, OthersUntouched, S.TxStep, S.Fifo;
    SendCases(b, fd, script, rev);
    var c := b.conns[fd];
    S.TxStepKeepsFifo(c.tx, fd, S.Writable(script), rev);
    WritableOnlyEnds(c.tx, fd, script, rev);
    if !S.TxStep(c.tx, fd, S.Writable(script), rev).alive {
      DestroyLive(b, fd, rev);
    } else {
      SentKeepsInv(b, fd, S.TxStep(c.tx, fd, S.Writable(script), rev));
    }
  }

  lemma SendShrinks<N>(b: Base<N>, fd: int, script: seq<Acceptance>, rev: Revision)
    requires Inv(b) && fd in b.conns
    ensures Send(b, fd, script, rev).conns.Keys <= b.conns.Keys
  {
    hide Inv, Send, S.TxStep;
    SendCases(b, fd, script, rev);
  }

  /** It leaves the received part and the timer of its connection alone. */
  lemma SendEffect<N>(b: Base<N>, fd: int, script: seq<Acceptance>, rev: Revision)
    requires Inv(b) && fd in b.conns && fd in Send(b, fd, script, rev).conns
    ensures var c, c' := b.conns[fd], Send(b, fd, script, rev).conns[fd];
      c'.rx == c.rx && c'.active == c.active && c'.node == c.node
  {
    SendCases(b, fd, script, rev);
  }

  /** What it writes: as many of the pending bytes as the socket takes; and when it loses the connection. */
  lemma SendWrites<N>(b: Base<N>, fd: int, script: seq<Acceptance>, rev: Revision)
    requires Inv(b) && fd in b.conns && b.conns[fd].tx.tx.bytes != []
    ensures b.conns[fd].tx.tx.cur <= |b.conns[fd].tx.tx.bytes|
    ensures var tx, k, b' := b.conns[fd].tx, Taken(script), Send(b, fd, script, rev);
      var pending := S.Pending(tx.tx);
      && (fd in b'.conns <==> fd != 0 && (k >= |pending| || !Fatal(script)))
      && (fd in b'.conns ==> b'.conns[fd].tx.appended == tx.appended && b'.conns[fd].tx.alive)
      && (fd in b'.conns ==> b'.conns[fd].tx.wire == tx.wire + pending[..if k >= |pending| then |pending| else k])
  {
    hide Inv, Destroy, S.SendEvent, S.Pending, Taken, Fatal;
    ConnFacts(b, fd);
    ConnInTable(b, fd);
    SendCases(b, fd, script, rev);
    S.WritableExact(b.conns[fd].tx.tx, fd, script);
  }

  lemma ConnInTable<N>(b: Base<N>, fd: int)
    requires Inv(b) && fd in b.conns
    ensures 0 <= fd < |b.table.events|
  {}

  /** A writable event may end write interest but never begins it. */
  lemma WritableOnlyEnds(h: S.TxHistory, fd: int, script: seq<Acceptance>, rev: Revision)
    requires S.Fifo(h) && h.alive
    ensures S.TxStep(h, fd, S.Writable(script), rev).tx.interest ==> h.tx.interest
    ensures S.TxStep(h, fd, S.Writable(script), rev).appended == h.appended
  {}

  // ---------------------------------------------------------------------------------------------
  // What remains to be asked of the handlers when the defective lines are as intended

  /** The handler of `frame` has the room for what it sends: an answer needs 14 bytes more than asked for, and an
      echo an empty buffer that is large enough. */
  predicate HandlerProper(tx: S.Tx, frame: seq<byte>)
    requires FrameSized(frame) && tx.cur <= |tx.bytes| && 0 < tx.capacity
  {
    match DispatchOf(frame)
    case TestCommand => S.RoomBehind(tx, |frame| + 114) - (|frame| + 114) >= 14
    case Echo => tx.bytes == [] && |frame| <= tx.room
    case _ => true
  }

  /** The handler of a frame is sound exactly when it has the room, whatever the filler. */
  lemma HandlerSoundIff(tx: S.TxHistory, fd: int, frame: seq<byte>, reply: Reply)
    requires S.Fifo(tx) && tx.alive && FrameSized(frame)
    ensures S.SoundTxRun(tx, fd, HandlerSends(frame, reply, AsIntended), AsIntended) <==> HandlerProper(tx.tx, frame)
  {
    hide S.RoomBehind, S.Fifo, S.TxStep, Encode;
    var es := HandlerSends(frame, reply, AsIntended);
    if es != [] {
      assert es[1..] == [];
    }
    LiveInBounds(tx);
  }

  lemma LiveInBounds(tx: S.TxHistory)
    requires S.Fifo(tx) && tx.alive
    ensures S.TxInv(tx.tx) && tx.tx.cur <= |tx.tx.bytes| && 0 < tx.tx.capacity
  {}

  lemma InvTimed<N>(b: Base<N>)
    requires Inv(b)
    ensures Timed(b, {})
  {}

  /** The read callback is sound, whatever arrives, exactly when the handler of a packet that it completes has
      the room for what it sends. */
  lemma IntendedRecvIff<N>(b: Base<N>, fd: int, arrivals: seq<Arrival>, reply: Reply)
    requires Inv(b) && fd in b.conns
    ensures SoundRecv(b, fd, arrivals, reply, AsIntended) <==> ReadProper(b, fd, arrivals)
  {
    hide Inv, Sound, SoundDestroy, HandlerSends, S.SoundTxRun, HandlerProper, R.HistoryStep;
    var c := b.conns[fd];
    ConnFacts(b, fd);
    InvTimed(b);
    DestroyIsSound(b, fd);
    RenewalIsLegal(b, fd);
    NewFrameIsFrame(c.rx, arrivals);
    var h := R.HistoryStep(c.rx, arrivals);
    if h.alive && NewFrame(c.rx, h).Some? {
      HandlerSoundIff(c.tx, fd, NewFrame(c.rx, h).value, reply);
    }
  }

  /** If the event completes a packet, its handler has the room for what it sends. */
  ghost predicate ReadProper<N>(b: Base<N>, fd: int, arrivals: seq<Arrival>)
    requires Inv(b) && fd in b.conns
  {
    ConnFacts(b, fd);
    var c := b.conns[fd];
    var h := R.HistoryStep(c.rx, arrivals);
    NewFrameIsFrame(c.rx, arrivals);
    LiveInBounds(c.tx);
    h.alive && NewFrame(c.rx, h).Some? ==> HandlerProper(c.tx.tx, NewFrame(c.rx, h).value)
  }
}
