// The reactor as the source has it: one structure with the table of expected events, the timer heap,
// the cached time and the client count, tied method by method to the value model Reactor.

module EventBases {
  import opened Bytes
  import opened Protocol
  import opened TimeMath
  import opened HeapModel
  import opened HeapProofs
  import opened HeapRuns
  import opened MinHeap
  import opened Registration
  import opened SocketModel
  import opened SocketApi
  import opened Connection
  import E = EventLoop
  import M = Reactor
  import R = Receiver
  import S = Sender
  import W = WorkerRuns

  function ArgFd(c: ConnFd?): Option<int> {
    if c == null then None else Some(c.socket.fd)
  }

  /** A table entry as a value. */
  function EntryOf(e: FdEvent<ConnFd?>): FdEvent<Option<int>> {
    FdEvent(e.mask, e.onRead, e.onWrite, ArgFd(e.arg))
  }

  lemma EventDelLength(t: Table<Option<int>>, fd: nat)
    requires fd < |t.events|
    ensures |Registration.EventDel(t, fd, EVENT_BOTH, true).table.events| == |t.events|
  {}

  lemma AddedEntry(e: FdEvent<ConnFd?>, mask: Mask, callback: Callback, arg: ConnFd?)
    ensures EntryOf(Added(e, mask, callback, arg)) == Added(EntryOf(e), mask, callback, ArgFd(arg))
    ensures Added(e, mask, callback, arg).mask == e.mask.Or(mask)
  {}

  /** The callback arguments in a table. */
  function ArgsOf(es: seq<FdEvent<ConnFd?>>): (args: seq<ConnFd?>)
    ensures |args| == |es|
  {
    seq(|es|, i requires 0 <= i < |es| => es[i].arg)
  }

  /** Connection `c` with its timer node is as `conn` says. */
  ghost predicate ConnIs(c: ConnFd?, fd: int, conn: M.Conn<TimeoutEvent>)
    reads if c == null then {} else {c}`past
  {
    && c != null && c.socket.fd == fd && c.timeoutEvent.fd == fd
    && c.past == conn && conn.node == c.timeoutEvent
  }

  /** The callback arguments `args` of the table lead to the connections `live`, and those to their timer
      nodes, whose callback arguments, as `owner` says, lead back. */
  ghost predicate Linked(args: seq<ConnFd?>, live: map<int, M.Conn<TimeoutEvent>>, owner: map<TimeoutEvent, int>)
    reads owner.Keys`callbackArg, (set c | c in args && c != null)`past
  {
    && (forall fd :: fd in live ==> 0 <= fd < |args| && ConnIs(args[fd], fd, live[fd]))
    && (forall n :: n in owner ==>
          owner[n] == n.fd && n.fd in live && live[n.fd].node == n && n.callbackArg == args[n.fd])
  }

  lemma Unlinked(args: seq<ConnFd?>, live: map<int, M.Conn<TimeoutEvent>>, owner: map<TimeoutEvent, int>, fd: int)
    requires Linked(args, live, owner) && fd in live
    ensures Linked(args[fd := null], live - {fd}, owner - {live[fd].node})
  {}

  /** One connection's value has changed. */
  lemma LinkedAnew(args: seq<ConnFd?>, live: map<int, M.Conn<TimeoutEvent>>, owner: map<TimeoutEvent, int>, fd: nat,
      c: ConnFd)
    requires LinkedBut(args, live, owner, fd) && fd in live && args[fd] == c
    requires c.socket.fd == fd && c.timeoutEvent.fd == fd && c.past.node == c.timeoutEvent == live[fd].node
    ensures Linked(args, live[fd := c.past], owner)
  {}

  /** The same as Linked for all connections but that of `fd`. */
  ghost predicate LinkedBut(args: seq<ConnFd?>, live: map<int, M.Conn<TimeoutEvent>>, owner: map<TimeoutEvent, int>,
      fd: int)
    reads owner.Keys`callbackArg, (set c | c in args && c != null)`past
  {
    && (forall g :: g in live ==> 0 <= g < |args| && (g == fd || ConnIs(args[g], g, live[g])))
    && (forall n :: n in owner ==>
          owner[n] == n.fd && n.fd in live && live[n.fd].node == n && n.callbackArg == args[n.fd])
  }

  lemma LinkedMore(args: seq<ConnFd?>, live: map<int, M.Conn<TimeoutEvent>>, owner: map<TimeoutEvent, int>, fd: nat,
      c: ConnFd)
    requires Linked(args, live, owner) && fd !in live && fd < |args|
    requires ConnIs(c, fd, c.past) && c.timeoutEvent !in owner && c.timeoutEvent.callbackArg == c
    ensures Linked(args[fd := c], live[fd := c.past], owner[c.timeoutEvent := fd])
  {}

  /** `EventBase` */
  class EventBase {
    const listenFd: nat
    const heap: MinHeapHeader
    var fdEvents: seq<FdEvent<ConnFd?>>
    var clientCount: int
    var timeCache: Timeval
    /** The interest list behind the epoll descriptor; only `epoll_ctl` changes it. */
    var kernel: map<int, Interest>
    /** The structure as a value. The predicates below say that the fields and objects are as it says. */
    ghost var base: M.Base<TimeoutEvent>

    /** The table and the kernel's list are as the value `t` says. */
    ghost predicate TableIs(t: Table<Option<int>>)
      reads this`kernel, this`fdEvents
    {
      && |t.events| == |fdEvents| && t.kernel == kernel
      && (forall i :: 0 <= i < |fdEvents| ==> t.events[i] == EntryOf(fdEvents[i]))
    }

    ghost function Args(): (args: seq<ConnFd?>)
      reads this`fdEvents
    {
      ArgsOf(fdEvents)
    }

    /** All of it is as `b` says. */
    ghost predicate StoredAs(b: M.Base<TimeoutEvent>)
      reads this`kernel, this`fdEvents, this`timeCache, this`clientCount, heap, heap.header, heap.nodes`heapIndex,
          heap.nodes`timeout
      reads b.owner.Keys`callbackArg, (set c | c in Args() && c != null)`past
    {
      && b.now == timeCache && b.listen == listenFd && b.clientCount == clientCount
      && heap.Holds(b.timers) && TableIs(b.table) && Linked(Args(), b.conns, b.owner)
    }

    ghost predicate Stored()
      reads this, heap, heap.header, heap.nodes`heapIndex, heap.nodes`timeout
      reads base.owner.Keys`callbackArg, (set c | c in Args() && c != null)`past
    {
      StoredAs(base)
    }

    /** The pointers stay as they are while no callback argument of a node and no connection changes. */
    twostate lemma StillLinked()
      requires old(Stored())
      requires forall n: TimeoutEvent :: old(allocated(n)) ==> n.callbackArg == old(n.callbackArg)
      requires forall c: ConnFd :: old(allocated(c)) ==> c.past == old(c.past)
      ensures Linked(old(Args()), old(base).conns, old(base).owner)
    {}

    /** The same when connection `c` changes. */
    twostate lemma StillLinkedBut(new c: ConnFd)
      requires old(Stored()) && c.socket.fd in old(base).conns && c.socket.fd < |old(Args())|
          && old(Args())[c.socket.fd] == c
      requires forall n: TimeoutEvent :: old(allocated(n)) ==> n.callbackArg == old(n.callbackArg)
      requires forall d: ConnFd :: old(allocated(d)) && d != c ==> d.past == old(d.past)
      requires c.past.node == c.timeoutEvent
      ensures Linked(old(Args()), old(base).conns[c.socket.fd := c.past], old(base).owner)
    {
      ghost var fd := c.socket.fd;
      assert old(ConnIs(c, fd, base.conns[fd]));
      assert LinkedBut(old(Args()), old(base).conns, old(base).owner, fd) by {
        forall g | g in old(base).conns && g != fd ensures ConnIs(old(Args())[g], g, old(base).conns[g]) {
          assert old(ConnIs(Args()[g], g, base.conns[g]));
        }
      }
      LinkedAnew(old(Args()), old(base).conns, old(base).owner, fd, c);
    }

    /** `__CreateNewEventBase`: the table is malloc'ed and holds whatever `leftover` says. */
    constructor (listenFd: nat, size: nat, clock: Timeval, leftover: nat -> FdEvent<ConnFd?>)
      ensures this.listenFd == listenFd && clientCount == 0 && timeCache == clock && kernel == map[]
      ensures fresh(heap) && fresh(heap.header) && heap.Valid() && heap.nodeUsed == 0 && heap.nodes == {}
      ensures |fdEvents| == size && forall i :: 0 <= i < size ==> fdEvents[i] == leftover(i)
      ensures Stored()
      ensures base == M.Base(clock, Timers(Heap([], map[]), map[]),
          Table(seq(size, i requires 0 <= i => EntryOf(leftover(i))), map[]),
                             listenFd, 0, map[], map[])
    {
      this.listenFd := listenFd;
      heap := new MinHeapHeader();
      fdEvents := seq(size, i requires 0 <= i => leftover(i));
      clientCount, timeCache, kernel := 0, clock, map[];
      base := M.Base(clock, Timers(Heap([], map[]), map[]), Table(seq(size,
          i requires 0 <= i => EntryOf(leftover(i))), map[]),
                     listenFd, 0, map[], map[]);
    }

    lemma ArgsLength(t: Table<Option<int>>)
      requires TableIs(t)
      ensures |Args()| == |t.events|
    {}

    /** `epoll_ctl`; `ctlOk` is false when it fails for reasons of its own. */
    method EpollCtl(op: Operation, fd: int, interest: Interest, ctlOk: bool, ghost t: Table<Option<int>>)
        returns (ok: bool)
      requires TableIs(t)
      modifies this`kernel
      ensures var r := Registration.EpollCtl(t, op, fd, interest, ctlOk); TableIs(r.table) && ok == r.ok
    {
      if !ctlOk || (op == CtlAdd) != (fd !in kernel) {
        return false;
      }
      if op == CtlDel {
        kernel := kernel - {fd};
      } else {
        kernel := kernel[fd := interest];
      }
      return true;
    }

    /** `EventAdd` */
    method EventAdd(fd: nat, mask: Mask, callback: Callback, arg: ConnFd?, ctlOk: bool, ghost t: Table<Option<int>>)
        returns (ok: bool)
      requires TableIs(t) && fd != |t.events|
      modifies this`kernel, this`fdEvents
      ensures var r := Registration.EventAdd(t, fd, mask, callback, ArgFd(arg), ctlOk); TableIs(r.table) && ok == r.ok
      ensures Args() == if fd < |t.events| && !t.events[fd].mask.Meets(mask) then old(Args())[fd := arg] else old(Args())
    {
      if fd > |fdEvents| {
        return false;
      }
      var e := fdEvents[fd];
      if e.mask.Meets(mask) {
        return true;
      }
      var op := if e.mask == EVENT_NONE then CtlAdd else CtlMod;
      var newMask := e.mask.Or(mask);
      AddedEntry(e, mask, callback, arg);
      fdEvents := fdEvents[fd := Added(e, mask, callback, arg)];
      ok := EpollCtl(op, fd, Translate(newMask), ctlOk, t.(events := t.events[fd := Added(t.events[fd], mask,
          callback, ArgFd(arg))]));
    }

    /** `EventDel` */
    method EventDel(fd: nat, mask: Mask, ctlOk: bool, ghost t: Table<Option<int>>) returns (ok: bool)
      requires TableIs(t) && fd != |t.events|
      modifies this`kernel, this`fdEvents
      ensures var r := Registration.EventDel(t, fd, mask, ctlOk); TableIs(r.table) && ok == r.ok
      ensures Args() == old(Args())
    {
      if |fdEvents| < fd {
        return false;
      }
      var e := fdEvents[fd];
      if e.mask == EVENT_NONE {
        return true;
      }
      if !e.mask.Meets(mask) {
        return true;
      }
      var newMask := e.mask.Without(mask);
      fdEvents := fdEvents[fd := e.(mask := newMask)];
      var op := if newMask == EVENT_NONE then CtlDel else CtlMod;
      ok := EpollCtl(op, fd, Translate(newMask), ctlOk, t.(events := t.events[fd := t.events[fd].(mask := newMask)]));
    }

    /** `FdFileEventInit` */
    method FdFileEventInit(fd: nat, ghost t: Table<Option<int>>)
      requires TableIs(t) && fd < |t.events|
      modifies this`fdEvents
      ensures TableIs(FdInit(t, fd, None))
      ensures fdEvents == old(fdEvents)[fd := FdEvent(EVENT_NONE, NoCallback, NoCallback, null)]
      ensures Args() == old(Args())[fd := null]
    {
      fdEvents := fdEvents[fd := FdEvent(EVENT_NONE, NoCallback, NoCallback, null)];
    }

    /** `RegisterTimerOutEvent`: the deadline is stored in the node first, although the node may be in the heap. */
    method RegisterTimerOutEvent(n: TimeoutEvent, ms: int, rev: Revision, ghost s: Timers<TimeoutEvent>)
      requires heap.Holds(s) && TimersValid(s) && n in heap.nodes
      requires Legal(s, Register(n, Add(timeCache, Interval(ms))))
      modifies n`interval, n`timeout, heap`header, heap`nodeCapacity, heap`nodeUsed, heap.header, heap.nodes`heapIndex
      ensures heap.header == old(heap.header) || fresh(heap.header)
      ensures heap.Holds(RegisterAt(s, n, Add(timeCache, Interval(ms)), rev))
    {
      hide HeapModel.Erase, HeapModel.Push;
      n.interval := Interval(ms);
      n.timeout := Add(timeCache, n.interval);
      ghost var t := n.timeout;
      assert heap.Keys() == s.key[n := t];
      assert heap.Model() == s.heap;
      OverwrittenKey(s.heap, s.key, n, t, rev);
      var _ := heap.Erase(n, rev);
      assert heap.Keys() == s.key[n := t];
      heap.Push(n);
      assert heap.Keys() == s.key[n := t];
    }

    /** `UnregisterTimerOutEvent`; `false` is the failure it reports for a node that is not in the heap. */
    method UnregisterTimerOutEvent(n: TimeoutEvent, rev: Revision, ghost s: Timers<TimeoutEvent>) returns (ok: bool)
      requires heap.Holds(s) && TimersValid(s) && n in heap.nodes
      modifies heap`nodeUsed, heap.header, heap.nodes`heapIndex
      ensures ok == (s.heap.index[n] != -1)
      ensures heap.Holds(Do(s, Unregister(n), rev))
    {
      hide HeapModel.Erase;
      ok := heap.Erase(n, rev);
    }

    /** `GetEPollwaitTimeoutValue` followed by the loop's conversion to milliseconds. `clock` is what the clock
        shows; it is read only when the cached seconds are 0. */
    method EpollWaitTimeout(clock: Timeval) returns (ms: int)
      requires heap.Valid()
      modifies this`timeCache
      ensures timeCache == if heap.nodeUsed != 0 && old(timeCache.sec) == 0 then clock else old(timeCache)
      ensures ms == EpollTimeout(timeCache, if heap.nodeUsed == 0 then [] else [heap.header[0].timeout])
    {
      var top := heap.GetTopElement();
      if top == null {
        return -1;
      }
      if timeCache.sec == 0 {
        timeCache := clock;
      }
      var save := Timeval(0, 0);
      if AtMost(timeCache, top.timeout) {
        save := Sub(top.timeout, timeCache);
      }
      ms := save.sec * 1000 + CDiv(save.usec + 999, 1000);
    }

    // -------------------------------------------------------------------------------------------
    // Connections

    /** The end of every operation: from here on `b` is the value of the structure. */
    ghost method Record(b: M.Base<TimeoutEvent>)
      requires b.now == timeCache && b.listen == listenFd && b.clientCount == clientCount
      requires heap.Holds(b.timers) && TableIs(b.table) && Linked(Args(), b.conns, b.owner)
      modifies this`base
      ensures Stored() && base == b
    {
      base := b;
    }

    /** Unregistering a timer and freeing its node. */
    method ReleaseTimer(n: TimeoutEvent, rev: Revision, ghost s: Timers<TimeoutEvent>)
      requires heap.Holds(s) && TimersValid(s) && n in heap.nodes
      modifies heap`nodeUsed, heap`nodes, heap.header, heap.nodes`heapIndex
      ensures heap.Holds(FreeNode(Do(s, Unregister(n), rev), n)) && heap.nodes <= old(heap.nodes)
    {
      hide MinHeapHeader.Holds, HeapModel.Erase;
      heap.HeldNodes(s);
      var _ := UnregisterTimerOutEvent(n, rev, s);
      heap.Free(n, Do(s, Unregister(n), rev));
    }

    /** `c` is the live connection that the table leads to from its descriptor. */
    ghost predicate Owns(c: ConnFd)
      reads this`base, this`fdEvents
    {
      c.socket.fd in base.conns && c.socket.fd < |Args()| && Args()[c.socket.fd] == c
    }

    lemma OwnPointers(c: ConnFd)
      requires Stored() && Owns(c)
      ensures c.past == base.conns[c.socket.fd] && c.past.node == c.timeoutEvent && c.timeoutEvent.fd == c.socket.fd
      ensures c.socket.fd < |base.table.events|
    {
      assert ConnIs(c, c.socket.fd, base.conns[c.socket.fd]);
    }

    /** `__DestroyConn` without the connection itself. */
    method Detach(fd: nat, n: TimeoutEvent, rev: Revision, ghost t: Table<Option<int>>, ghost s: Timers<TimeoutEvent>)
      requires TableIs(t) && fd < |t.events| && heap.Holds(s) && TimersValid(s) && n in heap.nodes
      modifies this`clientCount, this`kernel, this`fdEvents, heap`nodeUsed, heap`nodes, heap.header, heap.nodes`heapIndex
      ensures clientCount == old(clientCount) - 1 && Args() == old(Args())[fd := null]
      ensures TableIs(FdInit(Registration.EventDel(t, fd, EVENT_BOTH, true).table, fd, None))
      ensures heap.Holds(FreeNode(Do(s, Unregister(n), rev), n)) && heap.nodes <= old(heap.nodes)
    {
      hide TableIs, MinHeapHeader.Holds, Args, Registration.EventDel, HeapModel.Erase;
      EventDelLength(t, fd);
      clientCount := clientCount - 1;
      var _ := EventDel(fd, EVENT_BOTH, true, t);
      ReleaseTimer(n, rev, s);
      FdFileEventInit(fd, Registration.EventDel(t, fd, EVENT_BOTH, true).table);
    }

    /** `__DestroyConn` */
    method DestroyConn(c: ConnFd, rev: Revision)
      requires Stored() && Owns(c) && M.Destroyable(base, c.socket.fd)
      modifies this`clientCount, this`kernel, this`fdEvents, this`base
      modifies heap`nodeUsed, heap`nodes, heap.header, heap.nodes`heapIndex
      ensures Stored()
      ensures base == M.Destroy(old(base), c.socket.fd, rev)
      ensures Args() == old(Args())[c.socket.fd := null] && heap.nodes <= old(heap.nodes)
    {
      hide Linked, TableIs, MinHeapHeader.Holds, Args, HeapModel.Erase, HeapModel.Valid;
      ghost var b, args := base, Args();
      var fd := c.socket.fd;
      OwnPointers(c);
      heap.HeldNodes(b.timers);
      Detach(fd, c.timeoutEvent, rev, b.table, b.timers);
      StillLinked();
      Unlinked(args, b.conns, b.owner, fd);
      Record(M.Destroy(b, fd, rev));
    }

    /** `__CreateNewConn` */
    method CreateNewConn(fd: nat, ghost t: Table<Option<int>>) returns (c: ConnFd)
      requires TableIs(t) && fd < |t.events|
      modifies this`fdEvents
      ensures TableIs(FdInit(t, fd, None)) && Args() == old(Args())[fd := null]
      ensures fresh(c) && fresh(c.socket) && fresh(c.recvBuf) && fresh(c.sendBuf) && c.Valid() && c.socket.fd == fd
      ensures c.past == M.Conn(c.timeoutEvent, R.Accepted, S.TxHistory(S.Fresh(), [], [], true), timeCache)
      ensures var n := c.timeoutEvent; fresh(n) && n.fd == fd && n.heapIndex == -1 && n.timeout == Timeval(0, 0)
    {
      hide TableIs, Args;
      var socket := new Socket(fd);
      var node := new TimeoutEvent(fd);
      c := new ConnFd(socket, node, timeCache);
      FdFileEventInit(fd, t);
    }

    /** The first registration of a connection's timer. */
    method StartTimer(n: TimeoutEvent, rev: Revision, ghost s: Timers<TimeoutEvent>)
      requires heap.Holds(s) && TimersValid(s) && n !in heap.nodes && n.heapIndex == -1 && n.timeout == Timeval(0, 0)
      requires TimersValid(Do(s, Init(n), rev))
      modifies n`interval, n`timeout, n`heapIndex
      modifies heap, heap.header, heap.nodes`heapIndex
      ensures heap.header == old(heap.header) || fresh(heap.header)
      ensures heap.nodes == old(heap.nodes) + {n}
      ensures heap.Holds(Do(Do(s, Init(n), rev), Register(n, M.Deadline(timeCache)), rev))
    {
      hide MinHeapHeader.Holds, HeapModel.Valid, RegisterAt;
      heap.HeldNodes(s);
      ghost var s1 := Do(s, Init(n), rev);
      heap.Adopt(n, s, rev);
      RegisterTimerOutEvent(n, M.MAX_CONN_TIMEOUT, rev, s1);
    }

    /** Counting and creating the connection, with the callback argument of its timer. */
    method NewConn(fd: nat, ghost t: Table<Option<int>>, ghost s: Timers<TimeoutEvent>) returns (c: ConnFd)
      requires TableIs(t) && fd < |t.events| && heap.Holds(s)
      modifies this`clientCount, this`fdEvents
      ensures clientCount == old(clientCount) + 1 && Args() == old(Args())[fd := null]
      ensures TableIs(FdInit(t, fd, None)) && heap.Holds(s)
      ensures fresh(c) && fresh(c.socket) && fresh(c.recvBuf) && fresh(c.sendBuf) && c.Valid()
      ensures c.past == M.Conn(c.timeoutEvent, R.Accepted, S.TxHistory(S.Fresh(), [], [], true), timeCache)
      ensures fresh(c.timeoutEvent) && c.socket.fd == fd == c.timeoutEvent.fd && c.timeoutEvent.callbackArg == c
      ensures c.timeoutEvent.heapIndex == -1 && c.timeoutEvent.timeout == Timeval(0, 0)
    {
      hide TableIs, MinHeapHeader.Holds, Args, ConnFd.Valid;
      clientCount := clientCount + 1;
      c := CreateNewConn(fd, t);
      c.timeoutEvent.callbackArg := c;
    }

    /** The effects of `ProcessAcceptCallback` besides those on the connection. */
    method Attach(fd: nat, rev: Revision, ghost t: Table<Option<int>>, ghost s: Timers<TimeoutEvent>) returns (c: ConnFd)
      requires TableIs(t) && fd < |t.events| && heap.Holds(s) && TimersValid(s)
      modifies this`clientCount, this`kernel, this`fdEvents
      modifies heap, heap.header, heap.nodes`heapIndex
      ensures heap.header == old(heap.header) || fresh(heap.header)
      ensures fresh(c) && fresh(c.socket) && fresh(c.recvBuf) && fresh(c.sendBuf) && c.Valid()
      ensures fresh(c.timeoutEvent) && c.socket.fd == fd == c.timeoutEvent.fd && c.timeoutEvent.callbackArg == c
      ensures heap.nodes == old(heap.nodes) + {c.timeoutEvent}
      ensures c.past == M.Conn(c.timeoutEvent, R.Accepted, S.TxHistory(S.Fresh(), [], [], true), timeCache)
      ensures clientCount == old(clientCount) + 1 && Args() == old(Args())[fd := c]
      ensures TableIs(Registration.EventAdd(FdInit(t, fd, None), fd, EVENT_READABLE, RecvCallback, Some(fd), true).table)
      ensures TimersValid(Do(s, Init(c.timeoutEvent), rev))
      ensures heap.Holds(Do(Do(s, Init(c.timeoutEvent), rev), Register(c.timeoutEvent, M.Deadline(timeCache)), rev))
    {
      hide TableIs, MinHeapHeader.Holds, HeapModel.Valid, Args, ConnFd.Valid, Do;
      ArgsLength(t);
      ghost var args := Args();
      c := NewConn(fd, t, s);
      heap.HeldNodes(s);
      M.StartMoves(s, c.timeoutEvent, M.Deadline(timeCache), rev);
      StartTimer(c.timeoutEvent, rev, s);
      var _ := EventAdd(fd, EVENT_READABLE, RecvCallback, c, true, FdInit(t, fd, None));
      assert args[fd := null][fd := c] == args[fd := c];
    }

    /** `ProcessAcceptCallback`; `client` is what `accept` returns: nothing, or a new descriptor. */
    method ProcessAcceptCallback(client: Option<nat>, rev: Revision) returns (c: ConnFd?)
      requires Stored() && M.Inv(base)
      requires client.Some? ==> client.value !in base.conns && client.value != base.listen && client.value < |base.table.events|
      modifies this`clientCount, this`kernel, this`fdEvents, this`base
      modifies heap, heap.header, heap.nodes`heapIndex
      ensures Stored() && (heap.header == old(heap.header) || fresh(heap.header))
      ensures client.None? ==> c == null && base == old(base) && Args() == old(Args()) && heap.nodes == old(heap.nodes)
      ensures client.Some? ==> c != null && fresh(c) && fresh(c.timeoutEvent) && c.timeoutEvent !in old(base).timers.key
      ensures client.Some? ==> fresh(c.socket) && fresh(c.recvBuf) && fresh(c.sendBuf) && c.Valid()
      ensures client.Some? ==> Args() == old(Args())[client.value := c] && heap.nodes == old(heap.nodes) + {c.timeoutEvent}
      ensures client.Some? ==> base == M.Accept(old(base), client.value, c.timeoutEvent, rev)
    {
      hide M.Inv, Linked, TableIs, MinHeapHeader.Holds, Args, HeapModel.Valid;
      if client.None? {
        return null;
      }
      var fd := client.value;
      ghost var b, args := base, Args();
      M.InvTimers(b);
      heap.HeldNodes(b.timers);
      ArgsLength(b.table);
      c := Attach(fd, rev, b.table, b.timers);
      StillLinked();
      LinkedMore(args, b.conns, b.owner, fd, c);
      Record(M.Accept(b, fd, c.timeoutEvent, rev));
    }

    // -------------------------------------------------------------------------------------------
    // Sending and receiving

    /** The transmission alone does not touch the structure. */
    method SendOn(c: ConnFd, rev: Revision) returns (alive: bool, drained: bool)
      requires Stored() && Owns(c) && c.Valid() && S.Fifo(c.past.tx) && c.past.tx.alive
      modifies c`sendCurLen, c`sendPacketLen, c.socket`script, c.socket`written
      ensures Stored() && Owns(c) && c.recvBuf != c.sendBuf && c.ReceivedAs(c.past.rx)
      ensures var tx := S.TxStep(c.past.tx, c.socket.fd, S.Writable(old(c.socket.script)), rev);
        alive == tx.alive && (alive ==> c.SentAs(tx) && (drained <==> c.past.tx.tx.interest && !tx.tx.interest))
    {
      hide TableIs, Args, Linked, MinHeapHeader.Holds, ConnFd.ReceivedAs, ConnFd.SentAs;
      alive, drained := c.SendEvent(rev);
      StillLinked();
    }

    /** The end of `ProcessSendCallback`: write interest ends when everything has been sent. */
    method EndSend(c: ConnFd, drained: bool, ghost tx: S.TxHistory)
      requires Stored() && Owns(c) && c.recvBuf != c.sendBuf && c.ReceivedAs(c.past.rx) && c.SentAs(tx)
      modifies this`kernel, this`fdEvents, this`base, c`past
      ensures Stored() && base == M.SentBy(old(base), c.socket.fd, tx, drained)
      ensures Args() == old(Args()) && c.Valid()
    {
      hide TableIs, Args, Registration.EventDel, Linked, MinHeapHeader.Holds, ConnFd.ReceivedAs, ConnFd.SentAs, ConnFd.Valid;
      OwnPointers(c);
      ghost var b := base;
      if drained {
        var _ := EventDel(c.socket.fd, EVENT_WRITABLE, true, b.table);
      }
      c.Settle(c.past.(tx := tx));
      StillLinkedBut(c);
      Record(M.SentBy(b, c.socket.fd, tx, drained));
    }

    /** `ProcessSendCallback` */
    method ProcessSendCallback(c: ConnFd, rev: Revision)
      requires Stored() && M.Inv(base) && Owns(c) && c.Valid()
      modifies this`clientCount, this`kernel, this`fdEvents, this`base
      modifies heap`nodeUsed, heap`nodes, heap.header, heap.nodes`heapIndex
      modifies c`sendCurLen, c`sendPacketLen, c`past, c.socket`script, c.socket`written
      ensures Stored() && base == M.Send(old(base), c.socket.fd, old(c.socket.script), rev)
      ensures Args() == (if c.socket.fd in base.conns then old(Args()) else old(Args())[c.socket.fd := null])
      ensures (c.socket.fd in base.conns ==> c.Valid()) && heap.nodes <= old(heap.nodes)
    {
      hide Stored, Args, M.Inv, M.Destroy, M.Destroyable, M.Send, M.SentBy, S.TxStep, S.Fifo, ConnFd.ReceivedAs, ConnFd.SentAs;
      OwnPointers(c);
      M.SendCases(base, c.socket.fd, c.socket.script, rev);
      ghost var tx := S.TxStep(c.past.tx, c.socket.fd, S.Writable(c.socket.script), rev);
      var alive, drained := SendOn(c, rev);
      if !alive {
        DestroyConn(c, rev);
      } else {
        EndSend(c, drained, tx);
      }
    }

    /** `ProcessTestBinProtocol` on the packet in the receive buffer, which is `frame`: the answer joins the pending
        bytes, then write interest is registered. */
    method ProcessTestBinProtocol(c: ConnFd, ghost frame: seq<byte>, reply: Reply, rev: Revision,
        ghost h: S.TxHistory, ghost t: Table<Option<int>>)
      requires TableIs(t) && c.socket.fd < |t.events| && Args()[c.socket.fd] == c
      requires c.RxAllocated() && c.recvBuf[..c.recvCurLen] == frame && FrameSized(frame)
          && DispatchOf(frame) == TestCommand
      requires c.SentAs(h) && S.Fifo(h) && h.alive && S.SoundTxRun(h, c.socket.fd, M.HandlerSends(frame, reply, rev), rev)
      modifies this`kernel, this`fdEvents, c`sendBuf, c`sendTotalLen, c`sendCurLen, c`sendPacketLen, c.sendBuf
      ensures TableIs(M.SendTable(t, c.socket.fd, M.HandlerSends(frame, reply, rev)))
      ensures Args() == old(Args()) && (c.sendBuf == old(c.sendBuf) || fresh(c.sendBuf))
      ensures c.SentAs(S.TxRun(h, c.socket.fd, M.HandlerSends(frame, reply, rev), rev))
    {
      hide TableIs, Args, ConnFd.SentAs, Registration.EventAdd, S.TxStep, S.TxInv, S.SoundTx, S.SoundTxRun, S.TxRun,
        Encode, M.AnswerSent;
      ArgsLength(t);
      ghost var args := Args();
      assert args[c.socket.fd := c] == args;
      var request := Decode(c.recvBuf[..c.recvCurLen]).value;
      S.TxRunOne(h, c.socket.fd, M.AnswerSent(request, reply, rev), rev);
      S.FifoLive(h);
      c.SendAnswer(request, reply, rev, h);
      var _ := EventAdd(c.socket.fd, EVENT_WRITABLE, SendCallback, c, true, t);
    }

    /** `ProcessEntirePacket` on the packet in the receive buffer, which is `frame`. */
    method ProcessEntirePacket(c: ConnFd, ghost frame: seq<byte>, reply: Reply, rev: Revision,
                               ghost h: S.TxHistory, ghost t: Table<Option<int>>)
      requires TableIs(t) && c.socket.fd < |t.events| && Args()[c.socket.fd] == c
      requires c.RxAllocated() && c.packetLen == c.recvCurLen && FrameSized(frame)
          && c.recvBuf[..c.recvCurLen] == frame && c.recvBuf != c.sendBuf
      requires c.SentAs(h) && S.Fifo(h) && h.alive && S.SoundTxRun(h, c.socket.fd, M.HandlerSends(frame, reply, rev), rev)
      modifies this`kernel, this`fdEvents, c`sendBuf, c`sendTotalLen, c`sendCurLen, c`sendPacketLen, c.sendBuf
      ensures TableIs(M.SendTable(t, c.socket.fd, M.HandlerSends(frame, reply, rev)))
      ensures Args() == old(Args()) && (c.sendBuf == old(c.sendBuf) || fresh(c.sendBuf))
      ensures c.SentAs(S.TxRun(h, c.socket.fd, M.HandlerSends(frame, reply, rev), rev))
    {
      var d := c.Dispatch();
      match d
      case TestCommand => ProcessTestBinProtocol(c, frame, reply, rev, h, t);
      case Echo => SendBackEcho(c, frame, rev, h, t);
      case _ =>
    }

    /** `SendBackEcho` with the registration of write interest. */
    method SendBackEcho(c: ConnFd, ghost frame: seq<byte>, rev: Revision, ghost h: S.TxHistory,
        ghost t: Table<Option<int>>)
      requires TableIs(t) && c.socket.fd < |t.events| && Args()[c.socket.fd] == c
      requires c.RxAllocated() && c.packetLen == c.recvCurLen && c.recvBuf[..c.recvCurLen] == frame
          && c.recvBuf != c.sendBuf
      requires c.SentAs(h) && S.Fifo(h) && h.alive && S.SoundTxRun(h, c.socket.fd, [S.SendEcho(frame)], rev)
      modifies this`kernel, this`fdEvents, c`sendPacketLen, c.sendBuf
      ensures TableIs(M.SendTable(t, c.socket.fd, [S.SendEcho(frame)]))
      ensures Args() == old(Args())
      ensures c.SentAs(S.TxRun(h, c.socket.fd, [S.SendEcho(frame)], rev))
    {
      hide TableIs, Args, ConnFd.SentAs, Registration.EventAdd, S.TxStep;
      ArgsLength(t);
      ghost var args, es := Args(), [S.SendEcho(frame)];
      assert args[c.socket.fd := c] == args;
      S.TxRunOne(h, c.socket.fd, S.SendEcho(frame), rev);
      c.SendEcho(rev, h);
      var _ := EventAdd(c.socket.fd, EVENT_WRITABLE, SendCallback, c, true, t);
    }

    /** The reception alone does not touch the structure. */
    method ReceiveOn(c: ConnFd, arrivals: seq<Arrival>) returns (o: R.Outcome)
      requires Stored() && Owns(c) && c.Valid() && R.HistoryInv(c.past.rx) && c.past.rx.alive
      modifies c`recvBuf, c`recvTotalLen, c`recvCurLen, c`packetLen, c.recvBuf, c.socket`queue
      ensures Stored() && Owns(c) && c.recvBuf != c.sendBuf && c.SentAs(c.past.tx) && c.RxAllocated()
      ensures c.recvBuf == old(c.recvBuf) || fresh(c.recvBuf)
      ensures var h := R.HistoryStep(c.past.rx, arrivals);
        && (o.Destroyed? <==> !h.alive)
        && (o.Waiting? ==> h.frames == c.past.rx.frames && c.ReceivedAs(h))
        && (o.Delivered? ==> h.frames == c.past.rx.frames + [o.frame] && c.Rx() == h.rx.(data := o.frame, packetLen := |o.frame|))
        && (o.Delivered? ==> h.rx.data == [] && h.rx.packetLen == 0)
    {
      hide TableIs, Args, Linked, MinHeapHeader.Holds, ConnFd.SentAs, R.HistoryInv, R.HistoryStep;
      o := c.ReceiveEvent(arrivals);
      StillLinked();
    }

    /** The end of `ProcessRecvCallback` for an incomplete packet. */
    ghost method EndWait(c: ConnFd, h: R.History)
      requires Stored() && Owns(c) && c.recvBuf != c.sendBuf && c.ReceivedAs(h) && c.SentAs(c.past.tx)
      modifies this`base, c`past
      ensures Stored() && base == old(base).(conns := old(base).conns[c.socket.fd := old(c.past).(rx := h)])
      ensures Args() == old(Args()) && c.Valid()
    {
      hide TableIs, Args, Linked, MinHeapHeader.Holds, ConnFd.ReceivedAs, ConnFd.SentAs, ConnFd.Valid;
      OwnPointers(c);
      ghost var b := base;
      c.Settle(c.past.(rx := h));
      StillLinkedBut(c);
      Record(b.(conns := b.conns[c.socket.fd := c.past]));
    }

    /** A complete packet has been handled: its connection's minute starts again and its buffer is free. */
    method Renew(c: ConnFd, rev: Revision, ghost h: R.History, ghost tx: S.TxHistory, ghost t: Table<Option<int>>,
        ghost s: Timers<TimeoutEvent>)
      requires TableIs(t) && c.SentAs(tx)
      requires heap.Holds(s) && TimersValid(s) && c.timeoutEvent in heap.nodes
          && Legal(s, Register(c.timeoutEvent, M.Deadline(timeCache)))
      requires c.RxAllocated() && h.rx == c.Rx().(data := [], packetLen := 0)
      modifies c`recvCurLen, c`packetLen, c.timeoutEvent`interval, c.timeoutEvent`timeout
      modifies heap`header, heap`nodeCapacity, heap`nodeUsed, heap.header, heap.nodes`heapIndex
      ensures heap.header == old(heap.header) || fresh(heap.header)
      ensures TableIs(t) && c.SentAs(tx) && c.ReceivedAs(h)
      ensures heap.Holds(Do(s, Register(c.timeoutEvent, M.Deadline(timeCache)), rev))
    {
      hide TableIs, MinHeapHeader.Holds, HeapModel.Valid, ConnFd.SentAs, RegisterAt;
      RegisterTimerOutEvent(c.timeoutEvent, M.MAX_CONN_TIMEOUT, rev, s);
      c.ClearPacket();
    }

    /** A complete packet is handled and its connection's minute starts again. */
    method HandlePacket(c: ConnFd, ghost frame: seq<byte>, reply: Reply, rev: Revision, ghost h: R.History,
                        ghost tx: S.TxHistory, ghost t: Table<Option<int>>, ghost s: Timers<TimeoutEvent>)
      requires TableIs(t) && c.socket.fd < |t.events| && Args()[c.socket.fd] == c
      requires heap.Holds(s) && TimersValid(s) && c.timeoutEvent in heap.nodes
          && Legal(s, Register(c.timeoutEvent, M.Deadline(timeCache)))
      requires c.recvBuf != c.sendBuf && c.SentAs(tx) && S.Fifo(tx) && tx.alive
      requires c.RxAllocated() && c.Rx() == h.rx.(data := frame, packetLen := |frame|) && h.rx.data == []
          && h.rx.packetLen == 0
      requires FrameSized(frame) && S.SoundTxRun(tx, c.socket.fd, M.HandlerSends(frame, reply, rev), rev)
      modifies this`kernel, this`fdEvents
      modifies c`sendBuf, c`sendTotalLen, c`sendCurLen, c`sendPacketLen, c.sendBuf, c`recvCurLen, c`packetLen
      modifies c.timeoutEvent`interval, c.timeoutEvent`timeout
      modifies heap`header, heap`nodeCapacity, heap`nodeUsed, heap.header, heap.nodes`heapIndex
      ensures heap.header == old(heap.header) || fresh(heap.header)
      ensures TableIs(M.SendTable(t, c.socket.fd, M.HandlerSends(frame, reply, rev))) && Args() == old(Args())
      ensures heap.Holds(Do(s, Register(c.timeoutEvent, M.Deadline(timeCache)), rev))
      ensures c.ReceivedAs(h) && c.SentAs(S.TxRun(tx, c.socket.fd, M.HandlerSends(frame, reply, rev), rev))
      ensures c.recvBuf != c.sendBuf && (c.sendBuf == old(c.sendBuf) || fresh(c.sendBuf))
    {
      hide TableIs, MinHeapHeader.Holds, Args, HeapModel.Valid, M.HandlerSends, M.SendTable, S.Fifo, S.SoundTxRun, S.TxRun,
        ConnFd.SentAs, ConnFd.ReceivedAs, Do;
      ghost var es := M.HandlerSends(frame, reply, rev);
      ProcessEntirePacket(c, frame, reply, rev, tx, t);
      Renew(c, rev, h, S.TxRun(tx, c.socket.fd, es, rev), M.SendTable(t, c.socket.fd, es), s);
    }

    /** The end of `ProcessRecvCallback` for the complete packet `frame`. */
    method EndPacket(c: ConnFd, ghost frame: seq<byte>, reply: Reply, rev: Revision, ghost h: R.History)
      requires Stored() && Owns(c) && M.Renewable(base, c.socket.fd)
      requires c.recvBuf != c.sendBuf && c.SentAs(c.past.tx) && S.Fifo(c.past.tx) && c.past.tx.alive
      requires c.RxAllocated() && c.Rx() == h.rx.(data := frame, packetLen := |frame|) && h.rx.data == []
          && h.rx.packetLen == 0
      requires FrameSized(frame) && S.SoundTxRun(base.conns[c.socket.fd].tx, c.socket.fd,
          M.HandlerSends(frame, reply, rev), rev)
      modifies this`kernel, this`fdEvents, this`base
      modifies c`past, c`sendBuf, c`sendTotalLen, c`sendCurLen, c`sendPacketLen, c.sendBuf, c`recvCurLen, c`packetLen
      modifies c.timeoutEvent`interval, c.timeoutEvent`timeout
      modifies heap`header, heap`nodeCapacity, heap`nodeUsed, heap.header, heap.nodes`heapIndex
      ensures Stored() && (heap.header == old(heap.header) || fresh(heap.header))
      ensures base == M.Complete(old(base), c.socket.fd, h, M.HandlerSends(frame, reply, rev), rev)
      ensures Args() == old(Args()) && c.Valid() && (c.sendBuf == old(c.sendBuf) || fresh(c.sendBuf))
    {
      hide Linked, TableIs, MinHeapHeader.Holds, Args, HeapModel.Valid, M.Inv, M.HandlerSends, M.SendTable, S.Fifo, S.SoundTxRun, S.TxRun,
        ConnFd.SentAs, ConnFd.ReceivedAs, ConnFd.Valid, Do;
      OwnPointers(c);
      heap.HeldNodes(base.timers);
      ghost var b, fd, es := base, c.socket.fd, M.HandlerSends(frame, reply, rev);
      HandlePacket(c, frame, reply, rev, h, c.past.tx, b.table, b.timers);
      c.Settle(M.Conn(c.timeoutEvent, h, S.TxRun(c.past.tx, fd, es, rev), timeCache));
      StillLinkedBut(c);
      Record(M.Complete(b, fd, h, es, rev));
    }

    /** `ProcessRecvCallback` after `arrivals` have reached the socket; `reply` is what the handler of the test
        command puts into its answer. */
    method ProcessRecvCallback(c: ConnFd, arrivals: seq<Arrival>, reply: Reply, rev: Revision)
      requires Stored() && M.Inv(base) && Owns(c) && c.Valid()
      requires M.SoundRecv(base, c.socket.fd, arrivals, reply, rev)
      modifies this`clientCount, this`kernel, this`fdEvents, this`base
      modifies c, c.socket`queue, c.recvBuf, c.sendBuf, c.timeoutEvent`interval, c.timeoutEvent`timeout
      modifies heap, heap.header, heap.nodes`heapIndex
      ensures Stored() && (heap.header == old(heap.header) || fresh(heap.header)) && heap.nodes <= old(heap.nodes)
      ensures base == M.Recv(old(base), c.socket.fd, arrivals, reply, rev)
      ensures Args() == (if c.socket.fd in base.conns then old(Args()) else old(Args())[c.socket.fd := null])
      ensures c.socket.fd in base.conns ==> c.Valid()
      ensures (c.recvBuf == old(c.recvBuf) || fresh(c.recvBuf)) && (c.sendBuf == old(c.sendBuf) || fresh(c.sendBuf))
    {
      hide Stored, M.Inv, M.SoundRecv, M.Recv, M.Complete, M.Destroy, M.Destroyable, M.HandlerSends, Args,
        R.HistoryInv, R.HistoryStep, S.Fifo, S.SoundTxRun, ConnFd.SentAs, ConnFd.ReceivedAs;
      OwnPointers(c);
      M.RecvCases(base, c.socket.fd, arrivals, reply, rev);
      ghost var h := R.HistoryStep(c.past.rx, arrivals);
      var o := ReceiveOn(c, arrivals);
      match o
      case Destroyed => DestroyConn(c, rev);
      case Waiting => EndWait(c, h);
      case Delivered(frame) => EndPacket(c, frame, reply, rev, h);
    }

    // -------------------------------------------------------------------------------------------
    // The expiry sweep

    /** MinheapPop on the reactor's heap, which is not empty. */
    method PopTimer(rev: Revision, ghost s: Timers<TimeoutEvent>) returns (top: TimeoutEvent)
      requires heap.Holds(s) && TimersValid(s) && s.heap.slots != []
      modifies heap`nodeUsed, heap.header, heap.nodes`heapIndex
      ensures heap.Holds(Do(s, PopTop, rev)) && top == s.heap.slots[0]
    {
      hide HeapModel.Pop, HeapModel.Valid;
      heap.HeldValid(s);
      top := heap.Pop();
    }

    /** The first half of a round of the sweep: pop the top. */
    method PopExpired(rev: Revision) returns (top: TimeoutEvent)
      requires Stored() && TimersValid(base.timers) && base.timers.heap.slots != []
      modifies this`base, heap`nodeUsed, heap.header, heap.nodes`heapIndex
      ensures Stored() && base == old(base.(timers := Do(base.timers, PopTop, rev)))
      ensures top == old(base).timers.heap.slots[0] && top.callbackArg == old(base.timers.heap.slots[0].callbackArg)
      ensures Args() == old(Args())
    {
      hide Linked, TableIs, MinHeapHeader.Holds, Args, Do, HeapModel.Valid;
      ghost var b, args := base, Args();
      top := PopTimer(rev, b.timers);
      StillLinked();
      Record(b.(timers := Do(b.timers, PopTop, rev)));
    }

    /** The callback argument of the top node is the connection that owns it. */
    lemma TopLinked()
      requires Stored() && M.Inv(base) && base.timers.heap.slots != []
      ensures var fd := E.TopOwner(base);
        && 0 <= fd < |Args()| && Args()[fd] != null && Args()[fd].socket.fd == fd
        && base.timers.heap.slots[0].callbackArg == Args()[fd]
    {
      assert ConnIs(Args()[E.TopOwner(base)], E.TopOwner(base), base.conns[E.TopOwner(base)]);
    }

    /** One round of the sweep: the callback of the popped node is `ConnectionTimeoutCallback`. */
    method ExpireTop(rev: Revision)
      requires Stored() && M.Inv(base) && base.timers.heap.slots != []
      modifies this`clientCount, this`kernel, this`fdEvents, this`base
      modifies heap`nodeUsed, heap`nodes, heap.header, heap.nodes`heapIndex
      ensures Stored() && base == E.Expire(old(base), rev)
      ensures heap.nodes <= old(heap.nodes)
    {
      hide Stored, Do, Args, HeapModel.Valid, M.Inv, E.Expire, E.TopOwner, M.Destroy, M.Destroyable;
      E.ExpireSteps(base, rev);
      TopLinked();
      ghost var conn := Args()[E.TopOwner(base)];
      var top := PopExpired(rev);
      assert top.callbackArg == conn;
      var c := top.callbackArg as ConnFd;
      DestroyConn(c, rev);
    }

    lemma TopFacts()
      requires Stored() && M.Inv(base)
      ensures heap.Valid() && heap.GetTopElement() == if base.timers.heap.slots == [] then null else base.timers.heap.slots[0]
      ensures base.timers.heap.slots != [] ==> base.timers.key[base.timers.heap.slots[0]] == base.timers.heap.slots[0].timeout
      ensures base.now == timeCache
    {
      heap.HeldValid(base.timers);
    }

    /** `ReactorProcessTimeoutEvent` */
    method ReactorProcessTimeoutEvent(rev: Revision) returns (ghost closed: seq<int>)
      requires Stored() && M.Inv(base)
      modifies this`clientCount, this`kernel, this`fdEvents, this`base
      modifies heap`nodeUsed, heap`nodes, heap.header, heap.nodes`heapIndex
      ensures Stored() && (base, closed) == E.Sweep(old(base), rev) && heap.nodes <= old(heap.nodes)
    {
      hide Stored, M.Inv, E.Expire, E.TopOwner, E.Sweep, HeapModel.Valid, MinHeapHeader.Valid, MinHeapHeader.GetTopElement;
      ghost var start := base;
      closed := [];
      assert closed + E.Sweep(base, rev).1 == E.Sweep(base, rev).1;
      while true
        invariant Stored() && M.Inv(base) && heap.nodes <= old(heap.nodes)
        invariant E.Sweep(start, rev) == (E.Sweep(base, rev).0, closed + E.Sweep(base, rev).1)
        decreases |base.timers.heap.slots|
      {
        TopFacts();
        E.SweepOnce(base, rev);
        var top := heap.GetTopElement();
        if top == null || Greater(top.timeout, timeCache) {
          break;
        }
        ghost var fd, rest := E.TopOwner(base), E.Sweep(E.Expire(base, rev), rev).1;
        assert closed + ([fd] + rest) == closed + [fd] + rest;
        ExpireTop(rev);
        closed := closed + [fd];
      }
      assert closed + [] == closed;
    }

    /** The beginning of a turn of the loop: the waiting time is computed, and after `epoll_wait` the cached time is read
        anew. */
    method ReadClock(refresh: Timeval, clock: Timeval) returns (ms: int)
      requires Stored() && M.Inv(base)
      modifies this`timeCache, this`base
      ensures Stored() && base == old(base).(now := clock) && Args() == old(Args())
      ensures ms == EpollTimeout(W.Prepared(old(base), refresh).now, W.TopDeadline(old(base)))
    {
      hide M.Inv, TableIs, Args, Linked, MinHeapHeader.Holds;
      ghost var b := base;
      TopFacts();
      SlotFacts();
      ms := EpollWaitTimeout(refresh);
      timeCache := clock;
      StillLinked();
      Record(b.(now := clock));
    }

    lemma SlotFacts()
      requires Stored() && M.Inv(base)
      ensures heap.Valid() && heap.nodeUsed == |base.timers.heap.slots|
      ensures heap.nodeUsed > 0 ==> 0 < heap.header.Length && heap.header[0] == base.timers.heap.slots[0]
    {
      heap.HeldValid(base.timers);
    }
  }
}
