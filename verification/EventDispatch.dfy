// One round of the dispatch loop on the objects: the table entry of a triggered descriptor is looked up,
// and the callbacks stored there are run with the argument stored there.

module EventDispatch {
  import opened Bytes
  import opened Protocol
  import opened HeapModel
  import opened HeapRuns
  import opened MinHeap
  import opened Registration
  import opened SocketModel
  import opened SocketApi
  import opened TimeMath
  import opened Connection
  import opened EventBases
  import E = EventLoop
  import M = Reactor
  import S = Sender
  import W = WorkerRuns

  /** The objects that belong to one connection alone. */
  function Objects(c: ConnFd): set<object>
    reads c`recvBuf, c`sendBuf
  {
    {c, c.socket, c.recvBuf, c.sendBuf}
  }

  /** The connections that the table leads to have buffers as their histories say, and share nothing. */
  ghost predicate Backed(eb: EventBase)
    reads eb`base, eb`fdEvents
    reads set c | c in eb.Args() && c != null
    reads set c | c in eb.Args() && c != null :: c.recvBuf
    reads set c | c in eb.Args() && c != null :: c.sendBuf
    reads set c | c in eb.Args() && c != null :: c.socket
  {
    && (forall fd :: fd in eb.base.conns ==> 0 <= fd < |eb.Args()| && eb.Args()[fd] != null && eb.Args()[fd].Valid())
    && (forall f, g :: f in eb.base.conns && g in eb.base.conns && f != g ==> Objects(eb.Args()[f]) !! Objects(eb.Args()[g]))
  }

  /** The objects of the live connections. */
  ghost function ConnObjects(eb: EventBase): set<object>
    reads eb`fdEvents, eb`base
    reads (set c | c in eb.Args() && c != null)`recvBuf
    reads (set c | c in eb.Args() && c != null)`sendBuf
  {
    set fd, o | fd in eb.base.conns && 0 <= fd < |eb.Args()| && eb.Args()[fd] != null && o in Objects(eb.Args()[fd]) :: o
  }

  /** Live connections only have objects that belonged to live connections before, and new ones. */
  twostate predicate KeptConns(eb: EventBase)
    reads eb`fdEvents, eb`base
    reads (set c | c in eb.Args() && c != null)`recvBuf
    reads (set c | c in eb.Args() && c != null)`sendBuf
  {
    forall o :: o in ConnObjects(eb) && !fresh(o) ==> o in old(ConnObjects(eb))
  }

  /** Between callbacks. */
  ghost predicate Valid(eb: EventBase)
    reads eb, eb.heap, eb.heap.header, eb.heap.nodes`heapIndex, eb.heap.nodes`timeout, eb.base.owner.Keys`callbackArg
    reads set c | c in eb.Args() && c != null
    reads set c | c in eb.Args() && c != null :: c.recvBuf
    reads set c | c in eb.Args() && c != null :: c.sendBuf
    reads set c | c in eb.Args() && c != null :: c.socket
  {
    eb.Stored() && M.Inv(eb.base) && Backed(eb)
  }

  twostate predicate SameConn(d: ConnFd)
    reads d
  {
    unchanged(d)
  }

  twostate predicate SameSocket(s: Socket)
    reads s
  {
    unchanged(s)
  }

  twostate predicate SameBytes(a: array<byte>)
    reads a
  {
    unchanged(a)
  }

  twostate lemma StillValid(d: ConnFd)
    requires old(d.Valid()) && SameConn(d) && SameSocket(d.socket) && SameBytes(d.recvBuf) && SameBytes(d.sendBuf)
    ensures d.Valid() && Objects(d) == old(Objects(d))
  {}

  /** A callback on connection `c` disturbs no other connection. */
  twostate lemma StillBacked(eb: EventBase, new fd: nat, new c: ConnFd)
    requires old(Backed(eb)) && fd in old(eb.base.conns) && fd < |old(eb.Args())| && old(eb.Args())[fd] == c
    requires forall g :: g in eb.base.conns ==> g in old(eb.base.conns)
    requires eb.Args() == if fd in eb.base.conns then old(eb.Args()) else old(eb.Args())[fd := null]
    requires fd in eb.base.conns ==> c.Valid()
    requires c.recvBuf == old(c.recvBuf) || fresh(c.recvBuf)
    requires c.sendBuf == old(c.sendBuf) || fresh(c.sendBuf)
    requires forall d: ConnFd :: old(allocated(d)) && d != c ==> SameConn(d)
    requires forall s: Socket :: old(allocated(s)) && s != c.socket ==> SameSocket(s)
    requires forall a: array<byte> :: old(allocated(a)) && a != old(c.recvBuf) && a != old(c.sendBuf) ==> SameBytes(a)
    ensures Backed(eb) && KeptConns(eb)
  {
    hide ConnFd.Valid;
    forall g | g in eb.base.conns && g != fd
      ensures eb.Args()[g].Valid() && Objects(eb.Args()[g]) == old(Objects(eb.Args()[g]))
          && Objects(eb.Args()[g]) !! Objects(c)
    {
      assert old(Objects(eb.Args()[g]) !! Objects(eb.Args()[fd]));
      StillValid(old(eb.Args())[g]);
    }
    forall o | o in ConnObjects(eb) && !fresh(o) ensures o in old(ConnObjects(eb)) {
      var g :| g in eb.base.conns && 0 <= g < |eb.Args()| && eb.Args()[g] != null && o in Objects(eb.Args()[g]);
      if g == fd {
        assert o in old(Objects(c));
      } else {
        assert Objects(eb.Args()[g]) == old(Objects(eb.Args()[g]));
      }
    }
  }

  /** No connection has been touched. */
  twostate lemma AllBacked(eb: EventBase)
    requires old(Backed(eb)) && eb.Args() == old(eb.Args()) && eb.base.conns.Keys == old(eb.base.conns.Keys)
    requires forall d: ConnFd :: old(allocated(d)) ==> SameConn(d)
    requires forall s: Socket :: old(allocated(s)) ==> SameSocket(s)
    requires forall a: array<byte> :: old(allocated(a)) ==> SameBytes(a)
    ensures Backed(eb) && KeptConns(eb)
  {
    hide ConnFd.Valid;
    forall g | g in eb.base.conns
      ensures eb.Args()[g].Valid() && Objects(eb.Args()[g]) == old(Objects(eb.Args()[g]))
    {
      StillValid(old(eb.Args())[g]);
    }
  }

  /** A new connection shares nothing with the others. */
  twostate lemma BackedMore(eb: EventBase, new c: ConnFd, new fd: nat)
    requires old(Backed(eb)) && fd !in old(eb.base.conns) && fd < |old(eb.Args())|
    requires eb.Args() == old(eb.Args())[fd := c] && eb.base.conns.Keys == old(eb.base.conns.Keys) + {fd}
    requires fresh(c) && fresh(c.socket) && fresh(c.recvBuf) && fresh(c.sendBuf) && c.Valid()
    requires forall d: ConnFd :: old(allocated(d)) ==> SameConn(d)
    requires forall s: Socket :: old(allocated(s)) ==> SameSocket(s)
    requires forall a: array<byte> :: old(allocated(a)) ==> SameBytes(a)
    ensures Backed(eb) && KeptConns(eb)
  {
    hide ConnFd.Valid;
    forall g | g in eb.base.conns && g != fd
      ensures eb.Args()[g].Valid() && Objects(eb.Args()[g]) == old(Objects(eb.Args()[g]))
          && Objects(eb.Args()[g]) !! Objects(c)
    {
      StillValid(old(eb.Args())[g]);
    }
  }

  // ---------------------------------------------------------------------------------------------
  // Creation

  /** The entries that malloc leaves in a table of `size`, as values. */
  ghost function Leftover(size: nat, leftover: nat -> FdEvent<ConnFd?>): seq<FdEvent<Option<int>>> {
    seq(size, i requires 0 <= i => EntryOf(leftover(i)))
  }

  lemma CreatedIs(leftover: seq<FdEvent<Option<int>>>, listen: nat, clock: Timeval)
    requires listen < |leftover|
    ensures var r := Registration.EventAdd(Table(leftover, map[]), listen, EVENT_READABLE, AcceptCallback, None, true);
      && W.Created<TimeoutEvent>(leftover, listen, clock)
           == M.Base(clock, Timers(Heap([], map[]), map[]), r.table, listen, 0, map[], map[])
      && (r.ok <==> leftover[listen].mask == EVENT_NONE || leftover[listen].mask.readable)
    ensures W.Created<TimeoutEvent>(leftover, listen, clock).conns == map[]
  {}

  /** `EventBaseCreate`. It refuses a listening descriptor beyond the table, and fails when the kernel is asked to modify
      a registration that it does not have, which happens when malloc has left just the writable bit in the entry. The
      structure is ready for dispatching exactly when the entry was empty. */
  method EventBaseCreate(listenFd: nat, size: nat, clock: Timeval, leftover: nat -> FdEvent<ConnFd?>)
      returns (eb: EventBase?)
    requires listenFd != size && Normal(clock)
    ensures eb == null <==>
      size == 0 || listenFd > size || (leftover(listenFd).mask != EVENT_NONE && !leftover(listenFd).mask.readable)
    ensures eb != null ==> fresh(eb) && fresh(eb.heap) && fresh(eb.heap.header) && eb.heap.nodes == {}
    ensures eb != null ==> eb.base == W.Created(Leftover(size, leftover), listenFd, clock)
    ensures eb != null ==> (Valid(eb) <==> leftover(listenFd).mask == EVENT_NONE)
  {
    hide M.Inv, Registration.EventAdd;
    if size <= 0 {
      return null;
    }
    eb := new EventBase(listenFd, size, clock, leftover);
    ghost var entries := Leftover(size, leftover);
    var ok := eb.EventAdd(listenFd, EVENT_READABLE, AcceptCallback, null, true, eb.base.table);
    if listenFd < size {
      CreatedIs(entries, listenFd, clock);
    } else {
      BeyondTable(eb.base.table, listenFd);
    }
    if !ok {
      return null;
    }
    W.CreatedInv<TimeoutEvent>(entries, listenFd, clock);
    eb.Record(W.Created(entries, listenFd, clock));
  }

  lemma BeyondTable(t: Table<Option<int>>, fd: nat)
    requires fd > |t.events|
    ensures !Registration.EventAdd(t, fd, EVENT_READABLE, AcceptCallback, None, true).ok
  {}

  // ---------------------------------------------------------------------------------------------
  // The callbacks

  /** What the callbacks of a descriptor may change. */
  ghost function Footprint(eb: EventBase, fd: nat): set<object>
    reads eb`fdEvents, eb`base, eb.heap`header, eb.heap`nodes
    reads (set c | c in eb.Args() && c != null)`recvBuf
    reads (set c | c in eb.Args() && c != null)`sendBuf
  {
    {eb, eb.heap, eb.heap.header} + eb.heap.nodes +
    if fd in eb.base.conns && fd < |eb.Args()| && eb.Args()[fd] != null then Objects(eb.Args()[fd]) else {}
  }

  /** Everything in the footprint afterwards was in it before or is new. */
  twostate predicate Confined(eb: EventBase, fd: nat)
    reads eb`fdEvents, eb`base, eb.heap`header, eb.heap`nodes
    reads (set c | c in eb.Args() && c != null)`recvBuf
    reads (set c | c in eb.Args() && c != null)`sendBuf
  {
    forall o :: o in Footprint(eb, fd) && !fresh(o) ==> o in old(Footprint(eb, fd))
  }

  lemma ConnAt(eb: EventBase, fd: nat)
    requires Valid(eb) && fd in eb.base.conns
    ensures fd < |eb.Args()| == |eb.fdEvents| && eb.fdEvents[fd].arg == eb.Args()[fd] != null
    ensures var c := eb.Args()[fd]; eb.Owns(c) && c.Valid() && c.socket.fd == fd && c.timeoutEvent in eb.heap.nodes
  {
    assert ConnIs(eb.Args()[fd], fd, eb.base.conns[fd]);
    assert M.TimedConn(eb.base, fd, {});
    eb.heap.HeldNodes(eb.base.timers);
  }

  lemma TableLength(eb: EventBase)
    requires eb.Stored()
    ensures |eb.Args()| == |eb.fdEvents| == |eb.base.table.events|
    ensures forall fd :: 0 <= fd < |eb.fdEvents| ==> eb.base.table.events[fd] == EntryOf(eb.fdEvents[fd])
    ensures eb.base.listen == eb.listenFd
  {}

  method RunRecv(eb: EventBase, fd: nat, arrivals: seq<Arrival>, reply: Reply, rev: Revision)
    requires Valid(eb) && fd in eb.base.conns && M.SoundRecv(eb.base, fd, arrivals, reply, rev)
    modifies Footprint(eb, fd)
    ensures Valid(eb) && eb.base == M.Recv(old(eb.base), fd, arrivals, reply, rev) && Confined(eb, fd) && KeptConns(eb)
  {
    hide M.Inv, M.SoundRecv, M.Recv, M.OthersUntouched, EventBase.Stored, Backed, ConnFd.Valid;
    ConnAt(eb, fd);
    M.RecvKeepsInv(eb.base, fd, arrivals, reply, rev);
    M.RecvShrinks(eb.base, fd, arrivals, reply, rev);
    var c: ConnFd := eb.fdEvents[fd].arg;
    eb.ProcessRecvCallback(c, arrivals, reply, rev);
    StillBacked(eb, fd, c);
  }

  /** Offering a script to a connection's socket changes nothing that the structure depends on. */
  method Offer(eb: EventBase, fd: nat, script: seq<Acceptance>)
    requires Valid(eb) && fd in eb.base.conns && fd < |eb.Args()| && eb.Args()[fd] != null
    modifies eb.Args()[fd].socket`script
    ensures Valid(eb) && eb.base == old(eb.base) && eb.Args()[fd].socket.script == script
    ensures Footprint(eb, fd) == old(Footprint(eb, fd)) && eb.Args() == old(eb.Args())
  {
    hide M.Inv, ConnFd.Valid, EventBase.TableIs;
    eb.fdEvents[fd].arg.socket.Offer(script);
  }

  method RunSend(eb: EventBase, fd: nat, script: seq<Acceptance>, rev: Revision)
    requires Valid(eb) && fd in eb.base.conns && M.SoundSend(eb.base, fd, script, rev)
    modifies Footprint(eb, fd)
    ensures Valid(eb) && eb.base == M.Send(old(eb.base), fd, script, rev) && Confined(eb, fd) && KeptConns(eb)
  {
    hide M.Inv, M.SoundSend, M.Send, M.OthersUntouched, EventBase.Stored, Backed, ConnFd.Valid;
    ConnAt(eb, fd);
    Offer(eb, fd, script);
    ConnAt(eb, fd);
    M.SendKeepsInv(eb.base, fd, script, rev);
    M.SendShrinks(eb.base, fd, script, rev);
    var c: ConnFd := eb.fdEvents[fd].arg;
    eb.ProcessSendCallback(c, rev);
    StillBacked(eb, fd, c);
  }

  method RunAccept(eb: EventBase, client: Option<nat>, rev: Revision) returns (c: ConnFd?)
    requires Valid(eb)
    requires client.Some? ==> client.value !in eb.base.conns && client.value != eb.base.listen && client.value < |eb.base.table.events|
    modifies eb, eb.heap, eb.heap.header, eb.heap.nodes
    ensures Valid(eb) && Confined(eb, eb.listenFd) && KeptConns(eb) && (c != null <==> client.Some?)
    ensures c == null ==> eb.base == old(eb.base)
    ensures c != null ==> fresh(c.timeoutEvent) && c.timeoutEvent !in old(eb.base).timers.key
    ensures c != null ==> eb.base == M.Accept(old(eb.base), client.value, c.timeoutEvent, rev)
  {
    hide M.Inv, M.Accept, EventBase.Stored, Backed, ConnFd.Valid;
    TableLength(eb);
    c := eb.ProcessAcceptCallback(client, rev);
    if c != null {
      M.AcceptKeepsInv(old(eb.base), client.value, c.timeoutEvent, rev);
      BackedMore(eb, c, client.value);
    } else {
      AllBacked(eb);
    }
  }

  // ---------------------------------------------------------------------------------------------
  // Dispatch

  /** One `struct epoll_event`, with what the callbacks will meet; `client` is what `accept` will return. */
  datatype Event = Event(fd: nat, epollIn: bool, epollOut: bool, epollHup: bool, epollErr: bool, arrivals: seq<Arrival>,
                         reply: Reply, script: seq<Acceptance>, client: Option<nat>)

  /** The event on values, once the accepted connection `c`, if any, is known. */
  ghost function AsReady(x: Event, c: ConnFd?): E.Ready<TimeoutEvent> {
    E.Ready(x.fd, x.epollIn, x.epollOut, x.epollHup, x.epollErr, x.arrivals, x.reply, x.script,
            if x.client.None? || c == null then E.NoClient else E.Client(x.client.value, c.timeoutEvent))
  }

  /** The environment and the handlers behave, and the event stays clear of the defective lines. */
  ghost predicate SoundEvent(b: M.Base<TimeoutEvent>, x: Event, rev: Revision)
    requires M.Inv(b) && x.fd in b.table.kernel
  {
    if x.fd == b.listen then
      x.client.Some? ==> x.client.value !in b.conns && x.client.value != b.listen && x.client.value < |b.table.events|
    else E.SoundReady(b, AsReady(x, null), rev)
  }

  lemma SoundAccepted(b: M.Base<TimeoutEvent>, x: Event, c: ConnFd?, rev: Revision)
    requires M.Inv(b) && x.fd in b.table.kernel && SoundEvent(b, x, rev)
    requires if x.fd == b.listen then c != null ==> c.timeoutEvent !in b.timers.key else c == null
    ensures E.SoundRead(b, AsReady(x, c), rev)
  {
    E.CallbackIsLive(b, x.fd);
  }

  /** The read half of a round. */
  method DispatchRead(eb: EventBase, x: Event, rev: Revision) returns (c: ConnFd?)
    requires Valid(eb) && x.fd in eb.base.table.kernel && SoundEvent(eb.base, x, rev)
    modifies Footprint(eb, x.fd)
    ensures Valid(eb) && Confined(eb, x.fd) && KeptConns(eb) && E.SoundRead(old(eb.base), AsReady(x, c), rev)
    ensures if x.fd == old(eb.base).listen then c != null ==> c.timeoutEvent !in old(eb.base).timers.key else c == null
    ensures eb.base == E.DispatchRead(old(eb.base), AsReady(x, c), rev)
  {
    hide M.Inv, M.Accept, M.Recv, M.SoundRecv, E.SoundRead, SoundEvent, E.DispatchRead, EventBase.Stored, Backed, ConnFd.Valid;
    c := null;
    ghost var b := eb.base;
    TableLength(eb);
    SoundAccepted(b, x, null, rev);
    E.ReadCases(b, AsReady(x, null), rev);
    if eb.fdEvents[x.fd].mask.readable && x.epollIn {
      match eb.fdEvents[x.fd].onRead
      case AcceptCallback =>
        if x.client.Some? {
          AcceptedIsFresh(b, x, rev);
        }
        c := RunAccept(eb, x.client, rev);
        SoundAccepted(b, x, c, rev);
        E.ReadCases(b, AsReady(x, c), rev);
      case RecvCallback => RunRecv(eb, x.fd, x.arrivals, x.reply, rev);
      case _ => assert false;
    }
  }

  lemma AcceptedIsFresh(b: M.Base<TimeoutEvent>, x: Event, rev: Revision)
    requires M.Inv(b) && x.fd in b.table.kernel && SoundEvent(b, x, rev) && x.fd == b.listen && x.client.Some?
    ensures x.client.value !in b.conns && x.client.value != b.listen && x.client.value < |b.table.events|
  {}

  /** One round of the dispatch loop. The table is consulted again before the write callback, which therefore is
      not run on a connection that the read callback has destroyed. */
  method DispatchEvent(eb: EventBase, x: Event, rev: Revision) returns (ghost c: ConnFd?)
    requires Valid(eb) && x.fd in eb.base.table.kernel && SoundEvent(eb.base, x, rev)
    modifies Footprint(eb, x.fd)
    ensures Valid(eb) && Confined(eb, x.fd) && KeptConns(eb) && E.SoundReady(old(eb.base), AsReady(x, c), rev)
    ensures eb.base == E.Dispatch(old(eb.base), AsReady(x, c), rev)
  {
    hide M.Inv, M.Send, E.SoundRead, E.SoundWrite, SoundEvent, E.DispatchRead, E.DispatchWrite, EventBase.Stored, Backed, ConnFd.Valid, E.Elsewhere;
    ghost var b := eb.base;
    c := DispatchRead(eb, x, rev);
    ghost var e := AsReady(x, c);
    E.ReadKeepsInv(b, e, rev);
    SoundWritten(b, x, c, rev);
    E.WriteCases(eb.base, e, rev);
    TableLength(eb);
    if eb.fdEvents[x.fd].mask.writable && (x.epollOut || x.epollHup || x.epollErr) {
      match eb.fdEvents[x.fd].onWrite
      case SendCallback => RunSend(eb, x.fd, x.script, rev);
      case _ => assert false;
    }
  }

  lemma SoundWritten(b: M.Base<TimeoutEvent>, x: Event, c: ConnFd?, rev: Revision)
    requires M.Inv(b) && x.fd in b.table.kernel && SoundEvent(b, x, rev) && E.SoundRead(b, AsReady(x, c), rev)
    requires if x.fd == b.listen then c != null ==> c.timeoutEvent !in b.timers.key else c == null
    ensures var b1 := E.DispatchRead(b, AsReady(x, c), rev);
      && M.Inv(b1) && 0 <= x.fd < |b1.table.events| && (E.RunsWrite(b1, AsReady(x, c)) ==> x.fd in b1.table.kernel)
      && E.SoundWrite(b1, AsReady(x, c), rev) && E.SoundReady(b, AsReady(x, c), rev)
  {
    E.ReadKeepsInv(b, AsReady(x, c), rev);
    var b1 := E.DispatchRead(b, AsReady(x, c), rev);
    if x.fd == b.listen && E.RunsWrite(b1, AsReady(x, c)) {
      E.WriteCallbackIsLive(b1, AsReady(x, c));
    }
  }

  // ---------------------------------------------------------------------------------------------
  // A batch, when the lines are as intended

  /** The events that `epoll_wait` returns: watched descriptors, each of them once. */
  ghost predicate FromEpoll(b: M.Base<TimeoutEvent>, xs: seq<Event>) {
    && (forall i :: 0 <= i < |xs| ==> xs[i].fd in b.table.kernel)
    && (forall i, j :: 0 <= i < j < |xs| ==> xs[i].fd != xs[j].fd)
  }

  /** What an event needs when the batch is returned: an accept gets a descriptor that is not in use, and the handler of
      a packet that a read completes has the room for what it sends. */
  ghost predicate ProperEvent(b: M.Base<TimeoutEvent>, x: Event)
    requires M.Inv(b) && x.fd in b.table.kernel
  {
    && E.ReadyProper(b, AsReady(x, null))
    && (x.fd == b.listen && x.client.Some? ==>
          x.client.value !in b.conns && x.client.value != b.listen && x.client.value < |b.table.events|)
  }

  lemma ProperIsSound(b: M.Base<TimeoutEvent>, x: Event)
    requires M.Inv(b) && x.fd in b.table.kernel && ProperEvent(b, x)
    ensures SoundEvent(b, x, AsIntended)
  {
    hide M.Inv, E.ReadyProper, E.SoundReady;
    E.IntendedReadyIff(b, AsReady(x, null));
  }

  /** The events dispatched before do not matter. */
  lemma ProperEventStays(b: M.Base<TimeoutEvent>, x: Event, c: ConnFd?, x2: Event)
    requires M.Inv(b) && x.fd in b.table.kernel && E.SoundReady(b, AsReady(x, c), AsIntended)
    requires x2.fd in b.table.kernel && x2.fd != x.fd && ProperEvent(b, x2)
    ensures var b' := E.Dispatch(b, AsReady(x, c), AsIntended);
      M.Inv(b') && x2.fd in b'.table.kernel && ProperEvent(b', x2)
  {
    hide M.Inv, E.ReadyProper, E.SoundReady, E.Dispatch;
    E.ProperStays(b, AsReady(x, c), AsReady(x2, null));
    E.DispatchListens(b, AsReady(x, c), AsIntended);
    E.DispatchTable(b, AsReady(x, c), AsIntended);
    if x2.fd == b.listen {
      E.DispatchShrinks(b, AsReady(x, c), AsIntended);
    }
  }

  /** `e` is the event `x`, with the node of the connection that it has accepted, if any. */
  ghost predicate Describes(x: Event, e: E.Ready<TimeoutEvent>) {
    e.(incoming := E.NoClient) == AsReady(x, null) && (e.incoming.Client? ==> x.client == Some(e.incoming.fd))
  }

  /** All objects of the structure. */
  ghost function AllObjects(eb: EventBase): set<object>
    reads eb`fdEvents, eb`base, eb.heap`header, eb.heap`nodes
    reads (set c | c in eb.Args() && c != null)`recvBuf
    reads (set c | c in eb.Args() && c != null)`sendBuf
  {
    {eb, eb.heap, eb.heap.header} + eb.heap.nodes + ConnObjects(eb)
  }

  /** The structure consists of what it consisted of before and of new objects. */
  twostate predicate Kept(eb: EventBase)
    reads eb`fdEvents, eb`base, eb.heap`header, eb.heap`nodes
    reads (set c | c in eb.Args() && c != null)`recvBuf
    reads (set c | c in eb.Args() && c != null)`sendBuf
  {
    forall o :: o in AllObjects(eb) && !fresh(o) ==> o in old(AllObjects(eb))
  }

  lemma FootprintWithin(eb: EventBase, fd: nat)
    ensures Footprint(eb, fd) <= AllObjects(eb)
  {}

  twostate lemma KeptAll(eb: EventBase, new fd: nat)
    requires Confined(eb, fd) && KeptConns(eb)
    ensures Kept(eb)
  {
    forall o | o in AllObjects(eb) && !fresh(o) ensures o in old(AllObjects(eb)) {
      if o !in ConnObjects(eb) {
        assert o in Footprint(eb, fd);
      }
    }
  }

  twostate lemma KeptHeap(eb: EventBase)
    requires KeptConns(eb) && eb.heap.header == old(eb.heap.header) && eb.heap.nodes <= old(eb.heap.nodes)
    ensures Kept(eb)
  {
    hide ConnObjects;
  }

  /** One event of a batch. */
  method DispatchNext(eb: EventBase, x: Event) returns (ghost c: ConnFd?)
    requires Valid(eb) && x.fd in eb.base.table.kernel && ProperEvent(eb.base, x)
    modifies AllObjects(eb)
    ensures Valid(eb) && Kept(eb) && E.SoundReady(old(eb.base), AsReady(x, c), AsIntended)
    ensures eb.base == E.Dispatch(old(eb.base), AsReady(x, c), AsIntended)
  {
    hide M.Inv, SoundEvent, ProperEvent, E.SoundReady, E.Dispatch, EventBase.Stored, Backed, ConnObjects, Footprint;
    ProperIsSound(eb.base, x);
    FootprintWithin(eb, x.fd);
    c := DispatchEvent(eb, x, AsIntended);
    KeptAll(eb, x.fd);
  }

  /** The loop over the events returned by `epoll_wait`. */
  method DispatchBatch(eb: EventBase, xs: seq<Event>) returns (ghost es: seq<E.Ready<TimeoutEvent>>)
    requires Valid(eb) && FromEpoll(eb.base, xs) && forall i :: 0 <= i < |xs| ==> ProperEvent(eb.base, xs[i])
    modifies AllObjects(eb)
    ensures Valid(eb) && Kept(eb)
    ensures |es| == |xs| && forall i :: 0 <= i < |xs| ==> Describes(xs[i], es[i])
    ensures E.FromKernel(old(eb.base), es) && E.SoundBatch(old(eb.base), es, AsIntended)
    ensures eb.base == E.Batch(old(eb.base), es, AsIntended)
  {
    hide M.Inv, ProperEvent, E.SoundReady, E.Dispatch, EventBase.Stored, Backed, ConnObjects, AllObjects;
    ghost var b := eb.base;
    es := [];
    for i := 0 to |xs|
      invariant Valid(eb) && Kept(eb) && |es| == i
      invariant forall j :: 0 <= j < i ==> Describes(xs[j], es[j])
      invariant E.FromKernel(b, es) && E.SoundBatch(b, es, AsIntended) && eb.base == E.Batch(b, es, AsIntended)
      invariant forall j :: i <= j < |xs| ==> xs[j].fd in eb.base.table.kernel && ProperEvent(eb.base, xs[j])
    {
      ghost var b1 := eb.base;
      ghost var c := DispatchNext(eb, xs[i]);
      forall j | i < j < |xs| ensures xs[j].fd in eb.base.table.kernel && ProperEvent(eb.base, xs[j]) {
        ProperEventStays(b1, xs[i], c, xs[j]);
      }
      E.BatchSnoc(b, es, AsReady(xs[i], c), AsIntended);
      es := es + [AsReady(xs[i], c)];
    }
  }

  // ---------------------------------------------------------------------------------------------
  // A turn of the loop

  lemma ArgOf(eb: EventBase, fd: int)
    requires eb.Stored() && M.Inv(eb.base) && fd in eb.base.conns
    ensures 0 <= fd < |eb.Args()| && eb.base.conns[fd].node in eb.base.owner
    ensures eb.base.conns[fd].node.callbackArg == eb.Args()[fd]
  {
    assert M.TimedConn(eb.base, fd, {});
  }

  /** A sweep only takes connections away. */
  twostate lemma SweptBacked(eb: EventBase)
    requires old(eb.Stored()) && M.Inv(old(eb.base)) && old(Backed(eb)) && eb.Stored() && M.Inv(eb.base)
    requires forall fd :: fd in eb.base.conns ==> fd in old(eb.base).conns && eb.base.conns[fd] == old(eb.base).conns[fd]
    requires forall n: TimeoutEvent :: old(allocated(n)) ==> n.callbackArg == old(n.callbackArg)
    requires forall d: ConnFd :: old(allocated(d)) ==> SameConn(d)
    requires forall s: Socket :: old(allocated(s)) ==> SameSocket(s)
    requires forall a: array<byte> :: old(allocated(a)) ==> SameBytes(a)
    ensures Backed(eb) && KeptConns(eb)
  {
    hide M.Inv, EventBase.Stored, ConnFd.Valid;
    forall fd | fd in eb.base.conns
      ensures 0 <= fd < |eb.Args()| && fd < |old(eb.Args())| && eb.Args()[fd] == old(eb.Args()[fd]) != null
      ensures eb.Args()[fd].Valid() && Objects(eb.Args()[fd]) == old(Objects(eb.Args()[fd]))
    {
      ArgOf(eb, fd);
      ArgWas(eb, fd);
      StillValid(old(eb.Args())[fd]);
    }
  }

  twostate lemma ArgWas(eb: EventBase, new fd: int)
    requires old(eb.Stored()) && M.Inv(old(eb.base)) && fd in old(eb.base).conns
    ensures 0 <= fd < |old(eb.Args())| && old(eb.base).conns[fd].node in old(eb.base).owner
    ensures old(eb.base.conns[fd].node.callbackArg) == old(eb.Args())[fd]
  {
    assert M.TimedConn(old(eb.base), fd, {});
  }

  /** `ReactorProcessTimeoutEvent` */
  method SweepExpired(eb: EventBase)
    requires Valid(eb)
    modifies eb, eb.heap, eb.heap.header, eb.heap.nodes`heapIndex
    ensures Valid(eb) && Kept(eb) && eb.base == E.Sweep(old(eb.base), AsIntended).0
  {
    hide M.Inv, EventBase.Stored, Backed, ConnFd.Valid, ConnObjects;
    E.SweepExact(eb.base, AsIntended);
    ghost var closed := eb.ReactorProcessTimeoutEvent(AsIntended);
    SweptBacked(eb);
    KeptHeap(eb);
  }

  /** The beginning of a turn leaves all connections alone. */
  method StartTurn(eb: EventBase, refresh: Timeval, clock: Timeval) returns (ms: int)
    requires Valid(eb) && Normal(clock) && AtMost(eb.base.now, clock)
    modifies eb`timeCache, eb`base
    ensures Valid(eb) && eb.base == old(eb.base).(now := clock) && Kept(eb)
    ensures ms == EpollTimeout(W.Prepared(old(eb.base), refresh).now, W.TopDeadline(old(eb.base)))
  {
    hide M.Inv, EventBase.Stored, Backed, ConnFd.Valid, ConnObjects;
    W.ClockKeepsInv(eb.base, clock);
    ms := eb.ReadClock(refresh, clock);
    AllBacked(eb);
    KeptHeap(eb);
  }

  lemma ProperAnyTime(b: M.Base<TimeoutEvent>, now: Timeval, xs: seq<Event>)
    requires M.Inv(b) && M.Inv(b.(now := now)) && FromEpoll(b, xs) && forall i :: 0 <= i < |xs| ==> ProperEvent(b, xs[i])
    ensures FromEpoll(b.(now := now), xs) && forall i :: 0 <= i < |xs| ==> ProperEvent(b.(now := now), xs[i])
  {
    hide M.Inv;
  }

  /** A turn of `ReactorEventDispatchLoop` with `refresh` and `clock` as the clock shows them before and after
      `epoll_wait`, which returns `batch` or fails. */
  method DispatchTurn(eb: EventBase, refresh: Timeval, clock: Timeval, batch: Option<seq<Event>>)
      returns (ms: int, ghost t: W.Turn<TimeoutEvent>)
    requires Valid(eb) && Normal(refresh) && Normal(clock) && AtMost(eb.base.now, refresh) && AtMost(refresh, clock)
    requires batch.Some? ==> FromEpoll(eb.base, batch.value) && forall i :: 0 <= i < |batch.value| ==> ProperEvent(eb.base, batch.value[i])
    modifies AllObjects(eb)
    ensures Valid(eb) && Kept(eb)
    ensures ms == EpollTimeout(W.Prepared(old(eb.base), refresh).now, W.TopDeadline(old(eb.base)))
    ensures t.refresh == refresh && t.clock == clock && (t.batch.Some? <==> batch.Some?)
    ensures batch.Some? ==> |t.batch.value| == |batch.value|
    ensures batch.Some? ==> forall i :: 0 <= i < |batch.value| ==> Describes(batch.value[i], t.batch.value[i])
    ensures W.SoundTurn(old(eb.base), t, AsIntended) && eb.base == W.Take(old(eb.base), t, AsIntended)
  {
    hide M.Inv, FromEpoll, ProperEvent, EventBase.Stored, Backed, AllObjects, E.SoundBatch, E.Batch, E.Sweep;
    ghost var b := eb.base;
    t := W.Turn(refresh, clock, None);
    W.AwakeKeepsInv(b, t);
    W.AtMostTransitive(b.now, refresh, clock);
    AllObjectsAre(eb);
    ms := StartTurn(eb, refresh, clock);
    if batch.Some? {
      ProperAnyTime(b, clock, batch.value);
      ghost var es := DispatchBatch(eb, batch.value);
      t := t.(batch := Some(es));
      AllObjectsAre(eb);
      SweepExpired(eb);
    }
  }

  lemma AllObjectsAre(eb: EventBase)
    ensures {eb, eb.heap, eb.heap.header} + eb.heap.nodes <= AllObjects(eb)
  {}
}
