// The expiry sweep, the dispatch of a batch of kernel events and whole runs of the worker's loop.

module EventLoop {
  import opened Bytes
  import opened Protocol
  import opened TimeMath
  import opened HeapModel
  import opened HeapProofs
  import opened HeapRuns
  import opened Registration
  import opened SocketModel
  import opened Reactor
  import R = Receiver
  import S = Sender

  // ---------------------------------------------------------------------------------------------
  // The expiry sweep

  /** The connection whose timer is at the top of the heap. */
  ghost function TopOwner<N>(b: Base<N>): int
    requires Inv(b) && b.timers.heap.slots != []
    ensures TopOwner(b) in b.conns && b.conns[TopOwner(b)].node == b.timers.heap.slots[0]
  {
    b.owner[b.timers.heap.slots[0]]
  }

  ghost predicate TopDue<N>(b: Base<N>)
    requires Inv(b)
  {
    b.timers.heap.slots != [] && !Greater(b.timers.key[b.timers.heap.slots[0]], b.now)
  }

  /** One round of `ReactorProcessTimeoutEvent`: pop the top and call its callback, which destroys the
      connection; its own erase then finds the node with index -1. */
  ghost function Expire<N>(b: Base<N>, rev: Revision): Base<N>
    requires Inv(b) && b.timers.heap.slots != []
  {
    PopTopStep(b.timers, rev);
    assert TimedConn(b, TopOwner(b), {});
    Destroy(b.(timers := Do(b.timers, PopTop, rev)), TopOwner(b), rev)
  }

  /** What a round does, step by step. */
  lemma ExpireSteps<N>(b: Base<N>, rev: Revision)
    requires Inv(b) && b.timers.heap.slots != []
    ensures TimersValid(b.timers) && b.timers.heap.slots[0] in b.owner && b.owner[b.timers.heap.slots[0]] == TopOwner(b)
    ensures var p := b.(timers := Do(b.timers, PopTop, rev));
      Destroyable(p, TopOwner(b)) && Expire(b, rev) == Destroy(p, TopOwner(b), rev)
  {
    PopTopStep(b.timers, rev);
    assert TimedConn(b, TopOwner(b), {});
  }

  lemma TopNode<N>(b: Base<N>)
    requires Inv(b) && b.timers.heap.slots != []
    ensures var top := b.timers.heap.slots[0]; top in b.owner && b.owner[top] == TopOwner(b)
  {}

  /** The popped node is out of the heap, and the others stay in or out of it as they were. */
  lemma PopLeaves<N>(s: Timers<N>, rev: Revision)
    requires TimersValid(s) && s.heap.slots != []
    ensures var r, top := Do(s, PopTop, rev), s.heap.slots[0];
      && TimersValid(r) && r.key == s.key && top in s.key && r.heap.index.Keys == s.heap.index.Keys == s.key.Keys
      && r.heap.index[top] == -1 && |r.heap.slots| == |s.heap.slots| - 1
      && forall x :: x in s.key && x != top ==> (r.heap.index[x] == -1 <==> s.heap.index[x] == -1)
  {
    hide Pop, Ordered;
    PopCorrect(s.heap, s.key);
    InHeapIffMember(s);
    InHeapIffMember(Do(s, PopTop, rev));
  }

  /** The first half of a round: the pop. */
  ghost function Popped<N>(b: Base<N>, rev: Revision): Base<N>
    requires Inv(b)
  {
    InvTimers(b);
    b.(timers := Do(b.timers, PopTop, rev))
  }

  /** After the pop everything is as before, save that one node has left the heap. */
  lemma PoppedTimed<N>(b: Base<N>, rev: Revision)
    requires Inv(b) && b.timers.heap.slots != []
    ensures Timed(Popped(b, rev), {TopOwner(b)})
    ensures |Popped(b, rev).timers.heap.slots| == |b.timers.heap.slots| - 1
  {
    hide Wired, Buffered, TimedConn, Do, HeapModel.Valid, TopOwner, Deadline;
    var fd := TopOwner(b);
    InvTimers(b);
    PopLeaves(b.timers, rev);
    var p := Popped(b, rev);
    forall g | g in p.conns ensures TimedConn(p, g, {fd}) {
      PoppedConn(b, g, rev);
    }
  }

  lemma PoppedConn<N>(b: Base<N>, g: int, rev: Revision)
    requires Inv(b) && b.timers.heap.slots != [] && g in b.conns
    ensures var p := Popped(b, rev); TimersValid(p.timers) && TimedConn(p, g, {TopOwner(b)})
  {
    hide Inv, Do, HeapModel.Valid, TopOwner, Deadline;
    InvTimers(b);
    TopNode(b);
    PopLeaves(b.timers, rev);
    ConnTimer(b, g);
    ConnTimer(b, TopOwner(b));
  }

  lemma ExpireKeepsInv<N>(b: Base<N>, rev: Revision)
    requires Inv(b) && b.timers.heap.slots != []
    ensures Inv(Expire(b, rev)) && Expire(b, rev).conns == b.conns - {TopOwner(b)}
    ensures OthersUntouched(b, Expire(b, rev), {TopOwner(b)})
    ensures |Expire(b, rev).timers.heap.slots| < |b.timers.heap.slots|
  {
    hide Wired, Buffered, Timed, HeapModel.Valid, Do, Destroy, Destroyable, SoundDestroy, TopOwner;
    var fd := TopOwner(b);
    ExpireSteps(b, rev);
    var p := Popped(b, rev);
    PoppedTimed(b, rev);
    PoppedWired(b, p);
    PoppedIsSound(p, fd, rev);
    DestroyKeepsInv(p, fd, rev, {fd});
    DestroyTimers(p, fd, rev, {fd});
    DestroyFrame(p, fd, rev);
  }

  /** The rest of the invariant does not look at the timers. */
  lemma PoppedWired<N>(b: Base<N>, p: Base<N>)
    requires Wired(b) && Buffered(b) && p == b.(timers := p.timers)
    ensures Wired(p) && Buffered(p)
  {}

  /** A node that has been popped can be unregistered at no risk. */
  lemma PoppedIsSound<N>(p: Base<N>, fd: int, rev: Revision)
    requires Timed(p, {fd}) && fd in p.conns
    ensures p.conns[fd].node in p.timers.key && SoundDestroy(p, fd, rev)
  {
    assert TimedConn(p, fd, {fd});
  }

  /** `ReactorProcessTimeoutEvent`: the state afterwards and the connections destroyed, in order. */
  ghost function Sweep<N>(b: Base<N>, rev: Revision): (Base<N>, seq<int>)
    requires Inv(b)
    decreases |b.timers.heap.slots|
  {
    if !TopDue(b) then (b, [])
    else
      ExpireKeepsInv(b, rev);
      var (b', closed) := Sweep(Expire(b, rev), rev);
      (b', [TopOwner(b)] + closed)
  }

  /** Unrolling the sweep by a round. */
  lemma SweepOnce<N>(b: Base<N>, rev: Revision)
    requires Inv(b)
    ensures !TopDue(b) ==> Sweep(b, rev) == (b, [])
    ensures TopDue(b) ==> Inv(Expire(b, rev)) && |Expire(b, rev).timers.heap.slots| < |b.timers.heap.slots|
    ensures TopDue(b) ==> var s := Sweep(Expire(b, rev), rev); Sweep(b, rev) == (s.0, [TopOwner(b)] + s.1)
  {
    if TopDue(b) {
      ExpireKeepsInv(b, rev);
    }
  }

  /** A live connection whose minute is over. */
  ghost predicate Expired<N>(b: Base<N>, fd: int)
    requires fd in b.conns
  {
    !Greater(Deadline(b.conns[fd].active), b.now)
  }

  lemma TopIsEarliestConn<N>(b: Base<N>)
    requires Inv(b) && b.conns != map[]
    ensures b.timers.heap.slots != []
    ensures forall fd :: fd in b.conns ==>
      !Greater(Deadline(b.conns[TopOwner(b)].active), Deadline(b.conns[fd].active))
    ensures TopDue(b) <==> Expired(b, TopOwner(b))
  {
    hide Inv, Ordered, HeapModel.Valid, Deadline, TopOwner;
    TimersOrdered(b);
    forall fd | fd in b.conns
      ensures b.timers.heap.slots != []
      ensures !Greater(Deadline(b.conns[TopOwner(b)].active), Deadline(b.conns[fd].active))
    {
      ConnTimer(b, fd);
      ConnTimer(b, TopOwner(b));
      TopIsEarliest(b.timers.heap.slots, b.timers.key, b.timers.heap.index[b.conns[fd].node]);
    }
    var fd :| fd in b.conns;
    ConnTimer(b, fd);
    ConnTimer(b, TopOwner(b));
  }

  lemma NoConnsNoTimers<N>(b: Base<N>)
    requires Inv(b)
    ensures b.conns == map[] <==> b.timers.heap.slots == []
  {
    if b.conns != map[] {
      TopIsEarliestConn(b);
    } else if b.timers.heap.slots != [] {
      var fd := TopOwner(b);
      assert false;
    }
  }

  /** Nothing is due exactly when no connection's minute is over. */
  lemma DueIffExpired<N>(b: Base<N>)
    requires Inv(b)
    ensures TopDue(b) <==> exists fd :: fd in b.conns && Expired(b, fd)
    ensures TopDue(b) ==> Expired(b, TopOwner(b))
    ensures TopDue(b) ==> forall fd :: fd in b.conns ==>
      !Greater(Deadline(b.conns[TopOwner(b)].active), Deadline(b.conns[fd].active))
  {
    hide Inv, Deadline, TopOwner;
    NoConnsNoTimers(b);
    if b.conns != map[] {
      TopIsEarliestConn(b);
      var top := TopOwner(b);
      assert Expired(b, top) ==> exists fd :: fd in b.conns && Expired(b, fd);
    }
  }

  /** What a sweep has to do: destroy each connection whose minute is over, once, in order of the deadlines,
      and leave the others alone. */
  ghost predicate SweepsTo<N>(b: Base<N>, b': Base<N>, closed: seq<int>) {
    && b'.now == b.now && b'.listen == b.listen && |b'.table.events| == |b.table.events|
    && (forall fd :: fd in b'.conns <==> fd in b.conns && !Expired(b, fd))
    && (forall fd :: fd in b'.conns ==> b'.conns[fd] == b.conns[fd])
    && (forall fd :: fd in closed <==> fd in b.conns && Expired(b, fd))
    && (forall i, j :: 0 <= i < j < |closed| ==> closed[i] != closed[j])
    && (forall i, j :: 0 <= i < j < |closed| ==>
          closed[i] in b.conns && closed[j] in b.conns &&
          !Greater(Deadline(b.conns[closed[i]].active), Deadline(b.conns[closed[j]].active)))
  }

  lemma SweepsOneMore<N>(b: Base<N>, top: int, b1: Base<N>, b': Base<N>, rest: seq<int>)
    requires top in b.conns && Expired(b, top) && b1.conns == b.conns - {top} && OthersUntouched(b, b1, {top})
    requires forall fd :: fd in b.conns ==> !Greater(Deadline(b.conns[top].active), Deadline(b.conns[fd].active))
    requires SweepsTo(b1, b', rest)
    ensures SweepsTo(b, b', [top] + rest)
  {
    var closed := [top] + rest;
    forall fd ensures fd in closed <==> fd in b.conns && Expired(b, fd) {
      assert fd in closed <==> fd == top || fd in rest;
    }
    forall i, j | 0 <= i < j < |closed|
      ensures closed[i] != closed[j]
      ensures !Greater(Deadline(b.conns[closed[i]].active), Deadline(b.conns[closed[j]].active))
    {
      assert closed[j] == rest[j - 1] && rest[j - 1] in rest;
      if i > 0 {
        assert closed[i] == rest[i - 1] && rest[i - 1] in rest;
      }
    }
  }

  /** The sweep does exactly that and keeps the invariant; it ends because every round shortens the heap. */
  lemma {:induction false} SweepExact<N>(b: Base<N>, rev: Revision)
    requires Inv(b)
    ensures Inv(Sweep(b, rev).0) && SweepsTo(b, Sweep(b, rev).0, Sweep(b, rev).1)
    decreases |b.timers.heap.slots|
  {
    DueIffExpired(b);
    if TopDue(b) {
      var top, b1 := TopOwner(b), Expire(b, rev);
      ExpireKeepsInv(b, rev);
      SweepExact(b1, rev);
      SweepsOneMore(b, top, b1, Sweep(b1, rev).0, Sweep(b1, rev).1);
    }
  }

  // ---------------------------------------------------------------------------------------------
  // Dispatching kernel events

  /** What `accept` returns: nothing (EAGAIN), or a new descriptor, for which a timer node is allocated. */
  datatype Incoming<N> = NoClient | Client(fd: int, node: N)

  /** One `struct epoll_event`, with what the callbacks of its descriptor will meet: the bytes that have
      arrived, what the handler of a completed packet puts into its answer, what the socket accepts, who connects. */
  datatype Ready<N> = Ready(fd: int, epollIn: bool, epollOut: bool, epollHup: bool, epollErr: bool,
                            arrivals: seq<Arrival>, reply: Reply,
                            script: seq<Acceptance>, incoming: Incoming<N>)

  /** The mask that the loop makes of the event. */
  function Triggered<N>(e: Ready<N>): Mask {
    (if e.epollIn then EVENT_READABLE else EVENT_NONE)
      .Or(if e.epollOut || e.epollHup || e.epollErr then EVENT_WRITABLE else EVENT_NONE)
  }

  /** The read callback is run. */
  predicate RunsRead<N>(b: Base<N>, e: Ready<N>)
    requires 0 <= e.fd < |b.table.events|
  {
    b.table.events[e.fd].mask.readable && Triggered(e).readable
  }

  /** The write callback is run; the loop tests this after the read callback. */
  predicate RunsWrite<N>(b: Base<N>, e: Ready<N>)
    requires 0 <= e.fd < |b.table.events|
  {
    b.table.events[e.fd].mask.writable && Triggered(e).writable
  }

  /** What the kernel guarantees about a descriptor it hands out: it is not in use, and the table has an
      entry for it. */
  ghost predicate Fresh<N>(b: Base<N>, i: Incoming<N>)
  {
    i.NoClient? || (i.fd !in b.conns && i.fd != b.listen && 0 <= i.fd < |b.table.events| && i.node !in b.timers.key)
  }

  /** The read half of a loop round: the callback found in the table is run with the argument found there. */
  ghost function DispatchRead<N>(b: Base<N>, e: Ready<N>, rev: Revision): Base<N>
    requires Inv(b) && e.fd in b.table.kernel && SoundRead(b, e, rev)
  {
    var entry := b.table.events[e.fd];
    if !RunsRead(b, e) then b
    else if entry.onRead == AcceptCallback then
      (if e.incoming.NoClient? then b else Accept(b, e.incoming.fd, e.incoming.node, rev))
    else
      CallbackIsLive(b, e.fd);
      Recv(b, entry.arg.value, e.arrivals, e.reply, rev)
  }

  /** The read half, case by case. */
  lemma ReadCases<N>(b: Base<N>, e: Ready<N>, rev: Revision)
    requires Inv(b) && e.fd in b.table.kernel && SoundRead(b, e, rev)
    ensures 0 <= e.fd < |b.table.events|
    ensures !RunsRead(b, e) ==> DispatchRead(b, e, rev) == b
    ensures RunsRead(b, e) && e.fd == b.listen ==>
      && b.table.events[e.fd].onRead == AcceptCallback && Fresh(b, e.incoming)
      && DispatchRead(b, e, rev) == if e.incoming.NoClient? then b else Accept(b, e.incoming.fd, e.incoming.node, rev)
    ensures RunsRead(b, e) && e.fd != b.listen ==>
      && e.fd in b.conns && b.table.events[e.fd].onRead == RecvCallback && SoundRecv(b, e.fd, e.arrivals, e.reply, rev)
      && DispatchRead(b, e, rev) == Recv(b, e.fd, e.arrivals, e.reply, rev)
  {
    CallbackIsLive(b, e.fd);
  }

  /** The write half, case by case. */
  lemma WriteCases<N>(b: Base<N>, e: Ready<N>, rev: Revision)
    requires Inv(b) && 0 <= e.fd < |b.table.events| && (RunsWrite(b, e) ==> e.fd in b.table.kernel) && SoundWrite(b, e, rev)
    ensures !RunsWrite(b, e) ==> DispatchWrite(b, e, rev) == b
    ensures RunsWrite(b, e) ==>
      && e.fd in b.conns && b.table.events[e.fd].onWrite == SendCallback && SoundSend(b, e.fd, e.script, rev)
      && DispatchWrite(b, e, rev) == Send(b, e.fd, e.script, rev)
  {
    if RunsWrite(b, e) {
      WriteCallbackIsLive(b, e);
    }
  }

  /** The write half. */
  ghost function DispatchWrite<N>(b: Base<N>, e: Ready<N>, rev: Revision): Base<N>
    requires Inv(b) && 0 <= e.fd < |b.table.events| && (RunsWrite(b, e) ==> e.fd in b.table.kernel) && SoundWrite(b, e, rev)
  {
    if !RunsWrite(b, e) then b
    else
      WriteCallbackIsLive(b, e);
      Send(b, b.table.events[e.fd].arg.value, e.script, rev)
  }

  ghost predicate SoundRead<N>(b: Base<N>, e: Ready<N>, rev: Revision)
    requires Inv(b) && e.fd in b.table.kernel
  {
    CallbackIsLive(b, e.fd);
    RunsRead(b, e) ==>
      if e.fd == b.listen then Fresh(b, e.incoming)
      else SoundRecv(b, e.fd, e.arrivals, e.reply, rev)
  }

  ghost predicate SoundWrite<N>(b: Base<N>, e: Ready<N>, rev: Revision)
    requires Inv(b) && 0 <= e.fd < |b.table.events| && (RunsWrite(b, e) ==> e.fd in b.table.kernel)
  {
    RunsWrite(b, e) ==> (WriteCallbackIsLive(b, e); SoundSend(b, e.fd, e.script, rev))
  }

  /** The callbacks of a watched descriptor: accept for the listening one; for any other, which is a live
      connection, receive with that connection as the argument. */
  lemma CallbackIsLive<N>(b: Base<N>, fd: int)
    requires Inv(b) && fd in b.table.kernel
    ensures 0 <= fd < |b.table.events|
    ensures fd == b.listen ==> b.table.events[fd].onRead == AcceptCallback
    ensures fd != b.listen ==> fd in b.conns && b.table.events[fd].onRead == RecvCallback && b.table.events[fd].arg == Some(fd)
  {
    if fd != b.listen {
      assert WiredConn(b.table, fd, b.conns[fd].tx.tx.interest);
    }
  }

  /** A write callback is only ever run for a live connection with something to send, and with that connection
      as the argument. */
  lemma WriteCallbackIsLive<N>(b: Base<N>, e: Ready<N>)
    requires Inv(b) && e.fd in b.table.kernel && 0 <= e.fd < |b.table.events| && RunsWrite(b, e)
    ensures e.fd != b.listen && e.fd in b.conns && b.conns[e.fd].tx.tx.interest
    ensures b.table.events[e.fd].onWrite == SendCallback && b.table.events[e.fd].arg == Some(e.fd)
  {
    if e.fd != b.listen {
      assert WiredConn(b.table, e.fd, b.conns[e.fd].tx.tx.interest);
    }
  }

  /** What the read half of a round leaves behind. */
  ghost predicate AfterRead<N>(b: Base<N>, b': Base<N>, e: Ready<N>) {
    && Inv(b') && Elsewhere(b, b', e)
    && 0 <= e.fd < |b'.table.events|
    && (e.fd in b'.table.kernel || b'.table.events[e.fd].mask == EVENT_NONE)
  }

  lemma ReadKeepsInv<N>(b: Base<N>, e: Ready<N>, rev: Revision)
    requires Inv(b) && e.fd in b.table.kernel && SoundRead(b, e, rev)
    ensures AfterRead(b, DispatchRead(b, e, rev), e)
  {
    CallbackIsLive(b, e.fd);
    if !RunsRead(b, e) {
    } else if e.fd == b.listen {
      AcceptLeaves(b, e, rev);
    } else {
      RecvLeaves(b, e, rev);
    }
  }

  lemma AcceptLeaves<N>(b: Base<N>, e: Ready<N>, rev: Revision)
    requires Inv(b) && e.fd == b.listen && Fresh(b, e.incoming)
    ensures AfterRead(b, if e.incoming.NoClient? then b else Accept(b, e.incoming.fd, e.incoming.node, rev), e)
  {
    hide Inv, Accept;
    ListenIsWatched(b);
    if e.incoming.Client? {
      AcceptKeepsInv(b, e.incoming.fd, e.incoming.node, rev);
      AcceptElsewhere(b, e.incoming.fd, e.incoming.node, rev);
      ListenIsWatched(Accept(b, e.incoming.fd, e.incoming.node, rev));
    }
  }

  lemma ListenIsWatched<N>(b: Base<N>)
    requires Inv(b)
    ensures 0 <= b.listen < |b.table.events| && b.listen in b.table.kernel
  {}

  lemma RecvLeaves<N>(b: Base<N>, e: Ready<N>, rev: Revision)
    requires Inv(b) && e.fd in b.conns && SoundRecv(b, e.fd, e.arrivals, e.reply, rev)
    ensures AfterRead(b, Recv(b, e.fd, e.arrivals, e.reply, rev), e)
  {
    var b' := Recv(b, e.fd, e.arrivals, e.reply, rev);
    RecvKeepsInv(b, e.fd, e.arrivals, e.reply, rev);
    if !R.HistoryStep(b.conns[e.fd].rx, e.arrivals).alive {
      assert TimedConn(b, e.fd, {});
      DestroyWires(b, e.fd, rev);
    } else {
      RecvEffect(b, e.fd, e.arrivals, e.reply, rev);
      assert e.fd in b'.conns;
    }
  }

  lemma AcceptElsewhere<N>(b: Base<N>, fd: int, node: N, rev: Revision)
    requires Inv(b) && fd !in b.conns && fd != b.listen && 0 <= fd < |b.table.events| && node !in b.timers.key
    ensures OthersUntouched(b, Accept(b, fd, node, rev), {fd})
  {
    var t := FdInit(b.table, fd, None);
    assert Mirrors(t, fd);
    EventAddMirrors(t, fd, EVENT_READABLE, RecvCallback, Some(fd), true);
  }

  /** The connections that an event has nothing to do with are as before. */
  ghost predicate Elsewhere<N>(b: Base<N>, b': Base<N>, e: Ready<N>) {
    OthersUntouched(b, b', Concerned(b, e))
  }

  ghost function Concerned<N>(b: Base<N>, e: Ready<N>): set<int> {
    {e.fd} + if e.incoming.Client? && e.fd == b.listen then {e.incoming.fd} else {}
  }

  /** One round of the loop over the events. The write callback is looked up again after the read callback. */
  ghost function Dispatch<N>(b: Base<N>, e: Ready<N>, rev: Revision): Base<N>
    requires Inv(b) && e.fd in b.table.kernel && SoundReady(b, e, rev)
  {
    ReadKeepsInv(b, e, rev);
    DispatchWrite(DispatchRead(b, e, rev), e, rev)
  }

  ghost predicate SoundReady<N>(b: Base<N>, e: Ready<N>, rev: Revision)
    requires Inv(b) && e.fd in b.table.kernel
  {
    SoundRead(b, e, rev) && (ReadKeepsInv(b, e, rev); SoundWrite(DispatchRead(b, e, rev), e, rev))
  }

  /** An event that destroys its connection in the read callback does not run the write callback. */
  lemma DestroyedIsNotWritten<N>(b: Base<N>, e: Ready<N>, rev: Revision)
    requires Inv(b) && e.fd in b.table.kernel && SoundReady(b, e, rev) && e.fd != b.listen
    requires e.fd !in DispatchRead(b, e, rev).conns
    ensures Dispatch(b, e, rev) == DispatchRead(b, e, rev)
  {
    ReadKeepsInv(b, e, rev);
  }

  lemma DispatchKeepsInv<N>(b: Base<N>, e: Ready<N>, rev: Revision)
    requires Inv(b) && e.fd in b.table.kernel && SoundReady(b, e, rev)
    ensures Inv(Dispatch(b, e, rev)) && Elsewhere(b, Dispatch(b, e, rev), e)
  {
    ReadKeepsInv(b, e, rev);
    var b1 := DispatchRead(b, e, rev);
    if RunsWrite(b1, e) {
      WriteCallbackIsLive(b1, e);
      SendKeepsInv(b1, e.fd, e.script, rev);
      UntouchedTwice(b, b1, Dispatch(b, e, rev), Concerned(b, e), {e.fd});
    }
  }

  lemma UntouchedTwice<N>(b: Base<N>, b1: Base<N>, b2: Base<N>, fds: set<int>, fds2: set<int>)
    requires OthersUntouched(b, b1, fds) && OthersUntouched(b1, b2, fds2) && fds2 <= fds
    ensures OthersUntouched(b, b2, fds)
  {}

  /** An event leaves every live connection besides its own alone. */
  lemma ReadElsewhere<N>(b: Base<N>, e: Ready<N>, rev: Revision)
    requires Inv(b) && e.fd in b.table.kernel && SoundRead(b, e, rev)
    ensures forall fd :: fd in b.conns && fd != e.fd ==>
      fd in DispatchRead(b, e, rev).conns && DispatchRead(b, e, rev).conns[fd] == b.conns[fd]
  {
    hide Inv, SoundRead, DispatchRead, SoundRecv, Recv, Do, EventAdd, FdInit;
    ReadCases(b, e, rev);
    if RunsRead(b, e) && e.fd != b.listen {
      RecvKeepsInv(b, e.fd, e.arrivals, e.reply, rev);
    }
  }

  lemma WriteElsewhere<N>(b: Base<N>, e: Ready<N>, rev: Revision)
    requires Inv(b) && 0 <= e.fd < |b.table.events| && (RunsWrite(b, e) ==> e.fd in b.table.kernel) && SoundWrite(b, e, rev)
    ensures forall fd :: fd in b.conns && fd != e.fd ==>
      fd in DispatchWrite(b, e, rev).conns && DispatchWrite(b, e, rev).conns[fd] == b.conns[fd]
  {
    hide Inv, SoundWrite, DispatchWrite, SoundSend, Send, RunsWrite;
    WriteCases(b, e, rev);
    if RunsWrite(b, e) {
      SendKeepsInv(b, e.fd, e.script, rev);
    }
  }

  lemma DispatchElsewhere<N>(b: Base<N>, e: Ready<N>, rev: Revision)
    requires Inv(b) && e.fd in b.table.kernel && SoundReady(b, e, rev)
    ensures forall fd :: fd in b.conns && fd != e.fd ==>
      fd in Dispatch(b, e, rev).conns && Dispatch(b, e, rev).conns[fd] == b.conns[fd]
  {
    hide Inv, SoundRead, SoundWrite, DispatchRead, DispatchWrite, Elsewhere;
    ReadKeepsInv(b, e, rev);
    ReadElsewhere(b, e, rev);
    WriteElsewhere(DispatchRead(b, e, rev), e, rev);
  }

  /** With the lines as intended a write callback never needs anything. */
  lemma WriteIsSound<N>(b: Base<N>, e: Ready<N>)
    requires Inv(b) && 0 <= e.fd < |b.table.events| && (RunsWrite(b, e) ==> e.fd in b.table.kernel)
    ensures SoundWrite(b, e, AsIntended)
  {
    hide Inv, SoundSend;
    if RunsWrite(b, e) {
      WriteCallbackIsLive(b, e);
      SendIsSound(b, e.fd, e.script);
    }
  }

  /** What an event needs of the environment and the handlers, when the lines are as intended: an accept gets a fresh
      descriptor, and the handler of a packet that a read completes has the room for what it sends. */
  ghost predicate ReadyProper<N>(b: Base<N>, e: Ready<N>)
    requires Inv(b) && e.fd in b.table.kernel
  {
    CallbackIsLive(b, e.fd);
    e.epollIn ==> if e.fd == b.listen then Fresh(b, e.incoming) else ReadProper(b, e.fd, e.arrivals)
  }

  /** That is all: an event is sound exactly when its read half is proper, and its write half always is. */
  lemma IntendedReadyIff<N>(b: Base<N>, e: Ready<N>)
    requires Inv(b) && e.fd in b.table.kernel
    ensures SoundReady(b, e, AsIntended) <==> ReadyProper(b, e)
    ensures SoundRead(b, e, AsIntended) ==>
      AfterRead(b, DispatchRead(b, e, AsIntended), e) && SoundWrite(DispatchRead(b, e, AsIntended), e, AsIntended)
  {
    hide Inv, SoundRecv, DispatchRead, ReadProper, SoundWrite, OthersUntouched;
    CallbackIsLive(b, e.fd);
    WatchedForReading(b, e.fd);
    if e.fd != b.listen {
      IntendedRecvIff(b, e.fd, e.arrivals, e.reply);
    }
    if SoundRead(b, e, AsIntended) {
      ReadKeepsInv(b, e, AsIntended);
      WriteIsSound(DispatchRead(b, e, AsIntended), e);
    }
  }

  lemma DispatchListens<N>(b: Base<N>, e: Ready<N>, rev: Revision)
    requires Inv(b) && e.fd in b.table.kernel && SoundReady(b, e, rev)
    ensures Dispatch(b, e, rev).listen == b.listen
  {
    hide Inv, SoundReady, Dispatch;
    DispatchKeepsInv(b, e, rev);
  }

  lemma LiveInKernel<N>(b: Base<N>, fd: int)
    requires Inv(b) && (fd in b.conns || fd == b.listen)
    ensures fd in b.table.kernel
  {}

  // ---------------------------------------------------------------------------------------------
  // Batches

  /** The batch that `epoll_wait` returns holds watched descriptors only, each of them once. */
  ghost predicate FromKernel<N>(b: Base<N>, es: seq<Ready<N>>) {
    && (forall i :: 0 <= i < |es| ==> es[i].fd in b.table.kernel)
    && (forall i, j :: 0 <= i < j < |es| ==> es[i].fd != es[j].fd)
  }

  /** Every event of the batch is sound where it is dispatched. */
  ghost predicate SoundBatch<N>(b: Base<N>, es: seq<Ready<N>>, rev: Revision)
    requires Inv(b) && FromKernel(b, es)
    decreases |es|
  {
    es == [] ||
    (SoundReady(b, es[0], rev) && (StillFromKernel(b, es, rev); SoundBatch(Dispatch(b, es[0], rev), es[1..], rev)))
  }

  /** No event takes another one's descriptor away: the rest of the batch still consists of watched
      descriptors, whatever the first event destroys or accepts. */
  lemma StillFromKernel<N>(b: Base<N>, es: seq<Ready<N>>, rev: Revision)
    requires Inv(b) && FromKernel(b, es) && es != [] && SoundReady(b, es[0], rev)
    ensures Inv(Dispatch(b, es[0], rev)) && FromKernel(Dispatch(b, es[0], rev), es[1..])
  {
    hide Inv, SoundReady, Dispatch, Elsewhere;
    DispatchKeepsInv(b, es[0], rev);
    DispatchListens(b, es[0], rev);
    DispatchElsewhere(b, es[0], rev);
    var b' := Dispatch(b, es[0], rev);
    forall i | 0 <= i < |es[1..]| ensures es[1..][i].fd in b'.table.kernel {
      var fd := es[i + 1].fd;
      assert fd in b.table.kernel && fd != es[0].fd;
      CallbackIsLive(b, fd);
      LiveInKernel(b', fd);
    }
  }

  ghost function Batch<N>(b: Base<N>, es: seq<Ready<N>>, rev: Revision): (b': Base<N>)
    requires Inv(b) && FromKernel(b, es) && SoundBatch(b, es, rev)
    ensures Inv(b') && b'.now == b.now
    decreases |es|
  {
    if es == [] then b
    else
      StillFromKernel(b, es, rev);
      DispatchKeepsInv(b, es[0], rev);
      Batch(Dispatch(b, es[0], rev), es[1..], rev)
  }

  /** A batch with one more event. */
  lemma {:induction false} BatchSnoc<N>(b: Base<N>, es: seq<Ready<N>>, e: Ready<N>, rev: Revision)
    requires Inv(b) && FromKernel(b, es) && SoundBatch(b, es, rev) && FromKernel(b, es + [e])
    requires var b' := Batch(b, es, rev); e.fd in b'.table.kernel && SoundReady(b', e, rev)
    ensures SoundBatch(b, es + [e], rev) && Batch(b, es + [e], rev) == Dispatch(Batch(b, es, rev), e, rev)
    decreases |es|
  {
    hide Inv, SoundReady, Dispatch;
    if es == [] {
      assert (es + [e])[1..] == [];
      StillFromKernel(b, es + [e], rev);
    } else {
      assert (es + [e])[1..] == es[1..] + [e];
      StillFromKernel(b, es + [e], rev);
      StillFromKernel(b, es, rev);
      BatchSnoc(Dispatch(b, es[0], rev), es[1..], e, rev);
    }
  }

  // ---------------------------------------------------------------------------------------------
  // Batches when the lines are as intended

  /** An event on a connection accepts nothing. */
  lemma DispatchShrinks<N>(b: Base<N>, e: Ready<N>, rev: Revision)
    requires Inv(b) && e.fd in b.table.kernel && SoundReady(b, e, rev) && e.fd != b.listen
    ensures Dispatch(b, e, rev).conns.Keys <= b.conns.Keys
  {
    hide Inv, SoundRead, SoundWrite, DispatchRead, DispatchWrite, SoundRecv, Recv, Send, SoundSend;
    ReadCases(b, e, rev);
    ReadKeepsInv(b, e, rev);
    if RunsRead(b, e) {
      RecvShrinks(b, e.fd, e.arrivals, e.reply, rev);
    }
    var b1 := DispatchRead(b, e, rev);
    WriteCases(b1, e, rev);
    if RunsWrite(b1, e) {
      SendShrinks(b1, e.fd, e.script, rev);
    }
  }

  /** The nodes of the live connections are the nodes with a deadline. */
  lemma NodesAreOwners<N>(b: Base<N>, n: N)
    requires Inv(b)
    ensures n in b.timers.key <==> exists fd :: fd in b.conns && b.conns[fd].node == n
  {
    if n in b.timers.key {
      var fd := b.owner[n];
      assert fd in b.conns && b.conns[fd].node == n;
    }
    forall fd | fd in b.conns && b.conns[fd].node == n ensures n in b.timers.key {
      assert TimedConn(b, fd, {});
    }
  }

  /** The node of a connection does not change while the connection lives. */
  lemma DispatchKeepsNode<N>(b: Base<N>, e: Ready<N>, rev: Revision)
    requires Inv(b) && e.fd in b.table.kernel && SoundReady(b, e, rev) && e.fd in b.conns
        && e.fd in Dispatch(b, e, rev).conns
    ensures Dispatch(b, e, rev).conns[e.fd].node == b.conns[e.fd].node
  {
    hide Inv, SoundRead, SoundWrite, DispatchRead, DispatchWrite, SoundRecv, Recv, Send, SoundSend;
    ConnNotListen(b, e.fd);
    ReadCases(b, e, rev);
    ReadKeepsInv(b, e, rev);
    if RunsRead(b, e) {
      RecvEffect(b, e.fd, e.arrivals, e.reply, rev);
    }
    var b1 := DispatchRead(b, e, rev);
    WriteCases(b1, e, rev);
    if RunsWrite(b1, e) {
      SendEffect(b1, e.fd, e.script, rev);
    }
  }

  lemma ConnNotListen<N>(b: Base<N>, fd: int)
    requires Inv(b) && fd in b.conns
    ensures fd != b.listen
  {}

  /** A descriptor and a node that are fresh stay so while connections are only served. */
  lemma FreshStays<N>(b: Base<N>, e: Ready<N>, rev: Revision, i: Incoming<N>)
    requires Inv(b) && e.fd in b.table.kernel && SoundReady(b, e, rev) && e.fd != b.listen && Fresh(b, i)
    ensures Fresh(Dispatch(b, e, rev), i)
  {
    hide Inv, SoundReady, Dispatch, Elsewhere;
    var b' := Dispatch(b, e, rev);
    DispatchKeepsInv(b, e, rev);
    DispatchListens(b, e, rev);
    DispatchShrinks(b, e, rev);
    DispatchElsewhere(b, e, rev);
    DispatchTable(b, e, rev);
    if i.Client? && i.node in b'.timers.key {
      NodesAreOwners(b', i.node);
      var fd :| fd in b'.conns && b'.conns[fd].node == i.node;
      if fd == e.fd {
        DispatchKeepsNode(b, e, rev);
      }
      NodesAreOwners(b, i.node);
      assert false;
    }
  }

  lemma DispatchTable<N>(b: Base<N>, e: Ready<N>, rev: Revision)
    requires Inv(b) && e.fd in b.table.kernel && SoundReady(b, e, rev)
    ensures |Dispatch(b, e, rev).table.events| == |b.table.events|
  {
    hide Inv, SoundReady, Dispatch;
    DispatchKeepsInv(b, e, rev);
  }

  /** A watched descriptor is always watched for reading. */
  lemma WatchedForReading<N>(b: Base<N>, fd: int)
    requires Inv(b) && fd in b.table.kernel
    ensures 0 <= fd < |b.table.events| && b.table.events[fd].mask.readable
  {
    CallbackIsLive(b, fd);
    if fd != b.listen {
      assert WiredConn(b.table, fd, b.conns[fd].tx.tx.interest);
    }
  }

  /** What an event needs does not depend on the events dispatched before it: its own connection is as it was. */
  lemma ProperStays<N>(b: Base<N>, e: Ready<N>, e2: Ready<N>)
    requires Inv(b) && e.fd in b.table.kernel && SoundReady(b, e, AsIntended)
    requires e2.fd in b.table.kernel && e2.fd != e.fd && ReadyProper(b, e2)
    ensures var b' := Dispatch(b, e, AsIntended); Inv(b') && e2.fd in b'.table.kernel && ReadyProper(b', e2)
  {
    hide Inv, SoundReady, Dispatch, Elsewhere, Fresh, R.HistoryStep, HandlerProper;
    var b' := Dispatch(b, e, AsIntended);
    DispatchKeepsInv(b, e, AsIntended);
    DispatchListens(b, e, AsIntended);
    DispatchElsewhere(b, e, AsIntended);
    CallbackIsLive(b, e2.fd);
    LiveInKernel(b', e2.fd);
    WatchedForReading(b, e2.fd);
    if e2.fd == b.listen {
      if Fresh(b, e2.incoming) {
        FreshStays(b, e, AsIntended, e2.incoming);
      }
    }
  }

  /** So each event of a batch can be checked in the state in which the batch is returned: if all of them are proper
      there, the whole batch is sound, whatever the events do to each other. */
  lemma {:induction false} IntendedBatchSound<N>(b: Base<N>, es: seq<Ready<N>>)
    requires Inv(b) && FromKernel(b, es) && forall i :: 0 <= i < |es| ==> ReadyProper(b, es[i])
    ensures SoundBatch(b, es, AsIntended)
    decreases |es|
  {
    hide Inv, SoundReady, Dispatch, ReadyProper;
    if es != [] {
      IntendedReadyIff(b, es[0]);
      StillFromKernel(b, es, AsIntended);
      forall i | 0 <= i < |es[1..]| ensures ReadyProper(Dispatch(b, es[0], AsIntended), es[1..][i]) {
        ProperStays(b, es[0], es[i + 1]);
      }
      IntendedBatchSound(Dispatch(b, es[0], AsIntended), es[1..]);
    }
  }
}
