// Whole runs of the worker's loop: the invariant of every state, and what it says about counts,
// timeouts and the waiting time of epoll.

module WorkerRuns {
  import opened TimeMath
  import opened HeapModel
  import opened HeapProofs
  import opened HeapRuns
  import opened Registration
  import opened Reactor
  import opened EventLoop
  import P = Protocol
  import R = Receiver
  import S = Sender

  /** One turn of `ReactorEventDispatchLoop`: the clock as GetEPollwaitTimeoutValue reads it (which it does
      only if the cached seconds are 0), the clock after `epoll_wait`, and the events returned, or `None`
      for an error. */
  datatype Turn<N> = Turn(refresh: Timeval, clock: Timeval, batch: P.Option<seq<Ready<N>>>)

  /** The cached time as the epoll timeout is computed from it. */
  ghost function Prepared<N>(b: Base<N>, refresh: Timeval): Base<N> {
    if b.timers.heap.slots != [] && b.now.sec == 0 then b.(now := refresh) else b
  }

  /** The cached time after `epoll_wait`. */
  ghost function Awake<N>(b: Base<N>, t: Turn<N>): Base<N> {
    b.(now := t.clock)
  }

  ghost predicate ClockRuns<N>(b: Base<N>, t: Turn<N>) {
    Normal(t.refresh) && Normal(t.clock) && AtMost(b.now, t.refresh) && AtMost(t.refresh, t.clock)
  }

  /** A turn that the environment can take and that stays clear of the defective lines. */
  ghost predicate SoundTurn<N>(b: Base<N>, t: Turn<N>, rev: Revision)
    requires Inv(b)
  {
    && ClockRuns(b, t)
    && (AwakeKeepsInv(b, t);
        t.batch.Some? ==> FromKernel(Awake(b, t), t.batch.value) && SoundBatch(Awake(b, t), t.batch.value, rev))
  }

  /** The state after the batch of a turn. */
  ghost function Dispatched<N>(b: Base<N>, t: Turn<N>, rev: Revision): (b1: Base<N>)
    requires Inv(b) && SoundTurn(b, t, rev) && t.batch.Some?
    ensures Inv(b1) && b1.now == t.clock
  {
    AwakeKeepsInv(b, t);
    Batch(Awake(b, t), t.batch.value, rev)
  }

  /** After an error of `epoll_wait` the loop goes back to waiting, without a sweep. */
  ghost function Take<N>(b: Base<N>, t: Turn<N>, rev: Revision): (b': Base<N>)
    requires Inv(b) && SoundTurn(b, t, rev)
    ensures Inv(b') && b'.now == t.clock
  {
    match t.batch
    case None =>
      AwakeKeepsInv(b, t);
      Awake(b, t)
    case Some(es) =>
      SweepExact(Dispatched(b, t, rev), rev);
      Sweep(Dispatched(b, t, rev), rev).0
  }

  lemma ClockKeepsInv<N>(b: Base<N>, now: Timeval)
    requires Inv(b) && Normal(now) && AtMost(b.now, now)
    ensures Inv(b.(now := now))
  {
    var b' := b.(now := now);
    forall fd | fd in b'.conns ensures TimedConn(b', fd, {}) && BufferedConn(b'.conns[fd]) {
      assert TimedConn(b, fd, {}) && BufferedConn(b.conns[fd]);
      AtMostTransitive(b.conns[fd].active, b.now, now);
    }
    assert Timed(b', {}) && Wired(b') && Buffered(b');
  }

  lemma AtMostTransitive(a: Timeval, b: Timeval, c: Timeval)
    requires AtMost(a, b) && AtMost(b, c)
    ensures AtMost(a, c)
  {}

  lemma AwakeKeepsInv<N>(b: Base<N>, t: Turn<N>)
    requires Inv(b) && ClockRuns(b, t)
    ensures Inv(Awake(b, t)) && Inv(Prepared(b, t.refresh))
  {
    AtMostTransitive(b.now, t.refresh, t.clock);
    ClockKeepsInv(b, t.clock);
    ClockKeepsInv(b, t.refresh);
  }

  /** The state after `EventBaseCreate` over a table whose entry for the listening descriptor was empty; the
      other entries are whatever malloc left there. */
  ghost function Created<N>(events: seq<FdEvent<P.Option<int>>>, listen: nat, now: Timeval): Base<N>
    requires listen < |events|
  {
    var t := EventAdd(Table(events, map[]), listen, EVENT_READABLE, AcceptCallback, P.None, true).table;
    Base(now, Timers(Heap([], map[]), map[]), t, listen, 0, map[], map[])
  }

  /** Creation establishes the invariant exactly when malloc has left that entry empty. */
  lemma CreatedInv<N>(events: seq<FdEvent<P.Option<int>>>, listen: nat, now: Timeval)
    requires listen < |events| && Normal(now)
    ensures Inv<N>(Created(events, listen, now)) <==> events[listen].mask == EVENT_NONE
  {
    var t: Table<P.Option<int>> := Table(events, map[]);
    var b: Base<N> := Created(events, listen, now);
    if events[listen].mask == EVENT_NONE {
      EventAddMirrors(t, listen, EVENT_READABLE, AcceptCallback, P.None, true);
      assert Wired(b);
      assert Timed(b, {});
    } else {
      assert b.table.kernel == map[];
      assert !Wired(b) by {
        assert listen !in b.table.kernel;
      }
    }
  }

  ghost predicate SoundRun<N>(b: Base<N>, ts: seq<Turn<N>>, rev: Revision)
    requires Inv(b)
    decreases |ts|
  {
    ts == [] || (SoundTurn(b, ts[0], rev) && SoundRun(Take(b, ts[0], rev), ts[1..], rev))
  }

  /** The states between the turns of a run. */
  ghost function Run<N>(b: Base<N>, ts: seq<Turn<N>>, rev: Revision): (bs: seq<Base<N>>)
    requires Inv(b) && SoundRun(b, ts, rev)
    ensures |bs| == |ts| + 1
    decreases |ts|
  {
    if ts == [] then [b] else [b] + Run(Take(b, ts[0], rev), ts[1..], rev)
  }

  /** Every state of every run, from a properly created base on: whatever connects, sends, stops reading,
      fails or falls silent, the count, the connections, the timers, the table, the kernel and the
      buffers agree. */
  lemma {:induction false} RunInv<N>(b: Base<N>, ts: seq<Turn<N>>, rev: Revision)
    requires Inv(b) && SoundRun(b, ts, rev)
    ensures forall k :: 0 <= k < |Run(b, ts, rev)| ==> Inv(Run(b, ts, rev)[k])
    decreases |ts|
  {
    hide Inv, SoundTurn, Take;
    if ts != [] {
      RunInv(Take(b, ts[0], rev), ts[1..], rev);
    }
  }

  // ---------------------------------------------------------------------------------------------
  // Counts

  lemma {:induction false} DistinctCount<T>(s: seq<T>)
    requires forall i, j :: 0 <= i < j < |s| ==> s[i] != s[j]
    ensures |(set x | x in s)| == |s|
    decreases |s|
  {
    if s != [] {
      DistinctCount(s[1..]);
      assert s[0] !in s[1..];
      assert (set x | x in s) == {s[0]} + (set x | x in s[1..]);
    }
  }

  lemma {:induction false} BijectionCount<A, B>(a: set<A>, b: set<B>, f: map<A, B>)
    requires a <= f.Keys && (forall x :: x in a ==> f[x] in b)
    requires forall x, y :: x in a && y in a && f[x] == f[y] ==> x == y
    requires forall y :: y in b ==> exists x :: x in a && f[x] == y
    ensures |a| == |b|
    decreases |a|
  {
    if a == {} {
      assert b == {};
    } else {
      var x :| x in a;
      forall y | y in b - {f[x]} ensures exists z :: z in a - {x} && f[z] == y {
        var z :| z in a && f[z] == y;
        assert z in a - {x};
      }
      BijectionCount(a - {x}, b - {f[x]}, f);
    }
  }

  /** The heap holds the nodes of the live connections, each once. */
  lemma HeapHoldsOwners<N>(b: Base<N>)
    requires Inv(b)
    ensures (set x | x in b.timers.heap.slots) == b.owner.Keys && |b.timers.heap.slots| == |b.owner.Keys|
  {
    hide Inv, HeapModel.Valid;
    var slots := b.timers.heap.slots;
    InvTimers(b);
    SlotsDistinct(b.timers);
    forall n | n in b.owner ensures n in slots {
      OwnerLives(b, n);
      ConnTimer(b, b.owner[n]);
    }
    DistinctCount(slots);
  }

  lemma OwnerLives<N>(b: Base<N>, n: N)
    requires Inv(b) && n in b.owner
    ensures b.owner[n] in b.conns && b.conns[b.owner[n]].node == n
  {}

  lemma SlotsDistinct<N>(s: Timers<N>)
    requires TimersValid(s)
    ensures forall i, j :: 0 <= i < j < |s.heap.slots| ==> s.heap.slots[i] != s.heap.slots[j]
    ensures forall i :: 0 <= i < |s.heap.slots| ==> s.heap.slots[i] in s.key
  {
    forall i, j | 0 <= i < j < |s.heap.slots| ensures s.heap.slots[i] != s.heap.slots[j] {
      assert s.heap.index[s.heap.slots[i]] == i && s.heap.index[s.heap.slots[j]] == j;
    }
  }

  lemma OwnersAreConns<N>(b: Base<N>)
    requires Inv(b)
    ensures |b.owner.Keys| == |b.conns.Keys|
    ensures forall n, m :: n in b.owner && m in b.owner && b.owner[n] == b.owner[m] ==> n == m
  {
    forall fd | fd in b.conns ensures exists n :: n in b.owner.Keys && b.owner[n] == fd {
      assert TimedConn(b, fd, {});
    }
    BijectionCount(b.owner.Keys, b.conns.Keys, b.owner);
  }

  /** The descriptors besides the listening one that the kernel watches for reading. */
  ghost function Watched<N>(b: Base<N>): set<int> {
    set fd | fd in b.table.kernel && fd != b.listen && b.table.kernel[fd].input
  }

  lemma WatchedAreConns<N>(b: Base<N>)
    requires Wired(b)
    ensures Watched(b) == b.conns.Keys
  {
    forall fd | fd in b.conns ensures fd in Watched(b) {
      assert WiredConn(b.table, fd, b.conns[fd].tx.tx.interest);
    }
  }

  /** What the kernel watches, in every state: the listening descriptor for input only, and each live connection for input
      always and for output exactly while it has bytes to send. */
  lemma WatchedExactly<N>(b: Base<N>, fd: int)
    requires Inv(b)
    ensures fd in b.table.kernel <==> fd == b.listen || fd in b.conns
    ensures b.listen !in b.conns && b.table.kernel[b.listen].input && !b.table.kernel[b.listen].output
    ensures fd in b.conns ==>
      var t := b.conns[fd].tx.tx;
      t.cur <= |t.bytes| && b.table.kernel[fd].input && (b.table.kernel[fd].output <==> S.Pending(t) != [])
  {
    hide Timed, R.HistoryInv;
    if fd in b.conns {
      assert WiredConn(b.table, fd, b.conns[fd].tx.tx.interest) && BufferedConn(b.conns[fd]);
    }
  }

  /** Four numbers that are always equal: the client count, the live connections, the timers in the heap, and
      the watched descriptors. The heap's nodes and the live connections are in bijection. */
  lemma Lifecycle<N>(b: Base<N>)
    requires Inv(b)
    ensures b.clientCount == |b.conns| == |b.timers.heap.slots| == |Watched(b)|
    ensures (set x | x in b.timers.heap.slots) == b.owner.Keys
    ensures forall n, m :: n in b.owner && m in b.owner && b.owner[n] == b.owner[m] ==> n == m
  {
    HeapHoldsOwners(b);
    OwnersAreConns(b);
    WatchedAreConns(b);
  }

  // ---------------------------------------------------------------------------------------------
  // Timeouts

  lemma ExpiredIff<N>(b: Base<N>, fd: int)
    requires Inv(b) && fd in b.conns
    ensures Expired(b, fd) <==> Micros(b.conns[fd].active) + 60 * USEC_PER_SEC <= Micros(b.now)
  {
    assert TimedConn(b, fd, {});
    DeadlineMonotonic(b.conns[fd].active, b.now);
    ComparisonIsByMicros(Deadline(b.conns[fd].active), b.now);
  }

  /** After a turn that dispatched, no live connection is past its minute; those that were have been destroyed
      by that very sweep, and no connection that was not. */
  lemma IdleTimeout<N>(b: Base<N>, t: Turn<N>, rev: Revision)
    requires Inv(b) && SoundTurn(b, t, rev) && t.batch.Some?
    ensures var b1, b' := Dispatched(b, t, rev), Take(b, t, rev);
      forall fd :: fd in b1.conns ==>
        && (fd in b'.conns <==> Micros(t.clock) < Micros(b1.conns[fd].active) + 60 * USEC_PER_SEC)
        && (fd in b'.conns ==> b'.conns[fd] == b1.conns[fd])
  {
    hide Inv, SoundTurn, Dispatched, Sweep, Expired, Micros;
    var b1 := Dispatched(b, t, rev);
    SweepExact(b1, rev);
    forall fd | fd in b1.conns
      ensures Expired(b1, fd) <==> Micros(b1.conns[fd].active) + 60 * USEC_PER_SEC <= Micros(t.clock)
    {
      ExpiredIff(b1, fd);
    }
  }

  /** When the minute of connection `fd` began: just now for one that has just been accepted or has completed
      a packet, and otherwise as before. With `anew`, a connection may also have been closed and its descriptor
      accepted again. */
  ghost predicate ActiveByPackets<N>(b: Base<N>, b': Base<N>, fd: int, anew: bool)
    requires fd in b'.conns
  {
    var c' := b'.conns[fd];
    if fd !in b.conns then c'.active == b.now && c'.rx.frames == []
    else
      || (c'.active == b.conns[fd].active && c'.rx.frames == b.conns[fd].rx.frames)
      || (c'.active == b.now && |c'.rx.frames| > |b.conns[fd].rx.frames|)
      || (anew && c'.active == b.now && c'.rx.frames == [])
  }

  lemma RecvActivity<N>(b: Base<N>, e: Ready<N>, rev: Revision)
    requires Inv(b) && e.fd in b.conns && SoundRecv(b, e.fd, e.arrivals, e.reply, rev)
    ensures var b' := Recv(b, e.fd, e.arrivals, e.reply, rev);
      b'.now == b.now && forall fd :: fd in b'.conns ==> ActiveByPackets(b, b', fd, false)
  {
    hide Inv, SoundRecv, Recv, Destroyable, HandlerSends, P.HeaderOk;
    RecvKeepsInv(b, e.fd, e.arrivals, e.reply, rev);
    RecvCases(b, e.fd, e.arrivals, e.reply, rev);
    RecvEffect(b, e.fd, e.arrivals, e.reply, rev);
    NewFrameIsFrame(b.conns[e.fd].rx, e.arrivals);
  }

  lemma AcceptActivity<N>(b: Base<N>, i: Incoming<N>, rev: Revision)
    requires Inv(b) && i.Client? && Fresh(b, i)
    ensures var b' := Accept(b, i.fd, i.node, rev);
      b'.now == b.now && forall fd :: fd in b'.conns ==> ActiveByPackets(b, b', fd, false)
  {
    hide Inv, Do, EventAdd, FdInit;
  }

  lemma ReadActivity<N>(b: Base<N>, e: Ready<N>, rev: Revision)
    requires Inv(b) && e.fd in b.table.kernel && SoundRead(b, e, rev)
    ensures var b' := DispatchRead(b, e, rev);
      b'.now == b.now && forall fd :: fd in b'.conns ==> ActiveByPackets(b, b', fd, false)
  {
    hide Inv, SoundRead, DispatchRead, SoundRecv, Recv, Accept, Fresh;
    ReadCases(b, e, rev);
    if RunsRead(b, e) {
      if e.fd != b.listen {
        RecvActivity(b, e, rev);
      } else if e.incoming.Client? {
        AcceptActivity(b, e.incoming, rev);
      }
    }
  }

  lemma WriteActivity<N>(b: Base<N>, e: Ready<N>, rev: Revision)
    requires Inv(b) && 0 <= e.fd < |b.table.events| && (RunsWrite(b, e) ==> e.fd in b.table.kernel) && SoundWrite(b, e, rev)
    ensures var b' := DispatchWrite(b, e, rev);
      b'.now == b.now && forall fd :: fd in b'.conns ==>
        fd in b.conns && b'.conns[fd].active == b.conns[fd].active && b'.conns[fd].rx == b.conns[fd].rx
  {
    hide Inv, SoundWrite, DispatchWrite, SoundSend, Send, RunsWrite;
    WriteCases(b, e, rev);
    if RunsWrite(b, e) {
      SendKeepsInv(b, e.fd, e.script, rev);
      if e.fd in Send(b, e.fd, e.script, rev).conns {
        SendEffect(b, e.fd, e.script, rev);
      }
    }
  }

  /** One event: bytes that do not complete a packet, and writes, never prolong a connection's life; a completed
      packet does, for its own connection. */
  lemma DispatchActivity<N>(b: Base<N>, e: Ready<N>, rev: Revision)
    requires Inv(b) && e.fd in b.table.kernel && SoundReady(b, e, rev)
    ensures var b' := Dispatch(b, e, rev);
      b'.now == b.now && forall fd :: fd in b'.conns ==> ActiveByPackets(b, b', fd, false)
  {
    hide Inv, SoundRead, SoundWrite, DispatchRead, DispatchWrite, Elsewhere;
    ReadKeepsInv(b, e, rev);
    ReadActivity(b, e, rev);
    WriteActivity(DispatchRead(b, e, rev), e, rev);
  }

  /** The events of a batch leave the connections alone that none of them is about. */
  lemma {:induction false} BatchElsewhere<N>(b: Base<N>, es: seq<Ready<N>>, rev: Revision, fd: int)
    requires Inv(b) && FromKernel(b, es) && SoundBatch(b, es, rev)
    requires fd in b.conns && forall i :: 0 <= i < |es| ==> es[i].fd != fd
    ensures fd in Batch(b, es, rev).conns && Batch(b, es, rev).conns[fd] == b.conns[fd]
    decreases |es|
  {
    hide Inv, SoundReady, Dispatch;
    if es != [] {
      StillFromKernel(b, es, rev);
      DispatchElsewhere(b, es[0], rev);
      BatchElsewhere(Dispatch(b, es[0], rev), es[1..], rev, fd);
    }
  }

  /** No event of a batch is about a connection that the first one accepts. */
  lemma AcceptedNotInBatch<N>(b: Base<N>, es: seq<Ready<N>>, rev: Revision, fd: int)
    requires Inv(b) && FromKernel(b, es) && SoundBatch(b, es, rev) && es != []
    requires fd in Dispatch(b, es[0], rev).conns && fd !in b.conns
    ensures forall i :: 0 <= i < |es| ==> es[i].fd != fd
  {
    hide SoundReady, Dispatch, Elsewhere, Timed, Buffered, HeapModel.Valid;
    DispatchKeepsInv(b, es[0], rev);
    DispatchListens(b, es[0], rev);
    forall i | 0 <= i < |es| ensures es[i].fd != fd {
      CallbackIsLive(b, es[i].fd);
    }
  }

  lemma ActivityComposes<N>(b: Base<N>, b1: Base<N>, b2: Base<N>)
    requires b1.now == b.now
    requires forall fd :: fd in b1.conns ==> ActiveByPackets(b, b1, fd, false)
    requires forall fd :: fd in b2.conns ==> ActiveByPackets(b1, b2, fd, true)
    requires forall fd :: fd in b1.conns && fd !in b.conns ==> fd in b2.conns && b2.conns[fd] == b1.conns[fd]
    ensures forall fd :: fd in b2.conns ==> ActiveByPackets(b, b2, fd, true)
  {}

  /** The same as DispatchActivity over a whole batch. */
  lemma {:induction false} BatchActivity<N>(b: Base<N>, es: seq<Ready<N>>, rev: Revision)
    requires Inv(b) && FromKernel(b, es) && SoundBatch(b, es, rev)
    ensures forall fd :: fd in Batch(b, es, rev).conns ==> ActiveByPackets(b, Batch(b, es, rev), fd, true)
    decreases |es|
  {
    hide Inv, SoundReady, Dispatch, ActiveByPackets;
    if es != [] {
      var b1 := Dispatch(b, es[0], rev);
      StillFromKernel(b, es, rev);
      DispatchActivity(b, es[0], rev);
      BatchActivity(b1, es[1..], rev);
      forall fd | fd in b1.conns && fd !in b.conns ensures fd in Batch(b1, es[1..], rev).conns
          && Batch(b1, es[1..], rev).conns[fd] == b1.conns[fd] {
        AcceptedNotInBatch(b, es, rev, fd);
        BatchElsewhere(b1, es[1..], rev, fd);
      }
      ActivityComposes(b, b1, Batch(b1, es[1..], rev));
    } else {
      NothingHappens(b);
    }
  }

  lemma NothingHappens<N>(b: Base<N>)
    ensures forall fd :: fd in b.conns ==> ActiveByPackets(b, b, fd, true)
  {}

  // Idle connections over whole runs

  /** No accept in the turn is given descriptor `fd`, which stands for one connection all along. */
  ghost predicate NotOffered<N>(t: Turn<N>, fd: int) {
    t.batch.Some? ==> forall i :: 0 <= i < |t.batch.value| ==> !Offers(t.batch.value[i], fd)
  }

  predicate Offers<N>(e: Ready<N>, fd: int) {
    e.incoming.Client? && e.incoming.fd == fd
  }

  /** The connection was there before, and its minute has been renewed only by packets. */
  ghost predicate Prolonged<N>(b: Base<N>, b': Base<N>, fd: int) {
    && fd in b.conns && fd in b'.conns
    && |b.conns[fd].rx.frames| <= |b'.conns[fd].rx.frames|
    && (|b.conns[fd].rx.frames| == |b'.conns[fd].rx.frames| ==> b'.conns[fd].active == b.conns[fd].active)
  }

  lemma DispatchProlongs<N>(b: Base<N>, e: Ready<N>, rev: Revision, fd: int)
    requires Inv(b) && e.fd in b.table.kernel && SoundReady(b, e, rev)
    requires fd in Dispatch(b, e, rev).conns && !Offers(e, fd)
    ensures Prolonged(b, Dispatch(b, e, rev), fd)
  {
    hide Inv, SoundReady, Dispatch;
    DispatchKeepsInv(b, e, rev);
    DispatchActivity(b, e, rev);
    DispatchListens(b, e, rev);
    ConnNotListen(Dispatch(b, e, rev), fd);
    CallbackIsLive(b, e.fd);
  }

  lemma {:induction false} BatchProlongs<N>(b: Base<N>, es: seq<Ready<N>>, rev: Revision, fd: int)
    requires Inv(b) && FromKernel(b, es) && SoundBatch(b, es, rev)
    requires fd in Batch(b, es, rev).conns && forall i :: 0 <= i < |es| ==> !Offers(es[i], fd)
    ensures Prolonged(b, Batch(b, es, rev), fd)
    decreases |es|
  {
    hide Inv, SoundReady, Dispatch, Offers;
    if es != [] {
      StillFromKernel(b, es, rev);
      BatchProlongs(Dispatch(b, es[0], rev), es[1..], rev, fd);
      DispatchProlongs(b, es[0], rev, fd);
    }
  }

  /** A dispatching turn comes at or past the minute that began at `active`. */
  ghost predicate DueAt<N>(t: Turn<N>, active: Timeval) {
    t.batch.Some? && Micros(active) + 60 * USEC_PER_SEC <= Micros(t.clock)
  }

  lemma TurnProlongs<N>(b: Base<N>, t: Turn<N>, rev: Revision, fd: int)
    requires Inv(b) && SoundTurn(b, t, rev) && NotOffered(t, fd) && fd in Take(b, t, rev).conns
    ensures Prolonged(b, Take(b, t, rev), fd) && !DueAt(t, Take(b, t, rev).conns[fd].active)
  {
    hide Inv, Sweep, SoundBatch, Micros, Offers;
    if t.batch.Some? {
      AwakeKeepsInv(b, t);
      SweepExact(Dispatched(b, t, rev), rev);
      IdleTimeout(b, t, rev);
      BatchProlongs(Awake(b, t), t.batch.value, rev, fd);
    }
  }

  /** Over any run: a connection that has completed no packet since is still there only if no dispatching turn has come
      at or past its minute, however many bytes its peer has sent meanwhile and whatever it has been sent. */
  lemma {:induction false} IdleConnectionsDie<N>(b: Base<N>, ts: seq<Turn<N>>, rev: Revision, fd: int)
    requires Inv(b) && SoundRun(b, ts, rev) && forall k :: 0 <= k < |ts| ==> NotOffered(ts[k], fd)
    requires var b' := Run(b, ts, rev)[|ts|]; fd in b'.conns
    ensures var b' := Run(b, ts, rev)[|ts|]; Prolonged(b, b', fd)
    ensures var b' := Run(b, ts, rev)[|ts|];
      |b'.conns[fd].rx.frames| == |b.conns[fd].rx.frames| ==> forall k :: 0 <= k < |ts| ==> !DueAt(ts[k], b.conns[fd].active)
    decreases |ts|
  {
    hide Inv, SoundTurn, Take, DueAt, NotOffered;
    if ts != [] {
      var b1 := Take(b, ts[0], rev);
      IdleConnectionsDie(b1, ts[1..], rev, fd);
      TurnProlongs(b, ts[0], rev, fd);
      assert Run(b, ts, rev)[|ts|] == Run(b1, ts[1..], rev)[|ts[1..]|];
      forall k | 0 < k < |ts| ensures ts[k] == ts[1..][k - 1] {}
    }
  }

  /** No event of the turn is about `fd`: its peer is silent, and the socket takes nothing. */
  ghost predicate Silent<N>(t: Turn<N>, fd: int) {
    t.batch.Some? ==> forall i :: 0 <= i < |t.batch.value| ==> t.batch.value[i].fd != fd
  }

  lemma SilentTurn<N>(b: Base<N>, t: Turn<N>, rev: Revision, fd: int)
    requires Inv(b) && SoundTurn(b, t, rev) && fd in b.conns && Silent(t, fd)
    ensures fd in Take(b, t, rev).conns <==> !DueAt(t, b.conns[fd].active)
    ensures fd in Take(b, t, rev).conns ==> Take(b, t, rev).conns[fd] == b.conns[fd]
  {
    hide Inv, Sweep, SoundBatch, Micros;
    if t.batch.Some? {
      AwakeKeepsInv(b, t);
      SweepExact(Dispatched(b, t, rev), rev);
      IdleTimeout(b, t, rev);
      BatchElsewhere(Awake(b, t), t.batch.value, rev, fd);
    }
  }

  /** A silent connection is kept unchanged by every turn before its minute is over, and destroyed by the first
      dispatching turn at or past it. */
  lemma {:induction false} SilentConnection<N>(b: Base<N>, ts: seq<Turn<N>>, rev: Revision, fd: int)
    requires Inv(b) && SoundRun(b, ts, rev) && fd in b.conns && ts != []
    requires forall k :: 0 <= k < |ts| ==> Silent(ts[k], fd)
    requires forall k :: 0 <= k < |ts| - 1 ==> !DueAt(ts[k], b.conns[fd].active)
    ensures var b' := Run(b, ts, rev)[|ts|];
      && (fd in b'.conns <==> !DueAt(ts[|ts| - 1], b.conns[fd].active))
      && (fd in b'.conns ==> b'.conns[fd] == b.conns[fd])
    decreases |ts|
  {
    hide Inv, SoundTurn, Take, DueAt, Silent;
    var b1 := Take(b, ts[0], rev);
    SilentTurn(b, ts[0], rev, fd);
    assert Run(b, ts, rev)[|ts|] == Run(b1, ts[1..], rev)[|ts[1..]|];
    if |ts| > 1 {
      SilentConnection(b1, ts[1..], rev, fd);
    }
  }

  /** What is left of the minute of a connection, in microseconds. */
  ghost function Left<N>(b: Base<N>, fd: int): int
    requires fd in b.conns
  {
    Micros(b.conns[fd].active) + 60_000_000 - Micros(b.now)
  }

  /** The time the loop waits: forever exactly when there is no connection; not at all exactly when one is due;
      otherwise until the first deadline, to the next whole millisecond, and never longer than a minute. */
  lemma EpollTimeoutBounded<N>(b: Base<N>)
    requires Inv(b)
    ensures var r := EpollTimeout(b.now, TopDeadline(b));
      && -1 <= r <= 60_000
      && (r == -1 <==> b.conns == map[])
      && (r == 0 <==> exists fd :: fd in b.conns && Left(b, fd) <= 0)
      && (r > 0 ==> forall fd :: fd in b.conns ==> Left(b, fd) > 1000 * (r - 1))
      && (r > 0 ==> exists fd :: fd in b.conns && Left(b, fd) <= 1000 * r)
  {
    hide Inv, Deadline, TopOwner, Left;
    NoConnsNoTimers(b);
    if b.conns != map[] {
      TopIsEarliestConn(b);
      var top := TopOwner(b);
      TopLeft(b);
      forall fd | fd in b.conns ensures Left(b, top) <= Left(b, fd) {
        EarlierHasLess(b, top, fd);
      }
      assert Left(b, top) <= 60_000_000 by {
        LeftAtMostAMinute(b, top);
      }
    }
  }

  /** The waiting time is what is left of the minute of the top of the heap, to the next whole millisecond. */
  lemma TopLeft<N>(b: Base<N>)
    requires Inv(b) && b.conns != map[] && b.timers.heap.slots != []
    ensures var r, left := EpollTimeout(b.now, TopDeadline(b)), Left(b, TopOwner(b));
      && 0 <= r && (r == 0 <==> left <= 0) && (left > 0 ==> left <= 1000 * r < left + 1000)
  {
    hide Deadline, TopOwner, EpollTimeout;
    var top := TopOwner(b);
    ConnTimer(b, top);
    DeadlineMonotonic(b.conns[top].active, b.now);
    EpollTimeoutExact(b.now, TopDeadline(b));
  }

  lemma EarlierHasLess<N>(b: Base<N>, top: int, fd: int)
    requires Inv(b) && top in b.conns && fd in b.conns
    requires !Greater(Deadline(b.conns[top].active), Deadline(b.conns[fd].active))
    ensures Left(b, top) <= Left(b, fd)
  {
    hide Inv, Deadline;
    ConnTimer(b, top);
    ConnTimer(b, fd);
    DeadlineMonotonic(b.conns[top].active, b.conns[fd].active);
    DeadlineMonotonic(b.conns[fd].active, b.conns[fd].active);
    ComparisonIsByMicros(Deadline(b.conns[top].active), Deadline(b.conns[fd].active));
  }

  lemma LeftAtMostAMinute<N>(b: Base<N>, fd: int)
    requires Inv(b) && fd in b.conns
    ensures Left(b, fd) <= 60_000_000
  {
    hide Deadline;
    ConnTimer(b, fd);
    ComparisonIsByMicros(b.conns[fd].active, b.now);
  }

  /** The deadline at the top of the heap. */
  ghost function TopDeadline<N>(b: Base<N>): seq<Timeval>
    requires Inv(b)
  {
    if b.timers.heap.slots == [] then [] else [b.timers.key[b.timers.heap.slots[0]]]
  }
}
