// What a round of the dispatch loop does to the connection that it is about, told from the event's flags; what a batch and
// a turn do to each connection; and what a client gets over whole runs.

module Rounds {
  import opened Answers
  import opened Bytes
  import opened TimeMath
  import opened HeapModel
  import opened HeapRuns
  import opened Registration
  import opened SocketModel
  import opened Reactor
  import opened EventLoop
  import opened WorkerRuns
  import P = Protocol
  import R = Receiver
  import S = Sender
  import Splitter

  /** The connection behind a descriptor, if any. */
  ghost function ConnIn<N>(b: Base<N>, fd: int): P.Option<Conn<N>> {
    if fd in b.conns then P.Some(b.conns[fd]) else P.None
  }

  /** What reading makes of connection `c`: with EPOLLIN it receives. A packet that this completes is answered behind
      everything sent before, and starts a new minute; nothing is written. `after` is nothing if the connection is gone. */
  ghost predicate ReadOf<N>(c: Conn<N>, e: Ready<N>, now: Timeval, rev: Revision, answer: seq<byte>, after: P.Option<Conn<N>>)
    requires 0 < c.rx.rx.capacity
  {
    var h := if e.epollIn then R.HistoryStep(c.rx, e.arrivals) else c.rx;
    var completed := |h.frames| > |c.rx.frames|;
    if !h.alive then after == P.None
    else
      && (if completed then P.FrameSized(h.frames[|h.frames| - 1]) && IsAnswer(h.frames[|h.frames| - 1], answer, rev)
          else answer == [])
      && after.Some? && after.value.node == c.node && after.value.rx == h
      && after.value.active == (if completed then now else c.active)
      && after.value.tx.appended == c.tx.appended + answer && after.value.tx.wire == c.tx.wire
  }

  /** What writing makes of it: with EPOLLOUT, EPOLLHUP or EPOLLERR, if some bytes are pending, the socket gets as many of
      them as it takes. The connection is gone if its descriptor is 0, or an error comes before they are all taken. */
  ghost predicate WriteOf<N>(c: Conn<N>, e: Ready<N>, after: P.Option<Conn<N>>) {
    && |c.tx.wire| <= |c.tx.appended|
    && var pending := c.tx.appended[|c.tx.wire|..];
       var writes := (e.epollOut || e.epollHup || e.epollErr) && pending != [];
       var k := if Taken(e.script) >= |pending| then |pending| else Taken(e.script);
       if writes && (e.fd == 0 || (k < |pending| && Fatal(e.script))) then after == P.None
       else
         && after.Some? && after.value.node == c.node && after.value.rx == c.rx && after.value.active == c.active
         && after.value.tx.appended == c.tx.appended
         && after.value.tx.wire == c.tx.wire + (if writes then pending[..k] else [])
  }

  /** A round: it reads, and what is left of the connection writes. */
  ghost predicate RoundOf<N>(c: Conn<N>, e: Ready<N>, now: Timeval, rev: Revision, answer: seq<byte>,
                             mid: P.Option<Conn<N>>, after: P.Option<Conn<N>>)
    requires 0 < c.rx.rx.capacity
  {
    ReadOf(c, e, now, rev, answer, mid) && if mid.None? then after == P.None else WriteOf(mid.value, e, after)
  }

  /** Between events the pending bytes are what has been sent but not written. */
  lemma PendingIsRest<N>(b: Base<N>, fd: int)
    requires Inv(b) && fd in b.conns
    ensures var tx := b.conns[fd].tx;
      && tx.alive && tx.tx.cur <= |tx.tx.bytes| && tx.wire <= tx.appended && S.Pending(tx.tx) == tx.appended[|tx.wire|..]
      && (tx.tx.bytes != [] <==> S.Pending(tx.tx) != []) && (tx.tx.interest <==> tx.tx.bytes != [])
    ensures 0 < b.conns[fd].rx.rx.capacity && b.conns[fd].rx.alive
  {
    hide Wired, Timed;
    assert BufferedConn(b.conns[fd]);
    var tx := b.conns[fd].tx;
    assert (tx.wire + S.Pending(tx.tx))[|tx.wire|..] == S.Pending(tx.tx);
  }

  /** When the two callbacks are run. */
  lemma RunsFromFlags<N>(b: Base<N>, e: Ready<N>)
    requires Inv(b) && e.fd in b.conns
    ensures 0 <= e.fd < |b.table.events| && e.fd in b.table.kernel && e.fd != b.listen
    ensures RunsRead(b, e) <==> e.epollIn
    ensures RunsWrite(b, e) <==> (e.epollOut || e.epollHup || e.epollErr) && b.conns[e.fd].tx.tx.bytes != []
  {
    hide Timed, R.HistoryInv;
    assert WiredConn(b.table, e.fd, b.conns[e.fd].tx.tx.interest) && BufferedConn(b.conns[e.fd]);
  }

  lemma WriteRound<N>(b: Base<N>, e: Ready<N>, rev: Revision)
    requires Inv(b) && e.fd in b.conns && 0 <= e.fd < |b.table.events| && (RunsWrite(b, e) ==> e.fd in b.table.kernel)
    requires SoundWrite(b, e, rev)
    ensures WriteOf(b.conns[e.fd], e, ConnIn(DispatchWrite(b, e, rev), e.fd))
  {
    hide Inv, SoundWrite, DispatchWrite, SoundSend, Send, RunsWrite, S.Pending, Taken, Fatal;
    RunsFromFlags(b, e);
    PendingIsRest(b, e.fd);
    WriteCases(b, e, rev);
    var tx := b.conns[e.fd].tx;
    assert tx.wire + [] == tx.wire;
    if RunsWrite(b, e) {
      SendWrites(b, e.fd, e.script, rev);
      if e.fd in Send(b, e.fd, e.script, rev).conns {
        SendEffect(b, e.fd, e.script, rev);
      }
    }
  }

  lemma ReadRound<N>(b: Base<N>, e: Ready<N>, rev: Revision) returns (answer: seq<byte>)
    requires Inv(b) && e.fd in b.conns && e.fd in b.table.kernel && SoundRead(b, e, rev)
    ensures 0 < b.conns[e.fd].rx.rx.capacity
    ensures ReadOf(b.conns[e.fd], e, b.now, rev, answer, ConnIn(DispatchRead(b, e, rev), e.fd))
  {
    hide Inv, SoundRead, DispatchRead, SoundRecv, Recv, RunsRead, IsAnswer, R.HistoryStep;
    answer := [];
    RunsFromFlags(b, e);
    PendingIsRest(b, e.fd);
    ReadCases(b, e, rev);
    var c := b.conns[e.fd];
    assert c.tx.appended + [] == c.tx.appended;
    if e.epollIn {
      RecvEffect(b, e.fd, e.arrivals, e.reply, rev);
      if e.fd in Recv(b, e.fd, e.arrivals, e.reply, rev).conns {
        answer := RecvAnswers(b, e.fd, e.arrivals, e.reply, rev);
      }
    }
  }

  /** A round of the dispatch loop does to its connection what the flags of the event say. */
  lemma RoundExact<N>(b: Base<N>, e: Ready<N>, rev: Revision) returns (answer: seq<byte>, mid: P.Option<Conn<N>>)
    requires Inv(b) && e.fd in b.table.kernel && e.fd != b.listen && SoundReady(b, e, rev)
    ensures e.fd in b.conns && 0 < b.conns[e.fd].rx.rx.capacity
    ensures RoundOf(b.conns[e.fd], e, b.now, rev, answer, mid, ConnIn(Dispatch(b, e, rev), e.fd))
  {
    hide Inv, SoundRead, SoundWrite, DispatchRead, DispatchWrite, ReadOf, WriteOf;
    CallbackIsLive(b, e.fd);
    answer := ReadRound(b, e, rev);
    ReadKeepsInv(b, e, rev);
    mid := ConnIn(DispatchRead(b, e, rev), e.fd);
    if mid.Some? {
      WriteRound(DispatchRead(b, e, rev), e, rev);
    } else {
      DestroyedIsNotWritten(b, e, rev);
    }
  }

  /** The connection that an accept creates. */
  function Accepted<N>(node: N, now: Timeval): Conn<N> {
    Conn(node, R.History(R.Rx([], 4096, 0, []), [], [], true), S.TxHistory(S.Tx([], 0, 4096, 4096, false), [], [], true), now)
  }

  /** A round about the listening descriptor: with EPOLLIN, the client that accept returns, if any, joins the connections;
      nothing else happens to them. */
  lemma ListenRound<N>(b: Base<N>, e: Ready<N>, rev: Revision)
    requires Inv(b) && e.fd == b.listen && e.fd in b.table.kernel && SoundReady(b, e, rev)
    ensures Dispatch(b, e, rev).conns ==
      if e.epollIn && e.incoming.Client? then b.conns[e.incoming.fd := Accepted(e.incoming.node, b.now)] else b.conns
    ensures e.epollIn && e.incoming.Client? ==> e.incoming.fd !in b.conns
  {
    hide Inv, SoundRead, SoundWrite, DispatchRead, DispatchWrite, Accept, Do;
    ListenFlags(b, e);
    ReadCases(b, e, rev);
    ReadKeepsInv(b, e, rev);
    var b1 := DispatchRead(b, e, rev);
    if e.epollIn && e.incoming.Client? {
      AcceptConns(b, e.incoming.fd, e.incoming.node, rev);
    }
    ListenFlags(b1, e);
    WriteCases(b1, e, rev);
  }

  lemma ListenFlags<N>(b: Base<N>, e: Ready<N>)
    requires Inv(b) && e.fd == b.listen
    ensures 0 <= e.fd < |b.table.events| && e.fd in b.table.kernel && !RunsWrite(b, e) && (RunsRead(b, e) <==> e.epollIn)
  {
    hide Timed, Buffered;
  }

  lemma AcceptConns<N>(b: Base<N>, fd: int, node: N, rev: Revision)
    requires Inv(b) && fd !in b.conns && fd != b.listen && 0 <= fd < |b.table.events| && node !in b.timers.key
    ensures Accept(b, fd, node, rev).conns == b.conns[fd := Accepted(node, b.now)]
  {
    hide Inv, Do, EventAdd, FdInit;
  }

  // ---------------------------------------------------------------------------------------------
  // Batches and turns

  /** The event is an accept that returns descriptor `fd`. */
  predicate Accepts<N>(e: Ready<N>, listen: int, fd: int) {
    e.fd == listen && e.epollIn && e.incoming.Client? && e.incoming.fd == fd
  }

  ghost predicate SomeAccepts<N>(es: seq<Ready<N>>, listen: int, fd: int) {
    exists j :: 0 <= j < |es| && Accepts(es[j], listen, fd)
  }

  /** What an event about another descriptor makes of `fd`: nothing, unless it is accepted, and then it was free. */
  lemma RoundElsewhere<N>(b: Base<N>, e: Ready<N>, rev: Revision, fd: int)
    requires Inv(b) && e.fd in b.table.kernel && SoundReady(b, e, rev) && e.fd != fd
    ensures Accepts(e, b.listen, fd) ==> fd !in b.conns
    ensures !Accepts(e, b.listen, fd) ==> ConnIn(Dispatch(b, e, rev), fd) == ConnIn(b, fd)
  {
    hide Inv, SoundReady, Dispatch;
    if e.fd == b.listen {
      ListenRound(b, e, rev);
    } else {
      DispatchMembers(b, e, rev);
      DispatchElsewhere(b, e, rev);
    }
  }

  /** The same over a batch. */
  lemma {:induction false} RestElsewhere<N>(b: Base<N>, es: seq<Ready<N>>, rev: Revision, fd: int)
    requires Inv(b) && FromKernel(b, es) && SoundBatch(b, es, rev) && forall j :: 0 <= j < |es| ==> es[j].fd != fd
    ensures SomeAccepts(es, b.listen, fd) ==> fd !in b.conns
    ensures !SomeAccepts(es, b.listen, fd) ==> ConnIn(Batch(b, es, rev), fd) == ConnIn(b, fd)
    decreases |es|
  {
    hide Inv, SoundReady, Dispatch, Accepts, ConnIn;
    if es != [] {
      StillFromKernel(b, es, rev);
      DispatchListens(b, es[0], rev);
      RoundElsewhere(b, es[0], rev, fd);
      RestElsewhere(Dispatch(b, es[0], rev), es[1..], rev, fd);
      SomeAcceptsOnce(es, b.listen, fd);
      SameMember(b, Dispatch(b, es[0], rev), fd);
    }
  }

  lemma SomeAcceptsOnce<N>(es: seq<Ready<N>>, listen: int, fd: int)
    requires es != []
    ensures SomeAccepts(es, listen, fd) <==> Accepts(es[0], listen, fd) || SomeAccepts(es[1..], listen, fd)
  {
    hide Accepts;
    if SomeAccepts(es[1..], listen, fd) {
      var j :| 0 <= j < |es[1..]| && Accepts(es[1..][j], listen, fd);
      assert Accepts(es[j + 1], listen, fd);
    }
  }

  lemma SameMember<N>(b: Base<N>, b': Base<N>, fd: int)
    ensures ConnIn(b, fd) == ConnIn(b', fd) ==> (fd in b.conns <==> fd in b'.conns)
  {}

  /** Over a whole batch each event does that to its connection, as it was when the batch was returned: `after` is what is
      there at the end of the batch, unless a client has been accepted on the descriptor since, which takes that the
      connection was gone. */
  lemma {:induction false} BatchExact<N>(b: Base<N>, es: seq<Ready<N>>, rev: Revision, i: nat)
      returns (answer: seq<byte>, mid: P.Option<Conn<N>>, after: P.Option<Conn<N>>)
    requires Inv(b) && FromKernel(b, es) && SoundBatch(b, es, rev) && i < |es| && es[i].fd != b.listen
    ensures es[i].fd in b.conns && 0 < b.conns[es[i].fd].rx.rx.capacity
    ensures RoundOf(b.conns[es[i].fd], es[i], b.now, rev, answer, mid, after)
    ensures if SomeAccepts(es, b.listen, es[i].fd) then after == P.None else after == ConnIn(Batch(b, es, rev), es[i].fd)
    decreases |es|
  {
    hide Inv, SoundReady, Dispatch, RoundOf, SomeAccepts;
    var fd := es[i].fd;
    CallbackIsLive(b, fd);
    StillFromKernel(b, es, rev);
    DispatchListens(b, es[0], rev);
    DispatchTime(b, es[0], rev);
    SomeAcceptsOnce(es, b.listen, fd);
    var b1 := Dispatch(b, es[0], rev);
    if i == 0 {
      answer, mid := RoundExact(b, es[0], rev);
      after := ConnIn(b1, fd);
      RestElsewhere(b1, es[1..], rev, fd);
    } else {
      RoundElsewhere(b, es[0], rev, fd);
      assert es[1..][i - 1] == es[i];
      answer, mid, after := BatchExact(b1, es[1..], rev, i - 1);
    }
  }

  lemma DispatchTime<N>(b: Base<N>, e: Ready<N>, rev: Revision)
    requires Inv(b) && e.fd in b.table.kernel && SoundReady(b, e, rev)
    ensures Inv(Dispatch(b, e, rev)) && Dispatch(b, e, rev).now == b.now
  {
    hide Inv, SoundReady, Dispatch;
    DispatchKeepsInv(b, e, rev);
  }

  /** The client that an accept of the batch returns is connected, and nothing has happened to it yet, when the batch is
      done. */
  lemma {:induction false} BatchAccepts<N>(b: Base<N>, es: seq<Ready<N>>, rev: Revision, i: nat)
    requires Inv(b) && FromKernel(b, es) && SoundBatch(b, es, rev)
    requires i < |es| && es[i].fd == b.listen && es[i].epollIn && es[i].incoming.Client?
    ensures ConnIn(Batch(b, es, rev), es[i].incoming.fd) == P.Some(Accepted(es[i].incoming.node, b.now))
    decreases |es|
  {
    hide Inv, SoundReady, Dispatch;
    StillFromKernel(b, es, rev);
    DispatchListens(b, es[0], rev);
    DispatchTime(b, es[0], rev);
    var b1 := Dispatch(b, es[0], rev);
    if i == 0 {
      ListenRound(b, es[0], rev);
      AcceptedNotInBatch(b, es, rev, es[0].incoming.fd);
      BatchElsewhere(b1, es[1..], rev, es[0].incoming.fd);
    } else {
      assert es[1..][i - 1] == es[i];
      BatchAccepts(b1, es[1..], rev, i - 1);
    }
  }

  /** A turn that dispatches: its event does that to a connection, with the clock of the turn, and the sweep then leaves it
      exactly if its minute is not over. */
  lemma TurnExact<N>(b: Base<N>, t: Turn<N>, rev: Revision, i: nat)
      returns (answer: seq<byte>, mid: P.Option<Conn<N>>, after: P.Option<Conn<N>>)
    requires Inv(b) && SoundTurn(b, t, rev) && t.batch.Some? && i < |t.batch.value| && t.batch.value[i].fd != b.listen
    ensures var e := t.batch.value[i];
      && e.fd in b.conns && 0 < b.conns[e.fd].rx.rx.capacity
      && RoundOf(b.conns[e.fd], e, t.clock, rev, answer, mid, after)
    ensures SomeAccepts(t.batch.value, b.listen, t.batch.value[i].fd) ==> after == P.None
    ensures !SomeAccepts(t.batch.value, b.listen, t.batch.value[i].fd) ==>
      ConnIn(Take(b, t, rev), t.batch.value[i].fd) ==
        if after.Some? && Micros(t.clock) < Micros(after.value.active) + 60_000_000 then after else P.None
  {
    hide Inv, SoundBatch, Sweep, RoundOf, Micros, Expired, SomeAccepts;
    AwakeKeepsInv(b, t);
    answer, mid, after := BatchExact(Awake(b, t), t.batch.value, rev, i);
    IdleTimeout(b, t, rev);
    SweepExact(Dispatched(b, t, rev), rev);
  }

  /** The clients that it accepts are there at its end. */
  lemma TurnAccepts<N>(b: Base<N>, t: Turn<N>, rev: Revision, i: nat)
    requires Inv(b) && SoundTurn(b, t, rev) && t.batch.Some? && i < |t.batch.value|
    requires var e := t.batch.value[i]; e.incoming.Client? && Accepts(e, b.listen, e.incoming.fd)
    ensures var e := t.batch.value[i];
      ConnIn(Take(b, t, rev), e.incoming.fd) == P.Some(Accepted(e.incoming.node, t.clock))
  {
    hide Inv, SoundBatch, Sweep, Micros, Expired;
    AwakeKeepsInv(b, t);
    BatchAccepts(Awake(b, t), t.batch.value, rev, i);
    IdleTimeout(b, t, rev);
  }

  /** The connections that no event of it is about stay, and as they were, exactly until their minute is over. */
  lemma TurnElsewhere<N>(b: Base<N>, t: Turn<N>, rev: Revision, fd: int)
    requires Inv(b) && SoundTurn(b, t, rev) && t.batch.Some? && fd in b.conns
    requires forall i :: 0 <= i < |t.batch.value| ==> t.batch.value[i].fd != fd
    ensures ConnIn(Take(b, t, rev), fd) ==
      if Micros(t.clock) < Micros(b.conns[fd].active) + 60_000_000 then P.Some(b.conns[fd]) else P.None
  {
    hide Inv, SoundBatch, Sweep, Micros, Expired;
    AwakeKeepsInv(b, t);
    BatchElsewhere(Awake(b, t), t.batch.value, rev, fd);
    IdleTimeout(b, t, rev);
  }

  /** An error of `epoll_wait`: nothing but the cached time changes. */
  lemma FailedTurn<N>(b: Base<N>, t: Turn<N>, rev: Revision)
    requires Inv(b) && SoundTurn(b, t, rev) && t.batch.None?
    ensures Take(b, t, rev) == b.(now := t.clock)
  {
    hide Inv;
  }

  // ---------------------------------------------------------------------------------------------
  // Answers

  /** Everything that a live connection has been sent are the answers to the packets received on it. */
  ghost predicate Served<N>(b: Base<N>, rev: Revision) {
    forall fd :: fd in b.conns ==> Answering(b.conns[fd].rx.frames, b.conns[fd].tx.appended, rev)
  }

  lemma RoundServes<N>(b: Base<N>, e: Ready<N>, rev: Revision)
    requires Inv(b) && e.fd in b.table.kernel && SoundReady(b, e, rev) && Served(b, rev)
    ensures Served(Dispatch(b, e, rev), rev)
  {
    hide Inv, SoundReady, Dispatch, Answering, IsAnswer, R.HistoryStep, Taken, Fatal, OthersUntouched;
    var b' := Dispatch(b, e, rev);
    if e.fd == b.listen {
      ListenRound(b, e, rev);
      NothingAnswered(rev);
    } else {
      var answer, mid := RoundExact(b, e, rev);
      PendingIsRest(b, e.fd);
      var c := b.conns[e.fd];
      if e.fd in b'.conns {
        StepFrames(c.rx, e.arrivals);
        var frames := mid.value.rx.frames;
        if |frames| > |c.rx.frames| {
          AnsweringMore(c.rx.frames, c.tx.appended, frames[|frames| - 1], answer, rev);
        } else {
          assert c.tx.appended + [] == c.tx.appended;
        }
      }
      DispatchMembers(b, e, rev);
    }
  }

  /** An event on a connection concerns no other. */
  lemma DispatchMembers<N>(b: Base<N>, e: Ready<N>, rev: Revision)
    requires Inv(b) && e.fd in b.table.kernel && SoundReady(b, e, rev) && e.fd != b.listen
    ensures forall fd :: fd in Dispatch(b, e, rev).conns && fd != e.fd ==>
      fd in b.conns && Dispatch(b, e, rev).conns[fd] == b.conns[fd]
  {
    hide Inv, SoundReady, Dispatch;
    DispatchElsewhere(b, e, rev);
    DispatchShrinks(b, e, rev);
  }

  lemma StepFrames(h: R.History, arrivals: seq<Arrival>)
    requires 0 < h.rx.capacity
    ensures var h' := R.HistoryStep(h, arrivals);
      h'.frames == h.frames || (|h'.frames| == |h.frames| + 1 && h'.frames == h.frames + [h'.frames[|h'.frames| - 1]])
  {}

  lemma {:induction false} BatchServes<N>(b: Base<N>, es: seq<Ready<N>>, rev: Revision)
    requires Inv(b) && FromKernel(b, es) && SoundBatch(b, es, rev) && Served(b, rev)
    ensures Served(Batch(b, es, rev), rev)
    decreases |es|
  {
    hide Inv, SoundReady, Dispatch, Served;
    if es != [] {
      StillFromKernel(b, es, rev);
      RoundServes(b, es[0], rev);
      BatchServes(Dispatch(b, es[0], rev), es[1..], rev);
    }
  }

  lemma TurnServes<N>(b: Base<N>, t: Turn<N>, rev: Revision)
    requires Inv(b) && SoundTurn(b, t, rev) && Served(b, rev)
    ensures Served(Take(b, t, rev), rev)
  {
    hide Inv, SoundBatch, Sweep, Answering, Expired;
    AwakeKeepsInv(b, t);
    if t.batch.Some? {
      BatchServes(Awake(b, t), t.batch.value, rev);
      SweepExact(Dispatched(b, t, rev), rev);
    }
  }

  /** In every state of every run. */
  lemma {:induction false} RunServes<N>(b: Base<N>, ts: seq<Turn<N>>, rev: Revision)
    requires Inv(b) && SoundRun(b, ts, rev) && Served(b, rev)
    ensures forall k :: 0 <= k < |Run(b, ts, rev)| ==> Served(Run(b, ts, rev)[k], rev)
    decreases |ts|
  {
    hide Inv, SoundTurn, Take, Served;
    if ts != [] {
      TurnServes(b, ts[0], rev);
      RunServes(Take(b, ts[0], rev), ts[1..], rev);
    }
  }

  /** What a client gets, in any state of any run of a server that has been created properly: if it has sent the encodings
      of some packets, of which the server has taken any number of bytes, then what the server has written and is still to
      write to it are the answers to the first of those packets, in order. */
  lemma ClientGetsAnswers<N>(leftover: seq<FdEvent<P.Option<int>>>, listen: nat, now: Timeval, ts: seq<Turn<N>>, rev: Revision,
                             k: nat, fd: int, ps: seq<P.Packet>) returns (parts: seq<seq<byte>>)
    requires listen < |leftover| && leftover[listen].mask == EVENT_NONE && Normal(now)
    requires Inv<N>(Created(leftover, listen, now)) && SoundRun(Created(leftover, listen, now), ts, rev) && k <= |ts|
    requires var b := Run(Created(leftover, listen, now), ts, rev)[k];
      fd in b.conns && Splitter.AllSendable(ps) && b.conns[fd].rx.consumed <= Splitter.EncodeAll(ps)
    ensures var c := Run(Created(leftover, listen, now), ts, rev)[k].conns[fd];
      && |parts| == |c.rx.frames| <= |ps|
      && (forall i :: 0 <= i < |parts| ==> P.FrameSized(P.Encode(ps[i])) && IsAnswer(P.Encode(ps[i]), parts[i], rev))
      && c.tx.tx.cur <= |c.tx.tx.bytes| && c.tx.wire + S.Pending(c.tx.tx) == Splitter.Concat(parts)
  {
    hide Inv, SoundRun, Run, IsAnswer, Answering, S.Pending, P.Encode, Splitter.EncodeAll;
    var start: Base<N> := Created(leftover, listen, now);
    RunInv(start, ts, rev);
    RunServes(start, ts, rev);
    parts := ConnGetsAnswers(Run(start, ts, rev)[k], rev, fd, ps);
  }

  lemma ConnGetsAnswers<N>(b: Base<N>, rev: Revision, fd: int, ps: seq<P.Packet>) returns (parts: seq<seq<byte>>)
    requires Inv(b) && Served(b, rev) && fd in b.conns
    requires Splitter.AllSendable(ps) && b.conns[fd].rx.consumed <= Splitter.EncodeAll(ps)
    ensures var c := b.conns[fd];
      && |parts| == |c.rx.frames| <= |ps|
      && (forall i :: 0 <= i < |parts| ==> P.FrameSized(P.Encode(ps[i])) && IsAnswer(P.Encode(ps[i]), parts[i], rev))
      && c.tx.tx.cur <= |c.tx.tx.bytes| && c.tx.wire + S.Pending(c.tx.tx) == Splitter.Concat(parts)
  {
    hide Wired, Timed, IsAnswer, P.Encode, Splitter.EncodeAll, Splitter.Split, R.RxInv, S.TxInv, S.Pending;
    var c := b.conns[fd];
    assert BufferedConn(c) && Answering(c.rx.frames, c.tx.appended, rev);
    parts :| AnswersOf(c.rx.frames, parts, rev) && c.tx.appended == Splitter.Concat(parts);
    Splitter.SplitEncoded(ps, c.rx.consumed);
    forall i | 0 <= i < |parts| ensures c.rx.frames[i] == P.Encode(ps[i]) {
      assert c.rx.frames[i] == Splitter.Split(c.rx.consumed).frames[i];
    }
  }

  /** The answer to a packet, by its command. */
  lemma AnswerToPacket(p: P.Packet, bytes: seq<byte>, rev: Revision)
    requires P.Sendable(p)
    ensures P.FrameSized(P.Encode(p))
    ensures IsAnswer(P.Encode(p), bytes, rev) <==>
      if p.cmd == 0x2900 then
        exists cmd: u32, body: seq<byte> ::
          |body| == |p.body| + 128 && (rev.AsIntended? ==> cmd == 0x2900) && bytes == P.Encode(P.Packet(cmd, p.sequence, body))
      else if p.cmd == 0x3000 then bytes == P.Encode(p)
      else bytes == []
  {
    hide P.Encode;
    P.DecodeEncode(p);
  }
}
