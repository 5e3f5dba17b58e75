// From one buffer to the other: what one side sends through its outbound buffer is what the receive state
// machine at the other end hands on.

module Delivery {
  import opened Bytes
  import opened Protocol
  import opened SocketModel
  import opened Splitter
  import opened HeapModel
  import R = Receiver
  import S = Sender

  const Started := S.TxHistory(S.Fresh(), [], [], true)

  /** Everything that a sequence of events wants to send, in order. */
  function Wanted(es: seq<S.TxEvent>): seq<byte> {
    if es == [] then []
    else
      match es[0]
      case Send(p, _) => p + Wanted(es[1..])
      case SendEcho(p) => p + Wanted(es[1..])
      case Writable(_) => Wanted(es[1..])
  }

  lemma {:induction false} NothingAfterDeath(h: S.TxHistory, fd: int, es: seq<S.TxEvent>, rev: Revision)
    requires S.Fifo(h) && S.SoundTxRun(h, fd, es, rev) && !h.alive
    ensures S.TxRun(h, fd, es, rev) == h
    decreases |es|
  {
    if es != [] {
      NothingAfterDeath(h, fd, es[1..], rev);
    }
  }

  /** What has been appended is a beginning of that; the rest is lost when the connection is. */
  lemma {:induction false} AppendedIsWanted(h: S.TxHistory, fd: int, es: seq<S.TxEvent>, rev: Revision)
    requires S.Fifo(h) && S.SoundTxRun(h, fd, es, rev)
    ensures S.TxRun(h, fd, es, rev).appended <= h.appended + Wanted(es)
    decreases |es|
  {
    if !h.alive {
      NothingAfterDeath(h, fd, es, rev);
    } else if es != [] {
      var h' := S.TxStep(h, fd, es[0], rev);
      S.TxStepKeepsFifo(h, fd, es[0], rev);
      AppendedIsWanted(h', fd, es[1..], rev);
      match es[0]
      case Send(p, _) => Associate(h.appended, p, Wanted(es[1..]));
      case SendEcho(p) => Associate(h.appended, p, Wanted(es[1..]));
      case Writable(_) =>
    }
  }

  /** Packets sent one after the other through the outbound buffer, whatever the socket accepts and however the
      bytes on the wire are cut into arrivals at the other end: the receiver hands on the first packets sent, in
      order, with the same command, sequence number and body. */
  lemma SentIsReceived(ps: seq<Packet>, es: seq<S.TxEvent>, fd: int, rev: Revision, events: seq<seq<Arrival>>)
    requires AllSendable(ps) && Wanted(es) == EncodeAll(ps) && S.SoundTxRun(Started, fd, es, rev)
    requires R.AllFlow(events) <= S.TxRun(Started, fd, es, rev).wire
    ensures R.HistoryInv(R.Accepted)
    ensures var frames := R.ReceiveRun(R.Accepted, events).frames;
      && |frames| <= |ps|
      && forall i :: 0 <= i < |frames| ==> |frames[i]| >= 14 && Decode(frames[i]) == Some(ps[i])
  {
    S.FifoOverRuns(Started, fd, es, rev);
    AppendedIsWanted(Started, fd, es, rev);
    assert [] + Wanted(es) == Wanted(es);
    R.EndToEnd(ps, events);
  }

}
