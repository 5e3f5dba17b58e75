// What the server owes its peer: the answers to the packets received, in order.

module Answers {
  import opened Bytes
  import opened HeapModel
  import opened Protocol
  import opened Splitter

  /** `bytes` is what the handler of a frame sends: for the test command a packet of the handler's length with the
      request's sequence number and, with the lines as intended, the request's command; for an echo the frame itself;
      and nothing for anything else. */
  ghost predicate IsAnswer(frame: seq<byte>, bytes: seq<byte>, rev: Revision)
    requires FrameSized(frame)
  {
    match DispatchOf(frame)
    case TestCommand =>
      exists cmd: u32, body: seq<byte> ::
        && |body| == |frame| + 114 && (rev.AsIntended? ==> cmd == Decode(frame).value.cmd)
        && bytes == Encode(Packet(cmd, Decode(frame).value.sequence, body))
    case Echo => bytes == frame
    case _ => bytes == []
  }

  /** One answer to each frame. */
  ghost predicate AnswersOf(frames: seq<seq<byte>>, parts: seq<seq<byte>>, rev: Revision) {
    && |parts| == |frames|
    && forall i :: 0 <= i < |frames| ==> FrameSized(frames[i]) && IsAnswer(frames[i], parts[i], rev)
  }

  /** `sent` consists of the answers to the frames, in order. */
  ghost predicate Answering(frames: seq<seq<byte>>, sent: seq<byte>, rev: Revision) {
    exists parts: seq<seq<byte>> :: AnswersOf(frames, parts, rev) && sent == Concat(parts)
  }

  lemma {:induction false} ConcatSnoc(fs: seq<seq<byte>>, f: seq<byte>)
    ensures Concat(fs + [f]) == Concat(fs) + f
    decreases |fs|
  {
    if fs == [] {
      assert (fs + [f])[1..] == [];
    } else {
      ConcatSnoc(fs[1..], f);
      assert (fs + [f])[1..] == fs[1..] + [f];
      assert fs[0] + (Concat(fs[1..]) + f) == fs[0] + Concat(fs[1..]) + f;
    }
  }

  lemma NothingAnswered(rev: Revision)
    ensures Answering([], [], rev)
  {
    var none: seq<seq<byte>> := [];
    assert AnswersOf([], none, rev) && Concat(none) == [];
  }

  /** One more frame and its answer. */
  lemma AnsweringMore(frames: seq<seq<byte>>, sent: seq<byte>, frame: seq<byte>, bytes: seq<byte>, rev: Revision)
    requires Answering(frames, sent, rev) && FrameSized(frame) && IsAnswer(frame, bytes, rev)
    ensures Answering(frames + [frame], sent + bytes, rev)
  {
    hide IsAnswer;
    var parts :| AnswersOf(frames, parts, rev) && sent == Concat(parts);
    ConcatSnoc(parts, bytes);
    assert AnswersOf(frames + [frame], parts + [bytes], rev);
  }
}
