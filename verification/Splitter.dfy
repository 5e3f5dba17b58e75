// The reference for the receiver: cutting a byte stream into length-prefixed frames, with the whole
// stream at hand.

module Splitter {
  import opened Bytes
  import opened Protocol

  /** The complete frames at the front, what is left, and whether every header met was acceptable. */
  datatype Cut = Cut(frames: seq<seq<byte>>, rest: seq<byte>, ok: bool)

  function Split(b: seq<byte>): Cut
    decreases |b|
  {
    if |b| < PACKET_HEAD_LEN then Cut([], b, true)
    else if !HeaderOk(b) then Cut([], b, false)
    else if |b| < PacketLen(b) then Cut([], b, true)
    else
      var c := Split(b[PacketLen(b)..]);
      Cut([b[..PacketLen(b)]] + c.frames, c.rest, c.ok)
  }

  /** One complete frame with an acceptable header. */
  ghost predicate IsFrame(f: seq<byte>) {
    |f| >= PACKET_HEAD_LEN && HeaderOk(f) && PacketLen(f) == |f|
  }

  lemma HeaderOfPrefix(a: seq<byte>, b: seq<byte>)
    requires |a| >= PACKET_HEAD_LEN && a <= b
    ensures HeaderOk(a) == HeaderOk(b) && PacketLen(a) == PacketLen(b)
  {
    assert a[1..5] == b[1..5];
  }

  ghost function Concat(fs: seq<seq<byte>>): seq<byte> {
    if fs == [] then [] else fs[0] + Concat(fs[1..])
  }

  /** The cut of a stream that starts with a frame. */
  lemma SplitCons(f: seq<byte>, b: seq<byte>)
    requires IsFrame(f)
    ensures Split(f + b) == Cut([f] + Split(b).frames, Split(b).rest, Split(b).ok)
  {
    HeaderOfPrefix(f, f + b);
    assert (f + b)[|f|..] == b && (f + b)[..|f|] == f;
  }

  /** Every stream either starts with a frame or is not cut at all. */
  lemma SplitCases(b: seq<byte>) returns (f: seq<byte>, rest: seq<byte>)
    ensures f == [] ==> Split(b).frames == [] && Split(b).rest == b
    ensures f == [] && Split(b).ok ==>
      |b| < PACKET_HEAD_LEN || (HeaderOk(b) && |b| < PacketLen(b))
    ensures f != [] ==> IsFrame(f) && b == f + rest && |rest| < |b|
  {
    f, rest := [], b;
    if |b| >= PACKET_HEAD_LEN && HeaderOk(b) && |b| >= PacketLen(b) {
      f, rest := b[..PacketLen(b)], b[PacketLen(b)..];
      HeaderOfPrefix(f, b);
    }
  }

  /** The cut loses nothing, yields only frames, and leaves less than a frame. */
  lemma {:induction false} SplitConserves(b: seq<byte>)
    ensures var c := Split(b);
      && Concat(c.frames) + c.rest == b
      && (forall i :: 0 <= i < |c.frames| ==> IsFrame(c.frames[i]))
      && (c.ok ==> |c.rest| < PACKET_HEAD_LEN || (HeaderOk(c.rest) && |c.rest| < PacketLen(c.rest)))
    decreases |b|
  {
    var f, b' := SplitCases(b);
    if f != [] {
      SplitConserves(b');
      SplitCons(f, b');
      var c := Split(b');
      assert ([f] + c.frames)[1..] == c.frames;
      assert f + Concat(c.frames) + c.rest == f + (Concat(c.frames) + c.rest);
    }
  }

  /** The cut of a longer stream goes on from what the shorter one left. */
  lemma {:induction false} SplitExtends(a: seq<byte>, b: seq<byte>)
    requires Split(a).ok
    ensures var c, d := Split(a), Split(Split(a).rest + b);
      Split(a + b) == Cut(c.frames + d.frames, d.rest, d.ok)
    decreases |a|
  {
    hide Split, IsFrame, HeaderOk, PacketLen;
    var f, a' := SplitCases(a);
    if f == [] {
      assert Split(a).rest == a;
      assert [] + Split(a + b).frames == Split(a + b).frames;
    } else {
      SplitCons(f, a');
      SplitExtends(a', b);
      assert a + b == f + (a' + b);
      SplitCons(f, a' + b);
      FramesAssociate(f, Split(a').frames, Split(Split(a').rest + b).frames);
    }
  }

  lemma FramesAssociate(f: seq<byte>, c: seq<seq<byte>>, d: seq<seq<byte>>)
    ensures [f] + (c + d) == [f] + c + d
  {}

  /** A frame alone is cut into itself. */
  lemma SplitFrame(f: seq<byte>)
    requires IsFrame(f)
    ensures Split(f) == Cut([f], [], true)
  {
    SplitCons(f, []);
    assert f + [] == f;
  }

  // ---------------------------------------------------------------------------------------------
  // Streams made of encoded packets

  ghost predicate AllSendable(ps: seq<Packet>) {
    forall i :: 0 <= i < |ps| ==> Sendable(ps[i])
  }

  ghost function EncodeAll(ps: seq<Packet>): seq<byte>
    requires AllSendable(ps)
  {
    if ps == [] then []
    else
      assert Sendable(ps[0]);
      Encode(ps[0]) + EncodeAll(ps[1..])
  }

  lemma EncodedIsFrame(p: Packet)
    requires Sendable(p)
    ensures IsFrame(Encode(p))
  {
    EncodedHeader(p);
  }

  /** Any beginning of a stream of encoded packets is cut into the encodings of the first packets; all its
      headers are acceptable; and nothing is left over when the stream is complete. */
  lemma {:induction false} SplitEncoded(ps: seq<Packet>, b: seq<byte>)
    requires AllSendable(ps) && b <= EncodeAll(ps)
    ensures var c := Split(b);
      && c.ok && |c.frames| <= |ps|
      && (forall i :: 0 <= i < |c.frames| ==> c.frames[i] == Encode(ps[i]))
      && (b == EncodeAll(ps) ==> |c.frames| == |ps| && c.rest == [])
    decreases |ps|
  {
    hide Encode;
    if ps != [] {
      var e, all := Encode(ps[0]), EncodeAll(ps);
      EncodedIsFrame(ps[0]);
      assert all == e + EncodeAll(ps[1..]);
      if |b| >= |e| {
        var b' := b[|e|..];
        assert b == e + b' && b' <= EncodeAll(ps[1..]);
        SplitEncoded(ps[1..], b');
        SplitCons(e, b');
        forall i | 0 < i < |Split(b).frames| ensures Split(b).frames[i] == Encode(ps[i]) {
          assert Split(b).frames[i] == Split(b').frames[i - 1] == Encode(ps[1..][i - 1]);
        }
      } else if |b| >= PACKET_HEAD_LEN {
        HeaderOfPrefix(e, all);
        HeaderOfPrefix(b, all);
      }
    }
  }

  /** Nor could the packets be told apart differently: streams of packets are uniquely decodable. */
  lemma EncodingInjective(ps: seq<Packet>, qs: seq<Packet>)
    requires AllSendable(ps) && AllSendable(qs) && EncodeAll(ps) == EncodeAll(qs)
    ensures ps == qs
  {
    SplitEncoded(ps, EncodeAll(ps));
    SplitEncoded(qs, EncodeAll(qs));
    forall i | 0 <= i < |ps| ensures ps[i] == qs[i] {
      DecodeEncode(ps[i]);
      DecodeEncode(qs[i]);
    }
  }
}
