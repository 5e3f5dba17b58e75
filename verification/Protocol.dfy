// The wire format of include/bin_proto.h: SOH, length, command, sequence number, body, EOT.

module Protocol {
  import opened Bytes

  const PROTO_SOH: byte := 0x28
  const PROTO_EOT: byte := 0x29
  const PACKET_LEN_POS := 1
  const PACKET_CMD_POS := 5
  const PACKET_SEQ_POS := 9
  const PACKET_BODY_POS := 13
  const PACKET_MIN_LEN := 18
  const PACKET_MAX_LEN := 0x10_0000
  const PACKET_HEAD_LEN := 5
  const CMD_TEST_VALUE: u32 := 0x2900
  const CMD_TEST_ECHO: u32 := 0x3000

  datatype Packet = Packet(cmd: u32, sequence: u32, body: seq<byte>)
  datatype Option<+T> = None | Some(value: T)

  /** A packet whose length fits the length field's legal range. */
  ghost predicate Sendable(p: Packet) {
    |p.body| + 14 <= PACKET_MAX_LEN
  }

  /** The documented layout. */
  function Encode(p: Packet): (b: seq<byte>)
    requires |p.body| + 14 < 0x1_0000_0000
    ensures |b| == |p.body| + 14
  {
    [PROTO_SOH] + Be32(|p.body| + 14) + Be32(p.cmd) + Be32(p.sequence) + p.body + [PROTO_EOT]
  }

  // ---------------------------------------------------------------------------------------------
  // What the receiver looks at

  /** The length field as the receiver computes it: unsigned, then cast to a signed integer. */
  function PacketLen(b: seq<byte>): int
    requires |b| >= PACKET_HEAD_LEN
  {
    ToInt32(FromBe32(b[PACKET_LEN_POS..PACKET_CMD_POS]))
  }

  /** The receiver's checks on a complete header. */
  predicate HeaderOk(b: seq<byte>)
    requires |b| >= PACKET_HEAD_LEN
  {
    b[0] == PROTO_SOH && PacketLen(b) > PACKET_BODY_POS && PacketLen(b) <= PACKET_MAX_LEN
  }

  /** The frames that the receiver accepts have a length in this range. */
  predicate FrameSized(frame: seq<byte>) {
    14 <= |frame| <= PACKET_MAX_LEN
  }

  /** `String2PacketPack` and the getters, on a complete frame: the first and the last byte are checked. */
  function Decode(b: seq<byte>): Option<Packet>
    requires |b| >= 14
  {
    if b[0] != PROTO_SOH || b[|b| - 1] != PROTO_EOT then None
    else Some(Packet(FromBe32(b[PACKET_CMD_POS..PACKET_SEQ_POS]),
                     FromBe32(b[PACKET_SEQ_POS..PACKET_BODY_POS]),
                     b[PACKET_BODY_POS..|b| - 1]))
  }

  /** What `ProcessEntirePacket` does with a frame. */
  datatype Dispatch = Rejected | TestCommand | Echo | Unknown(cmd: u32)

  function DispatchOf(b: seq<byte>): Dispatch
    requires |b| >= 14
  {
    match Decode(b)
    case None => Rejected
    case Some(p) =>
      if p.cmd == CMD_TEST_VALUE then TestCommand
      else if p.cmd == CMD_TEST_ECHO then Echo
      else Unknown(p.cmd)
  }

  // The answer of the test command's handler

  /** The handler asks for this much room for the answer to a packet of `n` bytes: its body and 128. It takes that number
      for the length of the answer's body, too, so that the answer is 14 bytes longer. */
  function ReplyNeed(n: int): int {
    n - 14 + 128
  }

  /** What the answer does not take from the request: the command, when its field is not set, and the filler. */
  datatype Reply = Reply(cmd: u32, filler: nat -> byte)

  function Answer(request: Packet, cmd: u32, filler: nat -> byte): (p: Packet)
    ensures |p.body| == ReplyNeed(|request.body| + 14)
  {
    Packet(cmd, request.sequence, seq(|request.body| + 128, i requires 0 <= i => filler(i)))
  }

  /** The layout, field by field. */
  ghost predicate Fields(b: seq<byte>, p: Packet)
    requires |p.body| + 14 < 0x1_0000_0000
  {
    && |b| == |p.body| + 14
    && b[0] == 0x28 && b[|b| - 1] == 0x29
    && b[1..5] == Be32(|p.body| + 14) && b[5..9] == Be32(p.cmd) && b[9..13] == Be32(p.sequence)
    && b[13..|b| - 1] == p.body
  }

  lemma EncodeAt(p: Packet, i: nat)
    requires |p.body| + 14 < 0x1_0000_0000 && i < |p.body| + 14
    ensures Encode(p)[i] ==
      if i == 0 then PROTO_SOH
      else if i < 5 then Be32(|p.body| + 14)[i - 1]
      else if i < 9 then Be32(p.cmd)[i - 5]
      else if i < 13 then Be32(p.sequence)[i - 9]
      else if i < |p.body| + 13 then p.body[i - 13]
      else PROTO_EOT
  {}

  /** Those fields, and nothing else, make a frame the encoding of a packet. */
  lemma EncodeParts(b: seq<byte>, p: Packet)
    requires |p.body| + 14 < 0x1_0000_0000
    ensures Fields(b, p) <==> b == Encode(p)
  {
    var e, n := Encode(p), |p.body| + 14;
    assert Fields(e, p);
    if Fields(b, p) {
      assert b == b[..1] + b[1..5] + b[5..9] + b[9..13] + b[13..n - 1] + b[n - 1..];
      assert b[..1] == [PROTO_SOH] && b[n - 1..] == [PROTO_EOT];
    }
  }

  /** The header of an encoded packet is accepted exactly when the packet is of a legal length, and then
      carries its length. */
  lemma EncodedHeader(p: Packet)
    requires |p.body| + 14 < 0x1_0000_0000
    ensures HeaderOk(Encode(p)) <==> Sendable(p)
    ensures Sendable(p) ==> PacketLen(Encode(p)) == |Encode(p)|
  {
    EncodeParts(Encode(p), p);
    Be32RoundTrip(|p.body| + 14);
  }

  /** Decoding undoes encoding for every command, sequence number and body, whatever bytes the body
      contains. */
  lemma DecodeEncode(p: Packet)
    requires |p.body| + 14 < 0x1_0000_0000
    ensures Decode(Encode(p)) == Some(p)
  {
    EncodeParts(Encode(p), p);
    Be32RoundTrip(p.cmd);
    Be32RoundTrip(p.sequence);
  }

  /** Encoding undoes decoding on every frame the receiver accepts. */
  lemma EncodeDecode(b: seq<byte>)
    requires |b| >= 14 && HeaderOk(b) && PacketLen(b) == |b| && Decode(b).Some?
    ensures Encode(Decode(b).value) == b
  {
    FromBe32RoundTrip(b[1..5]);
    FromBe32RoundTrip(b[5..9]);
    FromBe32RoundTrip(b[9..13]);
    EncodeParts(b, Decode(b).value);
  }

  /** Accepted lengths are unsigned values in 14 .. 2^20: the signed cast makes every length from 2^31 on
      fail the lower check. */
  lemma AcceptedLength(b: seq<byte>)
    requires |b| >= PACKET_HEAD_LEN
    ensures HeaderOk(b) <==> b[0] == 0x28 && 14 <= FromBe32(b[1..5]) <= 0x10_0000
    ensures HeaderOk(b) ==> PacketLen(b) == FromBe32(b[1..5])
  {}

  /** Which handler gets a frame, by its bytes. */
  lemma DispatchByBytes(b: seq<byte>)
    requires |b| >= 14
    ensures DispatchOf(b) == Rejected <==> b[0] != 0x28 || b[|b| - 1] != 0x29
    ensures DispatchOf(b) == TestCommand <==> b[0] == 0x28 && b[|b| - 1] == 0x29 && b[5..9] == [0, 0, 0x29, 0]
    ensures DispatchOf(b) == Echo <==> b[0] == 0x28 && b[|b| - 1] == 0x29 && b[5..9] == [0, 0, 0x30, 0]
  {
    Be32Digits(0x2900, b[5..9]);
    Be32Digits(0x3000, b[5..9]);
  }
}
