// The packet builder and reader of src/bin_proto.c, which work in place on a region of a buffer.

module PacketPacks {
  import opened Bytes
  import opened Protocol
  import opened HeapModel

  /** `PacketPack`: `pBuffer` is the buffer from `start` on. */
  class PacketPack {
    const buffer: array<byte>
    const start: nat
    var pos: int
    var tailer: int
    var total: int

    ghost predicate Valid()
      reads this
    {
      pos == PACKET_BODY_POS <= tailer && start + tailer < buffer.Length
    }

    /** `__CreatePackFromBuffer`. It writes 14 bytes whatever `len` is. */
    constructor Create(buffer: array<byte>, start: nat, len: int)
      requires start + 14 <= buffer.Length
      modifies buffer
      ensures this.buffer == buffer && this.start == start && Valid() && tailer == PACKET_BODY_POS && total == len
      ensures buffer[..] == Created(old(buffer[..]), start)
    {
      this.buffer, this.start := buffer, start;
      pos, tailer, total := PACKET_BODY_POS, PACKET_BODY_POS, len;
      new;
      Copy([PROTO_SOH], PACKET_SOH_POS);
      Copy([PROTO_EOT], tailer);
      Copy(Be32(PACKET_MIN_LEN), PACKET_LEN_POS);
    }

    /** `memcpy(&pBuffer[at], bytes, |bytes|)`; with one byte, the assignment `pBuffer[at] = byte`. */
    method Copy(bytes: seq<byte>, at: nat)
      requires start + at + |bytes| <= buffer.Length
      modifies buffer
      ensures buffer[..] == Overwrite(old(buffer[..]), start + at, bytes)
    {
      forall i | 0 <= i < |bytes| {
        buffer[start + at + i] := bytes[i];
      }
    }

    /** `SetPacketCmd`. As written it copies to `&t_pstPacketPack[PACKET_CMD_POS]`, five times the
        size of the structure behind the structure itself, and nothing reaches the buffer. */
    method SetPacketCmd(cmd: u32, rev: Revision)
      requires Valid()
      modifies buffer
      ensures buffer[..] == if rev.AsWritten? then old(buffer[..])
                            else Overwrite(old(buffer[..]), start + 5, Be32(cmd))
    {
      if rev.AsIntended? {
        Copy(Be32(cmd), PACKET_CMD_POS);
      }
    }

    /** `SetPacketSeq` */
    method SetPacketSeq(sequence: u32)
      requires Valid()
      modifies buffer
      ensures buffer[..] == Overwrite(old(buffer[..]), start + 9, Be32(sequence))
    {
      Copy(Be32(sequence), PACKET_SEQ_POS);
    }

    /** `SetDataBody`: refuses an empty body and one that leaves no room for EOT within `total`. */
    method SetDataBody(data: seq<byte>) returns (ret: int)
      requires Valid() && start + total <= buffer.Length
      modifies this`tailer, buffer
      ensures Valid() && start + total <= buffer.Length
      ensures ret == if data == [] || old(tailer) + |data| > total - 1 then -1 else 0
      ensures tailer == old(tailer) + if ret == 0 then |data| else 0
      ensures buffer[..] == Filled(old(buffer[..]), start + old(tailer) - PACKET_BODY_POS, if ret == 0 then data else [])
    {
      hide Overwrite;
      if |data| <= 0 {
        return -1;
      }
      if tailer + |data| > total - 1 {
        return -1;
      }
      Copy(data, tailer);
      tailer := tailer + |data|;
      Copy([PROTO_EOT], tailer);
      return 0;
    }

    /** `AddAllData2Packet`: its check against `total` has no consequence, so that only the buffer's end bounds
        the body. */
    method AddAllData(data: seq<byte>) returns (ret: int)
      requires Valid() && start + tailer + |data| < buffer.Length
      modifies this`tailer, buffer
      ensures Valid() && ret == (if data == [] then -1 else 0) && tailer == old(tailer) + |data|
      ensures buffer[..] == Filled(old(buffer[..]), start + old(tailer) - PACKET_BODY_POS, data)
    {
      hide Overwrite;
      if |data| <= 0 {
        return -1;
      }
      Copy(data, tailer);
      tailer := tailer + |data|;
      Copy([PROTO_EOT], tailer);
      return 0;
    }

    /** `PacketPack2String` */
    method ToBytes()
      requires Valid() && tailer + 1 < 0x1_0000_0000
      modifies buffer
      ensures buffer[..] == Framed(old(buffer[..]), start, tailer + 1, tailer + 1)
    {
      hide Overwrite, Be32;
      Copy([PROTO_SOH], PACKET_SOH_POS);
      Copy([PROTO_EOT], tailer);
      Copy(Be32(tailer + 1), PACKET_LEN_POS);
    }

    /** `GetPacketLen` */
    function Len(): int
      reads this
    {
      tailer + 1
    }

    /** `String2PacketPack` on the first `len` bytes of a buffer: `null` for one without SOH or EOT. Nothing is
        asked of the length; what the getters need is that the fields are there. */
    static method FromBytes(buffer: array<byte>, len: int) returns (p: PacketPack?)
      requires 0 < len <= buffer.Length
      ensures p == null <==> buffer[0] != 0x28 || buffer[len - 1] != 0x29
      ensures len >= 14 ==> (p == null <==> Decode(buffer[..len]).None?)
      ensures p != null ==> fresh(p) && p.buffer == buffer && p.start == 0 && p.Len() == len && (p.Valid() <==> len >= 14)
    {
      p := new PacketPack.Over(buffer, len);
      if buffer[PACKET_SOH_POS] != PROTO_SOH || buffer[p.tailer] != PROTO_EOT {
        return null;
      }
    }

    constructor Over(buffer: array<byte>, len: int)
      requires 0 < len <= buffer.Length
      ensures this.buffer == buffer && start == 0 && Len() == len && total == len && (Valid() <==> len >= 14)
    {
      this.buffer, start := buffer, 0;
      pos, tailer, total := PACKET_BODY_POS, len - 1, len;
    }

    /** `GetPacketCmd`, `GetPacketSeq`, `GetDataPos` and `GetDataSize` together read back what Decode says. */
    method Read() returns (p: Packet)
      requires Valid() && start == 0
      ensures buffer[0] == 0x28 && buffer[tailer] == 0x29 ==> Decode(buffer[..Len()]) == Some(p)
    {
      var cmd := FromBe32(buffer[start + PACKET_CMD_POS..start + PACKET_SEQ_POS]);
      var sequence := FromBe32(buffer[start + PACKET_SEQ_POS..start + PACKET_BODY_POS]);
      var size := tailer - pos;
      p := Packet(cmd, sequence, buffer[start + PACKET_BODY_POS..start + PACKET_BODY_POS + size]);
      assert buffer[..Len()][5..9] == buffer[5..9] && buffer[..Len()][9..13] == buffer[9..13];
      assert buffer[..Len()][13..tailer] == buffer[13..tailer];
    }
  }

  const PACKET_SOH_POS := 0

  /** The command that a built packet carries: as written, SetPacketCmd misses the buffer, and the packet
      carries whatever bytes the buffer held at the command field. */
  function CarriedCmd(cmd: u32, field: seq<byte>, rev: Revision): u32
    requires |field| == 4
  {
    if rev.AsWritten? then FromBe32(field) else cmd
  }

  // The bytes after each of the calls that build a packet, one function per group of calls.

  ghost function Created(s: seq<byte>, start: nat): (r: seq<byte>)
    requires start + 14 <= |s|
  {
    Framed(s, start, 14, PACKET_MIN_LEN)
  }

  ghost function Addressed(s: seq<byte>, start: nat, p: Packet, rev: Revision): (r: seq<byte>)
    requires start + 14 <= |s|
  {
    Overwrite(if rev.AsWritten? then s else Overwrite(s, start + 5, Be32(p.cmd)), start + 9, Be32(p.sequence))
  }

  ghost function Filled(s: seq<byte>, start: nat, body: seq<byte>): (r: seq<byte>)
    requires start + |body| + 14 <= |s|
  {
    if body == [] then s else Overwrite(Overwrite(s, start + 13, body), start + 13 + |body|, [PROTO_EOT])
  }

  /** SOH, EOT `n` bytes later, and the length field. */
  ghost function Framed(s: seq<byte>, start: nat, n: nat, len: u32): (r: seq<byte>)
    requires 14 <= n && start + n <= |s|
  {
    Overwrite(Overwrite(Overwrite(s, start, [PROTO_SOH]), start + n - 1, [PROTO_EOT]), start + 1, Be32(len))
  }

  ghost function Built(s: seq<byte>, start: nat, p: Packet, rev: Revision): (r: seq<byte>)
    requires |p.body| + 14 < 0x1_0000_0000 && start + |p.body| + 14 <= |s|
  {
    Framed(Filled(Addressed(Created(s, start), start, p, rev), start, p.body), start, |p.body| + 14, |p.body| + 14)
  }

  lemma FramedAt(s: seq<byte>, start: nat, n: nat, len: u32, i: nat)
    requires 14 <= n && start + n <= |s| && i < |s|
    ensures Framed(s, start, n, len)[i] ==
      if i == start then PROTO_SOH
      else if i == start + n - 1 then PROTO_EOT
      else if start + 1 <= i < start + 5 then Be32(len)[i - start - 1]
      else s[i]
  {
    var s1 := Overwrite(s, start, [PROTO_SOH]);
    var s2 := Overwrite(s1, start + n - 1, [PROTO_EOT]);
    OverwriteAt(s, start, [PROTO_SOH], i);
    OverwriteAt(s1, start + n - 1, [PROTO_EOT], i);
    OverwriteAt(s2, start + 1, Be32(len), i);
  }

  lemma AddressedAt(s: seq<byte>, start: nat, p: Packet, rev: Revision, i: nat)
    requires start + 14 <= |s| && i < |s|
    ensures Addressed(s, start, p, rev)[i] ==
      if start + 9 <= i < start + 13 then Be32(p.sequence)[i - start - 9]
      else if rev.AsIntended? && start + 5 <= i < start + 9 then Be32(p.cmd)[i - start - 5]
      else s[i]
  {
    OverwriteAt(s, start + 5, Be32(p.cmd), i);
    OverwriteAt(if rev.AsWritten? then s else Overwrite(s, start + 5, Be32(p.cmd)), start + 9, Be32(p.sequence), i);
  }

  lemma FilledAt(s: seq<byte>, start: nat, body: seq<byte>, i: nat)
    requires start + |body| + 14 <= |s| && i < |s|
    ensures i != start + 13 + |body| ==>
      Filled(s, start, body)[i] == if start + 13 <= i < start + 13 + |body| then body[i - start - 13] else s[i]
  {
    OverwriteAt(s, start + 13, body, i);
    OverwriteAt(Overwrite(s, start + 13, body), start + 13 + |body|, [PROTO_EOT], i);
  }

  /** Byte `i` of a buffer in which the packet has been built at `start`. */
  ghost function ByteAt(s: seq<byte>, start: nat, p: Packet, rev: Revision, i: nat): byte
    requires |p.body| + 14 < 0x1_0000_0000 && start + |p.body| + 14 <= |s| && i < |s|
  {
    var n := |p.body| + 14;
    if i == start then PROTO_SOH
    else if i == start + n - 1 then PROTO_EOT
    else if start + 1 <= i < start + 5 then Be32(n)[i - start - 1]
    else if start + 5 <= i < start + 9 && rev.AsIntended? then Be32(p.cmd)[i - start - 5]
    else if start + 9 <= i < start + 13 then Be32(p.sequence)[i - start - 9]
    else if start + 13 <= i < start + n then p.body[i - start - 13]
    else s[i]
  }

  lemma BuiltLengths(s: seq<byte>, start: nat, p: Packet, rev: Revision)
    requires |p.body| + 14 < 0x1_0000_0000 && start + |p.body| + 14 <= |s|
    ensures |Created(s, start)| == |s| && |Addressed(Created(s, start), start, p, rev)| == |s|
    ensures |Filled(Addressed(Created(s, start), start, p, rev), start, p.body)| == |s| == |Built(s, start, p, rev)|
  {}

  lemma BuiltAt(s: seq<byte>, start: nat, p: Packet, rev: Revision, i: nat)
    requires |p.body| + 14 < 0x1_0000_0000 && start + |p.body| + 14 <= |s| && i < |s|
    ensures Built(s, start, p, rev)[i] == ByteAt(s, start, p, rev, i)
  {
    hide Framed, Addressed, Filled, Overwrite, Be32;
    BuiltLengths(s, start, p, rev);
    var c := Created(s, start);
    var a := Addressed(c, start, p, rev);
    FramedAt(s, start, 14, PACKET_MIN_LEN, i);
    AddressedAt(c, start, p, rev, i);
    FilledAt(a, start, p.body, i);
    FramedAt(Filled(a, start, p.body), start, |p.body| + 14, |p.body| + 14, i);
  }

  /** The packet as it is carried: with the command that the buffer ends up holding. */
  ghost function Carried(s: seq<byte>, start: nat, p: Packet, rev: Revision): Packet
    requires start + 14 <= |s|
  {
    p.(cmd := CarriedCmd(p.cmd, s[start + 5..start + 9], rev))
  }

  lemma EncodedAt(s: seq<byte>, start: nat, p: Packet, rev: Revision, i: nat)
    requires |p.body| + 14 < 0x1_0000_0000 && start + |p.body| + 14 <= |s| && i < |s|
    ensures Overwrite(s, start, Encode(Carried(s, start, p, rev)))[i] == ByteAt(s, start, p, rev, i)
  {
    var field := s[start + 5..start + 9];
    FromBe32RoundTrip(field);
    OverwriteAt(s, start, Encode(Carried(s, start, p, rev)), i);
    if start <= i < start + |p.body| + 14 {
      EncodeAt(Carried(s, start, p, rev), i - start);
    }
  }

  /** All calls together write the encoding of the packet, with the command that it carries, and nothing
      else. */
  lemma BuiltEncodes(s: seq<byte>, start: nat, p: Packet, rev: Revision)
    requires |p.body| + 14 < 0x1_0000_0000 && start + |p.body| + 14 <= |s|
    ensures Built(s, start, p, rev) == Overwrite(s, start, Encode(Carried(s, start, p, rev)))
  {
    var r, e := Built(s, start, p, rev), Overwrite(s, start, Encode(Carried(s, start, p, rev)));
    assert |r| == |e| == |s|;
    forall i | 0 <= i < |s| ensures r[i] == e[i] {
      BuiltAt(s, start, p, rev, i);
      EncodedAt(s, start, p, rev, i);
    }
  }

  /** The peer reads the packet that was asked for exactly when the command reaches the buffer, or when the
      command field happened to hold it before. */
  lemma BuiltIsRequestedIff(s: seq<byte>, start: nat, p: Packet, rev: Revision)
    requires |p.body| + 14 < 0x1_0000_0000 && start + |p.body| + 14 <= |s|
    ensures Decode(Built(s, start, p, rev)[start..start + |p.body| + 14]) == Some(p) <==>
      rev.AsIntended? || s[start + 5..start + 9] == Be32(p.cmd)
  {
    var c, n := Carried(s, start, p, rev), |p.body| + 14;
    BuiltEncodes(s, start, p, rev);
    assert Overwrite(s, start, Encode(c))[start..start + n] == Encode(c);
    DecodeEncode(c);
    Be32RoundTrip(p.cmd);
    FromBe32RoundTrip(s[start + 5..start + 9]);
  }

  /** Building a packet in place, call by call as the test command's handler does: create, set command, sequence
      number and body, and finish. The number of bytes asked for, `total`, bounds nothing. */
  method BuildPacket(buffer: array<byte>, start: nat, total: int, packet: Packet, rev: Revision) returns (len: int)
    requires start + |packet.body| + 14 <= buffer.Length && |packet.body| + 14 < 0x1_0000_0000
    modifies buffer
    ensures len == |packet.body| + 14
    ensures buffer[..] == Overwrite(old(buffer[..]), start, Encode(Carried(old(buffer[..]), start, packet, rev)))
  {
    hide Created, Addressed, Filled, Built, Encode, Carried, Overwrite;
    ghost var s := buffer[..];
    BuiltEncodes(s, start, packet, rev);
    BuiltSteps(s, start, packet, rev);
    var pack := new PacketPack.Create(buffer, start, total);
    pack.SetPacketCmd(packet.cmd, rev);
    pack.SetPacketSeq(packet.sequence);
    var _ := pack.AddAllData(packet.body);
    len := pack.Len();
    pack.ToBytes();
  }

  /** The same with the checked `SetDataBody`: a packet created with `total` bytes takes any body that leaves room for the
      fields and EOT, and is then the encoding; any other body is refused. */
  method BuildChecked(buffer: array<byte>, start: nat, total: nat, packet: Packet, rev: Revision) returns (ret: int)
    requires start + total <= buffer.Length && 14 <= total < 0x1_0000_0000
    modifies buffer
    ensures ret == if 0 < |packet.body| <= total - 14 then 0 else -1
    ensures buffer[..] ==
      if ret == 0 then Overwrite(old(buffer[..]), start, Encode(Carried(old(buffer[..]), start, packet, rev)))
      else Addressed(Created(old(buffer[..]), start), start, packet, rev)
  {
    hide Created, Addressed, Filled, Built, Encode, Carried, Overwrite;
    ghost var s := buffer[..];
    var pack := new PacketPack.Create(buffer, start, total);
    CreatedAddressed(s, start, packet, rev);
    pack.SetPacketCmd(packet.cmd, rev);
    pack.SetPacketSeq(packet.sequence);
    ghost var a := buffer[..];
    ret := pack.SetDataBody(packet.body);
    if ret == -1 {
      FilledNot(a, start);
      return;
    }
    BuiltEncodes(s, start, packet, rev);
    BuiltSteps(s, start, packet, rev);
    pack.ToBytes();
  }

  lemma CreatedAddressed(s: seq<byte>, start: nat, p: Packet, rev: Revision)
    requires start + 14 <= |s|
    ensures var c := Created(s, start);
      && |c| == |Addressed(c, start, p, rev)| == |s|
      && Addressed(c, start, p, rev)
         == Overwrite(if rev.AsWritten? then c else Overwrite(c, start + 5, Be32(p.cmd)), start + 9, Be32(p.sequence))
  {}

  lemma FilledNot(s: seq<byte>, start: nat)
    requires start + 14 <= |s|
    ensures Filled(s, start, []) == s
  {}

  lemma BuiltSteps(s: seq<byte>, start: nat, p: Packet, rev: Revision)
    requires |p.body| + 14 < 0x1_0000_0000 && start + |p.body| + 14 <= |s|
    ensures var c := Created(s, start);
      var a := Addressed(c, start, p, rev);
      && |c| == |a| == |s|
      && a == Overwrite(if rev.AsWritten? then c else Overwrite(c, start + 5, Be32(p.cmd)), start + 9, Be32(p.sequence))
      && Built(s, start, p, rev) == Framed(Filled(a, start, p.body), start, |p.body| + 14, |p.body| + 14)
  {}
}
