// One connection's buffers as the source has them (struct __single_conn_fd), tied to the value models
// Receiver and Sender.

module Connection {
  import opened Bytes
  import opened Doubling
  import opened Protocol
  import opened SocketModel
  import opened SocketApi
  import opened HeapModel
  import opened MinHeap
  import opened TimeMath
  import opened PacketPacks
  import M = Reactor
  import R = Receiver
  import S = Sender

  class ConnFd {
    const socket: Socket
    const timeoutEvent: TimeoutEvent
    var recvBuf: array<byte>
    var recvTotalLen: nat
    var recvCurLen: nat
    var packetLen: int
    var sendBuf: array<byte>
    var sendTotalLen: nat
    var sendCurLen: nat
    var sendPacketLen: nat
    /** The connection as a value, with its history. */
    ghost var past: M.Conn<TimeoutEvent>

    /** The receiving half is as `h` says. */
    ghost predicate ReceivedAs(h: R.History)
      reads this`recvBuf, this`recvTotalLen, this`recvCurLen, this`packetLen, recvBuf, socket`queue
    {
      RxAllocated() && h.rx == Rx()
    }

    /** The sending half is as `h` says. */
    ghost predicate SentAs(h: S.TxHistory)
      reads this`sendBuf, this`sendTotalLen, this`sendCurLen, this`sendPacketLen, sendBuf, socket`written
    {
      TxAllocated() && h.tx == Tx(h.tx.interest) && h.wire == socket.written
    }

    /** Between events. */
    ghost predicate Valid()
      reads this, recvBuf, sendBuf, socket`queue, socket`written
    {
      recvBuf != sendBuf && ReceivedAs(past.rx) && SentAs(past.tx)
    }

    ghost predicate RxAllocated()
      reads this`recvBuf, this`recvTotalLen, this`recvCurLen
    {
      recvCurLen <= recvTotalLen == recvBuf.Length
    }

    /** The receiving half. */
    ghost function Rx(): R.Rx
      requires RxAllocated()
      reads this`recvBuf, this`recvTotalLen, this`recvCurLen, this`packetLen, recvBuf, socket`queue
    {
      R.Rx(recvBuf[..recvCurLen], recvTotalLen, packetLen, socket.queue)
    }

    ghost predicate TxAllocated()
      reads this`sendBuf, this`sendCurLen, this`sendPacketLen
    {
      sendCurLen <= sendPacketLen <= sendBuf.Length
    }

    /** The sending half; whether write interest is registered is kept in the reactor's table. */
    ghost function Tx(interest: bool): S.Tx
      requires TxAllocated()
      reads this`sendBuf, this`sendTotalLen, this`sendCurLen, this`sendPacketLen, sendBuf
    {
      S.Tx(sendBuf[..sendPacketLen], sendCurLen, sendTotalLen, sendBuf.Length, interest)
    }

    /** The buffer part of `__CreateNewConn`. */
    constructor (socket: Socket, timeoutEvent: TimeoutEvent, ghost now: Timeval)
      requires socket.queue == [] && socket.written == []
      ensures this.socket == socket && this.timeoutEvent == timeoutEvent
      ensures fresh(recvBuf) && fresh(sendBuf) && Valid()
      ensures recvBuf.Length == recvTotalLen == 4096 && recvCurLen == 0 && packetLen == 0
      ensures sendBuf.Length == sendTotalLen == 4096 && sendCurLen == 0 && sendPacketLen == 0
      ensures past == M.Conn(timeoutEvent, R.Accepted, S.TxHistory(S.Fresh(), [], [], true), now)
    {
      this.socket, this.timeoutEvent := socket, timeoutEvent;
      past := M.Conn(timeoutEvent, R.Accepted, S.TxHistory(S.Fresh(), [], [], true), now);
      recvTotalLen, recvCurLen, packetLen := R.MAX_TCP_BUF_SIZE, 0, 0;
      sendTotalLen, sendCurLen, sendPacketLen := S.MAX_TCP_BUF_SIZE, 0, 0;
      recvBuf := new byte[R.MAX_TCP_BUF_SIZE];
      sendBuf := new byte[S.MAX_TCP_BUF_SIZE];
    }

    /** `ResizeRecvBufferPtr` for a positive `need`: keeps the received bytes and makes room behind them. */
    method ResizeRecvBufferPtr(need: int) returns (offset: nat)
      requires RxAllocated() && 0 < need && 0 < recvTotalLen
      modifies this`recvBuf, this`recvTotalLen
      ensures RxAllocated() && offset == recvCurLen && recvTotalLen - recvCurLen >= need
      ensures recvTotalLen == Grown(old(recvTotalLen), recvCurLen, need)
      ensures LeastDoubling(old(recvTotalLen), recvCurLen, need, recvTotalLen)
      ensures recvBuf[..recvCurLen] == old(recvBuf[..recvCurLen])
      ensures recvBuf == old(recvBuf) || fresh(recvBuf)
    {
      GrownIsLeast(recvTotalLen, recvCurLen, need);
      if recvTotalLen - recvCurLen >= need {
        return recvCurLen;
      }
      while recvTotalLen - recvCurLen < need
        invariant recvBuf == old(recvBuf) && recvTotalLen >= recvBuf.Length && 0 < recvTotalLen
        invariant Grown(recvTotalLen, recvCurLen, need) == Grown(old(recvTotalLen), recvCurLen, need)
        decreases need + recvCurLen - recvTotalLen
      {
        recvTotalLen := recvTotalLen * 2;
      }
      var newBuf := new byte[recvTotalLen];
      forall i | 0 <= i < recvCurLen {
        newBuf[i] := recvBuf[i];
      }
      recvBuf := newBuf;
      return recvCurLen;
    }

    /** One call of PynServerRecvData at the end of the received bytes, and the update of `iRecvCurLen`. */
    method ReceiveInto(n: nat) returns (ret: int)
      requires RxAllocated() && recvCurLen + n <= recvBuf.Length
      modifies this`recvCurLen, recvBuf, socket`queue
      ensures RxAllocated() && recvCurLen <= old(recvCurLen) + n
      ensures var rd := RecvData(old(socket.queue), n);
        && ret == rd.ret
        && Rx() == old(Rx()).(queue := rd.queue, data := old(Rx()).data + if rd.ret > 0 then rd.bytes else [])
    {
      ghost var q, was := socket.queue, recvBuf[..];
      ret := PynServerRecvData(socket, recvBuf, recvCurLen, n);
      RecvDataConserves(q, n);
      ghost var bytes := RecvData(q, n).bytes;
      assert recvBuf[..recvCurLen] == was[..recvCurLen];
      if ret > 0 {
        assert recvBuf[..recvCurLen + ret] == was[..recvCurLen] + bytes;
        recvCurLen := recvCurLen + ret;
      }
    }

    /** The first part of `ProcessRecvCallback`: receive the rest of the header and, once it is complete,
        check it and make room for the packet. `None` means that the second part follows. */
    method ReceiveHeader() returns (o: Option<R.Outcome>)
      requires RxAllocated() && R.RxInv(Rx()) && recvCurLen < PACKET_HEAD_LEN
      modifies this`recvBuf, this`recvTotalLen, this`recvCurLen, this`packetLen, recvBuf, socket`queue
      ensures RxAllocated() && (recvBuf == old(recvBuf) || fresh(recvBuf))
      ensures var h := R.HeaderPart(old(Rx())); o == h.1 && Rx() == h.0
    {
      hide LeastDoubling, Grown, RecvData, FromBe32, ToInt32;
      var ret := ReceiveInto(PACKET_HEAD_LEN - recvCurLen);
      if ret <= 0 {
        return Some(R.Destroyed);
      }
      if recvCurLen < PACKET_HEAD_LEN {
        return Some(R.Waiting);
      }
      ghost var received := Rx();
      assert recvBuf[..recvCurLen][1..5] == recvBuf[1..5];
      packetLen := ToInt32(FromBe32(recvBuf[PACKET_LEN_POS..PACKET_CMD_POS]));
      assert received.data[1..5] == recvBuf[1..5] && packetLen == PacketLen(received.data);
      if recvBuf[0] != PROTO_SOH || packetLen <= PACKET_BODY_POS {
        return Some(R.Destroyed);
      }
      if packetLen > PACKET_MAX_LEN {
        return Some(R.Destroyed);
      }
      var _ := ResizeRecvBufferPtr(packetLen - PACKET_HEAD_LEN);
      return None;
    }

    /** The second part: at most 4096 bytes of the rest of the packet. */
    method ReceiveBody() returns (o: R.Outcome)
      requires RxAllocated() && R.BodyReady(Rx())
      modifies this`recvCurLen, recvBuf, socket`queue
      ensures RxAllocated()
      ensures var s := R.BodyPart(old(Rx())); o == s.outcome && Rx() == Completed(s)
    {
      if packetLen <= 0 {
        return R.Destroyed;
      }
      var remainLen := packetLen - recvCurLen;
      var needRecvLen := if remainLen > R.RECV_CAP then R.RECV_CAP else remainLen;
      var ret := ReceiveInto(needRecvLen);
      if ret <= 0 {
        return R.Destroyed;
      }
      if recvCurLen < packetLen {
        return R.Waiting;
      }
      return R.Delivered(recvBuf[..recvCurLen]);
    }

    /** The state after an event, before a completed frame is cleared from the buffer. */
    static ghost function Completed(s: R.Step): R.Rx {
      match s.outcome
      case Delivered(f) => s.rx.(data := f, packetLen := |f|)
      case _ => s.rx
    }

    /** `ProcessRecvCallback` up to the completion of a frame, which is then still in the buffer. */
    method Receive() returns (o: R.Outcome)
      requires RxAllocated() && R.RxInv(Rx())
      modifies this`recvBuf, this`recvTotalLen, this`recvCurLen, this`packetLen, recvBuf, socket`queue
      ensures RxAllocated() && (recvBuf == old(recvBuf) || fresh(recvBuf))
      ensures var s := R.RecvEvent(old(Rx())); o == s.outcome && Rx() == Completed(s)
    {
      if recvCurLen < PACKET_HEAD_LEN {
        R.HeaderAchieves(Rx());
        var h := ReceiveHeader();
        if h.Some? {
          return h.value;
        }
      }
      o := ReceiveBody();
    }

    /** An event that finds `arrivals` on the socket, up to the completion of a frame. */
    method ReceiveEvent(arrivals: seq<Arrival>) returns (o: R.Outcome)
      requires ReceivedAs(past.rx) && R.HistoryInv(past.rx) && past.rx.alive
      modifies this`recvBuf, this`recvTotalLen, this`recvCurLen, this`packetLen, recvBuf, socket`queue
      ensures RxAllocated() && (recvBuf == old(recvBuf) || fresh(recvBuf))
      ensures var h := R.HistoryStep(past.rx, arrivals);
        && (o.Destroyed? <==> !h.alive)
        && (o.Waiting? ==> h.frames == past.rx.frames && Rx() == h.rx)
        && (o.Delivered? ==> h.frames == past.rx.frames + [o.frame] && Rx() == h.rx.(data := o.frame, packetLen := |o.frame|))
        && (o.Delivered? ==> h.rx.data == [] && h.rx.packetLen == 0)
    {
      socket.Arrive(arrivals);
      assert Rx() == past.rx.rx.(queue := past.rx.rx.queue + arrivals);
      R.EventAchieves(Rx());
      hide R.RecvEvent;
      o := Receive();
    }

    /** The end of `ProcessRecvCallback`: the buffer is free for the next packet. */
    method ClearPacket()
      modifies this`recvCurLen, this`packetLen
      ensures recvCurLen == 0 && packetLen == 0
    {
      recvCurLen := 0;
      packetLen := 0;
    }

    /** `ProcessEntirePacket` up to the choice of the handler. */
    method Dispatch() returns (d: Dispatch)
      requires RxAllocated() && 14 <= recvCurLen
      ensures d == DispatchOf(recvBuf[..recvCurLen])
    {
      var pack := PacketPack.FromBytes(recvBuf, recvCurLen);
      if pack == null {
        return Rejected;
      }
      var packet := pack.Read();
      if packet.cmd == CMD_TEST_VALUE {
        return TestCommand;
      } else if packet.cmd == CMD_TEST_ECHO {
        return Protocol.Dispatch.Echo;
      }
      return Unknown(packet.cmd);
    }

    // -------------------------------------------------------------------------------------------
    // Sending

    /** `ResizeSendBufferPtr`: an offset behind the pending bytes, or -1 when the growing path as written
        would copy more than the four bytes it allocates. */
    method ResizeSendBufferPtr(need: int, rev: Revision, ghost interest: bool) returns (offset: int)
      requires TxAllocated() && sendPacketLen <= sendTotalLen && 0 < sendTotalLen
      modifies this`sendBuf, this`sendTotalLen, this`sendCurLen, this`sendPacketLen, sendBuf
      ensures TxAllocated() && (sendBuf == old(sendBuf) || fresh(sendBuf))
      ensures match S.Resize(old(Tx(interest)), need, rev)
              case Overrun => offset == -1
              case Done(t) => Tx(interest) == t && offset == |t.bytes|
      ensures offset != -1 && sendTotalLen != old(sendTotalLen) ==>
        LeastDoubling(old(sendTotalLen), old(sendPacketLen), need, sendTotalLen)
    {
      GrownIsLeast(sendTotalLen, sendPacketLen, need);
      if sendTotalLen - sendPacketLen >= need {
        return sendPacketLen;
      }
      ghost var pending := sendBuf[sendCurLen..sendPacketLen];
      assert sendBuf[..sendPacketLen][sendCurLen..] == pending;
      var left := sendPacketLen - sendCurLen;
      if sendTotalLen - sendPacketLen + sendCurLen > need {
        forall i | 0 <= i < left {
          sendBuf[i] := sendBuf[sendCurLen + i];
        }
        sendPacketLen := left;
        sendCurLen := 0;
        assert sendBuf[..sendPacketLen] == pending;
        return sendPacketLen;
      }
      ghost var capacity := sendTotalLen;
      var total := sendTotalLen;
      while total - sendPacketLen < need
        invariant 0 < total
        invariant Grown(total, sendPacketLen, need) == Grown(capacity, sendPacketLen, need)
        decreases need + sendPacketLen - total
      {
        total := total * 2;
      }
      var room := if rev.AsWritten? then 4 else total;
      if left > room {
        return -1;
      }
      var newBuf := new byte[room];
      forall i | 0 <= i < left {
        newBuf[i] := sendBuf[sendCurLen + i];
      }
      sendBuf := newBuf;
      sendTotalLen := total;
      sendPacketLen := left;
      sendCurLen := 0;
      assert sendBuf[..sendPacketLen] == pending;
      return sendPacketLen;
    }

    /** `AppendPktToBuff(conn, NULL, len)`, without the registration of write interest: the packet has been
        built behind the pending bytes; as written, the start of the buffer is copied over it. The result tells of a
        copy that would leave the buffer; it is not made. */
    method AppendBuilt(len: nat, rev: Revision, ghost interest: bool) returns (overrun: bool)
      requires TxAllocated()
      modifies this`sendPacketLen, sendBuf
      ensures TxAllocated() && (overrun <==> old(sendPacketLen) + len > sendBuf.Length)
      ensures overrun ==> Tx(interest) == old(Tx(interest))
      ensures !overrun ==> var packet := old(sendBuf[sendPacketLen..sendPacketLen + len]);
        S.AppendBuilt(old(Tx(interest)), packet, rev) == S.Done(Tx(true))
    {
      if sendPacketLen + len > sendBuf.Length {
        return true;
      }
      ghost var start, packet := sendBuf[..sendPacketLen], sendBuf[sendPacketLen..sendPacketLen + len];
      ghost var head := sendBuf[..len];
      assert (start + packet)[..len] == head;
      if rev.AsWritten? {
        forall i | 0 <= i < len {
          sendBuf[sendPacketLen + i] := sendBuf[i];
        }
        assert sendBuf[sendPacketLen..sendPacketLen + len] == head;
      }
      assert sendBuf[..sendPacketLen] == start;
      assert sendBuf[..sendPacketLen + len] == sendBuf[..sendPacketLen] + sendBuf[sendPacketLen..sendPacketLen + len];
      sendPacketLen := sendPacketLen + len;
      return false;
    }

    /** `SendBackEcho`, without the registration of write interest. The result tells of a copy that would leave the
        send buffer; it is not made. */
    method SendBackEcho(ghost interest: bool) returns (overrun: bool)
      requires RxAllocated() && TxAllocated() && 0 <= packetLen <= recvCurLen && recvBuf != sendBuf
      modifies this`sendPacketLen, sendBuf
      ensures match S.Echo(old(Tx(interest)), recvBuf[..packetLen])
              case Overrun => overrun && TxAllocated() && Tx(interest) == old(Tx(interest))
              case Done(t) => !overrun && sendPacketLen == packetLen && sendBuf[..sendPacketLen] == recvBuf[..packetLen]
                              && (sendCurLen <= sendPacketLen ==> Tx(true) == t)
    {
      if packetLen > sendBuf.Length {
        return true;
      }
      forall i | 0 <= i < packetLen {
        sendBuf[i] := recvBuf[i];
      }
      sendPacketLen := packetLen;
      return false;
    }

    /** `ProcessSendCallback` without the registration. `drained` tells that write interest is to end. */
    method Transmit(ghost interest: bool) returns (alive: bool, drained: bool)
      requires TxAllocated()
      modifies this`sendCurLen, this`sendPacketLen, socket`script, socket`written
      ensures TxAllocated()
      ensures var s := S.SendEvent(old(Tx(interest)), socket.fd, old(socket.script));
        && alive == s.alive && socket.script == s.script && socket.written == old(socket.written) + s.written
        && Tx(if drained then false else interest) == s.tx
      ensures drained ==> old(sendPacketLen) > 0
    {
      hide SendLoop;
      if 0 >= sendPacketLen {
        return true, false;
      }
      ghost var t, script := Tx(interest), socket.script;
      SendLoopBound(script, sendPacketLen - sendCurLen, 0);
      var ret := PynServerSendData(socket, sendBuf, sendCurLen, sendPacketLen - sendCurLen);
      ghost var count := SendData(socket.fd, script, sendPacketLen - sendCurLen).count;
      SliceOfPrefix(sendBuf[..], sendPacketLen, sendCurLen, count);
      assert S.SendEvent(t, socket.fd, script).written == S.Pending(t)[..count];
      if ret < 0 {
        return false, false;
      }
      sendCurLen := sendCurLen + ret;
      if sendPacketLen == sendCurLen {
        sendPacketLen := 0;
        sendCurLen := 0;
        return true, true;
      }
      return true, false;
    }

    /** `ProcessSendCallback` on the connection alone. */
    method SendEvent(ghost rev: Revision) returns (alive: bool, drained: bool)
      requires SentAs(past.tx) && S.Fifo(past.tx) && past.tx.alive
      modifies this`sendCurLen, this`sendPacketLen, socket`script, socket`written
      ensures var tx := S.TxStep(past.tx, socket.fd, S.Writable(old(socket.script)), rev);
        alive == tx.alive && (alive ==> SentAs(tx) && (drained <==> past.tx.tx.interest && !tx.tx.interest))
    {
      hide S.SendEvent, S.Pending;
      ghost var h := past.tx;
      assert Tx(h.tx.interest) == h.tx && sendPacketLen == |h.tx.bytes|;
      alive, drained := Transmit(h.tx.interest);
    }

    /** The end of an event: from here on `conn` is the value of the connection. */
    ghost method Settle(conn: M.Conn<TimeoutEvent>)
      requires recvBuf != sendBuf && ReceivedAs(conn.rx) && SentAs(conn.tx)
      modifies this`past
      ensures past == conn && Valid()
    {
      past := conn;
    }

    /** Building a packet in the room behind the pending bytes; it carries the command that
        PacketPack.SetPacketCmd leaves in the buffer. */
    method BuildInPlace(packet: Packet, total: int, rev: Revision) returns (len: nat, ghost carried: Packet)
      requires TxAllocated() && |packet.body| + 14 < 0x1_0000_0000 && sendPacketLen + |packet.body| + 14 <= sendBuf.Length
      modifies sendBuf
      ensures carried == packet.(cmd := carried.cmd) && (rev.AsIntended? ==> carried == packet)
      ensures len == |packet.body| + 14 && sendPacketLen + len <= sendBuf.Length
      ensures sendBuf[..sendPacketLen] == old(sendBuf[..sendPacketLen])
      ensures sendBuf[sendPacketLen..sendPacketLen + len] == Encode(carried)
    {
      hide Overwrite, Encode, Carried;
      ghost var was := sendBuf[..];
      carried := Carried(was, sendPacketLen, packet, rev);
      CarriedIs(was, sendPacketLen, packet, rev);
      len := BuildPacket(sendBuf, sendPacketLen, total, packet, rev);
      OverwriteParts(was, sendPacketLen, Encode(carried));
      assert sendBuf[..sendPacketLen] == sendBuf[..][..sendPacketLen];
      assert sendBuf[sendPacketLen..sendPacketLen + len] == sendBuf[..][sendPacketLen..sendPacketLen + len];
    }

    /** `ProcessTestBinProtocol`, without the registration of write interest: room for the request's body and 128
        bytes, an answer built in place whose body is that long, and the append. `overrun` tells of a write that would
        leave the buffer, upon which the model stops. */
    method ProcessTestBinProtocol(request: Packet, filler: nat -> byte, rev: Revision, ghost interest: bool)
        returns (overrun: bool, ghost carried: Packet)
      requires TxAllocated() && S.TxInv(Tx(interest)) && |request.body| + 14 <= PACKET_MAX_LEN
      modifies this`sendBuf, this`sendTotalLen, this`sendCurLen, this`sendPacketLen, sendBuf
      ensures TxAllocated() && (sendBuf == old(sendBuf) || fresh(sendBuf))
      ensures carried == Answer(request, carried.cmd, filler) && (rev.AsIntended? ==> carried.cmd == request.cmd)
      ensures match S.SendPacket(old(Tx(interest)), Encode(carried), |request.body| + 128, rev)
              case Overrun => overrun
              case Done(t) => !overrun && Tx(true) == t
    {
      hide S.Resize, S.AppendBuilt, Encode, Answer, S.TxInv, S.Pending;
      ghost var t := Tx(interest);
      S.Counters(t);
      var length := |request.body| + 128;
      var packet := Answer(request, request.cmd, filler);
      AnswerParts(request, request.cmd, filler);
      carried := packet;
      var offset := ResizeSendBufferPtr(length, rev, interest);
      if offset == -1 {
        return true, carried;
      }
      ghost var t1 := Tx(interest);
      if offset + length + 14 > sendBuf.Length {
        S.TooLong(t1, Encode(carried), rev);
        return true, carried;
      }
      var len;
      len, carried := BuildInPlace(packet, length, rev);
      AnswerParts(request, carried.cmd, filler);
      assert Tx(interest) == t1;
      overrun := AppendBuilt(len, rev, interest);
    }

    /** Writing a packet's bytes into the room behind the pending ones. */
    method PutInPlace(packet: seq<byte>)
      requires TxAllocated() && sendPacketLen + |packet| <= sendBuf.Length
      modifies sendBuf
      ensures sendBuf[..sendPacketLen] == old(sendBuf[..sendPacketLen])
      ensures sendBuf[sendPacketLen..sendPacketLen + |packet|] == packet
    {
      forall i | 0 <= i < |packet| {
        sendBuf[sendPacketLen + i] := packet[i];
      }
    }

    /** A packet of known bytes that fits: room, the packet put in place, the append. */
    method SendBytes(packet: seq<byte>, need: int, rev: Revision, ghost h: S.TxHistory)
      requires SentAs(h) && S.TxInv(h.tx) && h.alive
      requires S.Proper(S.Send(packet, need)) && S.SoundTx(h.tx, S.Send(packet, need), rev)
      modifies this`sendBuf, this`sendTotalLen, this`sendCurLen, this`sendPacketLen, sendBuf
      ensures SentAs(S.TxStep(h, socket.fd, S.Send(packet, need), rev)) && (sendBuf == old(sendBuf) || fresh(sendBuf))
    {
      hide S.Resize, S.AppendBuilt, S.RoomBehind, S.Pending;
      ghost var interest := h.tx.interest;
      S.SoundSendRoom(h.tx, packet, need, rev);
      ghost var t := S.Resize(h.tx, need, rev).tx;
      var _ := ResizeSendBufferPtr(need, rev, interest);
      PutInPlace(packet);
      assert Tx(interest) == t && sendBuf[sendPacketLen..sendPacketLen + |packet|] == packet;
      var _ := AppendBuilt(|packet|, rev, interest);
      assert S.SendPacket(h.tx, packet, need, rev) == S.Done(Tx(true));
    }

    /** The answer of the test command's handler when there is room for it. As intended the handler's own calls build it;
        as written it carries the command that the buffer happens to hold, which `reply` tells, and its bytes are put
        in place. */
    method SendAnswer(request: Packet, reply: Reply, rev: Revision, ghost h: S.TxHistory)
      requires SentAs(h) && S.TxInv(h.tx) && h.alive && |request.body| + 14 <= PACKET_MAX_LEN
      requires S.SoundTx(h.tx, M.AnswerSent(request, reply, rev), rev)
      modifies this`sendBuf, this`sendTotalLen, this`sendCurLen, this`sendPacketLen, sendBuf
      ensures SentAs(S.TxStep(h, socket.fd, M.AnswerSent(request, reply, rev), rev))
      ensures sendBuf == old(sendBuf) || fresh(sendBuf)
    {
      hide S.TxInv, S.SoundTx, S.SendPacket, S.Pending, Encode, Answer;
      var packet := Encode(M.TestAnswer(request, reply, rev));
      S.SoundSendIsDone(h.tx, packet, ReplyNeed(|request.body| + 14), rev);
      match rev
      case AsIntended =>
        AnswerParts(request, request.cmd, reply.filler);
        ghost var carried;
        var overrun;
        overrun, carried := ProcessTestBinProtocol(request, reply.filler, rev, h.tx.interest);
        AnswerParts(request, carried.cmd, reply.filler);
        assert Encode(carried) == packet;
      case AsWritten =>
        SendBytes(packet, ReplyNeed(|request.body| + 14), rev, h);
    }

    /** The echo of the packet in the receive buffer. */
    method SendEcho(rev: Revision, ghost h: S.TxHistory)
      requires RxAllocated() && 0 <= packetLen == recvCurLen && recvBuf != sendBuf
      requires SentAs(h) && S.TxInv(h.tx) && h.alive && S.SoundTx(h.tx, S.SendEcho(recvBuf[..recvCurLen]), rev)
      modifies this`sendPacketLen, sendBuf
      ensures SentAs(old(S.TxStep(h, socket.fd, S.SendEcho(recvBuf[..recvCurLen]), rev)))
    {
      var _ := SendBackEcho(h.tx.interest);
    }
  }

  lemma AnswerParts(request: Packet, cmd: u32, filler: nat -> byte)
    ensures var a := Answer(request, cmd, filler); a.cmd == cmd && a == Answer(request, request.cmd, filler).(cmd := cmd)
  {}

  lemma CarriedIs(s: seq<byte>, start: nat, p: Packet, rev: Revision)
    requires start + 14 <= |s|
    ensures var c := Carried(s, start, p, rev); c == p.(cmd := c.cmd) && (rev.AsIntended? ==> c == p)
  {}

  lemma OverwriteParts(s: seq<byte>, at: nat, bytes: seq<byte>)
    requires at + |bytes| <= |s|
    ensures var r := Overwrite(s, at, bytes); r[..at] == s[..at] && r[at..at + |bytes|] == bytes
  {}

  lemma SliceOfPrefix(b: seq<byte>, n: nat, lo: nat, k: nat)
    requires lo + k <= n <= |b|
    ensures b[..n][lo..][..k] == b[lo..lo + k]
  {}
}
