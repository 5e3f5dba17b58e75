// The outbound buffer of src/socket_util.c on values: the window of pending bytes, its growth, the
// appending of packets and the writable event.

module Sender {
  import opened Bytes
  import opened Doubling
  import opened Protocol
  import opened SocketModel
  import opened HeapModel

  const MAX_TCP_BUF_SIZE := 4096

  /** The sending half of a connection: the first `iSendPacketLen` bytes of the buffer, of which `cur`
      (`iSendCurLen`) have been sent; `iSendTotalLen`; the length that is really allocated; and whether
      EVENT_WRITABLE is registered. */
  datatype Tx = Tx(bytes: seq<byte>, cur: nat, capacity: nat, room: nat, interest: bool)

  function Fresh(): Tx {
    Tx([], 0, MAX_TCP_BUF_SIZE, MAX_TCP_BUF_SIZE, false)
  }

  /** The bytes waiting to be sent. */
  function Pending(t: Tx): seq<byte>
    requires t.cur <= |t.bytes|
  {
    t.bytes[t.cur..]
  }

  /** The window lies in the buffer, the buffer is as long as on record, and write interest is registered
      exactly while something is to be sent. */
  ghost predicate TxInv(t: Tx) {
    && t.cur <= |t.bytes| <= t.capacity == t.room
    && MAX_TCP_BUF_SIZE <= t.capacity
    && (t.interest <==> |t.bytes| > 0)
    && (|t.bytes| > 0 ==> t.cur < |t.bytes|)
  }

  /** A buffer operation's result, or a write beyond the allocated memory. */
  datatype Effect = Done(tx: Tx) | Overrun

  /** The test by which `ResizeSendBufferPtr` takes its last path and allocates. */
  predicate Grows(t: Tx, need: int) {
    t.capacity - |t.bytes| < need && t.capacity - |t.bytes| + t.cur <= need
  }

  /** `ResizeSendBufferPtr`; packets are then written from offset `|bytes|` on. As written, the growing path
      allocates `sizeof` the capacity variable, four bytes, instead of the capacity. */
  function Resize(t: Tx, need: int, rev: Revision): Effect
    requires t.cur <= |t.bytes| && 0 < t.capacity
  {
    if t.capacity - |t.bytes| >= need then Done(t)
    else if t.capacity - |t.bytes| + t.cur > need then Done(t.(bytes := Pending(t), cur := 0))
    else
      var capacity := Grown(t.capacity, |t.bytes|, need);
      var room := if rev.AsWritten? then 4 else capacity;
      if |Pending(t)| > room then Overrun
      else Done(t.(bytes := Pending(t), cur := 0, capacity := capacity, room := room))
  }

  /** Building a packet in place behind the window, then `AppendPktToBuff(conn, NULL, len)`. As written, the
      latter copies the start of the buffer over the packet. */
  function AppendBuilt(t: Tx, packet: seq<byte>, rev: Revision): Effect {
    if |t.bytes| + |packet| > t.room then Overrun
    else
      var source := if rev.AsWritten? then (t.bytes + packet)[..|packet|] else packet;
      Done(t.(bytes := t.bytes + source, interest := true))
  }

  /** The send path of the packet handlers: ask for room, build the packet there, append it. */
  function SendPacket(t: Tx, packet: seq<byte>, need: int, rev: Revision): Effect
    requires t.cur <= |t.bytes| && 0 < t.capacity
  {
    match Resize(t, need, rev)
    case Overrun => Overrun
    case Done(t1) => AppendBuilt(t1, packet, rev)
  }

  /** `SendBackEcho`: the received packet overwrites the buffer from its start. */
  function Echo(t: Tx, packet: seq<byte>): Effect {
    if |packet| > t.room then Overrun else Done(t.(bytes := packet, interest := true))
  }

  /** The result of a writable event: whether the connection survives, and the bytes that reached the
      socket. */
  datatype SendStep = SendStep(tx: Tx, alive: bool, written: seq<byte>, script: seq<Acceptance>)

  /** `ProcessSendCallback` */
  function SendEvent(t: Tx, fd: int, script: seq<Acceptance>): SendStep
    requires t.cur <= |t.bytes|
  {
    if |t.bytes| <= 0 then SendStep(t, true, [], script)
    else
      var s := SendData(fd, script, |t.bytes| - t.cur);
      SendLoopBound(script, |t.bytes| - t.cur, 0);
      var written := Pending(t)[..s.count];
      if s.ret < 0 then SendStep(t, false, written, s.script)
      else if t.cur + s.count == |t.bytes|
      then SendStep(t.(bytes := [], cur := 0, interest := false), true, written, s.script)
      else SendStep(t.(cur := t.cur + s.count), true, written, s.script)
  }

  // ---------------------------------------------------------------------------------------------
  // Room

  lemma PendingIs(t: Tx)
    requires t.cur <= |t.bytes|
    ensures Pending(t) == t.bytes[t.cur..]
  {}

  /** Each of the three paths keeps the pending bytes in order; what differs is the room. The caller gets
      the room it asked for, within the allocated buffer, exactly when the growing path is not taken or
      allocates what was meant. */
  lemma ResizeExact(t: Tx, need: int, rev: Revision)
    requires TxInv(t)
    ensures var e := Resize(t, need, rev);
      && (e.Done? ==> e.tx.cur <= |e.tx.bytes| && Pending(e.tx) == Pending(t) && e.tx.interest == t.interest)
      && (e.Done? && |e.tx.bytes| + need <= e.tx.room <==> rev.AsIntended? || !Grows(t, need))
    ensures rev.AsIntended? || !Grows(t, need) ==>
      var r := Resize(t, need, rev).tx; TxInv(r) && r.room - |r.bytes| == RoomBehind(t, need)
    ensures rev.AsWritten? && Grows(t, need) ==> Resize(t, need, rev).Overrun? || Resize(t, need, rev).tx.room != Resize(t, need, rev).tx.capacity
  {
    hide Grown, Pending;
    PendingIs(t);
    var p := Pending(t);
    assert p[0..] == p;
    forall u: Tx | u.bytes == p && u.cur == 0 ensures Pending(u) == p {
      PendingIs(u);
    }
  }

  /** The three paths. The bytes behind the pending ones suffice: nothing changes. They suffice, by at least a byte, once
      the bytes that have been sent are dropped: these are dropped. Otherwise they are dropped, too, and the recorded
      capacity becomes the smallest doubling that leaves the bytes asked for behind all of the old ones; the buffer is as
      long as that if the line is as intended, and four bytes long as written. */
  lemma ResizePaths(t: Tx, need: int, rev: Revision)
    requires TxInv(t)
    ensures t.capacity - |t.bytes| >= need ==> Resize(t, need, rev) == Done(t)
    ensures t.capacity - |t.bytes| < need < t.capacity - |Pending(t)| ==>
      Resize(t, need, rev) == Done(Tx(Pending(t), 0, t.capacity, t.capacity, t.interest))
    ensures t.capacity - |t.bytes| < need && t.capacity - |Pending(t)| <= need ==>
      match Resize(t, need, rev)
      case Overrun => rev.AsWritten? && |Pending(t)| > 4
      case Done(r) =>
        && r.bytes == Pending(t) && r.cur == 0 && r.interest == t.interest
        && LeastDoubling(t.capacity, |t.bytes|, need, r.capacity) && r.capacity > t.capacity
        && (if rev.AsWritten? then |Pending(t)| <= 4 == r.room else r.room == r.capacity)
  {
    GrownIsLeast(t.capacity, |t.bytes|, need);
  }

  /** The bytes behind the pending ones, up to the end of the buffer, after a call of `ResizeSendBufferPtr`. */
  function RoomBehind(t: Tx, need: int): int
    requires t.cur <= |t.bytes| && 0 < t.capacity
  {
    if t.capacity - |t.bytes| >= need then t.capacity - |t.bytes|
    else if !Grows(t, need) then t.capacity - |Pending(t)|
    else Grown(t.capacity, |t.bytes|, need) - |Pending(t)|
  }

  // ---------------------------------------------------------------------------------------------
  // Appending

  /** The operation has put `packet` behind the pending bytes. */
  ghost predicate Appends(t: Tx, packet: seq<byte>, e: Effect)
    requires t.cur <= |t.bytes|
  {
    e.Done? && TxInv(e.tx) && Pending(e.tx) == Pending(t) + packet
  }

  /** Appending a packet that was built in place puts it behind the pending bytes exactly when there is room
      for it, and the copy is left out as intended or the buffer already starts with the packet's bytes. The
      latter is so when nothing has been buffered before. */
  lemma AppendBuiltExact(t: Tx, packet: seq<byte>, rev: Revision)
    requires TxInv(t) && packet != []
    ensures Appends(t, packet, AppendBuilt(t, packet, rev)) <==>
      |t.bytes| + |packet| <= t.room && (rev.AsIntended? || (t.bytes + packet)[..|packet|] == packet)
    ensures t.bytes == [] && |packet| <= t.room ==> Appends(t, packet, AppendBuilt(t, packet, rev))
  {
    var source := if rev.AsWritten? then (t.bytes + packet)[..|packet|] else packet;
    if |t.bytes| + |packet| <= t.room {
      var e := AppendBuilt(t, packet, rev);
      assert TxInv(e.tx) && Pending(e.tx) == Pending(t) + source;
      if Pending(e.tx) == Pending(t) + packet {
        assert source == (Pending(t) + source)[|Pending(t)|..] == (Pending(t) + packet)[|Pending(t)|..] == packet;
      }
      if t.bytes == [] {
        assert t.bytes + packet == packet;
      }
    }
  }

  /** A packet sent with `need` bytes asked for: it joins the pending bytes exactly when it fits into the
      room that there is after the call, and, as written, the buffer need not grow and then starts with the
      packet's bytes. The room asked for does not matter otherwise. */
  lemma SendExact(t: Tx, packet: seq<byte>, need: int, rev: Revision)
    requires TxInv(t) && packet != []
    ensures Appends(t, packet, SendPacket(t, packet, need, rev)) <==>
      && |packet| <= RoomBehind(t, need)
      && (rev.AsIntended? || (!Grows(t, need) && (Resize(t, need, rev).tx.bytes + packet)[..|packet|] == packet))
    ensures rev.AsIntended? || !Grows(t, need) ==>
      (SendPacket(t, packet, need, rev).Overrun? <==> |packet| > RoomBehind(t, need))
  {
    hide Resize, RoomBehind, Grows, Pending;
    ResizeExact(t, need, rev);
    if rev.AsIntended? || !Grows(t, need) {
      AppendBuiltExact(Resize(t, need, rev).tx, packet, rev);
    }
  }

  lemma SoundSendRoom(t: Tx, packet: seq<byte>, need: int, rev: Revision)
    requires TxInv(t) && Proper(Send(packet, need)) && SoundTx(t, Send(packet, need), rev)
    ensures Resize(t, need, rev).Done?
    ensures var r := Resize(t, need, rev).tx;
      r.cur <= |r.bytes| && |r.bytes| + |packet| <= r.room && r.interest == t.interest
  {
    hide Resize, RoomBehind, Pending;
    ResizeExact(t, need, rev);
  }

  lemma SoundSendIsDone(t: Tx, packet: seq<byte>, need: int, rev: Revision)
    requires TxInv(t) && packet != [] && SoundTx(t, Send(packet, need), rev)
    ensures t.cur <= |t.bytes| && 0 < t.capacity
    ensures SendPacket(t, packet, need, rev).Done? && SendPacket(t, packet, need, rev).tx.interest
  {
    hide RoomBehind, Pending;
    SendExact(t, packet, need, rev);
  }

  lemma TooLong(t: Tx, packet: seq<byte>, rev: Revision)
    requires |t.bytes| + |packet| > t.room
    ensures AppendBuilt(t, packet, rev) == Overrun
  {}

  lemma FifoLive(h: TxHistory)
    requires Fifo(h) && h.alive
    ensures TxInv(h.tx)
  {}

  lemma Counters(t: Tx)
    requires TxInv(t)
    ensures t.cur <= |t.bytes| <= t.capacity && 0 < t.capacity
  {}

  /** The defect in action, for any two packets of equal length: if the second is sent while the first is
      still waiting, the peer gets the first one twice and the second never. */
  lemma SecondPacketLost(p: seq<byte>, q: seq<byte>, need: int)
    requires |p| == |q| > 0 && |p| + |q| <= MAX_TCP_BUF_SIZE && |p| + need <= MAX_TCP_BUF_SIZE
    ensures Appends(Fresh(), p, SendPacket(Fresh(), p, need, AsWritten))
    ensures var t := SendPacket(Fresh(), p, need, AsWritten).tx;
      SendPacket(t, q, need, AsWritten).Done? && Pending(SendPacket(t, q, need, AsWritten).tx) == p + p
  {
    assert [] + p == p && p[..|p|] == p;
    assert (p + q)[..|q|] == p;
  }

  /** An echo joins the pending bytes exactly when nothing is buffered and the packet fits into the buffer. */
  lemma EchoExact(t: Tx, packet: seq<byte>)
    requires TxInv(t) && packet != []
    ensures var e := Echo(t, packet);
      && (e.Overrun? <==> |packet| > t.room)
      && (e.Done? && e.tx.cur <= |e.tx.bytes| && Pending(e.tx) == Pending(t) + packet <==> t.bytes == [] && |packet| <= t.room)
      && (t.bytes == [] && |packet| <= t.room ==> TxInv(e.tx))
  {
    if t.bytes == [] {
      assert packet[0..] == packet && [] + packet == packet;
    } else {
      assert |Pending(t)| + |packet| > |packet|;
    }
  }

  /** Any legal packet of more than 4096 bytes, echoed to a peer that has just connected. */
  lemma LongEchoOverruns(packet: seq<byte>)
    requires |packet| > 4096
    ensures TxInv(Fresh()) && Echo(Fresh(), packet) == Overrun
  {}

  // ---------------------------------------------------------------------------------------------
  // The reply of the test command's handler

  /** The answer to a packet of `n` bytes, for which the handler asks room for its body and 128 bytes and which is a packet
      with a body of that length, joins the pending bytes exactly when the room that there is after the
      call happens to exceed the room asked for by 14 bytes. When it does not, the answer overruns the buffer, even
      with the lines as intended. */
  lemma ReplyExact(t: Tx, n: nat, packet: seq<byte>, rev: Revision)
    requires TxInv(t) && n >= 14 && |packet| == n + 128
    ensures Appends(t, packet, SendPacket(t, packet, n + 114, rev)) <==>
      && RoomBehind(t, n + 114) - (n + 114) >= 14
      && (rev.AsIntended? ||
          (!Grows(t, n + 114) && (Resize(t, n + 114, rev).tx.bytes + packet)[..|packet|] == packet))
    ensures RoomBehind(t, n + 114) >= n + 114
    ensures SendPacket(t, packet, n + 114, AsIntended).Overrun? <==> RoomBehind(t, n + 114) - (n + 114) < 14
  {
    SendExact(t, packet, n + 114, rev);
    SendExact(t, packet, n + 114, AsIntended);
  }

  /** On a fresh connection, for either revision: bodies up to 3954 bytes are answered, and bodies of 3955 to 3968
      bytes make the handler write behind the buffer. */
  lemma FirstReply(body: nat, packet: seq<byte>, rev: Revision)
    requires body <= 3968 && |packet| == body + 142
    ensures var e := SendPacket(Fresh(), packet, body + 128, rev);
      && (body <= 3954 ==> Appends(Fresh(), packet, e) && Pending(e.tx) == packet)
      && (body > 3954 ==> e == Overrun)
  {
    assert [] + packet == packet && packet[..|packet|] == packet;
  }

  /** The sizes that a buffer of 4096 bytes can grow to, up to a megabyte. */
  predicate BufferSize(c: int) {
    c in {4096, 8192, 16384, 32768, 65536, 131072, 262144, 524288, 1048576}
  }

  /** With the buffer growing as intended: the first answer on a connection, to a packet with a body of any legal length,
      overruns the buffer exactly when its body length falls short of a buffer size by 128 to 141 bytes. */
  lemma FirstReplyIntended(body: nat, packet: seq<byte>)
    requires body + 14 <= PACKET_MAX_LEN && |packet| == body + 142
    ensures SendPacket(Fresh(), packet, body + 128, AsIntended) == Overrun <==>
      exists c :: BufferSize(c) && c - 141 <= body <= c - 128
  {
    hide Grown, Resize, RoomBehind, SendPacket, Pending;
    var need := body + 128;
    SendExact(Fresh(), packet, need, AsIntended);
    GrownFrom4096(need);
    FreshRoom(need);
    var c := Grown(4096, 0, need);
    if c - 14 < need {
      assert BufferSize(c) && c - 141 <= body <= c - 128;
    }
    SendDoneOr(Fresh(), packet, need);
  }

  lemma FreshRoom(need: int)
    requires 0 < need
    ensures RoomBehind(Fresh(), need) == Grown(4096, 0, need)
  {}

  lemma SendDoneOr(t: Tx, packet: seq<byte>, need: int)
    requires t.cur <= |t.bytes| && 0 < t.capacity
    ensures SendPacket(t, packet, need, AsIntended) == Overrun <==> SendPacket(t, packet, need, AsIntended).Overrun?
  {}

  /** The doublings of 4096 up to two megabytes. */
  lemma GrownFrom4096(need: int)
    requires need <= 0x10_0080
    ensures var c := Grown(4096, 0, need);
      && (BufferSize(c) || c == 2097152)
      && need <= c && (c > 4096 ==> c < 2 * need)
  {
    assert Grown(2097152, 0, need) == 2097152;
    assert Grown(524288, 0, need) == if need <= 524288 then 524288 else if need <= 1048576 then 1048576 else 2097152;
    assert Grown(131072, 0, need) == if need <= 131072 then 131072 else if need <= 262144 then 262144 else Grown(524288, 0, need);
    assert Grown(32768, 0, need) == if need <= 32768 then 32768 else if need <= 65536 then 65536 else Grown(131072, 0, need);
    assert Grown(8192, 0, need) == if need <= 8192 then 8192 else if need <= 16384 then 16384 else Grown(32768, 0, need);
  }

  // ---------------------------------------------------------------------------------------------
  // Runs

  /** What happens to the sending half: a handler sends a packet, having asked for `need` bytes of room, or
      echoes one, or the socket becomes writable. */
  datatype TxEvent = Send(packet: seq<byte>, need: int) | SendEcho(packet: seq<byte>) | Writable(script: seq<Acceptance>)

  /** `wire` is what the socket has taken, `appended` all that was sent; both record history. */
  datatype TxHistory = TxHistory(tx: Tx, wire: seq<byte>, appended: seq<byte>, alive: bool)

  /** Packets are not empty. */
  predicate Proper(e: TxEvent) {
    match e
    case Send(p, need) => p != []
    case SendEcho(p) => p != []
    case Writable(_) => true
  }

  /** The event stays clear of the defective lines: to send, there is room for the packet after the call that asks
      for it, and, as written, the buffer need not grow and then starts with the packet's bytes, as an empty one
      does; to echo, the buffer is empty and long enough. */
  ghost predicate SoundTx(t: Tx, e: TxEvent, rev: Revision)
    requires t.cur <= |t.bytes| && 0 < t.capacity
  {
    match e
    case Send(p, need) =>
      && |p| <= RoomBehind(t, need)
      && (rev.AsIntended? || (!Grows(t, need) && (Resize(t, need, rev).tx.bytes + p)[..|p|] == p))
    case SendEcho(p) => t.bytes == [] && |p| <= t.room
    case Writable(_) => true
  }

  function TxStep(h: TxHistory, fd: int, e: TxEvent, rev: Revision): TxHistory
    requires h.tx.cur <= |h.tx.bytes| && 0 < h.tx.capacity
  {
    if !h.alive then h
    else
      match e
      case Send(p, need) =>
        (match SendPacket(h.tx, p, need, rev)
         case Overrun => h.(appended := h.appended + p, alive := false)
         case Done(t) => h.(tx := t, appended := h.appended + p))
      case SendEcho(p) =>
        (match Echo(h.tx, p)
         case Overrun => h.(appended := h.appended + p, alive := false)
         case Done(t) => h.(tx := t, appended := h.appended + p))
      case Writable(script) =>
        var s := SendEvent(h.tx, fd, script);
        TxHistory(s.tx, h.wire + s.written, h.appended, s.alive)
  }

  /** First in, first out, nothing lost, nothing twice: what the socket has taken is a beginning of what was
      sent, and on a live connection the pending bytes are exactly the rest. */
  ghost predicate Fifo(h: TxHistory) {
    && h.tx.cur <= |h.tx.bytes| && 0 < h.tx.capacity
    && h.wire <= h.appended
    && (h.alive ==> TxInv(h.tx) && h.wire + Pending(h.tx) == h.appended)
  }

  lemma SendKeepsFifo(h: TxHistory, fd: int, packet: seq<byte>, need: int, rev: Revision)
    requires Fifo(h) && h.alive && Proper(Send(packet, need)) && SoundTx(h.tx, Send(packet, need), rev)
    ensures Fifo(TxStep(h, fd, Send(packet, need), rev)) && TxStep(h, fd, Send(packet, need), rev).alive
  {
    SendExact(h.tx, packet, need, rev);
    Associate(h.wire, Pending(h.tx), packet);
  }

  /** The window after `k` of its bytes have been taken. */
  lemma WindowSplits(bytes: seq<byte>, cur: nat, k: nat)
    requires cur + k <= |bytes|
    ensures bytes[cur..] == bytes[cur..][..k] + bytes[cur + k..]
    ensures bytes[cur..][..k] <= bytes[cur..]
    ensures cur + k == |bytes| ==> bytes[cur..][..k] == bytes[cur..]
  {}

  /** A writable event takes bytes off the front of the window; when the window becomes empty write interest
      ends. */
  lemma SendEventTakes(t: Tx, fd: int, script: seq<Acceptance>)
    requires TxInv(t)
    ensures var s := SendEvent(t, fd, script);
      && s.written <= Pending(t)
      && (s.alive ==> TxInv(s.tx) && Pending(t) == s.written + Pending(s.tx))
  {
    hide SendLoop, Pending;
    if |t.bytes| > 0 {
      var k := SendData(fd, script, |t.bytes| - t.cur).count;
      SendLoopBound(script, |t.bytes| - t.cur, 0);
      PendingIs(t);
      WindowSplits(t.bytes, t.cur, k);
      var s := SendEvent(t, fd, script);
      PendingIs(s.tx);
      assert t.cur + k == |t.bytes| ==> s.written + [] == s.written;
    } else {
      PendingIs(t);
    }
  }

  lemma WritableKeepsFifo(h: TxHistory, fd: int, script: seq<Acceptance>, rev: Revision)
    requires Fifo(h) && h.alive
    ensures Fifo(TxStep(h, fd, Writable(script), rev))
  {
    var s := SendEvent(h.tx, fd, script);
    SendEventTakes(h.tx, fd, script);
    Associate(h.wire, s.written, Pending(h.tx)[|s.written|..]);
    if s.alive {
      Associate(h.wire, s.written, Pending(s.tx));
    }
  }

  /** Any writable event, whatever the socket takes: the connection survives exactly when nothing is buffered, or its
      descriptor is not 0, which PynServerSendData refuses, and no error comes before all pending bytes are taken. Then
      as many of them have gone as the socket takes, and write interest ends when these are all. */
  lemma WritableExact(t: Tx, fd: nat, script: seq<Acceptance>)
    requires TxInv(t)
    ensures var s, n, k := SendEvent(t, fd, script), |Pending(t)|, Taken(script);
      && (s.alive <==> t.bytes == [] || (fd != 0 && (k >= n || !Fatal(script))))
      && (s.alive ==> s.written == Pending(t)[..if k >= n then n else k])
      && (s.alive && t.bytes != [] ==> (s.tx.interest <==> k < n))
  {
    hide SendLoop, Taken, Fatal;
    if t.bytes != [] {
      SendLoopExact(script, |t.bytes| - t.cur, 0);
      SendLoopBound(script, |t.bytes| - t.cur, 0);
    }
  }

  lemma EchoKeepsFifo(h: TxHistory, fd: int, packet: seq<byte>, rev: Revision)
    requires Fifo(h) && h.alive && Proper(SendEcho(packet)) && SoundTx(h.tx, SendEcho(packet), rev)
    ensures Fifo(TxStep(h, fd, SendEcho(packet), rev)) && TxStep(h, fd, SendEcho(packet), rev).alive
  {
    EchoExact(h.tx, packet);
    Associate(h.wire, Pending(h.tx), packet);
  }

  lemma LiveStepKeepsFifo(h: TxHistory, fd: int, e: TxEvent, rev: Revision)
    requires Fifo(h) && h.alive && Proper(e) && SoundTx(h.tx, e, rev)
    ensures Fifo(TxStep(h, fd, e, rev))
    ensures !e.Writable? ==> TxStep(h, fd, e, rev).alive && TxStep(h, fd, e, rev).tx.interest
  {
    match e
    case Send(p, need) => SendKeepsFifo(h, fd, p, need, rev);
    case SendEcho(p) => EchoKeepsFifo(h, fd, p, rev);
    case Writable(script) => WritableKeepsFifo(h, fd, script, rev);
  }

  lemma TxStepKeepsFifo(h: TxHistory, fd: int, e: TxEvent, rev: Revision)
    requires Fifo(h) && Proper(e) && (h.alive ==> SoundTx(h.tx, e, rev))
    ensures Fifo(TxStep(h, fd, e, rev))
    ensures h.alive && !e.Writable? ==> TxStep(h, fd, e, rev).alive && TxStep(h, fd, e, rev).tx.interest
  {
    if h.alive {
      LiveStepKeepsFifo(h, fd, e, rev);
    }
  }

  ghost predicate SoundTxRun(h: TxHistory, fd: int, es: seq<TxEvent>, rev: Revision)
    requires Fifo(h)
    decreases |es|
  {
    es == [] ||
    (Proper(es[0]) && (h.alive ==> SoundTx(h.tx, es[0], rev)) &&
     (TxStepKeepsFifo(h, fd, es[0], rev); SoundTxRun(TxStep(h, fd, es[0], rev), fd, es[1..], rev)))
  }

  ghost function TxRun(h: TxHistory, fd: int, es: seq<TxEvent>, rev: Revision): TxHistory
    requires Fifo(h) && SoundTxRun(h, fd, es, rev)
    decreases |es|
  {
    if es == [] then h
    else
      TxStepKeepsFifo(h, fd, es[0], rev);
      TxRun(TxStep(h, fd, es[0], rev), fd, es[1..], rev)
  }

  lemma TxRunNone(h: TxHistory, fd: int, rev: Revision)
    requires Fifo(h)
    ensures SoundTxRun(h, fd, [], rev) && TxRun(h, fd, [], rev) == h
  {}

  /** What a handler sends is appended, come what may. */
  lemma TxStepAppends(h: TxHistory, fd: int, e: TxEvent, rev: Revision)
    requires h.tx.cur <= |h.tx.bytes| && 0 < h.tx.capacity && h.alive && !e.Writable?
    ensures TxStep(h, fd, e, rev).appended == h.appended + e.packet && TxStep(h, fd, e, rev).wire == h.wire
  {}

  /** A run of one event. */
  lemma TxRunOne(h: TxHistory, fd: int, e: TxEvent, rev: Revision)
    requires Fifo(h) && h.alive && SoundTxRun(h, fd, [e], rev)
    ensures Proper(e) && SoundTx(h.tx, e, rev) && TxRun(h, fd, [e], rev) == TxStep(h, fd, e, rev)
  {
    assert [e][1..] == [];
  }

  /** Sending alone leaves the connection alive, with write interest as soon as anything is sent. */
  lemma {:induction false} SendsKeepAlive(h: TxHistory, fd: int, es: seq<TxEvent>, rev: Revision)
    requires Fifo(h) && h.alive && SoundTxRun(h, fd, es, rev)
    requires forall i :: 0 <= i < |es| ==> !es[i].Writable?
    ensures var r := TxRun(h, fd, es, rev);
      Fifo(r) && r.alive && (r.tx.interest <==> h.tx.interest || es != [])
    decreases |es|
  {
    if es != [] {
      TxStepKeepsFifo(h, fd, es[0], rev);
      SendsKeepAlive(TxStep(h, fd, es[0], rev), fd, es[1..], rev);
    }
  }

  /** Over any run that stays clear of the defective lines, whatever the socket accepts and however often
      it blocks, fails or is interrupted. */
  lemma {:induction false} FifoOverRuns(h: TxHistory, fd: int, es: seq<TxEvent>, rev: Revision)
    requires Fifo(h) && SoundTxRun(h, fd, es, rev)
    ensures Fifo(TxRun(h, fd, es, rev))
    decreases |es|
  {
    if es != [] {
      TxStepKeepsFifo(h, fd, es[0], rev);
      FifoOverRuns(TxStep(h, fd, es[0], rev), fd, es[1..], rev);
    }
  }

  /** An event does not write beyond the allocated buffer, and an echo does not overwrite pending bytes. */
  ghost predicate StaysInBounds(t: Tx, e: TxEvent, rev: Revision)
    requires t.cur <= |t.bytes| && 0 < t.capacity
  {
    match e
    case Send(p, need) => SendPacket(t, p, need, rev).Done?
    case SendEcho(p) => t.bytes == [] && Echo(t, p).Done?
    case Writable(_) => true
  }

  /** Such a step leaves the counters in bounds, whatever is sent. */
  lemma StepInBounds(h: TxHistory, fd: int, e: TxEvent, rev: Revision)
    requires h.tx.cur <= |h.tx.bytes| && 0 < h.tx.capacity && (h.alive ==> StaysInBounds(h.tx, e, rev))
    ensures var tx := TxStep(h, fd, e, rev).tx; tx.cur <= |tx.bytes| && 0 < tx.capacity
  {
    if h.alive && e.Writable? && h.tx.bytes != [] {
      SendLoopBound(e.script, |h.tx.bytes| - h.tx.cur, 0);
    }
  }

  /** No write of the run leaves the allocated buffer, and every echo finds an empty one. */
  ghost predicate InBounds(h: TxHistory, fd: int, es: seq<TxEvent>, rev: Revision)
    requires h.tx.cur <= |h.tx.bytes| && 0 < h.tx.capacity
    decreases |es|
  {
    es == [] ||
    ((h.alive ==> StaysInBounds(h.tx, es[0], rev)) &&
     (StepInBounds(h, fd, es[0], rev); InBounds(TxStep(h, fd, es[0], rev), fd, es[1..], rev)))
  }

  lemma IntendedStepIff(t: Tx, e: TxEvent)
    requires TxInv(t) && Proper(e)
    ensures SoundTx(t, e, AsIntended) <==> StaysInBounds(t, e, AsIntended)
  {
    if e.Send? {
      SendExact(t, e.packet, e.need, AsIntended);
    }
  }

  /** With the lines as intended, all that can go wrong in a run is that a packet is longer than the room there is, or
      that an echo meets pending bytes: a run without either delivers everything in order. */
  lemma {:induction false} IntendedSoundIff(h: TxHistory, fd: int, es: seq<TxEvent>)
    requires Fifo(h) && forall i :: 0 <= i < |es| ==> Proper(es[i])
    ensures SoundTxRun(h, fd, es, AsIntended) <==> InBounds(h, fd, es, AsIntended)
    decreases |es|
  {
    hide TxStep, SoundTx, StaysInBounds, TxInv;
    if es != [] {
      if h.alive {
        FifoLive(h);
        IntendedStepIff(h.tx, es[0]);
      }
      if h.alive ==> SoundTx(h.tx, es[0], AsIntended) {
        TxStepKeepsFifo(h, fd, es[0], AsIntended);
        IntendedSoundIff(TxStep(h, fd, es[0], AsIntended), fd, es[1..]);
      }
    }
  }
}
