// The partial-transfer loops of src/socket_api.c on values. A socket's input is a queue of what its
// reads will meet, its output a script of what its writes will meet; when either is used up, the
// call would block.

module SocketModel {
  import opened Bytes

  /** What a read can meet: bytes (as many as asked for are taken, the rest stays), EAGAIN, EINTR, the end
      of the stream, another error. No bytes at all is EAGAIN. */
  datatype Arrival = Data(bytes: seq<byte>) | Again | Interrupted | Closed | Failed

  datatype Errno = EOK | EAGAIN | EINTR | EOTHER

  /** What one `read` of `n` bytes returns and sets, the bytes it delivers, and the queue it leaves. */
  datatype ReadResult = ReadResult(ret: int, errno: Errno, bytes: seq<byte>, queue: seq<Arrival>)

  function ReadOnce(queue: seq<Arrival>, n: int): (r: ReadResult)
    requires 0 < n
    ensures if r.ret > 0 then r.ret == |r.bytes| <= n else r.bytes == []
    ensures r.ret > 0 || r.errno == EINTR ==> |r.queue| < |queue| || (|r.queue| == |queue| && r.ret == n)
  {
    if queue == [] then ReadResult(-1, EAGAIN, [], [])
    else
      var rest := queue[1..];
      match queue[0]
      case Data(b) =>
        if b == [] then ReadResult(-1, EAGAIN, [], rest)
        else if |b| <= n then ReadResult(|b|, EOK, b, rest)
        else ReadResult(n, EOK, b[..n], [Data(b[n..])] + rest)
      case Again => ReadResult(-1, EAGAIN, [], rest)
      case Interrupted => ReadResult(-1, EINTR, [], rest)
      case Closed => ReadResult(0, EOK, [], rest)
      case Failed => ReadResult(-1, EOTHER, [], rest)
  }

  /** The result of `PynServerRecvData`, the bytes taken off the socket, and the queue left. */
  datatype Received = Received(ret: int, bytes: seq<byte>, queue: seq<Arrival>)

  /** The loop of `PynServerRecvData` with `got` received so far, of `n` bytes wanted. */
  function RecvLoop(queue: seq<Arrival>, n: int, got: seq<byte>): (r: Received)
    decreases |queue|, n - |got|
  {
    if |got| >= n then Received(|got|, got, queue)
    else
      var rd := ReadOnce(queue, n - |got|);
      if rd.ret == 0 then Received(0, got, rd.queue)
      else if rd.ret > 0 then RecvLoop(rd.queue, n, got + rd.bytes)
      else if rd.errno == EAGAIN then Received(|got|, got, rd.queue)
      else if rd.errno == EINTR then RecvLoop(rd.queue, n, got)
      else Received(-1, got, rd.queue)
  }

  /** `PynServerRecvData` */
  function RecvData(queue: seq<Arrival>, n: int): (r: Received) {
    RecvLoop(queue, n, [])
  }

  /** All bytes that a queue carries. */
  function Flow(queue: seq<Arrival>): seq<byte> {
    if queue == [] then []
    else (if queue[0].Data? then queue[0].bytes else []) + Flow(queue[1..])
  }

  lemma Associate(a: seq<byte>, b: seq<byte>, c: seq<byte>)
    ensures a + (b + c) == (a + b) + c
  {}

  /** One read takes its bytes off the front. */
  lemma ReadOnceConserves(queue: seq<Arrival>, n: int)
    requires 0 < n
    ensures Flow(queue) == ReadOnce(queue, n).bytes + Flow(ReadOnce(queue, n).queue)
  {
    if queue != [] {
      var rest := queue[1..];
      assert [] + Flow(rest) == Flow(rest);
      if queue[0].Data? && |queue[0].bytes| > n {
        var b := queue[0].bytes;
        assert ([Data(b[n..])] + rest)[1..] == rest && b == b[..n] + b[n..];
        Associate(b[..n], b[n..], Flow(rest));
      }
    }
  }

  /** Unrolling the read loop by a round. */
  lemma RecvLoopOnce(queue: seq<Arrival>, n: int, got: seq<byte>)
    ensures |got| >= n ==> RecvLoop(queue, n, got) == Received(|got|, got, queue)
    ensures |got| < n ==> var rd := ReadOnce(queue, n - |got|);
      RecvLoop(queue, n, got) ==
        if rd.ret == 0 then Received(0, got, rd.queue)
        else if rd.ret > 0 then RecvLoop(rd.queue, n, got + rd.bytes)
        else if rd.errno == EAGAIN then Received(|got|, got, rd.queue)
        else if rd.errno == EINTR then RecvLoop(rd.queue, n, got)
        else Received(-1, got, rd.queue)
  {}

  /** No byte is lost, reordered or invented: what was taken, followed by what is left, is what was there.
      At most `n` bytes are taken; a positive result is their number, and any other result means that
      nothing was there, or that the end of the stream or an error came first. */
  lemma {:induction false} RecvLoopConserves(queue: seq<Arrival>, n: int, got: seq<byte>)
    requires |got| <= n
    ensures var r := RecvLoop(queue, n, got);
      && got + Flow(queue) == r.bytes + Flow(r.queue)
      && |r.bytes| <= n
      && (r.ret > 0 ==> r.ret == |r.bytes|)
      && -1 <= r.ret
    decreases |queue|, n - |got|
  {
    if |got| < n {
      var rd := ReadOnce(queue, n - |got|);
      ReadOnceConserves(queue, n - |got|);
      Associate(got, rd.bytes, Flow(rd.queue));
      if rd.ret > 0 {
        RecvLoopConserves(rd.queue, n, got + rd.bytes);
      } else {
        assert got + rd.bytes == got;
        if rd.errno == EINTR {
          RecvLoopConserves(rd.queue, n, got);
        }
      }
    }
  }

  /** The same for a whole call. */
  lemma RecvDataConserves(queue: seq<Arrival>, n: int)
    requires n >= 0
    ensures var r := RecvData(queue, n);
      && Flow(queue) == r.bytes + Flow(r.queue)
      && |r.bytes| <= n && -1 <= r.ret
      && (r.ret > 0 ==> r.ret == |r.bytes|)
  {
    RecvLoopConserves(queue, n, []);
    assert [] + Flow(queue) == Flow(queue);
  }

  /** The bytes that reads find before the first one that finds none; interrupted ones do not count. */
  function Available(queue: seq<Arrival>): seq<byte> {
    if queue == [] then []
    else
      match queue[0]
      case Data(b) => if b == [] then [] else b + Available(queue[1..])
      case Interrupted => Available(queue[1..])
      case _ => []
  }

  /** What ends them is that nothing more is there yet, rather than the end of the stream or an error. */
  predicate Dry(queue: seq<Arrival>) {
    queue == [] ||
    match queue[0]
    case Data(b) => b == [] || Dry(queue[1..])
    case Interrupted => Dry(queue[1..])
    case Again => true
    case _ => false
  }

  /** The first read takes its bytes off the available ones. */
  lemma ReadOnceAvailable(queue: seq<Arrival>, n: int)
    requires 0 < n
    ensures var rd := ReadOnce(queue, n);
      && (rd.ret > 0 || rd.errno == EINTR ==> Available(queue) == rd.bytes + Available(rd.queue) && Dry(queue) == Dry(rd.queue))
      && (rd.ret <= 0 && rd.errno != EINTR ==> Available(queue) == [] && (Dry(queue) <==> rd.ret < 0 && rd.errno == EAGAIN))
  {
    if queue != [] {
      var rest := queue[1..];
      assert [] + Available(rest) == Available(rest);
      if queue[0].Data? && |queue[0].bytes| > n {
        var b := queue[0].bytes;
        assert ([Data(b[n..])] + rest)[1..] == rest && b == b[..n] + b[n..];
        Associate(b[..n], b[n..], Available(rest));
      }
    }
  }

  /** A call gets as many of the available bytes as it asks for. When they do not suffice, it returns their number if
      that is because nothing more is there yet, and otherwise reports the end or the error instead of them. */
  lemma {:induction false} RecvLoopAvailable(queue: seq<Arrival>, n: int, got: seq<byte>)
    requires |got| <= n
    ensures var all, r := got + Available(queue), RecvLoop(queue, n, got);
      && r.bytes == (if |all| >= n then all[..n] else all)
      && (|all| >= n ==> r.ret == n && Available(r.queue) == all[n..] && Dry(r.queue) == Dry(queue))
      && (|all| < n ==> if Dry(queue) then r.ret == |all| else r.ret <= 0)
    decreases |queue|, n - |got|
  {
    if |got| < n {
      var rd := ReadOnce(queue, n - |got|);
      ReadOnceAvailable(queue, n - |got|);
      Associate(got, rd.bytes, Available(rd.queue));
      assert got + [] == got;
      if rd.ret > 0 {
        RecvLoopAvailable(rd.queue, n, got + rd.bytes);
      } else if rd.ret < 0 && rd.errno == EINTR {
        RecvLoopAvailable(rd.queue, n, got);
      }
    }
  }

  /** The same for a whole call. */
  lemma RecvAvailable(queue: seq<Arrival>, n: int)
    requires n > 0
    ensures var a, r := Available(queue), RecvData(queue, n);
      && r.bytes == (if |a| >= n then a[..n] else a)
      && (|a| >= n ==> r.ret == n && Available(r.queue) == a[n..] && Dry(r.queue) == Dry(queue))
      && (|a| < n ==> if Dry(queue) then r.ret == |a| else r.ret <= 0)
  {
    RecvLoopAvailable(queue, n, []);
    assert [] + Available(queue) == Available(queue);
  }

  /** Nothing but bytes and interruptions. */
  predicate Plain(queue: seq<Arrival>) {
    forall i :: 0 <= i < |queue| ==> queue[i].Interrupted? || (queue[i].Data? && queue[i].bytes != [])
  }

  lemma {:induction false} PlainAvailable(queue: seq<Arrival>)
    requires Plain(queue)
    ensures Available(queue) == Flow(queue) && Dry(queue)
    decreases |queue|
  {
    if queue != [] {
      PlainAvailable(queue[1..]);
      assert [] + Flow(queue[1..]) == Flow(queue[1..]);
    }
  }

  /** Reading leaves nothing else behind. */
  lemma {:induction false} RecvLoopPlain(queue: seq<Arrival>, n: int, got: seq<byte>)
    requires |got| <= n && Plain(queue)
    ensures Plain(RecvLoop(queue, n, got).queue)
    decreases |queue|, n - |got|
  {
    if |got| < n {
      var rd := ReadOnce(queue, n - |got|);
      if rd.ret > 0 {
        RecvLoopPlain(rd.queue, n, got + rd.bytes);
      } else if rd.ret < 0 && rd.errno == EINTR {
        RecvLoopPlain(rd.queue, n, got);
      }
    }
  }

  // ---------------------------------------------------------------------------------------------
  // Sending

  /** What a write can meet: some bytes taken (never more than offered), EAGAIN, EINTR, another error. */
  datatype Acceptance = Takes(count: nat) | Blocks | Interrupts | Fails

  /** What one `write` of `n` bytes returns and sets; a positive result is the number of bytes taken. */
  datatype WriteResult = WriteResult(ret: int, errno: Errno, script: seq<Acceptance>)

  function WriteOnce(script: seq<Acceptance>, n: int): (r: WriteResult)
    requires 0 < n
    ensures r.ret <= n && (r.ret < 0 <==> r.errno != EOK)
    ensures r.ret >= 0 || r.errno == EINTR ==> |r.script| < |script|
  {
    if script == [] then WriteResult(-1, EAGAIN, [])
    else
      match script[0]
      case Takes(k) => WriteResult(if k <= n then k else n, EOK, script[1..])
      case Blocks => WriteResult(-1, EAGAIN, script[1..])
      case Interrupts => WriteResult(-1, EINTR, script[1..])
      case Fails => WriteResult(-1, EOTHER, script[1..])
  }

  /** The result of `PynServerSendData`, how many bytes reached the socket, and the script left. */
  datatype Sent = Sent(ret: int, count: nat, script: seq<Acceptance>)

  function SendLoop(script: seq<Acceptance>, n: int, count: nat): (r: Sent)
    decreases |script|
  {
    if count >= n then Sent(count, count, script)
    else
      var w := WriteOnce(script, n - count);
      if w.ret >= 0 then SendLoop(w.script, n, count + w.ret)
      else if w.errno == EAGAIN then Sent(count, count, w.script)
      else if w.errno == EINTR then SendLoop(w.script, n, count)
      else Sent(-1, count, w.script)
  }

  /** `PynServerSendData`, which refuses descriptor 0. */
  function SendData(fd: int, script: seq<Acceptance>, n: int): Sent {
    if fd <= 0 || n < 0 then Sent(-1, 0, script) else SendLoop(script, n, 0)
  }

  /** How much a socket takes before its writes block or fail; interrupted ones do not count. */
  function Taken(script: seq<Acceptance>): nat {
    if script == [] then 0
    else
      match script[0]
      case Takes(k) => k + Taken(script[1..])
      case Interrupts => Taken(script[1..])
      case _ => 0
  }

  /** What ends that is an error, rather than that the socket would block. */
  predicate Fatal(script: seq<Acceptance>) {
    script != [] &&
    match script[0]
    case Takes(_) => Fatal(script[1..])
    case Interrupts => Fatal(script[1..])
    case Blocks => false
    case Fails => true
  }

  /** A write loop sends as much of its bytes as the socket takes, and fails exactly when that is not all and an error is
      the reason. */
  lemma {:induction false} SendLoopExact(script: seq<Acceptance>, n: int, count: nat)
    requires count <= n
    ensures var all, r := count + Taken(script), SendLoop(script, n, count);
      && r.count == (if all >= n then n else all)
      && r.ret == (if all < n && Fatal(script) then -1 else r.count)
    decreases |script|
  {
    if count < n && script != [] {
      var w := WriteOnce(script, n - count);
      if w.ret >= 0 {
        if count + w.ret == n {
          SendLoopOnce(w.script, n, n);
        } else {
          SendLoopExact(w.script, n, count + w.ret);
        }
      } else if w.errno == EINTR {
        SendLoopExact(w.script, n, count);
      }
    }
  }

  /** Unrolling the write loop by a round. */
  lemma SendLoopOnce(script: seq<Acceptance>, n: int, count: nat)
    ensures count >= n ==> SendLoop(script, n, count) == Sent(count, count, script)
    ensures count < n ==> var w := WriteOnce(script, n - count);
      SendLoop(script, n, count) ==
        if w.ret >= 0 then SendLoop(w.script, n, count + w.ret)
        else if w.errno == EAGAIN then Sent(count, count, w.script)
        else if w.errno == EINTR then SendLoop(w.script, n, count)
        else Sent(-1, count, w.script)
  {}

  /** A write loop never sends more than it was given, and a result other than -1 is what was sent. */
  lemma {:induction false} SendLoopBound(script: seq<Acceptance>, n: int, count: nat)
    requires count <= n
    ensures var r := SendLoop(script, n, count);
      count <= r.count <= n && (r.ret == -1 || r.ret == r.count)
    decreases |script|
  {
    if count < n {
      var w := WriteOnce(script, n - count);
      if w.ret >= 0 {
        SendLoopBound(w.script, n, count + w.ret);
      } else if w.errno == EINTR {
        SendLoopBound(w.script, n, count);
      }
    }
  }
}
