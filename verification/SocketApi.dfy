// The partial-transfer loops of src/socket_api.c over a scripted socket.

module SocketApi {
  import opened Bytes
  import opened SocketModel

  /** The kernel's end of a connection. `written` is what the peer gets. */
  class Socket {
    const fd: nat
    var queue: seq<Arrival>
    var script: seq<Acceptance>
    ghost var written: seq<byte>

    constructor (fd: nat)
      ensures this.fd == fd && queue == [] && script == [] && written == []
    {
      this.fd := fd;
      queue, script, written := [], [], [];
    }

    /** What reaches the socket between two events. */
    method Arrive(arrivals: seq<Arrival>)
      modifies this`queue
      ensures queue == old(queue) + arrivals
    {
      queue := queue + arrivals;
    }

    /** What the socket will take when it is written to next. */
    method Offer(script: seq<Acceptance>)
      modifies this`script
      ensures this.script == script
    {
      this.script := script;
    }

    /** `read(fd, buffer + at, n)` */
    method Read(buffer: array<byte>, at: nat, n: nat) returns (ret: int, errno: Errno)
      requires 0 < n && at + n <= buffer.Length
      modifies this`queue, buffer
      ensures var r := ReadOnce(old(queue), n);
        && ret == r.ret && errno == r.errno && queue == r.queue
        && buffer[..] == Overwrite(old(buffer[..]), at, r.bytes)
    {
      var r := ReadOnce(queue, n);
      forall i | 0 <= i < |r.bytes| {
        buffer[at + i] := r.bytes[i];
      }
      queue := r.queue;
      return r.ret, r.errno;
    }

    /** `write(fd, buffer + at, n)` */
    method Write(buffer: array<byte>, at: nat, n: nat) returns (ret: int, errno: Errno)
      requires 0 < n && at + n <= buffer.Length
      modifies this`script, this`written
      ensures var r := WriteOnce(old(script), n);
        && ret == r.ret && errno == r.errno && script == r.script
        && written == old(written) + buffer[at..at + (if ret > 0 then ret else 0)]
    {
      var r := WriteOnce(script, n);
      script := r.script;
      written := written + buffer[at..at + (if r.ret > 0 then r.ret else 0)];
      return r.ret, r.errno;
    }
  }

  /** `PynServerRecvData`: receive into `buffer` from `at` on until `n` bytes are there, the socket would
      block, the stream ends or an error occurs. */
  method PynServerRecvData(socket: Socket, buffer: array<byte>, at: nat, n: nat) returns (ret: int)
    requires at + n <= buffer.Length
    modifies socket`queue, buffer
    ensures var r := RecvData(old(socket.queue), n);
      && ret == r.ret && socket.queue == r.queue && |r.bytes| <= n
      && buffer[..] == Overwrite(old(buffer[..]), at, r.bytes)
  {
    hide Overwrite, RecvLoop, ReadOnce;
    var recvCount := 0;
    ghost var got: seq<byte> := [];
    ghost var goal, was := RecvData(socket.queue, n), buffer[..];
    RecvLoopConserves(socket.queue, n, []);
    OverwriteNothing(was, at);
    while recvCount < n
      invariant recvCount == |got| <= n
      invariant buffer[..] == Overwrite(was, at, got)
      invariant RecvLoop(socket.queue, n, got) == goal && |goal.bytes| <= n
      decreases |socket.queue|, n - recvCount
    {
      RecvLoopOnce(socket.queue, n, got);
      ghost var bytes := ReadOnce(socket.queue, n - recvCount).bytes;
      var ret1, errno := socket.Read(buffer, at + recvCount, n - recvCount);
      OverwriteTwice(was, at, got, bytes);
      assert ret1 <= 0 ==> got + bytes == got;
      if ret1 == 0 {
        return 0;
      } else if ret1 < 0 {
        if errno == EAGAIN {
          break;
        } else if errno == EINTR {
          continue;
        }
        return -1;
      }
      recvCount := recvCount + ret1;
      got := got + bytes;
    }
    RecvLoopOnce(socket.queue, n, got);
    return recvCount;
  }

  /** `PynServerSendData` */
  method PynServerSendData(socket: Socket, buffer: array<byte>, at: nat, n: int) returns (ret: int)
    requires at <= buffer.Length && at + n <= buffer.Length
    modifies socket`script, socket`written
    ensures var r := SendData(socket.fd, old(socket.script), n);
      && ret == r.ret && socket.script == r.script
      && (n >= 0 ==> r.count <= n) && at + r.count <= buffer.Length
      && socket.written == old(socket.written) + buffer[at..at + r.count]
  {
    hide SendLoop, WriteOnce;
    if socket.fd <= 0 || n < 0 {
      return -1;
    }
    var sendCount := 0;
    SendLoopBound(socket.script, n, 0);
    while sendCount < n
      invariant 0 <= sendCount <= n
      invariant socket.written == old(socket.written) + buffer[at..at + sendCount]
      invariant SendLoop(socket.script, n, sendCount) == SendLoop(old(socket.script), n, 0)
      decreases |socket.script|, n - sendCount
    {
      SendLoopOnce(socket.script, n, sendCount);
      var ret1, errno := socket.Write(buffer, at + sendCount, n - sendCount);
      if ret1 < 0 {
        if errno == EAGAIN {
          break;
        } else if errno == EINTR {
          continue;
        }
        return -1;
      }
      assert buffer[at..at + sendCount + ret1] == buffer[at..at + sendCount] + buffer[at + sendCount..at + sendCount + ret1];
      sendCount := sendCount + ret1;
    }
    SendLoopOnce(socket.script, n, sendCount);
    return sendCount;
  }

  lemma OverwriteNothing(s: seq<byte>, at: nat)
    requires at <= |s|
    ensures Overwrite(s, at, []) == s
  {}

  lemma OverwriteTwice(s: seq<byte>, at: nat, a: seq<byte>, b: seq<byte>)
    requires at + |a| + |b| <= |s|
    ensures Overwrite(Overwrite(s, at, a), at + |a|, b) == Overwrite(s, at, a + b)
  {
    var t := Overwrite(s, at, a);
    forall i | 0 <= i < |s| ensures Overwrite(t, at + |a|, b)[i] == Overwrite(s, at, a + b)[i] {
      OverwriteAt(s, at, a, i);
      OverwriteAt(t, at + |a|, b, i);
      OverwriteAt(s, at, a + b, i);
    }
  }
}
