/**
 * The callbacks of inetbr/tcp4.c as functions on the reactor state.  Every
 * system call the C code makes is an argument here: its outcome is chosen by
 * the environment, and the function says what the relay does with it.
 */
module Tcp4 {
  import opened Ell

  /** The size of read_cb's stack buffer: no read returns more than this. */
  const BufferSize: nat := 1280

  /** A positive errno value. */
  type Errno = e: int | 0 < e witness 1

  /** Outcome of socket(), accept() or unix_connect(): a new descriptor or an error. */
  datatype FdResult = Opened(fd: Fd) | Failed(errno: Errno)

  /** Outcome of setsockopt(), bind() or listen(). */
  datatype Status = Ok | Fail(errno: Errno)

  /** Outcome of read(): the bytes read (none at end of stream) or an error. */
  datatype ReadResult = Data(bytes: seq<Byte>) | ReadError(errno: Errno)

  /** The value read() returns: the number of bytes read, or -1 on error. */
  function ReadLen(got: ReadResult): (n: int)
    ensures got.Data? ==> n == |got.bytes|
    ensures got.ReadError? ==> n == -1
  {
    match got
    case Data(bytes) => |bytes|
    case ReadError(_) => -1
  }

  /** read(2) never returns more bytes than it was asked for. */
  predicate FitsBuffer(got: ReadResult)
  {
    got.Data? ==> |got.bytes| <= BufferSize
  }

  /**
   * The kernel hands out descriptors that are not open: the client socket
   * accept() returns is not one the relay holds, and the service socket
   * unix_connect() returns (asked for only once the client socket is open)
   * is neither.
   */
  predicate FreshFds(openFds: set<Fd>, accepted: FdResult, connected: FdResult)
  {
    accepted.Opened? ==>
      accepted.fd !in openFds &&
      (connected.Opened? ==> connected.fd !in openFds && connected.fd != accepted.fd)
  }

  /**
   * destroy_cb(io_dst): run when a relaying handle is destroyed or its read
   * handler gives up.  It does not touch the peer: it queues one idle
   * one-shot whose only action is destroy_io on the peer.
   */
  function DestroyCb(s: State, ioDst: HandleId): (r: State)
    ensures r.handles == s.handles && r.openFds == s.openFds
    ensures r.idle == s.idle + [ioDst]
    ensures r.io4 == s.io4 && r.nextId == s.nextId && r.written == s.written
  {
    IdleOneshot(s, ioDst)
  }

  /**
   * l_io_destroy(io) on a handle tcp4.c created: the destroy function that
   * came with the read handler runs first (destroy_cb on the peer for a
   * relaying handle, nothing for the listener or a handle whose handler was
   * already cleared), then the handle is released.  destroy_io is exactly
   * this call.
   */
  function IoDestroy(s: State, io: HandleId): (r: State)
    requires io in s.handles
    ensures r.handles == s.handles - {io}
    ensures r.openFds == if s.handles[io].closeOnDestroy then s.openFds - {s.handles[io].fd} else s.openFds
    ensures r.idle == match s.handles[io].reader
                      case Some(Relaying(peer)) => s.idle + [peer]
                      case _ => s.idle
    ensures r.io4 == s.io4 && r.nextId == s.nextId && r.written == s.written
  {
    var ran := match s.handles[io].reader
               case Some(Relaying(peer)) => DestroyCb(s, peer)
               case _ => s;
    Release(ran, io)
  }

  /**
   * read_cb(io, io_dst): read at most BufferSize bytes from io's descriptor.
   * End of stream or an error gives up (false) and writes nothing; otherwise
   * the bytes read are handed, in one write() call, to the peer's descriptor
   * and the handler stays registered (true).  The result of write(), `wrote`,
   * is only logged by the source: a failed or short write is neither retried
   * nor reported.
   */
  function ReadCb(s: State, io: HandleId, ioDst: HandleId, got: ReadResult, wrote: int): (r: (State, bool))
    requires io in s.handles && ioDst in s.handles
    requires FitsBuffer(got)
    ensures r.1 <==> got.Data? && got.bytes != []
    ensures !r.1 ==> r.0 == s
    ensures r.1 ==> 1 <= |got.bytes| <= BufferSize
    ensures r.1 ==> r.0 == s.(written := s.written + [WriteCall(s.handles[ioDst].fd, got.bytes)])
  {
    var len := ReadLen(got);
    if len <= 0 then (s, false)
    else
      assert got.bytes[..len] == got.bytes;
      (s.(written := s.written + [WriteCall(s.handles[ioDst].fd, got.bytes[..len])]), true)
  }

  /**
   * The net effect of a successful accept_tcp4_cb: the client and service
   * descriptors are open and owned by two fresh handles, both closing on
   * destroy, each relaying to the other; nothing else changes.
   */
  ghost predicate PairedAt(s: State, r: State, sockCli: Fd, sockUnix: Fd)
  {
    var ioCli, ioUnix := s.nextId, s.nextId + 1;
    && r.handles == s.handles[ioCli := Handle(sockCli, true, Some(Relaying(ioUnix)))]
                             [ioUnix := Handle(sockUnix, true, Some(Relaying(ioCli)))]
    && r.openFds == s.openFds + {sockCli, sockUnix}
    && r.idle == s.idle && r.io4 == s.io4 && r.nextId == s.nextId + 2 && r.written == s.written
  }

  /**
   * accept_tcp4_cb(io): accept a client; on failure keep listening.  Ask the
   * connector for a service socket; on failure close the client socket and
   * keep listening.  Otherwise wrap both descriptors in close-on-destroy
   * handles that relay to each other.  The listener is kept on every path.
   */
  function AcceptTcp4Cb(s: State, io: HandleId, accepted: FdResult, connected: FdResult): (r: (State, bool))
    requires io in s.handles
    requires FreshFds(s.openFds, accepted, connected)
    ensures r.1
    ensures accepted.Failed? || connected.Failed? ==> r.0 == s
    ensures accepted.Opened? && connected.Opened? ==> PairedAt(s, r.0, accepted.fd, connected.fd)
  {
    if accepted.Failed? then (s, true)
    else
      var sockCli := accepted.fd;
      var s1 := s.(openFds := s.openFds + {sockCli});
      if connected.Failed? then (s1.(openFds := s1.openFds - {sockCli}), true)
      else
        var sockUnix := connected.fd;
        var s2 := s1.(openFds := s1.openFds + {sockUnix});
        var (s3, ioCli) := IoNew(s2, sockCli);
        var s4 := SetCloseOnDestroy(s3, ioCli, true);
        var (s5, ioUnix) := IoNew(s4, sockUnix);
        var s6 := SetCloseOnDestroy(s5, ioUnix, true);
        var s7 := SetReadHandler(s6, ioCli, Relaying(ioUnix));
        (SetReadHandler(s7, ioUnix, Relaying(ioCli)), true)
  }

  /** The errno tcp4_start reports: that of the first setup step that failed. */
  function SetupErrno(sock: FdResult, opt: Status, bound: Status, listening: Status): (e: Option<Errno>)
    ensures e.None? <==> sock.Opened? && opt.Ok? && bound.Ok? && listening.Ok?
  {
    if sock.Failed? then Some(sock.errno)
    else if opt.Fail? then Some(opt.errno)
    else if bound.Fail? then Some(bound.errno)
    else if listening.Fail? then Some(listening.errno)
    else None
  }

  /**
   * tcp4_start(port4): socket(), setsockopt(SO_REUSEADDR), bind() to the
   * wildcard address, listen() with a backlog of 1.  A failing step after
   * socket() closes the socket; every failure returns minus its errno and
   * leaves io4 alone.  On success io4 is a close-on-destroy handle on the
   * listening socket with accept_tcp4_cb as its read handler, and 0 is
   * returned.  Later steps are not attempted after a failure, so their
   * outcomes do not matter then.
   */
  function Tcp4Start(s: State, sock: FdResult, opt: Status, bound: Status, listening: Status): (r: (State, int))
    requires sock.Opened? ==> sock.fd !in s.openFds
    ensures r.1 <= 0
    ensures r.1 == 0 <==> SetupErrno(sock, opt, bound, listening).None?
    ensures r.1 < 0 ==> r.0 == s && r.1 == 0 - (SetupErrno(sock, opt, bound, listening).value as int)
    ensures r.1 == 0 ==>
      && r.0.io4 == Some(s.nextId)
      && r.0.handles == s.handles[s.nextId := Handle(sock.fd, true, Some(Accepting))]
      && r.0.openFds == s.openFds + {sock.fd}
      && r.0.idle == s.idle && r.0.nextId == s.nextId + 1 && r.0.written == s.written
  {
    if sock.Failed? then (s, 0 - (sock.errno as int))
    else
      var fd := sock.fd;
      var s1 := s.(openFds := s.openFds + {fd});
      var closed := s1.(openFds := s1.openFds - {fd});
      if opt.Fail? then (closed, 0 - (opt.errno as int))
      else if bound.Fail? then (closed, 0 - (bound.errno as int))
      else if listening.Fail? then (closed, 0 - (listening.errno as int))
      else
        var (s2, io) := IoNew(s1, fd);
        var s3 := s2.(io4 := Some(io));
        var s4 := SetCloseOnDestroy(s3, io, true);
        (SetReadHandler(s4, io, Accepting), 0)
  }

  /**
   * tcp4_stop(): destroy the listener if io4 is set.  Relay pairs are left
   * alone and io4 is not reset, so afterwards it names a destroyed handle.
   */
  function Tcp4Stop(s: State): (r: State)
    requires s.io4.Some? ==> s.io4.value in s.handles
    ensures r.io4 == s.io4
    ensures s.io4.None? ==> r == s
    ensures s.io4.Some? ==> r.handles == s.handles - {s.io4.value} && s.io4.value !in r.handles
  {
    if s.io4.Some? then IoDestroy(s, s.io4.value) else s
  }

  /** The write() calls issued to descriptor fd, concatenated: the stream handed to the kernel for fd. */
  function StreamTo(log: seq<WriteCall>, fd: Fd): (b: seq<Byte>)
  {
    if log == [] then []
    else StreamTo(log[..|log| - 1], fd) + (if log[|log| - 1].fd == fd then log[|log| - 1].bytes else [])
  }

  /** The concatenation of a sequence of chunks. */
  function Concat(chunks: seq<seq<Byte>>): (b: seq<Byte>)
  {
    if chunks == [] then [] else Concat(chunks[..|chunks| - 1]) + chunks[|chunks| - 1]
  }

  /** A read result for every chunk, with no end of stream among them. */
  predicate Chunks(chunks: seq<seq<Byte>>)
  {
    forall i :: 0 <= i < |chunks| ==> 1 <= |chunks[i]| <= BufferSize
  }

  /**
   * read_cb on a handle whose read yields a non-empty chunk: the handler
   * stays registered and the chunk is written to the peer; nothing else changes.
   */
  function Forward(s: State, io: HandleId, ioDst: HandleId, chunk: seq<Byte>, wrote: int): (r: State)
    requires io in s.handles && ioDst in s.handles
    requires 1 <= |chunk| <= BufferSize
    ensures ReadCb(s, io, ioDst, Data(chunk), wrote).1
    ensures r.written == s.written + [WriteCall(s.handles[ioDst].fd, chunk)]
    ensures r.handles == s.handles && r.openFds == s.openFds && r.idle == s.idle && r.io4 == s.io4
  {
    ReadCb(s, io, ioDst, Data(chunk), wrote).0
  }

  /**
   * read_cb run once per chunk on a handle whose reads yield those chunks,
   * with arbitrary write() results.
   */
  function ForwardAll(s: State, io: HandleId, ioDst: HandleId, chunks: seq<seq<Byte>>, wrote: seq<int>): (r: State)
    requires io in s.handles && ioDst in s.handles
    requires Chunks(chunks) && |wrote| == |chunks|
    ensures r.handles == s.handles && r.openFds == s.openFds && r.idle == s.idle
    decreases |chunks|
  {
    if chunks == [] then s
    else
      var n := |chunks| - 1;
      ChunksPrefix(chunks, n);
      var before := ForwardAll(s, io, ioDst, chunks[..n], wrote[..n]);
      Forward(before, io, ioDst, chunks[n], wrote[n])
  }

  /**
   * Byte-exact relaying: when a handle's reads yield a sequence of chunks,
   * the stream written to the peer's descriptor grows by exactly their
   * concatenation, in order, and no other descriptor receives anything.
   */
  lemma {:induction false} ForwardAllIsExact(s: State, io: HandleId, ioDst: HandleId, chunks: seq<seq<Byte>>, wrote: seq<int>, fd: Fd)
    requires io in s.handles && ioDst in s.handles
    requires Chunks(chunks) && |wrote| == |chunks|
    ensures var r := ForwardAll(s, io, ioDst, chunks, wrote);
      StreamTo(r.written, fd) ==
        StreamTo(s.written, fd) + (if fd == s.handles[ioDst].fd then Concat(chunks) else [])
    decreases |chunks|
  {
    if chunks != [] {
      var n := |chunks| - 1;
      ChunksPrefix(chunks, n);
      ForwardAllIsExact(s, io, ioDst, chunks[..n], wrote[..n], fd);
      var before := ForwardAll(s, io, ioDst, chunks[..n], wrote[..n]);
      var w := WriteCall(s.handles[ioDst].fd, chunks[n]);
      assert ForwardAll(s, io, ioDst, chunks, wrote).written == before.written + [w];
      StreamToAppend(before.written, w, fd);
      assert Concat(chunks) == Concat(chunks[..n]) + chunks[n];
      if fd == w.fd {
        assert (StreamTo(s.written, fd) + Concat(chunks[..n])) + chunks[n]
            == StreamTo(s.written, fd) + (Concat(chunks[..n]) + chunks[n]);
      }
    }
  }

  lemma ChunksPrefix(chunks: seq<seq<Byte>>, n: nat)
    requires Chunks(chunks) && n <= |chunks|
    ensures Chunks(chunks[..n])
  {
    forall i | 0 <= i < n
      ensures 1 <= |chunks[..n][i]| <= BufferSize
    {
      assert chunks[..n][i] == chunks[i];
    }
  }

  /** One more write() call extends the stream of its own descriptor only. */
  lemma StreamToAppend(log: seq<WriteCall>, w: WriteCall, fd: Fd)
    ensures StreamTo(log + [w], fd) == StreamTo(log, fd) + (if w.fd == fd then w.bytes else [])
  {
    assert (log + [w])[..|log|] == log;
  }

  /** The outcome of write() has no effect on what read_cb does: no retry and no back-pressure. */
  lemma WriteResultIgnored(s: State, io: HandleId, ioDst: HandleId, got: ReadResult, w1: int, w2: int)
    requires io in s.handles && ioDst in s.handles
    requires FitsBuffer(got)
    ensures ReadCb(s, io, ioDst, got, w1) == ReadCb(s, io, ioDst, got, w2)
  {
  }
}
