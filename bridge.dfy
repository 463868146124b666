/**
 * The relay as the C program runs it: one object holds the reactor state
 * (the l_io table, the idle queue, the static io4 pointer) and each callback
 * of inetbr/tcp4.c is a method that changes it step by step.  Every method
 * is proved to do exactly what the matching function of module Tcp4 or
 * Mainloop says, so everything proved about those functions holds of it;
 * the entry points the main loop calls also keep the lifetime invariant.
 */
module Bridge {
  import opened Ell
  import opened Tcp4
  import opened Mainloop
  import opened Lifetime

  /**
   * read(fd, buffer, sizeof(buffer)): the kernel fills the front of the
   * buffer with the bytes it delivers and returns their number, or -1.
   */
  method SysRead(buffer: array<Byte>, got: ReadResult) returns (len: int)
    requires buffer.Length == BufferSize && FitsBuffer(got)
    modifies buffer
    ensures len == ReadLen(got)
    ensures len > 0 ==> buffer[..len] == got.bytes
  {
    len := ReadLen(got);
    if len > 0 {
      forall i | 0 <= i < len {
        buffer[i] := got.bytes[i];
      }
    }
  }

  class Tcp4Bridge {
    var handles: map<HandleId, Handle>
    ghost var openFds: set<Fd>
    var idle: seq<HandleId>
    var io4: Option<HandleId>
    var nextId: HandleId
    ghost var written: seq<WriteCall>

    /** The abstract reactor state this object represents. */
    ghost function Model(): State
      reads this
    {
      State(handles, openFds, idle, io4, nextId, written)
    }

    /** The lifetime invariant of module Lifetime, kept by every entry point. */
    ghost predicate Valid()
      reads this
    {
      Inv(Model())
    }

    constructor ()
      ensures Model() == Initial() && Valid()
    {
      handles, openFds, idle, io4, nextId, written := map[], {}, [], None, 0, [];
      InitialInv();
    }

    method IoNew(fd: Fd) returns (io: HandleId)
      modifies this
      ensures (Model(), io) == Ell.IoNew(old(Model()), fd)
    {
      io := nextId;
      handles := handles[io := Handle(fd, false, None)];
      nextId := io + 1;
    }

    method SetCloseOnDestroy(io: HandleId, flag: bool)
      requires io in handles
      modifies this
      ensures Model() == Ell.SetCloseOnDestroy(old(Model()), io, flag)
    {
      handles := handles[io := handles[io].(closeOnDestroy := flag)];
    }

    method SetReadHandler(io: HandleId, reader: Reader)
      requires io in handles
      modifies this
      ensures Model() == Ell.SetReadHandler(old(Model()), io, reader)
    {
      handles := handles[io := handles[io].(reader := Some(reader))];
    }

    /** destroy_cb(io_dst): queue destroy_io on the peer instead of destroying it here. */
    method DestroyCb(ioDst: HandleId)
      modifies this
      ensures Model() == Tcp4.DestroyCb(old(Model()), ioDst)
    {
      idle := idle + [ioDst];
    }

    /** l_io_destroy(io): the destroy function first, then unregister and close. */
    method IoDestroy(io: HandleId)
      requires io in handles
      modifies this
      ensures Model() == Tcp4.IoDestroy(old(Model()), io)
    {
      var h := handles[io];
      match h.reader {
        case Some(Relaying(peer)) => DestroyCb(peer);
        case _ =>
      }
      handles := handles - {io};
      if h.closeOnDestroy {
        openFds := openFds - {h.fd};
      }
    }

    /** destroy_io(io): the idle one-shot's action. */
    method DestroyIo(io: HandleId)
      requires io in handles
      modifies this
      ensures Model() == Tcp4.IoDestroy(old(Model()), io)
    {
      IoDestroy(io);
    }

    /** read_cb(io, io_dst): one chunk from io's descriptor to the peer's. */
    method ReadCb(io: HandleId, ioDst: HandleId, got: ReadResult, wrote: int) returns (keep: bool)
      requires io in handles && ioDst in handles && FitsBuffer(got)
      modifies this
      ensures (Model(), keep) == Tcp4.ReadCb(old(Model()), io, ioDst, got, wrote)
    {
      var buffer := new Byte[BufferSize];
      var len := SysRead(buffer, got);
      if len <= 0 {
        return false;
      }
      var sockDst := handles[ioDst].fd;
      written := written + [WriteCall(sockDst, buffer[..len])];
      // write()'s result, `wrote`, is only logged: nothing is retried.
      return true;
    }

    /** accept_tcp4_cb(io): accept, connect to the service, pair the two descriptors. */
    method AcceptTcp4Cb(io: HandleId, accepted: FdResult, connected: FdResult) returns (keep: bool)
      requires io in handles && FreshFds(openFds, accepted, connected)
      modifies this
      ensures (Model(), keep) == Tcp4.AcceptTcp4Cb(old(Model()), io, accepted, connected)
    {
      if accepted.Failed? {
        return true;
      }
      var sockCli := accepted.fd;
      openFds := openFds + {sockCli};
      if connected.Failed? {
        openFds := openFds - {sockCli};
        return true;
      }
      var sockUnix := connected.fd;
      openFds := openFds + {sockUnix};
      var ioCli := IoNew(sockCli);
      SetCloseOnDestroy(ioCli, true);
      var ioUnix := IoNew(sockUnix);
      SetCloseOnDestroy(ioUnix, true);
      SetReadHandler(ioCli, Relaying(ioUnix));
      SetReadHandler(ioUnix, Relaying(ioCli));
      return true;
    }

    /** tcp4_start(port4): set up the listening socket, or close it and report the failing step's errno. */
    method Tcp4Start(sock: FdResult, opt: Status, bound: Status, listening: Status) returns (ret: int)
      requires Valid()
      requires sock.Opened? ==> sock.fd !in openFds
      modifies this
      ensures (Model(), ret) == Tcp4.Tcp4Start(old(Model()), sock, opt, bound, listening)
      ensures Valid()
    {
      StartKeepsInv(Model(), sock, opt, bound, listening);
      if sock.Failed? {
        return 0 - (sock.errno as int);
      }
      var fd := sock.fd;
      openFds := openFds + {fd};
      var err: Errno;
      if opt.Fail? {
        err := opt.errno;
      } else if bound.Fail? {
        err := bound.errno;
      } else if listening.Fail? {
        err := listening.errno;
      } else {
        var io := IoNew(fd);
        io4 := Some(io);
        SetCloseOnDestroy(io, true);
        SetReadHandler(io, Accepting);
        return 0;
      }
      openFds := openFds - {fd};
      return 0 - (err as int);
    }

    /** tcp4_stop(): destroy the listener if io4 is set; io4 itself is left as it is. */
    method Tcp4Stop()
      requires Valid()
      requires io4.Some? ==> io4.value in handles
      modifies this
      ensures Model() == Tcp4.Tcp4Stop(old(Model()))
      ensures Valid()
    {
      StopKeepsInv(Model());
      if io4.Some? {
        IoDestroy(io4.value);
      }
    }

    /** What ell does after a read handler returned false: run its destroy function, clear it. */
    method HandlerDone(h: HandleId)
      requires h in handles
      modifies this
      ensures Model() == Mainloop.HandlerDone(old(Model()), h)
    {
      match handles[h].reader {
        case Some(Relaying(peer)) => DestroyCb(peer);
        case _ =>
      }
      handles := handles[h := handles[h].(reader := None)];
    }

    /** A readable event on h, delivered by the main loop to h's read handler. */
    method Dispatch(h: HandleId, o: Outcomes)
      requires Valid() && h in handles && FitsBuffer(o.got)
      requires handles[h].reader == Some(Accepting) ==> FreshFds(openFds, o.accepted, o.connected)
      modifies this
      ensures Deliverable(old(Model()), h, o) && Model() == Mainloop.Dispatch(old(Model()), h, o)
      ensures Valid()
    {
      DeliverableUnderInv(Model(), h, o);
      DispatchKeepsInv(Model(), h, o);
      var keep := true;
      match handles[h].reader {
        case None =>
        case Some(Accepting) =>
          keep := AcceptTcp4Cb(h, o.accepted, o.connected);
        case Some(Relaying(peer)) =>
          keep := ReadCb(h, peer, o.got, o.wrote);
      }
      if !keep {
        HandlerDone(h);
      }
    }

    /** The oldest pending idle one-shot runs: destroy_io on the handle it names. */
    method RunIdle()
      requires Valid() && idle != []
      modifies this
      ensures old(idle[0]) in old(handles) && old(idle[0]) !in handles
      ensures Model() == Mainloop.RunIdle(old(Model()))
      ensures Valid()
    {
      RunIdleKeepsInv(Model());
      var io := idle[0];
      idle := idle[1..];
      DestroyIo(io);
    }
  }
}
