/**
 * The part of the ell event library that inetbr/tcp4.c relies on, reduced to
 * the state it touches: the table of live l_io objects, the descriptors the
 * relay holds open, the queue of pending idle one-shots and the static
 * listener pointer `io4`.
 *
 * An l_io object is identified by a HandleId: the identity of the object,
 * not its address.  Identities are handed out in increasing order and never
 * reused, so a destroyed handle can never be mistaken for a live one.  In the
 * C program a freed l_io's address may be handed out again by a later
 * l_io_new; the model abstracts that reuse away.
 */
module Ell {

  datatype Option<+T> = None | Some(value: T)

  type Fd = nat
  type HandleId = nat
  type Byte = bv8

  /**
   * The read handlers tcp4.c registers with l_io_set_read_handler.  Only two
   * registrations occur, so the handler, its user data and its destroy
   * function travel together:
   *   Accepting      accept_tcp4_cb, user data NULL, no destroy function;
   *   Relaying(p)    read_cb with user data p and destroy_cb with user data p.
   */
  datatype Reader = Accepting | Relaying(peer: HandleId)

  /** One l_io object: its descriptor, its close-on-destroy flag and its read handler, if any. */
  datatype Handle = Handle(fd: Fd, closeOnDestroy: bool, reader: Option<Reader>)

  /** One write() call issued by the relay: the descriptor and the bytes handed to the kernel. */
  datatype WriteCall = WriteCall(fd: Fd, bytes: seq<Byte>)

  /**
   * The reactor as the relay sees it.
   *   handles   live l_io objects;
   *   openFds   descriptors the relay has opened and not yet closed;
   *   idle      pending idle one-shots, each running destroy_io on the handle it names, FIFO;
   *   io4       the static listener pointer of tcp4.c;
   *   nextId    the identity the next l_io_new hands out;
   *   written   every write() the relay issued, in order.
   */
  datatype State = State(
    handles: map<HandleId, Handle>,
    openFds: set<Fd>,
    idle: seq<HandleId>,
    io4: Option<HandleId>,
    nextId: HandleId,
    written: seq<WriteCall>)

  /** The reactor before tcp4_start: nothing registered, nothing open, nothing written. */
  function Initial(): State
  {
    State(map[], {}, [], None, 0, [])
  }

  /** l_io_new(fd): a fresh l_io on fd, not closing on destroy, with no read handler. */
  function IoNew(s: State, fd: Fd): (r: (State, HandleId))
    ensures r.1 == s.nextId && r.0.nextId == r.1 + 1
    ensures r.0.handles == s.handles[r.1 := Handle(fd, false, None)]
    ensures r.0.openFds == s.openFds && r.0.idle == s.idle && r.0.io4 == s.io4 && r.0.written == s.written
  {
    var io := s.nextId;
    (s.(handles := s.handles[io := Handle(fd, false, None)], nextId := io + 1), io)
  }

  /** l_io_set_close_on_destroy(io, flag). */
  function SetCloseOnDestroy(s: State, io: HandleId, flag: bool): (r: State)
    requires io in s.handles
    ensures r.handles == s.handles[io := s.handles[io].(closeOnDestroy := flag)]
  {
    s.(handles := s.handles[io := s.handles[io].(closeOnDestroy := flag)])
  }

  /**
   * l_io_set_read_handler(io, handler, user data, destroy).  tcp4.c only calls
   * it on an l_io that has no handler yet, so no earlier destroy function is
   * displaced.
   */
  function SetReadHandler(s: State, io: HandleId, reader: Reader): (r: State)
    requires io in s.handles
    ensures r.handles == s.handles[io := s.handles[io].(reader := Some(reader))]
  {
    s.(handles := s.handles[io := s.handles[io].(reader := Some(reader))])
  }

  /** l_idle_oneshot(destroy_io, io, NULL): queue a one-shot that destroys io. */
  function IdleOneshot(s: State, io: HandleId): (r: State)
    ensures r.idle == s.idle + [io]
    ensures r.handles == s.handles && r.openFds == s.openFds
  {
    s.(idle := s.idle + [io])
  }

  /**
   * The last part of l_io_destroy, after the destroy function has run: the
   * l_io is unregistered and freed, and its descriptor is closed when
   * close-on-destroy is set.
   */
  function Release(s: State, io: HandleId): (r: State)
    requires io in s.handles
    ensures r.handles == s.handles - {io}
    ensures r.openFds == if s.handles[io].closeOnDestroy then s.openFds - {s.handles[io].fd} else s.openFds
    ensures r.idle == s.idle && r.io4 == s.io4 && r.nextId == s.nextId && r.written == s.written
  {
    var h := s.handles[io];
    s.(handles := s.handles - {io},
       openFds := if h.closeOnDestroy then s.openFds - {h.fd} else s.openFds)
  }
}
