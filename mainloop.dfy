/**
 * The ell main loop as the relay experiences it: a readable event on a
 * handle runs its read handler, and an idle one-shot runs destroy_io.  These
 * are the library behaviours tcp4.c depends on:
 *   - a read handler that returns false has its destroy function run once,
 *     with the handler's user data, after which the handler, its user data
 *     and its destroy function are cleared; the handle itself stays
 *     registered and its descriptor stays open;
 *   - an idle one-shot runs its function once and is then discarded; the
 *     one-shots run in the order they were queued.
 */
module Mainloop {
  import opened Ell
  import opened Tcp4

  /** What the environment answers to the system calls a read handler may make. */
  datatype Outcomes = Outcomes(accepted: FdResult, connected: FdResult, got: ReadResult, wrote: int)

  /**
   * A readable event on h can be delivered: h is live, so is its peer, and
   * the kernel keeps its own contracts for the calls h's handler makes.
   */
  predicate Deliverable(s: State, h: HandleId, o: Outcomes)
  {
    && h in s.handles
    && (s.handles[h].reader.Some? && s.handles[h].reader.value.Relaying? ==> s.handles[h].reader.value.peer in s.handles)
    && FitsBuffer(o.got)
    && (s.handles[h].reader == Some(Accepting) ==> FreshFds(s.openFds, o.accepted, o.connected))
  }

  /** What ell does when h's read handler returns false: run the destroy function, then clear the handler. */
  function HandlerDone(s: State, h: HandleId): (r: State)
    requires h in s.handles
    ensures r.handles == s.handles[h := s.handles[h].(reader := None)]
    ensures r.idle == match s.handles[h].reader
                      case Some(Relaying(peer)) => s.idle + [peer]
                      case _ => s.idle
    ensures r.openFds == s.openFds && r.io4 == s.io4 && r.nextId == s.nextId && r.written == s.written
  {
    var ran := match s.handles[h].reader
               case Some(Relaying(peer)) => DestroyCb(s, peer)
               case _ => s;
    ran.(handles := ran.handles[h := ran.handles[h].(reader := None)])
  }

  /** A readable event on h: its read handler runs, and HandlerDone follows if it gives up. */
  function Dispatch(s: State, h: HandleId, o: Outcomes): (r: State)
    requires Deliverable(s, h, o)
  {
    var (s1, keep) := match s.handles[h].reader
                      case None => (s, true)
                      case Some(Accepting) => AcceptTcp4Cb(s, h, o.accepted, o.connected)
                      case Some(Relaying(peer)) => ReadCb(s, h, peer, o.got, o.wrote);
    if keep then s1 else HandlerDone(s1, h)
  }

  /** The oldest pending one-shot runs destroy_io on the handle it names. */
  function RunIdle(s: State): (r: State)
    requires s.idle != [] && s.idle[0] in s.handles
  {
    IoDestroy(s.(idle := s.idle[1..]), s.idle[0])
  }
}
