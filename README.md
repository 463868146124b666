# inetbr TCPv4 relay — a Dafny model

`inetbr/tcp4.c` is the TCPv4 side of the inet bridge. `tcp4_start` opens a listening
socket and registers it with the ell main loop as the static handle `io4`. Each client
that `accept_tcp4_cb` accepts is paired with a fresh connection to the local Unix-socket
service (`unix_connect()`). The pair is two `l_io` handles, each naming the other as
peer. `read_cb` moves one chunk of at most 1280 bytes from a handle's descriptor to its
peer's. When one side reaches end of stream or fails, ell runs `destroy_cb`. That
callback does not destroy the peer at once: it queues an idle one-shot, `destroy_io`, that
destroys it on a later main-loop iteration. `tcp4_stop` destroys the listener.

The model is an abstract single-threaded reactor:

- `Ell.State` holds the table of live handles (descriptor, close-on-destroy flag, read
  handler), the set of descriptors the relay holds open, the FIFO queue of pending idle
  one-shots, the `io4` slot, the next handle identity and a log of every `write()` call.
- Module `Tcp4` gives each callback as a function on that state. Every system call's
  outcome (`socket`, `setsockopt`, `bind`, `listen`, `accept`, `unix_connect`, `read`,
  `write`) is a parameter chosen by the environment.
- Module `Mainloop` states what ell does around the callbacks.
- Module `Lifetime` defines the lifetime invariant and proves that every step keeps it.
- Module `Schedules` lifts the results to batches of events, idle phases and arbitrary
  schedules.
- Module `Bridge` is the program in its own imperative form. Class `Tcp4Bridge` holds the
  handle map, the open-descriptor set, the idle queue and the listener slot, with one
  method per callback. Each method is proved to change the object exactly as the
  corresponding function says. The main loop's entry points (`Dispatch`, `RunIdle`,
  `Tcp4Start`, `Tcp4Stop`) also keep the invariant (`Valid`).

Behaviour of the ell library that the model assumes (ell's source is not part of this
model):

- A read handler that returns false has its destroy function run once, with the
  handler's user data. The handler, its user data and its destroy function are then
  cleared. The handle stays registered and its descriptor stays open.
- `l_io_destroy` runs the registered destroy function. It then unregisters the handle
  and closes its descriptor if close-on-destroy is set.
- Idle one-shots run once each, oldest first.
- Each `l_io_new` creates a new object. A `HandleId` is that object's identity, not its
  address, and identities are never reused. This is a modelling choice: in C, a freed
  `l_io`'s address can come back from a later `l_io_new`.

The kernel's descriptor contract is a precondition: descriptors returned by `socket()`,
`accept()` and `unix_connect()` are not already open.

The proved properties:

- **Peer symmetry.** A relaying handle whose own destroy is not pending has a peer that
  relays back to it.
- **Descriptor ownership.** Every descriptor is owned by at most one live handle, and no
  descriptor the relay opened is leaked.
- **Deferred teardown.** A readable event never destroys a handle or closes a
  descriptor. Its only teardown effect is one entry appended to the idle queue.
- **Destroyed at most once.** Pending destroys name distinct live handles, and a handle
  destroyed at any step of a schedule is not live at any later step.
- **Close propagation.** End of stream on one side of a pair destroys both sides and
  closes both descriptors by the end of the idle phase that follows the batch of readable
  events, whatever the rest of the batch does.
- **Byte-exact forwarding.** The bytes written to the peer equal the bytes read, chunk by
  chunk, in order.

## Model

| member | source | states |
|---|---|---|
| Tcp4.ReadLen | inetbr/tcp4.c:76-78 | `read()` returns the number of bytes delivered when it delivered data (0 at end of stream), and -1 exactly on an error |
| Tcp4.ReadCb | inetbr/tcp4.c:65-88 | returns true exactly when `read()` delivered at least one byte; on end of stream or error nothing changes and nothing is written; otherwise between 1 and 1280 bytes were read and exactly those bytes, in order, go to the peer's descriptor in one `write()`, and nothing else changes |
| Tcp4.WriteResultIgnored | inetbr/tcp4.c:81-87 | the outcome of `write()` does not affect `read_cb`'s result or state: a failed or short write is not retried |
| Tcp4.Forward | inetbr/tcp4.c:74-87 | a read that delivers a non-empty chunk keeps the handler registered; exactly that chunk is written to the peer's descriptor, and the handle table, open descriptors and idle queue are unchanged |
| Tcp4.ForwardAllIsExact | inetbr/tcp4.c:65-88 | over any sequence of non-empty chunks, the stream written to the peer's descriptor grows by exactly their concatenation, and no other descriptor receives anything |
| Tcp4.DestroyCb | inetbr/tcp4.c:54-63 | `destroy_cb` destroys nothing and closes nothing; it appends exactly one one-shot for the peer to the idle queue |
| Tcp4.IoDestroy | inetbr/tcp4.c:46-52 | `destroy_io` / `l_io_destroy` removes exactly that handle; it closes its descriptor iff close-on-destroy is set; a relaying handle queues its peer's destroy, a listener or cleared handle queues nothing |
| Tcp4.AcceptTcp4Cb | inetbr/tcp4.c:90-131 | returns true on every path; if `accept()` fails or the connector fails (client socket closed again), the state is unchanged; on success two fresh close-on-destroy handles own the client and service descriptors and relay to each other, and nothing else changes |
| Tcp4.SetupErrno | inetbr/tcp4.c:142-170 | the reported error is absent exactly when `socket`, `setsockopt`, `bind` and `listen` all succeed |
| Tcp4.Tcp4Start | inetbr/tcp4.c:133-183 | returns 0 or a negative value, 0 exactly when every step succeeds; a failure returns minus the first failing step's errno and leaves the state as it was (socket closed, `io4` untouched); success sets `io4` to a new close-on-destroy listener on the socket with `accept_tcp4_cb` and no destroy function |
| Tcp4.Tcp4Stop | inetbr/tcp4.c:185-189 | with `io4` unset nothing changes; otherwise exactly the listener is destroyed and `io4` keeps naming it |
| Mainloop.HandlerDone | inetbr/tcp4.c:127-128 | a relaying handler that gives up queues one destroy of its peer and has its handler cleared; no handle is removed and no descriptor closed |
| Lifetime.InitialInv | inetbr/tcp4.c:44 | the invariant holds before `tcp4_start`, with `io4` unset and nothing registered |
| Lifetime.DeliverableUnderInv | inetbr/tcp4.c:65-80 | under the invariant, the peer `read_cb` writes to is a live handle |
| Lifetime.PeerSymmetry | inetbr/tcp4.c:127-128 | a relaying handle with no pending destroy has a live peer that relays back to it and has no pending destroy either |
| Lifetime.PairKeepsInv | inetbr/tcp4.c:119-128 | two fresh close-on-destroy handles on two fresh descriptors, relaying to each other, keep the invariant |
| Lifetime.AcceptKeepsInv | inetbr/tcp4.c:106-130 | accepting keeps symmetric links, single ownership of descriptors and no leak, on all three paths |
| Lifetime.HandlerDoneKeepsInv | inetbr/tcp4.c:54-63 | a relaying handle giving up keeps the invariant |
| Lifetime.DispatchKeepsInv | inetbr/tcp4.c:65-131 | a readable event keeps the invariant, whichever handler runs and whatever it returns |
| Lifetime.RunIdleKeepsInv | inetbr/tcp4.c:46-52 | the oldest one-shot names a live handle; after it runs, that handle is neither live nor queued again, every other handle is unchanged, and the invariant holds |
| Lifetime.StartKeepsInv | inetbr/tcp4.c:172-182 | `tcp4_start` keeps the invariant on success and on failure |
| Lifetime.StopKeepsInv | inetbr/tcp4.c:185-189 | `tcp4_stop` keeps the invariant; relay handles and the idle queue are untouched; only the listener's descriptor is closed |
| Lifetime.DispatchOnlyDefers | inetbr/tcp4.c:58-62 | given only that identities are issued once, a readable event removes no handle and closes no descriptor; it opens only descriptors `accept`/`unix_connect` returned; it grows the idle queue by at most one entry at its end; the handle keeps its descriptor, `io4` is unchanged and new handles get fresh identities |
| Schedules.RunBatch | inetbr/tcp4.c:58-62 | in a batch of readable events, every handle named stays live until its event is delivered; the invariant holds throughout; the queue only grows at its end |
| Schedules.NoClosingWhenIdle | inetbr/tcp4.c:54-63 | with no one-shot pending, every live handle still has its read handler |
| Schedules.SettledAfterRunIdle | inetbr/tcp4.c:46-52 | a one-shot destroys only handles that are queued or closing |
| Schedules.DrainIdle | inetbr/tcp4.c:46-63 | after the idle phase nothing is pending; exactly the handles that were neither queued nor closing survive; all surviving links are symmetric |
| Schedules.NotSettledStaysBatch | inetbr/tcp4.c:58-62 | a live handle that is queued or closed stays live, queued or closed, and on the same descriptor, through any batch of readable events |
| Schedules.GoneAfterDrain | inetbr/tcp4.c:46-52 | a live handle that is queued or closed is destroyed, and its descriptor closed, by the idle phase |
| Schedules.ClosePropagates | inetbr/tcp4.c:54-78 | end of stream or an error on one side of a connected pair, followed by any other readable events of the same batch (the peer's own `read_cb` included), leads to both handles being destroyed and both descriptors closed by the end of the idle phase after that batch |
| Schedules.Step | inetbr/tcp4.c:44-189 | any reactor step keeps the invariant and gives new handles only fresh identities |
| Schedules.Run | inetbr/tcp4.c:44-189 | over any schedule the invariant holds at the end, and no handle already destroyed when the schedule starts is live afterwards |
| Schedules.GoneStaysGone | inetbr/tcp4.c:46-52 | an identity that was issued and is no longer live stays not live after any number of further steps |
| Schedules.DestroyedStaysGone | inetbr/tcp4.c:46-52 | a handle destroyed at any step of a schedule is not live at any later step, nor at its end: each handle is destroyed at most once |
| Bridge.SysRead | inetbr/tcp4.c:76 | `read()` returns the byte count or -1, and the buffer's first bytes are the bytes delivered |
| Bridge.Tcp4Bridge.constructor | inetbr/tcp4.c:44 | the object starts as the initial reactor state and satisfies the invariant |
| Bridge.Tcp4Bridge.IoNew | inetbr/tcp4.c:119-122 | `l_io_new` registers a fresh handle on the descriptor, as `Ell.IoNew` says |
| Bridge.Tcp4Bridge.SetCloseOnDestroy | inetbr/tcp4.c:120-123 | `l_io_set_close_on_destroy` sets the flag, as `Ell.SetCloseOnDestroy` says |
| Bridge.Tcp4Bridge.SetReadHandler | inetbr/tcp4.c:127-128 | `l_io_set_read_handler` installs the handler, as `Ell.SetReadHandler` says |
| Bridge.Tcp4Bridge.DestroyCb | inetbr/tcp4.c:54-63 | changes the object exactly as `Tcp4.DestroyCb` |
| Bridge.Tcp4Bridge.IoDestroy | inetbr/tcp4.c:49 | changes the object exactly as `Tcp4.IoDestroy` |
| Bridge.Tcp4Bridge.DestroyIo | inetbr/tcp4.c:46-52 | changes the object exactly as `Tcp4.IoDestroy` |
| Bridge.Tcp4Bridge.ReadCb | inetbr/tcp4.c:65-88 | fills a 1280-byte buffer, writes its first bytes out; object and result exactly as `Tcp4.ReadCb` |
| Bridge.Tcp4Bridge.AcceptTcp4Cb | inetbr/tcp4.c:90-131 | object and result exactly as `Tcp4.AcceptTcp4Cb` |
| Bridge.Tcp4Bridge.Tcp4Start | inetbr/tcp4.c:133-183 | object and result exactly as `Tcp4.Tcp4Start`, and the invariant is kept |
| Bridge.Tcp4Bridge.Tcp4Stop | inetbr/tcp4.c:185-189 | object exactly as `Tcp4.Tcp4Stop`, and the invariant is kept |
| Bridge.Tcp4Bridge.HandlerDone | inetbr/tcp4.c:127-128 | object exactly as `Mainloop.HandlerDone` |
| Bridge.Tcp4Bridge.Dispatch | inetbr/tcp4.c:65-131 | a readable event on a live handle is deliverable under the invariant; the object changes exactly as `Mainloop.Dispatch` and the invariant is kept |
| Bridge.Tcp4Bridge.RunIdle | inetbr/tcp4.c:46-63 | the oldest one-shot destroys a handle that was live and is not afterwards; object exactly as `Mainloop.RunIdle`, invariant kept |

## Left out

- Socket semantics are outcomes the environment chooses. This covers the port number,
  `SO_REUSEADDR`, the backlog of 1, TCP behaviour, the peer address filled in by
  `accept()`, and partial reads beyond the 1280-byte bound.
- The bytes a short write drops are not modelled. The write log records what was handed
  to `write()`, so a partial or failed write is not separated from a full one. The source
  ignores the result too.
- Logging (`hal_log_*`), `inet_ntop` formatting and `strerror` have no effect on the state
  and are left out.
- `unix_connect()` is not part of this model. It returns either a fresh descriptor or a
  failure.
- ell internals are not modelled: epoll, memory, pointers, and the ordering of idle
  one-shots beyond FIFO. The model states only the callback contracts listed above.
- A NULL return from `l_io_new` (allocation failure) is not modelled. The source does not
  check for it either.
- Tcp4.Tcp4Stop: requires that a set `io4` names a live handle. The source never resets
  `io4`, so a second `tcp4_stop` would destroy a freed `l_io`, or, once its address has
  been reused, a live one (see the next line). The model does not
  describe that call; its contract states that `io4` is left dangling.
- Address reuse is abstracted away: handles are object identities that are never reused,
  while in C a freed `l_io`'s address can be returned again by `l_io_new`. So the model
  does not capture a stale pointer that aliases a newer object. For example, after
  `tcp4_stop`, the stale `io4` may equal the address of a later relay `l_io`. That can
  happen when a repeated `tcp4_start` left an orphaned listener that keeps accepting. A
  second `tcp4_stop` would then destroy that live relay handle, not just a freed object.
  `Lifetime.ListenerOk` relies on the identities being distinct.
- Schedules.RunBatch: assumes that the kernel hands out distinct fresh descriptors within
  one batch.
- Schedules.DrainIdle: runs the idle phase until the queue is empty. Interleaving events
  with one-shots is covered separately by `Schedules.Run`.
- `src/amqp.c` and `src/tcp.c` are not part of this model. They are thin wrappers over
  the AMQP client library and the socket calls.
