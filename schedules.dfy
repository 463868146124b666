/**
 * What the invariant buys over whole schedules of the reactor: one batch of
 * readable events, the idle phase that follows it, close propagation across
 * a pair, and arbitrary interleavings of events, idle one-shots, tcp4_start
 * and tcp4_stop.
 */
module Schedules {
  import opened Ell
  import opened Tcp4
  import opened Mainloop
  import opened Lifetime

  /** A readable event the dispatcher found in one batch of ready descriptors. */
  datatype Ready = Ready(h: HandleId, o: Outcomes)

  /**
   * The kernel's descriptors over a batch: each event's are fresh when it is
   * delivered and none is handed out twice within the batch.
   */
  ghost predicate BatchFresh(openFds: set<Fd>, batch: seq<Ready>)
    decreases |batch|
  {
    batch != [] ==>
      && FreshFds(openFds, batch[0].o.accepted, batch[0].o.connected)
      && BatchFresh(openFds + OpenedBy(batch[0].o), batch[1..])
  }

  lemma {:induction false} BatchFreshSmaller(a: set<Fd>, b: set<Fd>, batch: seq<Ready>)
    requires a <= b && BatchFresh(b, batch)
    ensures BatchFresh(a, batch)
    decreases |batch|
  {
    if batch != [] {
      BatchFreshSmaller(a + OpenedBy(batch[0].o), b + OpenedBy(batch[0].o), batch[1..]);
    }
  }

  /**
   * One batch of readable events, delivered in order.  Every handle the
   * batch names was live when the batch was collected, and it is still live
   * when its event is delivered: no callback destroys a handle or closes a
   * descriptor the relay held, and the idle queue only grows at its end.
   * This is what deferring peer destruction to the idle queue buys.
   */
  function RunBatch(s: State, batch: seq<Ready>): (r: State)
    requires Inv(s)
    requires forall e :: e in batch ==> e.h in s.handles && FitsBuffer(e.o.got)
    requires BatchFresh(s.openFds, batch)
    ensures Inv(r)
    ensures s.handles.Keys <= r.handles.Keys
    ensures s.openFds <= r.openFds
    ensures |s.idle| <= |r.idle| && forall i :: 0 <= i < |s.idle| ==> r.idle[i] == s.idle[i]
    decreases |batch|
  {
    if batch == [] then s
    else
      var e := batch[0];
      DeliverableUnderInv(s, e.h, e.o);
      DispatchKeepsInv(s, e.h, e.o);
      DispatchOnlyDefers(s, e.h, e.o);
      var s1 := Dispatch(s, e.h, e.o);
      BatchFreshSmaller(s1.openFds, s.openFds + OpenedBy(e.o), batch[1..]);
      RunBatch(s1, batch[1..])
  }

  /** The handles the idle phase leaves alone: live, not queued, and still holding a read handler. */
  function Settled(s: State): (m: map<HandleId, Handle>)
  {
    map x | x in s.handles && x !in s.idle && s.handles[x].reader.Some? :: s.handles[x]
  }

  /** With no one-shot pending, no handle is closing: every side that closed has been destroyed. */
  lemma NoClosingWhenIdle(s: State)
    requires Inv(s) && s.idle == []
    ensures forall x :: x in s.handles ==> s.handles[x].reader.Some?
    ensures Settled(s) == s.handles
  {
  }

  /** One idle one-shot destroys nothing but queued or closing handles. */
  lemma SettledAfterRunIdle(s: State)
    requires Inv(s) && s.idle != []
    ensures s.idle[0] in s.handles
    ensures Settled(RunIdle(s)) == Settled(s)
  {
    RunIdleKeepsInv(s);
    NoDupTail(s.idle);
    var h := s.idle[0];
    var r := RunIdle(s);
    var rest := s.idle[1..];
    assert h in s.idle;
    // The only entry a destroy may add is the closing peer of a relaying head.
    var added: set<HandleId> := {};
    if s.handles[h].reader.Some? && s.handles[h].reader.value.Relaying? {
      var p := s.handles[h].reader.value.peer;
      assert PointsTo(s.handles, h, p) && PeerOk(s.handles, s.idle, h, p);
      assert r.idle == rest + [p];
      added := {p};
    } else {
      assert r.idle == rest;
    }
    assert forall a :: a in r.idle <==> a in rest || a in added;
    assert forall a :: a in added ==> Closing(s.handles, a);
    forall x ensures x in Settled(r) <==> x in Settled(s) {
      if x in s.handles && x != h && s.handles[x].reader.Some? {
        assert x in r.idle <==> x in s.idle;
      }
    }
  }

  /**
   * The idle phase: pending one-shots run, oldest first, until none is left.
   * Exactly the settled handles survive; in particular every handle that had
   * closed, and every handle whose destroy was pending, is gone, and what
   * remains are listeners and pairs whose two sides both still relay.
   */
  function DrainIdle(s: State): (r: State)
    requires Inv(s)
    ensures Inv(r) && r.idle == []
    ensures r.handles == Settled(s)
    ensures forall x, y :: PointsTo(r.handles, x, y) ==> PointsTo(r.handles, y, x)
    decreases |s.handles.Keys|
  {
    if s.idle == [] then
      NoClosingWhenIdle(s);
      s
    else
      RunIdleKeepsInv(s);
      SettledAfterRunIdle(s);
      var s1 := RunIdle(s);
      assert s1.handles.Keys == s.handles.Keys - {s.idle[0]};
      DrainIdle(s1)
  }

  /**
   * A handle that is live but not settled (queued, or closed) stays so across a
   * readable event, and keeps its descriptor.
   */
  lemma NotSettledStays(s: State, h: HandleId, o: Outcomes, z: HandleId)
    requires Inv(s) && Deliverable(s, h, o)
    requires z in s.handles && z !in Settled(s)
    ensures var r := Dispatch(s, h, o);
      z in r.handles && z !in Settled(r) && r.handles[z].fd == s.handles[z].fd
  {
    DispatchOnlyDefers(s, h, o);
    var r := Dispatch(s, h, o);
    if z in s.idle {
      var i :| 0 <= i < |s.idle| && s.idle[i] == z;
      assert r.idle[i] == z;
    } else if z == h {
      assert r == s;
    }
  }

  /** The same across a whole batch of readable events. */
  lemma {:induction false} NotSettledStaysBatch(s: State, batch: seq<Ready>, z: HandleId)
    requires Inv(s)
    requires forall e :: e in batch ==> e.h in s.handles && FitsBuffer(e.o.got)
    requires BatchFresh(s.openFds, batch)
    requires z in s.handles && z !in Settled(s)
    ensures var r := RunBatch(s, batch);
      z in r.handles && z !in Settled(r) && r.handles[z].fd == s.handles[z].fd
    decreases |batch|
  {
    if batch != [] {
      var e := batch[0];
      DeliverableUnderInv(s, e.h, e.o);
      DispatchKeepsInv(s, e.h, e.o);
      DispatchOnlyDefers(s, e.h, e.o);
      NotSettledStays(s, e.h, e.o, z);
      var s1 := Dispatch(s, e.h, e.o);
      BatchFreshSmaller(s1.openFds, s.openFds + OpenedBy(e.o), batch[1..]);
      NotSettledStaysBatch(s1, batch[1..], z);
    }
  }

  /** A live handle that is not settled is destroyed, and its descriptor closed, by the idle phase. */
  lemma GoneAfterDrain(b: State, z: HandleId)
    requires Inv(b) && z in b.handles && z !in Settled(b)
    ensures z !in DrainIdle(b).handles && b.handles[z].fd !in DrainIdle(b).openFds
  {
    var r := DrainIdle(b);
    var fd := b.handles[z].fd;
    if fd in r.openFds {
      var w :| Owns(r.handles, w, fd);
      assert Owns(b.handles, w, fd) && Owns(b.handles, z, fd);
    }
  }

  /**
   * Close propagation: when one side of a connected pair reads end of stream
   * or an error, that side and its peer are both destroyed, and both
   * descriptors closed, by the end of the idle phase that follows the batch
   * of readable events, whatever the rest of the batch does (the peer's own
   * read_cb writing into the closed side included).
   */
  lemma ClosePropagates(s: State, x: HandleId, y: HandleId, o: Outcomes, rest: seq<Ready>)
    requires Inv(s) && PointsTo(s.handles, x, y) && x !in s.idle
    requires o.got == Data([]) || o.got.ReadError?
    requires forall e :: e in [Ready(x, o)] + rest ==> e.h in s.handles && FitsBuffer(e.o.got)
    requires BatchFresh(s.openFds, [Ready(x, o)] + rest)
    ensures Inv(RunBatch(s, [Ready(x, o)] + rest))
    ensures var r := DrainIdle(RunBatch(s, [Ready(x, o)] + rest));
      && x !in r.handles && y !in r.handles
      && s.handles[x].fd !in r.openFds && s.handles[y].fd !in r.openFds
  {
    var batch := [Ready(x, o)] + rest;
    assert batch[0] == Ready(x, o) && batch[1..] == rest;
    DeliverableUnderInv(s, x, o);
    DispatchKeepsInv(s, x, o);
    DispatchOnlyDefers(s, x, o);
    HandlerDoneKeepsInv(s, x, y);
    var s1 := Dispatch(s, x, o);
    assert s1 == HandlerDone(s, x);
    assert y in s1.idle;
    assert x !in Settled(s1) && y !in Settled(s1);
    BatchFreshSmaller(s1.openFds, s.openFds + OpenedBy(o), rest);
    assert RunBatch(s, batch) == RunBatch(s1, rest);
    var b := RunBatch(s1, rest);
    NotSettledStaysBatch(s1, rest, x);
    NotSettledStaysBatch(s1, rest, y);
    GoneAfterDrain(b, x);
    GoneAfterDrain(b, y);
  }

  /** Anything that can happen to the relay: a readable event, an idle one-shot, tcp4_start or tcp4_stop. */
  datatype Event =
    | Readable(h: HandleId, o: Outcomes)
    | IdleTick
    | Start(sock: FdResult, opt: Status, bound: Status, listening: Status)
    | Stop

  /**
   * When each can happen: readiness is only reported for live handles, an
   * idle tick needs a pending one-shot, the kernel keeps its descriptor
   * contracts, and tcp4_stop is not called on a listener already destroyed.
   */
  ghost predicate Enabled(s: State, e: Event)
  {
    match e
    case Readable(h, o) =>
      h in s.handles && FitsBuffer(o.got) && FreshFds(s.openFds, o.accepted, o.connected)
    case IdleTick => s.idle != []
    case Start(sock, _, _, _) => sock.Opened? ==> sock.fd !in s.openFds
    case Stop => s.io4.Some? ==> s.io4.value in s.handles
  }

  /**
   * One step of the reactor.  The invariant is kept, and no handle that was
   * destroyed before the step is live after it: a handle identity is
   * destroyed at most once and never comes back.
   */
  function Step(s: State, e: Event): (r: State)
    requires Inv(s) && Enabled(s, e)
    ensures Inv(r)
    ensures s.nextId <= r.nextId
    ensures forall x :: x in r.handles && x !in s.handles ==> s.nextId <= x
  {
    match e
    case Readable(h, o) =>
      DeliverableUnderInv(s, h, o);
      DispatchKeepsInv(s, h, o);
      DispatchOnlyDefers(s, h, o);
      Dispatch(s, h, o)
    case IdleTick =>
      RunIdleKeepsInv(s);
      RunIdle(s)
    case Start(sock, opt, bound, listening) =>
      StartKeepsInv(s, sock, opt, bound, listening);
      Tcp4Start(s, sock, opt, bound, listening).0
    case Stop =>
      StopKeepsInv(s);
      Tcp4Stop(s)
  }

  /** Every event of the schedule is enabled when its turn comes. */
  ghost predicate RunOk(s: State, es: seq<Event>)
    requires Inv(s)
    decreases |es|
  {
    es != [] ==> Enabled(s, es[0]) && RunOk(Step(s, es[0]), es[1..])
  }

  /**
   * Any schedule of events.  The invariant holds at the end (peer symmetry,
   * one owner per descriptor, no leaked descriptor, every pending destroy
   * names a live handle once), and a handle destroyed before the schedule,
   * or during it, is not live afterwards.
   */
  function Run(s: State, es: seq<Event>): (r: State)
    requires Inv(s) && RunOk(s, es)
    ensures Inv(r)
    ensures s.nextId <= r.nextId
    ensures forall x :: x < s.nextId && x !in s.handles ==> x !in r.handles
    decreases |es|
  {
    if es == [] then s else Run(Step(s, es[0]), es[1..])
  }

  /** The state after the first k events of the schedule. */
  function After(s: State, es: seq<Event>, k: nat): (r: State)
    requires Inv(s) && RunOk(s, es) && k <= |es|
    ensures Inv(r)
    decreases k
  {
    if k == 0 then s else After(Step(s, es[0]), es[1..], k - 1)
  }

  /** Running the whole schedule is taking all its steps. */
  lemma {:induction false} RunIsAfterAll(s: State, es: seq<Event>)
    requires Inv(s) && RunOk(s, es)
    ensures Run(s, es) == After(s, es, |es|)
    decreases |es|
  {
    if es != [] {
      RunIsAfterAll(Step(s, es[0]), es[1..]);
    }
  }

  /** An identity already issued and not live stays not live for the rest of the schedule. */
  lemma {:induction false} GoneStaysGone(s: State, es: seq<Event>, j: nat, x: HandleId)
    requires Inv(s) && RunOk(s, es) && j <= |es|
    requires x < s.nextId && x !in s.handles
    ensures x !in After(s, es, j).handles
    decreases j
  {
    if j > 0 {
      GoneStaysGone(Step(s, es[0]), es[1..], j - 1, x);
    }
  }

  /**
   * Destroyed at most once: a handle that is live after k events and not
   * after k + 1 is never live again, at any later point of the schedule or
   * at its end.
   */
  lemma {:induction false} DestroyedStaysGone(s: State, es: seq<Event>, k: nat, x: HandleId)
    requires Inv(s) && RunOk(s, es) && k < |es|
    requires x in After(s, es, k).handles && x !in After(s, es, k + 1).handles
    ensures forall j :: k < j <= |es| ==> x !in After(s, es, j).handles
    ensures x !in Run(s, es).handles
    decreases k
  {
    var s1 := Step(s, es[0]);
    if k == 0 {
      assert After(s, es, 1) == s1;
      forall j | 0 < j <= |es| ensures x !in After(s, es, j).handles {
        GoneStaysGone(s1, es[1..], j - 1, x);
      }
    } else {
      DestroyedStaysGone(s1, es[1..], k - 1, x);
      forall j | k < j <= |es| ensures x !in After(s, es, j).handles {
        assert After(s, es, j) == After(s1, es[1..], j - 1);
      }
    }
    RunIsAfterAll(s, es);
  }
}
