/**
 * The lifetime invariant of the relay and its preservation by every step the
 * reactor can take.  A relay pair goes through these states (x and y name
 * each other; "queued" means a destroy_io one-shot for it is pending):
 *   connected   x -> y, y -> x, neither queued;
 *   closing     x gave up (no handler), y -> x, y queued;
 *   half gone   y destroyed (which queued x), x closing and queued;
 *   both gave up  x and y closing and both queued;
 *   closed      both destroyed.
 * The invariant below admits exactly these shapes, plus listener handles.
 */
module Lifetime {
  import opened Ell
  import opened Tcp4
  import opened Mainloop

  /** x's read handler relays to y: read_cb and destroy_cb carry y as user data. */
  predicate PointsTo(m: map<HandleId, Handle>, x: HandleId, y: HandleId)
  {
    x in m && m[x].reader == Some(Relaying(y))
  }

  /** x is live and its read handler has been cleared: its side of the pair has closed. */
  predicate Closing(m: map<HandleId, Handle>, x: HandleId)
  {
    x in m && m[x].reader.None?
  }

  /** Live handle h holds descriptor fd. */
  predicate Owns(m: map<HandleId, Handle>, h: HandleId, fd: Fd)
  {
    h in m && m[h].fd == fd
  }

  /** Handle identities are issued once: every live or remembered handle is older than nextId. */
  ghost predicate IdsIssued(s: State)
  {
    && (forall h :: h in s.handles ==> h < s.nextId)
    && (s.io4.Some? ==> s.io4.value < s.nextId)
  }

  /**
   * Descriptor ownership: every live handle closes its descriptor on destroy
   * and that descriptor is open; no two live handles share a descriptor; and
   * every descriptor the relay holds open belongs to a live handle (nothing leaks).
   */
  ghost predicate FdsOwned(m: map<HandleId, Handle>, openFds: set<Fd>)
  {
    && (forall h :: h in m ==> m[h].closeOnDestroy && m[h].fd in openFds)
    && (forall a, b, fd :: Owns(m, a, fd) && Owns(m, b, fd) ==> a == b)
    && (forall fd :: fd in openFds ==> exists h :: Owns(m, h, fd))
  }

  /**
   * What x -> y requires of y: y is another live handle, no destroy of y is
   * pending, and either y relays back to x and x is not queued either, or y
   * has closed and x's destroy is pending.
   */
  ghost predicate PeerOk(m: map<HandleId, Handle>, idle: seq<HandleId>, x: HandleId, y: HandleId)
  {
    && y in m && y != x && y !in idle
    && ((PointsTo(m, y, x) && x !in idle) || (Closing(m, y) && x in idle))
  }

  /**
   * Peer links: every relaying handle's peer is live and linked as PeerOk
   * says; no two handles relay to the same peer; and a closed side is either
   * queued for destruction or still named by its peer, whose destroy will
   * queue it.
   */
  ghost predicate PeerLinks(m: map<HandleId, Handle>, idle: seq<HandleId>)
  {
    && (forall x, y :: PointsTo(m, x, y) ==> PeerOk(m, idle, x, y))
    && (forall x, z, y :: PointsTo(m, x, y) && PointsTo(m, z, y) ==> x == z)
    && (forall y :: Closing(m, y) ==> y in idle || exists x :: PointsTo(m, x, y))
  }

  /** The idle queue names each handle at most once, only live handles, and never a listener. */
  ghost predicate IdleOk(m: map<HandleId, Handle>, idle: seq<HandleId>)
  {
    && NoDup(idle)
    && (forall h :: h in idle ==> h in m && m[h].reader != Some(Accepting))
  }

  /** No handle occurs twice in q. */
  ghost predicate NoDup(q: seq<HandleId>)
  {
    forall i, j :: 0 <= i < j < |q| ==> q[i] != q[j]
  }

  /** While io4 names a live handle, that handle is a listener. */
  ghost predicate ListenerOk(m: map<HandleId, Handle>, io4: Option<HandleId>)
  {
    io4.Some? && io4.value in m ==> m[io4.value].reader == Some(Accepting)
  }

  ghost predicate Inv(s: State)
  {
    && IdsIssued(s)
    && FdsOwned(s.handles, s.openFds)
    && PeerLinks(s.handles, s.idle)
    && IdleOk(s.handles, s.idle)
    && ListenerOk(s.handles, s.io4)
  }

  lemma InitialInv()
    ensures Inv(Initial())
  {
  }

  /** Under the invariant, a readable event on a live handle can be delivered: its peer, if any, is live. */
  lemma DeliverableUnderInv(s: State, h: HandleId, o: Outcomes)
    requires Inv(s) && h in s.handles
    requires FitsBuffer(o.got)
    requires s.handles[h].reader == Some(Accepting) ==> FreshFds(s.openFds, o.accepted, o.connected)
    ensures Deliverable(s, h, o)
  {
    if s.handles[h].reader.Some? && s.handles[h].reader.value.Relaying? {
      assert PointsTo(s.handles, h, s.handles[h].reader.value.peer);
    }
  }

  /**
   * Peer symmetry: while a handle's own destroy is not pending, its peer
   * relays back to it and has no destroy pending either.
   */
  lemma PeerSymmetry(s: State, x: HandleId, y: HandleId)
    requires Inv(s) && PointsTo(s.handles, x, y) && x !in s.idle
    ensures PointsTo(s.handles, y, x) && y !in s.idle && x != y
  {
  }

  // ---------------------------------------------------------------------
  // Queue facts

  lemma NoDupAppend(q: seq<HandleId>, y: HandleId)
    requires NoDup(q) && y !in q
    ensures NoDup(q + [y])
  {
    forall i, j | 0 <= i < j < |q + [y]| ensures (q + [y])[i] != (q + [y])[j] {
      if j == |q| {
        assert (q + [y])[i] == q[i];
      } else {
        assert (q + [y])[i] == q[i] && (q + [y])[j] == q[j];
      }
    }
  }

  /** Dropping the head of a queue without duplicates: the head is gone and every other entry stays. */
  lemma NoDupTail(q: seq<HandleId>)
    requires NoDup(q) && q != []
    ensures NoDup(q[1..])
    ensures forall a :: a in q[1..] <==> a in q && a != q[0]
  {
    forall a | a in q[1..] ensures a in q && a != q[0] {
      var k :| 0 <= k < |q[1..]| && q[1..][k] == a;
      assert q[k + 1] == a;
    }
    forall a | a in q && a != q[0] ensures a in q[1..] {
      var k :| 0 <= k < |q| && q[k] == a;
      assert k != 0;
      assert q[1..][k - 1] == a;
    }
  }

  // ---------------------------------------------------------------------
  // Descriptor ownership under the three ways the handle table changes

  lemma FdsAfterAdd(m: map<HandleId, Handle>, openFds: set<Fd>, k: HandleId, hd: Handle)
    requires FdsOwned(m, openFds) && k !in m && hd.fd !in openFds && hd.closeOnDestroy
    ensures FdsOwned(m[k := hd], openFds + {hd.fd})
  {
    var m' := m[k := hd];
    forall a, b, fd | Owns(m', a, fd) && Owns(m', b, fd) ensures a == b {
      if a != k && b != k {
        assert Owns(m, a, fd) && Owns(m, b, fd);
      }
    }
    forall fd | fd in openFds + {hd.fd} ensures exists h :: Owns(m', h, fd) {
      if fd == hd.fd {
        assert Owns(m', k, fd);
      } else {
        var h :| Owns(m, h, fd);
        assert Owns(m', h, fd);
      }
    }
  }

  lemma FdsAfterRelease(m: map<HandleId, Handle>, openFds: set<Fd>, h: HandleId)
    requires FdsOwned(m, openFds) && h in m
    ensures FdsOwned(m - {h}, openFds - {m[h].fd})
  {
    var m' := m - {h};
    forall x | x in m' ensures m'[x].closeOnDestroy && m'[x].fd in openFds - {m[h].fd} {
      assert Owns(m, x, m[x].fd);
      if m[x].fd == m[h].fd {
        assert Owns(m, h, m[x].fd);
      }
    }
    forall a, b, fd | Owns(m', a, fd) && Owns(m', b, fd) ensures a == b {
      assert Owns(m, a, fd) && Owns(m, b, fd);
    }
    forall fd | fd in openFds - {m[h].fd} ensures exists w :: Owns(m', w, fd) {
      var w :| Owns(m, w, fd);
      assert Owns(m', w, fd);
    }
  }

  lemma FdsAfterReaderChange(m: map<HandleId, Handle>, openFds: set<Fd>, h: HandleId, rd: Option<Reader>)
    requires FdsOwned(m, openFds) && h in m
    ensures FdsOwned(m[h := m[h].(reader := rd)], openFds)
  {
    var m' := m[h := m[h].(reader := rd)];
    forall a, b, fd | Owns(m', a, fd) && Owns(m', b, fd) ensures a == b {
      assert Owns(m, a, fd) && Owns(m, b, fd);
    }
    forall fd | fd in openFds ensures exists w :: Owns(m', w, fd) {
      var w :| Owns(m, w, fd);
      assert Owns(m', w, fd);
    }
  }

  // ---------------------------------------------------------------------
  // Peer links and the idle queue under each change the relay makes

  /** accept_tcp4_cb's new pair: two fresh handles relaying to each other. */
  lemma LinksAfterPair(m: map<HandleId, Handle>, idle: seq<HandleId>, c: HandleId, u: HandleId, fc: Fd, fu: Fd)
    requires PeerLinks(m, idle) && IdleOk(m, idle)
    requires c !in m && u !in m && c != u
    ensures var m' := m[c := Handle(fc, true, Some(Relaying(u)))][u := Handle(fu, true, Some(Relaying(c)))];
      PeerLinks(m', idle) && IdleOk(m', idle)
  {
    var m' := m[c := Handle(fc, true, Some(Relaying(u)))][u := Handle(fu, true, Some(Relaying(c)))];
    assert c !in idle && u !in idle;
    forall x, y | PointsTo(m', x, y) ensures PeerOk(m', idle, x, y) {
      if x != c && x != u {
        assert PointsTo(m, x, y) && PeerOk(m, idle, x, y);
      }
    }
    forall x, z, y | PointsTo(m', x, y) && PointsTo(m', z, y) ensures x == z {
      if x != c && x != u {
        assert PointsTo(m, x, y) && PeerOk(m, idle, x, y);
      }
      if z != c && z != u {
        assert PointsTo(m, z, y) && PeerOk(m, idle, z, y);
      }
      if x != c && x != u && z != c && z != u {
        assert PointsTo(m, x, y) && PointsTo(m, z, y);
      }
    }
    forall y | Closing(m', y) ensures y in idle || exists x :: PointsTo(m', x, y) {
      assert Closing(m, y);
      if y !in idle {
        var x :| PointsTo(m, x, y);
        assert PointsTo(m', x, y);
      }
    }
  }

  /** tcp4_start's new listener: a fresh handle that nothing relays to. */
  lemma LinksAfterListener(m: map<HandleId, Handle>, idle: seq<HandleId>, l: HandleId, fd: Fd)
    requires PeerLinks(m, idle) && IdleOk(m, idle) && l !in m
    ensures var m' := m[l := Handle(fd, true, Some(Accepting))];
      PeerLinks(m', idle) && IdleOk(m', idle)
  {
    var m' := m[l := Handle(fd, true, Some(Accepting))];
    forall x, y | PointsTo(m', x, y) ensures PeerOk(m', idle, x, y) {
      assert PointsTo(m, x, y) && PeerOk(m, idle, x, y);
    }
    forall x, z, y | PointsTo(m', x, y) && PointsTo(m', z, y) ensures x == z {
      assert PointsTo(m, x, y) && PointsTo(m, z, y);
    }
    forall y | Closing(m', y) ensures y in idle || exists x :: PointsTo(m', x, y) {
      assert Closing(m, y);
      if y !in idle {
        var x :| PointsTo(m, x, y);
        assert PointsTo(m', x, y);
      }
    }
  }

  /** x's read handler gave up: x is cleared and its peer y is queued. */
  lemma LinksAfterGiveUp(m: map<HandleId, Handle>, idle: seq<HandleId>, x: HandleId, y: HandleId)
    requires PeerLinks(m, idle) && IdleOk(m, idle) && PointsTo(m, x, y)
    ensures var m' := m[x := m[x].(reader := None)];
      PeerLinks(m', idle + [y]) && IdleOk(m', idle + [y])
  {
    var m' := m[x := m[x].(reader := None)];
    var idle' := idle + [y];
    assert PeerOk(m, idle, x, y);
    forall a, b | PointsTo(m', a, b) ensures PeerOk(m', idle', a, b) {
      assert PointsTo(m, a, b) && a != x;
      assert PeerOk(m, idle, a, b);
      assert b != y;
      if a == y {
        assert b == x;
      }
    }
    forall a, c, b | PointsTo(m', a, b) && PointsTo(m', c, b) ensures a == c {
      assert PointsTo(m, a, b) && PointsTo(m, c, b);
    }
    forall z | Closing(m', z) ensures z in idle' || exists w :: PointsTo(m', w, z) {
      if z == x {
        if x !in idle {
          assert PointsTo(m', y, x);
        }
      } else {
        assert Closing(m, z);
        if z !in idle {
          var w :| PointsTo(m, w, z);
          if w == x {
            assert z == y;
          } else {
            assert PointsTo(m', w, z);
          }
        }
      }
    }
    NoDupAppend(idle, y);
  }

  /** The oldest one-shot destroyed h; if h was relaying, its peer has been queued. */
  lemma LinksAfterDestroy(m: map<HandleId, Handle>, idle: seq<HandleId>)
    requires PeerLinks(m, idle) && IdleOk(m, idle) && idle != []
    ensures var h := idle[0];
      var idle' := match m[h].reader
                   case Some(Relaying(p)) => idle[1..] + [p]
                   case _ => idle[1..];
      PeerLinks(m - {h}, idle') && IdleOk(m - {h}, idle')
  {
    var h := idle[0];
    assert h in idle;
    var rest := idle[1..];
    NoDupTail(idle);
    var m' := m - {h};
    var idle' := match m[h].reader
                 case Some(Relaying(p)) => rest + [p]
                 case _ => rest;
    if m[h].reader.Some? && m[h].reader.value.Relaying? {
      var p := m[h].reader.value.peer;
      assert PointsTo(m, h, p) && PeerOk(m, idle, h, p);
      assert Closing(m, p) && p !in idle;
      NoDupAppend(rest, p);
    }
    forall a, b | PointsTo(m', a, b) ensures PeerOk(m', idle', a, b) {
      assert PointsTo(m, a, b) && PeerOk(m, idle, a, b);
    }
    forall a, c, b | PointsTo(m', a, b) && PointsTo(m', c, b) ensures a == c {
      assert PointsTo(m, a, b) && PointsTo(m, c, b);
    }
    forall z | Closing(m', z) ensures z in idle' || exists w :: PointsTo(m', w, z) {
      assert Closing(m, z);
      if z !in idle {
        var w :| PointsTo(m, w, z);
        if w != h {
          assert PointsTo(m', w, z);
        }
      }
    }
  }

  /** tcp4_stop removed the listener l, which nothing relays to and nothing has queued. */
  lemma LinksAfterStop(m: map<HandleId, Handle>, idle: seq<HandleId>, l: HandleId)
    requires PeerLinks(m, idle) && IdleOk(m, idle) && l in m && m[l].reader == Some(Accepting)
    ensures PeerLinks(m - {l}, idle) && IdleOk(m - {l}, idle)
  {
    var m' := m - {l};
    forall x, y | PointsTo(m', x, y) ensures PeerOk(m', idle, x, y) {
      assert PointsTo(m, x, y) && PeerOk(m, idle, x, y);
    }
    forall x, z, y | PointsTo(m', x, y) && PointsTo(m', z, y) ensures x == z {
      assert PointsTo(m, x, y) && PointsTo(m, z, y);
    }
    forall y | Closing(m', y) ensures y in idle || exists x :: PointsTo(m', x, y) {
      assert Closing(m, y);
      if y !in idle {
        var x :| PointsTo(m, x, y);
        assert PointsTo(m', x, y);
      }
    }
  }

  // ---------------------------------------------------------------------
  // Every step keeps the invariant

  /** A new relay pair on two fresh descriptors keeps the invariant. */
  lemma PairKeepsInv(s: State, r: State, fc: Fd, fu: Fd)
    requires Inv(s) && PairedAt(s, r, fc, fu)
    requires fc !in s.openFds && fu !in s.openFds && fc != fu
    ensures Inv(r)
  {
    var m: map<HandleId, Handle> := s.handles;
    var c: HandleId, u: HandleId := s.nextId, s.nextId + 1;
    var hc := Handle(fc, true, Some(Relaying(u)));
    var hu := Handle(fu, true, Some(Relaying(c)));
    assert c !in m && u !in m;
    assert r.handles == m[c := hc][u := hu];
    assert r.openFds == s.openFds + {fc} + {fu};
    FdsAfterAdd(m, s.openFds, c, hc);
    FdsAfterAdd(m[c := hc], s.openFds + {fc}, u, hu);
    assert FdsOwned(r.handles, r.openFds);
    LinksAfterPair(m, s.idle, c, u, fc, fu);
    assert PeerLinks(r.handles, r.idle) && IdleOk(r.handles, r.idle);
    assert IdsIssued(r);
    assert ListenerOk(r.handles, r.io4) by {
      if r.io4.Some? && r.io4.value in r.handles {
        assert r.io4.value < c;
      }
    }
  }

  /** accept_tcp4_cb keeps the invariant: the new pair is linked both ways and owns two fresh descriptors. */
  lemma AcceptKeepsInv(s: State, io: HandleId, accepted: FdResult, connected: FdResult)
    requires Inv(s) && io in s.handles
    requires FreshFds(s.openFds, accepted, connected)
    ensures Inv(AcceptTcp4Cb(s, io, accepted, connected).0)
  {
    if accepted.Opened? && connected.Opened? {
      PairKeepsInv(s, AcceptTcp4Cb(s, io, accepted, connected).0, accepted.fd, connected.fd);
    }
  }

  /** A relaying handle whose read handler gave up keeps the invariant. */
  lemma HandlerDoneKeepsInv(s: State, x: HandleId, y: HandleId)
    requires Inv(s) && PointsTo(s.handles, x, y)
    ensures Inv(HandlerDone(s, x))
  {
    FdsAfterReaderChange(s.handles, s.openFds, x, None);
    LinksAfterGiveUp(s.handles, s.idle, x, y);
  }

  /** A readable event keeps the invariant, whichever handler runs and whatever it returns. */
  lemma DispatchKeepsInv(s: State, h: HandleId, o: Outcomes)
    requires Inv(s) && Deliverable(s, h, o)
    ensures Inv(Dispatch(s, h, o))
  {
    match s.handles[h].reader
    case None =>
    case Some(Accepting) =>
      AcceptKeepsInv(s, h, o.accepted, o.connected);
    case Some(Relaying(peer)) =>
      if !ReadCb(s, h, peer, o.got, o.wrote).1 {
        HandlerDoneKeepsInv(s, h, peer);
      }
  }

  /**
   * Running the oldest idle one-shot destroys a live handle, which is then
   * neither live nor queued again; the invariant is kept.
   */
  lemma RunIdleKeepsInv(s: State)
    requires Inv(s) && s.idle != []
    ensures s.idle[0] in s.handles
    ensures Inv(RunIdle(s))
    ensures RunIdle(s).handles == s.handles - {s.idle[0]}
    ensures s.idle[0] !in RunIdle(s).idle
  {
    var h := s.idle[0];
    assert h in s.idle;
    NoDupTail(s.idle);
    FdsAfterRelease(s.handles, s.openFds, h);
    LinksAfterDestroy(s.handles, s.idle);
    if s.handles[h].reader.Some? && s.handles[h].reader.value.Relaying? {
      assert PointsTo(s.handles, h, s.handles[h].reader.value.peer);
    }
  }

  /** tcp4_start keeps the invariant: a new listener owns the fresh socket, or nothing changes. */
  lemma StartKeepsInv(s: State, sock: FdResult, opt: Status, bound: Status, listening: Status)
    requires Inv(s)
    requires sock.Opened? ==> sock.fd !in s.openFds
    ensures Inv(Tcp4Start(s, sock, opt, bound, listening).0)
  {
    if SetupErrno(sock, opt, bound, listening).None? {
      var l := s.nextId;
      assert l !in s.handles;
      FdsAfterAdd(s.handles, s.openFds, l, Handle(sock.fd, true, Some(Accepting)));
      LinksAfterListener(s.handles, s.idle, l, sock.fd);
    }
  }

  /**
   * tcp4_stop keeps the invariant and touches nothing but the listener: no
   * relay handle, no pending one-shot and no other descriptor is affected.
   */
  lemma StopKeepsInv(s: State)
    requires Inv(s)
    requires s.io4.Some? ==> s.io4.value in s.handles
    ensures var r := Tcp4Stop(s);
      && Inv(r)
      && r.idle == s.idle
      && (forall h :: h in r.handles ==> r.handles[h] == s.handles[h])
      && (s.io4.Some? ==> r.openFds == s.openFds - {s.handles[s.io4.value].fd})
  {
    if s.io4.Some? {
      var l := s.io4.value;
      FdsAfterRelease(s.handles, s.openFds, l);
      LinksAfterStop(s.handles, s.idle, l);
    }
  }

  /** The descriptors a readable event may open: those the kernel handed to accept() and unix_connect(). */
  function OpenedBy(o: Outcomes): (fds: set<Fd>)
    ensures o.accepted.Opened? ==> o.accepted.fd in fds
    ensures o.connected.Opened? ==> o.connected.fd in fds
  {
    (if o.accepted.Opened? then {o.accepted.fd} else {}) + (if o.connected.Opened? then {o.connected.fd} else {})
  }

  /**
   * Deferred destruction: a readable event, whatever its handler does,
   * destroys no handle and closes no descriptor the relay held; the only trace
   * of a handler giving up is one one-shot appended to the idle queue.
   */
  lemma DispatchOnlyDefers(s: State, h: HandleId, o: Outcomes)
    requires IdsIssued(s) && Deliverable(s, h, o)
    ensures var r := Dispatch(s, h, o);
      && s.handles.Keys <= r.handles.Keys
      && (forall x :: x in s.handles && x != h ==> r.handles[x] == s.handles[x])
      && r.handles[h].fd == s.handles[h].fd
      && s.openFds <= r.openFds <= s.openFds + OpenedBy(o)
      && |s.idle| <= |r.idle| <= |s.idle| + 1 && r.idle[..|s.idle|] == s.idle
      && r.io4 == s.io4 && s.nextId <= r.nextId
      && (forall x :: x in r.handles && x !in s.handles ==> s.nextId <= x)
  {
    var r := Dispatch(s, h, o);
    match s.handles[h].reader
    case None =>
      assert r == s;
    case Some(Accepting) =>
      var (s1, keep) := AcceptTcp4Cb(s, h, o.accepted, o.connected);
      assert r == s1;
      if o.accepted.Opened? && o.connected.Opened? {
        assert s.nextId !in s.handles && s.nextId + 1 !in s.handles;
        assert PairedAt(s, r, o.accepted.fd, o.connected.fd);
      } else {
        assert r == s;
      }
    case Some(Relaying(peer)) =>
      var (s1, keep) := ReadCb(s, h, peer, o.got, o.wrote);
      if keep {
        assert r == s1;
      } else {
        assert r == HandlerDone(s, h);
        assert r.idle[..|s.idle|] == s.idle;
      }
  }
}
