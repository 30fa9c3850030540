/** Any number of backends running `acquire_lock` and `release_locks` over one
lock table. The table's mutex is held from `try_acquire` to the point where the
backend returns or parks, so each event below is one atomic step; a parked
backend retries at any later point.
*/
module LockProtocol {
  import opened Collections
  import opened CycleDetection
  import opened LockTable

  /** What a backend inside `acquire_lock` is parked on. */
  datatype Wait = Wait(obj: LockObject, mode: LockMode)

  /** A mode granted to a backend and not yet released. */
  datatype Held = Held(pid: Pid, obj: LockObject, mode: LockMode)

  datatype State = State(table: LockTable, parked: map<Pid, Wait>, held: set<Held>)

  datatype Event =
    | Request(pid: Pid, obj: LockObject, mode: LockMode, giveUp: bool) // NOWAIT or already cancelled
    | Retry(pid: Pid, cancelled: bool)
    | SkipLocked(pid: Pid, obj: LockObject, mode: LockMode)
    | Release(pid: Pid)

  const Init := State(map[], map[], {})

  ghost function Released(s: State, t: LockTable, pid: Pid): State {
    State(ReleaseAll(t, pid), s.parked - {pid}, set h | h in s.held && h.pid != pid)
  }

  /** One turn of the loop in `acquire_lock`. */
  ghost function Attempt(s: State, pid: Pid, obj: LockObject, mode: LockMode, giveUp: bool): State {
    var (r, t) := TryAcquire(s.table, pid, obj, mode);
    match r
    case Granted => State(t, s.parked - {pid}, s.held + {Held(pid, obj, mode)})
    case Deadlock => Released(s, t, pid)
    case Conflict(_) =>
      if giveUp then Released(s, t, pid) else State(t, s.parked[pid := Wait(obj, mode)], s.held)
  }

  /** The table a turn leaves, and whether the backend is then parked. */
  lemma AttemptIs(s: State, pid: Pid, obj: LockObject, mode: LockMode, giveUp: bool)
    ensures var (r, t) := TryAcquire(s.table, pid, obj, mode);
            var waits := r.Conflict? && !giveUp;
            var s' := Attempt(s, pid, obj, mode, giveUp);
            s'.table == (if r.Granted? || waits then t else ReleaseAll(t, pid)) && (pid in s'.parked <==> waits)
  {
  }

  datatype Outcome = Acquired | DeadlockDetected | NotAvailable | Canceled | StillParked

  /** The code of that turn, over the real manager; `s` is the protocol state
      whose table the manager holds. */
  method AcquireTurn(lm: LockManager, ghost s: State, pid: Pid, obj: LockObject, mode: LockMode,
                     nowait: bool, cancelled: bool)
    returns (o: Outcome)
    requires lm.objects == s.table
    modifies lm
    ensures lm.objects == Attempt(s, pid, obj, mode, nowait || cancelled).table
    ensures o.StillParked? <==> pid in Attempt(s, pid, obj, mode, nowait || cancelled).parked
    ensures o.Acquired? <==> TryAcquire(s.table, pid, obj, mode).0.Granted?
    ensures o.DeadlockDetected? <==> TryAcquire(s.table, pid, obj, mode).0.Deadlock?
    ensures o.NotAvailable? ==> nowait
    ensures o.Canceled? ==> cancelled && !nowait
  {
    AttemptIs(s, pid, obj, mode, nowait || cancelled);
    var r := lm.TryAcquireLock(pid, obj, mode);
    match r {
      case Granted =>
        o := Acquired;
      case Deadlock =>
        var _ := lm.ReleaseAllLocks(pid);
        o := DeadlockDetected;
      case Conflict(_) =>
        if nowait {
          var _ := lm.ReleaseAllLocks(pid);
          return NotAvailable;
        }
        if cancelled {
          var _ := lm.ReleaseAllLocks(pid);
          return Canceled;
        }
        o := StillParked;
    }
  }

  /** A backend is one thread: while parked it can only retry. */
  ghost predicate Enabled(s: State, e: Event) {
    e.Retry? <==> e.pid in s.parked
  }

  ghost function Step(s: State, e: Event): State
    requires Enabled(s, e)
  {
    match e
    case Request(pid, obj, mode, giveUp) => Attempt(s, pid, obj, mode, giveUp)
    case Retry(pid, cancelled) => Attempt(s, pid, s.parked[pid].obj, s.parked[pid].mode, cancelled)
    case SkipLocked(pid, obj, mode) =>
      if Blockers(StateOf(s.table, obj).holders, pid, mode) != [] then s
      else Attempt(s, pid, obj, mode, true)
    case Release(pid) => Released(s, s.table, pid)
  }

  ghost predicate IsRun(es: seq<Event>)
    decreases |es|, 0
  {
    es == [] || (IsRun(es[..|es| - 1]) && Enabled(After(es[..|es| - 1]), es[|es| - 1]))
  }

  ghost function After(es: seq<Event>): State
    requires IsRun(es)
    decreases |es|, 1
  {
    if es == [] then Init else Step(After(es[..|es| - 1]), es[|es| - 1])
  }

  /** SKIP LOCKED leaves everything as it is when another backend holds the object in a
      conflicting mode, and otherwise takes the lock; it never parks and never gives up
      other locks. */
  lemma SkipLockedExactly(s: State, pid: Pid, obj: LockObject, mode: LockMode)
    requires pid !in s.parked
    ensures var s' := Step(s, SkipLocked(pid, obj, mode));
            if exists h :: h in StateOf(s.table, obj).holders && h.pid != pid
                           && NumbersConflict(h.mode.Index(), mode.Index())
            then s' == s
            else s' == State(Grant(s.table, pid, obj, mode), s.parked, s.held + {Held(pid, obj, mode)})
  {
    GrantedExactly(s.table, pid, obj, mode);
    assert s.parked - {pid} == s.parked;
  }

  // --- The invariant ----------------------------------------------------------

  ghost predicate Shaped(t: LockTable) {
    forall o :: o in t ==> OnePerPid(t[o].holders) && OnePerPid(t[o].waiters) && !t[o].IsEmpty()
  }

  /** Two backends never hold one object in conflicting (recorded) modes. */
  ghost predicate Compatible(t: LockTable) {
    forall o, x, y :: o in t && x in t[o].holders && y in t[o].holders && x.pid != y.pid ==>
      !x.mode.ConflictsWith(y.mode)
  }

  /** Waiter entries are exactly the waits of the parked backends. */
  ghost predicate WaitersAreParked(t: LockTable, parked: map<Pid, Wait>) {
    forall o, w :: o in t && w in t[o].waiters ==> w.pid in parked && parked[w.pid] == Wait(o, w.mode)
  }

  ghost predicate ParkedAreWaiters(t: LockTable, parked: map<Pid, Wait>) {
    forall p :: p in parked ==> parked[p].obj in t && Claim(p, parked[p].mode) in t[parked[p].obj].waiters
  }

  /** The recorded mode is the highest one granted. */
  ghost predicate Recorded(t: LockTable, held: set<Held>) {
    && (forall o, c :: o in t && c in t[o].holders ==> Held(c.pid, o, c.mode) in held)
    && (forall h {:trigger HasRecord(t, h)} :: h in held ==> HasRecord(t, h))
  }

  ghost predicate HasRecord(t: LockTable, h: Held) {
    h.obj in t && exists m :: Claim(h.pid, m) in t[h.obj].holders && h.mode.Index() <= m.Index()
  }

  ghost predicate Consistent(s: State) {
    && Shaped(s.table)
    && Compatible(s.table)
    && WaitersAreParked(s.table, s.parked)
    && ParkedAreWaiters(s.table, s.parked)
    && Recorded(s.table, s.held)
  }

  ghost predicate Inv(s: State) {
    Consistent(s) && !Cyclic(WaitEdges(s.table))
  }

  // --- Acyclic edge sets ---------------------------------------------------------

  ghost predicate NoEdgeFrom(e: Edges, x: Pid) {
    forall y :: !Edge(e, x, y)
  }

  lemma MoreEdgesReach(e: Edges, e': Edges, x: Pid, y: Pid)
    requires forall a, b :: Edge(e, a, b) ==> Edge(e', a, b)
    requires Reaches(e, x, y)
    ensures Reaches(e', x, y)
  {
    var p :| WalkFromTo(e, x, y, p);
    assert WalkFromTo(e', x, y, p);
  }

  lemma FewerEdges(e: Edges, e': Edges)
    requires !Cyclic(e)
    requires forall a, b :: Edge(e', a, b) ==> Edge(e, a, b)
    ensures !Cyclic(e')
  {
    if Cyclic(e') {
      var x :| Reaches(e', x, x);
      MoreEdgesReach(e', e, x, x);
    }
  }

  /** New edges into a node that waits for nobody close no cycle. */
  lemma EdgesIntoSink(e: Edges, e': Edges, sink: Pid)
    requires !Cyclic(e) && NoEdgeFrom(e', sink)
    requires forall a, b :: Edge(e', a, b) ==> Edge(e, a, b) || b == sink
    ensures !Cyclic(e')
  {
    if Cyclic(e') {
      var x :| Reaches(e', x, x);
      var p :| WalkFromTo(e', x, x, p);
      forall i | 0 <= i < |p| - 1
        ensures Edge(e, p[i], p[i + 1])
      {
        var k := if i + 1 == |p| - 1 then 0 else i + 1;
        assert Edge(e', p[i], p[i + 1]) && Edge(e', p[k], p[k + 1]);
      }
      assert WalkFromTo(e, x, x, p);
      assert Reaches(e, x, x);
    }
  }

  ghost function Fan(x: Pid, targets: seq<Pid>): Edges {
    set y | y in targets :: (x, y)
  }

  lemma FanEdges(e: Edges, x: Pid, targets: seq<Pid>, a: Pid, b: Pid)
    ensures Edge(e + Fan(x, targets), a, b) <==> Edge(e, a, b) || (a == x && b in targets)
  {
  }

  /** A set of nodes that no edge leaves. */
  ghost predicate ClosedUnder(e: Edges, r: iset<Pid>) {
    forall x, y :: Edge(e, x, y) && x in r ==> y in r
  }

  lemma {:induction false} StaysInside(e: Edges, r: iset<Pid>, p: seq<Pid>, i: nat, j: nat)
    requires IsWalk(e, p) && ClosedUnder(e, r)
    requires i <= j < |p| && p[i] in r
    ensures p[j] in r
  {
    if i < j {
      StaysInside(e, r, p, i, j - 1);
      var a, b := p[j - 1], p[j];
      assert Edge(e, p[j - 1], p[j - 1 + 1]);
      assert Edge(e, a, b) && a in r;
    }
  }

  ghost predicate ReachedFrom(e: Edges, from: seq<Pid>, v: Pid) {
    exists u :: u in from && Reaches(e, u, v)
  }

  ghost function Reachable(e: Edges, from: seq<Pid>): iset<Pid> {
    iset v: Pid | v in from || ReachedFrom(e, from, v)
  }

  lemma ReachableClosed(e: Edges, from: seq<Pid>)
    ensures ClosedUnder(e, Reachable(e, from))
  {
    forall x, y | Edge(e, x, y) && x in Reachable(e, from)
      ensures y in Reachable(e, from)
    {
      EdgeReaches(e, x, y);
      if x !in from {
        var u :| u in from && Reaches(e, u, x);
        ReachesTransitive(e, u, x, y);
      }
    }
  }

  /** Once on the fan, a walk cannot come back. */
  lemma FanWalkAvoids(e: Edges, x: Pid, targets: seq<Pid>, p: seq<Pid>, i: nat)
    requires NoEdgeFrom(e, x) && x !in targets && !ReachedFrom(e, targets, x)
    requires IsWalk(e + Fan(x, targets), p) && p[0] == p[|p| - 1] && i < |p| - 1
    ensures p[i] != x
  {
    var e' := e + Fan(x, targets);
    var r := Reachable(e, targets);
    ReachableClosed(e, targets);
    forall a, b | Edge(e', a, b) && a in r
      ensures b in r
    {
      FanEdges(e, x, targets, a, b);
    }
    if p[i] == x {
      var next := p[i + 1];
      assert Edge(e', p[i], p[i + 1]);
      FanEdges(e, x, targets, x, next);
      StaysInside(e', r, p, i + 1, |p| - 1);
      StaysInside(e', r, p, 0, i);
    }
  }

  lemma FanClosesNoCycle(e: Edges, x: Pid, targets: seq<Pid>)
    requires !Cyclic(e) && NoEdgeFrom(e, x)
    requires x !in targets && !ReachedFrom(e, targets, x)
    ensures !Cyclic(e + Fan(x, targets))
  {
    var e' := e + Fan(x, targets);
    if Cyclic(e') {
      var v :| Reaches(e', v, v);
      var p :| WalkFromTo(e', v, v, p);
      forall i | 0 <= i < |p| - 1
        ensures Edge(e, p[i], p[i + 1])
      {
        FanWalkAvoids(e, x, targets, p, i);
        FanEdges(e, x, targets, p[i], p[i + 1]);
      }
      assert WalkFromTo(e, v, v, p);
      assert Reaches(e, v, v);
    }
  }

  /** Waiting closes a cycle exactly when some blocker already waits, through
      any chain, for the requester. */
  lemma FanCycle(e: Edges, x: Pid, targets: seq<Pid>)
    requires !Cyclic(e) && NoEdgeFrom(e, x) && x !in targets
    ensures Cyclic(e + Fan(x, targets)) <==> ReachedFrom(e, targets, x)
  {
    var e' := e + Fan(x, targets);
    if ReachedFrom(e, targets, x) {
      var u :| u in targets && Reaches(e, u, x);
      MoreEdgesReach(e, e', u, x);
      FanEdges(e, x, targets, x, u);
      EdgeReaches(e', x, u);
      ReachesTransitive(e', x, u, x);
    } else {
      FanClosesNoCycle(e, x, targets);
    }
  }

  // --- Edges of the table -----------------------------------------------------------

  lemma EdgeWitness(t: LockTable, a: Pid, b: Pid) returns (o: LockObject, w: Claim, h: Claim)
    requires Edge(WaitEdges(t), a, b)
    ensures o in t && w in t[o].waiters && h in t[o].holders
    ensures w.pid == a && h.pid == b && Blocks(h, a, w.mode)
  {
    o :| o in t && (a, b) in StateEdges(t[o]);
    w :| w in t[o].waiters && (a, b) in WaiterEdges(w, t[o].holders);
    h :| h in t[o].holders && Blocks(h, w.pid, w.mode) && (a, b) == (w.pid, h.pid);
  }

  lemma EdgeIntro(t: LockTable, o: LockObject, w: Claim, h: Claim)
    requires o in t && w in t[o].waiters && h in t[o].holders && Blocks(h, w.pid, w.mode)
    ensures Edge(WaitEdges(t), w.pid, h.pid)
  {
    assert (w.pid, h.pid) in WaiterEdges(w, t[o].holders);
    assert (w.pid, h.pid) in StateEdges(t[o]);
  }

  lemma OnlyParkedHaveEdges(t: LockTable, parked: map<Pid, Wait>, x: Pid)
    requires WaitersAreParked(t, parked) && x !in parked
    ensures NoEdgeFrom(WaitEdges(t), x)
  {
    forall y
      ensures !Edge(WaitEdges(t), x, y)
    {
      if Edge(WaitEdges(t), x, y) {
        var o, w, h := EdgeWitness(t, x, y);
      }
    }
  }

  // --- A grant keeps the invariant ------------------------------------------------------

  ghost predicate FreeFor(t: LockTable, pid: Pid, obj: LockObject, mode: LockMode) {
    Blockers(StateOf(t, obj).holders, pid, mode) == []
  }

  /** A backend attempts a lock: it is idle, or it is parked on this very lock. */
  ghost predicate MayAttempt(s: State, pid: Pid, obj: LockObject, mode: LockMode) {
    pid in s.parked ==> s.parked[pid] == Wait(obj, mode)
  }

  lemma GrantedEntry(t: LockTable, pid: Pid, obj: LockObject, mode: LockMode, c: Claim)
    requires Shaped(t) && c in Grant(t, pid, obj, mode)[obj].holders
    ensures OnePerPid(Grant(t, pid, obj, mode)[obj].holders)
    ensures c.pid != pid ==> obj in t && c in t[obj].holders
    ensures c.pid == pid ==>
      || c.mode == mode
      || (obj in t && c in t[obj].holders && mode.Index() <= c.mode.Index())
  {
    var st := StateOf(t, obj);
    RecordClaims(st.holders, pid, mode);
    var r := Record(st.holders, pid, mode);
    if c.pid == pid {
      var m := OwnEntry(st.holders, pid, mode, c);
    }
  }

  /** The entry of `pid` after `Record` is the one `RecordClaims` describes. */
  lemma OwnEntry(holders: seq<Claim>, pid: Pid, mode: LockMode, c: Claim) returns (before: Option<LockMode>)
    requires OnePerPid(holders) && c in Record(holders, pid, mode) && c.pid == pid
    ensures before.None? ==> Absent(holders, pid) && c.mode == mode
    ensures before.Some? ==> Claim(pid, before.value) in holders && c.mode == Upgrade(before.value, mode)
  {
    RecordClaims(holders, pid, mode);
    if h :| h in holders && h.pid == pid {
      before := Some(h.mode);
      assert h == Claim(pid, h.mode);
      SameEntry(Record(holders, pid, mode), c, Claim(pid, Upgrade(h.mode, mode)));
    } else {
      before := None;
      SameEntry(Record(holders, pid, mode), c, Claim(pid, mode));
    }
  }

  lemma SameEntry(cs: seq<Claim>, a: Claim, b: Claim)
    requires OnePerPid(cs) && a in cs && b in cs && a.pid == b.pid
    ensures a == b
  {
  }

  lemma NotBlocked(t: LockTable, pid: Pid, obj: LockObject, mode: LockMode, h: Claim)
    requires FreeFor(t, pid, obj, mode) && obj in t && h in t[obj].holders && h.pid != pid
    ensures !h.mode.ConflictsWith(mode) && !mode.ConflictsWith(h.mode)
  {
    ConflictSymmetric(h.mode, mode);
    if Blocks(h, pid, mode) {
      BlockerListed(t[obj].holders, pid, mode, h);
    }
  }

  lemma GrantCompatible(t: LockTable, pid: Pid, obj: LockObject, mode: LockMode)
    requires Shaped(t) && Compatible(t) && FreeFor(t, pid, obj, mode)
    ensures Compatible(Grant(t, pid, obj, mode))
  {
    var t' := Grant(t, pid, obj, mode);
    forall o, x, y | o in t' && x in t'[o].holders && y in t'[o].holders && x.pid != y.pid
      ensures !x.mode.ConflictsWith(y.mode)
    {
      if o == obj {
        GrantedEntry(t, pid, obj, mode, x);
        GrantedEntry(t, pid, obj, mode, y);
        if x.pid == pid && x.mode == mode {
          NotBlocked(t, pid, obj, mode, y);
        } else if y.pid == pid && y.mode == mode {
          NotBlocked(t, pid, obj, mode, x);
        }
      }
    }
  }

  lemma GrantAcyclic(t: LockTable, parked: map<Pid, Wait>, pid: Pid, obj: LockObject, mode: LockMode)
    requires Shaped(t) && WaitersAreParked(t, parked) && !Cyclic(WaitEdges(t))
    requires pid in parked ==> parked[pid].obj == obj
    ensures !Cyclic(WaitEdges(Grant(t, pid, obj, mode)))
  {
    var t' := Grant(t, pid, obj, mode);
    forall x, y | Edge(WaitEdges(t'), x, y)
      ensures x != pid && (Edge(WaitEdges(t), x, y) || y == pid)
    {
      var o, w, h := EdgeWitness(t', x, y);
      if o == obj {
        GrantedEntry(t, pid, obj, mode, h);
      }
      if y != pid {
        EdgeIntro(t, o, w, h);
      }
    }
    EdgesIntoSink(WaitEdges(t), WaitEdges(t'), pid);
  }

  lemma GrantHasRecord(t: LockTable, pid: Pid, obj: LockObject, mode: LockMode, h: Held)
    requires Shaped(t) && (HasRecord(t, h) || h == Held(pid, obj, mode))
    ensures HasRecord(Grant(t, pid, obj, mode), h)
  {
    var st := StateOf(t, obj);
    RecordClaims(st.holders, pid, mode);
    var t' := Grant(t, pid, obj, mode);
    if h.obj != obj || h.pid != pid {
      var m :| Claim(h.pid, m) in t[h.obj].holders && h.mode.Index() <= m.Index();
      assert Claim(h.pid, m) in t'[h.obj].holders;
    } else if HasRecord(t, h) {
      var m :| Claim(h.pid, m) in t[h.obj].holders && h.mode.Index() <= m.Index();
      assert Claim(pid, Upgrade(m, mode)) in t'[obj].holders;
    } else if c :| c in st.holders && c.pid == pid {
      assert c == Claim(pid, c.mode);
      assert Claim(pid, Upgrade(c.mode, mode)) in t'[obj].holders;
    } else {
      assert Claim(pid, mode) in t'[obj].holders;
    }
  }

  lemma GrantRecorded(t: LockTable, held: set<Held>, pid: Pid, obj: LockObject, mode: LockMode)
    requires Shaped(t) && Recorded(t, held)
    ensures Recorded(Grant(t, pid, obj, mode), held + {Held(pid, obj, mode)})
  {
    var t' := Grant(t, pid, obj, mode);
    forall o, c | o in t' && c in t'[o].holders
      ensures Held(c.pid, o, c.mode) in held + {Held(pid, obj, mode)}
    {
      if o == obj {
        GrantedEntry(t, pid, obj, mode, c);
      }
    }
    forall h | h in held + {Held(pid, obj, mode)}
      ensures HasRecord(t', h)
    {
      GrantHasRecord(t, pid, obj, mode, h);
    }
  }

  lemma GrantShaped(t: LockTable, pid: Pid, obj: LockObject, mode: LockMode)
    requires Shaped(t)
    ensures Shaped(Grant(t, pid, obj, mode))
  {
    RecordClaims(StateOf(t, obj).holders, pid, mode);
  }

  lemma GrantWaiters(t: LockTable, parked: map<Pid, Wait>, pid: Pid, obj: LockObject, mode: LockMode)
    requires WaitersAreParked(t, parked) && ParkedAreWaiters(t, parked)
    requires pid in parked ==> parked[pid].obj == obj
    ensures WaitersAreParked(Grant(t, pid, obj, mode), parked - {pid})
    ensures ParkedAreWaiters(Grant(t, pid, obj, mode), parked - {pid})
  {
    var t' := Grant(t, pid, obj, mode);
    forall o, w | o in t' && w in t'[o].waiters
      ensures w.pid in parked - {pid} && parked[w.pid] == Wait(o, w.mode)
    {
      assert o in t && w in t[o].waiters;
    }
  }

  lemma GrantKeepsInv(s: State, pid: Pid, obj: LockObject, mode: LockMode)
    requires Inv(s) && MayAttempt(s, pid, obj, mode) && FreeFor(s.table, pid, obj, mode)
    ensures Inv(State(Grant(s.table, pid, obj, mode), s.parked - {pid}, s.held + {Held(pid, obj, mode)}))
  {
    GrantShaped(s.table, pid, obj, mode);
    GrantWaiters(s.table, s.parked, pid, obj, mode);
    GrantCompatible(s.table, pid, obj, mode);
    GrantRecorded(s.table, s.held, pid, obj, mode);
    GrantAcyclic(s.table, s.parked, pid, obj, mode);
  }

  // --- Parking and backing out --------------------------------------------------------------

  /** A backend already parked adds nothing by asking again. */
  lemma ParkAgain(t: LockTable, pid: Pid, obj: LockObject, mode: LockMode)
    requires obj in t && Claim(pid, mode) in t[obj].waiters
    ensures AddWaiter(t, pid, obj, mode) == t
  {
    var w := Claim(pid, mode);
    assert w in t[obj].waiters && w.pid == pid;
    assert t[obj := t[obj]] == t;
  }

  lemma ParkFresh(t: LockTable, pid: Pid, obj: LockObject, mode: LockMode)
    requires obj in t && Absent(t[obj].waiters, pid)
    ensures AddWaiter(t, pid, obj, mode) == t[obj := t[obj].(waiters := t[obj].waiters + [Claim(pid, mode)])]
  {
  }

  lemma IdleIsAbsent(t: LockTable, parked: map<Pid, Wait>, pid: Pid, obj: LockObject)
    requires WaitersAreParked(t, parked) && pid !in parked && obj in t
    ensures Absent(t[obj].waiters, pid)
  {
  }

  lemma ParkEdges(t: LockTable, pid: Pid, obj: LockObject, mode: LockMode, x: Pid, y: Pid)
    requires obj in t && Absent(t[obj].waiters, pid)
    ensures Edge(WaitEdges(AddWaiter(t, pid, obj, mode)), x, y) <==>
            Edge(WaitEdges(t) + Fan(pid, Blockers(t[obj].holders, pid, mode)), x, y)
  {
    ParkFresh(t, pid, obj, mode);
    var t' := AddWaiter(t, pid, obj, mode);
    var on := Blockers(t[obj].holders, pid, mode);
    FanEdges(WaitEdges(t), pid, on, x, y);
    if Edge(WaitEdges(t'), x, y) {
      var o, w, h := EdgeWitness(t', x, y);
      if w in t[o].waiters {
        EdgeIntro(t, o, w, h);
      } else {
        BlockerListed(t[obj].holders, pid, mode, h);
      }
    }
    if Edge(WaitEdges(t), x, y) {
      var o, w, h := EdgeWitness(t, x, y);
      EdgeIntro(t', o, w, h);
    }
    if x == pid && y in on {
      var h := BlockerHolds(t[obj].holders, pid, mode, y);
      EdgeIntro(t', obj, Claim(pid, mode), h);
    }
  }

  lemma SameEdges(e: Edges, e': Edges)
    requires forall x, y :: Edge(e, x, y) <==> Edge(e', x, y)
    ensures e == e'
  {
    forall d
      ensures d in e <==> d in e'
    {
      assert Edge(e, d.0, d.1) <==> Edge(e', d.0, d.1);
    }
  }

  lemma ParkAddsFan(t: LockTable, pid: Pid, obj: LockObject, mode: LockMode)
    requires obj in t && Absent(t[obj].waiters, pid)
    ensures WaitEdges(AddWaiter(t, pid, obj, mode)) == WaitEdges(t) + Fan(pid, Blockers(t[obj].holders, pid, mode))
  {
    forall x, y
      ensures Edge(WaitEdges(AddWaiter(t, pid, obj, mode)), x, y) <==>
              Edge(WaitEdges(t) + Fan(pid, Blockers(t[obj].holders, pid, mode)), x, y)
    {
      ParkEdges(t, pid, obj, mode, x, y);
    }
    SameEdges(WaitEdges(AddWaiter(t, pid, obj, mode)), WaitEdges(t) + Fan(pid, Blockers(t[obj].holders, pid, mode)));
  }

  lemma ParkShaped(t: LockTable, pid: Pid, obj: LockObject, mode: LockMode)
    requires Shaped(t) && obj in t && Absent(t[obj].waiters, pid)
    ensures Shaped(AddWaiter(t, pid, obj, mode))
  {
    ParkFresh(t, pid, obj, mode);
    var ws := t[obj].waiters + [Claim(pid, mode)];
    assert forall i :: 0 <= i < |t[obj].waiters| ==> ws[i] in t[obj].waiters;
    assert OnePerPid(ws);
  }

  lemma SameHolders(t: LockTable, t': LockTable, held: set<Held>)
    requires t'.Keys == t.Keys && forall o :: o in t ==> t'[o].holders == t[o].holders
    ensures Compatible(t) ==> Compatible(t')
    ensures Recorded(t, held) ==> Recorded(t', held)
  {
    forall h | HasRecord(t, h)
      ensures HasRecord(t', h)
    {
      var m :| Claim(h.pid, m) in t[h.obj].holders && h.mode.Index() <= m.Index();
      assert Claim(h.pid, m) in t'[h.obj].holders;
    }
  }

  lemma ParkWaiters(t: LockTable, parked: map<Pid, Wait>, pid: Pid, obj: LockObject, mode: LockMode)
    requires WaitersAreParked(t, parked) && ParkedAreWaiters(t, parked)
    requires obj in t && pid !in parked
    ensures WaitersAreParked(AddWaiter(t, pid, obj, mode), parked[pid := Wait(obj, mode)])
    ensures ParkedAreWaiters(AddWaiter(t, pid, obj, mode), parked[pid := Wait(obj, mode)])
  {
    IdleIsAbsent(t, parked, pid, obj);
    ParkFresh(t, pid, obj, mode);
  }

  lemma ParkIdle(s: State, t': LockTable, pid: Pid, obj: LockObject, mode: LockMode)
    requires Consistent(s) && pid !in s.parked && obj in s.table
    requires t' == AddWaiter(s.table, pid, obj, mode)
    ensures Consistent(State(t', s.parked[pid := Wait(obj, mode)], s.held))
  {
    IdleIsAbsent(s.table, s.parked, pid, obj);
    assert Shaped(t') by { ParkShaped(s.table, pid, obj, mode); }
    assert Compatible(t') && Recorded(t', s.held) by {
      ParkFresh(s.table, pid, obj, mode);
      SameHolders(s.table, t', s.held);
    }
    ParkWaiters(s.table, s.parked, pid, obj, mode);
  }

  lemma ParkKeepsInv(s: State, pid: Pid, obj: LockObject, mode: LockMode)
    requires Inv(s) && MayAttempt(s, pid, obj, mode) && obj in s.table
    requires !Cyclic(WaitEdges(AddWaiter(s.table, pid, obj, mode)))
    ensures Inv(State(AddWaiter(s.table, pid, obj, mode), s.parked[pid := Wait(obj, mode)], s.held))
  {
    if pid in s.parked {
      ParkAgain(s.table, pid, obj, mode);
      assert s.parked[pid := Wait(obj, mode)] == s.parked;
      assert State(AddWaiter(s.table, pid, obj, mode), s.parked[pid := Wait(obj, mode)], s.held) == s;
    } else {
      ParkIdle(s, AddWaiter(s.table, pid, obj, mode), pid, obj, mode);
    }
  }

  /** Adding a waiter and taking it back leaves the table as it was. */
  lemma BackOut(t: LockTable, pid: Pid, obj: LockObject, mode: LockMode)
    requires obj in t && t[obj].holders != [] && Absent(t[obj].waiters, pid)
    ensures RemoveWaiter(AddWaiter(t, pid, obj, mode), pid, obj) == t
  {
    var st := t[obj];
    var parked := st.(waiters := st.waiters + [Claim(pid, mode)]);
    ParkFresh(t, pid, obj, mode);
    WithoutSnoc(st.waiters, Claim(pid, mode));
    assert parked.(waiters := Without(parked.waiters, pid)) == st;
    assert t[obj := parked][obj := st] == t;
  }

  // --- Releasing --------------------------------------------------------------------------------

  lemma ReleasedEntries(t: LockTable, pid: Pid, o: LockObject)
    requires o in ReleaseAll(t, pid)
    ensures o in t
    ensures forall c :: c in ReleaseAll(t, pid)[o].holders <==> c in t[o].holders && c.pid != pid
    ensures forall c :: c in ReleaseAll(t, pid)[o].waiters <==> c in t[o].waiters && c.pid != pid
  {
  }

  lemma KeptHolder(t: LockTable, pid: Pid, o: LockObject, c: Claim)
    requires o in t && c.pid != pid && (c in t[o].holders || c in t[o].waiters)
    ensures o in ReleaseAll(t, pid)
    ensures c in t[o].holders ==> c in ReleaseAll(t, pid)[o].holders
    ensures c in t[o].waiters ==> c in ReleaseAll(t, pid)[o].waiters
  {
  }

  lemma ReleaseAcyclic(t: LockTable, pid: Pid)
    requires !Cyclic(WaitEdges(t))
    ensures !Cyclic(WaitEdges(ReleaseAll(t, pid)))
  {
    var t' := ReleaseAll(t, pid);
    forall x, y | Edge(WaitEdges(t'), x, y)
      ensures Edge(WaitEdges(t), x, y)
    {
      var o, w, h := EdgeWitness(t', x, y);
      ReleasedEntries(t, pid, o);
      EdgeIntro(t, o, w, h);
    }
    FewerEdges(WaitEdges(t), WaitEdges(t'));
  }

  lemma ReleaseRecorded(t: LockTable, held: set<Held>, pid: Pid)
    requires Recorded(t, held)
    ensures Recorded(ReleaseAll(t, pid), set h | h in held && h.pid != pid)
  {
    var t' := ReleaseAll(t, pid);
    var held' := set h | h in held && h.pid != pid;
    forall o, c | o in t' && c in t'[o].holders
      ensures Held(c.pid, o, c.mode) in held'
    {
      ReleasedEntries(t, pid, o);
    }
    forall h | h in held'
      ensures HasRecord(t', h)
    {
      assert HasRecord(t, h);
      var m :| Claim(h.pid, m) in t[h.obj].holders && h.mode.Index() <= m.Index();
      KeptHolder(t, pid, h.obj, Claim(h.pid, m));
    }
  }

  lemma ReleaseWaiters(t: LockTable, parked: map<Pid, Wait>, pid: Pid)
    requires WaitersAreParked(t, parked) && ParkedAreWaiters(t, parked)
    ensures WaitersAreParked(ReleaseAll(t, pid), parked - {pid})
    ensures ParkedAreWaiters(ReleaseAll(t, pid), parked - {pid})
  {
    var t' := ReleaseAll(t, pid);
    forall o, w | o in t' && w in t'[o].waiters
      ensures w.pid in parked - {pid} && parked[w.pid] == Wait(o, w.mode)
    {
      ReleasedEntries(t, pid, o);
    }
    forall p | p in parked - {pid}
      ensures parked[p].obj in t' && Claim(p, parked[p].mode) in t'[parked[p].obj].waiters
    {
      KeptHolder(t, pid, parked[p].obj, Claim(p, parked[p].mode));
    }
  }

  lemma ReleaseShaped(t: LockTable, pid: Pid)
    requires Shaped(t) && Compatible(t)
    ensures Shaped(ReleaseAll(t, pid)) && Compatible(ReleaseAll(t, pid))
  {
    var t' := ReleaseAll(t, pid);
    forall o, x, y | o in t' && x in t'[o].holders && y in t'[o].holders && x.pid != y.pid
      ensures !x.mode.ConflictsWith(y.mode)
    {
      ReleasedEntries(t, pid, o);
    }
  }

  lemma ReleaseKeepsInv(s: State, pid: Pid)
    requires Inv(s)
    ensures Inv(Released(s, s.table, pid))
  {
    ReleaseShaped(s.table, pid);
    ReleaseAcyclic(s.table, pid);
    ReleaseRecorded(s.table, s.held, pid);
    ReleaseWaiters(s.table, s.parked, pid);
  }

  /** After a release nothing in the table belongs to the backend. */
  lemma ReleaseLeavesNothing(t: LockTable, pid: Pid)
    ensures !Mentions(ReleaseAll(t, pid), pid)
  {
    forall o | o in ReleaseAll(t, pid)
      ensures Absent(ReleaseAll(t, pid)[o].holders, pid) && Absent(ReleaseAll(t, pid)[o].waiters, pid)
    {
      ReleasedEntries(t, pid, o);
    }
  }

  /** Giving up after parking releases the same as never having parked. */
  lemma GiveUpKeepsInv(s: State, pid: Pid, obj: LockObject, mode: LockMode)
    requires Inv(s) && MayAttempt(s, pid, obj, mode) && obj in s.table
    requires !Cyclic(WaitEdges(AddWaiter(s.table, pid, obj, mode)))
    ensures Inv(Released(s, AddWaiter(s.table, pid, obj, mode), pid))
  {
    ParkKeepsInv(s, pid, obj, mode);
    var waiting := State(AddWaiter(s.table, pid, obj, mode), s.parked[pid := Wait(obj, mode)], s.held);
    ReleaseKeepsInv(waiting, pid);
    assert waiting.parked - {pid} == s.parked - {pid};
  }

  // --- The answers of `try_acquire` -----------------------------------------------------------------

  lemma BlockedObjectIsHeld(t: LockTable, pid: Pid, obj: LockObject, mode: LockMode)
    requires !FreeFor(t, pid, obj, mode)
    ensures obj in t && t[obj].holders != []
    ensures pid !in Blockers(t[obj].holders, pid, mode)
  {
    if pid in Blockers(t[obj].holders, pid, mode) {
      var h := BlockerHolds(t[obj].holders, pid, mode, pid);
    }
  }

  /** `Deadlock` is answered exactly when a blocker already waits, through some
      chain of backends, for the requester; the table is then left alone. */
  lemma DeadlockExactly(s: State, pid: Pid, obj: LockObject, mode: LockMode)
    requires Inv(s) && pid !in s.parked
    ensures TryAcquire(s.table, pid, obj, mode).0.Deadlock? <==>
            ReachedFrom(WaitEdges(s.table), Blockers(StateOf(s.table, obj).holders, pid, mode), pid)
    ensures TryAcquire(s.table, pid, obj, mode).0.Deadlock? ==>
            TryAcquire(s.table, pid, obj, mode).1 == s.table
  {
    var on := Blockers(StateOf(s.table, obj).holders, pid, mode);
    if on != [] {
      BlockedObjectIsHeld(s.table, pid, obj, mode);
      IdleIsAbsent(s.table, s.parked, pid, obj);
      ParkAddsFan(s.table, pid, obj, mode);
      OnlyParkedHaveEdges(s.table, s.parked, pid);
      FanCycle(WaitEdges(s.table), pid, on);
      BackOut(s.table, pid, obj, mode);
    }
  }

  /** A parked backend that asks again is never told `Deadlock`, and the table
      is unchanged unless the lock is granted. */
  lemma RetryNeverDeadlocks(s: State, pid: Pid)
    requires Inv(s) && pid in s.parked
    ensures !TryAcquire(s.table, pid, s.parked[pid].obj, s.parked[pid].mode).0.Deadlock?
    ensures TryAcquire(s.table, pid, s.parked[pid].obj, s.parked[pid].mode).0.Conflict? ==>
            TryAcquire(s.table, pid, s.parked[pid].obj, s.parked[pid].mode).1 == s.table
  {
    ParkAgain(s.table, pid, s.parked[pid].obj, s.parked[pid].mode);
  }

  // --- Every run ------------------------------------------------------------------------------------

  lemma BlockedAttempt(s: State, pid: Pid, obj: LockObject, mode: LockMode, giveUp: bool)
    requires Inv(s) && MayAttempt(s, pid, obj, mode) && !FreeFor(s.table, pid, obj, mode)
    requires !Cyclic(WaitEdges(AddWaiter(s.table, pid, obj, mode)))
    ensures Inv(Attempt(s, pid, obj, mode, giveUp))
  {
    BlockedObjectIsHeld(s.table, pid, obj, mode);
    if giveUp {
      GiveUpKeepsInv(s, pid, obj, mode);
    } else {
      ParkKeepsInv(s, pid, obj, mode);
    }
  }

  lemma DeadlockedAttempt(s: State, pid: Pid, obj: LockObject, mode: LockMode, giveUp: bool)
    requires Inv(s) && MayAttempt(s, pid, obj, mode) && !FreeFor(s.table, pid, obj, mode)
    requires Cyclic(WaitEdges(AddWaiter(s.table, pid, obj, mode)))
    ensures Inv(Attempt(s, pid, obj, mode, giveUp))
  {
    assert pid !in s.parked by {
      if pid in s.parked {
        ParkAgain(s.table, pid, obj, mode);
      }
    }
    assert Attempt(s, pid, obj, mode, giveUp) == Released(s, s.table, pid) by {
      DeadlockExactly(s, pid, obj, mode);
    }
    ReleaseKeepsInv(s, pid);
  }

  lemma AttemptKeepsInv(s: State, pid: Pid, obj: LockObject, mode: LockMode, giveUp: bool)
    requires Inv(s) && MayAttempt(s, pid, obj, mode)
    ensures Inv(Attempt(s, pid, obj, mode, giveUp))
  {
    if FreeFor(s.table, pid, obj, mode) {
      GrantKeepsInv(s, pid, obj, mode);
    } else if Cyclic(WaitEdges(AddWaiter(s.table, pid, obj, mode))) {
      DeadlockedAttempt(s, pid, obj, mode, giveUp);
    } else {
      BlockedAttempt(s, pid, obj, mode, giveUp);
    }
  }

  lemma StepKeepsInv(s: State, e: Event)
    requires Inv(s) && Enabled(s, e)
    ensures Inv(Step(s, e))
  {
    match e
    case Request(pid, obj, mode, giveUp) => AttemptKeepsInv(s, pid, obj, mode, giveUp);
    case Retry(pid, cancelled) => AttemptKeepsInv(s, pid, s.parked[pid].obj, s.parked[pid].mode, cancelled);
    case SkipLocked(pid, obj, mode) => AttemptKeepsInv(s, pid, obj, mode, true);
    case Release(pid) => ReleaseKeepsInv(s, pid);
  }

  /** The invariant holds after every run of every set of backends. */
  lemma {:induction false} RunsKeepInv(es: seq<Event>)
    requires IsRun(es)
    ensures Inv(After(es))
  {
    if es == [] {
      RankedIsAcyclic(WaitEdges(map[]), map[]);
    } else {
      RunsKeepInv(es[..|es| - 1]);
      StepKeepsInv(After(es[..|es| - 1]), es[|es| - 1]);
    }
  }

  // --- What the invariant means for backends ----------------------------------------------------------

  /** A backend is on at most one waiter list, once, and only while it is parked. */
  lemma OneWaitEach(es: seq<Event>, o1: LockObject, w1: Claim, o2: LockObject, w2: Claim)
    requires IsRun(es)
    requires o1 in After(es).table && w1 in After(es).table[o1].waiters
    requires o2 in After(es).table && w2 in After(es).table[o2].waiters
    requires w1.pid == w2.pid
    ensures o1 == o2 && w1 == w2 && w1.pid in After(es).parked && After(es).parked[w1.pid] == Wait(o1, w1.mode)
  {
    RunsKeepInv(es);
    assert After(es).parked[w1.pid] == Wait(o1, w1.mode);
    assert After(es).parked[w2.pid] == Wait(o2, w2.mode);
  }

  ghost function ReachSet(e: Edges, x: Pid): set<Pid> {
    set d | d in e && Reaches(e, x, d.1) :: d.1
  }

  lemma ReachSetShrinks(e: Edges, x: Pid, z: Pid)
    requires !Cyclic(e) && Edge(e, x, z)
    ensures ReachSet(e, z) < ReachSet(e, x)
  {
    EdgeReaches(e, x, z);
    assert (x, z) in e && z in ReachSet(e, x);
    forall v | v in ReachSet(e, z)
      ensures v in ReachSet(e, x)
    {
      ReachesTransitive(e, x, z, v);
    }
    assert z !in ReachSet(e, z);
  }

  /** From any node of an acyclic graph some node without out-edges is reached. */
  lemma {:induction false} SinkReached(e: Edges, x: Pid) returns (y: Pid)
    requires !Cyclic(e)
    ensures y == x || Reaches(e, x, y)
    ensures NoEdgeFrom(e, y)
    decreases ReachSet(e, x)
  {
    y := x;
    if z :| Edge(e, x, z) {
      ReachSetShrinks(e, x, z);
      y := SinkReached(e, z);
      EdgeReaches(e, x, z);
      if y != z {
        ReachesTransitive(e, x, z, y);
      }
    }
  }

  /** No set of backends is stuck: from every parked backend the chain of waits
      leads to one that is not parked, or whose next retry is granted. */
  lemma ChainsEnd(es: seq<Event>, pid: Pid) returns (q: Pid)
    requires IsRun(es) && pid in After(es).parked
    ensures q == pid || Reaches(WaitEdges(After(es).table), pid, q)
    ensures var s := After(es); q in s.parked ==>
            TryAcquire(s.table, q, s.parked[q].obj, s.parked[q].mode).0.Granted?
  {
    RunsKeepInv(es);
    var s := After(es);
    q := SinkReached(WaitEdges(s.table), pid);
    if q in s.parked {
      SinkIsFree(s.table, s.parked, q);
    }
  }

  lemma SinkIsFree(t: LockTable, parked: map<Pid, Wait>, q: Pid)
    requires ParkedAreWaiters(t, parked) && q in parked && NoEdgeFrom(WaitEdges(t), q)
    ensures FreeFor(t, q, parked[q].obj, parked[q].mode)
  {
    var obj, mode := parked[q].obj, parked[q].mode;
    var on := Blockers(t[obj].holders, q, mode);
    if on != [] {
      var b := on[0];
      var h := BlockerHolds(t[obj].holders, q, mode, b);
      EdgeIntro(t, obj, Claim(q, mode), h);
    }
  }

  // --- What the recorded mode stands for ----------------------------------------------------------------

  /** Share was granted on top of, or before, one of the two modes it does not
      cover, and nothing stronger than Share was granted since. */
  ghost predicate MixesShare(held: set<Held>, pid: Pid, obj: LockObject) {
    && Held(pid, obj, Share) in held
    && (Held(pid, obj, RowExclusive) in held || Held(pid, obj, ShareUpdateExclusive) in held)
    && Held(pid, obj, ShareRowExclusive) !in held
    && Held(pid, obj, Exclusive) !in held
    && Held(pid, obj, AccessExclusive) !in held
  }

  lemma HighestCovers(modes: set<LockMode>, top: LockMode)
    requires top in modes && forall m :: m in modes ==> m.Index() <= top.Index()
    ensures (forall m :: m in modes ==> Covers(top, m)) <==>
            !(top == Share && (RowExclusive in modes || ShareUpdateExclusive in modes))
  {
    forall m | m in modes
      ensures Covers(top, m) <==> !(top == Share && (m == RowExclusive || m == ShareUpdateExclusive))
    {
      IndexOrderCovers(top, m);
    }
  }

  lemma HighestIsRecorded(s: State, obj: LockObject, c: Claim, m: LockMode)
    requires Shaped(s.table) && Recorded(s.table, s.held)
    requires obj in s.table && c in s.table[obj].holders && Held(c.pid, obj, m) in s.held
    ensures m.Index() <= c.mode.Index()
  {
    assert HasRecord(s.table, Held(c.pid, obj, m));
    var k :| Claim(c.pid, k) in s.table[obj].holders && m.Index() <= k.Index();
    SameEntry(s.table[obj].holders, c, Claim(c.pid, k));
  }

  /** The one entry a backend has on an object stands for every mode granted to
      it since its last release, exactly unless Share was mixed in. */
  lemma RecordedModeCovers(es: seq<Event>, obj: LockObject, c: Claim)
    requires IsRun(es) && obj in After(es).table && c in After(es).table[obj].holders
    ensures (forall m :: Held(c.pid, obj, m) in After(es).held ==> Covers(c.mode, m)) <==>
            !MixesShare(After(es).held, c.pid, obj)
  {
    RunsKeepInv(es);
    EntryCovers(After(es), obj, c);
  }

  lemma EntryCovers(s: State, obj: LockObject, c: Claim)
    requires Shaped(s.table) && Recorded(s.table, s.held)
    requires obj in s.table && c in s.table[obj].holders
    ensures (forall m :: Held(c.pid, obj, m) in s.held ==> Covers(c.mode, m)) <==>
            !MixesShare(s.held, c.pid, obj)
  {
    var modes := set h | h in s.held && h.pid == c.pid && h.obj == obj :: h.mode;
    forall m
      ensures m in modes <==> Held(c.pid, obj, m) in s.held
      ensures m in modes ==> m.Index() <= c.mode.Index()
    {
      if Held(c.pid, obj, m) in s.held {
        assert Held(c.pid, obj, m).mode in modes;
        HighestIsRecorded(s, obj, c, m);
      }
    }
    HighestCovers(modes, c.mode);
    if Share in modes && c.mode != Share {
      IndexAboveShare(c.mode);
    }
  }

  lemma IndexAboveShare(m: LockMode)
    requires Share.Index() <= m.Index() && m != Share
    ensures m == ShareRowExclusive || m == Exclusive || m == AccessExclusive
  {
  }

  /** Two backends that did not mix in Share were never granted conflicting modes
      of one object at the same time. */
  lemma GrantsExclude(es: seq<Event>, g: Held, h: Held)
    requires IsRun(es) && g in After(es).held && h in After(es).held
    requires g.obj == h.obj && g.pid != h.pid
    requires !MixesShare(After(es).held, g.pid, g.obj) && !MixesShare(After(es).held, h.pid, h.obj)
    ensures !g.mode.ConflictsWith(h.mode)
  {
    RunsKeepInv(es);
    var s := After(es);
    var gm := EntryOf(s.table, s.held, g);
    var hm := EntryOf(s.table, s.held, h);
    EntryCovers(s, g.obj, Claim(g.pid, gm));
    EntryCovers(s, h.obj, Claim(h.pid, hm));
    assert g == Held(g.pid, g.obj, g.mode) && h == Held(h.pid, h.obj, h.mode);
    assert Covers(gm, g.mode) && Covers(hm, h.mode);
    ConflictSymmetric(gm, h.mode);
    ConflictSymmetric(hm, gm);
  }

  lemma EntryOf(t: LockTable, held: set<Held>, h: Held) returns (m: LockMode)
    requires Recorded(t, held) && h in held
    ensures h.obj in t && Claim(h.pid, m) in t[h.obj].holders
  {
    assert HasRecord(t, h);
    m :| Claim(h.pid, m) in t[h.obj].holders && h.mode.Index() <= m.Index();
  }

  lemma GrantExtends(es: seq<Event>, e: Event)
    requires IsRun(es) && e.Request? && e.pid !in After(es).parked
    requires FreeFor(After(es).table, e.pid, e.obj, e.mode)
    ensures IsRun(es + [e])
    ensures After(es + [e]) == State(Grant(After(es).table, e.pid, e.obj, e.mode), After(es).parked - {e.pid},
                                     After(es).held + {Held(e.pid, e.obj, e.mode)})
  {
    assert (es + [e])[..|es + [e]| - 1] == es;
  }

  lemma GrantSole(obj: LockObject, pid: Pid, mode: LockMode, mode': LockMode)
    ensures Grant(map[], pid, obj, mode) == map[obj := ObjectState([Claim(pid, mode)], [])]
    ensures Grant(map[obj := ObjectState([Claim(pid, mode)], [])], pid, obj, mode')
         == map[obj := ObjectState([Claim(pid, Upgrade(mode, mode'))], [])]
  {
    assert Record([], pid, mode) == [Claim(pid, mode)];
    assert Record([Claim(pid, mode)], pid, mode') == [Claim(pid, Upgrade(mode, mode'))];
  }

  lemma SoleBlocker(c: Claim, pid: Pid, mode: LockMode)
    requires !Blocks(c, pid, mode)
    ensures Blockers([c], pid, mode) == []
  {
    assert [c][..0] == [];
  }

  /** Without that condition exclusion fails: backend 1 takes ROW EXCLUSIVE and
      then SHARE, and backend 2 is still granted SHARE. */
  lemma ShareHidesRowExclusive(obj: LockObject) returns (es: seq<Event>)
    ensures IsRun(es)
    ensures Held(1, obj, RowExclusive) in After(es).held && Held(2, obj, Share) in After(es).held
    ensures RowExclusive.ConflictsWith(Share)
  {
    var e1 := Request(1, obj, RowExclusive, false);
    var e2 := Request(1, obj, Share, false);
    var e3 := Request(2, obj, Share, false);
    GrantExtends([], e1);
    GrantSole(obj, 1, RowExclusive, Share);
    SoleBlocker(Claim(1, RowExclusive), 1, Share);
    GrantExtends([] + [e1], e2);
    SoleBlocker(Claim(1, Share), 2, Share);
    es := [] + [e1] + [e2];
    GrantExtends(es, e3);
    es := es + [e3];
  }
}
