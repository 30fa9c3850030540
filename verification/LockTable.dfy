/** The lock table: eight table-lock modes with PostgreSQL's conflict matrix,
per-object holder and waiter lists, and the manager that changes them.

The functions give each manager call as a function of the table before it; the
class `LockManager` keeps the table in a field and is proved to make exactly
those changes.
*/
module LockTable {
  import opened Collections
  import opened CycleDetection

  // --- Lock modes -------------------------------------------------------------

  datatype LockMode =
    | AccessShare
    | RowShare
    | RowExclusive
    | ShareUpdateExclusive
    | Share
    | ShareRowExclusive
    | Exclusive
    | AccessExclusive
  {
    /** Position in the conflict matrix, weakest to strongest. */
    function Index(): (i: nat)
      ensures i < 8
    {
      match this
      case AccessShare => 0
      case RowShare => 1
      case RowExclusive => 2
      case ShareUpdateExclusive => 3
      case Share => 4
      case ShareRowExclusive => 5
      case Exclusive => 6
      case AccessExclusive => 7
    }

    /** The row of the conflict matrix for this mode: the modes it excludes. */
    function Excludes(): set<LockMode> {
      match this
      case AccessShare => {AccessExclusive}
      case RowShare => {Exclusive, AccessExclusive}
      case RowExclusive => {Share, ShareRowExclusive, Exclusive, AccessExclusive}
      case ShareUpdateExclusive =>
        {ShareUpdateExclusive, Share, ShareRowExclusive, Exclusive, AccessExclusive}
      case Share =>
        {RowExclusive, ShareUpdateExclusive, ShareRowExclusive, Exclusive, AccessExclusive}
      case ShareRowExclusive =>
        {RowExclusive, ShareUpdateExclusive, Share, ShareRowExclusive, Exclusive, AccessExclusive}
      case Exclusive =>
        {RowShare, RowExclusive, ShareUpdateExclusive, Share, ShareRowExclusive, Exclusive,
         AccessExclusive}
      case AccessExclusive =>
        {AccessShare, RowShare, RowExclusive, ShareUpdateExclusive, Share, ShareRowExclusive,
         Exclusive, AccessExclusive}
    }

    predicate ConflictsWith(other: LockMode) {
      other in Excludes()
    }
  }

  lemma ConflictSymmetric(a: LockMode, b: LockMode)
    ensures a.ConflictsWith(b) <==> b.ConflictsWith(a)
  {
    match a { case _ => match b { case _ => } }
  }

  /** Two mode numbers are in conflict when they add up to seven or more, except Share with
      itself; besides, ShareUpdateExclusive is in conflict with itself, and RowExclusive
      with Share. */
  predicate NumbersConflict(i: nat, j: nat) {
    || (i + j >= 7 && !(i == 4 && j == 4))
    || (i == 3 && j == 3)
    || (i == 2 && j == 4) || (i == 4 && j == 2)
  }

  lemma ConflictsExactly(a: LockMode, b: LockMode)
    ensures a.ConflictsWith(b) <==> NumbersConflict(a.Index(), b.Index())
  {
    match a { case _ => match b { case _ => } }
  }

  /** `strong` stands in for `weak`: it excludes whatever `weak` excludes. */
  predicate Covers(strong: LockMode, weak: LockMode) {
    weak.Excludes() <= strong.Excludes()
  }

  /** The index order is an order of strength except between Share and the two
      modes RowExclusive and ShareUpdateExclusive just below it. */
  lemma IndexOrderCovers(strong: LockMode, weak: LockMode)
    requires weak.Index() <= strong.Index()
    ensures Covers(strong, weak) <==>
            !(strong == Share && (weak == RowExclusive || weak == ShareUpdateExclusive))
  {
    if strong == Share && (weak == RowExclusive || weak == ShareUpdateExclusive) {
      assert Share in weak.Excludes() && Share !in strong.Excludes();
    }
  }

  // --- The table ----------------------------------------------------------------

  datatype LockObject = Table(name: string) | Row(table: string, key: string)

  /** A backend and a mode: one holder, or one parked waiter. */
  datatype Claim = Claim(pid: Pid, mode: LockMode)

  datatype ObjectState = ObjectState(holders: seq<Claim>, waiters: seq<Claim>) {
    predicate IsEmpty() {
      holders == [] && waiters == []
    }
  }

  type LockTable = map<LockObject, ObjectState>

  datatype TryResult = Granted | Conflict(on: seq<Pid>) | Deadlock

  function StateOf(t: LockTable, obj: LockObject): ObjectState {
    if obj in t then t[obj] else ObjectState([], [])
  }

  /** At most one entry per backend. */
  ghost predicate OnePerPid(cs: seq<Claim>) {
    forall i, j :: 0 <= i < j < |cs| ==> cs[i].pid != cs[j].pid
  }

  ghost predicate Absent(cs: seq<Claim>, pid: Pid) {
    forall c :: c in cs ==> c.pid != pid
  }

  /** `retain(|c| c.pid != pid)`. */
  function Without(cs: seq<Claim>, pid: Pid): (r: seq<Claim>)
    ensures forall c :: c in r <==> c in cs && c.pid != pid
    ensures |r| <= |cs|
    ensures OnePerPid(cs) ==> OnePerPid(r)
  {
    if cs == [] then []
    else
      var init := Without(cs[..|cs| - 1], pid);
      var last := cs[|cs| - 1];
      assert cs == cs[..|cs| - 1] + [last];
      if last.pid == pid then init
      else
        assert OnePerPid(cs) ==> forall c :: c in init ==> c.pid != last.pid;
        init + [last]
  }

  lemma {:induction false} WithoutAbsent(cs: seq<Claim>, pid: Pid)
    ensures Absent(cs, pid) ==> Without(cs, pid) == cs
    ensures !Absent(cs, pid) ==> |Without(cs, pid)| < |cs|
  {
    if cs != [] {
      assert cs == cs[..|cs| - 1] + [cs[|cs| - 1]];
      WithoutAbsent(cs[..|cs| - 1], pid);
    }
  }

  lemma WithoutSnoc(cs: seq<Claim>, c: Claim)
    requires Absent(cs, c.pid)
    ensures Without(cs + [c], c.pid) == cs
  {
    assert (cs + [c])[..|cs + [c]| - 1] == cs;
    WithoutAbsent(cs, c.pid);
  }

  predicate Blocks(h: Claim, pid: Pid, mode: LockMode) {
    h.pid != pid && h.mode.ConflictsWith(mode)
  }

  /** The pids of the holders in conflict with a request, in holder order. */
  function Blockers(holders: seq<Claim>, pid: Pid, mode: LockMode): seq<Pid> {
    if holders == [] then []
    else
      var init := Blockers(holders[..|holders| - 1], pid, mode);
      var last := holders[|holders| - 1];
      if Blocks(last, pid, mode) then init + [last.pid] else init
  }

  lemma {:induction false} BlockerListed(holders: seq<Claim>, pid: Pid, mode: LockMode, h: Claim)
    requires h in holders && Blocks(h, pid, mode)
    ensures h.pid in Blockers(holders, pid, mode)
  {
    var init, last := holders[..|holders| - 1], holders[|holders| - 1];
    assert holders == init + [last];
    if h != last {
      BlockerListed(init, pid, mode, h);
    }
  }

  lemma {:induction false} BlockerHolds(holders: seq<Claim>, pid: Pid, mode: LockMode, p: Pid) returns (h: Claim)
    requires p in Blockers(holders, pid, mode)
    ensures h in holders && h.pid == p && Blocks(h, pid, mode)
  {
    var last := holders[|holders| - 1];
    if last.pid == p && Blocks(last, pid, mode) {
      h := last;
    } else {
      h := BlockerHolds(holders[..|holders| - 1], pid, mode, p);
    }
  }

  /** The mode recorded for `pid` after it is granted `mode`. */
  function Upgrade(held: LockMode, mode: LockMode): LockMode {
    if mode.Index() > held.Index() then mode else held
  }

  /** Upgrade the first entry of `pid` in place, or append one. */
  function Record(holders: seq<Claim>, pid: Pid, mode: LockMode): seq<Claim> {
    if holders == [] then [Claim(pid, mode)]
    else if holders[0].pid == pid then [Claim(pid, Upgrade(holders[0].mode, mode))] + holders[1..]
    else [holders[0]] + Record(holders[1..], pid, mode)
  }

  /** The other backends' entries are untouched and `pid` ends with one entry. */
  lemma {:induction false} RecordClaims(holders: seq<Claim>, pid: Pid, mode: LockMode)
    requires OnePerPid(holders)
    ensures OnePerPid(Record(holders, pid, mode))
    ensures forall c: Claim :: c.pid != pid ==> (c in Record(holders, pid, mode) <==> c in holders)
    ensures forall m :: Claim(pid, m) in holders ==> Claim(pid, Upgrade(m, mode)) in Record(holders, pid, mode)
    ensures Absent(holders, pid) ==> Claim(pid, mode) in Record(holders, pid, mode)
  {
    if holders != [] {
      var head, rest := holders[0], holders[1..];
      assert holders == [head] + rest;
      if head.pid == pid {
        assert Absent(rest, pid);
      } else {
        RecordClaims(rest, pid, mode);
        var rest' := Record(rest, pid, mode);
        assert Absent(rest, head.pid);
        assert Absent(rest', head.pid);
        assert Record(holders, pid, mode) == [head] + rest';
      }
    }
  }

  lemma {:induction false} RecordAt(holders: seq<Claim>, i: nat, pid: Pid, mode: LockMode)
    requires i <= |holders|
    requires forall k :: 0 <= k < i ==> holders[k].pid != pid
    requires i < |holders| ==> holders[i].pid == pid
    ensures Record(holders, pid, mode) ==
            if i == |holders| then holders + [Claim(pid, mode)]
            else holders[i := Claim(pid, Upgrade(holders[i].mode, mode))]
  {
    if 0 < i {
      RecordAt(holders[1..], i - 1, pid, mode);
    }
  }

  method RecordHolder(holders: seq<Claim>, pid: Pid, mode: LockMode) returns (r: seq<Claim>)
    ensures r == Record(holders, pid, mode)
  {
    var i := 0;
    while i < |holders| && holders[i].pid != pid
      invariant 0 <= i <= |holders|
      invariant forall k :: 0 <= k < i ==> holders[k].pid != pid
    {
      i := i + 1;
    }
    RecordAt(holders, i, pid, mode);
    if i == |holders| {
      r := holders + [Claim(pid, mode)];
    } else if mode.Index() > holders[i].mode.Index() {
      r := holders[i := Claim(pid, mode)];
    } else {
      r := holders;
      assert holders[i] == Claim(pid, holders[i].mode);
    }
  }

  function Grant(t: LockTable, pid: Pid, obj: LockObject, mode: LockMode): LockTable {
    var st := StateOf(t, obj);
    t[obj := ObjectState(Record(st.holders, pid, mode), Without(st.waiters, pid))]
  }

  function AddWaiter(t: LockTable, pid: Pid, obj: LockObject, mode: LockMode): LockTable {
    var st := StateOf(t, obj);
    if exists w :: w in st.waiters && w.pid == pid then t[obj := st]
    else t[obj := st.(waiters := st.waiters + [Claim(pid, mode)])]
  }

  function RemoveWaiter(t: LockTable, pid: Pid, obj: LockObject): LockTable {
    if obj !in t then t
    else
      var st := t[obj].(waiters := Without(t[obj].waiters, pid));
      if st.IsEmpty() then t - {obj} else t[obj := st]
  }

  function ReleasedState(st: ObjectState, pid: Pid): ObjectState {
    ObjectState(Without(st.holders, pid), Without(st.waiters, pid))
  }

  function ReleaseAll(t: LockTable, pid: Pid): LockTable {
    map obj | obj in t && !ReleasedState(t[obj], pid).IsEmpty() :: ReleasedState(t[obj], pid)
  }

  /** Some object has an entry of `pid`. */
  ghost predicate Mentions(t: LockTable, pid: Pid) {
    exists obj :: obj in t && !(Absent(t[obj].holders, pid) && Absent(t[obj].waiters, pid))
  }

  // --- The wait-for graph ---------------------------------------------------------

  /** The edges of one waiter: to each holder it is blocked on. */
  ghost function WaiterEdges(w: Claim, holders: seq<Claim>): Edges {
    set h | h in holders && Blocks(h, w.pid, w.mode) :: (w.pid, h.pid)
  }

  ghost function StateEdges(st: ObjectState): Edges {
    set w, e | w in st.waiters && e in WaiterEdges(w, st.holders) :: e
  }

  ghost function WaitEdges(t: LockTable): Edges {
    set obj, e | obj in t && e in StateEdges(t[obj]) :: e
  }

  // --- The whole call ---------------------------------------------------------------

  ghost function TryAcquire(t: LockTable, pid: Pid, obj: LockObject, mode: LockMode): (TryResult, LockTable) {
    var on := Blockers(StateOf(t, obj).holders, pid, mode);
    if on == [] then (Granted, Grant(t, pid, obj, mode))
    else
      var waiting := AddWaiter(t, pid, obj, mode);
      if Cyclic(WaitEdges(waiting)) then (Deadlock, RemoveWaiter(waiting, pid, obj))
      else (Conflict(on), waiting)
  }

  /** A lock is granted exactly when no other backend holds the object in a mode whose number
      is in conflict with the one asked for. */
  lemma GrantedExactly(t: LockTable, pid: Pid, obj: LockObject, mode: LockMode)
    ensures TryAcquire(t, pid, obj, mode).0.Granted? <==>
            forall h :: h in StateOf(t, obj).holders && h.pid != pid ==>
              !NumbersConflict(h.mode.Index(), mode.Index())
  {
    var holders := StateOf(t, obj).holders;
    var on := Blockers(holders, pid, mode);
    forall h | h in holders && h.pid != pid
      ensures NumbersConflict(h.mode.Index(), mode.Index()) ==> h.pid in on
    {
      ConflictsExactly(h.mode, mode);
      if NumbersConflict(h.mode.Index(), mode.Index()) {
        BlockerListed(holders, pid, mode, h);
      }
    }
    if on != [] {
      var h := BlockerHolds(holders, pid, mode, on[0]);
      ConflictsExactly(h.mode, mode);
    }
  }

  // --- The manager --------------------------------------------------------------------

  method AddEdge(g: Graph, from: Pid, to: Pid) returns (g': Graph)
    ensures EdgesOf(g') == EdgesOf(g) + {(from, to)}
  {
    var edges := if from in g then g[from] else [];
    if to !in edges {
      edges := edges + [to];
    }
    g' := g[from := edges];
    assert forall x, y :: (x, y) in EdgesOf(g') <==> x in g' && y in g'[x];
    assert forall x, y :: (x, y) in EdgesOf(g) <==> x in g && y in g[x];
  }

  method AddWaiterEdges(g: Graph, w: Claim, holders: seq<Claim>) returns (g': Graph)
    ensures EdgesOf(g') == EdgesOf(g) + WaiterEdges(w, holders)
  {
    g' := g;
    for i := 0 to |holders|
      invariant EdgesOf(g') == EdgesOf(g) + WaiterEdges(w, holders[..i])
    {
      var h := holders[i];
      assert holders[..i + 1] == holders[..i] + [h];
      assert WaiterEdges(w, holders[..i + 1]) == WaiterEdges(w, holders[..i]) + WaiterEdges(w, [h]);
      assert h in [h];
      if Blocks(h, w.pid, w.mode) {
        assert WaiterEdges(w, [h]) == {(w.pid, h.pid)};
        g' := AddEdge(g', w.pid, h.pid);
      } else {
        assert WaiterEdges(w, [h]) == {};
      }
    }
    assert holders[..|holders|] == holders;
  }

  method AddStateEdges(g: Graph, st: ObjectState) returns (g': Graph)
    ensures EdgesOf(g') == EdgesOf(g) + StateEdges(st)
  {
    g' := g;
    for i := 0 to |st.waiters|
      invariant EdgesOf(g') == EdgesOf(g) + StateEdges(st.(waiters := st.waiters[..i]))
    {
      var w := st.waiters[i];
      g' := AddWaiterEdges(g', w, st.holders);
      assert st.waiters[..i + 1] == st.waiters[..i] + [w];
      assert StateEdges(st.(waiters := st.waiters[..i + 1]))
          == StateEdges(st.(waiters := st.waiters[..i])) + WaiterEdges(w, st.holders);
    }
    assert st.waiters[..|st.waiters|] == st.waiters;
  }

  class LockManager {
    var objects: LockTable

    constructor ()
      ensures objects == map[]
    {
      objects := map[];
    }

    /** The wait-for graph holds an edge exactly where a waiter is blocked on a holder. */
    method WaitForGraph() returns (g: Graph)
      ensures EdgesOf(g) == WaitEdges(objects)
    {
      g := map[];
      var todo := objects.Keys;
      while todo != {}
        invariant todo <= objects.Keys
        invariant EdgesOf(g) == WaitEdges(objects - todo)
        decreases todo
      {
        var obj := Pick(todo);
        g := AddStateEdges(g, objects[obj]);
        assert WaitEdges(objects - (todo - {obj})) == WaitEdges(objects - todo) + StateEdges(objects[obj]) by {
          SplitEdges(objects, todo, obj);
        }
        todo := todo - {obj};
      }
      assert objects - {} == objects;
    }

    method GrantLock(pid: Pid, obj: LockObject, mode: LockMode)
      modifies this
      ensures objects == Grant(old(objects), pid, obj, mode)
    {
      var st := StateOf(objects, obj);
      var holders := RecordHolder(st.holders, pid, mode);
      objects := objects[obj := ObjectState(holders, Without(st.waiters, pid))];
    }

    method Park(pid: Pid, obj: LockObject, mode: LockMode)
      modifies this
      ensures objects == AddWaiter(old(objects), pid, obj, mode)
    {
      var st := StateOf(objects, obj);
      var present := false;
      for i := 0 to |st.waiters|
        invariant present <==> exists w :: w in st.waiters[..i] && w.pid == pid
      {
        assert st.waiters[..i + 1] == st.waiters[..i] + [st.waiters[i]];
        present := present || st.waiters[i].pid == pid;
      }
      assert st.waiters[..|st.waiters|] == st.waiters;
      if !present {
        st := st.(waiters := st.waiters + [Claim(pid, mode)]);
      }
      objects := objects[obj := st];
    }

    method Unpark(pid: Pid, obj: LockObject)
      modifies this
      ensures objects == RemoveWaiter(old(objects), pid, obj)
    {
      if obj in objects {
        var st := objects[obj].(waiters := Without(objects[obj].waiters, pid));
        if st.IsEmpty() {
          objects := objects - {obj};
        } else {
          objects := objects[obj := st];
        }
      }
    }

    /** The one call that changes the table on behalf of a request. */
    method TryAcquireLock(pid: Pid, obj: LockObject, mode: LockMode) returns (r: TryResult)
      modifies this
      ensures (r, objects) == TryAcquire(old(objects), pid, obj, mode)
    {
      var on := Blockers(StateOf(objects, obj).holders, pid, mode);
      if on == [] {
        GrantLock(pid, obj, mode);
        return Granted;
      }
      Park(pid, obj, mode);
      var graph := WaitForGraph();
      var cycle := HasCycle(graph);
      if cycle {
        Unpark(pid, obj);
        return Deadlock;
      }
      r := Conflict(on);
    }

    /** Drops every entry of `pid`; answers whether there was one. */
    method ReleaseAllLocks(pid: Pid) returns (changed: bool)
      modifies this
      ensures objects == ReleaseAll(old(objects), pid)
      ensures changed <==> Mentions(old(objects), pid)
    {
      ghost var before := objects;
      changed := false;
      var kept: LockTable := map[];
      var todo := objects.Keys;
      while todo != {}
        invariant todo <= before.Keys && objects == before
        invariant kept == ReleaseAll(before - todo, pid)
        invariant changed <==> Mentions(before - todo, pid)
        decreases todo
      {
        var obj := Pick(todo);
        var st := ReleasedState(objects[obj], pid);
        WithoutAbsent(objects[obj].holders, pid);
        WithoutAbsent(objects[obj].waiters, pid);
        AddedBack(before, todo, obj);
        MentionsSplit(before - todo, obj, before[obj], pid);
        ReleaseSplit(before - todo, obj, before[obj], pid);
        if |st.holders| + |st.waiters| != |objects[obj].holders| + |objects[obj].waiters| {
          changed := true;
        }
        if !st.IsEmpty() {
          kept := kept[obj := st];
        }
        todo := todo - {obj};
      }
      assert before - {} == before;
      objects := kept;
    }

    method IsLockedByOther(pid: Pid, obj: LockObject, mode: LockMode) returns (locked: bool)
      ensures locked <==> Blockers(StateOf(objects, obj).holders, pid, mode) != []
    {
      var hs := StateOf(objects, obj).holders;
      locked := false;
      for i := 0 to |hs|
        invariant locked <==> Blockers(hs[..i], pid, mode) != []
      {
        assert hs[..i + 1][..i] == hs[..i];
        locked := locked || Blocks(hs[i], pid, mode);
      }
      assert hs[..|hs|] == hs;
    }
  }

  lemma AddedBack(t: LockTable, todo: set<LockObject>, obj: LockObject)
    requires todo <= t.Keys && obj in todo
    ensures t - (todo - {obj}) == (t - todo)[obj := t[obj]]
  {
  }

  lemma SplitEdges(t: LockTable, todo: set<LockObject>, obj: LockObject)
    requires todo <= t.Keys && obj in todo
    ensures WaitEdges(t - (todo - {obj})) == WaitEdges(t - todo) + StateEdges(t[obj])
  {
    AddedBack(t, todo, obj);
    AddObjectEdges(t - todo, obj, t[obj]);
  }

  lemma AddObjectEdges(t: LockTable, obj: LockObject, st: ObjectState)
    requires obj !in t
    ensures WaitEdges(t[obj := st]) == WaitEdges(t) + StateEdges(st)
  {
    var t' := t[obj := st];
    forall e
      ensures e in WaitEdges(t') <==> e in WaitEdges(t) || e in StateEdges(st)
    {
      if e in WaitEdges(t) {
        var o :| o in t && e in StateEdges(t[o]);
        assert o in t' && e in StateEdges(t'[o]);
      }
      if e in StateEdges(st) {
        assert obj in t' && e in StateEdges(t'[obj]);
      }
    }
  }

  lemma MentionsSplit(t: LockTable, obj: LockObject, st: ObjectState, pid: Pid)
    requires obj !in t
    ensures Mentions(t[obj := st], pid) <==>
            Mentions(t, pid) || !(Absent(st.holders, pid) && Absent(st.waiters, pid))
  {
    var t' := t[obj := st];
    if Mentions(t, pid) {
      var o :| o in t && !(Absent(t[o].holders, pid) && Absent(t[o].waiters, pid));
      assert o in t' && t'[o] == t[o];
    }
    assert obj in t' && t'[obj] == st;
  }

  lemma ReleaseSplit(t: LockTable, obj: LockObject, st: ObjectState, pid: Pid)
    requires obj !in t
    ensures ReleaseAll(t[obj := st], pid) ==
            if ReleasedState(st, pid).IsEmpty() then ReleaseAll(t, pid)
            else ReleaseAll(t, pid)[obj := ReleasedState(st, pid)]
  {
    var left, after, before := ReleasedState(st, pid), ReleaseAll(t[obj := st], pid), ReleaseAll(t, pid);
    forall o
      ensures o in after <==> if o == obj then !left.IsEmpty() else o in before
      ensures o in after ==> after[o] == if o == obj then left else before[o]
    {
    }
    SplitMap(after, before, obj, left, left.IsEmpty());
  }

  lemma SplitMap<K, V>(after: map<K, V>, before: map<K, V>, k: K, v: V, empty: bool)
    requires k !in before && (k in after <==> !empty) && (k in after ==> after[k] == v)
    requires forall o :: o != k ==> (o in after <==> o in before)
    requires forall o :: o != k && o in after ==> after[o] == before[o]
    ensures after == if empty then before else before[k := v]
  {
  }
}
