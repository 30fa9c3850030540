/** Carrying a route out, and a filtered scan of a table: through an index or in full,
re-checking the filter on every candidate.

A scan that neither panics nor meets a row on which the filter fails returns exactly the
rows that the filter keeps and the route reaches. Away from BRIN a route reaches the rows
it yields; BRIN reaches every row of a block that may hold one.
*/
module IndexScan {
  import opened Collections
  import opened Values
  import opened IndexStore
  import opened IndexLookup
  import opened TableState
  import opened Planner
  import opened Routes

  // --- Choosing the route, loop by loop ----------------------------------------------

  /** `index_on` and `eq_index_on`: a suitable index, a unique one if there is one. */
  method IndexOn(ixs: seq<Index>, unique: set<nat>, col: nat, ranges: bool) returns (r: Option<nat>)
    ensures r == Chosen(ixs, unique, col, ranges, |ixs|)
    ensures r.None? <==> forall i :: 0 <= i < |ixs| ==> !Suits(ixs[i], col, ranges)
    ensures (exists i :: i in unique && i < |ixs| && Suits(ixs[i], col, ranges)) ==> r.Some? && r.value in unique
  {
    r := None;
    for i := 0 to |ixs|
      invariant r == Chosen(ixs, unique, col, ranges, i)
      invariant forall j :: 0 <= j < i && j in unique && Suits(ixs[j], col, ranges) ==> r.Some? && r.value in unique
    {
      if Suits(ixs[i], col, ranges) && !(r.Some? && r.value in unique) {
        r := Some(i);
      }
    }
  }

  method GinIndexOn(ixs: seq<Index>, col: nat) returns (r: Option<nat>)
    ensures r == GinIndex(ixs, col, 0)
  {
    for i := 0 to |ixs|
      invariant GinIndex(ixs, col, 0) == GinIndex(ixs, col, i)
    {
      if Suits(ixs[i], col, false) && ixs[i].store.Gin? {
        return Some(i);
      }
    }
    return None;
  }

  method FindGinRoute(ixs: seq<Index>, cs: seq<Filter>) returns (r: Route)
    ensures r == GinRoute(ixs, cs)
  {
    for k := 0 to |cs|
      invariant GinRoute(ixs, cs) == GinRoute(ixs, cs[k..])
    {
      SuffixNext(cs, k);
      var needles := Needles(cs[k]);
      if needles.Some? {
        var i := GinIndexOn(ixs, cs[k].l.col);
        if i.Some? {
          return ViaNeedles(i.value, needles.value);
        }
      }
    }
    return FullScan;
  }

  method FindExprKey(cs: seq<Filter>, expr: Operand) returns (r: Option<Value>)
    ensures r == ExprKey(cs, expr)
  {
    for k := 0 to |cs|
      invariant ExprKey(cs, expr) == ExprKey(cs[k..], expr)
    {
      SuffixNext(cs, k);
      var here := EquatedWith(cs[k], expr);
      if here.Some? {
        return here;
      }
    }
    return None;
  }

  lemma {:induction false} LeadingUnique(cols: seq<nat>, facts: map<nat, Value>, key: Key)
    requires |key| <= |cols| && forall k :: 0 <= k < |key| ==> cols[k] in facts && key[k] == facts[cols[k]]
    requires |key| < |cols| ==> cols[|key|] !in facts
    ensures key == LeadingKey(cols, facts)
  {
    if key != [] {
      assert forall k :: 0 <= k < |key| - 1 ==> key[1..][k] == facts[cols[1..][k]];
      LeadingUnique(cols[1..], facts, key[1..]);
    }
  }

  method BuildLeadingKey(cols: seq<nat>, facts: map<nat, Value>) returns (key: Key)
    ensures key == LeadingKey(cols, facts)
  {
    key := [];
    while |key| < |cols| && cols[|key|] in facts
      invariant |key| <= |cols| && forall k :: 0 <= k < |key| ==> cols[k] in facts && key[k] == facts[cols[k]]
      decreases |cols| - |key|
    {
      key := key + [facts[cols[|key|]]];
    }
    LeadingUnique(cols, facts, key);
  }

  /** One turn of the loop over the indexes. */
  method FindIndexRoute(idx: Index, decl: Decl, cs: seq<Filter>, facts: map<nat, Value>, i: nat) returns (r: Route)
    requires facts == Facts(cs)
    ensures r == IndexRoute(idx, decl, cs, i)
  {
    if decl.pred.Some? && decl.pred.value !in cs {
      return FullScan;
    }
    if decl.expr.Some? {
      var v := FindExprKey(cs, decl.expr.value);
      return if v.Some? then ViaKey(i, [v.value]) else FullScan;
    }
    if idx.spec.Expression? {
      return FullScan;
    }
    var key := BuildLeadingKey(idx.spec.cols, facts);
    if |idx.spec.cols| == 1 {
      return if decl.pred.None? then FullScan else if key != [] then ViaKey(i, key) else ViaAll(i);
    }
    if key == [] {
      return FullScan;
    }
    return if |key| == |idx.spec.cols| then ViaKey(i, key)
           else if idx.store.Btree? then ViaPrefix(i, key)
           else FullScan;
  }

  /** `advanced_index_positions` after the GIN part. */
  method FindAdvancedRoute(ixs: seq<Index>, decls: seq<Decl>, cs: seq<Filter>) returns (r: Route)
    requires |decls| == |ixs|
    ensures r == AdvancedRoute(ixs, decls, cs, 0)
  {
    var facts := CollectEqFacts(cs);
    for i := 0 to |ixs|
      invariant AdvancedRoute(ixs, decls, cs, 0) == AdvancedRoute(ixs, decls, cs, i)
    {
      r := FindIndexRoute(ixs[i], decls[i], cs, facts, i);
      if !r.FullScan? {
        return;
      }
    }
    return FullScan;
  }

  /** `index_candidate_positions`, up to the lookup. */
  method ChooseRoute(ixs: seq<Index>, decls: seq<Decl>, unique: set<nat>, f: Filter) returns (r: Route)
    requires |decls| == |ixs|
    ensures r == Choose(ixs, decls, unique, f)
  {
    r := FindGinRoute(ixs, Conjuncts(f));
    if !r.FullScan? {
      return;
    }
    r := FindAdvancedRoute(ixs, decls, Conjuncts(f));
    if !r.FullScan? {
      return;
    }
    var access := PlanAccess(f);
    if access.None? {
      return FullScan;
    }
    var forRange := IndexOn(ixs, unique, access.value.col, true);
    var forEq := IndexOn(ixs, unique, access.value.col, false);
    if forRange.None? || forEq.None? {
      return FullScan;
    }
    match access.value.plan {
      case EqPlan(v) => r := ViaKey(forEq.value, [v]);
      case InPlan(vals) => r := ViaKeys(forEq.value, vals);
      case RangePlan(lo, hi) => r := ViaRange(forRange.value, lo, hi);
    }
  }

  // --- Looking up ----------------------------------------------------------------------

  /** The store can carry the route out. */
  ghost predicate Ready(st: Store, es: Entries, route: Route) {
    && !route.FullScan?
    && (route.ViaNeedles? ==> st.Gin?)
    && (route.ViaRange? ==> SingleColumn(es) && (st.Btree? || st.Brin?))
  }

  /** The lookup of a key lists the row: BRIN by its block range, the others by its entry. */
  ghost predicate ListsKey(st: Store, es: Entries, key: Key, id: RowId) {
    id in es && if st.Brin? then BrinListsKey(es, id, key) else KeyFinds(st, key, es[id])
  }

  /** The route lists the row. */
  ghost predicate Lists(st: Store, es: Entries, route: Route, id: RowId) {
    id in es &&
    match route
    case ViaKey(_, key) => ListsKey(st, es, key, id)
    case ViaKeys(_, vals) => exists v :: v in vals && ListsKey(st, es, [v], id)
    case ViaRange(_, lo, hi) => if st.Brin? then BrinLists(es, id, lo, hi) else Finds(st, route, es[id])
    case _ => Finds(st, route, es[id])
  }

  method LookupKey(st: Store, ghost es: Entries, key: Key) returns (ids: seq<RowId>)
    requires Represents(st, es)
    ensures forall id :: id in ids <==> ListsKey(st, es, key, id)
    ensures forall id :: id in es && KeyFinds(st, key, es[id]) ==> id in ids
  {
    ids := LookupEq(st, es, key);
  }

  method LookupKeys(st: Store, ghost es: Entries, vals: seq<Value>) returns (ids: seq<RowId>)
    requires Represents(st, es)
    ensures forall id :: id in ids <==> exists v :: v in vals && ListsKey(st, es, [v], id)
    ensures forall id :: id in es && (exists v :: v in vals && KeyFinds(st, [v], es[id])) ==> id in ids
  {
    ids := [];
    for k := 0 to |vals|
      invariant forall id :: id in ids <==> exists v :: v in vals[..k] && ListsKey(st, es, [v], id)
      invariant forall id :: id in es && (exists v :: v in vals[..k] && KeyFinds(st, [v], es[id])) ==> id in ids
    {
      var v := vals[k];
      assert vals[..k + 1] == vals[..k] + [v];
      var more := LookupKey(st, es, [v]);
      ids := ids + more;
    }
    assert vals[..|vals|] == vals;
  }

  /** The ids a route lists, among them every entry it finds; nothing when the range walk
      panics. */
  method LookupIds(st: Store, ghost es: Entries, route: Route) returns (r: Option<seq<RowId>>)
    requires Represents(st, es) && Ready(st, es, route)
    ensures r.None? <==> route.ViaRange? && st.Btree? && RangePanics(route.lo, route.hi)
    ensures r.Some? ==> forall id :: id in r.value <==> Lists(st, es, route, id)
    ensures r.Some? ==> forall id :: id in es && Finds(st, route, es[id]) ==> id in r.value
  {
    match route {
      case ViaNeedles(_, needles) =>
        r := LookupContains(st, es, needles);
      case ViaKey(_, key) =>
        var ids := LookupKey(st, es, key);
        r := Some(ids);
      case ViaKeys(_, vals) =>
        var ids := LookupKeys(st, es, vals);
        r := Some(ids);
      case ViaPrefix(_, key) =>
        var ids := LookupPrefix(st, es, key);
        r := Some(ids);
      case ViaRange(_, lo, hi) =>
        r := LookupRange(st, es, lo, hi);
      case ViaAll(_) =>
        var ids := AllRowIds(st, es);
        r := Some(ids);
    }
  }

  // --- Positions -------------------------------------------------------------------------

  /** `ids_to_positions`. */
  method IdsToPositions(s: State, ids: seq<RowId>) returns (ps: seq<nat>)
    requires IdsOk(s.ids, s.pos, s.nextId)
    ensures forall p :: p in ps <==> 0 <= p < |s.ids| && s.ids[p] in ids
  {
    ps := [];
    for i := 0 to |ids|
      invariant forall p :: p in ps <==> 0 <= p < |s.ids| && s.ids[p] in ids[..i]
    {
      var id := ids[i];
      assert ids[..i + 1] == ids[..i] + [id];
      if id in s.pos {
        ps := ps + [s.pos[id]];
      }
    }
    assert ids[..|ids|] == ids;
  }

  ghost function Entry(s: State, logical: seq<Row>, i: nat): Entries
    requires i < |s.indexes|
  {
    EntriesOf(s.indexes[i], ContentOf(s.pos, logical))
  }

  /** Each row is filed under its entry, if it has one. */
  ghost predicate Filed(es: Entries, ids: seq<RowId>, idx: Index, logical: seq<Row>) {
    && |ids| == |logical|
    && (forall p :: 0 <= p < |ids| ==>
          (ids[p] in es <==> EntryFor(idx, logical[p]).Some?)
          && (ids[p] in es ==> EntryFor(idx, logical[p]) == Some(es[ids[p]])))
  }

  lemma TableFiled(s: State, logical: seq<Row>, i: nat)
    requires Holds(s, logical) && i < |s.indexes|
    ensures Represents(s.indexes[i].store, Entry(s, logical, i))
    ensures Filed(Entry(s, logical, i), s.ids, s.indexes[i], logical)
    ensures IdsOk(s.ids, s.pos, s.nextId)
  {
    assert Indexed(s.indexes[i], ContentOf(s.pos, logical));
    forall p | 0 <= p < |s.ids|
      ensures s.ids[p] in ContentOf(s.pos, logical) && ContentOf(s.pos, logical)[s.ids[p]] == logical[p]
    {
      assert s.pos[s.ids[p]] == p;
    }
  }

  lemma OneColumn(idx: Index, content: Content, col: nat)
    requires idx.spec == Columns([col])
    ensures SingleColumn(EntriesOf(idx, content))
  {
  }

  /** `Panic` is the refused B-tree range. */
  datatype Candidates = Panic | Positions(ps: seq<nat>)

  /** The row's entry is one the route finds. */
  ghost predicate Filing(idx: Index, st: Store, route: Route, row: Row) {
    EntryFor(idx, row).Some? && Finds(st, route, EntryFor(idx, row).value)
  }

  method Probe(st: Store, s: State, ghost es: Entries, ghost idx: Index, ghost logical: seq<Row>, route: Route)
    returns (r: Candidates)
    requires Represents(st, es) && Ready(st, es, route)
    requires Filed(es, s.ids, idx, logical) && IdsOk(s.ids, s.pos, s.nextId)
    ensures r.Panic? <==> route.ViaRange? && st.Btree? && RangePanics(route.lo, route.hi)
    ensures r.Positions? ==> forall p :: p in r.ps <==> 0 <= p < |s.ids| && Lists(st, es, route, s.ids[p])
    ensures r.Positions? ==> forall p :: 0 <= p < |logical| && Filing(idx, st, route, logical[p]) ==> p in r.ps
  {
    var ids := LookupIds(st, es, route);
    if ids.None? {
      return Panic;
    }
    var ps := IdsToPositions(s, ids.value);
    r := Positions(ps);
  }

  method AllPositions(n: nat) returns (ps: seq<nat>)
    ensures forall p :: p in ps <==> 0 <= p < n
  {
    ps := [];
    for i := 0 to n
      invariant forall p :: p in ps <==> 0 <= p < i
    {
      ps := ps + [i];
    }
  }

  /** The index of a chosen route can carry it out. */
  lemma ChosenReady(ixs: seq<Index>, decls: seq<Decl>, unique: set<nat>, f: Filter)
    requires |decls| == |ixs|
    ensures var route := Choose(ixs, decls, unique, f);
            && OnIndex(ixs, route)
            && (route.ViaNeedles? ==> ixs[route.i].store.Gin?)
            && (route.ViaRange? ==> ixs[route.i].spec.Columns? && |ixs[route.i].spec.cols| == 1
                                    && (ixs[route.i].store.Btree? || ixs[route.i].store.Brin?))
  {
    ChooseOnIndex(ixs, decls, unique, f);
    GinReady(ixs, Conjuncts(f));
    AdvancedReady(ixs, decls, Conjuncts(f), 0);
  }

  lemma {:induction false} GinReady(ixs: seq<Index>, cs: seq<Filter>)
    ensures var route := GinRoute(ixs, cs);
            route.FullScan? || (route.ViaNeedles? && route.i < |ixs| && ixs[route.i].store.Gin?)
  {
    if cs != [] {
      GinReady(ixs, cs[1..]);
    }
  }

  lemma {:induction false} AdvancedReady(ixs: seq<Index>, decls: seq<Decl>, cs: seq<Filter>, i: nat)
    requires |decls| == |ixs| && i <= |ixs|
    ensures var route := AdvancedRoute(ixs, decls, cs, i); !route.ViaNeedles? && !route.ViaRange?
    decreases |ixs| - i
  {
    if i < |ixs| {
      AdvancedReady(ixs, decls, cs, i + 1);
    }
  }

  /** The row at the position is among the candidates of the route. */
  ghost predicate Reached(s: State, logical: seq<Row>, route: Route, p: nat)
    requires OnIndex(s.indexes, route) && p < |s.ids|
  {
    route.FullScan? || Lists(s.indexes[route.i].store, Entry(s, logical, route.i), route, s.ids[p])
  }

  /** Away from BRIN those are the rows the route yields. */
  lemma ReachedIsYielded(s: State, logical: seq<Row>, route: Route, p: nat)
    requires Holds(s, logical) && OnIndex(s.indexes, route) && p < |s.ids| && Exact(s.indexes, route)
    ensures Reached(s, logical, route, p) <==> Yields(s.indexes, route, logical[p])
  {
    if !route.FullScan? {
      var es, idx := Entry(s, logical, route.i), s.indexes[route.i];
      TableFiled(s, logical, route.i);
      if s.ids[p] in es {
        ListsIsFinds(idx.store, es, route, s.ids[p]);
      }
    }
  }

  lemma ListsIsFinds(st: Store, es: Entries, route: Route, id: RowId)
    requires id in es && !route.FullScan? && (route.ViaAll? || !st.Brin?)
    ensures Lists(st, es, route, id) <==> Finds(st, route, es[id])
  {
  }

  /** The candidate positions of a chosen route. */
  method Follow(s: State, ghost logical: seq<Row>, decls: seq<Decl>, unique: set<nat>, f: Filter, route: Route)
    returns (r: Candidates)
    requires Holds(s, logical) && |decls| == |s.indexes| && route == Choose(s.indexes, decls, unique, f)
    requires OnIndex(s.indexes, route)
    ensures r.Panic? <==> Panics(s.indexes, route)
    ensures r.Positions? ==> forall p :: p in r.ps <==> 0 <= p < |logical| && Reached(s, logical, route, p)
    ensures r.Positions? ==> forall p :: 0 <= p < |logical| && Yields(s.indexes, route, logical[p]) ==> p in r.ps
  {
    if route.FullScan? {
      var ps := AllPositions(|s.rows|);
      return Positions(ps);
    }
    var i := route.i;
    ChosenReady(s.indexes, decls, unique, f);
    TableFiled(s, logical, i);
    if route.ViaRange? {
      assert s.indexes[i].spec == Columns([s.indexes[i].spec.cols[0]]);
      OneColumn(s.indexes[i], ContentOf(s.pos, logical), s.indexes[i].spec.cols[0]);
    }
    r := Probe(s.indexes[i].store, s, Entry(s, logical, i), s.indexes[i], logical, route);
  }

  // --- The whole scan ------------------------------------------------------------------------

  ghost predicate Distinct(ps: seq<nat>) {
    forall i, j :: 0 <= i < j < |ps| ==> ps[i] != ps[j]
  }

  /** The filter cannot be evaluated on the row. */
  ghost predicate FailsAt(env: Env, f: Filter, logical: seq<Row>, p: nat) {
    p < |logical| && Judge(env, f, logical[p]).Failure?
  }

  /** Deduplicate the candidates and keep those on which the filter is TRUE; nothing when it
      cannot be evaluated on one of them. */
  method Recheck(env: Env, f: Filter, s: State, ghost logical: seq<Row>, ps: seq<nat>) returns (r: Option<seq<nat>>)
    requires |s.rows| == |logical| && Reads(s.rows, s.side.chunks, logical)
    requires forall p :: p in ps ==> 0 <= p < |logical|
    ensures r.None? <==> exists p :: p in ps && FailsAt(env, f, logical, p)
    ensures r.Some? ==> Distinct(r.value)
    ensures r.Some? ==> forall p :: p in r.value <==> p in ps && 0 <= p < |logical| && Keeps(env, f, logical[p])
  {
    var out: seq<nat> := [];
    for k := 0 to |ps|
      invariant Distinct(out)
      invariant forall p :: p in ps[..k] ==> !FailsAt(env, f, logical, p)
      invariant forall p :: p in out <==> p in ps[..k] && 0 <= p < |logical| && Keeps(env, f, logical[p])
    {
      var p := ps[k];
      assert p in ps;
      assert ps[..k + 1] == ps[..k] + [p];
      assert Toast.DetoastRow(s.rows[p], s.side.chunks) == logical[p];
      JudgeKeeps(env, f, logical[p]);
      var verdict := Judge(env, f, Toast.DetoastRow(s.rows[p], s.side.chunks));
      if verdict.Failure? {
        assert FailsAt(env, f, logical, p);
        return None;
      }
      if p !in out && verdict.True? {
        out := out + [p];
      }
    }
    assert ps[..|ps|] == ps;
    return Some(out);
  }

  ghost predicate YieldsKept(env: Env, f: Filter, ixs: seq<Index>, route: Route, logical: seq<Row>)
    requires OnIndex(ixs, route)
  {
    forall p :: 0 <= p < |logical| && Keeps(env, f, logical[p]) ==> Yields(ixs, route, logical[p])
  }

  /** Every row the filter keeps is among the candidates. */
  ghost predicate ReachesKept(env: Env, f: Filter, s: State, logical: seq<Row>, route: Route)
    requires OnIndex(s.indexes, route) && |s.ids| == |logical|
  {
    forall p :: 0 <= p < |logical| && Keeps(env, f, logical[p]) ==> Reached(s, logical, route, p)
  }

  /** The filter cannot be evaluated on some candidate. */
  ghost predicate ReachesFailure(env: Env, f: Filter, s: State, logical: seq<Row>, route: Route)
    requires OnIndex(s.indexes, route) && |s.ids| == |logical|
  {
    exists p :: 0 <= p < |logical| && Reached(s, logical, route, p) && FailsAt(env, f, logical, p)
  }

  /** `Panicked` is the refused range, `Failed` an error of the filter. */
  datatype Scanned = Panicked | Failed | Rows(ps: seq<nat>)

  /** What reading every row gives: an error if there is one, or else the kept rows. */
  ghost predicate AsFullScan(env: Env, f: Filter, logical: seq<Row>, r: Scanned) {
    if exists p :: 0 <= p < |logical| && FailsAt(env, f, logical, p) then r.Failed?
    else r.Rows? && forall p :: p in r.ps <==> 0 <= p < |logical| && Keeps(env, f, logical[p])
  }

  /** A filtered scan of a consistent table. It panics exactly when its route does, fails
      exactly when the filter cannot be evaluated on a row that the route reaches, and
      otherwise returns, none twice, exactly the kept rows that the route reaches; those it
      yields are among them. So it is the full scan exactly when it does not panic and it
      reaches a failing row, or, when there is none, every kept row. */
  method Scan(env: Env, f: Filter, s: State, ghost logical: seq<Row>, decls: seq<Decl>, unique: set<nat>)
    returns (r: Scanned)
    requires Holds(s, logical) && |decls| == |s.indexes|
    ensures OnIndex(s.indexes, Choose(s.indexes, decls, unique, f))
    ensures r.Panicked? <==> Panics(s.indexes, Choose(s.indexes, decls, unique, f))
    ensures r.Failed? <==> !r.Panicked? && ReachesFailure(env, f, s, logical, Choose(s.indexes, decls, unique, f))
    ensures r.Rows? ==> Distinct(r.ps)
    ensures r.Rows? ==>
              forall p :: p in r.ps <==>
                && 0 <= p < |logical| && Keeps(env, f, logical[p])
                && Reached(s, logical, Choose(s.indexes, decls, unique, f), p)
    ensures r.Rows? ==>
              forall p :: 0 <= p < |logical| && Keeps(env, f, logical[p])
                && Yields(s.indexes, Choose(s.indexes, decls, unique, f), logical[p])
                ==> p in r.ps
    ensures AsFullScan(env, f, logical, r) <==>
              !r.Panicked? && ReachesEnough(env, f, s, logical, Choose(s.indexes, decls, unique, f))
  {
    ChooseOnIndex(s.indexes, decls, unique, f);
    var route := ChooseRoute(s.indexes, decls, unique, f);
    var found := Follow(s, logical, decls, unique, f, route);
    if found.Panic? {
      return Panicked;
    }
    var out := Recheck(env, f, s, logical, found.ps);
    r := if out.None? then Failed else Rows(out.value);
  }

  /** A failing row if there is one, or else every kept row. */
  ghost predicate ReachesEnough(env: Env, f: Filter, s: State, logical: seq<Row>, route: Route)
    requires OnIndex(s.indexes, route) && |s.ids| == |logical|
  {
    if exists p :: 0 <= p < |logical| && FailsAt(env, f, logical, p) then ReachesFailure(env, f, s, logical, route)
    else ReachesKept(env, f, s, logical, route)
  }

  /** Away from BRIN, exactly when the route yields every kept row. */
  lemma ReachesExactly(env: Env, f: Filter, s: State, logical: seq<Row>, route: Route)
    requires Holds(s, logical) && OnIndex(s.indexes, route) && Exact(s.indexes, route)
    ensures ReachesKept(env, f, s, logical, route) <==> YieldsKept(env, f, s.indexes, route, logical)
  {
    forall p | 0 <= p < |logical|
      ensures Reached(s, logical, route, p) <==> Yields(s.indexes, route, logical[p])
    {
      ReachedIsYielded(s, logical, route, p);
    }
  }

  // --- When a scan is complete ---------------------------------------------------------------

  /** Filters that compare like with like: the route yields every kept row exactly when
      none is dropped by a whole partial hash index for a NULL key. */
  lemma LikeYieldsExactly(env: Env, f: Filter, ixs: seq<Index>, decls: seq<Decl>, unique: set<nat>, logical: seq<Row>)
    requires Declared(env, ixs, decls) && forall p :: 0 <= p < |logical| ==> Wide(ixs, logical[p])
    requires forall p :: 0 <= p < |logical| && Keeps(env, f, logical[p]) ==> Plain(env, f, logical[p])
    ensures var route := Choose(ixs, decls, unique, f);
            && OnIndex(ixs, route)
            && (YieldsKept(env, f, ixs, route, logical) <==>
                  forall p :: 0 <= p < |logical| && Keeps(env, f, logical[p]) ==> !NullDropped(ixs, route, logical[p]))
  {
    ChooseOnIndex(ixs, decls, unique, f);
    forall p | 0 <= p < |logical| && Keeps(env, f, logical[p])
      ensures var route := Choose(ixs, decls, unique, f);
              Yields(ixs, route, logical[p]) <==> !NullDropped(ixs, route, logical[p])
    {
      ChoiceYields(env, ixs, decls, unique, f, logical[p]);
    }
  }

  /** A comparison with a constant, answered by a B-tree, whatever the kinds: the route
      yields every kept row exactly when the index order accepts every kept row. */
  lemma CompareYieldsExactly(env: Env, op: CmpOp, c: nat, v: Value, ixs: seq<Index>, decls: seq<Decl>, unique: set<nat>,
                             logical: seq<Row>)
    requires Declared(env, ixs, decls) && forall p :: 0 <= p < |logical| ==> Wide(ixs, logical[p])
    ensures var f := Compare(op, Column(c), Const(v));
            var route := Choose(ixs, decls, unique, f);
            && OnIndex(ixs, route)
            && (LooksUp(ixs, route) ==>
                  (YieldsKept(env, f, ixs, route, logical) <==>
                   forall p :: 0 <= p < |logical| && Keeps(env, f, logical[p]) ==> op.Accepts(Cmp(logical[p][c], v))))
  {
    var f := Compare(op, Column(c), Const(v));
    ChooseOnIndex(ixs, decls, unique, f);
    forall p | 0 <= p < |logical| && Keeps(env, f, logical[p])
      ensures var route := Choose(ixs, decls, unique, f);
              LooksUp(ixs, route) ==> (Yields(ixs, route, logical[p]) <==> op.Accepts(Cmp(logical[p][c], v)))
    {
      CompareExactly(env, ixs, decls, unique, op, c, v, logical[p]);
    }
  }
}
