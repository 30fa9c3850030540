/** Tables that can be reached, and filters on which an index scan is not the full scan:
unlike kinds, an error not met, an empty range, and a NULL key in a partial hash index.
*/
module ScanCases {
  import opened Collections
  import opened Values
  import opened IndexStore
  import opened IndexLookup
  import opened TableState
  import opened Toast
  import opened Planner
  import opened Routes
  import opened IndexScan

  const Plainly := Decl(None, None)

  /** Create an index on an empty table and insert one row. */
  ghost function TwoSteps(spec: KeySpec, partial: Option<Row -> bool>, how: IndexMethod, row: Row): seq<Op> {
    [NewIndex(spec, partial, how), Push(row)]
  }

  lemma OneIndex(spec: KeySpec, partial: Option<Row -> bool>, how: IndexMethod)
    ensures var ops := [NewIndex(spec, partial, how)];
            && IsRun(ops) && LogicalRun(ops) == []
            && After(ops) == Empty.(indexes := [Index(spec, partial, EmptyStore(how))])
  {
    var ops := [NewIndex(spec, partial, how)];
    assert ops[..0] == [] && LogicalRun([]) == [];
    assert IsRun([]) && After([]) == Empty;
    assert Legal(Empty, ops[0]);
    assert Empty.indexes + [Index(spec, partial, EmptyStore(how))] == [Index(spec, partial, EmptyStore(how))];
  }

  lemma OneIndexed(idx: Index, row: Row)
    ensures IndexRow([idx], row, 0) == [IndexOne(idx, row, 0)]
  {
    assert [idx][0] == idx;
  }

  lemma TwoStepsRun(spec: KeySpec, partial: Option<Row -> bool>, how: IndexMethod, row: Row)
    requires PlainRow(row) && Room(row, EmptySide)
    ensures var ops := TwoSteps(spec, partial, how, row);
            && IsRun(ops) && Holds(After(ops), [row])
            && After(ops).indexes == [IndexOne(Index(spec, partial, EmptyStore(how)), row, 0)]
  {
    var ops := TwoSteps(spec, partial, how, row);
    assert ops[..1] == [NewIndex(spec, partial, how)];
    OneIndex(spec, partial, how);
    OneIndexed(Index(spec, partial, EmptyStore(how)), row);
    assert IsRun(ops);
    RunHolds(ops);
    assert [] + [row] == [row];
  }

  /** One B-tree, on the first column. */
  predicate OneTree(ixs: seq<Index>) {
    |ixs| == 1 && ixs[0].spec == Columns([0]) && ixs[0].partial.None? && ixs[0].store.Btree?
  }

  ghost predicate TreeTable(s: State, v: Value) {
    Holds(s, [[v]]) && OneTree(s.indexes)
  }

  lemma OneRow(v: Value)
    requires PlainRow([v]) && Room([v], EmptySide)
    ensures var ops := TwoSteps(Columns([0]), None, BtreeMethod, [v]);
            IsRun(ops) && TreeTable(After(ops), v)
  {
    TwoStepsRun(Columns([0]), None, BtreeMethod, [v]);
  }

  /** The plan answers a filter that is one comparison. */
  lemma PlanDecides(ixs: seq<Index>, f: Filter)
    requires OneTree(ixs) && !f.And? && !f.Contains?
    ensures Choose(ixs, [Plainly], {}, f) == PlanRoute(ixs, {}, f)
  {
    assert [f][1..] == [];
    assert GinRoute(ixs, [f]) == GinRoute(ixs, []);
    assert IndexRoute(ixs[0], Plainly, [f], 0) == FullScan;
    assert AdvancedRoute(ixs, [Plainly], [f], 1) == FullScan;
  }

  lemma TreeChosen(ixs: seq<Index>, ranges: bool)
    requires OneTree(ixs)
    ensures Chosen(ixs, {}, 0, ranges, |ixs|) == Some(0)
  {
    assert Chosen(ixs, {}, 0, ranges, 0).None?;
  }

  /** A row that the comparison keeps and the index order does not accept is missed. */
  lemma RowMissed(env: Env, ixs: seq<Index>, v: Value, op: CmpOp, w: Value)
    requires OneTree(ixs) && Keeps(env, Compare(op, Column(0), Const(w)), [v]) && !op.Accepts(Cmp(v, w))
    ensures Missed(env, ixs, Compare(op, Column(0), Const(w)), [v])
  {
    var f := Compare(op, Column(0), Const(w));
    PlanDecides(ixs, f);
    TreeChosen(ixs, false);
    TreeChosen(ixs, true);
    ChooseOnIndex(ixs, [Plainly], {}, f);
    CompareExactly(env, ixs, [Plainly], {}, op, 0, w, [v]);
  }

  /** The filter keeps the row, and the chosen route, which is exact, does not yield it. */
  ghost predicate Missed(env: Env, ixs: seq<Index>, f: Filter, row: Row) {
    && Keeps(env, f, row) && |ixs| == 1
    && OnIndex(ixs, Choose(ixs, [Plainly], {}, f))
    && Exact(ixs, Choose(ixs, [Plainly], {}, f))
    && !Yields(ixs, Choose(ixs, [Plainly], {}, f), row)
  }

  /** On the run that creates the index and inserts the row, the scan misses it. */
  ghost predicate RunMisses(env: Env, v: Value, f: Filter) {
    var ops := TwoSteps(Columns([0]), None, BtreeMethod, [v]);
    IsRun(ops) && TreeTable(After(ops), v) && Missed(env, After(ops).indexes, f, [v])
  }

  lemma RunMissesOne(env: Env, v: Value, op: CmpOp, w: Value)
    requires PointerId(v).None? && Keeps(env, Compare(op, Column(0), Const(w)), [v]) && !op.Accepts(Cmp(v, w))
    ensures RunMisses(env, v, Compare(op, Column(0), Const(w)))
  {
    OneRow(v);
    RowMissed(env, After(TwoSteps(Columns([0]), None, BtreeMethod, [v])).indexes, v, op, w);
  }

  /** A number column probed with a quoted number. */
  lemma QuotedNumberMisses(env: Env)
    requires env.number("5") == Some(5.0)
    ensures RunMisses(env, Int(5), Compare(Eq, Column(0), Const(Text("5"))))
  {
    RunMissesOne(env, Int(5), Eq, Text("5"));
  }

  lemma QuotedBoundMisses(env: Env)
    requires env.number("5") == Some(5.0)
    ensures RunMisses(env, Int(7), Compare(Gt, Column(0), Const(Text("5"))))
  {
    RunMissesOne(env, Int(7), Gt, Text("5"));
  }

  /** A text column probed with a number. */
  lemma NumberOnTextMisses(env: Env)
    requires env.number("5") == Some(5.0)
    ensures RunMisses(env, Text("5"), Compare(Eq, Column(0), Const(Int(5))))
  {
    RunMissesOne(env, Text("5"), Eq, Int(5));
  }

  /** The filter fails on the only row, and the route does not reach it. */
  ghost predicate HidesError(env: Env, s: State, v: Value, f: Filter, route: Route) {
    && TreeTable(s, v) && Judge(env, f, [v]).Failure?
    && OnIndex(s.indexes, route) && !ReachesEnough(env, f, s, [[v]], route)
  }

  ghost predicate RunHidesError(env: Env, v: Value, f: Filter, route: Route) {
    var ops := TwoSteps(Columns([0]), None, BtreeMethod, [v]);
    IsRun(ops) && HidesError(env, After(ops), v, f, route) && Choose(After(ops).indexes, [Plainly], {}, f) == route
  }

  /** A boolean compared with a number is an error, which a B-tree on the column skips. */
  lemma ErrorNotMet(env: Env, b: bool)
    ensures RunHidesError(env, Bool(b), Compare(Eq, Column(0), Const(Int(5))), ViaKey(0, [Int(5)]))
  {
    OneRow(Bool(b));
    TableHidesError(env, After(TwoSteps(Columns([0]), None, BtreeMethod, [Bool(b)])), Bool(b));
  }

  lemma TableHidesError(env: Env, s: State, v: Value)
    requires TreeTable(s, v) && v.Bool?
    ensures var f, route := Compare(Eq, Column(0), Const(Int(5))), ViaKey(0, [Int(5)]);
            HidesError(env, s, v, f, route) && Choose(s.indexes, [Plainly], {}, f) == route
  {
    KeyRoute(s.indexes, Int(5));
    KeyNotReached(s, v, Int(5));
    NotEnough(env, s, v, Compare(Eq, Column(0), Const(Int(5))), ViaKey(0, [Int(5)]));
  }

  lemma KeyRoute(ixs: seq<Index>, w: Value)
    requires OneTree(ixs)
    ensures Choose(ixs, [Plainly], {}, Compare(Eq, Column(0), Const(w))) == ViaKey(0, [w])
  {
    PlanDecides(ixs, Compare(Eq, Column(0), Const(w)));
    TreeChosen(ixs, false);
    TreeChosen(ixs, true);
  }

  lemma KeyNotReached(s: State, v: Value, w: Value)
    requires TreeTable(s, v) && v != w
    ensures OnIndex(s.indexes, ViaKey(0, [w])) && !Reached(s, [[v]], ViaKey(0, [w]), 0)
  {
    ReachedIsYielded(s, [[v]], ViaKey(0, [w]), 0);
    KeyOne(0, [v]);
    assert [v][0] != [w][0];
  }

  lemma NotEnough(env: Env, s: State, v: Value, f: Filter, route: Route)
    requires Holds(s, [[v]]) && OnIndex(s.indexes, route) && !Reached(s, [[v]], route, 0)
    requires Judge(env, f, [v]).Failure?
    ensures !ReachesEnough(env, f, s, [[v]], route)
  {
    assert FailsAt(env, f, [[v]], 0);
  }

  lemma ReversedPanics(ixs: seq<Index>)
    requires OneTree(ixs)
    ensures ChoicePanics(ixs, Between(Column(0), Const(Int(5)), Const(Int(1))))
  {
    var f := Between(Column(0), Const(Int(5)), Const(Int(1)));
    TreeChosen(ixs, true);
    PlanDecides(ixs, f);
    assert PlanRoute(ixs, {}, f) == ViaRange(0, Some(Bound(Int(5), true)), Some(Bound(Int(1), true)));
  }

  lemma NullPanics(ixs: seq<Index>)
    requires OneTree(ixs)
    ensures ChoicePanics(ixs, Compare(Gt, Column(0), Const(Null)))
  {
    var f := Compare(Gt, Column(0), Const(Null));
    TreeChosen(ixs, true);
    PlanDecides(ixs, f);
    assert PlanRoute(ixs, {}, f) == ViaRange(0, Some(Bound(Null, false)), None);
  }

  predicate ChoicePanics(ixs: seq<Index>, f: Filter)
    requires |ixs| == 1
  {
    OnIndex(ixs, Choose(ixs, [Plainly], {}, f)) && Panics(ixs, Choose(ixs, [Plainly], {}, f))
  }

  /** Answering the filter on a one-row table with a B-tree panics. */
  ghost predicate RunPanics(v: Value, f: Filter) {
    var ops := TwoSteps(Columns([0]), None, BtreeMethod, [v]);
    IsRun(ops) && TreeTable(After(ops), v) && ChoicePanics(After(ops).indexes, f)
  }

  /** `BETWEEN 5 AND 1` and `> NULL` keep no row, but walking the B-tree panics. */
  lemma EmptyRangesPanic(v: Value)
    requires PointerId(v).None?
    ensures RunPanics(v, Between(Column(0), Const(Int(5)), Const(Int(1))))
    ensures RunPanics(v, Compare(Gt, Column(0), Const(Null)))
  {
    OneRow(v);
    var ixs := After(TwoSteps(Columns([0]), None, BtreeMethod, [v])).indexes;
    ReversedPanics(ixs);
    NullPanics(ixs);
  }

  lemma WholeIndex(idx: Index, pred: Filter)
    requires idx.spec == Columns([0]) && pred == Compare(Eq, Column(1), Const(Bool(true)))
    ensures Choose([idx], [Decl(Some(pred), None)], {}, pred) == ViaAll(0)
  {
    assert [pred][1..] == [];
    CompareFacts(Eq, 1, Bool(true));
    assert GinRoute([idx], [pred]) == FullScan;
    assert 0 !in Facts([pred]);
    assert LeadingKey([0], Facts([pred])) == [];
    assert IndexRoute(idx, Decl(Some(pred), None), [pred], 0) == ViaAll(0);
  }

  const Flagged := Compare(Eq, Column(1), Const(Bool(true)))
  const Flag := [Null, Bool(true)]

  ghost function FlagTest(env: Env): Row -> bool {
    r => Keeps(env, Flagged, r)
  }

  /** The hash index is chosen, and does not yield the row it was created for. */
  ghost predicate FlagDropped(ixs: seq<Index>) {
    && |ixs| == 1 && Choose(ixs, [Decl(Some(Flagged), None)], {}, Flagged) == ViaAll(0)
    && !Yields(ixs, ViaAll(0), Flag)
  }

  lemma FlagIndex(env: Env)
    ensures var idx := Index(Columns([0]), Some(FlagTest(env)), EmptyStore(HashMethod));
            FlagDropped([IndexOne(idx, Flag, 0)])
  {
    var idx := IndexOne(Index(Columns([0]), Some(FlagTest(env)), EmptyStore(HashMethod)), Flag, 0);
    WholeIndex(idx, Flagged);
    KeyOne(0, Flag);
    assert HasNull([Null]) by { assert [Null][0] == Null; }
  }

  /** A partial hash index answers its own predicate without the rows whose key is NULL. */
  lemma NullKeyDropped(env: Env)
    ensures var ops := TwoSteps(Columns([0]), Some(FlagTest(env)), HashMethod, Flag);
            && IsRun(ops) && Holds(After(ops), [Flag]) && Keeps(env, Flagged, Flag) && Plain(env, Flagged, Flag)
            && FlagDropped(After(ops).indexes)
  {
    assert PlainRow(Flag);
    TwoStepsRun(Columns([0]), Some(FlagTest(env)), HashMethod, Flag);
    FlagIndex(env);
  }
}
