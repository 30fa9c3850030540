/** Which index answers a filter, and which rows it yields.

The executor tries a GIN index for containment, then partial, expression and
multi-column indexes in turn, then a single-column plan. A route yields a row when
the row's entry in the chosen index is among those looked up.
*/
module Routes {
  import opened Collections
  import opened Values
  import opened ArrayText
  import opened IndexStore
  import opened IndexLookup
  import opened TableState
  import opened Planner

  /** How an index was declared: its predicate and its expression as written. */
  datatype Decl = Decl(pred: Option<Filter>, expr: Option<Operand>)

  /** The stored tests and key functions of the indexes are those declared. */
  ghost predicate Declared(env: Env, ixs: seq<Index>, decls: seq<Decl>) {
    |decls| == |ixs| && forall i :: 0 <= i < |ixs| ==> DeclaredAs(env, ixs[i], decls[i])
  }

  ghost predicate DeclaredAs(env: Env, idx: Index, decl: Decl) {
    && (idx.partial.Some? <==> decl.pred.Some?)
    && (idx.spec.Expression? <==> decl.expr.Some?)
    && (decl.pred.Some? ==> forall row :: idx.partial.value(row) == Keeps(env, decl.pred.value, row))
    && (decl.expr.Some? ==> forall row :: idx.spec.eval(row) == Eval(env, decl.expr.value, row))
  }

  datatype Route =
    | FullScan
    | ViaNeedles(i: nat, needles: seq<string>)
    | ViaKey(i: nat, key: Key)
    | ViaKeys(i: nat, vals: seq<Value>)
    | ViaPrefix(i: nat, key: Key)
    | ViaRange(i: nat, lo: Option<Bound>, hi: Option<Bound>)
    | ViaAll(i: nat)

  // --- Choosing ----------------------------------------------------------------------

  /** A plain single-column index; for ranges an ordered store or BRIN. */
  predicate Suits(idx: Index, col: nat, ranges: bool) {
    idx.spec == Columns([col]) && idx.partial.None? && (ranges ==> idx.store.Btree? || idx.store.Brin?)
  }

  /** `index_on` and `eq_index_on` after the first `n` indexes: the last suitable one,
      or the first unique one. */
  function Chosen(ixs: seq<Index>, unique: set<nat>, col: nat, ranges: bool, n: nat): (r: Option<nat>)
    requires n <= |ixs|
    ensures r.Some? ==> r.value < n && Suits(ixs[r.value], col, ranges)
    ensures r.None? ==> forall i :: 0 <= i < n ==> !Suits(ixs[i], col, ranges)
  {
    if n == 0 then None
    else
      var before := Chosen(ixs, unique, col, ranges, n - 1);
      if Suits(ixs[n - 1], col, ranges) && !(before.Some? && before.value in unique) then Some(n - 1) else before
  }

  /** `gin_index_on`: the first one, from `i` on. */
  function GinIndex(ixs: seq<Index>, col: nat, i: nat): (r: Option<nat>)
    requires i <= |ixs|
    ensures r.Some? ==> r.value < |ixs| && Suits(ixs[r.value], col, false) && ixs[r.value].store.Gin?
    decreases |ixs| - i
  {
    if i == |ixs| then None
    else if Suits(ixs[i], col, false) && ixs[i].store.Gin? then Some(i)
    else GinIndex(ixs, col, i + 1)
  }

  /** The elements probed by `col @> constant`. */
  function Needles(c: Filter): Option<seq<string>> {
    if c.Contains? && c.l.Column? && c.r.Const? && ToText(c.r.value).Some? then
      var elems := ParseArrayText(ToText(c.r.value).value);
      if elems.Some? then Some(Flatten(elems.value)) else None
    else None
  }

  /** `gin_index_positions`: the first conjunct a GIN index can answer. */
  function GinRoute(ixs: seq<Index>, cs: seq<Filter>): Route {
    if cs == [] then FullScan
    else
      var needles := Needles(cs[0]);
      var i := if needles.Some? then GinIndex(ixs, cs[0].l.col, 0) else None;
      if i.Some? then ViaNeedles(i.value, needles.value) else GinRoute(ixs, cs[1..])
  }

  /** The constant an expression is equated with, in the first conjunct that does. */
  function ExprKey(cs: seq<Filter>, expr: Operand): Option<Value> {
    if cs == [] then None
    else
      var here := EquatedWith(cs[0], expr);
      if here.Some? then here else ExprKey(cs[1..], expr)
  }

  function EquatedWith(c: Filter, expr: Operand): Option<Value> {
    if c.Compare? && c.op.Eq? then
      if c.l == expr then if c.r.Const? then Some(c.r.value) else None
      else if c.r == expr && c.l.Const? then Some(c.l.value)
      else None
    else None
  }

  /** The longest run of leading columns with an equality fact, from `k` on. */
  function LeadingKey(cols: seq<nat>, facts: map<nat, Value>): (key: Key)
    ensures |key| <= |cols| && forall k :: 0 <= k < |key| ==> cols[k] in facts && key[k] == facts[cols[k]]
    ensures |key| < |cols| ==> cols[|key|] !in facts
  {
    if cols == [] || cols[0] !in facts then [] else [facts[cols[0]]] + LeadingKey(cols[1..], facts)
  }

  /** One turn of the loop in `advanced_index_positions`. */
  function IndexRoute(idx: Index, decl: Decl, cs: seq<Filter>, i: nat): Route {
    if decl.pred.Some? && decl.pred.value !in cs then FullScan
    else if decl.expr.Some? then
      var v := ExprKey(cs, decl.expr.value);
      if v.Some? then ViaKey(i, [v.value]) else FullScan
    else if idx.spec.Expression? then FullScan
    else
      var cols, key := idx.spec.cols, LeadingKey(idx.spec.cols, Facts(cs));
      if |cols| == 1 then
        if decl.pred.None? then FullScan else if key != [] then ViaKey(i, key) else ViaAll(i)
      else if key == [] then FullScan
      else if |key| == |cols| then ViaKey(i, key)
      else if idx.store.Btree? then ViaPrefix(i, key)
      else FullScan
  }

  function AdvancedRoute(ixs: seq<Index>, decls: seq<Decl>, cs: seq<Filter>, i: nat): Route
    requires |decls| == |ixs| && i <= |ixs|
    decreases |ixs| - i
  {
    if i == |ixs| then FullScan
    else
      var here := IndexRoute(ixs[i], decls[i], cs, i);
      if here.FullScan? then AdvancedRoute(ixs, decls, cs, i + 1) else here
  }

  /** The single-column plan; an index for ranges must exist even for an equality. */
  function PlanRoute(ixs: seq<Index>, unique: set<nat>, f: Filter): Route {
    var access := PlanAccess(f);
    if access.None? then FullScan
    else
      var forEq := Chosen(ixs, unique, access.value.col, false, |ixs|);
      var forRange := Chosen(ixs, unique, access.value.col, true, |ixs|);
      if forRange.None? then FullScan
      else
        match access.value.plan
        case EqPlan(v) => if forEq.Some? then ViaKey(forEq.value, [v]) else FullScan
        case InPlan(vals) => if forEq.Some? then ViaKeys(forEq.value, vals) else FullScan
        case RangePlan(lo, hi) => ViaRange(forRange.value, lo, hi)
  }

  /** `index_candidate_positions`: how the filter is answered. */
  function Choose(ixs: seq<Index>, decls: seq<Decl>, unique: set<nat>, f: Filter): Route
    requires |decls| == |ixs|
  {
    var cs := Conjuncts(f);
    var gin := GinRoute(ixs, cs);
    if !gin.FullScan? then gin
    else
      var advanced := AdvancedRoute(ixs, decls, cs, 0);
      if !advanced.FullScan? then advanced else PlanRoute(ixs, unique, f)
  }

  // --- Yielding -----------------------------------------------------------------------

  /** The looked-up key finds the entry. A BRIN index may find more. */
  ghost predicate KeyFinds(st: Store, key: Key, entry: Key) {
    match st
    case Btree(_) => entry == key
    case Hash(_) => !HasNull(key) && !HasNull(entry) && HashKey(entry) == HashKey(key)
    case Brin(_) => entry == key && key != [] && !HasNull(key)
    case Gin(_, _) => true
  }

  ghost predicate Finds(st: Store, route: Route, entry: Key) {
    match route
    case FullScan => true
    case ViaNeedles(_, needles) => st.Gin? && forall n :: n in needles ==> n in GinTokensOf(Head(entry))
    case ViaKey(_, key) => KeyFinds(st, key, entry)
    case ViaKeys(_, vals) => exists v :: v in vals && KeyFinds(st, [v], entry)
    case ViaPrefix(_, key) => st.Btree? && key <= entry
    case ViaRange(_, lo, hi) => (st.Btree? || st.Brin?) && entry != [] && InRange(entry[0], lo, hi)
    case ViaAll(_) => st.Hash? ==> !HasNull(entry)
  }

  predicate OnIndex(ixs: seq<Index>, route: Route) {
    route.FullScan? || route.i < |ixs|
  }

  /** The route yields the row. */
  ghost predicate Yields(ixs: seq<Index>, route: Route, row: Row)
    requires OnIndex(ixs, route)
  {
    route.FullScan? ||
    (EntryFor(ixs[route.i], row).Some? && Finds(ixs[route.i].store, route, EntryFor(ixs[route.i], row).value))
  }

  /** It yields nothing else. */
  predicate Exact(ixs: seq<Index>, route: Route)
    requires OnIndex(ixs, route)
  {
    route.FullScan? || route.ViaAll? || !ixs[route.i].store.Brin?
  }

  /** It walks a B-tree range that the standard library refuses. */
  predicate Panics(ixs: seq<Index>, route: Route)
    requires OnIndex(ixs, route)
  {
    route.ViaRange? && ixs[route.i].store.Btree? && RangePanics(route.lo, route.hi)
  }

  // --- The route is on an index ---------------------------------------------------------

  lemma {:induction false} GinOnIndex(ixs: seq<Index>, cs: seq<Filter>)
    ensures OnIndex(ixs, GinRoute(ixs, cs))
  {
    if cs != [] {
      GinOnIndex(ixs, cs[1..]);
    }
  }

  lemma {:induction false} AdvancedOnIndex(ixs: seq<Index>, decls: seq<Decl>, cs: seq<Filter>, i: nat)
    requires |decls| == |ixs| && i <= |ixs|
    ensures OnIndex(ixs, AdvancedRoute(ixs, decls, cs, i))
    decreases |ixs| - i
  {
    if i < |ixs| {
      AdvancedOnIndex(ixs, decls, cs, i + 1);
    }
  }

  lemma ChooseOnIndex(ixs: seq<Index>, decls: seq<Decl>, unique: set<nat>, f: Filter)
    requires |decls| == |ixs|
    ensures OnIndex(ixs, Choose(ixs, decls, unique, f))
  {
    GinOnIndex(ixs, Conjuncts(f));
    AdvancedOnIndex(ixs, decls, Conjuncts(f), 0);
  }

  // --- What a kept row yields ------------------------------------------------------------

  /** Column indexes name only cells the row has. */
  ghost predicate Wide(ixs: seq<Index>, row: Row) {
    forall i :: 0 <= i < |ixs| && ixs[i].spec.Columns? ==> WideFor(ixs[i].spec.cols, row)
  }

  ghost predicate WideFor(cols: seq<nat>, row: Row) {
    forall k :: 0 <= k < |cols| ==> cols[k] < |row|
  }

  lemma KeyCells(cols: seq<nat>, row: Row)
    requires WideFor(cols, row)
    ensures KeyOf(Columns(cols), row).Some? && |KeyOf(Columns(cols), row).value| == |cols|
    ensures forall k :: 0 <= k < |cols| ==> KeyOf(Columns(cols), row).value[k] == row[cols[k]]
  {
  }

  /** The one exception: a whole partial hash index holds no row with a NULL key. */
  ghost predicate NullDropped(ixs: seq<Index>, route: Route, row: Row)
    requires OnIndex(ixs, route)
  {
    && route.ViaAll? && ixs[route.i].store.Hash?
    && EntryFor(ixs[route.i], row).Some? && HasNull(EntryFor(ixs[route.i], row).value)
  }

  ghost predicate YieldsButNull(ixs: seq<Index>, route: Route, row: Row) {
    OnIndex(ixs, route) && (Yields(ixs, route, row) <==> !NullDropped(ixs, route, row))
  }

  lemma {:induction false} GinYields(env: Env, ixs: seq<Index>, f: Filter, cs: seq<Filter>, row: Row)
    requires Keeps(env, f, row) && Plain(env, f, row) && Wide(ixs, row)
    requires forall c :: c in cs ==> c in Conjuncts(f)
    ensures OnIndex(ixs, GinRoute(ixs, cs)) && Yields(ixs, GinRoute(ixs, cs), row)
  {
    if cs != [] {
      GinYields(env, ixs, f, cs[1..], row);
      var c, needles := cs[0], Needles(cs[0]);
      if needles.Some? && GinIndex(ixs, c.l.col, 0).Some? {
        var i := GinIndex(ixs, c.l.col, 0).value;
        assert c in cs;
        KeptIsFiled(env, f, row, c);
        KeyCells([c.l.col], row);
        assert ixs[i].spec.cols[0] == c.l.col;
      }
    }
  }

  /** A row that contains the probed array is filed under each of its elements. */
  lemma KeptIsFiled(env: Env, f: Filter, row: Row, c: Filter)
    requires Keeps(env, f, row) && Plain(env, f, row) && c in Conjuncts(f) && Needles(c).Some?
    ensures c.l.col < |row| && forall n :: n in Needles(c).value ==> n in GinTokensOf(row[c.l.col])
  {
    ConjunctKept(env, f, row, c);
    ContainedIsFiled(ToText(row[c.l.col]).value, ToText(c.r.value).value);
  }

  lemma {:induction false} ExprKeyHolds(env: Env, f: Filter, cs: seq<Filter>, row: Row, expr: Operand)
    requires Keeps(env, f, row) && Plain(env, f, row) && forall c :: c in cs ==> c in Conjuncts(f)
    requires ExprKey(cs, expr).Some?
    ensures var v := ExprKey(cs, expr).value; Eval(env, expr, row) == Some(v) && !v.Null?
  {
    var c := cs[0];
    if EquatedWith(c, expr).Some? {
      assert c in cs;
      ConjunctKept(env, f, row, c);
      var a, b := Eval(env, c.l, row).value, Eval(env, c.r, row).value;
      LikeCompares(env, Eq, a, b);
      CmpEqual(a, b);
    } else {
      ExprKeyHolds(env, f, cs[1..], row, expr);
    }
  }

  /** A kept row has the leading key in its leading columns. */
  lemma LeadingHolds(env: Env, f: Filter, row: Row, cols: seq<nat>)
    requires Keeps(env, f, row) && Plain(env, f, row) && WideFor(cols, row)
    ensures var key := LeadingKey(cols, Facts(Conjuncts(f)));
            key <= KeyOf(Columns(cols), row).value && !HasNull(key)
  {
    var key := LeadingKey(cols, Facts(Conjuncts(f)));
    KeyCells(cols, row);
    forall k | 0 <= k < |key|
      ensures key[k] == row[cols[k]] && !key[k].Null?
    {
      FactHolds(env, f, row, cols[k]);
    }
  }

  /** A leading key finds the entry it leads. */
  lemma LeadingFinds(st: Store, key: Key, entry: Key)
    requires key <= entry && key != [] && !HasNull(key)
    ensures |key| == |entry| ==> KeyFinds(st, key, entry)
  {
    if |key| == |entry| {
      assert key == entry;
    }
  }

  lemma ColumnsYield(env: Env, ixs: seq<Index>, decl: Decl, f: Filter, i: nat, row: Row)
    requires Keeps(env, f, row) && Plain(env, f, row) && i < |ixs|
    requires ixs[i].spec.Columns? && decl.expr.None? && WideFor(ixs[i].spec.cols, row)
    requires EntryFor(ixs[i], row) == KeyOf(ixs[i].spec, row)
    ensures var route := IndexRoute(ixs[i], decl, Conjuncts(f), i);
            Yields(ixs, route, row) <==> !NullDropped(ixs, route, row)
  {
    var cols := ixs[i].spec.cols;
    LeadingHolds(env, f, row, cols);
    KeyCells(cols, row);
    var key, entry := LeadingKey(cols, Facts(Conjuncts(f))), EntryFor(ixs[i], row).value;
    if key != [] {
      LeadingFinds(ixs[i].store, key, entry);
    }
  }

  /** Turn by turn: a kept row is in the index and its entry is found. */
  lemma IndexYields(env: Env, ixs: seq<Index>, decl: Decl, f: Filter, i: nat, row: Row)
    requires Keeps(env, f, row) && Plain(env, f, row) && Wide(ixs, row)
    requires i < |ixs| && DeclaredAs(env, ixs[i], decl)
    ensures YieldsButNull(ixs, IndexRoute(ixs[i], decl, Conjuncts(f), i), row)
  {
    var idx, cs := ixs[i], Conjuncts(f);
    var route := IndexRoute(idx, decl, cs, i);
    if !route.FullScan? {
      if decl.pred.Some? {
        ConjunctKept(env, f, row, decl.pred.value);
      }
      assert EntryFor(idx, row) == KeyOf(idx.spec, row);
      if decl.expr.Some? {
        ExprKeyHolds(env, f, cs, row, decl.expr.value);
      } else {
        ColumnsYield(env, ixs, decl, f, i, row);
      }
    }
  }

  lemma {:induction false} AdvancedYields(env: Env, ixs: seq<Index>, decls: seq<Decl>, f: Filter, i: nat, row: Row)
    requires Keeps(env, f, row) && Plain(env, f, row) && Wide(ixs, row)
    requires Declared(env, ixs, decls) && i <= |ixs|
    ensures YieldsButNull(ixs, AdvancedRoute(ixs, decls, Conjuncts(f), i), row)
    decreases |ixs| - i
  {
    if i < |ixs| {
      IndexYields(env, ixs, decls[i], f, i, row);
      AdvancedYields(env, ixs, decls, f, i + 1, row);
    }
  }

  lemma PlanYields(env: Env, ixs: seq<Index>, unique: set<nat>, f: Filter, row: Row)
    requires Keeps(env, f, row) && Plain(env, f, row) && Wide(ixs, row)
    ensures var route := PlanRoute(ixs, unique, f); OnIndex(ixs, route) && Yields(ixs, route, row)
  {
    var route := PlanRoute(ixs, unique, f);
    if !route.FullScan? {
      var a := PlanAccess(f).value;
      PlanCovers(env, f, row);
      KeyCells([a.col], row);
      assert ixs[route.i].spec == Columns([a.col]) && [a.col][0] == a.col;
      var entry := EntryFor(ixs[route.i], row).value;
      assert entry == [row[a.col]];
      assert !HasNull([row[a.col]]);
    }
  }

  /** A kept row on which the filter compares like with like is yielded, but for the one
      exception. */
  lemma ChoiceYields(env: Env, ixs: seq<Index>, decls: seq<Decl>, unique: set<nat>, f: Filter, row: Row)
    requires Keeps(env, f, row) && Plain(env, f, row) && Wide(ixs, row) && Declared(env, ixs, decls)
    ensures var route := Choose(ixs, decls, unique, f);
            OnIndex(ixs, route) && (Yields(ixs, route, row) <==> !NullDropped(ixs, route, row))
  {
    GinYields(env, ixs, f, Conjuncts(f), row);
    AdvancedYields(env, ixs, decls, f, 0, row);
    PlanYields(env, ixs, unique, f, row);
  }

  /** A filter with a plan is answered by an index whenever there is a plain ordered or BRIN
      index on the plan's column, and a containment whenever there is a GIN index on its
      column. */
  lemma IndexIsUsed(ixs: seq<Index>, decls: seq<Decl>, unique: set<nat>, f: Filter, i: nat)
    requires |decls| == |ixs| && i < |ixs|
    ensures PlanAccess(f).Some? && Suits(ixs[i], PlanAccess(f).value.col, true) ==>
              !Choose(ixs, decls, unique, f).FullScan?
    ensures forall c :: c in Conjuncts(f) && Needles(c).Some? && Suits(ixs[i], c.l.col, false) && ixs[i].store.Gin? ==>
              Choose(ixs, decls, unique, f).ViaNeedles?
  {
    forall c | c in Conjuncts(f) && Needles(c).Some? && Suits(ixs[i], c.l.col, false) && ixs[i].store.Gin?
      ensures GinRoute(ixs, Conjuncts(f)).ViaNeedles?
    {
      GinIsUsed(ixs, Conjuncts(f), c, i);
    }
  }

  lemma {:induction false} UniqueChosen(ixs: seq<Index>, unique: set<nat>, col: nat, ranges: bool, n: nat, i: nat)
    requires i < n <= |ixs| && i in unique && Suits(ixs[i], col, ranges)
    ensures Chosen(ixs, unique, col, ranges, n).Some? && Chosen(ixs, unique, col, ranges, n).value in unique
    decreases n
  {
    if i < n - 1 {
      UniqueChosen(ixs, unique, col, ranges, n - 1, i);
    }
  }

  /** A single-column plan prefers a unique index: for an equality or IN one of any store, hash
      included, for a range one that is ordered. */
  lemma UniqueIsPreferred(ixs: seq<Index>, unique: set<nat>, f: Filter, i: nat)
    requires PlanAccess(f).Some? && i < |ixs| && i in unique && Suits(ixs[i], PlanAccess(f).value.col, false)
    ensures var route := PlanRoute(ixs, unique, f);
            var a := PlanAccess(f).value;
            !route.FullScan? && (a.plan.RangePlan? ==> Suits(ixs[i], a.col, true)) ==> route.i in unique
  {
    var a := PlanAccess(f).value;
    UniqueChosen(ixs, unique, a.col, false, |ixs|, i);
    if Suits(ixs[i], a.col, true) {
      UniqueChosen(ixs, unique, a.col, true, |ixs|, i);
    }
  }

  /** So is a partial index whose predicate is a conjunct, an expression index whose expression
      a conjunct equates with a constant, and a multi-column B-tree whose first column a
      conjunct equates with one. */
  lemma AdvancedIsUsed(ixs: seq<Index>, decls: seq<Decl>, unique: set<nat>, f: Filter, i: nat, c: nat, v: Value)
    requires |decls| == |ixs| && i < |ixs|
    requires var spec, decl, cs := ixs[i].spec, decls[i], Conjuncts(f);
             || (decl.pred.Some? && decl.pred.value in cs && decl.expr.None? && spec == Columns([c]))
             || (decl.pred.None? && decl.expr.Some? && Compare(Eq, decl.expr.value, Const(v)) in cs)
             || (&& decl.pred.None? && decl.expr.None? && ixs[i].store.Btree? && spec.Columns? && |spec.cols| > 1
                 && Compare(Eq, Column(spec.cols[0]), Const(v)) in cs)
    ensures !Choose(ixs, decls, unique, f).FullScan?
  {
    var spec, decl, cs := ixs[i].spec, decls[i], Conjuncts(f);
    if decl.expr.Some? {
      ExprKeyFound(cs, decl.expr.value, v);
    } else if decl.pred.None? {
      var k :| 0 <= k < |cs| && cs[k] == Compare(Eq, Column(spec.cols[0]), Const(v));
      assert EqualityOn(cs[k], spec.cols[0]);
      FactsExactly(cs, spec.cols[0]);
      if spec.cols[0] !in Facts(cs) {
        NoneBefore(cs, spec.cols[0]);
      }
    }
    assert !IndexRoute(ixs[i], decl, cs, i).FullScan?;
    AdvancedFound(ixs, decls, cs, 0, i);
  }

  lemma {:induction false} ExprKeyFound(cs: seq<Filter>, expr: Operand, v: Value)
    requires Compare(Eq, expr, Const(v)) in cs
    ensures ExprKey(cs, expr).Some?
  {
    if cs[0] != Compare(Eq, expr, Const(v)) {
      assert Compare(Eq, expr, Const(v)) in cs[1..];
      ExprKeyFound(cs[1..], expr, v);
    }
  }

  lemma {:induction false} AdvancedFound(ixs: seq<Index>, decls: seq<Decl>, cs: seq<Filter>, from: nat, i: nat)
    requires |decls| == |ixs| && from <= i < |ixs| && !IndexRoute(ixs[i], decls[i], cs, i).FullScan?
    ensures !AdvancedRoute(ixs, decls, cs, from).FullScan?
    decreases i - from
  {
    if from < i {
      AdvancedFound(ixs, decls, cs, from + 1, i);
    }
  }

  lemma {:induction false} GinIsUsed(ixs: seq<Index>, cs: seq<Filter>, c: Filter, i: nat)
    requires c in cs && Needles(c).Some? && i < |ixs| && Suits(ixs[i], c.l.col, false) && ixs[i].store.Gin?
    ensures GinRoute(ixs, cs).ViaNeedles?
  {
    if c == cs[0] {
      GinIndexFound(ixs, c.l.col, 0, i);
    } else {
      assert c in cs[1..];
      GinIsUsed(ixs, cs[1..], c, i);
    }
  }

  lemma {:induction false} GinIndexFound(ixs: seq<Index>, col: nat, from: nat, i: nat)
    requires from <= i < |ixs| && Suits(ixs[i], col, false) && ixs[i].store.Gin?
    ensures GinIndex(ixs, col, from).Some?
    decreases i - from
  {
    if from < i {
      GinIndexFound(ixs, col, from + 1, i);
    }
  }

  // --- Comparisons answered by a B-tree ----------------------------------------------------

  /** A lookup in a B-tree, as opposed to taking the whole index. */
  predicate LooksUp(ixs: seq<Index>, route: Route)
    requires OnIndex(ixs, route)
  {
    !route.FullScan? && !route.ViaAll? && ixs[route.i].store.Btree?
  }

  /** The plan of a comparison looks up the values the index order accepts. */
  lemma MeetsExactly(op: CmpOp, v: Value, w: Value)
    requires !v.Null?
    ensures Meets(RangeFromOp(op, w), v) <==> op.Accepts(Cmp(v, w))
  {
    CmpEqual(v, w);
    CmpEqual(w, v);
  }

  lemma CompareFacts(op: CmpOp, c: nat, v: Value)
    ensures Facts([Compare(op, Column(c), Const(v))]) == if op.Eq? then map[c := v] else map[]
  {
    var cs := [Compare(op, Column(c), Const(v))];
    assert cs[..0] == [];
  }

  lemma {:induction false} LeadingSame(cols: seq<nat>, c: nat, v: Value)
    ensures var key := LeadingKey(cols, map[c := v]); forall k :: 0 <= k < |key| ==> cols[k] == c && key[k] == v
  {
  }

  /** Every column of the key is the compared one. */
  lemma SameKeyLeads(cols: seq<nat>, c: nat, v: Value, row: Row)
    requires WideFor(cols, row) && c < |row| && LeadingKey(cols, map[c := v]) != []
    ensures LeadingKey(cols, map[c := v]) <= KeyOf(Columns(cols), row).value <==> row[c] == v
  {
    var key, entry := LeadingKey(cols, map[c := v]), KeyOf(Columns(cols), row).value;
    LeadingSame(cols, c, v);
    KeyCells(cols, row);
    assert forall k :: 0 <= k < |key| ==> entry[k] == row[c];
    if row[c] == v {
      assert key == entry[..|key|];
    } else {
      assert key[0] == v && entry[0] == row[c];
    }
  }

  lemma CompareIndexExactly(env: Env, ixs: seq<Index>, decl: Decl, op: CmpOp, c: nat, v: Value, i: nat, row: Row)
    requires Keeps(env, Compare(op, Column(c), Const(v)), row) && Wide(ixs, row)
    requires i < |ixs| && DeclaredAs(env, ixs[i], decl)
    ensures var route := IndexRoute(ixs[i], decl, [Compare(op, Column(c), Const(v))], i);
            LooksUp(ixs, route) ==> (Yields(ixs, route, row) <==> op.Accepts(Cmp(row[c], v)))
  {
    var f := Compare(op, Column(c), Const(v));
    var route := IndexRoute(ixs[i], decl, [f], i);
    CompareFacts(op, c, v);
    CmpEqual(row[c], v);
    if LooksUp(ixs, route) {
      assert decl.pred.Some? ==> decl.pred.value == f;
      assert EntryFor(ixs[i], row) == KeyOf(ixs[i].spec, row);
      if decl.expr.Some? {
        assert [f][1..] == [];
        assert ExprKey([f], decl.expr.value) == EquatedWith(f, decl.expr.value);
        assert decl.expr.value == Column(c);
      } else {
        SameKeyLeads(ixs[i].spec.cols, c, v, row);
        KeyCells(ixs[i].spec.cols, row);
      }
    }
  }

  lemma {:induction false} CompareAdvancedExactly(env: Env, ixs: seq<Index>, decls: seq<Decl>, op: CmpOp, c: nat,
                                                  v: Value, i: nat, row: Row)
    requires Keeps(env, Compare(op, Column(c), Const(v)), row) && Wide(ixs, row)
    requires Declared(env, ixs, decls) && i <= |ixs|
    ensures var route := AdvancedRoute(ixs, decls, [Compare(op, Column(c), Const(v))], i);
            OnIndex(ixs, route)
            && (LooksUp(ixs, route) ==> (Yields(ixs, route, row) <==> op.Accepts(Cmp(row[c], v))))
    decreases |ixs| - i
  {
    if i < |ixs| {
      CompareIndexExactly(env, ixs, decls[i], op, c, v, i, row);
      CompareAdvancedExactly(env, ixs, decls, op, c, v, i + 1, row);
    }
  }

  lemma ComparePlanExactly(env: Env, ixs: seq<Index>, unique: set<nat>, op: CmpOp, c: nat, v: Value, row: Row)
    requires Keeps(env, Compare(op, Column(c), Const(v)), row) && Wide(ixs, row)
    ensures var route := PlanRoute(ixs, unique, Compare(op, Column(c), Const(v)));
            OnIndex(ixs, route)
            && (LooksUp(ixs, route) ==> (Yields(ixs, route, row) <==> op.Accepts(Cmp(row[c], v))))
  {
    var route := PlanRoute(ixs, unique, Compare(op, Column(c), Const(v)));
    if LooksUp(ixs, route) {
      KeyCells([c], row);
      assert ixs[route.i].spec == Columns([c]) && [c][0] == c;
      assert EntryFor(ixs[route.i], row).value == [row[c]];
      MeetsExactly(op, row[c], v);
      CmpEqual(row[c], v);
    }
  }

  /** A row that a comparison with a constant keeps is yielded by a B-tree exactly when
      the index order accepts it too. */
  lemma CompareExactly(env: Env, ixs: seq<Index>, decls: seq<Decl>, unique: set<nat>, op: CmpOp, c: nat, v: Value,
                       row: Row)
    requires Keeps(env, Compare(op, Column(c), Const(v)), row) && Wide(ixs, row) && Declared(env, ixs, decls)
    ensures var route := Choose(ixs, decls, unique, Compare(op, Column(c), Const(v)));
            OnIndex(ixs, route)
            && (LooksUp(ixs, route) ==> (Yields(ixs, route, row) <==> op.Accepts(Cmp(row[c], v))))
  {
    var f := Compare(op, Column(c), Const(v));
    assert [f][1..] == [];
    assert GinRoute(ixs, [f]) == FullScan;
    CompareAdvancedExactly(env, ixs, decls, op, c, v, 0, row);
    ComparePlanExactly(env, ixs, unique, op, c, v, row);
  }

  /** Of unlike kinds the index order knows only the rank. */
  lemma UnlikeByRank(v: Value, w: Value)
    requires !v.Null? && !w.Null? && !SameKind(v, w)
    ensures Cmp(v, w) == CmpInt(TypeRank(v), TypeRank(w)) != Equal
  {
  }

  /** So of unlike kinds the rank alone decides whether the row is yielded. */
  lemma UnlikeExactly(env: Env, ixs: seq<Index>, decls: seq<Decl>, unique: set<nat>, op: CmpOp, c: nat, v: Value,
                      row: Row)
    requires Keeps(env, Compare(op, Column(c), Const(v)), row) && Wide(ixs, row) && Declared(env, ixs, decls)
    requires !SameKind(row[c], v)
    ensures var route := Choose(ixs, decls, unique, Compare(op, Column(c), Const(v)));
            OnIndex(ixs, route)
            && (LooksUp(ixs, route) ==>
                  (Yields(ixs, route, row) <==> op.Accepts(CmpInt(TypeRank(row[c]), TypeRank(v)))))
  {
    CompareExactly(env, ixs, decls, unique, op, c, v, row);
    UnlikeByRank(row[c], v);
  }

  // --- Other plans, whatever the kinds ---------------------------------------------------------

  /** A row the filter keeps has a value in the column of its plan. */
  lemma {:induction false} PlanNotNull(env: Env, f: Filter, row: Row)
    requires Keeps(env, f, row) && PlanAccess(f).Some?
    ensures var a := PlanAccess(f).value; a.col < |row| && !row[a.col].Null?
  {
    match f
    case And(left, right) =>
      if PlanAccess(left).Some? {
        PlanNotNull(env, left, row);
      } else {
        PlanNotNull(env, right, row);
      }
    case InList(Column(c), list) => InNotNull(env, row[c], list, row);
    case _ =>
  }

  lemma {:induction false} InNotNull(env: Env, v: Value, list: seq<Operand>, row: Row)
    requires InTrue(env, v, list, row)
    ensures !v.Null?
  {
    if v.Null? {
      InNotNull(env, v, list[1..], row);
    }
  }

  /** One value under a key of one: equal values, in a B-tree and in a hash store. */
  lemma OneFinds(st: Store, v: Value, w: Value)
    requires !v.Null? && (st.Btree? || st.Hash?)
    ensures KeyFinds(st, [w], [v]) <==> v == w
  {
    assert HasNull([w]) <==> w.Null? by { assert [w][0] == w; }
    assert !HasNull([v]);
    if st.Hash? && !w.Null? && HashKey([v]) == HashKey([w]) {
      HashKeyInjective(v, w);
    }
    assert [v] == [w] <==> v == w by { assert [v][0] == v && [w][0] == w; }
  }

  /** Comparisons, IN and BETWEEN alone or in a conjunction: the single-column plan yields a
      kept row exactly when its value is one of those looked up, through a B-tree or a hash
      store. */
  lemma PlanExactly(env: Env, ixs: seq<Index>, unique: set<nat>, f: Filter, row: Row)
    requires Keeps(env, f, row) && Wide(ixs, row) && PlanAccess(f).Some?
    ensures var route, a := PlanRoute(ixs, unique, f), PlanAccess(f).value;
            && OnIndex(ixs, route) && a.col < |row|
            && (!route.FullScan? && (ixs[route.i].store.Btree? || ixs[route.i].store.Hash?) ==>
                  (Yields(ixs, route, row) <==> Meets(a.plan, row[a.col])))
  {
    var route, a := PlanRoute(ixs, unique, f), PlanAccess(f).value;
    PlanNotNull(env, f, row);
    if !route.FullScan? && (ixs[route.i].store.Btree? || ixs[route.i].store.Hash?) {
      var st, v := ixs[route.i].store, row[a.col];
      KeyOne(a.col, row);
      assert EntryFor(ixs[route.i], row) == Some([v]);
      forall w
        ensures KeyFinds(st, [w], [v]) <==> v == w
      {
        OneFinds(st, v, w);
      }
    }
  }

  /** Every constant of the plan is a value of another kind. */
  predicate UnlikeAll(plan: Plan, v: Value) {
    match plan
    case EqPlan(w) => !w.Null? && !SameKind(v, w)
    case InPlan(vals) => forall w :: w in vals ==> !w.Null? && !SameKind(v, w)
    case RangePlan(lo, hi) =>
      && (lo.Some? ==> !lo.value.value.Null? && !SameKind(v, lo.value.value))
      && (hi.Some? ==> !hi.value.value.Null? && !SameKind(v, hi.value.value))
  }

  /** Then equality and IN look up nothing of the kind, and a range is decided by rank. */
  lemma MeetsUnlike(plan: Plan, v: Value)
    requires !v.Null? && UnlikeAll(plan, v)
    ensures Meets(plan, v) <==>
            && plan.RangePlan?
            && (plan.lo.Some? ==> TypeRank(plan.lo.value.value) < TypeRank(v))
            && (plan.hi.Some? ==> TypeRank(v) < TypeRank(plan.hi.value.value))
  {
    if plan.RangePlan? {
      if plan.lo.Some? {
        UnlikeByRank(plan.lo.value.value, v);
      }
      if plan.hi.Some? {
        UnlikeByRank(v, plan.hi.value.value);
      }
    }
  }

  /** A partial or multi-column index on columns, answered by leading equalities: it yields
      an indexed row exactly when the row has the looked-up values in those columns. */
  lemma LeadingExactly(ixs: seq<Index>, decl: Decl, cs: seq<Filter>, i: nat, row: Row)
    requires i < |ixs| && Wide(ixs, row) && ixs[i].spec.Columns? && decl.expr.None?
    requires ixs[i].store.Btree? && EntryFor(ixs[i], row).Some?
    ensures var route, cols := IndexRoute(ixs[i], decl, cs, i), ixs[i].spec.cols;
            route.ViaKey? || route.ViaPrefix? ==>
              && |route.key| <= |cols|
              && (Yields(ixs, route, row) <==> forall k :: 0 <= k < |route.key| ==> row[cols[k]] == route.key[k])
  {
    var route, cols := IndexRoute(ixs[i], decl, cs, i), ixs[i].spec.cols;
    KeyCells(cols, row);
    var entry := KeyOf(ixs[i].spec, row).value;
    if route.ViaKey? || route.ViaPrefix? {
      var key := route.key;
      assert key <= entry <==> forall k :: 0 <= k < |key| ==> entry[k] == key[k];
      assert route.ViaKey? ==> |key| == |entry| && (key <= entry <==> key == entry);
    }
  }
}
