/** More that holds after every run of a table: which rows a deletion keeps, how ids are
handed out, what size each row is accounted with, and what kind of store each index has.
*/
module TableRuns {
  import opened Collections
  import opened Values
  import opened IndexStore
  import opened Toast
  import opened TableState
  import PageStore

  // --- Which rows a deletion keeps -----------------------------------------------------

  /** The positions below `n` that are not dropped. */
  ghost function KeptBelow(drop: set<nat>, n: nat): set<nat> {
    set k | 0 <= k < n && k !in drop
  }

  lemma KeptBelowNext(drop: set<nat>, n: nat)
    ensures |KeptBelow(drop, n + 1)| == |KeptBelow(drop, n)| + if n in drop then 0 else 1
  {
    assert KeptBelow(drop, n + 1) == if n in drop then KeptBelow(drop, n) else KeptBelow(drop, n) + {n};
  }

  lemma {:induction false} KeepLengthIs<T>(xs: seq<T>, drop: set<nat>)
    ensures |Keep(xs, drop)| == |KeptBelow(drop, |xs|)|
  {
    if xs == [] {
      assert KeptBelow(drop, 0) == {};
    } else {
      KeepLengthIs(xs[..|xs| - 1], drop);
      KeptBelowNext(drop, |xs| - 1);
    }
  }

  /** Exactly the elements at other positions are kept, in their order. */
  lemma {:induction false} KeepExactly<T>(xs: seq<T>, drop: set<nat>, p: nat)
    requires p < |xs| && p !in drop
    ensures var q := |KeptBelow(drop, p)|; q < |Keep(xs, drop)| && Keep(xs, drop)[q] == xs[p]
    ensures |Keep(xs, drop)| == |KeptBelow(drop, |xs|)|
  {
    var n := |xs| - 1;
    KeepLengthIs(xs, drop);
    KeepLengthIs(xs[..n], drop);
    if p < n {
      KeepExactly(xs[..n], drop, p);
    }
  }

  // --- Ids --------------------------------------------------------------------------------

  function Inserts(ops: seq<Op>): nat {
    if ops == [] then 0 else Inserts(ops[..|ops| - 1]) + if ops[|ops| - 1].Push? then 1 else 0
  }

  /** Rows are numbered from zero in the order they are inserted, whatever happens between. */
  lemma {:induction false} IdsCountInserts(ops: seq<Op>)
    requires IsRun(ops)
    ensures After(ops).nextId == Inserts(ops)
    ensures ops != [] && ops[|ops| - 1].Push? ==>
              var ids := After(ops).ids; ids != [] && ids[|ids| - 1] == Inserts(ops) - 1
  {
    if ops != [] {
      IdsCountInserts(ops[..|ops| - 1]);
    }
  }

  // --- Sizes -------------------------------------------------------------------------------

  /** The page counters know a row by its size as written, or since a vacuum as stored. */
  ghost predicate SizedAt(s: State, logical: seq<Row>, p: nat)
    requires p < |s.ids| && p < |s.rows| && p < |logical|
  {
    && s.ids[p] in s.pages.rowBytes
    && (s.pages.rowBytes[s.ids[p]] == RowBytes(logical[p]) || s.pages.rowBytes[s.ids[p]] == RowBytes(s.rows[p]))
  }

  ghost predicate Sized(s: State, logical: seq<Row>) {
    |s.ids| == |s.rows| == |logical| && forall p :: 0 <= p < |s.ids| ==> SizedAt(s, logical, p)
  }

  lemma PushSized(s: State, logical: seq<Row>, row: Row)
    requires Holds(s, logical) && Sized(s, logical)
    ensures Sized(PushRow(s, row), logical + [row])
  {
    var s' := PushRow(s, row);
    forall p | 0 <= p < |s'.ids|
      ensures SizedAt(s', logical + [row], p)
    {
      if p < |s.ids| {
        assert SizedAt(s, logical, p) && s.ids[p] != s.nextId;
      }
    }
  }

  lemma UpdateSized(s: State, logical: seq<Row>, p: nat, row: Row)
    requires Holds(s, logical) && Sized(s, logical) && p < |s.rows|
    ensures Sized(UpdateRow(s, p, row), logical[p := row])
  {
    var s', logical' := UpdateRow(s, p, row), logical[p := row];
    forall q | 0 <= q < |s'.ids|
      ensures SizedAt(s', logical', q)
    {
      if q != p {
        assert SizedAt(s, logical, q) && s.ids[q] != s.ids[p];
      }
    }
  }

  lemma {:induction false} KillSizes(pages: PageStore.Store, ids: seq<RowId>, drop: set<nat>, id: RowId)
    requires id in pages.rowBytes && forall i :: 0 <= i < |ids| && i in drop ==> ids[i] != id
    ensures id in KillPages(pages, ids, drop).rowBytes && KillPages(pages, ids, drop).rowBytes[id] == pages.rowBytes[id]
  {
    if ids != [] {
      KillSizes(pages, ids[..|ids| - 1], drop, id);
    }
  }

  /** The position a kept row had. */
  lemma {:induction false} KeptFrom<S, T, U>(a: seq<S>, b: seq<T>, c: seq<U>, drop: set<nat>, q: nat) returns (p: nat)
    requires |a| == |b| == |c| && q < |Keep(a, drop)|
    ensures p < |a| && p !in drop && q < |Keep(b, drop)| && q < |Keep(c, drop)|
    ensures Keep(a, drop)[q] == a[p] && Keep(b, drop)[q] == b[p] && Keep(c, drop)[q] == c[p]
  {
    var n := |a| - 1;
    KeepLengthIs(a[..n], drop);
    KeepLengthIs(b[..n], drop);
    KeepLengthIs(c[..n], drop);
    if q < |Keep(a[..n], drop)| {
      p := KeptFrom(a[..n], b[..n], c[..n], drop, q);
    } else {
      p := n;
    }
  }

  lemma DeleteSized(s: State, logical: seq<Row>, drop: set<nat>)
    requires Holds(s, logical) && Sized(s, logical)
    ensures Sized(DeleteRows(s, drop), Keep(logical, drop))
  {
    var s' := DeleteRows(s, drop);
    KeepLengthIs(s.ids, drop);
    KeepLengthIs(s.rows, drop);
    KeepLengthIs(logical, drop);
    forall q | 0 <= q < |s'.ids|
      ensures SizedAt(s', Keep(logical, drop), q)
    {
      var p := KeptFrom(s.ids, s.rows, logical, drop, q);
      assert SizedAt(s, logical, p);
      assert forall i :: 0 <= i < |s.ids| && i in drop ==> s.ids[i] != s.ids[p];
      KillSizes(s.pages, s.ids, drop, s.ids[p]);
    }
  }

  lemma {:induction false} SizesAre(ids: seq<RowId>, rows: seq<Row>, bound: RowId, p: nat)
    requires |ids| == |rows| && Rising(ids, bound) && p < |ids|
    ensures ids[p] in PageStore.Sizes(SizedRows(ids, rows))
    ensures PageStore.Sizes(SizedRows(ids, rows))[ids[p]] == RowBytes(rows[p])
  {
    var n := |ids| - 1;
    var sized := SizedRows(ids, rows);
    assert sized[..|sized| - 1] == SizedRows(ids[..n], rows[..n]);
    if p < n {
      assert Rising(ids[..n], bound);
      SizesAre(ids[..n], rows[..n], bound, p);
    }
  }

  lemma VacuumSized(s: State, logical: seq<Row>)
    requires Holds(s, logical)
    ensures Sized(Vacuum(s), logical)
  {
    IdsRise(s.ids, s.pos, s.nextId);
    SizedRowsOk(s.ids, s.rows, s.nextId);
    PageStore.RebuildKeeps(SizedRows(s.ids, s.rows), PageSize);
    forall p | 0 <= p < |s.ids|
      ensures SizedAt(Vacuum(s), logical, p)
    {
      SizesAre(s.ids, s.rows, s.nextId, p);
    }
  }

  lemma StepSized(s: State, logical: seq<Row>, op: Op)
    requires Holds(s, logical) && Legal(s, op) && Sized(s, logical)
    ensures Sized(Step(s, op), LogicalStep(logical, op))
  {
    match op
    case Push(row) => PushSized(s, logical, row);
    case Update(p, row) => UpdateSized(s, logical, p, row);
    case Delete(positions) => DeleteSized(s, logical, positions);
    case TruncateAll =>
    case VacuumAll => VacuumSized(s, logical);
    case NewIndex(spec, partial, how) => SameSized(s, CreateIndex(s, spec, partial, how), logical);
  }

  lemma SameSized(s: State, s': State, logical: seq<Row>)
    requires Sized(s, logical) && s'.ids == s.ids && s'.rows == s.rows && s'.pages == s.pages
    ensures Sized(s', logical)
  {
    forall p | 0 <= p < |s.ids|
      ensures SizedAt(s', logical, p)
    {
      assert SizedAt(s, logical, p);
    }
  }

  /** After every run each row is accounted with its own size. */
  lemma {:induction false} RunSized(ops: seq<Op>)
    requires IsRun(ops)
    ensures Sized(After(ops), LogicalRun(ops))
  {
    if ops != [] {
      var init := ops[..|ops| - 1];
      RunSized(init);
      RunHolds(init);
      StepSized(After(init), LogicalRun(init), ops[|ops| - 1]);
    }
  }

  // --- Kinds of stores ----------------------------------------------------------------------

  /** GiST and SP-GiST indexes are ordered like B-trees; truncating empties each store and
      leaves its kind, and the key and test of each index. */
  lemma KindsOfStores(s: State, i: nat)
    requires i < |s.indexes|
    ensures EmptyStore(BtreeMethod).Btree? && EmptyStore(GistMethod).Btree? && EmptyStore(SpGistMethod).Btree?
    ensures EmptyStore(HashMethod).Hash? && EmptyStore(BrinMethod).Brin? && EmptyStore(GinMethod).Gin?
    ensures var idx, idx' := s.indexes[i], Truncate(s).indexes[i];
            OneKind(idx.store, idx'.store) && idx'.spec == idx.spec && idx'.partial == idx.partial
  {
  }
}
