/** Heap-page accounting of a table: which page each row version is on, the live
and dead counters of each page, first-fit placement and the vacuum rebuild.
*/
module PageStore {
  import opened Collections

  const DefaultPageSize: nat := 8192

  datatype StoragePage = StoragePage(id: nat, liveRows: nat, deadRows: nat, liveBytes: nat, deadBytes: nat) {
    function UsedBytes(): nat {
      liveBytes + deadBytes
    }

    function FreeBytes(pageSize: nat): nat {
      SaturatingSub(pageSize, UsedBytes())
    }

    predicate CanFit(bytes: nat, pageSize: nat) {
      bytes <= FreeBytes(pageSize)
    }

    function AddLive(bytes: nat): StoragePage {
      this.(liveRows := liveRows + 1, liveBytes := liveBytes + bytes)
    }

    function MarkDead(bytes: nat): StoragePage {
      this.(liveRows := SaturatingSub(liveRows, 1), liveBytes := SaturatingSub(liveBytes, bytes),
            deadRows := deadRows + 1, deadBytes := deadBytes + bytes)
    }
  }

  function SaturatingSub(a: nat, b: nat): nat {
    if a < b then 0 else a - b
  }

  function NewPage(id: nat): StoragePage {
    StoragePage(id, 0, 0, 0, 0)
  }

  /** The pages, and for each live row the page and size of its version. */
  datatype Store = Store(pages: seq<StoragePage>, rowPage: map<RowId, nat>, rowBytes: map<RowId, nat>)

  const EmptyStore := Store([], map[], map[])

  // --- The operations ---------------------------------------------------------

  /** The first page with room, or the number of pages. */
  function FirstFit(pages: seq<StoragePage>, bytes: nat, pageSize: nat): (k: nat)
    ensures k <= |pages|
    ensures k < |pages| ==> pages[k].CanFit(bytes, pageSize)
    ensures forall i :: 0 <= i < k ==> !pages[i].CanFit(bytes, pageSize)
  {
    if pages == [] then 0
    else if pages[0].CanFit(bytes, pageSize) then 0
    else 1 + FirstFit(pages[1..], bytes, pageSize)
  }

  /** `page_for` then `add_live`. */
  function Assign(s: Store, id: RowId, bytes: nat, pageSize: nat): Store {
    var k := FirstFit(s.pages, bytes, pageSize);
    var pages := if k < |s.pages| then s.pages else s.pages + [NewPage(k)];
    Store(pages[k := pages[k].AddLive(bytes)], s.rowPage[id := k], s.rowBytes[id := bytes])
  }

  function MarkDead(s: Store, id: RowId): Store {
    if id !in s.rowPage || id !in s.rowBytes then s
    else
      var p := s.rowPage[id];
      Store(if p < |s.pages| then s.pages[p := s.pages[p].MarkDead(s.rowBytes[id])] else s.pages,
            s.rowPage - {id}, s.rowBytes - {id})
  }

  /** Clear everything and place the given rows again, in order. */
  function Rebuild(rows: seq<(RowId, nat)>, pageSize: nat): Store {
    if rows == [] then EmptyStore
    else
      var (id, bytes) := rows[|rows| - 1];
      Assign(Rebuild(rows[..|rows| - 1], pageSize), id, bytes, pageSize)
  }

  // --- Sums over the rows of a page ---------------------------------------------

  /** The rows mapped to page `p`. */
  ghost function RowsOn(s: Store, p: nat): set<RowId> {
    set id | id in s.rowPage && s.rowPage[id] == p
  }

  ghost function SumBytes(ids: set<RowId>, bytes: map<RowId, nat>): nat
    requires ids <= bytes.Keys
    decreases |ids|
  {
    if ids == {} then 0
    else
      var id := Least(ids);
      bytes[id] + SumBytes(ids - {id}, bytes)
  }

  ghost predicate IsLeast(ids: set<RowId>, m: RowId) {
    m in ids && forall x :: x in ids ==> m <= x
  }

  ghost function Least(ids: set<RowId>): (m: RowId)
    requires ids != {}
    ensures IsLeast(ids, m)
  {
    assert exists m :: IsLeast(ids, m) by {
      var m := LeastExists(ids);
    }
    var m :| IsLeast(ids, m);
    m
  }

  lemma {:induction false} LeastExists(ids: set<RowId>) returns (m: RowId)
    requires ids != {}
    ensures IsLeast(ids, m)
    decreases |ids|
  {
    m := Member(ids);
    var rest := ids - {m};
    if rest != {} {
      var b := LeastExists(rest);
      assert ids == rest + {m};
      m := if m <= b then m else b;
    }
  }

  lemma {:induction false} SumRemove(ids: set<RowId>, bytes: map<RowId, nat>, id: RowId)
    requires ids <= bytes.Keys && id in ids
    ensures SumBytes(ids, bytes) == bytes[id] + SumBytes(ids - {id}, bytes)
    decreases |ids|
  {
    var m := Least(ids);
    if m != id {
      SumRemove(ids - {m}, bytes, id);
      assert ids - {m} - {id} == ids - {id} - {m};
      assert m in ids - {id};
      assert Least(ids - {id}) == m;
    }
  }

  lemma {:induction false} SumAgrees(ids: set<RowId>, a: map<RowId, nat>, b: map<RowId, nat>)
    requires ids <= a.Keys && ids <= b.Keys && forall id :: id in ids ==> a[id] == b[id]
    ensures SumBytes(ids, a) == SumBytes(ids, b)
    decreases |ids|
  {
    if ids != {} {
      SumAgrees(ids - {Least(ids)}, a, b);
    }
  }

  // --- The invariant ----------------------------------------------------------------

  /** Each page's live counters are the count and the sum over the rows on it. */
  ghost predicate PageCounts(s: Store, p: nat)
    requires s.rowPage.Keys == s.rowBytes.Keys && p < |s.pages|
  {
    && s.pages[p].id == p
    && s.pages[p].liveRows == |RowsOn(s, p)|
    && s.pages[p].liveBytes == SumBytes(RowsOn(s, p), s.rowBytes)
  }

  ghost predicate Counted(s: Store) {
    && s.rowPage.Keys == s.rowBytes.Keys
    && (forall id :: id in s.rowPage ==> s.rowPage[id] < |s.pages|)
    && (forall p {:trigger PageCounts(s, p)} :: 0 <= p < |s.pages| ==> PageCounts(s, p))
  }

  /** No two pages would have fitted on one. */
  ghost predicate Packed(pages: seq<StoragePage>, pageSize: nat) {
    forall i, j :: 0 <= i < j < |pages| ==> pages[i].UsedBytes() + pages[j].UsedBytes() > pageSize
  }

  /** A page over the limit holds exactly one row version; no page is unused. */
  ghost predicate Bounded(pages: seq<StoragePage>, pageSize: nat) {
    forall i :: 0 <= i < |pages| ==>
      && pages[i].liveRows + pages[i].deadRows >= 1
      && (pages[i].UsedBytes() > pageSize ==> pages[i].liveRows + pages[i].deadRows == 1)
  }

  ghost predicate Valid(s: Store, pageSize: nat) {
    Counted(s) && Packed(s.pages, pageSize) && Bounded(s.pages, pageSize)
  }

  // --- Placing a row -----------------------------------------------------------------

  lemma AssignPacked(s: Store, id: RowId, bytes: nat, pageSize: nat)
    requires Packed(s.pages, pageSize)
    ensures Packed(Assign(s, id, bytes, pageSize).pages, pageSize)
  {
    var k := FirstFit(s.pages, bytes, pageSize);
    var pages' := Assign(s, id, bytes, pageSize).pages;
    forall i, j | 0 <= i < j < |pages'|
      ensures pages'[i].UsedBytes() + pages'[j].UsedBytes() > pageSize
    {
      if j < |s.pages| {
        assert s.pages[i].UsedBytes() + s.pages[j].UsedBytes() > pageSize;
      } else {
        assert !s.pages[i].CanFit(bytes, pageSize);
      }
    }
  }

  lemma AssignBounded(s: Store, id: RowId, bytes: nat, pageSize: nat)
    requires Bounded(s.pages, pageSize) && bytes > 0
    ensures Bounded(Assign(s, id, bytes, pageSize).pages, pageSize)
  {
    var k := FirstFit(s.pages, bytes, pageSize);
    if k < |s.pages| {
      assert s.pages[k].CanFit(bytes, pageSize);
    }
  }

  lemma AssignCounted(s: Store, id: RowId, bytes: nat, pageSize: nat)
    requires Counted(s) && id !in s.rowPage
    ensures Counted(Assign(s, id, bytes, pageSize))
  {
    var k := FirstFit(s.pages, bytes, pageSize);
    var s' := Assign(s, id, bytes, pageSize);
    forall p | 0 <= p < |s'.pages|
      ensures PageCounts(s', p)
    {
      AssignPage(s, id, bytes, pageSize, p);
    }
  }

  lemma AssignPage(s: Store, id: RowId, bytes: nat, pageSize: nat, p: nat)
    requires Counted(s) && id !in s.rowPage && p < |Assign(s, id, bytes, pageSize).pages|
    ensures PageCounts(Assign(s, id, bytes, pageSize), p)
  {
    var s' := Assign(s, id, bytes, pageSize);
    var before := RowsOn(s, p);
    assert id !in before;
    assert SumBytes(before, s'.rowBytes) == SumBytes(before, s.rowBytes) by {
      SumAgrees(before, s.rowBytes, s'.rowBytes);
    }
    if p < |s.pages| {
      assert PageCounts(s, p);
    } else {
      assert before == {};
    }
    if p == FirstFit(s.pages, bytes, pageSize) {
      AddOne(RowsOn(s', p), before, id, s'.rowBytes);
    } else {
      assert RowsOn(s', p) == before;
    }
  }

  lemma AddOne(after: set<RowId>, before: set<RowId>, id: RowId, bytes: map<RowId, nat>)
    requires after <= bytes.Keys && id !in before && forall x :: x in after <==> x in before || x == id
    ensures |after| == |before| + 1
    ensures SumBytes(after, bytes) == SumBytes(before, bytes) + bytes[id]
  {
    assert after == before + {id};
    SumRemove(after, bytes, id);
    assert after - {id} == before;
  }

  lemma AssignKeeps(s: Store, id: RowId, bytes: nat, pageSize: nat)
    requires Valid(s, pageSize) && id !in s.rowPage && bytes > 0
    ensures Valid(Assign(s, id, bytes, pageSize), pageSize)
    ensures Assign(s, id, bytes, pageSize).rowBytes == s.rowBytes[id := bytes]
  {
    AssignCounted(s, id, bytes, pageSize);
    AssignPacked(s, id, bytes, pageSize);
    AssignBounded(s, id, bytes, pageSize);
  }

  // --- Killing a row version ------------------------------------------------------------

  /** The counters of the row's page are large enough: neither subtraction saturates. */
  lemma NoSaturation(s: Store, id: RowId)
    requires Counted(s) && id in s.rowPage
    ensures s.pages[s.rowPage[id]].liveRows >= 1
    ensures s.pages[s.rowPage[id]].liveBytes >= s.rowBytes[id]
  {
    var p := s.rowPage[id];
    assert PageCounts(s, p);
    assert id in RowsOn(s, p);
    SumRemove(RowsOn(s, p), s.rowBytes, id);
  }

  lemma MarkDeadPage(s: Store, id: RowId, p: nat)
    requires Counted(s) && id in s.rowPage && p < |s.pages|
    ensures MarkDead(s, id).rowPage.Keys == MarkDead(s, id).rowBytes.Keys
    ensures PageCounts(MarkDead(s, id), p)
  {
    var s' := MarkDead(s, id);
    NoSaturation(s, id);
    assert PageCounts(s, p);
    assert RowsOn(s', p) == RowsOn(s, p) - {id};
    SumAgrees(RowsOn(s', p), s.rowBytes, s'.rowBytes);
    if p == s.rowPage[id] {
      SumRemove(RowsOn(s, p), s.rowBytes, id);
    } else {
      assert RowsOn(s', p) == RowsOn(s, p);
    }
  }

  /** Bytes move from live to dead; what a page uses does not change. */
  lemma MarkDeadUse(s: Store, id: RowId, p: nat)
    requires Counted(s) && id in s.rowPage && p < |s.pages|
    ensures MarkDead(s, id).pages[p].UsedBytes() == s.pages[p].UsedBytes()
    ensures MarkDead(s, id).pages[p].liveRows + MarkDead(s, id).pages[p].deadRows
         == s.pages[p].liveRows + s.pages[p].deadRows
  {
    NoSaturation(s, id);
  }

  lemma MarkDeadKeeps(s: Store, id: RowId, pageSize: nat)
    requires Valid(s, pageSize) && id in s.rowPage
    ensures Valid(MarkDead(s, id), pageSize)
    ensures MarkDead(s, id).rowBytes == s.rowBytes - {id}
  {
    var s' := MarkDead(s, id);
    forall p | 0 <= p < |s.pages|
      ensures PageCounts(s', p)
      ensures s'.pages[p].UsedBytes() == s.pages[p].UsedBytes()
      ensures s'.pages[p].liveRows + s'.pages[p].deadRows == s.pages[p].liveRows + s.pages[p].deadRows
    {
      MarkDeadPage(s, id, p);
      MarkDeadUse(s, id, p);
    }
  }

  // --- Vacuum --------------------------------------------------------------------------------

  /** The sizes of the rows, by id; every row has a size and no id occurs twice. */
  ghost function Sizes(rows: seq<(RowId, nat)>): map<RowId, nat> {
    if rows == [] then map[] else Sizes(rows[..|rows| - 1])[rows[|rows| - 1].0 := rows[|rows| - 1].1]
  }

  ghost predicate WellSized(rows: seq<(RowId, nat)>) {
    rows == [] ||
    var n := |rows| - 1;
    WellSized(rows[..n]) && rows[n].0 !in Sizes(rows[..n]) && rows[n].1 > 0
  }

  ghost predicate NothingDead(pages: seq<StoragePage>) {
    forall p :: 0 <= p < |pages| ==> pages[p].deadRows == 0 && pages[p].deadBytes == 0
  }

  /** A rebuild keeps every live row with its size and leaves nothing dead. */
  lemma {:induction false} RebuildKeeps(rows: seq<(RowId, nat)>, pageSize: nat)
    requires WellSized(rows)
    ensures Valid(Rebuild(rows, pageSize), pageSize)
    ensures Rebuild(rows, pageSize).rowBytes == Sizes(rows)
    ensures NothingDead(Rebuild(rows, pageSize).pages)
  {
    if rows != [] {
      var init := rows[..|rows| - 1];
      RebuildKeeps(init, pageSize);
      AssignKeeps(Rebuild(init, pageSize), rows[|rows| - 1].0, rows[|rows| - 1].1, pageSize);
    }
  }

  // --- The first-fit bound -------------------------------------------------------------------------

  function TotalUsed(pages: seq<StoragePage>): nat {
    if pages == [] then 0 else TotalUsed(pages[..|pages| - 1]) + pages[|pages| - 1].UsedBytes()
  }

  lemma PackedPrefix(pages: seq<StoragePage>, k: nat, pageSize: nat)
    requires Packed(pages, pageSize) && k <= |pages|
    ensures Packed(pages[..k], pageSize)
  {
  }

  /** Two or more pages are on average more than half used. */
  lemma {:induction false} HalfFull(pages: seq<StoragePage>, pageSize: nat)
    requires Packed(pages, pageSize)
    ensures |pages| >= 2 ==> (|pages| / 2) * pageSize < TotalUsed(pages)
  {
    var n := |pages|;
    if n >= 2 {
      assert pages[n - 2].UsedBytes() + pages[n - 1].UsedBytes() > pageSize;
      assert pages[..n - 1][..n - 2] == pages[..n - 2];
      assert TotalUsed(pages) == TotalUsed(pages[..n - 2]) + pages[n - 2].UsedBytes() + pages[n - 1].UsedBytes();
      PackedPrefix(pages, n - 2, pageSize);
      HalfFull(pages[..n - 2], pageSize);
      HalfStep(n, pageSize);
    }
  }

  lemma HalfStep(n: nat, pageSize: nat)
    requires n >= 2
    ensures (n / 2) * pageSize == ((n - 2) / 2) * pageSize + pageSize
  {
    assert n / 2 == (n - 2) / 2 + 1;
  }
}
