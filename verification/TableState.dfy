/** A table: its stored rows and everything derived from them. Each operation is a
function on `State`; what it means is stated on the logical rows, the ones a
reader sees after de-toasting.
*/
module TableState {
  import opened Collections
  import opened Values
  import opened IndexStore
  import opened Toast
  import PageStore

  // --- Indexes of a table --------------------------------------------------------

  /** The key columns, or the expression the executor evaluates per row. */
  datatype KeySpec = Columns(cols: seq<nat>) | Expression(eval: Row -> Option<Value>)

  datatype Index = Index(spec: KeySpec, partial: Option<Row -> bool>, store: Store)

  function KeyOf(spec: KeySpec, row: Row): Option<Key> {
    match spec
    case Columns(cols) =>
      if forall i :: 0 <= i < |cols| ==> cols[i] < |row| then
        Some(seq(|cols|, i requires 0 <= i < |cols| && cols[i] < |row| => row[cols[i]]))
      else None
    case Expression(eval) =>
      match eval(row)
      case None => None
      case Some(v) => Some([v])
  }

  /** The key a row is indexed under; `None` when it is not in the index. */
  function EntryFor(idx: Index, row: Row): Option<Key> {
    if idx.partial.Some? && !idx.partial.value(row) then None else KeyOf(idx.spec, row)
  }

  function IndexOne(idx: Index, row: Row, id: RowId): Index {
    match EntryFor(idx, row)
    case None => idx
    case Some(key) => idx.(store := Insert(idx.store, key, id))
  }

  function UnindexOne(idx: Index, row: Row, id: RowId): Index {
    match EntryFor(idx, row)
    case None => idx
    case Some(key) => idx.(store := Remove(idx.store, key, id))
  }

  function IndexRow(ixs: seq<Index>, row: Row, id: RowId): (r: seq<Index>)
    ensures |r| == |ixs| && forall i :: 0 <= i < |ixs| ==> r[i] == IndexOne(ixs[i], row, id)
  {
    if ixs == [] then [] else IndexRow(ixs[..|ixs| - 1], row, id) + [IndexOne(ixs[|ixs| - 1], row, id)]
  }

  function UnindexRow(ixs: seq<Index>, row: Row, id: RowId): (r: seq<Index>)
    ensures |r| == |ixs| && forall i :: 0 <= i < |ixs| ==> r[i] == UnindexOne(ixs[i], row, id)
  {
    if ixs == [] then [] else UnindexRow(ixs[..|ixs| - 1], row, id) + [UnindexOne(ixs[|ixs| - 1], row, id)]
  }

  /** A table's contents as a map from row id to logical row. */
  type Content = map<RowId, Row>

  ghost function EntriesOf(idx: Index, content: Content): Entries {
    map id | id in content && EntryFor(idx, content[id]).Some? :: EntryFor(idx, content[id]).value
  }

  /** The index holds exactly the entries of the rows there are. */
  ghost predicate Indexed(idx: Index, content: Content) {
    Represents(idx.store, EntriesOf(idx, content))
  }

  ghost predicate AllIndexed(ixs: seq<Index>, content: Content) {
    forall i :: 0 <= i < |ixs| ==> Indexed(ixs[i], content)
  }

  lemma IndexOneKeeps(idx: Index, content: Content, row: Row, id: RowId)
    requires Indexed(idx, content) && id !in content
    ensures Indexed(IndexOne(idx, row, id), content[id := row])
  {
    var es := EntriesOf(idx, content);
    var idx' := IndexOne(idx, row, id);
    match EntryFor(idx, row)
    case None =>
      assert EntriesOf(idx', content[id := row]) == es;
    case Some(key) =>
      assert EntriesOf(idx', content[id := row]) == es[id := key];
      InsertRepresents(idx.store, es, key, id);
  }

  lemma UnindexOneKeeps(idx: Index, content: Content, id: RowId)
    requires Indexed(idx, content) && id in content
    ensures Indexed(UnindexOne(idx, content[id], id), content - {id})
  {
    var es := EntriesOf(idx, content);
    var idx' := UnindexOne(idx, content[id], id);
    match EntryFor(idx, content[id])
    case None =>
      assert EntriesOf(idx', content - {id}) == es;
    case Some(key) =>
      assert EntriesOf(idx', content - {id}) == es - {id};
      RemoveRepresents(idx.store, es, id);
  }

  lemma IndexRowKeeps(ixs: seq<Index>, content: Content, row: Row, id: RowId)
    requires AllIndexed(ixs, content) && id !in content
    ensures AllIndexed(IndexRow(ixs, row, id), content[id := row])
  {
    forall i | 0 <= i < |ixs|
      ensures Indexed(IndexRow(ixs, row, id)[i], content[id := row])
    {
      IndexOneKeeps(ixs[i], content, row, id);
    }
  }

  lemma UnindexRowKeeps(ixs: seq<Index>, content: Content, id: RowId)
    requires AllIndexed(ixs, content) && id in content
    ensures AllIndexed(UnindexRow(ixs, content[id], id), content - {id})
  {
    forall i | 0 <= i < |ixs|
      ensures Indexed(UnindexRow(ixs, content[id], id)[i], content - {id})
    {
      UnindexOneKeeps(ixs[i], content, id);
    }
  }

  // --- Sizes ------------------------------------------------------------------------

  function ValueBytes(v: Value): nat {
    match v
    case Null => 0
    case Bool(_) => 1
    case Int(_) => 8
    case Text(s) => 4 + Utf8Len(s)
  }

  function CellBytes(row: Row): nat {
    if row == [] then 0 else CellBytes(row[..|row| - 1]) + ValueBytes(row[|row| - 1])
  }

  /** Header, null bitmap and cells, rounded up to eight bytes. */
  function RowBytes(row: Row): (n: nat)
    ensures n >= 24 && n % 8 == 0
  {
    (24 + (|row| + 7) / 8 + CellBytes(row) + 7) / 8 * 8
  }

  lemma {:induction false} CellsAdd(a: Row, b: Row)
    ensures CellBytes(a + b) == CellBytes(a) + CellBytes(b)
  {
    if b == [] {
      assert a + b == a;
    } else {
      assert (a + b)[..|a + b| - 1] == a + b[..|b| - 1];
      CellsAdd(a, b[..|b| - 1]);
    }
  }

  /** Nothing for NULL, one byte for a boolean, eight for an integer, and four more than its
      encoding for a text; with 24 bytes of header and a bit for each column, rounded up to
      a multiple of eight. */
  lemma RowBytesExactly(row: Row, b: bool, i: int, s: string)
    ensures CellBytes(row + [Null]) == CellBytes(row)
    ensures CellBytes(row + [Bool(b)]) == CellBytes(row) + 1
    ensures CellBytes(row + [Int(i)]) == CellBytes(row) + 8
    ensures CellBytes(row + [Text(s)]) == CellBytes(row) + 4 + Utf8Len(s)
    ensures exists bitmap: nat ::
              && 8 * bitmap - 8 < |row| <= 8 * bitmap && RowBytes(row) % 8 == 0
              && 24 + bitmap + CellBytes(row) <= RowBytes(row) < 24 + bitmap + CellBytes(row) + 8
  {
    assert CellBytes([]) == 0;
    CellsAdd(row, [Null]);
    CellsAdd(row, [Bool(b)]);
    CellsAdd(row, [Int(i)]);
    CellsAdd(row, [Text(s)]);
    var bitmap := (|row| + 7) / 8;
    assert 8 * bitmap - 8 < |row| <= 8 * bitmap;
  }

  // --- The table --------------------------------------------------------------------

  datatype State = State(
    rows: seq<Row>,
    ids: seq<RowId>,
    pos: map<RowId, nat>,
    nextId: RowId,
    indexes: seq<Index>,
    side: Side,
    pages: PageStore.Store
  )

  const PageSize := PageStore.DefaultPageSize

  function PushRow(s: State, row: Row): State {
    var id := s.nextId;
    var (stored, side) := ToastRow(row, s.side);
    State(s.rows + [stored], s.ids + [id], s.pos[id := |s.rows|], id + 1, IndexRow(s.indexes, row, id), side,
          PageStore.Assign(s.pages, id, RowBytes(row), PageSize))
  }

  ghost function UpdateRow(s: State, p: nat, row: Row): State
    requires p < |s.rows| && p < |s.ids|
  {
    var id := s.ids[p];
    var prior := DetoastRow(s.rows[p], s.side.chunks);
    var (stored, side) := ToastRow(row, s.side.(chunks := Untoast(s.rows[p], s.side.chunks)));
    s.(rows := s.rows[p := stored],
       indexes := IndexRow(UnindexRow(s.indexes, prior, id), row, id),
       side := side,
       pages := PageStore.Assign(PageStore.MarkDead(s.pages, id), id, RowBytes(row), PageSize))
  }

  // --- Invariants --------------------------------------------------------------------

  /** Ids increase down the table and stay below the next one; `pos` inverts them. */
  ghost predicate IdsOk(ids: seq<RowId>, pos: map<RowId, nat>, nextId: RowId) {
    && (forall i, j :: 0 <= i < j < |ids| ==> ids[i] < ids[j])
    && (forall i :: 0 <= i < |ids| ==> ids[i] < nextId && ids[i] in pos && pos[ids[i]] == i)
    && (forall id :: id in pos ==> pos[id] < |ids| && ids[pos[id]] == id)
  }

  ghost function AllRefs(rows: seq<Row>): multiset<nat> {
    if rows == [] then multiset{} else AllRefs(rows[..|rows| - 1]) + RowRefs(rows[|rows| - 1])
  }

  /** The side store holds exactly the chunks stored cells refer to, each referred
      to by one cell. */
  ghost predicate SideExact(rows: seq<Row>, side: Side) {
    SideOk(side) && multiset(side.chunks.Keys) == AllRefs(rows)
  }

  /** The logical rows. */
  ghost predicate Reads(rows: seq<Row>, chunks: map<nat, string>, logical: seq<Row>) {
    |rows| == |logical| && forall i :: 0 <= i < |rows| ==> DetoastRow(rows[i], chunks) == logical[i]
  }

  ghost predicate PagesOk(pages: PageStore.Store, pos: map<RowId, nat>) {
    PageStore.Valid(pages, PageSize) && pages.rowBytes.Keys == pos.Keys
  }

  ghost function ContentOf(pos: map<RowId, nat>, logical: seq<Row>): Content {
    map id | id in pos && pos[id] < |logical| :: logical[pos[id]]
  }

  /** `s` is a consistent table whose logical rows are `logical`. */
  ghost predicate Holds(s: State, logical: seq<Row>) {
    && |s.rows| == |s.ids|
    && IdsOk(s.ids, s.pos, s.nextId)
    && SideExact(s.rows, s.side)
    && Reads(s.rows, s.side.chunks, logical)
    && PagesOk(s.pages, s.pos)
    && AllIndexed(s.indexes, ContentOf(s.pos, logical))
  }

  // --- References ----------------------------------------------------------------------

  lemma {:induction false} RowRefsWithin(rows: seq<Row>, i: nat)
    requires i < |rows|
    ensures RowRefs(rows[i]) <= AllRefs(rows)
  {
    if i < |rows| - 1 {
      RowRefsWithin(rows[..|rows| - 1], i);
    }
  }

  lemma {:induction false} TwoRowRefsWithin(rows: seq<Row>, i: nat, j: nat)
    requires i < j < |rows|
    ensures RowRefs(rows[i]) + RowRefs(rows[j]) <= AllRefs(rows)
  {
    var init := rows[..|rows| - 1];
    if j < |rows| - 1 {
      TwoRowRefsWithin(init, i, j);
    } else {
      RowRefsWithin(init, i);
    }
  }

  /** Two rows share no chunk. */
  lemma RowsDisjoint(rows: seq<Row>, side: Side, i: nat, j: nat, id: nat)
    requires SideExact(rows, side) && i < |rows| && j < |rows| && i != j
    requires id in RowRefs(rows[i])
    ensures id !in RowRefs(rows[j]) && id in side.chunks
  {
    TwoRowRefsWithin(rows, if i < j then i else j, if i < j then j else i);
    assert AllRefs(rows)[id] <= 1;
    assert (RowRefs(rows[i]) + RowRefs(rows[j]))[id] <= AllRefs(rows)[id];
  }

  lemma Rearrange(a: multiset<nat>, b: multiset<nat>, c: multiset<nat>, d: multiset<nat>, z: multiset<nat>)
    requires a + b == c + d
    ensures (a + z) + b == (c + z) + d
  {
    assert (a + z) + b == (a + b) + z;
  }

  lemma {:induction false} RefsUpdate(rows: seq<Row>, p: nat, row: Row)
    requires p < |rows|
    ensures AllRefs(rows[p := row]) + RowRefs(rows[p]) == AllRefs(rows) + RowRefs(row)
  {
    var n := |rows| - 1;
    var init, rows' := rows[..n], rows[p := row];
    assert AllRefs(rows) == AllRefs(init) + RowRefs(rows[n]);
    assert AllRefs(rows') == AllRefs(rows'[..n]) + RowRefs(rows'[n]);
    if p < n {
      RefsUpdate(init, p, row);
      assert rows'[..n] == init[p := row] && rows'[n] == rows[n] && init[p] == rows[p];
      Rearrange(AllRefs(init[p := row]), RowRefs(rows[p]), AllRefs(init), RowRefs(row), RowRefs(rows[n]));
    } else {
      assert rows'[..n] == init;
    }
  }

  /** Taking a row's chunks away, as sets and as multisets. */
  lemma MinusRefs(keys: set<nat>, refs: multiset<nat>, kept: multiset<nat>)
    requires multiset(keys) == kept + refs
    ensures multiset(keys - (set id | id in refs)) == kept
  {
    var gone := set id | id in refs;
    forall id
      ensures multiset(keys - gone)[id] == kept[id]
    {
      assert multiset(keys)[id] == kept[id] + refs[id];
    }
  }

  // --- push_row ---------------------------------------------------------------------------

  lemma PushIds(ids: seq<RowId>, pos: map<RowId, nat>, nextId: RowId)
    requires IdsOk(ids, pos, nextId)
    ensures IdsOk(ids + [nextId], pos[nextId := |ids|], nextId + 1)
    ensures nextId !in pos
  {
  }

  lemma PushToast(rows: seq<Row>, side: Side, logical: seq<Row>, row: Row)
    requires SideExact(rows, side) && Reads(rows, side.chunks, logical) && PlainRow(row) && Room(row, side)
    ensures var (stored, side') := ToastRow(row, side);
            SideExact(rows + [stored], side') && Reads(rows + [stored], side'.chunks, logical + [row])
  {
    var (stored, side') := ToastRow(row, side);
    ToastExtends(row, side);
    ToastReadsBack(row, side);
    assert (rows + [stored])[..|rows + [stored]| - 1] == rows;
    forall i | 0 <= i < |rows|
      ensures DetoastRow(rows[i], side'.chunks) == logical[i]
    {
      RowRefsWithin(rows, i);
      assert forall id :: id in RowRefs(rows[i]) ==> id in multiset(side.chunks.Keys);
      DetoastFrame(rows[i], side.chunks, side'.chunks);
    }
  }

  lemma PushContent(pos: map<RowId, nat>, logical: seq<Row>, id: RowId, row: Row)
    requires id !in pos && forall x :: x in pos ==> pos[x] < |logical|
    ensures ContentOf(pos[id := |logical|], logical + [row]) == ContentOf(pos, logical)[id := row]
  {
  }

  lemma PushPages(pages: PageStore.Store, pos: map<RowId, nat>, id: RowId, bytes: nat, p: nat)
    requires PagesOk(pages, pos) && id !in pos && bytes > 0
    ensures PagesOk(PageStore.Assign(pages, id, bytes, PageSize), pos[id := p])
  {
    PageStore.AssignKeeps(pages, id, bytes, PageSize);
  }

  lemma PushIndexes(ixs: seq<Index>, pos: map<RowId, nat>, logical: seq<Row>, id: RowId, row: Row)
    requires AllIndexed(ixs, ContentOf(pos, logical)) && id !in pos && forall x :: x in pos ==> pos[x] < |logical|
    ensures AllIndexed(IndexRow(ixs, row, id), ContentOf(pos[id := |logical|], logical + [row]))
  {
    PushContent(pos, logical, id, row);
    IndexRowKeeps(ixs, ContentOf(pos, logical), row, id);
  }

  lemma PushedRows(s: State, logical: seq<Row>, row: Row)
    requires Holds(s, logical) && PlainRow(row) && Room(row, s.side)
    ensures var s' := PushRow(s, row);
            |s'.rows| == |s'.ids| && SideExact(s'.rows, s'.side) && Reads(s'.rows, s'.side.chunks, logical + [row])
  {
    PushToast(s.rows, s.side, logical, row);
  }

  lemma PushedPlaces(s: State, logical: seq<Row>, row: Row)
    requires Holds(s, logical)
    ensures var s' := PushRow(s, row);
            && IdsOk(s'.ids, s'.pos, s'.nextId) && PagesOk(s'.pages, s'.pos)
            && AllIndexed(s'.indexes, ContentOf(s'.pos, logical + [row]))
  {
    PushIds(s.ids, s.pos, s.nextId);
    PushIndexes(s.indexes, s.pos, logical, s.nextId, row);
    PushPages(s.pages, s.pos, s.nextId, RowBytes(row), |s.rows|);
  }

  /** Appending a row appends it to the logical rows. */
  lemma PushHolds(s: State, logical: seq<Row>, row: Row)
    requires Holds(s, logical) && PlainRow(row) && Room(row, s.side)
    ensures Holds(PushRow(s, row), logical + [row])
  {
    PushedRows(s, logical, row);
    PushedPlaces(s, logical, row);
  }

  // --- update_row -----------------------------------------------------------------------------

  lemma UpdateFrame(rows: seq<Row>, side: Side, p: nat, i: nat, side': Side, stored: Row)
    requires SideExact(rows, side) && p < |rows| && i < |rows| && i != p
    requires Extends(side.(chunks := Untoast(rows[p], side.chunks)), side', stored)
    ensures DetoastRow(rows[i], side.chunks) == DetoastRow(rows[i], side'.chunks)
  {
    forall id | id in RowRefs(rows[i])
      ensures id in side.chunks && id in side'.chunks && side'.chunks[id] == side.chunks[id]
    {
      RowsDisjoint(rows, side, i, p, id);
      assert id in Untoast(rows[p], side.chunks);
    }
    DetoastFrame(rows[i], side.chunks, side'.chunks);
  }

  lemma UntoastExact(rows: seq<Row>, side: Side, p: nat)
    requires SideExact(rows, side) && p < |rows|
    ensures SideOk(side.(chunks := Untoast(rows[p], side.chunks)))
    ensures multiset(Untoast(rows[p], side.chunks).Keys) + RowRefs(rows[p]) == AllRefs(rows)
  {
    RowRefsWithin(rows, p);
    MinusRefs(side.chunks.Keys, RowRefs(rows[p]), AllRefs(rows) - RowRefs(rows[p]));
    assert Untoast(rows[p], side.chunks).Keys == side.chunks.Keys - RefSet(rows[p]);
  }

  lemma UpdateSide(rows: seq<Row>, side: Side, p: nat, side': Side, stored: Row)
    requires SideExact(rows, side) && p < |rows| && SideOk(side')
    requires Extends(side.(chunks := Untoast(rows[p], side.chunks)), side', stored)
    ensures SideExact(rows[p := stored], side')
  {
    UntoastExact(rows, side, p);
    RefsUpdate(rows, p, stored);
    var kept := multiset(Untoast(rows[p], side.chunks).Keys);
    assert multiset(side'.chunks.Keys) == kept + RowRefs(stored);
    Swap(AllRefs(rows[p := stored]), RowRefs(rows[p]), AllRefs(rows), kept, RowRefs(stored));
  }

  lemma Swap(after: multiset<nat>, gone: multiset<nat>, before: multiset<nat>, kept: multiset<nat>,
             added: multiset<nat>)
    requires after + gone == before + added && kept + gone == before
    ensures after == kept + added
  {
    assert after + gone == (kept + added) + gone;
    Cancel(after, kept + added, gone);
  }

  lemma Cancel(a: multiset<nat>, b: multiset<nat>, c: multiset<nat>)
    requires a + c == b + c
    ensures a == b
  {
    assert a == (a + c) - c && b == (b + c) - c;
  }

  lemma UpdateToast(rows: seq<Row>, side: Side, logical: seq<Row>, p: nat, row: Row)
    requires SideExact(rows, side) && Reads(rows, side.chunks, logical) && p < |rows|
    requires PlainRow(row) && Room(row, side)
    ensures var (stored, side') := ToastRow(row, side.(chunks := Untoast(rows[p], side.chunks)));
            SideExact(rows[p := stored], side') && Reads(rows[p := stored], side'.chunks, logical[p := row])
  {
    var side1 := side.(chunks := Untoast(rows[p], side.chunks));
    var (stored, side') := ToastRow(row, side1);
    assert SideOk(side1) by { UntoastExact(rows, side, p); }
    ToastExtends(row, side1);
    assert SideExact(rows[p := stored], side') by { UpdateSide(rows, side, p, side', stored); }
    var rows', logical' := rows[p := stored], logical[p := row];
    forall i | 0 <= i < |rows'|
      ensures DetoastRow(rows'[i], side'.chunks) == logical'[i]
    {
      if i != p {
        UpdateFrame(rows, side, p, i, side', stored);
      } else {
        ToastReadsBack(row, side1);
      }
    }
  }

  lemma UpdateContent(ids: seq<RowId>, pos: map<RowId, nat>, nextId: RowId, logical: seq<Row>, p: nat, row: Row)
    requires IdsOk(ids, pos, nextId) && |logical| == |ids| && p < |ids|
    ensures ids[p] in ContentOf(pos, logical) && ContentOf(pos, logical)[ids[p]] == logical[p]
    ensures ContentOf(pos, logical[p := row]) == (ContentOf(pos, logical) - {ids[p]})[ids[p] := row]
  {
  }

  lemma UpdateIndexes(ixs: seq<Index>, content: Content, id: RowId, row: Row)
    requires AllIndexed(ixs, content) && id in content
    ensures AllIndexed(IndexRow(UnindexRow(ixs, content[id], id), row, id), (content - {id})[id := row])
  {
    UnindexRowKeeps(ixs, content, id);
    IndexRowKeeps(UnindexRow(ixs, content[id], id), content - {id}, row, id);
  }

  lemma UpdatePages(pages: PageStore.Store, pos: map<RowId, nat>, id: RowId, bytes: nat)
    requires PagesOk(pages, pos) && id in pos && bytes > 0
    ensures PagesOk(PageStore.Assign(PageStore.MarkDead(pages, id), id, bytes, PageSize), pos)
  {
    PageStore.MarkDeadKeeps(pages, id, PageSize);
    PageStore.AssignKeeps(PageStore.MarkDead(pages, id), id, bytes, PageSize);
  }

  /** Updating position `p` replaces that logical row and no other; its id stays. */
  lemma UpdateHolds(s: State, logical: seq<Row>, p: nat, row: Row)
    requires Holds(s, logical) && PlainRow(row) && p < |s.rows| && Room(row, s.side)
    ensures Holds(UpdateRow(s, p, row), logical[p := row])
  {
    UpdateToast(s.rows, s.side, logical, p, row);
    UpdateContent(s.ids, s.pos, s.nextId, logical, p, row);
    UpdateIndexes(s.indexes, ContentOf(s.pos, logical), s.ids[p], row);
    UpdatePages(s.pages, s.pos, s.ids[p], RowBytes(row));
  }

  // --- delete_rows --------------------------------------------------------------------------------

  /** The elements whose position is not dropped, in order. */
  function Keep<T>(xs: seq<T>, drop: set<nat>): seq<T> {
    if xs == [] then []
    else
      var n := |xs| - 1;
      Keep(xs[..n], drop) + if n in drop then [] else [xs[n]]
  }

  function Positions(ids: seq<RowId>): map<RowId, nat> {
    if ids == [] then map[] else Positions(ids[..|ids| - 1])[ids[|ids| - 1] := |ids| - 1]
  }

  /** Unindex and untoast the dropped rows among the first `n`, reading each
      through the side store as it is by then. */
  ghost function Unlink(s: State, drop: set<nat>, n: nat): (seq<Index>, map<nat, string>)
    requires n <= |s.rows| && |s.rows| == |s.ids|
  {
    if n == 0 then (s.indexes, s.side.chunks)
    else
      var (ixs, chunks) := Unlink(s, drop, n - 1);
      if n - 1 in drop then
        (UnindexRow(ixs, DetoastRow(s.rows[n - 1], chunks), s.ids[n - 1]), Untoast(s.rows[n - 1], chunks))
      else (ixs, chunks)
  }

  ghost function KillPages(pages: PageStore.Store, ids: seq<RowId>, drop: set<nat>): PageStore.Store {
    if ids == [] then pages
    else
      var n := |ids| - 1;
      var before := KillPages(pages, ids[..n], drop);
      if n in drop then PageStore.MarkDead(before, ids[n]) else before
  }

  ghost function DeleteRows(s: State, drop: set<nat>): State
    requires |s.rows| == |s.ids|
  {
    var (ixs, chunks) := Unlink(s, drop, |s.rows|);
    State(Keep(s.rows, drop), Keep(s.ids, drop), Positions(Keep(s.ids, drop)), s.nextId, ixs,
          s.side.(chunks := chunks), KillPages(s.pages, s.ids, drop))
  }

  // Ids and positions.

  ghost predicate Rising(ids: seq<RowId>, bound: RowId) {
    && (forall i, j :: 0 <= i < j < |ids| ==> ids[i] < ids[j])
    && (forall i :: 0 <= i < |ids| ==> ids[i] < bound)
  }

  lemma {:induction false} KeepRising(ids: seq<RowId>, drop: set<nat>, bound: RowId)
    requires Rising(ids, bound)
    ensures Rising(Keep(ids, drop), bound)
  {
    if ids != [] {
      var n := |ids| - 1;
      KeepRising(ids[..n], drop, ids[n]);
    }
  }

  lemma {:induction false} PositionsInvert(ids: seq<RowId>, bound: RowId)
    requires Rising(ids, bound)
    ensures IdsOk(ids, Positions(ids), bound)
  {
    if ids != [] {
      var n := |ids| - 1;
      PositionsInvert(ids[..n], ids[n]);
    }
  }

  lemma IdsRise(ids: seq<RowId>, pos: map<RowId, nat>, nextId: RowId)
    requires IdsOk(ids, pos, nextId)
    ensures Rising(ids, nextId)
  {
  }

  // Contents.

  ghost function ContentBy(ids: seq<RowId>, logical: seq<Row>): Content
    requires |ids| == |logical|
  {
    if ids == [] then map[]
    else ContentBy(ids[..|ids| - 1], logical[..|ids| - 1])[ids[|ids| - 1] := logical[|ids| - 1]]
  }

  ghost function DropIds(ids: seq<RowId>, drop: set<nat>): set<RowId> {
    if ids == [] then {}
    else DropIds(ids[..|ids| - 1], drop) + if |ids| - 1 in drop then {ids[|ids| - 1]} else {}
  }

  lemma {:induction false} ContentByHas(ids: seq<RowId>, logical: seq<Row>, i: nat)
    requires |ids| == |logical| && i < |ids| && forall j, k :: 0 <= j < k < |ids| ==> ids[j] < ids[k]
    ensures ids[i] in ContentBy(ids, logical) && ContentBy(ids, logical)[ids[i]] == logical[i]
  {
    if i < |ids| - 1 {
      ContentByHas(ids[..|ids| - 1], logical[..|ids| - 1], i);
    }
  }

  lemma {:induction false} ContentByOnly(ids: seq<RowId>, logical: seq<Row>, id: RowId)
    requires |ids| == |logical| && id in ContentBy(ids, logical)
    ensures id in ids
  {
    if ids != [] && id != ids[|ids| - 1] {
      ContentByOnly(ids[..|ids| - 1], logical[..|ids| - 1], id);
    }
  }

  lemma ContentSame(ids: seq<RowId>, pos: map<RowId, nat>, nextId: RowId, logical: seq<Row>)
    requires IdsOk(ids, pos, nextId) && |logical| == |ids|
    ensures ContentOf(pos, logical) == ContentBy(ids, logical)
  {
    forall id
      ensures id in ContentOf(pos, logical) <==> id in ContentBy(ids, logical)
      ensures id in ContentOf(pos, logical) ==> ContentOf(pos, logical)[id] == ContentBy(ids, logical)[id]
    {
      if id in pos {
        ContentByHas(ids, logical, pos[id]);
      }
      if id in ContentBy(ids, logical) {
        ContentByOnly(ids, logical, id);
      }
    }
  }

  lemma {:induction false} DropIdsOnly(ids: seq<RowId>, drop: set<nat>, id: RowId)
    requires id in DropIds(ids, drop)
    ensures id in ids
  {
    if ids != [] && id != ids[|ids| - 1] {
      DropIdsOnly(ids[..|ids| - 1], drop, id);
    }
  }

  lemma {:induction false} KeepLength<A, B>(xs: seq<A>, ys: seq<B>, drop: set<nat>)
    requires |xs| == |ys|
    ensures |Keep(xs, drop)| == |Keep(ys, drop)|
  {
    if xs != [] {
      KeepLength(xs[..|xs| - 1], ys[..|ys| - 1], drop);
    }
  }

  lemma ContentBySnoc(ids: seq<RowId>, logical: seq<Row>, id: RowId, row: Row)
    requires |ids| == |logical|
    ensures ContentBy(ids + [id], logical + [row]) == ContentBy(ids, logical)[id := row]
  {
    assert (ids + [id])[..|ids|] == ids && (logical + [row])[..|ids|] == logical;
  }

  lemma DropLast(c: Content, d: set<RowId>, id: RowId, row: Row)
    requires id !in c && id !in d
    ensures c[id := row] - (d + {id}) == c - d
    ensures c[id := row] - d == (c - d)[id := row]
  {
  }

  lemma LastIsNew(ids: seq<RowId>, logical: seq<Row>, drop: set<nat>, id: RowId)
    requires |ids| == |logical| && forall i :: 0 <= i < |ids| ==> ids[i] < id
    ensures id !in ContentBy(ids, logical) && id !in DropIds(ids, drop)
  {
    if id in ContentBy(ids, logical) {
      ContentByOnly(ids, logical, id);
    }
    if id in DropIds(ids, drop) {
      DropIdsOnly(ids, drop, id);
    }
  }

  /** Keeping rows and ids together drops exactly the dropped ids from the contents. */
  lemma {:induction false} KeepContent(ids: seq<RowId>, logical: seq<Row>, drop: set<nat>, bound: RowId)
    requires |ids| == |logical| && Rising(ids, bound)
    ensures |Keep(ids, drop)| == |Keep(logical, drop)|
    ensures ContentBy(Keep(ids, drop), Keep(logical, drop)) == ContentBy(ids, logical) - DropIds(ids, drop)
  {
    KeepLength(ids, logical, drop);
    if ids != [] {
      var n := |ids| - 1;
      var ids0, logical0, id, row := ids[..n], logical[..n], ids[n], logical[n];
      KeepContent(ids0, logical0, drop, id);
      LastIsNew(ids0, logical0, drop, id);
      DropLast(ContentBy(ids0, logical0), DropIds(ids0, drop), id, row);
      if n in drop {
        assert Keep(ids, drop) == Keep(ids0, drop) && Keep(logical, drop) == Keep(logical0, drop);
      } else {
        ContentBySnoc(Keep(ids0, drop), Keep(logical0, drop), id, row);
        assert DropIds(ids, drop) == DropIds(ids0, drop);
      }
    }
  }

  // References and reading.

  ghost function DropRefs(rows: seq<Row>, drop: set<nat>): multiset<nat> {
    if rows == [] then multiset{}
    else DropRefs(rows[..|rows| - 1], drop) + if |rows| - 1 in drop then RowRefs(rows[|rows| - 1]) else multiset{}
  }

  lemma {:induction false} KeepRefs(rows: seq<Row>, drop: set<nat>)
    ensures AllRefs(Keep(rows, drop)) + DropRefs(rows, drop) == AllRefs(rows)
  {
    if rows != [] {
      var n := |rows| - 1;
      KeepRefs(rows[..n], drop);
      if n !in drop {
        var k := Keep(rows, drop);
        assert k[..|k| - 1] == Keep(rows[..n], drop);
        assert k[|k| - 1] == rows[n];
      } else {
        assert Keep(rows, drop) == Keep(rows[..n], drop);
      }
    }
  }

  lemma {:induction false} KeptIn<T>(xs: seq<T>, drop: set<nat>, i: nat)
    requires i < |xs| && i !in drop
    ensures xs[i] in Keep(xs, drop)
  {
    var n := |xs| - 1;
    if i < n {
      KeptIn(xs[..n], drop, i);
    }
  }

  lemma KeptWithin(rows: seq<Row>, drop: set<nat>, i: nat)
    requires i < |rows| && i !in drop
    ensures RowRefs(rows[i]) <= AllRefs(Keep(rows, drop))
  {
    var kept := Keep(rows, drop);
    KeptIn(rows, drop, i);
    var j :| 0 <= j < |kept| && kept[j] == rows[i];
    RowRefsWithin(kept, j);
  }

  ghost function Below(drop: set<nat>, n: nat): set<nat> {
    set k | k in drop && k < n
  }

  lemma {:induction false} DropRefsPrefix(rows: seq<Row>, drop: set<nat>, n: nat)
    requires n <= |rows|
    ensures DropRefs(rows[..n], drop) == DropRefs(rows, Below(drop, n))
  {
    if rows != [] {
      var m := |rows| - 1;
      if n <= m {
        DropRefsPrefix(rows[..m], drop, n);
        assert rows[..m][..n] == rows[..n];
        assert m !in Below(drop, n);
      } else {
        assert rows[..n] == rows;
        DropRefsAgree(rows, drop, Below(drop, n));
      }
    }
  }

  lemma {:induction false} DropRefsAgree(rows: seq<Row>, a: set<nat>, b: set<nat>)
    requires forall k :: 0 <= k < |rows| ==> (k in a <==> k in b)
    ensures DropRefs(rows, a) == DropRefs(rows, b)
  {
    if rows != [] {
      DropRefsAgree(rows[..|rows| - 1], a, b);
    }
  }

  lemma KeptRefsApart(rows: seq<Row>, drop: set<nat>, n: nat, i: nat)
    requires n <= |rows| && i < |rows| && (i >= n || i !in drop)
    ensures RowRefs(rows[i]) + DropRefs(rows[..n], drop) <= AllRefs(rows)
  {
    var d := Below(drop, n);
    DropRefsPrefix(rows, drop, n);
    KeptWithin(rows, d, i);
    KeepRefs(rows, d);
  }

  ghost function DropSet(rows: seq<Row>, drop: set<nat>): set<nat> {
    set id | id in DropRefs(rows, drop)
  }

  /** A row that is not dropped reads the same once the dropped rows' chunks are gone. */
  lemma KeptReads(rows: seq<Row>, side: Side, drop: set<nat>, n: nat, i: nat)
    requires SideExact(rows, side) && n <= |rows| && i < |rows| && (i >= n || i !in drop)
    ensures DetoastRow(rows[i], side.chunks - DropSet(rows[..n], drop)) == DetoastRow(rows[i], side.chunks)
  {
    KeptRefsApart(rows, drop, n, i);
    forall id | id in RowRefs(rows[i])
      ensures id in side.chunks && id !in DropSet(rows[..n], drop)
    {
      assert multiset(side.chunks.Keys)[id] <= 1;
      assert (RowRefs(rows[i]) + DropRefs(rows[..n], drop))[id] <= AllRefs(rows)[id];
    }
    DetoastFrame(rows[i], side.chunks, side.chunks - DropSet(rows[..n], drop));
  }

  lemma DropSetSnoc(rows: seq<Row>, drop: set<nat>, n: nat)
    requires n < |rows|
    ensures DropSet(rows[..n + 1], drop) == DropSet(rows[..n], drop) + if n in drop then RefSet(rows[n]) else {}
  {
    assert rows[..n + 1][..n] == rows[..n];
  }

  lemma DropIdsSnoc(ids: seq<RowId>, drop: set<nat>, n: nat)
    requires n < |ids|
    ensures DropIds(ids[..n + 1], drop) == DropIds(ids[..n], drop) + if n in drop then {ids[n]} else {}
  {
    assert ids[..n + 1][..n] == ids[..n];
  }

  lemma UnlinkChunksStep(s: State, drop: set<nat>, n: nat)
    requires n < |s.rows| && |s.rows| == |s.ids|
    requires Unlink(s, drop, n).1 == s.side.chunks - DropSet(s.rows[..n], drop)
    ensures Unlink(s, drop, n + 1).1 == s.side.chunks - DropSet(s.rows[..n + 1], drop)
  {
    var gone, more := DropSet(s.rows[..n], drop), RefSet(s.rows[n]);
    DropSetSnoc(s.rows, drop, n);
    if n in drop {
      assert Unlink(s, drop, n + 1).1 == Untoast(s.rows[n], Unlink(s, drop, n).1) == s.side.chunks - gone - more;
      MinusMore(s.side.chunks, gone, more);
    } else {
      assert gone + {} == gone;
    }
  }

  lemma {:induction false} UnlinkChunks(s: State, drop: set<nat>, n: nat)
    requires n <= |s.rows| && |s.rows| == |s.ids|
    ensures Unlink(s, drop, n).1 == s.side.chunks - DropSet(s.rows[..n], drop)
  {
    if n == 0 {
      assert DropSet(s.rows[..0], drop) == {};
    } else {
      UnlinkChunks(s, drop, n - 1);
      UnlinkChunksStep(s, drop, n - 1);
    }
  }

  lemma MinusMore<K, V>(m: map<K, V>, a: set<K>, b: set<K>)
    ensures m - a - b == m - (a + b)
  {
  }

  lemma StillThere(s: State, logical: seq<Row>, drop: set<nat>, n: nat)
    requires |s.rows| == |s.ids| && IdsOk(s.ids, s.pos, s.nextId) && n < |s.ids| && |logical| == |s.ids|
    ensures s.ids[n] in ContentOf(s.pos, logical) - DropIds(s.ids[..n], drop)
    ensures ContentOf(s.pos, logical)[s.ids[n]] == logical[n]
  {
    if s.ids[n] in DropIds(s.ids[..n], drop) {
      DropIdsOnly(s.ids[..n], drop, s.ids[n]);
    }
  }

  lemma {:induction false} UnlinkIndexes(s: State, logical: seq<Row>, drop: set<nat>, n: nat)
    requires Holds(s, logical) && n <= |s.rows|
    ensures AllIndexed(Unlink(s, drop, n).0, ContentOf(s.pos, logical) - DropIds(s.ids[..n], drop))
  {
    var content := ContentOf(s.pos, logical);
    if n == 0 {
      assert s.ids[..0] == [];
      assert content - {} == content;
    } else {
      UnlinkIndexes(s, logical, drop, n - 1);
      DropIdsSnoc(s.ids, drop, n - 1);
      if n - 1 in drop {
        UnlinkStep(s, logical, drop, n - 1);
      } else {
        assert DropIds(s.ids[..n], drop) == DropIds(s.ids[..n - 1], drop);
      }
    }
  }

  lemma UnlinkStep(s: State, logical: seq<Row>, drop: set<nat>, n: nat)
    requires Holds(s, logical) && n < |s.rows| && n in drop
    requires AllIndexed(Unlink(s, drop, n).0, ContentOf(s.pos, logical) - DropIds(s.ids[..n], drop))
    ensures AllIndexed(Unlink(s, drop, n + 1).0, ContentOf(s.pos, logical) - (DropIds(s.ids[..n], drop) + {s.ids[n]}))
  {
    var content := ContentOf(s.pos, logical);
    var left := content - DropIds(s.ids[..n], drop);
    UnlinkChunks(s, drop, n);
    KeptReads(s.rows, s.side, drop, n, n);
    StillThere(s, logical, drop, n);
    assert left[s.ids[n]] == DetoastRow(s.rows[n], Unlink(s, drop, n).1);
    UnindexRowKeeps(Unlink(s, drop, n).0, left, s.ids[n]);
    MinusMore(content, DropIds(s.ids[..n], drop), {s.ids[n]});
  }

  lemma {:induction false} KeepReads(rows: seq<Row>, chunks: map<nat, string>, logical: seq<Row>, drop: set<nat>)
    requires |rows| == |logical|
    requires forall i :: 0 <= i < |rows| && i !in drop ==> DetoastRow(rows[i], chunks) == logical[i]
    ensures Reads(Keep(rows, drop), chunks, Keep(logical, drop))
  {
    if rows != [] {
      KeepReads(rows[..|rows| - 1], chunks, logical[..|rows| - 1], drop);
    }
  }

  lemma {:induction false} KillPagesOk(pages: PageStore.Store, ids: seq<RowId>, drop: set<nat>, all: set<RowId>)
    requires PageStore.Valid(pages, PageSize) && pages.rowBytes.Keys == all
    requires forall i :: 0 <= i < |ids| ==> ids[i] in all
    requires forall i, j :: 0 <= i < j < |ids| ==> ids[i] < ids[j]
    ensures PageStore.Valid(KillPages(pages, ids, drop), PageSize)
    ensures KillPages(pages, ids, drop).rowBytes.Keys == all - DropIds(ids, drop)
  {
    if ids != [] {
      var n := |ids| - 1;
      KillPagesOk(pages, ids[..n], drop, all);
      if n in drop {
        if ids[n] in DropIds(ids[..n], drop) {
          DropIdsOnly(ids[..n], drop, ids[n]);
        }
        PageStore.MarkDeadKeeps(KillPages(pages, ids[..n], drop), ids[n], PageSize);
      }
    }
  }

  lemma DeleteSide(s: State, logical: seq<Row>, drop: set<nat>)
    requires |s.rows| == |s.ids| && SideExact(s.rows, s.side) && Reads(s.rows, s.side.chunks, logical)
    ensures SideExact(Keep(s.rows, drop), s.side.(chunks := Unlink(s, drop, |s.rows|).1))
    ensures Reads(Keep(s.rows, drop), Unlink(s, drop, |s.rows|).1, Keep(logical, drop))
  {
    var n := |s.rows|;
    assert s.rows[..n] == s.rows;
    UnlinkChunks(s, drop, n);
    KeepRefs(s.rows, drop);
    MinusRefs(s.side.chunks.Keys, DropRefs(s.rows, drop), AllRefs(Keep(s.rows, drop)));
    assert (s.side.chunks - DropSet(s.rows, drop)).Keys == s.side.chunks.Keys - DropSet(s.rows, drop);
    forall i | 0 <= i < n && i !in drop
      ensures DetoastRow(s.rows[i], Unlink(s, drop, n).1) == logical[i]
    {
      KeptReads(s.rows, s.side, drop, n, i);
    }
    KeepReads(s.rows, Unlink(s, drop, n).1, logical, drop);
  }

  lemma DeleteIds(s: State, logical: seq<Row>, drop: set<nat>)
    requires IdsOk(s.ids, s.pos, s.nextId) && |logical| == |s.ids|
    ensures var ids := Keep(s.ids, drop);
      && IdsOk(ids, Positions(ids), s.nextId)
      && Positions(ids).Keys == s.pos.Keys - DropIds(s.ids, drop)
      && |ids| == |Keep(logical, drop)|
      && ContentOf(Positions(ids), Keep(logical, drop)) == ContentOf(s.pos, logical) - DropIds(s.ids, drop)
  {
    var ids := Keep(s.ids, drop);
    IdsRise(s.ids, s.pos, s.nextId);
    KeepRising(s.ids, drop, s.nextId);
    PositionsInvert(ids, s.nextId);
    KeepContent(s.ids, logical, drop, s.nextId);
    ContentSame(s.ids, s.pos, s.nextId, logical);
    ContentSame(ids, Positions(ids), s.nextId, Keep(logical, drop));
    assert ContentOf(s.pos, logical).Keys == s.pos.Keys;
    assert ContentOf(Positions(ids), Keep(logical, drop)).Keys == Positions(ids).Keys;
  }

  /** Deleting a set of positions removes exactly those logical rows. */
  lemma DeleteHolds(s: State, logical: seq<Row>, drop: set<nat>)
    requires Holds(s, logical)
    ensures Holds(DeleteRows(s, drop), Keep(logical, drop))
  {
    var n := |s.rows|;
    assert s.ids[..n] == s.ids;
    DeleteIds(s, logical, drop);
    DeleteSide(s, logical, drop);
    UnlinkIndexes(s, logical, drop, n);
    KillPagesOk(s.pages, s.ids, drop, s.pos.Keys);
    KeepLength(s.rows, s.ids, drop);
  }

  // --- truncate, vacuum, create_index --------------------------------------------------------------

  function MethodOf(st: Store): IndexMethod {
    match st
    case Btree(_) => BtreeMethod
    case Hash(_) => HashMethod
    case Brin(_) => BrinMethod
    case Gin(_, _) => GinMethod
  }

  function ClearOne(idx: Index): Index {
    idx.(store := EmptyStore(MethodOf(idx.store)))
  }

  function ClearIndexes(ixs: seq<Index>): (r: seq<Index>)
    ensures |r| == |ixs| && forall i :: 0 <= i < |ixs| ==> r[i] == ClearOne(ixs[i])
  {
    if ixs == [] then [] else ClearIndexes(ixs[..|ixs| - 1]) + [ClearOne(ixs[|ixs| - 1])]
  }

  lemma ClearedIndexed(ixs: seq<Index>)
    ensures AllIndexed(ClearIndexes(ixs), map[])
  {
    forall i | 0 <= i < |ixs|
      ensures Indexed(ClearIndexes(ixs)[i], map[])
    {
      EmptyRepresents(MethodOf(ixs[i].store));
      assert EntriesOf(ClearOne(ixs[i]), map[]) == map[];
    }
  }

  /** Everything is cleared except the two id counters. */
  function Truncate(s: State): State {
    s.(rows := [], ids := [], pos := map[], indexes := ClearIndexes(s.indexes),
       side := s.side.(chunks := map[]), pages := PageStore.EmptyStore)
  }

  lemma TruncateHolds(s: State, logical: seq<Row>)
    requires Holds(s, logical)
    ensures Holds(Truncate(s), [])
  {
    assert ContentOf(map[], []) == map[];
    ClearedIndexed(s.indexes);
  }

  /** Rows with the size of their stored form, as the rebuild places them. */
  function SizedRows(ids: seq<RowId>, rows: seq<Row>): seq<(RowId, nat)>
    requires |ids| == |rows|
  {
    if ids == [] then []
    else SizedRows(ids[..|ids| - 1], rows[..|ids| - 1]) + [(ids[|ids| - 1], RowBytes(rows[|ids| - 1]))]
  }

  function Vacuum(s: State): State
    requires |s.ids| == |s.rows|
  {
    s.(pages := PageStore.Rebuild(SizedRows(s.ids, s.rows), PageSize))
  }

  lemma {:induction false} SizedRowsOk(ids: seq<RowId>, rows: seq<Row>, bound: RowId)
    requires |ids| == |rows| && Rising(ids, bound)
    ensures PageStore.WellSized(SizedRows(ids, rows))
    ensures forall id :: id in PageStore.Sizes(SizedRows(ids, rows)) <==> id in ids
  {
    if ids != [] {
      var n := |ids| - 1;
      SizedRowsOk(ids[..n], rows[..n], ids[n]);
      var sized := SizedRows(ids, rows);
      assert sized[..|sized| - 1] == SizedRows(ids[..n], rows[..n]);
      assert ids == ids[..n] + [ids[n]];
    }
  }

  /** A vacuum changes no row, keeps every live row placed and leaves nothing dead. */
  lemma VacuumHolds(s: State, logical: seq<Row>)
    requires Holds(s, logical)
    ensures Holds(Vacuum(s), logical)
    ensures PageStore.NothingDead(Vacuum(s).pages.pages)
  {
    IdsRise(s.ids, s.pos, s.nextId);
    SizedRowsOk(s.ids, s.rows, s.nextId);
    PageStore.RebuildKeeps(SizedRows(s.ids, s.rows), PageSize);
    assert Vacuum(s).pages.rowBytes.Keys == s.pos.Keys;
  }

  function Populate(idx: Index, ids: seq<RowId>, rows: seq<Row>): Index
    requires |ids| == |rows|
  {
    if ids == [] then idx
    else
      var n := |ids| - 1;
      IndexOne(Populate(idx, ids[..n], rows[..n]), rows[n], ids[n])
  }

  /** `add_and_populate_index`: it reads the stored cells. */
  function CreateIndex(s: State, spec: KeySpec, partial: Option<Row -> bool>, m: IndexMethod): State
    requires |s.ids| == |s.rows|
  {
    s.(indexes := s.indexes + [Populate(Index(spec, partial, EmptyStore(m)), s.ids, s.rows)])
  }

  lemma {:induction false} PopulateIndexed(idx: Index, ids: seq<RowId>, rows: seq<Row>, bound: RowId)
    requires |ids| == |rows| && Rising(ids, bound) && Indexed(idx, map[])
    ensures Indexed(Populate(idx, ids, rows), ContentBy(ids, rows))
  {
    if ids != [] {
      var n := |ids| - 1;
      PopulateIndexed(idx, ids[..n], rows[..n], ids[n]);
      LastIsNew(ids[..n], rows[..n], {}, ids[n]);
      IndexOneKeeps(Populate(idx, ids[..n], rows[..n]), ContentBy(ids[..n], rows[..n]), rows[n], ids[n]);
    }
  }

  /** With an empty side store the stored rows are the logical rows. */
  lemma NothingToasted(rows: seq<Row>, side: Side, logical: seq<Row>)
    requires SideExact(rows, side) && Reads(rows, side.chunks, logical) && side.chunks == map[]
    ensures rows == logical
  {
    forall i | 0 <= i < |rows|
      ensures rows[i] == logical[i]
    {
      RowRefsWithin(rows, i);
      assert AllRefs(rows) == multiset{};
      forall j | 0 <= j < |rows[i]|
        ensures Detoast(rows[i][j], side.chunks) == rows[i][j]
      {
        RefsInRow(rows[i], j);
      }
    }
  }

  /** The index files the stored rows as it would file the logical ones. */
  ghost predicate SameEntries(idx: Index, rows: seq<Row>, logical: seq<Row>) {
    && |rows| == |logical|
    && forall p :: 0 <= p < |rows| ==> SameFiled(idx.store, EntryFor(idx, rows[p]), EntryFor(idx, logical[p]))
  }

  lemma {:induction false} PopulateSpec(idx: Index, ids: seq<RowId>, rows: seq<Row>)
    requires |ids| == |rows|
    ensures var idx' := Populate(idx, ids, rows);
            idx'.spec == idx.spec && idx'.partial == idx.partial && OneKind(idx'.store, idx.store)
  {
    if ids != [] {
      PopulateSpec(idx, ids[..|ids| - 1], rows[..|ids| - 1]);
    }
  }

  /** The new index holds the entries of the stored rows. */
  lemma PopulatedStored(s: State, logical: seq<Row>, spec: KeySpec, partial: Option<Row -> bool>, m: IndexMethod)
    requires Holds(s, logical)
    ensures var idx' := Populate(Index(spec, partial, EmptyStore(m)), s.ids, s.rows);
            Indexed(idx', ContentBy(s.ids, s.rows)) && ContentOf(s.pos, logical) == ContentBy(s.ids, logical)
  {
    var idx := Index(spec, partial, EmptyStore(m));
    EmptyRepresents(m);
    assert EntriesOf(idx, map[]) == map[];
    IdsRise(s.ids, s.pos, s.nextId);
    PopulateIndexed(idx, s.ids, s.rows, s.nextId);
    ContentSame(s.ids, s.pos, s.nextId, logical);
  }

  /** The entry of a row is that of its id. */
  lemma EntryAt(idx: Index, ids: seq<RowId>, rows: seq<Row>, p: nat)
    requires |ids| == |rows| && p < |ids| && forall i, j :: 0 <= i < j < |ids| ==> ids[i] < ids[j]
    ensures KeyAt(EntriesOf(idx, ContentBy(ids, rows)), ids[p]) == EntryFor(idx, rows[p])
  {
    ContentByHas(ids, rows, p);
  }

  /** Row by row is the same as id by id. */
  lemma FiledByRow(idx: Index, ids: seq<RowId>, rows: seq<Row>, logical: seq<Row>)
    requires |ids| == |rows| == |logical| && forall i, j :: 0 <= i < j < |ids| ==> ids[i] < ids[j]
    ensures AllSameFiled(idx.store, EntriesOf(idx, ContentBy(ids, rows)), EntriesOf(idx, ContentBy(ids, logical)))
            <==> SameEntries(idx, rows, logical)
  {
    var a, b := EntriesOf(idx, ContentBy(ids, rows)), EntriesOf(idx, ContentBy(ids, logical));
    forall p | 0 <= p < |ids|
      ensures KeyAt(a, ids[p]) == EntryFor(idx, rows[p]) && KeyAt(b, ids[p]) == EntryFor(idx, logical[p])
    {
      EntryAt(idx, ids, rows, p);
      EntryAt(idx, ids, logical, p);
    }
    if SameEntries(idx, rows, logical) {
      forall id | id in a || id in b
        ensures SameFiled(idx.store, KeyAt(a, id), KeyAt(b, id))
      {
        var p := PlaceOf(ids, rows, logical, id);
      }
    }
    if AllSameFiled(idx.store, a, b) {
      forall p | 0 <= p < |ids|
        ensures SameFiled(idx.store, EntryFor(idx, rows[p]), EntryFor(idx, logical[p]))
      {
        assert ids[p] !in a && ids[p] !in b ==> SameFiled(idx.store, None, None);
      }
    }
  }

  lemma PlaceOf(ids: seq<RowId>, rows: seq<Row>, logical: seq<Row>, id: RowId) returns (p: nat)
    requires |ids| == |rows| == |logical| && (id in ContentBy(ids, rows) || id in ContentBy(ids, logical))
    ensures p < |ids| && ids[p] == id
  {
    if id in ContentBy(ids, rows) {
      ContentByOnly(ids, rows, id);
    } else {
      ContentByOnly(ids, logical, id);
    }
    p :| 0 <= p < |ids| && ids[p] == id;
  }

  /** An index built over existing rows, of any method, agrees with the logical rows exactly
      when it files the stored rows as it would file those. */
  lemma CreateIndexExactly(s: State, logical: seq<Row>, spec: KeySpec, partial: Option<Row -> bool>, m: IndexMethod)
    requires Holds(s, logical)
    ensures Holds(CreateIndex(s, spec, partial, m), logical) <==>
            SameEntries(Index(spec, partial, EmptyStore(m)), s.rows, logical)
  {
    var idx := Index(spec, partial, EmptyStore(m));
    var idx' := Populate(idx, s.ids, s.rows);
    PopulatedStored(s, logical, spec, partial, m);
    PopulateSpec(idx, s.ids, s.rows);
    var stored, wanted := EntriesOf(idx', ContentBy(s.ids, s.rows)), EntriesOf(idx', ContentBy(s.ids, logical));
    RepresentsExactly(idx'.store, stored, wanted);
    FiledByRow(idx', s.ids, s.rows, logical);
    SameEntriesKind(idx, idx', s.rows, logical);
    OneMore(s, logical, idx');
  }

  lemma SameEntriesKind(idx: Index, idx': Index, rows: seq<Row>, logical: seq<Row>)
    requires idx'.spec == idx.spec && idx'.partial == idx.partial && OneKind(idx'.store, idx.store)
    ensures SameEntries(idx, rows, logical) <==> SameEntries(idx', rows, logical)
  {
    assert forall row :: EntryFor(idx', row) == EntryFor(idx, row);
    assert forall a, b :: SameFiled(idx.store, a, b) == SameFiled(idx'.store, a, b);
  }

  /** A table with one more index holds the rows exactly when that index does. */
  lemma OneMore(s: State, logical: seq<Row>, idx: Index)
    requires Holds(s, logical)
    ensures Holds(s.(indexes := s.indexes + [idx]), logical) <==> Indexed(idx, ContentOf(s.pos, logical))
  {
    var ixs := s.indexes + [idx];
    assert ixs[|s.indexes|] == idx;
    assert forall i :: 0 <= i < |s.indexes| ==> ixs[i] == s.indexes[i];
  }

  /** In particular when the stored rows have the keys of the logical ones. */
  lemma CreateIndexHolds(s: State, logical: seq<Row>, spec: KeySpec, partial: Option<Row -> bool>, m: IndexMethod)
    requires Holds(s, logical)
    requires var idx := Index(spec, partial, EmptyStore(m));
             forall p :: 0 <= p < |s.rows| ==> EntryFor(idx, s.rows[p]) == EntryFor(idx, logical[p])
    ensures Holds(CreateIndex(s, spec, partial, m), logical)
  {
    CreateIndexExactly(s, logical, spec, partial, m);
  }

  /** And so any index while nothing is toasted. */
  lemma CreateIndexPlain(s: State, logical: seq<Row>, spec: KeySpec, partial: Option<Row -> bool>, m: IndexMethod)
    requires Holds(s, logical) && s.side.chunks == map[]
    ensures Holds(CreateIndex(s, spec, partial, m), logical)
  {
    NothingToasted(s.rows, s.side, logical);
    CreateIndexHolds(s, logical, spec, partial, m);
  }

  // --- Every run ----------------------------------------------------------------------------------------

  datatype Op =
    | Push(row: Row)
    | Update(p: nat, row: Row)
    | Delete(positions: set<nat>)
    | TruncateAll
    | VacuumAll
    | NewIndex(spec: KeySpec, partial: Option<Row -> bool>, how: IndexMethod)

  const Empty := State([], [], map[], 0, [], EmptySide, PageStore.EmptyStore)

  /** The rows a reader sees. */
  ghost function LogicalOf(s: State): (logical: seq<Row>)
    ensures |logical| == |s.rows|
    ensures forall p :: 0 <= p < |s.rows| ==> logical[p] == DetoastRow(s.rows[p], s.side.chunks)
  {
    seq(|s.rows|, p requires 0 <= p < |s.rows| => DetoastRow(s.rows[p], s.side.chunks))
  }

  /** What callers must respect: positions exist, texts are not shaped like
      pointers, and an index is built while it files the stored rows as the logical ones. */
  ghost predicate Legal(s: State, op: Op) {
    |s.rows| == |s.ids| &&
    match op
    case Push(row) => PlainRow(row) && Room(row, s.side)
    case Update(p, row) => p < |s.rows| && PlainRow(row) && Room(row, s.side)
    case Delete(positions) => forall p :: p in positions ==> p < |s.rows|
    case NewIndex(spec, partial, how) => SameEntries(Index(spec, partial, EmptyStore(how)), s.rows, LogicalOf(s))
    case _ => true
  }

  ghost function Step(s: State, op: Op): State
    requires Legal(s, op)
  {
    match op
    case Push(row) => PushRow(s, row)
    case Update(p, row) => UpdateRow(s, p, row)
    case Delete(positions) => DeleteRows(s, positions)
    case TruncateAll => Truncate(s)
    case VacuumAll => Vacuum(s)
    case NewIndex(spec, partial, how) => CreateIndex(s, spec, partial, how)
  }

  /** The same operation on plain rows. */
  ghost function LogicalStep(rows: seq<Row>, op: Op): seq<Row> {
    match op
    case Push(row) => rows + [row]
    case Update(p, row) => if p < |rows| then rows[p := row] else rows
    case Delete(positions) => Keep(rows, positions)
    case TruncateAll => []
    case _ => rows
  }

  ghost function LogicalRun(ops: seq<Op>): seq<Row> {
    if ops == [] then [] else LogicalStep(LogicalRun(ops[..|ops| - 1]), ops[|ops| - 1])
  }

  ghost predicate IsRun(ops: seq<Op>)
    decreases |ops|, 0
  {
    ops == [] || (IsRun(ops[..|ops| - 1]) && Legal(After(ops[..|ops| - 1]), ops[|ops| - 1]))
  }

  ghost function After(ops: seq<Op>): State
    requires IsRun(ops)
    decreases |ops|, 1
  {
    if ops == [] then Empty else Step(After(ops[..|ops| - 1]), ops[|ops| - 1])
  }

  lemma NewIndexHolds(s: State, logical: seq<Row>, spec: KeySpec, partial: Option<Row -> bool>, m: IndexMethod)
    requires Holds(s, logical) && Legal(s, NewIndex(spec, partial, m))
    ensures Holds(CreateIndex(s, spec, partial, m), logical)
  {
    assert LogicalOf(s) == logical;
    CreateIndexExactly(s, logical, spec, partial, m);
  }

  lemma StepHolds(s: State, logical: seq<Row>, op: Op)
    requires Holds(s, logical) && Legal(s, op)
    ensures Holds(Step(s, op), LogicalStep(logical, op))
  {
    match op
    case Push(row) => PushHolds(s, logical, row);
    case Update(p, row) => UpdateHolds(s, logical, p, row);
    case Delete(positions) => DeleteHolds(s, logical, positions);
    case TruncateAll => TruncateHolds(s, logical);
    case VacuumAll => VacuumHolds(s, logical);
    case NewIndex(spec, partial, how) => NewIndexHolds(s, logical, spec, partial, how);
  }

  /** After every run the table holds exactly the plain rows, and all derived
      structures agree with them. */
  lemma {:induction false} RunHolds(ops: seq<Op>)
    requires IsRun(ops)
    ensures Holds(After(ops), LogicalRun(ops))
  {
    if ops != [] {
      RunHolds(ops[..|ops| - 1]);
      StepHolds(After(ops[..|ops| - 1]), LogicalRun(ops[..|ops| - 1]), ops[|ops| - 1]);
    }
  }

  // --- An index built over a toasted cell --------------------------------------------------------

  lemma OnePush(row: Row)
    requires PlainRow(row) && Room(row, EmptySide)
    ensures IsRun([Push(row)]) && LogicalRun([Push(row)]) == [row]
    ensures After([Push(row)]) == PushRow(Empty, row) && Holds(After([Push(row)]), [row])
  {
    var ops := [Push(row)];
    assert ops[..0] == [] && LogicalRun([]) == [];
    assert LogicalRun(ops) == [] + [row];
    RunHolds(ops);
  }

  lemma KeyOne(c: nat, row: Row)
    requires c < |row|
    ensures KeyOf(Columns([c]), row) == Some([row[c]])
  {
    assert KeyOf(Columns([c]), row).value == [row[c]];
  }

  /** Except for GIN, such an index files the pointer, and so disagrees with the logical rows. */
  lemma ToastedIndexDiffers(row: Row, c: nat, m: IndexMethod)
    requires c < |row| && PlainRow(row) && Room(row, EmptySide) && Oversized(row[c]) && !m.GinMethod?
    ensures IsRun([Push(row)]) && LogicalRun([Push(row)]) == [row]
    ensures !Holds(CreateIndex(After([Push(row)]), Columns([c]), None, m), [row])
  {
    OnePush(row);
    var s, idx := After([Push(row)]), Index(Columns([c]), None, EmptyStore(m));
    CreateIndexExactly(s, [row], Columns([c]), None, m);
    ToastedCell(row, EmptySide, c);
    var stored := ToastRow(row, EmptySide).0;
    assert s.rows == [stored];
    KeyOne(c, stored);
    KeyOne(c, row);
    TextsFiledApart(idx.store, stored[c], row[c]);
    assert !SameFiled(idx.store, EntryFor(idx, s.rows[0]), EntryFor(idx, [row][0]));
  }

  lemma TextsFiledApart(st: Store, v: Value, w: Value)
    requires v.Text? && w.Text? && v != w && !st.Gin?
    ensures !SameFiled(st, Some([v]), Some([w]))
  {
    HashOne(v);
    HashOne(w);
    var a, b := HashPart(v), HashPart(w);
    assert a[1..|a| - 1] == v.s && b[1..|b| - 1] == w.s;
    assert forall x :: x in [v] + [w] ==> !x.Null?;
  }

  lemma HashOne(v: Value)
    ensures HashKey([v]) == HashPart(v)
  {
    assert [v][1..] == [];
    assert HashKey([v]) == HashPart(v) + "";
  }

  /** A hash index over two columns agrees even so when the other one is NULL: neither key
      is filed. */
  lemma NullHidesToast(v: Value)
    requires PointerId(v).None? && Room([v, Null], EmptySide) && Oversized(v)
    ensures var ops := [Push([v, Null])];
            && IsRun(ops) && |After(ops).rows| == 1 && |After(ops).rows[0]| == 2 && After(ops).rows[0][0] != v
            && Holds(CreateIndex(After(ops), Columns([0, 1]), None, HashMethod), [[v, Null]])
  {
    var row := [v, Null];
    assert PlainRow(row);
    OnePush(row);
    var stored := ToastRow(row, EmptySide).0;
    ToastedCell(row, EmptySide, 0);
    assert row[..1] == [v] && stored[1] == Null;
    NullHides(After([Push(row)]), row, stored);
  }

  lemma NullHides(s: State, row: Row, stored: Row)
    requires Holds(s, [row]) && s.rows == [stored] && |row| == |stored| == 2 && row[1].Null? && stored[1].Null?
    ensures Holds(CreateIndex(s, Columns([0, 1]), None, HashMethod), [row])
  {
    CreateIndexExactly(s, [row], Columns([0, 1]), None, HashMethod);
    KeyTwo(stored);
    KeyTwo(row);
    var a, b := [stored[0], stored[1]], [row[0], row[1]];
    assert a[1] in a && b[1] in b;
    assert HasNull(a) && HasNull(b);
  }

  lemma KeyTwo(row: Row)
    requires |row| == 2
    ensures KeyOf(Columns([0, 1]), row) == Some([row[0], row[1]])
  {
    assert KeyOf(Columns([0, 1]), row).value == [row[0], row[1]];
  }

  /** First fit over every run: more than half of the page space is in use. No two pages
      would fit on one of 8192 bytes, and a page with more than one row version fits it. */
  lemma RunHalfFull(ops: seq<Op>)
    requires IsRun(ops)
    ensures var pages := After(ops).pages.pages;
            && (|pages| >= 2 ==> (|pages| / 2) * 8192 < PageStore.TotalUsed(pages))
            && (forall i, j :: 0 <= i < j < |pages| ==> pages[i].UsedBytes() + pages[j].UsedBytes() > 8192)
            && (forall i :: 0 <= i < |pages| && pages[i].liveRows + pages[i].deadRows > 1 ==>
                  pages[i].UsedBytes() <= 8192)
  {
    RunHolds(ops);
    PageStore.HalfFull(After(ops).pages.pages, PageSize);
  }

  lemma {:induction false} KeepOnly<T>(xs: seq<T>, drop: set<nat>, x: T)
    requires x in Keep(xs, drop)
    ensures x in xs
  {
    var n := |xs| - 1;
    if x in Keep(xs[..n], drop) {
      KeepOnly(xs[..n], drop, x);
    }
  }

  lemma StepIds(s: State, op: Op, id: RowId)
    requires Legal(s, op) && id in Step(s, op).ids
    ensures id in s.ids || id == s.nextId
    ensures s.nextId <= Step(s, op).nextId
  {
    if op.Delete? {
      KeepOnly(s.ids, op.positions, id);
    }
  }

  lemma StepNext(s: State, op: Op)
    requires Legal(s, op)
    ensures s.nextId <= Step(s, op).nextId
  {
  }

  lemma RunOn(ops: seq<Op>, more: seq<Op>)
    requires IsRun(ops + more) && more != []
    ensures var n := |more| - 1;
            && IsRun(ops + more[..n]) && Legal(After(ops + more[..n]), more[n])
            && After(ops + more) == Step(After(ops + more[..n]), more[n])
  {
    var all := ops + more;
    SnocParts(ops, more);
    RunLast(all, all[..|all| - 1], all[|all| - 1]);
  }

  lemma SnocParts<T>(xs: seq<T>, ys: seq<T>)
    requires ys != []
    ensures (xs + ys)[..|xs + ys| - 1] == xs + ys[..|ys| - 1] && (xs + ys)[|xs + ys| - 1] == ys[|ys| - 1]
  {
  }

  lemma RunLast(ops: seq<Op>, init: seq<Op>, last: Op)
    requires IsRun(ops) && ops != [] && init == ops[..|ops| - 1] && last == ops[|ops| - 1]
    ensures IsRun(init) && Legal(After(init), last) && After(ops) == Step(After(init), last)
  {
  }

  /** A row id that is gone never comes back. */
  lemma {:induction false} IdsNotReused(ops: seq<Op>, more: seq<Op>, id: RowId)
    requires IsRun(ops + more) && IsRun(ops)
    requires id < After(ops).nextId && id !in After(ops).ids
    ensures id !in After(ops + more).ids && After(ops).nextId <= After(ops + more).nextId
  {
    if more == [] {
      assert ops + more == ops;
    } else {
      var n := |more| - 1;
      RunOn(ops, more);
      IdsNotReused(ops, more[..n], id);
      var s := After(ops + more[..n]);
      StepNext(s, more[n]);
      if id in Step(s, more[n]).ids {
        StepIds(s, more[n], id);
      }
    }
  }
}
