/** The table object. Each method changes the fields step by step in the order the
engine does; its contract equates the new state with `TableState`'s function of
the old one. The side-store fields and the page-accounting fields are kept
together as one record each.
*/
module Table {
  import opened Collections
  import opened Values
  import opened IndexStore
  import opened Toast
  import opened TableState

  /** The mask marks the dropped positions. */
  ghost predicate Masks(mask: seq<bool>, drop: set<nat>) {
    forall p :: 0 <= p < |mask| ==> (mask[p] <==> p in drop)
  }

  lemma KeepNext<T>(s: seq<T>, p: nat, drop: set<nat>)
    requires p < |s|
    ensures Keep(s[..p + 1], drop) == if p in drop then Keep(s[..p], drop) else Keep(s[..p], drop) + [s[p]]
  {
    assert s[..p + 1][..p] == s[..p];
  }

  lemma PositionsSnoc(ids: seq<RowId>, id: RowId)
    ensures Positions(ids + [id]) == Positions(ids)[id := |ids|]
  {
    assert (ids + [id])[..|ids|] == ids;
  }

  /** The rows and ids kept of the first `p`, and where they now are. */
  ghost predicate Compacted(rows: seq<Row>, ids: seq<RowId>, drop: set<nat>, p: nat,
                            newRows: seq<Row>, newIds: seq<RowId>, newPos: map<RowId, nat>)
    requires p <= |rows| == |ids|
  {
    && newRows == Keep(rows[..p], drop) && newIds == Keep(ids[..p], drop)
    && |newRows| == |newIds| && newPos == Positions(newIds)
  }

  lemma CompactedNext(rows: seq<Row>, ids: seq<RowId>, drop: set<nat>, p: nat,
                      newRows: seq<Row>, newIds: seq<RowId>, newPos: map<RowId, nat>)
    requires p < |rows| == |ids| && Compacted(rows, ids, drop, p, newRows, newIds, newPos)
    ensures if p in drop then Compacted(rows, ids, drop, p + 1, newRows, newIds, newPos)
            else Compacted(rows, ids, drop, p + 1, newRows + [rows[p]], newIds + [ids[p]], newPos[ids[p] := |newRows|])
  {
    KeepNext(rows, p, drop);
    KeepNext(ids, p, drop);
    PositionsSnoc(newIds, ids[p]);
  }

  /** The rows and ids not masked, and where they now are. */
  method Unmasked(rows: seq<Row>, ids: seq<RowId>, mask: seq<bool>, ghost drop: set<nat>)
    returns (newRows: seq<Row>, newIds: seq<RowId>, newPos: map<RowId, nat>)
    requires |mask| == |rows| == |ids| && Masks(mask, drop)
    ensures newRows == Keep(rows, drop) && newIds == Keep(ids, drop) && newPos == Positions(newIds)
  {
    newRows, newIds, newPos := [], [], map[];
    for p := 0 to |mask|
      invariant Compacted(rows, ids, drop, p, newRows, newIds, newPos)
    {
      CompactedNext(rows, ids, drop, p, newRows, newIds, newPos);
      if !mask[p] {
        newPos := newPos[ids[p] := |newRows|];
        newRows, newIds := newRows + [rows[p]], newIds + [ids[p]];
      }
    }
    assert rows[..|mask|] == rows && ids[..|mask|] == ids;
  }

  class Table {
    var rows: seq<Row>
    var rowIds: seq<RowId>
    var rowPos: map<RowId, nat>
    var nextRowId: RowId
    var indexes: seq<Index>
    var side: Side
    var pages: PageStore.Store

    ghost function Now(): State
      reads this
    {
      State(rows, rowIds, rowPos, nextRowId, indexes, side, pages)
    }

    constructor ()
      ensures Now() == Empty
    {
      rows, rowIds, rowPos, nextRowId := [], [], map[], 0;
      indexes, side, pages := [], EmptySide, PageStore.EmptyStore;
    }

    /** Evaluate the key for each index and insert it where the row qualifies. */
    method AddToIndexes(row: Row, id: RowId)
      modifies this`indexes
      ensures indexes == IndexRow(old(indexes), row, id)
    {
      var ixs := indexes;
      var done: seq<Index> := [];
      for i := 0 to |ixs|
        invariant |done| == i && forall k :: 0 <= k < i ==> done[k] == IndexOne(ixs[k], row, id)
      {
        var entry := EntryFor(ixs[i], row);
        if entry.Some? {
          done := done + [ixs[i].(store := Insert(ixs[i].store, entry.value, id))];
        } else {
          done := done + [ixs[i]];
        }
      }
      assert done == IndexRow(ixs, row, id);
      indexes := done;
    }

    method RemoveFromIndexes(row: Row, id: RowId)
      modifies this`indexes
      ensures indexes == UnindexRow(old(indexes), row, id)
    {
      var ixs := indexes;
      var done: seq<Index> := [];
      for i := 0 to |ixs|
        invariant |done| == i && forall k :: 0 <= k < i ==> done[k] == UnindexOne(ixs[k], row, id)
      {
        var entry := EntryFor(ixs[i], row);
        if entry.Some? {
          done := done + [ixs[i].(store := Remove(ixs[i].store, entry.value, id))];
        } else {
          done := done + [ixs[i]];
        }
      }
      assert done == UnindexRow(ixs, row, id);
      indexes := done;
    }

    /** `page_for` and `assign_live_storage`: the first page with room, or a new one. */
    method AssignLiveStorage(id: RowId, bytes: nat)
      modifies this`pages
      ensures pages == PageStore.Assign(old(pages), id, bytes, PageSize)
    {
      var all := pages.pages;
      var k := 0;
      while k < |all| && !all[k].CanFit(bytes, PageSize)
        invariant 0 <= k <= |all|
        invariant forall i :: 0 <= i < k ==> !all[i].CanFit(bytes, PageSize)
      {
        k := k + 1;
      }
      assert k == PageStore.FirstFit(pages.pages, bytes, PageSize);
      if k == |all| {
        all := all + [PageStore.NewPage(k)];
      }
      pages := PageStore.Store(all[k := all[k].AddLive(bytes)], pages.rowPage[id := k], pages.rowBytes[id := bytes]);
    }

    method MarkDeadStorage(id: RowId)
      requires pages.rowPage.Keys == pages.rowBytes.Keys
      modifies this`pages
      ensures pages == PageStore.MarkDead(old(pages), id)
      ensures pages.rowPage.Keys == pages.rowBytes.Keys
    {
      if id !in pages.rowPage {
        return;
      }
      var p, bytes, all := pages.rowPage[id], pages.rowBytes[id], pages.pages;
      if p < |all| {
        all := all[p := all[p].MarkDead(bytes)];
      }
      pages := PageStore.Store(all, pages.rowPage - {id}, pages.rowBytes - {id});
    }

    /** The index and page part of an insert. */
    method PlaceNew(id: RowId, row: Row)
      modifies this`indexes, this`pages
      ensures indexes == IndexRow(old(indexes), row, id)
      ensures pages == PageStore.Assign(old(pages), id, RowBytes(row), PageSize)
    {
      AddToIndexes(row, id);
      AssignLiveStorage(id, RowBytes(row));
    }

    /** The row part of an insert. */
    method AppendRow(id: RowId, row: Row)
      modifies this`rows, this`rowIds, this`rowPos, this`side
      ensures rows == old(rows) + [ToastRow(row, old(side)).0] && side == ToastRow(row, old(side)).1
      ensures rowIds == old(rowIds) + [id] && rowPos == old(rowPos)[id := |old(rows)|]
    {
      var pos := |rows|;
      var stored, chunks, next := ToastCells(row, side.chunks, side.next);
      rows, rowIds, rowPos, side := rows + [stored], rowIds + [id], rowPos[id := pos], Side(chunks, next);
    }

    method PushRow(row: Row)
      modifies this
      ensures Now() == TableState.PushRow(old(Now()), row)
    {
      var id := nextRowId;
      nextRowId := nextRowId + 1;
      PlaceNew(id, row);
      AppendRow(id, row);
    }

    /** The index and page part of an update. */
    method Replace(id: RowId, prior: Row, row: Row)
      requires pages.rowPage.Keys == pages.rowBytes.Keys
      modifies this`indexes, this`pages
      ensures indexes == IndexRow(UnindexRow(old(indexes), prior, id), row, id)
      ensures pages == PageStore.Assign(PageStore.MarkDead(old(pages), id), id, RowBytes(row), PageSize)
    {
      RemoveFromIndexes(prior, id);
      AddToIndexes(row, id);
      MarkDeadStorage(id);
      AssignLiveStorage(id, RowBytes(row));
    }

    /** The row part of an update. */
    method StoreRow(pos: nat, row: Row)
      requires pos < |rows|
      modifies this`rows, this`side
      ensures var (stored, after) := ToastRow(row, old(side).(chunks := Untoast(old(rows)[pos], old(side).chunks)));
              rows == old(rows)[pos := stored] && side == after
    {
      var kept := FreeChunks(rows[pos], side.chunks);
      var stored, chunks, next := ToastCells(row, kept, side.next);
      side, rows := Side(chunks, next), rows[pos := stored];
    }

    method UpdateRow(pos: nat, row: Row)
      requires pos < |rows| && |rows| == |rowIds|
      requires pages.rowPage.Keys == pages.rowBytes.Keys
      modifies this
      ensures Now() == TableState.UpdateRow(old(Now()), pos, row)
    {
      Replace(rowIds[pos], DetoastRow(rows[pos], side.chunks), row);
      StoreRow(pos, row);
    }

    /** Which of the `n` positions are listed. */
    static method Mask(n: nat, positions: seq<nat>) returns (mask: seq<bool>)
      requires forall i :: 0 <= i < |positions| ==> positions[i] < n
      ensures |mask| == n && Masks(mask, set p | p in positions)
    {
      mask := seq(n, p => false);
      for i := 0 to |positions|
        invariant |mask| == n && forall p :: 0 <= p < n ==> (mask[p] <==> p in positions[..i])
      {
        assert positions[..i + 1] == positions[..i] + [positions[i]];
        mask := mask[positions[i] := true];
      }
      assert positions[..|positions|] == positions;
    }

    /** Unindex and untoast the masked rows. */
    method UnlinkMasked(mask: seq<bool>, ghost drop: set<nat>)
      requires |mask| == |rows| == |rowIds|
      requires Masks(mask, drop)
      modifies this`indexes, this`side
      ensures indexes == Unlink(old(Now()), drop, |rows|).0
      ensures side == old(side).(chunks := Unlink(old(Now()), drop, |rows|).1)
    {
      ghost var s := Now();
      for p := 0 to |mask|
        invariant indexes == Unlink(s, drop, p).0
        invariant side == s.side.(chunks := Unlink(s, drop, p).1)
      {
        if mask[p] {
          var stored := rows[p];
          RemoveFromIndexes(DetoastRow(stored, side.chunks), rowIds[p]);
          var kept := FreeChunks(stored, side.chunks);
          side := side.(chunks := kept);
        }
      }
    }

    method KillMasked(mask: seq<bool>, ghost drop: set<nat>)
      requires |mask| == |rowIds| && pages.rowPage.Keys == pages.rowBytes.Keys
      requires Masks(mask, drop)
      modifies this`pages
      ensures pages == KillPages(old(pages), rowIds, drop)
    {
      for p := 0 to |mask|
        invariant pages.rowPage.Keys == pages.rowBytes.Keys
        invariant pages == KillPages(old(pages), rowIds[..p], drop)
      {
        assert rowIds[..p + 1][..p] == rowIds[..p];
        if mask[p] {
          MarkDeadStorage(rowIds[p]);
        }
      }
      assert rowIds[..|mask|] == rowIds;
    }

    /** Rebuild rows, ids and the position map from the rows not masked. */
    method Compact(mask: seq<bool>, ghost drop: set<nat>)
      requires |mask| == |rows| == |rowIds|
      requires Masks(mask, drop)
      modifies this`rows, this`rowIds, this`rowPos
      ensures rows == Keep(old(rows), drop) && rowIds == Keep(old(rowIds), drop)
      ensures rowPos == Positions(rowIds)
    {
      rows, rowIds, rowPos := Unmasked(rows, rowIds, mask, drop);
    }

    /** Take the masked rows out of the indexes, the side store and the pages. */
    method Forget(mask: seq<bool>, ghost drop: set<nat>)
      requires |mask| == |rows| == |rowIds| && pages.rowPage.Keys == pages.rowBytes.Keys
      requires Masks(mask, drop)
      modifies this`indexes, this`side, this`pages
      ensures indexes == Unlink(old(Now()), drop, |rows|).0
      ensures side == old(side).(chunks := Unlink(old(Now()), drop, |rows|).1)
      ensures pages == KillPages(old(pages), rowIds, drop)
    {
      UnlinkMasked(mask, drop);
      KillMasked(mask, drop);
    }

    method DeleteMasked(mask: seq<bool>, ghost drop: set<nat>)
      requires |mask| == |rows| == |rowIds| && pages.rowPage.Keys == pages.rowBytes.Keys
      requires Masks(mask, drop)
      modifies this
      ensures Now() == TableState.DeleteRows(old(Now()), drop)
    {
      Forget(mask, drop);
      Compact(mask, drop);
    }

    /** More positions than rows would underflow the capacity computed for the rest. */
    method DeleteRows(positions: seq<nat>)
      requires |rows| == |rowIds| && pages.rowPage.Keys == pages.rowBytes.Keys && |positions| <= |rows|
      requires forall i :: 0 <= i < |positions| ==> positions[i] < |rows|
      modifies this
      ensures positions == [] ==> Now() == old(Now())
      ensures positions != [] ==> Now() == TableState.DeleteRows(old(Now()), set p | p in positions)
    {
      if positions == [] {
        return;
      }
      var mask := Mask(|rows|, positions);
      DeleteMasked(mask, set p | p in positions);
    }

    method ClearAllIndexes()
      modifies this`indexes
      ensures indexes == ClearIndexes(old(indexes))
    {
      var ixs := indexes;
      var done: seq<Index> := [];
      for i := 0 to |ixs|
        invariant |done| == i && forall k :: 0 <= k < i ==> done[k] == ClearOne(ixs[k])
      {
        done := done + [ClearOne(ixs[i])];
      }
      assert done == ClearIndexes(ixs);
      indexes := done;
    }

    method Truncate()
      modifies this
      ensures Now() == TableState.Truncate(old(Now()))
    {
      rows, rowIds, rowPos := [], [], map[];
      pages, side := PageStore.EmptyStore, side.(chunks := map[]);
      ClearAllIndexes();
    }

    /** `rebuild_live_storage`. */
    method VacuumStorage()
      requires |rows| == |rowIds|
      modifies this`pages
      ensures Now() == Vacuum(old(Now()))
    {
      pages := PageStore.EmptyStore;
      for p := 0 to |rows|
        invariant pages == PageStore.Rebuild(SizedRows(rowIds[..p], rows[..p]), PageSize)
      {
        assert rows[..p + 1][..p] == rows[..p] && rowIds[..p + 1][..p] == rowIds[..p];
        ghost var sized := SizedRows(rowIds[..p + 1], rows[..p + 1]);
        assert sized[..|sized| - 1] == SizedRows(rowIds[..p], rows[..p]);
        AssignLiveStorage(rowIds[p], RowBytes(rows[p]));
      }
      assert rows[..|rows|] == rows && rowIds[..|rows|] == rowIds;
    }
  }
}
