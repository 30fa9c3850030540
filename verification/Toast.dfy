/** Out-of-line storage of oversized text: a long text cell is moved to a side
store and a pointer text is left in its place.
*/
module Toast {
  import opened Collections
  import opened Numerals
  import opened Values

  const ThresholdBytes: nat := 2048
  const Sentinel: char := 1 as char
  const Prefix: string := [Sentinel] + "pg_toast:"

  /** The side store: the chunks by id, and the next id. Ids are not reused. */
  datatype Side = Side(chunks: map<nat, string>, next: nat)

  const EmptySide := Side(map[], 0)

  /** Length of the UTF-8 encoding. */
  function Utf8Len(s: string): nat {
    if s == [] then 0
    else
      var c := s[|s| - 1] as int;
      Utf8Len(s[..|s| - 1]) + (if c < 0x80 then 1 else if c < 0x800 then 2 else if c < 0x10000 then 3 else 4)
  }

  function Pointer(id: nat): string {
    Prefix + Digits(id) + [Sentinel]
  }

  /** Chunk ids have 64 bits. */
  const MaxId: nat := 0xFFFF_FFFF_FFFF_FFFF

  /** A 64-bit number as `parse` reads it: a leading plus sign is allowed. */
  function ParseUnsigned(s: string): Option<nat> {
    var n := if s != [] && s[0] == '+' then ParseDigits(s[1..]) else ParseDigits(s);
    if n.Some? && n.value <= MaxId then n else None
  }

  /** `toast_id_of`: the chunk a cell points to, if it has the shape of a pointer. */
  function PointerId(v: Value): Option<nat> {
    if v.Text? && Prefix <= v.s then
      var inner := v.s[|Prefix|..];
      if inner != [] && inner[|inner| - 1] == Sentinel then ParseUnsigned(inner[..|inner| - 1]) else None
    else None
  }

  lemma PointerIdOf(id: nat)
    requires id <= MaxId
    ensures PointerId(Text(Pointer(id))) == Some(id)
  {
    var p := Pointer(id);
    var inner := p[|Prefix|..];
    assert p[..|Prefix|] == Prefix;
    assert inner == Digits(id) + [Sentinel];
    assert inner[..|inner| - 1] == Digits(id);
    assert IsDigit(Digits(id)[0]);
    DigitsRoundTrip(id);
  }

  /** A number between the marks is a pointer when it fits 64 bits, with leading zeros or a plus
      sign or without; one to a chunk that is not there reads as the empty text. */
  lemma PointerIdExactly(d: string, chunks: map<nat, string>)
    requires d != "" && AllDigits(d)
    ensures var v, plus := Text([1 as char] + "pg_toast:" + d + [1 as char]),
                           Text([1 as char] + "pg_toast:" + ("+" + d) + [1 as char]);
            && PointerId(v) == PointerId(plus)
            && PointerId(v) == (if DigitsValue(d) < 0x1_0000_0000_0000_0000 then Some(DigitsValue(d)) else None)
            && (PointerId(v).Some? && DigitsValue(d) !in chunks ==> Detoast(v, chunks) == Text(""))
  {
    PointerShape(d);
    PointerShape("+" + d);
    UnsignedRead(d);
  }

  lemma UnsignedRead(d: string)
    requires d != "" && AllDigits(d)
    ensures ParseUnsigned(d) == (if DigitsValue(d) < 0x1_0000_0000_0000_0000 then Some(DigitsValue(d)) else None)
    ensures ParseUnsigned("+" + d) == ParseUnsigned(d)
  {
    assert ("+" + d)[1..] == d && IsDigit(d[0]);
  }

  lemma PointerShape(inner: string)
    ensures PointerId(Text([1 as char] + "pg_toast:" + inner + [1 as char])) == ParseUnsigned(inner)
  {
    var s := [1 as char] + "pg_toast:" + inner + [1 as char];
    assert s == Prefix + (inner + [Sentinel]);
    assert s[|Prefix|..] == inner + [Sentinel];
    assert (inner + [Sentinel])[..|inner + [Sentinel]| - 1] == inner;
  }

  /** No cell has the shape of a pointer. */
  ghost predicate PlainRow(row: Row) {
    forall i :: 0 <= i < |row| ==> PointerId(row[i]).None?
  }

  /** Toasting every cell would not overflow the id counter. */
  predicate Room(row: Row, side: Side) {
    side.next + |row| <= MaxId
  }

  // --- Toasting and reading back -----------------------------------------------

  predicate Oversized(v: Value) {
    v.Text? && !(Prefix <= v.s) && Utf8Len(v.s) > ThresholdBytes
  }

  function ToastRow(row: Row, side: Side): (Row, Side) {
    if row == [] then ([], side)
    else
      var (init, side1) := ToastRow(row[..|row| - 1], side);
      var v := row[|row| - 1];
      if Oversized(v) then
        (init + [Text(Pointer(side1.next))], Side(side1.chunks[side1.next := v.s], side1.next + 1))
      else (init + [v], side1)
  }

  function Detoast(v: Value, chunks: map<nat, string>): Value {
    match PointerId(v)
    case None => v
    case Some(id) => Text(if id in chunks then chunks[id] else "")
  }

  function DetoastRow(row: Row, chunks: map<nat, string>): (r: Row)
    ensures |r| == |row| && forall i :: 0 <= i < |row| ==> r[i] == Detoast(row[i], chunks)
  {
    if row == [] then []
    else DetoastRow(row[..|row| - 1], chunks) + [Detoast(row[|row| - 1], chunks)]
  }

  /** The chunks a cell or a row refers to, with multiplicity. */
  ghost function CellRefs(v: Value): multiset<nat> {
    match PointerId(v)
    case None => multiset{}
    case Some(id) => multiset{id}
  }

  ghost function RowRefs(row: Row): multiset<nat> {
    if row == [] then multiset{} else RowRefs(row[..|row| - 1]) + CellRefs(row[|row| - 1])
  }

  ghost function RefSet(row: Row): set<nat> {
    set id | id in RowRefs(row)
  }

  /** `untoast_row`: drop the chunks a row refers to. */
  ghost function Untoast(row: Row, chunks: map<nat, string>): map<nat, string> {
    chunks - RefSet(row)
  }

  ghost predicate SideOk(side: Side) {
    && (forall id :: id in side.chunks ==> id < side.next)
    && (forall id :: id in side.chunks ==> !(Prefix <= side.chunks[id]))
  }

  lemma {:induction false} RefsInRow(row: Row, i: nat)
    requires i < |row|
    ensures CellRefs(row[i]) <= RowRefs(row)
  {
    if i < |row| - 1 {
      RefsInRow(row[..|row| - 1], i);
    }
  }

  /** A row reads the same in two stores that agree on the chunks it refers to. */
  lemma DetoastFrame(row: Row, a: map<nat, string>, b: map<nat, string>)
    requires forall id :: id in RowRefs(row) ==> (id in a <==> id in b) && (id in a ==> a[id] == b[id])
    ensures DetoastRow(row, a) == DetoastRow(row, b)
  {
    forall i | 0 <= i < |row|
      ensures Detoast(row[i], a) == Detoast(row[i], b)
    {
      RefsInRow(row, i);
    }
  }

  /** What toasting a row adds to the store: exactly the chunks the stored row
      refers to, each once, under ids not used before. */
  ghost predicate Extends(side: Side, side': Side, stored: Row) {
    && side.next <= side'.next
    && (forall id :: id in side.chunks ==> id in side'.chunks && side'.chunks[id] == side.chunks[id])
    && (forall id :: id in side'.chunks && id !in side.chunks ==> side.next <= id)
    && multiset(side'.chunks.Keys) == multiset(side.chunks.Keys) + RowRefs(stored)
  }

  lemma ExtendsByChunk(side: Side, side1: Side, stored: Row, text: string)
    requires SideOk(side1) && Extends(side, side1, stored) && !(Prefix <= text) && side1.next <= MaxId
    ensures var side2 := Side(side1.chunks[side1.next := text], side1.next + 1);
            SideOk(side2) && Extends(side, side2, stored + [Text(Pointer(side1.next))])
  {
    var side2 := Side(side1.chunks[side1.next := text], side1.next + 1);
    var stored' := stored + [Text(Pointer(side1.next))];
    PointerIdOf(side1.next);
    assert stored'[..|stored'| - 1] == stored;
    assert RowRefs(stored') == RowRefs(stored) + multiset{side1.next};
    assert side2.chunks.Keys == side1.chunks.Keys + {side1.next};
    assert multiset(side2.chunks.Keys) == multiset(side1.chunks.Keys) + multiset{side1.next};
  }

  lemma ExtendsByCell(side: Side, side1: Side, stored: Row, v: Value)
    requires Extends(side, side1, stored) && PointerId(v).None?
    ensures Extends(side, side1, stored + [v])
  {
    assert (stored + [v])[..|stored + [v]| - 1] == stored;
  }

  lemma {:induction false} ToastExtends(row: Row, side: Side)
    requires SideOk(side) && PlainRow(row) && Room(row, side)
    ensures SideOk(ToastRow(row, side).1) && Extends(side, ToastRow(row, side).1, ToastRow(row, side).0)
    ensures ToastRow(row, side).1.next <= side.next + |row|
  {
    if row != [] {
      var init, v := row[..|row| - 1], row[|row| - 1];
      ToastExtends(init, side);
      var (stored, side1) := ToastRow(init, side);
      if Oversized(v) {
        ExtendsByChunk(side, side1, stored, v.s);
      } else {
        ExtendsByCell(side, side1, stored, v);
      }
    }
  }

  lemma RefsAreChunks(side: Side, side': Side, stored: Row, id: nat)
    requires Extends(side, side', stored) && id in RowRefs(stored)
    ensures id in side'.chunks
  {
    assert multiset(side'.chunks.Keys)[id] >= 1;
  }

  lemma DetoastSnoc(row: Row, v: Value, chunks: map<nat, string>)
    ensures DetoastRow(row + [v], chunks) == DetoastRow(row, chunks) + [Detoast(v, chunks)]
  {
  }

  lemma ReadsChunk(side: Side, side1: Side, stored: Row, text: string)
    requires SideOk(side1) && Extends(side, side1, stored) && side1.next <= MaxId
    ensures DetoastRow(stored + [Text(Pointer(side1.next))], side1.chunks[side1.next := text])
         == DetoastRow(stored, side1.chunks) + [Text(text)]
  {
    var chunks := side1.chunks[side1.next := text];
    PointerIdOf(side1.next);
    DetoastSnoc(stored, Text(Pointer(side1.next)), chunks);
    forall id | id in RowRefs(stored)
      ensures id in side1.chunks && id in chunks && chunks[id] == side1.chunks[id]
    {
      RefsAreChunks(side, side1, stored, id);
    }
    DetoastFrame(stored, side1.chunks, chunks);
  }

  /** The stored row reads back as the row written. */
  lemma {:induction false} ToastReadsBack(row: Row, side: Side)
    requires SideOk(side) && PlainRow(row) && Room(row, side)
    ensures DetoastRow(ToastRow(row, side).0, ToastRow(row, side).1.chunks) == row
  {
    if row != [] {
      var init, v := row[..|row| - 1], row[|row| - 1];
      assert row == init + [v];
      ToastReadsBack(init, side);
      var (stored, side1) := ToastRow(init, side);
      if Oversized(v) {
        ToastExtends(init, side);
        ReadsChunk(side, side1, stored, v.s);
      } else {
        DetoastSnoc(stored, v, side1.chunks);
      }
    }
  }

  /** An oversized cell is stored as another text. */
  lemma {:induction false} ToastedCell(row: Row, side: Side, i: nat)
    requires i < |row| && Oversized(row[i])
    ensures |ToastRow(row, side).0| == |row| && ToastRow(row, side).0[i].Text? && ToastRow(row, side).0[i] != row[i]
    decreases |row|
  {
    var init := row[..|row| - 1];
    ToastLength(init, side);
    if i < |init| {
      ToastedCell(init, side, i);
    } else {
      var side1 := ToastRow(init, side).1;
      assert Prefix <= Pointer(side1.next);
    }
  }

  /** How many characters have at least this code. */
  ghost function From(s: string, code: nat): nat {
    |set i | 0 <= i < |s| && s[i] as int >= code|
  }

  lemma FromSnoc(s: string, c: char, code: nat)
    ensures From(s + [c], code) == From(s, code) + if c as int >= code then 1 else 0
  {
    var before := set i | 0 <= i < |s| && s[i] as int >= code;
    var after := set i | 0 <= i < |s + [c]| && (s + [c])[i] as int >= code;
    assert after == if c as int >= code then before + {|s|} else before;
  }

  /** One byte each, and one more from each of three codes on. */
  lemma {:induction false} Utf8Exactly(s: string)
    ensures Utf8Len(s) == |s| + From(s, 0x80) + From(s, 0x800) + From(s, 0x1_0000)
  {
    if s != "" {
      var init, c := s[..|s| - 1], s[|s| - 1];
      assert s == init + [c];
      Utf8Exactly(init);
      FromSnoc(init, c, 0x80);
      FromSnoc(init, c, 0x800);
      FromSnoc(init, c, 0x1_0000);
    }
  }

  ghost predicate LongText(v: Value) {
    v.Text? && Utf8Len(v.s) > 2048 && !([1 as char] + "pg_toast:" <= v.s)
  }

  /** A text of more than 2048 bytes is moved to a chunk of its own and leaves that chunk's
      pointer; every other cell is stored as it is. */
  lemma {:induction false} StoredExactly(row: Row, side: Side, i: nat)
    requires i < |row|
    ensures var (stored, side') := ToastRow(row, side);
            && |stored| == |row| && side.next <= side'.next
            && if LongText(row[i]) then
                 exists id :: side.next <= id < side'.next && id in side'.chunks && side'.chunks[id] == row[i].s
                   && stored[i] == Text([1 as char] + "pg_toast:" + Digits(id) + [1 as char])
               else stored[i] == row[i]
    decreases |row|
  {
    var init := row[..|row| - 1];
    ToastLength(init, side);
    NextGrows(init, side);
    if i < |init| {
      StoredExactly(init, side, i);
    } else if LongText(row[i]) {
      var id := ToastRow(init, side).1.next;
      assert ToastRow(row, side).1.chunks[id] == row[i].s;
    }
  }

  lemma {:induction false} NextGrows(row: Row, side: Side)
    ensures side.next <= ToastRow(row, side).1.next
  {
    if row != [] {
      NextGrows(row[..|row| - 1], side);
    }
  }

  // --- Exactly which rows survive ------------------------------------------------------

  lemma {:induction false} ToastKeepsPointers(row: Row, side: Side, i: nat)
    requires i < |row| && PointerId(row[i]).Some?
    ensures |ToastRow(row, side).0| == |row| && ToastRow(row, side).0[i] == row[i]
    decreases |row|
  {
    var init := row[..|row| - 1];
    ToastLength(init, side);
    if i < |init| {
      ToastKeepsPointers(init, side, i);
    }
  }

  lemma {:induction false} ToastLength(row: Row, side: Side)
    ensures |ToastRow(row, side).0| == |row|
    ensures SideOk(side) ==> SideOk(ToastRow(row, side).1)
  {
    if row != [] {
      ToastLength(row[..|row| - 1], side);
    }
  }

  /** A row is read back unchanged exactly when none of its texts has the shape of
      a pointer; such a text is taken for a pointer and replaced. */
  lemma ReadsBackExactly(row: Row, side: Side)
    requires SideOk(side) && Room(row, side)
    ensures DetoastRow(ToastRow(row, side).0, ToastRow(row, side).1.chunks) == row <==> PlainRow(row)
  {
    if PlainRow(row) {
      ToastReadsBack(row, side);
    } else {
      var i :| 0 <= i < |row| && PointerId(row[i]).Some?;
      ToastKeepsPointers(row, side, i);
      ToastLength(row, side);
      var (stored, side') := ToastRow(row, side);
      var v := Detoast(stored[i], side'.chunks);
      assert v.Text? && !(Prefix <= v.s);
      assert DetoastRow(stored, side'.chunks)[i] != row[i];
    }
  }

  // --- The loops -----------------------------------------------------------------------

  method ToastCells(row: Row, chunks: map<nat, string>, next: nat)
    returns (row': Row, chunks': map<nat, string>, next': nat)
    ensures (row', Side(chunks', next')) == ToastRow(row, Side(chunks, next))
  {
    row', chunks', next' := row, chunks, next;
    for i := 0 to |row|
      invariant |row'| == |row| && row'[i..] == row[i..]
      invariant (row'[..i], Side(chunks', next')) == ToastRow(row[..i], Side(chunks, next))
    {
      var cell := row'[i];
      assert cell == row'[i..][0] == row[i..][0];
      assert row[..i + 1][..i] == row[..i];
      ghost var before := row';
      if Oversized(cell) {
        chunks' := chunks'[next' := cell.s];
        row' := row'[i := Text(Pointer(next'))];
        next' := next' + 1;
      }
      assert row'[..i] == before[..i] && row'[..i + 1] == row'[..i] + [row'[i]];
      assert row'[i + 1..] == before[i..][1..] == row[i..][1..] == row[i + 1..];
    }
    assert row[..|row|] == row && row'[..|row|] == row';
  }

  lemma RefSetSnoc(row: Row, v: Value)
    ensures RefSet(row + [v]) == RefSet(row) + (match PointerId(v) case None => {} case Some(id) => {id})
  {
    assert (row + [v])[..|row + [v]| - 1] == row;
  }

  lemma WithoutMore(chunks: map<nat, string>, ids: set<nat>, id: nat)
    ensures chunks - ids - {id} == chunks - (ids + {id})
  {
  }

  method FreeChunks(row: Row, chunks: map<nat, string>) returns (chunks': map<nat, string>)
    ensures chunks' == Untoast(row, chunks)
  {
    chunks' := chunks;
    for i := 0 to |row|
      invariant chunks' == chunks - RefSet(row[..i])
    {
      assert row[..i + 1] == row[..i] + [row[i]];
      RefSetSnoc(row[..i], row[i]);
      var ptr := PointerId(row[i]);
      if ptr.Some? {
        WithoutMore(chunks, RefSet(row[..i]), ptr.value);
        chunks' := chunks' - {ptr.value};
      } else {
        assert RefSet(row[..i + 1]) == RefSet(row[..i]);
      }
    }
    assert row[..|row|] == row;
  }

  // --- A text shaped like a pointer --------------------------------------------------------

  /** Such a row is not only misread: deleting it takes away another row's chunk. */
  lemma PointerShapedTextFreesChunk(id: nat, chunks: map<nat, string>)
    requires id in chunks && id <= MaxId
    ensures id !in Untoast([Text(Pointer(id))], chunks)
  {
    PointerIdOf(id);
    var row := [Text(Pointer(id))];
    assert row[..0] == [];
    assert RowRefs(row) == multiset{} + multiset{id};
    assert id in RefSet(row);
  }
}
