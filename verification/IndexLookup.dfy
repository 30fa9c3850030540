/** Index lookups against the entries an index represents.

A B-tree answers exactly. A hash index answers exactly on one column and may
collide on several. BRIN and GIN answer with a superset the executor filters.
None ever misses a row that matches.
*/
module IndexLookup {
  import opened Collections
  import opened Numerals
  import opened Values
  import opened Postings
  import opened IndexStore

  datatype Bound = Bound(value: Value, inclusive: bool)

  /** `v` is not NULL and lies between the bounds in the index order. */
  predicate InRange(v: Value, lo: Option<Bound>, hi: Option<Bound>) {
    && !v.Null?
    && (lo.Some? ==> AboveLow(v, lo.value))
    && (hi.Some? ==> BelowHigh(v, hi.value))
  }

  predicate AboveLow(v: Value, lo: Bound) {
    Cmp(lo.value, v) == Less || (lo.inclusive && Cmp(lo.value, v) == Equal)
  }

  predicate BelowHigh(v: Value, hi: Bound) {
    Cmp(v, hi.value) == Less || (hi.inclusive && Cmp(v, hi.value) == Equal)
  }

  /** Which values a range takes in, by the order of values. */
  lemma InRangeExactly(v: Value, lo: Option<Bound>, hi: Option<Bound>)
    ensures InRange(v, lo, hi) <==>
            && !v.Null?
            && (lo.Some? ==> if lo.value.inclusive then !Before(v, lo.value.value) else Before(lo.value.value, v))
            && (hi.Some? ==> if hi.value.inclusive then !Before(hi.value.value, v) else Before(v, hi.value.value))
  {
    if lo.Some? {
      CmpExactly(lo.value.value, v);
    }
    if hi.Some? {
      CmpExactly(v, hi.value.value);
    }
  }

  // --- Hash keys ------------------------------------------------------------------

  /** On one column equal hash keys mean equal values. */
  lemma HashKeyInjective(a: Value, b: Value)
    requires !a.Null? && !b.Null? && HashKey([a]) == HashKey([b])
    ensures a == b
  {
    assert [a][1..] == [] && [b][1..] == [];
    assert HashKey([a]) == HashPart(a) + "" == HashPart(a);
    assert HashKey([b]) == HashPart(b) + "" == HashPart(b);
    var s := HashPart(a);
    match a
    case Int(i) =>
      assert s[0] == 'i' && b.Int?;
      assert s[1..|s| - 1] == IntText(i) == IntText(b.i);
      IntTextInjective(i, b.i);
    case Text(t) =>
      assert s[0] == 's' && b.Text?;
      assert s[1..|s| - 1] == t == b.s;
    case Bool(x) =>
      assert s[0] == 'b' && b.Bool?;
      assert s[1] == (if x then '1' else '0') == (if b.b then '1' else '0');
  }

  /** On several columns they need not: the separator may occur in a text. */
  lemma HashKeysCollide()
    ensures HashKey([Text("a|sb"), Text("c")]) == HashKey([Text("a"), Text("b|sc")])
    ensures [Text("a|sb"), Text("c")] != [Text("a"), Text("b|sc")]
  {
    var p, q := [Text("a|sb"), Text("c")], [Text("a"), Text("b|sc")];
    assert p[1..] == [Text("c")] && q[1..] == [Text("b|sc")];
    assert [Text("c")][1..] == [] && [Text("b|sc")][1..] == [];
    assert HashKey(p) == "sa|sb|" + ("sc|" + "") == "sa|sb|sc|";
    assert HashKey(q) == "sa|" + ("sb|sc|" + "") == "sa|sb|sc|";
    assert "a|sb" != "a";
    assert p[0] != q[0];
  }

  // --- BRIN summaries ---------------------------------------------------------------

  ghost predicate Summarises(members: seq<BrinMember>, lo: Value, hi: Value) {
    && !lo.Null? && !hi.Null?
    && (forall i :: 0 <= i < |members| && !members[i].value.Null? ==>
          Le(lo, members[i].value) && Le(members[i].value, hi))
  }

  ghost predicate Attained(members: seq<BrinMember>, v: Value) {
    exists i :: 0 <= i < |members| && members[i].value == v
  }

  /** `min_max`: bounds attained by members, or nothing when all are NULL. */
  method MinMax(members: seq<BrinMember>) returns (r: Option<(Value, Value)>)
    ensures r.None? <==> forall i :: 0 <= i < |members| ==> members[i].value.Null?
    ensures r.Some? ==> Summarises(members, r.value.0, r.value.1)
    ensures r.Some? ==> Attained(members, r.value.0) && Attained(members, r.value.1)
  {
    var seen := false;
    var lo, hi := Null, Null;
    ghost var li, hj := 0, 0;
    for i := 0 to |members|
      invariant !seen ==> forall k :: 0 <= k < i ==> members[k].value.Null?
      invariant seen ==> 0 <= li < i && 0 <= hj < i && lo == members[li].value && hi == members[hj].value
      invariant seen ==> Summarises(members[..i], lo, hi)
    {
      var v := members[i].value;
      if !v.Null? {
        if !seen {
          seen, lo, hi, li, hj := true, v, v, i, i;
          CmpEqual(v, v);
        } else {
          ghost var lo0, hi0 := lo, hi;
          if Cmp(v, lo) == Less {
            lo, li := v, i;
          }
          if Cmp(v, hi) == Greater {
            hi, hj := v, i;
          }
          Widens(members[..i], lo0, hi0, v);
          assert members[..i + 1] == members[..i] + [members[i]];
        }
      }
    }
    assert members[..|members|] == members;
    if seen {
      r := Some((lo, hi));
    } else {
      r := None;
    }
  }

  lemma Widens(members: seq<BrinMember>, lo: Value, hi: Value, v: Value)
    requires Summarises(members, lo, hi) && !v.Null?
    ensures var lo' := if Cmp(v, lo) == Less then v else lo;
            var hi' := if Cmp(v, hi) == Greater then v else hi;
            Summarises(members, lo', hi') && Le(lo', v) && Le(v, hi')
  {
    CmpEqual(v, lo);
    CmpEqual(v, hi);
    CmpEqual(v, v);
    forall i | 0 <= i < |members| && !members[i].value.Null?
      ensures Cmp(v, lo) == Less ==> Le(v, members[i].value)
      ensures Cmp(v, hi) == Greater ==> Le(members[i].value, v)
    {
      if Cmp(v, lo) == Less {
        LeTransitive(v, lo, members[i].value);
      }
      if Cmp(v, hi) == Greater {
        LeTransitive(members[i].value, hi, v);
      }
    }
  }

  /** `brin_range_overlaps`. */
  predicate Overlaps(rmin: Value, rmax: Value, lo: Option<Bound>, hi: Option<Bound>) {
    && (lo.Some? ==> Cmp(rmax, lo.value.value) != Less && (Cmp(rmax, lo.value.value) == Equal ==> lo.value.inclusive))
    && (hi.Some? ==>
          Cmp(rmin, hi.value.value) != Greater && (Cmp(rmin, hi.value.value) == Equal ==> hi.value.inclusive))
  }

  /** A block range with a matching row is never skipped. */
  lemma OverlapsNeverMisses(rmin: Value, rmax: Value, v: Value, lo: Option<Bound>, hi: Option<Bound>)
    requires Le(rmin, v) && Le(v, rmax) && InRange(v, lo, hi)
    ensures Overlaps(rmin, rmax, lo, hi)
  {
    if lo.Some? {
      CmpEqual(lo.value.value, v);
      CmpEqual(rmax, lo.value.value);
      LeTransitive(lo.value.value, v, rmax);
      CmpEqual(lo.value.value, rmax);
    }
    if hi.Some? {
      CmpEqual(v, hi.value.value);
      LeTransitive(rmin, v, hi.value.value);
      CmpEqual(rmin, hi.value.value);
    }
  }

  /** The non-NULL rows of a block range. */
  function NonNullIds(members: seq<BrinMember>): (r: seq<RowId>)
    ensures forall id :: id in r <==> exists m :: m in members && m.id == id && !m.value.Null?
  {
    if members == [] then []
    else
      var init, last := NonNullIds(members[..|members| - 1]), members[|members| - 1];
      assert members == members[..|members| - 1] + [last];
      if last.value.Null? then init else init + [last.id]
  }

  // --- Range lookups ------------------------------------------------------------------

  /** The end of a B-tree range: below NULL when there is no high bound. */
  function EndOf(hi: Option<Bound>): Bound {
    if hi.Some? then hi.value else Bound(Null, false)
  }

  /** `BTreeMap::range` panics on an inverted range, and on an empty one with both
      ends excluded. */
  predicate RangePanics(lo: Option<Bound>, hi: Option<Bound>) {
    lo.Some? &&
    var order := Cmp(lo.value.value, EndOf(hi).value);
    order == Greater || (order == Equal && !lo.value.inclusive && !EndOf(hi).inclusive)
  }

  /** The B-tree's own test on a key, with the defensive NULL check. */
  predicate KeyInRange(key: Key, lo: Option<Bound>, hi: Option<Bound>) {
    && (lo.Some? ==> CmpKey([lo.value.value], key) == Less
                     || (lo.value.inclusive && CmpKey([lo.value.value], key) == Equal))
    && (CmpKey(key, [EndOf(hi).value]) == Less || (EndOf(hi).inclusive && CmpKey(key, [EndOf(hi).value]) == Equal))
    && key != [] && !key[0].Null?
  }

  lemma SingleKeyInRange(v: Value, lo: Option<Bound>, hi: Option<Bound>)
    ensures KeyInRange([v], lo, hi) <==> InRange(v, lo, hi)
  {
    if lo.Some? {
      CmpKeySingle(lo.value.value, v);
    }
    CmpKeySingle(v, EndOf(hi).value);
  }

  ghost predicate SingleColumn(es: Entries) {
    forall id :: id in es ==> |es[id]| == 1
  }

  /** Ids by ascending key. */
  ghost predicate InOrder(ids: seq<RowId>, es: Entries) {
    && (forall i :: 0 <= i < |ids| ==> ids[i] in es)
    && (forall i, j :: 0 <= i < j < |ids| ==> CmpKey(es[ids[i]], es[ids[j]]) != Greater)
  }

  method LeastKey(keys: set<Key>) returns (k: Key)
    requires keys != {}
    ensures k in keys && forall x :: x in keys && x != k ==> CmpKey(k, x) == Less
  {
    k := Pick(keys);
    var todo := keys - {k};
    while todo != {}
      invariant todo <= keys && k in keys && k !in todo
      invariant forall x :: x in keys && x !in todo && x != k ==> CmpKey(k, x) == Less
      decreases todo
    {
      var x := Pick(todo);
      todo := todo - {x};
      CmpKeyEqual(k, x);
      if CmpKey(x, k) == Less {
        forall y | y in keys && y !in todo && y != x
          ensures CmpKey(x, y) == Less
        {
          if y != k {
            CmpKeyTransitive(x, k, y);
          }
        }
        k := x;
      }
    }
  }

  /** Each key of `later` is above each key of `done`. */
  ghost predicate Below(done: seq<RowId>, es: Entries, later: set<Key>) {
    forall id, k :: id in done && id in es && k in later ==> CmpKey(es[id], k) == Less
  }

  /** A walk of the tree in key order, over the keys wanted. */
  method TreeWalk(tree: Lists<Key, RowId>, ghost es: Entries, want: Key -> bool) returns (r: seq<RowId>)
    requires TreeHolds(tree, es)
    ensures forall id :: id in r <==> id in es && want(es[id])
    ensures InOrder(r, es)
  {
    r := [];
    var todo := tree.Keys;
    assert forall id :: id in es ==> Has(tree, es[id], id);
    while todo != {}
      invariant todo <= tree.Keys && InOrder(r, es) && Below(r, es, todo)
      invariant forall id :: id in r <==> id in es && es[id] !in todo && want(es[id])
      decreases todo
    {
      var key := LeastKey(todo);
      todo := todo - {key};
      assert forall id :: id in tree[key] <==> Has(tree, key, id);
      if want(key) {
        WalkOn(r, tree[key], key, es, todo);
        r := r + tree[key];
      }
    }
  }

  lemma WalkOn(r: seq<RowId>, more: seq<RowId>, key: Key, es: Entries, later: set<Key>)
    requires InOrder(r, es) && Below(r, es, later + {key})
    requires forall id :: id in more ==> id in es && es[id] == key
    requires forall k :: k in later ==> CmpKey(key, k) == Less
    ensures InOrder(r + more, es) && Below(r + more, es, later)
  {
    CmpKeyEqual(key, key);
    var all := r + more;
    forall i, j | 0 <= i < j < |all|
      ensures CmpKey(es[all[i]], es[all[j]]) != Greater
    {
      if j >= |r| {
        var y := more[j - |r|];
        assert y in more;
        if i < |r| {
          var x := r[i];
          assert x in r && key in later + {key};
        } else {
          var x := more[i - |r|];
          assert x in more;
        }
      }
    }
  }

  /** Some row of the block range has a value at or above the low bound. */
  ghost predicate HitsLow(es: Entries, block: nat, lo: Option<Bound>) {
    exists x :: x in es && Block(x) == block && !Head(es[x]).Null? && (lo.Some? ==> AboveLow(Head(es[x]), lo.value))
  }

  ghost predicate HitsHigh(es: Entries, block: nat, hi: Option<Bound>) {
    exists x :: x in es && Block(x) == block && !Head(es[x]).Null? && (hi.Some? ==> BelowHigh(Head(es[x]), hi.value))
  }

  /** A BRIN lookup lists the row: it has a value, and its block range reaches both bounds,
      by whichever rows. */
  ghost predicate BrinLists(es: Entries, id: RowId, lo: Option<Bound>, hi: Option<Bound>) {
    id in es && !Head(es[id]).Null? && HitsLow(es, Block(id), lo) && HitsHigh(es, Block(id), hi)
  }

  lemma InRangeIsListed(es: Entries, id: RowId, lo: Option<Bound>, hi: Option<Bound>)
    requires id in es && InRange(Head(es[id]), lo, hi)
    ensures BrinLists(es, id, lo, hi)
  {
  }

  method BrinRange(ranges: Lists<nat, BrinMember>, ghost es: Entries, lo: Option<Bound>, hi: Option<Bound>)
    returns (r: seq<RowId>)
    requires RangesHold(ranges, es)
    ensures forall id :: id in r <==> BrinLists(es, id, lo, hi)
    ensures forall id :: id in es && InRange(Head(es[id]), lo, hi) ==> id in r
  {
    r := [];
    var todo := ranges.Keys;
    forall id | id in es
      ensures Block(id) in ranges
    {
      assert Has(ranges, Block(id), BrinMember(id, Head(es[id])));
    }
    while todo != {}
      invariant todo <= ranges.Keys
      invariant forall id :: id in r <==> BrinLists(es, id, lo, hi) && Block(id) !in todo
      decreases todo
    {
      var block := Pick(todo);
      todo := todo - {block};
      var summary := MinMax(ranges[block]);
      BlockMembers(ranges, es, block);
      BlockSummary(ranges, es, block, lo, hi, summary);
      if summary.Some? && Overlaps(summary.value.0, summary.value.1, lo, hi) {
        r := r + NonNullIds(ranges[block]);
      }
    }
    forall id | id in es && InRange(Head(es[id]), lo, hi)
      ensures id in r
    {
      InRangeIsListed(es, id, lo, hi);
    }
  }

  lemma BlockMembers(ranges: Lists<nat, BrinMember>, es: Entries, block: nat)
    requires RangesHold(ranges, es) && block in ranges
    ensures forall id :: id in NonNullIds(ranges[block]) <==> id in es && Block(id) == block && !Head(es[id]).Null?
  {
    var members := ranges[block];
    forall id
      ensures id in NonNullIds(members) <==> id in es && Block(id) == block && !Head(es[id]).Null?
    {
      if id in NonNullIds(members) {
        var m :| m in members && m.id == id && !m.value.Null?;
        assert Has(ranges, block, m);
      }
      if id in es && Block(id) == block && !Head(es[id]).Null? {
        assert Has(ranges, block, BrinMember(id, Head(es[id])));
      }
    }
  }

  /** A summary overlaps the query exactly when the block range reaches both bounds. */
  lemma BlockSummary(ranges: Lists<nat, BrinMember>, es: Entries, block: nat, lo: Option<Bound>, hi: Option<Bound>,
                     summary: Option<(Value, Value)>)
    requires RangesHold(ranges, es) && block in ranges
    requires summary.None? ==> forall i :: 0 <= i < |ranges[block]| ==> ranges[block][i].value.Null?
    requires summary.Some? ==> Summarises(ranges[block], summary.value.0, summary.value.1)
    requires summary.Some? ==> Attained(ranges[block], summary.value.0) && Attained(ranges[block], summary.value.1)
    ensures summary.Some? && Overlaps(summary.value.0, summary.value.1, lo, hi)
            <==> HitsLow(es, block, lo) && HitsHigh(es, block, hi)
  {
    if summary.Some? {
      OverlapsByBound(summary.value.0, summary.value.1, lo, hi);
      LowExactly(ranges, es, block, lo, summary.value.0, summary.value.1);
      HighExactly(ranges, es, block, hi, summary.value.0, summary.value.1);
    } else if HitsLow(es, block, lo) {
      var x :| x in es && Block(x) == block && !Head(es[x]).Null?;
      var i := MemberAt(ranges, es, x);
      assert false;
    }
  }

  lemma OverlapsByBound(rmin: Value, rmax: Value, lo: Option<Bound>, hi: Option<Bound>)
    ensures Overlaps(rmin, rmax, lo, hi) <==>
            (lo.Some? ==> AboveLow(rmax, lo.value)) && (hi.Some? ==> BelowHigh(rmin, hi.value))
  {
    if lo.Some? {
      CmpEqual(rmax, lo.value.value);
      CmpEqual(lo.value.value, rmax);
    }
  }

  lemma MemberAt(ranges: Lists<nat, BrinMember>, es: Entries, x: RowId) returns (i: nat)
    requires RangesHold(ranges, es) && x in es
    ensures Block(x) in ranges && i < |ranges[Block(x)]| && ranges[Block(x)][i] == BrinMember(x, Head(es[x]))
  {
    assert Has(ranges, Block(x), BrinMember(x, Head(es[x])));
    i :| 0 <= i < |ranges[Block(x)]| && ranges[Block(x)][i] == BrinMember(x, Head(es[x]));
  }

  lemma LowExactly(ranges: Lists<nat, BrinMember>, es: Entries, block: nat, lo: Option<Bound>, rmin: Value, rmax: Value)
    requires RangesHold(ranges, es) && block in ranges
    requires Summarises(ranges[block], rmin, rmax) && Attained(ranges[block], rmax)
    ensures HitsLow(es, block, lo) <==> (lo.Some? ==> AboveLow(rmax, lo.value))
  {
    var k :| 0 <= k < |ranges[block]| && ranges[block][k].value == rmax;
    var m := ranges[block][k];
    assert Has(ranges, block, m);
    assert m.id in es && Block(m.id) == block && Head(es[m.id]) == rmax;
    if HitsLow(es, block, lo) && lo.Some? {
      var x :| x in es && Block(x) == block && !Head(es[x]).Null? && AboveLow(Head(es[x]), lo.value);
      var i := MemberAt(ranges, es, x);
      OverlapsNeverMisses(rmin, rmax, Head(es[x]), lo, None);
      OverlapsByBound(rmin, rmax, lo, None);
    }
  }

  lemma HighExactly(ranges: Lists<nat, BrinMember>, es: Entries, block: nat, hi: Option<Bound>,
                    rmin: Value, rmax: Value)
    requires RangesHold(ranges, es) && block in ranges
    requires Summarises(ranges[block], rmin, rmax) && Attained(ranges[block], rmin)
    ensures HitsHigh(es, block, hi) <==> (hi.Some? ==> BelowHigh(rmin, hi.value))
  {
    var k :| 0 <= k < |ranges[block]| && ranges[block][k].value == rmin;
    var m := ranges[block][k];
    assert Has(ranges, block, m);
    assert m.id in es && Block(m.id) == block && Head(es[m.id]) == rmin;
    if HitsHigh(es, block, hi) && hi.Some? {
      var x :| x in es && Block(x) == block && !Head(es[x]).Null? && BelowHigh(Head(es[x]), hi.value);
      var i := MemberAt(ranges, es, x);
      OverlapsNeverMisses(rmin, rmax, Head(es[x]), None, hi);
      OverlapsByBound(rmin, rmax, None, hi);
    }
  }

  /** `lookup_range`; `None` is the panic of an inverted B-tree range. */
  method LookupRange(st: Store, ghost es: Entries, lo: Option<Bound>, hi: Option<Bound>)
    returns (r: Option<seq<RowId>>)
    requires Represents(st, es) && SingleColumn(es)
    ensures r.None? <==> st.Btree? && RangePanics(lo, hi)
    ensures r.Some? && st.Btree? ==> forall id :: id in r.value <==> id in es && InRange(es[id][0], lo, hi)
    ensures r.Some? && st.Btree? ==> InOrder(r.value, es)
    ensures r.Some? && st.Brin? ==> forall id :: id in r.value <==> BrinLists(es, id, lo, hi)
    ensures r.Some? && st.Brin? ==> forall id :: id in es && InRange(es[id][0], lo, hi) ==> id in r.value
    ensures st.Hash? || st.Gin? ==> r == Some([])
  {
    match st {
      case Brin(ranges) =>
        var ids := BrinRange(ranges, es, lo, hi);
        r := Some(ids);
      case Btree(tree) =>
        if RangePanics(lo, hi) {
          return None;
        }
        var ids := TreeWalk(tree, es, key => KeyInRange(key, lo, hi));
        forall id | id in es
          ensures KeyInRange(es[id], lo, hi) <==> InRange(es[id][0], lo, hi)
        {
          SingleKeyInRange(es[id][0], lo, hi);
          assert es[id] == [es[id][0]];
        }
        r := Some(ids);
      case _ =>
        r := Some([]);
    }
  }

  // --- Equality, prefix and containment lookups -------------------------------------------

  /** On one column the hash key decides the value. */
  lemma OneColumnHash(es: Entries, key: Key)
    requires SingleColumn(es) && |key| == 1 && !HasNull(key)
    ensures forall id :: id in es && !HasNull(es[id]) && HashKey(es[id]) == HashKey(key) ==> es[id] == key
  {
    forall id | id in es && !HasNull(es[id]) && HashKey(es[id]) == HashKey(key)
      ensures es[id] == key
    {
      var a, b := es[id][0], key[0];
      assert es[id] == [a] && key == [b];
      assert a in es[id] && b in key;
      HashKeyInjective(a, b);
    }
  }

  /** A BRIN lookup of a key is that of the range from its first value to itself. */
  ghost predicate BrinListsKey(es: Entries, id: RowId, key: Key) {
    key != [] && !key[0].Null? && BrinLists(es, id, Some(Bound(key[0], true)), Some(Bound(key[0], true)))
  }

  /** `lookup_eq`, by store. */
  method LookupEq(st: Store, ghost es: Entries, key: Key) returns (r: seq<RowId>)
    requires Represents(st, es)
    ensures forall id :: id in r ==> id in es
    ensures st.Btree? ==> forall id :: id in r <==> id in es && es[id] == key
    ensures st.Hash? && !HasNull(key) ==>
      forall id :: id in r <==> id in es && !HasNull(es[id]) && HashKey(es[id]) == HashKey(key)
    ensures st.Hash? && HasNull(key) ==> r == []
    ensures st.Hash? && SingleColumn(es) && |key| == 1 && !HasNull(key) ==>
      forall id :: id in r <==> id in es && es[id] == key
    ensures st.Brin? ==> forall id :: id in r <==> BrinListsKey(es, id, key)
    ensures st.Gin? ==> forall id :: id in r <==> id in es
    ensures key != [] && !HasNull(key) ==> forall id :: id in es && es[id] == key ==> id in r
  {
    match st {
      case Btree(tree) =>
        r := ListOf(tree, key);
        assert forall id :: id in r <==> Has(tree, key, id);
      case Hash(buckets) =>
        if HasNull(key) {
          return [];
        }
        r := ListOf(buckets, HashKey(key));
        assert forall id :: id in r <==> Has(buckets, HashKey(key), id);
        if SingleColumn(es) && |key| == 1 {
          OneColumnHash(es, key);
        }
      case Brin(ranges) =>
        if key == [] || key[0].Null? {
          assert key != [] ==> HasNull(key);
          return [];
        }
        var b := Some(Bound(key[0], true));
        r := BrinRange(ranges, es, b, b);
        CmpEqual(key[0], key[0]);
      case Gin(_, all) =>
        r := all;
    }
  }

  /** The key starts with these values in the index order. */
  predicate StartsWith(key: Key, prefix: Key) {
    prefix == [] || (key != [] && Cmp(prefix[0], key[0]) == Equal && StartsWith(key[1..], prefix[1..]))
  }

  lemma {:induction false} StartsWithIsPrefix(key: Key, prefix: Key)
    ensures StartsWith(key, prefix) <==> prefix <= key
  {
    if prefix != [] && key != [] {
      CmpEqual(prefix[0], key[0]);
      StartsWithIsPrefix(key[1..], prefix[1..]);
      assert prefix == [prefix[0]] + prefix[1..] && key == [key[0]] + key[1..];
    }
  }

  /** `lookup_prefix`: only ordered stores have prefixes. */
  method LookupPrefix(st: Store, ghost es: Entries, prefix: Key) returns (r: seq<RowId>)
    requires Represents(st, es)
    ensures st.Btree? ==> forall id :: id in r <==> id in es && prefix <= es[id]
    ensures st.Btree? ==> InOrder(r, es)
    ensures !st.Btree? ==> r == []
  {
    if !st.Btree? {
      return [];
    }
    r := TreeWalk(st.tree, es, key => StartsWith(key, prefix));
    forall id | id in es
      ensures StartsWith(es[id], prefix) <==> prefix <= es[id]
    {
      StartsWithIsPrefix(es[id], prefix);
    }
  }

  /** `all_row_ids`: every entry, except that a hash store has none with a NULL. */
  method AllRowIds(st: Store, ghost es: Entries) returns (r: seq<RowId>)
    requires Represents(st, es)
    ensures forall id :: id in r <==> id in es && (st.Hash? ==> !HasNull(es[id]))
  {
    match st {
      case Btree(tree) =>
        r := TreeWalk(tree, es, key => true);
      case Hash(buckets) =>
        r := AllListed(buckets);
        forall id | id in es && !HasNull(es[id])
          ensures id in r
        {
          assert Has(buckets, HashKey(es[id]), id);
        }
      case Brin(ranges) =>
        var members := AllListed(ranges);
        r := MemberIds(members);
        forall id | id in es
          ensures id in r
        {
          assert Has(ranges, Block(id), BrinMember(id, Head(es[id])));
        }
      case Gin(_, all) =>
        r := all;
    }
  }

  function MemberIds(members: seq<BrinMember>): (r: seq<RowId>)
    ensures forall id :: id in r <==> exists m :: m in members && m.id == id
  {
    if members == [] then []
    else
      assert members == members[..|members| - 1] + [members[|members| - 1]];
      MemberIds(members[..|members| - 1]) + [members[|members| - 1].id]
  }

  /** The lists of every key, one after the other. */
  method AllListed<K(!new), V(!new)>(lists: Lists<K, V>) returns (r: seq<V>)
    ensures forall v :: v in r <==> exists k :: Has(lists, k, v)
  {
    r := [];
    var todo := lists.Keys;
    while todo != {}
      invariant todo <= lists.Keys
      invariant forall v :: v in r <==> exists k :: k !in todo && Has(lists, k, v)
      decreases todo
    {
      var key := Pick(todo);
      todo := todo - {key};
      ghost var before := r;
      r := r + lists[key];
      forall v
        ensures v in r <==> exists k :: k !in todo && Has(lists, k, v)
      {
        assert Has(lists, key, v) <==> v in lists[key];
        if v in before {
          var k :| k !in todo + {key} && Has(lists, k, v);
          assert k !in todo && Has(lists, k, v);
        }
      }
    }
  }

  /** `lookup_gin_contains`: exactly the rows filed under every needle. */
  method LookupContains(st: Store, ghost es: Entries, needles: seq<string>) returns (r: Option<seq<RowId>>)
    requires Represents(st, es)
    ensures r.Some? <==> st.Gin?
    ensures r.Some? ==> forall id :: id in r.value <==>
              id in es && forall n :: n in needles ==> n in GinTokensOf(Head(es[id]))
  {
    if !st.Gin? {
      return None;
    }
    var ids := st.all;
    for i := 0 to |needles|
      invariant forall id :: id in ids <==> id in es && forall n :: n in needles[..i] ==> n in GinTokensOf(Head(es[id]))
    {
      var needle := needles[i];
      assert needles[..i + 1] == needles[..i] + [needle];
      assert forall id :: Has(st.postings, needle, id) <==> id in es && needle in GinTokensOf(Head(es[id]));
      if needle !in st.postings {
        assert needle in needles;
        return Some([]);
      }
      ids := Intersect(ids, st.postings[needle]);
    }
    assert needles[..|needles|] == needles;
    r := Some(ids);
  }

  function Intersect(a: seq<RowId>, b: seq<RowId>): (r: seq<RowId>)
    ensures forall x :: x in r <==> x in a && x in b
  {
    if a == [] then []
    else
      var init, last := Intersect(a[..|a| - 1], b), a[|a| - 1];
      assert a == a[..|a| - 1] + [last];
      if last in b then init + [last] else init
  }
}
