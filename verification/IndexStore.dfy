/** Secondary indexes: the four stores, what each one holds for a given set of
entries, and what each lookup returns.

The contents of an index are its entries, a map from row id to key. `Represents`
says, store by store, that a store holds exactly those entries; inserting and
removing keep it, and the lookups are specified against the entries alone.
*/
module IndexStore {
  import opened Collections
  import opened Numerals
  import opened Values
  import opened Postings
  import opened ArrayText

  type Entries = map<RowId, Key>

  const BrinRangeSize: nat := 16

  /** The block range a row id falls in. */
  function Block(id: RowId): nat {
    id / BrinRangeSize
  }

  /** Blocks are runs of sixteen ids. */
  lemma BlockOf(id: RowId)
    ensures 16 * Block(id) <= id < 16 * Block(id) + 16
  {
  }

  /** A live row of a BRIN block range, kept so the summary can be recomputed. */
  datatype BrinMember = BrinMember(id: RowId, value: Value)

  datatype Store =
    | Btree(tree: Lists<Key, RowId>)
    | Hash(buckets: Lists<string, RowId>)
    | Brin(ranges: Lists<nat, BrinMember>)
    | Gin(postings: Lists<string, RowId>, all: seq<RowId>)

  datatype IndexMethod = BtreeMethod | GistMethod | SpGistMethod | HashMethod | BrinMethod | GinMethod

  /** GiST and SP-GiST are ordered stores too. */
  function EmptyStore(m: IndexMethod): Store {
    match m
    case HashMethod => Hash(map[])
    case BrinMethod => Brin(map[])
    case GinMethod => Gin(map[], [])
    case _ => Btree(map[])
  }

  // --- Keys ---------------------------------------------------------------------

  function HashPart(v: Value): string {
    (match v
     case Null => "N|"
     case Int(i) => "i" + IntText(i)
     case Text(t) => "s" + t
     case Bool(b) => if b then "b1" else "b0") + "|"
  }

  function HashKey(key: Key): string {
    if key == [] then "" else HashPart(key[0]) + HashKey(key[1..])
  }

  /** The first column; BRIN and GIN index only that one. */
  function Head(key: Key): Value {
    if key == [] then Null else key[0]
  }

  function GinTokensOf(v: Value): seq<string> {
    match ToText(v)
    case None => []
    case Some(text) => Tokens(text)
  }

  function Dedup(s: seq<string>): (r: seq<string>)
    ensures NoDup(r) && forall x :: x in r <==> x in s
  {
    if s == [] then []
    else
      var init, last := Dedup(s[..|s| - 1]), s[|s| - 1];
      assert s == s[..|s| - 1] + [last];
      if last in init then init else NoDupSnoc(init, last); init + [last]
  }

  // --- Insert and remove ------------------------------------------------------------

  function Insert(st: Store, key: Key, id: RowId): Store {
    match st
    case Btree(tree) => Btree(Add(tree, key, id))
    case Hash(buckets) => if HasNull(key) then st else Hash(Add(buckets, HashKey(key), id))
    case Brin(ranges) => Brin(Add(ranges, Block(id), BrinMember(id, Head(key))))
    case Gin(postings, all) => Gin(AddAll(postings, Dedup(GinTokensOf(Head(key))), id), all + [id])
  }

  /** Position of the member with this id, or the length. */
  function MemberOf(members: seq<BrinMember>, id: RowId): (i: nat)
    ensures i <= |members| && (i < |members| ==> members[i].id == id)
    ensures forall j :: 0 <= j < i ==> members[j].id != id
  {
    if members == [] then 0 else if members[0].id == id then 0 else 1 + MemberOf(members[1..], id)
  }

  function RemoveMember(ranges: Lists<nat, BrinMember>, block: nat, id: RowId): Lists<nat, BrinMember> {
    if block !in ranges then ranges
    else
      var i := MemberOf(ranges[block], id);
      WithList(ranges, block, if i < |ranges[block]| then SwapRemove(ranges[block], i) else ranges[block])
  }

  function Remove(st: Store, key: Key, id: RowId): Store {
    match st
    case Btree(tree) => Btree(Del(tree, key, id))
    case Hash(buckets) => if HasNull(key) then st else Hash(Del(buckets, HashKey(key), id))
    case Brin(ranges) => Brin(RemoveMember(ranges, Block(id), id))
    case Gin(postings, all) =>
      var i := IndexOf(all, id);
      Gin(DelAll(postings, Dedup(GinTokensOf(Head(key))), id), if i < |all| then SwapRemove(all, i) else all)
  }

  // --- What a store holds -------------------------------------------------------------

  ghost predicate TreeHolds(tree: Lists<Key, RowId>, es: Entries) {
    Clean(tree) && forall k, id :: Has(tree, k, id) <==> id in es && es[id] == k
  }

  ghost predicate BucketsHold(buckets: Lists<string, RowId>, es: Entries) {
    Clean(buckets) && forall h, id :: Has(buckets, h, id) <==> id in es && !HasNull(es[id]) && HashKey(es[id]) == h
  }

  ghost predicate RangesHold(ranges: Lists<nat, BrinMember>, es: Entries) {
    && Clean(ranges)
    && (forall b: nat, m: BrinMember ::
          Has(ranges, b, m) <==> m.id in es && b == Block(m.id) && m.value == Head(es[m.id]))
  }

  ghost predicate PostingsHold(postings: Lists<string, RowId>, all: seq<RowId>, es: Entries) {
    && Clean(postings) && NoDup(all)
    && (forall id :: id in all <==> id in es)
    && (forall tok, id :: Has(postings, tok, id) <==> id in es && tok in GinTokensOf(Head(es[id])))
  }

  ghost predicate Represents(st: Store, es: Entries) {
    match st
    case Btree(tree) => TreeHolds(tree, es)
    case Hash(buckets) => BucketsHold(buckets, es)
    case Brin(ranges) => RangesHold(ranges, es)
    case Gin(postings, all) => PostingsHold(postings, all, es)
  }

  lemma EmptyRepresents(m: IndexMethod)
    ensures Represents(EmptyStore(m), map[])
  {
  }

  lemma InsertRepresents(st: Store, es: Entries, key: Key, id: RowId)
    requires Represents(st, es) && id !in es
    ensures Represents(Insert(st, key, id), es[id := key])
  {
    match st
    case Btree(tree) => TreeInsert(tree, es, key, id);
    case Hash(buckets) => BucketsInsert(buckets, es, key, id);
    case Brin(ranges) => RangesInsert(ranges, es, key, id);
    case Gin(postings, all) => PostingsInsert(postings, all, es, key, id);
  }

  lemma TreeInsert(tree: Lists<Key, RowId>, es: Entries, key: Key, id: RowId)
    requires TreeHolds(tree, es) && id !in es
    ensures TreeHolds(Add(tree, key, id), es[id := key])
  {
    AddClean(tree, key, id);
    forall k, x
      ensures Has(Add(tree, key, id), k, x) <==> x in es[id := key] && es[id := key][x] == k
    {
      AddHas(tree, key, id, k, x);
    }
  }

  lemma BucketsInsert(buckets: Lists<string, RowId>, es: Entries, key: Key, id: RowId)
    requires BucketsHold(buckets, es) && id !in es
    ensures BucketsHold(if HasNull(key) then buckets else Add(buckets, HashKey(key), id), es[id := key])
  {
    if !HasNull(key) {
      AddClean(buckets, HashKey(key), id);
      forall h, x
        ensures Has(Add(buckets, HashKey(key), id), h, x) <==>
                x in es[id := key] && !HasNull(es[id := key][x]) && HashKey(es[id := key][x]) == h
      {
        AddHas(buckets, HashKey(key), id, h, x);
      }
    }
  }

  lemma RangesInsert(ranges: Lists<nat, BrinMember>, es: Entries, key: Key, id: RowId)
    requires RangesHold(ranges, es) && id !in es
    ensures RangesHold(Add(ranges, Block(id), BrinMember(id, Head(key))), es[id := key])
  {
    var b0, m0 := Block(id), BrinMember(id, Head(key));
    AddClean(ranges, b0, m0);
    forall b: nat, m: BrinMember
      ensures Has(Add(ranges, b0, m0), b, m) <==>
              m.id in es[id := key] && b == Block(m.id) && m.value == Head(es[id := key][m.id])
    {
      AddHas(ranges, b0, m0, b, m);
    }
  }

  lemma PostingsInsert(postings: Lists<string, RowId>, all: seq<RowId>, es: Entries, key: Key, id: RowId)
    requires PostingsHold(postings, all, es) && id !in es
    ensures PostingsHold(AddAll(postings, Dedup(GinTokensOf(Head(key))), id), all + [id], es[id := key])
  {
    var toks := Dedup(GinTokensOf(Head(key)));
    AddAllClean(postings, toks, id);
    NoDupSnoc(all, id);
    forall tok, x
      ensures Has(AddAll(postings, toks, id), tok, x) <==>
              x in es[id := key] && tok in GinTokensOf(Head(es[id := key][x]))
    {
      AddAllHas(postings, toks, id, tok, x);
    }
  }

  lemma RemoveRepresents(st: Store, es: Entries, id: RowId)
    requires Represents(st, es) && id in es
    ensures Represents(Remove(st, es[id], id), es - {id})
  {
    match st
    case Btree(tree) => TreeRemove(tree, es, id);
    case Hash(buckets) => BucketsRemove(buckets, es, id);
    case Brin(ranges) => RangesRemove(ranges, es, id);
    case Gin(postings, all) => PostingsRemove(postings, all, es, id);
  }

  lemma TreeRemove(tree: Lists<Key, RowId>, es: Entries, id: RowId)
    requires TreeHolds(tree, es) && id in es
    ensures TreeHolds(Del(tree, es[id], id), es - {id})
  {
    DelClean(tree, es[id], id);
    forall k, x
      ensures Has(Del(tree, es[id], id), k, x) <==> x in es - {id} && es[x] == k
    {
      DelHas(tree, es[id], id, k, x);
      assert Has(tree, k, x) <==> x in es && es[x] == k;
    }
  }

  lemma BucketsRemove(buckets: Lists<string, RowId>, es: Entries, id: RowId)
    requires BucketsHold(buckets, es) && id in es
    ensures BucketsHold(if HasNull(es[id]) then buckets else Del(buckets, HashKey(es[id]), id), es - {id})
  {
    if !HasNull(es[id]) {
      DelClean(buckets, HashKey(es[id]), id);
      forall h, x
        ensures Has(Del(buckets, HashKey(es[id]), id), h, x) <==>
                x in es - {id} && !HasNull(es[x]) && HashKey(es[x]) == h
      {
        DelHas(buckets, HashKey(es[id]), id, h, x);
        assert Has(buckets, h, x) <==> x in es && !HasNull(es[x]) && HashKey(es[x]) == h;
      }
    }
  }

  /** Removing by id is removing the one member with that id. */
  lemma RemoveMemberIsDel(ranges: Lists<nat, BrinMember>, es: Entries, id: RowId)
    requires RangesHold(ranges, es) && id in es
    ensures RemoveMember(ranges, Block(id), id) == Del(ranges, Block(id), BrinMember(id, Head(es[id])))
  {
    var b, m := Block(id), BrinMember(id, Head(es[id]));
    assert Has(ranges, b, m);
    var l := ranges[b];
    var i, j := MemberOf(l, id), IndexOf(l, m);
    assert l[j] == m;
    assert i < |l|;
    var x := l[i];
    assert Has(ranges, b, x);
    assert x == m;
    assert i == j;
  }

  lemma RangesRemove(ranges: Lists<nat, BrinMember>, es: Entries, id: RowId)
    requires RangesHold(ranges, es) && id in es
    ensures RangesHold(RemoveMember(ranges, Block(id), id), es - {id})
  {
    var b0, m0 := Block(id), BrinMember(id, Head(es[id]));
    RemoveMemberIsDel(ranges, es, id);
    DelClean(ranges, b0, m0);
    forall b: nat, m: BrinMember
      ensures Has(Del(ranges, b0, m0), b, m) <==>
              m.id in es - {id} && b == Block(m.id) && m.value == Head(es[m.id])
    {
      DelHas(ranges, b0, m0, b, m);
      assert Has(ranges, b, m) <==> m.id in es && b == Block(m.id) && m.value == Head(es[m.id]);
    }
  }

  lemma PostingsRemove(postings: Lists<string, RowId>, all: seq<RowId>, es: Entries, id: RowId)
    requires PostingsHold(postings, all, es) && id in es
    ensures IndexOf(all, id) < |all|
    ensures PostingsHold(DelAll(postings, Dedup(GinTokensOf(Head(es[id]))), id),
                         SwapRemove(all, IndexOf(all, id)), es - {id})
  {
    var toks := Dedup(GinTokensOf(Head(es[id])));
    assert id in all;
    var i := IndexOf(all, id);
    DelAllClean(postings, toks, id);
    SwapRemoveNoDup(all, i);
    forall x
      ensures x in SwapRemove(all, i) <==> x in es - {id}
    {
      SwapRemoveMembers(all, i, x);
    }
    forall tok, x
      ensures Has(DelAll(postings, toks, id), tok, x) <==> x in es - {id} && tok in GinTokensOf(Head(es[x]))
    {
      DelAllHas(postings, toks, id, tok, x);
      assert Has(postings, tok, x) <==> x in es && tok in GinTokensOf(Head(es[x]));
    }
  }

  // --- Which entries a store tells apart ------------------------------------------------

  function KeyAt(es: Entries, id: RowId): Option<Key> {
    if id in es then Some(es[id]) else None
  }

  /** The bucket a key is filed under; a key with a NULL is in none. */
  function BucketOf(key: Option<Key>): Option<string> {
    if key.None? || HasNull(key.value) then None else Some(HashKey(key.value))
  }

  predicate SameTokens(a: Key, b: Key) {
    (forall tok :: tok in GinTokensOf(Head(a)) ==> tok in GinTokensOf(Head(b)))
    && (forall tok :: tok in GinTokensOf(Head(b)) ==> tok in GinTokensOf(Head(a)))
  }

  /** A store of this kind files the two keys alike: a hash store by bucket, BRIN by the
      first column, GIN by its tokens. */
  predicate SameFiled(st: Store, a: Option<Key>, b: Option<Key>) {
    match st
    case Btree(_) => a == b
    case Hash(_) => BucketOf(a) == BucketOf(b)
    case Brin(_) => a.Some? == b.Some? && (a.Some? ==> Head(a.value) == Head(b.value))
    case Gin(_, _) => a.Some? == b.Some? && (a.Some? ==> SameTokens(a.value, b.value))
  }

  predicate AllSameFiled(st: Store, a: Entries, b: Entries) {
    && (forall id :: id in a ==> SameFiled(st, KeyAt(a, id), KeyAt(b, id)))
    && (forall id :: id in b ==> SameFiled(st, KeyAt(a, id), KeyAt(b, id)))
  }

  /** A store that holds some entries holds others exactly when it files them alike. */
  lemma RepresentsExactly(st: Store, a: Entries, b: Entries)
    requires Represents(st, a)
    ensures Represents(st, b) <==> AllSameFiled(st, a, b)
  {
    match st
    case Btree(tree) => TreeExactly(tree, a, b);
    case Hash(buckets) => BucketsExactly(buckets, a, b);
    case Brin(ranges) => RangesExactly(ranges, a, b);
    case Gin(postings, all) => PostingsExactly(postings, all, a, b);
  }

  lemma TreeExactly(tree: Lists<Key, RowId>, a: Entries, b: Entries)
    requires TreeHolds(tree, a)
    ensures TreeHolds(tree, b) <==> AllSameFiled(Btree(tree), a, b)
  {
    if TreeHolds(tree, b) {
      forall id | id in a || id in b
        ensures KeyAt(a, id) == KeyAt(b, id)
      {
        assert id in a ==> Has(tree, a[id], id);
        assert id in b ==> Has(tree, b[id], id);
      }
    }
    if AllSameFiled(Btree(tree), a, b) {
      forall k, id
        ensures Has(tree, k, id) <==> id in b && b[id] == k
      {
        assert id in a || id in b ==> KeyAt(a, id) == KeyAt(b, id);
      }
    }
  }

  lemma BucketsExactly(buckets: Lists<string, RowId>, a: Entries, b: Entries)
    requires BucketsHold(buckets, a)
    ensures BucketsHold(buckets, b) <==> AllSameFiled(Hash(buckets), a, b)
  {
    if BucketsHold(buckets, b) {
      forall id | id in a || id in b
        ensures BucketOf(KeyAt(a, id)) == BucketOf(KeyAt(b, id))
      {
        assert BucketOf(KeyAt(a, id)).Some? ==> Has(buckets, HashKey(a[id]), id);
        assert BucketOf(KeyAt(b, id)).Some? ==> Has(buckets, HashKey(b[id]), id);
      }
    }
    if AllSameFiled(Hash(buckets), a, b) {
      forall h, id
        ensures Has(buckets, h, id) <==> id in b && !HasNull(b[id]) && HashKey(b[id]) == h
      {
        assert id in a || id in b ==> BucketOf(KeyAt(a, id)) == BucketOf(KeyAt(b, id));
      }
    }
  }

  lemma RangesExactly(ranges: Lists<nat, BrinMember>, a: Entries, b: Entries)
    requires RangesHold(ranges, a)
    ensures RangesHold(ranges, b) <==> AllSameFiled(Brin(ranges), a, b)
  {
    if RangesHold(ranges, b) {
      forall id | id in a || id in b
        ensures SameFiled(Brin(ranges), KeyAt(a, id), KeyAt(b, id))
      {
        assert id in a ==> Has(ranges, Block(id), BrinMember(id, Head(a[id])));
        assert id in b ==> Has(ranges, Block(id), BrinMember(id, Head(b[id])));
      }
    }
    if AllSameFiled(Brin(ranges), a, b) {
      forall k: nat, m: BrinMember
        ensures Has(ranges, k, m) <==> m.id in b && k == Block(m.id) && m.value == Head(b[m.id])
      {
        assert m.id in a || m.id in b ==> SameFiled(Brin(ranges), KeyAt(a, m.id), KeyAt(b, m.id));
      }
    }
  }

  lemma PostingsExactly(postings: Lists<string, RowId>, all: seq<RowId>, a: Entries, b: Entries)
    requires PostingsHold(postings, all, a)
    ensures PostingsHold(postings, all, b) <==> AllSameFiled(Gin(postings, all), a, b)
  {
    var st := Gin(postings, all);
    if PostingsHold(postings, all, b) {
      forall id | id in a || id in b
        ensures SameFiled(st, KeyAt(a, id), KeyAt(b, id))
      {
        assert id in all;
        forall tok
          ensures tok in GinTokensOf(Head(a[id])) <==> tok in GinTokensOf(Head(b[id]))
        {
          assert Has(postings, tok, id) <==> tok in GinTokensOf(Head(a[id]));
        }
      }
    }
    if AllSameFiled(st, a, b) {
      forall id
        ensures id in a <==> id in b
        ensures id in b ==> SameTokens(a[id], b[id])
      {
        assert id in a || id in b ==> SameFiled(st, KeyAt(a, id), KeyAt(b, id));
      }
    }
  }

  /** B-tree, hash, BRIN or GIN, whatever they hold. */
  predicate OneKind(st: Store, st': Store) {
    st.Btree? == st'.Btree? && st.Hash? == st'.Hash? && st.Brin? == st'.Brin?
  }
}
