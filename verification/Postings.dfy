/** Lists of entries under keys, the building block of every index store: an
entry is appended to its key's list, and taken out by `swap_remove`, the key
going with its last entry.
*/
module Postings {

  type Lists<K, E> = map<K, seq<E>>

  ghost predicate NoDup<E>(s: seq<E>) {
    forall i, j :: 0 <= i < j < |s| ==> s[i] != s[j]
  }

  ghost predicate Has<K, E>(m: Lists<K, E>, k: K, e: E) {
    k in m && e in m[k]
  }

  /** No list is empty and none has an entry twice. */
  ghost predicate Clean<K, E>(m: Lists<K, E>) {
    forall k :: k in m ==> m[k] != [] && NoDup(m[k])
  }

  function ListOf<K, E>(m: Lists<K, E>, k: K): seq<E> {
    if k in m then m[k] else []
  }

  function Add<K, E>(m: Lists<K, E>, k: K, e: E): Lists<K, E> {
    m[k := ListOf(m, k) + [e]]
  }

  /** The last element takes the place of the removed one. */
  function SwapRemove<E>(s: seq<E>, i: nat): seq<E>
    requires i < |s|
  {
    s[i := s[|s| - 1]][..|s| - 1]
  }

  /** Position of the first occurrence, or the length. */
  function IndexOf<E(==)>(s: seq<E>, e: E): (i: nat)
    ensures i <= |s| && (i < |s| ==> s[i] == e)
    ensures i == |s| <==> e !in s
  {
    if s == [] then 0 else if s[0] == e then 0 else 1 + IndexOf(s[1..], e)
  }

  function WithList<K, E>(m: Lists<K, E>, k: K, l: seq<E>): Lists<K, E> {
    if l == [] then m - {k} else m[k := l]
  }

  function Del<K, E(==)>(m: Lists<K, E>, k: K, e: E): Lists<K, E> {
    if k !in m then m
    else
      var i := IndexOf(m[k], e);
      WithList(m, k, if i < |m[k]| then SwapRemove(m[k], i) else m[k])
  }

  lemma SwapRemoveMembers<E>(s: seq<E>, i: nat, x: E)
    requires i < |s| && NoDup(s)
    ensures x in SwapRemove(s, i) <==> x in s && x != s[i]
  {
    var n := |s| - 1;
    var r := SwapRemove(s, i);
    if x in s && x != s[i] {
      var j :| 0 <= j < |s| && s[j] == x;
      if j == n {
        assert r[i] == x;
      } else {
        assert r[j] == x;
      }
    }
    if x in r {
      var j :| 0 <= j < |r| && r[j] == x;
      assert x == if j == i then s[n] else s[j];
    }
  }

  lemma SwapRemoveNoDup<E>(s: seq<E>, i: nat)
    requires i < |s| && NoDup(s)
    ensures NoDup(SwapRemove(s, i))
  {
  }

  lemma NoDupSnoc<E>(s: seq<E>, e: E)
    requires NoDup(s) && e !in s
    ensures NoDup(s + [e])
  {
  }

  lemma AddHas<K, E>(m: Lists<K, E>, k: K, e: E, k': K, e': E)
    ensures Has(Add(m, k, e), k', e') <==> Has(m, k', e') || (k' == k && e' == e)
  {
  }

  lemma AddClean<K, E>(m: Lists<K, E>, k: K, e: E)
    requires Clean(m) && !Has(m, k, e)
    ensures Clean(Add(m, k, e))
  {
    NoDupSnoc(ListOf(m, k), e);
  }

  lemma DelHas<K, E>(m: Lists<K, E>, k: K, e: E, k': K, e': E)
    requires Clean(m)
    ensures Has(Del(m, k, e), k', e') <==> Has(m, k', e') && !(k' == k && e' == e)
  {
    if k in m {
      var i := IndexOf(m[k], e);
      if i < |m[k]| {
        SwapRemoveMembers(m[k], i, e');
      }
    }
  }

  lemma DelClean<K, E>(m: Lists<K, E>, k: K, e: E)
    requires Clean(m)
    ensures Clean(Del(m, k, e))
  {
    if k in m {
      var i := IndexOf(m[k], e);
      if i < |m[k]| {
        SwapRemoveNoDup(m[k], i);
      }
    }
  }

  // --- One entry under several keys -------------------------------------------------

  function AddAll<K, E>(m: Lists<K, E>, ks: seq<K>, e: E): Lists<K, E> {
    if ks == [] then m else Add(AddAll(m, ks[..|ks| - 1], e), ks[|ks| - 1], e)
  }

  function DelAll<K, E(==)>(m: Lists<K, E>, ks: seq<K>, e: E): Lists<K, E> {
    if ks == [] then m else Del(DelAll(m, ks[..|ks| - 1], e), ks[|ks| - 1], e)
  }

  lemma {:induction false} AddAllHas<K, E>(m: Lists<K, E>, ks: seq<K>, e: E, k': K, e': E)
    ensures Has(AddAll(m, ks, e), k', e') <==> Has(m, k', e') || (k' in ks && e' == e)
  {
    if ks != [] {
      var init, k := ks[..|ks| - 1], ks[|ks| - 1];
      assert ks == init + [k];
      AddAllHas(m, init, e, k', e');
      AddHas(AddAll(m, init, e), k, e, k', e');
    }
  }

  lemma {:induction false} AddAllClean<K, E>(m: Lists<K, E>, ks: seq<K>, e: E)
    requires Clean(m) && NoDup(ks) && forall k :: k in ks ==> !Has(m, k, e)
    ensures Clean(AddAll(m, ks, e))
  {
    if ks != [] {
      var init, k := ks[..|ks| - 1], ks[|ks| - 1];
      assert ks == init + [k] && k !in init;
      AddAllClean(m, init, e);
      AddAllHas(m, init, e, k, e);
      AddClean(AddAll(m, init, e), k, e);
    }
  }

  lemma {:induction false} DelAllClean<K, E>(m: Lists<K, E>, ks: seq<K>, e: E)
    requires Clean(m)
    ensures Clean(DelAll(m, ks, e))
  {
    if ks != [] {
      DelAllClean(m, ks[..|ks| - 1], e);
      DelClean(DelAll(m, ks[..|ks| - 1], e), ks[|ks| - 1], e);
    }
  }

  lemma {:induction false} DelAllHas<K, E>(m: Lists<K, E>, ks: seq<K>, e: E, k': K, e': E)
    requires Clean(m)
    ensures Has(DelAll(m, ks, e), k', e') <==> Has(m, k', e') && !(k' in ks && e' == e)
  {
    if ks != [] {
      var init, k := ks[..|ks| - 1], ks[|ks| - 1];
      assert ks == init + [k];
      DelAllHas(m, init, e, k', e');
      DelAllClean(m, init, e);
      DelHas(DelAll(m, init, e), k, e, k', e');
    }
  }
}
