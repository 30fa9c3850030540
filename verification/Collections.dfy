/** Small facts about the built-in collections that several models use. */
module Collections {

  datatype Option<+T> = None | Some(value: T)

  /** A row identifier that stays the same while other rows come and go. */
  type RowId = nat

  /** Some element of a non-empty set, in no particular order. */
  method Pick<T>(s: set<T>) returns (x: T)
    requires s != {}
    ensures x in s
  {
    x :| x in s;
  }

  lemma Member<T>(s: set<T>) returns (x: T)
    requires s != {}
    ensures x in s
  {
    x :| x in s;
  }

  lemma SliceNext<T>(s: seq<T>, from: nat, pos: nat)
    requires from <= pos < |s|
    ensures s[from..pos + 1] == s[from..pos] + [s[pos]]
  {
  }

  lemma SuffixNext<T>(s: seq<T>, pos: nat)
    requires pos < |s|
    ensures s[pos..][1..] == s[pos + 1..] && s[pos..] != [] && s[pos..][0] == s[pos]
  {
  }

  lemma SuffixDrop<T>(s: seq<T>, pos: nat, n: nat)
    requires pos + n <= |s|
    ensures s[pos..][n..] == s[pos + n..] && s[pos..][..n] == s[pos..pos + n]
  {
  }
}
