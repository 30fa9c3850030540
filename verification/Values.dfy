/** SQL values and the total order the indexes use. */
module Values {
  import opened Collections
  import opened Numerals

  datatype Value = Null | Int(i: int) | Bool(b: bool) | Text(s: string)

  type Row = seq<Value>

  /** Text format; NULL has none. */
  function ToText(v: Value): Option<string> {
    match v
    case Null => None
    case Int(i) => Some(IntText(i))
    case Bool(b) => Some(if b then "t" else "f")
    case Text(s) => Some(s)
  }

  /** An integer is its digits without leading zeros, after a minus sign when it is negative; a
      boolean is one letter. */
  lemma ToTextExactly(i: int)
    ensures i >= 0 ==> ParseDigits(ToText(Int(i)).value) == Some(i)
    ensures i < 0 ==> var s := ToText(Int(i)).value; s != "" && s[0] == '-' && ParseDigits(s[1..]) == Some(-i)
    ensures i != 0 ==> '0' != ToText(Int(i)).value[if i < 0 then 1 else 0]
    ensures ToText(Bool(true)) == Some("t") && ToText(Bool(false)) == Some("f") && ToText(Null) == None
  {
    var n := if i < 0 then -i else i;
    DigitsRoundTrip(n);
    DigitsForm(n);
    assert i < 0 ==> IntText(i)[1..] == Digits(n);
  }

  datatype Ordering = Less | Equal | Greater {
    function Flip(): Ordering {
      match this
      case Less => Greater
      case Equal => Equal
      case Greater => Less
    }
  }

  function CmpInt(a: int, b: int): Ordering {
    if a < b then Less else if a == b then Equal else Greater
  }

  function CmpText(a: string, b: string): Ordering {
    if a == [] && b == [] then Equal
    else if a == [] then Less
    else if b == [] then Greater
    else if a[0] != b[0] then CmpInt(a[0] as int, b[0] as int)
    else CmpText(a[1..], b[1..])
  }

  function TypeRank(v: Value): nat {
    match v
    case Bool(_) => 0
    case Int(_) => 1
    case Text(_) => 3
    case Null => 4
  }

  /** `cmp_value`: NULL last, like kinds by value, unlike kinds by rank. */
  function Cmp(a: Value, b: Value): Ordering {
    match (a, b)
    case (Null, Null) => Equal
    case (Null, _) => Greater
    case (_, Null) => Less
    case (Int(x), Int(y)) => CmpInt(x, y)
    case (Bool(x), Bool(y)) => if x == y then Equal else if y then Less else Greater
    case (Text(x), Text(y)) => CmpText(x, y)
    case _ => CmpInt(TypeRank(a), TypeRank(b))
  }

  // --- It is a total order whose equality is equality -----------------------------

  lemma {:induction false} CmpTextEqual(a: string, b: string)
    ensures CmpText(a, b) == Equal <==> a == b
    ensures CmpText(b, a) == CmpText(a, b).Flip()
  {
    if a != [] && b != [] {
      assert a == [a[0]] + a[1..] && b == [b[0]] + b[1..];
      if a[0] == b[0] {
        CmpTextEqual(a[1..], b[1..]);
      }
    }
  }

  lemma {:induction false} CmpTextTransitive(a: string, b: string, c: string)
    requires CmpText(a, b) == Less && CmpText(b, c) == Less
    ensures CmpText(a, c) == Less
  {
    if a != [] && b != [] && c != [] && a[0] == b[0] == c[0] {
      CmpTextTransitive(a[1..], b[1..], c[1..]);
    }
  }

  /** `a` is a proper prefix of `b`, or has the smaller character where they first differ. */
  ghost predicate TextBefore(a: string, b: string) {
    || (a <= b && a != b)
    || exists k :: DiffersAt(a, b, k) && a[k] < b[k]
  }

  ghost predicate DiffersAt<T>(a: seq<T>, b: seq<T>, k: int) {
    0 <= k < |a| && k < |b| && a[..k] == b[..k] && a[k] != b[k]
  }

  lemma FirstSame<T>(a: seq<T>, b: seq<T>, k: int)
    requires DiffersAt(a, b, k)
    ensures k > 0 ==> a[0] == b[0]
  {
    if k > 0 {
      assert a[..k][0] == a[0] && b[..k][0] == b[0];
    }
  }

  /** Past a common first element, the first difference is one further on. */
  lemma DiffersNext<T>(a: seq<T>, b: seq<T>, k: int)
    requires a != [] && b != [] && a[0] == b[0] && 0 < k
    ensures DiffersAt(a, b, k) <==> DiffersAt(a[1..], b[1..], k - 1)
  {
    if DiffersAt(a, b, k) {
      assert a[1..][..k - 1] == a[..k][1..] && b[1..][..k - 1] == b[..k][1..];
    }
    if DiffersAt(a[1..], b[1..], k - 1) {
      assert a[..k] == [a[0]] + a[1..][..k - 1] && b[..k] == [b[0]] + b[1..][..k - 1];
    }
  }

  lemma PrefixNext<T>(a: seq<T>, b: seq<T>)
    requires a != [] && b != [] && a[0] == b[0]
    ensures a <= b && a != b <==> a[1..] <= b[1..] && a[1..] != b[1..]
  {
    assert a == [a[0]] + a[1..] && b == [b[0]] + b[1..];
  }

  /** Text is compared lexicographically. */
  lemma {:induction false} CmpTextExactly(a: string, b: string)
    ensures CmpText(a, b) == Less <==> TextBefore(a, b)
  {
    if a == [] || b == [] {
      assert forall k :: !DiffersAt(a, b, k);
    } else if a[0] != b[0] {
      forall k | DiffersAt(a, b, k)
        ensures k == 0
      {
        FirstSame(a, b, k);
      }
      assert DiffersAt(a, b, 0);
    } else {
      CmpTextExactly(a[1..], b[1..]);
      PrefixNext(a, b);
      if k :| DiffersAt(a, b, k) && a[k] < b[k] {
        DiffersNext(a, b, k);
        assert a[1..][k - 1] < b[1..][k - 1];
      }
      if k :| DiffersAt(a[1..], b[1..], k) && a[1..][k] < b[1..][k] {
        DiffersNext(a, b, k + 1);
        assert a[k + 1] < b[k + 1];
      }
    }
  }

  /** Booleans come before integers, those before texts, and NULL last; among themselves
      false before true, smaller before larger, texts lexicographically. */
  ghost predicate Before(a: Value, b: Value) {
    match (a, b)
    case (Bool(x), Bool(y)) => !x && y
    case (Int(x), Int(y)) => x < y
    case (Text(x), Text(y)) => TextBefore(x, y)
    case (Bool(_), _) => true
    case (Int(_), Text(_)) => true
    case (Int(_), Null) => true
    case (Text(_), Null) => true
    case _ => false
  }

  lemma CmpExactly(a: Value, b: Value)
    ensures Cmp(a, b) == Less <==> Before(a, b)
    ensures Cmp(a, b) == Greater <==> Before(b, a)
  {
    CmpEqual(a, b);
    match (a, b)
    case (Text(x), Text(y)) =>
      CmpTextExactly(x, y);
      CmpTextExactly(y, x);
    case _ =>
  }

  lemma CmpEqual(a: Value, b: Value)
    ensures Cmp(a, b) == Equal <==> a == b
    ensures Cmp(b, a) == Cmp(a, b).Flip()
  {
    match (a, b)
    case (Text(x), Text(y)) => CmpTextEqual(x, y);
    case _ =>
  }

  lemma CmpTransitive(a: Value, b: Value, c: Value)
    requires Cmp(a, b) == Less && Cmp(b, c) == Less
    ensures Cmp(a, c) == Less
  {
    match (a, b, c)
    case (Text(x), Text(y), Text(z)) => CmpTextTransitive(x, y, z);
    case _ =>
  }

  /** Not above, in the index order. */
  predicate Le(a: Value, b: Value) {
    Cmp(a, b) != Greater
  }

  lemma LeTransitive(a: Value, b: Value, c: Value)
    requires Le(a, b) && Le(b, c)
    ensures Le(a, c)
    ensures Cmp(a, b) == Less || Cmp(b, c) == Less ==> Cmp(a, c) == Less
  {
    CmpEqual(a, b);
    CmpEqual(b, c);
    if Cmp(a, b) == Less && Cmp(b, c) == Less {
      CmpTransitive(a, b, c);
    }
  }

  // --- Keys of several columns --------------------------------------------------------

  type Key = seq<Value>

  /** Lexicographic, as slices compare. */
  function CmpKey(a: Key, b: Key): Ordering {
    if a == [] && b == [] then Equal
    else if a == [] then Less
    else if b == [] then Greater
    else if Cmp(a[0], b[0]) != Equal then Cmp(a[0], b[0])
    else CmpKey(a[1..], b[1..])
  }

  lemma {:induction false} CmpKeyEqual(a: Key, b: Key)
    ensures CmpKey(a, b) == Equal <==> a == b
    ensures CmpKey(b, a) == CmpKey(a, b).Flip()
  {
    if a != [] && b != [] {
      CmpEqual(a[0], b[0]);
      assert a == [a[0]] + a[1..] && b == [b[0]] + b[1..];
      if a[0] == b[0] {
        CmpKeyEqual(a[1..], b[1..]);
      }
    }
  }

  lemma {:induction false} CmpKeyTransitive(a: Key, b: Key, c: Key)
    requires CmpKey(a, b) == Less && CmpKey(b, c) == Less
    ensures CmpKey(a, c) == Less
  {
    if a != [] && b != [] && c != [] {
      CmpEqual(a[0], b[0]);
      CmpEqual(b[0], c[0]);
      if Cmp(a[0], b[0]) == Less && Cmp(b[0], c[0]) == Less {
        CmpTransitive(a[0], b[0], c[0]);
      } else if a[0] == b[0] == c[0] {
        CmpKeyTransitive(a[1..], b[1..], c[1..]);
      }
    }
  }

  /** Keys are compared lexicographically, column by column. */
  ghost predicate KeyBefore(a: Key, b: Key) {
    || (a <= b && a != b)
    || exists k :: DiffersAt(a, b, k) && Before(a[k], b[k])
  }

  lemma {:induction false} CmpKeyExactly(a: Key, b: Key)
    ensures CmpKey(a, b) == Less <==> KeyBefore(a, b)
  {
    if a == [] || b == [] {
      assert forall k :: !DiffersAt(a, b, k);
    } else if a[0] != b[0] {
      CmpEqual(a[0], b[0]);
      CmpExactly(a[0], b[0]);
      forall k | DiffersAt(a, b, k)
        ensures k == 0
      {
        FirstSame(a, b, k);
      }
      assert DiffersAt(a, b, 0);
    } else {
      CmpEqual(a[0], b[0]);
      CmpKeyExactly(a[1..], b[1..]);
      PrefixNext(a, b);
      if k :| DiffersAt(a, b, k) && Before(a[k], b[k]) {
        CmpEqual(a[k], b[k]);
        DiffersNext(a, b, k);
        assert Before(a[1..][k - 1], b[1..][k - 1]);
      }
      if k :| DiffersAt(a[1..], b[1..], k) && Before(a[1..][k], b[1..][k]) {
        DiffersNext(a, b, k + 1);
        assert Before(a[k + 1], b[k + 1]);
      }
    }
  }

  lemma CmpKeySingle(a: Value, b: Value)
    ensures CmpKey([a], [b]) == Cmp(a, b)
  {
    assert [a][1..] == [] && [b][1..] == [];
  }

  predicate HasNull(key: Key) {
    exists v :: v in key && v.Null?
  }
}
