/** Choosing rows through an index: the executor turns a WHERE filter into an index
lookup when it can, and always re-checks the filter on the rows it gets back.

An index scan therefore never returns a wrong row. It returns every right one as
long as the filter compares like with like, because an index orders unlike kinds
by rank while a comparison converts text to a number.
*/
module Planner {
  import opened Collections
  import opened Numerals
  import opened Values
  import opened ArrayText
  import opened IndexLookup

  // --- Filters ---------------------------------------------------------------------

  /** `Computed` is any other expression, told apart by a number. */
  datatype Operand = Column(col: nat) | Const(value: Value) | Computed(id: nat)

  datatype CmpOp = Eq | Lt | LtEq | Gt | GtEq {
    /** The operator with its operands swapped. */
    function Flip(): CmpOp {
      match this
      case Eq => Eq
      case Lt => Gt
      case LtEq => GtEq
      case Gt => Lt
      case GtEq => LtEq
    }

    predicate Accepts(o: Ordering) {
      match this
      case Eq => o == Equal
      case Lt => o == Less
      case LtEq => o != Greater
      case Gt => o == Greater
      case GtEq => o != Less
    }
  }

  datatype Filter =
    | Compare(op: CmpOp, l: Operand, r: Operand)
    | InList(e: Operand, list: seq<Operand>)
    | Between(e: Operand, lo: Operand, hi: Operand)
    | Contains(l: Operand, r: Operand)
    | And(left: Filter, right: Filter)
    | Other(id: nat)

  /** What the filter language takes from outside: the number a text spells, the range
      and jsonb meanings of `@>`, which come before the array one, and what other
      expressions and tests give on a row. */
  datatype Env = Env(
    number: string -> Option<real>,
    special: (string, string) -> Option<bool>,
    compute: (nat, Row) -> Option<Value>,
    test: (nat, Row) -> Verdict)

  /** What a filter evaluates to on a row. */
  datatype Verdict = True | False | Unknown | Failure

  function Eval(env: Env, o: Operand, row: Row): Option<Value> {
    match o
    case Column(c) => if c < |row| then Some(row[c]) else None
    case Const(v) => Some(v)
    case Computed(id) => env.compute(id, row)
  }

  function CmpReal(a: real, b: real): Ordering {
    if a < b then Less else if a == b then Equal else Greater
  }

  function CompareIntText(number: string -> Option<real>, i: int, s: string): Ordering {
    match number(s)
    case Some(x) => CmpReal(i as real, x)
    case None => CmpText(IntText(i), s)
  }

  /** `compare_values`. */
  function CompareValues(number: string -> Option<real>, l: Value, r: Value): Option<Ordering> {
    match (l, r)
    case (Null, Null) => Some(Equal)
    case (Null, _) => Some(Greater)
    case (_, Null) => Some(Less)
    case (Int(a), Int(b)) => Some(CmpInt(a, b))
    case (Bool(a), Bool(b)) => Some(if a == b then Equal else if b then Less else Greater)
    case (Text(a), Text(b)) => Some(CmpText(a, b))
    case (Int(a), Text(s)) => Some(CompareIntText(number, a, s))
    case (Text(s), Int(b)) => Some(CompareIntText(number, b, s).Flip())
    case _ => None
  }

  predicate CmpTrue(env: Env, op: CmpOp, l: Value, r: Value) {
    !l.Null? && !r.Null? && var o := CompareValues(env.number, l, r); o.Some? && op.Accepts(o.value)
  }

  predicate InTrue(env: Env, v: Value, list: seq<Operand>, row: Row) {
    list != [] && var item := Eval(env, list[0], row);
    item.Some? && (CmpTrue(env, Eq, v, item.value) || InTrue(env, v, list[1..], row))
  }

  predicate ContainsTrue(env: Env, l: Value, r: Value) {
    var lt, rt := ToText(l), ToText(r);
    && lt.Some? && rt.Some?
    && match env.special(lt.value, rt.value)
       case Some(b) => b
       case None =>
         var haystack, needles := ParseArrayText(lt.value), ParseArrayText(rt.value);
         haystack.Some? && needles.Some? && forall n :: n in needles.value ==> n in haystack.value
  }

  /** The filter evaluates to TRUE on the row: not FALSE, not NULL, no error. */
  predicate Keeps(env: Env, f: Filter, row: Row) {
    match f
    case Compare(op, l, r) =>
      && Eval(env, l, row).Some? && Eval(env, r, row).Some?
      && CmpTrue(env, op, Eval(env, l, row).value, Eval(env, r, row).value)
    case InList(e, list) =>
      Eval(env, e, row).Some? && !Eval(env, e, row).value.Null? && InTrue(env, Eval(env, e, row).value, list, row)
    case Between(e, lo, hi) =>
      Eval(env, e, row).Some? && Eval(env, lo, row).Some? && Eval(env, hi, row).Some?
      && CmpTrue(env, GtEq, Eval(env, e, row).value, Eval(env, lo, row).value)
      && CmpTrue(env, LtEq, Eval(env, e, row).value, Eval(env, hi, row).value)
    case Contains(l, r) =>
      && Eval(env, l, row).Some? && Eval(env, r, row).Some?
      && ContainsTrue(env, Eval(env, l, row).value, Eval(env, r, row).value)
    case And(left, right) => Keeps(env, left, row) && Keeps(env, right, row)
    case Other(id) => env.test(id, row).True?
  }

  // --- Evaluation with its errors ------------------------------------------------------

  function Truth(b: bool): Verdict {
    if b then True else False
  }

  /** A comparison: NULL makes it unknown, incomparable kinds are an error. */
  function CompareVerdict(env: Env, op: CmpOp, l: Option<Value>, r: Option<Value>): Verdict {
    if l.None? || r.None? then Failure
    else if l.value.Null? || r.value.Null? then Unknown
    else
      match CompareValues(env.number, l.value, r.value)
      case None => Failure
      case Some(o) => Truth(op.Accepts(o))
  }

  /** `eval_in_list` on a value that is not NULL: the first match decides, and an item that
      cannot be evaluated before it is an error. */
  function InVerdict(env: Env, v: Value, list: seq<Operand>, row: Row, sawNull: bool): Verdict {
    if list == [] then if sawNull then Unknown else False
    else
      var item := Eval(env, list[0], row);
      if item.None? then Failure
      else if CmpTrue(env, Eq, v, item.value) then True
      else InVerdict(env, v, list[1..], row, sawNull || item.value.Null?)
  }

  function ContainsVerdict(env: Env, l: Option<Value>, r: Option<Value>): Verdict {
    if l.None? || r.None? then Failure
    else
      var lt, rt := ToText(l.value), ToText(r.value);
      if lt.None? || rt.None? then Unknown
      else
        match env.special(lt.value, rt.value)
        case Some(b) => Truth(b)
        case None =>
          if ParseArrayText(lt.value).None? || ParseArrayText(rt.value).None? then Failure
          else Truth(ContainsTrue(env, l.value, r.value))
  }

  /** `eval_expr` on a filter. BETWEEN takes incomparable kinds for outside; AND does not look
      at its right side when the left is FALSE. */
  function Judge(env: Env, f: Filter, row: Row): Verdict {
    match f
    case Compare(op, l, r) => CompareVerdict(env, op, Eval(env, l, row), Eval(env, r, row))
    case InList(e, list) =>
      var v := Eval(env, e, row);
      if v.None? then Failure else if v.value.Null? then Unknown else InVerdict(env, v.value, list, row, false)
    case Between(e, lo, hi) =>
      var v, a, b := Eval(env, e, row), Eval(env, lo, row), Eval(env, hi, row);
      if v.None? || a.None? || b.None? then Failure
      else if v.value.Null? || a.value.Null? || b.value.Null? then Unknown
      else Truth(CmpTrue(env, GtEq, v.value, a.value) && CmpTrue(env, LtEq, v.value, b.value))
    case Contains(l, r) => ContainsVerdict(env, Eval(env, l, row), Eval(env, r, row))
    case And(left, right) =>
      var l := Judge(env, left, row);
      if l.Failure? || l.False? then l
      else
        var r := Judge(env, right, row);
        if r.Failure? then Failure else if l.Unknown? || r.Unknown? then Unknown else r
    case Other(id) => env.test(id, row)
  }

  /** A row is kept exactly when the filter is TRUE on it. */
  lemma {:induction false} JudgeKeeps(env: Env, f: Filter, row: Row)
    ensures Keeps(env, f, row) <==> Judge(env, f, row).True?
  {
    match f
    case And(left, right) =>
      JudgeKeeps(env, left, row);
      JudgeKeeps(env, right, row);
    case InList(e, list) =>
      if Eval(env, e, row).Some? && !Eval(env, e, row).value.Null? {
        InVerdictTrue(env, Eval(env, e, row).value, list, row, false);
      }
    case _ =>
  }

  lemma {:induction false} InVerdictTrue(env: Env, v: Value, list: seq<Operand>, row: Row, sawNull: bool)
    ensures InTrue(env, v, list, row) <==> InVerdict(env, v, list, row, sawNull).True?
    decreases |list|
  {
    if list != [] {
      var item := Eval(env, list[0], row);
      if item.Some? {
        InVerdictTrue(env, v, list[1..], row, sawNull || item.value.Null?);
      }
    }
  }

  predicate Matches(env: Env, v: Value, o: Operand, row: Row) {
    Eval(env, o, row).Some? && CmpTrue(env, Eq, v, Eval(env, o, row).value)
  }

  /** An item fails that is looked at: no earlier one is equal to the value. */
  ghost predicate ItemFails(env: Env, v: Value, list: seq<Operand>, row: Row) {
    exists k :: 0 <= k < |list| && Eval(env, list[k], row).None?
                && forall j :: 0 <= j < k ==> !Matches(env, v, list[j], row)
  }

  lemma {:induction false} InVerdictFails(env: Env, v: Value, list: seq<Operand>, row: Row, sawNull: bool)
    ensures InVerdict(env, v, list, row, sawNull).Failure? <==> ItemFails(env, v, list, row)
    decreases |list|
  {
    if list != [] {
      var rest := list[1..];
      if Eval(env, list[0], row).Some? && !Matches(env, v, list[0], row) {
        InVerdictFails(env, v, rest, row, sawNull || Eval(env, list[0], row).value.Null?);
        ItemFailsNext(env, v, list, row);
      } else if Matches(env, v, list[0], row) {
        assert !ItemFails(env, v, list, row);
      } else {
        assert Eval(env, list[0], row).None?;
      }
    }
  }

  lemma ItemFailsNext(env: Env, v: Value, list: seq<Operand>, row: Row)
    requires list != [] && Eval(env, list[0], row).Some? && !Matches(env, v, list[0], row)
    ensures ItemFails(env, v, list, row) <==> ItemFails(env, v, list[1..], row)
  {
    var rest := list[1..];
    if k :| 0 <= k < |list| && Eval(env, list[k], row).None?
            && forall j :: 0 <= j < k ==> !Matches(env, v, list[j], row) {
      assert rest[k - 1] == list[k];
      assert forall j :: 0 <= j < k - 1 ==> rest[j] == list[j + 1];
    }
    if k :| 0 <= k < |rest| && Eval(env, rest[k], row).None?
            && forall j :: 0 <= j < k ==> !Matches(env, v, rest[j], row) {
      assert list[k + 1] == rest[k];
      assert forall j :: 0 < j < k + 1 ==> list[j] == rest[j - 1];
    }
  }

  lemma {:induction false} InVerdictFalse(env: Env, v: Value, list: seq<Operand>, row: Row, sawNull: bool)
    ensures InVerdict(env, v, list, row, sawNull).False? <==>
            !sawNull && forall k :: 0 <= k < |list| ==> Differs(env, v, list[k], row)
    decreases |list|
  {
    if list != [] {
      var item := Eval(env, list[0], row);
      if item.Some? {
        InVerdictFalse(env, v, list[1..], row, sawNull || item.value.Null?);
      }
      assert forall k :: 0 < k < |list| ==> list[k] == list[1..][k - 1];
      assert forall k :: 0 <= k < |list[1..]| ==> list[1..][k] == list[k + 1];
    }
  }

  /** The item is a value other than NULL and other than this one. */
  predicate Differs(env: Env, v: Value, o: Operand, row: Row) {
    Eval(env, o, row).Some? && !Eval(env, o, row).value.Null? && !Matches(env, v, o, row)
  }

  /** Evaluating the filter on the row is an error. */
  ghost predicate Errs(env: Env, f: Filter, row: Row)
    decreases f, 0
  {
    match f
    case Compare(op, l, r) =>
      var a, b := Eval(env, l, row), Eval(env, r, row);
      a.None? || b.None? || (!a.value.Null? && !b.value.Null? && !Comparable(a.value, b.value))
    case InList(e, list) =>
      var v := Eval(env, e, row);
      v.None? || (!v.value.Null? && ItemFails(env, v.value, list, row))
    case Between(e, lo, hi) => Eval(env, e, row).None? || Eval(env, lo, row).None? || Eval(env, hi, row).None?
    case Contains(l, r) =>
      var a, b := Eval(env, l, row), Eval(env, r, row);
      || a.None? || b.None?
      || (&& ToText(a.value).Some? && ToText(b.value).Some?
          && env.special(ToText(a.value).value, ToText(b.value).value).None?
          && !(IsArrayText(ToText(a.value).value) && IsArrayText(ToText(b.value).value)))
    case And(left, right) => Errs(env, left, row) || (!Rejects(env, left, row) && Errs(env, right, row))
    case Other(id) => env.test(id, row).Failure?
  }

  /** The filter is FALSE on the row, not NULL. */
  ghost predicate Rejects(env: Env, f: Filter, row: Row)
    decreases f, 1
  {
    match f
    case Compare(op, l, r) =>
      var a, b := Eval(env, l, row), Eval(env, r, row);
      && a.Some? && b.Some? && !a.value.Null? && !b.value.Null? && Comparable(a.value, b.value)
      && !CmpTrue(env, op, a.value, b.value)
    case InList(e, list) =>
      var v := Eval(env, e, row);
      v.Some? && !v.value.Null? && forall k :: 0 <= k < |list| ==> Differs(env, v.value, list[k], row)
    case Between(e, lo, hi) =>
      var v, a, b := Eval(env, e, row), Eval(env, lo, row), Eval(env, hi, row);
      && v.Some? && a.Some? && b.Some? && !v.value.Null? && !a.value.Null? && !b.value.Null?
      && !(CmpTrue(env, GtEq, v.value, a.value) && CmpTrue(env, LtEq, v.value, b.value))
    case Contains(l, r) =>
      var a, b := Eval(env, l, row), Eval(env, r, row);
      && a.Some? && b.Some? && ToText(a.value).Some? && ToText(b.value).Some?
      && !Errs(env, f, row) && !ContainsTrue(env, a.value, b.value)
    case And(left, right) =>
      || Rejects(env, left, row)
      || (Keeps(env, left, row) && Rejects(env, right, row))
    case Other(id) => env.test(id, row).False?
  }

  /** When a filter is an error and when it is FALSE, each said on its own. */
  lemma {:induction false} JudgeExactly(env: Env, f: Filter, row: Row)
    ensures Judge(env, f, row).Failure? <==> Errs(env, f, row)
    ensures Judge(env, f, row).False? <==> Rejects(env, f, row)
  {
    JudgeKeeps(env, f, row);
    match f
    case Compare(op, l, r) =>
      var a, b := Eval(env, l, row), Eval(env, r, row);
      if a.Some? && b.Some? && !a.value.Null? && !b.value.Null? {
        OrderExactly(env.number, a.value, b.value);
      }
    case InList(e, list) =>
      var v := Eval(env, e, row);
      if v.Some? && !v.value.Null? {
        InVerdictFails(env, v.value, list, row, false);
        InVerdictFalse(env, v.value, list, row, false);
      }
    case And(left, right) =>
      JudgeExactly(env, left, row);
      JudgeExactly(env, right, row);
      JudgeKeeps(env, left, row);
    case _ =>
  }

  // --- Comparing like with like ------------------------------------------------------

  predicate SameKind(a: Value, b: Value) {
    TypeRank(a) == TypeRank(b)
  }

  /** The operands have one kind on this row, or one of them is NULL or fails. */
  predicate Like(env: Env, l: Operand, r: Operand, row: Row) {
    var a, b := Eval(env, l, row), Eval(env, r, row);
    a.Some? && b.Some? ==> a.value.Null? || b.value.Null? || SameKind(a.value, b.value)
  }

  /** Every comparison of the filter is between like kinds on this row, and every
      containment is one of arrays. */
  predicate Plain(env: Env, f: Filter, row: Row) {
    match f
    case Compare(_, l, r) => Like(env, l, r, row)
    case InList(e, list) => forall i :: 0 <= i < |list| ==> Like(env, e, list[i], row)
    case Between(e, lo, hi) => Like(env, e, lo, row) && Like(env, e, hi, row)
    case Contains(l, r) =>
      var a, b := Eval(env, l, row), Eval(env, r, row);
      a.Some? && b.Some? && ToText(a.value).Some? && ToText(b.value).Some? ==>
        env.special(ToText(a.value).value, ToText(b.value).value).None?
    case And(left, right) => Plain(env, left, row) && Plain(env, right, row)
    case Other(_) => true
  }

  /** On like kinds a comparison is the index order. */
  lemma LikeCompares(env: Env, op: CmpOp, l: Value, r: Value)
    requires !l.Null? && !r.Null? && SameKind(l, r)
    ensures CmpTrue(env, op, l, r) <==> op.Accepts(Cmp(l, r))
    ensures op.Accepts(Cmp(l, r)) <==> op.Flip().Accepts(Cmp(r, l))
  {
    CmpEqual(l, r);
  }

  /** What a comparison accepts, without an ordering: like kinds by the index order, a text and
      an integer by the number the text spells or else as texts; no other kinds compare. */
  ghost predicate Smaller(number: string -> Option<real>, l: Value, r: Value) {
    match (l, r)
    case (Int(i), Text(s)) => if number(s).Some? then (i as real) < number(s).value else TextBefore(IntText(i), s)
    case (Text(s), Int(i)) => if number(s).Some? then number(s).value < (i as real) else TextBefore(s, IntText(i))
    case _ => SameKind(l, r) && Before(l, r)
  }

  predicate Comparable(l: Value, r: Value) {
    SameKind(l, r) || (l.Int? && r.Text?) || (l.Text? && r.Int?)
  }

  lemma OrderExactly(number: string -> Option<real>, l: Value, r: Value)
    requires !l.Null? && !r.Null?
    ensures CompareValues(number, l, r).Some? <==> Comparable(l, r)
    ensures CompareValues(number, l, r) == Some(Less) <==> Smaller(number, l, r)
    ensures CompareValues(number, l, r) == Some(Greater) <==> Smaller(number, r, l)
  {
    match (l, r)
    case (Int(i), Text(s)) => IntTextExactly(number, i, s);
    case (Text(s), Int(i)) => IntTextExactly(number, i, s);
    case _ => CmpExactly(l, r);
  }

  lemma IntTextExactly(number: string -> Option<real>, i: int, s: string)
    ensures CompareIntText(number, i, s) == Less <==> Smaller(number, Int(i), Text(s))
    ensures CompareIntText(number, i, s) == Greater <==> Smaller(number, Text(s), Int(i))
  {
    CmpTextExactly(IntText(i), s);
    CmpTextExactly(s, IntText(i));
    CmpTextEqual(IntText(i), s);
  }

  /** Each operator means what its name says, and turned around it means the same of the
      operands swapped. */
  lemma CmpTrueExactly(env: Env, l: Value, r: Value)
    requires !l.Null? && !r.Null?
    ensures CmpTrue(env, Lt, l, r) <==> Smaller(env.number, l, r)
    ensures CmpTrue(env, Gt, l, r) <==> Smaller(env.number, r, l)
    ensures CmpTrue(env, Eq, l, r) <==>
            Comparable(l, r) && !Smaller(env.number, l, r) && !Smaller(env.number, r, l)
    ensures CmpTrue(env, LtEq, l, r) <==> Comparable(l, r) && !Smaller(env.number, r, l)
    ensures CmpTrue(env, GtEq, l, r) <==> Comparable(l, r) && !Smaller(env.number, l, r)
    ensures CompareValues(env.number, l, r).Some? <==> Comparable(l, r)
    ensures forall op: CmpOp :: CmpTrue(env, op, l, r) <==> CmpTrue(env, op.Flip(), r, l)
  {
    OrderExactly(env.number, l, r);
    OrderExactly(env.number, r, l);
  }

  // --- Plans --------------------------------------------------------------------------

  datatype Plan = EqPlan(v: Value) | InPlan(vals: seq<Value>) | RangePlan(lo: Option<Bound>, hi: Option<Bound>)

  datatype Access = Access(col: nat, plan: Plan)

  datatype Fact = Fact(col: nat, v: Value)

  function RangeFromOp(op: CmpOp, v: Value): Plan {
    match op
    case Eq => EqPlan(v)
    case Lt => RangePlan(None, Some(Bound(v, false)))
    case LtEq => RangePlan(None, Some(Bound(v, true)))
    case Gt => RangePlan(Some(Bound(v, false)), None)
    case GtEq => RangePlan(Some(Bound(v, true)), None)
  }

  function ConstValues(list: seq<Operand>): Option<seq<Value>> {
    if list == [] then Some([])
    else
      var init := ConstValues(list[..|list| - 1]);
      if list[|list| - 1].Const? && init.Some? then Some(init.value + [list[|list| - 1].value]) else None
  }

  /** `plan_index_access`. */
  function PlanAccess(f: Filter): Option<Access> {
    match f
    case Compare(op, Column(c), Const(v)) => Some(Access(c, RangeFromOp(op, v)))
    case Compare(op, Const(v), Column(c)) => Some(Access(c, RangeFromOp(op.Flip(), v)))
    case InList(Column(c), list) =>
      var vals := ConstValues(list);
      if vals.Some? then Some(Access(c, InPlan(vals.value))) else None
    case Between(Column(c), Const(lo), Const(hi)) =>
      Some(Access(c, RangePlan(Some(Bound(lo, true)), Some(Bound(hi, true)))))
    case And(left, right) => if PlanAccess(left).Some? then PlanAccess(left) else PlanAccess(right)
    case _ => None
  }

  /** The value is one the plan looks up. */
  predicate Meets(plan: Plan, v: Value) {
    !v.Null? &&
    match plan
    case EqPlan(w) => v == w
    case InPlan(vals) => v in vals
    case RangePlan(lo, hi) => InRange(v, lo, hi)
  }

  lemma RangeFromOpMeets(env: Env, op: CmpOp, v: Value, w: Value)
    requires CmpTrue(env, op, v, w) && SameKind(v, w)
    ensures Meets(RangeFromOp(op, w), v)
  {
    LikeCompares(env, op, v, w);
    CmpEqual(v, w);
  }

  lemma {:induction false} InMeets(env: Env, v: Value, list: seq<Operand>, row: Row)
    requires ConstValues(list).Some? && !v.Null? && InTrue(env, v, list, row)
    requires forall i :: 0 <= i < |list| && list[i].Const? ==> list[i].value.Null? || SameKind(v, list[i].value)
    ensures v in ConstValues(list).value
  {
    ConstValuesAre(list);
    var k := InTrueAt(env, v, list, row);
    assert list[k] == Const(ConstValues(list).value[k]);
    LikeCompares(env, Eq, v, list[k].value);
    CmpEqual(v, list[k].value);
  }

  lemma {:induction false} ConstValuesAre(list: seq<Operand>)
    requires ConstValues(list).Some?
    ensures |ConstValues(list).value| == |list|
    ensures forall i :: 0 <= i < |list| ==> list[i] == Const(ConstValues(list).value[i])
  {
    if list != [] {
      var init := list[..|list| - 1];
      ConstValuesAre(init);
      assert forall i :: 0 <= i < |init| ==> list[i] == init[i];
    }
  }

  lemma {:induction false} InTrueAt(env: Env, v: Value, list: seq<Operand>, row: Row) returns (k: nat)
    requires InTrue(env, v, list, row)
    ensures k < |list| && Eval(env, list[k], row).Some? && CmpTrue(env, Eq, v, Eval(env, list[k], row).value)
  {
    if CmpTrue(env, Eq, v, Eval(env, list[0], row).value) {
      k := 0;
    } else {
      k := InTrueAt(env, v, list[1..], row);
      k := k + 1;
    }
  }

  /** A comparison of a column with a constant, either way round, has a plan on that column.
      Among values of the constant's kind it looks up exactly those the comparison accepts. */
  lemma ComparePlanned(env: Env, op: CmpOp, c: nat, v: Value, w: Value)
    requires !v.Null? && !w.Null? && SameKind(v, w)
    ensures var a := PlanAccess(Compare(op, Column(c), Const(v)));
            a.Some? && a.value.col == c && (Meets(a.value.plan, w) <==> CmpTrue(env, op, w, v))
    ensures var a := PlanAccess(Compare(op, Const(v), Column(c)));
            a.Some? && a.value.col == c && (Meets(a.value.plan, w) <==> CmpTrue(env, op, v, w))
  {
    RangeFromOpExactly(env, op, v, w);
    RangeFromOpExactly(env, op.Flip(), v, w);
    CmpTrueExactly(env, v, w);
  }

  lemma RangeFromOpExactly(env: Env, op: CmpOp, v: Value, w: Value)
    requires !v.Null? && !w.Null? && SameKind(v, w)
    ensures Meets(RangeFromOp(op, v), w) <==> CmpTrue(env, op, w, v)
  {
    CmpTrueExactly(env, w, v);
    CmpEqual(v, w);
    CmpEqual(w, v);
    CmpExactly(w, v);
  }

  /** So has BETWEEN two constants, and IN a list of constants. */
  lemma BetweenPlanned(env: Env, c: nat, lo: Value, hi: Value, w: Value)
    requires !lo.Null? && !hi.Null? && !w.Null? && SameKind(lo, w) && SameKind(hi, w)
    ensures var a := PlanAccess(Between(Column(c), Const(lo), Const(hi)));
            && a.Some? && a.value.col == c
            && (Meets(a.value.plan, w) <==> CmpTrue(env, GtEq, w, lo) && CmpTrue(env, LtEq, w, hi))
  {
    RangeFromOpExactly(env, GtEq, lo, w);
    RangeFromOpExactly(env, LtEq, hi, w);
  }

  lemma InPlanned(c: nat, list: seq<Operand>, w: Value)
    requires !w.Null? && forall i :: 0 <= i < |list| ==> list[i].Const?
    ensures var a := PlanAccess(InList(Column(c), list));
            a.Some? && a.value.col == c && (Meets(a.value.plan, w) <==> Const(w) in list)
  {
    AllConst(list);
    ConstValuesAre(list);
    var vals := ConstValues(list).value;
    if Const(w) in list {
      var i :| 0 <= i < |list| && list[i] == Const(w);
      assert vals[i] == w;
    }
    if w in vals {
      var i :| 0 <= i < |vals| && vals[i] == w;
      assert list[i] == Const(w);
    }
  }

  lemma {:induction false} AllConst(list: seq<Operand>)
    requires forall i :: 0 <= i < |list| ==> list[i].Const?
    ensures ConstValues(list).Some?
  {
    if list != [] {
      AllConst(list[..|list| - 1]);
    }
  }

  /** A row the filter keeps has a value its plan looks up. */
  lemma {:induction false} PlanCovers(env: Env, f: Filter, row: Row)
    requires Keeps(env, f, row) && Plain(env, f, row) && PlanAccess(f).Some?
    ensures var a := PlanAccess(f).value; a.col < |row| && Meets(a.plan, row[a.col])
  {
    match f
    case Compare(op, Column(c), Const(v)) => RangeFromOpMeets(env, op, row[c], v);
    case Compare(op, Const(v), Column(c)) =>
      LikeCompares(env, op, v, row[c]);
      LikeCompares(env, op.Flip(), row[c], v);
      RangeFromOpMeets(env, op.Flip(), row[c], v);
    case InList(Column(c), list) =>
      forall i | 0 <= i < |list| && list[i].Const?
        ensures list[i].value.Null? || SameKind(row[c], list[i].value)
      {
        assert Like(env, Column(c), list[i], row);
      }
      InMeets(env, row[c], list, row);
    case Between(Column(c), Const(lo), Const(hi)) =>
      RangeFromOpMeets(env, GtEq, row[c], lo);
      RangeFromOpMeets(env, LtEq, row[c], hi);
    case And(left, right) =>
      if PlanAccess(left).Some? {
        PlanCovers(env, left, row);
      } else {
        PlanCovers(env, right, row);
      }
  }

  // --- Conjuncts -----------------------------------------------------------------------

  function Conjuncts(f: Filter): seq<Filter> {
    match f
    case And(left, right) => Conjuncts(left) + Conjuncts(right)
    case _ => [f]
  }

  /** A conjunct of a filter that is TRUE is TRUE. */
  lemma {:induction false} ConjunctKept(env: Env, f: Filter, row: Row, c: Filter)
    requires Keeps(env, f, row) && Plain(env, f, row) && c in Conjuncts(f)
    ensures Keeps(env, c, row) && Plain(env, c, row)
  {
    if f.And? {
      if c in Conjuncts(f.left) {
        ConjunctKept(env, f.left, row, c);
      } else {
        ConjunctKept(env, f.right, row, c);
      }
    }
  }

  /** `col = const`, in either order. */
  function EqFact(c: Filter): Option<Fact> {
    match c
    case Compare(Eq, Column(col), Const(v)) => Some(Fact(col, v))
    case Compare(Eq, Const(v), Column(col)) => Some(Fact(col, v))
    case _ => None
  }

  /** `collect_eq_facts`: the first equality on each column. */
  function Facts(cs: seq<Filter>): map<nat, Value> {
    if cs == [] then map[]
    else
      var before, fact := Facts(cs[..|cs| - 1]), EqFact(cs[|cs| - 1]);
      if fact.Some? && fact.value.col !in before then before[fact.value.col := fact.value.v] else before
  }

  method CollectEqFacts(cs: seq<Filter>) returns (facts: map<nat, Value>)
    ensures facts == Facts(cs)
  {
    facts := map[];
    for i := 0 to |cs|
      invariant facts == Facts(cs[..i])
    {
      assert cs[..i + 1][..i] == cs[..i];
      var fact := EqFact(cs[i]);
      if fact.Some? && fact.value.col !in facts {
        facts := facts[fact.value.col := fact.value.v];
      }
    }
    assert cs[..|cs|] == cs;
  }

  /** Each fact comes from a conjunct. */
  lemma {:induction false} FactFrom(cs: seq<Filter>, col: nat) returns (i: nat)
    requires col in Facts(cs)
    ensures i < |cs| && EqFact(cs[i]) == Some(Fact(col, Facts(cs)[col]))
  {
    var n := |cs| - 1;
    if col in Facts(cs[..n]) {
      i := FactFrom(cs[..n], col);
    } else {
      i := n;
    }
  }

  /** The facts are those of the first equality with a constant on each column that has one. */
  lemma {:induction false} FactsExactly(cs: seq<Filter>, col: nat)
    ensures col in Facts(cs) <==> exists i :: FirstOn(cs, i, col)
    ensures forall i :: FirstOn(cs, i, col) ==> col in Facts(cs) && Equates(cs[i], col, Facts(cs)[col])
  {
    if cs != [] {
      var n := |cs| - 1;
      FactsExactly(cs[..n], col);
      forall i
        ensures FirstOn(cs, i, col) <==> FirstOn(cs[..n], i, col) || (i == n && FirstOn(cs, n, col))
        ensures FirstOn(cs[..n], i, col) ==> !FirstOn(cs, n, col)
      {
        FirstOnInit(cs, i, col);
      }
      FactIsEquality(cs[n], col);
      if !EqualityOn(cs[n], col) {
        assert !FirstOn(cs, n, col);
      } else if col !in Facts(cs[..n]) {
        NoneBefore(cs[..n], col);
        assert forall j :: 0 <= j < n ==> cs[..n][j] == cs[j];
        assert FirstOn(cs, n, col);
      }
    }
  }

  lemma FirstOnInit(cs: seq<Filter>, i: int, col: nat)
    requires cs != []
    ensures var n := |cs| - 1;
            && (FirstOn(cs, i, col) <==> FirstOn(cs[..n], i, col) || (i == n && FirstOn(cs, n, col)))
            && (FirstOn(cs[..n], i, col) ==> !FirstOn(cs, n, col))
  {
    assert forall j :: 0 <= j < |cs| - 1 ==> cs[..|cs| - 1][j] == cs[j];
  }

  lemma {:induction false} NoneBefore(cs: seq<Filter>, col: nat)
    requires forall i :: !FirstOn(cs, i, col)
    ensures forall j :: 0 <= j < |cs| ==> !EqualityOn(cs[j], col)
  {
    if cs != [] {
      var n := |cs| - 1;
      forall i
        ensures !FirstOn(cs[..n], i, col)
      {
        FirstOnInit(cs, i, col);
      }
      NoneBefore(cs[..n], col);
      assert forall j :: 0 <= j < n ==> cs[..n][j] == cs[j];
      assert !FirstOn(cs, n, col);
    }
  }

  lemma FactIsEquality(c: Filter, col: nat)
    ensures EqualityOn(c, col) <==> EqFact(c).Some? && EqFact(c).value.col == col
    ensures EqualityOn(c, col) ==> Equates(c, col, EqFact(c).value.v)
  {
  }

  predicate Equates(c: Filter, col: nat, v: Value) {
    c == Compare(Eq, Column(col), Const(v)) || c == Compare(Eq, Const(v), Column(col))
  }

  predicate EqualityOn(c: Filter, col: nat) {
    c.Compare? && c.op.Eq? && ((c.l == Column(col) && c.r.Const?) || (c.l.Const? && c.r == Column(col)))
  }

  ghost predicate FirstOn(cs: seq<Filter>, i: int, col: nat) {
    0 <= i < |cs| && EqualityOn(cs[i], col) && forall j :: 0 <= j < i ==> !EqualityOn(cs[j], col)
  }

  lemma FactHolds(env: Env, f: Filter, row: Row, col: nat)
    requires Keeps(env, f, row) && Plain(env, f, row) && col in Facts(Conjuncts(f))
    ensures var v := Facts(Conjuncts(f))[col]; col < |row| && row[col] == v && !v.Null?
  {
    var cs := Conjuncts(f);
    var i := FactFrom(cs, col);
    ConjunctKept(env, f, row, cs[i]);
    PlanCovers(env, cs[i], row);
  }
}
