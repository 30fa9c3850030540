/** Precedence climbing over binary operators, prefix NOT, minus and plus, IS NULL and
IS DISTINCT FROM, and parentheses.

Printing with parentheses only where the binding powers call for them is undone by
the parser, for every tree.
*/
module Precedence {
  import opened Collections

  datatype BinOp =
    | Or | And
    | Eq | NotEq | Lt | LtEq | Gt | GtEq | RegexMatch(ci: bool) | RegexNotMatch(ci: bool)
    | ArrayContains | TextSearchMatch | ArrayContainedBy | ArrayOverlap
    | NetworkContainedBy | NetworkContainedByEq | NetworkContains | NetworkContainsEq
    | Concat | JsonGet | JsonGetText
    | Add | Sub
    | Mul | Div | Mod

  /** Literals other than NULL, parameters and columns. */
  datatype Atom = IntLit(i: int) | StrLit(s: string) | BoolLit(b: bool) | ParamRef(n: nat) | Column(name: string)

  datatype Expr =
    | Leaf(atom: Atom)
    | NullConst
    | Binary(op: BinOp, left: Expr, right: Expr)
    | Not(e: Expr)
    | Neg(e: Expr)
    | IsNull(e: Expr, negated: bool)
    | IsDistinctFrom(left: Expr, right: Expr, negated: bool)

  datatype Token = AtomTok(atom: Atom) | Infix(op: BinOp) | NotTok | IsTok | NullTok | DistinctFromTok | LParen | RParen

  /** `binding_power`, the left one; the right one is one more. */
  function Power(op: BinOp): (p: nat)
    ensures 1 <= p <= 12
  {
    match op
    case Or => 1
    case And => 3
    case Concat => 8
    case JsonGet => 8
    case JsonGetText => 8
    case Add => 10
    case Sub => 10
    case Mul => 12
    case Div => 12
    case Mod => 12
    case _ => 5
  }

  const IsPower := 7
  const NotPower := 3
  const SignPower := 9

  // --- The parser --------------------------------------------------------------------

  datatype Parsed = Fail | Got(e: Expr, rest: seq<Token>)

  function ParseExpr(ts: seq<Token>, min: nat): (r: Parsed)
    ensures r.Got? ==> |r.rest| < |ts|
    decreases |ts|, 2
  {
    match ParsePrefix(ts)
    case Fail => Fail
    case Got(lhs, rest) => Climb(lhs, rest, min)
  }

  function ParsePrefix(ts: seq<Token>): (r: Parsed)
    ensures r.Got? ==> |r.rest| < |ts|
    decreases |ts|, 1
  {
    if ts == [] then Fail
    else match ts[0] {
      case NotTok => Negated(ParseExpr(ts[1..], NotPower), true)
      case Infix(Sub) => Negated(ParseExpr(ts[1..], SignPower), false)
      case Infix(Add) => ParseExpr(ts[1..], SignPower)
      case AtomTok(a) => Got(Leaf(a), ts[1..])
      case NullTok => Got(NullConst, ts[1..])
      case LParen => Close(ParseExpr(ts[1..], 0))
      case _ => Fail
    }
  }

  function Negated(r: Parsed, logical: bool): Parsed {
    if r.Fail? then Fail else Got(if logical then Not(r.e) else Neg(r.e), r.rest)
  }

  /** The closing parenthesis. */
  function Close(r: Parsed): Parsed {
    if r.Got? && r.rest != [] && r.rest[0].RParen? then Got(r.e, r.rest[1..]) else Fail
  }

  /** Tokens from `IS` on: the negation, and how many tokens were read. */
  datatype Is = NoIs | Null(negated: bool, len: nat) | Distinct(negated: bool, len: nat)

  function ReadIs(ts: seq<Token>): (r: Is)
    requires ts != []
    ensures !r.NoIs? ==> 1 < r.len <= |ts|
  {
    var negated := |ts| > 1 && ts[1].NotTok?;
    var k := if negated then 2 else 1;
    if |ts| > k && ts[k].NullTok? then Null(negated, k + 1)
    else if |ts| > k && ts[k].DistinctFromTok? then Distinct(negated, k + 1)
    else NoIs
  }

  /** The loop: take operators that bind at least as tightly as `min`. */
  function Climb(lhs: Expr, ts: seq<Token>, min: nat): (r: Parsed)
    ensures r.Got? ==> |r.rest| <= |ts|
    decreases |ts|, 0
  {
    if ts == [] then Got(lhs, ts)
    else if ts[0].IsTok? then
      if IsPower < min then Got(lhs, ts)
      else match ReadIs(ts) {
        case NoIs => Fail
        case Null(negated, len) => Climb(IsNull(lhs, negated), ts[len..], min)
        case Distinct(negated, len) =>
          match ParseExpr(ts[len..], IsPower + 1)
          case Fail => Fail
          case Got(rhs, rest) => Climb(IsDistinctFrom(lhs, rhs, negated), rest, min)
      }
    else if ts[0].Infix? && Power(ts[0].op) >= min then
      match ParseExpr(ts[1..], Power(ts[0].op) + 1)
      case Fail => Fail
      case Got(rhs, rest) => Climb(Binary(ts[0].op, lhs, rhs), rest, min)
    else Got(lhs, ts)
  }

  // --- Printing -------------------------------------------------------------------------

  /** Stands for no limit. */
  const Free: nat := 100

  function Least(a: nat, b: nat): nat {
    if a < b then a else b
  }

  /** The power at which the loop reaches the outermost operator. */
  function Level(e: Expr): nat {
    match e
    case Binary(op, _, _) => Power(op)
    case IsNull(_, _) => IsPower
    case IsDistinctFrom(_, _, _) => IsPower
    case _ => Free
  }

  /** An operator after `e`, printed at level `min`, is taken into `e` when it binds at
      least as tightly as this. */
  function Reach(e: Expr, min: nat): nat {
    if Level(e) < min then Free
    else match e {
      case Leaf(_) => Free
      case NullConst => Free
      case Binary(op, _, right) => Least(Power(op) + 1, Reach(right, Power(op) + 1))
      case Not(e1) => Least(NotPower, Reach(e1, NotPower))
      case Neg(e1) => Least(SignPower, Reach(e1, SignPower))
      case IsNull(_, _) => Free
      case IsDistinctFrom(_, right, _) => Least(IsPower + 1, Reach(right, IsPower + 1))
    }
  }

  function IsTokens(negated: bool, last: Token): seq<Token> {
    if negated then [IsTok, NotTok, last] else [IsTok, last]
  }

  function Parens(ts: seq<Token>): seq<Token> {
    [LParen] + ts + [RParen]
  }

  /** The tokens of `e` where operators below `min` cannot stand bare. */
  function Print(e: Expr, min: nat): seq<Token>
    decreases e, if Level(e) < min then 1 else 0
  {
    if Level(e) < min then Parens(Print(e, 0))
    else match e {
      case Leaf(a) => [AtomTok(a)]
      case NullConst => [NullTok]
      case Binary(op, left, right) =>
        PrintLeft(left, min, Power(op)) + ([Infix(op)] + Print(right, Power(op) + 1))
      case Not(e1) => [NotTok] + Print(e1, NotPower)
      case Neg(e1) => [Infix(Sub)] + Print(e1, SignPower)
      case IsNull(e1, negated) => PrintLeft(e1, min, IsPower) + IsTokens(negated, NullTok)
      case IsDistinctFrom(left, right, negated) =>
        PrintLeft(left, min, IsPower) + (IsTokens(negated, DistinctFromTok) + Print(right, IsPower + 1))
    }
  }

  /** A left operand gets parentheses when it would take in its own operator. */
  function PrintLeft(e: Expr, min: nat, power: nat): seq<Token>
    decreases e, 2
  {
    if Reach(e, min) <= power then Parens(Print(e, 0)) else Print(e, min)
  }

  // --- Parsing undoes printing -------------------------------------------------------------

  /** The tokens go on with nothing that binds as tightly as `reach`. */
  predicate Stops(ts: seq<Token>, reach: nat) {
    ts == [] || (!ts[0].IsTok? && !ts[0].Infix?)
    || (ts[0].IsTok? && IsPower < reach) || (ts[0].Infix? && Power(ts[0].op) < reach)
  }

  lemma StopsClimb(lhs: Expr, ts: seq<Token>, min: nat)
    requires Stops(ts, min)
    ensures Climb(lhs, ts, min) == Got(lhs, ts)
  {
  }

  lemma ClimbIs(lhs: Expr, negated: bool, ts: seq<Token>, min: nat)
    requires min <= IsPower
    ensures Climb(lhs, IsTokens(negated, NullTok) + ts, min) == Climb(IsNull(lhs, negated), ts, min)
    ensures ParseExpr(ts, IsPower + 1).Got? ==>
              var r := ParseExpr(ts, IsPower + 1);
              Climb(lhs, IsTokens(negated, DistinctFromTok) + ts, min) ==
              Climb(IsDistinctFrom(lhs, r.e, negated), r.rest, min)
  {
    var k := if negated then 3 else 2;
    var a, b := IsTokens(negated, NullTok) + ts, IsTokens(negated, DistinctFromTok) + ts;
    assert a[k..] == ts && b[k..] == ts;
    assert ReadIs(a) == Null(negated, k) && ReadIs(b) == Distinct(negated, k);
  }

  lemma Assoc(a: seq<Token>, b: seq<Token>, c: seq<Token>)
    ensures (a + b) + c == a + (b + c)
  {
  }

  lemma ParensRegroup(inner: seq<Token>, rest: seq<Token>)
    ensures Parens(inner) + rest == [LParen] + (inner + ([RParen] + rest))
  {
  }

  /** Parentheses make an operand of any tree. */
  lemma ParensParse(e: Expr, rest: seq<Token>, min: nat)
    requires ParseExpr(Print(e, 0) + ([RParen] + rest), 0) == Got(e, [RParen] + rest)
    ensures ParseExpr(Parens(Print(e, 0)) + rest, min) == Climb(e, rest, min)
  {
    var inner := Print(e, 0);
    ParensRegroup(inner, rest);
    var ts := [LParen] + (inner + ([RParen] + rest));
    assert ts[1..] == inner + ([RParen] + rest);
    assert ([RParen] + rest)[1..] == rest;
  }

  lemma Regroup(a: seq<Token>, b: seq<Token>, c: seq<Token>, d: seq<Token>)
    ensures a + (b + c) + d == a + (b + (c + d))
  {
  }

  lemma ClimbInfix(lhs: Expr, op: BinOp, ts: seq<Token>, min: nat)
    requires min <= Power(op) && ParseExpr(ts, Power(op) + 1).Got?
    ensures var r := ParseExpr(ts, Power(op) + 1);
            Climb(lhs, [Infix(op)] + ts, min) == Climb(Binary(op, lhs, r.e), r.rest, min)
  {
    assert ([Infix(op)] + ts)[1..] == ts;
  }

  lemma PrefixStep(t: Token, ts: seq<Token>, min: nat)
    requires t == NotTok || t == Infix(Sub)
    requires ParseExpr(ts, if t.NotTok? then NotPower else SignPower).Got?
    ensures var r := ParseExpr(ts, if t.NotTok? then NotPower else SignPower);
            ParseExpr([t] + ts, min) == Climb(if t.NotTok? then Not(r.e) else Neg(r.e), r.rest, min)
  {
    assert ([t] + ts)[1..] == ts;
  }

  /** Parsing a printed tree gives the tree and goes on with what follows. */
  lemma {:induction false} PrintParse(e: Expr, min: nat, rest: seq<Token>)
    requires Stops(rest, Reach(e, min))
    ensures ParseExpr(Print(e, min) + rest, min) == Climb(e, rest, min)
    decreases e, if Level(e) < min then 3 else 1
  {
    if Level(e) < min {
      Closed(e, rest);
      ParensParse(e, rest, min);
    } else {
      match e
      case Leaf(a) =>
        assert ([AtomTok(a)] + rest)[1..] == rest;
      case NullConst =>
        assert ([NullTok] + rest)[1..] == rest;
      case Not(_) => PrefixParse(e, NotTok, NotPower, min, rest);
      case Neg(_) => PrefixParse(e, Infix(Sub), SignPower, min, rest);
      case Binary(_, _, _) => BinaryParse(e, min, rest);
      case IsNull(_, _) => NullParse(e, min, rest);
      case IsDistinctFrom(_, _, _) => DistinctParse(e, min, rest);
    }
  }

  lemma {:induction false} PrefixParse(e: Expr, t: Token, power: nat, min: nat, rest: seq<Token>)
    requires (e.Not? && t == NotTok && power == NotPower) || (e.Neg? && t == Infix(Sub) && power == SignPower)
    requires min <= Free && Stops(rest, Reach(e, min))
    ensures ParseExpr(Print(e, min) + rest, min) == Climb(e, rest, min)
    decreases e, 0
  {
    PrintParse(e.e, power, rest);
    StopsClimb(e.e, rest, power);
    PrefixStep(t, Print(e.e, power) + rest, min);
    Assoc([t], Print(e.e, power), rest);
  }

  lemma {:induction false} Closed(e: Expr, rest: seq<Token>)
    ensures ParseExpr(Print(e, 0) + ([RParen] + rest), 0) == Got(e, [RParen] + rest)
    decreases e, 2
  {
    PrintParse(e, 0, [RParen] + rest);
    StopsClimb(e, [RParen] + rest, 0);
  }

  lemma {:induction false} LeftParse(e: Expr, min: nat, power: nat, rest: seq<Token>)
    requires Stops(rest, power + 1) && min <= power
    ensures ParseExpr(PrintLeft(e, min, power) + rest, min) == Climb(e, rest, min)
    decreases e, 4
  {
    if Reach(e, min) <= power {
      Closed(e, rest);
      ParensParse(e, rest, min);
    } else {
      PrintParse(e, min, rest);
    }
  }

  /** Operand, operator, operand. */
  lemma Combine(a: seq<Token>, left: Expr, op: BinOp, b: seq<Token>, right: Expr, rest: seq<Token>, min: nat)
    requires min <= Power(op)
    requires ParseExpr(a + ([Infix(op)] + (b + rest)), min) == Climb(left, [Infix(op)] + (b + rest), min)
    requires ParseExpr(b + rest, Power(op) + 1) == Got(right, rest)
    ensures ParseExpr(a + ([Infix(op)] + b) + rest, min) == Climb(Binary(op, left, right), rest, min)
  {
    ClimbInfix(left, op, b + rest, min);
    Regroup(a, [Infix(op)], b, rest);
  }

  lemma {:induction false} BinaryParse(e: Expr, min: nat, rest: seq<Token>)
    requires e.Binary? && Power(e.op) >= min && Stops(rest, Reach(e, min))
    ensures ParseExpr(Print(e, min) + rest, min) == Climb(e, rest, min)
    decreases e, 0
  {
    var power := Power(e.op);
    var a, b := PrintLeft(e.left, min, power), Print(e.right, power + 1);
    LeftParse(e.left, min, power, [Infix(e.op)] + (b + rest));
    PrintParse(e.right, power + 1, rest);
    StopsClimb(e.right, rest, power + 1);
    Combine(a, e.left, e.op, b, e.right, rest, min);
  }

  lemma {:induction false} NullParse(e: Expr, min: nat, rest: seq<Token>)
    requires e.IsNull? && IsPower >= min
    ensures ParseExpr(Print(e, min) + rest, min) == Climb(e, rest, min)
    decreases e, 0
  {
    LeftParse(e.e, min, IsPower, IsTokens(e.negated, NullTok) + rest);
    ClimbIs(e.e, e.negated, rest, min);
    Assoc(PrintLeft(e.e, min, IsPower), IsTokens(e.negated, NullTok), rest);
  }

  lemma {:induction false} DistinctParse(e: Expr, min: nat, rest: seq<Token>)
    requires e.IsDistinctFrom? && IsPower >= min && Stops(rest, Reach(e, min))
    ensures ParseExpr(Print(e, min) + rest, min) == Climb(e, rest, min)
    decreases e, 0
  {
    var tail := Print(e.right, IsPower + 1) + rest;
    var more := IsTokens(e.negated, DistinctFromTok) + tail;
    LeftParse(e.left, min, IsPower, more);
    PrintParse(e.right, IsPower + 1, rest);
    StopsClimb(e.right, rest, IsPower + 1);
    ClimbIs(e.left, e.negated, tail, min);
    Regroup(PrintLeft(e.left, min, IsPower), IsTokens(e.negated, DistinctFromTok), Print(e.right, IsPower + 1), rest);
  }

  /** Every tree: printing and parsing it gives it back and consumes all tokens. */
  lemma ParseInvertsPrint(e: Expr)
    ensures ParseExpr(Print(e, 0), 0) == Got(e, [])
  {
    PrintParse(e, 0, []);
    assert Print(e, 0) + [] == Print(e, 0);
  }

  // --- Which operators bind tighter -------------------------------------------------------

  /** The operator classes from loosest to tightest. */
  function Tier(op: BinOp): nat {
    if op.Or? then 0 else if op.And? then 1
    else if op.Concat? || op.JsonGet? || op.JsonGetText? then 3
    else if op.Add? || op.Sub? then 4
    else if op.Mul? || op.Div? || op.Mod? then 5
    else 2
  }

  /** Of two operators in a row the tighter class goes first, and within a class the left
      one. */
  lemma TighterFirst(a: Atom, p: BinOp, b: Atom, q: BinOp, c: Atom)
    ensures ParseExpr([AtomTok(a), Infix(p), AtomTok(b), Infix(q), AtomTok(c)], 0) ==
            Got(if Tier(p) < Tier(q) then Binary(p, Leaf(a), Binary(q, Leaf(b), Leaf(c)))
                else Binary(q, Binary(p, Leaf(a), Leaf(b)), Leaf(c)), [])
  {
    var e := if Tier(p) < Tier(q) then Binary(p, Leaf(a), Binary(q, Leaf(b), Leaf(c)))
             else Binary(q, Binary(p, Leaf(a), Leaf(b)), Leaf(c));
    assert Tier(p) < Tier(q) <==> Power(p) < Power(q);
    ParseInvertsPrint(e);
    Five(AtomTok(a), Infix(p), AtomTok(b), Infix(q), AtomTok(c));
    if Tier(p) < Tier(q) {
      PrintAtom(a, Power(p), 0);
      PrintTwo(b, q, c, Power(p) + 1);
      PrintBinary(p, Leaf(a), Binary(q, Leaf(b), Leaf(c)), [AtomTok(a)], [AtomTok(b), Infix(q), AtomTok(c)]);
    } else {
      PrintLeftTwo(a, p, b, Power(q));
      PrintAtom(c, 0, Power(q) + 1);
      PrintBinary(q, Binary(p, Leaf(a), Leaf(b)), Leaf(c), [AtomTok(a), Infix(p), AtomTok(b)], [AtomTok(c)]);
    }
  }

  lemma Five(t0: Token, t1: Token, t2: Token, t3: Token, t4: Token)
    ensures [t0] + ([t1] + [t2, t3, t4]) == [t0, t1, t2, t3, t4]
    ensures [t0, t1, t2] + ([t3] + [t4]) == [t0, t1, t2, t3, t4]
  {
  }

  lemma PrintBinary(op: BinOp, left: Expr, right: Expr, a: seq<Token>, b: seq<Token>)
    requires PrintLeft(left, 0, Power(op)) == a && Print(right, Power(op) + 1) == b
    ensures Print(Binary(op, left, right), 0) == a + ([Infix(op)] + b)
  {
  }

  lemma PrintAtom(a: Atom, power: nat, min: nat)
    requires power < Free && min <= Free
    ensures PrintLeft(Leaf(a), 0, power) == [AtomTok(a)] && Print(Leaf(a), min) == [AtomTok(a)]
  {
  }

  lemma PrintLeftTwo(a: Atom, p: BinOp, b: Atom, power: nat)
    requires Power(p) >= power
    ensures PrintLeft(Binary(p, Leaf(a), Leaf(b)), 0, power) == [AtomTok(a), Infix(p), AtomTok(b)]
  {
    PrintTwo(a, p, b, 0);
    assert Reach(Leaf(b), Power(p) + 1) == Free;
  }

  lemma PrintTwo(a: Atom, op: BinOp, b: Atom, min: nat)
    requires min <= Power(op)
    ensures Print(Binary(op, Leaf(a), Leaf(b)), min) == [AtomTok(a), Infix(op), AtomTok(b)]
  {
    assert PrintLeft(Leaf(a), min, Power(op)) == [AtomTok(a)];
    assert Print(Leaf(b), Power(op) + 1) == [AtomTok(b)];
  }

  // --- Prefix operators reach far --------------------------------------------------------

  /** Any expression as an operand that nothing can reach into. */
  function Operand(e: Expr): seq<Token> {
    if e.Leaf? || e.NullConst? then Print(e, 0) else Parens(Print(e, 0))
  }

  lemma OperandParse(e: Expr, rest: seq<Token>, min: nat)
    ensures ParseExpr(Operand(e) + rest, min) == Climb(e, rest, min)
  {
    if e.Leaf? || e.NullConst? {
      assert (Print(e, 0) + rest)[1..] == rest;
    } else {
      Closed(e, rest);
      ParensParse(e, rest, min);
    }
  }

  lemma LastOperand(e: Expr, min: nat)
    ensures ParseExpr(Operand(e), min) == Got(e, [])
  {
    OperandParse(e, [], min);
    assert Operand(e) + [] == Operand(e);
    StopsClimb(e, [], min);
  }

  function Prefixed(t: Token, e: Expr): Expr {
    if t.NotTok? then Not(e) else Neg(e)
  }

  function PrefixPower(t: Token): nat {
    if t.NotTok? then NotPower else SignPower
  }

  /** A prefix takes in an operator to its right exactly when that binds at least as tightly
      as the prefix is parsed. */
  lemma PrefixTakes(t: Token, a: Expr, op: BinOp, b: Expr)
    requires t == NotTok || t == Infix(Sub)
    ensures ParseExpr([t] + (Operand(a) + ([Infix(op)] + Operand(b))), 0) ==
            Got(if Power(op) >= PrefixPower(t) then Prefixed(t, Binary(op, a, b))
                else Binary(op, Prefixed(t, a), b), [])
  {
    var tail := [Infix(op)] + Operand(b);
    OperandParse(a, tail, PrefixPower(t));
    LastOperand(b, Power(op) + 1);
    if Power(op) >= PrefixPower(t) {
      ClimbInfix(a, op, Operand(b), PrefixPower(t));
    } else {
      StopsClimb(a, tail, PrefixPower(t));
      ClimbInfix(Prefixed(t, a), op, Operand(b), 0);
    }
    PrefixStep(t, Operand(a) + tail, 0);
  }

  /** A leading plus gives its operand and reaches as far as a minus: also where only tighter
      operators are asked for, it takes in sums and products. */
  lemma PlusTakesSums(a: Expr, op: BinOp, b: Expr, min: nat)
    requires min > Power(op)
    ensures ParseExpr([Infix(Add)] + (Operand(a) + ([Infix(op)] + Operand(b))), min) ==
            if op in {Add, Sub, Mul, Div, Mod} then Got(Binary(op, a, b), [])
            else Got(a, [Infix(op)] + Operand(b))
    ensures ParseExpr([Infix(Add)] + Operand(a), 0) == Got(a, [])
  {
    assert op in {Add, Sub, Mul, Div, Mod} <==> Power(op) >= SignPower;
    var tail := [Infix(op)] + Operand(b);
    OperandThen(a, op, b, SignPower);
    PlusStep(Operand(a) + tail, min);
    StopsClimb(Binary(op, a, b), [], min);
    StopsClimb(a, tail, min);
    LastOperand(a, SignPower);
    PlusStep(Operand(a), 0);
    StopsClimb(a, [], 0);
  }

  lemma PlusStep(ts: seq<Token>, min: nat)
    requires ParseExpr(ts, SignPower).Got?
    ensures var r := ParseExpr(ts, SignPower); ParseExpr([Infix(Add)] + ts, min) == Climb(r.e, r.rest, min)
  {
    assert ([Infix(Add)] + ts)[1..] == ts;
  }

  /** Sums, products, concatenation and the JSON arrows go before an IS that follows them, and
      are taken in by IS DISTINCT FROM; comparisons, AND and OR are not. */
  lemma IsAfter(a: Expr, op: BinOp, b: Expr, negated: bool)
    ensures ParseExpr(Operand(a) + ([Infix(op)] + (Operand(b) + IsTokens(negated, NullTok))), 0) ==
            Got(if Tier(op) > 2 then IsNull(Binary(op, a, b), negated) else Binary(op, a, IsNull(b, negated)), [])
  {
    assert Tier(op) > 2 <==> Power(op) + 1 > IsPower;
    var ones := IsTokens(negated, NullTok);
    var tail := Operand(b) + ones;
    OperandIs(b, negated, Power(op) + 1);
    OperandParse(a, [Infix(op)] + tail, 0);
    ClimbInfix(a, op, tail, 0);
    IsClimb(Binary(op, a, b), negated, 0);
    StopsClimb(Binary(op, a, IsNull(b, negated)), [], 0);
  }

  lemma IsClimb(a: Expr, negated: bool, min: nat)
    requires min <= IsPower
    ensures Climb(a, IsTokens(negated, NullTok), min) == Got(IsNull(a, negated), [])
  {
    ClimbIs(a, negated, [], min);
    assert IsTokens(negated, NullTok) + [] == IsTokens(negated, NullTok);
    StopsClimb(IsNull(a, negated), [], min);
  }

  lemma OperandIs(b: Expr, negated: bool, min: nat)
    ensures var ones := IsTokens(negated, NullTok);
            ParseExpr(Operand(b) + ones, min) == if min <= IsPower then Got(IsNull(b, negated), []) else Got(b, ones)
  {
    var ones := IsTokens(negated, NullTok);
    OperandParse(b, ones, min);
    if min <= IsPower {
      IsClimb(b, negated, min);
    } else {
      StopsClimb(b, ones, min);
    }
  }

  lemma IsBefore(a: Expr, negated: bool, b: Expr, op: BinOp, c: Expr)
    ensures ParseExpr(Operand(a) + (IsTokens(negated, DistinctFromTok) + (Operand(b) + ([Infix(op)] + Operand(c)))), 0)
            == Got(if Tier(op) > 2 then IsDistinctFrom(a, Binary(op, b, c), negated)
                   else Binary(op, IsDistinctFrom(a, b, negated), c), [])
  {
    assert Tier(op) > 2 <==> Power(op) >= IsPower + 1;
    var tail := [Infix(op)] + Operand(c);
    OperandThen(b, op, c, IsPower + 1);
    AfterDistinct(a, negated, Operand(b) + tail, 0);
    var d := IsDistinctFrom(a, if Power(op) >= IsPower + 1 then Binary(op, b, c) else b, negated);
    ThenClimb(d, op, c, 0);
    StopsClimb(d, [], 0);
  }

  lemma AfterDistinct(a: Expr, negated: bool, ts: seq<Token>, min: nat)
    requires min <= IsPower && ParseExpr(ts, IsPower + 1).Got?
    ensures var r := ParseExpr(ts, IsPower + 1);
            ParseExpr(Operand(a) + (IsTokens(negated, DistinctFromTok) + ts), min) ==
            Climb(IsDistinctFrom(a, r.e, negated), r.rest, min)
  {
    OperandParse(a, IsTokens(negated, DistinctFromTok) + ts, min);
    ClimbIs(a, negated, ts, min);
  }

  lemma ThenClimb(a: Expr, op: BinOp, b: Expr, min: nat)
    requires Power(op) >= min
    ensures Climb(a, [Infix(op)] + Operand(b), min) == Got(Binary(op, a, b), [])
  {
    LastOperand(b, Power(op) + 1);
    ClimbInfix(a, op, Operand(b), min);
    StopsClimb(Binary(op, a, b), [], min);
  }

  lemma OperandThen(a: Expr, op: BinOp, b: Expr, min: nat)
    ensures var tail := [Infix(op)] + Operand(b);
            ParseExpr(Operand(a) + tail, min) == if Power(op) >= min then Got(Binary(op, a, b), []) else Got(a, tail)
  {
    var tail := [Infix(op)] + Operand(b);
    OperandParse(a, tail, min);
    if Power(op) >= min {
      LastOperand(b, Power(op) + 1);
      ClimbInfix(a, op, Operand(b), min);
      StopsClimb(Binary(op, a, b), [], min);
    } else {
      StopsClimb(a, tail, min);
    }
  }

  /** So NOT takes in every operator but OR: it is parsed at the power of AND. */
  lemma NotTakesAllButOr(a: Expr, op: BinOp, b: Expr)
    ensures ParseExpr([NotTok] + (Operand(a) + ([Infix(op)] + Operand(b))), 0) ==
            Got(if op.Or? then Binary(Or, Not(a), b) else Not(Binary(op, a, b)), [])
  {
    PrefixTakes(NotTok, a, op, b);
  }

  /** And a sign takes in sums and products, and nothing looser. */
  lemma SignTakesSums(a: Expr, op: BinOp, b: Expr)
    ensures ParseExpr([Infix(Sub)] + (Operand(a) + ([Infix(op)] + Operand(b))), 0) ==
            Got(if op in {Add, Sub, Mul, Div, Mod} then Neg(Binary(op, a, b)) else Binary(op, Neg(a), b), [])
  {
    PrefixTakes(Infix(Sub), a, op, b);
  }

  /** NOT takes in IS NULL and IS DISTINCT FROM; a sign takes in neither. */
  lemma PrefixBeforeIs(t: Token, a: Expr, negated: bool, b: Expr)
    requires t == NotTok || t == Infix(Sub)
    ensures ParseExpr([t] + (Operand(a) + IsTokens(negated, NullTok)), 0) ==
            Got(if t.NotTok? then Not(IsNull(a, negated)) else IsNull(Neg(a), negated), [])
    ensures ParseExpr([t] + (Operand(a) + (IsTokens(negated, DistinctFromTok) + Operand(b))), 0) ==
            Got(if t.NotTok? then Not(IsDistinctFrom(a, b, negated)) else IsDistinctFrom(Neg(a), b, negated), [])
  {
    var ones, twos := IsTokens(negated, NullTok), IsTokens(negated, DistinctFromTok) + Operand(b);
    assert ones + [] == ones;
    LastOperand(b, IsPower + 1);
    OperandParse(a, ones, PrefixPower(t));
    OperandParse(a, twos, PrefixPower(t));
    PrefixStepIs(t, a, negated, b, ones, twos);
  }

  lemma PrefixStepIs(t: Token, a: Expr, negated: bool, b: Expr, ones: seq<Token>, twos: seq<Token>)
    requires t == NotTok || t == Infix(Sub)
    requires ones == IsTokens(negated, NullTok) && twos == IsTokens(negated, DistinctFromTok) + Operand(b)
    requires ParseExpr(Operand(b), IsPower + 1) == Got(b, [])
    requires ParseExpr(Operand(a) + ones, PrefixPower(t)) == Climb(a, ones, PrefixPower(t))
    requires ParseExpr(Operand(a) + twos, PrefixPower(t)) == Climb(a, twos, PrefixPower(t))
    ensures ParseExpr([t] + (Operand(a) + ones), 0) ==
            Got(if t.NotTok? then Not(IsNull(a, negated)) else IsNull(Neg(a), negated), [])
    ensures ParseExpr([t] + (Operand(a) + twos), 0) ==
            Got(if t.NotTok? then Not(IsDistinctFrom(a, b, negated)) else IsDistinctFrom(Neg(a), b, negated), [])
  {
    assert ones + [] == ones;
    if t.NotTok? {
      ClimbIs(a, negated, [], NotPower);
      ClimbIs(a, negated, Operand(b), NotPower);
    } else {
      StopsClimb(a, ones, SignPower);
      StopsClimb(a, twos, SignPower);
      ClimbIs(Neg(a), negated, [], 0);
      ClimbIs(Neg(a), negated, Operand(b), 0);
    }
    PrefixStep(t, Operand(a) + ones, 0);
    PrefixStep(t, Operand(a) + twos, 0);
  }

  // --- The parser as a loop ----------------------------------------------------------------

  datatype Turn = Stop | Failed | More(lhs: Expr, pos: nat)

  /** One turn of the loop, at a position with a token. */
  method ClimbOnce(lhs: Expr, ts: seq<Token>, pos: nat, min: nat) returns (r: Turn)
    requires pos < |ts|
    ensures r.Stop? ==> Climb(lhs, ts[pos..], min) == Got(lhs, ts[pos..])
    ensures r.Failed? ==> Climb(lhs, ts[pos..], min).Fail?
    ensures r.More? ==> pos < r.pos <= |ts| && Climb(lhs, ts[pos..], min) == Climb(r.lhs, ts[r.pos..], min)
    decreases |ts| - pos, 2
  {
    var tok := ts[pos];
    SuffixNext(ts, pos);
    if tok.IsTok? && IsPower >= min {
      r := ClimbIsOnce(lhs, ts, pos, min);
      return;
    }
    if tok.Infix? && Power(tok.op) >= min {
      var rhs, after := ParseExprBp(ts, pos + 1, Power(tok.op) + 1);
      return if rhs.None? then Failed else More(Binary(tok.op, lhs, rhs.value), after);
    }
    return Stop;
  }

  /** One turn of the loop at `IS`. */
  method ClimbIsOnce(lhs: Expr, ts: seq<Token>, pos: nat, min: nat) returns (r: Turn)
    requires pos < |ts| && ts[pos].IsTok? && IsPower >= min
    ensures !r.Stop?
    ensures r.Failed? ==> Climb(lhs, ts[pos..], min).Fail?
    ensures r.More? ==> pos < r.pos <= |ts| && Climb(lhs, ts[pos..], min) == Climb(r.lhs, ts[r.pos..], min)
    decreases |ts| - pos, 1
  {
    var found := ReadIs(ts[pos..]);
    if found.NoIs? {
      return Failed;
    }
    var next := pos + found.len;
    SuffixDrop(ts, pos, found.len);
    if found.Null? {
      return More(IsNull(lhs, found.negated), next);
    }
    var rhs, after := ParseExprBp(ts, next, IsPower + 1);
    return if rhs.None? then Failed else More(IsDistinctFrom(lhs, rhs.value, found.negated), after);
  }

  /** `parse_expr_bp`: a prefix, then a loop over operators. */
  method ParseExprBp(ts: seq<Token>, from: nat, min: nat) returns (e: Option<Expr>, pos: nat)
    requires from <= |ts|
    ensures from <= pos <= |ts|
    ensures e.Some? ==> from < pos && ParseExpr(ts[from..], min) == Got(e.value, ts[pos..])
    ensures e.None? ==> ParseExpr(ts[from..], min).Fail?
    decreases |ts| - from, 1
  {
    e, pos := ParsePrefixAt(ts, from);
    if e.None? {
      return;
    }
    var lhs := e.value;
    while pos < |ts|
      invariant from < pos <= |ts| && Climb(lhs, ts[pos..], min) == ParseExpr(ts[from..], min)
      decreases |ts| - pos
    {
      var turn := ClimbOnce(lhs, ts, pos, min);
      if turn.Stop? {
        return Some(lhs), pos;
      }
      if turn.Failed? {
        return None, pos;
      }
      lhs, pos := turn.lhs, turn.pos;
    }
    assert ts[pos..] == [];
    return Some(lhs), pos;
  }

  /** The closing parenthesis after a group. */
  method CloseAt(ts: seq<Token>, inner: Expr, at: nat) returns (e: Option<Expr>, pos: nat)
    requires at <= |ts|
    ensures at <= pos <= |ts|
    ensures e.Some? ==> Close(Got(inner, ts[at..])) == Got(e.value, ts[pos..])
    ensures e.None? ==> Close(Got(inner, ts[at..])).Fail?
  {
    if at < |ts| && ts[at].RParen? {
      SuffixNext(ts, at);
      return Some(inner), at + 1;
    }
    return None, at;
  }

  /** A prefix operator and its operand. */
  method ParseOperandAt(ts: seq<Token>, from: nat) returns (e: Option<Expr>, pos: nat)
    requires from < |ts| && (ts[from] == NotTok || ts[from] == Infix(Sub) || ts[from] == Infix(Add))
    ensures from <= pos <= |ts|
    ensures e.Some? ==> ParsePrefix(ts[from..]) == Got(e.value, ts[pos..]) && from < pos
    ensures e.None? ==> ParsePrefix(ts[from..]).Fail?
    decreases |ts| - from, 0, 0
  {
    var t := ts[from];
    SuffixNext(ts, from);
    e, pos := ParseExprBp(ts, from + 1, PrefixPower(t));
    if e.Some? && t != Infix(Add) {
      e := Some(Prefixed(t, e.value));
    }
  }

  /** `parse_prefix` and the grouped atom. */
  method ParsePrefixAt(ts: seq<Token>, from: nat) returns (e: Option<Expr>, pos: nat)
    requires from <= |ts|
    ensures from <= pos <= |ts|
    ensures e.Some? ==> ParsePrefix(ts[from..]) == Got(e.value, ts[pos..]) && from < pos
    ensures e.None? ==> ParsePrefix(ts[from..]).Fail?
    decreases |ts| - from, 0, 1
  {
    if from == |ts| {
      return None, from;
    }
    SuffixNext(ts, from);
    match ts[from] {
      case AtomTok(a) =>
        e, pos := Some(Leaf(a)), from + 1;
      case NullTok =>
        e, pos := Some(NullConst), from + 1;
      case LParen =>
        e, pos := ParseExprBp(ts, from + 1, 0);
        if e.Some? {
          e, pos := CloseAt(ts, e.value, pos);
        }
      case NotTok =>
        e, pos := ParseOperandAt(ts, from);
      case Infix(op) =>
        if op == Sub || op == Add {
          e, pos := ParseOperandAt(ts, from);
        } else {
          e, pos := None, from;
        }
      case _ =>
        e, pos := None, from;
    }
  }
}
