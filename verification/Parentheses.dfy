/** Every pair of parentheses the printer writes is needed.

Where an operand would be printed in parentheses, its tokens without them are parsed to
a tree that does not have the operand where it belongs.
*/
module Parentheses {
  import opened Precedence

  // --- The left spine of a tree -------------------------------------------------------------

  function Size(e: Expr): (n: nat)
    ensures n > 0
  {
    match e
    case Leaf(_) => 1
    case NullConst => 1
    case Binary(_, left, right) => 1 + Size(left) + Size(right)
    case Not(e1) => 1 + Size(e1)
    case Neg(e1) => 1 + Size(e1)
    case IsNull(e1, _) => 1 + Size(e1)
    case IsDistinctFrom(left, right, _) => 1 + Size(left) + Size(right)
  }

  /** Built by the loop from a left operand. */
  predicate Climbed(e: Expr) {
    e.Binary? || e.IsNull? || e.IsDistinctFrom?
  }

  function LeftOf(e: Expr): (l: Expr)
    requires Climbed(e)
    ensures l < e && Size(l) < Size(e)
  {
    if e.IsNull? then e.e else e.left
  }

  /** The tree itself, its left operand, and so on down. */
  predicate OnSpine(e: Expr, x: Expr) {
    x == e || (Climbed(x) && OnSpine(e, LeftOf(x)))
  }

  lemma {:induction false} SpineSize(e: Expr, x: Expr)
    requires OnSpine(e, x)
    ensures Size(e) <= Size(x) && (e != x ==> Size(e) < Size(x))
    decreases x
  {
    if x != e {
      SpineSize(e, LeftOf(x));
    }
  }

  /** One turn of the loop: it wraps, and goes on. */
  lemma ClimbTurn(lhs: Expr, ts: seq<Token>, min: nat) returns (next: Expr, rest: seq<Token>)
    requires !Stops(ts, min) && Climb(lhs, ts, min).Got?
    ensures Climbed(next) && LeftOf(next) == lhs && Level(next) >= min
    ensures |rest| < |ts| && Climb(lhs, ts, min) == Climb(next, rest, min)
  {
    if ts[0].IsTok? {
      var found := ReadIs(ts);
      if found.Null? {
        next, rest := IsNull(lhs, found.negated), ts[found.len..];
      } else {
        var r := ParseExpr(ts[found.len..], IsPower + 1);
        next, rest := IsDistinctFrom(lhs, r.e, found.negated), r.rest;
      }
    } else {
      var r := ParseExpr(ts[1..], Power(ts[0].op) + 1);
      next, rest := Binary(ts[0].op, lhs, r.e), r.rest;
    }
  }

  /** The loop only wraps: what it starts from is on the spine of what it gives, and larger
      nodes there were built at its level. */
  lemma {:induction false} ClimbSpine(lhs: Expr, ts: seq<Token>, min: nat)
    requires Climb(lhs, ts, min).Got?
    ensures var x := Climb(lhs, ts, min).e; OnSpine(lhs, x) && Size(lhs) <= Size(x)
    ensures !Stops(ts, min) ==> Size(lhs) < Size(Climb(lhs, ts, min).e)
    decreases |ts|
  {
    if Stops(ts, min) {
      StopsClimb(lhs, ts, min);
    } else {
      var next, rest := ClimbTurn(lhs, ts, min);
      ClimbSpine(next, rest, min);
      SpineOn(lhs, next, Climb(lhs, ts, min).e);
    }
  }

  lemma {:induction false} SpineOn(l: Expr, e: Expr, x: Expr)
    requires Climbed(e) && LeftOf(e) == l && OnSpine(e, x)
    ensures OnSpine(l, x)
    decreases x
  {
    if x != e {
      SpineOn(l, e, LeftOf(x));
    }
  }

  /** A node on the spine was there before, or was built at the level of the loop. */
  lemma {:induction false} ClimbNodes(lhs: Expr, ts: seq<Token>, min: nat, e: Expr)
    requires Climb(lhs, ts, min).Got? && OnSpine(e, Climb(lhs, ts, min).e)
    ensures OnSpine(e, lhs) || (Climbed(e) && Level(e) >= min && Size(e) > Size(lhs))
    decreases |ts|
  {
    if Stops(ts, min) {
      StopsClimb(lhs, ts, min);
    } else {
      var next, rest := ClimbTurn(lhs, ts, min);
      ClimbNodes(next, rest, min, e);
    }
  }

  // --- Parentheses against a lower level ----------------------------------------------------

  /** A group at the start is read as what it encloses. */
  lemma GroupPrefix(e: Expr, rest: seq<Token>)
    ensures ParsePrefix(Parens(Print(e, 0)) + rest) == Got(e, rest)
  {
    Closed(e, rest);
    var inner := Print(e, 0);
    ParensRegroup(inner, rest);
    var ts := [LParen] + (inner + ([RParen] + rest));
    assert ts[1..] == inner + ([RParen] + rest);
    assert ([RParen] + rest)[1..] == rest;
  }

  /** The prefix read at the start of a printed tree is NOT, a sign or no larger than it. */
  lemma {:induction false} PrefixSmall(e: Expr, min: nat, rest: seq<Token>)
    ensures var r := ParsePrefix(Print(e, min) + rest);
            r.Got? ==>
              || r.e.Not? || r.e.Neg?
              || (Size(r.e) <= Size(e) && (Climbed(e) && Level(e) >= min ==> Size(r.e) < Size(e)))
    decreases e
  {
    if Level(e) < min {
      GroupPrefix(e, rest);
    } else if Climbed(e) {
      var power, left := Level(e), LeftOf(e);
      var tail := Print(e, min)[|PrintLeft(left, min, power)|..];
      assert Print(e, min) == PrintLeft(left, min, power) + tail;
      Assoc(PrintLeft(left, min, power), tail, rest);
      if Reach(left, min) <= power {
        GroupPrefix(left, tail + rest);
      } else {
        PrefixSmall(left, min, tail + rest);
      }
    } else {
      var ts := Print(e, min) + rest;
      assert ts[0] == Print(e, min)[0];
    }
  }

  /** Without its parentheses, an operand below the level is not what is parsed. */
  lemma BelowLevel(e: Expr, min: nat, rest: seq<Token>)
    requires Level(e) < min <= Free && ParseExpr(Print(e, 0) + rest, min).Got?
    ensures !OnSpine(e, ParseExpr(Print(e, 0) + rest, min).e)
  {
    var r := ParsePrefix(Print(e, 0) + rest);
    PrefixSmall(e, 0, rest);
    if OnSpine(e, ParseExpr(Print(e, 0) + rest, min).e) {
      ClimbNodes(r.e, r.rest, min, e);
      SpineSize(e, r.e);
    }
  }

  // --- Parentheses against an operator that follows -------------------------------------------

  /** More than the tree was parsed, or nothing. */
  predicate Bigger(e: Expr, r: Parsed) {
    r.Got? ==> Size(r.e) > Size(e)
  }

  /** More than the tree was parsed, and not with the tree on its spine. */
  predicate Lost(e: Expr, r: Parsed) {
    Bigger(e, r) && (r.Got? ==> !OnSpine(e, r.e))
  }

  /** Read at level `min` with something after it that it or the loop takes in, more than the
      operand is parsed. */
  lemma {:induction false} TakesMore(e: Expr, min: nat, rest: seq<Token>)
    requires min <= Free && !Stops(rest, Least(min, Reach(e, min)))
    ensures Bigger(e, ParseExpr(Print(e, min) + rest, min))
    decreases e, 2
  {
    if Stops(rest, Reach(e, min)) {
      PrintParse(e, min, rest);
      if Climb(e, rest, min).Got? {
        ClimbSpine(e, rest, min);
      }
    } else {
      TakenIn(e, min, rest);
    }
  }

  /** An operator that binds as tightly as the reach of an operand is taken into it: the
      operand itself is not parsed. */
  lemma {:induction false} TakenIn(e: Expr, min: nat, rest: seq<Token>)
    requires min <= Free && !Stops(rest, Reach(e, min))
    ensures Lost(e, ParseExpr(Print(e, min) + rest, min))
    decreases e, 1
  {
    match e
    case Not(_) => PrefixTakenIn(e, NotTok, min, rest);
    case Neg(_) => PrefixTakenIn(e, Infix(Sub), min, rest);
    case Binary(_, _, _) => TwoSidedTakenIn(e, min, rest);
    case IsDistinctFrom(_, _, _) => TwoSidedTakenIn(e, min, rest);
    case _ =>
  }

  lemma {:induction false} PrefixTakenIn(e: Expr, t: Token, min: nat, rest: seq<Token>)
    requires (e.Not? && t == NotTok) || (e.Neg? && t == Infix(Sub))
    requires min <= Free && !Stops(rest, Reach(e, min))
    ensures Lost(e, ParseExpr(Print(e, min) + rest, min))
    decreases e, 0
  {
    TakesMore(e.e, PrefixPower(t), rest);
    Assoc([t], Print(e.e, PrefixPower(t)), rest);
    PrefixGrown(e, t, Print(e.e, PrefixPower(t)) + rest, min);
  }

  lemma PrefixGrown(e: Expr, t: Token, ts: seq<Token>, min: nat)
    requires (e.Not? && t == NotTok) || (e.Neg? && t == Infix(Sub))
    requires Bigger(e.e, ParseExpr(ts, PrefixPower(t)))
    ensures Lost(e, ParseExpr([t] + ts, min))
  {
    var r := ParseExpr(ts, PrefixPower(t));
    if r.Got? {
      PrefixStep(t, ts, min);
      PrefixOutgrown(e, Prefixed(t, r.e), r.rest, min);
    } else {
      assert ([t] + ts)[1..] == ts;
    }
  }

  lemma PrefixOutgrown(e: Expr, lhs: Expr, ts: seq<Token>, min: nat)
    requires !Climbed(e) && !Climbed(lhs) && Size(lhs) > Size(e)
    ensures Lost(e, Climb(lhs, ts, min))
  {
    if Climb(lhs, ts, min).Got? {
      ClimbSpine(lhs, ts, min);
      if OnSpine(e, Climb(lhs, ts, min).e) {
        ClimbNodes(lhs, ts, min, e);
      }
    }
  }

  /** The right operand grew, so the node is not on the spine. */
  lemma Outgrown(e: Expr, lhs: Expr, ts: seq<Token>, min: nat)
    requires Climbed(e) && Climbed(lhs) && LeftOf(lhs) == LeftOf(e) && Size(lhs) > Size(e)
    ensures Lost(e, Climb(lhs, ts, min))
  {
    if Climb(lhs, ts, min).Got? {
      ClimbSpine(lhs, ts, min);
      if OnSpine(e, Climb(lhs, ts, min).e) {
        ClimbNodes(lhs, ts, min, e);
        SpineSize(e, LeftOf(e));
      }
    }
  }

  /** Two operands around an operator. */
  predicate TwoSided(e: Expr) {
    e.Binary? || e.IsDistinctFrom?
  }

  /** The tokens between them. */
  function Marks(e: Expr): seq<Token>
    requires TwoSided(e)
  {
    if e.Binary? then [Infix(e.op)] else IsTokens(e.negated, DistinctFromTok)
  }

  /** After the left operand and the operator the loop reads a right operand. */
  lemma MarksRead(e: Expr, ts: seq<Token>, min: nat)
    requires TwoSided(e) && min <= Level(e) && Climb(e.left, Marks(e) + ts, min).Got?
    ensures var r := ParseExpr(ts, Level(e) + 1);
            r.Got? && Climb(e.left, Marks(e) + ts, min) == Climb(e.(right := r.e), r.rest, min)
  {
    var k := |Marks(e)|;
    var all := Marks(e) + ts;
    assert all[k..] == ts;
    if e.Binary? {
      assert all[0] == Infix(e.op);
    } else {
      assert ReadIs(all) == Distinct(e.negated, k);
    }
  }

  lemma MarksStop(e: Expr, ts: seq<Token>)
    requires TwoSided(e)
    ensures Stops(Marks(e) + ts, Level(e) + 1)
  {
    assert (Marks(e) + ts)[0] == Marks(e)[0];
  }

  lemma PrintTwoSided(e: Expr, min: nat)
    requires TwoSided(e) && min <= Level(e)
    ensures Print(e, min) == PrintLeft(e.left, min, Level(e)) + (Marks(e) + Print(e.right, Level(e) + 1))
  {
  }

  /** Where the right operand grows, the node is outgrown. */
  lemma Grown(e: Expr, ts: seq<Token>, min: nat)
    requires TwoSided(e) && min <= Level(e) && Bigger(e.right, ParseExpr(ts, Level(e) + 1))
    ensures Lost(e, Climb(e.left, Marks(e) + ts, min))
  {
    if Climb(e.left, Marks(e) + ts, min).Got? {
      MarksRead(e, ts, min);
      var r := ParseExpr(ts, Level(e) + 1);
      Outgrown(e, e.(right := r.e), r.rest, min);
    }
  }

  lemma ReachTwoSided(e: Expr, min: nat)
    requires TwoSided(e)
    ensures Reach(e, min) == if Level(e) < min then Free else Least(Level(e) + 1, Reach(e.right, Level(e) + 1))
    ensures Level(e) <= 12
  {
  }

  lemma LeftIsRead(e: Expr, min: nat, rest: seq<Token>)
    requires TwoSided(e) && min <= Level(e)
    ensures ParseExpr(Print(e, min) + rest, min) ==
            Climb(e.left, Marks(e) + (Print(e.right, Level(e) + 1) + rest), min)
  {
    var a, b := PrintLeft(e.left, min, Level(e)), Print(e.right, Level(e) + 1);
    PrintTwoSided(e, min);
    Regroup(a, Marks(e), b, rest);
    MarksStop(e, b + rest);
    LeftParse(e.left, min, Level(e), Marks(e) + (b + rest));
  }

  lemma {:induction false} TwoSidedTakenIn(e: Expr, min: nat, rest: seq<Token>)
    requires TwoSided(e) && min <= Free && !Stops(rest, Reach(e, min))
    ensures Lost(e, ParseExpr(Print(e, min) + rest, min))
    decreases e, 0
  {
    ReachTwoSided(e, min);
    TakesMore(e.right, Level(e) + 1, rest);
    Grown(e, Print(e.right, Level(e) + 1) + rest, min);
    LeftIsRead(e, min, rest);
  }

  // --- Exactly when an operand can stand bare ----------------------------------------------------

  /** The tokens of an operand without an outer pair of parentheses. */
  function Bare(e: Expr, min: nat): seq<Token> {
    Print(e, if Level(e) < min then 0 else min)
  }

  /** Bare, an operand is parsed where it belongs exactly when it is not below the level and
      what follows is out of its reach: elsewhere its parentheses are needed. */
  lemma BareExactly(e: Expr, min: nat, rest: seq<Token>)
    requires min <= Free && ParseExpr(Bare(e, min) + rest, min).Got?
    ensures OnSpine(e, ParseExpr(Bare(e, min) + rest, min).e) <==> Level(e) >= min && Stops(rest, Reach(e, min))
  {
    if Level(e) < min {
      BelowLevel(e, min, rest);
    } else if Stops(rest, Reach(e, min)) {
      PrintParse(e, min, rest);
      ClimbSpine(e, rest, min);
    } else {
      TakenIn(e, min, rest);
    }
  }

  // --- Node by node ---------------------------------------------------------------------------------

  lemma Whole(ts: seq<Token>)
    ensures ts + [] == ts
  {
  }

  /** Another right operand makes another tree, however the loop goes on. */
  lemma OtherRight(e: Expr, right: Expr, ts: seq<Token>)
    requires TwoSided(e) && right != e.right && Climb(e.(right := right), ts, 0).Got?
    ensures Climb(e.(right := right), ts, 0).e != e
  {
    var other := e.(right := right);
    ClimbSpine(other, ts, 0);
    if OnSpine(other, e) {
      SpineSize(other, e.left);
    }
  }

  /** A right operand printed in parentheses needs them. */
  lemma RightPairNeeded(e: Expr)
    requires TwoSided(e) && Level(e.right) <= Level(e)
    ensures Print(e, 0) == PrintLeft(e.left, 0, Level(e)) + (Marks(e) + Parens(Print(e.right, 0)))
    ensures ParseExpr(PrintLeft(e.left, 0, Level(e)) + (Marks(e) + Print(e.right, 0)), 0) != Got(e, [])
  {
    var bare := Print(e.right, 0);
    PrintTwoSided(e, 0);
    MarksStop(e, bare);
    LeftParse(e.left, 0, Level(e), Marks(e) + bare);
    RightMisread(e, bare);
  }

  lemma RightMisread(e: Expr, bare: seq<Token>)
    requires TwoSided(e) && Level(e.right) <= Level(e) && bare == Print(e.right, 0)
    ensures Climb(e.left, Marks(e) + bare, 0) != Got(e, [])
  {
    if Climb(e.left, Marks(e) + bare, 0).Got? {
      MarksRead(e, bare, 0);
      var r := ParseExpr(bare, Level(e) + 1);
      Whole(bare);
      BelowLevel(e.right, Level(e) + 1, []);
      OtherRight(e, r.e, r.rest);
    }
  }

  /** The tokens after the left operand. */
  function AfterLeft(e: Expr): seq<Token>
    requires Climbed(e)
  {
    if e.IsNull? then IsTokens(e.negated, NullTok) else Marks(e) + Print(e.right, Level(e) + 1)
  }

  /** A left operand printed in parentheses needs them. */
  lemma LeftPairNeeded(e: Expr)
    requires Climbed(e) && Reach(LeftOf(e), 0) <= Level(e)
    ensures Print(e, 0) == Parens(Print(LeftOf(e), 0)) + AfterLeft(e)
    ensures ParseExpr(Print(LeftOf(e), 0) + AfterLeft(e), 0) != Got(e, [])
  {
    PrintClimbed(e);
    TailTaken(e, Reach(LeftOf(e), 0));
    TakenIn(LeftOf(e), 0, AfterLeft(e));
    assert OnSpine(LeftOf(e), LeftOf(e)) && OnSpine(LeftOf(e), e);
  }

  lemma PrintClimbed(e: Expr)
    requires Climbed(e)
    ensures Print(e, 0) == PrintLeft(LeftOf(e), 0, Level(e)) + AfterLeft(e)
  {
    if TwoSided(e) {
      PrintTwoSided(e, 0);
    }
  }

  lemma TailTaken(e: Expr, reach: nat)
    requires Climbed(e) && reach <= Level(e)
    ensures !Stops(AfterLeft(e), reach)
  {
    assert AfterLeft(e)[0] == if e.Binary? then Infix(e.op) else IsTok;
  }

  /** The operand of NOT or of a sign printed in parentheses needs them. */
  lemma PrefixPairNeeded(t: Token, e: Expr)
    requires (t == NotTok || t == Infix(Sub)) && Level(e) < PrefixPower(t)
    ensures Print(Prefixed(t, e), 0) == [t] + Parens(Print(e, 0))
    ensures ParseExpr([t] + Print(e, 0), 0) != Got(Prefixed(t, e), [])
  {
    var bare := Print(e, 0);
    assert Print(Prefixed(t, e), 0) == [t] + Print(e, PrefixPower(t));
    var r := ParseExpr(bare, PrefixPower(t));
    if r.Got? {
      Whole(bare);
      BelowLevel(e, PrefixPower(t), []);
      PrefixStep(t, bare, 0);
      OtherOperand(t, e, r.e, r.rest);
    } else {
      assert ([t] + bare)[1..] == bare;
    }
  }

  lemma OtherOperand(t: Token, e: Expr, other: Expr, ts: seq<Token>)
    requires other != e
    ensures Climb(Prefixed(t, other), ts, 0).Got? ==> Climb(Prefixed(t, other), ts, 0).e != Prefixed(t, e)
  {
    if Climb(Prefixed(t, other), ts, 0).Got? {
      ClimbSpine(Prefixed(t, other), ts, 0);
    }
  }
}
