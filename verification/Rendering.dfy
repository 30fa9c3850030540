/** Rendering a statement tail back to text, and lexing it again.

Tokens are joined by a space, except before `,` `)` `.` and after `(` `.`. Quoted
identifiers are written without their quotes.
*/
module Rendering {
  import opened Collections
  import opened Numerals
  import opened Lexer

  // --- Rendering -------------------------------------------------------------------

  /** Every single quote twice. */
  function Doubled(s: string): string {
    if s == "" then "" else if s[0] == '\'' then "''" + Doubled(s[1..]) else [s[0]] + Doubled(s[1..])
  }

  /** `token_text`. */
  function Text(t: Token): string {
    match t
    case Word(s) => s
    case QuotedIdent(s) => s
    case Number(s) => s
    case StringLit(s) => "'" + Doubled(s) + "'"
    case Param(n) => "$" + Digits(n)
    case Comma => ","
    case Dot => "."
    case Semicolon => ";"
    case LParen => "("
    case RParen => ")"
    case Op(o) => OpText(o)
  }

  function OpText(o: Operator): (s: string)
    ensures 1 <= |s| <= 3
  {
    match o
    case LBracket => "["
    case RBracket => "]"
    case Star => "*"
    case Plus => "+"
    case Minus => "-"
    case Slash => "/"
    case Percent => "%"
    case Eq => "="
    case NotEq => "<>"
    case Lt => "<"
    case LtEq => "<="
    case Gt => ">"
    case GtEq => ">="
    case Concat => "||"
    case DoubleColon => "::"
    case Arrow => "->"
    case ArrowText => "->>"
    case ArrayContains => "@>"
    case TextSearchMatch => "@@"
    case ArrayContainedBy => "<@"
    case ArrayOverlap => "&&"
    case NetworkContainedBy => "<<"
    case NetworkContainedByEq => "<<="
    case NetworkContains => ">>"
    case NetworkContainsEq => ">>="
    case Match => "~"
    case MatchCi => "~*"
    case NotMatch => "!~"
    case NotMatchCi => "!~*"
  }

  predicate GluesLeft(t: Token) {
    t.Comma? || t.RParen? || t.Dot?
  }

  predicate Opens(t: Token) {
    t.LParen? || t.Dot?
  }

  function Gap(started: bool, open: bool, t: Token): string {
    if started && !GluesLeft(t) && !open then " " else ""
  }

  /** The tokens joined, after something was written or not, and after an opening token
      or not; `text` renders one token. */
  function Join(text: Token -> string, started: bool, open: bool, ts: seq<Token>): string
    decreases |ts|
  {
    if ts == [] then ""
    else
      var first := text(ts[0]);
      Gap(started, open, ts[0]) + first + Join(text, started || first != "", Opens(ts[0]), ts[1..])
  }

  function Tail(started: bool, open: bool, ts: seq<Token>): string {
    Join(Text, started, open, ts)
  }

  lemma Regroup(a: string, b: string, c: string, d: string)
    ensures a + (b + c + d) == (a + b) + c + d
  {
  }

  predicate LastOpens(open: bool, ts: seq<Token>) {
    if ts == [] then open else Opens(ts[|ts| - 1])
  }

  lemma {:induction false} JoinSnoc(text: Token -> string, started: bool, open: bool, ts: seq<Token>, t: Token)
    ensures var sofar := Join(text, started, open, ts);
            Join(text, started, open, ts + [t]) == sofar + Gap(started || sofar != "", LastOpens(open, ts), t) + text(t)
    decreases |ts|
  {
    if ts == [] {
      assert (ts + [t])[0] == t && (ts + [t])[1..] == [];
      assert Join(text, started || text(t) != "", Opens(t), []) == "";
    } else {
      var head, rest := ts[0], ts[1..];
      assert (ts + [t])[0] == head && (ts + [t])[1..] == rest + [t];
      var start, started' := Gap(started, open, head) + text(head), started || text(head) != "";
      JoinSnoc(text, started', Opens(head), rest, t);
      assert LastOpens(Opens(head), rest) == LastOpens(open, ts);
      var j := Join(text, started', Opens(head), rest);
      assert Join(text, started, open, ts) == start + j;
      Regroup(start, j, Gap(started' || j != "", LastOpens(open, ts), t), text(t));
    }
  }

  /** Write one more token. */
  method AppendToken(text: Token -> string, out: string, prevOpen: bool, ghost ts: seq<Token>, t: Token)
    returns (r: string)
    requires out == Join(text, false, false, ts) && prevOpen == LastOpens(false, ts)
    ensures r == Join(text, false, false, ts + [t])
  {
    JoinSnoc(text, false, false, ts, t);
    r := out;
    if r != "" && !GluesLeft(t) && !prevOpen {
      r := r + " ";
    }
    r := r + text(t);
  }

  /** `collect_statement_tail`: from a position to the next semicolon or the end. */
  method CollectStatementTail(text: Token -> string, ts: seq<Token>, from: nat) returns (out: string, pos: nat)
    requires from <= |ts|
    ensures from <= pos <= |ts| && (pos < |ts| ==> ts[pos].Semicolon?)
    ensures forall i :: from <= i < pos ==> !ts[i].Semicolon?
    ensures out == Join(text, false, false, ts[from..pos])
  {
    out, pos := "", from;
    var prevOpen := false;
    ghost var done: seq<Token> := [];
    while pos < |ts| && !ts[pos].Semicolon?
      invariant from <= pos <= |ts| && done == ts[from..pos]
      invariant forall i :: from <= i < pos ==> !ts[i].Semicolon?
      invariant out == Join(text, false, false, done)
      invariant prevOpen == LastOpens(false, done)
    {
      var t := ts[pos];
      SliceNext(ts, from, pos);
      out := AppendToken(text, out, prevOpen, done, t);
      prevOpen, pos, done := Opens(t), pos + 1, done + [t];
    }
  }

  // --- Tokens the lexer makes ---------------------------------------------------------

  /** A number with a point or an exponent takes no further dot. */
  predicate HasPoint(s: string) {
    s != "" && (s[0] == '.' || s[0] == 'e' || s[0] == 'E' || HasPoint(s[1..]))
  }

  predicate Lexed(t: Token) {
    match t
    case Word(s) => s != "" && StartsWord(s[0]) && WordLen(s) == |s|
    case Number(s) => StartsNumber(s) && NumberLen(s, NothingSeen) == |s|
    case Param(n) => n <= MaxParam
    case _ => true
  }

  lemma {:induction false} WordLenPrefix(s: string)
    ensures WordLen(s[..WordLen(s)]) == WordLen(s)
  {
    var n := WordLen(s);
    if n > 0 {
      WordLenPrefix(s[1..]);
      assert s[..n][1..] == s[1..][..n - 1];
    }
  }

  lemma {:induction false} NumberLenPrefix(s: string, seen: Seen)
    ensures NumberLen(s[..NumberLen(s, seen)], seen) == NumberLen(s, seen)
    decreases |s|
  {
    var n := NumberLen(s, seen);
    if n > 0 {
      assert s[..n][1..] == s[1..][..n - 1];
      NumberLenPrefix(s[1..], seen.After(s[0]));
    }
  }

  lemma NumberLexed(s: string)
    requires StartsNumber(s)
    ensures Lexed(Number(s[..NumberLen(s, NothingSeen)]))
  {
    var n := NumberLen(s, NothingSeen);
    NumberLenPrefix(s, NothingSeen);
    assert s[..n][0] == s[0];
    if !IsDigit(s[0]) {
      assert n >= 2 && s[..n][1..][0] == s[1];
    }
  }

  lemma ReadIsLexed(s: string)
    requires s != "" && ReadToken(s).Tok?
    ensures Lexed(ReadToken(s).token)
  {
    WordLenPrefix(s);
    if StartsNumber(s) {
      NumberLexed(s);
    }
  }

  /** Every token the lexer produces is of the expected form. */
  lemma {:induction false} LexIsLexed(s: string)
    ensures Lex(s).Some? ==> forall i :: 0 <= i < |Lex(s).value| ==> Lexed(Lex(s).value[i])
    decreases |s|
  {
    if Lex(s).Some? && Skip(s) != "" {
      ReadIsLexed(Skip(s));
      var rest := NextToken(s).rest;
      LexIsLexed(rest);
      assert Lex(s).value == [NextToken(s).token] + Lex(rest).value;
    }
  }

  // --- One token read back -----------------------------------------------------------

  /** What can follow a token that does not open. */
  predicate Boundary(k: string) {
    k == "" || IsSpace(k[0]) || k[0] == ',' || k[0] == ')' || k[0] == '.'
  }

  lemma {:induction false} WordStops(w: string, k: string)
    requires WordLen(w) == |w| && Boundary(k)
    ensures WordLen(w + k) == |w|
  {
    if w == "" {
      assert w + k == k;
    } else {
      assert (w + k)[1..] == w[1..] + k;
      WordStops(w[1..], k);
    }
  }

  lemma AtAppend(a: string, b: string)
    ensures a + b == "" <==> a == "" && b == ""
    ensures a + b != "" ==> (a + b)[0] == if a != "" then a[0] else b[0]
  {
  }

  /** A number ends at a boundary, unless that is a dot it can take. */
  lemma {:induction false} NumberStops(n: string, seen: Seen, k: string)
    requires NumberLen(n, seen) == |n| && Boundary(k)
    requires !At(k, '.') || seen.dot || seen.exp || HasPoint(n)
    ensures NumberLen(n + k, seen) == |n|
    decreases |n|
  {
    if n == "" {
      assert n + k == k;
    } else {
      assert (n + k)[1..] == n[1..] + k;
      NumberStops(n[1..], seen.After(n[0]), k);
    }
  }

  lemma {:induction false} NumberSwallows(n: string, k: string)
    requires NumberLen(n, NothingSeen) == |n| && !HasPoint(n) && At(k, '.')
    ensures NumberLen(n + k, NothingSeen) > |n|
  {
    if n == "" {
      assert n + k == k;
    } else {
      assert (n + k)[1..] == n[1..] + k;
      NumberSwallows(n[1..], k);
    }
  }

  lemma {:induction false} QuotedStops(s: string, k: string)
    requires !At(k, '\'')
    ensures ReadQuoted(Doubled(s) + "'" + k, '\'') == Closed(s, k)
  {
    var all := Doubled(s) + "'" + k;
    if s == "" {
      assert all == "'" + k;
      assert all[1..] == k;
    } else {
      QuotedStops(s[1..], k);
      var rest := Doubled(s[1..]) + "'" + k;
      assert [s[0]] + s[1..] == s;
      if s[0] == '\'' {
        assert all == "''" + rest;
        assert all[1..][0] == '\'' && all[2..] == rest;
      } else {
        assert all == [s[0]] + rest;
        assert all[1..] == rest;
      }
    }
  }

  lemma {:induction false} DigitsStop(d: string, k: string)
    requires AllDigits(d) && Boundary(k)
    ensures DigitsLen(d + k) == |d|
  {
    if d == "" {
      assert d + k == k;
    } else {
      assert (d + k)[1..] == d[1..] + k;
      DigitsStop(d[1..], k);
    }
  }

  /** A token is read back from its text when what follows does not extend it. */
  predicate Follows(t: Token, k: string) {
    match t
    case LParen => true
    case Dot => !DigitAt(k)
    case Number(s) => Boundary(k) && (At(k, '.') ==> HasPoint(s))
    case _ => Boundary(k)
  }

  predicate Renderable(t: Token) {
    Lexed(t) && !t.QuotedIdent?
  }

  lemma WordBack(w: string, k: string)
    requires Lexed(Word(w)) && Boundary(k)
    ensures ReadToken(w + k) == Tok(Word(w), k) && Skip(w + k) == w + k
  {
    var s := w + k;
    WordStops(w, k);
    assert s[0] == w[0];
    assert !At(s[1..], '\'') by {
      if |w| > 1 {
        assert w[1..] != "" && WordLen(w[1..]) == |w[1..]|;
        assert s[1..][0] == w[1..][0];
      } else {
        assert s[1..] == k;
      }
    }
    assert s[..|w|] == w && s[|w|..] == k;
  }

  lemma NumberBack(n: string, k: string)
    requires Lexed(Number(n)) && Boundary(k)
    ensures Skip(n + k) == n + k
    ensures (At(k, '.') ==> HasPoint(n)) ==> ReadToken(n + k) == Tok(Number(n), k)
    ensures At(k, '.') && !HasPoint(n) ==> ReadToken(n + k).Tok? && ReadToken(n + k).token != Number(n)
  {
    var s := n + k;
    if At(k, '.') && !HasPoint(n) {
      NumberSwallows(n, k);
    } else {
      NumberStops(n, NothingSeen, k);
    }
    assert s[0] == n[0];
    assert StartsNumber(s) by {
      if !IsDigit(n[0]) {
        assert s[1..][0] == n[1..][0];
      }
    }
    assert s[..|n|] == n && s[|n|..] == k;
    var len := NumberLen(s, NothingSeen);
    assert len > |n| ==> |s[..len]| > |n|;
  }

  lemma StringBack(v: string, k: string)
    requires Boundary(k)
    ensures ReadToken(Text(StringLit(v)) + k) == Tok(StringLit(v), k)
    ensures Skip(Text(StringLit(v)) + k) == Text(StringLit(v)) + k
  {
    var s := Text(StringLit(v)) + k;
    assert s[1..] == Doubled(v) + "'" + k;
    QuotedStops(v, k);
    assert s[0] == '\'';
  }

  lemma DollarBack(d: string, k: string)
    requires d != "" && AllDigits(d) && Boundary(k)
    ensures ReadToken("$" + d + k) == Tok(Param(ParamOf(d)), k) && Skip("$" + d + k) == "$" + d + k
  {
    var s := "$" + d + k;
    assert s[1..] == d + k;
    DigitsStop(d, k);
    assert (d + k)[0] == d[0];
    assert (d + k)[..|d|] == d && (d + k)[|d|..] == k;
  }

  lemma ParamBack(n: nat, k: string)
    requires n <= MaxParam && Boundary(k)
    ensures ReadToken(Text(Param(n)) + k) == Tok(Param(n), k)
    ensures Skip(Text(Param(n)) + k) == Text(Param(n)) + k
  {
    DollarBack(Digits(n), k);
    DigitsRoundTrip(n);
  }

  lemma Operator1(o: Operator, k: string)
    requires |OpText(o)| == 1 && Boundary(k)
    ensures ReadOperator(OpText(o) + k) == Tok(Op(o), k)
  {
    var s := OpText(o) + k;
    assert s[1..] == k;
  }

  lemma Operator2(o: Operator, k: string)
    requires |OpText(o)| == 2 && Boundary(k)
    ensures ReadOperator(OpText(o) + k) == Tok(Op(o), k)
  {
    var s := OpText(o) + k;
    assert s[2..] == k && s[1..][0] == s[1];
    assert k == "" || s[2] == k[0];
  }

  lemma Operator3(o: Operator, k: string)
    requires |OpText(o)| == 3
    ensures ReadOperator(OpText(o) + k) == Tok(Op(o), k)
  {
    var s := OpText(o) + k;
    assert s[3..] == k && s[1..][0] == s[1];
  }

  /** Text that starts with an operator goes to the operator table. */
  lemma OperatorStarts(s: string)
    requires s != "" && !IsSpace(s[0]) && !StartsWord(s[0]) && !IsDigit(s[0])
    requires s[0] != '"' && s[0] != '\'' && s[0] != '$'
    requires s[0] == '.' ==> !DigitAt(s[1..])
    requires s[0] == '-' ==> !At(s[1..], '-')
    requires s[0] == '/' ==> !At(s[1..], '*')
    ensures ReadToken(s) == ReadOperator(s) && Skip(s) == s
  {
  }

  lemma OpTextStarts(o: Operator)
    ensures var s := OpText(o);
            && !IsSpace(s[0]) && !StartsWord(s[0]) && !IsDigit(s[0]) && s[0] != '"' && s[0] != '\'' && s[0] != '$'
            && s[0] != '.' && (|s| > 1 ==> s[1] != '-' && (s[1] == '*' ==> s[0] != '/'))
  {
  }

  lemma OperatorBack(o: Operator, k: string)
    requires Boundary(k)
    ensures ReadToken(OpText(o) + k) == Tok(Op(o), k) && Skip(OpText(o) + k) == OpText(o) + k
  {
    var t := OpText(o);
    var s := t + k;
    OpTextStarts(o);
    assert s[0] == t[0] && s[1..] == t[1..] + k;
    AtAppend(t[1..], k);
    OperatorStarts(s);
    if |t| == 1 {
      Operator1(o, k);
    } else if |t| == 2 {
      Operator2(o, k);
    } else {
      Operator3(o, k);
    }
  }

  lemma PunctuationBack(t: Token, k: string)
    requires (t.Comma? || t.Semicolon? || t.LParen? || t.RParen? || t.Dot?) && Follows(t, k)
    ensures ReadToken(Text(t) + k) == Tok(t, k) && Skip(Text(t) + k) == Text(t) + k
  {
    var s := Text(t) + k;
    assert s[1..] == k;
    OperatorStarts(s);
  }

  lemma TokenBack(t: Token, k: string)
    requires Renderable(t) && Follows(t, k)
    ensures ReadToken(Text(t) + k) == Tok(t, k) && Skip(Text(t) + k) == Text(t) + k
  {
    match t
    case Word(w) => WordBack(w, k);
    case Number(n) => NumberBack(n, k);
    case StringLit(v) => StringBack(v, k);
    case Param(n) => ParamBack(n, k);
    case Op(o) => OperatorBack(o, k);
    case _ => PunctuationBack(t, k);
  }

  // --- A whole tail read back ----------------------------------------------------------

  /** Rendered side by side, the two tokens merge. */
  predicate Merge(a: Token, b: Token) {
    || (a.Number? && !HasPoint(a.digits) && b.Dot?)
    || (a.Dot? && b.Number? && DigitAt(b.digits))
  }

  predicate NoneMerge(ts: seq<Token>) {
    |ts| < 2 || (!Merge(ts[0], ts[1]) && NoneMerge(ts[1..]))
  }

  predicate AllRenderable(ts: seq<Token>) {
    forall i :: 0 <= i < |ts| ==> Renderable(ts[i])
  }

  lemma TextStarts(t: Token)
    requires Renderable(t)
    ensures Text(t) != ""
    ensures At(Text(t), '.') <==> t.Dot? || (t.Number? && At(t.digits, '.'))
    ensures DigitAt(Text(t)) <==> t.Number? && DigitAt(t.digits)
    ensures !IsSpace(Text(t)[0])
    ensures GluesLeft(t) ==> Boundary(Text(t))
  {
    if t.Op? {
      OpTextStarts(t.op);
    }
  }

  lemma TailStep(started: bool, open: bool, ts: seq<Token>)
    requires ts != []
    ensures Tail(started, open, ts) ==
            Gap(started, open, ts[0]) + Text(ts[0]) + Tail(started || Text(ts[0]) != "", Opens(ts[0]), ts[1..])
  {
  }

  /** What stands after a token that is not followed by one it merges with. */
  lemma TailFollows(t: Token, ts: seq<Token>)
    requires Renderable(t) && AllRenderable(ts) && (ts != [] ==> !Merge(t, ts[0]))
    ensures Follows(t, Tail(true, Opens(t), ts))
  {
    if ts != [] {
      TextStarts(ts[0]);
      TailStep(true, Opens(t), ts);
      var k := Tail(true, Opens(t), ts);
      assert k[0] == (Gap(true, Opens(t), ts[0]) + Text(ts[0]))[0];
    }
  }

  /** A merged pair is lexed as some other token. */
  lemma MergedDiffers(t: Token, ts: seq<Token>)
    requires Renderable(t) && AllRenderable(ts) && ts != [] && Merge(t, ts[0])
    ensures var s := Text(t) + Tail(true, Opens(t), ts);
            Skip(s) == s && ReadToken(s).Tok? && ReadToken(s).token != t
  {
    TextStarts(ts[0]);
    TailStep(true, Opens(t), ts);
    var k := Tail(true, Opens(t), ts);
    assert k[0] == Text(ts[0])[0];
    if t.Number? {
      NumberBack(t.digits, k);
    } else {
      var s := Text(t) + k;
      assert s[1..] == k;
    }
  }

  predicate ReadsAs(s: string, ts: seq<Token>) {
    Lex(s) == Some(ts)
  }

  /** A rendered tail is read back when its first token does not merge with the next
      and the rest is read back. */
  lemma TailHead(started: bool, open: bool, ts: seq<Token>)
    requires AllRenderable(ts) && ts != []
    ensures ReadsAs(Tail(started, open, ts), ts) <==>
            !(|ts| > 1 && Merge(ts[0], ts[1])) && ReadsAs(Tail(true, Opens(ts[0]), ts[1..]), ts[1..])
  {
    var t, rest := ts[0], ts[1..];
    HeadReads(t, rest);
    TailStep(started, open, ts);
    Assemble(Tail(started, open, ts), Gap(started, open, t), Text(t), Tail(true, Opens(t), rest), ts,
             |ts| > 1 && Merge(t, ts[1]));
  }

  lemma Assemble(all: string, gap: string, text: string, k: string, ts: seq<Token>, merged: bool)
    requires ts != [] && all == gap + text + k && (gap == "" || gap == " ") && text != ""
    requires Skip(text + k) == text + k && ReadToken(text + k).Tok?
    requires if merged then ReadToken(text + k).token != ts[0] else ReadToken(text + k) == Tok(ts[0], k)
    ensures ReadsAs(all, ts) <==> !merged && ReadsAs(k, ts[1..])
  {
    assert all == gap + (text + k);
    assert ts == [ts[0]] + ts[1..];
    LexHead(gap, text + k, ts[0], ts[1..]);
  }

  lemma HeadReads(t: Token, rest: seq<Token>)
    requires Renderable(t) && AllRenderable(rest)
    ensures var k := Tail(true, Opens(t), rest);
            var s := Text(t) + k;
            && Text(t) != "" && Skip(s) == s && ReadToken(s).Tok?
            && if rest != [] && Merge(t, rest[0]) then ReadToken(s).token != t else ReadToken(s) == Tok(t, k)
  {
    TextStarts(t);
    if rest != [] && Merge(t, rest[0]) {
      MergedDiffers(t, rest);
    } else {
      TailFollows(t, rest);
      TokenBack(t, Tail(true, Opens(t), rest));
    }
  }

  /** Without quoted identifiers, a rendered tail is lexed back exactly when none merge. */
  lemma {:induction false} PlainTail(started: bool, open: bool, ts: seq<Token>)
    requires AllRenderable(ts)
    ensures ReadsAs(Tail(started, open, ts), ts) <==> NoneMerge(ts)
    decreases |ts|
  {
    if ts == [] {
      assert Tail(started, open, ts) == "";
    } else {
      TailHead(started, open, ts);
      PlainTail(true, Opens(ts[0]), ts[1..]);
    }
  }

  lemma SkipGap(gap: string, s: string)
    requires (gap == "" || gap == " ") && Skip(s) == s
    ensures Skip(gap + s) == s
  {
    if gap == "" {
      assert gap + s == s;
    } else {
      assert (gap + s)[1..] == s;
    }
  }

  lemma LexHead(gap: string, s: string, t: Token, rest: seq<Token>)
    requires (gap == "" || gap == " ") && Skip(s) == s && s != "" && ReadToken(s).Tok?
    ensures ReadsAs(gap + s, [t] + rest) <==> ReadToken(s).token == t && ReadsAs(ReadToken(s).rest, rest)
  {
    SkipGap(gap, s);
    var more := Lex(ReadToken(s).rest);
    assert more.Some? ==> Lex(gap + s) == Some([ReadToken(s).token] + more.value);
    if more.Some? && [ReadToken(s).token] + more.value == [t] + rest {
      assert ([t] + rest)[0] == t && ([t] + rest)[1..] == rest;
      assert ([ReadToken(s).token] + more.value)[1..] == more.value;
    }
  }

  /** A digit, a dot and a word are rendered side by side, and the digit takes the dot. */
  lemma NumberSwallowsDot(d: char, w: string)
    requires IsDigit(d) && Renderable(Word(w))
    ensures var ts := [Number([d]), Dot, Word(w)];
            AllRenderable(ts) && Lex(Tail(false, false, ts)) != Some(ts)
  {
    var ts := [Number([d]), Dot, Word(w)];
    OneDigit(d);
    PlainTail(false, false, ts);
  }

  lemma OneDigit(d: char)
    requires IsDigit(d)
    ensures Renderable(Number([d])) && !HasPoint([d])
  {
    assert [d][1..] == "";
    assert NumberLen([d], NothingSeen) == 1 + NumberLen("", NothingSeen);
  }
}
