/** When a rendered statement tail is lexed back to its own tokens.

A token takes at least as many characters to lex as to write, and a quoted identifier
takes two more. So a lexer that has fallen behind the tokens it should read never
catches up, and runs out of text.
*/
module Rereading {
  import opened Collections
  import opened Numerals
  import opened Lexer
  import opened Rendering

  // --- What a token takes to lex ----------------------------------------------------------

  /** The characters its shortest spelling takes, dollar quotes aside. */
  function Cost(t: Token): nat {
    |Text(t)| + if t.QuotedIdent? then 2 else 0
  }

  /** `rest` is what is left after `n` characters, of which the last is not a space. */
  ghost predicate Took(s: string, n: nat, rest: string) {
    1 <= n <= |s| && rest == s[n..] && s[n - 1] != ' '
  }

  /** The lexeme took at least its cost. */
  ghost predicate Fair(s: string, r: Lexeme) {
    r.Tok? && |r.rest| <= |s| && Took(s, |s| - |r.rest|, r.rest) && |s| - |r.rest| >= Cost(r.token)
  }

  lemma TookMore(s: string, pos: nat, n: nat, rest: string)
    requires pos <= |s| && Took(s[pos..], n, rest)
    ensures Took(s, pos + n, rest)
  {
    SuffixDrop(s, pos, n);
    assert s[pos..][n - 1] == s[pos + n - 1];
  }

  lemma EndsTwice(s: string, a: string, b: string)
    requires |b| <= |a| <= |s| && a == s[|s| - |a|..] && b == a[|a| - |b|..]
    ensures b == s[|s| - |b|..]
  {
    SuffixDrop(s, |s| - |a|, |a| - |b|);
  }

  lemma {:induction false} SkipLineEnds(s: string)
    ensures SkipLine(s) == s[|s| - |SkipLine(s)|..]
  {
    if s != "" && s[0] != '\n' {
      SkipLineEnds(s[1..]);
      EndsTwice(s, s[1..], SkipLine(s));
    }
  }

  lemma {:induction false} SkipBlockEnds(s: string, depth: nat)
    ensures SkipBlock(s, depth) == s[|s| - |SkipBlock(s, depth)|..]
    decreases |s|
  {
    var r := SkipBlock(s, depth);
    if depth == 0 || s == "" {
      assert r == s[0..];
    } else {
      var opens, closes := s[0] == '/' && At(s[1..], '*'), s[0] == '*' && At(s[1..], '/');
      var n := if opens || closes then 2 else 1;
      var depth' := if opens then depth + 1 else if closes then depth - 1 else depth;
      assert r == SkipBlock(s[n..], depth');
      SkipBlockEnds(s[n..], depth');
      EndsTwice(s, s[n..], r);
    }
  }

  lemma {:induction false} SkipEnds(s: string)
    ensures Skip(s) == s[|s| - |Skip(s)|..]
    decreases |s|
  {
    if s == "" {
    } else if IsSpace(s[0]) {
      SkipEnds(s[1..]);
      EndsTwice(s, s[1..], Skip(s));
    } else if s[0] == '-' && At(s[1..], '-') {
      var t := SkipLine(s[2..]);
      SkipLineEnds(s[2..]);
      EndsTwice(s, s[2..], t);
      SkipEnds(t);
      EndsTwice(s, t, Skip(s));
    } else if s[0] == '/' && At(s[1..], '*') {
      var t := SkipBlock(s[2..], 1);
      SkipBlockEnds(s[2..], 1);
      EndsTwice(s, s[2..], t);
      SkipEnds(t);
      EndsTwice(s, t, Skip(s));
    }
  }

  lemma {:induction false} WordLast(s: string)
    requires WordLen(s) > 0
    ensures s[WordLen(s) - 1] != ' '
  {
    if WordLen(s) > 1 {
      WordLast(s[1..]);
    }
  }

  lemma {:induction false} NumberLast(s: string, seen: Seen)
    requires NumberLen(s, seen) > 0
    ensures s[NumberLen(s, seen) - 1] != ' '
    decreases |s|
  {
    if NumberLen(s, seen) > 1 {
      NumberLast(s[1..], seen.After(s[0]));
    }
  }

  lemma {:induction false} DigitsLast(s: string)
    ensures AllDigits(s[..DigitsLen(s)])
  {
    if DigitAt(s) {
      DigitsLast(s[1..]);
      var n := DigitsLen(s);
      assert s[..n] == [s[0]] + s[1..][..n - 1];
    }
  }

  /** Between quotes, at least the value; for single quotes, at least the value doubled. */
  lemma {:induction false} QuotedTakes(s: string, q: char)
    requires ReadQuoted(s, q).Closed? && q != ' '
    ensures var r := ReadQuoted(s, q);
            Took(s, |s| - |r.rest|, r.rest)
            && |s| - |r.rest| >= 1 + if q == '\'' then |Doubled(r.value)| else |r.value|
    decreases |s|
  {
    var r := ReadQuoted(s, q);
    if s[0] != q {
      var r' := ReadQuoted(s[1..], q);
      QuotedTakes(s[1..], q);
      TookMore(s, 1, |s[1..]| - |r'.rest|, r'.rest);
      assert r.value[1..] == r'.value;
    } else if At(s[1..], q) {
      var r' := ReadQuoted(s[2..], q);
      QuotedTakes(s[2..], q);
      TookMore(s, 2, |s[2..]| - |r'.rest|, r'.rest);
      assert r.value[1..] == r'.value;
    }
  }

  lemma {:induction false} EscapedTakes(s: string)
    requires ReadEscaped(s).Closed?
    ensures var r := ReadEscaped(s);
            Took(s, |s| - |r.rest|, r.rest) && |s| - |r.rest| >= 1 + |Doubled(r.value)|
    decreases |s|
  {
    var r := ReadEscaped(s);
    if s[0] == '\'' && !At(s[1..], '\'') {
    } else {
      var n := if s[0] == '\'' || s[0] == '\\' then 2 else 1;
      var r' := ReadEscaped(s[n..]);
      EscapedTakes(s[n..]);
      TookMore(s, n, |s[n..]| - |r'.rest|, r'.rest);
      assert r.value[1..] == r'.value;
    }
  }

  lemma {:induction false} DigitsShort(d: string)
    requires d != "" && AllDigits(d)
    ensures |Digits(DigitsValue(d))| <= |d|
  {
    var init, last := d[..|d| - 1], DigitValue(d[|d| - 1]);
    var n := 10 * DigitsValue(init) + last;
    assert DigitsValue(d) == n;
    if n >= 10 {
      assert init != "";
      DigitsShort(init);
      assert n / 10 == DigitsValue(init);
    }
  }

  lemma ParamTakes(d: string)
    requires d != "" && AllDigits(d)
    ensures |Text(Param(ParamOf(d)))| <= 1 + |d|
  {
    DigitsShort(d);
    assert |Digits(0)| == 1;
  }

  predicate OneLong(o: Operator) {
    match o
    case LBracket | RBracket | Star | Plus | Minus | Slash | Percent | Eq | Lt | Gt | Match => true
    case _ => false
  }

  predicate ThreeLong(o: Operator) {
    o.ArrowText? || o.NetworkContainedByEq? || o.NetworkContainsEq? || o.NotMatchCi?
  }

  function SpanOf(o: Operator): nat {
    if OneLong(o) then 1 else if ThreeLong(o) then 3 else 2
  }

  lemma OpLength(o: Operator)
    ensures |OpText(o)| == SpanOf(o)
  {
  }

  lemma OperatorSpan(s: string)
    requires s != "" && ReadOperator(s).Tok?
    ensures var r := ReadOperator(s);
            if r.token.Op? then |s| - |r.rest| == SpanOf(r.token.op)
            else |s| - |r.rest| == 1 && r.token in {Comma, Semicolon, LParen, RParen, Dot}
  {
  }

  lemma OperatorLength(s: string)
    requires s != "" && ReadOperator(s).Tok?
    ensures var r := ReadOperator(s); |s| - |r.rest| == |Text(r.token)| && !r.token.QuotedIdent?
  {
    var r := ReadOperator(s);
    OperatorSpan(s);
    if r.token.Op? {
      OpLength(r.token.op);
    }
  }

  lemma OperatorLast(s: string)
    requires s != "" && ReadOperator(s).Tok?
    ensures var r := ReadOperator(s); Took(s, |s| - |r.rest|, r.rest)
  {
    assert |s| > 1 ==> s[1..][0] == s[1];
  }

  // --- Dollar quotes --------------------------------------------------------------------------

  predicate Occurs(d: string, s: string) {
    d <= s || (s != "" && Occurs(d, s[1..]))
  }

  predicate Unquoted(d: string) {
    forall i :: 0 <= i < |d| ==> d[i] != '\''
  }

  lemma {:induction false} TagUnquoted(s: string, i: nat)
    ensures Unquoted(s[..DollarTag(s, i)])
    ensures DollarTag(s, i) > 0 ==> s[DollarTag(s, i) - 1] == '$'
    decreases |s|
  {
    var n := DollarTag(s, i);
    if n > 1 {
      TagUnquoted(s[1..], i + 1);
      assert s[..n] == [s[0]] + s[1..][..n - 1];
    }
  }

  /** The value ends where its delimiter first occurs. */
  lemma {:induction false} DollarTakes(s: string, d: string)
    requires d != "" && ReadDollar(s, d).Closed?
    ensures var r := ReadDollar(s, d);
            s == r.value + d + r.rest && !Occurs(d, r.value)
    decreases |s|
  {
    var r := ReadDollar(s, d);
    if d <= s {
      assert s == d + s[|d|..];
    } else {
      var r' := ReadDollar(s[1..], d);
      DollarTakes(s[1..], d);
      assert r.value[1..] == r'.value;
      assert s == [s[0]] + (r'.value + d + r'.rest);
      assert s == r.value + d + r.rest;
      assert r.value <= s;
    }
  }

  lemma {:induction false} UnquotedPrefix(d: string, v: string)
    requires Unquoted(d) && d <= Doubled(v)
    ensures d <= v
  {
    if d != "" {
      assert d[0] == Doubled(v)[0];
      var w := Doubled(v[1..]);
      assert d[1..] <= w by {
        assert Doubled(v)[1..] == w;
      }
      UnquotedPrefix(d[1..], v[1..]);
      assert d == [v[0]] + d[1..] && v == [v[0]] + v[1..];
    }
  }

  /** Doubling quotes makes no new occurrence of an unquoted text. */
  lemma {:induction false} UnquotedOccurs(d: string, v: string, j: nat)
    requires d != "" && Unquoted(d) && j <= |Doubled(v)| && d <= Doubled(v)[j..]
    ensures Occurs(d, v)
    decreases |v|
  {
    if j == 0 {
      UnquotedPrefix(d, v);
    } else if v[0] == '\'' {
      assert d[0] == Doubled(v)[j];
      assert j >= 2;
      assert Doubled(v)[j..] == Doubled(v[1..])[j - 2..];
      UnquotedOccurs(d, v[1..], j - 2);
    } else {
      assert Doubled(v)[j..] == Doubled(v[1..])[j - 1..];
      UnquotedOccurs(d, v[1..], j - 1);
    }
  }

  predicate DollarQuoted(s: string) {
    At(s, '$') && DollarTag(s[1..], 1) > 0
  }

  /** The opening delimiter of a dollar-quoted text. */
  function Delimiter(s: string): (d: string)
    requires DollarQuoted(s)
    ensures |d| >= 2 && d <= s
  {
    s[..1 + DollarTag(s[1..], 1)]
  }

  lemma DollarParts(s: string)
    requires DollarQuoted(s) && ReadToken(s).Tok?
    ensures var d, r := Delimiter(s), ReadToken(s);
            && Unquoted(d) && d[|d| - 1] == '$'
            && r.token.StringLit? && !Occurs(d, r.token.value) && s == d + (r.token.value + d + r.rest)
  {
    var d, tag := Delimiter(s), DollarTag(s[1..], 1);
    TagUnquoted(s[1..], 1);
    assert d == "$" + s[1..][..tag] && s == d + s[1..][tag..];
    assert d[|d| - 1] == s[1..][tag - 1];
    DollarTakes(s[1..][tag..], d);
  }

  lemma DollarTook(s: string, d: string, v: string, rest: string)
    requires s == d + (v + d + rest) && |d| >= 2 && d[|d| - 1] == '$'
    ensures Took(s, |s| - |rest|, rest) && |s| - |rest| >= 2
  {
    var n := 2 * |d| + |v|;
    assert s[n..] == rest && s[n - 1] == d[|d| - 1];
  }

  lemma WordTakes(s: string)
    requires s != "" && StartsWord(s[0]) && !((s[0] == 'E' || s[0] == 'e') && At(s[1..], '\''))
    ensures Fair(s, ReadToken(s))
  {
    WordLast(s);
  }

  lemma NumberTakes(s: string)
    requires StartsNumber(s)
    ensures Fair(s, ReadToken(s))
  {
    NumberLast(s, NothingSeen);
  }

  lemma DollarTokenTakes(s: string)
    requires At(s, '$') && DollarTag(s[1..], 1) == 0 && ReadToken(s).Tok?
    ensures Fair(s, ReadToken(s))
  {
    var n := DigitsLen(s[1..]);
    DigitsLast(s[1..]);
    ParamTakes(s[1..][..n]);
    assert s[1..][n - 1] == s[1..][..n][n - 1];
    SuffixDrop(s, 1, n);
  }

  lemma IdentTakes(s: string)
    requires At(s, '"') && ReadToken(s).Tok?
    ensures Fair(s, ReadToken(s))
  {
    var q := ReadQuoted(s[1..], '"');
    QuotedTakes(s[1..], '"');
    TookMore(s, 1, |s[1..]| - |q.rest|, q.rest);
  }

  lemma StringTakes(s: string)
    requires At(s, '\'') && ReadToken(s).Tok?
    ensures Fair(s, ReadToken(s))
  {
    var q := ReadQuoted(s[1..], '\'');
    QuotedTakes(s[1..], '\'');
    TookMore(s, 1, |s[1..]| - |q.rest|, q.rest);
  }

  lemma EscapeTakes(s: string)
    requires s != "" && (s[0] == 'E' || s[0] == 'e') && At(s[1..], '\'') && ReadToken(s).Tok?
    ensures Fair(s, ReadToken(s))
  {
    var q := ReadEscaped(s[2..]);
    EscapedTakes(s[2..]);
    TookMore(s, 2, |s[2..]| - |q.rest|, q.rest);
  }

  lemma OperatorTakes(s: string)
    requires s != "" && !StartsWord(s[0]) && !StartsNumber(s) && s[0] !in "\"'$" && ReadToken(s).Tok?
    ensures Fair(s, ReadToken(s))
  {
    assert ReadToken(s) == ReadOperator(s);
    OperatorLength(s);
    OperatorLast(s);
  }

  /** Dollar quotes aside, a token takes at least its cost. */
  lemma ReadTakes(s: string)
    requires s != "" && ReadToken(s).Tok?
    ensures Took(s, |s| - |ReadToken(s).rest|, ReadToken(s).rest)
    ensures !DollarQuoted(s) ==> |s| - |ReadToken(s).rest| >= Cost(ReadToken(s).token)
  {
    if (s[0] == 'E' || s[0] == 'e') && At(s[1..], '\'') {
      EscapeTakes(s);
    } else if StartsWord(s[0]) {
      WordTakes(s);
    } else if StartsNumber(s) {
      NumberTakes(s);
    } else if s[0] == '"' {
      IdentTakes(s);
    } else if s[0] == '\'' {
      StringTakes(s);
    } else if DollarQuoted(s) {
      DollarParts(s);
      DollarTook(s, Delimiter(s), ReadToken(s).token.value, ReadToken(s).rest);
    } else if s[0] == '$' {
      DollarTokenTakes(s);
    } else {
      OperatorTakes(s);
    }
  }

  // --- Falling behind ------------------------------------------------------------------------

  ghost predicate Ends(s: string, r: string) {
    |r| <= |s| && r == s[|s| - |r|..]
  }

  lemma HasQuote(d: string, x: string, m: nat, q: nat)
    requires m <= q < |x| && x[q] == '\'' && d <= x[m..] && |d| > q - m
    ensures !Unquoted(d)
  {
    assert d[q - m] == x[m..][q - m];
  }

  lemma StopsAtQuote(d: string, x: string, m: nat, q: nat)
    requires m <= q < |x| && x[q] == '\'' && d <= x[m..] && Unquoted(d)
    ensures |d| <= q - m
  {
    if |d| > q - m {
      HasQuote(d, x, m, q);
    }
  }

  /** A delimiter found inside the doubled text occurs in the text. */
  lemma InsideDoubled(d: string, v: string, k: string, m: nat)
    requires |d| >= 2 && Unquoted(d) && d[0] == '$'
    requires m < 2 + |Doubled(v)| && d <= (Text(StringLit(v)) + k)[m..]
    ensures Occurs(d, v)
  {
    var w := Doubled(v);
    var x := "'" + w + "'" + k;
    assert x == Text(StringLit(v)) + k;
    assert x[m] == x[m..][0];
    assert x[0] == '\'' && x[|w| + 1] == '\'';
    StopsAtQuote(d, x, m, |w| + 1);
    assert x[m..][..|d|] == w[m - 1..][..|d|];
    UnquotedOccurs(d, v, m - 1);
  }

  /** So a dollar-quoted string starts only after its own rendering. */
  lemma DollarLate(v: string, k: string, z: string)
    requires Ends(Text(StringLit(v)) + k, z) && DollarQuoted(z)
    requires ReadToken(z).Tok? && ReadToken(z).token == StringLit(v)
    ensures |z| <= |k|
  {
    var x := Text(StringLit(v)) + k;
    DollarParts(z);
    if |z| > |k| {
      InsideDoubled(Delimiter(z), v, k, |x| - |z|);
    }
  }

  lemma Within(x: string, k: string, z: string, y: string)
    requires Ends(x, k) && Ends(x, z) && |y| <= |z| && Took(z, |z| - |y|, y) && |y| <= |k|
    ensures Ends(k, y) && (|y| < |k| ==> k[|k| - |y| - 1] != ' ')
  {
    EndsTwice(x, z, y);
    SuffixDrop(x, |x| - |k|, |k| - |y|);
    assert z[|z| - |y| - 1] == x[|x| - |y| - 1];
  }

  lemma AdvanceBy(x: string, k: string, y: string, z: string, rest: string, cost: nat)
    requires Ends(x, k) && Ends(x, y) && Ends(y, z) && |rest| < |z| && Took(z, |z| - |rest|, rest)
    requires |z| <= |k| || |z| - |rest| >= cost >= |x| - |k|
    ensures Ends(k, rest) && (|rest| < |k| ==> k[|k| - |rest| - 1] != ' ')
    ensures |y| < |x| || cost > |x| - |k| ==> |rest| < |k|
  {
    EndsTwice(x, y, z);
    Within(x, k, z, rest);
  }

  /** A token read within its own rendering takes its cost, or starts after it. */
  lemma TakesEnough(t: Token, k: string, z: string)
    requires Ends(Text(t) + k, z) && z != "" && ReadToken(z).Tok? && ReadToken(z).token == t
    ensures |z| <= |k| || |z| - |ReadToken(z).rest| >= Cost(t)
  {
    if DollarQuoted(z) {
      DollarParts(z);
      DollarLate(t.value, k, z);
    } else {
      ReadTakes(z);
    }
  }

  lemma ReadWithin(t: Token, k: string, z: string, rest: string)
    requires Ends(Text(t) + k, z) && z != "" && ReadToken(z) == Tok(t, rest)
    ensures |rest| < |z| && Took(z, |z| - |rest|, rest) && (|z| <= |k| || |z| - |rest| >= Cost(t))
  {
    ReadTakes(z);
    TakesEnough(t, k, z);
  }

  lemma NextIsRead(y: string)
    requires NextToken(y).Tok?
    ensures Skip(y) != "" && ReadToken(Skip(y)) == NextToken(y) && Ends(y, Skip(y))
  {
    SkipEnds(y);
  }

  /** Reading a token from within its own rendering and what follows leaves an end of what
      follows, and a proper end when it started late or the token is a quoted identifier. */
  lemma Advance(ts: seq<Token>, k: string, y: string) returns (rest: string)
    requires ts != [] && Ends(Text(ts[0]) + k, y) && ReadsAs(y, ts)
    ensures ReadsAs(rest, ts[1..]) && Ends(k, rest) && (|rest| < |k| ==> k[|k| - |rest| - 1] != ' ')
    ensures |y| < |Text(ts[0]) + k| || ts[0].QuotedIdent? ==> |rest| < |k|
  {
    LexParts(y, ts);
    NextIsRead(y);
    var x, z := Text(ts[0]) + k, Skip(y);
    rest := NextToken(y).rest;
    EndsTwice(x, y, z);
    ReadWithin(ts[0], k, z, rest);
    AdvanceBy(x, k, y, z, rest, Cost(ts[0]));
  }

  predicate HasQuoted(ts: seq<Token>) {
    exists i :: 0 <= i < |ts| && ts[i].QuotedIdent?
  }

  lemma QuotedLater(ts: seq<Token>)
    requires HasQuoted(ts) && !ts[0].QuotedIdent?
    ensures HasQuoted(ts[1..])
  {
    var i :| 0 <= i < |ts| && ts[i].QuotedIdent?;
    assert ts[1..][i - 1] == ts[i];
  }

  lemma LexParts(y: string, ts: seq<Token>)
    requires ReadsAs(y, ts) && ts != []
    ensures NextToken(y).Tok? && NextToken(y).token == ts[0] && ReadsAs(NextToken(y).rest, ts[1..])
  {
    var r := NextToken(y);
    assert ([r.token] + Lex(r.rest).value)[1..] == Lex(r.rest).value;
  }

  lemma LexGap(gap: string, s: string)
    requires gap == "" || gap == " "
    ensures Lex(gap + s) == Lex(s)
  {
    if gap == "" {
      assert gap + s == s;
    } else {
      assert (gap + s)[1..] == s;
      assert Skip(gap + s) == Skip(s);
    }
  }

  /** Behind the gap, too, the lexer is late. */
  lemma PastGap(gap: string, x: string, y: string)
    requires (gap == "" || gap == " ") && Ends(gap + x, y) && |y| < |gap + x|
    requires (gap + x)[|gap + x| - |y| - 1] != ' '
    ensures Ends(x, y) && |y| < |x|
  {
    if gap == "" {
      assert gap + x == x;
    } else {
      assert |y| != |x|;
      SuffixDrop(gap + x, 1, |x| - |y|);
      assert (gap + x)[1..] == x;
    }
  }

  /** What is left to read is a proper end of what the tokens write, or a quoted identifier
      is among them. */
  ghost predicate Behind(x: string, ts: seq<Token>, y: string) {
    Ends(x, y) && (|y| < |x| || HasQuoted(ts))
  }

  /** The same, and the last character read was not a space. */
  ghost predicate Late(k: string, ts: seq<Token>, y: string) {
    Ends(k, y) && if |y| < |k| then k[|k| - |y| - 1] != ' ' else HasQuoted(ts)
  }

  lemma LateOn(gap: string, x: string, ts: seq<Token>, y: string)
    requires (gap == "" || gap == " ") && Late(gap + x, ts, y)
    ensures Behind(x, ts, if |y| == |gap + x| then x else y) && (|y| == |gap + x| ==> Lex(y) == Lex(x))
  {
    if |y| == |gap + x| {
      LexGap(gap, x);
    } else {
      PastGap(gap, x, y);
    }
  }

  lemma ReadsOn(ts: seq<Token>, k: string, y: string) returns (rest: string)
    requires ts != [] && Behind(Text(ts[0]) + k, ts, y) && ReadsAs(y, ts)
    ensures ReadsAs(rest, ts[1..]) && Late(k, ts[1..], rest)
  {
    rest := Advance(ts, k, y);
    if |rest| == |k| {
      QuotedLater(ts);
    }
  }

  /** A lexer that is late, or that has a quoted identifier to come, does not read the tokens. */
  lemma {:induction false} Drifts(started: bool, ts: seq<Token>, y: string)
    requires ts != []
    requires Behind(Text(ts[0]) + Tail(started, Opens(ts[0]), ts[1..]), ts, y)
    ensures !ReadsAs(y, ts)
    decreases |ts|, 0
  {
    if ReadsAs(y, ts) {
      var rest := ReadsOn(ts, Tail(started, Opens(ts[0]), ts[1..]), y);
      DriftsOn(started, Opens(ts[0]), ts[1..], rest);
    }
  }

  lemma {:induction false} DriftsOn(started: bool, open: bool, ts: seq<Token>, y: string)
    requires Late(Tail(started, open, ts), ts, y)
    ensures !ReadsAs(y, ts)
    decreases |ts|, 1
  {
    if ts != [] {
      var gap, started' := Gap(started, open, ts[0]), started || Text(ts[0]) != "";
      var x := Text(ts[0]) + Tail(started', Opens(ts[0]), ts[1..]);
      TailStep(started, open, ts);
      assert Tail(started, open, ts) == gap + x;
      LateOn(gap, x, ts, y);
      Drifts(started', ts, if |y| == |gap + x| then x else y);
    }
  }

  // --- Exactly when -----------------------------------------------------------------------------

  predicate AllLexed(ts: seq<Token>) {
    forall i :: 0 <= i < |ts| ==> Lexed(ts[i])
  }

  /** One token is read back from its text exactly when it is not a quoted identifier. */
  lemma TokenBackExactly(t: Token, k: string)
    requires Lexed(t) && Follows(t, k)
    ensures NextToken(Text(t) + k) == Tok(t, k) <==> !t.QuotedIdent?
  {
    if t.QuotedIdent? {
      if NextToken(Text(t) + k) == Tok(t, k) {
        NextIsRead(Text(t) + k);
        ReadWithin(t, k, Skip(Text(t) + k), k);
      }
    } else {
      TokenBack(t, k);
      TextStarts(t);
    }
  }

  /** Lexing a rendered tail gives its tokens back exactly when no two neighbours merge and
      none is a quoted identifier. */
  lemma TailRoundTrip(started: bool, open: bool, ts: seq<Token>)
    requires AllLexed(ts)
    ensures ReadsAs(Tail(started, open, ts), ts) <==> NoneMerge(ts) && !HasQuoted(ts)
  {
    if HasQuoted(ts) {
      var k := Tail(started, open, ts);
      assert k[0..] == k;
      DriftsOn(started, open, ts, k);
    } else {
      PlainTail(started, open, ts);
    }
  }

  /** Any text: its tokens rendered and lexed again. */
  lemma LexRenderLex(sql: string, ts: seq<Token>)
    requires Lex(sql) == Some(ts)
    ensures Lex(Tail(false, false, ts)) == Some(ts) <==> NoneMerge(ts) && !HasQuoted(ts)
  {
    LexIsLexed(sql);
    TailRoundTrip(false, false, ts);
  }

  /** A lone quoted identifier loses its quotes. */
  lemma QuotesLost(name: string)
    ensures Tail(false, false, [QuotedIdent(name)]) == name && Lex(name) != Some([QuotedIdent(name)])
  {
    var ts := [QuotedIdent(name)];
    assert ts[0].QuotedIdent? && HasQuoted(ts);
    TailStep(false, false, ts);
    assert Tail(name != "", false, ts[1..]) == "";
    TailRoundTrip(false, false, ts);
  }
}
