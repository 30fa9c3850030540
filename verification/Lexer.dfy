/** The SQL tokenizer, as functions of the text still to be read. */
module Lexer {
  import opened Collections
  import opened Numerals

  datatype Operator =
    | LBracket | RBracket | Star | Plus | Minus
    | Arrow | ArrowText | ArrayContains | TextSearchMatch | ArrayContainedBy | ArrayOverlap
    | NetworkContainedBy | NetworkContainedByEq | NetworkContains | NetworkContainsEq
    | Slash | Percent | Eq | NotEq | Lt | LtEq | Gt | GtEq | Concat | DoubleColon
    | Match | MatchCi | NotMatch | NotMatchCi

  datatype Token =
    | Word(text: string)
    | QuotedIdent(name: string)
    | StringLit(value: string)
    | Number(digits: string)
    | Param(n: nat)
    | Comma | Semicolon | LParen | RParen | Dot
    | Op(op: Operator)

  // --- Characters ----------------------------------------------------------------

  predicate IsAlpha(c: char) {
    'a' <= c <= 'z' || 'A' <= c <= 'Z'
  }

  predicate IsSpace(c: char) {
    c == ' ' || c == '\t' || c == '\n' || c == '\r' || c as int == 12
  }

  predicate StartsWord(c: char) {
    c == '_' || IsAlpha(c)
  }

  predicate IsWordChar(c: char) {
    c == '_' || c == '$' || IsAlpha(c) || IsDigit(c)
  }

  /** The text starts with this character. */
  predicate At(s: string, c: char) {
    s != "" && s[0] == c
  }

  predicate DigitAt(s: string) {
    s != "" && IsDigit(s[0])
  }

  // --- White space and comments ----------------------------------------------------

  function SkipLine(s: string): (r: string)
    ensures |r| <= |s|
  {
    if s == "" || s[0] == '\n' then s else SkipLine(s[1..])
  }

  /** Past the end of a nested block comment, or to the end of the text. */
  function SkipBlock(s: string, depth: nat): (r: string)
    ensures |r| <= |s|
    decreases |s|
  {
    if depth == 0 || s == "" then s
    else if s[0] == '/' && At(s[1..], '*') then SkipBlock(s[2..], depth + 1)
    else if s[0] == '*' && At(s[1..], '/') then SkipBlock(s[2..], depth - 1)
    else SkipBlock(s[1..], depth)
  }

  function Skip(s: string): (r: string)
    ensures |r| <= |s|
    decreases |s|
  {
    if s == "" then s
    else if IsSpace(s[0]) then Skip(s[1..])
    else if s[0] == '-' && At(s[1..], '-') then Skip(SkipLine(s[2..]))
    else if s[0] == '/' && At(s[1..], '*') then Skip(SkipBlock(s[2..], 1))
    else s
  }

  // --- Words, numbers, parameters -----------------------------------------------------

  function WordLen(s: string): (n: nat)
    ensures n <= |s|
  {
    if s == "" || !IsWordChar(s[0]) then 0 else 1 + WordLen(s[1..])
  }

  /** How much of a number has been seen: a dot, an exponent, and just now its `e`. */
  datatype Seen = Seen(dot: bool, exp: bool, sign: bool) {
    predicate Takes(c: char) {
      || IsDigit(c)
      || (sign && (c == '+' || c == '-'))
      || (c == '.' && !dot && !exp)
      || ((c == 'e' || c == 'E') && !exp)
    }

    function After(c: char): Seen {
      if c == '.' then Seen(true, exp, false)
      else if c == 'e' || c == 'E' then Seen(dot, true, true)
      else Seen(dot, exp, false)
    }
  }

  const NothingSeen := Seen(false, false, false)

  function NumberLen(s: string, seen: Seen): (n: nat)
    ensures n <= |s|
    decreases |s|
  {
    if s == "" || !seen.Takes(s[0]) then 0 else 1 + NumberLen(s[1..], seen.After(s[0]))
  }

  predicate StartsNumber(s: string) {
    DigitAt(s) || (At(s, '.') && DigitAt(s[1..]))
  }

  function DigitsLen(s: string): (n: nat)
    ensures n <= |s|
  {
    if !DigitAt(s) then 0 else 1 + DigitsLen(s[1..])
  }

  const MaxParam: nat := 0xFFFF_FFFF

  /** The parameter number, or zero when it does not fit. */
  function ParamOf(digits: string): (n: nat)
    ensures n <= MaxParam
  {
    match ParseDigits(digits)
    case Some(n) => if n <= MaxParam then n else 0
    case None => 0
  }

  // --- Quoted text ------------------------------------------------------------------------

  datatype Quoted = Unterminated | Closed(value: string, rest: string) {
    function Push(c: char): Quoted {
      if Closed? then Closed([c] + value, rest) else this
    }
  }

  /** After the opening quote `q`: a doubled quote stands for itself. */
  function ReadQuoted(s: string, q: char): (r: Quoted)
    ensures r.Closed? ==> |r.rest| < |s|
    decreases |s|
  {
    if s == "" then Unterminated
    else if s[0] != q then ReadQuoted(s[1..], q).Push(s[0])
    else if At(s[1..], q) then ReadQuoted(s[2..], q).Push(q)
    else Closed("", s[1..])
  }

  function Unescape(c: char): char {
    if c == 'n' then '\n' else if c == 't' then '\t' else if c == 'r' then '\r'
    else if c == 'b' then 8 as char else if c == 'f' then 12 as char else c
  }

  /** After `E'`: backslash escapes as well. */
  function ReadEscaped(s: string): (r: Quoted)
    ensures r.Closed? ==> |r.rest| < |s|
    decreases |s|
  {
    if s == "" then Unterminated
    else if s[0] == '\'' then
      if At(s[1..], '\'') then ReadEscaped(s[2..]).Push('\'') else Closed("", s[1..])
    else if s[0] == '\\' then
      if s[1..] == "" then Unterminated else ReadEscaped(s[2..]).Push(Unescape(s[1]))
    else ReadEscaped(s[1..]).Push(s[0])
  }

  /** The length of `$tag$` at the start, or zero; `i` characters are behind. */
  function DollarTag(s: string, i: nat): (n: nat)
    ensures n <= |s|
    decreases |s|
  {
    if s == "" then 0
    else if s[0] == '$' then 1
    else if StartsWord(s[0]) || (i > 1 && IsDigit(s[0])) then
      var n := DollarTag(s[1..], i + 1);
      if n == 0 then 0 else n + 1
    else 0
  }

  /** The text up to the next occurrence of the delimiter. */
  function ReadDollar(s: string, delimiter: string): (r: Quoted)
    requires delimiter != ""
    ensures r.Closed? ==> |r.rest| < |s|
    decreases |s|
  {
    if |s| < |delimiter| then Unterminated
    else if delimiter <= s then Closed("", s[|delimiter|..])
    else ReadDollar(s[1..], delimiter).Push(s[0])
  }

  // --- Tokens -------------------------------------------------------------------------------

  datatype Lexeme = End | Bad | Tok(token: Token, rest: string)

  function StringLexeme(q: Quoted): Lexeme {
    if q.Closed? then Tok(StringLit(q.value), q.rest) else Bad
  }

  /** Operators and punctuation; the longest one that matches. */
  function ReadOperator(s: string): (r: Lexeme)
    requires s != ""
    ensures r.Tok? ==> |r.rest| < |s|
    ensures !r.End?
  {
    var r1 := s[1..];
    var two := if r1 == "" then '\0' else r1[0];
    var three := if |s| < 3 then '\0' else s[2];
    match s[0]
    case ',' => Tok(Comma, r1)
    case ';' => Tok(Semicolon, r1)
    case '(' => Tok(LParen, r1)
    case ')' => Tok(RParen, r1)
    case '[' => Tok(Op(LBracket), r1)
    case ']' => Tok(Op(RBracket), r1)
    case '*' => Tok(Op(Star), r1)
    case '+' => Tok(Op(Plus), r1)
    case '-' =>
      if two != '>' then Tok(Op(Minus), r1)
      else if three == '>' then Tok(Op(ArrowText), s[3..])
      else Tok(Op(Arrow), s[2..])
    case '/' => Tok(Op(Slash), r1)
    case '%' => Tok(Op(Percent), r1)
    case '.' => Tok(Dot, r1)
    case ':' => if two == ':' then Tok(Op(DoubleColon), s[2..]) else Bad
    case '=' => Tok(Op(Eq), r1)
    case '<' =>
      if two == '<' then
        if three == '=' then Tok(Op(NetworkContainedByEq), s[3..]) else Tok(Op(NetworkContainedBy), s[2..])
      else if two == '>' then Tok(Op(NotEq), s[2..])
      else if two == '@' then Tok(Op(ArrayContainedBy), s[2..])
      else if two == '=' then Tok(Op(LtEq), s[2..])
      else Tok(Op(Lt), r1)
    case '>' =>
      if two == '>' then if three == '=' then Tok(Op(NetworkContainsEq), s[3..]) else Tok(Op(NetworkContains), s[2..])
      else if two == '=' then Tok(Op(GtEq), s[2..])
      else Tok(Op(Gt), r1)
    case '!' =>
      if two == '=' then Tok(Op(NotEq), s[2..])
      else if two == '~' then if three == '*' then Tok(Op(NotMatchCi), s[3..]) else Tok(Op(NotMatch), s[2..])
      else Bad
    case '~' => if two == '*' then Tok(Op(MatchCi), s[2..]) else Tok(Op(Match), r1)
    case '@' =>
      if two == '@' then Tok(Op(TextSearchMatch), s[2..])
      else if two == '>' then Tok(Op(ArrayContains), s[2..])
      else Bad
    case '&' => if two == '&' then Tok(Op(ArrayOverlap), s[2..]) else Bad
    case '|' => if two == '|' then Tok(Op(Concat), s[2..]) else Bad
    case _ => Bad
  }

  function WordToken(s: string): (r: Lexeme)
    requires s != "" && StartsWord(s[0])
    ensures r.Tok? && |r.rest| < |s|
  {
    Tok(Word(s[..WordLen(s)]), s[WordLen(s)..])
  }

  function NumberToken(s: string): (r: Lexeme)
    requires StartsNumber(s)
    ensures r.Tok? && |r.rest| < |s|
  {
    var n := NumberLen(s, NothingSeen);
    Tok(Number(s[..n]), s[n..])
  }

  function IdentToken(q: Quoted): Lexeme {
    if q.Closed? then Tok(QuotedIdent(q.value), q.rest) else Bad
  }

  /** After a dollar sign: a dollar-quoted string or a parameter. */
  function DollarToken(s: string): (r: Lexeme)
    ensures r.Tok? ==> |r.rest| < |s|
    ensures !r.End?
  {
    var tag, n := DollarTag(s, 1), DigitsLen(s);
    if tag > 0 then StringLexeme(ReadDollar(s[tag..], "$" + s[..tag]))
    else if n > 0 then Tok(Param(ParamOf(s[..n])), s[n..])
    else Bad
  }

  /** The token at the start of a text that starts with one. */
  function ReadToken(s: string): (r: Lexeme)
    requires s != ""
    ensures r.Tok? ==> |r.rest| < |s|
    ensures !r.End?
  {
    var c := s[0];
    if (c == 'E' || c == 'e') && At(s[1..], '\'') then StringLexeme(ReadEscaped(s[2..]))
    else if StartsWord(c) then WordToken(s)
    else if StartsNumber(s) then NumberToken(s)
    else if c == '"' then IdentToken(ReadQuoted(s[1..], '"'))
    else if c == '\'' then StringLexeme(ReadQuoted(s[1..], '\''))
    else if c == '$' then DollarToken(s[1..])
    else ReadOperator(s)
  }

  function NextToken(s: string): (r: Lexeme)
    ensures r.Tok? ==> |r.rest| < |s|
  {
    var t := Skip(s);
    if t == "" then End else ReadToken(t)
  }

  /** `tokenize`; nothing on a malformed literal or an unknown character. */
  function Lex(s: string): Option<seq<Token>>
    decreases |s|
  {
    match NextToken(s)
    case End => Some([])
    case Bad => None
    case Tok(token, rest) =>
      match Lex(rest)
      case None => None
      case Some(more) => Some([token] + more)
  }
}
