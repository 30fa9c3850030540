/** The tokenizer as an object that advances a position through the input. Each
reader is specified by what `Lexer` says of the text from that position on.
*/
module Tokenizer {
  import opened Collections
  import opened Numerals
  import opened Lexer

  // --- Loops over the input ---------------------------------------------------------

  method LineEnd(s: string, from: nat) returns (p: nat)
    requires from <= |s|
    ensures from <= p <= |s| && s[p..] == SkipLine(s[from..])
  {
    p := from;
    while p < |s| && s[p] != '\n'
      invariant from <= p <= |s| && SkipLine(s[p..]) == SkipLine(s[from..])
    {
      SuffixNext(s, p);
      p := p + 1;
    }
    Stopped(s, p);
  }

  /** Where the text stands at a position. */
  lemma Stopped(s: string, p: nat)
    requires p <= |s|
    ensures p == |s| ==> s[p..] == ""
    ensures p < |s| ==> s[p..] != "" && s[p..][0] == s[p] && s[p..][1..] == s[p + 1..]
    ensures p + 1 < |s| ==> s[p + 1..] != "" && s[p + 1..][0] == s[p + 1] && s[p..][2..] == s[p + 2..]
    ensures p + 1 == |s| ==> s[p + 1..] == ""
  {
  }

  /** The end of a block comment after its opening; comments nest. */
  method BlockEnd(s: string, from: nat) returns (p: nat)
    requires from <= |s|
    ensures from <= p <= |s| && s[p..] == SkipBlock(s[from..], 1)
  {
    p := from;
    var depth := 1;
    while depth > 0 && p < |s|
      invariant from <= p <= |s| && depth >= 0 && SkipBlock(s[p..], depth) == SkipBlock(s[from..], 1)
      decreases |s| - p
    {
      Stopped(s, p);
      if s[p] == '/' && p + 1 < |s| && s[p + 1] == '*' {
        p, depth := p + 2, depth + 1;
      } else if s[p] == '*' && p + 1 < |s| && s[p + 1] == '/' {
        p, depth := p + 2, depth - 1;
      } else {
        p := p + 1;
      }
    }
    Stopped(s, p);
  }

  lemma SkipStep(s: string, p: nat)
    requires p < |s|
    ensures IsSpace(s[p]) ==> Skip(s[p..]) == Skip(s[p + 1..])
    ensures p + 1 < |s| && s[p] == '-' && s[p + 1] == '-' ==> Skip(s[p..]) == Skip(SkipLine(s[p + 2..]))
    ensures p + 1 < |s| && s[p] == '/' && s[p + 1] == '*' ==> Skip(s[p..]) == Skip(SkipBlock(s[p + 2..], 1))
    ensures !IsSpace(s[p]) && !(p + 1 < |s| && [s[p], s[p + 1]] in ["--", "/*"]) ==> Skip(s[p..]) == s[p..]
  {
    Stopped(s, p);
  }

  method SkipEnd(s: string, from: nat) returns (p: nat)
    requires from <= |s|
    ensures from <= p <= |s| && s[p..] == Skip(s[from..])
  {
    p := from;
    while p < |s|
      invariant from <= p <= |s| && Skip(s[p..]) == Skip(s[from..])
      decreases |s| - p
    {
      SkipStep(s, p);
      if IsSpace(s[p]) {
        p := p + 1;
      } else if s[p] == '-' && p + 1 < |s| && s[p + 1] == '-' {
        p := LineEnd(s, p + 2);
      } else if s[p] == '/' && p + 1 < |s| && s[p + 1] == '*' {
        p := BlockEnd(s, p + 2);
      } else {
        return;
      }
    }
    Stopped(s, p);
  }

  method WordEnd(s: string, from: nat) returns (p: nat)
    requires from <= |s|
    ensures p == from + WordLen(s[from..])
  {
    p := from;
    while p < |s| && IsWordChar(s[p])
      invariant from <= p <= |s| && WordLen(s[from..]) == p - from + WordLen(s[p..])
    {
      Stopped(s, p);
      p := p + 1;
    }
    Stopped(s, p);
  }

  method NumberEnd(s: string, from: nat) returns (p: nat)
    requires from <= |s|
    ensures p == from + NumberLen(s[from..], NothingSeen)
  {
    p := from;
    var seen := NothingSeen;
    while p < |s| && seen.Takes(s[p])
      invariant from <= p <= |s| && NumberLen(s[from..], NothingSeen) == p - from + NumberLen(s[p..], seen)
    {
      Stopped(s, p);
      seen := seen.After(s[p]);
      p := p + 1;
    }
    Stopped(s, p);
  }

  method DigitsEnd(s: string, from: nat) returns (p: nat)
    requires from <= |s|
    ensures p == from + DigitsLen(s[from..])
  {
    p := from;
    while p < |s| && IsDigit(s[p])
      invariant from <= p <= |s| && DigitsLen(s[from..]) == p - from + DigitsLen(s[p..])
    {
      Stopped(s, p);
      p := p + 1;
    }
    Stopped(s, p);
  }

  /** The length of a dollar tag after its first dollar, or zero. */
  method TagLength(s: string, from: nat) returns (n: nat)
    requires from <= |s|
    ensures n == DollarTag(s[from..], 1)
  {
    var i := 0;
    while from + i < |s|
      invariant from + i <= |s|
      invariant DollarTag(s[from..], 1) ==
                var more := DollarTag(s[from + i..], i + 1); if more == 0 then 0 else i + more
    {
      Stopped(s, from + i);
      var c := s[from + i];
      if c == '$' {
        return i + 1;
      }
      if !(StartsWord(c) || (i > 0 && IsDigit(c))) {
        return 0;
      }
      i := i + 1;
    }
    Stopped(s, from + i);
    return 0;
  }

  /** A literal being read: what is still to come goes after what is there. */
  function Prepend(out: string, q: Quoted): Quoted {
    if q.Closed? then Closed(out + q.value, q.rest) else q
  }

  lemma PrependPush(out: string, c: char, q: Quoted)
    ensures Prepend(out, q.Push(c)) == Prepend(out + [c], q)
  {
    if q.Closed? {
      assert out + ([c] + q.value) == (out + [c]) + q.value;
    }
  }

  /** What was read and what is read from `p` on make up the whole. */
  ghost predicate QuotedFrom(s: string, p: nat, q: char, out: string, all: Quoted)
    requires p <= |s|
  {
    Prepend(out, ReadQuoted(s[p..], q)) == all
  }

  lemma QuotedNext(s: string, p: nat, q: char, out: string, all: Quoted)
    requires p < |s| && QuotedFrom(s, p, q, out, all)
    ensures s[p] != q ==> QuotedFrom(s, p + 1, q, out + [s[p]], all)
    ensures s[p] == q ==>
              if p + 1 < |s| && s[p + 1] == q then QuotedFrom(s, p + 2, q, out + [q], all)
              else all == Closed(out, s[p + 1..])
  {
    Stopped(s, p);
    if s[p] != q {
      PrependPush(out, s[p], ReadQuoted(s[p + 1..], q));
    } else if p + 1 < |s| && s[p + 1] == q {
      PrependPush(out, q, ReadQuoted(s[p + 2..], q));
    } else {
      assert out + "" == out;
    }
  }

  /** `read_string` and `read_quoted_ident` after the opening quote. */
  method QuotedEnd(s: string, from: nat, q: char) returns (value: Option<string>, p: nat)
    requires from <= |s|
    ensures from <= p <= |s|
    ensures value.Some? ==> ReadQuoted(s[from..], q) == Closed(value.value, s[p..])
    ensures value.None? ==> ReadQuoted(s[from..], q).Unterminated?
  {
    p := from;
    var out := "";
    ghost var all := ReadQuoted(s[from..], q);
    assert QuotedFrom(s, p, q, out, all) by { assert all.Closed? ==> "" + all.value == all.value; }
    while p < |s|
      invariant from <= p <= |s| && QuotedFrom(s, p, q, out, all)
      decreases |s| - p
    {
      QuotedNext(s, p, q, out, all);
      if s[p] != q {
        out, p := out + [s[p]], p + 1;
      } else if p + 1 < |s| && s[p + 1] == q {
        out, p := out + [q], p + 2;
      } else {
        return Some(out), p + 1;
      }
    }
    Stopped(s, p);
    return None, p;
  }

  /** One character of an escape string, its closing quote, or nothing at a lone
      backslash. */
  method EscapedUnit(s: string, p: nat) returns (closed: bool, c: Option<char>, next: nat)
    requires p < |s|
    ensures p < next <= |s|
    ensures closed ==> ReadEscaped(s[p..]) == Closed("", s[next..])
    ensures !closed && c.Some? ==> ReadEscaped(s[p..]) == ReadEscaped(s[next..]).Push(c.value)
    ensures !closed && c.None? ==> ReadEscaped(s[p..]).Unterminated?
  {
    Stopped(s, p);
    if s[p] == '\'' {
      if p + 1 < |s| && s[p + 1] == '\'' {
        return false, Some('\''), p + 2;
      }
      return true, None, p + 1;
    }
    if s[p] == '\\' {
      if p + 1 == |s| {
        return false, None, p + 1;
      }
      assert s[p..][1] == s[p + 1];
      return false, Some(Unescape(s[p + 1])), p + 2;
    }
    return false, Some(s[p]), p + 1;
  }

  /** `read_escape_string` after the opening quote. */
  method EscapedEnd(s: string, from: nat) returns (value: Option<string>, p: nat)
    requires from <= |s|
    ensures from <= p <= |s|
    ensures value.Some? ==> ReadEscaped(s[from..]) == Closed(value.value, s[p..])
    ensures value.None? ==> ReadEscaped(s[from..]).Unterminated?
  {
    p := from;
    var out := "";
    ghost var all := ReadEscaped(s[from..]);
    assert all.Closed? ==> "" + all.value == all.value;
    while p < |s|
      invariant from <= p <= |s| && Prepend(out, ReadEscaped(s[p..])) == all
      decreases |s| - p
    {
      var closed, c, next := EscapedUnit(s, p);
      if closed {
        return Some(out), next;
      }
      if c.None? {
        return None, next;
      }
      PrependPush(out, c.value, ReadEscaped(s[next..]));
      out, p := out + [c.value], next;
    }
    Stopped(s, p);
    return None, p;
  }

  /** What was passed and what is read from `p` on make up the whole. */
  ghost predicate DollarFrom(s: string, from: nat, p: nat, delimiter: string)
    requires from <= p <= |s| && delimiter != ""
  {
    Prepend(s[from..p], ReadDollar(s[p..], delimiter)) == ReadDollar(s[from..], delimiter)
  }

  lemma DollarStart(s: string, from: nat, delimiter: string)
    requires from <= |s| && delimiter != ""
    ensures DollarFrom(s, from, from, delimiter)
  {
    var r := ReadDollar(s[from..], delimiter);
    assert s[from..from] == "" && (r.Closed? ==> "" + r.value == r.value);
  }

  lemma DollarNext(s: string, from: nat, p: nat, delimiter: string)
    requires from <= p && delimiter != "" && p + |delimiter| <= |s|
    requires !(delimiter <= s[p..]) && DollarFrom(s, from, p, delimiter)
    ensures DollarFrom(s, from, p + 1, delimiter)
  {
    SuffixNext(s, p);
    SliceNext(s, from, p);
    PrependPush(s[from..p], s[p], ReadDollar(s[p + 1..], delimiter));
  }

  lemma DollarFound(s: string, from: nat, p: nat, delimiter: string)
    requires from <= p && delimiter != "" && p + |delimiter| <= |s|
    requires delimiter <= s[p..] && DollarFrom(s, from, p, delimiter)
    ensures ReadDollar(s[from..], delimiter) == Closed(s[from..p], s[p + |delimiter|..])
  {
    SuffixDrop(s, p, |delimiter|);
    assert s[from..p] + "" == s[from..p];
  }

  /** `read_dollar_string` after the opening delimiter. */
  method DollarEnd(s: string, from: nat, delimiter: string) returns (value: Option<string>, p: nat)
    requires from <= |s| && delimiter != ""
    ensures from <= p <= |s|
    ensures value.Some? ==> ReadDollar(s[from..], delimiter) == Closed(value.value, s[p..])
    ensures value.None? ==> ReadDollar(s[from..], delimiter).Unterminated?
  {
    p := from;
    DollarStart(s, from, delimiter);
    while p + |delimiter| <= |s|
      invariant from <= p <= |s| && DollarFrom(s, from, p, delimiter)
    {
      if delimiter <= s[p..] {
        DollarFound(s, from, p, delimiter);
        return Some(s[from..p]), p + |delimiter|;
      }
      DollarNext(s, from, p, delimiter);
      p := p + 1;
    }
    return None, p;
  }

  method ParamEnd(s: string, from: nat) returns (r: Lexeme, p: nat)
    requires from <= |s| && DollarTag(s[from..], 1) == 0
    ensures r == DollarToken(s[from..]) && from <= p <= |s| && (r.Tok? ==> r.rest == s[p..])
  {
    p := DigitsEnd(s, from);
    SuffixDrop(s, from, p - from);
    r := if p == from then Bad else Tok(Param(ParamOf(s[from..p])), s[p..]);
  }

  /** After a dollar sign: a dollar-quoted string or a parameter. */
  method DollarEndToken(s: string, from: nat) returns (r: Lexeme, p: nat)
    requires from <= |s|
    ensures r == DollarToken(s[from..]) && from <= p <= |s| && (r.Tok? ==> r.rest == s[p..])
  {
    var n := TagLength(s, from);
    if n == 0 {
      r, p := ParamEnd(s, from);
      return;
    }
    SuffixDrop(s, from, n);
    var value;
    value, p := DollarEnd(s, from + n, "$" + s[from..from + n]);
    r := if value.None? then Bad else Tok(StringLit(value.value), s[p..]);
  }

  // --- The object ------------------------------------------------------------------------

  class Tokenizer {
    const input: string
    var pos: nat

    constructor (text: string)
      ensures input == text && pos == 0
    {
      input, pos := text, 0;
    }

    /** The position is after the lexeme. */
    ghost predicate After(r: Lexeme)
      reads this
    {
      pos <= |input| && (r.Tok? ==> r.rest == input[pos..])
    }

    method ReadWord() returns (r: Lexeme)
      requires pos < |input| && StartsWord(input[pos])
      modifies this`pos
      ensures After(r) && r == WordToken(old(input[pos..]))
    {
      var p := WordEnd(input, pos);
      SuffixDrop(input, pos, p - pos);
      r := Tok(Word(input[pos..p]), input[p..]);
      pos := p;
    }

    method ReadNumber() returns (r: Lexeme)
      requires pos < |input| && StartsNumber(input[pos..])
      modifies this`pos
      ensures After(r) && r == NumberToken(old(input[pos..]))
    {
      var p := NumberEnd(input, pos);
      SuffixDrop(input, pos, p - pos);
      r := Tok(Number(input[pos..p]), input[p..]);
      pos := p;
    }

    /** A string literal after its opening quote, with backslash escapes or without. */
    method ReadString(from: nat, escapes: bool) returns (r: Lexeme)
      requires pos <= from <= |input|
      modifies this`pos
      ensures After(r)
      ensures r == StringLexeme(if escapes then ReadEscaped(input[from..]) else ReadQuoted(input[from..], '\''))
    {
      var value, p;
      if escapes {
        value, p := EscapedEnd(input, from);
      } else {
        value, p := QuotedEnd(input, from, '\'');
      }
      if value.None? {
        return Bad;
      }
      r := Tok(StringLit(value.value), input[p..]);
      pos := p;
    }

    method ReadQuotedIdent() returns (r: Lexeme)
      requires pos < |input|
      modifies this`pos
      ensures After(r) && r == IdentToken(ReadQuoted(old(input[pos + 1..]), '"'))
    {
      var value, p := QuotedEnd(input, pos + 1, '"');
      if value.None? {
        return Bad;
      }
      r := Tok(QuotedIdent(value.value), input[p..]);
      pos := p;
    }

    method ReadDollarSign() returns (r: Lexeme)
      requires pos < |input|
      modifies this`pos
      ensures After(r) && r == DollarToken(old(input[pos + 1..]))
    {
      r, pos := DollarEndToken(input, pos + 1);
    }

    /** Operators and punctuation. */
    method ReadSymbol() returns (r: Lexeme)
      requires pos < |input|
      modifies this`pos
      ensures After(r) && r == ReadOperator(old(input[pos..]))
    {
      r := ReadOperator(input[pos..]);
      if r.Tok? {
        OperatorRest(input, pos);
        pos := |input| - |r.rest|;
      }
    }

    /** The token at the position. */
    method ReadHere() returns (r: Lexeme)
      requires pos < |input|
      modifies this`pos
      ensures After(r) && r == ReadToken(old(input[pos..]))
    {
      Stopped(input, pos);
      var c := input[pos];
      if (c == 'E' || c == 'e') && pos + 1 < |input| && input[pos + 1] == '\'' {
        r := ReadString(pos + 2, true);
      } else if StartsWord(c) {
        r := ReadWord();
      } else if StartsNumber(input[pos..]) {
        r := ReadNumber();
      } else if c == '"' {
        r := ReadQuotedIdent();
      } else if c == '\'' {
        r := ReadString(pos + 1, false);
      } else if c == '$' {
        r := ReadDollarSign();
      } else {
        r := ReadSymbol();
      }
    }

    /** `next_token`. */
    method NextToken() returns (r: Lexeme)
      requires pos <= |input|
      modifies this`pos
      ensures After(r) && r == Lexer.NextToken(old(input[pos..]))
    {
      pos := SkipEnd(input, pos);
      if pos == |input| {
        return End;
      }
      r := ReadHere();
    }

    /** `tokenize`. */
    method Tokenize() returns (out: Option<seq<Token>>)
      requires pos == 0
      modifies this`pos
      ensures out == Lex(input)
    {
      var ts: seq<Token> := [];
      assert input[0..] == input;
      assert Lex(input).Some? ==> [] + Lex(input).value == Lex(input).value;
      while true
        invariant pos <= |input| && Follow(ts, Lex(input[pos..])) == Lex(input)
        decreases |input| - pos
      {
        ghost var rest := input[pos..];
        var r := NextToken();
        if r.End? {
          assert ts + [] == ts;
          return Some(ts);
        }
        if r.Bad? {
          return None;
        }
        FollowOne(ts, rest);
        ts := ts + [r.token];
      }
    }
  }

  /** Tokens read so far, then the rest. */
  function Follow(ts: seq<Token>, more: Option<seq<Token>>): Option<seq<Token>> {
    if more.Some? then Some(ts + more.value) else None
  }

  lemma FollowOne(ts: seq<Token>, rest: string)
    requires Lexer.NextToken(rest).Tok?
    ensures var r := Lexer.NextToken(rest); Follow(ts, Lex(rest)) == Follow(ts + [r.token], Lex(r.rest))
  {
    var r := Lexer.NextToken(rest);
    var more := Lex(r.rest);
    if more.Some? {
      assert ts + ([r.token] + more.value) == (ts + [r.token]) + more.value;
    }
  }

  lemma OperatorRest(s: string, p: nat)
    requires p < |s| && ReadOperator(s[p..]).Tok?
    ensures var rest := ReadOperator(s[p..]).rest; |rest| <= |s| && rest == s[|s| - |rest|..]
  {
    SuffixDrop(s, p, 1);
    if p + 2 <= |s| {
      SuffixDrop(s, p, 2);
    }
    if p + 3 <= |s| {
      SuffixDrop(s, p, 3);
    }
  }
}
