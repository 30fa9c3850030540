/** The lexer from the outside: how blanks, comments and tokens are spelled, without
reference to how they are read, and that text put together from such spellings is
lexed into its tokens.
*/
module Spelling {
  import opened Collections
  import opened Numerals
  import opened Lexer
  import opened Rendering

  // --- Block comments ------------------------------------------------------------------

  /** What stands between `/*` and `*/`: text, with comments nested in it. */
  datatype Comment = Flat(text: string) | Nested(before: string, inner: Comment, after: Comment)

  function Body(c: Comment): string {
    match c
    case Flat(text) => text
    case Nested(before, inner, after) => before + ("/*" + (Body(inner) + ("*/" + Body(after))))
  }

  predicate Marks(a: char, b: char) {
    (a == '/' && b == '*') || (a == '*' && b == '/')
  }

  /** No comment opens or closes within the text. */
  ghost predicate Clear(s: string) {
    forall i :: 0 <= i && i + 1 < |s| ==> !Marks(s[i], s[i + 1])
  }

  /** Nor where the text meets the mark after it. */
  ghost predicate WellNested(c: Comment) {
    match c
    case Flat(text) => Clear(text) && (text != "" ==> text[|text| - 1] != '/')
    case Nested(before, inner, after) =>
      && Clear(before) && (before != "" ==> before[|before| - 1] != '*')
      && WellNested(inner) && WellNested(after)
  }

  /** The text is a comment up to its closing mark, then `rest`. */
  ghost predicate Closes(s: string, c: Comment, rest: string) {
    WellNested(c) && s == Body(c) + ("*/" + rest)
  }

  lemma {:induction false} ClearSkips(t: string, k: string, depth: nat)
    requires k != "" && depth > 0 && Clear(t) && (t != "" ==> !Marks(t[|t| - 1], k[0]))
    ensures SkipBlock(t + k, depth) == SkipBlock(k, depth)
    decreases |t|
  {
    var s := t + k;
    if t == "" {
      assert s == k;
    } else {
      assert s[1..] == t[1..] + k;
      assert s[1..][0] == if |t| > 1 then t[1] else k[0];
      assert Clear(t[1..]) by {
        assert forall i :: 0 <= i < |t[1..]| ==> t[1..][i] == t[i + 1];
      }
      ClearSkips(t[1..], k, depth);
    }
  }

  lemma MarkSkips(rest: string, depth: nat)
    requires depth > 0
    ensures SkipBlock("/*" + rest, depth) == SkipBlock(rest, depth + 1)
    ensures SkipBlock("*/" + rest, depth) == SkipBlock(rest, depth - 1)
  {
    var a, b := "/*" + rest, "*/" + rest;
    assert a[1..][0] == '*' && a[2..] == rest && b[1..][0] == '/' && b[2..] == rest;
  }

  lemma NestedRegroup(before: string, inner: string, after: string, rest: string)
    ensures before + ("/*" + (inner + ("*/" + after))) + ("*/" + rest) ==
            before + ("/*" + (inner + ("*/" + (after + ("*/" + rest)))))
  {
  }

  lemma {:induction false} BodySkips(c: Comment, rest: string, depth: nat)
    requires WellNested(c) && depth > 0
    ensures SkipBlock(Body(c) + ("*/" + rest), depth) == SkipBlock(rest, depth - 1)
    decreases c
  {
    match c
    case Flat(text) =>
      ClearSkips(text, "*/" + rest, depth);
      MarkSkips(rest, depth);
    case Nested(before, inner, after) =>
      var k2 := Body(after) + ("*/" + rest);
      var k1 := Body(inner) + ("*/" + k2);
      NestedRegroup(before, Body(inner), Body(after), rest);
      ClearSkips(before, "/*" + k1, depth);
      MarkSkips(k1, depth);
      BodySkips(inner, k2, depth + 1);
      BodySkips(after, rest, depth);
  }

  /** One more character in front of a comment. */
  function Longer(x: char, c: Comment): Comment {
    match c
    case Flat(text) => Flat([x] + text)
    case Nested(before, inner, after) => Nested([x] + before, inner, after)
  }

  lemma LongerCloses(x: char, s: string, c: Comment, rest: string)
    requires Closes(s, c, rest) && s != "" && !Marks(x, s[0])
    ensures Closes([x] + s, Longer(x, c), rest)
  {
    var front := if c.Flat? then c.text else c.before;
    assert front != "" ==> s[0] == front[0];
    assert Clear([x] + front) by {
      assert forall i :: 0 < i < |[x] + front| ==> ([x] + front)[i] == front[i - 1];
    }
    assert [x] + s == Body(Longer(x, c)) + ("*/" + rest) by {
      assert Body(Longer(x, c)) == [x] + Body(c);
    }
  }

  /** A text is a closed comment, or it is skipped to its end. */
  lemma {:induction false} ClosesOrEnds(s: string) returns (closed: bool, c: Comment, rest: string)
    ensures closed ==> Closes(s, c, rest)
    ensures !closed ==> forall depth: nat :: depth > 0 ==> SkipBlock(s, depth) == ""
    decreases |s|
  {
    closed, c, rest := false, Flat(""), "";
    if s == "" {
    } else if s[0] == '*' && At(s[1..], '/') {
      closed, rest := true, s[2..];
      assert s == "" + ("*/" + rest);
    } else if s[0] == '/' && At(s[1..], '*') {
      var inner, mid, after;
      closed, inner, mid := ClosesOrEnds(s[2..]);
      if closed {
        closed, after, rest := ClosesOrEnds(mid);
        if closed {
          c := Nested("", inner, after);
          assert s == "/*" + s[2..];
          NestedRegroup("", Body(inner), Body(after), rest);
          assert "" + ("/*" + s[2..]) == "/*" + s[2..];
        } else {
          forall depth: nat | depth > 0
            ensures SkipBlock(s, depth) == ""
          {
            BodySkips(inner, mid, depth + 1);
          }
        }
      }
    } else {
      closed, c, rest := ClosesOrEnds(s[1..]);
      if closed {
        LongerCloses(s[0], s[1..], c, rest);
        c := Longer(s[0], c);
        assert s == [s[0]] + s[1..];
      }
    }
  }

  /** A block comment ends where its nesting closes, or at the end of the text when it does
      not close. */
  lemma BlockExactly(s: string)
    ensures forall c, rest :: Closes(s, c, rest) ==> SkipBlock(s, 1) == rest
    ensures (forall c, rest :: !Closes(s, c, rest)) ==> SkipBlock(s, 1) == ""
  {
    forall c, rest | Closes(s, c, rest)
      ensures SkipBlock(s, 1) == rest
    {
      BodySkips(c, rest, 1);
    }
    var closed, c, rest := ClosesOrEnds(s);
  }

  // --- Blanks ----------------------------------------------------------------------------

  datatype Blank = Space(c: char) | Line(text: string) | Block(comment: Comment)

  ghost predicate IsBlank(b: Blank) {
    match b
    case Space(c) => c == ' ' || c == '\t' || c == '\n' || c == '\r' || c == 12 as char
    case Line(text) => '\n' !in text
    case Block(comment) => WellNested(comment)
  }

  function BlankText(b: Blank): string {
    match b
    case Space(c) => [c]
    case Line(text) => "--" + (text + "\n")
    case Block(comment) => "/*" + (Body(comment) + "*/")
  }

  lemma {:induction false} LineSkips(t: string, k: string)
    requires '\n' !in t && (k == "" || k[0] == '\n')
    ensures SkipLine(t + k) == k
  {
    if t == "" {
      assert t + k == k;
    } else {
      assert (t + k)[1..] == t[1..] + k;
      LineSkips(t[1..], k);
    }
  }

  lemma SpaceSkips(c: char, rest: string)
    requires IsSpace(c)
    ensures Skip([c] + rest) == Skip(rest)
  {
    assert ([c] + rest)[1..] == rest;
  }

  lemma LineCommentSkips(text: string, rest: string)
    requires '\n' !in text
    ensures Skip("--" + (text + ("\n" + rest))) == Skip(rest)
  {
    var k := "\n" + rest;
    var s := "--" + (text + k);
    assert s[1..][0] == '-' && s[2..] == text + k;
    LineSkips(text, k);
    SpaceSkips('\n', rest);
  }

  lemma BlockCommentSkips(comment: Comment, rest: string)
    requires WellNested(comment)
    ensures Skip("/*" + (Body(comment) + ("*/" + rest))) == Skip(rest)
  {
    var k := Body(comment) + ("*/" + rest);
    var s := "/*" + k;
    assert s[1..][0] == '*' && s[2..] == k;
    BodySkips(comment, rest, 1);
  }

  lemma MarkedRegroup(a: string, b: string, c: string, rest: string)
    ensures a + (b + c) + rest == a + (b + (c + rest))
  {
  }

  lemma BlankSkips(b: Blank, rest: string)
    requires IsBlank(b)
    ensures Skip(BlankText(b) + rest) == Skip(rest)
  {
    match b
    case Space(c) => SpaceSkips(c, rest);
    case Line(text) =>
      MarkedRegroup("--", text, "\n", rest);
      LineCommentSkips(text, rest);
    case Block(comment) =>
      MarkedRegroup("/*", Body(comment), "*/", rest);
      BlockCommentSkips(comment, rest);
  }

  function BlanksText(bs: seq<Blank>): string {
    if bs == [] then "" else BlankText(bs[0]) + BlanksText(bs[1..])
  }

  ghost predicate AllBlank(bs: seq<Blank>) {
    forall i :: 0 <= i < |bs| ==> IsBlank(bs[i])
  }

  /** Blanks before any text are skipped. */
  lemma {:induction false} BlanksSkip(bs: seq<Blank>, rest: string)
    requires AllBlank(bs)
    ensures Skip(BlanksText(bs) + rest) == Skip(rest)
    decreases |bs|
  {
    if bs == [] {
      assert "" + rest == rest;
    } else {
      var k := BlanksText(bs[1..]) + rest;
      assert BlanksText(bs) + rest == BlankText(bs[0]) + k;
      BlankSkips(bs[0], k);
      BlanksSkip(bs[1..], rest);
    }
  }

  /** A comment that does not end before the text does. */
  ghost predicate Unclosed(s: string) {
    || ("--" <= s && '\n' !in s)
    || ("/*" <= s && forall c, rest :: !Closes(s[2..], c, rest))
  }

  ghost predicate StartsBlank(s: string) {
    s != "" && (IsBlank(Space(s[0])) || "--" <= s || "/*" <= s)
  }

  lemma {:induction false} FirstLine(s: string) returns (t: string, k: string)
    ensures s == t + k && '\n' !in t && (k == "" || k[0] == '\n')
  {
    if s == "" || s[0] == '\n' {
      t, k := "", s;
    } else {
      t, k := FirstLine(s[1..]);
      assert s == [s[0]] + s[1..];
      t := [s[0]] + t;
    }
  }

  /** The blank a text starts with, if it is closed. */
  lemma FirstBlank(s: string) returns (b: Blank, rest: string)
    requires StartsBlank(s) && !Unclosed(s)
    ensures IsBlank(b) && s == BlankText(b) + rest && |rest| < |s|
  {
    if IsBlank(Space(s[0])) {
      b, rest := Space(s[0]), s[1..];
    } else if "--" <= s {
      var t, k := FirstLine(s[2..]);
      assert s == "--" + (t + k);
      assert '\n' in "--" + (t + k);
      b, rest := Line(t), k[1..];
      assert k == "\n" + rest;
    } else {
      var c, k :| Closes(s[2..], c, k);
      b, rest := Block(c), k;
      assert s == "/*" + s[2..];
    }
  }

  /** Exactly the blanks in front of a text are skipped: what is left starts with none, unless
      it is a comment that is not closed, which is skipped too. */
  lemma {:induction false} SkipExactly(s: string) returns (bs: seq<Blank>, rest: string)
    ensures AllBlank(bs) && s == BlanksText(bs) + rest
    ensures if Unclosed(rest) then Skip(s) == "" else !StartsBlank(rest) && Skip(s) == rest
    decreases |s|
  {
    if Unclosed(s) {
      bs, rest := [], s;
      assert "" + s == s;
      UnclosedSkips(s);
    } else if StartsBlank(s) {
      var b, k := FirstBlank(s);
      bs, rest := SkipExactly(k);
      BlankSkips(b, k);
      assert ([b] + bs)[1..] == bs;
      assert s == BlankText(b) + BlanksText(bs) + rest;
      bs := [b] + bs;
    } else {
      bs, rest := [], s;
      assert "" + s == s;
      assert |s| > 1 ==> s[1..][0] == s[1];
      assert s != "" && s[0] == '-' && At(s[1..], '-') ==> "--" <= s;
      assert s != "" && s[0] == '/' && At(s[1..], '*') ==> "/*" <= s;
    }
  }

  lemma UnclosedSkips(s: string)
    requires Unclosed(s)
    ensures Skip(s) == ""
  {
    assert s[1..][0] == s[1];
    if "--" <= s && '\n' !in s {
      LineSkips(s[2..], "");
      assert s[2..] + "" == s[2..];
    } else {
      BlockExactly(s[2..]);
    }
  }

  // --- Words and numbers -----------------------------------------------------------------

  predicate Letter(c: char) {
    'a' <= c <= 'z' || 'A' <= c <= 'Z' || c == '_'
  }

  predicate Figure(c: char) {
    '0' <= c <= '9'
  }

  lemma {:induction false} WordLenExactly(w: string)
    ensures WordLen(w) == |w| <==> forall i :: 0 <= i < |w| ==> Letter(w[i]) || Figure(w[i]) || w[i] == '$'
  {
    if w != "" {
      WordLenExactly(w[1..]);
      assert forall i :: 0 < i < |w| ==> w[i] == w[1..][i - 1];
      assert forall i :: 0 <= i < |w[1..]| ==> w[1..][i] == w[i + 1];
    }
  }

  /** A word is a letter or underscore, then letters, digits, underscores and dollar signs. */
  lemma WordExactly(w: string)
    ensures Lexed(Word(w)) <==>
            && w != "" && Letter(w[0])
            && forall i :: 0 <= i < |w| ==> Letter(w[i]) || Figure(w[i]) || w[i] == '$'
  {
    WordLenExactly(w);
  }

  /** Digits, then maybe a point and digits, then maybe an exponent. */
  datatype Shape = Shape(whole: string, fraction: Option<string>, exponent: Option<Exponent>)

  datatype Exponent = Exponent(mark: char, sign: string, power: string)

  predicate IsExponent(x: Exponent) {
    (x.mark == 'e' || x.mark == 'E') && (x.sign == "" || x.sign == "+" || x.sign == "-") && AllDigits(x.power)
  }

  predicate IsShape(n: Shape) {
    && AllDigits(n.whole) && (n.fraction.Some? ==> AllDigits(n.fraction.value))
    && (n.exponent.Some? ==> IsExponent(n.exponent.value))
    && (n.whole == "" ==> n.fraction.Some? && n.fraction.value != "")
  }

  function ExponentText(x: Option<Exponent>): string {
    if x.None? then "" else [x.value.mark] + (x.value.sign + x.value.power)
  }

  function FractionText(f: Option<string>): string {
    if f.None? then "" else "." + f.value
  }

  function ShapeText(n: Shape): string {
    n.whole + (FractionText(n.fraction) + ExponentText(n.exponent))
  }

  lemma {:induction false} DigitsTaken(d: string, k: string, seen: Seen)
    requires AllDigits(d)
    ensures NumberLen(d + k, seen) == |d| + NumberLen(k, if d == "" then seen else seen.(sign := false))
    decreases |d|
  {
    if d == "" {
      assert d + k == k;
    } else {
      assert (d + k)[1..] == d[1..] + k;
      DigitsTaken(d[1..], k, seen.(sign := false));
    }
  }

  lemma ExponentTaken(x: Option<Exponent>, dot: bool)
    requires x.Some? ==> IsExponent(x.value)
    ensures NumberLen(ExponentText(x), Seen(dot, false, false)) == |ExponentText(x)|
  {
    if x.Some? {
      var s, tail := ExponentText(x), x.value.sign + x.value.power;
      var after := Seen(dot, true, x.value.sign == "");
      assert s[1..] == tail;
      DigitsTaken(x.value.power, "", after);
      assert x.value.power + "" == x.value.power;
      if x.value.sign == "" {
        assert tail == x.value.power;
      } else {
        assert tail[1..] == x.value.power;
      }
    }
  }

  lemma NumberStep(c: char, rest: string, seen: Seen)
    requires seen.Takes(c)
    ensures NumberLen([c] + rest, seen) == 1 + NumberLen(rest, seen.After(c))
  {
    assert ([c] + rest)[1..] == rest;
  }

  lemma FractionTaken(f: string, e: string, seen: Seen, dotted: Seen)
    requires AllDigits(f) && !seen.dot && !seen.exp && dotted == seen.After('.') && NumberLen(e, dotted) == |e|
    ensures NumberLen(['.'] + (f + e), seen) == 1 + |f| + |e|
  {
    DigitsTaken(f, e, dotted);
    NumberStep('.', f + e, seen);
  }

  lemma PointTaken(fraction: Option<string>, x: Option<Exponent>, seen: Seen)
    requires (fraction.Some? ==> AllDigits(fraction.value)) && (x.Some? ==> IsExponent(x.value))
    requires seen == NothingSeen
    ensures var k := FractionText(fraction) + ExponentText(x); NumberLen(k, seen) == |k|
  {
    var e := ExponentText(x);
    ExponentTaken(x, fraction.Some?);
    if fraction.Some? {
      FractionTaken(fraction.value, e, seen, seen.After('.'));
      assert FractionText(fraction) + e == ['.'] + (fraction.value + e);
    } else {
      assert FractionText(fraction) + e == e;
    }
  }

  lemma ShapeLength(n: Shape, seen: Seen)
    requires IsShape(n) && seen == NothingSeen
    ensures NumberLen(ShapeText(n), seen) == |ShapeText(n)|
  {
    PointTaken(n.fraction, n.exponent, seen);
    DigitsTaken(n.whole, FractionText(n.fraction) + ExponentText(n.exponent), seen);
  }

  lemma ShapeStarts(n: Shape)
    requires IsShape(n)
    ensures StartsNumber(ShapeText(n))
  {
    var s := ShapeText(n);
    if n.whole == "" {
      assert s[1..][0] == n.fraction.value[0];
    } else {
      assert s[0] == n.whole[0];
    }
  }

  lemma ShapeTaken(n: Shape)
    requires IsShape(n)
    ensures Lexed(Number(ShapeText(n)))
  {
    ShapeLength(n, NothingSeen);
    ShapeStarts(n);
  }

  /** The digits in front. */
  lemma {:induction false} LeadingDigits(s: string) returns (d: string, k: string)
    ensures s == d + k && AllDigits(d) && !DigitAt(k)
  {
    if !DigitAt(s) {
      d, k := "", s;
    } else {
      d, k := LeadingDigits(s[1..]);
      assert s == [s[0]] + s[1..];
      d := [s[0]] + d;
    }
  }

  lemma ExponentShape(k: string, dot: bool) returns (x: Option<Exponent>)
    requires NumberLen(k, Seen(dot, false, false)) == |k| && !DigitAt(k) && (At(k, '.') ==> dot)
    ensures k == ExponentText(x) && (x.Some? ==> IsExponent(x.value))
  {
    if k == "" {
      x := None;
    } else {
      var tail := k[1..];
      var signed := At(tail, '+') || At(tail, '-');
      var power := if signed then tail[1..] else tail;
      var d, rest := LeadingDigits(power);
      DigitsTaken(d, rest, Seen(dot, true, !signed));
      assert rest == "";
      assert power == d && k == [k[0]] + tail;
      assert signed ==> tail == [tail[0]] + d;
      x := Some(Exponent(k[0], if signed then [tail[0]] else "", d));
    }
  }

  lemma PointShape(k: string, seen: Seen) returns (fraction: string, x: Option<Exponent>)
    requires At(k, '.') && seen == NothingSeen && NumberLen(k, seen) == |k|
    ensures k == FractionText(Some(fraction)) + ExponentText(x)
    ensures AllDigits(fraction) && (x.Some? ==> IsExponent(x.value)) && (fraction == "" ==> !DigitAt(k[1..]))
  {
    var tail := k[1..];
    assert k == ['.'] + tail;
    NumberStep('.', tail, seen);
    var e;
    fraction, e := LeadingDigits(tail);
    DigitsTaken(fraction, e, seen.(dot := true));
    x := ExponentShape(e, true);
    assert ['.'] + (fraction + e) == "." + fraction + e;
  }

  lemma NumberShape(s: string) returns (n: Shape)
    requires Lexed(Number(s))
    ensures IsShape(n) && s == ShapeText(n)
  {
    var whole, k := LeadingDigits(s);
    DigitsTaken(whole, k, NothingSeen);
    if whole == "" {
      assert s == k;
    }
    if At(k, '.') {
      var fraction, x := PointShape(k, NothingSeen);
      n := Shape(whole, Some(fraction), x);
    } else {
      var x := ExponentShape(k, false);
      n := Shape(whole, None, x);
      assert k == "" + k;
    }
  }

  /** A number is digits with at most one point, and at most one exponent after it; there is a
      digit in front of the point or right after it. */
  lemma NumberExactly(s: string)
    ensures Lexed(Number(s)) <==> exists n :: IsShape(n) && s == ShapeText(n)
  {
    if Lexed(Number(s)) {
      var n := NumberShape(s);
    }
    if n :| IsShape(n) && s == ShapeText(n) {
      ShapeTaken(n);
    }
  }

  // --- Quoted text ------------------------------------------------------------------------

  /** Every quote `q` twice. */
  function Twice(s: string, q: char): string {
    if s == "" then "" else (if s[0] == q then [q, q] else [s[0]]) + Twice(s[1..], q)
  }

  lemma QuotedStep(c: char, q: char, rest: string)
    ensures c != q ==> ReadQuoted([c] + rest, q) == ReadQuoted(rest, q).Push(c)
    ensures ReadQuoted([q, q] + rest, q) == ReadQuoted(rest, q).Push(q)
    ensures !At(rest, q) ==> ReadQuoted([q] + rest, q) == Closed("", rest)
  {
    assert ([c] + rest)[1..] == rest && ([q] + rest)[1..] == rest;
    var two := [q, q] + rest;
    assert two[1..][0] == q && two[2..] == rest;
  }

  lemma {:induction false} TwiceIsRead(s: string, q: char, k: string)
    requires !At(k, q)
    ensures ReadQuoted(Twice(s, q) + ([q] + k), q) == Closed(s, k)
  {
    if s == "" {
      assert "" + ([q] + k) == [q] + k;
      QuotedStep(q, q, k);
    } else {
      TwiceIsRead(s[1..], q, k);
      TwiceStep(s[0], s[1..], q, [q] + k);
      assert [s[0]] + s[1..] == s;
    }
  }

  lemma TwiceStep(c: char, s: string, q: char, k: string)
    ensures ReadQuoted(Twice([c] + s, q) + k, q) == ReadQuoted(Twice(s, q) + k, q).Push(c)
  {
    var rest := Twice(s, q) + k;
    assert ([c] + s)[1..] == s;
    QuotedStep(c, q, rest);
    if c == q {
      assert Twice([c] + s, q) + k == [q, q] + rest;
    } else {
      assert Twice([c] + s, q) + k == [c] + rest;
    }
  }

  /** The escape of a character: a letter for five control characters, and a backslash before
      a backslash or a quote. */
  function EscapeOf(c: char): string {
    if c == '\n' then "\\n" else if c == '\t' then "\\t" else if c == '\r' then "\\r"
    else if c == 8 as char then "\\b" else if c == 12 as char then "\\f"
    else if c == '\\' || c == '\'' then ['\\', c]
    else [c]
  }

  function EscapeText(s: string): string {
    if s == "" then "" else EscapeOf(s[0]) + EscapeText(s[1..])
  }

  lemma EscapedStep(c: char, rest: string)
    ensures ReadEscaped(['\\', c] + rest) == ReadEscaped(rest).Push(Unescape(c))
    ensures c != '\\' && c != '\'' ==> ReadEscaped([c] + rest) == ReadEscaped(rest).Push(c)
  {
    var two := ['\\', c] + rest;
    assert two[1..] != "" && two[2..] == rest && ([c] + rest)[1..] == rest;
  }

  /** The character after the backslash. */
  lemma EscapeSplits(c: char)
    ensures var t := EscapeOf(c);
            if |t| == 1 then t == [c] && c != '\\' && c != '\'' else t == ['\\', t[1]] && Unescape(t[1]) == c
  {
  }

  lemma EscapeIsRead(c: char, rest: string)
    ensures ReadEscaped(EscapeOf(c) + rest) == ReadEscaped(rest).Push(c)
  {
    EscapeSplits(c);
    EscapedStep(if |EscapeOf(c)| == 1 then c else EscapeOf(c)[1], rest);
  }

  lemma {:induction false} EscapedIsRead(s: string, k: string)
    requires !At(k, '\'')
    ensures ReadEscaped(EscapeText(s) + ("'" + k)) == Closed(s, k)
  {
    if s == "" {
      assert "" + ("'" + k) == "'" + k;
      assert ("'" + k)[1..] == k;
    } else {
      var rest := EscapeText(s[1..]) + ("'" + k);
      assert EscapeText(s) + ("'" + k) == EscapeOf(s[0]) + rest;
      EscapeIsRead(s[0], rest);
      EscapedIsRead(s[1..], k);
      assert [s[0]] + s[1..] == s;
    }
  }

  /** A tag between dollar signs: empty, or a letter or underscore, then also digits. */
  predicate IsTag(tag: string) {
    && (tag != "" ==> Letter(tag[0]))
    && forall i :: 0 <= i < |tag| ==> Letter(tag[i]) || Figure(tag[i])
  }

  lemma {:induction false} TagIsRead(tag: string, k: string, i: nat)
    requires i > 0 && (forall j :: 0 <= j < |tag| ==> Letter(tag[j]) || Figure(tag[j]))
    requires i == 1 && tag != "" ==> Letter(tag[0])
    ensures DollarTag(tag + ("$" + k), i) == |tag| + 1
    decreases |tag|
  {
    var s := tag + ("$" + k);
    if tag == "" {
      assert s[0] == '$';
    } else {
      assert s[1..] == tag[1..] + ("$" + k);
      TagIsRead(tag[1..], k, i + 1);
    }
  }

  /** The delimiter first occurs after the whole value. */
  ghost predicate FirstAfter(d: string, value: string) {
    forall i :: 0 <= i < |value| ==> !(d <= (value + d)[i..])
  }

  lemma PrefixOfLonger(d: string, a: string, k: string)
    requires |d| <= |a|
    ensures d <= a + k <==> d <= a
  {
    assert (a + k)[..|d|] == a[..|d|];
  }

  lemma {:induction false} DollarIsRead(d: string, value: string, k: string)
    requires d != "" && FirstAfter(d, value)
    ensures ReadDollar(value + (d + k), d) == Closed(value, k)
    decreases |value|
  {
    var s := value + (d + k);
    if value == "" {
      assert s == d + k;
      assert s[|d|..] == k;
    } else {
      assert (value + d)[0..] == value + d && s == (value + d) + k;
      PrefixOfLonger(d, value + d, k);
      assert s[1..] == value[1..] + (d + k);
      forall i | 0 <= i < |value[1..]|
        ensures !(d <= (value[1..] + d)[i..])
      {
        assert (value[1..] + d)[i..] == (value + d)[i + 1..];
      }
      DollarIsRead(d, value[1..], k);
      assert [value[0]] + value[1..] == value;
    }
  }

  // --- A text of spelled tokens ---------------------------------------------------------------

  /** A token as it is written. `Plain` is its own text; a string can also be written with
      escapes or between dollar tags. */
  datatype Spelled =
    | Plain(token: Token)
    | Quoted(name: string)
    | Escaped(upper: bool, value: string)
    | Dollars(tag: string, value: string)

  function TokenOf(w: Spelled): Token {
    match w
    case Plain(token) => token
    case Quoted(name) => QuotedIdent(name)
    case Escaped(_, value) => StringLit(value)
    case Dollars(_, value) => StringLit(value)
  }

  function Written(w: Spelled): string {
    match w
    case Plain(token) => Text(token)
    case Quoted(name) => "\"" + (Twice(name, '"') + "\"")
    case Escaped(upper, value) => (if upper then "E'" else "e'") + (EscapeText(value) + "'")
    case Dollars(tag, value) => "$" + (tag + "$") + (value + ("$" + (tag + "$")))
  }

  ghost predicate IsSpelled(w: Spelled) {
    match w
    case Plain(token) => Renderable(token)
    case Quoted(_) => true
    case Escaped(_, _) => true
    case Dollars(tag, value) => IsTag(tag) && FirstAfter("$" + (tag + "$"), value)
  }

  /** Nothing, or white space. */
  predicate Apart(k: string) {
    k == "" || IsSpace(k[0])
  }

  /** Text that starts with a quote, a dollar sign or a letter starts with a token. */
  lemma QuoteStarts(s: string)
    requires s != "" && (s[0] == '"' || s[0] == '$' || ((s[0] == 'E' || s[0] == 'e') && At(s[1..], '\'')))
    ensures NextToken(s) ==
            if s[0] == '"' then IdentToken(ReadQuoted(s[1..], '"'))
            else if s[0] == '$' then DollarToken(s[1..])
            else StringLexeme(ReadEscaped(s[2..]))
  {
    assert Skip(s) == s;
  }

  lemma QuotedIsRead(name: string, k: string)
    requires !At(k, '"')
    ensures NextToken(Written(Quoted(name)) + k) == Tok(QuotedIdent(name), k)
  {
    var s, inside := Written(Quoted(name)) + k, Twice(name, '"') + (['"'] + k);
    assert s == "\"" + inside;
    assert s[1..] == inside;
    TwiceIsRead(name, '"', k);
    QuoteStarts(s);
  }

  lemma EscapeStarts(mark: char, inside: string)
    requires mark == 'E' || mark == 'e'
    ensures NextToken([mark, '\''] + inside) == StringLexeme(ReadEscaped(inside))
  {
    var s := [mark, '\''] + inside;
    assert s[1..][0] == '\'' && s[2..] == inside;
    QuoteStarts(s);
  }

  lemma EscapeStringIsRead(upper: bool, value: string, k: string)
    requires !At(k, '\'')
    ensures NextToken(Written(Escaped(upper, value)) + k) == Tok(StringLit(value), k)
  {
    EscapedIsRead(value, k);
    EscapeStarts(if upper then 'E' else 'e', EscapeText(value) + ("'" + k));
    MarkedRegroup(if upper then "E'" else "e'", EscapeText(value), "'", k);
  }

  lemma DollarTokenIsRead(tag: string, body: string, value: string, k: string)
    requires IsTag(tag) && ReadDollar(body, "$" + (tag + "$")) == Closed(value, k)
    ensures DollarToken(tag + ("$" + body)) == Tok(StringLit(value), k)
  {
    var s, n := tag + ("$" + body), |tag| + 1;
    TagIsRead(tag, body, 1);
    assert s[..n] == tag + "$" && s[n..] == body;
  }

  lemma AfterFirst(c: char, s: string)
    ensures ([c] + s)[0] == c && ([c] + s)[1..] == s
  {
  }

  lemma DollarsRegroup(a: string, tag: string, c: string, value: string, d: string, k: string)
    ensures a + (tag + c) + (value + d) + k == a + (tag + (c + (value + (d + k))))
  {
  }

  lemma DollarsAreRead(tag: string, value: string, k: string)
    requires IsTag(tag) && FirstAfter("$" + (tag + "$"), value)
    ensures NextToken(Written(Dollars(tag, value)) + k) == Tok(StringLit(value), k)
  {
    var s, d := Written(Dollars(tag, value)) + k, "$" + (tag + "$");
    var body := value + (d + k);
    DollarIsRead(d, value, k);
    DollarTokenIsRead(tag, body, value, k);
    DollarsRegroup("$", tag, "$", value, d, k);
    AfterFirst('$', tag + ("$" + body));
    QuoteStarts(s);
  }

  lemma PlainIsRead(t: Token, k: string)
    requires Renderable(t) && Apart(k)
    ensures NextToken(Text(t) + k) == Tok(t, k)
  {
    TokenBack(t, k);
    TextStarts(t);
  }

  lemma SpelledIsRead(w: Spelled, k: string)
    requires IsSpelled(w) && Apart(k)
    ensures NextToken(Written(w) + k) == Tok(TokenOf(w), k)
  {
    match w
    case Plain(token) => PlainIsRead(token, k);
    case Quoted(name) => QuotedIsRead(name, k);
    case Escaped(upper, value) => EscapeStringIsRead(upper, value, k);
    case Dollars(tag, value) => DollarsAreRead(tag, value, k);
  }

  /** A dollar sign and digits are the parameter of that number, or of number zero when it does
      not fit 32 bits. */
  lemma ParamExactly(d: string, k: string)
    requires d != "" && AllDigits(d) && Apart(k)
    ensures NextToken("$" + d + k) ==
            Tok(Param(if DigitsValue(d) < 0x1_0000_0000 then DigitsValue(d) else 0), k)
  {
    DollarBack(d, k);
  }

  /** A token with the blanks in front of it. */
  datatype Piece = Piece(blanks: seq<Blank>, word: Spelled)

  ghost predicate IsPiece(p: Piece) {
    AllBlank(p.blanks) && IsSpelled(p.word)
  }

  function PiecesText(ps: seq<Piece>, end: seq<Blank>): string {
    if ps == [] then BlanksText(end)
    else BlanksText(ps[0].blanks) + (Written(ps[0].word) + PiecesText(ps[1..], end))
  }

  function TokensOf(ps: seq<Piece>): seq<Token> {
    if ps == [] then [] else [TokenOf(ps[0].word)] + TokensOf(ps[1..])
  }

  /** The blanks start with white space. */
  predicate Spaced(bs: seq<Blank>) {
    bs != [] && bs[0].Space?
  }

  ghost predicate WellSpelled(ps: seq<Piece>, end: seq<Blank>) {
    && (forall i :: 0 <= i < |ps| ==> IsPiece(ps[i]))
    && (forall i :: 0 < i < |ps| ==> Spaced(ps[i].blanks))
    && AllBlank(end) && (end == [] || ps == [] || Spaced(end))
  }

  lemma SpacedApart(bs: seq<Blank>, k: string)
    requires AllBlank(bs) && Spaced(bs)
    ensures Apart(BlanksText(bs) + k)
  {
    assert IsBlank(bs[0]);
    assert (BlanksText(bs) + k)[0] == bs[0].c;
  }

  /** Tokens spelled in any of their ways, apart by white space and then any blanks, are lexed
      as those tokens. */
  lemma {:induction false} LexSpelled(ps: seq<Piece>, end: seq<Blank>)
    requires WellSpelled(ps, end)
    ensures Lex(PiecesText(ps, end)) == Some(TokensOf(ps))
    decreases |ps|
  {
    if ps == [] {
      BlanksSkip(end, "");
      assert BlanksText(end) + "" == BlanksText(end);
    } else {
      var rest, k := ps[1..], PiecesText(ps[1..], end);
      assert IsPiece(ps[0]);
      assert WellSpelled(rest, end) by {
        assert forall i :: 0 <= i < |rest| ==> rest[i] == ps[i + 1];
      }
      assert Apart(k) by {
        if rest != [] {
          assert IsPiece(rest[0]) && Spaced(rest[0].blanks);
          SpacedApart(rest[0].blanks, Written(rest[0].word) + PiecesText(rest[1..], end));
        } else if end != [] {
          SpacedApart(end, "");
          assert BlanksText(end) + "" == BlanksText(end);
        }
      }
      SpelledIsRead(ps[0].word, k);
      BlanksSkip(ps[0].blanks, Written(ps[0].word) + k);
      LexSpelled(rest, end);
    }
  }
}
