/** Array literals `{a,b,"c d"}`: the executor's parser and the GIN tokeniser.

Both walk the text between the braces with the same four state variables; the
parser keeps a NULL element, the tokeniser drops it.
*/
module ArrayText {
  import opened Collections

  function Upper(c: char): char {
    if 'a' <= c <= 'z' then (c as int - 32) as char else c
  }

  predicate SpellsNull(s: string) {
    |s| == 4 && Upper(s[0]) == 'N' && Upper(s[1]) == 'U' && Upper(s[2]) == 'L' && Upper(s[3]) == 'L'
  }

  /** `array_element`: an unquoted NULL is no element. */
  function Element(raw: string, wasQuoted: bool): Option<string> {
    if !wasQuoted && SpellsNull(raw) then None else Some(raw)
  }

  datatype Scan = Scan(out: seq<Option<string>>, cur: string, quoted: bool, wasQuoted: bool, escape: bool) {
    function Push(): Scan {
      Scan(out + [Element(cur, wasQuoted)], "", quoted, false, escape)
    }

    function Step(c: char): Scan {
      if escape then this.(cur := cur + [c], escape := false)
      else if quoted then
        if c == '\\' then this.(escape := true)
        else if c == '"' then this.(quoted := false)
        else this.(cur := cur + [c])
      else if c == '"' then this.(quoted := true, wasQuoted := true)
      else if c == ',' then Push()
      else this.(cur := cur + [c])
    }

    function Steps(s: string): Scan
      decreases |s|
    {
      if s == [] then this else Step(s[0]).Steps(s[1..])
    }
  }

  const ScanStart := Scan([], "", false, false, false)

  predicate IsArrayText(text: string) {
    |text| >= 2 && text[0] == '{' && text[|text| - 1] == '}'
  }

  /** The executor's `parse_array_text`. */
  function ParseArrayText(text: string): Option<seq<Option<string>>> {
    if !IsArrayText(text) then None
    else if |text| == 2 then Some([])
    else Some(ScanStart.Steps(text[1..|text| - 1]).Push().out)
  }

  /** The elements that are there. */
  function Flatten(es: seq<Option<string>>): (r: seq<string>)
    ensures forall x :: x in r <==> Some(x) in es
  {
    if es == [] then []
    else
      var init, last := Flatten(es[..|es| - 1]), es[|es| - 1];
      assert es == es[..|es| - 1] + [last];
      if last.Some? then init + [last.value] else init
  }

  lemma FlattenSnoc(es: seq<Option<string>>, e: Option<string>)
    ensures Flatten(es + [e]) == if e.Some? then Flatten(es) + [e.value] else Flatten(es)
  {
    assert (es + [e])[..|es + [e]| - 1] == es;
  }

  /** What a GIN index files a text under. */
  function Tokens(text: string): seq<string> {
    match ParseArrayText(text)
    case None => [text]
    case Some(es) => Flatten(es)
  }

  /** `gin_tokens`: the same walk, dropping NULL elements as it goes. */
  method GinTokens(text: string) returns (out: seq<string>)
    ensures out == Tokens(text)
  {
    if !IsArrayText(text) {
      return [text];
    }
    if |text| == 2 {
      return [];
    }
    var body := text[1..|text| - 1];
    out := [];
    var cur, quoted, wasQuoted, escape := "", false, false, false;
    ghost var scan := ScanStart;
    for i := 0 to |body|
      invariant scan.Steps(body[i..]) == ScanStart.Steps(body)
      invariant scan.(out := []) == Scan([], cur, quoted, wasQuoted, escape) && out == Flatten(scan.out)
    {
      var ch := body[i];
      assert body[i..][1..] == body[i + 1..];
      FlattenSnoc(scan.out, Element(cur, wasQuoted));
      scan := scan.Step(ch);
      if escape {
        cur, escape := cur + [ch], false;
      } else if quoted {
        if ch == '\\' {
          escape := true;
        } else if ch == '"' {
          quoted := false;
        } else {
          cur := cur + [ch];
        }
      } else if ch == '"' {
        quoted, wasQuoted := true, true;
      } else if ch == ',' {
        out := PushToken(out, cur, wasQuoted);
        cur, wasQuoted := "", false;
      } else {
        cur := cur + [ch];
      }
    }
    FlattenSnoc(scan.out, Element(cur, wasQuoted));
    out := PushToken(out, cur, wasQuoted);
  }

  function PushToken(out: seq<string>, cur: string, wasQuoted: bool): seq<string> {
    if !wasQuoted && SpellsNull(cur) then out else out + [cur]
  }

  // --- Containment ---------------------------------------------------------------------

  /** `haystack @> needles`. */
  ghost predicate Contains(haystack: seq<Option<string>>, needles: seq<Option<string>>) {
    forall n :: n in needles ==> n in haystack
  }

  /** A row whose array contains the probed one is filed under every element of it. */
  lemma ContainedIsFiled(text: string, probe: string)
    requires ParseArrayText(text).Some? && ParseArrayText(probe).Some?
    requires Contains(ParseArrayText(text).value, ParseArrayText(probe).value)
    ensures forall n :: n in Tokens(probe) ==> n in Tokens(text)
  {
  }

  // --- A quoted literal is read back ------------------------------------------------------

  function EscapeChar(c: char): string {
    if c == '\\' || c == '"' then ['\\', c] else [c]
  }

  function Escape(s: string): string {
    if s == [] then [] else EscapeChar(s[0]) + Escape(s[1..])
  }

  /** `"e1","e2",...` with backslash escapes. */
  function QuotedList(es: seq<string>): string
    requires es != []
  {
    var first := "\"" + Escape(es[0]) + "\"";
    if |es| == 1 then first else first + "," + QuotedList(es[1..])
  }

  lemma {:induction false} StepsAppend(scan: Scan, a: string, b: string)
    ensures scan.Steps(a + b) == scan.Steps(a).Steps(b)
    decreases |a|
  {
    if a == [] {
      assert a + b == b;
    } else {
      assert (a + b)[1..] == a[1..] + b;
      StepsAppend(scan.Step(a[0]), a[1..], b);
    }
  }

  lemma EscapedCharIsRead(scan: Scan, c: char)
    requires scan.quoted && !scan.escape
    ensures scan.Steps(EscapeChar(c)) == scan.(cur := scan.cur + [c])
  {
    if c == '\\' || c == '"' {
      assert ['\\', c][1..] == [c] && [c][1..] == [];
      assert scan.Steps(['\\', c]) == scan.Step('\\').Steps([c]);
      assert scan.Step('\\').Steps([c]) == scan.Step('\\').Step(c);
    } else {
      assert [c][1..] == [];
      assert scan.Steps([c]) == scan.Step(c);
    }
  }

  lemma {:induction false} EscapedIsRead(scan: Scan, s: string)
    requires scan.quoted && !scan.escape
    ensures scan.Steps(Escape(s)) == scan.(cur := scan.cur + s)
    decreases |s|
  {
    if s == [] {
      assert scan.cur + s == scan.cur;
    } else {
      StepsAppend(scan, EscapeChar(s[0]), Escape(s[1..]));
      EscapedCharIsRead(scan, s[0]);
      var mid := scan.(cur := scan.cur + [s[0]]);
      EscapedIsRead(mid, s[1..]);
      assert mid.cur + s[1..] == scan.cur + s;
    }
  }

  lemma QuotedIsRead(out: seq<Option<string>>, s: string)
    ensures Scan(out, "", false, false, false).Steps("\"" + Escape(s) + "\"") == Scan(out, s, false, true, false)
  {
    var start := Scan(out, "", false, false, false);
    var inside := Scan(out, "", true, true, false);
    StepsAppend(start, "\"" + Escape(s), "\"");
    StepsAppend(start, "\"", Escape(s));
    assert "\""[1..] == "";
    assert start.Steps("\"") == inside;
    EscapedIsRead(inside, s);
    assert "" + s == s;
    assert Scan(out, s, true, true, false).Steps("\"") == Scan(out, s, false, true, false);
  }

  function Somes(es: seq<string>): seq<Option<string>> {
    seq(|es|, i requires 0 <= i < |es| => Some(es[i]))
  }

  lemma {:induction false} ListIsRead(out: seq<Option<string>>, es: seq<string>)
    requires es != []
    ensures Scan(out, "", false, false, false).Steps(QuotedList(es)).Push().out == out + Somes(es)
    decreases |es|
  {
    var start := Scan(out, "", false, false, false);
    var first := "\"" + Escape(es[0]) + "\"";
    QuotedIsRead(out, es[0]);
    if |es| > 1 {
      var rest := QuotedList(es[1..]);
      StepsAppend(start, first + ",", rest);
      StepsAppend(start, first, ",");
      assert ","[1..] == "";
      assert first + "," + rest == QuotedList(es);
      ListIsRead(out + [Some(es[0])], es[1..]);
      assert out + [Some(es[0])] + Somes(es[1..]) == out + Somes(es);
    } else {
      assert out + [Some(es[0])] == out + Somes(es);
    }
  }

  /** The parser reads back any quoted array literal, and the tokens are its elements. */
  lemma LiteralIsRead(es: seq<string>)
    requires es != []
    ensures ParseArrayText("{" + QuotedList(es) + "}") == Some(Somes(es))
    ensures forall x :: x in Tokens("{" + QuotedList(es) + "}") <==> x in es
  {
    var text := "{" + QuotedList(es) + "}";
    assert text[1..|text| - 1] == QuotedList(es);
    ListIsRead([], es);
    assert [] + Somes(es) == Somes(es);
    forall x
      ensures Some(x) in Somes(es) <==> x in es
    {
      if x in es {
        var i :| 0 <= i < |es| && es[i] == x;
        assert Somes(es)[i] == Some(x);
      }
    }
  }

  // --- An array as the executor writes it ---------------------------------------------------

  /** An element that is written as it is. */
  predicate NeedsNoQuotes(s: string) {
    s != "" && ',' !in s && '{' !in s && '}' !in s && '"' !in s && '\\' !in s
  }

  /** `array_value_to_text`, one value. */
  function ElementText(e: Option<string>): string {
    match e
    case None => "NULL"
    case Some(s) => if NeedsNoQuotes(s) then s else "\"" + Escape(s) + "\""
  }

  function ElementsText(es: seq<Option<string>>): string
    requires es != []
  {
    if |es| == 1 then ElementText(es[0]) else ElementText(es[0]) + "," + ElementsText(es[1..])
  }

  function ArrayValueText(es: seq<Option<string>>): string {
    "{" + (if es == [] then "" else ElementsText(es)) + "}"
  }

  /** A text that spells NULL is written without quotes and read as NULL. */
  function ReadBack(e: Option<string>): Option<string> {
    if e.Some? && LooksNull(e.value) then None else e
  }

  predicate LooksNull(s: string) {
    && |s| == 4 && (s[0] == 'n' || s[0] == 'N') && (s[1] == 'u' || s[1] == 'U')
    && (s[2] == 'l' || s[2] == 'L') && (s[3] == 'l' || s[3] == 'L')
  }

  lemma {:induction false} PlainIsRead(scan: Scan, s: string)
    requires !scan.quoted && !scan.escape && ',' !in s && '"' !in s
    ensures scan.Steps(s) == scan.(cur := scan.cur + s)
    decreases |s|
  {
    if s == "" {
      assert scan.cur + s == scan.cur;
    } else {
      var mid := scan.(cur := scan.cur + [s[0]]);
      assert scan.Step(s[0]) == mid;
      PlainIsRead(mid, s[1..]);
      assert mid.cur + s[1..] == scan.cur + s;
    }
  }

  lemma ElementIsRead(out: seq<Option<string>>, e: Option<string>)
    ensures var now := Scan(out, "", false, false, false).Steps(ElementText(e));
            now.out == out && !now.quoted && !now.escape && Element(now.cur, now.wasQuoted) == ReadBack(e)
  {
    var start := Scan(out, "", false, false, false);
    if e.Some? && !NeedsNoQuotes(e.value) {
      QuotedIsRead(out, e.value);
    } else {
      PlainIsRead(start, ElementText(e));
      assert "" + ElementText(e) == ElementText(e);
    }
  }

  function AllReadBack(es: seq<Option<string>>): seq<Option<string>> {
    seq(|es|, i requires 0 <= i < |es| => ReadBack(es[i]))
  }

  lemma {:induction false} ElementsAreRead(out: seq<Option<string>>, es: seq<Option<string>>)
    requires es != []
    ensures Scan(out, "", false, false, false).Steps(ElementsText(es)).Push().out == out + AllReadBack(es)
    decreases |es|
  {
    var start := Scan(out, "", false, false, false);
    var first := ElementText(es[0]);
    ElementIsRead(out, es[0]);
    if |es| > 1 {
      var rest := ElementsText(es[1..]);
      StepsAppend(start, first + ",", rest);
      StepsAppend(start, first, ",");
      assert ","[1..] == "";
      assert start.Steps(first + ",") == Scan(out + [ReadBack(es[0])], "", false, false, false);
      ElementsAreRead(out + [ReadBack(es[0])], es[1..]);
      assert out + [ReadBack(es[0])] + AllReadBack(es[1..]) == out + AllReadBack(es);
    } else {
      assert out + [ReadBack(es[0])] == out + AllReadBack(es);
    }
  }

  /** What the executor writes, quoted or not, it reads back, except that a text spelling NULL
      becomes NULL. */
  lemma ArrayIsReadBack(es: seq<Option<string>>)
    ensures ParseArrayText(ArrayValueText(es)) == Some(AllReadBack(es))
    ensures ParseArrayText(ArrayValueText(es)) == Some(es) <==>
            forall i :: 0 <= i < |es| ==> !(es[i].Some? && LooksNull(es[i].value))
  {
    var text := ArrayValueText(es);
    if es == [] {
      assert text == "{}" && AllReadBack(es) == [];
    } else {
      assert text[1..|text| - 1] == ElementsText(es);
      ElementsAreRead([], es);
      assert [] + AllReadBack(es) == AllReadBack(es);
      NotEmpty(es);
    }
    if i :| 0 <= i < |es| && es[i].Some? && LooksNull(es[i].value) {
      assert AllReadBack(es)[i] != es[i];
    } else {
      assert AllReadBack(es) == es;
    }
  }

  lemma NotEmpty(es: seq<Option<string>>)
    requires es != []
    ensures ElementsText(es) != ""
  {
  }
}
