/** COPY in text format: rows of nullable strings to lines and back. */
module CopyText {
  import opened Collections
  import opened Splitting

  type Field = Option<string>

  type Row = seq<Field>

  /** The options of a COPY: the field delimiter and what stands for NULL. */
  datatype Format = Format(delimiter: char, marker: string)

  const DefaultMarker := "\\N"
  const EndMarker := "\\."

  // --- Encoding ---------------------------------------------------------------------

  /** `str::replace` of one character. */
  function Replace(s: string, c: char, with: string): string {
    if s == "" then "" else (if s[0] == c then with else [s[0]]) + Replace(s[1..], c, with)
  }

  function EscapeChar(c: char): string {
    if c == '\\' then "\\\\" else if c == '\t' then "\\t" else if c == '\n' then "\\n" else if c == '\r' then "\\r"
    else [c]
  }

  function Escape(s: string): string {
    if s == "" then "" else EscapeChar(s[0]) + Escape(s[1..])
  }

  lemma {:induction false} ReplaceAppend(a: string, b: string, c: char, with: string)
    ensures Replace(a + b, c, with) == Replace(a, c, with) + Replace(b, c, with)
  {
    if a == "" {
      assert a + b == b;
    } else {
      assert (a + b)[1..] == a[1..] + b;
      ReplaceAppend(a[1..], b, c, with);
    }
  }

  function Chain(s: string): string {
    Replace(Replace(Replace(Replace(s, '\\', "\\\\"), '\t', "\\t"), '\n', "\\n"), '\r', "\\r")
  }

  lemma ChainAppend(a: string, b: string)
    ensures Chain(a + b) == Chain(a) + Chain(b)
  {
    ReplaceAppend(a, b, '\\', "\\\\");
    var a1, b1 := Replace(a, '\\', "\\\\"), Replace(b, '\\', "\\\\");
    ReplaceAppend(a1, b1, '\t', "\\t");
    var a2, b2 := Replace(a1, '\t', "\\t"), Replace(b1, '\t', "\\t");
    ReplaceAppend(a2, b2, '\n', "\\n");
    ReplaceAppend(Replace(a2, '\n', "\\n"), Replace(b2, '\n', "\\n"), '\r', "\\r");
  }

  lemma ReplaceOne(a: char, c: char, with: string)
    ensures Replace([a], c, with) == if a == c then with else [a]
  {
    assert [a][1..] == "";
  }

  lemma ReplaceTwo(a: char, b: char, c: char, with: string)
    requires a != c && b != c
    ensures Replace([a, b], c, with) == [a, b]
  {
    ReplaceOne(a, c, with);
    ReplaceOne(b, c, with);
    ReplaceAppend([a], [b], c, with);
    assert [a] + [b] == [a, b];
  }

  lemma ChainOne(c: char)
    ensures Chain([c]) == EscapeChar(c)
  {
    ReplaceOne(c, '\\', "\\\\");
    ReplaceOne(c, '\t', "\\t");
    ReplaceOne(c, '\n', "\\n");
    ReplaceOne(c, '\r', "\\r");
    ReplaceTwo('\\', '\\', '\t', "\\t");
    ReplaceTwo('\\', '\\', '\n', "\\n");
    ReplaceTwo('\\', '\\', '\r', "\\r");
    ReplaceTwo('\\', 't', '\n', "\\n");
    ReplaceTwo('\\', 't', '\r', "\\r");
    ReplaceTwo('\\', 'n', '\r', "\\r");
  }

  /** The four replacements one after the other escape each character once. */
  lemma {:induction false} ChainIsEscape(s: string)
    ensures Chain(s) == Escape(s)
  {
    if s != "" {
      assert s == [s[0]] + s[1..];
      ChainAppend([s[0]], s[1..]);
      ChainOne(s[0]);
      ChainIsEscape(s[1..]);
    }
  }

  /** `encode_copy_field` in text format. */
  function EncodeField(fmt: Format, f: Field): string {
    match f
    case None => fmt.marker
    case Some(s) => Chain(s)
  }

  function EncodeFields(fmt: Format, row: Row): seq<string> {
    if row == [] then [] else [EncodeField(fmt, row[0])] + EncodeFields(fmt, row[1..])
  }

  function Line(fmt: Format, row: Row): string {
    Join(EncodeFields(fmt, row), fmt.delimiter)
  }

  function Encode(fmt: Format, rows: seq<Row>): string {
    if rows == [] then "" else Line(fmt, rows[0]) + "\n" + Encode(fmt, rows[1..])
  }

  // --- Decoding ---------------------------------------------------------------------

  function UnescapeChar(c: char): char {
    if c == 't' then '\t' else if c == 'n' then '\n' else if c == 'r' then '\r' else c
  }

  function Unescape(s: string): string
    decreases |s|
  {
    if s == "" then ""
    else if s[0] != '\\' then [s[0]] + Unescape(s[1..])
    else if |s| == 1 then "\\"
    else [UnescapeChar(s[1])] + Unescape(s[2..])
  }

  /** `unescape_text_field`. */
  method UnescapeTextField(tok: string) returns (out: string)
    ensures out == Unescape(tok)
  {
    out := "";
    var i := 0;
    while i < |tok|
      invariant 0 <= i <= |tok| && out + Unescape(tok[i..]) == Unescape(tok)
      decreases |tok| - i
    {
      ghost var before := out;
      SuffixNext(tok, i);
      if tok[i] != '\\' {
        out, i := out + [tok[i]], i + 1;
        assert before + ([tok[i - 1]] + Unescape(tok[i..])) == out + Unescape(tok[i..]);
      } else if i + 1 == |tok| {
        assert Unescape(tok[i..]) == "\\" && Unescape(tok[i + 1..]) == "";
        out, i := out + "\\", i + 1;
        assert out + "" == out;
      } else {
        SuffixDrop(tok, i, 2);
        out, i := out + [UnescapeChar(tok[i + 1])], i + 2;
        assert before + ([UnescapeChar(tok[i - 1])] + Unescape(tok[i..])) == out + Unescape(tok[i..]);
      }
    }
    assert out + "" == out;
  }

  function DecodeField(fmt: Format, tok: string): Field {
    if tok == fmt.marker then None else Some(Unescape(tok))
  }

  function DecodeFields(fmt: Format, parts: seq<string>): (row: Row)
    ensures |row| == |parts|
    ensures forall i :: 0 <= i < |parts| ==> row[i] == DecodeField(fmt, parts[i])
  {
    if parts == [] then [] else [DecodeField(fmt, parts[0])] + DecodeFields(fmt, parts[1..])
  }

  /** `parse_text_line`. */
  function ParseLine(fmt: Format, line: string): Row {
    DecodeFields(fmt, Split(line, fmt.delimiter))
  }

  predicate EndsInReturn(s: string) {
    s != "" && s[|s| - 1] == '\r'
  }

  function StripReturn(raw: string): string {
    if EndsInReturn(raw) then raw[..|raw| - 1] else raw
  }

  /** The lines up to the end marker, without empty ones. */
  function DecodeLines(fmt: Format, raw: seq<string>): seq<Row> {
    if raw == [] then []
    else
      var line := StripReturn(raw[0]);
      if line == EndMarker then []
      else if raw[0] == "" then DecodeLines(fmt, raw[1..])
      else [ParseLine(fmt, line)] + DecodeLines(fmt, raw[1..])
  }

  function Decode(fmt: Format, text: string): seq<Row> {
    DecodeLines(fmt, Split(text, '\n'))
  }

  /** The text part of `copy_from_bytes`. */
  method CopyFrom(fmt: Format, text: string) returns (rows: seq<Row>)
    ensures rows == Decode(fmt, text)
  {
    var raw := Split(text, '\n');
    rows := [];
    for i := 0 to |raw|
      invariant rows + DecodeLines(fmt, raw[i..]) == Decode(fmt, text)
    {
      SuffixNext(raw, i);
      var line := StripReturn(raw[i]);
      if line == EndMarker {
        assert rows + [] == rows;
        return;
      }
      if raw[i] == "" {
        continue;
      }
      ghost var before := rows;
      rows := rows + [ParseLine(fmt, line)];
      ghost var more := DecodeLines(fmt, raw[i + 1..]);
      assert before + ([ParseLine(fmt, line)] + more) == rows + more;
    }
    assert rows + [] == rows;
  }

  // --- Counting characters ------------------------------------------------------------

  /** The field is not written with this character. */
  predicate CleanField(fmt: Format, c: char, f: Field) {
    match f
    case None => c !in fmt.marker
    case Some(s) => forall i :: 0 <= i < |s| ==> c !in EscapeChar(s[i])
  }

  lemma CountEscapeChar(a: char, c: char)
    ensures Count(EscapeChar(a), c) == 0 <==> c !in EscapeChar(a)
  {
    CountOne(a, c);
    CountTwo('\\', '\\', c);
    CountTwo('\\', 't', c);
    CountTwo('\\', 'n', c);
    CountTwo('\\', 'r', c);
  }

  lemma {:induction false} CountEscape(fmt: Format, s: string, c: char)
    ensures Count(Escape(s), c) == 0 <==> CleanField(fmt, c, Some(s))
  {
    if s != "" {
      CountAppend(EscapeChar(s[0]), Escape(s[1..]), c);
      CountEscapeChar(s[0], c);
      CountEscape(fmt, s[1..], c);
      assert forall i :: 0 < i < |s| ==> s[i] == s[1..][i - 1];
    }
  }

  lemma CountEncoded(fmt: Format, f: Field, c: char)
    ensures Count(EncodeField(fmt, f), c) == 0 <==> CleanField(fmt, c, f)
  {
    if f.Some? {
      ChainIsEscape(f.value);
      CountEscape(fmt, f.value, c);
    } else {
      CountIn(fmt.marker, c);
    }
  }

  /** In a value line breaks are always escaped. */
  lemma NoBreaks(fmt: Format, s: string)
    ensures Count(EncodeField(fmt, Some(s)), '\n') == 0 && Count(EncodeField(fmt, Some(s)), '\r') == 0
  {
    CountEncoded(fmt, Some(s), '\n');
    CountEncoded(fmt, Some(s), '\r');
  }

  function Total(fmt: Format, row: Row, c: char): nat {
    if row == [] then 0 else Count(EncodeField(fmt, row[0]), c) + Total(fmt, row[1..], c)
  }

  lemma {:induction false} EncodeFieldsLength(fmt: Format, row: Row)
    ensures |EncodeFields(fmt, row)| == |row|
    ensures forall i :: 0 <= i < |row| ==> EncodeFields(fmt, row)[i] == EncodeField(fmt, row[i])
  {
    if row != [] {
      EncodeFieldsLength(fmt, row[1..]);
    }
  }

  lemma LineStep(fmt: Format, row: Row)
    requires row != []
    ensures Line(fmt, row) == if |row| == 1 then EncodeField(fmt, row[0])
                              else EncodeField(fmt, row[0]) + [fmt.delimiter] + Line(fmt, row[1..])
  {
    var parts := EncodeFields(fmt, row);
    EncodeFieldsLength(fmt, row);
    EncodeFieldsLength(fmt, row[1..]);
    assert parts[1..] == EncodeFields(fmt, row[1..]);
  }

  /** A line has one delimiter between fields, and those inside fields. */
  lemma {:induction false} CountLine(fmt: Format, row: Row, c: char)
    requires row != []
    ensures Count(Line(fmt, row), c) == Total(fmt, row, c) + if c == fmt.delimiter then |row| - 1 else 0
  {
    var d := fmt.delimiter;
    LineStep(fmt, row);
    if |row| > 1 {
      CountLine(fmt, row[1..], c);
      CountOne(d, c);
      CountAppend(EncodeField(fmt, row[0]) + [d], Line(fmt, row[1..]), c);
      CountAppend(EncodeField(fmt, row[0]), [d], c);
    } else {
      assert row[1..] == [];
    }
  }

  // --- One field and one row -------------------------------------------------------------

  lemma UnescapeOne(c: char, rest: string)
    ensures Unescape(EscapeChar(c) + rest) == [c] + Unescape(rest)
  {
    var s := EscapeChar(c) + rest;
    if |EscapeChar(c)| == 1 {
      assert s[1..] == rest;
    } else {
      assert s[2..] == rest;
    }
  }

  lemma {:induction false} UnescapeEscape(s: string)
    ensures Unescape(Escape(s)) == s
  {
    if s != "" {
      UnescapeEscape(s[1..]);
      UnescapeOne(s[0], Escape(s[1..]));
      assert [s[0]] + s[1..] == s;
    }
  }

  /** Which character each escape stands for; a backslash before any other character stands
      for that character. */
  lemma EscapesMean(c: char, rest: string)
    requires c != 't' && c != 'n' && c != 'r'
    ensures Unescape("\\t" + rest) == "\t" + Unescape(rest) && EscapeChar('\t') == "\\t"
    ensures Unescape("\\n" + rest) == "\n" + Unescape(rest) && EscapeChar('\n') == "\\n"
    ensures Unescape("\\r" + rest) == "\r" + Unescape(rest) && EscapeChar('\r') == "\\r"
    ensures Unescape(['\\', c] + rest) == [c] + Unescape(rest) && EscapeChar('\\') == "\\\\"
    ensures Unescape("\\") == "\\"
  {
    assert ("\\t" + rest)[2..] == rest && ("\\n" + rest)[2..] == rest && ("\\r" + rest)[2..] == rest;
    assert (['\\', c] + rest)[2..] == rest;
  }

  /** A value that is written as the marker is read as NULL. */
  predicate Clashes(fmt: Format, f: Field) {
    f.Some? && Escape(f.value) == fmt.marker
  }

  lemma FieldBackExactly(fmt: Format, f: Field)
    ensures DecodeField(fmt, EncodeField(fmt, f)) == f <==> !Clashes(fmt, f)
  {
    if f.Some? {
      ChainIsEscape(f.value);
      UnescapeEscape(f.value);
    }
  }

  /** No field is written with the delimiter. */
  predicate Clean(fmt: Format, row: Row) {
    forall i :: 0 <= i < |row| ==> CleanField(fmt, fmt.delimiter, row[i])
  }

  predicate NoClash(fmt: Format, row: Row) {
    forall i :: 0 <= i < |row| ==> !Clashes(fmt, row[i])
  }

  lemma {:induction false} TotalZero(fmt: Format, row: Row, c: char)
    ensures Total(fmt, row, c) == 0 <==> forall i :: 0 <= i < |row| ==> CleanField(fmt, c, row[i])
  {
    if row != [] {
      CountEncoded(fmt, row[0], c);
      TotalZero(fmt, row[1..], c);
      assert forall i :: 0 < i < |row| ==> row[i] == row[1..][i - 1];
    }
  }

  /** The tokens of a clean row are its fields. */
  lemma CleanSplits(fmt: Format, row: Row)
    requires row != [] && Clean(fmt, row)
    ensures Split(Line(fmt, row), fmt.delimiter) == EncodeFields(fmt, row)
  {
    EncodeFieldsLength(fmt, row);
    forall i | 0 <= i < |row|
      ensures Count(EncodeFields(fmt, row)[i], fmt.delimiter) == 0
    {
      CountEncoded(fmt, row[i], fmt.delimiter);
    }
    SplitJoin(EncodeFields(fmt, row), fmt.delimiter);
  }

  lemma FieldsBackExactly(fmt: Format, row: Row)
    ensures DecodeFields(fmt, EncodeFields(fmt, row)) == row <==> NoClash(fmt, row)
  {
    EncodeFieldsLength(fmt, row);
    forall i | 0 <= i < |row|
      ensures DecodeField(fmt, EncodeField(fmt, row[i])) == row[i] <==> !Clashes(fmt, row[i])
    {
      FieldBackExactly(fmt, row[i]);
    }
    var back := DecodeFields(fmt, EncodeFields(fmt, row));
    if NoClash(fmt, row) {
      assert back == row;
    } else {
      var i :| 0 <= i < |row| && Clashes(fmt, row[i]);
      assert back[i] != row[i];
    }
  }

  /** Any delimiter and marker: a row is read back from its line exactly when no field is
      written with the delimiter and no value is written as the marker. */
  lemma RowBackExactly(fmt: Format, row: Row)
    requires row != []
    ensures ParseLine(fmt, Line(fmt, row)) == row <==> Clean(fmt, row) && NoClash(fmt, row)
  {
    TotalZero(fmt, row, fmt.delimiter);
    CountLine(fmt, row, fmt.delimiter);
    SplitCount(Line(fmt, row), fmt.delimiter);
    if Clean(fmt, row) {
      CleanSplits(fmt, row);
      FieldsBackExactly(fmt, row);
    }
  }

  // --- One line -------------------------------------------------------------------------------

  /** A marker that holds the character is never read from text without it. */
  lemma NoNullRead(fmt: Format, parts: seq<string>, c: char)
    requires c in fmt.marker && Free(parts, c)
    ensures forall i :: 0 <= i < |parts| ==> DecodeFields(fmt, parts)[i].Some?
  {
    forall i | 0 <= i < |parts|
      ensures parts[i] != fmt.marker
    {
      CountIn(parts[i], c);
    }
  }

  /** Stripped of a carriage return of its own, a line does not give its row. */
  lemma StripSpoils(fmt: Format, row: Row)
    requires row != [] && EndsInReturn(Line(fmt, row))
    ensures ParseLine(fmt, StripReturn(Line(fmt, row))) != row
  {
    var init := StripReturn(Line(fmt, row));
    assert Line(fmt, row) == init + ['\r'];
    if Clean(fmt, row) {
      CleanSpoils(fmt, row, init);
    } else {
      UncleanSpoils(fmt, row, init);
    }
  }

  lemma CleanSpoils(fmt: Format, row: Row, init: string)
    requires row != [] && Clean(fmt, row) && Line(fmt, row) == init + ['\r']
    ensures ParseLine(fmt, init) != row
  {
    var d := fmt.delimiter;
    CountAppend(init, ['\r'], d);
    CountOne('\r', d);
    CountLine(fmt, row, d);
    TotalZero(fmt, row, d);
    SplitCount(init, d);
    if d != '\r' {
      CleanSplits(fmt, row);
      SplitSnoc(init, '\r', d);
      LastSpoiled(fmt, row, Split(init, d));
    }
  }

  /** Only NULL can be written with a carriage return, and without it it is not NULL. */
  lemma LastSpoiled(fmt: Format, row: Row, parts: seq<string>)
    requires row != [] && |parts| == |row|
    requires EncodeFields(fmt, row) != [] && |EncodeFields(fmt, row)| == |row|
    requires EncodeFields(fmt, row)[|row| - 1] == parts[|row| - 1] + ['\r']
    ensures DecodeFields(fmt, parts) != row
  {
    var k := |row| - 1;
    EncodeFieldsLength(fmt, row);
    if row[k].Some? {
      NoBreaks(fmt, row[k].value);
      CountLast(EncodeField(fmt, row[k]));
      assert false;
    }
    assert parts[k] != fmt.marker;
    assert DecodeFields(fmt, parts)[k] == DecodeField(fmt, parts[k]);
  }

  lemma UncleanSpoils(fmt: Format, row: Row, init: string)
    requires row != [] && !Clean(fmt, row) && Line(fmt, row) == init + ['\r']
    ensures ParseLine(fmt, init) != row
  {
    var d := fmt.delimiter;
    var i :| 0 <= i < |row| && !CleanField(fmt, d, row[i]);
    if row[i].None? {
      SplitFree(init, d);
      NoNullRead(fmt, Split(init, d), d);
      SplitCount(init, d);
    } else {
      NoBreaks(fmt, row[i].value);
      CountEncoded(fmt, row[i], '\r');
      TotalZero(fmt, row, d);
      CountLine(fmt, row, d);
      CountAppend(init, ['\r'], d);
      CountOne('\r', d);
      SplitCount(init, d);
    }
  }

  /** The row takes one line: no line break between its fields or in the marker ends it. */
  predicate OneLine(fmt: Format, row: Row) {
    (fmt.delimiter == '\n' ==> |row| <= 1) && ('\n' in fmt.marker ==> None !in row)
  }

  lemma LineUnbroken(fmt: Format, row: Row)
    requires OneLine(fmt, row)
    ensures Count(Line(fmt, row), '\n') == 0
  {
    if row != [] {
      forall i | 0 <= i < |row|
        ensures CleanField(fmt, '\n', row[i])
      {
        if row[i].Some? {
          NoBreaks(fmt, row[i].value);
          CountEncoded(fmt, row[i], '\n');
        }
      }
      TotalZero(fmt, row, '\n');
      CountLine(fmt, row, '\n');
    }
  }

  /** The rows that COPY text brings back: no field written with the delimiter, no value
      written as the marker, and a line of their own that is not empty, not the end marker
      and does not end in a carriage return. */
  predicate Survives(fmt: Format, row: Row) {
    && row != [] && Clean(fmt, row) && NoClash(fmt, row) && OneLine(fmt, row)
    && Line(fmt, row) != "" && Line(fmt, row) != EndMarker && !EndsInReturn(Line(fmt, row))
  }

  /** What the decoder makes of the line is the row. */
  predicate LineGives(fmt: Format, row: Row) {
    var line := Line(fmt, row);
    line != "" && StripReturn(line) != EndMarker && ParseLine(fmt, StripReturn(line)) == row
  }

  lemma SurvivesExactly(fmt: Format, row: Row)
    requires OneLine(fmt, row)
    ensures LineGives(fmt, row) <==> Survives(fmt, row)
  {
    if row != [] {
      if EndsInReturn(Line(fmt, row)) {
        StripSpoils(fmt, row);
      } else {
        RowBackExactly(fmt, row);
      }
    }
  }

  // --- Whole payloads -----------------------------------------------------------------------

  function Lines(fmt: Format, rows: seq<Row>): seq<string> {
    if rows == [] then [""] else [Line(fmt, rows[0])] + Lines(fmt, rows[1..])
  }

  predicate AllOneLine(fmt: Format, rows: seq<Row>) {
    forall i :: 0 <= i < |rows| ==> OneLine(fmt, rows[i])
  }

  lemma {:induction false} EncodeSplits(fmt: Format, rows: seq<Row>)
    requires AllOneLine(fmt, rows)
    ensures Split(Encode(fmt, rows), '\n') == Lines(fmt, rows)
  {
    if rows != [] {
      LineUnbroken(fmt, rows[0]);
      EncodeSplits(fmt, rows[1..]);
      SplitPrefix(Line(fmt, rows[0]), Encode(fmt, rows[1..]), '\n');
      assert Encode(fmt, rows) == Line(fmt, rows[0]) + (['\n'] + Encode(fmt, rows[1..]));
    }
  }

  predicate AllSurvive(fmt: Format, rows: seq<Row>) {
    forall i :: 0 <= i < |rows| ==> Survives(fmt, rows[i])
  }

  lemma SurviveCons(fmt: Format, rows: seq<Row>)
    requires rows != []
    ensures AllSurvive(fmt, rows) <==> Survives(fmt, rows[0]) && AllSurvive(fmt, rows[1..])
  {
    assert forall i :: 0 < i < |rows| ==> rows[i] == rows[1..][i - 1];
    assert forall i :: 0 <= i < |rows[1..]| ==> rows[1..][i] == rows[i + 1];
  }

  /** At most one row per line. */
  lemma {:induction false} DecodeAtMost(fmt: Format, rows: seq<Row>)
    ensures |DecodeLines(fmt, Lines(fmt, rows))| <= |rows|
  {
    if rows == [] {
      assert [""][1..] == [];
      assert DecodeLines(fmt, [""]) == DecodeLines(fmt, []);
    } else {
      assert Lines(fmt, rows)[1..] == Lines(fmt, rows[1..]);
      DecodeAtMost(fmt, rows[1..]);
    }
  }

  lemma LinesStep(fmt: Format, rows: seq<Row>, more: seq<Row>)
    requires rows != [] && more == DecodeLines(fmt, Lines(fmt, rows[1..])) && |more| < |rows|
    ensures DecodeLines(fmt, Lines(fmt, rows)) == rows <==> LineGives(fmt, rows[0]) && more == rows[1..]
  {
    var line := Line(fmt, rows[0]);
    var all := DecodeLines(fmt, Lines(fmt, rows));
    assert Lines(fmt, rows)[0] == line && Lines(fmt, rows)[1..] == Lines(fmt, rows[1..]);
    assert rows == [rows[0]] + rows[1..];
    if StripReturn(line) != EndMarker && line != "" {
      assert all == [ParseLine(fmt, StripReturn(line))] + more;
      assert all[1..] == more;
    }
  }

  lemma {:induction false} LinesExactly(fmt: Format, rows: seq<Row>)
    requires AllOneLine(fmt, rows)
    ensures DecodeLines(fmt, Lines(fmt, rows)) == rows <==> AllSurvive(fmt, rows)
  {
    if rows == [] {
      DecodeAtMost(fmt, rows);
    } else {
      SurvivesExactly(fmt, rows[0]);
      SurviveCons(fmt, rows);
      LinesExactly(fmt, rows[1..]);
      DecodeAtMost(fmt, rows[1..]);
      LinesStep(fmt, rows, DecodeLines(fmt, Lines(fmt, rows[1..])));
    }
  }

  // --- Rows that would take several lines --------------------------------------------------------

  lemma StripFree(s: string, c: char)
    requires Count(s, c) == 0
    ensures Count(StripReturn(s), c) == 0
  {
    if EndsInReturn(s) {
      assert s == StripReturn(s) + ['\r'];
      CountAppend(StripReturn(s), ['\r'], c);
    }
  }

  /** A row read from one line takes one line. */
  lemma ParsedOneLine(fmt: Format, line: string)
    requires Count(line, '\n') == 0
    ensures OneLine(fmt, ParseLine(fmt, line))
  {
    var parts := Split(line, fmt.delimiter);
    if fmt.delimiter == '\n' {
      SplitNone(line, '\n');
    }
    if '\n' in fmt.marker {
      SplitKeeps(line, fmt.delimiter, '\n');
      NoNullRead(fmt, parts, '\n');
    }
  }

  lemma {:induction false} DecodedOneLine(fmt: Format, raw: seq<string>)
    requires Free(raw, '\n')
    ensures AllOneLine(fmt, DecodeLines(fmt, raw))
  {
    if raw != [] {
      StripFree(raw[0], '\n');
      ParsedOneLine(fmt, StripReturn(raw[0]));
      DecodedOneLine(fmt, raw[1..]);
    }
  }

  /** Any delimiter and marker: encoding rows and decoding the payload gives the rows back
      exactly when each survives. */
  lemma CopyTextExactly(fmt: Format, rows: seq<Row>)
    ensures Decode(fmt, Encode(fmt, rows)) == rows <==> AllSurvive(fmt, rows)
  {
    if AllOneLine(fmt, rows) {
      EncodeSplits(fmt, rows);
      LinesExactly(fmt, rows);
    } else {
      SplitFree(Encode(fmt, rows), '\n');
      DecodedOneLine(fmt, Split(Encode(fmt, rows), '\n'));
    }
  }

  // --- The default marker ---------------------------------------------------------------------------

  function Default(d: char): Format {
    Format(d, DefaultMarker)
  }

  lemma EscapeStarts(s: string)
    ensures Escape(s) != "" && Escape(s)[0] == '\\' ==> |Escape(s)| >= 2 && Escape(s)[1] != 'N' && Escape(s)[1] != '.'
    ensures Escape(s) == "" <==> s == ""
  {
    if s != "" {
      var e := EscapeChar(s[0]);
      assert Escape(s)[0] == e[0];
      if |e| == 2 {
        assert Escape(s)[1] == e[1];
      }
    }
  }

  /** No value is written as the default marker, the end marker or a lone backslash. */
  lemma DefaultField(d: char, f: Field)
    ensures !Clashes(Default(d), f)
    ensures var e := EncodeField(Default(d), f);
            && e != EndMarker && e != "\\" && (e == "" <==> f == Some("")) && (e == "." <==> f == Some("."))
    ensures Count(EncodeField(Default(d), f), '\r') == 0
  {
    FieldBackExactly(Default(d), f);
    CountTwo('\\', 'N', '\r');
    if f.Some? {
      ChainIsEscape(f.value);
      EscapeStarts(f.value);
      NoBreaks(Default(d), f.value);
      assert Escape(".") == EscapeChar('.') + Escape("");
    }
  }

  lemma LineEmpty(d: char, row: Row)
    ensures Line(Default(d), row) == "" <==> row == [] || row == [Some("")]
  {
    if row != [] {
      LineStep(Default(d), row);
      DefaultField(d, row[0]);
      assert |row| == 1 ==> row == [row[0]];
    }
  }

  lemma LineLonger(d: char, row: Row)
    requires |row| >= 2
    ensures Line(Default(d), row) != "" && (d != '.' ==> Line(Default(d), row) != ".")
  {
    LineStep(Default(d), row);
    assert Line(Default(d), row)[|EncodeField(Default(d), row[0])|] == d;
  }

  /** A backslash between an empty field and a dot makes the end marker. */
  lemma LineIsEnd(d: char, row: Row)
    ensures Line(Default(d), row) == EndMarker <==> d == '\\' && row == [Some(""), Some(".")]
  {
    if row != [] {
      LineStep(Default(d), row);
      DefaultField(d, row[0]);
      if |row| > 1 {
        var line, first, rest := Line(Default(d), row), EncodeField(Default(d), row[0]), row[1..];
        assert line[|first|] == d && line[|first| + 1..] == Line(Default(d), rest);
        LineStep(Default(d), rest);
        DefaultField(d, rest[0]);
        if |rest| > 1 {
          LineLonger(d, rest);
        } else {
          assert row == [row[0], rest[0]];
        }
        assert first != "" ==> first[0] == line[0];
        assert |first| == 1 ==> first == [first[0]];
      }
    }
  }

  /** A line ends in a carriage return when that is the delimiter before an empty last field. */
  lemma {:induction false} LineEndsInReturn(d: char, row: Row)
    requires row != []
    ensures EndsInReturn(Line(Default(d), row)) <==> d == '\r' && |row| >= 2 && row[|row| - 1] == Some("")
  {
    LineStep(Default(d), row);
    DefaultField(d, row[0]);
    var first, line := EncodeField(Default(d), row[0]), Line(Default(d), row);
    if |row| == 1 {
      if EndsInReturn(first) {
        CountLast(first);
      }
    } else {
      var rest := row[1..];
      LineEndsInReturn(d, rest);
      LineEmpty(d, rest);
      var more := Line(Default(d), rest);
      assert more != "" ==> line[|line| - 1] == more[|more| - 1];
      assert more == "" ==> line[|line| - 1] == d;
    }
  }

  /** With the default marker: at least one field, not one empty field, no field written with
      the delimiter, and none of the three shapes a delimiter of its own can spoil. */
  lemma DefaultSurvives(d: char, row: Row)
    ensures Survives(Default(d), row) <==>
            && row != [] && row != [Some("")] && Clean(Default(d), row) && (d == '\n' ==> |row| == 1)
            && !(d == '\r' && |row| >= 2 && row[|row| - 1] == Some(""))
            && !(d == '\\' && row == [Some(""), Some(".")])
  {
    if row != [] {
      LineEmpty(d, row);
      LineIsEnd(d, row);
      LineEndsInReturn(d, row);
      forall i | 0 <= i < |row|
        ensures !Clashes(Default(d), row[i])
      {
        DefaultField(d, row[i]);
      }
    }
  }

  /** A tab is always escaped. */
  lemma TabClean(f: Field)
    ensures CleanField(Default('\t'), '\t', f)
  {
  }

  /** With the default tab and marker, any rows of two or more nullable columns. */
  lemma CopyTextRoundTrip(rows: seq<Row>)
    requires forall i :: 0 <= i < |rows| ==> |rows[i]| >= 2
    ensures Decode(Default('\t'), Encode(Default('\t'), rows)) == rows
  {
    forall i | 0 <= i < |rows|
      ensures Survives(Default('\t'), rows[i])
    {
      forall k | 0 <= k < |rows[i]|
        ensures CleanField(Default('\t'), '\t', rows[i][k])
      {
        TabClean(rows[i][k]);
      }
      DefaultSurvives('\t', rows[i]);
    }
    CopyTextExactly(Default('\t'), rows);
  }

  /** The rows do not come back. */
  predicate Loses(fmt: Format, rows: seq<Row>) {
    Decode(fmt, Encode(fmt, rows)) != rows
  }

  lemma LosesOne(fmt: Format, row: Row)
    requires !Survives(fmt, row)
    ensures Loses(fmt, [row])
  {
    CopyTextExactly(fmt, [row]);
    assert !Survives(fmt, [row][0]);
  }

  /** One empty column is lost, another delimiter is not escaped, a backslash makes the end
      marker, and an empty string is read as an empty marker. */
  lemma CopyTextLoses()
    ensures Loses(Default('\t'), [[Some("")]])
    ensures Loses(Default(','), [[Some(","), None]])
    ensures Loses(Default('\\'), [[Some(""), Some(".")]])
    ensures Loses(Format(',', ""), [[Some(""), Some("a")]])
  {
    DefaultSurvives('\t', [Some("")]);
    LosesOne(Default('\t'), [Some("")]);
    var row, field := [Some(","), None], ",";
    assert ',' in EscapeChar(field[0]) && !CleanField(Default(','), ',', row[0]);
    LosesOne(Default(','), row);
    DefaultSurvives('\\', [Some(""), Some(".")]);
    LosesOne(Default('\\'), [Some(""), Some(".")]);
    var empty := [Some(""), Some("a")];
    assert Escape("") == "" && Clashes(Format(',', ""), empty[0]);
    LosesOne(Format(',', ""), empty);
  }
}
