/** COPY in binary format: a signature and header, then each row as a field count and
length-prefixed fields, then a trailer.
*/
module CopyBinary {
  import opened Collections
  import opened Values
  import opened BigEndian

  /** `Other` types travel as text. */
  datatype DataType = BoolType | Int2 | Int4 | Int8 | Other

  /** UTF-8 encoding and lossy decoding. */
  datatype Utf8 = Utf8(encode: string -> seq<Byte>, decode: seq<Byte> -> string)

  /** A text is read back, and cut short by more than one character it is another text. */
  ghost predicate Faithful(u: Utf8) {
    && (forall s :: u.decode(u.encode(s)) == s)
    && (forall s, n: nat :: n + 4 < |u.encode(s)| ==> u.decode(u.encode(s)[..n]) != s)
  }

  /** The cast of any value to an integer; `parse` reads a text. */
  function AsInt(parse: string -> int, v: Value): int {
    match v
    case Null => 0
    case Int(i) => i
    case Bool(b) => if b then 1 else 0
    case Text(s) => parse(s)
  }

  datatype Codec = Codec(utf8: Utf8, parse: string -> int)

  /** `encode_value` in binary format. */
  function EncodeValue(c: Codec, v: Value, dt: DataType): Option<seq<Byte>> {
    if v.Null? then None
    else match dt {
      case BoolType => Some([if v == Bool(true) then 1 else 0])
      case Int2 => Some(Bytes(AsInt(c.parse, v), 2))
      case Int4 => Some(Bytes(AsInt(c.parse, v), 4))
      case Int8 => Some(Bytes(AsInt(c.parse, v), 8))
      case Other => Some(c.utf8.encode(if ToText(v).Some? then ToText(v).value else ""))
    }
  }

  /** `decode_binary_value`; nothing when an integer has the wrong length. */
  function DecodeValue(c: Codec, bs: seq<Byte>, dt: DataType): Option<Value> {
    match dt
    case BoolType => Some(Bool(bs != [] && bs[0] != 0))
    case Int2 => if |bs| == 2 then Some(Int(Signed(bs))) else None
    case Int4 => if |bs| == 4 then Some(Int(Signed(bs))) else None
    case Int8 => if |bs| == 8 then Some(Int(Signed(bs))) else None
    case Other => Some(Text(c.utf8.decode(bs)))
  }

  /** The value is one its column can hold. */
  predicate Fits(v: Value, dt: DataType) {
    v.Null? ||
    match dt
    case BoolType => v.Bool?
    case Int2 => v.Int? && InWidth(v.i, 2)
    case Int4 => v.Int? && InWidth(v.i, 4)
    case Int8 => v.Int? && InWidth(v.i, 8)
    case Other => v.Text?
  }

  /** A value that is not NULL is read back exactly when it fits. */
  lemma ValueBackExactly(c: Codec, v: Value, dt: DataType)
    requires Faithful(c.utf8) && !v.Null?
    ensures DecodeValue(c, EncodeValue(c, v, dt).value, dt) == Some(v) <==> Fits(v, dt)
  {
    if v.Int? {
      SignedBytes(v.i, 2);
      SignedBytes(v.i, 4);
      SignedBytes(v.i, 8);
    }
  }

  // --- Rows ---------------------------------------------------------------------------

  function TypeAt(types: seq<DataType>, i: nat): DataType {
    if i < |types| then types[i] else Other
  }

  function EncodeField(c: Codec, v: Value, dt: DataType): seq<Byte> {
    match EncodeValue(c, v, dt)
    case None => Bytes(-1, 4)
    case Some(bs) => Bytes(|bs|, 4) + bs
  }

  /** The fields from number `k` on. */
  function EncodeFields(c: Codec, row: Row, k: nat, types: seq<DataType>): seq<Byte>
    requires k <= |row|
    decreases |row| - k
  {
    if k == |row| then [] else EncodeField(c, row[k], TypeAt(types, k)) + EncodeFields(c, row, k + 1, types)
  }

  function EncodeRow(c: Codec, row: Row, types: seq<DataType>): seq<Byte> {
    Bytes(|row|, 2) + EncodeFields(c, row, 0, types)
  }

  function EncodeRows(c: Codec, rows: seq<Row>, types: seq<DataType>): seq<Byte> {
    if rows == [] then Bytes(-1, 2) else EncodeRow(c, rows[0], types) + EncodeRows(c, rows[1..], types)
  }

  /** "PGCOPY\n", 0xFF, "\r\n", 0. */
  const Signature: seq<Byte> := [80, 71, 67, 79, 80, 89, 10, 255, 13, 10, 0]

  /** `encode_copy_binary`. */
  function Encode(c: Codec, rows: seq<Row>, types: seq<DataType>): seq<Byte> {
    Signature + (Bytes(0, 4) + (Bytes(0, 4) + EncodeRows(c, rows, types)))
  }

  /** One field read: a failure, or a value and what follows it. */
  datatype Piece<T> = Fail | Read(value: T, rest: seq<Byte>)

  function DecodeField(c: Codec, bs: seq<Byte>, dt: DataType): (r: Piece<Value>)
    ensures r.Read? ==> |r.rest| < |bs|
  {
    if |bs| < 4 then Fail
    else
      var len, rest := Signed(bs[..4]), bs[4..];
      if len == -1 then Read(Null, rest)
      else if len < 0 || |rest| < len then Fail
      else
        match DecodeValue(c, rest[..len], dt)
        case None => Fail
        case Some(v) => Read(v, rest[len..])
  }

  /** Fields `k` to `n`. */
  function DecodeFields(c: Codec, bs: seq<Byte>, k: nat, n: nat, types: seq<DataType>): (r: Piece<Row>)
    requires k <= n
    ensures r.Read? ==> |r.rest| <= |bs|
    decreases n - k
  {
    if k == n then Read([], bs)
    else
      match DecodeField(c, bs, TypeAt(types, k))
      case Fail => Fail
      case Read(v, rest) =>
        Prefixed([v], DecodeFields(c, rest, k + 1, n, types))
  }

  function Prefixed(row: Row, r: Piece<Row>): Piece<Row> {
    if r.Read? then Read(row + r.value, r.rest) else Fail
  }

  function DecodeRows(c: Codec, bs: seq<Byte>, types: seq<DataType>): Option<seq<Row>>
    decreases |bs|
  {
    if |bs| < 2 then None
    else
      var n := Signed(bs[..2]);
      if n == -1 then Some([])
      else if n < 0 then None
      else
        match DecodeFields(c, bs[2..], 0, n, types)
        case Fail => None
        case Read(row, rest) =>
          Following([row], DecodeRows(c, rest, types))
  }

  function Following(rows: seq<Row>, more: Option<seq<Row>>): Option<seq<Row>> {
    if more.Some? then Some(rows + more.value) else None
  }

  /** `decode_copy_binary`. */
  function Decode(c: Codec, bs: seq<Byte>, types: seq<DataType>): Option<seq<Row>> {
    if !(Signature <= bs) || |bs| < |Signature| + 8 then None
    else
      var ext := Signed(bs[|Signature| + 4..|Signature| + 8]);
      var from := |Signature| + 8 + ext;
      if ext < 0 || from > |bs| then None else DecodeRows(c, bs[from..], types)
  }

  // --- The format itself --------------------------------------------------------------------

  function Codes(s: string): seq<int> {
    seq(|s|, i requires 0 <= i < |s| => s[i] as int)
  }

  /** The file starts with the signature, no flags and no extension. */
  lemma HeaderForm(c: Codec, rows: seq<Row>, types: seq<DataType>)
    ensures Encode(c, rows, types) ==
            Codes("PGCOPY\n") + [255] + Codes("\r\n") + [0] + [0, 0, 0, 0] + [0, 0, 0, 0] + EncodeRows(c, rows, types)
  {
    assert Codes("PGCOPY\n") == [80, 71, 67, 79, 80, 89, 10] && Codes("\r\n") == [13, 10];
    ZeroBytes();
    assert Codes("PGCOPY\n") + [255] + Codes("\r\n") + [0] == Signature;
  }

  lemma ZeroBytes()
    ensures Bytes(0, 4) == [0, 0, 0, 0]
  {
    assert Bytes(0, 1) == [0] && Bytes(0, 2) == [0, 0] && Bytes(0, 3) == [0, 0, 0];
  }

  lemma OnesBytes()
    ensures Bytes(-1, 2) == [255, 255] && Bytes(-1, 4) == [255, 255, 255, 255]
  {
    assert (-1) / 256 == -1 && (-1) % 256 == 255;
    assert Bytes(-1, 1) == [255] && Bytes(-1, 2) == [255, 255] && Bytes(-1, 3) == [255, 255, 255];
  }

  /** It ends with a count of minus one. */
  lemma {:induction false} TrailerForm(c: Codec, rows: seq<Row>, types: seq<DataType>)
    ensures var bs := EncodeRows(c, rows, types); |bs| >= 2 && bs[|bs| - 2..] == [255, 255]
    ensures EncodeRows(c, [], types) == [255, 255]
  {
    OnesBytes();
    if rows != [] {
      TrailerForm(c, rows[1..], types);
      var more := EncodeRows(c, rows[1..], types);
      var bs := EncodeRow(c, rows[0], types) + more;
      assert bs[|bs| - 2..] == more[|more| - 2..];
    }
  }

  lemma TwoBytes(n: nat)
    requires n < 0x1_0000
    ensures Bytes(n, 2) == [n / 256, n % 256]
  {
    assert Bytes(n / 256, 1) == Bytes(n / 256 / 256, 0) + [n / 256 % 256];
  }

  /** A boolean is one byte, one or zero; an integer takes the bytes of its column's width, the
      high one first. */
  lemma ValueForm(c: Codec, b: bool, i: int, k: nat)
    ensures EncodeValue(c, Bool(b), BoolType) == Some([if b then 1 else 0])
    ensures forall dt, w :: (dt, w) in {(Int2, 2), (Int4, 4), (Int8, 8)} ==>
              && EncodeValue(c, Int(i), dt).Some? && |EncodeValue(c, Int(i), dt).value| == w
              && (k < w ==> EncodeValue(c, Int(i), dt).value[k] == i / Pow256(w - 1 - k) % 256)
  {
    if k < 2 {
      ByteAt(i, 2, k);
    }
    if k < 4 {
      ByteAt(i, 4, k);
    }
    if k < 8 {
      ByteAt(i, 8, k);
    }
  }

  /** A field is its length in four bytes and its bytes; NULL is the length minus one. */
  lemma FieldForm(c: Codec, v: Value, dt: DataType)
    requires SizedValue(c, v, dt)
    ensures var bs, field := EncodeField(c, v, dt), EncodeValue(c, v, dt);
            && |bs| >= 4 && (v.Null? <==> bs == [255, 255, 255, 255])
            && (field.Some? ==> Unsigned(bs[..4]) == |field.value| && bs[4..] == field.value)
  {
    OnesBytes();
    var field := EncodeValue(c, v, dt);
    if field.Some? {
      var bs, n := EncodeField(c, v, dt), |field.value|;
      assert bs[..4] == Bytes(n, 4) && bs[4..] == field.value;
      UnsignedBytes(n, 4);
      FourBytes();
      UnsignedBytes(-1, 4);
    }
  }

  /** A row is its number of fields in two bytes, then the fields. */
  lemma RowForm(c: Codec, row: Row, types: seq<DataType>)
    requires |row| < 0x8000
    ensures EncodeRow(c, row, types) ==
            [|row| / 256, |row| % 256] + Concat(seq(|row|, k requires 0 <= k < |row| =>
                                                      EncodeField(c, row[k], TypeAt(types, k))))
  {
    TwoBytes(|row|);
    var fields := seq(|row|, k requires 0 <= k < |row| => EncodeField(c, row[k], TypeAt(types, k)));
    FieldsConcat(c, row, types, 0, fields);
    assert fields[0..] == fields;
  }

  function Concat(parts: seq<seq<Byte>>): seq<Byte> {
    if parts == [] then [] else parts[0] + Concat(parts[1..])
  }

  lemma {:induction false} FieldsConcat(c: Codec, row: Row, types: seq<DataType>, k: nat, fields: seq<seq<Byte>>)
    requires k <= |row| == |fields|
    requires forall j :: 0 <= j < |row| ==> fields[j] == EncodeField(c, row[j], TypeAt(types, j))
    ensures EncodeFields(c, row, k, types) == Concat(fields[k..])
    decreases |row| - k
  {
    if k < |row| {
      FieldsConcat(c, row, types, k + 1, fields);
      assert fields[k..][1..] == fields[k + 1..] && fields[k..][0] == fields[k];
    }
  }

  lemma FourBytes()
    ensures Pow256(4) == 0x1_0000_0000
  {
    assert Pow256(1) == 256 && Pow256(2) == 0x1_0000 && Pow256(3) == 0x100_0000;
  }

  // --- Decoding undoes encoding ------------------------------------------------------------

  /** Field lengths fit the wire format's counter. */
  predicate Sized(c: Codec, row: Row, types: seq<DataType>) {
    forall k :: 0 <= k < |row| ==> SizedValue(c, row[k], TypeAt(types, k))
  }

  predicate SizedValue(c: Codec, v: Value, dt: DataType) {
    var bs := EncodeValue(c, v, dt);
    bs.Some? ==> |bs.value| < 0x8000_0000
  }

  lemma CountBack(v: int, n: nat, rest: seq<Byte>)
    requires n > 0 && InWidth(v, n)
    ensures var bs := Bytes(v, n) + rest; bs[..n] == Bytes(v, n) && bs[n..] == rest && Signed(bs[..n]) == v
  {
    SignedBytes(v, n);
    assert (Bytes(v, n) + rest)[..n] == Bytes(v, n);
  }

  /** What a value comes back as. */
  function Back(c: Codec, v: Value, dt: DataType): Value {
    if v.Null? then Null
    else
      var r := DecodeValue(c, EncodeValue(c, v, dt).value, dt);
      if r.Some? then r.value else Null
  }

  lemma FieldBack(c: Codec, v: Value, dt: DataType, rest: seq<Byte>)
    requires SizedValue(c, v, dt)
    ensures DecodeField(c, EncodeField(c, v, dt) + rest, dt) == Read(Back(c, v, dt), rest)
  {
    Powers();
    match EncodeValue(c, v, dt)
    case None => CountBack(-1, 4, rest);
    case Some(bs) =>
      CountBack(|bs|, 4, bs + rest);
      assert Bytes(|bs|, 4) + bs + rest == Bytes(|bs|, 4) + (bs + rest);
      assert (bs + rest)[..|bs|] == bs && (bs + rest)[|bs|..] == rest;
  }

  lemma BackExactly(c: Codec, v: Value, dt: DataType)
    requires Faithful(c.utf8)
    ensures Back(c, v, dt) == v <==> Fits(v, dt)
  {
    if !v.Null? {
      ValueBackExactly(c, v, dt);
    }
  }

  function BackFrom(c: Codec, row: Row, k: nat, types: seq<DataType>): Row
    requires k <= |row|
    decreases |row| - k
  {
    if k == |row| then [] else [Back(c, row[k], TypeAt(types, k))] + BackFrom(c, row, k + 1, types)
  }

  lemma {:induction false} FieldsBack(c: Codec, row: Row, k: nat, types: seq<DataType>, rest: seq<Byte>)
    requires k <= |row| && Sized(c, row, types)
    ensures DecodeFields(c, EncodeFields(c, row, k, types) + rest, k, |row|, types) ==
            Read(BackFrom(c, row, k, types), rest)
    decreases |row| - k
  {
    if k == |row| {
      assert [] + rest == rest;
    } else {
      var field, more := EncodeField(c, row[k], TypeAt(types, k)), EncodeFields(c, row, k + 1, types);
      assert field + more + rest == field + (more + rest);
      FieldBack(c, row[k], TypeAt(types, k), more + rest);
      FieldsBack(c, row, k + 1, types, rest);
    }
  }

  /** The field count fits its two bytes. */
  predicate Narrow(row: Row) {
    |row| < 0x8000
  }

  lemma RowBack(c: Codec, row: Row, types: seq<DataType>, rest: seq<Byte>)
    requires Sized(c, row, types) && Narrow(row)
    ensures var bs := EncodeRow(c, row, types) + rest;
            && |bs| >= 2 && Signed(bs[..2]) == |row|
            && DecodeFields(c, bs[2..], 0, |row|, types) == Read(BackFrom(c, row, 0, types), rest)
  {
    CountedRow(c, row, rest, types);
    FieldsBack(c, row, 0, types, rest);
  }

  ghost predicate AllSized(c: Codec, rows: seq<Row>, types: seq<DataType>) {
    forall i :: 0 <= i < |rows| ==> Sized(c, rows[i], types)
  }

  // --- Exactly which rows come back -----------------------------------------------------------

  /** The value fits its column and its length fits the counter. */
  predicate Carried(c: Codec, v: Value, dt: DataType) {
    Fits(v, dt) && SizedValue(c, v, dt)
  }

  /** What was written is read, or, when it cannot be, something else or nothing. */
  ghost predicate Gives<T>(r: Piece<T>, v: T, rest: seq<Byte>, ok: bool) {
    if ok then r == Read(v, rest) else r.Read? ==> r.value != v
  }

  lemma WrappedLength(n: nat)
    requires n >= 0x8000_0000
    ensures Signed(Bytes(n, 4)) >= 0 ==> Signed(Bytes(n, 4)) + 0x1_0000_0000 <= n
  {
    Powers();
    SignedBytes(n, 4);
    UnsignedBytes(n, 4);
    assert n == n / 0x1_0000_0000 * 0x1_0000_0000 + n % 0x1_0000_0000;
  }

  /** A field after its four length bytes. */
  lemma FieldAfterLength(c: Codec, head: seq<Byte>, body: seq<Byte>, len: int)
    requires |head| == 4 && len == Signed(head)
    ensures var r := DecodeField(c, head + body, Other);
            r.Read? ==> r.value.Null? || (0 <= len <= |body| && r.value == Text(c.utf8.decode(body[..len])))
  {
    assert (head + body)[..4] == head && (head + body)[4..] == body;
  }

  lemma OversizedField(c: Codec, v: Value, dt: DataType, rest: seq<Byte>)
    requires Faithful(c.utf8) && !SizedValue(c, v, dt)
    ensures Gives(DecodeField(c, EncodeField(c, v, dt) + rest, dt), v, rest, false)
  {
    var text := if ToText(v).Some? then ToText(v).value else "";
    var bs := c.utf8.encode(text);
    assert dt == Other && EncodeValue(c, v, dt) == Some(bs);
    var head, len := Bytes(|bs|, 4), Signed(Bytes(|bs|, 4));
    assert head + bs + rest == head + (bs + rest);
    FieldAfterLength(c, head, bs + rest, len);
    WrappedLength(|bs|);
    if 0 <= len <= |bs + rest| {
      assert (bs + rest)[..len] == bs[..len];
    }
  }

  lemma FieldExactly(c: Codec, v: Value, dt: DataType, rest: seq<Byte>)
    requires Faithful(c.utf8)
    ensures Gives(DecodeField(c, EncodeField(c, v, dt) + rest, dt), v, rest, Carried(c, v, dt))
  {
    if SizedValue(c, v, dt) {
      FieldBack(c, v, dt, rest);
      BackExactly(c, v, dt);
    } else {
      OversizedField(c, v, dt, rest);
    }
  }

  predicate CarriedFrom(c: Codec, row: Row, k: nat, types: seq<DataType>) {
    forall j :: k <= j < |row| ==> Carried(c, row[j], TypeAt(types, j))
  }

  lemma CarriedStep(c: Codec, row: Row, k: nat, types: seq<DataType>)
    requires k < |row|
    ensures row[k..] == [row[k]] + row[k + 1..]
    ensures CarriedFrom(c, row, k, types) <==>
            Carried(c, row[k], TypeAt(types, k)) && CarriedFrom(c, row, k + 1, types)
  {
  }

  lemma FieldsUnfold(c: Codec, row: Row, k: nat, types: seq<DataType>, rest: seq<Byte>)
    requires k < |row|
    ensures EncodeFields(c, row, k, types) + rest ==
            EncodeField(c, row[k], TypeAt(types, k)) + (EncodeFields(c, row, k + 1, types) + rest)
  {
  }

  lemma {:induction false} FieldsExactly(c: Codec, row: Row, k: nat, types: seq<DataType>, rest: seq<Byte>)
    requires Faithful(c.utf8) && k <= |row|
    ensures Gives(DecodeFields(c, EncodeFields(c, row, k, types) + rest, k, |row|, types), row[k..], rest,
                  CarriedFrom(c, row, k, types))
    decreases |row| - k
  {
    if k == |row| {
      assert [] + rest == rest;
    } else {
      var dt, more := TypeAt(types, k), EncodeFields(c, row, k + 1, types);
      var field := EncodeField(c, row[k], dt);
      FieldsUnfold(c, row, k, types, rest);
      FieldExactly(c, row[k], dt, more + rest);
      FieldsExactly(c, row, k + 1, types, rest);
      var first := DecodeField(c, field + (more + rest), dt);
      CarriedStep(c, row, k, types);
      if first.Read? {
        var others := DecodeFields(c, first.rest, k + 1, |row|, types);
        PrefixedGives(first, row[k], more + rest, Carried(c, row[k], dt),
                      others, row[k + 1..], rest, CarriedFrom(c, row, k + 1, types));
      }
    }
  }

  /** A first field and the others. */
  lemma PrefixedGives(first: Piece<Value>, v: Value, next: seq<Byte>, ok: bool,
                      more: Piece<Row>, tail: Row, rest: seq<Byte>, okMore: bool)
    requires first.Read? && Gives(first, v, next, ok) && (ok ==> Gives(more, tail, rest, okMore))
    ensures Gives(Prefixed([first.value], more), [v] + tail, rest, ok && okMore)
  {
    if more.Read? {
      var row := [first.value] + more.value;
      assert row[0] == first.value && row[1..] == more.value;
      assert ([v] + tail)[0] == v && ([v] + tail)[1..] == tail;
    }
  }

  /** Few enough fields, and each carried. */
  predicate RowFits(c: Codec, row: Row, types: seq<DataType>) {
    Narrow(row) && CarriedFrom(c, row, 0, types)
  }

  predicate AllFit(c: Codec, rows: seq<Row>, types: seq<DataType>) {
    forall i :: 0 <= i < |rows| ==> RowFits(c, rows[i], types)
  }

  lemma FitCons(c: Codec, rows: seq<Row>, types: seq<DataType>)
    requires rows != []
    ensures AllFit(c, rows, types) <==> RowFits(c, rows[0], types) && AllFit(c, rows[1..], types)
  {
    assert forall i :: 0 < i < |rows| ==> rows[i] == rows[1..][i - 1];
    assert forall i :: 0 <= i < |rows[1..]| ==> rows[1..][i] == rows[i + 1];
  }

  lemma {:induction false} FieldsLength(c: Codec, bs: seq<Byte>, k: nat, n: nat, types: seq<DataType>)
    requires k <= n
    ensures var r := DecodeFields(c, bs, k, n, types); r.Read? ==> |r.value| == n - k
    decreases n - k
  {
    if k < n {
      var r := DecodeField(c, bs, TypeAt(types, k));
      if r.Read? {
        FieldsLength(c, r.rest, k + 1, n, types);
      }
    }
  }

  /** A row too wide for its count is not what is read. */
  lemma WideRow(c: Codec, row: Row, more: seq<Byte>, types: seq<DataType>)
    requires !Narrow(row)
    ensures var r := DecodeRows(c, EncodeRow(c, row, types) + more, types);
            r.Some? && r.value != [] ==> r.value[0] != row
  {
    Powers();
    SignedBytes(|row|, 2);
    var bs := EncodeRow(c, row, types) + more;
    assert bs[..2] == Bytes(|row|, 2);
    var n := Signed(bs[..2]);
    if n >= 0 {
      FieldsLength(c, bs[2..], 0, n, types);
      DecodeRowsStep(c, bs, types);
    }
  }

  lemma NarrowRow(c: Codec, row: Row, more: seq<Byte>, types: seq<DataType>)
    requires Sized(c, row, types) && Narrow(row)
    ensures DecodeRows(c, EncodeRow(c, row, types) + more, types) ==
            Following([BackFrom(c, row, 0, types)], DecodeRows(c, more, types))
  {
    RowBack(c, row, types, more);
    DecodeRowsStep(c, EncodeRow(c, row, types) + more, types);
  }

  lemma CountedRow(c: Codec, row: Row, more: seq<Byte>, types: seq<DataType>)
    requires Narrow(row)
    ensures var bs := EncodeRow(c, row, types) + more;
            |bs| >= 2 && Signed(bs[..2]) == |row| && bs[2..] == EncodeFields(c, row, 0, types) + more
  {
    Powers();
    var fields := EncodeFields(c, row, 0, types);
    CountBack(|row|, 2, fields + more);
    assert Bytes(|row|, 2) + fields + more == Bytes(|row|, 2) + (fields + more);
  }

  lemma GivesRow(r: Piece<Row>, row: Row, more: seq<Byte>, ok: bool, c: Codec, types: seq<DataType>)
    requires Gives(r, row, more, ok)
    ensures ok ==> r == Read(row, more)
    ensures !ok && r.Read? ==>
              var rows := Following([r.value], DecodeRows(c, r.rest, types)); rows.Some? ==> rows.value[0] != row
  {
  }

  lemma RowExactly(c: Codec, row: Row, more: seq<Byte>, types: seq<DataType>)
    requires Faithful(c.utf8)
    ensures var r := DecodeRows(c, EncodeRow(c, row, types) + more, types);
            if RowFits(c, row, types) then r == Following([row], DecodeRows(c, more, types))
            else r.Some? && r.value != [] ==> r.value[0] != row
  {
    if Narrow(row) {
      var bs, fields := EncodeRow(c, row, types) + more, EncodeFields(c, row, 0, types) + more;
      CountedRow(c, row, more, types);
      FieldsExactly(c, row, 0, types, more);
      assert row[0..] == row;
      DecodeRowsStep(c, bs, types);
      GivesRow(DecodeFields(c, fields, 0, |row|, types), row, more, CarriedFrom(c, row, 0, types), c, types);
    } else {
      WideRow(c, row, more, types);
    }
  }

  lemma FollowingIs(row: Row, more: Option<seq<Row>>, rows: seq<Row>)
    requires rows != []
    ensures Following([row], more) == Some(rows) <==> row == rows[0] && more == Some(rows[1..])
  {
    assert rows == [rows[0]] + rows[1..];
    if more.Some? {
      assert ([row] + more.value)[1..] == more.value;
    }
  }

  lemma {:induction false} RowsBackExactly(c: Codec, rows: seq<Row>, types: seq<DataType>)
    requires Faithful(c.utf8)
    ensures DecodeRows(c, EncodeRows(c, rows, types), types) == Some(rows) <==> AllFit(c, rows, types)
  {
    if rows == [] {
      Powers();
      CountBack(-1, 2, []);
      assert Bytes(-1, 2) + [] == Bytes(-1, 2);
    } else {
      var more := EncodeRows(c, rows[1..], types);
      FitCons(c, rows, types);
      RowExactly(c, rows[0], more, types);
      RowsBackExactly(c, rows[1..], types);
      FollowingIs(rows[0], DecodeRows(c, more, types), rows);
    }
  }

  /** What the rows come back as. */
  function BackRows(c: Codec, rows: seq<Row>, types: seq<DataType>): seq<Row> {
    if rows == [] then [] else [BackFrom(c, rows[0], 0, types)] + BackRows(c, rows[1..], types)
  }

  predicate AllNarrow(rows: seq<Row>) {
    forall i :: 0 <= i < |rows| ==> Narrow(rows[i])
  }

  lemma {:induction false} RowsBack(c: Codec, rows: seq<Row>, types: seq<DataType>)
    requires AllSized(c, rows, types) && AllNarrow(rows)
    ensures DecodeRows(c, EncodeRows(c, rows, types), types) == Some(BackRows(c, rows, types))
  {
    if rows == [] {
      Powers();
      CountBack(-1, 2, []);
      assert Bytes(-1, 2) + [] == Bytes(-1, 2);
    } else {
      NarrowRow(c, rows[0], EncodeRows(c, rows[1..], types), types);
      RowsBack(c, rows[1..], types);
    }
  }

  /** Rows of fewer than 32768 fields, each under 2 GiB, are always decoded, each value as it
      comes back. Any rows come back as they were exactly when they are such rows and every
      value fits its column. */
  lemma CopyBinaryExactly(c: Codec, rows: seq<Row>, types: seq<DataType>)
    requires Faithful(c.utf8)
    ensures AllNarrow(rows) && AllSized(c, rows, types) ==>
              Decode(c, Encode(c, rows, types), types) == Some(BackRows(c, rows, types))
    ensures Decode(c, Encode(c, rows, types), types) == Some(rows) <==> AllFit(c, rows, types)
  {
    BodyDecoded(c, rows, types);
    if AllNarrow(rows) && AllSized(c, rows, types) {
      RowsBack(c, rows, types);
    }
    RowsBackExactly(c, rows, types);
  }

  lemma BodyDecoded(c: Codec, rows: seq<Row>, types: seq<DataType>)
    ensures Decode(c, Encode(c, rows, types), types) == DecodeRows(c, EncodeRows(c, rows, types), types)
  {
    HeaderBack(EncodeRows(c, rows, types));
  }

  /** A boolean in an integer column comes back as one or zero. */
  lemma BoolComesBack(c: Codec, b: bool, dt: DataType)
    requires dt == Int2 || dt == Int4 || dt == Int8
    ensures Back(c, Bool(b), dt) == Int(if b then 1 else 0)
  {
    var i := if b then 1 else 0;
    Powers();
    SignedBytes(i, 2);
    SignedBytes(i, 4);
    SignedBytes(i, 8);
  }

  lemma MisfitValue(c: Codec)
    ensures Back(c, Int(70000), Int2) == Int(4464)
  {
    Powers();
    UnsignedBytes(70000, 2);
  }

  /** 70000 in a two-byte column comes back as 4464. */
  lemma MisfitComesBack(c: Codec)
    requires Faithful(c.utf8)
    ensures Decode(c, Encode(c, [[Int(70000)]], [Int2]), [Int2]) == Some([[Int(4464)]])
  {
    CopyBinaryExactly(c, [[Int(70000)]], [Int2]);
    MisfitValue(c);
    OneCell(c, Int(70000), Int2);
  }

  lemma OneCell(c: Codec, v: Value, dt: DataType)
    ensures BackRows(c, [[v]], [dt]) == [[Back(c, v, dt)]]
  {
    assert BackFrom(c, [v], 0, [dt]) == [Back(c, v, dt)] + BackFrom(c, [v], 1, [dt]);
    assert BackFrom(c, [v], 0, [dt]) == [Back(c, v, dt)];
    assert [[v]][1..] == [] && BackRows(c, [], [dt]) == [];
    assert BackRows(c, [[v]], [dt]) == [BackFrom(c, [v], 0, [dt])] + [];
  }

  lemma HeaderBack(body: seq<Byte>)
    ensures var bs := Signature + (Bytes(0, 4) + (Bytes(0, 4) + body));
            && Signature <= bs && |bs| == |Signature| + 8 + |body|
            && Signed(bs[|Signature| + 4..|Signature| + 8]) == 0 && bs[|Signature| + 8..] == body
  {
    var bs := Signature + (Bytes(0, 4) + (Bytes(0, 4) + body));
    Powers();
    SignedBytes(0, 4);
    assert bs[|Signature| + 4..|Signature| + 8] == Bytes(0, 4);
  }

  // --- The decoder as loops --------------------------------------------------------------------

  /** One field at a position; nothing when the bytes run out or do not decode. */
  method DecodeFieldAt(c: Codec, buf: seq<Byte>, from: nat, dt: DataType) returns (v: Option<Value>, pos: nat)
    requires from <= |buf|
    ensures from <= pos <= |buf|
    ensures v.Some? ==> DecodeField(c, buf[from..], dt) == Read(v.value, buf[pos..])
    ensures v.None? ==> DecodeField(c, buf[from..], dt).Fail?
  {
    if from + 4 > |buf| {
      return None, from;
    }
    SuffixDrop(buf, from, 4);
    var len := Signed(buf[from..from + 4]);
    pos := from + 4;
    if len == -1 {
      return Some(Null), pos;
    }
    if len < 0 || pos + len > |buf| {
      return None, pos;
    }
    SuffixDrop(buf, pos, len);
    v := DecodeValue(c, buf[pos..pos + len], dt);
    pos := pos + len;
  }

  lemma PrefixedStep(row: Row, v: Value, more: Piece<Row>)
    ensures Prefixed(row, Prefixed([v], more)) == Prefixed(row + [v], more)
  {
    if more.Read? {
      assert row + ([v] + more.value) == row + [v] + more.value;
    }
  }

  lemma PrefixedNone(r: Piece<Row>)
    ensures Prefixed([], r) == r
  {
    if r.Read? {
      assert [] + r.value == r.value;
    }
  }

  /** One row after its field count. */
  method DecodeRowAt(c: Codec, buf: seq<Byte>, from: nat, n: nat, types: seq<DataType>)
    returns (row: Option<Row>, pos: nat)
    requires from <= |buf|
    ensures from <= pos <= |buf|
    ensures row.Some? ==> DecodeFields(c, buf[from..], 0, n, types) == Read(row.value, buf[pos..])
    ensures row.None? ==> DecodeFields(c, buf[from..], 0, n, types).Fail?
  {
    var fields: Row := [];
    pos := from;
    ghost var all := DecodeFields(c, buf[from..], 0, n, types);
    PrefixedNone(all);
    for i := 0 to n
      invariant from <= pos <= |buf| && Prefixed(fields, DecodeFields(c, buf[pos..], i, n, types)) == all
    {
      var v, next := DecodeFieldAt(c, buf, pos, TypeAt(types, i));
      if v.None? {
        return None, pos;
      }
      PrefixedStep(fields, v.value, DecodeFields(c, buf[next..], i + 1, n, types));
      fields, pos := fields + [v.value], next;
    }
    assert fields + [] == fields;
    return Some(fields), pos;
  }

  lemma FollowingStep(rows: seq<Row>, row: Row, more: Option<seq<Row>>)
    ensures Following(rows, Following([row], more)) == Following(rows + [row], more)
  {
    if more.Some? {
      assert rows + ([row] + more.value) == rows + [row] + more.value;
    }
  }

  lemma FollowingNone(r: Option<seq<Row>>)
    ensures Following([], r) == r
  {
    if r.Some? {
      assert [] + r.value == r.value;
    }
  }

  lemma DecodeRowsStep(c: Codec, bs: seq<Byte>, types: seq<DataType>)
    requires |bs| >= 2 && Signed(bs[..2]) >= 0
    ensures var r := DecodeFields(c, bs[2..], 0, Signed(bs[..2]), types);
            DecodeRows(c, bs, types) == if r.Fail? then None else Following([r.value], DecodeRows(c, r.rest, types))
  {
  }

  method DecodeRowsAt(c: Codec, buf: seq<Byte>, from: nat, types: seq<DataType>) returns (out: Option<seq<Row>>)
    requires from <= |buf|
    ensures out == DecodeRows(c, buf[from..], types)
  {
    var rows: seq<Row> := [];
    var pos := from;
    ghost var all := DecodeRows(c, buf[from..], types);
    FollowingNone(all);
    while pos + 2 <= |buf|
      invariant from <= pos <= |buf| && Following(rows, DecodeRows(c, buf[pos..], types)) == all
      decreases |buf| - pos
    {
      SuffixDrop(buf, pos, 2);
      var n := Signed(buf[pos..pos + 2]);
      if n == -1 {
        assert rows + [] == rows;
        return Some(rows);
      }
      if n < 0 {
        return None;
      }
      DecodeRowsStep(c, buf[pos..], types);
      var row, next := DecodeRowAt(c, buf, pos + 2, n, types);
      if row.None? {
        return None;
      }
      FollowingStep(rows, row.value, DecodeRows(c, buf[next..], types));
      rows, pos := rows + [row.value], next;
    }
    return None;
  }

  /** `decode_copy_binary`. */
  method DecodeCopyBinary(c: Codec, buf: seq<Byte>, types: seq<DataType>) returns (out: Option<seq<Row>>)
    ensures out == Decode(c, buf, types)
  {
    if |buf| < |Signature| || buf[..|Signature|] != Signature {
      return None;
    }
    var pos := |Signature|;
    if |buf| < pos + 8 {
      return None;
    }
    var ext := Signed(buf[pos + 4..pos + 8]);
    pos := pos + 8;
    if ext < 0 || pos + ext > |buf| {
      return None;
    }
    out := DecodeRowsAt(c, buf, pos + ext, types);
  }
}
