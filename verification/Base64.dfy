/** Base64 with padding (section 4 of RFC 4648). */
module Base64 {
  import opened Collections
  import opened BigEndian
  import opened Splitting

  // --- The alphabet ------------------------------------------------------------------

  function DigitOf(v: nat): (c: char)
    requires v < 64
    ensures !Ignored(c) && c != ','
  {
    if v < 26 then ('A' as int + v) as char
    else if v < 52 then ('a' as int + v - 26) as char
    else if v < 62 then ('0' as int + v - 52) as char
    else if v == 62 then '+' else '/'
  }

  function ValueOf(c: char): (v: Option<nat>)
    ensures v.Some? ==> v.value < 64 && DigitOf(v.value) == c
  {
    if 'A' <= c <= 'Z' then Some(c as int - 'A' as int)
    else if 'a' <= c <= 'z' then Some(c as int - 'a' as int + 26)
    else if '0' <= c <= '9' then Some(c as int - '0' as int + 52)
    else if c == '+' then Some(62) else if c == '/' then Some(63) else None
  }

  lemma DigitBack(v: nat)
    requires v < 64
    ensures ValueOf(DigitOf(v)) == Some(v)
  {
  }

  /** Padding and white space are skipped when decoding. */
  predicate Ignored(c: char) {
    c == '=' || c == ' ' || c == '\t' || c == '\n' || c == '\r' || c as int == 12
  }

  // --- Encoding ----------------------------------------------------------------------

  /** Up to three bytes as one number. */
  function Word(chunk: seq<Byte>): (n: nat)
    requires 1 <= |chunk| <= 3
    ensures n < 0x100_0000
  {
    var b0: int, b1: int, b2: int :=
      chunk[0], if |chunk| > 1 then chunk[1] else 0, if |chunk| > 2 then chunk[2] else 0;
    b0 * 0x1_0000 + b1 * 0x100 + b2
  }

  /** The digits of a chunk, without padding. */
  function DigitsOf(chunk: seq<Byte>): (s: string)
    requires 1 <= |chunk| <= 3
    ensures |s| == |chunk| + 1 && forall i :: 0 <= i < |s| ==> !Ignored(s[i]) && s[i] != ','
  {
    var n := Word(chunk);
    [DigitOf(n / 0x4_0000 % 64), DigitOf(n / 0x1000 % 64)]
    + (if |chunk| > 1 then [DigitOf(n / 64 % 64)] else [])
    + (if |chunk| > 2 then [DigitOf(n % 64)] else [])
  }

  function Padding(chunk: seq<Byte>): string {
    if |chunk| == 1 then "==" else if |chunk| == 2 then "=" else ""
  }

  function Encode(data: seq<Byte>): string {
    if data == [] then ""
    else
      var k := if |data| < 3 then |data| else 3;
      DigitsOf(data[..k]) + Padding(data[..k]) + Encode(data[k..])
  }

  // --- Decoding ----------------------------------------------------------------------

  function Filter(s: string): string {
    if s == "" then "" else (if Ignored(s[0]) then "" else [s[0]]) + Filter(s[1..])
  }

  /** Digits accumulated from the top of a 24-bit number; nothing on a bad character. */
  function Gather(chunk: string, i: nat): Option<nat>
    decreases |chunk|
  {
    if chunk == "" then Some(0)
    else
      var v, more := ValueOf(chunk[0]), Gather(chunk[1..], i + 1);
      if v.Some? && more.Some? then Some(Shifted(v.value, i) + more.value) else None
  }

  /** Digit number `i` of a chunk in its place. */
  function Shifted(v: nat, i: nat): nat {
    if i == 0 then v * 0x4_0000 else if i == 1 then v * 0x1000 else if i == 2 then v * 64 else v
  }

  /** The bytes a chunk of that many digits stands for. */
  function BytesOf(n: nat, digits: nat): seq<Byte> {
    [n / 0x1_0000 % 256]
    + (if digits > 2 then [n / 0x100 % 256] else [])
    + (if digits > 3 then [n % 256] else [])
  }

  function DecodeDigits(s: string): Option<seq<Byte>>
    decreases |s|
  {
    if s == "" then Some([])
    else
      var k := if |s| < 4 then |s| else 4;
      var n, more := Gather(s[..k], 0), DecodeDigits(s[k..]);
      if n.Some? && more.Some? then Some(BytesOf(n.value, k) + more.value) else None
  }

  function Decode(s: string): Option<seq<Byte>> {
    DecodeDigits(Filter(s))
  }

  // --- Decoding undoes encoding --------------------------------------------------------

  lemma {:induction false} FilterAppend(a: string, b: string)
    ensures Filter(a + b) == Filter(a) + Filter(b)
  {
    if a == "" {
      assert a + b == b;
    } else {
      assert (a + b)[1..] == a[1..] + b;
      FilterAppend(a[1..], b);
    }
  }

  lemma {:induction false} FilterKeeps(s: string)
    requires forall i :: 0 <= i < |s| ==> !Ignored(s[i])
    ensures Filter(s) == s
  {
    if s != "" {
      FilterKeeps(s[1..]);
      assert [s[0]] + s[1..] == s;
    }
  }

  lemma FilterPadding(chunk: seq<Byte>)
    ensures Filter(Padding(chunk)) == ""
  {
    assert "="[1..] == "" && "=="[1..] == "=";
    assert Filter("=") == "";
  }

  lemma FilterChunk(chunk: seq<Byte>, rest: string)
    requires 1 <= |chunk| <= 3
    ensures Filter(DigitsOf(chunk) + Padding(chunk) + rest) == DigitsOf(chunk) + Filter(rest)
  {
    var digits, padding := DigitsOf(chunk), Padding(chunk);
    FilterAppend(digits + padding, rest);
    FilterAppend(digits, padding);
    FilterKeeps(digits);
    FilterPadding(chunk);
    assert digits + "" == digits;
  }

  /** All digits, without padding. */
  function Unpadded(data: seq<Byte>): string {
    if data == [] then ""
    else
      var k := if |data| < 3 then |data| else 3;
      DigitsOf(data[..k]) + Unpadded(data[k..])
  }

  lemma {:induction false} FilterEncode(data: seq<Byte>)
    ensures Filter(Encode(data)) == Unpadded(data)
    decreases |data|
  {
    if data != [] {
      var k := if |data| < 3 then |data| else 3;
      FilterChunk(data[..k], Encode(data[k..]));
      FilterEncode(data[k..]);
    }
  }

  lemma Gather2(a: char, b: char)
    requires ValueOf(a).Some? && ValueOf(b).Some?
    ensures Gather([a, b], 0) == Some(ValueOf(a).value * 0x4_0000 + ValueOf(b).value * 0x1000)
  {
    assert [a, b][1..] == [b] && [b][1..] == "";
    assert Gather([b], 1) == Some(ValueOf(b).value * 0x1000 + 0);
  }

  lemma Gather3(a: char, b: char, c: char)
    requires ValueOf(a).Some? && ValueOf(b).Some? && ValueOf(c).Some?
    ensures Gather([a, b, c], 0) ==
            Some(ValueOf(a).value * 0x4_0000 + ValueOf(b).value * 0x1000 + ValueOf(c).value * 64)
  {
    assert [a, b, c][1..] == [b, c] && [b, c][1..] == [c] && [c][1..] == "";
    assert Gather([c], 2) == Some(ValueOf(c).value * 64 + 0);
    assert Gather([b, c], 1) == Some(ValueOf(b).value * 0x1000 + ValueOf(c).value * 64);
  }

  lemma Gather4(a: char, b: char, c: char, d: char)
    requires ValueOf(a).Some? && ValueOf(b).Some? && ValueOf(c).Some? && ValueOf(d).Some?
    ensures Gather([a, b, c, d], 0) ==
            Some(ValueOf(a).value * 0x4_0000 + ValueOf(b).value * 0x1000 + ValueOf(c).value * 64 + ValueOf(d).value)
  {
    assert [a, b, c, d][1..] == [b, c, d] && [b, c, d][1..] == [c, d] && [c, d][1..] == [d] && [d][1..] == "";
    assert Gather([d], 3) == Some(ValueOf(d).value + 0);
    assert Gather([c, d], 2) == Some(ValueOf(c).value * 64 + ValueOf(d).value);
    assert Gather([b, c, d], 1) == Some(ValueOf(b).value * 0x1000 + ValueOf(c).value * 64 + ValueOf(d).value);
  }

  /** Four digits of base 64 make up a 24-bit number. */
  lemma FourDigits(n: nat)
    requires n < 0x100_0000
    ensures n / 0x4_0000 % 64 * 0x4_0000 + n / 0x1000 % 64 * 0x1000 + n / 64 % 64 * 64 + n % 64 == n
  {
    var p, q, r := n / 64, n / 0x1000, n / 0x4_0000;
    assert n == 64 * p + n % 64;
    assert p == 64 * q + p % 64;
    assert q == 64 * r + q % 64;
    assert r % 64 == r;
  }

  /** Three bytes make one up too. */
  lemma ThreeBytes(b0: int, b1: int, b2: int)
    requires 0 <= b0 < 256 && 0 <= b1 < 256 && 0 <= b2 < 256
    ensures var n := b0 * 0x1_0000 + b1 * 0x100 + b2;
            && n / 0x1_0000 % 256 == b0 && n / 0x100 % 256 == b1 && n % 256 == b2
            && (b2 == 0 ==> n % 64 == 0) && (b1 == b2 == 0 ==> n / 64 % 64 == 0)
  {
    var n := b0 * 0x1_0000 + b1 * 0x100 + b2;
    assert n / 0x100 == b0 * 0x100 + b1;
    assert n / 0x1_0000 == b0;
  }

  /** The number a chunk's digits give back, and the bytes in it. */
  lemma ChunkBack(chunk: seq<Byte>)
    requires 1 <= |chunk| <= 3
    ensures var n := Gather(DigitsOf(chunk), 0);
            n.Some? && BytesOf(n.value, |chunk| + 1) == chunk
  {
    if |chunk| == 1 {
      ChunkBack1(chunk);
    } else if |chunk| == 2 {
      ChunkBack2(chunk);
    } else {
      ChunkBack3(chunk);
    }
  }

  lemma ChunkBack1(chunk: seq<Byte>)
    requires |chunk| == 1
    ensures var n := Gather(DigitsOf(chunk), 0); n.Some? && BytesOf(n.value, 2) == chunk
  {
    var n := Word(chunk);
    var a, b := n / 0x4_0000 % 64, n / 0x1000 % 64;
    FourDigits(n);
    ThreeBytes(chunk[0], 0, 0);
    DigitBack(a);
    DigitBack(b);
    Gather2(DigitOf(a), DigitOf(b));
    assert DigitsOf(chunk) == [DigitOf(a), DigitOf(b)];
  }

  lemma ChunkBack2(chunk: seq<Byte>)
    requires |chunk| == 2
    ensures var n := Gather(DigitsOf(chunk), 0); n.Some? && BytesOf(n.value, 3) == chunk
  {
    var n := Word(chunk);
    var a, b, c := n / 0x4_0000 % 64, n / 0x1000 % 64, n / 64 % 64;
    FourDigits(n);
    ThreeBytes(chunk[0], chunk[1], 0);
    DigitBack(a);
    DigitBack(b);
    DigitBack(c);
    Gather3(DigitOf(a), DigitOf(b), DigitOf(c));
    assert DigitsOf(chunk) == [DigitOf(a), DigitOf(b), DigitOf(c)];
  }

  lemma ChunkBack3(chunk: seq<Byte>)
    requires |chunk| == 3
    ensures var n := Gather(DigitsOf(chunk), 0); n.Some? && BytesOf(n.value, 4) == chunk
  {
    var n := Word(chunk);
    var a, b, c, d := n / 0x4_0000 % 64, n / 0x1000 % 64, n / 64 % 64, n % 64;
    FourDigits(n);
    ThreeBytes(chunk[0], chunk[1], chunk[2]);
    DigitBack(a);
    DigitBack(b);
    DigitBack(c);
    DigitBack(d);
    Gather4(DigitOf(a), DigitOf(b), DigitOf(c), DigitOf(d));
    assert DigitsOf(chunk) == [DigitOf(a), DigitOf(b), DigitOf(c), DigitOf(d)];
  }

  function After(bytes: seq<Byte>, more: Option<seq<Byte>>): Option<seq<Byte>> {
    if more.Some? then Some(bytes + more.value) else None
  }

  function ChunkLength(left: nat): nat {
    if left < 4 then left else 4
  }

  lemma DecodeHead(s: string, k: nat, n: Option<nat>, more: Option<seq<Byte>>)
    requires s != "" && k == ChunkLength(|s|) && n == Gather(s[..k], 0) && more == DecodeDigits(s[k..])
    ensures DecodeDigits(s) == if n.Some? then After(BytesOf(n.value, k), more) else None
  {
  }

  lemma UnpaddedHead(data: seq<Byte>, k: nat)
    requires data != [] && k == if |data| < 3 then |data| else 3
    ensures var s := Unpadded(data);
            k + 1 == ChunkLength(|s|) && s[..k + 1] == DigitsOf(data[..k]) && s[k + 1..] == Unpadded(data[k..])
  {
    var digits, s := DigitsOf(data[..k]), Unpadded(data);
    assert k < 3 ==> data[k..] == [] && Unpadded([]) == "";
    assert s == digits + Unpadded(data[k..]);
  }

  lemma {:induction false} DigitsBack(data: seq<Byte>)
    ensures DecodeDigits(Unpadded(data)) == Some(data)
    decreases |data|
  {
    if data != [] {
      var k := if |data| < 3 then |data| else 3;
      var s, n := Unpadded(data), Gather(DigitsOf(data[..k]), 0);
      UnpaddedHead(data, k);
      ChunkBack(data[..k]);
      DigitsBack(data[k..]);
      DecodeHead(s, k + 1, n, Some(data[k..]));
      assert data[..k] + data[k..] == data;
    }
  }

  /** How many padding characters that many bytes take. */
  function PaddingFor(bytes: nat): nat {
    if bytes % 3 == 1 then 2 else if bytes % 3 == 2 then 1 else 0
  }

  /** Padding stands at the end and nowhere else. */
  ghost predicate PaddedAtEnd(s: string, padding: nat) {
    padding <= |s| && forall i :: 0 <= i < |s| ==> (s[i] == '=' <==> i >= |s| - padding)
  }

  lemma ChunkForm(chunk: seq<Byte>)
    requires 1 <= |chunk| <= 3
    ensures |DigitsOf(chunk) + Padding(chunk)| == 4
    ensures PaddedAtEnd(DigitsOf(chunk) + Padding(chunk), PaddingFor(|chunk|))
  {
    var digits := DigitsOf(chunk);
    var s := digits + Padding(chunk);
    forall i | 0 <= i < |s|
      ensures s[i] == '=' <==> i >= |digits|
    {
      assert i < |digits| ==> s[i] == digits[i] && !Ignored(digits[i]);
    }
  }

  lemma PaddedAppend(a: string, b: string, padding: nat)
    requires PaddedAtEnd(a, 0) && PaddedAtEnd(b, padding)
    ensures PaddedAtEnd(a + b, padding)
  {
    forall i | 0 <= i < |a + b|
      ensures (a + b)[i] == '=' <==> i >= |a + b| - padding
    {
      assert (a + b)[i] == if i < |a| then a[i] else b[i - |a|];
    }
  }

  /** The alphabet of table 1 of RFC 4648: four runs and their ends. */
  lemma AlphabetExactly(v: nat)
    requires v < 63
    ensures DigitOf(0) == 'A' && DigitOf(25) == 'Z' && DigitOf(26) == 'a' && DigitOf(51) == 'z'
    ensures DigitOf(52) == '0' && DigitOf(61) == '9' && DigitOf(62) == '+' && DigitOf(63) == '/'
    ensures v !in {25, 51, 61, 62} ==> DigitOf(v + 1) as int == DigitOf(v) as int + 1
  {
  }

  /** The value of the character at a place, nothing for padding. */
  ghost function ValueAt(s: string, i: nat): nat {
    if i < |s| && ValueOf(s[i]).Some? then ValueOf(s[i]).value else 0
  }

  ghost function ByteOr0(data: seq<Byte>, i: nat): int {
    if i < |data| then data[i] else 0
  }

  ghost function BitsOfText(s: string, i: nat): nat {
    ValueAt(s, i) * 0x4_0000 + ValueAt(s, i + 1) * 0x1000 + ValueAt(s, i + 2) * 64 + ValueAt(s, i + 3)
  }

  ghost function BitsOfData(data: seq<Byte>, i: nat): int {
    ByteOr0(data, i) * 0x1_0000 + ByteOr0(data, i + 1) * 0x100 + ByteOr0(data, i + 2)
  }

  lemma DigitValueAt(s: string, i: nat, v: nat)
    requires v < 64 && (if i < |s| && s[i] != '=' then s[i] == DigitOf(v) else v == 0)
    ensures ValueAt(s, i) == v
  {
    DigitBack(v);
  }

  lemma ChunkBits(chunk: seq<Byte>)
    requires 1 <= |chunk| <= 3
    ensures BitsOfText(DigitsOf(chunk) + Padding(chunk), 0) == BitsOfData(chunk, 0)
  {
    var n, s := Word(chunk), DigitsOf(chunk) + Padding(chunk);
    FourDigits(n);
    ThreeBytes(ByteOr0(chunk, 0), ByteOr0(chunk, 1), ByteOr0(chunk, 2));
    DigitValueAt(s, 0, n / 0x4_0000 % 64);
    DigitValueAt(s, 1, n / 0x1000 % 64);
    DigitValueAt(s, 2, n / 64 % 64);
    DigitValueAt(s, 3, n % 64);
  }

  lemma BitsOfFirst(first: string, rest: string, data: seq<Byte>, k: nat)
    requires |first| == 4 && k <= |data| && (k == 3 || k == |data| < 3)
    ensures BitsOfText(first + rest, 0) == BitsOfText(first, 0)
    ensures BitsOfData(data, 0) == BitsOfData(data[..k], 0)
  {
    assert forall i :: 0 <= i < 4 ==> (first + rest)[i] == first[i];
  }

  lemma BitsOfRest(first: string, rest: string, data: seq<Byte>, i: nat, j: nat)
    requires |first| == 4 && |data| >= 3
    ensures BitsOfText(first + rest, i + 4) == BitsOfText(rest, i)
    ensures BitsOfData(data, j + 3) == BitsOfData(data[3..], j)
  {
    assert forall m :: 0 <= m < |rest| ==> (first + rest)[m + 4] == rest[m];
  }

  /** The first group, and the encoding of what follows it. */
  lemma EncodeSplit(data: seq<Byte>) returns (k: nat, first: string)
    requires data != []
    ensures k == (if |data| < 3 then |data| else 3) && |first| == 4
    ensures Encode(data) == first + Encode(data[k..])
    ensures PaddedAtEnd(first, PaddingFor(k)) && BitsOfText(first, 0) == BitsOfData(data[..k], 0)
    ensures k == |data| ==> Encode(data) == first
  {
    k := if |data| < 3 then |data| else 3;
    first := DigitsOf(data[..k]) + Padding(data[..k]);
    ChunkForm(data[..k]);
    ChunkBits(data[..k]);
    if k == |data| {
      assert data[k..] == [] && Encode([]) == "" && first + "" == first;
    }
  }

  lemma ThreeMore(n: nat)
    requires n >= 3
    ensures (n + 2) / 3 * 4 == 4 + (n - 3 + 2) / 3 * 4 && PaddingFor(n) == PaddingFor(n - 3)
  {
  }

  /** Four characters for every three bytes begun. The last group ends in two padding
      characters when one byte is left over and in one when two are. */
  lemma {:induction false} EncodedForm(data: seq<Byte>)
    ensures |Encode(data)| == (|data| + 2) / 3 * 4 && PaddedAtEnd(Encode(data), PaddingFor(|data|))
    decreases |data|
  {
    if data != [] {
      var k, first := EncodeSplit(data);
      if |data| > 3 {
        EncodedForm(data[3..]);
        PaddedAppend(first, Encode(data[3..]), PaddingFor(|data| - 3));
        ThreeMore(|data|);
      }
    }
  }

  /** Every group of four characters stands for its three bytes, the first in the highest
      bits; bytes that are missing count as zero. */
  lemma {:induction false} EncodedBits(data: seq<Byte>, group: nat)
    requires 3 * group < |data|
    ensures BitsOfText(Encode(data), 4 * group) == BitsOfData(data, 3 * group)
    decreases |data|
  {
    var k, first := EncodeSplit(data);
    if group == 0 {
      BitsOfFirst(first, Encode(data[k..]), data, k);
    } else {
      EncodedBits(data[3..], group - 1);
      BitsOfRest(first, Encode(data[3..]), data, 4 * (group - 1), 3 * (group - 1));
    }
  }

  lemma {:induction false} GatherAccepts(chunk: string, i: nat)
    ensures Gather(chunk, i).Some? <==> forall k :: 0 <= k < |chunk| ==> ValueOf(chunk[k]).Some?
    decreases |chunk|
  {
    if chunk != "" {
      GatherAccepts(chunk[1..], i + 1);
      assert forall k :: 0 < k < |chunk| ==> chunk[k] == chunk[1..][k - 1];
      assert forall k :: 0 <= k < |chunk[1..]| ==> chunk[1..][k] == chunk[k + 1];
    }
  }

  ghost predicate AllDigits(s: string) {
    forall k :: 0 <= k < |s| ==> ValueOf(s[k]).Some?
  }

  lemma {:induction false} DigitsAccepted(s: string)
    ensures DecodeDigits(s).Some? <==> AllDigits(s)
    decreases |s|
  {
    if s != "" {
      var k := if |s| < 4 then |s| else 4;
      GatherAccepts(s[..k], 0);
      DigitsAccepted(s[k..]);
      assert forall i :: 0 <= i < |s| ==> s[i] == if i < k then s[..k][i] else s[k..][i - k];
      assert forall i :: 0 <= i < |s| - k ==> s[k..][i] == s[i + k];
    }
  }

  lemma {:induction false} FilterMembers(s: string)
    ensures forall c :: c in Filter(s) <==> c in s && !Ignored(c)
  {
    if s != "" {
      FilterMembers(s[1..]);
      assert s == [s[0]] + s[1..];
    }
  }

  predicate Blank(c: char) {
    c == '=' || c == ' ' || c == '\t' || c == '\n' || c == '\r' || c == 12 as char
  }

  predicate InAlphabet(c: char) {
    'A' <= c <= 'Z' || 'a' <= c <= 'z' || '0' <= c <= '9' || c == '+' || c == '/'
  }

  lemma CharsAccepted(c: char)
    ensures Ignored(c) <==> Blank(c)
    ensures ValueOf(c).Some? <==> InAlphabet(c)
  {
  }

  /** Exactly texts of alphabet characters, padding and white space are decoded, and padding
      and white space make no difference anywhere. */
  lemma DecodeAccepts(s: string, a: string, c: char, b: string)
    ensures Decode(s).Some? <==> forall i :: 0 <= i < |s| ==> InAlphabet(s[i]) || Blank(s[i])
    ensures Blank(c) ==> Decode(a + [c] + b) == Decode(a + b)
  {
    var kept := Filter(s);
    DigitsAccepted(kept);
    FilterMembers(s);
    if AllDigits(kept) {
      forall i | 0 <= i < |s|
        ensures InAlphabet(s[i]) || Blank(s[i])
      {
        CharsAccepted(s[i]);
        if !Ignored(s[i]) {
          assert s[i] in kept;
          var k :| 0 <= k < |kept| && kept[k] == s[i];
        }
      }
    }
    if forall i :: 0 <= i < |s| ==> InAlphabet(s[i]) || Blank(s[i]) {
      forall k | 0 <= k < |kept|
        ensures ValueOf(kept[k]).Some?
      {
        assert kept[k] in kept;
        CharsAccepted(kept[k]);
      }
    }
    BlankIgnored(a, c, b);
  }

  lemma BlankIgnored(a: string, c: char, b: string)
    ensures Blank(c) ==> Decode(a + [c] + b) == Decode(a + b)
  {
    FilterAppend(a + [c], b);
    FilterAppend(a, [c]);
    FilterAppend(a, b);
    CharsAccepted(c);
    assert [c][1..] == "";
    assert Blank(c) ==> Filter([c]) == "" && Filter(a) + "" == Filter(a);
  }

  /** Every byte string. */
  lemma DecodeEncode(data: seq<Byte>)
    ensures Decode(Encode(data)) == Some(data)
  {
    FilterEncode(data);
    DigitsBack(data);
  }

  /** Base64 text holds no comma. */
  lemma {:induction false} NoComma(data: seq<Byte>)
    ensures Count(Encode(data), ',') == 0
    decreases |data|
  {
    if data != [] {
      var k := if |data| < 3 then |data| else 3;
      var chunk := data[..k];
      CountAppend(DigitsOf(chunk) + Padding(chunk), Encode(data[k..]), ',');
      CountAppend(DigitsOf(chunk), Padding(chunk), ',');
      CountNone(DigitsOf(chunk), ',');
      CountNone(Padding(chunk), ',');
      NoComma(data[k..]);
    }
  }

  // --- The loops -----------------------------------------------------------------------

  lemma EncodeStep(data: seq<Byte>, i: nat, k: nat, out: string)
    requires i < |data| && k == if |data| - i < 3 then |data| - i else 3
    ensures out + Encode(data[i..]) ==
            out + (DigitsOf(data[i..i + k]) + Padding(data[i..i + k])) + Encode(data[i + k..])
  {
    SuffixDrop(data, i, k);
    Append(out, DigitsOf(data[i..i + k]) + Padding(data[i..i + k]), Encode(data[i + k..]));
  }

  /** Four characters for one to three bytes. */
  method EncodeChunk(chunk: seq<Byte>) returns (text: string)
    requires 1 <= |chunk| <= 3
    ensures text == DigitsOf(chunk) + Padding(chunk)
  {
    var n := Word(chunk);
    text := [DigitOf(n / 0x4_0000 % 64), DigitOf(n / 0x1000 % 64)];
    text := text + [if |chunk| > 1 then DigitOf(n / 64 % 64) else '='];
    text := text + [if |chunk| > 2 then DigitOf(n % 64) else '='];
  }

  /** `base64_encode`: three bytes at a time. */
  method EncodeLoop(data: seq<Byte>) returns (out: string)
    ensures out == Encode(data)
  {
    out := "";
    var i := 0;
    while i < |data|
      invariant 0 <= i <= |data| && out + Encode(data[i..]) == Encode(data)
      decreases |data| - i
    {
      var k := if |data| - i < 3 then |data| - i else 3;
      var chunk := data[i..i + k];
      var text := EncodeChunk(chunk);
      EncodeStep(data, i, k, out);
      out, i := out + text, i + k;
    }
    assert out + "" == out;
  }

  lemma Append(a: string, b: string, c: string)
    ensures a + (b + c) == a + b + c
  {
  }

  /** Keep the digits. */
  method FilterLoop(s: string) returns (out: string)
    ensures out == Filter(s)
  {
    out := "";
    for i := 0 to |s|
      invariant out + Filter(s[i..]) == Filter(s)
    {
      SuffixNext(s, i);
      if !Ignored(s[i]) {
        Append(out, [s[i]], Filter(s[i + 1..]));
        out := out + [s[i]];
      } else {
        Append(out, "", Filter(s[i + 1..]));
        assert out + "" == out;
      }
    }
    assert out + "" == out;
  }

  function Plus(sum: nat, more: Option<nat>): Option<nat> {
    if more.Some? then Some(sum + more.value) else None
  }

  /** What is gathered so far and what the rest gives make up the whole. */
  ghost predicate Gathered(chunk: string, i: nat, sum: nat)
    requires i <= |chunk|
  {
    Plus(sum, Gather(chunk[i..], i)) == Gather(chunk, 0)
  }

  lemma GatherStep(chunk: string, i: nat, sum: nat)
    requires i < |chunk| && Gathered(chunk, i, sum)
    ensures ValueOf(chunk[i]).None? ==> Gather(chunk, 0).None?
    ensures ValueOf(chunk[i]).Some? ==> Gathered(chunk, i + 1, sum + Shifted(ValueOf(chunk[i]).value, i))
  {
    SuffixNext(chunk, i);
  }

  lemma GatherEnd(chunk: string, sum: nat)
    requires Gathered(chunk, |chunk|, sum)
    ensures Gather(chunk, 0) == Some(sum)
  {
    assert chunk[|chunk|..] == "";
  }

  /** Accumulate the digits of one chunk. */
  method GatherLoop(chunk: string) returns (n: Option<nat>)
    ensures n == Gather(chunk, 0)
  {
    var sum: nat := 0;
    assert Gathered(chunk, 0, sum) by { assert chunk[0..] == chunk; }
    for i := 0 to |chunk|
      invariant Gathered(chunk, i, sum)
    {
      GatherStep(chunk, i, sum);
      var v := ValueOf(chunk[i]);
      if v.None? {
        return None;
      }
      sum := sum + Shifted(v.value, i);
    }
    GatherEnd(chunk, sum);
    return Some(sum);
  }

  /** What is decoded so far and what the rest gives make up the whole. */
  ghost predicate Decoded(digits: string, i: nat, bytes: seq<Byte>)
    requires i <= |digits|
  {
    After(bytes, DecodeDigits(digits[i..])) == DecodeDigits(digits)
  }

  lemma DecodeStep(digits: string, i: nat, bytes: seq<Byte>)
    requires i < |digits| && Decoded(digits, i, bytes)
    ensures var k := ChunkLength(|digits| - i);
            var n := Gather(digits[i..i + k], 0);
            if n.Some? then Decoded(digits, i + k, bytes + BytesOf(n.value, k)) else DecodeDigits(digits).None?
  {
    var k := ChunkLength(|digits| - i);
    SuffixDrop(digits, i, k);
    var n, more := Gather(digits[i..i + k], 0), DecodeDigits(digits[i + k..]);
    DecodeHead(digits[i..], k, n, more);
    if n.Some? {
      AfterStep(bytes, BytesOf(n.value, k), more);
    }
  }

  lemma AfterStep(bytes: seq<Byte>, next: seq<Byte>, more: Option<seq<Byte>>)
    ensures After(bytes, After(next, more)) == After(bytes + next, more)
  {
    if more.Some? {
      assert bytes + (next + more.value) == bytes + next + more.value;
    }
  }

  lemma DecodeStart(digits: string)
    ensures Decoded(digits, 0, [])
  {
    var all := DecodeDigits(digits);
    assert digits[0..] == digits && (all.Some? ==> [] + all.value == all.value);
  }

  lemma DecodeEnd(digits: string, bytes: seq<Byte>)
    requires Decoded(digits, |digits|, bytes)
    ensures DecodeDigits(digits) == Some(bytes)
  {
    assert digits[|digits|..] == "" && bytes + [] == bytes;
  }

  /** `base64_decode`: four digits at a time. */
  method DecodeLoop(s: string) returns (out: Option<seq<Byte>>)
    ensures out == Decode(s)
  {
    var digits := FilterLoop(s);
    var bytes: seq<Byte> := [];
    var i := 0;
    DecodeStart(digits);
    while i < |digits|
      invariant 0 <= i <= |digits| && Decoded(digits, i, bytes)
      decreases |digits| - i
    {
      var k := ChunkLength(|digits| - i);
      DecodeStep(digits, i, bytes);
      var n := GatherLoop(digits[i..i + k]);
      if n.None? {
        return None;
      }
      bytes, i := bytes + BytesOf(n.value, k), i + k;
    }
    DecodeEnd(digits, bytes);
    return Some(bytes);
  }
}
