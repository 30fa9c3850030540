/** The server side of a SCRAM-SHA-256 exchange (section 3 of RFC 5802), with the hash,
the MAC and the key derivation as any functions that return 32 bytes. Messages are
text.
*/
module Scram {
  import opened Collections
  import opened Numerals
  import opened BigEndian
  import opened Splitting
  import Base64

  datatype Crypto = Crypto(
    hash: seq<Byte> -> seq<Byte>,
    mac: (seq<Byte>, string) -> seq<Byte>,
    derive: (string, seq<Byte>, nat) -> seq<Byte>)

  ghost predicate Wide(c: Crypto) {
    && (forall x :: |c.hash(x)| == 32)
    && (forall k, m :: |c.mac(k, m)| == 32)
    && (forall p, s, i :: |c.derive(p, s, i)| == 32)
  }

  // --- Attributes ----------------------------------------------------------------------

  datatype Pair = Pair(key: string, value: string)

  /** `split_once('=')`. */
  function SplitOnce(kv: string): Option<Pair> {
    if kv == "" then None
    else if kv[0] == '=' then Some(Pair("", kv[1..]))
    else
      match SplitOnce(kv[1..])
      case None => None
      case Some(p) => Some(Pair([kv[0]] + p.key, p.value))
  }

  function FindAttr(parts: seq<string>, key: char): Option<string> {
    if parts == [] then None
    else
      var p := SplitOnce(parts[0]);
      if p.Some? && p.value.key == [key] then Some(p.value.value) else FindAttr(parts[1..], key)
  }

  /** `attr`: the first part of the form `key=value`. */
  function Attr(s: string, key: char): Option<string> {
    FindAttr(Split(s, ','), key)
  }

  function Item(key: char, value: string): string {
    [key, '='] + value
  }

  predicate CommaFree(s: string) {
    Count(s, ',') == 0
  }

  lemma ItemSplits(key: char, value: string)
    requires key != '='
    ensures SplitOnce(Item(key, value)) == Some(Pair([key], value))
  {
    var kv := Item(key, value);
    assert kv[1..] == ['='] + value;
    assert kv[1..][1..] == value;
    assert SplitOnce(kv[1..]) == Some(Pair("", value));
    assert [key] + "" == [key];
  }

  lemma ItemCommaFree(key: char, value: string)
    requires key != ',' && CommaFree(value)
    ensures CommaFree(Item(key, value))
  {
    CountAppend([key, '='], value, ',');
    CountTwo(key, '=', ',');
  }

  /** The attribute asked for stands first. */
  lemma AttrHit(key: char, value: string, rest: string)
    requires key != '=' && key != ',' && CommaFree(value)
    ensures Attr(Item(key, value) + ([','] + rest), key) == Some(value)
    ensures Attr(Item(key, value), key) == Some(value)
  {
    ItemSplits(key, value);
    ItemCommaFree(key, value);
    SplitPrefix(Item(key, value), rest, ',');
    SplitNone(Item(key, value), ',');
  }

  /** Another attribute stands first. */
  lemma AttrSkip(other: char, value: string, rest: string, key: char)
    requires other != '=' && other != ',' && other != key && CommaFree(value)
    ensures Attr(Item(other, value) + ([','] + rest), key) == Attr(rest, key)
  {
    ItemSplits(other, value);
    ItemCommaFree(other, value);
    SplitPrefix(Item(other, value), rest, ',');
    assert ([Item(other, value)] + Split(rest, ','))[1..] == Split(rest, ',');
  }

  // --- Exclusive or ----------------------------------------------------------------------

  function XorBits(a: nat, b: nat, bits: nat): (r: nat)
    ensures r < Pow2(bits)
    decreases bits
  {
    if bits == 0 then 0 else 2 * XorBits(a / 2, b / 2, bits - 1) + (if a % 2 == b % 2 then 0 else 1)
  }

  function Pow2(n: nat): nat {
    if n == 0 then 1 else 2 * Pow2(n - 1)
  }

  lemma {:induction false} XorTwice(a: nat, b: nat, bits: nat)
    requires a < Pow2(bits)
    ensures XorBits(XorBits(a, b, bits), b, bits) == a
    decreases bits
  {
    if bits > 0 {
      XorTwice(a / 2, b / 2, bits - 1);
      var low := if a % 2 == b % 2 then 0 else 1;
      var x := XorBits(a, b, bits);
      assert x == 2 * XorBits(a / 2, b / 2, bits - 1) + low;
      assert x / 2 == XorBits(a / 2, b / 2, bits - 1) && x % 2 == low;
    }
  }

  lemma Pow2Eight()
    ensures Pow2(8) == 256
  {
    assert Pow2(0) == 1 && Pow2(1) == 2 && Pow2(2) == 4 && Pow2(3) == 8 && Pow2(4) == 16;
    assert Pow2(5) == 32 && Pow2(6) == 64 && Pow2(7) == 128;
  }

  function XorByte(a: Byte, b: Byte): Byte {
    Pow2Eight();
    XorBits(a, b, 8)
  }

  /** Bit `i` of a number, counting from the lowest. */
  function Bit(n: nat, i: nat): (b: nat)
    ensures b < 2
  {
    if i == 0 then n % 2 else Bit(n / 2, i - 1)
  }

  lemma {:induction false} XorBit(a: nat, b: nat, bits: nat, i: nat)
    requires i < bits
    ensures Bit(XorBits(a, b, bits), i) == 1 <==> Bit(a, i) != Bit(b, i)
    decreases bits
  {
    var x, low := XorBits(a / 2, b / 2, bits - 1), if a % 2 == b % 2 then 0 else 1;
    assert XorBits(a, b, bits) == 2 * x + low;
    assert (2 * x + low) / 2 == x && (2 * x + low) % 2 == low;
    if i > 0 {
      XorBit(a / 2, b / 2, bits - 1, i - 1);
    }
  }

  lemma {:induction false} SameBits(a: nat, b: nat, bits: nat)
    requires a < Pow2(bits) && b < Pow2(bits) && forall i :: 0 <= i < bits ==> Bit(a, i) == Bit(b, i)
    ensures a == b
    decreases bits
  {
    if bits > 0 {
      assert Bit(a, 0) == Bit(b, 0);
      forall i | 0 <= i < bits - 1
        ensures Bit(a / 2, i) == Bit(b / 2, i)
      {
        assert Bit(a, i + 1) == Bit(b, i + 1);
      }
      SameBits(a / 2, b / 2, bits - 1);
      assert a == 2 * (a / 2) + a % 2 && b == 2 * (b / 2) + b % 2;
    }
  }

  predicate SetWhereDiffer(a: nat, b: nat, r: nat, i: nat) {
    Bit(r, i) == 1 <==> Bit(a, i) != Bit(b, i)
  }

  /** The one byte whose bits are set where those of the two differ. */
  lemma XorExactly(a: Byte, b: Byte, r: Byte)
    ensures r == XorByte(a, b) <==> forall i :: 0 <= i < 8 ==> SetWhereDiffer(a, b, r, i)
  {
    Pow2Eight();
    var x := XorByte(a, b);
    forall i | 0 <= i < 8
      ensures SetWhereDiffer(a, b, x, i)
    {
      XorBit(a, b, 8, i);
    }
    if forall i :: 0 <= i < 8 ==> SetWhereDiffer(a, b, r, i) {
      forall i | 0 <= i < 8
        ensures Bit(r, i) == Bit(x, i)
      {
        assert SetWhereDiffer(a, b, r, i) && SetWhereDiffer(a, b, x, i);
      }
      SameBits(r, x, 8);
    }
  }

  function Xor(a: seq<Byte>, b: seq<Byte>): (r: seq<Byte>)
    requires |a| == |b|
    ensures |r| == |a| && forall i :: 0 <= i < |a| ==> r[i] == XorByte(a[i], b[i])
  {
    if a == [] then [] else Xor(a[..|a| - 1], b[..|b| - 1]) + [XorByte(a[|a| - 1], b[|b| - 1])]
  }

  lemma XorInverse(a: seq<Byte>, b: seq<Byte>)
    requires |a| == |b|
    ensures Xor(Xor(a, b), b) == a
  {
    Pow2Eight();
    forall i | 0 <= i < |a|
      ensures Xor(Xor(a, b), b)[i] == a[i]
    {
      XorTwice(a[i], b[i], 8);
    }
  }

  // --- The server ---------------------------------------------------------------------------

  const Iterations: nat := 4096

  datatype Server = Server(
    password: string,
    salt: seq<Byte>,
    serverNonce: string,
    clientFirstBare: string,
    serverFirst: string,
    combinedNonce: string)

  function AfterComma(s: string): Option<string> {
    if s == "" then None else if s[0] == ',' then Some(s[1..]) else AfterComma(s[1..])
  }

  /** `splitn(3, ',').nth(2)`: what follows the second comma. */
  function BareOf(clientFirst: string): Option<string> {
    match AfterComma(clientFirst)
    case None => None
    case Some(rest) => AfterComma(rest)
  }

  function FirstMessage(nonce: string, salt: seq<Byte>): string {
    Item('r', nonce) + ([','] + (Item('s', Base64.Encode(salt)) + ([','] + Item('i', Digits(Iterations)))))
  }

  /** `server_first`: the server after the client-first message; its reply is
      `serverFirst`. */
  function ServerFirst(s: Server, clientFirst: string): Option<Server> {
    match BareOf(clientFirst)
    case None => None
    case Some(bare) =>
      match Attr(bare, 'r')
      case None => None
      case Some(nonce) =>
        var combined := nonce + s.serverNonce;
        Some(s.(clientFirstBare := bare, combinedNonce := combined, serverFirst := FirstMessage(combined, s.salt)))
  }

  /** `rfind(",p=")`. */
  function LastProof(s: string): (i: Option<nat>)
    ensures i.Some? ==> i.value + 3 <= |s|
  {
    if |s| < 3 then None
    else if s[|s| - 3..] == ",p=" then Some(|s| - 3)
    else LastProof(s[..|s| - 1])
  }

  function AuthMessage(bare: string, first: string, withoutProof: string): string {
    bare + ([','] + (first + ([','] + withoutProof)))
  }

  datatype Keys = Keys(client: seq<Byte>, stored: seq<Byte>, server: seq<Byte>)

  function DeriveKeys(c: Crypto, password: string, salt: seq<Byte>, iterations: nat): Keys {
    var salted := c.derive(password, salt, iterations);
    var client := c.mac(salted, "Client Key");
    Keys(client, c.hash(client), c.mac(salted, "Server Key"))
  }

  /** A client-final message taken apart. */
  datatype Final = Final(nonce: string, proof: seq<Byte>, withoutProof: string)

  function ParseFinal(message: string): (r: Option<Final>)
    ensures r.Some? ==> |r.value.proof| == 32
  {
    var nonce, proof64, mark := Attr(message, 'r'), Attr(message, 'p'), LastProof(message);
    if nonce.None? || proof64.None? || mark.None? then None
    else
      var proof := Base64.Decode(proof64.value);
      if proof.None? || |proof.value| != 32 then None
      else Some(Final(nonce.value, proof.value, message[..mark.value]))
  }

  function ClientSignature(c: Crypto, s: Server, withoutProof: string): (r: seq<Byte>)
    requires Wide(c)
    ensures |r| == 32
  {
    c.mac(DeriveKeys(c, s.password, s.salt, Iterations).stored,
          AuthMessage(s.clientFirstBare, s.serverFirst, withoutProof))
  }

  function ServerSignature(c: Crypto, s: Server, withoutProof: string): seq<Byte> {
    c.mac(DeriveKeys(c, s.password, s.salt, Iterations).server,
          AuthMessage(s.clientFirstBare, s.serverFirst, withoutProof))
  }

  /** Recover the client key from the proof and compare its hash. */
  predicate Verifies(c: Crypto, s: Server, proof: seq<Byte>, withoutProof: string)
    requires Wide(c) && |proof| == 32
  {
    c.hash(Xor(proof, ClientSignature(c, s, withoutProof))) == DeriveKeys(c, s.password, s.salt, Iterations).stored
  }

  /** `server_final`: the server-final message, or nothing when the message is refused. */
  function ServerFinal(c: Crypto, s: Server, message: string): Option<string>
    requires Wide(c)
  {
    match ParseFinal(message)
    case None => None
    case Some(f) =>
      if f.nonce == s.combinedNonce && Verifies(c, s, f.proof, f.withoutProof) then
        Some(Item('v', Base64.Encode(ServerSignature(c, s, f.withoutProof))))
      else None
  }

  // --- A client that follows the exchange -------------------------------------------------------

  function ClientFirstBare(user: string, nonce: string): string {
    Item('n', user) + ([','] + Item('r', nonce))
  }

  function ClientFirst(user: string, nonce: string): string {
    "n,," + ClientFirstBare(user, nonce)
  }

  /** The client-final message and the server signature the client will expect. */
  datatype ClientFinal = ClientFinal(message: string, signature: seq<Byte>)

  function WithoutProof(nonce: string): string {
    Item('c', "biws") + ([','] + Item('r', nonce))
  }

  /** The client reads nonce, salt and iteration count from the server's message, and
      computes proof and signature by the formulas of section 3 of RFC 5802. */
  function AnswerServer(c: Crypto, password: string, bare: string, first: string): Option<ClientFinal>
    requires Wide(c)
  {
    var nonce, salt64, count := Attr(first, 'r'), Attr(first, 's'), Attr(first, 'i');
    if nonce.None? || salt64.None? || count.None? then None
    else
      var salt, n := Base64.Decode(salt64.value), ParseDigits(count.value);
      if salt.None? || n.None? then None
      else
        var saltedPassword := c.derive(password, salt.value, n.value);
        var clientKey := c.mac(saltedPassword, "Client Key");
        var storedKey := c.hash(clientKey);
        var authMessage := bare + ("," + (first + ("," + WithoutProof(nonce.value))));
        var clientSignature := c.mac(storedKey, authMessage);
        var clientProof := Xor(clientKey, clientSignature);
        var serverKey := c.mac(saltedPassword, "Server Key");
        var serverSignature := c.mac(serverKey, authMessage);
        Some(ClientFinal(WithoutProof(nonce.value) + ([','] + Item('p', Base64.Encode(clientProof))), serverSignature))
  }

  // --- The exchange completes ---------------------------------------------------------------------

  lemma {:induction false} DigitsCommaFree(n: nat)
    ensures CommaFree(Digits(n))
  {
    CountNone(Digits(n), ',');
  }

  lemma {:induction false} AfterFirstComma(a: string, rest: string)
    requires CommaFree(a)
    ensures AfterComma(a + ("," + rest)) == Some(rest) && AfterComma(a) == None
  {
    var s := a + ("," + rest);
    if a == "" {
      assert s[1..] == rest;
    } else {
      assert s[1..] == a[1..] + ("," + rest);
      AfterFirstComma(a[1..], rest);
    }
  }

  /** The bare part is what follows the second comma, commas and all; without two commas there
      is none. */
  lemma BareExactly(a: string, b: string, rest: string)
    requires CommaFree(a) && CommaFree(b)
    ensures BareOf(a + ("," + (b + ("," + rest)))) == Some(rest)
    ensures BareOf(a + ("," + b)) == None && BareOf(a) == None
  {
    AfterFirstComma(a, b + ("," + rest));
    AfterFirstComma(b, rest);
    AfterFirstComma(a, b);
  }

  lemma BareBack(user: string, nonce: string)
    ensures BareOf(ClientFirst(user, nonce)) == Some(ClientFirstBare(user, nonce))
  {
    var s := ClientFirst(user, nonce);
    assert s[1..] == ",," + ClientFirstBare(user, nonce);
    assert s[1..][1..] == "," + ClientFirstBare(user, nonce);
    assert AfterComma(s[1..]) == Some(s[1..][1..]);
    assert s[1..][1..][1..] == ClientFirstBare(user, nonce);
  }

  lemma IterationsText()
    ensures Digits(Iterations) == "4096"
  {
    assert Digits(4) == "4" && Digits(40) == Digits(4) + "0";
    assert Digits(409) == Digits(40) + "9" && Digits(4096) == Digits(409) + "6";
  }

  /** The client finds the nonce, the salt and the iteration count, 4096. */
  lemma FirstMessageRead(nonce: string, salt: seq<Byte>)
    requires CommaFree(nonce)
    ensures Attr(FirstMessage(nonce, salt), 'r') == Some(nonce)
    ensures Attr(FirstMessage(nonce, salt), 's') == Some(Base64.Encode(salt))
    ensures Attr(FirstMessage(nonce, salt), 'i') == Some(Digits(Iterations)) == Some("4096")
  {
    var salt64, count := Base64.Encode(salt), Digits(Iterations);
    Base64.NoComma(salt);
    DigitsCommaFree(Iterations);
    IterationsText();
    var tail := Item('i', count);
    var mid := Item('s', salt64) + ([','] + tail);
    AttrHit('r', nonce, mid);
    AttrSkip('r', nonce, mid, 's');
    AttrHit('s', salt64, tail);
    AttrSkip('r', nonce, mid, 'i');
    AttrSkip('s', salt64, tail, 'i');
    AttrHit('i', count, "");
  }

  /** The server finds the nonce and the proof. */
  lemma FinalMessageRead(nonce: string, proof64: string)
    requires CommaFree(nonce) && CommaFree(proof64)
    ensures var m := WithoutProof(nonce) + ([','] + Item('p', proof64));
            && Attr(m, 'r') == Some(nonce) && Attr(m, 'p') == Some(proof64)
            && LastProof(m) == Some(|WithoutProof(nonce)|) && m[..|WithoutProof(nonce)|] == WithoutProof(nonce)
  {
    var last := Item('p', proof64);
    var rest := Item('r', nonce) + ([','] + last);
    var m := WithoutProof(nonce) + ([','] + last);
    assert m == Item('c', "biws") + ([','] + rest);
    CountNone("biws", ',');
    AttrSkip('c', "biws", rest, 'r');
    AttrHit('r', nonce, last);
    AttrSkip('c', "biws", rest, 'p');
    AttrSkip('r', nonce, last, 'p');
    AttrHit('p', proof64, "");
    assert m == WithoutProof(nonce) + ",p=" + proof64;
    ProofMarked(WithoutProof(nonce), proof64);
  }

  /** The last `,p=` is the one before the proof. */
  lemma {:induction false} ProofMarked(a: string, b: string)
    requires CommaFree(b)
    ensures LastProof(a + ",p=" + b) == Some(|a|)
    decreases |b|
  {
    var s := a + ",p=" + b;
    if b == "" {
      assert s[|s| - 3..] == ",p=";
    } else {
      var init, c := b[..|b| - 1], b[|b| - 1];
      assert init + [c] == b;
      CountAppend(init, [c], ',');
      assert s[..|s| - 1] == a + ",p=" + init;
      ProofMarked(a, init);
      assert s[|s| - 3] != ',' by {
        if |b| >= 3 {
          assert s[|s| - 3] == b[|b| - 3];
          CountAt(b, |b| - 3, ',');
        } else {
          assert s[|s| - 3] == ",p="[|b|];
        }
      }
      assert s[|s| - 3..][0] == s[|s| - 3];
    }
  }

  /** The proof a holder of the server's password computes. */
  function ProofFor(c: Crypto, s: Server, withoutProof: string): (r: seq<Byte>)
    requires Wide(c)
    ensures |r| == 32
  {
    Xor(DeriveKeys(c, s.password, s.salt, Iterations).client, ClientSignature(c, s, withoutProof))
  }

  lemma ProofVerifies(c: Crypto, s: Server, withoutProof: string)
    requires Wide(c)
    ensures Verifies(c, s, ProofFor(c, s, withoutProof), withoutProof)
  {
    XorInverse(DeriveKeys(c, s.password, s.salt, Iterations).client, ClientSignature(c, s, withoutProof));
  }

  lemma FinalParses(nonce: string, proof: seq<Byte>)
    requires CommaFree(nonce) && |proof| == 32
    ensures ParseFinal(WithoutProof(nonce) + ([','] + Item('p', Base64.Encode(proof)))) ==
            Some(Final(nonce, proof, WithoutProof(nonce)))
  {
    Base64.NoComma(proof);
    Base64.DecodeEncode(proof);
    FinalMessageRead(nonce, Base64.Encode(proof));
  }

  /** What the client answers to the server's first message. */
  lemma ClientAnswers(c: Crypto, s: Server)
    requires Wide(c) && CommaFree(s.combinedNonce) && s.serverFirst == FirstMessage(s.combinedNonce, s.salt)
    ensures var w := WithoutProof(s.combinedNonce);
            AnswerServer(c, s.password, s.clientFirstBare, s.serverFirst) ==
            Some(ClientFinal(w + ([','] + Item('p', Base64.Encode(ProofFor(c, s, w)))), ServerSignature(c, s, w)))
  {
    FirstMessageRead(s.combinedNonce, s.salt);
    Base64.DecodeEncode(s.salt);
    DigitsRoundTrip(Iterations);
  }

  lemma FirstReplies(s: Server, user: string, nonce: string)
    requires CommaFree(user) && CommaFree(nonce) && CommaFree(s.serverNonce)
    ensures var combined := nonce + s.serverNonce;
            && CommaFree(combined)
            && ServerFirst(s, ClientFirst(user, nonce)) ==
               Some(s.(clientFirstBare := ClientFirstBare(user, nonce), combinedNonce := combined,
                       serverFirst := FirstMessage(combined, s.salt)))
  {
    BareBack(user, nonce);
    AttrSkip('n', user, Item('r', nonce), 'r');
    AttrHit('r', nonce, "");
    CountAppend(nonce, s.serverNonce, ',');
  }

  /** Whatever the hash, MAC and derivation, a client with the right password, a
      comma-free name and a comma-free nonce is accepted, and gets the signature it
      expects. */
  lemma ExchangeCompletes(c: Crypto, s: Server, user: string, nonce: string)
    requires Wide(c) && CommaFree(user) && CommaFree(nonce) && CommaFree(s.serverNonce)
    ensures var s1 := ServerFirst(s, ClientFirst(user, nonce));
            && s1.Some?
            && var answer := AnswerServer(c, s.password, ClientFirstBare(user, nonce), s1.value.serverFirst);
            && answer.Some?
            && ServerFinal(c, s1.value, answer.value.message) == Some(Item('v', Base64.Encode(answer.value.signature)))
  {
    FirstReplies(s, user, nonce);
    var s1 := ServerFirst(s, ClientFirst(user, nonce)).value;
    var w := WithoutProof(s1.combinedNonce);
    ClientAnswers(c, s1);
    FinalParses(s1.combinedNonce, ProofFor(c, s1, w));
    ProofVerifies(c, s1, w);
  }

  /** The hash has no collisions on 32 bytes. */
  ghost predicate CollisionFree(c: Crypto) {
    forall x, y :: |x| == 32 && |y| == 32 && c.hash(x) == c.hash(y) ==> x == y
  }

  /** Then a message is accepted exactly when it carries this exchange's nonce and the
      one proof that the password's client key gives. */
  lemma AcceptedExactly(c: Crypto, s: Server, message: string)
    requires Wide(c) && CollisionFree(c)
    ensures ServerFinal(c, s, message).Some? <==>
            var f := ParseFinal(message);
            f.Some? && f.value.nonce == s.combinedNonce && f.value.proof == ProofFor(c, s, f.value.withoutProof)
  {
    var f := ParseFinal(message);
    if f.Some? {
      var w := f.value.withoutProof;
      ProofVerifies(c, s, w);
      XorInverse(f.value.proof, ClientSignature(c, s, w));
    }
  }
}
