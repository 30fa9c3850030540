/** The server object of one SCRAM exchange. */
module ScramServer {
  import opened Collections
  import opened BigEndian
  import opened Scram

  /** Combine proof and signature byte by byte. */
  method Recover(proof: seq<Byte>, signature: seq<Byte>) returns (key: seq<Byte>)
    requires |proof| == |signature| == 32
    ensures key == Xor(proof, signature)
    ensures forall i, k :: 0 <= i < 32 && 0 <= k < 8 ==> SetWhereDiffer(proof[i], signature[i], key[i], k)
  {
    var recovered := new Byte[32](i => 0);
    for i := 0 to 32
      invariant forall j :: 0 <= j < i ==> recovered[j] == XorByte(proof[j], signature[j])
    {
      recovered[i] := XorByte(proof[i], signature[i]);
    }
    key := recovered[..];
    forall i | 0 <= i < 32
      ensures forall k :: 0 <= k < 8 ==> SetWhereDiffer(proof[i], signature[i], key[i], k)
    {
      XorExactly(proof[i], signature[i], key[i]);
    }
  }

  class ScramServer {
    const crypto: Crypto
    const password: string
    const salt: seq<Byte>
    const serverNonce: string
    var clientFirstBare: string
    var serverFirst: string
    var combinedNonce: string

    /** The salt and the 18 bytes behind the nonce are random. */
    constructor (c: Crypto, pass: string, saltBytes: seq<Byte>, nonceBytes: seq<Byte>)
      ensures crypto == c
      ensures Now() == Server(pass, saltBytes, Base64.Encode(nonceBytes), "", "", "") && CommaFree(serverNonce)
    {
      crypto, password, salt := c, pass, saltBytes;
      serverNonce := Base64.Encode(nonceBytes);
      clientFirstBare, serverFirst, combinedNonce := "", "", "";
      Base64.NoComma(nonceBytes);
    }

    ghost function Now(): Server
      reads this
    {
      Server(password, salt, serverNonce, clientFirstBare, serverFirst, combinedNonce)
    }

    /** A message without an `r` attribute still leaves its bare part behind. */
    method First(clientFirst: string) returns (reply: Option<string>)
      modifies this
      ensures reply.Some? <==> ServerFirst(old(Now()), clientFirst).Some?
      ensures reply.Some? ==> Some(Now()) == ServerFirst(old(Now()), clientFirst) && reply.value == serverFirst
      ensures reply.None? ==> serverFirst == old(serverFirst) && combinedNonce == old(combinedNonce)
    {
      var bare := BareOf(clientFirst);
      if bare.None? {
        return None;
      }
      clientFirstBare := bare.value;
      var nonce := Attr(bare.value, 'r');
      if nonce.None? {
        return None;
      }
      combinedNonce := nonce.value + serverNonce;
      serverFirst := FirstMessage(combinedNonce, salt);
      return Some(serverFirst);
    }

    method Final(message: string) returns (reply: Option<string>)
      requires Wide(crypto)
      ensures reply == ServerFinal(crypto, Now(), message)
    {
      var f := ParseFinal(message);
      if f.None? || f.value.nonce != combinedNonce {
        return None;
      }
      var auth := AuthMessage(clientFirstBare, serverFirst, f.value.withoutProof);
      var keys := DeriveKeys(crypto, password, salt, Iterations);
      var recovered := Recover(f.value.proof, crypto.mac(keys.stored, auth));
      if crypto.hash(recovered) != keys.stored {
        return None;
      }
      return Some(Item('v', Base64.Encode(crypto.mac(keys.server, auth))));
    }
  }
}
