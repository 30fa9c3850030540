/** Two's complement integers in big-endian bytes, as `to_be_bytes` and
`from_be_bytes` give them after a truncating cast.
*/
module BigEndian {

  type Byte = x: int | 0 <= x < 256

  function Pow256(n: nat): (p: nat)
    ensures p >= 1
  {
    if n == 0 then 1 else 256 * Pow256(n - 1)
  }

  /** The low `n` bytes of an integer. */
  function Bytes(v: int, n: nat): (bs: seq<Byte>)
    ensures |bs| == n
    decreases n
  {
    if n == 0 then [] else Bytes(v / 256, n - 1) + [v % 256]
  }

  function Unsigned(bs: seq<Byte>): (v: nat)
    ensures v < Pow256(|bs|)
  {
    if bs == [] then 0 else 256 * Unsigned(bs[..|bs| - 1]) + bs[|bs| - 1]
  }

  function Signed(bs: seq<Byte>): int {
    var u, m := Unsigned(bs), Pow256(|bs|);
    if 2 * u >= m then u - m else u
  }

  /** The integer is in the range of `n` bytes. */
  predicate InWidth(v: int, n: nat) {
    0 - Pow256(n) <= 2 * v < Pow256(n)
  }

  lemma {:induction false} Multiples(d: nat, p: int, q: int)
    requires p < q
    ensures d * q >= d * p + d
    decreases q - p
  {
    assert d * q == d * (q - 1) + d;
    if p < q - 1 {
      Multiples(d, p, q - 1);
    }
  }

  lemma ModUnique(v: int, d: nat, q: int, r: int)
    requires d > 0 && v == d * q + r && 0 <= r < d
    ensures v % d == r
  {
    var p := v / d;
    if q > p {
      Multiples(d, p, q);
    } else if q < p {
      Multiples(d, q, p);
    }
  }

  lemma ModStep(v: int, m: nat)
    requires m > 0
    ensures v % (256 * m) == 256 * ((v / 256) % m) + v % 256
  {
    var w := v / 256;
    var q, r := w / m, w % m;
    assert w == m * q + r;
    assert v == 256 * w + v % 256;
    assert 256 * w == (256 * m) * q + 256 * r;
    ModUnique(v, 256 * m, q, 256 * r + v % 256);
  }

  lemma {:induction false} UnsignedBytes(v: int, n: nat)
    ensures Unsigned(Bytes(v, n)) == v % Pow256(n)
    decreases n
  {
    if n > 0 {
      var bs := Bytes(v, n);
      assert bs[..n - 1] == Bytes(v / 256, n - 1);
      UnsignedBytes(v / 256, n - 1);
      ModStep(v, Pow256(n - 1));
    }
  }

  /** Reading back the bytes of an integer gives it exactly when it fits. */
  lemma SignedBytes(v: int, n: nat)
    requires n > 0
    ensures Signed(Bytes(v, n)) == v <==> InWidth(v, n)
  {
    var m := Pow256(n);
    UnsignedBytes(v, n);
    if InWidth(v, n) {
      if v >= 0 {
        ModUnique(v, m, 0, v);
      } else {
        ModUnique(v, m, -1, v + m);
      }
    }
  }

  /** The most significant byte comes first. */
  lemma {:induction false} ByteAt(v: int, n: nat, i: nat)
    requires i < n
    ensures Bytes(v, n)[i] == v / Pow256(n - 1 - i) % 256
    decreases n
  {
    if i < n - 1 {
      ByteAt(v / 256, n - 1, i);
      DivStep(v, Pow256(n - 2 - i));
    }
  }

  lemma DivStep(v: int, m: nat)
    requires m > 0
    ensures v / (256 * m) == (v / 256) / m
  {
    var q := (v / 256) / m;
    ModStep(v, m);
    assert v / 256 == m * q + (v / 256) % m;
    assert v == (256 * m) * q + v % (256 * m);
    assert v == (256 * m) * (v / (256 * m)) + v % (256 * m);
    if q < v / (256 * m) {
      Multiples(256 * m, q, v / (256 * m));
    } else if q > v / (256 * m) {
      Multiples(256 * m, v / (256 * m), q);
    }
  }

  lemma Powers()
    ensures Pow256(1) == 256 && Pow256(2) == 0x1_0000 && Pow256(4) == 0x1_0000_0000
    ensures Pow256(8) == 0x1_0000_0000_0000_0000
  {
    assert Pow256(0) == 1;
    assert Pow256(1) == 256;
    assert Pow256(2) == 65536;
    assert Pow256(3) == 16777216;
    assert Pow256(4) == 4294967296;
    assert Pow256(5) == 1099511627776;
    assert Pow256(6) == 281474976710656;
    assert Pow256(7) == 72057594037927936;
  }
}
