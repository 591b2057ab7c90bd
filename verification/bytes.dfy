/**
 Bytes and the big-endian integer encoding of Go's `encoding/binary`
 (`binary.BigEndian.Uint64` and `binary.BigEndian.PutUint64`).
 */
module Bytes {

  /** An octet, the element type of Go's `[]byte`. */
  type byte = b: int | 0 <= b < 256

  /** 2^64: one more than the largest `uint64`. */
  const TWO_TO_THE_64: nat := 0x1_0000_0000_0000_0000

  function Pow2(k: nat): (r: nat)
    ensures r >= 1
  {
    if k == 0 then 1 else 2 * Pow2(k - 1)
  }

  lemma {:induction false} Pow2Add(a: nat, b: nat)
    ensures Pow2(a + b) == Pow2(a) * Pow2(b)
  {
    if a > 0 {
      Pow2Add(a - 1, b);
      assert Pow2(a + b) == 2 * Pow2(a - 1 + b);
    }
  }

  lemma {:induction false} Pow2Monotone(a: nat, b: nat)
    requires a <= b
    ensures Pow2(a) <= Pow2(b)
  {
    if a < b {
      Pow2Monotone(a, b - 1);
    }
  }

  lemma Pow2Of8()
    ensures Pow2(8) == 256
  {
  }

  lemma Pow2Of64()
    ensures Pow2(64) == TWO_TO_THE_64
  {
    Pow2Of8();
    Pow2Add(8, 8);
    assert Pow2(16) == 0x1_0000;
    Pow2Add(16, 16);
    assert Pow2(32) == 0x1_0000_0000;
    Pow2Add(32, 32);
  }

  lemma DivUnique(x: nat, q: nat, r: nat, m: nat)
    requires 0 <= r < m
    requires x == q * m + r
    ensures x / m == q
  {
    var d := x / m;
    assert x == d * m + x % m;
    if q > d {
      MulMonotone(d + 1, q, m);
    } else if q < d {
      MulMonotone(q + 1, d, m);
    }
  }

  /** Dividing by a positive number never increases a natural number. */
  lemma DivAtMost(x: nat, m: nat)
    requires m >= 1
    ensures 0 <= x / m <= x
  {
    var d := x / m;
    assert x == d * m + x % m;
    MulMonotone(1, m, d);
  }

  lemma DivBound(x: nat, a: nat, m: nat)
    requires m >= 1 && x < a * m
    ensures x / m < a
  {
    var d := x / m;
    assert x == d * m + x % m;
    if d >= a {
      MulMonotone(a, d, m);
    }
  }

  lemma MulMonotone(a: nat, b: nat, m: nat)
    requires a <= b
    ensures a * m <= b * m
  {
  }

  /** n zero bytes, as `make([]byte, n)` yields. */
  function Zeros(n: nat): seq<byte> {
    seq(n, _ => 0)
  }

  /** The unsigned integer whose big-endian encoding is `bs`. */
  function BEValue(bs: seq<byte>): nat {
    if |bs| == 0 then 0 else BEValue(bs[..|bs| - 1]) * 256 + bs[|bs| - 1]
  }

  /** The low 8n bits of x as n big-endian bytes. */
  function BEBytes(x: nat, n: nat): seq<byte> {
    if n == 0 then [] else BEBytes(x / 256, n - 1) + [(x % 256) as byte]
  }

  lemma {:induction false} BEValueBound(bs: seq<byte>)
    ensures BEValue(bs) < Pow2(8 * |bs|)
  {
    if |bs| > 0 {
      var init := bs[..|bs| - 1];
      BEValueBound(init);
      Pow2Add(8 * |init|, 8);
      Pow2Of8();
      assert Pow2(8 * |bs|) == Pow2(8 * |init|) * 256;
      assert BEValue(bs) == BEValue(init) * 256 + bs[|bs| - 1];
      assert BEValue(init) + 1 <= Pow2(8 * |init|);
      assert (BEValue(init) + 1) * 256 <= Pow2(8 * |init|) * 256;
    }
  }

  /** Encoding then decoding n bytes gives back any value below 2^(8n). */
  lemma {:induction false} BEBytesValue(x: nat, n: nat)
    requires x < Pow2(8 * n)
    ensures |BEBytes(x, n)| == n
    ensures BEValue(BEBytes(x, n)) == x
  {
    if n > 0 {
      Pow2Add(8 * (n - 1), 8);
      Pow2Of8();
      assert Pow2(8 * n) == Pow2(8 * (n - 1)) * 256;
      assert x / 256 < Pow2(8 * (n - 1));
      BEBytesValue(x / 256, n - 1);
      var bs := BEBytes(x, n);
      assert bs[..|bs| - 1] == BEBytes(x / 256, n - 1);
    }
  }

  /** Decoding then encoding reproduces the bytes. */
  lemma {:induction false} BEValueBytes(bs: seq<byte>)
    ensures BEBytes(BEValue(bs), |bs|) == bs
  {
    if |bs| > 0 {
      var init := bs[..|bs| - 1];
      var last := bs[|bs| - 1];
      var v := BEValue(bs);
      assert v == BEValue(init) * 256 + last;
      assert v / 256 == BEValue(init);
      assert v % 256 == last;
      BEValueBytes(init);
      assert bs == init + [last];
    }
  }

  /**
   `binary.BigEndian.Uint64(b)`: the first eight bytes of b read as a
   big-endian unsigned 64-bit integer.
   */
  function Uint64(b: seq<byte>): (r: nat)
    requires |b| >= 8
    ensures r < TWO_TO_THE_64
  {
    BEValueBound(b[..8]);
    Pow2Of64();
    BEValue(b[..8])
  }

  /** `binary.BigEndian.PutUint64` into a fresh 8-byte buffer. */
  function PutUint64(v: nat): (r: seq<byte>)
    requires v < TWO_TO_THE_64
    ensures |r| == 8
    ensures Uint64(r) == v
  {
    Pow2Of64();
    BEBytesValue(v, 8);
    var r := BEBytes(v, 8);
    assert r[..8] == r;
    r
  }

  /** Reading eight bytes and writing them back gives the same eight bytes. */
  lemma PutUint64OfUint64(b: seq<byte>)
    requires |b| >= 8
    ensures PutUint64(Uint64(b)) == b[..8]
  {
    BEValueBytes(b[..8]);
  }

  lemma {:induction false} BEValueZeros(n: nat)
    ensures BEValue(Zeros(n)) == 0
  {
    if n > 0 {
      assert Zeros(n)[..n - 1] == Zeros(n - 1);
      BEValueZeros(n - 1);
    }
  }

  /** Zero is written as eight zero bytes. */
  lemma PutUint64Zero()
    ensures PutUint64(0) == Zeros(8)
  {
    BEValueZeros(8);
    assert Zeros(8)[..8] == Zeros(8);
    PutUint64OfUint64(Zeros(8));
  }

  /** Distinct values have distinct 8-byte encodings. */
  lemma PutUint64Injective(v: nat, w: nat)
    requires v < TWO_TO_THE_64 && w < TWO_TO_THE_64
    ensures PutUint64(v) == PutUint64(w) <==> v == w
  {
    if PutUint64(v) == PutUint64(w) {
      assert Uint64(PutUint64(v)) == Uint64(PutUint64(w));
    }
  }
}
