/**
 Strings of '0'/'1' characters read as unsigned binary numerals, most
 significant digit first. This is the meaning against which the base-2
 formatting and parsing of Go's `strconv` are stated.
 */
module BinaryStrings {
  import opened Bytes

  predicate IsBinaryDigit(c: char) {
    c == '0' || c == '1'
  }

  predicate IsBinary(s: string) {
    forall i :: 0 <= i < |s| ==> IsBinaryDigit(s[i])
  }

  function DigitValue(c: char): nat {
    if c == '1' then 1 else 0
  }

  function Digit(b: nat): char
    requires b < 2
  {
    if b == 1 then '1' else '0'
  }

  /** The number a binary numeral denotes (Horner's rule from the last digit). */
  function BinValue(s: string): nat {
    if |s| == 0 then 0 else 2 * BinValue(s[..|s| - 1]) + DigitValue(s[|s| - 1])
  }

  /** n '0' characters. */
  function ZeroChars(n: nat): string {
    seq(n, _ => '0')
  }

  lemma ZeroCharsCons(n: nat)
    ensures "0" + ZeroChars(n) == ZeroChars(n + 1)
  {
  }

  /** The low n bits of x as an n-character numeral, leading zeros kept. */
  function BitsOf(x: nat, n: nat): (r: string)
    ensures |r| == n && IsBinary(r)
  {
    if n == 0 then "" else BitsOf(x / 2, n - 1) + [Digit(x % 2)]
  }

  lemma {:induction false} BinValueBound(s: string)
    ensures BinValue(s) < Pow2(|s|)
  {
    if |s| > 0 {
      BinValueBound(s[..|s| - 1]);
    }
  }

  /** The value of a concatenation: the left part shifted past the right part. */
  lemma {:induction false} BinValueConcat(a: string, b: string)
    ensures BinValue(a + b) == BinValue(a) * Pow2(|b|) + BinValue(b)
  {
    if |b| > 0 {
      var b' := b[..|b| - 1];
      var d := DigitValue(b[|b| - 1]);
      assert (a + b)[..|a + b| - 1] == a + b';
      assert (a + b)[|a + b| - 1] == b[|b| - 1];
      BinValueConcat(a, b');
      assert BinValue(a + b) == 2 * BinValue(a + b') + d;
      assert BinValue(b) == 2 * BinValue(b') + d;
      assert Pow2(|b|) == 2 * Pow2(|b'|);
      ShiftStep(BinValue(a), Pow2(|b'|), BinValue(b'), d);
    } else {
      assert a + b == a;
    }
  }

  lemma ShiftStep(va: nat, p: nat, vb: nat, d: nat)
    ensures 2 * (va * p + vb) + d == va * (2 * p) + (2 * vb + d)
  {
  }

  lemma {:induction false} ZeroCharsValue(n: nat)
    ensures IsBinary(ZeroChars(n))
    ensures BinValue(ZeroChars(n)) == 0
  {
    if n > 0 {
      assert ZeroChars(n)[..n - 1] == ZeroChars(n - 1);
      ZeroCharsValue(n - 1);
    }
  }

  /** Leading zeros do not change the value of a numeral. */
  lemma LeadingZerosValue(n: nat, s: string)
    ensures BinValue(ZeroChars(n) + s) == BinValue(s)
  {
    BinValueConcat(ZeroChars(n), s);
    ZeroCharsValue(n);
  }

  /**
   The first k digits of a numeral denote its value shifted right by the
   number of digits dropped.
   */
  lemma BinValuePrefix(s: string, k: nat)
    requires k <= |s|
    ensures BinValue(s[..k]) == BinValue(s) / Pow2(|s| - k)
  {
    assert s == s[..k] + s[k..];
    BinValueConcat(s[..k], s[k..]);
    BinValueBound(s[k..]);
    DivUnique(BinValue(s), BinValue(s[..k]), BinValue(s[k..]), Pow2(|s| - k));
  }

  /** Two binary numerals of the same length with the same value are equal. */
  lemma {:induction false} BinValueInjective(a: string, b: string)
    requires IsBinary(a) && IsBinary(b) && |a| == |b|
    requires BinValue(a) == BinValue(b)
    ensures a == b
  {
    if |a| > 0 {
      var n := |a| - 1;
      LastDigit(a);
      LastDigit(b);
      assert IsBinaryDigit(a[n]) && IsBinaryDigit(b[n]);
      assert a[n] == b[n];
      BinValueInjective(a[..n], b[..n]);
      assert a == a[..n] + [a[n]];
      assert b == b[..n] + [b[n]];
    }
  }

  /** The last digit is the value's parity; the rest is the value halved. */
  lemma LastDigit(s: string)
    requires |s| > 0
    ensures BinValue(s) % 2 == DigitValue(s[|s| - 1])
    ensures BinValue(s) / 2 == BinValue(s[..|s| - 1])
  {
    var v := BinValue(s[..|s| - 1]);
    var d := DigitValue(s[|s| - 1]);
    assert BinValue(s) == 2 * v + d;
    DivUnique(BinValue(s), v, d, 2);
  }

  /** A fixed-width rendering denotes the value it renders. */
  lemma {:induction false} BitsOfValue(x: nat, n: nat)
    requires x < Pow2(n)
    ensures BinValue(BitsOf(x, n)) == x
  {
    if n > 0 {
      var r := BitsOf(x, n);
      assert r[..n - 1] == BitsOf(x / 2, n - 1);
      assert x == 2 * (x / 2) + x % 2;
      assert Pow2(n) == 2 * Pow2(n - 1);
      assert x / 2 < Pow2(n - 1);
      BitsOfValue(x / 2, n - 1);
      assert BinValue(r) == 2 * BinValue(BitsOf(x / 2, n - 1)) + x % 2;
    }
  }

  /** Bytes as a bit string, each byte most significant bit first. */
  function BytesToBits(bs: seq<byte>): (r: string)
    ensures |r| == 8 * |bs| && IsBinary(r)
  {
    if |bs| == 0 then "" else BytesToBits(bs[..|bs| - 1]) + BitsOf(bs[|bs| - 1], 8)
  }

  /** The bit string of some bytes denotes their big-endian value. */
  lemma {:induction false} BytesToBitsValue(bs: seq<byte>)
    ensures BinValue(BytesToBits(bs)) == BEValue(bs)
  {
    if |bs| > 0 {
      var init := bs[..|bs| - 1];
      var last := bs[|bs| - 1];
      BytesToBitsValue(init);
      Pow2Of8();
      BitsOfValue(last, 8);
      BinValueConcat(BytesToBits(init), BitsOf(last, 8));
    }
  }
}
