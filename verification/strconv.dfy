/**
 The two base-2 conversions of Go's `strconv` that the pointer key derivation
 uses: `FormatUint(x, 2)` and `ParseUint(s, 2, 64)`.
 */
module Strconv {
  import opened Wrappers
  import opened Bytes
  import opened BinaryStrings

  /** The largest `uint64`. */
  const MAX_UINT64: nat := TWO_TO_THE_64 - 1

  /** The error kinds `ParseUint` reports (`strconv.ErrSyntax`, `strconv.ErrRange`). */
  datatype NumError = ErrSyntax | ErrRange

  /** Go's `(uint64, error)` pair: the value is returned even alongside an error. */
  datatype Parsed = Parsed(value: nat, err: Option<NumError>)

  /**
   `strconv.FormatUint(n, 2)`: the shortest numeral for n, so "0" for zero
   and a leading '1' otherwise.
   */
  function FormatUint2(n: nat): (r: string)
    ensures IsBinary(r) && |r| >= 1
    ensures BinValue(r) == n
    ensures n > 0 ==> r[0] == '1'
    ensures n == 0 ==> r == "0"
    ensures n < Pow2(|r|)
    ensures n == 0 || Pow2(|r| - 1) <= n
  {
    if n < 2 then [Digit(n)] else FormatUint2(n / 2) + [Digit(n % 2)]
  }

  /** A `uint64` is rendered in at most 64 digits. */
  lemma FormatUint2Width(n: nat)
    requires n < TWO_TO_THE_64
    ensures |FormatUint2(n)| <= 64
  {
    var r := FormatUint2(n);
    if |r| > 64 {
      Pow2Monotone(64, |r| - 1);
      Pow2Of64();
    }
  }

  /**
   The digit loop of `ParseUint` for base 2 and bit size 64, with n the value
   accumulated so far. The first character that is not a base-2 digit is a
   syntax error and yields 0; a step whose result would exceed MAX_UINT64 is
   a range error and yields MAX_UINT64. (Go tests `n >= cutoff` and then
   `n1 > maxVal`; for base 2 both together amount to `2n + d > MAX_UINT64`.)
   */
  function ParseDigits(s: string, n: nat): Parsed
    requires n <= MAX_UINT64
    decreases |s|
  {
    if |s| == 0 then Parsed(n, None)
    else if !IsBinaryDigit(s[0]) then Parsed(0, Some(ErrSyntax))
    else if 2 * n + DigitValue(s[0]) > MAX_UINT64 then Parsed(MAX_UINT64, Some(ErrRange))
    else ParseDigits(s[1..], 2 * n + DigitValue(s[0]))
  }

  /** `strconv.ParseUint(s, 2, 64)`: the empty string is a syntax error yielding 0. */
  function ParseUint2(s: string): Parsed {
    if |s| == 0 then Parsed(0, Some(ErrSyntax)) else ParseDigits(s, 0)
  }

  /**
   The digit loop succeeds exactly when every character is a binary digit and
   the whole value fits, and then it yields that value.
   */
  lemma {:induction false} ParseDigitsCorrect(s: string, n: nat)
    requires n <= MAX_UINT64
    ensures ParseDigits(s, n).err == None
            <==> IsBinary(s) && n * Pow2(|s|) + BinValue(s) <= MAX_UINT64
    ensures ParseDigits(s, n).err == None
            ==> ParseDigits(s, n).value == n * Pow2(|s|) + BinValue(s)
  {
    if |s| > 0 {
      var d := DigitValue(s[0]);
      var t := s[1..];
      var m := 2 * n + d;
      var p := Pow2(|t|);
      AccumulateStep(s, n);
      assert n * Pow2(|s|) + BinValue(s) == m * p + BinValue(t);
      if !IsBinaryDigit(s[0]) {
        assert ParseDigits(s, n).err == Some(ErrSyntax);
        assert !IsBinary(s);
      } else if m > MAX_UINT64 {
        assert ParseDigits(s, n).err == Some(ErrRange);
        MulMonotone(1, p, m);
        assert m * p + BinValue(t) > MAX_UINT64;
      } else {
        assert ParseDigits(s, n) == ParseDigits(t, m);
        ParseDigitsCorrect(t, m);
        IsBinaryCons(s);
      }
    }
  }

  /** A string that starts with a binary digit is binary exactly when its tail is. */
  lemma IsBinaryCons(s: string)
    requires |s| > 0 && IsBinaryDigit(s[0])
    ensures IsBinary(s) <==> IsBinary(s[1..])
  {
    if IsBinary(s[1..]) {
      forall i | 0 <= i < |s|
        ensures IsBinaryDigit(s[i])
      {
        if i > 0 {
          assert s[i] == s[1..][i - 1];
        }
      }
    }
  }

  /** Consuming the first digit doubles the accumulator and adds the digit. */
  lemma AccumulateStep(s: string, n: nat)
    requires |s| > 0
    ensures n * Pow2(|s|) + BinValue(s) == (2 * n + DigitValue(s[0])) * Pow2(|s| - 1) + BinValue(s[1..])
  {
    var d := DigitValue(s[0]);
    var t := s[1..];
    assert s == [s[0]] + t;
    BinValueConcat([s[0]], t);
    assert BinValue([s[0]]) == d by {
      assert [s[0]][..0] == [];
    }
    assert Pow2(|s|) == 2 * Pow2(|t|);
    Distribute(n, d, Pow2(|t|));
  }

  lemma Distribute(n: nat, d: nat, p: nat)
    ensures n * (2 * p) + d * p == (2 * n + d) * p
  {
  }

  /**
   `ParseUint(s, 2, 64)` reports no error exactly for non-empty binary numerals
   whose value fits in 64 bits, and then returns that value.
   */
  lemma ParseUint2Correct(s: string)
    ensures ParseUint2(s).err == None <==> |s| >= 1 && IsBinary(s) && BinValue(s) <= MAX_UINT64
    ensures ParseUint2(s).err == None ==> ParseUint2(s).value == BinValue(s)
    ensures |s| == 0 ==> ParseUint2(s) == Parsed(0, Some(ErrSyntax))
  {
    if |s| > 0 {
      ParseDigitsCorrect(s, 0);
    }
  }

  /** Every numeral of 1 to 64 binary digits parses without error to its value. */
  lemma ParseUint2OfNumeral(s: string)
    requires IsBinary(s) && 1 <= |s| <= 64
    ensures ParseUint2(s) == Parsed(BinValue(s), None)
  {
    BinValueBound(s);
    Pow2Monotone(|s|, 64);
    Pow2Of64();
    ParseUint2Correct(s);
  }

  /** Parsing the formatted numeral of a `uint64` gives the number back. */
  lemma FormatThenParse(n: nat)
    requires n < TWO_TO_THE_64
    ensures ParseUint2(FormatUint2(n)) == Parsed(n, None)
  {
    FormatUint2Width(n);
    ParseUint2OfNumeral(FormatUint2(n));
  }
}
