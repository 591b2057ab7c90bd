/** Go's `encoding/hex`: `DecodeString` and its inverse `EncodeToString`. */
module Hex {
  import opened Wrappers
  import opened Bytes

  /**
   Why a string is not hex. Go distinguishes an odd length from an invalid
   character; both make every caller here fail the same way, so one kind
   stands for both.
   */
  datatype HexError = MalformedHex

  /** The value of one hex digit, either case, as Go's `fromHexChar`. */
  function FromHexChar(c: char): Option<nat> {
    if '0' <= c <= '9' then Some(c as nat - '0' as nat)
    else if 'a' <= c <= 'f' then Some(c as nat - 'a' as nat + 10)
    else if 'A' <= c <= 'F' then Some(c as nat - 'A' as nat + 10)
    else None
  }

  predicate IsHexDigit(c: char) {
    FromHexChar(c).Some?
  }

  /** The lower-case digit Go's encoder writes for a nibble. */
  function HexDigit(v: nat): char
    requires v < 16
  {
    "0123456789abcdef"[v]
  }

  /**
   `hex.DecodeString`: each pair of digits is one byte, high nibble first.
   It fails on an odd length or on a character that is not a hex digit.
   */
  function HexDecode(s: string): (r: Result<seq<byte>, HexError>)
    ensures r.Success? <==> |s| % 2 == 0 && forall i :: 0 <= i < |s| ==> IsHexDigit(s[i])
    ensures r.Success? ==> 2 * |r.value| == |s|
  {
    if |s| == 0 then Success([])
    else if |s| == 1 then Failure(MalformedHex)
    else match (FromHexChar(s[0]), FromHexChar(s[1]))
      case (Some(hi), Some(lo)) =>
        (match HexDecode(s[2..])
         case Success(rest) => Success([(hi * 16 + lo) as byte] + rest)
         case Failure(e) => Failure(e))
      case _ => Failure(MalformedHex)
  }

  /** `hex.EncodeToString`: two lower-case digits per byte. */
  function HexEncode(bs: seq<byte>): (r: string)
    ensures |r| == 2 * |bs|
  {
    if |bs| == 0 then "" else [HexDigit(bs[0] / 16), HexDigit(bs[0] % 16)] + HexEncode(bs[1..])
  }

  /** Decoding what the encoder wrote gives back the bytes. */
  lemma {:induction false} DecodeEncode(bs: seq<byte>)
    ensures HexDecode(HexEncode(bs)) == Success(bs)
  {
    if |bs| > 0 {
      var b := bs[0];
      var hi, lo := b / 16, b % 16;
      assert hi * 16 + lo == b && hi < 16;
      var rest := HexEncode(bs[1..]);
      assert HexEncode(bs) == [HexDigit(hi), HexDigit(lo)] + rest;
      HexDigitValue(hi);
      HexDigitValue(lo);
      DecodeEncode(bs[1..]);
      DecodePair(HexDigit(hi), HexDigit(lo), rest, hi, lo, bs[1..]);
      assert bs == [b] + bs[1..];
    }
  }

  /** Two hex digits in front of a decodable string decode to one more byte in front. */
  lemma DecodePair(c1: char, c2: char, rest: string, hi: nat, lo: nat, tail: seq<byte>)
    requires FromHexChar(c1) == Some(hi) && FromHexChar(c2) == Some(lo)
    requires HexDecode(rest) == Success(tail)
    ensures hi * 16 + lo < 256
    ensures HexDecode([c1, c2] + rest) == Success([(hi * 16 + lo) as byte] + tail)
  {
    var s := [c1, c2] + rest;
    assert s[0] == c1 && s[1] == c2 && s[2..] == rest;
  }

  lemma HexDigitValue(v: nat)
    requires v < 16
    ensures FromHexChar(HexDigit(v)) == Some(v)
  {
    var digits := "0123456789abcdef";
    if v < 10 {
      assert '0' <= digits[v] <= '9';
    } else {
      assert 'a' <= digits[v] <= 'f';
    }
  }

  /** Zero bytes encode as '0' digits, two per byte. */
  lemma {:induction false} EncodeZeros(n: nat)
    ensures HexEncode(Zeros(n)) == seq(2 * n, _ => '0')
  {
    if n > 0 {
      assert Zeros(n)[1..] == Zeros(n - 1);
      EncodeZeros(n - 1);
    }
  }
}
