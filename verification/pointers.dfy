/**
 Pointers: provider records planted in the DHT that say where an encrypted
 payload can be fetched. This module models how a pointer's lookup key is
 derived from a recipient's multihash (coarsened to its leading bits so that
 many recipients share a key), how the synthetic "magic" peer identity that
 marks a provider record as a pointer is built, and how the two are put
 together into a Pointer.
 */
module Pointers {
  import opened Wrappers
  import opened Bytes
  import opened BinaryStrings
  import opened Strconv
  import opened Hex
  import opened Multiformats

  /** The hex text of the magic prefix of every pointer identity. */
  const MAGIC: string := "000000000000000000000000"

  /** Number of bytes the magic prefix decodes to. */
  const MAGIC_LEN: nat := 12

  /** Number of bytes of the hashed entropy that follow the magic prefix. */
  const ENTROPY_LEN: nat := 20

  /** What a pointer is for. Go's `Purpose` is an int whose named values run 1 to 4; 0 is unset. */
  type Purpose = int

  /** A `time.Time`; only its zero value is produced here. */
  datatype Timestamp = ZeroTime | At(unixNanos: int)

  /** A pointer: the DHT key it lives under and the provider record stored there. */
  datatype Pointer = Pointer(
    cid: Cid,
    value: PeerInfo,
    purpose: Purpose,
    timestamp: Timestamp,
    cancelId: Option<PeerId>)

  /** Failures a pointer's construction can report. */
  datatype PointerError =
    | MagicDecodeFailed(hex: HexError)
    | MultihashEncodeFailed(mh: MultihashError)
    | CidDecodeFailed(cid: CidError)

  // ---------------------------------------------------------------------------
  // The lookup key, by reference definition
  // ---------------------------------------------------------------------------

  /** The first eight digest bytes as a big-endian unsigned 64-bit number. */
  function Prefix64(mh: Multihash): nat
    requires |mh.digest| >= 8
  {
    Uint64(mh.digest)
  }

  /** Go's `x >> k` on an unsigned integer (zero once k reaches the width). */
  function ShiftRight(x: nat, k: nat): (r: nat)
    ensures r <= x
  {
    var m := Pow2(k);
    DivAtMost(x, m);
    x / m
  }

  /** The leading prefixLen bits of Prefix64, moved down to the low end. */
  function KeptPrefix(mh: Multihash, prefixLen: nat): nat
    requires |mh.digest| >= 8 && prefixLen <= 64
  {
    ShiftRight(Prefix64(mh), 64 - prefixLen)
  }

  /** The eight bytes that get hashed: KeptPrefix written big-endian. */
  function HashInput(mh: Multihash, prefixLen: nat): seq<byte>
    requires |mh.digest| >= 8 && prefixLen <= 64
  {
    PutUint64(KeptPrefix(mh, prefixLen))
  }

  /** The lookup key: the SHA2-256 multihash of the hash input. */
  function PointerKey(sha: Sha256, mh: Multihash, prefixLen: nat): Multihash
    requires |mh.digest| >= 8 && prefixLen <= 64
  {
    Multihash(SHA2_256, sha(HashInput(mh, prefixLen)))
  }

  /** The leading prefixLen bits of two digests agree. */
  predicate TopBitsAgree(d1: seq<byte>, d2: seq<byte>, prefixLen: nat)
    requires |d1| >= 8 && |d2| >= 8 && prefixLen <= 64
  {
    BytesToBits(d1[..8])[..prefixLen] == BytesToBits(d2[..8])[..prefixLen]
  }

  /** SHA-256 has no collisions among 8-byte messages. */
  ghost predicate CollisionFreeOn8(sha: Sha256) {
    forall a: seq<byte>, b: seq<byte> :: |a| == 8 && |b| == 8 && sha(a) == sha(b) ==> a == b
  }

  // ---------------------------------------------------------------------------
  // The lookup key, as the source computes it
  // ---------------------------------------------------------------------------

  /**
   CreatePointerKey: render the first eight digest bytes as a binary numeral,
   pad it with leading zeros to 64 digits, parse its first prefixLen digits
   back (the error is dropped, so the empty slice of prefixLen = 0 yields 0),
   and hash that number's 8-byte big-endian form. The digest must have eight
   bytes and prefixLen must lie in 0..64. Outside 0..64 the string slice
   panics. A shorter digest panics only when its capacity is below eight;
   otherwise it is read past its length.
   */
  method CreatePointerKey(sha: Sha256, mh: Multihash, prefixLen: int) returns (key: Multihash)
    requires |mh.digest| >= 8
    requires 0 <= prefixLen <= 64
    ensures key == PointerKey(sha, mh, prefixLen)
    ensures key.code == SHA2_256 && |key.digest| == 32
  {
    var prefix64 := Uint64(mh.digest);
    var bin := FormatUint2(prefix64);

    ghost var numeral := bin;
    FormatUint2Width(prefix64);
    var leadingZeros := 64 - |bin|;
    var i := 0;
    while i < leadingZeros
      invariant 0 <= i <= leadingZeros
      invariant bin == ZeroChars(i) + numeral
    {
      ZeroCharsCons(i);
      bin := "0" + bin;
      i := i + 1;
    }
    assert bin == ZeroChars(leadingZeros) + numeral;
    PaddedNumeral(leadingZeros, numeral);
    assert |bin| == 64 && IsBinary(bin);
    assert BinValue(bin) == prefix64;

    var intPrefix := ParseUint2(bin[..prefixLen]).value;
    ParsedSliceIsShift(bin, prefixLen);
    assert intPrefix == KeptPrefix(mh, prefixLen);

    var bs := PutUint64(intPrefix);
    var md := sha(bs);
    var keyHash := Encode(md, SHA2_256);
    key := keyHash.value;
  }

  /** Padding a numeral with leading zeros keeps it a numeral of the same value. */
  lemma PaddedNumeral(n: nat, numeral: string)
    requires IsBinary(numeral)
    ensures IsBinary(ZeroChars(n) + numeral)
    ensures BinValue(ZeroChars(n) + numeral) == BinValue(numeral)
  {
    ZeroCharsValue(n);
    LeadingZerosValue(n, numeral);
  }

  /**
   The padded rendering is exactly 64 characters long and is the bit string
   of the first eight digest bytes, most significant bit first.
   */
  lemma PaddedIsBytesToBits(d: seq<byte>)
    requires |d| >= 8
    ensures |FormatUint2(Uint64(d))| <= 64
    ensures ZeroChars(64 - |FormatUint2(Uint64(d))|) + FormatUint2(Uint64(d)) == BytesToBits(d[..8])
  {
    var numeral := FormatUint2(Uint64(d));
    FormatUint2Width(Uint64(d));
    var padded := ZeroChars(64 - |numeral|) + numeral;
    PaddedNumeral(64 - |numeral|, numeral);
    BytesToBitsValue(d[..8]);
    BinValueInjective(padded, BytesToBits(d[..8]));
  }

  /**
   Parsing the first prefixLen digits of a 64-digit numeral, keeping the value
   whatever the error, yields the numeral's value shifted right by 64 - prefixLen.
   */
  lemma ParsedSliceIsShift(bin: string, prefixLen: nat)
    requires |bin| == 64 && IsBinary(bin) && prefixLen <= 64
    ensures ParseUint2(bin[..prefixLen]).value == ShiftRight(BinValue(bin), 64 - prefixLen)
  {
    BinValuePrefix(bin, prefixLen);
    if prefixLen == 0 {
      BinValueBound(bin);
      assert ParseUint2(bin[..0]).value == 0;
    } else {
      ParseUint2OfNumeral(bin[..prefixLen]);
    }
  }

  // ---------------------------------------------------------------------------
  // Properties of the lookup key
  // ---------------------------------------------------------------------------

  /** Keeping prefixLen leading bits leaves a number below 2^prefixLen. */
  lemma KeptPrefixBound(mh: Multihash, prefixLen: nat)
    requires |mh.digest| >= 8 && prefixLen <= 64
    ensures KeptPrefix(mh, prefixLen) < Pow2(prefixLen)
  {
    var x := Prefix64(mh);
    var m := Pow2(64 - prefixLen);
    Pow2Of64();
    Pow2Add(prefixLen, 64 - prefixLen);
    DivBound(x, Pow2(prefixLen), m);
  }

  /**
   Two digests agree on their leading prefixLen bits exactly when they keep
   the same prefix value.
   */
  lemma TopBitsAgreeIffSameKeptPrefix(m1: Multihash, m2: Multihash, prefixLen: nat)
    requires |m1.digest| >= 8 && |m2.digest| >= 8 && prefixLen <= 64
    ensures TopBitsAgree(m1.digest, m2.digest, prefixLen)
            <==> KeptPrefix(m1, prefixLen) == KeptPrefix(m2, prefixLen)
  {
    var s1 := BytesToBits(m1.digest[..8]);
    var s2 := BytesToBits(m2.digest[..8]);
    BytesToBitsValue(m1.digest[..8]);
    BytesToBitsValue(m2.digest[..8]);
    BinValuePrefix(s1, prefixLen);
    BinValuePrefix(s2, prefixLen);
    if KeptPrefix(m1, prefixLen) == KeptPrefix(m2, prefixLen) {
      BinValueInjective(s1[..prefixLen], s2[..prefixLen]);
    }
  }

  /**
   Bucketing: digests that agree on their leading prefixLen bits get the
   same lookup key, whatever their remaining bits.
   */
  lemma Bucketing(sha: Sha256, m1: Multihash, m2: Multihash, prefixLen: nat)
    requires |m1.digest| >= 8 && |m2.digest| >= 8 && prefixLen <= 64
    requires TopBitsAgree(m1.digest, m2.digest, prefixLen)
    ensures PointerKey(sha, m1, prefixLen) == PointerKey(sha, m2, prefixLen)
  {
    TopBitsAgreeIffSameKeptPrefix(m1, m2, prefixLen);
  }

  /**
   With a hash that does not collide on 8-byte messages, two digests share a
   lookup key exactly when they agree on their leading prefixLen bits.
   */
  lemma BucketsAreExact(sha: Sha256, m1: Multihash, m2: Multihash, prefixLen: nat)
    requires |m1.digest| >= 8 && |m2.digest| >= 8 && prefixLen <= 64
    requires CollisionFreeOn8(sha)
    ensures PointerKey(sha, m1, prefixLen) == PointerKey(sha, m2, prefixLen)
            <==> TopBitsAgree(m1.digest, m2.digest, prefixLen)
  {
    TopBitsAgreeIffSameKeptPrefix(m1, m2, prefixLen);
    var k1 := KeptPrefix(m1, prefixLen);
    var k2 := KeptPrefix(m2, prefixLen);
    if PointerKey(sha, m1, prefixLen) == PointerKey(sha, m2, prefixLen) {
      assert sha(PutUint64(k1)) == sha(PutUint64(k2));
      PutUint64Injective(k1, k2);
    }
  }

  /**
   A zero prefix length keeps nothing: every digest gets the key of eight
   zero bytes.
   */
  lemma ZeroPrefixLenIsOneBucket(sha: Sha256, mh: Multihash)
    requires |mh.digest| >= 8
    ensures KeptPrefix(mh, 0) == 0
    ensures PointerKey(sha, mh, 0) == Multihash(SHA2_256, sha(Zeros(8)))
  {
    KeptPrefixBound(mh, 0);
    PutUint64Zero();
  }

  /**
   A prefix length of 64 keeps everything: the hashed bytes are the first
   eight digest bytes themselves, so digests that differ there hash
   different inputs.
   */
  lemma FullPrefixLenKeepsDigest(m1: Multihash, m2: Multihash)
    requires |m1.digest| >= 8 && |m2.digest| >= 8
    ensures HashInput(m1, 64) == m1.digest[..8]
    ensures HashInput(m1, 64) == HashInput(m2, 64) <==> m1.digest[..8] == m2.digest[..8]
  {
    PutUint64OfUint64(m1.digest);
    PutUint64OfUint64(m2.digest);
  }

  /**
   A digest whose first eight bytes are zero keeps 0 at a prefix length of
   16, so its key is the SHA2-256 multihash of eight zero bytes.
   */
  lemma ZeroDigestAtSixteenBits(sha: Sha256, mh: Multihash)
    requires |mh.digest| >= 8 && mh.digest[..8] == Zeros(8)
    ensures KeptPrefix(mh, 16) == 0
    ensures PointerKey(sha, mh, 16) == Multihash(SHA2_256, sha(Zeros(8)))
  {
    BEValueZeros(8);
    PutUint64Zero();
  }

  // ---------------------------------------------------------------------------
  // The magic identity
  // ---------------------------------------------------------------------------

  /** A peer identity that marks a provider record as a pointer. */
  predicate IsMagicId(id: PeerId) {
    && id.hash.code == SHA2_256
    && |id.hash.digest| == MAGIC_LEN + ENTROPY_LEN
    && id.hash.digest[..MAGIC_LEN] == Zeros(MAGIC_LEN)
  }

  /** MAGIC is the hex text of twelve zero bytes. */
  lemma MagicIsTwelveZeroBytes()
    ensures HexEncode(Zeros(MAGIC_LEN)) == MAGIC
    ensures HexDecode(MAGIC) == Success(Zeros(MAGIC_LEN))
  {
    EncodeZeros(MAGIC_LEN);
    DecodeEncode(Zeros(MAGIC_LEN));
  }

  /**
   getMagicID: the twelve bytes MAGIC decodes to, followed by the first twenty
   bytes of SHA-256(entropy), as a SHA2-256 multihash read as a peer ID.
   */
  function GetMagicId(sha: Sha256, entropy: seq<byte>): (r: Result<PeerId, PointerError>)
    ensures r.Success?
    ensures IsMagicId(r.value)
    ensures r.value.hash.digest[MAGIC_LEN..] == sha(entropy)[..ENTROPY_LEN]
  {
    MagicIsTwelveZeroBytes();
    match HexDecode(MAGIC)
    case Failure(e) => Failure(MagicDecodeFailed(e))
    case Success(magicBytes) =>
      var hashedEntropy := sha(entropy);
      var buf := magicBytes + hashedEntropy[..ENTROPY_LEN];
      match Encode(buf, SHA2_256)
      case Failure(e) => Failure(MultihashEncodeFailed(e))
      case Success(h) => Success(PeerId(h))
  }

  /**
   Two entropies give the same magic identity exactly when their SHA-256
   hashes agree on the first twenty bytes.
   */
  lemma MagicIdDistinguishesEntropy(sha: Sha256, e1: seq<byte>, e2: seq<byte>)
    ensures GetMagicId(sha, e1) == GetMagicId(sha, e2)
            <==> sha(e1)[..ENTROPY_LEN] == sha(e2)[..ENTROPY_LEN]
  {
    var d1 := GetMagicId(sha, e1).value.hash.digest;
    var d2 := GetMagicId(sha, e2).value.hash.digest;
    if sha(e1)[..ENTROPY_LEN] == sha(e2)[..ENTROPY_LEN] {
      assert d1 == d1[..MAGIC_LEN] + d1[MAGIC_LEN..];
      assert d2 == d2[..MAGIC_LEN] + d2[MAGIC_LEN..];
    }
  }

  // ---------------------------------------------------------------------------
  // The pointer
  // ---------------------------------------------------------------------------

  /**
   NewPointer: the CID of the derived key, a provider record made of the magic
   identity and the single address addr, and every other field at its zero
   value.
   */
  method NewPointer(sha: Sha256, mhKey: Multihash, prefixLen: int, addr: Multiaddr, entropy: seq<byte>)
    returns (r: Result<Pointer, PointerError>)
    requires |mhKey.digest| >= 8
    requires 0 <= prefixLen <= 64
    ensures r.Success?
    ensures r.value.cid == CidV0(PointerKey(sha, mhKey, prefixLen))
    ensures IsMagicId(r.value.value.id)
    ensures r.value.value.id.hash.digest[MAGIC_LEN..] == sha(entropy)[..ENTROPY_LEN]
    ensures r.value.value.addrs == [addr]
    ensures r.value.purpose == 0 && r.value.timestamp == ZeroTime && r.value.cancelId == None
  {
    var keyhash := CreatePointerKey(sha, mhKey, prefixLen);
    match CidFromMultihash(keyhash)
    case Failure(e) =>
      return Failure(CidDecodeFailed(e));
    case Success(k) =>
      match GetMagicId(sha, entropy)
      case Failure(e) =>
        return Failure(e);
      case Success(magicId) =>
        var pi := PeerInfo(magicId, [addr]);
        return Success(Pointer(k, pi, 0, ZeroTime, None));
  }
}
