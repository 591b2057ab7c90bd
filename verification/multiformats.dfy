/**
 The boundary to the self-describing encodings the pointer code hands its
 values to: SHA-256, multihash, CID, peer ID and multiaddress. Their byte
 layouts belong to foreign libraries and are kept abstract: a multihash is
 its (code, digest) pair, a CID and a peer ID wrap a multihash, and a
 multiaddress is opaque bytes.
 */
module Multiformats {
  import opened Wrappers
  import opened Bytes

  /** A SHA-256 output. */
  type Digest32 = s: seq<byte> | |s| == 32 witness Zeros(32)

  /**
   SHA-256 over a message. Its internals are not part of this model, so every
   operation that hashes takes the hash function as a parameter; all that is
   assumed of it is that it is a function returning 32 bytes.
   */
  type Sha256 = seq<byte> -> Digest32

  /** The multicodec code of SHA2-256 (`multihash.SHA2_256`). */
  const SHA2_256: nat := 0x12

  /** A decoded multihash: the hash-function code and the digest bytes. */
  datatype Multihash = Multihash(code: nat, digest: seq<byte>)

  datatype MultihashError = ErrUnknownCode

  /**
   Hash-function codes the multihash library knows: SHA1, SHA2-256, SHA2-512
   and SHA3-512. The library's full table is longer; only SHA2-256 is used here.
   */
  predicate ValidCode(code: nat) {
    code == 0x11 || code == SHA2_256 || code == 0x13 || code == 0x14
  }

  /** `multihash.Encode(buf, code)`: fails on an unknown code. */
  function Encode(buf: seq<byte>, code: nat): Result<Multihash, MultihashError> {
    if ValidCode(code) then Success(Multihash(code, buf)) else Failure(ErrUnknownCode)
  }

  /** A version-0 content identifier: a bare SHA2-256 multihash. */
  datatype Cid = CidV0(hash: Multihash)

  datatype CidError = ErrInvalidCid

  /**
   `cid.Decode(mh.B58String())`: the Base58 text of a 32-byte SHA2-256
   multihash is read back as the version-0 CID of that multihash. Any other
   multihash is reported as an invalid CID.
   */
  function CidFromMultihash(mh: Multihash): Result<Cid, CidError> {
    if mh.code == SHA2_256 && |mh.digest| == 32 then Success(CidV0(mh)) else Failure(ErrInvalidCid)
  }

  /** A libp2p peer identity: the multihash whose bytes form the ID. */
  datatype PeerId = PeerId(hash: Multihash)

  /** A multiaddress, kept as its encoded bytes. */
  datatype Multiaddr = Multiaddr(bytes: seq<byte>)

  /** `peerstore.PeerInfo`: an identity and the addresses it is reachable at. */
  datatype PeerInfo = PeerInfo(id: PeerId, addrs: seq<Multiaddr>)
}
