# Pointer key and identity derivation

A *pointer* is a provider record planted in an IPFS-style DHT that tells a
recipient where an encrypted payload can be fetched (an offline mailbox). This
project models, in Dafny, the pure part of `ipfs/pointers.go` that builds a
pointer:

- **`CreatePointerKey`**: the DHT lookup key. The first eight bytes of the
  recipient's multihash digest are read as a big-endian `uint64`, rendered as
  a binary numeral, left-padded with zeros to 64 digits, and the first
  `prefixLen` digits are parsed back as a number. That number's 8-byte
  big-endian form is hashed with SHA-256 and wrapped as a SHA2-256 multihash.
  Every digest that shares those leading bits ends up with the same key. This
  bucketing hides which recipient a pointer is meant for.
- **`getMagicID`**: the synthetic peer identity of the provider record. It is
  12 zero bytes (the hex constant `MAGIC`) followed by the first 20 bytes of
  SHA-256(entropy), read as a SHA2-256 multihash and then as a peer ID.
- **`NewPointer`**: the key's CID, a provider record carrying the magic
  identity and the one given address, and every other field at its zero value.

## Layout

| file | module | models |
|---|---|---|
| `wrappers.dfy` | `Wrappers` | `Option` and `Result`, the Go `(value, error)` pairs |
| `bytes.dfy` | `Bytes` | bytes, powers of two, `binary.BigEndian.Uint64` / `PutUint64` |
| `binary_strings.dfy` | `BinaryStrings` | binary numerals and their values, bytes as bit strings |
| `strconv.dfy` | `Strconv` | `strconv.FormatUint(x, 2)` and `strconv.ParseUint(s, 2, 64)`, error values included |
| `hex.dfy` | `Hex` | `hex.DecodeString` and its inverse |
| `multiformats.dfy` | `Multiformats` | SHA-256 as a parameter, multihash, CID, peer ID, multiaddress, peer info |
| `pointers.dfy` | `Pointers` | `MAGIC`, `CreatePointerKey`, `getMagicID`, `NewPointer`, and their properties |

`Pointers.CreatePointerKey` follows the Go code step by step: the numeral,
the padding loop, the slice, and the parse whose error is dropped. Its
postcondition equates the result with `Pointers.PointerKey`. That function is
an independent reference definition: hash the 8-byte big-endian form of
`prefix64 >> (64 - prefixLen)`. All the bucketing lemmas are stated against
`PointerKey`. "Agreeing on the leading bits" is stated over the bit string of
the digest bytes (`BinaryStrings.BytesToBits`), not over the shift.

SHA-256 is a parameter `sha: Sha256` of every operation that hashes. All the
model assumes is that SHA-256 is a function returning 32 bytes.
`Pointers.BucketsAreExact` also assumes, as a hypothesis, that it has no
collisions among 8-byte inputs.

Three points about what the code computes:

- The kept bits are moved down to the low end (`prefix64 >> (64 - prefixLen)`),
  not masked in place, so the hashed value is below `2^prefixLen`.
- The code checks neither input. `bin[:prefixLen]` (ipfs/pointers.go:150)
  panics for a `prefixLen` outside 0..64, since `bin` is a 64-character
  string. `m.Digest[:8]` (ipfs/pointers.go:138) panics only when the digest's
  capacity is below 8. A shorter digest with spare capacity is read past its
  end. The model's domain is digests of at least 8 bytes and
  `0 <= prefixLen <= 64`, stated as `requires` clauses.
- With `prefixLen = 0` the code parses the empty string. `ParseUint` reports a
  syntax error and returns 0, and the code ignores the error. The model keeps
  the returned value, as the code does. This agrees with the shift, since
  `prefix64 >> 64` is 0.

## Model

| member | source | states |
|---|---|---|
| Bytes.Uint64 | ipfs/pointers.go:138 | the first eight digest bytes, read big-endian, give a value below 2^64 |
| Bytes.PutUint64 | ipfs/pointers.go:153-154 | a value below 2^64 is written as exactly eight bytes that read back as that value |
| Bytes.PutUint64OfUint64 | ipfs/pointers.go:153-154 | reading eight bytes and writing them back gives the same eight bytes |
| Bytes.PutUint64Injective | ipfs/pointers.go:153-154 | two values have the same 8-byte encoding exactly when they are equal |
| Bytes.PutUint64Zero | ipfs/pointers.go:153-154 | zero is written as eight zero bytes |
| BinaryStrings.BytesToBitsValue | ipfs/pointers.go:138-147 | the bit string of the digest bytes denotes their big-endian value |
| BinaryStrings.BinValuePrefix | ipfs/pointers.go:150 | the first k digits of a numeral denote its value divided by 2^(length - k) |
| BinaryStrings.BinValueInjective | ipfs/pointers.go:141-150 | two binary numerals of equal length and equal value are the same string |
| Strconv.FormatUint2 | ipfs/pointers.go:141 | the rendering is a binary numeral of the number, "0" for zero, otherwise starting with '1', and no longer than it needs to be |
| Strconv.FormatUint2Width | ipfs/pointers.go:141-144 | a uint64 is rendered in at most 64 digits, so the number of leading zeros to add is never negative |
| Strconv.ParseUint2Correct | ipfs/pointers.go:150 | ParseUint in base 2 reports no error exactly for non-empty binary numerals below 2^64, and then returns their value; on the empty string it reports a syntax error and returns 0 |
| Strconv.ParseUint2OfNumeral | ipfs/pointers.go:150 | a binary numeral of 1 to 64 digits parses without error to its value |
| Strconv.FormatThenParse | ipfs/pointers.go:141-150 | parsing the rendering of a uint64 gives back the number with no error |
| Pointers.PaddedNumeral | ipfs/pointers.go:143-147 | adding leading zeros keeps a binary numeral and its value |
| Pointers.PaddedIsBytesToBits | ipfs/pointers.go:138-147 | the rendering padded with leading zeros is exactly 64 characters and equals the bit string of the first eight digest bytes, so reading it as base 2 gives prefix64 |
| Pointers.ParsedSliceIsShift | ipfs/pointers.go:150 | parsing the first prefixLen of 64 digits, whatever the error, gives the value shifted right by 64 - prefixLen |
| Pointers.CreatePointerKey | ipfs/pointers.go:135-164 | the key computed by the binary-string route equals the SHA2-256 multihash of SHA-256 of the 8-byte big-endian form of prefix64 >> (64 - prefixLen) |
| Pointers.KeptPrefixBound | ipfs/pointers.go:150 | the number that is kept is below 2^prefixLen |
| Pointers.TopBitsAgreeIffSameKeptPrefix | ipfs/pointers.go:138-150 | two digests keep the same number exactly when their leading prefixLen bits agree |
| Pointers.Bucketing | ipfs/pointers.go:135-164 | digests whose leading prefixLen bits agree get the same key |
| Pointers.BucketsAreExact | ipfs/pointers.go:135-164 | if SHA-256 has no collisions on 8-byte inputs, two digests share a key exactly when their leading prefixLen bits agree |
| Pointers.ZeroPrefixLenIsOneBucket | ipfs/pointers.go:150-163 | with prefixLen 0, every digest keeps 0 and gets the key of eight zero bytes |
| Pointers.FullPrefixLenKeepsDigest | ipfs/pointers.go:150-154 | with prefixLen 64, the hashed bytes are the first eight digest bytes, so different leading bytes give different hash inputs |
| Pointers.ZeroDigestAtSixteenBits | ipfs/pointers.go:138-163 | a digest starting with eight zero bytes keeps 0 at prefixLen 16, so its key is SHA-256 of eight zero bytes |
| Hex.HexDecode | ipfs/pointers.go:167 | hex decoding succeeds exactly on even-length strings of hex digits, and yields half as many bytes |
| Hex.DecodeEncode | ipfs/pointers.go:167 | decoding the hex encoding of some bytes gives back those bytes |
| Pointers.MagicIsTwelveZeroBytes | ipfs/pointers.go:26 | MAGIC is the hex text of twelve zero bytes, and it decodes to them |
| Pointers.GetMagicId | ipfs/pointers.go:166-184 | the identity is always built; it is a 32-byte SHA2-256 multihash made of the 12 magic zero bytes followed by the first 20 bytes of SHA-256(entropy) |
| Pointers.MagicIdDistinguishesEntropy | ipfs/pointers.go:171-175 | two entropies give the same identity exactly when their SHA-256 hashes agree on the first 20 bytes |
| Pointers.NewPointer | ipfs/pointers.go:52-68 | construction succeeds; the CID wraps the derived key; the identity is the magic one for the entropy; the addresses are exactly [addr]; purpose, timestamp and cancel ID keep their zero values |

## Left out

- `PublishPointer`, `addPointer`, `putPointer`, `PutPointerToPeer` (ipfs/pointers.go:70-72, 91-94, 106-133) are left out. They are network RPCs, with a goroutine per peer and a `WaitGroup` barrier.
- `FindPointersAsync`, `FindPointers`, `GetPointersFromPeer` (ipfs/pointers.go:75-104) are left out. They consume channels and RPC responses of the DHT.
- SHA-256 is a function parameter, not an implementation. Concrete digests, such as the exact key bytes for a zero prefix, are not computed.
- The byte encodings of multihash, CID (Base58) and multiaddress are not modelled. They belong to foreign libraries. A multihash is its `(code, digest)` pair, and a multiaddress is opaque bytes.
- A digest shorter than 8 bytes whose backing array has room for 8 is outside the model. `m.Digest[:8]` (ipfs/pointers.go:138) reslices it up to its capacity and reads bytes past its length. The model requires 8 digest bytes.
- `multihash.Decode(mh)` at ipfs/pointers.go:137 is not modelled. The key derivation receives the multihash already decoded. The case where a malformed byte string decodes to nil and then panics is therefore not represented.
- Multiformats.ValidCode lists only four hash codes of the multihash library's table. Only SHA2-256 is ever encoded here.
- Multiformats.CidFromMultihash treats only a 32-byte SHA2-256 multihash as decodable. Its Base58 text is the version-0 CID of that multihash. Every other multihash is reported as invalid instead of going through the library's multibase rules. The pointer code only ever passes SHA2-256 keys.
- Pointers.GetMagicId does not model the error branch of `peer.IDFromBytes` (ipfs/pointers.go:179-182). That call only re-validates the multihash that `multihash.Encode` has just produced, so its error is unreachable here.
- Hex.HexDecode reports a single error kind. Go tells an odd length apart from an invalid character, but the caller treats both alike.
- The `Purpose` constants (ipfs/pointers.go:28-35) are left out. `Purpose` is kept as a plain integer, because this code only ever leaves it at 0.
- `CancelID` and `Timestamp` are pass-through fields with no logic. They are modelled only by their zero values.
- `namesys/resolver.go` is only an interface declaration, and `mobile/config.go` is only a configuration struct. Neither is part of this model.
