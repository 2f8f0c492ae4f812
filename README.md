# zkLogin codec layer: a verified Dafny model

This project models the binary and text codecs of the zkLogin types in
`src/types/crypto/zklogin.rs`:

- **AddressSeed.** A 256-bit unsigned integer held as 32 big-endian bytes. The model covers its
  `padded` view (the whole buffer) and its `unpadded` view (leading zero
  bytes stripped, but never empty). It also covers `Display` and `FromStr`, which write and read the
  value as base-10 text and reject values of 2^256 or more.
- **ZkLoginPublicIdentifier compact encoding.** One byte gives the issuer's byte length. The issuer's
  bytes follow, then the 32-byte padded address seed. Decoding checks bounds
  and has three error cases:
  - the issuer runs past the buffer;
  - the issuer is not UTF-8;
  - the seed is not exactly 32 bytes.
- **ZkLoginAuthenticator framing.** The `ZkLogin` signature-scheme byte, followed by the canonical
  binary (BCS) encoding of the body `{inputs, max_epoch, signature}`.
  Decoding rejects any other leading byte.

Modules, one per concept:

| file | module | contents |
|---|---|---|
| `wrappers.dfy` | `Wrappers` | `Option`, `Result` |
| `bytes.dfy` | `Bytes` | `byte`, big-endian value `BeValue`, fixed-width encoding `ToBe`, minimal encoding `MinimalBe` and their lemmas |
| `decimal.dfy` | `Decimal` | digit strings, their value, the canonical rendering `Render` |
| `utf8.dfy` | `Utf8` | well-formed UTF-8 (following the Unicode Standard, section 3.9, Table 3-7) and `RustString` |
| `address_seed.dfy` | `AddressSeeds` | `AddressSeed`, `Padded`, `Unpadded`, `ToString`, `FromStr` |
| `public_identifier.dfy` | `PublicIdentifier` | `ZkLoginPublicIdentifier` compact codec |
| `authenticator.dfy` | `Authenticator` | `ZkLoginAuthenticator` records and compact framing |

Representation choices:

- **Rust `u8`.** This is `Bytes.byte`, a subset of `int`.
- **Rust `String` inside records.** The issuer, the header and the claim and proof strings are
  `Utf8.RustString`: the string's bytes, constrained to be well-formed UTF-8.
  `as_bytes` is therefore the identity, and `std::str::from_utf8` succeeds exactly when `ValidUtf8` holds.
- **Rust text for `Display`/`FromStr`.** The base-10 text of an address seed is a Dafny `string`, a
  sequence of characters. Nothing links it to `RustString`. It is equivalent here because the only text
  these conversions accept or produce is the ASCII digits `0`-`9`, one byte per character.
- **Loops and buffers.** `unpadded` shrinks a slice in a `while` loop, so it is a method with a loop over a
  `seq` that it reassigns. It is proved equal to an independent reference, `MinimalBe` (the shortest
  big-endian encoding of the value, and `[0]` for zero). Both compact serializers build a `Vec` by
  `push`/`extend`. They are methods that reassign a `seq` buffer, proved equal to an encoding function
  and connected to the decoder by round-trip lemmas.
- **`U256` integer.** The library is foreign. Its conversions are modelled as the exact conversions they
  perform on a little-endian target:
  - `from_be(from_digits(bytes))` is `BeValue` of the 32 bytes;
  - `to_be().digits()` is `ToBe(n, 32)`;
  - `to_str_radix(10)` is `Decimal.Render`;
  - `from_str_radix(s, 10)` reads a non-empty digit string and fails at 2^256 or above.

Two behaviours of the code worth knowing:

- **Identifier decode errors.** The code has no dedicated "truncated input"
  error.
  - When the issuer runs past the buffer, it reports a custom "invalid zklogin public identifier" error
    (`InvalidIdentifier`).
  - When the trailing seed bytes are not 32, it reports a slice-conversion error (`InvalidSeedLength`).
  - A buffer shortened by one byte therefore fails with the seed-length error.
- **Address seeds inside the authenticator body.** `AddressSeed`'s own serde
  implementation (src/types/crypto/zklogin.rs:379-395) has no human-readable branch. It writes and reads the
  decimal text through `Display`/`FromStr` in every format, the BCS body of the authenticator included.
  So the body's `address_seed` field round-trips because of `AddressSeeds.ToStringThenFromStr`, not
  because of a byte encoding.
- **The compact authenticator encoding is not unique.** The body's address seed is decimal text read by
  `FromStr`, which accepts leading zero digits. A body spelling the seed as "07" therefore decodes to the
  same authenticator as one spelling it "7" (`AddressSeeds.FromStrNotInjective`). Re-encoding that
  authenticator writes "7". So a buffer that decodes is not necessarily the encoding of what it decodes to
  (`Authenticator.DecodedReencodes` states what does hold).
- **Empty buffers.** Both compact decoders index byte 0 without a check, so an empty buffer panics instead
  of returning an error. The model keeps this as a precondition.

## Model

| member | source | states |
|---|---|---|
| `Bytes.ToBe` | src/types/crypto/zklogin.rs:159-160 | the `width`-byte big-endian encoding has exactly `width` bytes and denotes `n` |
| `Bytes.MinimalBe` | src/types/crypto/zklogin.rs:115-128 | the reference for `unpadded`: never empty, denotes `n`, starts with a zero byte exactly when `n` is zero, and is `[0]` for zero |
| `Bytes.BeValueDropLeadingZero` | src/types/crypto/zklogin.rs:118-120 | removing a leading zero byte (one loop step of `unpadded`) keeps the big-endian value |
| `Bytes.MinimalBeOfBeValue` | src/types/crypto/zklogin.rs:125-127 | a byte string without a leading zero is the minimal encoding of its own value, so `unpadded` may return it as is |
| `Bytes.ToBeOfBeValue` | src/types/crypto/zklogin.rs:137-160 | reading bytes big-endian and re-encoding them in as many bytes gives the same bytes (`from_be` and `to_be` are inverse) |
| `Decimal.Render` | src/types/crypto/zklogin.rs:138 | radix-10 rendering gives canonical digits (no leading zero except "0") that denote `n` |
| `Decimal.RenderOfValue` | src/types/crypto/zklogin.rs:158 | reading then rendering a canonical digit string gives it back, so reading is injective on canonical text |
| `AddressSeeds.Value` | src/types/crypto/zklogin.rs:137 | the integer a seed holds is below 2^256 |
| `AddressSeeds.Padded` | src/types/crypto/zklogin.rs:130-132 | `padded` always has exactly 32 bytes |
| `AddressSeeds.PaddedIsBigEndian` | src/types/crypto/zklogin.rs:130-132 | `padded` is the stored buffer unchanged, and equals the 32-byte big-endian encoding of the seed's value |
| `AddressSeeds.Unpadded` | src/types/crypto/zklogin.rs:115-128 | the result is the minimal big-endian encoding of the value (`[0]` for zero). It has 1 to 32 bytes, is a suffix of the buffer, and every byte before it is zero |
| `AddressSeeds.UnpaddedOfZero` | src/types/crypto/zklogin.rs:174-178 | the all-zero seed unpads to the one byte `[0]`, never to an empty slice |
| `AddressSeeds.UnpaddedOfLeadingZeroThenOnes` | src/types/crypto/zklogin.rs:180-182 | a zero byte followed by 31 bytes of 1 unpads to those 31 bytes of 1 |
| `AddressSeeds.ToString` | src/types/crypto/zklogin.rs:135-141 | `Display` writes canonical base-10 digits denoting the seed's value |
| `AddressSeeds.FromStr` | src/types/crypto/zklogin.rs:154-162 | parsing succeeds exactly on non-empty digit strings with a value below 2^256, and the seed then holds that value (no truncation) |
| `AddressSeeds.FromStrThenToString` | src/types/crypto/zklogin.rs:135-162 | for canonical text below 2^256, `from_str` succeeds and `to_string` of the result is the same text |
| `AddressSeeds.ToStringThenFromStr` | src/types/crypto/zklogin.rs:135-162 | `from_str(to_string(seed))` gives back the same seed, byte for byte |
| `AddressSeeds.ValidAddressSeeds` | src/types/crypto/zklogin.rs:197-208 | any 1 to 32 bytes, read big-endian and rendered in base 10, parse to a seed whose `to_string` is that text |
| `AddressSeeds.FromStrNotInjective` | src/types/crypto/zklogin.rs:157-162 | the text "07" parses to the same seed as "7" (a leading zero digit is accepted), and `Display` of that seed is "7" |
| `AddressSeeds.LargeValueRejected` | src/types/crypto/zklogin.rs:186-195 | the base-10 text of any value of 2^256 or more is rejected with `AddressSeedParseError` |
| `PublicIdentifier.LengthAsU8` | src/types/crypto/zklogin.rs:247 | the `as u8` cast keeps issuer lengths of up to 255 unchanged |
| `PublicIdentifier.SerializeCompact` | src/types/crypto/zklogin.rs:245-252 | the buffer is the length byte, the issuer bytes and the 32 seed bytes, one plus the issuer length plus 32 bytes long. It decodes back to the identifier when the issuer has at most 255 bytes |
| `PublicIdentifier.DeserializeCompact` | src/types/crypto/zklogin.rs:272-289 | an issuer running past the end fails with `InvalidIdentifier`. Invalid UTF-8 in an in-bounds issuer fails with `InvalidUtf8`. A valid issuer not followed by exactly 32 bytes fails with `InvalidSeedLength`. Any success decodes exactly the compact encoding of the returned identifier |
| `PublicIdentifier.RoundTrip` | src/types/crypto/zklogin.rs:245-289 | decoding the compact encoding of an identifier whose issuer has at most 255 bytes gives the same `(iss, address_seed)` |
| `PublicIdentifier.DeserializeOkIff` | src/types/crypto/zklogin.rs:272-289 | decoding yields an identifier exactly when the buffer is that identifier's compact encoding and its issuer has at most 255 bytes |
| `PublicIdentifier.OverlongIssuerNotDecodable` | src/types/crypto/zklogin.rs:247 | an issuer longer than 255 bytes has its length byte truncated, and its encoding then fails to decode |
| `PublicIdentifier.TruncatedNotDecodable` | src/types/crypto/zklogin.rs:278-284 | dropping the last byte of any compact encoding makes decoding fail, and when the issuer has at most 255 bytes the failure is `InvalidSeedLength` |
| `Authenticator.SerializeCompact` | src/types/crypto/zklogin.rs:321-326 | the buffer is the ZkLogin scheme byte followed by the body encoding. With an invertible body codec, it decodes back to the authenticator |
| `Authenticator.FromSerializedBytes` | src/types/crypto/zklogin.rs:355-375 | any first byte other than ZkLogin fails with `InvalidFlag`. After a ZkLogin byte, a body the decoder accepts gives `Ok` of the decoded value, and a body it rejects gives `InvalidBody`. A success means exactly that: a ZkLogin byte and the body decoder's value |
| `Authenticator.RoundTrip` | src/types/crypto/zklogin.rs:321-375 | with an invertible body codec, decoding the compact encoding gives the same `{inputs, max_epoch, signature}` |
| `Authenticator.DecodedReencodes` | src/types/crypto/zklogin.rs:321-375 | with an invertible body codec, any authenticator a buffer decodes to re-encodes to a buffer that decodes to the same authenticator. The two buffers need not be equal |
| `Authenticator.OtherFlagRejected` | src/types/crypto/zklogin.rs:359-362 | a leading byte other than ZkLogin is rejected whatever follows it, including a valid body encoding |

## Left out

- `src/types/transaction/mod.rs` holds only plain records and enums with derived serialization, so there is no logic to model. Its expiration rule is a doc comment with no code behind it.
- `src/types/mod.rs` holds only module declarations and re-exports.
- The human-readable serde paths of `ZkLoginPublicIdentifier` and `ZkLoginAuthenticator` are not modelled. They are serde framework plumbing. `AddressSeed`'s serde implementation is `Display`/`FromStr` in every format, and those are modelled.
- `PublicIdentifier.SerializeCompact` and `Authenticator.SerializeCompact` stop at the buffer they build. Both hand it to `serializer.serialize_bytes` (src/types/crypto/zklogin.rs:252, 326), which adds the serializer's own framing, such as BCS's length prefix. That framing is not modelled, and neither is the framing that `Bytes::deserialize_as` removes before decoding.
- `Authenticator.SerializeCompact`: `bcs::serialize_into(...).expect(...)` can in principle panic. `BodyCodec.encode` is total, so the model has no such panic.
- The reading of `from_be(from_digits(bytes))` and `to_be().digits()` as big-endian conversion holds on little-endian targets only. The integer library swaps bytes in `from_be`/`to_be` only there. Big-endian targets are not modelled.
- The BCS body encoding of `{inputs, max_epoch, signature}` is done by an external crate over types this model does not include. It is a parameter (`Authenticator.BodyCodec`). Its round-trip behaviour is the hypothesis `RoundTrips`. The model does not assume the body decoder is canonical, and the program's decoder is not: see the note on non-unique encodings above.
- `SimpleSignature` is defined outside the modelled file. It is the type parameter `S` of `ZkLoginAuthenticator`.
- `SignatureScheme::from_byte` is defined outside the modelled file. The model does not tell an unknown scheme byte apart from a known non-ZkLogin one: both are `InvalidFlag`.
- The value `0x05` of `ZkLoginFlag` is that scheme's position in an enumeration outside the modelled file. No proof depends on the particular value.
- `AddressSeeds.FromStr`: the integer parser's error reasons (empty, invalid digit, overflow) become one `AddressSeedParseError`. The model does not decide which reason the parser would report. It accepts only plain digit strings, so the parser's handling of a leading `+` sign is not modelled.
- `AddressSeeds.ToString`: writing to a `Formatter` and that formatter's own errors are not modelled. The function returns the text.
- `AddressSeeds.Unpadded` returns a copy of the bytes rather than a slice borrowed from the seed, so aliasing is not modelled.
- `PublicIdentifier.DeserializeCompact` and `Authenticator.FromSerializedBytes` require a non-empty buffer. Both decoders read byte 0 without a bounds check and panic on an empty buffer.
- The `Jwk`, `JwkId` and `JwtDetails` records are not modelled because the codecs never use them. `ZkLoginProof`, `Claim` and `ZkLoginInputs` are plain datatypes with no validation, as in the source.
- `max_epoch` is carried but never checked. Enforcing it is the caller's job.
