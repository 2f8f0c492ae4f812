/**
  ZkLoginAuthenticator and its compact binary framing: the ZkLogin
  signature-scheme byte followed by the canonical binary (BCS) encoding of
  the body {inputs, max_epoch, signature}. The body codec is not part of
  this model; it is passed in as a pair of functions.
 */
module Authenticator {
  import opened Wrappers
  import opened Bytes
  import opened Utf8
  import opened AddressSeeds

  /** The ZkLogin member of the signature-scheme enumeration, as a byte. */
  const ZkLoginFlag: byte := 0x05

  type EpochId = x: int | 0 <= x < 0x1_0000_0000_0000_0000

  /** A claim: a value and its position modulo 4 in the base64 JWT. */
  datatype Claim = Claim(value: RustString, indexMod4: byte)

  /** Proof points, each a canonical decimal coordinate string. */
  datatype ZkLoginProof = ZkLoginProof(a: seq<RustString>, b: seq<seq<RustString>>, c: seq<RustString>)

  datatype ZkLoginInputs = ZkLoginInputs(
    proofPoints: ZkLoginProof,
    issBase64Details: Claim,
    headerBase64: RustString,
    addressSeed: AddressSeed)

  /** S stands for SimpleSignature, whose structure is not part of this model. */
  datatype ZkLoginAuthenticator<S> = ZkLoginAuthenticator(inputs: ZkLoginInputs, maxEpoch: EpochId, signature: S)

  /** The canonical binary codec of the body {inputs, max_epoch, signature}. */
  datatype BodyCodec<!S> = BodyCodec(
    encode: ZkLoginAuthenticator<S> -> seq<byte>,
    decode: seq<byte> -> Option<ZkLoginAuthenticator<S>>)

  /** The body codec decodes every encoding back to the value encoded. */
  ghost predicate RoundTrips<S(!new)>(codec: BodyCodec<S>)
  {
    forall a :: codec.decode(codec.encode(a)) == Some(a)
  }

  datatype AuthenticatorError =
    | InvalidFlag   // the first byte is not the ZkLogin scheme byte
    | InvalidBody   // the body decoder rejected the remaining bytes

  /** The compact encoding, as a value. */
  function Encoding<S>(codec: BodyCodec<S>, a: ZkLoginAuthenticator<S>): (buf: seq<byte>)
  {
    [ZkLoginFlag] + codec.encode(a)
  }

  /** The compact serializer: pushes the scheme byte, then appends the body encoding. */
  method SerializeCompact<S(!new)>(codec: BodyCodec<S>, a: ZkLoginAuthenticator<S>) returns (buf: seq<byte>)
    ensures buf == Encoding(codec, a)
    ensures |buf| == 1 + |codec.encode(a)| && buf[0] == ZkLoginFlag
    ensures RoundTrips(codec) ==> FromSerializedBytes(codec, buf) == Ok(a)
  {
    buf := [];
    buf := buf + [ZkLoginFlag];
    buf := buf + codec.encode(a);
    if RoundTrips(codec) {
      RoundTrip(codec, a);
    }
  }

  /**
    Checks the scheme byte, then decodes the rest as the body. Reading the
    first byte of an empty buffer panics, hence the precondition.
   */
  function FromSerializedBytes<S>(codec: BodyCodec<S>, bytes: seq<byte>): (r: Result<ZkLoginAuthenticator<S>, AuthenticatorError>)
    requires |bytes| >= 1
    ensures bytes[0] != ZkLoginFlag ==> r == Err(InvalidFlag)
    ensures r.Ok? ==> bytes[0] == ZkLoginFlag && codec.decode(bytes[1..]) == Some(r.value)
    ensures bytes[0] == ZkLoginFlag && codec.decode(bytes[1..]).Some? ==> r == Ok(codec.decode(bytes[1..]).value)
    ensures bytes[0] == ZkLoginFlag && codec.decode(bytes[1..]).None? ==> r == Err(InvalidBody)
  {
    if bytes[0] != ZkLoginFlag then Err(InvalidFlag)
    else
      match codec.decode(bytes[1..])
      case None => Err(InvalidBody)
      case Some(body) => Ok(ZkLoginAuthenticator(body.inputs, body.maxEpoch, body.signature))
  }

  /** With an invertible body codec, decoding the compact encoding gives the authenticator back. */
  lemma RoundTrip<S(!new)>(codec: BodyCodec<S>, a: ZkLoginAuthenticator<S>)
    requires RoundTrips(codec)
    ensures FromSerializedBytes(codec, Encoding(codec, a)) == Ok(a)
  {
  }

  /**
    With an invertible body codec, whatever a buffer decodes to re-encodes
    to a buffer that decodes to the same authenticator. The buffers need not
    be equal: the body's address seed is written as decimal text, and
    FromStr accepts several spellings of one value (see
    AddressSeeds.FromStrNotInjective).
   */
  lemma DecodedReencodes<S(!new)>(codec: BodyCodec<S>, bytes: seq<byte>, a: ZkLoginAuthenticator<S>)
    requires RoundTrips(codec) && |bytes| >= 1
    requires FromSerializedBytes(codec, bytes) == Ok(a)
    ensures FromSerializedBytes(codec, Encoding(codec, a)) == Ok(a)
  {
  }

  /**
    A leading byte other than ZkLogin is rejected whatever follows it, even
    a valid body encoding.
   */
  lemma OtherFlagRejected<S>(codec: BodyCodec<S>, flag: byte, a: ZkLoginAuthenticator<S>)
    requires flag != ZkLoginFlag
    ensures FromSerializedBytes(codec, [flag] + codec.encode(a)) == Err(InvalidFlag)
  {
  }
}
