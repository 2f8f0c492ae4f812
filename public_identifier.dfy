/**
  ZkLoginPublicIdentifier and its compact binary form:
  one byte for the issuer's byte length, the issuer's bytes, then the
  32-byte padded address seed.
 */
module PublicIdentifier {
  import opened Wrappers
  import opened Bytes
  import opened Utf8
  import opened AddressSeeds

  datatype ZkLoginPublicIdentifier = ZkLoginPublicIdentifier(iss: RustString, addressSeed: AddressSeed)

  datatype IdentifierError =
    | InvalidIdentifier   // the declared issuer length runs past the end of the buffer
    | InvalidUtf8         // the issuer bytes are not well-formed UTF-8
    | InvalidSeedLength   // the bytes after the issuer are not exactly 32

  /** Rust's `as u8` cast of a length: keeps only the low eight bits. */
  function LengthAsU8(n: nat): (b: byte)
    ensures n <= 255 ==> b == n
  {
    n % 256
  }

  /** The compact encoding, as a value. */
  function CompactEncoding(id: ZkLoginPublicIdentifier): (buf: seq<byte>)
  {
    [LengthAsU8(|id.iss|)] + id.iss + id.addressSeed.bytes
  }

  /** The compact serializer: pushes the length byte and extends with the issuer and the seed. */
  method SerializeCompact(id: ZkLoginPublicIdentifier) returns (buf: seq<byte>)
    ensures buf == CompactEncoding(id)
    ensures |buf| == 1 + |id.iss| + 32
    ensures |id.iss| <= 255 ==> DeserializeCompact(buf) == Ok(id)
  {
    buf := [];
    var issBytes := id.iss;
    buf := buf + [LengthAsU8(|issBytes|)];
    buf := buf + issBytes;
    buf := buf + id.addressSeed.bytes;
    if |id.iss| <= 255 {
      RoundTrip(id);
    }
  }

  /**
    The compact deserializer. Reading the length byte of an empty buffer
    panics, hence the precondition. The second slice (from the end of the
    issuer onwards) cannot fail once the first has succeeded.
   */
  function DeserializeCompact(bytes: seq<byte>): (r: Result<ZkLoginPublicIdentifier, IdentifierError>)
    requires |bytes| >= 1
    ensures 1 + bytes[0] > |bytes| ==> r == Err(InvalidIdentifier)
    ensures 1 + bytes[0] <= |bytes| && !ValidUtf8(bytes[1..1 + bytes[0]]) ==> r == Err(InvalidUtf8)
    ensures 1 + bytes[0] <= |bytes| && ValidUtf8(bytes[1..1 + bytes[0]]) && |bytes| != 1 + bytes[0] as int + 32 ==>
              r == Err(InvalidSeedLength)
    ensures r.Ok? ==> bytes == CompactEncoding(r.value) && |r.value.iss| <= 255
  {
    var issLen := bytes[0];
    if 1 + issLen > |bytes| then Err(InvalidIdentifier)
    else
      var issBytes := bytes[1..1 + issLen];
      if !ValidUtf8(issBytes) then Err(InvalidUtf8)
      else
        var seedBytes := bytes[1 + issLen..];
        if |seedBytes| != 32 then Err(InvalidSeedLength)
        else
          assert bytes == [bytes[0]] + issBytes + seedBytes;
          Ok(ZkLoginPublicIdentifier(issBytes, AddressSeed(seedBytes)))
  }

  /** Decoding an encoding whose issuer fits the length byte gives the identifier back. */
  lemma RoundTrip(id: ZkLoginPublicIdentifier)
    requires |id.iss| <= 255
    ensures DeserializeCompact(CompactEncoding(id)) == Ok(id)
  {
  }

  /** Decoding succeeds exactly on the encodings of identifiers whose issuer fits the length byte. */
  lemma DeserializeOkIff(bytes: seq<byte>, id: ZkLoginPublicIdentifier)
    requires |bytes| >= 1
    ensures DeserializeCompact(bytes) == Ok(id) <==> bytes == CompactEncoding(id) && |id.iss| <= 255
  {
  }

  /** The length byte of an issuer longer than 255 bytes is truncated, and its encoding no longer decodes. */
  lemma OverlongIssuerNotDecodable(id: ZkLoginPublicIdentifier)
    requires |id.iss| > 255
    ensures DeserializeCompact(CompactEncoding(id)).Err?
  {
  }

  /**
    Dropping the last byte of any encoding makes it undecodable; when the
    issuer fits the length byte, the failure is the seed-length error.
   */
  lemma TruncatedNotDecodable(id: ZkLoginPublicIdentifier)
    ensures var b := CompactEncoding(id);
            DeserializeCompact(b[..|b| - 1]).Err?
    ensures var b := CompactEncoding(id);
            |id.iss| <= 255 ==> DeserializeCompact(b[..|b| - 1]) == Err(InvalidSeedLength)
  {
    var b := CompactEncoding(id);
    assert b[..|b| - 1][1..1 + |id.iss|] == id.iss;
  }
}
