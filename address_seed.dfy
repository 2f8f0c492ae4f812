/**
  AddressSeed: a 256-bit unsigned integer held as 32 big-endian bytes,
  with its padded and unpadded byte views and its base-10 text form
  (Display / FromStr).
 */
module AddressSeeds {
  import opened Wrappers
  import opened Bytes
  import Decimal

  type Bytes32 = s: seq<byte> | |s| == 32 witness seq(32, _ => 0)

  datatype AddressSeed = AddressSeed(bytes: Bytes32)

  /** The single error FromStr reports; the integer parser's reason is not modelled. */
  datatype AddressSeedParseError = AddressSeedParseError

  /** 2^256: the first value a U256 cannot hold. */
  const U256Bound: nat := Pow256(32)

  /** The integer the seed holds, reading its bytes big-endian. */
  function Value(seed: AddressSeed): (n: nat)
    ensures n < U256Bound
  {
    BeValueBound(seed.bytes);
    BeValue(seed.bytes)
  }

  /** The whole 32-byte buffer. */
  function Padded(seed: AddressSeed): (r: seq<byte>)
    ensures |r| == 32
  {
    seed.bytes
  }

  /** The padded view is exactly the 32-byte big-endian encoding of the seed's value. */
  lemma PaddedIsBigEndian(seed: AddressSeed)
    ensures Padded(seed) == ToBe(Value(seed), 32)
    ensures Padded(seed) == seed.bytes
  {
    ToBeOfBeValue(seed.bytes);
  }

  /**
    Strips the leading zero bytes of the buffer; a zero seed gives its last
    byte alone, so the result is never empty.
   */
  method Unpadded(seed: AddressSeed) returns (r: seq<byte>)
    ensures r == MinimalBe(Value(seed))
    ensures 1 <= |r| <= 32 && r == seed.bytes[32 - |r|..]
    ensures forall i :: 0 <= i < 32 - |r| ==> seed.bytes[i] == 0
  {
    var buf := seed.bytes[..];
    while |buf| != 0 && buf[0] == 0
      invariant |buf| <= 32 && buf == seed.bytes[32 - |buf|..]
      invariant BeValue(buf) == Value(seed)
      invariant forall i :: 0 <= i < 32 - |buf| ==> seed.bytes[i] == 0
    {
      BeValueDropLeadingZero(buf);
      buf := buf[1..];
    }
    if |buf| == 0 {
      r := seed.bytes[31..];
      assert r == [0];
    } else {
      MinimalBeOfBeValue(buf);
      r := buf;
    }
  }

  /** Display: the canonical base-10 text of the seed's value. */
  function ToString(seed: AddressSeed): (s: string)
    ensures Decimal.IsCanonical(s) && Decimal.Value(s) == Value(seed)
  {
    Decimal.Render(Value(seed))
  }

  /**
    FromStr: reads base-10 digits into a 256-bit value; an empty string, a
    non-digit or a value of 2^256 or more is an error.
   */
  function FromStr(s: string): (r: Result<AddressSeed, AddressSeedParseError>)
    ensures r.Ok? <==> |s| >= 1 && Decimal.IsDigits(s) && Decimal.Value(s) < U256Bound
    ensures r.Ok? ==> Value(r.value) == Decimal.Value(s)
  {
    if |s| == 0 || !Decimal.IsDigits(s) then Err(AddressSeedParseError)
    else
      var n := Decimal.Value(s);
      if n >= U256Bound then Err(AddressSeedParseError)
      else Ok(AddressSeed(ToBe(n, 32)))
  }

  /** The all-zero seed unpads to the one byte 0. */
  lemma UnpaddedOfZero(seed: AddressSeed)
    requires forall i :: 0 <= i < 32 ==> seed.bytes[i] == 0
    ensures MinimalBe(Value(seed)) == [0]
  {
    BeValueOfZeros(seed.bytes);
  }

  /** A zero byte followed by 31 bytes of 1 unpads to those 31 bytes. */
  lemma UnpaddedOfLeadingZeroThenOnes(seed: AddressSeed)
    requires seed.bytes == [0] + seq(31, _ => 1)
    ensures MinimalBe(Value(seed)) == seq(31, _ => 1)
  {
    BeValueDropLeadingZero(seed.bytes);
    assert seed.bytes[1..] == seq(31, _ => 1);
    MinimalBeOfBeValue(seq(31, _ => 1));
  }

  /** Text to seed and back: FromStr then Display is the identity on canonical text in range. */
  lemma FromStrThenToString(s: string)
    requires Decimal.IsCanonical(s) && Decimal.Value(s) < U256Bound
    ensures FromStr(s).Ok? && ToString(FromStr(s).value) == s
  {
    Decimal.RenderOfValue(s);
  }

  /** Seed to text and back: Display then FromStr gives the same seed. */
  lemma ToStringThenFromStr(seed: AddressSeed)
    ensures FromStr(ToString(seed)) == Ok(seed)
  {
    ToBeOfBeValue(seed.bytes);
  }

  /**
    Any 1 to 32 bytes, read big-endian and rendered in base 10, parse to a
    seed whose Display is that same text.
   */
  lemma ValidAddressSeeds(bytes: seq<byte>)
    requires 1 <= |bytes| <= 32
    ensures var text := Decimal.Render(BeValue(bytes));
            FromStr(text).Ok? && ToString(FromStr(text).value) == text
  {
    BeValueBound(bytes);
    Pow256Monotonic(|bytes|, 32);
    FromStrThenToString(Decimal.Render(BeValue(bytes)));
  }

  /**
    FromStr is not injective: a leading zero digit is accepted, so "07"
    and "7" give the same seed, and Display writes only the second.
   */
  lemma FromStrNotInjective()
    ensures FromStr("07") == FromStr("7") && FromStr("7").Ok?
    ensures ToString(FromStr("07").value) == "7"
  {
  }

  /** Text denoting 2^256 or more is rejected, never truncated. */
  lemma LargeValueRejected(n: nat)
    requires n >= U256Bound
    ensures FromStr(Decimal.Render(n)) == Err(AddressSeedParseError)
  {
  }
}
