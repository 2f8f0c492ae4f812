/**
  Bytes (Rust's u8) and the reading of a byte string as a big-endian
  unsigned integer, the representation behind a 256-bit address seed.
 */
module Bytes {

  /** An unsigned 8-bit value. */
  type byte = x: int | 0 <= x < 0x100

  /** 256 to the power k: one more than the largest value that k bytes hold. */
  function Pow256(k: nat): (r: nat)
    ensures r >= 1
  {
    if k == 0 then 1 else 256 * Pow256(k - 1)
  }

  /** The unsigned integer that s denotes, most significant byte first. */
  function BeValue(s: seq<byte>): (n: nat)
  {
    if s == [] then 0 else BeValue(s[..|s| - 1]) * 256 + s[|s| - 1]
  }

  /** The big-endian encoding of n in exactly `width` bytes. */
  function ToBe(n: nat, width: nat): (r: seq<byte>)
    requires n < Pow256(width)
    ensures |r| == width && BeValue(r) == n
  {
    if width == 0 then []
    else
      var high := ToBe(n / 256, width - 1);
      var r := high + [n % 256];
      assert r[..|r| - 1] == high;
      r
  }

  /**
    The shortest big-endian encoding of n, except that zero is the single
    byte 0 rather than the empty string.
   */
  function MinimalBe(n: nat): (r: seq<byte>)
    ensures |r| >= 1 && BeValue(r) == n
    ensures r[0] == 0 <==> n == 0
    ensures n == 0 ==> r == [0]
  {
    if n < 256 then [n]
    else
      var high := MinimalBe(n / 256);
      var r := high + [n % 256];
      assert r[..|r| - 1] == high;
      r
  }

  lemma {:induction false} Pow256Monotonic(k: nat, m: nat)
    requires k <= m
    ensures Pow256(k) <= Pow256(m)
  {
    if k < m {
      Pow256Monotonic(k, m - 1);
    }
  }

  /** k bytes hold values below 256^k. */
  lemma {:induction false} BeValueBound(s: seq<byte>)
    ensures BeValue(s) < Pow256(|s|)
  {
    if s != [] {
      BeValueBound(s[..|s| - 1]);
    }
  }

  /** A leading non-zero byte puts the value at or above 256^(k-1). */
  lemma {:induction false} BeValueLeadingNonZero(s: seq<byte>)
    requires |s| >= 1 && s[0] != 0
    ensures BeValue(s) >= Pow256(|s| - 1)
  {
    if |s| > 1 {
      BeValueLeadingNonZero(s[..|s| - 1]);
    }
  }

  /** A leading zero byte does not change the value. */
  lemma {:induction false} BeValueDropLeadingZero(s: seq<byte>)
    requires |s| >= 1 && s[0] == 0
    ensures BeValue(s) == BeValue(s[1..])
  {
    if |s| > 1 {
      var init := s[..|s| - 1];
      BeValueDropLeadingZero(init);
      assert init[1..] == s[1..][..|s| - 2];
    }
  }

  /** The all-zero string denotes zero. */
  lemma {:induction false} BeValueOfZeros(s: seq<byte>)
    requires forall i :: 0 <= i < |s| ==> s[i] == 0
    ensures BeValue(s) == 0
  {
    if s != [] {
      var init := s[..|s| - 1];
      assert forall i :: 0 <= i < |init| ==> init[i] == s[i];
      BeValueOfZeros(init);
    }
  }

  /** Reading a byte string and re-encoding it in as many bytes gives it back. */
  lemma {:induction false} ToBeOfBeValue(s: seq<byte>)
    ensures BeValue(s) < Pow256(|s|) && ToBe(BeValue(s), |s|) == s
  {
    BeValueBound(s);
    if s != [] {
      var init := s[..|s| - 1];
      ToBeOfBeValue(init);
      assert s == init + [s[|s| - 1]];
    }
  }

  /** A string with no leading zero byte is the minimal encoding of its value. */
  lemma {:induction false} MinimalBeOfBeValue(s: seq<byte>)
    requires |s| >= 1 && s[0] != 0
    ensures MinimalBe(BeValue(s)) == s
  {
    if |s| > 1 {
      var init := s[..|s| - 1];
      MinimalBeOfBeValue(init);
      BeValueLeadingNonZero(init);
      assert s == init + [s[|s| - 1]];
    }
  }
}
