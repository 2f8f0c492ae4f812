/**
  Well-formed UTF-8 byte strings, as the Unicode Standard defines them in
  its table of well-formed byte sequences (section 3.9, Table 3-7): the
  exact condition under which Rust's std::str::from_utf8 succeeds.
 */
module Utf8 {
  import opened Bytes

  predicate IsContinuation(b: byte)
  {
    0x80 <= b <= 0xBF
  }

  /**
    The length of the well-formed sequence that s starts with, or 0 when
    its first bytes are not one.
   */
  function LeadingSequenceLength(s: seq<byte>): (n: nat)
    requires |s| >= 1
    ensures n <= 4 && n <= |s|
  {
    var b0 := s[0];
    if b0 <= 0x7F then 1
    else if 0xC2 <= b0 <= 0xDF then
      (if |s| >= 2 && IsContinuation(s[1]) then 2 else 0)
    else if 0xE0 <= b0 <= 0xEF then
      var lo := if b0 == 0xE0 then 0xA0 else 0x80;
      var hi := if b0 == 0xED then 0x9F else 0xBF;
      (if |s| >= 3 && lo <= s[1] <= hi && IsContinuation(s[2]) then 3 else 0)
    else if 0xF0 <= b0 <= 0xF4 then
      var lo := if b0 == 0xF0 then 0x90 else 0x80;
      var hi := if b0 == 0xF4 then 0x8F else 0xBF;
      (if |s| >= 4 && lo <= s[1] <= hi && IsContinuation(s[2]) && IsContinuation(s[3]) then 4 else 0)
    else 0
  }

  predicate ValidUtf8(s: seq<byte>)
    decreases |s|
  {
    s == [] ||
    var n := LeadingSequenceLength(s);
    n > 0 && ValidUtf8(s[n..])
  }

  /** A Rust String: a byte string that is well-formed UTF-8. */
  type RustString = s: seq<byte> | ValidUtf8(s) witness []
}
