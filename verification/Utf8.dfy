/** Well-formed UTF-8 (RFC 3629, section 4), the test `str::from_utf8` makes. */
module Utf8 {
  import opened Bytes

  predicate Continuation(b: Byte) {
    0x80 <= b <= 0xbf
  }

  /** Length of the character at the front of `s`, 0 if there is none. */
  function FirstChar(s: seq<Byte>): (n: nat)
    ensures n <= 4 && n <= |s|
  {
    if |s| >= 1 && s[0] <= 0x7f then 1
    else if |s| >= 2 && 0xc2 <= s[0] <= 0xdf && Continuation(s[1]) then 2
    else if |s| >= 3 && ThreeByteLead(s[0], s[1]) && Continuation(s[2]) then 3
    else if |s| >= 4 && FourByteLead(s[0], s[1]) && Continuation(s[2]) && Continuation(s[3]) then 4
    else 0
  }

  predicate ThreeByteLead(a: Byte, b: Byte) {
    || (a == 0xe0 && 0xa0 <= b <= 0xbf)
    || (0xe1 <= a <= 0xec && Continuation(b))
    || (a == 0xed && 0x80 <= b <= 0x9f)
    || (0xee <= a <= 0xef && Continuation(b))
  }

  predicate FourByteLead(a: Byte, b: Byte) {
    || (a == 0xf0 && 0x90 <= b <= 0xbf)
    || (0xf1 <= a <= 0xf3 && Continuation(b))
    || (a == 0xf4 && 0x80 <= b <= 0x8f)
  }

  predicate IsUtf8(s: seq<Byte>) {
    s == [] || (FirstChar(s) > 0 && IsUtf8(s[FirstChar(s)..]))
  }
}
