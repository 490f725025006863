/** UTF-8 as an encoding of characters (RFC 3629, section 3), and white space as a property of characters. */
module Utf8Laws {
  import opened Bytes
  import opened HttpHost
  import opened Utf8

  // ---------------------------------------------------------------------------
  // Characters
  // ---------------------------------------------------------------------------

  /** A Unicode scalar value: no surrogate, and nothing beyond U+10FFFF. */
  predicate IsScalar(c: nat) {
    c < 0xd800 || 0xe000 <= c < 0x11_0000
  }

  function EncodeChar(c: nat): (s: seq<Byte>)
    requires IsScalar(c)
    ensures 1 <= |s| <= 4
  {
    if c < 0x80 then [c]
    else if c < 0x800 then [0xc0 + c / 0x40, 0x80 + c % 0x40]
    else if c < 0x1_0000 then [0xe0 + c / 0x1000, 0x80 + c / 0x40 % 0x40, 0x80 + c % 0x40]
    else [0xf0 + c / 0x4_0000, 0x80 + c / 0x1000 % 0x40, 0x80 + c / 0x40 % 0x40, 0x80 + c % 0x40]
  }

  predicate AllScalar(cs: seq<nat>) {
    forall k :: 0 <= k < |cs| ==> IsScalar(cs[k])
  }

  function EncodeText(cs: seq<nat>): seq<Byte>
    requires AllScalar(cs)
  {
    if cs == [] then [] else EncodeChar(cs[0]) + EncodeText(cs[1..])
  }

  /** The character of a lead value and continuation bytes, six bits at a time. */
  function CharOf(s: seq<Byte>): (c: int)
    requires 1 <= |s| <= 4
  {
    var b: seq<int> := s;
    if |s| == 1 then b[0]
    else if |s| == 2 then (b[0] - 0xc0) * 0x40 + (b[1] - 0x80)
    else if |s| == 3 then ((b[0] - 0xe0) * 0x40 + (b[1] - 0x80)) * 0x40 + (b[2] - 0x80)
    else (((b[0] - 0xf0) * 0x40 + (b[1] - 0x80)) * 0x40 + (b[2] - 0x80)) * 0x40 + (b[3] - 0x80)
  }

  lemma Digits(high: int, low: int)
    requires 0 <= low < 0x40
    ensures (high * 0x40 + low) / 0x40 == high && (high * 0x40 + low) % 0x40 == low
  {
  }

  lemma QuotientOfQuotient(c: nat)
    ensures c / 0x1000 == c / 0x40 / 0x40 && c / 0x4_0000 == c / 0x40 / 0x40 / 0x40
  {
  }

  lemma CharOfEncodes(s: seq<Byte>)
    requires 1 <= |s| <= 4 && FirstChar(s) == |s|
    ensures CharOf(s) >= 0 && IsScalar(CharOf(s)) && EncodeChar(CharOf(s)) == s
  {
    if |s| == 2 {
      TwoByteChar(s);
    } else if |s| == 3 {
      ThreeByteChar(s);
    } else if |s| == 4 {
      FourByteChar(s);
    }
  }

  lemma TwoByteChar(s: seq<Byte>)
    requires |s| == 2 && FirstChar(s) == 2
    ensures CharOf(s) >= 0 && IsScalar(CharOf(s)) && EncodeChar(CharOf(s)) == s
  {
    Digits(s[0] - 0xc0, s[1] - 0x80);
  }

  lemma ThreeByteChar(s: seq<Byte>)
    requires |s| == 3 && FirstChar(s) == 3
    ensures CharOf(s) >= 0 && IsScalar(CharOf(s)) && EncodeChar(CharOf(s)) == s
  {
    ThreeBytes(s[0], s[1], s[2]);
  }

  lemma FourByteChar(s: seq<Byte>)
    requires |s| == 4 && FirstChar(s) == 4
    ensures CharOf(s) >= 0 && IsScalar(CharOf(s)) && EncodeChar(CharOf(s)) == s
  {
    FourBytes(s[0], s[1], s[2], s[3]);
  }

  lemma ThreeBytes(a: int, b: int, c: int)
    requires 0xe0 <= a <= 0xef && 0x80 <= b <= 0xbf && 0x80 <= c <= 0xbf
    ensures var n := ((a - 0xe0) * 0x40 + (b - 0x80)) * 0x40 + (c - 0x80);
            n / 0x1000 == a - 0xe0 && n / 0x40 % 0x40 == b - 0x80 && n % 0x40 == c - 0x80
  {
    var high := (a - 0xe0) * 0x40 + (b - 0x80);
    Digits(a - 0xe0, b - 0x80);
    Digits(high, c - 0x80);
    QuotientOfQuotient(high * 0x40 + (c - 0x80));
  }

  lemma FourBytes(a: int, b: int, c: int, d: int)
    requires 0xf0 <= a <= 0xf4 && 0x80 <= b <= 0xbf && 0x80 <= c <= 0xbf && 0x80 <= d <= 0xbf
    ensures var n := (((a - 0xf0) * 0x40 + (b - 0x80)) * 0x40 + (c - 0x80)) * 0x40 + (d - 0x80);
            && n / 0x4_0000 == a - 0xf0 && n / 0x1000 % 0x40 == b - 0x80
            && n / 0x40 % 0x40 == c - 0x80 && n % 0x40 == d - 0x80
  {
    var high := (a - 0xf0) * 0x40 + (b - 0x80);
    Digits(a - 0xf0, b - 0x80);
    Digits(high, c - 0x80);
    Digits(high * 0x40 + (c - 0x80), d - 0x80);
    QuotientOfQuotient((high * 0x40 + (c - 0x80)) * 0x40 + (d - 0x80));
  }

  lemma EncodedIsChar(c: nat, rest: seq<Byte>)
    requires IsScalar(c)
    ensures FirstChar(EncodeChar(c) + rest) == |EncodeChar(c)|
  {
    var s := EncodeChar(c) + rest;
    if c < 0x800 {
    } else if c < 0x1_0000 {
      ThreeByteBounds(c);
      assert s[0] == 0xe0 + c / 0x1000 && s[1] == 0x80 + c / 0x40 % 0x40 && s[2] == 0x80 + c % 0x40;
    } else {
      FourByteBounds(c);
      assert s[0] == 0xf0 + c / 0x4_0000 && s[1] == 0x80 + c / 0x1000 % 0x40;
      assert s[2] == 0x80 + c / 0x40 % 0x40 && s[3] == 0x80 + c % 0x40;
    }
  }

  lemma ThreeByteBounds(c: nat)
    requires IsScalar(c) && 0x800 <= c < 0x1_0000
    ensures ThreeByteLead(0xe0 + c / 0x1000, 0x80 + c / 0x40 % 0x40)
  {
    assert c / 0x40 == c / 0x1000 * 0x40 + c / 0x40 % 0x40;
  }

  lemma FourByteBounds(c: nat)
    requires IsScalar(c) && 0x1_0000 <= c
    ensures FourByteLead(0xf0 + c / 0x4_0000, 0x80 + c / 0x1000 % 0x40)
  {
    assert c / 0x1000 == c / 0x4_0000 * 0x40 + c / 0x1000 % 0x40;
  }

  lemma FirstCharOfPrefix(s: seq<Byte>)
    requires FirstChar(s) > 0
    ensures FirstChar(s[..FirstChar(s)]) == FirstChar(s)
  {
  }

  /** The test accepts exactly the encodings of character sequences: nothing overlong, no surrogates. */
  lemma Utf8IsExact(s: seq<Byte>)
    ensures IsUtf8(s) <==> exists cs :: AllScalar(cs) && s == EncodeText(cs)
  {
    if IsUtf8(s) {
      var cs := CharsOf(s);
    }
    if cs :| AllScalar(cs) && s == EncodeText(cs) {
      EncodedTextIsUtf8(cs);
    }
  }

  lemma {:induction false} CharsOf(s: seq<Byte>) returns (cs: seq<nat>)
    requires IsUtf8(s)
    ensures AllScalar(cs) && s == EncodeText(cs)
    decreases |s|
  {
    hide FirstChar, EncodeChar, CharOf;
    cs := [];
    if s != [] {
      var n := FirstChar(s);
      FirstCharOfPrefix(s);
      CharOfEncodes(s[..n]);
      var tail := CharsOf(s[n..]);
      cs := [CharOf(s[..n])] + tail;
      assert cs[1..] == tail && s == s[..n] + s[n..];
    }
  }

  lemma {:induction false} EncodedTextIsUtf8(cs: seq<nat>)
    requires AllScalar(cs)
    ensures IsUtf8(EncodeText(cs))
  {
    hide FirstChar, EncodeChar;
    if cs != [] {
      var front, rest := EncodeChar(cs[0]), EncodeText(cs[1..]);
      EncodedIsChar(cs[0], rest);
      assert (front + rest)[|front|..] == rest;
      EncodedTextIsUtf8(cs[1..]);
    }
  }

  // ---------------------------------------------------------------------------
  // White space
  // ---------------------------------------------------------------------------

  /** The characters with the property White_Space. */
  predicate IsWhiteSpace(c: nat) {
    || 9 <= c <= 13 || c in {0x20, 0x85, 0xa0, 0x1680, 0x2028, 0x2029, 0x202f, 0x205f, 0x3000}
    || 0x2000 <= c <= 0x200a
  }

  lemma SpaceIsWhiteSpace(c: nat)
    requires IsScalar(c)
    ensures IsSpace(EncodeChar(c)) <==> IsWhiteSpace(c)
  {
    if 0x800 <= c < 0x1_0000 {
      assert c == c / 0x1000 * 0x1000 + c / 0x40 % 0x40 * 0x40 + c % 0x40 by {
        assert c / 0x40 == c / 0x1000 * 0x40 + c / 0x40 % 0x40;
      }
    }
  }

  /** No space of two or three bytes looks like part of another character. */
  lemma LeadingChar(c: nat, rest: seq<Byte>)
    requires IsScalar(c)
    ensures LeadingSpace(EncodeChar(c) + rest) == if IsWhiteSpace(c) then |EncodeChar(c)| else 0
  {
    var e, s := EncodeChar(c), EncodeChar(c) + rest;
    SpaceIsWhiteSpace(c);
    assert s[..|e|] == e && s[0] == e[0];
  }

  lemma TrailingChar(front: seq<Byte>, c: nat)
    requires IsScalar(c)
    ensures TrailingSpace(front + EncodeChar(c)) == if IsWhiteSpace(c) then |EncodeChar(c)| else 0
  {
    var e, s := EncodeChar(c), front + EncodeChar(c);
    SpaceIsWhiteSpace(c);
    assert s[|s| - |e|..] == e;
  }

  lemma {:induction false} EncodeTextConcat(cs: seq<nat>, ds: seq<nat>)
    requires AllScalar(cs) && AllScalar(ds)
    ensures EncodeText(cs + ds) == EncodeText(cs) + EncodeText(ds)
  {
    if cs == [] {
      assert cs + ds == ds;
    } else {
      assert (cs + ds)[1..] == cs[1..] + ds;
      EncodeTextConcat(cs[1..], ds);
    }
  }

  predicate AllWhite(cs: seq<nat>) {
    forall k :: 0 <= k < |cs| ==> IsWhiteSpace(cs[k])
  }

  lemma LastChar(cs: seq<nat>, c: nat)
    requires AllScalar(cs) && IsScalar(c)
    ensures EncodeText(cs + [c]) == EncodeText(cs) + EncodeChar(c)
  {
    EncodeTextConcat(cs, [c]);
    assert EncodeText([c]) == EncodeChar(c) + EncodeText([c][1..]);
    assert [c][1..] == [];
  }

  lemma FirstCharOf(cs: seq<nat>)
    requires AllScalar(cs) && cs != []
    ensures LeadingSpace(EncodeText(cs)) == if IsWhiteSpace(cs[0]) then |EncodeChar(cs[0])| else 0
  {
    hide LeadingSpace, EncodeChar, IsWhiteSpace;
    LeadingChar(cs[0], EncodeText(cs[1..]));
  }

  lemma LastCharOf(cs: seq<nat>)
    requires AllScalar(cs) && cs != []
    ensures var c := cs[|cs| - 1];
            TrailingSpace(EncodeText(cs)) == if IsWhiteSpace(c) then |EncodeChar(c)| else 0
  {
    hide TrailingSpace, EncodeChar, IsWhiteSpace, EncodeText;
    var front, c := cs[..|cs| - 1], cs[|cs| - 1];
    LastChar(front, c);
    assert cs == front + [c];
    TrailingChar(EncodeText(front), c);
  }

  /** `trim` removes exactly the white space at both ends, character by character. */
  lemma {:induction false} TrimIsExact(before: seq<nat>, core: seq<nat>, after: seq<nat>)
    requires AllScalar(before) && AllScalar(core) && AllScalar(after)
    requires AllWhite(before) && AllWhite(after)
    requires core != [] ==> !IsWhiteSpace(core[0]) && !IsWhiteSpace(core[|core| - 1])
    ensures Trim(EncodeText(before + core + after)) == EncodeText(core)
    decreases |before| + |after|
  {
    hide LeadingSpace, TrailingSpace, EncodeChar, IsWhiteSpace;
    var cs := before + core + after;
    var text := EncodeText(cs);
    if cs == [] {
      EmptyText();
    } else {
      FirstCharOf(cs);
      LastCharOf(cs);
      if IsWhiteSpace(cs[0]) {
        assert text[|EncodeChar(cs[0])|..] == EncodeText(cs[1..]);
        if before != [] {
          assert cs[1..] == before[1..] + core + after;
          TrimIsExact(before[1..], core, after);
        } else {
          assert core == [] && cs[1..] == [] + [] + after[1..];
          TrimIsExact([], [], after[1..]);
        }
      } else if after != [] {
        assert cs[..|cs| - 1] == before + core + after[..|after| - 1];
        WithoutLast(cs);
        TrimIsExact(before, core, after[..|after| - 1]);
      } else {
        assert before == [] && cs == core;
      }
    }
  }

  lemma EmptyText()
    ensures Trim([]) == []
  {
  }

  lemma WithoutLast(cs: seq<nat>)
    requires AllScalar(cs) && cs != []
    ensures var text, n := EncodeText(cs), |EncodeChar(cs[|cs| - 1])|;
            n <= |text| && text[..|text| - n] == EncodeText(cs[..|cs| - 1])
  {
    hide EncodeChar, EncodeText;
    var front, c := cs[..|cs| - 1], cs[|cs| - 1];
    LastChar(front, c);
    assert cs == front + [c];
  }
}
