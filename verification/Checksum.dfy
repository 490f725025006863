/** The Internet checksum (RFC 1071, section 1): the loops of the source, and what they compute. */
module Checksum {
  import opened Bytes

  /** The sum of the 16-bit words of `s`; an odd last byte is padded on the right with a zero byte. */
  function WordSum(s: seq<Byte>): nat {
    if |s| == 0 then 0
    else if |s| == 1 then Be16(s[0], 0)
    else Be16(s[0], s[1]) + WordSum(s[2..])
  }

  /** The end-around-carry residue: the 16-bit representative of `n` modulo 65535 that is 0 only for 0. */
  function Residue(n: nat): U16 {
    if n == 0 then 0 else (n - 1) % 65535 + 1
  }

  /** The value a checksum field has to hold. */
  function Complement(s: seq<Byte>): U16 {
    65535 - Residue(WordSum(s))
  }

  /** A block whose checksum field is included checks out when its words sum to all ones. */
  predicate Verifies(s: seq<Byte>) {
    Complement(s) == 0
  }

  /** Longest block whose 16-bit words cannot overflow a 32-bit accumulator: 65537 * 65535 == 2^32 - 1. */
  const MAX_BLOCK: nat := 2 * 65537

  // ---------------------------------------------------------------------------
  // The accumulator and the fold
  // ---------------------------------------------------------------------------

  lemma {:induction false} WordSumBound(s: seq<Byte>)
    ensures WordSum(s) <= 65535 * ((|s| + 1) / 2)
  {
    if |s| >= 2 {
      WordSumBound(s[2..]);
    }
  }

  lemma {:induction false} WordSumConcat(s: seq<Byte>, t: seq<Byte>)
    requires |s| % 2 == 0
    ensures WordSum(s + t) == WordSum(s) + WordSum(t)
  {
    if |s| == 0 {
      assert s + t == t;
    } else {
      WordSumConcat(s[2..], t);
      assert (s + t)[2..] == s[2..] + t;
    }
  }

  /** One end-around carry keeps the residue. */
  lemma CarryKeepsResidue(n: nat)
    requires n > 0xffff
    ensures 0 < n % 0x1_0000 + n / 0x1_0000 < n
    ensures Residue(n % 0x1_0000 + n / 0x1_0000) == Residue(n)
  {
    var q := n / 0x1_0000;
    var folded := n % 0x1_0000 + q;
    assert n - 1 == 65535 * q + (folded - 1);
  }

  /** `checksum`: a 32-bit accumulator over two-byte chunks and the odd remainder, then carries folded
      back until 16 bits remain. The accumulator never overflows on a block of at most `MAX_BLOCK` bytes. */
  method ComputeChecksum(bytes: seq<Byte>) returns (c: U16)
    requires |bytes| <= MAX_BLOCK
    ensures c == Complement(bytes)
  {
    WordSumBound(bytes);
    var sum: U32 := 0;
    var i := 0;
    while i + 2 <= |bytes|
      invariant 0 <= i <= |bytes| && i % 2 == 0
      invariant sum + WordSum(bytes[i..]) == WordSum(bytes)
    {
      assert bytes[i..][2..] == bytes[i + 2..];
      sum := sum + Be16(bytes[i], bytes[i + 1]);
      i := i + 2;
    }
    if i < |bytes| {
      sum := sum + Be16(bytes[i], 0);
    }
    assert sum == WordSum(bytes);
    while sum > 0xffff
      invariant Residue(sum) == Residue(WordSum(bytes))
      decreases sum
    {
      CarryKeepsResidue(sum);
      sum := sum % 0x1_0000 + sum / 0x1_0000;
    }
    c := 0xffff - sum;
  }

  // ---------------------------------------------------------------------------
  // What a stored checksum guarantees
  // ---------------------------------------------------------------------------

  /** Congruence modulo 65535, the meaning RFC 1071 gives the sum. */
  lemma ResidueCongruent(n: nat)
    ensures Residue(n) % 65535 == n % 65535
    ensures Residue(n) == 0 <==> n == 0
  {
    if n > 0 {
      var q := (n - 1) / 65535;
      assert n == 65535 * q + Residue(n);
    }
  }

  /** Adding the complement of a sum, or all ones where the complement is zero, gives all ones. */
  lemma ResidueOfComplement(n: nat)
    ensures Residue(n + (65535 - Residue(n))) == 65535
    ensures Residue(n) == 65535 ==> Residue(n + 65535) == 65535
  {
    if n > 0 {
      var q := (n - 1) / 65535;
      assert n == 65535 * q + Residue(n);
      assert n + (65535 - Residue(n)) - 1 == 65535 * q + 65534;
    }
  }

  /** Overwriting one aligned word changes the sum by the difference of the two words. */
  lemma WordSumPut(s: seq<Byte>, i: nat, w: U16)
    requires i % 2 == 0 && i + 2 <= |s|
    ensures WordSum(Put16(s, i, w)) == WordSum(s) - Word(s, i) + w
  {
    var t := Put16(s, i, w);
    WordSumAt(s, i);
    WordSumAt(t, i);
    WordOfPut16(s, i, w);
    assert t[..i] == s[..i];
    assert t[i + 2..] == s[i + 2..];
  }

  lemma WordSumAt(s: seq<Byte>, i: nat)
    requires i % 2 == 0 && i + 2 <= |s|
    ensures WordSum(s) == WordSum(s[..i]) + Word(s, i) + WordSum(s[i + 2..])
  {
    WordSumConcat(s[..i], s[i..]);
    assert s == s[..i] + s[i..];
    assert s[i..][2..] == s[i + 2..];
  }

  /** A block with a zeroed aligned field verifies once the field holds the complement of the block,
      or all ones when that complement is zero. */
  lemma StoredComplementVerifies(s: seq<Byte>, i: nat, w: U16)
    requires i % 2 == 0 && i + 2 <= |s| && s[i] == 0 && s[i + 1] == 0
    requires w == Complement(s) || (w == 0xffff && Complement(s) == 0)
    ensures Verifies(Put16(s, i, w))
  {
    WordSumPut(s, i, w);
    ResidueOfComplement(WordSum(s));
  }
}
