/** Octets, 16-bit network-order words, and in-place updates of byte strings. */
module Bytes {

  type Byte = x: int | 0 <= x < 0x100

  type U16 = x: int | 0 <= x < 0x1_0000

  type U32 = x: int | 0 <= x < 0x1_0000_0000

  /** `u16::from_be_bytes([hi, lo])`. */
  function Be16(hi: Byte, lo: Byte): U16 {
    hi * 0x100 + lo
  }

  lemma Be16Injective(h: Byte, l: Byte, h': Byte, l': Byte)
    requires Be16(h, l) == Be16(h', l')
    ensures h == h' && l == l'
  {
  }

  /** `w.to_be_bytes()`. */
  function Bytes16(w: U16): (s: seq<Byte>)
    ensures |s| == 2
  {
    [w / 0x100, w % 0x100]
  }

  lemma Be16OfBytes16(w: U16)
    ensures Be16(Bytes16(w)[0], Bytes16(w)[1]) == w
  {
  }

  lemma Bytes16OfBe16(hi: Byte, lo: Byte)
    ensures Bytes16(Be16(hi, lo)) == [hi, lo]
  {
  }

  /** The word stored at offset `i`. */
  function Word(s: seq<Byte>, i: nat): U16
    requires i + 2 <= |s|
  {
    Be16(s[i], s[i + 1])
  }

  /** `s[i..i + 2].copy_from_slice(&w.to_be_bytes())`. */
  function Put16(s: seq<Byte>, i: nat, w: U16): (t: seq<Byte>)
    requires i + 2 <= |s|
    ensures |t| == |s|
    ensures t[i] == w / 0x100 && t[i + 1] == w % 0x100
    ensures forall k :: 0 <= k < |s| && k != i && k != i + 1 ==> t[k] == s[k]
  {
    s[i := w / 0x100][i + 1 := w % 0x100]
  }

  lemma WordOfPut16(s: seq<Byte>, i: nat, w: U16)
    requires i + 2 <= |s|
    ensures Word(Put16(s, i, w), i) == w
  {
  }

  /** Storing the word that is already there changes nothing. */
  lemma Put16Same(s: seq<Byte>, i: nat)
    requires i + 2 <= |s|
    ensures Put16(s, i, Word(s, i)) == s
  {
  }

  /** Where a concatenation stands in a message, its parts stand one after the other. */
  lemma SplitSlice<T>(m: seq<T>, offset: nat, s: seq<T>, t: seq<T>)
    requires offset + |s| + |t| <= |m| && m[offset..offset + |s| + |t|] == s + t
    ensures m[offset..offset + |s|] == s && m[offset + |s|..offset + |s| + |t|] == t
  {
    var st := s + t;
    assert forall k :: 0 <= k < |st| ==> m[offset + k] == m[offset..offset + |s| + |t|][k] == st[k];
    assert forall k :: 0 <= k < |s| ==> m[offset..offset + |s|][k] == st[k] == s[k];
    assert forall k :: 0 <= k < |t| ==> m[offset + |s|..offset + |s| + |t|][k] == st[|s| + k] == t[k];
  }
}
