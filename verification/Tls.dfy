/** Finding the server name in a TLS ClientHello record. */
module Tls {
  import opened Bytes
  import opened Utf8
  import opened Wrappers

  datatype SniError =
    | NotClientHello | HandshakeExceedsRecord | TooShortForU16 | MissingCompressionLength
    | ExtensionsExceedRecord | ExtensionExceedsBlock | NoSni
    | ListExceedsExtension | NameExceedsList | NotUtf8 | NoHostName

  type SniResult = Result<seq<Byte>, SniError>

  // ---------------------------------------------------------------------------
  // What the two walkers compute
  // ---------------------------------------------------------------------------

  function ReadU16At(s: seq<Byte>, offset: nat): Option<U16> {
    if offset + 2 <= |s| then Some(Word(s, offset)) else None
  }

  /** Three bytes, most significant first. */
  function ReadU24(a: Byte, b: Byte, c: Byte): nat {
    Be16(a, b) * 0x100 + c
  }

  /** The data of the first server_name extension of an extensions block. */
  function SearchExtensions(block: seq<Byte>): (r: SniResult)
    decreases |block|
  {
    if |block| < 4 then Err(NoSni)
    else
      var end: nat := 4 + Word(block, 2);
      if end > |block| then Err(ExtensionExceedsBlock)
      else if Word(block, 0) == 0 then Ok(block[4..end])
      else SearchExtensions(block[end..])
  }

  /** The first host_name of a server name list. */
  function SearchNames(list: seq<Byte>): (r: SniResult)
    decreases |list|
  {
    if |list| < 3 then Err(NoHostName)
    else
      var end: nat := 3 + Word(list, 1);
      if end > |list| then Err(NameExceedsList)
      else if list[0] == 0 then (if IsUtf8(list[3..end]) then Ok(list[3..end]) else Err(NotUtf8))
      else SearchNames(list[end..])
  }

  function SniOfExtension(extension: seq<Byte>): SniResult {
    match ReadU16At(extension, 0)
    case None => Err(TooShortForU16)
    case Some(len) =>
      if len + 2 > |extension| then Err(ListExceedsExtension)
      else SearchNames(extension[2..2 + len])
  }

  /** What follows a field with a one-byte length. */
  function AfterByteField(s: seq<Byte>, missing: SniError, short: SniError): SniResult {
    if |s| < 1 then Err(missing) else if |s| < 1 + s[0] as nat then Err(short) else Ok(s[1 + s[0] as nat..])
  }

  /** A field with a two-byte length, and what follows it. */
  function WideField(s: seq<Byte>, missing: SniError, short: SniError): SniResult {
    if |s| < 2 then Err(missing)
    else if |s| < 2 + Word(s, 0) as nat then Err(short)
    else Ok(s[2..2 + Word(s, 0) as nat])
  }

  function AfterWideField(s: seq<Byte>, missing: SniError, short: SniError): SniResult {
    if |s| < 2 then Err(missing)
    else if |s| < 2 + Word(s, 0) as nat then Err(short)
    else Ok(s[2 + Word(s, 0) as nat..])
  }

  /** The extensions block of a record, behind session identifier, ciphers and compression methods. */
  function ExtensionsBlock(body: seq<Byte>): (r: SniResult) {
    if |body| < 42 || body[0] != 1 then Err(NotClientHello)
    else if ReadU24(body[1], body[2], body[3]) + 4 > |body| then Err(HandshakeExceedsRecord)
    else
      var ciphers :- AfterByteField(body[38..], TooShortForU16, TooShortForU16);
      var compression :- AfterWideField(ciphers, TooShortForU16, MissingCompressionLength);
      var extensions :- AfterByteField(compression, MissingCompressionLength, TooShortForU16);
      WideField(extensions, TooShortForU16, ExtensionsExceedRecord)
  }

  function SniOfBlock(block: seq<Byte>): SniResult {
    var data :- SearchExtensions(block);
    SniOfExtension(data)
  }

  function SniOfRecord(body: seq<Byte>): SniResult {
    var block :- ExtensionsBlock(body);
    SniOfBlock(block)
  }

  // ---------------------------------------------------------------------------
  // One step of each loop, on a window of the buffer
  // ---------------------------------------------------------------------------

  /** A window's words and sub-windows, in terms of the buffer. */
  lemma Window(s: seq<Byte>, from: nat, to: nat, i: nat, j: nat)
    requires from + i <= from + j <= to <= |s|
    ensures s[from..to][i..j] == s[from + i..from + j]
    ensures s[from..to][j..] == s[from + j..to]
    ensures forall k: nat :: from + k < to ==> s[from..to][k] == s[from + k]
  {
    var w := s[from..to];
    assert forall k: nat :: from + k < to ==> w[k] == s[from + k];
    assert |w[i..j]| == |s[from + i..from + j]|;
    assert forall k :: 0 <= k < j - i ==> w[i..j][k] == s[from + i..from + j][k];
    assert |w[j..]| == |s[from + j..to]| && forall k :: 0 <= k < to - from - j ==> w[j..][k] == s[from + j..to][k];
  }

  lemma ExtensionStep(body: seq<Byte>, offset: nat, end: nat)
    requires offset + 4 <= end <= |body|
    ensures var next := offset + 4 + Word(body, offset + 2) as nat;
            SearchExtensions(body[offset..end]) ==
            if next > end then Err(ExtensionExceedsBlock)
            else if Word(body, offset) == 0 then Ok(body[offset + 4..next])
            else SearchExtensions(body[next..end])
  {
    Window(body, offset, end, 4, 4);
    var n: nat := Word(body, offset + 2);
    if offset + 4 + n <= end {
      Window(body, offset, end, 4, 4 + n);
    }
  }

  lemma NameStep(list: seq<Byte>, offset: nat, end: nat)
    requires offset + 3 <= end <= |list|
    ensures var next := offset + 3 + Word(list, offset + 1) as nat;
            SearchNames(list[offset..end]) ==
            if next > end then Err(NameExceedsList)
            else if list[offset] == 0 then
              (if IsUtf8(list[offset + 3..next]) then Ok(list[offset + 3..next]) else Err(NotUtf8))
            else SearchNames(list[next..end])
  {
    Window(list, offset, end, 3, 3);
    var n: nat := Word(list, offset + 1);
    if offset + 3 + n <= end {
      Window(list, offset, end, 3, 3 + n);
    }
  }

  lemma ByteFieldStep(body: seq<Byte>, offset: nat, missing: SniError, short: SniError)
    requires offset <= |body|
    ensures offset == |body| ==> AfterByteField(body[offset..], missing, short) == Err(missing)
    ensures offset < |body| ==>
              var next := offset + 1 + body[offset] as nat;
              AfterByteField(body[offset..], missing, short) == if next > |body| then Err(short) else Ok(body[next..])
  {
    assert body[offset..] == body[offset..|body|];
    if offset < |body| {
      var n: nat := body[offset];
      if offset + 1 + n <= |body| {
        Window(body, offset, |body|, 1, 1 + n);
      }
    }
  }

  lemma WordFieldStep(body: seq<Byte>, offset: nat, missing: SniError, short: SniError)
    requires offset <= |body|
    ensures offset + 2 > |body| ==> AfterWideField(body[offset..], missing, short) == Err(missing)
    ensures offset + 2 > |body| ==> WideField(body[offset..], missing, short) == Err(missing)
    ensures offset + 2 <= |body| ==>
              var next := offset + 2 + Word(body, offset) as nat;
              && AfterWideField(body[offset..], missing, short) ==
                 (if next > |body| then Err(short) else Ok(body[next..]))
              && WideField(body[offset..], missing, short) ==
                 (if next > |body| then Err(short) else Ok(body[offset + 2..next]))
  {
    assert body[offset..] == body[offset..|body|];
    if offset + 2 <= |body| {
      Window(body, offset, |body|, 2, 2);
      var n: nat := Word(body, offset);
      if offset + 2 + n <= |body| {
        Window(body, offset, |body|, 2, 2 + n);
      }
    }
  }

  // ---------------------------------------------------------------------------
  // The walkers
  // ---------------------------------------------------------------------------

  method ParseSniExtension(extension: seq<Byte>) returns (r: SniResult)
    ensures r == SniOfExtension(extension)
  {
    var listLen := ReadU16At(extension, 0);
    if listLen.None? {
      return Err(TooShortForU16);
    }
    if listLen.value + 2 > |extension| {
      return Err(ListExceedsExtension);
    }
    r := WalkNames(extension, 2 + listLen.value);
  }

  /** The name loop of `parse_sni_extension`. */
  method WalkNames(extension: seq<Byte>, listEnd: nat) returns (r: SniResult)
    requires 2 <= listEnd <= |extension|
    ensures r == SearchNames(extension[2..listEnd])
  {
    var offset: nat := 2;
    while offset + 3 <= listEnd
      invariant 2 <= offset <= listEnd
      invariant SearchNames(extension[offset..listEnd]) == SearchNames(extension[2..listEnd])
      decreases listEnd - offset
    {
      NameStep(extension, offset, listEnd);
      var nameType := extension[offset];
      var nameLen := ReadU16At(extension, offset + 1);
      offset := offset + 3;
      var nameEnd := offset + nameLen.value;
      if nameEnd > listEnd {
        return Err(NameExceedsList);
      }
      if nameType == 0 {
        if !IsUtf8(extension[offset..nameEnd]) {
          return Err(NotUtf8);
        }
        return Ok(extension[offset..nameEnd]);
      }
      offset := nameEnd;
    }
    return Err(NoHostName);
  }

  method ParseTlsSniFromRecord(body: seq<Byte>) returns (r: SniResult)
    ensures r == SniOfRecord(body)
  {
    hide AfterByteField, AfterWideField, WideField, SniOfBlock;
    if |body| < 42 || body[0] != 0x01 {
      return Err(NotClientHello);
    }
    var handshakeLen := ReadU24(body[1], body[2], body[3]);
    if handshakeLen + 4 > |body| {
      return Err(HandshakeExceedsRecord);
    }
    var offset: nat := 4 + 2 + 32;
    var sessionLen: nat := body[offset];
    ByteFieldStep(body, offset, TooShortForU16, TooShortForU16);
    offset := offset + 1 + sessionLen;
    var cipherLen := ReadU16At(body, offset);
    if cipherLen.None? {
      if offset <= |body| {
        WordFieldStep(body, offset, TooShortForU16, MissingCompressionLength);
      }
      return Err(TooShortForU16);
    }
    WordFieldStep(body, offset, TooShortForU16, MissingCompressionLength);
    offset := offset + 2 + cipherLen.value;
    if offset >= |body| {
      if offset == |body| {
        ByteFieldStep(body, offset, MissingCompressionLength, TooShortForU16);
      }
      return Err(MissingCompressionLength);
    }
    var compressionLen: nat := body[offset];
    ByteFieldStep(body, offset, MissingCompressionLength, TooShortForU16);
    offset := offset + 1 + compressionLen;
    var extensionsLen := ReadU16At(body, offset);
    if extensionsLen.None? {
      if offset <= |body| {
        WordFieldStep(body, offset, TooShortForU16, ExtensionsExceedRecord);
      }
      return Err(TooShortForU16);
    }
    WordFieldStep(body, offset, TooShortForU16, ExtensionsExceedRecord);
    offset := offset + 2;
    var extensionsEnd := offset + extensionsLen.value;
    if extensionsEnd > |body| {
      return Err(ExtensionsExceedRecord);
    }
    r := WalkExtensions(body, offset, extensionsEnd);
  }

  /** The extension loop of `parse_tls_sni_from_record`. */
  method WalkExtensions(body: seq<Byte>, start: nat, extensionsEnd: nat) returns (r: SniResult)
    requires start <= extensionsEnd <= |body|
    ensures r == SniOfBlock(body[start..extensionsEnd])
  {
    hide SniOfExtension;
    var offset := start;
    while offset + 4 <= extensionsEnd
      invariant start <= offset <= extensionsEnd
      invariant SearchExtensions(body[offset..extensionsEnd]) == SearchExtensions(body[start..extensionsEnd])
      decreases extensionsEnd - offset
    {
      ExtensionStep(body, offset, extensionsEnd);
      var extensionType := ReadU16At(body, offset);
      var extensionLen := ReadU16At(body, offset + 2);
      offset := offset + 4;
      var extensionEnd := offset + extensionLen.value;
      if extensionEnd > extensionsEnd {
        return Err(ExtensionExceedsBlock);
      }
      if extensionType.value == 0 {
        r := ParseSniExtension(body[offset..extensionEnd]);
        return;
      }
      offset := extensionEnd;
    }
    return Err(NoSni);
  }
}
