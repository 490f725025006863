/** How far into a record the SNI walkers look: exactly to the end of the host they return. The handshake
    length is not where they stop. */
module TlsConfinement {
  import opened Bytes
  import opened Tls
  import opened TlsLaws
  import opened Utf8
  import opened Wrappers

  /** The same bytes up to `n`, and as many of them. */
  ghost predicate Alike(s: seq<Byte>, t: seq<Byte>, n: nat) {
    |t| == |s| && n <= |s| && t[..n] == s[..n]
  }

  lemma AlikeParts(s: seq<Byte>, t: seq<Byte>, n: nat, i: nat, j: nat)
    requires Alike(s, t, n) && i <= j <= |s|
    ensures |t| == |s| && (j <= n ==> t[i..j] == s[i..j])
    ensures i <= n <= j ==> Alike(s[i..j], t[i..j], n - i)
    ensures forall k :: 0 <= k < n ==> t[k] == s[k]
  {
    assert forall k :: 0 <= k < n ==> t[k] == t[..n][k] == s[..n][k] == s[k];
  }

  lemma Shifted(s: seq<Byte>, from: nat, to: nat, i: nat, j: nat)
    requires i <= j && from + j <= to <= |s|
    ensures s[from..to][i..j] == s[from + i..from + j]
  {
    var w, x := s[from..to][i..j], s[from + i..from + j];
    assert |w| == |x| && forall k :: 0 <= k < |w| ==> w[k] == x[k];
  }

  lemma ShiftedTail(s: seq<Byte>, from: nat, i: nat, j: nat)
    requires i <= j && from + j <= |s|
    ensures s[from..][i..j] == s[from + i..from + j]
  {
    assert s[from..] == s[from..|s|];
    Shifted(s, from, |s|, i, j);
  }

  lemma SameWord(s: seq<Byte>, t: seq<Byte>, i: nat)
    requires i + 2 <= |s| && i + 2 <= |t| && t[i] == s[i] && t[i + 1] == s[i + 1]
    ensures Word(t, i) == Word(s, i)
  {
  }

  lemma UpdatedTail(s: seq<Byte>, from: nat, i: nat, b: Byte)
    requires from <= i < |s|
    ensures s[i := b][from..] == s[from..][i - from := b]
  {
  }

  lemma UpdatedSlice(s: seq<Byte>, from: nat, to: nat, i: nat, b: Byte)
    requires from <= i < to <= |s|
    ensures s[i := b][from..to] == s[from..to][i - from := b]
  {
  }

  // ---------------------------------------------------------------------------
  // Names
  // ---------------------------------------------------------------------------

  /** Where the first host_name of a list ends. */
  function NameEnd(list: seq<Byte>): (end: nat)
    requires SearchNames(list).Ok?
    ensures 3 <= end <= |list|
    decreases |list|
  {
    var next: nat := 3 + Word(list, 1);
    if list[0] == 0 then next else next + NameEnd(list[next..])
  }

  lemma {:induction false} NameEndsThere(list: seq<Byte>)
    requires SearchNames(list).Ok?
    ensures var host, e := SearchNames(list).value, NameEnd(list);
            |host| <= e && list[e - |host|..e] == host
    decreases |list|
  {
    hide Word;
    var next: nat := 3 + Word(list, 1);
    if list[0] != 0 {
      NameEndsThere(list[next..]);
      var host, e := SearchNames(list).value, NameEnd(list[next..]);
      ShiftedTail(list, next, e - |host|, e);
    }
  }

  lemma {:induction false} AlikeNames(list: seq<Byte>, list': seq<Byte>)
    requires SearchNames(list).Ok? && Alike(list, list', NameEnd(list))
    ensures SearchNames(list') == SearchNames(list)
    decreases |list|
  {
    hide Word, IsUtf8;
    var e, next: nat := NameEnd(list), 3 + Word(list, 1);
    AlikeParts(list, list', e, 3, next);
    SameWord(list, list', 1);
    if list[0] != 0 {
      AlikeParts(list, list', e, next, |list|);
      assert list[next..|list|] == list[next..] && list'[next..|list|] == list'[next..];
      AlikeNames(list[next..], list'[next..]);
    }
  }

  lemma LowByteCounts(s: seq<Byte>, i: nat, b: Byte)
    requires i + 2 <= |s| && b != s[i + 1]
    ensures Word(s[i + 1 := b], i) != Word(s, i)
  {
  }

  /** The last byte counts: of the host, or of its length if the host is empty. */
  lemma {:induction false} LastByteOfName(list: seq<Byte>, b: Byte)
    requires SearchNames(list).Ok? && b != list[NameEnd(list) - 1]
    ensures SearchNames(list[NameEnd(list) - 1 := b]) != SearchNames(list)
    decreases |list|
  {
    hide Word, IsUtf8;
    var e, next: nat := NameEnd(list), 3 + Word(list, 1);
    var list' := list[e - 1 := b];
    if list[0] != 0 {
      SameWord(list, list', 1);
      UpdatedTail(list, next, e - 1, b);
      LastByteOfName(list[next..], b);
    } else if next > 3 {
      SameWord(list, list', 1);
      UpdatedSlice(list, 3, next, e - 1, b);
    } else {
      LowByteCounts(list, 1, b);
    }
  }

  // ---------------------------------------------------------------------------
  // Extensions
  // ---------------------------------------------------------------------------

  lemma FirstExtension(block: seq<Byte>)
    requires |block| >= 4 && 4 + Word(block, 2) as nat <= |block| && Word(block, 0) == 0
    ensures SniOfBlock(block) == SniOfExtension(block[4..4 + Word(block, 2) as nat])
    ensures SniOfBlock(block).Ok? ==>
              && 2 <= Word(block, 2) && 2 + Word(block, 4) as nat <= Word(block, 2) as nat
              && SniOfBlock(block) == SearchNames(block[6..6 + Word(block, 4) as nat])
    ensures 2 <= Word(block, 2) && 2 + Word(block, 4) as nat <= Word(block, 2) as nat ==>
              SniOfBlock(block) == SearchNames(block[6..6 + Word(block, 4) as nat])
  {
    hide Word;
    var n: nat := Word(block, 2);
    var data := block[4..4 + n];
    assert SearchExtensions(block) == Ok(data);
    if n >= 2 {
      assert data[0] == block[4] && data[1] == block[5];
      WordShifted(block, 4, data);
      if 2 + Word(data, 0) as nat <= n {
        Shifted(block, 4, 4 + n, 2, 2 + Word(data, 0) as nat);
      }
    }
  }

  lemma WordShifted(s: seq<Byte>, i: nat, t: seq<Byte>)
    requires i + 2 <= |s| && |t| >= 2 && t[0] == s[i] && t[1] == s[i + 1]
    ensures Word(t, 0) == Word(s, i)
  {
  }

  lemma LaterExtension(block: seq<Byte>)
    requires |block| >= 4 && 4 + Word(block, 2) as nat <= |block| && Word(block, 0) != 0
    ensures SniOfBlock(block) == SniOfBlock(block[4 + Word(block, 2) as nat..])
  {
  }

  /** Where the host ends in an extensions block. */
  function SniEnd(block: seq<Byte>): (end: nat)
    requires SniOfBlock(block).Ok?
    ensures 9 <= end <= |block|
    decreases |block|
  {
    var next: nat := 4 + Word(block, 2);
    if Word(block, 0) == 0 then
      FirstExtension(block);
      6 + NameEnd(block[6..6 + Word(block, 4) as nat])
    else
      LaterExtension(block);
      next + SniEnd(block[next..])
  }

  lemma {:induction false} SniEndsThere(block: seq<Byte>)
    requires SniOfBlock(block).Ok?
    ensures var host, e := SniOfBlock(block).value, SniEnd(block);
            |host| <= e && block[e - |host|..e] == host
    decreases |block|
  {
    hide Word, SniOfBlock, SniOfExtension;
    BlockStarts(block);
    var next: nat := 4 + Word(block, 2);
    var host := SniOfBlock(block).value;
    if Word(block, 0) == 0 {
      FirstExtension(block);
      var list := block[6..6 + Word(block, 4) as nat];
      NameEndsThere(list);
      var e := NameEnd(list);
      Shifted(block, 6, 6 + |list|, e - |host|, e);
    } else {
      LaterExtension(block);
      SniEndsThere(block[next..]);
      var e := SniEnd(block[next..]);
      ShiftedTail(block, next, e - |host|, e);
    }
  }

  lemma BlockStarts(block: seq<Byte>)
    requires SniOfBlock(block).Ok?
    ensures |block| >= 4 && 4 + Word(block, 2) as nat <= |block|
  {
  }

  lemma AlikeExtensions(block: seq<Byte>, block': seq<Byte>)
    requires SniOfBlock(block).Ok? && Word(block, 0) == 0 && Alike(block, block', SniEnd(block))
    ensures SniOfBlock(block') == SniOfBlock(block)
  {
    hide Word, SniOfBlock, SniOfExtension, SearchNames, NameEnd, Alike;
    BlockStarts(block);
    FirstExtension(block);
    var e, end := SniEnd(block), 6 + Word(block, 4) as nat;
    AlikeParts(block, block', e, 6, end);
    AlikeNames(block[6..end], block'[6..end]);
    SameWord(block, block', 0);
    SameWord(block, block', 2);
    SameWord(block, block', 4);
    FirstExtension(block');
  }

  lemma {:induction false} AlikeBlocks(block: seq<Byte>, block': seq<Byte>)
    requires SniOfBlock(block).Ok? && Alike(block, block', SniEnd(block))
    ensures SniOfBlock(block') == SniOfBlock(block)
    decreases |block|
  {
    hide Word, SniOfBlock, SniOfExtension, Alike;
    BlockStarts(block);
    var e, next: nat := SniEnd(block), 4 + Word(block, 2);
    if Word(block, 0) == 0 {
      AlikeExtensions(block, block');
    } else {
      LaterExtension(block);
      AlikeParts(block, block', e, next, |block|);
      SameWord(block, block', 0);
      SameWord(block, block', 2);
      LaterExtension(block');
      assert block[next..|block|] == block[next..] && block'[next..|block|] == block'[next..];
      AlikeBlocks(block[next..], block'[next..]);
    }
  }

  lemma LastByteOfExtension(block: seq<Byte>, b: Byte)
    requires SniOfBlock(block).Ok? && Word(block, 0) == 0 && b != block[SniEnd(block) - 1]
    ensures SniOfBlock(block[SniEnd(block) - 1 := b]) != SniOfBlock(block)
  {
    hide Word, SniOfBlock, SniOfExtension, SearchNames, NameEnd;
    BlockStarts(block);
    FirstExtension(block);
    var e, end := SniEnd(block), 6 + Word(block, 4) as nat;
    var list, block' := block[6..end], block[e - 1 := b];
    assert e == 6 + NameEnd(list) && list[e - 7] == block[e - 1];
    LastByteOfName(list, b);
    UpdatedSlice(block, 6, end, e - 1, b);
    SameWord(block, block', 0);
    SameWord(block, block', 2);
    SameWord(block, block', 4);
    FirstExtension(block');
  }

  lemma {:induction false} LastByteOfBlock(block: seq<Byte>, b: Byte)
    requires SniOfBlock(block).Ok? && b != block[SniEnd(block) - 1]
    ensures SniOfBlock(block[SniEnd(block) - 1 := b]) != SniOfBlock(block)
    decreases |block|
  {
    hide Word, SniOfBlock, SniOfExtension;
    BlockStarts(block);
    var e, next: nat := SniEnd(block), 4 + Word(block, 2);
    var block' := block[e - 1 := b];
    if Word(block, 0) == 0 {
      LastByteOfExtension(block, b);
    } else {
      LaterExtension(block);
      SameWord(block, block', 0);
      SameWord(block, block', 2);
      LaterExtension(block');
      UpdatedTail(block, next, e - 1, b);
      LastByteOfBlock(block[next..], b);
    }
  }

  // ---------------------------------------------------------------------------
  // Records
  // ---------------------------------------------------------------------------

  /** Where the extensions block begins, read off the three lengths in front of it. */
  function BlockAt(body: seq<Byte>): (at: Option<nat>)
    ensures at.Some? ==> 44 <= at.value <= |body|
  {
    if |body| < 42 then None
    else
      var ciphers: nat := 39 + body[38] as nat;
      if ciphers + 2 > |body| then None
      else
        var compression: nat := ciphers + 2 + Word(body, ciphers);
        if compression >= |body| then None
        else
          var extensions: nat := compression + 1 + body[compression];
          if extensions + 2 > |body| then None else Some(extensions + 2)
  }

  lemma BlockOf(body: seq<Byte>)
    ensures ExtensionsBlock(body).Ok? <==>
            && |body| >= 42 && body[0] == 1 && ReadU24(body[1], body[2], body[3]) + 4 <= |body|
            && BlockAt(body).Some? && BlockAt(body).value + Word(body, BlockAt(body).value - 2) as nat <= |body|
    ensures ExtensionsBlock(body).Ok? ==>
              var at := BlockAt(body).value;
              ExtensionsBlock(body).value == body[at..at + Word(body, at - 2) as nat]
    ensures ExtensionsBlock(body) == Err(NotClientHello) <==> |body| < 42 || body[0] != 1
    ensures ExtensionsBlock(body) == Err(HandshakeExceedsRecord) <==>
            |body| >= 42 && body[0] == 1 && ReadU24(body[1], body[2], body[3]) + 4 > |body|
  {
    hide AfterByteField, AfterWideField, WideField;
    if |body| >= 42 {
      var ciphers: nat := 39 + body[38] as nat;
      ByteFieldStep(body, 38, TooShortForU16, TooShortForU16);
      if ciphers <= |body| {
        WordFieldStep(body, ciphers, TooShortForU16, MissingCompressionLength);
        if ciphers + 2 <= |body| {
          var compression: nat := ciphers + 2 + Word(body, ciphers);
          if compression <= |body| {
            ByteFieldStep(body, compression, MissingCompressionLength, TooShortForU16);
            if compression < |body| {
              var extensions: nat := compression + 1 + body[compression];
              if extensions <= |body| {
                WordFieldStep(body, extensions, TooShortForU16, ExtensionsExceedRecord);
              }
            }
          }
        }
      }
    }
  }

  /** Where the returned host ends in the record. */
  function HostEnd(body: seq<Byte>): (end: nat)
    requires SniOfRecord(body).Ok?
    ensures 53 <= end <= |body|
  {
    BlockOf(body);
    BlockAt(body).value + SniEnd(ExtensionsBlock(body).value)
  }

  lemma HostEndsThere(body: seq<Byte>)
    requires SniOfRecord(body).Ok?
    ensures var host, e := SniOfRecord(body).value, HostEnd(body);
            |host| <= e && body[e - |host|..e] == host
  {
    hide Word, SniOfBlock, ExtensionsBlock, BlockAt;
    BlockOf(body);
    var at, block := BlockAt(body).value, ExtensionsBlock(body).value;
    SniEndsThere(block);
    var host, e := SniOfRecord(body).value, SniEnd(block);
    Shifted(body, at, at + |block|, e - |host|, e);
  }

  lemma SameBlockAt(body: seq<Byte>, body': seq<Byte>, n: nat)
    requires Alike(body, body', n) && BlockAt(body).Some? && BlockAt(body).value <= n
    ensures BlockAt(body') == BlockAt(body)
    ensures Word(body', BlockAt(body).value - 2) == Word(body, BlockAt(body).value - 2)
  {
    hide Word;
    AlikeParts(body, body', n, 0, n);
    var ciphers: nat := 39 + body[38] as nat;
    SameWord(body, body', ciphers);
    SameWord(body, body', BlockAt(body).value - 2);
  }

  lemma AlikeHeads(body: seq<Byte>, body': seq<Byte>, n: nat)
    requires SniOfRecord(body).Ok? && Alike(body, body', n) && BlockAt(body).Some? && BlockAt(body).value <= n
    ensures ExtensionsBlock(body').Ok? && BlockAt(body') == BlockAt(body)
    ensures var at, block := BlockAt(body).value, ExtensionsBlock(body).value;
            && at + |block| <= |body| && block == body[at..at + |block|]
            && ExtensionsBlock(body').value == body'[at..at + |block|]
  {
    hide Word, SniOfBlock, ExtensionsBlock, BlockAt, ReadU24;
    BlockOf(body);
    SameBlockAt(body, body', n);
    AlikeParts(body, body', n, 0, n);
    BlockOf(body');
  }

  /** The result depends on the first `n` bytes of the record and its length only. */
  ghost predicate Confined(body: seq<Byte>, n: nat)
    requires n <= |body|
  {
    forall body' :: Alike(body, body', n) ==> SniOfRecord(body') == SniOfRecord(body)
  }

  lemma EnoughConfines(body: seq<Byte>, body': seq<Byte>, n: nat)
    requires SniOfRecord(body).Ok? && Alike(body, body', n) && HostEnd(body) <= n
    ensures SniOfRecord(body') == SniOfRecord(body)
  {
    hide SniOfBlock, ExtensionsBlock, BlockAt;
    BlockOf(body);
    var at, block, e := BlockAt(body).value, ExtensionsBlock(body).value, HostEnd(body);
    AlikeHeads(body, body', n);
    AlikeParts(body, body', n, 0, e);
    AlikeParts(body, body', e, at, at + |block|);
    AlikeBlocks(block, ExtensionsBlock(body').value);
  }

  /** Another last byte of the host, or of its length, changes the result. */
  lemma LastByteOfHost(body: seq<Byte>, b: Byte)
    requires SniOfRecord(body).Ok? && b != body[HostEnd(body) - 1]
    ensures SniOfRecord(body[HostEnd(body) - 1 := b]) != SniOfRecord(body)
  {
    hide SniOfBlock, ExtensionsBlock, BlockAt;
    BlockOf(body);
    var at, block, e := BlockAt(body).value, ExtensionsBlock(body).value, HostEnd(body);
    var body' := body[e - 1 := b];
    assert body'[..at] == body[..at];
    AlikeHeads(body, body', at);
    assert block[e - at - 1] == body[e - 1];
    UpdatedSlice(body, at, at + |block|, e - 1, b);
    LastByteOfBlock(block, b);
  }

  /** The walkers look exactly as far as the host reaches. */
  lemma ConfinedIff(body: seq<Byte>, n: nat)
    requires SniOfRecord(body).Ok? && n <= |body|
    ensures Confined(body, n) <==> HostEnd(body) <= n
  {
    hide SniOfRecord, HostEnd;
    var e := HostEnd(body);
    if e <= n {
      forall body' | Alike(body, body', n) ensures SniOfRecord(body') == SniOfRecord(body) {
        EnoughConfines(body, body', n);
      }
    } else {
      var b: Byte := if body[e - 1] == 0 then 1 else 0;
      LastByteOfHost(body, b);
      assert Alike(body, body[e - 1 := b], n);
    }
  }

  /** The end of the handshake message that the record claims to hold. */
  function MessageEnd(body: seq<Byte>): (n: nat)
    requires SniOfRecord(body).Ok?
    ensures n <= |body|
  {
    BlockOf(body);
    4 + ReadU24(body[1], body[2], body[3])
  }

  /** A returned host comes out of the handshake message alone exactly if it ends inside that message. */
  lemma MessageConfinesIff(body: seq<Byte>)
    requires SniOfRecord(body).Ok?
    ensures Confined(body, MessageEnd(body)) <==> HostEnd(body) <= MessageEnd(body)
  {
    ConfinedIff(body, MessageEnd(body));
  }

  /** A message that names the host "a". */
  const SMALL_HELLO: ClientHello :=
    ClientHello(0x0303, seq(32, _ => 0), [], [], [], EncodeExtensions([ServerNameExtension([ServerName(0, [97])])]))

  /** In a record that claims an empty message, the host is found all the same, beyond the message's end. */
  lemma HostBeyondMessage()
    ensures SMALL_HELLO.WellFormed()
    ensures var body := [1] + U24(0) + EncodeHello(SMALL_HELLO, []);
            && SniOfRecord(body) == Ok([97])
            && MessageEnd(body) == 4 < HostEnd(body)
            && !Confined(body, MessageEnd(body))
  {
    var name := ServerName(0, [97]);
    assert [] + [name] + [] == [name];
    assert [] + [ServerNameExtension([name])] + [] == [ServerNameExtension([name])];
    assert FirstChar([97]) == 1 && IsUtf8([]);
    assert Hello(SMALL_HELLO, [], [], [], [97], []);
    ClaimedLengthIgnored(SMALL_HELLO, [], [], [], [97], [], 0);
    MessageConfinesIff([1] + U24(0) + EncodeHello(SMALL_HELLO, []));
  }
}
