/** The SNI walkers against the message format: RFC 8446, section 4.1.2 (ClientHello), and RFC 6066,
    section 3 (server_name). */
module TlsLaws {
  import opened Bytes
  import opened Tls
  import opened Utf8
  import opened Wrappers

  // ---------------------------------------------------------------------------
  // Serializer
  // ---------------------------------------------------------------------------

  datatype Extension = Extension(kind: U16, data: seq<Byte>)

  /** A name may be empty here, which RFC 6066 rules out and the walkers accept. */
  datatype ServerName = ServerName(nameType: Byte, name: seq<Byte>)

  datatype ClientHello = ClientHello(
    version: U16, random: seq<Byte>, session: seq<Byte>, ciphers: seq<Byte>, compression: seq<Byte>,
    block: seq<Byte>)
  {
    /** Every field fits the length in front of it. The tighter bounds of RFC 8446 (a session of at most 32
        bytes, at least one cipher and one compression method) are not checked by the walkers. */
    predicate WellFormed() {
      && |random| == 32 && |session| <= 0xff && |ciphers| <= 0xffff && |compression| <= 0xff && |block| <= 0xffff
    }
  }

  function EncodeExtension(e: Extension): seq<Byte>
    requires |e.data| <= 0xffff
  {
    Bytes16(e.kind) + Bytes16(|e.data|) + e.data
  }

  predicate Sized(es: seq<Extension>) {
    forall k :: 0 <= k < |es| ==> |es[k].data| <= 0xffff
  }

  function EncodeExtensions(es: seq<Extension>): seq<Byte>
    requires Sized(es)
  {
    if es == [] then [] else EncodeExtension(es[0]) + EncodeExtensions(es[1..])
  }

  function EncodeName(n: ServerName): seq<Byte>
    requires |n.name| <= 0xffff
  {
    [n.nameType] + Bytes16(|n.name|) + n.name
  }

  predicate SizedNames(ns: seq<ServerName>) {
    forall k :: 0 <= k < |ns| ==> |ns[k].name| <= 0xffff
  }

  function EncodeNames(ns: seq<ServerName>): seq<Byte>
    requires SizedNames(ns)
  {
    if ns == [] then [] else EncodeName(ns[0]) + EncodeNames(ns[1..])
  }

  function ByteField(field: seq<Byte>, rest: seq<Byte>): seq<Byte>
    requires |field| <= 0xff
  {
    [|field|] + field + rest
  }

  function WordField(field: seq<Byte>, rest: seq<Byte>): seq<Byte>
    requires |field| <= 0xffff
  {
    Bytes16(|field|) + field + rest
  }

  /** The message after the four-byte handshake header, in front of other bytes. */
  function EncodeHello(h: ClientHello, rest: seq<Byte>): (s: seq<Byte>)
    requires h.WellFormed()
    ensures |s| == 40 + |h.session| + |h.ciphers| + |h.compression| + |h.block| + |rest|
  {
    Bytes16(h.version) + h.random
    + ByteField(h.session, WordField(h.ciphers, ByteField(h.compression, WordField(h.block, rest))))
  }

  // ---------------------------------------------------------------------------
  // Searching what was serialized
  // ---------------------------------------------------------------------------

  /** An extension in front of other bytes. */
  lemma ExtensionInFront(e: Extension, rest: seq<Byte>)
    requires |e.data| <= 0xffff
    ensures var s := EncodeExtension(e) + rest;
            && |s| >= 4 && Word(s, 0) == e.kind && Word(s, 2) == |e.data|
            && s[4..4 + |e.data|] == e.data && s[4 + |e.data|..] == rest
  {
    Be16OfBytes16(e.kind);
    Be16OfBytes16(|e.data|);
  }

  lemma NameInFront(n: ServerName, rest: seq<Byte>)
    requires |n.name| <= 0xffff
    ensures var s := EncodeName(n) + rest;
            && |s| >= 3 && s[0] == n.nameType && Word(s, 1) == |n.name|
            && s[3..3 + |n.name|] == n.name && s[3 + |n.name|..] == rest
  {
    Be16OfBytes16(|n.name|);
  }

  /** Extensions of other kinds in front do not change what the search finds. */
  lemma {:induction false} SearchSkipsExtensions(es: seq<Extension>, rest: seq<Byte>)
    requires Sized(es) && forall k :: 0 <= k < |es| ==> es[k].kind != 0
    ensures SearchExtensions(EncodeExtensions(es) + rest) == SearchExtensions(rest)
  {
    if es == [] {
      assert EncodeExtensions(es) + rest == rest;
    } else {
      var tail := EncodeExtensions(es[1..]) + rest;
      ExtensionInFront(es[0], tail);
      assert EncodeExtensions(es) + rest == EncodeExtension(es[0]) + tail;
      SearchSkipsExtensions(es[1..], rest);
    }
  }

  lemma {:induction false} SearchSkipsNames(ns: seq<ServerName>, rest: seq<Byte>)
    requires SizedNames(ns) && forall k :: 0 <= k < |ns| ==> ns[k].nameType != 0
    ensures SearchNames(EncodeNames(ns) + rest) == SearchNames(rest)
  {
    if ns == [] {
      assert EncodeNames(ns) + rest == rest;
    } else {
      var tail := EncodeNames(ns[1..]) + rest;
      NameInFront(ns[0], tail);
      assert EncodeNames(ns) + rest == EncodeName(ns[0]) + tail;
      SearchSkipsNames(ns[1..], rest);
    }
  }

  // ---------------------------------------------------------------------------
  // Exactness of the two searches
  // ---------------------------------------------------------------------------

  /** `block` starts with extensions of other kinds, then a server_name extension carrying `data`. */
  ghost predicate FirstServerName(block: seq<Byte>, before: seq<Extension>, data: seq<Byte>, rest: seq<Byte>) {
    && Sized(before) && (forall k :: 0 <= k < |before| ==> before[k].kind != 0)
    && |data| <= 0xffff
    && block == EncodeExtensions(before) + (EncodeExtension(Extension(0, data)) + rest)
  }

  lemma FirstServerNameFound(block: seq<Byte>, before: seq<Extension>, data: seq<Byte>, rest: seq<Byte>)
    requires FirstServerName(block, before, data, rest)
    ensures SearchExtensions(block) == Ok(data)
  {
    SearchSkipsExtensions(before, EncodeExtension(Extension(0, data)) + rest);
    ExtensionInFront(Extension(0, data), rest);
  }

  lemma TakeExtension(block: seq<Byte>) returns (e: Extension, rest: seq<Byte>)
    requires |block| >= 4 && 4 + Word(block, 2) <= |block|
    ensures |e.data| <= 0xffff && e == Extension(Word(block, 0), block[4..4 + Word(block, 2)])
    ensures rest == block[4 + Word(block, 2)..] && block == EncodeExtension(e) + rest
  {
    var end := 4 + Word(block, 2);
    e, rest := Extension(Word(block, 0), block[4..end]), block[end..];
    Bytes16OfBe16(block[0], block[1]);
    Bytes16OfBe16(block[2], block[3]);
    assert block == [block[0], block[1]] + [block[2], block[3]] + block[4..end] + rest;
  }

  lemma PrependExtension(e: Extension, deeper: seq<Extension>, last: seq<Byte>)
    requires |e.data| <= 0xffff && Sized(deeper)
    ensures Sized([e] + deeper)
    ensures EncodeExtensions([e] + deeper) + last == EncodeExtension(e) + (EncodeExtensions(deeper) + last)
  {
    assert ([e] + deeper)[1..] == deeper;
  }

  lemma {:induction false} FoundIsFirstServerName(block: seq<Byte>) returns (before: seq<Extension>, rest: seq<Byte>)
    requires SearchExtensions(block).Ok?
    ensures FirstServerName(block, before, SearchExtensions(block).value, rest)
    decreases |block|
  {
    var e, tail := TakeExtension(block);
    if e.kind == 0 {
      before, rest := [], tail;
      assert [] + (EncodeExtension(e) + tail) == block;
    } else {
      var deeper;
      deeper, rest := FoundIsFirstServerName(tail);
      before := [e] + deeper;
      PrependExtension(e, deeper, EncodeExtension(Extension(0, SearchExtensions(block).value)) + rest);
    }
  }

  /** `list` starts with names of other types, then a host_name in UTF-8. */
  ghost predicate FirstHostName(list: seq<Byte>, before: seq<ServerName>, host: seq<Byte>, rest: seq<Byte>) {
    && SizedNames(before) && (forall k :: 0 <= k < |before| ==> before[k].nameType != 0)
    && |host| <= 0xffff && IsUtf8(host)
    && list == EncodeNames(before) + (EncodeName(ServerName(0, host)) + rest)
  }

  lemma FirstHostNameFound(list: seq<Byte>, before: seq<ServerName>, host: seq<Byte>, rest: seq<Byte>)
    requires FirstHostName(list, before, host, rest)
    ensures SearchNames(list) == Ok(host)
  {
    SearchSkipsNames(before, EncodeName(ServerName(0, host)) + rest);
    NameInFront(ServerName(0, host), rest);
  }

  lemma TakeName(list: seq<Byte>) returns (n: ServerName, rest: seq<Byte>)
    requires |list| >= 3 && 3 + Word(list, 1) <= |list|
    ensures |n.name| <= 0xffff && n == ServerName(list[0], list[3..3 + Word(list, 1)])
    ensures rest == list[3 + Word(list, 1)..] && list == EncodeName(n) + rest
  {
    var end := 3 + Word(list, 1);
    n, rest := ServerName(list[0], list[3..end]), list[end..];
    Bytes16OfBe16(list[1], list[2]);
    assert list == [list[0]] + [list[1], list[2]] + list[3..end] + rest;
  }

  lemma PrependName(n: ServerName, deeper: seq<ServerName>, last: seq<Byte>)
    requires |n.name| <= 0xffff && SizedNames(deeper)
    ensures SizedNames([n] + deeper)
    ensures EncodeNames([n] + deeper) + last == EncodeName(n) + (EncodeNames(deeper) + last)
  {
    assert ([n] + deeper)[1..] == deeper;
  }

  lemma {:induction false} FoundIsFirstHostName(list: seq<Byte>) returns (before: seq<ServerName>, rest: seq<Byte>)
    requires SearchNames(list).Ok?
    ensures FirstHostName(list, before, SearchNames(list).value, rest)
    decreases |list|
  {
    var n, tail := TakeName(list);
    if n.nameType == 0 {
      before, rest := [], tail;
      assert [] + (EncodeName(n) + tail) == list;
    } else {
      var deeper;
      deeper, rest := FoundIsFirstHostName(tail);
      before := [n] + deeper;
      PrependName(n, deeper, EncodeName(ServerName(0, SearchNames(list).value)) + rest);
    }
  }

  /** Server_name data: a length, that many bytes of names, and bytes the walker ignores. */
  ghost predicate NameData(data: seq<Byte>, list: seq<Byte>, ignored: seq<Byte>) {
    |list| <= 0xffff && data == Bytes16(|list|) + (list + ignored)
  }

  lemma NameDataSearched(data: seq<Byte>, list: seq<Byte>, ignored: seq<Byte>)
    requires NameData(data, list, ignored)
    ensures SniOfExtension(data) == SearchNames(list)
  {
    Be16OfBytes16(|list|);
    assert data[2..2 + |list|] == list;
  }

  lemma SearchedIsNameData(data: seq<Byte>) returns (list: seq<Byte>, ignored: seq<Byte>)
    requires SniOfExtension(data).Ok?
    ensures NameData(data, list, ignored) && SniOfExtension(data) == SearchNames(list)
  {
    var end := 2 + Word(data, 0);
    list, ignored := data[2..end], data[end..];
    Bytes16OfBe16(data[0], data[1]);
    assert data == [data[0], data[1]] + (list + ignored);
  }

  // ---------------------------------------------------------------------------
  // Where the searches stop without a result
  // ---------------------------------------------------------------------------

  /** `list` starts with names of other types, and `rest` is what follows. */
  ghost predicate NamesThen(list: seq<Byte>, before: seq<ServerName>, rest: seq<Byte>) {
    && SizedNames(before) && (forall k :: 0 <= k < |before| ==> before[k].nameType != 0)
    && list == EncodeNames(before) + rest
  }

  /** The bytes at which the search of a list stops: too few for a name, a host_name, or a name that is cut off. */
  predicate StopsNames(rest: seq<Byte>) {
    |rest| < 3 || rest[0] == 0 || 3 + Word(rest, 1) as nat > |rest|
  }

  lemma {:induction false} NamesStop(list: seq<Byte>) returns (before: seq<ServerName>, rest: seq<Byte>)
    ensures NamesThen(list, before, rest) && StopsNames(rest) && SearchNames(list) == SearchNames(rest)
    decreases |list|
  {
    if StopsNames(list) {
      before, rest := [], list;
      assert [] + list == list;
    } else {
      var n, tail := TakeName(list);
      var deeper;
      deeper, rest := NamesStop(tail);
      before := [n] + deeper;
      PrependName(n, deeper, rest);
    }
  }

  /** What is wrong with a list of names that gives no host: it ends, a name is cut off, or the first host_name is
      not UTF-8. */
  lemma NameErrors(list: seq<Byte>)
    ensures SearchNames(list) == Err(NoHostName) <==>
            exists before, rest :: NamesThen(list, before, rest) && |rest| < 3
    ensures SearchNames(list) == Err(NameExceedsList) <==>
            exists before, rest :: NamesThen(list, before, rest) && |rest| >= 3 && 3 + Word(rest, 1) as nat > |rest|
    ensures SearchNames(list) == Err(NotUtf8) <==>
            exists before, rest :: NamesThen(list, before, rest) && |rest| >= 3 && rest[0] == 0
                                   && 3 + Word(rest, 1) as nat <= |rest| && !IsUtf8(rest[3..3 + Word(rest, 1) as nat])
  {
    var before, rest := NamesStop(list);
    forall before', rest' | NamesThen(list, before', rest') ensures SearchNames(list) == SearchNames(rest') {
      SearchSkipsNames(before', rest');
    }
  }

  ghost predicate ExtensionsThen(block: seq<Byte>, before: seq<Extension>, rest: seq<Byte>) {
    && Sized(before) && (forall k :: 0 <= k < |before| ==> before[k].kind != 0)
    && block == EncodeExtensions(before) + rest
  }

  predicate StopsExtensions(rest: seq<Byte>) {
    |rest| < 4 || Word(rest, 0) == 0 || 4 + Word(rest, 2) as nat > |rest|
  }

  lemma {:induction false} ExtensionsStop(block: seq<Byte>) returns (before: seq<Extension>, rest: seq<Byte>)
    ensures ExtensionsThen(block, before, rest) && StopsExtensions(rest)
    ensures SearchExtensions(block) == SearchExtensions(rest)
    decreases |block|
  {
    if StopsExtensions(block) {
      before, rest := [], block;
      assert [] + block == block;
    } else {
      var e, tail := TakeExtension(block);
      var deeper;
      deeper, rest := ExtensionsStop(tail);
      before := [e] + deeper;
      PrependExtension(e, deeper, rest);
    }
  }

  /** What is wrong with an extensions block that gives no server_name extension: it ends, or one is cut off. */
  lemma ExtensionErrors(block: seq<Byte>)
    ensures SearchExtensions(block) == Err(NoSni) <==>
            exists before, rest :: ExtensionsThen(block, before, rest) && |rest| < 4
    ensures SearchExtensions(block) == Err(ExtensionExceedsBlock) <==>
            exists before, rest :: ExtensionsThen(block, before, rest) && |rest| >= 4
                                   && 4 + Word(rest, 2) as nat > |rest|
  {
    var before, rest := ExtensionsStop(block);
    forall before', rest' | ExtensionsThen(block, before', rest')
      ensures SearchExtensions(block) == SearchExtensions(rest')
    {
      SearchSkipsExtensions(before', rest');
    }
  }

  // ---------------------------------------------------------------------------
  // Exactness of the record walker
  // ---------------------------------------------------------------------------

  /** The record holds a ClientHello header and body, then bytes the walker ignores. The handshake length
      only has to stay inside the record; it is not compared with the message. */
  ghost predicate HelloRecord(body: seq<Byte>, length: seq<Byte>, h: ClientHello, ignored: seq<Byte>) {
    && h.WellFormed()
    && |length| == 3
    && body == [1] + length + EncodeHello(h, ignored)
    && ReadU24(length[0], length[1], length[2]) + 4 <= |body|
  }

  lemma ByteFieldInFront(field: seq<Byte>, rest: seq<Byte>, missing: SniError, short: SniError)
    requires |field| <= 0xff
    ensures AfterByteField(ByteField(field, rest), missing, short) == Ok(rest)
  {
  }

  lemma WordFieldInFront(field: seq<Byte>, rest: seq<Byte>, missing: SniError, short: SniError)
    requires |field| <= 0xffff
    ensures AfterWideField(WordField(field, rest), missing, short) == Ok(rest)
    ensures WideField(WordField(field, rest), missing, short) == Ok(field)
  {
    Be16OfBytes16(|field|);
  }

  lemma TakeByteField(s: seq<Byte>, missing: SniError, short: SniError) returns (field: seq<Byte>, rest: seq<Byte>)
    requires AfterByteField(s, missing, short).Ok?
    ensures AfterByteField(s, missing, short) == Ok(rest)
    ensures |field| <= 0xff && s == ByteField(field, rest)
  {
    field, rest := s[1..1 + s[0] as nat], s[1 + s[0] as nat..];
  }

  lemma TakeWordField(s: seq<Byte>, missing: SniError, short: SniError) returns (field: seq<Byte>, rest: seq<Byte>)
    requires AfterWideField(s, missing, short).Ok? || WideField(s, missing, short).Ok?
    ensures AfterWideField(s, missing, short) == Ok(rest) && WideField(s, missing, short) == Ok(field)
    ensures |field| <= 0xffff && s == WordField(field, rest)
  {
    field, rest := s[2..2 + Word(s, 0) as nat], s[2 + Word(s, 0) as nat..];
    Bytes16OfBe16(s[0], s[1]);
  }

  lemma FieldsOf(length: seq<Byte>, h: ClientHello, ciphers: seq<Byte>, body: seq<Byte>)
    requires |length| == 3 && |h.random| == 32 && |h.session| <= 0xff
    requires body == [1] + length + (Bytes16(h.version) + h.random + ByteField(h.session, ciphers))
    ensures |body| >= 39 && body[0] == 1 && body[1] == length[0] && body[2] == length[1] && body[3] == length[2]
    ensures body[38..] == ByteField(h.session, ciphers)
  {
  }

  lemma HelloBlockFound(body: seq<Byte>, length: seq<Byte>, h: ClientHello, ignored: seq<Byte>)
    requires HelloRecord(body, length, h, ignored)
    ensures ExtensionsBlock(body) == Ok(h.block)
  {
    var extensions := WordField(h.block, ignored);
    var compression := ByteField(h.compression, extensions);
    var ciphers := WordField(h.ciphers, compression);
    FieldsOf(length, h, ciphers, body);
    ByteFieldInFront(h.session, ciphers, TooShortForU16, TooShortForU16);
    WordFieldInFront(h.ciphers, compression, TooShortForU16, MissingCompressionLength);
    ByteFieldInFront(h.compression, extensions, MissingCompressionLength, TooShortForU16);
    WordFieldInFront(h.block, ignored, TooShortForU16, ExtensionsExceedRecord);
  }

  lemma BlockFoundIsHello(body: seq<Byte>) returns (length: seq<Byte>, h: ClientHello, ignored: seq<Byte>)
    requires ExtensionsBlock(body).Ok?
    ensures HelloRecord(body, length, h, ignored) && h.block == ExtensionsBlock(body).value
  {
    hide AfterByteField, AfterWideField, WideField, ByteField, WordField, Bytes16;
    var session, afterSession := TakeByteField(body[38..], TooShortForU16, TooShortForU16);
    var ciphers, afterCiphers := TakeWordField(afterSession, TooShortForU16, MissingCompressionLength);
    var compression, afterCompression := TakeByteField(afterCiphers, MissingCompressionLength, TooShortForU16);
    var block;
    block, ignored := TakeWordField(afterCompression, TooShortForU16, ExtensionsExceedRecord);
    length := body[1..4];
    h := ClientHello(Word(body, 4), body[6..38], session, ciphers, compression, block);
    HelloFront(body, body[38..]);
  }

  lemma HelloFront(body: seq<Byte>, fields: seq<Byte>)
    requires |body| >= 38 && fields == body[38..]
    ensures body == [body[0]] + body[1..4] + (Bytes16(Word(body, 4)) + body[6..38] + fields)
  {
    Bytes16OfBe16(body[4], body[5]);
  }

  // ---------------------------------------------------------------------------
  // Main results
  // ---------------------------------------------------------------------------

  /** Everything the format leaves free in a record that names a host. */
  datatype Wrapping = Wrapping(
    length: seq<Byte>, hello: ClientHello, ignored: seq<Byte>,
    extensions: seq<Extension>, data: seq<Byte>, laterExtensions: seq<Byte>,
    list: seq<Byte>, laterData: seq<Byte>,
    names: seq<ServerName>, laterNames: seq<Byte>)

  ghost predicate Carries(body: seq<Byte>, host: seq<Byte>, w: Wrapping) {
    && HelloRecord(body, w.length, w.hello, w.ignored)
    && FirstServerName(w.hello.block, w.extensions, w.data, w.laterExtensions)
    && NameData(w.data, w.list, w.laterData)
    && FirstHostName(w.list, w.names, host, w.laterNames)
  }

  /** The walker returns a host on exactly the records of this format whose first host_name, in the first
      server_name extension, is that host in UTF-8: any session, ciphers and compression, any other
      extensions before and after, any other names before and after. */
  lemma SniIsExact(body: seq<Byte>, host: seq<Byte>)
    ensures SniOfRecord(body) == Ok(host) <==> exists w :: Carries(body, host, w)
  {
    if w :| Carries(body, host, w) {
      HelloBlockFound(body, w.length, w.hello, w.ignored);
      FirstServerNameFound(w.hello.block, w.extensions, w.data, w.laterExtensions);
      NameDataSearched(w.data, w.list, w.laterData);
      FirstHostNameFound(w.list, w.names, host, w.laterNames);
    }
    if SniOfRecord(body) == Ok(host) {
      var w := WrappingOf(body);
    }
  }

  lemma WrappingOf(body: seq<Byte>) returns (w: Wrapping)
    requires SniOfRecord(body).Ok?
    ensures Carries(body, SniOfRecord(body).value, w)
  {
    var length, hello, ignored := BlockFoundIsHello(body);
    var extensions, laterExtensions := FoundIsFirstServerName(hello.block);
    var data := SearchExtensions(hello.block).value;
    var list, laterData := SearchedIsNameData(data);
    var names, laterNames := FoundIsFirstHostName(list);
    w := Wrapping(length, hello, ignored, extensions, data, laterExtensions, list, laterData, names, laterNames);
  }

  /** The three-byte handshake length. */
  function U24(n: nat): seq<Byte>
    requires n < 0x100_0000
  {
    Bytes16(n / 0x100) + [n % 0x100]
  }

  /** A server_name extension with a list of names. */
  function ServerNameExtension(names: seq<ServerName>): Extension
    requires SizedNames(names) && |EncodeNames(names)| <= 0xffff
  {
    Extension(0, Bytes16(|EncodeNames(names)|) + EncodeNames(names))
  }

  lemma {:induction false} EncodeNamesConcat(xs: seq<ServerName>, ys: seq<ServerName>)
    requires SizedNames(xs) && SizedNames(ys)
    ensures EncodeNames(xs + ys) == EncodeNames(xs) + EncodeNames(ys)
  {
    if xs == [] {
      assert xs + ys == ys;
    } else {
      assert (xs + ys)[1..] == xs[1..] + ys;
      EncodeNamesConcat(xs[1..], ys);
    }
  }

  lemma {:induction false} EncodeExtensionsConcat(xs: seq<Extension>, ys: seq<Extension>)
    requires Sized(xs) && Sized(ys)
    ensures EncodeExtensions(xs + ys) == EncodeExtensions(xs) + EncodeExtensions(ys)
  {
    if xs == [] {
      assert xs + ys == ys;
    } else {
      assert (xs + ys)[1..] == xs[1..] + ys;
      EncodeExtensionsConcat(xs[1..], ys);
    }
  }

  /** A well-formed message whose first host_name, in its only or first server_name extension, is the host. */
  ghost predicate Hello(
      h: ClientHello, before: seq<Extension>, after: seq<Extension>,
      otherNames: seq<ServerName>, host: seq<Byte>, laterNames: seq<ServerName>)
  {
    && h.WellFormed() && IsUtf8(host)
    && Sized(before) && Sized(after) && SizedNames(otherNames + [ServerName(0, host)] + laterNames)
    && (forall k :: 0 <= k < |before| ==> before[k].kind != 0)
    && (forall k :: 0 <= k < |otherNames| ==> otherNames[k].nameType != 0)
    && |EncodeNames(otherNames + [ServerName(0, host)] + laterNames)| <= 0xffff - 2
    && h.block ==
       EncodeExtensions(before
                        + [ServerNameExtension(otherNames + [ServerName(0, host)] + laterNames)]
                        + after)
  }

  /** The claimed handshake length does not matter as long as it stays inside the record. */
  lemma {:induction false} ClaimedLengthIgnored(
      h: ClientHello, before: seq<Extension>, after: seq<Extension>,
      otherNames: seq<ServerName>, host: seq<Byte>, laterNames: seq<ServerName>, claimed: nat)
    requires Hello(h, before, after, otherNames, host, laterNames)
    requires claimed <= |EncodeHello(h, [])|
    ensures SniOfRecord([1] + U24(claimed) + EncodeHello(h, [])) == Ok(host)
  {
    var names := otherNames + [ServerName(0, host)] + laterNames;
    var e := ServerNameExtension(names);
    NamesRoundTrip(otherNames, host, laterNames);
    assert NameData(e.data, EncodeNames(names), []);
    ExtensionsRoundTrip(before, e.data, after);
    U24RoundTrip(claimed);
    var body := [1] + U24(claimed) + EncodeHello(h, []);
    assert Carries(body, host, Wrapping(U24(claimed), h, [], before, e.data, EncodeExtensions(after),
                                        EncodeNames(names), [], otherNames, EncodeNames(laterNames)));
    SniIsExact(body, host);
  }

  /** Round trip: a serialized ClientHello with the host anywhere in its server_name extension, and that
      extension anywhere among the others, gives the host back. */
  lemma {:induction false} ClientHelloRoundTrip(
      h: ClientHello, before: seq<Extension>, after: seq<Extension>,
      otherNames: seq<ServerName>, host: seq<Byte>, laterNames: seq<ServerName>)
    requires Hello(h, before, after, otherNames, host, laterNames)
    ensures SniOfRecord([1] + U24(|EncodeHello(h, [])|) + EncodeHello(h, [])) == Ok(host)
  {
    ClaimedLengthIgnored(h, before, after, otherNames, host, laterNames, |EncodeHello(h, [])|);
  }

  lemma {:induction false} NamesAround(before: seq<ServerName>, n: ServerName, after: seq<ServerName>)
    requires SizedNames(before) && |n.name| <= 0xffff && SizedNames(after)
    ensures SizedNames(before + [n] + after)
    ensures EncodeNames(before + [n] + after) == EncodeNames(before) + (EncodeName(n) + EncodeNames(after))
  {
    EncodeNamesConcat(before + [n], after);
    EncodeNamesConcat(before, [n]);
    assert [n][1..] == [];
    assert EncodeNames([n]) == EncodeName(n) + EncodeNames([]);
  }

  lemma {:induction false} NamesRoundTrip(before: seq<ServerName>, host: seq<Byte>, after: seq<ServerName>)
    requires IsUtf8(host) && SizedNames(before + [ServerName(0, host)] + after)
    requires forall k :: 0 <= k < |before| ==> before[k].nameType != 0
    ensures SizedNames(after)
    ensures FirstHostName(EncodeNames(before + [ServerName(0, host)] + after), before, host, EncodeNames(after))
  {
    hide EncodeNames, EncodeName;
    var names := before + [ServerName(0, host)] + after;
    assert forall k :: 0 <= k < |before| ==> names[k] == before[k];
    assert forall k :: 0 <= k < |after| ==> names[|before| + 1 + k] == after[k];
    assert names[|before|] == ServerName(0, host);
    NamesAround(before, ServerName(0, host), after);
  }

  lemma {:induction false} ExtensionsRoundTrip(before: seq<Extension>, data: seq<Byte>, after: seq<Extension>)
    requires Sized(before) && Sized(after) && |data| <= 0xffff
    requires forall k :: 0 <= k < |before| ==> before[k].kind != 0
    ensures FirstServerName(EncodeExtensions(before + [Extension(0, data)] + after),
                            before, data, EncodeExtensions(after))
  {
    var e := [Extension(0, data)];
    EncodeExtensionsConcat(before + e, after);
    EncodeExtensionsConcat(before, e);
    assert e[1..] == [];
    assert EncodeExtensions(e) == EncodeExtension(e[0]) + EncodeExtensions([]);
  }

  lemma U24RoundTrip(n: nat)
    requires n < 0x100_0000
    ensures |U24(n)| == 3 && ReadU24(U24(n)[0], U24(n)[1], U24(n)[2]) == n
  {
    Be16OfBytes16(n / 0x100);
  }
}
