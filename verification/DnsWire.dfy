/** Reference encoder and decoder for DNS messages (RFC 1035, sections 3.1, 4.1.1 to 4.1.4). */
module DnsWire {
  import opened Bytes
  import opened Wrappers

  type Label = seq<Byte>

  /** Labels of 1 to 63 bytes. The limit of 255 octets on a whole name (RFC 1035, section 3.1) is not checked by
      the code, so longer names are names here too. */
  predicate ValidName(labels: seq<Label>) {
    forall k :: 0 <= k < |labels| ==> 1 <= |labels[k]| <= 63
  }

  /** Length-prefixed labels, ended by the root. */
  function EncodeName(labels: seq<Label>): (s: seq<Byte>)
    requires ValidName(labels)
    ensures |s| >= 1
  {
    if labels == [] then [0] else [|labels[0]|] + labels[0] + EncodeName(labels[1..])
  }

  /** The name at `offset` and the position after it. The two top bits of a length select a compression
      pointer, which has to lead to a place before `start`, where the current run of labels began. */
  function DecodeName(m: seq<Byte>, offset: nat, start: nat): (r: Option<(seq<Label>, nat)>)
    requires start <= offset
    ensures r.Some? ==> offset < r.value.1 <= |m|
    decreases start, |m| - offset
  {
    if offset >= |m| then None
    else
      var b := m[offset];
      if b == 0 then Some(([], offset + 1))
      else if b < 64 then
        if offset + 1 + b > |m| then None
        else
          var rest := DecodeName(m, offset + 1 + b, start);
          if rest.None? then None
          else Some(([m[offset + 1..offset + 1 + b]] + rest.value.0, rest.value.1))
      else if b >= 192 then
        if offset + 2 > |m| then None
        else
          var target := Be16(b - 192, m[offset + 1]);
          if target >= start then None
          else
            var pointed := DecodeName(m, target, target);
            if pointed.None? then None else Some((pointed.value.0, offset + 2))
      else None
  }

  datatype Query = Query(name: seq<Label>, qtype: U16, qclass: U16)

  datatype Record = Record(name: seq<Label>, rtype: U16, rclass: U16, ttl: nat, data: seq<Byte>)

  datatype Message = Message(id: U16, flags: U16, questions: seq<Query>, answers: seq<Record>,
                             authorities: U16, additionals: U16, end: nat)

  function DecodeQuestions(m: seq<Byte>, offset: nat, count: nat): (r: Option<(seq<Query>, nat)>)
    decreases count
  {
    if count == 0 then Some(([], offset))
    else
      var name := DecodeName(m, offset, offset);
      if name.None? || name.value.1 + 4 > |m| then None
      else
        var at := name.value.1;
        var rest := DecodeQuestions(m, at + 4, count - 1);
        if rest.None? then None
        else Some(([Query(name.value.0, Word(m, at), Word(m, at + 2))] + rest.value.0, rest.value.1))
  }

  function DecodeRecords(m: seq<Byte>, offset: nat, count: nat): (r: Option<(seq<Record>, nat)>)
    decreases count
  {
    if count == 0 then Some(([], offset))
    else
      var name := DecodeName(m, offset, offset);
      if name.None? || name.value.1 + 10 > |m| then None
      else
        var at := name.value.1;
        var length := Word(m, at + 8);
        if at + 10 + length > |m| then None
        else
          var record := Record(name.value.0, Word(m, at), Word(m, at + 2),
                               Word(m, at + 4) * 0x1_0000 + Word(m, at + 6), m[at + 10..at + 10 + length]);
          var rest := DecodeRecords(m, at + 10 + length, count - 1);
          if rest.None? then None else Some(([record] + rest.value.0, rest.value.1))
  }

  /** Header, questions and answers; `end` is where the answers stop. */
  function DecodeMessage(m: seq<Byte>): Option<Message> {
    if |m| < 12 then None
    else
      var questions := DecodeQuestions(m, 12, Word(m, 4));
      if questions.None? then None
      else
        var answers := DecodeRecords(m, questions.value.1, Word(m, 6));
        if answers.None? then None
        else Some(Message(Word(m, 0), Word(m, 2), questions.value.0, answers.value.0,
                          Word(m, 8), Word(m, 10), answers.value.1))
  }

  /** The pieces of an encoded name where it stands in a message. */
  lemma EncodedPieces(m: seq<Byte>, offset: nat, labels: seq<Label>)
    requires ValidName(labels) && labels != []
    requires offset + |EncodeName(labels)| <= |m|
    requires m[offset..offset + |EncodeName(labels)|] == EncodeName(labels)
    ensures var next := offset + 1 + |labels[0]|;
            && |EncodeName(labels)| == 1 + |labels[0]| + |EncodeName(labels[1..])|
            && m[offset] == |labels[0]|
            && m[offset + 1..next] == labels[0]
            && m[next..next + |EncodeName(labels[1..])|] == EncodeName(labels[1..])
  {
    SplitSlice(m, offset, [|labels[0]|] + labels[0], EncodeName(labels[1..]));
    SplitSlice(m, offset, [|labels[0]|], labels[0]);
    assert m[offset] == m[offset..offset + 1][0];
  }

  /** A compression pointer to offset 12. */
  lemma PointerTo12(m: seq<Byte>, offset: nat, labels: seq<Label>, end: nat)
    requires 12 < offset && offset + 2 <= |m| && m[offset] == 0xc0 && m[offset + 1] == 0x0c
    requires DecodeName(m, 12, 12) == Some((labels, end))
    ensures DecodeName(m, offset, offset) == Some((labels, offset + 2))
  {
  }

  lemma DecodeRoot(m: seq<Byte>, offset: nat, start: nat)
    requires start <= offset < |m| && m[offset] == 0
    ensures DecodeName(m, offset, start) == Some(([], offset + 1))
  {
  }

  lemma DecodeLabel(m: seq<Byte>, offset: nat, start: nat, first: Label, rest: seq<Label>, end: nat)
    requires start <= offset && 1 <= |first| <= 63 && offset + 1 + |first| <= |m|
    requires m[offset] == |first| && m[offset + 1..offset + 1 + |first|] == first
    requires DecodeName(m, offset + 1 + |first|, start) == Some((rest, end))
    ensures DecodeName(m, offset, start) == Some(([first] + rest, end))
  {
  }

  /** Decoding an encoded name gives its labels back, wherever it stands in a message. */
  lemma {:induction false} NameRoundTrip(m: seq<Byte>, offset: nat, start: nat, labels: seq<Label>)
    requires ValidName(labels) && start <= offset
    requires offset + |EncodeName(labels)| <= |m|
    requires m[offset..offset + |EncodeName(labels)|] == EncodeName(labels)
    ensures DecodeName(m, offset, start) == Some((labels, offset + |EncodeName(labels)|))
    decreases |labels|
  {
    hide DecodeName;
    if labels == [] {
      assert m[offset] == m[offset..offset + 1][0];
      DecodeRoot(m, offset, start);
    } else {
      var next, end := offset + 1 + |labels[0]|, offset + |EncodeName(labels)|;
      EncodedPieces(m, offset, labels);
      NameRoundTrip(m, next, start, labels[1..]);
      DecodeLabel(m, offset, start, labels[0], labels[1..], end);
      assert [labels[0]] + labels[1..] == labels;
    }
  }

  /** One question, then one record, given where their names end. */
  lemma OneQuestion(m: seq<Byte>, offset: nat, name: seq<Label>, at: nat)
    requires DecodeName(m, offset, offset) == Some((name, at)) && at + 4 <= |m|
    ensures DecodeQuestions(m, offset, 1) == Some(([Query(name, Word(m, at), Word(m, at + 2))], at + 4))
  {
    var query := Query(name, Word(m, at), Word(m, at + 2));
    assert DecodeQuestions(m, at + 4, 0) == Some(([], at + 4));
    assert [query] + [] == [query];
  }

  lemma OneRecord(m: seq<Byte>, offset: nat, at: nat, record: Record)
    requires DecodeName(m, offset, offset) == Some((record.name, at)) && at + 10 + |record.data| <= |m|
    requires Word(m, at) == record.rtype && Word(m, at + 2) == record.rclass
    requires Word(m, at + 4) * 0x1_0000 + Word(m, at + 6) == record.ttl
    requires Word(m, at + 8) == |record.data| && m[at + 10..at + 10 + |record.data|] == record.data
    ensures DecodeRecords(m, offset, 1) == Some(([record], at + 10 + |record.data|))
  {
    assert DecodeRecords(m, at + 10 + |record.data|, 0) == Some(([], at + 10 + |record.data|));
    assert [record] + [] == [record];
  }
}
