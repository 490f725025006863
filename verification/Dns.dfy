/** The DNS gateway: parsing the one question of a query, and answering it with the gateway address. */
module Dns {
  import opened Addresses
  import opened Bytes
  import opened DnsWire
  import opened Wrappers

  datatype Question = Question(qtype: U16, questionEnd: nat)

  /** The position after an uncompressed name. */
  function SkipName(query: seq<Byte>, offset: nat): (r: Option<nat>)
    ensures r.Some? ==> offset < r.value <= |query|
    decreases |query| - offset
  {
    if offset >= |query| then None
    else
      var len := query[offset];
      if len == 0 then Some(offset + 1)
      else if len >= 64 || offset + 1 + len > |query| then None
      else SkipName(query, offset + 1 + len)
  }

  /** The labels such a name consists of. */
  function LabelsAt(query: seq<Byte>, offset: nat): (labels: seq<Label>)
    requires SkipName(query, offset).Some?
    ensures ValidName(labels)
    decreases |query| - offset
  {
    var len := query[offset];
    if len == 0 then [] else [query[offset + 1..offset + 1 + len]] + LabelsAt(query, offset + 1 + len)
  }

  function SingleQuestion(query: seq<Byte>): (r: Option<Question>)
    ensures r.Some? ==> 17 <= r.value.questionEnd <= |query| && SkipName(query, 12) == Some(r.value.questionEnd - 4)
  {
    if |query| < 17 || Word(query, 4) != 1 then None
    else
      var name := SkipName(query, 12);
      if name.None? || name.value + 4 > |query| || Word(query, name.value + 2) != 1 then None
      else Some(Question(Word(query, name.value), name.value + 4))
  }

  method ParseSingleQuestion(query: seq<Byte>) returns (r: Option<Question>)
    ensures r == SingleQuestion(query)
  {
    if |query| < 17 {
      return None;
    }
    if Be16(query[4], query[5]) != 1 {
      return None;
    }
    var offset := 12;
    while true
      invariant offset <= |query|
      invariant SkipName(query, offset) == SkipName(query, 12)
      decreases |query| - offset
    {
      if offset >= |query| {
        return None;
      }
      var len := query[offset];
      offset := offset + 1;
      if len == 0 {
        break;
      }
      if len >= 64 || offset + len > |query| {
        return None;
      }
      offset := offset + len;
    }
    if offset + 4 > |query| {
      return None;
    }
    var qtype := Be16(query[offset], query[offset + 1]);
    var qclass := Be16(query[offset + 2], query[offset + 3]);
    if qclass != 1 {
      return None;
    }
    r := Some(Question(qtype, offset + 4));
  }

  // ---------------------------------------------------------------------------
  // The parser is exact
  // ---------------------------------------------------------------------------

  /** From byte 12 on, the query is the encoding of a name followed by a type and class IN. */
  ghost predicate IsQuestion(query: seq<Byte>, labels: seq<Label>, qtype: U16, end: nat) {
    && ValidName(labels)
    && 12 <= end <= |query|
    && query[12..end] == EncodeName(labels) + Bytes16(qtype) + [0, 1]
  }

  lemma {:induction false} NameIsEncoding(query: seq<Byte>, offset: nat)
    requires SkipName(query, offset).Some?
    ensures query[offset..SkipName(query, offset).value] == EncodeName(LabelsAt(query, offset))
    decreases |query| - offset
  {
    var len := query[offset];
    if len != 0 {
      var next, end := offset + 1 + len, SkipName(query, offset).value;
      NameIsEncoding(query, next);
      assert query[offset..end] == [len] + query[offset + 1..next] + query[next..end];
    }
  }

  lemma {:induction false} EncodingIsName(query: seq<Byte>, offset: nat, labels: seq<Label>)
    requires ValidName(labels)
    requires offset + |EncodeName(labels)| <= |query|
    requires query[offset..offset + |EncodeName(labels)|] == EncodeName(labels)
    ensures SkipName(query, offset) == Some(offset + |EncodeName(labels)|)
    ensures LabelsAt(query, offset) == labels
    decreases |labels|
  {
    if labels == [] {
      assert query[offset] == query[offset..offset + 1][0];
    } else {
      EncodedPieces(query, offset, labels);
      EncodingIsName(query, offset + 1 + |labels[0]|, labels[1..]);
    }
  }

  /** The two words after the name, and the bytes they are made of. */
  lemma QuestionTail(query: seq<Byte>, at: nat, qtype: U16)
    requires at + 4 <= |query|
    ensures query[at..at + 4] == Bytes16(qtype) + [0, 1] <==> Word(query, at) == qtype && Word(query, at + 2) == 1
  {
    var tail := query[at..at + 4];
    assert tail == [query[at], query[at + 1], query[at + 2], query[at + 3]];
    Be16OfBytes16(qtype);
    if Word(query, at) == qtype && Word(query, at + 2) == 1 {
      Be16Injective(query[at], query[at + 1], Bytes16(qtype)[0], Bytes16(qtype)[1]);
      Be16Injective(query[at + 2], query[at + 3], 0, 1);
    }
  }

  /** The parser accepts exactly the queries with one question whose bytes from offset 12 begin with an
      uncompressed name, a type and class IN; type and end are then the ones it reports. */
  lemma SingleQuestionIsExact(query: seq<Byte>, qtype: U16, end: nat)
    ensures SingleQuestion(query) == Some(Question(qtype, end)) <==>
            |query| >= 12 && Word(query, 4) == 1 && exists labels :: IsQuestion(query, labels, qtype, end)
  {
    if SingleQuestion(query) == Some(Question(qtype, end)) {
      var at := end - 4;
      var labels := LabelsAt(query, 12);
      NameIsEncoding(query, 12);
      QuestionTail(query, at, qtype);
      assert query[12..end] == query[12..at] + query[at..end];
      assert IsQuestion(query, labels, qtype, end);
    }
    if |query| >= 12 && Word(query, 4) == 1 && exists labels :: IsQuestion(query, labels, qtype, end) {
      var labels :| IsQuestion(query, labels, qtype, end);
      QuestionParses(query, labels, qtype, end);
    }
  }

  lemma QuestionParses(query: seq<Byte>, labels: seq<Label>, qtype: U16, end: nat)
    requires |query| >= 12 && Word(query, 4) == 1 && IsQuestion(query, labels, qtype, end)
    ensures SingleQuestion(query) == Some(Question(qtype, end))
    ensures LabelsAt(query, 12) == labels
  {
    var s := EncodeName(labels);
    var at := 12 + |s|;
    assert |query[12..end]| == |s| + 4;
    assert query[12..at] == query[12..end][..|s|] == s;
    assert query[at..at + 4] == query[12..end][|s|..] == Bytes16(qtype) + [0, 1];
    EncodingIsName(query, 12, labels);
    QuestionTail(query, at, qtype);
  }

  // ---------------------------------------------------------------------------
  // The answer
  // ---------------------------------------------------------------------------

  /** The fixed part of an address record: pointer to offset 12, type A, class IN, TTL 60, four bytes. */
  const ANSWER_HEAD: seq<Byte> := [0xc0, 0x0c, 0, 1, 0, 1, 0, 0, 0, 0x3c, 0, 4]

  function Response(query: seq<Byte>, q: Question, gateway: Ipv4): (r: seq<Byte>)
    requires 17 <= q.questionEnd <= |query|
    ensures |r| == q.questionEnd + (if q.qtype == 1 then 16 else 0)
  {
    query[0..2] + [0x81, 0x80, 0, 1, 0, if q.qtype == 1 then 1 else 0, 0, 0, 0, 0]
    + query[12..q.questionEnd]
    + (if q.qtype == 1 then ANSWER_HEAD + Octets(gateway) else [])
  }

  method GatewayDnsResponse(query: seq<Byte>, gateway: Ipv4) returns (r: Option<seq<Byte>>)
    ensures r.Some? <==> SingleQuestion(query).Some?
    ensures r.Some? ==> r.value == Response(query, SingleQuestion(query).value, gateway)
  {
    var parsed := ParseSingleQuestion(query);
    if parsed.None? {
      return None;
    }
    var response := query[0..2];
    response := response + [0x81, 0x80];
    response := response + [0, 1];
    if parsed.value.qtype == 1 {
      response := response + [0, 1];
    } else {
      response := response + [0, 0];
    }
    response := response + [0, 0];
    response := response + [0, 0];
    response := response + query[12..parsed.value.questionEnd];
    if parsed.value.qtype != 1 {
      assert response == Response(query, parsed.value, gateway);
      return Some(response);
    }
    response := response + [0xc0, 0x0c];
    response := response + [0, 1];
    response := response + [0, 1];
    response := response + [0, 0, 0, 0x3c];
    response := response + [0, 4];
    response := response + Octets(gateway);
    assert response == Response(query, parsed.value, gateway);
    return Some(response);
  }

  /** What the bytes of a response hold, position by position. */
  lemma ResponseBytes(query: seq<Byte>, q: Question, gateway: Ipv4)
    requires 17 <= q.questionEnd <= |query|
    ensures var r := Response(query, q, gateway);
            && r[0..2] == query[0..2]
            && r[2..12] == [0x81, 0x80, 0, 1, 0, if q.qtype == 1 then 1 else 0, 0, 0, 0, 0]
            && r[12..q.questionEnd] == query[12..q.questionEnd]
            && (q.qtype == 1 ==> r[q.questionEnd..] == ANSWER_HEAD + Octets(gateway))
  {
  }

  /** Asking the parser about the response gives the query's own question. */
  lemma ResponseKeepsQuestion(query: seq<Byte>, gateway: Ipv4)
    requires SingleQuestion(query).Some?
    ensures var q := SingleQuestion(query).value;
            var r := Response(query, q, gateway);
            && SingleQuestion(r) == Some(q)
            && LabelsAt(r, 12) == LabelsAt(query, 12)
            && IsQuestion(r, LabelsAt(query, 12), q.qtype, q.questionEnd)
  {
    var q := SingleQuestion(query).value;
    var r := Response(query, q, gateway);
    ResponseBytes(query, q, gateway);
    SingleQuestionIsExact(query, q.qtype, q.questionEnd);
    var labels :| IsQuestion(query, labels, q.qtype, q.questionEnd);
    QuestionParses(query, labels, q.qtype, q.questionEnd);
    assert r[4] == r[2..12][2] && r[5] == r[2..12][3];
    QuestionParses(r, labels, q.qtype, q.questionEnd);
  }

  lemma EncodedNameAt12(m: seq<Byte>, labels: seq<Label>, qtype: U16, end: nat)
    requires IsQuestion(m, labels, qtype, end)
    ensures DecodeName(m, 12, 12) == Some((labels, end - 4))
    ensures end >= 17 && Word(m, end - 4) == qtype && Word(m, end - 2) == 1
  {
    var s := EncodeName(labels);
    assert |m[12..end]| == |s| + 4;
    assert m[12..12 + |s|] == m[12..end][..|s|] == s;
    assert m[end - 4..end] == m[12..end][|s|..] == Bytes16(qtype) + [0, 1];
    NameRoundTrip(m, 12, 12, labels);
    QuestionTail(m, end - 4, qtype);
  }

  /** A record whose two-byte name is a pointer back to the question's name. */
  lemma AnswerDecodes(r: seq<Byte>, e: nat, labels: seq<Label>, gateway: Ipv4)
    requires 17 <= e && |r| == e + 16 && r[e..] == ANSWER_HEAD + Octets(gateway)
    requires DecodeName(r, 12, 12) == Some((labels, e - 4))
    ensures DecodeRecords(r, e, 1) == Some(([Record(labels, 1, 1, 60, Octets(gateway))], |r|))
  {
    AnswerWords(r, e, gateway);
    PointerTo12(r, e, labels, e - 4);
    OneRecord(r, e, e + 2, Record(labels, 1, 1, 60, Octets(gateway)));
  }

  lemma AnswerWords(r: seq<Byte>, e: nat, gateway: Ipv4)
    requires |r| == e + 16 && r[e..] == ANSWER_HEAD + Octets(gateway)
    ensures r[e] == 0xc0 && r[e + 1] == 0x0c
    ensures Word(r, e + 2) == 1 && Word(r, e + 4) == 1 && Word(r, e + 6) == 0 && Word(r, e + 8) == 60
    ensures Word(r, e + 10) == 4 && r[e + 12..e + 16] == Octets(gateway)
  {
    var answer := r[e..];
    assert forall k :: 0 <= k < 16 ==> r[e + k] == answer[k];
    assert r[e + 12..e + 16] == answer[12..];
  }

  /** The header words of a response. */
  lemma ResponseHeader(query: seq<Byte>, q: Question, gateway: Ipv4)
    requires 17 <= q.questionEnd <= |query|
    ensures var r := Response(query, q, gateway);
            && Word(r, 0) == Word(query, 0) && Word(r, 2) == 0x8180 && Word(r, 4) == 1
            && Word(r, 6) == (if q.qtype == 1 then 1 else 0) && Word(r, 8) == 0 && Word(r, 10) == 0
  {
  }

  /** An RFC 1035 decoder reads the response as: the query's identifier, the query's only question, and for
      type A one record that gives the queried name the gateway address; nothing follows, whatever
      trailing bytes the query carried. */
  lemma ResponseDecodes(query: seq<Byte>, gateway: Ipv4)
    requires SingleQuestion(query).Some?
    ensures var q := SingleQuestion(query).value;
            var r, name := Response(query, q, gateway), LabelsAt(query, 12);
            DecodeMessage(r) ==
            Some(Message(Word(query, 0), 0x8180, [Query(name, q.qtype, 1)],
                         if q.qtype == 1 then [Record(name, 1, 1, 60, Octets(gateway))] else [],
                         0, 0, |r|))
  {
    hide Response;
    var q := SingleQuestion(query).value;
    var r, e, name := Response(query, q, gateway), q.questionEnd, LabelsAt(query, 12);
    ResponseBytes(query, q, gateway);
    ResponseHeader(query, q, gateway);
    ResponseKeepsQuestion(query, gateway);
    EncodedNameAt12(r, name, q.qtype, e);
    OneQuestion(r, 12, name, e - 4);
    if q.qtype == 1 {
      AnswerDecodes(r, e, name, gateway);
    } else {
      assert DecodeRecords(r, e, 0) == Some(([], e));
    }
  }
}
