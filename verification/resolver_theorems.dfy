/** What clients of the resolver can rely on, stated on the bytes they send and get back. */
module ResolverTheorems {
  import opened RustInt
  import opened Text
  import opened Wire
  import opened DnsQuery
  import opened DnsResponse
  import opened ChallengeStore
  import opened Resolver
  import opened Rfc1035
  import opened ResponseReadsBack

  // What a processed query says.

  /** The labels a message asks for. */
  function Asked(message: Bytes): seq<Bytes> {
    NameAt(message, 12)
  }

  function AskedType(message: Bytes): u16
    requires MessageFits(message) && ReachesQuestion(message) && LabelsAt(message, 12).Labels?
  {
    U16At(message, LabelsAt(message, 12).end)
  }

  function AskedClass(message: Bytes): u16
    requires MessageFits(message) && ReachesQuestion(message) && LabelsAt(message, 12).Labels?
  {
    U16At(message, LabelsAt(message, 12).end + 2)
  }

  /** A processed query was read as this content, with this question. */
  function AskedContent(message: Bytes, qtype: ValidQueryType): Content
    requires MessageFits(message) && ReachesQuestion(message) && LabelsAt(message, 12).Labels?
  {
    var name, key := EncodeName(Asked(message)), Dotted(Asked(message));
    Content(U16At(message, 0), message[2] % 2 == 1, NoError,
            Some(DnsQuery.Query(name, key, qtype.Code(), AskedClass(message), true)), [])
  }

  lemma ProcessedIsParsed(message: Bytes)
    requires MessageFits(message) && ReadMessage(message).Processed?
    ensures ReachesQuestion(message) && LabelsAt(message, 12).Labels? && ParseQuestion(message, 12).Parsed?
    ensures var q, r := ParseQuestion(message, 12).query, ReadMessage(message);
      && q.isAcmeChallenge && q.queryType == r.queryType.Code()
      && r == Processed(Content(U16At(message, 0), message[2] % 2 == 1, NoError, Some(q), []),
                        q.queryNameBytes, r.queryType, q.queryNameString)
  {
  }

  lemma ParsedQuestion(message: Bytes)
    requires MessageFits(message) && ReachesQuestion(message) && LabelsAt(message, 12).Labels?
    requires ParseQuestion(message, 12).Parsed? && ParseQuestion(message, 12).query.isAcmeChallenge
    ensures var labels, q := Asked(message), ParseQuestion(message, 12).query;
      && NonEmpty(labels) && AllAscii(labels) && IsAcmeName(labels) && |EncodeName(labels)| <= 255
      && q == DnsQuery.Query(EncodeName(labels), Dotted(labels), q.queryType, AskedClass(message), true)
  {
    LabelsEndInEmpty(message, 12);
    ParsedName(message, 12);
  }

  /** A processed query echoes the header and asks for an ASCII name below "_acme-challenge". */
  lemma ProcessedQuery(message: Bytes)
    requires MessageFits(message) && ReadMessage(message).Processed?
    ensures ReachesQuestion(message) && LabelsAt(message, 12).Labels?
    ensures var labels := Asked(message);
      NonEmpty(labels) && AllAscii(labels) && IsAcmeName(labels) && |EncodeName(labels)| <= 255
    ensures var qtype := ReadMessage(message).queryType;
      ReadMessage(message)
        == Processed(AskedContent(message, qtype), EncodeName(Asked(message)), qtype, Dotted(Asked(message)))
  {
    ProcessedIsParsed(message);
    ParsedQuestion(message);
  }

  // TXT.

  /** The texts of TXT records. */
  function TextsOf(records: seq<Record>): Option<seq<Bytes>> {
    if records == [] then Some([])
    else
      var first :- JoinedStrings(records[0].rdata);
      var rest :- TextsOf(records[1..]);
      Some([first] + rest)
  }

  /** Every value fits into one character string. */
  predicate FitOneString(values: seq<Bytes>) {
    forall i :: 0 <= i < |values| ==> |values[i]| <= 255
  }

  /** A value survives its length octet exactly if it has at most 255 bytes: a wrapped octet makes the
      rest of the value look like further strings, and their length octets are lost. */
  lemma TxtValueReadsBack(name: Bytes, value: Bytes)
    ensures var rdata := TxtAnswer(name, value).value;
      && rdata != [] && rdata[0] == |value| % 256 && rdata[1..] == value
      && (JoinedStrings(rdata) == Some(value) <==> |value| <= 255)
  {
    var rdata: Bytes := [AsU8(|value|)] + value;
    CastKeeps(|value|);
    CastWraps(|value| % 256, |value| / 256);
    assert rdata[1..] == value;
    if |value| > 255 && JoinedStrings(rdata).Some? {
      var length: int := rdata[0];
      assert JoinedStrings(rdata).value == rdata[1..1 + length] + JoinedStrings(rdata[1 + length..]).value;
    }
  }

  lemma {:induction false} TextsReadBack(name: Bytes, values: seq<Bytes>)
    ensures TextsOf(RecordsOf(TxtAnswers(name, values))) == Some(values) <==> FitOneString(values)
  {
    if values == [] {
    } else {
      var records := RecordsOf(TxtAnswers(name, values));
      assert records[1..] == RecordsOf(TxtAnswers(name, values[1..]));
      TxtValueReadsBack(name, values[0]);
      TextsReadBack(name, values[1..]);
      assert values == [values[0]] + values[1..];
      var texts := TextsOf(records);
      if texts == Some(values) {
        assert texts.value[0] == values[0] && texts.value[1..] == values[1..];
      }
    }
  }

  lemma {:induction false} TxtAnswersArePrintable(name: Bytes, values: seq<Bytes>)
    requires IsWireName(name) && forall i :: 0 <= i < |values| ==> |values[i]| < 0xFFFF
    ensures Printable(TxtAnswers(name, values)) && |TxtAnswers(name, values)| == |values|
    ensures forall r :: r in RecordsOf(TxtAnswers(name, values)) ==>
      r.name == name && r.rtype == 16 && r.rclass == 1 && r.ttl == 30
  {
    if values == [] {
    } else {
      TxtAnswersArePrintable(name, values[1..]);
    }
  }

  /** Values of at most `max` bytes in the store. */
  predicate ValuesWithin(items: seq<Challenge>, max: nat) {
    forall i :: 0 <= i < |items| ==> |items[i].value| <= max
  }

  lemma ValuesOfWithin(items: seq<Challenge>, name: Bytes, max: nat)
    requires ValuesWithin(items, max)
    ensures forall i :: 0 <= i < |ValuesOf(items, name)| ==> |ValuesOf(items, name)[i]| <= max
    ensures |ValuesOf(items, name)| <= |items|
  {
    NoValuesIffNoMatch(items, name);
    var values := ValuesOf(items, name);
    forall i | 0 <= i < |values| ensures |values[i]| <= max {
      ValuesOfHolds(items, name, values[i]);
    }
  }

  lemma ShortNameIsWireName(labels: seq<Bytes>)
    requires NonEmpty(labels) && Short(labels)
    ensures IsWireName(EncodeName(labels))
  {
    EncodedNameIsTaken(labels, []);
    assert EncodeName(labels) + [] == EncodeName(labels);
  }

  /** The names read from a message without pointers have short labels. */
  lemma PointerFreeIsShort(message: Bytes)
    requires MessageFits(message) && ReadMessage(message).Processed? && PointerFree(message, 12)
    ensures Short(Asked(message))
  {
    LabelsEndInEmpty(message, 12);
    NameCameFromItsEncoding(Asked(message), LabelsAt(message, 12).end, message, 12);
  }

  /** The bytes returned for a processed query. */
  function ReplyBytes(message: Bytes, ips: ServerIps, items: seq<Challenge>): Bytes
    requires MessageFits(message) && ReadMessage(message).Processed?
  {
    EncodeContent(ReplyTo(message, ips, items).value)
  }

  /** The message that a processed query's reply stands for. */
  function Expected(message: Bytes, ips: ServerIps, items: seq<Challenge>): Message
    requires MessageFits(message) && ReadMessage(message).Processed?
  {
    ProcessedNameHasFirstLabel(message);
    ProcessedQuery(message);
    var labels, qtype := Asked(message), ReadMessage(message).queryType;
    var answers := AnswersFor(qtype, EncodeName(labels), Dotted(labels), ips, items);
    Message(
      Rfc1035.Header(U16At(message, 0), true, 0, true, false, message[2] % 2 == 1, false, false, true, false,
                     if answers == [] then 3 else 0),
      [Question(EncodeName(labels), qtype.Code(), AskedClass(message))],
      RecordsOf(answers), [], [])
  }

  lemma AnswersArePrintable(qtype: ValidQueryType, name: Bytes, key: Bytes, ips: ServerIps, items: seq<Challenge>)
    requires IsWireName(name) && |name| <= 255 && NameHasFirstLabel(name)
    requires |items| <= 100 && ValuesWithin(items, 0xFFFE)
    ensures var answers := AnswersFor(qtype, name, key, ips, items);
      Printable(answers) && |answers| <= 100
  {
    ValuesOfWithin(items, key, 0xFFFE);
    TxtAnswersArePrintable(name, ValuesOf(items, key));
  }

  lemma ReplyIsExpected(message: Bytes, ips: ServerIps, items: seq<Challenge>)
    requires MessageFits(message) && ReadMessage(message).Processed?
    ensures var content := ReplyTo(message, ips, items).value;
      && MessageOf(content) == Expected(message, ips, items)
      && content.query.Some? && content.query.value.queryNameBytes == EncodeName(Asked(message))
    ensures NameHasFirstLabel(EncodeName(Asked(message)))
    ensures ReplyTo(message, ips, items).value.answers
         == AnswersFor(ReadMessage(message).queryType, EncodeName(Asked(message)), Dotted(Asked(message)), ips, items)
  {
    ProcessedQuery(message);
    ProcessedNameHasFirstLabel(message);
  }

  /** A processed query's reply reads back as an authoritative answer that echoes id, RD bit and
      question, exactly if no label asked for was copied from more than 63 octets. */
  lemma ReplyReadsBack(message: Bytes, ips: ServerIps, items: seq<Challenge>)
    requires MessageFits(message) && ReadMessage(message).Processed?
    requires |items| <= 100 && ValuesWithin(items, 0xFFFE)
    ensures Decode(ReplyBytes(message, ips, items))
         == if Short(Asked(message)) then Some(Expected(message, ips, items)) else None
  {
    if Short(Asked(message)) {
      ShortReplyReadsBack(message, ips, items);
    } else {
      LongReplyIsUnreadable(message, ips, items);
    }
  }

  lemma ShortReplyReadsBack(message: Bytes, ips: ServerIps, items: seq<Challenge>)
    requires MessageFits(message) && ReadMessage(message).Processed? && Short(Asked(message))
    requires |items| <= 100 && ValuesWithin(items, 0xFFFE)
    ensures Decode(ReplyBytes(message, ips, items)) == Some(Expected(message, ips, items))
  {
    ReplyIsExpected(message, ips, items);
    ProcessedQuery(message);
    var labels := Asked(message);
    ShortNameIsWireName(labels);
    AnswersArePrintable(ReadMessage(message).queryType, EncodeName(labels), Dotted(labels), ips, items);
    ContentReadsBack(ReplyTo(message, ips, items).value);
  }

  lemma LongReplyIsUnreadable(message: Bytes, ips: ServerIps, items: seq<Challenge>)
    requires MessageFits(message) && ReadMessage(message).Processed? && !Short(Asked(message))
    requires |items| <= 100
    ensures Decode(ReplyBytes(message, ips, items)) == None
  {
    ReplyIsExpected(message, ips, items);
    ProcessedQuery(message);
    var labels := Asked(message);
    LabelsAreOctets(message, 12);
    FewAnswers(ReadMessage(message).queryType, EncodeName(labels), Dotted(labels), ips, items);
    LongLabelsAreUnreadable(ReplyTo(message, ips, items).value, labels);
  }

  lemma {:induction false} LabelsAreOctets(bytes: Bytes, at: nat)
    requires LabelsAt(bytes, at).Labels?
    ensures forall i :: 0 <= i < |LabelsAt(bytes, at).labels| ==> |LabelsAt(bytes, at).labels[i]| < 256
    decreases |bytes| - at
  {
    var read := NextLabel(bytes, at);
    if read.part == [] {
    } else {
      LabelsAreOctets(bytes, read.next);
    }
  }

  lemma {:induction false} TxtAnswersCount(name: Bytes, values: seq<Bytes>)
    ensures |TxtAnswers(name, values)| == |values|
  {
    if values == [] {
    } else {
      TxtAnswersCount(name, values[1..]);
    }
  }

  lemma FewAnswers(qtype: ValidQueryType, name: Bytes, key: Bytes, ips: ServerIps, items: seq<Challenge>)
    requires NameHasFirstLabel(name) && |items| <= 100
    ensures |AnswersFor(qtype, name, key, ips, items)| <= 100
  {
    NoValuesIffNoMatch(items, key);
    TxtAnswersCount(name, ValuesOf(items, key));
  }

  /** The message has one TXT record under `name` for each of `count` values, or NXDOMAIN for none. */
  predicate AnswersTxt(m: Message, name: Bytes, count: nat) {
    && |m.answers| == count
    && (forall r :: r in m.answers ==> r.name == name && r.rtype == 16 && r.rclass == 1 && r.ttl == 30)
    && m.header.rcode == if count == 0 then 3 else 0
  }

  lemma TxtExpected(message: Bytes, ips: ServerIps, items: seq<Challenge>)
    requires MessageFits(message) && ReadMessage(message).Processed? && ReadMessage(message).queryType == TXT
    requires |items| <= 100 && ValuesWithin(items, 0xFFFE) && Short(Asked(message))
    ensures var values, m := ValuesOf(items, Dotted(Asked(message))), Expected(message, ips, items);
      && AnswersTxt(m, EncodeName(Asked(message)), |values|)
      && (TextsOf(m.answers) == Some(values) <==> FitOneString(values))
  {
    ProcessedQuery(message);
    var name, values := EncodeName(Asked(message)), ValuesOf(items, Dotted(Asked(message)));
    ShortNameIsWireName(Asked(message));
    ValuesOfWithin(items, Dotted(Asked(message)), 0xFFFE);
    TxtAnswersArePrintable(name, values);
    TextsReadBack(name, values);
    RecordsCount(TxtAnswers(name, values));
    assert Expected(message, ips, items).answers == RecordsOf(TxtAnswers(name, values));
  }

  lemma {:induction false} RecordsCount(answers: seq<Answer>)
    ensures |RecordsOf(answers)| == |answers|
  {
    if answers == [] {
    } else {
      RecordsCount(answers[1..]);
    }
  }

  /** A TXT query is answered with one record for each value registered under the name asked for, in
      any case; without any, the response code is NXDOMAIN. The records read back as exactly those
      values, in registration order, if and only if none of them is longer than 255 bytes. */
  lemma TxtReply(message: Bytes, ips: ServerIps, items: seq<Challenge>)
    requires MessageFits(message) && ReadMessage(message).Processed? && ReadMessage(message).queryType == TXT
    requires |items| <= 100 && ValuesWithin(items, 0xFFFE) && Short(Asked(message))
    ensures var values := ValuesOf(items, Dotted(Asked(message)));
      var reply := Decode(ReplyBytes(message, ips, items));
      && reply == Some(Expected(message, ips, items))
      && AnswersTxt(reply.value, EncodeName(Asked(message)), |values|)
      && (TextsOf(reply.value.answers) == Some(values) <==> FitOneString(values))
  {
    ReplyReadsBack(message, ips, items);
    TxtExpected(message, ips, items);
  }

  // NS and SOA.

  /** An NS answer points at the name without its first label, in well-formed wire form. */
  lemma NsAnswerNamesTheParent(labels: seq<Bytes>)
    requires labels != [] && NonEmpty(labels) && Short(labels)
    ensures NameHasFirstLabel(EncodeName(labels))
    ensures NsAnswer(EncodeName(labels)).value == EncodeName(labels[1..])
    ensures IsWireName(EncodeName(labels[1..]))
  {
    CastKeeps(|labels[0]|);
    var name := EncodeName(labels);
    assert name == [AsU8(|labels[0]|)] + labels[0] + EncodeName(labels[1..]);
    ShortNameIsWireName(labels[1..]);
  }

  /** NS and SOA are answered, once, exactly when TXT on the same name has an answer. */
  lemma NsAndSoaFollowTxt(name: Bytes, key: Bytes, ips: ServerIps, items: seq<Challenge>)
    requires NameHasFirstLabel(name)
    ensures var txt := AnswersFor(TXT, name, key, ips, items);
      && AnswersFor(NS, name, key, ips, items) == (if txt == [] then [] else [NsAnswer(name)])
      && AnswersFor(SOA, name, key, ips, items) == (if txt == [] then [] else [SoaAnswer(name)])
  {
    TxtAnswersCount(name, ValuesOf(items, key));
  }

  /** The records of an NS answer: the parent of the name asked for, if a challenge has that name. */
  function ParentRecords(labels: seq<Bytes>, known: bool): seq<Record>
    requires labels != []
  {
    if known then [Record(EncodeName(labels), 2, 1, 30, EncodeName(labels[1..]))] else []
  }

  lemma NsExpected(message: Bytes, ips: ServerIps, items: seq<Challenge>)
    requires MessageFits(message) && ReadMessage(message).Processed? && ReadMessage(message).queryType == NS
    requires Short(Asked(message))
    ensures Asked(message) != []
    ensures Expected(message, ips, items).answers
         == ParentRecords(Asked(message), ValuesOf(items, Dotted(Asked(message))) != [])
  {
    ProcessedQuery(message);
    NsAnswerNamesTheParent(Asked(message));
    var a := NsAnswer(EncodeName(Asked(message)));
    assert RecordsOf([]) == [];
    assert [a][1..] == [] && RecordsOf([a]) == [RecordOf(a)];
  }

  /** The reply to an NS query delegates to the parent of the name asked for. */
  lemma NsReply(message: Bytes, ips: ServerIps, items: seq<Challenge>)
    requires MessageFits(message) && ReadMessage(message).Processed? && ReadMessage(message).queryType == NS
    requires |items| <= 100 && ValuesWithin(items, 0xFFFE) && Short(Asked(message))
    ensures var labels := Asked(message);
      var reply := Decode(ReplyBytes(message, ips, items));
      && labels != [] && reply == Some(Expected(message, ips, items))
      && reply.value.answers == ParentRecords(labels, ValuesOf(items, Dotted(labels)) != [])
      && IsWireName(EncodeName(labels[1..]))
  {
    ReplyReadsBack(message, ips, items);
    NsExpected(message, ips, items);
    ProcessedQuery(message);
    NsAnswerNamesTheParent(Asked(message));
  }

  // SOA data and addresses.

  datatype Soa = Soa(mname: Bytes, rname: Bytes, serial: nat, refresh: nat, retry: nat, expire: nat, minimum: nat)

  /** The data of an SOA record (RFC 1035, section 3.3.13). */
  function SoaOf(rdata: Bytes): Option<Soa> {
    var (mname, s1) :- TakeName(rdata);
    var (rname, s2) :- TakeName(s1);
    var (serial, s3) :- TakeNumber(s2, 4);
    var (refresh, s4) :- TakeNumber(s3, 4);
    var (retry, s5) :- TakeNumber(s4, 4);
    var (expire, s6) :- TakeNumber(s5, 4);
    var (minimum, s7) :- TakeNumber(s6, 4);
    if s7 == [] then Some(Soa(mname, rname, serial, refresh, retry, expire, minimum)) else None
  }

  /** The SOA data names the queried domain twice and carries the program's five numbers. */
  lemma SoaAnswerReadsBack(name: Bytes)
    requires IsWireName(name)
    ensures SoaOf(SoaAnswer(name).value) == Some(Soa(name, name, 1, 10800, 3600, 604800, 30))
  {
    TakeNameInFront(name, name + SoaNumbers());
    TakeNameInFront(name, SoaNumbers());
    Powers();
    var s6 := BigEndian(30, 4);
    var s5 := BigEndian(604800, 4) + s6;
    var s4 := BigEndian(3600, 4) + s5;
    var s3 := BigEndian(10800, 4) + s4;
    NumberInFront(1, 4, s3);
    NumberInFront(10800, 4, s4);
    NumberInFront(3600, 4, s5);
    NumberInFront(604800, 4, s6);
    NumberInFront(30, 4, []);
    assert s6 + [] == s6;
  }

  /** The addresses given out are the server's own, whatever is registered. */
  lemma AddressAnswersReadBack(name: Bytes, key: Bytes, ips: ServerIps, items: seq<Challenge>)
    requires NameHasFirstLabel(name)
    requires ips.v4.Some? ==> ips.v4.value < 0x1_0000_0000
    requires ips.v6.Some? ==> ips.v6.value < 0x1_0000_0000_0000_0000_0000_0000_0000_0000
    ensures var a, aaaa := AnswersFor(A, name, key, ips, items), AnswersFor(AAAA, name, key, ips, items);
      && |a| == (if ips.v4.Some? then 1 else 0) && |aaaa| == (if ips.v6.Some? then 1 else 0)
      && (ips.v4.Some? ==> |a[0].value| == 4 && Number(a[0].value) == ips.v4.value)
      && (ips.v6.Some? ==> |aaaa[0].value| == 16 && Number(aaaa[0].value) == ips.v6.value)
  {
    Powers();
    assert Pow256(16) == 0x1_0000_0000_0000_0000_0000_0000_0000_0000 by {
      assert Pow256(6) == 0x1_0000 * Pow256(4);
      assert Pow256(8) == 0x1_0000 * Pow256(6);
      assert Pow256(10) == 0x1_0000 * Pow256(8);
      assert Pow256(12) == 0x1_0000 * Pow256(10);
      assert Pow256(14) == 0x1_0000 * Pow256(12);
      assert Pow256(16) == 0x1_0000 * Pow256(14);
    }
    if ips.v4.Some? {
      BigEndianReadsBack(ips.v4.value, 4);
    }
    if ips.v6.Some? {
      BigEndianReadsBack(ips.v6.value, 16);
    }
  }

  /** One record of the given type under `name`, class IN and 30 seconds to live, or NXDOMAIN. */
  predicate AnswersOnce(m: Message, name: Bytes, rtype: nat, known: bool) {
    && m.header.rcode == (if known then 0 else 3)
    && |m.answers| == (if known then 1 else 0)
    && (known ==> m.answers[0] == Record(name, rtype, 1, 30, m.answers[0].rdata))
  }

  /** An answer list with at most one element, of the query's own type, is expected as such. */
  lemma OneAnswerExpected(message: Bytes, ips: ServerIps, items: seq<Challenge>, answer: Option<Answer>)
    requires MessageFits(message) && ReadMessage(message).Processed? && NameHasFirstLabel(EncodeName(Asked(message)))
    requires answer.Some? ==> answer.value.name == EncodeName(Asked(message))
    requires AnswersFor(ReadMessage(message).queryType, EncodeName(Asked(message)), Dotted(Asked(message)), ips, items)
          == if answer.Some? then [answer.value] else []
    ensures var m := Expected(message, ips, items);
      && (answer.Some? ==> AnswersOnce(m, EncodeName(Asked(message)), answer.value.queryType.Code(), true)
                           && m.answers[0].rdata == answer.value.value)
      && (answer.None? ==> AnswersOnce(m, EncodeName(Asked(message)), 0, false))
  {
    var none: seq<Answer> := [];
    assert RecordsOf(none) == [];
    if answer.Some? {
      assert [answer.value][1..] == none;
      assert RecordsOf([answer.value]) == [RecordOf(answer.value)];
    }
  }

  /** The type of a processed query is the one with the number in its question. */
  lemma ProcessedType(message: Bytes)
    requires MessageFits(message) && ReadMessage(message).Processed?
    ensures ReachesQuestion(message) && LabelsAt(message, 12).Labels?
    ensures var code, qtype := AskedType(message), ReadMessage(message).queryType;
      && (code == 1 <==> qtype == A) && (code == 2 <==> qtype == NS) && (code == 6 <==> qtype == SOA)
      && (code == 16 <==> qtype == TXT) && (code == 28 <==> qtype == AAAA)
  {
    ProcessedIsParsed(message);
    LabelsEndInEmpty(message, 12);
    ParsedName(message, 12);
  }

  /** The reply to a query of type 6 is one SOA record if a challenge has the name asked for. */
  lemma SoaReply(message: Bytes, ips: ServerIps, items: seq<Challenge>)
    requires MessageFits(message) && ReadMessage(message).Processed?
    requires ReachesQuestion(message) && LabelsAt(message, 12).Labels? && AskedType(message) == 6
    requires |items| <= 100 && ValuesWithin(items, 0xFFFE) && Short(Asked(message))
    ensures var name, known := EncodeName(Asked(message)), ValuesOf(items, Dotted(Asked(message))) != [];
      var reply := Decode(ReplyBytes(message, ips, items));
      && reply.Some? && AnswersOnce(reply.value, name, 6, known)
      && (known ==> SoaOf(reply.value.answers[0].rdata) == Some(Soa(name, name, 1, 10800, 3600, 604800, 30)))
  {
    ProcessedType(message);
    ReplyReadsBack(message, ips, items);
    SoaExpected(message, ips, items);
  }

  lemma SoaExpected(message: Bytes, ips: ServerIps, items: seq<Challenge>)
    requires MessageFits(message) && ReadMessage(message).Processed? && ReadMessage(message).queryType == SOA
    requires Short(Asked(message))
    ensures var name, known := EncodeName(Asked(message)), ValuesOf(items, Dotted(Asked(message))) != [];
      var m := Expected(message, ips, items);
      && AnswersOnce(m, name, 6, known)
      && (known ==> SoaOf(m.answers[0].rdata) == Some(Soa(name, name, 1, 10800, 3600, 604800, 30)))
  {
    ProcessedQuery(message);
    ReplyIsExpected(message, ips, items);
    var name := EncodeName(Asked(message));
    ShortNameIsWireName(Asked(message));
    SoaAnswerReadsBack(name);
    var known := ValuesOf(items, Dotted(Asked(message))) != [];
    OneAnswerExpected(message, ips, items, if known then Some(SoaAnswer(name)) else None);
  }

  /** The reply to a query of type 1 is one A record with the server's IPv4 address in four octets,
      if it has one to give out. */
  lemma Ipv4Reply(message: Bytes, ips: ServerIps, items: seq<Challenge>)
    requires MessageFits(message) && ReadMessage(message).Processed?
    requires ReachesQuestion(message) && LabelsAt(message, 12).Labels? && AskedType(message) == 1
    requires |items| <= 100 && ValuesWithin(items, 0xFFFE) && Short(Asked(message))
    requires ips.v4.Some? ==> ips.v4.value < 0x1_0000_0000
    ensures var reply := Decode(ReplyBytes(message, ips, items));
      && reply.Some? && AnswersOnce(reply.value, EncodeName(Asked(message)), 1, ips.v4.Some?)
      && (ips.v4.Some? ==>
            |reply.value.answers[0].rdata| == 4 && Number(reply.value.answers[0].rdata) == ips.v4.value)
  {
    ProcessedType(message);
    ReplyReadsBack(message, ips, items);
    Ipv4Expected(message, ips, items);
  }

  lemma Ipv4Expected(message: Bytes, ips: ServerIps, items: seq<Challenge>)
    requires MessageFits(message) && ReadMessage(message).Processed? && ReadMessage(message).queryType == A
    requires ips.v4.Some? ==> ips.v4.value < 0x1_0000_0000
    ensures var m := Expected(message, ips, items);
      && AnswersOnce(m, EncodeName(Asked(message)), 1, ips.v4.Some?)
      && (ips.v4.Some? ==> |m.answers[0].rdata| == 4 && Number(m.answers[0].rdata) == ips.v4.value)
  {
    ProcessedQuery(message);
    ReplyIsExpected(message, ips, items);
    var name := EncodeName(Asked(message));
    AddressAnswersReadBack(name, Dotted(Asked(message)), ips.(v6 := None), items);
    OneAnswerExpected(message, ips, items, if ips.v4.Some? then Some(AAnswer(name, ips.v4.value)) else None);
  }

  /** The reply to a query of type 28 is one AAAA record with the server's IPv6 address in sixteen
      octets, if it has one to give out. */
  lemma Ipv6Reply(message: Bytes, ips: ServerIps, items: seq<Challenge>)
    requires MessageFits(message) && ReadMessage(message).Processed?
    requires ReachesQuestion(message) && LabelsAt(message, 12).Labels? && AskedType(message) == 28
    requires |items| <= 100 && ValuesWithin(items, 0xFFFE) && Short(Asked(message))
    requires ips.v6.Some? ==> ips.v6.value < 0x1_0000_0000_0000_0000_0000_0000_0000_0000
    ensures var reply := Decode(ReplyBytes(message, ips, items));
      && reply.Some? && AnswersOnce(reply.value, EncodeName(Asked(message)), 28, ips.v6.Some?)
      && (ips.v6.Some? ==>
            |reply.value.answers[0].rdata| == 16 && Number(reply.value.answers[0].rdata) == ips.v6.value)
  {
    ProcessedType(message);
    ReplyReadsBack(message, ips, items);
    Ipv6Expected(message, ips, items);
  }

  lemma Ipv6Expected(message: Bytes, ips: ServerIps, items: seq<Challenge>)
    requires MessageFits(message) && ReadMessage(message).Processed? && ReadMessage(message).queryType == AAAA
    requires ips.v6.Some? ==> ips.v6.value < 0x1_0000_0000_0000_0000_0000_0000_0000_0000
    ensures var m := Expected(message, ips, items);
      && AnswersOnce(m, EncodeName(Asked(message)), 28, ips.v6.Some?)
      && (ips.v6.Some? ==> |m.answers[0].rdata| == 16 && Number(m.answers[0].rdata) == ips.v6.value)
  {
    ProcessedQuery(message);
    ReplyIsExpected(message, ips, items);
    var name := EncodeName(Asked(message));
    AddressAnswersReadBack(name, Dotted(Asked(message)), ips.(v4 := None), items);
    OneAnswerExpected(message, ips, items, if ips.v6.Some? then Some(AaaaAnswer(name, ips.v6.value)) else None);
  }

  // Size.

  lemma {:induction false} TxtAnswersSize(name: Bytes, values: seq<Bytes>)
    requires |name| <= 255 && forall i :: 0 <= i < |values| ==> |values[i]| <= 255
    ensures AnswersSize(TxtAnswers(name, values)) <= 521 * |values|
  {
    if values == [] {
    } else {
      TxtAnswersSize(name, values[1..]);
    }
  }

  lemma AnswersFit(qtype: ValidQueryType, name: Bytes, key: Bytes, ips: ServerIps, items: seq<Challenge>)
    requires |name| <= 255 && NameHasFirstLabel(name) && |items| <= 100 && ValuesWithin(items, 255)
    ensures AnswersSize(AnswersFor(qtype, name, key, ips, items)) <= 52100
  {
    ValuesOfWithin(items, key, 255);
    TxtAnswersSize(name, ValuesOf(items, key));
    var answers := AnswersFor(qtype, name, key, ips, items);
    if qtype != TXT && answers != [] {
      assert answers[1..] == [];
      assert AnswersSize(answers) == answers[0].SizeHint();
    }
  }

  /** Every reply, with or without pointers in the query, fits into 52371 bytes. */
  lemma ReplySize(message: Bytes, ips: ServerIps, items: seq<Challenge>)
    requires MessageFits(message) && ReplyTo(message, ips, items).Some?
    requires |items| <= 100 && ValuesWithin(items, 255)
    ensures |EncodeContent(ReplyTo(message, ips, items).value)| <= 52371
  {
    var content := ReplyTo(message, ips, items).value;
    ContentLength(content);
    if ReachesQuestion(message) && LabelsAt(message, 12).Labels? {
      ParsedName(message, 12);
    }
    if ReadMessage(message).Processed? {
      ProcessedNameHasFirstLabel(message);
      ProcessedQuery(message);
      AnswersFit(ReadMessage(message).queryType, EncodeName(Asked(message)), Dotted(Asked(message)), ips, items);
    }
  }

  // The other replies.

  /** The message has one question, and it can be read. */
  predicate QuestionIsRead(message: Bytes)
    requires MessageFits(message)
  {
    ReachesQuestion(message) && ParseQuestion(message, 12).Parsed?
  }

  /** The reply to a query that is not processed. */
  function EarlyContent(message: Bytes): Content
    requires MessageFits(message) && |message| >= 12
  {
    Content(U16At(message, 0), message[2] % 2 == 1,
            if message[2] / 8 % 16 == 0 && !QuestionIsRead(message) then FormErr else ResponseCode.Refused,
            if QuestionIsRead(message) then Some(ParseQuestion(message, 12).query) else None, [])
  }

  lemma AnsweredIsEarly(message: Bytes)
    requires MessageFits(message) && ReadMessage(message).Answered?
    ensures |message| >= 12 && message[2] < 128 && ReadMessage(message) == Answered(EarlyContent(message))
  {
  }

  /** A query that is not processed still gets its id and RD bit back, with no answers: FORMERR for
      a standard query without exactly one readable question, REFUSED for everything else; the
      question is repeated once it has been read. The reply can be read, except if it repeats a
      label of more than 63 octets. */
  lemma EarlyReply(message: Bytes, ips: ServerIps, items: seq<Challenge>)
    requires MessageFits(message) && ReadMessage(message).Answered?
    ensures |message| >= 12 && message[2] < 128
    ensures var read := QuestionIsRead(message);
      var rcode := if message[2] / 8 % 16 == 0 && !read then 1 else 5;
      Decode(EncodeContent(ReplyTo(message, ips, items).value))
        == if read && !Short(Asked(message)) then None
           else Some(Message(
             Rfc1035.Header(U16At(message, 0), true, 0, true, false, message[2] % 2 == 1,
                            false, false, true, false, rcode),
             if read then [QuestionOf(ParseQuestion(message, 12).query)] else [], [], [], []))
  {
    AnsweredIsEarly(message);
    EarlyReadsBack(message);
    assert RecordsOf([]) == [];
  }

  lemma EarlyReadsBack(message: Bytes)
    requires MessageFits(message) && |message| >= 12
    ensures Decode(EncodeContent(EarlyContent(message)))
         == if QuestionIsRead(message) && !Short(Asked(message)) then None else Some(MessageOf(EarlyContent(message)))
  {
    if QuestionIsRead(message) {
      ParsedName(message, 12);
      LabelsEndInEmpty(message, 12);
      if Short(Asked(message)) {
        ShortNameIsWireName(Asked(message));
        ContentReadsBack(EarlyContent(message));
      } else {
        LabelsAreOctets(message, 12);
        LongLabelsAreUnreadable(EarlyContent(message), Asked(message));
      }
    } else {
      ContentReadsBack(EarlyContent(message));
    }
  }

  /** Exactly the messages shorter than a header and the messages that are replies get no reply. */
  lemma SilenceIff(message: Bytes, ips: ServerIps, items: seq<Challenge>)
    requires MessageFits(message)
    ensures ReplyTo(message, ips, items).None? <==> |message| < 12 || message[2] >= 128
  {
  }

  // No loops.

  /** A response is never answered, whatever it contains. */
  lemma ResponsesAreIgnored(c: Content)
    ensures MessageFits(EncodeContent(c)) && ReadMessage(EncodeContent(c)) == Ignored
  {
    var s := EncodeContent(c);
    assert s[2] == 132 + if c.recursionDesired then 1 else 0;
  }
}
