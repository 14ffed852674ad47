/** Every printed response reads back, by the format of RFC 1035, to what it was printed from. */
module ResponseReadsBack {
  import opened RustInt
  import opened Text
  import opened Wire
  import opened DnsResponse
  import opened Rfc1035

  function QuestionOf(q: DnsQuery.Query): Question {
    Question(q.queryNameBytes, q.queryType, q.queryClass)
  }

  function RecordOf(a: Answer): Record {
    Record(a.name, a.queryType.Code(), 1, 30, a.value)
  }

  function RecordsOf(answers: seq<Answer>): seq<Record> {
    if answers == [] then [] else [RecordOf(answers[0])] + RecordsOf(answers[1..])
  }

  /** An authoritative answer to a standard query, marked authentic, not truncated, without recursion. */
  function MessageOf(c: Content): Message {
    Message(
      Rfc1035.Header(c.transactionId, true, 0, true, false, c.recursionDesired,
                     false, false, true, false, c.rcode.Code()),
      if c.query.Some? then [QuestionOf(c.query.value)] else [],
      RecordsOf(c.answers), [], [])
  }

  predicate Printable(answers: seq<Answer>) {
    forall i :: 0 <= i < |answers| ==> IsWireName(answers[i].name) && |answers[i].value| < 0x1_0000
  }

  lemma Powers()
    ensures Pow256(2) == 0x1_0000 && Pow256(4) == 0x1_0000_0000
  {
    assert Pow256(1) == 256 && Pow256(3) == 256 * Pow256(2);
  }

  lemma FixedReadsBack(a: Answer, rest: Bytes)
    requires |a.value| < 0x1_0000
    ensures var s3 := BigEndian(|a.value|, 2) + rest;
      var s2 := BigEndian(ANSWER_TTL, 4) + s3;
      var s1 := BigEndian(IN_CLASS, 2) + s2;
      && TakeNumber(a.Fixed() + rest, 2) == Some((a.queryType.Code(), s1))
      && TakeNumber(s1, 2) == Some((1, s2))
      && TakeNumber(s2, 4) == Some((30, s3))
      && TakeNumber(s3, 2) == Some((|a.value|, rest))
  {
    Powers();
    CastKeeps(|a.value|);
    var t, c := BigEndian(a.queryType.Code(), 2), BigEndian(IN_CLASS, 2);
    var ttl, n := BigEndian(ANSWER_TTL, 4), BigEndian(|a.value|, 2);
    Regroup(t + c + ttl, n, rest);
    Regroup(t + c, ttl, n + rest);
    Regroup(t, c, ttl + (n + rest));
    NumberInFront(a.queryType.Code(), 2, c + (ttl + (n + rest)));
    NumberInFront(1, 2, ttl + (n + rest));
    NumberInFront(30, 4, n + rest);
    NumberInFront(|a.value|, 2, rest);
  }

  lemma RecordReadsBack(a: Answer, rest: Bytes)
    requires IsWireName(a.name) && |a.value| < 0x1_0000
    ensures TakeRecord(a.Encoded() + rest) == Some((RecordOf(a), rest))
  {
    var s5 := a.value + rest;
    Regroup(a.name, a.Fixed() + a.value, rest);
    Regroup(a.Fixed(), a.value, rest);
    TakeNameInFront(a.name, a.Fixed() + s5);
    FixedReadsBack(a, s5);
    assert s5[..|a.value|] == a.value && s5[|a.value|..] == rest;
  }

  /** Any reader that takes each printed answer back takes them all back. */
  lemma {:induction false} AnswersReadBack(take: Bytes -> Option<(Record, Bytes)>, answers: seq<Answer>, rest: Bytes)
    requires forall i, tail: Bytes :: 0 <= i < |answers| ==>
      take(answers[i].Encoded() + tail) == Some((RecordOf(answers[i]), tail))
    ensures TakeMany(take, EncodeAnswers(answers) + rest, |answers|) == Some((RecordsOf(answers), rest))
    decreases |answers|
  {
    if answers == [] {
      assert EncodeAnswers(answers) + rest == rest;
    } else {
      var tail := EncodeAnswers(answers[1..]) + rest;
      Regroup(answers[0].Encoded(), EncodeAnswers(answers[1..]), rest);
      assert take(answers[0].Encoded() + tail) == Some((RecordOf(answers[0]), tail));
      AnswersReadBack(take, answers[1..], rest);
    }
  }

  lemma QuestionReadsBack(q: DnsQuery.Query, rest: Bytes)
    requires TakeName(q.queryNameBytes + (BigEndian(q.queryType, 2) + (BigEndian(q.queryClass, 2) + rest)))
      == Some((q.queryNameBytes, BigEndian(q.queryType, 2) + (BigEndian(q.queryClass, 2) + rest)))
    ensures TakeQuestion(q.Encoded() + rest) == Some((QuestionOf(q), rest))
  {
    Powers();
    var s2 := BigEndian(q.queryClass, 2) + rest;
    var s1 := BigEndian(q.queryType, 2) + s2;
    assert q.Encoded() + rest == q.queryNameBytes + s1;
    NumberInFront(q.queryType, 2, s2);
    NumberInFront(q.queryClass, 2, rest);
  }

  lemma HeaderFields(c: Content)
    ensures var h := EncodeHeader(c);
      && h[..2] == BigEndian(c.transactionId, 2)
      && h[2] == 132 + (if c.recursionDesired then 1 else 0) && h[3] == 32 + c.rcode.Code()
      && h[4..6] == BigEndian(if c.query.Some? then 1 else 0, 2) && h[6..8] == BigEndian(AsU16(|c.answers|), 2)
      && h[8..10] == BigEndian(0, 2) && h[10..12] == BigEndian(0, 2)
  {
    var id := BigEndian(c.transactionId, 2);
    FourNumbers(id + [132 + if c.recursionDesired then 1 else 0] + [32 + c.rcode.Code()],
                BigEndian(if c.query.Some? then 1 else 0, 2), BigEndian(AsU16(|c.answers|), 2),
                BigEndian(0, 2), BigEndian(0, 2));
  }

  lemma FourNumbers(front: Bytes, a: Bytes, b: Bytes, c: Bytes, d: Bytes)
    requires |front| == 4 && |a| == |b| == |c| == |d| == 2
    ensures var s := front + a + b + c + d;
      && s[..4] == front && s[4..6] == a && s[6..8] == b && s[8..10] == c && s[10..12] == d
  {
  }

  /** The two flag octets, bit by bit. */
  lemma FlagsReadBack(x: u8, y: u8, rd: bool, rcode: ResponseCode)
    requires x == 132 + (if rd then 1 else 0) && y == 32 + rcode.Code()
    ensures Bit(x, 128) && x / 8 % 16 == 0 && Bit(x, 4) && !Bit(x, 2) && Bit(x, 1) == rd
    ensures !Bit(y, 128) && !Bit(y, 64) && Bit(y, 32) && !Bit(y, 16) && y % 16 == rcode.Code()
  {
  }

  lemma HeaderReadsBack(c: Content, rest: Bytes)
    requires |c.answers| < 0x1_0000
    ensures var s := EncodeHeader(c) + rest;
      && HeaderOf(s) == MessageOf(c).header && s[12..] == rest
      && Number(s[4..6]) == (if c.query.Some? then 1 else 0) && Number(s[6..8]) == |c.answers|
      && Number(s[8..10]) == 0 && Number(s[10..12]) == 0
  {
    var h := EncodeHeader(c);
    var s := h + rest;
    HeaderFields(c);
    HeaderInFront(h, rest);
    FlagsReadBack(h[2], h[3], c.recursionDesired, c.rcode);
    CastKeeps(|c.answers|);
    U16ReadsBack(c.transactionId);
    U16ReadsBack(if c.query.Some? then 1 else 0);
    U16ReadsBack(|c.answers|);
    U16ReadsBack(0);
  }

  lemma HeaderInFront(h: Bytes, rest: Bytes)
    requires |h| == 12
    ensures var s := h + rest;
      && s[..2] == h[..2] && s[2] == h[2] && s[3] == h[3] && s[4..6] == h[4..6] && s[6..8] == h[6..8]
      && s[8..10] == h[8..10] && s[10..12] == h[10..12] && s[12..] == rest
  {
  }

  lemma AnswerSection(answers: seq<Answer>)
    requires Printable(answers)
    ensures TakeMany(TakeRecord, EncodeAnswers(answers), |answers|) == Some((RecordsOf(answers), []))
  {
    forall i, tail: Bytes | 0 <= i < |answers|
      ensures TakeRecord(answers[i].Encoded() + tail) == Some((RecordOf(answers[i]), tail))
    {
      RecordReadsBack(answers[i], tail);
    }
    AnswersReadBack(TakeRecord, answers, []);
    assert EncodeAnswers(answers) + [] == EncodeAnswers(answers);
  }

  lemma QuestionSection(query: Option<DnsQuery.Query>, rest: Bytes)
    requires query.Some? ==> IsWireName(query.value.queryNameBytes)
    ensures TakeMany(TakeQuestion, (if query.Some? then query.value.Encoded() else []) + rest,
                     if query.Some? then 1 else 0)
         == Some((if query.Some? then [QuestionOf(query.value)] else [], rest))
  {
    if query.Some? {
      var q := query.value;
      TakeNameInFront(q.queryNameBytes, BigEndian(q.queryType, 2) + (BigEndian(q.queryClass, 2) + rest));
      QuestionReadsBack(q, rest);
      OneQuestion(q.Encoded() + rest);
    } else {
      assert [] + rest == rest;
    }
  }

  lemma OneQuestion(s: Bytes)
    ensures TakeMany(TakeQuestion, s, 1)
         == if TakeQuestion(s).Some? then Some(([TakeQuestion(s).value.0], TakeQuestion(s).value.1)) else None
  {
    if TakeQuestion(s).Some? {
      var (q, rest) := TakeQuestion(s).value;
      assert TakeMany(TakeQuestion, rest, 0) == Some(([], rest));
      assert [q] + [] == [q];
    }
  }

  /** Reading a printed response gives back its header, question and answers, in order. */
  lemma ContentReadsBack(c: Content)
    requires Printable(c.answers) && |c.answers| < 0x1_0000
    requires c.query.Some? ==> IsWireName(c.query.value.queryNameBytes)
    ensures Decode(EncodeContent(c)) == Some(MessageOf(c))
  {
    var answers := EncodeAnswers(c.answers);
    HeaderReadsBack(c, (if c.query.Some? then c.query.value.Encoded() else []) + answers);
    QuestionSection(c.query, answers);
    AnswerSection(c.answers);
  }

  /** A response whose question has a label of more than 63 octets, copied through a pointer, cannot
      be read. */
  lemma LongLabelsAreUnreadable(c: Content, labels: seq<Bytes>)
    requires |c.answers| < 0x1_0000 && c.query.Some? && c.query.value.queryNameBytes == EncodeName(labels)
    requires NonEmpty(labels) && (forall i :: 0 <= i < |labels| ==> |labels[i]| < 256) && !Short(labels)
    ensures Decode(EncodeContent(c)) == None
  {
    var s := c.query.value.Encoded() + EncodeAnswers(c.answers);
    HeaderReadsBack(c, s);
    assert TakeQuestion(s) == None by {
      var q := c.query.value;
      var numbers := BigEndian(q.queryType, 2) + BigEndian(q.queryClass, 2);
      Regroup(q.queryNameBytes, BigEndian(q.queryType, 2), BigEndian(q.queryClass, 2));
      Regroup(q.queryNameBytes, numbers, EncodeAnswers(c.answers));
      EncodedNameIsTaken(labels, numbers + EncodeAnswers(c.answers));
    }
    OneQuestion(s);
  }
}
