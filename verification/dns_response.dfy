/** Building and printing the response. */
module DnsResponse {
  import opened RustInt
  import opened Text
  import opened Wire
  import opened DnsHeader
  import opened DnsQuery

  datatype ValidQueryType = A | NS | SOA | TXT | AAAA {
    /** The type's number (RFC 1035, section 3.2.2; RFC 3596 for AAAA). */
    function Code(): u16 {
      match this case A => 1 case NS => 2 case SOA => 6 case TXT => 16 case AAAA => 28
    }
  }

  datatype ResponseCode = NoError | FormErr | NXDomain | Refused {
    function Code(): u8 {
      match this case NoError => 0 case FormErr => 1 case NXDomain => 3 case Refused => 5
    }
  }

  const IN_CLASS: u16 := 1
  const ANSWER_TTL := 30

  datatype Answer = Answer(name: Bytes, queryType: ValidQueryType, value: Bytes) {
    function SizeHint(): nat { |name| + |value| + 2 + 2 + 4 + 2 }

    /** Type, class, time to live and length of the value. */
    function Fixed(): (s: Bytes)
      ensures |s| == 10
    {
      BigEndian(queryType.Code(), 2) + BigEndian(IN_CLASS, 2) + BigEndian(ANSWER_TTL, 4) + BigEndian(AsU16(|value|), 2)
    }

    function Encoded(): Bytes {
      name + (Fixed() + value)
    }

    method ToBytes() returns (bytes: Bytes)
      ensures bytes == Encoded() && |bytes| == SizeHint()
    {
      var qtype, rclass := BigEndian(queryType.Code(), 2), BigEndian(IN_CLASS, 2);
      var ttl, length := BigEndian(ANSWER_TTL, 4), BigEndian(AsU16(|value|), 2);
      bytes := [];
      bytes := bytes + name;
      bytes := bytes + qtype;
      bytes := bytes + rclass;
      bytes := bytes + ttl;
      bytes := bytes + length;
      bytes := bytes + value;
      assert [] + name == name;
      Regroup(name, qtype, rclass);
      Regroup(name, qtype + rclass, ttl);
      Regroup(name, qtype + rclass + ttl, length);
      Regroup(name, Fixed(), value);
    }
  }

  function AAnswer(name: Bytes, ip: nat): Answer { Answer(name, A, BigEndian(ip, 4)) }

  function AaaaAnswer(name: Bytes, ip: nat): Answer { Answer(name, AAAA, BigEndian(ip, 16)) }

  /** One character string: a length octet, which wraps for values beyond 255 bytes, and the value. */
  function TxtAnswer(name: Bytes, value: Bytes): Answer { Answer(name, TXT, [AsU8(|value|)] + value) }

  /** The name without its first label. */
  function NsAnswer(name: Bytes): Answer
    requires |name| > 0 && name[0] + 1 <= |name|
  {
    Answer(name, NS, name[name[0] + 1..])
  }

  /** Serial, refresh, retry, expire and minimum. */
  function SoaNumbers(): Bytes {
    BigEndian(1, 4) + (BigEndian(10800, 4) + (BigEndian(3600, 4) + (BigEndian(604800, 4) + BigEndian(30, 4))))
  }

  function SoaAnswer(name: Bytes): Answer {
    Answer(name, SOA, name + (name + SoaNumbers()))
  }

  /** The content of a response. */
  datatype Content = Content(
    transactionId: u16, recursionDesired: bool, rcode: ResponseCode, query: Option<Query>, answers: seq<Answer>)

  function NewContent(header: QueryHeader): Content {
    Content(header.transactionId, header.recursionDesired, NoError, None, [])
  }

  function EncodeAnswers(answers: seq<Answer>): Bytes {
    if answers == [] then [] else answers[0].Encoded() + EncodeAnswers(answers[1..])
  }

  function AnswersSize(answers: seq<Answer>): nat {
    if answers == [] then 0 else answers[0].SizeHint() + AnswersSize(answers[1..])
  }

  /** The twelve octets of the header; the flags 132 and 32 are answer, authoritative and authentic. */
  function EncodeHeader(c: Content): (s: Bytes)
    ensures |s| == 12
  {
    BigEndian(c.transactionId, 2)
      + [132 + if c.recursionDesired then 1 else 0] + [32 + c.rcode.Code()]
      + BigEndian(if c.query.Some? then 1 else 0, 2) + BigEndian(AsU16(|c.answers|), 2)
      + BigEndian(0, 2) + BigEndian(0, 2)
  }

  function EncodeContent(c: Content): Bytes {
    EncodeHeader(c) + ((if c.query.Some? then c.query.value.Encoded() else []) + EncodeAnswers(c.answers))
  }

  class Response {
    var transactionId: u16
    var recursionDesired: bool
    var rcode: ResponseCode
    var query: Option<Query>
    var answers: seq<Answer>

    function Value(): Content
      reads this
    {
      Content(transactionId, recursionDesired, rcode, query, answers)
    }

    constructor (header: QueryHeader)
      ensures Value() == NewContent(header)
    {
      transactionId := header.transactionId;
      recursionDesired := header.recursionDesired;
      rcode := NoError;
      query := None;
      answers := [];
    }

    method SetRcodeNoError()
      modifies this
      ensures Value() == old(Value()).(rcode := NoError)
    {
      rcode := NoError;
    }

    method SetRcodeNXDomain()
      modifies this
      ensures Value() == old(Value()).(rcode := NXDomain)
    {
      rcode := NXDomain;
    }

    method AddAAnswer(name: Bytes, ip: nat)
      modifies this
      ensures Value() == old(Value()).(answers := old(answers) + [AAnswer(name, ip)])
    {
      answers := answers + [Answer(name, A, BigEndian(ip, 4))];
    }

    method AddAaaaAnswer(name: Bytes, ip: nat)
      modifies this
      ensures Value() == old(Value()).(answers := old(answers) + [AaaaAnswer(name, ip)])
    {
      answers := answers + [Answer(name, AAAA, BigEndian(ip, 16))];
    }

    method AddTxtAnswer(name: Bytes, value: Bytes)
      modifies this
      ensures Value() == old(Value()).(answers := old(answers) + [TxtAnswer(name, value)])
    {
      var valueBytes: Bytes := [];
      valueBytes := valueBytes + [AsU8(|value|)];
      assert valueBytes == [AsU8(|value|)];
      valueBytes := valueBytes + value;
      answers := answers + [Answer(name, TXT, valueBytes)];
    }

    method AddNsAnswer(name: Bytes)
      requires |name| > 0 && name[0] + 1 <= |name|
      modifies this
      ensures Value() == old(Value()).(answers := old(answers) + [NsAnswer(name)])
    {
      var labelLen := name[0];
      answers := answers + [Answer(name, NS, name[labelLen + 1..])];
    }

    method AddSoaAnswer(name: Bytes)
      modifies this
      ensures Value() == old(Value()).(answers := old(answers) + [SoaAnswer(name)])
    {
      var serial, refresh, retry := BigEndian(1, 4), BigEndian(10800, 4), BigEndian(3600, 4);
      var expire, minimum := BigEndian(604800, 4), BigEndian(30, 4);
      var value := name;
      value := value + name;
      value := value + serial;
      value := value + refresh;
      value := value + retry;
      value := value + expire;
      value := value + minimum;
      Regroup(name + name + serial + refresh + retry, expire, minimum);
      Regroup(name + name + serial + refresh, retry, expire + minimum);
      Regroup(name + name + serial, refresh, retry + (expire + minimum));
      Regroup(name + name, serial, refresh + (retry + (expire + minimum)));
      Regroup(name, name, SoaNumbers());
      answers := answers + [Answer(name, SOA, value)];
    }

    method ToBytes() returns (bytes: Bytes)
      ensures bytes == EncodeContent(Value())
    {
      bytes := [];
      bytes := bytes + BigEndian(transactionId, 2);
      assert bytes == BigEndian(transactionId, 2);
      var rd := if recursionDesired then 1 else 0;
      bytes := bytes + [132 + rd];
      bytes := bytes + [32 + rcode.Code()];
      bytes := bytes + BigEndian(if query.Some? then 1 else 0, 2);
      bytes := bytes + BigEndian(AsU16(|answers|), 2);
      bytes := bytes + BigEndian(0, 2);
      bytes := bytes + BigEndian(0, 2);
      assert bytes == EncodeHeader(Value());

      if query.Some? {
        var queryBytes := query.value.ToBytes();
        bytes := bytes + queryBytes;
      }
      ghost var head := bytes;
      assert answers[0..] == answers;
      for i := 0 to |answers|
        invariant bytes + EncodeAnswers(answers[i..]) == head + EncodeAnswers(answers)
      {
        var answerBytes := answers[i].ToBytes();
        assert answers[i..][0] == answers[i] && answers[i..][1..] == answers[i + 1..];
        Regroup(bytes, answerBytes, EncodeAnswers(answers[i + 1..]));
        bytes := bytes + answerBytes;
      }
      assert bytes + [] == bytes;
      assert answers[|answers|..] == [];
      Regroup(EncodeHeader(Value()), if query.Some? then query.value.Encoded() else [], EncodeAnswers(answers));
    }
  }

  lemma Regroup(x: Bytes, y: Bytes, z: Bytes)
    ensures (x + y) + z == x + (y + z)
    ensures x + [] == x
  {
  }

  /** The printed length is twelve plus the size hints. */
  lemma {:induction false} AnswersLength(answers: seq<Answer>)
    ensures |EncodeAnswers(answers)| == AnswersSize(answers)
  {
    if answers == [] {
    } else {
      AnswersLength(answers[1..]);
    }
  }

  lemma ContentLength(c: Content)
    ensures |EncodeContent(c)|
         == 12 + (if c.query.Some? then c.query.value.SizeHint() else 0) + AnswersSize(c.answers)
  {
    AnswersLength(c.answers);
  }
}
