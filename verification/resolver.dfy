/** From a message to its reply: `response_for_message` and `handle_request`. */
module Resolver {
  import opened RustInt
  import opened Text
  import opened Wire
  import opened DnsHeader
  import opened DnsQuery
  import opened DnsResponse
  import opened ChallengeStore

  /** What becomes of a message, with the response so far as a value. */
  datatype Reading =
    | Processed(response: Content, queryName: Bytes, queryType: ValidQueryType, challengeKey: Bytes)
    | Answered(response: Content)
    | Ignored

  datatype ReadMessageResult =
    | Process(response: Response, queryName: Bytes, queryType: ValidQueryType, challengeKey: Bytes)
    | EarlyExit(response: Response)
    | DontRespond
  {
    function Reading(): Reading
      reads if DontRespond? then {} else {response}
    {
      match this
      case Process(r, name, qtype, key) => Processed(r.Value(), name, qtype, key)
      case EarlyExit(r) => Answered(r.Value())
      case DontRespond => Ignored
    }
  }

  function QueryTypeOf(code: u16): Option<ValidQueryType> {
    if code == 1 then Some(A)
    else if code == 16 then Some(TXT)
    else if code == 6 then Some(SOA)
    else if code == 2 then Some(NS)
    else if code == 28 then Some(AAAA)
    else None
  }

  /** A standard query, by the octets of its header (RFC 1035, section 4.1.1). */
  predicate StandardQuery(bytes: Bytes) {
    |bytes| >= 12 && bytes[2] < 128 && bytes[2] / 8 % 16 == 0
  }

  /** A message whose question is looked at. */
  predicate ReachesQuestion(bytes: Bytes) {
    StandardQuery(bytes) && U16At(bytes, 4) == 1
  }

  /** Every read of the message is within it. */
  predicate MessageFits(bytes: Bytes) {
    ReachesQuestion(bytes) ==> QuestionFits(bytes, 12)
  }

  function ReadMessage(bytes: Bytes): Reading
    requires MessageFits(bytes)
  {
    var header := DnsHeader.FromBytes(bytes);
    if header.None? || header.value.messageType == Reply then Ignored
    else
      var blank := NewContent(header.value);
      if header.value.opcode != Standard then Answered(blank.(rcode := ResponseCode.Refused))
      else if header.value.numQuestions != 1 then Answered(blank.(rcode := FormErr))
      else match ParseQuestion(bytes, 12)
        case Refused(_, _) => Answered(blank.(rcode := FormErr))
        case Parsed(q, _) =>
          var asked := blank.(query := Some(q));
          var qtype := QueryTypeOf(q.queryType);
          if qtype.None? || !q.isAcmeChallenge then Answered(asked.(rcode := ResponseCode.Refused))
          else Processed(asked, q.queryNameBytes, qtype.value, q.queryNameString)
  }

  method ResponseForMessage(bytes: Bytes) returns (r: ReadMessageResult)
    requires MessageFits(bytes)
    ensures !r.DontRespond? ==> fresh(r.response)
    ensures r.Reading() == ReadMessage(bytes)
  {
    var header := DnsHeader.FromBytes(bytes);
    if header.None? {
      return DontRespond;
    }
    var response := new Response(header.value);
    if header.value.messageType == Reply {
      return DontRespond;
    }
    if header.value.opcode != Standard {
      response.rcode := ResponseCode.Refused;
      return EarlyExit(response);
    }
    if header.value.numQuestions != 1 {
      response.rcode := FormErr;
      return EarlyExit(response);
    }
    var parsed := DnsQuery.FromBytes(bytes, DnsHeader.LENGTH);
    if parsed.Refused? {
      response.rcode := FormErr;
      return EarlyExit(response);
    }
    var query := parsed.query;
    response.query := Some(query);
    var queryType := QueryTypeOf(query.queryType);
    if queryType.None? {
      response.rcode := ResponseCode.Refused;
      return EarlyExit(response);
    }
    if !query.isAcmeChallenge {
      response.rcode := ResponseCode.Refused;
      return EarlyExit(response);
    }
    return Process(response, query.queryNameBytes, queryType.value, query.queryNameString);
  }

  /** The server's own addresses, if it has any to give out. */
  datatype ServerIps = ServerIps(v4: Option<nat>, v6: Option<nat>)

  function TxtAnswers(name: Bytes, values: seq<Bytes>): seq<Answer> {
    if values == [] then [] else [TxtAnswer(name, values[0])] + TxtAnswers(name, values[1..])
  }

  predicate NameHasFirstLabel(name: Bytes) {
    |name| > 0 && name[0] + 1 <= |name|
  }

  /** The answers to a query of each type. */
  function AnswersFor(qtype: ValidQueryType, name: Bytes, key: Bytes, ips: ServerIps,
                      items: seq<Challenge>): seq<Answer>
    requires NameHasFirstLabel(name)
  {
    var known := ValuesOf(items, key) != [];
    match qtype
    case TXT => TxtAnswers(name, ValuesOf(items, key))
    case SOA => if known then [SoaAnswer(name)] else []
    case NS => if known then [NsAnswer(name)] else []
    case A => if ips.v4.Some? then [AAnswer(name, ips.v4.value)] else []
    case AAAA => if ips.v6.Some? then [AaaaAnswer(name, ips.v6.value)] else []
  }

  /** The name of a processed query has a first label to take away. */
  lemma ProcessedNameHasFirstLabel(bytes: Bytes)
    requires MessageFits(bytes) && ReadMessage(bytes).Processed?
    ensures NameHasFirstLabel(ReadMessage(bytes).queryName)
  {
    ParsedName(bytes, 12);
    var labels := NameAt(bytes, 12);
    if labels != [] {
      CastKeeps(|labels[0]|);
    }
  }

  /** The reply to a message, if it gets one. */
  function ReplyTo(bytes: Bytes, ips: ServerIps, items: seq<Challenge>): Option<Content>
    requires MessageFits(bytes)
  {
    match ReadMessage(bytes)
    case Ignored => None
    case Answered(response) => Some(response)
    case Processed(response, name, qtype, key) =>
      ProcessedNameHasFirstLabel(bytes);
      var answers := AnswersFor(qtype, name, key, ips, items);
      Some(response.(answers := answers, rcode := if answers == [] then NXDomain else NoError))
  }

  /** The loop over the registered values. */
  method AddTxtAnswers(response: Response, queryName: Bytes, values: seq<Bytes>)
    requires response.answers == []
    modifies response
    ensures response.Value() == old(response.Value()).(answers := TxtAnswers(queryName, values))
  {
    for i := 0 to |values|
      invariant response.Value() == old(response.Value()).(answers := response.answers)
      invariant response.answers + TxtAnswers(queryName, values[i..]) == TxtAnswers(queryName, values)
    {
      assert values[i..][0] == values[i] && values[i..][1..] == values[i + 1..];
      response.AddTxtAnswer(queryName, values[i]);
    }
  }

  /** The match of `handle_request`: adds the answers to a query of each type. */
  method AddAnswers(response: Response, queryName: Bytes, queryType: ValidQueryType, challengeKey: Bytes,
                    ips: ServerIps, challenges: Challenges)
    requires NameHasFirstLabel(queryName) && response.answers == []
    modifies response
    ensures response.Value()
         == old(response.Value()).(answers := AnswersFor(queryType, queryName, challengeKey, ips, challenges.items))
  {
    NoValuesIffNoMatch(challenges.items, challengeKey);
    match queryType {
      case TXT =>
        var values := challenges.Named(challengeKey);
        AddTxtAnswers(response, queryName, values);
      case SOA =>
        var any := challenges.Any(challengeKey);
        if any {
          response.AddSoaAnswer(queryName);
        }
      case NS =>
        var any := challenges.Any(challengeKey);
        if any {
          response.AddNsAnswer(queryName);
        }
      case A =>
        if ips.v4.Some? {
          response.AddAAnswer(queryName, ips.v4.value);
        }
      case AAAA =>
        if ips.v6.Some? {
          response.AddAaaaAnswer(queryName, ips.v6.value);
        }
    }
  }

  method HandleRequest(message: Bytes, ips: ServerIps, challenges: Challenges) returns (reply: Option<Bytes>)
    requires MessageFits(message)
    ensures var content := ReplyTo(message, ips, challenges.items);
      reply == if content.Some? then Some(EncodeContent(content.value)) else None
  {
    var read := ResponseForMessage(message);
    match read
    case EarlyExit(response) =>
      var bytes := response.ToBytes();
      return Some(bytes);
    case DontRespond =>
      return None;
    case Process(response, queryName, queryType, challengeKey) =>
      ProcessedNameHasFirstLabel(message);
      AddAnswers(response, queryName, queryType, challengeKey, ips, challenges);
      if |response.answers| == 0 {
        response.SetRcodeNXDomain();
      } else {
        response.SetRcodeNoError();
      }
      var bytes := response.ToBytes();
      return Some(bytes);
  }
}
