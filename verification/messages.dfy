/** What becomes of a message, in terms of its octets. */
module Messages {
  import opened RustInt
  import opened Text
  import opened Wire
  import opened DnsQuery
  import opened DnsResponse
  import opened ChallengeStore
  import opened Resolver
  import opened Rfc1035
  import opened ResolverTheorems

  // Which messages are processed.

  /** The octets spell a word of small letters, hyphens and underscores, in any case. */
  predicate Spells(s: Bytes, word: string) {
    && |s| == |word|
    && forall i :: 0 <= i < |s| ==> s[i] == word[i] as int || ('a' <= word[i] <= 'z' && s[i] == word[i] as int - 32)
  }

  lemma AcmeLabelSpells(s: Bytes)
    ensures EqIgnoreCase(s, ACME_CHALLENGE_LABEL) <==> Spells(s, "_acme-challenge")
  {
    EqIgnoreCaseMeans(s, ACME_CHALLENGE_LABEL);
    AcmeLabelIsSpelled();
    if |s| == 15 {
      forall i | 0 <= i < 15
        ensures SameUpToCase(s[i], ACME_CHALLENGE_LABEL[i])
           <==> s[i] == "_acme-challenge"[i] as int
                || ('a' <= "_acme-challenge"[i] <= 'z' && s[i] == "_acme-challenge"[i] as int - 32)
      {
        assert ACME_CHALLENGE_LABEL[i] == "_acme-challenge"[i] as int;
        assert !(65 <= ACME_CHALLENGE_LABEL[i] <= 90);
      }
    }
  }

  /** The name asked for can be used: octets below 128 and at most 255 bytes on the wire. */
  predicate UsableName(labels: seq<Bytes>) {
    && |EncodeName(labels)| <= 255
    && forall i, j :: 0 <= i < |labels| && 0 <= j < |labels[i]| ==> labels[i][j] < 128
  }

  lemma UsableIffAscii(labels: seq<Bytes>)
    ensures UsableName(labels) <==> AllAscii(labels) && |EncodeName(labels)| <= 255
  {
    assert AllAscii(labels) <==>
      forall i :: 0 <= i < |labels| ==> forall j :: 0 <= j < |labels[i]| ==> labels[i][j] < 128;
  }

  lemma AcmeNameSpells(labels: seq<Bytes>)
    ensures IsAcmeName(labels) <==> labels != [] && Spells(labels[0], "_acme-challenge")
  {
    if labels != [] {
      AcmeLabelSpells(labels[0]);
    }
  }

  lemma KnownTypes(code: u16)
    ensures QueryTypeOf(code).Some? <==> code in {1, 2, 6, 16, 28}
  {
  }

  lemma ProcessedIfParsed(message: Bytes)
    requires MessageFits(message)
    ensures ReadMessage(message).Processed? <==>
      && ReachesQuestion(message) && ParseQuestion(message, 12).Parsed?
      && ParseQuestion(message, 12).query.isAcmeChallenge
      && QueryTypeOf(ParseQuestion(message, 12).query.queryType).Some?
  {
  }

  lemma ParsedIfUsable(message: Bytes)
    requires MessageFits(message) && ReachesQuestion(message) && LabelsAt(message, 12).Labels?
    ensures var q := ParseQuestion(message, 12);
      && (q.Parsed? <==> UsableName(Asked(message)))
      && (q.Parsed? ==> q.query.isAcmeChallenge == IsAcmeName(Asked(message)))
      && (q.Parsed? ==> q.query.queryType == AskedType(message))
  {
    ParsedName(message, 12);
    UsableIffAscii(Asked(message));
  }

  /** A message is processed exactly if it is a standard query with question count 1 for a usable name
      below "_acme-challenge" and for one of the five types. */
  lemma ProcessedIff(message: Bytes)
    requires MessageFits(message)
    ensures ReadMessage(message).Processed? <==>
      && |message| >= 12 && message[2] < 128 && message[2] / 8 % 16 == 0 && U16At(message, 4) == 1
      && LabelsAt(message, 12).Labels?
      && UsableName(Asked(message)) && Asked(message) != [] && Spells(Asked(message)[0], "_acme-challenge")
      && AskedType(message) in {1, 2, 6, 16, 28}
  {
    ProcessedIfParsed(message);
    if ReachesQuestion(message) && LabelsAt(message, 12).Labels? {
      ParsedIfUsable(message);
      AcmeNameSpells(Asked(message));
      KnownTypes(AskedType(message));
    }
  }

  /** A standard query whose question count is not 1 is answered with the format error, without any
      look at what follows the header. */
  lemma OtherCountsAreRefused(message: Bytes, ips: ServerIps, items: seq<Challenge>)
    requires |message| >= 12 && message[2] < 128 && message[2] / 8 % 16 == 0 && U16At(message, 4) != 1
    ensures MessageFits(message) && ReplyTo(message, ips, items).Some?
    ensures Decode(EncodeContent(ReplyTo(message, ips, items).value))
         == Some(Message(
              Rfc1035.Header(U16At(message, 0), true, 0, true, false, message[2] % 2 == 1,
                             false, false, true, false, 1),
              [], [], [], []))
  {
    EarlyReply(message, ips, items);
  }

  // Labels that cannot be read.

  /** The offset that a pointer at `pos` holds. */
  function Target(m: Bytes, pos: nat): int
    requires pos + 1 < |m|
  {
    var high: int := m[pos];
    (high - 192) * 256 + m[pos + 1]
  }

  /** A reserved length octet, a label that runs over the end of the message, a pointer that does not
      point back, or one to a label that runs over the end. */
  predicate UnreadableAt(m: Bytes, pos: nat) {
    && pos < |m|
    && if m[pos] < 64 then pos + 1 + m[pos] > |m|
       else m[pos] < 192 || (pos + 1 < |m| && (Target(m, pos) >= pos
                                               || Target(m, pos) + 1 + m[Target(m, pos)] > |m|))
  }

  lemma UnreadableIsBad(m: Bytes, pos: nat)
    requires UnreadableAt(m, pos)
    ensures LabelsAt(m, pos)
         == BadLabels(if m[pos] < 64 || (m[pos] >= 192 && Target(m, pos) < pos) then TooShort
                      else InvalidLabelLength(m[pos]))
  {
    if m[pos] >= 192 {
      QuotientIsUnique(U16At(m, pos), 0x4000, 3, Target(m, pos));
    }
  }

  /** Wherever it comes in the name, such a label makes the answer a format error without a question. */
  lemma UnreadableLabelIsRefused(front: seq<Bytes>, m: Bytes, pos: nat)
    requires StandardQuery(m) && U16At(m, 4) == 1
    requires FrontAt(front, m, 12, pos) && UnreadableAt(m, pos)
    ensures MessageFits(m)
    ensures ParseQuestion(m, 12)
         == ParseResult.Refused(if m[pos] < 64 || (m[pos] >= 192 && Target(m, pos) < pos) then TooShort
                                else InvalidLabelLength(m[pos]), 0)
    ensures ReadMessage(m) == Answered(Content(U16At(m, 0), m[2] % 2 == 1, FormErr, None, []))
  {
    FrontComesFirst(front, m, 12, pos);
    UnreadableIsBad(m, pos);
  }

  /** The first label that is not ASCII or does not fit into 255 bytes says which error is given. */
  lemma {:induction false} FirstBadLabel(labels: seq<Bytes>, k: nat, wire: Bytes, text: Bytes)
    requires k < |labels| && (forall i :: 0 <= i < k ==> IsAscii(labels[i]))
    requires |wire| + |EncodeName(labels[..k])| - 1 <= 255
    requires !IsAscii(labels[k]) || |wire| + |EncodeName(labels[..k])| + |labels[k]| > 255
    ensures JoinLabels(labels, wire, text) == BadName(if IsAscii(labels[k]) then TooLong else InvalidNameEncoding)
    decreases k
  {
    if k == 0 {
    } else {
      var part, rest := labels[0], labels[1..];
      assert labels[..k][0] == part && labels[..k][1..] == rest[..k - 1];
      JoinStep(labels, wire, text);
      FirstBadLabel(rest, k - 1, wire + [AsU8(|part|)] + part, text + Dot(text, part != []) + part);
    }
  }

  /** The error is given with the position behind the question. */
  lemma BadNameIsRefused(bytes: Bytes, at: nat, k: nat)
    requires QuestionFits(bytes, at) && LabelsAt(bytes, at).Labels? && k < |NameAt(bytes, at)|
    requires var labels := NameAt(bytes, at);
      && (forall i :: 0 <= i < k ==> IsAscii(labels[i])) && |EncodeName(labels[..k])| - 1 <= 255
      && (!IsAscii(labels[k]) || |EncodeName(labels[..k])| + |labels[k]| > 255)
    ensures ParseQuestion(bytes, at)
         == ParseResult.Refused(if IsAscii(NameAt(bytes, at)[k]) then TooLong else InvalidNameEncoding,
                                LabelsAt(bytes, at).end + 4)
  {
    var labels := NameAt(bytes, at);
    LabelsEndInEmpty(bytes, at);
    var all := labels + [[]];
    assert all[..k] == labels[..k] && all[k] == labels[k];
    assert forall i :: 0 <= i < k ==> all[i] == labels[i];
    FirstBadLabel(all, k, [], []);
  }

  // Which names have answers.

  /** A TXT query has an answer exactly if some challenge is registered under its name; if none has a
      name of that length, in particular, there is none. */
  lemma TxtIsAnsweredIff(message: Bytes, ips: ServerIps, items: seq<Challenge>)
    requires MessageFits(message) && ReadMessage(message).Processed? && ReadMessage(message).queryType == TXT
    requires |items| <= 100 && ValuesWithin(items, 0xFFFE) && Short(Asked(message))
    ensures var reply, known := Decode(ReplyBytes(message, ips, items)), IsRegistered(items, Dotted(Asked(message)));
      reply.Some? && reply.value.header.rcode == (if known then 0 else 3) && (reply.value.answers != [] <==> known)
    ensures (forall i :: 0 <= i < |items| ==> |items[i].name| != |Dotted(Asked(message))|) ==>
      !IsRegistered(items, Dotted(Asked(message)))
  {
    TxtReply(message, ips, items);
    FoundIffRegistered(items, Dotted(Asked(message)));
  }
}
