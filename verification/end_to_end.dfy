/** From registering a challenge to reading it in the answer to a query. */
module EndToEnd {
  import opened RustInt
  import opened Text
  import opened Wire
  import opened DnsQuery
  import opened DnsResponse
  import opened ChallengeStore
  import opened Resolver
  import opened Rfc1035
  import opened ResolverTheorems

  /** A standard query with one question for `labels`; its other bits and counts, and whatever
      follows the question, are free. */
  predicate IsQuery(message: Bytes, labels: seq<Bytes>, qtype: ValidQueryType, qclass: u16) {
    && |message| >= 12 && message[2] / 128 == 0 && message[2] / 8 % 16 == 0 && U16At(message, 4) == 1
    && NonEmpty(labels) && Short(labels)
    && StandsAt(EncodeQuestion(labels, qtype.Code(), qclass), message, 12)
  }

  /** Such a query is processed exactly if its name is ASCII, at most 255 bytes long on the wire, and
      begins with "_acme-challenge" in any case. */
  lemma QueryIsProcessedIff(message: Bytes, labels: seq<Bytes>, qtype: ValidQueryType, qclass: u16)
    requires IsQuery(message, labels, qtype, qclass)
    ensures MessageFits(message) && Asked(message) == labels
    ensures ReadMessage(message).Processed? <==>
      AllAscii(labels) && |EncodeName(labels)| <= 255 && IsAcmeName(labels)
    ensures ReadMessage(message).Processed? ==> ReadMessage(message).queryType == qtype
  {
    ParseAfterPrint(labels, qtype.Code(), qclass, message, 12);
  }

  /** Whatever is in the store was registered. */
  lemma {:induction false} StoreHoldsRegistered(items: seq<Challenge>, ops: seq<Op>, c: Challenge)
    requires c in RunStore(items, ops)
    ensures c in items || Register(c) in ops
    decreases |ops|
  {
    if ops == [] {
    } else {
      assert ops == [ops[0]] + ops[1..];
      StoreHoldsRegistered(Apply(items, ops[0]), ops[1..], c);
      if ops[0].Remove? {
        WithoutDropsOnly(items, ops[0].challenge);
      }
    }
  }

  /** Every registered value has at most `max` bytes. */
  predicate Registers(ops: seq<Op>, max: nat) {
    forall i :: 0 <= i < |ops| && ops[i].Register? ==> |ops[i].challenge.value| <= max
  }

  lemma StoreValuesFit(ops: seq<Op>, max: nat)
    requires Registers(ops, max)
    ensures ValuesWithin(RunStore([], ops), max) && |RunStore([], ops)| <= 100
  {
    StoreIsSuffix([], [], ops);
    var items := RunStore([], ops);
    forall i | 0 <= i < |items| ensures |items[i].value| <= max {
      StoreHoldsRegistered([], ops, items[i]);
    }
  }

  /** After any run of the store, a TXT query for `labels` is answered with id and question echoed and
      one record for each value stored under that name; they read back as those values, in order, if
      and only if each has at most 255 bytes. */
  lemma TxtQueryIsAnswered(ops: seq<Op>, message: Bytes, labels: seq<Bytes>, qclass: u16, ips: ServerIps)
    requires Registers(ops, 0xFFFE) && IsQuery(message, labels, TXT, qclass)
    requires AllAscii(labels) && |EncodeName(labels)| <= 255 && IsAcmeName(labels)
    ensures var items := RunStore([], ops);
      var values := ValuesOf(items, Dotted(labels));
      && MessageFits(message) && ReadMessage(message).Processed?
      && var reply := Decode(ReplyBytes(message, ips, items));
         && reply.Some? && reply.value.header.id == U16At(message, 0)
         && reply.value.questions == [Question(EncodeName(labels), 16, qclass)]
         && AnswersTxt(reply.value, EncodeName(labels), |values|)
         && (TextsOf(reply.value.answers) == Some(values) <==> FitOneString(values))
  {
    QueryIsProcessedIff(message, labels, TXT, qclass);
    StoreValuesFit(ops, 0xFFFE);
    TxtReply(message, ips, RunStore([], ops));
    AskedClassIs(message, labels, TXT, qclass);
  }

  lemma AskedClassIs(message: Bytes, labels: seq<Bytes>, qtype: ValidQueryType, qclass: u16)
    requires IsQuery(message, labels, qtype, qclass)
    ensures MessageFits(message) && ReachesQuestion(message) && LabelsAt(message, 12).Labels?
    ensures AskedClass(message) == qclass
  {
    var end := 12 + |EncodeName(labels)|;
    EncodedQuestionSplits(labels, qtype.Code(), qclass, message, 12, end);
    EncodedQuestionFits(labels, message, 12, end);
  }

  /** A registered challenge is in the answer to a TXT query for its name, written in any case, until
      it is removed or 100 more have been registered. */
  lemma RegisteredChallengeIsAnswered(before: seq<Op>, c: Challenge, after: seq<Op>,
                                      message: Bytes, labels: seq<Bytes>, qclass: u16, ips: ServerIps)
    requires Remove(c) !in after && Registrations(after) < 100
    requires Registers(before + [Register(c)] + after, 255) && IsQuery(message, labels, TXT, qclass)
    requires AllAscii(labels) && |EncodeName(labels)| <= 255 && IsAcmeName(labels)
    requires c.Matches(Dotted(labels))
    ensures var items := RunStore([], before + [Register(c)] + after);
      && MessageFits(message) && ReadMessage(message).Processed?
      && var reply := Decode(ReplyBytes(message, ips, items));
         && reply.Some? && reply.value.header.rcode == 0
         && TextsOf(reply.value.answers).Some? && c.value in TextsOf(reply.value.answers).value
  {
    var ops := before + [Register(c)] + after;
    TxtQueryIsAnswered(ops, message, labels, qclass, ips);
    StoreValuesFit(ops, 255);
    ValuesOfWithin(RunStore([], ops), Dotted(labels), 255);
    RegisteredIsKept(before, c, after);
    ValuesOfHolds(RunStore([], ops), Dotted(labels), c.value);
  }
}
