/** Messages and values at which the conditions of the theorems fail. */
module Witnesses {
  import opened RustInt
  import opened Text
  import opened Wire
  import opened DnsQuery
  import opened DnsResponse
  import opened ChallengeStore
  import opened Resolver
  import opened Rfc1035
  import opened ResolverTheorems
  import opened EndToEnd
  import opened LongLabels

  const NO_IPS := ServerIps(None, None)

  // A message that does not fit.

  /** A header with question count 1 and nothing behind it. */
  const BARE_HEADER: Bytes := [0, 0, 1, 0, 0, 1, 0, 0, 0, 0, 0, 0]

  lemma BareHeaderDoesNotFit()
    ensures !MessageFits(BARE_HEADER)
  {
    assert ReachesQuestion(BARE_HEADER);
  }

  // A value that does not read back.

  /** A query as a client sends it. */
  function QueryFor(id: u16, labels: seq<Bytes>, qtype: ValidQueryType, qclass: u16): Bytes {
    BigEndian(id, 2) + ([1, 0, 0, 1, 0, 0, 0, 0, 0, 0] + EncodeQuestion(labels, qtype.Code(), qclass))
  }

  lemma QueryForIsQuery(id: u16, labels: seq<Bytes>, qtype: ValidQueryType, qclass: u16)
    requires NonEmpty(labels) && Short(labels)
    ensures IsQuery(QueryFor(id, labels, qtype, qclass), labels, qtype, qclass)
  {
    var m := QueryFor(id, labels, qtype, qclass);
    var question := EncodeQuestion(labels, qtype.Code(), qclass);
    assert m == BigEndian(id, 2) + [1, 0, 0, 1, 0, 0, 0, 0, 0, 0] + question;
    assert m[2] == 1 && m[4] == 0 && m[5] == 1;
    assert m[12..12 + |question|] == question;
  }

  function Repeat(b: u8, n: nat): (s: Bytes)
    ensures |s| == n && forall i :: 0 <= i < n ==> s[i] == b
  {
    if n == 0 then [] else [b] + Repeat(b, n - 1)
  }

  /** The name "_acme-challenge" on its own. */
  const ACME_NAME: seq<Bytes> := [ACME_CHALLENGE_LABEL]

  lemma AcmeNameIsAsked()
    ensures NonEmpty(ACME_NAME) && Short(ACME_NAME) && AllAscii(ACME_NAME) && IsAcmeName(ACME_NAME)
    ensures |EncodeName(ACME_NAME)| == 17 && Dotted(ACME_NAME) == ACME_CHALLENGE_LABEL
  {
    assert ACME_NAME[1..] == [];
    assert |EncodeName([])| == 1;
  }

  /** With one value of `n` bytes registered for "_acme-challenge", a TXT query for that name gets one
      record; for n == 256 it does not read back as the value, for n == 255 it does. */
  lemma OneByteTooMany(n: nat)
    requires n <= 0xFFFE
    ensures var value := Repeat(0x61, n);
      var items := RunStore([], [Register(Challenge([], ACME_CHALLENGE_LABEL, value))]);
      var message := QueryFor(1, ACME_NAME, TXT, 1);
      && MessageFits(message) && ReadMessage(message).Processed?
      && var reply := Decode(ReplyBytes(message, NO_IPS, items));
         && reply.Some? && |reply.value.answers| == 1
         && (TextsOf(reply.value.answers) == Some([value]) <==> n <= 255)
  {
    var value := Repeat(0x61, n);
    var c := Challenge([], ACME_CHALLENGE_LABEL, value);
    var ops := [Register(c)];
    var message := QueryFor(1, ACME_NAME, TXT, 1);
    QueryForIsQuery(1, ACME_NAME, TXT, 1);
    AcmeNameIsAsked();
    TxtQueryIsAnswered(ops, message, ACME_NAME, 1, NO_IPS);
    OneValue(c);
    assert FitOneString([value]) <==> n <= 255 by {
      assert [value][0] == value;
    }
  }

  lemma OneValue(c: Challenge)
    requires c.name == ACME_CHALLENGE_LABEL
    ensures RunStore([], [Register(c)]) == [c] && ValuesOf([c], ACME_CHALLENGE_LABEL) == [c.value]
  {
    assert [Register(c)][1..] == [];
    assert [] + [c] == [c] && [c][1..] == [];
    assert c.Matches(ACME_CHALLENGE_LABEL);
  }

  // A label that makes the reply unreadable.

  const FILLER := Repeat(0x61, 40)

  /** The header's id starts with 64, so a pointer to offset 0 leads to a label of 64 octets: the rest
      of the header, "_acme-challenge" and the beginning of the label behind it. */
  function LongLabelFront(): Bytes {
    [64, 0x61, 0, 0, 0, 1, 0, 0, 0, 0, 0, 0] + ([15] + ACME_CHALLENGE_LABEL) + ([40] + FILLER)
  }

  function LongLabelQuery(): Bytes {
    LongLabelFront() + [0xC0, 0, 0, 0, 16, 0, 1]
  }

  lemma LongLabelFrontIsAscii()
    ensures |LongLabelFront()| == 69 && IsAscii(LongLabelFront())
  {
    var header: Bytes := [64, 0x61, 0, 0, 0, 1, 0, 0, 0, 0, 0, 0];
    var first: Bytes := [15] + ACME_CHALLENGE_LABEL;
    var second: Bytes := [40] + FILLER;
    assert IsAscii(header) && IsAscii(first) && IsAscii(second);
    AsciiConcat(header, first);
    AsciiConcat(header + first, second);
  }

  lemma AsciiConcat(x: Bytes, y: Bytes)
    requires IsAscii(x) && IsAscii(y)
    ensures IsAscii(x + y)
  {
  }

  /** The labels that the program reads there. */
  function LongName(): seq<Bytes> {
    [ACME_CHALLENGE_LABEL, FILLER, LongLabelQuery()[1..65]]
  }

  lemma LongLabelQueryBytes()
    ensures var m := LongLabelQuery();
      && |m| == 76 && ReachesQuestion(m) && m[0] == 64
      && m[12] == 15 && m[13..28] == ACME_CHALLENGE_LABEL && m[28] == 40 && m[29..69] == FILLER
      && m[69] == 0xC0 && m[70] == 0 && m[71] == 0 && U16At(m, 72) == 16
  {
    var m := LongLabelQuery();
    assert m[2] == 0 && m[4] == 0 && m[5] == 1;
  }

  lemma TwoLabelsAndPointerAreRead(m: Bytes, first: Bytes, second: Bytes)
    requires |m| == 76 && m[0] == 64 && m[69] == 0xC0 && m[70] == 0 && m[71] == 0
    requires m[12] == 15 && m[13..28] == first && m[28] == 40 && m[29..69] == second
    ensures LabelsAt(m, 12) == Labels([first, second, m[1..65]] + [[]], 72)
  {
    var front := [first, second];
    assert FrontAt(front, m, 12, 69) by {
      assert front[1..] == [second] && [second][1..] == [];
      assert FrontAt([second], m, 28, 69);
    }
    assert LabelOf(m, 0) == Label(m[1..65], 65);
    PointerCopiesOneLabel(front, m, 12, 69, 0);
    assert LabelsAt(m, 71) == Labels([[]], 72) by {
      LabelsStep(m, 71);
    }
    assert front + [m[1..65]] == [first, second, m[1..65]];
  }

  lemma LongLabelsAreAsked()
    ensures NonEmpty(LongName()) && AllAscii(LongName()) && IsAcmeName(LongName()) && !Short(LongName())
    ensures |EncodeName(LongName())| == 123
  {
    var m, labels := LongLabelQuery(), LongName();
    LongLabelFrontIsAscii();
    assert labels[2] == LongLabelFront()[1..65];
    assert |labels[0]| == 15 && |labels[1]| == 40 && |labels[2]| == 64;
    assert labels[1..] == [labels[1], labels[2]] && labels[1..][1..] == [labels[2]];
    var none: seq<Bytes> := [];
    assert [labels[2]][1..] == none;
    assert |EncodeName([labels[2]])| == 66;
    assert |EncodeName(labels[1..])| == 107;
  }

  lemma QueryWithLabelsIsProcessed(m: Bytes, labels: seq<Bytes>)
    requires |m| == 76 && ReachesQuestion(m) && U16At(m, 72) == 16
    requires LabelsAt(m, 12) == Labels(labels + [[]], 72) && NonEmpty(labels)
    requires AllAscii(labels) && IsAcmeName(labels) && |EncodeName(labels)| <= 255
    ensures MessageFits(m) && ReadMessage(m).Processed? && Asked(m) == labels
  {
    NameOfLabels(m, 12, labels, 72);
    ParseFromLabels(m, 12, labels + [[]], 72);
    NamedQuestion(m, labels, 72);
  }

  lemma NeitherReaderTakesIt(m: Bytes, items: seq<Challenge>, hops: nat)
    requires MessageFits(m) && ReadMessage(m).Processed? && !Short(Asked(m))
    requires |items| <= 100 && ValuesWithin(items, 0xFFFE)
    ensures Decode(ReplyBytes(m, NO_IPS, items)) == None
    ensures CompressedName(ReplyBytes(m, NO_IPS, items), 12, hops) == None
  {
    ProcessedIsParsed(m);
    ReplyReadsBack(m, NO_IPS, items);
    ReplyNameReadsIff(m, NO_IPS, items, hops);
  }

  /** The query is processed, and its reply can be read neither without compression nor with it. */
  lemma LongLabelReplyIsUnreadable(items: seq<Challenge>, hops: nat)
    requires |items| <= 100 && ValuesWithin(items, 0xFFFE)
    ensures var m := LongLabelQuery();
      && MessageFits(m) && ReadMessage(m).Processed? && !Short(Asked(m))
      && Decode(ReplyBytes(m, NO_IPS, items)) == None
      && CompressedName(ReplyBytes(m, NO_IPS, items), 12, hops) == None
  {
    var m := LongLabelQuery();
    LongLabelQueryBytes();
    TwoLabelsAndPointerAreRead(m, ACME_CHALLENGE_LABEL, FILLER);
    LongLabelsAreAsked();
    QueryWithLabelsIsProcessed(m, LongName());
    NeitherReaderTakesIt(m, items, hops);
  }
}
