/** Labels of more than 63 octets, which a pointer can copy: how long they get, and why no reader of
    RFC 1035 can read a reply that repeats one. */
module LongLabels {
  import opened RustInt
  import opened Text
  import opened Wire
  import opened DnsQuery
  import opened DnsResponse
  import opened ChallengeStore
  import opened Resolver
  import opened Rfc1035
  import opened ResolverTheorems

  /** An ASCII label that a pointer at `at` leads to ends before the pointer. */
  lemma CopiedLabelLiesBefore(bytes: Bytes, at: nat)
    requires at < |bytes| && bytes[at] >= 192 && !CutPointer(bytes, at)
    requires NextLabel(bytes, at).Label? && IsAscii(NextLabel(bytes, at).part)
    ensures |NextLabel(bytes, at).part| < at
  {
    var target := U16At(bytes, at) % 0x4000;
    var part := NextLabel(bytes, at).part;
    forall i | target < i <= target + |part| ensures bytes[i] < 128 {
      assert part[i - target - 1] == bytes[i];
    }
  }

  /** No label is longer than `max`. */
  predicate AtMost(labels: seq<Bytes>, max: nat) {
    forall i :: 0 <= i < |labels| ==> |labels[i]| <= max
  }

  lemma FirstOfLabels(labels: seq<Bytes>, end: nat, bytes: Bytes, at: nat)
    requires LabelsAt(bytes, at) == Labels(labels + [[]], end) && NonEmpty(labels) && labels != []
    ensures at < |bytes| && !CutPointer(bytes, at)
    ensures var read := NextLabel(bytes, at);
      && read.Label? && read.part == labels[0] && read.next <= at + 1 + |labels[0]|
      && LabelsAt(bytes, read.next) == Labels(labels[1..] + [[]], end)
  {
    var read := NextLabel(bytes, at);
    var all := labels + [[]];
    assert all[0] == labels[0] && all[1..] == labels[1..] + [[]];
    assert all == [read.part] + LabelsAt(bytes, read.next).labels;
    assert LabelsAt(bytes, read.next).labels == all[1..];
  }

  lemma RestOfLabels(labels: seq<Bytes>)
    requires labels != [] && NonEmpty(labels) && AllAscii(labels)
    ensures NonEmpty(labels[1..]) && AllAscii(labels[1..])
    ensures |EncodeName(labels)| == 1 + |labels[0]| + |EncodeName(labels[1..])|
    ensures forall max: nat :: |labels[0]| <= max && AtMost(labels[1..], max) ==> AtMost(labels, max)
  {
    var rest := labels[1..];
    assert labels == [labels[0]] + rest;
    assert AllAscii(rest) by {
      forall i | 0 <= i < |rest| ensures IsAscii(rest[i]) {
        assert rest[i] == labels[i + 1];
      }
    }
  }

  /** With a name of at most 255 bytes that starts at 12, of which the labels read so far take `used`
      bytes and no fewer octets of the message, no label has more than 132 octets. */
  lemma {:induction false} LabelsAreBounded(labels: seq<Bytes>, end: nat, bytes: Bytes, at: nat, used: nat)
    requires LabelsAt(bytes, at) == Labels(labels + [[]], end) && at <= 12 + used
    requires NonEmpty(labels) && AllAscii(labels) && used + |EncodeName(labels)| <= 255
    ensures AtMost(labels, 132)
    decreases |labels|
  {
    if labels == [] {
    } else {
      var read := NextLabel(bytes, at);
      FirstOfLabels(labels, end, bytes, at);
      RestOfLabels(labels);
      if bytes[at] >= 192 {
        CopiedLabelLiesBefore(bytes, at);
      }
      LabelsAreBounded(labels[1..], end, bytes, read.next, used + 1 + |labels[0]|);
    }
  }

  /** So a label of a question that has been read has at most 132 octets. */
  lemma ReadLabelsAreBounded(message: Bytes)
    requires MessageFits(message) && QuestionIsRead(message)
    ensures AtMost(Asked(message), 132)
  {
    ParsedName(message, 12);
    LabelsEndInEmpty(message, 12);
    LabelsAreBounded(Asked(message), LabelsAt(message, 12).end, message, 12, 0);
  }

  /** The wire form of `labels` stands at `at`, label by label, whatever their lengths. */
  predicate WireAt(labels: seq<Bytes>, s: Bytes, at: nat)
    decreases |labels|
  {
    at < |s| &&
    if labels == [] then s[at] == 0
    else
      && s[at] == |labels[0]| && LabelOf(s, at) == Label(labels[0], at + 1 + |labels[0]|)
      && WireAt(labels[1..], s, at + 1 + |labels[0]|)
  }

  lemma FirstLabelStands(labels: seq<Bytes>, s: Bytes, at: nat, next: nat)
    requires labels != [] && |labels[0]| < 256 && StandsAt(EncodeName(labels), s, at) && next == at + 1 + |labels[0]|
    ensures at < |s| && s[at] == |labels[0]| && LabelOf(s, at) == Label(labels[0], next)
    ensures StandsAt(EncodeName(labels[1..]), s, next)
  {
    StandsAtSplit([AsU8(|labels[0]|)] + labels[0], EncodeName(labels[1..]), s, at);
    LabelStands(labels[0], s, at);
  }

  lemma {:induction false} StandingNameIsThere(labels: seq<Bytes>, s: Bytes, at: nat)
    requires AtMost(labels, 255) && StandsAt(EncodeName(labels), s, at)
    ensures WireAt(labels, s, at)
    decreases |labels|
  {
    if labels == [] {
      assert s[at..at + 1][0] == s[at];
    } else {
      var next := at + 1 + |labels[0]|;
      FirstLabelStands(labels, s, at, next);
      StandingNameIsThere(labels[1..], s, next);
    }
  }

  /** A reader that follows pointers stops at the first label of 64 to 191 octets, too: its length
      octet is reserved. */
  lemma {:induction false} EncodedNameByCompression(labels: seq<Bytes>, s: Bytes, at: nat, hops: nat)
    requires NonEmpty(labels) && AtMost(labels, 191) && WireAt(labels, s, at)
    ensures CompressedName(s, at, hops)
         == if Short(labels) then Some((labels, at + |EncodeName(labels)|)) else None
    decreases |labels|
  {
    if labels == [] {
    } else {
      EncodedNameByCompression(labels[1..], s, at + 1 + |labels[0]|, hops);
      ShortStep(labels);
      assert |EncodeName(labels)| == 1 + |labels[0]| + |EncodeName(labels[1..])|;
    }
  }

  lemma ShortStep(labels: seq<Bytes>)
    requires labels != []
    ensures labels == [labels[0]] + labels[1..]
    ensures Short(labels) <==> |labels[0]| < 64 && Short(labels[1..])
  {
    assert labels == [labels[0]] + labels[1..];
  }

  lemma QuestionNameStands(c: Content)
    requires c.query.Some?
    ensures StandsAt(c.query.value.queryNameBytes, EncodeContent(c), 12)
  {
    var name := c.query.value.queryNameBytes;
    var numbers := BigEndian(c.query.value.queryType, 2) + BigEndian(c.query.value.queryClass, 2);
    assert EncodeContent(c) == EncodeHeader(c) + name + (numbers + EncodeAnswers(c.answers));
  }

  lemma StandingNameReadsIff(labels: seq<Bytes>, s: Bytes, at: nat, hops: nat)
    requires NonEmpty(labels) && AtMost(labels, 132) && StandsAt(EncodeName(labels), s, at)
    ensures CompressedName(s, at, hops) == if Short(labels) then Some((labels, at + |EncodeName(labels)|)) else None
  {
    StandingNameIsThere(labels, s, at);
    EncodedNameByCompression(labels, s, at, hops);
  }

  /** The question that a reply repeats is read, with compression or without, exactly if its labels
      have at most 63 octets. */
  lemma RepeatedNameReadsIff(message: Bytes, c: Content, hops: nat)
    requires MessageFits(message) && QuestionIsRead(message)
    requires c.query == Some(ParseQuestion(message, 12).query)
    ensures CompressedName(EncodeContent(c), 12, hops)
         == if Short(Asked(message)) then Some((Asked(message), 12 + |EncodeName(Asked(message))|)) else None
  {
    ParsedName(message, 12);
    LabelsEndInEmpty(message, 12);
    ReadLabelsAreBounded(message);
    QuestionNameStands(c);
    StandingNameReadsIff(Asked(message), EncodeContent(c), 12, hops);
  }

  /** So for every reply that repeats a question. */
  lemma ReplyNameReadsIff(message: Bytes, ips: ServerIps, items: seq<Challenge>, hops: nat)
    requires MessageFits(message) && QuestionIsRead(message)
    ensures ReplyTo(message, ips, items).Some?
    ensures CompressedName(EncodeContent(ReplyTo(message, ips, items).value), 12, hops)
         == if Short(Asked(message)) then Some((Asked(message), 12 + |EncodeName(Asked(message))|)) else None
  {
    RepeatedNameReadsIff(message, ReplyTo(message, ips, items).value, hops);
  }
}
