/** Queries that are cut off: where the program stops with an index out of bounds, and where it gives
    an answer. */
module CutQueries {
  import opened RustInt
  import opened Text
  import opened Wire
  import opened DnsQuery
  import opened DnsResponse
  import opened Resolver
  import opened EndToEnd

  /** `n` is the place of a length octet of the name that starts at `at`. */
  predicate AtLengthOctet(labels: seq<Bytes>, at: nat, n: nat) {
    n == at || (labels != [] && n > at + |labels[0]| && AtLengthOctet(labels[1..], at + 1 + |labels[0]|, n))
  }

  /** A name cut at a length octet overruns; cut within a label it is too short; cut behind its end
      it is whole. */
  lemma {:induction false} CutName(labels: seq<Bytes>, bytes: Bytes, at: nat, n: nat)
    requires EncodedAt(labels, bytes, at) && at <= n <= |bytes|
    ensures if n >= at + |EncodeName(labels)| then EncodedAt(labels, bytes[..n], at)
            else LabelsAt(bytes[..n], at) == if AtLengthOctet(labels, at, n) then Overrun else BadLabels(TooShort)
    decreases |labels|
  {
    var cut := bytes[..n];
    if labels == [] || n == at {
    } else {
      var next := at + 1 + |labels[0]|;
      assert |EncodeName(labels)| == 1 + |labels[0]| + |EncodeName(labels[1..])|;
      assert cut[at] == bytes[at];
      if n < next {
        assert LabelOf(cut, at) == BadLabel(TooShort);
      } else {
        assert LabelOf(cut, at) == LabelOf(bytes, at) by {
          assert cut[at + 1..next] == bytes[at + 1..next];
        }
        LabelsStep(cut, at);
        CutName(labels[1..], bytes, next, n);
      }
    }
  }

  /** The program stops on the first `n` bytes of a query exactly if they end in front of a length
      octet of the name, or behind the name but in front of the end of the question. */
  lemma CutQueryFitsIff(m: Bytes, labels: seq<Bytes>, qtype: ValidQueryType, qclass: u16, n: nat)
    requires IsQuery(m, labels, qtype, qclass) && n <= |m|
    ensures var end := 12 + |EncodeName(labels)|;
      MessageFits(m[..n]) <==> !(12 <= n < end && AtLengthOctet(labels, 12, n)) && !(end <= n < end + 4)
  {
    var end, cut := 12 + |EncodeName(labels)|, m[..n];
    if n >= 12 {
      EncodedQuestionSplits(labels, qtype.Code(), qclass, m, 12, end);
      CutName(labels, m, 12, n);
      CutHeader(m, n);
      if n >= end {
        EncodedNameIsRead(labels, cut, 12);
      }
    }
  }

  lemma CutHeader(m: Bytes, n: nat)
    requires 12 <= n <= |m|
    ensures ReachesQuestion(m[..n]) <==> ReachesQuestion(m)
  {
    var cut := m[..n];
    assert cut[2] == m[2] && cut[4] == m[4] && cut[5] == m[5];
  }

  /** Cut within a label, a query is answered with the format error. */
  lemma CutLabelIsRefused(m: Bytes, labels: seq<Bytes>, qtype: ValidQueryType, qclass: u16, n: nat)
    requires IsQuery(m, labels, qtype, qclass) && 12 <= n < 12 + |EncodeName(labels)|
    requires !AtLengthOctet(labels, 12, n)
    ensures n <= |m| && MessageFits(m[..n])
    ensures ReadMessage(m[..n]) == Answered(Content(U16At(m, 0), m[2] % 2 == 1, FormErr, None, []))
  {
    EncodedQuestionSplits(labels, qtype.Code(), qclass, m, 12, 12 + |EncodeName(labels)|);
    CutName(labels, m, 12, n);
    CutHeader(m, n);
  }
}
