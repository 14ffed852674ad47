/** Parsing and printing the question section. */
module DnsQuery {
  import opened RustInt
  import opened Text
  import opened Wire

  /** The label "_acme-challenge". */
  const ACME_CHALLENGE_LABEL: Bytes :=
    [0x5F, 0x61, 0x63, 0x6D, 0x65, 0x2D, 0x63, 0x68, 0x61, 0x6C, 0x6C, 0x65, 0x6E, 0x67, 0x65]

  lemma AcmeLabelIsSpelled()
    ensures |ACME_CHALLENGE_LABEL| == |"_acme-challenge"|
    ensures forall i :: 0 <= i < |ACME_CHALLENGE_LABEL| ==> ACME_CHALLENGE_LABEL[i] == "_acme-challenge"[i] as int
  {
  }

  datatype Query = Query(
    queryNameBytes: Bytes, queryNameString: Bytes, queryType: u16, queryClass: u16, isAcmeChallenge: bool)
  {
    function SizeHint(): nat { |queryNameBytes| + 2 + 2 }

    function Encoded(): Bytes {
      queryNameBytes + BigEndian(queryType, 2) + BigEndian(queryClass, 2)
    }

    method ToBytes() returns (bytes: Bytes)
      ensures bytes == Encoded() && |bytes| == SizeHint()
    {
      bytes := [];
      bytes := bytes + queryNameBytes;
      bytes := bytes + BigEndian(queryType, 2);
      bytes := bytes + BigEndian(queryClass, 2);
    }
  }

  datatype QueryError = TooShort | TooLong | InvalidLabelLength(octet: u8) | InvalidNameEncoding

  // Labels.

  datatype LabelRead = Label(part: Bytes, next: nat) | BadLabel(error: QueryError)

  /** The label whose length octet is at `at`, whatever the octet's top bits. */
  function LabelOf(bytes: Bytes, at: nat): LabelRead {
    if at < |bytes| && at + 1 + bytes[at] <= |bytes|
    then Label(bytes[at + 1..at + 1 + bytes[at]], at + 1 + bytes[at])
    else BadLabel(TooShort)
  }

  /** A pointer octet that ends the message, whose second octet cannot be read. */
  predicate CutPointer(bytes: Bytes, at: nat) {
    at + 1 == |bytes| && bytes[at] >= 192
  }

  /** The label at `at`, or the one label that a pointer at `at` leads to. */
  function NextLabel(bytes: Bytes, at: nat): (r: LabelRead)
    requires !CutPointer(bytes, at)
    ensures r.Label? ==> at < r.next <= |bytes|
  {
    if at >= |bytes| then BadLabel(TooShort)
    else if bytes[at] < 64 then LabelOf(bytes, at)
    else if bytes[at] < 192 then BadLabel(InvalidLabelLength(bytes[at]))
    else
      var target := U16At(bytes, at) % 0x4000;
      if target >= at then BadLabel(InvalidLabelLength(bytes[at]))
      else match LabelOf(bytes, target)
        case Label(part, _) => Label(part, at + 2)
        case BadLabel(e) => BadLabel(e)
  }

  method LabelAt(bytes: Bytes, start: nat) returns (r: LabelRead)
    ensures r == LabelOf(bytes, start)
  {
    var cursor := start;
    if |bytes| <= cursor {
      return BadLabel(TooShort);
    }
    var labelLen := bytes[cursor];
    cursor := cursor + 1;
    if cursor + labelLen > |bytes| {
      return BadLabel(TooShort);
    }
    var result := bytes[cursor..cursor + labelLen];
    cursor := cursor + labelLen;
    return Label(result, cursor);
  }

  method ReadLabel(bytes: Bytes, cursor: nat) returns (r: LabelRead)
    requires !CutPointer(bytes, cursor)
    ensures r == NextLabel(bytes, cursor)
  {
    if cursor >= |bytes| {
      return BadLabel(TooShort);
    }
    var octet := bytes[cursor];
    if octet / 64 == 0 {
      r := LabelAt(bytes, cursor);
    } else if octet / 64 == 3 {
      var ptr := U16At(bytes, cursor) % 0x4000;
      if ptr >= cursor {
        return BadLabel(InvalidLabelLength(octet));
      }
      var target := LabelAt(bytes, ptr);
      match target
      case Label(part, _) => r := Label(part, cursor + 2);
      case BadLabel(_) => r := target;
    } else {
      return BadLabel(InvalidLabelLength(octet));
    }
  }

  // Names.

  datatype LabelList = Labels(labels: seq<Bytes>, end: nat) | BadLabels(error: QueryError) | Overrun

  function Prepend(front: seq<Bytes>, list: LabelList): LabelList {
    if list.Labels? then Labels(front + list.labels, list.end) else list
  }

  /** The labels from `at` up to and including the first empty one. `Overrun` is where the program
      would index past the end of the message. */
  function LabelsAt(bytes: Bytes, at: nat): (r: LabelList)
    ensures r.Labels? ==> at < r.end <= |bytes|
    decreases |bytes| - at
  {
    if at >= |bytes| || CutPointer(bytes, at) then Overrun
    else match NextLabel(bytes, at)
      case BadLabel(e) => BadLabels(e)
      case Label(part, next) =>
        if part == [] then Labels([part], next) else Prepend([part], LabelsAt(bytes, next))
  }

  /** The message holds the question: no read of it is out of bounds. */
  predicate QuestionFits(bytes: Bytes, at: nat) {
    var list := LabelsAt(bytes, at);
    !list.Overrun? && (list.Labels? ==> list.end + 4 <= |bytes|)
  }

  datatype Name = Name(wire: Bytes, text: Bytes) | BadName(error: QueryError)

  /** The dot in front of a further label. */
  function Dot(text: Bytes, more: bool): Bytes {
    if text != [] && more then ['.' as int] else []
  }

  /** Appends labels to a name, in both its forms. */
  function JoinLabels(labels: seq<Bytes>, wire: Bytes, text: Bytes): Name {
    if labels == [] then Name(wire, text)
    else
      var part := labels[0];
      if !IsAscii(part) then BadName(InvalidNameEncoding)
      else if |wire| + |part| + 1 > 255 then BadName(TooLong)
      else
        JoinLabels(labels[1..], wire + [AsU8(|part|)] + part, text + Dot(text, part != []) + part)
  }

  lemma JoinStep(labels: seq<Bytes>, wire: Bytes, text: Bytes)
    requires labels != [] && IsAscii(labels[0]) && |wire| + |labels[0]| + 1 <= 255
    ensures JoinLabels(labels, wire, text)
         == JoinLabels(labels[1..], wire + [AsU8(|labels[0]|)] + labels[0],
                       text + Dot(text, labels[0] != []) + labels[0])
  {
  }

  predicate IsAcmeName(labels: seq<Bytes>) {
    |labels| > 0 && EqIgnoreCase(labels[0], ACME_CHALLENGE_LABEL)
  }

  /** Both results carry a position: behind the question, or 0 where the name could not be read. */
  datatype ParseResult = Parsed(query: Query, end: nat) | Refused(error: QueryError, end: nat)

  /** The question with these labels, whose name ends at `end`. */
  function QuestionFrom(bytes: Bytes, labels: seq<Bytes>, end: nat): ParseResult
    requires end + 4 <= |bytes|
  {
    match JoinLabels(labels, [], [])
    case BadName(e) => Refused(e, end + 4)
    case Name(wire, text) =>
      Parsed(Query(wire, text, U16At(bytes, end), U16At(bytes, end + 2), IsAcmeName(labels)), end + 4)
  }

  function ParseQuestion(bytes: Bytes, at: nat): ParseResult
    requires QuestionFits(bytes, at)
  {
    match LabelsAt(bytes, at)
    case BadLabels(e) => Refused(e, 0)
    case Labels(labels, end) => QuestionFrom(bytes, labels, end)
  }

  /** The second loop of `from_bytes`. */
  method AppendLabels(labels: seq<Bytes>) returns (r: Name)
    ensures r == JoinLabels(labels, [], [])
  {
    var queryNameBytes: Bytes, queryNameString: Bytes := [], [];
    for i := 0 to |labels|
      invariant JoinLabels(labels[i..], queryNameBytes, queryNameString) == JoinLabels(labels, [], [])
    {
      var part := labels[i];
      assert labels[i..][0] == part && labels[i..][1..] == labels[i + 1..];
      ghost var wire, text := queryNameBytes, queryNameString;
      if !IsAscii(part) {
        return BadName(InvalidNameEncoding);
      }
      if |queryNameString| != 0 && |part| != 0 {
        queryNameString := queryNameString + ['.' as int];
      }
      queryNameString := queryNameString + part;
      if |queryNameBytes| + |part| + 1 > 255 {
        return BadName(TooLong);
      }
      queryNameBytes := queryNameBytes + [AsU8(|part|)];
      queryNameBytes := queryNameBytes + part;
      assert text + [] == text;
      JoinStep(labels[i..], wire, text);
    }
    return Name(queryNameBytes, queryNameString);
  }

  /** The first loop of `from_bytes`. */
  method ReadLabels(bytes: Bytes, start: nat) returns (r: LabelList)
    requires !LabelsAt(bytes, start).Overrun?
    ensures r == LabelsAt(bytes, start)
  {
    var cursor := start;
    var labels: seq<Bytes> := [];
    while cursor < |bytes|
      invariant LabelsAt(bytes, start) == Prepend(labels, LabelsAt(bytes, cursor))
    {
      var read := ReadLabel(bytes, cursor);
      if read.BadLabel? {
        return BadLabels(read.error);
      }
      labels := labels + [read.part];
      cursor := read.next;
      if |read.part| == 0 {
        break;
      }
    }
    return Labels(labels, cursor);
  }

  method FromBytes(bytes: Bytes, start: nat) returns (r: ParseResult)
    requires QuestionFits(bytes, start)
    ensures r == ParseQuestion(bytes, start)
  {
    var read := ReadLabels(bytes, start);
    if read.BadLabels? {
      return Refused(read.error, 0);
    }
    var labels, cursor := read.labels, read.end;
    var cursorAtEnd := cursor + 4;
    var isAcmeChallenge := |labels| > 0 && EqIgnoreCase(labels[0], ACME_CHALLENGE_LABEL);
    var queryType := U16At(bytes, cursor);
    cursor := cursor + 2;
    var queryClass := U16At(bytes, cursor);

    var name := AppendLabels(labels);
    ParseFromName(bytes, start, labels, read.end, name);
    match name
    case BadName(e) => r := Refused(e, cursorAtEnd);
    case Name(queryNameBytes, queryNameString) =>
      r := Parsed(Query(queryNameBytes, queryNameString, queryType, queryClass, isAcmeChallenge), cursorAtEnd);
  }

  lemma ParseFromName(bytes: Bytes, at: nat, labels: seq<Bytes>, end: nat, name: Name)
    requires LabelsAt(bytes, at) == Labels(labels, end) && end + 4 <= |bytes| && name == JoinLabels(labels, [], [])
    ensures QuestionFits(bytes, at)
    ensures ParseQuestion(bytes, at) == match name
      case BadName(e) => Refused(e, end + 4)
      case Name(wire, text) =>
        Parsed(Query(wire, text, U16At(bytes, end), U16At(bytes, end + 2), IsAcmeName(labels)), end + 4)
  {
    ParseFromLabels(bytes, at, labels, end);
  }

  // What the parser accepts, and what it makes of it.

  /** The labels of the name at `at`, without the empty label that ends it. */
  function NameAt(bytes: Bytes, at: nat): seq<Bytes> {
    var list := LabelsAt(bytes, at);
    if list.Labels? && |list.labels| > 0 then list.labels[..|list.labels| - 1] else []
  }

  /** The label loop stops at the first empty label. */
  lemma {:induction false} LabelsEndInEmpty(bytes: Bytes, at: nat)
    requires LabelsAt(bytes, at).Labels?
    ensures LabelsAt(bytes, at).labels == NameAt(bytes, at) + [[]]
    ensures NonEmpty(NameAt(bytes, at))
    decreases |bytes| - at
  {
    var read := NextLabel(bytes, at);
    if read.part == [] {
    } else {
      LabelsEndInEmpty(bytes, read.next);
      assert NameAt(bytes, at) == [read.part] + NameAt(bytes, read.next);
    }
  }

  lemma WireStep(labels: seq<Bytes>, wire: Bytes)
    requires labels != []
    ensures wire + [AsU8(|labels[0]|)] + labels[0] + EncodeName(labels[1..]) == wire + EncodeName(labels)
  {
  }

  lemma TextStep(labels: seq<Bytes>, text: Bytes)
    requires labels != [] && labels[0] != []
    ensures var longer := text + Dot(text, true) + labels[0];
      longer + Dot(longer, labels[1..] != []) + Dotted(labels[1..]) == text + Dot(text, true) + Dotted(labels)
  {
    if |labels| == 1 {
      assert labels[0] + [] + Dotted(labels[1..]) == Dotted(labels);
    }
  }

  lemma NameStep(labels: seq<Bytes>, wire: Bytes, text: Bytes)
    requires labels != [] && labels[0] != []
    ensures var part, rest := labels[0], labels[1..];
      && (AllAscii(labels) <==> IsAscii(part) && AllAscii(rest))
      && wire + [AsU8(|part|)] + part + EncodeName(rest) == wire + EncodeName(labels)
      && (text + Dot(text, true) + part) + Dot(text + Dot(text, true) + part, rest != []) + Dotted(rest)
           == text + Dot(text, true) + Dotted(labels)
  {
    assert labels == [labels[0]] + labels[1..];
    WireStep(labels, wire);
    TextStep(labels, text);
  }

  /** A name is accepted exactly if it is ASCII and at most 255 bytes on the wire; then its two forms
      are the wire form and the dotted form of its labels. */
  lemma {:induction false} JoinedName(labels: seq<Bytes>, wire: Bytes, text: Bytes)
    requires NonEmpty(labels)
    ensures JoinLabels(labels + [[]], wire, text).Name? <==>
      AllAscii(labels) && |wire| + |EncodeName(labels)| <= 255
    ensures JoinLabels(labels + [[]], wire, text).Name? ==>
      JoinLabels(labels + [[]], wire, text)
        == Name(wire + EncodeName(labels), text + Dot(text, labels != []) + Dotted(labels))
    decreases |labels|
  {
    var all := labels + [[]];
    if labels == [] {
      assert all[0] == [] && all[1..] == [];
    } else {
      var part, rest := labels[0], labels[1..];
      assert all[1..] == rest + [[]] && all[0] == part;
      assert part != [];
      NameStep(labels, wire, text);
      if IsAscii(part) && |wire| + |part| + 1 <= 255 {
        JoinStep(all, wire, text);
        JoinedName(rest, wire + [AsU8(|part|)] + part, text + Dot(text, true) + part);
      }
    }
  }

  lemma ParseFromLabels(bytes: Bytes, at: nat, labels: seq<Bytes>, end: nat)
    requires LabelsAt(bytes, at) == Labels(labels, end) && end + 4 <= |bytes|
    ensures QuestionFits(bytes, at) && ParseQuestion(bytes, at) == QuestionFrom(bytes, labels, end)
  {
  }

  lemma NamedQuestion(bytes: Bytes, labels: seq<Bytes>, end: nat)
    requires NonEmpty(labels) && end + 4 <= |bytes|
    ensures var q := QuestionFrom(bytes, labels + [[]], end);
      var wire := EncodeName(labels);
      && (q.Parsed? <==> AllAscii(labels) && |wire| <= 255)
      && (q.Parsed? ==>
            q == Parsed(Query(wire, Dotted(labels), U16At(bytes, end), U16At(bytes, end + 2), IsAcmeName(labels)),
                        end + 4))
  {
    WholeName(labels);
    assert IsAcmeName(labels + [[]]) <==> IsAcmeName(labels);
  }

  lemma WholeName(labels: seq<Bytes>)
    requires NonEmpty(labels)
    ensures var name := JoinLabels(labels + [[]], [], []);
      && (name.Name? <==> AllAscii(labels) && |EncodeName(labels)| <= 255)
      && (name.Name? ==> name == Name(EncodeName(labels), Dotted(labels)))
  {
    JoinedName(labels, [], []);
    assert [] + EncodeName(labels) == EncodeName(labels);
    assert [] + Dot([], labels != []) + Dotted(labels) == Dotted(labels);
  }

  /** Every accepted question, with or without pointers: wire form, dotted form, their lengths, and
      the exact conditions under which it is accepted. */
  lemma ParsedName(bytes: Bytes, at: nat)
    requires QuestionFits(bytes, at) && LabelsAt(bytes, at).Labels?
    ensures var labels, end := NameAt(bytes, at), LabelsAt(bytes, at).end;
      var wire, text := EncodeName(labels), Dotted(labels);
      && (ParseQuestion(bytes, at).Parsed? <==> AllAscii(labels) && |wire| <= 255)
      && (ParseQuestion(bytes, at).Parsed? ==>
            ParseQuestion(bytes, at)
              == Parsed(Query(wire, text, U16At(bytes, end), U16At(bytes, end + 2), IsAcmeName(labels)), end + 4))
      && |text| == (if labels == [] then 0 else |wire| - 2)
      && wire[|wire| - 1] == 0
  {
    var labels, end := NameAt(bytes, at), LabelsAt(bytes, at).end;
    LabelsEndInEmpty(bytes, at);
    EncodedLength(labels);
    NamedQuestion(bytes, labels, end);
    ParseFromLabels(bytes, at, labels + [[]], end);
  }

  /** Every label, also one that a pointer leads to, stands in the message behind its length octet,
      before the end of the name. */
  lemma {:induction false} LabelsStandInTheMessage(bytes: Bytes, at: nat, i: nat)
    requires LabelsAt(bytes, at).Labels? && i < |LabelsAt(bytes, at).labels|
    ensures exists k: nat ::
      k < LabelsAt(bytes, at).end && LabelOf(bytes, k).Label? && LabelOf(bytes, k).part == LabelsAt(bytes, at).labels[i]
    decreases |bytes| - at
  {
    var read := NextLabel(bytes, at);
    if i == 0 {
      var k := if bytes[at] < 64 then at else U16At(bytes, at) % 0x4000;
      assert LabelOf(bytes, k).part == read.part && k <= at;
    } else {
      LabelsStandInTheMessage(bytes, read.next, i - 1);
      assert LabelsAt(bytes, at).labels[i] == LabelsAt(bytes, read.next).labels[i - 1];
    }
  }

  /** `front` stands label by label from `at` to `pos`. */
  predicate FrontAt(front: seq<Bytes>, bytes: Bytes, at: nat, pos: nat)
    decreases |front|
  {
    if front == [] then at == pos
    else
      && at < |bytes| && 0 < bytes[at] < 64 && LabelOf(bytes, at) == Label(front[0], at + 1 + |front[0]|)
      && FrontAt(front[1..], bytes, at + 1 + |front[0]|, pos)
  }

  lemma {:induction false} FrontComesFirst(front: seq<Bytes>, bytes: Bytes, at: nat, pos: nat)
    requires FrontAt(front, bytes, at, pos)
    ensures LabelsAt(bytes, at) == Prepend(front, LabelsAt(bytes, pos))
    decreases |front|
  {
    var list := LabelsAt(bytes, pos);
    if front == [] {
      PrependNothing(list);
    } else {
      FrontStep(front, bytes, at, pos);
      FrontComesFirst(front[1..], bytes, at + 1 + |front[0]|, pos);
      PrependTwice([front[0]], front[1..], list);
      assert [front[0]] + front[1..] == front;
    }
  }

  lemma PrependNothing(list: LabelList)
    ensures Prepend([], list) == list
  {
    assert list.Labels? ==> [] + list.labels == list.labels;
  }

  /** A pointer behind `front` contributes the one label it leads to; the name then goes on behind
      the pointer, unless that label is empty and ends it. */
  lemma PointerCopiesOneLabel(front: seq<Bytes>, bytes: Bytes, at: nat, pos: nat, target: nat)
    requires FrontAt(front, bytes, at, pos)
    requires pos + 1 < |bytes| && bytes[pos] >= 192 && target == (bytes[pos] - 192) * 256 + bytes[pos + 1] < pos
    requires LabelOf(bytes, target).Label?
    ensures var part := LabelOf(bytes, target).part;
      LabelsAt(bytes, at) == if part == [] then Labels(front + [[]], pos + 2)
                             else Prepend(front + [part], LabelsAt(bytes, pos + 2))
  {
    FrontComesFirst(front, bytes, at, pos);
    PointerStep(bytes, pos, target);
    PrependTwice(front, [LabelOf(bytes, target).part], LabelsAt(bytes, pos + 2));
  }

  lemma FrontStep(front: seq<Bytes>, bytes: Bytes, at: nat, pos: nat)
    requires FrontAt(front, bytes, at, pos) && front != []
    ensures var next := at + 1 + |front[0]|;
      FrontAt(front[1..], bytes, next, pos) && LabelsAt(bytes, at) == Prepend([front[0]], LabelsAt(bytes, next))
  {
    LabelsStep(bytes, at);
  }

  lemma PointerStep(bytes: Bytes, pos: nat, target: nat)
    requires pos + 1 < |bytes| && bytes[pos] >= 192 && target == (bytes[pos] - 192) * 256 + bytes[pos + 1] < pos
    requires LabelOf(bytes, target).Label?
    ensures NextLabel(bytes, pos) == Label(LabelOf(bytes, target).part, pos + 2)
    ensures var part := LabelOf(bytes, target).part;
      LabelsAt(bytes, pos) == if part == [] then Labels([part], pos + 2) else Prepend([part], LabelsAt(bytes, pos + 2))
  {
    QuotientIsUnique(U16At(bytes, pos), 0x4000, 3, target);
  }

  lemma PrependTwice(x: seq<Bytes>, y: seq<Bytes>, list: LabelList)
    ensures Prepend(x, Prepend(y, list)) == Prepend(x + y, list)
  {
    if list.Labels? {
      assert x + (y + list.labels) == (x + y) + list.labels;
    }
  }

  /** No pointer octet on the way along the labels from `at`. */
  predicate PointerFree(bytes: Bytes, at: nat)
    decreases |bytes| - at
  {
    at < |bytes| ==>
      bytes[at] < 192 && (bytes[at] != 0 ==> PointerFree(bytes, at + 1 + bytes[at]))
  }

  /** Bytes `s` stand at `at`. */
  predicate StandsAt(s: Bytes, bytes: Bytes, at: nat) {
    at + |s| <= |bytes| && bytes[at..at + |s|] == s
  }

  lemma StandsAtSplit(x: Bytes, y: Bytes, bytes: Bytes, at: nat)
    requires StandsAt(x + y, bytes, at)
    ensures StandsAt(x, bytes, at) && StandsAt(y, bytes, at + |x|)
  {
    var s := bytes[at..at + |x + y|];
    assert s[..|x|] == x && s[|x|..] == y;
  }

  lemma StandsAtJoin(x: Bytes, y: Bytes, bytes: Bytes, at: nat)
    requires StandsAt(x, bytes, at) && StandsAt(y, bytes, at + |x|)
    ensures StandsAt(x + y, bytes, at)
  {
    assert bytes[at..at + |x + y|] == bytes[at..at + |x|] + bytes[at + |x|..at + |x| + |y|];
  }

  lemma LabelStands(part: Bytes, bytes: Bytes, at: nat)
    requires |part| < 256
    ensures StandsAt([AsU8(|part|)] + part, bytes, at)
       <==> at < |bytes| && bytes[at] == |part| && LabelOf(bytes, at) == Label(part, at + 1 + |part|)
  {
    CastKeeps(|part|);
    if StandsAt([AsU8(|part|)] + part, bytes, at) {
      var s := bytes[at..at + 1 + |part|];
      assert s[0] == bytes[at] && s[1..] == bytes[at + 1..at + 1 + |part|];
    }
  }

  lemma LabelsStep(bytes: Bytes, at: nat)
    requires at < |bytes| && bytes[at] < 64 && LabelOf(bytes, at).Label?
    ensures var (part, next) := (LabelOf(bytes, at).part, LabelOf(bytes, at).next);
      LabelsAt(bytes, at) == if part == [] then Labels([part], next) else Prepend([part], LabelsAt(bytes, next))
  {
  }

  /** The wire form of `labels` stands at `at`, label by label. */
  predicate EncodedAt(labels: seq<Bytes>, bytes: Bytes, at: nat)
    decreases |labels|
  {
    at < |bytes| &&
    if labels == [] then bytes[at] == 0
    else
      && 0 < bytes[at] == |labels[0]| < 64 && LabelOf(bytes, at) == Label(labels[0], at + 1 + |labels[0]|)
      && EncodedAt(labels[1..], bytes, at + 1 + |labels[0]|)
  }

  lemma NameStands(labels: seq<Bytes>, bytes: Bytes, at: nat)
    requires labels != [] && |labels[0]| < 64
    ensures StandsAt(EncodeName(labels), bytes, at) <==>
      (at < |bytes| && bytes[at] == |labels[0]| && LabelOf(bytes, at) == Label(labels[0], at + 1 + |labels[0]|)
       && StandsAt(EncodeName(labels[1..]), bytes, at + 1 + |labels[0]|))
  {
    var first, rest := [AsU8(|labels[0]|)] + labels[0], EncodeName(labels[1..]);
    LabelStands(labels[0], bytes, at);
    if StandsAt(first + rest, bytes, at) {
      StandsAtSplit(first, rest, bytes, at);
    }
    if StandsAt(first, bytes, at) && StandsAt(rest, bytes, at + |first|) {
      StandsAtJoin(first, rest, bytes, at);
    }
  }

  lemma {:induction false} EncodedAtStands(labels: seq<Bytes>, bytes: Bytes, at: nat)
    requires NonEmpty(labels) && Short(labels)
    ensures EncodedAt(labels, bytes, at) <==> StandsAt(EncodeName(labels), bytes, at)
    decreases |labels|
  {
    if labels == [] {
      assert [AsU8(0)] + [] == EncodeName(labels);
      LabelStands([], bytes, at);
    } else {
      NameStands(labels, bytes, at);
      EncodedAtStands(labels[1..], bytes, at + 1 + |labels[0]|);
    }
  }

  /** A pointer-free name was read from its own wire form, with short labels. */
  lemma {:induction false} NameCameFromItsEncoding(labels: seq<Bytes>, end: nat, bytes: Bytes, at: nat)
    requires LabelsAt(bytes, at) == Labels(labels + [[]], end) && NonEmpty(labels) && PointerFree(bytes, at)
    ensures EncodedAt(labels, bytes, at) && Short(labels) && end == at + |EncodeName(labels)|
    decreases |labels|
  {
    var read := LabelOf(bytes, at);
    assert NextLabel(bytes, at) == read && read.Label?;
    LabelsStep(bytes, at);
    if labels == [] {
      assert (labels + [[]])[0] == [];
    } else {
      var part, rest := labels[0], labels[1..];
      assert (labels + [[]])[0] == part && (labels + [[]])[1..] == rest + [[]];
      assert LabelsAt(bytes, read.next).labels == (labels + [[]])[1..];
      NameCameFromItsEncoding(rest, end, bytes, read.next);
      assert labels == [part] + rest;
    }
  }

  /** Printing a parsed pointer-free question gives back the bytes it was read from. */
  lemma PrintAfterParse(bytes: Bytes, at: nat)
    requires QuestionFits(bytes, at) && PointerFree(bytes, at) && ParseQuestion(bytes, at).Parsed?
    ensures var r := ParseQuestion(bytes, at);
      at <= r.end <= |bytes| && r.query.Encoded() == bytes[at..r.end]
  {
    var name, end := EncodeName(NameAt(bytes, at)), LabelsAt(bytes, at).end;
    ParsedName(bytes, at);
    NameStood(bytes, at, name, end);
    QuestionStands(ParseQuestion(bytes, at), name, bytes, at, end);
  }

  lemma NameStood(bytes: Bytes, at: nat, name: Bytes, end: nat)
    requires LabelsAt(bytes, at).Labels? && PointerFree(bytes, at)
    requires name == EncodeName(NameAt(bytes, at)) && end == LabelsAt(bytes, at).end
    ensures StandsAt(name, bytes, at) && end == at + |name|
  {
    LabelsEndInEmpty(bytes, at);
    NameCameFromItsEncoding(NameAt(bytes, at), end, bytes, at);
    EncodedAtStands(NameAt(bytes, at), bytes, at);
  }

  lemma QuestionStands(r: ParseResult, name: Bytes, bytes: Bytes, at: nat, end: nat)
    requires StandsAt(name, bytes, at) && end == at + |name| && end + 4 <= |bytes|
    requires r.Parsed? && r.end == end + 4 && r.query.queryNameBytes == name
    requires r.query.queryType == U16At(bytes, end) && r.query.queryClass == U16At(bytes, end + 2)
    ensures r.query.Encoded() == bytes[at..r.end]
  {
    U16Bytes(bytes, end);
    U16Bytes(bytes, end + 2);
    assert bytes[at..end + 4] == bytes[at..end] + bytes[end..end + 2] + bytes[end + 2..end + 4];
  }

  lemma U16Bytes(bytes: Bytes, at: nat)
    requires at + 2 <= |bytes|
    ensures BigEndian(U16At(bytes, at), 2) == bytes[at..at + 2]
  {
    U16ReadsBack(U16At(bytes, at));
  }

  lemma {:induction false} EncodedNameIsPointerFree(labels: seq<Bytes>, bytes: Bytes, at: nat)
    requires EncodedAt(labels, bytes, at)
    ensures PointerFree(bytes, at)
    decreases |labels|
  {
    if labels == [] {
    } else {
      EncodedNameIsPointerFree(labels[1..], bytes, at + 1 + |labels[0]|);
    }
  }

  lemma {:induction false} EncodedNameIsRead(labels: seq<Bytes>, bytes: Bytes, at: nat)
    requires EncodedAt(labels, bytes, at)
    ensures LabelsAt(bytes, at) == Labels(labels + [[]], at + |EncodeName(labels)|)
    decreases |labels|
  {
    if labels == [] {
      LabelsStep(bytes, at);
      assert labels + [[]] == [[]];
    } else {
      var next := at + 1 + |labels[0]|;
      EncodedNameIsRead(labels[1..], bytes, next);
      assert LabelsAt(bytes, at) == Prepend([labels[0]], LabelsAt(bytes, next)) by {
        LabelsStep(bytes, at);
      }
      PrependStep(labels);
    }
  }

  lemma PrependStep(labels: seq<Bytes>)
    requires labels != []
    ensures [labels[0]] + (labels[1..] + [[]]) == labels + [[]]
    ensures |EncodeName(labels)| == 1 + |labels[0]| + |EncodeName(labels[1..])|
  {
  }

  /** The wire form of a question. */
  function EncodeQuestion(labels: seq<Bytes>, queryType: u16, queryClass: u16): Bytes {
    EncodeName(labels) + (BigEndian(queryType, 2) + BigEndian(queryClass, 2))
  }

  lemma QuestionPartsStand(name: Bytes, queryType: u16, queryClass: u16, bytes: Bytes, at: nat, end: nat)
    requires StandsAt(name + (BigEndian(queryType, 2) + BigEndian(queryClass, 2)), bytes, at)
    requires end == at + |name|
    ensures StandsAt(name, bytes, at) && end + 4 <= |bytes|
    ensures U16At(bytes, end) == queryType && U16At(bytes, end + 2) == queryClass
  {
    StandsAtSplit(name, BigEndian(queryType, 2) + BigEndian(queryClass, 2), bytes, at);
    StandsAtSplit(BigEndian(queryType, 2), BigEndian(queryClass, 2), bytes, end);
    U16Stands(queryType, bytes, end);
    U16Stands(queryClass, bytes, end + 2);
  }

  lemma EncodedQuestionSplits(labels: seq<Bytes>, queryType: u16, queryClass: u16, bytes: Bytes, at: nat, end: nat)
    requires NonEmpty(labels) && Short(labels) && end == at + |EncodeName(labels)|
    requires StandsAt(EncodeQuestion(labels, queryType, queryClass), bytes, at)
    ensures EncodedAt(labels, bytes, at) && end + 4 <= |bytes|
    ensures U16At(bytes, end) == queryType && U16At(bytes, end + 2) == queryClass
    ensures at + |EncodeQuestion(labels, queryType, queryClass)| == end + 4
  {
    QuestionPartsStand(EncodeName(labels), queryType, queryClass, bytes, at, end);
    EncodedAtStands(labels, bytes, at);
  }

  /** Parsing an encoded question gives back its name, type and class and stops right behind it,
      wherever it stands and whatever surrounds it; it is refused exactly if the name is not ASCII
      or is longer than 255 bytes. */
  lemma ParseAfterPrint(labels: seq<Bytes>, queryType: u16, queryClass: u16, bytes: Bytes, at: nat)
    requires NonEmpty(labels) && Short(labels)
    requires StandsAt(EncodeQuestion(labels, queryType, queryClass), bytes, at)
    ensures QuestionFits(bytes, at) && PointerFree(bytes, at) && NameAt(bytes, at) == labels
    ensures ParseQuestion(bytes, at).Parsed? <==> AllAscii(labels) && |EncodeName(labels)| <= 255
    ensures ParseQuestion(bytes, at).Parsed? ==>
      ParseQuestion(bytes, at)
        == Parsed(Query(EncodeName(labels), Dotted(labels), queryType, queryClass, IsAcmeName(labels)),
                  at + |EncodeQuestion(labels, queryType, queryClass)|)
  {
    var end := at + |EncodeName(labels)|;
    EncodedQuestionSplits(labels, queryType, queryClass, bytes, at, end);
    NamedQuestionIsParsed(labels, queryType, queryClass, bytes, at, end);
  }

  lemma NamedQuestionIsParsed(labels: seq<Bytes>, queryType: u16, queryClass: u16, bytes: Bytes, at: nat, end: nat)
    requires NonEmpty(labels) && EncodedAt(labels, bytes, at)
    requires end == at + |EncodeName(labels)| && end + 4 <= |bytes|
    requires U16At(bytes, end) == queryType && U16At(bytes, end + 2) == queryClass
    ensures QuestionFits(bytes, at) && PointerFree(bytes, at) && NameAt(bytes, at) == labels
    ensures ParseQuestion(bytes, at).Parsed? <==> AllAscii(labels) && |EncodeName(labels)| <= 255
    ensures ParseQuestion(bytes, at).Parsed? ==>
      ParseQuestion(bytes, at)
        == Parsed(Query(EncodeName(labels), Dotted(labels), queryType, queryClass, IsAcmeName(labels)), end + 4)
  {
    EncodedQuestionFits(labels, bytes, at, end);
    QuestionOfType(ParseQuestion(bytes, at), bytes, labels, end, queryType, queryClass);
  }

  lemma QuestionOfType(q: ParseResult, bytes: Bytes, labels: seq<Bytes>, end: nat, queryType: u16, queryClass: u16)
    requires NonEmpty(labels) && end + 4 <= |bytes| && q == QuestionFrom(bytes, labels + [[]], end)
    requires U16At(bytes, end) == queryType && U16At(bytes, end + 2) == queryClass
    ensures q.Parsed? <==> AllAscii(labels) && |EncodeName(labels)| <= 255
    ensures q.Parsed? ==>
      q == Parsed(Query(EncodeName(labels), Dotted(labels), queryType, queryClass, IsAcmeName(labels)), end + 4)
  {
    NamedQuestion(bytes, labels, end);
  }

  lemma NameOfLabels(bytes: Bytes, at: nat, labels: seq<Bytes>, end: nat)
    requires LabelsAt(bytes, at) == Labels(labels + [[]], end)
    ensures NameAt(bytes, at) == labels
  {
  }

  lemma EncodedQuestionFits(labels: seq<Bytes>, bytes: Bytes, at: nat, end: nat)
    requires NonEmpty(labels) && EncodedAt(labels, bytes, at)
    requires end == at + |EncodeName(labels)| && end + 4 <= |bytes|
    ensures QuestionFits(bytes, at) && PointerFree(bytes, at) && NameAt(bytes, at) == labels
    ensures LabelsAt(bytes, at).Labels? && LabelsAt(bytes, at).end == end
    ensures ParseQuestion(bytes, at) == QuestionFrom(bytes, labels + [[]], end)
  {
    EncodedNameIsRead(labels, bytes, at);
    EncodedNameIsPointerFree(labels, bytes, at);
    NameOfLabels(bytes, at, labels, end);
    ParseFromLabels(bytes, at, labels + [[]], end);
  }

  lemma U16Stands(n: u16, bytes: Bytes, at: nat)
    requires StandsAt(BigEndian(n, 2), bytes, at)
    ensures U16At(bytes, at) == n
  {
    U16ReadsBack(n);
    var s := bytes[at..at + 2];
    assert s[0] == bytes[at] && s[1] == bytes[at + 1];
  }
}
