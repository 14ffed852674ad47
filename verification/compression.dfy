/** Names with compression pointers: what the program makes of them against section 4.1.4 of RFC 1035. */
module Compression {
  import opened RustInt
  import opened Text
  import opened Wire
  import opened DnsQuery
  import opened Rfc1035

  /** There is no pointer on the way from `at`, or the first one leads to a zero octet. */
  predicate PointsAtRootOnly(bytes: Bytes, at: nat)
    decreases |bytes| - at
  {
    at < |bytes| ==>
      if bytes[at] < 192 then bytes[at] != 0 ==> PointsAtRootOnly(bytes, at + 1 + bytes[at])
      else
        && at + 1 < |bytes| && PointerTarget(bytes, at) < |bytes|
        && bytes[PointerTarget(bytes, at)] == 0
  }

  /** What one ordinary label adds to the program's name and to that of section 4.1.4. */
  lemma OrdinaryStep(bytes: Bytes, at: nat, hops: nat)
    requires LabelsAt(bytes, at).Labels? && 0 < bytes[at] < 64
    ensures LabelOf(bytes, at).Label? && LabelsAt(bytes, at + 1 + bytes[at]).Labels?
    ensures var (part, next) := (LabelOf(bytes, at).part, at + 1 + bytes[at]);
      && LabelsAt(bytes, at).end == LabelsAt(bytes, next).end
      && NameAt(bytes, at) == [part] + NameAt(bytes, next)
      && (PointsAtRootOnly(bytes, at) <==> PointsAtRootOnly(bytes, next))
      && CompressedName(bytes, at, hops) == match CompressedName(bytes, next, hops)
         case None => None
         case Some((labels, end)) => Some(([part] + labels, end))
  {
    var next := at + 1 + bytes[at];
    assert NextLabel(bytes, at).Label?;
    LabelsStep(bytes, at);
    LabelsEndInEmpty(bytes, next);
  }

  /** A name that the program reads is the name of section 4.1.4, with the same end, exactly if it
      has no pointer or its first pointer leads to the root. */
  lemma {:induction false} ReadsAsCompressedIff(bytes: Bytes, at: nat, hops: nat)
    requires LabelsAt(bytes, at).Labels? && hops > 0
    ensures CompressedName(bytes, at, hops) == Some((NameAt(bytes, at), LabelsAt(bytes, at).end))
       <==> PointsAtRootOnly(bytes, at)
    decreases |bytes| - at
  {
    if bytes[at] == 0 {
      LabelsStep(bytes, at);
    } else if bytes[at] < 64 {
      var next := at + 1 + bytes[at];
      OrdinaryStep(bytes, at, hops);
      ReadsAsCompressedIff(bytes, next, hops);
      var rest := CompressedName(bytes, next, hops);
      if rest.Some? {
        OneMoreLabel(LabelOf(bytes, at).part, rest.value.0, NameAt(bytes, next));
      }
    } else {
      PointerIsRootIff(bytes, at, hops);
    }
  }

  lemma OneMoreLabel(part: Bytes, x: seq<Bytes>, y: seq<Bytes>)
    ensures [part] + x == [part] + y <==> x == y
  {
    assert ([part] + x)[1..] == x && ([part] + y)[1..] == y;
  }

  lemma PointerIsRootIff(bytes: Bytes, at: nat, hops: nat)
    requires LabelsAt(bytes, at).Labels? && hops > 0 && bytes[at] >= 192
    ensures CompressedName(bytes, at, hops) == Some((NameAt(bytes, at), LabelsAt(bytes, at).end))
       <==> PointsAtRootOnly(bytes, at)
  {
    var target := PointerTarget(bytes, at);
    QuotientIsUnique(U16At(bytes, at), 0x4000, 3, target);
    PointerStep(bytes, at, target);
    if bytes[target] == 0 {
      assert CompressedName(bytes, target, hops - 1) == Some(([], target + 1));
      assert NameAt(bytes, at) == [];
    } else {
      assert LabelsAt(bytes, at).end > at + 2;
    }
  }

  /** One host's name "a" at 0, and at 3 the name "b" with a pointer to it. */
  const COMPRESSED: Bytes := [1, 0x61, 0, 1, 0x62, 0xC0, 0, 0]

  /** By section 4.1.4 the name at 3 is "b.a" and ends behind the pointer at 7; the program takes the
      next octet for the end of the name and stops at 8. */
  lemma OrdinaryPointerIsMisread()
    ensures CompressedName(COMPRESSED, 3, 1) == Some(([[0x62], [0x61]], 7))
    ensures LabelsAt(COMPRESSED, 3) == Labels([[0x62], [0x61], []], 8)
  {
    var m := COMPRESSED;
    var a, b: Bytes := [0x61], [0x62];
    assert m[1..2] == a && m[4..5] == b;
    assert CompressedName(m, 2, 0) == Some(([], 3));
    assert CompressedName(m, 0, 0) == Some(([a], 3)) by { assert [a] + [] == [a]; }
    assert PointerTarget(m, 5) == 0;
    assert CompressedName(m, 5, 1) == Some(([a], 7));
    assert [b] + [a] == [b, a];
    assert LabelOf(m, 0) == Label(a, 2) && LabelOf(m, 3) == Label(b, 5);
    assert FrontAt([b], m, 3, 5) by { assert [b][1..] == []; }
    PointerCopiesOneLabel([b], m, 3, 5, 0);
    LabelsStep(m, 7);
    assert LabelsAt(m, 7) == Labels([[]], 8);
    assert [b] + [a] + [[]] == [b, a, []];
  }
}
