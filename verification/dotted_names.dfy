/** What the dotted form of a name, the key of the challenge store, says about its labels. */
module DottedNames {
  import opened Text
  import opened Wire

  /** No octet is a dot. */
  predicate DotFree(s: Bytes) {
    forall i :: 0 <= i < |s| ==> s[i] != 46
  }

  predicate AllDotFree(labels: seq<Bytes>) {
    forall i :: 0 <= i < |labels| ==> DotFree(labels[i])
  }

  /** The pieces of a text between its dots. */
  function SplitAtDots(s: Bytes): (r: seq<Bytes>)
    ensures r != [] && AllDotFree(r)
  {
    if s == [] then [[]]
    else
      var rest := SplitAtDots(s[1..]);
      if s[0] == 46 then [[]] + rest else [[s[0]] + rest[0]] + rest[1..]
  }

  lemma {:induction false} SplitBehindLabel(part: Bytes, rest: Bytes)
    requires DotFree(part)
    ensures SplitAtDots(part + rest) == [part + SplitAtDots(rest)[0]] + SplitAtDots(rest)[1..]
  {
    var s := part + rest;
    if part == [] {
      assert s == rest && [] + SplitAtDots(rest)[0] == SplitAtDots(rest)[0];
    } else {
      SplitBehindLabel(part[1..], rest);
      assert s[1..] == part[1..] + rest && s[0] == part[0];
      assert [part[0]] + (part[1..] + SplitAtDots(rest)[0]) == part + SplitAtDots(rest)[0];
    }
  }

  /** The dotted form says which labels it was made of, exactly if none of them holds a dot. */
  lemma {:induction false} DottedSplitsIff(labels: seq<Bytes>)
    requires labels != []
    ensures SplitAtDots(Dotted(labels)) == labels <==> AllDotFree(labels)
  {
    if AllDotFree(labels) {
      var part, more := labels[0], labels[1..];
      if more == [] {
        SplitBehindLabel(part, []);
        assert part + [] == part && [part] + [] == labels;
      } else {
        DottedSplitsIff(more);
        var rest: Bytes := [46] + Dotted(more);
        assert rest[1..] == Dotted(more) && SplitAtDots(rest) == [[]] + more;
        SplitBehindLabel(part, rest);
        assert Dotted(labels) == part + rest && part + [] == part;
      }
    }
  }

  /** Dotted forms agree up to case exactly if the labels do, one by one, as long as none holds a dot. */
  lemma {:induction false} DottedAgreeIff(x: seq<Bytes>, y: seq<Bytes>)
    requires NonEmpty(x) && NonEmpty(y) && AllDotFree(x) && AllDotFree(y)
    ensures EqIgnoreCase(Dotted(x), Dotted(y)) <==>
      |x| == |y| && forall i :: 0 <= i < |x| ==> EqIgnoreCase(x[i], y[i])
    decreases |x|
  {
    if x == [] || y == [] {
    } else {
      var x', y' := DottedTail(x), DottedTail(y);
      assert Dotted(x) == x[0] + x' && Dotted(y) == y[0] + y';
      if |x[0]| == |y[0]| {
        EqIgnoreCaseSplits(x[0], x', y[0], y');
        TailsAgreeIff(x, y);
        DottedAgreeIff(x[1..], y[1..]);
        assert x == [x[0]] + x[1..] && y == [y[0]] + y[1..];
      } else {
        FirstLabelsDiffer(x, y);
      }
    }
  }

  /** What follows the first label. */
  function DottedTail(labels: seq<Bytes>): Bytes
    requires labels != []
  {
    if |labels| == 1 then [] else [46] + Dotted(labels[1..])
  }

  lemma TailsAgreeIff(x: seq<Bytes>, y: seq<Bytes>)
    requires x != [] && y != [] && NonEmpty(x) && NonEmpty(y)
    ensures EqIgnoreCase(DottedTail(x), DottedTail(y)) <==> EqIgnoreCase(Dotted(x[1..]), Dotted(y[1..]))
  {
    if |x| > 1 && |y| > 1 {
      EqIgnoreCaseSplits([46], Dotted(x[1..]), [46], Dotted(y[1..]));
    } else {
      assert |x| > 1 ==> |x[1]| > 0;
      assert |y| > 1 ==> |y[1]| > 0;
    }
  }

  lemma FirstLabelsDiffer(x: seq<Bytes>, y: seq<Bytes>)
    requires x != [] && y != [] && AllDotFree(x) && AllDotFree(y) && |x[0]| != |y[0]|
    ensures !EqIgnoreCase(x[0] + DottedTail(x), y[0] + DottedTail(y))
  {
    var s, t := x[0] + DottedTail(x), y[0] + DottedTail(y);
    if |x[0]| < |y[0]| {
      assert |s| > |x[0]| ==> s[|x[0]|] == 46;
      assert t[|x[0]|] == y[0][|x[0]|];
    } else {
      assert |t| > |y[0]| ==> t[|y[0]|] == 46;
      assert s[|y[0]|] == x[0][|y[0]|];
    }
  }

  /** A dot within a label shows as one between labels. */
  lemma DotInLabelCollides()
    ensures Dotted([[0x61], [0x62, 46, 0x63]]) == Dotted([[0x61], [0x62], [0x63]])
  {
    assert Dotted([[0x62], [0x63]]) == [0x62, 46, 0x63];
  }
}
