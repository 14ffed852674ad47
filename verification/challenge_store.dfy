/** `Challenges`: a list of at most 100 registered challenges, oldest first. */
module ChallengeStore {
  import opened Text

  const MAX_LEN := 100

  datatype Challenge = Challenge(domain: Bytes, name: Bytes, value: Bytes) {
    predicate Matches(query: Bytes) { EqIgnoreCase(name, query) }
  }

  /** The values registered under a name, oldest first. */
  function ValuesOf(items: seq<Challenge>, name: Bytes): seq<Bytes> {
    if items == [] then []
    else (if items[0].Matches(name) then [items[0].value] else []) + ValuesOf(items[1..], name)
  }

  /** The list without any challenge equal to `c`. */
  function Without(items: seq<Challenge>, c: Challenge): seq<Challenge> {
    if items == [] then []
    else (if items[0] == c then [] else [items[0]]) + Without(items[1..], c)
  }

  /** The list after registering `c`: the oldest challenge gives way when there are too many. */
  function With(items: seq<Challenge>, c: Challenge): seq<Challenge> {
    var longer := items + [c];
    if |longer| > MAX_LEN then longer[1..] else longer
  }

  class Challenges {
    var items: seq<Challenge>

    predicate Valid()
      reads this
    {
      |items| <= MAX_LEN
    }

    constructor ()
      ensures Valid() && items == []
    {
      items := [];
    }

    method Any(name: Bytes) returns (found: bool)
      ensures found <==> exists c :: c in items && c.Matches(name)
    {
      for i := 0 to |items|
        invariant forall j :: 0 <= j < i ==> !items[j].Matches(name)
      {
        if items[i].Matches(name) {
          return true;
        }
      }
      return false;
    }

    function Named(name: Bytes): seq<Bytes>
      reads this
    {
      ValuesOf(items, name)
    }

    method Set(challenge: Challenge)
      requires Valid()
      modifies this
      ensures Valid() && items == With(old(items), challenge)
    {
      items := items + [challenge];
      if |items| > MAX_LEN {
        items := items[1..];
      }
    }

    method Cleanup(challenge: Challenge)
      requires Valid()
      modifies this
      ensures Valid() && items == Without(old(items), challenge)
    {
      var kept: seq<Challenge> := [];
      for i := 0 to |items|
        invariant items == old(items)
        invariant kept + Without(items[i..], challenge) == Without(items, challenge)
        invariant |kept| <= i
      {
        assert items[i..][1..] == items[i + 1..];
        if items[i] != challenge {
          kept := kept + [items[i]];
        }
      }
      items := kept;
    }
  }

  // What the list functions mean.

  /** A value is answered for a name exactly if a stored challenge with that name, in any case,
      carries it. */
  lemma {:induction false} ValuesOfHolds(items: seq<Challenge>, name: Bytes, v: Bytes)
    ensures v in ValuesOf(items, name) <==> exists c :: c in items && c.Matches(name) && c.value == v
  {
    if items == [] {
    } else {
      ValuesOfHolds(items[1..], name, v);
      assert items == [items[0]] + items[1..];
    }
  }

  /** Some stored challenge has this name: the same length and the same octets, up to the case of
      letters. */
  predicate IsRegistered(items: seq<Challenge>, name: Bytes) {
    exists i :: 0 <= i < |items| && IsNamed(items[i], name)
  }

  predicate IsNamed(c: Challenge, name: Bytes) {
    |c.name| == |name| && forall i :: 0 <= i < |name| ==> SameUpToCase(c.name[i], name[i])
  }

  /** The lookup finds something exactly under the names that are registered. */
  lemma FoundIffRegistered(items: seq<Challenge>, name: Bytes)
    ensures ValuesOf(items, name) != [] <==> IsRegistered(items, name)
    ensures forall c: Challenge :: c.Matches(name) <==> IsNamed(c, name)
  {
    NoValuesIffNoMatch(items, name);
    forall c: Challenge ensures c.Matches(name) <==> IsNamed(c, name) {
      EqIgnoreCaseMeans(c.name, name);
    }
  }

  /** There is a value exactly if some stored challenge matches. */
  lemma {:induction false} NoValuesIffNoMatch(items: seq<Challenge>, name: Bytes)
    ensures ValuesOf(items, name) != [] <==> exists c :: c in items && c.Matches(name)
    ensures |ValuesOf(items, name)| <= |items|
  {
    if items == [] {
    } else {
      NoValuesIffNoMatch(items[1..], name);
      assert items == [items[0]] + items[1..];
    }
  }

  /** Values of a list of lists come in list order: registration order is kept. */
  lemma {:induction false} ValuesOfConcat(x: seq<Challenge>, y: seq<Challenge>, name: Bytes)
    ensures ValuesOf(x + y, name) == ValuesOf(x, name) + ValuesOf(y, name)
  {
    if x == [] {
      assert x + y == y;
    } else {
      assert (x + y)[1..] == x[1..] + y;
      ValuesOfConcat(x[1..], y, name);
    }
  }

  lemma {:induction false} WithoutConcat(x: seq<Challenge>, y: seq<Challenge>, c: Challenge)
    ensures Without(x + y, c) == Without(x, c) + Without(y, c)
  {
    if x == [] {
      assert x + y == y;
    } else {
      assert (x + y)[1..] == x[1..] + y;
      WithoutConcat(x[1..], y, c);
    }
  }

  lemma {:induction false} WithoutDropsOnly(x: seq<Challenge>, c: Challenge)
    ensures |Without(x, c)| <= |x|
    ensures forall d :: d in Without(x, c) <==> d in x && d != c
  {
    if x == [] {
    } else {
      WithoutDropsOnly(x[1..], c);
      assert x == [x[0]] + x[1..];
    }
  }

  // Whole runs.

  datatype Op = Register(challenge: Challenge) | Remove(challenge: Challenge)

  function Apply(items: seq<Challenge>, op: Op): seq<Challenge> {
    match op
    case Register(c) => With(items, c)
    case Remove(c) => Without(items, c)
  }

  /** The store after a run. */
  function RunStore(items: seq<Challenge>, ops: seq<Op>): seq<Challenge>
    decreases |ops|
  {
    if ops == [] then items else RunStore(Apply(items, ops[0]), ops[1..])
  }

  /** A store without a bound, on one operation. */
  function ApplyUnbounded(items: seq<Challenge>, op: Op): seq<Challenge> {
    match op
    case Register(c) => items + [c]
    case Remove(c) => Without(items, c)
  }

  function RunUnbounded(items: seq<Challenge>, ops: seq<Op>): seq<Challenge>
    decreases |ops|
  {
    if ops == [] then items else RunUnbounded(ApplyUnbounded(items, ops[0]), ops[1..])
  }

  /** The unbounded store holds at most 100 challenges throughout. */
  predicate NeverExceeds(items: seq<Challenge>, ops: seq<Op>)
    decreases |ops|
  {
    |items| <= 100 && (ops == [] || NeverExceeds(ApplyUnbounded(items, ops[0]), ops[1..]))
  }

  /** `x` is a suffix of `y`. */
  predicate IsSuffix(x: seq<Challenge>, y: seq<Challenge>) {
    |x| <= |y| && x == y[|y| - |x|..]
  }

  lemma ApplyKeepsSuffix(x: seq<Challenge>, y: seq<Challenge>, op: Op)
    requires IsSuffix(x, y) && |x| <= 100
    ensures IsSuffix(Apply(x, op), ApplyUnbounded(y, op)) && |Apply(x, op)| <= 100
  {
    var front := y[..|y| - |x|];
    assert y == front + x;
    match op
    case Register(c) =>
      assert y + [c] == front + (x + [c]);
    case Remove(c) =>
      WithoutConcat(front, x, c);
      WithoutDropsOnly(x, c);
  }

  /** The store is always the newest part of what an unbounded store would hold. */
  lemma {:induction false} StoreIsSuffix(x: seq<Challenge>, y: seq<Challenge>, ops: seq<Op>)
    requires IsSuffix(x, y) && |x| <= 100
    ensures IsSuffix(RunStore(x, ops), RunUnbounded(y, ops)) && |RunStore(x, ops)| <= 100
    decreases |ops|
  {
    if ops == [] {
    } else {
      ApplyKeepsSuffix(x, y, ops[0]);
      StoreIsSuffix(Apply(x, ops[0]), ApplyUnbounded(y, ops[0]), ops[1..]);
    }
  }

  /** The bound does not show as long as it is not exceeded. */
  lemma {:induction false} StoreIsUnboundedWhileItFits(x: seq<Challenge>, ops: seq<Op>)
    requires NeverExceeds(x, ops)
    ensures RunStore(x, ops) == RunUnbounded(x, ops)
    decreases |ops|
  {
    if ops == [] {
    } else {
      StoreIsUnboundedWhileItFits(Apply(x, ops[0]), ops[1..]);
    }
  }

  function Registrations(ops: seq<Op>): nat {
    if ops == [] then 0 else (if ops[0].Register? then 1 else 0) + Registrations(ops[1..])
  }

  /** A stored challenge stays until it is removed or has 100 newer ones behind it. */
  lemma {:induction false} ChallengeStays(x: seq<Challenge>, i: nat, ops: seq<Op>)
    requires i < |x| <= 100
    requires Remove(x[i]) !in ops
    requires |x| - i + Registrations(ops) <= 100
    ensures x[i] in RunStore(x, ops)
    decreases |ops|
  {
    if ops == [] {
    } else {
      var c := x[i];
      assert ops == [ops[0]] + ops[1..];
      match ops[0]
      case Register(d) =>
        var y := With(x, d);
        ChallengeStays(y, if |x| == 100 then i - 1 else i, ops[1..]);
      case Remove(d) =>
        var newer := x[i + 1..];
        assert x == x[..i] + ([c] + newer);
        WithoutConcat(x[..i], [c] + newer, d);
        WithoutConcat([c], newer, d);
        WithoutDropsOnly(newer, d);
        WithoutDropsOnly(x, d);
        assert Without([c], d) == [c];
        var j := |Without(x[..i], d)|;
        assert Without(x, d)[j] == c;
        ChallengeStays(Without(x, d), j, ops[1..]);
    }
  }

  /** A registered challenge is kept until it is removed or 100 more have been registered. */
  lemma RegisteredIsKept(before: seq<Op>, c: Challenge, after: seq<Op>)
    requires Remove(c) !in after && Registrations(after) < 100
    ensures c in RunStore([], before + [Register(c)] + after)
  {
    StoreIsSuffix([], [], before);
    var x := RunStore([], before);
    var y := With(x, c);
    assert y[|y| - 1] == c;
    ChallengeStays(y, |y| - 1, after);
    RunStoreConcat([], before + [Register(c)], after);
    RunStoreConcat([], before, [Register(c)]);
    assert [Register(c)][1..] == [];
  }

  lemma {:induction false} RunStoreConcat(x: seq<Challenge>, a: seq<Op>, b: seq<Op>)
    ensures RunStore(x, a + b) == RunStore(RunStore(x, a), b)
    decreases |a|
  {
    if a == [] {
      assert a + b == b;
    } else {
      assert (a + b)[1..] == a[1..] + b;
      RunStoreConcat(Apply(x, a[0]), a[1..], b);
    }
  }

  /** The newest 100. */
  function Newest(all: seq<Challenge>): seq<Challenge> {
    if |all| <= 100 then all else all[|all| - 100..]
  }

  lemma WithKeepsNewest(x: seq<Challenge>, c: Challenge, rest: seq<Challenge>)
    requires |x| <= 100
    ensures |With(x, c)| <= 100 && Newest(With(x, c) + rest) == Newest(x + [c] + rest)
  {
    var all := x + [c] + rest;
    assert With(x, c) + rest == if |x| == 100 then all[1..] else all;
  }

  /** The limit is sharp: 100 registrations and no removal leave exactly those 100. */
  lemma {:induction false} RegistrationsPushOut(x: seq<Challenge>, cs: seq<Challenge>, ops: seq<Op>)
    requires |x| <= 100 && |ops| == |cs| && forall i :: 0 <= i < |cs| ==> ops[i] == Register(cs[i])
    ensures RunStore(x, ops) == Newest(x + cs)
    decreases |ops|
  {
    if ops == [] {
      assert x + cs == x;
    } else {
      assert ops[0] == Register(cs[0]);
      WithKeepsNewest(x, cs[0], cs[1..]);
      RegistrationsPushOut(With(x, cs[0]), cs[1..], ops[1..]);
      assert x + [cs[0]] + cs[1..] == x + cs;
    }
  }

  /** Once it has been removed, a challenge is gone until it is registered again. */
  lemma RemovedIsGone(before: seq<Op>, c: Challenge, after: seq<Op>)
    requires Register(c) !in after
    ensures c !in RunStore([], before + [Remove(c)] + after)
  {
    WithoutDropsOnly(RunStore([], before), c);
    RunStoreConcat([], before + [Remove(c)], after);
    RunStoreConcat([], before, [Remove(c)]);
    assert [Remove(c)][1..] == [];
    AbsentStaysAbsent(Without(RunStore([], before), c), c, after);
  }

  lemma {:induction false} AbsentStaysAbsent(x: seq<Challenge>, c: Challenge, ops: seq<Op>)
    requires Register(c) !in ops && c !in x
    ensures c !in RunStore(x, ops)
    decreases |ops|
  {
    if ops == [] {
    } else {
      assert ops == [ops[0]] + ops[1..];
      if ops[0].Remove? {
        WithoutDropsOnly(x, ops[0].challenge);
      }
      AbsentStaysAbsent(Apply(x, ops[0]), c, ops[1..]);
    }
  }
}
