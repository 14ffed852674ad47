/** A run in which purging shows: an address sends in the second its block ends, while the table is
    full. */
module RateLimiterEdge {
  import opened RustInt
  import opened RateLimiter
  import opened RateLimiterRuns

  /** The addresses 10.0.0.1, 10.0.0.2 and so on. */
  function Host(n: nat): IpAddr {
    V4(0x0A00_0001 + n)
  }

  function Burst(n: nat): seq<Request> {
    if n == 0 then [] else [Request(Host(0), 0)] + Burst(n - 1)
  }

  function Crowd(n: nat): seq<Request> {
    if n == 0 then [] else [Request(Host(n), 600)] + Crowd(n - 1)
  }

  lemma {:induction false} RunConcat(t: Table, x: seq<Request>, y: seq<Request>)
    ensures Run(t, x + y) == Run(Run(t, x), y)
    decreases |x|
  {
    if x == [] {
      assert x + y == y;
    } else {
      assert (x + y)[1..] == x[1..] + y;
      RunConcat(Serve(t, x[0].addr, x[0].now).table, x[1..], y);
    }
  }

  lemma AdmittedStep(t: Table, x: seq<Request>, a: IpAddr)
    requires x != []
    ensures Admitted(t, x, a) == Admitted(t, [x[0]], a) + Admitted(Serve(t, x[0].addr, x[0].now).table, x[1..], a)
  {
    assert [x[0]][1..] == [];
  }

  lemma {:induction false} AdmittedConcat(t: Table, x: seq<Request>, y: seq<Request>, a: IpAddr)
    ensures Admitted(t, x + y, a) == Admitted(t, x, a) + Admitted(Run(t, x), y, a)
    decreases |x|
  {
    if x == [] {
      assert x + y == y;
    } else {
      assert (x + y)[1..] == x[1..] + y;
      var next := Serve(t, x[0].addr, x[0].now).table;
      AdmittedConcat(next, x[1..], y, a);
      AdmittedStep(t, x, a);
      AdmittedStep(t, x + y, a);
      assert (Admitted(t, [x[0]], a) + Admitted(next, x[1..], a)) + Admitted(Run(next, x[1..]), y, a)
          == Admitted(t, [x[0]], a) + (Admitted(next, x[1..], a) + Admitted(Run(next, x[1..]), y, a));
    }
  }

  lemma AnswersStep(t: Table, x: seq<Request>, a: IpAddr)
    requires x != []
    ensures Answers(t, x, a) == Answers(t, [x[0]], a) + Answers(Serve(t, x[0].addr, x[0].now).table, x[1..], a)
  {
    assert [x[0]][1..] == [];
  }

  lemma {:induction false} AnswersConcat(t: Table, x: seq<Request>, y: seq<Request>, a: IpAddr)
    ensures Answers(t, x + y, a) == Answers(t, x, a) + Answers(Run(t, x), y, a)
    decreases |x|
  {
    if x == [] {
      assert x + y == y;
    } else {
      assert (x + y)[1..] == x[1..] + y;
      var next := Serve(t, x[0].addr, x[0].now).table;
      AnswersConcat(next, x[1..], y, a);
      AnswersStep(t, x, a);
      AnswersStep(t, x + y, a);
      assert (Answers(t, [x[0]], a) + Answers(next, x[1..], a)) + Answers(Run(next, x[1..]), y, a)
          == Answers(t, [x[0]], a) + (Answers(next, x[1..], a) + Answers(Run(next, x[1..]), y, a));
    }
  }

  lemma {:induction false} SoloConcat(s: Option<State>, x: seq<int>, y: seq<int>)
    ensures SoloAnswers(s, x + y) == SoloAnswers(s, x) + SoloAnswers(SoloState(s, x), y)
    decreases |x|
  {
    if x == [] {
      assert x + y == y;
    } else {
      assert (x + y)[1..] == x[1..] + y;
      SoloConcat(Some(Advance(s, x[0]).0), x[1..], y);
    }
  }

  lemma {:induction false} BurstBlocks(n: nat, t: Table)
    requires 1 <= n <= 100
    requires t == if n == 100 then map[] else map[Host(0) := KnownSince(0, 100 - n)]
    ensures Run(t, Burst(n)) == map[Host(0) := BlockedUntil(600)]
    ensures SoloState(Lookup(t, Host(0)), Admitted(t, Burst(n), Host(0))) == Some(BlockedUntil(600))
    ensures Ordered(Burst(n), 0)
    decreases n
  {
    var o := Serve(t, Host(0), 0);
    assert Burst(n)[1..] == Burst(n - 1);
    if n == 1 {
      assert o.table == map[Host(0) := BlockedUntil(600)];
      assert Burst(0) == [];
    } else {
      assert o.table == map[Host(0) := KnownSince(0, 101 - n)];
      BurstBlocks(n - 1, o.table);
    }
    var rest := Admitted(o.table, Burst(n - 1), Host(0));
    assert Admitted(t, Burst(n), Host(0)) == [0] + rest;
  }

  lemma {:induction false} CrowdFillsTheTable(n: nat, t: Table)
    requires |t| + n <= 100 && Host(0) in t && forall i :: 1 <= i <= n ==> Host(i) !in t
    ensures |Run(t, Crowd(n))| == |t| + n
    ensures Host(0) in Run(t, Crowd(n)) && Run(t, Crowd(n))[Host(0)] == t[Host(0)]
    ensures Admitted(t, Crowd(n), Host(0)) == []
    decreases n
  {
    if n == 0 {
    } else {
      assert Crowd(n)[1..] == Crowd(n - 1);
      var o := Serve(t, Host(n), 600);
      assert o.table == t[Host(n) := KnownSince(600, 1)];
      CrowdFillsTheTable(n - 1, o.table);
    }
  }

  lemma {:induction false} CrowdIsOrdered(n: nat)
    ensures Ordered(Crowd(n), 600)
  {
    if n == 0 {
    } else {
      assert Crowd(n)[1..] == Crowd(n - 1);
      CrowdIsOrdered(n - 1);
    }
  }

  lemma {:induction false} OrderedConcat(x: seq<Request>, y: seq<Request>, last: int, mid: int)
    requires Ordered(x, last) && Ordered(y, mid) && last <= mid
    requires forall i :: 0 <= i < |x| ==> x[i].now <= mid
    ensures Ordered(x + y, last)
    decreases |x|
  {
    if x == [] {
      assert x + y == y;
    } else {
      assert (x + y)[1..] == x[1..] + y;
      OrderedConcat(x[1..], y, x[0].now, mid);
    }
  }

  lemma {:induction false} BurstAndCrowdReadings(n: nat)
    ensures forall i :: 0 <= i < |Burst(n)| ==> Burst(n)[i].now == 0
    ensures forall i :: 0 <= i < |Crowd(n)| ==> Crowd(n)[i].now == 600
  {
    if n == 0 {
    } else {
      BurstAndCrowdReadings(n - 1);
    }
  }

  /** How many others it takes to fill the table. */
  const OTHERS: nat := 99

  /** The first host is blocked by a burst at second 0; at 600 the others come, and then it again. */
  function EdgeRun(): seq<Request> {
    Burst(OTHERS + 1) + Crowd(OTHERS) + [Request(Host(0), 600)]
  }

  lemma EdgeRunIsOrdered()
    ensures Ordered(EdgeRun(), 0)
  {
    BurstBlocks(OTHERS + 1, map[]);
    CrowdIsOrdered(OTHERS);
    BurstAndCrowdReadings(OTHERS + 1);
    BurstAndCrowdReadings(OTHERS);
    OrderedConcat(Burst(OTHERS + 1), Crowd(OTHERS), 0, 600);
    var last := [Request(Host(0), 600)];
    assert last[1..] == [];
    OrderedConcat(Burst(OTHERS + 1) + Crowd(OTHERS), last, 0, 600);
  }

  lemma EdgePrefix()
    ensures var t := Run(map[], Burst(OTHERS + 1) + Crowd(OTHERS));
      |t| == 100 && Host(0) in t && t[Host(0)] == BlockedUntil(600)
    ensures SoloState(None, Admitted(map[], Burst(OTHERS + 1) + Crowd(OTHERS), Host(0))) == Some(BlockedUntil(600))
  {
    BurstBlocks(OTHERS + 1, map[]);
    CrowdFillsTheTable(OTHERS, Run(map[], Burst(OTHERS + 1)));
    RunConcat(map[], Burst(OTHERS + 1), Crowd(OTHERS));
    AdmittedConcat(map[], Burst(OTHERS + 1), Crowd(OTHERS), Host(0));
    var times := Admitted(map[], Burst(OTHERS + 1), Host(0));
    assert times + [] == times && Lookup(map[], Host(0)) == None;
  }

  lemma EdgeAnswersDiffer()
    ensures Answers(map[], EdgeRun(), Host(0)) != SoloAnswers(None, Admitted(map[], EdgeRun(), Host(0)))
  {
    var prefix, last := Burst(OTHERS + 1) + Crowd(OTHERS), [Request(Host(0), 600)];
    EdgePrefix();
    EdgePurge(Run(map[], prefix));
    AnswersConcat(map[], prefix, last, Host(0));
    AdmittedConcat(map[], prefix, last, Host(0));
    var answers := Answers(map[], EdgeRun(), Host(0));
    assert answers[|answers| - 1] == Ok;

    var times := Admitted(map[], prefix, Host(0));
    SoloConcat(None, times, [600]);
    var solo := SoloAnswers(None, times + [600]);
    assert solo[|solo| - 1] == Block;
  }

  /** On the edge the answers do differ: blocked at 0, the host is let in at 600 because the table
      was full and purged, while its own automaton still refuses it in that second. */
  lemma PurgingOnTheEdgeShows()
    ensures Ordered(EdgeRun(), 0)
    ensures !NeverPurgedOnEdge(map[], None, EdgeRun(), Host(0))
    ensures Answers(map[], EdgeRun(), Host(0)) != SoloAnswers(None, Admitted(map[], EdgeRun(), Host(0)))
  {
    EdgeRunIsOrdered();
    EdgeAnswersDiffer();
    InStepIffNeverPurgedOnEdge(map[], EdgeRun(), Host(0), None, 0);
    if NeverPurgedOnEdge(map[], None, EdgeRun(), Host(0)) {
      InStepGivesAnswers(map[], EdgeRun(), Host(0), None);
      assert false;
    }
  }

  lemma EdgePurge(t: Table)
    requires |t| == 100 && Host(0) in t && t[Host(0)] == BlockedUntil(600)
    ensures var last := [Request(Host(0), 600)];
      Admitted(t, last, Host(0)) == [600] && Answers(t, last, Host(0)) == [Ok]
    ensures SoloAnswers(Some(BlockedUntil(600)), [600]) == [Block]
  {
    var p := Purge(t, 600);
    assert Host(0) in t.Keys && Host(0) !in p.Keys && p.Keys <= t.Keys;
    SubsetSize(p.Keys, t.Keys);
    assert [Request(Host(0), 600)][1..] == [] && [600][1..] == [];
  }
}
