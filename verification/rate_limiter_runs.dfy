/** What the rate limiter guarantees over whole runs of requests from many addresses. */
module RateLimiterRuns {
  import opened RustInt
  import opened RateLimiter

  datatype Request = Request(addr: IpAddr, now: int)

  /** The table after a run. */
  function Run(t: Table, reqs: seq<Request>): Table
    decreases |reqs|
  {
    if reqs == [] then t else Run(Serve(t, reqs[0].addr, reqs[0].now).table, reqs[1..])
  }

  /** Clock readings never go back, and none is before `last`. */
  predicate Ordered(reqs: seq<Request>, last: int) {
    reqs == [] || (last <= reqs[0].now && Ordered(reqs[1..], reqs[0].now))
  }

  // One request.

  /** The 60 seconds of a window, or the time of a block, are not over at `now`. */
  predicate Running(s: State, now: int) {
    match s
    case KnownSince(start, _) => now < start + 60
    case BlockedUntil(end) => now < end
  }

  /** A request is turned away at capacity exactly if the table holds 100 entries and none of them has
      expired, whether its address is among them or not; nothing changes then. */
  lemma FullTableRefuses(t: Table, a: IpAddr, now: int)
    requires Bounded(t)
    ensures Serve(t, a, now).atCapacity <==> |t| == 100 && forall b :: b in t ==> Running(t[b], now)
    ensures Serve(t, a, now).atCapacity ==> Serve(t, a, now) == Outcome(t, Block, true)
  {
    PurgeKeepsBounded(t, now);
    var p := Purge(t, now);
    assert forall b :: b in p <==> b in t && Running(t[b], now);
    if forall b :: b in t ==> Running(t[b], now) {
      assert p == t;
    }
  }

  /** Otherwise the others keep their entries, but a full table loses those that have expired. */
  lemma OthersAreLeftAlone(t: Table, a: IpAddr, now: int, b: IpAddr)
    requires Bounded(t) && b != a
    ensures Lookup(Serve(t, a, now).table, b)
         == if b in t && (|t| < 100 || Running(t[b], now)) then Some(t[b]) else None
  {
  }

  /** The entry that a request of `a` finds, still in time for it: a window or a block counts through
      the second in which it ends, unless a full table has just lost it. */
  predicate Counts(t: Table, a: IpAddr, now: int) {
    a in t && Running(t[a], if |t| < 100 then now - 1 else now)
  }

  /** Exactly which requests are refused: those turned away at capacity, those within a block, and the
      hundredth within a window. */
  lemma RefusedIff(t: Table, a: IpAddr, now: int)
    requires Bounded(t)
    ensures Serve(t, a, now).result == Block <==>
      || (|t| == 100 && forall b :: b in t ==> Running(t[b], now))
      || (Counts(t, a, now) && (t[a].BlockedUntil? || t[a].count == 99))
  {
    FullTableRefuses(t, a, now);
  }

  /** What becomes of the entry of an admitted request: a new window, one more in the open one, or a
      block of 600 seconds in place of the hundredth. */
  lemma EntryAfterwards(t: Table, a: IpAddr, now: int)
    requires Bounded(t) && !(|t| == 100 && forall b :: b in t ==> Running(t[b], now))
    ensures var next := Lookup(Serve(t, a, now).table, a);
      next == if !Counts(t, a, now) then Some(KnownSince(now, 1))
              else if t[a].BlockedUntil? then Some(t[a])
              else if t[a].count == 99 then Some(BlockedUntil(now + 600))
              else Some(KnownSince(t[a].start, t[a].count + 1))
  {
    FullTableRefuses(t, a, now);
  }

  // Reachable states.

  /** Windows start no later than the last reading; blocks end no later than 600 seconds after it. */
  predicate Dated(t: Table, last: int) {
    forall a :: a in t ==> match t[a]
      case KnownSince(start, _) => start <= last
      case BlockedUntil(end) => end <= last + 600
  }

  lemma ServeKeepsDated(t: Table, a: IpAddr, last: int, now: int)
    requires Dated(t, last) && last <= now
    ensures Dated(Serve(t, a, now).table, now)
  {
  }

  /** Every reachable table is bounded, even if the clock jumps. */
  lemma {:induction false} RunKeepsBounded(t: Table, reqs: seq<Request>)
    requires Bounded(t)
    ensures Bounded(Run(t, reqs))
    decreases |reqs|
  {
    if reqs == [] {
    } else {
      ServeKeepsBounded(t, reqs[0].addr, reqs[0].now);
      RunKeepsBounded(Serve(t, reqs[0].addr, reqs[0].now).table, reqs[1..]);
    }
  }

  /** Every reachable table is bounded, and dated by the last clock reading. */
  lemma {:induction false} RunKeepsInvariant(t: Table, reqs: seq<Request>, last: int)
    requires Bounded(t) && Dated(t, last) && Ordered(reqs, last)
    ensures Bounded(Run(t, reqs))
    ensures Dated(Run(t, reqs), if reqs == [] then last else reqs[|reqs| - 1].now)
    decreases |reqs|
  {
    if reqs == [] {
    } else {
      var r := reqs[0];
      ServeKeepsBounded(t, r.addr, r.now);
      ServeKeepsDated(t, r.addr, last, r.now);
      RunKeepsInvariant(Serve(t, r.addr, r.now).table, reqs[1..], r.now);
    }
  }

  // Quota.

  /** How many requests of `a` with a reading in [from, to) get `Ok`. */
  function OkCount(t: Table, reqs: seq<Request>, a: IpAddr, from: int, to: int): nat
    decreases |reqs|
  {
    if reqs == [] then 0
    else
      var r := reqs[0];
      var o := Serve(t, r.addr, r.now);
      (if r.addr == a && from <= r.now < to && o.result == Ok then 1 else 0)
        + OkCount(o.table, reqs[1..], a, from, to)
  }

  /** Windows that fit into `seconds`, a started one counting as whole. */
  function Windows(seconds: int): nat {
    if seconds <= 0 then 0 else (seconds + 59) / 60
  }

  function Max(x: int, y: int): int {
    if x > y then x else y
  }

  /** The most `Ok`s an address in state `s` can still get from `now` on, before `to`: what its open
      window leaves, and 99 for each window that can start afterwards. */
  function Budget(s: Option<State>, now: int, to: int): int {
    match s
    case None => 99 * Windows(to - now)
    case Some(KnownSince(start, count)) =>
      (if now <= start + 60 && now < to then 99 - count else 0)
        + 99 * Windows(to - Max(now, start + 60))
    case Some(BlockedUntil(end)) => 99 * Windows(to - Max(now, end))
  }

  lemma WindowsMonotone(x: int, y: int)
    requires x <= y
    ensures Windows(x) <= Windows(y)
  {
  }

  lemma BudgetShrinks(s: Option<State>, last: int, now: int, to: int)
    requires last <= now
    requires s.Some? && s.value.KnownSince? ==> s.value.count < RATE_LIMIT
    ensures 0 <= Budget(s, now, to) <= Budget(s, last, to)
  {
    match s
    case None => WindowsMonotone(to - now, to - last);
    case Some(KnownSince(start, _)) =>
      WindowsMonotone(to - Max(now, start + 60), to - Max(last, start + 60));
    case Some(BlockedUntil(end)) =>
      WindowsMonotone(to - Max(now, end), to - Max(last, end));
  }

  /** Forgetting an expired state gains nothing. */
  lemma PurgingIsFree(s: State, now: int, to: int)
    requires now >= Expiry(s)
    requires s.KnownSince? ==> s.count < RATE_LIMIT
    ensures Budget(None, now, to) <= Budget(Some(s), now, to)
  {
  }

  /** An `Ok` is paid for out of the budget. */
  lemma AdvancePays(s: Option<State>, now: int, to: int)
    requires now < to
    requires s.Some? && s.value.KnownSince? ==> 1 <= s.value.count < RATE_LIMIT && s.value.start <= now
    ensures var (s', r) := Advance(s, now);
      (if r == Ok then 1 else 0) + Budget(Some(s'), now, to) <= Budget(s, now, to)
  {
  }

  lemma ServePays(t: Table, r: Request, a: IpAddr, last: int, to: int)
    requires Bounded(t) && Dated(t, last) && last <= r.now
    ensures var o := Serve(t, r.addr, r.now);
      (if r.addr == a && r.now < to && o.result == Ok then 1 else 0) + Budget(Lookup(o.table, a), r.now, to)
        <= Budget(Lookup(t, a), last, to)
  {
    var now := r.now;
    var kept := if |t| >= MAX_SIZE then Purge(t, now) else t;
    BudgetShrinks(Lookup(t, a), last, now, to);
    if a in t && a !in kept {
      PurgingIsFree(t[a], now, to);
    }
    assert Budget(Lookup(kept, a), now, to) <= Budget(Lookup(t, a), last, to);
    var (s, res) := Advance(Lookup(kept, r.addr), now);
    if |kept| < MAX_SIZE && r.addr == a {
      if now < to {
        AdvancePays(Lookup(kept, a), now, to);
      } else {
        assert Budget(Some(s), now, to) == 0;
      }
    }
  }

  lemma {:induction false} OksFitTheBudget(t: Table, reqs: seq<Request>, a: IpAddr, last: int, from: int, to: int)
    requires Bounded(t) && Dated(t, last) && Ordered(reqs, last)
    ensures OkCount(t, reqs, a, from, to) <= Budget(Lookup(t, a), last, to)
    decreases |reqs|
  {
    if reqs == [] {
      BudgetShrinks(Lookup(t, a), last, last, to);
    } else {
      var r := reqs[0];
      ServePays(t, r, a, last, to);
      ServeKeepsBounded(t, r.addr, r.now);
      ServeKeepsDated(t, r.addr, last, r.now);
      OksFitTheBudget(Serve(t, r.addr, r.now).table, reqs[1..], a, r.now, from, to);
    }
  }

  /** The open window holds at least one `Ok` already, so it adds at most 98 to the whole windows. */
  lemma BudgetIsBounded(s: Option<State>, from: int, to: int)
    requires s.Some? && s.value.KnownSince? ==> s.value.count >= 1
    ensures Budget(s, from, to) <= 98 + 99 * Windows(to - from)
  {
  }

  /** In any stretch of seconds, whatever came before it and whatever other addresses do, one
      address gets at most 98 `Ok`s more than 99 for each started minute of the stretch. */
  lemma {:induction false} Quota(t: Table, reqs: seq<Request>, a: IpAddr, last: int, from: int, to: int)
    requires Bounded(t) && Dated(t, last) && Ordered(reqs, last)
    ensures OkCount(t, reqs, a, from, to) <= 98 + 99 * Windows(to - from)
    decreases |reqs|
  {
    if reqs == [] {
    } else {
      var r := reqs[0];
      ServeKeepsBounded(t, r.addr, r.now);
      ServeKeepsDated(t, r.addr, last, r.now);
      if r.now < from {
        Quota(Serve(t, r.addr, r.now).table, reqs[1..], a, r.now, from, to);
      } else {
        var last' := if last < from then from else last;
        BudgetIsBounded(Lookup(t, a), from, to);
        BudgetShrinks(Lookup(t, a), from, last', to);
        OksFitTheBudget(t, reqs, a, last', from, to);
      }
    }
  }

  /** In 60 * k consecutive seconds of any run from the start: fewer than 99 * (k + 1) `Ok`s. */
  lemma QuotaPerMinutes(reqs: seq<Request>, a: IpAddr, from: int, k: nat)
    requires reqs != [] ==> Ordered(reqs, reqs[0].now)
    ensures OkCount(map[], reqs, a, from, from + 60 * k) < 99 * (k + 1)
  {
    if reqs != [] {
      Quota(map[], reqs, a, reqs[0].now, from, from + 60 * k);
      assert Windows(60 * k) == k;
    }
  }

  // Blocking.

  /** No answer to `a` in the run is `Ok`. */
  predicate NeverOk(t: Table, reqs: seq<Request>, a: IpAddr)
    decreases |reqs|
  {
    reqs == [] ||
    var o := Serve(t, reqs[0].addr, reqs[0].now);
    (reqs[0].addr == a ==> o.result == Block) && NeverOk(o.table, reqs[1..], a)
  }

  /** A blocked address stays blocked while all readings are before the end of its block, in any
      order, whatever other addresses do and however often the table is purged. */
  lemma {:induction false} BlockPersists(t: Table, reqs: seq<Request>, a: IpAddr, end: int)
    requires a in t && t[a] == BlockedUntil(end)
    requires forall i :: 0 <= i < |reqs| ==> reqs[i].now < end
    ensures NeverOk(t, reqs, a)
    ensures a in Run(t, reqs) && Run(t, reqs)[a] == BlockedUntil(end)
    decreases |reqs|
  {
    if reqs == [] {
    } else {
      BlockPersists(Serve(t, reqs[0].addr, reqs[0].now).table, reqs[1..], a, end);
    }
  }

  /** An address that was not blocked and is refused, though not for capacity, has passed the limit:
      whatever is asked in the next 600 seconds, it is refused throughout. */
  lemma PassingTheLimitBlocks(t: Table, a: IpAddr, b: int, reqs: seq<Request>)
    requires a in t ==> t[a].KnownSince?
    requires Serve(t, a, b).result == Block && !Serve(t, a, b).atCapacity
    requires forall i :: 0 <= i < |reqs| ==> reqs[i].now < b + 600
    ensures NeverOk(Serve(t, a, b).table, reqs, a)
  {
    BlockPersists(Serve(t, a, b).table, reqs, a, b + 600);
  }

  // Capacity.

  /** Every request of the run is turned away at capacity. */
  predicate AllAtCapacity(t: Table, reqs: seq<Request>)
    decreases |reqs|
  {
    reqs == [] ||
    var o := Serve(t, reqs[0].addr, reqs[0].now);
    o.atCapacity && AllAtCapacity(o.table, reqs[1..])
  }

  lemma AtCapacityChangesNothing(t: Table, a: IpAddr, now: int)
    requires Bounded(t) && Serve(t, a, now).atCapacity
    ensures Serve(t, a, now).table == t && |t| == 100
    ensures forall b :: b in t ==> now < Expiry(t[b])
  {
    PurgeKeepsBounded(t, now);
    assert Purge(t, now) == t;
    forall b | b in t ensures now < Expiry(t[b]) {
      assert b in Purge(t, now);
    }
  }

  lemma {:induction false} CapacityRun(t: Table, reqs: seq<Request>)
    requires Bounded(t) && AllAtCapacity(t, reqs) && reqs != []
    ensures Run(t, reqs) == t && |t| == 100
    ensures forall b :: b in t ==> reqs[|reqs| - 1].now < Expiry(t[b])
    decreases |reqs|
  {
    AtCapacityChangesNothing(t, reqs[0].addr, reqs[0].now);
    if |reqs| == 1 {
    } else {
      CapacityRun(t, reqs[1..]);
    }
  }

  /** A stretch of requests turned away at capacity leaves the table as it was and lasts less than
      600 seconds, less than 60 if any address in the table is not blocked. */
  lemma CapacityStretch(t: Table, reqs: seq<Request>, last: int)
    requires Bounded(t) && Dated(t, last) && Ordered(reqs, last)
    requires AllAtCapacity(t, reqs) && reqs != []
    ensures Run(t, reqs) == t
    ensures reqs[|reqs| - 1].now < reqs[0].now + 600
    ensures (exists b :: b in t && t[b].KnownSince?) ==> reqs[|reqs| - 1].now < reqs[0].now + 60
  {
    CapacityRun(t, reqs);
    assert t.Keys != {};
    var b :| b in t.Keys;
    assert reqs[|reqs| - 1].now < Expiry(t[b]);
  }

  /** A full table is never full 600 seconds later: everything has expired, and the caller is let in. */
  lemma CapacityRecovers(t: Table, a: IpAddr, last: int, now: int)
    requires Dated(t, last) && |t| >= 100 && now >= last + 600
    ensures Serve(t, a, now) == Outcome(map[a := KnownSince(now, 1)], Ok, false)
  {
    assert Purge(t, now) == map[];
  }

  // The shared table against one automaton per address.

  /** The readings of `a`'s requests that were not turned away at capacity. */
  function Admitted(t: Table, reqs: seq<Request>, a: IpAddr): seq<int>
    decreases |reqs|
  {
    if reqs == [] then []
    else
      var o := Serve(t, reqs[0].addr, reqs[0].now);
      (if reqs[0].addr == a && !o.atCapacity then [reqs[0].now] else []) + Admitted(o.table, reqs[1..], a)
  }

  /** The answers to those requests. */
  function Answers(t: Table, reqs: seq<Request>, a: IpAddr): seq<RateLimitResult>
    decreases |reqs|
  {
    if reqs == [] then []
    else
      var o := Serve(t, reqs[0].addr, reqs[0].now);
      (if reqs[0].addr == a && !o.atCapacity then [o.result] else []) + Answers(o.table, reqs[1..], a)
  }

  /** The answers of an automaton that serves one address alone and is never purged. */
  function SoloAnswers(s: Option<State>, times: seq<int>): (r: seq<RateLimitResult>)
    ensures |r| == |times|
    decreases |times|
  {
    if times == [] then []
    else
      var (s', r) := Advance(s, times[0]);
      [r] + SoloAnswers(Some(s'), times[1..])
  }

  /** The automaton's state after those requests. */
  function SoloState(s: Option<State>, times: seq<int>): Option<State>
    decreases |times|
  {
    if times == [] then s else SoloState(Some(Advance(s, times[0]).0), times[1..])
  }

  /** How many requests `a` sends in the 61 seconds from `from`, admitted or not. */
  function Sent(reqs: seq<Request>, a: IpAddr, from: int): nat {
    if reqs == [] then 0
    else (if reqs[0].addr == a && from <= reqs[0].now <= from + 60 then 1 else 0) + Sent(reqs[1..], a, from)
  }

  /** `a` never sends 100 requests within 61 seconds. */
  ghost predicate KeepsLimit(reqs: seq<Request>, a: IpAddr) {
    forall from :: Sent(reqs, a, from) < 100
  }

  predicate AllOk(answers: seq<RateLimitResult>) {
    forall i :: 0 <= i < |answers| ==> answers[i] == Ok
  }

  /** The open window of `a`, if there is one, has room for all that `a` is still to send in it. */
  predicate HasRoom(entry: Option<State>, reqs: seq<Request>, a: IpAddr) {
    entry.Some? ==> entry.value.KnownSince? && entry.value.count + Sent(reqs, a, entry.value.start) < 100
  }

  lemma ServeKeepsRoom(t: Table, reqs: seq<Request>, a: IpAddr, last: int)
    requires Dated(t, last) && reqs != [] && last <= reqs[0].now
    requires KeepsLimit(reqs, a) && HasRoom(Lookup(t, a), reqs, a)
    ensures var o := Serve(t, reqs[0].addr, reqs[0].now);
      && (reqs[0].addr == a && !o.atCapacity ==> o.result == Ok)
      && HasRoom(Lookup(o.table, a), reqs[1..], a)
  {
    assert Sent(reqs, a, reqs[0].now) < 100;
  }

  lemma {:induction false} RoomIsServed(t: Table, reqs: seq<Request>, a: IpAddr, last: int)
    requires Dated(t, last) && Ordered(reqs, last)
    requires KeepsLimit(reqs, a) && HasRoom(Lookup(t, a), reqs, a)
    ensures AllOk(Answers(t, reqs, a))
    decreases |reqs|
  {
    if reqs == [] {
    } else {
      var r := reqs[0];
      ServeKeepsRoom(t, reqs, a, last);
      ServeKeepsDated(t, r.addr, last, r.now);
      forall from ensures Sent(reqs[1..], a, from) < 100 {
        assert Sent(reqs, a, from) < 100;
      }
      RoomIsServed(Serve(t, r.addr, r.now).table, reqs[1..], a, r.now);
    }
  }

  /** An address that never sends 100 requests within 61 seconds is never refused for its rate,
      whatever other addresses do and whenever the table is purged. */
  lemma KeepingTheLimitIsServed(reqs: seq<Request>, a: IpAddr)
    requires reqs != [] ==> Ordered(reqs, reqs[0].now)
    requires KeepsLimit(reqs, a)
    ensures AllOk(Answers(map[], reqs, a))
  {
    if reqs != [] {
      RoomIsServed(map[], reqs, a, reqs[0].now);
    }
  }

  /** What the automaton is for: in the 61 seconds [start, start + 60] that a window covers, the
      first 99 requests are answered, and all later ones are refused. */
  lemma {:induction false} NinetyNinePerWindow(start: int, count: u8, times: seq<int>, i: nat)
    requires count < 100 && i < |times|
    requires forall j :: 0 <= j < |times| ==> start <= times[j] <= start + 60
    ensures SoloAnswers(Some(KnownSince(start, count)), times)[i] == if count + i < 99 then Ok else Block
    decreases |times|
  {
    var s := Advance(Some(KnownSince(start, count)), times[0]).0;
    if i == 0 {
    } else {
      if s.KnownSince? {
        NinetyNinePerWindow(start, count + 1, times[1..], i - 1);
      } else {
        RefusedToTheEnd(s.end, times[1..], i - 1);
      }
    }
  }

  /** A block refuses every request up to and including its last second... */
  lemma {:induction false} RefusedToTheEnd(end: int, times: seq<int>, i: nat)
    requires i < |times| && forall j :: 0 <= j <= i ==> times[j] <= end
    ensures SoloAnswers(Some(BlockedUntil(end)), times)[i] == Block
    decreases |times|
  {
    if i == 0 {
    } else {
      RefusedToTheEnd(end, times[1..], i - 1);
    }
  }

  /** ...and the first request after it opens a new window. */
  lemma {:induction false} ServedAfterTheEnd(end: int, times: seq<int>, i: nat)
    requires i < |times| && times[i] > end && forall j :: 0 <= j < i ==> times[j] <= end
    ensures SoloAnswers(Some(BlockedUntil(end)), times)[i] == Ok
    ensures SoloState(Some(BlockedUntil(end)), times[..i + 1]) == Some(KnownSince(times[i], 1))
    decreases |times|
  {
    assert times[..i + 1][0] == times[0] && times[..i + 1][1..] == times[1..][..i];
    if i == 0 {
      assert times[1..][..0] == [];
    } else {
      ServedAfterTheEnd(end, times[1..], i - 1);
    }
  }

  /** No request falls in the exact second in which the automaton's own window or block ends. */
  predicate OffEdge(s: Option<State>, times: seq<int>)
    decreases |times|
  {
    times == [] ||
    ((s.Some? ==> times[0] != Expiry(s.value)) && OffEdge(Some(Advance(s, times[0]).0), times[1..]))
  }

  /** The table's state for an address against the automaton's: equal, or purged after expiry. */
  predicate Tracks(entry: Option<State>, solo: Option<State>, last: int) {
    entry == solo || (entry.None? && solo.Some? && last >= Expiry(solo.value))
  }

  /** One admitted step keeps the two equal unless the entry was purged in this very second. */
  lemma StepAgreesIffOffEdge(entry: Option<State>, solo: Option<State>, now: int)
    requires Tracks(entry, solo, now)
    requires solo.Some? && solo.value.KnownSince? ==> solo.value.count >= 1
    ensures Advance(entry, now) == Advance(solo, now)
       <==> !(entry.None? && solo.Some? && now == Expiry(solo.value))
  {
  }

  /** The answers of such a step differ exactly if the entry was purged in this very second and the
      automaton is blocked or has used up its window. */
  lemma StepAnswersDifferIff(entry: Option<State>, solo: Option<State>, now: int)
    requires Tracks(entry, solo, now)
    requires solo.Some? && solo.value.KnownSince? ==> 1 <= solo.value.count < RATE_LIMIT
    ensures Advance(entry, now).1 != Advance(solo, now).1
       <==> (entry.None? && solo.Some? && now == Expiry(solo.value)
             && (solo.value.BlockedUntil? || solo.value.count == RATE_LIMIT - 1))
  {
  }

  /** The bounded, purged, shared table refines one unbounded automaton per address. */
  lemma {:induction false} TableRefinesAutomata(t: Table, reqs: seq<Request>, a: IpAddr, solo: Option<State>, last: int)
    requires Ordered(reqs, last) && Tracks(Lookup(t, a), solo, last)
    requires OffEdge(solo, Admitted(t, reqs, a))
    ensures Answers(t, reqs, a) == SoloAnswers(solo, Admitted(t, reqs, a))
    decreases |reqs|
  {
    if reqs == [] {
    } else {
      var r := reqs[0];
      var o := Serve(t, r.addr, r.now);
      var rest := Admitted(o.table, reqs[1..], a);
      if r.addr == a && !o.atCapacity {
        assert Admitted(t, reqs, a)[0] == r.now && Admitted(t, reqs, a)[1..] == rest;
        TableRefinesAutomata(o.table, reqs[1..], a, Some(Advance(solo, r.now).0), r.now);
      } else {
        assert Admitted(t, reqs, a) == rest;
        TableRefinesAutomata(o.table, reqs[1..], a, solo, r.now);
      }
    }
  }

  /** From the empty table: each address gets the answers of its own automaton. */
  lemma EachAddressIsOnItsOwn(reqs: seq<Request>, a: IpAddr)
    requires reqs != [] ==> Ordered(reqs, reqs[0].now)
    requires OffEdge(None, Admitted(map[], reqs, a))
    ensures Answers(map[], reqs, a) == SoloAnswers(None, Admitted(map[], reqs, a))
  {
    if reqs != [] {
      TableRefinesAutomata(map[], reqs, a, None, reqs[0].now);
    }
  }

  /** Throughout the run, each admitted request of `a` has the same effect and answer in both. */
  predicate InStep(t: Table, solo: Option<State>, reqs: seq<Request>, a: IpAddr)
    decreases |reqs|
  {
    reqs == [] ||
    var o := Serve(t, reqs[0].addr, reqs[0].now);
    if reqs[0].addr == a && !o.atCapacity then
      var alone := Advance(solo, reqs[0].now);
      o.table[a] == alone.0 && o.result == alone.1 && InStep(o.table, Some(alone.0), reqs[1..], a)
    else InStep(o.table, solo, reqs[1..], a)
  }

  /** No admitted request of `a` finds its entry purged in the very second it expired. */
  predicate NeverPurgedOnEdge(t: Table, solo: Option<State>, reqs: seq<Request>, a: IpAddr)
    decreases |reqs|
  {
    reqs == [] ||
    var o := Serve(t, reqs[0].addr, reqs[0].now);
    if reqs[0].addr == a && !o.atCapacity then
      var purged := a !in t || (|t| >= MAX_SIZE && reqs[0].now >= Expiry(t[a]));
      !(purged && solo.Some? && reqs[0].now == Expiry(solo.value))
        && NeverPurgedOnEdge(o.table, Some(Advance(solo, reqs[0].now).0), reqs[1..], a)
    else NeverPurgedOnEdge(o.table, solo, reqs[1..], a)
  }

  /** Exactly when table and automaton go in step. */
  lemma {:induction false} InStepIffNeverPurgedOnEdge(t: Table, reqs: seq<Request>, a: IpAddr,
                                                      solo: Option<State>, last: int)
    requires Ordered(reqs, last) && Tracks(Lookup(t, a), solo, last) && Bounded(t)
    requires solo.Some? && solo.value.KnownSince? ==> solo.value.count >= 1
    ensures InStep(t, solo, reqs, a) <==> NeverPurgedOnEdge(t, solo, reqs, a)
    decreases |reqs|
  {
    if reqs == [] {
    } else {
      var r := reqs[0];
      var o := Serve(t, r.addr, r.now);
      ServeKeepsBounded(t, r.addr, r.now);
      if r.addr == a && !o.atCapacity {
        var kept := if |t| >= MAX_SIZE then Purge(t, r.now) else t;
        StepAgreesIffOffEdge(Lookup(kept, a), solo, r.now);
        if Advance(Lookup(kept, a), r.now) == Advance(solo, r.now) {
          InStepIffNeverPurgedOnEdge(o.table, reqs[1..], a, Some(Advance(solo, r.now).0), r.now);
        }
      } else {
        InStepIffNeverPurgedOnEdge(o.table, reqs[1..], a, solo, r.now);
      }
    }
  }

  /** Going in step, an address gets the answers of its own automaton. */
  lemma {:induction false} InStepGivesAnswers(t: Table, reqs: seq<Request>, a: IpAddr, solo: Option<State>)
    requires InStep(t, solo, reqs, a)
    ensures Answers(t, reqs, a) == SoloAnswers(solo, Admitted(t, reqs, a))
    decreases |reqs|
  {
    if reqs == [] {
    } else {
      var r := reqs[0];
      var o := Serve(t, r.addr, r.now);
      var rest := Admitted(o.table, reqs[1..], a);
      if r.addr == a && !o.atCapacity {
        assert Admitted(t, reqs, a)[0] == r.now && Admitted(t, reqs, a)[1..] == rest;
        InStepGivesAnswers(o.table, reqs[1..], a, Some(Advance(solo, r.now).0));
      } else {
        assert Admitted(t, reqs, a) == rest;
        InStepGivesAnswers(o.table, reqs[1..], a, solo);
      }
    }
  }
}
