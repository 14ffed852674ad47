/** `RateLimiter`: a bounded table of per-address states. The clock reading is a parameter. */
module RateLimiter {
  import opened RustInt

  const BLOCK_DURATION_SECS := 600
  const WINDOW_SECS := 60
  const RATE_LIMIT: u8 := 100
  const MAX_SIZE := 100

  datatype IpAddr = V4(bits: int) | V6(bits: int)

  datatype State = KnownSince(start: int, count: u8) | BlockedUntil(end: int)

  datatype RateLimitResult = Ok | Block

  type Table = map<IpAddr, State>

  /** The second in which a state stops to count. */
  function Expiry(s: State): int {
    match s
    case KnownSince(start, _) => start + WINDOW_SECS
    case BlockedUntil(end) => end
  }

  function Purge(t: Table, now: int): Table {
    map a | a in t && now < Expiry(t[a]) :: t[a]
  }

  function Lookup(t: Table, a: IpAddr): Option<State> {
    if a in t then Some(t[a]) else None
  }

  /** One address on its own: its next state and the answer it gets. */
  function Advance(s: Option<State>, now: int): (State, RateLimitResult) {
    if s.None? || now > Expiry(s.value) then (KnownSince(now, 1), Ok)
    else match s.value
      case KnownSince(start, count) =>
        if count + 1 >= RATE_LIMIT then (BlockedUntil(now + BLOCK_DURATION_SECS), Block)
        else (KnownSince(start, count + 1), Ok)
      case BlockedUntil(_) => (s.value, Block)
  }

  datatype Outcome = Outcome(table: Table, result: RateLimitResult, atCapacity: bool)

  /** One request to the shared table: purge when full, turn away when still full, else advance. */
  function Serve(t: Table, a: IpAddr, now: int): Outcome {
    var kept := if |t| >= MAX_SIZE then Purge(t, now) else t;
    if |kept| >= MAX_SIZE then Outcome(kept, Block, true)
    else
      var (s, r) := Advance(Lookup(kept, a), now);
      Outcome(kept[a := s], r, false)
  }

  /** The table never exceeds its bound, and counts stay below the limit. */
  predicate Bounded(t: Table) {
    |t| <= MAX_SIZE && forall a :: a in t && t[a].KnownSince? ==> 1 <= t[a].count < RATE_LIMIT
  }

  lemma PurgeKeepsBounded(t: Table, now: int)
    requires Bounded(t)
    ensures Bounded(Purge(t, now)) && |Purge(t, now)| <= |t|
    ensures |Purge(t, now)| == |t| ==> Purge(t, now) == t
  {
    var p := Purge(t, now);
    assert p.Keys <= t.Keys;
    SubsetSize(p.Keys, t.Keys);
  }

  lemma SubsetSize<A>(x: set<A>, y: set<A>)
    requires x <= y
    ensures |x| <= |y| && (|x| == |y| ==> x == y)
  {
    assert y == x + (y - x);
    assert |y| == |x| + |y - x|;
    if |x| == |y| {
      assert y - x == {};
    }
  }

  lemma ServeKeepsBounded(t: Table, a: IpAddr, now: int)
    requires Bounded(t)
    ensures Bounded(Serve(t, a, now).table)
  {
    PurgeKeepsBounded(t, now);
  }

  class RateLimiter {
    var states: Table

    predicate Valid()
      reads this
    {
      Bounded(states)
    }

    constructor ()
      ensures Valid() && states == map[]
    {
      states := map[];
    }

    method Cleanup(now: int)
      modifies this
      ensures states == Purge(old(states), now)
    {
      states := map a | a in states &&
        match states[a]
        case KnownSince(start, _) => now < start + WINDOW_SECS
        case BlockedUntil(end) => now < end
        :: states[a];
    }

    method Increment(srcAddr: IpAddr, now: int) returns (result: RateLimitResult)
      requires Valid()
      modifies this
      ensures Valid()
      ensures states == Serve(old(states), srcAddr, now).table
      ensures result == Serve(old(states), srcAddr, now).result
    {
      ServeKeepsBounded(states, srcAddr, now);
      if |states| >= MAX_SIZE {
        Cleanup(now);
        if |states| >= MAX_SIZE {
          return Block;
        }
      }
      ghost var kept := states;
      ghost var next := Advance(Lookup(kept, srcAddr), now).0;
      if srcAddr !in states {
        states := states[srcAddr := KnownSince(now, 0)];
      }
      match states[srcAddr]
      case KnownSince(start, count) =>
        if now > start + WINDOW_SECS {
          states := states[srcAddr := KnownSince(now, 1)];
          assert states == kept[srcAddr := next];
          return Ok;
        }
        var incremented: u8 := count + 1;
        states := states[srcAddr := KnownSince(start, incremented)];
        if incremented >= RATE_LIMIT {
          states := states[srcAddr := BlockedUntil(now + BLOCK_DURATION_SECS)];
          assert states == kept[srcAddr := next];
          return Block;
        }
        assert states == kept[srcAddr := next];
        return Ok;
      case BlockedUntil(end) =>
        if now > end {
          states := states[srcAddr := KnownSince(now, 1)];
          assert states == kept[srcAddr := next];
          return Ok;
        } else {
          assert states == kept[srcAddr := next];
          return Block;
        }
    }
  }
}
