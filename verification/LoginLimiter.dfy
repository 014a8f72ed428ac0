/** The login limiter: a map that is changed in place, and the single-key machine it refines. */
module LoginLimiter {
  const I64_MAX: int := 0x7fff_ffff_ffff_ffff
  const I64_MIN: int := -0x8000_0000_0000_0000
  const U32_MAX: nat := 0xffff_ffff
  const WINDOW := 15 * 60 * 1000
  const CAPACITY := 4096
  /** The longest block, in milliseconds. */
  const LONGEST := 16_000

  type Key = string

  datatype Attempt = Attempt(failures: nat, blockedUntil: int, lastAttempt: int)

  type Entries = map<Key, Attempt>

  /** Saturation at the ends of i64. */
  function Saturate(x: int): int { if x > I64_MAX then I64_MAX else if x < I64_MIN then I64_MIN else x }

  /** 2^n. */
  function Pow2(n: nat): (r: nat)
    ensures r >= 1
    decreases n
  {
    if n == 0 then 1 else 2 * Pow2(n - 1)
  }

  /** Milliseconds of block after so many failures: none below five, then 1, 2, 4, 8 and 16 seconds. */
  function Backoff(failures: nat): (d: nat)
    ensures failures < 5 <==> d == 0
    ensures failures >= 5 ==> d == Pow2(if failures - 5 < 4 then failures - 5 else 4) * 1000
    ensures d <= LONGEST
  {
    if failures < 5 then 0
    else
      var n := if failures - 5 < 4 then failures - 5 else 4;
      assert Pow2(n) <= 16 by { assert n == 0 || n == 1 || n == 2 || n == 3 || n == 4; assert Pow2(4) == 16; }
      Pow2(n) * 1000
  }

  function Sweep(entries: Entries, now: int): Entries {
    map k | k in entries && Saturate(now - entries[k].lastAttempt) < WINDOW :: entries[k]
  }

  /** The map after `check`: swept, and emptied when it is still too big. */
  function Swept(entries: Entries, now: int): Entries {
    if |Sweep(entries, now)| > CAPACITY then map[] else Sweep(entries, now)
  }

  predicate Blocked(entries: Entries, key: Key, now: int) { key in entries && entries[key].blockedUntil > now }

  function Failed(entries: Entries, key: Key, now: int): Entries {
    var before := if key in entries then entries[key].failures else 0;
    var failures := if before < U32_MAX then before + 1 else U32_MAX;
    entries[key := Attempt(failures, Saturate(now + Backoff(failures)), now)]
  }

  /** Seconds of block after so many failures. */
  function Seconds(failures: nat): nat {
    if failures < 5 then 0 else if failures == 5 then 1 else if failures == 6 then 2
    else if failures == 7 then 4 else if failures == 8 then 8 else 16
  }

  /** The nearest 64-bit integer. */
  function Saturated(x: int): int {
    if x > 9_223_372_036_854_775_807 then 9_223_372_036_854_775_807
    else if x < -9_223_372_036_854_775_808 then -9_223_372_036_854_775_808 else x
  }

  lemma {:induction false} BackoffIsSeconds()
    ensures forall n: nat :: Backoff(n) == 1000 * Seconds(n)
  {
    forall n: nat
      ensures Backoff(n) == 1000 * Seconds(n)
    {
      assert Pow2(0) == 1 && Pow2(1) == 2 && Pow2(2) == 4 && Pow2(3) == 8 && Pow2(4) == 16;
    }
  }

  class LoginRateLimiter {
    var entries: Entries

    constructor ()
      ensures entries == map[]
    {
      entries := map[];
    }

    /** Attempts older than fifteen minutes go, and all of them if more than 4096 are left. */
    method Check(key: Key, now: int) returns (allowed: bool)
      modifies this
      ensures entries == Swept(old(entries), now)
      ensures var recent := map k | k in old(entries) && Saturated(now - old(entries)[k].lastAttempt) < 900_000 :: old(entries)[k];
              entries == if |recent| > 4096 then map[] else recent
      ensures allowed <==> !(key in entries && now < entries[key].blockedUntil)
    {
      entries := Sweep(entries, now);
      assert entries == map k | k in old(entries) && Saturated(now - old(entries)[k].lastAttempt) < 900_000 :: old(entries)[k];
      if |entries| > CAPACITY {
        entries := map[];
      }
      allowed := !(key in entries && entries[key].blockedUntil > now);
    }

    /** One failure more, and a block of 1, 2, 4, 8 or at last 16 seconds from the fifth on. */
    method Failure(key: Key, now: int)
      modifies this
      ensures entries == Failed(old(entries), key, now)
      ensures entries.Keys == old(entries).Keys + {key} && forall k :: k in old(entries) && k != key ==> entries[k] == old(entries)[k]
      ensures var before := if key in old(entries) then old(entries)[key].failures else 0;
              && entries[key].failures == (if before >= 4_294_967_295 then 4_294_967_295 else before + 1)
              && entries[key].lastAttempt == now
              && entries[key].blockedUntil == Saturated(now + 1000 * Seconds(entries[key].failures))
    {
      BackoffIsSeconds();
      if key !in entries {
        entries := entries[key := Attempt(0, 0, now)];
      }
      var failures := if entries[key].failures < U32_MAX then entries[key].failures + 1 else U32_MAX;
      entries := entries[key := Attempt(failures, Saturate(now + Backoff(failures)), now)];
    }

    method Success(key: Key)
      modifies this
      ensures entries == old(entries) - {key}
    {
      entries := entries - {key};
    }
  }

  // ----- Runs -----

  datatype Event = Check(key: Key, at: int) | Fail(key: Key, at: int) | Succeed(key: Key)

  function Next(entries: Entries, e: Event): Entries {
    match e
    case Check(k, t) => Swept(entries, t)
    case Fail(k, t) => Failed(entries, k, t)
    case Succeed(k) => entries - {k}
  }

  function Run(entries: Entries, trace: seq<Event>): Entries
    decreases |trace|
  {
    if trace == [] then entries else Run(Next(entries, trace[0]), trace[1..])
  }

  /** Times never go back, start at `from` and leave room for a block below the end of i64. */
  predicate Timed(trace: seq<Event>, from: int)
    decreases |trace|
  {
    trace == [] ||
    if trace[0].Succeed? then Timed(trace[1..], from)
    else 0 <= from <= trace[0].at <= I64_MAX - LONGEST && Timed(trace[1..], trace[0].at)
  }

  /** No `check` of the run finds more than the capacity, so none empties the map. */
  predicate NeverCleared(entries: Entries, trace: seq<Event>)
    decreases |trace|
  {
    trace == [] ||
    ((trace[0].Check? ==> |Sweep(entries, trace[0].at)| <= CAPACITY) && NeverCleared(Next(entries, trace[0]), trace[1..]))
  }

  /** The clock after a run. */
  function Clock(trace: seq<Event>, from: int): int
    decreases |trace|
  {
    if trace == [] then from else Clock(trace[1..], if trace[0].Succeed? then from else trace[0].at)
  }

  /** Every entry is a failure that happened, with the block that belongs to it. */
  ghost predicate Sound(entries: Entries, now: int) {
    forall k :: k in entries ==>
                  var a := entries[k];
                  && 1 <= a.failures <= U32_MAX
                  && 0 <= a.lastAttempt <= now
                  && a.blockedUntil == a.lastAttempt + Backoff(a.failures)
  }

  lemma NextSound(entries: Entries, e: Event, now: int)
    requires Sound(entries, now) && (!e.Succeed? ==> 0 <= now <= e.at <= I64_MAX - LONGEST)
    ensures Sound(Next(entries, e), if e.Succeed? then now else e.at)
  {
  }

  lemma {:induction false} RunSound(entries: Entries, trace: seq<Event>, now: int)
    requires Sound(entries, now) && Timed(trace, now)
    ensures Sound(Run(entries, trace), Clock(trace, now))
    decreases |trace|
  {
    if trace != [] {
      NextSound(entries, trace[0], now);
      RunSound(Next(entries, trace[0]), trace[1..], if trace[0].Succeed? then now else trace[0].at);
    }
  }

  /**
   Every block lasts at most sixteen seconds, so the fifteen-minute sweep never changes
   the answer of `check`; only emptying an overfull map can, and then it lets everyone in.
   */
  lemma SweepNeverUnblocks(trace: seq<Event>, key: Key, now: int)
    requires Timed(trace, 0) && Clock(trace, 0) <= now <= I64_MAX - LONGEST
    ensures var e := Run(map[], trace);
            && (forall k :: k in e ==> e[k].blockedUntil <= e[k].lastAttempt + LONGEST)
            && (Blocked(Sweep(e, now), key, now) <==> Blocked(e, key, now))
            && (Blocked(Swept(e, now), key, now) <==> Blocked(e, key, now) && |Sweep(e, now)| <= CAPACITY)
  {
    RunSound(map[], trace, 0);
    var e := Run(map[], trace);
    BlockedMeansRecent(e, key, Clock(trace, 0), now);
    assert forall k :: k in e ==> e[k].blockedUntil <= e[k].lastAttempt + LONGEST;
  }

  lemma BlockedMeansRecent(e: Entries, key: Key, clock: int, now: int)
    requires Sound(e, clock) && clock <= now <= I64_MAX - LONGEST
    ensures Blocked(Sweep(e, now), key, now) <==> Blocked(e, key, now)
  {
  }

  // ----- One key on its own -----

  /** What a limiter for a single key would remember: how many failures in a row, and when the last was. */
  datatype Streak = Clear | Failing(count: nat, last: int)

  function StreakNext(s: Streak, key: Key, e: Event): Streak {
    match e
    case Check(k, t) => if s.Failing? && t - s.last >= 900_000 then Clear else s
    case Fail(k, t) =>
      if k != key then s
      else if s.Clear? then Failing(1, t)
      else Failing(if s.count < 4_294_967_295 then s.count + 1 else 4_294_967_295, t)
    case Succeed(k) => if k == key then Clear else s
  }

  function StreakRun(s: Streak, key: Key, trace: seq<Event>): Streak
    decreases |trace|
  {
    if trace == [] then s else StreakRun(StreakNext(s, key, trace[0]), key, trace[1..])
  }

  /** The map's view of one key. */
  function View(entries: Entries, key: Key): Streak {
    if key in entries then Failing(entries[key].failures, entries[key].lastAttempt) else Clear
  }

  lemma NextRefines(entries: Entries, key: Key, e: Event, now: int)
    requires Sound(entries, now) && (!e.Succeed? ==> 0 <= now <= e.at <= I64_MAX - LONGEST)
    requires e.Check? ==> |Sweep(entries, e.at)| <= CAPACITY
    ensures View(Next(entries, e), key) == StreakNext(View(entries, key), key, e)
  {
  }

  /** Keys do not disturb each other: over any run that never empties the map, the map restricted to a key is the single-key machine. */
  lemma {:induction false} LimiterRefinesSingleKey(entries: Entries, key: Key, trace: seq<Event>, now: int)
    requires Sound(entries, now) && Timed(trace, now) && NeverCleared(entries, trace)
    ensures View(Run(entries, trace), key) == StreakRun(View(entries, key), key, trace)
    decreases |trace|
  {
    if trace != [] {
      var now' := if trace[0].Succeed? then now else trace[0].at;
      NextRefines(entries, key, trace[0], now);
      NextSound(entries, trace[0], now);
      LimiterRefinesSingleKey(Next(entries, trace[0]), key, trace[1..], now');
    }
  }

  /** Over such a run, `check` rejects a key exactly while its streak's backoff has not run out. */
  lemma CheckRejectsExactlyDuringBackoff(trace: seq<Event>, key: Key, now: int)
    requires Timed(trace, 0) && NeverCleared(map[], trace) && Clock(trace, 0) <= now <= I64_MAX - LONGEST
    requires |Sweep(Run(map[], trace), now)| <= CAPACITY
    ensures var s := StreakRun(Clear, key, trace);
            Blocked(Swept(Run(map[], trace), now), key, now) <==> s.Failing? && now < s.last + 1000 * Seconds(s.count)
  {
    BackoffIsSeconds();
    RunSound(map[], trace, 0);
    LimiterRefinesSingleKey(map[], key, trace, 0);
    SweepNeverUnblocks(trace, key, now);
  }

  /** The other keys' failures and successes, and any checks. */
  predicate Leaves(trace: seq<Event>, key: Key) {
    forall i :: 0 <= i < |trace| ==> trace[i].Check? || trace[i].key != key
  }

  lemma {:induction false} StreakSurvives(key: Key, count: nat, last: int, trace: seq<Event>, from: int, now: int)
    requires Leaves(trace, key) && Timed(trace, from) && last <= from && Clock(trace, from) <= now
    ensures var s := StreakRun(Failing(count, last), key, trace);
            s == Failing(count, last) || (s == Clear && last + WINDOW <= now)
    decreases |trace|
  {
    if trace != [] {
      var from' := if trace[0].Succeed? then from else trace[0].at;
      ClockMonotone(trace[1..], from');
      assert trace[0].Check? || trace[0].key != key;
      assert Leaves(trace[1..], key) by {
        forall i | 0 <= i < |trace[1..]| ensures trace[1..][i].Check? || trace[1..][i].key != key {
          assert trace[1..][i] == trace[i + 1];
        }
      }
      if StreakNext(Failing(count, last), key, trace[0]).Clear? {
        ClearStays(key, trace[1..]);
      } else {
        StreakSurvives(key, count, last, trace[1..], from', now);
      }
    }
  }

  lemma {:induction false} ClearStays(key: Key, trace: seq<Event>)
    requires Leaves(trace, key)
    ensures StreakRun(Clear, key, trace) == Clear
    decreases |trace|
  {
    if trace != [] {
      assert forall i :: 0 <= i < |trace[1..]| ==> trace[1..][i] == trace[i + 1];
      ClearStays(key, trace[1..]);
    }
  }

  lemma {:induction false} ClockMonotone(trace: seq<Event>, from: int)
    requires Timed(trace, from)
    ensures from <= Clock(trace, from)
    decreases |trace|
  {
    if trace != [] { ClockMonotone(trace[1..], if trace[0].Succeed? then from else trace[0].at); }
  }

  lemma {:induction false} RunParts(key: Key, s: Streak, a: seq<Event>, b: seq<Event>, from: int)
    ensures StreakRun(s, key, a + b) == StreakRun(StreakRun(s, key, a), key, b)
    ensures Timed(a + b, from) <==> Timed(a, from) && Timed(b, Clock(a, from))
    ensures Clock(a + b, from) == Clock(b, Clock(a, from))
    decreases |a|
  {
    if a == [] {
      assert a + b == b;
    } else {
      assert (a + b)[1..] == a[1..] + b && (a + b)[0] == a[0];
      RunParts(key, StreakNext(s, key, a[0]), a[1..], b, if a[0].Succeed? then from else a[0].at);
    }
  }

  /**
   After a failure at time `t` that makes the streak n, and no later failure or success of the
   key, `check` rejects the key at every time before t and the seconds that belong to n, which are
   none below five, and from then on lets it in.
   */
  lemma BackoffHolds(before: seq<Event>, key: Key, t: int, later: seq<Event>, now: int)
    requires var trace := before + [Fail(key, t)] + later;
             && Timed(trace, 0) && NeverCleared(map[], trace) && Clock(trace, 0) <= now <= I64_MAX - LONGEST
             && |Sweep(Run(map[], trace), now)| <= CAPACITY
    requires Leaves(later, key)
    ensures var s := StreakRun(Clear, key, before + [Fail(key, t)]);
            && s.Failing? && s.last == t
            && (Blocked(Swept(Run(map[], before + [Fail(key, t)] + later), now), key, now) <==> now < t + 1000 * Seconds(s.count))
  {
    BackoffIsSeconds();
    var head := before + [Fail(key, t)];
    var s := StreakRun(Clear, key, head);
    RunParts(key, Clear, head, later, 0);
    RunParts(key, Clear, before, [Fail(key, t)], 0);
    LastFailure(StreakRun(Clear, key, before), key, t);
    assert Clock([Fail(key, t)], Clock(before, 0)) == t;
    StreakSurvives(key, s.count, t, later, t, now);
    assert Backoff(s.count) <= LONGEST < WINDOW;
    CheckRejectsExactlyDuringBackoff(head + later, key, now);
  }

  lemma LastFailure(s: Streak, key: Key, t: int)
    ensures StreakRun(s, key, [Fail(key, t)]) == StreakNext(s, key, Fail(key, t))
    ensures StreakNext(s, key, Fail(key, t)).Failing? && StreakNext(s, key, Fail(key, t)).last == t
  {
  }
}
