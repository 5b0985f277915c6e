/**
 * The sliding-log rate limiter of the unauthenticated join route: per key, the stamps
 * of the admitted attempts that are still in the window, pruned and bounded in memory.
 * The clock is an input; a run's clock never goes back.
 */
module JoinLimiter {
  import opened Basics

  const RATE_MAX_TRACKED := 10_000
  const PRUNE_FROM := 256

  /** `retryAfterMs` is absent where the source computes NaN, which needs a limit below 1. */
  datatype Decision = Allowed | Refused(retryAfterMs: Option<int>)

  type Log = map<string, seq<int>>

  datatype Limiter = Limiter(hits: Log, limit: int, windowMs: int)

  function StampsOf(hits: Log, key: string): (stamps: seq<int>) {
    if key in hits then hits[key] else []
  }

  /** `stamps.filter((ts) => ts > cutoff)` */
  function Recent(stamps: seq<int>, cutoff: int): (r: seq<int>)
    ensures |r| <= |stamps|
    ensures forall ts :: ts in r <==> ts in stamps && ts > cutoff
  {
    if stamps == [] then []
    else
      var n := |stamps| - 1;
      var rest := Recent(stamps[..n], cutoff);
      assert stamps == stamps[..n] + [stamps[n]];
      if stamps[n] > cutoff then rest + [stamps[n]] else rest
  }

  function Pruned(hits: Log, cutoff: int): (r: Log) {
    map key | key in hits && Recent(hits[key], cutoff) != [] :: hits[key]
  }

  function AfterPrune(s: Limiter, key: string, now: int): (hits: Log) {
    if key !in s.hits && |s.hits| >= PRUNE_FROM then Pruned(s.hits, now - s.windowMs) else s.hits
  }

  /** Unknown keys are refused while the table is full. */
  predicate RefusedAtCap(s: Limiter, key: string, now: int) {
    var hits := AfterPrune(s, key, now);
    key !in hits && |hits| >= RATE_MAX_TRACKED
  }

  function RetryAfter(recent: seq<int>, windowMs: int, now: int): (r: Option<int>) {
    if recent == [] then None else Some(if recent[0] + windowMs - now > 1 then recent[0] + windowMs - now else 1)
  }

  function Hit(s: Limiter, key: string, now: int): (r: (Limiter, Decision)) {
    var hits := AfterPrune(s, key, now);
    var recent := Recent(StampsOf(hits, key), now - s.windowMs);
    if RefusedAtCap(s, key, now) then (s.(hits := hits), Refused(Some(s.windowMs)))
    else if |recent| >= s.limit then (s.(hits := hits[key := recent]), Refused(RetryAfter(recent, s.windowMs, now)))
    else (s.(hits := hits[key := recent + [now]]), Allowed)
  }

  // ----- The limiter itself -----

  class MeshJoinRateLimiter {
    var hits: Log
    const limit: int
    const windowMs: int

    ghost function Value(): Limiter
      reads this
    {
      Limiter(hits, limit, windowMs)
    }

    constructor (limit: int := 5, windowMs: int := 60_000)
      ensures Value() == Limiter(map[], limit, windowMs)
    {
      hits := map[];
      this.limit, this.windowMs := limit, windowMs;
    }

    method HitAt(key: string, now: int) returns (d: Decision)
      modifies this
      ensures (Value(), d) == Hit(old(Value()), key, now)
    {
      var cutoff := now - windowMs;
      if key !in hits && |hits| >= PRUNE_FROM {
        Prune(cutoff);
      }
      var recent := Recent(StampsOf(hits, key), cutoff);
      if key !in hits && |hits| >= RATE_MAX_TRACKED {
        return Refused(Some(windowMs));
      }
      if |recent| >= limit {
        hits := hits[key := recent];
        return Refused(RetryAfter(recent, windowMs, now));
      }
      recent := recent + [now];
      hits := hits[key := recent];
      d := Allowed;
    }

    method Prune(cutoff: int)
      modifies this`hits
      ensures hits == Pruned(old(hits), cutoff)
    {
      var todo := hits.Keys;
      while todo != {}
        invariant todo <= old(hits).Keys
        invariant forall k :: k in hits <==> k in old(hits) && (k in todo || Recent(old(hits)[k], cutoff) != [])
        invariant forall k :: k in hits ==> hits[k] == old(hits)[k]
      {
        var key :| key in todo;
        todo := todo - {key};
        if Recent(hits[key], cutoff) == [] {
          hits := hits - {key};
        }
      }
    }
  }

  // ----- Filtering a log -----

  lemma {:induction false} RecentOfRecent(stamps: seq<int>, c: int, c': int)
    requires c <= c'
    ensures Recent(Recent(stamps, c), c') == Recent(stamps, c')
  {
    if stamps == [] {
    } else {
      var n := |stamps| - 1;
      RecentOfRecent(stamps[..n], c, c');
      if stamps[n] > c {
        RecentAppend(Recent(stamps[..n], c), stamps[n], c');
      }
    }
  }

  lemma {:induction false} RecentAppend(stamps: seq<int>, ts: int, c: int)
    ensures Recent(stamps + [ts], c) == Recent(stamps, c) + if ts > c then [ts] else []
  {
    assert (stamps + [ts])[..|stamps|] == stamps;
  }

  lemma {:induction false} RecentKeepsAll(stamps: seq<int>, c: int)
    requires forall i :: 0 <= i < |stamps| ==> stamps[i] > c
    ensures Recent(stamps, c) == stamps
  {
    if stamps == [] {
    } else {
      RecentKeepsAll(stamps[..|stamps| - 1], c);
      assert stamps == stamps[..|stamps| - 1] + [stamps[|stamps| - 1]];
    }
  }

  lemma {:induction false} RecentDropsFirst(stamps: seq<int>, c: int)
    requires stamps != [] && stamps[0] <= c
    ensures |Recent(stamps, c)| < |stamps|
  {
    var n := |stamps| - 1;
    if n == 0 {
    } else {
      RecentDropsFirst(stamps[..n], c);
    }
  }

  lemma {:induction false} RecentShrinks(stamps: seq<int>, c: int, c': int)
    requires c <= c'
    ensures |Recent(stamps, c')| <= |Recent(stamps, c)|
  {
    RecentOfRecent(stamps, c, c');
  }

  ghost predicate Ascending(stamps: seq<int>) {
    forall i, j :: 0 <= i < j < |stamps| ==> stamps[i] <= stamps[j]
  }

  lemma {:induction false} RecentAscends(stamps: seq<int>, c: int)
    requires Ascending(stamps)
    ensures Ascending(Recent(stamps, c))
  {
    if stamps == [] {
    } else {
      var n := |stamps| - 1;
      var rest := Recent(stamps[..n], c);
      RecentAscends(stamps[..n], c);
      forall i | 0 <= i < |rest|
        ensures rest[i] <= stamps[n]
      {
        assert rest[i] in stamps[..n];
      }
    }
  }
}
