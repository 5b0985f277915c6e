/** Whole runs of the join limiter against a limiter that remembers every admitted attempt. */
module LimiterRuns {
  import opened Basics
  import opened JoinLimiter

  datatype Attempt = Attempt(key: string, now: int)

  function Start(limit: int, windowMs: int): (s: Limiter) { Limiter(map[], limit, windowMs) }

  /** The clock of a run never goes back. */
  predicate Clocked(t: int, run: seq<Attempt>)
    decreases |run|
  {
    run == [] || (run[0].now >= t && Clocked(run[0].now, run[1..]))
  }

  function LastTime(t: int, run: seq<Attempt>): (r: int)
    decreases |run|
  {
    if run == [] then t else LastTime(run[0].now, run[1..])
  }

  function Run(s: Limiter, run: seq<Attempt>): (r: Limiter)
    decreases |run|
  {
    if run == [] then s else Run(Hit(s, run[0].key, run[0].now).0, run[1..])
  }

  function Decisions(s: Limiter, run: seq<Attempt>): (admitted: seq<bool>)
    ensures |admitted| == |run|
    decreases |run|
  {
    if run == [] then [] else
      var (s', d) := Hit(s, run[0].key, run[0].now);
      [d.Allowed?] + Decisions(s', run[1..])
  }

  // ----- The simple limiter: every admitted attempt, forever -----

  predicate FullHistoryAdmits(log: Log, limit: int, windowMs: int, a: Attempt) {
    |Recent(StampsOf(log, a.key), a.now - windowMs)| < limit
  }

  function Remember(log: Log, a: Attempt): (r: Log) {
    log[a.key := StampsOf(log, a.key) + [a.now]]
  }

  /** The simple limiter's verdict; a refusal for lack of room is the real limiter's own. */
  predicate Admits(s: Limiter, log: Log, a: Attempt) {
    !RefusedAtCap(s, a.key, a.now) && FullHistoryAdmits(log, s.limit, s.windowMs, a)
  }

  function NextLog(s: Limiter, log: Log, a: Attempt): (r: Log) {
    if Admits(s, log, a) then Remember(log, a) else log
  }

  function LogAfter(s: Limiter, log: Log, run: seq<Attempt>): (r: Log)
    decreases |run|
  {
    if run == [] then log else LogAfter(Hit(s, run[0].key, run[0].now).0, NextLog(s, log, run[0]), run[1..])
  }

  function FullHistoryDecisions(s: Limiter, log: Log, run: seq<Attempt>): (admitted: seq<bool>)
    ensures |admitted| == |run|
    decreases |run|
  {
    if run == [] then []
    else [Admits(s, log, run[0])]
         + FullHistoryDecisions(Hit(s, run[0].key, run[0].now).0, NextLog(s, log, run[0]), run[1..])
  }

  // ----- The pruned stamps and the full log agree on everything still in the window -----

  ghost predicate Agrees(kept: seq<int>, all: seq<int>, from: int) {
    forall c :: c >= from ==> Recent(kept, c) == Recent(all, c)
  }

  ghost predicate Tracks(s: Limiter, log: Log, t: int) {
    forall key :: Agrees(StampsOf(s.hits, key), StampsOf(log, key), t - s.windowMs)
  }

  lemma {:induction false} AgreesLater(kept: seq<int>, all: seq<int>, from: int, from': int)
    requires Agrees(kept, all, from) && from <= from'
    ensures Agrees(kept, all, from') && Agrees(Recent(kept, from'), all, from')
    ensures Recent(kept, from') == [] ==> Agrees([], all, from')
  {
    forall c | c >= from'
      ensures Recent(Recent(kept, from'), c) == Recent(all, c)
      ensures Recent(kept, from') == [] ==> Recent([], c) == Recent(all, c)
    {
      RecentOfRecent(kept, from', c);
    }
  }

  lemma AgreesAppend(kept: seq<int>, all: seq<int>, from: int, ts: int)
    requires Agrees(kept, all, from)
    ensures Agrees(kept + [ts], all + [ts], from)
  {
    forall c | c >= from
      ensures Recent(kept + [ts], c) == Recent(all + [ts], c)
    {
      RecentAppend(kept, ts, c);
      RecentAppend(all, ts, c);
    }
  }

  lemma PruningAgrees(s: Limiter, log: Log, t: int, a: Attempt, key: string)
    requires Tracks(s, log, t) && t <= a.now
    ensures Agrees(StampsOf(AfterPrune(s, a.key, a.now), key), StampsOf(log, key), a.now - s.windowMs)
  {
    AgreesLater(StampsOf(s.hits, key), StampsOf(log, key), t - s.windowMs, a.now - s.windowMs);
  }

  lemma StepDecidesAlike(s: Limiter, log: Log, t: int, a: Attempt)
    requires Tracks(s, log, t) && t <= a.now
    ensures Hit(s, a.key, a.now).1.Allowed? == Admits(s, log, a)
  {
    PruningAgrees(s, log, t, a, a.key);
    hide AfterPrune, Tracks;
  }

  /** The stamps an attempt leaves behind. */
  lemma StampsAfterHit(s: Limiter, a: Attempt, key: string)
    ensures var kept := StampsOf(AfterPrune(s, a.key, a.now), key); var (s', d) := Hit(s, a.key, a.now);
            StampsOf(s'.hits, key) ==
              if key != a.key || RefusedAtCap(s, a.key, a.now) then kept
              else Recent(kept, a.now - s.windowMs) + if d.Allowed? then [a.now] else []
  {
    hide AfterPrune;
  }

  lemma StepAgreesAt(s: Limiter, log: Log, t: int, a: Attempt, key: string)
    requires Tracks(s, log, t) && t <= a.now
    ensures Agrees(StampsOf(Hit(s, a.key, a.now).0.hits, key), StampsOf(NextLog(s, log, a), key), a.now - s.windowMs)
  {
    hide Hit, AfterPrune, Tracks, Agrees, RefusedAtCap;
    var cutoff := a.now - s.windowMs;
    var kept, all := StampsOf(AfterPrune(s, a.key, a.now), key), StampsOf(log, key);
    StepDecidesAlike(s, log, t, a);
    PruningAgrees(s, log, t, a, key);
    StampsAfterHit(s, a, key);
    AgreesLater(kept, all, cutoff, cutoff);
    AgreesAppend(Recent(kept, cutoff), all, cutoff, a.now);
    assert Recent(kept, cutoff) + [] == Recent(kept, cutoff);
  }

  /** One attempt: the two limiters decide alike and still agree. */
  lemma StepAgrees(s: Limiter, log: Log, t: int, a: Attempt)
    requires Tracks(s, log, t) && t <= a.now
    ensures Hit(s, a.key, a.now).1.Allowed? == Admits(s, log, a)
    ensures Tracks(Hit(s, a.key, a.now).0, NextLog(s, log, a), a.now)
  {
    StepDecidesAlike(s, log, t, a);
    HitKeepsSettings(s, a);
    hide Hit, Admits, NextLog, Agrees;
    forall key
      ensures Agrees(StampsOf(Hit(s, a.key, a.now).0.hits, key), StampsOf(NextLog(s, log, a), key), a.now - s.windowMs)
    {
      StepAgreesAt(s, log, t, a, key);
    }
  }

  lemma {:induction false} RunsAgree(s: Limiter, log: Log, t: int, run: seq<Attempt>)
    requires Tracks(s, log, t) && Clocked(t, run)
    ensures Decisions(s, run) == FullHistoryDecisions(s, log, run)
    ensures Tracks(Run(s, run), LogAfter(s, log, run), LastTime(t, run))
    decreases |run|
  {
    hide Hit, Tracks, Admits, NextLog;
    if run == [] {
    } else {
      StepAgrees(s, log, t, run[0]);
      RunsAgree(Hit(s, run[0].key, run[0].now).0, NextLog(s, log, run[0]), run[0].now, run[1..]);
    }
  }

  /**
   * Over every run, the limiter's decisions are those of the limiter that remembers
   * every admitted attempt, apart from refusals of unknown keys while the table is full.
   */
  lemma {:induction false} DecisionsMatchFullHistory(limit: int, windowMs: int, t: int, run: seq<Attempt>)
    requires Clocked(t, run)
    ensures Decisions(Start(limit, windowMs), run) == FullHistoryDecisions(Start(limit, windowMs), map[], run)
  {
    StartTracks(limit, windowMs, t);
    RunsAgree(Start(limit, windowMs), map[], t, run);
  }

  lemma StartTracks(limit: int, windowMs: int, t: int)
    ensures Tracks(Start(limit, windowMs), map[], t)
  {
  }

  // ----- The simple limiter alone, on runs that never fill the table -----

  /** The limiter that remembers everything and has room for every key: its log, limit and window are all it has. */
  function SimpleDecisions(log: Log, limit: int, windowMs: int, run: seq<Attempt>): (admitted: seq<bool>)
    ensures |admitted| == |run|
    decreases |run|
  {
    if run == [] then []
    else if FullHistoryAdmits(log, limit, windowMs, run[0])
    then [true] + SimpleDecisions(Remember(log, run[0]), limit, windowMs, run[1..])
    else [false] + SimpleDecisions(log, limit, windowMs, run[1..])
  }

  function KeysOf(run: seq<Attempt>): (keys: set<string>) { set a | a in run :: a.key }

  /** With at most 10,000 keys around, no attempt is refused for lack of room. */
  lemma RoomForAll(s: Limiter, a: Attempt, keys: set<string>)
    requires s.hits.Keys <= keys && a.key in keys && |keys| <= 10_000
    ensures !RefusedAtCap(s, a.key, a.now) && Hit(s, a.key, a.now).0.hits.Keys <= keys
  {
    var hits := AfterPrune(s, a.key, a.now);
    assert hits.Keys <= keys;
    if a.key !in hits {
      SubsetSize(hits.Keys, keys - {a.key});
    }
  }

  lemma {:induction false} RoomyRunsAgree(s: Limiter, log: Log, run: seq<Attempt>, keys: set<string>)
    requires s.hits.Keys <= keys && KeysOf(run) <= keys && |keys| <= 10_000
    ensures FullHistoryDecisions(s, log, run) == SimpleDecisions(log, s.limit, s.windowMs, run)
    decreases |run|
  {
    hide Hit, RefusedAtCap, FullHistoryAdmits, Remember;
    if run == [] {
    } else {
      var a := run[0];
      assert a.key in KeysOf(run);
      RoomForAll(s, a, keys);
      HitKeepsSettings(s, a);
      RoomyRunsAgree(Hit(s, a.key, a.now).0, NextLog(s, log, a), run[1..], keys);
    }
  }

  /**
   * Over every run with at most 10,000 distinct keys, the limiter's decisions are those
   * of the simple limiter, which shares no state with it.
   */
  lemma {:induction false} DecisionsMatchSimpleLimiter(limit: int, windowMs: int, t: int, run: seq<Attempt>)
    requires Clocked(t, run) && |KeysOf(run)| <= 10_000
    ensures Decisions(Start(limit, windowMs), run) == SimpleDecisions(map[], limit, windowMs, run)
  {
    hide KeysOf;
    DecisionsMatchFullHistory(limit, windowMs, t, run);
    RoomyRunsAgree(Start(limit, windowMs), map[], run, KeysOf(run));
  }

  // ----- No window holds more than the limit -----

  /** The stamps in the window (from, from + windowMs]. */
  function InWindow(stamps: seq<int>, from: int, windowMs: int): (r: seq<int>) {
    if stamps == [] then []
    else
      var n := |stamps| - 1;
      InWindow(stamps[..n], from, windowMs) + if from < stamps[n] <= from + windowMs then [stamps[n]] else []
  }

  function AtLeastZero(x: int): (r: nat) { if x < 0 then 0 else x }

  ghost predicate WithinLimit(stamps: seq<int>, limit: int, windowMs: int) {
    forall from :: |InWindow(stamps, from, windowMs)| <= AtLeastZero(limit)
  }

  lemma {:induction false} InWindowIsRecent(stamps: seq<int>, from: int, windowMs: int)
    ensures |InWindow(stamps, from, windowMs)| <= |Recent(stamps, from)|
  {
    if stamps == [] {
    } else {
      InWindowIsRecent(stamps[..|stamps| - 1], from, windowMs);
    }
  }

  lemma {:induction false} AdmittingKeepsLimit(stamps: seq<int>, now: int, limit: int, windowMs: int)
    requires WithinLimit(stamps, limit, windowMs) && |Recent(stamps, now - windowMs)| < limit
    ensures WithinLimit(stamps + [now], limit, windowMs)
  {
    forall from
      ensures |InWindow(stamps + [now], from, windowMs)| <= AtLeastZero(limit)
    {
      assert (stamps + [now])[..|stamps|] == stamps;
      if from < now <= from + windowMs {
        InWindowIsRecent(stamps, from, windowMs);
        RecentShrinks(stamps, now - windowMs, from);
      } else {
        assert |InWindow(stamps, from, windowMs)| <= AtLeastZero(limit);
      }
    }
  }

  ghost predicate AllWithinLimit(log: Log, limit: int, windowMs: int) {
    forall key :: WithinLimit(StampsOf(log, key), limit, windowMs)
  }

  lemma {:induction false} RunKeepsLimit(s: Limiter, log: Log, run: seq<Attempt>)
    requires AllWithinLimit(log, s.limit, s.windowMs)
    ensures AllWithinLimit(LogAfter(s, log, run), s.limit, s.windowMs)
    decreases |run|
  {
    if run == [] {
    } else {
      var a := run[0];
      var log' := NextLog(s, log, a);
      if Admits(s, log, a) {
        AdmittingKeepsLimit(StampsOf(log, a.key), a.now, s.limit, s.windowMs);
      }
      assert AllWithinLimit(log', s.limit, s.windowMs) by {
        hide WithinLimit, Admits;
        forall key
          ensures WithinLimit(StampsOf(log', key), s.limit, s.windowMs)
        {
          assert WithinLimit(StampsOf(log, key), s.limit, s.windowMs);
        }
      }
      HitKeepsSettings(s, a);
      hide Hit, WithinLimit, Admits, NextLog;
      RunKeepsLimit(Hit(s, a.key, a.now).0, log', run[1..]);
    }
  }

  lemma HitKeepsSettings(s: Limiter, a: Attempt)
    ensures var s' := Hit(s, a.key, a.now).0; s'.limit == s.limit && s'.windowMs == s.windowMs
  {
  }

  /** When a run's decisions let the key through. */
  function AdmittedAt(run: seq<Attempt>, admitted: seq<bool>, key: string): (stamps: seq<int>)
    requires |admitted| == |run|
    decreases |run|
  {
    if run == [] then []
    else (if admitted[0] && run[0].key == key then [run[0].now] else []) + AdmittedAt(run[1..], admitted[1..], key)
  }

  lemma {:induction false} LogHoldsAdmitted(s: Limiter, log: Log, run: seq<Attempt>, key: string)
    ensures StampsOf(LogAfter(s, log, run), key)
            == StampsOf(log, key) + AdmittedAt(run, FullHistoryDecisions(s, log, run), key)
    decreases |run|
  {
    hide Hit, Admits;
    if run == [] {
    } else {
      LogHoldsAdmitted(Hit(s, run[0].key, run[0].now).0, NextLog(s, log, run[0]), run[1..], key);
    }
  }

  /** The limiter admits no key more than `limit` times in any window, wherever the window starts. */
  lemma {:induction false} NoWindowOverLimit(limit: int, windowMs: int, t: int, run: seq<Attempt>, key: string,
                                             from: int)
    requires Clocked(t, run)
    ensures var stamps := AdmittedAt(run, Decisions(Start(limit, windowMs), run), key);
            |InWindow(stamps, from, windowMs)| <= AtLeastZero(limit)
  {
    var s := Start(limit, windowMs);
    RunKeepsLimit(s, map[], run);
    assert WithinLimit(StampsOf(LogAfter(s, map[], run), key), limit, windowMs);
    hide LogAfter, AdmittedAt, Decisions, FullHistoryDecisions, InWindow;
    LogHoldsAdmitted(s, map[], run, key);
    DecisionsMatchFullHistory(limit, windowMs, t, run);
    assert [] + AdmittedAt(run, Decisions(s, run), key) == AdmittedAt(run, Decisions(s, run), key);
  }

  // ----- Memory is bounded -----

  lemma HitKeepsTableBounded(s: Limiter, a: Attempt)
    requires |s.hits| <= 10_000
    ensures |Hit(s, a.key, a.now).0.hits| <= 10_000
  {
    var hits := AfterPrune(s, a.key, a.now);
    assert |hits| <= |s.hits| by {
      assert hits.Keys <= s.hits.Keys;
      SubsetSize(hits.Keys, s.hits.Keys);
    }
    hide AfterPrune;
    var recent := Recent(StampsOf(hits, a.key), a.now - s.windowMs);
    SizeAfterUpdate(hits, a.key, recent);
    SizeAfterUpdate(hits, a.key, recent + [a.now]);
  }

  lemma SizeAfterUpdate(hits: Log, key: string, stamps: seq<int>)
    ensures |hits[key := stamps]| == |hits| + if key in hits then 0 else 1
  {
    assert hits[key := stamps].Keys == hits.Keys + {key};
  }

  lemma {:induction false} SubsetSize<T>(a: set<T>, b: set<T>)
    requires a <= b
    ensures |a| <= |b|
  {
    if a == {} {
    } else {
      var x :| x in a;
      SubsetSize(a - {x}, b - {x});
    }
  }

  /** The keys with an admitted attempt still in the window. */
  function ActiveKeys(hits: Log, cutoff: int): (keys: set<string>) {
    set key | key in hits && exists i :: 0 <= i < |hits[key]| && hits[key][i] > cutoff
  }

  lemma PruneKeepsActive(hits: Log, cutoff: int)
    ensures Pruned(hits, cutoff).Keys == ActiveKeys(hits, cutoff)
    ensures forall key :: key in Pruned(hits, cutoff) ==> Pruned(hits, cutoff)[key] == hits[key]
  {
    forall key | key in hits
      ensures Recent(hits[key], cutoff) != [] <==> exists i :: 0 <= i < |hits[key]| && hits[key][i] > cutoff
    {
      var recent := Recent(hits[key], cutoff);
      if recent != [] {
        assert recent[0] in recent;
      }
      if i :| 0 <= i < |hits[key]| && hits[key][i] > cutoff {
        assert hits[key][i] in recent;
      }
    }
    hide Recent;
  }

  /**
   * Exactly when there is no room: the key is not tracked, and ten thousand keys have an
   * admitted attempt in the window. The refusal then asks to wait for a whole window.
   */
  lemma NoRoomIff(s: Limiter, key: string, now: int)
    ensures RefusedAtCap(s, key, now) <==> key !in s.hits && |ActiveKeys(s.hits, now - s.windowMs)| >= 10_000
    ensures RefusedAtCap(s, key, now) ==> Hit(s, key, now).1 == Refused(Some(s.windowMs))
  {
    PruneKeepsActive(s.hits, now - s.windowMs);
    hide Pruned;
    assert ActiveKeys(s.hits, now - s.windowMs) <= s.hits.Keys;
    SubsetSize(ActiveKeys(s.hits, now - s.windowMs), s.hits.Keys);
  }

  /**
   * Which keys are tracked after an attempt. An unknown key arriving while 256 or more are
   * tracked leaves only the active ones; otherwise none is dropped. The key itself joins
   * unless there is no room for it.
   */
  lemma TrackedAfterHit(s: Limiter, key: string, now: int)
    ensures Hit(s, key, now).0.hits.Keys ==
              (if key !in s.hits && |s.hits| >= 256 then ActiveKeys(s.hits, now - s.windowMs) else s.hits.Keys)
              + (if RefusedAtCap(s, key, now) then {} else {key})
  {
    PruneKeepsActive(s.hits, now - s.windowMs);
    hide Pruned, Recent;
  }

  /** At most 10,000 keys are tracked, whatever the run. */
  lemma {:induction false} TableStaysBounded(s: Limiter, run: seq<Attempt>)
    requires |s.hits| <= 10_000
    ensures |Run(s, run).hits| <= 10_000
    decreases |run|
  {
    hide Hit;
    if run == [] {
    } else {
      HitKeepsTableBounded(s, run[0]);
      TableStaysBounded(Hit(s, run[0].key, run[0].now).0, run[1..]);
    }
  }

  // ----- The retry hint is exact -----

  /** The attempts a run admits are in the log in the order they were made, none later than the clock. */
  ghost predicate Chronological(stamps: seq<int>, t: int) {
    Ascending(stamps) && forall i :: 0 <= i < |stamps| ==> stamps[i] <= t
  }

  lemma {:induction false} RunKeepsChronology(s: Limiter, log: Log, t: int, run: seq<Attempt>, key: string)
    requires Chronological(StampsOf(log, key), t) && Clocked(t, run)
    ensures Chronological(StampsOf(LogAfter(s, log, run), key), LastTime(t, run))
    decreases |run|
  {
    hide Hit, Admits;
    if run == [] {
    } else {
      RunKeepsChronology(Hit(s, run[0].key, run[0].now).0, NextLog(s, log, run[0]), run[0].now, run[1..], key);
    }
  }

  predicate Full(stamps: seq<int>, limit: int, windowMs: int, u: int) {
    |Recent(stamps, u - windowMs)| >= limit
  }

  /** The key's full log refuses it at every instant from `t` until the deadline. */
  ghost predicate Blocked(stamps: seq<int>, limit: int, windowMs: int, t: int, deadline: int) {
    forall u :: t <= u < deadline ==> Full(stamps, limit, windowMs, u)
  }

  lemma BlockedStepIsRefused(s: Limiter, log: Log, t: int, a: Attempt, key: string, deadline: int)
    requires Tracks(s, log, t) && t <= a.now && Blocked(StampsOf(log, key), s.limit, s.windowMs, t, deadline)
    requires a.key == key ==> a.now < deadline
    ensures a.key == key ==> !Hit(s, a.key, a.now).1.Allowed?
    ensures StampsOf(NextLog(s, log, a), key) == StampsOf(log, key)
  {
    StepDecidesAlike(s, log, t, a);
    hide Hit, Tracks, RefusedAtCap;
    if a.key == key {
      assert Full(StampsOf(log, key), s.limit, s.windowMs, a.now);
    }
  }

  /** While a key is blocked, its attempts are refused and leave its log alone, whatever other keys do. */
  lemma {:induction false} BlockedKeyIsRefused(s: Limiter, log: Log, t: int, run: seq<Attempt>, key: string,
                                               deadline: int)
    requires Tracks(s, log, t) && Clocked(t, run)
    requires Blocked(StampsOf(log, key), s.limit, s.windowMs, t, deadline)
    requires forall i :: 0 <= i < |run| && run[i].key == key ==> run[i].now < deadline
    ensures forall i :: 0 <= i < |run| && run[i].key == key ==> !Decisions(s, run)[i]
    ensures StampsOf(LogAfter(s, log, run), key) == StampsOf(log, key)
    decreases |run|
  {
    hide Hit, Tracks, NextLog, Full;
    if run == [] {
    } else {
      var a := run[0];
      BlockedStepIsRefused(s, log, t, a, key, deadline);
      StepAgrees(s, log, t, a);
      HitKeepsSettings(s, a);
      BlockedKeyIsRefused(Hit(s, a.key, a.now).0, NextLog(s, log, a), a.now, run[1..], key, deadline);
    }
  }

  /** A key whose log is at its limit is blocked until the oldest of its stamps leaves the window. */
  lemma LimitBlocksUntilOldestLeaves(stamps: seq<int>, limit: int, windowMs: int, now: int)
    requires Ascending(stamps) && limit >= 1 && |Recent(stamps, now - windowMs)| == limit
    ensures var oldest := Recent(stamps, now - windowMs)[0];
            && oldest > now - windowMs
            && Blocked(stamps, limit, windowMs, now, oldest + windowMs)
            && forall u :: u >= oldest + windowMs ==> !Full(stamps, limit, windowMs, u)
  {
    var recent := Recent(stamps, now - windowMs);
    RecentAscends(stamps, now - windowMs);
    assert recent[0] in recent;
    forall u | u >= now
      ensures Full(stamps, limit, windowMs, u) <==> u < recent[0] + windowMs
    {
      FullUntilOldestLeaves(stamps, recent, windowMs, now, u);
    }
    hide Full, Recent;
  }

  lemma FullUntilOldestLeaves(stamps: seq<int>, recent: seq<int>, windowMs: int, now: int, u: int)
    requires recent == Recent(stamps, now - windowMs) && Ascending(recent) && recent != [] && now <= u
    ensures Full(stamps, |recent|, windowMs, u) <==> u < recent[0] + windowMs
  {
    hide Recent;
    RecentOfRecent(stamps, now - windowMs, u - windowMs);
    if u < recent[0] + windowMs {
      RecentKeepsAll(recent, u - windowMs);
    } else {
      RecentDropsFirst(recent, u - windowMs);
    }
  }

  lemma {:induction false} RecentIsInWindow(stamps: seq<int>, now: int, windowMs: int)
    requires forall i :: 0 <= i < |stamps| ==> stamps[i] <= now
    ensures |Recent(stamps, now - windowMs)| == |InWindow(stamps, now - windowMs, windowMs)|
  {
    if stamps == [] {
    } else {
      RecentIsInWindow(stamps[..|stamps| - 1], now, windowMs);
    }
  }

  /**
   * A refusal over the limit tells exactly when to come back. Between the refusal and
   * `now + retryAfterMs`, every attempt of that key is refused, however many there are
   * and whatever other keys do; its first attempt from then on is admitted if and only
   * if there is room for the key, as there is while the key is still tracked.
   */
  lemma {:induction false} RetryAfterIsExact(limit: int, windowMs: int, t0: int, before: seq<Attempt>, key: string,
                                             now: int, between: seq<Attempt>, t: int)
    requires limit >= 1 && Clocked(t0, before) && LastTime(t0, before) <= now
    requires Clocked(now, between) && LastTime(now, between) <= t
    requires var s := Run(Start(limit, windowMs), before);
             !RefusedAtCap(s, key, now) && Hit(s, key, now).1.Refused?
    requires var s := Run(Start(limit, windowMs), before);
             var retry := Hit(s, key, now).1.retryAfterMs;
             retry.Some? ==> forall i :: 0 <= i < |between| && between[i].key == key ==>
               between[i].now < now + retry.value
    ensures var s := Run(Start(limit, windowMs), before);
            var (s1, d) := Hit(s, key, now);
            var s2 := Run(s1, between);
            && d.retryAfterMs.Some? && d.retryAfterMs.value >= 1
            && (forall i :: 0 <= i < |between| && between[i].key == key ==> !Decisions(s1, between)[i])
            && (t < now + d.retryAfterMs.value ==> Hit(s2, key, t).1.Refused?)
            && (t >= now + d.retryAfterMs.value ==> (Hit(s2, key, t).1.Allowed? <==> !RefusedAtCap(s2, key, t)))
            && (key in s2.hits ==> !RefusedAtCap(s2, key, t))
  {
    var init := Start(limit, windowMs);
    var s := Run(init, before);
    var log := LogAfter(init, map[], before);
    StartTracks(limit, windowMs, t0);
    RunsAgree(init, map[], t0, before);
    RunKeepsChronology(init, map[], t0, before, key);
    RunKeepsLimit(init, map[], before);
    RunKeepsSettings(init, before);
    TracksLater(s, log, LastTime(t0, before), now);
    assert WithinLimit(StampsOf(log, key), limit, windowMs);
    hide Run, LogAfter;
    RefusalIsExact(s, log, key, now, between, t);
  }

  ghost predicate NothingTracked(hits: Log) {
    forall key :: key in hits ==> hits[key] == []
  }

  lemma {:induction false} LimitBelowOneTracksNothing(s: Limiter, run: seq<Attempt>)
    requires s.limit <= 0 && NothingTracked(s.hits)
    ensures NothingTracked(Run(s, run).hits)
    decreases |run|
  {
    if run == [] {
    } else {
      var a := run[0];
      HitKeepsSettings(s, a);
      LimitBelowOneTracksNothing(Hit(s, a.key, a.now).0, run[1..]);
    }
  }

  /**
   * Exactly when a refusal over the limit carries a retry hint: for a limit of at least
   * 1. Below that every attempt is refused, and the source computes NaN.
   */
  lemma {:induction false} RetryHintIff(limit: int, windowMs: int, run: seq<Attempt>, key: string, now: int)
    requires !RefusedAtCap(Run(Start(limit, windowMs), run), key, now)
    ensures var d := Hit(Run(Start(limit, windowMs), run), key, now).1;
            && (limit <= 0 ==> d == Refused(None))
            && (d.Refused? ==> (d.retryAfterMs.Some? <==> limit >= 1))
  {
    var s := Run(Start(limit, windowMs), run);
    RunKeepsSettings(Start(limit, windowMs), run);
    if limit <= 0 {
      LimitBelowOneTracksNothing(Start(limit, windowMs), run);
      assert StampsOf(AfterPrune(s, key, now), key) == [];
    }
  }

  lemma TracksLater(s: Limiter, log: Log, t: int, t': int)
    requires Tracks(s, log, t) && t <= t'
    ensures Tracks(s, log, t')
  {
    forall key
      ensures Agrees(StampsOf(s.hits, key), StampsOf(log, key), t' - s.windowMs)
    {
      AgreesLater(StampsOf(s.hits, key), StampsOf(log, key), t - s.windowMs, t' - s.windowMs);
    }
  }

  lemma {:induction false} RunKeepsSettings(s: Limiter, run: seq<Attempt>)
    ensures Run(s, run).limit == s.limit && Run(s, run).windowMs == s.windowMs
    decreases |run|
  {
    if run == [] {
    } else {
      HitKeepsSettings(s, run[0]);
      hide Hit;
      RunKeepsSettings(Hit(s, run[0].key, run[0].now).0, run[1..]);
    }
  }

  /** What a refusal over the limit says about the key's log. */
  lemma {:induction false} RefusedAtLimit(s: Limiter, log: Log, key: string, now: int)
    requires Tracks(s, log, now) && s.limit >= 1 && Chronological(StampsOf(log, key), now)
    requires WithinLimit(StampsOf(log, key), s.limit, s.windowMs)
    requires !RefusedAtCap(s, key, now) && Hit(s, key, now).1.Refused?
    ensures var recent := Recent(StampsOf(log, key), now - s.windowMs);
            && |recent| == s.limit && Hit(s, key, now).1 == Refused(Some(recent[0] + s.windowMs - now))
            && recent[0] + s.windowMs - now >= 1
            && NextLog(s, log, Attempt(key, now)) == log
  {
    hide Recent, InWindow, AfterPrune, Tracks;
    var stamps := StampsOf(log, key);
    PruningAgrees(s, log, now, Attempt(key, now), key);
    RecentIsInWindow(stamps, now, s.windowMs);
    assert |InWindow(stamps, now - s.windowMs, s.windowMs)| <= s.limit;
    var recent := Recent(stamps, now - s.windowMs);
    assert recent == Recent(StampsOf(AfterPrune(s, key, now), key), now - s.windowMs);
    assert recent[0] in recent;
  }

  lemma {:induction false} RefusalIsExact(s: Limiter, log: Log, key: string, now: int, between: seq<Attempt>, t: int)
    requires Tracks(s, log, now) && s.limit >= 1 && Chronological(StampsOf(log, key), now)
    requires WithinLimit(StampsOf(log, key), s.limit, s.windowMs)
    requires Clocked(now, between) && LastTime(now, between) <= t
    requires !RefusedAtCap(s, key, now) && Hit(s, key, now).1.Refused?
    requires var retry := Hit(s, key, now).1.retryAfterMs;
             retry.Some? ==> forall i :: 0 <= i < |between| && between[i].key == key ==>
               between[i].now < now + retry.value
    ensures var (s1, d) := Hit(s, key, now);
            var s2 := Run(s1, between);
            && d.retryAfterMs.Some? && d.retryAfterMs.value >= 1
            && (forall i :: 0 <= i < |between| && between[i].key == key ==> !Decisions(s1, between)[i])
            && (t < now + d.retryAfterMs.value ==> Hit(s2, key, t).1.Refused?)
            && (t >= now + d.retryAfterMs.value ==> (Hit(s2, key, t).1.Allowed? <==> !RefusedAtCap(s2, key, t)))
            && (key in s2.hits ==> !RefusedAtCap(s2, key, t))
  {
    hide Hit, Tracks, NextLog, Full, RefusedAtCap, Run, LogAfter, Recent, WithinLimit;
    var stamps := StampsOf(log, key);
    var (s1, d) := Hit(s, key, now);
    RefusedAtLimit(s, log, key, now);
    StepAgrees(s, log, now, Attempt(key, now));
    HitKeepsSettings(s, Attempt(key, now));
    LimitBlocksUntilOldestLeaves(stamps, s.limit, s.windowMs, now);
    var deadline := Recent(stamps, now - s.windowMs)[0] + s.windowMs;
    RunsAgree(s1, log, now, between);
    BlockedKeyIsRefused(s1, log, now, between, key, deadline);
    RunKeepsSettings(s1, between);
    TimePasses(now, between);
    NextAttempt(Run(s1, between), LogAfter(s1, log, between), LastTime(now, between), key, t);
  }

  lemma NextAttempt(s: Limiter, log: Log, t: int, key: string, now: int)
    requires Tracks(s, log, t) && t <= now
    ensures Full(StampsOf(log, key), s.limit, s.windowMs, now) ==> Hit(s, key, now).1.Refused?
    ensures !Full(StampsOf(log, key), s.limit, s.windowMs, now) ==>
              (Hit(s, key, now).1.Allowed? <==> !RefusedAtCap(s, key, now))
    ensures key in s.hits ==> !RefusedAtCap(s, key, now)
  {
    StepDecidesAlike(s, log, t, Attempt(key, now));
    TrackedIsNotRefusedAtCap(s, key, now);
    hide Hit, Tracks, RefusedAtCap;
  }

  lemma TrackedIsNotRefusedAtCap(s: Limiter, key: string, now: int)
    ensures key in s.hits ==> !RefusedAtCap(s, key, now)
  {
  }

  lemma {:induction false} TimePasses(t: int, run: seq<Attempt>)
    requires Clocked(t, run)
    ensures t <= LastTime(t, run)
    decreases |run|
  {
    if run == [] {
    } else {
      TimePasses(run[0].now, run[1..]);
    }
  }
}
