/**
 * What a presented bind is told, over whole runs: live, revoked, session not live, unknown
 * or invalid.
 */
module BindStatus {
  import opened Basics
  import opened Ordered
  import opened BindRegistry
  import opened BindEffects
  import opened BindRuns
  import opened BindEndings
  import Text

  /** A blank bind is invalid, and presenting it changes nothing. */
  lemma BlankIsInvalid(s: State, bind: string, liveHere: set<string>, io: Faults)
    requires Text.Trim(bind) == ""
    ensures Present(s, bind, liveHere, io) == (s, Invalid)
  {
    hide Text.Trim;
  }

  lemma AbsentIsUnknown(s: State, bind: string, liveHere: set<string>, io: Faults)
    requires Text.Trim(bind) != "" && !Tracked(s, Sha256(Text.Trim(bind))) && Sha256(Text.Trim(bind)) !in s.revoked
    ensures Present(s, bind, liveHere, io).1 == Unknown
  {
    hide Text.Trim;
  }

  /** A secret that no event of the run minted is unknown. */
  lemma {:induction false} UnmintedIsUnknown(es: seq<Event>, bind: string, liveHere: set<string>, io: Faults)
    requires FreshAfter({}, es) && Text.Trim(bind) != "" && Sha256(Text.Trim(bind)) !in MintedIn(es)
    ensures Present(Run(INIT, es), bind, liveHere, io).1 == Unknown
  {
    hide Present, Run, Text.Trim, MintedIn, FreshAfter;
    EveryRunKeepsTheIndexExact(es);
    assert Sha256(Text.Trim(bind)) !in Known(Run(INIT, es));
    AbsentIsUnknown(Run(INIT, es), bind, liveHere, io);
  }

  /** The registry holds nothing on the bind, not even that it was revoked. */
  ghost predicate Forgotten(s: State, h: Hash) { h !in Known(s) }

  lemma {:induction false} ForgottenStaysForgotten(s: State, es: seq<Event>, used: set<Hash>, h: Hash)
    requires Sound(s, used) && FreshAfter(used, es) && h in used && Forgotten(s, h)
    ensures Forgotten(Run(s, es), h)
    decreases |es|
  {
    hide Step, Sound, Mints;
    if es == [] {
    } else {
      StepKeepsSound(s, es[0], used);
      ForgottenStaysForgotten(Step(s, es[0]), es[1..], used + Mints(es[0]), h);
    }
  }

  /** A bind that has ended and lost its row is unknown from the next restart on, for good. */
  lemma {:induction false} EndedIsUnknownAfterRestart(before: seq<Event>, after: seq<Event>, bind: string,
                                                      liveHere: set<string>, io: Faults)
    requires FreshAfter({}, before + [Restarting] + after) && Text.Trim(bind) != ""
    requires Sha256(Text.Trim(bind)) in MintedIn(before) && !Tracked(Run(INIT, before), Sha256(Text.Trim(bind)))
    ensures Present(Run(INIT, before + [Restarting] + after), bind, liveHere, io).1 == Unknown
  {
    hide Present, Run, Step, Text.Trim, MintedIn, FreshAfter;
    var h := Sha256(Text.Trim(bind));
    var s := Run(INIT, before);
    FreshSplit({}, before + [Restarting], after);
    FreshSplit({}, before, [Restarting]);
    MintedSplit(before, Restarting);
    RunSplit(INIT, before + [Restarting], after);
    RunSplit(INIT, before, [Restarting]);
    RunOfOne(s, Restarting);
    ReachedIsSound(before + [Restarting]);
    RestartRemembersRows(s);
    assert {} + MintedIn(before + [Restarting]) == MintedIn(before + [Restarting]);
    hide Sound;
    ForgottenStaysForgotten(Step(s, Restarting), after, MintedIn(before + [Restarting]), h);
    AbsentIsUnknown(Run(INIT, before + [Restarting] + after), bind, liveHere, io);
  }

  lemma RestartRemembersRows(s: State)
    ensures Known(Step(s, Restarting)) == s.rows.at.Keys
  {
  }

  // ----- The log of revocations since the last restart -----

  /** The live binds an event revokes, in the order it revokes them. */
  function RevokedBy(s: State, e: Event): (hs: seq<Hash>) {
    match e
    case Minting(request, _, nowMs, _) => if Mintable(request) then Prior(s, KeyOf(MintedRow(request, nowMs))) else []
    case Revoking(bind, _) =>
      if Text.Trim(bind) != "" && Sha256(Text.Trim(bind)) in s.live.at then [Sha256(Text.Trim(bind))] else []
    case Terminating(sessionId, daemonShutdown, _) =>
      if daemonShutdown || Text.Trim(sessionId) == "" then []
      else Naming(s.live.order, s.live.at, Text.Trim(sessionId))
    case _ => []
  }

  /** They are exactly the live binds the event ends, each once. */
  lemma RevokedByIsWhatEnds(s: State, e: Event)
    requires IndexExact(s)
    ensures Distinct(RevokedBy(s, e)) && forall h :: h in RevokedBy(s, e) <==> h in s.live.at && Ends(s, e, h)
  {
    hide Text.Trim;
    match e
    case Minting(request, _, nowMs, _) =>
      forall h
        ensures h in Prior(s, KeyOf(MintedRow(request, nowMs))) <==>
                h in s.live.at && KeyOf(s.live.at[h].row) == KeyOf(MintedRow(request, nowMs))
      {
        assert Indexed(s, KeyOf(MintedRow(request, nowMs)), h) <==> LiveUnder(s, KeyOf(MintedRow(request, nowMs)), h);
      }
    case Terminating(sessionId, daemonShutdown, _) =>
      NamingIsDistinct(s.live.order, s.live.at, Text.Trim(sessionId));
    case _ =>
  }

  lemma {:induction false} NamingIsDistinct(listed: seq<Hash>, entries: map<Hash, Entry>, sid: string)
    requires Distinct(listed)
    ensures Distinct(Naming(listed, entries, sid))
    decreases |listed|
  {
    if listed == [] {
    } else {
      NamingIsDistinct(listed[1..], entries, sid);
      assert listed[0] !in listed[1..];
    }
  }

  function LogFrom(log: seq<Hash>, s: State, es: seq<Event>): (r: seq<Hash>)
    decreases |es|
  {
    if es == [] then log
    else LogFrom(if es[0].Restarting? then [] else log + RevokedBy(s, es[0]), Step(s, es[0]), es[1..])
  }

  function LastOf(n: nat, log: seq<Hash>): (r: seq<Hash>) {
    if |log| <= n then log else log[|log| - n..]
  }

  function RememberAll(revoked: seq<Hash>, hs: seq<Hash>): (r: seq<Hash>)
    decreases |hs|
  {
    if hs == [] then revoked else RememberAll(RememberRevoked(revoked, hs[0]), hs[1..])
  }

  lemma RememberOne(log: seq<Hash>, h: Hash)
    requires h !in log
    ensures RememberRevoked(LastOf(4096, log), h) == LastOf(4096, log + [h])
  {
    var revoked := LastOf(4096, log);
    assert h !in revoked;
    assert Include(revoked, h) == revoked + [h];
    if |log| >= 4096 {
      assert (revoked + [h])[1..] == (log + [h])[|log| + 1 - 4096..];
    }
  }

  lemma {:induction false} RememberAllIsTail(log: seq<Hash>, hs: seq<Hash>)
    requires Distinct(log + hs)
    ensures RememberAll(LastOf(4096, log), hs) == LastOf(4096, log + hs)
    decreases |hs|
  {
    hide RememberRevoked, LastOf;
    if hs == [] {
      assert log + hs == log;
    } else {
      assert (log + hs)[|log|] == hs[0] && forall i :: 0 <= i < |log| ==> (log + hs)[i] == log[i];
      RememberOne(log, hs[0]);
      assert log + hs == (log + [hs[0]]) + hs[1..];
      RememberAllIsTail(log + [hs[0]], hs[1..]);
    }
  }

  lemma {:induction false} RevokeEachRemembers(s: State, hs: seq<Hash>, io: Faults)
    requires Distinct(hs) && forall h :: h in hs ==> h in s.live.at
    ensures RevokeEach(s, hs, io).revoked == RememberAll(s.revoked, hs)
    decreases |hs|
  {
    if hs == [] {
    } else {
      var m := RevokeByHash(s, hs[0], io);
      RevokeByHashRemoves(s, hs[0], io);
      assert m.revoked == RememberRevoked(s.revoked, hs[0]);
      assert hs[0] !in hs[1..];
      hide RevokeByHash, RememberRevoked;
      RevokeEachRemembers(m, hs[1..], io);
    }
  }

  lemma {:induction false} MintRemembers(s: State, request: MintRequest, secret: string, nowMs: int, io: Faults)
    requires Mintable(request)
    ensures Mint(s, request, secret, nowMs, io).revoked
            == RevokeEach(s, Prior(s, KeyOf(MintedRow(request, nowMs))), io).revoked
  {
    hide Text.Trim, RevokeEach;
  }

  lemma {:induction false} TerminationRemembers(s: State, sessionId: string, io: Faults)
    requires Text.Trim(sessionId) != ""
    ensures RevokeForSession(s, sessionId, io).revoked
            == RevokeEach(s, Naming(s.live.order, s.live.at, Text.Trim(sessionId)), io).revoked
  {
    hide Text.Trim, RevokeEach;
    RevokeNamingIsRevokeEach(s, s.live.order, s.live.at, Text.Trim(sessionId), io);
  }

  /** An event puts what it revokes into the FIFO, in order, and nothing else. */
  lemma StepRemembers(s: State, e: Event)
    requires IndexExact(s) && !e.Restarting?
    ensures Step(s, e).revoked == RememberAll(s.revoked, RevokedBy(s, e))
  {
    RevokedByIsWhatEnds(s, e);
    hide Text.Trim, IndexExact, Mint, Present, RevokeByHash, RevokeForSession, Reconcile, Ends, RememberAll, Distinct;
    RememberNone(s.revoked);
    match e
    case Minting(request, secret, nowMs, io) =>
      if Mintable(request) {
        RevokeEachRemembers(s, RevokedBy(s, e), io);
        MintRemembers(s, request, secret, nowMs, io);
      } else {
        BlankMintDoesNothing(s, request, secret, nowMs, io);
      }
    case Presenting(bind, liveHere, io) =>
      PresentEffect(s, bind, liveHere, io);
    case Revoking(bind, io) =>
      RevocationRemembers(s, Sha256(Text.Trim(bind)), io);
    case Terminating(sessionId, daemonShutdown, io) =>
      if daemonShutdown {
      } else if Text.Trim(sessionId) == "" {
        BlankTerminationDoesNothing(s, sessionId, io);
      } else {
        RevokeEachRemembers(s, RevokedBy(s, e), io);
        TerminationRemembers(s, sessionId, io);
      }
    case Reconciling(liveSessions, liveHere, io) =>
      ReconcileEffect(s, liveSessions, liveHere, io);
  }

  lemma {:induction false} RememberNone(revoked: seq<Hash>)
    ensures RememberAll(revoked, []) == revoked
  {
  }

  lemma RevocationRemembers(s: State, h: Hash, io: Faults)
    ensures RevokeByHash(s, h, io).revoked == RememberAll(s.revoked, if h in s.live.at then [h] else [])
  {
    hide RememberRevoked;
    assert [h][1..] == [];
  }

  lemma BlankTerminationDoesNothing(s: State, sessionId: string, io: Faults)
    requires Text.Trim(sessionId) == ""
    ensures RevokeForSession(s, sessionId, io) == s
  {
    hide Text.Trim;
  }

  // ----- Revoked, while it is remembered -----

  /** The FIFO holds `h`, with at most `k` hashes behind it. */
  ghost predicate Remembered(revoked: seq<Hash>, h: Hash, k: nat) {
    exists i :: 0 <= i < |revoked| && revoked[i] == h && |revoked| - 1 - i <= k
  }

  lemma OlderByOne(revoked: seq<Hash>, h: Hash, k: nat, x: Hash)
    requires Remembered(revoked, h, k) && k < 4095 && |revoked| <= 4096
    ensures Remembered(RememberRevoked(revoked, x), h, k + 1) && |RememberRevoked(revoked, x)| <= 4096
  {
    var i :| 0 <= i < |revoked| && revoked[i] == h && |revoked| - 1 - i <= k;
    var r := RememberRevoked(revoked, x);
    if x in revoked {
      assert r[i] == h;
    } else if |revoked| < 4096 {
      assert r[i] == h;
    } else {
      assert r[i - 1] == h;
    }
  }

  lemma {:induction false} OlderByMany(revoked: seq<Hash>, h: Hash, k: nat, hs: seq<Hash>)
    requires Remembered(revoked, h, k) && k + |hs| <= 4095 && |revoked| <= 4096
    ensures Remembered(RememberAll(revoked, hs), h, k + |hs|)
    decreases |hs|
  {
    hide RememberRevoked, Remembered;
    if hs == [] {
    } else {
      OlderByOne(revoked, h, k, hs[0]);
      OlderByMany(RememberRevoked(revoked, hs[0]), h, k + 1, hs[1..]);
    }
  }

  lemma {:induction false} RememberedInBatch(revoked: seq<Hash>, hs: seq<Hash>, i: nat)
    requires i < |hs| && |hs| - i <= 4096 && Distinct(hs) && Distinct(revoked) && |revoked| <= 4096
    requires hs[i] !in revoked
    ensures Remembered(RememberAll(revoked, hs), hs[i], |hs| - 1 - i)
    decreases |hs|
  {
    hide Remembered, RememberRevoked;
    RememberedLast(revoked, hs[0]);
    if i == 0 {
      hide Distinct;
      NewestIsLast(revoked, hs[0]);
      OlderByMany(RememberRevoked(revoked, hs[0]), hs[0], 0, hs[1..]);
    } else {
      assert hs[i] != hs[0] && hs[i] == hs[1..][i - 1];
      assert Distinct(hs[1..]);
      hide Distinct;
      RememberedInBatch(RememberRevoked(revoked, hs[0]), hs[1..], i - 1);
    }
  }

  lemma NewestIsLast(revoked: seq<Hash>, h: Hash)
    requires h !in revoked && |revoked| <= 4096
    ensures Remembered(RememberRevoked(revoked, h), h, 0)
  {
    var r := RememberRevoked(revoked, h);
    assert r[|r| - 1] == h;
  }

  lemma {:induction false} RememberedOverRun(s: State, es: seq<Event>, used: set<Hash>, h: Hash, k: nat, log: seq<Hash>)
    requires Sound(s, used) && FreshAfter(used, es) && forall e :: e in es ==> !e.Restarting?
    requires Remembered(s.revoked, h, k) && k + |LogFrom(log, s, es)| - |log| <= 4095
    ensures h in Run(s, es).revoked
    decreases |es|
  {
    SoundParts(s, used);
    hide Step, Remembered, RevokedBy, Mints, Sound, IndexExact, FifoBounded, RememberAll;
    if es == [] {
      assert h in s.revoked by {
        RememberedIsMember(s.revoked, h, k);
      }
    } else {
      var hs := RevokedBy(s, es[0]);
      StepRemembers(s, es[0]);
      LogGrows(log + hs, Step(s, es[0]), es[1..]);
      OlderByMany(s.revoked, h, k, hs);
      StepKeepsSound(s, es[0], used);
      RememberedOverRun(Step(s, es[0]), es[1..], used + Mints(es[0]), h, k + |hs|, log + hs);
    }
  }

  lemma SoundParts(s: State, used: set<Hash>)
    requires Sound(s, used)
    ensures IndexExact(s) && FifoBounded(s) && |s.revoked| <= 4096
  {
    hide IndexExact, Known;
  }

  lemma RememberedIsMember(revoked: seq<Hash>, h: Hash, k: nat)
    requires Remembered(revoked, h, k)
    ensures h in revoked
  {
  }

  lemma {:induction false} LogGrows(log: seq<Hash>, s: State, es: seq<Event>)
    requires forall e :: e in es ==> !e.Restarting?
    ensures |LogFrom(log, s, es)| >= |log|
    decreases |es|
  {
    hide Step, RevokedBy;
    if es == [] {
    } else {
      LogGrows(log + RevokedBy(s, es[0]), Step(s, es[0]), es[1..]);
    }
  }

  /**
   * A live bind that is revoked and loses its row is told so until the daemon restarts or
   * 4096 later revocations have pushed it out, whatever the store does meanwhile. The
   * revocations of the ending event itself count from the bind's own place on.
   */
  lemma {:induction false} RevokedIsReported(before: seq<Event>, e: Event, after: seq<Event>, bind: string, i: nat,
                                             liveHere: set<string>, io: Faults)
    requires FreshAfter({}, before + [e] + after) && Text.Trim(bind) != ""
    requires forall e' :: e' in [e] + after ==> !e'.Restarting?
    requires var s := Run(INIT, before); var h := Sha256(Text.Trim(bind)); var hs := RevokedBy(s, e);
             && i < |hs| && hs[i] == h && h !in s.revoked && !RowStays(s, e, h)
             && |LogFrom(hs, Step(s, e), after)| - i <= 4096
    ensures Present(Run(INIT, before + [e] + after), bind, liveHere, io).1 == Revoked
  {
    hide Present, Run, Step, Text.Trim, Ends, RowStays, RevokedBy, LogFrom, MintedIn, FreshAfter;
    var h := Sha256(Text.Trim(bind));
    var s := Run(INIT, before);
    ListedIsEnded(before, e, after, h);
    RevokedIsRemembered(before, e, after, h, i);
    EndedIsNotTracked(before, e, after, h);
    RememberedIsRevoked(Run(INIT, before + [e] + after), bind, liveHere, io);
  }

  lemma {:induction false} ListedIsEnded(before: seq<Event>, e: Event, after: seq<Event>, h: Hash)
    requires FreshAfter({}, before + [e] + after) && h in RevokedBy(Run(INIT, before), e)
    ensures Ends(Run(INIT, before), e, h)
  {
    hide Run, Ends, RevokedBy, MintedIn, FreshAfter;
    SplitAt(before, e, after);
    ReachedIsSound(before);
    SoundParts(Run(INIT, before), MintedIn(before));
    RevokedByIsWhatEnds(Run(INIT, before), e);
  }

  lemma {:induction false} RevokedIsRemembered(before: seq<Event>, e: Event, after: seq<Event>, h: Hash, i: nat)
    requires FreshAfter({}, before + [e] + after) && forall e' :: e' in [e] + after ==> !e'.Restarting?
    requires var s := Run(INIT, before); var hs := RevokedBy(s, e);
             i < |hs| && hs[i] == h && h !in s.revoked && |LogFrom(hs, Step(s, e), after)| - i <= 4096
    ensures h in Run(INIT, before + [e] + after).revoked
  {
    hide Run, Step, Ends, RevokedBy, LogFrom, Remembered, Mints, MintedIn, FreshAfter, RememberAll;
    var s := Run(INIT, before);
    var hs := RevokedBy(s, e);
    SplitAt(before, e, after);
    ReachedIsSound(before);
    ReachedIsSound(before + [e]);
    SoundParts(s, MintedIn(before));
    FifoIsDistinct(s);
    hide Sound, FifoBounded;
    assert e in [e] + after && forall e' :: e' in after ==> e' in [e] + after;
    RevokedByIsWhatEnds(s, e);
    StepRemembers(s, e);
    hide IndexExact, Distinct;
    LogGrows(hs, Step(s, e), after);
    RememberedInBatch(s.revoked, hs, i);
    RememberedOverRun(Step(s, e), after, MintedIn(before + [e]), h, |hs| - 1 - i, hs);
  }

  lemma FifoIsDistinct(s: State)
    requires FifoBounded(s)
    ensures Distinct(s.revoked)
  {
  }

  lemma {:induction false} EndedIsNotTracked(before: seq<Event>, e: Event, after: seq<Event>, h: Hash)
    requires FreshAfter({}, before + [e] + after)
    requires Ends(Run(INIT, before), e, h) && !RowStays(Run(INIT, before), e, h)
    ensures !Tracked(Run(INIT, before + [e] + after), h)
  {
    hide Run, Step, Text.Trim, Ends, RowStays, Mints, MintedIn, FreshAfter;
    var s := Run(INIT, before);
    SplitAt(before, e, after);
    ReachedIsSound(before);
    ReachedIsSound(before + [e]);
    FreshOfOne(MintedIn(before), e);
    EndsTracked(s, e, h);
    assert h in Known(s);
    EndingLeavesRowIff(s, e, h);
    DeadStaysDead(Step(s, e), after, MintedIn(before + [e]), h);
  }

  lemma {:induction false} FreshOfOne(used: set<Hash>, e: Event)
    requires FreshAfter(used, [e])
    ensures Mints(e) !! used
  {
    hide Mints;
  }

  lemma EndsTracked(s: State, e: Event, h: Hash)
    requires Ends(s, e, h)
    ensures Tracked(s, h)
  {
    hide Text.Trim;
  }

  lemma RememberedIsRevoked(s: State, bind: string, liveHere: set<string>, io: Faults)
    requires Text.Trim(bind) != "" && Sha256(Text.Trim(bind)) in s.revoked && !Tracked(s, Sha256(Text.Trim(bind)))
    ensures Present(s, bind, liveHere, io).1 == Revoked
  {
    hide Text.Trim;
  }

  // ----- Over a working store, the FIFO is the tail of the log -----

  ghost predicate LogIs(s: State, log: seq<Hash>) {
    s.revoked == LastOf(4096, log) && Distinct(log) && forall h :: h in log ==> !Tracked(s, h)
  }

  lemma StepKeepsLog(s: State, e: Event, used: set<Hash>, log: seq<Hash>)
    requires Sound(s, used) && Mints(e) !! used && Clean(e) && !e.Restarting?
    requires LogIs(s, log) && forall h :: h in log ==> h in used
    ensures LogIs(Step(s, e), log + RevokedBy(s, e)) && forall h :: h in RevokedBy(s, e) ==> h in used
  {
    hide Step, Ends, RowStays, RevokedBy, LastOf, Clean, IndexExact, FifoBounded, RememberAll;
    var hs := RevokedBy(s, e);
    RevokedByIsWhatEnds(s, e);
    StepRemembers(s, e);
    StepKeepsSound(s, e, used);
    DistinctTogether(log, hs);
    hide Distinct;
    RememberAllIsTail(log, hs);
    forall h | h in log + hs
      ensures !Tracked(Step(s, e), h) && h in used
    {
      if h in hs {
        EndingLeavesRowIff(s, e, h);
        CleanEndingsDelete(s, e, h);
        assert h in Known(s);
      }
    }
  }

  lemma DistinctTogether(a: seq<Hash>, b: seq<Hash>)
    requires Distinct(a) && Distinct(b) && forall h :: h in a ==> h !in b
    ensures Distinct(a + b)
  {
    forall i, j | 0 <= i < j < |a + b|
      ensures (a + b)[i] != (a + b)[j]
    {
      if i < |a| <= j {
        assert a[i] in a && b[j - |a|] in b;
      }
    }
  }

  lemma {:induction false} RunKeepsLog(s: State, es: seq<Event>, used: set<Hash>, log: seq<Hash>)
    requires Sound(s, used) && FreshAfter(used, es) && forall e :: e in es ==> Clean(e)
    requires LogIs(s, log) && forall h :: h in log ==> h in used
    ensures LogIs(Run(s, es), LogFrom(log, s, es))
    decreases |es|
  {
    hide Step, RevokedBy, Clean, LogIs, Mints;
    if es == [] {
    } else {
      var e := es[0];
      StepKeepsSound(s, e, used);
      if e.Restarting? {
        RestartClearsLog(s);
        RunKeepsLog(Step(s, e), es[1..], used + Mints(e), []);
      } else {
        StepKeepsLog(s, e, used, log);
        RunKeepsLog(Step(s, e), es[1..], used + Mints(e), log + RevokedBy(s, e));
      }
    }
  }

  lemma RestartClearsLog(s: State)
    ensures LogIs(Step(s, Restarting), [])
  {
  }

  /** Over a working store the FIFO holds exactly the last 4096 revocations since the last restart, oldest first. */
  lemma {:induction false} FifoIsTheLastRevocations(es: seq<Event>)
    requires FreshAfter({}, es) && forall e :: e in es ==> Clean(e)
    ensures Run(INIT, es).revoked == LastOf(4096, LogFrom([], INIT, es))
  {
    hide Run, LogFrom;
    ReachedIsSound([]);
    assert LogIs(INIT, []);
    RunKeepsLog(INIT, es, {}, []);
  }

  /**
   * Everything a minted bind can be told, over every run on a working store. While it has
   * not been ended: live, with the fields of its request, if it is in memory or its
   * session is live here, and session not live otherwise. Once ended: revoked while it is
   * among the last 4096 revocations since the last restart, and unknown after that.
   */
  lemma {:induction false} StatusOverRuns(before: seq<Event>, mint: Event, after: seq<Event>, liveHere: set<string>,
                                          io: Faults)
    requires FreshAfter({}, before + [mint] + after) && GoodMint(mint) && !io.get
    requires forall e :: e in before + [mint] + after ==> Clean(e)
    ensures var run := before + [mint] + after; var s := Run(INIT, run); var h := Sha256(mint.secret);
            Present(s, mint.secret, liveHere, io).1 ==
              if !EndedIn(Run(INIT, before + [mint]), after, h) then
                if h in s.live.at || Text.Trim(mint.request.sessionId) in liveHere
                then Live(Binding(mint.secret, AskedFor(mint.request, mint.nowMs), RestartedIn(after)))
                else SessionNotLive
              else if h in LastOf(4096, LogFrom([], INIT, run)) then Revoked else Unknown
  {
    hide Present, Run, Step, Text.Trim, EndedIn, Mints, MintedIn, FreshAfter, LogFrom, LastOf, Clean,
         AskedFor, RestartedIn;
    var run := before + [mint] + after;
    var h := Sha256(mint.secret);
    SplitAt(before, mint, after);
    assert forall e :: e in after ==> e in run;
    if !EndedIn(Run(INIT, before + [mint]), after, h) {
      MintedBindSurvives(before, mint, after, liveHere, io);
    } else {
      FifoIsTheLastRevocations(run);
      EndedMintIsDead(before, mint, after);
      var s := Run(INIT, run);
      if h in s.revoked {
        RememberedIsRevoked(s, mint.secret, liveHere, io);
      } else {
        AbsentIsUnknown(s, mint.secret, liveHere, io);
      }
    }
  }

  /** A run of three parts: where it is, and what is fresh in each. */
  lemma {:induction false} SplitAt(before: seq<Event>, e: Event, after: seq<Event>)
    requires FreshAfter({}, before + [e] + after)
    ensures FreshAfter({}, before) && FreshAfter(MintedIn(before), [e] + after) && FreshAfter(MintedIn(before), [e])
    ensures FreshAfter({}, before + [e]) && FreshAfter(MintedIn(before + [e]), after)
    ensures MintedIn(before + [e]) == MintedIn(before) + Mints(e)
    ensures Run(INIT, before + [e]) == Step(Run(INIT, before), e)
    ensures Run(INIT, before + [e] + after) == Run(Step(Run(INIT, before), e), after)
  {
    hide Run, Step, Mints, MintedIn, FreshAfter;
    assert before + [e] + after == before + ([e] + after);
    FreshSplit({}, before, [e] + after);
    FreshSplit({}, before + [e], after);
    FreshSplit({}, before, [e]);
    assert {} + MintedIn(before) == MintedIn(before) && {} + MintedIn(before + [e]) == MintedIn(before + [e]);
    MintedSplit(before, e);
    RunSplit(INIT, before + [e], after);
    RunSplit(INIT, before, [e]);
    RunOfOne(Run(INIT, before), e);
  }

  lemma {:induction false} EndedMintIsDead(before: seq<Event>, mint: Event, after: seq<Event>)
    requires FreshAfter({}, before) && FreshAfter(MintedIn(before), [mint] + after) && GoodMint(mint)
    requires forall e :: e in after ==> Clean(e)
    requires EndedIn(Step(Run(INIT, before), mint), after, Sha256(mint.secret))
    ensures !Tracked(Run(Step(Run(INIT, before), mint), after), Sha256(mint.secret))
  {
    hide Step, Run, Ends, Held, MintedRow, Text.Trim, Clean;
    var h := Sha256(mint.secret);
    var s := Run(INIT, before);
    ReachedIsSound(before);
    assert ([mint] + after)[1..] == after;
    MintIsHeld(s, mint);
    StepKeepsSound(s, mint, MintedIn(before));
    MintsItsSecret(mint);
    CleanRunDeletes(Step(s, mint), after, h);
    hide Sound, EndedIn, EndingsDelete, Mints;
    EndedInRunIsDead(Step(s, mint), after, MintedIn(before) + Mints(mint), h,
                     AskedFor(mint.request, mint.nowMs), false);
  }
}
