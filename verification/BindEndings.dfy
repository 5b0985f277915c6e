/**
 * The life of one bind, from its mint to its end, across daemon restarts and store
 * failures: what ends it, when its end is final, and that nothing else ends it.
 */
module BindEndings {
  import opened Basics
  import opened Ordered
  import opened BindRegistry
  import opened BindEffects
  import opened BindRuns
  import Text

  // ----- What ends a bind -----

  /** The registry or its store still has something on the bind. */
  predicate Tracked(s: State, h: Hash) { h in s.live.at || h in s.rows.at }

  function RowOf(s: State, h: Hash): (row: Row)
    requires Tracked(s, h)
  {
    if h in s.live.at then s.live.at[h].row else s.rows.at[h]
  }

  /**
   * The event ends the bind, live or waiting in the store to be adopted again: a re-mint
   * for its session key, its revocation, the end of its session, or a reconcile that finds
   * it waiting and its session gone. A restart ends nothing.
   */
  predicate Ends(s: State, e: Event, h: Hash) {
    Tracked(s, h) &&
    match e
    case Minting(request, _, _, _) =>
      && Text.Trim(request.meshId) != "" && Text.Trim(request.meshId) == RowOf(s, h).mesh
      && Text.Trim(request.sessionId) != "" && Text.Trim(request.sessionId) == RowOf(s, h).session
    case Presenting(_, _, _) => false
    case Revoking(bind, _) => Text.Trim(bind) != "" && Sha256(Text.Trim(bind)) == h
    case Terminating(sessionId, daemonShutdown, _) =>
      !daemonShutdown && Text.Trim(sessionId) != "" && Text.Trim(sessionId) == RowOf(s, h).session
    case Reconciling(liveSessions, _, _) => h !in s.live.at && RowOf(s, h).session !in liveSessions
    case Restarting => false
  }

  /**
   * The store calls of an ending event fail to delete the bind's row. A re-mint tries a
   * live bind's row by its hash, and then lists the rows of the session key, up to the
   * first that cannot be deleted; the end of a session tries by hash and by session.
   */
  ghost predicate RowStays(s: State, e: Event, h: Hash) {
    h in s.rows.at && !e.Restarting? &&
    match e
    case Minting(_, _, _, io) =>
      && (h in s.live.at ==> h in io.deletes)
      && (io.list || Stops(s.rows.order, Throwing(s.rows.at, KeyOf(s.rows.at[h]), io.deletes), h))
    case Revoking(_, io) => h in io.deletes
    case Terminating(_, _, io) => (h in s.live.at ==> h in io.deletes) && io.deleteForSession
    case Reconciling(_, _, io) => io.list || h in io.deletes
    case Presenting(_, _, _) => true
  }

  /** An ended bind is not live, and its row is left if and only if the store calls failed to delete it. */
  lemma EndingLeavesRowIff(s: State, e: Event, h: Hash)
    requires IndexExact(s) && FifoBounded(s) && EntriesMatchRows(s) && Mints(e) !! Known(s)
    requires Ends(s, e, h)
    ensures h !in Step(s, e).live.at && (h in Step(s, e).rows.at <==> RowStays(s, e, h))
  {
    hide Text.Trim, IndexExact, Stops, Throwing;
    match e
    case Minting(request, secret, nowMs, io) =>
      assert Sha256(secret) in Mints(e);
      MintEffect(s, request, secret, nowMs, io);
      if h in s.rows.at {
        MintLeavesRowIff(s, request, secret, nowMs, io, h);
      }
      hide Mint;
    case Revoking(bind, io) =>
      RevokeByHashRemoves(s, Sha256(Text.Trim(bind)), io);
      hide RevokeByHash;
    case Terminating(sessionId, daemonShutdown, io) =>
      RevokeForSessionEffect(s, sessionId, io);
      hide RevokeForSession;
    case Reconciling(liveSessions, liveHere, io) =>
      ReconcileEffect(s, liveSessions, liveHere, io);
      hide Reconcile;
  }

  /** Nothing else ends a bind: a row stays as it is, and a live bind stays live until a restart. */
  lemma OnlyEndingsEnd(s: State, e: Event, h: Hash)
    requires IndexExact(s) && FifoBounded(s) && EntriesMatchRows(s) && Mints(e) !! Known(s)
    requires Tracked(s, h) && !Ends(s, e, h)
    ensures h in s.rows.at ==> h in Step(s, e).rows.at && Step(s, e).rows.at[h] == s.rows.at[h]
    ensures h in s.live.at && !e.Restarting? ==>
              && h in Step(s, e).live.at && Step(s, e).live.at[h].row == s.live.at[h].row
              && Step(s, e).live.at[h].restored == s.live.at[h].restored
  {
    hide Text.Trim, Mint, Present, RevokeByHash, Reconcile, IndexExact, FifoBounded;
    match e
    case Minting(request, secret, nowMs, io) =>
      if Mintable(request) {
        assert Sha256(secret) in Mints(e);
        MintEffect(s, request, secret, nowMs, io);
      } else {
        BlankMintDoesNothing(s, request, secret, nowMs, io);
      }
    case Presenting(bind, liveHere, io) =>
      PresentEffect(s, bind, liveHere, io);
    case Revoking(bind, io) =>
      RevokeByHashRemoves(s, Sha256(Text.Trim(bind)), io);
    case Terminating(sessionId, daemonShutdown, io) =>
      if !daemonShutdown && Text.Trim(sessionId) != "" {
        RevokeForSessionEffect(s, sessionId, io);
        hide RevokeForSession;
      }
    case Reconciling(liveSessions, liveHere, io) =>
      ReconcileEffect(s, liveSessions, liveHere, io);
    case Restarting =>
  }

  // ----- Safety: an ended bind stays dead -----

  ghost predicate Dead(s: State, h: Hash) { !Tracked(s, h) }

  lemma {:induction false} DeadStaysDead(s: State, es: seq<Event>, used: set<Hash>, h: Hash)
    requires Sound(s, used) && FreshAfter(used, es)
    requires Dead(s, h) && h in used
    ensures Dead(Run(s, es), h)
    decreases |es|
  {
    hide Step, Sound, Mints;
    if es == [] {
    } else {
      StepKeepsSound(s, es[0], used);
      DeadStaysDead(Step(s, es[0]), es[1..], used + Mints(es[0]), h);
    }
  }

  /** Some continuation of the run reports the bind live. */
  ghost predicate CanComeBack(s: State, used: set<Hash>, bind: string) {
    exists after, liveHere, io :: FreshAfter(used, after) && Present(Run(s, after), bind, liveHere, io).1.Live?
  }

  lemma {:induction false} ComesBackIffRowIsStored(s: State, used: set<Hash>, bind: string)
    requires Sound(s, used) && Sha256(Text.Trim(bind)) in used
    requires Text.Trim(bind) != "" && Sha256(Text.Trim(bind)) !in s.live.at
    ensures CanComeBack(s, used, bind) <==> Sha256(Text.Trim(bind)) in s.rows.at
  {
    hide Present, Run, Step, Sound, Text.Trim;
    var h := Sha256(Text.Trim(bind));
    if h in s.rows.at {
      RunOfOne(s, Restarting);
      RowIsReportedAfterRestart(s, bind);
      assert FreshAfter(used, [Restarting]);
    } else {
      forall after, liveHere, io | FreshAfter(used, after)
        ensures !Present(Run(s, after), bind, liveHere, io).1.Live?
      {
        DeadStaysDead(s, after, used, h);
        DeadIsNotReported(Run(s, after), bind, liveHere, io);
      }
    }
  }

  /**
   * The exact condition, failures included: a minted bind that is not live can be
   * reported live again if and only if its row is still in the store.
   */
  lemma {:induction false} ComesBackIffItsRowSurvived(before: seq<Event>, bind: string)
    requires FreshAfter({}, before) && Sha256(Text.Trim(bind)) in MintedIn(before)
    requires Text.Trim(bind) != "" && Sha256(Text.Trim(bind)) !in Run(INIT, before).live.at
    ensures CanComeBack(Run(INIT, before), MintedIn(before), bind) <==>
            Sha256(Text.Trim(bind)) in Run(INIT, before).rows.at
  {
    hide Run, Sound, Text.Trim, CanComeBack;
    ReachedIsSound(before);
    ComesBackIffRowIsStored(Run(INIT, before), MintedIn(before), bind);
  }

  /**
   * Told by the ending event alone: a bind that is ended (by a re-mint, its revocation,
   * its session's end or a boot that lost the session), whether it was live or waiting in
   * the store after a restart, can be reported live again if and only if the store calls
   * of that event failed to delete its row.
   */
  lemma {:induction false} EndedComesBackIff(before: seq<Event>, e: Event, bind: string)
    requires FreshAfter({}, before + [e]) && Text.Trim(bind) != ""
    requires Ends(Run(INIT, before), e, Sha256(Text.Trim(bind)))
    ensures var h := Sha256(Text.Trim(bind)); var s := Run(INIT, before);
            CanComeBack(Step(s, e), MintedIn(before) + Mints(e), bind) <==> RowStays(s, e, h)
  {
    hide Step, Run, Mints, Text.Trim, CanComeBack, RowStays;
    var h := Sha256(Text.Trim(bind));
    var s := Run(INIT, before);
    FreshSplit({}, before, [e]);
    ReachedIsSound(before);
    StepKeepsSound(s, e, MintedIn(before));
    EndingLeavesRowIff(s, e, h);
    assert h in Known(s);
    hide Sound, Known;
    ComesBackIffRowIsStored(Step(s, e), MintedIn(before) + Mints(e), bind);
  }

  /**
   * An ended bind is never reported live again: not after restarts and reconciles, not
   * once it has left the FIFO, not if it was waiting in the store when it was ended, and
   * not if any other store call threw then or throws later. Only its own row has to go.
   */
  lemma {:induction false} EndedIsNeverLiveAgain(before: seq<Event>, e: Event, after: seq<Event>, bind: string,
                                                 liveHere: set<string>, io: Faults)
    requires FreshAfter({}, before + [e] + after)
    requires var h := Sha256(Text.Trim(bind)); Ends(Run(INIT, before), e, h) && !RowStays(Run(INIT, before), e, h)
    ensures !Present(Run(INIT, before + [e] + after), bind, liveHere, io).1.Live?
  {
    hide Step, Run, Mints, Text.Trim, Ends, RowStays;
    var s := Run(INIT, before);
    FreshSplit({}, before + [e], after);
    RunSplit(INIT, before + [e], after);
    RunSplit(INIT, before, [e]);
    RunOfOne(s, e);
    MintedSplit(before, e);
    if Text.Trim(bind) == "" {
      BlankIsNotReported(Run(INIT, before + [e] + after), bind, liveHere, io);
    } else {
      EndedComesBackIff(before, e, bind);
      hide Present;
      assert {} + MintedIn(before + [e]) == MintedIn(before) + Mints(e);
      assert Run(INIT, before + [e] + after) == Run(Step(s, e), after);
    }
  }

  lemma {:induction false} RunSplit(s: State, a: seq<Event>, b: seq<Event>)
    ensures Run(s, a + b) == Run(Run(s, a), b)
    decreases |a|
  {
    hide Step;
    if a == [] {
      assert a + b == b;
    } else {
      assert (a + b)[1..] == a[1..] + b;
      RunSplit(Step(s, a[0]), a[1..], b);
    }
  }

  lemma {:induction false} FreshSplit(used: set<Hash>, a: seq<Event>, b: seq<Event>)
    requires FreshAfter(used, a + b)
    ensures FreshAfter(used, a) && FreshAfter(used + MintedIn(a), b)
    decreases |a|
  {
    hide Mints;
    if a == [] {
      assert a + b == b && used + {} == used;
    } else {
      assert (a + b)[1..] == a[1..] + b;
      FreshSplit(used + Mints(a[0]), a[1..], b);
      assert used + Mints(a[0]) + MintedIn(a[1..]) == used + MintedIn(a);
    }
  }

  lemma {:induction false} MintedSplit(a: seq<Event>, e: Event)
    ensures MintedIn(a + [e]) == MintedIn(a) + Mints(e)
    decreases |a|
  {
    hide Mints;
    if a == [] {
      assert a + [e] == [e] && [e][1..] == [];
    } else {
      assert (a + [e])[1..] == a[1..] + [e];
      MintedSplit(a[1..], e);
    }
  }

  lemma BlankIsNotReported(s: State, bind: string, liveHere: set<string>, io: Faults)
    requires Text.Trim(bind) == ""
    ensures !Present(s, bind, liveHere, io).1.Live?
  {
    hide Text.Trim;
  }

  /** Over a working store every ending event deletes the row. */
  lemma CleanEndingsDelete(s: State, e: Event, h: Hash)
    requires Clean(e) && Ends(s, e, h)
    ensures !RowStays(s, e, h)
  {
    hide Text.Trim;
    if e.Minting? && h in s.rows.at {
      assert Throwing(s.rows.at, KeyOf(s.rows.at[h]), {}) == {};
      NothingStops(s.rows.order);
    }
  }

  lemma WaitsAfterRestart(request: MintRequest, secret: string, nowMs: int)
    requires Mintable(request)
    ensures var s := Run(INIT, [Minting(request, secret, nowMs, NO_FAULTS), Restarting]);
            Sha256(secret) !in s.live.at && Sha256(secret) in s.rows.at
            && s.rows.at[Sha256(secret)] == MintedRow(request, nowMs)
  {
    hide Text.Trim, Mint, MintedRow, Mintable, Run, KeyOf;
    var mint := Minting(request, secret, nowMs, NO_FAULTS);
    MintEffect(INIT, request, secret, nowMs, NO_FAULTS);
    RunSplit(INIT, [mint], [Restarting]);
    RunOfOne(INIT, mint);
    RunOfOne(Step(INIT, mint), Restarting);
    assert [mint] + [Restarting] == [mint, Restarting];
  }

  /** Such runs exist: any bind can be minted, lose its entry to a restart, and be ended while it waits. */
  lemma EndedWhileWaiting(request: MintRequest, secret: string, nowMs: int)
    requires Mintable(request)
    ensures var mint := Minting(request, secret, nowMs, NO_FAULTS);
            var end := Terminating(request.sessionId, false, NO_FAULTS);
            var s := Run(INIT, [mint, Restarting]);
            && FreshAfter({}, [mint, Restarting, end])
            && Sha256(secret) !in s.live.at && Ends(s, end, Sha256(secret)) && !RowStays(s, end, Sha256(secret))
  {
    hide Text.Trim, Mint, Run, FreshAfter, RowStays, Step;
    var mint := Minting(request, secret, nowMs, NO_FAULTS);
    var end := Terminating(request.sessionId, false, NO_FAULTS);
    WaitsAfterRestart(request, secret, nowMs);
    RunOfThree(INIT, mint, Restarting, end);
    CleanEndingsDelete(Run(INIT, [mint, Restarting]), end, Sha256(secret));
  }

  lemma DeadIsNotReported(s: State, bind: string, liveHere: set<string>, io: Faults)
    requires Dead(s, Sha256(Text.Trim(bind)))
    ensures !Present(s, bind, liveHere, io).1.Live?
  {
  }

  lemma RowIsReportedAfterRestart(s: State, bind: string)
    requires Text.Trim(bind) != "" && Sha256(Text.Trim(bind)) in s.rows.at
    ensures var liveHere := {s.rows.at[Sha256(Text.Trim(bind))].session};
            Present(Step(s, Restarting), bind, liveHere, NO_FAULTS).1.Live?
  {
    hide Text.Trim;
  }

  lemma {:induction false} RunOfOne(s: State, e: Event)
    ensures Run(s, [e]) == Step(s, e)
  {
    hide Step;
    assert [e][1..] == [];
  }

  /**
   * Reconciling does not consult the revoked hashes: if the deletion of a revoked row
   * threw, the next reconcile makes the bind live again, in the same incarnation.
   */
  lemma FailedDeletionIsRehydrated(s: State, secret: string, live: set<string>)
    requires IndexExact(s) && FifoBounded(s) && Text.Trimmed(secret) && secret != ""
    requires Sha256(secret) in s.live.at && Sha256(secret) in s.rows.at && s.rows.at[Sha256(secret)].session in live
    ensures var h := Sha256(secret); var revoked := RevokeBind(s, secret, NO_FAULTS.(deletes := {h}));
            var r := Reconcile(revoked, live, live, NO_FAULTS).0;
            h in r.live.at && h in r.revoked
  {
    hide Reconcile, IndexExact;
    var h := Sha256(secret);
    var io := NO_FAULTS.(deletes := {h});
    FailedDeletionLeavesTheRow(s, h, io);
    var s1 := RevokeByHash(s, h, io);
    hide RevokeByHash;
    ReconcileEffect(s1, live, live, NO_FAULTS);
    assert h in Fated(Rehydrated, s1, live, live);
  }

  /** The shortest such run: mint, revoke with a throwing deletion, reconcile. */
  lemma RevokedAndRehydrated(request: MintRequest, secret: string, nowMs: int)
    requires Mintable(request) && Text.Trimmed(secret) && secret != ""
    ensures var h := Sha256(secret); var live := {MintedRow(request, nowMs).session};
            var run := [Minting(request, secret, nowMs, NO_FAULTS), Revoking(secret, NO_FAULTS.(deletes := {h})),
                        Reconciling(live, live, NO_FAULTS)];
            FreshAfter({}, run) && h in Run(INIT, run).live.at && h in Run(INIT, run).revoked
  {
    hide Text.Trim, Mintable, MintedRow, Mint, RevokeBind, Reconcile, Run, FreshAfter;
    var h := Sha256(secret);
    var live := {MintedRow(request, nowMs).session};
    MintEffect(INIT, request, secret, nowMs, NO_FAULTS);
    MintKeepsMemory(INIT, request, secret, nowMs, NO_FAULTS);
    FailedDeletionIsRehydrated(Mint(INIT, request, secret, nowMs, NO_FAULTS), secret, live);
    RunOfThree(INIT, Minting(request, secret, nowMs, NO_FAULTS), Revoking(secret, NO_FAULTS.(deletes := {h})),
               Reconciling(live, live, NO_FAULTS));
  }

  lemma {:induction false} RunOfThree(s: State, a: Event, b: Event, c: Event)
    ensures Run(s, [a, b, c]) == Step(Step(Step(s, a), b), c)
    ensures Mints(b) == Mints(c) == {} ==> FreshAfter({}, [a, b, c])
  {
    hide Step, Mints;
    assert [a, b, c][1..] == [b, c] && [b, c][1..] == [c] && [c][1..] == [];
    assert Run(Step(s, a), [b, c]) == Run(Step(Step(s, a), b), [c]) == Step(Step(Step(s, a), b), c);
    if Mints(b) == Mints(c) == {} {
      assert FreshAfter({} + Mints(a) + Mints(b), [c]);
      assert FreshAfter({} + Mints(a), [b, c]);
    }
  }

  lemma FailedDeletionLeavesTheRow(s: State, h: Hash, io: Faults)
    requires FifoBounded(s) && h in s.live.at && h in io.deletes
    ensures var r := RevokeByHash(s, h, io);
            h in r.revoked && h !in r.live.at && r.rows == s.rows
  {
    RememberedLast(s.revoked, h);
    RevokeByHashRemoves(s, h, io);
  }

  // ----- Survival: a bind outlives everything that does not end it -----

  predicate RestartedIn(es: seq<Event>) {
    es != [] && (es[0].Restarting? || RestartedIn(es[1..]))
  }

  /** Some event of the run ends the bind. */
  predicate EndedIn(s: State, es: seq<Event>, h: Hash)
    decreases |es|
  {
    es != [] && (Ends(s, es[0], h) || EndedIn(Step(s, es[0]), es[1..], h))
  }

  /** Every event of the run that ends the bind deletes its row. */
  ghost predicate EndingsDelete(s: State, es: seq<Event>, h: Hash)
    decreases |es|
  {
    es == [] || ((Ends(s, es[0], h) ==> !RowStays(s, es[0], h)) && EndingsDelete(Step(s, es[0]), es[1..], h))
  }

  ghost predicate Held(s: State, h: Hash, row: Row, restarted: bool) {
    && h in s.rows.at && s.rows.at[h] == row && h !in s.revoked
    && (h in s.live.at ==> s.live.at[h].row == row && s.live.at[h].restored == restarted)
    && (!restarted ==> h in s.live.at)
  }

  /** What a step makes live was live before, is minted by it, or is adopted from its row. */
  lemma AdoptedFromRow(s: State, e: Event, h: Hash)
    requires IndexExact(s) && FifoBounded(s) && Mints(e) !! Known(s)
    requires h in s.rows.at && h !in s.live.at && h in Step(s, e).live.at
    ensures Step(s, e).live.at[h].row == s.rows.at[h] && Step(s, e).live.at[h].restored
  {
    hide Text.Trim, IndexExact;
    match e
    case Minting(request, secret, nowMs, io) =>
      if Mintable(request) {
        assert Sha256(secret) in Mints(e);
        MintEffect(s, request, secret, nowMs, io);
      }
      hide Mint;
    case Presenting(bind, liveHere, io) =>
      PresentEffect(s, bind, liveHere, io);
      hide Present;
    case Revoking(bind, io) =>
      RevokeByHashRemoves(s, Sha256(Text.Trim(bind)), io);
      hide RevokeByHash;
    case Terminating(sessionId, daemonShutdown, io) =>
      if !daemonShutdown && Text.Trim(sessionId) != "" {
        RevokeForSessionEffect(s, sessionId, io);
        hide RevokeForSession;
      }
    case Reconciling(liveSessions, liveHere, io) =>
      ReconcileEffect(s, liveSessions, liveHere, io);
      hide Reconcile;
    case Restarting =>
  }

  /** A step remembers as revoked only what it ended. */
  lemma RevokedWasEnded(s: State, e: Event, h: Hash)
    requires IndexExact(s) && FifoBounded(s) && EntriesMatchRows(s) && Mints(e) !! Known(s)
    requires h !in s.revoked && h in Step(s, e).revoked
    ensures h in s.live.at && h !in Step(s, e).live.at && !e.Restarting?
  {
    hide Text.Trim, IndexExact;
    match e
    case Minting(request, secret, nowMs, io) =>
      MintKeepsMemory(s, request, secret, nowMs, io);
      hide Mint;
    case Presenting(bind, liveHere, io) =>
      PresentEffect(s, bind, liveHere, io);
      hide Present;
    case Revoking(bind, io) =>
      RevokeByHashRemoves(s, Sha256(Text.Trim(bind)), io);
      RememberedLast(s.revoked, Sha256(Text.Trim(bind)));
    case Terminating(sessionId, daemonShutdown, io) =>
      if !daemonShutdown {
        RevokeForSessionKeepsMemory(s, sessionId, io);
        hide RevokeForSession;
      }
    case Reconciling(liveSessions, liveHere, io) =>
      ReconcileEffect(s, liveSessions, liveHere, io);
      hide Reconcile;
    case Restarting =>
  }

  lemma StepKeepsHeld(s: State, e: Event, h: Hash, row: Row, restarted: bool)
    requires IndexExact(s) && FifoBounded(s) && EntriesMatchRows(s) && Mints(e) !! Known(s)
    requires Held(s, h, row, restarted) && !Ends(s, e, h)
    ensures Held(Step(s, e), h, row, restarted || e.Restarting?)
  {
    hide Step, Ends, IndexExact, FifoBounded;
    OnlyEndingsEnd(s, e, h);
    if h !in s.live.at && h in Step(s, e).live.at {
      AdoptedFromRow(s, e, h);
    }
    if h in Step(s, e).revoked {
      RevokedWasEnded(s, e, h);
    }
    RestartForgets(s, h);
  }

  lemma RestartForgets(s: State, h: Hash)
    ensures h !in Step(s, Restarting).live.at
  {
  }

  lemma {:induction false} RunKeepsHeld(s: State, es: seq<Event>, used: set<Hash>, h: Hash, row: Row, restarted: bool)
    requires Sound(s, used) && FreshAfter(used, es)
    requires Held(s, h, row, restarted) && !EndedIn(s, es, h)
    ensures Held(Run(s, es), h, row, restarted || RestartedIn(es))
    decreases |es|
  {
    hide Step, Ends, Held;
    if es == [] {
    } else {
      StepKeepsSound(s, es[0], used);
      StepKeepsHeld(s, es[0], h, row, restarted);
      RunKeepsHeld(Step(s, es[0]), es[1..], used + Mints(es[0]), h, row, restarted || es[0].Restarting?);
    }
  }

  lemma {:induction false} EndedInRunIsDead(s: State, es: seq<Event>, used: set<Hash>, h: Hash, row: Row,
                                            restarted: bool)
    requires Sound(s, used) && FreshAfter(used, es) && h in used
    requires Held(s, h, row, restarted) && EndedIn(s, es, h) && EndingsDelete(s, es, h)
    ensures Dead(Run(s, es), h)
    decreases |es|
  {
    hide Step, Ends, Held, RowStays;
    if es == [] {
    } else {
      StepKeepsSound(s, es[0], used);
      if Ends(s, es[0], h) {
        EndingLeavesRowIff(s, es[0], h);
        DeadStaysDead(Step(s, es[0]), es[1..], used + Mints(es[0]), h);
      } else {
        StepKeepsHeld(s, es[0], h, row, restarted);
        EndedInRunIsDead(Step(s, es[0]), es[1..], used + Mints(es[0]), h, row, restarted || es[0].Restarting?);
      }
    }
  }

  /** A mint whose row is written, of a secret that can be presented. */
  predicate GoodMint(mint: Event) {
    && mint.Minting? && Text.Trim(mint.request.meshId) != "" && Text.Trim(mint.request.sessionId) != ""
    && !mint.io.put && Text.Trimmed(mint.secret) && mint.secret != ""
  }

  /** The fields a bind carries for life, as its mint asked for them. */
  function AskedFor(request: MintRequest, nowMs: int): (row: Row) {
    Row(mesh := Text.Trim(request.meshId), session := Text.Trim(request.sessionId),
        node := Text.Trim(request.nodeId), taskId := Text.Trim(request.taskId), mintedAtMs := nowMs)
  }

  /**
   * A minted bind survives every run that does not end it (restarts, presentations,
   * shutdowns, other sessions' steps, reconciles that list its session or find it live),
   * whatever store calls that run loses. Presented while it is in memory or its session is
   * live here, it is reported live with exactly the mesh, session, node and task of the
   * request and the time of its mint, marked restored exactly when the daemon restarted in
   * between; otherwise its session is reported as not live.
   */
  lemma {:induction false} MintedBindSurvives(before: seq<Event>, mint: Event, after: seq<Event>, liveHere: set<string>,
                                              io: Faults)
    requires FreshAfter({}, before) && FreshAfter(MintedIn(before), [mint] + after) && GoodMint(mint)
    requires !EndedIn(Step(Run(INIT, before), mint), after, Sha256(mint.secret)) && !io.get
    ensures var s := Run(Step(Run(INIT, before), mint), after); var row := AskedFor(mint.request, mint.nowMs);
            Present(s, mint.secret, liveHere, io).1 ==
              if Sha256(mint.secret) in s.live.at || Text.Trim(mint.request.sessionId) in liveHere
              then Live(Binding(mint.secret, row, RestartedIn(after))) else SessionNotLive
  {
    hide Step, Present, Run, Ends, Held, MintedRow, Mints, Text.Trim;
    var h := Sha256(mint.secret);
    var s := Run(INIT, before);
    ReachedIsSound(before);
    assert ([mint] + after)[1..] == after;
    MintIsHeld(s, mint);
    StepKeepsSound(s, mint, MintedIn(before));
    hide Sound, EndedIn;
    RunKeepsHeld(Step(s, mint), after, MintedIn(before) + Mints(mint), h, AskedFor(mint.request, mint.nowMs), false);
    HeldIsReported(Run(Step(s, mint), after), mint.secret, AskedFor(mint.request, mint.nowMs), RestartedIn(after),
                   liveHere, io);
  }

  /**
   * Safety and survival in one: as long as the events that end the bind delete its row, a
   * minted bind, presented while its session is live here, is reported live if and only
   * if no event has ended it.
   */
  lemma {:induction false} LiveIffNotEnded(before: seq<Event>, mint: Event, after: seq<Event>, liveHere: set<string>,
                                           io: Faults)
    requires FreshAfter({}, before) && FreshAfter(MintedIn(before), [mint] + after) && GoodMint(mint)
    requires EndingsDelete(Step(Run(INIT, before), mint), after, Sha256(mint.secret))
    requires Text.Trim(mint.request.sessionId) in liveHere && !io.get
    ensures Present(Run(Step(Run(INIT, before), mint), after), mint.secret, liveHere, io).1.Live?
            <==> !EndedIn(Step(Run(INIT, before), mint), after, Sha256(mint.secret))
  {
    hide Step, Present, Run, Ends, Held, MintedRow, Mints;
    var h := Sha256(mint.secret);
    var s := Run(INIT, before);
    var s1 := Step(s, mint);
    if EndedIn(s1, after, h) {
      ReachedIsSound(before);
      assert ([mint] + after)[1..] == after;
      MintIsHeld(s, mint);
      StepKeepsSound(s, mint, MintedIn(before));
      MintsItsSecret(mint);
      hide Sound, EndedIn, EndingsDelete;
      EndedInRunIsDead(s1, after, MintedIn(before) + Mints(mint), h, AskedFor(mint.request, mint.nowMs), false);
      DeadIsNotReported(Run(s1, after), mint.secret, liveHere, io);
    } else {
      MintedBindSurvives(before, mint, after, liveHere, io);
    }
  }

  lemma MintsItsSecret(mint: Event)
    requires GoodMint(mint)
    ensures Sha256(mint.secret) in Mints(mint)
  {
  }

  lemma {:induction false} CleanRunDeletes(s: State, es: seq<Event>, h: Hash)
    requires forall e :: e in es ==> Clean(e)
    ensures EndingsDelete(s, es, h)
    decreases |es|
  {
    hide Step, Ends, RowStays, Clean;
    if es == [] {
    } else {
      if Ends(s, es[0], h) {
        CleanEndingsDelete(s, es[0], h);
      }
      CleanRunDeletes(Step(s, es[0]), es[1..], h);
    }
  }

  /** Over a working store, without any further assumption: reported live if and only if not ended. */
  lemma {:induction false} WorkingStoreLiveIffNotEnded(before: seq<Event>, mint: Event, after: seq<Event>,
                                                       liveHere: set<string>, io: Faults)
    requires FreshAfter({}, before) && FreshAfter(MintedIn(before), [mint] + after) && GoodMint(mint)
    requires forall e :: e in after ==> Clean(e)
    requires Text.Trim(mint.request.sessionId) in liveHere && !io.get
    ensures Present(Run(Step(Run(INIT, before), mint), after), mint.secret, liveHere, io).1.Live?
            <==> !EndedIn(Step(Run(INIT, before), mint), after, Sha256(mint.secret))
  {
    hide Step, Present, Run, EndedIn, EndingsDelete, Clean;
    CleanRunDeletes(Step(Run(INIT, before), mint), after, Sha256(mint.secret));
    LiveIffNotEnded(before, mint, after, liveHere, io);
  }

  lemma MintIsHeld(s: State, e: Event)
    requires IndexExact(s) && FifoBounded(s) && Mints(e) !! Known(s) && GoodMint(e)
    ensures Held(Step(s, e), Sha256(e.secret), AskedFor(e.request, e.nowMs), false)
  {
    hide Text.Trim;
    assert Sha256(e.secret) in Mints(e);
    MintEffect(s, e.request, e.secret, e.nowMs, e.io);
    MintKeepsMemory(s, e.request, e.secret, e.nowMs, e.io);
    hide Mint;
  }

  lemma HeldIsReported(s: State, secret: string, row: Row, restarted: bool, liveHere: set<string>, io: Faults)
    requires Held(s, Sha256(secret), row, restarted) && Text.Trimmed(secret) && secret != "" && !io.get
    ensures Present(s, secret, liveHere, io).1 ==
              if Sha256(secret) in s.live.at || row.session in liveHere then Live(Binding(secret, row, restarted))
              else SessionNotLive
  {
  }

  // ----- A mint answers its request -----

  /**
   * Right after a mint, its bind is live under the mesh and session of the request, so
   * that the session's end ends it, a later mint of the same pair replaces it, and no
   * other session's end touches it.
   */
  lemma MintAnswersItsRequest(s: State, mint: Event, sessionId: string, io: Faults)
    requires IndexExact(s) && FifoBounded(s) && Mints(mint) !! Known(s) && GoodMint(mint)
    ensures var r := Step(s, mint); var h := Sha256(mint.secret);
            && h in r.live.at && r.live.at[h].row.mesh == Text.Trim(mint.request.meshId)
            && r.live.at[h].row.session == Text.Trim(mint.request.sessionId)
            && (Ends(r, Terminating(sessionId, false, io), h) <==>
                Text.Trim(sessionId) == Text.Trim(mint.request.sessionId))
            && Ends(r, Minting(mint.request, sessionId, mint.nowMs, io), h)
  {
    hide Step, Text.Trim;
    MintIsHeld(s, mint);
  }
}
