/**
 * Whole runs of the bind registry, across daemon restarts and store failures.
 *
 * A run is a sequence of events from the empty registry. The one assumption is that
 * minted secrets are fresh. Where a result needs a store call to succeed, its
 * `requires` names that call; everything else may fail at will.
 */
module BindRuns {
  import opened Basics
  import opened Ordered
  import opened BindRegistry
  import opened BindEffects
  import Text

  datatype Event =
    | Minting(request: MintRequest, secret: string, nowMs: int, io: Faults)
    | Presenting(bind: string, liveHere: set<string>, io: Faults)
    | Revoking(bind: string, io: Faults)
    | Terminating(sessionId: string, daemonShutdown: bool, io: Faults)
    | Reconciling(liveSessions: set<string>, liveHere: set<string>, io: Faults)
    | Restarting

  function Step(s: State, e: Event): (r: State) {
    match e
    case Minting(request, secret, nowMs, io) => Mint(s, request, secret, nowMs, io)
    case Presenting(bind, liveHere, io) => Present(s, bind, liveHere, io).0
    case Revoking(bind, io) => RevokeBind(s, bind, io)
    case Terminating(sessionId, daemonShutdown, io) => if daemonShutdown then s else RevokeForSession(s, sessionId, io)
    case Reconciling(liveSessions, liveHere, io) => Reconcile(s, liveSessions, liveHere, io).0
    case Restarting => Restart(s)
  }

  function Run(s: State, es: seq<Event>): (r: State)
    decreases |es|
  {
    if es == [] then s else Run(Step(s, es[0]), es[1..])
  }

  function Mints(e: Event): (hs: set<Hash>) {
    if e.Minting? && Mintable(e.request) then {Sha256(e.secret)} else {}
  }

  function MintedIn(es: seq<Event>): (hs: set<Hash>) {
    if es == [] then {} else Mints(es[0]) + MintedIn(es[1..])
  }

  /** No mint of `es` produces a secret in `used` or one minted earlier in `es`. */
  predicate FreshAfter(used: set<Hash>, es: seq<Event>)
    decreases |es|
  {
    es == [] || (Mints(es[0]) !! used && FreshAfter(used + Mints(es[0]), es[1..]))
  }

  predicate Clean(e: Event) {
    e.Restarting? || e.io == NO_FAULTS
  }

  /** Every hash the registry or its store holds anything about. */
  function Known(s: State): (hs: set<Hash>) {
    s.live.at.Keys + s.rows.at.Keys + set h | h in s.revoked
  }

  lemma ReconcileEffect(s: State, liveSessions: set<string>, liveHere: set<string>, io: Faults)
    ensures var r := Reconcile(s, liveSessions, liveHere, io).0;
            if io.list then r == s
            else Reconciled(s, r, Fated(Rehydrated, s, liveSessions, liveHere),
                            Fated(Pruned, s, liveSessions, liveHere), s.rows.at, io)
    ensures IndexExact(s) ==> IndexExact(Reconcile(s, liveSessions, liveHere, io).0)
  {
    if !io.list {
      ReconcileListedEffect(s, Tally(0, 0, 0), s.rows.order, s.rows.at, liveSessions, liveHere, io);
      assert forall f :: WithFate(f, s.rows.order, s.rows.at, s.live.at, liveSessions, liveHere)
                         == Fated(f, s, liveSessions, liveHere);
      if IndexExact(s) {
        ReconcileListedKeepsIndex(s, Tally(0, 0, 0), s.rows.order, s.rows.at, liveSessions, liveHere, io);
      }
    }
  }

  /** The rows that are not live yet and that a reconcile treats as `f`. */
  function Fated(f: Fate, s: State, liveSessions: set<string>, liveHere: set<string>): (hs: set<Hash>) {
    set h | h in s.rows.at && h !in s.live.at && FateOf(s.rows.at[h], liveSessions, liveHere) == f
  }

  // ----- Every run: the index is exact and the FIFO bounded -----

  lemma RevocationKeepsMemory(s: State, h: Hash, io: Faults)
    requires IndexExact(s) && FifoBounded(s)
    ensures IndexExact(RevokeByHash(s, h, io)) && FifoBounded(RevokeByHash(s, h, io))
  {
    RevokeByHashKeepsIndex(s, h, io);
    RememberedLast(s.revoked, h);
    hide IndexExact;
  }

  lemma ReconcileKeepsMemory(s: State, liveSessions: set<string>, liveHere: set<string>, io: Faults)
    requires IndexExact(s) && FifoBounded(s)
    ensures var r := Reconcile(s, liveSessions, liveHere, io).0; IndexExact(r) && FifoBounded(r)
  {
    hide Reconcile, IndexExact;
    ReconcileEffect(s, liveSessions, liveHere, io);
  }

  lemma RestartKeepsMemory(s: State)
    ensures IndexExact(Restart(s)) && FifoBounded(Restart(s))
  {
  }

  lemma StepKeepsMemory(s: State, e: Event)
    requires IndexExact(s) && FifoBounded(s) && Mints(e) !! Known(s)
    ensures IndexExact(Step(s, e)) && FifoBounded(Step(s, e))
  {
    hide Text.Trim, Mint, Present, RevokeByHash, RevokeForSession, Reconcile, Restart, IndexExact;
    match e
    case Minting(request, secret, nowMs, io) =>
      assert Mintable(request) ==> Sha256(secret) in Mints(e);
      MintKeepsMemory(s, request, secret, nowMs, io);
    case Presenting(bind, liveHere, io) =>
      PresentKeepsIndex(s, bind, liveHere, io);
      PresentEffect(s, bind, liveHere, io);
    case Revoking(bind, io) =>
      RevocationKeepsMemory(s, Sha256(Text.Trim(bind)), io);
    case Terminating(sessionId, daemonShutdown, io) =>
      RevokeForSessionKeepsMemory(s, sessionId, io);
    case Reconciling(liveSessions, liveHere, io) =>
      ReconcileKeepsMemory(s, liveSessions, liveHere, io);
    case Restarting =>
      RestartKeepsMemory(s);
  }

  /** A step introduces no hash but the one it mints. */
  ghost predicate NothingNew(s: State, r: State, minted: set<Hash>) {
    && r.rows.at.Keys <= s.rows.at.Keys + minted
    && r.live.at.Keys <= s.live.at.Keys + s.rows.at.Keys + minted
    && (forall x :: x in r.revoked ==> x in s.revoked || x in s.live.at)
  }

  lemma MintAddsNothing(s: State, request: MintRequest, secret: string, nowMs: int, io: Faults)
    requires IndexExact(s) && FifoBounded(s) && (Mintable(request) ==> Sha256(secret) !in Known(s))
    ensures NothingNew(s, Mint(s, request, secret, nowMs, io), if Mintable(request) then {Sha256(secret)} else {})
  {
    hide Mint, Mintable;
    MintKeepsMemory(s, request, secret, nowMs, io);
    hide IndexExact, FifoBounded;
    if Mintable(request) {
      MintEffect(s, request, secret, nowMs, io);
    }
  }

  lemma TerminationAddsNothing(s: State, sessionId: string, io: Faults)
    requires IndexExact(s) && FifoBounded(s)
    ensures NothingNew(s, RevokeForSession(s, sessionId, io), {})
  {
    hide RevokeForSession, Text.Trim;
    RevokeForSessionKeepsMemory(s, sessionId, io);
    hide IndexExact, FifoBounded;
    if Text.Trim(sessionId) != "" {
      RevokeForSessionEffect(s, sessionId, io);
    }
  }

  lemma RevocationAddsNothing(s: State, h: Hash, io: Faults)
    requires FifoBounded(s)
    ensures NothingNew(s, RevokeByHash(s, h, io), {})
  {
    RevokeByHashRemoves(s, h, io);
    RememberedLast(s.revoked, h);
  }

  lemma ReconcileAddsNothing(s: State, liveSessions: set<string>, liveHere: set<string>, io: Faults)
    ensures NothingNew(s, Reconcile(s, liveSessions, liveHere, io).0, {})
  {
    hide Reconcile;
    ReconcileEffect(s, liveSessions, liveHere, io);
  }

  lemma StepAddsNothing(s: State, e: Event)
    requires IndexExact(s) && FifoBounded(s) && Mints(e) !! Known(s)
    ensures NothingNew(s, Step(s, e), Mints(e))
  {
    hide Text.Trim, Mint, Present, RevokeByHash, RevokeForSession, Reconcile, Mintable, IndexExact, FifoBounded;
    match e
    case Minting(request, secret, nowMs, io) =>
      assert Mintable(request) ==> Sha256(secret) in Mints(e);
      MintAddsNothing(s, request, secret, nowMs, io);
    case Presenting(bind, liveHere, io) =>
      PresentEffect(s, bind, liveHere, io);
    case Revoking(bind, io) =>
      RevocationAddsNothing(s, Sha256(Text.Trim(bind)), io);
    case Terminating(sessionId, daemonShutdown, io) =>
      TerminationAddsNothing(s, sessionId, io);
    case Reconciling(liveSessions, liveHere, io) =>
      ReconcileAddsNothing(s, liveSessions, liveHere, io);
    case Restarting =>
  }

  /** A live entry that has a row has the row's fields. */
  ghost predicate EntriesMatchRows(s: State) {
    forall h :: h in s.live.at && h in s.rows.at ==> s.rows.at[h] == s.live.at[h].row
  }

  lemma TerminationKeepsMatch(s: State, sessionId: string, io: Faults)
    requires EntriesMatchRows(s)
    ensures EntriesMatchRows(RevokeForSession(s, sessionId, io))
  {
    if Text.Trim(sessionId) != "" {
      RevokeForSessionEffect(s, sessionId, io);
      hide RevokeForSession;
    }
  }

  lemma StepKeepsMatch(s: State, e: Event)
    requires IndexExact(s) && EntriesMatchRows(s) && Mints(e) !! Known(s)
    ensures EntriesMatchRows(Step(s, e))
  {
    hide Text.Trim, Mint, Present, RevokeByHash, RevokeForSession, Reconcile, IndexExact;
    match e
    case Minting(request, secret, nowMs, io) =>
      if Mintable(request) {
        assert Sha256(secret) in Mints(e);
        MintEffect(s, request, secret, nowMs, io);
      } else {
        BlankMintDoesNothing(s, request, secret, nowMs, io);
      }
    case Presenting(bind, liveHere, io) =>
      PresentEffect(s, bind, liveHere, io);
    case Revoking(bind, io) =>
      RevokeByHashRemoves(s, Sha256(Text.Trim(bind)), io);
    case Terminating(sessionId, daemonShutdown, io) =>
      TerminationKeepsMatch(s, sessionId, io);
    case Reconciling(liveSessions, liveHere, io) =>
      ReconcileEffect(s, liveSessions, liveHere, io);
    case Restarting =>
  }

  /** What every run keeps, whatever the store does; `used` covers all hashes seen so far. */
  ghost predicate Sound(s: State, used: set<Hash>) {
    IndexExact(s) && FifoBounded(s) && EntriesMatchRows(s) && Known(s) <= used
  }

  lemma StepKeepsSound(s: State, e: Event, used: set<Hash>)
    requires Sound(s, used) && Mints(e) !! used
    ensures Sound(Step(s, e), used + Mints(e)) && NothingNew(s, Step(s, e), Mints(e))
  {
    hide Step;
    StepKeepsMemory(s, e);
    StepAddsNothing(s, e);
    StepKeepsMatch(s, e);
    hide EntriesMatchRows, IndexExact, FifoBounded;
  }

  lemma {:induction false} RunKeepsSound(s: State, es: seq<Event>, used: set<Hash>)
    requires Sound(s, used) && FreshAfter(used, es)
    ensures Sound(Run(s, es), used + MintedIn(es))
    decreases |es|
  {
    hide Step, Sound, Mints;
    if es == [] {
      assert used + {} == used;
    } else {
      StepKeepsSound(s, es[0], used);
      RunKeepsSound(Step(s, es[0]), es[1..], used + Mints(es[0]));
      assert used + Mints(es[0]) + MintedIn(es[1..]) == used + MintedIn(es);
    }
  }

  lemma {:induction false} ReachedIsSound(es: seq<Event>)
    requires FreshAfter({}, es)
    ensures Sound(Run(INIT, es), MintedIn(es))
  {
    RunKeepsSound(INIT, es, {});
    assert {} + MintedIn(es) == MintedIn(es);
  }

  /**
   * In every state any run reaches, whatever store calls threw: the index by session
   * holds exactly the live hashes of each session key, none of its sets is empty, the
   * FIFO of revoked hashes holds at most 4096, each once, and a live entry that has a row
   * has the row's fields.
   */
  lemma {:induction false} EveryRunKeepsTheIndexExact(es: seq<Event>)
    requires FreshAfter({}, es)
    ensures IndexExact(Run(INIT, es)) && FifoBounded(Run(INIT, es)) && EntriesMatchRows(Run(INIT, es))
    ensures Known(Run(INIT, es)) <= MintedIn(es)
  {
    ReachedIsSound(es);
  }

  // ----- Runs over a store whose calls succeed -----

  /**
   * Every live entry has a row with the same fields, no revoked hash has a row (so none
   * is live), and a session key has at most one row, so at most one live bind.
   */
  ghost predicate StoresAgree(s: State) {
    LiveHaveRows(s) && RevokedHaveNoRow(s) && OneRowPerKey(s.rows.at)
  }

  ghost predicate LiveHaveRows(s: State) {
    forall h :: h in s.live.at ==> h in s.rows.at && s.rows.at[h] == s.live.at[h].row
  }

  ghost predicate RevokedHaveNoRow(s: State) {
    forall h :: h in s.revoked ==> h !in s.rows.at
  }

  ghost predicate OneRowPerKey(rows: map<Hash, Row>) {
    forall h, h' :: h in rows && h' in rows && KeyOf(rows[h]) == KeyOf(rows[h']) ==> h == h'
  }

  lemma ReplacingKeepsOneRowPerKey(before: map<Hash, Row>, after: map<Hash, Row>, h: Hash, row: Row,
                                   replaced: set<Hash>)
    requires OneRowPerKey(before) && RowsReplaced(before, after, h, row, replaced, NO_FAULTS)
    ensures OneRowPerKey(after)
  {
  }

  lemma FewerRowsKeepOneRowPerKey(before: map<Hash, Row>, after: map<Hash, Row>)
    requires OneRowPerKey(before) && forall h :: h in after ==> h in before && after[h] == before[h]
    ensures OneRowPerKey(after)
  {
  }

  /** A step that removes `gone` from memory and store alike, and revokes nothing else, keeps agreement. */
  lemma JointRemovalKeepsAgreement(s: State, r: State)
    requires StoresAgree(s) && RemembersOnly(s, r)
    requires forall h :: h in r.live.at ==> h in s.live.at && r.live.at[h] == s.live.at[h] && h in r.rows.at
    requires forall h :: h in r.rows.at ==> h in s.rows.at && r.rows.at[h] == s.rows.at[h]
    requires forall h :: h in s.live.at && h !in r.live.at ==> h !in r.rows.at
    ensures StoresAgree(r)
  {
    FewerRowsKeepOneRowPerKey(s.rows.at, r.rows.at);
  }

  lemma MintKeepsAgreement(s: State, request: MintRequest, secret: string, nowMs: int, io: Faults)
    requires IndexExact(s) && FifoBounded(s) && StoresAgree(s)
    requires Mintable(request) ==> Sha256(secret) !in Known(s)
    requires io == NO_FAULTS
    ensures StoresAgree(Mint(s, request, secret, nowMs, io))
  {
    hide Mint;
    MintKeepsMemory(s, request, secret, nowMs, io);
    if Mintable(request) {
      MintEffect(s, request, secret, nowMs, io);
      hide IndexExact, FifoBounded;
      AgreementAfterMint(s, Mint(s, request, secret, nowMs, io), secret, MintedRow(request, nowMs));
    }
  }

  lemma AgreementAfterMint(s: State, r: State, secret: string, row: Row)
    requires StoresAgree(s) && RemembersOnly(s, r) && Sha256(secret) !in Known(s)
    requires r.live.at == (s.live.at - LiveUnderKey(s, KeyOf(row)))[Sha256(secret) := Entry(row, Some(secret), false)]
    requires RowsReplaced(s.rows.at, r.rows.at, Sha256(secret), row, LiveUnderKey(s, KeyOf(row)), NO_FAULTS)
    ensures StoresAgree(r)
  {
    ReplacingKeepsOneRowPerKey(s.rows.at, r.rows.at, Sha256(secret), row, LiveUnderKey(s, KeyOf(row)));
    hide OneRowPerKey;
    assert LiveHaveRows(r) by {
      hide RevokedHaveNoRow, RemembersOnly;
      forall h | h in r.live.at && h != Sha256(secret)
        ensures h in r.rows.at && r.rows.at[h] == r.live.at[h].row
      {
        assert h in s.live.at && h in s.rows.at && h !in LiveUnderKey(s, KeyOf(row));
      }
    }
    assert RevokedHaveNoRow(r) by {
      forall h | h in r.revoked
        ensures h !in r.rows.at
      {
        assert h != Sha256(secret);
      }
    }
  }

  lemma RevocationKeepsAgreement(s: State, h: Hash)
    requires FifoBounded(s) && StoresAgree(s)
    ensures StoresAgree(RevokeByHash(s, h, NO_FAULTS))
  {
    RevokeByHashRemoves(s, h, NO_FAULTS);
    RememberedLast(s.revoked, h);
    hide OneRowPerKey;
    JointRemovalKeepsAgreement(s, RevokeByHash(s, h, NO_FAULTS));
  }

  lemma TerminationKeepsAgreement(s: State, sessionId: string, io: Faults)
    requires IndexExact(s) && FifoBounded(s) && StoresAgree(s)
    requires io == NO_FAULTS
    ensures StoresAgree(RevokeForSession(s, sessionId, io))
  {
    hide RevokeForSession, OneRowPerKey;
    RevokeForSessionKeepsMemory(s, sessionId, io);
    hide IndexExact, FifoBounded;
    if Text.Trim(sessionId) != "" {
      RevokeForSessionEffect(s, sessionId, io);
      JointRemovalKeepsAgreement(s, RevokeForSession(s, sessionId, io));
    }
  }

  lemma ReconcileKeepsAgreement(s: State, liveSessions: set<string>, liveHere: set<string>, io: Faults)
    requires StoresAgree(s) && io == NO_FAULTS
    ensures StoresAgree(Reconcile(s, liveSessions, liveHere, io).0)
  {
    hide Reconcile;
    ReconcileEffect(s, liveSessions, liveHere, io);
  }

  lemma PresentationKeepsAgreement(s: State, bind: string, liveHere: set<string>, io: Faults)
    requires StoresAgree(s)
    ensures StoresAgree(Present(s, bind, liveHere, io).0)
  {
    PresentEffect(s, bind, liveHere, io);
    hide Present;
  }

  lemma RestartKeepsAgreement(s: State)
    requires StoresAgree(s)
    ensures StoresAgree(Restart(s))
  {
  }

  lemma CleanStepKeepsAgreement(s: State, e: Event)
    requires IndexExact(s) && FifoBounded(s) && StoresAgree(s) && Mints(e) !! Known(s) && Clean(e)
    ensures StoresAgree(Step(s, e))
  {
    hide Text.Trim, Mint, Present, RevokeByHash, RevokeForSession, Reconcile, Restart, StoresAgree, IndexExact;
    match e
    case Minting(request, secret, nowMs, io) =>
      assert Mintable(request) ==> Sha256(secret) in Mints(e);
      MintKeepsAgreement(s, request, secret, nowMs, io);
    case Presenting(bind, liveHere, io) =>
      PresentationKeepsAgreement(s, bind, liveHere, io);
    case Revoking(bind, io) =>
      RevocationKeepsAgreement(s, Sha256(Text.Trim(bind)));
    case Terminating(sessionId, daemonShutdown, io) =>
      if !daemonShutdown {
        TerminationKeepsAgreement(s, sessionId, io);
      }
    case Reconciling(liveSessions, liveHere, io) =>
      ReconcileKeepsAgreement(s, liveSessions, liveHere, io);
    case Restarting =>
      RestartKeepsAgreement(s);
  }

  lemma {:induction false} CleanRunKeepsAgreement(s: State, es: seq<Event>, used: set<Hash>)
    requires Sound(s, used) && StoresAgree(s) && FreshAfter(used, es)
    requires forall e :: e in es ==> Clean(e)
    ensures StoresAgree(Run(s, es))
    decreases |es|
  {
    hide Step, StoresAgree, Clean;
    if es == [] {
    } else {
      StepKeepsSound(s, es[0], used);
      CleanStepKeepsAgreement(s, es[0]);
      CleanRunKeepsAgreement(Step(s, es[0]), es[1..], used + Mints(es[0]));
    }
  }

  predicate SameSession(row: Row, row': Row) { row.mesh == row'.mesh && row.session == row'.session }

  /**
   * In every state a run over a working store reaches, the four stores agree; no live
   * hash is remembered as revoked, and no session key has two live binds.
   */
  lemma {:induction false} WorkingStoreAgreesWithMemory(es: seq<Event>)
    requires FreshAfter({}, es) && forall e :: e in es ==> Clean(e)
    ensures var s := Run(INIT, es);
            && StoresAgree(s)
            && (forall h :: h in s.live.at ==> h !in s.revoked)
            && (forall h, h' ::
                  h in s.live.at && h' in s.live.at && SameSession(s.live.at[h].row, s.live.at[h'].row) ==> h == h')
  {
    hide Run;
    CleanRunKeepsAgreement(INIT, es, {});
  }
}
