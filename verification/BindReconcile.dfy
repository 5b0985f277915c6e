/** The reconcile that runs once per boot, after the full hosted-session restore. */
module BindReconcile {
  import Basics
  import opened Ordered
  import opened BindRegistry
  import opened BindEffects
  import opened BindRuns

  function Plus(t: Tally, rehydrated: nat, pruned: nat, deferred: nat): (r: Tally) {
    Tally(t.rehydrated + rehydrated, t.pruned + pruned, t.deferred + deferred)
  }

  lemma CountHead(f: Fate, s: State, listed: seq<Hash>, snapshot: map<Hash, Row>,
                  liveSessions: set<string>, liveHere: set<string>, io: Faults)
    requires listed != [] && Distinct(listed) && forall h :: h in listed ==> h in snapshot
    ensures var h := listed[0]; var s1 := ReconcileRow(s, h, snapshot[h], liveSessions, liveHere, io);
            |WithFate(f, listed, snapshot, s.live.at, liveSessions, liveHere)|
            == |IfFate(f, s, h, snapshot[h], liveSessions, liveHere)|
               + |WithFate(f, listed[1..], snapshot, s1.live.at, liveSessions, liveHere)|
  {
    hide ReconcileRow, FateOf;
    FateOfHead(f, s, listed, snapshot, liveSessions, liveHere, io);
  }

  lemma TallyRowCounts(t: Tally, s: State, h: Hash, row: Row, liveSessions: set<string>, liveHere: set<string>)
    ensures TallyRow(t, s, h, row, liveSessions, liveHere)
            == Plus(t, |IfFate(Rehydrated, s, h, row, liveSessions, liveHere)|,
                    |IfFate(Pruned, s, h, row, liveSessions, liveHere)|,
                    |IfFate(Deferred, s, h, row, liveSessions, liveHere)|)
  {
  }

  lemma {:induction false} TallyCountsFates(s: State, t: Tally, listed: seq<Hash>, snapshot: map<Hash, Row>,
                                            liveSessions: set<string>, liveHere: set<string>, io: Faults)
    requires Distinct(listed) && forall h :: h in listed ==> h in snapshot
    ensures ReconcileListed(s, t, listed, snapshot, liveSessions, liveHere, io).1
            == Plus(t, |WithFate(Rehydrated, listed, snapshot, s.live.at, liveSessions, liveHere)|,
                    |WithFate(Pruned, listed, snapshot, s.live.at, liveSessions, liveHere)|,
                    |WithFate(Deferred, listed, snapshot, s.live.at, liveSessions, liveHere)|)
    decreases |listed|
  {
    if listed == [] {
      assert forall f :: WithFate(f, listed, snapshot, s.live.at, liveSessions, liveHere) == {};
    } else {
      hide ReconcileRow, TallyRow, WithFate, IfFate;
      var h := listed[0];
      var s1 := ReconcileRow(s, h, snapshot[h], liveSessions, liveHere, io);
      TallyRowCounts(t, s, h, snapshot[h], liveSessions, liveHere);
      TallyCountsFates(s1, TallyRow(t, s, h, snapshot[h], liveSessions, liveHere), listed[1..],
                       snapshot, liveSessions, liveHere, io);
      CountHead(Rehydrated, s, listed, snapshot, liveSessions, liveHere, io);
      CountHead(Pruned, s, listed, snapshot, liveSessions, liveHere, io);
      CountHead(Deferred, s, listed, snapshot, liveSessions, liveHere, io);
    }
  }

  lemma FatesPartition(s: State, liveSessions: set<string>, liveHere: set<string>)
    ensures |Fated(Rehydrated, s, liveSessions, liveHere)| + |Fated(Pruned, s, liveSessions, liveHere)|
            + |Fated(Deferred, s, liveSessions, liveHere)| == |s.rows.at.Keys - s.live.at.Keys|
  {
    var a := Fated(Rehydrated, s, liveSessions, liveHere);
    var b := Fated(Pruned, s, liveSessions, liveHere);
    var c := Fated(Deferred, s, liveSessions, liveHere);
    assert a !! b !! c && a + b + c == s.rows.at.Keys - s.live.at.Keys;
  }

  lemma FatedIsWithFate(f: Fate, s: State, liveSessions: set<string>, liveHere: set<string>)
    ensures WithFate(f, s.rows.order, s.rows.at, s.live.at, liveSessions, liveHere)
            == Fated(f, s, liveSessions, liveHere)
  {
  }

  lemma ReconcileTally(s: State, liveSessions: set<string>, liveHere: set<string>, io: Faults)
    requires !io.list
    ensures Reconcile(s, liveSessions, liveHere, io).1
            == Tally(|Fated(Rehydrated, s, liveSessions, liveHere)|, |Fated(Pruned, s, liveSessions, liveHere)|,
                     |Fated(Deferred, s, liveSessions, liveHere)|)
  {
    TallyCountsFates(s, Tally(0, 0, 0), s.rows.order, s.rows.at, liveSessions, liveHere, io);
    FatedIsWithFate(Rehydrated, s, liveSessions, liveHere);
    FatedIsWithFate(Pruned, s, liveSessions, liveHere);
    FatedIsWithFate(Deferred, s, liveSessions, liveHere);
  }

  /**
   * A reconcile splits the rows that are not live yet into rehydrated, pruned and
   * deferred, and its counts add up to their number. It keeps every row whose session
   * is in the live list, and adopts only sessions that are also live on this daemon.
   */
  lemma ReconcileSplitsTheRows(s: State, liveSessions: set<string>, liveHere: set<string>, io: Faults)
    requires !io.list
    ensures var (r, t) := Reconcile(s, liveSessions, liveHere, io);
            && t.rehydrated == |Fated(Rehydrated, s, liveSessions, liveHere)|
            && t.pruned == |Fated(Pruned, s, liveSessions, liveHere)|
            && t.deferred == |Fated(Deferred, s, liveSessions, liveHere)|
            && t.rehydrated + t.pruned + t.deferred == |s.rows.at.Keys - s.live.at.Keys|
            && (forall h :: h in s.rows.at && s.rows.at[h].session in liveSessions ==>
                h in r.rows.at && r.rows.at[h] == s.rows.at[h])
            && (forall h :: h in r.live.at && h !in s.live.at ==>
                  h in s.rows.at && r.live.at[h] == Entry(s.rows.at[h], Basics.None, true)
                  && s.rows.at[h].session in liveSessions && s.rows.at[h].session in liveHere)
            && (forall h :: h in s.live.at ==> h in r.live.at && r.live.at[h] == s.live.at[h])
  {
    hide Reconcile;
    ReconcileTally(s, liveSessions, liveHere, io);
    FatesPartition(s, liveSessions, liveHere);
    ReconcileEffect(s, liveSessions, liveHere, io);
  }

  lemma {:induction false} NothingToAdopt(s: State, t: Tally, listed: seq<Hash>, snapshot: map<Hash, Row>,
                                          liveSessions: set<string>, liveHere: set<string>, io: Faults)
    requires forall h :: h in listed ==>
               h in snapshot && (h in s.live.at || FateOf(snapshot[h], liveSessions, liveHere) != Rehydrated)
    ensures var r := ReconcileListed(s, t, listed, snapshot, liveSessions, liveHere, io).0; r == s.(rows := r.rows)
    ensures (forall h :: h in listed ==> h in s.live.at || FateOf(snapshot[h], liveSessions, liveHere) == Deferred) ==>
              ReconcileListed(s, t, listed, snapshot, liveSessions, liveHere, io).0 == s
    decreases |listed|
  {
    if listed == [] {
    } else {
      var h := listed[0];
      NothingToAdopt(ReconcileRow(s, h, snapshot[h], liveSessions, liveHere, io),
                     TallyRow(t, s, h, snapshot[h], liveSessions, liveHere), listed[1..], snapshot,
                     liveSessions, liveHere, io);
    }
  }

  /** The rows a reconcile counted as pruned although their deletion threw. */
  function NotPruned(s: State, liveSessions: set<string>, liveHere: set<string>, io: Faults): (hs: set<Hash>) {
    Fated(Pruned, s, liveSessions, liveHere) * io.deletes
  }

  /**
   * Reconciling again with the same inputs, store failures included: nothing is
   * rehydrated, the same rows are deferred, and pruned again are exactly the rows whose
   * deletion threw the first time; memory does not change.
   */
  lemma SecondReconcile(s: State, liveSessions: set<string>, liveHere: set<string>, io: Faults, io': Faults)
    requires !io.list && !io'.list
    ensures var (r, t) := Reconcile(s, liveSessions, liveHere, io);
            var (r', t') := Reconcile(r, liveSessions, liveHere, io');
            var again := NotPruned(s, liveSessions, liveHere, io);
            && t' == Tally(0, |again|, t.deferred)
            && r' == r.(rows := r'.rows) && r'.rows.at == r.rows.at - (again - io'.deletes)
  {
    var r := Reconcile(s, liveSessions, liveHere, io).0;
    FatesAfterReconcile(s, liveSessions, liveHere, io);
    ReconcileTally(s, liveSessions, liveHere, io);
    ReconcileTally(r, liveSessions, liveHere, io');
    ReconcileEffect(r, liveSessions, liveHere, io');
    NothingToAdopt(r, Tally(0, 0, 0), r.rows.order, r.rows.at, liveSessions, liveHere, io');
    hide ReconcileListed, Fated, NotPruned;
  }

  /** Over a working store, reconciling again changes nothing and defers the same rows. */
  lemma SecondReconcileChangesNothing(s: State, liveSessions: set<string>, liveHere: set<string>)
    ensures var (r, t) := Reconcile(s, liveSessions, liveHere, NO_FAULTS);
            Reconcile(r, liveSessions, liveHere, NO_FAULTS) == (r, Tally(0, 0, t.deferred))
  {
    var r := Reconcile(s, liveSessions, liveHere, NO_FAULTS).0;
    FatesAfterReconcile(s, liveSessions, liveHere, NO_FAULTS);
    SecondReconcile(s, liveSessions, liveHere, NO_FAULTS, NO_FAULTS);
    NothingToAdopt(r, Tally(0, 0, 0), r.rows.order, r.rows.at, liveSessions, liveHere, NO_FAULTS);
    hide ReconcileListed;
  }

  /** What is left to a second reconcile: the deferred rows, and the pruned ones that could not be deleted. */
  lemma FatesAfterReconcile(s: State, liveSessions: set<string>, liveHere: set<string>, io: Faults)
    requires !io.list
    ensures var r := Reconcile(s, liveSessions, liveHere, io).0;
            && Fated(Rehydrated, r, liveSessions, liveHere) == {}
            && Fated(Pruned, r, liveSessions, liveHere) == NotPruned(s, liveSessions, liveHere, io)
            && Fated(Deferred, r, liveSessions, liveHere) == Fated(Deferred, s, liveSessions, liveHere)
            && forall h :: h in r.rows.at ==>
                 || h in r.live.at || h in NotPruned(s, liveSessions, liveHere, io)
                 || FateOf(r.rows.at[h], liveSessions, liveHere) == Deferred
  {
    hide Reconcile;
    ReconcileEffect(s, liveSessions, liveHere, io);
  }

  /** If the rows cannot be listed, a reconcile changes nothing and counts nothing. */
  lemma UnlistedReconcile(s: State, liveSessions: set<string>, liveHere: set<string>, io: Faults)
    requires io.list
    ensures Reconcile(s, liveSessions, liveHere, io) == (s, Tally(rehydrated := 0, pruned := 0, deferred := 0))
  {
  }
}
