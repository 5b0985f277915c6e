/**
 * Worker session bind registry: which worker processes this daemon still recognises.
 *
 * Four stores: the live entries, the index by (mesh, session), the bounded FIFO of
 * hashes revoked during this daemon incarnation, and the durable rows, which alone
 * outlive a restart. Every call into the durable store may throw, and the registry
 * carries on; `Faults` says which calls throw during one step. A registry without a
 * store behaves as one whose every store call throws.
 *
 * SHA-256 is symbolic: a hash is the constructor applied to its preimage, so hashing
 * is injective. Secrets and the clock are inputs of a step.
 */
module BindRegistry {
  import opened Basics
  import opened Ordered
  import Text

  datatype Hash = Sha256(preimage: string)

  type SessionKey = (string, string)

  /** A persisted row without its key. The empty string is an absent node or task id. */
  datatype Row = Row(mesh: string, session: string, node: string, taskId: string, mintedAtMs: int)

  /** A live entry; the secret is unknown until a restored worker first presents it. */
  datatype Entry = Entry(row: Row, secret: Option<string>, restored: bool)

  datatype Binding = Binding(bind: string, row: Row, restored: bool)

  datatype Status = Invalid | Live(binding: Binding) | Revoked | SessionNotLive | Unknown

  datatype Faults = Faults(list: bool, get: bool, put: bool, deletes: set<Hash>, deleteForSession: bool)

  datatype State = State(
    live: OrderedMap<Hash, Entry>,
    bySession: map<SessionKey, seq<Hash>>,
    revoked: seq<Hash>,
    rows: OrderedMap<Hash, Row>)

  datatype Tally = Tally(rehydrated: nat, pruned: nat, deferred: nat)

  const REVOKED_HASHES_CAP := 4096

  const NO_FAULTS := Faults(false, false, false, {}, false)

  const INIT := State(Empty(), map[], [], Empty())

  function KeyOf(row: Row): SessionKey { (row.mesh, row.session) }

  /**
   * The source indexes by the string `mesh NUL session`. The pair is the same index
   * as long as mesh ids contain no NUL.
   */
  lemma SessionKeyIsInjective(mesh: string, session: string, mesh': string, session': string)
    requires '\0' !in mesh && '\0' !in mesh'
    requires mesh + "\0" + session == mesh' + "\0" + session'
    ensures mesh == mesh' && session == session'
  {
    var joined := mesh + "\0" + session;
    assert joined[|mesh|] == '\0' && joined[|mesh'|] == '\0';
    assert mesh == joined[..|mesh|] == mesh';
    assert session == joined[|mesh| + 1..] == session';
  }

  // ----- The registry's steps, on values -----

  function AddEntry(s: State, h: Hash, e: Entry): (r: State) {
    var key := KeyOf(e.row);
    var members := if key in s.bySession then s.bySession[key] else [];
    s.(live := Put(s.live, h, e), bySession := s.bySession[key := Include(members, h)])
  }

  function Adopt(s: State, h: Hash, row: Row, secret: Option<string>): (r: State) {
    AddEntry(s, h, Entry(row, secret, true))
  }

  function DeleteRow(s: State, h: Hash, io: Faults): (r: State) {
    if h in io.deletes then s else s.(rows := Delete(s.rows, h))
  }

  function RememberRevoked(revoked: seq<Hash>, h: Hash): (r: seq<Hash>) {
    var added := Include(revoked, h);
    if |added| > REVOKED_HASHES_CAP then added[1..] else added
  }

  function Unindex(bySession: map<SessionKey, seq<Hash>>, key: SessionKey, h: Hash): (r: map<SessionKey, seq<Hash>>) {
    if key !in bySession then bySession
    else
      var rest := Erase(bySession[key], h);
      if rest == [] then bySession - {key} else bySession[key := rest]
  }

  function RevokeByHash(s: State, h: Hash, io: Faults): (r: State) {
    var s1 := DeleteRow(s, h, io);
    if h !in s1.live.at then s1
    else
      s1.(live := Delete(s1.live, h),
          revoked := RememberRevoked(s1.revoked, h),
          bySession := Unindex(s1.bySession, KeyOf(s1.live.at[h].row), h))
  }

  function RevokeEach(s: State, hashes: seq<Hash>, io: Faults): (r: State)
    decreases |hashes|
  {
    if hashes == [] then s else RevokeEach(RevokeByHash(s, hashes[0], io), hashes[1..], io)
  }

  /** The loop over `list()` that drops rows of one session key; the first throw ends it. */
  function DropListed(rows: OrderedMap<Hash, Row>, listed: seq<Hash>, snapshot: map<Hash, Row>,
                      key: SessionKey, io: Faults): (r: OrderedMap<Hash, Row>)
    requires forall h :: h in listed ==> h in snapshot
    decreases |listed|
  {
    if listed == [] then rows
    else if KeyOf(snapshot[listed[0]]) != key then DropListed(rows, listed[1..], snapshot, key, io)
    else if listed[0] in io.deletes then rows
    else DropListed(Delete(rows, listed[0]), listed[1..], snapshot, key, io)
  }

  function DropRowsFor(s: State, key: SessionKey, io: Faults): (r: State) {
    if io.list then s
    else s.(rows := DropListed(s.rows, s.rows.order, s.rows.at, key, io))
  }

  datatype MintRequest = MintRequest(meshId: string, sessionId: string, nodeId: string, taskId: string)

  function MintedRow(request: MintRequest, nowMs: int): (row: Row) {
    Row(Text.Trim(request.meshId), Text.Trim(request.sessionId),
        Text.Trim(request.nodeId), Text.Trim(request.taskId), nowMs)
  }

  predicate Mintable(request: MintRequest) {
    Text.Trim(request.meshId) != "" && Text.Trim(request.sessionId) != ""
  }

  function Mint(s: State, request: MintRequest, secret: string, nowMs: int, io: Faults): (r: State) {
    if !Mintable(request) then s
    else
      var row := MintedRow(request, nowMs);
      var key := KeyOf(row);
      var prior := if key in s.bySession then s.bySession[key] else [];
      var s1 := DropRowsFor(RevokeEach(s, prior, io), key, io);
      var s2 := AddEntry(s1, Sha256(secret), Entry(row, Some(secret), false));
      if io.put then s2 else s2.(rows := Put(s2.rows, Sha256(secret), row))
  }

  function ToBinding(e: Entry, secret: string): (b: Binding) {
    Binding(secret, e.row, e.restored)
  }

  function Present(s: State, bind: string, liveHere: set<string>, io: Faults): (r: (State, Status)) {
    var raw := Text.Trim(bind);
    var h := Sha256(raw);
    if raw == "" then (s, Invalid)
    else if h in s.live.at then
      var e := s.live.at[h];
      var e' := if e.secret.None? then e.(secret := Some(raw)) else e;
      (s.(live := Put(s.live, h, e')), Live(ToBinding(e', raw)))
    else if h in s.revoked then (s, Revoked)
    else if io.get || h !in s.rows.at then (s, Unknown)
    else if s.rows.at[h].session !in liveHere then (s, SessionNotLive)
    else
      var row := s.rows.at[h];
      (Adopt(s, h, row, Some(raw)), Live(Binding(raw, row, true)))
  }

  /** The loop over the live entries that revokes those naming one session. */
  function RevokeNaming(s: State, listed: seq<Hash>, entries: map<Hash, Entry>, sid: string, io: Faults): (r: State)
    requires forall h :: h in listed ==> h in entries
    decreases |listed|
  {
    if listed == [] then s
    else
      var h := listed[0];
      var s1 := if entries[h].row.session == sid then RevokeByHash(s, h, io) else s;
      RevokeNaming(s1, listed[1..], entries, sid, io)
  }

  function WithoutSession(rows: OrderedMap<Hash, Row>, listed: seq<Hash>, sid: string): (r: OrderedMap<Hash, Row>)
    ensures forall h :: h in r.at <==> h in rows.at && !(h in listed && rows.at[h].session == sid)
    ensures forall h :: h in r.at ==> r.at[h] == rows.at[h]
    decreases |listed|
  {
    if listed == [] then rows
    else
      assert forall h :: h in listed <==> h == listed[0] || h in listed[1..];
      if listed[0] in rows.at && rows.at[listed[0]].session == sid
      then WithoutSession(Delete(rows, listed[0]), listed[1..], sid)
      else WithoutSession(rows, listed[1..], sid)
  }

  function RevokeForSession(s: State, sessionId: string, io: Faults): (r: State) {
    var sid := Text.Trim(sessionId);
    if sid == "" then s
    else
      var s1 := RevokeNaming(s, s.live.order, s.live.at, sid, io);
      if io.deleteForSession then s1 else s1.(rows := WithoutSession(s1.rows, s1.rows.order, sid))
  }

  function RevokeBind(s: State, bind: string, io: Faults): (r: State) {
    if Text.Trim(bind) == "" then s else RevokeByHash(s, Sha256(Text.Trim(bind)), io)
  }

  function ReconcileRow(s: State, h: Hash, row: Row, liveSessions: set<string>, liveHere: set<string>,
                        io: Faults): (r: State) {
    if h in s.live.at then s
    else if row.session !in liveSessions then DeleteRow(s, h, io)
    else if row.session in liveHere then Adopt(s, h, row, None)
    else s
  }

  function TallyRow(t: Tally, s: State, h: Hash, row: Row, liveSessions: set<string>,
                    liveHere: set<string>): (r: Tally) {
    if h in s.live.at then t
    else if row.session !in liveSessions then t.(pruned := t.pruned + 1)
    else if row.session in liveHere then t.(rehydrated := t.rehydrated + 1)
    else t.(deferred := t.deferred + 1)
  }

  function ReconcileListed(s: State, t: Tally, listed: seq<Hash>, snapshot: map<Hash, Row>,
                           liveSessions: set<string>, liveHere: set<string>, io: Faults): (r: (State, Tally))
    requires forall h :: h in listed ==> h in snapshot
    decreases |listed|
  {
    if listed == [] then (s, t)
    else
      var h := listed[0];
      ReconcileListed(ReconcileRow(s, h, snapshot[h], liveSessions, liveHere, io),
                      TallyRow(t, s, h, snapshot[h], liveSessions, liveHere),
                      listed[1..], snapshot, liveSessions, liveHere, io)
  }

  function Reconcile(s: State, liveSessions: set<string>, liveHere: set<string>, io: Faults): (r: (State, Tally)) {
    if io.list then (s, Tally(0, 0, 0))
    else ReconcileListed(s, Tally(0, 0, 0), s.rows.order, s.rows.at, liveSessions, liveHere, io)
  }

  /** A daemon restart: memory is lost, rows stay. */
  function Restart(s: State): (r: State) {
    State(Empty(), map[], [], s.rows)
  }

  // ----- The registry itself -----

  class Registry {
    var live: OrderedMap<Hash, Entry>
    var bySession: map<SessionKey, seq<Hash>>
    var revoked: seq<Hash>
    var rows: OrderedMap<Hash, Row>

    ghost function Value(): State
      reads this
    {
      State(live, bySession, revoked, rows)
    }

    constructor ()
      ensures Value() == INIT
    {
      live, bySession, revoked, rows := Empty(), map[], [], Empty();
    }

    method Add(h: Hash, e: Entry)
      modifies this
      ensures Value() == AddEntry(old(Value()), h, e)
    {
      live := Put(live, h, e);
      var key := KeyOf(e.row);
      if key !in bySession {
        bySession := bySession[key := []];
      }
      bySession := bySession[key := Include(bySession[key], h)];
      assert bySession == AddEntry(old(Value()), h, e).bySession;
    }

    method Remember(h: Hash)
      modifies this`revoked
      ensures revoked == RememberRevoked(old(revoked), h)
    {
      revoked := Include(revoked, h);
      if |revoked| > REVOKED_HASHES_CAP {
        revoked := revoked[1..];
      }
    }

    method RemoveFromIndex(key: SessionKey, h: Hash)
      modifies this`bySession
      ensures bySession == Unindex(old(bySession), key, h)
    {
      if key in bySession {
        bySession := bySession[key := Erase(bySession[key], h)];
        if bySession[key] == [] {
          bySession := bySession - {key};
        }
      }
    }

    method RevokeHash(h: Hash, io: Faults) returns (found: bool)
      modifies this
      ensures Value() == RevokeByHash(old(Value()), h, io)
      ensures found == (h in old(live).at)
    {
      found := h in live.at;
      if h !in io.deletes {
        rows := Delete(rows, h);
      }
      if !found {
        return;
      }
      var key := KeyOf(live.at[h].row);
      live := Delete(live, h);
      Remember(h);
      RemoveFromIndex(key, h);
    }

    method RevokePrior(key: SessionKey, io: Faults)
      modifies this
      ensures Value() == RevokeEach(old(Value()), if key in old(bySession) then old(bySession)[key] else [], io)
    {
      var prior := if key in bySession then bySession[key] else [];
      for i := 0 to |prior|
        invariant RevokeEach(Value(), prior[i..], io) == RevokeEach(old(Value()), prior, io)
      {
        assert prior[i..][0] == prior[i] && prior[i..][1..] == prior[i + 1..];
        var _ := RevokeHash(prior[i], io);
      }
    }

    method MintBind(request: MintRequest, secret: string, nowMs: int, io: Faults) returns (r: Result<Binding>)
      modifies this
      ensures Value() == Mint(old(Value()), request, secret, nowMs, io)
      ensures r == if Text.Trim(request.meshId) == "" || Text.Trim(request.sessionId) == "" then Thrown
                   else Ok(Binding(secret, Row(Text.Trim(request.meshId), Text.Trim(request.sessionId),
                                               Text.Trim(request.nodeId), Text.Trim(request.taskId), nowMs), false))
    {
      hide Text.Trim, DropListed;
      if Text.Trim(request.meshId) == "" || Text.Trim(request.sessionId) == "" {
        return Thrown;
      }
      var row := MintedRow(request, nowMs);
      var key := KeyOf(row);
      RevokePrior(key, io);
      ghost var revokedState := Value();
      if !io.list {
        DropRows(key, io);
      }
      assert Value() == DropRowsFor(revokedState, key, io);
      Add(Sha256(secret), Entry(row, Some(secret), false));
      if !io.put {
        rows := Put(rows, Sha256(secret), row);
      }
      r := Ok(ToBinding(Entry(row, Some(secret), false), secret));
    }

    method DropRows(key: SessionKey, io: Faults)
      modifies this`rows
      ensures rows == DropListed(old(rows), old(rows).order, old(rows).at, key, io)
    {
      var listed, snapshot := rows.order, rows.at;
      var i := 0;
      while i < |listed|
        invariant 0 <= i <= |listed|
        invariant DropListed(rows, listed[i..], snapshot, key, io) == DropListed(old(rows), listed, snapshot, key, io)
      {
        if KeyOf(snapshot[listed[i]]) == key {
          if listed[i] in io.deletes {
            return;
          }
          rows := Delete(rows, listed[i]);
        }
        i := i + 1;
      }
    }

    method PresentBind(bind: string, liveHere: set<string>, io: Faults) returns (status: Status)
      modifies this
      ensures (Value(), status) == Present(old(Value()), bind, liveHere, io)
    {
      var raw := Text.Trim(bind);
      if raw == "" {
        return Invalid;
      }
      var h := Sha256(raw);
      if h in live.at {
        var e := live.at[h];
        if e.secret.None? {
          e := e.(secret := Some(raw));
        }
        live := Put(live, h, e);
        return Live(ToBinding(e, raw));
      }
      if h in revoked {
        return Revoked;
      }
      if io.get || h !in rows.at {
        return Unknown;
      }
      var row := rows.at[h];
      if row.session !in liveHere {
        return SessionNotLive;
      }
      var e := Entry(row, Some(raw), true);
      Add(h, e);
      status := Live(ToBinding(e, raw));
    }

    method RevokeEntriesNaming(sid: string, io: Faults) returns (count: nat)
      modifies this
      ensures Value() == RevokeNaming(old(Value()), old(live).order, old(live).at, sid, io)
      ensures count == |old(live).at| - |live.at|
    {
      count := 0;
      var listed, entries := live.order, live.at;
      for i := 0 to |listed|
        invariant RevokeNaming(Value(), listed[i..], entries, sid, io)
                  == RevokeNaming(old(Value()), listed, entries, sid, io)
        invariant count + |live.at| == |entries|
      {
        assert listed[i..][0] == listed[i] && listed[i..][1..] == listed[i + 1..];
        if entries[listed[i]].row.session == sid {
          ghost var before := live;
          var found := RevokeHash(listed[i], io);
          if found {
            SizeAfterDelete(before, listed[i]);
            count := count + 1;
          }
        }
      }
    }

    method RevokeSession(sessionId: string, io: Faults) returns (count: nat)
      modifies this
      ensures Value() == RevokeForSession(old(Value()), sessionId, io)
      ensures count == |old(live).at| - |live.at|
    {
      var sid := Text.Trim(sessionId);
      if sid == "" {
        return 0;
      }
      count := RevokeEntriesNaming(sid, io);
      if !io.deleteForSession {
        rows := WithoutSession(rows, rows.order, sid);
      }
    }

    /** The lifecycle-bus subscriber: a shutdown of this daemon is not the worker's end. */
    method OnTerminated(sessionId: string, daemonShutdown: bool, io: Faults)
      modifies this
      ensures Value() == if daemonShutdown then old(Value()) else RevokeForSession(old(Value()), sessionId, io)
    {
      if daemonShutdown {
        return;
      }
      var _ := RevokeSession(sessionId, io);
    }

    method RevokeBindSecret(bind: string, io: Faults) returns (found: bool)
      modifies this
      ensures Value() == RevokeBind(old(Value()), bind, io)
      ensures found <==> Text.Trim(bind) != "" && Sha256(Text.Trim(bind)) in old(live).at
    {
      if Text.Trim(bind) == "" {
        return false;
      }
      found := RevokeHash(Sha256(Text.Trim(bind)), io);
    }

    method ReconcileAfterRestore(liveSessions: set<string>, liveHere: set<string>, io: Faults) returns (t: Tally)
      modifies this
      ensures (Value(), t) == Reconcile(old(Value()), liveSessions, liveHere, io)
    {
      t := Tally(0, 0, 0);
      if io.list {
        return;
      }
      var listed, snapshot := rows.order, rows.at;
      ghost var goal := Reconcile(Value(), liveSessions, liveHere, io);
      for i := 0 to |listed|
        invariant ReconcileListed(Value(), t, listed[i..], snapshot, liveSessions, liveHere, io) == goal
      {
        var h := listed[i];
        var row := snapshot[h];
        assert listed[i..][0] == h && listed[i..][1..] == listed[i + 1..];
        if h !in live.at {
          if row.session !in liveSessions {
            if h !in io.deletes {
              rows := Delete(rows, h);
            }
            t := t.(pruned := t.pruned + 1);
          } else if row.session in liveHere {
            Add(h, Entry(row, None, true));
            t := t.(rehydrated := t.rehydrated + 1);
          } else {
            t := t.(deferred := t.deferred + 1);
          }
        }
      }
    }

    /** Does any live bind name the session, in any mesh? */
    method HasLiveBind(sessionId: string) returns (has: bool)
      ensures has <==> Text.Trim(sessionId) != "" && exists h ::
              h in live.at && live.at[h].row.session == Text.Trim(sessionId)
    {
      var sid := Text.Trim(sessionId);
      has := false;
      if sid == "" {
        return;
      }
      for i := 0 to |live.order|
        invariant forall h :: h in live.order[..i] ==> live.at[h].row.session != sid
      {
        if live.at[live.order[i]].row.session == sid {
          return true;
        }
      }
      assert live.order[..|live.order|] == live.order;
    }

    method Reset()
      modifies this
      ensures Value() == Restart(old(Value()))
    {
      live, bySession, revoked := Empty(), map[], [];
    }
  }
}
