/**
 * What the registry's steps do to its four stores, in closed form: loops become set
 * differences, and the index by session stays exact whatever the durable store does.
 */
module BindEffects {
  import opened Basics
  import opened Ordered
  import opened BindRegistry
  import Text

  // ----- What each loop does, in closed form -----

  function Members(hashes: seq<Hash>): (hs: set<Hash>) { set h | h in hashes }

  /** `r` has lost the entries `hs`, and the rows of `hs` whose deletion did not throw. */
  ghost predicate Removes(s: State, r: State, hs: set<Hash>, io: Faults) {
    && r.live.at == s.live.at - hs
    && r.rows.at == s.rows.at - (hs - io.deletes)
  }

  lemma RemovesNothing(s: State, io: Faults)
    ensures Removes(s, s, {}, io)
  {
    assert s.live.at - {} == s.live.at;
    assert s.rows.at - ({} - io.deletes) == s.rows.at;
  }

  lemma RemovesInTurn(s: State, m: State, r: State, hs: set<Hash>, hs': set<Hash>, io: Faults)
    requires Removes(s, m, hs, io) && Removes(m, r, hs', io)
    ensures Removes(s, r, hs + hs', io)
  {
  }

  lemma RevokeByHashRemoves(s: State, h: Hash, io: Faults)
    ensures Removes(s, RevokeByHash(s, h, io), {h}, io)
  {
    assert h !in s.live.at ==> s.live.at - {h} == s.live.at;
    assert h in io.deletes ==> s.rows.at - ({h} - io.deletes) == s.rows.at;
    assert h !in io.deletes ==> {h} - io.deletes == {h};
  }

  lemma {:induction false} RevokeEachRemoves(s: State, hashes: seq<Hash>, io: Faults)
    ensures Removes(s, RevokeEach(s, hashes, io), Members(hashes), io)
    decreases |hashes|
  {
    if hashes == [] {
      RemovesNothing(s, io);
    } else {
      var m := RevokeByHash(s, hashes[0], io);
      RevokeByHashRemoves(s, hashes[0], io);
      RevokeEachRemoves(m, hashes[1..], io);
      RemovesInTurn(s, m, RevokeEach(m, hashes[1..], io), {hashes[0]}, Members(hashes[1..]), io);
      assert Members(hashes) == {hashes[0]} + Members(hashes[1..]);
    }
  }

  function Naming(listed: seq<Hash>, entries: map<Hash, Entry>, sid: string): (hs: seq<Hash>)
    ensures forall h :: h in hs <==> h in listed && h in entries && entries[h].row.session == sid
  {
    if listed == [] then []
    else
      var rest := Naming(listed[1..], entries, sid);
      assert forall h :: h in listed <==> h == listed[0] || h in listed[1..];
      if listed[0] in entries && entries[listed[0]].row.session == sid then [listed[0]] + rest else rest
  }

  lemma {:induction false} RevokeNamingIsRevokeEach(s: State, listed: seq<Hash>, entries: map<Hash, Entry>, sid: string,
                                                    io: Faults)
    requires forall h :: h in listed ==> h in entries
    ensures RevokeNaming(s, listed, entries, sid, io) == RevokeEach(s, Naming(listed, entries, sid), io)
    decreases |listed|
  {
    if listed == [] {
    } else {
      var h := listed[0];
      if entries[h].row.session == sid {
        RevokeNamingIsRevokeEach(RevokeByHash(s, h, io), listed[1..], entries, sid, io);
        var rest := Naming(listed[1..], entries, sid);
        assert ([h] + rest)[1..] == rest;
      } else {
        RevokeNamingIsRevokeEach(s, listed[1..], entries, sid, io);
      }
    }
  }

  // ----- Dropping the listed rows of a session key -----

  /** The rows of a session key whose deletion throws. */
  function Throwing(rows: map<Hash, Row>, key: SessionKey, deletes: set<Hash>): (hs: set<Hash>) {
    set h | h in rows && h in deletes && KeyOf(rows[h]) == key
  }

  /** A member of `throwing` is listed at or before `h`, so that the loop ends before it deletes `h`. */
  ghost predicate Stops(listed: seq<Hash>, throwing: set<Hash>, h: Hash) {
    exists i :: 0 <= i < |listed| && listed[i] in throwing && h !in listed[..i]
  }

  lemma StopsFirst(listed: seq<Hash>, throwing: set<Hash>, h: Hash)
    requires listed != []
    ensures Stops(listed, throwing, h) <==> listed[0] in throwing || (h != listed[0] && Stops(listed[1..], throwing, h))
  {
    var rest := listed[1..];
    if Stops(listed, throwing, h) && listed[0] !in throwing {
      var i :| 0 <= i < |listed| && listed[i] in throwing && h !in listed[..i];
      assert listed[..i] == [listed[0]] + rest[..i - 1];
      assert rest[i - 1] in throwing && h !in rest[..i - 1];
    }
    if h != listed[0] && Stops(rest, throwing, h) {
      var i :| 0 <= i < |rest| && rest[i] in throwing && h !in rest[..i];
      assert listed[..i + 1] == [listed[0]] + rest[..i];
      assert listed[i + 1] in throwing && h !in listed[..i + 1];
    }
    if listed[0] in throwing {
      assert h !in listed[..0];
    }
  }

  /** A row whose own deletion throws is never passed. */
  lemma {:induction false} ThrowingStops(listed: seq<Hash>, throwing: set<Hash>, h: Hash)
    requires h in listed && h in throwing
    ensures Stops(listed, throwing, h)
    decreases |listed|
  {
    hide Stops;
    StopsFirst(listed, throwing, h);
    if listed[0] == h {
    } else {
      ThrowingStops(listed[1..], throwing, h);
    }
  }

  /** What is not in `throwing` may be taken off the list. */
  lemma {:induction false} StopsIgnoresOthers(listed: seq<Hash>, throwing: set<Hash>, h: Hash, x: Hash)
    requires x !in throwing && x != h
    ensures Stops(Erase(listed, x), throwing, h) <==> Stops(listed, throwing, h)
    decreases |listed|
  {
    hide Stops;
    if listed == [] {
    } else {
      var rest := Erase(listed[1..], x);
      StopsFirst(listed, throwing, h);
      StopsIgnoresOthers(listed[1..], throwing, h, x);
      if listed[0] != x {
        StopsFirst([listed[0]] + rest, throwing, h);
        assert ([listed[0]] + rest)[1..] == rest;
      }
    }
  }

  /**
   * The loop that drops the listed rows of a session key, exactly: a row goes if and only
   * if it is of that key and no row of the key listed at or before it refuses to go.
   */
  lemma {:induction false} DropListedEffect(rows: OrderedMap<Hash, Row>, listed: seq<Hash>, snapshot: map<Hash, Row>,
                                            key: SessionKey, io: Faults, throwing: set<Hash>)
    requires forall h :: h in listed ==> h in snapshot
    requires forall h :: h in listed ==> (h in throwing <==> h in io.deletes && KeyOf(snapshot[h]) == key)
    ensures var r := DropListed(rows, listed, snapshot, key, io);
            && (forall h :: h in r.at ==> h in rows.at && r.at[h] == rows.at[h])
            && (forall h :: h in rows.at ==>
                  (h !in r.at <==> h in listed && KeyOf(snapshot[h]) == key && !Stops(listed, throwing, h)))
    decreases |listed|
  {
    hide Stops;
    if listed == [] {
    } else {
      var first, rest := listed[0], listed[1..];
      forall h
        ensures Stops(listed, throwing, h) <==> first in throwing || (h != first && Stops(rest, throwing, h))
      {
        StopsFirst(listed, throwing, h);
      }
      assert forall h :: h in listed <==> h == first || h in rest;
      if KeyOf(snapshot[first]) != key {
        DropListedEffect(rows, rest, snapshot, key, io, throwing);
      } else if first !in io.deletes {
        DropListedEffect(Delete(rows, first), rest, snapshot, key, io, throwing);
      }
    }
  }

  // ----- The index by session is exact -----

  ghost predicate Indexed(s: State, key: SessionKey, h: Hash) {
    key in s.bySession && h in s.bySession[key]
  }

  ghost predicate LiveUnder(s: State, key: SessionKey, h: Hash) {
    h in s.live.at && KeyOf(s.live.at[h].row) == key
  }

  /** The index holds exactly the live hashes of each session key, each once, and no empty set. */
  ghost predicate IndexExact(s: State) {
    && (forall key, h :: Indexed(s, key, h) <==> LiveUnder(s, key, h))
    && (forall key :: key in s.bySession ==> s.bySession[key] != [] && Distinct(s.bySession[key]))
  }

  lemma AddEntryKeepsIndex(s: State, h: Hash, e: Entry)
    requires IndexExact(s) && h !in s.live.at
    ensures IndexExact(AddEntry(s, h, e))
  {
    var r := AddEntry(s, h, e);
    forall key, x
      ensures Indexed(r, key, x) <==> LiveUnder(r, key, x)
    {
      assert Indexed(s, key, x) <==> LiveUnder(s, key, x);
    }
  }

  lemma UnindexRemovesOne(s: State, key: SessionKey, h: Hash)
    ensures var r := s.(bySession := Unindex(s.bySession, key, h));
            forall k, x :: Indexed(r, k, x) <==> Indexed(s, k, x) && !(k == key && x == h)
  {
  }

  lemma RevokeByHashKeepsIndex(s: State, h: Hash, io: Faults)
    requires IndexExact(s)
    ensures IndexExact(RevokeByHash(s, h, io))
  {
    var r := RevokeByHash(s, h, io);
    if h in s.live.at {
      var key := KeyOf(s.live.at[h].row);
      UnindexRemovesOne(s, key, h);
      var u := s.(bySession := Unindex(s.bySession, key, h));
      forall k, x
        ensures Indexed(r, k, x) <==> LiveUnder(r, k, x)
      {
        assert Indexed(r, k, x) <==> Indexed(u, k, x);
        assert Indexed(s, k, x) <==> LiveUnder(s, k, x);
      }
    } else {
      IndexIgnoresRows(s, r.rows);
    }
  }

  lemma {:induction false} RevokeEachKeepsIndex(s: State, hashes: seq<Hash>, io: Faults)
    requires IndexExact(s)
    ensures IndexExact(RevokeEach(s, hashes, io))
    decreases |hashes|
  {
    if hashes == [] {
    } else {
      RevokeByHashKeepsIndex(s, hashes[0], io);
      RevokeEachKeepsIndex(RevokeByHash(s, hashes[0], io), hashes[1..], io);
    }
  }

  /** The index depends on the live hashes and their session keys only. */
  lemma SameKeysSameIndex(s: State, r: State)
    requires IndexExact(s) && r.bySession == s.bySession
    requires forall h :: h in r.live.at <==> h in s.live.at
    requires forall h :: h in r.live.at ==> KeyOf(r.live.at[h].row) == KeyOf(s.live.at[h].row)
    ensures IndexExact(r)
  {
    forall key, x
      ensures Indexed(r, key, x) <==> LiveUnder(r, key, x)
    {
      assert Indexed(s, key, x) <==> LiveUnder(s, key, x);
    }
  }

  lemma IndexIgnoresRows(s: State, rows: OrderedMap<Hash, Row>)
    requires IndexExact(s)
    ensures IndexExact(s.(rows := rows))
  {
    SameKeysSameIndex(s, s.(rows := rows));
  }

  // ----- The FIFO of revoked hashes -----

  /** The FIFO holds at most its cap, without repetition. */
  ghost predicate FifoBounded(s: State) {
    Distinct(s.revoked) && |s.revoked| <= 4096
  }

  /** Only entries that stopped being live are remembered as revoked. */
  ghost predicate RemembersOnly(s: State, r: State) {
    forall x :: x in r.revoked ==> x in s.revoked || (x in s.live.at && x !in r.live.at)
  }

  lemma RememberedLast(revoked: seq<Hash>, h: Hash)
    requires Distinct(revoked) && |revoked| <= 4096
    ensures var r := RememberRevoked(revoked, h);
            && Distinct(r) && |r| <= 4096 && h in r
            && (forall x :: x in r ==> x == h || x in revoked)
  {
    var added := Include(revoked, h);
    if |added| > REVOKED_HASHES_CAP {
      assert added == revoked + [h] && added[1..][|added| - 2] == h;
    }
  }

  lemma {:induction false} RevokeEachKeepsFifo(s: State, hashes: seq<Hash>, io: Faults)
    requires FifoBounded(s)
    ensures FifoBounded(RevokeEach(s, hashes, io)) && RemembersOnly(s, RevokeEach(s, hashes, io))
    decreases |hashes|
  {
    if hashes == [] {
    } else {
      var h := hashes[0];
      var m := RevokeByHash(s, h, io);
      RememberedLast(s.revoked, h);
      RevokeByHashRemoves(s, h, io);
      RevokeEachKeepsFifo(m, hashes[1..], io);
      RevokeEachRemoves(m, hashes[1..], io);
    }
  }

  // ----- Steps -----

  function LiveIn(s: State, sid: string): (hs: set<Hash>) {
    set h | h in s.live.at && s.live.at[h].row.session == sid
  }

  /** Ending a session removes its entries, in every mesh, and its rows unless the store threw. */
  lemma RevokeForSessionEffect(s: State, sessionId: string, io: Faults)
    requires Text.Trim(sessionId) != ""
    ensures var r := RevokeForSession(s, sessionId, io); var sid := Text.Trim(sessionId);
            && r.live.at == s.live.at - LiveIn(s, sid)
            && (forall h :: h in r.rows.at <==>
                   && h in s.rows.at && !(h in LiveIn(s, sid) && h !in io.deletes)
                   && !(!io.deleteForSession && s.rows.at[h].session == sid))
            && (forall h :: h in r.rows.at ==> r.rows.at[h] == s.rows.at[h])
  {
    var sid := Text.Trim(sessionId);
    var hs := Naming(s.live.order, s.live.at, sid);
    RevokeNamingIsRevokeEach(s, s.live.order, s.live.at, sid, io);
    RevokeEachRemoves(s, hs, io);
    assert Members(hs) == LiveIn(s, sid);
  }

  lemma RevokeForSessionKeepsMemory(s: State, sessionId: string, io: Faults)
    requires IndexExact(s) && FifoBounded(s)
    ensures var r := RevokeForSession(s, sessionId, io);
            IndexExact(r) && FifoBounded(r) && RemembersOnly(s, r) && (Text.Trim(sessionId) == "" ==> r == s)
  {
    var sid := Text.Trim(sessionId);
    if sid != "" {
      var hs := Naming(s.live.order, s.live.at, sid);
      RevokeNamingIsRevokeEach(s, s.live.order, s.live.at, sid, io);
      RevokeEachKeepsIndex(s, hs, io);
      RevokeEachKeepsFifo(s, hs, io);
      IndexIgnoresRows(RevokeEach(s, hs, io), RevokeForSession(s, sessionId, io).rows);
    }
  }

  function LiveUnderKey(s: State, key: SessionKey): (hs: set<Hash>) {
    set h | h in s.live.at && KeyOf(s.live.at[h].row) == key
  }

  function Prior(s: State, key: SessionKey): (hs: seq<Hash>) {
    if key in s.bySession then s.bySession[key] else []
  }

  lemma PriorIsLiveUnderKey(s: State, key: SessionKey)
    requires IndexExact(s)
    ensures Members(Prior(s, key)) == LiveUnderKey(s, key)
  {
    forall h
      ensures h in Prior(s, key) <==> h in LiveUnderKey(s, key)
    {
      assert Indexed(s, key, h) <==> LiveUnder(s, key, h);
    }
  }

  /** Rows after a mint: the new one, and the old ones apart from those the mint replaces. */
  ghost predicate RowsReplaced(before: map<Hash, Row>, after: map<Hash, Row>, h: Hash, row: Row, replaced: set<Hash>,
                               io: Faults) {
    && (forall x :: x in after && x != h ==> x in before && after[x] == before[x])
    && (forall x :: x in before && x !in replaced && KeyOf(before[x]) != KeyOf(row) ==> x in after)
    && (forall x :: x in after && x != h && x in replaced ==> x in io.deletes)
    && (forall x :: x in before && x in io.deletes ==> x in after)
    && (!io.put ==> h in after && after[h] == row)
    && (io.put ==> h !in after)
    && (io == NO_FAULTS ==> forall x :: x in after && x != h ==> KeyOf(after[x]) != KeyOf(row))
  }

  /** Only rows of `key` whose deletion did not throw are gone from `after`, and without faults all of `key`'s are. */
  ghost predicate DropsKey(before: map<Hash, Row>, after: map<Hash, Row>, key: SessionKey, io: Faults) {
    && (forall x :: x in after ==> x in before && after[x] == before[x])
    && (forall x :: x in before && KeyOf(before[x]) != key ==> x in after)
    && (forall x :: x in before && x in io.deletes ==> x in after)
    && (io == NO_FAULTS ==> forall x :: x in after ==> KeyOf(after[x]) != key)
  }

  lemma DropRowsForExact(s: State, key: SessionKey, io: Faults)
    ensures var r := DropRowsFor(s, key, io); var throwing := Throwing(s.rows.at, key, io.deletes);
            && (forall h :: h in r.rows.at ==> h in s.rows.at && r.rows.at[h] == s.rows.at[h])
            && (forall h :: h in s.rows.at ==>
                  (h !in r.rows.at <==> !io.list && KeyOf(s.rows.at[h]) == key && !Stops(s.rows.order, throwing, h)))
  {
    if !io.list {
      DropListedEffect(s.rows, s.rows.order, s.rows.at, key, io, Throwing(s.rows.at, key, io.deletes));
    }
  }

  lemma DropRowsForEffect(s: State, key: SessionKey, io: Faults)
    ensures DropsKey(s.rows.at, DropRowsFor(s, key, io).rows.at, key, io)
  {
    hide DropRowsFor, Stops;
    DropRowsForExact(s, key, io);
    var throwing := Throwing(s.rows.at, key, io.deletes);
    forall h | h in s.rows.at && h in throwing
      ensures Stops(s.rows.order, throwing, h)
    {
      ThrowingStops(s.rows.order, throwing, h);
    }
    if io == NO_FAULTS {
      assert throwing == {};
      NothingStops(s.rows.order);
    }
  }

  lemma NothingStops(listed: seq<Hash>)
    ensures forall h :: !Stops(listed, {}, h)
  {
  }

  lemma DropThenPut(before: map<Hash, Row>, revoked: map<Hash, Row>, dropped: map<Hash, Row>, h: Hash, row: Row,
                    replaced: set<Hash>, io: Faults)
    requires h !in before && revoked == before - (replaced - io.deletes) && DropsKey(revoked, dropped, KeyOf(row), io)
    ensures RowsReplaced(before, if io.put then dropped else dropped[h := row], h, row, replaced, io)
  {
  }

  /** A mint replaces what its session key held, and touches nothing of any other key. */
  lemma MintEffect(s: State, request: MintRequest, secret: string, nowMs: int, io: Faults)
    requires IndexExact(s) && Mintable(request)
    requires Sha256(secret) !in s.live.at && Sha256(secret) !in s.rows.at
    ensures var r := Mint(s, request, secret, nowMs, io); var row := MintedRow(request, nowMs);
            && r.live.at == (s.live.at - LiveUnderKey(s, KeyOf(row)))[Sha256(secret) := Entry(row, Some(secret), false)]
            && RowsReplaced(s.rows.at, r.rows.at, Sha256(secret), row, LiveUnderKey(s, KeyOf(row)), io)
  {
    var row := MintedRow(request, nowMs);
    var key := KeyOf(row);
    var s1 := RevokeEach(s, Prior(s, key), io);
    assert Removes(s, s1, LiveUnderKey(s, key), io) by {
      PriorIsLiveUnderKey(s, key);
      RevokeEachRemoves(s, Prior(s, key), io);
    }
    DropRowsForEffect(s1, key, io);
    DropThenPut(s.rows.at, s1.rows.at, DropRowsFor(s1, key, io).rows.at, Sha256(secret), row, LiveUnderKey(s, key), io);
  }

  lemma {:induction false} RevokeEachKeepsStops(s: State, hashes: seq<Hash>, key: SessionKey, io: Faults, h: Hash)
    requires h in RevokeEach(s, hashes, io).rows.at
    ensures var r := RevokeEach(s, hashes, io);
            && Throwing(r.rows.at, key, io.deletes) == Throwing(s.rows.at, key, io.deletes)
            && (Stops(r.rows.order, Throwing(s.rows.at, key, io.deletes), h)
                <==> Stops(s.rows.order, Throwing(s.rows.at, key, io.deletes), h))
    decreases |hashes|
  {
    hide Stops;
    if hashes == [] {
    } else {
      var x := hashes[0];
      var m := RevokeByHash(s, x, io);
      RevokeByHashRemoves(s, x, io);
      RevokeEachRemoves(m, hashes[1..], io);
      RevokeEachKeepsStops(m, hashes[1..], key, io, h);
      assert Throwing(m.rows.at, key, io.deletes) == Throwing(s.rows.at, key, io.deletes);
      if x !in io.deletes {
        StopsIgnoresOthers(s.rows.order, Throwing(s.rows.at, key, io.deletes), h, x);
      }
    }
  }

  /**
   * Which rows a mint leaves, exactly. A row goes if it belongs to a live bind of the
   * session key and its deletion does not throw, or if it is of that key, the store can be
   * listed, and no row of the key listed at or before it refuses to go.
   */
  lemma MintLeavesRowIff(s: State, request: MintRequest, secret: string, nowMs: int, io: Faults, h: Hash)
    requires IndexExact(s) && Mintable(request) && h in s.rows.at && h != Sha256(secret)
    ensures var key := KeyOf(MintedRow(request, nowMs));
            h !in Mint(s, request, secret, nowMs, io).rows.at <==>
              || (h in LiveUnderKey(s, key) && h !in io.deletes)
              || (KeyOf(s.rows.at[h]) == key && !io.list
                  && !Stops(s.rows.order, Throwing(s.rows.at, key, io.deletes), h))
  {
    var key := KeyOf(MintedRow(request, nowMs));
    var s1 := RevokeEach(s, Prior(s, key), io);
    assert Removes(s, s1, LiveUnderKey(s, key), io) by {
      PriorIsLiveUnderKey(s, key);
      RevokeEachRemoves(s, Prior(s, key), io);
    }
    DropRowsForExact(s1, key, io);
    if h in s1.rows.at {
      RevokeEachKeepsStops(s, Prior(s, key), key, io, h);
    }
    hide RevokeEach, DropRowsFor, Stops, Throwing;
  }

  lemma BlankMintDoesNothing(s: State, request: MintRequest, secret: string, nowMs: int, io: Faults)
    requires Text.Trim(request.meshId) == "" || Text.Trim(request.sessionId) == ""
    ensures Mint(s, request, secret, nowMs, io) == s
  {
  }

  lemma MintKeepsMemory(s: State, request: MintRequest, secret: string, nowMs: int, io: Faults)
    requires IndexExact(s) && FifoBounded(s)
    requires Mintable(request) ==> Sha256(secret) !in s.live.at
    ensures var r := Mint(s, request, secret, nowMs, io);
            IndexExact(r) && FifoBounded(r) && RemembersOnly(s, r) && (!Mintable(request) ==> r == s)
  {
    if Mintable(request) {
      var row := MintedRow(request, nowMs);
      var key := KeyOf(row);
      var s1 := RevokeEach(s, Prior(s, key), io);
      RevokeEachKeepsIndex(s, Prior(s, key), io);
      RevokeEachKeepsFifo(s, Prior(s, key), io);
      RevokeEachRemoves(s, Prior(s, key), io);
      var s2 := DropRowsFor(s1, key, io);
      IndexIgnoresRows(s1, s2.rows);
      var s3 := AddEntry(s2, Sha256(secret), Entry(row, Some(secret), false));
      AddEntryKeepsIndex(s2, Sha256(secret), Entry(row, Some(secret), false));
      IndexIgnoresRows(s3, Put(s3.rows, Sha256(secret), row));
    }
  }

  /** Presenting either leaves the live entries' fields alone or adopts one row whose session is live here. */
  lemma PresentCases(s: State, bind: string, liveHere: set<string>, io: Faults)
    ensures var r := Present(s, bind, liveHere, io).0; var h := Sha256(Text.Trim(bind));
            && r.rows == s.rows && r.revoked == s.revoked
            && (|| r == s
                || (h in s.live.at && exists e: Entry :: e.row == s.live.at[h].row
                                                          && e.restored == s.live.at[h].restored
                                                          && r.live.at == s.live.at[h := e])
                || (h !in s.live.at && h !in s.revoked && h in s.rows.at
                    && r.live.at == s.live.at[h := Entry(s.rows.at[h], Some(Text.Trim(bind)), true)]))
  {
  }

  /** Presenting changes no row and no revocation; what it adopts is a row that was not revoked. */
  lemma PresentEffect(s: State, bind: string, liveHere: set<string>, io: Faults)
    ensures var r := Present(s, bind, liveHere, io).0;
            && r.rows == s.rows && r.revoked == s.revoked
            && (forall h :: h in s.live.at ==> h in r.live.at && r.live.at[h].row == s.live.at[h].row
                                               && r.live.at[h].restored == s.live.at[h].restored)
            && (forall h :: h in r.live.at && h !in s.live.at ==>
                  h in s.rows.at && h !in s.revoked && r.live.at[h].row == s.rows.at[h] && r.live.at[h].restored)
  {
    PresentCases(s, bind, liveHere, io);
    hide Present;
  }

  lemma PresentKeepsIndex(s: State, bind: string, liveHere: set<string>, io: Faults)
    requires IndexExact(s)
    ensures IndexExact(Present(s, bind, liveHere, io).0)
  {
    hide IndexExact, AddEntry, Text.Trim;
    var (r, status) := Present(s, bind, liveHere, io);
    var h := Sha256(Text.Trim(bind));
    if status.Live? && h !in s.live.at {
      AddEntryKeepsIndex(s, h, Entry(s.rows.at[h], Some(Text.Trim(bind)), true));
    } else {
      SameKeysSameIndex(s, r);
    }
  }

  /** The fate a reconcile assigns to a listed row that is not live yet. */
  datatype Fate = Rehydrated | Pruned | Deferred

  function FateOf(row: Row, liveSessions: set<string>, liveHere: set<string>): (f: Fate) {
    if row.session !in liveSessions then Pruned else if row.session in liveHere then Rehydrated else Deferred
  }

  function WithFate(f: Fate, listed: seq<Hash>, snapshot: map<Hash, Row>, live: map<Hash, Entry>,
                    liveSessions: set<string>, liveHere: set<string>): (hs: set<Hash>)
  {
    set h | h in listed && h in snapshot && h !in live && FateOf(snapshot[h], liveSessions, liveHere) == f
  }

  /** After a reconcile: the rehydrated are live, the pruned have lost their rows, nothing else moved. */
  ghost predicate Reconciled(s: State, r: State, rehydrated: set<Hash>, pruned: set<Hash>, snapshot: map<Hash, Row>,
                             io: Faults) {
    && (forall h :: h in r.live.at <==> h in s.live.at || h in rehydrated)
    && (forall h :: h in s.live.at ==> h in r.live.at && r.live.at[h] == s.live.at[h])
    && (forall h :: h in rehydrated ==>
        h in r.live.at && h in snapshot && r.live.at[h] == Entry(snapshot[h], None, true))
    && r.rows.at == s.rows.at - (pruned - io.deletes)
    && r.revoked == s.revoked
  }

  lemma ReconciledInTurn(s: State, m: State, r: State, rehydrated: set<Hash>, rehydrated': set<Hash>,
                         pruned: set<Hash>, pruned': set<Hash>, snapshot: map<Hash, Row>, io: Faults)
    requires Reconciled(s, m, rehydrated, pruned, snapshot, io) && Reconciled(m, r, rehydrated', pruned', snapshot, io)
    ensures Reconciled(s, r, rehydrated + rehydrated', pruned + pruned', snapshot, io)
  {
  }

  function IfFate(f: Fate, s: State, h: Hash, row: Row, liveSessions: set<string>,
                  liveHere: set<string>): (hs: set<Hash>) {
    if h !in s.live.at && FateOf(row, liveSessions, liveHere) == f then {h} else {}
  }

  lemma ReconcileRowEffect(s: State, h: Hash, snapshot: map<Hash, Row>, liveSessions: set<string>,
                           liveHere: set<string>, io: Faults)
    requires h in snapshot
    ensures var row := snapshot[h];
            Reconciled(s, ReconcileRow(s, h, row, liveSessions, liveHere, io),
                       IfFate(Rehydrated, s, h, row, liveSessions, liveHere),
                       IfFate(Pruned, s, h, row, liveSessions, liveHere), snapshot, io)
  {
    assert s.rows.at - ({} - io.deletes) == s.rows.at;
  }

  lemma {:induction false} ReconcileListedEffect(s: State, t: Tally, listed: seq<Hash>, snapshot: map<Hash, Row>,
                                                 liveSessions: set<string>, liveHere: set<string>, io: Faults)
    requires Distinct(listed) && forall h :: h in listed ==> h in snapshot
    ensures var (r, t') := ReconcileListed(s, t, listed, snapshot, liveSessions, liveHere, io);
            Reconciled(s, r, WithFate(Rehydrated, listed, snapshot, s.live.at, liveSessions, liveHere),
                       WithFate(Pruned, listed, snapshot, s.live.at, liveSessions, liveHere), snapshot, io)
    decreases |listed|
  {
    if listed == [] {
      assert s.rows.at - ({} - io.deletes) == s.rows.at;
    } else {
      var h := listed[0];
      var s1 := ReconcileRow(s, h, snapshot[h], liveSessions, liveHere, io);
      var t1 := TallyRow(t, s, h, snapshot[h], liveSessions, liveHere);
      ReconcileListedEffect(s1, t1, listed[1..], snapshot, liveSessions, liveHere, io);
      ReconcileRowEffect(s, h, snapshot, liveSessions, liveHere, io);
      ReconciledInTurn(s, s1, ReconcileListed(s1, t1, listed[1..], snapshot, liveSessions, liveHere, io).0,
                       IfFate(Rehydrated, s, h, snapshot[h], liveSessions, liveHere),
                       WithFate(Rehydrated, listed[1..], snapshot, s1.live.at, liveSessions, liveHere),
                       IfFate(Pruned, s, h, snapshot[h], liveSessions, liveHere),
                       WithFate(Pruned, listed[1..], snapshot, s1.live.at, liveSessions, liveHere), snapshot, io);
      FateOfHead(Rehydrated, s, listed, snapshot, liveSessions, liveHere, io);
      FateOfHead(Pruned, s, listed, snapshot, liveSessions, liveHere, io);
    }
  }

  /** Treating the first listed row leaves the fate of the others alone. */
  lemma FateOfHead(f: Fate, s: State, listed: seq<Hash>, snapshot: map<Hash, Row>,
                   liveSessions: set<string>, liveHere: set<string>, io: Faults)
    requires listed != [] && Distinct(listed) && forall h :: h in listed ==> h in snapshot
    ensures var h := listed[0]; var s1 := ReconcileRow(s, h, snapshot[h], liveSessions, liveHere, io);
            WithFate(f, listed, snapshot, s.live.at, liveSessions, liveHere)
            == IfFate(f, s, h, snapshot[h], liveSessions, liveHere)
               + WithFate(f, listed[1..], snapshot, s1.live.at, liveSessions, liveHere)
    ensures listed[0] !in listed[1..]
  {
    assert listed[0] !in listed[1..];
    assert forall x :: x in listed <==> x == listed[0] || x in listed[1..];
    ReconcileRowLives(s, listed[0], snapshot[listed[0]], liveSessions, liveHere, io);
    hide ReconcileRow, FateOf, Distinct;
  }

  lemma ReconcileRowLives(s: State, h: Hash, row: Row, liveSessions: set<string>, liveHere: set<string>, io: Faults)
    ensures forall x :: x != h ==>
              (x in ReconcileRow(s, h, row, liveSessions, liveHere, io).live.at <==> x in s.live.at)
  {
  }

  lemma {:induction false} ReconcileListedKeepsIndex(s: State, t: Tally, listed: seq<Hash>, snapshot: map<Hash, Row>,
                                                     liveSessions: set<string>, liveHere: set<string>, io: Faults)
    requires IndexExact(s) && forall h :: h in listed ==> h in snapshot
    ensures IndexExact(ReconcileListed(s, t, listed, snapshot, liveSessions, liveHere, io).0)
    decreases |listed|
  {
    if listed == [] {
    } else {
      var h := listed[0];
      var s1 := ReconcileRow(s, h, snapshot[h], liveSessions, liveHere, io);
      if h !in s.live.at {
        if FateOf(snapshot[h], liveSessions, liveHere) == Rehydrated {
          AddEntryKeepsIndex(s, h, Entry(snapshot[h], None, true));
        } else {
          IndexIgnoresRows(s, s1.rows);
        }
      }
      ReconcileListedKeepsIndex(s1, TallyRow(t, s, h, snapshot[h], liveSessions, liveHere), listed[1..], snapshot,
                                liveSessions, liveHere, io);
    }
  }
}
