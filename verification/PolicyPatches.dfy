/** Patching a stored policy, and the one-time migration of a full copy to sparse overrides. */
module PolicyPatches {
  import opened Basics
  import opened Json
  import opened PolicyTable
  import opened PolicyStore
  import opened PolicyLaws

  // ----- Patches -----

  function PatchedField(base: Record, patch: Record, name: Name): (v: Value) {
    var p := Field(patch, name);
    if p == Null then Undefined else if p == Undefined then Field(base, name) else PatchValue(base, name, p)
  }

  lemma FieldOfPatched(base: Record, patch: Record, name: Name)
    ensures Field(Patched(base, patch), name) == PatchedField(base, patch, name)
  {
  }

  /** Overlaying the same sub-keys on two values that resolve alike gives values that resolve alike. */
  lemma FastForwardOverlay(coerce: Coercion, v: Value, v': Value, over: Record)
    requires ResolveAutoFastForward(coerce, v) == ResolveAutoFastForward(coerce, v')
    ensures ResolveAutoFastForward(coerce, Obj(RecordOf(v) + over))
            == ResolveAutoFastForward(coerce, Obj(RecordOf(v') + over))
  {
    hide ResolveAutoFastForward, FastForwardSubKey;
    var r := ResolveAutoFastForward(coerce, Obj(RecordOf(v) + over));
    var r' := ResolveAutoFastForward(coerce, Obj(RecordOf(v') + over));
    FastForwardIsIdempotent(coerce, Obj(RecordOf(v) + over));
    FastForwardIsIdempotent(coerce, Obj(RecordOf(v') + over));
    forall name
      ensures Field(r.fields, name) == Field(r'.fields, name)
      ensures name in r.fields ==> r.fields[name] != Undefined
      ensures name in r'.fields ==> r'.fields[name] != Undefined
    {
      FastForwardIsPerSubKey(coerce, v, name);
      FastForwardIsPerSubKey(coerce, v', name);
      FastForwardIsPerSubKey(coerce, Obj(RecordOf(v) + over), name);
      FastForwardIsPerSubKey(coerce, Obj(RecordOf(v') + over), name);
    }
    RecordsEqual(r.fields, r'.fields);
  }

  lemma FastForwardEntry(coerce: Coercion, v: Value, v': Value)
    requires v.Obj? && v'.Obj? && ResolveAutoFastForward(coerce, v) == ResolveAutoFastForward(coerce, v')
    ensures NormalizeEntry(coerce, AutoFastForward, v) == NormalizeEntry(coerce, AutoFastForward, v')
  {
    hide ResolveAutoFastForward;
  }

  lemma FastForwardResolvedAs(coerce: Coercion, raw: Value)
    ensures ResolvedAs(coerce, AutoFastForward, raw) == ResolveAutoFastForward(coerce, raw)
  {
    hide NormalizeAutoFastForward;
  }

  lemma PatchedEntryIgnoresSpelling(coerce: Coercion, base: Record, sparse: Record, patch: Record, name: Name)
    requires NormalizeEntry(coerce, name, Field(base, name)) == Ok(Field(sparse, name))
    ensures NormalizeEntry(coerce, name, PatchedField(base, patch, name))
            == NormalizeEntry(coerce, name, PatchedField(sparse, patch, name))
  {
    hide NormalizeEntry, ResolvedAs, ResolveAutoFastForward;
    var p := Field(patch, name);
    EntryIsIdempotent(coerce, name, Field(base, name));
    EntryIsNeutral(coerce, name, Field(base, name));
    if name == AutoFastForward && p.Obj? {
      FastForwardResolvedAs(coerce, Field(base, name));
      FastForwardResolvedAs(coerce, Field(sparse, name));
      FastForwardOverlay(coerce, Field(base, name), Field(sparse, name), p.fields);
      FastForwardEntry(coerce, PatchValue(base, name, p), PatchValue(sparse, name, p));
    }
  }

  /** Patching a stored block gives the same result, rejection included, whether or not it was normalized first. */
  lemma PatchingIgnoresSpelling(coerce: Coercion, base: Value, patch: Value)
    requires Normalize(coerce, base).Ok?
    ensures Merge(coerce, base, patch) == Merge(coerce, Obj(Normalize(coerce, base).value), patch)
  {
    var record, delta := RecordOf(base), RecordOf(patch);
    var sparse := KeptEntries(coerce, record);
    RejectsByField(coerce, record);
    hide NormalizeEntry, Rejects, KeptEntries, Patched, PatchedField;
    forall name
      ensures NormalizeEntry(coerce, name, Field(Patched(record, delta), name))
              == NormalizeEntry(coerce, name, Field(Patched(sparse, delta), name))
    {
      FieldOfKept(coerce, record, name);
      FieldOfPatched(record, delta, name);
      FieldOfPatched(sparse, delta, name);
      PatchedEntryIgnoresSpelling(coerce, record, sparse, delta, name);
    }
    NormalizeEqual(coerce, Patched(record, delta), Patched(sparse, delta));
  }

  /**
   * What an accepted patch means for the resolved policy: a null key returns to its
   * default, a key the patch leaves alone resolves as before, and any other key
   * resolves to the patch's value.
   */
  lemma PatchMeaning(coerce: Coercion, base: Value, patch: Value, name: Name)
    requires Merge(coerce, base, patch).Ok?
    ensures var after := Field(Resolve(coerce, Obj(Merge(coerce, base, patch).value)), name);
            var p := Field(RecordOf(patch), name);
            if p == Null then after == Field(Resolve(coerce, Obj(map[])), name)
            else if p == Undefined then after == Field(Resolve(coerce, base), name)
            else (name == AutoFastForward && p.Obj?) || after == Field(Resolve(coerce, patch), name)
  {
    hide Normalize, Resolve, ResolvedAs, Patched;
    var record, delta := RecordOf(base), RecordOf(patch);
    NormalizeIsResolveNeutral(coerce, Obj(Patched(record, delta)));
    FieldOfPatched(record, delta, name);
    FieldOfResolved(coerce, Obj(Patched(record, delta)), name);
    FieldOfResolved(coerce, Obj(map[]), name);
    FieldOfResolved(coerce, base, name);
    FieldOfResolved(coerce, patch, name);
  }

  /** A patched `autoFastForward` object changes exactly the sub-keys the patch names. */
  lemma FastForwardPatchMeaning(coerce: Coercion, base: Value, patch: Value, sub: Name)
    requires Merge(coerce, base, patch).Ok? && Field(RecordOf(patch), AutoFastForward).Obj?
    ensures var over := Field(RecordOf(patch), AutoFastForward).fields;
            var before := RecordOf(Field(Resolve(coerce, base), AutoFastForward));
            var after := RecordOf(Field(Resolve(coerce, Obj(Merge(coerce, base, patch).value)), AutoFastForward));
            Field(after, sub) == if sub in over then FastForwardSubKey(coerce, sub, over[sub]) else Field(before, sub)
  {
    hide Merge, Resolve, ResolveAutoFastForward, FastForwardSubKey;
    var record := RecordOf(base);
    var over := Field(RecordOf(patch), AutoFastForward).fields;
    FastForwardAfterPatch(coerce, base, patch);
    FastForwardOverlaySubKey(coerce, Field(record, AutoFastForward), over, sub);
  }

  lemma FastForwardOverlaySubKey(coerce: Coercion, v: Value, over: Record, sub: Name)
    ensures Field(RecordOf(ResolveAutoFastForward(coerce, Obj(RecordOf(v) + over))), sub)
            == if sub in over then FastForwardSubKey(coerce, sub, over[sub])
               else Field(RecordOf(ResolveAutoFastForward(coerce, v)), sub)
  {
    hide ResolveAutoFastForward, FastForwardSubKey;
    FastForwardIsIdempotent(coerce, v);
    FastForwardIsIdempotent(coerce, Obj(RecordOf(v) + over));
    FastForwardIsPerSubKey(coerce, v, sub);
    FastForwardIsPerSubKey(coerce, Obj(RecordOf(v) + over), sub);
  }

  lemma FastForwardAfterPatch(coerce: Coercion, base: Value, patch: Value)
    requires Merge(coerce, base, patch).Ok? && Field(RecordOf(patch), AutoFastForward).Obj?
    ensures var stored := Field(RecordOf(base), AutoFastForward);
            var over := Field(RecordOf(patch), AutoFastForward).fields;
            && Field(Resolve(coerce, base), AutoFastForward) == ResolveAutoFastForward(coerce, stored)
            && Field(Resolve(coerce, Obj(Merge(coerce, base, patch).value)), AutoFastForward)
               == ResolveAutoFastForward(coerce, Obj(RecordOf(stored) + over))
  {
    hide Normalize, Resolve, ResolvedAs, Patched, ResolveAutoFastForward;
    var record, delta := RecordOf(base), RecordOf(patch);
    var merged := Patched(record, delta);
    NormalizeIsResolveNeutral(coerce, Obj(merged));
    FieldOfPatched(record, delta, AutoFastForward);
    FieldOfResolved(coerce, Obj(merged), AutoFastForward);
    FieldOfResolved(coerce, base, AutoFastForward);
    FastForwardResolvedAs(coerce, Field(merged, AutoFastForward));
    FastForwardResolvedAs(coerce, Field(record, AutoFastForward));
  }

  /** Applying an accepted patch a second time changes nothing. */
  lemma PatchIsIdempotent(coerce: Coercion, base: Value, patch: Value)
    requires Merge(coerce, base, patch).Ok?
    ensures Merge(coerce, Obj(Merge(coerce, base, patch).value), patch) == Merge(coerce, base, patch)
  {
    hide Normalize, Patched, PatchedField, NormalizeEntry;
    var record, delta := RecordOf(base), RecordOf(patch);
    var merged := Patched(record, delta);
    PatchingIgnoresSpelling(coerce, Obj(merged), patch);
    forall name
      ensures Field(Patched(merged, delta), name) == Field(merged, name)
    {
      FieldOfPatched(record, delta, name);
      FieldOfPatched(merged, delta, name);
      PatchedTwice(record, merged, delta, name);
    }
    NormalizeEqual(coerce, Patched(merged, delta), merged);
  }

  lemma PatchedTwice(base: Record, merged: Record, patch: Record, name: Name)
    requires Field(merged, name) == PatchedField(base, patch, name)
    ensures PatchedField(merged, patch, name) == PatchedField(base, patch, name)
  {
    var p := Field(patch, name);
    if name == AutoFastForward && p.Obj? {
      assert RecordOf(Field(base, name)) + p.fields + p.fields == RecordOf(Field(base, name)) + p.fields;
    }
  }

  // ----- The migration -----

  lemma MigratedEntryLaws(coerce: Coercion, name: Name, raw: Value)
    ensures var w := MigrateEntry(coerce, name, raw);
            MigrateEntry(coerce, name, w) == w && ResolvedAs(coerce, name, w) == ResolvedAs(coerce, name, raw)
  {
    hide NormalizeEntry, ResolvedAs;
    if NormalizeEntry(coerce, name, raw).Ok? {
      EntryIsIdempotent(coerce, name, raw);
      EntryIsNeutral(coerce, name, raw);
    }
  }

  lemma PreserveComesFromPreserve(coerce: Coercion, raw: Value)
    ensures MigrateEntry(coerce, SessionCleanupOnNodeRemove, raw) == Str("preserve") ==> raw == Str("preserve")
  {
  }

  /** Nothing is left to migrate after a migration. */
  lemma MigrateIsIdempotent(coerce: Coercion, v: Value)
    ensures Migrate(coerce, Obj(Migrate(coerce, v))) == Migrate(coerce, v)
  {
    var once := Migrate(coerce, v);
    var record := WithoutCopiedPreserve(RecordOf(v));
    FieldOfMigrated(coerce, v, SessionCleanupOnNodeRemove);
    PreserveComesFromPreserve(coerce, Field(record, SessionCleanupOnNodeRemove));
    assert WithoutCopiedPreserve(once) == once by {
      hide MigrateEntry;
    }
    hide Migrate, MigrateEntry, WithoutCopiedPreserve, ResolvedAs;
    var twice := Migrate(coerce, Obj(once));
    forall name
      ensures Field(twice, name) == Field(once, name)
      ensures name in twice ==> twice[name] != Undefined
      ensures name in once ==> once[name] != Undefined
    {
      FieldOfMigrated(coerce, v, name);
      FieldOfMigrated(coerce, Obj(once), name);
      MigratedEntryLaws(coerce, name, Field(record, name));
    }
    RecordsEqual(twice, once);
  }

  /** Where the normalizer accepts the block, the migration is the normalizer, less a copied `preserve`. */
  lemma MigrateIsNormalizeWhereAccepted(coerce: Coercion, v: Value)
    requires Normalize(coerce, v).Ok?
    ensures var stored := Normalize(coerce, v).value;
            Migrate(coerce, v) == if Field(stored, SessionCleanupOnNodeRemove) == Str("preserve")
                                  then stored - {SessionCleanupOnNodeRemove} else stored
  {
    var record := RecordOf(v);
    var kept := KeptEntries(coerce, record);
    var sparse := WithoutCopiedPreserve(kept);
    RejectsByField(coerce, record);
    FieldOfKept(coerce, record, SessionCleanupOnNodeRemove);
    PreserveIsKept(coerce, Field(record, SessionCleanupOnNodeRemove));
    hide NormalizeEntry, Rejects, KeptEntries, Migrate;
    var migrated := Migrate(coerce, v);
    forall name
      ensures Field(migrated, name) == Field(sparse, name)
      ensures name in migrated ==> migrated[name] != Undefined
      ensures name in sparse ==> sparse[name] != Undefined
    {
      FieldOfMigrated(coerce, v, name);
      FieldOfKept(coerce, record, name);
      DroppedEntry(coerce, name, Undefined);
    }
    RecordsEqual(migrated, sparse);
  }

  lemma PreserveIsKept(coerce: Coercion, raw: Value)
    ensures Kept(coerce, SessionCleanupOnNodeRemove, raw) == Str("preserve") <==> raw == Str("preserve")
  {
  }

  /**
   * The migration leaves the resolved policy unchanged, even where it keeps values a
   * write would reject, except that a copied `sessionCleanupOnNodeRemove: 'preserve'` goes.
   */
  lemma MigrateIsResolveNeutral(coerce: Coercion, v: Value)
    ensures var before := Resolve(coerce, v);
            Resolve(coerce, Obj(Migrate(coerce, v))) ==
              if Field(before, SessionCleanupOnNodeRemove) == Str("preserve")
              then before - {SessionCleanupOnNodeRemove} else before
  {
    var record := RecordOf(v);
    var source := WithoutCopiedPreserve(record);
    var resolved := WithoutCopiedPreserve(Resolve(coerce, v));
    var after := Resolve(coerce, Obj(Migrate(coerce, v)));
    FieldOfResolved(coerce, v, SessionCleanupOnNodeRemove);
    PreserveIsResolved(coerce, Field(record, SessionCleanupOnNodeRemove));
    hide ResolvedAs, Resolve, Migrate, MigrateEntry;
    forall name
      ensures Field(after, name) == Field(resolved, name)
      ensures name in after ==> after[name] != Undefined
      ensures name in resolved ==> resolved[name] != Undefined
    {
      FieldOfResolved(coerce, v, name);
      FieldOfResolved(coerce, Obj(Migrate(coerce, v)), name);
      FieldOfMigrated(coerce, v, name);
      MigratedEntryLaws(coerce, name, Field(source, name));
    }
    RecordsEqual(after, resolved);
  }

  lemma PreserveIsResolved(coerce: Coercion, raw: Value)
    ensures ResolvedAs(coerce, SessionCleanupOnNodeRemove, raw) == Str("preserve") <==> raw == Str("preserve")
    ensures ResolvedAs(coerce, SessionCleanupOnNodeRemove, Undefined) == Undefined
  {
  }
}
