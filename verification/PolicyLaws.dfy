/**
 * What sparse policy storage promises: storing loses nothing, stored forms are
 * canonical, patches mean what they say, and the migration is neutral.
 */
module PolicyLaws {
  import opened Basics
  import opened Json
  import opened PolicyTable
  import opened PolicyStore

  // ----- One entry -----

  lemma EntryIsIdempotent(coerce: Coercion, name: Name, raw: Value)
    requires NormalizeEntry(coerce, name, raw).Ok?
    ensures var w := NormalizeEntry(coerce, name, raw).value; w != Null && NormalizeEntry(coerce, name, w) == Ok(w)
  {
    hide Effective, Stored, KNOWN;
    if !Retired(name) && !Absent(raw) && name in KNOWN {
      StoringKeepsTheMeaning(coerce, name, raw);
    }
  }

  lemma EntryIsNeutral(coerce: Coercion, name: Name, raw: Value)
    requires NormalizeEntry(coerce, name, raw).Ok?
    ensures ResolvedAs(coerce, name, NormalizeEntry(coerce, name, raw).value) == ResolvedAs(coerce, name, raw)
  {
    RetiredAreUnknown(name);
    hide Effective, Stored, KNOWN, Retired;
    if !Retired(name) && !Absent(raw) && name in KNOWN {
      StoringKeepsTheMeaning(coerce, name, raw);
    }
  }

  lemma RetiredAreUnknown(name: Name)
    ensures Retired(name) || name.Inherited? ==> name !in KNOWN
  {
  }

  /** An entry's stored form is determined by what the entry resolves to. */
  lemma EntryIsCanonical(coerce: Coercion, name: Name, raw: Value, raw': Value)
    requires NormalizeEntry(coerce, name, raw).Ok? && NormalizeEntry(coerce, name, raw').Ok?
    requires ResolvedAs(coerce, name, raw) == ResolvedAs(coerce, name, raw')
    ensures NormalizeEntry(coerce, name, raw) == NormalizeEntry(coerce, name, raw')
  {
    RetiredAreUnknown(name);
    hide Effective, Stored, KNOWN, Retired;
    if name in KNOWN {
      if Absent(raw) {
        DefaultIsDropped(coerce, name, raw');
      } else if Absent(raw') {
        DefaultIsDropped(coerce, name, raw);
      } else {
        StoredFormFromMeaning(coerce, name, raw, raw');
      }
    }
  }

  lemma DefaultIsDropped(coerce: Coercion, name: Name, raw: Value)
    requires name in KNOWN && NormalizeEntry(coerce, name, raw).Ok?
    requires ResolvedAs(coerce, name, raw) == Effective(coerce, name, Undefined)
    ensures NormalizeEntry(coerce, name, raw) == Ok(Undefined)
  {
    RetiredAreUnknown(name);
    hide Effective, Stored, KNOWN, Retired;
    if !Absent(raw) {
      StoringKeepsTheMeaning(coerce, name, raw);
    }
  }

  // ----- From entries to records -----

  lemma FieldOfResolved(coerce: Coercion, v: Value, name: Name)
    ensures Field(Resolve(coerce, v), name) == ResolvedAs(coerce, name, Field(RecordOf(v), name))
    ensures name in Resolve(coerce, v) ==> Resolve(coerce, v)[name] != Undefined
  {
    hide Effective, KNOWN, Retired;
  }

  lemma FieldOfKept(coerce: Coercion, record: Record, name: Name)
    ensures Field(KeptEntries(coerce, record), name) == Kept(coerce, name, Field(record, name))
    ensures name in KeptEntries(coerce, record) ==> KeptEntries(coerce, record)[name] != Undefined
  {
    DroppedEntry(coerce, name, Undefined);
    hide NormalizeEntry;
  }

  lemma FieldOfMigrated(coerce: Coercion, v: Value, name: Name)
    ensures Field(Migrate(coerce, v), name)
            == MigrateEntry(coerce, name, Field(WithoutCopiedPreserve(RecordOf(v)), name))
    ensures name in Migrate(coerce, v) ==> Migrate(coerce, v)[name] != Undefined
  {
    DroppedEntry(coerce, name, Undefined);
    hide NormalizeEntry;
  }

  lemma ResolveEqual(coerce: Coercion, v: Value, v': Value)
    requires forall name ::
             ResolvedAs(coerce, name, Field(RecordOf(v), name)) == ResolvedAs(coerce, name, Field(RecordOf(v'), name))
    ensures Resolve(coerce, v) == Resolve(coerce, v')
  {
    hide ResolvedAs, Resolve;
    forall name
      ensures Field(Resolve(coerce, v), name) == Field(Resolve(coerce, v'), name)
      ensures name in Resolve(coerce, v) ==> Resolve(coerce, v)[name] != Undefined
      ensures name in Resolve(coerce, v') ==> Resolve(coerce, v')[name] != Undefined
    {
      FieldOfResolved(coerce, v, name);
      FieldOfResolved(coerce, v', name);
    }
    RecordsEqual(Resolve(coerce, v), Resolve(coerce, v'));
  }

  lemma NormalizeEqual(coerce: Coercion, record: Record, record': Record)
    requires forall name ::
             NormalizeEntry(coerce, name, Field(record, name)) == NormalizeEntry(coerce, name, Field(record', name))
    ensures Normalize(coerce, Obj(record)) == Normalize(coerce, Obj(record'))
  {
    RejectsByField(coerce, record);
    RejectsByField(coerce, record');
    hide NormalizeEntry, Rejects, KeptEntries;
    var kept, kept' := KeptEntries(coerce, record), KeptEntries(coerce, record');
    forall name
      ensures Field(kept, name) == Field(kept', name)
      ensures name in kept ==> kept[name] != Undefined
      ensures name in kept' ==> kept'[name] != Undefined
    {
      FieldOfKept(coerce, record, name);
      FieldOfKept(coerce, record', name);
    }
    RecordsEqual(kept, kept');
  }

  lemma RejectsByField(coerce: Coercion, record: Record)
    ensures Rejects(coerce, record) <==> exists name :: NormalizeEntry(coerce, name, Field(record, name)).Thrown?
  {
    forall name | NormalizeEntry(coerce, name, Field(record, name)).Thrown?
      ensures name in record && NormalizeEntry(coerce, name, record[name]).Thrown?
    {
      DroppedEntry(coerce, name, Undefined);
    }
    hide NormalizeEntry;
    if Rejects(coerce, record) {
      var name :| name in record && NormalizeEntry(coerce, name, record[name]).Thrown?;
      assert NormalizeEntry(coerce, name, Field(record, name)).Thrown?;
    }
  }

  // ----- The normalizer -----

  /** Normalizing an accepted block and then normalizing again changes nothing. */
  lemma NormalizeIsIdempotent(coerce: Coercion, v: Value)
    requires Normalize(coerce, v).Ok?
    ensures Normalize(coerce, Obj(Normalize(coerce, v).value)) == Normalize(coerce, v)
  {
    var record := RecordOf(v);
    var kept := KeptEntries(coerce, record);
    RejectsByField(coerce, record);
    hide NormalizeEntry, Rejects, KeptEntries;
    forall name
      ensures NormalizeEntry(coerce, name, Field(record, name)) == NormalizeEntry(coerce, name, Field(kept, name))
    {
      FieldOfKept(coerce, record, name);
      EntryIsIdempotent(coerce, name, Field(record, name));
    }
    NormalizeEqual(coerce, record, kept);
  }

  /** An accepted block resolves as its normalized form does, key by key and as a whole. */
  lemma NormalizeIsResolveNeutral(coerce: Coercion, v: Value)
    requires Normalize(coerce, v).Ok?
    ensures Resolve(coerce, Obj(Normalize(coerce, v).value)) == Resolve(coerce, v)
  {
    var record := RecordOf(v);
    var kept := KeptEntries(coerce, record);
    RejectsByField(coerce, record);
    hide NormalizeEntry, Rejects, KeptEntries, ResolvedAs;
    forall name
      ensures ResolvedAs(coerce, name, Field(kept, name)) == ResolvedAs(coerce, name, Field(record, name))
    {
      FieldOfKept(coerce, record, name);
      EntryIsNeutral(coerce, name, Field(record, name));
    }
    ResolveEqual(coerce, Obj(kept), v);
  }

  /** The stored form is canonical: two accepted blocks are stored alike exactly if they resolve alike. */
  lemma StoredAlikeIffResolvedAlike(coerce: Coercion, v: Value, v': Value)
    requires Normalize(coerce, v).Ok? && Normalize(coerce, v').Ok?
    ensures Normalize(coerce, v) == Normalize(coerce, v') <==> Resolve(coerce, v) == Resolve(coerce, v')
  {
    if Normalize(coerce, v) == Normalize(coerce, v') {
      NormalizeIsResolveNeutral(coerce, v);
      NormalizeIsResolveNeutral(coerce, v');
    }
    if Resolve(coerce, v) == Resolve(coerce, v') {
      var record, record' := RecordOf(v), RecordOf(v');
      RejectsByField(coerce, record);
      RejectsByField(coerce, record');
      hide NormalizeEntry, Rejects, KeptEntries, ResolvedAs, Resolve;
      forall name
        ensures NormalizeEntry(coerce, name, Field(record, name)) == NormalizeEntry(coerce, name, Field(record', name))
      {
        FieldOfResolved(coerce, v, name);
        FieldOfResolved(coerce, v', name);
        EntryIsCanonical(coerce, name, Field(record, name), Field(record', name));
      }
      NormalizeEqual(coerce, record, record');
    }
  }

  /** Only overrides are stored: no kept key resolves as an unset one would, and no retired key is kept. */
  lemma StoredFormIsSparse(coerce: Coercion, v: Value, name: Name)
    requires Normalize(coerce, v).Ok? && name in Normalize(coerce, v).value
    ensures !name.Inherited?
    ensures name !in {RequirePreTaskCheckpoint, RequirePostTaskCheckpoint, DirtyWorkspaceBehavior, MagiSessionCleanup}
    ensures name in KNOWN ==>
            Effective(coerce, name, Normalize(coerce, v).value[name]) != Effective(coerce, name, Undefined)
  {
    hide Effective, Stored, KNOWN;
    var record := RecordOf(v);
    assert NormalizeEntry(coerce, name, record[name]).Ok?;
  }

  /**
   * Exactly which blocks a write rejects. Besides an invalid `maxNodes` or
   * `onDependencyFailure` (all that the normalizer's documentation names), any set key
   * whose name every object inherits is rejected too, since the table lookup finds the
   * inherited property.
   */
  lemma AcceptedIff(coerce: Coercion, v: Value)
    ensures var record := RecordOf(v);
            Normalize(coerce, v).Ok? <==>
              && (Absent(Field(record, MaxNodes)) || IsNodeLimit(coerce, Field(record, MaxNodes)))
              && Field(record, OnDependencyFailure) in {Undefined, Null, Str("block"), Str("cancel")}
              && forall name :: name in record && name.Inherited? ==> Absent(record[name])
  {
    var record := RecordOf(v);
    RejectsByField(coerce, record);
    EntryRejectedIff(coerce, MaxNodes, Field(record, MaxNodes));
    EntryRejectedIff(coerce, OnDependencyFailure, Field(record, OnDependencyFailure));
    forall name
      ensures NormalizeEntry(coerce, name, Field(record, name)).Thrown? <==>
              RejectedEntry(coerce, name, Field(record, name))
    {
      EntryRejectedIff(coerce, name, Field(record, name));
    }
    NodeLimitIsStored(coerce, Field(record, MaxNodes));
    hide NormalizeEntry, Rejects, KeptEntries, StoreMaxNodes, IsNodeLimit;
    if Normalize(coerce, v).Ok? {
      forall name | name in record && name.Inherited?
        ensures Absent(record[name])
      {
        assert !NormalizeEntry(coerce, name, Field(record, name)).Thrown?;
      }
    }
  }

  /** A number, or a string that is one, whole and from 1 to 64. */
  predicate IsNodeLimit(coerce: Coercion, v: Value) {
    (v.Num? || v.Str?) &&
    var n := ToNumber(coerce, v); n.Fin? && n.r == n.r.Floor as real && 1.0 <= n.r <= 64.0
  }

  lemma NodeLimitIsStored(coerce: Coercion, v: Value)
    ensures StoreMaxNodes(coerce, v).Ok? <==> IsNodeLimit(coerce, v)
  {
    hide ToNumber;
  }

  predicate RejectedEntry(coerce: Coercion, name: Name, raw: Value) {
    !Absent(raw) &&
    match name
    case MaxNodes => StoreMaxNodes(coerce, raw).Thrown?
    case OnDependencyFailure => raw != Str("block") && raw != Str("cancel")
    case Inherited(_) => true
    case _ => false
  }

  lemma EntryRejectedIff(coerce: Coercion, name: Name, raw: Value)
    ensures NormalizeEntry(coerce, name, raw).Thrown? <==> RejectedEntry(coerce, name, raw)
  {
    hide Effective, StoreMaxNodes, NormalizeQuotaRouting;
  }

  /** The smallest block the documentation says is accepted and the code rejects. */
  lemma InheritedNameIsRejected(coerce: Coercion, text: string)
    ensures Normalize(coerce, Obj(map[Inherited(text) := Bool(true)])).Thrown?
  {
    SingleEntry(coerce, Inherited(text), Bool(true));
    hide Normalize;
  }
}
