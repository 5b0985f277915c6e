/**
 * Sparse storage of a mesh policy: the reader, the normalizer, the patch merge and the
 * load-time migration, as loops over a record's entries, each specified per key.
 */
module PolicyStore {
  import opened Basics
  import opened Json
  import opened PolicyTable

  // ----- Per-key specifications -----

  function NullAsUnset(v: Value): (r: Value) {
    if v == Null then Undefined else v
  }

  /** What the resolved policy shows under one name; undefined means it is not emitted. */
  function ResolvedAs(coerce: Coercion, name: Name, raw: Value): (v: Value) {
    if name in KNOWN then Effective(coerce, name, NullAsUnset(raw))
    else if Retired(name) || name.Inherited? then Undefined
    else NullAsUnset(raw)
  }

  function Resolve(coerce: Coercion, overrides: Value): (r: Record) {
    var src := RecordOf(overrides);
    map name | name in src.Keys + KNOWN && ResolvedAs(coerce, name, Field(src, name)) != Undefined
             :: ResolvedAs(coerce, name, Field(src, name))
  }

  /** What the normalizer writes for one entry: a value, undefined for a dropped entry, or a rejection. */
  function NormalizeEntry(coerce: Coercion, name: Name, raw: Value): (r: Result<Value>) {
    if Retired(name) || Absent(raw) then Ok(Undefined)
    else if name.Inherited? then Thrown
    else if name !in KNOWN then Ok(raw)
    else
      var stored := Stored(coerce, name, raw);
      if stored.Ok? && stored.value != Undefined
         && Effective(coerce, name, stored.value) == Effective(coerce, name, Undefined)
      then Ok(Undefined) else stored
  }

  ghost predicate Rejects(coerce: Coercion, record: Record) {
    exists name :: name in record && NormalizeEntry(coerce, name, record[name]).Thrown?
  }

  function Kept(coerce: Coercion, name: Name, raw: Value): (v: Value) {
    var r := NormalizeEntry(coerce, name, raw);
    if r.Ok? then r.value else Undefined
  }

  function KeptEntries(coerce: Coercion, record: Record): (r: Record) {
    map name | name in record && Kept(coerce, name, record[name]) != Undefined :: Kept(coerce, name, record[name])
  }

  ghost function Normalize(coerce: Coercion, value: Value): (r: Result<Record>) {
    var record := RecordOf(value);
    if Rejects(coerce, record) then Thrown else Ok(KeptEntries(coerce, record))
  }

  /** The value a patch entry sets; `autoFastForward` objects merge per sub-key. */
  function PatchValue(base: Record, name: Name, v: Value): (r: Value) {
    if name == AutoFastForward && v.Obj? then Obj(RecordOf(Field(base, name)) + v.fields) else v
  }

  function Patched(base: Record, patch: Record): (r: Record) {
    (base + map name | name in patch && !Absent(patch[name]) :: PatchValue(base, name, patch[name]))
    - (set name | name in patch && patch[name] == Null)
  }

  ghost function Merge(coerce: Coercion, base: Value, patch: Value): (r: Result<Record>) {
    Normalize(coerce, Obj(Patched(RecordOf(base), RecordOf(patch))))
  }

  /** A stored `preserve` is the copy of an old default; the migration drops it. */
  function WithoutCopiedPreserve(record: Record): (r: Record) {
    if Field(record, SessionCleanupOnNodeRemove) == Str("preserve")
    then record - {SessionCleanupOnNodeRemove} else record
  }

  function MigrateEntry(coerce: Coercion, name: Name, raw: Value): (v: Value) {
    var r := NormalizeEntry(coerce, name, raw);
    if r.Ok? then r.value else raw
  }

  function Migrate(coerce: Coercion, stored: Value): (r: Record) {
    var record := WithoutCopiedPreserve(RecordOf(stored));
    map name | name in record && MigrateEntry(coerce, name, record[name]) != Undefined
             :: MigrateEntry(coerce, name, record[name])
  }

  // ----- The source's loops -----

  method ResolveMeshPolicy(coerce: Coercion, overrides: Value) returns (out: Record)
    ensures out == Resolve(coerce, overrides)
  {
    hide Effective, KNOWN;
    var src := RecordOf(overrides);
    out := map[];
    var todo := src.Keys;
    while todo != {}
      invariant todo <= src.Keys
      invariant forall n :: n in out <==>
                n in src && n !in todo && n !in KNOWN && ResolvedAs(coerce, n, Field(src, n)) != Undefined
      invariant forall n :: n in out ==> out[n] == ResolvedAs(coerce, n, Field(src, n))
    {
      var name :| name in todo;
      todo := todo - {name};
      if Retired(name) || name.Inherited? || name in KNOWN {
        continue;
      }
      if !Absent(src[name]) {
        out := out[name := src[name]];
      }
    }
    todo := KNOWN;
    while todo != {}
      invariant todo <= KNOWN
      invariant forall n :: n in out <==>
                (n in src || n in KNOWN) && n !in todo && ResolvedAs(coerce, n, Field(src, n)) != Undefined
      invariant forall n :: n in out ==> out[n] == ResolvedAs(coerce, n, Field(src, n))
    {
      var name :| name in todo;
      todo := todo - {name};
      var v := Effective(coerce, name, NullAsUnset(Field(src, name)));
      if v != Undefined {
        out := out[name := v];
      }
    }
  }

  method NormalizePolicyOverrides(coerce: Coercion, value: Value) returns (r: Result<Record>)
    ensures r == Normalize(coerce, value)
  {
    hide Effective, Stored, KNOWN;
    var record := RecordOf(value);
    var out: Record := map[];
    var todo := record.Keys;
    while todo != {}
      invariant todo <= record.Keys
      invariant forall n :: n in record && n !in todo ==> NormalizeEntry(coerce, n, record[n]).Ok?
      invariant forall n :: n in out <==> n in record && n !in todo && Kept(coerce, n, record[n]) != Undefined
      invariant forall n :: n in out ==> out[n] == Kept(coerce, n, record[n])
    {
      var name :| name in todo;
      var raw := record[name];
      todo := todo - {name};
      if Retired(name) || Absent(raw) {
        continue;
      }
      if name.Inherited? {
        assert NormalizeEntry(coerce, name, record[name]).Thrown?;
        return Thrown;
      }
      if name !in KNOWN {
        out := out[name := raw];
        continue;
      }
      var stored := Stored(coerce, name, raw);
      if stored.Thrown? {
        assert NormalizeEntry(coerce, name, record[name]).Thrown?;
        return Thrown;
      }
      if stored.value == Undefined {
        continue;
      }
      if Effective(coerce, name, stored.value) == Effective(coerce, name, Undefined) {
        continue;
      }
      out := out[name := stored.value];
    }
    assert !Rejects(coerce, record);
    assert out == KeptEntries(coerce, record);
    r := Ok(out);
  }

  /** The keys outside `todo` are patched, the others are as they were. */
  ghost predicate PatchedExcept(from: Record, delta: Record, todo: set<Name>, merged: Record) {
    forall n :: IsPatchedField(from, delta, n in todo, n, merged)
  }

  predicate IsPatchedField(from: Record, delta: Record, pending: bool, n: Name, merged: Record) {
    if pending || n !in delta || delta[n] == Undefined
    then (n in merged <==> n in from) && Field(merged, n) == Field(from, n)
    else if delta[n] == Null then n !in merged
    else n in merged && merged[n] == PatchValue(from, n, delta[n])
  }

  lemma AllPatched(from: Record, delta: Record, merged: Record)
    requires PatchedExcept(from, delta, {}, merged)
    ensures merged == Patched(from, delta)
  {
    hide PatchValue;
    var none: set<Name> := {};
    forall n
      ensures n in merged <==> n in Patched(from, delta)
      ensures n in merged ==> merged[n] == Patched(from, delta)[n]
    {
      assert IsPatchedField(from, delta, n in none, n, merged);
    }
  }

  /** Treating one key leaves the others alone. */
  lemma PatchedOneMore(from: Record, delta: Record, todo: set<Name>, merged: Record, name: Name, merged': Record)
    requires PatchedExcept(from, delta, todo, merged) && IsPatchedField(from, delta, false, name, merged')
    requires forall n :: n != name ==> (n in merged <==> n in merged') && Field(merged, n) == Field(merged', n)
    ensures PatchedExcept(from, delta, todo - {name}, merged')
  {
    hide PatchValue;
    forall n
      ensures IsPatchedField(from, delta, n in todo - {name}, n, merged')
    {
      assert IsPatchedField(from, delta, n in todo, n, merged);
    }
  }

  method PatchRecord(from: Record, delta: Record) returns (merged: Record)
    ensures merged == Patched(from, delta)
  {
    merged := from;
    var todo := delta.Keys;
    while todo != {}
      invariant todo <= delta.Keys
      invariant PatchedExcept(from, delta, todo, merged)
    {
      var name :| name in todo;
      var v := delta[name];
      ghost var before := merged;
      assert IsPatchedField(from, delta, true, name, merged);
      if v == Undefined {
      } else if v == Null {
        merged := merged - {name};
      } else if name == AutoFastForward && v.Obj? {
        merged := merged[name := Obj(RecordOf(Field(merged, name)) + v.fields)];
      } else {
        merged := merged[name := v];
      }
      PatchedOneMore(from, delta, todo, before, name, merged);
      todo := todo - {name};
    }
    AllPatched(from, delta, merged);
  }

  method MergePolicyOverrides(coerce: Coercion, base: Value, patch: Value) returns (r: Result<Record>)
    ensures r == Merge(coerce, base, patch)
  {
    var merged := PatchRecord(RecordOf(base), RecordOf(patch));
    r := NormalizePolicyOverrides(coerce, Obj(merged));
  }

  method MigratePolicyToSparseOverrides(coerce: Coercion, stored: Value) returns (out: Record)
    ensures out == Migrate(coerce, stored)
  {
    hide NormalizeEntry;
    var record := RecordOf(stored);
    if Field(record, SessionCleanupOnNodeRemove) == Str("preserve") {
      record := record - {SessionCleanupOnNodeRemove};
    }
    var whole := NormalizePolicyOverrides(coerce, Obj(record));
    if whole.Ok? {
      out := whole.value;
      assert forall n :: n in record ==> MigrateEntry(coerce, n, record[n]) == Kept(coerce, n, record[n]);
      return;
    }
    out := map[];
    var todo := record.Keys;
    while todo != {}
      invariant todo <= record.Keys
      invariant forall n :: n in out <==> n in record && n !in todo && MigrateEntry(coerce, n, record[n]) != Undefined
      invariant forall n :: n in out ==> out[n] == MigrateEntry(coerce, n, record[n])
    {
      var name :| name in todo;
      var raw := record[name];
      todo := todo - {name};
      if Retired(name) || Absent(raw) {
        DroppedEntry(coerce, name, raw);
        continue;
      }
      var one := NormalizePolicyOverrides(coerce, Obj(map[name := raw]));
      SingleEntry(coerce, name, raw);
      if one.Thrown? {
        out := out[name := raw];
      } else if name in one.value {
        out := out[name := one.value[name]];
      }
    }
  }

  lemma DroppedEntry(coerce: Coercion, name: Name, raw: Value)
    requires Retired(name) || Absent(raw)
    ensures NormalizeEntry(coerce, name, raw) == Ok(Undefined)
  {
  }

  lemma SingleEntry(coerce: Coercion, name: Name, raw: Value)
    ensures Normalize(coerce, Obj(map[name := raw])) ==
            var r := NormalizeEntry(coerce, name, raw);
            if r.Thrown? then Thrown else if r.value == Undefined then Ok(map[]) else Ok(map[name := r.value])
  {
    hide NormalizeEntry;
    var record := map[name := raw];
    var r := NormalizeEntry(coerce, name, raw);
    assert record[name] == raw;
    if r.Ok? {
      assert !Rejects(coerce, record);
      assert KeptEntries(coerce, record) == if r.value == Undefined then map[] else map[name := r.value];
    } else {
      assert Rejects(coerce, record);
    }
  }
}
