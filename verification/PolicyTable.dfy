/** The rows of the mesh policy table, each with the value a key takes effect with and the form it is written in. */
module PolicyTable {
  import opened Basics
  import opened Json
  import Text

  const KNOWN: set<Name> := {
    RequireApprovalForPush, AllowAutoPublishSubmoduleMainCommits, MaxParallelTasks, MaxNodes,
    SchedulingStrategy, SpawnedSessionVisibility, DelegatedWorkerAutoApprove, DelegatedWorkerDangerousModeAllow,
    AllowSendKeysDestructive, SessionCleanupOnNodeRemove, AutoFastForward, MaxTaskRetries,
    IdleActiveMissionReminder, MaxIdleDelegatedSessionsPerMachine, StopDelegatedSessionOnAcceptedCompletion,
    DelegatedSessionIdleTtlMinutes, CoordinatorIdlePushPolicy, QuotaRouting, OnDependencyFailure, WorktreeBaseDir
  }

  predicate Retired(name: Name) {
    name in {RequirePreTaskCheckpoint, RequirePostTaskCheckpoint, DirtyWorkspaceBehavior, MagiSessionCleanup}
  }

  function Number(x: real): (v: Value) { Num(Fin(x)) }

  function Clamp(lo: real, hi: real, x: real): (r: real) {
    if x > hi then hi else if x < lo then lo else x
  }

  /** `typeof v === 'boolean' ? v : fallback` */
  function BoolOr(v: Value, fallback: bool): (r: Value) {
    if v.Bool? then v else Bool(fallback)
  }

  function FiniteOr(n: Json.Number, fallback: real): (r: real) {
    if n.Fin? then n.r else fallback
  }

  function ResolveMaxParallelTasks(coerce: Coercion, v: Value): (r: Value) {
    var raw := if Absent(v) then Fin(200.0) else ToNumber(coerce, v);
    Number(Clamp(1.0, 64.0, Floor(FiniteOr(raw, 200.0))))
  }

  function ResolveMaxNodes(coerce: Coercion, v: Value): (r: Value) {
    var raw := if v.Num? then v.n else if v.Str? && Text.Trim(v.s) != "" then ToNumber(coerce, v) else NaN;
    Number(Clamp(1.0, 64.0, Floor(FiniteOr(raw, 32.0))))
  }

  function StoreMaxNodes(coerce: Coercion, v: Value): (r: Result<Value>) {
    var n := if v.Num? || v.Str? then ToNumber(coerce, v) else NaN;
    if n.Fin? && Floor(n.r) == n.r && 1.0 <= n.r <= 64.0 then Ok(Num(n)) else Thrown
  }

  function NormalizeSchedulingStrategy(v: Value): (r: Value) {
    if !v.Str? then Str("first_eligible")
    else
      var trimmed := Text.Trim(v.s);
      if trimmed == "least_loaded" || trimmed == "round_robin" then Str("fitness")
      else if trimmed in ["first_eligible", "least_loaded", "round_robin", "priority_only", "fitness"] then Str(trimmed)
      else Str("first_eligible")
  }

  function ResolveIdleTtlMinutes(coerce: Coercion, v: Value): (r: Value) {
    if v == Bool(false) || v == Number(0.0) then Number(0.0)
    else if Absent(v) then Number(30.0)
    else
      var n := ToNumber(coerce, v);
      if !n.Fin? then Number(30.0)
      else if n.r <= 0.0 then Number(0.0)
      else Number(Clamp(5.0, 10080.0, Floor(n.r)))
  }

  function ResolveMaxIdleSessions(v: Value): (r: Value) {
    if v.Num? && v.n.Fin? then Number(Clamp(0.0, 100.0, Floor(v.n.r))) else Number(2.0)
  }

  // ----- autoFastForward -----

  const FAST_FORWARD_KEYS: set<Name> := {Enabled, MaxBehind, RequireCleanSubmodules, RemoteNodes, Mode}

  /** The value emitted for one sub-key; an undefined one is not emitted. */
  function FastForwardSubKey(coerce: Coercion, name: Name, raw: Value): (v: Value) {
    match name
    case Enabled => Bool(raw != Bool(false))
    case RequireCleanSubmodules => Bool(raw != Bool(false))
    case MaxBehind =>
      var n := ToNumber(coerce, raw);
      if n.Fin? && n.r >= 0.0 then Number(Floor(n.r)) else Undefined
    case RemoteNodes => if raw == Bool(true) then raw else Undefined
    case Mode => if raw == Str("continuous") then raw else Undefined
    case _ => Undefined
  }

  function NormalizeAutoFastForward(coerce: Coercion, record: Record): (r: Record) {
    map name | name in FAST_FORWARD_KEYS && FastForwardSubKey(coerce, name, Field(record, name)) != Undefined
             :: FastForwardSubKey(coerce, name, Field(record, name))
  }

  /** The default `{ enabled: true }`, overlaid with the stored object. */
  function ResolveAutoFastForward(coerce: Coercion, v: Value): (r: Value) {
    Obj(NormalizeAutoFastForward(coerce, map[Enabled := Bool(true)] + RecordOf(v)))
  }

  /** The overlaid default changes no sub-key's emitted value, and only the five sub-keys are emitted. */
  lemma FastForwardDefaultIsNeutral(coerce: Coercion, record: Record, name: Name)
    ensures FastForwardSubKey(coerce, name, Field(map[Enabled := Bool(true)] + record, name))
            == FastForwardSubKey(coerce, name, Field(record, name))
    ensures name !in FAST_FORWARD_KEYS ==> FastForwardSubKey(coerce, name, Field(record, name)) == Undefined
  {
    hide ToNumber, Floor;
  }

  lemma FastForwardIsPerSubKey(coerce: Coercion, v: Value, name: Name)
    ensures Field(ResolveAutoFastForward(coerce, v).fields, name)
            == FastForwardSubKey(coerce, name, Field(RecordOf(v), name))
    ensures name in ResolveAutoFastForward(coerce, v).fields ==>
            ResolveAutoFastForward(coerce, v).fields[name] != Undefined
  {
    FastForwardDefaultIsNeutral(coerce, RecordOf(v), name);
    hide FastForwardSubKey, FAST_FORWARD_KEYS;
  }

  // ----- quotaRouting -----

  const QUOTA_KEYS: set<Name> := {StaleAfterMs, SpreadBonusMax, SessionAxisWeeklyHeadroomPercent, QuotaBusyFallback}

  function QuotaDefault(name: Name): (v: Value) {
    match name
    case StaleAfterMs => Number(3600000.0)
    case SpreadBonusMax => Number(30.0)
    case SessionAxisWeeklyHeadroomPercent => Number(40.0)
    case QuotaBusyFallback => Bool(true)
    case _ => Undefined
  }

  function QuotaSubKey(coerce: Coercion, name: Name, raw: Value): (v: Value) {
    var n := ToNumber(coerce, raw);
    match name
    case StaleAfterMs => if n.Fin? && n.r >= 0.0 then Number(Floor(n.r)) else QuotaDefault(name)
    case SpreadBonusMax => if n.Fin? && n.r >= 0.0 then Num(n) else QuotaDefault(name)
    case SessionAxisWeeklyHeadroomPercent => if n.Fin? then Number(Clamp(0.0, 100.0, n.r)) else QuotaDefault(name)
    case QuotaBusyFallback => if raw.Bool? then raw else QuotaDefault(name)
    case _ => Undefined
  }

  function ResolveQuotaRouting(coerce: Coercion, record: Record): (r: Record) {
    map name | name in QUOTA_KEYS :: QuotaSubKey(coerce, name, Field(record, name))
  }

  /** Keeps a field only if it is set and resolves to something other than its default. */
  function NormalizeQuotaRouting(coerce: Coercion, v: Value): (r: Value) {
    if !v.Obj? then Undefined
    else
      var resolved := ResolveQuotaRouting(coerce, v.fields);
      var out := map name | name in QUOTA_KEYS && Field(v.fields, name) != Undefined
                            && resolved[name] != QuotaDefault(name)
                          :: resolved[name];
      if out == map[] then Undefined else Obj(out)
  }

  lemma QuotaSubKeyLaws(coerce: Coercion, name: Name, raw: Value)
    requires name in QUOTA_KEYS
    ensures QuotaSubKey(coerce, name, Undefined) == QuotaDefault(name)
    ensures var v := QuotaSubKey(coerce, name, raw); v != Undefined && QuotaSubKey(coerce, name, v) == v
  {
    hide Text.Trim;
    NumbersAreTheirOwn(coerce, ToNumber(coerce, raw));
    if ToNumber(coerce, raw).Fin? {
      FloorIsIdempotent(ToNumber(coerce, raw).r);
      NumbersAreTheirOwn(coerce, Fin(Floor(ToNumber(coerce, raw).r)));
    }
    hide ToNumber;
  }

  lemma NumbersAreTheirOwn(coerce: Coercion, n: Json.Number)
    ensures ToNumber(coerce, Num(n)) == n && ToNumber(coerce, Undefined) == NaN
  {
    hide Text.Trim;
  }

  /** The stored quota object holds exactly the sub-keys that do not resolve to their default. */
  lemma NormalizedQuotaField(coerce: Coercion, v: Value, name: Name)
    ensures Field(RecordOf(NormalizeQuotaRouting(coerce, v)), name) ==
            var sub := QuotaSubKey(coerce, name, Field(RecordOf(v), name));
            if name in QUOTA_KEYS && sub != QuotaDefault(name) then sub else Undefined
    ensures var out := RecordOf(NormalizeQuotaRouting(coerce, v)); name in out ==> out[name] != Undefined
    ensures NormalizeQuotaRouting(coerce, v) == Undefined || NormalizeQuotaRouting(coerce, v).Obj?
    ensures RecordOf(NormalizeQuotaRouting(coerce, v)) == map[] <==> NormalizeQuotaRouting(coerce, v) == Undefined
  {
    if name in QUOTA_KEYS {
      QuotaSubKeyLaws(coerce, name, Field(RecordOf(v), name));
    }
    hide QuotaSubKey;
  }

  /** Normalizing before resolving is not observable. */
  lemma QuotaResolvesLikeRaw(coerce: Coercion, v: Value)
    ensures ResolveQuotaRouting(coerce, RecordOf(NormalizeQuotaRouting(coerce, v)))
            == ResolveQuotaRouting(coerce, RecordOf(v))
  {
    hide NormalizeQuotaRouting, ToNumber, Floor, Clamp;
    forall name | name in QUOTA_KEYS
      ensures QuotaSubKey(coerce, name, Field(RecordOf(NormalizeQuotaRouting(coerce, v)), name))
              == QuotaSubKey(coerce, name, Field(RecordOf(v), name))
    {
      NormalizedQuotaField(coerce, v, name);
      QuotaSubKeyLaws(coerce, name, Field(RecordOf(v), name));
    }
    hide QuotaSubKey, NormalizeQuotaRouting;
  }

  /** The stored quota object is determined by what it resolves to. */
  lemma QuotaStoredFromResolved(coerce: Coercion, v: Value, v': Value)
    requires ResolveQuotaRouting(coerce, RecordOf(v)) == ResolveQuotaRouting(coerce, RecordOf(v'))
    ensures NormalizeQuotaRouting(coerce, v) == NormalizeQuotaRouting(coerce, v')
  {
    var out, out' := RecordOf(NormalizeQuotaRouting(coerce, v)), RecordOf(NormalizeQuotaRouting(coerce, v'));
    forall name
      ensures Field(out, name) == Field(out', name)
      ensures name in out ==> out[name] != Undefined
      ensures name in out' ==> out'[name] != Undefined
    {
      NormalizedQuotaField(coerce, v, name);
      NormalizedQuotaField(coerce, v', name);
      if name in QUOTA_KEYS {
        assert ResolveQuotaRouting(coerce, RecordOf(v))[name] == ResolveQuotaRouting(coerce, RecordOf(v'))[name];
      }
      hide QuotaSubKey, NormalizeQuotaRouting;
    }
    NormalizedQuotaField(coerce, v, Enabled);
    NormalizedQuotaField(coerce, v', Enabled);
    hide QuotaSubKey, NormalizeQuotaRouting;
    RecordsEqual(out, out');
  }

  // ----- The table -----

  /** `effective`: what a raw stored value means; undefined stands for an unset key. */
  function Effective(coerce: Coercion, name: Name, v: Value): (r: Value) {
    match name
    case RequireApprovalForPush => BoolOr(v, true)
    case AllowAutoPublishSubmoduleMainCommits => Bool(v == Bool(true))
    case MaxParallelTasks => ResolveMaxParallelTasks(coerce, v)
    case MaxNodes => ResolveMaxNodes(coerce, v)
    case SchedulingStrategy => NormalizeSchedulingStrategy(v)
    case SpawnedSessionVisibility => if v == Str("visible") || v == Str("hidden") then v else Str("hidden")
    case DelegatedWorkerAutoApprove => BoolOr(v, true)
    case DelegatedWorkerDangerousModeAllow => Bool(v == Bool(true))
    case AllowSendKeysDestructive => Bool(v == Bool(true))
    case SessionCleanupOnNodeRemove =>
      if v.Str? && v.s in ["preserve", "stop", "delete_stopped", "stop_and_delete"] then v else Undefined
    case AutoFastForward => ResolveAutoFastForward(coerce, v)
    case MaxTaskRetries => if v.Num? && v.n.Fin? then v else Number(1.0)
    case IdleActiveMissionReminder => Bool(v != Bool(false))
    case MaxIdleDelegatedSessionsPerMachine => ResolveMaxIdleSessions(v)
    case StopDelegatedSessionOnAcceptedCompletion => Bool(v != Bool(false))
    case DelegatedSessionIdleTtlMinutes => ResolveIdleTtlMinutes(coerce, v)
    case CoordinatorIdlePushPolicy => if v == Str("auto_silent_on_dispatch") then v else Str("always")
    case QuotaRouting => Obj(ResolveQuotaRouting(coerce, RecordOf(NormalizeQuotaRouting(coerce, v))))
    case OnDependencyFailure => if v == Str("cancel") then v else Str("block")
    case WorktreeBaseDir => if v.Str? && Text.Trim(v.s) != "" then Str(Text.Trim(v.s)) else Undefined
    case _ => v
  }

  /** `stored ?? effective`: the form a raw value is written in, or the rejection of the write. */
  function Stored(coerce: Coercion, name: Name, v: Value): (r: Result<Value>) {
    match name
    case MaxNodes => StoreMaxNodes(coerce, v)
    case QuotaRouting => Ok(NormalizeQuotaRouting(coerce, v))
    case OnDependencyFailure => if v == Str("block") || v == Str("cancel") then Ok(v) else Thrown
    case _ => Ok(Effective(coerce, name, v))
  }

  // ----- Storing keeps the meaning, and stored forms are fixed points -----

  lemma FloorIsIdempotent(x: real)
    ensures Floor(Floor(x)) == Floor(x)
  {
  }

  lemma SubKeyIsIdempotent(coerce: Coercion, name: Name, raw: Value)
    ensures var v := FastForwardSubKey(coerce, name, raw); FastForwardSubKey(coerce, name, v) == v
  {
    if name == MaxBehind && ToNumber(coerce, raw).Fin? {
      FloorIsIdempotent(ToNumber(coerce, raw).r);
    }
  }

  lemma FastForwardIsIdempotent(coerce: Coercion, v: Value)
    ensures var r := ResolveAutoFastForward(coerce, v); r.Obj? && ResolveAutoFastForward(coerce, r) == r
  {
    var r := ResolveAutoFastForward(coerce, v);
    var r' := ResolveAutoFastForward(coerce, r);
    forall name
      ensures Field(r'.fields, name) == Field(r.fields, name)
      ensures name in r.fields ==> r.fields[name] != Undefined
      ensures name in r'.fields ==> r'.fields[name] != Undefined
    {
      FastForwardIsPerSubKey(coerce, v, name);
      FastForwardIsPerSubKey(coerce, r, name);
      SubKeyIsIdempotent(coerce, name, Field(RecordOf(v), name));
    }
    hide ResolveAutoFastForward;
    RecordsEqual(r'.fields, r.fields);
  }

  lemma MaxNodesLaw(coerce: Coercion, raw: Value)
    ensures var r := StoreMaxNodes(coerce, raw);
            r.Ok? ==> r.value.Num? && r.value == ResolveMaxNodes(coerce, raw)
                      && ResolveMaxNodes(coerce, r.value) == r.value && StoreMaxNodes(coerce, r.value) == r
  {
    hide Text.Trim;
    var n := ToNumber(coerce, raw);
    NumbersAreTheirOwn(coerce, n);
  }

  lemma CanonicalStrategies()
    ensures NormalizeSchedulingStrategy(Str("fitness")) == Str("fitness")
    ensures NormalizeSchedulingStrategy(Str("first_eligible")) == Str("first_eligible")
    ensures NormalizeSchedulingStrategy(Str("priority_only")) == Str("priority_only")
  {
    assert Text.Trimmed("fitness") && Text.Trimmed("first_eligible") && Text.Trimmed("priority_only");
    assert |"fitness"| == 7 && |"first_eligible"| == 14 && |"priority_only"| == 13;
    assert |"least_loaded"| == 12 && |"round_robin"| == 11;
    hide Text.Trim;
  }

  lemma StrategyRange(v: Value)
    ensures NormalizeSchedulingStrategy(v) in {Str("fitness"), Str("first_eligible"), Str("priority_only")}
  {
    hide Text.Trim;
  }

  lemma SchedulingStrategyLaw(v: Value)
    ensures var r := NormalizeSchedulingStrategy(v); r.Str? && NormalizeSchedulingStrategy(r) == r
  {
    hide NormalizeSchedulingStrategy;
    StrategyRange(v);
    CanonicalStrategies();
  }

  /** Clamping a whole number between whole bounds is a fixed point of doing it again. */
  lemma ClampedFloorIsStable(lo: int, hi: int, x: real)
    requires lo <= hi
    ensures var y := Clamp(lo as real, hi as real, Floor(x)); Floor(y) == y && Clamp(lo as real, hi as real, y) == y
  {
  }

  lemma MaxParallelTasksLaw(coerce: Coercion, v: Value)
    ensures var r := ResolveMaxParallelTasks(coerce, v); r.Num? && ResolveMaxParallelTasks(coerce, r) == r
  {
    var raw := if Absent(v) then Fin(200.0) else ToNumber(coerce, v);
    ClampedFloorIsStable(1, 64, FiniteOr(raw, 200.0));
    hide Clamp, Floor;
  }

  lemma IdleTtlLaw(coerce: Coercion, v: Value)
    ensures var r := ResolveIdleTtlMinutes(coerce, v); r.Num? && ResolveIdleTtlMinutes(coerce, r) == r
  {
    hide Text.Trim;
    if !Absent(v) && ToNumber(coerce, v).Fin? {
      ClampedFloorIsStable(5, 10080, ToNumber(coerce, v).r);
    }
  }

  lemma MaxIdleSessionsLaw(v: Value)
    ensures var r := ResolveMaxIdleSessions(v); r.Num? && ResolveMaxIdleSessions(r) == r
  {
    if v.Num? && v.n.Fin? {
      ClampedFloorIsStable(0, 100, v.n.r);
      hide Clamp, Floor;
    }
  }

  /**
   * The law of each row. Storing a value keeps its meaning; the stored form is a fixed
   * point of storing; and a form that is not written at all means what an unset key means.
   */
  lemma StoringKeepsTheMeaning(coerce: Coercion, name: Name, raw: Value)
    requires name in KNOWN && Stored(coerce, name, raw).Ok?
    ensures var w := Stored(coerce, name, raw).value;
            if w == Undefined then Effective(coerce, name, raw) == Effective(coerce, name, Undefined)
            else w != Null && Effective(coerce, name, w) == Effective(coerce, name, raw)
                 && Stored(coerce, name, w) == Ok(w)
  {
    if name == QuotaRouting {
      var w := NormalizeQuotaRouting(coerce, raw);
      QuotaResolvesLikeRaw(coerce, raw);
      QuotaResolvesLikeRaw(coerce, w);
      NormalizedQuotaField(coerce, raw, Enabled);
      QuotaStoredFromResolved(coerce, w, raw);
      hide NormalizeQuotaRouting, ResolveQuotaRouting;
    } else {
      SimpleRowLaw(coerce, name, raw);
      hide Effective;
    }
  }

  lemma SimpleRowLaw(coerce: Coercion, name: Name, raw: Value)
    requires name in KNOWN && name != QuotaRouting && Stored(coerce, name, raw).Ok?
    ensures var w := Stored(coerce, name, raw).value;
            && w == Effective(coerce, name, raw) && w != Null
            && Effective(coerce, name, w) == w && (w != Undefined ==> Stored(coerce, name, w) == Ok(w))
            && (w == Undefined ==> Effective(coerce, name, Undefined) == Undefined)
  {
    hide ResolveMaxParallelTasks, ResolveIdleTtlMinutes, ResolveMaxIdleSessions, NormalizeSchedulingStrategy,
         ResolveAutoFastForward, ResolveMaxNodes, StoreMaxNodes, Text.Trim;
    match name
    case MaxParallelTasks => MaxParallelTasksLaw(coerce, raw);
    case DelegatedSessionIdleTtlMinutes => IdleTtlLaw(coerce, raw);
    case MaxIdleDelegatedSessionsPerMachine => MaxIdleSessionsLaw(raw);
    case SchedulingStrategy => SchedulingStrategyLaw(raw);
    case AutoFastForward => FastForwardIsIdempotent(coerce, raw);
    case MaxNodes => MaxNodesLaw(coerce, raw);
    case _ =>
  }

  /** The stored form is determined by the meaning: it carries nothing else. */
  lemma StoredFormFromMeaning(coerce: Coercion, name: Name, raw: Value, raw': Value)
    requires name in KNOWN && Stored(coerce, name, raw).Ok? && Stored(coerce, name, raw').Ok?
    requires Effective(coerce, name, raw) == Effective(coerce, name, raw')
    ensures Stored(coerce, name, raw) == Stored(coerce, name, raw')
  {
    hide ResolveMaxParallelTasks, ResolveIdleTtlMinutes, ResolveMaxIdleSessions, NormalizeSchedulingStrategy,
         ResolveAutoFastForward, ResolveMaxNodes, StoreMaxNodes, NormalizeQuotaRouting, ResolveQuotaRouting, Text.Trim;
    if name == QuotaRouting {
      QuotaResolvesLikeRaw(coerce, raw);
      QuotaResolvesLikeRaw(coerce, raw');
      QuotaStoredFromResolved(coerce, raw, raw');
    } else {
      SimpleRowLaw(coerce, name, raw);
      SimpleRowLaw(coerce, name, raw');
      hide Effective, Stored;
    }
  }
}
