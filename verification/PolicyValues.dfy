/**
 * What the resolved policy says, row by row: the values of an empty block, and what a set
 * value comes to. Every statement is about the resolved record and the stored one.
 */
module PolicyValues {
  import opened Basics
  import opened Json
  import opened PolicyTable
  import opened PolicyStore
  import opened PolicyLaws
  import Text

  /** What `Number(v)` gives where the language fixes it; elsewhere it is the engine's. */
  lemma CoercionTable(coerce: Coercion, s: string, n: Json.Number)
    ensures ToNumber(coerce, Undefined) == NaN && ToNumber(coerce, Null) == Fin(0.0)
    ensures ToNumber(coerce, Bool(true)) == Fin(1.0) && ToNumber(coerce, Bool(false)) == Fin(0.0)
    ensures ToNumber(coerce, Num(n)) == n
    ensures ToNumber(coerce, Str(s)) == if Text.Trim(s) == "" then Fin(0.0) else coerce(Str(s))
  {
    hide Text.Trim;
  }

  function Shown(coerce: Coercion, v: Value, name: Name): (r: Value) { Field(Resolve(coerce, v), name) }

  /** The stored value, null counting as unset. */
  function Given(v: Value, name: Name): (r: Value) {
    var raw := Field(RecordOf(v), name);
    if raw == Null then Undefined else raw
  }

  lemma ShownIsEffective(coerce: Coercion, v: Value, name: Name)
    requires name in KNOWN
    ensures Shown(coerce, v, name) == Effective(coerce, name, Given(v, name))
  {
    hide Effective, KNOWN, Resolve;
    FieldOfResolved(coerce, v, name);
  }

  // ----- Switches -----

  /** Four keys are on unless set to false, three are off unless set to true. */
  lemma Switches(coerce: Coercion, v: Value, name: Name)
    ensures name in {RequireApprovalForPush, DelegatedWorkerAutoApprove, IdleActiveMissionReminder,
                     StopDelegatedSessionOnAcceptedCompletion} ==>
              Shown(coerce, v, name) == Bool(Given(v, name) != Bool(false))
    ensures name in {AllowAutoPublishSubmoduleMainCommits, DelegatedWorkerDangerousModeAllow,
                     AllowSendKeysDestructive} ==>
              Shown(coerce, v, name) == Bool(Given(v, name) == Bool(true))
  {
    hide Shown, Given, ResolveMaxParallelTasks, ResolveIdleTtlMinutes, ResolveMaxIdleSessions, Text.Trim,
         NormalizeSchedulingStrategy, ResolveAutoFastForward, ResolveMaxNodes,
         NormalizeQuotaRouting, ResolveQuotaRouting;
    if name in KNOWN {
      ShownIsEffective(coerce, v, name);
    }
  }

  // ----- Numbers -----

  /** `k` is the whole part of `x`, held between `lo` and `hi`. */
  predicate WholeWithin(k: Value, x: real, lo: int, hi: int) {
    k.Num? && k.n.Fin? &&
    var r := k.n.r;
    && r == r.Floor as real && lo as real <= r <= hi as real
    && (x < lo as real ==> r == lo as real)
    && (x >= hi as real ==> r == hi as real)
    && (lo as real <= x < hi as real ==> r <= x < r + 1.0)
  }

  lemma ClampedFloor(lo: int, hi: int, x: real)
    requires lo <= hi
    ensures WholeWithin(PolicyTable.Number(Clamp(lo as real, hi as real, Floor(x))), x, lo, hi)
  {
    var f := x.Floor;
    assert f as real <= x < (f + 1) as real;
    var k := if f > hi then hi else if f < lo then lo else f;
    assert Clamp(lo as real, hi as real, f as real) == k as real;
    WholeNumber(k);
    hide Clamp;
    if f < lo {
      assert (f + 1) as real <= lo as real;
    } else if f >= hi {
      assert f as real >= hi as real;
    }
  }

  lemma WholeNumber(k: int)
    ensures (k as real).Floor == k
  {
  }

  /** Between 1 and 64, and 64 if unset or not a number. */
  lemma ParallelTasks(coerce: Coercion, v: Value)
    ensures var given := Given(v, MaxParallelTasks); var n := ToNumber(coerce, given);
            if given == Undefined || !n.Fin? then Shown(coerce, v, MaxParallelTasks) == Num(Fin(64.0))
            else WholeWithin(Shown(coerce, v, MaxParallelTasks), n.r, 1, 64)
  {
    hide Shown, Given, ToNumber;
    ShownIsEffective(coerce, v, MaxParallelTasks);
    GivenIsNotNull(v, MaxParallelTasks);
    var n := ToNumber(coerce, Given(v, MaxParallelTasks));
    if n.Fin? {
      ClampedFloor(1, 64, n.r);
    }
    assert Floor(200.0) == 200.0;
    hide Floor, WholeWithin;
  }

  lemma GivenIsNotNull(v: Value, name: Name)
    ensures Given(v, name) != Null
  {
  }

  /** A number, or a string that is one: between 1 and 64. Anything else: 32. */
  lemma Nodes(coerce: Coercion, v: Value)
    ensures var given := Given(v, MaxNodes);
            var n := if given.Num? then given.n
                     else if given.Str? && Text.Trim(given.s) != "" then coerce(given) else NaN;
            if !n.Fin? then Shown(coerce, v, MaxNodes) == Num(Fin(32.0))
            else WholeWithin(Shown(coerce, v, MaxNodes), n.r, 1, 64)
  {
    hide Shown, Given, Text.Trim;
    ShownIsEffective(coerce, v, MaxNodes);
    var given := Given(v, MaxNodes);
    var n := if given.Num? then given.n else if given.Str? && Text.Trim(given.s) != "" then coerce(given) else NaN;
    if n.Fin? {
      ClampedFloor(1, 64, n.r);
    }
    assert Floor(32.0) == 32.0;
    hide Floor, WholeWithin;
  }

  /** Minutes between 5 and 10080, 0 if disabled, 30 if unset or not a number. */
  lemma IdleTtl(coerce: Coercion, v: Value)
    ensures var given := Given(v, DelegatedSessionIdleTtlMinutes); var n := ToNumber(coerce, given);
            var shown := Shown(coerce, v, DelegatedSessionIdleTtlMinutes);
            if given == Bool(false) then shown == Num(Fin(0.0))
            else if given == Undefined || !n.Fin? then shown == Num(Fin(30.0))
            else if n.r <= 0.0 then shown == Num(Fin(0.0))
            else WholeWithin(shown, n.r, 5, 10080)
  {
    hide Shown, Given;
    ShownIsEffective(coerce, v, DelegatedSessionIdleTtlMinutes);
    GivenIsNotNull(v, DelegatedSessionIdleTtlMinutes);
    var n := ToNumber(coerce, Given(v, DelegatedSessionIdleTtlMinutes));
    if n.Fin? {
      ClampedFloor(5, 10080, n.r);
    }
    hide Floor, WholeWithin, Clamp;
  }

  /** A finite number between 0 and 100, else 2; and any finite number of retries, else 1. */
  lemma IdleSessionsAndRetries(coerce: Coercion, v: Value)
    ensures var given := Given(v, MaxIdleDelegatedSessionsPerMachine);
            var shown := Shown(coerce, v, MaxIdleDelegatedSessionsPerMachine);
            if given.Num? && given.n.Fin? then WholeWithin(shown, given.n.r, 0, 100) else shown == Num(Fin(2.0))
    ensures var given := Given(v, MaxTaskRetries);
            Shown(coerce, v, MaxTaskRetries) == if given.Num? && given.n.Fin? then given else Num(Fin(1.0))
  {
    hide Shown, Given;
    ShownIsEffective(coerce, v, MaxIdleDelegatedSessionsPerMachine);
    ShownIsEffective(coerce, v, MaxTaskRetries);
    var given := Given(v, MaxIdleDelegatedSessionsPerMachine);
    if given.Num? && given.n.Fin? {
      ClampedFloor(0, 100, given.n.r);
    }
    hide Floor, WholeWithin, Clamp;
  }

  // ----- Choices -----

  lemma Strategy(coerce: Coercion, v: Value)
    ensures var given := Given(v, SchedulingStrategy); var shown := Shown(coerce, v, SchedulingStrategy);
            var name := if given.Str? then Text.Trim(given.s) else "";
            shown == if name == "fitness" || name == "least_loaded" || name == "round_robin" then Str("fitness")
                     else if name == "priority_only" then Str("priority_only") else Str("first_eligible")
  {
    hide Shown, Given, Text.Trim;
    ShownIsEffective(coerce, v, SchedulingStrategy);
    assert |"fitness"| == 7 && |"first_eligible"| == 14 && |"priority_only"| == 13;
    assert |"least_loaded"| == 12 && |"round_robin"| == 11;
  }

  lemma Choices(coerce: Coercion, v: Value)
    ensures Shown(coerce, v, SpawnedSessionVisibility) ==
              if Given(v, SpawnedSessionVisibility) == Str("visible") then Str("visible") else Str("hidden")
    ensures Shown(coerce, v, CoordinatorIdlePushPolicy) ==
              if Given(v, CoordinatorIdlePushPolicy) == Str("auto_silent_on_dispatch")
              then Str("auto_silent_on_dispatch") else Str("always")
    ensures Shown(coerce, v, OnDependencyFailure) ==
              if Given(v, OnDependencyFailure) == Str("cancel") then Str("cancel") else Str("block")
  {
    hide Shown, Given;
    ShownIsEffective(coerce, v, SpawnedSessionVisibility);
    ShownIsEffective(coerce, v, CoordinatorIdlePushPolicy);
    ShownIsEffective(coerce, v, OnDependencyFailure);
  }

  /** Two keys have no default and are not shown unless they are set to something legal. */
  lemma WithoutDefault(coerce: Coercion, v: Value)
    ensures var given := Given(v, SessionCleanupOnNodeRemove);
            Shown(coerce, v, SessionCleanupOnNodeRemove) ==
              if given == Str("preserve") || given == Str("stop") || given == Str("delete_stopped")
                 || given == Str("stop_and_delete") then given else Undefined
    ensures var given := Given(v, WorktreeBaseDir);
            Shown(coerce, v, WorktreeBaseDir) ==
              if given.Str? && Text.Trim(given.s) != "" then Str(Text.Trim(given.s)) else Undefined
  {
    hide Shown, Given, Text.Trim;
    ShownIsEffective(coerce, v, SessionCleanupOnNodeRemove);
    ShownIsEffective(coerce, v, WorktreeBaseDir);
  }

  // ----- Sub-objects -----

  /** `k` is the whole part of `x`. */
  predicate WholePart(k: Value, x: real) {
    k.Num? && k.n.Fin? && k.n.r == k.n.r.Floor as real && k.n.r <= x < k.n.r + 1.0
  }

  /** The fast-forward object: five sub-keys, each from the sub-key that was set. */
  lemma FastForward(coerce: Coercion, v: Value, sub: Name)
    ensures Shown(coerce, v, AutoFastForward).Obj?
    ensures var given := Field(RecordOf(Given(v, AutoFastForward)), sub); var n := ToNumber(coerce, given);
            var shown := Field(Shown(coerce, v, AutoFastForward).fields, sub);
            if sub == Enabled || sub == RequireCleanSubmodules then shown == Bool(given != Bool(false))
            else if sub == MaxBehind && n.Fin? && n.r >= 0.0 then WholePart(shown, n.r)
            else if sub == RemoteNodes && given == Bool(true) then shown == Bool(true)
            else if sub == Mode && given == Str("continuous") then shown == Str("continuous")
            else shown == Undefined
  {
    hide Shown, Given, ToNumber, ResolveAutoFastForward;
    ShownIsEffective(coerce, v, AutoFastForward);
    FastForwardIsIdempotent(coerce, Given(v, AutoFastForward));
    FastForwardIsPerSubKey(coerce, Given(v, AutoFastForward), sub);
  }

  /** The quota object: four sub-keys, each set or by default. */
  lemma Quota(coerce: Coercion, v: Value, sub: Name)
    ensures Shown(coerce, v, QuotaRouting).Obj?
    ensures var given := Field(RecordOf(Given(v, QuotaRouting)), sub); var n := ToNumber(coerce, given);
            var shown := Field(Shown(coerce, v, QuotaRouting).fields, sub);
            match sub
            case StaleAfterMs => if n.Fin? && n.r >= 0.0 then WholePart(shown, n.r) else shown == Num(Fin(3600000.0))
            case SpreadBonusMax => shown == if n.Fin? && n.r >= 0.0 then Num(n) else Num(Fin(30.0))
            case SessionAxisWeeklyHeadroomPercent =>
              shown == if !n.Fin? then Num(Fin(40.0))
                       else if n.r > 100.0 then Num(Fin(100.0)) else if n.r < 0.0 then Num(Fin(0.0)) else Num(n)
            case QuotaBusyFallback => shown == if given == Bool(false) then Bool(false) else Bool(true)
            case _ => shown == Undefined
  {
    hide Shown, Given, ToNumber, NormalizeQuotaRouting;
    ShownIsEffective(coerce, v, QuotaRouting);
    QuotaResolvesLikeRaw(coerce, Given(v, QuotaRouting));
  }

  // ----- Keys without a row -----

  /** Retired keys and names every object inherits are never shown; any other key is shown as it was set. */
  lemma OtherKeys(coerce: Coercion, v: Value, name: Name)
    requires name !in KNOWN
    ensures Shown(coerce, v, name) ==
              if name in {RequirePreTaskCheckpoint, RequirePostTaskCheckpoint, DirtyWorkspaceBehavior,
                          MagiSessionCleanup}
                 || name.Inherited? then Undefined else Given(v, name)
  {
    hide KNOWN, Effective, Resolve;
    FieldOfResolved(coerce, v, name);
  }

  /** Writing keeps such keys as they are, and drops the retired ones. */
  lemma OtherKeysAreStored(coerce: Coercion, v: Value, name: Name)
    requires name !in KNOWN && Normalize(coerce, v).Ok?
    ensures Field(Normalize(coerce, v).value, name) ==
              if name in {RequirePreTaskCheckpoint, RequirePostTaskCheckpoint, DirtyWorkspaceBehavior,
                          MagiSessionCleanup}
                 || name.Inherited? then Undefined else Given(v, name)
  {
    hide KNOWN, Effective, Stored, KeptEntries;
    RejectsByField(coerce, RecordOf(v));
    FieldOfKept(coerce, RecordOf(v), name);
    assert !NormalizeEntry(coerce, name, Field(RecordOf(v), name)).Thrown?;
  }

  lemma TwentyRows()
    ensures KNOWN == {
              RequireApprovalForPush, AllowAutoPublishSubmoduleMainCommits, MaxParallelTasks, MaxNodes,
              SchedulingStrategy, SpawnedSessionVisibility, DelegatedWorkerAutoApprove,
              DelegatedWorkerDangerousModeAllow, AllowSendKeysDestructive, SessionCleanupOnNodeRemove,
              AutoFastForward, MaxTaskRetries, IdleActiveMissionReminder, MaxIdleDelegatedSessionsPerMachine,
              StopDelegatedSessionOnAcceptedCompletion, DelegatedSessionIdleTtlMinutes, CoordinatorIdlePushPolicy,
              QuotaRouting, OnDependencyFailure, WorktreeBaseDir}
  {
  }

  // ----- The policy of a mesh that sets nothing -----

  const FAST_FORWARD_DEFAULTS: Record := map[Enabled := Bool(true), RequireCleanSubmodules := Bool(true)]

  const QUOTA_DEFAULTS: Record := map[
    StaleAfterMs := Num(Fin(3600000.0)), SpreadBonusMax := Num(Fin(30.0)),
    SessionAxisWeeklyHeadroomPercent := Num(Fin(40.0)), QuotaBusyFallback := Bool(true)]

  const SWITCH_DEFAULTS: Record := map[
    RequireApprovalForPush := Bool(true), AllowAutoPublishSubmoduleMainCommits := Bool(false),
    DelegatedWorkerAutoApprove := Bool(true), DelegatedWorkerDangerousModeAllow := Bool(false),
    AllowSendKeysDestructive := Bool(false), IdleActiveMissionReminder := Bool(true),
    StopDelegatedSessionOnAcceptedCompletion := Bool(true)]

  const VALUE_DEFAULTS: Record := map[
    MaxParallelTasks := Num(Fin(64.0)), MaxNodes := Num(Fin(32.0)), SchedulingStrategy := Str("first_eligible"),
    SpawnedSessionVisibility := Str("hidden"), AutoFastForward := Obj(FAST_FORWARD_DEFAULTS),
    MaxTaskRetries := Num(Fin(1.0)), MaxIdleDelegatedSessionsPerMachine := Num(Fin(2.0)),
    DelegatedSessionIdleTtlMinutes := Num(Fin(30.0)), CoordinatorIdlePushPolicy := Str("always"),
    QuotaRouting := Obj(QUOTA_DEFAULTS), OnDependencyFailure := Str("block")]

  const DEFAULTS: Record := SWITCH_DEFAULTS + VALUE_DEFAULTS

  lemma NothingGiven(coerce: Coercion, v: Value, name: Name, sub: Name)
    requires RecordOf(v) == map[]
    ensures Given(v, name) == Undefined && Field(RecordOf(Given(v, name)), sub) == Undefined
    ensures ToNumber(coerce, Undefined) == NaN
  {
  }

  lemma FastForwardDefault(sub: Name)
    ensures Field(FAST_FORWARD_DEFAULTS, sub) ==
              if sub == Enabled || sub == RequireCleanSubmodules then Bool(true) else Undefined
    ensures sub in FAST_FORWARD_DEFAULTS ==> FAST_FORWARD_DEFAULTS[sub] != Undefined
  {
  }

  lemma DefaultFastForward(coerce: Coercion, v: Value)
    requires RecordOf(v) == map[]
    ensures Shown(coerce, v, AutoFastForward) == Obj(FAST_FORWARD_DEFAULTS)
  {
    hide Shown, Given, ResolveAutoFastForward, ToNumber, FAST_FORWARD_DEFAULTS, FastForwardSubKey, WholePart;
    ShownIsEffective(coerce, v, AutoFastForward);
    FastForward(coerce, v, Enabled);
    var shown := Shown(coerce, v, AutoFastForward);
    assert shown == ResolveAutoFastForward(coerce, Given(v, AutoFastForward));
    hide Effective;
    forall sub
      ensures Field(shown.fields, sub) == Field(FAST_FORWARD_DEFAULTS, sub)
      ensures sub in shown.fields ==> shown.fields[sub] != Undefined
      ensures sub in FAST_FORWARD_DEFAULTS ==> FAST_FORWARD_DEFAULTS[sub] != Undefined
    {
      NothingGiven(coerce, v, AutoFastForward, sub);
      FastForwardDefault(sub);
      FastForward(coerce, v, sub);
      FastForwardIsPerSubKey(coerce, Given(v, AutoFastForward), sub);
    }
    RecordsEqual(shown.fields, FAST_FORWARD_DEFAULTS);
  }

  lemma QuotaDefaults(sub: Name)
    ensures Field(QUOTA_DEFAULTS, sub) ==
              match sub
              case StaleAfterMs => Num(Fin(3600000.0))
              case SpreadBonusMax => Num(Fin(30.0))
              case SessionAxisWeeklyHeadroomPercent => Num(Fin(40.0))
              case QuotaBusyFallback => Bool(true)
              case _ => Undefined
    ensures sub in QUOTA_DEFAULTS ==> QUOTA_DEFAULTS[sub] != Undefined
  {
  }

  lemma DefaultQuota(coerce: Coercion, v: Value)
    requires RecordOf(v) == map[]
    ensures Shown(coerce, v, QuotaRouting) == Obj(QUOTA_DEFAULTS)
  {
    hide Shown, Given, Effective, ToNumber, WholePart, QUOTA_DEFAULTS;
    Quota(coerce, v, StaleAfterMs);
    var shown := Shown(coerce, v, QuotaRouting);
    forall sub
      ensures Field(shown.fields, sub) == Field(QUOTA_DEFAULTS, sub)
      ensures sub in shown.fields ==> shown.fields[sub] != Undefined
      ensures sub in QUOTA_DEFAULTS ==> QUOTA_DEFAULTS[sub] != Undefined
    {
      NothingGiven(coerce, v, QuotaRouting, sub);
      QuotaDefaults(sub);
      Quota(coerce, v, sub);
      QuotaIsSet(coerce, v, sub);
    }
    RecordsEqual(shown.fields, QUOTA_DEFAULTS);
  }

  lemma QuotaIsSet(coerce: Coercion, v: Value, sub: Name)
    requires Shown(coerce, v, QuotaRouting).Obj?
    ensures var shown := Shown(coerce, v, QuotaRouting).fields; sub in shown ==> shown[sub] != Undefined
  {
    hide Shown, Given, NormalizeQuotaRouting;
    ShownIsEffective(coerce, v, QuotaRouting);
    QuotaResolvesLikeRaw(coerce, Given(v, QuotaRouting));
    if sub in QUOTA_KEYS {
      QuotaSubKeyLaws(coerce, sub, Field(RecordOf(Given(v, QuotaRouting)), sub));
    }
    hide QuotaSubKey;
  }

  lemma FieldOfSwitchDefaults(name: Name)
    ensures Field(SWITCH_DEFAULTS, name) ==
              match name
              case RequireApprovalForPush => Bool(true)
              case AllowAutoPublishSubmoduleMainCommits => Bool(false)
              case DelegatedWorkerAutoApprove => Bool(true)
              case DelegatedWorkerDangerousModeAllow => Bool(false)
              case AllowSendKeysDestructive => Bool(false)
              case IdleActiveMissionReminder => Bool(true)
              case StopDelegatedSessionOnAcceptedCompletion => Bool(true)
              case _ => Undefined
    ensures name in SWITCH_DEFAULTS <==> Field(SWITCH_DEFAULTS, name) != Undefined
  {
  }

  lemma FieldOfValueDefaults(name: Name)
    ensures Field(VALUE_DEFAULTS, name) ==
              match name
              case MaxParallelTasks => Num(Fin(64.0))
              case MaxNodes => Num(Fin(32.0))
              case SchedulingStrategy => Str("first_eligible")
              case SpawnedSessionVisibility => Str("hidden")
              case AutoFastForward => Obj(FAST_FORWARD_DEFAULTS)
              case MaxTaskRetries => Num(Fin(1.0))
              case MaxIdleDelegatedSessionsPerMachine => Num(Fin(2.0))
              case DelegatedSessionIdleTtlMinutes => Num(Fin(30.0))
              case CoordinatorIdlePushPolicy => Str("always")
              case QuotaRouting => Obj(QUOTA_DEFAULTS)
              case OnDependencyFailure => Str("block")
              case _ => Undefined
    ensures name in VALUE_DEFAULTS <==> Field(VALUE_DEFAULTS, name) != Undefined
  {
    hide FAST_FORWARD_DEFAULTS, QUOTA_DEFAULTS;
  }

  lemma FieldOfDefaults(name: Name)
    ensures var value := Field(VALUE_DEFAULTS, name);
            Field(DEFAULTS, name) == if value == Undefined then Field(SWITCH_DEFAULTS, name) else value
    ensures name in DEFAULTS ==> DEFAULTS[name] != Undefined
  {
    FieldOfSwitchDefaults(name);
    FieldOfValueDefaults(name);
    hide SWITCH_DEFAULTS, VALUE_DEFAULTS;
  }

  lemma DefaultField(coerce: Coercion, v: Value, name: Name)
    requires RecordOf(v) == map[]
    ensures Shown(coerce, v, name) == Field(DEFAULTS, name)
  {
    hide Shown, Given, ToNumber, KNOWN, WholeWithin, Text.Trim, DEFAULTS, SWITCH_DEFAULTS, VALUE_DEFAULTS,
         FAST_FORWARD_DEFAULTS, QUOTA_DEFAULTS;
    FieldOfDefaults(name);
    FieldOfSwitchDefaults(name);
    FieldOfValueDefaults(name);
    NothingGiven(coerce, v, name, name);
    match name
    case AutoFastForward => DefaultFastForward(coerce, v);
    case QuotaRouting => DefaultQuota(coerce, v);
    case MaxParallelTasks => ParallelTasks(coerce, v);
    case MaxNodes => Nodes(coerce, v);
    case DelegatedSessionIdleTtlMinutes => IdleTtl(coerce, v);
    case MaxIdleDelegatedSessionsPerMachine => IdleSessionsAndRetries(coerce, v);
    case MaxTaskRetries => IdleSessionsAndRetries(coerce, v);
    case SchedulingStrategy => Strategy(coerce, v);
    case SpawnedSessionVisibility => Choices(coerce, v);
    case CoordinatorIdlePushPolicy => Choices(coerce, v);
    case OnDependencyFailure => Choices(coerce, v);
    case SessionCleanupOnNodeRemove => WithoutDefault(coerce, v);
    case WorktreeBaseDir => WithoutDefault(coerce, v);
    case _ =>
      TwentyRows();
      if name in KNOWN {
        Switches(coerce, v, name);
      } else {
        OtherKeys(coerce, v, name);
      }
  }

  /** An empty block, or a value that is no object at all, resolves to exactly these values. */
  lemma DefaultPolicy(coerce: Coercion, v: Value)
    requires RecordOf(v) == map[]
    ensures Resolve(coerce, v) == DEFAULTS
  {
    hide Resolve, DEFAULTS;
    forall name
      ensures Field(Resolve(coerce, v), name) == Field(DEFAULTS, name)
      ensures name in Resolve(coerce, v) ==> Resolve(coerce, v)[name] != Undefined
      ensures name in DEFAULTS ==> DEFAULTS[name] != Undefined
    {
      FieldOfDefaults(name);
      DefaultField(coerce, v, name);
      FieldOfResolved(coerce, v, name);
    }
    RecordsEqual(Resolve(coerce, v), DEFAULTS);
  }

  /** Anything but an object counts as the empty block, arrays included. */
  lemma OnlyObjectsCount(coerce: Coercion, v: Value)
    requires !v.Obj?
    ensures Resolve(coerce, v) == DEFAULTS && Normalize(coerce, v) == Ok(map[])
  {
    hide Resolve;
    DefaultPolicy(coerce, v);
    assert KeptEntries(coerce, map[]) == map[];
  }
}
