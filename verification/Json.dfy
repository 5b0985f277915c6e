/**
 * The JavaScript values a stored mesh policy is made of. Property names are
 * constructors named after the keys the policy code knows; numbers are exact, apart
 * from the three non-finite ones. An object is a finite map, so key order is not kept.
 */
module Json {
  import Text

  datatype Number = NaN | PosInf | NegInf | Fin(r: real)

  datatype Name =
    // the keys with a row in the policy table
    | RequireApprovalForPush | AllowAutoPublishSubmoduleMainCommits | MaxParallelTasks | MaxNodes
    | SchedulingStrategy | SpawnedSessionVisibility | DelegatedWorkerAutoApprove | DelegatedWorkerDangerousModeAllow
    | AllowSendKeysDestructive | SessionCleanupOnNodeRemove | AutoFastForward | MaxTaskRetries
    | IdleActiveMissionReminder | MaxIdleDelegatedSessionsPerMachine | StopDelegatedSessionOnAcceptedCompletion
    | DelegatedSessionIdleTtlMinutes | CoordinatorIdlePushPolicy | QuotaRouting | OnDependencyFailure | WorktreeBaseDir
    // keys that no longer exist
    | RequirePreTaskCheckpoint | RequirePostTaskCheckpoint | DirtyWorkspaceBehavior | MagiSessionCleanup
    // sub-keys of autoFastForward and of quotaRouting
    | Enabled | MaxBehind | RequireCleanSubmodules | RemoteNodes | Mode
    | StaleAfterMs | SpreadBonusMax | SessionAxisWeeklyHeadroomPercent | QuotaBusyFallback
    // a name every object inherits from Object.prototype (`toString`, `constructor`, ...), other than `__proto__`
    | Inherited(text: string)
    | Other(text: string)

  datatype Value =
    | Undefined
    | Null
    | Bool(b: bool)
    | Num(n: Number)
    | Str(s: string)
    | Arr(items: seq<Value>)
    | Obj(fields: map<Name, Value>)

  type Record = map<Name, Value>

  /** What `Number(v)` returns for non-blank strings, arrays and objects; nothing is assumed of it. */
  type Coercion = Value -> Number

  function ToNumber(coerce: Coercion, v: Value): (n: Number) {
    match v
    case Undefined => NaN
    case Null => Fin(0.0)
    case Bool(b) => Fin(if b then 1.0 else 0.0)
    case Num(n) => n
    case Str(s) => if Text.Trim(s) == "" then Fin(0.0) else coerce(v)
    case _ => coerce(v)
  }

  function Floor(x: real): (r: real) { x.Floor as real }

  /** Reading a property: a missing one is undefined. */
  function Field(record: Record, name: Name): (v: Value) {
    if name in record then record[name] else Undefined
  }

  /** A plain object's fields; anything else counts as the empty object. */
  function RecordOf(v: Value): (record: Record) {
    if v.Obj? then v.fields else map[]
  }

  predicate Absent(v: Value) { v == Undefined || v == Null }

  /** Two records without undefined fields are equal as soon as every property reads the same. */
  lemma RecordsEqual(a: Record, b: Record)
    requires forall n :: n in a ==> a[n] != Undefined
    requires forall n :: n in b ==> b[n] != Undefined
    requires forall n :: Field(a, n) == Field(b, n)
    ensures a == b
  {
    forall n
      ensures n in a <==> n in b
    {
      assert Field(a, n) == Field(b, n);
    }
    forall n | n in a
      ensures a[n] == b[n]
    {
      assert Field(a, n) == Field(b, n);
    }
  }
}
