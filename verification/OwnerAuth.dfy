/**
 * Owner authority of the standalone daemon: an epoch, an optional token, an optional
 * password and a session store, and guards that a request captures and that are
 * evaluated again before every later use. Each synchronous block of a handler is one
 * step. The clock, fresh session ids, salts, the key-derivation function and the
 * password file are inputs.
 */
module OwnerAuth {
  import opened Basics
  import Text

  datatype Password = Password(hash: string, salt: string)

  /** No token is the empty string, as the source only ever tests the token for truth. */
  datatype Auth = Auth(epoch: nat, token: string, password: Option<Password>, sessions: map<string, int>, now: int)

  type KeyDerivation = (string, string) -> string
  type WorkerCheck = string -> bool

  /** What a request carries. An absent session cookie is the empty string. */
  datatype Request = Request(
    bearer: Option<string>, query: Option<string>, session: string,
    internalHeader: Option<string>, workerHeader: Option<string>,
    loopback: bool, originAllowed: bool, origin: string)

  datatype Scope = Coordinator | Worker

  const SESSION_TTL_MS := 1000 * 60 * 60 * 24 * 30

  predicate HasAnyAuth(s: Auth) { s.token != "" || s.password.Some? }

  predicate HasMcpHeader(req: Request) { req.internalHeader.Some? || req.workerHeader.Some? }

  /** The scope a loopback MCP credential grants, if any. */
  function InternalScope(req: Request, internalToken: string, worker: WorkerCheck): (scope: Option<Scope>) {
    if !req.loopback || (req.internalHeader.Some? && req.workerHeader.Some?) then None
    else if req.internalHeader.Some? then
      var presented := Text.Trim(req.internalHeader.value);
      if presented != "" && internalToken != "" && presented == internalToken then Some(Coordinator) else None
    else if req.workerHeader.Some? then
      var presented := Text.Trim(req.workerHeader.value);
      if presented != "" && worker(presented) then Some(Worker) else None
    else None
  }

  /** `StandaloneSessionStore.has`, as a value; the lookup also drops an expired entry. */
  predicate SessionLive(s: Auth, id: string) {
    id != "" && id in s.sessions && s.sessions[id] != 0 && s.sessions[id] > s.now
  }

  function AfterLookup(s: Auth, id: string): (r: Auth) {
    if id != "" && id in s.sessions && s.sessions[id] != 0 && s.sessions[id] <= s.now
    then s.(sessions := s.sessions - {id}) else s
  }

  predicate CarriesToken(req: Request, token: string) {
    req.bearer == Some(token) || req.query == Some(token)
  }

  predicate RequestAuthenticated(s: Auth, req: Request) {
    || !HasAnyAuth(s)
    || (s.token != "" && CarriesToken(req, s.token))
    || (s.password.Some? && SessionLive(s, req.session))
  }

  /** Only the session cookie is left to authenticate the request, so the session is looked up. */
  predicate SessionDecides(s: Auth, req: Request) {
    s.password.Some? && !(s.token != "" && CarriesToken(req, s.token))
  }

  predicate OwnerAuthenticated(s: Auth, req: Request, internalToken: string, worker: WorkerCheck) {
    && HasAnyAuth(s) && !HasMcpHeader(req)
    && InternalScope(req, internalToken, worker).None? && RequestAuthenticated(s, req)
  }

  // ----- Guards -----

  datatype Guard =
    | OwnerGuard(req: Request, byToken: bool, epoch: nat, token: string, hash: string, salt: string, session: string)
    | NoAuthGuard(req: Request, epoch: nat)

  function CaptureOwner(s: Auth, req: Request, internalToken: string, worker: WorkerCheck): (g: Option<Guard>) {
    var byToken := s.token != "" && CarriesToken(req, s.token);
    var bySession := s.password.Some? && req.session != "" && SessionLive(s, req.session);
    if !OwnerAuthenticated(s, req, internalToken, worker) || (!byToken && !bySession) then None
    else Some(OwnerGuard(req, byToken, s.epoch, s.token,
                         if s.password.Some? then s.password.value.hash else "",
                         if s.password.Some? then s.password.value.salt else "", req.session))
  }

  /** The grant for artifact reads and owner approvals on a daemon without any credential. */
  function CaptureNoAuth(s: Auth, req: Request, readVerb: bool, approvalVerb: bool, internalToken: string,
                         worker: WorkerCheck): (g: Option<Guard>) {
    if !readVerb && !approvalVerb then None
    else if HasAnyAuth(s) || HasMcpHeader(req) then None
    else if InternalScope(req, internalToken, worker).Some? || !req.originAllowed then None
    else if approvalVerb && Text.Trim(req.origin) == "" then None
    else Some(NoAuthGuard(req, s.epoch))
  }

  /** Evaluating a captured guard against the present state. */
  predicate Holds(s: Auth, g: Guard, internalToken: string, worker: WorkerCheck) {
    match g
    case NoAuthGuard(req, epoch) => !HasAnyAuth(s) && !HasMcpHeader(req) && s.epoch == epoch
    case OwnerGuard(req, byToken, epoch, token, hash, salt, session) =>
      && s.epoch == epoch
      && OwnerAuthenticated(s, req, internalToken, worker)
      && if byToken then token != "" && s.token == token && CarriesToken(req, token)
         else
           && hash != "" && salt != ""
           && s.password == Some(Password(hash, salt))
           && session != "" && SessionLive(s, session) && req.session == session
  }

  // ----- Steps -----

  datatype Event =
    | Configuring(token: string, loaded: Option<Password>)
    | LoggingIn(password: string, freshId: string)
    | LoggingOut(session: string)
    | ChangingPassword(current: string, next: string, clear: bool, salt: string, freshId: string, fileFails: bool)
    | LookingUp(session: string)
    | Waiting(ms: nat)

  predicate Complete(record: Password) { record.hash != "" && record.salt != "" }

  predicate VerifyPassword(kdf: KeyDerivation, password: string, config: Option<Password>) {
    config.Some? && Complete(config.value) && kdf(password, config.value.salt) == config.value.hash
  }

  function Bump(s: Auth): (r: Auth) { s.(epoch := s.epoch + 1) }

  function OneSession(s: Auth, id: string): (r: Auth) {
    s.(sessions := map[id := s.now + SESSION_TTL_MS])
  }

  function Step(kdf: KeyDerivation, s: Auth, e: Event): (r: Auth) {
    match e
    case Configuring(token, loaded) => Bump(s.(token := token, password := loaded))
    case LoggingIn(password, freshId) =>
      if !VerifyPassword(kdf, password, s.password) then s else Bump(OneSession(s, freshId))
    case LoggingOut(session) => Bump(s.(sessions := if session == "" then s.sessions else s.sessions - {session}))
    case ChangingPassword(current, next, clear, salt, freshId, fileFails) =>
      if s.password.Some? && !VerifyPassword(kdf, current, s.password) then s
      else if clear then (if fileFails then s else Bump(s.(password := None, sessions := map[])))
      else if |Text.Trim(next)| < 4 || fileFails then s
      else Bump(OneSession(s.(password := Some(Password(kdf(Text.Trim(next), salt), salt))), freshId))
    case LookingUp(session) => AfterLookup(s, session)
    case Waiting(ms) => s.(now := s.now + ms)
  }

  function Run(kdf: KeyDerivation, s: Auth, es: seq<Event>): (r: Auth)
    decreases |es|
  {
    if es == [] then s else Run(kdf, Step(kdf, s, es[0]), es[1..])
  }

  const BOOT := Auth(0, "", None, map[], 0)

  // ----- The objects -----

  class StandaloneSessionStore {
    var sessions: map<string, int>

    constructor ()
      ensures sessions == map[]
    {
      sessions := map[];
    }

    method Create(freshId: string, now: int) returns (id: string)
      modifies this
      ensures id == freshId && sessions == old(sessions)[freshId := now + SESSION_TTL_MS]
    {
      id := freshId;
      sessions := sessions[id := now + SESSION_TTL_MS];
    }

    /** Is the session live? An expired entry is dropped on the way. */
    method Has(id: string, now: int) returns (live: bool)
      modifies this
      ensures live <==> id != "" && id in old(sessions) && old(sessions)[id] != 0 && old(sessions)[id] > now
      ensures sessions ==
                if id != "" && id in old(sessions) && old(sessions)[id] != 0 && !live
                then old(sessions) - {id} else old(sessions)
    {
      if id == "" || id !in sessions || sessions[id] == 0 {
        return false;
      }
      if sessions[id] <= now {
        sessions := sessions - {id};
        return false;
      }
      live := true;
    }

    method Revoke(id: string)
      modifies this
      ensures sessions == if id == "" then old(sessions) else old(sessions) - {id}
    {
      if id != "" {
        sessions := sessions - {id};
      }
    }

    method Clear()
      modifies this
      ensures sessions == map[]
    {
      sessions := map[];
    }
  }

  class StandaloneAuth {
    var authEpoch: nat
    var authToken: string
    var passwordConfig: Option<Password>
    const authSessions: StandaloneSessionStore

    ghost function Value(now: int): Auth
      reads this, authSessions
    {
      Auth(authEpoch, authToken, passwordConfig, authSessions.sessions, now)
    }

    constructor ()
      ensures Value(0) == BOOT && fresh(authSessions)
    {
      authEpoch, authToken, passwordConfig := 0, "", None;
      authSessions := new StandaloneSessionStore();
    }

    method ConfigureAuth(token: string, loaded: Option<Password>, ghost kdf: KeyDerivation, ghost now: int)
      modifies this
      ensures Value(now) == Step(kdf, old(Value(now)), Configuring(token, loaded))
    {
      authToken := token;
      passwordConfig := loaded;
      authEpoch := authEpoch + 1;
    }

    /** The block of the login handler after the body has arrived. */
    method Login(kdf: KeyDerivation, password: string, freshId: string, now: int) returns (ok: bool)
      modifies this, authSessions
      ensures Value(now) == Step(kdf, old(Value(now)), LoggingIn(password, freshId))
      ensures ok == VerifyPassword(kdf, password, old(passwordConfig)) && (ok <==> authEpoch != old(authEpoch))
    {
      ok := VerifyPassword(kdf, password, passwordConfig);
      if !ok {
        return;
      }
      authSessions.Clear();
      var _ := authSessions.Create(freshId, now);
      authEpoch := authEpoch + 1;
    }

    method Logout(session: string, ghost kdf: KeyDerivation, ghost now: int)
      modifies this, authSessions
      ensures Value(now) == Step(kdf, old(Value(now)), LoggingOut(session))
    {
      authSessions.Revoke(session);
      authEpoch := authEpoch + 1;
    }

    /** The block of the password handler after the body has arrived. */
    method ChangePassword(kdf: KeyDerivation, current: string, next: string, clear: bool, salt: string, freshId: string,
                          fileFails: bool, now: int)
      modifies this, authSessions
      ensures Value(now) == Step(kdf, old(Value(now)), ChangingPassword(current, next, clear, salt, freshId, fileFails))
    {
      hide Text.Trim;
      if passwordConfig.Some? && !VerifyPassword(kdf, current, passwordConfig) {
        return;
      }
      if clear {
        if fileFails {
          return;
        }
        passwordConfig := None;
        authSessions.Clear();
        authEpoch := authEpoch + 1;
        return;
      }
      if |Text.Trim(next)| < 4 || fileFails {
        return;
      }
      passwordConfig := Some(Password(kdf(Text.Trim(next), salt), salt));
      authSessions.Clear();
      var _ := authSessions.Create(freshId, now);
      authEpoch := authEpoch + 1;
    }

    method IsRequestAuthenticated(req: Request, now: int) returns (ok: bool)
      modifies authSessions
      ensures ok == RequestAuthenticated(old(Value(now)), req)
      ensures Value(now) ==
                if SessionDecides(old(Value(now)), req) then AfterLookup(old(Value(now)), req.session)
                else old(Value(now))
    {
      if authToken == "" && passwordConfig.None? {
        return true;
      }
      if authToken != "" && CarriesToken(req, authToken) {
        return true;
      }
      if passwordConfig.Some? {
        ok := authSessions.Has(req.session, now);
        return;
      }
      ok := false;
    }

    /** Calling a captured guard; the lookup of an expired session drops it. */
    method Evaluate(g: Guard, internalToken: string, worker: WorkerCheck, now: int) returns (ok: bool)
      modifies authSessions
      ensures ok == Holds(old(Value(now)), g, internalToken, worker)
      ensures Value(now) == old(Value(now)) || Value(now) == AfterLookup(old(Value(now)), g.req.session)
    {
      if authEpoch != g.epoch || HasMcpHeader(g.req) {
        return false;
      }
      if g.NoAuthGuard? {
        return authToken == "" && passwordConfig.None?;
      }
      if (authToken == "" && passwordConfig.None?) || InternalScope(g.req, internalToken, worker).Some? {
        return false;
      }
      var authenticated := IsRequestAuthenticated(g.req, now);
      if !authenticated {
        return false;
      }
      if g.byToken {
        return g.token != "" && authToken == g.token && CarriesToken(g.req, g.token);
      }
      if g.hash == "" || g.salt == "" || passwordConfig != Some(Password(g.hash, g.salt)) {
        return false;
      }
      if g.session == "" || g.req.session != g.session {
        return false;
      }
      ok := authSessions.Has(g.session, now);
    }
  }

  // ----- Laws -----

  /** Without a credential header no request has an internal scope, whatever the registries say. */
  lemma NoHeaderNoScope(req: Request, internalToken: string, worker: WorkerCheck)
    requires !HasMcpHeader(req)
    ensures InternalScope(req, internalToken, worker) == None
  {
  }

  /** A step either advances the epoch or changes nothing but the clock and expired sessions. */
  lemma EveryChangeAdvancesTheEpoch(kdf: KeyDerivation, s: Auth, e: Event)
    ensures var r := Step(kdf, s, e);
            && r.now >= s.now
            && (r.epoch == s.epoch || r.epoch == s.epoch + 1)
            && (r.epoch == s.epoch ==>
                  && r.token == s.token && r.password == s.password
                  && (forall id :: id in r.sessions ==> id in s.sessions && r.sessions[id] == s.sessions[id])
                  && (forall id :: id in s.sessions && s.sessions[id] > r.now ==> id in r.sessions))
  {
    hide Text.Trim;
  }

  /** The states of one epoch: the credentials are fixed, and sessions only expire. */
  ghost predicate SameEpoch(s: Auth, r: Auth) {
    && r.epoch == s.epoch && r.token == s.token && r.password == s.password && r.now >= s.now
    && (forall id :: id in r.sessions ==> id in s.sessions && r.sessions[id] == s.sessions[id])
    && (forall id :: id in s.sessions && s.sessions[id] > r.now ==> id in r.sessions)
  }

  lemma {:induction false} RunWithinEpoch(kdf: KeyDerivation, s: Auth, es: seq<Event>)
    ensures Run(kdf, s, es).epoch >= s.epoch && Run(kdf, s, es).now >= s.now
    ensures Run(kdf, s, es).epoch == s.epoch ==> SameEpoch(s, Run(kdf, s, es))
    decreases |es|
  {
    hide Step;
    if es == [] {
    } else {
      EveryChangeAdvancesTheEpoch(kdf, s, es[0]);
      RunWithinEpoch(kdf, Step(kdf, s, es[0]), es[1..]);
    }
  }

  lemma SessionsOnlyExpire(s: Auth, r: Auth, id: string)
    requires SameEpoch(s, r)
    ensures SessionLive(r, id) <==> SessionLive(s, id) && s.sessions[id] > r.now
  {
  }

  /** Within an epoch a guard can only go from true to false. */
  lemma HoldsIsMonotone(s: Auth, r: Auth, g: Guard, internalToken: string, worker: WorkerCheck, internalToken': string,
                        worker': WorkerCheck)
    requires SameEpoch(s, r) && Holds(r, g, internalToken', worker')
    ensures Holds(s, g, internalToken, worker)
  {
    NoHeaderNoScope(g.req, internalToken, worker);
    SessionsOnlyExpire(s, r, g.req.session);
    hide InternalScope, SameEpoch;
  }

  /**
   * Over every run of configure, login, logout, password and clock steps, a captured
   * guard that has once evaluated to false never evaluates to true again, whatever
   * becomes of the worker registry and the internal token meanwhile.
   */
  lemma {:induction false} FalseGuardStaysFalse(kdf: KeyDerivation, s: Auth, es: seq<Event>, g: Guard,
                             internalToken: string, worker: WorkerCheck, internalToken': string, worker': WorkerCheck)
    requires g.epoch <= s.epoch && !Holds(s, g, internalToken, worker)
    ensures !Holds(Run(kdf, s, es), g, internalToken', worker')
  {
    RunWithinEpoch(kdf, s, es);
    var r := Run(kdf, s, es);
    hide Run;
    if Holds(r, g, internalToken', worker') {
      HoldsIsMonotone(s, r, g, internalToken, worker, internalToken', worker');
    }
  }

  /** The event is an authentication change that goes through. */
  predicate ChangesAuth(kdf: KeyDerivation, s: Auth, e: Event) {
    match e
    case Configuring(_, _) => true
    case LoggingIn(password, _) => VerifyPassword(kdf, password, s.password)
    case LoggingOut(_) => true
    case ChangingPassword(current, next, clear, _, _, fileFails) =>
      && (s.password.Some? ==> VerifyPassword(kdf, current, s.password))
      && !fileFails && (clear || |Text.Trim(next)| >= 4)
    case _ => false
  }

  lemma WhatAdvancesTheEpoch(kdf: KeyDerivation, s: Auth, e: Event)
    ensures Step(kdf, s, e).epoch != s.epoch <==> ChangesAuth(kdf, s, e)
  {
    hide Text.Trim;
  }

  /**
   * Every configure, logout, successful login and successful password change or clear
   * falsifies every guard captured before it, for good.
   */
  lemma {:induction false} AuthChangeRevokesEarlierGuards(kdf: KeyDerivation, s: Auth, e: Event, es: seq<Event>,
                                                          g: Guard, internalToken: string, worker: WorkerCheck)
    requires g.epoch <= s.epoch && ChangesAuth(kdf, s, e)
    ensures !Holds(Run(kdf, Step(kdf, s, e), es), g, internalToken, worker)
  {
    WhatAdvancesTheEpoch(kdf, s, e);
    hide Step, ChangesAuth;
    EveryChangeAdvancesTheEpoch(kdf, s, e);
    RunWithinEpoch(kdf, Step(kdf, s, e), es);
    hide Run;
  }

  /** An owner guard and a no-auth guard never hold in the same state. */
  lemma OwnerAndNoAuthExclude(s: Auth, g: Guard, g': Guard, internalToken: string, worker: WorkerCheck)
    requires g.OwnerGuard? && g'.NoAuthGuard?
    ensures !(Holds(s, g, internalToken, worker) && Holds(s, g', internalToken, worker))
  {
  }

  /**
   * A captured owner guard holds at once, unless it rests on a password session and the
   * password record has an empty hash or salt: then it never holds.
   */
  lemma CapturedOwnerGuardHoldsIff(s: Auth, req: Request, internalToken: string, worker: WorkerCheck)
    requires CaptureOwner(s, req, internalToken, worker).Some?
    ensures var g := CaptureOwner(s, req, internalToken, worker).value;
            && g.epoch == s.epoch && g.req == req
            && (Holds(s, g, internalToken, worker) <==>
                g.byToken || Complete(s.password.value))
  {
  }

  /** A session is only ever held next to no password record or a complete one. */
  predicate SessionsHaveRecords(s: Auth) {
    s.sessions != map[] && s.password.Some? ==> Complete(s.password.value)
  }

  /** Salts are not empty, and a configuration read while the daemon runs is none or a complete one. */
  predicate Regular(e: Event) {
    match e
    case Configuring(_, loaded) => loaded.Some? ==> Complete(loaded.value)
    case ChangingPassword(_, _, _, salt, _, _) => salt != ""
    case _ => true
  }

  lemma {:induction false} RegularRunKeepsRecords(kdf: KeyDerivation, s: Auth, es: seq<Event>)
    requires forall p, salt :: kdf(p, salt) != ""
    requires SessionsHaveRecords(s) && forall e :: e in es ==> Regular(e)
    ensures SessionsHaveRecords(Run(kdf, s, es))
    decreases |es|
  {
    if es == [] {
    } else {
      RegularStepKeepsRecords(kdf, s, es[0]);
      hide Step, SessionsHaveRecords, Regular;
      RegularRunKeepsRecords(kdf, Step(kdf, s, es[0]), es[1..]);
    }
  }

  lemma RegularStepKeepsRecords(kdf: KeyDerivation, s: Auth, e: Event)
    requires forall p, salt :: kdf(p, salt) != ""
    requires SessionsHaveRecords(s) && Regular(e)
    ensures SessionsHaveRecords(Step(kdf, s, e))
  {
    hide Text.Trim;
  }

  /**
   * The daemon reads its configuration once, before any session exists, whatever the
   * file holds; from then on every owner guard it captures holds at once.
   */
  lemma {:induction false} DaemonGuardsHoldAtCapture(kdf: KeyDerivation, token: string, loaded: Option<Password>,
                                                     es: seq<Event>, req: Request,
                                                     internalToken: string, worker: WorkerCheck)
    requires forall p, salt :: kdf(p, salt) != ""
    requires forall e :: e in es ==> Regular(e)
    ensures var s := Run(kdf, Step(kdf, BOOT, Configuring(token, loaded)), es);
            var g := CaptureOwner(s, req, internalToken, worker);
            g.Some? ==> Holds(s, g.value, internalToken, worker)
  {
    RegularRunKeepsRecords(kdf, Step(kdf, BOOT, Configuring(token, loaded)), es);
    var s := Run(kdf, Step(kdf, BOOT, Configuring(token, loaded)), es);
    hide Run, Step;
    if CaptureOwner(s, req, internalToken, worker).Some? {
      CapturedOwnerGuardHoldsIff(s, req, internalToken, worker);
    }
  }

  /**
   * The failing case needs a second configuration: a password is set, then an incomplete
   * record is loaded while its session lives. The guard captured next is false at once.
   */
  lemma SecondConfigurationBreaksGuards(kdf: KeyDerivation, next: string, salt: string, id: string)
    requires |Text.Trim(next)| >= 4 && id != ""
    ensures var change := ChangingPassword("", next, false, salt, id, false);
            var es := [Configuring("", None), change, Configuring("", Some(Password("", "")))];
            var s := Run(kdf, BOOT, es);
            var g := CaptureOwner(s, SessionRequest(id), "", _ => false);
            g.Some? && !Holds(s, g.value, "", _ => false)
  {
    hide Text.Trim;
    var change := ChangingPassword("", next, false, salt, id, false);
    var reload := Configuring("", Some(Password("", "")));
    assert [Configuring("", None), change, reload][1..] == [change, reload];
    assert [change, reload][1..] == [reload] && [reload][1..] == [];
    var s1 := Step(kdf, BOOT, Configuring("", None));
    var s2 := Step(kdf, s1, change);
    var s3 := Step(kdf, s2, reload);
    assert Run(kdf, s2, [reload]) == s3 && Run(kdf, s1, [change, reload]) == s3;
    assert SessionLive(s3, id);
  }

  /** A plain dashboard request with nothing but its session cookie. */
  function SessionRequest(id: string): (req: Request) {
    Request(None, None, id, None, None, true, true, "")
  }

  /**
   * Exactly how long an owner guard lasts: as long as the epoch stands and, for a
   * password session, until the expiry its session had at capture.
   */
  lemma {:induction false} OwnerGuardLastsExactly(kdf: KeyDerivation, s: Auth, req: Request, es: seq<Event>,
                                                  internalToken: string, worker: WorkerCheck,
                                                  internalToken': string, worker': WorkerCheck)
    requires CaptureOwner(s, req, internalToken, worker).Some?
    requires Holds(s, CaptureOwner(s, req, internalToken, worker).value, internalToken, worker)
    ensures var g := CaptureOwner(s, req, internalToken, worker).value; var r := Run(kdf, s, es);
            Holds(r, g, internalToken', worker') <==>
              r.epoch == s.epoch && (g.byToken || (req.session in s.sessions && r.now < s.sessions[req.session]))
  {
    var g := CaptureOwner(s, req, internalToken, worker).value;
    var r := Run(kdf, s, es);
    RunWithinEpoch(kdf, s, es);
    NoHeaderNoScope(req, internalToken', worker');
    hide Run, InternalScope;
    if r.epoch == s.epoch {
      SessionsOnlyExpire(s, r, req.session);
      hide SameEpoch;
    }
  }

  /** A captured no-auth guard holds at once. */
  lemma CapturedNoAuthGuardHolds(s: Auth, req: Request, readVerb: bool, approvalVerb: bool, internalToken: string,
                                 worker: WorkerCheck)
    requires CaptureNoAuth(s, req, readVerb, approvalVerb, internalToken, worker).Some?
    ensures Holds(s, CaptureNoAuth(s, req, readVerb, approvalVerb, internalToken, worker).value, internalToken, worker)
  {
  }

  /** The store never holds more than one session. */
  lemma {:induction false} AtMostOneSession(kdf: KeyDerivation, s: Auth, es: seq<Event>)
    requires |s.sessions| <= 1
    ensures |Run(kdf, s, es).sessions| <= 1
    decreases |es|
  {
    if es == [] {
    } else {
      StepKeepsOneSession(kdf, s, es[0]);
      hide Step;
      AtMostOneSession(kdf, Step(kdf, s, es[0]), es[1..]);
    }
  }

  lemma StepKeepsOneSession(kdf: KeyDerivation, s: Auth, e: Event)
    requires |s.sessions| <= 1
    ensures |Step(kdf, s, e).sessions| <= 1
  {
    hide Text.Trim, VerifyPassword;
    match e
    case LoggingOut(session) => RemovalShrinks(s.sessions, session);
    case LookingUp(session) => RemovalShrinks(s.sessions, session);
    case _ =>
  }

  lemma RemovalShrinks(sessions: map<string, int>, id: string)
    ensures |sessions - {id}| <= |sessions|
  {
    if id in sessions {
      assert sessions.Keys == (sessions - {id}).Keys + {id};
    } else {
      assert sessions - {id} == sessions;
    }
  }
}
