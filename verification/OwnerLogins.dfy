/**
 * Who gets in: which password logs in, which requests are authenticated, when a guard is
 * captured, and what logging out and configuring do, over whole runs.
 */
module OwnerLogins {
  import opened Basics
  import opened OwnerAuth
  import Text

  // ----- Passwords -----

  /** Different passwords derive different keys under one salt, and no key is empty. */
  ghost predicate Sharp(kdf: KeyDerivation) {
    && (forall a, b, salt :: kdf(a, salt) == kdf(b, salt) ==> a == b)
    && (forall a, salt :: kdf(a, salt) != "")
  }

  /** No event of the run configures the daemon or changes its password. */
  predicate KeepsPassword(kdf: KeyDerivation, s: Auth, es: seq<Event>)
    decreases |es|
  {
    es == [] || (&& !es[0].Configuring? && (es[0].ChangingPassword? ==> Step(kdf, s, es[0]) == s)
                 && KeepsPassword(kdf, Step(kdf, s, es[0]), es[1..]))
  }

  lemma {:induction false} PasswordIsKept(kdf: KeyDerivation, s: Auth, es: seq<Event>)
    requires KeepsPassword(kdf, s, es)
    ensures Run(kdf, s, es).password == s.password
    decreases |es|
  {
    if es == [] {
    } else {
      assert Step(kdf, s, es[0]).password == s.password by {
        hide VerifyPassword, Text.Trim;
      }
      hide Step;
      PasswordIsKept(kdf, Step(kdf, s, es[0]), es[1..]);
    }
  }

  /** The password record a change leaves behind. */
  lemma ChangeSetsPassword(kdf: KeyDerivation, s: Auth, change: Event)
    requires change.ChangingPassword? && !change.clear && Step(kdf, s, change) != s
    ensures Step(kdf, s, change).password == Some(Password(kdf(Text.Trim(change.next), change.salt), change.salt))
  {
    hide VerifyPassword, Text.Trim;
  }

  lemma {:induction false} PasswordInForce(kdf: KeyDerivation, s: Auth, change: Event, es: seq<Event>)
    requires change.ChangingPassword? && !change.clear && Step(kdf, s, change) != s
    requires KeepsPassword(kdf, Step(kdf, s, change), es)
    ensures Run(kdf, Step(kdf, s, change), es).password
            == Some(Password(kdf(Text.Trim(change.next), change.salt), change.salt))
  {
    hide Step, Run, KeepsPassword, Text.Trim;
    ChangeSetsPassword(kdf, s, change);
    PasswordIsKept(kdf, Step(kdf, s, change), es);
  }

  lemma VerifiesIff(kdf: KeyDerivation, p: string, q: string, salt: string)
    requires Sharp(kdf) && salt != ""
    ensures VerifyPassword(kdf, p, Some(Password(kdf(q, salt), salt))) <==> p == q
  {
  }

  /**
   * After a password has been set, and until it is changed again or the daemon is
   * configured anew, exactly that password logs in: a login with it leaves one session,
   * for thirty days, and any other attempt changes nothing.
   */
  lemma {:induction false} LoginIffPassword(kdf: KeyDerivation, s: Auth, change: Event, es: seq<Event>, p: string,
                                            id: string)
    requires Sharp(kdf) && change.ChangingPassword? && !change.clear && change.salt != "" && Step(kdf, s, change) != s
    requires KeepsPassword(kdf, Step(kdf, s, change), es)
    ensures var r := Run(kdf, Step(kdf, s, change), es);
            Step(kdf, r, LoggingIn(p, id)) ==
              if p != Text.Trim(change.next) then r
              else r.(epoch := r.epoch + 1, sessions := map[id := r.now + 2592000000])
  {
    hide Run, Text.Trim, VerifyPassword, KeepsPassword, Sharp;
    PasswordInForce(kdf, s, change, es);
    VerifiesIff(kdf, p, Text.Trim(change.next), change.salt);
  }

  /**
   * In the same way only that password opens the settings: without it a change or a clear
   * leaves everything as it is, and with it a clear leaves neither password nor session.
   */
  lemma {:induction false} ChangeNeedsPassword(kdf: KeyDerivation, s: Auth, change: Event, es: seq<Event>, again: Event)
    requires Sharp(kdf) && change.ChangingPassword? && !change.clear && change.salt != "" && Step(kdf, s, change) != s
    requires KeepsPassword(kdf, Step(kdf, s, change), es) && again.ChangingPassword?
    ensures var r := Run(kdf, Step(kdf, s, change), es);
            && (again.current != Text.Trim(change.next) ==> Step(kdf, r, again) == r)
            && (again.current == Text.Trim(change.next) && again.clear && !again.fileFails ==>
                  Step(kdf, r, again) == r.(epoch := r.epoch + 1, password := None, sessions := map[]))
            && (again.current == Text.Trim(change.next) && !again.clear && !again.fileFails ==>
                  (Step(kdf, r, again) != r <==> |Text.Trim(again.next)| >= 4))
  {
    hide Run, Text.Trim, VerifyPassword, KeepsPassword, Sharp;
    PasswordInForce(kdf, s, change, es);
    VerifiesIff(kdf, again.current, Text.Trim(change.next), change.salt);
  }

  /** Without a password, nobody can log in, and anyone can set one of at least four characters. */
  lemma WithoutPassword(kdf: KeyDerivation, s: Auth, p: string, id: string, change: Event)
    requires s.password.None? && change.ChangingPassword? && !change.clear
    ensures Step(kdf, s, LoggingIn(p, id)) == s
    ensures Step(kdf, s, change) ==
              if |Text.Trim(change.next)| < 4 || change.fileFails then s
              else s.(epoch := s.epoch + 1, sessions := map[change.freshId := s.now + 2592000000],
                      password := Some(Password(kdf(Text.Trim(change.next), change.salt), change.salt)))
  {
    hide Text.Trim;
  }

  // ----- Sessions -----

  /** The event opens a session under this id. */
  predicate Opens(e: Event, id: string) {
    (e.LoggingIn? && e.freshId == id) || (e.ChangingPassword? && e.freshId == id)
  }

  lemma LogoutEndsSession(kdf: KeyDerivation, s: Auth, id: string)
    ensures var r := Step(kdf, s, LoggingOut(id));
            && r == s.(epoch := s.epoch + 1, sessions := r.sessions)
            && (forall x :: x in r.sessions <==> x in s.sessions && (x != id || id == ""))
            && (forall x :: x in r.sessions ==> r.sessions[x] == s.sessions[x])
  {
  }

  /** A session that was logged out never comes back, as long as no event opens one under its id. */
  lemma {:induction false} LoggedOutStaysOut(kdf: KeyDerivation, s: Auth, es: seq<Event>, id: string)
    requires id !in s.sessions && forall e :: e in es ==> !Opens(e, id)
    ensures id !in Run(kdf, s, es).sessions
    decreases |es|
  {
    if es == [] {
    } else {
      assert id !in Step(kdf, s, es[0]).sessions by {
        hide VerifyPassword, Text.Trim;
        assert !Opens(es[0], id);
      }
      hide Step, Opens;
      LoggedOutStaysOut(kdf, Step(kdf, s, es[0]), es[1..], id);
    }
  }

  /** Looking a session up drops it if it has expired, and touches nothing else. */
  lemma LookupDropsOnlyExpired(kdf: KeyDerivation, s: Auth, id: string)
    ensures var r := Step(kdf, s, LookingUp(id));
            && r == s.(sessions := r.sessions)
            && (forall x :: x in r.sessions ==> x in s.sessions && r.sessions[x] == s.sessions[x])
            && (forall x :: x in s.sessions ==>
                  (x !in r.sessions <==> x == id && id != "" && s.sessions[id] != 0 && s.sessions[id] <= s.now))
  {
  }

  // ----- Requests -----

  /** The request's cookie names a session that has not expired. */
  predicate HasLiveSession(s: Auth, req: Request) {
    req.session != "" && req.session in s.sessions && s.sessions[req.session] != 0 && s.now < s.sessions[req.session]
  }

  /** The request carries the configured token, as bearer or in the query. */
  predicate HasToken(s: Auth, req: Request) {
    s.token != "" && (req.bearer == Some(s.token) || req.query == Some(s.token))
  }

  lemma AuthenticatedIff(s: Auth, req: Request)
    ensures RequestAuthenticated(s, req) <==>
              || (s.token == "" && s.password.None?)
              || HasToken(s, req)
              || (s.password.Some? && HasLiveSession(s, req))
  {
  }

  /** An owner guard is captured exactly for the token or a live session, without a credential header. */
  lemma OwnerCaptureIff(s: Auth, req: Request, internalToken: string, worker: WorkerCheck)
    ensures var g := CaptureOwner(s, req, internalToken, worker);
            && (g.Some? <==>
                  && req.internalHeader.None? && req.workerHeader.None?
                  && (HasToken(s, req) || (s.password.Some? && HasLiveSession(s, req))))
            && (g.Some? ==>
                  g.value.OwnerGuard? && g.value.byToken == HasToken(s, req) && g.value.session == req.session)
  {
  }

  /** A no-auth guard is captured exactly without credentials, for the two kinds of verb, from an allowed origin. */
  lemma NoAuthCaptureIff(s: Auth, req: Request, readVerb: bool, approvalVerb: bool, internalToken: string,
                         worker: WorkerCheck)
    ensures CaptureNoAuth(s, req, readVerb, approvalVerb, internalToken, worker).Some? <==>
              && (readVerb || approvalVerb) && s.token == "" && s.password.None?
              && req.internalHeader.None? && req.workerHeader.None? && req.originAllowed
              && (approvalVerb ==> Text.Trim(req.origin) != "")
  {
    hide Text.Trim;
  }

  /** A no-auth guard lasts exactly as long as the epoch. */
  lemma {:induction false} NoAuthGuardLastsExactly(kdf: KeyDerivation, s: Auth, req: Request,
                                                   readVerb: bool, approvalVerb: bool, es: seq<Event>,
                                                   internalToken: string, worker: WorkerCheck)
    requires CaptureNoAuth(s, req, readVerb, approvalVerb, internalToken, worker).Some?
    ensures var g := CaptureNoAuth(s, req, readVerb, approvalVerb, internalToken, worker).value;
            Holds(Run(kdf, s, es), g, internalToken, worker) <==> Run(kdf, s, es).epoch == s.epoch
  {
    RunWithinEpoch(kdf, s, es);
    NoAuthCaptureIff(s, req, readVerb, approvalVerb, internalToken, worker);
    hide Run, Text.Trim;
  }

  /** The scope of a worker credential: coordinator or worker, from the loopback interface, by one valid header. */
  lemma ScopeIff(req: Request, internalToken: string, worker: WorkerCheck)
    ensures InternalScope(req, internalToken, worker) == Some(Coordinator) <==>
              && req.loopback && req.internalHeader.Some? && req.workerHeader.None?
              && internalToken != "" && Text.Trim(req.internalHeader.value) == internalToken
    ensures InternalScope(req, internalToken, worker) == Some(Worker) <==>
              && req.loopback && req.workerHeader.Some? && req.internalHeader.None?
              && Text.Trim(req.workerHeader.value) != "" && worker(Text.Trim(req.workerHeader.value))
  {
    hide Text.Trim;
  }

  // ----- Configuration -----

  lemma {:induction false} TokenIsKept(kdf: KeyDerivation, s: Auth, es: seq<Event>)
    requires forall e :: e in es ==> !e.Configuring?
    ensures Run(kdf, s, es).token == s.token
    decreases |es|
  {
    if es == [] {
    } else {
      assert Step(kdf, s, es[0]).token == s.token by {
        hide VerifyPassword, Text.Trim;
      }
      hide Step;
      TokenIsKept(kdf, Step(kdf, s, es[0]), es[1..]);
    }
  }

  /** A configured token authenticates, whatever becomes of password and sessions, until the next configuration. */
  lemma {:induction false} ConfiguredTokenAuthenticates(kdf: KeyDerivation, s: Auth, token: string,
                                                        loaded: Option<Password>, es: seq<Event>, req: Request)
    requires token != "" && (req.bearer == Some(token) || req.query == Some(token))
    requires forall e :: e in es ==> !e.Configuring?
    ensures RequestAuthenticated(Run(kdf, Step(kdf, s, Configuring(token, loaded)), es), req)
  {
    TokenIsKept(kdf, Step(kdf, s, Configuring(token, loaded)), es);
    var r := Run(kdf, Step(kdf, s, Configuring(token, loaded)), es);
    assert r.token == token;
    AuthenticatedIff(r, req);
    hide Run;
  }

  /** Configuring takes the token and the stored record, keeps the sessions, and starts a new epoch. */
  lemma ConfigureTakesEffect(kdf: KeyDerivation, s: Auth, token: string, loaded: Option<Password>)
    ensures Step(kdf, s, Configuring(token, loaded)) == Auth(s.epoch + 1, token, loaded, s.sessions, s.now)
  {
  }
}
