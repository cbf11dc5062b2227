/** What one whole reconcile brings about, said of what is stored before and
    after it: when a password is written, when the credential is ready, that it is
    looked at in time, and what that means for logins. */
module CredentialEffects {
  import opened Prelude
  import opened MailCredential
  import opened CredentialRuns
  import opened CredentialTheorems
  import opened CredentialVerifier

  // One reconcile.

  /** What a reconcile meets: whether the account exists, whether the guard is in
      place, the password it would generate and whether writing that works. */
  datatype Meets = Meets(accountFound: bool, guardOK: bool, password: Password, succeeds: bool, otherChange: bool)

  /** A reconcile on the newest version whose status write lands. Steps it does not
      come to change nothing. */
  function Reconciling(o: Object, m: Meets): seq<Event> {
    [Begin(o), FreshRead, Decide(m.accountFound, m.guardOK, m.otherChange), WriteSecret(m.password, m.succeeds),
     StatusWrite(true, true)]
  }

  function After(w: World, o: Object, m: Meets): World {
    var e := Reconciling(o, m);
    Step(Step(Step(Step(Step(w, e[0]), e[1]), e[2]), e[3]), e[4])
  }

  lemma RunReconcile(cfg: Config, events: seq<Event>, o: Object, m: Meets)
    ensures Run(cfg, events + Reconciling(o, m)) == After(Run(cfg, events), o, m)
  {
    hide Run, Step;
    var e := Reconciling(o, m);
    RunSnoc(cfg, events, e[0]);
    RunSnoc(cfg, events + [e[0]], e[1]);
    RunSnoc(cfg, events + [e[0]] + [e[1]], e[2]);
    RunSnoc(cfg, events + [e[0]] + [e[1]] + [e[2]], e[3]);
    RunSnoc(cfg, events + [e[0]] + [e[1]] + [e[2]] + [e[3]], e[4]);
    assert events + e == events + [e[0]] + [e[1]] + [e[2]] + [e[3]] + [e[4]];
  }

  /** No reconcile is in progress, and the object is the newest version. */
  ghost predicate Stands(w: World, o: Object) { Inv(w) && w.job.Idle? && w.api == Some(o) }

  lemma Loads(w: World, o: Object)
    requires Stands(w, o)
    ensures Step(Step(w, Begin(o)), FreshRead) == w.(job := Loaded(o, w.clock, LooksDue(o, w.clock)))
  {
    hide LooksDue, PasswordsOK, Synced, StatusOK;
  }

  /** The status that a plan ends in. */
  function Ends(w: World, o: Object, m: Meets): Status {
    match PlanFor(w.cfg, o, w.clock, m.accountFound, m.guardOK)
    case Settle(st) => st
    case Rotate(st, grace) =>
      if m.succeeds && WriteAccepted(w, o) then WriteDone(st, o, m.password, w.clock, grace)
      else WriteFailed(st, o.spec)
  }

  predicate Tries(w: World, o: Object, m: Meets) {
    PlanFor(w.cfg, o, w.clock, m.accountFound, m.guardOK).Rotate?
  }

  predicate Writes(w: World, o: Object, m: Meets) { Tries(w, o, m) && m.succeeds && WriteAccepted(w, o) }

  /** Nothing but status, Secret and what was issued is different. */
  predicate Ended(w: World, w': World, o: Object, m: Meets) {
    && w'.job.Idle? && w'.clock == w.clock && w'.cfg == w.cfg
    && w'.api.Some? && w'.api.value == o.(status := Ends(w, o, m), version := w'.api.value.version)
    && w'.issued == w.issued + (if Tries(w, o, m) then {m.password} else {})
    && w'.secrets == if Writes(w, o, m) then w.secrets[o.spec.secretName := Secret(o.uid, m.password)] else w.secrets
  }

  /** A status write on the newest version lands. */
  lemma Reports(w: World, o: Object, st: Status, written: Option<string>)
    requires w.job == Report(o, st, written) && w.api == Some(o)
    ensures var w' := Step(w, StatusWrite(true, true));
            && w'.job.Idle? && w'.clock == w.clock && w'.cfg == w.cfg && w'.issued == w.issued
            && w'.secrets == w.secrets
            && w'.api.Some? && w'.api.value == o.(status := st, version := w'.api.value.version)
  {
    hide Held;
  }

  lemma Settles(w: World, o: Object, m: Meets)
    requires w.job.Loaded? && w.job.mc == o && w.api == Some(o) && w.job.now == w.clock && !Tries(w, o, m)
    ensures var w' := Step(w, Decide(m.accountFound, m.guardOK, m.otherChange));
            && (w' == w.(job := Report(o, Ends(w, o, m), None)) || (w' == w.(job := Idle) && Ends(w, o, m) == o.status))
            && Step(w', WriteSecret(m.password, m.succeeds)) == w'
            && (w'.job.Idle? ==> Step(w', StatusWrite(true, true)) == w')
  {
    hide PlanFor;
  }

  lemma Attempts(w: World, o: Object, m: Meets)
    requires w.job.Loaded? && w.job.mc == o && w.api == Some(o) && w.job.now == w.clock && Tries(w, o, m)
    requires m.password !in w.issued
    ensures var w' := Step(Step(w, Decide(m.accountFound, m.guardOK, m.otherChange)),
                           WriteSecret(m.password, m.succeeds));
            && w'.job.Report? && w'.job.mc == o && w'.job.status == Ends(w, o, m) && w'.api == w.api
            && w'.clock == w.clock && w'.cfg == w.cfg && w'.issued == w.issued + {m.password}
            && w'.secrets == if Writes(w, o, m) then w.secrets[o.spec.secretName := Secret(o.uid, m.password)]
                             else w.secrets
  {
    hide PlanFor, WriteDone, WriteFailed;
  }

  /** A reconcile settles or rotates, and what it decides is stored. */
  lemma EndsIn(w: World, o: Object, m: Meets)
    requires Stands(w, o) && m.password !in w.issued
    ensures Ended(w, After(w, o, m), o, m)
  {
    hide Step, LooksDue, PlanFor, WriteDone, WriteFailed, Inv, WriteAccepted;
    Loads(w, o);
    var loaded := w.(job := Loaded(o, w.clock, LooksDue(o, w.clock)));
    var decided := Step(loaded, Decide(m.accountFound, m.guardOK, m.otherChange));
    var written := Step(decided, WriteSecret(m.password, m.succeeds));
    SamePlan(w, loaded, o, m);
    if Tries(w, o, m) {
      Attempts(loaded, o, m);
      Reports(written, o, Ends(w, o, m), written.job.written);
    } else {
      Settles(loaded, o, m);
      if written.job.Report? { Reports(written, o, Ends(w, o, m), None); }
    }
  }

  lemma SamePlan(w: World, w': World, o: Object, m: Meets)
    requires w' == w.(job := w'.job)
    ensures Tries(w', o, m) == Tries(w, o, m) && Ends(w', o, m) == Ends(w, o, m) && Writes(w', o, m) == Writes(w, o, m)
  {
    hide PlanFor, WriteDone, WriteFailed;
  }

  // When a password is written.

  /** The Secret's name is free, or it is the object's own. */
  predicate Writable(w: World, o: Object) {
    o.spec.secretName in w.secrets ==> w.secrets[o.spec.secretName].owner == o.uid
  }

  /** A password is due and can be written. */
  predicate Due(w: World, o: Object, m: Meets) {
    Configured(w.cfg, o.spec) && m.accountFound && m.guardOK && !UpToDate(o, w.clock)
  }
  predicate Written(w: World, o: Object, m: Meets) { Due(w, o, m) && m.succeeds && Writable(w, o) }

  lemma TriesExactly(w: World, o: Object, m: Meets)
    ensures Tries(w, o, m) <==> Due(w, o, m)
    ensures Writes(w, o, m) <==> Written(w, o, m)
  {
  }

  /** What a successful write leaves in status: the new password, and the one before
      it for a grace period, if there is one. */
  predicate Replaced(o: Object, st: Status, password: Password, now: Time) {
    var t := ParseRotation(o.spec.rotation);
    && st.current == Some(Current(Sha256(password), now)) && st.secretName == o.spec.secretName
    && st.lastRotateRequest == o.rotate
    && st.previous == if IsGenerated(o.status.current) && t.Timing? && t.grace > 0
                      then Some(Previous(o.status.current.value.hash, now + t.grace)) else None
  }

  lemma WritesReplace(w: World, o: Object, m: Meets)
    requires StatusOK(w.cfg, o.status) && Writes(w, o, m)
    ensures Replaced(o, Ends(w, o, m), m.password, w.clock)
  {
  }

  lemma StatusOfNewest(w: World, o: Object)
    requires Stands(w, o)
    ensures StatusOK(w.cfg, o.status)
  {
  }

  /** Over every run: a reconcile on the newest version writes a password exactly if
      the settings allow it, the account exists, the guard is in place, the Secret is
      free or its own, the write works, and the password in status is not up to date;
      else it leaves the Secrets alone. */
  lemma PasswordWrittenExactly(cfg: Config, events: seq<Event>, o: Object, m: Meets)
    requires var w := Run(cfg, events); w.job.Idle? && w.api == Some(o) && m.password !in w.issued
    ensures var w, w' := Run(cfg, events), Run(cfg, events + Reconciling(o, m));
            && w'.job.Idle? && w'.issued == w.issued + (if Due(w, o, m) then {m.password} else {})
            && w'.secrets == if Written(w, o, m) then w.secrets[o.spec.secretName := Secret(o.uid, m.password)]
                             else w.secrets
  {
    RunsKeepInv(cfg, events);
    RunReconcile(cfg, events, o, m);
    hide Run, After, Tries, Ends, Inv, StatusOK, Writes, Due, Written;
    var w := Run(cfg, events);
    StatusOfNewest(w, o);
    EndsIn(w, o, m);
    TriesExactly(w, o, m);
  }

  /** Nothing is wrong with the settings of a generated credential, whether or not
      such credentials are enabled. */
  predicate SettingsOK(cfg: Config, spec: Spec) {
    Configured(cfg.(generatedEnabled := true), spec)
  }

  /** Without a password write, a generated hash and its Secret stay, and so does the
      previous one until it has run out. Another hash goes, unless the namespace is
      excluded. */
  predicate Kept(w: World, o: Object, st: Status, accountFound: bool) {
    var was := o.status;
    && st.current == (if IsGenerated(was.current) || w.cfg.excluded then was.current else None)
    && st.previous == (if SettingsOK(w.cfg, o.spec) && accountFound && was.previous.Some? &&
                          w.clock >= was.previous.value.validUntil then None else was.previous)
    && st.secretName == was.secretName && st.lastRotateRequest == was.lastRotateRequest
  }

  lemma PlanKeeps(w: World, o: Object, accountFound: bool, guardOK: bool)
    requires StatusOK(w.cfg, o.status) && o.spec.Generated()
    ensures Kept(w, o, PlanFor(w.cfg, o, w.clock, accountFound, guardOK).status, accountFound)
  {
    hide RotationDue, ParseRotation;
  }

  lemma KeepsPassword(w: World, o: Object, m: Meets)
    requires StatusOK(w.cfg, o.status) && o.spec.Generated() && !Writes(w, o, m)
    ensures Kept(w, o, Ends(w, o, m), m.accountFound)
  {
    hide PlanFor, StatusOK, WriteAccepted, SettingsOK;
    PlanKeeps(w, o, m.accountFound, m.guardOK);
  }

  // When a credential is ready.

  /** The own hash of the spec in status, with the time it was first accepted. */
  predicate OwnHashKept(w: World, o: Object, st: Status) {
    var h, was := o.spec.passwordHash, o.status.current;
    && st.previous.None? && st.secretName == "" && st.lastRotateRequest == o.status.lastRotateRequest
    && st.current == if !st.ready || h.None? then None
                     else if was.Some? && was.value.hash == h.value then was
                     else Some(Current(h.value, w.clock))
  }

  /** An own hash is ready if it parses, stands alone and has its account; a
      generated credential if its settings and its account are fine and it has a
      password, old or new. */
  predicate ShouldBeReady(w: World, o: Object, m: Meets) {
    && !w.cfg.excluded && m.accountFound
    && match o.spec.passwordHash
       case Some(h) => h.Argon2id? && o.spec.secretName == "" && o.spec.rotation.None?
       case None =>
         && Configured(w.cfg, o.spec)
         && (|| (IsGenerated(o.status.current) && o.status.secretName != "")
             || (m.guardOK && m.succeeds && Writable(w, o)))
  }

  predicate ReadyRight(w: World, o: Object, m: Meets) {
    var st := Ends(w, o, m);
    && (st.ready <==> ShouldBeReady(w, o, m)) && st.username == w.cfg.username
    && st.serviceAccount == if st.ready then o.spec.serviceAccount else o.status.serviceAccount
  }

  lemma OwnHashReady(w: World, o: Object, m: Meets)
    requires w.cfg.excluded || !o.spec.Generated()
    ensures ReadyRight(w, o, m)
  {
    hide PlanGenerated, WriteAccepted, Configured;
  }

  /** The plan for a generated credential, one condition after the other. */
  lemma GeneratedPlan(w: World, o: Object, m: Meets)
    requires StatusOK(w.cfg, o.status) && !w.cfg.excluded && o.spec.Generated()
    ensures var plan := PlanFor(w.cfg, o, w.clock, m.accountFound, m.guardOK);
            var st := plan.status;
            && st.username == w.cfg.username && st.secretName == o.status.secretName
            && (st.current.Some? <==> IsGenerated(o.status.current))
            && (plan.Settle? ==>
                  && (st.ready <==>
                      && Configured(w.cfg, o.spec) && m.accountFound
                      && IsGenerated(o.status.current) && o.status.secretName != "")
                  && st.serviceAccount == if st.ready then o.spec.serviceAccount else o.status.serviceAccount)
            && (plan.Rotate? ==>
                  && Configured(w.cfg, o.spec) && m.accountFound && m.guardOK
                  && st.serviceAccount == o.status.serviceAccount)
            && (plan.Settle? && Configured(w.cfg, o.spec) && m.accountFound && m.guardOK ==>
                  IsGenerated(o.status.current) && o.status.secretName != "")
  {
    hide ParseRotation;
  }

  lemma GeneratedReady(w: World, o: Object, m: Meets)
    requires StatusOK(w.cfg, o.status) && !w.cfg.excluded && o.spec.Generated()
    ensures ReadyRight(w, o, m)
  {
    hide PlanFor, Configured, StatusOK;
    GeneratedPlan(w, o, m);
  }

  lemma EndsReady(w: World, o: Object, m: Meets)
    requires StatusOK(w.cfg, o.status)
    ensures ReadyRight(w, o, m)
  {
    hide ReadyRight, StatusOK;
    if w.cfg.excluded || !o.spec.Generated() { OwnHashReady(w, o, m); } else { GeneratedReady(w, o, m); }
  }

  lemma EndsOwnHash(w: World, o: Object, m: Meets)
    requires !o.spec.Generated() && !w.cfg.excluded
    ensures OwnHashKept(w, o, Ends(w, o, m))
  {
  }

  lemma ExcludedKeeps(w: World, o: Object, m: Meets)
    requires w.cfg.excluded
    ensures Ends(w, o, m) == o.status.(username := w.cfg.username, ready := false)
  {
  }

  /** What status says afterwards, from what was stored before and what the
      reconcile met. */
  predicate StatusAfter(w: World, o: Object, m: Meets, st: Status) {
    && (st.ready <==> ShouldBeReady(w, o, m)) && st.username == w.cfg.username
    && st.serviceAccount == (if st.ready then o.spec.serviceAccount else o.status.serviceAccount)
    && if w.cfg.excluded then st == o.status.(username := w.cfg.username, ready := false)
       else if !o.spec.Generated() then OwnHashKept(w, o, st)
       else if Written(w, o, m) then Replaced(o, st, m.password, w.clock)
       else Kept(w, o, st, m.accountFound)
  }

  lemma EndsInStatus(w: World, o: Object, m: Meets)
    requires StatusOK(w.cfg, o.status)
    ensures StatusAfter(w, o, m, Ends(w, o, m))
  {
    hide Tries, Ends, StatusOK, Configured, UpToDate, Replaced, WriteAccepted, ShouldBeReady, Kept, OwnHashKept;
    TriesExactly(w, o, m);
    EndsReady(w, o, m);
    if w.cfg.excluded {
      ExcludedKeeps(w, o, m);
    } else if !o.spec.Generated() {
      EndsOwnHash(w, o, m);
    } else if Writes(w, o, m) {
      WritesReplace(w, o, m);
    } else {
      KeepsPassword(w, o, m);
    }
  }

  /** Over every run: that is what is stored after a reconcile on the newest version,
      field by field. */
  lemma StatusExactly(cfg: Config, events: seq<Event>, o: Object, m: Meets)
    requires var w := Run(cfg, events); w.job.Idle? && w.api == Some(o) && m.password !in w.issued
    ensures var w, w' := Run(cfg, events), Run(cfg, events + Reconciling(o, m));
            && w'.api.Some? && w'.api.value.spec == o.spec && w'.api.value.uid == o.uid
            && w'.api.value.rotate == o.rotate && w'.clock == w.clock && StatusAfter(w, o, m, w'.api.value.status)
  {
    RunsKeepInv(cfg, events);
    RunReconcile(cfg, events, o, m);
    hide Run, After, Tries, Ends, StatusOK, StatusAfter, Inv, Writes;
    var w := Run(cfg, events);
    StatusOfNewest(w, o);
    EndsIn(w, o, m);
    EndsInStatus(w, o, m);
  }

  /** So where everything works, the password in status is up to date afterwards. */
  lemma WorkingReconcileRenews(cfg: Config, events: seq<Event>, o: Object, m: Meets)
    requires var w := Run(cfg, events);
             && w.job.Idle? && w.api == Some(o) && m.password !in w.issued
             && Configured(w.cfg, o.spec) && m.accountFound && m.guardOK && m.succeeds && Writable(w, o)
    ensures var w, w' := Run(cfg, events), Run(cfg, events + Reconciling(o, m));
            && w'.api.Some? && UpToDate(w'.api.value, w.clock) && w'.api.value.status.ready
            && (UpToDate(o, w.clock) ==> w'.issued == w.issued)
  {
    StatusExactly(cfg, events, o, m);
    PasswordWrittenExactly(cfg, events, o, m);
    hide Run, Writable;
  }

  // In time.

  /** A password that is up to date becomes due by time alone no earlier than a
      second before the announced look. */
  lemma DueOnlyWhenAnnounced(o: Object, now: Time, later: Time)
    requires ParseRotation(o.spec.rotation).Timing? && UpToDate(o, now) && now <= later && !UpToDate(o, later)
    ensures var next := NextEvent(o.status, now, ParseRotation(o.spec.rotation).interval);
            next > 0 && now + next <= later + SECOND
  {
    hide ParseRotation, NextEvent;
    var interval := ParseRotation(o.spec.rotation).interval;
    NextEventInTime(o.status, now, interval);
    assert o.status.current.value.createdAt + interval in Changes(o.status, interval);
  }

  lemma ChangeIsDue(o: Object, now: Time)
    requires ParseRotation(o.spec.rotation).Timing?
    requires var next := NextEvent(o.status, now, ParseRotation(o.spec.rotation).interval); next > 0
    ensures var look := now + NextEvent(o.status, now, ParseRotation(o.spec.rotation).interval);
            !UpToDate(o, look) || (o.status.previous.Some? && look >= o.status.previous.value.validUntil)
  {
    hide ParseRotation, NextEvent;
    NextEventInTime(o.status, now, ParseRotation(o.spec.rotation).interval);
  }

  /** Over every run: a working reconcile at the announced time has something to do.
      It writes a new password, or a previous one has run out and goes. */
  lemma AnnouncedLookActs(cfg: Config, events: seq<Event>, o: Object, m: Meets, next: Time)
    requires var w := Run(cfg, events);
             && w.job.Idle? && w.api == Some(o) && m.password !in w.issued
             && Configured(w.cfg, o.spec) && m.accountFound && m.guardOK && m.succeeds && Writable(w, o)
             && next == NextEvent(o.status, w.clock, ParseRotation(o.spec.rotation).interval) > 0
    ensures var w := Run(cfg, events);
            var w' := Run(cfg, events + [Tick(w.clock + next)] + Reconciling(o, m));
            && w'.api.Some?
            && (|| w'.secrets == w.secrets[o.spec.secretName := Secret(o.uid, m.password)]
                || (o.status.previous.Some? && w'.api.value.status.previous.None?))
  {
    hide Run, NextEvent, ParseRotation, UpToDate, Replaced, ShouldBeReady;
    var w := Run(cfg, events);
    var ticked := events + [Tick(w.clock + next)];
    RunSnoc(cfg, events, Tick(w.clock + next));
    ChangeIsDue(o, w.clock);
    PasswordWrittenExactly(cfg, ticked, o, m);
    StatusExactly(cfg, ticked, o, m);
  }

  // Logins.

  /** All that a login can find is this version. */
  predicate OnlyFinds(objects: Objects, o: Object) { forall key | key in objects :: objects[key] == o }

  /** No password logs in on this version. */
  ghost predicate Barred(o: Object) {
    forall objects, username, password, now, verify | OnlyFinds(objects, o) ::
      Login(objects, username, password, now, verify).None?
  }

  lemma LoginAccepts(
    objects: Objects, o: Object, username: string, password: Password, now: Time, verify: (string, Password) -> bool)
    requires OnlyFinds(objects, o) && Login(objects, username, password, now, verify).Some?
    ensures Accepts(o, username, password, now, verify)
  {
    hide Login, Accepts;
    LoginExactly(objects, username, password, now, verify, "", "");
    var ns, n :| (ns, n) in objects && username == n + "." + ns && n != "" && ns != "" && '.' !in ns;
    LoginExactly(objects, username, password, now, verify, n, ns);
  }

  lemma NotReadyIsBarred(o: Object)
    requires !o.status.ready
    ensures Barred(o)
  {
    hide Login;
    forall objects, username, password, now, verify | OnlyFinds(objects, o)
      ensures Login(objects, username, password, now, verify).None?
    {
      if Login(objects, username, password, now, verify).Some? {
        LoginAccepts(objects, o, username, password, now, verify);
      }
    }
  }

  predicate Down(w: World) { w.api.Some? ==> !w.api.value.status.ready }

  /** Only a reconcile makes a credential ready. */
  lemma {:induction false} OutsideKeepsDown(cfg: Config, events: seq<Event>, more: seq<Event>)
    requires Down(Run(cfg, events)) && forall e | e in more :: Outside(e)
    ensures Down(Run(cfg, events + more))
  {
    if more == [] {
      assert events + more == events;
    } else {
      var front, e := more[..|more| - 1], more[|more| - 1];
      assert (events + more)[..|events + more| - 1] == events + front && e in more;
      OutsideKeepsDown(cfg, events, front);
      hide Step, Outside;
      OutsideStep(Run(cfg, events + front), e);
    }
  }

  /** Over every run: a reconcile that finds the namespace excluded, the account
      missing, the settings wrong or no password takes the credential down, and
      whatever happens outside the controller then, no login on the newest version
      succeeds. */
  lemma TakenDownBars(cfg: Config, events: seq<Event>, o: Object, m: Meets, more: seq<Event>)
    requires var w := Run(cfg, events);
             w.job.Idle? && w.api == Some(o) && m.password !in w.issued && !ShouldBeReady(w, o, m)
    requires forall e | e in more :: Outside(e)
    ensures var v := Run(cfg, events + Reconciling(o, m) + more); v.api.Some? ==> Barred(v.api.value)
  {
    hide Run, Outside, Barred, ShouldBeReady;
    StatusExactly(cfg, events, o, m);
    OutsideKeepsDown(cfg, events + Reconciling(o, m), more);
    var v := Run(cfg, events + Reconciling(o, m) + more);
    if v.api.Some? { NotReadyIsBarred(v.api.value); }
  }

  /** The edit changes who the credential authenticates as or with what. */
  predicate ChangesIdentity(o: Object, spec: Spec) {
    spec.serviceAccount != o.spec.serviceAccount || spec.passwordHash != o.spec.passwordHash
  }

  lemma EditedRefuses(
    cfg: Config, o: Object, o': Object, username: string, password: Password, now: Time,
    username': string, password': Password, now': Time, verify: (string, Password) -> bool,
    verify': (string, Password) -> bool)
    requires StatusOK(cfg, o.status) && o'.status == o.status && Accepts(o, username, password, now, verify)
    ensures ChangesIdentity(o, o'.spec) ==> !Accepts(o', username', password', now', verify')
  {
  }

  /** Over every run: after an edit of a credential that someone can log in with, no
      login on the newest version succeeds if it changes the account or the own hash,
      or switches between the modes; any other edit changes no login. */
  lemma EditBarsExactly(
    cfg: Config, events: seq<Event>, o: Object, spec: Spec, rotate: string,
    objects: Objects, username: string, password: Password, now: Time, verify: (string, Password) -> bool)
    requires Run(cfg, events).api == Some(o)
    requires OnlyFinds(objects, o) && Login(objects, username, password, now, verify).Some?
    ensures var v := Run(cfg, events + [Edit(spec, rotate)]);
            && v.api.Some? && v.api.value.spec == spec
            && (ChangesIdentity(o, spec) ==> Barred(v.api.value))
            && (!ChangesIdentity(o, spec) ==> SameLogins(o, v.api.value))
  {
    RunsKeepInv(cfg, events);
    RunSnoc(cfg, events, Edit(spec, rotate));
    LoginAccepts(objects, o, username, password, now, verify);
    var w, v := Run(cfg, events), Run(cfg, events + [Edit(spec, rotate)]);
    assert StatusOK(w.cfg, o.status);
    hide Run, Inv, Login, StatusOK;
    var o' := v.api.value;
    if ChangesIdentity(o, spec) {
      forall objects', u', p', t', verify' | OnlyFinds(objects', o')
        ensures Login(objects', u', p', t', verify').None?
      {
        if Login(objects', u', p', t', verify').Some? {
          LoginAccepts(objects', o', u', p', t', verify');
          EditedRefuses(w.cfg, o, o', username, password, now, u', p', t', verify, verify');
        }
      }
    } else {
      Unaffected(o, o');
    }
  }

  /** The two versions give the same answers under the same name. */
  ghost predicate SameLogins(o: Object, o': Object) {
    forall name, namespace, username, password, now, verify ::
      Login(map[(namespace, name) := o'], username, password, now, verify) ==
      Login(map[(namespace, name) := o], username, password, now, verify)
  }

  lemma Unaffected(o: Object, o': Object)
    requires o'.status == o.status && o'.uid == o.uid && !ChangesIdentity(o, o'.spec)
    ensures SameLogins(o, o')
  {
    hide ParseUsername;
  }
}
