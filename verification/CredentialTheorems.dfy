/** What the credential controller guarantees over every run. */
module CredentialTheorems {
  import opened Prelude
  import opened MailCredential
  import opened CredentialRuns

  /** The Secret is as the controller last wrote it. */
  predicate Untouched(w: World, name: string) {
    name in w.secrets && name in w.last && w.secrets[name] == w.last[name]
  }

  /** The password in the Secret that status names is the one whose hash status
      records. */
  predicate Matches(w: World)
    requires w.api.Some? && IsGenerated(w.api.value.status.current)
  {
    Agrees(w, w.secrets)
  }

  /** In every run, status and an untouched Secret agree exactly unless its
      newest password is one no status write recorded; and status and a recorded
      Secret exactly unless somebody else changed it. */
  lemma SecretMatchesExactly(cfg: Config, events: seq<Event>)
    ensures var w := Run(cfg, events);
            w.api.Some? && IsGenerated(w.api.value.status.current) ==>
              var name := w.api.value.status.secretName;
              && (Untouched(w, name) ==> (Matches(w) <==> name !in w.unrecorded))
              && (name !in w.unrecorded ==> (Matches(w) <==> Untouched(w, name)))
  {
    RunsKeepInv(cfg, events);
    hide Run, HistoryOK, JobOK;
  }

  /** A reconcile whose status write lands after a password write leaves them
      in agreement, whatever was lost before, exactly unless somebody else has
      changed the Secret since. */
  lemma LandedWriteMatches(cfg: Config, events: seq<Event>, reported: bool)
    requires var w := Run(cfg, events); w.job.Report? && w.job.written.Some? && Lands(w, w.job.mc, true)
    ensures var w, w' := Run(cfg, events), Step(Run(cfg, events), StatusWrite(true, reported));
            && w'.api.Some? && IsGenerated(w'.api.value.status.current)
            && (Matches(w') <==> Untouched(w, w.job.written.value))
  {
    RunsKeepInv(cfg, events);
    StatusWriteKeeps(Run(cfg, events), true, reported);
    hide Run;
  }

  /** A password write whose status write is given up on. */
  predicate Loses(w: World, e: Event) {
    && (w.job.Report? || w.job.Retry?) && w.job.written.Some?
    && Step(w, e).job.Idle? && w.job.written.value in Step(w, e).unrecorded
  }

  predicate LosesNothing(cfg: Config, events: seq<Event>) {
    events != [] ==>
      LosesNothing(cfg, events[..|events| - 1]) && !Loses(Run(cfg, events[..|events| - 1]), events[|events| - 1])
  }

  /** The Secret whose password waits for its status write, if any. */
  function Pending(w: World): set<string> {
    if (w.job.Report? || w.job.Retry?) && w.job.written.Some? then {w.job.written.value} else {}
  }

  lemma StepPending(w: World, e: Event)
    requires w.unrecorded <= Pending(w) && !Loses(w, e)
    ensures Step(w, e).unrecorded <= Pending(Step(w, e))
  {
    hide PlanFor, LooksDue, WriteDone, WriteFailed, HeldByApi;
    match e
    case WriteSecret(_, _) =>
    case StatusWrite(_, _) =>
    case _ =>
  }

  lemma {:induction false} OnlyPendingUnrecorded(cfg: Config, events: seq<Event>)
    requires LosesNothing(cfg, events)
    ensures Run(cfg, events).unrecorded <= Pending(Run(cfg, events))
  {
    if events != [] {
      hide Step, Loses, Pending;
      OnlyPendingUnrecorded(cfg, events[..|events| - 1]);
      StepPending(Run(cfg, events[..|events| - 1]), events[|events| - 1]);
    } else {
      hide Pending;
    }
  }

  /** So while no status write is lost, every reconcile ends with the hash in
      status being that of the password in the Secret, exactly unless somebody
      else has changed it. */
  lemma AlwaysMatches(cfg: Config, events: seq<Event>)
    requires LosesNothing(cfg, events)
    ensures var w := Run(cfg, events);
            w.job.Idle? && w.api.Some? && IsGenerated(w.api.value.status.current) ==>
              (Matches(w) <==> Untouched(w, w.api.value.status.secretName))
  {
    OnlyPendingUnrecorded(cfg, events);
    SecretMatchesExactly(cfg, events);
    hide Run, Matches, LosesNothing;
  }

  /** Every Secret write is decided on a fresh read: the status it starts from
      is the one the API server still holds. */
  lemma WritesDecidedOnFreshRead(cfg: Config, events: seq<Event>)
    ensures var w := Run(cfg, events);
            w.job.Write? && Live(w, w.job.mc) ==> w.api.value.status == w.job.mc.status
  {
    RunsKeepInv(cfg, events);
  }

  // Passwords that are gone.

  /** Status only ever loses passwords to `retired`, and `retired` only grows. */
  lemma StepRetires(w: World, e: Event)
    ensures w.retired <= Step(w, e).retired
    ensures HeldByApi(w) <= HeldByApi(Step(w, e)) + Step(w, e).retired
  {
    hide PlanFor, LooksDue, WriteDone, WriteFailed, Held, WriteAccepted;
  }

  lemma {:induction false} RunRetires(cfg: Config, events: seq<Event>, more: seq<Event>)
    ensures Run(cfg, events).retired <= Run(cfg, events + more).retired
    ensures HeldByApi(Run(cfg, events)) <= HeldByApi(Run(cfg, events + more)) + Run(cfg, events + more).retired
  {
    if more == [] {
      assert events + more == events;
    } else {
      var front := more[..|more| - 1];
      assert (events + more)[..|events + more| - 1] == events + front;
      RunRetires(cfg, events, front);
      StepRetires(Run(cfg, events + front), more[|more| - 1]);
      hide Step;
    }
  }

  /** A generated password whose hash has left status never returns to it. */
  lemma NeverReturns(cfg: Config, before: seq<Event>, between: seq<Event>, after: seq<Event>, password: Password)
    requires password in HeldByApi(Run(cfg, before))
    requires password !in HeldByApi(Run(cfg, before + between))
    ensures password !in HeldByApi(Run(cfg, before + between + after))
  {
    RunRetires(cfg, before, between);
    RunRetires(cfg, before + between, after);
    RunsKeepInv(cfg, before + between + after);
  }

  /** Every stored version's passwords are in status or retired. */
  ghost predicate Accounted(w: World) {
    forall o | o in w.history :: Held(o.status) <= HeldByApi(w) + w.retired
  }

  /** What a step adds to the stored versions is the object itself. */
  lemma StepStores(w: World, e: Event)
    ensures forall o | o in Step(w, e).history :: o in w.history || Step(w, e).api == Some(o)
  {
    hide PlanFor, LooksDue, WriteDone, WriteFailed, Held;
  }

  lemma {:induction false} RunsAccount(cfg: Config, events: seq<Event>)
    ensures Accounted(Run(cfg, events))
  {
    if events != [] {
      hide Step, Held;
      var w, e := Run(cfg, events[..|events| - 1]), events[|events| - 1];
      RunsAccount(cfg, events[..|events| - 1]);
      StepRetires(w, e);
      StepStores(w, e);
    }
  }

  /** A password that any stored version holds is retired exactly if the API
      server's status holds it no more, deletion included. */
  lemma RetiredExactly(cfg: Config, events: seq<Event>, o: Object, password: Password)
    requires o in Run(cfg, events).history && password in Held(o.status)
    ensures password in Run(cfg, events).retired <==> password !in HeldByApi(Run(cfg, events))
  {
    RunsAccount(cfg, events);
    RunsKeepInv(cfg, events);
    hide Run, Held, HistoryOK, Synced, JobOK;
  }

  // Failed rotations.

  /** A rotation that is due but fails, whether for the guard, a foreign Secret
      or a write error, leaves both hashes as they were (an expired previous
      one aside) and a usable credential ready. */
  lemma FailedRotationKeepsCredential(cfg: Config, mc: Object, now: Time)
    requires Configured(cfg, mc.spec) && IsGenerated(mc.status.current) && mc.status.secretName != ""
    requires LooksDue(mc, now)
    ensures PlanFor(cfg, mc, now, true, true).Rotate? && PlanFor(cfg, mc, now, true, false).Settle?
    ensures forall st | st in {PlanFor(cfg, mc, now, true, false).status,
                               WriteFailed(PlanFor(cfg, mc, now, true, true).status, mc.spec)} ::
              && st.ready && st.current == mc.status.current && st.secretName == mc.status.secretName
              && (st.previous == mc.status.previous ||
                  (st.previous.None? && now >= mc.status.previous.value.validUntil))
  {
  }

  /** Events outside the controller's own reconcile. */
  predicate Outside(e: Event) { e.Tick? || e.CreateObject? || e.Edit? || e.Delete? || e.EditSecret? }

  /** They leave the job as it is, and status too, unless the object is a new one. */
  lemma OutsideStep(w: World, e: Event)
    requires Outside(e)
    ensures var w' := Step(w, e);
            && w'.job == w.job
            && (w'.api.Some? ==>
                  w'.api.value.status == NO_STATUS || (w.api.Some? && w'.api.value.status == w.api.value.status))
  {
    hide StepDecide, StepWriteSecret, StepStatusWrite, LooksDue, HeldByApi, Held;
  }

  lemma {:induction false} OutsideKeepsJob(cfg: Config, events: seq<Event>, more: seq<Event>)
    requires forall e | e in more :: Outside(e)
    ensures Run(cfg, events + more).job == Run(cfg, events).job
  {
    if more == [] {
      assert events + more == events;
    } else {
      var front, e := more[..|more| - 1], more[|more| - 1];
      assert (events + more)[..|events + more| - 1] == events + front && e in more;
      OutsideKeepsJob(cfg, events, front);
      hide Step, Outside;
      OutsideStep(Run(cfg, events + front), e);
    }
  }

  /** The hashes of a status that still has its current one; an expired previous
      one may go. */
  predicate KeepsHashes(was: Status, st: Status, now: Time) {
    && st.current == was.current && st.secretName == was.secretName
    && (st.previous == was.previous || (st.previous.None? && now >= was.previous.value.validUntil))
  }

  /** A planned rotation starts from the status as it is. */
  ghost predicate WriteInv(w: World) {
    w.job.Write? && IsGenerated(w.job.mc.status.current) ==> KeepsHashes(w.job.mc.status, w.job.status, w.job.now)
  }

  lemma PlanKeepsHashes(cfg: Config, mc: Object, now: Time, accountFound: bool, guardOK: bool)
    requires IsGenerated(mc.status.current)
    ensures var plan := PlanFor(cfg, mc, now, accountFound, guardOK);
            plan.Rotate? ==> KeepsHashes(mc.status, plan.status, now)
  {
  }

  lemma {:induction false} RunsKeepWriteInv(cfg: Config, events: seq<Event>)
    ensures WriteInv(Run(cfg, events))
  {
    hide PlanFor, LooksDue, WriteDone, WriteFailed, KeepsHashes, HeldByApi, WriteAccepted, Lands;
    if events != [] {
      var w, e := Run(cfg, events[..|events| - 1]), events[|events| - 1];
      RunsKeepWriteInv(cfg, events[..|events| - 1]);
      if e.Decide? && w.job.Loaded? && IsGenerated(w.job.mc.status.current) {
        PlanKeepsHashes(w.cfg, w.job.mc, w.job.now, e.accountFound, e.guardOK);
      }
    }
  }

  /** A rotation fails: the guard is down when one is due, or the Secret is
      foreign or cannot be written. */
  predicate Fails(w: World, e: Event) {
    || (w.job.Write? && e.WriteSecret? && e.password !in w.issued && !(e.succeeds && WriteAccepted(w, w.job.mc)))
    || (w.job.Loaded? && e.Decide? && e.accountFound && !e.guardOK
        && Configured(w.cfg, w.job.mc.spec) && LooksDue(w.job.mc, w.job.now))
  }

  lemma FailureReports(w: World, e: Event)
    requires Fails(w, e) && WriteInv(w) && Step(w, e).job.Report?
    requires IsGenerated(w.job.mc.status.current) && w.job.mc.status.secretName != ""
    ensures var job := Step(w, e).job;
            && job.mc == w.job.mc && job.written.None? && job.status.ready
            && KeepsHashes(w.job.mc.status, job.status, w.job.now)
  {
    if w.job.Loaded? { FailedRotationKeepsCredential(w.cfg, w.job.mc, w.job.now); }
    hide PlanFor, LooksDue;
  }

  /** Over every run: if a rotation of an issued credential fails, then whatever
      happens before its status write, once that lands the object is ready with
      the hash and the Secret it had, an expired previous hash aside. */
  lemma FailedRotationLands(cfg: Config, events: seq<Event>, e: Event, more: seq<Event>, reported: bool)
    requires var w := Run(cfg, events);
             && Fails(w, e) && IsGenerated(w.job.mc.status.current) && w.job.mc.status.secretName != ""
    requires forall x | x in more :: Outside(x)
    requires var v := Run(cfg, events + [e] + more); v.job.Report? && Lands(v, v.job.mc, true)
    ensures var w, v := Run(cfg, events), Run(cfg, events + [e] + more);
            var v' := Step(v, StatusWrite(true, reported));
            && v.api.Some? && v'.api.Some?
            && v'.api.value.status.ready && KeepsHashes(v.api.value.status, v'.api.value.status, w.job.now)
  {
    RunsKeepWriteInv(cfg, events);
    RunsKeepInv(cfg, events + [e] + more);
    RunSnoc(cfg, events, e);
    OutsideKeepsJob(cfg, events + [e], more);
    hide Run, Step, Fails, WriteInv, KeepsHashes, Synced, PasswordsOK;
    FailureReports(Run(cfg, events), e);
    LandedStatus(Run(cfg, events + [e] + more), reported);
  }

  /** A status write after a password write that does not land, or is not known to have
      landed, is tried again on the newest version: whatever happened in between, if the object is still the same
      one, the next write records the password. */
  lemma RetryRecords(cfg: Config, events: seq<Event>, reaches: bool, reported: bool, more: seq<Event>)
    requires var w := Run(cfg, events);
             w.job.Report? && w.job.written.Some? && !(Lands(w, w.job.mc, reaches) && reported)
    requires forall x | x in more :: Outside(x)
    requires var w, v := Run(cfg, events), Run(cfg, events + [StatusWrite(reaches, reported)] + more);
             Live(v, w.job.mc)
    ensures var w := Run(cfg, events);
            var waits := events + [StatusWrite(reaches, reported)] + more;
            var v := Run(cfg, waits + [ReadLatest] + [StatusWrite(true, true)]);
            && Run(cfg, waits).job.Retry? && v.job.Idle? && v.api.Some?
            && v.api.value.uid == w.job.mc.uid && v.api.value.status == w.job.status
            && w.job.written.value !in v.unrecorded
  {
    var failed := events + [StatusWrite(reaches, reported)];
    RunSnoc(cfg, events, StatusWrite(reaches, reported));
    OutsideKeepsJob(cfg, failed, more);
    RunSnoc(cfg, failed + more, ReadLatest);
    RunSnoc(cfg, failed + more + [ReadLatest], StatusWrite(true, true));
    hide Run, Outside;
    Retried(Run(cfg, events), Run(cfg, failed + more), reaches, reported);
  }

  lemma Retried(w: World, v: World, reaches: bool, reported: bool)
    requires w.job.Report? && w.job.written.Some? && !(Lands(w, w.job.mc, reaches) && reported) && Live(v, w.job.mc)
    requires v.job == Step(w, StatusWrite(reaches, reported)).job
    ensures var u := Step(Step(v, ReadLatest), StatusWrite(true, true));
            && v.job.Retry? && u.job.Idle? && u.api.Some?
            && u.api.value.uid == w.job.mc.uid && u.api.value.status == w.job.status
            && w.job.written.value !in u.unrecorded
  {
    hide Held;
  }

  lemma LandedStatus(v: World, reported: bool)
    requires HistoryOK(v) && v.job.Report? && v.job.mc in v.history && Lands(v, v.job.mc, true)
    ensures var v' := Step(v, StatusWrite(true, reported));
            v.api == Some(v.job.mc) && v'.api.Some? && v'.api.value.status == v.job.status
  {
  }

  // The grace period.

  predicate HasGrace(spec: Spec, grace: Time) {
    var t := ParseRotation(spec.rotation); t.Timing? && t.grace == grace
  }

  /** A previous hash runs out a configured grace period after the current one
      was issued. */
  ghost predicate GraceFrom(history: set<Object>, st: Status) {
    st.previous.Some? ==>
      && st.current.Some?
      && exists o | o in history :: HasGrace(o.spec, st.previous.value.validUntil - st.current.value.createdAt)
  }

  /** A kept previous hash stays with its current one. */
  predicate PairKept(was: Status, st: Status) {
    st.previous.Some? ==> st.previous == was.previous && st.current == was.current
  }

  ghost predicate GraceInv(w: World) {
    && (forall o | o in w.history :: GraceFrom(w.history, o.status))
    && (w.api.Some? ==> w.api.value in w.history)
    && match w.job
       case Loaded(mc, _, _) => mc in w.history
       case Write(mc, _, status, grace) => mc in w.history && PairKept(mc.status, status) && HasGrace(mc.spec, grace)
       case Report(mc, status, _) => GraceFrom(w.history, status)
       case Retry(mc, status, _) => GraceFrom(w.history, status)
       case _ => true
  }

  lemma GraceFromGrows(history: set<Object>, more: set<Object>, st: Status)
    requires GraceFrom(history, st) && history <= more
    ensures GraceFrom(more, st)
  {
  }

  lemma StoreKeepsGrace(w: World, o: Object)
    requires GraceInv(w) && GraceFrom(w.history, o.status)
    ensures GraceInv(Store(w, o))
  {
    var w' := Store(w, o);
    forall p | p in w'.history ensures GraceFrom(w'.history, p.status) {
      GraceFromGrows(w.history, w'.history, p.status);
    }
    if w.job.Report? || w.job.Retry? { GraceFromGrows(w.history, w'.history, w.job.status); }
  }

  lemma PlanKeepsPair(cfg: Config, mc: Object, now: Time, accountFound: bool, guardOK: bool)
    ensures var plan := PlanFor(cfg, mc, now, accountFound, guardOK);
            PairKept(mc.status, plan.status) && (plan.Rotate? ==> HasGrace(mc.spec, plan.grace))
  {
  }

  lemma WriteSecretKeepsGrace(w: World, password: Password, succeeds: bool)
    requires GraceInv(w) && w.job.Write?
    ensures GraceInv(StepWriteSecret(w, password, succeeds))
  {
    var Write(mc, now, status, grace) := w.job;
    assert GraceFrom(w.history, mc.status);
    assert GraceFrom(w.history, WriteDone(status, mc, password, now, grace));
  }

  /** Nothing but the job, the clock, the settings and the Secrets changes. */
  lemma GraceFrame(w: World, w': World)
    requires GraceInv(w) && w'.history == w.history && (w'.api.Some? ==> w'.api == w.api)
    requires w'.job == w.job || w'.job.Idle? || w'.job.Refetch?
    ensures GraceInv(w')
  {
    hide GraceFrom;
  }

  lemma DecideKeepsGrace(w: World, accountFound: bool, guardOK: bool, otherChange: bool)
    requires GraceInv(w) && w.job.Loaded?
    ensures GraceInv(StepDecide(w, accountFound, guardOK, otherChange))
  {
    hide PlanFor;
    PlanKeepsPair(w.cfg, w.job.mc, w.job.now, accountFound, guardOK);
    assert GraceFrom(w.history, w.job.mc.status);
  }

  lemma StatusWriteKeepsGrace(w: World, reaches: bool, reported: bool)
    requires GraceInv(w) && w.job.Report?
    ensures GraceInv(StepStatusWrite(w, reaches, reported))
  {
    if Lands(w, w.job.mc, reaches) {
      StoreKeepsGrace(w, w.api.value.(status := w.job.status));
      JobKeepsGrace(Store(w, w.api.value.(status := w.job.status)), StepStatusWrite(w, reaches, reported));
    } else {
      JobKeepsGrace(w, StepStatusWrite(w, reaches, reported));
    }
  }

  /** A report that is retried or done is no other report. */
  lemma JobKeepsGrace(w: World, w': World)
    requires GraceInv(w) && w.job.Report? && w'.history == w.history && w'.api == w.api
    requires w'.job.Idle? || w'.job == Retry(w.job.mc, w.job.status, w.job.written)
    ensures GraceInv(w')
  {
    hide GraceFrom;
  }

  lemma ReadsKeepGrace(w: World, e: Event)
    requires GraceInv(w) && (e.Begin? || e.FreshRead? || e.ReadLatest?)
    ensures GraceInv(Step(w, e))
  {
    hide GraceFrom, LooksDue;
  }

  lemma StepKeepsGrace(w: World, e: Event)
    requires GraceInv(w)
    ensures GraceInv(Step(w, e))
  {
    hide GraceInv, StepDecide, StepWriteSecret, StepStatusWrite;
    match e
    case CreateObject(spec, rotate) => CreateKeepsGrace(w, spec, rotate);
    case Edit(spec, rotate) => EditKeepsGrace(w, spec, rotate);
    case StatusWrite(reaches, reported) => if w.job.Report? { StatusWriteKeepsGrace(w, reaches, reported); }
    case WriteSecret(p, s) => if w.job.Write? { WriteSecretKeepsGrace(w, p, s); }
    case Decide(a, g, o) => if w.job.Loaded? { DecideKeepsGrace(w, a, g, o); }
    case Begin(_) => ReadsKeepGrace(w, e);
    case FreshRead => ReadsKeepGrace(w, e);
    case ReadLatest => ReadsKeepGrace(w, e);
    case _ => GraceFrame(w, Step(w, e));
  }

  lemma CreateKeepsGrace(w: World, spec: Spec, rotate: string)
    requires GraceInv(w)
    ensures GraceInv(Step(w, CreateObject(spec, rotate)))
  {
    if w.api.None? {
      var w' := Store(w, Object(w.nextUid, 0, spec, rotate, NO_STATUS));
      StoreKeepsGrace(w, Object(w.nextUid, 0, spec, rotate, NO_STATUS));
      GraceFrame(w', Step(w, CreateObject(spec, rotate)));
    }
  }

  lemma EditKeepsGrace(w: World, spec: Spec, rotate: string)
    requires GraceInv(w)
    ensures GraceInv(Step(w, Edit(spec, rotate)))
  {
    if w.api.Some? {
      assert GraceFrom(w.history, w.api.value.status);
      StoreKeepsGrace(w, w.api.value.(spec := spec, rotate := rotate));
    }
  }

  lemma {:induction false} RunsKeepGrace(cfg: Config, events: seq<Event>)
    ensures GraceInv(Run(cfg, events))
  {
    if events != [] {
      hide GraceInv, Step;
      RunsKeepGrace(cfg, events[..|events| - 1]);
      StepKeepsGrace(Run(cfg, events[..|events| - 1]), events[|events| - 1]);
    }
  }

  // What losing a status write costs.

  lemma RunSnoc(cfg: Config, events: seq<Event>, e: Event)
    ensures Run(cfg, events + [e]) == Step(Run(cfg, events), e)
  {
    assert (events + [e])[..|events + [e]| - 1] == events;
  }

  const CFG := Config("app.ns", false, true, true)
  const APP := Spec("app", "app-smtp", None, None)

  /** One reconcile on the object's current version, up to the password. */
  lemma Rotates(cfg: Config, events: seq<Event>, password: Password) returns (more: seq<Event>)
    requires var w := Run(cfg, events);
             && w.job.Idle? && w.api.Some? && w.api.value in w.history && LooksDue(w.api.value, w.clock)
             && Configured(cfg, w.api.value.spec) && w.cfg == cfg && password !in w.issued
             && WriteAccepted(w, w.api.value)
             && (w.api.value.status.current.Some? ==> IsGenerated(w.api.value.status.current))
    ensures var w, w' := Run(cfg, events), Run(cfg, more);
            var mc := w.api.value;
            && w' == w.(issued := w.issued + {password},
                        secrets := w.secrets[mc.spec.secretName := Secret(mc.uid, password)],
                        last := w.last[mc.spec.secretName := Secret(mc.uid, password)],
                        unrecorded := w.unrecorded + {mc.spec.secretName},
                        job := w'.job)
            && w'.job.Report? && w'.job.mc == mc && w'.job.written == Some(mc.spec.secretName)
            && w'.job.status.ready && w'.job.status.current == Some(Current(Sha256(password), w.clock))
            && w'.job.status.secretName == mc.spec.secretName && w'.job.status.lastRotateRequest == mc.rotate
            && w'.job.status.serviceAccount == mc.spec.serviceAccount && w'.job.status.username == cfg.username
  {
    hide Run, Held;
    var mc := Run(cfg, events).api.value;
    var es := [Begin(mc), FreshRead, Decide(true, true, false), WriteSecret(password, true)];
    RunSnoc(cfg, events, es[0]);
    RunSnoc(cfg, events + [es[0]], es[1]);
    RunSnoc(cfg, events + [es[0]] + [es[1]], es[2]);
    RunSnoc(cfg, events + [es[0]] + [es[1]] + [es[2]], es[3]);
    more := events + [es[0]] + [es[1]] + [es[2]] + [es[3]];
  }

  lemma FirstIssued() returns (events: seq<Event>)
    ensures var w := Run(CFG, events);
            && w.cfg == CFG && w.job.Idle? && w.api.Some? && w.api.value in w.history && w.clock == 0
            && w.api.value == Object(1, 1, APP, "", w.api.value.status)
            && w.secrets == map["app-smtp" := Secret(1, "first")] && w.issued == {"first"}
            && w.unrecorded == {}
            && var st := w.api.value.status;
               && st.ready && st.secretName == "app-smtp" && st.lastRotateRequest == ""
               && st.current == Some(Current(Sha256("first"), 0))
               && st.serviceAccount == "app" && st.username == "app.ns"
  {
    var created := [CreateObject(APP, "")];
    RunSnoc(CFG, [], created[0]);
    assert [] + [created[0]] == created;
    assert Run(CFG, created).api == Some(Object(1, 0, APP, "", NO_STATUS));
    var written := Rotates(CFG, created, "first");
    RunSnoc(CFG, written, StatusWrite(true, true));
    events := written + [StatusWrite(true, true)];
  }

  /** Recording every password is what the agreement rests on: after a lost
      status write and a withdrawn rotation request, a ready credential is left
      whose Secret holds another password, and nothing looks due any more. */
  lemma LostWriteMismatch() returns (events: seq<Event>)
    ensures var w := Run(CFG, events);
            && w.job.Idle? && w.api.Some? && w.api.value.status.ready && !LooksDue(w.api.value, w.clock)
            && IsGenerated(w.api.value.status.current) && Untouched(w, w.api.value.status.secretName) && !Matches(w)
  {
    hide Run, PlanFor, Held, WriteDone, WriteFailed;
    var issued := FirstIssued();
    RunSnoc(CFG, issued, Edit(APP, "now"));
    var written := Rotates(CFG, issued + [Edit(APP, "now")], "second");
    RunSnoc(CFG, written, Abandon);
    RunSnoc(CFG, written + [Abandon], Edit(APP, ""));
    events := written + [Abandon] + [Edit(APP, "")];
  }

  /** Nor is a Secret repaired that somebody else deletes. */
  lemma EditedSecretMismatch() returns (events: seq<Event>)
    ensures var w := Run(CFG, events);
            && w.job.Idle? && w.api.Some? && w.api.value.status.ready && !LooksDue(w.api.value, w.clock)
            && IsGenerated(w.api.value.status.current) && w.unrecorded == {} && !Matches(w)
  {
    hide Run;
    var issued := FirstIssued();
    RunSnoc(CFG, issued, EditSecret("app-smtp", None));
    events := issued + [EditSecret("app-smtp", None)];
  }
}
