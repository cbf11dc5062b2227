/** Every run of the credential controller against the API server: reconciles
    on stale copies, spec edits, deletion and re-creation, guard outages,
    foreign Secrets, Secrets that others edit or delete, lost and retried status
    writes, crashes, and restarts of the controller with other settings. */
module CredentialRuns {
  import opened Prelude
  import opened MailCredential

  /** A Secret and the UID of the object it was written for (a UID nobody has,
      for a Secret the controller never wrote). */
  datatype Secret = Secret(owner: nat, password: Password)

  /** The reconcile in progress; there is at most one for a credential. */
  datatype Job =
    | Idle
    /** The cached copy looked due: it must be read again. */
    | Refetch(now: Time)
    | Loaded(mc: Object, now: Time, reread: bool)
    | Write(mc: Object, now: Time, status: Status, grace: Time)
    /** `written` names the Secret that received a new password. */
    | Report(mc: Object, status: Status, written: Option<string>)
    | Retry(mc: Object, status: Status, written: Option<string>)

  datatype World = World(
    cfg: Config,
    api: Option<Object>,
    history: set<Object>,        // every version ever stored; caches may serve any
    nextVersion: nat,
    nextUid: nat,
    secrets: map<string, Secret>,
    last: map<string, Secret>,   // what the controller itself last wrote under each name
    clock: Time,
    issued: set<Password>,       // every password generated so far
    unrecorded: set<string>,     // Secrets whose newest password is not in status (yet)
    retired: set<Password>,      // passwords that status held once and no longer holds
    job: Job)

  datatype Event =
    | Tick(clock: Time)
    | CreateObject(spec: Spec, rotate: string)
    | Edit(spec: Spec, rotate: string)
    | Delete
    | EditSecret(name: string, secret: Option<Secret>) // by anybody else, deletion included
    | Begin(cached: Object)
    | FreshRead
    | Decide(accountFound: bool, guardOK: bool, otherChange: bool)
    | WriteSecret(password: Password, succeeds: bool)
    | StatusWrite(reaches: bool, reported: bool)
    | ReadLatest
    | Abandon // an error return, retries used up, or a crash
    | Restart(excluded: bool, generatedEnabled: bool) // of the controller, with other settings

  function Init(cfg: Config): World {
    World(cfg, None, {}, 0, 1, map[], map[], 0, {}, {}, {}, Idle)
  }

  /** The generated passwords a status holds. */
  function Held(st: Status): set<Password> {
    (if st.current.Some? && st.current.value.hash.Sha256? then {st.current.value.hash.password} else {}) +
    (if st.previous.Some? && st.previous.value.hash.Sha256? then {st.previous.value.hash.password} else {})
  }

  function HeldByApi(w: World): set<Password> { if w.api.Some? then Held(w.api.value.status) else {} }

  /** Stores a new version of the object. */
  function Store(w: World, o: Object): World {
    var v := o.(version := w.nextVersion);
    w.(api := Some(v), history := w.history + {v}, nextVersion := w.nextVersion + 1,
       retired := w.retired + (HeldByApi(w) - Held(o.status)))
  }

  /** What writeSecret does: create, or patch a Secret of this very object. */
  predicate WriteAccepted(w: World, mc: Object) {
    mc.spec.secretName !in w.secrets || w.secrets[mc.spec.secretName].owner == mc.uid
  }

  function StepWriteSecret(w: World, password: Password, succeeds: bool): World
    requires w.job.Write?
  {
    var Write(mc, now, status, grace) := w.job;
    var issued := w.(issued := w.issued + {password});
    var name := mc.spec.secretName;
    if succeeds && WriteAccepted(w, mc) then
      issued.(secrets := w.secrets[name := Secret(mc.uid, password)],
              last := w.last[name := Secret(mc.uid, password)],
              unrecorded := w.unrecorded + {name},
              job := Report(mc, WriteDone(status, mc, password, now, grace), Some(name)))
    else
      issued.(job := Report(mc, WriteFailed(status, mc.spec), None))
  }

  /** A status update lands only on the version it was computed from. */
  predicate Lands(w: World, mc: Object, reaches: bool) {
    reaches && w.api.Some? && w.api.value.version == mc.version
  }

  function StepStatusWrite(w: World, reaches: bool, reported: bool): World
    requires w.job.Report?
  {
    var Report(mc, status, written) := w.job;
    var lands := Lands(w, mc, reaches);
    var stored := if lands then Store(w, w.api.value.(status := status)) else w;
    var left := if lands && written.Some? then w.unrecorded - {written.value} else w.unrecorded;
    var recorded := stored.(unrecorded := left);
    recorded.(job := if (lands && reported) || written.None? then Idle else Retry(mc, status, written))
  }

  function StepDecide(w: World, accountFound: bool, guardOK: bool, otherChange: bool): World
    requires w.job.Loaded?
  {
    match PlanFor(w.cfg, w.job.mc, w.job.now, accountFound, guardOK)
    case Settle(st) =>
      // An unchanged status is not written; other status fields may change it.
      w.(job := if st != w.job.mc.status || otherChange then Report(w.job.mc, st, None) else Idle)
    case Rotate(st, grace) => w.(job := Write(w.job.mc, w.job.now, st, grace))
  }

  /** Events that are not enabled leave the world as it is. */
  function Step(w: World, e: Event): World {
    match e
    case Tick(clock) => if clock >= w.clock then w.(clock := clock) else w
    case CreateObject(spec, rotate) =>
      if w.api.Some? then w
      else Store(w, Object(w.nextUid, 0, spec, rotate, NO_STATUS)).(nextUid := w.nextUid + 1)
    case Edit(spec, rotate) =>
      if w.api.None? then w else Store(w, w.api.value.(spec := spec, rotate := rotate))
    case Delete => w.(api := None, retired := w.retired + HeldByApi(w))
    case EditSecret(name, secret) =>
      w.(secrets := if secret.Some? then w.secrets[name := secret.value] else w.secrets - {name})
    case Begin(cached) =>
      if !w.job.Idle? || cached !in w.history then w
      else if LooksDue(cached, w.clock) then w.(job := Refetch(w.clock))
      else w.(job := Loaded(cached, w.clock, false))
    case FreshRead =>
      if !w.job.Refetch? then w
      else w.(job := if w.api.Some? then Loaded(w.api.value, w.job.now, true) else Idle)
    case Decide(accountFound, guardOK, otherChange) =>
      if !w.job.Loaded? then w else StepDecide(w, accountFound, guardOK, otherChange)
    case WriteSecret(password, succeeds) =>
      if !w.job.Write? || password in w.issued then w else StepWriteSecret(w, password, succeeds)
    case StatusWrite(reaches, reported) =>
      if !w.job.Report? then w else StepStatusWrite(w, reaches, reported)
    case ReadLatest =>
      if !w.job.Retry? then w
      else if w.api.None? || w.api.value.uid != w.job.mc.uid then w.(job := Idle)
      else w.(job := Report(w.api.value, w.job.status, w.job.written))
    case Abandon => w.(job := Idle)
    case Restart(excluded, generatedEnabled) =>
      w.(job := Idle, cfg := w.cfg.(excluded := excluded, generatedEnabled := generatedEnabled))
  }

  function Run(cfg: Config, events: seq<Event>): World {
    if events == [] then Init(cfg) else Step(Run(cfg, events[..|events| - 1]), events[|events| - 1])
  }

  // Invariants.

  /** What every stored status satisfies. A hash that is not a generated one
      never comes with a Secret name, so a stale copy of it looks due. */
  predicate StatusOK(cfg: Config, st: Status) {
    && (st.current.Some? && !IsGenerated(st.current) ==> st.secretName == "" && st.previous.None?)
    && (st.previous.Some? ==> IsGenerated(st.current) && st.previous.value.hash.Sha256?)
    && (st.ready ==> st.username == cfg.username)
    && (st.current.Some? ==> !st.current.value.hash.Malformed?)
  }

  ghost predicate HistoryOK(w: World) {
    && (w.api.Some? ==> w.api.value in w.history)
    && (forall o | o in w.history :: o.version < w.nextVersion && o.uid < w.nextUid && StatusOK(w.cfg, o.status))
    && (forall o, p | o in w.history && p in w.history && o.version == p.version :: o == p)
  }

  /** The controller wrote this Secret for the object that exists now. */
  predicate Own(w: World, name: string) {
    w.api.Some? && name in w.last && w.last[name].owner == w.api.value.uid
  }

  ghost predicate PasswordsOK(w: World) {
    && w.retired <= w.issued
    && HeldByApi(w) <= w.issued
    && HeldByApi(w) !! w.retired
    && (forall n | n in w.last :: w.last[n].owner < w.nextUid)
    && (forall n | Own(w, n) :: w.last[n].password in w.issued)
    && (forall n | Own(w, n) && n in w.unrecorded :: w.last[n].password !in HeldByApi(w))
  }

  /** These Secrets have, under the name in status, the password whose hash
      status records. */
  predicate Agrees(w: World, secrets: map<string, Secret>)
    requires w.api.Some? && IsGenerated(w.api.value.status.current)
  {
    var st := w.api.value.status;
    st.secretName in secrets && secrets[st.secretName] == Secret(w.api.value.uid, st.current.value.hash.password)
  }

  predicate Synced(w: World) {
    w.api.Some? && IsGenerated(w.api.value.status.current) ==>
      w.api.value.status.secretName !in w.unrecorded ==> Agrees(w, w.last)
  }

  /** The object that a job read still exists. */
  predicate Live(w: World, mc: Object) { w.api.Some? && w.api.value.uid == mc.uid }

  /** Without a password write, a generated current hash and the Secret it
      names stay together, and no hash is added. */
  predicate OnlyDrops(was: Status, st: Status) {
    && Held(st) <= Held(was)
    && (IsGenerated(st.current) ==> st.current == was.current && st.secretName == was.secretName)
  }

  /** After a password write: the Secret holds the password the pending status
      records, no other Secret does, and the status adds no other hash. */
  ghost predicate WrittenOK(w: World, mc: Object, status: Status, name: string) {
    && IsGenerated(status.current) && status.secretName == name
    && (Live(w, mc) ==>
          var password := status.current.value.hash.password;
          && name in w.last && w.last[name] == Secret(mc.uid, password)
          && (forall n | Own(w, n) && n != name :: w.last[n].password != password)
          && password in w.issued - w.retired
          && Held(status) <= HeldByApi(w) + {password})
  }

  ghost predicate PendingOK(w: World, mc: Object, status: Status, written: Option<string>) {
    && StatusOK(w.cfg, status) && mc in w.history
    && (written.None? ==> OnlyDrops(mc.status, status))
    && (written.Some? ==> WrittenOK(w, mc, status, written.value))
  }

  ghost predicate JobOK(w: World) {
    match w.job
    case Idle => true
    case Refetch(now) => true
    case Loaded(mc, now, reread) =>
      mc in w.history && if reread then Live(w, mc) ==> w.api.value.status == mc.status else !LooksDue(mc, now)
    case Write(mc, now, status, grace) =>
      // A password is only ever written on a fresh read.
      && mc in w.history && (Live(w, mc) ==> w.api.value.status == mc.status)
      && StatusOK(w.cfg, status) && OnlyDrops(mc.status, status)
      && (status.current.Some? ==> IsGenerated(status.current))
      && status.username == w.cfg.username
    case Report(mc, status, written) => PendingOK(w, mc, status, written)
    case Retry(mc, status, written) => written.Some? && PendingOK(w, mc, status, written)
  }

  ghost predicate Inv(w: World) {
    HistoryOK(w) && PasswordsOK(w) && Synced(w) && JobOK(w)
  }

  // Every event keeps them.

  /** On a copy that did not look due, no reconcile decides to rotate. */
  lemma StaleCopyNeverRotates(cfg: Config, mc: Object, now: Time, accountFound: bool, guardOK: bool)
    requires StatusOK(cfg, mc.status) && !LooksDue(mc, now)
    ensures PlanFor(cfg, mc, now, accountFound, guardOK).Settle?
  {
  }

  lemma OwnHashOnlyDrops(cfg: Config, mc: Object, now: Time, accountFound: bool)
    requires !mc.spec.Generated()
    ensures var st := PlanOwnHash(mc, mc.status.(username := cfg.username), now, accountFound);
            StatusOK(cfg, st) && OnlyDrops(mc.status, st)
  {
  }

  lemma PreparedOnlyDrops(cfg: Config, was: Status, now: Time)
    requires StatusOK(cfg, was)
    ensures var dropped := DropOwnHash(was.(username := cfg.username));
            && StatusOK(cfg, dropped) && OnlyDrops(was, dropped)
            && (dropped.current.Some? ==> IsGenerated(dropped.current))
            && var st := Prepared(dropped, now);
               StatusOK(cfg, st) && OnlyDrops(was, st) && st.current == dropped.current
  {
  }

  lemma PlanOnlyDrops(cfg: Config, mc: Object, now: Time, accountFound: bool, guardOK: bool)
    requires StatusOK(cfg, mc.status)
    ensures var plan := PlanFor(cfg, mc, now, accountFound, guardOK);
            && StatusOK(cfg, plan.status) && OnlyDrops(mc.status, plan.status)
            && (plan.Rotate? ==>
                  && plan.status.username == cfg.username
                  && (plan.status.current.Some? ==> IsGenerated(plan.status.current)))
  {
    hide StatusOK, OnlyDrops, PlanOwnHash, PlanGenerated;
    SettledOK(cfg, mc.status, mc.status.(username := cfg.username), mc.spec);
    if !mc.spec.Generated() {
      OwnHashOnlyDrops(cfg, mc, now, accountFound);
    } else {
      GeneratedOnlyDrops(cfg, mc, now, accountFound, guardOK);
    }
  }

  /** Settling changes neither hashes nor names. */
  lemma SettledOK(cfg: Config, was: Status, st: Status, spec: Spec)
    ensures StatusOK(cfg, was) ==>
              StatusOK(cfg, was.(username := cfg.username)) && OnlyDrops(was, was.(username := cfg.username))
    ensures StatusOK(cfg, st) && OnlyDrops(was, st) && st.username == cfg.username ==>
              forall r | r in {Fail(st), Succeed(st, spec), WriteFailed(st, spec)} ::
                  StatusOK(cfg, r) && OnlyDrops(was, r)
  {
  }

  lemma GeneratedOnlyDrops(cfg: Config, mc: Object, now: Time, accountFound: bool, guardOK: bool)
    requires StatusOK(cfg, mc.status)
    ensures var plan := PlanGenerated(cfg, mc, mc.status.(username := cfg.username), now, accountFound, guardOK);
            && StatusOK(cfg, plan.status) && OnlyDrops(mc.status, plan.status)
            && (plan.Rotate? ==>
                  && plan.status.username == cfg.username
                  && (plan.status.current.Some? ==> IsGenerated(plan.status.current)))
  {
    hide StatusOK, OnlyDrops, ParseRotation, RotationDue, Fail, Succeed, WriteFailed;
    var dropped := DropOwnHash(mc.status.(username := cfg.username));
    PreparedOnlyDrops(cfg, mc.status, now);
    SettledOK(cfg, mc.status, dropped, mc.spec);
    SettledOK(cfg, mc.status, Prepared(dropped, now), mc.spec);
  }

  lemma DecideKeeps(w: World, accountFound: bool, guardOK: bool, otherChange: bool)
    requires Inv(w) && w.job.Loaded?
    ensures Inv(StepDecide(w, accountFound, guardOK, otherChange))
  {
    assert StatusOK(w.cfg, w.job.mc.status);
    PlanOnlyDrops(w.cfg, w.job.mc, w.job.now, accountFound, guardOK);
    if !w.job.reread { StaleCopyNeverRotates(w.cfg, w.job.mc, w.job.now, accountFound, guardOK); }
    JobFrame(w, StepDecide(w, accountFound, guardOK, otherChange).job, w.clock);
    hide HistoryOK, PasswordsOK, Synced, PlanFor, StatusOK, OnlyDrops;
  }

  lemma WriteDoneOK(cfg: Config, mc: Object, st: Status, password: Password, now: Time, grace: Time)
    requires StatusOK(cfg, st) && st.username == cfg.username && (st.current.Some? ==> IsGenerated(st.current))
    ensures var done := WriteDone(st, mc, password, now, grace);
            StatusOK(cfg, done) && Held(done) <= Held(st) + {password} && IsGenerated(done.current)
    ensures StatusOK(cfg, WriteFailed(st, mc.spec)) && OnlyDrops(st, WriteFailed(st, mc.spec))
  {
  }

  /** Same stored versions, same settings. */
  lemma HistoryFrame(w: World, w': World)
    requires HistoryOK(w) && w'.cfg.username == w.cfg.username && w'.api == w.api && w'.history == w.history
    requires w'.nextVersion == w.nextVersion && w'.nextUid == w.nextUid
    ensures HistoryOK(w')
  {
  }

  lemma WriteSecretKeepsPasswords(w: World, password: Password, succeeds: bool)
    requires HistoryOK(w) && PasswordsOK(w) && w.job.Write? && w.job.mc in w.history && password !in w.issued
    ensures PasswordsOK(StepWriteSecret(w, password, succeeds))
  {
    hide StatusOK, Held, WriteDone, WriteFailed;
    assert w.job.mc.uid < w.nextUid;
  }

  lemma WriteSecretKeepsSynced(w: World, password: Password, succeeds: bool)
    requires Synced(w) && w.job.Write?
    ensures Synced(StepWriteSecret(w, password, succeeds))
  {
    hide WriteDone, WriteFailed;
  }

  /** What is pending after the write. */
  lemma WriteSecretPending(w: World, password: Password, succeeds: bool)
    requires JobOK(w) && PasswordsOK(w) && w.job.Write? && password !in w.issued
    ensures JobOK(StepWriteSecret(w, password, succeeds))
  {
    hide StatusOK, WriteFailed, WriteDone, WrittenOK;
    var mc, st := w.job.mc, w.job.status;
    WriteDoneOK(w.cfg, mc, st, password, w.job.now, w.job.grace);
    if succeeds && WriteAccepted(w, mc) {
      WriteSucceeds(w, password, succeeds);
    } else {
      DropsTwice(mc.status, st, WriteFailed(st, mc.spec));
    }
  }

  lemma DropsTwice(was: Status, st: Status, r: Status)
    requires OnlyDrops(was, st) && OnlyDrops(st, r)
    ensures OnlyDrops(was, r)
  {
    hide Held;
  }

  lemma WriteSucceeds(w: World, password: Password, succeeds: bool)
    requires JobOK(w) && PasswordsOK(w) && w.job.Write? && password !in w.issued
    requires succeeds && WriteAccepted(w, w.job.mc)
    ensures var w' := StepWriteSecret(w, password, succeeds);
            WrittenOK(w', w.job.mc, w'.job.status, w.job.mc.spec.secretName)
  {
    var name, w' := w.job.mc.spec.secretName, StepWriteSecret(w, password, succeeds);
    WriteDoneOK(w.cfg, w.job.mc, w.job.status, password, w.job.now, w.job.grace);
    assert w'.job.status.secretName == name && w'.job.status.current.value.hash == Sha256(password);
    hide StatusOK, WriteFailed, WriteDone, Held;
    assert forall n | Own(w', n) && n != name :: Own(w, n);
    assert HeldByApi(w') == HeldByApi(w);
  }

  lemma WriteSecretKeeps(w: World, password: Password, succeeds: bool)
    requires Inv(w) && w.job.Write? && password !in w.issued
    ensures Inv(StepWriteSecret(w, password, succeeds))
  {
    assert w.job.mc in w.history;
    WriteSecretKeepsPasswords(w, password, succeeds);
    WriteSecretKeepsSynced(w, password, succeeds);
    WriteSecretPending(w, password, succeeds);
    HistoryFrame(w, StepWriteSecret(w, password, succeeds));
    hide HistoryOK, PasswordsOK, Synced, JobOK;
  }

  /** Storing a status that adds only a fresh password. */
  lemma StoreKeepsHistory(w: World, o: Object)
    requires HistoryOK(w) && StatusOK(w.cfg, o.status) && o.uid < w.nextUid
    ensures HistoryOK(Store(w, o))
  {
  }

  lemma LandingKeepsPasswords(w: World)
    requires Inv(w) && w.job.Report? && Lands(w, w.job.mc, true)
    ensures var w' := StepStatusWrite(w, true, true); PasswordsOK(w') && Synced(w')
  {
    assert w.api.value == w.job.mc;
  }

  lemma StatusWriteKeeps(w: World, reaches: bool, reported: bool)
    requires Inv(w) && w.job.Report?
    ensures Inv(StepStatusWrite(w, reaches, reported))
  {
    var w' := StepStatusWrite(w, reaches, reported);
    StatusWriteJob(w, reaches, reported);
    if Lands(w, w.job.mc, reaches) {
      assert w.api.value == w.job.mc;
      StoreKeepsHistory(w, w.api.value.(status := w.job.status));
      LandingKeepsPasswords(w);
    } else {
      JobFrame(w, w'.job, w.clock);
    }
    hide JobOK, StatusOK, Held;
  }

  /** Whatever is retried is still pending. */
  lemma StatusWriteJob(w: World, reaches: bool, reported: bool)
    requires Inv(w) && w.job.Report?
    ensures JobOK(StepStatusWrite(w, reaches, reported))
  {
    hide StatusOK, OnlyDrops, LooksDue, PasswordsOK, Synced;
  }

  /** The same object status, and the same writes of its Secrets. */
  ghost predicate SameForObject(w: World, w': World) {
    && w'.api.Some? == w.api.Some?
    && (w.api.Some? ==> w'.api.value.uid == w.api.value.uid && w'.api.value.status == w.api.value.status)
    && w'.issued == w.issued && w'.retired == w.retired && w'.unrecorded == w.unrecorded
    && w'.cfg.username == w.cfg.username && w'.job == w.job
    && forall n :: Own(w', n) == Own(w, n) && (Own(w, n) ==> w'.last[n] == w.last[n])
  }

  lemma PasswordsFrame(w: World, w': World)
    requires PasswordsOK(w) && SameForObject(w, w') && forall n | n in w'.last :: w'.last[n].owner < w'.nextUid
    ensures PasswordsOK(w')
  {
    hide Own, Held;
  }

  lemma SyncedFrame(w: World, w': World)
    requires Synced(w) && SameForObject(w, w')
    ensures Synced(w')
  {
    if w.api.Some? { assert Own(w', w.api.value.status.secretName) == Own(w, w.api.value.status.secretName); }
  }

  lemma WrittenFrame(w: World, w': World, mc: Object, status: Status, name: string)
    requires WrittenOK(w, mc, status, name) && SameForObject(w, w')
    ensures WrittenOK(w', mc, status, name)
  {
    assert Own(w', name) == Own(w, name);
    hide Held;
  }

  lemma PendingFrame(w: World, w': World)
    requires JobOK(w) && SameForObject(w, w') && w.history <= w'.history
    ensures JobOK(w')
  {
    hide OnlyDrops, LooksDue, WrittenOK, Own;
    if (w.job.Report? || w.job.Retry?) && w.job.written.Some? {
      WrittenFrame(w, w', w.job.mc, w.job.status, w.job.written.value);
    }
  }

  lemma EditKeeps(w: World, spec: Spec, rotate: string)
    requires Inv(w)
    ensures Inv(Step(w, Edit(spec, rotate)))
  {
    if w.api.Some? {
      var w' := Step(w, Edit(spec, rotate));
      assert StatusOK(w.cfg, w.api.value.status) && w.api.value.uid < w.nextUid;
      StoreKeepsHistory(w, w.api.value.(spec := spec, rotate := rotate));
      hide HistoryOK, JobOK, Synced, StatusOK, Held;
      PasswordsFrame(w, w');
      SyncedFrame(w, w');
      PendingFrame(w, w');
    }
  }

  lemma CreateKeeps(w: World, spec: Spec, rotate: string)
    requires Inv(w)
    ensures Inv(Step(w, CreateObject(spec, rotate)))
  {
    if w.api.None? {
      StoreKeepsHistory(w.(nextUid := w.nextUid + 1), Object(w.nextUid, 0, spec, rotate, NO_STATUS));
      hide StatusOK, OnlyDrops, LooksDue;
    }
  }

  lemma EditSecretKeeps(w: World, name: string, secret: Option<Secret>)
    requires Inv(w)
    ensures Inv(Step(w, EditSecret(name, secret)))
  {
    var w' := Step(w, EditSecret(name, secret));
    hide JobOK, Synced, StatusOK, Held;
    HistoryFrame(w, w');
    PasswordsFrame(w, w');
    SyncedFrame(w, w');
    PendingFrame(w, w');
  }

  lemma DeleteKeeps(w: World)
    requires Inv(w)
    ensures Inv(Step(w, Delete))
  {
  }

  /** Reading changes nothing but the job. */
  lemma JobFrame(w: World, job: Job, clock: Time)
    requires HistoryOK(w) && PasswordsOK(w) && Synced(w)
    ensures var w' := w.(job := job, clock := clock); HistoryOK(w') && PasswordsOK(w') && Synced(w')
  {
  }

  lemma TickKeeps(w: World, clock: Time)
    requires Inv(w)
    ensures Inv(Step(w, Tick(clock)))
  {
    JobFrame(w, w.job, clock);
    hide HistoryOK, PasswordsOK, Synced;
  }

  lemma ReadsKeep(w: World, e: Event)
    requires Inv(w) && (e.Begin? || e.FreshRead? || e.Abandon?)
    ensures Inv(Step(w, e))
  {
    JobFrame(w, Step(w, e).job, w.clock);
    hide PasswordsOK, Synced, PendingOK, StatusOK, LooksDue;
  }

  lemma RestartKeeps(w: World, excluded: bool, generatedEnabled: bool)
    requires Inv(w)
    ensures Inv(Step(w, Restart(excluded, generatedEnabled)))
  {
    JobFrame(w, Idle, w.clock);
    hide PasswordsOK, Synced;
  }

  lemma ReadLatestKeeps(w: World)
    requires Inv(w)
    ensures Inv(Step(w, ReadLatest))
  {
    JobFrame(w, Step(w, ReadLatest).job, w.clock);
    hide PasswordsOK, Synced, StatusOK;
  }

  lemma StepKeeps(w: World, e: Event)
    requires Inv(w)
    ensures Inv(Step(w, e))
  {
    hide Inv, StepDecide, StepWriteSecret, StepStatusWrite, Store;
    match e
    case Decide(a, g, o) => if w.job.Loaded? { DecideKeeps(w, a, g, o); }
    case WriteSecret(p, s) => if w.job.Write? && p !in w.issued { WriteSecretKeeps(w, p, s); }
    case StatusWrite(a, r) => if w.job.Report? { StatusWriteKeeps(w, a, r); }
    case Edit(spec, rotate) => EditKeeps(w, spec, rotate);
    case CreateObject(spec, rotate) => CreateKeeps(w, spec, rotate);
    case EditSecret(name, secret) => EditSecretKeeps(w, name, secret);
    case Delete => DeleteKeeps(w);
    case Tick(clock) => TickKeeps(w, clock);
    case ReadLatest => ReadLatestKeeps(w);
    case Restart(excluded, enabled) => RestartKeeps(w, excluded, enabled);
    case _ => ReadsKeep(w, e);
  }

  lemma {:induction false} RunsKeepInv(cfg: Config, events: seq<Event>)
    ensures Inv(Run(cfg, events))
  {
    if events != [] {
      RunsKeepInv(cfg, events[..|events| - 1]);
      StepKeeps(Run(cfg, events[..|events| - 1]), events[|events| - 1]);
    }
  }
}
