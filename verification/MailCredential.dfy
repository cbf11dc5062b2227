/** MailCredential objects and the decisions of their controller. */
module MailCredential {
  import opened Prelude

  type Time = int // nanoseconds
  type Password = string

  /** A password hash as spec or status hold it. Hashing generated passwords is
      injective, so such a hash is identified by its password. Anything else a
      user can write into spec.passwordHash parses as argon2id or not at all. */
  datatype Hash = Sha256(password: Password) | Argon2id(phc: HashText) | Malformed(text: string)

  const NUL := '\0'

  /** The text of a generated hash, or one that parses as argon2id, has no NUL. */
  type HashText = s: string | NUL !in s

  /** A duration text after parsing; the empty text is zero. */
  datatype Duration = Unparsable | Parsed(d: int)

  datatype Rotation = Rotation(interval: Duration, gracePeriod: Option<Duration>)

  datatype Spec = Spec(
    serviceAccount: string,
    secretName: string,
    rotation: Option<Rotation>,
    passwordHash: Option<Hash>)
  {
    predicate Generated() { passwordHash.None? }
  }

  datatype Current = Current(hash: Hash, createdAt: Time)
  datatype Previous = Previous(hash: Hash, validUntil: Time)

  datatype Status = Status(
    username: string,
    secretName: string,
    serviceAccount: string,
    current: Option<Current>,
    previous: Option<Previous>,
    lastRotateRequest: string,
    ready: bool)

  const NO_STATUS := Status("", "", "", None, None, "", false)

  /** One stored version; `rotate` is the rotate annotation, "" if absent. */
  datatype Object = Object(uid: nat, version: nat, spec: Spec, rotate: string, status: Status)

  const MIN_ROTATION_INTERVAL: Time := 3600 * SECOND
  const DEFAULT_GRACE: Time := 24 * 3600 * SECOND

  datatype Timing = Invalid | Timing(interval: Time, grace: Time)

  predicate Negative(d: Duration) { d.Parsed? && d.d < 0 }

  predicate Sensible(d: Duration) { d.Parsed? && d.d >= 0 }

  /** Refused exactly for a text that is no duration, a negative one, or an
      interval under an hour; an absent grace period is a day, a written one of
      zero is none. */
  function ParseRotation(r: Option<Rotation>): (t: Timing)
    ensures t.Timing? <==>
            r.Some? ==>
              && Sensible(r.value.interval) && (r.value.interval.d == 0 || r.value.interval.d >= MIN_ROTATION_INTERVAL)
              && (r.value.gracePeriod.Some? ==> Sensible(r.value.gracePeriod.value))
    ensures t.Timing? ==>
              && t.interval == (if r.Some? then r.value.interval.d else 0)
              && t.grace == (if r.Some? && r.value.gracePeriod.Some?
                             then r.value.gracePeriod.value.d else DEFAULT_GRACE)
  {
    match r
    case None => Timing(0, DEFAULT_GRACE)
    case Some(Rotation(interval, grace)) =>
      if interval.Unparsable? || Negative(interval) || 0 < interval.d < MIN_ROTATION_INTERVAL then Invalid
      else match grace
        case None => Timing(interval.d, DEFAULT_GRACE)
        case Some(g) => if g.Unparsable? || Negative(g) then Invalid else Timing(interval.d, g.d)
  }

  /** Whether a generated password must be (re)written. */
  predicate RotationDue(st: Status, spec: Spec, rotate: string, now: Time, interval: Time) {
    || st.current.None?
    || st.secretName != spec.secretName
    || (rotate != "" && rotate != st.lastRotateRequest)
    || (interval > 0 && now >= st.current.value.createdAt + interval)
  }

  /** The check on the cached copy; a bad rotation counts as no interval. */
  predicate LooksDue(mc: Object, now: Time) {
    && mc.spec.Generated()
    && var t := ParseRotation(mc.spec.rotation);
       RotationDue(mc.status, mc.spec, mc.rotate, now, if t.Timing? then t.interval else 0)
  }

  datatype Config = Config(username: string, excluded: bool, nameValid: bool, generatedEnabled: bool)

  /** What a reconcile does with an object: only write this status, or first
      try to write a new password. */
  datatype Plan = Settle(status: Status) | Rotate(status: Status, grace: Time)

  function Fail(st: Status): Status { st.(ready := false) }
  function Succeed(st: Status, spec: Spec): Status { st.(ready := true, serviceAccount := spec.serviceAccount) }

  predicate IsGenerated(c: Option<Current>) { c.Some? && c.value.hash.Sha256? }

  /** A password issued earlier is still in a Secret. */
  predicate StillUsable(st: Status) { st.current.Some? && st.secretName != "" }

  function PlanOwnHash(mc: Object, st: Status, now: Time, accountFound: bool): Status
    requires !mc.spec.Generated()
  {
    var cleared, h := st.(secretName := "", current := None, previous := None), mc.spec.passwordHash.value;
    if !h.Argon2id? || mc.spec.secretName != "" || mc.spec.rotation.Some? || !accountFound then Fail(cleared)
    else
      var kept := mc.status.current.Some? && mc.status.current.value.hash == h;
      Succeed(cleared.(current := Some(Current(h, if kept then mc.status.current.value.createdAt else now))), mc.spec)
  }

  /** The status of a generated credential before any password is written. */
  function Prepared(st: Status, now: Time): Status {
    if st.previous.Some? && now >= st.previous.value.validUntil then st.(previous := None) else st
  }

  /** A hash that is not a generated one is not carried into generated mode. */
  function DropOwnHash(st: Status): Status {
    if st.current.Some? && !IsGenerated(st.current) then st.(current := None, previous := None) else st
  }

  function PlanGenerated(cfg: Config, mc: Object, st: Status, now: Time, accountFound: bool, guardOK: bool): Plan {
    var kept, timing := DropOwnHash(st), ParseRotation(mc.spec.rotation);
    if mc.spec.secretName == "" || !cfg.nameValid || timing.Invalid? || !accountFound then Settle(Fail(kept))
    else
      var ready := Prepared(kept, now);
      if !cfg.generatedEnabled then Settle(Fail(ready))
      else if !RotationDue(ready, mc.spec, mc.rotate, now, timing.interval) then Settle(Succeed(ready, mc.spec))
      else if !guardOK then Settle(WriteFailed(ready, mc.spec))
      else Rotate(ready, timing.grace)
  }

  function PlanFor(cfg: Config, mc: Object, now: Time, accountFound: bool, guardOK: bool): Plan {
    var st := mc.status.(username := cfg.username);
    if cfg.excluded then Settle(Fail(st))
    else if !mc.spec.Generated() then Settle(PlanOwnHash(mc, st, now, accountFound))
    else PlanGenerated(cfg, mc, st, now, accountFound, guardOK)
  }

  /** A rotation that failed takes down only a credential without a password. */
  function WriteFailed(st: Status, spec: Spec): Status {
    if StillUsable(st) then Succeed(st, spec) else Fail(st)
  }

  function WriteDone(st: Status, mc: Object, password: Password, now: Time, grace: Time): Status {
    var previous := if st.current.Some? && grace > 0 then Some(Previous(st.current.value.hash, now + grace)) else None;
    Succeed(st.(previous := previous,
                current := Some(Current(Sha256(password), now)),
                secretName := mc.spec.secretName,
                lastRotateRequest := mc.rotate), mc.spec)
  }

  /** Whether a generated credential could be rotated but for guard and Secret. */
  predicate Configured(cfg: Config, spec: Spec) {
    && spec.Generated() && spec.secretName != "" && ParseRotation(spec.rotation).Timing?
    && !cfg.excluded && cfg.nameValid && cfg.generatedEnabled
  }

  /** The password in status needs no successor: it is a generated one, in the
      Secret the spec names, no rotation is requested that was not done, and it is
      not as old as the interval. */
  predicate UpToDate(o: Object, now: Time) {
    var st, t := o.status, ParseRotation(o.spec.rotation);
    && IsGenerated(st.current) && st.secretName == o.spec.secretName
    && (o.rotate == "" || o.rotate == st.lastRotateRequest)
    && (t.Timing? && t.interval > 0 ==> now < st.current.value.createdAt + t.interval)
  }

  /** The body of Reconcile as it runs: one status, changed field by field. It comes
      to a password write exactly if the settings allow one, account and guard are
      there, and the password is not up to date. */
  method Reconcile(cfg: Config, mc: Object, now: Time, accountFound: bool, guardOK: bool) returns (plan: Plan)
    ensures plan == PlanFor(cfg, mc, now, accountFound, guardOK)
    ensures plan.Rotate? <==> Configured(cfg, mc.spec) && accountFound && guardOK && !UpToDate(mc, now)
  {
    var st := mc.status;
    var accepted := st.current;
    st := st.(username := cfg.username);
    var ready, finished := false, false;
    if cfg.excluded { finished := true; }
    if !finished && !mc.spec.Generated() {
      st := st.(secretName := "", current := None, previous := None);
      if !mc.spec.passwordHash.value.Argon2id? || mc.spec.secretName != "" || mc.spec.rotation.Some? {
        finished := true;
      }
    }
    var interval, grace := 0, 0;
    if !finished && mc.spec.Generated() {
      var timing := ParseRotation(mc.spec.rotation);
      if mc.spec.secretName == "" || !cfg.nameValid || timing.Invalid? {
        finished := true;
      } else {
        interval, grace := timing.interval, timing.grace;
      }
      if st.current.Some? && !st.current.value.hash.Sha256? { st := st.(current := None, previous := None); }
    }
    if !finished && !accountFound { finished := true; }
    if !finished && !mc.spec.Generated() {
      ready, finished := true, true;
      st := st.(current := Some(Current(mc.spec.passwordHash.value, now)));
      if accepted.Some? && accepted.value.hash == mc.spec.passwordHash.value { st := st.(current := accepted); }
    }
    if !finished {
      if st.previous.Some? && now >= st.previous.value.validUntil { st := st.(previous := None); }
      var due := RotationDue(st, mc.spec, mc.rotate, now, interval);
      if cfg.generatedEnabled && due && guardOK { return Rotate(st, grace); }
      ready := cfg.generatedEnabled && (!due || StillUsable(st));
    }
    if ready { st := st.(serviceAccount := mc.spec.serviceAccount); }
    return Settle(st.(ready := ready));
  }

  /** The time until the next change a credential needs, 0 or less if there is
      none to come. */
  function NextEvent(st: Status, now: Time, interval: Time): Time {
    var next := if st.previous.Some? then MinPositive(0, st.previous.value.validUntil - now + SECOND) else 0;
    if interval > 0 && st.current.Some?
    then MinPositive(next, st.current.value.createdAt + interval - now + SECOND) else next
  }

  function MinPositive(a: Time, b: Time): Time {
    if a <= 0 then b else if b <= 0 || a < b then a else b
  }

  /** When the previous password runs out and when the interval elapses. */
  function Changes(st: Status, interval: Time): set<Time> {
    (if st.previous.Some? then {st.previous.value.validUntil} else {}) +
    (if interval > 0 && st.current.Some? then {st.current.value.createdAt + interval} else {})
  }

  /** A credential is looked at again a second after the first change that is
      not a second past already, and left alone exactly if there is none. */
  lemma NextEventInTime(st: Status, now: Time, interval: Time)
    ensures var next := NextEvent(st, now, interval);
            && (next > 0 <==> exists t | t in Changes(st, interval) :: t + SECOND > now)
            && (next > 0 ==>
                  && now + next - SECOND in Changes(st, interval)
                  && forall t | t in Changes(st, interval) && t + SECOND > now :: now + next <= t + SECOND)
  {
    var previous := if st.previous.Some? then st.previous.value.validUntil else now - SECOND;
    var rotation := if interval > 0 && st.current.Some? then st.current.value.createdAt + interval else now - SECOND;
    assert forall t | t in Changes(st, interval) :: t == previous || t == rotation;
    if st.previous.Some? { assert previous in Changes(st, interval); }
    if interval > 0 && st.current.Some? { assert rotation in Changes(st, interval); }
  }
}
