/** Verifying SMTP logins against MailCredential objects, the cheap re-check of
    an open session, and the cache of successful argon2id verifications. */
module CredentialVerifier {
  import opened Prelude
  import opened MailCredential
  import Runs = CredentialRuns
  import Theorems = CredentialTheorems

  // Usernames.

  function Username(name: string, namespace: string): string { name + "." + namespace }

  /** Splits at the last dot; both parts must be non-empty. */
  function ParseUsername(u: string): Option<(string, string)> {
    var i := LastDot(u);
    if i <= 0 || i == |u| - 1 then None else Some((u[i + 1..], u[..i]))
  }

  /** The index of the last dot, or -1. */
  function LastDot(u: string): (i: int)
    ensures -1 <= i < |u|
    ensures i >= 0 ==> u[i] == '.'
    ensures forall k | i < k < |u| :: u[k] != '.'
  {
    if u == [] then -1 else if u[|u| - 1] == '.' then |u| - 1 else LastDot(u[..|u| - 1])
  }

  /** A username leads back to its object exactly when the namespace is a dot-free
      name and neither part is empty, which Kubernetes guarantees. */
  lemma UsernameRoundTrip(name: string, namespace: string)
    ensures ParseUsername(Username(name, namespace)) == Some((namespace, name)) <==>
            name != "" && namespace != "" && '.' !in namespace
  {
    var u, i := Username(name, namespace), LastDot(Username(name, namespace));
    assert u[|name|] == '.' && u[..|name|] == name && u[|name| + 1..] == namespace;
    if '.' !in namespace {
      assert forall k | |name| < k < |u| :: u[k] == namespace[k - |name| - 1];
      assert i == |name|;
    } else {
      var k :| 0 <= k < |namespace| && namespace[k] == '.';
      assert u[|name| + 1 + k] == '.';
    }
  }

  // Logins.

  /** Objects by namespace and name, as the informer cache holds them. */
  type Objects = map<(string, string), Object>

  /** Whether the controller accepted what decides identity and password. */
  predicate Usable(mc: Object) {
    && mc.status.ready && mc.status.serviceAccount == mc.spec.serviceAccount
    && (mc.spec.Generated() || (mc.status.current.Some? && mc.status.current.value.hash == mc.spec.passwordHash.value))
  }

  datatype Result = Result(
    namespace: string, serviceAccount: string, username: string, previous: bool, uid: nat, hash: Hash)

  function Lookup(objects: Objects, username: string): Option<Object> {
    match ParseUsername(username)
    case None => None
    case Some(key) =>
      if key in objects && Usable(objects[key]) && objects[key].status.username == username
      then Some(objects[key]) else None
  }

  predicate VerifyGenerated(h: Hash, password: Password) { h == Sha256(password) }

  /** `verify` is argon2id verification; a hash that does not parse never matches. */
  predicate VerifyOwnHash(h: Hash, password: Password, verify: (string, Password) -> bool) {
    h.Argon2id? && verify(h.phc, password)
  }

  function Check(
    mc: Object, namespace: string, password: Password, now: Time,
    verify: (string, Password) -> bool): Option<Result>
  {
    var result := Result(namespace, mc.spec.serviceAccount, mc.status.username, false, mc.uid, Malformed(""));
    if password == "" then None
    else if !mc.spec.Generated() then
      var h := mc.spec.passwordHash.value;
      if VerifyOwnHash(h, password, verify) then Some(result.(hash := h)) else None
    else if mc.status.current.Some? && VerifyGenerated(mc.status.current.value.hash, password) then
      Some(result.(hash := mc.status.current.value.hash))
    else if mc.status.previous.Some? && now < mc.status.previous.value.validUntil &&
            VerifyGenerated(mc.status.previous.value.hash, password) then
      Some(result.(hash := mc.status.previous.value.hash, previous := true))
    else None
  }

  /** A full login: Lookup, then Check. */
  function Login(
    objects: Objects, username: string, password: Password, now: Time,
    verify: (string, Password) -> bool): Option<Result>
  {
    match Lookup(objects, username)
    case None => None
    case Some(mc) => Check(mc, ParseUsername(username).value.0, password, now, verify)
  }

  /** What a login asks of an object: the controller holds it ready, under this
      username and for the account and the own hash that the spec has now; and the
      password is the own hash's, the current generated one, or the previous one
      while that is valid. */
  predicate Accepts(
    mc: Object, username: string, password: Password, now: Time, verify: (string, Password) -> bool)
  {
    var st := mc.status;
    && st.ready && st.username == username && st.serviceAccount == mc.spec.serviceAccount && password != ""
    && match mc.spec.passwordHash
       case Some(h) => h.Argon2id? && st.current.Some? && st.current.value.hash == h && verify(h.phc, password)
       case None =>
         || (st.current.Some? && st.current.value.hash == Sha256(password))
         || (st.previous.Some? && st.previous.value.hash == Sha256(password) && now < st.previous.value.validUntil)
  }

  /** The result of a login that an object accepts. */
  function ResultFor(mc: Object, namespace: string, password: Password): Result {
    var own := mc.spec.passwordHash;
    var current := mc.status.current.Some? && mc.status.current.value.hash == Sha256(password);
    Result(namespace, mc.spec.serviceAccount, mc.status.username, own.None? && !current, mc.uid,
           if own.Some? then own.value else Sha256(password))
  }

  /** A login succeeds exactly if its username is a name, a dot and a namespace, and
      the object of that name accepts it. */
  lemma LoginExactly(
    objects: Objects, username: string, password: Password, now: Time, verify: (string, Password) -> bool,
    name: string, namespace: string)
    ensures Login(objects, username, password, now, verify).Some? ==>
              exists ns, n | (ns, n) in objects :: username == n + "." + ns && n != "" && ns != "" && '.' !in ns
    ensures username == name + "." + namespace && name != "" && namespace != "" && '.' !in namespace ==>
              Login(objects, username, password, now, verify) ==
              if (namespace, name) in objects && Accepts(objects[(namespace, name)], username, password, now, verify)
              then Some(ResultFor(objects[(namespace, name)], namespace, password)) else None
  {
    hide ParseUsername;
    if Login(objects, username, password, now, verify).Some? {
      var key := ParseUsername(username).value;
      ParsedIsUsername(username);
      UsernameRoundTrip(key.1, key.0);
      assert (key.0, key.1) in objects;
    }
    UsernameRoundTrip(name, namespace);
  }

  /** The re-check of an earlier result on its object, without the password;
      Some(previous) while it holds. */
  function StillHolds(r: Result, mc: Object, now: Time): Option<bool> {
    if mc.uid != r.uid || !Usable(mc) || mc.spec.serviceAccount != r.serviceAccount then None
    else if !mc.spec.Generated() then (if mc.spec.passwordHash.value == r.hash then Some(false) else None)
    else if !r.hash.Sha256? then None
    else if mc.status.current.Some? && mc.status.current.value.hash == r.hash then Some(false)
    else if mc.status.previous.Some? && mc.status.previous.value.hash == r.hash &&
            now < mc.status.previous.value.validUntil then Some(true)
    else None
  }

  function NameOf(username: string): string {
    match ParseUsername(username) case Some(key) => key.1 case None => ""
  }

  function StillValid(r: Result, objects: Objects, now: Time): Option<bool> {
    var key := (r.namespace, NameOf(r.username));
    if key in objects then StillHolds(r, objects[key], now) else None
  }

  /** A ready status names the user after its object, as the controller sets it. */
  predicate NamedOK(objects: Objects) {
    forall key | key in objects && objects[key].status.ready :: objects[key].status.username == Username(key.1, key.0)
  }

  /** The object's spec carries the hash of a generated password as its own. */
  predicate CopiedHash(mc: Object) { !mc.spec.Generated() && mc.spec.passwordHash.value.Sha256? }

  /** A successful check remembers a hash the password matches. */
  lemma CheckedHash(mc: Object, namespace: string, password: Password, now: Time, verify: (string, Password) -> bool)
    requires Check(mc, namespace, password, now, verify).Some?
    ensures var r := Check(mc, namespace, password, now, verify).value;
            && (r.hash == Sha256(password) || VerifyOwnHash(r.hash, password, verify))
            && r.namespace == namespace && r.username == mc.status.username && password != ""
  {
  }

  /** On one object: a result that still holds is what a check would say. */
  lemma RecheckIsCheck(
    r: Result, mc: Object, namespace: string, password: Password, now: Time,
    verify: (string, Password) -> bool)
    requires r.hash == Sha256(password) || VerifyOwnHash(r.hash, password, verify)
    requires password != "" && StillHolds(r, mc, now).Some?
    ensures var again := Check(mc, namespace, password, now, verify);
            && (again.Some? <==> !CopiedHash(mc))
            && (again.Some? ==>
                  && again.value.previous == StillHolds(r, mc, now).value
                  && again.value.uid == r.uid && again.value.serviceAccount == r.serviceAccount)
  {
  }

  /** The re-check is as good as the login it stands for: if a login succeeded
      and its result still holds later, the same password logs in then, with the
      same previous flag, unless the spec now carries a copied generated hash. */
  lemma RecheckStandsForLogin(
    earlier: Objects, t: Time, now: Objects, t': Time, username: string, password: Password,
    verify: (string, Password) -> bool)
    requires NamedOK(now)
    requires Login(earlier, username, password, t, verify).Some?
    requires StillValid(Login(earlier, username, password, t, verify).value, now, t').Some?
    ensures ParseUsername(username).Some? && ParseUsername(username).value in now
    ensures var r := Login(earlier, username, password, t, verify).value;
            var again := Login(now, username, password, t', verify);
            && (again.Some? <==> !CopiedHash(now[ParseUsername(username).value]))
            && (again.Some? ==>
                  && again.value.previous == StillValid(r, now, t').value
                  && again.value.uid == r.uid && again.value.serviceAccount == r.serviceAccount)
  {
    hide Check, ParseUsername, CopiedHash;
    var key, r := ParseUsername(username).value, Login(earlier, username, password, t, verify).value;
    CheckedHash(earlier[key], key.0, password, t, verify);
    assert StillHolds(r, now[key], t').Some?;
    ParsedIsUsername(username);
    RecheckIsCheck(r, now[key], key.0, password, t', verify);
  }

  /** And it holds whenever the same password would log in again as the same object,
      account and hash. */
  lemma RecheckHoldsExactly(
    earlier: Objects, t: Time, now: Objects, t': Time, username: string, password: Password,
    verify: (string, Password) -> bool)
    requires NamedOK(now) && Login(earlier, username, password, t, verify).Some?
    requires forall key | key in now :: !CopiedHash(now[key])
    ensures var r := Login(earlier, username, password, t, verify).value;
            var again := Login(now, username, password, t', verify);
            StillValid(r, now, t').Some? <==>
            && again.Some? && again.value.uid == r.uid && again.value.serviceAccount == r.serviceAccount
            && again.value.hash == r.hash
  {
    hide ParseUsername;
    ParsedIsUsername(username);
    var key := ParseUsername(username).value;
    CheckedHash(earlier[key], key.0, password, t, verify);
  }

  lemma ParsedIsUsername(u: string)
    requires ParseUsername(u).Some?
    ensures var key := ParseUsername(u).value; u == Username(key.1, key.0)
  {
  }

  /** A spec the admission webhook lets through as far as the hash goes. */
  predicate Admitted(spec: Spec) { spec.passwordHash.Some? ==> spec.passwordHash.value.Argon2id? }

  /** With admitted specs the re-check is simply sound. */
  lemma RecheckSoundForAdmitted(
    earlier: Objects, t: Time, now: Objects, t': Time, username: string, password: Password,
    verify: (string, Password) -> bool)
    requires NamedOK(now) && forall key | key in now :: Admitted(now[key].spec)
    requires Login(earlier, username, password, t, verify).Some?
    requires StillValid(Login(earlier, username, password, t, verify).value, now, t').Some?
    ensures Login(now, username, password, t', verify).Some?
  {
    RecheckStandsForLogin(earlier, t, now, t', username, password, verify);
  }

  /** Without that condition it is not: a hash copied from status into the spec
      keeps a session alive that could no longer log in. */
  lemma CopiedHashKeepsSession(verify: (string, Password) -> bool) returns (earlier: Objects, now: Objects)
    ensures NamedOK(now)
    ensures Login(earlier, "a.b", "secret", 0, verify).Some?
    ensures StillValid(Login(earlier, "a.b", "secret", 0, verify).value, now, 1).Some?
    ensures Login(now, "a.b", "secret", 1, verify).None?
  {
    hide ParseUsername, Username;
    SplitName();
    var h := Sha256("secret");
    var st := Status("a.b", "s", "sa", Some(Current(h, 0)), None, "", true);
    earlier := map[("b", "a") := Object(1, 1, Spec("sa", "s", None, None), "", st)];
    now := map[("b", "a") := Object(1, 2, Spec("sa", "", None, Some(h)), "", st)];
  }

  lemma SplitName()
    ensures Username("a", "b") == "a.b" && ParseUsername("a.b") == Some(("b", "a"))
  {
    UsernameRoundTrip("a", "b");
    assert Username("a", "b") == "a.b";
    hide ParseUsername;
  }

  // The cache of successful argon2id verifications.

  /** The text whose digest is the cache key; the digest is injective. */
  function CacheKey(username: string, phc: string, password: Password): string {
    username + [NUL] + phc + [NUL] + password
  }

  lemma {:induction false} SplitAtNul(a: string, b: string, rest: string, rest': string)
    requires NUL !in a && NUL !in b && a + [NUL] + rest == b + [NUL] + rest'
    ensures a == b && rest == rest'
  {
    var s := a + [NUL] + rest;
    assert s[|a|] == NUL && s[|b|] == NUL;
    assert forall i | 0 <= i < |a| :: s[i] == a[i];
    assert forall i | 0 <= i < |b| :: s[i] == b[i];
    assert |a| == |b|;
    assert a == s[..|a|] && b == s[..|b|] && rest == s[|a| + 1..] && rest' == s[|b| + 1..];
  }

  lemma KeyInjective(u: string, phc: string, pw: Password, u': string, phc': string, pw': Password)
    requires NUL !in u && NUL !in u' && NUL !in phc && NUL !in phc'
    requires CacheKey(u, phc, pw) == CacheKey(u', phc', pw')
    ensures u == u' && phc == phc' && pw == pw'
  {
    var rest, rest' := phc + [NUL] + pw, phc' + [NUL] + pw';
    assert CacheKey(u, phc, pw) == u + [NUL] + rest && CacheKey(u', phc', pw') == u' + [NUL] + rest';
    SplitAtNul(u, u', rest, rest');
    SplitAtNul(phc, phc', pw, pw');
  }

  const ARGON_CACHE_TTL: Time := 300 * SECOND

  /** One verification with the cache; `slot` is false when the context ends
      while waiting for a slot, `evicted` are entries the bounded cache drops. */
  function VerifyStep(
    entries: map<string, Time>, verify: (string, Password) -> bool, username: string, phc: string, password: Password,
    now: Time, slot: bool, evicted: set<string>): (map<string, Time>, Option<bool>)
  {
    var key := CacheKey(username, phc, password);
    if key in entries && now < entries[key] then (entries, Some(true))
    else if !slot then (entries, None)
    else if !verify(phc, password) then (entries, Some(false))
    else (entries[key := now + ARGON_CACHE_TTL] - evicted, Some(true))
  }

  /** Only what argon2id accepted is cached. */
  ghost predicate OnlyAccepted(entries: map<string, Time>, verify: (string, Password) -> bool) {
    forall k | k in entries ::
      exists u, phc, pw :: k == CacheKey(u, phc, pw) && NUL !in u && NUL !in phc && verify(phc, pw)
  }

  /** argon2id verifies only against hash texts that parse, and those have no
      NUL. */
  ghost predicate ParsesOnly(verify: (string, Password) -> bool) {
    forall phc, pw | verify(phc, pw) :: NUL !in phc
  }

  lemma CachedWasVerified(
    entries: map<string, Time>, verify: (string, Password) -> bool, username: string, phc: string, password: Password)
    requires OnlyAccepted(entries, verify) && CacheKey(username, phc, password) in entries
    requires NUL !in username && NUL !in phc
    ensures verify(phc, password)
  {
    var u, h, pw :| CacheKey(username, phc, password) == CacheKey(u, h, pw) && NUL !in u && NUL !in h && verify(h, pw);
    KeyInjective(username, phc, password, u, h, pw);
  }

  /** Whatever is cached, expired or evicted: the answer is that of plain
      verification, exactly unless a hash text with a NUL, which parses as no
      hash, has the key of a cached success; and the cache stays sound. */
  lemma CacheAnswersExactly(
    entries: map<string, Time>, verify: (string, Password) -> bool, username: string, phc: string, password: Password,
    now: Time, slot: bool, evicted: set<string>)
    requires OnlyAccepted(entries, verify) && ParsesOnly(verify) && NUL !in username
    ensures var (entries', ok) := VerifyStep(entries, verify, username, phc, password, now, slot, evicted);
            && OnlyAccepted(entries', verify)
            && (ok.None? ==> !slot)
            && (ok.Some? && ok.value != verify(phc, password) <==>
                var key := CacheKey(username, phc, password); NUL in phc && key in entries && now < entries[key])
  {
    var key := CacheKey(username, phc, password);
    hide CacheKey;
    if key in entries && NUL !in phc { CachedWasVerified(entries, verify, username, phc, password); }
  }

  /** An accepted password is answered from the cache for five minutes, without a slot
      and without argon2id, unless its entry is evicted. */
  lemma AcceptedIsCached(
    entries: map<string, Time>, verify: (string, Password) -> bool, username: string, phc: string, password: Password,
    now: Time, evicted: set<string>, later: Time, evicted': set<string>)
    requires verify(phc, password) && CacheKey(username, phc, password) !in evicted
    requires now <= later < now + 300 * SECOND
    requires var key := CacheKey(username, phc, password); key in entries ==> now >= entries[key]
    ensures var entries' := VerifyStep(entries, verify, username, phc, password, now, true, evicted).0;
            VerifyStep(entries', verify, username, phc, password, later, false, evicted') == (entries', Some(true))
  {
    hide CacheKey;
  }

  /** An input of the function alone on which it differs: the text after the NUL
      moves from the password into the hash. */
  lemma NulHashIsAccepted()
    ensures var verify := (phc: string, pw: string) => phc == "a" && pw == "b" + [NUL] + "c";
            var (entries, _) := VerifyStep(map[], verify, "u", "a", "b" + [NUL] + "c", 0, true, {});
            && !verify("a" + [NUL] + "b", "c")
            && VerifyStep(entries, verify, "u", "a" + [NUL] + "b", "c", 1, true, {}).1 == Some(true)
  {
    assert CacheKey("u", "a" + [NUL] + "b", "c") == CacheKey("u", "a", "b" + [NUL] + "c");
    assert ("a" + [NUL] + "b")[1] == NUL;
  }

  /** The text of a hash in the spec; `digest` writes out a generated one. */
  function TextOf(h: Hash, digest: Password -> HashText): string {
    match h
    case Sha256(password) => digest(password)
    case Argon2id(phc) => phc
    case Malformed(text) => text
  }

  /** Check as it runs, with the cache in front of argon2id; None if the context
      ends first. */
  function CheckStep(
    entries: map<string, Time>, mc: Object, namespace: string, password: Password, now: Time,
    verify: (string, Password) -> bool, digest: Password -> HashText, slot: bool, evicted: set<string>)
    : (map<string, Time>, Option<Option<Result>>)
  {
    if password == "" || mc.spec.Generated() then (entries, Some(Check(mc, namespace, password, now, verify)))
    else
      var h := mc.spec.passwordHash.value;
      var (entries', ok) :=
        VerifyStep(entries, verify, mc.status.username, TextOf(h, digest), password, now, slot, evicted);
      var result := Result(namespace, mc.spec.serviceAccount, mc.status.username, false, mc.uid, h);
      (entries', if ok.None? then None else Some(if ok.value then Some(result) else None))
  }

  /** No generated hash is an argon2id one. */
  ghost predicate NeverVerifies(verify: (string, Password) -> bool, digest: Password -> HashText) {
    forall p, password :: !verify(digest(p), password)
  }

  lemma CachedCheck(
    entries: map<string, Time>, mc: Object, namespace: string, password: Password, now: Time,
    verify: (string, Password) -> bool, digest: Password -> HashText, slot: bool, evicted: set<string>)
    requires OnlyAccepted(entries, verify) && ParsesOnly(verify) && NeverVerifies(verify, digest)
    requires NUL !in mc.status.username && (mc.spec.Generated() || !mc.spec.passwordHash.value.Malformed?)
    ensures var (entries', result) :=
              CheckStep(entries, mc, namespace, password, now, verify, digest, slot, evicted);
            && OnlyAccepted(entries', verify)
            && (result.None? ==> !slot)
            && (result.Some? ==> result.value == Check(mc, namespace, password, now, verify))
  {
    hide OnlyAccepted, ParsesOnly, VerifyStep;
    if !mc.spec.Generated() {
      var h := mc.spec.passwordHash.value;
      var text := TextOf(h, digest);
      CacheAnswersExactly(entries, verify, mc.status.username, text, password, now, slot, evicted);
      assert verify(text, password) == VerifyOwnHash(h, password, verify);
      var ok := VerifyStep(entries, verify, mc.status.username, text, password, now, slot, evicted).1;
      assert ok.Some? ==> ok.value == verify(text, password);
    }
  }

  class ArgonCache {
    var entries: map<string, Time>
    const verify: (string, Password) -> bool

    ghost predicate Valid() reads this { OnlyAccepted(entries, verify) }

    constructor (verify: (string, Password) -> bool)
      ensures Valid() && this.verify == verify && entries == map[]
    {
      this.verify, entries := verify, map[];
    }

    method Verify(username: string, phc: string, password: Password, now: Time, slot: bool, evicted: set<string>)
      returns (ok: Option<bool>)
      requires Valid() && ParsesOnly(verify) && NUL !in username
      modifies this
      ensures Valid()
      ensures (entries, ok) == VerifyStep(old(entries), verify, username, phc, password, now, slot, evicted)
      ensures ok.Some? && ok.value != verify(phc, password) <==>
              var key := CacheKey(username, phc, password); NUL in phc && key in old(entries) && now < old(entries)[key]
    {
      CacheAnswersExactly(entries, verify, username, phc, password, now, slot, evicted);
      hide OnlyAccepted, ParsesOnly, CacheKey;
      var key := CacheKey(username, phc, password);
      if key in entries && now < entries[key] { return Some(true); }
      if !slot { return None; }
      if verify(phc, password) {
        entries := entries[key := now + ARGON_CACHE_TTL] - evicted;
        return Some(true);
      }
      return Some(false);
    }

    /** Check verifies a password against the object; None if the context ends. */
    method CheckPassword(
      mc: Object, namespace: string, password: Password, now: Time, digest: Password -> HashText,
      slot: bool, evicted: set<string>) returns (result: Option<Option<Result>>)
      requires Valid() && ParsesOnly(verify) && NUL !in mc.status.username
      modifies this
      ensures Valid()
      ensures (entries, result) ==
              CheckStep(old(entries), mc, namespace, password, now, verify, digest, slot, evicted)
    {
      if password == "" { return Some(None); }
      var found := Result(namespace, mc.spec.serviceAccount, mc.status.username, false, mc.uid, Malformed(""));
      if !mc.spec.Generated() {
        var h := mc.spec.passwordHash.value;
        var ok := Verify(mc.status.username, TextOf(h, digest), password, now, slot, evicted);
        if ok.None? { return None; }
        if !ok.value { return Some(None); }
        return Some(Some(found.(hash := h)));
      }
      var st := mc.status;
      if st.current.Some? && VerifyGenerated(st.current.value.hash, password) {
        return Some(Some(found.(hash := st.current.value.hash)));
      }
      if st.previous.Some? && now < st.previous.value.validUntil &&
         VerifyGenerated(st.previous.value.hash, password) {
        return Some(Some(found.(hash := st.previous.value.hash, previous := true)));
      }
      return Some(None);
    }
  }

  // Logins over whole runs of the controller.

  lemma {:induction false} UsernameFixed(cfg: Config, events: seq<Runs.Event>)
    ensures Runs.Run(cfg, events).cfg.username == cfg.username
  {
    hide PlanFor, LooksDue, WriteDone, WriteFailed, Runs.HeldByApi, Runs.WriteAccepted, Runs.Lands;
    if events != [] { UsernameFixed(cfg, events[..|events| - 1]); }
  }

  /** In every run, for every stored version that is usable and for every content
      of the cache: a check with the cache says what one without it says. The
      controller makes no hash usable that does not parse. */
  lemma CachedCheckIsCheck(
    cfg: Config, events: seq<Runs.Event>, o: Object,
    entries: map<string, Time>, namespace: string, password: Password, now: Time,
    verify: (string, Password) -> bool, digest: Password -> HashText, slot: bool, evicted: set<string>)
    requires o in Runs.Run(cfg, events).history && Usable(o) && NUL !in cfg.username
    requires OnlyAccepted(entries, verify) && ParsesOnly(verify) && NeverVerifies(verify, digest)
    ensures var (entries', result) := CheckStep(entries, o, namespace, password, now, verify, digest, slot, evicted);
            && OnlyAccepted(entries', verify)
            && (result.None? ==> !slot)
            && (result.Some? ==> result.value == Check(o, namespace, password, now, verify))
  {
    Runs.RunsKeepInv(cfg, events);
    UsernameFixed(cfg, events);
    hide Runs.Run, OnlyAccepted, ParsesOnly, NeverVerifies, CheckStep, Check;
    assert Runs.StatusOK(Runs.Run(cfg, events).cfg, o.status);
    CachedCheck(entries, o, namespace, password, now, verify, digest, slot, evicted);
  }

  /** In every run and for every stored version a login may read, the newest or
      one from the cache: a generated credential accepts only the current
      password of that version, or its previous one before it runs out, which is
      a configured grace period after the current one was issued. */
  lemma AcceptedPasswords(
    cfg: Config, events: seq<Runs.Event>, o: Object, namespace: string, password: Password, now: Time,
    verify: (string, Password) -> bool)
    requires o in Runs.Run(cfg, events).history && o.spec.Generated()
    requires Check(o, namespace, password, now, verify).Some?
    ensures var w, st := Runs.Run(cfg, events), o.status;
            && st.current.Some? && password in Runs.Held(st)
            && (st.current.value.hash == Sha256(password) ||
                (&& st.previous.Some? && st.previous.value.hash == Sha256(password)
                 && now < st.previous.value.validUntil
                 && var grace := st.previous.value.validUntil - st.current.value.createdAt;
                    exists p | p in w.history :: Theorems.HasGrace(p.spec, grace)))
  {
    Runs.RunsKeepInv(cfg, events);
    Theorems.RunsKeepGrace(cfg, events);
    hide Runs.Run;
    assert Runs.StatusOK(Runs.Run(cfg, events).cfg, o.status);
    assert Theorems.GraceFrom(Runs.Run(cfg, events).history, o.status);
  }

  /** Such a password is retired exactly if the API server's status holds it no
      more: only a login that reads a stale copy can accept a retired one. */
  lemma AcceptedRetiredExactly(
    cfg: Config, events: seq<Runs.Event>, o: Object, namespace: string, password: Password, now: Time,
    verify: (string, Password) -> bool)
    requires o in Runs.Run(cfg, events).history && o.spec.Generated()
    requires Check(o, namespace, password, now, verify).Some?
    ensures var w := Runs.Run(cfg, events);
            && (password in w.retired <==> password !in Runs.HeldByApi(w))
            && (w.api == Some(o) ==> password !in w.retired)
  {
    AcceptedPasswords(cfg, events, o, namespace, password, now, verify);
    hide Check, Runs.Run, Runs.Held;
    Theorems.RetiredExactly(cfg, events, o, password);
  }

  /** An input on which one does: the credential is deleted, and a login that
      still reads the cached copy succeeds. */
  lemma StaleCopyAccepts(verify: (string, Password) -> bool) returns (events: seq<Runs.Event>, o: Object)
    ensures var w := Runs.Run(Theorems.CFG, events);
            && o in w.history && w.api.None? && "first" in w.retired
            && Login(map[("ns", "app") := o], "app.ns", "first", 0, verify).Some?
  {
    hide ParseUsername;
    UsernameRoundTrip("app", "ns");
    assert Username("app", "ns") == "app.ns";
    var issued := Theorems.FirstIssued();
    events := issued + [Runs.Delete];
    o := Runs.Run(Theorems.CFG, issued).api.value;
    Theorems.RunSnoc(Theorems.CFG, issued, Runs.Delete);
    hide Runs.Run;
  }

  /** After a rotation the new password is accepted at once, and the old one
      exactly until the grace period is over, marked as previous. */
  lemma OldPasswordWorksThroughGrace(
    mc: Object, st: Status, old_: Password, new_: Password, rotated: Time, grace: Time, namespace: string, now: Time,
    verify: (string, Password) -> bool)
    requires mc.spec.Generated() && st.current.Some? && st.current.value.hash == Sha256(old_)
    requires old_ != new_ && old_ != "" && new_ != ""
    ensures var after := mc.(status := WriteDone(st, mc, new_, rotated, grace));
            var first, second := Check(after, namespace, old_, now, verify), Check(after, namespace, new_, now, verify);
            && (first.Some? <==> grace > 0 && now < rotated + grace) && (first.Some? ==> first.value.previous)
            && second.Some? && !second.value.previous
  {
  }
}
