/** The token broker: it keeps a chain of single-use refresh tokens alive in
    memory and in a Secret, across guard outages, failed refreshes, failed
    writes, restarts and new sign-ins. */
module TokenBroker {
  import opened Prelude

  type Time = int // nanoseconds; the zero time, long past, is 0

  type Token = string

  datatype Access = Access(token: Token, expiry: Time)

  /** What the broker holds in memory for a backend; `seed` identifies the
      sign-in the chain descends from. */
  datatype Broker = Broker(seed: Token, refreshToken: Token, access: Access, refreshAt: Time, stored: bool)

  /** The token Secret; its times are written with second precision. */
  datatype TokenSecret = TokenSecret(
    owner: nat, seed: Token, refreshToken: Token, access: Token, expiresAt: Time, refreshAt: Time)

  /** The three parties, for the backend with UID `uid`. `accepts` is the one
      refresh token the provider will redeem next, `issued` all it ever issued. */
  datatype World = World(
    uid: nat, seed: Token, accepts: Token, issued: set<Token>,
    memory: Option<Broker>, secret: Option<TokenSecret>,
    due: Option<Time>, // half the life of the last token redeemed for this sign-in, if not forgotten
    lost: bool)        // a restart went back behind a redeemed token of this sign-in

  /** What the provider does with a redemption, if it accepts the token. */
  datatype Answer = Down | Tokens(access: Access, next: Option<Token>)

  datatype Outcome =
    | SignInNeeded | Rejected | Authorized | GuardMissing | RefreshFailed | WriteFailed

  function ToSecond(t: Time): (r: Time)
    ensures r <= t < r + SECOND && r % SECOND == 0
  {
    t - t % SECOND
  }

  /** A Secret of this backend that descends from the current sign-in. */
  predicate Resumable(uid: nat, seed: Token, secret: Option<TokenSecret>) {
    secret.Some? && secret.value.owner == uid && secret.value.seed == seed && secret.value.refreshToken != ""
  }

  function LoadFrom(uid: nat, seed: Token, secret: Option<TokenSecret>): Broker {
    if !Resumable(uid, seed, secret) then Broker(seed, seed, Access("", 0), 0, false)
    else
      var s := secret.value;
      if s.access == "" then Broker(seed, s.refreshToken, Access("", 0), 0, false)
      else Broker(seed, s.refreshToken, Access(s.access, s.expiresAt), s.refreshAt, true)
  }

  function Load(w: World): Broker { LoadFrom(w.uid, w.seed, w.secret) }

  /** The memory an Ensure works on. */
  function Current(w: World): Broker {
    if w.memory.None? || w.memory.value.seed != w.seed then Load(w) else w.memory.value
  }

  function Encode(b: Broker, uid: nat): TokenSecret {
    TokenSecret(uid, b.seed, b.refreshToken, b.access.token, ToSecond(b.access.expiry), ToSecond(b.refreshAt))
  }

  /** The Secret is created, or patched if it is this backend's own. */
  predicate WriteAccepted(w: World) { w.secret.None? || w.secret.value.owner == w.uid }

  /** Redeems `b.refreshToken` at the provider. */
  function Redeem(w: World, b: Broker, now: Time, answer: Answer): (World, Broker, Option<Outcome>) {
    if answer.Down? then (w, b, Some(RefreshFailed))
    else if b.refreshToken != w.accepts then (w, b, Some(Rejected))
    else
      var next := if answer.next.Some? then answer.next.value else b.refreshToken;
      var refreshAt := now + Half(answer.access.expiry - now);
      (w.(accepts := next, issued := w.issued + {next}, due := Some(refreshAt)),
       Broker(b.seed, next, answer.access, refreshAt, false), None)
  }

  function Write(w: World, b: Broker, writable: bool): (World, Outcome) {
    if writable && WriteAccepted(w)
    then (w.(secret := Some(Encode(b, w.uid)), memory := Some(b.(stored := true))), Authorized)
    else (w.(memory := Some(b)), WriteFailed)
  }

  /** Whether an Ensure presents the refresh token to the provider. */
  predicate Redeems(w: World, now: Time, guardOK: bool) {
    var b := Current(w);
    b.refreshToken != "" && guardOK && now >= b.refreshAt
  }

  function EnsureStep(w: World, now: Time, guardOK: bool, answer: Answer, writable: bool): (World, Outcome) {
    var b := Current(w);
    var loaded := w.(memory := Some(b));
    if b.refreshToken == "" then (loaded, SignInNeeded)
    else if b.stored && now < b.refreshAt then (loaded, Authorized)
    else if !guardOK then (loaded, GuardMissing)
    else if now >= b.refreshAt then
      var (w', b', failed) := Redeem(loaded, b, now, answer);
      if failed.Some? then (w', failed.value) else Write(w'.(memory := Some(b')), b', writable)
    else Write(loaded, b, writable)
  }

  /** The broker of one backend, between its provider and its token Secret. */
  class Service {
    const uid: nat
    var seed: Token
    var accepts: Token
    var issued: set<Token>
    var memory: Option<Broker>
    var secret: Option<TokenSecret>
    var due: Option<Time>

    ghost var lost: bool

    ghost function View(): World reads this { World(uid, seed, accepts, issued, memory, secret, due, lost) }

    constructor (uid: nat, seed: Token)
      ensures View() == Init(uid, seed)
    {
      this.uid, this.seed, accepts, issued := uid, seed, seed, {seed};
      memory, secret, due, lost := None, None, None, false;
    }

    /** Refreshes the access token when it is due and stores it. */
    method Ensure(now: Time, guardOK: bool, answer: Answer, writable: bool) returns (outcome: Outcome)
      modifies this
      ensures (View(), outcome) == EnsureStep(old(View()), now, guardOK, answer, writable)
    {
      hide LoadFrom, Half, Encode, Redeem, Write;
      var st := if memory.None? || memory.value.seed != seed then LoadFrom(uid, seed, secret) else memory.value;
      memory := Some(st);
      if st.refreshToken == "" { return SignInNeeded; }
      if st.stored && now < st.refreshAt { return Authorized; }
      if !guardOK { return GuardMissing; }
      if now >= st.refreshAt {
        var failed;
        st, failed := Exchange(st, now, answer);
        if failed.Some? { return failed.value; }
      }
      outcome := Store(st, writable);
    }

    /** Redeems the refresh token; a provider may rotate it or leave it. */
    method Exchange(st: Broker, now: Time, answer: Answer) returns (next: Broker, failed: Option<Outcome>)
      modifies this
      ensures var (w, b, f) := Redeem(old(View()), st, now, answer);
              next == b && failed == f && View() == if failed.Some? then w else w.(memory := Some(b))
    {
      hide Half;
      if answer.Down? { return st, Some(RefreshFailed); }
      if st.refreshToken != accepts { return st, Some(Rejected); }
      accepts := if answer.next.Some? then answer.next.value else st.refreshToken;
      issued := issued + {accepts};
      next := st.(refreshToken := accepts, access := answer.access, stored := false);
      next := next.(refreshAt := now + Half(answer.access.expiry - now));
      memory, due, failed := Some(next), Some(next.refreshAt), None;
    }

    method Store(st: Broker, writable: bool) returns (outcome: Outcome)
      requires memory == Some(st)
      modifies this
      ensures (View(), outcome) == Write(old(View()), st, writable)
    {
      hide Encode;
      if !writable || (secret.Some? && secret.value.owner != uid) { return WriteFailed; }
      secret := Some(Encode(st, uid));
      memory := Some(st.(stored := true));
      return Authorized;
    }
  }

  function Init(uid: nat, seed: Token): World { World(uid, seed, seed, {seed}, None, None, None, false) }

  datatype Event =
    | Ensure(now: Time, guardOK: bool, answer: Answer, writable: bool)
    | Restart
    | SignIn(seed: Token)
    | ForeignSecret(secret: Option<TokenSecret>)

  /** Whether memory holds something of this sign-in that is not stored. */
  predicate Unstored(w: World) {
    w.memory.Some? && w.memory.value.seed == w.seed && !w.memory.value.stored && w.memory.value != Load(w)
  }

  /** Whether a restart would go back to another refresh token. */
  predicate Ahead(w: World) {
    w.memory.Some? && w.memory.value.seed == w.seed && w.memory.value.refreshToken != Load(w).refreshToken
  }

  /** What may happen: the provider issues fresh tokens, a sign-in brings a
      fresh one, and others leave the backend's own Secret alone. The broker may
      restart at any time. */
  predicate Enabled(w: World, e: Event) {
    match e
    case Ensure(now, _, answer, _) =>
      now >= 0 &&
      (answer.Tokens? ==>
         answer.access.token != "" && (answer.next.Some? ==> answer.next.value !in w.issued && answer.next.value != ""))
    case Restart => true
    case SignIn(seed) => seed !in w.issued && seed != ""
    case ForeignSecret(secret) =>
      (w.secret.Some? ==> w.secret.value.owner != w.uid) && (secret.Some? ==> secret.value.owner != w.uid)
  }

  function Next(w: World, e: Event): World {
    match e
    case Ensure(now, guardOK, answer, writable) => EnsureStep(w, now, guardOK, answer, writable).0
    case Restart => w.(memory := None, lost := w.lost || Ahead(w), due := if Unstored(w) then None else w.due)
    case SignIn(seed) => w.(seed := seed, accepts := seed, issued := w.issued + {seed}, due := None, lost := false)
    case ForeignSecret(secret) => w.(secret := secret)
  }

  function Run(w: World, events: seq<Event>): World {
    if events == [] then w else Next(Run(w, events[..|events| - 1]), events[|events| - 1])
  }

  predicate Possible(w: World, events: seq<Event>) {
    events != [] ==>
      Possible(w, events[..|events| - 1]) && Enabled(Run(w, events[..|events| - 1]), events[|events| - 1])
  }

  /** The broker, as its next Ensure will see itself, holds exactly the token
      the provider accepts next, unless a restart lost it; "stored" means the
      Secret equals memory; and the next redemption waits for half the last
      token's life, to the second. */
  predicate Inv(w: World) {
    && (Current(w).refreshToken == w.accepts <==> !w.lost)
    && (w.lost ==> w.due.None? && Load(w).refreshToken != w.accepts)
    && (w.due.Some? ==> Current(w).refreshAt in {w.due.value, ToSecond(w.due.value)} && Current(w).access.token != "")
    && (Current(w).access.token == "" ==> Current(w).refreshAt == 0)
    && w.seed in w.issued && w.accepts in w.issued
    && (w.memory.Some? ==> w.memory.value.seed in w.issued)
    && (w.secret.Some? && w.secret.value.owner == w.uid ==> SecretOK(w, w.secret.value))
    && (w.memory.Some? && w.memory.value.stored && w.memory.value.seed == w.seed ==>
          && w.secret == Some(Encode(w.memory.value, w.uid))
          && w.memory.value.refreshToken != "" && w.memory.value.access.token != "")
  }

  predicate SecretOK(w: World, s: TokenSecret) {
    s.seed in w.issued && ToSecond(s.expiresAt) == s.expiresAt && ToSecond(s.refreshAt) == s.refreshAt
  }

  /** Loading what was stored gives it back, its times cut to seconds. */
  lemma StoredLoadsBack(w: World)
    requires w.memory.Some? && w.memory.value.seed == w.seed
    requires w.secret == Some(Encode(w.memory.value, w.uid))
    requires w.memory.value.refreshToken != "" && w.memory.value.access.token != ""
    ensures var b, m := Load(w), w.memory.value;
            && b.stored && b.refreshToken == m.refreshToken && b.access.token == m.access.token
            && b.refreshAt == ToSecond(m.refreshAt) && b.access.expiry == ToSecond(m.access.expiry)
            && Encode(b, w.uid) == w.secret.value
  {
  }

  lemma LoadKeeps(w: World)
    requires Inv(w)
    ensures Inv(w.(memory := Some(Current(w)))) && Current(w.(memory := Some(Current(w)))) == Current(w)
    ensures Current(w).seed == w.seed && (Current(w).access.token == "" ==> Current(w).refreshAt == 0)
  {
  }

  lemma RedeemKeeps(w: World, now: Time, answer: Answer)
    requires Inv(w) && w.memory.Some? && w.memory.value.seed == w.seed
    requires answer.Tokens? ==> answer.access.token != ""
    ensures var (w', b', failed) := Redeem(w, w.memory.value, now, answer);
            && (failed == Some(Rejected) <==> w.lost && answer.Tokens?) && b'.seed == w.seed
            && (failed.Some? ==> w' == w)
            && (failed.None? ==> Inv(w'.(memory := Some(b'))) && w'.seed == w.seed && b'.access.token != "")
  {
  }

  lemma WriteKeeps(w: World, b: Broker, writable: bool)
    requires Inv(w.(memory := Some(b))) && b.seed == w.seed && b.refreshToken != ""
    requires b.access.token != ""
    ensures Inv(Write(w, b, writable).0)
  {
  }

  lemma EnsureKeeps(w: World, now: Time, guardOK: bool, answer: Answer, writable: bool)
    requires Inv(w) && Enabled(w, Ensure(now, guardOK, answer, writable))
    ensures Inv(EnsureStep(w, now, guardOK, answer, writable).0)
    ensures EnsureStep(w, now, guardOK, answer, writable).1 == Rejected <==>
            w.lost && Redeems(w, now, guardOK) && answer.Tokens?
  {
    hide Inv, Current;
    LoadKeeps(w);
    var loaded, b := w.(memory := Some(Current(w))), Current(w);
    RedeemKeeps(loaded, now, answer);
    var (w', b', failed) := Redeem(loaded, b, now, answer);
    if failed.None? && b'.refreshToken != "" { WriteKeeps(w', b', writable); }
    if b.refreshToken != "" && b.access.token != "" { WriteKeeps(loaded, b, writable); }
  }

  lemma NextKeeps(w: World, e: Event)
    requires Inv(w) && Enabled(w, e)
    ensures Inv(Next(w, e))
  {
    match e
    case Ensure(now, guardOK, answer, writable) => EnsureKeeps(w, now, guardOK, answer, writable);
    case Restart =>
      if w.memory.Some? && w.memory.value.seed == w.seed && w.memory.value.stored { StoredLoadsBack(w); }
    case _ =>
  }

  /** Over every such run the broker holds the token the provider accepts,
      exactly unless a restart lost it since the last sign-in. */
  lemma {:induction false} RunKeepsChain(uid: nat, seed: Token, events: seq<Event>)
    requires Possible(Init(uid, seed), events)
    ensures Inv(Run(Init(uid, seed), events))
  {
    if events != [] {
      var front := events[..|events| - 1];
      RunKeepsChain(uid, seed, front);
      NextKeeps(Run(Init(uid, seed), front), events[|events| - 1]);
    }
  }

  /** So a redemption is rejected exactly if a restart lost the chain, none comes
      before half the last token's life (to the second), and an Ensure that finds
      guard, provider and Secret working ends authorized with everything stored,
      refreshed if half that life is over. */
  lemma ChainStaysAlive(
    uid: nat, seed: Token, events: seq<Event>, now: Time, guardOK: bool, answer: Answer, writable: bool)
    requires Possible(Init(uid, seed), events + [Ensure(now, guardOK, answer, writable)])
    ensures var w := Run(Init(uid, seed), events);
            var (w', outcome) := EnsureStep(w, now, guardOK, answer, writable);
            && (outcome == Rejected <==> w.lost && Redeems(w, now, guardOK) && answer.Tokens?)
            && (Redeems(w, now, guardOK) && w.due.Some? ==> now > w.due.value - SECOND)
            && (guardOK && answer.Tokens? && writable && WriteAccepted(w) && w.accepts != "" && !w.lost ==>
                  && outcome == Authorized && w'.memory.Some? && w'.memory.value.stored
                  && w'.memory.value.refreshToken == w'.accepts
                  && w'.secret == Some(Encode(w'.memory.value, uid))
                  && (w.due.Some? && now >= w.due.value ==> w'.memory.value.access == answer.access))
  {
    var e := Ensure(now, guardOK, answer, writable);
    assert (events + [e])[..|events + [e]| - 1] == events;
    RunKeepsChain(uid, seed, events);
    UidFixed(Init(uid, seed), events);
    EnsureKeeps(Run(Init(uid, seed), events), now, guardOK, answer, writable);
    hide Run, Possible;
    var w := Run(Init(uid, seed), events);
    if guardOK && answer.Tokens? && writable && WriteAccepted(w) && w.accepts != "" && !w.lost {
      WorkingEnsure(w, now, answer);
    }
  }

  lemma WorkingEnsure(w: World, now: Time, answer: Answer)
    requires Inv(w) && Enabled(w, Ensure(now, true, answer, true))
    requires answer.Tokens? && WriteAccepted(w) && w.accepts != "" && !w.lost
    ensures var (w', outcome) := EnsureStep(w, now, true, answer, true);
            && outcome == Authorized && w'.memory.Some? && w'.memory.value.stored
            && w'.memory.value.refreshToken == w'.accepts
            && w'.secret == Some(Encode(w'.memory.value, w.uid))
            && (w.due.Some? && now >= w.due.value ==> w'.memory.value.access == answer.access)
  {
  }

  lemma {:induction false} UidFixed(w: World, events: seq<Event>)
    ensures Run(w, events).uid == w.uid
  {
    if events != [] { UidFixed(w, events[..|events| - 1]); }
  }

  /** The tokens in memory are stored and not due: there is nothing to do. */
  predicate UpToDate(b: Broker, now: Time) { b.stored && now < b.refreshAt }

  /** An Ensure comes to a redemption that the provider answers with tokens. */
  predicate Renews(w: World, now: Time, guardOK: bool, answer: Answer) {
    var b := Current(w);
    b.refreshToken != "" && guardOK && now >= b.refreshAt && answer.Tokens? && b.refreshToken == w.accepts
  }

  /** The Secret is free, or the backend's own, and the write works. */
  predicate CanStore(w: World, writable: bool) { writable && (w.secret.Some? ==> w.secret.value.owner == w.uid) }

  /** What an Ensure ends in, by exactly what: no token, nothing to do, the guard, the
      provider, or the write. */
  lemma OutcomeExactly(w: World, now: Time, guardOK: bool, answer: Answer, writable: bool)
    ensures var b, outcome := Current(w), EnsureStep(w, now, guardOK, answer, writable).1;
            var asks := b.refreshToken != "" && guardOK && now >= b.refreshAt && !UpToDate(b, now);
            var writes := Renews(w, now, guardOK, answer) ||
                          (b.refreshToken != "" && guardOK && now < b.refreshAt && !b.stored);
            && (outcome == SignInNeeded <==> b.refreshToken == "")
            && (outcome == GuardMissing <==> b.refreshToken != "" && !UpToDate(b, now) && !guardOK)
            && (outcome == RefreshFailed <==> asks && answer.Down?)
            && (outcome == Rejected <==> asks && answer.Tokens? && b.refreshToken != w.accepts)
            && (outcome == WriteFailed <==> writes && !CanStore(w, writable))
            && (outcome == Authorized <==>
                (b.refreshToken != "" && UpToDate(b, now)) || (writes && CanStore(w, writable)))
  {
    hide LoadFrom, Half, Encode;
  }

  /** Memory has new tokens, with the next redemption at half their life. */
  predicate Renewed(w: World, w': World, b': Broker, now: Time, answer: Answer)
    requires answer.Tokens?
  {
    && b'.access == answer.access && b'.refreshToken == w'.accepts
    && w'.accepts == (if answer.next.Some? then answer.next.value else w.accepts)
    && (answer.access.expiry >= now ==> b'.refreshAt == now + (answer.access.expiry - now) / 2)
  }

  lemma MemoryLeft(w: World, now: Time, guardOK: bool, answer: Answer, writable: bool)
    ensures var w' := EnsureStep(w, now, guardOK, answer, writable).0;
            && w'.memory.Some? && w'.seed == w.seed && w'.uid == w.uid
            && var b' := w'.memory.value;
               if Renews(w, now, guardOK, answer) then Renewed(w, w', b', now, answer)
               else b' == Current(w).(stored := b'.stored) && w'.accepts == w.accepts
  {
    hide LoadFrom, Encode;
  }

  lemma SecretLeft(w: World, now: Time, guardOK: bool, answer: Answer, writable: bool)
    ensures var (w', outcome) := EnsureStep(w, now, guardOK, answer, writable);
            if outcome == Authorized && !UpToDate(Current(w), now)
            then w'.memory.Some? && w'.memory.value.stored && w'.secret == Some(Encode(w'.memory.value, w.uid))
            else w'.secret == w.secret
  {
    hide LoadFrom, Half, ToSecond;
  }

  /** What memory and Secret are after it: new tokens exactly after a redemption that
      worked; and the Secret written exactly with what memory holds then, so a foreign
      one never. */
  lemma EnsureLeaves(w: World, now: Time, guardOK: bool, answer: Answer, writable: bool)
    ensures var b, (w', outcome) := Current(w), EnsureStep(w, now, guardOK, answer, writable);
            && w'.memory.Some? && w'.seed == w.seed && w'.uid == w.uid
            && var b' := w'.memory.value;
               && (if Renews(w, now, guardOK, answer) then Renewed(w, w', b', now, answer)
                   else b' == b.(stored := b'.stored) && w'.accepts == w.accepts)
               && (if outcome == Authorized && !UpToDate(b, now)
                   then && b'.stored
                        && w'.secret == Some(TokenSecret(w.uid, b'.seed, b'.refreshToken, b'.access.token,
                                                         ToSecond(b'.access.expiry), ToSecond(b'.refreshAt)))
                   else w'.secret == w.secret)
  {
    hide EnsureStep, Current, ToSecond, Renewed;
    MemoryLeft(w, now, guardOK, answer, writable);
    SecretLeft(w, now, guardOK, answer, writable);
  }

  /** Nothing is redeemed while the guard is down. */
  lemma GuardDownRedeemsNothing(w: World, now: Time, answer: Answer, writable: bool)
    ensures var (w', outcome) := EnsureStep(w, now, false, answer, writable);
            w'.accepts == w.accepts && w'.secret == w.secret && w'.memory == Some(Current(w))
  {
  }

  /** A write that failed is repeated without a second redemption, as long as
      the token is not due: the same tokens end up in the Secret. */
  lemma FailedWriteIsRepeated(w: World, now: Time, answer: Answer, now': Time, answer': Answer)
    requires Enabled(w, Ensure(now, true, answer, false)) && EnsureStep(w, now, true, answer, false).1 == WriteFailed
    requires var w' := EnsureStep(w, now, true, answer, false).0; now' < w'.memory.value.refreshAt && WriteAccepted(w')
    ensures var w' := EnsureStep(w, now, true, answer, false).0;
            var (w'', outcome) := EnsureStep(w', now', true, answer', true);
            && outcome == Authorized && w''.accepts == w'.accepts
            && w''.secret == Some(Encode(w'.memory.value, w.uid))
  {
    hide EnsureStep;
    UnstoredAfterFailure(w, now, answer);
    UnstoredIsWritten(EnsureStep(w, now, true, answer, false).0, now', answer');
  }

  lemma UnstoredAfterFailure(w: World, now: Time, answer: Answer)
    requires Enabled(w, Ensure(now, true, answer, false)) && EnsureStep(w, now, true, answer, false).1 == WriteFailed
    ensures var w' := EnsureStep(w, now, true, answer, false).0;
            && w'.memory.Some? && w'.memory.value.seed == w'.seed && !w'.memory.value.stored
            && w'.memory.value.refreshToken != "" && w'.uid == w.uid
  {
    hide Half, Encode;
  }

  lemma UnstoredIsWritten(w: World, now: Time, answer: Answer)
    requires w.memory.Some? && w.memory.value.seed == w.seed
    requires !w.memory.value.stored && w.memory.value.refreshToken != ""
    requires now < w.memory.value.refreshAt && WriteAccepted(w)
    ensures var (w', outcome) := EnsureStep(w, now, true, answer, true);
            outcome == Authorized && w'.accepts == w.accepts && w'.secret == Some(Encode(w.memory.value, w.uid))
  {
    hide Half, Encode;
  }

  /** A restart loses the chain exactly if memory holds another token than what
      the Secret, or else the sign-in, gives back; a fresh sign-in mends it. */
  lemma UnstoredRestart(w: World, seed: Token)
    requires Inv(w) && !w.lost && Enabled(w, SignIn(seed))
    ensures var back := if Resumable(w.uid, w.seed, w.secret) then w.secret.value.refreshToken else w.seed;
            Next(w, Restart).lost <==>
            w.memory.Some? && w.memory.value.seed == w.seed && w.memory.value.refreshToken != back
    ensures var v := Next(Next(w, Restart), SignIn(seed)); !v.lost && Current(v).refreshToken == seed == v.accepts
  {
  }

  /** An input on which it is: the first redemption rotates the token, its write
      fails, and the broker restarts from the token it signed in with. */
  lemma RestartLosesChain()
    ensures var w := EnsureStep(Init(1, "seed"), 0, true, Tokens(Access("a", 60 * SECOND), Some("next")), false).0;
            EnsureStep(Next(w, Restart), SECOND, true, Tokens(Access("b", 60 * SECOND), None), true).1 == Rejected
  {
  }
}
