/** The access-token cache: concurrent callers, one fetch for all of them, and
    lock sections that may interleave in any way. */
module TokenCache {
  import opened Prelude

  type Time = int // nanoseconds; the zero time is 0

  const REFRESH_MARGIN := 300 * SECOND
  const MIN_VALIDITY := 30 * SECOND
  const FAILURE_BACKOFF := 10 * SECOND

  datatype Token = Token(access: string, expiry: Time)
  const NO_TOKEN := Token("", 0)

  /** What the source answers; a failure may carry the endpoint's Retry-After. */
  datatype Outcome = Got(token: Token) | Failed(retryAfter: Time)

  /** The fields behind the mutex; a fetch is named by a number. */
  datatype Fields = Fields(token: Token, refreshAt: Time, inflight: Option<nat>, failUntil: Time) {
    predicate Usable(now: Time) { token.access != "" && now + MIN_VALIDITY < token.expiry }
  }

  function Min(a: Time, b: Time): Time { if a <= b then a else b }
  function Max(a: Time, b: Time): Time { if a >= b then a else b }

  function RefreshTime(t: Token, fetchedAt: Time): Time {
    t.expiry - Min(REFRESH_MARGIN, Half(t.expiry - fetchedAt))
  }

  /** What a caller does after its lock section. */
  datatype Answer = Serve(token: Token) | Fail | Await(fetch: nat)

  /** The lock section of Token; `id` names the fetch if one is started. */
  function Ask(c: Fields, now: Time, id: nat): (Fields, Answer) {
    if c.Usable(now) && now < c.refreshAt then (c, Serve(c.token))
    else if now < c.failUntil then (c, if c.Usable(now) then Serve(c.token) else Fail)
    else
      var f := if c.inflight.Some? then c.inflight.value else id;
      (c.(inflight := Some(f)), if c.Usable(now) then Serve(c.token) else Await(f))
  }

  /** The lock section that ends a fetch. */
  function Settle(c: Fields, now: Time, outcome: Outcome): Fields {
    match outcome
    case Got(t) => Fields(t, RefreshTime(t, now), None, 0)
    case Failed(retryAfter) => c.(failUntil := now + Max(FAILURE_BACKOFF, retryAfter), inflight := None)
  }

  function Drop(c: Fields, t: Token): Fields {
    if t.access != "" && t.access == c.token.access then c.(token := NO_TOKEN, refreshAt := 0) else c
  }

  class Cache {
    var token: Token
    var refreshAt: Time
    var inflight: Option<nat>
    var failUntil: Time

    function View(): Fields reads this { Fields(token, refreshAt, inflight, failUntil) }

    constructor ()
      ensures View() == Fields(NO_TOKEN, 0, None, 0)
    {
      token, refreshAt, inflight, failUntil := NO_TOKEN, 0, None, 0;
    }

    method LockedAsk(now: Time, id: nat) returns (answer: Answer)
      modifies this
      ensures (View(), answer) == Ask(old(View()), now, id)
    {
      var cur, usable := token, token.access != "" && now + MIN_VALIDITY < token.expiry;
      if usable && now < refreshAt { return Serve(cur); }
      if now < failUntil {
        if usable { return Serve(cur); }
        return Fail;
      }
      if inflight.None? { inflight := Some(id); }
      if usable { return Serve(cur); }
      return Await(inflight.value);
    }

    method LockedSettle(now: Time, outcome: Outcome)
      modifies this
      ensures View() == Settle(old(View()), now, outcome)
    {
      if outcome.Got? {
        token := outcome.token;
        var lifetime := token.expiry - now;
        refreshAt := token.expiry - Min(REFRESH_MARGIN, Half(lifetime));
        failUntil := 0;
      } else {
        failUntil := now + Max(FAILURE_BACKOFF, outcome.retryAfter);
      }
      inflight := None;
    }

    method LockedInvalidate(t: Token)
      modifies this
      ensures View() == Drop(old(View()), t)
    {
      if t.access != "" && t.access == token.access { token, refreshAt := NO_TOKEN, 0; }
    }
  }

  // All interleavings.

  datatype Fetch = Calling | Returned(outcome: Outcome) | Settled(outcome: Outcome) | Closed(outcome: Outcome)

  datatype Caller = Waiting(fetch: nat) | Served(token: Token) | Refused

  /** When a fetch failed, and the Retry-After that came with it. */
  datatype Failure = Failure(at: Time, retryAfter: Time)

  /** `fetchedAt` is when the cached token was stored, `lastFailure` how the last
      fetch failed, if none succeeded since. */
  datatype World = World(
    now: Time, cache: Fields, fetches: map<nat, Fetch>, nextFetch: nat, callers: map<nat, Caller>,
    fetchedAt: Time, lastFailure: Option<Failure>)

  datatype Event =
    | Tick(now: Time)
    | Call(caller: nat)
    | SourceReturns(fetch: nat, outcome: Outcome)
    | Finish(fetch: nat)
    | Close(fetch: nat)
    | Wake(caller: nat)
    | Cancel(caller: nat)
    | Invalidate(token: Token)

  const INIT := World(0, Fields(NO_TOKEN, 0, None, 0), map[], 0, map[], 0, None)

  /** Whether the lock section of a call starts a source call. */
  predicate Starts(w: World) {
    w.cache.inflight.None? && Ask(w.cache, w.now, w.nextFetch).0.inflight.Some?
  }

  function CallStep(w: World, caller: nat): World {
    var (c, answer) := Ask(w.cache, w.now, w.nextFetch);
    var asked := w.(cache := c, callers := w.callers[caller :=
                      match answer case Serve(t) => Served(t) case Fail => Refused case Await(f) => Waiting(f)]);
    if Starts(w) then asked.(fetches := w.fetches[w.nextFetch := Calling], nextFetch := w.nextFetch + 1) else asked
  }

  function FinishStep(w: World, f: nat): World
    requires f in w.fetches && w.fetches[f].Returned?
  {
    var outcome := w.fetches[f].outcome;
    w.(cache := Settle(w.cache, w.now, outcome),
       fetches := w.fetches[f := Settled(outcome)],
       fetchedAt := if outcome.Got? then w.now else w.fetchedAt,
       lastFailure := if outcome.Got? then None else Some(Failure(w.now, outcome.retryAfter)))
  }

  function Step(w: World, e: Event): World {
    match e
    case Tick(now) => if now >= w.now then w.(now := now) else w
    case Call(caller) => if caller in w.callers then w else CallStep(w, caller)
    case SourceReturns(f, outcome) =>
      if f in w.fetches && w.fetches[f].Calling? then w.(fetches := w.fetches[f := Returned(outcome)]) else w
    case Finish(f) => if f in w.fetches && w.fetches[f].Returned? then FinishStep(w, f) else w
    case Close(f) =>
      if f in w.fetches && w.fetches[f].Settled? then w.(fetches := w.fetches[f := Closed(w.fetches[f].outcome)]) else w
    case Wake(caller) =>
      if caller in w.callers && w.callers[caller].Waiting? && w.callers[caller].fetch in w.fetches &&
         w.fetches[w.callers[caller].fetch].Closed?
      then
        var outcome := w.fetches[w.callers[caller].fetch].outcome;
        w.(callers := w.callers[caller := if outcome.Got? then Served(outcome.token) else Refused])
      else w
    case Cancel(caller) =>
      if caller in w.callers && w.callers[caller].Waiting? then w.(callers := w.callers[caller := Refused]) else w
    case Invalidate(t) => w.(cache := Drop(w.cache, t))
  }

  function Run(events: seq<Event>): World {
    if events == [] then INIT else Step(Run(events[..|events| - 1]), events[|events| - 1])
  }

  /** A fetch whose result is not in the cache yet. */
  predicate Open(w: World, f: nat) { f in w.fetches && (w.fetches[f].Calling? || w.fetches[f].Returned?) }

  ghost predicate Inv(w: World) {
    && (w.cache.inflight.Some? ==> Open(w, w.cache.inflight.value))
    && (forall f | f in w.fetches && Open(w, f) :: w.cache.inflight == Some(f))
    && (forall f | f in w.fetches :: f < w.nextFetch)
    && (forall a | a in w.callers && w.callers[a].Waiting? :: w.callers[a].fetch in w.fetches)
    && (w.cache.token.access != "" ==> w.cache.refreshAt == RefreshTime(w.cache.token, w.fetchedAt))
    && w.fetchedAt <= w.now && w.now >= 0
    && w.cache.failUntil ==
       if w.lastFailure.None? then 0 else w.lastFailure.value.at + Max(FAILURE_BACKOFF, w.lastFailure.value.retryAfter)
  }

  lemma CallKeeps(w: World, caller: nat)
    requires Inv(w)
    ensures Inv(CallStep(w, caller))
  {
  }

  lemma FetchKeeps(w: World, e: Event)
    requires Inv(w) && (e.SourceReturns? || e.Finish? || e.Close?)
    ensures Inv(Step(w, e))
  {
  }

  lemma StepKeeps(w: World, e: Event)
    requires Inv(w)
    ensures Inv(Step(w, e))
  {
    match e
    case Call(caller) => if caller !in w.callers { CallKeeps(w, caller); }
    case SourceReturns(_, _) => FetchKeeps(w, e);
    case Finish(_) => FetchKeeps(w, e);
    case Close(_) => FetchKeeps(w, e);
    case _ =>
  }

  lemma {:induction false} RunsKeepInv(events: seq<Event>)
    ensures Inv(Run(events))
  {
    if events != [] {
      RunsKeepInv(events[..|events| - 1]);
      StepKeeps(Run(events[..|events| - 1]), events[|events| - 1]);
    }
  }

  // What a call gets.

  /** The cached token is good for more than half a minute. */
  predicate Good(w: World) { w.cache.token.access != "" && w.now + 30 * SECOND < w.cache.token.expiry }

  /** It is before its last five minutes, or before the last half of its life. */
  predicate Early(w: World) {
    var t := w.cache.token;
    w.now < t.expiry - 300 * SECOND || w.now < t.expiry - Half(t.expiry - w.fetchedAt)
  }

  /** The last fetch failed, not ten seconds ago or not as long as the endpoint said. */
  predicate BacksOff(w: World) {
    w.lastFailure.Some? &&
    (w.now < w.lastFailure.value.at + 10 * SECOND || w.now < w.lastFailure.value.at + w.lastFailure.value.retryAfter)
  }

  lemma FieldsExactly(w: World)
    requires Inv(w)
    ensures w.cache.Usable(w.now) <==> Good(w)
    ensures Good(w) ==> (w.now < w.cache.refreshAt <==> Early(w))
    ensures w.now < w.cache.failUntil <==> BacksOff(w)
  {
  }

  /** Under every interleaving, what a call gets: a good token at once, in the back-off
      an error if there is none, and else it waits. It leaves a fetch open exactly if
      one was, or the token is not both good and early and there is no back-off. */
  lemma CallExactly(events: seq<Event>, caller: nat)
    requires caller !in Run(events).callers
    ensures var w, w' := Run(events), Step(Run(events), Call(caller));
            var f := if w.cache.inflight.Some? then w.cache.inflight.value else w.nextFetch;
            && caller in w'.callers
            && w'.callers[caller] == (if Good(w) then Served(w.cache.token)
                                      else if BacksOff(w) then Refused else Waiting(f))
            && (Starts(w) <==> w.cache.inflight.None? && !(Good(w) && Early(w)) && !BacksOff(w))
            && w'.fetches == (if Starts(w) then w.fetches[w.nextFetch := Calling] else w.fetches)
            && w'.cache.inflight == if Starts(w) then Some(w.nextFetch) else w.cache.inflight
  {
    RunsKeepInv(events);
    hide Run, Inv;
    FieldsExactly(Run(events));
    hide Good, Early, BacksOff;
  }

  /** A fetch that ends leaves its token, or the cached one and a back-off; an
      invalidation leaves none, if it names the cached one. */
  lemma CacheExactly(w: World, e: Event)
    ensures var w' := Step(w, e);
            && (e.Finish? && e.fetch in w.fetches && w.fetches[e.fetch].Returned? ==>
                  match w.fetches[e.fetch].outcome
                  case Got(t) => w'.cache.token == t && w'.fetchedAt == w.now && w'.lastFailure.None?
                  case Failed(retryAfter) =>
                    w'.cache.token == w.cache.token && w'.lastFailure == Some(Failure(w.now, retryAfter)))
            && (e.Invalidate? && e.token.access != "" ==>
                  w'.cache.token == if e.token.access == w.cache.token.access then Token("", 0) else w.cache.token)
  {
  }

  /** Under every interleaving at most one source call is in progress, and every
      call that has to wait joins it. */
  lemma OneFetchForAll(events: seq<Event>, f: nat, g: nat, caller: nat)
    ensures var w := Run(events);
            && (Open(w, f) && Open(w, g) ==> f == g)
            && (caller !in w.callers && Open(w, f) ==>
                  var w' := Step(w, Call(caller));
                  w'.callers[caller].Waiting? ==> w'.callers[caller].fetch == f)
  {
    RunsKeepInv(events);
  }

  /** A source call starts only when nothing else can answer: no fetch is
      running, no usable token is before its refresh time, and the last failure
      is long enough ago. A token that lives at least a minute is not refetched
      before half its life, unless it was invalidated. */
  lemma NoNeedlessFetch(events: seq<Event>)
    requires Starts(Run(events))
    ensures var w := Run(events);
            && w.cache.inflight.None? && (forall f :: !Open(w, f))
            && !(w.cache.Usable(w.now) && w.now < w.cache.refreshAt)
            && w.now >= w.cache.failUntil
            && !BacksOff(w)
            && (w.cache.token.access != "" && w.cache.token.expiry - w.fetchedAt >= 60 * SECOND ==>
                  w.now >= w.fetchedAt + (w.cache.token.expiry - w.fetchedAt) / 2)
  {
    RunsKeepInv(events);
  }

  /** From the refresh time on, a call still gets the usable token at once, and
      a fetch for the next one is open afterwards, unless a failure is recent. */
  lemma BackgroundRefresh(events: seq<Event>, caller: nat)
    requires var w := Run(events);
             caller !in w.callers && w.cache.Usable(w.now) && w.now >= w.cache.refreshAt && w.now >= w.cache.failUntil
    ensures var w, w' := Run(events), Step(Run(events), Call(caller));
            && w'.callers[caller] == Served(w.cache.token)
            && w'.cache.inflight.Some? && Open(w', w'.cache.inflight.value)
            && w.cache.token.expiry - w.cache.refreshAt == Min(REFRESH_MARGIN, Half(w.cache.token.expiry - w.fetchedAt))
  {
    RunsKeepInv(events);
    CallKeeps(Run(events), caller);
  }

  /** A waiting caller gets the result of its fetch once that is closed, and an error if
      it gives up. */
  lemma WaitersExactly(w: World, caller: nat)
    requires caller in w.callers && w.callers[caller].Waiting?
    ensures var f := w.callers[caller].fetch;
            && Step(w, Cancel(caller)).callers[caller] == Refused
            && Step(w, Wake(caller)).callers[caller] ==
               if f in w.fetches && w.fetches[f].Closed?
               then match w.fetches[f].outcome case Got(t) => Served(t) case Failed(_) => Refused
               else w.callers[caller]
  {
  }

  /** No event but a successful fetch or the invalidation of this very token
      takes a usable token away. */
  lemma UsableTokenIsKept(w: World, e: Event)
    requires w.cache.token.access != ""
    requires Step(w, e).cache.token != w.cache.token
    ensures (e.Finish? && e.fetch in w.fetches && w.fetches[e.fetch].Returned? && w.fetches[e.fetch].outcome.Got?) ||
            (e.Invalidate? && e.token.access == w.cache.token.access)
  {
  }

  /** What a caller gets is either the cached token, valid for longer than
      MIN_VALIDITY at that moment, or the very result of the fetch it joined. */
  lemma ServedTokens(w: World, e: Event, caller: nat)
    requires Inv(w) && caller in Step(w, e).callers && Step(w, e).callers[caller].Served?
    requires caller !in w.callers || !w.callers[caller].Served?
    ensures var t := Step(w, e).callers[caller].token;
            || (e == Call(caller) && t == w.cache.token && w.cache.Usable(w.now))
            || (e == Wake(caller) && w.callers[caller].Waiting? && w.fetches[w.callers[caller].fetch] == Closed(Got(t)))
  {
  }
}
