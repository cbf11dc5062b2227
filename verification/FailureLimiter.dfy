/** The throttle on failed logins: attempts per username and source IP take
    turns on a one-slot channel, under every interleaving. */
module FailureLimiter {
  import opened SlidingWindow
  import opened FailureTracker
  import C = KeyedChannels

  function Recorded(log: map<Key, seq<Time>>, key: Key, now: Time): map<Key, seq<Time>> {
    log[key := Of(log, key) + [now]]
  }

  // All interleavings of login attempts.

  /** An attempt that has the turn: its password is being checked, or it was
      refused or has its outcome and will give the turn back. */
  datatype Stage = Checking | Over

  /** `all` has every failure of a key, `log` those since the tracker last forgot
      it, nothing pruned; `forgotten` are the keys it ever forgot. */
  datatype World = World(
    cfg: Config, now: Time, turns: C.Channels, stages: map<nat, Stage>, tracker: Tracker,
    log: map<Key, seq<Time>>, all: map<Key, seq<Time>>, forgotten: set<Key>)

  datatype Event =
    | Tick(now: Time)
    | Turns(e: C.Event)
    | Count(id: nat)
    | Done(id: nat, failed: bool)

  predicate HasTurn(w: World, id: nat) { C.At(w.turns, id, C.Inside) }

  predicate IsChecking(w: World, id: nat) { id in w.stages && w.stages[id] == Checking }

  /** The turn is given back only when the attempt is over, and an attempt's
      number is not used again while it is known. */
  predicate MayStep(w: World, e: C.Event) {
    && C.Enabled(w.turns, e)
    && (e.Receive? ==> e.id in w.stages && w.stages[e.id] == Over)
  }

  function CountStep(w: World, id: nat): World
    requires HasTurn(w, id)
  {
    var key := w.turns.tasks[id].key;
    var ts, cut := Of(w.tracker.hits, key), w.now - w.cfg.window;
    var blocked := |ts| - Expired(ts, cut) >= w.cfg.perUserIP;
    w.(stages := w.stages[id := if blocked then Over else Checking], tracker := Prune(w.tracker, key, cut))
  }

  /** The keys that the failure of an attempt makes the tracker forget. */
  function Forgotten(w: World, key: Key): set<Key> { Evicted(Insert(w.tracker, key, w.now), w.cfg.maxKeys) }

  function DoneStep(w: World, id: nat, failed: bool): World
    requires HasTurn(w, id)
  {
    var key, over := w.turns.tasks[id].key, w.(stages := w.stages[id := Over]);
    if !failed then over
    else
      over.(tracker := Record(w.tracker, key, w.now, w.cfg.maxKeys),
            log := Recorded(w.log, key, w.now) - Forgotten(w, key), all := Recorded(w.all, key, w.now),
            forgotten := w.forgotten + Forgotten(w, key))
  }

  /** Events that are not enabled leave the world as it is. */
  function Step(w: World, e: Event): World {
    match e
    case Tick(now) => if now >= w.now then w.(now := now) else w
    case Turns(t) =>
      if !MayStep(w, t) then w
      else w.(turns := C.Step(w.turns, t), stages := if t.Leave? then w.stages - {t.id} else w.stages)
    case Count(id) => if HasTurn(w, id) && id !in w.stages then CountStep(w, id) else w
    case Done(id, failed) => if HasTurn(w, id) && IsChecking(w, id) then DoneStep(w, id, failed) else w
  }

  function Init(cfg: Config): World { World(cfg, 0, C.New(1), map[], NO_FAILURES, map[], map[], {}) }

  function Run(cfg: Config, events: seq<Event>): World {
    if events == [] then Init(cfg) else Step(Run(cfg, events[..|events| - 1]), events[|events| - 1])
  }

  /** The pruned timestamps still count like the whole log. */
  ghost predicate StandsFor(hits: seq<Time>, log: seq<Time>, now: Time, window: nat) {
    && Sorted(log) && (forall i | 0 <= i < |log| :: log[i] <= now)
    && |hits| <= |log| && hits == log[|log| - |hits|..]
    && (forall i | 0 <= i < |log| - |hits| :: log[i] <= now - window)
  }

  ghost predicate TurnsOK(w: World) {
    && C.Inv(w.turns) && w.turns.cap == 1
    && forall a | a in w.stages :: a in w.turns.tasks && (IsChecking(w, a) ==> HasTurn(w, a))
  }

  ghost predicate AllStandFor(hits: map<Key, seq<Time>>, log: map<Key, seq<Time>>, now: Time, window: nat) {
    forall k :: StandsFor(Of(hits, k), Of(log, k), now, window)
  }

  ghost predicate HitsOK(w: World) { AllStandFor(w.tracker.hits, w.log, w.now, w.cfg.window) }

  /** While a password is being checked, its failure would still be allowed. */
  ghost predicate CheckingOK(w: World) {
    forall a | IsChecking(w, a) && a in w.turns.tasks ::
      CountAfter(Of(w.log, w.turns.tasks[a].key), w.now - w.cfg.window) < w.cfg.perUserIP
  }

  predicate IntervalOK(log: seq<Time>, x: Time, cfg: Config) { CountIn(log, x, x + cfg.window) <= cfg.perUserIP }

  ghost predicate CapOK(w: World) {
    forall k, x :: IntervalOK(Of(w.log, k), x, w.cfg)
  }

  ghost predicate TrackerOK(w: World) {
    && FailureTracker.Ordered(w.tracker) && |w.tracker.recent| <= w.cfg.maxKeys
    && forall k | k !in w.forgotten :: Of(w.log, k) == Of(w.all, k)
  }

  ghost predicate Inv(w: World) { TurnsOK(w) && HitsOK(w) && CheckingOK(w) && CapOK(w) && TrackerOK(w) }

  lemma Two(s: set<nat>, a: nat, b: nat)
    requires a in s && b in s && |s| <= 1
    ensures a == b
  {
    var rest := s - {a};
    assert s == {a} + rest && |rest| == 0;
  }

  /** At most one attempt of a key is in its channel. */
  lemma OneTurn(c: C.Channels, a: nat, b: nat)
    requires C.Inv(c) && c.cap == 1 && C.At(c, a, C.Inside) && C.At(c, b, C.Inside)
    requires c.tasks[a].key == c.tasks[b].key
    ensures a == b
  {
    var key := c.tasks[a].key;
    C.OneChannelPerKey(c, key);
    Two(C.InsideOf(c, key), a, b);
  }

  lemma StepKeepsTurns(w: World, e: Event)
    requires TurnsOK(w)
    ensures TurnsOK(Step(w, e))
  {
    hide C.Inv;
    if e.Turns? && MayStep(w, e.e) { C.StepKeeps(w.turns, e.e); }
  }

  // The counts.

  /** Dropping timestamps at or before the cut changes nothing that counts. */
  lemma DropStandsFor(hits: seq<Time>, log: seq<Time>, now: Time, window: nat, n: nat)
    requires StandsFor(hits, log, now, window) && n <= |hits|
    requires forall i | 0 <= i < n :: hits[i] <= now - window
    ensures StandsFor(hits[n..], log, now, window)
  {
    var k := |log| - |hits|;
    forall i | 0 <= i < k + n ensures log[i] <= now - window {
      assert i >= k ==> log[i] == hits[i - k];
    }
    assert hits[n..] == log[k + n..];
  }

  lemma SameCount(hits: seq<Time>, log: seq<Time>, now: Time, window: nat)
    requires StandsFor(hits, log, now, window)
    ensures Sorted(hits) && |hits| <= |log| && hits == log[|log| - |hits|..]
    ensures CountAfter(hits, now - window) == CountAfter(log, now - window)
  {
    hide CountAfter;
    CountAfterTrim(log, |log| - |hits|, now - window);
  }

  lemma PruneStandsFor(hits: seq<Time>, log: seq<Time>, now: Time, window: nat)
    requires StandsFor(hits, log, now, window)
    ensures StandsFor(hits[Expired(hits, now - window)..], log, now, window)
    ensures |hits| - Expired(hits, now - window) == CountAfter(log, now - window)
  {
    hide CountAfter, StandsFor, Expired;
    SameCount(hits, log, now, window);
    ExpiredIsRest(hits, now - window);
    DropStandsFor(hits, log, now, window, Expired(hits, now - window));
  }

  lemma RecordStandsFor(hits: seq<Time>, log: seq<Time>, now: Time, window: nat)
    requires StandsFor(hits, log, now, window)
    ensures StandsFor(hits + [now], log + [now], now, window)
  {
    var k := |log| - |hits|;
    assert (log + [now])[k..] == hits + [now];
    assert forall i | 0 <= i < k :: (log + [now])[i] == log[i];
  }

  lemma PrunedOf(t: Tracker, key: Key, cut: Time, k: Key)
    ensures var ts := Of(t.hits, k); Of(Prune(t, key, cut).hits, k) == if k == key then ts[Expired(ts, cut)..] else ts
  {
  }

  lemma PruneAll(t: Tracker, log: map<Key, seq<Time>>, now: Time, window: nat, key: Key)
    requires AllStandFor(t.hits, log, now, window)
    ensures AllStandFor(Prune(t, key, now - window).hits, log, now, window)
    ensures var ts := Of(t.hits, key); |ts| - Expired(ts, now - window) == CountAfter(Of(log, key), now - window)
  {
    hide StandsFor, CountAfter, Prune, Of, Expired;
    PruneStandsFor(Of(t.hits, key), Of(log, key), now, window);
    forall k ensures StandsFor(Of(Prune(t, key, now - window).hits, k), Of(log, k), now, window) {
      PrunedOf(t, key, now - window, k);
    }
  }

  /** An attempt that counts is let through exactly if there is room left. */
  lemma CountKeepsHits(w: World, id: nat)
    requires HitsOK(w) && HasTurn(w, id)
    ensures HitsOK(CountStep(w, id))
    ensures IsChecking(CountStep(w, id), id) <==>
            CountAfter(Of(w.log, w.turns.tasks[id].key), w.now - w.cfg.window) < w.cfg.perUserIP
  {
    hide AllStandFor, CountAfter, Prune, Of, Expired;
    PruneAll(w.tracker, w.log, w.now, w.cfg.window, w.turns.tasks[id].key);
  }

  lemma RecordedOf(t: Tracker, log: map<Key, seq<Time>>, key: Key, now: Time, max: Positive, k: Key)
    ensures var out := Evicted(Insert(t, key, now), max);
            && Of(Record(t, key, now, max).hits, k) ==
               (if k in out then [] else if k == key then Of(t.hits, k) + [now] else Of(t.hits, k))
            && Of(Recorded(log, key, now) - out, k) ==
               (if k in out then [] else if k == key then Of(log, k) + [now] else Of(log, k))
  {
    hide Without;
  }

  lemma RecordAll(t: Tracker, log: map<Key, seq<Time>>, now: Time, window: nat, key: Key, max: Positive)
    requires AllStandFor(t.hits, log, now, window)
    ensures var out := Evicted(Insert(t, key, now), max);
            AllStandFor(Record(t, key, now, max).hits, Recorded(log, key, now) - out, now, window)
  {
    RecordStandsFor(Of(t.hits, key), Of(log, key), now, window);
    assert StandsFor([], [], now, window);
    hide StandsFor, Record, Recorded, Evicted, Insert, Of;
    var out := Evicted(Insert(t, key, now), max);
    var hits', log' := Record(t, key, now, max).hits, Recorded(log, key, now) - out;
    forall k ensures StandsFor(Of(hits', k), Of(log', k), now, window) {
      RecordedOf(t, log, key, now, max, k);
    }
  }

  lemma DoneKeepsHits(w: World, id: nat, failed: bool)
    requires HitsOK(w) && HasTurn(w, id)
    ensures HitsOK(DoneStep(w, id, failed))
  {
    hide AllStandFor, Record, Recorded, Evicted, Insert;
    RecordAll(w.tracker, w.log, w.now, w.cfg.window, w.turns.tasks[id].key, w.cfg.maxKeys);
  }

  /** Time may pass. */
  lemma StandsForLater(hits: map<Key, seq<Time>>, log: map<Key, seq<Time>>, now: Time, later: Time, window: nat)
    requires AllStandFor(hits, log, now, window) && now <= later
    ensures AllStandFor(hits, log, later, window)
  {
    forall k ensures StandsFor(Of(hits, k), Of(log, k), later, window) {
      assert StandsFor(Of(hits, k), Of(log, k), now, window);
    }
  }

  lemma StepKeepsHits(w: World, e: Event)
    requires HitsOK(w)
    ensures HitsOK(Step(w, e))
  {
    hide AllStandFor, CountStep, DoneStep;
    match e
    case Tick(now) => if now >= w.now { StandsForLater(w.tracker.hits, w.log, w.now, now, w.cfg.window); }
    case Turns(_) =>
    case Count(id) => if HasTurn(w, id) && id !in w.stages { CountKeepsHits(w, id); }
    case Done(id, failed) => if HasTurn(w, id) && IsChecking(w, id) { DoneKeepsHits(w, id, failed); }
  }

  /** No failure of a key is recorded while another attempt is checking it. */
  lemma DoneKeepsChecking(w: World, id: nat, failed: bool)
    requires TurnsOK(w) && CheckingOK(w) && HasTurn(w, id) && IsChecking(w, id)
    ensures CheckingOK(DoneStep(w, id, failed))
  {
    hide CountAfter, C.Inv, Recorded, Record, Insert, Evicted, Of;
    var w' := DoneStep(w, id, failed);
    Nothing(w.now - w.cfg.window);
    forall a | IsChecking(w', a) && a in w'.turns.tasks
      ensures CountAfter(Of(w'.log, w'.turns.tasks[a].key), w'.now - w'.cfg.window) < w'.cfg.perUserIP
    {
      assert a != id && IsChecking(w, a);
      if w.turns.tasks[a].key == w.turns.tasks[id].key {
        OneTurn(w.turns, a, id);
        assert false;
      }
      RecordedOf(w.tracker, w.log, w.turns.tasks[id].key, w.now, w.cfg.maxKeys, w.turns.tasks[a].key);
    }
  }

  lemma Nothing(cutoff: int)
    ensures CountAfter([], cutoff) == 0
  {
  }

  lemma CheckingLater(w: World, w': World)
    requires CheckingOK(w) && w'.log == w.log && w'.cfg == w.cfg && w'.now >= w.now
    requires forall a | IsChecking(w', a) && a in w'.turns.tasks ::
               IsChecking(w, a) && a in w.turns.tasks && w.turns.tasks[a].key == w'.turns.tasks[a].key
    ensures CheckingOK(w')
  {
    forall a | IsChecking(w', a) && a in w'.turns.tasks
      ensures CountAfter(Of(w'.log, w'.turns.tasks[a].key), w'.now - w'.cfg.window) < w'.cfg.perUserIP
    {
      CountAfterMonotone(Of(w.log, w.turns.tasks[a].key), w.now - w.cfg.window, w'.now - w.cfg.window);
      hide CountAfter;
    }
  }

  lemma CountKeepsChecking(w: World, id: nat)
    requires HitsOK(w) && CheckingOK(w) && HasTurn(w, id)
    ensures CheckingOK(CountStep(w, id))
  {
    hide CountAfter, Prune, Expired, HitsOK, Of;
    CountKeepsHits(w, id);
    var w' := CountStep(w, id);
    forall a | IsChecking(w', a) && a in w'.turns.tasks
      ensures CountAfter(Of(w'.log, w'.turns.tasks[a].key), w'.now - w'.cfg.window) < w'.cfg.perUserIP
    {
      assert a != id ==> IsChecking(w, a);
    }
  }

  lemma TurnsKeepChecking(w: World, t: C.Event)
    requires TurnsOK(w) && CheckingOK(w)
    ensures CheckingOK(Step(w, Turns(t)))
  {
    hide CheckingOK, C.Inv, CountAfter;
    if MayStep(w, t) { CheckingLater(w, Step(w, Turns(t))); }
  }

  lemma StepKeepsChecking(w: World, e: Event)
    requires TurnsOK(w) && HitsOK(w) && CheckingOK(w)
    ensures CheckingOK(Step(w, e))
  {
    hide TurnsOK, HitsOK, CheckingOK;
    match e
    case Done(id, failed) => if HasTurn(w, id) && IsChecking(w, id) { DoneKeepsChecking(w, id, failed); }
    case Count(id) => if HasTurn(w, id) && id !in w.stages { CountKeepsChecking(w, id); }
    case Turns(t) => TurnsKeepChecking(w, t);
    case Tick(now) => CheckingLater(w, Step(w, e));
  }

  lemma RecordKeepsCap(log: seq<Time>, now: Time, cfg: Config, x: Time)
    requires Sorted(log) && (forall i | 0 <= i < |log| :: log[i] <= now)
    requires CountAfter(log, now - cfg.window) < cfg.perUserIP && IntervalOK(log, x, cfg)
    ensures IntervalOK(log + [now], x, cfg)
  {
    hide CountAfter, CountIn;
    AdmissionKeepsCap(log, now, Window(cfg.perUserIP, cfg.window), x);
  }

  lemma RecordKeepsCaps(t: Tracker, log: map<Key, seq<Time>>, now: Time, cfg: Config, key: Key, k: Key, x: Time)
    requires Sorted(Of(log, key)) && (forall i | 0 <= i < |Of(log, key)| :: Of(log, key)[i] <= now)
    requires CountAfter(Of(log, key), now - cfg.window) < cfg.perUserIP && IntervalOK(Of(log, k), x, cfg)
    ensures IntervalOK(Of(Recorded(log, key, now) - Evicted(Insert(t, key, now), cfg.maxKeys), k), x, cfg)
  {
    hide CountAfter, IntervalOK, Recorded, Record, Insert, Evicted, Of;
    RecordedOf(t, log, key, now, cfg.maxKeys, k);
    NothingIn(x, cfg);
    if k == key { RecordKeepsCap(Of(log, key), now, cfg, x); }
  }

  /** The room that an attempt being checked still has. */
  lemma RoomWhileChecking(w: World, id: nat)
    requires HitsOK(w) && CheckingOK(w) && HasTurn(w, id) && IsChecking(w, id)
    ensures var log := Of(w.log, w.turns.tasks[id].key);
            && Sorted(log) && (forall i | 0 <= i < |log| :: log[i] <= w.now)
            && CountAfter(log, w.now - w.cfg.window) < w.cfg.perUserIP
  {
    hide CountAfter, Of, StandsFor, Sorted;
    var key := w.turns.tasks[id].key;
    LogBounds(Of(w.tracker.hits, key), Of(w.log, key), w.now, w.cfg.window);
  }

  lemma LogBounds(hits: seq<Time>, log: seq<Time>, now: Time, window: nat)
    requires StandsFor(hits, log, now, window)
    ensures Sorted(log) && forall i | 0 <= i < |log| :: log[i] <= now
  {
  }

  lemma DoneKeepsCap(w: World, id: nat)
    requires HitsOK(w) && CheckingOK(w) && CapOK(w) && HasTurn(w, id) && IsChecking(w, id)
    ensures CapOK(DoneStep(w, id, true))
  {
    hide CountAfter, IntervalOK, Recorded, Record, Insert, Evicted, Of, HitsOK, CheckingOK, Sorted;
    RoomWhileChecking(w, id);
    var w' := DoneStep(w, id, true);
    forall k, x ensures IntervalOK(Of(w'.log, k), x, w'.cfg) {
      assert IntervalOK(Of(w.log, k), x, w.cfg);
      RecordKeepsCaps(w.tracker, w.log, w.now, w.cfg, w.turns.tasks[id].key, k, x);
    }
  }

  lemma NothingIn(x: Time, cfg: Config)
    ensures IntervalOK([], x, cfg)
  {
  }

  lemma StepKeepsCap(w: World, e: Event)
    requires HitsOK(w) && CheckingOK(w) && CapOK(w)
    ensures CapOK(Step(w, e))
  {
    hide HitsOK, CheckingOK, IntervalOK;
    if e.Done? && e.failed && HasTurn(w, e.id) && IsChecking(w, e.id) { DoneKeepsCap(w, e.id); }
  }

  lemma DoneKeepsTracker(w: World, id: nat, failed: bool)
    requires TrackerOK(w) && HasTurn(w, id)
    ensures TrackerOK(DoneStep(w, id, failed))
  {
    hide FailureTracker.Ordered, Record, Insert, Evicted;
    RecordKeepsOrder(w.tracker, w.turns.tasks[id].key, w.now, w.cfg.maxKeys);
  }

  lemma StepKeepsTracker(w: World, e: Event)
    requires TrackerOK(w)
    ensures TrackerOK(Step(w, e))
  {
    hide FailureTracker.Ordered, Prune, DoneStep;
    match e
    case Count(id) =>
      if HasTurn(w, id) && id !in w.stages { PruneKeepsOrder(w.tracker, w.turns.tasks[id].key, w.now - w.cfg.window); }
    case Done(id, failed) => if HasTurn(w, id) && IsChecking(w, id) { DoneKeepsTracker(w, id, failed); }
    case _ =>
  }

  lemma {:induction false} RunsKeepInv(cfg: Config, events: seq<Event>)
    ensures Inv(Run(cfg, events))
  {
    if events == [] {
      assert forall k: Key :: StandsFor(Of(map[], k), Of(map[], k), 0, cfg.window);
    } else {
      hide TurnsOK, HitsOK, CheckingOK, CapOK, TrackerOK, Step;
      var w, e := Run(cfg, events[..|events| - 1]), events[|events| - 1];
      RunsKeepInv(cfg, events[..|events| - 1]);
      StepKeepsTurns(w, e);
      StepKeepsHits(w, e);
      StepKeepsChecking(w, e);
      StepKeepsCap(w, e);
      StepKeepsTracker(w, e);
    }
  }

  /** Under every interleaving, at most one attempt of a key has the turn, from
      before its count to after its outcome; a key has an entry exactly while
      attempts refer to it, and they all refer to that one. */
  lemma OneTurnPerKey(cfg: Config, events: seq<Event>, key: Key, a: nat, b: nat)
    ensures var c := Run(cfg, events).turns;
            && (C.At(c, a, C.Inside) && C.At(c, b, C.Inside) && c.tasks[a].key == c.tasks[b].key ==> a == b)
            && (key in c.entries <==> C.Of(c, key) != {})
            && (forall t | t in C.Of(c, key) :: key in c.entries && c.tasks[t].channel == c.entries[key])
  {
    hide Run;
    RunsKeepInv(cfg, events);
    var c := Run(cfg, events).turns;
    C.OneChannelPerKey(c, key);
    if C.At(c, a, C.Inside) && C.At(c, b, C.Inside) && c.tasks[a].key == c.tasks[b].key { OneTurn(c, a, b); }
  }

  /** No interval of the window's length holds more than the permitted number of
      failed password checks of a key since the tracker last forgot it, so of all
      its failed checks if it never did. */
  lemma FailuresBounded(cfg: Config, events: seq<Event>, key: Key, x: Time)
    ensures var w := Run(cfg, events);
            && CountIn(Of(w.log, key), x, x + cfg.window) <= cfg.perUserIP
            && (key !in w.forgotten ==> CountIn(Of(w.all, key), x, x + cfg.window) <= cfg.perUserIP)
  {
    RunsKeepInv(cfg, events);
    ConfigFixed(cfg, events);
    assert IntervalOK(Of(Run(cfg, events).log, key), x, cfg);
    hide Run, TurnsOK, HitsOK, CheckingOK, CountIn, Of;
  }

  /** An attempt that has the turn is let through to its password check exactly
      if fewer than the permitted failures of its key are inside the window,
      counted on the unpruned log. */
  lemma BlockedExactly(cfg: Config, events: seq<Event>, id: nat)
    requires var w := Run(cfg, events); HasTurn(w, id) && id !in w.stages
    ensures var w := Run(cfg, events);
            IsChecking(Step(w, Count(id)), id) <==>
            CountAfter(Of(w.log, w.turns.tasks[id].key), w.now - cfg.window) < cfg.perUserIP
  {
    RunsKeepInv(cfg, events);
    ConfigFixed(cfg, events);
    hide Run, CountAfter, HitsOK, TurnsOK, CheckingOK, CapOK, CountStep, Of;
    CountKeepsHits(Run(cfg, events), id);
  }

  lemma {:induction false} ConfigFixed(cfg: Config, events: seq<Event>)
    ensures Run(cfg, events).cfg == cfg
  {
    if events != [] { ConfigFixed(cfg, events[..|events| - 1]); }
  }
}
