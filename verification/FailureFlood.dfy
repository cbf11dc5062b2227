/** When the bounded tracker of failed logins forgets a key: exactly when, under
    every interleaving; how many other keys it takes; and that so many always
    suffice to lift an active block. */
module FailureFlood {
  import opened SlidingWindow
  import opened FailureTracker
  import opened FailureLimiter
  import C = KeyedChannels

  lemma RunSnoc(cfg: Config, events: seq<Event>, e: Event)
    ensures Run(cfg, events + [e]) == Step(Run(cfg, events), e)
  {
    assert (events + [e])[..|events + [e]| - 1] == events;
  }

  // Exactly when.

  /** The key of the attempt is not tracked, the tracker is full, and `out` is the
      tracked key that was not used for longest. */
  predicate Crowds(w: World, id: nat, out: Key) {
    && HasTurn(w, id) && w.turns.tasks[id].key !in w.tracker.hits
    && |w.tracker.recent| == w.cfg.maxKeys && LeastRecent(w.tracker, out)
  }

  /** The attempt is one of this key, none of whose failures is inside the window
      any more. */
  predicate RunsOut(w: World, id: nat, out: Key) {
    HasTurn(w, id) && w.turns.tasks[id].key == out && CountAfter(Of(w.log, out), w.now - w.cfg.window) == 0
  }

  lemma CountForgets(w: World, id: nat, out: Key)
    requires HitsOK(w) && HasTurn(w, id) && out in w.tracker.hits
    ensures out !in CountStep(w, id).tracker.hits <==> RunsOut(w, id, out)
  {
    hide AllStandFor, CountAfter, Expired;
    PruneAll(w.tracker, w.log, w.now, w.cfg.window, w.turns.tasks[id].key);
  }

  lemma DoneForgets(w: World, id: nat, out: Key)
    requires TrackerOK(w) && HasTurn(w, id) && out in w.tracker.hits
    ensures out !in DoneStep(w, id, true).tracker.hits <==> Crowds(w, id, out)
    ensures out in Forgotten(w, w.turns.tasks[id].key) <==> Crowds(w, id, out)
  {
    var key := w.turns.tasks[id].key;
    EvictedExactly(w.tracker, key, w.now, w.cfg.maxKeys, out);
    hide LeastRecent, FailureTracker.Ordered, Without;
  }

  /** Under every interleaving an event makes the tracker drop a key exactly if it
      is an attempt of that key whose failures have all left the window, or the
      failure of an attempt that crowds it out. */
  lemma ForgottenExactly(cfg: Config, events: seq<Event>, e: Event, out: Key)
    requires out in Run(cfg, events).tracker.hits
    ensures var w, w' := Run(cfg, events), Run(cfg, events + [e]);
            && (out !in w'.tracker.hits <==>
                || (e.Count? && e.id !in w.stages && RunsOut(w, e.id, out))
                || (e.Done? && e.failed && IsChecking(w, e.id) && Crowds(w, e.id, out)))
            && (e.Done? && e.failed && IsChecking(w, e.id) && Crowds(w, e.id, out) ==>
                  out in w'.forgotten && Of(w'.log, out) == [])
  {
    RunsKeepInv(cfg, events);
    RunSnoc(cfg, events, e);
    hide Run, TurnsOK, HitsOK, CheckingOK, CapOK, TrackerOK, CountAfter, LeastRecent, Prune, Record, Forgotten;
    var w := Run(cfg, events);
    match e
    case Count(id) => if HasTurn(w, id) && id !in w.stages { CountForgets(w, id, out); }
    case Done(id, failed) => if HasTurn(w, id) && IsChecking(w, id) && failed { DoneForgets(w, id, out); }
    case _ =>
  }

  // How many other keys it takes.

  /** The key whose attempt uses the tracker, counting its failures or adding one. */
  function UsedBy(w: World, e: Event): set<Key> {
    match e
    case Count(id) => if HasTurn(w, id) && id !in w.stages then {w.turns.tasks[id].key} else {}
    case Done(id, failed) => if failed && HasTurn(w, id) && IsChecking(w, id) then {w.turns.tasks[id].key} else {}
    case _ => {}
  }

  function Used(cfg: Config, events: seq<Event>, more: seq<Event>): set<Key>
    decreases |more|
  {
    if more == [] then {}
    else
      var front := more[..|more| - 1];
      Used(cfg, events, front) + UsedBy(Run(cfg, events + front), more[|more| - 1])
  }

  /** Only these keys were used after `key`. */
  predicate Behind(t: Tracker, key: Key, used: set<Key>) {
    key in t.hits && key in t.touched ==>
      forall k | k in t.hits && k in t.touched && t.touched[k] > t.touched[key] :: k in used
  }

  lemma TouchBehind(t: Tracker, t': Tracker, k: Key, key: Key, used: set<Key>)
    requires FailureTracker.Ordered(t) && Behind(t, key, used)
    requires t'.touched == t.touched[k := t.ticks] && t'.hits.Keys <= t.hits.Keys + {k}
    ensures Behind(t', key, used + {k})
  {
    KeysAreRecent(t);
    hide Ascending;
  }

  lemma PruneBehind(t: Tracker, k: Key, cut: Time, key: Key, used: set<Key>)
    requires FailureTracker.Ordered(t) && Behind(t, key, used)
    ensures Behind(Prune(t, k, cut), key, used + {k})
  {
    hide FailureTracker.Ordered, Without, Expired;
    var t' := Prune(t, k, cut);
    if t'.ticks != t.ticks { TouchBehind(t, t', k, key, used); }
  }

  lemma RecordBehind(t: Tracker, k: Key, now: Time, max: Positive, key: Key, used: set<Key>)
    requires FailureTracker.Ordered(t) && Behind(t, key, used)
    ensures Behind(Record(t, k, now, max), key, used + {k})
  {
    hide FailureTracker.Ordered, Without;
    TouchBehind(t, Record(t, k, now, max), k, key, used);
  }

  lemma StepBehind(w: World, e: Event, key: Key, used: set<Key>)
    requires TrackerOK(w) && Behind(w.tracker, key, used)
    ensures Behind(Step(w, e).tracker, key, used + UsedBy(w, e))
  {
    hide FailureTracker.Ordered, Prune, Record;
    match e
    case Count(id) =>
      if HasTurn(w, id) && id !in w.stages {
        PruneBehind(w.tracker, w.turns.tasks[id].key, w.now - w.cfg.window, key, used);
      }
    case Done(id, failed) =>
      if failed && HasTurn(w, id) && IsChecking(w, id) {
        RecordBehind(w.tracker, w.turns.tasks[id].key, w.now, w.cfg.maxKeys, key, used);
      }
    case _ =>
  }

  lemma {:induction false} RecentCount(recent: seq<Key>, touched: map<Key, nat>)
    requires Ascending(recent, touched)
    ensures |set k | k in recent| == |recent|
  {
    if recent != [] {
      var first, rest := recent[0], recent[1..];
      RecentCount(rest, touched);
      assert recent == [first] + rest && first !in rest;
      assert (set k | k in recent) == {first} + (set k | k in rest);
    }
  }

  /** A key that is crowded out has as many others used after it as the tracker
      may hold. */
  lemma CrowdIsLarge(w: World, id: nat, key: Key, used: set<Key>)
    requires TrackerOK(w) && Behind(w.tracker, key, used) && Crowds(w, id, key)
    ensures |used + {w.turns.tasks[id].key} - {key}| >= w.cfg.maxKeys
  {
    var t, k := w.tracker, w.turns.tasks[id].key;
    RecentCount(t.recent, t.touched);
    KeysAreRecent(t);
    hide Ascending;
    var all := set k | k in t.recent;
    var others := all - {key} + {k};
    assert |all - {key}| == |all| - 1 && |others| == |all|;
    Within(others, used + {k} - {key});
  }

  lemma Within(a: set<Key>, b: set<Key>)
    requires a <= b
    ensures |a| <= |b|
  {
    assert b == a + (b - a);
  }

  /** What a key's log has stays in it while the key is not forgotten. */
  lemma DoneKeepsLog(w: World, id: nat, key: Key, used: set<Key>)
    requires TrackerOK(w) && HasTurn(w, id) && Behind(w.tracker, key, used)
    requires |used + {w.turns.tasks[id].key} - {key}| < w.cfg.maxKeys
    ensures Of(w.log, key) <= Of(DoneStep(w, id, true).log, key)
  {
    hide FailureTracker.Ordered, Record, Behind, LeastRecent, Evicted, Insert;
    EvictedExactly(w.tracker, w.turns.tasks[id].key, w.now, w.cfg.maxKeys, key);
    if Crowds(w, id, key) { CrowdIsLarge(w, id, key, used); }
    RecordedOf(w.tracker, w.log, w.turns.tasks[id].key, w.now, w.cfg.maxKeys, key);
  }

  lemma StepKeepsLog(w: World, e: Event, key: Key, used: set<Key>)
    requires TrackerOK(w) && Behind(w.tracker, key, used) && |used + UsedBy(w, e) - {key}| < w.cfg.maxKeys
    ensures Of(w.log, key) <= Of(Step(w, e).log, key)
  {
    hide TrackerOK, Prune, Record, Recorded, Behind, Forgotten;
    if e.Done? && e.failed && HasTurn(w, e.id) && IsChecking(w, e.id) {
      DoneKeepsLog(w, e.id, key, used);
    } else {
      LogUnchanged(w, e);
    }
  }

  lemma LogUnchanged(w: World, e: Event)
    requires !(e.Done? && e.failed && HasTurn(w, e.id) && IsChecking(w, e.id))
    ensures Step(w, e).log == w.log
  {
  }

  lemma {:induction false} FewKeysForgetNothing(cfg: Config, events: seq<Event>, more: seq<Event>, key: Key)
    requires Behind(Run(cfg, events).tracker, key, {}) && |Used(cfg, events, more) - {key}| < cfg.maxKeys
    ensures Behind(Run(cfg, events + more).tracker, key, Used(cfg, events, more))
    ensures Of(Run(cfg, events).log, key) <= Of(Run(cfg, events + more).log, key)
  {
    hide Behind, Step, Inv, TrackerOK, UsedBy;
    if more == [] {
      assert events + more == events;
    } else {
      var front, e := more[..|more| - 1], more[|more| - 1];
      var used, w := Used(cfg, events, front), Run(cfg, events + front);
      assert events + more == events + front + [e];
      RunSnoc(cfg, events + front, e);
      Within(used - {key}, used + UsedBy(w, e) - {key});
      FewKeysForgetNothing(cfg, events, front, key);
      InvOf(cfg, events + front);
      StepBehind(w, e, key, used);
      StepKeepsLog(w, e, key, used);
    }
  }

  lemma InvOf(cfg: Config, events: seq<Event>)
    ensures TrackerOK(Run(cfg, events)) && HitsOK(Run(cfg, events)) && Run(cfg, events).cfg == cfg
  {
    RunsKeepInv(cfg, events);
    ConfigFixed(cfg, events);
  }

  /** An attempt that has the turn and is about to count its key's failures. */
  predicate Asks(w: World, id: nat, key: Key) { HasTurn(w, id) && id !in w.stages && w.turns.tasks[id].key == key }

  /** Such an attempt, and it is refused. */
  predicate Refused(w: World, id: nat, key: Key) { Asks(w, id, key) && !IsChecking(Step(w, Count(id)), id) }

  /** A refusal makes the key the one used last. */
  lemma RefusalUses(w: World, id: nat, key: Key)
    requires TrackerOK(w) && Refused(w, id, key)
    ensures Behind(Step(w, Count(id)).tracker, key, {})
  {
    var t, t' := w.tracker, Step(w, Count(id)).tracker;
    assert key in t.hits && t'.touched == t.touched[key := t.ticks];
  }

  lemma {:induction false} PrefixCount(log: seq<Time>, more: seq<Time>, cut: Time)
    requires log <= more
    ensures CountAfter(log, cut) <= CountAfter(more, cut)
  {
    if log == more {
    } else {
      PrefixCount(log, more[..|more| - 1], cut);
    }
  }

  /** An active block stays, in every run: from a refusal on, while fewer
      other keys than the tracker holds are used, every attempt of the key is
      refused as long as enough of its failures are inside the window. */
  lemma BlockSurvives(cfg: Config, events: seq<Event>, id: nat, key: Key, more: seq<Event>, again: nat)
    requires Refused(Run(cfg, events), id, key)
    requires |Used(cfg, events + [Count(id)], more) - {key}| < cfg.maxKeys
    requires Asks(Run(cfg, events + [Count(id)] + more), again, key)
    requires var w, w' := Run(cfg, events), Run(cfg, events + [Count(id)] + more);
             CountAfter(Of(w.log, key), w'.now - cfg.window) >= cfg.perUserIP
    ensures Refused(Run(cfg, events + [Count(id)] + more), again, key)
  {
    hide Run, Step, Behind, TrackerOK, HitsOK, CountAfter, Used, HasTurn, Of;
    var w, after := Run(cfg, events), events + [Count(id)];
    InvOf(cfg, events);
    RunSnoc(cfg, events, Count(id));
    RefusalUses(w, id, key);
    FewKeysForgetNothing(cfg, after, more, key);
    LogUnchanged(w, Count(id));
    var w' := Run(cfg, after + more);
    PrefixCount(Of(w.log, key), Of(w'.log, key), w'.now - cfg.window);
    BlockedExactly(cfg, after + more, again);
  }

  // So many always suffice.

  /** Nobody is logging in. */
  predicate Quiet(w: World) {
    w.turns.tasks == map[] && w.turns.entries == map[] && w.turns.cap == 1 && w.stages == map[]
  }

  /** Attempt 0 is the only one, and has the turn of this key. */
  predicate Alone(c: C.Channels, key: Key) {
    && c.cap == 1 && c.tasks.Keys == {0} && c.tasks[0].key == key && C.At(c, 0, C.Inside)
    && c.objects[c.tasks[0].channel] == C.Channel(1, 1) && c.entries == map[key := c.tasks[0].channel]
  }

  lemma TakesTurn(c: C.Channels, key: Key)
    requires c.tasks == map[] && c.entries == map[] && c.cap == 1
    ensures C.Enabled(c, C.Enter(0, key)) && C.Enabled(C.Step(c, C.Enter(0, key)), C.Send(0))
    ensures Alone(C.Step(C.Step(c, C.Enter(0, key)), C.Send(0)), key)
  {
  }

  lemma GivesTurn(c: C.Channels, key: Key)
    requires Alone(c, key)
    ensures C.Enabled(c, C.Receive(0)) && C.Enabled(C.Step(c, C.Receive(0)), C.Leave(0))
    ensures var c' := C.Step(C.Step(c, C.Receive(0)), C.Leave(0));
            c'.tasks == map[] && c'.entries == map[] && c'.cap == 1
  {
  }

  lemma Begins(cfg: Config, events: seq<Event>, key: Key) returns (more: seq<Event>)
    requires Quiet(Run(cfg, events))
    ensures var w, w' := Run(cfg, events), Run(cfg, events + more);
            w' == w.(turns := w'.turns) && Alone(w'.turns, key)
  {
    hide Run, C.Step, C.Enabled;
    var e, e' := Turns(C.Enter(0, key)), Turns(C.Send(0));
    TakesTurn(Run(cfg, events).turns, key);
    RunSnoc(cfg, events, e);
    RunSnoc(cfg, events + [e], e');
    more := [e] + [e'];
    assert events + more == events + [e] + [e'];
  }

  lemma Ends(cfg: Config, events: seq<Event>, key: Key) returns (more: seq<Event>)
    requires var w := Run(cfg, events); Alone(w.turns, key) && w.stages == map[0 := Over]
    ensures var w, w' := Run(cfg, events), Run(cfg, events + more);
            w' == w.(turns := w'.turns, stages := map[]) && Quiet(w')
  {
    hide Run, C.Step, C.Enabled;
    var e, e' := Turns(C.Receive(0)), Turns(C.Leave(0));
    GivesTurn(Run(cfg, events).turns, key);
    RunSnoc(cfg, events, e);
    RunSnoc(cfg, events + [e], e');
    more := [e] + [e'];
    assert events + more == events + [e] + [e'];
  }

  /** The tracker after an attempt of the key that was let in and failed. */
  function AfterFailure(w: World, key: Key): Tracker {
    Record(Prune(w.tracker, key, w.now - w.cfg.window), key, w.now, w.cfg.maxKeys)
  }

  predicate Blocks(w: World, key: Key) {
    var ts := Of(w.tracker.hits, key); |ts| - Expired(ts, w.now - w.cfg.window) >= w.cfg.perUserIP
  }

  lemma FailsOnce(cfg: Config, events: seq<Event>, key: Key) returns (more: seq<Event>)
    requires Quiet(Run(cfg, events)) && !Blocks(Run(cfg, events), key)
    ensures var w, w' := Run(cfg, events), Run(cfg, events + more);
            && Quiet(w') && w'.now == w.now && w'.cfg == w.cfg
            && w'.tracker == AfterFailure(w, key) && w'.all == Recorded(w.all, key, w.now)
  {
    hide Run, Prune, Record, Recorded, Forgotten, Expired;
    var begin := Begins(cfg, events, key);
    var asked := events + begin;
    RunSnoc(cfg, asked, Count(0));
    RunSnoc(cfg, asked + [Count(0)], Done(0, true));
    var done := asked + [Count(0)] + [Done(0, true)];
    var end := Ends(cfg, done, key);
    more := begin + [Count(0)] + [Done(0, true)] + end;
    assert events + more == done + end;
  }

  function Zeros(n: nat): (ts: seq<Time>)
    ensures |ts| == n && forall i | 0 <= i < n :: ts[i] == 0
  {
    seq(n, i => 0)
  }

  /** So many failures of the key at time 0, and of no other key. */
  predicate Failed(w: World, cfg: Config, key: Key, n: nat) {
    && w.now == 0 && w.cfg == cfg
    && Of(w.tracker.hits, key) == Zeros(n) && w.tracker.recent == (if n == 0 then [] else [key])
    && w.all == if n == 0 then map[] else map[key := Zeros(n)]
  }

  /** With a window, nothing of time 0 has expired at time 0. */
  lemma NothingExpired(n: nat, window: int)
    requires window > 0
    ensures Expired(Zeros(n), 0 - window) == 0
  {
  }

  lemma OwnFailure(w: World, key: Key, n: nat)
    requires w.now == 0 && w.cfg.window > 0 && TrackerOK(w)
    requires Of(w.tracker.hits, key) == Zeros(n) && w.tracker.recent == if n == 0 then [] else [key]
    ensures Of(AfterFailure(w, key).hits, key) == Zeros(n + 1) && AfterFailure(w, key).recent == [key]
  {
    OwnPruned(w, key, n);
    hide Prune, Zeros, TrackerOK;
    UsedAgain(key);
    assert Zeros(n) + [0] == Zeros(n + 1) by { AnotherZero(n); }
  }

  lemma AnotherZero(n: nat)
    ensures Zeros(n) + [0] == Zeros(n + 1)
  {
  }

  /** Using the only key again. */
  lemma UsedAgain(key: Key)
    ensures Without([], key) + [key] == [key] && Without([key], key) + [key] == [key]
  {
    assert [key][1..] == [];
  }

  lemma OwnPruned(w: World, key: Key, n: nat)
    requires w.now == 0 && w.cfg.window > 0 && TrackerOK(w)
    requires Of(w.tracker.hits, key) == Zeros(n) && w.tracker.recent == if n == 0 then [] else [key]
    ensures var t := Prune(w.tracker, key, w.now - w.cfg.window);
            Of(t.hits, key) == Zeros(n) && t.recent == w.tracker.recent
  {
    NothingExpired(n, w.cfg.window);
    hide Expired, Zeros, Without;
    UsedAgain(key);
    assert Zeros(n)[0..] == Zeros(n);
    assert key in w.tracker.recent <==> key in w.tracker.hits;
  }

  lemma FailedAgain(w: World, w': World, cfg: Config, key: Key, n: nat)
    requires Failed(w, cfg, key, n) && cfg.window > 0 && TrackerOK(w)
    requires w'.now == w.now && w'.cfg == w.cfg
    requires w'.tracker == AfterFailure(w, key) && w'.all == Recorded(w.all, key, w.now)
    ensures Failed(w', cfg, key, n + 1)
  {
    hide AfterFailure, TrackerOK, Recorded, Zeros;
    OwnFailure(w, key, n);
    OnlyOne(w.all, key, n);
  }

  lemma OnlyOne(all: map<Key, seq<Time>>, key: Key, n: nat)
    requires all == if n == 0 then map[] else map[key := Zeros(n)]
    ensures Recorded(all, key, 0) == map[key := Zeros(n + 1)]
  {
    assert Zeros(n) + [0] == Zeros(n + 1);
    assert Of(all, key) == Zeros(n);
    hide Zeros;
  }

  lemma {:induction false} Failures(cfg: Config, key: Key, n: nat) returns (events: seq<Event>)
    requires cfg.window > 0 && n <= cfg.perUserIP
    ensures Quiet(Run(cfg, events)) && Failed(Run(cfg, events), cfg, key, n)
  {
    if n == 0 {
      events := [];
    } else {
      var before := Failures(cfg, key, n - 1);
      InvOf(cfg, before);
      NothingExpired(n - 1, cfg.window);
      hide Run, AfterFailure, Expired, TrackerOK, HitsOK, Recorded, Quiet;
      var more := FailsOnce(cfg, before, key);
      events := before + more;
      FailedAgain(Run(cfg, before), Run(cfg, events), cfg, key, n - 1);
    }
  }

  /** An attempt counts as many failures as are permitted. */
  lemma RefusedStep(w: World, cfg: Config, key: Key)
    requires Failed(w, cfg, key, cfg.perUserIP) && cfg.window > 0 && Alone(w.turns, key) && w.stages == map[]
    ensures Refused(w, 0, key)
    ensures var w' := Step(w, Count(0));
            w'.turns == w.turns && w'.stages == map[0 := Over] && Failed(w', cfg, key, cfg.perUserIP)
  {
    NothingExpired(cfg.perUserIP, cfg.window);
    hide Expired;
    assert Without([key], key) == [];
    assert [] + [key] == [key];
    assert Zeros(cfg.perUserIP)[0..] == Zeros(cfg.perUserIP);
  }

  /** The block is noticed: an attempt is refused and goes. */
  lemma GoesRefused(cfg: Config, events: seq<Event>, key: Key) returns (more: seq<Event>, left: seq<Event>)
    requires cfg.window > 0 && Quiet(Run(cfg, events)) && Failed(Run(cfg, events), cfg, key, cfg.perUserIP)
    ensures Refused(Run(cfg, events + more), 0, key) && Failed(Run(cfg, events + more), cfg, key, cfg.perUserIP)
    ensures var w := Run(cfg, events + more + left); Quiet(w) && Failed(w, cfg, key, cfg.perUserIP)
  {
    hide Run, Step, Refused, Alone;
    more := Begins(cfg, events, key);
    var asked := events + more;
    RefusedStep(Run(cfg, asked), cfg, key);
    RunSnoc(cfg, asked, Count(0));
    var end := Ends(cfg, asked + [Count(0)], key);
    left := [Count(0)] + end;
    assert asked + left == asked + [Count(0)] + end;
  }

  predicate Distinct(keys: seq<Key>) { forall i, j | 0 <= i < j < |keys| :: keys[i] != keys[j] }

  /** One failure each, at time 0. */
  function Once(keys: seq<Key>): map<Key, seq<Time>> { map k | k in keys :: [0] }

  lemma OnceMore(all: map<Key, seq<Time>>, keys: seq<Key>, k: Key)
    requires k !in all && k !in keys
    ensures Recorded(all + Once(keys), k, 0) == all + Once(keys + [k]) && all + Once([]) == all
  {
    assert Of(all + Once(keys), k) == [];
    assert [] + [0] == [0];
  }

  /** The key and so many of the others have failed; the last one pushes it out. */
  predicate Flooded(w: World, cfg: Config, key: Key, others: seq<Key>, n: nat)
    requires n <= |others|
  {
    && w.now == 0 && w.cfg == cfg && w.all == map[key := Zeros(cfg.perUserIP)] + Once(others[..n])
    && w.tracker.recent == if n < cfg.maxKeys then [key] + others[..n] else others[..n]
  }

  lemma OtherFailure(w: World, k: Key)
    requires TrackerOK(w) && k !in w.tracker.recent
    ensures var r := w.tracker.recent + [k];
            AfterFailure(w, k).recent == if |r| > w.cfg.maxKeys then r[1..] else r
    ensures !Blocks(w, k)
  {
    WithoutOther(w.tracker.recent, k);
    hide Without;
  }

  lemma FloodRecent(key: Key, others: seq<Key>, n: nat)
    requires n < |others| && key !in others && Distinct(others)
    ensures others[n] !in [key] + others[..n] && others[n] != key && others[n] !in others[..n]
    ensures [key] + others[..n] + [others[n]] == [key] + others[..n + 1]
    ensures ([key] + others[..n + 1])[1..] == others[..n + 1] == others[..n] + [others[n]]
  {
  }

  lemma FloodedMore(w: World, w': World, cfg: Config, key: Key, others: seq<Key>, n: nat)
    requires n < |others| == cfg.maxKeys && key !in others && Distinct(others)
    requires Flooded(w, cfg, key, others, n) && TrackerOK(w)
    requires w'.now == w.now && w'.cfg == w.cfg
    requires w'.tracker == AfterFailure(w, others[n]) && w'.all == Recorded(w.all, others[n], w.now)
    ensures Flooded(w', cfg, key, others, n + 1)
  {
    hide AfterFailure, TrackerOK, Distinct, Once, Recorded, Zeros;
    FloodRecent(key, others, n);
    OnceMore(map[key := Zeros(cfg.perUserIP)], others[..n], others[n]);
    OtherFailure(w, others[n]);
  }

  lemma FloodStart(w: World, cfg: Config, key: Key, others: seq<Key>)
    requires Failed(w, cfg, key, cfg.perUserIP)
    ensures Flooded(w, cfg, key, others, 0)
  {
    var all := map[key := Zeros(cfg.perUserIP)];
    hide Zeros;
    assert [key] + others[..0] == [key];
    assert all + Once(others[..0]) == all;
  }

  lemma NextIsNew(w: World, cfg: Config, key: Key, others: seq<Key>, n: nat)
    requires n < |others| == cfg.maxKeys && key !in others && Distinct(others)
    requires Flooded(w, cfg, key, others, n) && TrackerOK(w)
    ensures !Blocks(w, others[n])
  {
    hide AfterFailure, TrackerOK, Distinct, Once, Zeros;
    FloodRecent(key, others, n);
    OtherFailure(w, others[n]);
  }

  lemma {:induction false} Flood(cfg: Config, events: seq<Event>, key: Key, others: seq<Key>, n: nat)
    returns (more: seq<Event>)
    requires Quiet(Run(cfg, events)) && Failed(Run(cfg, events), cfg, key, cfg.perUserIP)
    requires n <= |others| == cfg.maxKeys && key !in others && Distinct(others)
    ensures Quiet(Run(cfg, events + more)) && Flooded(Run(cfg, events + more), cfg, key, others, n)
  {
    hide Run, AfterFailure, TrackerOK, HitsOK, Distinct, Quiet, Recorded, Blocks, Failed, Flooded;
    if n == 0 {
      more := [];
      assert events + more == events;
      FloodStart(Run(cfg, events), cfg, key, others);
    } else {
      var before := Flood(cfg, events, key, others, n - 1);
      var so := events + before;
      InvOf(cfg, so);
      NextIsNew(Run(cfg, so), cfg, key, others, n - 1);
      var next := FailsOnce(cfg, so, others[n - 1]);
      more := before + next;
      assert events + more == so + next;
      FloodedMore(Run(cfg, so), Run(cfg, so + next), cfg, key, others, n - 1);
    }
  }

  /** After the flood the key is not tracked, and nothing is counted. */
  lemma LetIn(w: World, cfg: Config, key: Key, others: seq<Key>)
    requires Flooded(w, cfg, key, others, |others|) && |others| == cfg.maxKeys && key !in others
    requires TrackerOK(w) && Alone(w.turns, key) && w.stages == map[]
    ensures Asks(w, 0, key) && IsChecking(Step(w, Count(0)), 0)
  {
    assert others[..|others|] == others;
    assert key !in w.tracker.hits;
  }

  lemma {:induction false} CountZeros(n: nat, cut: Time)
    requires cut < 0
    ensures CountAfter(Zeros(n), cut) == n
  {
    if n > 0 {
      assert Zeros(n)[..n - 1] == Zeros(n - 1);
      CountZeros(n - 1, cut);
    }
  }

  /** With as many other keys it does not: for every setting with a window, every
      key and any such others there is a run in which an attempt of the key is
      refused, the others fail once each, all at one moment, and then an attempt of
      the key is let in although all its failures are inside the window. */
  lemma FloodForgetsBlock(cfg: Config, key: Key, others: seq<Key>) returns (events: seq<Event>, flood: seq<Event>)
    requires cfg.window > 0 && |others| == cfg.maxKeys && key !in others && Distinct(others)
    ensures var w, w' := Run(cfg, events), Run(cfg, events + flood);
            && Refused(w, 0, key) && Asks(w', 0, key) && IsChecking(Step(w', Count(0)), 0) && w'.now == w.now
            && w'.all == w.all + (map k | k in others :: [w.now])
            && CountAfter(Of(w'.all, key), w'.now - cfg.window) >= cfg.perUserIP
  {
    hide Run, Step, Refused, Asks, IsChecking, Alone, Distinct, TrackerOK, HitsOK, CountAfter;
    var failed := Failures(cfg, key, cfg.perUserIP);
    var asks, left := GoesRefused(cfg, failed, key);
    events := failed + asks;
    var more := Flood(cfg, events + left, key, others, |others|);
    var flooded := events + left + more;
    var again := Begins(cfg, flooded, key);
    flood := left + more + again;
    assert events + flood == flooded + again;
    InvOf(cfg, flooded + again);
    LetIn(Run(cfg, flooded + again), cfg, key, others);
    CountZeros(cfg.perUserIP, 0 - cfg.window);
    assert others[..|others|] == others;
  }

  /** There are always such keys: the same address with longer names. */
  lemma OtherKeys(key: Key, n: nat) returns (others: seq<Key>)
    ensures |others| == n && key !in others && Distinct(others)
  {
    others := seq(n, i requires 0 <= i < n => key + seq(i + 1, j => 'x'));
    assert forall i | 0 <= i < n :: |others[i]| == |key| + i + 1;
  }

  /** Without a window nothing is ever refused. */
  lemma NoWindowNoBlock(cfg: Config, events: seq<Event>, id: nat, key: Key)
    requires cfg.window == 0
    ensures !Refused(Run(cfg, events), id, key)
  {
    hide Run, Step, TurnsOK, CheckingOK, CapOK, TrackerOK, CountAfter, Of, HasTurn;
    var w := Run(cfg, events);
    if Asks(w, id, key) {
      RunsKeepInv(cfg, events);
      ConfigFixed(cfg, events);
      BlockedExactly(cfg, events, id);
      LogBounds(Of(w.tracker.hits, key), Of(w.log, key), w.now, w.cfg.window);
      NoneAfter(Of(w.log, key), w.now);
    }
  }
}
