/** The bounded tracker of failed logins: timestamps per key, and the keys by how
    recently they were used, so that the least recent one is forgotten when there
    are too many. */
module FailureTracker {
  import opened SlidingWindow

  type Time = int
  type Key = string

  /** A limit of 0 or less turns the throttle off before any of this. */
  type Positive = n: int | n > 0 witness 1

  datatype Config = Config(window: nat, perUserIP: Positive, maxKeys: Positive)

  /** `recent` has the keys, the least recently used first; `touched` says when
      each was last used, counted by `ticks`. */
  datatype Tracker = Tracker(hits: map<Key, seq<Time>>, recent: seq<Key>, touched: map<Key, nat>, ticks: nat)

  const NO_FAILURES := Tracker(map[], [], map[], 0)

  function Of(m: map<Key, seq<Time>>, key: Key): seq<Time> { if key in m then m[key] else [] }

  function Without(recent: seq<Key>, key: Key): seq<Key> {
    if recent == [] then []
    else if recent[0] == key then recent[1..]
    else [recent[0]] + Without(recent[1..], key)
  }

  /** Uses a key: it becomes the most recent. */
  function Touch(t: Tracker, key: Key): Tracker {
    t.(recent := Without(t.recent, key) + [key], touched := t.touched[key := t.ticks], ticks := t.ticks + 1)
  }

  /** How many timestamps at the front are not after the cut. */
  function Expired(ts: seq<Time>, cut: Time): (n: nat)
    ensures n <= |ts| && (forall i | 0 <= i < n :: ts[i] <= cut) && (n < |ts| ==> ts[n] > cut)
  {
    if ts == [] || ts[0] > cut then 0
    else
      assert forall i | 0 < i < |ts| :: ts[i] == ts[1..][i - 1];
      1 + Expired(ts[1..], cut)
  }

  /** The key without its expired timestamps, or not at all. */
  function Prune(t: Tracker, key: Key, cut: Time): Tracker {
    if key !in t.hits then t
    else
      var live := t.hits[key][Expired(t.hits[key], cut)..];
      if live == [] then t.(hits := t.hits - {key}, recent := Without(t.recent, key))
      else Touch(t.(hits := t.hits[key := live]), key)
  }

  function Insert(t: Tracker, key: Key, now: Time): Tracker {
    Touch(t.(hits := t.hits[key := Of(t.hits, key) + [now]]), key)
  }

  /** The keys that a failure pushes out. */
  function Evicted(t: Tracker, max: Positive): set<Key> { if |t.recent| > max then {t.recent[0]} else {} }

  function Evict(t: Tracker, max: Positive): Tracker {
    if |t.recent| > max then t.(hits := t.hits - {t.recent[0]}, recent := t.recent[1..]) else t
  }

  function Record(t: Tracker, key: Key, now: Time, max: Positive): Tracker { Evict(Insert(t, key, now), max) }

  /** The tracker behind the mutex. */
  class Failures {
    const cfg: Config
    var hits: map<Key, seq<Time>>
    var recent: seq<Key>
    ghost var touched: map<Key, nat>
    ghost var ticks: nat

    ghost function View(): Tracker reads this { Tracker(hits, recent, touched, ticks) }

    constructor (cfg: Config)
      ensures this.cfg == cfg && View() == NO_FAILURES
    {
      this.cfg, hits, recent, touched, ticks := cfg, map[], [], map[], 0;
    }

    /** Prunes and counts the failures of `key` inside the window. */
    method CountLocked(key: Key, now: Time) returns (n: nat)
      modifies this
      ensures View() == Prune(old(View()), key, now - cfg.window)
      ensures n == var ts := Of(old(hits), key); |ts| - Expired(ts, now - cfg.window)
    {
      if key !in hits { return 0; }
      var ts := hits[key];
      var i := FirstAfter(ts, now - cfg.window);
      if i == |ts| {
        hits, recent := hits - {key}, Without(recent, key);
        return 0;
      }
      assert i == 0 ==> ts[i..] == ts && hits[key := ts] == hits;
      if i > 0 { hits := hits[key := ts[i..]]; }
      recent := Without(recent, key) + [key];
      touched, ticks := touched[key := ticks], ticks + 1;
      return |ts| - i;
    }

    method RecordLocked(key: Key, now: Time)
      modifies this
      ensures View() == Record(old(View()), key, now, cfg.maxKeys)
    {
      var ts := if key in hits then hits[key] else [];
      hits, recent := hits[key := ts + [now]], Without(recent, key) + [key];
      touched, ticks := touched[key := ticks], ticks + 1;
      if |recent| > cfg.maxKeys { hits, recent := hits - {recent[0]}, recent[1..]; }
    }
  }

  method FirstAfter(ts: seq<Time>, cut: Time) returns (i: nat)
    ensures i == Expired(ts, cut)
  {
    i := 0;
    while i < |ts| && ts[i] <= cut
      invariant i <= Expired(ts, cut)
    {
      i := i + 1;
    }
  }

  /** On sorted timestamps the rest are exactly those inside the window. */
  lemma ExpiredIsRest(ts: seq<Time>, cut: Time)
    requires Sorted(ts)
    ensures |ts| - Expired(ts, cut) == CountAfter(ts, cut)
  {
    var n := Expired(ts, cut);
    hide Expired;
    assert forall i | n <= i < |ts| :: ts[i] > cut;
    SuffixStart(ts, cut, n);
  }

  // The order of the keys.

  /** Each key was used before those that follow it. */
  predicate Ascending(recent: seq<Key>, touched: map<Key, nat>) {
    recent != [] ==>
      && recent[0] in touched
      && (forall k | k in recent[1..] :: k in touched && touched[recent[0]] < touched[k])
      && Ascending(recent[1..], touched)
  }

  /** The tracked keys are exactly the recent ones, ordered by their last use. */
  ghost predicate Ordered(t: Tracker) {
    && Ascending(t.recent, t.touched)
    && (forall k :: k in t.recent <==> k in t.hits)
    && (forall k | k in t.touched :: t.touched[k] < t.ticks)
  }

  lemma {:induction false} WithoutKeeps(recent: seq<Key>, key: Key, touched: map<Key, nat>)
    requires Ascending(recent, touched)
    ensures Ascending(Without(recent, key), touched)
    ensures forall k :: k in Without(recent, key) <==> k in recent && k != key
    ensures |Without(recent, key)| == |recent| - if key in recent then 1 else 0
  {
    if recent != [] {
      var first, rest := recent[0], recent[1..];
      assert recent == [first] + rest;
      WithoutKeeps(rest, key, touched);
      var shorter := Without(rest, key);
      assert ([first] + shorter)[1..] == shorter;
    }
  }

  /** A key that is used now comes last; the uses of others do not change. */
  lemma {:induction false} TouchedLast(others: seq<Key>, key: Key, touched: map<Key, nat>, tick: nat)
    requires Ascending(others, touched) && key !in others && forall k | k in others :: k in touched && touched[k] < tick
    ensures Ascending(others + [key], touched[key := tick])
  {
    if others == [] {
      assert others + [key] == [key] && [key][1..] == [];
      assert Ascending([], touched[key := tick]);
    } else {
      assert (others + [key])[1..] == others[1..] + [key];
      assert others == [others[0]] + others[1..];
      TouchedLast(others[1..], key, touched, tick);
    }
  }

  lemma {:induction false} AllTouched(recent: seq<Key>, touched: map<Key, nat>)
    requires Ascending(recent, touched)
    ensures forall k | k in recent :: k in touched
  {
    if recent != [] {
      assert recent == [recent[0]] + recent[1..];
      AllTouched(recent[1..], touched);
    }
  }

  lemma TouchKeepsOrder(t: Tracker, key: Key)
    requires Ordered(t.(hits := t.hits - {key}, recent := Without(t.recent, key))) && key in t.hits
    ensures Ordered(Touch(t, key)) && |Touch(t, key).recent| == |Without(t.recent, key)| + 1
  {
    var others := Without(t.recent, key);
    hide Without, Ascending;
    assert key !in others;
    AllTouched(others, t.touched);
    TouchedLast(others, key, t.touched, t.ticks);
  }

  lemma DropKeepsOrder(t: Tracker, key: Key)
    requires Ordered(t)
    ensures Ordered(t.(hits := t.hits - {key}, recent := Without(t.recent, key)))
    ensures |Without(t.recent, key)| == |t.recent| - if key in t.hits then 1 else 0
  {
    WithoutKeeps(t.recent, key, t.touched);
    hide Without;
  }

  lemma PruneKeepsOrder(t: Tracker, key: Key, cut: Time)
    requires Ordered(t)
    ensures Ordered(Prune(t, key, cut)) && |Prune(t, key, cut).recent| <= |t.recent|
  {
    hide Ordered, Without, Expired;
    DropKeepsOrder(t, key);
    if key in t.hits {
      var live := t.hits[key][Expired(t.hits[key], cut)..];
      var t' := t.(hits := t.hits[key := live]);
      assert t'.hits - {key} == t.hits - {key};
      if live != [] { TouchKeepsOrder(t', key); }
    }
  }

  lemma InsertKeepsOrder(t: Tracker, key: Key, now: Time)
    requires Ordered(t)
    ensures Ordered(Insert(t, key, now)) && |Insert(t, key, now).recent| <= |t.recent| + 1
  {
    hide Ordered, Without;
    DropKeepsOrder(t, key);
    var t' := t.(hits := t.hits[key := Of(t.hits, key) + [now]]);
    assert t'.hits - {key} == t.hits - {key};
    TouchKeepsOrder(t', key);
  }

  lemma EvictKeepsOrder(t: Tracker, max: Positive)
    requires Ordered(t) && |t.recent| <= max + 1
    ensures Ordered(Evict(t, max)) && |Evict(t, max).recent| <= max
  {
    if |t.recent| > max { assert t.recent == [t.recent[0]] + t.recent[1..]; }
  }

  lemma RecordKeepsOrder(t: Tracker, key: Key, now: Time, max: Positive)
    requires Ordered(t) && |t.recent| <= max
    ensures Ordered(Record(t, key, now, max)) && |Record(t, key, now, max).recent| <= max
  {
    hide Ordered, Insert, Evict;
    InsertKeepsOrder(t, key, now);
    EvictKeepsOrder(Insert(t, key, now), max);
  }

  /** A failure pushes another key out only if all the keys it may track then
      were used after that one, and never its own. */
  lemma EvictsOnlyTheLeastRecent(t: Tracker, key: Key, now: Time, max: Positive, out: Key)
    requires Ordered(t) && |t.recent| <= max && out in Evicted(Insert(t, key, now), max)
    ensures var t' := Record(t, key, now, max);
            && out != key && out in t.hits && out in t.touched
            && |t'.recent| == max && t'.hits.Keys == (set k | k in t'.recent)
            && forall k | k in t'.recent :: k in t'.touched && t'.touched[k] > t.touched[out]
  {
    hide Without, Ascending, Ordered;
    var i, t' := Insert(t, key, now), Record(t, key, now, max);
    InsertKeepsOrder(t, key, now);
    RecordKeepsOrder(t, key, now, max);
    KeysAreRecent(i);
    KeysAreRecent(t');
    var rest := i.recent[1..];
    assert i.recent == [out] + rest && i.recent[|i.recent| - 1] == key && rest[|rest| - 1] == key;
    assert key in rest && out in i.recent;
    FirstIsOldest(i);
    assert out != key;
    assert out in t.hits by { assert out in i.hits.Keys; }
    KeysAreRecent(t);
    assert t'.recent == rest && t'.touched == i.touched;
  }

  lemma KeysAreRecent(t: Tracker)
    requires Ordered(t)
    ensures t.hits.Keys == (set k | k in t.recent) && forall k | k in t.recent :: k in t.touched
  {
    AllTouched(t.recent, t.touched);
    hide Ascending;
  }

  lemma FirstIsOldest(t: Tracker)
    requires Ordered(t) && t.recent != []
    ensures var first := t.recent[0];
            first in t.touched && forall k | k in t.recent[1..] :: k in t.touched && t.touched[first] < t.touched[k]
  {
  }

  /** The tracked key that was not used for longest. */
  predicate LeastRecent(t: Tracker, key: Key) {
    && key in t.hits && key in t.touched
    && forall k | k in t.hits && k != key :: k in t.touched && t.touched[key] < t.touched[k]
  }

  lemma FirstIsLeastRecent(t: Tracker, key: Key)
    requires Ordered(t)
    ensures LeastRecent(t, key) <==> t.recent != [] && t.recent[0] == key
  {
    hide Ascending;
    KeysAreRecent(t);
    if t.recent != [] {
      FirstIsOldest(t);
      assert t.recent[0] in t.recent;
      assert t.recent == [t.recent[0]] + t.recent[1..];
      assert forall k | k in t.hits && k != t.recent[0] :: k in t.recent[1..];
    }
  }

  lemma {:induction false} WithoutOther(recent: seq<Key>, key: Key)
    requires key !in recent
    ensures Without(recent, key) == recent
  {
    if recent != [] { WithoutOther(recent[1..], key); }
  }

  /** A failure makes the tracker forget a key exactly if its own key is not
      tracked, the tracker is full, and that key was not used for longest. */
  lemma EvictedExactly(t: Tracker, key: Key, now: Time, max: Positive, out: Key)
    requires Ordered(t) && |t.recent| <= max
    ensures out in Evicted(Insert(t, key, now), max) <==> key !in t.hits && |t.recent| == max && LeastRecent(t, out)
  {
    FirstIsLeastRecent(t, out);
    DropKeepsOrder(t, key);
    hide Ordered, LeastRecent;
    KeysAreRecent(t);
    if key !in t.hits {
      WithoutOther(t.recent, key);
      hide Without;
      assert (t.recent + [key])[..|t.recent|] == t.recent;
    }
  }
}
