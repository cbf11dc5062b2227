/** The two limiters when a policy gains or loses its daily cap between calls:
    when they still answer alike, and exactly when they part. */
module ChangingLimits {
  import opened SlidingWindow
  import opened MemoryLimiter
  import Mem = LimiterRuns
  import opened LimiterTheorems
  import opened RedisLimiter

  /** A call finds nothing left of a history that memory holds for longer than the
      store would hold a key that is new with this call: memory keeps the later
      expiry, the store has deleted it with the key. */
  predicate Parts(h: History, now: Time, limits: Limits, goneAtExpiry: bool) {
    h.expires > now + limits.Keep() + (if goneAtExpiry then 0 else MS) && Kept(h, now, limits) == []
  }

  predicate ExpiresAt(k: Key, now: Time) { k.Present? && k.expiry == At(now) }

  /** How many hits of the last day a store that still has the key in the very
      millisecond it expires has more than memory, where it is gone by then. */
  function Leftover(h: History, k: Key, now: Time, goneAtExpiry: bool): nat {
    if !goneAtExpiry && ExpiresAt(k, now) && h.expires <= now * MS then CountAfter(k.scores, now - DAY_MS) else 0
  }

  /** A call with a daily cap finds such hits. */
  predicate Late(h: History, k: Key, now: Time, limits: Limits, goneAtExpiry: bool) {
    limits.Daily() && Leftover(h, k, now, goneAtExpiry) > 0
  }

  predicate Asks(c: Call) { c.Allow? && !c.limits.None() }

  predicate PartsAt(front: seq<Call>, c: Call, goneAtExpiry: bool)
    requires c.Allow?
  {
    Parts(Mem.Run(InNanos(front)).Of(c.key), c.now * MS, c.limits, goneAtExpiry)
  }

  function LeftoverAt(front: seq<Call>, c: Call, goneAtExpiry: bool): nat
    requires c.Allow?
  {
    Leftover(Mem.Run(InNanos(front)).Of(c.key), Run(front, c.key, goneAtExpiry), c.now, goneAtExpiry)
  }

  predicate LateAt(front: seq<Call>, c: Call, goneAtExpiry: bool)
    requires c.Allow?
  {
    Late(Mem.Run(InNanos(front)).Of(c.key), Run(front, c.key, goneAtExpiry), c.now, c.limits, goneAtExpiry)
  }

  /** No call on the key parts the stores in either way. */
  predicate Together(calls: seq<Call>, key: string, goneAtExpiry: bool) {
    calls != [] ==>
      var front, c := calls[..|calls| - 1], calls[|calls| - 1];
      && Together(front, key, goneAtExpiry)
      && (Asks(c) && c.key == key ==> !PartsAt(front, c, goneAtExpiry) && !LateAt(front, c, goneAtExpiry))
  }

  /** Every hit extends the expiry to an hour later at least. */
  predicate Spaced(scores: seq<Time>, t: int) { forall i | 0 <= i < |scores| :: scores[i] + HOUR_MS <= t }

  predicate KeyOK(k: Key, clock: Time) {
    k.Present? ==>
      k.expiry.At? && k.expiry.time >= 0 && k.scores != [] && SortedUpTo(k.scores, clock) &&
      Spaced(k.scores, k.expiry.time)
  }

  predicate AllAt(scores: seq<Time>, t: int) { forall i | 0 <= i < |scores| :: scores[i] == t }

  /** Equal contents; and equal expiry, or memory holds them for the millisecond
      more that the store, which still has the key then, does, too. */
  predicate Same(h: History, k: Key, more: nat) {
    && k.Present? && k.expiry.At? && (k.expiry.time + more) >= 0
    && h == History(TimesInNanos(k.scores), (k.expiry.time + more) * MS)
    && (more == 0 || (more == 1 && AllAt(k.scores, k.expiry.time - HOUR_MS)))
  }

  /** The same contents; or both gone; or nothing in either, whatever expiry
      memory still holds. */
  predicate Alike(h: History, k: Key, clock: Time, goneAtExpiry: bool) {
    && KeyOK(k, clock) && h.expires % MS == 0 && h.expires <= clock * MS + DAY
    && (|| Same(h, k, 0) || (!goneAtExpiry && Same(h, k, 1))
        || (h.expires <= clock * MS && (k.Absent? || k.expiry.time <= clock))
        || (h.hits == [] && k.Absent?))
  }

  lemma AlikeLater(h: History, k: Key, clock: Time, now: Time, goneAtExpiry: bool)
    requires Alike(h, k, clock, goneAtExpiry) && clock <= now
    ensures Alike(h, k, now, goneAtExpiry)
    ensures h.expires <= now * MS ==> Alike(EMPTY, k, now, goneAtExpiry)
  {
    hide Spaced, AllAt, TimesInNanos;
  }

  /** How far back the store trims. */
  function TrimMs(k: Key, now: Time, limits: Limits): int {
    var keep := KeepMs(limits.Daily()); if k.Pttl(now) > keep then DAY_MS else keep
  }

  /** Both trim to the same hits. */
  lemma TrimBy(scores: seq<Time>, expires: Time, now: Time, limits: Limits, trim: int)
    requires expires > now * MS && limits.Retain(expires - now * MS) == trim * MS
    ensures Kept(History(TimesInNanos(scores), expires), now * MS, limits) ==
            TimesInNanos(scores[|scores| - CountAfter(scores, now - trim)..])
  {
    hide CountAfter, TimesInNanos;
    CountInNanos(scores, now - trim);
    TimesFrom(scores, |scores| - CountAfter(scores, now - trim));
  }

  lemma TimesFrom(scores: seq<Time>, n: nat)
    requires n <= |scores|
    ensures |TimesInNanos(scores)| == |scores| && TimesInNanos([]) == []
    ensures TimesInNanos(scores)[n..] == TimesInNanos(scores[n..])
  {
  }

  lemma AllCount(scores: seq<Time>, t: int, cutoff: int)
    requires AllAt(scores, t) && cutoff < t
    ensures CountAfter(scores, cutoff) == |scores|
  {
    SuffixStart(scores, cutoff, 0);
  }

  /** A key that is still there, in memory as in the store. */
  predicate Live(h: History, k: Key, now: Time, goneAtExpiry: bool) {
    && KeyOK(k, now) && k.Present? && h.expires > now * MS
    && (Same(h, k, 0) || (!goneAtExpiry && Same(h, k, 1)))
  }

  lemma TrimAlike(h: History, k: Key, now: Time, limits: Limits, goneAtExpiry: bool)
    requires Live(h, k, now, goneAtExpiry)
    ensures k.Found(now, goneAtExpiry) == k
    ensures Kept(h, now * MS, limits) == TimesInNanos(k.RemoveUpTo(now - TrimMs(k, now, limits)).Scores())
  {
    hide CountAfter, TimesInNanos, Kept, Spaced, AllAt, SortedUpTo, TrimMs, Key.RemoveUpTo;
    RemovedScores(k, now - TrimMs(k, now, limits));
    if Same(h, k, 0) {
      SameTrim(h, k, now, limits);
      TrimBy(k.scores, h.expires, now, limits, TrimMs(k, now, limits));
    } else {
      TrimLonger(h, k, now, limits);
    }
  }

  lemma RemovedScores(k: Key, cutoff: int)
    requires k.Present?
    ensures k.RemoveUpTo(cutoff).Scores() == k.scores[|k.scores| - CountAfter(k.scores, cutoff)..]
  {
  }

  lemma SameTrim(h: History, k: Key, now: Time, limits: Limits)
    requires Same(h, k, 0)
    ensures limits.Retain(h.expires - now * MS) == TrimMs(k, now, limits) * MS
  {
  }

  /** Where the two trim differently, no hit is an hour old. */
  lemma TrimLonger(h: History, k: Key, now: Time, limits: Limits)
    requires KeyOK(k, now) && Same(h, k, 1) && h.expires > now * MS
    ensures Kept(h, now * MS, limits) ==
            TimesInNanos(k.scores[|k.scores| - CountAfter(k.scores, now - TrimMs(k, now, limits))..])
  {
    hide CountAfter, TimesInNanos, Kept, Spaced;
    var t, keep, trim := k.expiry.time, KeepMs(limits.Daily()), TrimMs(k, now, limits);
    assert k.scores[0] == t - HOUR_MS && k.scores[0] <= now;
    var mine := if t + 1 - now > keep then DAY_MS else keep;
    TrimBy(k.scores, h.expires, now, limits, mine);
    if mine != trim {
      assert t - now == HOUR_MS && keep == HOUR_MS;
      AllCount(k.scores, now, now - mine);
      AllCount(k.scores, now, now - trim);
    }
  }

  lemma RemoveKeeps(k: Key, cutoff: int, clock: Time)
    requires KeyOK(k, clock)
    ensures var r := k.RemoveUpTo(cutoff);
            && KeyOK(r, clock) && SortedUpTo(r.Scores(), clock)
            && (r.Present? ==> k.Present? && r.expiry == k.expiry)
            && (k.Present? && k.expiry.At? && AllAt(k.scores, k.expiry.time - HOUR_MS) && r.Present? ==>
                  AllAt(r.scores, r.expiry.time - HOUR_MS))
  {
    hide CountAfter;
  }

  // One call.

  /** The expiry after a hit. */
  function Extended(t: int, now: Time, keep: nat): int { if t - now < keep then now + keep else t }

  lemma AddedKey(k: Key, now: Time, keep: nat)
    requires KeyOK(k, now) && k.Present? && keep >= HOUR_MS
    ensures var k' := k.Add(now).Extend(now, keep);
            k' == Present(k.scores + [now], At(Extended(k.expiry.time, now, keep))) && KeyOK(k', now)
  {
    var scores := k.scores;
    NoneAfter(scores, now);
    hide CountAfter;
    assert scores[..|scores|] + [now] + scores[|scores|..] == scores + [now];
  }

  /** What an admitted hit leaves: a key that was there. */
  lemma AddToKey(k: Key, expires: Time, now: Time, limits: Limits, goneAtExpiry: bool)
    requires Live(History(TimesInNanos(k.Scores()), expires), k, now, goneAtExpiry) && expires <= now * MS + DAY
    requires k.expiry.time >= now
    ensures Alike(History(TimesInNanos(k.Scores()) + [now * MS], Max(expires, now * MS + limits.Keep())),
                  k.Add(now).Extend(now, KeepMs(limits.Daily())), now, goneAtExpiry)
  {
    AddedKey(k, now, KeepMs(limits.Daily()));
    TimesSnoc(k.scores, now);
    var h := History(TimesInNanos(k.scores), expires);
    assert !Same(h, k, 0) ==> k.scores[0] == k.expiry.time - HOUR_MS && k.scores[0] <= now;
    hide KeyOK, Key.Add, Key.Extend, TimesInNanos, Live;
  }

  lemma TimesSnoc(scores: seq<Time>, now: Time)
    ensures TimesInNanos(scores + [now]) == TimesInNanos(scores) + [now * MS]
  {
  }

  /** And one that was not, or nothing left in it. */
  lemma AddToNone(expires: Time, now: Time, limits: Limits, goneAtExpiry: bool)
    requires expires % MS == 0 && expires <= now * MS + DAY
    requires expires <= now * MS + limits.Keep() + if goneAtExpiry then 0 else MS
    ensures Alike(History([now * MS], Max(expires, now * MS + limits.Keep())),
                  Absent.Add(now).Extend(now, KeepMs(limits.Daily())), now, goneAtExpiry)
  {
    assert TimesInNanos([now]) == [now * MS];
  }

  lemma NothingToWaitFor(now: Time, limits: Limits)
    ensures LongestWait([], now, WindowsMs(limits)) == 0
  {
    LongestWaitExact([], now, WindowsMs(limits));
  }

  /** Both decide alike on the same hits. */
  lemma DecideAlike(scores: seq<Time>, now: Time, limits: Limits)
    requires SortedUpTo(scores, now)
    ensures var wait := LongestWait(TimesInNanos(scores), now * MS, limits.Windows());
            var retry := Scan(scores, now, WindowsMs(limits));
            && (wait > 0 <==> retry >= 0) && (wait > 0 ==> wait == retry * MS)
            && (scores == [] ==> wait == 0)
  {
    AdmitsInNanos(scores, now, limits);
    ScanIsLongestWait(scores, now, WindowsMs(limits));
    hide LongestWait, Scan, Admits;
    if scores == [] { NothingToWaitFor(now, limits); }
  }

  /** One call on live, equal contents. */
  lemma LiveAlike(h: History, k: Key, now: Time, limits: Limits, goneAtExpiry: bool)
    requires Live(h, k, now, goneAtExpiry) && h.expires % MS == 0 && h.expires <= now * MS + DAY
    requires !Parts(h, now * MS, limits, goneAtExpiry)
    ensures var (h', memory) := AllowKey(h, now * MS, limits);
            var (k', redis) := Script(k, now, limits, goneAtExpiry);
            memory.ok == redis.ok && memory.wait == redis.wait * MS && Alike(h', k', now, goneAtExpiry)
  {
    hide CountAfter, TimesInNanos, LongestWait, Scan, Key.RemoveUpTo, Key.Add, Key.Extend, Kept, Key.Found,
         Spaced, AllAt, SortedUpTo;
    var trimmed := k.RemoveUpTo(now - TrimMs(k, now, limits));
    TrimAlike(h, k, now, limits, goneAtExpiry);
    RemoveKeeps(k, now - TrimMs(k, now, limits), now);
    TimesFrom(trimmed.Scores(), 0);
    DecideAlike(trimmed.Scores(), now, limits);
    if trimmed.Present? {
      AddToKey(trimmed, h.expires, now, limits, goneAtExpiry);
    } else {
      AddToNone(h.expires, now, limits, goneAtExpiry);
    }
  }

  lemma KeptNothing(h: History, now: Time, limits: Limits)
    requires h.expires <= now || h.hits == []
    ensures Kept(h, now, limits) == []
  {
  }

  /** One call on a key that is gone in both. */
  lemma GoneAlike(h: History, k: Key, now: Time, limits: Limits, goneAtExpiry: bool)
    requires k.Found(now, goneAtExpiry).RemoveUpTo(now - TrimMs(k.Found(now, goneAtExpiry), now, limits)).Absent?
    requires (h.expires <= now * MS || h.hits == []) && h.expires % MS == 0 && h.expires <= now * MS + DAY
    requires !Parts(h, now * MS, limits, goneAtExpiry)
    ensures var (h', memory) := AllowKey(h, now * MS, limits);
            var (k', redis) := Script(k, now, limits, goneAtExpiry);
            memory.ok == redis.ok && memory.wait == redis.wait * MS && Alike(h', k', now, goneAtExpiry)
  {
    hide Kept, CountAfter, TimesInNanos, LongestWait, Scan, Key.Add, Key.Extend, Key.Found, Key.RemoveUpTo, Alike;
    assert [] + [now * MS] == [now * MS];
    KeptNothing(h, now * MS, limits);
    TimesFrom([], 0);
    DecideAlike([], now, limits);
    AddToNone(if h.expires <= now * MS then 0 else h.expires, now, limits, goneAtExpiry);
  }

  /** In the millisecond a key expires nothing of it counts any more, unless the
      call has a daily cap and finds a hit of the last day. */
  lemma NothingLeft(k: Key, now: Time, limits: Limits)
    requires KeyOK(k, now) && ExpiresAt(k, now) && (limits.Daily() ==> CountAfter(k.scores, now - DAY_MS) == 0)
    ensures k.RemoveUpTo(now - TrimMs(k, now, limits)).Absent?
  {
    if !limits.Daily() { NoneAfter(k.scores, now - HOUR_MS); }
    hide CountAfter;
  }

  /** One call, seen from its own key. */
  lemma AllowAlike(h: History, k: Key, clock: Time, now: Time, limits: Limits, goneAtExpiry: bool)
    requires Alike(h, k, clock, goneAtExpiry) && clock <= now
    requires !Parts(h, now * MS, limits, goneAtExpiry) && !Late(h, k, now, limits, goneAtExpiry)
    ensures var (h', memory) := AllowKey(h, now * MS, limits);
            var (k', redis) := Script(k, now, limits, goneAtExpiry);
            memory.ok == redis.ok && memory.wait == redis.wait * MS && Alike(h', k', now, goneAtExpiry)
  {
    hide AllowKey, Script, Parts, SortedUpTo, Spaced, AllAt, TimesInNanos, CountAfter, Key.RemoveUpTo, TrimMs;
    AlikeLater(h, k, clock, now, goneAtExpiry);
    if Live(h, k, now, goneAtExpiry) {
      LiveAlike(h, k, now, limits, goneAtExpiry);
    } else {
      if !goneAtExpiry && ExpiresAt(k, now) {
        NothingLeft(k, now, limits);
      } else {
        NothingRemoved(now - TrimMs(Absent, now, limits));
      }
      GoneAlike(h, k, now, limits, goneAtExpiry);
    }
  }

  lemma NothingRemoved(cutoff: int)
    ensures Absent.RemoveUpTo(cutoff).Absent?
  {
  }

  lemma RefundAlike(h: History, k: Key, clock: Time, goneAtExpiry: bool)
    requires Alike(h, k, clock, goneAtExpiry)
    ensures Alike(RefundKey(h), k.PopMax(), clock, goneAtExpiry)
  {
    if k.Present? {
      var n := |k.scores|;
      assert n > 0 ==> TimesInNanos(k.scores)[..n - 1] == TimesInNanos(k.scores[..n - 1]);
    }
  }

  /** A parting call is admitted by both; the store starts the key anew. */
  lemma PartingReplies(h: History, k: Key, clock: Time, now: Time, limits: Limits, goneAtExpiry: bool)
    requires Alike(h, k, clock, goneAtExpiry) && clock <= now && Parts(h, now * MS, limits, goneAtExpiry)
    ensures AllowKey(h, now * MS, limits) == (History([now * MS], h.expires), Reply(true, 0))
    ensures Script(k, now, limits, goneAtExpiry) == (Present([now], At(now + KeepMs(limits.Daily()))), Reply(true, 0))
  {
    hide CountAfter, LongestWait, Scan, Kept, TimesInNanos, Key.RemoveUpTo, Alike, KeyOK;
    TimesFrom([], 0);
    DecideAlike([], now, limits);
    PartingTrim(h, k, clock, now, limits, goneAtExpiry);
    assert [] + [now * MS] == [now * MS];
  }

  lemma PartingTrim(h: History, k: Key, clock: Time, now: Time, limits: Limits, goneAtExpiry: bool)
    requires Alike(h, k, clock, goneAtExpiry) && clock <= now && Parts(h, now * MS, limits, goneAtExpiry)
    ensures var found := k.Found(now, goneAtExpiry); found.RemoveUpTo(now - TrimMs(found, now, limits)).Absent?
  {
    hide CountAfter, Kept, TimesInNanos, Key.RemoveUpTo, AllAt, SortedUpTo, Spaced;
    AlikeLater(h, k, clock, now, goneAtExpiry);
    if k.Present? {
      TrimAlike(h, k, now, limits, goneAtExpiry);
      var trimmed := k.RemoveUpTo(now - TrimMs(k, now, limits));
      RemoveKeeps(k, now - TrimMs(k, now, limits), now);
      TimesFrom(trimmed.Scores(), 0);
    } else {
      NothingRemoved(now - TrimMs(k, now, limits));
    }
  }

  /** A late call is admitted by memory, which starts anew. */
  lemma LateInMemory(h: History, now: Time, limits: Limits)
    requires h.expires <= now * MS && limits.Daily()
    ensures AllowKey(h, now * MS, limits) == (History([now * MS], now * MS + DAY), Reply(true, 0))
  {
    hide LongestWait, Scan, Kept, TimesInNanos;
    KeptNothing(h, now * MS, limits);
    TimesFrom([], 0);
    DecideAlike([], now, limits);
    assert [] + [now * MS] == [now * MS];
  }

  /** The hits of the last day. */
  function LastDay(k: Key, now: Time): seq<Time> {
    k.Scores()[|k.Scores()| - CountAfter(k.Scores(), now - DAY_MS)..]
  }

  lemma LastDayOK(k: Key, now: Time, limits: Limits)
    requires KeyOK(k, now) && ExpiresAt(k, now) && CountAfter(k.scores, now - DAY_MS) > 0 && limits.Daily()
    ensures var day := LastDay(k, now);
            && k.Found(now, false).RemoveUpTo(now - TrimMs(k, now, limits)) == Present(day, At(now))
            && KeyOK(Present(day, At(now)), now) && Spaced(day, now) && Sorted(day)
            && CountAfter(day, now - DAY_MS) == |day| > 0
  {
    hide CountAfter, Key.RemoveUpTo, LastDay, Spaced, Sorted, SortedUpTo;
    assert TrimMs(k, now, limits) == DAY_MS && k.Found(now, false) == k;
    LastDayCount(k, now);
    LastDayKept(k, now);
    RemoveKeeps(k, now - DAY_MS, now);
    SortedScores(k.scores, now);
    SortedScores(LastDay(k, now), now);
    SuffixCount(k.scores, now - DAY_MS);
  }

  lemma LastDayKept(k: Key, now: Time)
    requires k.Present? && LastDay(k, now) != []
    ensures k.RemoveUpTo(now - DAY_MS) == Present(LastDay(k, now), k.expiry)
    ensures LastDay(k, now) == k.scores[|k.scores| - CountAfter(k.scores, now - DAY_MS)..]
  {
  }

  lemma SortedScores(scores: seq<Time>, now: Time)
    requires SortedUpTo(scores, now)
    ensures Sorted(scores)
  {
  }

  /** The store counts what it still has. */
  lemma LateInStore(k: Key, now: Time, limits: Limits)
    requires KeyOK(k, now) && ExpiresAt(k, now) && CountAfter(k.scores, now - DAY_MS) > 0 && limits.Daily()
    ensures var day := LastDay(k, now);
            var (k', redis) := Script(k, now, limits, false);
            && (redis.ok <==> |day| < limits.perDay) && (redis.ok ==> redis.wait == 0)
            && k' == if redis.ok then Present(day + [now], At(now + DAY_MS)) else Present(day, At(now))
  {
    hide CountAfter, Scan, LastDay, KeyOK, Key.Found, Key.RemoveUpTo, Key.Add, Key.Extend, Spaced, Sorted;
    var day := LastDay(k, now);
    LastDayOK(k, now, limits);
    OnlyDaily(day, now, limits);
    AddedKey(Present(day, At(now)), now, DAY_MS);
  }

  /** What is counted after a cutoff is all of the rest. */
  lemma SuffixCount(scores: seq<Time>, cutoff: int)
    requires Sorted(scores)
    ensures var rest := scores[|scores| - CountAfter(scores, cutoff)..]; CountAfter(rest, cutoff) == |rest|
  {
    SuffixAfter(scores, cutoff);
    var rest := scores[|scores| - CountAfter(scores, cutoff)..];
    hide CountAfter;
    assert Sorted(rest) && forall i | 0 <= i < |rest| :: rest[i] > cutoff;
    SuffixStart(rest, cutoff, 0);
  }

  /** Hits an hour old count only in the daily window. */
  lemma OnlyDaily(scores: seq<Time>, now: Time, limits: Limits)
    requires Sorted(scores) && Spaced(scores, now) && limits.Daily()
    ensures Scan(scores, now, WindowsMs(limits)) < 0 <==> CountAfter(scores, now - DAY_MS) < limits.perDay
  {
    var ws := WindowsMs(limits);
    NoneAfter(scores, now - HOUR_MS);
    NoneAfter(scores, now - MINUTE_MS);
    ScanIsLongestWait(scores, now, ws);
    LongestWaitExact(scores, now, ws);
    hide CountAfter, LongestWait, Scan;
    assert HasRoom(scores, now, ws[0]) && HasRoom(scores, now, ws[1]);
    assert Admits(scores, now, ws) <==> HasRoom(scores, now, ws[2]);
  }

  /** The replies to a call agree, also to one that parts the stores, exactly
      unless the store refuses it for what it still has in the millisecond the
      key expires. */
  lemma AllowReplies(h: History, k: Key, clock: Time, now: Time, limits: Limits, goneAtExpiry: bool)
    requires Alike(h, k, clock, goneAtExpiry) && clock <= now
    ensures var memory, redis := AllowKey(h, now * MS, limits).1, Script(k, now, limits, goneAtExpiry).1;
            memory.ok == redis.ok && memory.wait == redis.wait * MS <==>
            !(limits.Daily() && Leftover(h, k, now, goneAtExpiry) >= limits.perDay)
  {
    hide AllowKey, Script, Alike, Kept, CountAfter, ExpiresAt, KeyOK, LastDay;
    if Parts(h, now * MS, limits, goneAtExpiry) {
      PartingReplies(h, k, clock, now, limits, goneAtExpiry);
    } else if Late(h, k, now, limits, goneAtExpiry) {
      AlikeLater(h, k, clock, now, goneAtExpiry);
      assert KeyOK(k, now) by { KeyIsOK(h, k, now, goneAtExpiry); }
      LateInMemory(h, now, limits);
      LateInStore(k, now, limits);
      LastDayCount(k, now);
    } else {
      AllowAlike(h, k, clock, now, limits, goneAtExpiry);
    }
  }

  lemma LastDayCount(k: Key, now: Time)
    requires ExpiresAt(k, now)
    ensures k.Present? && |LastDay(k, now)| == CountAfter(k.scores, now - DAY_MS)
  {
  }

  lemma KeyIsOK(h: History, k: Key, now: Time, goneAtExpiry: bool)
    requires Alike(h, k, now, goneAtExpiry)
    ensures KeyOK(k, now)
  {
  }

  // Runs.

  lemma SweepAlike(s: State, k: Key, key: string, clock: Time, now: Time, goneAtExpiry: bool)
    requires Alike(s.Of(key), k, clock, goneAtExpiry) && clock <= now
    ensures var h, h' := s.Of(key), s.Sweep(now * MS).Of(key);
            && Alike(h', k, now, goneAtExpiry)
            && (h' == h || (h' == EMPTY && h.expires <= now * MS))
  {
    hide Alike;
    AlikeLater(s.Of(key), k, clock, now, goneAtExpiry);
  }

  lemma NextAlike(s: State, k: Key, c: Call, key: string, clock: Time, goneAtExpiry: bool)
    requires Alike(s.Of(key), k, clock, goneAtExpiry) && (c.Allow? ==> clock <= c.now)
    requires Asks(c) && c.key == key ==>
               && !Parts(s.Of(key), c.now * MS, c.limits, goneAtExpiry)
               && !Late(s.Of(key), k, c.now, c.limits, goneAtExpiry)
    ensures Alike(s.Next(CallInNanos(c)).0.Of(key), Next(k, c, key, goneAtExpiry).0,
                  if c.Allow? then c.now else clock, goneAtExpiry)
  {
    hide Alike, AllowKey, Script, State.Sweep, Key.PopMax, Kept, CountAfter, ExpiresAt;
    match c
    case Refund(_, _) =>
      RefundAlike(s.Of(key), k, clock, goneAtExpiry);
    case Allow(_, now, limits) =>
      AlikeLater(s.Of(key), k, clock, now, goneAtExpiry);
      SweepAlike(s, k, key, clock, now, goneAtExpiry);
      if c.key == key && !limits.None() {
        AllowAlike(s.Sweep(now * MS).Of(key), k, now, now, limits, goneAtExpiry);
      }
  }

  lemma NanosSnoc(calls: seq<Call>)
    requires calls != []
    ensures var n := InNanos(calls);
            n != [] && n[..|n| - 1] == InNanos(calls[..|calls| - 1]) && n[|n| - 1] == CallInNanos(calls[|calls| - 1])
  {
  }

  lemma {:induction false} RunsStayAlike(calls: seq<Call>, key: string, goneAtExpiry: bool)
    requires Ordered(calls) && Together(calls, key, goneAtExpiry)
    ensures Alike(Mem.Run(InNanos(calls)).Of(key), Run(calls, key, goneAtExpiry), Mem.Clock(calls), goneAtExpiry)
  {
    if calls != [] {
      hide Alike, Parts, Leftover, InNanos, Next;
      var front, c := calls[..|calls| - 1], calls[|calls| - 1];
      RunsStayAlike(front, key, goneAtExpiry);
      NanosSnoc(calls);
      NextAlike(Mem.Run(InNanos(front)), Run(front, key, goneAtExpiry), c, key, Mem.Clock(front), goneAtExpiry);
    }
  }

  /** Both stores give the last call of a run the same answer. */
  predicate AgreeOnLast(calls: seq<Call>, goneAtExpiry: bool)
    requires calls != []
  {
    var memory, redis := Mem.ReplyTo(InNanos(calls)), RedisReply(calls, goneAtExpiry);
    memory.ok == redis.ok && memory.wait == redis.wait * MS
  }

  /** With limits changing in any way from call to call, and on every run in which
      no earlier call parted them, the stores answer alike exactly unless the call
      comes in the millisecond the key expires, the store still has it, and that
      makes it full for the day. */
  lemma StoresAgreeUnderChange(calls: seq<Call>, goneAtExpiry: bool)
    requires calls != [] && Ordered(calls) && Asks(calls[|calls| - 1])
    requires Together(calls[..|calls| - 1], calls[|calls| - 1].key, goneAtExpiry)
    ensures var front, c := calls[..|calls| - 1], calls[|calls| - 1];
            AgreeOnLast(calls, goneAtExpiry) <==>
            !(c.limits.Daily() && LeftoverAt(front, c, goneAtExpiry) >= c.limits.perDay)
  {
    hide Alike, Together, ExpiresAt, InNanos, AllowKey, Script, Mem.Run, Run, State.Sweep, CountAfter;
    var front, c := calls[..|calls| - 1], calls[|calls| - 1];
    var s, k := Mem.Run(InNanos(front)), Run(front, c.key, goneAtExpiry);
    RunsStayAlike(front, c.key, goneAtExpiry);
    NanosSnoc(calls);
    SweepAlike(s, k, c.key, Mem.Clock(front), c.now, goneAtExpiry);
    AllowReplies(s.Sweep(c.now * MS).Of(c.key), k, c.now, c.now, c.limits, goneAtExpiry);
  }

  // Exactly when they part.

  const ONE_A_DAY := Limits(0, 0, 1)
  const TWO_A_DAY := Limits(0, 0, 2)

  /** A day is full for as long as its hit is remembered. */
  lemma MemoryRemembers(now: Time, expires: Time, later: Time)
    requires now <= later < now + DAY_MS && expires > later * MS
    ensures !AllowKey(History([now * MS], expires), later * MS, ONE_A_DAY).1.ok
  {
    hide Kept, LongestWait, CountAfter;
    HitIsKept(now * MS, expires, later * MS);
    DayIsFull(now * MS, later * MS);
  }

  lemma HitIsKept(hit: Time, expires: Time, later: Time)
    requires later < hit + DAY && expires > later
    ensures Kept(History([hit], expires), later, ONE_A_DAY) == [hit]
  {
    OneHit(hit, later - DAY);
    hide CountAfter;
  }

  lemma DayIsFull(hit: Time, later: Time)
    requires hit <= later < hit + DAY
    ensures LongestWait([hit], later, ONE_A_DAY.Windows()) > 0
  {
    hide LongestWait, CountAfter;
    var ws := ONE_A_DAY.Windows();
    OneHit(hit, later - DAY);
    assert !HasRoom([hit], later, ws[2]);
    LongestWaitExact([hit], later, ws);
  }

  lemma OneHit(hit: Time, cutoff: int)
    ensures CountAfter([hit], cutoff) == if hit > cutoff then 1 else 0
  {
    assert [hit][..0] == [];
  }

  /** A store without the key admits. */
  lemma StoreForgot(k: Key, later: Time, goneAtExpiry: bool)
    requires k.Found(later, goneAtExpiry).Absent?
    ensures Script(k, later, ONE_A_DAY, goneAtExpiry).1.ok
  {
    hide Scan, Key.Add, Key.Extend, Key.Found, Key.RemoveUpTo, TimesInNanos, LongestWait;
    NothingRemoved(later - TrimMs(Absent, later, ONE_A_DAY));
    DecideAlike([], later, ONE_A_DAY);
  }

  /** When the store has forgotten a parting call, but not memory. */
  function Afterwards(now: Time, goneAtExpiry: bool): Time { now + HOUR_MS + if goneAtExpiry then 0 else 1 }

  /** An hour after a parting call the key is gone from the store, but not its
      hit from memory: a daily cap of one tells them apart. */
  lemma PartedDisagree(h: History, k: Key, clock: Time, now: Time, limits: Limits, goneAtExpiry: bool)
    requires Alike(h, k, clock, goneAtExpiry) && clock <= now && Parts(h, now * MS, limits, goneAtExpiry)
    ensures var h', k' := AllowKey(h, now * MS, limits).0, Script(k, now, limits, goneAtExpiry).0;
            var later := Afterwards(now, goneAtExpiry);
            && !AllowKey(h', later * MS, ONE_A_DAY).1.ok && Script(k', later, ONE_A_DAY, goneAtExpiry).1.ok
            && Leftover(h', k', later, goneAtExpiry) == 0
  {
    hide AllowKey, Script, KeyOK, Same, Kept;
    PartingReplies(h, k, clock, now, limits, goneAtExpiry);
    var later := Afterwards(now, goneAtExpiry);
    assert !limits.Daily() && h.expires > later * MS;
    hide Alike, Parts;
    MemoryRemembers(now, h.expires, later);
    StoreForgot(Present([now], At(now + HOUR_MS)), later, goneAtExpiry);
  }

  /** Fewer hits than every cap: the call is admitted. */
  lemma RoomAdmits(h: History, now: Time, limits: Limits)
    requires forall w | w in limits.Windows() && w.limit > 0 :: |Kept(h, now, limits)| < w.limit
    requires Sorted(Kept(h, now, limits))
    ensures var expires := if h.expires <= now then 0 else h.expires;
            AllowKey(h, now, limits) ==
            (History(Kept(h, now, limits) + [now], Max(expires, now + limits.Keep())), Reply(true, 0))
  {
    hide Kept;
    var hist, ws := Kept(h, now, limits), limits.Windows();
    forall i | 0 <= i < |ws| && ws[i].limit > 0 ensures HasRoom(hist, now, ws[i]) {
      assert ws[i] in ws;
    }
    LongestWaitExact(hist, now, ws);
    hide LongestWait, CountAfter;
  }

  /** Room for a second hit in memory. */
  lemma MemoryHasRoom(now: Time)
    ensures AllowKey(History([now * MS], now * MS + DAY), now * MS, TWO_A_DAY).1.ok
  {
    OneHit(now * MS, now * MS - DAY);
    hide CountAfter;
    assert Kept(History([now * MS], now * MS + DAY), now * MS, TWO_A_DAY) == [now * MS];
    RoomAdmits(History([now * MS], now * MS + DAY), now * MS, TWO_A_DAY);
  }

  /** But none in the store. */
  lemma StoreIsFull(scores: seq<Time>, now: Time)
    requires SortedUpTo(scores, now) && CountAfter(scores, now - DAY_MS) == |scores| >= 2
    ensures !Script(Present(scores, At(now + DAY_MS)), now, TWO_A_DAY, false).1.ok
  {
    var ws := WindowsMs(TWO_A_DAY);
    assert !HasRoom(scores, now, ws[2]);
    LongestWaitExact(scores, now, ws);
    ScanIsLongestWait(scores, now, ws);
    hide CountAfter, LongestWait, Scan;
    assert scores[0..] == scores;
  }

  /** After a late call: either the store admitted it and counts more hits than
      memory, or it refused it and forgets the key, but not memory its hit. */
  lemma LateDisagree(h: History, k: Key, now: Time, limits: Limits)
    requires KeyOK(k, now) && Late(h, k, now, limits, false)
    ensures var h', (k', redis) := AllowKey(h, now * MS, limits).0, Script(k, now, limits, false);
            if redis.ok then
              && AllowKey(h', now * MS, TWO_A_DAY).1.ok && !Script(k', now, TWO_A_DAY, false).1.ok
              && Leftover(h', k', now, false) == 0
            else
              && !AllowKey(h', (now + 1) * MS, ONE_A_DAY).1.ok && Script(k', now + 1, ONE_A_DAY, false).1.ok
              && Leftover(h', k', now + 1, false) == 0
  {
    hide AllowKey, Script, KeyOK, LastDay, CountAfter;
    LateInMemory(h, now, limits);
    LateInStore(k, now, limits);
    LastDayOK(k, now, limits);
    var day := LastDay(k, now);
    MemoryHasRoom(now);
    MemoryRemembers(now, now * MS + DAY, now + 1);
    StoreForgot(Present(day, At(now)), now + 1, false);
    DayAndNow(day, now);
    StoreIsFull(day + [now], now);
  }

  lemma DayAndNow(day: seq<Time>, now: Time)
    requires KeyOK(Present(day, At(now)), now) && CountAfter(day, now - DAY_MS) == |day|
    ensures SortedUpTo(day + [now], now) && CountAfter(day + [now], now - DAY_MS) == |day| + 1
  {
    assert (day + [now])[..|day|] == day;
  }

  lemma RepliesSnoc(calls: seq<Call>, d: Call, goneAtExpiry: bool)
    ensures var all := calls + [d];
            && all[..|all| - 1] == calls && all[|all| - 1] == d
            && Mem.ReplyTo(InNanos(all)) == Mem.Run(InNanos(calls)).Next(CallInNanos(d)).1
            && RedisReply(all, goneAtExpiry) == Next(Run(calls, d.key, goneAtExpiry), d, d.key, goneAtExpiry).1
  {
    hide Mem.Run, Run, Next, InNanos;
    assert (calls + [d])[..|calls|] == calls;
    NanosSnoc(calls + [d]);
  }

  lemma RunsSnoc(calls: seq<Call>, key: string, goneAtExpiry: bool)
    requires calls != []
    ensures var front, c := calls[..|calls| - 1], calls[|calls| - 1];
            && Mem.Run(InNanos(calls)) == Mem.Run(InNanos(front)).Next(CallInNanos(c)).0
            && Run(calls, key, goneAtExpiry) == Next(Run(front, key, goneAtExpiry), c, key, goneAtExpiry).0
  {
    hide InNanos, Next, State.Next;
    NanosSnoc(calls);
  }

  /** Whether or not an expired key was swept, its next call starts anew. */
  lemma OwnNext(s: State, c: Call)
    requires Asks(c)
    ensures var (s', reply) := s.Next(c);
            (s'.Of(c.key), reply) == AllowKey(s.Of(c.key), c.now, c.limits)
  {
    hide LongestWait;
  }

  lemma {:induction false} OrderedNanos(calls: seq<Call>)
    requires Ordered(calls)
    ensures Ordered(InNanos(calls)) && Mem.Clock(InNanos(calls)) == Mem.Clock(calls) * MS
  {
    if calls != [] {
      hide InNanos;
      NanosSnoc(calls);
      OrderedNanos(calls[..|calls| - 1]);
    } else {
      assert InNanos(calls) == [];
    }
  }

  /** The call that tells them apart after a parting or a late one. */
  function Telling(front: seq<Call>, c: Call, goneAtExpiry: bool): Call
    requires c.Allow?
  {
    if PartsAt(front, c, goneAtExpiry) then Allow(c.key, Afterwards(c.now, goneAtExpiry), ONE_A_DAY)
    else if Script(Run(front, c.key, goneAtExpiry), c.now, c.limits, goneAtExpiry).1.ok
    then Allow(c.key, c.now, TWO_A_DAY)
    else Allow(c.key, c.now + 1, ONE_A_DAY)
  }

  lemma PartedRun(front: seq<Call>, c: Call, goneAtExpiry: bool)
    requires Ordered(front) && Asks(c) && Mem.Clock(front) <= c.now && Together(front, c.key, goneAtExpiry)
    requires PartsAt(front, c, goneAtExpiry) || LateAt(front, c, goneAtExpiry)
    ensures var d := Telling(front, c, goneAtExpiry);
            && Asks(d) && d.key == c.key && d.now >= c.now && !LateAt(front + [c], d, goneAtExpiry)
            && !AgreeOnLast(front + [c] + [d], goneAtExpiry)
  {
    hide Alike, Parts, InNanos, AllowKey, Script, Together, Mem.Run, Run, State.Next, Mem.ReplyTo, RedisReply, Leftover;
    var calls, d := front + [c], Telling(front, c, goneAtExpiry);
    assert calls[..|calls| - 1] == front;
    var s, k := Mem.Run(InNanos(front)), Run(front, c.key, goneAtExpiry);
    RunsStayAlike(front, c.key, goneAtExpiry);
    TellsApart(s.Of(c.key), k, Mem.Clock(front), c.now, c.limits, goneAtExpiry);
    OwnNext(s, CallInNanos(c));
    RunsSnoc(calls, c.key, goneAtExpiry);
    RepliesSnoc(calls, d, goneAtExpiry);
    OwnNext(s.Next(CallInNanos(c)).0, CallInNanos(d));
  }

  /** A call at that time and with that cap gets different answers, and is itself
      not a late one. */
  predicate Tells(h: History, k: Key, now: Time, limits: Limits, goneAtExpiry: bool) {
    && AllowKey(h, now * MS, limits).1.ok != Script(k, now, limits, goneAtExpiry).1.ok
    && Leftover(h, k, now, goneAtExpiry) == 0
  }

  lemma TellsApart(h: History, k: Key, clock: Time, now: Time, limits: Limits, goneAtExpiry: bool)
    requires Alike(h, k, clock, goneAtExpiry) && clock <= now
    requires Parts(h, now * MS, limits, goneAtExpiry) || Late(h, k, now, limits, goneAtExpiry)
    ensures var h', (k', redis) := AllowKey(h, now * MS, limits).0, Script(k, now, limits, goneAtExpiry);
            if Parts(h, now * MS, limits, goneAtExpiry)
            then Tells(h', k', Afterwards(now, goneAtExpiry), ONE_A_DAY, goneAtExpiry)
            else if redis.ok then Tells(h', k', now, TWO_A_DAY, goneAtExpiry)
            else Tells(h', k', now + 1, ONE_A_DAY, goneAtExpiry)
  {
    hide Alike, Parts, AllowKey, Script, KeyOK, CountAfter;
    if Parts(h, now * MS, limits, goneAtExpiry) {
      PartedDisagree(h, k, clock, now, limits, goneAtExpiry);
    } else {
      AlikeLater(h, k, clock, now, goneAtExpiry);
      KeyIsOK(h, k, now, goneAtExpiry);
      LateDisagree(h, k, now, limits);
    }
  }

  lemma TogetherAgree(calls: seq<Call>, d: Call, goneAtExpiry: bool)
    requires Ordered(calls) && Asks(d) && d.now >= Mem.Clock(calls) && Together(calls, d.key, goneAtExpiry)
    requires !LateAt(calls, d, goneAtExpiry)
    ensures AgreeOnLast(calls + [d], goneAtExpiry)
  {
    hide AgreeOnLast, Together, Leftover, Mem.Run, Run, InNanos;
    var all := calls + [d];
    assert all[..|all| - 1] == calls && all[|all| - 1] == d;
    StoresAgreeUnderChange(all, goneAtExpiry);
  }

  /** On a run that stayed together so far, the stores answer every next call on
      the key alike (but for those that are late themselves) exactly if its last
      call did not part them: it did not find an emptied history that memory holds
      for longer, nor came with a daily cap in the millisecond a key expired that
      the store still had, with a hit of the last day. */
  lemma PartExactly(calls: seq<Call>, goneAtExpiry: bool)
    requires calls != [] && Ordered(calls) && Asks(calls[|calls| - 1])
    requires Together(calls[..|calls| - 1], calls[|calls| - 1].key, goneAtExpiry)
    ensures var front, c := calls[..|calls| - 1], calls[|calls| - 1];
            (forall d | Asks(d) && d.key == c.key && d.now >= c.now && !LateAt(calls, d, goneAtExpiry) ::
               AgreeOnLast(calls + [d], goneAtExpiry)) <==>
            !PartsAt(front, c, goneAtExpiry) && !LateAt(front, c, goneAtExpiry)
  {
    hide AgreeOnLast, PartsAt, LateAt, Telling, Mem.Run, Run, InNanos;
    var front, c := calls[..|calls| - 1], calls[|calls| - 1];
    if PartsAt(front, c, goneAtExpiry) || LateAt(front, c, goneAtExpiry) {
      PartedRun(front, c, goneAtExpiry);
      assert front + [c] == calls && Asks(Telling(front, c, goneAtExpiry));
    } else {
      forall d | Asks(d) && d.key == c.key && d.now >= c.now && !LateAt(calls, d, goneAtExpiry)
        ensures AgreeOnLast(calls + [d], goneAtExpiry)
      {
        TogetherAgree(calls, d, goneAtExpiry);
      }
    }
  }

  // Runs that never part.

  predicate NoRefund(calls: seq<Call>, key: string) {
    forall i | 0 <= i < |calls| :: !(calls[i].Refund? && calls[i].key == key)
  }

  /** The newest hit is within a day of the expiry it brought about. */
  predicate Anchored(h: History) {
    h.expires == 0 || (h.hits != [] && h.hits[|h.hits| - 1] + DAY >= h.expires)
  }

  lemma AnchoredStaysTogether(h: History, now: Time, limits: Limits, goneAtExpiry: bool)
    requires Anchored(h) && SortedUpTo(h.hits, now)
    ensures !Parts(h, now, limits, goneAtExpiry)
  {
    if h.expires > now + limits.Keep() {
      SuffixAfter(h.hits, now - DAY);
      assert h.hits[|h.hits| - 1] > now - DAY;
      hide CountAfter;
    }
  }

  lemma AllowKeepsAnchor(h: History, now: Time, limits: Limits)
    requires Anchored(h) && SortedUpTo(h.hits, now)
    ensures Anchored(AllowKey(h, now, limits).0)
  {
    var hist := Kept(h, now, limits);
    if hist == [] { LongestWaitExact([], now, limits.Windows()); }
    hide LongestWait, CountAfter;
    assert hist != [] ==> hist[|hist| - 1] == h.hits[|h.hits| - 1];
  }

  lemma NextKeepsAnchor(s: State, c: Call, key: string, clock: Time)
    requires Anchored(s.Of(key)) && SortedUpTo(s.Of(key).hits, clock) && (c.Allow? ==> clock <= c.now)
    requires !(c.Refund? && c.key == key)
    ensures Anchored(s.Next(c).0.Of(key))
  {
    hide AllowKey;
    if c.Allow? { AllowKeepsAnchor(s.Sweep(c.now).Of(key), c.now, c.limits); }
  }

  lemma {:induction false} NoRefundsAnchor(calls: seq<Call>, key: string)
    requires Ordered(calls) && NoRefund(calls, key)
    ensures Anchored(Mem.Run(calls).Of(key))
  {
    if calls != [] {
      hide Anchored, State.Next;
      var front := calls[..|calls| - 1];
      NoRefundsAnchor(front, key);
      HitsSorted(front, key);
      NextKeepsAnchor(Mem.Run(front), calls[|calls| - 1], key, Mem.Clock(front));
    }
  }

  /** Without refunds no call finds an emptied history that is held for longer. */
  lemma NoRefundsNeverPart(calls: seq<Call>, c: Call, goneAtExpiry: bool)
    requires Ordered(calls) && NoRefund(calls, c.key) && c.Allow? && Mem.Clock(calls) <= c.now
    ensures !PartsAt(calls, c, goneAtExpiry)
  {
    hide Parts, InNanos, Anchored, Mem.Run;
    OrderedNanos(calls);
    NanosNoRefund(calls, c.key);
    NoRefundsAnchor(InNanos(calls), c.key);
    HitsSorted(InNanos(calls), c.key);
    AnchoredStaysTogether(Mem.Run(InNanos(calls)).Of(c.key), c.now * MS, c.limits, goneAtExpiry);
  }

  /** So the stores never part, however the limits change, if a key is gone in the
      millisecond it expires. */
  lemma {:induction false} NoRefundsStayTogether(calls: seq<Call>, key: string)
    requires Ordered(calls) && NoRefund(calls, key)
    ensures Together(calls, key, true)
  {
    if calls != [] {
      hide PartsAt, Mem.Run;
      var front, c := calls[..|calls| - 1], calls[|calls| - 1];
      NoRefundsStayTogether(front, key);
      if Asks(c) && c.key == key { NoRefundsNeverPart(front, c, true); }
    }
  }

  lemma NanosNoRefund(calls: seq<Call>, key: string)
    requires NoRefund(calls, key)
    ensures NoRefund(InNanos(calls), key)
  {
  }

  // Inputs on which they part.

  const DAILY := Limits(0, 0, 2)
  const HOURLY := Limits(0, 5, 0)

  /** The history of a key that is alone in a run, after one more call. */
  lemma OneMore(calls: seq<Call>, c: Call)
    requires c.Refund? || Asks(c)
    ensures var h, h' := Mem.Run(InNanos(calls)).Of(c.key), Mem.Run(InNanos(calls + [c])).Of(c.key);
            h' == match c
                  case Allow(_, now, limits) => AllowKey(h, now * MS, limits).0
                  case Refund(_, _) => RefundKey(h)
  {
    hide InNanos, AllowKey, Mem.Run;
    assert (calls + [c])[..|calls|] == calls;
    RunsSnoc(calls + [c], c.key, true);
    if c.Allow? { OwnNext(Mem.Run(InNanos(calls)), CallInNanos(c)); }
  }

  const FIRST := Allow("k", 0, DAILY)

  lemma FirstHistory()
    ensures Mem.Run(InNanos([])).Of("k") == EMPTY && Mem.Run(InNanos([FIRST])).Of("k") == History([0], DAY)
  {
    assert InNanos([]) == [];
    assert [] + [FIRST] == [FIRST];
    OneMore([], FIRST);
    RoomAdmits(EMPTY, 0, DAILY);
    hide AllowKey;
  }

  const REFUND := Refund("k", 0)
  const SECOND_HIT := Allow("k", 20 * HOUR_MS, DAILY)

  /** A refund that empties the key, then a call without a daily cap. */
  lemma EmptyingRefundParts()
    ensures var c, d := Allow("k", 0, HOURLY), Allow("k", HOUR_MS, ONE_A_DAY);
            !AgreeOnLast([FIRST] + [REFUND] + [c] + [d], true)
  {
    hide AllowKey, Mem.Run, AgreeOnLast, InNanos, Together, Ordered, Parts, Kept;
    FirstHistory();
    FirstTogether();
    OneMore([FIRST], REFUND);
    TogetherSnoc([FIRST], REFUND);
    EmptyParts();
    PartedRun([FIRST] + [REFUND], Allow("k", 0, HOURLY), true);
  }

  lemma EmptyParts()
    ensures RefundKey(History([0], DAY)) == History([], DAY) && Parts(History([], DAY), 0, HOURLY, true)
  {
  }

  lemma FirstTogether()
    ensures Ordered([FIRST]) && Together([FIRST], "k", true) && Mem.Clock([FIRST]) == 0
  {
    assert [FIRST][..0] == [];
    FirstHistory();
  }

  /** The refund need not empty the key: the hit that is left can grow too old
      while the expiry of the refunded one still holds. */
  lemma AgedRefundParts()
    ensures Mem.Run(InNanos([FIRST] + [SECOND_HIT] + [REFUND])).Of("k").hits != []
    ensures var c, d := Allow("k", 25 * HOUR_MS, HOURLY), Allow("k", 26 * HOUR_MS, ONE_A_DAY);
            !AgreeOnLast([FIRST] + [SECOND_HIT] + [REFUND] + [c] + [d], true)
  {
    hide AllowKey, Mem.Run, AgreeOnLast, InNanos, Together, Ordered, Parts, Kept;
    FirstHistory();
    FirstTogether();
    AgedHistory();
    TogetherSnoc([FIRST], SECOND_HIT);
    OneMore([FIRST], SECOND_HIT);
    TogetherSnoc([FIRST] + [SECOND_HIT], REFUND);
    OneMore([FIRST] + [SECOND_HIT], REFUND);
    PartedRun([FIRST] + [SECOND_HIT] + [REFUND], Allow("k", 25 * HOUR_MS, HOURLY), true);
  }

  lemma AgedHistory()
    ensures var h := History([0, 20 * HOUR], 44 * HOUR);
            && !Parts(History([0], DAY), 20 * HOUR, DAILY, true)
            && AllowKey(History([0], DAY), 20 * HOUR, DAILY).0 == h
            && RefundKey(h) == History([0], 44 * HOUR) && Parts(History([0], 44 * HOUR), 25 * HOUR, HOURLY, true)
  {
    hide AllowKey, Kept, CountAfter;
    AgedKept();
    RoomAdmits(History([0], DAY), 20 * HOUR, DAILY);
    assert [0] + [20 * HOUR] == [0, 20 * HOUR];
    assert [0, 20 * HOUR][..1] == [0];
  }

  lemma AgedKept()
    ensures Kept(History([0], DAY), 20 * HOUR, DAILY) == [0]
    ensures Kept(History([0], 44 * HOUR), 25 * HOUR, HOURLY) == []
  {
    OneHit(0, 20 * HOUR - DAY);
    OneHit(0, 25 * HOUR - DAY);
    hide CountAfter;
  }

  lemma TogetherSnoc(calls: seq<Call>, c: Call)
    requires Ordered(calls) && Together(calls, c.key, true) && (c.Allow? ==> Mem.Clock(calls) <= c.now)
    requires Asks(c) ==> !PartsAt(calls, c, true)
    ensures Ordered(calls + [c]) && Together(calls + [c], c.key, true)
    ensures Mem.Clock(calls + [c]) == if c.Allow? then c.now else Mem.Clock(calls)
  {
    assert (calls + [c])[..|calls|] == calls;
  }

  /** A store in which a key is still there in the millisecond it expires answers
      a call that only then has a daily cap otherwise than memory. */
  lemma ExpiryMillisecondParts()
    ensures !AgreeOnLast([Allow("k", 0, HOURLY)] + [Allow("k", HOUR_MS, ONE_A_DAY)], false)
  {
    hide AllowKey, Script, Mem.Run, Run, InNanos, Mem.ReplyTo, RedisReply;
    var c, d := Allow("k", 0, HOURLY), Allow("k", HOUR_MS, ONE_A_DAY);
    Start();
    assert [] + [c] == [c] && [c][..0] == [];
    OneMore([], c);
    RepliesSnoc([c], d, false);
    OwnNext(Mem.Run(InNanos([c])), CallInNanos(d));
    HourlyHit();
    StoredHit();
    StillThere();
    RunsSnoc([c], "k", false);
  }

  lemma Start()
    ensures InNanos([]) == [] && Mem.Run([]) == State(map[], 0) && Run([], "k", false) == Absent
  {
  }

  lemma HourlyHit()
    ensures AllowKey(EMPTY, 0, HOURLY).0 == History([0], HOUR)
    ensures AllowKey(History([0], HOUR), HOUR, ONE_A_DAY).1.ok
  {
    RoomAdmits(EMPTY, 0, HOURLY);
    RoomAdmits(History([0], HOUR), HOUR, ONE_A_DAY);
    hide LongestWait, AllowKey;
  }

  lemma StoredHit()
    ensures Script(Absent, 0, HOURLY, false).0 == Present([0], At(HOUR_MS))
  {
    ScanIsLongestWait([], 0, WindowsMs(HOURLY));
    NothingToWaitFor(0, HOURLY);
    hide LongestWait, Scan;
  }

  lemma StillThere()
    ensures !Script(Present([0], At(HOUR_MS)), HOUR_MS, ONE_A_DAY, false).1.ok
  {
    OneHit(0, HOUR_MS - DAY_MS);
    hide CountAfter;
    var ws := WindowsMs(ONE_A_DAY);
    assert ws[..|ws| - 1][..1] == ws[..1] && ws[..1][..0] == [];
  }
}
