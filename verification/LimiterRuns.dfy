/** Whole runs of the in-memory limiter, compared with the complete log. */
module LimiterRuns {
  import opened SlidingWindow
  import opened MemoryLimiter

  /** The limiter after a run of calls. */
  function Run(calls: seq<Call>): State {
    if calls == [] then State(map[], 0) else Run(calls[..|calls| - 1]).Next(calls[|calls| - 1]).0
  }

  /** The reply to the last call of a run. */
  function ReplyTo(calls: seq<Call>): Reply
    requires calls != []
  {
    Run(calls[..|calls| - 1]).Next(calls[|calls| - 1]).1
  }

  /** The complete log of a key: every admitted hit, the newest dropped for
      each refund, and admission decided by the window rule alone. */
  function Log(calls: seq<Call>, key: string): seq<Time> {
    if calls == [] then [] else LogNext(Log(calls[..|calls| - 1], key), calls[|calls| - 1], key)
  }

  function LogNext(log: seq<Time>, c: Call, key: string): seq<Time> {
    if c.key != key then log
    else
      match c
      case Allow(_, now, limits) =>
        if !limits.None() && Admits(log, now, limits.Windows()) then log + [now] else log
      case Refund(_, _) => if log == [] then log else log[..|log| - 1]
  }

  function Clock(calls: seq<Call>): Time {
    if calls == [] then 0
    else
      match calls[|calls| - 1]
      case Allow(_, now, _) => now
      case Refund(_, _) => Clock(calls[..|calls| - 1])
  }

  /** The clock never goes back, and the limits of a key always or never
      include a daily cap (they may otherwise change from call to call). */
  ghost predicate Steady(calls: seq<Call>, daily: string -> bool) {
    calls != [] ==>
      var front, c := calls[..|calls| - 1], calls[|calls| - 1];
      && Steady(front, daily)
      && (c.Allow? ==> Clock(front) <= c.now && (c.limits.None() || c.limits.Daily() == daily(c.key)))
  }

  /** What a stored history may lack of the complete log: hits as old as
      `keep`, the longest window that counts, and all of them once it expired. */
  ghost predicate Represents(h: History, log: seq<Time>, keep: nat, clock: Time) {
    && SortedUpTo(log, clock)
    && |h.hits| <= |log|
    && h.hits == log[|log| - |h.hits|..]
    && (forall i | 0 <= i < |log| - |h.hits| :: log[i] <= clock - keep)
    && (forall i | 0 <= i < |h.hits| :: h.hits[i] + keep <= h.expires)
    && h.expires <= clock + keep
  }

  /** An expired history may be forgotten, and time may pass. */
  lemma RepresentsLater(h: History, log: seq<Time>, keep: nat, clock: Time, now: Time)
    requires Represents(h, log, keep, clock) && clock <= now
    ensures Represents(h, log, keep, now)
    ensures h.expires <= now ==> Represents(EMPTY, log, keep, now)
  {
    if h.expires <= now {
      forall i | 0 <= i < |log| ensures log[i] <= now - keep {
        var k := |log| - |h.hits|;
        assert i >= k ==> log[i] == h.hits[i - k];
      }
    }
  }

  lemma DropRepresents(h: History, log: seq<Time>, keep: nat, now: Time, n: nat)
    requires Represents(h, log, keep, now)
    requires n <= |h.hits| && forall i | 0 <= i < n :: h.hits[i] <= now - keep
    ensures Represents(History(h.hits[n..], h.expires), log, keep, now)
  {
    var k, rest := |log| - |h.hits|, h.hits[n..];
    forall i | 0 <= i < k + n ensures log[i] <= now - keep {
      assert i >= k ==> log[i] == h.hits[i - k];
    }
    assert forall i | 0 <= i < |rest| :: rest[i] == h.hits[n + i];
    assert rest == log[k + n..];
  }

  /** Trimming to the longest window that counts. */
  lemma TrimRepresents(h: History, log: seq<Time>, keep: nat, now: Time)
    requires Represents(h, log, keep, now)
    ensures Represents(History(h.hits[|h.hits| - CountAfter(h.hits, now - keep)..], h.expires), log, keep, now)
  {
    assert Sorted(h.hits);
    SuffixAfter(h.hits, now - keep);
    DropRepresents(h, log, keep, now, |h.hits| - CountAfter(h.hits, now - keep));
  }

  /** An admitted hit extends history and log alike. */
  lemma AppendRepresents(h: History, log: seq<Time>, keep: nat, now: Time)
    requires Represents(h, log, keep, now)
    ensures Represents(History(h.hits + [now], Max(h.expires, now + keep)), log + [now], keep, now)
  {
    var hits, k := h.hits + [now], |log| - |h.hits|;
    assert (log + [now])[k..] == hits;
    assert forall i | 0 <= i < k :: (log + [now])[i] == log[i];
  }

  /** A stored history decides as the whole log does. */
  lemma HistoryDecides(h: History, log: seq<Time>, keep: nat, now: Time, ws: seq<Window>)
    requires Represents(h, log, keep, now)
    requires forall i | 0 <= i < |ws| :: ws[i].limit > 0 ==> ws[i].size <= keep
    ensures var wait := LongestWait(h.hits, now, ws);
            && wait == LongestWait(log, now, ws)
            && (wait == 0 <==> Admits(log, now, ws))
            && (wait != 0 ==> IsExactWait(log, now, ws, wait))
  {
    LongestWaitTrim(log, |log| - |h.hits|, now, ws, keep);
    LongestWaitExact(log, now, ws);
  }

  lemma KeptRepresents(h: History, log: seq<Time>, keep: nat, now: Time, limits: Limits)
    requires Represents(h, log, keep, now) && limits.Keep() == keep
    ensures Represents(History(Kept(h, now, limits), if h.expires <= now then 0 else h.expires), log, keep, now)
  {
    if h.expires <= now {
      RepresentsLater(h, log, keep, now, now);
    } else {
      assert limits.Retain(h.expires - now) == keep;
      TrimRepresents(h, log, keep, now);
    }
  }

  /** One call on one key: the trimmed history decides as the log does, tells
      the exact wait, and stands for the log again. */
  lemma AllowMatchesLog(h: History, log: seq<Time>, keep: nat, now: Time, limits: Limits)
    requires Represents(h, log, keep, now)
    requires !limits.None() && limits.Keep() == keep
    ensures var (h', reply) := AllowKey(h, now, limits);
            && reply.ok == Admits(log, now, limits.Windows())
            && reply.wait == LongestWait(log, now, limits.Windows())
            && (!reply.ok ==> IsExactWait(log, now, limits.Windows(), reply.wait))
            && Represents(h', if reply.ok then log + [now] else log, keep, now)
  {
    hide Represents, Kept, LongestWait, Admits, IsExactWait;
    KeptRepresents(h, log, keep, now, limits);
    var kept := History(Kept(h, now, limits), if h.expires <= now then 0 else h.expires);
    HistoryDecides(kept, log, keep, now, limits.Windows());
    AppendRepresents(kept, log, keep, now);
  }

  lemma SweepRepresents(s: State, key: string, log: seq<Time>, keep: nat, clock: Time, now: Time)
    requires Represents(s.Of(key), log, keep, clock) && clock <= now
    ensures Represents(s.Sweep(now).Of(key), log, keep, now)
  {
    RepresentsLater(s.Of(key), log, keep, clock, now);
  }

  lemma RefundRepresents(h: History, log: seq<Time>, keep: nat, clock: Time)
    requires Represents(h, log, keep, clock)
    ensures Represents(RefundKey(h), if log == [] then log else log[..|log| - 1], keep, clock)
  {
    if h.hits != [] {
      assert h.hits[..|h.hits| - 1] == log[..|log| - 1][|log| - |h.hits|..];
    }
  }

  /** One call, seen from one key. */
  lemma NextRepresents(s: State, c: Call, key: string, log: seq<Time>, keep: nat, clock: Time)
    requires Represents(s.Of(key), log, keep, clock)
    requires c.Allow? ==> clock <= c.now
    requires c.Allow? && c.key == key && !c.limits.None() ==> c.limits.Keep() == keep
    ensures Represents(s.Next(c).0.Of(key), LogNext(log, c, key), keep, if c.Allow? then c.now else clock)
  {
    match c
    case Allow(k, now, limits) =>
      RepresentsLater(s.Of(key), log, keep, clock, now);
      SweepRepresents(s, key, log, keep, clock, now);
      if k == key && !limits.None() { AllowMatchesLog(s.Sweep(now).Of(key), log, keep, now, limits); }
    case Refund(_, _) =>
      RefundRepresents(s.Of(key), log, keep, clock);
  }

  lemma {:induction false} RunRepresents(calls: seq<Call>, daily: string -> bool, key: string)
    requires Steady(calls, daily)
    ensures Represents(Run(calls).Of(key), Log(calls, key), KeepFor(daily(key)), Clock(calls))
  {
    if calls != [] {
      var front, c := calls[..|calls| - 1], calls[|calls| - 1];
      RunRepresents(front, daily, key);
      NextRepresents(Run(front), c, key, Log(front, key), KeepFor(daily(key)), Clock(front));
    }
  }

  /** Over every run, trimming, expiry and sweeping are invisible: each call is
      answered as the complete log answers it, and a refusal names the exact
      wait. */
  lemma RepliesMatchLog(calls: seq<Call>, daily: string -> bool)
    requires calls != [] && calls[|calls| - 1].Allow? && !calls[|calls| - 1].limits.None()
    requires Steady(calls, daily)
    ensures var c, log := calls[|calls| - 1], Log(calls[..|calls| - 1], calls[|calls| - 1].key);
            && ReplyTo(calls).ok == Admits(log, c.now, c.limits.Windows())
            && ReplyTo(calls).wait == LongestWait(log, c.now, c.limits.Windows())
            && (!ReplyTo(calls).ok ==> IsExactWait(log, c.now, c.limits.Windows(), ReplyTo(calls).wait))
  {
    var front, c := calls[..|calls| - 1], calls[|calls| - 1];
    RunRepresents(front, daily, c.key);
    var s, log := Run(front), Log(front, c.key);
    SweepRepresents(s, c.key, log, KeepFor(daily(c.key)), Clock(front), c.now);
    AllowMatchesLog(s.Sweep(c.now).Of(c.key), log, KeepFor(daily(c.key)), c.now, c.limits);
  }
}
