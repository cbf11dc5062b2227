/** What the limiter promises over whole runs: caps, exact retry times, the
    effect of refunding the newest hit, and how long daily history is held. */
module LimiterTheorems {
  import opened Prelude
  import opened SlidingWindow
  import opened MemoryLimiter
  import opened LimiterRuns

  /** Every rate-limited call on `key` carries the same limits. */
  predicate Unchanging(calls: seq<Call>, key: string, limits: Limits) {
    forall i | 0 <= i < |calls| :: calls[i].Allow? && calls[i].key == key ==> calls[i].limits == limits
  }

  lemma {:induction false} LogSorted(calls: seq<Call>, daily: string -> bool, key: string)
    requires Steady(calls, daily)
    ensures SortedUpTo(Log(calls, key), Clock(calls))
  {
    RunRepresents(calls, daily, key);
  }

  lemma {:induction false} WindowCapHolds(
    calls: seq<Call>, daily: string -> bool, key: string, limits: Limits, i: nat, x: int)
    requires Steady(calls, daily) && Unchanging(calls, key, limits)
    requires i < 3 && limits.Windows()[i].limit > 0
    ensures var w := limits.Windows()[i]; CountIn(Log(calls, key), x, x + w.size) <= w.limit
  {
    if calls != [] {
      var front, c, w := calls[..|calls| - 1], calls[|calls| - 1], limits.Windows()[i];
      WindowCapHolds(front, daily, key, limits, i, x);
      var log := Log(front, key);
      if c.key == key && c.Allow? && Log(calls, key) != log {
        LogSorted(front, daily, key);
        assert c.limits == limits && HasRoom(log, c.now, w);
        AdmissionKeepsCap(log, c.now, w, x);
      }
    }
  }

  /** In every run, no minute, hour or day (an interval (x, x + size]) holds more
      recorded hits than its cap. */
  lemma CapHolds(calls: seq<Call>, daily: string -> bool, key: string, limits: Limits, x: int)
    requires Steady(calls, daily) && Unchanging(calls, key, limits)
    ensures var log := Log(calls, key);
            && (limits.perMinute > 0 ==> CountIn(log, x, x + 60 * SECOND) <= limits.perMinute)
            && (limits.perHour > 0 ==> CountIn(log, x, x + 3600 * SECOND) <= limits.perHour)
            && (limits.perDay > 0 ==> CountIn(log, x, x + 86400 * SECOND) <= limits.perDay)
  {
    hide Log, CountIn, Steady;
    if limits.perMinute > 0 { WindowCapHolds(calls, daily, key, limits, 0, x); }
    if limits.perHour > 0 { WindowCapHolds(calls, daily, key, limits, 1, x); }
    if limits.perDay > 0 { WindowCapHolds(calls, daily, key, limits, 2, x); }
  }

  /** Fewer hits than permitted in the last minute, hour and day. */
  predicate Room(log: seq<Time>, now: int, limits: Limits) {
    && (limits.perMinute > 0 ==> CountAfter(log, now - 60 * SECOND) < limits.perMinute)
    && (limits.perHour > 0 ==> CountAfter(log, now - 3600 * SECOND) < limits.perHour)
    && (limits.perDay > 0 ==> CountAfter(log, now - 86400 * SECOND) < limits.perDay)
  }

  lemma AdmitsIsRoom(log: seq<Time>, now: int, limits: Limits)
    ensures Admits(log, now, limits.Windows()) <==> Room(log, now, limits)
  {
    hide CountAfter;
    var ws := limits.Windows();
    if Admits(log, now, ws) { assert HasRoom(log, now, ws[0]) && HasRoom(log, now, ws[1]) && HasRoom(log, now, ws[2]); }
  }

  /** The log has room from `wait` later on, and not before. */
  ghost predicate RoomOnlyAfter(log: seq<Time>, now: int, limits: Limits, wait: int) {
    wait > 0 && Room(log, now + wait, limits) && forall t | now <= t < now + wait :: !Room(log, t, limits)
  }

  lemma WaitIsRoom(log: seq<Time>, now: int, limits: Limits, wait: int)
    requires IsExactWait(log, now, limits.Windows(), wait)
    ensures RoomOnlyAfter(log, now, limits, wait)
  {
    hide Admits, Room;
    AdmitsIsRoom(log, now + wait, limits);
    forall t | now <= t < now + wait ensures !Room(log, t, limits) {
      AdmitsIsRoom(log, t, limits);
    }
  }

  lemma UncappedHasRoom(s: State, c: Call, log: seq<Time>)
    requires c.Allow? && c.limits.None()
    ensures s.Next(c).1.ok && Room(log, c.now, c.limits)
  {
  }

  /** In every run a call is admitted exactly if the log has room for it in every
      capped minute, hour and day; a refusal names the time from which it has, and
      not before. */
  lemma AdmittedExactly(calls: seq<Call>, daily: string -> bool)
    requires calls != [] && calls[|calls| - 1].Allow? && Steady(calls, daily)
    ensures var c, log := calls[|calls| - 1], Log(calls[..|calls| - 1], calls[|calls| - 1].key);
            && (ReplyTo(calls).ok <==> Room(log, c.now, c.limits))
            && (!ReplyTo(calls).ok ==> RoomOnlyAfter(log, c.now, c.limits, ReplyTo(calls).wait))
  {
    hide Admits, Room, Log, Steady, Run, State.Next, IsExactWait, RoomOnlyAfter;
    var front, c := calls[..|calls| - 1], calls[|calls| - 1];
    var log := Log(front, c.key);
    if c.limits.None() {
      UncappedHasRoom(Run(front), c, log);
    } else {
      RepliesMatchLog(calls, daily);
      AdmitsIsRoom(log, c.now, c.limits);
      if !ReplyTo(calls).ok { WaitIsRoom(log, c.now, c.limits, ReplyTo(calls).wait); }
    }
  }

  /** The time of the last call with a cap. */
  function LastAsk(calls: seq<Call>): Time {
    if calls == [] then 0
    else
      var c := calls[|calls| - 1];
      if c.Allow? && !c.limits.None() then c.now else LastAsk(calls[..|calls| - 1])
  }

  ghost predicate Fresh(s: State, asked: Time) {
    asked - s.swept < MINUTE && forall k | k in s.hits :: s.hits[k].expires > s.swept
  }

  lemma NextFresh(s: State, c: Call, asked: Time)
    requires Fresh(s, asked) && s.swept <= asked && (c.Allow? ==> asked <= c.now)
    ensures var s', asked' := s.Next(c).0, if c.Allow? && !c.limits.None() then c.now else asked;
            Fresh(s', asked') && s'.swept <= asked'
  {
    if c.Allow? && !c.limits.None() {
      var swept := s.Sweep(c.now);
      assert Fresh(swept, c.now) && swept.swept <= c.now;
      var h := swept.Of(c.key);
      if Kept(h, c.now, c.limits) == [] { LongestWaitExact([], c.now, c.limits.Windows()); }
      hide LongestWait, CountAfter;
    }
  }

  lemma {:induction false} RunFresh(calls: seq<Call>)
    requires Ordered(calls)
    ensures Fresh(Run(calls), LastAsk(calls)) && Run(calls).swept <= LastAsk(calls) <= Clock(calls)
  {
    if calls != [] {
      hide Fresh, State.Next;
      var front := calls[..|calls| - 1];
      RunFresh(front);
      NextFresh(Run(front), calls[|calls| - 1], LastAsk(front));
    } else {
      assert Run(calls) == State(map[], 0);
    }
  }

  /** In every run, no key is still held at a call a minute after it expired. */
  lemma NoStaleKeys(calls: seq<Call>, key: string)
    requires Ordered(calls) && key in Run(calls).hits
    ensures Run(calls).hits[key].expires > LastAsk(calls) - 60 * SECOND
  {
    hide Run;
    RunFresh(calls);
  }

  /** Calls that neither refund `key` nor come in time for it. */
  ghost predicate Quiet(more: seq<Call>, key: string, limits: Limits, until: int) {
    forall i | 0 <= i < |more| && more[i].key == key ::
      more[i].Allow? && more[i].limits == limits && more[i].now < until
  }

  lemma {:induction false} SteadyPrefix(calls: seq<Call>, more: seq<Call>, daily: string -> bool)
    requires Steady(calls + more, daily)
    ensures Steady(calls, daily)
  {
    if more == [] {
      assert calls + more == calls;
    } else {
      assert (calls + more)[..|calls + more| - 1] == calls + more[..|more| - 1];
      SteadyPrefix(calls, more[..|more| - 1], daily);
    }
  }

  lemma {:induction false} ClockGrows(calls: seq<Call>, more: seq<Call>, daily: string -> bool)
    requires Steady(calls + more, daily)
    ensures Clock(calls) <= Clock(calls + more)
  {
    if more == [] {
      assert calls + more == calls;
    } else {
      assert (calls + more)[..|calls + more| - 1] == calls + more[..|more| - 1];
      ClockGrows(calls, more[..|more| - 1], daily);
    }
  }

  /** Attempts made too early are refused and leave the log as it was. */
  lemma {:induction false} QuietKeepsLog(
    calls: seq<Call>, more: seq<Call>, daily: string -> bool, key: string, limits: Limits, wait: int)
    requires Steady(calls + more, daily)
    requires IsExactWait(Log(calls, key), Clock(calls), limits.Windows(), wait)
    requires Quiet(more, key, limits, Clock(calls) + wait)
    ensures Log(calls + more, key) == Log(calls, key)
  {
    if more == [] {
      assert calls + more == calls;
    } else {
      var front, c := more[..|more| - 1], more[|more| - 1];
      assert (calls + more)[..|calls + more| - 1] == calls + front;
      QuietKeepsLog(calls, front, daily, key, limits, wait);
      ClockGrows(calls, front, daily);
      assert c.key == key ==> !Admits(Log(calls, key), c.now, limits.Windows());
    }
  }

  /** A refusal at t with wait r is kept to the instant: whatever else happens
      meanwhile, an attempt before t + r is refused and one at t + r gets in. */
  lemma RetryAfterExact(calls: seq<Call>, more: seq<Call>, last: Call, daily: string -> bool)
    requires calls != [] && calls[|calls| - 1].Allow? && !calls[|calls| - 1].limits.None()
    requires !ReplyTo(calls).ok
    requires var c := calls[|calls| - 1];
             && last.Allow? && last.key == c.key && last.limits == c.limits
             && Quiet(more, c.key, c.limits, c.now + ReplyTo(calls).wait)
    requires Steady(calls + more + [last], daily)
    ensures var t := calls[|calls| - 1].now + ReplyTo(calls).wait;
            && (last.now < t ==> !ReplyTo(calls + more + [last]).ok)
            && (last.now == t ==> ReplyTo(calls + more + [last]).ok)
  {
    var c, wait := calls[|calls| - 1], ReplyTo(calls).wait;
    var all := calls + more + [last];
    assert all[..|all| - 1] == calls + more;
    SteadyPrefix(calls + more, [last], daily);
    SteadyPrefix(calls, more, daily);
    RepliesMatchLog(calls, daily);
    assert Log(calls, c.key) == Log(calls[..|calls| - 1], c.key);
    QuietKeepsLog(calls, more, daily, c.key, c.limits, wait);
    ClockGrows(calls, more, daily);
    RepliesMatchLog(all, daily);
  }

  // Refunds.

  function WithoutAt(s: seq<Time>, i: nat): seq<Time>
    requires i < |s|
  {
    s[..i] + s[i + 1..]
  }

  lemma {:induction false} CountWithoutAt(s: seq<Time>, i: nat, cutoff: int)
    requires i < |s|
    ensures CountAfter(WithoutAt(s, i), cutoff) + (if s[i] > cutoff then 1 else 0) == CountAfter(s, cutoff)
  {
    if i == |s| - 1 {
      assert WithoutAt(s, i) == s[..|s| - 1];
    } else {
      var front, r := s[..|s| - 1], WithoutAt(s, i);
      assert r[..|r| - 1] == WithoutAt(front, i);
      CountWithoutAt(front, i, cutoff);
    }
  }

  /** Dropping the newest hit instead of the refunded one keeps the total and,
      for every cutoff, counts the same or exactly one fewer. */
  lemma NewestStandsForAny(s: seq<Time>, i: nat, cutoff: int)
    requires Sorted(s) && i < |s|
    ensures |s[..|s| - 1]| == |WithoutAt(s, i)|
    ensures var newest, given := CountAfter(s[..|s| - 1], cutoff), CountAfter(WithoutAt(s, i), cutoff);
            newest == given || newest + 1 == given
  {
    CountWithoutAt(s, i, cutoff);
    CountWithoutAt(s, |s| - 1, cutoff);
    assert WithoutAt(s, |s| - 1) == s[..|s| - 1];
  }

  /** The hits that were really sent: each refund removes the hit it is for. */
  function Sent(calls: seq<Call>, key: string): seq<Time> {
    if calls == [] then []
    else
      var front, c := calls[..|calls| - 1], calls[|calls| - 1];
      var sent, log := Sent(front, key), Log(front, key);
      if c.key != key then sent
      else
        match c
        case Allow(_, now, limits) =>
          if !limits.None() && Admits(log, now, limits.Windows()) then sent + [now] else sent
        case Refund(_, which) => if which < |sent| then WithoutAt(sent, which) else sent
  }

  /** Every refund gives back a hit that was sent and not given back before. */
  ghost predicate GenuineRefunds(calls: seq<Call>, key: string) {
    calls != [] ==>
      var front, c := calls[..|calls| - 1], calls[|calls| - 1];
      && GenuineRefunds(front, key)
      && (c.Refund? && c.key == key ==> c.which < |Sent(front, key)|)
  }

  function Refunds(calls: seq<Call>, key: string): nat {
    if calls == [] then 0
    else
      var c := calls[|calls| - 1];
      Refunds(calls[..|calls| - 1], key) + if c.Refund? && c.key == key then 1 else 0
  }

  /** The limiter's log never counts more than was sent, and at most one fewer
      for each refund. */
  lemma {:induction false} LogTracksSent(calls: seq<Call>, daily: string -> bool, key: string, cutoff: int)
    requires Steady(calls, daily) && GenuineRefunds(calls, key)
    ensures |Log(calls, key)| == |Sent(calls, key)|
    ensures var logged, sent := CountAfter(Log(calls, key), cutoff), CountAfter(Sent(calls, key), cutoff);
            logged <= sent <= logged + Refunds(calls, key)
  {
    if calls != [] {
      hide Admits, CountAfter, WithoutAt;
      var front, c := calls[..|calls| - 1], calls[|calls| - 1];
      LogTracksSent(front, daily, key, cutoff);
      var log, sent := Log(front, key), Sent(front, key);
      if c.key == key {
        match c
        case Allow(_, now, limits) =>
          CountSnoc(log, now, cutoff);
          CountSnoc(sent, now, cutoff);
        case Refund(_, which) =>
          LogSorted(front, daily, key);
          RefundTracks(log, sent, which, cutoff);
      }
    }
  }

  lemma CountSnoc(log: seq<Time>, now: Time, cutoff: int)
    ensures CountAfter(log + [now], cutoff) == CountAfter(log, cutoff) + if now > cutoff then 1 else 0
  {
    assert (log + [now])[..|log|] == log;
  }

  /** The log loses its newest hit, what was sent the refunded one. */
  lemma RefundTracks(log: seq<Time>, sent: seq<Time>, which: nat, cutoff: int)
    requires Sorted(log) && |log| == |sent| && which < |sent|
    ensures |WithoutAt(sent, which)| == |log[..|log| - 1]|
    ensures var logged, sentAfter := CountAfter(log, cutoff), CountAfter(sent, cutoff);
            var logged', sent' := CountAfter(log[..|log| - 1], cutoff), CountAfter(WithoutAt(sent, which), cutoff);
            && (logged <= sentAfter ==> logged' <= sent')
            && sentAfter - 1 <= sent' <= sentAfter && logged - 1 <= logged'
  {
    CountWithoutAt(sent, which, cutoff);
    CountWithoutAt(log, |log| - 1, cutoff);
    assert WithoutAt(log, |log| - 1) == log[..|log| - 1];
    SuffixAfter(log, cutoff);
  }

  /** So over any run the messages really sent within a capped window exceed
      the cap by at most the number of refunds. */
  lemma SentWithinCapAndRefunds(
    calls: seq<Call>, daily: string -> bool, key: string, limits: Limits, i: nat, x: int)
    requires Steady(calls, daily) && GenuineRefunds(calls, key) && Unchanging(calls, key, limits)
    requires i < 3 && limits.Windows()[i].limit > 0
    ensures var w := limits.Windows()[i];
            CountIn(Sent(calls, key), x, x + w.size) <= w.limit + Refunds(calls, key)
  {
    hide Log, Sent, Refunds, Steady, GenuineRefunds, Unchanging, CountAfter, CountIn;
    var w := limits.Windows()[i];
    WindowCapHolds(calls, daily, key, limits, i, x);
    LogTracksSent(calls, daily, key, x);
    LogTracksSent(calls, daily, key, x + w.size);
    CountInIsDifference(Log(calls, key), x, x + w.size);
    CountInIsDifference(Sent(calls, key), x, x + w.size);
  }

  // Limits that change from call to call.

  /** The clock never goes back; nothing is said about the limits. */
  ghost predicate Ordered(calls: seq<Call>) {
    calls != [] ==>
      var front, c := calls[..|calls| - 1], calls[|calls| - 1];
      Ordered(front) && (c.Allow? ==> Clock(front) <= c.now)
  }

  /** Whether the last call of a run was admitted under a daily cap. */
  predicate DailyAdmission(calls: seq<Call>, key: string) {
    calls != [] &&
    var c := calls[|calls| - 1];
    c.Allow? && c.key == key && c.limits.Daily() && ReplyTo(calls).ok
  }

  /** What one call does to the expiry of a key. */
  lemma NextExpiry(s: State, c: Call, key: string)
    ensures var before, after := s.Of(key).expires, s.Next(c).0.Of(key).expires;
            match c
            case Refund(_, _) => after == before
            case Allow(k, now, limits) =>
              var daily := k == key && limits.Daily() && s.Next(c).1.ok;
              && (before > now ==> after >= before)
              && (daily ==> after >= now + DAY)
              && after <= Max(before, now + if daily then DAY else HOUR)
  {
  }

  lemma KeptSorted(h: History, now: Time, limits: Limits)
    requires SortedUpTo(h.hits, now)
    ensures SortedUpTo(Kept(h, now, limits), now)
    ensures SortedUpTo(Kept(h, now, limits) + [now], now)
  {
  }

  lemma NextSorted(s: State, c: Call, key: string, clock: Time)
    requires SortedUpTo(s.Of(key).hits, clock) && (c.Allow? ==> clock <= c.now)
    ensures SortedUpTo(s.Next(c).0.Of(key).hits, if c.Allow? then c.now else clock)
  {
    if c.Allow? {
      var h := s.Sweep(c.now).Of(key);
      KeptSorted(h, c.now, c.limits);
      assert AllowKey(h, c.now, c.limits).0.hits in {Kept(h, c.now, c.limits), Kept(h, c.now, c.limits) + [c.now]};
    }
  }

  lemma {:induction false} HitsSorted(calls: seq<Call>, key: string)
    requires Ordered(calls)
    ensures SortedUpTo(Run(calls).Of(key).hits, Clock(calls))
  {
    if calls != [] {
      var front := calls[..|calls| - 1];
      HitsSorted(front, key);
      NextSorted(Run(front), calls[|calls| - 1], key, Clock(front));
    }
  }

  lemma {:induction false} ExpiryWithinDay(calls: seq<Call>, key: string)
    requires Ordered(calls)
    ensures Run(calls).Of(key).expires <= Clock(calls) + DAY
  {
    if calls != [] {
      ExpiryWithinDay(calls[..|calls| - 1], key);
      NextExpiry(Run(calls[..|calls| - 1]), calls[|calls| - 1], key);
    }
  }

  lemma {:induction false} OrderedPrefix(calls: seq<Call>, more: seq<Call>)
    requires Ordered(calls + more)
    ensures Ordered(calls) && Clock(calls) <= Clock(calls + more)
  {
    if more == [] {
      assert calls + more == calls;
    } else {
      assert (calls + more)[..|calls + more| - 1] == calls + more[..|more| - 1];
      OrderedPrefix(calls, more[..|more| - 1]);
    }
  }

  /** A daily-capped admission holds the history for a full day. */
  lemma {:induction false} DailyAdmissionHolds(calls: seq<Call>, more: seq<Call>, key: string)
    requires Ordered(calls + more) && DailyAdmission(calls, key)
    requires Clock(calls + more) < Clock(calls) + DAY
    ensures Run(calls + more).Of(key).expires >= Clock(calls) + DAY
  {
    hide State.Next;
    if more == [] {
      assert calls + more == calls;
      NextExpiry(Run(calls[..|calls| - 1]), calls[|calls| - 1], key);
    } else {
      hide DailyAdmission;
      var front, last := more[..|more| - 1], more[|more| - 1];
      assert (calls + more)[..|calls + more| - 1] == calls + front && calls + front + [last] == calls + more;
      OrderedPrefix(calls + front, [last]);
      DailyAdmissionHolds(calls, front, key);
      NextExpiry(Run(calls + front), last, key);
    }
  }

  /** Until 23 hours after a daily-capped admission, a call under any limits
      drops no stored hit younger than a day. */
  lemma DayOfHistoryIsKept(calls: seq<Call>, more: seq<Call>, key: string, now: Time, limits: Limits)
    requires Ordered(calls + more) && DailyAdmission(calls, key)
    requires Clock(calls + more) <= now < Clock(calls) + 23 * HOUR
    ensures var s := Run(calls + more);
            var h := s.Of(key).hits;
            Kept(s.Sweep(now).Of(key), now, limits) == h[|h| - CountAfter(h, now - DAY)..]
  {
    hide Run, Clock, Ordered, DailyAdmission;
    DailyAdmissionHolds(calls, more, key);
  }

  /** None of the calls `more` is admitted under a daily cap on `key`. */
  ghost predicate NoDailyAdmission(calls: seq<Call>, more: seq<Call>, key: string) {
    more != [] ==> NoDailyAdmission(calls, more[..|more| - 1], key) && !DailyAdmission(calls + more, key)
  }

  /** Once the last daily-capped admission is 23 hours old, only an hour of
      history is left to hold. */
  lemma {:induction false} ExpiryAfterLastDaily(calls: seq<Call>, more: seq<Call>, key: string)
    requires Ordered(calls + more) && DailyAdmission(calls, key)
    requires NoDailyAdmission(calls, more, key)
    ensures Run(calls + more).Of(key).expires <= Max(Clock(calls) + DAY, Clock(calls + more) + HOUR)
  {
    hide Run, DailyAdmission, Clock;
    if more == [] {
      assert calls + more == calls;
      ExpiryWithinDay(calls, key);
    } else {
      var front := more[..|more| - 1];
      assert (calls + more)[..|calls + more| - 1] == calls + front;
      ExpiryAfterLastDaily(calls, front, key);
      StepWithoutDaily(calls + more, key);
    }
  }

  lemma StepWithoutDaily(calls: seq<Call>, key: string)
    requires calls != [] && Ordered(calls) && !DailyAdmission(calls, key)
    ensures var front := calls[..|calls| - 1];
            && Clock(front) <= Clock(calls)
            && Run(calls).Of(key).expires <= Max(Run(front).Of(key).expires, Clock(calls) + HOUR)
  {
    NextExpiry(Run(calls[..|calls| - 1]), calls[|calls| - 1], key);
  }

  lemma KeptYoungerThan(h: History, now: Time, limits: Limits)
    requires Sorted(h.hits)
    ensures forall t | t in Kept(h, now, limits) :: t > now - limits.Retain(h.expires - now)
  {
    SuffixAfter(h.hits, now - limits.Retain(h.expires - now));
  }

  /** From 23 hours after the last daily-capped admission on, every call
      without a daily cap trims the history to one hour. */
  lemma HistoryShrinksToAnHour(calls: seq<Call>, more: seq<Call>, key: string, now: Time, limits: Limits)
    requires Ordered(calls + more) && DailyAdmission(calls, key)
    requires NoDailyAdmission(calls, more, key)
    requires now >= Clock(calls + more) && now >= Clock(calls) + 23 * HOUR && !limits.Daily()
    ensures forall t | t in Kept(Run(calls + more).Sweep(now).Of(key), now, limits) :: t > now - HOUR
  {
    hide Run, DailyAdmission, NoDailyAdmission;
    ExpiryAfterLastDaily(calls, more, key);
    HitsSorted(calls + more, key);
    KeptYoungerThan(Run(calls + more).Sweep(now).Of(key), now, limits);
  }
}
