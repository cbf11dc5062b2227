/** The shared rate limiter: a script over a sorted set of millisecond scores
    with a key expiry, and its agreement with the in-memory limiter. */
module RedisLimiter {
  import opened SlidingWindow
  import opened MemoryLimiter
  import opened LimiterRuns

  const MS := 1_000_000 // nanoseconds
  const MINUTE_MS := 60_000
  const HOUR_MS := 3_600_000
  const DAY_MS := 86_400_000

  function WindowsMs(l: Limits): seq<Window> {
    [Window(l.perMinute, MINUTE_MS), Window(l.perHour, HOUR_MS), Window(l.perDay, DAY_MS)]
  }

  function KeepMs(daily: bool): nat { if daily then DAY_MS else HOUR_MS }

  datatype Expiry = Never | At(time: int)

  /** A key of the store. A sorted set exists only while it has members; its
      members are unique, so it is modelled by its scores, lowest first. */
  datatype Key = Absent | Present(scores: seq<Time>, expiry: Expiry) {

    function Scores(): seq<Time> { if Absent? then [] else scores }

    /** The key as a command at `now` finds it. Whether it is already gone in
        the very millisecond it expires is left open. */
    function Found(now: Time, goneAtExpiry: bool): Key {
      if Present? && expiry.At? && (now > expiry.time || (goneAtExpiry && now == expiry.time)) then Absent else this
    }

    function Pttl(now: Time): int {
      if Absent? then -2 else if expiry.Never? then -1 else expiry.time - now
    }

    /** ZREMRANGEBYSCORE -inf cutoff. */
    function RemoveUpTo(cutoff: int): Key {
      if Absent? then Absent
      else
        var rest := scores[|scores| - CountAfter(scores, cutoff)..];
        if rest == [] then Absent else Present(rest, expiry)
    }

    /** ZADD: equal scores are neighbours, whichever way they are ordered. */
    function Add(score: Time): Key {
      if Absent? then Present([score], Never)
      else
        var at := |scores| - CountAfter(scores, score);
        Present(scores[..at] + [score] + scores[at..], expiry)
    }

    /** PEXPIRE, where the remaining time to live is below `keep`. */
    function Extend(now: Time, keep: nat): Key {
      if Present? && Pttl(now) < keep then Present(scores, At(now + keep)) else this
    }

    /** ZPOPMAX. */
    function PopMax(): Key {
      if Absent? || |scores| <= 1 then Absent else Present(scores[..|scores| - 1], expiry)
    }
  }

  /** The script's scan over the windows; -1 when no window is full. */
  function Scan(scores: seq<Time>, now: Time, ws: seq<Window>): int {
    if ws == [] then -1
    else
      var w := ws[|ws| - 1];
      var retry := Scan(scores, now, ws[..|ws| - 1]);
      if w.limit > 0 && CountAfter(scores, now - w.size) >= w.limit
      then Max(retry, scores[|scores| - w.limit] + w.size - now)
      else retry
  }

  function Script(key: Key, now: Time, limits: Limits, goneAtExpiry: bool): (Key, Reply) {
    var keep := KeepMs(limits.Daily());
    var k := key.Found(now, goneAtExpiry);
    var trimmed := k.RemoveUpTo(now - if k.Pttl(now) > keep then DAY_MS else keep);
    var retry := Scan(trimmed.Scores(), now, WindowsMs(limits));
    if retry >= 0 then (trimmed, Reply(false, retry))
    else (trimmed.Add(now).Extend(now, keep), Reply(true, 0))
  }

  class Store {
    var keys: map<string, Key>

    constructor ()
      ensures keys == map[]
    {
      keys := map[];
    }

    function Of(key: string): Key reads this { if key in keys then keys[key] else Absent }

    method Allow(key: string, limits: Limits, now: Time, goneAtExpiry: bool) returns (reply: Reply)
      modifies this
      ensures limits.None() ==> keys == old(keys) && reply == Reply(true, 0)
      ensures !limits.None() ==>
                var (k, r) := Script(old(Of(key)), now, limits, goneAtExpiry);
                keys == old(keys)[key := k] && reply == r
    {
      if limits.None() { return Reply(true, 0); }
      var k;
      k, reply := EvalScript(Of(key), now, limits, goneAtExpiry);
      keys := keys[key := k];
    }

    /** Takes the newest hit back. A key that had no other is gone with its
        expiry, which a later hit does not bring back; else the expiry stays. */
    method Refund(key: string)
      modifies this
      ensures forall other | other != key :: Of(other) == old(Of(other))
      ensures var was := old(Of(key)).Scores(); Of(key).Scores() == if was == [] then [] else was[..|was| - 1]
      ensures Of(key).Absent? <==> |old(Of(key)).Scores()| <= 1
      ensures Of(key).Present? ==> Of(key).expiry == old(Of(key)).expiry
    {
      keys := keys[key := Of(key).PopMax()];
    }
  }

  /** The script, which the store runs without interruption. */
  method EvalScript(key: Key, now: Time, limits: Limits, goneAtExpiry: bool) returns (k: Key, reply: Reply)
    ensures (k, reply) == Script(key, now, limits, goneAtExpiry)
  {
    hide Scan, CountAfter, Key.Add, Key.Extend, Key.RemoveUpTo, Key.Found, Key.Pttl;
    var windows := WindowsMs(limits);
    var keep := if windows[2].limit > 0 then DAY_MS else HOUR_MS;
    k := key.Found(now, goneAtExpiry);
    var trim := if k.Pttl(now) > keep then DAY_MS else keep;
    k := k.RemoveUpTo(now - trim);
    var retry := ScanWindows(k.Scores(), now, windows);
    if retry >= 0 { return k, Reply(false, retry); }
    k := k.Add(now).Extend(now, keep);
    return k, Reply(true, 0);
  }

  method ScanWindows(scores: seq<Time>, now: Time, windows: seq<Window>) returns (retry: int)
    ensures retry == Scan(scores, now, windows)
  {
    retry := -1;
    for i := 0 to |windows|
      invariant retry == Scan(scores, now, windows[..i])
    {
      assert windows[..i + 1][..i] == windows[..i];
      var w := windows[i];
      if w.limit > 0 {
        var n := CountAfter(scores, now - w.size);
        if n >= w.limit {
          var wait := scores[|scores| - w.limit] + w.size - now;
          if wait > retry { retry := wait; }
        }
      }
    }
    assert windows[..|windows|] == windows;
  }

  // Runs.

  function Run(calls: seq<Call>, key: string, goneAtExpiry: bool): Key {
    if calls == [] then Absent
    else Next(Run(calls[..|calls| - 1], key, goneAtExpiry), calls[|calls| - 1], key, goneAtExpiry).0
  }

  function Next(k: Key, c: Call, key: string, goneAtExpiry: bool): (Key, Reply) {
    if c.key != key then (k, Reply(true, 0))
    else
      match c
      case Allow(_, now, limits) => if limits.None() then (k, Reply(true, 0)) else Script(k, now, limits, goneAtExpiry)
      case Refund(_, _) => (k.PopMax(), Reply(true, 0))
  }

  /** The reply to the last call of a run whose times are milliseconds. */
  function RedisReply(calls: seq<Call>, goneAtExpiry: bool): Reply
    requires calls != []
  {
    var c := calls[|calls| - 1];
    Next(Run(calls[..|calls| - 1], c.key, goneAtExpiry), c, c.key, goneAtExpiry).1
  }

  /** The complete log of a key, in milliseconds. */
  function LogMs(calls: seq<Call>, key: string): seq<Time> {
    if calls == [] then [] else LogMsNext(LogMs(calls[..|calls| - 1], key), calls[|calls| - 1], key)
  }

  function LogMsNext(log: seq<Time>, c: Call, key: string): seq<Time> {
    if c.key != key then log
    else
      match c
      case Allow(_, now, limits) => if !limits.None() && Admits(log, now, WindowsMs(limits)) then log + [now] else log
      case Refund(_, _) => if log == [] then log else log[..|log| - 1]
  }

  ghost predicate KeyRepresents(k: Key, log: seq<Time>, keep: nat, clock: Time) {
    match k
    case Absent => Represents(EMPTY, log, keep, clock)
    case Present(scores, At(t)) => t >= 0 && scores != [] && Represents(History(scores, t), log, keep, clock)
    case Present(_, Never) => false
  }

  lemma {:induction false} ScanIsLongestWait(scores: seq<Time>, now: Time, ws: seq<Window>)
    requires Sorted(scores)
    ensures Scan(scores, now, ws) == var wait := LongestWait(scores, now, ws); if wait == 0 then -1 else wait
  {
    if ws != [] {
      ScanIsLongestWait(scores, now, ws[..|ws| - 1]);
      SuffixAfter(scores, now - ws[|ws| - 1].size);
    }
  }

  lemma FoundRepresents(k: Key, log: seq<Time>, keep: nat, clock: Time, now: Time, goneAtExpiry: bool)
    requires KeyRepresents(k, log, keep, clock) && clock <= now
    ensures KeyRepresents(k.Found(now, goneAtExpiry), log, keep, now)
    ensures k.Found(now, goneAtExpiry).Pttl(now) <= keep
  {
    RepresentsLater(if k.Absent? then EMPTY else History(k.scores, k.expiry.time), log, keep, clock, now);
  }

  lemma RemoveRepresents(k: Key, log: seq<Time>, keep: nat, now: Time)
    requires KeyRepresents(k, log, keep, now)
    ensures KeyRepresents(k.RemoveUpTo(now - keep), log, keep, now)
  {
    if k.Present? { TrimRepresents(History(k.scores, k.expiry.time), log, keep, now); }
  }

  lemma AddRepresents(k: Key, log: seq<Time>, keep: nat, now: Time)
    requires KeyRepresents(k, log, keep, now)
    ensures KeyRepresents(k.Add(now).Extend(now, keep), log + [now], keep, now)
  {
    AppendRepresents(if k.Absent? then EMPTY else History(k.scores, k.expiry.time), log, keep, now);
    if k.Present? {
      NoneAfter(k.scores, now);
      assert k.scores[..|k.scores|] + [now] + k.scores[|k.scores|..] == k.scores + [now];
    }
  }

  lemma PopRepresents(k: Key, log: seq<Time>, keep: nat, clock: Time)
    requires KeyRepresents(k, log, keep, clock)
    ensures KeyRepresents(k.PopMax(), if log == [] then log else log[..|log| - 1], keep, clock)
  {
    RefundRepresents(if k.Absent? then EMPTY else History(k.scores, k.expiry.time), log, keep, clock);
  }

  /** One script call decides as the complete log does. */
  lemma ScriptMatchesLog(k: Key, log: seq<Time>, clock: Time, now: Time, limits: Limits, goneAtExpiry: bool)
    requires KeyRepresents(k, log, KeepMs(limits.Daily()), clock) && clock <= now
    ensures var (k', reply) := Script(k, now, limits, goneAtExpiry);
            && reply.ok == Admits(log, now, WindowsMs(limits))
            && reply.wait == LongestWait(log, now, WindowsMs(limits))
            && KeyRepresents(k', if reply.ok then log + [now] else log, KeepMs(limits.Daily()), now)
  {
    hide KeyRepresents, Admits, IsExactWait, Scan, LongestWait;
    var keep, ws := KeepMs(limits.Daily()), WindowsMs(limits);
    var found := k.Found(now, goneAtExpiry);
    FoundRepresents(k, log, keep, clock, now, goneAtExpiry);
    RemoveRepresents(found, log, keep, now);
    var trimmed := found.RemoveUpTo(now - keep);
    KeyDecides(trimmed, log, keep, now, ws);
    AddRepresents(trimmed, log, keep, now);
  }

  lemma KeyDecides(k: Key, log: seq<Time>, keep: nat, now: Time, ws: seq<Window>)
    requires KeyRepresents(k, log, keep, now)
    requires forall i | 0 <= i < |ws| :: ws[i].limit > 0 ==> ws[i].size <= keep
    ensures var retry := Scan(k.Scores(), now, ws);
            && (retry < 0 <==> Admits(log, now, ws))
            && LongestWait(log, now, ws) == if retry < 0 then 0 else retry
  {
    var h := if k.Absent? then EMPTY else History(k.scores, k.expiry.time);
    HistoryDecides(h, log, keep, now, ws);
    ScanIsLongestWait(h.hits, now, ws);
  }

  lemma {:induction false} RunKeepsLog(calls: seq<Call>, daily: string -> bool, key: string, goneAtExpiry: bool)
    requires Steady(calls, daily)
    ensures KeyRepresents(Run(calls, key, goneAtExpiry), LogMs(calls, key), KeepMs(daily(key)), Clock(calls))
  {
    if calls != [] {
      var front, c := calls[..|calls| - 1], calls[|calls| - 1];
      RunKeepsLog(front, daily, key, goneAtExpiry);
      var k, log := Run(front, key, goneAtExpiry), LogMs(front, key);
      NextKeepsLog(k, c, key, log, KeepMs(daily(key)), Clock(front), goneAtExpiry);
    }
  }

  lemma LogMsSorted(calls: seq<Call>, daily: string -> bool, key: string)
    requires Steady(calls, daily)
    ensures Sorted(LogMs(calls, key))
  {
    RunKeepsLog(calls, daily, key, false);
  }

  /** Over every run the script, too, answers as the complete log does. */
  lemma RedisMatchesLog(calls: seq<Call>, daily: string -> bool, goneAtExpiry: bool)
    requires Steady(calls, daily)
    requires calls != [] && calls[|calls| - 1].Allow? && !calls[|calls| - 1].limits.None()
    ensures var c, log := calls[|calls| - 1], LogMs(calls[..|calls| - 1], calls[|calls| - 1].key);
            && Sorted(log)
            && RedisReply(calls, goneAtExpiry).ok == Admits(log, c.now, WindowsMs(c.limits))
            && RedisReply(calls, goneAtExpiry).wait == LongestWait(log, c.now, WindowsMs(c.limits))
  {
    hide Script, Admits, LongestWait, LogMs, KeyRepresents;
    var front, c := calls[..|calls| - 1], calls[|calls| - 1];
    LogMsSorted(front, daily, c.key);
    RunKeepsLog(front, daily, c.key, goneAtExpiry);
    ScriptMatchesLog(Run(front, c.key, goneAtExpiry), LogMs(front, c.key), Clock(front), c.now, c.limits, goneAtExpiry);
  }

  /** One call, seen from one key. */
  lemma NextKeepsLog(k: Key, c: Call, key: string, log: seq<Time>, keep: nat, clock: Time, goneAtExpiry: bool)
    requires KeyRepresents(k, log, keep, clock)
    requires c.Allow? ==> clock <= c.now
    requires c.Allow? && c.key == key && !c.limits.None() ==> KeepMs(c.limits.Daily()) == keep
    ensures var clock' := if c.Allow? then c.now else clock;
            KeyRepresents(Next(k, c, key, goneAtExpiry).0, LogMsNext(log, c, key), keep, clock')
  {
    match c
    case Allow(_, now, limits) =>
      RepresentsLater(if k.Absent? then EMPTY else History(k.scores, k.expiry.time), log, keep, clock, now);
      if c.key == key && !limits.None() { ScriptMatchesLog(k, log, clock, now, limits, goneAtExpiry); }
    case Refund(_, _) =>
      PopRepresents(k, log, keep, clock);
  }

  // Agreement of the two stores.

  /** The same calls, with millisecond times read in nanoseconds. */
  function InNanos(calls: seq<Call>): seq<Call> {
    seq(|calls|, i requires 0 <= i < |calls| => CallInNanos(calls[i]))
  }

  function CallInNanos(c: Call): Call {
    match c
    case Allow(key, now, limits) => Call.Allow(key, now * MS, limits)
    case Refund(_, _) => c
  }

  function TimesInNanos(log: seq<Time>): seq<Time> {
    seq(|log|, i requires 0 <= i < |log| => log[i] * MS)
  }

  function WindowsInNanos(ws: seq<Window>): seq<Window> {
    seq(|ws|, i requires 0 <= i < |ws| => Window(ws[i].limit, ws[i].size * MS))
  }

  lemma {:induction false} CountInNanos(log: seq<Time>, cutoff: int)
    ensures CountAfter(TimesInNanos(log), cutoff * MS) == CountAfter(log, cutoff)
  {
    if log != [] {
      var t := TimesInNanos(log);
      assert t[..|t| - 1] == TimesInNanos(log[..|log| - 1]);
      CountInNanos(log[..|log| - 1], cutoff);
    }
  }

  lemma {:induction false} WaitInNanos(log: seq<Time>, now: Time, ws: seq<Window>)
    ensures LongestWait(TimesInNanos(log), now * MS, WindowsInNanos(ws)) == LongestWait(log, now, ws) * MS
  {
    if ws != [] {
      var w, ns := ws[|ws| - 1], WindowsInNanos(ws);
      assert ns[..|ns| - 1] == WindowsInNanos(ws[..|ws| - 1]);
      WaitInNanos(log, now, ws[..|ws| - 1]);
      CountInNanos(log, now - w.size);
    }
  }

  lemma AdmitsInNanos(log: seq<Time>, now: Time, l: Limits)
    requires Sorted(log)
    ensures Admits(TimesInNanos(log), now * MS, l.Windows()) <==> Admits(log, now, WindowsMs(l))
    ensures LongestWait(TimesInNanos(log), now * MS, l.Windows()) == LongestWait(log, now, WindowsMs(l)) * MS
  {
    assert Sorted(TimesInNanos(log));
    assert l.Windows() == WindowsInNanos(WindowsMs(l));
    hide Admits, IsExactWait;
    WaitInNanos(log, now, WindowsMs(l));
    LongestWaitExact(log, now, WindowsMs(l));
    LongestWaitExact(TimesInNanos(log), now * MS, l.Windows());
  }

  lemma {:induction false} LogInNanos(calls: seq<Call>, daily: string -> bool, key: string)
    requires Steady(calls, daily)
    ensures Log(InNanos(calls), key) == TimesInNanos(LogMs(calls, key))
  {
    if calls != [] {
      var front, c, n := calls[..|calls| - 1], calls[|calls| - 1], InNanos(calls);
      assert n[..|n| - 1] == InNanos(front);
      LogInNanos(front, daily, key);
      LogMsSorted(front, daily, key);
      var log := LogMs(front, key);
      if c.Allow? { AdmitsInNanos(log, c.now, c.limits); }
    }
  }

  lemma {:induction false} SteadyInNanos(calls: seq<Call>, daily: string -> bool)
    requires Steady(calls, daily)
    ensures Steady(InNanos(calls), daily) && Clock(InNanos(calls)) == Clock(calls) * MS
  {
    if calls != [] {
      var n := InNanos(calls);
      assert n[..|n| - 1] == InNanos(calls[..|calls| - 1]);
      SteadyInNanos(calls[..|calls| - 1], daily);
    }
  }

  /** For every run of calls at millisecond times, the two stores answer every
      call alike: the same decision and the same wait. */
  lemma StoresAgree(calls: seq<Call>, daily: string -> bool, goneAtExpiry: bool)
    requires Steady(calls, daily)
    requires calls != [] && calls[|calls| - 1].Allow? && !calls[|calls| - 1].limits.None()
    ensures var memory, redis := ReplyTo(InNanos(calls)), RedisReply(calls, goneAtExpiry);
            memory.ok == redis.ok && memory.wait == redis.wait * MS
  {
    hide Admits, LongestWait, Log, LogMs, ReplyTo, RedisReply, TimesInNanos;
    var front, c, n := calls[..|calls| - 1], calls[|calls| - 1], InNanos(calls);
    assert n[..|n| - 1] == InNanos(front) && n[|n| - 1] == CallInNanos(c);
    SteadyInNanos(calls, daily);
    RedisMatchesLog(calls, daily, goneAtExpiry);
    LogInNanos(front, daily, c.key);
    AdmitsInNanos(LogMs(front, c.key), c.now, c.limits);
    RepliesMatchLog(n, daily);
  }
}
