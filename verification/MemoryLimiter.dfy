/** The in-memory rate limiter: per-key histories that are trimmed on every
    call, expire as a whole and are swept once a minute. */
module MemoryLimiter {
  import opened Prelude
  import opened SlidingWindow

  /** Nanoseconds since the zero time of the source's clock type, which is also
      the expiry of a key that has no history. */
  type Time = nat

  const MINUTE := 60 * SECOND
  const HOUR := 60 * MINUTE
  const DAY := 24 * HOUR

  /** Caps per window; 0 or less means no cap. */
  datatype Limits = Limits(perMinute: int, perHour: int, perDay: int) {
    predicate None() { perMinute <= 0 && perHour <= 0 && perDay <= 0 }

    predicate Daily() { perDay > 0 }

    function Windows(): seq<Window> {
      [Window(perMinute, MINUTE), Window(perHour, HOUR), Window(perDay, DAY)]
    }

    function Keep(): nat { KeepFor(Daily()) }

    /** How far back a call trims a history that expires in `left`. */
    function Retain(left: int): int { if left > Keep() then DAY else Keep() }
  }

  /** One hour of history, or a day with a daily cap. */
  function KeepFor(daily: bool): nat { if daily then DAY else HOUR }

  datatype History = History(hits: seq<Time>, expires: Time)

  const EMPTY := History([], 0)

  datatype Call =
    | Allow(key: string, now: Time, limits: Limits)
    /** `which` names the admitted hit the caller gives back, as an index into
        the hits not refunded so far; the limiters cannot see it. */
    | Refund(key: string, which: nat)

  /** A decision; `wait` is the time until there is room, before rounding. */
  datatype Reply = Reply(ok: bool, wait: int)

  /** What a call leaves of a history, once expired ones count as gone. */
  function Kept(h: History, now: Time, limits: Limits): (hist: seq<Time>) {
    if h.expires <= now then []
    else
      h.hits[|h.hits| - CountAfter(h.hits, now - limits.Retain(h.expires - now))..]
  }

  function AllowKey(h: History, now: Time, limits: Limits): (History, Reply) {
    var hist := Kept(h, now, limits);
    var expires := if h.expires <= now then 0 else h.expires;
    var wait := LongestWait(hist, now, limits.Windows());
    if wait > 0 then (History(hist, expires), Reply(false, wait))
    else (History(hist + [now], Max(expires, now + limits.Keep())), Reply(true, 0))
  }

  function RefundKey(h: History): History {
    if h.hits == [] then h else History(h.hits[..|h.hits| - 1], h.expires)
  }

  datatype State = State(hits: map<string, History>, swept: Time) {
    function Of(key: string): History { if key in hits then hits[key] else EMPTY }

    function Sweep(now: Time): State {
      if now - swept < MINUTE then this
      else State(map k | k in hits && hits[k].expires > now :: hits[k], now)
    }

    function Next(c: Call): (State, Reply) {
      match c
      case Allow(key, now, limits) =>
        if limits.None() then (this, Reply(true, 0))
        else
          var s := Sweep(now);
          var (h, reply) := AllowKey(s.Of(key), now, limits);
          (State(s.hits[key := h], s.swept), reply)
      case Refund(key, _) =>
        var h := Of(key);
        (if h.hits == [] then this else State(hits[key := RefundKey(h)], swept), Reply(true, 0))
    }
  }

  /** The limiter as the send path holds it. */
  class Limiter {
    var hits: map<string, History>
    var swept: Time
    /** The latest clock reading. */
    ghost var clock: Time

    function View(): State reads this { State(hits, swept) }

    ghost predicate Valid() reads this { forall k | k in hits :: SortedUpTo(hits[k].hits, clock) }

    constructor ()
      ensures Valid() && View() == State(map[], 0)
    {
      hits, swept, clock := map[], 0, 0;
    }

    method Allow(key: string, limits: Limits, now: Time) returns (ok: bool, retryAfter: int)
      requires Valid() && clock <= now
      modifies this
      ensures Valid() && clock == now
      ensures View() == old(View()).Next(Call.Allow(key, now, limits)).0
      ensures var reply := old(View()).Next(Call.Allow(key, now, limits)).1;
              ok == reply.ok && retryAfter == if ok then 0 else CeilToSecond(reply.wait)
    {
      clock := now;
      if limits.None() { return true, 0; }
      Sweep(now);
      var h := if key in hits then hits[key] else EMPTY;
      var h', reply := Decide(h, now, limits);
      hits := hits[key := h'];
      return reply.ok, if reply.ok then 0 else CeilToSecond(reply.wait);
    }

    /** Drops, at most once a minute, the keys whose hits no longer count. */
    method Sweep(now: Time)
      requires Valid()
      modifies this
      ensures Valid() && clock == old(clock)
      ensures View() == old(View()).Sweep(now)
    {
      if now - swept < MINUTE { return; }
      swept := now;
      var todo := hits.Keys;
      while todo != {}
        invariant todo <= old(hits).Keys
        invariant hits == map k | k in old(hits) && (k in todo || old(hits)[k].expires > now) :: old(hits)[k]
        invariant swept == now && clock == old(clock)
        decreases todo
      {
        var k :| k in todo;
        if hits[k].expires <= now { hits := hits - {k}; }
        todo := todo - {k};
      }
    }

    method Refund(key: string)
      requires Valid()
      modifies this
      ensures Valid() && clock == old(clock)
      ensures forall which :: View() == old(View()).Next(Call.Refund(key, which)).0
    {
      if key in hits && |hits[key].hits| > 0 {
        var h := hits[key];
        hits := hits[key := History(h.hits[..|h.hits| - 1], h.expires)];
      }
    }
  }

  predicate SortedUpTo(hits: seq<int>, now: int) {
    Sorted(hits) && forall i | 0 <= i < |hits| :: hits[i] <= now
  }

  /** Binary search for the first hit younger than the cutoff. */
  method Since(hist: seq<Time>, cutoff: int) returns (first: nat)
    requires Sorted(hist)
    ensures first == |hist| - CountAfter(hist, cutoff)
  {
    var i, j := 0, |hist|;
    while i < j
      invariant 0 <= i <= j <= |hist|
      invariant forall k | 0 <= k < i :: hist[k] <= cutoff
      invariant forall k | j <= k < |hist| :: hist[k] > cutoff
    {
      var h := (i + j) / 2;
      if hist[h] > cutoff { j := h; } else { i := h + 1; }
    }
    SuffixStart(hist, cutoff, i);
    return i;
  }

  /** Drops the hits no window can count any more, all of them once expired. */
  method Trim(h: History, now: Time, limits: Limits) returns (hist: seq<Time>)
    requires SortedUpTo(h.hits, now)
    ensures hist == Kept(h, now, limits)
    ensures SortedUpTo(hist, now)
  {
    if h.expires <= now { return []; }
    var first := Since(h.hits, now - limits.Retain(h.expires - now));
    return h.hits[first..];
  }

  /** Trims one key's history and decides whether a hit at `now` fits. */
  method Decide(was: History, now: Time, limits: Limits) returns (h: History, reply: Reply)
    requires SortedUpTo(was.hits, now)
    ensures (h, reply) == AllowKey(was, now, limits)
    ensures SortedUpTo(h.hits, now)
  {
    var hist := Trim(was, now, limits);
    var expires := if was.expires <= now then 0 else was.expires;
    var retry := WaitForRoom(hist, now, limits.Windows());
    if retry > 0 {
      return History(hist, expires), Reply(false, retry);
    }
    return History(hist + [now], Max(expires, now + limits.Keep())), Reply(true, 0);
  }

  /** The scan over the windows: 0 if none is full, else the longest wait. */
  method WaitForRoom(hist: seq<Time>, now: Time, windows: seq<Window>) returns (retry: int)
    requires Sorted(hist)
    ensures retry == LongestWait(hist, now, windows)
  {
    retry := 0;
    for i := 0 to |windows|
      invariant retry == LongestWait(hist, now, windows[..i])
    {
      assert windows[..i + 1][..i] == windows[..i];
      var w := windows[i];
      if w.limit <= 0 { continue; }
      var first := Since(hist, now - w.size);
      if |hist| - first < w.limit { continue; }
      // The window has room again once its limit-th newest hit has left it.
      retry := Max(retry, hist[|hist| - w.limit] + w.size - now);
    }
    assert windows[..|windows|] == windows;
  }

  /** The wait a rejected caller is told: the least whole number of seconds
      that is not below it, and never zero. */
  function CeilToSecond(d: int): (r: int)
    ensures r % SECOND == 0 && r > 0
    ensures d > 0 ==> d <= r < d + SECOND
  {
    if d <= 0 then SECOND
    else if d % SECOND != 0 then d / SECOND * SECOND + SECOND
    else d
  }
}
