/** The sliding-window rule both rate-limit stores implement, stated over a
    complete log of hits: nothing is trimmed, expired or swept here. */
module SlidingWindow {

  /** One window and its cap; a cap of zero or less does not restrict. */
  datatype Window = Window(limit: int, size: int)

  predicate Sorted(log: seq<int>) {
    forall i, j | 0 <= i <= j < |log| :: log[i] <= log[j]
  }

  /** How many hits are younger than `cutoff`. */
  function CountAfter(log: seq<int>, cutoff: int): (n: nat)
    ensures n <= |log|
  {
    if log == [] then 0
    else CountAfter(log[..|log| - 1], cutoff) + if log[|log| - 1] > cutoff then 1 else 0
  }

  /** How many hits lie in the half-open interval (lo, hi]. */
  function CountIn(log: seq<int>, lo: int, hi: int): nat {
    if log == [] then 0
    else CountIn(log[..|log| - 1], lo, hi) + if lo < log[|log| - 1] <= hi then 1 else 0
  }

  predicate HasRoom(log: seq<int>, now: int, w: Window) {
    w.limit <= 0 || CountAfter(log, now - w.size) < w.limit
  }

  /** A hit at `now` fits within every capped window. */
  predicate Admits(log: seq<int>, now: int, ws: seq<Window>) {
    forall i | 0 <= i < |ws| :: HasRoom(log, now, ws[i])
  }

  /** `wait` is the exact time until the log has room again: every earlier
      attempt is refused and the one at `now + wait` is admitted. */
  ghost predicate IsExactWait(log: seq<int>, now: int, ws: seq<Window>, wait: int) {
    && wait > 0
    && Admits(log, now + wait, ws)
    && forall t | now <= t < now + wait :: !Admits(log, t, ws)
  }

  /** In a sorted log the hits after a cutoff are a suffix, and its length is
      the count. */
  lemma {:induction false} SuffixAfter(log: seq<int>, cutoff: int)
    requires Sorted(log)
    ensures forall i | 0 <= i < |log| :: log[i] > cutoff <==> i >= |log| - CountAfter(log, cutoff)
  {
    if log != [] {
      var front := log[..|log| - 1];
      SuffixAfter(front, cutoff);
      assert forall i | 0 <= i < |front| :: log[i] == front[i];
    }
  }

  /** Any index with hits at or before the cutoff below it and younger hits
      from it on is where the counted suffix starts. */
  lemma SuffixStart(log: seq<int>, cutoff: int, k: nat)
    requires Sorted(log) && k <= |log|
    requires forall i | 0 <= i < k :: log[i] <= cutoff
    requires forall i | k <= i < |log| :: log[i] > cutoff
    ensures CountAfter(log, cutoff) == |log| - k
  {
    SuffixAfter(log, cutoff);
    var c := |log| - CountAfter(log, cutoff);
    if k < |log| { assert log[k] > cutoff; }
    if c < |log| { assert log[c] > cutoff; }
  }

  /** Forgetting hits that are no longer after the cutoff does not change the
      count. */
  lemma {:induction false} CountAfterTrim(log: seq<int>, k: nat, cutoff: int)
    requires k <= |log|
    requires forall i | 0 <= i < k :: log[i] <= cutoff
    ensures CountAfter(log[k..], cutoff) == CountAfter(log, cutoff)
  {
    if k == |log| {
      NoneAfter(log, cutoff);
    } else {
      var front := log[..|log| - 1];
      assert log[k..][..|log[k..]| - 1] == front[k..];
      CountAfterTrim(front, k, cutoff);
    }
  }

  lemma {:induction false} NoneAfter(log: seq<int>, cutoff: int)
    requires forall i | 0 <= i < |log| :: log[i] <= cutoff
    ensures CountAfter(log, cutoff) == 0
  {
    if log != [] { NoneAfter(log[..|log| - 1], cutoff); }
  }

  lemma {:induction false} CountAfterMonotone(log: seq<int>, c: int, d: int)
    requires c <= d
    ensures CountAfter(log, d) <= CountAfter(log, c)
  {
    if log != [] { CountAfterMonotone(log[..|log| - 1], c, d); }
  }

  lemma {:induction false} CountInIsDifference(log: seq<int>, lo: int, hi: int)
    requires lo <= hi
    ensures CountIn(log, lo, hi) + CountAfter(log, hi) == CountAfter(log, lo)
  {
    if log != [] { CountInIsDifference(log[..|log| - 1], lo, hi); }
  }

  /** A window is full exactly while its limit-th newest hit is inside it. */
  lemma RoomExact(log: seq<int>, now: int, w: Window)
    requires Sorted(log)
    ensures HasRoom(log, now, w) <==>
            w.limit <= 0 || |log| < w.limit || log[|log| - w.limit] + w.size <= now
  {
    SuffixAfter(log, now - w.size);
  }

  /** The longest wait among the full windows, as both stores compute it from
      the part of the log they kept; 0 means no window is full. */
  function LongestWait(hist: seq<int>, now: int, ws: seq<Window>): (wait: int)
    ensures wait >= 0
  {
    if ws == [] then 0
    else
      var w := ws[|ws| - 1];
      var rest := LongestWait(hist, now, ws[..|ws| - 1]);
      if w.limit <= 0 || CountAfter(hist, now - w.size) < w.limit then rest
      else Max(rest, hist[|hist| - w.limit] + w.size - now)
  }

  function Max(a: int, b: int): int { if a >= b then a else b }

  lemma {:induction false} LongestWaitBounds(log: seq<int>, now: int, ws: seq<Window>, t: int)
    requires Sorted(log) && now <= t
    ensures LongestWait(log, now, ws) <= t - now <==> Admits(log, t, ws)
  {
    if ws != [] {
      var front, w := ws[..|ws| - 1], ws[|ws| - 1];
      LongestWaitBounds(log, now, front, t);
      RoomExact(log, now, w);
      RoomExact(log, t, w);
      assert Admits(log, t, ws) <==> Admits(log, t, front) && HasRoom(log, t, w) by {
        if Admits(log, t, ws) {
          forall i | 0 <= i < |front| ensures HasRoom(log, t, front[i]) { assert front[i] == ws[i]; }
        }
      }
    }
  }

  /** The computed wait decides admission and is exact. */
  lemma LongestWaitExact(log: seq<int>, now: int, ws: seq<Window>)
    requires Sorted(log)
    ensures LongestWait(log, now, ws) == 0 <==> Admits(log, now, ws)
    ensures !Admits(log, now, ws) ==> IsExactWait(log, now, ws, LongestWait(log, now, ws))
  {
    var wait := LongestWait(log, now, ws);
    LongestWaitBounds(log, now, ws, now);
    LongestWaitBounds(log, now, ws, now + wait);
    forall t | now <= t < now + wait ensures !Admits(log, t, ws) {
      LongestWaitBounds(log, now, ws, t);
    }
  }

  /** A store that forgot only hits older than every capped window computes
      the same wait as from the whole log. */
  lemma {:induction false} LongestWaitTrim(log: seq<int>, k: nat, now: int, ws: seq<Window>, keep: int)
    requires k <= |log|
    requires forall i | 0 <= i < k :: log[i] <= now - keep
    requires forall i | 0 <= i < |ws| :: ws[i].limit > 0 ==> ws[i].size <= keep
    ensures LongestWait(log[k..], now, ws) == LongestWait(log, now, ws)
  {
    if ws != [] {
      var front, w := ws[..|ws| - 1], ws[|ws| - 1];
      assert forall i | 0 <= i < |front| :: front[i] == ws[i];
      LongestWaitTrim(log, k, now, front, keep);
      if w.limit > 0 {
        CountAfterTrim(log, k, now - w.size);
      }
    }
  }

  /** A hit admitted at `now`, not before any logged one, keeps every interval
      of the window's length within the window's cap. */
  lemma AdmissionKeepsCap(log: seq<int>, now: int, w: Window, x: int)
    requires Sorted(log) && (log != [] ==> log[|log| - 1] <= now)
    requires w.limit > 0 && w.size >= 0
    requires HasRoom(log, now, w)
    requires CountIn(log, x, x + w.size) <= w.limit
    ensures CountIn(log + [now], x, x + w.size) <= w.limit
  {
    assert (log + [now])[..|log|] == log;
    if x < now <= x + w.size {
      CountInIsDifference(log, x, x + w.size);
      CountAfterMonotone(log, now - w.size, x);
    }
  }
}
