/** Fair use of the SMTP proxy: a message waits for a slot of its tenant
    (namespace), then for one of the global slots, relays, and gives both back,
    under every interleaving of messages and timeouts. */
module TenantSlots {
  import C = KeyedChannels

  /** `ns` has the tenants' channels; `held` are the messages with a global
      slot, `over` those done with both waits that still hold a tenant slot. */
  datatype World = World(max: nat, ns: C.Channels, held: set<nat>, over: set<nat>)

  datatype Event =
    | Tenant(e: C.Event)
    | TakeSlot(id: nat)
    | GiveUp(id: nat)
    | Finish(id: nat)

  /** The slots of one tenant, from the configured number. */
  function PerTenant(configured: int, max: int): (cap: int)
    requires max > 0
    ensures 1 <= cap <= max
    ensures cap < max <==> if configured <= 0 then max >= 2 else configured < max
    ensures configured <= 0 ==> max <= 2 * cap <= max + 1
    ensures 0 < configured <= max ==> cap == configured
  {
    var cap := if configured <= 0 then (max + 1) / 2 else configured;
    if cap > max then max else cap
  }

  /** In its tenant's channel, waiting for a global slot. */
  predicate Waiting(w: World, id: nat) { C.At(w.ns, id, C.Inside) && id !in w.held && id !in w.over }

  /** The tenant slot is given back after the global one. */
  predicate Enabled(w: World, e: Event) {
    match e
    case Tenant(t) => C.Enabled(w.ns, t) && (t.Receive? ==> t.id in w.over)
    case TakeSlot(id) => Waiting(w, id) && |w.held| < w.max
    case GiveUp(id) => Waiting(w, id)
    case Finish(id) => id in w.held
  }

  function Step(w: World, e: Event): World
    requires Enabled(w, e)
  {
    match e
    case Tenant(t) => w.(ns := C.Step(w.ns, t), over := if t.Receive? then w.over - {t.id} else w.over)
    case TakeSlot(id) => w.(held := w.held + {id})
    case GiveUp(id) => w.(over := w.over + {id})
    case Finish(id) => w.(held := w.held - {id}, over := w.over + {id})
  }

  /** Events that are not enabled leave the world as it is. */
  function Next(w: World, e: Event): World { if Enabled(w, e) then Step(w, e) else w }

  function Run(w: World, events: seq<Event>): World {
    if events == [] then w else Next(Run(w, events[..|events| - 1]), events[|events| - 1])
  }

  function Start(max: nat, cap: nat): World { World(max, C.New(cap), {}, {}) }

  ghost predicate Inv(w: World) {
    && C.Inv(w.ns) && |w.held| <= w.max && w.held !! w.over
    && forall a | a in w.held || a in w.over :: C.At(w.ns, a, C.Inside)
  }

  lemma StepKeeps(w: World, e: Event)
    requires Inv(w) && Enabled(w, e)
    ensures Inv(Step(w, e)) && Step(w, e).max == w.max && Step(w, e).ns.cap == w.ns.cap
  {
    hide C.Inv;
    if e.Tenant? { C.StepKeeps(w.ns, e.e); }
  }

  lemma {:induction false} RunsKeepInv(w: World, events: seq<Event>)
    requires Inv(w)
    ensures Inv(Run(w, events)) && Run(w, events).max == w.max && Run(w, events).ns.cap == w.ns.cap
  {
    hide Inv;
    if events != [] {
      var v, e := Run(w, events[..|events| - 1]), events[|events| - 1];
      RunsKeepInv(w, events[..|events| - 1]);
      if Enabled(v, e) { StepKeeps(v, e); }
    }
  }

  /** A message whose wait times out takes no global slot any more, and can give its
      tenant slot back at once. */
  lemma TimeoutLeaves(w: World, id: nat)
    requires Inv(w) && Enabled(w, GiveUp(id))
    ensures var v := Step(w, GiveUp(id));
            && !Enabled(v, TakeSlot(id)) && v.held == w.held
            && Enabled(v, Tenant(C.Receive(id))) && id !in Step(v, Tenant(C.Receive(id))).over
  {
    hide C.Inv;
  }

  /** The messages of a tenant with a global slot. */
  function HeldBy(w: World, ns: string): set<nat> { set a | a in w.held && a in w.ns.tasks && w.ns.tasks[a].key == ns }

  /** Under every interleaving: never more than `max` global slots are held, a
      tenant holds at most `cap` of them, and it has at most `cap` messages past
      its own wait. */
  lemma SharesAreBounded(max: nat, cap: nat, events: seq<Event>, ns: string)
    ensures var w := Run(Start(max, cap), events);
            |w.held| <= max && |HeldBy(w, ns)| <= |C.InsideOf(w.ns, ns)| <= cap
  {
    RunsKeepInv(Start(max, cap), events);
    hide C.Inv, Run;
    var w := Run(Start(max, cap), events);
    C.OneChannelPerKey(w.ns, ns);
    assert HeldBy(w, ns) <= C.InsideOf(w.ns, ns);
    SubsetSmaller(HeldBy(w, ns), C.InsideOf(w.ns, ns));
  }

  lemma SubsetSmaller(a: set<nat>, b: set<nat>)
    requires a <= b
    ensures |a| <= |b|
  {
    assert b == a + (b - a);
  }

  // One tenant against the others.

  /** Some run lets a tenant hold every global slot. */
  ghost predicate CanHoldAll(max: nat, cap: nat, ns: string) {
    exists events :: |HeldBy(Run(Start(max, cap), events), ns)| == max
  }

  /** `n` messages of one tenant arrive and are let through. */
  function Rush(ns: string, n: nat): seq<Event> {
    if n == 0 then []
    else Rush(ns, n - 1) + [Tenant(C.Enter(n - 1, ns)), Tenant(C.Send(n - 1)), TakeSlot(n - 1)]
  }

  lemma RunThree(w: World, events: seq<Event>, a: Event, b: Event, c: Event)
    ensures Run(w, events + [a, b, c]) == Next(Next(Next(Run(w, events), a), b), c)
  {
    hide Next;
    assert (events + [a, b, c])[..|events| + 2] == events + [a, b];
    assert (events + [a, b])[..|events| + 1] == events + [a];
    assert (events + [a])[..|events|] == events;
    assert Run(w, events + [a, b]) == Next(Next(Run(w, events), a), b) by {
      assert Run(w, events + [a]) == Next(Run(w, events), a);
    }
  }

  function Ids(n: nat): (ids: set<nat>)
    ensures |ids| == n && forall i: nat :: i in ids <==> i < n
  {
    if n == 0 then {} else Ids(n - 1) + {n - 1}
  }

  /** After `n` of them went through, exactly they hold global slots. */
  ghost predicate Rushed(w: World, ns: string, n: nat) {
    Inv(w) && w.over == {} && w.held == Ids(n) && w.ns.tasks.Keys == Ids(n) && w.ns.tasks.Keys == C.Of(w.ns, ns)
  }

  lemma Entered(c: C.Channels, id: nat, key: string)
    requires C.Inv(c) && id !in c.tasks
    ensures var t := C.Step(c, C.Enter(id, key)).tasks;
            && id in t && t == c.tasks[id := t[id]] && t[id].key == key
            && C.At(C.Step(c, C.Enter(id, key)), id, C.Queued)
            && C.Step(c, C.Enter(id, key)).cap == c.cap
  {
  }

  /** A further message finds room in the tenant's channel. */
  lemma RushIn(w: World, ns: string, n: nat)
    requires Rushed(w, ns, n) && n < w.ns.cap
    ensures var v := Next(w, Tenant(C.Enter(n, ns)));
            && Inv(v) && v.held == w.held && v.over == {} && v.max == w.max && Enabled(v, Tenant(C.Send(n)))
            && v.ns.tasks.Keys == Ids(n + 1) && v.ns.tasks.Keys == C.Of(v.ns, ns)
  {
    hide C.Inv, C.Step, C.Enabled, Ids;
    assert n !in w.ns.tasks.Keys;
    assert C.Enabled(w.ns, C.Enter(n, ns)) by { Unknown(w.ns, n, ns); }
    StepKeeps(w, Tenant(C.Enter(n, ns)));
    RoomFor(w.ns, ns, n);
  }

  lemma Unknown(c: C.Channels, id: nat, key: string)
    requires id !in c.tasks.Keys
    ensures C.Enabled(c, C.Enter(id, key))
  {
  }

  lemma RoomFor(c: C.Channels, ns: string, n: nat)
    requires C.Inv(c) && c.tasks.Keys == Ids(n) == C.Of(c, ns) && n < c.cap && C.Enabled(c, C.Enter(n, ns))
    ensures var d := C.Step(c, C.Enter(n, ns)); C.Enabled(d, C.Send(n)) && d.tasks.Keys == Ids(n + 1) == C.Of(d, ns)
  {
    hide C.Inv, C.Step, Ids, C.Of, C.InsideOf;
    var d := C.Step(c, C.Enter(n, ns));
    C.StepKeeps(c, C.Enter(n, ns));
    C.OneChannelPerKey(d, ns);
    Entered(c, n, ns);
    EnteredSets(c, d, ns, n);
    assert n in C.Of(d, ns);
    assert d.tasks.Keys == Ids(n) + {n} == Ids(n + 1);
    SubsetSmaller(C.InsideOf(d, ns), Ids(n));
  }

  lemma EnteredSets(c: C.Channels, d: C.Channels, ns: string, n: nat)
    requires n in d.tasks && d.tasks == c.tasks[n := d.tasks[n]] && d.tasks[n].key == ns && d.tasks[n].phase == C.Queued
    ensures C.Of(d, ns) == C.Of(c, ns) + {n} && C.InsideOf(d, ns) <= c.tasks.Keys
  {
  }

  /** One more message gets both slots while there is room for it. */
  lemma RushOne(w: World, ns: string, n: nat)
    requires Rushed(w, ns, n) && n < w.max && n < w.ns.cap
    ensures Rushed(Next(Next(Next(w, Tenant(C.Enter(n, ns))), Tenant(C.Send(n))), TakeSlot(n)), ns, n + 1)
  {
    hide C.Inv;
    RushIn(w, ns, n);
    var v := Next(w, Tenant(C.Enter(n, ns)));
    hide Next, C.InsideOf;
    assert n !in v.held;
    SentIn(v, ns, n);
  }

  lemma SentIn(v: World, ns: string, n: nat)
    requires Inv(v) && Enabled(v, Tenant(C.Send(n))) && v.held == Ids(n) && v.over == {} && n < v.max
    requires v.ns.tasks.Keys == Ids(n + 1) == C.Of(v.ns, ns)
    ensures Rushed(Next(Next(v, Tenant(C.Send(n))), TakeSlot(n)), ns, n + 1)
  {
    hide C.Inv;
    StepKeeps(v, Tenant(C.Send(n)));
    var u := Next(v, Tenant(C.Send(n)));
    assert u.ns.tasks.Keys == v.ns.tasks.Keys && C.Of(u.ns, ns) == C.Of(v.ns, ns);
    StepKeeps(u, TakeSlot(n));
  }

  lemma RushNone(max: nat, cap: nat, ns: string)
    ensures Rushed(Run(Start(max, cap), []), ns, 0)
  {
  }

  lemma {:induction false} RushHolds(max: nat, cap: nat, ns: string, n: nat)
    requires n <= max && n <= cap
    ensures Rushed(Run(Start(max, cap), Rush(ns, n)), ns, n)
  {
    hide Rushed, Next;
    if n == 0 {
      RushNone(max, cap, ns);
    } else {
      RushHolds(max, cap, ns, n - 1);
      RunsKeepInv(Start(max, cap), Rush(ns, n - 1));
      RunThree(Start(max, cap), Rush(ns, n - 1), Tenant(C.Enter(n - 1, ns)), Tenant(C.Send(n - 1)), TakeSlot(n - 1));
      RushOne(Run(Start(max, cap), Rush(ns, n - 1)), ns, n - 1);
    }
  }

  /** One tenant can hold every global slot exactly when its own number of slots
      is not below the global one. */
  lemma OneTenantTakesAll(max: nat, cap: nat, ns: string)
    ensures CanHoldAll(max, cap, ns) <==> cap >= max
  {
    if cap >= max {
      var w := Run(Start(max, cap), Rush(ns, max));
      RushHolds(max, cap, ns, max);
      assert forall a | a in w.held :: a in w.ns.tasks.Keys && a in C.Of(w.ns, ns);
      assert HeldBy(w, ns) == w.held;
    } else {
      forall events ensures |HeldBy(Run(Start(max, cap), events), ns)| < max {
        SharesAreBounded(max, cap, events, ns);
      }
    }
  }

  /** With the derived number of slots, a single tenant leaves a global slot for
      the others exactly when there are at least two; with a configured number,
      exactly when that is below the global one. */
  lemma TenantsAreIsolated(configured: int, max: nat, ns: string)
    requires max > 0
    ensures !CanHoldAll(max, PerTenant(configured, max), ns) <==> if configured <= 0 then max >= 2 else configured < max
  {
    OneTenantTakesAll(max, PerTenant(configured, max), ns);
  }

  // Nothing gets stuck.

  /** A step that no timeout or new message is needed for. */
  predicate Progress(e: Event) { !e.GiveUp? && (e.Tenant? ==> !e.e.Enter? && !e.e.Cancel?) }

  /** While a message is in flight, one of them can move on. */
  lemma SomeoneMoves(w: World, id: nat) returns (e: Event)
    requires Inv(w) && w.max > 0 && w.ns.cap > 0 && id in w.ns.tasks
    ensures Progress(e) && Enabled(w, e)
  {
    hide C.Inv;
    var t := w.ns.tasks[id];
    ChannelOf(w.ns, id);
    if t.phase == C.Leaving {
      e := Tenant(C.Leave(id));
    } else if t.phase == C.Inside {
      e := InsideMoves(w, id);
    } else if |C.InsideOf(w.ns, t.key)| < w.ns.cap {
      e := Tenant(C.Send(id));
    } else {
      var other :| other in C.InsideOf(w.ns, t.key);
      ChannelOf(w.ns, other);
      e := InsideMoves(w, other);
    }
  }

  /** A task's channel is there, and shows how many of its tenant are inside. */
  lemma ChannelOf(c: C.Channels, id: nat)
    requires C.Inv(c) && id in c.tasks
    ensures c.tasks[id].channel in c.objects
    ensures c.objects[c.tasks[id].channel].occupied == |C.InsideOf(c, c.tasks[id].key)|
  {
    C.OneChannelPerKey(c, c.tasks[id].key);
    hide C.Inv;
    assert id in C.Of(c, c.tasks[id].key);
  }

  lemma InsideMoves(w: World, id: nat) returns (e: Event)
    requires Inv(w) && w.max > 0 && C.At(w.ns, id, C.Inside)
    ensures Progress(e) && Enabled(w, e)
  {
    if id in w.over {
      e := Tenant(C.Receive(id));
    } else if id in w.held {
      e := Finish(id);
    } else if |w.held| < w.max {
      e := TakeSlot(id);
    } else {
      var other :| other in w.held;
      e := Finish(other);
    }
  }

  function Queued(w: World): set<nat> { set a | a in w.ns.tasks && w.ns.tasks[a].phase == C.Queued }
  function Staying(w: World): set<nat> { set a | a in w.ns.tasks && w.ns.tasks[a].phase != C.Leaving }

  /** How many steps the messages in flight are away from being gone. */
  function Remaining(w: World): nat { Steps(w.ns.tasks.Keys, Queued(w), Staying(w), w.over, w.held) }

  function Steps(all: set<nat>, queued: set<nat>, staying: set<nat>, over: set<nat>, held: set<nat>): nat {
    |all| + |queued| + |staying| + |staying - over| + |staying - over - held|
  }

  /** What each kind of step takes away. */
  lemma OneLess(all: set<nat>, queued: set<nat>, staying: set<nat>, over: set<nat>, held: set<nat>, id: nat)
    requires held !! over
    ensures id in all ==> Steps(all - {id}, queued, staying, over, held) == Steps(all, queued, staying, over, held) - 1
    ensures id in queued ==>
              Steps(all, queued - {id}, staying, over, held) == Steps(all, queued, staying, over, held) - 1
  {
  }

  lemma OneLessStaying(all: set<nat>, queued: set<nat>, staying: set<nat>, over: set<nat>, held: set<nat>, id: nat)
    requires id in staying && id in over
    ensures Steps(all, queued, staying - {id}, over - {id}, held) == Steps(all, queued, staying, over, held) - 1
  {
    assert (staying - {id}) - (over - {id}) == staying - over;
  }

  lemma OneLessWaiting(all: set<nat>, queued: set<nat>, staying: set<nat>, over: set<nat>, held: set<nat>, id: nat)
    requires id in staying && id !in over
    ensures id !in held ==>
              Steps(all, queued, staying, over, held + {id}) == Steps(all, queued, staying, over, held) - 1
    ensures id in held ==>
              Steps(all, queued, staying, over + {id}, held - {id}) == Steps(all, queued, staying, over, held) - 1
  {
    if id in held {
      assert staying - (over + {id}) == staying - over - {id};
      assert staying - (over + {id}) - (held - {id}) == staying - over - held;
    } else {
      assert staying - over - (held + {id}) == staying - over - held - {id};
    }
  }

  /** What the tenant channels' steps do to the messages' phases. */
  lemma PhasesAfter(w: World, t: C.Event)
    requires Enabled(w, Tenant(t)) && (t.Send? || t.Receive? || t.Leave?)
    ensures var w', id := Step(w, Tenant(t)), t.id;
            && w'.ns.tasks.Keys == (if t.Leave? then w.ns.tasks.Keys - {id} else w.ns.tasks.Keys)
            && Queued(w') == (if t.Send? then Queued(w) - {id} else Queued(w))
            && Staying(w') == (if t.Receive? then Staying(w) - {id} else Staying(w))
            && id in w.ns.tasks.Keys && (t.Send? ==> id in Queued(w)) && (t.Receive? ==> id in Staying(w))
  {
  }

  /** Every progress step brings the messages in flight one step closer. */
  lemma ProgressShrinks(w: World, e: Event)
    requires Inv(w) && Enabled(w, e) && Progress(e)
    ensures Remaining(Step(w, e)) == Remaining(w) - 1
  {
    var all, queued, staying := w.ns.tasks.Keys, Queued(w), Staying(w);
    hide C.Inv, C.Step, C.Enabled, Steps, Queued;
    match e
    case Tenant(t) =>
      hide Staying;
      PhasesAfter(w, t);
      if t.Receive? {
        OneLessStaying(all, queued, staying, w.over, w.held, t.id);
      } else {
        OneLess(all, queued, staying, w.over, w.held, t.id);
      }
    case TakeSlot(id) => SameTasks(w, e); OneLessWaiting(all, queued, staying, w.over, w.held, id);
    case Finish(id) => SameTasks(w, e); OneLessWaiting(all, queued, staying, w.over, w.held, id);
  }

  lemma SameTasks(w: World, e: Event)
    requires Enabled(w, e) && !e.Tenant?
    ensures Queued(Step(w, e)) == Queued(w) && Staying(Step(w, e)) == Staying(w)
  {
  }

  /** The messages in flight can all be finished by their own steps, in at most
      `Remaining` many; then no slot is held and the map of tenants is empty. */
  lemma {:induction false} AllDrain(w: World) returns (events: seq<Event>)
    requires Inv(w) && w.max > 0 && w.ns.cap > 0
    ensures forall e | e in events :: Progress(e)
    ensures |events| <= Remaining(w)
    ensures var end := Run(w, events); end.ns.tasks == map[] && end.ns.entries == map[] && end.held == {}
    decreases Remaining(w)
  {
    hide C.Inv, C.Step, Step, Remaining, Enabled;
    if w.ns.tasks == map[] {
      events := [];
      NoTasksNoEntries(w.ns);
      assert w.held == {};
    } else {
      var id :| id in w.ns.tasks;
      var e := SomeoneMoves(w, id);
      StepKeeps(w, e);
      ProgressShrinks(w, e);
      var rest := AllDrain(Step(w, e));
      events := [e] + rest;
      RunCons(w, e, rest);
    }
  }

  /** No deadlock, after any interleaving of messages and timeouts. */
  lemma NoDeadlock(max: nat, cap: nat, events: seq<Event>) returns (more: seq<Event>)
    requires max > 0 && cap > 0
    ensures forall e | e in more :: Progress(e)
    ensures var end := Run(Run(Start(max, cap), events), more);
            end.ns.tasks == map[] && end.ns.entries == map[] && end.held == {}
  {
    hide Run;
    RunsKeepInv(Start(max, cap), events);
    more := AllDrain(Run(Start(max, cap), events));
  }

  lemma NoTasksNoEntries(c: C.Channels)
    requires C.Inv(c) && c.tasks == map[]
    ensures c.entries == map[]
  {
    forall k | k in c.entries ensures false {
      C.OneChannelPerKey(c, k);
    }
  }

  lemma {:induction false} RunCons(w: World, e: Event, rest: seq<Event>)
    ensures Run(w, [e] + rest) == Run(Next(w, e), rest)
  {
    if rest == [] {
      assert [e] + rest == [e];
    } else {
      assert ([e] + rest)[..|rest|] == [e] + rest[..|rest| - 1];
      RunCons(w, e, rest[..|rest| - 1]);
    }
  }
}
