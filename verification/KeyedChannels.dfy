/** Reference-counted channels, one per key, as the login throttle and the
    tenant limiter both use them: an entry is made on first use, counted while
    tasks refer to it, and removed by the last one to leave. Each step is one
    lock section or one channel operation. */
module KeyedChannels {

  type Key = string

  /** Where a task is: waiting to send on the channel, in it, or about to drop
      its reference. */
  datatype Phase = Queued | Inside | Leaving

  /** `channel` is the channel object it got hold of when it entered. */
  datatype Task = Task(key: Key, channel: nat, phase: Phase)

  /** A channel object: how many tasks are in it, and how many refer to it. */
  datatype Channel = Channel(occupied: int, refs: int)

  datatype Channels = Channels(
    cap: nat, entries: map<Key, nat>, objects: map<nat, Channel>, next: nat, tasks: map<nat, Task>)

  datatype Event = Enter(id: nat, key: Key) | Send(id: nat) | Cancel(id: nat) | Receive(id: nat) | Leave(id: nat)

  function New(cap: nat): Channels { Channels(cap, map[], map[], 0, map[]) }

  function EnterStep(c: Channels, id: nat, key: Key): Channels {
    if key in c.entries && c.entries[key] in c.objects then
      var o := c.entries[key];
      c.(objects := c.objects[o := c.objects[o].(refs := c.objects[o].refs + 1)],
         tasks := c.tasks[id := Task(key, o, Queued)])
    else
      c.(entries := c.entries[key := c.next], objects := c.objects[c.next := Channel(0, 1)], next := c.next + 1,
         tasks := c.tasks[id := Task(key, c.next, Queued)])
  }

  function Occupy(c: Channels, id: nat, delta: int, phase: Phase): Channels
    requires id in c.tasks && c.tasks[id].channel in c.objects
  {
    var o := c.tasks[id].channel;
    c.(objects := c.objects[o := c.objects[o].(occupied := c.objects[o].occupied + delta)],
       tasks := c.tasks[id := c.tasks[id].(phase := phase)])
  }

  function LeaveStep(c: Channels, id: nat): Channels
    requires id in c.tasks && c.tasks[id].channel in c.objects
  {
    var Task(key, o, _) := c.tasks[id];
    var refs := c.objects[o].refs - 1;
    c.(objects := c.objects[o := c.objects[o].(refs := refs)],
       entries := if refs == 0 then c.entries - {key} else c.entries,
       tasks := c.tasks - {id})
  }

  predicate At(c: Channels, id: nat, phase: Phase) {
    id in c.tasks && c.tasks[id].phase == phase && c.tasks[id].channel in c.objects
  }

  predicate Enabled(c: Channels, e: Event) {
    match e
    case Enter(id, _) => id !in c.tasks
    case Send(id) => At(c, id, Queued) && c.objects[c.tasks[id].channel].occupied < c.cap
    case Cancel(id) => At(c, id, Queued)
    case Receive(id) => At(c, id, Inside)
    case Leave(id) => At(c, id, Leaving)
  }

  function Step(c: Channels, e: Event): Channels
    requires Enabled(c, e)
  {
    match e
    case Enter(id, key) => EnterStep(c, id, key)
    case Send(id) => Occupy(c, id, 1, Inside)
    case Cancel(id) => Occupy(c, id, 0, Leaving)
    case Receive(id) => Occupy(c, id, -1, Leaving)
    case Leave(id) => LeaveStep(c, id)
  }

  /** The map of channels behind its mutex, one method per lock section. The
      goroutines that hold references are ghost state. */
  class Table {
    const cap: nat
    var entries: map<Key, nat>
    var objects: map<nat, Channel>
    var next: nat
    ghost var tasks: map<nat, Task>

    ghost function View(): Channels reads this { Channels(cap, entries, objects, next, tasks) }

    constructor (cap: nat)
      ensures View() == New(cap)
    {
      this.cap, entries, objects, next, tasks := cap, map[], map[], 0, map[];
    }

    method Refer(key: Key, ghost id: nat) returns (channel: nat)
      requires id !in tasks && (key in entries ==> entries[key] in objects)
      modifies this
      ensures View() == Step(old(View()), Enter(id, key))
      ensures id in tasks && tasks[id].channel == channel
    {
      if key in entries {
        channel := entries[key];
      } else {
        channel := next;
        entries, objects, next := entries[key := channel], objects[channel := Channel(0, 0)], next + 1;
      }
      var c := objects[channel];
      objects := objects[channel := c.(refs := c.refs + 1)];
      tasks := tasks[id := Task(key, channel, Queued)];
    }

    method Release(key: Key, channel: nat, ghost id: nat)
      requires At(View(), id, Leaving) && tasks[id] == Task(key, channel, Leaving)
      modifies this
      ensures View() == Step(old(View()), Leave(id))
    {
      var c := objects[channel];
      objects := objects[channel := c.(refs := c.refs - 1)];
      if c.refs - 1 == 0 { entries := entries - {key}; }
      tasks := tasks - {id};
    }
  }

  // Counting tasks.

  /** Whether a task refers to channel `o` (and, if asked, is in it). */
  predicate Hits(t: Task, o: nat, inside: bool) { t.channel == o && (inside ==> t.phase == Inside) }

  function Select(tasks: map<nat, Task>, o: nat, inside: bool): set<nat> {
    set a | a in tasks && Hits(tasks[a], o, inside)
  }

  function Count(tasks: map<nat, Task>, o: nat, inside: bool): nat { |Select(tasks, o, inside)| }

  function One(b: bool): int { if b then 1 else 0 }

  /** The effect of adding or changing a task, and of removing one. */
  lemma PutCounts(tasks: map<nat, Task>, id: nat, t: Task, o: nat, inside: bool)
    ensures Count(tasks[id := t], o, inside) ==
            Count(tasks, o, inside) - One(id in tasks && Hits(tasks[id], o, inside)) + One(Hits(t, o, inside))
  {
    var s, s' := Select(tasks, o, inside), Select(tasks[id := t], o, inside);
    if Hits(t, o, inside) { assert s' == s + {id}; } else { assert s' == s - {id}; }
  }

  lemma DropCounts(tasks: map<nat, Task>, id: nat, o: nat, inside: bool)
    requires id in tasks
    ensures Count(tasks - {id}, o, inside) == Count(tasks, o, inside) - One(Hits(tasks[id], o, inside))
  {
    assert Select(tasks - {id}, o, inside) == Select(tasks, o, inside) - {id};
  }

  lemma UnusedCounts(tasks: map<nat, Task>, o: nat, inside: bool)
    requires forall a | a in tasks :: tasks[a].channel != o
    ensures Count(tasks, o, inside) == 0
  {
    assert Select(tasks, o, inside) == {};
  }

  lemma UsedCounts(tasks: map<nat, Task>, a: nat)
    requires a in tasks
    ensures Count(tasks, tasks[a].channel, false) > 0
  {
    assert a in Select(tasks, tasks[a].channel, false);
  }

  /** The channel object counts its tasks and is within capacity. */
  predicate Counts(c: Channels, o: nat) {
    && o in c.objects
    && c.objects[o].refs == Count(c.tasks, o, false)
    && c.objects[o].occupied == Count(c.tasks, o, true) <= c.cap
  }

  ghost predicate Placed(c: Channels) {
    && (forall k | k in c.entries :: c.entries[k] < c.next)
    && (forall k, l | k in c.entries && l in c.entries && c.entries[k] == c.entries[l] :: k == l)
    && (forall a | a in c.tasks :: c.tasks[a].key in c.entries && c.entries[c.tasks[a].key] == c.tasks[a].channel)
  }

  ghost predicate Counted(c: Channels) {
    forall k | k in c.entries :: Counts(c, c.entries[k]) && c.objects[c.entries[k]].refs > 0
  }

  ghost predicate Inv(c: Channels) { Placed(c) && Counted(c) }

  lemma JoinKeeps(c: Channels, id: nat, key: Key)
    requires Inv(c) && id !in c.tasks && key in c.entries
    ensures Inv(EnterStep(c, id, key))
  {
    hide Count;
    var c', t := EnterStep(c, id, key), Task(key, c.entries[key], Queued);
    forall k | k in c'.entries ensures Counts(c', c'.entries[k]) && c'.objects[c'.entries[k]].refs > 0 {
      PutCounts(c.tasks, id, t, c.entries[k], false);
      PutCounts(c.tasks, id, t, c.entries[k], true);
    }
  }

  lemma CreateKeeps(c: Channels, id: nat, key: Key)
    requires Inv(c) && id !in c.tasks && key !in c.entries
    ensures Inv(EnterStep(c, id, key))
  {
    hide Count;
    var c', t := EnterStep(c, id, key), Task(key, c.next, Queued);
    UnusedCounts(c.tasks, c.next, false);
    UnusedCounts(c.tasks, c.next, true);
    forall k | k in c'.entries ensures Counts(c', c'.entries[k]) && c'.objects[c'.entries[k]].refs > 0 {
      PutCounts(c.tasks, id, t, c'.entries[k], false);
      PutCounts(c.tasks, id, t, c'.entries[k], true);
    }
  }

  lemma OccupyKeeps(c: Channels, id: nat, delta: int, phase: Phase)
    requires Inv(c) && id in c.tasks && c.tasks[id].channel in c.objects
    requires delta == One(phase == Inside) - One(c.tasks[id].phase == Inside)
    requires c.objects[c.tasks[id].channel].occupied + delta <= c.cap
    ensures Inv(Occupy(c, id, delta, phase))
  {
    hide Count;
    var c' := Occupy(c, id, delta, phase);
    forall k | k in c'.entries ensures Counts(c', c'.entries[k]) && c'.objects[c'.entries[k]].refs > 0 {
      PutCounts(c.tasks, id, c'.tasks[id], c'.entries[k], false);
      PutCounts(c.tasks, id, c'.tasks[id], c'.entries[k], true);
    }
  }

  lemma LeaveKeeps(c: Channels, id: nat)
    requires Inv(c) && id in c.tasks && c.tasks[id].channel in c.objects && c.tasks[id].phase == Leaving
    ensures Inv(LeaveStep(c, id))
  {
    hide Count;
    var c', o := LeaveStep(c, id), c.tasks[id].channel;
    forall k | k in c'.entries ensures Counts(c', c'.entries[k]) && c'.objects[c'.entries[k]].refs > 0 {
      DropCounts(c.tasks, id, c'.entries[k], false);
      DropCounts(c.tasks, id, c'.entries[k], true);
    }
    forall a | a in c'.tasks ensures c'.tasks[a].key in c'.entries {
      // The entry stays while another task refers to it.
      UsedCounts(c'.tasks, a);
      DropCounts(c.tasks, id, c.tasks[a].channel, false);
    }
  }

  lemma StepKeeps(c: Channels, e: Event)
    requires Inv(c) && Enabled(c, e)
    ensures Inv(Step(c, e))
  {
    match e
    case Enter(id, key) => if key in c.entries { JoinKeeps(c, id, key); } else { CreateKeeps(c, id, key); }
    case Send(id) => OccupyKeeps(c, id, 1, Inside);
    case Cancel(id) => assert Counts(c, c.tasks[id].channel); OccupyKeeps(c, id, 0, Leaving);
    case Receive(id) => assert Counts(c, c.tasks[id].channel); OccupyKeeps(c, id, -1, Leaving);
    case Leave(id) => LeaveKeeps(c, id);
  }

  /** The tasks of a key, and those of them in its channel. */
  function Of(c: Channels, key: Key): set<nat> { set a | a in c.tasks && c.tasks[a].key == key }
  function InsideOf(c: Channels, key: Key): set<nat> {
    set a | a in c.tasks && c.tasks[a].key == key && c.tasks[a].phase == Inside
  }

  /** A key has an entry exactly while tasks refer to it; they share its one
      channel; no more than `cap` of them are inside; and the channel shows how
      many there are. */
  lemma OneChannelPerKey(c: Channels, key: Key)
    requires Inv(c)
    ensures key in c.entries <==> Of(c, key) != {}
    ensures forall a | a in Of(c, key) :: key in c.entries && c.tasks[a].channel == c.entries[key]
    ensures |InsideOf(c, key)| <= c.cap
    ensures key in c.entries ==> c.entries[key] in c.objects && c.objects[c.entries[key]].occupied == |InsideOf(c, key)|
  {
    if key in c.entries {
      var o := c.entries[key];
      assert Counts(c, o);
      assert forall a | a in Select(c.tasks, o, false) :: c.entries[c.tasks[a].key] == o;
      assert Select(c.tasks, o, false) == Of(c, key);
      assert Select(c.tasks, o, true) == InsideOf(c, key);
    } else {
      assert InsideOf(c, key) == {};
    }
  }
}
