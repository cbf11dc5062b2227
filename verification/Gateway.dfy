/** The send pipeline: decision order, rate-limit charge and refund, driver
    call and audit record, for messages that run side by side. Policies,
    backends and drivers are outside; a request says what they will answer. */
module Gateway {
  import opened Prelude
  import opened MemoryLimiter
  import LimiterRuns

  /** The matching policy: whether the webhook would admit it, whether it
      allows the message, and its caps; `key` is its namespace and name. */
  datatype Policy = Policy(key: string, valid: bool, allows: bool, limits: Limits)

  /** The Ready backend: whether its sender list allows the message, whether its
      driver opens, and whether that can relay raw messages. */
  datatype Backend = Backend(sendersOK: bool, opens: bool, relaysRaw: bool)

  datatype Request = Request(policy: Option<Policy>, backend: Option<Backend>, raw: bool)

  datatype Status =
    | PolicyInvalid | Denied | BackendNotReady | Unavailable | RateLimited
    | Accepted | Rejected | Failed

  /** What the driver reports. */
  datatype Outcome = Sent | Permanent | Transient | NotInEnvelope

  /** Where a message is: past the checks, past the limiter, waiting to give
      its charge back, or answered. */
  datatype Phase = Checked | Ready | Owing(status: Status) | Done(status: Status)

  datatype Task = Task(req: Request, phase: Phase, charged: bool, refunded: bool)

  datatype Record = Record(id: nat, status: Status)

  /** `calls` are the limiter's calls so far, `holders` the messages whose
      charge stands, oldest first, and `relayed` the driver calls. */
  datatype World = World(
    tasks: map<nat, Task>, calls: seq<Call>, holders: map<string, seq<nat>>, audit: seq<Record>, relayed: seq<nat>)

  datatype Event =
    | Arrive(id: nat, req: Request)
    | Charge(id: nat, now: Time, up: bool)
    | Relay(id: nat, outcome: Outcome)
    | GiveBack(id: nat, works: bool)

  /** The refusal before the limiter is asked, if any: an invalid policy first,
      then what the policy denies, then the backend, its senders before its
      driver. */
  function Refusal(req: Request): (r: Option<Status>)
    ensures r == None <==> Passes(req)
    ensures r == Some(PolicyInvalid) <==> req.policy.Some? && !req.policy.value.valid
    ensures r == Some(Denied) <==>
            req.policy.Some? ==>
              && req.policy.value.valid
              && (!req.policy.value.allows || (req.backend.Some? && !req.backend.value.sendersOK))
    ensures r == Some(BackendNotReady) <==>
            && req.policy.Some? && req.policy.value.valid && req.policy.value.allows
            && (req.backend.Some? ==> req.backend.value.sendersOK && !req.backend.value.opens)
  {
    match req.policy
    case None => Some(Denied)
    case Some(p) =>
      if !p.valid then Some(PolicyInvalid)
      else if !p.allows then Some(Denied)
      else
        match req.backend
        case None => Some(BackendNotReady)
        case Some(b) => if !b.sendersOK then Some(Denied) else if !b.opens then Some(BackendNotReady) else None
  }

  predicate Passes(req: Request) {
    && req.policy.Some? && req.policy.value.valid && req.policy.value.allows
    && req.backend.Some? && req.backend.value.sendersOK && req.backend.value.opens
  }

  function Key(req: Request): string { if req.policy.Some? then req.policy.value.key else "" }

  predicate Limited(req: Request) { req.policy.Some? && !req.policy.value.limits.None() }

  function Holders(w: World, key: string): seq<nat> { if key in w.holders then w.holders[key] else [] }

  function Finish(w: World, id: nat, status: Status): World
    requires id in w.tasks
  {
    w.(tasks := w.tasks[id := w.tasks[id].(phase := Done(status))], audit := w.audit + [Record(id, status)])
  }

  function ArriveStep(w: World, id: nat, req: Request): World {
    var seen := w.(tasks := w.tasks[id := Task(req, Checked, false, false)]);
    match Refusal(req)
    case None => seen
    case Some(status) => Finish(seen, id, status)
  }

  function ChargeStep(w: World, id: nat, now: Time, up: bool): World
    requires id in w.tasks && w.tasks[id].req.policy.Some?
  {
    var t := w.tasks[id];
    if !Limited(t.req) then w.(tasks := w.tasks[id := t.(phase := Ready)])
    else if !up then Finish(w, id, Unavailable)
    else
      var calls, key := w.calls + [Allow(Key(t.req), now, t.req.policy.value.limits)], Key(t.req);
      if !LimiterRuns.ReplyTo(calls).ok then Finish(w.(calls := calls), id, RateLimited)
      else w.(calls := calls, tasks := w.tasks[id := t.(phase := Ready, charged := true)],
              holders := w.holders[key := Holders(w, key) + [id]])
  }

  /** A raw message is not handed to a driver that cannot relay it. */
  predicate CallsDriver(req: Request) { !req.raw || (req.backend.Some? && req.backend.value.relaysRaw) }

  function RelayStep(w: World, id: nat, outcome: Outcome): World
    requires id in w.tasks
  {
    var t := w.tasks[id];
    var v := if CallsDriver(t.req) then w.(relayed := w.relayed + [id]) else w;
    match if CallsDriver(t.req) then outcome else Permanent
    case Sent => Finish(v, id, Accepted)
    case Permanent => Finish(v, id, Rejected)
    case NotInEnvelope =>
      if t.charged then v.(tasks := w.tasks[id := t.(phase := Owing(Denied))]) else Finish(v, id, Denied)
    case Transient =>
      var u := Finish(v, id, Failed);
      if t.charged then u.(tasks := w.tasks[id := t.(phase := Owing(Failed))]) else u
  }

  function IndexOf(ids: seq<nat>, id: nat): (i: nat)
    requires id in ids
    ensures i < |ids| && ids[i] == id
  {
    if ids[0] == id then 0 else 1 + IndexOf(ids[1..], id)
  }

  function Without(ids: seq<nat>, i: nat): seq<nat>
    requires i < |ids|
  {
    ids[..i] + ids[i + 1..]
  }

  function RefundStep(w: World, id: nat): World
    requires id in w.tasks && id in Holders(w, Key(w.tasks[id].req))
  {
    var t, key := w.tasks[id], Key(w.tasks[id].req);
    var i := IndexOf(Holders(w, key), id);
    w.(calls := w.calls + [Refund(key, i)], holders := w.holders[key := Without(Holders(w, key), i)],
       tasks := w.tasks[id := t.(refunded := true)])
  }

  /** A refusal for a header recipient is recorded after the refund, a failed
      delivery before it; a refund that fails is only logged. */
  function GiveBackStep(w: World, id: nat, works: bool): World
    requires id in w.tasks && w.tasks[id].phase.Owing? && id in Holders(w, Key(w.tasks[id].req))
  {
    var status, v := w.tasks[id].phase.status, if works then RefundStep(w, id) else w;
    if status == Denied then Finish(v, id, Denied)
    else v.(tasks := v.tasks[id := v.tasks[id].(phase := Done(status))])
  }

  predicate Enabled(w: World, e: Event) {
    match e
    case Arrive(id, _) => id !in w.tasks
    case Charge(id, _, _) => id in w.tasks && w.tasks[id].phase == Checked && w.tasks[id].req.policy.Some?
    case Relay(id, _) => id in w.tasks && w.tasks[id].phase == Ready
    case GiveBack(id, _) => id in w.tasks && w.tasks[id].phase.Owing? && id in Holders(w, Key(w.tasks[id].req))
  }

  function Step(w: World, e: Event): World {
    if !Enabled(w, e) then w
    else
      match e
      case Arrive(id, req) => ArriveStep(w, id, req)
      case Charge(id, now, up) => ChargeStep(w, id, now, up)
      case Relay(id, outcome) => RelayStep(w, id, outcome)
      case GiveBack(id, works) => GiveBackStep(w, id, works)
  }

  const START := World(map[], [], map[], [], [])

  function Run(events: seq<Event>): World {
    if events == [] then START else Step(Run(events[..|events| - 1]), events[|events| - 1])
  }

  /** One message from arrival to answer, nothing in between. */
  function SendSteps(w: World, id: nat, req: Request, now: Time, up: bool, outcome: Outcome, works: bool): World {
    Step(Step(Step(Step(w, Arrive(id, req)), Charge(id, now, up)), Relay(id, outcome)), GiveBack(id, works))
  }

  /** What came of the delivery; a driver that cannot relay raw messages rejects
      one for good. */
  function Delivery(req: Request, outcome: Outcome): Outcome {
    if req.raw && !(req.backend.Some? && req.backend.value.relaysRaw) then Permanent else outcome
  }

  /** Not sent, for a reason that may pass or that the policy gives. */
  predicate NotSent(outcome: Outcome) { outcome == Transient || outcome == NotInEnvelope }

  /** The policy caps some window. */
  predicate HasCap(req: Request) {
    req.policy.Some? &&
    var limits := req.policy.value.limits; limits.perMinute > 0 || limits.perHour > 0 || limits.perDay > 0
  }

  /** The answer to a message, by all that decides it: `up` is whether the limiter's
      store answers, `room` whether the limiter admits, `outcome` what the driver
      reports. */
  predicate Answers(status: Status, req: Request, up: bool, room: bool, outcome: Outcome) {
    if !Passes(req) then Refusal(req) == Some(status)
    else
      var through := HasCap(req) ==> up && room;
      && (status == Unavailable <==> HasCap(req) && !up)
      && (status == RateLimited <==> HasCap(req) && up && !room)
      && (status == Accepted <==> through && Delivery(req, outcome) == Sent)
      && (status == Rejected <==> through && Delivery(req, outcome) == Permanent)
      && (status == Failed <==> through && Delivery(req, outcome) == Transient)
      && (status == Denied <==> through && Delivery(req, outcome) == NotInEnvelope)
  }

  /** What one message asks of limiter, driver and audit trail: a charge if it is
      limited, a refund if it was charged and not sent, and one record. */
  predicate Leaves(
    w: World, w': World, id: nat, req: Request, status: Status, now: Time, up: bool, room: bool, outcome: Outcome,
    works: bool)
  {
    var asks := Passes(req) && HasCap(req) && up;
    var through := Passes(req) && (HasCap(req) ==> up && room);
    var refunds := asks && room && NotSent(Delivery(req, outcome)) && works;
    && |w'.calls| == |w.calls| + (if refunds then 2 else if asks then 1 else 0) && w.calls <= w'.calls
    && (asks ==> w'.calls[|w.calls|] == Allow(req.policy.value.key, now, req.policy.value.limits))
    && (refunds ==> w'.calls[|w.calls| + 1].Refund? && w'.calls[|w.calls| + 1].key == req.policy.value.key)
    && w'.audit == w.audit + [Record(id, status)]
    && w'.relayed == if through && (req.raw ==> req.backend.value.relaysRaw) then w.relayed + [id] else w.relayed
  }

  /** The limiter would admit the message now. */
  predicate WouldAdmit(w: World, req: Request, now: Time) {
    req.policy.Some? && LimiterRuns.ReplyTo(w.calls + [Allow(req.policy.value.key, now, req.policy.value.limits)]).ok
  }

  lemma AnsweredAtOnce(w: World, id: nat, req: Request, now: Time, up: bool, outcome: Outcome, works: bool)
    requires id !in w.tasks && Refusal(req).Some?
    ensures SendSteps(w, id, req, now, up, outcome, works) == ArriveStep(w, id, req)
  {
  }

  lemma AnsweredLater(w: World, id: nat, req: Request, now: Time, up: bool, outcome: Outcome, works: bool)
    requires id !in w.tasks && Passes(req)
    ensures var v := ChargeStep(ArriveStep(w, id, req), id, now, up);
            && id in v.tasks
            && SendSteps(w, id, req, now, up, outcome, works) ==
               if v.tasks[id].phase == Ready then Step(RelayStep(v, id, outcome), GiveBack(id, works)) else v
  {
  }

  lemma GivesBack(w: World, id: nat, works: bool)
    requires id in w.tasks && w.tasks[id].phase in {Owing(Denied), Owing(Failed)}
    requires id in Holders(w, Key(w.tasks[id].req))
    ensures var w', key := Step(w, GiveBack(id, works)), Key(w.tasks[id].req);
            && id in w'.tasks && w'.tasks[id].phase == Done(w.tasks[id].phase.status) && w'.relayed == w.relayed
            && w'.calls == (if works then w.calls + [Refund(key, IndexOf(Holders(w, key), id))] else w.calls)
            && w'.audit == if w.tasks[id].phase.status == Denied then w.audit + [Record(id, Denied)] else w.audit
  {
    hide IndexOf, Without;
  }

  /** A message is answered as the driver reports and recorded; a charge goes back
      exactly if it was not sent and the refund works. */
  predicate Settles(w: World, w': World, id: nat, outcome: Outcome, works: bool)
    requires id in w.tasks && (w.tasks[id].charged ==> id in Holders(w, Key(w.tasks[id].req)))
  {
    var t, key := w.tasks[id], Key(w.tasks[id].req);
    var out := Delivery(t.req, outcome);
    && id in w'.tasks && w'.tasks[id].phase.Done?
    && var status := w'.tasks[id].phase.status;
       && (status == Accepted <==> out == Sent) && (status == Rejected <==> out == Permanent)
       && (status == Failed <==> out == Transient) && (status == Denied <==> out == NotInEnvelope)
       && w'.audit == w.audit + [Record(id, status)]
       && w'.relayed == (if t.req.raw ==> t.req.backend.Some? && t.req.backend.value.relaysRaw
                         then w.relayed + [id] else w.relayed)
       && w'.calls == if t.charged && NotSent(out) && works
                      then w.calls + [Refund(key, IndexOf(Holders(w, key), id))] else w.calls
  }

  /** A delivery and what comes of it. */
  lemma DeliverExactly(w: World, id: nat, outcome: Outcome, works: bool)
    requires id in w.tasks && w.tasks[id].phase == Ready
    requires w.tasks[id].charged ==> id in Holders(w, Key(w.tasks[id].req))
    ensures Settles(w, Step(RelayStep(w, id, outcome), GiveBack(id, works)), id, outcome, works)
  {
    hide Step, IndexOf, Without;
    var v, out := RelayStep(w, id, outcome), Delivery(w.tasks[id].req, outcome);
    if w.tasks[id].charged && NotSent(out) { GivesBack(v, id, works); } else { SettledStays(v, id, works); }
  }

  /** The rate limit, right after the checks. */
  lemma ChargeExactly(w: World, id: nat, req: Request, now: Time, up: bool)
    requires id !in w.tasks && Passes(req)
    ensures var v, room := ChargeStep(ArriveStep(w, id, req), id, now, up), WouldAdmit(w, req, now);
            && id in v.tasks && v.tasks[id].req == req && v.relayed == w.relayed
            && v.calls == (if HasCap(req) && up
                           then w.calls + [Allow(req.policy.value.key, now, req.policy.value.limits)] else w.calls)
            && if HasCap(req) && !up
               then v.tasks[id].phase == Done(Unavailable) && v.audit == w.audit + [Record(id, Unavailable)]
               else if HasCap(req) && !room
               then v.tasks[id].phase == Done(RateLimited) && v.audit == w.audit + [Record(id, RateLimited)]
               else && v.tasks[id].phase == Ready && v.audit == w.audit && v.tasks[id].charged == HasCap(req)
                    && (HasCap(req) ==> id in Holders(v, Key(req)))
  {
    hide LimiterRuns.ReplyTo;
  }

  /** The message is answered, with exactly that answer, and leaves exactly that. */
  predicate Exact(
    w: World, w': World, id: nat, req: Request, now: Time, up: bool, outcome: Outcome, works: bool)
  {
    && id in w'.tasks && w'.tasks[id].phase.Done?
    && var status, room := w'.tasks[id].phase.status, WouldAdmit(w, req, now);
       Answers(status, req, up, room, outcome) && Leaves(w, w', id, req, status, now, up, room, outcome, works)
  }

  lemma AtOnceExactly(w: World, id: nat, req: Request, now: Time, up: bool, outcome: Outcome, works: bool)
    requires id !in w.tasks && !Passes(req)
    ensures Exact(w, ArriveStep(w, id, req), id, req, now, up, outcome, works)
  {
    hide WouldAdmit, Delivery;
  }

  lemma TurnedAwayExactly(w: World, id: nat, req: Request, now: Time, up: bool, outcome: Outcome, works: bool)
    requires id !in w.tasks && Passes(req) && HasCap(req) && !(up && WouldAdmit(w, req, now))
    ensures var v := ChargeStep(ArriveStep(w, id, req), id, now, up);
            id in v.tasks && v.tasks[id].phase.Done? && Exact(w, v, id, req, now, up, outcome, works)
  {
    hide ChargeStep, ArriveStep, WouldAdmit, Delivery;
    ChargeExactly(w, id, req, now, up);
  }

  lemma ThroughExactly(w: World, id: nat, req: Request, now: Time, up: bool, outcome: Outcome, works: bool)
    requires id !in w.tasks && Passes(req) && (HasCap(req) ==> up && WouldAdmit(w, req, now))
    ensures var v := ChargeStep(ArriveStep(w, id, req), id, now, up);
            && id in v.tasks && v.tasks[id].phase == Ready
            && Exact(w, Step(RelayStep(v, id, outcome), GiveBack(id, works)), id, req, now, up, outcome, works)
  {
    hide ChargeStep, WouldAdmit, Step, RelayStep, Delivery, IndexOf, Holders;
    ChargeExactly(w, id, req, now, up);
    DeliverExactly(ChargeStep(ArriveStep(w, id, req), id, now, up), id, outcome, works);
  }

  lemma SendExactly(w: World, id: nat, req: Request, now: Time, up: bool, outcome: Outcome, works: bool)
    requires id !in w.tasks
    ensures Exact(w, SendSteps(w, id, req, now, up, outcome, works), id, req, now, up, outcome, works)
  {
    hide ChargeStep, ArriveStep, WouldAdmit, Step, RelayStep, SendSteps, Exact;
    if !Passes(req) {
      AnsweredAtOnce(w, id, req, now, up, outcome, works);
      AtOnceExactly(w, id, req, now, up, outcome, works);
    } else {
      AnsweredLater(w, id, req, now, up, outcome, works);
      if HasCap(req) && !(up && WouldAdmit(w, req, now)) {
        TurnedAwayExactly(w, id, req, now, up, outcome, works);
      } else {
        ThroughExactly(w, id, req, now, up, outcome, works);
      }
    }
  }

  lemma RunSnoc(calls: seq<Call>, c: Call)
    ensures LimiterRuns.Run(calls + [c]) == LimiterRuns.Run(calls).Next(c).0
    ensures LimiterRuns.ReplyTo(calls + [c]) == LimiterRuns.Run(calls).Next(c).1
  {
    assert (calls + [c])[..|calls|] == calls;
  }

  /** Nothing is given back for a message that is answered. */
  lemma SettledStays(w: World, id: nat, works: bool)
    requires id in w.tasks && w.tasks[id].phase.Done?
    ensures Step(w, GiveBack(id, works)) == w
  {
  }

  /** The pipeline as the transports call it. */
  class Pipeline {
    const limiter: Limiter
    var audit: seq<Record>
    var relayed: seq<nat>
    ghost var world: World

    ghost predicate Valid()
      reads this, limiter
    {
      && limiter.Valid() && limiter.View() == LimiterRuns.Run(world.calls)
      && world.audit == audit && world.relayed == relayed
    }

    constructor (limiter: Limiter)
      requires limiter.Valid() && limiter.View() == State(map[], 0)
      ensures Valid() && world == START && this.limiter == limiter
    {
      this.limiter, audit, relayed, world := limiter, [], [], START;
    }

    method Answer(id: nat, status: Status)
      requires id in world.tasks && Valid()
      modifies this
      ensures Valid() && world == Finish(old(world), id, status)
    {
      audit := audit + [Record(id, status)];
      world := Finish(world, id, status);
    }

    /** Sends one message; `up`, `outcome` and `works` are what the limiter's
        store, the driver and the refund will report. */
    method Send(id: nat, req: Request, now: Time, up: bool, outcome: Outcome, works: bool) returns (status: Status)
      requires Valid() && limiter.clock <= now && id !in world.tasks
      modifies this, limiter
      ensures Valid()
      ensures world == SendSteps(old(world), id, req, now, up, outcome, works)
      ensures id in world.tasks && world.tasks[id].phase == Done(status)
      ensures Exact(old(world), world, id, req, now, up, outcome, works)
    {
      hide LimiterRuns.Run, LimiterRuns.ReplyTo, Step, Exact, SendSteps;
      SendExactly(world, id, req, now, up, outcome, works);
      ghost var w := world;
      world := world.(tasks := world.tasks[id := Task(req, Checked, false, false)]);
      var refusal := Refusal(req);
      if refusal.Some? {
        Answer(id, refusal.value);
        AnsweredAtOnce(w, id, req, now, up, outcome, works);
        return refusal.value;
      }
      refusal := Admit(id, req, now, up);
      AnsweredLater(w, id, req, now, up, outcome, works);
      if refusal.Some? { return refusal.value; }
      status := Deliver(id, req, Limited(req), outcome, works);
    }

    /** The rate limit of the policy, if it has one. */
    method Admit(id: nat, req: Request, now: Time, up: bool) returns (refusal: Option<Status>)
      requires Valid() && limiter.clock <= now && Passes(req)
      requires id in world.tasks && world.tasks[id] == Task(req, Checked, false, false)
      modifies this, limiter
      ensures Valid() && world == ChargeStep(old(world), id, now, up)
      ensures id in world.tasks
      ensures refusal.Some? ==> world.tasks[id].phase == Done(refusal.value)
      ensures refusal.None? ==>
                && world.tasks[id] == Task(req, Ready, Limited(req), false)
                && (Limited(req) ==> id in Holders(world, Key(req)))
    {
      hide LimiterRuns.Run, LimiterRuns.ReplyTo;
      if Limited(req) {
        if !up {
          Answer(id, Unavailable);
          return Some(Unavailable);
        }
        var ok := AskLimiter(id, req, now);
        if !ok {
          Answer(id, RateLimited);
          return Some(RateLimited);
        }
      }
      world := world.(tasks := world.tasks[id := Task(req, Ready, Limited(req), false)]);
      return None;
    }

    /** Charges the message, if the limiter admits it. */
    method AskLimiter(id: nat, req: Request, now: Time) returns (ok: bool)
      requires Valid() && limiter.clock <= now && Limited(req)
      modifies this, limiter
      ensures Valid()
      ensures var calls, key := old(world).calls + [Allow(Key(req), now, req.policy.value.limits)], Key(req);
              && ok == LimiterRuns.ReplyTo(calls).ok
              && world == if ok
                          then old(world).(calls := calls,
                                           holders := old(world).holders[key := Holders(old(world), key) + [id]])
                          else old(world).(calls := calls)
    {
      ghost var call := Allow(Key(req), now, req.policy.value.limits);
      hide LimiterRuns.Run, LimiterRuns.ReplyTo;
      RunSnoc(world.calls, call);
      var retry;
      ok, retry := limiter.Allow(req.policy.value.key, req.policy.value.limits, now);
      world := world.(calls := world.calls + [call]);
      if ok { world := world.(holders := world.holders[Key(req) := Holders(world, Key(req)) + [id]]); }
    }

    /** Hands the message to the driver and settles the charge. */
    method Deliver(id: nat, req: Request, charged: bool, outcome: Outcome, works: bool) returns (status: Status)
      requires Valid() && id in world.tasks && world.tasks[id] == Task(req, Ready, charged, false)
      requires charged ==> id in Holders(world, Key(req))
      modifies this, limiter
      ensures Valid()
      ensures world == Step(RelayStep(old(world), id, outcome), GiveBack(id, works))
      ensures id in world.tasks && world.tasks[id].phase == Done(status)
      ensures Settles(old(world), world, id, outcome, works)
    {
      hide LimiterRuns.Run, Step, GiveBackStep, RefundStep, Settles;
      DeliverExactly(world, id, outcome, works);
      var result := Permanent;
      if CallsDriver(req) {
        relayed := relayed + [id];
        world := world.(relayed := relayed);
        result := outcome;
      }
      SettledStays(Finish(world, id, Accepted), id, works);
      SettledStays(Finish(world, id, Rejected), id, works);
      match result
      case Sent => status := Accepted; Answer(id, status);
      case Permanent => status := Rejected; Answer(id, status);
      case NotInEnvelope => status := Denied; RefuseDelivered(id, req, charged, works);
      case Transient => status := Failed; FailDelivered(id, req, charged, works);
    }

    /** A refusal for a header recipient: refund, then record. */
    method RefuseDelivered(id: nat, req: Request, charged: bool, works: bool)
      requires Valid() && id in world.tasks && world.tasks[id] == Task(req, Ready, charged, false)
      requires charged ==> id in Holders(world, Key(req))
      modifies this, limiter
      ensures Valid()
      ensures world ==
              Step(if charged
                   then old(world).(tasks := old(world).tasks[id := Task(req, Owing(Denied), charged, false)])
                   else Finish(old(world), id, Denied), GiveBack(id, works))
      ensures id in world.tasks && world.tasks[id].phase == Done(Denied)
    {
      hide LimiterRuns.Run;
      if !charged { SettledStays(Finish(world, id, Denied), id, works); }
      if charged && works { GiveBackCharge(id, req); }
      Answer(id, Denied);
    }

    /** A failed delivery: record, then refund. */
    method FailDelivered(id: nat, req: Request, charged: bool, works: bool)
      requires Valid() && id in world.tasks && world.tasks[id] == Task(req, Ready, charged, false)
      requires charged ==> id in Holders(world, Key(req))
      modifies this, limiter
      ensures Valid()
      ensures var v := Finish(old(world), id, Failed);
              world == Step(if charged
                            then v.(tasks := old(world).tasks[id := Task(req, Owing(Failed), charged, false)]) else v,
                            GiveBack(id, works))
      ensures id in world.tasks && world.tasks[id].phase == Done(Failed)
    {
      hide LimiterRuns.Run;
      if !charged { SettledStays(Finish(world, id, Failed), id, works); }
      Answer(id, Failed);
      if charged && works { GiveBackCharge(id, req); }
    }

    method GiveBackCharge(id: nat, req: Request)
      requires Valid() && id in world.tasks && world.tasks[id].req == req && id in Holders(world, Key(req))
      modifies this, limiter
      ensures Valid() && world == RefundStep(old(world), id)
    {
      hide LimiterRuns.Run, IndexOf, Without;
      ghost var i := IndexOf(Holders(world, Key(req)), id);
      RunSnoc(world.calls, Call.Refund(Key(req), i));
      limiter.Refund(Key(req));
      assert limiter.View() == old(limiter.View()).Next(Call.Refund(Key(req), i)).0;
      world := RefundStep(world, id);
    }
  }
}
