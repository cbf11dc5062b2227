/** What the send pipeline keeps over every run of messages side by side: one
    audit record each, no unchecked delivery, and a balanced rate-limit ledger. */
module GatewayTheorems {
  import opened Prelude
  import opened SlidingWindow
  import opened MemoryLimiter
  import L = LimiterTheorems
  import opened Gateway

  function One(b: bool): int { if b then 1 else 0 }

  // Audit records and deliveries.

  function Records(audit: seq<Record>, id: nat): nat {
    if audit == [] then 0 else Records(audit[..|audit| - 1], id) + One(audit[|audit| - 1].id == id)
  }

  function Deliveries(relayed: seq<nat>, id: nat): nat {
    if relayed == [] then 0 else Deliveries(relayed[..|relayed| - 1], id) + One(relayed[|relayed| - 1] == id)
  }

  /** Answered, or a failed delivery that still has to give its charge back. */
  predicate Audited(t: Task) { t.phase.Done? || t.phase == Owing(Failed) }

  function AuditedStatus(t: Task): Status requires Audited(t) { t.phase.status }

  /** Was handed to the driver, unless that cannot take it. */
  predicate Delivered(t: Task) {
    && Passes(t.req)
    && match t.phase
       case Owing(_) => true
       case Done(s) => s in {Accepted, Rejected, Failed, Denied}
       case _ => false
  }

  predicate TaskOK(t: Task) {
    && (t.refunded ==> t.charged && t.phase in {Done(Denied), Done(Failed)})
    && (t.charged ==> Delivered(t) || t.phase == Ready)
    && (t.phase == Done(Accepted) ==> CallsDriver(t.req))
    && match t.phase
       case Checked => Passes(t.req)
       case Ready => Passes(t.req) && t.charged == Limited(t.req)
       case Owing(s) => Passes(t.req) && t.charged && Limited(t.req) && s in {Denied, Failed}
       case Done(s) =>
         if !Passes(t.req) then Refusal(t.req) == Some(s)
         else if Delivered(t) then t.charged == Limited(t.req)
         else s in {Unavailable, RateLimited} && Limited(t.req)
  }

  predicate CountsOK(w: World, id: nat) {
    && Records(w.audit, id) == One(id in w.tasks && Audited(w.tasks[id]))
    && Deliveries(w.relayed, id) == One(id in w.tasks && Delivered(w.tasks[id]) && CallsDriver(w.tasks[id].req))
  }

  predicate RecordOK(w: World, r: Record) {
    r.id in w.tasks && Audited(w.tasks[r.id]) && r.status == w.tasks[r.id].phase.status
  }

  ghost predicate TasksOK(w: World) { forall a | a in w.tasks :: TaskOK(w.tasks[a]) }
  ghost predicate AuditOK(w: World) {
    (forall id: nat :: CountsOK(w, id)) && forall r | r in w.audit :: RecordOK(w, r)
  }

  lemma Appended(audit: seq<Record>, r: Record, relayed: seq<nat>, d: nat, id: nat)
    ensures Records(audit + [r], id) == Records(audit, id) + One(r.id == id)
    ensures Deliveries(relayed + [d], id) == Deliveries(relayed, id) + One(d == id)
  {
    assert (audit + [r])[..|audit|] == audit && (relayed + [d])[..|relayed|] == relayed;
  }

  lemma StepMovesTask(w: World, e: Event)
    requires Enabled(w, e) && (e.id in w.tasks ==> TaskOK(w.tasks[e.id]))
    ensures e.id in Step(w, e).tasks && TaskOK(Step(w, e).tasks[e.id])
  {
    hide TaskOK, ChargeStep, RelayStep, GiveBackStep;
    match e
    case Arrive(id, req) => ArrivesOK(w, id, req);
    case Charge(id, now, up) => ChargedOK(w, id, now, up);
    case Relay(id, outcome) => RelayedOK(w, id, outcome);
    case GiveBack(id, works) => GivenBackOK(w, id, works);
  }

  lemma ArrivesOK(w: World, id: nat, req: Request)
    ensures id in ArriveStep(w, id, req).tasks && TaskOK(ArriveStep(w, id, req).tasks[id])
  {
  }

  lemma ChargedOK(w: World, id: nat, now: Time, up: bool)
    requires Enabled(w, Charge(id, now, up)) && TaskOK(w.tasks[id])
    ensures var w' := ChargeStep(w, id, now, up); id in w'.tasks && TaskOK(w'.tasks[id])
  {
    hide LimiterRuns.ReplyTo;
  }

  lemma RelayedOK(w: World, id: nat, outcome: Outcome)
    requires Enabled(w, Relay(id, outcome)) && TaskOK(w.tasks[id])
    ensures var w' := RelayStep(w, id, outcome); id in w'.tasks && TaskOK(w'.tasks[id])
  {
  }

  lemma GivenBackOK(w: World, id: nat, works: bool)
    requires Enabled(w, GiveBack(id, works)) && TaskOK(w.tasks[id])
    ensures var w' := GiveBackStep(w, id, works); id in w'.tasks && TaskOK(w'.tasks[id])
  {
    hide IndexOf, Without;
  }

  lemma StepKeepsTasks(w: World, e: Event)
    requires TasksOK(w)
    ensures TasksOK(Step(w, e))
  {
    hide Step, TaskOK;
    if Enabled(w, e) {
      StepChanges(w, e);
      StepMovesTask(w, e);
    } else {
      Idle(w, e);
    }
  }

  predicate WasAudited(w: World, id: nat) { id in w.tasks && Audited(w.tasks[id]) }
  predicate WasDelivered(w: World, id: nat) {
    id in w.tasks && Delivered(w.tasks[id]) && CallsDriver(w.tasks[id].req)
  }

  /** A step changes one task, and records and delivers it when that is new. */
  predicate Change(w: World, w': World, id: nat) {
    && id in w'.tasks && w'.tasks == w.tasks[id := w'.tasks[id]]
    && w'.audit == (if WasAudited(w', id) && !WasAudited(w, id)
                    then w.audit + [Record(id, w'.tasks[id].phase.status)] else w.audit)
    && w'.relayed == (if WasDelivered(w', id) && !WasDelivered(w, id) then w.relayed + [id] else w.relayed)
    && (WasAudited(w, id) ==> WasAudited(w', id) && w'.tasks[id].phase.status == w.tasks[id].phase.status)
    && (WasDelivered(w, id) ==> WasDelivered(w', id))
  }

  lemma StepChanges(w: World, e: Event)
    requires TasksOK(w) && Enabled(w, e)
    ensures Change(w, Step(w, e), e.id)
  {
    match e
    case Arrive(_, _) =>
    case Charge(id, now, up) => ChargeChanges(w, id, now, up);
    case Relay(id, outcome) => RelayChanges(w, id, outcome);
    case GiveBack(id, works) => GiveBackChanges(w, id, works);
  }

  lemma ChargeChanges(w: World, id: nat, now: Time, up: bool)
    requires TasksOK(w) && Enabled(w, Charge(id, now, up))
    ensures Change(w, ChargeStep(w, id, now, up), id)
  {
    hide LimiterRuns.ReplyTo;
    assert TaskOK(w.tasks[id]);
  }

  lemma RelayChanges(w: World, id: nat, outcome: Outcome)
    requires TasksOK(w) && Enabled(w, Relay(id, outcome))
    ensures Change(w, RelayStep(w, id, outcome), id)
  {
    assert TaskOK(w.tasks[id]);
  }

  lemma GiveBackChanges(w: World, id: nat, works: bool)
    requires TasksOK(w) && Enabled(w, GiveBack(id, works))
    ensures Change(w, GiveBackStep(w, id, works), id)
  {
    hide IndexOf, Without;
    assert TaskOK(w.tasks[id]);
  }

  lemma ChangeKeepsAudit(w: World, w': World, id: nat)
    requires AuditOK(w) && Change(w, w', id)
    ensures AuditOK(w')
  {
    hide Records, Deliveries, Audited, Delivered, CallsDriver;
    forall a: nat ensures CountsOK(w', a) {
      assert CountsOK(w, a);
      var status := if Audited(w'.tasks[id]) then AuditedStatus(w'.tasks[id]) else Denied;
      Appended(w.audit, Record(id, status), w.relayed, id, a);
    }
    forall r | r in w'.audit ensures RecordOK(w', r) {
      if r in w.audit { assert RecordOK(w, r); }
    }
  }

  // The ledger.

  predicate Distinct(ids: seq<nat>) { forall i, j | 0 <= i < j < |ids| :: ids[i] != ids[j] }

  /** The message's charge of this policy stands. */
  predicate Stands(w: World, id: nat, key: string) {
    id in w.tasks && w.tasks[id].charged && !w.tasks[id].refunded && Key(w.tasks[id].req) == key
  }

  /** Admissions of a limited policy. */
  function Admitted(calls: seq<Call>, key: string): nat {
    if calls == [] then 0
    else
      var c := calls[|calls| - 1];
      Admitted(calls[..|calls| - 1], key)
      + One(c.Allow? && c.key == key && !c.limits.None() && LimiterRuns.ReplyTo(calls).ok)
  }

  ghost predicate HoldersOK(w: World, key: string) {
    && Distinct(Holders(w, key))
    && (forall id: nat :: id in Holders(w, key) <==> Stands(w, id, key))
    && |Holders(w, key)| == Admitted(w.calls, key) - L.Refunds(w.calls, key)
  }

  /** Tied to the limiter's own log while a policy keeps or lacks its daily cap. */
  ghost predicate SentOK(w: World, key: string, daily: string -> bool) {
    LimiterRuns.Steady(w.calls, daily) ==>
      L.GenuineRefunds(w.calls, key) && |L.Sent(w.calls, key)| == |Holders(w, key)|
  }

  lemma CallCounts(calls: seq<Call>, c: Call, key: string)
    ensures Admitted(calls + [c], key) ==
            Admitted(calls, key) + One(IsAllow(c, key) && LimiterRuns.ReplyTo(calls + [c]).ok)
    ensures L.Refunds(calls + [c], key) == L.Refunds(calls, key) + One(c.Refund? && c.key == key)
  {
    assert (calls + [c])[..|calls|] == calls;
  }

  lemma WithoutKeeps(ids: seq<nat>, i: nat)
    requires Distinct(ids) && i < |ids|
    ensures Distinct(Without(ids, i)) && |Without(ids, i)| == |ids| - 1
    ensures forall id: nat :: id in Without(ids, i) <==> id in ids && id != ids[i]
  {
    var rest := Without(ids, i);
    forall id: nat | id in ids && id != ids[i] ensures id in rest {
      var j :| 0 <= j < |ids| && ids[j] == id;
      assert rest[if j < i then j else j - 1] == id;
    }
  }

  /** A step leaves the ledger alone, admits one message of its policy, refuses
      one, or refunds one. */
  datatype Entry = Nothing | Admit(c: Call) | Refuse(c: Call) | Return(i: nat)

  predicate Books(w: World, w': World, id: nat, key: string, entry: Entry) {
    match entry
    case Nothing => w'.calls == w.calls && w'.holders == w.holders && Stands(w', id, key) == Stands(w, id, key)
    case Admit(c) =>
      && IsAllow(c, key) && w'.calls == w.calls + [c] && LimiterRuns.ReplyTo(w'.calls).ok
      && w'.holders == w.holders[key := Holders(w, key) + [id]] && !Stands(w, id, key) && Stands(w', id, key)
    case Refuse(c) =>
      && IsAllow(c, key) && w'.calls == w.calls + [c] && !LimiterRuns.ReplyTo(w'.calls).ok
      && w'.holders == w.holders && !Stands(w, id, key) && !Stands(w', id, key)
    case Return(i) =>
      && i < |Holders(w, key)| && Holders(w, key)[i] == id && w'.calls == w.calls + [Call.Refund(key, i)]
      && w'.holders == w.holders[key := Without(Holders(w, key), i)] && !Stands(w', id, key)
  }

  predicate IsAllow(c: Call, key: string) { c.Allow? && c.key == key && !c.limits.None() }

  /** What a step books, for the policy of its message. */
  lemma StepBooks(w: World, e: Event) returns (entry: Entry)
    requires TasksOK(w) && Enabled(w, e)
    ensures var w' := Step(w, e); e.id in w'.tasks && Books(w, w', e.id, Key(w'.tasks[e.id].req), entry)
  {
    match e
    case Arrive(id, req) => entry := Nothing;
    case Charge(id, now, up) => entry := ChargeBooks(w, id, now, up);
    case Relay(id, outcome) => entry := Nothing; RelayBooks(w, id, outcome);
    case GiveBack(id, works) => entry := GiveBackBooks(w, id, works);
  }

  lemma ChargeBooks(w: World, id: nat, now: Time, up: bool) returns (entry: Entry)
    requires TasksOK(w) && Enabled(w, Charge(id, now, up))
    ensures Books(w, ChargeStep(w, id, now, up), id, Key(w.tasks[id].req), entry)
    ensures var w' := ChargeStep(w, id, now, up); id in w'.tasks && w'.tasks[id].req == w.tasks[id].req
  {
    hide LimiterRuns.ReplyTo;
    var t := w.tasks[id];
    assert TaskOK(t);
    var c := Allow(Key(t.req), now, t.req.policy.value.limits);
    entry := if !Limited(t.req) || !up then Nothing
             else if LimiterRuns.ReplyTo(w.calls + [c]).ok then Admit(c) else Refuse(c);
  }

  lemma RelayBooks(w: World, id: nat, outcome: Outcome)
    requires Enabled(w, Relay(id, outcome))
    ensures Books(w, RelayStep(w, id, outcome), id, Key(w.tasks[id].req), Nothing)
    ensures var w' := RelayStep(w, id, outcome); id in w'.tasks && w'.tasks[id].req == w.tasks[id].req
  {
  }

  lemma GiveBackBooks(w: World, id: nat, works: bool) returns (entry: Entry)
    requires Enabled(w, GiveBack(id, works))
    ensures Books(w, GiveBackStep(w, id, works), id, Key(w.tasks[id].req), entry)
    ensures var w' := GiveBackStep(w, id, works); id in w'.tasks && w'.tasks[id].req == w.tasks[id].req
  {
    hide Without;
    entry := if works then Return(IndexOf(Holders(w, Key(w.tasks[id].req)), id)) else Nothing;
  }

  /** The ledger of the message's own policy. */
  lemma BooksKeepHolders(w: World, w': World, id: nat, key: string, entry: Entry)
    requires HoldersOK(w, key) && Books(w, w', id, key, entry)
    requires forall a: nat | a != id :: Stands(w', a, key) == Stands(w, a, key)
    ensures HoldersOK(w', key)
  {
    hide LimiterRuns.ReplyTo, Stands, Without, Admitted, L.Refunds;
    if entry.Return? {
      WithoutKeeps(Holders(w, key), entry.i);
      CallCounts(w.calls, Call.Refund(key, entry.i), key);
    } else if !entry.Nothing? {
      CallCounts(w.calls, entry.c, key);
    }
  }

  /** The ledgers of the others. */
  lemma BooksKeepOthers(w: World, w': World, id: nat, key: string, entry: Entry, other: string)
    requires HoldersOK(w, other) && Books(w, w', id, key, entry) && other != key
    requires forall a: nat :: Stands(w', a, other) == Stands(w, a, other)
    ensures HoldersOK(w', other)
  {
    hide LimiterRuns.ReplyTo, Stands, Without, Admitted, L.Refunds;
    if entry.Return? {
      CallCounts(w.calls, Call.Refund(key, entry.i), other);
    } else if !entry.Nothing? {
      CallCounts(w.calls, entry.c, other);
    }
  }

  lemma StepKeepsHolders(w: World, e: Event, key: string)
    requires TasksOK(w) && HoldersOK(w, key)
    ensures HoldersOK(Step(w, e), key)
  {
    hide HoldersOK, Books, Step, TaskOK;
    if Enabled(w, e) {
      var w' := Step(w, e);
      StepChanges(w, e);
      var entry := StepBooks(w, e);
      var own := Key(w'.tasks[e.id].req);
      StandsElsewhere(w, w', e.id, key);
      if own == key { BooksKeepHolders(w, w', e.id, key, entry); }
      else { StandsForOthers(w, e, key); BooksKeepOthers(w, w', e.id, own, entry, key); }
    } else {
      Idle(w, e);
    }
  }

  lemma Idle(w: World, e: Event)
    requires !Enabled(w, e)
    ensures Step(w, e) == w
  {
  }

  lemma StandsElsewhere(w: World, w': World, id: nat, key: string)
    requires Change(w, w', id)
    ensures forall a: nat | a != id :: Stands(w', a, key) == Stands(w, a, key)
  {
  }

  lemma StandsForOthers(w: World, e: Event, key: string)
    requires TasksOK(w) && Enabled(w, e) && e.id in Step(w, e).tasks && Key(Step(w, e).tasks[e.id].req) != key
    ensures Stands(Step(w, e), e.id, key) == Stands(w, e.id, key)
  {
    hide LimiterRuns.ReplyTo, IndexOf, Without, TaskOK;
  }

  // The limiter's own log.

  lemma CallSends(calls: seq<Call>, c: Call, key: string, daily: string -> bool)
    requires LimiterRuns.Steady(calls + [c], daily) && (c.Allow? ==> !c.limits.None())
    ensures LimiterRuns.Steady(calls, daily)
    ensures |L.Sent(calls + [c], key)| ==
            |L.Sent(calls, key)| + if c.key != key then 0
                                   else if c.Allow? then One(LimiterRuns.ReplyTo(calls + [c]).ok)
                                   else -One(c.which < |L.Sent(calls, key)|)
    ensures L.GenuineRefunds(calls + [c], key) <==>
            L.GenuineRefunds(calls, key) && (c.Refund? && c.key == key ==> c.which < |L.Sent(calls, key)|)
  {
    assert (calls + [c])[..|calls|] == calls;
    if c.Allow? { LimiterRuns.RepliesMatchLog(calls + [c], daily); }
    hide LimiterRuns.ReplyTo, LimiterRuns.Log, Admits;
  }

  lemma BooksKeepSent(w: World, w': World, id: nat, key: string, entry: Entry, other: string, daily: string -> bool)
    requires SentOK(w, other, daily) && Books(w, w', id, key, entry)
    ensures SentOK(w', other, daily)
  {
    hide LimiterRuns.ReplyTo, Stands, L.Sent, L.GenuineRefunds;
    if LimiterRuns.Steady(w'.calls, daily) && !entry.Nothing? {
      var c := if entry.Return? then Call.Refund(key, entry.i) else entry.c;
      CallSends(w.calls, c, other, daily);
      hide LimiterRuns.Steady;
    }
  }

  lemma StepKeepsSent(w: World, e: Event, key: string, daily: string -> bool)
    requires TasksOK(w) && SentOK(w, key, daily)
    ensures SentOK(Step(w, e), key, daily)
  {
    hide SentOK, Books, Step, TaskOK;
    if Enabled(w, e) {
      StepChanges(w, e);
      var entry := StepBooks(w, e);
      BooksKeepSent(w, Step(w, e), e.id, Key(Step(w, e).tasks[e.id].req), entry, key, daily);
    } else {
      Idle(w, e);
    }
  }

  lemma {:induction false} RunsKeepInv(events: seq<Event>, key: string, daily: string -> bool)
    ensures var w := Run(events); TasksOK(w) && AuditOK(w) && HoldersOK(w, key) && SentOK(w, key, daily)
  {
    if events != [] {
      hide Step, HoldersOK, SentOK, AuditOK, TasksOK;
      var w, e := Run(events[..|events| - 1]), events[|events| - 1];
      RunsKeepInv(events[..|events| - 1], key, daily);
      StepKeepsTasks(w, e);
      StepKeepsHolders(w, e, key);
      StepKeepsSent(w, e, key, daily);
      if Enabled(w, e) {
        StepChanges(w, e);
        ChangeKeepsAudit(w, Step(w, e), e.id);
      } else {
        Idle(w, e);
      }
    }
  }

  // Main results, over every run.

  lemma {:induction false} SomeRecord(audit: seq<Record>, id: nat)
    requires Records(audit, id) > 0
    ensures exists r :: r in audit && r.id == id
  {
    var last := audit[|audit| - 1];
    if last.id == id { assert last in audit; } else { SomeRecord(audit[..|audit| - 1], id); }
  }

  /** Every message is recorded at most once, and an answered one exactly once,
      with the answer it got. */
  lemma OneAuditRecord(events: seq<Event>, id: nat)
    ensures var w := Run(events);
            && Records(w.audit, id) <= 1
            && (id in w.tasks && w.tasks[id].phase.Done? ==>
                  Records(w.audit, id) == 1 && Record(id, w.tasks[id].phase.status) in w.audit)
  {
    RunsKeepInv(events, "", _ => false);
    hide Run;
    var w := Run(events);
    assert CountsOK(w, id);
    if id in w.tasks && w.tasks[id].phase.Done? {
      SomeRecord(w.audit, id);
      var r :| r in w.audit && r.id == id;
      assert RecordOK(w, r);
    }
  }

  /** A message reaches the driver at most once, and only after the policy, the
      backend and its sender list allowed it and, under a rate limit, it was
      charged; it is recorded as accepted only if the driver had it. */
  lemma DeliveredOnlyWhenAllowed(events: seq<Event>, id: nat)
    ensures var w := Run(events);
            && Deliveries(w.relayed, id) <= 1
            && (Deliveries(w.relayed, id) > 0 ==>
                  id in w.tasks && Passes(w.tasks[id].req) && w.tasks[id].charged == Limited(w.tasks[id].req))
            && (Record(id, Accepted) in w.audit ==> Deliveries(w.relayed, id) == 1)
  {
    RunsKeepInv(events, "", _ => false);
    hide Run, Records, Deliveries;
    var w := Run(events);
    assert CountsOK(w, id);
    if id in w.tasks { assert TaskOK(w.tasks[id]); }
    if Record(id, Accepted) in w.audit { assert RecordOK(w, Record(id, Accepted)); }
  }

  /** Charged messages of a policy by how they ended. */
  function Settled(w: World, key: string): set<nat> {
    set a | a in w.tasks && Stands(w, a, key) && w.tasks[a].phase in {Done(Accepted), Done(Rejected)}
  }
  function InFlight(w: World, key: string): set<nat> {
    set a | a in w.tasks && Stands(w, a, key) && !w.tasks[a].phase.Done?
  }
  /** Given up on, but their refund failed. */
  function Unreturned(w: World, key: string): set<nat> {
    set a | a in w.tasks && Stands(w, a, key) && w.tasks[a].phase in {Done(Failed), Done(Denied)}
  }

  lemma {:induction false} DistinctSize(ids: seq<nat>, s: set<nat>)
    requires Distinct(ids) && forall id: nat :: id in ids <==> id in s
    ensures |ids| == |s|
  {
    if ids == [] {
      assert s == {};
    } else {
      var front, last := ids[..|ids| - 1], ids[|ids| - 1];
      assert ids == front + [last];
      forall id: nat ensures id in front <==> id in s - {last} {}
      DistinctSize(front, s - {last});
    }
  }

  lemma Split(w: World, key: string)
    requires TasksOK(w)
    ensures forall a: nat :: Stands(w, a, key) <==> a in Settled(w, key) + InFlight(w, key) + Unreturned(w, key)
    ensures |Settled(w, key) + InFlight(w, key) + Unreturned(w, key)| ==
            |Settled(w, key)| + |InFlight(w, key)| + |Unreturned(w, key)|
  {
    forall a: nat | Stands(w, a, key)
      ensures a in Settled(w, key) + InFlight(w, key) + Unreturned(w, key)
    {
      assert TaskOK(w.tasks[a]);
    }
    assert Settled(w, key) !! InFlight(w, key) && (Settled(w, key) + InFlight(w, key)) !! Unreturned(w, key);
  }

  /** Conservation: for every policy with a rate limit, admissions less refunds
      are the accepted and permanently rejected messages, plus those in flight
      and those whose refund failed. */
  lemma LedgerBalances(events: seq<Event>, key: string)
    ensures var w := Run(events);
            Admitted(w.calls, key) - L.Refunds(w.calls, key) ==
            |Settled(w, key)| + |InFlight(w, key)| + |Unreturned(w, key)|
  {
    RunsKeepInv(events, key, _ => false);
    hide Run, Admitted, L.Refunds;
    var w := Run(events);
    Split(w, key);
    hide Settled, InFlight, Unreturned, Stands, TasksOK;
    DistinctSize(Holders(w, key), Settled(w, key) + InFlight(w, key) + Unreturned(w, key));
  }

  /** If every refund works, none is missing. */
  lemma {:induction false} NoLostRefunds(events: seq<Event>, key: string)
    requires forall e | e in events :: e.GiveBack? ==> e.works
    ensures Unreturned(Run(events), key) == {}
  {
    if events != [] {
      hide Step;
      var w, e := Run(events[..|events| - 1]), events[|events| - 1];
      RunsKeepInv(events[..|events| - 1], key, _ => false);
      NoLostRefunds(events[..|events| - 1], key);
      assert e in events;
      if Enabled(w, e) {
        StepChanges(w, e);
        StepReturns(w, e, key);
      } else {
        Idle(w, e);
      }
      forall a | a in Unreturned(Step(w, e), key) ensures a in Unreturned(w, key) {
        assert a != e.id;
      }
    }
  }

  lemma StepReturns(w: World, e: Event, key: string)
    requires TasksOK(w) && Enabled(w, e) && (e.GiveBack? ==> e.works)
    ensures e.id !in Unreturned(Step(w, e), key)
  {
    hide LimiterRuns.ReplyTo, IndexOf, Without;
    if e.id in w.tasks { assert TaskOK(w.tasks[e.id]); }
  }

  /** The limiter's log is as long as the charges that stand, and no window
      holds more of them than its cap plus the refunds. */
  lemma ChargesWithinCap(
    events: seq<Event>, daily: string -> bool, key: string, limits: Limits, i: nat, x: int)
    requires var calls := Run(events).calls; LimiterRuns.Steady(calls, daily) && L.Unchanging(calls, key, limits)
    requires i < 3 && limits.Windows()[i].limit > 0
    ensures var w, window := Run(events), limits.Windows()[i];
            && |LimiterRuns.Log(w.calls, key)| == |L.Sent(w.calls, key)| == |Holders(w, key)|
            && |Holders(w, key)| == |Settled(w, key)| + |InFlight(w, key)| + |Unreturned(w, key)|
            && CountIn(L.Sent(w.calls, key), x, x + window.size) <= window.limit + L.Refunds(w.calls, key)
  {
    RunsKeepInv(events, key, daily);
    LedgerBalances(events, key);
    var w := Run(events);
    hide Run, LimiterRuns.Steady, L.Sent, LimiterRuns.Log, L.GenuineRefunds, L.Refunds, Admitted, CountIn;
    L.LogTracksSent(w.calls, daily, key, x);
    L.SentWithinCapAndRefunds(w.calls, daily, key, limits, i, x);
  }
}
