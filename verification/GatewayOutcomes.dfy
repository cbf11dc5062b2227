/** The answers and charges of the send pipeline over every run, told from the
    events alone: what arrived, what the limiter said, what the driver reported. */
module GatewayOutcomes {
  import opened Prelude
  import opened MemoryLimiter
  import L = LimiterTheorems
  import opened Gateway
  import opened GatewayTheorems

  // What happened to a message.

  /** The request it arrived with. */
  function Arrived(events: seq<Event>, id: nat): Option<Request> {
    if events == [] then None
    else
      var front, e := events[..|events| - 1], events[|events| - 1];
      if Arrived(front, id).Some? then Arrived(front, id)
      else if e.Arrive? && e.id == id then Some(e.req) else None
  }

  datatype Verdict = NoLimit | StoreDown | Full | Charged

  /** What the rate limit says to a message at this point of a run. */
  function VerdictAt(w: World, req: Request, now: Time, up: bool): Verdict {
    if !HasCap(req) then NoLimit else if !up then StoreDown else if WouldAdmit(w, req, now) then Charged else Full
  }

  /** What it said to this one. */
  function Asked(events: seq<Event>, id: nat): Option<Verdict> {
    if events == [] then None
    else
      var front, e := events[..|events| - 1], events[|events| - 1];
      var w := Run(front);
      if e.Charge? && e.id == id && Enabled(w, e) then Some(VerdictAt(w, w.tasks[id].req, e.now, e.up))
      else Asked(front, id)
  }

  /** What the driver reported of it. */
  function Reported(events: seq<Event>, id: nat): Option<Outcome> {
    if events == [] then None
    else
      var front, e := events[..|events| - 1], events[|events| - 1];
      if e.Relay? && e.id == id && Enabled(Run(front), e) then Some(e.outcome) else Reported(front, id)
  }

  /** Where a message is, by what happened to it. */
  predicate Explained(t: Task, asked: Option<Verdict>, reported: Option<Outcome>) {
    && (t.refunded ==> t.charged && t.phase in {Done(Denied), Done(Failed)})
    && if !Passes(t.req)
       then asked.None? && reported.None? && t.phase.Done? && Refusal(t.req) == Some(t.phase.status) && !t.charged
       else match asked
         case None => t.phase == Checked && reported.None? && !t.charged
         case Some(StoreDown) => t.phase == Done(Unavailable) && reported.None? && !t.charged && HasCap(t.req)
         case Some(Full) => t.phase == Done(RateLimited) && reported.None? && !t.charged && HasCap(t.req)
         case Some(verdict) =>
           && t.charged == (verdict == Charged) == HasCap(t.req)
           && match reported
              case None => t.phase == Ready
              case Some(outcome) => Ended(t, Delivery(t.req, outcome))
  }

  predicate Ended(t: Task, out: Outcome) {
    match out
    case Sent => t.phase == Done(Accepted)
    case Permanent => t.phase == Done(Rejected)
    case Transient => t.phase == Done(Failed) || (t.charged && t.phase == Owing(Failed))
    case NotInEnvelope => t.phase == Done(Denied) || (t.charged && t.phase == Owing(Denied))
  }

  /** The driver can take it. */
  predicate CanRelay(req: Request) { req.raw ==> req.backend.Some? && req.backend.value.relaysRaw }

  predicate Known(
    w: World, id: nat, arrived: Option<Request>, asked: Option<Verdict>, reported: Option<Outcome>)
  {
    && (id in w.tasks <==> arrived.Some?)
    && (arrived.None? ==> asked.None? && reported.None?)
    && (id in w.tasks ==> w.tasks[id].req == arrived.value && Explained(w.tasks[id], asked, reported))
    && (id in w.relayed <==> arrived.Some? && reported.Some? && CanRelay(arrived.value))
  }

  lemma OthersStay(w: World, e: Event, id: nat)
    requires e.id != id || !Enabled(w, e)
    ensures var w' := Step(w, e);
            && (id in w'.tasks <==> id in w.tasks) && (id in w.tasks ==> w'.tasks[id] == w.tasks[id])
            && (id in w'.relayed <==> id in w.relayed)
  {
    hide LimiterRuns.ReplyTo, IndexOf, Without, Refusal;
  }

  lemma ArriveKnown(w: World, id: nat, req: Request)
    requires id !in w.tasks && Known(w, id, None, None, None)
    ensures Known(ArriveStep(w, id, req), id, Some(req), None, None)
  {
  }

  lemma ChargeKnown(w: World, id: nat, now: Time, up: bool, arrived: Option<Request>)
    requires Enabled(w, Charge(id, now, up)) && Known(w, id, arrived, None, None) && Passes(w.tasks[id].req)
    ensures Known(ChargeStep(w, id, now, up), id, arrived, Some(VerdictAt(w, w.tasks[id].req, now, up)), None)
  {
    hide LimiterRuns.ReplyTo;
  }

  lemma RelayKnown(w: World, id: nat, outcome: Outcome, arrived: Option<Request>, asked: Option<Verdict>)
    requires Enabled(w, Relay(id, outcome)) && Known(w, id, arrived, asked, None)
    ensures Known(RelayStep(w, id, outcome), id, arrived, asked, Some(outcome))
  {
  }

  lemma GiveBackKnown(
    w: World, id: nat, works: bool, arrived: Option<Request>, asked: Option<Verdict>, reported: Option<Outcome>)
    requires Enabled(w, GiveBack(id, works)) && Known(w, id, arrived, asked, reported)
    ensures Known(GiveBackStep(w, id, works), id, arrived, asked, reported)
  {
    hide IndexOf, Without;
  }

  /** In every run a message is where what happened to it puts it. */
  lemma {:induction false} RunsExplain(events: seq<Event>, id: nat)
    ensures Known(Run(events), id, Arrived(events, id), Asked(events, id), Reported(events, id))
  {
    if events != [] {
      var front, e := events[..|events| - 1], events[|events| - 1];
      var w := Run(front);
      RunsExplain(front, id);
      if e.id != id || !Enabled(w, e) {
        OthersStay(w, e, id);
      } else {
        match e
        case Arrive(_, req) => ArriveKnown(w, id, req);
        case Charge(_, now, up) => ChargeKnown(w, id, now, up, Arrived(front, id));
        case Relay(_, outcome) => RelayKnown(w, id, outcome, Arrived(front, id), Asked(front, id));
        case GiveBack(_, works) =>
          GiveBackKnown(w, id, works, Arrived(front, id), Asked(front, id), Reported(front, id));
      }
    }
  }

  // Main results, over every run.

  /** What came of its delivery, if it got there. */
  function Result(events: seq<Event>, id: nat): Option<Outcome> {
    if Arrived(events, id).Some? && Reported(events, id).Some?
    then Some(Delivery(Arrived(events, id).value, Reported(events, id).value)) else None
  }

  /** An answered message got the answer that what happened to it calls for: refused
      before the limiter by its own conditions; unavailable or rate-limited exactly
      if the limiter's store was down or had no room; and else accepted, rejected,
      failed or denied exactly as the driver reported. The driver had it exactly if
      it was handed on and can be relayed. */
  lemma AnswerExactly(events: seq<Event>, id: nat)
    requires id in Run(events).tasks && Run(events).tasks[id].phase.Done?
    ensures var w, status := Run(events), Run(events).tasks[id].phase.status;
            && Arrived(events, id) == Some(w.tasks[id].req)
            && var req, asked, result := w.tasks[id].req, Asked(events, id), Result(events, id);
               && (!Passes(req) ==> Refusal(req) == Some(status) && asked.None? && result.None?)
               && (Passes(req) ==>
                     && (status == Unavailable <==> asked == Some(StoreDown))
                     && (status == RateLimited <==> asked == Some(Full))
                     && (status == Accepted <==> result == Some(Sent))
                     && (status == Rejected <==> result == Some(Permanent))
                     && (status == Failed <==> result == Some(Transient))
                     && (status == Denied <==> result == Some(NotInEnvelope)))
               && (id in w.relayed <==> result.Some? && CanRelay(req))
  {
    hide Run, Arrived, Asked, Reported, Passes, Refusal, Delivery, CanRelay;
    RunsExplain(events, id);
  }

  /** The message was charged, and its charge stays: it was sent, or rejected for
      good. */
  predicate KeepsCharge(events: seq<Event>, id: nat) {
    Asked(events, id) == Some(Charged) && Result(events, id) in {Some(Sent), Some(Permanent)}
  }

  /** If every refund works, the charge of an answered message stands exactly if the
      limiter admitted it and the driver sent it or rejected it for good. */
  lemma ChargeStandsExactly(events: seq<Event>, id: nat, key: string)
    requires forall e | e in events :: e.GiveBack? ==> e.works
    requires id in Run(events).tasks && Run(events).tasks[id].phase.Done?
    ensures var w := Run(events);
            id in Holders(w, key) <==> Key(w.tasks[id].req) == key && KeepsCharge(events, id)
  {
    var w := Run(events);
    RunsExplain(events, id);
    RunsKeepInv(events, key, _ => false);
    NoLostRefunds(events, key);
    StandsIfKept(w, id, key, Asked(events, id), Reported(events, id), Arrived(events, id));
    hide Run, Arrived, Asked, Reported, Delivery;
  }

  lemma StandsIfKept(
    w: World, id: nat, key: string, asked: Option<Verdict>, reported: Option<Outcome>, arrived: Option<Request>)
    requires Known(w, id, arrived, asked, reported) && id in w.tasks && w.tasks[id].phase.Done?
    requires Unreturned(w, key) == {}
    ensures Stands(w, id, key) <==>
            && Key(w.tasks[id].req) == key && asked == Some(Charged)
            && reported.Some? && Delivery(w.tasks[id].req, reported.value) in {Sent, Permanent}
  {
    hide Delivery, Passes, Refusal;
    assert id !in Unreturned(w, key);
  }

  /** Once every message is answered and every refund worked, exactly those the
      limiter admitted and the driver sent or rejected for good stay charged. */
  lemma LedgerAtRest(events: seq<Event>, key: string)
    requires forall a | a in Run(events).tasks :: Run(events).tasks[a].phase.Done?
    requires forall e | e in events :: e.GiveBack? ==> e.works
    ensures var w := Run(events);
            Admitted(w.calls, key) - L.Refunds(w.calls, key) ==
            |set a | a in w.tasks && Key(w.tasks[a].req) == key && KeepsCharge(events, a)|
  {
    hide Run, Admitted, L.Refunds, KeepsCharge;
    var w := Run(events);
    RunsKeepInv(events, key, _ => false);
    var kept := set a | a in w.tasks && Key(w.tasks[a].req) == key && KeepsCharge(events, a);
    forall a: nat ensures a in Holders(w, key) <==> a in kept {
      if a in w.tasks { ChargeStandsExactly(events, a, key); }
    }
    hide TasksOK, AuditOK, SentOK, Stands, Key;
    DistinctSize(Holders(w, key), kept);
  }
}
