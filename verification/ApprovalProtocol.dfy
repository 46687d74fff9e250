/**
 The "request" method of 9passthrough/control.go:425-490 against req-approve, req-deny and shutdown:
 every interleaving of the atomic queue operations, the handlers' receives and their AddPath calls.
 A handler blocks in Wait until its request is resolved, then exposes the path it asked for itself.
 */
module ApprovalProtocol {
  import opened Paths
  import opened Visibility
  import opened RequestQueue
  import Queue = RequestQueue
  import opened RegistryHistory
  import opened Wrappers

  /** Where a handler of "request" is; Granted has received an approval and not yet called AddPath. */
  datatype Handler = Waiting(id: string, path: string, readOnly: bool)
                   | Granted(id: string, path: string, readOnly: bool)
                   | Finished(id: string)

  /** Who caused a registry call: the operator's expose or unexpose, or the request with that id. */
  datatype Cause = Operator | ByRequest(id: string)

  datatype Call = Call(cause: Cause, op: Op)

  datatype System = System(queue: QueueState, handlers: seq<Handler>, calls: seq<Call>)

  datatype Event =
    | Request(path: string, readOnly: bool, vmPid: int)
    | Approve(id: string)
    | Deny(id: string, reason: string)
    | CloseAll
    | Receive(handler: nat)
    | Expose(handler: nat, onHost: bool)
    | Operate(op: Op)

  const Initial := System(QueueState(0, map[]), [], [])

  predicate Enabled(s: System, e: Event) {
    match e
    case Request(p, _, _) => p != ""
    case Receive(h) =>
      h < |s.handlers| && s.handlers[h].Waiting? && s.handlers[h].id in s.queue.requests &&
      Ready(s.queue.requests[s.handlers[h].id])
    case Expose(h, _) => h < |s.handlers| && s.handlers[h].Granted?
    case _ => true
  }

  function DenyReason(reason: string): string {
    if reason == "" then "Denied by user" else reason
  }

  function Next(s: System, e: Event): System
    requires Enabled(s, e)
  {
    match e
    case Request(p, ro, pid) =>
      s.(queue := AfterCreate(s.queue, p, ro, pid),
         handlers := s.handlers + [Waiting(Decimal(s.queue.sequence + 1), p, ro)])
    case Approve(id) => s.(queue := AfterResolve(s.queue, id, Approved, ""))
    case Deny(id, reason) => s.(queue := AfterResolve(s.queue, id, Denied, DenyReason(reason)))
    case CloseAll => s.(queue := AfterCloseAll(s.queue))
    case Receive(h) =>
      var w := s.handlers[h];
      var result := Received(s.queue.requests[w.id]);
      s.(queue := AfterReceive(s.queue, w.id),
         handlers := s.handlers[h := if result.approved then Granted(w.id, w.path, w.readOnly) else Finished(w.id)])
    case Expose(h, onHost) =>
      var g := s.handlers[h];
      s.(handlers := s.handlers[h := Finished(g.id)],
         calls := s.calls + [Call(ByRequest(g.id), Add(g.path, g.readOnly, onHost))])
    case Operate(op) => s.(calls := s.calls + [Call(Operator, op)])
  }

  /** s is reached by the events, each enabled when it happens. */
  ghost predicate Reaches(events: seq<Event>, s: System)
    decreases |events|
  {
    if events == [] then s == Initial
    else
      exists before ::
        Reaches(Front(events), before) && Enabled(before, Last(events)) && s == Next(before, Last(events))
  }

  // ---------------------------------------------------------------- the invariant

  ghost predicate MadeCall(calls: seq<Call>, id: string) {
    exists n :: 0 <= n < |calls| && calls[n].cause == ByRequest(id)
  }

  /** A handler holds the request it created; if that was approved and the handler is done, it made its call. */
  ghost predicate HandlerOk(s: System, h: Handler) {
    match h
    case Waiting(id, p, ro) =>
      && id in s.queue.requests && s.queue.requests[id].path == p && s.queue.requests[id].readOnly == ro
      && (s.queue.requests[id].status == Pending <==> !Ready(s.queue.requests[id]))
      && (s.queue.requests[id].status == Approved ==> s.queue.requests[id].buffer == [RequestResult(true, "")])
    case Granted(id, p, ro) => Authorized(s.queue, id, p, ro)
    case Finished(id) =>
      && id in s.queue.requests && s.queue.requests[id].status != Pending
      && (s.queue.requests[id].status == Approved ==> MadeCall(s.calls, id))
  }

  ghost predicate Authorized(q: QueueState, id: string, p: string, ro: bool) {
    id in q.requests && q.requests[id].status == Approved && q.requests[id].path == p && q.requests[id].readOnly == ro
  }

  ghost predicate CallOk(q: QueueState, c: Call) {
    c.cause.ByRequest? ==> c.op.Add? && Authorized(q, c.cause.id, c.op.path, c.op.readOnly)
  }

  ghost predicate Inv(s: System) {
    && QueueOk(s.queue)
    && (forall i {:trigger s.handlers[i]} :: 0 <= i < |s.handlers| ==> HandlerOk(s, s.handlers[i]))
    && |s.handlers| == s.queue.sequence
    && (forall i {:trigger s.handlers[i]} :: 0 <= i < |s.handlers| ==> s.handlers[i].id == Decimal(i + 1))
    && (forall i {:trigger s.calls[i]} :: 0 <= i < |s.calls| ==> CallOk(s.queue, s.calls[i]))
    && (forall i, j :: 0 <= i < j < |s.calls| && s.calls[i].cause.ByRequest? ==> s.calls[i].cause != s.calls[j].cause)
    && (forall i, j :: 0 <= i < |s.handlers| && 0 <= j < |s.calls| && !s.handlers[i].Finished? ==>
          s.calls[j].cause != ByRequest(s.handlers[i].id))
  }

  /** Requests keep their path and mode, and once resolved their status. */
  ghost predicate Grows(q: QueueState, r: QueueState) {
    forall id :: id in q.requests ==>
      && id in r.requests && r.requests[id].path == q.requests[id].path
      && r.requests[id].readOnly == q.requests[id].readOnly
      && (q.requests[id].status != Pending ==> r.requests[id].status == q.requests[id].status)
  }

  lemma NextQueueOk(s: System, e: Event)
    requires QueueOk(s.queue) && Enabled(s, e)
    ensures QueueOk(Next(s, e).queue)
  {
    match e
    case Request(p, ro, pid) => QueueOkKept(s.queue, p, ro, pid, "", "");
    case Approve(id) => QueueOkKept(s.queue, "", false, 0, id, "");
    case Deny(id, reason) => QueueOkKept(s.queue, "", false, 0, id, DenyReason(reason));
    case CloseAll => QueueOkKept(s.queue, "", false, 0, "", "");
    case Receive(h) => QueueOkKept(s.queue, "", false, 0, s.handlers[h].id, "");
    case Expose(_, _) =>
    case Operate(_) =>
  }

  lemma NextGrows(s: System, e: Event)
    requires QueueOk(s.queue) && Enabled(s, e)
    ensures Grows(s.queue, Next(s, e).queue) && QueueOk(Next(s, e).queue)
  {
    NextQueueOk(s, e);
    var q, r := s.queue, Next(s, e).queue;
    if e.Request? {
      FreshId(q);
    }
    forall id | id in q.requests
      ensures id in r.requests && r.requests[id].path == q.requests[id].path
      ensures r.requests[id].readOnly == q.requests[id].readOnly
      ensures q.requests[id].status != Pending ==> r.requests[id].status == q.requests[id].status
    {
    }
  }

  /** A handler that the event does not concern keeps its guarantee. */
  lemma HandlerKept(s: System, e: Event, i: nat)
    requires Inv(s) && Enabled(s, e) && i < |s.handlers|
    requires e.Receive? || e.Expose? ==> e.handler != i
    ensures HandlerOk(Next(s, e), s.handlers[i])
  {
    var h := s.handlers[i];
    if h.Waiting? {
      WaitingKept(s, e, i);
    } else {
      NextGrows(s, e);
      CallsGrow(s, e, h.id);
    }
  }

  lemma WaitingKept(s: System, e: Event, i: nat)
    requires Inv(s) && Enabled(s, e) && i < |s.handlers| && s.handlers[i].Waiting?
    requires e.Receive? ==> e.handler != i
    ensures HandlerOk(Next(s, e), s.handlers[i])
  {
    var h := s.handlers[i];
    assert h.id in s.queue.requests;
    match e
    case Request(p, ro, pid) => FreshId(s.queue);
    case Receive(g) =>
      if s.handlers[g].id == h.id {
        DistinctIds(s, g, i);
      }
    case _ =>
  }

  lemma CallsGrow(s: System, e: Event, id: string)
    requires Enabled(s, e)
    ensures MadeCall(s.calls, id) ==> MadeCall(Next(s, e).calls, id)
    ensures e.Expose? && s.handlers[e.handler].id == id ==> MadeCall(Next(s, e).calls, id)
  {
    var calls := Next(s, e).calls;
    if n :| 0 <= n < |s.calls| && s.calls[n].cause == ByRequest(id) {
      assert calls[n].cause == ByRequest(id);
    }
    if e.Expose? {
      assert calls[|s.calls|].cause == ByRequest(s.handlers[e.handler].id);
    }
  }

  lemma DistinctIds(s: System, i: nat, j: nat)
    requires Inv(s) && i < |s.handlers| && j < |s.handlers| && s.handlers[i].id == s.handlers[j].id
    ensures i == j
  {
    assert s.handlers[i].id == Decimal(i + 1) && s.handlers[j].id == Decimal(j + 1);
    DecimalInjective(i + 1, j + 1);
  }

  lemma InvInitial()
    ensures Inv(Initial)
  {
  }

  lemma HandlersNext(s: System, e: Event, i: nat)
    requires Inv(s) && Enabled(s, e) && i < |Next(s, e).handlers|
    ensures HandlerOk(Next(s, e), Next(s, e).handlers[i])
  {
    NextGrows(s, e);
    if i < |s.handlers| && !((e.Receive? || e.Expose?) && e.handler == i) {
      HandlerKept(s, e, i);
    } else if e.Receive? {
      assert s.handlers[i].id in s.queue.requests;
    } else if e.Expose? {
      CallsGrow(s, e, s.handlers[i].id);
    }
  }

  lemma InvNext(s: System, e: Event)
    requires Inv(s) && Enabled(s, e)
    ensures Inv(Next(s, e))
  {
    var t := Next(s, e);
    NextGrows(s, e);
    forall i | 0 <= i < |t.handlers|
      ensures HandlerOk(t, t.handlers[i])
    {
      HandlersNext(s, e, i);
    }
    IdsNext(s, e);
    CallsNext(s, e);
  }

  lemma IdsNext(s: System, e: Event)
    requires Inv(s) && Enabled(s, e)
    ensures var t := Next(s, e);
      && |t.handlers| == t.queue.sequence
      && (forall i {:trigger t.handlers[i]} :: 0 <= i < |t.handlers| ==> t.handlers[i].id == Decimal(i + 1))
  {
    var t := Next(s, e);
    forall i | 0 <= i < |t.handlers|
      ensures t.handlers[i].id == Decimal(i + 1)
    {
      assert i < |s.handlers| ==> t.handlers[i].id == s.handlers[i].id;
    }
  }

  lemma CallsNext(s: System, e: Event)
    requires Inv(s) && Enabled(s, e)
    ensures var t := Next(s, e);
      && (forall i {:trigger t.calls[i]} :: 0 <= i < |t.calls| ==> CallOk(t.queue, t.calls[i]))
      && (forall i, j :: 0 <= i < j < |t.calls| && t.calls[i].cause.ByRequest? ==> t.calls[i].cause != t.calls[j].cause)
      && (forall i, j :: 0 <= i < |t.handlers| && 0 <= j < |t.calls| && !t.handlers[i].Finished? ==>
            t.calls[j].cause != ByRequest(t.handlers[i].id))
  {
    var t := Next(s, e);
    NextGrows(s, e);
    forall i | 0 <= i < |t.calls|
      ensures CallOk(t.queue, t.calls[i])
    {
      if i < |s.calls| {
        assert CallOk(s.queue, s.calls[i]);
      } else if e.Expose? {
        assert HandlerOk(s, s.handlers[e.handler]);
      }
    }
    forall i, j | 0 <= i < |t.handlers| && 0 <= j < |t.calls| && !t.handlers[i].Finished?
      ensures t.calls[j].cause != ByRequest(t.handlers[i].id)
    {
      OpenHandlerNext(s, e, i, j);
    }
  }

  /** A handler that is not done has not called. */
  lemma OpenHandlerNext(s: System, e: Event, i: nat, j: nat)
    requires Inv(s) && Enabled(s, e)
    requires i < |Next(s, e).handlers| && j < |Next(s, e).calls| && !Next(s, e).handlers[i].Finished?
    ensures Next(s, e).calls[j].cause != ByRequest(Next(s, e).handlers[i].id)
  {
    if i == |s.handlers| {
      FreshId(s.queue);
      assert CallOk(s.queue, s.calls[j]);
    } else if j == |s.calls| && e.Expose? && s.handlers[e.handler].id == s.handlers[i].id {
      DistinctIds(s, e.handler, i);
    }
  }

  lemma {:induction false} ReachesInv(events: seq<Event>, s: System)
    requires Reaches(events, s)
    ensures Inv(s)
    decreases |events|
  {
    if events == [] {
      InvInitial();
    } else {
      var before :| Reaches(Front(events), before) && Enabled(before, Last(events)) && s == Next(before, Last(events));
      ReachesInv(Front(events), before);
      InvNext(before, Last(events));
    }
  }

  // ---------------------------------------------------------------- over all runs

  /** In no run does a resolve block on a full channel, hit a closed one, or close a channel twice. */
  lemma {:induction false} ResolveNeverBlocks(events: seq<Event>, s: System, id: string)
    requires Reaches(events, s) && ResolutionOf(s.queue, id) == Resolved
    ensures |s.queue.requests[id].buffer| < 1 && !s.queue.requests[id].closed
  {
    ReachesInv(events, s);
    assert id in s.queue.requests;
  }

  /** A waiting handler can go on exactly when its request is resolved: no wake-up is early or lost. */
  lemma WakesWhenResolved(events: seq<Event>, s: System, h: nat)
    requires Reaches(events, s) && h < |s.handlers| && s.handlers[h].Waiting?
    ensures s.handlers[h].id in s.queue.requests
    ensures Enabled(s, Receive(h)) <==> s.queue.requests[s.handlers[h].id].status != Pending
  {
    ReachesInv(events, s);
  }

  /** What Wait reports is what was decided. */
  lemma WaitTellsTheDecision(events: seq<Event>, s: System, h: nat)
    requires Reaches(events, s) && Enabled(s, Receive(h))
    ensures var r := s.queue.requests[s.handlers[h].id];
            && (Received(r).approved <==> r.status == Approved)
            && (r.status == Denied ==> Received(r).reason in {r.denialReason, ""})
  {
    ReachesInv(events, s);
    assert s.handlers[h].id in s.queue.requests;
  }

  lemma {:induction false} ReachesUnique(events: seq<Event>, s: System, t: System)
    requires Reaches(events, s) && Reaches(events, t)
    ensures s == t
    decreases |events|
  {
    if events != [] {
      var a :| Reaches(Front(events), a) && Enabled(a, Last(events)) && s == Next(a, Last(events));
      var b :| Reaches(Front(events), b) && Enabled(b, Last(events)) && t == Next(b, Last(events));
      ReachesUnique(Front(events), a, b);
    }
  }

  lemma GrowsTrans(p: QueueState, q: QueueState, r: QueueState)
    requires Grows(p, q) && Grows(q, r)
    ensures Grows(p, r)
  {
  }

  /** From any point of a run on, requests keep path and mode, and a decision once made is final. */
  lemma {:induction false} DecisionsAreFinal(events: seq<Event>, n: nat, early: System, late: System)
    requires n <= |events| && Reaches(events[..n], early) && Reaches(events, late)
    ensures Grows(early.queue, late.queue)
    decreases |events|
  {
    if n == |events| {
      assert events[..n] == events;
      ReachesUnique(events, early, late);
    } else {
      var e := Last(events);
      var before :| Reaches(Front(events), before) && Enabled(before, e) && late == Next(before, e);
      assert Front(events)[..n] == events[..n];
      DecisionsAreFinal(Front(events), n, early, before);
      ReachesInv(Front(events), before);
      NextGrows(before, Last(events));
      GrowsTrans(early.queue, before.queue, late.queue);
    }
  }

  /** A new request never takes the place of an old one. */
  lemma IdsNeverReused(events: seq<Event>, s: System, p: string, ro: bool, pid: int)
    requires Reaches(events, s)
    ensures var id := Decimal(s.queue.sequence + 1);
            && id !in s.queue.requests
            && AfterCreate(s.queue, p, ro, pid).requests.Keys == s.queue.requests.Keys + {id}
  {
    ReachesInv(events, s);
    FreshId(s.queue);
  }

  /**
   Shutdown leaves nobody behind: afterwards no request is pending, every handler that still waits can go
   on, and one whose request had not been decided finishes without a registry call.
   */
  lemma ShutdownReleasesAll(events: seq<Event>, s: System)
    requires Reaches(events, s)
    ensures var t := Next(s, CloseAll);
      && t.handlers == s.handlers && t.calls == s.calls && t.queue.requests.Keys == s.queue.requests.Keys
      && (forall id :: id in t.queue.requests ==> t.queue.requests[id].status != Pending)
      && (forall id :: id in t.queue.requests && s.queue.requests[id].status == Pending ==>
            t.queue.requests[id].status == Denied && t.queue.requests[id].denialReason == "Server shutdown")
      && (forall h :: 0 <= h < |t.handlers| && t.handlers[h].Waiting? ==> Enabled(t, Receive(h)))
      && (forall h {:trigger s.handlers[h]} :: 0 <= h < |t.handlers| && t.handlers[h].Waiting? ==>
            s.handlers[h].id in s.queue.requests &&
            (s.queue.requests[s.handlers[h].id].status == Pending ==> DeniedBy(t, h)))
  {
    var t := Next(s, CloseAll);
    ReachesInv(events, s);
    InvNext(s, CloseAll);
    forall h | 0 <= h < |t.handlers| && t.handlers[h].Waiting?
      ensures Enabled(t, Receive(h)) && s.handlers[h].id in s.queue.requests
      ensures s.queue.requests[s.handlers[h].id].status == Pending ==> DeniedBy(t, h)
    {
      assert HandlerOk(s, s.handlers[h]) && HandlerOk(t, t.handlers[h]);
    }
  }

  /** The handler's next step ends it, with no registry call. */
  ghost predicate DeniedBy(s: System, h: nat) {
    && Enabled(s, Receive(h))
    && Next(s, Receive(h)).handlers == s.handlers[h := Finished(s.handlers[h].id)]
    && Next(s, Receive(h)).calls == s.calls
  }

  /** A pending request that is denied ends its handler the same way. */
  lemma DenialEndsIt(events: seq<Event>, s: System, h: nat, reason: string)
    requires Reaches(events, s) && h < |s.handlers| && s.handlers[h].Waiting?
    requires ResolutionOf(s.queue, s.handlers[h].id) == Resolved
    ensures var t := Next(s, Deny(s.handlers[h].id, reason));
      && t.handlers == s.handlers && t.calls == s.calls && DeniedBy(t, h)
      && Received(t.queue.requests[s.handlers[h].id]).reason == if reason == "" then "Denied by user" else reason
  {
    ReachesInv(events, s);
    assert HandlerOk(s, s.handlers[h]);
  }

  /**
   A pending request that is approved can be received, and then called for: its path, in its mode, is exposed
   if it is absolute and on the host by then, and nothing changes otherwise.
   */
  lemma ApprovalLeadsToExposure(events: seq<Event>, s: System, h: nat, onHost: bool) returns (t: System)
    requires Reaches(events, s) && h < |s.handlers| && s.handlers[h].Waiting?
    requires ResolutionOf(s.queue, s.handlers[h].id) == Resolved
    ensures Reaches(events + [Approve(s.handlers[h].id)] + [Receive(h)] + [Expose(h, onHost)], t)
    ensures t.handlers == s.handlers[h := Finished(s.handlers[h].id)]
    ensures var w := s.handlers[h];
      ExposedAfter(t.calls) ==
        if IsAbs(w.path) && onHost then ExposedAfter(s.calls)[Components(w.path) := w.readOnly]
        else ExposedAfter(s.calls)
  {
    var w := s.handlers[h];
    var granted := GrantedNext(events, s, h);
    t := ExposedNext(events + [Approve(w.id)] + [Receive(h)], granted, h, w.id, w.path, w.readOnly, onHost);
    assert s.handlers[h := Granted(w.id, w.path, w.readOnly)][h := Finished(w.id)] == s.handlers[h := Finished(w.id)];
    LastCallAdds(s.calls, Call(ByRequest(w.id), Add(w.path, w.readOnly, onHost)));
  }

  /** The latest call exposes its path if that is absolute and on the host. */
  lemma LastCallAdds(calls: seq<Call>, call: Call)
    requires call.op.Add?
    ensures ExposedAfter(calls + [call]) ==
            if IsAbs(call.op.path) && call.op.onHost
            then ExposedAfter(calls)[Components(call.op.path) := call.op.readOnly] else ExposedAfter(calls)
  {
    var longer := calls + [call];
    CallAdds(longer, |calls|);
    assert longer[..|calls|] == calls && longer[..|calls| + 1] == longer;
  }

  lemma GrantedNext(events: seq<Event>, s: System, h: nat) returns (t: System)
    requires Reaches(events, s) && h < |s.handlers| && s.handlers[h].Waiting?
    requires ResolutionOf(s.queue, s.handlers[h].id) == Resolved
    ensures Reaches(events + [Approve(s.handlers[h].id)] + [Receive(h)], t) && t.calls == s.calls
    ensures var w := s.handlers[h]; t.handlers == s.handlers[h := Granted(w.id, w.path, w.readOnly)]
  {
    ReachesInv(events, s);
    assert HandlerOk(s, s.handlers[h]);
    var approved := Next(s, Approve(s.handlers[h].id));
    var run := Follow(events, s, Approve(s.handlers[h].id), approved);
    t := Next(approved, Receive(h));
    run := Follow(run, approved, Receive(h), t);
  }

  lemma ExposedNext(events: seq<Event>, s: System, h: nat, id: string, p: string, ro: bool, onHost: bool)
    returns (t: System)
    requires Reaches(events, s) && h < |s.handlers| && s.handlers[h] == Granted(id, p, ro)
    ensures Reaches(events + [Expose(h, onHost)], t) && t.handlers == s.handlers[h := Finished(id)]
    ensures t.calls == s.calls + [Call(ByRequest(id), Add(p, ro, onHost))]
  {
    t := Next(s, Expose(h, onHost));
    var run := Follow(events, s, Expose(h, onHost), t);
  }

  // ---------------------------------------------------------------- what led to a call

  function RequestsIn(events: seq<Event>): nat
    decreases |events|
  {
    if events == [] then 0 else RequestsIn(Front(events)) + if Last(events).Request? then 1 else 0
  }

  lemma {:induction false} SequenceCounts(events: seq<Event>, s: System)
    requires Reaches(events, s)
    ensures s.queue.sequence == RequestsIn(events)
    decreases |events|
  {
    if events != [] {
      var before :| Reaches(Front(events), before) && Enabled(before, Last(events)) && s == Next(before, Last(events));
      SequenceCounts(Front(events), before);
    }
  }

  /** Event i is the request that got this id, with that path and mode. */
  ghost predicate AskedAs(events: seq<Event>, i: int, id: string, p: string, ro: bool) {
    && 0 <= i < |events| && events[i].Request? && events[i].path == p && events[i].readOnly == ro
    && id == Decimal(RequestsIn(events[..i]) + 1)
  }

  ghost predicate PendingAfter(events: seq<Event>, id: string) {
    exists s :: Reaches(events, s) && ResolutionOf(s.queue, id) == Resolved
  }

  /** Event j approves the request while it is pending. */
  ghost predicate ApprovedBy(events: seq<Event>, j: int, id: string) {
    0 <= j < |events| && events[j] == Approve(id) && PendingAfter(events[..j], id)
  }

  ghost predicate AskedThenApproved(events: seq<Event>, id: string, p: string, ro: bool, i: int, j: int) {
    AskedAs(events, i, id, p, ro) && i < j && ApprovedBy(events, j, id)
  }

  /** A run that goes on keeps its history. */
  lemma HistoryKept(events: seq<Event>, id: string, p: string, ro: bool, i: int, j: int)
    requires events != []
    ensures AskedAs(Front(events), i, id, p, ro) ==> AskedAs(events, i, id, p, ro)
    ensures AskedThenApproved(Front(events), id, p, ro, i, j) ==> AskedThenApproved(events, id, p, ro, i, j)
  {
    if 0 <= i < |Front(events)| {
      assert Front(events)[..i] == events[..i];
    }
    if 0 <= j < |Front(events)| {
      assert Front(events)[..j] == events[..j];
    }
  }

  lemma {:induction false} RequestWasAsked(events: seq<Event>, s: System, id: string)
    requires Reaches(events, s) && id in s.queue.requests
    ensures exists i :: AskedAs(events, i, id, s.queue.requests[id].path, s.queue.requests[id].readOnly)
    decreases |events|
  {
    var before :| Reaches(Front(events), before) && Enabled(before, Last(events)) && s == Next(before, Last(events));
    ReachesInv(Front(events), before);
    NextGrows(before, Last(events));
    var r := s.queue.requests[id];
    if id in before.queue.requests {
      RequestWasAsked(Front(events), before, id);
      var i :| AskedAs(Front(events), i, id, r.path, r.readOnly);
      HistoryKept(events, id, r.path, r.readOnly, i, 0);
    } else {
      SequenceCounts(Front(events), before);
      assert events[..|events| - 1] == Front(events);
      assert AskedAs(events, |events| - 1, id, r.path, r.readOnly);
    }
  }

  lemma OnlyApproveApproves(s: System, e: Event, id: string)
    requires Inv(s) && Enabled(s, e)
    requires id in Next(s, e).queue.requests && Next(s, e).queue.requests[id].status == Approved
    ensures id in s.queue.requests
    ensures s.queue.requests[id].status == Approved || (e == Approve(id) && ResolutionOf(s.queue, id) == Resolved)
  {
  }

  /** An approved request got its id when it was asked for, with its path and mode, and was approved while pending. */
  lemma {:induction false} ApprovalHappened(events: seq<Event>, s: System, id: string, p: string, ro: bool)
    requires Reaches(events, s) && Authorized(s.queue, id, p, ro)
    ensures exists i, j :: AskedThenApproved(events, id, p, ro, i, j)
    decreases |events|
  {
    var front, e := Front(events), Last(events);
    var before :| Reaches(front, before) && Enabled(before, e) && s == Next(before, e);
    ReachesInv(front, before);
    NextGrows(before, e);
    OnlyApproveApproves(before, e, id);
    if before.queue.requests[id].status == Approved {
      ApprovalHappened(front, before, id, p, ro);
      var i, j :| AskedThenApproved(front, id, p, ro, i, j);
      HistoryKept(events, id, p, ro, i, j);
    } else {
      RequestWasAsked(front, before, id);
      var i :| AskedAs(front, i, id, p, ro);
      HistoryKept(events, id, p, ro, i, 0);
      assert events[..|events| - 1] == front;
      assert AskedThenApproved(events, id, p, ro, i, |events| - 1);
    }
  }

  /** Event x is the AddPath call of the handler whose request has this id. */
  ghost predicate CalledBy(events: seq<Event>, x: int, id: string, onHost: bool) {
    0 <= x < |events| && events[x].Expose? && events[x].onHost == onHost && id == Decimal(events[x].handler + 1)
  }

  /** Asked for, then approved, then called: the whole history of a registry call made for a request. */
  ghost predicate History(events: seq<Event>, call: Call, i: int, j: int, x: int)
    requires call.cause.ByRequest? && call.op.Add?
  {
    && AskedThenApproved(events, call.cause.id, call.op.path, call.op.readOnly, i, j)
    && j < x && CalledBy(events, x, call.cause.id, call.op.onHost)
  }

  lemma {:induction false} CallHasHistory(events: seq<Event>, s: System, n: nat)
    requires Reaches(events, s) && n < |s.calls| && s.calls[n].cause.ByRequest?
    ensures CallOk(s.queue, s.calls[n]) && exists i, j, x :: History(events, s.calls[n], i, j, x)
    decreases |events|
  {
    var front, e := Front(events), Last(events);
    var before :| Reaches(front, before) && Enabled(before, e) && s == Next(before, e);
    CallAuthorized(events, s, n);
    var call := s.calls[n];
    if n < |before.calls| {
      CallHasHistory(front, before, n);
      OldHistory(events, call);
    } else {
      NewHistory(events, before);
    }
  }

  lemma CallAuthorized(events: seq<Event>, s: System, n: nat)
    requires Reaches(events, s) && n < |s.calls|
    ensures CallOk(s.queue, s.calls[n])
  {
    ReachesInv(events, s);
  }

  lemma OldHistory(events: seq<Event>, call: Call)
    requires events != [] && call.cause.ByRequest? && call.op.Add?
    requires exists i, j, x :: History(Front(events), call, i, j, x)
    ensures exists i, j, x :: History(events, call, i, j, x)
  {
    var i, j, x :| History(Front(events), call, i, j, x);
    HistoryKept(events, call.cause.id, call.op.path, call.op.readOnly, i, j);
    CalledStill(events, x, call.cause.id, call.op.onHost);
    assert History(events, call, i, j, x);
  }

  lemma CalledStill(events: seq<Event>, x: int, id: string, onHost: bool)
    requires events != [] && CalledBy(Front(events), x, id, onHost)
    ensures CalledBy(events, x, id, onHost)
  {
    assert events[x] == Front(events)[x];
  }

  /** A call made by the last event, from the state before it. */
  lemma NewHistory(events: seq<Event>, before: System)
    requires events != [] && Reaches(Front(events), before) && Enabled(before, Last(events)) && Last(events).Expose?
    ensures var call := Last(Next(before, Last(events)).calls);
      call.cause.ByRequest? && call.op.Add? && exists i, j, x :: History(events, call, i, j, x)
  {
    var front, e := Front(events), Last(events);
    var g := before.handlers[e.handler];
    var call := Call(ByRequest(g.id), Add(g.path, g.readOnly, e.onHost));
    assert Authorized(before.queue, g.id, g.path, g.readOnly) && g.id == Decimal(e.handler + 1) by {
      ReachesInv(front, before);
    }
    ApprovalHappened(front, before, g.id, g.path, g.readOnly);
    var i, j :| AskedThenApproved(front, g.id, g.path, g.readOnly, i, j);
    HistoryKept(events, g.id, g.path, g.readOnly, i, j);
    assert CalledBy(events, |events| - 1, g.id, e.onHost);
    assert History(events, call, i, j, |events| - 1);
    assert Last(Next(before, e).calls) == call;
  }

  function Ops(calls: seq<Call>): (ops: seq<Op>)
    ensures |ops| == |calls| && forall i :: 0 <= i < |calls| ==> ops[i] == calls[i].op
  {
    seq(|calls|, i requires 0 <= i < |calls| => calls[i].op)
  }

  ghost function ExposedAfter(calls: seq<Call>): Modes {
    Replay(Effects(Ops(calls)))
  }

  /**
   Exposure needs approval. Whatever path the registry exposes after a run, with whatever mode, the
   call that put it there was the operator's, or that of an approved request for just that path and mode:
   the request that got this id when it was asked for was approved while pending, and the call came after.
   No request makes two calls.
   */
  lemma {:induction false} ExposureNeedsApproval(events: seq<Event>, s: System, k: Path)
    requires Reaches(events, s) && k in ExposedAfter(s.calls)
    ensures exists n :: ExposedByCall(events, s, k, n)
    ensures forall a, b :: 0 <= a < b < |s.calls| && s.calls[a].cause.ByRequest? ==>
              s.calls[a].cause != s.calls[b].cause
  {
    var n := LastCall(s.calls, k);
    ReachesInv(events, s);
    if s.calls[n].cause.ByRequest? {
      CallHasHistory(events, s, n);
    }
    assert ExposedByCall(events, s, k, n);
  }

  lemma LastCall(calls: seq<Call>, k: Path) returns (n: nat)
    requires k in ExposedAfter(calls)
    ensures n < |calls| && calls[n].op.Add? && Components(calls[n].op.path) == k
    ensures ExposedAfter(calls)[k] == calls[n].op.readOnly
  {
    var effects := Effects(Ops(calls));
    ExposedByLastCall(effects, k);
    n :| LastExposure(effects, k, n);
    assert effects[n] == EffectOf(calls[n].op);
  }

  /** Registry call n exposed k with the mode it has, and was allowed to. */
  ghost predicate ExposedByCall(events: seq<Event>, s: System, k: Path, n: int)
    requires k in ExposedAfter(s.calls)
  {
    && 0 <= n < |s.calls| && s.calls[n].op.Add? && Components(s.calls[n].op.path) == k
    && ExposedAfter(s.calls)[k] == s.calls[n].op.readOnly
    && (s.calls[n].cause.ByRequest? ==>
          && Authorized(s.queue, s.calls[n].cause.id, s.calls[n].op.path, s.calls[n].op.readOnly)
          && exists i, j, x :: History(events, s.calls[n], i, j, x))
  }

  // ---------------------------------------------------------------- approved is not yet exposed

  /** A request has made its registry call if and only if it is approved and its handler is done. */
  lemma CalledIffFinished(events: seq<Event>, s: System, h: nat)
    requires Reaches(events, s) && h < |s.handlers|
    ensures s.handlers[h].id in s.queue.requests
    ensures MadeCall(s.calls, s.handlers[h].id) <==>
            s.queue.requests[s.handlers[h].id].status == Approved && s.handlers[h].Finished?
  {
    ReachesInv(events, s);
    var id := s.handlers[h].id;
    assert HandlerOk(s, s.handlers[h]);
    if n :| 0 <= n < |s.calls| && s.calls[n].cause == ByRequest(id) {
      assert CallOk(s.queue, s.calls[n]);
    }
  }

  /** Call n exposes its path if that is absolute and on the host, and else changes nothing. */
  ghost predicate AddsIff(calls: seq<Call>, n: nat, onHost: bool)
    requires n < |calls| && calls[n].op.Add?
  {
    var op, before := calls[n].op, ExposedAfter(calls[..n]);
    ExposedAfter(calls[..n + 1]) ==
      if IsAbs(op.path) && onHost then before[Components(op.path) := op.readOnly] else before
  }

  /** That call exposes the path if and only if it is absolute and, at the handler's call, exists on the host. */
  lemma CallExposesIff(events: seq<Event>, s: System, n: nat)
    requires Reaches(events, s) && n < |s.calls| && s.calls[n].cause.ByRequest?
    ensures CallOk(s.queue, s.calls[n])
    ensures exists i, j, x :: History(events, s.calls[n], i, j, x) && AddsIff(s.calls, n, events[x].onHost)
  {
    CallHasHistory(events, s, n);
    CallAdds(s.calls, n);
    var i, j, x :| History(events, s.calls[n], i, j, x);
    assert s.calls[n].op.onHost == events[x].onHost;
  }

  lemma CallAdds(calls: seq<Call>, n: nat)
    requires n < |calls| && calls[n].op.Add?
    ensures AddsIff(calls, n, calls[n].op.onHost)
  {
    var ops := Ops(calls);
    assert Ops(calls[..n + 1]) == ops[..n + 1] && Ops(calls[..n]) == ops[..n];
    OneMore(ops, n);
  }

  lemma Follow(events: seq<Event>, s: System, e: Event, t: System) returns (events': seq<Event>)
    requires Reaches(events, s) && Enabled(s, e) && Next(s, e) == t
    ensures events' == events + [e] && Reaches(events', t)
  {
    events' := events + [e];
    assert Front(events') == events && Last(events') == e;
  }

  const ApprovedA := Queue.Request("/a", false, 7, Approved, "", [RequestResult(true, "")], false)

  /** The operator has been told that the path is exposed, and it is not: its handler has yet to call. */
  lemma ApprovedNotExposed() returns (s: System)
    ensures Reaches([Event.Request("/a", false, 7), Event.Approve("1")], s)
    ensures s == System(QueueState(1, map["1" := ApprovedA]), [Waiting("1", "/a", false)], [])
    ensures s.queue.requests["1"].status == Approved && ExposedAfter(s.calls) == map[]
  {
    var one := Queue.Request("/a", false, 7, Pending, "", [], false);
    var waiting := [Waiting("1", "/a", false)];
    var s1 := System(QueueState(1, map["1" := one]), waiting, []);
    assert Decimal(1) == "1";
    var run := Follow([], Initial, Event.Request("/a", false, 7), s1);
    assert one.buffer + [RequestResult(true, "")] == ApprovedA.buffer;
    assert s1.queue.requests["1" := ApprovedA] == map["1" := ApprovedA];
    s := System(QueueState(1, map["1" := ApprovedA]), waiting, []);
    assert AfterResolve(s1.queue, "1", Approved, "") == s.queue;
    run := Follow(run, s1, Event.Approve("1"), s);
    assert run == [Event.Request("/a", false, 7), Event.Approve("1")];
  }

  /** The same request, its approval received. */
  lemma ApprovalReceived() returns (s: System)
    ensures Reaches([Event.Request("/a", false, 7), Event.Approve("1"), Receive(0)], s)
    ensures s == System(QueueState(1, map["1" := ApprovedA.(buffer := [])]), [Granted("1", "/a", false)], [])
  {
    var before := ApprovedNotExposed();
    s := System(QueueState(1, map["1" := ApprovedA.(buffer := [])]), [Granted("1", "/a", false)], []);
    assert Tail(ApprovedA.buffer) == [];
    assert before.queue.requests["1" := ApprovedA.(buffer := [])] == s.queue.requests;
    assert AfterReceive(before.queue, "1") == s.queue;
    assert before.handlers[0 := Granted("1", "/a", false)] == s.handlers;
    var run := Follow([Event.Request("/a", false, 7), Event.Approve("1")], before, Receive(0), s);
    assert run == [Event.Request("/a", false, 7), Event.Approve("1"), Receive(0)];
  }

  /** Nor need it ever be: if the path is gone from the host by then, the handler's call fails. */
  lemma ApprovedNeverExposed() returns (s: System)
    ensures Reaches([Event.Request("/a", false, 7), Event.Approve("1"), Receive(0), Expose(0, false)], s)
    ensures s.queue.requests == map["1" := ApprovedA.(buffer := [])] && s.handlers == [Finished("1")]
    ensures ExposedAfter(s.calls) == map[]
  {
    var before := ApprovalReceived();
    s := System(before.queue, [Finished("1")], [Call(ByRequest("1"), Add("/a", false, false))]);
    LastCallFails(before, s);
    FailedCall(ByRequest("1"), "/a", false);
  }

  lemma LastCallFails(before: System, s: System)
    requires Reaches([Event.Request("/a", false, 7), Event.Approve("1"), Receive(0)], before)
    requires before.handlers == [Granted("1", "/a", false)] && before.calls == []
    requires s == System(before.queue, [Finished("1")], [Call(ByRequest("1"), Add("/a", false, false))])
    ensures Reaches([Event.Request("/a", false, 7), Event.Approve("1"), Receive(0), Expose(0, false)], s)
  {
    assert before.handlers[0 := Finished("1")] == s.handlers;
    var run := Follow([Event.Request("/a", false, 7), Event.Approve("1"), Receive(0)], before, Expose(0, false), s);
    assert run == [Event.Request("/a", false, 7), Event.Approve("1"), Receive(0), Expose(0, false)];
  }

  lemma FailedCall(cause: Cause, p: string, ro: bool)
    ensures ExposedAfter([Call(cause, Add(p, ro, false))]) == map[]
  {
    var calls := [Call(cause, Add(p, ro, false))];
    OneMore(Ops(calls), 0);
    assert Ops(calls)[..1] == Ops(calls) && Effects(Ops(calls)[..0]) == [];
  }
}
