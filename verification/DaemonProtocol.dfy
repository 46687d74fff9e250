/**
 The daemon as a whole: connection handlers, VM starts, VM exits and timer callbacks interleave in any
 order, each step being one critical section of the server or one visible action outside it.
 */
module DaemonProtocol {
  import opened Wrappers
  import opened IdleDaemon

  /** Accepted, but not counted in `inflight` yet; counted, perhaps holding a started VM; gone. */
  datatype Handler = Accepted | Counted(vm: Option<nat>) | Left

  /** Held: Start succeeded in that handler, not registered. Cleaned: supervise freed the slot, not yet deregistered. */
  datatype Phase = Held(handler: nat) | Running | Cleaned | Gone

  datatype Vm = Vm(slot: nat, phase: Phase)

  datatype System = System(core: Core, handlers: seq<Handler>, vms: seq<Vm>,
                           callbacks: set<nat>, expired: set<nat>, exitWanted: bool)

  datatype Event =
    | Accept
    | Enter(handler: nat)
    | Start(handler: nat, slot: nat)
    | Register(handler: nat)
    | Leave(handler: nat)
    | Exit(vm: nat)
    | Deregister(vm: nat)
    | Expire
    | OnIdleFire(timer: nat)
    | TriggerExit
    | Shutdown

  const Initial := System(Core(map[], 0, Some(0), 1, true), [], [], {}, {}, false)

  /** The slot store hands out a slot until the VM that has it is cleaned up. */
  predicate SlotTaken(vms: seq<Vm>, slot: nat) {
    exists v :: 0 <= v < |vms| && vms[v].slot == slot && Live(vms[v])
  }

  predicate Enabled(s: System, e: Event) {
    match e
    case Accept => s.core.listening
    case Enter(h) => h < |s.handlers| && s.handlers[h].Accepted?
    case Start(h, slot) => h < |s.handlers| && s.handlers[h] == Counted(None) && !SlotTaken(s.vms, slot)
    case Register(h) =>
      h < |s.handlers| && s.handlers[h].Counted? && s.handlers[h].vm.Some? && s.handlers[h].vm.value < |s.vms|
    case Leave(h) => h < |s.handlers| && s.handlers[h] == Counted(None)
    case Exit(v) => v < |s.vms| && s.vms[v].phase == Running
    case Deregister(v) => v < |s.vms| && s.vms[v].phase == Cleaned
    case Expire => s.core.timer.Some? && s.core.timer.value !in s.expired
    case OnIdleFire(t) => t in s.callbacks
    case TriggerExit => s.exitWanted
    case Shutdown => true
  }

  function Next(s: System, e: Event): System
    requires Enabled(s, e)
  {
    match e
    case Accept => s.(handlers := s.handlers + [Accepted])
    case Enter(h) =>
      s.(core := UpdateIdle(s.core.(inflight := s.core.inflight + 1)), handlers := s.handlers[h := Counted(None)])
    case Start(h, slot) =>
      s.(vms := s.vms + [Vm(slot, Held(h))], handlers := s.handlers[h := Counted(Some(|s.vms|))])
    case Register(h) =>
      var v := s.handlers[h].vm.value;
      s.(core := UpdateIdle(s.core.(vms := s.core.vms[s.vms[v].slot := v])),
         vms := s.vms[v := s.vms[v].(phase := Running)], handlers := s.handlers[h := Counted(None)])
    case Leave(h) =>
      s.(core := UpdateIdle(s.core.(inflight := s.core.inflight - 1)), handlers := s.handlers[h := Left])
    case Exit(v) => s.(vms := s.vms[v := s.vms[v].(phase := Cleaned)])
    case Deregister(v) =>
      s.(core := UpdateIdle(s.core.(vms := s.core.vms - {s.vms[v].slot})),
         vms := s.vms[v := s.vms[v].(phase := Gone)])
    case Expire => s.(callbacks := s.callbacks + {s.core.timer.value}, expired := s.expired + {s.core.timer.value})
    case OnIdleFire(t) => s.(callbacks := s.callbacks - {t}, exitWanted := s.exitWanted || IsIdle(s.core))
    case TriggerExit => s.(core := s.core.(listening := false))
    case Shutdown => s.(core := s.core.(listening := false))
  }

  /** The run of a sequence of events, if each is enabled when it happens. */
  function Run(events: seq<Event>): Option<System>
    decreases |events|
  {
    if events == [] then Some(Initial)
    else
      match Run(events[..|events| - 1])
      case None => None
      case Some(s) =>
        var e := events[|events| - 1];
        if Enabled(s, e) then Some(Next(s, e)) else None
  }

  lemma RunStep(events: seq<Event>)
    requires Run(events).Some? && events != []
    ensures var before := Run(events[..|events| - 1]);
            before.Some? && Enabled(before.value, events[|events| - 1]) &&
            Run(events).value == Next(before.value, events[|events| - 1])
  {
  }

  // ---------------------------------------------------------------- the invariant

  function CountedIn(handlers: seq<Handler>): nat {
    if handlers == [] then 0
    else CountedIn(handlers[..|handlers| - 1]) + (if handlers[|handlers| - 1].Counted? then 1 else 0)
  }

  lemma {:induction false} CountUpdate(handlers: seq<Handler>, i: nat, h: Handler)
    requires i < |handlers|
    ensures CountedIn(handlers[i := h]) ==
      CountedIn(handlers) - (if handlers[i].Counted? then 1 else 0) + (if h.Counted? then 1 else 0)
    decreases |handlers|
  {
    var n := |handlers| - 1;
    if i < n {
      assert handlers[i := h][..n] == handlers[..n][i := h];
      CountUpdate(handlers[..n], i, h);
    } else {
      assert handlers[i := h][..n] == handlers[..n];
    }
  }

  lemma CountAppend(handlers: seq<Handler>, h: Handler)
    ensures CountedIn(handlers + [h]) == CountedIn(handlers) + (if h.Counted? then 1 else 0)
  {
    assert (handlers + [h])[..|handlers|] == handlers;
  }

  lemma {:induction false} CountPositive(handlers: seq<Handler>, i: nat)
    requires i < |handlers| && handlers[i].Counted?
    ensures CountedIn(handlers) > 0
    decreases |handlers|
  {
    if i < |handlers| - 1 {
      CountPositive(handlers[..|handlers| - 1], i);
    }
  }

  /** A counted handler and the started VM it holds point at each other. */
  ghost predicate HandlerOk(s: System, h: nat) {
    h < |s.handlers| && s.handlers[h].Counted? && s.handlers[h].vm.Some? ==>
      s.handlers[h].vm.value < |s.vms| && s.vms[s.handlers[h].vm.value].phase == Held(h)
  }

  ghost predicate HeldOk(s: System, v: nat) {
    v < |s.vms| && s.vms[v].phase.Held? ==>
      s.vms[v].phase.handler < |s.handlers| && s.handlers[s.vms[v].phase.handler] == Counted(Some(v))
  }

  /** The VM registered under a slot is one with that slot that is not deregistered. */
  ghost predicate EntryOk(s: System, slot: nat) {
    slot in s.core.vms ==>
      && s.core.vms[slot] < |s.vms| && s.vms[s.core.vms[slot]].slot == slot
      && (s.vms[s.core.vms[slot]].phase == Running || s.vms[s.core.vms[slot]].phase == Cleaned)
  }

  /** Timers: armed exactly when idle, and an expired one either has its callback pending or led to an exit. */
  ghost predicate TimerOk(c: Core, callbacks: set<nat>, expired: set<nat>, exitWanted: bool) {
    && Armed(c)
    && (c.timer.Some? ==> c.timer.value < c.created)
    && (forall t :: t in expired ==> t < c.created)
    && callbacks <= expired
    && (c.timer.Some? && c.timer.value in expired ==> c.timer.value in callbacks || exitWanted)
  }

  ghost predicate SlotsOk(s: System) {
    forall v, w :: 0 <= v < w < |s.vms| && Live(s.vms[v]) && Live(s.vms[w]) ==> s.vms[v].slot != s.vms[w].slot
  }

  ghost predicate Inv(s: System) {
    && s.core.inflight == CountedIn(s.handlers)
    && TimerOk(s.core, s.callbacks, s.expired, s.exitWanted)
    && (forall h: nat {:trigger HandlerOk(s, h)} :: HandlerOk(s, h))
    && (forall v: nat {:trigger HeldOk(s, v)} :: HeldOk(s, v))
    && (forall slot: nat {:trigger EntryOk(s, slot)} :: EntryOk(s, slot))
    && SlotsOk(s)
  }

  predicate Live(vm: Vm) {
    vm.phase.Held? || vm.phase == Running
  }

  lemma InvInitial()
    ensures Inv(Initial)
  {
  }

  lemma InvNext(s: System, e: Event)
    requires Inv(s) && Enabled(s, e)
    ensures Inv(Next(s, e))
  {
    var t := Next(s, e);
    CountNext(s, e);
    TimerNext(s, e);
    forall h: nat
      ensures HandlerOk(t, h)
    {
      HandlerNext(s, e, h);
    }
    forall v: nat
      ensures HeldOk(t, v)
    {
      HeldNext(s, e, v);
    }
    forall slot: nat
      ensures EntryOk(t, slot)
    {
      EntryNext(s, e, slot);
    }
    SlotsNext(s, e);
  }

  lemma CountNext(s: System, e: Event)
    requires Inv(s) && Enabled(s, e)
    ensures Next(s, e).core.inflight == CountedIn(Next(s, e).handlers)
  {
    match e
    case Accept => CountAppend(s.handlers, Accepted);
    case Enter(h) => CountUpdate(s.handlers, h, Counted(None));
    case Start(h, slot) => CountUpdate(s.handlers, h, Counted(Some(|s.vms|)));
    case Register(h) => CountUpdate(s.handlers, h, Counted(None));
    case Leave(h) => CountUpdate(s.handlers, h, Left);
    case _ =>
  }

  lemma TimerNext(s: System, e: Event)
    requires Inv(s) && Enabled(s, e)
    ensures var t := Next(s, e); TimerOk(t.core, t.callbacks, t.expired, t.exitWanted)
  {
    match e
    case Enter(_) => UpdateTimer(s, s.core.(inflight := s.core.inflight + 1));
    case Leave(_) => UpdateTimer(s, s.core.(inflight := s.core.inflight - 1));
    case Register(h) =>
      var v := s.handlers[h].vm.value;
      UpdateTimer(s, s.core.(vms := s.core.vms[s.vms[v].slot := v]));
    case Deregister(v) => UpdateTimer(s, s.core.(vms := s.core.vms - {s.vms[v].slot}));
    case _ =>
  }

  /** Whatever happened to VMs and counter, updating the timer puts it right. */
  lemma UpdateTimer(s: System, c: Core)
    requires TimerOk(s.core, s.callbacks, s.expired, s.exitWanted)
    requires c.timer == s.core.timer && c.created == s.core.created
    ensures TimerOk(UpdateIdle(c), s.callbacks, s.expired, s.exitWanted)
  {
  }

  lemma HandlerNext(s: System, e: Event, h: nat)
    requires Inv(s) && Enabled(s, e)
    ensures HandlerOk(Next(s, e), h)
  {
    assert HandlerOk(s, h);
    if e.Register? {
      assert HandlerOk(s, e.handler);
    }
  }

  lemma HeldNext(s: System, e: Event, v: nat)
    requires Inv(s) && Enabled(s, e)
    ensures HeldOk(Next(s, e), v)
  {
    assert HeldOk(s, v);
    if e.Register? {
      assert HandlerOk(s, e.handler);
    }
  }

  lemma EntryNext(s: System, e: Event, slot: nat)
    requires Inv(s) && Enabled(s, e)
    ensures EntryOk(Next(s, e), slot)
  {
    assert EntryOk(s, slot);
    match e
    case Register(h) => EntryRegister(s, h, slot);
    case Deregister(v) => EntryKept(s, s.core.vms - {s.vms[v].slot}, v, Gone, slot);
    case Exit(v) => EntryKept(s, s.core.vms, v, Cleaned, slot);
    case _ =>
  }

  lemma EntryRegister(s: System, h: nat, slot: nat)
    requires Inv(s) && Enabled(s, Register(h))
    ensures EntryOk(Next(s, Register(h)), slot)
  {
    assert EntryOk(s, slot) && HandlerOk(s, h);
  }

  /** VM v moves on to its next phase; once it is deregistered, its slot has no entry. */
  lemma EntryKept(s: System, entries: map<nat, nat>, v: nat, phase: Phase, slot: nat)
    requires EntryOk(s, slot) && v < |s.vms|
    requires entries == if phase == Gone then s.core.vms - {s.vms[v].slot} else s.core.vms
    requires phase == Gone || phase == Cleaned
    ensures slot in entries ==>
      var vms := s.vms[v := s.vms[v].(phase := phase)];
      && slot in s.core.vms && entries[slot] < |vms|
      && vms[entries[slot]].slot == slot && vms[entries[slot]].phase in {Running, Cleaned}
  {
  }

  lemma SlotsNext(s: System, e: Event)
    requires Inv(s) && Enabled(s, e)
    ensures SlotsOk(Next(s, e))
  {
    if e.Register? {
      assert HandlerOk(s, e.handler);
    }
  }

  lemma {:induction false} RunInv(events: seq<Event>)
    requires Run(events).Some?
    ensures Inv(Run(events).value)
    decreases |events|
  {
    if events == [] {
      InvInitial();
    } else {
      RunStep(events);
      RunInv(events[..|events| - 1]);
      InvNext(Run(events[..|events| - 1]).value, events[|events| - 1]);
    }
  }

  // ---------------------------------------------------------------- every VM is accounted for

  /** Every VM from its registration to its deregistration is in the server's map. */
  ghost predicate Accounted(s: System) {
    forall v {:trigger s.vms[v]} :: 0 <= v < |s.vms| && (s.vms[v].phase == Running || s.vms[v].phase == Cleaned) ==>
      s.vms[v].slot in s.core.vms && s.core.vms[s.vms[v].slot] == v
  }

  /** A registration that finds its slot still in the map. */
  predicate ReusesSlot(s: System, e: Event)
    requires Enabled(s, e)
  {
    e.Register? && s.vms[s.handlers[e.handler].vm.value].slot in s.core.vms
  }

  /** No registration of the run finds its slot in the map. */
  ghost predicate NoReuse(events: seq<Event>)
    requires Run(events).Some?
    decreases |events|
  {
    events == [] || (
      RunStep(events);
      var before := Run(events[..|events| - 1]).value;
      NoReuse(events[..|events| - 1]) && !ReusesSlot(before, events[|events| - 1]))
  }

  /** Every state of the run, the last one included, accounts for all its VMs. */
  ghost predicate AlwaysAccounted(events: seq<Event>)
    requires Run(events).Some?
    decreases |events|
  {
    && Accounted(Run(events).value)
    && (events == [] || (RunStep(events); AlwaysAccounted(events[..|events| - 1])))
  }

  /** One step keeps the books straight exactly when it does not register over an existing entry. */
  lemma AccountedNext(s: System, e: Event)
    requires Inv(s) && Enabled(s, e) && Accounted(s)
    ensures Accounted(Next(s, e)) <==> !ReusesSlot(s, e)
  {
    var t := Next(s, e);
    if e.Register? {
      assert HandlerOk(s, e.handler);
      var v := s.handlers[e.handler].vm.value;
      assert EntryOk(s, s.vms[v].slot);
      if ReusesSlot(s, e) {
        var w := s.core.vms[s.vms[v].slot];
        assert w != v && t.vms[w] == s.vms[w];
      }
    }
  }

  /** The daemon accounts for every VM throughout a run if and only if no start re-registers a slot. */
  lemma {:induction false} AccountedIffNoReuse(events: seq<Event>)
    requires Run(events).Some?
    ensures AlwaysAccounted(events) <==> NoReuse(events)
    decreases |events|
  {
    if events != [] {
      RunStep(events);
      var before := events[..|events| - 1];
      AccountedIffNoReuse(before);
      RunInv(before);
      if AlwaysAccounted(before) {
        LastAccounted(before);
        AccountedNext(Run(before).value, events[|events| - 1]);
      }
    }
  }

  lemma LastAccounted(events: seq<Event>)
    requires Run(events).Some? && AlwaysAccounted(events)
    ensures Accounted(Run(events).value)
  {
  }

  /** Slot reuse happens only while supervise is between freeing the slot and deleting the map entry. */
  lemma ReuseOnlyInWindow(events: seq<Event>, e: Event)
    requires Run(events).Some? && Enabled(Run(events).value, e) && ReusesSlot(Run(events).value, e)
    ensures var s := Run(events).value;
            var previous := s.core.vms[s.vms[s.handlers[e.handler].vm.value].slot];
            previous < |s.vms| && s.vms[previous].phase == Cleaned
  {
    RunInv(events);
    var s := Run(events).value;
    assert HandlerOk(s, e.handler);
    var v := s.handlers[e.handler].vm.value;
    assert EntryOk(s, s.vms[v].slot);
    assert SlotsOk(s);
  }

  // ---------------------------------------------------------------- idle exit

  /** The timer is armed exactly when idle, and `inflight` is the number of counted handlers. */
  lemma ArmedIffIdle(events: seq<Event>)
    requires Run(events).Some?
    ensures var s := Run(events).value;
            && (s.core.timer.Some? <==> |s.core.vms| == 0 && CountedIn(s.handlers) == 0)
            && s.core.inflight == CountedIn(s.handlers)
  {
    RunInv(events);
  }

  lemma MapNotEmpty(s: System, v: nat)
    requires Accounted(s) && v < |s.vms| && (s.vms[v].phase == Running || s.vms[v].phase == Cleaned)
    ensures |s.core.vms| > 0
  {
    assert s.vms[v].slot in s.core.vms;
  }

  /** When an accounting server is idle, no VM is between its start and its deregistration. */
  lemma IdleMeansNoVm(events: seq<Event>, v: nat)
    requires Run(events).Some? && NoReuse(events)
    requires IsIdle(Run(events).value.core) && v < |Run(events).value.vms|
    ensures Run(events).value.vms[v].phase == Gone
  {
    RunInv(events);
    AccountedIffNoReuse(events);
    LastAccounted(events);
    var s := Run(events).value;
    if s.vms[v].phase.Held? {
      assert HeldOk(s, v);
      CountPositive(s.handlers, s.vms[v].phase.handler);
    } else if s.vms[v].phase != Gone {
      MapNotEmpty(s, v);
    }
  }

  /** An idle server is on its way out: its timer runs, or its callback is due, or the exit is wanted. */
  lemma IdleLeadsToExit(events: seq<Event>)
    requires Run(events).Some? && IsIdle(Run(events).value.core)
    ensures var s := Run(events).value;
            && s.core.timer.Some?
            && (Enabled(s, Expire) || Enabled(s, OnIdleFire(s.core.timer.value)) || Enabled(s, TriggerExit))
            && (Enabled(s, OnIdleFire(s.core.timer.value)) ==> Next(s, OnIdleFire(s.core.timer.value)).exitWanted)
  {
    RunInv(events);
  }

  /** Event i of the run is a callback that sees the server idle. */
  ghost predicate SawIdle(events: seq<Event>, i: int) {
    0 <= i < |events| && events[i].OnIdleFire? && Run(events[..i]).Some? && IsIdle(Run(events[..i]).value.core)
  }

  ghost predicate AllGone(s: System) {
    forall v :: 0 <= v < |s.vms| ==> s.vms[v].phase == Gone
  }

  lemma {:induction false} WantedMeansSawIdle(events: seq<Event>)
    requires Run(events).Some? && Run(events).value.exitWanted
    ensures exists i :: SawIdle(events, i)
    decreases |events|
  {
    RunStep(events);
    var n := |events| - 1;
    var before := Run(events[..n]).value;
    if before.exitWanted {
      WantedMeansSawIdle(events[..n]);
      var i :| SawIdle(events[..n], i);
      assert events[..n][..i] == events[..i];
      assert SawIdle(events, i);
    } else {
      assert SawIdle(events, n);
    }
  }

  lemma {:induction false} RunPrefix(events: seq<Event>, n: nat)
    requires Run(events).Some? && n <= |events|
    ensures Run(events[..n]).Some? && (NoReuse(events) ==> NoReuse(events[..n]))
    decreases |events|
  {
    if n == |events| {
      assert events[..n] == events;
    } else {
      RunStep(events);
      assert events[..|events| - 1][..n] == events[..n];
      RunPrefix(events[..|events| - 1], n);
    }
  }

  /**
   Without a shutdown request the listener is closed only after a callback saw the server idle under its
   lock, and if no slot was reused, no VM existed at that moment.
   */
  lemma {:induction false} ClosedOnlyAfterIdle(events: seq<Event>)
    requires Run(events).Some?
    ensures !Run(events).value.core.listening && Shutdown !in events ==>
      exists i :: SawIdle(events, i) && (NoReuse(events) ==> AllGone(Run(events[..i]).value))
  {
    ClosedMeansWanted(events);
    if !Run(events).value.core.listening && Shutdown !in events {
      WantedMeansSawIdle(events);
      var i :| SawIdle(events, i);
      RunPrefix(events, i);
      if NoReuse(events) {
        forall v | 0 <= v < |Run(events[..i]).value.vms|
          ensures Run(events[..i]).value.vms[v].phase == Gone
        {
          IdleMeansNoVm(events[..i], v);
        }
        assert AllGone(Run(events[..i]).value);
      }
      assert SawIdle(events, i);
    }
  }

  lemma {:induction false} ClosedMeansWanted(events: seq<Event>)
    requires Run(events).Some?
    ensures !Run(events).value.core.listening && Shutdown !in events ==> Run(events).value.exitWanted
    decreases |events|
  {
    if events != [] {
      RunStep(events);
      ClosedMeansWanted(events[..|events| - 1]);
    }
  }

  predicate Closes(e: Event) {
    e == Event.TriggerExit || e == Shutdown
  }

  /** The listener is closed if and only if an exit or a shutdown has happened, and accepts nothing from then on. */
  lemma {:induction false} ClosedForGood(events: seq<Event>)
    requires Run(events).Some?
    ensures Run(events).value.core.listening <==> forall i :: 0 <= i < |events| ==> !Closes(events[i])
    ensures forall i, j :: 0 <= i < j < |events| && Closes(events[i]) ==> events[j] != Accept
    decreases |events|
  {
    if events != [] {
      RunStep(events);
      var front, e := events[..|events| - 1], events[|events| - 1];
      ClosedForGood(front);
      ListeningNext(Run(front).value, e);
      assert events == front + [e];
      forall i, j | 0 <= i < j < |events| && Closes(events[i])
        ensures events[j] != Accept
      {
        assert events[i] == front[i] && (j < |front| ==> events[j] == front[j]);
      }
    }
  }

  lemma ListeningNext(s: System, e: Event)
    requires Enabled(s, e)
    ensures Next(s, e).core.listening <==> s.core.listening && !Closes(e)
    ensures e == Accept ==> s.core.listening
  {
    match e
    case Enter(_) => ListeningUpdate(s.core.(inflight := s.core.inflight + 1));
    case Leave(_) => ListeningUpdate(s.core.(inflight := s.core.inflight - 1));
    case Register(h) =>
      var v := s.handlers[h].vm.value;
      ListeningUpdate(s.core.(vms := s.core.vms[s.vms[v].slot := v]));
    case Deregister(v) => ListeningUpdate(s.core.(vms := s.core.vms - {s.vms[v].slot}));
    case _ =>
  }

  lemma ListeningUpdate(c: Core)
    ensures UpdateIdle(c).listening == c.listening
  {
  }

  /** Only a counted connection can end idleness, or stop the timer that is armed. */
  lemma IdleStep(s: System, e: Event)
    requires Inv(s) && Enabled(s, e) && IsIdle(s.core) && !e.Enter?
    ensures IsIdle(Next(s, e).core) && Next(s, e).core.timer == s.core.timer && !ReusesSlot(s, e)
  {
    if e.Start? || e.Register? || e.Leave? {
      CountPositive(s.handlers, e.handler);
    } else {
      assert s.core.vms == map[];
    }
  }

  /** After the first n events the server is idle. */
  ghost predicate IdleAfter(events: seq<Event>, n: int) {
    0 <= n <= |events| && Run(events[..n]).Some? && IsIdle(Run(events[..n]).value.core)
  }

  /** As long as no further connection is counted, an idle server stays idle. */
  lemma {:induction false} IdleUntilEnter(events: seq<Event>, n: nat)
    requires Run(events).Some? && IdleAfter(events, n) && forall i :: n <= i < |events| ==> !events[i].Enter?
    ensures IsIdle(Run(events).value.core) && (NoReuse(events[..n]) ==> NoReuse(events))
    decreases |events|
  {
    if n == |events| {
      assert events[..n] == events;
    } else {
      RunStep(events);
      var front := events[..|events| - 1];
      assert front[..n] == events[..n];
      IdleUntilEnter(front, n);
      RunInv(front);
      IdleStep(Run(front).value, events[|events| - 1]);
    }
  }

  /** The idle state that a callback saw lasts, until the listener is closed or longer, if and only if no
      connection is counted in between. */
  lemma {:induction false} StaysIdleIffNoEnter(events: seq<Event>, n: nat)
    requires Run(events).Some? && IdleAfter(events, n)
    ensures (forall j :: n <= j <= |events| ==> IdleAfter(events, j)) <==>
            (forall i :: n <= i < |events| ==> !events[i].Enter?)
  {
    if i :| n <= i < |events| && events[i].Enter? {
      EnterEndsIdle(events, i);
    } else {
      forall j | n <= j <= |events|
        ensures IdleAfter(events, j)
      {
        IdleSoFar(events, n, j);
      }
    }
  }

  lemma EnterEndsIdle(events: seq<Event>, i: nat)
    requires Run(events).Some? && i < |events| && events[i].Enter?
    ensures !IdleAfter(events, i + 1)
  {
    var upTo := events[..i + 1];
    RunPrefix(events, i + 1);
    assert upTo[..i] == events[..i];
    RunStep(upTo);
    RunInv(events[..i]);
  }

  lemma IdleSoFar(events: seq<Event>, n: nat, j: nat)
    requires Run(events).Some? && IdleAfter(events, n) && n <= j <= |events|
    requires forall i :: n <= i < |events| ==> !events[i].Enter?
    ensures IdleAfter(events, j)
  {
    RunPrefix(events, j);
    assert events[..j][..n] == events[..n];
    IdleUntilEnter(events[..j], n);
  }

  /** If no connection was counted since a callback saw an accounting server idle, no VM exists now. */
  lemma {:induction false} NoVmUntilEnter(events: seq<Event>, n: nat)
    requires Run(events).Some? && IdleAfter(events, n) && NoReuse(events[..n])
    requires forall i :: n <= i < |events| ==> !events[i].Enter?
    ensures AllGone(Run(events).value)
  {
    IdleUntilEnter(events, n);
    forall v | 0 <= v < |Run(events).value.vms|
      ensures Run(events).value.vms[v].phase == Gone
    {
      IdleMeansNoVm(events, v);
    }
  }

  // ---------------------------------------------------------------- late callbacks

  /** Event x of the run is the expiry of timer t. */
  ghost predicate ExpiredAt(events: seq<Event>, x: int, t: nat) {
    0 <= x < |events| && events[x] == Expire && Run(events[..x]).Some? && Run(events[..x]).value.core.timer == Some(t)
  }

  ghost predicate EnteredSince(events: seq<Event>, x: nat) {
    exists i :: x < i < |events| && events[i].Enter?
  }

  /** Timer t has expired: it is still the armed one, or a connection was counted since and it is an old one. */
  ghost predicate Since(c: Core, t: nat, entered: bool) {
    && t < c.created
    && (if entered then c.timer.None? || c.timer.value > t else IsIdle(c) && c.timer == Some(t))
  }

  lemma SinceNext(s: System, e: Event, t: nat, entered: bool)
    requires Inv(s) && Enabled(s, e) && Since(s.core, t, entered)
    ensures Since(Next(s, e).core, t, entered || e.Enter?)
  {
    if !entered && !e.Enter? {
      IdleStep(s, e);
    }
  }

  /** An expired timer stays the armed one until a connection is counted; from then on it is an old one. */
  lemma {:induction false} TimerSince(events: seq<Event>, x: nat, t: nat)
    requires Run(events).Some? && ExpiredAt(events, x, t)
    ensures Since(Run(events).value.core, t, EnteredSince(events, x))
    decreases |events|
  {
    RunStep(events);
    var front, e := events[..|events| - 1], events[|events| - 1];
    RunInv(front);
    if x == |front| {
      JustExpired(Run(front).value, t);
    } else {
      assert ExpiredAt(front, x, t) by {
        assert front[..x] == events[..x];
      }
      TimerSince(front, x, t);
      SinceNext(Run(front).value, e, t, EnteredSince(front, x));
      OneMoreEvent(events, x);
    }
  }

  lemma JustExpired(s: System, t: nat)
    requires Inv(s) && Enabled(s, Expire) && s.core.timer == Some(t)
    ensures Since(Next(s, Expire).core, t, false)
  {
  }

  lemma OneMoreEvent(events: seq<Event>, x: nat)
    requires x < |events| - 1
    ensures EnteredSince(events, x) <==> EnteredSince(events[..|events| - 1], x) || events[|events| - 1].Enter?
  {
    var front := events[..|events| - 1];
    if i :| x < i < |front| && front[i].Enter? {
      assert events[i].Enter?;
    }
    if i :| x < i < |events| && events[i].Enter? {
      assert i < |front| ==> front[i].Enter?;
    }
  }

  /**
   A callback that decides the exit belongs to an earlier timer than the one now armed if and only if a
   connection was counted between its expiry and now: stopping a timer does not stop its callback.
   */
  lemma LateCallbackIffEntered(events: seq<Event>, x: nat, t: nat)
    requires Run(events).Some? && ExpiredAt(events, x, t) && IsIdle(Run(events).value.core)
    ensures Run(events).value.core.timer.Some?
    ensures Run(events).value.core.timer.value != t <==> EnteredSince(events, x)
  {
    RunInv(events);
    TimerSince(events, x, t);
  }

  // ---------------------------------------------------------------- three runs that go wrong

  /** A listening server; `due` are the timers that have expired and whose callbacks are pending. */
  function Listening(vms: map<nat, nat>, inflight: int, timer: Option<nat>, created: nat,
                     handlers: seq<Handler>, machines: seq<Vm>, due: set<nat>): System
  {
    System(Core(vms, inflight, timer, created, true), handlers, machines, due, due, false)
  }

  lemma Step(run: seq<Event>, s: System, e: Event, t: System) returns (run': seq<Event>, s': System)
    requires Run(run) == Some(s) && Enabled(s, e) && Next(s, e) == t
    ensures run' == run + [e] && s' == t && Run(run') == Some(t)
    ensures NoReuse(run') <==> NoReuse(run) && !ReusesSlot(s, e)
    ensures Shutdown in run' <==> Shutdown in run || e == Shutdown
  {
    run', s' := run + [e], t;
    assert run'[..|run|] == run;
  }

  /** A first VM is started. */
  lemma FirstStart() returns (run: seq<Event>, s: System)
    ensures Run(run) == Some(s) && Shutdown !in run
    ensures s == Listening(map[], 1, None, 1, [Counted(Some(0))], [Vm(1, Held(0))], {})
  {
    run, s := [], Initial;
    run, s := Step(run, s, Accept, Listening(map[], 0, Some(0), 1, [Accepted], [], {}));
    run, s := Step(run, s, Enter(0), Listening(map[], 1, None, 1, [Counted(None)], [], {}));
    run, s := Step(run, s, Start(0, 1), Listening(map[], 1, None, 1, [Counted(Some(0))], [Vm(1, Held(0))], {}));
  }

  /** And registered. */
  lemma FirstVm() returns (run: seq<Event>, s: System)
    ensures Run(run) == Some(s) && Shutdown !in run
    ensures s == Listening(map[1 := 0], 1, None, 1, [Counted(None)], [Vm(1, Running)], {})
  {
    run, s := FirstStart();
    run, s := Step(run, s, Register(0), Listening(map[1 := 0], 1, None, 1, [Counted(None)], [Vm(1, Running)], {}));
  }

  /** Its process has ended and its slot is free again. */
  lemma SlotFreed() returns (run: seq<Event>, s: System)
    ensures Run(run) == Some(s) && Shutdown !in run
    ensures s == Listening(map[1 := 0], 1, None, 1, [Left, Counted(None)], [Vm(1, Cleaned)], {})
  {
    var left := [Left, Accepted];
    run, s := FirstVm();
    run, s := Step(run, s, Leave(0), Listening(map[1 := 0], 0, None, 1, [Left], [Vm(1, Running)], {}));
    run, s := Step(run, s, Exit(0), Listening(map[1 := 0], 0, None, 1, [Left], [Vm(1, Cleaned)], {}));
    run, s := Step(run, s, Accept, Listening(map[1 := 0], 0, None, 1, left, [Vm(1, Cleaned)], {}));
    run, s := Step(run, s, Enter(1), Listening(map[1 := 0], 1, None, 1, [Left, Counted(None)], [Vm(1, Cleaned)], {}));
  }

  /** A second VM is registered in that slot before the first one's entry is deleted. */
  lemma SlotTakenOver() returns (run: seq<Event>, s: System)
    ensures Run(run) == Some(s) && Shutdown !in run
    ensures s == Listening(map[1 := 1], 0, None, 1, [Left, Left], [Vm(1, Cleaned), Vm(1, Running)], {})
  {
    var held, running := [Vm(1, Cleaned), Vm(1, Held(1))], [Vm(1, Cleaned), Vm(1, Running)];
    run, s := SlotFreed();
    run, s := Step(run, s, Start(1, 1), Listening(map[1 := 0], 1, None, 1, [Left, Counted(Some(1))], held, {}));
    run, s := Step(run, s, Register(1), Listening(map[1 := 1], 1, None, 1, [Left, Counted(None)], running, {}));
    run, s := Step(run, s, Leave(1), Listening(map[1 := 1], 0, None, 1, [Left, Left], running, {}));
  }

  /**
   A VM starts in a slot whose supervisor has freed it but not deleted the map entry yet: the late
   delete takes the new VM off the books, and the idle daemon closes its listener while it runs.
   */
  lemma ReusedSlotIsForgotten() returns (run: seq<Event>, s: System)
    ensures Run(run) == Some(s) && Shutdown !in run
    ensures !s.core.listening && s.vms == [Vm(1, Gone), Vm(1, Running)] && s.core.vms == map[]
  {
    var left, machines := [Left, Left], [Vm(1, Gone), Vm(1, Running)];
    run, s := SlotTakenOver();
    run, s := Step(run, s, Deregister(0), Listening(map[], 0, Some(1), 2, left, machines, {}));
    run, s := Step(run, s, Expire, Listening(map[], 0, Some(1), 2, left, machines, {1}));
    run, s := Step(run, s, OnIdleFire(1), System(Core(map[], 0, Some(1), 2, true), left, machines, {}, {1}, true));
    run, s := Step(run, s, TriggerExit, System(Core(map[], 0, Some(1), 2, false), left, machines, {}, {1}, true));
  }

  /** A callback saw the server idle. */
  lemma SeenIdle() returns (run: seq<Event>, s: System)
    ensures Run(run) == Some(s) && Shutdown !in run && NoReuse(run)
    ensures s == System(Core(map[], 0, Some(0), 1, true), [], [], {}, {0}, true)
  {
    run, s := [], Initial;
    run, s := Step(run, s, Expire, Listening(map[], 0, Some(0), 1, [], [], {0}));
    run, s := Step(run, s, OnIdleFire(0), System(Core(map[], 0, Some(0), 1, true), [], [], {}, {0}, true));
  }

  /** Then a connection is counted. */
  lemma EnteredDuringExit() returns (run: seq<Event>, s: System)
    ensures Run(run) == Some(s) && Shutdown !in run && NoReuse(run)
    ensures s == System(Core(map[], 1, None, 1, true), [Counted(None)], [], {}, {0}, true)
  {
    run, s := SeenIdle();
    run, s := Step(run, s, Accept, s.(handlers := [Accepted]));
    run, s := Step(run, s, Enter(0), System(Core(map[], 1, None, 1, true), [Counted(None)], [], {}, {0}, true));
  }

  /**
   The idle test and the closing of the listener are not one step: a connection that is accepted in
   between can start a VM, although no slot is reused.
   */
  lemma StartDuringIdleExit() returns (run: seq<Event>, s: System)
    ensures Run(run) == Some(s) && Shutdown !in run && NoReuse(run)
    ensures !s.core.listening && s.vms == [Vm(1, Running)] && s.core.vms == map[1 := 0]
  {
    var core := Core(map[1 := 0], 1, None, 1, true);
    run, s := EnteredDuringExit();
    run, s := Step(run, s, Start(0, 1), s.(handlers := [Counted(Some(0))], vms := [Vm(1, Held(0))]));
    run, s := Step(run, s, Register(0), System(core, [Counted(None)], [Vm(1, Running)], {}, {0}, true));
    run, s := Step(run, s, TriggerExit, s.(core := core.(listening := false)));
  }

  /**
   The callback of a timer that was stopped too late decides the exit although the timer armed since has
   not expired.
   */
  lemma LateCallbackDecides() returns (run: seq<Event>, s: System)
    ensures Run(run) == Some(s) && Shutdown !in run && NoReuse(run)
    ensures s.exitWanted && s.core.timer == Some(1) && s.expired == {0}
  {
    run, s := StoppedTooLate();
    run, s := Step(run, s, Leave(0), Listening(map[], 0, Some(1), 2, [Left], [], {0}));
    run, s := Step(run, s, OnIdleFire(0), System(Core(map[], 0, Some(1), 2, true), [Left], [], {}, {0}, true));
  }

  /** The first timer has expired before a connection stopped it. */
  lemma StoppedTooLate() returns (run: seq<Event>, s: System)
    ensures Run(run) == Some(s) && Shutdown !in run && NoReuse(run)
    ensures s == Listening(map[], 1, None, 1, [Counted(None)], [], {0})
  {
    run, s := [], Initial;
    run, s := Step(run, s, Accept, Listening(map[], 0, Some(0), 1, [Accepted], [], {}));
    run, s := Step(run, s, Expire, Listening(map[], 0, Some(0), 1, [Accepted], [], {0}));
    run, s := Step(run, s, Enter(0), Listening(map[], 1, None, 1, [Counted(None)], [], {0}));
  }
}
