/**
 internal/daemon/server.go: the fields guarded by the server's mutex, and the operations that run
 under it. Timers are numbered in the order in which time.AfterFunc creates them.
 */
module IdleDaemon {
  import opened Wrappers

  /** Slot -> VM, in-flight requests, the armed idle timer, how many timers were created, the listener. */
  datatype Core = Core(vms: map<nat, nat>, inflight: int, timer: Option<nat>, created: nat, listening: bool)

  predicate IsIdle(c: Core) {
    |c.vms| == 0 && c.inflight == 0
  }

  /** The timer is armed exactly when the server is idle. */
  predicate Armed(c: Core) {
    c.timer.Some? <==> IsIdle(c)
  }

  function UpdateIdle(c: Core): Core {
    if IsIdle(c) then
      if c.timer == None then c.(timer := Some(c.created), created := c.created + 1) else c
    else
      c.(timer := None)
  }

  class Server {
    var vms: map<nat, nat>
    var inflight: int
    var idleTimer: Option<nat>
    var timersCreated: nat
    var listening: bool

    function View(): Core
      reads this
    {
      Core(vms, inflight, idleTimer, timersCreated, listening)
    }

    /** NewServer, and Run's first arming of the timer before it serves. */
    constructor ()
      ensures View() == Core(map[], 0, Some(0), 1, true) && Armed(View())
    {
      vms, inflight, idleTimer, timersCreated, listening := map[], 0, None, 0, true;
      new;
      UpdateIdleLocked();
    }

    method UpdateIdleLocked()
      modifies this
      ensures View() == UpdateIdle(old(View())) && Armed(View())
      ensures vms == old(vms) && inflight == old(inflight) && listening == old(listening)
      ensures idleTimer.Some? <==> vms == map[] && inflight == 0
      ensures if idleTimer.Some? && old(idleTimer) == None then
                idleTimer == Some(old(timersCreated)) && timersCreated == old(timersCreated) + 1
              else
                timersCreated == old(timersCreated) && (idleTimer == None || idleTimer == old(idleTimer))
    {
      var idle := |vms| == 0 && inflight == 0;
      if idle {
        if idleTimer == None {
          idleTimer := Some(timersCreated);
          timersCreated := timersCreated + 1;
        }
      } else if idleTimer != None {
        idleTimer := None;
      }
    }

    /**
     The callback of any timer, armed or stopped: the listener is closed just if no VM is registered and
     nothing is in flight. Here the test and the exit are one step; DaemonProtocol has them as two.
     */
    method OnIdleFire()
      modifies this`listening
      ensures old(listening) ==> (!listening <==> vms == map[] && inflight == 0)
      ensures !old(listening) ==> !listening
    {
      var idle := |vms| == 0 && inflight == 0;
      if idle {
        TriggerExit();
      }
    }

    method TriggerExit()
      modifies this`listening
      ensures !listening
    {
      listening := false;
    }

    /** handleConn's two critical sections: a counted connection stops the timer. */
    method Enter()
      modifies this
      ensures View() == UpdateIdle(old(View()).(inflight := old(inflight) + 1))
      ensures Armed(View()) && (old(inflight) >= 0 ==> idleTimer == None)
      ensures inflight == old(inflight) + 1 && vms == old(vms) && listening == old(listening)
      ensures idleTimer.Some? <==> vms == map[] && inflight == 0
    {
      inflight := inflight + 1;
      UpdateIdleLocked();
    }

    method Leave()
      modifies this
      ensures View() == UpdateIdle(old(View()).(inflight := old(inflight) - 1))
      ensures Armed(View())
      ensures inflight == old(inflight) - 1 && vms == old(vms) && listening == old(listening)
      ensures idleTimer.Some? <==> vms == map[] && inflight == 0
    {
      inflight := inflight - 1;
      UpdateIdleLocked();
    }

    /** handleStartVM's registration: a registered VM stops the timer. */
    method Register(slot: nat, vm: nat)
      modifies this
      ensures View() == UpdateIdle(old(View()).(vms := old(vms)[slot := vm]))
      ensures Armed(View()) && idleTimer == None
      ensures vms == old(vms)[slot := vm] && inflight == old(inflight) && listening == old(listening)
      ensures idleTimer.Some? <==> vms == map[] && inflight == 0
    {
      vms := vms[slot := vm];
      UpdateIdleLocked();
    }

    /** supervise's deregistration: deletes by slot, whatever VM is there. */
    method Deregister(slot: nat)
      modifies this
      ensures View() == UpdateIdle(old(View()).(vms := old(vms) - {slot}))
      ensures Armed(View())
      ensures vms == old(vms) - {slot} && inflight == old(inflight) && listening == old(listening)
      ensures idleTimer.Some? <==> vms == map[] && inflight == 0
    {
      vms := vms - {slot};
      UpdateIdleLocked();
    }
  }
}
