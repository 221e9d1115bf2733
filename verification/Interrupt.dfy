/** The interrupt hardware, updating its state in place. */
module Interrupts {
  import opened Sequences
  import opened Lists
  import opened EC = EventClocks
  import opened ClockSteps

  datatype IntStatus = IntOff | IntOn

  class Interrupt {
    var level: IntStatus
    var status: MachineStatus
    var inHandler: bool
    var yieldOnReturn: bool
    const pending: List<Pending>

    /** The tick counters of the statistics. */
    var totalTicks: int
    var idleTicks: int
    var systemTicks: int
    var userTicks: int

    /** What the handlers of this run will do, and how many have been called. */
    const script: Script
    var calls: nat
    var scheduled: nat
    ghost var fired: seq<Firing>
    ghost var log: seq<Pending>

    ghost predicate Valid()
      reads this, pending, pending.nodes
    {
      pending.Valid() && calls == |fired| && scheduled == |log|
    }

    ghost function Clock(): EC.Clock
      reads this, pending
    {
      EC.Clock(totalTicks, idleTicks, systemTicks, userTicks, pending.contents, fired, log, yieldOnReturn)
    }

    /** Interrupts start disabled, with none pending. */
    constructor (script: Script)
      ensures Valid() && this.script == script && fresh(pending)
      ensures Clock() == EC.Run([], script)
      ensures level == IntOff && status == SystemMode && !inHandler
    {
      level, status, inHandler, yieldOnReturn := IntOff, SystemMode, false, false;
      totalTicks, idleTicks, systemTicks, userTicks := 0, 0, 0, 0;
      pending := new List<Pending>();
      this.script, calls, scheduled, fired, log := script, 0, 0, [], [];
    }

    /** Arrange for an interrupt at `now + fromNow`. */
    method Schedule(fromNow: int, kind: IntType)
      requires Valid() && fromNow > 0
      modifies this`scheduled, this`log, pending, pending.nodes
      ensures Valid() && Clock() == EC.Schedule(old(Clock()), Request(fromNow, kind))
      ensures log == old(log) + [log[|old(log)|]] && AsRequested(log[|old(log)|], Request(fromNow, kind), totalTicks)
      ensures forall i :: 0 <= i < |pending.nodes| ==> pending.nodes[i] in old(pending.nodes) || fresh(pending.nodes[i])
    {
      var when := totalTicks + fromNow;
      var toOccur := Pending(scheduled, when, kind);
      scheduled := scheduled + 1;
      log := log + [toOccur];
      pending.SortedInsert(toOccur, when);
    }

    /** Run the handler of an interrupt, with interrupts disabled. */
    method CallHandler(toOccur: Pending)
      requires Valid() && level == IntOff
      modifies this, pending, pending.nodes
      ensures Valid() && Clock() == EC.Fire(old(Clock()), toOccur, script)
      ensures level == old(level) && status == old(status) && !inHandler
      ensures forall i :: 0 <= i < |pending.nodes| ==> pending.nodes[i] in old(pending.nodes) || fresh(pending.nodes[i])
    {
      var previous := status;
      inHandler := true;
      status := SystemMode;
      RunHandler(toOccur);
      status := previous;
      inHandler := false;
    }

    method RunHandler(toOccur: Pending)
      requires Valid()
      modifies this`calls, this`fired, this`yieldOnReturn, this`scheduled, this`log, pending, pending.nodes
      ensures Valid() && Clock() == EC.Fire(old(Clock()), toOccur, script)
      ensures forall i :: 0 <= i < |pending.nodes| ==> pending.nodes[i] in old(pending.nodes) || fresh(pending.nodes[i])
    {
      var response := NextResponse(toOccur);
      MakeRequests(response.requests);
    }

    /** What the handler that is called now does; it may ask for a context switch on return. */
    method NextResponse(toOccur: Pending) returns (response: Response)
      requires calls == |fired|
      modifies this`calls, this`fired, this`yieldOnReturn
      ensures calls == |fired| && response == script(old(calls)) && fired == old(fired) + [Firing(toOccur, totalTicks)]
      ensures yieldOnReturn == (old(yieldOnReturn) || response.yielding)
    {
      response := script(calls);
      calls := calls + 1;
      fired := fired + [Firing(toOccur, totalTicks)];
      if response.yielding {
        yieldOnReturn := true;
      }
    }

    /** The part of a handler that concerns this class: new interrupts. */
    method MakeRequests(requests: seq<Request>)
      requires Valid() && Future(requests)
      modifies this`scheduled, this`log, pending, pending.nodes
      ensures Valid() && Clock() == ScheduleAll(old(Clock()), requests)
      ensures forall i :: 0 <= i < |pending.nodes| ==> pending.nodes[i] in old(pending.nodes) || fresh(pending.nodes[i])
    {
      ghost var c := Clock();
      for i := 0 to |requests|
        invariant Valid() && Clock() == ScheduleAll(c, requests[..i])
        invariant forall i :: 0 <= i < |pending.nodes| ==> pending.nodes[i] in old(pending.nodes) || fresh(pending.nodes[i])
      {
        assert requests[..i + 1][..i] == requests[..i];
        Schedule(requests[i].fromNow, requests[i].kind);
      }
      assert requests[..|requests|] == requests;
    }

    /** Take the first interrupt off the list, and call its handler if the time has come. */
    method Examine(advanceClock: bool) returns (fires: bool)
      requires Valid() && level == IntOff && !inHandler
      modifies this, pending, pending.nodes
      ensures Valid() && (Clock(), fires) == EC.CheckIfDue(old(Clock()), status, advanceClock, script)
      ensures level == IntOff && status == old(status) && !inHandler
      ensures forall i :: 0 <= i < |pending.nodes| ==> pending.nodes[i] in old(pending.nodes) || fresh(pending.nodes[i])
    {
      ghost var c := Clock();
      var removed := pending.SortedRemove();
      if removed.None? {
        assert Clock() == c;
        return false;
      }
      var toOccur, when := removed.value.item, removed.value.key;
      if advanceClock && when > totalTicks {
        idleTicks := idleTicks + (when - totalTicks);
        totalTicks := when;
      } else if when > totalTicks {
        pending.SortedInsert(toOccur, when);
        return false;
      }
      var empty := pending.IsEmpty();
      if status == IdleMode && toOccur.kind == TimerInt && empty {
        pending.SortedInsert(toOccur, when);
        return false;
      }
      assert Clock() == Taken(c);
      CallHandler(toOccur);
      return true;
    }

    /** Look whether an interrupt is due, or advance the clock to the next one, and call its handler. */
    method CheckIfDue(advanceClock: bool) returns (fires: bool)
      requires Valid() && level == IntOff && !inHandler
      modifies this, pending, pending.nodes
      ensures Valid() && (Clock(), fires) == EC.CheckIfDue(old(Clock()), status, advanceClock, script)
      ensures Looked(old(Clock()), status, advanceClock, Clock(), fires)
      ensures level == IntOff && status == old(status) && !inHandler
      ensures forall i :: 0 <= i < |pending.nodes| ==> pending.nodes[i] in old(pending.nodes) || fresh(pending.nodes[i])
    {
      CheckIfDueIff(Clock(), status, advanceClock, script);
      fires := Examine(advanceClock);
    }

    /** Fire everything that is due. */
    method FireAllDue()
      requires Valid() && level == IntOff && !inHandler
      modifies this, pending, pending.nodes
      ensures Valid() && Clock() == FireDue(old(Clock()), status, script)
      ensures level == IntOff && status == old(status) && !inHandler
      ensures forall i :: 0 <= i < |pending.nodes| ==> pending.nodes[i] in old(pending.nodes) || fresh(pending.nodes[i])
    {
      ghost var c := Clock();
      ghost var before := c;
      var more := CheckIfDue(false);
      while more
        invariant Valid() && level == IntOff && status == old(status) && !inHandler
        invariant (Clock(), more) == EC.CheckIfDue(before, status, false, script)
        invariant FireDue(before, status, script) == FireDue(c, status, script)
        invariant forall i :: 0 <= i < |pending.nodes| ==> pending.nodes[i] in old(pending.nodes) || fresh(pending.nodes[i])
        decreases Due(before.pending, before.total)
      {
        FiringReducesDue(before, status, script);
        before := Clock();
        more := CheckIfDue(false);
      }
    }

    /** Advance simulated time and call the handlers that are due.  `switches` says that one of them
        asked for a context switch, which is then made. */
    method OneTick() returns (switches: bool)
      requires Valid() && !inHandler
      modifies this, pending, pending.nodes
      ensures Valid() && Clock() == EC.OneTick(old(Clock()), status, script)
      ensures switches == Switches(old(Clock()), status, script) && Spent(old(Clock()), status, Clock())
      ensures level == IntOn && status == old(status) && !inHandler
      ensures forall i :: 0 <= i < |pending.nodes| ==> pending.nodes[i] in old(pending.nodes) || fresh(pending.nodes[i])
    {
      TickSpends(Clock(), status, script);
      AdvanceTime();
      level := IntOff;
      FireAllDue();
      level := IntOn;
      switches := yieldOnReturn;
      yieldOnReturn := false;
    }

    method AdvanceTime()
      modifies this`totalTicks, this`systemTicks, this`userTicks
      ensures Clock() == Ticked(old(Clock()), status)
    {
      if status == SystemMode {
        totalTicks := totalTicks + SystemTick;
        systemTicks := systemTicks + SystemTick;
      } else {
        totalTicks := totalTicks + UserTick;
        userTicks := userTicks + UserTick;
      }
    }

    /** Enable or disable interrupts; enabling them advances time. */
    method SetLevel(now: IntStatus) returns (previous: IntStatus, switches: bool)
      requires Valid() && (now == IntOff || !inHandler)
      modifies this, pending, pending.nodes
      ensures Valid() && previous == old(level) && level == now && status == old(status) && inHandler == old(inHandler)
      ensures now == IntOn && old(level) == IntOff ==>
                && Clock() == EC.OneTick(old(Clock()), status, script)
                && switches == Switches(old(Clock()), status, script)
      ensures !(now == IntOn && old(level) == IntOff) ==> Clock() == old(Clock()) && !switches
      ensures forall i :: 0 <= i < |pending.nodes| ==> pending.nodes[i] in old(pending.nodes) || fresh(pending.nodes[i])
    {
      previous := level;
      level := now;
      switches := false;
      if now == IntOn && previous == IntOff {
        switches := OneTick();
      }
    }

    method PassTime() returns (goesOn: bool)
      requires Valid() && level == IntOff && !inHandler
      modifies this, pending, pending.nodes
      ensures Valid() && (Clock(), goesOn) == EC.Idle(old(Clock()), script)
      ensures level == IntOff && !inHandler && (goesOn ==> status == SystemMode)
      ensures forall i :: 0 <= i < |pending.nodes| ==> pending.nodes[i] in old(pending.nodes) || fresh(pending.nodes[i])
    {
      status := IdleMode;
      goesOn := CheckIfDue(true);
      if goesOn {
        FireAllDue();
        yieldOnReturn := false;
        status := SystemMode;
      }
    }

    /** Nothing is ready to run: advance time to the next interrupt.  If there is none, or only the
        timer, the machine halts. */
    method Idle() returns (goesOn: bool)
      requires Valid() && level == IntOff && !inHandler
      modifies this, pending, pending.nodes
      ensures Valid() && (Clock(), goesOn) == EC.Idle(old(Clock()), script) && WaitedFor(old(Clock()), Clock(), goesOn)
      ensures level == IntOff && !inHandler && (goesOn ==> status == SystemMode)
      ensures forall i :: 0 <= i < |pending.nodes| ==> pending.nodes[i] in old(pending.nodes) || fresh(pending.nodes[i])
    {
      IdleIff(Clock(), script);
      goesOn := PassTime();
    }

    /** What happens to the machine in a run, one event after the other. */
    method Execute(events: seq<Event>)
      requires Valid() && Clock() == EC.Run([], script) && !inHandler
      requires forall i :: 0 <= i < |events| ==> Possible(events[i])
      modifies this, pending, pending.nodes
      ensures Valid() && Clock() == EC.Run(events, script) && Sound(Clock(), 0)
    {
      assert events[..0] == [];
      for i := 0 to |events|
        invariant Valid() && Clock() == EC.Run(events[..i], script) && !inHandler
        invariant forall j :: 0 <= j < |pending.nodes| ==> pending.nodes[j] in old(pending.nodes) || fresh(pending.nodes[j])
      {
        assert events[..i + 1][..i] == events[..i];
        Happen(events[i]);
      }
      assert events[..|events|] == events;
      RunSound(events, script);
    }

    method Happen(ev: Event)
      requires Valid() && Possible(ev) && !inHandler
      modifies this, pending, pending.nodes
      ensures Valid() && Clock() == Step(old(Clock()), ev, script) && !inHandler
      ensures forall i :: 0 <= i < |pending.nodes| ==> pending.nodes[i] in old(pending.nodes) || fresh(pending.nodes[i])
    {
      match ev
      case Tick(mode) =>
        status := mode;
        var switches := OneTick();
      case Wait =>
        level := IntOff;
        var goesOn := Idle();
      case Device(r) => Schedule(r.fromNow, r.kind);
    }
  }
}
