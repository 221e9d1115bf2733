/** What the single operations of the clock do: when an interrupt fires, when the machine halts, what a request is for. */
module ClockSteps {
  import opened Lists
  import opened EventClocks

  /** An idle machine with nothing pending but its timer has nothing to wait for. */
  ghost predicate TimerOnly(c: Clock) {
    |c.pending| == 1 && c.pending[0].item.kind == TimerInt
  }

  /** The time at which the first interrupt can fire. */
  ghost function FirstTime(c: Clock): int
    requires c.pending != []
  {
    if c.pending[0].key > c.total then c.pending[0].key else c.total
  }

  /** The time has become `now`, and nobody but the idle machine has spent it. */
  ghost predicate Idled(c: Clock, d: Clock, now: int) {
    d.total == now && d.idle - c.idle == now - c.total && d.system == c.system && d.user == c.user
  }

  /** What a look at the first interrupt does: `fires` says that it was due, or that the clock could be advanced to it,
      and that it was not a lone timer of an idle machine.  It fires then, at its time or at once; otherwise the list
      holds what it held. */
  ghost predicate Looked(c: Clock, status: MachineStatus, advance: bool, d: Clock, fires: bool) {
    && (fires <==> && c.pending != [] && (advance || c.pending[0].key <= c.total)
                   && !(status == IdleMode && TimerOnly(c)))
    && (fires ==> d.fired == c.fired + [Firing(c.pending[0].item, FirstTime(c))])
    && (!fires ==> d.fired == c.fired && d.log == c.log && multiset(d.pending) == multiset(c.pending))
    && Idled(c, d, if advance && c.pending != [] then FirstTime(c) else c.total)
  }

  lemma {:induction false} InsertKeepsAll(s: seq<Entry<Pending>>, e: Entry<Pending>)
    ensures multiset(Insert(s, e)) == multiset(s) + multiset{e}
  {
    if !(s == [] || e.key < s[0].key) {
      InsertKeepsAll(s[1..], e);
      assert s == [s[0]] + s[1..];
    }
  }

  /** The handler of the first interrupt is called, and asks for whatever it asks for. */
  lemma FirstFires(c: Clock, script: Script)
    requires c.pending != []
    ensures var d := Fire(Taken(c), c.pending[0].item, script);
            d.fired == c.fired + [Firing(c.pending[0].item, FirstTime(c))] && Idled(c, d, FirstTime(c))
  {
    var r := script(|c.fired|);
    ScheduleAllDue(Called(c, r.yielding), r.requests);
  }

  lemma PutBack(c: Clock)
    requires c.pending != []
    ensures multiset(Insert(c.pending[1..], c.pending[0])) == multiset(c.pending)
  {
    InsertKeepsAll(c.pending[1..], c.pending[0]);
    assert c.pending == [c.pending[0]] + c.pending[1..];
  }

  lemma CheckIfDueIff(c: Clock, status: MachineStatus, advance: bool, script: Script)
    ensures var (d, fires) := CheckIfDue(c, status, advance, script); Looked(c, status, advance, d, fires)
  {
    if c.pending != [] {
      FirstFires(c, script);
      PutBack(c);
    }
  }

  lemma {:induction false} FireDueExtends(c: Clock, status: MachineStatus, script: Script)
    ensures c.fired <= FireDue(c, status, script).fired
    ensures Idled(c, FireDue(c, status, script), c.total)
    decreases Due(c.pending, c.total)
  {
    CheckIfDueIff(c, status, false, script);
    var (d, more) := CheckIfDue(c, status, false, script);
    if more {
      FiringReducesDue(c, status, script);
      FireDueExtends(d, status, script);
    }
  }

  /** Idling goes on exactly if something other than a lone timer is pending.  Then the first interrupt fires before any
      other, at its time or at once, and nothing more than the time until then has passed; otherwise nothing fires. */
  ghost predicate WaitedFor(c: Clock, d: Clock, goesOn: bool) {
    && (goesOn <==> c.pending != [] && !TimerOnly(c))
    && (goesOn ==> && |c.fired| < |d.fired| && c.fired <= d.fired
                   && d.fired[|c.fired|] == Firing(c.pending[0].item, FirstTime(c)) && Idled(c, d, FirstTime(c)))
    && (!goesOn ==> d.fired == c.fired && d.log == c.log && multiset(d.pending) == multiset(c.pending))
  }

  lemma IdleIff(c: Clock, script: Script)
    ensures var (d, goesOn) := Idle(c, script); WaitedFor(c, d, goesOn)
  {
    CheckIfDueIff(c, IdleMode, true, script);
    var (d, more) := CheckIfDue(c, IdleMode, true, script);
    if more {
      FireDueExtends(d, IdleMode, script);
    }
  }

  /** A tick takes ten units of system time or one of user time, and no other time passes. */
  ghost predicate Spent(c: Clock, status: MachineStatus, d: Clock) {
    && d.idle == c.idle
    && (status == SystemMode ==> d.total == c.total + 10 && d.system == c.system + 10 && d.user == c.user)
    && (status != SystemMode ==> d.total == c.total + 1 && d.system == c.system && d.user == c.user + 1)
  }

  lemma TickSpends(c: Clock, status: MachineStatus, script: Script)
    ensures Spent(c, status, OneTick(c, status, script)) && c.fired <= OneTick(c, status, script).fired
  {
    FireDueExtends(Ticked(c, status), status, script);
  }

  // Context switches

  /** One of the handlers number `from` to `to` asks for a context switch. */
  ghost predicate SomeoneYields(script: Script, from: nat, to: nat) {
    exists n: nat :: from <= n < to && script(n).yielding
  }

  lemma {:induction false} FireDueYields(c: Clock, status: MachineStatus, script: Script)
    ensures |c.fired| <= |FireDue(c, status, script).fired|
    ensures FireDue(c, status, script).yieldOnReturn <==>
            c.yieldOnReturn || SomeoneYields(script, |c.fired|, |FireDue(c, status, script).fired|)
    decreases Due(c.pending, c.total)
  {
    CheckIfDueIff(c, status, false, script);
    var (d, more) := CheckIfDue(c, status, false, script);
    if more {
      var r := script(|c.fired|);
      ScheduleAllDue(Called(c, r.yielding), r.requests);
      FiringReducesDue(c, status, script);
      FireDueYields(d, status, script);
    }
  }

  /** A tick ends with a context switch exactly if one of the handlers that it called has asked for it. */
  lemma SwitchesIff(c: Clock, status: MachineStatus, script: Script)
    requires !c.yieldOnReturn
    ensures |c.fired| <= |OneTick(c, status, script).fired| && !OneTick(c, status, script).yieldOnReturn
    ensures Switches(c, status, script) <==> SomeoneYields(script, |c.fired|, |OneTick(c, status, script).fired|)
  {
    FireDueYields(Ticked(c, status), status, script);
  }

  /** Between two events no switch is owed. */
  lemma {:induction false} NoneOwed(events: seq<Event>, script: Script)
    ensures !Run(events, script).yieldOnReturn
  {
    if events != [] {
      NoneOwed(events[..|events| - 1], script);
      var c := Run(events[..|events| - 1], script);
      if events[|events| - 1].Wait? {
        IdleOwesNone(c, script);
      }
    }
  }

  lemma IdleOwesNone(c: Clock, script: Script)
    requires !c.yieldOnReturn
    ensures !Idle(c, script).0.yieldOnReturn
  {
  }

  // Requests

  /** A request is for as long from now as it says. */
  ghost predicate AsRequested(p: Pending, r: Request, now: int) {
    p.when == now + r.fromNow && p.kind == r.kind
  }

  lemma {:induction false} ScheduleAllLog(c: Clock, rs: seq<Request>)
    ensures var d := ScheduleAll(c, rs);
            && d.total == c.total && |d.log| == |c.log| + |rs| && c.log <= d.log
            && forall i :: 0 <= i < |rs| ==> AsRequested(d.log[|c.log| + i], rs[i], c.total)
  {
    if rs != [] {
      ScheduleAllLog(c, rs[..|rs| - 1]);
    }
  }

  lemma CheckIfDueLog(c: Clock, status: MachineStatus, advance: bool, script: Script)
    ensures c.log <= CheckIfDue(c, status, advance, script).0.log
  {
    if c.pending != [] {
      var r := script(|c.fired|);
      ScheduleAllLog(Called(c, r.yielding), r.requests);
    }
  }

  /** What the handler of an interrupt asks for when it is called is scheduled from then on. */
  lemma HandlerRequests(c: Clock, status: MachineStatus, advance: bool, script: Script, i: nat)
    requires CheckIfDue(c, status, advance, script).1 && i < |script(|c.fired|).requests|
    ensures c.pending != []
    ensures var d := CheckIfDue(c, status, advance, script).0;
            && |d.log| == |c.log| + |script(|c.fired|).requests|
            && AsRequested(d.log[|c.log| + i], script(|c.fired|).requests[i], FirstTime(c))
  {
    var r := script(|c.fired|);
    ScheduleAllLog(Called(c, r.yielding), r.requests);
  }

  lemma {:induction false} FireDueLog(c: Clock, status: MachineStatus, script: Script)
    ensures c.log <= FireDue(c, status, script).log
    decreases Due(c.pending, c.total)
  {
    CheckIfDueLog(c, status, false, script);
    var (d, more) := CheckIfDue(c, status, false, script);
    if more {
      FiringReducesDue(c, status, script);
      FireDueLog(d, status, script);
    }
  }

  lemma StepLog(c: Clock, ev: Event, script: Script)
    ensures c.log <= Step(c, ev, script).log
  {
    match ev
    case Tick(status) => FireDueLog(Ticked(c, status), status, script);
    case Wait =>
      CheckIfDueLog(c, IdleMode, true, script);
      FireDueLog(CheckIfDue(c, IdleMode, true, script).0, IdleMode, script);
    case Device(r) =>
  }

  lemma {:induction false} LogGrows(events: seq<Event>, script: Script, k: nat)
    requires k <= |events|
    ensures Run(events[..k], script).log <= Run(events, script).log
    decreases |events|
  {
    if k == |events| {
      assert events[..k] == events;
    } else {
      var before := events[..|events| - 1];
      LogGrows(before, script, k);
      assert before[..k] == events[..k];
      StepLog(Run(before, script), events[|events| - 1], script);
    }
  }

  /** In every run a device request made at some time for so many ticks later is an interrupt that is still pending, or
      has fired once, not before that time and at most a system tick after it. */
  lemma RequestIsHonoured(events: seq<Event>, script: Script, k: nat)
    requires (forall i :: 0 <= i < |events| ==> Possible(events[i])) && k < |events| && events[k].Device?
    ensures var asked, c := Run(events[..k], script), Run(events, script);
            && |asked.log| < |c.log| && AsRequested(c.log[|asked.log|], events[k].request, asked.total)
            && var p := c.log[|asked.log|];
               && multiset(ItemsOf(c.pending))[p] + multiset(Fired(c.fired))[p] == 1
               && forall f :: f in c.fired && f.what == p ==> p.when <= f.at <= p.when + SystemTick
  {
    var asked := Run(events[..k], script);
    assert events[..k + 1][..k] == events[..k] && events[..k + 1][k] == events[k];
    var c1 := Run(events[..k + 1], script);
    assert c1 == Step(asked, events[k], script);
    LogGrows(events, script, k + 1);
    assert Run(events, script).log[|asked.log|] == c1.log[|asked.log|];
    PendingOrFiredOnce(events, script, |asked.log|);
    FiredInOrderAndOnTime(events, script);
  }
}
