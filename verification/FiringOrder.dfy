/** The order in which interrupts with the same due time fire. */
module FiringOrder {
  import opened Sequences
  import opened Lists
  import opened EventClocks

  /** The pending interrupts for time `w`, as they stand on the list, and those that have fired. */
  function Group(s: seq<Entry<Pending>>, w: int): seq<Pending> {
    if s == [] then [] else (if s[0].key == w then [s[0].item] else []) + Group(s[1..], w)
  }

  function FiredAt(f: seq<Firing>, w: int): seq<Pending> {
    if f == [] then [] else FiredAt(f[..|f| - 1], w) + if f[|f| - 1].what.when == w then [f[|f| - 1].what] else []
  }

  /** The first goes to the end, `n` times. */
  function Turn(g: seq<Pending>, n: nat): (r: seq<Pending>)
    ensures |r| == |g|
  {
    if n == 0 || g == [] then g else
      var r := Turn(g, n - 1);
      r[1..] + [r[0]]
  }

  lemma {:induction false} TurnIsRotate(g: seq<Pending>, n: nat)
    requires g != []
    ensures Turn(g, n) == Rotate(g, n % |g|)
  {
    if n > 0 {
      TurnIsRotate(g, n - 1);
      var k := (n - 1) % |g|;
      RotateOnce(g, k);
      NextModulo(n - 1, |g|);
    }
  }

  lemma NextModulo(n: nat, m: nat)
    requires m > 0
    ensures (n + 1) % m == if n % m + 1 == m then 0 else n % m + 1
  {
    var q, r := n / m, n % m;
    if r + 1 == m {
      Quotient(n + 1, q + 1, 0, m);
    } else {
      Quotient(n + 1, q, r + 1, m);
    }
  }

  lemma Quotient(n: int, q: int, r: int, m: int)
    requires 0 <= r < m && n == q * m + r
    ensures n % m == r
  {
    var d := n / m - q;
    assert d * m == n / m * m - q * m == r - n % m;
    assert d >= 1 ==> d * m >= m;
    assert d <= -1 ==> d * m <= -m;
  }

  lemma {:induction false} TurnTwice(g: seq<Pending>, a: nat, b: nat)
    ensures Turn(Turn(g, a), b) == Turn(g, a + b)
  {
    if b > 0 {
      TurnTwice(g, a, b - 1);
    }
  }

  lemma {:induction false} GroupEmpty(s: seq<Entry<Pending>>, w: int)
    requires forall i :: 0 <= i < |s| ==> s[i].key != w
    ensures Group(s, w) == []
  {
    if s != [] {
      GroupEmpty(s[1..], w);
    }
  }

  /** A new interrupt comes behind those for the same time. */
  lemma {:induction false} GroupInsert(s: seq<Entry<Pending>>, e: Entry<Pending>, w: int)
    requires Sorted(s)
    ensures Group(Insert(s, e), w) == Group(s, w) + if e.key == w then [e.item] else []
  {
    if s == [] || e.key < s[0].key {
      assert ([e] + s)[1..] == s;
      if e.key == w {
        GroupEmpty(s, w);
      }
    } else {
      GroupInsert(s[1..], e, w);
      assert ([s[0]] + Insert(s[1..], e))[1..] == Insert(s[1..], e);
    }
  }

  /** Between `c` and `d` nobody asked for an interrupt at time `w`. */
  ghost predicate NoRequest(c: Clock, d: Clock, w: int) {
    c.log <= d.log && forall i :: |c.log| <= i < |d.log| ==> d.log[i].when != w
  }

  lemma NoRequestSplit(c: Clock, d: Clock, e: Clock, w: int)
    requires c.log <= d.log <= e.log
    ensures NoRequest(c, e, w) ==> NoRequest(c, d, w) && NoRequest(d, e, w)
  {
    if NoRequest(c, e, w) {
      assert forall i :: 0 <= i < |d.log| ==> d.log[i] == e.log[i];
    }
  }

  /** Fired and pending interrupts for `w` together: those of `c`, turned `n` times. */
  ghost predicate Turned(c: Clock, d: Clock, w: int, n: nat) {
    && FiredAt(d.fired, w) + Group(d.pending, w) == FiredAt(c.fired, w) + Turn(Group(c.pending, w), n)
    && (n > 0 ==> c.total < w)
  }

  ghost predicate Keeps(c: Clock, d: Clock, w: int, n: nat) {
    c.log <= d.log && c.total <= d.total && (NoRequest(c, d, w) ==> Turned(c, d, w, n))
  }

  lemma {:induction false} FiredBefore(f: seq<Firing>, w: int)
    requires forall i :: 0 <= i < |f| ==> f[i].what.when < w
    ensures FiredAt(f, w) == []
  {
    if f != [] {
      FiredBefore(f[..|f| - 1], w);
    }
  }

  lemma NothingFired(c: Clock, w: int)
    requires History(c.fired, c.total) && c.total < w
    ensures FiredAt(c.fired, w) == []
  {
    forall i | 0 <= i < |c.fired| ensures c.fired[i].what.when < w {
      assert c.fired[i] in c.fired;
    }
    FiredBefore(c.fired, w);
  }

  /** Looking at an interrupt is over before it fires, so the turns add up. */
  lemma KeepsThen(c: Clock, d: Clock, e: Clock, w: int, m: nat, n: nat)
    requires Keeps(c, d, w, m) && Keeps(d, e, w, n) && History(c.fired, c.total) && History(d.fired, d.total)
    ensures Keeps(c, e, w, m + n)
  {
    NoRequestSplit(c, d, e, w);
    if NoRequest(c, e, w) {
      if n > 0 {
        NothingFired(c, w);
        NothingFired(d, w);
        assert FiredAt(d.fired, w) + Group(d.pending, w) == Group(d.pending, w);
        assert FiredAt(c.fired, w) + Turn(Group(c.pending, w), m) == Turn(Group(c.pending, w), m);
        TurnTwice(Group(c.pending, w), m, n);
      } else {
        assert Turn(Group(d.pending, w), 0) == Group(d.pending, w);
      }
    }
  }

  lemma KeepsFrom(c: Clock, d: Clock, e: Clock, w: int, n: nat)
    requires Keeps(c, d, w, 0) && Keeps(d, e, w, n) && History(c.fired, c.total) && History(d.fired, d.total)
    ensures Keeps(c, e, w, n)
  {
    KeepsThen(c, d, e, w, 0, n);
  }

  lemma KeepsYield(c: Clock, d: Clock, yielding: bool, w: int, n: nat)
    requires Keeps(c, d, w, n)
    ensures Keeps(c, d.(yieldOnReturn := yielding), w, n)
  {
  }

  lemma ScheduleKeeps(c: Clock, r: Request, w: int)
    requires Sorted(c.pending)
    ensures Keeps(c, Schedule(c, r), w, 0) && Sorted(Schedule(c, r).pending)
  {
    var d := Schedule(c, r);
    var e := Entry(d.log[|c.log|], c.total + r.fromNow);
    GroupInsert(c.pending, e, w);
    InsertSorted(c.pending, e);
  }

  lemma {:induction false} ScheduleAllKeeps(c: Clock, rs: seq<Request>, w: int)
    requires Sorted(c.pending)
    ensures Keeps(c, ScheduleAll(c, rs), w, 0) && Sorted(ScheduleAll(c, rs).pending) && ScheduleAll(c, rs).fired == c.fired
  {
    if rs != [] {
      var d := ScheduleAll(c, rs[..|rs| - 1]);
      ScheduleAllKeeps(c, rs[..|rs| - 1], w);
      ScheduleKeeps(d, rs[|rs| - 1], w);
      NoRequestSplit(c, d, ScheduleAll(c, rs), w);
    }
  }

  /** The first interrupt is for time `w`, and it is looked at and put back. */
  predicate LooksAt(c: Clock, advance: bool, w: int) {
    c.pending != [] && !advance && c.pending[0].key == w && c.total < w
  }

  lemma PutBackKeeps(c: Clock, w: int)
    requires Sorted(c.pending) && c.pending != [] && c.total < c.pending[0].key
    ensures Keeps(c, c.(pending := Insert(c.pending[1..], c.pending[0])), w, if LooksAt(c, false, w) then 1 else 0)
  {
    GroupInsert(c.pending[1..], c.pending[0], w);
    var g := Group(c.pending, w);
    if c.pending[0].key == w {
      assert g[1..] == Group(c.pending[1..], w);
      assert Turn(g, 1) == Turn(g, 0)[1..] + [Turn(g, 0)[0]];
    }
  }

  lemma KeepsLog(c: Clock, d: Clock, e: Clock, w: int)
    requires Keeps(c, d, w, 0) && Keeps(d, e, w, 0)
    ensures Keeps(c, e, w, 0)
  {
    NoRequestSplit(c, d, e, w);
  }

  lemma CalledKeeps(c: Clock, yielding: bool, w: int)
    requires c.pending != [] && c.pending[0].key == c.pending[0].item.when
    ensures Keeps(c, Called(c, yielding), w, 0)
  {
    var d := Called(c, yielding);
    assert d.fired[..|d.fired| - 1] == c.fired;
  }

  lemma FireKeeps(c: Clock, script: Script, w: int)
    requires c.pending != [] && Sorted(c.pending) && c.pending[0].key == c.pending[0].item.when
    ensures Keeps(c, Fire(Taken(c), c.pending[0].item, script), w, 0)
  {
    var r := script(|c.fired|);
    var d := Called(c, r.yielding);
    CalledKeeps(c, r.yielding, w);
    ScheduleAllKeeps(d, r.requests, w);
    assert Fire(Taken(c), c.pending[0].item, script) == ScheduleAll(d, r.requests);
    KeepsLog(c, d, ScheduleAll(d, r.requests), w);
  }

  lemma CheckIfDueKeeps(c: Clock, status: MachineStatus, advance: bool, script: Script, w: int)
    requires Queue(c.pending, c.total - SystemTick)
    ensures Keeps(c, CheckIfDue(c, status, advance, script).0, w, if LooksAt(c, advance, w) then 1 else 0)
  {
    if c.pending != [] {
      assert c.pending[0] in c.pending;
      var e, rest := c.pending[0], c.pending[1..];
      if !advance && e.key > c.total {
        PutBackKeeps(c, w);
      } else if status == IdleMode && e.item.kind == TimerInt && rest == [] {
        assert Insert(rest, e) == c.pending;
      } else {
        FireKeeps(c, script, w);
      }
    }
  }

  /** How often the loop that fires what is due looks at the first interrupt for `w`. */
  function Looks(c: Clock, status: MachineStatus, script: Script, w: int): nat
    decreases Due(c.pending, c.total)
  {
    var (d, more) := CheckIfDue(c, status, false, script);
    if more then
      FiringReducesDue(c, status, script);
      Looks(d, status, script, w)
    else if LooksAt(c, false, w) then 1 else 0
  }

  lemma {:induction false} FireDueKeeps(c: Clock, status: MachineStatus, script: Script, w: int, late: nat)
    requires Sound(c, late) && late <= SystemTick
    ensures Keeps(c, FireDue(c, status, script), w, Looks(c, status, script, w))
    decreases Due(c.pending, c.total)
  {
    QueueFrom(c.pending, c.total - late, c.total - SystemTick);
    CheckIfDueKeeps(c, status, false, script, w);
    CheckIfDueSound(c, status, false, script, late);
    var (d, more) := CheckIfDue(c, status, false, script);
    if more {
      FiringReducesDue(c, status, script);
      FireDueKeeps(d, status, script, w, late);
      var e, n := FireDue(d, status, script), Looks(d, status, script, w);
      assert e == FireDue(c, status, script) && n == Looks(c, status, script, w) && !LooksAt(c, false, w);
      KeepsFrom(c, d, e, w, n);
    }
  }

  /** How often one event of a run looks at the first interrupt for `w` before it is due. */
  function LooksIn(c: Clock, ev: Event, script: Script, w: int): nat {
    match ev
    case Tick(status) => Looks(Ticked(c, status), status, script, w)
    case Wait =>
      var (d, more) := CheckIfDue(c, IdleMode, true, script);
      if more then Looks(d, IdleMode, script, w) else 0
    case Device(_) => 0
  }

  lemma IdleKeeps(c: Clock, script: Script, w: int)
    requires Sound(c, 0)
    ensures Keeps(c, Idle(c, script).0, w, LooksIn(c, Wait, script, w))
  {
    QueueFrom(c.pending, c.total, c.total - SystemTick);
    CheckIfDueKeeps(c, IdleMode, true, script, w);
    CheckIfDueSound(c, IdleMode, true, script, 0);
    var (d, more) := CheckIfDue(c, IdleMode, true, script);
    if more {
      FireDueKeeps(d, IdleMode, script, w, 0);
      var e, n := FireDue(d, IdleMode, script), Looks(d, IdleMode, script, w);
      KeepsFrom(c, d, e, w, n);
      KeepsYield(c, e, false, w, n);
    }
  }

  lemma TickKeeps(c: Clock, status: MachineStatus, script: Script, w: int)
    requires Sound(c, 0) && Possible(Tick(status))
    ensures Keeps(c, Step(c, Tick(status), script), w, LooksIn(c, Tick(status), script, w))
  {
    var t := Ticked(c, status);
    TickedSound(c, status);
    FireDueKeeps(t, status, script, w, SystemTick);
    assert Keeps(c, t, w, 0);
    KeepsFrom(c, t, FireDue(t, status, script), w, Looks(t, status, script, w));
  }

  lemma StepKeeps(c: Clock, ev: Event, script: Script, w: int)
    requires Sound(c, 0) && Possible(ev)
    ensures Keeps(c, Step(c, ev, script), w, LooksIn(c, ev, script, w))
  {
    match ev
    case Tick(status) => TickKeeps(c, status, script, w);
    case Wait => IdleKeeps(c, script, w);
    case Device(r) => ScheduleKeeps(c, r, w);
  }

  // Whole runs

  ghost predicate Follows(clocks: seq<Clock>, events: seq<Event>, script: Script, i: int) {
    0 <= i < |events| < |clocks| && Possible(events[i]) && clocks[i + 1] == Step(clocks[i], events[i], script)
  }

  ghost predicate IsRun(clocks: seq<Clock>, events: seq<Event>, script: Script) {
    && |clocks| == |events| + 1 && clocks[0] == Run([], script)
    && forall i :: 0 <= i < |events| ==> Follows(clocks, events, script, i)
  }

  lemma {:induction false} ClockIsRun(clocks: seq<Clock>, events: seq<Event>, script: Script, n: nat)
    requires IsRun(clocks, events, script) && n <= |events|
    ensures clocks[n] == Run(events[..n], script) && forall i :: 0 <= i < n ==> Possible(events[i])
    decreases n
  {
    if n > 0 {
      ClockIsRun(clocks, events, script, n - 1);
      assert Follows(clocks, events, script, n - 1);
      assert events[..n][..n - 1] == events[..n - 1];
    }
  }

  lemma ClockSound(clocks: seq<Clock>, events: seq<Event>, script: Script, n: nat)
    requires IsRun(clocks, events, script) && n <= |events|
    ensures Sound(clocks[n], 0)
  {
    ClockIsRun(clocks, events, script, n);
    RunSound(events[..n], script);
  }

  lemma ClockHistory(clocks: seq<Clock>, events: seq<Event>, script: Script, n: nat)
    requires IsRun(clocks, events, script) && n <= |events|
    ensures History(clocks[n].fired, clocks[n].total)
  {
    ClockSound(clocks, events, script, n);
  }

  /** The looks at time `w` from step `a` to step `b` of a run. */
  ghost function LooksBetween(clocks: seq<Clock>, events: seq<Event>, script: Script, a: nat, b: nat, w: int): nat
    requires a <= b <= |events| < |clocks|
  {
    if a == b then 0
    else LooksBetween(clocks, events, script, a, b - 1, w) + LooksIn(clocks[b - 1], events[b - 1], script, w)
  }

  lemma ClockKeeps(clocks: seq<Clock>, events: seq<Event>, script: Script, n: nat, w: int)
    requires IsRun(clocks, events, script) && n < |events|
    ensures Keeps(clocks[n], clocks[n + 1], w, LooksIn(clocks[n], events[n], script, w))
  {
    assert Follows(clocks, events, script, n);
    ClockSound(clocks, events, script, n);
    StepKeeps(clocks[n], events[n], script, w);
  }

  /** From any moment of any run on, as long as nobody asks for more interrupts at time `w`, those for `w`
      fire in the order in which they stand on the list then, turned once for every look at them. */
  lemma {:induction false} FireInTurnedOrder(clocks: seq<Clock>, events: seq<Event>, script: Script, a: nat, b: nat, w: int)
    requires IsRun(clocks, events, script) && a <= b <= |events|
    ensures Keeps(clocks[a], clocks[b], w, LooksBetween(clocks, events, script, a, b, w))
    decreases b
  {
    if a == b {
      KeepsSelf(clocks[a], w);
    } else {
      FireInTurnedOrder(clocks, events, script, a, b - 1, w);
      ClockKeeps(clocks, events, script, b - 1, w);
      ClockHistory(clocks, events, script, a);
      ClockHistory(clocks, events, script, b - 1);
      KeepsThen(clocks[a], clocks[b - 1], clocks[b], w,
                LooksBetween(clocks, events, script, a, b - 1, w), LooksIn(clocks[b - 1], events[b - 1], script, w));
    }
  }

  lemma KeepsSelf(c: Clock, w: int)
    ensures Keeps(c, c, w, 0)
  {
  }

  /** The order of the calls of Schedule. */
  ghost predicate Scheduled(g: seq<Pending>) {
    forall i, j :: 0 <= i < j < |g| ==> g[i].id < g[j].id
  }

  lemma RotatedOrder(g: seq<Pending>, k: nat)
    requires Scheduled(g) && k < |g|
    ensures Scheduled(Rotate(g, k)) <==> k == 0
  {
    var r := Rotate(g, k);
    if k == 0 {
      assert r == g;
    } else {
      assert r[0] == g[k] && r[|g| - 1] == g[k - 1];
    }
  }

  lemma OnlyPart(f: seq<Pending>, g: seq<Pending>)
    requires f + [] == [] + g
    ensures f == g
  {
    assert f + [] == f && [] + g == g;
  }

  /** So interrupts for the same time, standing in the order in which they were scheduled, fire in that
      order exactly when the number of looks at them before they are due is a multiple of their number. */
  lemma FireAsScheduledIff(clocks: seq<Clock>, events: seq<Event>, script: Script, a: nat, b: nat, w: int)
    requires IsRun(clocks, events, script) && a <= b <= |events| && AllFired(clocks[a], clocks[b], w)
    ensures Scheduled(FiredAt(clocks[b].fired, w)) <==>
            LooksBetween(clocks, events, script, a, b, w) % |Group(clocks[a].pending, w)| == 0
  {
    var g, n := Group(clocks[a].pending, w), LooksBetween(clocks, events, script, a, b, w);
    FireInTurnedOrder(clocks, events, script, a, b, w);
    TurnIsRotate(g, n);
    OnlyPart(FiredAt(clocks[b].fired, w), Turn(g, n));
    RotatedOrder(g, n % |g|);
  }

  /** The interrupts for `w` stand in the order of their requests in `c`, and have all fired in `d`;
      no more were asked for. */
  ghost predicate AllFired(c: Clock, d: Clock, w: int) {
    && NoRequest(c, d, w) && FiredAt(c.fired, w) == [] && Group(d.pending, w) == []
    && Group(c.pending, w) != [] && Scheduled(Group(c.pending, w))
  }

  const Quiet: Script := n => Response([], false)
  const First := Pending(0, 20, DiskInt)
  const Second := Pending(1, 20, DiskInt)

  lemma RequestFirst(c: Clock)
    requires c == Clock(0, 0, 0, 0, [], [], [], false)
    ensures Schedule(c, Request(20, DiskInt)) == Clock(0, 0, 0, 0, [Entry(First, 20)], [], [First], false)
  {
  }

  lemma RequestSecond(c: Clock)
    requires c == Clock(0, 0, 0, 0, [Entry(First, 20)], [], [First], false)
    ensures Schedule(c, Request(20, DiskInt)) == Clock(0, 0, 0, 0, [Entry(First, 20), Entry(Second, 20)], [], [First, Second], false)
  {
    assert Insert(c.pending, Entry(Second, 20)) == [Entry(First, 20)] + Insert([], Entry(Second, 20));
  }

  lemma FirstTick(c: Clock)
    requires c == Clock(0, 0, 0, 0, [Entry(First, 20), Entry(Second, 20)], [], [First, Second], false)
    ensures OneTick(c, SystemMode, Quiet) == Clock(10, 0, 10, 0, [Entry(Second, 20), Entry(First, 20)], [], [First, Second], false)
    ensures Looks(Ticked(c, SystemMode), SystemMode, Quiet, 20) == 1
  {
    assert Insert([Entry(Second, 20)], Entry(First, 20)) == [Entry(Second, 20)] + Insert([], Entry(First, 20));
  }

  lemma SecondTick(c: Clock)
    requires c == Clock(10, 0, 10, 0, [Entry(Second, 20), Entry(First, 20)], [], [First, Second], false)
    ensures OneTick(c, SystemMode, Quiet).fired == [Firing(Second, 20), Firing(First, 20)]
    ensures OneTick(c, SystemMode, Quiet).log == [First, Second] && Looks(Ticked(c, SystemMode), SystemMode, Quiet, 20) == 0
  {
    var c1 := Ticked(c, SystemMode);
    var c2 := c1.(pending := [Entry(First, 20)], fired := [Firing(Second, 20)]);
    var c3 := c1.(pending := [], fired := [Firing(Second, 20), Firing(First, 20)]);
    assert c1.pending[1..] == c2.pending && c2.pending[1..] == c3.pending;
    assert c1.fired + [Firing(Second, 20)] == c2.fired && c2.fired + [Firing(First, 20)] == c3.fired;
    assert Quiet(0) == Quiet(1) == Response([], false);
    assert CheckIfDue(c1, SystemMode, false, Quiet) == (c2, true);
    assert CheckIfDue(c2, SystemMode, false, Quiet) == (c3, true);
    assert CheckIfDue(c3, SystemMode, false, Quiet) == (c3, false);
    assert FireDue(c3, SystemMode, Quiet) == c3 && FireDue(c2, SystemMode, Quiet) == c3;
    assert Looks(c3, SystemMode, Quiet, 20) == 0 && Looks(c2, SystemMode, Quiet, 20) == 0;
  }

  /** Two interrupts for time 20, and two system ticks: the one that was scheduled second fires first. */
  lemma SecondFiresFirst() returns (clocks: seq<Clock>, events: seq<Event>)
    ensures IsRun(clocks, events, Quiet) && |events| == 4 && clocks[4].log == [First, Second]
    ensures clocks[4].fired == [Firing(Second, 20), Firing(First, 20)]
  {
    var device, tick := Device(Request(20, DiskInt)), Tick(SystemMode);
    var c0: Clock := Run([], Quiet);
    var c1 := Step(c0, device, Quiet);
    var c2 := Step(c1, device, Quiet);
    var c3 := Step(c2, tick, Quiet);
    RequestFirst(c0);
    RequestSecond(c1);
    FirstTick(c2);
    SecondTick(c3);
    clocks, events := [c0, c1, c2, c3, Step(c3, tick, Quiet)], [device, device, tick, tick];
    assert Follows(clocks, events, Quiet, 0) && Follows(clocks, events, Quiet, 1);
    assert Follows(clocks, events, Quiet, 2) && Follows(clocks, events, Quiet, 3);
  }
}
