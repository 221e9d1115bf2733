/** Whether FIFO replacement evicts the page that was loaded longest ago. */
module FifoOrder {
  import opened Sequences
  import opened BitMaps
  import opened Translation
  import opened Frames

  // The loads of a run

  /** The frame that a fault has loaded. */
  ghost function FrameGiven(vm: Vm, ev: Event): int {
    if ev.PageFault? && ev.t in vm.spaces && ev.page < |vm.spaces[ev.t]| then vm.spaces[ev.t][ev.page].frame else -1
  }

  /** The frames loaded by the first `n` events, in that order. */
  ghost function Loads(states: seq<Vm>, events: seq<Event>, n: nat): seq<int>
    requires n <= |events| < |states|
  {
    if n == 0 then [] else
      Loads(states, events, n - 1) + if events[n - 1].PageFault? then [FrameGiven(states[n], events[n - 1])] else []
  }

  /** Where `f` occurs last in `h`, or -1. */
  function Last(h: seq<int>, f: int): (r: int)
    ensures -1 <= r < |h| && (r >= 0 ==> h[r] == f)
    ensures forall i :: r < i < |h| ==> h[i] != f
  {
    if h == [] then -1 else if h[|h| - 1] == f then |h| - 1 else Last(h[..|h| - 1], f)
  }

  /** Of all frames, `f` was loaded longest ago. */
  ghost predicate Oldest(h: seq<int>, f: int) {
    0 <= Last(h, f) && forall g :: 0 <= g < NumPhysPages && g != f ==> Last(h, f) < Last(h, g)
  }

  ghost predicate SuffixOf(q: seq<int>, h: seq<int>) {
    |q| <= |h| && q == h[|h| - |q|..]
  }

  lemma {:induction false} LastInSuffix(q: seq<int>, h: seq<int>, f: int)
    requires SuffixOf(q, h) && f in q
    ensures Last(h, f) == |h| - |q| + Last(q, f) && Last(q, f) >= 0
  {
    if q[|q| - 1] != f {
      var q', h' := q[..|q| - 1], h[..|h| - 1];
      assert h'[|h'| - |q'|..] == q';
      LastInSuffix(q', h', f);
    }
  }

  // The queue of a run

  ghost predicate Full(vm: Vm) {
    LeastClear(vm.marked, NumPhysPages) == NumPhysPages
  }

  /** What a fault does to the queue. */
  lemma FaultQueue(vm: Vm, t: nat, v: nat, random: nat)
    requires Sound(vm) && vm.policy == Fifo && t in vm.spaces && v < |vm.spaces[t]| && !vm.spaces[t][v].valid
    ensures HasVictim(vm, random)
    ensures var vm' := Fault(vm, t, v, random);
            var f := FrameGiven(vm', PageFault(t, v, random));
            && vm'.policy == Fifo
            && if Full(vm) then vm.pageList != [] && f == vm.pageList[0] && vm'.pageList == vm.pageList[1..] + [f] && vm'.marked == vm.marked
               else f !in vm.marked && vm'.pageList == vm.pageList + [f] && vm'.marked == vm.marked + {f}
  {
    FaultSound(vm, t, v, random);
    LeastClearIsLeast(vm.marked, NumPhysPages);
  }

  /** In a FIFO run the queue is the end of the history of loads. */
  lemma {:induction false} QueueIsRecent(states: seq<Vm>, events: seq<Event>, n: nat)
    requires IsRun(states, events) && states[0].policy == Fifo && n <= |events|
    ensures states[n].policy == Fifo && SuffixOf(states[n].pageList, Loads(states, events, n))
    decreases n
  {
    if n > 0 {
      QueueIsRecent(states, events, n - 1);
      RunSound(states, events, n - 1);
      assert Follows(states, events, n - 1);
      QueueStep(states[n - 1], events[n - 1], states[n], Loads(states, events, n - 1));
    }
  }

  lemma QueueStep(vm: Vm, ev: Event, vm': Vm, h: seq<int>)
    requires Sound(vm) && vm.policy == Fifo && Next(vm, ev, vm') && SuffixOf(vm.pageList, h)
    ensures vm'.policy == Fifo && SuffixOf(vm'.pageList, h + if ev.PageFault? then [FrameGiven(vm', ev)] else [])
  {
    if ev.PageFault? {
      FaultQueue(vm, ev.t, ev.page, ev.random);
      SuffixAppend(vm.pageList, h, FrameGiven(vm', ev));
    } else {
      assert h + [] == h;
    }
  }

  lemma SuffixAppend(q: seq<int>, h: seq<int>, f: int)
    requires SuffixOf(q, h)
    ensures SuffixOf(q + [f], h + [f]) && (q != [] ==> SuffixOf(q[1..] + [f], h + [f]))
  {
    assert (h + [f])[|h| - |q|..] == q + [f];
    if q != [] {
      assert (h + [f])[|h| + 1 - |q|..] == q[1..] + [f];
    }
  }

  lemma FullQueue(vm: Vm, f: int)
    requires Sound(vm) && vm.policy == Fifo && Full(vm) && 0 <= f < NumPhysPages
    ensures f in vm.pageList && vm.pageList != [] && 0 <= vm.pageList[0] < NumPhysPages
  {
    LeastClearIsLeast(vm.marked, NumPhysPages);
    assert f in vm.marked;
    assert vm.pageList[0] in vm.pageList;
  }

  /** All other frames are in the queue again after the last entry for the one at its head. */
  ghost predicate HeadIsLast(q: seq<int>) {
    q != [] && forall g :: 0 <= g < NumPhysPages && g != q[0] ==> ComesAfter(q, Last(q, q[0]), g)
  }

  ghost predicate ComesAfter(q: seq<int>, p: int, g: int)
    requires -1 <= p < |q|
  {
    g in q[p + 1..]
  }

  lemma After(q: seq<int>, p: int, g: int)
    requires 0 <= p < |q|
    ensures ComesAfter(q, p, g) <==> p < Last(q, g)
  {
    if p < Last(q, g) {
      assert q[p + 1..][Last(q, g) - p - 1] == g;
    }
  }

  /** In every FIFO run, a fault that finds memory full evicts the page loaded longest ago exactly when
      the queue has an entry for every other frame after the last one for the frame at its head. */
  lemma EvictsOldestIff(states: seq<Vm>, events: seq<Event>, n: nat, random: nat)
    requires IsRun(states, events) && states[0].policy == Fifo && n <= |events| && Full(states[n])
    ensures Oldest(Loads(states, events, n), Victim(states[n], random)) <==> HeadIsLast(states[n].pageList)
  {
    var vm, h := states[n], Loads(states, events, n);
    QueueIsRecent(states, events, n);
    RunSound(states, events, n);
    FullQueue(vm, 0);
    var q := vm.pageList;
    forall g | 0 <= g < NumPhysPages ensures Last(h, q[0]) < Last(h, g) <==> ComesAfter(q, Last(q, q[0]), g) {
      FullQueue(vm, g);
      LastInSuffix(q, h, g);
      LastInSuffix(q, h, q[0]);
      After(q, Last(q, q[0]), g);
    }
    LastInSuffix(q, h, q[0]);
  }

  // Runs without exits

  ghost predicate NoExit(events: seq<Event>, n: nat)
    requires n <= |events|
  {
    forall i :: 0 <= i < n ==> !events[i].SpaceExit?
  }

  /** As long as no address space is deleted, the queue holds every frame in use once. */
  lemma {:induction false} QueueIsExact(states: seq<Vm>, events: seq<Event>, n: nat)
    requires IsRun(states, events) && states[0].policy == Fifo && n <= |events| && NoExit(events, n)
    ensures Distinct(states[n].pageList) && forall f :: f in states[n].pageList ==> f in states[n].marked
    decreases n
  {
    if n > 0 {
      QueueIsExact(states, events, n - 1);
      QueueIsRecent(states, events, n - 1);
      RunSound(states, events, n - 1);
      assert Follows(states, events, n - 1);
      var vm, ev := states[n - 1], events[n - 1];
      if ev.PageFault? {
        FaultQueue(vm, ev.t, ev.page, ev.random);
      }
    }
  }

  /** Then every fault that finds memory full evicts the page loaded longest ago. */
  lemma FifoWithoutExits(states: seq<Vm>, events: seq<Event>, n: nat, random: nat)
    requires IsRun(states, events) && states[0].policy == Fifo && n <= |events| && NoExit(events, n) && Full(states[n])
    ensures Distinct(states[n].pageList) && Oldest(Loads(states, events, n), Victim(states[n], random))
  {
    QueueIsExact(states, events, n);
    QueueIsRecent(states, events, n);
    RunSound(states, events, n);
    var q := states[n].pageList;
    FullQueue(states[n], 0);
    assert Last(q, q[0]) == 0;
    forall g | 0 <= g < NumPhysPages && g != q[0] ensures ComesAfter(q, 0, g) {
      FullQueue(states[n], g);
      assert q == [q[0]] + q[1..];
    }
    EvictsOldestIff(states, events, n, random);
  }

  // A run in which the queue goes wrong: thread 0 loads one page and exits, and thread 1 then loads
  // pages 0 to 32.  Frame 0 was in the queue twice, so it is now at its head although it was loaded last.

  const Boot := Vm(Fifo, {}, map[], map[], [])

  const Exited := Vm(Fifo, {}, map[0 := 0], map[], [0])

  ghost function Resident(k: nat): seq<Page> {
    seq(33, i => if i < k then Page(i, true, false) else Away)
  }

  /** Thread 1 has loaded its first `k` pages. */
  ghost function Loading(k: nat): Vm {
    Vm(Fifo, set f | f in Count(k), if k == 0 then map[0 := 0] else map f | f in Count(k) :: 1, map[1 := Resident(k)], [0] + Count(k))
  }

  /** Page 32 has taken the frame of page 0. */
  ghost function StaleQueue(): Vm {
    Vm(Fifo, set f | f in Count(32), map f | f in Count(32) :: 1, map[1 := Resident(32)[0 := Away][32 := Page(0, true, false)]],
       Count(32) + [0])
  }

  lemma LeastIs(marked: set<int>, k: nat)
    requires k <= NumPhysPages && forall f :: 0 <= f < NumPhysPages ==> (f in marked <==> f < k)
    ensures LeastClear(marked, NumPhysPages) == k
  {
    LeastClearIsLeast(marked, NumPhysPages);
    assert k < NumPhysPages ==> k !in marked;
  }

  lemma BootSteps()
    ensures Next(Boot, NewSpace(0, 1), Create(Boot, 0, 1))
    ensures Next(Create(Boot, 0, 1), PageFault(0, 0, 0), Load(Create(Boot, 0, 1).(marked := {0}), 0, 0, 0))
    ensures Next(Load(Create(Boot, 0, 1).(marked := {0}), 0, 0, 0), SpaceExit(0), Exited)
    ensures Next(Exited, NewSpace(1, 33), Loading(0))
  {
    var created := Create(Boot, 0, 1);
    LeastIs(created.marked, 0);
    assert created.marked + {0} == {0};
    var loaded := Load(created.(marked := {0}), 0, 0, 0);
    assert loaded.spaces[0] == [Page(0, true, false)];
    InFramesOf(loaded.spaces[0], 0);
    assert loaded.spaces[0][0].frame == 0;
    assert loaded.marked - FramesOf(loaded.spaces[0]) == {};
    assert loaded.spaces - {0} == map[];
    assert Exit(loaded, 0) == Exited;
    assert Resident(0) == seq(33, i => Away);
  }

  lemma LoadingStep(k: nat)
    requires k < 32
    ensures Next(Loading(k), PageFault(1, k, 0), Loading(k + 1))
  {
    var vm := Loading(k);
    LeastIs(vm.marked, k);
    assert vm.marked + {k} == Loading(k + 1).marked;
    assert Resident(k)[k := Page(k, true, false)] == Resident(k + 1);
    assert vm.spaces[1 := Resident(k + 1)] == Loading(k + 1).spaces;
    assert vm.ipt[k := 1] == Loading(k + 1).ipt;
    assert vm.pageList + [k] == Loading(k + 1).pageList;
  }

  lemma StaleStep()
    ensures Next(Loading(32), PageFault(1, 32, 0), StaleQueue())
  {
    var vm := Loading(32);
    LeastIs(vm.marked, 32);
    assert PageIn(Resident(32), 0) == 0 by {
      assert Resident(32)[0].frame == 0;
    }
    assert vm.pageList[1..] + [0] == StaleQueue().pageList;
    assert vm.ipt[0 := 1] == StaleQueue().ipt;
    assert vm.spaces[1 := Resident(32)[0 := Away]][1 := Resident(32)[0 := Away][32 := Page(0, true, false)]] == StaleQueue().spaces;
  }

  ghost function StateAt(i: nat): Vm {
    if i == 0 then Boot
    else if i == 1 then Create(Boot, 0, 1)
    else if i == 2 then Load(Create(Boot, 0, 1).(marked := {0}), 0, 0, 0)
    else if i == 3 then Exited
    else if i < 37 then Loading(i - 4)
    else StaleQueue()
  }

  ghost function EventAt(i: nat): Event {
    if i == 0 then NewSpace(0, 1)
    else if i == 1 then PageFault(0, 0, 0)
    else if i == 2 then SpaceExit(0)
    else if i == 3 then NewSpace(1, 33)
    else PageFault(1, i - 4, 0)
  }

  lemma StepAtBoot(i: nat)
    requires i < 4
    ensures Next(StateAt(i), EventAt(i), StateAt(i + 1))
  {
    BootSteps();
  }

  lemma StepAtLoading(i: nat)
    requires 4 <= i < 36
    ensures Next(StateAt(i), EventAt(i), StateAt(i + 1))
  {
    LoadingStep(i - 4);
    assert StateAt(i) == Loading(i - 4) && StateAt(i + 1) == Loading(i - 4 + 1);
  }

  lemma StepAt(i: nat)
    requires i < 37
    ensures Next(StateAt(i), EventAt(i), StateAt(i + 1))
  {
    if i < 4 {
      StepAtBoot(i);
    } else if i < 36 {
      StepAtLoading(i);
    } else {
      StaleStep();
    }
  }

  /** The state is reached from boot. */
  lemma StaleQueueReachable() returns (states: seq<Vm>, events: seq<Event>)
    ensures IsRun(states, events) && states[0] == Boot && |events| == 37 && states[37] == StaleQueue() && events[36] == EventAt(36)
  {
    states := seq(38, i requires 0 <= i => StateAt(i));
    events := seq(37, i requires 0 <= i => EventAt(i));
    assert states[0] == Boot && states[37] == StaleQueue();
    forall i | 0 <= i < |events| ensures Follows(states, events, i) {
      StepAt(i);
      assert states[i] == StateAt(i) && events[i] == EventAt(i) && states[i + 1] == StateAt(i + 1);
    }
  }

  /** In that state the next fault evicts the page that was loaded last. */
  lemma StaleQueueEvictsNewest(random: nat) returns (states: seq<Vm>, events: seq<Event>)
    ensures IsRun(states, events) && states[0].policy == Fifo && Full(states[|events|])
    ensures var h := Loads(states, events, |events|); h != [] && Victim(states[|events|], random) == h[|h| - 1]
  {
    states, events := StaleQueueReachable();
    LeastIs(StaleQueue().marked, 32);
    assert Follows(states, events, 36);
    assert events[36] == PageFault(1, 32, 0);
  }
}
