/** Who comes next: the order of the ready list and of the semaphore queues. */
module ThreadOrder {
  import opened Sequences
  import opened Threads

  /** Steps that give the processor to the first ready thread. */
  ghost function Dispatches(ops: seq<Op>, a: nat, b: nat): nat
    requires a <= b <= |ops|
  {
    if a == b then 0 else Dispatches(ops, a, b - 1) + if ops[b - 1].Yield? || ops[b - 1].Dispatch? then 1 else 0
  }

  /** Parents that were woken by a child that finished, and so went to the front. */
  ghost function Wakes(states: seq<Kernel>, ops: seq<Op>, a: nat, b: nat): nat
    requires a <= b <= |ops| < |states|
  {
    if a == b then 0 else Wakes(states, ops, a, b - 1) + if WakesParent(states[b - 1], ops[b - 1]) then 1 else 0
  }

  ghost predicate WakesParent(k: Kernel, op: Op) {
    op.Finish? && k.running.Some? && k.running.value in k.parent
  }

  ghost predicate ReadyAt(k: Kernel, i: int, t: Id) {
    0 <= i < |k.ready| && k.ready[i] == t
  }

  lemma ReadyStep(k: Kernel, op: Op, k': Kernel, i: nat, t: Id)
    requires Enabled(k, op) && k' == Apply(k, op) && ReadyAt(k, i, t) && k'.running != Some(t)
    ensures ReadyAt(k', if op.Yield? || op.Dispatch? then i - 1 else if WakesParent(k, op) then i + 1 else i, t)
  {
  }

  /** The ready list is a queue: while a thread waits on it at place `p`, no more threads are dispatched
      than were in front of it or woken from Join since. */
  lemma {:induction false} BoundedWaiting(states: seq<Kernel>, ops: seq<Op>, a: nat, b: nat, t: Id, p: nat)
    requires IsRun(states, ops) && a <= b <= |ops| && ReadyAt(states[a], p, t)
    requires forall i :: a < i <= b ==> states[i].running != Some(t)
    ensures Dispatches(ops, a, b) <= p + Wakes(states, ops, a, b)
    ensures ReadyAt(states[b], p + Wakes(states, ops, a, b) - Dispatches(ops, a, b), t)
    decreases b
  {
    if a < b {
      BoundedWaiting(states, ops, a, b - 1, t, p);
      var q := p + Wakes(states, ops, a, b - 1) - Dispatches(ops, a, b - 1);
      assert Follows(states, ops, b - 1);
      ReadyStep(states[b - 1], ops[b - 1], states[b], q, t);
    }
  }

  ghost function Releases(ops: seq<Op>, s: nat, a: nat, b: nat): nat
    requires a <= b <= |ops|
  {
    if a == b then 0 else Releases(ops, s, a, b - 1) + if ops[b - 1] == V(s) then 1 else 0
  }

  ghost predicate QueuedAt(k: Kernel, s: nat, i: int, t: Id) {
    s in k.semaphores && 0 <= i < |k.semaphores[s].queue| && k.semaphores[s].queue[i] == t
  }

  lemma QueueStep(k: Kernel, op: Op, k': Kernel, s: nat, i: nat, t: Id)
    requires Enabled(k, op) && k' == Apply(k, op) && QueuedAt(k, s, i, t)
    ensures if op == V(s) && i == 0 then Has(k', t, Ready) else QueuedAt(k', s, if op == V(s) then i - 1 else i, t)
  {
  }

  /** Waiters are woken in the order in which they went to sleep: one at place `p` of the queue sleeps
      through the next `p` calls of V, */
  lemma {:induction false} SleepsInOrder(states: seq<Kernel>, ops: seq<Op>, a: nat, b: nat, s: nat, p: nat, t: Id)
    requires IsRun(states, ops) && a <= b <= |ops| && QueuedAt(states[a], s, p, t)
    requires Releases(ops, s, a, b) <= p
    ensures QueuedAt(states[b], s, p - Releases(ops, s, a, b), t)
    decreases b
  {
    if a < b {
      SleepsInOrder(states, ops, a, b - 1, s, p, t);
      assert Follows(states, ops, b - 1);
      QueueStep(states[b - 1], ops[b - 1], states[b], s, p - Releases(ops, s, a, b - 1), t);
    }
  }

  /** and is made ready by the one after that. */
  lemma WokenInOrder(states: seq<Kernel>, ops: seq<Op>, a: nat, b: nat, s: nat, p: nat, t: Id)
    requires IsRun(states, ops) && a <= b < |ops| && QueuedAt(states[a], s, p, t)
    requires Releases(ops, s, a, b) == p && ops[b] == V(s)
    ensures Has(states[b + 1], t, Ready)
  {
    SleepsInOrder(states, ops, a, b, s, p, t);
    assert Follows(states, ops, b);
    QueueStep(states[b], ops[b], states[b + 1], s, 0, t);
  }

  /** The value of semaphore `s`; 0 before it is made. */
  ghost function ValueOf(k: Kernel, s: nat): int {
    if s in k.semaphores then k.semaphores[s].value else 0
  }

  ghost predicate Completes(k: Kernel, op: Op, s: nat) {
    op == P(s) && ValueOf(k, s) != 0
  }

  /** The calls of P on `s` that completed. */
  ghost function Entries(states: seq<Kernel>, ops: seq<Op>, s: nat, a: nat, b: nat): nat
    requires a <= b <= |ops| < |states|
  {
    if a == b then 0 else Entries(states, ops, s, a, b - 1) + if Completes(states[b - 1], ops[b - 1], s) then 1 else 0
  }

  lemma ValueStep(k: Kernel, op: Op, k': Kernel, s: nat)
    requires Enabled(k, op) && k' == Apply(k, op) && s in k.semaphores
    ensures s in k'.semaphores
    ensures ValueOf(k', s) == ValueOf(k, s) + (if op == V(s) then 1 else 0) - (if Completes(k, op, s) then 1 else 0)
  {
  }

  lemma {:induction false} ValueAfter(states: seq<Kernel>, ops: seq<Op>, s: nat, a: nat, b: nat)
    requires IsRun(states, ops) && a <= b <= |ops| && s in states[a].semaphores
    ensures s in states[b].semaphores
    ensures ValueOf(states[b], s) == ValueOf(states[a], s) + Releases(ops, s, a, b) - Entries(states, ops, s, a, b)
    ensures ValueOf(states[a], s) >= 0 ==> ValueOf(states[b], s) >= 0
    decreases b
  {
    if a < b {
      ValueAfter(states, ops, s, a, b - 1);
      assert Follows(states, ops, b - 1);
      ValueStep(states[b - 1], ops[b - 1], states[b], s);
    }
  }

  /** From the making of a semaphore on: its value is what it was made with, and the completed calls of V, less those of
      P; and nobody was queued at first. */
  lemma ValueFromNew(states: seq<Kernel>, ops: seq<Op>, s: nat, n: int, a: nat, b: nat)
    requires IsRun(states, ops) && a < b <= |ops| && ops[a] == NewSemaphore(s, n)
    ensures s in states[a + 1].semaphores && states[a + 1].semaphores[s].queue == []
    ensures ValueOf(states[b], s) == n + Releases(ops, s, a + 1, b) - Entries(states, ops, s, a + 1, b)
  {
    assert Follows(states, ops, a);
    ValueAfter(states, ops, s, a + 1, b);
  }

  ghost predicate Inside(k: Kernel, t: Id, s: nat) {
    t in k.inP && k.inP[t] == s
  }

  lemma {:induction false} StaysInside(states: seq<Kernel>, ops: seq<Op>, s: nat, t: Id, a: nat, b: nat)
    requires IsRun(states, ops) && a <= b <= |ops| && Inside(states[a], t, s)
    requires forall i :: a <= i < b ==> states[i].running != Some(t)
    ensures Inside(states[b], t, s)
    decreases b
  {
    if a < b {
      StaysInside(states, ops, s, t, a, b - 1);
      assert Follows(states, ops, b - 1);
      InsideStep(states[b - 1], ops[b - 1], states[b], s, t);
    }
  }

  lemma InsideStep(k: Kernel, op: Op, k': Kernel, s: nat, t: Id)
    requires Enabled(k, op) && k' == Apply(k, op) && Inside(k, t, s) && k.running != Some(t)
    ensures Inside(k', t, s)
  {
  }

  /** Thread `t` has got the semaphore. */
  ghost predicate Took(k: Kernel, k': Kernel, s: nat, t: Id) {
    && s in k.semaphores && s in k'.semaphores && k'.semaphores[s].entered == k.semaphores[s].entered + 1
    && k'.running == Some(t) && t !in k'.inP
  }

  lemma PassStep(k: Kernel, op: Op, k': Kernel, s: nat, t: Id)
    requires Enabled(k, op) && k' == Apply(k, op) && Inside(k, t, s) && k.running == Some(t)
    ensures op == P(s)
    ensures Took(k, k', s, t) <==> ValueOf(k, s) != 0
    ensures ValueOf(k, s) == 0 ==> QueuedAt(k', s, |k.semaphores[s].queue|, t) && |k'.semaphores[s].queue| == |k.semaphores[s].queue| + 1
  {
  }

  /** A thread that V wakes at step `a` and that next runs at step `b` takes the semaphore then exactly
      when fewer calls of P completed in between than there was value and calls of V to serve them;
      otherwise it is now the last in the queue. */
  lemma WokenTakesIff(states: seq<Kernel>, ops: seq<Op>, s: nat, t: Id, a: nat, b: nat)
    requires IsRun(states, ops) && a < b < |ops| && ops[a] == V(s) && QueuedAt(states[a], s, 0, t)
    requires states[b].running == Some(t) && forall i :: a < i < b ==> states[i].running != Some(t)
    ensures ops[b] == P(s)
    ensures Took(states[b], states[b + 1], s, t) <==>
            Entries(states, ops, s, a + 1, b) < ValueOf(states[a + 1], s) + Releases(ops, s, a + 1, b)
    ensures !Took(states[b], states[b + 1], s, t) ==>
              && s in states[b + 1].semaphores
              && QueuedAt(states[b + 1], s, |states[b + 1].semaphores[s].queue| - 1, t)
  {
    RunInvariant(states, ops, a);
    assert Follows(states, ops, a) && Follows(states, ops, b);
    WokenInside(states[a], states[a + 1], s, t);
    ValueAfter(states, ops, s, a + 1, b);
    StaysInside(states, ops, s, t, a + 1, b);
    PassStep(states[b], ops[b], states[b + 1], s, t);
  }

  lemma WokenInside(k: Kernel, k': Kernel, s: nat, t: Id)
    requires Invariant(k) && QueuedAt(k, s, 0, t) && k' == VStep(k, s)
    ensures Inside(k', t, s) && s in k'.semaphores && ValueOf(k', s) > 0
  {
    assert PlacedAt(k, t) && Queued(k, t, s);
    assert Counts(k.semaphores[s], |Woken(k, s)|);
  }

  lemma AsleepRun() returns (states: seq<Kernel>, ops: seq<Op>)
    ensures IsRun(states, ops) && |ops| == 5
    ensures states[5] == Kernel(map[0 := Running, 1 := Blocked], Some(0), [], map[0 := Semaphore(0, [1], 0, 0, 0)], map[1 := 0], {}, map[], {}, {})
  {
    states, ops := Begin(0);
    states, ops := Then(states, ops, NewSemaphore(0, 0));
    states, ops := Then(states, ops, Fork(1, false));
    states, ops := Then(states, ops, Yield);
    states, ops := Then(states, ops, P(0));
    states, ops := Then(states, ops, Dispatch);
    assert states[5].status == map[0 := Running, 1 := Blocked];
    assert states[5].semaphores[0].queue == [1];
    assert states[5].semaphores == map[0 := Semaphore(0, [1], 0, 0, 0)];
  }

  /** Thread 1 sleeps in P, thread 0 wakes it and takes the semaphore before it: thread 1 sleeps again. */
  lemma OvertakenRun() returns (states: seq<Kernel>, ops: seq<Op>)
    ensures IsRun(states, ops) && |ops| == 9 && ops[5] == V(0) && QueuedAt(states[5], 0, 0, 1)
    ensures states[8].running == Some(1) && ops[8] == P(0) && QueuedAt(states[9], 0, 0, 1)
  {
    states, ops := AsleepRun();
    states, ops := Then(states, ops, V(0));
    states, ops := Then(states, ops, P(0));
    states, ops := Then(states, ops, Yield);
    states, ops := Then(states, ops, P(0));
  }

  /** While a thread that yielded waits for its next turn, every thread that was ready gets one. */
  lemma RoundRobin(states: seq<Kernel>, ops: seq<Op>, a: nat, b: nat, i: Id, j: Id)
    requires IsRun(states, ops) && a < b <= |ops| && ops[a] == Yield && states[a].running == Some(i) && j in states[a].ready
    requires states[b].running == Some(i) && forall c :: a < c < b ==> states[c].running != Some(i)
    ensures exists c :: a < c < b && states[c].running == Some(j)
  {
    var p := AfterYield(states, ops, a, i, j);
    var n := |states[a].ready|;
    if forall c :: a < c < b ==> states[c].running != Some(j) {
      BoundedWaiting(states, ops, a + 1, b - 1, i, n - 1);
      BoundedWaiting(states, ops, a + 1, b - 1, j, p - 1);
      var back := Wakes(states, ops, a + 1, b - 1) - Dispatches(ops, a + 1, b - 1);
      FirstIsDispatched(states, ops, b - 1, n - 1 + back, i);
    }
  }

  /** The yielding thread is behind all that are ready. */
  lemma AfterYield(states: seq<Kernel>, ops: seq<Op>, a: nat, i: Id, j: Id) returns (p: nat)
    requires IsRun(states, ops) && a < |ops| && ops[a] == Yield && states[a].running == Some(i) && j in states[a].ready
    ensures states[a + 1].running != Some(i)
    ensures p < |states[a].ready| && if p == 0 then states[a + 1].running == Some(j) else ReadyAt(states[a + 1], p - 1, j)
    ensures ReadyAt(states[a + 1], |states[a].ready| - 1, i)
  {
    RunInvariant(states, ops, a);
    assert Follows(states, ops, a) && PlacedAt(states[a], i) && PlacedAt(states[a], states[a].ready[0]);
    p :| 0 <= p < |states[a].ready| && states[a].ready[p] == j;
  }

  lemma FirstIsDispatched(states: seq<Kernel>, ops: seq<Op>, b: nat, q: nat, t: Id)
    requires IsRun(states, ops) && b < |ops| && ReadyAt(states[b], q, t) && states[b + 1].running == Some(t)
    ensures q == 0
  {
    RunInvariant(states, ops, b);
    assert Follows(states, ops, b) && PlacedAt(states[b], t);
    assert states[b].ready[0] == t;
  }
}
