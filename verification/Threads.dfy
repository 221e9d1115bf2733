/**
  Threads, semaphores and Join on one processor, for any number of threads.  A step is what runs with
  interrupts disabled: one pass through the loop of P, a whole V, Yield, Join or Finish, or the
  dispatch of the next ready thread.
 */
module Threads {
  import opened Sequences

  type Id = nat

  datatype Status = Running | Ready | Blocked

  /** `initial`, `entered` and `released` are history: the value it was made with, and how many calls
      of P and V have completed. */
  datatype Semaphore = Semaphore(value: int, queue: seq<Id>, initial: int, entered: nat, released: nat)

  /** `running` is None while the thread that gave up the processor waits for a ready one.
      `inP` maps the threads that are inside P, asleep or about to look at the value again, to the semaphore. */
  datatype Kernel = Kernel(
    status: map<Id, Status>,
    running: Option<Id>,
    ready: seq<Id>,
    semaphores: map<nat, Semaphore>,
    inP: map<Id, nat>,
    active: set<Id>,
    parent: map<Id, Id>,
    joined: set<Id>,
    finished: set<Id>)

  /** The main thread is running. */
  function Boot(main: Id): Kernel {
    Kernel(map[main := Running], Some(main), [], map[], map[], {}, map[], {}, {})
  }

  datatype Op =
    | NewSemaphore(s: nat, initial: int)
    | Fork(child: Id, listed: bool)
    | Yield
    | P(s: nat)
    | V(s: nat)
    | Dispatch
    | Join(child: Id)
    | Finish

  /** A thread that is running and not inside P. */
  predicate Free(k: Kernel) {
    k.running.Some? && k.running.value !in k.inP
  }

  /** A thread that was woken inside P looks at the value again before anything else happens;
      V can also be called by an interrupt handler while the processor idles. */
  predicate Enabled(k: Kernel, op: Op) {
    match op
    case NewSemaphore(s, _) => Free(k) && s !in k.semaphores
    case Fork(child, _) => Free(k) && child !in k.status
    case Yield => Free(k)
    case P(s) => k.running.Some? && s in k.semaphores && (k.running.value in k.inP ==> k.inP[k.running.value] == s)
    case V(s) => (k.running.None? || Free(k)) && s in k.semaphores
    case Dispatch => k.running.None? && k.ready != []
    case Join(_) => Free(k)
    case Finish => Free(k)
  }

  function NewStep(k: Kernel, s: nat, initial: int): Kernel {
    k.(semaphores := k.semaphores[s := Semaphore(initial, [], initial, 0, 0)])
  }

  function ForkStep(k: Kernel, child: Id, listed: bool): Kernel {
    k.(status := k.status[child := Ready], ready := k.ready + [child], active := if listed then k.active + {child} else k.active)
  }

  function YieldStep(k: Kernel): Kernel
    requires k.running.Some?
  {
    if k.ready == [] then k
    else k.(status := k.status[k.running.value := Ready][k.ready[0] := Running],
            running := Some(k.ready[0]), ready := k.ready[1..] + [k.running.value])
  }

  /** One pass of the loop in P: take the value, or join the queue and sleep. */
  function PStep(k: Kernel, s: nat): Kernel
    requires k.running.Some? && s in k.semaphores
  {
    var t := k.running.value;
    var sem := k.semaphores[s];
    if sem.value == 0 then
      k.(semaphores := k.semaphores[s := sem.(queue := sem.queue + [t])], inP := k.inP[t := s],
         status := k.status[t := Blocked], running := None)
    else
      k.(semaphores := k.semaphores[s := sem.(value := sem.value - 1, entered := sem.entered + 1)], inP := k.inP - {t})
  }

  function VStep(k: Kernel, s: nat): Kernel
    requires s in k.semaphores
  {
    var sem := k.semaphores[s];
    if sem.queue == [] then
      k.(semaphores := k.semaphores[s := sem.(value := sem.value + 1, released := sem.released + 1)])
    else
      k.(semaphores := k.semaphores[s := sem.(value := sem.value + 1, released := sem.released + 1, queue := sem.queue[1..])],
         status := k.status[sem.queue[0] := Ready], ready := k.ready + [sem.queue[0]])
  }

  function DispatchStep(k: Kernel): Kernel
    requires k.ready != []
  {
    k.(status := k.status[k.ready[0] := Running], running := Some(k.ready[0]), ready := k.ready[1..])
  }

  /** Sleep until `child` finishes; nothing happens if it is not active. */
  function JoinStep(k: Kernel, child: Id): Kernel
    requires k.running.Some?
  {
    var t := k.running.value;
    if child !in k.active || t in k.joined then k
    else k.(parent := k.parent[child := t], joined := k.joined + {t}, status := k.status[t := Blocked], running := None)
  }

  /** The thread ends; a parent that waits for it goes to the front of the ready list. */
  function FinishStep(k: Kernel): Kernel
    requires k.running.Some?
  {
    var t := k.running.value;
    var woken := if t in k.parent then Woke(k, k.parent[t]) else k;
    woken.(active := k.active - {t}, finished := k.finished + {t}, status := woken.status[t := Blocked], running := None)
  }

  function Woke(k: Kernel, p: Id): Kernel {
    k.(joined := k.joined - {p}, status := k.status[p := Ready], ready := [p] + k.ready)
  }

  function Apply(k: Kernel, op: Op): Kernel
    requires Enabled(k, op)
  {
    match op
    case NewSemaphore(s, initial) => NewStep(k, s, initial)
    case Fork(child, listed) => ForkStep(k, child, listed)
    case Yield => YieldStep(k)
    case P(s) => PStep(k, s)
    case V(s) => VStep(k, s)
    case Dispatch => DispatchStep(k)
    case Join(child) => JoinStep(k, child)
    case Finish => FinishStep(k)
  }

  ghost predicate IsRun(states: seq<Kernel>, ops: seq<Op>) {
    && |states| == |ops| + 1
    && (exists main :: states[0] == Boot(main))
    && forall i :: 0 <= i < |ops| ==> Follows(states, ops, i)
  }

  ghost predicate Follows(states: seq<Kernel>, ops: seq<Op>, i: int) {
    0 <= i < |ops| < |states| && Enabled(states[i], ops[i]) && states[i + 1] == Apply(states[i], ops[i])
  }

  // Where threads are

  ghost predicate Queued(k: Kernel, t: Id, s: nat) {
    s in k.semaphores && t in k.semaphores[s].queue
  }

  ghost predicate Has(k: Kernel, t: Id, status: Status) {
    t in k.status && k.status[t] == status
  }

  /** The status of a thread agrees with the one list or set that it is in. */
  ghost predicate PlacedAt(k: Kernel, t: Id) {
    && (k.running == Some(t) <==> Has(k, t, Running))
    && (t in k.ready <==> Has(k, t, Ready))
    && (forall s :: Queued(k, t, s) ==> Has(k, t, Blocked) && t in k.inP && k.inP[t] == s)
    && (t in k.joined ==> Has(k, t, Blocked) && t !in k.inP && t !in k.finished)
    && (t in k.finished ==> Has(k, t, Blocked) && t !in k.inP)
    && (Has(k, t, Blocked) ==> t in k.joined || t in k.finished || (t in k.inP && Queued(k, t, k.inP[t])))
    && (t in k.inP ==> t in k.status && k.inP[t] in k.semaphores)
  }

  ghost predicate Placed(k: Kernel) {
    && (forall t :: PlacedAt(k, t))
    && Distinct(k.ready) && forall s :: s in k.semaphores ==> Distinct(k.semaphores[s].queue)
  }

  // Semaphores

  /** Woken from the queue of `s`, and not yet back in the loop of P. */
  ghost function Woken(k: Kernel, s: nat): set<Id> {
    set t | t in k.inP && k.inP[t] == s && !Queued(k, t, s)
  }

  /** The value counts; it is negative only if it was made negative; and while threads are queued it
      is no more than the number of threads already on their way to take it. */
  ghost predicate Counts(sem: Semaphore, woken: nat) {
    && sem.value == sem.initial + sem.released - sem.entered
    && (sem.initial >= 0 ==> sem.value >= 0)
    && (sem.queue != [] ==> 0 <= sem.value <= woken)
  }

  ghost predicate Counted(k: Kernel) {
    forall s :: s in k.semaphores ==> Counts(k.semaphores[s], |Woken(k, s)|)
  }

  // Join

  ghost predicate Awaited(k: Kernel, c: Id, p: Id) {
    c in k.parent && k.parent[c] == p && c !in k.finished
  }

  /** The parent of a live child is blocked in Join, and waits for that child only. */
  ghost predicate Family(k: Kernel) {
    && (forall c :: c in k.parent ==> c in k.status)
    && (forall c :: c in k.active ==> c in k.status && c !in k.finished)
    && (forall c, p :: Awaited(k, c, p) ==> p in k.joined)
    && (forall c, d, p :: Awaited(k, c, p) && Awaited(k, d, p) ==> c == d)
  }

  ghost predicate Invariant(k: Kernel) {
    Placed(k) && Counted(k) && Family(k)
  }

  lemma BootInvariant(main: Id)
    ensures Invariant(Boot(main))
  {
  }

  lemma {:induction false} TailOf(q: seq<Id>, u: Id)
    requires q != [] && Distinct(q)
    ensures Distinct(q[1..]) && (u in q[1..] <==> u in q && u != q[0])
  {
  }

  lemma ForkPlaced(k: Kernel, child: Id, listed: bool)
    requires Placed(k) && child !in k.status
    ensures Placed(ForkStep(k, child, listed))
  {
    var k' := ForkStep(k, child, listed);
    assert PlacedAt(k, child);
    forall u ensures PlacedAt(k', u) {
      assert PlacedAt(k, u);
      assert forall s :: Queued(k', u, s) <==> Queued(k, u, s);
    }
  }

  lemma YieldPlaced(k: Kernel)
    requires Placed(k) && k.running.Some?
    ensures Placed(YieldStep(k))
  {
    var k' := YieldStep(k);
    var t := k.running.value;
    assert PlacedAt(k, t);
    if k.ready != [] {
      assert PlacedAt(k, k.ready[0]);
      TailOf(k.ready, t);
      forall u ensures PlacedAt(k', u) {
        assert PlacedAt(k, u);
        TailOf(k.ready, u);
        assert forall s :: Queued(k', u, s) <==> Queued(k, u, s);
      }
    }
  }

  lemma PPlaced(k: Kernel, s: nat)
    requires Placed(k) && Enabled(k, P(s))
    ensures Placed(PStep(k, s))
  {
    var k' := PStep(k, s);
    var t := k.running.value;
    assert PlacedAt(k, t) && !Queued(k, t, s);
    forall u ensures PlacedAt(k', u) {
      assert PlacedAt(k, u);
      assert forall r :: Queued(k', u, r) <==> Queued(k, u, r) || (k.semaphores[s].value == 0 && u == t && r == s);
    }
  }

  lemma VPlaced(k: Kernel, s: nat)
    requires Placed(k) && s in k.semaphores
    ensures Placed(VStep(k, s))
  {
    var k' := VStep(k, s);
    var q := k.semaphores[s].queue;
    if q != [] {
      assert PlacedAt(k, q[0]) && Queued(k, q[0], s);
      TailOf(q, 0);
    }
    forall u ensures PlacedAt(k', u) {
      assert PlacedAt(k, u);
      if q != [] {
        TailOf(q, u);
      }
      forall r ensures Queued(k', u, r) <==> Queued(k, u, r) && (q != [] ==> u != q[0]) {
        assert r != s ==> (Queued(k', u, r) <==> Queued(k, u, r));
      }
    }
  }

  lemma DispatchPlaced(k: Kernel)
    requires Placed(k) && Enabled(k, Dispatch)
    ensures Placed(DispatchStep(k))
  {
    var k' := DispatchStep(k);
    assert PlacedAt(k, k.ready[0]);
    TailOf(k.ready, 0);
    forall u ensures PlacedAt(k', u) {
      assert PlacedAt(k, u);
      TailOf(k.ready, u);
      assert forall s :: Queued(k', u, s) <==> Queued(k, u, s);
    }
  }

  lemma JoinPlaced(k: Kernel, child: Id)
    requires Placed(k) && Enabled(k, Join(child))
    ensures Placed(JoinStep(k, child))
  {
    var k' := JoinStep(k, child);
    forall u ensures PlacedAt(k', u) {
      assert PlacedAt(k, u);
      assert forall s :: Queued(k', u, s) <==> Queued(k, u, s);
    }
  }

  lemma FinishPlaced(k: Kernel)
    requires Placed(k) && Family(k) && Enabled(k, Finish)
    ensures Placed(FinishStep(k))
  {
    var k' := FinishStep(k);
    var t := k.running.value;
    assert PlacedAt(k, t);
    if t in k.parent {
      assert Awaited(k, t, k.parent[t]);
      assert PlacedAt(k, k.parent[t]);
    }
    forall u ensures PlacedAt(k', u) {
      assert PlacedAt(k, u);
      assert forall s :: Queued(k', u, s) <==> Queued(k, u, s);
    }
  }

  // Semaphores count

  /** A thread moves between the sets of one semaphore only. */
  lemma SameWoken(k: Kernel, k': Kernel, s: nat)
    requires forall t :: t in k'.inP && k'.inP[t] == s <==> t in k.inP && k.inP[t] == s
    requires forall t :: Queued(k', t, s) <==> Queued(k, t, s)
    ensures Woken(k', s) == Woken(k, s)
  {
  }

  lemma PCounted(k: Kernel, s: nat)
    requires Placed(k) && Counted(k) && Enabled(k, P(s))
    ensures Counted(PStep(k, s))
  {
    var k' := PStep(k, s);
    var t := k.running.value;
    assert PlacedAt(k, t);
    forall r | r in k'.semaphores ensures Counts(k'.semaphores[r], |Woken(k', r)|) {
      if r != s {
        SameWoken(k, k', r);
      } else if k.semaphores[s].value != 0 {
        assert Woken(k', s) == Woken(k, s) - {t};
        assert t in k.inP ==> t in Woken(k, s);
      }
    }
  }

  lemma VCounted(k: Kernel, s: nat)
    requires Placed(k) && Counted(k) && s in k.semaphores
    ensures Counted(VStep(k, s))
  {
    var k' := VStep(k, s);
    var q := k.semaphores[s].queue;
    forall r | r in k'.semaphores ensures Counts(k'.semaphores[r], |Woken(k', r)|) {
      if r != s {
        SameWoken(k, k', r);
      } else if q != [] {
        assert PlacedAt(k, q[0]) && Queued(k, q[0], s);
        forall u ensures Queued(k', u, s) <==> Queued(k, u, s) && u != q[0] {
          TailOf(q, u);
        }
        assert Woken(k', s) == Woken(k, s) + {q[0]};
      }
    }
  }

  lemma OtherCounted(k: Kernel, op: Op)
    requires Counted(k) && Enabled(k, op) && !op.P? && !op.V?
    ensures Counted(Apply(k, op))
  {
    var k' := Apply(k, op);
    forall r | r in k'.semaphores ensures Counts(k'.semaphores[r], |Woken(k', r)|) {
      if r in k.semaphores {
        SameWoken(k, k', r);
      }
    }
  }

  // Parents and children

  lemma FinishFamily(k: Kernel)
    requires Placed(k) && Family(k) && Enabled(k, Finish)
    ensures Family(FinishStep(k))
  {
    var k' := FinishStep(k);
    var t := k.running.value;
    assert PlacedAt(k, t);
    assert forall c, p :: Awaited(k', c, p) <==> Awaited(k, c, p) && c != t;
    if t in k.parent {
      assert Awaited(k, t, k.parent[t]);
    }
  }

  lemma JoinFamily(k: Kernel, child: Id)
    requires Placed(k) && Family(k) && Enabled(k, Join(child))
    ensures Family(JoinStep(k, child))
  {
    var k' := JoinStep(k, child);
    var t := k.running.value;
    assert PlacedAt(k, t);
    if child in k.active && t !in k.joined {
      assert child !in k.finished;
      assert forall c, p :: Awaited(k', c, p) <==> if c == child then p == t else Awaited(k, c, p);
    }
  }

  lemma OtherFamily(k: Kernel, op: Op)
    requires Family(k) && Enabled(k, op) && !op.Join? && !op.Finish?
    requires op.Fork? ==> PlacedAt(k, op.child)
    ensures Family(Apply(k, op))
  {
    var k' := Apply(k, op);
    assert forall c, p :: Awaited(k', c, p) <==> Awaited(k, c, p);
  }

  /** Every step of every thread and interrupt handler keeps the invariant. */
  lemma StepInvariant(k: Kernel, op: Op)
    requires Invariant(k) && Enabled(k, op)
    ensures Invariant(Apply(k, op))
  {
    match op {
      case NewSemaphore(s, initial) => NewSemaphorePlaced(k, s, initial);
      case Fork(child, listed) => ForkPlaced(k, child, listed);
      case Yield => YieldPlaced(k);
      case P(s) => PPlaced(k, s); PCounted(k, s);
      case V(s) => VPlaced(k, s); VCounted(k, s);
      case Dispatch => DispatchPlaced(k);
      case Join(child) => JoinPlaced(k, child); JoinFamily(k, child);
      case Finish => FinishPlaced(k); FinishFamily(k);
    }
    if !op.P? && !op.V? {
      OtherCounted(k, op);
    }
    if !op.Join? && !op.Finish? {
      if op.Fork? {
        assert PlacedAt(k, op.child);
      }
      OtherFamily(k, op);
    }
  }

  lemma NewSemaphorePlaced(k: Kernel, s: nat, initial: int)
    requires Placed(k) && Enabled(k, NewSemaphore(s, initial))
    ensures Placed(Apply(k, NewSemaphore(s, initial)))
  {
    var k' := Apply(k, NewSemaphore(s, initial));
    forall u ensures PlacedAt(k', u) {
      assert PlacedAt(k, u);
      assert forall r :: Queued(k', u, r) <==> Queued(k, u, r);
    }
  }

  lemma {:induction false} RunInvariant(states: seq<Kernel>, ops: seq<Op>, i: nat)
    requires IsRun(states, ops) && i <= |ops|
    ensures Invariant(states[i])
    decreases i
  {
    if i == 0 {
      var main :| states[0] == Boot(main);
      BootInvariant(main);
    } else {
      RunInvariant(states, ops, i - 1);
      assert Follows(states, ops, i - 1);
      StepInvariant(states[i - 1], ops[i - 1]);
    }
  }

  // What the invariant says

  datatype Place = OnCpu | OnReadyList | InQueue(s: nat) | InJoin | Gone

  ghost predicate Located(k: Kernel, t: Id, place: Place) {
    match place
    case OnCpu => k.running == Some(t)
    case OnReadyList => t in k.ready
    case InQueue(s) => Queued(k, t, s)
    case InJoin => t in k.joined
    case Gone => t in k.finished
  }

  /** In every state of every run each thread that was ever started is in exactly one place, no list
      holds a thread twice, and a running thread is not joined. */
  lemma OnePlace(states: seq<Kernel>, ops: seq<Op>, i: nat, t: Id)
    requires IsRun(states, ops) && i <= |ops| && t in states[i].status
    ensures exists place :: Located(states[i], t, place) && forall other :: Located(states[i], t, other) ==> other == place
    ensures Distinct(states[i].ready) && forall s :: s in states[i].semaphores ==> Distinct(states[i].semaphores[s].queue)
    ensures states[i].running == Some(t) ==> t !in states[i].joined
  {
    RunInvariant(states, ops, i);
    var k := states[i];
    assert PlacedAt(k, t);
    var place :=
      if Has(k, t, Running) then OnCpu
      else if Has(k, t, Ready) then OnReadyList
      else if t in k.joined then InJoin
      else if t in k.finished then Gone
      else InQueue(k.inP[t]);
    assert Located(k, t, place);
  }

  /** In every state of every run a semaphore's value is what it was made with, plus the completed
      calls of V, minus the completed calls of P; and no wakeup is lost: queued threads and a positive
      value mean that enough woken threads are ready to take it. */
  lemma SemaphoreCounts(states: seq<Kernel>, ops: seq<Op>, i: nat, s: nat)
    requires IsRun(states, ops) && i <= |ops| && s in states[i].semaphores
    ensures var k := states[i];
            var sem := k.semaphores[s];
            && sem.value == sem.initial + sem.released - sem.entered
            && (sem.initial >= 0 ==> sem.value >= 0)
            && (sem.queue != [] ==> sem.value <= |Woken(k, s)|)
            && (forall t :: t in Woken(k, s) ==> k.running == Some(t) || t in k.ready)
            && (sem.queue != [] && k.running.None? && k.ready == [] ==> sem.value == 0)
  {
    RunInvariant(states, ops, i);
    var k := states[i];
    assert Counts(k.semaphores[s], |Woken(k, s)|);
    forall t | t in Woken(k, s) ensures k.running == Some(t) || t in k.ready {
      assert PlacedAt(k, t);
    }
    if k.running.None? && k.ready == [] {
      assert Woken(k, s) == {};
    }
  }

  /** In every state of every run the parent of a live child is blocked in Join, for no other child. */
  lemma ParentIsBlocked(states: seq<Kernel>, ops: seq<Op>, i: nat, c: Id)
    requires IsRun(states, ops) && i <= |ops| && c in states[i].parent && c !in states[i].finished
    ensures var p := states[i].parent[c];
            && p in states[i].joined && Has(states[i], p, Blocked)
            && forall d :: d in states[i].parent && d !in states[i].finished && states[i].parent[d] == p ==> d == c
  {
    RunInvariant(states, ops, i);
    var k := states[i];
    assert Awaited(k, c, k.parent[c]) && PlacedAt(k, k.parent[c]);
    forall d | d in k.parent && d !in k.finished && k.parent[d] == k.parent[c] ensures d == c {
      assert Awaited(k, d, k.parent[c]);
    }
  }

  lemma {:induction false} FinishedStays(states: seq<Kernel>, ops: seq<Op>, i: nat, j: nat)
    requires IsRun(states, ops) && i <= j <= |ops|
    ensures states[i].finished <= states[j].finished
    decreases j
  {
    if i < j {
      FinishedStays(states, ops, i, j - 1);
      assert Follows(states, ops, j - 1);
    }
  }

  /** A finished thread is never dispatched again. */
  lemma NeverDispatchedAgain(states: seq<Kernel>, ops: seq<Op>, i: nat, j: nat, t: Id)
    requires IsRun(states, ops) && i <= j <= |ops| && t in states[i].finished
    ensures states[j].running != Some(t) && t !in states[j].ready
  {
    FinishedStays(states, ops, i, j);
    RunInvariant(states, ops, j);
    assert PlacedAt(states[j], t);
  }

  // Concrete runs

  lemma Begin(main: Id) returns (states: seq<Kernel>, ops: seq<Op>)
    ensures IsRun(states, ops) && ops == [] && states[0] == Boot(main)
  {
    states, ops := [Boot(main)], [];
    assert states[0] == Boot(main);
  }

  lemma Then(states: seq<Kernel>, ops: seq<Op>, op: Op) returns (states': seq<Kernel>, ops': seq<Op>)
    requires IsRun(states, ops) && Enabled(states[|ops|], op)
    ensures IsRun(states', ops') && ops' == ops + [op] && states' == states + [Apply(states[|ops|], op)]
  {
    states', ops' := states + [Apply(states[|ops|], op)], ops + [op];
    var main :| states[0] == Boot(main);
    assert states'[0] == Boot(main);
    forall i | 0 <= i < |ops'| ensures Follows(states', ops', i) {
      assert i < |ops| ==> Follows(states, ops, i);
    }
  }
}
