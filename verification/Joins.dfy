/** Joins that never return: when threads blocked in Join wait only for one another. */
module Joins {
  import opened Sequences
  import opened Threads

  /** Threads blocked in Join that wait only for one another. */
  ghost predicate Deadlocked(k: Kernel, w: set<Id>) {
    w <= k.joined && forall c, p :: Awaited(k, c, p) && p in w ==> c in w
  }

  ghost predicate SomeDeadlocked(k: Kernel) {
    exists w: set<Id> :: w != {} && Deadlocked(k, w)
  }

  lemma DeadlockStays(k: Kernel, op: Op, w: set<Id>)
    requires Invariant(k) && Enabled(k, op) && Deadlocked(k, w)
    ensures Deadlocked(Apply(k, op), w)
  {
    var k' := Apply(k, op);
    if k.running.Some? {
      assert PlacedAt(k, k.running.value);
      if op.Finish? && k.running.value in k.parent {
        assert Awaited(k, k.running.value, k.parent[k.running.value]);
      }
    }
    forall c, p | Awaited(k', c, p) && p in w ensures c in w {
      assert Awaited(k, c, p);
    }
  }

  /** They stay blocked for the rest of the run. */
  lemma {:induction false} DeadlockForever(states: seq<Kernel>, ops: seq<Op>, i: nat, j: nat, w: set<Id>)
    requires IsRun(states, ops) && i <= j <= |ops| && Deadlocked(states[i], w)
    ensures Deadlocked(states[j], w)
    ensures forall p :: p in w ==> states[j].running != Some(p) && p !in states[j].ready
    decreases j
  {
    if i < j {
      DeadlockForever(states, ops, i, j - 1, w);
      RunInvariant(states, ops, j - 1);
      assert Follows(states, ops, j - 1);
      DeadlockStays(states[j - 1], ops[j - 1], w);
    }
    RunInvariant(states, ops, j);
    forall p | p in w ensures states[j].running != Some(p) && p !in states[j].ready {
      assert PlacedAt(states[j], p);
    }
  }

  /** `x` waits for `y` through `n` joins; a thread waits for itself through none. */
  ghost predicate WaitsFor(k: Kernel, x: Id, y: Id, n: nat)
    decreases n
  {
    if n == 0 then x == y else exists c :: Awaited(k, c, x) && WaitsFor(k, c, y, n - 1)
  }

  ghost predicate Reaches(k: Kernel, x: Id, y: Id) {
    exists n: nat :: WaitsFor(k, x, y, n)
  }

  lemma ReachesSelf(k: Kernel, x: Id)
    ensures Reaches(k, x, x)
  {
    assert WaitsFor(k, x, x, 0);
  }

  lemma ReachesNext(k: Kernel, x: Id, c: Id, y: Id)
    requires Awaited(k, c, x) && Reaches(k, c, y)
    ensures Reaches(k, x, y)
  {
    var n: nat :| WaitsFor(k, c, y, n);
    assert WaitsFor(k, x, y, n + 1);
  }

  lemma {:induction false} ChainStays(k: Kernel, w: set<Id>, x: Id, y: Id, n: nat)
    requires Deadlocked(k, w) && x in w && WaitsFor(k, x, y, n)
    ensures y in w
    decreases n
  {
    if n > 0 {
      var c :| Awaited(k, c, x) && WaitsFor(k, c, y, n - 1);
      ChainStays(k, w, c, y, n - 1);
    }
  }

  /** `p` waits, through some chain of joins, for a live thread that is not itself in Join. */
  ghost predicate WillBeWoken(k: Kernel, p: Id) {
    exists c :: c !in k.joined && c !in k.finished && Reaches(k, p, c)
  }

  /** A thread in Join is in no deadlocked set exactly when its chain ends. */
  lemma DeadlockedOrWoken(k: Kernel)
    requires Invariant(k)
    ensures SomeDeadlocked(k) <==> exists p :: p in k.joined && !WillBeWoken(k, p)
  {
    if SomeDeadlocked(k) {
      var w: set<Id> :| w != {} && Deadlocked(k, w);
      var p :| p in w;
      forall c, n: nat | WaitsFor(k, p, c, n) ensures c in k.joined {
        ChainStays(k, w, p, c, n);
      }
      assert p in k.joined && !WillBeWoken(k, p);
    }
    if p :| p in k.joined && !WillBeWoken(k, p) {
      var w := set x | x in k.joined && !WillBeWoken(k, x);
      forall c, x | Awaited(k, c, x) && x in w ensures c in w {
        StillWaits(k, c, x);
      }
      assert p in w && Deadlocked(k, w);
    }
  }

  lemma StillWaits(k: Kernel, c: Id, x: Id)
    requires Awaited(k, c, x) && !WillBeWoken(k, x)
    ensures c in k.joined && !WillBeWoken(k, c)
  {
    if WillBeWoken(k, c) {
      var d :| d !in k.joined && d !in k.finished && Reaches(k, c, d);
      ReachesNext(k, x, c, d);
    }
    if c !in k.joined {
      ReachesSelf(k, c);
      ReachesNext(k, x, c, c);
    }
  }

  /** The step joins a child that already has a parent, or that waits, perhaps through others, for
      the thread that joins it. */
  ghost predicate LosesJoin(k: Kernel, op: Op) {
    op.Join? && k.running.Some? && op.child in k.active && (op.child in k.parent || Reaches(k, op.child, k.running.value))
  }

  lemma AwaitedAfterJoin(k: Kernel, child: Id, c: Id, p: Id)
    requires Invariant(k) && Enabled(k, Join(child)) && child in k.active
    ensures Awaited(JoinStep(k, child), c, p) <==> if c == child then p == k.running.value else Awaited(k, c, p)
    ensures JoinStep(k, child).joined == k.joined + {k.running.value} && k.running.value !in k.joined
  {
    assert PlacedAt(k, k.running.value) && child !in k.finished;
  }

  /** The second parent of a child takes the place of the first, who waits for nobody then. */
  lemma SecondJoin(k: Kernel, child: Id)
    requires Invariant(k) && Enabled(k, Join(child)) && child in k.active && child in k.parent
    ensures Deadlocked(JoinStep(k, child), {k.parent[child]})
  {
    var k' := JoinStep(k, child);
    var p := k.parent[child];
    assert child !in k.finished && Awaited(k, child, p);
    AwaitedAfterJoin(k, child, child, p);
    forall c ensures !Awaited(k', c, p) {
      AwaitedAfterJoin(k, child, c, p);
      assert c != child ==> !Awaited(k, c, p);
    }
  }

  /** The threads from `x` to `y`. */
  lemma {:induction false} ChainSet(k: Kernel, x: Id, y: Id, n: nat) returns (w: set<Id>)
    requires Family(k) && WaitsFor(k, x, y, n)
    ensures x in w && y in w && w - {y} <= k.joined
    ensures forall c, p :: Awaited(k, c, p) && p in w && p != y ==> c in w
    decreases n
  {
    if n == 0 {
      w := {y};
    } else {
      var c :| Awaited(k, c, x) && WaitsFor(k, c, y, n - 1);
      w := ChainSet(k, c, y, n - 1);
      w := w + {x};
    }
  }

  /** Joining a child that waits for the joining thread closes a cycle. */
  lemma CyclicJoin(k: Kernel, child: Id)
    requires Invariant(k) && Enabled(k, Join(child)) && child in k.active && child !in k.parent
    requires Reaches(k, child, k.running.value)
    ensures SomeDeadlocked(JoinStep(k, child))
  {
    var k' := JoinStep(k, child);
    var t := k.running.value;
    var n: nat :| WaitsFor(k, child, t, n);
    var w := ChainSet(k, child, t, n);
    AwaitedAfterJoin(k, child, child, t);
    forall c, p | Awaited(k', c, p) && p in w ensures c in w {
      AwaitedAfterJoin(k, child, c, p);
      assert c != child ==> Awaited(k, c, p) && p in k.joined;
    }
    assert Deadlocked(k', w);
  }

  /** Any other join leaves no deadlock that was not there before. */
  lemma SafeJoin(k: Kernel, child: Id, w: set<Id>)
    requires Invariant(k) && Enabled(k, Join(child)) && child in k.active && child !in k.parent
    requires !Reaches(k, child, k.running.value) && w != {} && Deadlocked(JoinStep(k, child), w)
    ensures SomeDeadlocked(k)
  {
    var k' := JoinStep(k, child);
    var t := k.running.value;
    var r := set x | x in w && !Reaches(k, x, t);
    AwaitedAfterJoin(k, child, child, t);
    ReachesSelf(k, t);
    forall c, p | Awaited(k, c, p) && p in r ensures c in r {
      AwaitedAfterJoin(k, child, c, p);
      if Reaches(k, c, t) {
        ReachesNext(k, p, c, t);
      }
    }
    assert Deadlocked(k, r);
    var x :| x in w;
    if Reaches(k, x, t) {
      var n: nat :| WaitsFor(k, x, t, n);
      InDeadlock(k, child, w, x, n);
    }
    assert x in r || child in r;
  }

  /** A chain of the old state that starts in a deadlock of the new one stays in it. */
  lemma {:induction false} InDeadlock(k: Kernel, child: Id, w: set<Id>, x: Id, n: nat)
    requires Invariant(k) && Enabled(k, Join(child)) && child in k.active && child !in k.parent
    requires Deadlocked(JoinStep(k, child), w) && x in w && WaitsFor(k, x, k.running.value, n)
    ensures child in w
    decreases n
  {
    var t := k.running.value;
    if n == 0 {
      AwaitedAfterJoin(k, child, child, t);
    } else {
      var c :| Awaited(k, c, x) && WaitsFor(k, c, t, n - 1);
      AwaitedAfterJoin(k, child, c, x);
      InDeadlock(k, child, w, c, n - 1);
    }
  }

  lemma OtherStep(k: Kernel, op: Op, w: set<Id>)
    requires Invariant(k) && Enabled(k, op) && !(op.Join? && op.child in k.active) && Deadlocked(Apply(k, op), w)
    ensures Deadlocked(k, w)
  {
    var k' := Apply(k, op);
    forall c, p | Awaited(k, c, p) && p in w ensures c in w {
      assert op.Finish? && c == k.running.value ==> p !in k'.joined;
      assert Awaited(k', c, p);
    }
  }

  /** A step brings about a deadlock of joins exactly when it joins a child that has a parent already
      or that waits for the joining thread. */
  lemma DeadlocksIff(k: Kernel, op: Op)
    requires Invariant(k) && Enabled(k, op) && !SomeDeadlocked(k)
    ensures SomeDeadlocked(Apply(k, op)) <==> LosesJoin(k, op)
  {
    if LosesJoin(k, op) {
      if op.child in k.parent {
        SecondJoin(k, op.child);
        assert {k.parent[op.child]} != {};
      } else {
        CyclicJoin(k, op.child);
      }
    } else if SomeDeadlocked(Apply(k, op)) {
      var w: set<Id> :| w != {} && Deadlocked(Apply(k, op), w);
      if op.Join? && op.child in k.active {
        SafeJoin(k, op.child, w);
      } else {
        OtherStep(k, op, w);
      }
    }
  }

  /** So a run ends with threads that wait in Join only for one another exactly when it has such a step. */
  lemma {:induction false} RunDeadlocksIff(states: seq<Kernel>, ops: seq<Op>, j: nat)
    requires IsRun(states, ops) && j <= |ops|
    ensures SomeDeadlocked(states[j]) <==> exists i :: 0 <= i < j && LosesJoin(states[i], ops[i])
    decreases j
  {
    if j > 0 {
      RunDeadlocksIff(states, ops, j - 1);
      RunInvariant(states, ops, j - 1);
      assert Follows(states, ops, j - 1);
      var k := states[j - 1];
      if SomeDeadlocked(k) {
        var w: set<Id> :| w != {} && Deadlocked(k, w);
        DeadlockStays(k, ops[j - 1], w);
      } else {
        DeadlocksIff(k, ops[j - 1]);
      }
    }
  }

  /** Threads 0 and 1 both join thread 2. */
  lemma SecondJoinRun() returns (states: seq<Kernel>, ops: seq<Op>)
    ensures IsRun(states, ops) && Deadlocked(states[|ops|], {0}) && 2 in states[|ops|].active
  {
    states, ops := Begin(0);
    states, ops := Then(states, ops, Fork(1, true));
    states, ops := Then(states, ops, Fork(2, true));
    states, ops := Then(states, ops, Join(2));
    states, ops := Then(states, ops, Dispatch);
    states, ops := Then(states, ops, Join(2));
  }

  ghost predicate PlainJoins(states: seq<Kernel>, ops: seq<Op>) {
    forall i :: 0 <= i < |ops| < |states| && ops[i].Join? ==> ops[i].child !in states[i].parent && states[i].running != Some(ops[i].child)
  }

  lemma OneJoinRun() returns (states: seq<Kernel>, ops: seq<Op>)
    ensures IsRun(states, ops) && |ops| == 4 && PlainJoins(states, ops)
    ensures states[4] == Kernel(map[0 := Ready, 1 := Blocked, 2 := Ready], None, [2, 0], map[], map[], {1, 2}, map[2 := 1], {1}, {})
  {
    states, ops := TwoForksRun();
    states, ops := Then(states, ops, Yield);
    states, ops := Then(states, ops, Join(2));
  }

  lemma TwoForksRun() returns (states: seq<Kernel>, ops: seq<Op>)
    ensures IsRun(states, ops) && |ops| == 2 && PlainJoins(states, ops) && !ops[0].Join? && !ops[1].Join?
    ensures states[2] == Kernel(map[0 := Running, 1 := Ready, 2 := Ready], Some(0), [1, 2], map[], map[], {1, 2}, map[], {}, {})
  {
    states, ops := Begin(0);
    states, ops := Then(states, ops, Fork(1, true));
    states, ops := Then(states, ops, Fork(2, true));
  }

  /** Threads 1 and 2 join each other: neither had a parent and neither joins itself. */
  lemma MutualJoinRun() returns (states: seq<Kernel>, ops: seq<Op>)
    ensures IsRun(states, ops) && PlainJoins(states, ops) && Deadlocked(states[|ops|], {1, 2})
  {
    states, ops := OneJoinRun();
    states, ops := Then(states, ops, Dispatch);
    states, ops := Then(states, ops, Join(1));
  }
}
