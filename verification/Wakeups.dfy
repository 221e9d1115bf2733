/** Which threads in Join can still be woken. */
module Wakeups {
  import opened Sequences
  import opened Threads
  import opened ThreadOrder
  import opened Joins

  // What can come after a state

  ghost predicate Leads(k: Kernel, k': Kernel, n: nat)
    decreases n
  {
    if n == 0 then k == k' else exists op :: Enabled(k, op) && Leads(Apply(k, op), k', n - 1)
  }

  ghost predicate CanReach(k: Kernel, k': Kernel) {
    exists n: nat :: Leads(k, k', n)
  }

  lemma Here(k: Kernel)
    ensures CanReach(k, k)
  {
    assert Leads(k, k, 0);
  }

  lemma FirstStep(k: Kernel, k': Kernel, n: nat) returns (op: Op, next: Kernel)
    requires n > 0 && Leads(k, k', n)
    ensures Enabled(k, op) && next == Apply(k, op) && Leads(next, k', n - 1)
  {
    op :| Enabled(k, op) && Leads(Apply(k, op), k', n - 1);
    next := Apply(k, op);
  }

  lemma LeadsFirst(k: Kernel, op: Op, next: Kernel, k': Kernel, n: nat)
    requires Enabled(k, op) && next == Apply(k, op) && Leads(next, k', n)
    ensures Leads(k, k', n + 1)
  {
  }

  lemma {:induction false} LeadsOn(k: Kernel, k': Kernel, n: nat, op: Op)
    requires Leads(k, k', n) && Enabled(k', op)
    ensures Leads(k, Apply(k', op), n + 1)
    decreases n
  {
    var last := Apply(k', op);
    if n == 0 {
      assert Leads(last, last, 0);
      LeadsFirst(k, op, last, last, 0);
    } else {
      var first, next := FirstStep(k, k', n);
      LeadsOn(next, k', n - 1, op);
      LeadsFirst(k, first, next, last, n);
    }
  }

  lemma Onward(k: Kernel, k': Kernel, op: Op)
    requires CanReach(k, k') && Enabled(k', op)
    ensures CanReach(k, Apply(k', op))
  {
    var n: nat :| Leads(k, k', n);
    LeadsOn(k, k', n, op);
  }

  lemma {:induction false} LeadsThrough(k: Kernel, k': Kernel, k'': Kernel, n: nat)
    requires Leads(k, k', n) && CanReach(k', k'')
    ensures CanReach(k, k'')
    decreases n
  {
    if n > 0 {
      var op, next := FirstStep(k, k', n);
      LeadsThrough(next, k', k'', n - 1);
      var m: nat :| Leads(next, k'', m);
      LeadsFirst(k, op, next, k'', m);
    }
  }

  lemma Through(k: Kernel, k': Kernel, k'': Kernel)
    requires CanReach(k, k') && CanReach(k', k'')
    ensures CanReach(k, k'')
  {
    var n: nat :| Leads(k, k', n);
    LeadsThrough(k, k', k'', n);
  }

  /** Parents and children stay who they are. */
  ghost predicate SameFamily(k: Kernel, k': Kernel) {
    k'.parent == k.parent && k'.joined == k.joined && k'.finished == k.finished && k'.status.Keys == k.status.Keys
  }

  /** A state that can be reached without anybody joining, finishing or being forked. */
  ghost predicate Nearby(k: Kernel, k': Kernel) {
    CanReach(k, k') && Invariant(k') && SameFamily(k, k')
  }

  lemma NearbySelf(k: Kernel)
    requires Invariant(k)
    ensures Nearby(k, k)
  {
    Here(k);
  }

  lemma NearbyThen(k: Kernel, k': Kernel, op: Op)
    requires Nearby(k, k') && Enabled(k', op) && (op.P? || op.V? || op.Yield? || op.Dispatch?)
    ensures Nearby(k, Apply(k', op))
  {
    Onward(k, k', op);
    StepInvariant(k', op);
    QuietStep(k', op);
  }

  lemma QuietStep(k: Kernel, op: Op)
    requires Invariant(k) && Enabled(k, op) && (op.P? || op.V? || op.Yield? || op.Dispatch?)
    ensures SameFamily(k, Apply(k, op))
  {
    if k.running.Some? {
      assert PlacedAt(k, k.running.value);
    }
    if k.ready != [] {
      assert PlacedAt(k, k.ready[0]);
    }
    if op.V? && k.semaphores[op.s].queue != [] {
      assert Queued(k, k.semaphores[op.s].queue[0], op.s) && PlacedAt(k, k.semaphores[op.s].queue[0]);
    }
  }

  lemma NearbyThrough(k: Kernel, k': Kernel, k'': Kernel)
    requires Nearby(k, k') && Nearby(k', k'')
    ensures Nearby(k, k'')
  {
    Through(k, k', k'');
  }

  // Getting a thread to run

  /** The processor idles, or the running thread is not inside P. */
  ghost predicate Open(k: Kernel) {
    k.running.None? || Free(k)
  }

  lemma LeaveP(k: Kernel) returns (k': Kernel)
    requires Invariant(k)
    ensures Nearby(k, k') && Open(k')
  {
    NearbySelf(k);
    k' := k;
    if k.running.Some? && k.running.value in k.inP {
      var s := k.inP[k.running.value];
      assert PlacedAt(k, k.running.value);
      NearbyThen(k, k, P(s));
      k' := PStep(k, s);
    }
  }

  /** The threads inside P on `s`. */
  ghost function InsideOf(k: Kernel, s: nat): set<Id> {
    set t | t in k.inP && k.inP[t] == s
  }

  /** There is enough for everybody who wants it. */
  ghost predicate Flooded(k: Kernel, s: nat) {
    s in k.semaphores && k.semaphores[s].queue == [] && k.semaphores[s].value >= |InsideOf(k, s)|
  }

  /** Enough calls of V, by the running thread or by handlers, wake everybody. */
  lemma {:induction false} Flood(k: Kernel, s: nat) returns (k': Kernel)
    requires Invariant(k) && Open(k) && s in k.semaphores
    ensures Nearby(k, k') && Open(k') && Flooded(k', s) && k'.inP == k.inP
    decreases |k.semaphores[s].queue| + if |InsideOf(k, s)| > k.semaphores[s].value then |InsideOf(k, s)| - k.semaphores[s].value else 0
  {
    NearbySelf(k);
    if Flooded(k, s) {
      k' := k;
    } else {
      NearbyThen(k, k, V(s));
      var next := VStep(k, s);
      assert InsideOf(next, s) == InsideOf(k, s);
      k' := Flood(next, s);
      NearbyThrough(k, next, k');
    }
  }

  /** When `c` gets to run, nothing will stop it. */
  ghost predicate Eased(k: Kernel, c: Id) {
    c in k.inP ==> Flooded(k, k.inP[c])
  }

  lemma Ease(k: Kernel, c: Id) returns (k': Kernel)
    requires Invariant(k)
    ensures Nearby(k, k') && Eased(k', c)
  {
    k' := LeaveP(k);
    if c in k'.inP {
      assert PlacedAt(k', c);
      var k1 := k';
      k' := Flood(k1, k1.inP[c]);
      NearbyThrough(k, k1, k');
    }
  }

  /** Somebody else's pass through P leaves enough. */
  lemma StaysEased(k: Kernel, c: Id)
    requires Invariant(k) && Eased(k, c) && k.running.Some? && k.running.value != c && k.running.value in k.inP
    requires k.inP[k.running.value] in k.semaphores
    ensures Eased(PStep(k, k.inP[k.running.value]), c)
  {
    var u := k.running.value;
    var s := k.inP[u];
    assert PlacedAt(k, u);
    var k' := PStep(k, s);
    if c in k.inP {
      var r := k.inP[c];
      if r == s {
        assert u in InsideOf(k, s);
        assert k.semaphores[s].value != 0;
        assert InsideOf(k', s) == InsideOf(k, s) - {u};
      } else {
        assert InsideOf(k', r) == InsideOf(k, r);
      }
    }
  }

  lemma EasedStep(k: Kernel, op: Op, c: Id)
    requires Enabled(k, op) && Eased(k, c) && (op.Yield? || op.Dispatch?)
    ensures Eased(Apply(k, op), c)
  {
    if c in k.inP {
      assert InsideOf(Apply(k, op), k.inP[c]) == InsideOf(k, k.inP[c]);
    }
  }

  /** A ready thread comes to the front. */
  lemma {:induction false} ToFront(k: Kernel, c: Id, i: nat) returns (k': Kernel)
    requires Invariant(k) && Eased(k, c) && ReadyAt(k, i, c)
    ensures Nearby(k, k') && Eased(k', c) && k'.running == Some(c)
    decreases i, if k.running.Some? && k.running.value in k.inP then 1 else 0
  {
    assert PlacedAt(k, c) && c in k.ready;
    NearbySelf(k);
    var op := if k.running.None? then Dispatch
              else if k.running.value in k.inP then P(k.inP[k.running.value])
              else Yield;
    if k.running.Some? {
      assert PlacedAt(k, k.running.value);
    }
    NearbyThen(k, k, op);
    var next := Apply(k, op);
    if op.P? {
      StaysEased(k, c);
    } else {
      EasedStep(k, op, c);
    }
    if next.running == Some(c) {
      k' := next;
    } else {
      ReadyStep(k, op, next, i, c);
      k' := ToFront(next, c, if op.P? then i else i - 1);
      NearbyThrough(k, next, k');
    }
  }

  /** A live thread that is not in Join can get to run, outside P. */
  lemma CanRun(k: Kernel, c: Id) returns (k': Kernel)
    requires Invariant(k) && c in k.status && c !in k.joined && c !in k.finished
    ensures Nearby(k, k') && Free(k') && k'.running == Some(c)
  {
    var k1 := Ease(k, c);
    assert PlacedAt(k1, c);
    var k2 := k1;
    if k1.running != Some(c) {
      assert c in k1.ready;
      var i :| 0 <= i < |k1.ready| && k1.ready[i] == c;
      k2 := ToFront(k1, c, i);
      NearbyThrough(k, k1, k2);
    }
    k' := k2;
    if c in k2.inP {
      var s := k2.inP[c];
      assert PlacedAt(k2, c);
      assert c in InsideOf(k2, s);
      NearbyThen(k, k2, P(s));
      k' := PStep(k2, s);
    }
  }

  // Waking a chain of joins from its end

  /** The last link of a chain. */
  lemma {:induction false} LastLink(k: Kernel, x: Id, y: Id, n: nat) returns (q: Id)
    requires n > 0 && WaitsFor(k, x, y, n)
    ensures WaitsFor(k, x, q, n - 1) && Awaited(k, y, q)
    decreases n
  {
    var c :| Awaited(k, c, x) && WaitsFor(k, c, y, n - 1);
    if n == 1 {
      q := x;
    } else {
      q := LastLink(k, c, y, n - 1);
      assert WaitsFor(k, c, q, n - 2);
    }
  }

  lemma {:induction false} ChainSame(k: Kernel, k': Kernel, x: Id, y: Id, n: nat)
    requires SameFamily(k, k') && WaitsFor(k, x, y, n)
    ensures WaitsFor(k', x, y, n)
    decreases n
  {
    if n > 0 {
      var c :| Awaited(k, c, x) && WaitsFor(k, c, y, n - 1);
      ChainSame(k, k', c, y, n - 1);
      assert Awaited(k', c, x);
    }
  }

  /** A chain to a thread in Join does not go through one that is not, so that one may finish. */
  lemma {:induction false} ChainKept(k: Kernel, c: Id, x: Id, q: Id, n: nat)
    requires Invariant(k) && Free(k) && k.running == Some(c) && q in k.joined && WaitsFor(k, x, q, n)
    ensures WaitsFor(FinishStep(k), x, q, n)
    decreases n
  {
    if n > 0 {
      var d :| Awaited(k, d, x) && WaitsFor(k, d, q, n - 1);
      assert PlacedAt(k, c);
      if n - 1 > 0 {
        var e :| Awaited(k, e, d) && WaitsFor(k, e, q, n - 2);
      }
      assert d in k.joined && d != c;
      ChainKept(k, c, d, q, n - 1);
      assert Awaited(FinishStep(k), d, x);
    }
  }

  /** The last thread of a chain finishes, and its parent is ready. */
  lemma FinishLast(k: Kernel, c: Id, q: Id) returns (k': Kernel)
    requires Invariant(k) && Awaited(k, c, q) && c !in k.joined
    ensures CanReach(k, k') && Invariant(k') && Has(k', q, Ready) && q !in k'.finished
    ensures forall x, n: nat :: WaitsFor(k, x, q, n) ==> WaitsFor(k', x, q, n)
    ensures forall x :: x in k.joined && x != q ==> x in k'.joined
  {
    var k1 := CanRun(k, c);
    assert Awaited(k1, c, q) && PlacedAt(k1, c) && PlacedAt(k1, q);
    Onward(k, k1, Finish);
    StepInvariant(k1, Finish);
    k' := FinishStep(k1);
    forall x, n: nat | WaitsFor(k, x, q, n) ensures WaitsFor(k', x, q, n) {
      ChainSame(k, k1, x, q, n);
      ChainKept(k1, c, x, q, n);
    }
  }

  lemma {:induction false} WakeChain(k: Kernel, p: Id, c: Id, n: nat) returns (k': Kernel)
    requires Invariant(k) && p in k.joined && c !in k.joined && WaitsFor(k, p, c, n)
    ensures CanReach(k, k') && Has(k', p, Ready)
    decreases n
  {
    var q := LastLink(k, p, c, n);
    var k1 := FinishLast(k, c, q);
    if q == p {
      k' := k1;
    } else {
      assert PlacedAt(k1, q);
      k' := WakeChain(k1, p, q, n - 1);
      Through(k, k1, k');
    }
  }

  // The theorem

  /** The second run begins with the first. */
  ghost predicate Continues(states: seq<Kernel>, ops: seq<Op>, states': seq<Kernel>, ops': seq<Op>) {
    IsRun(states', ops') && states <= states' && ops <= ops'
  }

  lemma {:induction false} RunOn(states: seq<Kernel>, ops: seq<Op>, k': Kernel, n: nat) returns (states': seq<Kernel>, ops': seq<Op>)
    requires IsRun(states, ops) && Leads(states[|ops|], k', n)
    ensures Continues(states, ops, states', ops') && states'[|ops'|] == k'
    decreases n
  {
    states', ops' := states, ops;
    if n > 0 {
      var op, next := FirstStep(states[|ops|], k', n);
      var states1, ops1 := Then(states, ops, op);
      states', ops' := RunOn(states1, ops1, k', n - 1);
    }
  }

  lemma NotWoken(k: Kernel, p: Id) returns (w: set<Id>)
    requires Invariant(k) && p in k.joined && !WillBeWoken(k, p)
    ensures p in w && Deadlocked(k, w)
  {
    w := set x | x in k.joined && !WillBeWoken(k, x);
    forall c, x | Awaited(k, c, x) && x in w ensures c in w {
      StillWaits(k, c, x);
    }
  }

  /** From every state of every run: a thread in Join can still be woken, by some continuation of the run,
      exactly when its chain of joins ends in a live thread that is not in Join. */
  lemma WokenIff(states: seq<Kernel>, ops: seq<Op>, p: Id)
    requires IsRun(states, ops) && p in states[|ops|].joined
    ensures WillBeWoken(states[|ops|], p) <==>
            exists states', ops' :: Continues(states, ops, states', ops') && Has(states'[|ops'|], p, Ready)
  {
    var k := states[|ops|];
    RunInvariant(states, ops, |ops|);
    if WillBeWoken(k, p) {
      var c :| c !in k.joined && c !in k.finished && Reaches(k, p, c);
      var n: nat :| WaitsFor(k, p, c, n);
      var k' := WakeChain(k, p, c, n);
      var m: nat :| Leads(k, k', m);
      var states', ops' := RunOn(states, ops, k', m);
      assert Continues(states, ops, states', ops') && Has(states'[|ops'|], p, Ready);
    } else {
      var w := NotWoken(k, p);
      forall states', ops' | Continues(states, ops, states', ops') ensures !Has(states'[|ops'|], p, Ready) {
        assert states'[|ops|] == k;
        DeadlockForever(states', ops', |ops|, |ops'|, w);
        RunInvariant(states', ops', |ops'|);
        assert PlacedAt(states'[|ops'|], p);
      }
    }
  }
}
