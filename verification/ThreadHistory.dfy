/** What the state says of the past: which threads there are, which have finished, and who waits for whom since when. */
module ThreadHistory {
  import opened Sequences
  import opened Threads

  /** Thread `t` was forked, with its name put on the list of active threads or not. */
  ghost predicate ForkedBefore(ops: seq<Op>, b: nat, t: Id, listed: bool)
    requires b <= |ops|
  {
    exists a :: 0 <= a < b && ops[a] == Fork(t, listed)
  }

  ghost predicate FinishedBefore(states: seq<Kernel>, ops: seq<Op>, b: nat, t: Id)
    requires b <= |ops| < |states|
  {
    exists a :: 0 <= a < b && FinishesAt(states, ops, a, t)
  }

  ghost predicate FinishesAt(states: seq<Kernel>, ops: seq<Op>, a: int, t: Id) {
    0 <= a < |ops| < |states| && ops[a] == Finish && states[a].running == Some(t)
  }

  lemma ForkedStep(ops: seq<Op>, b: nat, t: Id, listed: bool)
    requires b < |ops|
    ensures ForkedBefore(ops, b + 1, t, listed) <==> ForkedBefore(ops, b, t, listed) || ops[b] == Fork(t, listed)
  {
  }

  lemma FinishedStep(states: seq<Kernel>, ops: seq<Op>, b: nat, t: Id)
    requires b < |ops| < |states|
    ensures FinishedBefore(states, ops, b + 1, t) <==> FinishedBefore(states, ops, b, t) || FinishesAt(states, ops, b, t)
  {
  }

  lemma RosterStep(k: Kernel, op: Op, k': Kernel, t: Id)
    requires Enabled(k, op) && k' == Apply(k, op)
    ensures t in k'.finished <==> t in k.finished || (op == Finish && k.running == Some(t))
    ensures t in k'.active <==> (t in k.active || op == Fork(t, true)) && !(op == Finish && k.running == Some(t))
  {
  }

  lemma ThreadsStep(k: Kernel, op: Op, k': Kernel, t: Id)
    requires Enabled(k, op) && k' == Apply(k, op) && Invariant(k)
    ensures t in k'.status <==> t in k.status || op == Fork(t, true) || op == Fork(t, false)
  {
    match op
    case V(s) =>
      if k.semaphores[s].queue != [] {
        assert PlacedAt(k, k.semaphores[s].queue[0]) && Queued(k, k.semaphores[s].queue[0], s);
      }
    case Dispatch => assert PlacedAt(k, k.ready[0]);
    case Yield =>
      assert PlacedAt(k, k.running.value) && (k.ready != [] ==> PlacedAt(k, k.ready[0]));
    case Finish =>
      assert PlacedAt(k, k.running.value);
      if k.running.value in k.parent {
        assert Awaited(k, k.running.value, k.parent[k.running.value]) && PlacedAt(k, k.parent[k.running.value]);
      }
    case _ => assert k.running.Some? ==> PlacedAt(k, k.running.value);
  }

  /** In every run: there are the main thread and those that were forked; those have finished that called Finish; and a
      thread is active exactly if it was forked with its name on the list and has not finished. */
  lemma {:induction false} Roster(states: seq<Kernel>, ops: seq<Op>, main: Id, b: nat, t: Id)
    requires IsRun(states, ops) && states[0] == Boot(main) && b <= |ops|
    ensures t in states[b].status <==> t == main || ForkedBefore(ops, b, t, true) || ForkedBefore(ops, b, t, false)
    ensures t in states[b].finished <==> FinishedBefore(states, ops, b, t)
    ensures t in states[b].active <==> ForkedBefore(ops, b, t, true) && !FinishedBefore(states, ops, b, t)
    decreases b
  {
    if b > 0 {
      Roster(states, ops, main, b - 1, t);
      assert Follows(states, ops, b - 1);
      RunInvariant(states, ops, b - 1);
      RosterStep(states[b - 1], ops[b - 1], states[b], t);
      ThreadsStep(states[b - 1], ops[b - 1], states[b], t);
      ForkedStep(ops, b - 1, t, true);
      ForkedStep(ops, b - 1, t, false);
      FinishedStep(states, ops, b - 1, t);
      if ops[b - 1].Fork? && ops[b - 1].child == t {
        NotYetThere(states[b - 1], ops[b - 1], t);
      }
    }
  }

  /** A thread that is forked was not there before, so it has not finished. */
  lemma NotYetThere(k: Kernel, op: Op, t: Id)
    requires Invariant(k) && Enabled(k, op) && op.Fork? && op.child == t
    ensures t !in k.status && t !in k.finished && op != Finish
  {
    assert PlacedAt(k, t);
  }

  // Join

  /** Thread `p` waits in Join for `c`. */
  ghost predicate Waits(k: Kernel, p: Id, c: Id) {
    p in k.joined && Awaited(k, c, p)
  }

  lemma WaitsStep(k: Kernel, op: Op, k': Kernel, p: Id, c: Id)
    requires Invariant(k) && Enabled(k, op) && k' == Apply(k, op) && Waits(k, p, c)
    ensures if op == Finish && k.running == Some(c) then Has(k', p, Ready) && k'.ready == [p] + k.ready && k'.running == None
            else if op == Join(c) && k.running != Some(p) then p in k'.joined
            else Waits(k', p, c)
  {
    assert PlacedAt(k, p) && PlacedAt(k, c);
    assert k.running.Some? ==> PlacedAt(k, k.running.value);
    if op == Finish && k.running.value in k.parent && k.running.value != c {
      assert Awaited(k, k.running.value, k.parent[k.running.value]);
    }
  }

  /** Nobody else joins `c` from step `a` up to step `b`, and `c` does not finish. */
  ghost predicate LeftAlone(states: seq<Kernel>, ops: seq<Op>, a: nat, b: nat, c: Id)
    requires a <= b <= |ops| < |states|
  {
    forall i :: a <= i < b ==> ops[i] != Join(c) && !FinishesAt(states, ops, i, c)
  }

  /** In every run Join of an active child puts the caller to sleep, and it sleeps as long as the child lives and
      nobody takes its place; */
  lemma {:induction false} JoinWaits(states: seq<Kernel>, ops: seq<Op>, a: nat, b: nat, p: Id, c: Id)
    requires IsRun(states, ops) && a < b <= |ops| && ops[a] == Join(c) && states[a].running == Some(p) && c in states[a].active
    requires LeftAlone(states, ops, a + 1, b, c)
    ensures Waits(states[b], p, c) && Has(states[b], p, Blocked)
    decreases b
  {
    RunInvariant(states, ops, b);
    assert PlacedAt(states[b], p);
    assert Follows(states, ops, b - 1);
    RunInvariant(states, ops, b - 1);
    if a < b - 1 {
      JoinWaits(states, ops, a, b - 1, p, c);
      WaitsStep(states[b - 1], ops[b - 1], states[b], p, c);
      assert !FinishesAt(states, ops, b - 1, c);
    } else {
      assert PlacedAt(states[a], p);
    }
  }

  /** it is ready at the front of the list once the child finishes, */
  lemma JoinReturns(states: seq<Kernel>, ops: seq<Op>, a: nat, b: nat, p: Id, c: Id)
    requires IsRun(states, ops) && a < b < |ops| && ops[a] == Join(c) && states[a].running == Some(p) && c in states[a].active
    requires LeftAlone(states, ops, a + 1, b, c) && FinishesAt(states, ops, b, c)
    ensures Has(states[b + 1], p, Ready) && states[b + 1].ready == [p] + states[b].ready && states[b + 1].running == None
  {
    JoinWaits(states, ops, a, b, p, c);
    assert Follows(states, ops, b);
    RunInvariant(states, ops, b);
    WaitsStep(states[b], ops[b], states[b + 1], p, c);
  }

  /** and a call with an ID of no active thread changes nothing. */
  lemma JoinOfNobody(states: seq<Kernel>, ops: seq<Op>, a: nat, c: Id)
    requires IsRun(states, ops) && a < |ops| && ops[a] == Join(c) && c !in states[a].active
    ensures states[a + 1] == states[a]
  {
    assert Follows(states, ops, a);
  }

  ghost predicate FirstReady(k: Kernel, p: Id) {
    k.running == None && k.ready != [] && k.ready[0] == p
  }

  lemma {:induction false} StaysFirst(states: seq<Kernel>, ops: seq<Op>, a: nat, b: nat, p: Id)
    requires IsRun(states, ops) && a <= b <= |ops| && FirstReady(states[a], p) && forall i :: a <= i < b ==> ops[i] != Dispatch
    ensures FirstReady(states[b], p)
    decreases b
  {
    if a < b {
      StaysFirst(states, ops, a, b - 1, p);
      assert Follows(states, ops, b - 1);
    }
  }

  /** So the thread that runs next after the child has finished is the one that waited for it. */
  lemma ParentRunsNext(states: seq<Kernel>, ops: seq<Op>, a: nat, b: nat, d: nat, p: Id, c: Id)
    requires IsRun(states, ops) && a < b < d < |ops| && ops[a] == Join(c) && states[a].running == Some(p) && c in states[a].active
    requires LeftAlone(states, ops, a + 1, b, c) && FinishesAt(states, ops, b, c)
    requires ops[d] == Dispatch && forall i :: b < i < d ==> ops[i] != Dispatch
    ensures states[d + 1].running == Some(p)
  {
    JoinReturns(states, ops, a, b, p, c);
    StaysFirst(states, ops, b + 1, d, p);
    assert Follows(states, ops, d);
  }
}
