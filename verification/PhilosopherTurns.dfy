/** The busy-waiting philosophers when they take turns, as the ready list makes them do. */
module PhilosopherTurns {
  import opened Philosophers

  /** How far a philosopher is from the next yield. */
  function Rank(pc: Pc): nat {
    match pc
    case Coming => 7
    case AtBarrier => 6
    case AtTop => 5
    case WantLeft => 4
    case WantRight => 3
    case HasBoth => 2
    case NoMeal => 1
    case _ => 0
  }

  /** Philosopher `i` goes on until the code yields. */
  function UntilYield(t: Table, i: nat): (r: Table)
    requires Shaped(t) && i < t.n
    ensures Shaped(r) && r.n == t.n
    decreases Rank(t.pcs[i])
  {
    if AtYield(t, i) then t else UntilYield(Step(t, i), i)
  }

  /** A turn: go on to the next yield, or find that there is nothing to do yet, or eat or think a little longer.
      One who puts the chopsticks down yields before it picks any up. */
  ghost predicate TurnTo(t: Table, i: nat, t': Table) {
    && Shaped(t) && i < t.n && t.pcs[i] != Gone
    && ((CanStep(t, i) && t' == UntilYield(Step(t, i), i)) ||
        (t' == t && (!CanStep(t, i) || t.pcs[i] == Eating || t.pcs[i] == Thinking)))
  }

  ghost predicate Follows(tables: seq<Table>, who: seq<nat>, k: int) {
    0 <= k < |who| < |tables| && TurnTo(tables[k], who[k], tables[k + 1])
  }

  ghost predicate IsTurnRun(tables: seq<Table>, who: seq<nat>) {
    && |tables| == |who| + 1
    && tables[0].n >= 2 && tables[0] == Start(tables[0].n, tables[0].numMeals)
    && forall k :: 0 <= k < |who| ==> Follows(tables, who, k)
  }

  /** The last turn of `i` before turn `k`, or -1. */
  ghost function LastTurn(who: seq<nat>, k: nat, i: nat): (r: int)
    requires k <= |who|
    ensures -1 <= r < k
  {
    if k == 0 then -1 else if who[k - 1] == i then k - 1 else LastTurn(who, k - 1, i)
  }

  /** Whoever takes turn `k` has not had one before, or everybody else has had one since or is gone. */
  ghost predicate Fairly(tables: seq<Table>, who: seq<nat>, k: nat) {
    k < |who| < |tables| &&
    (LastTurn(who, k, who[k]) >= 0 ==>
       forall j: nat :: j < |tables[k].pcs| && j != who[k] && tables[k].pcs[j] != Gone ==> LastTurn(who, k, who[k]) < LastTurn(who, k, j))
  }

  // What a turn does

  lemma {:induction false} UntilYieldKeeps(t: Table, i: nat)
    requires Invariant(t) && i < t.n
    ensures Invariant(UntilYield(t, i)) && AtYield(UntilYield(t, i), i)
    decreases Rank(t.pcs[i])
  {
    if !AtYield(t, i) {
      StepInvariant(t, i);
      UntilYieldKeeps(Step(t, i), i);
    }
  }

  /** It is nobody else's business. */
  lemma {:induction false} UntilYieldFrame(t: Table, i: nat, j: nat, c: nat)
    requires Shaped(t) && i < t.n && j < t.n && c < t.n
    ensures j != i ==> UntilYield(t, i).pcs[j] == t.pcs[j]
    ensures c != i && c != Right(t.n, i) ==> UntilYield(t, i).chops[c] == t.chops[c]
    decreases Rank(t.pcs[i])
  {
    if !AtYield(t, i) {
      UntilYieldFrame(Step(t, i), i, j, c);
    }
  }

  lemma TurnFrame(t: Table, i: nat, t': Table, j: nat, c: nat)
    requires TurnTo(t, i, t') && j < t.n && c < t.n
    ensures Shaped(t') && t'.n == t.n
    ensures j != i ==> t'.pcs[j] == t.pcs[j]
    ensures c != i && c != Right(t.n, i) ==> t'.chops[c] == t.chops[c]
  {
    if t' != t {
      UntilYieldFrame(Step(t, i), i, j, c);
    }
  }

  lemma TurnKeeps(t: Table, i: nat, t': Table)
    requires Invariant(t) && TurnTo(t, i, t')
    ensures Invariant(t') && (t'.pcs[i] == WantRight ==> !t'.chops[Right(t'.n, i)])
  {
    if CanStep(t, i) {
      StepInvariant(t, i);
      UntilYieldKeeps(Step(t, i), i);
    }
  }

  /** A turn that begins with both chopsticks in hand does not end waiting for one. */
  lemma BothLast(t: Table, i: nat, t': Table)
    requires TurnTo(t, i, t') && Both(t.pcs[i])
    ensures t'.pcs[i] != WantRight
  {
    if t' != t {
      var s := Step(t, i);
      assert s.pcs[i] == NoMeal || s.pcs[i] == Eating || s.pcs[i] == Thinking;
      if s.pcs[i] == NoMeal {
        assert UntilYield(s, i) == UntilYield(Step(s, i), i);
      }
    }
  }

  // Taking turns

  /** Who waits for a chopstick that lies on the table has had no turn since its owner put it down. */
  ghost predicate Noticed(t: Table, who: seq<nat>, k: nat, j: nat)
    requires Shaped(t) && k <= |who|
  {
    j < t.n && t.pcs[j] == WantRight && t.chops[Right(t.n, j)] ==> LastTurn(who, k, j) < LastTurn(who, k, Right(t.n, j))
  }

  ghost predicate Turns(t: Table, who: seq<nat>, k: nat)
    requires k <= |who|
  {
    Invariant(t) && forall j: nat :: Noticed(t, who, k, j)
  }

  lemma TurnNoticed(tables: seq<Table>, who: seq<nat>, k: nat, j: nat)
    requires k < |who| && Follows(tables, who, k) && Turns(tables[k], who, k)
    requires Invariant(tables[k + 1])
    ensures Noticed(tables[k + 1], who, k + 1, j)
  {
    var t, t', i := tables[k], tables[k + 1], who[k];
    TurnKeeps(t, i, t');
    if j < t.n && j != i && Right(t.n, j) != i {
      TurnFrame(t, i, t', j, Right(t.n, j));
      assert Noticed(t, who, k, j);
    } else {
      TurnFrame(t, i, t', 0, 0);
    }
  }

  lemma {:induction false} RunTurns(tables: seq<Table>, who: seq<nat>, k: nat)
    requires IsTurnRun(tables, who) && k <= |who|
    ensures Turns(tables[k], who, k)
    decreases k
  {
    if k == 0 {
      StartInvariant(tables[0].n, tables[0].numMeals);
    } else {
      RunTurns(tables, who, k - 1);
      assert Follows(tables, who, k - 1);
      TurnKeeps(tables[k - 1], who[k - 1], tables[k]);
      forall j: nat ensures Noticed(tables[k], who, k, j) {
        TurnNoticed(tables, who, k - 1, j);
      }
    }
  }

  function LeftOf(n: nat, i: nat): (j: nat)
    requires n >= 2 && i < n
    ensures j < n && j != i && Right(n, j) == i
  {
    if i == 0 then n - 1 else i - 1
  }

  /** The turn that completes the circle would have come too soon. */
  lemma NotTheLast(tables: seq<Table>, who: seq<nat>, k: nat)
    requires IsTurnRun(tables, who) && k < |who| && Fairly(tables, who, k) && !AllAre(tables[k], WantRight)
    ensures !AllAre(tables[k + 1], WantRight)
  {
    RunTurns(tables, who, k);
    assert Follows(tables, who, k);
    var t, t', i := tables[k], tables[k + 1], who[k];
    var j := LeftOf(t.n, i);
    assert Noticed(t, who, k, j);
    if AllAre(t', WantRight) {
      forall l | 0 <= l < t.n && l != i ensures t.pcs[l] == WantRight {
        TurnFrame(t, i, t', l, 0);
      }
      assert t.pcs[i] != WantRight;
      TurnFrame(t, i, t', j, 0);
      StartsFree(t, i, t', j);
    }
  }

  lemma StartsFree(t: Table, i: nat, t': Table, j: nat)
    requires Invariant(t) && TurnTo(t, i, t') && |t'.pcs| == t.n && t'.pcs[i] == WantRight && t.pcs[i] != WantRight
    requires j < t.n && j != i && Right(t.n, j) == i && t.pcs[j] == WantRight
    ensures t.chops[i]
  {
    if Both(t.pcs[i]) {
      BothLast(t, i, t');
    }
    forall h: nat ensures !Holds(t, h, i) {
      assert h < t.n && Right(t.n, h) == i ==> h == j;
    }
  }

  /** For every number of philosophers: if between two turns of one every other one gets a turn, they
      never come to a deadlock, and somebody can go on until all are gone. */
  lemma {:induction false} NoDeadlock(tables: seq<Table>, who: seq<nat>, k: nat)
    requires IsTurnRun(tables, who) && k <= |who| && forall b: nat :: b < |who| ==> Fairly(tables, who, b)
    ensures Shaped(tables[k]) && !AllAre(tables[k], WantRight)
    ensures AllAre(tables[k], Gone) || exists i: nat :: CanStep(tables[k], i)
    decreases k
  {
    RunTurns(tables, who, k);
    if k == 0 {
      assert tables[0].pcs[0] == Coming;
    } else {
      NoDeadlock(tables, who, k - 1);
      NotTheLast(tables, who, k - 1);
    }
    DeadlockIff(tables[k]);
  }
}
