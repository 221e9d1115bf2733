/** The busy-waiting dining philosophers of the thread test, for any number of them. */
module Philosophers {
  /** Where a philosopher is: not here yet, at the barrier, at the top of the loop, waiting for the left
      or the right chopstick, with both in hand, eating, told that there are no more meals, thinking, or gone. */
  datatype Pc = Coming | AtBarrier | AtTop | WantLeft | WantRight | HasBoth | Eating | NoMeal | Thinking | Gone

  datatype Table = Table(n: nat, numMeals: nat, philoSat: nat, philoAte: nat, chops: seq<bool>, pcs: seq<Pc>)

  function Start(n: nat, numMeals: nat): Table {
    Table(n, numMeals, 0, 0, seq(n, i => true), seq(n, i => Coming))
  }

  function Right(n: nat, i: nat): nat {
    if i + 1 >= n then 0 else i + 1
  }

  predicate Shaped(t: Table) {
    t.n >= 2 && |t.chops| == t.n && |t.pcs| == t.n
  }

  /** The code that philosopher `i` goes through without giving up the processor is a sequence of such
      steps; a philosopher that finds a chopstick taken or the table not full yields and looks again. */
  predicate CanStep(t: Table, i: nat)
    requires Shaped(t)
  {
    i < t.n &&
    match t.pcs[i]
    case AtBarrier => t.philoSat >= t.n
    case WantLeft => t.chops[i]
    case WantRight => t.chops[Right(t.n, i)]
    case Gone => false
    case _ => true
  }

  function Step(t: Table, i: nat): Table
    requires Shaped(t) && CanStep(t, i)
  {
    match t.pcs[i]
    case Coming => t.(philoSat := t.philoSat + 1, pcs := t.pcs[i := AtBarrier])
    case AtBarrier => t.(philoSat := if t.philoSat == t.n then t.philoSat + 1 else t.philoSat, pcs := t.pcs[i := AtTop])
    case AtTop => t.(pcs := t.pcs[i := if t.philoAte < t.numMeals then WantLeft else Gone])
    case WantLeft => t.(chops := t.chops[i := false], pcs := t.pcs[i := WantRight])
    case WantRight => t.(chops := t.chops[Right(t.n, i) := false], pcs := t.pcs[i := HasBoth])
    case HasBoth =>
      if t.philoAte >= t.numMeals then t.(pcs := t.pcs[i := NoMeal])
      else t.(philoAte := t.philoAte + 1, pcs := t.pcs[i := Eating])
    case Thinking => t.(pcs := t.pcs[i := AtTop])
    case _ => t.(chops := t.chops[i := true][Right(t.n, i) := true], pcs := t.pcs[i := Thinking])
  }

  ghost predicate StepsTo(t: Table, i: nat, t': Table) {
    Shaped(t) && CanStep(t, i) && t' == Step(t, i)
  }

  ghost predicate IsRun(tables: seq<Table>, who: seq<nat>) {
    && |tables| == |who| + 1
    && tables[0].n >= 2 && tables[0] == Start(tables[0].n, tables[0].numMeals)
    && forall k :: 0 <= k < |who| ==> StepsTo(tables[k], who[k], tables[k + 1])
  }

  // Chopsticks

  predicate Both(pc: Pc) {
    pc == HasBoth || pc == Eating || pc == NoMeal
  }

  /** Philosopher `i` has picked up chopstick `c` and not put it down. */
  ghost predicate Holds(t: Table, i: nat, c: nat) {
    i < |t.pcs| && ((c == i && (t.pcs[i] == WantRight || Both(t.pcs[i]))) || (c == Right(t.n, i) && Both(t.pcs[i])))
  }

  /** A chopstick is off the table exactly when one philosopher holds it. */
  ghost predicate ChopsOk(t: Table)
    requires Shaped(t)
  {
    && (forall i: nat, c: nat :: Holds(t, i, c) ==> c < t.n && !t.chops[c])
    && (forall c: nat :: c < t.n && !t.chops[c] ==> exists i: nat :: Holds(t, i, c))
    && (forall i: nat, j: nat, c: nat :: Holds(t, i, c) && Holds(t, j, c) ==> i == j)
  }

  // The barrier

  function Here(pcs: seq<Pc>): (count: nat)
    ensures count <= |pcs|
  {
    if pcs == [] then 0 else Here(pcs[1..]) + if pcs[0] == Coming then 0 else 1
  }

  lemma {:induction false} HereUpdate(pcs: seq<Pc>, i: nat, pc: Pc)
    requires i < |pcs| && pc != Coming
    ensures Here(pcs[i := pc]) == Here(pcs) + if pcs[i] == Coming then 1 else 0
  {
    if i == 0 {
      assert pcs[0 := pc][1..] == pcs[1..];
    } else {
      HereUpdate(pcs[1..], i - 1, pc);
      assert pcs[i := pc][1..] == pcs[1..][i - 1 := pc];
    }
  }

  lemma {:induction false} AllHere(pcs: seq<Pc>, i: nat)
    requires i < |pcs| && Here(pcs) == |pcs|
    ensures pcs[i] != Coming
  {
    if i > 0 {
      AllHere(pcs[1..], i - 1);
    }
  }

  lemma {:induction false} HereNone(pcs: seq<Pc>)
    requires forall i :: 0 <= i < |pcs| ==> pcs[i] == Coming
    ensures Here(pcs) == 0
  {
    if pcs != [] {
      HereNone(pcs[1..]);
    }
  }

  /** The count of arrivals, which the first to pass the barrier raises once more. */
  ghost predicate BarrierOk(t: Table) {
    && (t.philoSat == Here(t.pcs) || (t.philoSat == t.n + 1 && Here(t.pcs) == t.n))
    && forall i :: 0 <= i < |t.pcs| && t.pcs[i] != Coming && t.pcs[i] != AtBarrier ==> Here(t.pcs) == t.n && t.philoSat == t.n + 1
  }

  ghost predicate Invariant(t: Table) {
    Shaped(t) && ChopsOk(t) && BarrierOk(t) && t.philoAte <= t.numMeals
  }

  lemma StartInvariant(n: nat, numMeals: nat)
    requires n >= 2
    ensures Invariant(Start(n, numMeals))
  {
    HereNone(Start(n, numMeals).pcs);
  }

  lemma StepBarrier(t: Table, i: nat)
    requires Invariant(t) && CanStep(t, i)
    ensures BarrierOk(Step(t, i))
  {
    HereUpdate(t.pcs, i, Step(t, i).pcs[i]);
    if t.pcs[i] == Coming && Here(t.pcs) == t.n {
      AllHere(t.pcs, i);
    }
  }

  lemma HeldAfter(t: Table, i: nat, j: nat, c: nat)
    requires Invariant(t) && CanStep(t, i)
    ensures Holds(Step(t, i), j, c) <==>
            match t.pcs[i] {
              case WantLeft => Holds(t, j, c) || (j == i && c == i)
              case WantRight => Holds(t, j, c) || (j == i && c == Right(t.n, i))
              case Eating => Holds(t, j, c) && j != i
              case NoMeal => Holds(t, j, c) && j != i
              case _ => Holds(t, j, c)
            }
  {
  }

  lemma StepChops(t: Table, i: nat)
    requires Invariant(t) && CanStep(t, i)
    ensures ChopsOk(Step(t, i))
  {
    var t' := Step(t, i);
    forall j: nat, c: nat
      ensures Holds(t', j, c) <==>
              match t.pcs[i] {
                case WantLeft => Holds(t, j, c) || (j == i && c == i)
                case WantRight => Holds(t, j, c) || (j == i && c == Right(t.n, i))
                case Eating => Holds(t, j, c) && j != i
                case NoMeal => Holds(t, j, c) && j != i
                case _ => Holds(t, j, c)
              }
    {
      HeldAfter(t, i, j, c);
    }
    if t.pcs[i] == Eating || t.pcs[i] == NoMeal {
      assert Holds(t, i, i) && Holds(t, i, Right(t.n, i));
    }
    forall c: nat | c < t.n && !t'.chops[c] ensures exists j: nat :: Holds(t', j, c) {
      if !t.chops[c] {
        var j: nat :| Holds(t, j, c);
        assert Holds(t', j, c);
      } else {
        assert Holds(t', i, c);
      }
    }
  }

  lemma StepInvariant(t: Table, i: nat)
    requires Invariant(t) && CanStep(t, i)
    ensures Invariant(Step(t, i))
  {
    StepBarrier(t, i);
    StepChops(t, i);
  }

  lemma {:induction false} RunInvariant(tables: seq<Table>, who: seq<nat>, k: nat)
    requires IsRun(tables, who) && k <= |who|
    ensures Invariant(tables[k])
    decreases k
  {
    if k == 0 {
      StartInvariant(tables[0].n, tables[0].numMeals);
    } else {
      RunInvariant(tables, who, k - 1);
      assert StepsTo(tables[k - 1], who[k - 1], tables[k - 1 + 1]);
      StepInvariant(tables[k - 1], who[k - 1]);
    }
  }

  // What every interleaving keeps

  /** A chopstick flag is false exactly when one philosopher, and only one, holds it. */
  lemma ChopstickHeldOnce(tables: seq<Table>, who: seq<nat>, k: nat, c: nat)
    requires IsRun(tables, who) && k <= |who| && c < |tables[k].chops|
    ensures !tables[k].chops[c] <==> exists i: nat :: Holds(tables[k], i, c)
    ensures forall i: nat, j: nat :: Holds(tables[k], i, c) && Holds(tables[k], j, c) ==> i == j
  {
    RunInvariant(tables, who, k);
  }

  lemma RightIsNext(n: nat, i: nat)
    requires i < n
    ensures Right(n, i) == (i + 1) % n
  {
  }

  /** Nobody eats together with the neighbour on the right, and who eats has both chopsticks next to it off the table. */
  lemma NeighboursNeverEatTogether(tables: seq<Table>, who: seq<nat>, k: nat, i: nat)
    requires IsRun(tables, who) && k <= |who| && i < |tables[k].pcs|
    ensures tables[k].n == |tables[k].pcs| == |tables[k].chops|
    ensures tables[k].pcs[i] == Eating ==>
              && tables[k].pcs[(i + 1) % tables[k].n] != Eating
              && !tables[k].chops[i] && !tables[k].chops[(i + 1) % tables[k].n]
  {
    RunInvariant(tables, who, k);
    var t := tables[k];
    RightIsNext(t.n, i);
    var j := Right(t.n, i);
    if t.pcs[i] == Eating {
      assert Holds(t, i, i) && Holds(t, i, j);
      if t.pcs[j] == Eating {
        assert Holds(t, j, j);
      }
    }
  }

  /** Nobody holds a chopstick before everybody has arrived, and no more meals are eaten than there are. */
  lemma AllArriveFirst(tables: seq<Table>, who: seq<nat>, k: nat, i: nat, c: nat)
    requires IsRun(tables, who) && k <= |who|
    ensures tables[k].philoAte <= tables[k].numMeals
    ensures Holds(tables[k], i, c) ==> forall j :: 0 <= j < |tables[k].pcs| ==> tables[k].pcs[j] != Coming
  {
    RunInvariant(tables, who, k);
    var t := tables[k];
    if Holds(t, i, c) {
      forall j | 0 <= j < |t.pcs| ensures t.pcs[j] != Coming {
        AllHere(t.pcs, j);
      }
    }
  }

  // Meals

  /** How often somebody has begun to eat. */
  ghost function Meals(tables: seq<Table>, who: seq<nat>, k: nat): nat
    requires k <= |who| < |tables|
  {
    if k == 0 then 0 else Meals(tables, who, k - 1) + if BeginsToEat(tables[k - 1], tables[k], who[k - 1]) then 1 else 0
  }

  ghost predicate BeginsToEat(t: Table, t': Table, i: nat) {
    i < |t.pcs| && i < |t'.pcs| && t.pcs[i] != Eating && t'.pcs[i] == Eating
  }

  /** Whoever finds no meal left, or goes, does so because all meals have been eaten. */
  ghost predicate AllEaten(t: Table) {
    forall i :: 0 <= i < |t.pcs| && (t.pcs[i] == NoMeal || t.pcs[i] == Gone) ==> t.philoAte == t.numMeals
  }

  lemma StepEats(t: Table, i: nat)
    requires Invariant(t) && CanStep(t, i) && AllEaten(t)
    ensures var t' := Step(t, i);
            && t'.numMeals == t.numMeals && AllEaten(t')
            && t'.philoAte == t.philoAte + if BeginsToEat(t, t', i) then 1 else 0
  {
  }

  /** In every run the count of meals is the number of times that somebody began to eat, and nobody goes before exactly
      as many meals have been eaten as there are. */
  lemma {:induction false} EveryMealIsEaten(tables: seq<Table>, who: seq<nat>, k: nat)
    requires IsRun(tables, who) && k <= |who|
    ensures tables[k].numMeals == tables[0].numMeals
    ensures tables[k].philoAte == Meals(tables, who, k) <= tables[k].numMeals && AllEaten(tables[k])
    decreases k
  {
    RunInvariant(tables, who, k);
    if k > 0 {
      EveryMealIsEaten(tables, who, k - 1);
      RunInvariant(tables, who, k - 1);
      assert StepsTo(tables[k - 1], who[k - 1], tables[k - 1 + 1]);
      StepEats(tables[k - 1], who[k - 1]);
    }
  }

  // Deadlock

  ghost predicate AllAre(t: Table, pc: Pc) {
    forall i :: 0 <= i < |t.pcs| ==> t.pcs[i] == pc
  }

  /** Nobody can do anything exactly when all have gone, or all hold their left chopstick and wait for the right one. */
  lemma DeadlockIff(t: Table)
    requires Invariant(t)
    ensures (forall i: nat :: !CanStep(t, i)) <==> AllAre(t, Gone) || AllAre(t, WantRight)
  {
    if forall i: nat :: !CanStep(t, i) {
      StuckPcs(t);
      if i :| 0 <= i < t.n && t.pcs[i] == WantRight {
        forall j | 0 <= j < t.n ensures t.pcs[j] == WantRight {
          AroundTo(t, i, j);
        }
      }
    }
    if AllAre(t, WantRight) {
      forall i: nat ensures !CanStep(t, i) {
        if i < t.n {
          assert Holds(t, Right(t.n, i), Right(t.n, i));
        }
      }
    }
  }

  lemma StuckPcs(t: Table)
    requires Invariant(t) && forall i: nat :: !CanStep(t, i)
    ensures forall i :: 0 <= i < t.n ==> t.pcs[i] == Gone || t.pcs[i] == WantRight
  {
    forall i | 0 <= i < t.n ensures t.pcs[i] == Gone || t.pcs[i] == WantRight {
      assert !CanStep(t, i);
      if t.pcs[i] == WantLeft {
        var j: nat :| Holds(t, j, i);
        assert !CanStep(t, j);
      }
      if t.pcs[i] == AtBarrier {
        SomebodyComing(t.pcs);
        var j :| 0 <= j < |t.pcs| && t.pcs[j] == Coming;
        assert CanStep(t, j);
      }
    }
  }

  lemma {:induction false} SomebodyComing(pcs: seq<Pc>)
    requires Here(pcs) < |pcs|
    ensures exists j :: 0 <= j < |pcs| && pcs[j] == Coming
  {
    if pcs[0] != Coming {
      SomebodyComing(pcs[1..]);
      var j :| 0 <= j < |pcs[1..]| && pcs[1..][j] == Coming;
      assert pcs[j + 1] == Coming;
    }
  }

  /** The right neighbour of a philosopher who waits for the right chopstick does too. */
  lemma NextWaits(t: Table, i: nat)
    requires Invariant(t) && (forall j: nat :: !CanStep(t, j)) && i < t.n && t.pcs[i] == WantRight
    ensures t.pcs[Right(t.n, i)] == WantRight
  {
    assert !CanStep(t, i);
    var j: nat :| Holds(t, j, Right(t.n, i));
    assert !CanStep(t, j);
  }

  lemma {:induction false} Rightwards(t: Table, i: nat, j: nat)
    requires Invariant(t) && (forall k: nat :: !CanStep(t, k)) && i <= j < t.n && t.pcs[i] == WantRight
    ensures t.pcs[j] == WantRight
    decreases j
  {
    if i < j {
      Rightwards(t, i, j - 1);
      NextWaits(t, j - 1);
    }
  }

  lemma AroundTo(t: Table, i: nat, j: nat)
    requires Invariant(t) && (forall k: nat :: !CanStep(t, k)) && i < t.n && j < t.n && t.pcs[i] == WantRight
    ensures t.pcs[j] == WantRight
  {
    Rightwards(t, i, t.n - 1);
    NextWaits(t, t.n - 1);
    Rightwards(t, 0, j);
  }

  // A deadlock

  /** Philosopher `i` is where the code yields: it is not here, eats, thinks or has gone, or waits. */
  predicate AtYield(t: Table, i: nat)
    requires Shaped(t)
  {
    i < t.n && (t.pcs[i] == Coming || t.pcs[i] == Eating || t.pcs[i] == Thinking || !CanStep(t, i))
  }

  ghost predicate Switches(t: Table, previous: nat, next: nat) {
    next != previous ==> Shaped(t) && AtYield(t, previous)
  }

  /** A run in which the processor changes hands only where the code yields. */
  ghost predicate IsYieldRun(tables: seq<Table>, who: seq<nat>) {
    IsRun(tables, who) && forall k :: 0 < k < |who| ==> Switches(tables[k], who[k - 1], who[k])
  }

  function Three(philoSat: nat, philoAte: nat, chops: seq<bool>, pcs: seq<Pc>): Table {
    Table(3, 2, philoSat, philoAte, chops, pcs)
  }

  /** Philosopher 2 eats first; 1 and 0 each pick up one chopstick before and after it puts its two down;
      and 2 comes back for its left one. */
  function TableAt(k: nat): Table {
    if k == 0 then Three(0, 0, [true, true, true], [Coming, Coming, Coming])
    else if k == 1 then Three(1, 0, [true, true, true], [AtBarrier, Coming, Coming])
    else if k == 2 then Three(2, 0, [true, true, true], [AtBarrier, AtBarrier, Coming])
    else if k == 3 then Three(3, 0, [true, true, true], [AtBarrier, AtBarrier, AtBarrier])
    else if k == 4 then Three(4, 0, [true, true, true], [AtBarrier, AtBarrier, AtTop])
    else if k == 5 then Three(4, 0, [true, true, true], [AtBarrier, AtBarrier, WantLeft])
    else if k == 6 then Three(4, 0, [true, true, false], [AtBarrier, AtBarrier, WantRight])
    else if k == 7 then Three(4, 0, [false, true, false], [AtBarrier, AtBarrier, HasBoth])
    else if k == 8 then Three(4, 1, [false, true, false], [AtBarrier, AtBarrier, Eating])
    else if k == 9 then Three(4, 1, [false, true, false], [AtTop, AtBarrier, Eating])
    else if k == 10 then Three(4, 1, [false, true, false], [WantLeft, AtBarrier, Eating])
    else if k == 11 then Three(4, 1, [false, true, false], [WantLeft, AtTop, Eating])
    else if k == 12 then Three(4, 1, [false, true, false], [WantLeft, WantLeft, Eating])
    else if k == 13 then Three(4, 1, [false, false, false], [WantLeft, WantRight, Eating])
    else if k == 14 then Three(4, 1, [true, false, true], [WantLeft, WantRight, Thinking])
    else if k == 15 then Three(4, 1, [false, false, true], [WantRight, WantRight, Thinking])
    else if k == 16 then Three(4, 1, [false, false, true], [WantRight, WantRight, AtTop])
    else if k == 17 then Three(4, 1, [false, false, true], [WantRight, WantRight, WantLeft])
    else Three(4, 1, [false, false, false], [WantRight, WantRight, WantRight])
  }

  function WhoAt(k: nat): nat {
    [0, 1, 2, 2, 2, 2, 2, 2, 0, 0, 1, 1, 1, 2, 0, 2, 2, 2][if k < 18 then k else 17]
  }

  lemma FirstSteps(k: nat)
    requires k < 9
    ensures StepsTo(TableAt(k), WhoAt(k), TableAt(k + 1))
  {
  }

  lemma LastSteps(k: nat)
    requires 9 <= k < 18
    ensures StepsTo(TableAt(k), WhoAt(k), TableAt(k + 1))
  {
  }

  lemma SwitchesAtYields(k: nat)
    requires 0 < k < 18
    ensures Switches(TableAt(k), WhoAt(k - 1), WhoAt(k))
  {
  }

  lemma LastIsStuck()
    ensures TableAt(0) == Start(3, 2) && Stuck(TableAt(18))
  {
  }

  ghost predicate Stuck(t: Table) {
    Shaped(t) && AllAre(t, WantRight) && forall i: nat :: !CanStep(t, i)
  }

  lemma FromSteps(table: nat -> Table, who: nat -> nat, n: nat, meals: nat, length: nat) returns (tables: seq<Table>, steps: seq<nat>)
    requires n >= 2 && table(0) == Start(n, meals)
    requires forall k: nat :: k < length ==> StepsTo(table(k), who(k), table(k + 1))
    requires forall k: nat :: 0 < k < length ==> Switches(table(k), who(k - 1), who(k))
    ensures |steps| == length && IsYieldRun(tables, steps) && tables[length] == table(length)
  {
    tables := seq(length + 1, k requires 0 <= k => table(k));
    steps := seq(length, k requires 0 <= k => who(k));
    forall k | 0 <= k < length ensures StepsTo(tables[k], steps[k], tables[k + 1]) {
      assert StepsTo(table(k), who(k), table(k + 1));
    }
    forall k | 0 < k < length ensures Switches(tables[k], steps[k - 1], steps[k]) {
      assert Switches(table(k), who(k - 1), who(k));
    }
  }

  /** Three philosophers, switching only at yields, get to where each holds the left chopstick for ever.
      Philosopher 1 is passed over while the chopstick it waits for lies on the table: it takes a time
      slice, in which it yields again before it looks, to make the ready list do that. */
  lemma DeadlockReached() returns (tables: seq<Table>, who: seq<nat>)
    ensures IsYieldRun(tables, who) && Stuck(tables[|who|])
  {
    forall k: nat | k < 18 ensures StepsTo(TableAt(k), WhoAt(k), TableAt(k + 1)) {
      if k < 9 {
        FirstSteps(k);
      } else {
        LastSteps(k);
      }
    }
    forall k: nat | 0 < k < 18 ensures Switches(TableAt(k), WhoAt(k - 1), WhoAt(k)) {
      SwitchesAtYields(k);
    }
    LastIsStuck();
    tables, who := FromSteps(TableAt, WhoAt, 3, 2, 18);
  }
}
