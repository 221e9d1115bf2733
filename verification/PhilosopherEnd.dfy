/** The busy-waiting philosophers come to an end when they take turns. */
module PhilosopherEnd {
  import opened Sequences
  import opened Philosophers
  import opened PhilosopherTurns

  // Every step uses something up

  /** What is left to do for a philosopher, not counting the meals to come. */
  function Weight(pc: Pc, left: bool): nat {
    match pc
    case Coming => 15
    case AtBarrier => 14
    case Eating => if left then 13 else 5
    case Thinking => if left then 12 else 3
    case AtTop => if left then 10 else 2
    case WantLeft => 9
    case WantRight => 8
    case HasBoth => 7
    case NoMeal => 6
    case Gone => 0
  }

  function Total(pcs: seq<Pc>, left: bool): nat {
    if pcs == [] then 0 else Weight(pcs[0], left) + Total(pcs[1..], left)
  }

  lemma {:induction false} TotalUpdate(pcs: seq<Pc>, i: nat, pc: Pc, left: bool)
    requires i < |pcs|
    ensures Total(pcs[i := pc], left) == Total(pcs, left) - Weight(pcs[i], left) + Weight(pc, left)
  {
    if i == 0 {
      assert pcs[0 := pc][1..] == pcs[1..];
    } else {
      TotalUpdate(pcs[1..], i - 1, pc, left);
      assert pcs[i := pc][1..] == pcs[1..][i - 1 := pc];
    }
  }

  lemma {:induction false} NoneLeftLess(pcs: seq<Pc>)
    ensures Total(pcs, false) <= Total(pcs, true)
  {
    if pcs != [] {
      NoneLeftLess(pcs[1..]);
    }
  }

  predicate Left(t: Table) {
    t.philoAte < t.numMeals
  }

  /** All that is left to do. */
  function Work(t: Table): int {
    Total(t.pcs, Left(t)) + 7 * (t.numMeals - t.philoAte)
  }

  /** Who is told that there are no more meals, or goes, has been told the truth. */
  ghost predicate Honest(t: Table) {
    Invariant(t) && AllEaten(t)
  }

  lemma StepUses(t: Table, i: nat)
    requires Honest(t) && CanStep(t, i)
    ensures Honest(Step(t, i)) && Work(Step(t, i)) < Work(t)
  {
    StepInvariant(t, i);
    var t' := Step(t, i);
    TotalUpdate(t.pcs, i, t'.pcs[i], Left(t));
    NoneLeftLess(t'.pcs);
  }

  lemma {:induction false} UntilYieldUses(t: Table, i: nat)
    requires Honest(t) && i < t.n
    ensures Honest(UntilYield(t, i)) && Work(UntilYield(t, i)) <= Work(t)
    decreases Rank(t.pcs[i])
  {
    if !AtYield(t, i) {
      StepUses(t, i);
      UntilYieldUses(Step(t, i), i);
    }
  }

  predicate Lingering(t: Table, i: nat) {
    i < |t.pcs| && (t.pcs[i] == Eating || t.pcs[i] == Thinking)
  }

  /** A turn uses something up or changes nothing, and who can go on goes on or eats or thinks. */
  lemma TurnUses(t: Table, i: nat, t': Table)
    requires Honest(t) && TurnTo(t, i, t')
    ensures Honest(t') && t'.n == t.n && (t' == t || Work(t') < Work(t))
    ensures t' == t && CanStep(t, i) ==> Lingering(t, i)
  {
    if CanStep(t, i) {
      StepUses(t, i);
      UntilYieldUses(Step(t, i), i);
    }
  }

  // Turns

  lemma {:induction false} LastTurnFrom(who: seq<nat>, k: nat, i: nat, a: nat)
    requires a < k <= |who| && who[a] == i
    ensures LastTurn(who, k, i) >= a
  {
    if who[k - 1] != i {
      LastTurnFrom(who, k - 1, i, a);
    }
  }

  lemma {:induction false} LastTurnIs(who: seq<nat>, k: nat, i: nat)
    requires k <= |who| && LastTurn(who, k, i) >= 0
    ensures who[LastTurn(who, k, i)] == i
  {
    if who[k - 1] != i {
      LastTurnIs(who, k - 1, i);
    }
  }

  function Members(s: seq<nat>): (r: set<nat>)
    ensures forall x :: x in r <==> x in s
  {
    if s == [] then {} else Members(s[..|s| - 1]) + {s[|s| - 1]}
  }

  lemma {:induction false} DistinctCount(s: seq<nat>)
    requires Distinct(s)
    ensures |Members(s)| == |s|
  {
    if s != [] {
      DistinctCount(s[..|s| - 1]);
      assert s[|s| - 1] !in s[..|s| - 1];
    }
  }

  lemma {:induction false} BelowCount(s: set<nat>, n: nat)
    requires forall x :: x in s ==> x < n
    ensures |s| <= n
  {
    if n > 0 {
      BelowCount(s - {n - 1}, n - 1);
      assert s <= s - {n - 1} + {n - 1};
      assert n - 1 !in s ==> s - {n - 1} == s;
    }
  }

  /** Of `n` turns, none of them `j`'s, two are the same philosopher's. */
  lemma Repeated(w: seq<nat>, n: nat, j: nat)
    requires |w| == n && j < n && forall m :: 0 <= m < n ==> w[m] < n && w[m] != j
    ensures exists a, b :: 0 <= a < b < n && w[a] == w[b]
  {
    if Distinct(w) {
      DistinctCount(w + [j]);
      BelowCount(Members(w + [j]), n);
    }
  }

  ghost predicate Fair(tables: seq<Table>, who: seq<nat>) {
    IsTurnRun(tables, who) && forall b: nat :: b < |who| ==> Fairly(tables, who, b)
  }

  /** Nothing changes from turn `a` to turn `b`. */
  ghost predicate Constant(tables: seq<Table>, a: nat, b: nat) {
    a <= b < |tables| && forall m :: a <= m <= b ==> tables[m] == tables[a]
  }

  /** Everybody who is not gone gets one of `n` turns. */
  lemma GetsTurn(tables: seq<Table>, who: seq<nat>, k: nat, j: nat)
    requires Fair(tables, who) && k <= |who| && |tables[k].pcs| == tables[k].n && k + tables[k].n <= |who| && Constant(tables, k, k + tables[k].n)
    requires j < tables[k].n && tables[k].pcs[j] != Gone
    ensures exists m :: k <= m < k + tables[k].n && who[m] == j
  {
    var n := tables[k].n;
    if forall m :: k <= m < k + n ==> who[m] != j {
      var w := who[k..k + n];
      forall m | 0 <= m < n ensures w[m] < n && w[m] != j {
        assert Follows(tables, who, k + m);
      }
      Repeated(w, n, j);
      var a, b :| 0 <= a < b < n && w[a] == w[b];
      var i := who[k + b];
      assert Fairly(tables, who, k + b);
      assert tables[k + b] == tables[k];
      LastTurnFrom(who, k + b, i, k + a);
      LastTurnIs(who, k + b, j);
    }
  }

  // Patience

  /** How many turns in a row, up to turn `k`, philosopher `i` has gone on eating or thinking. */
  ghost function Lingers(tables: seq<Table>, who: seq<nat>, k: nat, i: nat): nat
    requires k <= |who| < |tables|
  {
    if k == 0 then 0
    else if who[k - 1] != i then Lingers(tables, who, k - 1, i)
    else if tables[k] == tables[k - 1] && Lingering(tables[k - 1], i) then Lingers(tables, who, k - 1, i) + 1
    else 0
  }

  /** Nobody eats or thinks for more than five turns at a stretch. */
  ghost predicate Brisk(tables: seq<Table>, who: seq<nat>) {
    |who| < |tables| && forall k: nat, i: nat :: k <= |who| ==> Lingers(tables, who, k, i) <= 5
  }

  lemma {:induction false} LingersOn(tables: seq<Table>, who: seq<nat>, a: nat, b: nat, i: nat)
    requires a <= b <= |who| < |tables| && Constant(tables, a, b) && Lingering(tables[a], i)
    ensures Lingers(tables, who, b, i) >= Lingers(tables, who, a, i)
    ensures (exists m :: a <= m < b && who[m] == i) ==> Lingers(tables, who, b, i) > Lingers(tables, who, a, i)
    decreases b
  {
    if a < b {
      LingersOn(tables, who, a, b - 1, i);
      assert tables[b] == tables[a] && tables[b - 1] == tables[a];
      if m :| a <= m < b && who[m] == i {
        assert m < b - 1 || who[b - 1] == i;
      }
    }
  }

  lemma {:induction false} HonestRun(tables: seq<Table>, who: seq<nat>, k: nat)
    requires IsTurnRun(tables, who) && k <= |who|
    ensures Honest(tables[k]) && tables[k].n == tables[0].n
    decreases k
  {
    if k == 0 {
      StartInvariant(tables[0].n, tables[0].numMeals);
    } else {
      HonestRun(tables, who, k - 1);
      assert Follows(tables, who, k - 1);
      TurnUses(tables[k - 1], who[k - 1], tables[k]);
    }
  }

  /** The work never grows, and while it stays the same nothing changes. */
  lemma {:induction false} WorkShrinks(tables: seq<Table>, who: seq<nat>, a: nat, b: nat)
    requires IsTurnRun(tables, who) && a <= b <= |who|
    ensures Work(tables[b]) <= Work(tables[a])
    ensures Work(tables[b]) == Work(tables[a]) ==> Constant(tables, a, b)
    decreases b
  {
    if a < b {
      WorkShrinks(tables, who, a, b - 1);
      HonestRun(tables, who, b - 1);
      assert Follows(tables, who, b - 1);
      TurnUses(tables[b - 1], who[b - 1], tables[b]);
    }
  }

  /** Somebody who can go on, and gets a turn without going on, is eating or thinking. */
  lemma OnlyLingers(tables: seq<Table>, who: seq<nat>, k: nat, i: nat)
    requires Fair(tables, who) && k + tables[0].n <= |who| && Constant(tables, k, k + tables[0].n)
    requires Shaped(tables[k]) && CanStep(tables[k], i)
    ensures Lingering(tables[k], i)
  {
    HonestRun(tables, who, k);
    GetsTurn(tables, who, k, i);
    var m :| k <= m < k + tables[0].n && who[m] == i;
    assert Follows(tables, who, m) && tables[m] == tables[k] && tables[m + 1] == tables[k];
    TurnUses(tables[k], i, tables[k]);
  }

  lemma {:induction false} LingersLong(tables: seq<Table>, who: seq<nat>, k: nat, i: nat, w: nat)
    requires Fair(tables, who) && k + w * tables[0].n <= |who| && Constant(tables, k, k + w * tables[0].n)
    requires Lingering(tables[k], i)
    ensures Lingers(tables, who, k + w * tables[0].n, i) >= w
    decreases w
  {
    if w > 0 {
      var n := tables[0].n;
      var m := k + (w - 1) * n;
      assert m + n == k + w * n;
      LingersLong(tables, who, k, i, w - 1);
      HonestRun(tables, who, m);
      assert tables[m] == tables[k];
      assert Constant(tables, m, m + n);
      GetsTurn(tables, who, m, i);
      LingersOn(tables, who, m, m + n, i);
    }
  }

  /** In six rounds something is used up. */
  lemma Progress(tables: seq<Table>, who: seq<nat>, k: nat)
    requires Fair(tables, who) && Brisk(tables, who) && k + 6 * tables[0].n <= |who|
    ensures Work(tables[k + 6 * tables[0].n]) < Work(tables[k])
  {
    var n := tables[0].n;
    WorkShrinks(tables, who, k, k + 6 * n);
    if Constant(tables, k, k + 6 * n) {
      assert Follows(tables, who, k);
      NoDeadlock(tables, who, k);
      var i: nat :| CanStep(tables[k], i);
      assert Constant(tables, k, k + n);
      OnlyLingers(tables, who, k, i);
      LingersLong(tables, who, k, i, 6);
    }
  }

  lemma {:induction false} WorkSpent(tables: seq<Table>, who: seq<nat>, m: nat)
    requires Fair(tables, who) && Brisk(tables, who) && m * (6 * tables[0].n) <= |who|
    ensures Work(tables[m * (6 * tables[0].n)]) + m <= Work(tables[0])
    decreases m
  {
    if m > 0 {
      var w := 6 * tables[0].n;
      assert m * w == (m - 1) * w + w;
      WorkSpent(tables, who, m - 1);
      Progress(tables, who, (m - 1) * w);
    }
  }

  lemma {:induction false} TotalComing(pcs: seq<Pc>, left: bool)
    requires forall i :: 0 <= i < |pcs| ==> pcs[i] == Coming
    ensures Total(pcs, left) == 15 * |pcs|
  {
    if pcs != [] {
      TotalComing(pcs[1..], left);
    }
  }

  /** For every number of philosophers and meals there is a number of turns that no fair and brisk run exceeds. */
  lemma FairRunsEnd(tables: seq<Table>, who: seq<nat>)
    requires Fair(tables, who) && Brisk(tables, who)
    ensures |who| < (15 * tables[0].n + 7 * tables[0].numMeals + 1) * (6 * tables[0].n)
  {
    var t := tables[0];
    TotalComing(t.pcs, Left(t));
    var m := 15 * t.n + 7 * t.numMeals + 1;
    if m * (6 * t.n) <= |who| {
      WorkSpent(tables, who, m);
      HonestRun(tables, who, m * (6 * t.n));
    }
  }

  // Every run can go on until all are gone

  /** Of those who are not gone, one who has not had a turn for the longest time. */
  lemma {:induction false} Longest(t: Table, who: seq<nat>, n: nat) returns (i: nat)
    requires n <= |t.pcs| && exists j :: 0 <= j < n && t.pcs[j] != Gone
    ensures i < n && t.pcs[i] != Gone
    ensures forall j: nat :: j < n && t.pcs[j] != Gone ==> LastTurn(who, |who|, i) <= LastTurn(who, |who|, j)
    decreases n
  {
    if exists j :: 0 <= j < n - 1 && t.pcs[j] != Gone {
      i := Longest(t, who, n - 1);
      if t.pcs[n - 1] != Gone && LastTurn(who, |who|, n - 1) < LastTurn(who, |who|, i) {
        i := n - 1;
      }
    } else {
      i := n - 1;
    }
  }

  lemma {:induction false} LastTurnPrefix(who: seq<nat>, more: seq<nat>, k: nat, i: nat)
    requires k <= |who| <= |more| && more[..|who|] == who
    ensures LastTurn(more, k, i) == LastTurn(who, k, i)
  {
    if k > 0 {
      assert more[k - 1] == more[..|who|][k - 1];
      LastTurnPrefix(who, more, k - 1, i);
    }
  }

  lemma {:induction false} LingersPrefix(tables: seq<Table>, who: seq<nat>, tables': seq<Table>, who': seq<nat>, k: nat, i: nat)
    requires k <= |who| < |tables| && |who| <= |who'| < |tables'|
    requires who'[..|who|] == who && tables'[..|who| + 1] == tables[..|who| + 1]
    ensures Lingers(tables', who', k, i) == Lingers(tables, who, k, i)
    decreases k
  {
    if k > 0 {
      assert who'[k - 1] == who'[..|who|][k - 1];
      assert tables'[k - 1] == tables'[..|who| + 1][k - 1] == tables[..|who| + 1][k - 1];
      assert tables'[k] == tables'[..|who| + 1][k] == tables[..|who| + 1][k];
      LingersPrefix(tables, who, tables', who', k - 1, i);
    }
  }

  /** The turn that `i` takes when it goes on as soon as it can. */
  function NextTurn(t: Table, i: nat): Table
    requires Shaped(t) && i < t.n
  {
    if CanStep(t, i) then UntilYield(Step(t, i), i) else t
  }

  lemma FairlyMore(tables: seq<Table>, who: seq<nat>, t: Table, i: nat, b: nat)
    requires Fairly(tables, who, b)
    ensures Fairly(tables + [t], who + [i], b)
  {
    forall j: nat ensures LastTurn(who + [i], b, j) == LastTurn(who, b, j) {
      LastTurnPrefix(who, who + [i], b, j);
    }
  }

  /** The one who has waited longest is the one whose turn it is. */
  lemma FairlyNext(tables: seq<Table>, who: seq<nat>, t: Table, i: nat)
    requires |who| < |tables| && i < |tables[|who|].pcs|
    requires forall j: nat :: j < |tables[|who|].pcs| && tables[|who|].pcs[j] != Gone ==> LastTurn(who, |who|, i) <= LastTurn(who, |who|, j)
    ensures Fairly(tables + [t], who + [i], |who|)
  {
    var k := |who|;
    forall j: nat ensures LastTurn(who + [i], k, j) == LastTurn(who, k, j) {
      LastTurnPrefix(who, who + [i], k, j);
    }
    if LastTurn(who, k, i) >= 0 {
      forall j: nat | j < |tables[k].pcs| && j != i && tables[k].pcs[j] != Gone ensures LastTurn(who, k, i) < LastTurn(who, k, j) {
        LastTurnIs(who, k, i);
        LastTurnIs(who, k, j);
      }
    }
  }

  lemma FairMore(tables: seq<Table>, who: seq<nat>, i: nat)
    requires Fair(tables, who) && Shaped(tables[|who|]) && i < tables[|who|].n && tables[|who|].pcs[i] != Gone
    requires Fairly(tables + [NextTurn(tables[|who|], i)], who + [i], |who|)
    ensures Fair(tables + [NextTurn(tables[|who|], i)], who + [i])
  {
    var tables', who' := tables + [NextTurn(tables[|who|], i)], who + [i];
    forall k | 0 <= k < |who'| ensures Follows(tables', who', k) {
      assert k < |who| ==> Follows(tables, who, k);
    }
    forall b: nat | b < |who'| ensures Fairly(tables', who', b) {
      if b < |who| {
        FairlyMore(tables, who, NextTurn(tables[|who|], i), i, b);
      }
    }
  }

  lemma BriskMore(tables: seq<Table>, who: seq<nat>, i: nat)
    requires Brisk(tables, who) && |tables| == |who| + 1 && Honest(tables[|who|]) && i < tables[|who|].n
    ensures Brisk(tables + [NextTurn(tables[|who|], i)], who + [i])
  {
    var t := tables[|who|];
    var tables', who' := tables + [NextTurn(t, i)], who + [i];
    if CanStep(t, i) {
      StepUses(t, i);
      UntilYieldUses(Step(t, i), i);
    }
    forall k: nat, j: nat | k <= |who'| ensures Lingers(tables', who', k, j) <= 5 {
      if k <= |who| {
        LingersPrefix(tables, who, tables', who', k, j);
      } else {
        LingersPrefix(tables, who, tables', who', |who|, j);
      }
    }
  }

  /** As long as somebody is left, a fair and brisk run can go on. */
  lemma FairRunGoesOn(tables: seq<Table>, who: seq<nat>) returns (t: Table, i: nat)
    requires Fair(tables, who) && Brisk(tables, who) && !AllAre(tables[|who|], Gone)
    ensures Fair(tables + [t], who + [i]) && Brisk(tables + [t], who + [i])
  {
    HonestRun(tables, who, |who|);
    var now := tables[|who|];
    i := Longest(now, who, now.n);
    t := NextTurn(now, i);
    FairlyNext(tables, who, t, i);
    FairMore(tables, who, i);
    BriskMore(tables, who, i);
  }

  /** Every fair and brisk run is the beginning of one at whose end all philosophers are gone and all meals eaten. */
  lemma {:induction false} AllGoHome(tables: seq<Table>, who: seq<nat>) returns (tables': seq<Table>, who': seq<nat>)
    requires Fair(tables, who) && Brisk(tables, who)
    ensures Fair(tables', who') && Brisk(tables', who') && AllAre(tables'[|who'|], Gone)
    ensures tables'[|who'|].philoAte == tables'[|who'|].numMeals
    ensures tables <= tables' && who <= who'
    decreases (15 * tables[0].n + 7 * tables[0].numMeals + 1) * (6 * tables[0].n) - |who|
  {
    FairRunsEnd(tables, who);
    if AllAre(tables[|who|], Gone) {
      HonestRun(tables, who, |who|);
      assert tables[|who|].pcs[0] == Gone;
      tables', who' := tables, who;
    } else {
      var t, i := FairRunGoesOn(tables, who);
      tables', who' := AllGoHome(tables + [t], who + [i]);
    }
  }
}
