/** Whole runs of the file system, from a freshly formatted disk. */
module FsRuns {
  import opened Sequences
  import opened Bytes
  import opened SynchDisks
  import opened FileHeaders
  import opened OpenFiles
  import opened Directories
  import opened DiskLayouts
  import opened Catalogs
  import opened FileSystems
  import opened FsInvariants
  import opened FsRefinements

  lemma HandlesOfUpdate(handles: map<nat, Handle>, id: nat, h: Handle)
    ensures AbstractHandles(handles[id := h]) == AbstractHandles(handles)[id := h.key]
  {
  }

  lemma HandlesOfRemove(handles: map<nat, Handle>, k: seq<Byte>)
    ensures AbstractHandles(handles - Stale(handles, k))
         == AbstractHandles(handles) - (set id | id in AbstractHandles(handles) && AbstractHandles(handles)[id] == k)
  {
  }

  lemma NameStep(s: State, op: Op, s': State)
    requires Invariant(s) && (op.Create? || op.Remove? || op.Open?) && Next(s, op, s')
    ensures Invariant(s') && AbstractNext(Abstract(s), op, Abstract(s'))
  {
    match op
    case Create(name, size, ok) =>
      CreateRefines(s, s'.disk, name, size, ok);
    case Remove(name, ok) =>
      RemoveRefines(s, s'.disk, name, ok);
      HandlesOfRemove(s.handles, Key(name));
    case Open(name, id, ok) =>
      ListedKeys(s.disk, Key(name));
      if ok {
        OpenRefines(s, name, id);
        HandlesOfUpdate(s.handles, id, s'.handles[id]);
      }
  }

  lemma DataStep(s: State, op: Op, s': State)
    requires Invariant(s) && (op.ReadAt? || op.WriteAt?) && Next(s, op, s')
    ensures Invariant(s') && AbstractNext(Abstract(s), op, Abstract(s'))
  {
    if op.ReadAt? {
      var _ := LiveHandle(s, op.id);
    } else {
      WriteRefines(s, s'.disk, op.id, op.data, op.at, op.n);
    }
  }

  /** Every step keeps the invariant and is a step of the abstract file system. */
  lemma StepRefines(s: State, op: Op, s': State)
    requires Invariant(s) && Next(s, op, s')
    ensures Invariant(s') && AbstractNext(Abstract(s), op, Abstract(s'))
  {
    if op.Create? || op.Remove? || op.Open? {
      NameStep(s, op, s');
    } else {
      DataStep(s, op, s');
    }
  }

  /** A run: states and the operations between them, on a disk that was just formatted. */
  ghost predicate IsRun(states: seq<State>, ops: seq<Op>)
    decreases |ops|
  {
    && |states| == |ops| + 1
    && if ops == [] then Empty(states[0].disk) && states[0].handles == map[]
       else IsRun(states[..|ops|], ops[..|ops| - 1]) && Goes(states[|ops| - 1], ops[|ops| - 1], states[|ops|])
  }

  ghost predicate Goes(s: State, op: Op, s': State) {
    Invariant(s) ==> Next(s, op, s')
  }

  lemma {:induction false} RunGoes(states: seq<State>, ops: seq<Op>, i: nat)
    requires IsRun(states, ops) && i < |ops|
    ensures Goes(states[i], ops[i], states[i + 1])
  {
    if i < |ops| - 1 {
      RunGoes(states[..|ops|], ops[..|ops| - 1], i);
    }
  }

  lemma {:induction false} RunStarts(states: seq<State>, ops: seq<Op>)
    requires IsRun(states, ops)
    ensures Empty(states[0].disk) && states[0].handles == map[]
  {
    if ops != [] {
      RunStarts(states[..|ops|], ops[..|ops| - 1]);
    }
  }

  /** A run goes on with one more operation. */
  lemma Continued(states: seq<State>, ops: seq<Op>, op: Op, s': State)
    requires IsRun(states, ops) && Goes(states[|ops|], op, s')
    ensures IsRun(states + [s'], ops + [op])
  {
    assert (states + [s'])[..|ops| + 1] == states && (ops + [op])[..|ops|] == ops;
  }

  /** Every state of every run is sound. */
  lemma {:induction false} RunIsSound(states: seq<State>, ops: seq<Op>, i: nat)
    requires IsRun(states, ops) && i <= |ops|
    ensures Invariant(states[i])
    decreases i
  {
    if i == 0 {
      RunStarts(states, ops);
      EmptyIsSound(states[0].disk);
    } else {
      RunIsSound(states, ops, i - 1);
      RunGoes(states, ops, i - 1);
      StepRefines(states[i - 1], ops[i - 1], states[i]);
    }
  }

  /** Every run is a run of the abstract file system, which starts without files. */
  lemma RunRefines(states: seq<State>, ops: seq<Op>)
    requires IsRun(states, ops)
    ensures forall i :: 0 <= i <= |ops| ==> Invariant(states[i])
    ensures Abstract(states[0]) == AbstractState(map[], map[])
    ensures forall i :: 0 <= i < |ops| ==> AbstractNext(Abstract(states[i]), ops[i], Abstract(states[i + 1]))
  {
    forall i | 0 <= i <= |ops| ensures Invariant(states[i]) {
      RunIsSound(states, ops, i);
    }
    forall i | 0 <= i < |ops| ensures AbstractNext(Abstract(states[i]), ops[i], Abstract(states[i + 1])) {
      GoesRefined(states, ops, i);
    }
    StartsEmpty(states, ops);
  }

  lemma StartsEmpty(states: seq<State>, ops: seq<Op>)
    requires IsRun(states, ops)
    ensures Invariant(states[0]) && Abstract(states[0]) == AbstractState(map[], map[])
  {
    RunIsSound(states, ops, 0);
    RunStarts(states, ops);
    NoFiles(states[0].disk);
  }

  lemma GoesRefined(states: seq<State>, ops: seq<Op>, i: nat)
    requires IsRun(states, ops) && i < |ops|
    ensures Invariant(states[i]) && Invariant(states[i + 1])
    ensures AbstractNext(Abstract(states[i]), ops[i], Abstract(states[i + 1]))
  {
    RunIsSound(states, ops, i);
    RunGoes(states, ops, i);
    StepRefines(states[i], ops[i], states[i + 1]);
  }

  lemma NoFiles(d: Image)
    requires Empty(d) && Sound(d)
    ensures Files(d) == map[]
  {
    forall k ensures k !in Files(d) {
      ListedKeys(d, k);
    }
  }

  /** `s` is the header sector or a data sector of the file. */
  ghost predicate Holds(f: Slot, s: int) {
    f.File? && Fits(f.hdr) && (s == f.sector || s in Data(f.hdr))
  }

  /** Sector `s` is marked exactly when it is reserved or belongs to exactly one listed file, in one role. */
  ghost predicate OwnedOnce(cat: seq<Slot>, marked: set<int>, s: int) {
    && (s in marked <==> s in Reserved || exists k :: 0 <= k < |cat| && Holds(cat[k], s))
    && (forall k :: 0 <= k < |cat| && Holds(cat[k], s) ==> s !in Reserved)
    && (forall k, l :: 0 <= k < l < |cat| ==> !(Holds(cat[k], s) && Holds(cat[l], s)))
    && (forall k :: 0 <= k < |cat| && cat[k].File? ==> Fits(cat[k].hdr) && Distinct([cat[k].sector] + Data(cat[k].hdr)))
  }

  lemma CoherentMeansOwnedOnce(cat: seq<Slot>, marked: set<int>, s: int)
    requires Coherent(cat, marked)
    ensures OwnedOnce(cat, marked, s)
  {
    InAllOwned(cat, s);
    forall k | 0 <= k < |cat| ensures Holds(cat[k], s) <==> s in Owned(cat[k]) {
      assert Proper(cat[k]);
    }
    forall k | 0 <= k < |cat| && cat[k].File? ensures Fits(cat[k].hdr) && Distinct([cat[k].sector] + Data(cat[k].hdr)) {
      assert Proper(cat[k]);
    }
  }

  /** In every reachable state every sector is owned once. */
  lemma SectorOwnership(states: seq<State>, ops: seq<Op>, i: nat, s: nat)
    requires IsRun(states, ops) && i <= |ops| && s < NumSectors
    ensures Invariant(states[i]) && OwnedOnce(Catalog(states[i].disk), FreeMap(states[i].disk), s)
  {
    RunIsSound(states, ops, i);
    CoherentMeansOwnedOnce(Catalog(states[i].disk), FreeMap(states[i].disk), s);
  }
}
