/** The scheduler together with all semaphores: whatever calls are made, they are a run of the protocol. */
module KernelRuns {
  import opened Sequences
  import opened Lists
  import opened ThreadLists
  import opened Threads
  import opened Schedulers

  /** The calls that threads and interrupt handlers make. */
  datatype Call =
    | CallNew(s: nat, initialValue: int)
    | CallFork(child: Id, listed: bool)
    | CallYield
    | CallP(s: nat)
    | CallV(s: nat)
    | CallWait
    | CallJoin(arg1: int)
    | CallFinish

  /** A step concerns no semaphore but `s`. */
  ghost predicate SameBut(k: Kernel, k': Kernel, s: nat) {
    forall r :: r in k.semaphores && r != s ==> r in k'.semaphores && k'.semaphores[r] == k.semaphores[r]
  }

  lemma PVSame(k: Kernel, s: nat)
    requires s in k.semaphores
    ensures SameBut(k, VStep(k, s), s) && VStep(k, s).semaphores.Keys == k.semaphores.Keys && VStep(k, s).inP == k.inP
    ensures k.running.Some? ==> SameBut(k, PStep(k, s), s) && PStep(k, s).semaphores.Keys == k.semaphores.Keys
    ensures k.running.Some? ==> PStep(k, s).inP == InPAfter(k.inP, k.running.value, s, PStep(k, s).running.Some?)
  {
  }

  function InPAfter(inP: map<Id, nat>, t: Id, s: nat, taken: bool): map<Id, nat> {
    if taken then inP - {t} else inP[t := s]
  }

  class System {
    const scheduler: Scheduler
    var semaphores: map<nat, Schedulers.Semaphore>
    /** The threads that are inside P. */
    var inP: map<Id, nat>
    /** The run so far. */
    ghost var states: seq<Kernel>
    ghost var ops: seq<Op>
    ghost var repr: set<object>

    /** Everything that the calls may change is in `repr`: the scheduler with its lists */
    ghost predicate Owned()
      reads this, repr
    {
      && this in repr && scheduler in repr
      && scheduler.readyList in repr && (forall n :: n in scheduler.readyList.nodes ==> n in repr && n.owner == scheduler.readyList)
      && scheduler.activeThreads in repr && (forall n :: n in scheduler.activeThreads.nodes ==> n in repr)
    }

    /** and the semaphores, which are what the protocol knows of them and do not share their queues. */
    ghost predicate Fits(s: nat)
      requires s in semaphores
      reads this, repr
    {
      && semaphores[s] in repr && semaphores[s].queue in repr && (forall n :: n in semaphores[s].queue.nodes ==> n in repr)
      && scheduler in repr && semaphores[s].id == s && semaphores[s].Matches(scheduler.kernel) && semaphores[s].queue != scheduler.readyList
      && forall r :: r in semaphores && r != s ==> semaphores[r] != semaphores[s] && semaphores[r].queue != semaphores[s].queue
    }

    ghost predicate AllFit()
      reads this, repr
    {
      forall s :: s in semaphores ==> Fits(s)
    }

    /** The objects, without the history. */
    ghost predicate Objects()
      reads this, repr
    {
      Owned() && scheduler.Valid() && AllFit()
    }

    ghost predicate History()
      reads `states, `ops, `inP, `semaphores, scheduler`kernel
    {
      && IsRun(states, ops) && states[|ops|] == scheduler.kernel
      && inP == scheduler.kernel.inP && semaphores.Keys == scheduler.kernel.semaphores.Keys
    }

    ghost predicate Valid()
      reads this, repr
    {
      Objects() && History()
    }

    constructor (main: Id)
      ensures Valid() && fresh(repr) && states == [Boot(main)]
    {
      scheduler := new Scheduler(main);
      semaphores, inP, states, ops := map[], map[], [Boot(main)], [];
      new;
      assert states[0] == Boot(main);
      repr := {this, scheduler, scheduler.readyList, scheduler.activeThreads};
    }

    /** The run so far goes on with one more step. */
    twostate predicate Extended(op: Op)
      reads this
    {
      && ops == old(ops) + [op] && |old(states)| == |old(ops)| + 1 && Enabled(old(states)[|old(ops)|], op)
      && states == old(states) + [Apply(old(states)[|old(ops)|], op)]
    }

    // What a call leaves alone

    twostate predicate Same(n: ListElement<Id>)
      reads n
    {
      n.item == old(n.item) && n.key == old(n.key) && n.next == old(n.next)
    }

    /** Nothing was done to a semaphore. */
    twostate predicate Still(sem: Schedulers.Semaphore)
      reads sem, sem.queue, sem.queue.nodes
    {
      && sem.value == old(sem.value) && sem.queue.first == old(sem.queue.first) && sem.queue.last == old(sem.queue.last)
      && sem.queue.nodes == old(sem.queue.nodes) && sem.queue.contents == old(sem.queue.contents)
      && forall i :: 0 <= i < |sem.queue.nodes| ==> Same(old(sem.queue.nodes)[i])
    }

    twostate predicate Quiet(touched: Schedulers.Semaphore?)
      reads *
    {
      forall s :: s in old(semaphores) && old(semaphores)[s] != touched ==>
                    s in semaphores && semaphores[s] == old(semaphores)[s] && Still(old(semaphores)[s])
    }

    ghost function Elements(list: List<Id>): set<object>
      reads list
    {
      set n | n in list.nodes
    }

    /** What a call works on: the scheduler with its lists, and perhaps one semaphore. */
    ghost predicate InCore(o: object, touched: Schedulers.Semaphore?)
      reads this, scheduler.readyList, scheduler.activeThreads, if touched == null then {} else {touched.queue}
    {
      || o == this || o == scheduler || o == scheduler.readyList || o == scheduler.activeThreads
      || o in Elements(scheduler.readyList) || o in (set n | n in scheduler.activeThreads.nodes)
      || (touched != null && (o == touched || o == touched.queue || o in Elements(touched.queue)))
    }

    twostate predicate OnlyCore(touched: Schedulers.Semaphore?)
      reads *
    {
      && (forall s :: s in old(semaphores) && old(semaphores)[s] != touched ==> s in semaphores && semaphores[s] == old(semaphores)[s])
      && forall o :: o in old(repr) && !old(InCore(o, touched)) ==> unchanged(o)
    }

    twostate lemma Elsewhere(touched: Schedulers.Semaphore?)
      requires old(Owned() && AllFit()) && OnlyCore(touched)
      requires touched == null || touched in old(semaphores).Values
      ensures Quiet(touched)
    {
      forall s | s in old(semaphores) && old(semaphores)[s] != touched ensures Still(old(semaphores)[s]) {
        var sem := old(semaphores)[s];
        assert old(Fits(s));
        if touched != null {
          var r :| r in old(semaphores) && old(semaphores)[r] == touched;
          assert old(Fits(r));
        }
        assert !old(InCore(sem, touched)) && !old(InCore(sem.queue, touched));
        forall i | 0 <= i < |old(sem.queue.nodes)| ensures Same(old(sem.queue.nodes)[i]) {
          var n := old(sem.queue.nodes)[i];
          assert n in old(sem.queue.nodes) && n.owner == sem.queue;
          assert !old(InCore(n, touched));
        }
      }
    }

    twostate lemma QuietFits(touched: Schedulers.Semaphore?)
      requires old(AllFit()) && Quiet(touched) && old(repr) <= repr && scheduler in repr
      requires semaphores == old(semaphores)
      requires forall s :: s in semaphores && semaphores[s] != touched ==>
                             s in old(scheduler.kernel.semaphores) && s in scheduler.kernel.semaphores
                             && scheduler.kernel.semaphores[s] == old(scheduler.kernel.semaphores)[s]
      ensures forall s :: s in semaphores && semaphores[s] != touched ==> Fits(s)
    {
      forall s | s in semaphores && semaphores[s] != touched ensures Fits(s) {
        var sem := semaphores[s];
        assert old(Fits(s)) && Still(sem);
        forall i | 0 <= i < |sem.queue.nodes| ensures Linked(sem.queue.nodes, sem.queue.contents, i) {
          assert old(Linked(sem.queue.nodes, sem.queue.contents, i)) && Same(sem.queue.nodes[i]);
        }
      }
    }

    ghost predicate ReadyOwned()
      reads scheduler.readyList
    {
      forall n :: n in scheduler.readyList.nodes ==> n.owner == scheduler.readyList
    }

    // Calls that concern the scheduler only

    /** Bring the history and the set of objects up to date. */
    ghost method Record(states': seq<Kernel>, ops': seq<Op>)
      requires scheduler.Valid()
      modifies `repr, `states, `ops
      ensures scheduler.Valid() && states == states' && ops == ops' && repr == old(repr) + Lists()
    {
      states, ops := states', ops';
      repr := repr + Lists();
    }

    ghost function Lists(): set<object>
      reads scheduler.readyList, scheduler.activeThreads
    {
      Elements(scheduler.readyList) + (set n | n in scheduler.activeThreads.nodes)
    }

    /** After a call that touches no semaphore. */
    twostate predicate Worked(states': seq<Kernel>, ops': seq<Op>)
      reads *
    {
      && states == states' && ops == ops' && semaphores == old(semaphores) && inP == old(inP)
      && repr == old(repr) + Lists() && fresh(Lists() - old(Lists())) && OnlyCore(null)
      && scheduler.kernel.semaphores == old(scheduler.kernel.semaphores) && scheduler.kernel.inP == old(scheduler.kernel.inP)
    }

    twostate lemma Settled()
      requires old(Owned() && AllFit()) && OnlyCore(null) && ReadyOwned()
      requires semaphores == old(semaphores) && scheduler.kernel.semaphores == old(scheduler.kernel.semaphores)
      requires repr == old(repr) + Lists() && fresh(Lists() - old(Lists()))
      ensures Owned() && AllFit() && fresh(repr - old(repr))
    {
      Elsewhere(null);
      QuietFits(null);
    }

    method DoYield(ghost states': seq<Kernel>, ghost ops': seq<Op>)
      requires Owned() && scheduler.Valid() && Free(scheduler.kernel)
      modifies `repr, `states, `ops, scheduler`currentThread, scheduler`status, scheduler`kernel, scheduler.readyList, scheduler.readyList.nodes
      ensures scheduler.Valid() && Worked(states', ops') && scheduler.kernel == YieldStep(old(scheduler.kernel))
    {
      scheduler.Yield();
      Record(states', ops');
    }

    method Yield()
      requires Valid() && Free(scheduler.kernel)
      modifies repr
      ensures Valid() && fresh(repr - old(repr)) && Extended(Op.Yield)
    {
      ghost var states', ops' := Then(states, ops, Op.Yield);
      DoYield(states', ops');
      Settled();
    }

    method DoWait(ghost states': seq<Kernel>, ghost ops': seq<Op>) returns (found: bool)
      requires Owned() && scheduler.Valid() && scheduler.kernel.running.None? && scheduler.kernel.ready != []
      modifies `repr, `states, `ops, scheduler`currentThread, scheduler`status, scheduler`kernel, scheduler.readyList
      ensures scheduler.Valid() && Worked(states', ops') && scheduler.kernel == DispatchStep(old(scheduler.kernel))
    {
      found := scheduler.Wait();
      Record(states', ops');
    }

    /** A look of Sleep that finds a ready thread. */
    method Wait()
      requires Valid() && scheduler.kernel.running.None? && scheduler.kernel.ready != []
      modifies repr
      ensures Valid() && fresh(repr - old(repr)) && Extended(Dispatch)
    {
      ghost var states', ops' := Then(states, ops, Dispatch);
      var found := DoWait(states', ops');
      Settled();
    }

    method DoFork(child: Id, listed: bool, ghost states': seq<Kernel>, ghost ops': seq<Op>)
      requires Owned() && scheduler.Valid() && child !in scheduler.kernel.status && child !in scheduler.kernel.active
      modifies `repr, `states, `ops, scheduler`status, scheduler`ids, scheduler`threadID, scheduler`kernel,
               scheduler.readyList, scheduler.readyList.nodes, scheduler.activeThreads, scheduler.activeThreads.nodes
      ensures scheduler.Valid() && Worked(states', ops') && scheduler.kernel == ForkStep(old(scheduler.kernel), child, listed)
    {
      scheduler.Fork(child, listed);
      Record(states', ops');
    }

    method Fork(child: Id, listed: bool)
      requires Valid() && Enabled(scheduler.kernel, Op.Fork(child, listed))
      modifies repr
      ensures Valid() && fresh(repr - old(repr)) && Extended(Op.Fork(child, listed))
    {
      ghost var states', ops' := Then(states, ops, Op.Fork(child, listed));
      RunInvariant(states, ops, |ops|);
      DoFork(child, listed, states', ops');
      Settled();
    }

    method DoFinish(ghost states': seq<Kernel>, ghost ops': seq<Op>)
      requires Owned() && scheduler.Valid() && Free(scheduler.kernel)
      modifies `repr, `states, `ops, scheduler`isJoined, scheduler`currentThread, scheduler`status, scheduler`kernel,
               scheduler.readyList, scheduler.readyList.nodes, scheduler.activeThreads, scheduler.activeThreads.nodes
      ensures scheduler.Valid() && Worked(states', ops') && scheduler.kernel == FinishStep(old(scheduler.kernel))
    {
      scheduler.Finish();
      Record(states', ops');
    }

    method Finish()
      requires Valid() && Free(scheduler.kernel)
      modifies repr
      ensures Valid() && fresh(repr - old(repr)) && Extended(Op.Finish)
    {
      ghost var states', ops' := Then(states, ops, Op.Finish);
      DoFinish(states', ops');
      Settled();
    }

    method DoJoin(arg1: int, ghost states': seq<Kernel>, ghost ops': seq<Op>) returns (asleep: bool)
      requires Owned() && scheduler.Valid() && Free(scheduler.kernel)
      modifies `repr, `states, `ops, scheduler`parent, scheduler`isJoined, scheduler`currentThread, scheduler`status, scheduler`kernel,
               scheduler.activeThreads, scheduler.activeThreads.nodes
      ensures scheduler.Valid() && Worked(states', ops')
      ensures var found := Found(old(scheduler.activeThreads.contents), arg1);
              scheduler.kernel == if found == None then old(scheduler.kernel) else JoinStep(old(scheduler.kernel), found.value.address)
    {
      asleep := scheduler.Join(arg1);
      Record(states', ops');
    }

    /** Join by ID is a step of the protocol if an active thread has the ID, and nothing otherwise. */
    method Join(arg1: int)
      requires Valid() && Free(scheduler.kernel)
      modifies repr
      ensures Valid() && fresh(repr - old(repr))
      ensures var found := Found(old(scheduler.activeThreads.contents), arg1);
              if found == None then states == old(states) && ops == old(ops) else Extended(Op.Join(found.value.address))
    {
      ghost var found := Found(scheduler.activeThreads.contents, arg1);
      ghost var states': seq<Kernel>, ops': seq<Op> := states, ops;
      if found != None {
        states', ops' := Then(states, ops, Op.Join(found.value.address));
      }
      var asleep := DoJoin(arg1, states', ops');
      Settled();
    }

    // Calls that concern one semaphore

    method RecordSemaphore(ghost states': seq<Kernel>, ghost ops': seq<Op>, ghost sem: Schedulers.Semaphore, inP': map<Id, nat>)
      requires scheduler.Valid() && sem.Matches(scheduler.kernel)
      modifies `repr, `states, `ops, `inP
      ensures scheduler.Valid() && sem.Matches(scheduler.kernel)
      ensures states == states' && ops == ops' && inP == inP' && repr == old(repr) + Lists() + Elements(sem.queue)
    {
      inP := inP';
      states, ops := states', ops';
      repr := repr + Lists() + Elements(sem.queue);
    }

    /** The touched semaphore fits again. */
    twostate lemma TouchedFits(s: nat)
      requires s in semaphores && old(AllFit()) && semaphores == old(semaphores)
      requires semaphores[s].Matches(scheduler.kernel) && old(repr) <= repr && Elements(semaphores[s].queue) <= repr && scheduler in repr
      ensures Fits(s)
    {
      var sem := semaphores[s];
      assert old(Fits(s));
      forall n | n in sem.queue.nodes ensures n in repr {
        assert n in Elements(sem.queue);
      }
    }

    twostate lemma SettledWith(s: nat)
      requires old(Owned() && AllFit()) && s in old(semaphores) && OnlyCore(old(semaphores)[s]) && ReadyOwned()
      requires semaphores == old(semaphores) && semaphores[s].Matches(scheduler.kernel)
      requires SameBut(old(scheduler.kernel), scheduler.kernel, s)
      requires repr == old(repr) + Lists() + Elements(semaphores[s].queue)
      requires fresh(Lists() + Elements(semaphores[s].queue) - old(Lists() + Elements(semaphores[s].queue)))
      ensures Owned() && AllFit() && fresh(repr - old(repr))
    {
      TouchedFits(s);
      OthersFit(s);
      NewIsFresh(s);
    }

    twostate lemma OthersFit(s: nat)
      requires old(Owned() && AllFit()) && s in old(semaphores) && OnlyCore(old(semaphores)[s])
      requires semaphores == old(semaphores) && old(repr) <= repr && scheduler in repr && SameBut(old(scheduler.kernel), scheduler.kernel, s)
      ensures forall r :: r in semaphores && r != s ==> Fits(r)
    {
      var sem := old(semaphores)[s];
      Elsewhere(sem);
      QuietFits(sem);
      assert old(Fits(s));
    }

    twostate lemma NewIsFresh(s: nat)
      requires old(Owned() && AllFit()) && s in old(semaphores) && semaphores == old(semaphores)
      requires repr == old(repr) + Lists() + Elements(semaphores[s].queue)
      requires fresh(Lists() + Elements(semaphores[s].queue) - old(Lists() + Elements(semaphores[s].queue)))
      ensures fresh(repr - old(repr))
    {
      assert old(Fits(s));
      assert old(Lists() + Elements(semaphores[s].queue)) <= old(repr);
    }

    /** After a call of P or V on `sem`. */
    twostate predicate WorkedOn(sem: Schedulers.Semaphore, states': seq<Kernel>, ops': seq<Op>)
      reads *
    {
      && states == states' && ops == ops' && semaphores == old(semaphores)
      && repr == old(repr) + Lists() + Elements(sem.queue)
      && fresh(Lists() + Elements(sem.queue) - old(Lists() + Elements(sem.queue)))
    }

    method DoP(s: nat, sem: Schedulers.Semaphore, ghost states': seq<Kernel>, ghost ops': seq<Op>) returns (taken: bool)
      requires Owned() && scheduler.Valid() && s in semaphores && Fits(s) && sem == semaphores[s] && scheduler.kernel.running.Some?
      modifies `repr, `states, `ops, `inP, sem`value, sem.queue, sem.queue.nodes, scheduler`currentThread, scheduler`status, scheduler`kernel
      ensures scheduler.Valid() && sem.Matches(scheduler.kernel) && scheduler.kernel == PStep(old(scheduler.kernel), s)
      ensures WorkedOn(sem, states', ops') && taken == scheduler.kernel.running.Some?
      ensures inP == InPAfter(old(inP), old(scheduler.kernel).running.value, s, taken)
    {
      var t := scheduler.currentThread.value;
      taken := sem.P(scheduler);
      RecordSemaphore(states', ops', sem, InPAfter(inP, t, s, taken));
    }

    method TouchP(s: nat, sem: Schedulers.Semaphore, ghost states': seq<Kernel>, ghost ops': seq<Op>) returns (taken: bool)
      requires Owned() && scheduler.Valid() && s in semaphores && Fits(s) && sem == semaphores[s] && scheduler.kernel.running.Some?
      modifies `repr, `states, `ops, `inP, sem`value, sem.queue, sem.queue.nodes, scheduler`currentThread, scheduler`status, scheduler`kernel
      ensures scheduler.Valid() && sem.Matches(scheduler.kernel) && scheduler.kernel == PStep(old(scheduler.kernel), s)
      ensures WorkedOn(sem, states', ops') && OnlyCore(sem) && taken == scheduler.kernel.running.Some?
      ensures inP == InPAfter(old(inP), old(scheduler.kernel).running.value, s, taken)
    {
      taken := DoP(s, sem, states', ops');
    }

    method DoV(s: nat, sem: Schedulers.Semaphore, ghost states': seq<Kernel>, ghost ops': seq<Op>)
      requires Owned() && scheduler.Valid() && s in semaphores && Fits(s) && sem == semaphores[s]
      modifies `repr, `states, `ops, `inP, sem`value, sem.queue, scheduler`status, scheduler`kernel, scheduler.readyList, scheduler.readyList.nodes
      ensures scheduler.Valid() && sem.Matches(scheduler.kernel) && scheduler.kernel == VStep(old(scheduler.kernel), s)
      ensures WorkedOn(sem, states', ops') && inP == old(inP)
    {
      sem.V(scheduler);
      RecordSemaphore(states', ops', sem, inP);
    }

    method TouchV(s: nat, sem: Schedulers.Semaphore, ghost states': seq<Kernel>, ghost ops': seq<Op>)
      requires Owned() && scheduler.Valid() && s in semaphores && Fits(s) && sem == semaphores[s]
      modifies `repr, `states, `ops, `inP, sem`value, sem.queue, scheduler`status, scheduler`kernel, scheduler.readyList, scheduler.readyList.nodes
      ensures scheduler.Valid() && sem.Matches(scheduler.kernel) && scheduler.kernel == VStep(old(scheduler.kernel), s)
      ensures WorkedOn(sem, states', ops') && OnlyCore(sem) && inP == old(inP)
    {
      DoV(s, sem, states', ops');
    }

    method StepP(s: nat, ghost states': seq<Kernel>, ghost ops': seq<Op>)
      requires Objects() && s in semaphores && scheduler.kernel.running.Some?
      modifies repr
      ensures Objects() && fresh(repr - old(repr)) && scheduler.kernel == PStep(old(scheduler.kernel), s)
      ensures states == states' && ops == ops' && semaphores == old(semaphores)
      ensures inP == InPAfter(old(inP), old(scheduler.kernel).running.value, s, scheduler.kernel.running.Some?)
    {
      var sem := semaphores[s];
      PVSame(scheduler.kernel, s);
      var taken := TouchP(s, sem, states', ops');
      SettledWith(s);
    }

    /** One pass through P. */
    method P(s: nat)
      requires Valid() && Enabled(scheduler.kernel, Op.P(s))
      modifies repr
      ensures Valid() && fresh(repr - old(repr)) && Extended(Op.P(s))
    {
      ghost var states', ops' := Then(states, ops, Op.P(s));
      PVSame(scheduler.kernel, s);
      StepP(s, states', ops');
    }

    method StepV(s: nat, ghost states': seq<Kernel>, ghost ops': seq<Op>)
      requires Objects() && s in semaphores
      modifies repr
      ensures Objects() && fresh(repr - old(repr)) && scheduler.kernel == VStep(old(scheduler.kernel), s)
      ensures states == states' && ops == ops' && semaphores == old(semaphores) && inP == old(inP)
    {
      var sem := semaphores[s];
      PVSame(scheduler.kernel, s);
      TouchV(s, sem, states', ops');
      SettledWith(s);
    }

    method V(s: nat)
      requires Valid() && Enabled(scheduler.kernel, Op.V(s))
      modifies repr
      ensures Valid() && fresh(repr - old(repr)) && Extended(Op.V(s))
    {
      ghost var states', ops' := Then(states, ops, Op.V(s));
      PVSame(scheduler.kernel, s);
      StepV(s, states', ops');
    }

    // New semaphores

    method DoNew(s: nat, initialValue: int, ghost states': seq<Kernel>, ghost ops': seq<Op>) returns (sem: Schedulers.Semaphore)
      requires Owned() && scheduler.Valid() && s !in semaphores && s !in scheduler.kernel.semaphores
      modifies `repr, `states, `ops, `semaphores, scheduler`kernel
      ensures scheduler.Valid() && scheduler.kernel == NewStep(old(scheduler.kernel), s, initialValue)
      ensures fresh(sem) && fresh(sem.queue) && sem.id == s && sem.queue.nodes == [] && sem.Matches(scheduler.kernel)
      ensures states == states' && ops == ops' && inP == old(inP) && semaphores == old(semaphores)[s := sem]
      ensures repr == old(repr) + {sem, sem.queue} && OnlyCore(null)
    {
      sem := new Schedulers.Semaphore(initialValue, scheduler, s);
      Adopt(s, sem, states', ops');
    }

    method Adopt(s: nat, sem: Schedulers.Semaphore, ghost states': seq<Kernel>, ghost ops': seq<Op>)
      requires scheduler.Valid() && sem.Matches(scheduler.kernel)
      modifies `repr, `states, `ops, `semaphores
      ensures scheduler.Valid() && sem.Matches(scheduler.kernel)
      ensures states == states' && ops == ops' && semaphores == old(semaphores)[s := sem] && repr == old(repr) + {sem, sem.queue}
    {
      semaphores := semaphores[s := sem];
      repr := repr + {sem, sem.queue};
      states, ops := states', ops';
    }

    /** The semaphores that were there still fit beside a new one. */
    twostate lemma OldStillFit(s: nat)
      requires old(Owned() && AllFit()) && OnlyCore(null) && s !in old(semaphores) && s in semaphores
      requires fresh(semaphores[s]) && fresh(semaphores[s].queue) && semaphores == old(semaphores)[s := semaphores[s]]
      requires old(repr) <= repr && scheduler in repr && SameBut(old(scheduler.kernel), scheduler.kernel, s)
      ensures forall r :: r in semaphores && r != s ==> Fits(r)
    {
      Elsewhere(null);
      forall r | r in semaphores && r != s ensures Fits(r) {
        var sem := semaphores[r];
        assert old(Fits(r)) && Still(sem);
        forall i | 0 <= i < |sem.queue.nodes| ensures Linked(sem.queue.nodes, sem.queue.contents, i) {
          assert old(Linked(sem.queue.nodes, sem.queue.contents, i)) && Same(sem.queue.nodes[i]);
        }
      }
    }

    twostate lemma NewFits(s: nat)
      requires old(Owned() && AllFit()) && s !in old(semaphores) && s in semaphores
      requires fresh(semaphores[s]) && fresh(semaphores[s].queue) && semaphores == old(semaphores)[s := semaphores[s]]
      requires repr == old(repr) + {semaphores[s], semaphores[s].queue}
      requires semaphores[s].id == s && semaphores[s].queue.nodes == [] && semaphores[s].Matches(scheduler.kernel)
      ensures Fits(s)
    {
      forall r | r in semaphores && r != s ensures semaphores[r] != semaphores[s] && semaphores[r].queue != semaphores[s].queue {
        assert old(Fits(r));
      }
    }

    method StepNew(s: nat, initialValue: int, ghost states': seq<Kernel>, ghost ops': seq<Op>)
      requires Objects() && s !in semaphores && s !in scheduler.kernel.semaphores
      modifies repr
      ensures Objects() && fresh(repr - old(repr)) && scheduler.kernel == NewStep(old(scheduler.kernel), s, initialValue)
      ensures states == states' && ops == ops' && inP == old(inP) && semaphores.Keys == old(semaphores).Keys + {s}
    {
      var sem := DoNew(s, initialValue, states', ops');
      OldStillFit(s);
      NewFits(s);
    }

    method New(s: nat, initialValue: int)
      requires Valid() && Enabled(scheduler.kernel, NewSemaphore(s, initialValue))
      modifies repr
      ensures Valid() && fresh(repr - old(repr)) && Extended(NewSemaphore(s, initialValue))
    {
      ghost var states', ops' := Then(states, ops, NewSemaphore(s, initialValue));
      StepNew(s, initialValue, states', ops');
    }

    // Whole runs

    /** Whether somebody can make the call: a thread that is running and not inside P, or an interrupt handler
        while the processor idles.  A thread inside P looks at the value first. */
    method CanMake(call: Call) returns (can: bool)
      requires Valid()
      ensures can == Possible(call, scheduler.kernel)
    {
      var free := scheduler.currentThread.Some? && scheduler.currentThread.value !in inP;
      var idle := scheduler.currentThread.None?;
      match call
      case CallNew(s, initialValue) => can := free && s !in semaphores;
      case CallFork(child, listed) => can := free && child !in scheduler.status;
      case CallP(s) => can := !idle && s in semaphores && (free || inP[scheduler.currentThread.value] == s);
      case CallV(s) => can := (idle || free) && s in semaphores;
      case CallWait =>
        var empty := scheduler.readyList.IsEmpty();
        can := idle && !empty;
      case _ => can := free;
    }

    /** A call is one step of the protocol if somebody can make it, and nothing otherwise; so is a Join for an ID that
        no active thread has. */
    method Perform(call: Call) returns (ghost op: Option<Op>)
      requires Valid()
      modifies repr
      ensures Valid() && fresh(repr - old(repr)) && old(states) <= states
      ensures ops == if op.Some? then old(ops) + [op.value] else old(ops)
      ensures op.Some? ==> Answers(op.value, call) && Possible(call, old(scheduler.kernel))
      ensures op.Some? && call.CallJoin? ==>
                var found := Found(old(scheduler.activeThreads.contents), call.arg1);
                found.Some? && found.value.id == call.arg1 && op.value == Op.Join(found.value.address)
      ensures op.None? && Possible(call, old(scheduler.kernel)) ==>
                call.CallJoin? && Found(old(scheduler.activeThreads.contents), call.arg1).None?
    {
      op := None;
      var can := CanMake(call);
      if can {
        op := Make(call);
      }
    }

    method Make(call: Call) returns (ghost op: Option<Op>)
      requires Valid() && Possible(call, scheduler.kernel)
      modifies repr
      ensures Valid() && fresh(repr - old(repr)) && old(states) <= states
      ensures ops == if op.Some? then old(ops) + [op.value] else old(ops)
      ensures op.Some? ==> Answers(op.value, call)
      ensures op.Some? && call.CallJoin? ==>
                var found := Found(old(scheduler.activeThreads.contents), call.arg1);
                found.Some? && found.value.id == call.arg1 && op.value == Op.Join(found.value.address)
      ensures op.None? ==> call.CallJoin? && Found(old(scheduler.activeThreads.contents), call.arg1).None?
    {
      match call
      case CallNew(s, initialValue) =>
        New(s, initialValue);
        op := Some(NewSemaphore(s, initialValue));
      case CallFork(child, listed) =>
        Fork(child, listed);
        op := Some(Op.Fork(child, listed));
      case CallYield =>
        Yield();
        op := Some(Op.Yield);
      case CallP(s) =>
        P(s);
        op := Some(Op.P(s));
      case CallV(s) =>
        V(s);
        op := Some(Op.V(s));
      case CallWait =>
        Wait();
        op := Some(Dispatch);
      case CallJoin(arg1) =>
        ghost var found := Found(scheduler.activeThreads.contents, arg1);
        FoundIffPresent(scheduler.activeThreads.contents, arg1);
        Join(arg1);
        op := if found.Some? then Some(Op.Join(found.value.address)) else None;
      case CallFinish =>
        Finish();
        op := Some(Op.Finish);
    }
  }

  /** The step is the one that was called for. */
  ghost predicate Answers(op: Op, call: Call) {
    match call
    case CallNew(s, initialValue) => op == NewSemaphore(s, initialValue)
    case CallFork(child, listed) => op == Op.Fork(child, listed)
    case CallYield => op == Op.Yield
    case CallP(s) => op == Op.P(s)
    case CallV(s) => op == Op.V(s)
    case CallWait => op == Dispatch
    case CallJoin(_) => op.Join?
    case CallFinish => op == Op.Finish
  }

  /** Somebody can make the call.  That a Join also needs an active thread with that ID the kernel's state does not say. */
  ghost predicate Possible(call: Call, k: Kernel) {
    match call
    case CallNew(s, initialValue) => Enabled(k, NewSemaphore(s, initialValue))
    case CallFork(child, listed) => Enabled(k, Op.Fork(child, listed))
    case CallYield => Enabled(k, Op.Yield)
    case CallP(s) => Enabled(k, Op.P(s))
    case CallV(s) => Enabled(k, Op.V(s))
    case CallWait => Enabled(k, Dispatch)
    case CallJoin(_) => Free(k)
    case CallFinish => Enabled(k, Op.Finish)
  }

  /** Each call that was possible when its turn came was made, with a Join for an ID that no active thread has
      as the only exception, and there are no other steps. */
  ghost predicate AllMade(calls: seq<Call>, states: seq<Kernel>, ops: seq<Op>)
    decreases |calls|
  {
    && |states| == |ops| + 1
    && if calls == [] then ops == []
       else
         var n, last := |calls| - 1, |ops| - 1;
         || ((calls[n].CallJoin? || !Possible(calls[n], states[|ops|])) && AllMade(calls[..n], states, ops))
         || (last >= 0 && Possible(calls[n], states[last]) && Answers(ops[last], calls[n])
             && AllMade(calls[..n], states[..last + 1], ops[..last]))
  }

  /** Any sequence of calls on the objects is a run of the protocol, so whatever holds of all runs holds
      of the objects. */
  method Execute(main: Id, calls: seq<Call>) returns (system: System)
    ensures system.Valid() && IsRun(system.states, system.ops) && Invariant(system.scheduler.kernel)
    ensures system.states[0] == Boot(main) && system.states[|system.ops|] == system.scheduler.kernel
    ensures AllMade(calls, system.states, system.ops)
  {
    system := new System(main);
    for i := 0 to |calls|
      invariant system.Valid() && fresh(system.repr) && [Boot(main)] <= system.states
      invariant AllMade(calls[..i], system.states, system.ops)
    {
      PerformNext(system, calls[..i], calls[i]);
      assert calls[..i] + [calls[i]] == calls[..i + 1];
    }
    assert calls[..|calls|] == calls;
    RunInvariant(system.states, system.ops, |system.ops|);
  }

  lemma MadeNext(calls: seq<Call>, call: Call, states: seq<Kernel>, ops: seq<Op>, states': seq<Kernel>, op: Option<Op>)
    requires AllMade(calls, states, ops) && states <= states'
    requires match op
             case Some(o) => |states'| == |states| + 1 && Answers(o, call) && Possible(call, states[|ops|])
             case None => states' == states && (call.CallJoin? || !Possible(call, states[|ops|]))
    ensures AllMade(calls + [call], states', if op.Some? then ops + [op.value] else ops)
  {
    assert (calls + [call])[..|calls|] == calls;
    assert states'[..|states|] == states;
    assert op.Some? ==> (ops + [op.value])[..|ops|] == ops;
  }

  method PerformNext(system: System, ghost before: seq<Call>, call: Call)
    requires system.Valid() && AllMade(before, system.states, system.ops)
    modifies system.repr
    ensures system.Valid() && fresh(system.repr - old(system.repr)) && old(system.states) <= system.states
    ensures AllMade(before + [call], system.states, system.ops)
  {
    ghost var states, ops := system.states, system.ops;
    ghost var op := system.Perform(call);
    MadeNext(before, call, states, ops, system.states, op);
  }

  /** One step of a run, as a call. */
  method Repeat(system: System, op: Op)
    requires system.Valid() && Enabled(system.scheduler.kernel, op) && !op.Join?
    modifies system.repr
    ensures system.Valid() && fresh(system.repr - old(system.repr)) && system.Extended(op)
  {
    match op
    case NewSemaphore(s, initial) => system.New(s, initial);
    case Fork(child, listed) => system.Fork(child, listed);
    case Yield => system.Yield();
    case P(s) => system.P(s);
    case V(s) => system.V(s);
    case Dispatch => system.Wait();
    case Finish => system.Finish();
  }

  /** And any run of the protocol, if nobody joins in it, can be carried out on the objects. */
  method Replay(main: Id, ops: seq<Op>, ghost states: seq<Kernel>) returns (system: System)
    requires IsRun(states, ops) && states[0] == Boot(main) && forall i :: 0 <= i < |ops| ==> !ops[i].Join?
    ensures system.Valid() && system.states == states && system.ops == ops
  {
    system := new System(main);
    for i := 0 to |ops|
      invariant system.Valid() && fresh(system.repr) && system.states == states[..i + 1] && system.ops == ops[..i]
    {
      assert Follows(states, ops, i);
      assert system.states[i] == states[i] && system.scheduler.kernel == states[i];
      Repeat(system, ops[i]);
      assert ops[..i] + [ops[i]] == ops[..i + 1] && states[..i + 1] + [states[i + 1]] == states[..i + 2];
    }
    assert ops[..|ops|] == ops && states[..|ops| + 1] == states;
  }

  ghost function Found(active: seq<Entry<Thread>>, arg1: int): Option<Thread> {
    if arg1 < 0 then None else LastWithID(active, arg1)
  }
}
