/** The scheduler, the thread operations and semaphores on the kernel's own lists, proved against the steps. */
module Schedulers {
  import opened Sequences
  import opened Lists
  import opened ThreadLists
  import opened Threads

  ghost function Addresses(s: seq<Entry<Thread>>): set<Id> {
    set e | e in s :: e.item.address
  }

  /** A thread has ID 0 until Exec gives it another one. */
  function IDOf(ids: map<Id, int>, t: Id): int {
    if t in ids then ids[t] else 0
  }

  /** The threads on the active list are different threads, with the IDs they were given. */
  ghost predicate Listed(s: seq<Entry<Thread>>, ids: map<Id, int>) {
    && (forall i, j :: 0 <= i < j < |s| ==> s[i].item.address != s[j].item.address)
    && (forall e :: e in s ==> e.item.address in ids && ids[e.item.address] == e.item.id)
  }

  /** Different lists have no element in common. */
  lemma NothingInCommon(a: List<Id>, b: List<Id>)
    requires a.Valid() && b.Valid() && a != b
    ensures forall i, j :: 0 <= i < |a.nodes| && 0 <= j < |b.nodes| ==> a.nodes[i] != b.nodes[j]
  {
    forall i, j | 0 <= i < |a.nodes| && 0 <= j < |b.nodes| ensures a.nodes[i] != b.nodes[j] {
      assert a.nodes[i].owner == a && b.nodes[j].owner == b;
    }
  }

  /** The elements of a list are old ones of it, or new. */
  twostate predicate KeptOrNew<T>(list: List<T>)
    reads list
  {
    forall i :: 0 <= i < |list.nodes| ==> list.nodes[i] in old(list.nodes) || fresh(list.nodes[i])
  }

  /** A list that nothing was done to is still in order. */
  twostate lemma Untouched(other: List<Id>)
    requires old(other.Valid()) && unchanged(other) && forall i :: 0 <= i < |other.nodes| ==> unchanged(other.nodes[i])
    ensures other.Valid()
  {
    forall i | 0 <= i < |other.nodes| ensures Linked(other.nodes, other.contents, i) {
      assert old(Linked(other.nodes, other.contents, i));
    }
  }

  class Scheduler {
    var status: map<Id, Status>
    var currentThread: Option<Id>
    const readyList: List<Id>
    const activeThreads: List<Thread>
    /** The ID that Exec gives a thread, and the next one to give. */
    var ids: map<Id, int>
    var threadID: int
    var parent: map<Id, Id>
    var isJoined: set<Id>
    /** The state of the protocol that all this represents. */
    ghost var kernel: Kernel

    /** The tables without the two lists. */
    ghost predicate Tables(k: Kernel)
      reads `status, `currentThread, `parent, `isJoined
    {
      k.status == status && k.running == currentThread && k.parent == parent && k.joined == isJoined
    }

    ghost predicate Ready(k: Kernel)
      reads readyList, readyList.nodes
    {
      readyList.Valid() && k.ready == ItemsOf(readyList.contents)
    }

    ghost predicate Active(k: Kernel)
      reads `ids, activeThreads, activeThreads.nodes
    {
      Sized(activeThreads) && Listed(activeThreads.contents, ids) && k.active == Addresses(activeThreads.contents)
    }

    ghost predicate Represents(k: Kernel)
      reads `status, `currentThread, `parent, `isJoined, `ids, readyList, readyList.nodes, activeThreads, activeThreads.nodes
    {
      Tables(k) && Ready(k) && Active(k)
    }

    ghost predicate Valid()
      reads this, readyList, readyList.nodes, activeThreads, activeThreads.nodes
    {
      Represents(kernel)
    }

    constructor (main: Id)
      ensures Valid() && kernel == Boot(main) && fresh(readyList) && fresh(activeThreads)
      ensures readyList.nodes == [] && activeThreads.nodes == []
    {
      status := map[main := Running];
      currentThread := Some(main);
      readyList := new List();
      activeThreads := new List();
      parent, ids, threadID, isJoined := map[], map[main := 0], 1, {};
      kernel := Boot(main);
    }

    method ReadyToRun(t: Id)
      requires readyList.Valid() && Sized(activeThreads)
      modifies `status, readyList, readyList.nodes
      ensures readyList.Valid() && status == old(status)[t := Threads.Ready]
      ensures Sized(activeThreads) && activeThreads.contents == old(activeThreads.contents)
      ensures ItemsOf(readyList.contents) == old(ItemsOf(readyList.contents)) + [t]
      ensures KeptOrNew(readyList)
    {
      status := status[t := Threads.Ready];
      readyList.Append(t);
    }

    method FindNextToRun() returns (next: Option<Id>)
      requires readyList.Valid()
      modifies readyList
      ensures readyList.Valid()
      ensures var ready := old(ItemsOf(readyList.contents));
              if ready == [] then next == None && readyList.contents == [] else next == Some(ready[0]) && ItemsOf(readyList.contents) == ready[1..]
      ensures forall i :: 0 <= i < |readyList.nodes| ==> readyList.nodes[i] in old(readyList.nodes)
    {
      next := readyList.Remove();
    }

    /** The parent runs next. */
    method WakeUpFromJoin(p: Id)
      requires readyList.Valid() && Sized(activeThreads)
      modifies `isJoined, `status, readyList, readyList.nodes
      ensures readyList.Valid() && status == old(status)[p := Threads.Ready] && isJoined == old(isJoined) - {p}
      ensures ItemsOf(readyList.contents) == [p] + old(ItemsOf(readyList.contents))
      ensures KeptOrNew(readyList)
      ensures Sized(activeThreads) && activeThreads.contents == old(activeThreads.contents)
    {
      isJoined := isJoined - {p};
      status := status[p := Threads.Ready];
      readyList.Prepend(p);
    }

    method Run(next: Id)
      modifies `currentThread, `status
      ensures currentThread == Some(next) && status == old(status)[next := Running]
    {
      currentThread := Some(next);
      status := status[next := Running];
    }

    /** The first half of Sleep; Wait is the second. */
    method Block()
      requires currentThread.Some?
      modifies `currentThread, `status
      ensures currentThread == None && status == old(status)[old(currentThread).value := Blocked]
    {
      status := status[currentThread.value := Blocked];
      currentThread := None;
    }

    /** The processor is given to the first ready thread; false if it has to idle. */
    method Wait() returns (found: bool)
      requires Valid() && currentThread.None?
      modifies `currentThread, `status, `kernel, readyList
      ensures Valid() && found == (old(kernel).ready != [])
      ensures kernel == if found then DispatchStep(old(kernel)) else old(kernel)
      ensures forall i :: 0 <= i < |readyList.nodes| ==> readyList.nodes[i] in old(readyList.nodes)
    {
      var next := FindNextToRun();
      if next.Some? {
        kernel := DispatchStep(kernel);
        Run(next.value);
      }
      return next.Some?;
    }

    method Yield()
      requires Valid() && Free(kernel)
      modifies `currentThread, `status, `kernel, readyList, readyList.nodes
      ensures Valid() && kernel == YieldStep(old(kernel))
      ensures KeptOrNew(readyList)
    {
      ghost var k := kernel;
      SwitchToNext();
      kernel := YieldStep(k);
    }

    /** The first ready thread, if there is one, and the current one change places. */
    method SwitchToNext()
      requires readyList.Valid() && Sized(activeThreads) && currentThread.Some?
      modifies `currentThread, `status, readyList, readyList.nodes
      ensures readyList.Valid() && Sized(activeThreads) && activeThreads.contents == old(activeThreads.contents)
      ensures var ready, t := old(ItemsOf(readyList.contents)), old(currentThread).value;
              if ready == [] then status == old(status) && currentThread == old(currentThread) && ItemsOf(readyList.contents) == ready
              else && status == old(status)[t := Threads.Ready][ready[0] := Running] && currentThread == Some(ready[0])
                   && ItemsOf(readyList.contents) == ready[1..] + [t]
      ensures KeptOrNew(readyList)
    {
      var next := FindNextToRun();
      if next.Some? {
        ReadyToRun(currentThread.value);
        Run(next.value);
      }
    }

    /** Start a thread; Exec also gives it an ID and puts it on the active list. */
    method Fork(child: Id, listed: bool)
      requires Valid() && child !in kernel.status && child !in kernel.active
      modifies `status, `ids, `threadID, `kernel, readyList, readyList.nodes, activeThreads, activeThreads.nodes
      ensures Valid() && kernel == ForkStep(old(kernel), child, listed)
      ensures KeptOrNew(readyList) && KeptOrNew(activeThreads)
    {
      ghost var k := kernel;
      Place(child, listed);
      kernel := ForkStep(k, child, listed);
    }

    method Place(child: Id, listed: bool)
      requires readyList.Valid() && Sized(activeThreads) && Listed(activeThreads.contents, ids) && child !in Addresses(activeThreads.contents)
      modifies `status, `ids, `threadID, readyList, readyList.nodes, activeThreads, activeThreads.nodes
      ensures readyList.Valid() && status == old(status)[child := Threads.Ready]
      ensures ItemsOf(readyList.contents) == old(ItemsOf(readyList.contents)) + [child]
      ensures Sized(activeThreads) && Listed(activeThreads.contents, ids)
      ensures Addresses(activeThreads.contents) == old(Addresses(activeThreads.contents)) + if listed then {child} else {}
      ensures KeptOrNew(readyList) && KeptOrNew(activeThreads)
    {
      if listed {
        List(child);
      }
      Enter(child);
    }

    /** ReadyToRun, with what it leaves alone. */
    method Enter(t: Id)
      requires readyList.Valid() && Sized(activeThreads) && Listed(activeThreads.contents, ids)
      modifies `status, readyList, readyList.nodes
      ensures readyList.Valid() && status == old(status)[t := Threads.Ready]
      ensures ItemsOf(readyList.contents) == old(ItemsOf(readyList.contents)) + [t]
      ensures Sized(activeThreads) && activeThreads.contents == old(activeThreads.contents) && activeThreads.nodes == old(activeThreads.nodes)
      ensures KeptOrNew(readyList)
    {
      ReadyToRun(t);
    }

    method List(child: Id)
      requires readyList.Valid() && Sized(activeThreads) && Listed(activeThreads.contents, ids) && child !in Addresses(activeThreads.contents)
      modifies `ids, `threadID, activeThreads, activeThreads.nodes
      ensures Sized(activeThreads) && Listed(activeThreads.contents, ids)
      ensures Addresses(activeThreads.contents) == old(Addresses(activeThreads.contents)) + {child}
      ensures readyList.Valid() && readyList.contents == old(readyList.contents) && readyList.nodes == old(readyList.nodes)
      ensures KeptOrNew(activeThreads)
    {
      activeThreads.Append(Thread(child, threadID));
      ids := ids[child := threadID];
      threadID := threadID + 1;
    }

    /** Join by ID: nothing happens unless an active thread has it.  True if the current thread sleeps. */
    method Join(arg1: int) returns (asleep: bool)
      requires Valid() && Free(kernel)
      modifies `parent, `isJoined, `currentThread, `status, `kernel, activeThreads, activeThreads.nodes
      ensures Valid()
      ensures var found := if arg1 < 0 then None else LastWithID(old(activeThreads.contents), arg1);
              && (found == None ==> kernel == old(kernel) && !asleep)
              && (found != None ==> kernel == JoinStep(old(kernel), found.value.address) && asleep == kernel.running.None?)
      ensures KeptOrNew(activeThreads)
    {
      if arg1 < 0 {
        return false;
      }
      var found := Lookup(arg1);
      if found == None {
        return false;
      }
      asleep := JoinWith(found.value.address);
    }

    method Lookup(arg1: int) returns (found: Option<Thread>)
      requires Active(kernel)
      modifies activeThreads, activeThreads.nodes
      ensures Active(kernel) && found == LastWithID(old(activeThreads.contents), arg1)
      ensures found.Some? ==> found.value.address in kernel.active
      ensures KeptOrNew(activeThreads)
    {
      found := GetID(activeThreads, arg1);
      FoundIffPresent(activeThreads.contents, arg1);
    }

    method JoinWith(child: Id) returns (asleep: bool)
      requires Tables(kernel) && Free(kernel) && child in kernel.active
      modifies `parent, `isJoined, `currentThread, `status, `kernel
      ensures Tables(kernel) && kernel == JoinStep(old(kernel), child) && asleep == kernel.running.None?
    {
      kernel := JoinStep(kernel, child);
      if currentThread.value !in isJoined {
        parent := parent[child := currentThread.value];
        isJoined := isJoined + {currentThread.value};
        Block();
        return true;
      }
      return false;
    }

    method Finish()
      requires Valid() && Free(kernel)
      modifies `isJoined, `currentThread, `status, `kernel, readyList, readyList.nodes, activeThreads, activeThreads.nodes
      ensures Valid() && kernel == FinishStep(old(kernel))
      ensures KeptOrNew(readyList) && KeptOrNew(activeThreads)
    {
      ghost var k := kernel;
      Depart(currentThread.value);
      kernel := FinishStep(k);
    }

    method Depart(t: Id)
      requires readyList.Valid() && Sized(activeThreads) && Listed(activeThreads.contents, ids) && currentThread == Some(t)
      modifies `isJoined, `currentThread, `status, readyList, readyList.nodes, activeThreads, activeThreads.nodes
      ensures var p := if t in parent then [parent[t]] else [];
              && status == (if p == [] then old(status) else old(status)[p[0] := Threads.Ready])[t := Blocked]
              && isJoined == old(isJoined) - (set q | q in p) && currentThread == None
              && readyList.Valid() && ItemsOf(readyList.contents) == p + old(ItemsOf(readyList.contents))
      ensures Sized(activeThreads) && Listed(activeThreads.contents, ids)
      ensures Addresses(activeThreads.contents) == old(Addresses(activeThreads.contents)) - {t}
      ensures KeptOrNew(readyList) && KeptOrNew(activeThreads)
    {
      WakeParent(t);
      Unlist(t);
      Block();
    }

    /** The parent of thread `t`, if it has one, becomes ready. */
    method WakeParent(t: Id)
      requires readyList.Valid() && Sized(activeThreads)
      modifies `isJoined, `status, readyList, readyList.nodes
      ensures var p := if t in parent then [parent[t]] else [];
              && status == (if p == [] then old(status) else old(status)[p[0] := Threads.Ready])
              && isJoined == old(isJoined) - (set q | q in p)
              && readyList.Valid() && ItemsOf(readyList.contents) == p + old(ItemsOf(readyList.contents))
      ensures Sized(activeThreads) && activeThreads.contents == old(activeThreads.contents) && activeThreads.nodes == old(activeThreads.nodes)
      ensures KeptOrNew(readyList)
    {
      if t in parent {
        WakeUpFromJoin(parent[t]);
      }
    }

    /** The loop of Finish over the active list. */
    method Unlist(t: Id)
      requires readyList.Valid() && Sized(activeThreads) && Listed(activeThreads.contents, ids)
      modifies activeThreads, activeThreads.nodes
      ensures Sized(activeThreads) && Listed(activeThreads.contents, ids)
      ensures Addresses(activeThreads.contents) == old(Addresses(activeThreads.contents)) - {t}
      ensures readyList.Valid() && readyList.contents == old(readyList.contents) && readyList.nodes == old(readyList.nodes)
      ensures KeptOrNew(activeThreads)
    {
      ghost var s := activeThreads.contents;
      LeaveActive(activeThreads, Thread(t, IDOf(ids, t)));
      Unlisted(s, activeThreads.contents, ids, t);
    }
  }

  /** Dropping a thread from the active list drops its address and no other. */
  lemma Unlisted(s: seq<Entry<Thread>>, r: seq<Entry<Thread>>, ids: map<Id, int>, t: Id)
    requires Listed(s, ids) && (forall e :: e in s ==> e.key == 0)
    requires Entry(Thread(t, IDOf(ids, t)), 0) !in s ==> r == s
    requires forall k: nat :: k < |s| && s[k].item == Thread(t, IDOf(ids, t)) ==> r == Filtered(s, k)
    ensures Listed(r, ids) && Addresses(r) == Addresses(s) - {t}
  {
    if k: nat :| k < |s| && s[k].item == Thread(t, IDOf(ids, t)) {
      FilteredMembers(s, k);
      forall e ensures e in r <==> e in s && e.item.address != t {
        if e in s && e != s[k] {
          var i :| 0 <= i < |s| && s[i] == e;
          assert i < k || k < i;
        }
      }
      forall i, j | 0 <= i < j < |r| ensures r[i].item.address != r[j].item.address {
        FilteredAt(s, k, i);
        FilteredAt(s, k, j);
      }
    } else {
      forall e | e in s ensures e.item.address != t {
        var i: nat :| i < |s| && s[i] == e;
        assert e.item == Thread(e.item.address, ids[e.item.address]);
      }
    }
  }

  /** Where the elements of the filtered list come from. */
  function Origin(n: nat, k: nat, i: nat): nat
    requires k < n && i < n - 1
  {
    if k == n - 1 then i else if i == 0 then n - 1 else if i <= k then i - 1 else i
  }

  lemma FilteredAt(s: seq<Entry<Thread>>, k: nat, i: nat)
    requires k < |s| && i < |s| - 1
    ensures Filtered(s, k)[i] == s[Origin(|s|, k, i)] && Origin(|s|, k, i) != k && Origin(|s|, k, i) < |s|
    ensures forall j: nat :: j < |s| - 1 && j != i ==> Origin(|s|, k, j) != Origin(|s|, k, i)
  {
  }

  lemma FilteredMembers(s: seq<Entry<Thread>>, k: nat)
    requires k < |s|
    ensures forall i :: 0 <= i < |s| && i != k ==> s[i] in Filtered(s, k)
    ensures forall e :: e in Filtered(s, k) ==> exists i :: 0 <= i < |s| && i != k && s[i] == e
  {
    var r := Filtered(s, k);
    forall i | 0 <= i < |s| && i != k ensures s[i] in r {
      var j := if k == |s| - 1 then i else if i == |s| - 1 then 0 else if i < k then i + 1 else i;
      FilteredAt(s, k, j);
    }
    forall e | e in r ensures exists i :: 0 <= i < |s| && i != k && s[i] == e {
      var j: nat :| j < |r| && r[j] == e;
      FilteredAt(s, k, j);
    }
  }

  class Semaphore {
    ghost const id: nat
    var value: int
    const queue: List<Id>

    /** What the protocol knows of this semaphore. */
    ghost predicate Matches(kernel: Kernel)
      reads this, queue, queue.nodes
    {
      && queue.Valid() && id in kernel.semaphores
      && kernel.semaphores[id].value == value && kernel.semaphores[id].queue == ItemsOf(queue.contents)
    }

    constructor (initialValue: int, scheduler: Scheduler, ghost id: nat)
      requires scheduler.Valid() && id !in scheduler.kernel.semaphores
      modifies scheduler`kernel
      ensures scheduler.Valid() && scheduler.kernel == NewStep(old(scheduler.kernel), id, initialValue)
      ensures this.id == id && value == initialValue && Matches(scheduler.kernel) && fresh(queue) && queue.nodes == []
    {
      this.id := id;
      value := initialValue;
      queue := new List();
      new;
      scheduler.kernel := NewStep(scheduler.kernel, id, initialValue);
    }

    /** One pass through the loop of P: true if the semaphore was taken, false if the thread went to sleep. */
    method P(scheduler: Scheduler) returns (taken: bool)
      requires scheduler.Valid() && Matches(scheduler.kernel) && queue != scheduler.readyList
      requires scheduler.kernel.running.Some?
      modifies this`value, queue, queue.nodes, scheduler`currentThread, scheduler`status, scheduler`kernel
      ensures scheduler.Valid() && Matches(scheduler.kernel)
      ensures scheduler.kernel == PStep(old(scheduler.kernel), id) && taken == scheduler.kernel.running.Some?
      ensures KeptOrNew(queue)
    {
      ghost var k := scheduler.kernel;
      if value == 0 {
        Sleep(scheduler, k);
      } else {
        Take(scheduler, k);
      }
      scheduler.kernel := PStep(k, id);
      return scheduler.currentThread.Some?;
    }

    method Take(scheduler: Scheduler, ghost k: Kernel)
      requires scheduler.Represents(k) && Matches(k) && k.running.Some? && value != 0
      modifies this`value
      ensures scheduler.Represents(PStep(k, id)) && Matches(PStep(k, id))
    {
      value := value - 1;
    }

    method Sleep(scheduler: Scheduler, ghost k: Kernel)
      requires scheduler.Represents(k) && Matches(k) && k.running.Some? && value == 0 && queue != scheduler.readyList
      modifies queue, queue.nodes, scheduler`currentThread, scheduler`status
      ensures scheduler.Represents(PStep(k, id)) && Matches(PStep(k, id))
      ensures KeptOrNew(queue)
    {
      Enqueue(scheduler.currentThread.value, scheduler.readyList);
      scheduler.Block();
    }

    method V(scheduler: Scheduler)
      requires scheduler.Valid() && Matches(scheduler.kernel) && queue != scheduler.readyList
      modifies this`value, queue, scheduler`status, scheduler`kernel, scheduler.readyList, scheduler.readyList.nodes
      ensures scheduler.Valid() && Matches(scheduler.kernel)
      ensures scheduler.kernel == VStep(old(scheduler.kernel), id)
      ensures KeptOrNew(scheduler.readyList) && forall i :: 0 <= i < |queue.nodes| ==> queue.nodes[i] in old(queue.nodes)
    {
      ghost var k := scheduler.kernel;
      Release(scheduler, k);
      scheduler.kernel := VStep(k, id);
    }

    method Release(scheduler: Scheduler, ghost k: Kernel)
      requires scheduler.Represents(k) && Matches(k) && queue != scheduler.readyList
      modifies this`value, queue, scheduler`status, scheduler.readyList, scheduler.readyList.nodes
      ensures scheduler.Represents(VStep(k, id)) && Matches(VStep(k, id))
      ensures KeptOrNew(scheduler.readyList) && forall i :: 0 <= i < |queue.nodes| ==> queue.nodes[i] in old(queue.nodes)
    {
      value := value + 1;
      WakeFirst(scheduler);
    }

    method Enqueue(t: Id, ghost other: List<Id>)
      requires queue.Valid() && other.Valid() && queue != other
      modifies queue, queue.nodes
      ensures queue.Valid() && ItemsOf(queue.contents) == old(ItemsOf(queue.contents)) + [t]
      ensures other.Valid() && other.contents == old(other.contents)
      ensures KeptOrNew(queue)
    {
      NothingInCommon(queue, other);
      queue.Append(t);
      Untouched(other);
    }

    /** The first waiter becomes ready. */
    method WakeFirst(scheduler: Scheduler)
      requires queue.Valid() && scheduler.readyList.Valid() && Sized(scheduler.activeThreads) && queue != scheduler.readyList
      modifies queue, scheduler`status, scheduler.readyList, scheduler.readyList.nodes
      ensures queue.Valid() && scheduler.readyList.Valid()
      ensures Sized(scheduler.activeThreads) && scheduler.activeThreads.contents == old(scheduler.activeThreads.contents)
      ensures var items, ready := old(ItemsOf(queue.contents)), old(ItemsOf(scheduler.readyList.contents));
              if items == [] then ItemsOf(queue.contents) == [] && ItemsOf(scheduler.readyList.contents) == ready && scheduler.status == old(scheduler.status)
              else && ItemsOf(queue.contents) == items[1..] && ItemsOf(scheduler.readyList.contents) == ready + [items[0]]
                   && scheduler.status == old(scheduler.status)[items[0] := Threads.Ready]
      ensures KeptOrNew(scheduler.readyList) && forall i :: 0 <= i < |queue.nodes| ==> queue.nodes[i] in old(queue.nodes)
    {
      var thread := Dequeue(scheduler.readyList);
      if thread.Some? {
        Wake(scheduler, thread.value);
      }
    }

    method Wake(scheduler: Scheduler, t: Id)
      requires queue.Valid() && scheduler.readyList.Valid() && Sized(scheduler.activeThreads) && queue != scheduler.readyList
      modifies scheduler`status, scheduler.readyList, scheduler.readyList.nodes
      ensures queue.Valid() && queue.contents == old(queue.contents) && scheduler.readyList.Valid()
      ensures Sized(scheduler.activeThreads) && scheduler.activeThreads.contents == old(scheduler.activeThreads.contents)
      ensures scheduler.status == old(scheduler.status)[t := Threads.Ready]
      ensures ItemsOf(scheduler.readyList.contents) == old(ItemsOf(scheduler.readyList.contents)) + [t]
      ensures KeptOrNew(scheduler.readyList) && queue.nodes == old(queue.nodes)
    {
      NothingInCommon(queue, scheduler.readyList);
      scheduler.ReadyToRun(t);
      Untouched(queue);
    }

    method Dequeue(ghost other: List<Id>) returns (first: Option<Id>)
      requires queue.Valid() && other.Valid() && queue != other
      modifies queue
      ensures queue.Valid()
      ensures var items := old(ItemsOf(queue.contents));
              if items == [] then first == None && queue.contents == [] else first == Some(items[0]) && ItemsOf(queue.contents) == items[1..]
      ensures other.Valid() && other.contents == old(other.contents) && other.nodes == old(other.nodes)
      ensures forall i :: 0 <= i < |queue.nodes| ==> queue.nodes[i] in old(queue.nodes)
    {
      first := queue.Remove();
    }
  }
}
