/** Address spaces and the pager, as objects. */
module Paging {
  import opened Sequences
  import opened Lists
  import opened BitMaps
  import opened Frames
  import opened Translation

  class AddrSpace {
    const pageTable: array<Page>

    /** A new page table: no page is in memory. */
    constructor (numPages: nat)
      ensures fresh(pageTable) && pageTable[..] == seq(numPages, i => Away)
    {
      pageTable := new Page[numPages](i => Away);
      new;
      for i := 0 to numPages
        invariant forall k :: 0 <= k < i ==> pageTable[k] == Away
      {
        pageTable[i] := Away;
      }
    }

    /** Give up the page in `frame`. */
    method Swapout(frame: int) returns (done: bool)
      requires PageIn(pageTable[..], frame) < pageTable.Length
      modifies pageTable
      ensures done && pageTable[..] == old(pageTable[..])[PageIn(old(pageTable[..]), frame) := Away]
    {
      var virtPage := -1;
      for i := 0 to pageTable.Length
        invariant virtPage == -1 && forall k :: 0 <= k < i ==> pageTable[k].frame != frame
      {
        if pageTable[i].frame == frame {
          virtPage := i;
          break;
        }
      }
      assert virtPage == PageIn(pageTable[..], frame);
      pageTable[virtPage] := Away;
      return true;
    }
  }

  /** The page tables by thread. */
  ghost function Tables(spaces: map<nat, AddrSpace>): map<nat, seq<Page>>
    reads set t | t in spaces :: spaces[t].pageTable
  {
    map t | t in spaces :: spaces[t].pageTable[..]
  }

  ghost predicate Separate(spaces: map<nat, AddrSpace>) {
    forall t, u :: t in spaces && u in spaces && t != u ==> spaces[t].pageTable != spaces[u].pageTable
  }

  /** The frame that a fault gets, and what is left for it to do. */
  ghost predicate Chosen(vm: Vm, random: nat, f: int, vm': Vm)
    requires HasVictim(vm, random)
  {
    if LeastClear(vm.marked, NumPhysPages) < NumPhysPages then
      f == LeastClear(vm.marked, NumPhysPages) && vm' == vm.(marked := vm.marked + {f})
    else
      f == Victim(vm, random) && vm' == SwapOut(vm, vm.ipt[f], f).(pageList := Popped(vm))
  }

  /** The kernel's record of memory: which frames are taken, by which threads, and the replacement queue. */
  class Pager {
    const policy: Policy
    const memMap: BitMap
    const ipt: array<nat>
    var spaces: map<nat, AddrSpace>
    const pageList: List<int>

    ghost predicate Valid()
      reads this, pageList, pageList.nodes
    {
      && pageList.Valid() && memMap.Valid() && memMap.numBits == NumPhysPages && ipt.Length == NumPhysPages
      && (memMap.words as object) != ipt
      && Separate(spaces) && forall t :: t in spaces ==> Apart(spaces[t])
    }

    ghost predicate Apart(space: AddrSpace) {
      (space.pageTable as object) != memMap.words && (space.pageTable as object) != ipt
    }

    ghost function Owners(): map<int, nat>
      requires ipt.Length == NumPhysPages
      reads ipt
    {
      map f | f in Count(NumPhysPages) :: ipt[f]
    }

    ghost function Value(): Vm
      requires Valid()
      reads this, pageList, pageList.nodes, memMap, memMap.words, ipt, set t | t in spaces :: spaces[t].pageTable
    {
      Vm(policy, memMap.Marked(), Owners(), Tables(spaces), ItemsOf(pageList.contents))
    }

    constructor (policy: Policy)
      ensures Valid() && this.policy == policy && fresh(memMap.words) && fresh(ipt) && fresh(pageList) && pageList.nodes == [] && spaces == map[]
      ensures Value().marked == {} && Value().spaces == map[] && Value().pageList == []
    {
      this.policy := policy;
      memMap := new BitMap(NumPhysPages);
      ipt := new nat[NumPhysPages](i => 0);
      spaces := map[];
      pageList := new List();
    }

    method NewSpace(t: nat, numPages: nat)
      requires Valid() && t !in spaces
      modifies this`spaces
      ensures Valid() && Value() == Create(old(Value()), t, numPages)
      ensures t in spaces && spaces == old(spaces)[t := spaces[t]] && fresh(spaces[t].pageTable)
    {
      var space := new AddrSpace(numPages);
      assert Apart(space);
      ghost var tables := Tables(spaces);
      spaces := spaces[t := space];
      assert Tables(spaces) == tables[t := space.pageTable[..]];
    }

    /** A page fault of thread `t` on page `v`. */
    method PageFault(t: nat, v: nat, random: nat)
      requires Valid() && Sound(Value()) && t in spaces && v < spaces[t].pageTable.Length && !spaces[t].pageTable[v].valid
      modifies pageList, pageList.nodes, memMap.words, ipt, set u | u in spaces :: spaces[u].pageTable
      ensures Valid() && Sound(Value()) && spaces == old(spaces)
      ensures HasVictim(old(Value()), random) && Value() == Fault(old(Value()), t, v, random)
      ensures forall i :: 0 <= i < |pageList.nodes| ==> pageList.nodes[i] in old(pageList.nodes) || fresh(pageList.nodes[i])
    {
      FaultSound(Value(), t, v, random);
      LoadPage(t, v, random);
    }

    method LoadPage(t: nat, v: nat, random: nat)
      requires Valid() && t in spaces && v < spaces[t].pageTable.Length && HasVictim(Value(), random)
      modifies pageList, pageList.nodes, memMap.words, ipt, set u | u in spaces :: spaces[u].pageTable
      ensures Valid() && spaces == old(spaces)
      ensures Value() == Fault(old(Value()), t, v, random)
      ensures forall i :: 0 <= i < |pageList.nodes| ==> pageList.nodes[i] in old(pageList.nodes) || fresh(pageList.nodes[i])
    {
      var physPage := ChooseFrame(random);
      Install(t, v, physPage);
    }

    /** Page `v` of thread `t` gets the frame. */
    method Install(t: nat, v: nat, physPage: int)
      requires Valid() && t in spaces && v < spaces[t].pageTable.Length && 0 <= physPage < NumPhysPages
      modifies pageList, pageList.nodes, ipt, spaces[t].pageTable
      ensures Valid() && Value() == Load(old(Value()), t, v, physPage)
      ensures forall i :: 0 <= i < |pageList.nodes| ==> pageList.nodes[i] in old(pageList.nodes) || fresh(pageList.nodes[i])
    {
      Enqueue(physPage);
      Assign(t, v, physPage);
    }

    /** A clear frame, or one that is taken from its owner. */
    method ChooseFrame(random: nat) returns (physPage: int)
      requires Valid() && HasVictim(Value(), random)
      modifies pageList, pageList.nodes, memMap.words, set u | u in spaces :: spaces[u].pageTable
      ensures Valid() && spaces == old(spaces) && 0 <= physPage < NumPhysPages
      ensures forall i :: 0 <= i < |pageList.nodes| ==> pageList.nodes[i] in old(pageList.nodes)
      ensures Chosen(old(Value()), random, physPage, Value())
    {
      ghost var vm := Value();
      physPage := memMap.Find();
      assert Value() == vm.(marked := memMap.Marked());
      if physPage == -1 {
        physPage := Evict(random);
      }
    }

    method Enqueue(physPage: int)
      requires Valid()
      modifies pageList, pageList.nodes
      ensures Valid() && Value() == old(Value()).(pageList := if policy == Fifo then old(Value()).pageList + [physPage] else old(Value()).pageList)
      ensures forall i :: 0 <= i < |pageList.nodes| ==> pageList.nodes[i] in old(pageList.nodes) || fresh(pageList.nodes[i])
    {
      if policy == Fifo {
        pageList.Append(physPage);
      }
    }

    method Assign(t: nat, v: nat, physPage: int)
      requires Valid() && t in spaces && v < spaces[t].pageTable.Length && 0 <= physPage < NumPhysPages
      modifies ipt, spaces[t].pageTable
      ensures Value() == old(Value()).(ipt := old(Value()).ipt[physPage := t],
                                       spaces := old(Value()).spaces[t := old(Value()).spaces[t][v := Page(physPage, true, old(Value()).spaces[t][v].swapped)]])
    {
      ghost var tables, owners := Tables(spaces), Owners();
      ipt[physPage] := t;
      assert Owners() == owners[physPage := t];
      var table := spaces[t].pageTable;
      assert table[..] == tables[t];
      table[v] := Page(physPage, true, table[v].swapped);
      assert Owners() == owners[physPage := t];
      assert Tables(spaces) == tables[t := tables[t][v := Page(physPage, true, tables[t][v].swapped)]];
    }

    /** All frames are taken: choose one and have its owner give it up. */
    method Evict(random: nat) returns (physPage: int)
      requires Valid() && HasVictim(Value(), random) && LeastClear(memMap.Marked(), NumPhysPages) == NumPhysPages
      modifies pageList, pageList.nodes, set u | u in spaces :: spaces[u].pageTable
      ensures Valid() && spaces == old(spaces)
      ensures forall i :: 0 <= i < |pageList.nodes| ==> pageList.nodes[i] in old(pageList.nodes)
      ensures physPage == Victim(old(Value()), random)
      ensures Value() == SwapOut(old(Value()), old(Value()).ipt[physPage], physPage).(pageList := Popped(old(Value())))
    {
      physPage := PickVictim(random);
      GiveUp(physPage);
    }

    method PickVictim(random: nat) returns (physPage: int)
      requires Valid() && (policy == Fifo ==> Value().pageList != [])
      modifies pageList
      ensures Valid() && Value() == old(Value()).(pageList := Popped(old(Value()))) && physPage == Victim(old(Value()), random)
      ensures forall i :: 0 <= i < |pageList.nodes| ==> pageList.nodes[i] in old(pageList.nodes)
    {
      if policy == Fifo {
        var first := pageList.Remove();
        physPage := first.value;
      } else {
        physPage := random % 32;
      }
    }

    method GiveUp(physPage: int)
      requires Valid() && 0 <= physPage < NumPhysPages && CanEvict(Value(), physPage)
      modifies set u | u in spaces :: spaces[u].pageTable
      ensures Valid() && Value() == SwapOut(old(Value()), old(Value()).ipt[physPage], physPage)
    {
      ghost var tables := Tables(spaces);
      var t := ipt[physPage];
      assert tables[t] == spaces[t].pageTable[..];
      var done := spaces[t].Swapout(physPage);
      assert Tables(spaces) == tables[t := tables[t][PageIn(tables[t], physPage) := Away]];
    }

    /** The address space of `t` is deleted. */
    method Delete(t: nat)
      requires Valid() && Sound(Value()) && t in spaces
      modifies this`spaces, memMap.words
      ensures Valid() && Value() == Exit(old(Value()), t) && spaces == old(spaces) - {t}
    {
      var table := spaces[t].pageTable;
      ghost var pages := table[..];
      assert PagesOk(Value().spaces[t]);
      for i := 0 to table.Length
        invariant memMap.Marked() == old(memMap.Marked()) - FramesOf(pages[..i])
        invariant table[..] == pages && spaces == old(spaces)
      {
        assert pages[..i + 1][..i] == pages[..i];
        if table[i].frame != -1 {
          memMap.Clear(table[i].frame);
        }
      }
      assert pages[..table.Length] == pages;
      Forget(t);
    }

    method Forget(t: nat)
      requires Valid() && t in spaces
      modifies this`spaces
      ensures Valid() && Value() == old(Value()).(spaces := old(Value()).spaces - {t}) && spaces == old(spaces) - {t}
    {
      ghost var tables := Tables(spaces);
      spaces := map u | u in spaces && u != t :: spaces[u];
      assert forall u :: u in tables - {t} <==> u in spaces;
      assert Tables(spaces) == tables - {t};
    }
  }

  /** A run goes on with one more event. */
  lemma Continued(states: seq<Vm>, events: seq<Event>, ev: Event, vm: Vm)
    requires IsRun(states, events) && Next(states[|events|], ev, vm)
    ensures IsRun(states + [vm], events + [ev])
  {
    var states', events' := states + [vm], events + [ev];
    forall i | 0 <= i < |events'| ensures Follows(states', events', i) {
      assert i < |events| ==> Follows(states, events, i);
    }
  }

  /** One event, if it is possible. */
  method Happen(pager: Pager, ev: Event) returns (possible: bool)
    requires pager.Valid() && Sound(pager.Value())
    modifies pager`spaces, pager.pageList, pager.pageList.nodes, pager.memMap.words, pager.ipt,
             set u | u in pager.spaces :: pager.spaces[u].pageTable
    ensures pager.Valid() && possible == Possible(old(pager.Value()), ev)
    ensures if possible then Next(old(pager.Value()), ev, pager.Value()) else pager.Value() == old(pager.Value())
    ensures forall i :: 0 <= i < |pager.pageList.nodes| ==> pager.pageList.nodes[i] in old(pager.pageList.nodes) || fresh(pager.pageList.nodes[i])
    ensures forall t :: t in pager.spaces ==> (t in old(pager.spaces) && pager.spaces[t] == old(pager.spaces)[t]) || fresh(pager.spaces[t].pageTable)
  {
    match ev
    case NewSpace(t, numPages) =>
      possible := t !in pager.spaces;
      if possible {
        pager.NewSpace(t, numPages);
      }
    case PageFault(t, page, random) =>
      possible := t in pager.spaces && page < pager.spaces[t].pageTable.Length && !pager.spaces[t].pageTable[page].valid;
      if possible {
        pager.PageFault(t, page, random);
      }
    case SpaceExit(t) =>
      possible := t in pager.spaces;
      if possible {
        pager.Delete(t);
      }
  }

  /** Each event that was possible when its turn came did happen, and no other. */
  ghost predicate AllHappened(events: seq<Event>, states: seq<Vm>, happened: seq<Event>)
    decreases |events|
  {
    && |states| == |happened| + 1
    && if events == [] then happened == []
       else
         var n, last := |events| - 1, |happened| - 1;
         || (!Possible(states[|happened|], events[n]) && AllHappened(events[..n], states, happened))
         || (last >= 0 && Possible(states[last], events[n]) && happened[last] == events[n]
             && AllHappened(events[..n], states[..last + 1], happened[..last]))
  }

  /** The pager has come to the end of the run that the events make up. */
  ghost predicate AtEnd(pager: Pager, events: seq<Event>, states: seq<Vm>, happened: seq<Event>)
    requires pager.Valid()
    reads pager, pager.memMap, pager.memMap.words, pager.ipt, pager.pageList, pager.pageList.nodes,
          set t | t in pager.spaces :: pager.spaces[t], set t | t in pager.spaces :: pager.spaces[t].pageTable
  {
    IsRun(states, happened) && pager.Value() == states[|happened|] && AllHappened(events, states, happened)
  }

  lemma HappensNext(events: seq<Event>, ev: Event, states: seq<Vm>, happened: seq<Event>, vm: Vm)
    requires AllHappened(events, states, happened)
    ensures if Possible(states[|happened|], ev) then AllHappened(events + [ev], states + [vm], happened + [ev])
            else AllHappened(events + [ev], states, happened)
  {
    assert (events + [ev])[..|events|] == events;
    assert (states + [vm])[..|states|] == states && (happened + [ev])[..|happened|] == happened;
  }

  method HappenNext(pager: Pager, ghost events: seq<Event>, ev: Event, ghost states: seq<Vm>, ghost happened: seq<Event>)
    returns (ghost states': seq<Vm>, ghost happened': seq<Event>)
    requires pager.Valid() && AtEnd(pager, events, states, happened)
    modifies pager`spaces, pager.pageList, pager.pageList.nodes, pager.memMap.words, pager.ipt,
             set u | u in pager.spaces :: pager.spaces[u].pageTable
    ensures pager.Valid() && AtEnd(pager, events + [ev], states', happened')
    ensures forall i :: 0 <= i < |pager.pageList.nodes| ==> pager.pageList.nodes[i] in old(pager.pageList.nodes) || fresh(pager.pageList.nodes[i])
    ensures forall t :: t in pager.spaces ==> (t in old(pager.spaces) && pager.spaces[t] == old(pager.spaces)[t]) || fresh(pager.spaces[t].pageTable)
  {
    RunSound(states, happened, |happened|);
    var possible := Happen(pager, ev);
    HappensNext(events, ev, states, happened, pager.Value());
    states', happened' := states, happened;
    if possible {
      Continued(states, happened, ev, pager.Value());
      states', happened' := states + [pager.Value()], happened + [ev];
    }
  }

  method HappenAll(policy: Policy, events: seq<Event>) returns (pager: Pager, ghost states: seq<Vm>, ghost happened: seq<Event>)
    ensures pager.Valid() && AtEnd(pager, events, states, happened)
  {
    pager := new Pager(policy);
    states, happened := [pager.Value()], [];
    for i := 0 to |events|
      invariant pager.Valid() && AtEnd(pager, events[..i], states, happened)
      invariant fresh(pager) && fresh(pager.memMap.words) && fresh(pager.ipt) && fresh(pager.pageList)
      invariant forall j :: 0 <= j < |pager.pageList.nodes| ==> fresh(pager.pageList.nodes[j])
      invariant forall t :: t in pager.spaces ==> fresh(pager.spaces[t].pageTable)
    {
      states, happened := HappenNext(pager, events[..i], events[i], states, happened);
      assert events[..i] + [events[i]] == events[..i + 1];
    }
    assert events[..|events|] == events;
  }

  /** What happens to memory, one event after the other; an event that is not possible is passed over.
      The states that the objects go through are a run. */
  method Execute(policy: Policy, events: seq<Event>) returns (pager: Pager, ghost states: seq<Vm>, ghost happened: seq<Event>)
    ensures pager.Valid() && AtEnd(pager, events, states, happened) && Sound(pager.Value())
  {
    pager, states, happened := HappenAll(policy, events);
    RunSound(states, happened, |happened|);
  }
}
