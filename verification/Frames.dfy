/** Physical frames and the address spaces that own them, under demand paging with replacement. */
module Frames {
  import opened BitMaps
  import opened Translation

  /** A page table entry: `frame` is -1 while the page is not in memory. */
  datatype Page = Page(frame: int, valid: bool, swapped: bool)

  datatype Policy = Fifo | RandomChoice

  /** The frame bitmap, the thread that each frame was last given to, the page tables by thread, and
      the queue of frames for replacement. */
  datatype Vm = Vm(policy: Policy, marked: set<int>, ipt: map<int, nat>, spaces: map<nat, seq<Page>>, pageList: seq<int>)

  ghost predicate Owns(vm: Vm, t: nat, i: nat, f: int) {
    t in vm.spaces && i < |vm.spaces[t]| && vm.spaces[t][i].frame == f
  }

  ghost predicate PagesOk(pages: seq<Page>) {
    forall i :: 0 <= i < |pages| ==>
                  -1 <= pages[i].frame < NumPhysPages && (pages[i].valid <==> pages[i].frame != -1) && !pages[i].swapped
  }

  /** A frame is marked exactly when some page table entry maps it, no two entries map the same frame,
      and the inverted table names the owner of every marked frame. */
  ghost predicate Sound(vm: Vm) {
    && (forall t :: t in vm.spaces ==> PagesOk(vm.spaces[t]))
    && (forall f :: f in vm.marked ==> 0 <= f < NumPhysPages && f in vm.ipt && exists i: nat :: Owns(vm, vm.ipt[f], i, f))
    && (forall t: nat, i: nat, f :: Owns(vm, t, i, f) && f != -1 ==> f in vm.marked && vm.ipt[f] == t)
    && (forall t: nat, i: nat, j: nat, f :: Owns(vm, t, i, f) && Owns(vm, t, j, f) && f != -1 ==> i == j)
    && (vm.policy == Fifo ==> forall f :: f in vm.marked ==> f in vm.pageList)
    && (forall f :: f in vm.pageList ==> 0 <= f < NumPhysPages)
  }

  /** The page of `pages` that is in frame `f`, or their number. */
  function PageIn(pages: seq<Page>, f: int): (i: nat)
    ensures i <= |pages|
    ensures i < |pages| ==> pages[i].frame == f
    ensures forall j :: 0 <= j < i ==> pages[j].frame != f
  {
    if pages == [] || pages[0].frame == f then 0 else 1 + PageIn(pages[1..], f)
  }

  /** Which frame a fault takes when all are marked. */
  function Victim(vm: Vm, random: nat): int {
    if vm.policy == Fifo then (if vm.pageList == [] then 0 else vm.pageList[0]) else random % 32
  }

  const Away := Page(-1, false, false)

  /** Swapout: the page in frame `f` of thread `t` is no longer in memory. */
  function SwapOut(vm: Vm, t: nat, f: int): Vm
    requires t in vm.spaces && PageIn(vm.spaces[t], f) < |vm.spaces[t]|
  {
    vm.(spaces := vm.spaces[t := vm.spaces[t][PageIn(vm.spaces[t], f) := Away]])
  }

  /** Page `v` of thread `t` is loaded into frame `f`; a page that was swapped in before is read back. */
  function Load(vm: Vm, t: nat, v: nat, f: int): Vm
    requires t in vm.spaces && v < |vm.spaces[t]|
  {
    vm.(ipt := vm.ipt[f := t],
        spaces := vm.spaces[t := vm.spaces[t][v := Page(f, true, vm.spaces[t][v].swapped)]],
        pageList := if vm.policy == Fifo then vm.pageList + [f] else vm.pageList)
  }

  /** The eviction inside a fault can be carried out: Swapout finds its page. */
  ghost predicate CanEvict(vm: Vm, f: int) {
    f in vm.ipt && vm.ipt[f] in vm.spaces && PageIn(vm.spaces[vm.ipt[f]], f) < |vm.spaces[vm.ipt[f]]|
  }

  /** If a fault finds memory full, it can take a frame. */
  ghost predicate HasVictim(vm: Vm, random: nat) {
    LeastClear(vm.marked, NumPhysPages) == NumPhysPages ==>
      (vm.policy == Fifo ==> vm.pageList != []) && 0 <= Victim(vm, random) < NumPhysPages && CanEvict(vm, Victim(vm, random))
  }

  /** A page fault of thread `t` on page `v`. */
  function Fault(vm: Vm, t: nat, v: nat, random: nat): Vm
    requires t in vm.spaces && v < |vm.spaces[t]|
    requires HasVictim(vm, random)
  {
    var f := LeastClear(vm.marked, NumPhysPages);
    if f < NumPhysPages then Load(vm.(marked := vm.marked + {f}), t, v, f)
    else
      var victim := Victim(vm, random);
      Load(SwapOut(vm, vm.ipt[victim], victim).(pageList := Popped(vm)), t, v, victim)
  }

  function Popped(vm: Vm): seq<int> {
    if vm.policy == Fifo && vm.pageList != [] then vm.pageList[1..] else vm.pageList
  }

  /** A new address space: no page is in memory. */
  function Create(vm: Vm, t: nat, numPages: nat): Vm {
    vm.(spaces := vm.spaces[t := seq(numPages, i => Away)])
  }

  /** The frames of a page table. */
  function FramesOf(pages: seq<Page>): set<int> {
    if pages == [] then {} else FramesOf(pages[..|pages| - 1]) + if pages[|pages| - 1].frame != -1 then {pages[|pages| - 1].frame} else {}
  }

  /** The address space of `t` is deleted and its frames are cleared; the queue keeps them. */
  function Exit(vm: Vm, t: nat): Vm
    requires t in vm.spaces
  {
    vm.(marked := vm.marked - FramesOf(vm.spaces[t]), spaces := vm.spaces - {t})
  }

  lemma {:induction false} InFramesOf(pages: seq<Page>, f: int)
    ensures f in FramesOf(pages) <==> f != -1 && exists i :: 0 <= i < |pages| && pages[i].frame == f
  {
    if pages != [] {
      InFramesOf(pages[..|pages| - 1], f);
      if i :| 0 <= i < |pages| && pages[i].frame == f {
        assert i < |pages| - 1 ==> pages[..|pages| - 1][i].frame == f;
      }
    }
  }

  /** When memory is full, every victim can be evicted: no assertion of Swapout fails. */
  lemma EvictionFindsPage(vm: Vm, random: nat)
    requires Sound(vm) && LeastClear(vm.marked, NumPhysPages) == NumPhysPages
    ensures Victim(vm, random) in vm.marked && CanEvict(vm, Victim(vm, random))
  {
    var f := Victim(vm, random);
    LeastClearIsLeast(vm.marked, NumPhysPages);
    if vm.policy == Fifo {
      assert 0 in vm.marked && 0 in vm.pageList;
      assert f in vm.pageList;
    }
    assert f in vm.marked;
    var i: nat :| Owns(vm, vm.ipt[f], i, f);
  }

  lemma CreateSound(vm: Vm, t: nat, numPages: nat)
    requires Sound(vm) && t !in vm.spaces
    ensures Sound(Create(vm, t, numPages))
    ensures var vm' := Create(vm, t, numPages);
            && vm'.spaces.Keys == vm.spaces.Keys + {t} && (forall u :: u in vm.spaces ==> vm'.spaces[u] == vm.spaces[u])
            && |vm'.spaces[t]| == numPages && forall i :: 0 <= i < numPages ==> !vm'.spaces[t][i].valid
  {
    var after := Create(vm, t, numPages);
    forall t': nat, i: nat, f | f != -1 ensures Owns(after, t', i, f) <==> Owns(vm, t', i, f) {
    }
    KeepsOwners(vm, after);
  }

  /** Marks and owners stay the same. */
  lemma KeepsOwners(vm: Vm, after: Vm)
    requires Sound(vm) && after.policy == vm.policy && after.marked == vm.marked && after.ipt == vm.ipt && after.pageList == vm.pageList
    requires forall t: nat, i: nat, f :: f != -1 ==> (Owns(after, t, i, f) <==> Owns(vm, t, i, f))
    requires forall t :: t in after.spaces ==> PagesOk(after.spaces[t])
    ensures Sound(after)
  {
  }

  /** Loading a page that is not in memory into a frame that no entry maps. */
  lemma LoadSound(vm: Vm, t: nat, v: nat, f: int)
    requires Sound(vm) && t in vm.spaces && v < |vm.spaces[t]| && vm.spaces[t][v] == Away
    requires 0 <= f < NumPhysPages && f !in vm.marked
    ensures Sound(Load(vm.(marked := vm.marked + {f}), t, v, f))
  {
    var after := Load(vm.(marked := vm.marked + {f}), t, v, f);
    forall t': nat, i: nat, g | g != -1
      ensures Owns(after, t', i, g) <==> Owns(vm, t', i, g) || (t' == t && i == v && g == f)
    {
    }
    forall g | g in after.marked ensures exists i: nat :: Owns(after, after.ipt[g], i, g) {
      if g == f {
        assert after.ipt[f] == t && Owns(after, after.ipt[f], v, f);
      } else {
        assert g in vm.marked && after.ipt[g] == vm.ipt[g];
        var i: nat :| Owns(vm, vm.ipt[g], i, g);
        assert Owns(after, after.ipt[g], i, g);
      }
    }
  }

  /** Swapping out takes the frame from its only owner. */
  lemma SwapOutOwners(vm: Vm, f: int, t': nat, i: nat, g: int)
    requires Sound(vm) && f in vm.marked && CanEvict(vm, f) && g != -1
    ensures Owns(SwapOut(vm, vm.ipt[f], f), t', i, g) <==> Owns(vm, t', i, g) && g != f
  {
    var t := vm.ipt[f];
    var p := PageIn(vm.spaces[t], f);
    assert Owns(vm, t, p, f);
  }

  lemma SwapOutSound(vm: Vm, f: int)
    requires Sound(vm) && f in vm.marked && CanEvict(vm, f)
    ensures Sound(SwapOut(vm, vm.ipt[f], f).(marked := vm.marked - {f}))
  {
    var after := SwapOut(vm, vm.ipt[f], f).(marked := vm.marked - {f});
    forall t': nat, i: nat, g | g != -1 ensures Owns(after, t', i, g) <==> Owns(vm, t', i, g) && g != f {
      SwapOutOwners(vm, f, t', i, g);
    }
    forall g | g in after.marked ensures exists i: nat :: Owns(after, after.ipt[g], i, g) {
      var i: nat :| Owns(vm, vm.ipt[g], i, g);
      assert Owns(after, after.ipt[g], i, g);
    }
  }

  lemma PopSound(vm: Vm, f: int)
    requires Sound(vm) && f !in vm.marked && (vm.policy == Fifo ==> vm.pageList != [] && vm.pageList[0] == f)
    ensures Sound(vm.(pageList := Popped(vm)))
  {
    var after := vm.(pageList := Popped(vm));
    forall t: nat, i: nat, g ensures Owns(after, t, i, g) <==> Owns(vm, t, i, g) {
    }
    forall g | g in after.marked ensures exists i: nat :: Owns(after, after.ipt[g], i, g) {
      var i: nat :| Owns(vm, vm.ipt[g], i, g);
      assert Owns(after, after.ipt[g], i, g);
    }
    assert forall g :: g in after.pageList ==> g in vm.pageList;
    forall g | vm.policy == Fifo && g in vm.marked ensures g in after.pageList {
      assert vm.pageList == [f] + vm.pageList[1..];
    }
  }

  /** What is left when a full memory has given up its victim. */
  ghost function Evicted(vm: Vm, f: int): Vm
    requires CanEvict(vm, f)
  {
    SwapOut(vm, vm.ipt[f], f).(marked := vm.marked - {f}, pageList := Popped(vm))
  }

  lemma EvictedSound(vm: Vm, random: nat)
    requires Sound(vm) && LeastClear(vm.marked, NumPhysPages) == NumPhysPages
    ensures var f := Victim(vm, random);
            && f in vm.marked && CanEvict(vm, f) && Sound(Evicted(vm, f))
  {
    EvictionFindsPage(vm, random);
    var f := Victim(vm, random);
    SwapOutSound(vm, f);
    QueueNotEmpty(vm);
    PopSound(SwapOut(vm, vm.ipt[f], f).(marked := vm.marked - {f}), f);
  }

  /** A page fault, with or without eviction, keeps the invariant. */
  lemma FaultSound(vm: Vm, t: nat, v: nat, random: nat)
    requires Sound(vm) && t in vm.spaces && v < |vm.spaces[t]| && !vm.spaces[t][v].valid
    ensures HasVictim(vm, random)
    ensures Sound(Fault(vm, t, v, random))
    ensures Owns(Fault(vm, t, v, random), t, v, Fault(vm, t, v, random).spaces[t][v].frame) && Fault(vm, t, v, random).spaces[t][v].valid
  {
    var f := LeastClear(vm.marked, NumPhysPages);
    LeastClearIsLeast(vm.marked, NumPhysPages);
    if f < NumPhysPages {
      LoadSound(vm, t, v, f);
    } else {
      EvictedSound(vm, random);
      QueueNotEmpty(vm);
      var victim := Victim(vm, random);
      var out := Evicted(vm, victim);
      LoadSound(out, t, v, victim);
      assert out.marked + {victim} == vm.marked;
      assert Fault(vm, t, v, random) == Load(out.(marked := out.marked + {victim}), t, v, victim);
    }
  }

  lemma QueueNotEmpty(vm: Vm)
    requires Sound(vm) && LeastClear(vm.marked, NumPhysPages) == NumPhysPages
    ensures vm.policy == Fifo ==> vm.pageList != []
  {
  }

  /** Deleting an address space frees exactly the frames it owns. */
  lemma ExitSound(vm: Vm, t: nat)
    requires Sound(vm) && t in vm.spaces
    ensures Sound(Exit(vm, t))
    ensures forall f :: f in vm.marked && f !in Exit(vm, t).marked <==> f in vm.marked && vm.ipt[f] == t
    ensures Exit(vm, t).spaces.Keys == vm.spaces.Keys - {t}
    ensures forall t' :: t' in vm.spaces && t' != t ==> Exit(vm, t).spaces[t'] == vm.spaces[t']
  {
    var after := Exit(vm, t);
    forall f ensures f in FramesOf(vm.spaces[t]) <==> f in vm.marked && vm.ipt[f] == t {
      InFramesOf(vm.spaces[t], f);
      if f in FramesOf(vm.spaces[t]) {
        var i :| 0 <= i < |vm.spaces[t]| && vm.spaces[t][i].frame == f;
        assert Owns(vm, t, i, f);
      }
      if f in vm.marked && vm.ipt[f] == t {
        var i: nat :| Owns(vm, t, i, f);
        assert vm.spaces[t][i].frame == f;
      }
    }
    forall t': nat, i: nat, f ensures Owns(after, t', i, f) <==> Owns(vm, t', i, f) && t' != t {
    }
    forall f | f in after.marked ensures exists i: nat :: Owns(after, after.ipt[f], i, f) {
      var i: nat :| Owns(vm, vm.ipt[f], i, f);
      assert Owns(after, after.ipt[f], i, f);
    }
  }

  /** What happens to memory in a run. */
  datatype Event = NewSpace(t: nat, numPages: nat) | PageFault(t: nat, page: nat, random: nat) | SpaceExit(t: nat)

  /** New spaces belong to new threads, and the hardware faults only on pages that are not valid. */
  ghost predicate Possible(vm: Vm, ev: Event) {
    match ev
    case NewSpace(t, _) => t !in vm.spaces
    case PageFault(t, page, _) => t in vm.spaces && page < |vm.spaces[t]| && !vm.spaces[t][page].valid
    case SpaceExit(t) => t in vm.spaces
  }

  ghost predicate Next(vm: Vm, ev: Event, vm': Vm) {
    && Possible(vm, ev)
    && match ev
       case NewSpace(t, n) => vm' == Create(vm, t, n)
       case PageFault(t, page, random) =>
         HasVictim(vm, random) ==> vm' == Fault(vm, t, page, random)
       case SpaceExit(t) => vm' == Exit(vm, t)
  }

  /** Under random replacement every frame can be the victim, */
  lemma AnyFrameCanGo(vm: Vm, f: nat)
    requires vm.policy == RandomChoice && f < NumPhysPages
    ensures exists random: nat :: Victim(vm, random) == f
  {
    assert Victim(vm, f) == f;
  }

  /** and which one is no matter of the queue; under FIFO it is the frame at the head of it. */
  lemma VictimFrom(vm: Vm, random: nat)
    ensures vm.policy == RandomChoice ==> 0 <= Victim(vm, random) < NumPhysPages && (random - Victim(vm, random)) % NumPhysPages == 0
    ensures vm.policy == Fifo && vm.pageList != [] ==> Victim(vm, random) == vm.pageList[0]
  {
  }

  /** The frame that a page is in was taken from nobody, or from the one page that was in the victim. */
  ghost predicate TakenFrom(vm: Vm, vm': Vm, t: nat, v: nat, f: int, random: nat) {
    if f !in vm.marked then
      && (forall g :: 0 <= g < f ==> g in vm.marked)
      && vm'.marked == vm.marked + {f}
      && (forall u: nat, i: nat :: u in vm.spaces && i < |vm.spaces[u]| && !(u == t && i == v) ==> KeepsPage(vm, vm', u, i))
    else
      && (forall g :: 0 <= g < NumPhysPages ==> g in vm.marked)
      && vm'.marked == vm.marked && f == Victim(vm, random)
      && (forall u: nat, i: nat :: u in vm.spaces && i < |vm.spaces[u]| && !(u == t && i == v) ==>
                                     if Owns(vm, u, i, f) then Swapped(vm', u, i) else KeepsPage(vm, vm', u, i))
  }

  ghost predicate KeepsPage(vm: Vm, vm': Vm, u: nat, i: nat) {
    u in vm.spaces && i < |vm.spaces[u]| && u in vm'.spaces && i < |vm'.spaces[u]| && vm'.spaces[u][i] == vm.spaces[u][i]
  }

  ghost predicate Swapped(vm: Vm, u: nat, i: nat) {
    u in vm.spaces && i < |vm.spaces[u]| && vm.spaces[u][i].frame == -1 && !vm.spaces[u][i].valid
  }

  lemma TakesClear(vm: Vm, t: nat, v: nat, random: nat)
    requires Sound(vm) && t in vm.spaces && v < |vm.spaces[t]| && LeastClear(vm.marked, NumPhysPages) < NumPhysPages
    ensures var vm' := Fault(vm, t, v, random); TakenFrom(vm, vm', t, v, vm'.spaces[t][v].frame, random)
  {
    LeastClearIsLeast(vm.marked, NumPhysPages);
  }

  lemma TakesVictim(vm: Vm, t: nat, v: nat, random: nat)
    requires Sound(vm) && t in vm.spaces && v < |vm.spaces[t]| && !vm.spaces[t][v].valid
    requires LeastClear(vm.marked, NumPhysPages) == NumPhysPages && HasVictim(vm, random)
    ensures var vm' := Fault(vm, t, v, random); vm'.spaces[t][v].frame == Victim(vm, random) && TakenFrom(vm, vm', t, v, Victim(vm, random), random)
  {
    LeastClearIsLeast(vm.marked, NumPhysPages);
    EvictionFindsPage(vm, random);
    var f := Victim(vm, random);
    forall u: nat, i: nat | u in vm.spaces && i < |vm.spaces[u]| && !(u == t && i == v)
      ensures if Owns(vm, u, i, f) then Swapped(Fault(vm, t, v, random), u, i) else KeepsPage(vm, Fault(vm, t, v, random), u, i)
    {
      VictimOnly(vm, t, v, random, u, i);
    }
  }

  lemma VictimOnly(vm: Vm, t: nat, v: nat, random: nat, u: nat, i: nat)
    requires Sound(vm) && t in vm.spaces && v < |vm.spaces[t]| && LeastClear(vm.marked, NumPhysPages) == NumPhysPages && HasVictim(vm, random)
    requires u in vm.spaces && i < |vm.spaces[u]| && !(u == t && i == v) && Victim(vm, random) in vm.marked
    ensures var vm' := Fault(vm, t, v, random);
            if Owns(vm, u, i, Victim(vm, random)) then Swapped(vm', u, i) else KeepsPage(vm, vm', u, i)
  {
    var f := Victim(vm, random);
    var owner := vm.ipt[f];
    assert Owns(vm, owner, PageIn(vm.spaces[owner], f), f);
  }

  /** Loading and swapping out leave the spaces and their sizes. */
  ghost predicate SameShape(vm: Vm, vm': Vm) {
    vm'.spaces.Keys == vm.spaces.Keys && forall u :: u in vm.spaces ==> |vm'.spaces[u]| == |vm.spaces[u]|
  }

  lemma LoadShape(vm: Vm, t: nat, v: nat, f: int)
    requires t in vm.spaces && v < |vm.spaces[t]|
    ensures SameShape(vm, Load(vm, t, v, f))
  {
  }

  lemma SwapOutShape(vm: Vm, t: nat, f: int)
    requires t in vm.spaces && PageIn(vm.spaces[t], f) < |vm.spaces[t]|
    ensures SameShape(vm, SwapOut(vm, t, f))
  {
  }

  lemma FaultShape(vm: Vm, t: nat, v: nat, random: nat)
    requires t in vm.spaces && v < |vm.spaces[t]| && HasVictim(vm, random)
    ensures SameShape(vm, Fault(vm, t, v, random))
  {
    var f := LeastClear(vm.marked, NumPhysPages);
    if f < NumPhysPages {
      LoadShape(vm.(marked := vm.marked + {f}), t, v, f);
    } else {
      var victim := Victim(vm, random);
      var vm1 := SwapOut(vm, vm.ipt[victim], victim);
      SwapOutShape(vm, vm.ipt[victim], victim);
      LoadShape(vm1.(pageList := Popped(vm)), t, v, victim);
    }
  }

  /** What a fault changes: the page that was asked for is in a frame.  That frame is the first clear one and no
      other page is touched; or there is none, and exactly the page that was in the victim is given up. */
  lemma FaultTakes(vm: Vm, t: nat, v: nat, random: nat, vm': Vm)
    requires Sound(vm) && Next(vm, PageFault(t, v, random), vm')
    ensures SameShape(vm, vm') && vm'.spaces[t][v].valid && TakenFrom(vm, vm', t, v, vm'.spaces[t][v].frame, random)
  {
    FaultSound(vm, t, v, random);
    FaultShape(vm, t, v, random);
    if LeastClear(vm.marked, NumPhysPages) < NumPhysPages {
      TakesClear(vm, t, v, random);
    } else {
      TakesVictim(vm, t, v, random);
    }
  }

  ghost predicate IsRun(states: seq<Vm>, events: seq<Event>) {
    && |states| == |events| + 1
    && states[0].marked == {} && states[0].spaces == map[] && states[0].pageList == []
    && forall i :: 0 <= i < |events| ==> Follows(states, events, i)
  }

  ghost predicate Follows(states: seq<Vm>, events: seq<Event>, i: int) {
    0 <= i < |events| < |states| && Next(states[i], events[i], states[i + 1])
  }

  /** In every state of every run frames and owners agree. */
  lemma {:induction false} RunSound(states: seq<Vm>, events: seq<Event>, i: nat)
    requires IsRun(states, events) && i <= |events|
    ensures Sound(states[i])
    decreases i
  {
    if i > 0 {
      RunSound(states, events, i - 1);
      assert Follows(states, events, i - 1);
      match events[i - 1]
      case NewSpace(t, n) => CreateSound(states[i - 1], t, n);
      case PageFault(t, page, random) => FaultSound(states[i - 1], t, page, random);
      case SpaceExit(t) => ExitSound(states[i - 1], t);
    }
  }

  /** A page is never read back from the swap file: Swapout marks it as not swapped, and nothing else
      sets the mark before Swapin does. */
  lemma NeverSwappedIn(states: seq<Vm>, events: seq<Event>, i: nat, t: nat, page: nat)
    requires IsRun(states, events) && i <= |events| && t in states[i].spaces && page < |states[i].spaces[t]|
    ensures !states[i].spaces[t][page].swapped
  {
    RunSound(states, events, i);
    assert PagesOk(states[i].spaces[t]);
  }
}
