/** Processes do not see each other's memory: frame ownership and address translation together. */
module Isolation {
  import opened Bytes
  import opened Frames
  import opened Translation

  /** The hardware's view of a page table. */
  ghost predicate Loads(table: seq<TranslationEntry>, pages: seq<Page>) {
    && |table| == |pages|
    && forall i :: 0 <= i < |pages| ==> table[i].valid == pages[i].valid && table[i].physicalPage == pages[i].frame
  }

  /** Every address space of a sound system translates injectively, and only into memory. */
  lemma SpaceIsInjective(vm: Vm, t: nat, table: seq<TranslationEntry>)
    requires Frames.Sound(vm) && t in vm.spaces && Loads(table, vm.spaces[t])
    ensures Injective(table)
    ensures forall u: nat :: u / PageSize < |table| && table[u / PageSize].valid ==> Mapped(table, u)
  {
    assert PagesOk(vm.spaces[t]);
    forall i: nat, j: nat | i < j < |table| && table[i].valid && table[j].valid
      ensures table[i].physicalPage != table[j].physicalPage
    {
      assert Owns(vm, t, i, table[i].physicalPage) && Owns(vm, t, j, table[j].physicalPage);
    }
    forall u: nat | u / PageSize < |table| && table[u / PageSize].valid ensures Mapped(table, u) {
      assert vm.spaces[t][u / PageSize].valid;
    }
  }

  /** The hardware and the kernel agree on page faults: an aligned access of a process raises one exactly when a
      fault on that page is an event that the kernel can handle. */
  lemma FaultsWhenPossible(vm: Vm, t: nat, table: seq<TranslationEntry>, addr: Int32, size: nat, writing: bool, random: nat)
    requires Frames.Sound(vm) && t in vm.spaces && Loads(table, vm.spaces[t]) && Aligned(addr, size)
    ensures Check(table, addr, size, writing) == PageFaultException <==>
            Possible(vm, PageFault(t, Unsigned(addr) / PageSize, random))
  {
    CheckRaises(table, addr, size, writing);
  }

  /** After the kernel has handled the fault, the access that raised it goes through, unless it is a write to a page
      that may not be written. */
  lemma FaultIsCured(vm: Vm, t: nat, table: seq<TranslationEntry>, addr: Int32, size: nat, writing: bool, random: nat,
                    vm': Vm, table': seq<TranslationEntry>)
    requires Frames.Sound(vm) && t in vm.spaces && Loads(table, vm.spaces[t]) && Check(table, addr, size, writing) == PageFaultException
    requires Next(vm, PageFault(t, Unsigned(addr) / PageSize, random), vm') && t in vm'.spaces && Loads(table', vm'.spaces[t])
    ensures Unsigned(addr) / PageSize < |table'|
    ensures var entry := table'[Unsigned(addr) / PageSize];
            Check(table', addr, size, writing) == if entry.readOnly && writing then ReadOnlyException else NoException
  {
    CheckRaises(table, addr, size, writing);
    FaultSound(vm, t, Unsigned(addr) / PageSize, random);
    SpaceIsInjective(vm', t, table');
    CheckRaises(table', addr, size, writing);
  }

  /** Two address spaces never share a frame. */
  lemma NoSharedFrame(vm: Vm, t: nat, i: nat, u: nat, j: nat)
    requires Frames.Sound(vm) && t in vm.spaces && u in vm.spaces && t != u && i < |vm.spaces[t]| && j < |vm.spaces[u]|
    requires vm.spaces[t][i].valid && vm.spaces[u][j].valid
    ensures vm.spaces[t][i].frame != vm.spaces[u][j].frame
  {
    assert PagesOk(vm.spaces[t]) && PagesOk(vm.spaces[u]);
    assert Owns(vm, t, i, vm.spaces[t][i].frame) && Owns(vm, u, j, vm.spaces[u][j].frame);
  }

  /** A store by one process changes no byte that another process can address. */
  lemma StoreIsPrivate(vm: Vm, t: nat, mine: seq<TranslationEntry>, other: nat, theirs: seq<TranslationEntry>,
                       memory: seq<Byte>, memory': seq<Byte>, addr: Int32, bytes: seq<Byte>, v: nat)
    requires Frames.Sound(vm) && t in vm.spaces && other in vm.spaces && t != other
    requires Loads(mine, vm.spaces[t]) && Loads(theirs, vm.spaces[other])
    requires |memory| == MemorySize && Translation.Size(|bytes|) && Check(mine, addr, |bytes|, true) == NoException
    requires StoredAt(memory, memory', mine, Unsigned(addr), bytes) && Mapped(theirs, v)
    ensures |memory'| == MemorySize && ByteAt(memory', theirs, v) == ByteAt(memory, theirs, v)
  {
    var u := Unsigned(addr);
    SpanInMemory(memory, mine, addr, |bytes|, true);
    var p := Physical(theirs, v);
    if Physical(mine, u) <= p < Physical(mine, u) + |bytes| {
      var k := u + (p - Physical(mine, u));
      assert Mapped(mine, k) && Physical(mine, k) == p;
      NoSharedFrame(vm, t, k / PageSize, other, v / PageSize);
      SameFrame(mine[k / PageSize].physicalPage, k % PageSize, theirs[v / PageSize].physicalPage, v % PageSize);
    }
  }

  lemma SameFrame(f: nat, a: nat, g: nat, b: nat)
    requires a < PageSize && b < PageSize && f * PageSize + a == g * PageSize + b
    ensures f == g
  {
  }
}
