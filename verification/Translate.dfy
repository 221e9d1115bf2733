/** Virtual memory as user programs see it: translation through a linear page table. */
module Translation {
  import opened Bytes

  const PageSize: nat := 256
  const NumPhysPages: nat := 32
  const MemorySize: nat := 8192

  datatype ExceptionType = NoException | PageFaultException | ReadOnlyException | BusErrorException | AddressErrorException

  datatype TranslationEntry = TranslationEntry(
    virtualPage: Int32, physicalPage: Int32, valid: bool, readOnly: bool, use: bool, dirty: bool)

  /** The exception that an access raises, in the order in which the checks are made. */
  function Check(table: seq<TranslationEntry>, virtAddr: Int32, size: nat, writing: bool): ExceptionType {
    if (size == 4 && virtAddr % 4 != 0) || (size == 2 && virtAddr % 2 != 0) then AddressErrorException else
      var vpn := Unsigned(virtAddr) / PageSize;
      if vpn >= |table| then AddressErrorException
      else if !table[vpn].valid then PageFaultException
      else if table[vpn].readOnly && writing then ReadOnlyException
      else if Unsigned(table[vpn].physicalPage) >= NumPhysPages then BusErrorException
      else NoException
  }

  /** Virtual address `u` is backed by memory. */
  predicate Mapped(table: seq<TranslationEntry>, u: nat) {
    u / PageSize < |table| && table[u / PageSize].valid && 0 <= table[u / PageSize].physicalPage < NumPhysPages
  }

  ghost predicate Aligned(virtAddr: Int32, size: nat) {
    (size == 4 ==> virtAddr % 4 == 0) && (size == 2 ==> virtAddr % 2 == 0)
  }

  /** When an access raises which exception: a page fault exactly for an aligned access to a page of the
      table that is not in memory, an address error exactly for one that is not aligned or lies beyond the table,
      a read-only exception exactly for a write to a page that is in memory and may not be written, a bus error
      exactly if the frame does not exist, and none exactly if memory backs the address and the access is allowed. */
  ghost predicate Raised(table: seq<TranslationEntry>, virtAddr: Int32, size: nat, writing: bool, exception: ExceptionType) {
    var u, vpn := Unsigned(virtAddr), Unsigned(virtAddr) / PageSize;
    var inMemory := Aligned(virtAddr, size) && vpn < |table| && table[vpn].valid;
    && (exception == AddressErrorException <==> !Aligned(virtAddr, size) || vpn >= |table|)
    && (exception == PageFaultException <==> Aligned(virtAddr, size) && vpn < |table| && !table[vpn].valid)
    && (exception == ReadOnlyException <==> inMemory && table[vpn].readOnly && writing)
    && (exception == BusErrorException <==> inMemory && !(table[vpn].readOnly && writing) && !Mapped(table, u))
    && (exception == NoException <==> Aligned(virtAddr, size) && Mapped(table, u) && !(table[vpn].readOnly && writing))
  }

  lemma CheckRaises(table: seq<TranslationEntry>, virtAddr: Int32, size: nat, writing: bool)
    ensures Raised(table, virtAddr, size, writing, Check(table, virtAddr, size, writing))
  {
  }

  function Physical(table: seq<TranslationEntry>, u: nat): (p: nat)
    requires Mapped(table, u)
    ensures p < MemorySize
  {
    table[u / PageSize].physicalPage * PageSize + u % PageSize
  }

  /** The byte at a virtual address. */
  function ByteAt(memory: seq<Byte>, table: seq<TranslationEntry>, u: nat): Byte
    requires |memory| == MemorySize && Mapped(table, u)
  {
    memory[Physical(table, u)]
  }

  /** No frame is mapped by two valid entries. */
  ghost predicate Injective(table: seq<TranslationEntry>) {
    forall i, j :: 0 <= i < j < |table| && table[i].valid && table[j].valid ==> table[i].physicalPage != table[j].physicalPage
  }

  lemma PhysicalInjective(table: seq<TranslationEntry>, u: nat, v: nat)
    requires Injective(table) && Mapped(table, u) && Mapped(table, v) && Physical(table, u) == Physical(table, v)
    ensures u == v
  {
    var i, j := u / PageSize, v / PageSize;
    assert table[i].physicalPage == table[j].physicalPage;
    assert u == i * PageSize + u % PageSize && v == j * PageSize + v % PageSize;
  }

  ghost predicate Size(size: nat) {
    size == 1 || size == 2 || size == 4
  }

  /** An aligned access lies in one page, so its bytes are consecutive in memory. */
  lemma WithinPage(table: seq<TranslationEntry>, virtAddr: Int32, size: nat, writing: bool, k: nat)
    requires Size(size) && Check(table, virtAddr, size, writing) == NoException && k < size
    ensures var u := Unsigned(virtAddr);
            && Mapped(table, u) && Mapped(table, u + k)
            && Physical(table, u + k) == Physical(table, u) + k
            && Physical(table, u) + size <= MemorySize
  {
    var u := Unsigned(virtAddr);
    SameAlignment(virtAddr);
    SamePage(u, size, k);
    InMemory(table[u / PageSize].physicalPage, u % PageSize, size);
  }

  lemma SameAlignment(virtAddr: Int32)
    ensures Unsigned(virtAddr) % 4 == virtAddr % 4 && Unsigned(virtAddr) % 2 == virtAddr % 2
  {
  }

  lemma InMemory(frame: nat, offset: nat, size: nat)
    requires frame < NumPhysPages && offset + size <= PageSize
    ensures frame * PageSize + offset + size <= MemorySize
  {
  }

  lemma SamePage(u: nat, size: nat, k: nat)
    requires Size(size) && (size == 4 ==> u % 4 == 0) && (size == 2 ==> u % 2 == 0) && k < size
    ensures (u + k) / PageSize == u / PageSize && (u + k) % PageSize == u % PageSize + k
    ensures u % PageSize + size <= PageSize
  {
    if size == 4 {
      InBlock(u / 4, 4, 64, k);
    } else if size == 2 {
      InBlock(u / 2, 2, 128, k);
    }
  }

  /** Blocks of `size` bytes, `n` of which make a page. */
  lemma InBlock(v: nat, size: nat, n: nat, k: nat)
    requires ((size == 4 && n == 64) || (size == 2 && n == 128)) && k < size
    ensures (size * v + k) / PageSize == size * v / PageSize && (size * v + k) % PageSize == size * v % PageSize + k
    ensures size * v % PageSize + size <= PageSize
  {
    var q, r := v / n, v % n;
    assert v == n * q + r;
    Quotient(q, size * r);
    Quotient(q, size * r + k);
  }

  lemma Quotient(q: nat, r: nat)
    requires r < PageSize
    ensures (q * PageSize + r) / PageSize == q && (q * PageSize + r) % PageSize == r
  {
  }

  /** The bytes that a store of `value` writes, and the value that a load of bytes yields: a byte is
      sign-extended, as `char` is signed on the host, and a short word is zero-extended. */
  function StoreBytes(value: Int32, size: nat): (s: seq<Byte>)
    requires Size(size)
    ensures |s| == size
  {
    EncodeWord(Unsigned(value))[..size]
  }

  function LoadValue(s: seq<Byte>): Int32
    requires Size(|s|)
  {
    if |s| == 1 then (if s[0] < 128 then s[0] else s[0] - 256)
    else if |s| == 2 then (s[0] as int) + 256 * (s[1] as int)
    else Signed(DecodeWord(s))
  }

  /** Loading what was stored gives back a word, the low half of it, or its low byte as a signed number. */
  lemma LoadOfStore(value: Int32, size: nat)
    requires Size(size)
    ensures size == 4 ==> LoadValue(StoreBytes(value, size)) == value
    ensures size == 2 ==> LoadValue(StoreBytes(value, size)) == value % 65536
    ensures size == 1 ==> LoadValue(StoreBytes(value, size)) == if value % 256 < 128 then value % 256 else value % 256 - 256
  {
    if size == 4 {
      assert EncodeWord(Unsigned(value))[..4] == EncodeWord(Unsigned(value));
    } else if size == 2 {
      LoadOfHalf(value);
    } else {
      LowByte(value);
    }
  }

  lemma LoadOfHalf(value: Int32)
    ensures LoadValue(StoreBytes(value, 2)) == value % 65536
  {
    var w := Unsigned(value);
    LowBytes(w);
    LowHalf(value);
    var s := StoreBytes(value, 2);
    assert s[0] == w % 256 && s[1] == w / 256 % 256;
  }

  lemma LowHalf(value: Int32)
    ensures Unsigned(value) % 65536 == value % 65536
  {
    if value < 0 {
      assert Unsigned(value) == (value as int) + 65536 * 65536;
    }
  }

  lemma LowByte(value: Int32)
    ensures Unsigned(value) % 256 == value % 256
  {
  }

  lemma LowBytes(w: Word)
    ensures (w % 256) + 256 * (w / 256 % 256) == w % 65536
  {
    var a := w / 256;
    assert w == 256 * a + w % 256 && a == 256 * (a / 256) + a % 256;
    assert w == 65536 * (a / 256) + (256 * (a % 256) + w % 256);
  }

  /** `size` bytes of virtual memory from `u` on. */
  ghost function View(memory: seq<Byte>, table: seq<TranslationEntry>, u: nat, size: nat): seq<Byte>
    requires |memory| == MemorySize && forall k :: u <= k < u + size ==> Mapped(table, k)
    decreases size
  {
    if size == 0 then [] else View(memory, table, u, size - 1) + [ByteAt(memory, table, u + size - 1)]
  }

  lemma OneMore(memory: seq<Byte>, p: nat, size: nat)
    requires size > 0 && p + size <= |memory|
    ensures memory[p..p + size] == memory[p..p + (size - 1)] + [memory[p + (size - 1)]]
  {
  }

  lemma {:induction false} ViewIsSlice(memory: seq<Byte>, table: seq<TranslationEntry>, u: nat, size: nat)
    requires |memory| == MemorySize && Mapped(table, u) && Physical(table, u) + size <= MemorySize
    requires forall k :: u <= k < u + size ==> Mapped(table, k) && Physical(table, k) == Physical(table, u) + (k - u)
    ensures View(memory, table, u, size) == memory[Physical(table, u)..Physical(table, u) + size]
    decreases size
  {
    if size > 0 {
      ViewIsSlice(memory, table, u, size - 1);
      var p := Physical(table, u);
      assert Physical(table, u + size - 1) == p + (size - 1);
      OneMore(memory, p, size);
    }
  }

  ghost predicate Accessible(table: seq<TranslationEntry>, u: nat, size: nat) {
    forall k :: u <= k < u + size ==> Mapped(table, k)
  }

  /** Two tables that differ only in their use and dirty bits. */
  ghost predicate SameMapping(t: seq<TranslationEntry>, t': seq<TranslationEntry>) {
    |t| == |t'| && forall i :: 0 <= i < |t| ==> t'[i] == t[i].(use := t'[i].use, dirty := t'[i].dirty)
  }

  /** Flat memory: of all mapped virtual bytes exactly those from `u` on that `bytes` covers change. */
  ghost predicate Updated(memory: seq<Byte>, memory': seq<Byte>, table: seq<TranslationEntry>, u: nat, bytes: seq<Byte>) {
    && |memory| == |memory'| == MemorySize
    && Accessible(table, u, |bytes|)
    && forall v: nat :: Mapped(table, v) ==>
                          ByteAt(memory', table, v) == if u <= v < u + |bytes| then bytes[v - u] else ByteAt(memory, table, v)
  }

  /** Physical memory: only the bytes from the translation of `u` on change. */
  ghost predicate StoredAt(memory: seq<Byte>, memory': seq<Byte>, table: seq<TranslationEntry>, u: nat, bytes: seq<Byte>) {
    Mapped(table, u) && Physical(table, u) + |bytes| <= |memory| && memory' == Splice(memory, Physical(table, u), bytes)
  }

  lemma SpanInMemory(memory: seq<Byte>, table: seq<TranslationEntry>, addr: Int32, size: nat, writing: bool)
    requires |memory| == MemorySize && Size(size) && Check(table, addr, size, writing) == NoException
    ensures var u := Unsigned(addr);
            && Accessible(table, u, size) && Physical(table, u) + size <= MemorySize
            && (forall k :: u <= k < u + size ==> Physical(table, k) == Physical(table, u) + (k - u))
            && View(memory, table, u, size) == memory[Physical(table, u)..Physical(table, u) + size]
  {
    var u := Unsigned(addr);
    forall k | u <= k < u + size ensures Mapped(table, k) && Physical(table, k) == Physical(table, u) + (k - u) {
      WithinPage(table, addr, size, writing, k - u);
    }
    WithinPage(table, addr, size, writing, 0);
    ViewIsSlice(memory, table, u, size);
  }

  lemma MarkedByte(t: seq<TranslationEntry>, t': seq<TranslationEntry>, vpn: nat, k: nat)
    requires Mapped(t, k) && vpn < |t|
    requires |t'| == |t| && t' == t[vpn := t[vpn].(use := t'[vpn].use, dirty := t'[vpn].dirty)]
    ensures Mapped(t', k) && Physical(t', k) == Physical(t, k)
  {
  }

  /** Views do not depend on the use and dirty bits. */
  lemma {:induction false} MarkedTable(memory: seq<Byte>, t: seq<TranslationEntry>, t': seq<TranslationEntry>, vpn: nat, u: nat, size: nat)
    requires |memory| == MemorySize && Accessible(t, u, size) && vpn < |t|
    requires |t'| == |t| && t' == t[vpn := t[vpn].(use := t'[vpn].use, dirty := t'[vpn].dirty)]
    ensures Accessible(t', u, size) && View(memory, t', u, size) == View(memory, t, u, size)
    decreases size
  {
    if size > 0 {
      MarkedByte(t, t', vpn, u + size - 1);
      MarkedTable(memory, t, t', vpn, u, size - 1);
    }
  }

  lemma SpliceIsUpdate(memory: seq<Byte>, table: seq<TranslationEntry>, addr: Int32, bytes: seq<Byte>)
    requires |memory| == MemorySize && Injective(table) && Size(|bytes|)
    requires Check(table, addr, |bytes|, true) == NoException && Mapped(table, Unsigned(addr))
    requires Physical(table, Unsigned(addr)) + |bytes| <= MemorySize
    ensures Updated(memory, Splice(memory, Physical(table, Unsigned(addr)), bytes), table, Unsigned(addr), bytes)
  {
    var u, p := Unsigned(addr), Physical(table, Unsigned(addr));
    SpanInMemory(memory, table, addr, |bytes|, true);
    var memory' := Splice(memory, p, bytes);
    forall v: nat | Mapped(table, v) ensures p <= Physical(table, v) < p + |bytes| <==> u <= v < u + |bytes| {
      if p <= Physical(table, v) < p + |bytes| {
        PhysicalInjective(table, v, u + (Physical(table, v) - p));
      }
    }
    assert forall v: nat :: Mapped(table, v) && u <= v < u + |bytes| ==> Physical(table, v) == p + (v - u);
  }

  /** Byte `k` of a store is digit `k` of the value in base 256: the order of bytes is little-endian. */
  lemma StoredDigit(value: Int32, size: nat, k: nat)
    requires Size(size) && k < size
    ensures StoreBytes(value, size)[k] == Unsigned(value) / Pow256(k) % 256
  {
    EncodedDigit(Unsigned(value), k);
  }

  lemma TwoDigits(w: Word, k: nat)
    requires k < 3
    ensures w / Pow256(k) % 256 + 256 * (w / Pow256(k + 1) % 256) == w / Pow256(k) % 65536
  {
    assert Pow256(0) == 1 && Pow256(1) == 256 && Pow256(2) == 65536 && Pow256(3) == 16777216;
    var v := w / Pow256(k);
    assert w / Pow256(k + 1) == v / 256;
    LowBytes(v);
  }

  /** A load of a part of what was stored: byte or short word `k` of the value. */
  lemma LoadOfPart(value: Int32, size: nat, k: nat, n: nat)
    requires Size(size) && Size(n) && k + n <= size
    ensures var part := Unsigned(value) / Pow256(k);
            LoadValue(StoreBytes(value, size)[k..k + n]) ==
            if n == 1 then (if part % 256 < 128 then part % 256 else part % 256 - 256)
            else if n == 2 then part % 65536
            else value
  {
    var s := StoreBytes(value, size);
    if n == 4 {
      assert s[0..4] == s;
      LoadOfStore(value, 4);
    } else {
      StoredDigit(value, size, k);
      if n == 2 {
        LoadTwo(value, size, k);
      }
    }
  }

  lemma LoadTwo(value: Int32, size: nat, k: nat)
    requires Size(size) && k + 2 <= size
    ensures LoadValue(StoreBytes(value, size)[k..k + 2]) == Unsigned(value) / Pow256(k) % 65536
  {
    StoredDigit(value, size, k);
    StoredDigit(value, size, k + 1);
    TwoDigits(Unsigned(value), k);
  }

  /** After a write, a read of any size inside the written bytes sees that part of them. */
  lemma {:induction false} ReadPartAfterWrite(memory: seq<Byte>, memory': seq<Byte>, table: seq<TranslationEntry>, u: nat, bytes: seq<Byte>, k: nat, n: nat)
    requires Updated(memory, memory', table, u, bytes) && k + n <= |bytes|
    ensures Accessible(table, u + k, n) && View(memory', table, u + k, n) == bytes[k..k + n]
    decreases n
  {
    if n > 0 {
      ReadPartAfterWrite(memory, memory', table, u, bytes, k, n - 1);
      assert Mapped(table, u + k + n - 1);
      assert ByteAt(memory', table, u + k + n - 1) == bytes[k + (n - 1)];
      OneMore(bytes, k, n);
    }
  }

  /** In particular a read of the same size at the same address loads what was stored. */
  lemma ReadAfterWrite(memory: seq<Byte>, memory': seq<Byte>, table: seq<TranslationEntry>, u: nat, bytes: seq<Byte>, n: nat)
    requires Updated(memory, memory', table, u, bytes) && n <= |bytes|
    ensures Accessible(table, u, n) && View(memory', table, u, n) == bytes[..n]
  {
    ReadPartAfterWrite(memory, memory', table, u, bytes, 0, n);
  }

  class Machine {
    const mainMemory: array<Byte>
    const pageTable: array<TranslationEntry>

    ghost predicate Valid()
      reads pageTable
    {
      mainMemory.Length == MemorySize && Injective(pageTable[..])
    }

    /** Translate a virtual address; the use and dirty bits of the entry are set if there is no error.
        The ASSERT that the whole access lies in memory holds. */
    method Translate(virtAddr: Int32, size: nat, writing: bool) returns (exception: ExceptionType, physAddr: nat)
      requires Size(size)
      modifies pageTable
      ensures exception == Check(old(pageTable[..]), virtAddr, size, writing)
      ensures Raised(old(pageTable[..]), virtAddr, size, writing, exception)
      ensures exception != NoException ==> pageTable[..] == old(pageTable[..])
      ensures exception == NoException ==>
                var vpn := Unsigned(virtAddr) / PageSize;
                var entry := old(pageTable[..])[vpn];
                && Mapped(old(pageTable[..]), Unsigned(virtAddr))
                && physAddr == Physical(old(pageTable[..]), Unsigned(virtAddr)) && physAddr + size <= MemorySize
                && physAddr / PageSize == entry.physicalPage && physAddr % PageSize == Unsigned(virtAddr) % PageSize
                && pageTable[..] == old(pageTable[..])[vpn := entry.(use := true, dirty := entry.dirty || writing)]
    {
      physAddr := 0;
      if (size == 4 && virtAddr % 4 != 0) || (size == 2 && virtAddr % 2 != 0) {
        return AddressErrorException, 0;
      }
      var vpn, offset := Unsigned(virtAddr) / PageSize, Unsigned(virtAddr) % PageSize;
      if vpn >= pageTable.Length {
        return AddressErrorException, 0;
      } else if !pageTable[vpn].valid {
        return PageFaultException, 0;
      }
      if pageTable[vpn].readOnly && writing {
        return ReadOnlyException, 0;
      }
      var pageFrame := Unsigned(pageTable[vpn].physicalPage);
      if pageFrame >= NumPhysPages {
        return BusErrorException, 0;
      }
      WithinPage(pageTable[..], virtAddr, size, writing, 0);
      pageTable[vpn] := pageTable[vpn].(use := true);
      if writing {
        pageTable[vpn] := pageTable[vpn].(dirty := true);
      }
      physAddr := pageFrame * PageSize + offset;
      return NoException, physAddr;
    }

    /** Read 1, 2 or 4 bytes of virtual memory. */
    method ReadMem(addr: Int32, size: nat) returns (exception: ExceptionType, value: Int32)
      requires mainMemory.Length == MemorySize && Size(size)
      modifies pageTable
      ensures exception == Check(old(pageTable[..]), addr, size, false) && (old(Valid()) ==> Valid())
      ensures Raised(old(pageTable[..]), addr, size, false, exception)
      ensures SameMapping(old(pageTable[..]), pageTable[..])
      ensures exception == NoException ==>
                && Accessible(pageTable[..], Unsigned(addr), size)
                && value == LoadValue(View(mainMemory[..], pageTable[..], Unsigned(addr), size))
    {
      value := 0;
      var physicalAddress;
      ghost var table := pageTable[..];
      exception, physicalAddress := Translate(addr, size, false);
      if exception == NoException {
        SpanInMemory(mainMemory[..], table, addr, size, false);
        MarkedTable(mainMemory[..], table, pageTable[..], Unsigned(addr) / PageSize, Unsigned(addr), size);
        value := LoadValue(mainMemory[physicalAddress..physicalAddress + size]);
      }
    }

    /** Write 1, 2 or 4 bytes of virtual memory: exactly those bytes change. */
    method WriteMem(addr: Int32, size: nat, value: Int32) returns (exception: ExceptionType)
      requires mainMemory.Length == MemorySize && Size(size)
      modifies pageTable, mainMemory
      ensures (old(Valid()) ==> Valid()) && exception == Check(old(pageTable[..]), addr, size, true)
      ensures Raised(old(pageTable[..]), addr, size, true, exception)
      ensures SameMapping(old(pageTable[..]), pageTable[..])
      ensures exception != NoException ==> mainMemory[..] == old(mainMemory[..])
      ensures exception == NoException ==>
                && StoredAt(old(mainMemory[..]), mainMemory[..], old(pageTable[..]), Unsigned(addr), StoreBytes(value, size))
                && (old(Valid()) ==> Updated(old(mainMemory[..]), mainMemory[..], old(pageTable[..]), Unsigned(addr), StoreBytes(value, size)))
    {
      var physicalAddress;
      ghost var table, memory := pageTable[..], mainMemory[..];
      exception, physicalAddress := Translate(addr, size, true);
      if exception == NoException {
        var bytes := StoreBytes(value, size);
        forall k | 0 <= k < size {
          mainMemory[physicalAddress + k] := bytes[k];
        }
        assert mainMemory[..] == Splice(memory, physicalAddress, bytes);
        if Injective(table) {
          SpliceIsUpdate(memory, table, addr, bytes);
        }
      }
    }
  }
}
