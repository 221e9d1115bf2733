/** The file system refines a map from names to byte sequences with a bounded capacity. */
module FsRefinements {
  import opened Bytes
  import opened SynchDisks
  import opened BitMaps
  import opened FileHeaders
  import opened OpenFiles
  import opened Streams
  import opened Directories
  import opened DiskLayouts
  import opened Catalogs
  import opened FileSystems
  import opened FsInvariants

  type FileMap = map<seq<Byte>, seq<Byte>>

  /** The files of the first slots of a catalog, by name. */
  ghost function FilesOf(d: Image, cat: seq<Slot>): (m: FileMap)
    requires IsImage(d) && forall i :: 0 <= i < |cat| ==> Proper(cat[i])
  {
    if cat == [] then map[] else
      var last := cat[|cat| - 1];
      assert Proper(last);
      var m := FilesOf(d, cat[..|cat| - 1]);
      if last.Free? then m else m[last.key := FileBytes(d, last.hdr)]
  }

  /** The abstract file system that a sound disk represents. */
  ghost function Files(d: Image): FileMap
    requires Sound(d)
  {
    FilesOf(d, Catalog(d))
  }

  ghost predicate ListedAs(cat: seq<Slot>, i: nat, k: seq<Byte>) {
    i < |cat| && cat[i].File? && cat[i].key == k
  }

  lemma {:induction false} FilesAt(d: Image, cat: seq<Slot>, k: seq<Byte>)
    requires IsImage(d) && (forall i :: 0 <= i < |cat| ==> Proper(cat[i])) && Separate(cat)
    ensures k in FilesOf(d, cat) <==> exists i: nat :: ListedAs(cat, i, k)
    ensures forall i: nat :: ListedAs(cat, i, k) ==> FilesOf(d, cat)[k] == FileBytes(d, cat[i].hdr)
  {
    if cat != [] {
      var rest := cat[..|cat| - 1];
      FilesAt(d, rest, k);
      forall i: nat | ListedAs(cat, i, k) ensures k in FilesOf(d, cat) && FilesOf(d, cat)[k] == FileBytes(d, cat[i].hdr) {
        if i < |cat| - 1 {
          assert ListedAs(rest, i, k);
          assert cat[|cat| - 1].File? ==> cat[|cat| - 1].key != k;
        }
      }
      if k in FilesOf(d, cat) {
        if cat[|cat| - 1].File? && cat[|cat| - 1].key == k {
          assert ListedAs(cat, |cat| - 1, k);
        } else {
          var i :| ListedAs(rest, i, k);
          assert ListedAs(cat, i, k);
        }
      }
    }
  }

  /** The sectors a file of `length` bytes takes: one for the header and the data. */
  function Cost(length: nat): (n: nat) {
    1 + DivRoundUp(length, SectorSize)
  }

  ghost function Pick(m: FileMap): (k: seq<Byte>)
    requires m != map[]
    ensures k in m
  {
    assert m.Keys == {} ==> m == map[];
    var k :| k in m.Keys;
    k
  }

  /** The sectors that the files of a map take. */
  ghost function TotalCost(m: FileMap): nat
    decreases |m|
  {
    if m == map[] then 0 else
      var k := Pick(m);
      assert |m - {k}| == |m| - 1 by { DropOne(m, k); }
      Cost(|m[k]|) + TotalCost(m - {k})
  }

  lemma DropOne(m: FileMap, k: seq<Byte>)
    requires k in m
    ensures |m - {k}| == |m| - 1
  {
  }

  lemma {:induction false} TotalCostDrop(m: FileMap, k: seq<Byte>)
    requires k in m
    ensures TotalCost(m) == Cost(|m[k]|) + TotalCost(m - {k})
    decreases |m|
  {
    var p := Pick(m);
    DropOne(m, p);
    if p != k {
      TotalCostDrop(m - {p}, k);
      TotalCostDrop(m - {k}, p);
      assert m - {p} - {k} == m - {k} - {p};
    }
  }

  /** What the catalog takes on disk is what its files cost. */
  lemma {:induction false} CatalogCost(d: Image, cat: seq<Slot>)
    requires IsImage(d) && (forall i :: 0 <= i < |cat| ==> Proper(cat[i])) && Separate(cat)
    ensures Used(cat) == TotalCost(FilesOf(d, cat))
    ensures |FilesOf(d, cat)| == InUse(cat)
  {
    if cat != [] {
      var rest, last := cat[..|cat| - 1], cat[|cat| - 1];
      CatalogCost(d, rest);
      if last.File? {
        FilesAt(d, rest, last.key);
        var m := FilesOf(d, cat);
        assert m - {last.key} == FilesOf(d, rest);
        TotalCostDrop(m, last.key);
        DropOne(m, last.key);
      }
    }
  }

  ghost function InUse(cat: seq<Slot>): nat {
    if cat == [] then 0 else InUse(cat[..|cat| - 1]) + if cat[|cat| - 1].File? then 1 else 0
  }

  lemma {:induction false} InUseFull(cat: seq<Slot>)
    ensures InUse(cat) <= |cat|
    ensures InUse(cat) == |cat| <==> forall i :: 0 <= i < |cat| ==> cat[i].File?
  {
    if cat != [] {
      InUseFull(cat[..|cat| - 1]);
    }
  }

  /** The conditions of Create, in terms of the abstract files alone. */
  lemma CanCreateAbstractly(d: Image, name: seq<Byte>, size: nat)
    requires Sound(d)
    ensures CanCreate(d, name, size) <==>
            && Key(name) !in Files(d)
            && |Files(d)| < NumDirEntries
            && TotalCost(Files(d)) + Cost(size) <= NumSectors - 4
  {
    ListedKeys(d, Key(name));
    SlotsLeft(d);
    SectorsLeft(d);
  }

  lemma ListedKeys(d: Image, k: seq<Byte>)
    requires Sound(d)
    ensures k in Files(d) <==> Lookup(Dir(d), k) < NumDirEntries
    ensures k in Files(d) ==> ListedAs(Catalog(d), Lookup(Dir(d), k), k)
  {
    var cat, i := Catalog(d), Lookup(Dir(d), k);
    FilesAt(d, cat, k);
    KeyAbsent(d, k);
    if i < NumDirEntries {
      assert cat[i] == SlotOf(d, Dir(d)[i]);
      assert ListedAs(cat, i, k);
    } else {
      assert forall j: nat :: !ListedAs(cat, j, k);
    }
  }

  lemma SlotsLeft(d: Image)
    requires Sound(d)
    ensures FreeSlot(Dir(d)) < NumDirEntries <==> |Files(d)| < NumDirEntries
  {
    var cat := Catalog(d);
    CatalogCost(d, cat);
    InUseFull(cat);
    assert forall i :: 0 <= i < NumDirEntries ==> (cat[i].File? <==> Dir(d)[i].inUse);
  }

  lemma SectorsLeft(d: Image)
    requires Sound(d)
    ensures |Complement(FreeMap(d), NumSectors)| == NumSectors - 4 - TotalCost(Files(d))
  {
    CatalogCost(d, Catalog(d));
    FreeSectors(Catalog(d), FreeMap(d));
  }

  /** An open file: the name it was opened by and the header that is in memory since then. */
  datatype Handle = Handle(key: seq<Byte>, hdr: Header)

  /** The disk, and the handles that clients hold on files that have not been removed. */
  datatype State = State(disk: Image, handles: map<nat, Handle>)

  datatype Op =
    | Create(name: seq<Byte>, size: nat, ok: bool)
    | Remove(name: seq<Byte>, ok: bool)
    | Open(name: seq<Byte>, id: nat, ok: bool)
    | ReadAt(id: nat, numBytes: int, at: nat, bytes: seq<Byte>)
    | WriteAt(id: nat, data: seq<Byte>, at: nat, n: nat)

  /** One operation on the sectors of the disk, as the methods of FileSystem and OpenFile do it. */
  ghost predicate Next(s: State, op: Op, s': State)
    requires Invariant(s)
  {
    match op
    case Create(name, size, ok) =>
      SizeOk(s.disk, size) && CreateEffect(s.disk, s'.disk, name, size, ok) && s'.handles == s.handles
    case Remove(name, ok) =>
      && RemoveEffect(s.disk, s'.disk, name, ok)
      && s'.handles == if ok then s.handles - Stale(s.handles, Key(name)) else s.handles
    case Open(name, id, ok) =>
      var slot := Lookup(Dir(s.disk), Key(name));
      && s'.disk == s.disk && ok == (slot < NumDirEntries)
      && if ok then id !in s.handles && s'.handles == s.handles[id := Handle(Key(name), Catalog(s.disk)[slot].hdr)]
         else s'.handles == s.handles
    case ReadAt(id, numBytes, at, bytes) =>
      id in s.handles && s' == s && bytes == ReadResult(FileBytes(s.disk, s.handles[id].hdr), numBytes, at)
    case WriteAt(id, data, at, n) =>
      && id in s.handles && s'.handles == s.handles
      && n == Transfer(|data|, at, s.handles[id].hdr.numBytes) <= |data|
      && Wrote(s.disk, s'.disk, s.handles[id].hdr, at, data[..n])
  }

  /** The handles that removing a file invalidates. */
  ghost function Stale(handles: map<nat, Handle>, k: seq<Byte>): set<nat> {
    set id | id in handles && handles[id].key == k
  }

  /** A handle's header is the one of the listed file with its name. */
  ghost predicate Live(cat: seq<Slot>, h: Handle) {
    WellFormed(h.hdr) && exists i: nat :: ListedAs(cat, i, h.key) && cat[i].hdr == h.hdr
  }

  ghost predicate AllLive(cat: seq<Slot>, handles: map<nat, Handle>) {
    forall id :: id in handles ==> Live(cat, handles[id])
  }

  ghost predicate Invariant(s: State) {
    Sound(s.disk) && AllLive(Catalog(s.disk), s.handles)
  }

  /** The abstract state: named byte sequences, and a name for each handle. */
  datatype AbstractState = AbstractState(files: FileMap, handles: map<nat, seq<Byte>>)

  ghost function Abstract(s: State): AbstractState
    requires Invariant(s)
  {
    AbstractState(Files(s.disk), AbstractHandles(s.handles))
  }

  ghost function AbstractHandles(handles: map<nat, Handle>): map<nat, seq<Byte>> {
    map id | id in handles :: handles[id].key
  }

  /** The same operation on the abstract state.  The bytes of a new file are arbitrary. */
  ghost predicate AbstractNext(a: AbstractState, op: Op, a': AbstractState) {
    match op
    case Create(name, size, ok) =>
      AbstractCreate(a.files, a'.files, Key(name), size, ok) && a'.handles == a.handles
    case Remove(name, ok) =>
      && AbstractRemove(a.files, a'.files, Key(name), ok)
      && a'.handles == if ok then a.handles - (set id | id in a.handles && a.handles[id] == Key(name)) else a.handles
    case Open(name, id, ok) =>
      && a'.files == a.files && ok == (Key(name) in a.files)
      && if ok then id !in a.handles && a'.handles == a.handles[id := Key(name)] else a'.handles == a.handles
    case ReadAt(id, numBytes, at, bytes) =>
      && id in a.handles && a.handles[id] in a.files && a' == a
      && bytes == ReadResult(a.files[a.handles[id]], numBytes, at)
    case WriteAt(id, data, at, n) =>
      && id in a.handles && a.handles[id] in a.files && a'.handles == a.handles
      && AbstractWrite(a.files, a'.files, a.handles[id], data, at, n)
  }

  /** A new file of the given length appears if the name is new and there is room. */
  ghost predicate AbstractCreate(m: FileMap, m': FileMap, k: seq<Byte>, size: nat, ok: bool) {
    && ok == (k !in m && |m| < NumDirEntries && TotalCost(m) + Cost(size) <= NumSectors - 4)
    && if ok then k in m' && |m'[k]| == size && m' == m[k := m'[k]] else m' == m
  }

  ghost predicate AbstractRemove(m: FileMap, m': FileMap, k: seq<Byte>, ok: bool) {
    ok == (k in m) && m' == m - {k}
  }

  /** Exactly the named file changes, and in it exactly the slice that fits. */
  ghost predicate AbstractWrite(m: FileMap, m': FileMap, k: seq<Byte>, data: seq<Byte>, at: nat, n: nat)
    requires k in m
  {
    && n == Transfer(|data|, at, |m[k]|) <= |data|
    && m' == m[k := WriteResult(m[k], data, at)]
  }

  /** The abstract file with key `k`, found through the slot that lists it. */
  lemma FileAt(d: Image, i: nat, k: seq<Byte>)
    requires Sound(d) && ListedAs(Catalog(d), i, k)
    ensures Proper(Catalog(d)[i]) && k in Files(d) && Files(d)[k] == FileBytes(d, Catalog(d)[i].hdr)
  {
    FilesAt(d, Catalog(d), k);
  }

  lemma SlotOfFile(d: Image, k: seq<Byte>) returns (i: nat)
    requires Sound(d) && k in Files(d)
    ensures ListedAs(Catalog(d), i, k)
  {
    FilesAt(d, Catalog(d), k);
    i :| ListedAs(Catalog(d), i, k);
  }

  /** Every slot but one lists the same file with the same bytes. */
  ghost predicate AgreeExcept(d: Image, e: Image, slot: nat)
    requires Sound(d) && Sound(e)
  {
    forall i :: 0 <= i < NumDirEntries && i != slot ==>
                  Catalog(e)[i] == Catalog(d)[i] &&
                  (Catalog(d)[i].File? ==> WellFormed(Catalog(d)[i].hdr) &&
                                           FileBytes(e, Catalog(d)[i].hdr) == FileBytes(d, Catalog(d)[i].hdr))
  }

  lemma KeptFile(d: Image, e: Image, slot: nat, k: seq<Byte>)
    requires Sound(d) && Sound(e) && AgreeExcept(d, e, slot)
    requires !ListedAs(Catalog(d), slot, k) && !ListedAs(Catalog(e), slot, k)
    ensures k in Files(e) <==> k in Files(d)
    ensures k in Files(d) ==> Files(e)[k] == Files(d)[k]
  {
    if k in Files(d) {
      var i := SlotOfFile(d, k);
      FileAt(d, i, k);
      FileAt(e, i, k);
    } else if k in Files(e) {
      var i := SlotOfFile(e, k);
      FileAt(d, i, k);
    }
  }

  /** If only one slot changed, and it lists `key` if anything, then only the file `key` changed. */
  lemma OneFileChanged(d: Image, e: Image, slot: nat, key: seq<Byte>)
    requires Sound(d) && Sound(e) && slot < NumDirEntries && AgreeExcept(d, e, slot)
    requires Catalog(d)[slot].File? ==> Catalog(d)[slot].key == key
    requires Catalog(e)[slot].File? ==> Catalog(e)[slot].key == key
    ensures if key in Files(e) then Files(e) == Files(d)[key := Files(e)[key]] else Files(e) == Files(d) - {key}
  {
    var m, m' := Files(d), Files(e);
    forall k | k != key ensures (k in m' <==> k in m) && (k in m ==> m'[k] == m[k]) {
      KeptFile(d, e, slot, k);
    }
    MapsAgree(m, m', key);
  }

  lemma MapsAgree(m: FileMap, m': FileMap, key: seq<Byte>)
    requires forall k :: k != key ==> (k in m' <==> k in m) && (k in m ==> m'[k] == m[k])
    ensures if key in m' then m' == m[key := m'[key]] else m' == m - {key}
  {
  }

  lemma OneSlotPerKey(d: Image, i: nat, j: nat)
    requires Sound(d) && i < NumDirEntries && j < NumDirEntries && Catalog(d)[i].File? && Catalog(d)[j].File?
    requires Catalog(d)[i].key == Catalog(d)[j].key
    ensures i == j
  {
  }

  /** Create adds the new file and changes no other. */
  lemma CreateFiles(d: Image, e: Image, name: seq<Byte>, size: nat)
    requires Sound(d) && size <= MaxFileSize && CanCreate(d, name, size) && Created(d, e, name, size) && Sound(e)
    ensures Key(name) !in Files(d)
    ensures Key(name) in Files(e) && |Files(e)[Key(name)]| == size
    ensures Files(e) == Files(d)[Key(name) := Files(e)[Key(name)]]
  {
    var key, slot := Key(name), FreeSlot(Dir(d));
    CreateSlots(d, e, name, size);
    FileAt(e, slot, key);
    ListedKeys(d, key);
    OneFileChanged(d, e, slot, key);
  }

  lemma CreateSlots(d: Image, e: Image, name: seq<Byte>, size: nat)
    requires Sound(d) && size <= MaxFileSize && CanCreate(d, name, size) && Created(d, e, name, size) && Sound(e)
    ensures AgreeExcept(d, e, FreeSlot(Dir(d))) && Catalog(d)[FreeSlot(Dir(d))].Free?
    ensures ListedAs(Catalog(e), FreeSlot(Dir(d)), Key(name)) && Catalog(e)[FreeSlot(Dir(d))].hdr.numBytes == size
  {
    CreateAgrees(d, e, name, size);
    CreateNewFile(d, e, name, size);
    CreateCatalog(d, e, name, size);
  }

  lemma CreateAgrees(d: Image, e: Image, name: seq<Byte>, size: nat)
    requires Sound(d) && size <= MaxFileSize && CanCreate(d, name, size) && Created(d, e, name, size) && Sound(e)
    ensures AgreeExcept(d, e, FreeSlot(Dir(d)))
  {
    CreateCatalog(d, e, name, size);
  }

  /** Remove drops the named file and changes no other. */
  lemma RemoveFiles(d: Image, e: Image, slot: nat)
    requires Sound(d) && slot < NumDirEntries && Dir(d)[slot].inUse && Removed(d, e, slot) && Sound(e)
    ensures Files(e) == Files(d) - {Catalog(d)[slot].key}
  {
    var key := Catalog(d)[slot].key;
    RemoveCatalog(d, e, slot);
    assert AgreeExcept(d, e, slot);
    if key in Files(e) {
      var i := SlotOfFile(e, key);
      OneSlotPerKey(d, i, slot);
    }
    OneFileChanged(d, e, slot, key);
  }

  /** A write changes the one file. */
  lemma WriteFiles(d: Image, e: Image, i: nat, at: nat, data: seq<Byte>)
    requires Sound(d) && i < NumDirEntries && Catalog(d)[i].File? && data != []
    requires WellFormed(Catalog(d)[i].hdr) && Wrote(d, e, Catalog(d)[i].hdr, at, data)
    ensures Sound(e) && Catalog(e) == Catalog(d)
    ensures var k := Catalog(d)[i].key;
            && k in Files(d) && at + |data| <= |Files(d)[k]|
            && Files(e) == Files(d)[k := Splice(Files(d)[k], at, data)]
  {
    var key := Catalog(d)[i].key;
    WriteFrame(d, e, i, at, data);
    WriteAgrees(d, e, i, at, data);
    FileAt(d, i, key);
    FileAt(e, i, key);
    OneFileChanged(d, e, i, key);
  }

  lemma WriteAgrees(d: Image, e: Image, i: nat, at: nat, data: seq<Byte>)
    requires Sound(d) && i < NumDirEntries && Catalog(d)[i].File?
    requires WellFormed(Catalog(d)[i].hdr) && Wrote(d, e, Catalog(d)[i].hdr, at, data)
    requires Sound(e) && Catalog(e) == Catalog(d)
    ensures AgreeExcept(d, e, i)
  {
    forall j | 0 <= j < NumDirEntries && j != i && Catalog(d)[j].File?
      ensures WellFormed(Catalog(d)[j].hdr) && FileBytes(e, Catalog(d)[j].hdr) == FileBytes(d, Catalog(d)[j].hdr)
    {
      WriteKeepsFile(d, e, i, j, at, data);
    }
  }

  lemma LiveHandle(s: State, id: nat) returns (i: nat)
    requires Invariant(s) && id in s.handles
    ensures ListedAs(Catalog(s.disk), i, s.handles[id].key) && Catalog(s.disk)[i].hdr == s.handles[id].hdr
    ensures WellFormed(s.handles[id].hdr)
    ensures s.handles[id].key in Files(s.disk)
    ensures Files(s.disk)[s.handles[id].key] == FileBytes(s.disk, s.handles[id].hdr)
  {
    i :| ListedAs(Catalog(s.disk), i, s.handles[id].key) && Catalog(s.disk)[i].hdr == s.handles[id].hdr;
    FileAt(s.disk, i, s.handles[id].key);
  }

  /** Handles stay live as long as their slots stay. */
  lemma StillLive(cat: seq<Slot>, cat': seq<Slot>, slot: nat, handles: map<nat, Handle>)
    requires |cat| == |cat'| && forall i :: 0 <= i < |cat| && i != slot ==> cat'[i] == cat[i]
    requires AllLive(cat, handles)
    requires forall id :: id in handles ==> !ListedAs(cat, slot, handles[id].key)
    ensures AllLive(cat', handles)
  {
  }

  lemma CreateRefines(s: State, e: Image, name: seq<Byte>, size: nat, ok: bool)
    requires Invariant(s) && SizeOk(s.disk, size) && CreateEffect(s.disk, e, name, size, ok)
    ensures Sound(e) && AllLive(Catalog(e), s.handles)
    ensures AbstractCreate(Files(s.disk), Files(e), Key(name), size, ok)
  {
    CreateKeepsSound(s.disk, e, name, size, ok);
    CanCreateAbstractly(s.disk, name, size);
    if ok {
      CreateFiles(s.disk, e, name, size);
      CreateSlots(s.disk, e, name, size);
      StillLive(Catalog(s.disk), Catalog(e), FreeSlot(Dir(s.disk)), s.handles);
    }
  }

  lemma RemoveRefines(s: State, e: Image, name: seq<Byte>, ok: bool)
    requires Invariant(s) && RemoveEffect(s.disk, e, name, ok)
    ensures Sound(e) && AllLive(Catalog(e), if ok then s.handles - Stale(s.handles, Key(name)) else s.handles)
    ensures AbstractRemove(Files(s.disk), Files(e), Key(name), ok)
  {
    var k := Key(name);
    RemoveKeepsSound(s.disk, e, name, ok);
    ListedKeys(s.disk, k);
    if ok {
      var slot := Lookup(Dir(s.disk), k);
      RemoveFiles(s.disk, e, slot);
      RemoveCatalog(s.disk, e, slot);
      StillLive(Catalog(s.disk), Catalog(e), slot, s.handles - Stale(s.handles, k));
    } else {
      assert Files(s.disk) - {k} == Files(s.disk);
    }
  }

  lemma OpenRefines(s: State, name: seq<Byte>, id: nat)
    requires Invariant(s) && Lookup(Dir(s.disk), Key(name)) < NumDirEntries && id !in s.handles
    ensures AllLive(Catalog(s.disk), s.handles[id := Handle(Key(name), Catalog(s.disk)[Lookup(Dir(s.disk), Key(name))].hdr)])
  {
    var k := Key(name);
    var slot := Lookup(Dir(s.disk), k);
    ListedKeys(s.disk, k);
    assert Proper(Catalog(s.disk)[slot]);
    assert ListedAs(Catalog(s.disk), slot, k);
  }

  lemma SliceIsWrite(m: FileMap, m': FileMap, k: seq<Byte>, data: seq<Byte>, at: nat, n: nat)
    requires k in m && 0 < n == Transfer(|data|, at, |m[k]|) <= |data| && at + n <= |m[k]|
    requires m' == m[k := Splice(m[k], at, data[..n])]
    ensures AbstractWrite(m, m', k, data, at, n)
  {
  }

  lemma WriteSlot(d: Image, e: Image, i: nat, data: seq<Byte>, at: nat, n: nat)
    requires Sound(d) && i < NumDirEntries && Catalog(d)[i].File? && WellFormed(Catalog(d)[i].hdr)
    requires n == Transfer(|data|, at, Catalog(d)[i].hdr.numBytes) <= |data|
    requires Wrote(d, e, Catalog(d)[i].hdr, at, data[..n])
    ensures Sound(e) && Catalog(e) == Catalog(d) && Catalog(d)[i].key in Files(d)
    ensures AbstractWrite(Files(d), Files(e), Catalog(d)[i].key, data, at, n)
  {
    var m, k := Files(d), Catalog(d)[i].key;
    FileAt(d, i, k);
    if n > 0 {
      WriteFiles(d, e, i, at, data[..n]);
      SliceIsWrite(m, Files(e), k, data, at, n);
    } else {
      assert m[k := m[k]] == m;
    }
  }

  /** A write through a live handle. */
  lemma WriteRefines(s: State, e: Image, id: nat, data: seq<Byte>, at: nat, n: nat)
    requires Invariant(s) && id in s.handles && WellFormed(s.handles[id].hdr)
    requires n == Transfer(|data|, at, s.handles[id].hdr.numBytes) <= |data|
    requires Wrote(s.disk, e, s.handles[id].hdr, at, data[..n])
    ensures Sound(e) && Catalog(e) == Catalog(s.disk)
    ensures s.handles[id].key in Files(s.disk)
    ensures AbstractWrite(Files(s.disk), Files(e), s.handles[id].key, data, at, n)
  {
    var i := LiveHandle(s, id);
    WriteSlot(s.disk, e, i, data, at, n);
  }
}
