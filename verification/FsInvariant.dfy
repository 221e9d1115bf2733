/** Every operation keeps the disk sound, and changes no file but the one it names. */
module FsInvariants {
  import opened Bytes
  import opened SynchDisks
  import opened BitMaps
  import opened FileHeaders
  import opened OpenFiles
  import opened Directories
  import opened DiskLayouts
  import opened Catalogs
  import opened FileSystems

  /** A file none of whose sectors changed is the same file with the same bytes. */
  lemma SameFile(d: Image, e: Image, f: Slot)
    requires IsImage(d) && IsImage(e) && f.File? && Proper(f) && f.hdr == HeaderOf(d[f.sector])
    requires forall t :: t in Owned(f) ==> e[t] == d[t]
    ensures HeaderOf(e[f.sector]) == f.hdr && FileBytes(e, f.hdr) == FileBytes(d, f.hdr)
  {
  }

  /** The sectors of a listed file are marked, and not reserved. */
  lemma ListedIsMarked(d: Image, i: nat)
    requires Sound(d) && i < NumDirEntries
    ensures Proper(Catalog(d)[i]) && Owned(Catalog(d)[i]) <= FreeMap(d) && Owned(Catalog(d)[i]) !! Reserved
  {
    if Catalog(d)[i].File? {
      DropFile(Catalog(d), FreeMap(d), i);
    }
  }

  /** If only unmarked or reserved sectors changed, every listed file is unchanged. */
  lemma UntouchedFile(d: Image, e: Image, i: nat, s: int)
    requires Sound(d) && IsImage(e) && i < NumDirEntries && Catalog(d)[i].File?
    requires s !in FreeMap(d)
    requires forall t :: 0 <= t < NumSectors && t != s && t != DirData && t != MapData ==> e[t] == d[t]
    ensures WellFormed(Catalog(d)[i].hdr)
    ensures HeaderOf(e[Catalog(d)[i].sector]) == Catalog(d)[i].hdr
    ensures FileBytes(e, Catalog(d)[i].hdr) == FileBytes(d, Catalog(d)[i].hdr)
  {
    ListedIsMarked(d, i);
    SameFile(d, e, Catalog(d)[i]);
  }

  /** The header of a new file. */
  lemma NewFileIsProper(marked: set<int>, h: Header, sector: int)
    requires Reserved <= marked && 0 <= sector < NumSectors && sector !in marked
    requires 0 <= h.numBytes <= MaxFileSize && h.numSectors == DivRoundUp(h.numBytes, SectorSize) && Fits(h)
    requires Yields(marked + {sector}, Data(h))
    ensures WellFormed(h)
    ensures forall key :: Proper(File(key, sector, h)) && Owned(File(key, sector, h)) !! marked
  {
    TakenSectors(marked + {sector}, Data(h));
  }

  /** The file that Create adds. */
  ghost function NewFile(d: Image, e: Image, name: seq<Byte>): Slot
    requires IsImage(d) && IsImage(e) && LeastClear(FreeMap(d), NumSectors) < NumSectors
  {
    File(Key(name), LeastClear(FreeMap(d), NumSectors), HeaderOf(e[LeastClear(FreeMap(d), NumSectors)]))
  }

  lemma CreateNewFile(d: Image, e: Image, name: seq<Byte>, size: nat)
    requires Sound(d) && size <= MaxFileSize && CanCreate(d, name, size) && Created(d, e, name, size)
    ensures var f := NewFile(d, e, name);
            && Proper(f) && Owned(f) !! FreeMap(d) && FreeMap(e) == FreeMap(d) + Owned(f)
            && f.hdr.numBytes == size
  {
    var sector := LeastClear(FreeMap(d), NumSectors);
    LeastClearIsLeast(FreeMap(d), NumSectors);
    NewFileIsProper(FreeMap(d), HeaderOf(e[sector]), sector);
  }

  /** Create changes one entry of the directory. */
  lemma CreateEntry(d: Image, e: Image, name: seq<Byte>, size: nat)
    requires Sound(d) && CanCreate(d, name, size) && Created(d, e, name, size)
    ensures Formatted(e) && EntriesOnDisk(e)
    ensures forall i :: 0 <= i < NumDirEntries && i != FreeSlot(Dir(d)) ==> Dir(e)[i] == Dir(d)[i]
    ensures SlotOf(e, Dir(e)[FreeSlot(Dir(d))]) == NewFile(d, e, name)
  {
    var slot := FreeSlot(Dir(d));
    LeastClearIsLeast(FreeMap(d), NumSectors);
    StoredNameKey(Dir(d)[slot].name, name);
  }

  /** Create changes one slot of the catalog. */
  lemma CreateCatalog(d: Image, e: Image, name: seq<Byte>, size: nat)
    requires Sound(d) && size <= MaxFileSize && CanCreate(d, name, size) && Created(d, e, name, size)
    ensures Formatted(e) && EntriesOnDisk(e)
    ensures Catalog(e) == Catalog(d)[FreeSlot(Dir(d)) := NewFile(d, e, name)]
    ensures forall i :: 0 <= i < NumDirEntries && Catalog(d)[i].File? ==>
                          && WellFormed(Catalog(d)[i].hdr)
                          && FileBytes(e, Catalog(d)[i].hdr) == FileBytes(d, Catalog(d)[i].hdr)
  {
    var sector := LeastClear(FreeMap(d), NumSectors);
    LeastClearIsLeast(FreeMap(d), NumSectors);
    CreateEntry(d, e, name, size);
    forall i | 0 <= i < NumDirEntries && Catalog(d)[i].File?
      ensures WellFormed(Catalog(d)[i].hdr)
      ensures HeaderOf(e[Catalog(d)[i].sector]) == Catalog(d)[i].hdr
      ensures FileBytes(e, Catalog(d)[i].hdr) == FileBytes(d, Catalog(d)[i].hdr)
    {
      UntouchedFile(d, e, i, sector);
    }
    SlotsAgree(d, e, FreeSlot(Dir(d)));
  }

  /** Slots whose entry and header are the same hold the same file. */
  lemma SlotsAgree(d: Image, e: Image, slot: nat)
    requires EntriesOnDisk(d) && EntriesOnDisk(e) && slot < NumDirEntries
    requires forall i :: 0 <= i < NumDirEntries && i != slot ==> Dir(e)[i] == Dir(d)[i]
    requires forall i :: 0 <= i < NumDirEntries && i != slot && Catalog(d)[i].File? ==> HeaderOf(e[Catalog(d)[i].sector]) == Catalog(d)[i].hdr
    ensures Catalog(e) == Catalog(d)[slot := SlotOf(e, Dir(e)[slot])]
  {
  }

  lemma KeyAbsent(d: Image, k: seq<Byte>)
    requires EntriesOnDisk(d)
    ensures Lookup(Dir(d), k) == NumDirEntries <==> forall i :: 0 <= i < NumDirEntries && Catalog(d)[i].File? ==> Catalog(d)[i].key != k
  {
    var i := Lookup(Dir(d), k);
    if i < NumDirEntries {
      assert Catalog(d)[i] == SlotOf(d, Dir(d)[i]);
    }
  }

  /** A successful Create keeps the disk sound. */
  lemma CreateKeepsSound(d: Image, e: Image, name: seq<Byte>, size: nat, ok: bool)
    requires Sound(d) && SizeOk(d, size) && CreateEffect(d, e, name, size, ok)
    ensures Sound(e)
  {
    if ok {
      CreateCatalog(d, e, name, size);
      CreateNewFile(d, e, name, size);
      KeyAbsent(d, Key(name));
      AddFile(Catalog(d), FreeMap(d), FreeSlot(Dir(d)), NewFile(d, e, name));
    }
  }

  /** Remove changes one slot of the catalog. */
  lemma RemoveCatalog(d: Image, e: Image, slot: nat)
    requires Sound(d) && slot < NumDirEntries && Dir(d)[slot].inUse && Removed(d, e, slot)
    ensures Formatted(e) && EntriesOnDisk(e)
    ensures Catalog(e) == Catalog(d)[slot := Free]
    ensures forall i :: 0 <= i < NumDirEntries && Catalog(d)[i].File? ==>
                          && WellFormed(Catalog(d)[i].hdr)
                          && FileBytes(e, Catalog(d)[i].hdr) == FileBytes(d, Catalog(d)[i].hdr)
  {
  }

  lemma RemoveKeepsSound(d: Image, e: Image, name: seq<Byte>, ok: bool)
    requires Sound(d) && RemoveEffect(d, e, name, ok)
    ensures Sound(e)
  {
    if ok {
      var slot := Lookup(Dir(d), Key(name));
      RemoveCatalog(d, e, slot);
      DropFile(Catalog(d), FreeMap(d), slot);
    }
  }

  lemma WroteOutside(d: Image, e: Image, h: Header, position: nat, data: seq<Byte>, t: nat)
    requires IsImage(d) && WellFormed(h) && Wrote(d, e, h, position, data)
    requires t < NumSectors && t !in Elems(Data(h))
    ensures e[t] == d[t]
  {
  }

  /** Writing to file `i` keeps the header of every file, and the bytes of every other one. */
  lemma WriteKeepsFile(d: Image, e: Image, i: nat, j: nat, position: nat, data: seq<Byte>)
    requires Sound(d) && i < NumDirEntries && j < NumDirEntries && Catalog(d)[i].File? && Catalog(d)[j].File?
    requires WellFormed(Catalog(d)[i].hdr) && Wrote(d, e, Catalog(d)[i].hdr, position, data)
    ensures WellFormed(Catalog(d)[j].hdr) && HeaderOf(e[Catalog(d)[j].sector]) == Catalog(d)[j].hdr
    ensures j != i ==> FileBytes(e, Catalog(d)[j].hdr) == FileBytes(d, Catalog(d)[j].hdr)
  {
    var cat := Catalog(d);
    assert Proper(cat[i]) && Proper(cat[j]);
    if j == i {
      WroteOutside(d, e, cat[i].hdr, position, data, cat[i].sector);
    } else {
      assert Owned(cat[i]) !! Owned(cat[j]) by {
        assert Owned(cat[if i < j then i else j]) !! Owned(cat[if i < j then j else i]);
      }
      forall t | t in Owned(cat[j]) ensures e[t] == d[t] {
        assert t !in Owned(cat[i]);
        WroteOutside(d, e, cat[i].hdr, position, data, t);
      }
      SameFile(d, e, cat[j]);
    }
  }

  /** It keeps the reserved sectors. */
  lemma WriteKeepsReserved(d: Image, e: Image, i: nat, position: nat, data: seq<Byte>)
    requires Sound(d) && i < NumDirEntries && Catalog(d)[i].File?
    requires WellFormed(Catalog(d)[i].hdr) && Wrote(d, e, Catalog(d)[i].hdr, position, data)
    ensures Formatted(e) && Dir(e) == Dir(d) && FreeMap(e) == FreeMap(d)
  {
  }

  /** Writing to one file leaves the catalog and all other files alone. */
  lemma WriteFrame(d: Image, e: Image, i: nat, position: nat, data: seq<Byte>)
    requires Sound(d) && i < NumDirEntries && Catalog(d)[i].File?
    requires WellFormed(Catalog(d)[i].hdr) && Wrote(d, e, Catalog(d)[i].hdr, position, data)
    ensures Sound(e) && Catalog(e) == Catalog(d)
  {
    WriteKeepsReserved(d, e, i, position, data);
    forall j | 0 <= j < NumDirEntries ensures SlotOf(e, Dir(e)[j]) == Catalog(d)[j] {
      assert Catalog(d)[j] == SlotOf(d, Dir(d)[j]);
      if Catalog(d)[j].File? {
        WriteKeepsFile(d, e, i, j, position, data);
      }
    }
    assert Catalog(e) == Catalog(d);
  }

  lemma {:induction false} SameLookup(t: seq<DirectoryEntry>, u: seq<DirectoryEntry>, k: seq<Byte>)
    requires |t| == |u| && forall i :: 0 <= i < |t| ==> t[i] == u[i] || (!t[i].inUse && !u[i].inUse)
    ensures Lookup(t, k) == Lookup(u, k)
  {
  }

  /** Create followed by Remove of the same name restores the free map and every lookup. */
  lemma CreateThenRemove(d: Image, e: Image, g: Image, name: seq<Byte>, size: nat, removed: bool)
    requires Sound(d) && SizeOk(d, size) && CreateEffect(d, e, name, size, true)
    requires EntriesOnDisk(e) && RemoveEffect(e, g, name, removed)
    ensures removed
    ensures FreeMap(g) == FreeMap(d)
    ensures forall k :: Lookup(Dir(g), k) == Lookup(Dir(d), k)
    ensures forall i :: 0 <= i < NumDirEntries && Dir(d)[i].inUse ==> Dir(g)[i] == Dir(d)[i]
  {
    var slot, sector := FreeSlot(Dir(d)), LeastClear(FreeMap(d), NumSectors);
    EnteredLookup(Dir(d), name, sector);
    assert FreeMap(g) == FreeMap(d) by {
      CreateNewFile(d, e, name, size);
      CreateCatalog(d, e, name, size);
    }
    ClearEntered(Dir(d), Dir(g), name, sector);
  }

  lemma ClearEntered(t: seq<DirectoryEntry>, u: seq<DirectoryEntry>, name: seq<Byte>, sector: Int32)
    requires FreeSlot(t) < |t|
    requires var v, slot := Entered(t, name, sector), FreeSlot(t); u == v[slot := v[slot].(inUse := false)]
    ensures forall k :: Lookup(u, k) == Lookup(t, k)
    ensures forall i :: 0 <= i < |t| && t[i].inUse ==> u[i] == t[i]
  {
    forall k ensures Lookup(u, k) == Lookup(t, k) {
      SameLookup(u, t, k);
    }
  }

  lemma EnteredLookup(t: seq<DirectoryEntry>, name: seq<Byte>, sector: Int32)
    requires FreeSlot(t) < |t| && Lookup(t, Key(name)) == |t|
    ensures Lookup(Entered(t, name, sector), Key(name)) == FreeSlot(t)
  {
    StoredNameKey(t[FreeSlot(t)].name, name);
    var u := Entered(t, name, sector);
    assert u[FreeSlot(t)].inUse && Key(u[FreeSlot(t)].name) == Key(name);
  }
}
