/** The file system operations, each proved to have its effect on the sectors of the disk. */
module FileSystems {
  import opened Bytes
  import opened SynchDisks
  import opened BitMaps
  import opened FileHeaders
  import opened OpenFiles
  import opened Directories
  import opened DiskLayouts
  import opened Catalogs

  /** A size that the table of a header can hold, or for which there are not enough clear sectors anyway. */
  ghost predicate SizeOk(d: Image, size: nat)
    requires IsImage(d)
  {
    size < 0x8000_0000 && (size <= MaxFileSize || 1 + DivRoundUp(size, SectorSize) > |Complement(FreeMap(d), NumSectors)|)
  }

  /** The three conditions for creating a file. */
  ghost predicate CanCreate(d: Image, name: seq<Byte>, size: nat)
    requires IsImage(d)
  {
    && Lookup(Dir(d), Key(name)) == NumDirEntries
    && FreeSlot(Dir(d)) < NumDirEntries
    && 1 + DivRoundUp(size, SectorSize) <= |Complement(FreeMap(d), NumSectors)|
  }

  /** What a successful Create changes: one header sector, one directory entry, and the marks of
      the first clear sectors.  The contents of the data sectors stay what they were. */
  ghost predicate Created(d: Image, e: Image, name: seq<Byte>, size: nat)
    requires IsImage(d) && CanCreate(d, name, size)
  {
    var sector := LeastClear(FreeMap(d), NumSectors);
    && IsImage(e)
    && sector < NumSectors
    && (forall t :: 0 <= t < NumSectors && t != sector && t != DirData && t != MapData ==> e[t] == d[t])
    && var h := HeaderOf(e[sector]);
    && h.numBytes == size && h.numSectors == DivRoundUp(size, SectorSize) <= NumDirect
    && Yields(FreeMap(d) + {sector}, Data(h))
    && Dir(e) == Entered(Dir(d), name, sector)
    && FreeMap(e) == FreeMap(d) + {sector} + Elems(Data(h))
  }

  ghost predicate CreateEffect(d: Image, e: Image, name: seq<Byte>, size: nat, ok: bool)
    requires IsImage(d)
  {
    ok == CanCreate(d, name, size) && if ok then Created(d, e, name, size) else e == d
  }

  /** What a successful Remove changes: the entry is no longer in use and the file's sectors are unmarked. */
  ghost predicate Removed(d: Image, e: Image, slot: nat)
    requires EntriesOnDisk(d) && slot < NumDirEntries
  {
    var f := Catalog(d)[slot];
    && IsImage(e)
    && (forall t :: 0 <= t < NumSectors && t != DirData && t != MapData ==> e[t] == d[t])
    && Dir(e) == Dir(d)[slot := Dir(d)[slot].(inUse := false)]
    && Proper(f)
    && FreeMap(e) == FreeMap(d) - Owned(f)
  }

  ghost predicate RemoveEffect(d: Image, e: Image, name: seq<Byte>, ok: bool)
    requires EntriesOnDisk(d)
  {
    var slot := Lookup(Dir(d), Key(name));
    ok == (slot < NumDirEntries) && if ok then Removed(d, e, slot) else e == d
  }

  /** A name can be entered if it is new, there is a clear sector and there is a free entry. */
  ghost predicate CanEnter(t: seq<DirectoryEntry>, marked: set<int>, name: seq<Byte>) {
    Lookup(t, Key(name)) == |t| && LeastClear(marked, NumSectors) < NumSectors && FreeSlot(t) < |t|
  }

  ghost function Entered(t: seq<DirectoryEntry>, name: seq<Byte>, sector: Int32): seq<DirectoryEntry>
    requires FreeSlot(t) < |t|
  {
    t[FreeSlot(t) := DirectoryEntry(true, sector, Strncpy(t[FreeSlot(t)].name, name))]
  }

  /** Between `d` and `e` only the header sector, the directory and the free map changed, to these values. */
  ghost predicate Committed(d: Image, e: Image, sector: int, h: Header, t: seq<DirectoryEntry>, marked: set<int>) {
    && IsImage(d) && IsImage(e) && 0 <= sector < NumSectors
    && (forall t :: 0 <= t < NumSectors && t != sector && t != DirData && t != MapData ==> e[t] == d[t])
    && HeaderOf(e[sector]) == h && Dir(e) == t && FreeMap(e) == marked
  }

  lemma CommitIsCreated(d: Image, e: Image, name: seq<Byte>, size: nat, sector: int, h: Header)
    requires IsImage(d) && CanEnter(Dir(d), FreeMap(d), name) && size <= MaxFileSize
    requires sector == LeastClear(FreeMap(d), NumSectors)
    requires AllocatedFor(h, size, FreeMap(d) + {sector})
    requires Committed(d, e, sector, h, Entered(Dir(d), name, sector), FreeMap(d) + {sector} + Elems(Data(h)))
    ensures CreateEffect(d, e, name, size, true)
  {
    SomeClear(FreeMap(d));
    FirstFitYields(FreeMap(d) + {sector}, h.numSectors);
  }

  /** What Allocate makes of a header. */
  ghost predicate AllocatedFor(h: Header, size: nat, marked: set<int>) {
    && h.numBytes == size && h.numSectors == DivRoundUp(size, SectorSize) && Fits(h)
    && h.numSectors <= |Complement(marked, NumSectors)| && Data(h) == FirstFit(marked, NumSectors, h.numSectors)
  }

  lemma NoneClear(marked: set<int>)
    ensures LeastClear(marked, NumSectors) == NumSectors ==> |Complement(marked, NumSectors)| == 0
  {
  }

  lemma SomeClear(marked: set<int>)
    requires LeastClear(marked, NumSectors) < NumSectors
    ensures |Complement(marked + {LeastClear(marked, NumSectors)}, NumSectors)| == |Complement(marked, NumSectors)| - 1
  {
    LeastClearIsLeast(marked, NumSectors);
    assert LeastClear(marked, NumSectors) in Complement(marked, NumSectors);
    TakeLeast(marked, NumSectors);
  }

  lemma ReservedMarked(d: Image)
    requires Sound(d) && LeastClear(FreeMap(d), NumSectors) < NumSectors
    ensures LeastClear(FreeMap(d), NumSectors) !in Reserved
  {
  }

  lemma FileIsMarked(d: Image, slot: nat)
    requires Sound(d) && slot < NumDirEntries && Dir(d)[slot].inUse
    ensures Proper(Catalog(d)[slot]) && Owned(Catalog(d)[slot]) <= FreeMap(d)
  {
    DropFile(Catalog(d), FreeMap(d), slot);
  }

  /** A freshly formatted disk. */
  ghost predicate Empty(d: Image) {
    Formatted(d) && FreeMap(d) == Reserved && forall i :: 0 <= i < NumDirEntries ==> !Dir(d)[i].inUse
  }

  /** Between `d` and `e` only the directory and the free map changed, to these values. */
  ghost predicate Flushed(d: Image, e: Image, t: seq<DirectoryEntry>, marked: set<int>) {
    && IsImage(d) && IsImage(e)
    && (forall t :: 0 <= t < NumSectors && t != DirData && t != MapData ==> e[t] == d[t])
    && Dir(e) == t && FreeMap(e) == marked
  }

  /** First fit of one sector when exactly the first `n` are taken. */
  lemma FirstClear(marked: set<int>, n: nat)
    requires n < NumSectors && forall x :: x in marked <==> 0 <= x < n
    ensures 1 <= |Complement(marked, NumSectors)| && FirstFit(marked, NumSectors, 1) == [n]
  {
    LeastClearIsLeast(marked, NumSectors);
    assert n in Complement(marked, NumSectors);
    assert LeastClear(marked, NumSectors) == n;
    assert FirstFit(marked + {n}, NumSectors, 0) == [];
  }

  lemma OneSector(size: nat)
    requires 0 < size <= SectorSize
    ensures DivRoundUp(size, SectorSize) == 1
  {
  }

  lemma OneSectorHeader(h: Header, n: nat)
    requires 0 < h.numBytes <= SectorSize && h.numSectors == 1 && Fits(h) && Data(h) == [n] && n < NumSectors
    ensures WellFormed(h) && h.dataSectors[0] == n && Elems(Data(h)) == {n}
  {
  }

  lemma EmptyIsSound(d: Image)
    requires Empty(d)
    ensures Sound(d)
  {
    forall s ensures s !in AllOwned(Catalog(d)) {
      InAllOwned(Catalog(d), s);
    }
  }

  class FileSystem {
    const disk: SynchDisk
    const freeMapFile: OpenFile
    const directoryFile: OpenFile

    /** The free map and the directory are open. */
    ghost predicate FilesOpen()
      reads disk, disk.sectors, freeMapFile.hdr, freeMapFile.hdr.dataSectors,
            directoryFile.hdr, directoryFile.hdr.dataSectors
    {
      && disk.Valid()
      && freeMapFile.disk == disk && freeMapFile.hdr.Valid() && MapHeader(freeMapFile.hdr.View())
      && directoryFile.disk == disk && directoryFile.hdr.Valid() && DirHeader(directoryFile.hdr.View())
    }

    ghost predicate Valid()
      reads disk, disk.sectors, freeMapFile.hdr, freeMapFile.hdr.dataSectors,
            directoryFile.hdr, directoryFile.hdr.dataSectors
    {
      FilesOpen() && Sound(disk.Contents())
    }

    /** Open the two files of a disk that was formatted before. */
    constructor Mount(disk: SynchDisk)
      requires disk.Valid() && Formatted(disk.Contents())
      ensures FilesOpen() && this.disk == disk && (Sound(disk.Contents()) ==> Valid())
    {
      this.disk := disk;
      freeMapFile := new OpenFile(disk, FreeMapSector);
      directoryFile := new OpenFile(disk, DirectorySector);
    }

    /** Make an empty file system on a disk with arbitrary contents. */
    constructor Format(disk: SynchDisk)
      requires disk.Valid()
      modifies disk.sectors
      ensures Valid() && this.disk == disk
      ensures Empty(disk.Contents())
    {
      var freeMap := WriteHeaders(disk);
      var directory := new Directory(NumDirEntries);
      this.disk := disk;
      freeMapFile := new OpenFile(disk, FreeMapSector);
      directoryFile := new OpenFile(disk, DirectorySector);
      new;
      Flush(directory, freeMap);
      EmptyIsSound(disk.Contents());
    }

    /** The first part of formatting: allocate the free map and the directory, and write their headers. */
    static method WriteHeaders(disk: SynchDisk) returns (freeMap: BitMap)
      requires disk.Valid()
      modifies disk.sectors
      ensures disk.Valid() && Formatted(disk.Contents())
      ensures freeMap.Valid() && freeMap.numBits == NumSectors && freeMap.Marked() == Reserved
      ensures fresh(freeMap) && fresh(freeMap.words)
    {
      freeMap := new BitMap(NumSectors);
      freeMap.Mark(FreeMapSector);
      freeMap.Mark(DirectorySector);
      assert freeMap.Marked() == {0, 1};
      var mapHdr := AllocateOne(freeMap, FreeMapFileSize, MapData);
      assert freeMap.Marked() == {0, 1, 2};
      var dirHdr := AllocateOne(freeMap, DirectoryFileSize, DirData);
      mapHdr.WriteBack(disk, FreeMapSector);
      dirHdr.WriteBack(disk, DirectorySector);
    }

    /** Allocate a file of one sector on a disk where the sectors below `n` are taken;
        the ASSERT that there is enough space holds. */
    static method AllocateOne(freeMap: BitMap, fileSize: nat, ghost n: nat) returns (hdr: FileHeader)
      requires freeMap.Valid() && freeMap.numBits == NumSectors && 0 < fileSize <= SectorSize
      requires n < NumSectors && forall x :: x in freeMap.Marked() <==> 0 <= x < n
      modifies freeMap.words
      ensures hdr.Valid() && fresh(hdr) && fresh(hdr.dataSectors)
      ensures WellFormed(hdr.View())
      ensures hdr.numBytes == fileSize && hdr.dataSectors[0] == n
      ensures freeMap.Marked() == old(freeMap.Marked()) + {n}
    {
      FirstClear(freeMap.Marked(), n);
      OneSector(fileSize);
      hdr := new FileHeader();
      var ok := hdr.Allocate(freeMap, fileSize);
      assert ok;
      OneSectorHeader(hdr.View(), n);
    }

    /** Write the free map and the directory back. */
    method Flush(directory: Directory, freeMap: BitMap)
      requires FilesOpen() && directory.table.Length == NumDirEntries && freeMap.Valid() && freeMap.numBits == NumSectors
      modifies disk.sectors
      ensures FilesOpen()
      ensures Flushed(old(disk.Contents()), disk.Contents(), old(directory.table[..]), old(freeMap.Marked()))
    {
      WriteBitMap(freeMap, freeMapFile);
      WriteDirectory(directory, directoryFile);
    }

    method Create(name: seq<Byte>, initialSize: nat) returns (success: bool)
      requires Valid() && SizeOk(disk.Contents(), initialSize)
      modifies disk.sectors
      ensures FilesOpen()
      ensures CreateEffect(old(disk.Contents()), disk.Contents(), name, initialSize, success)
    {
      ghost var d := disk.Contents();
      var sector, directory, freeMap;
      success, sector, directory, freeMap := Enter(name);
      if !success {
        NoneClear(FreeMap(d));
        return;
      }
      SomeClear(FreeMap(d));
      ReservedMarked(d);
      success := AllocateData(name, initialSize, sector, directory, freeMap, d);
    }

    /** The last part of Create: take data sectors and flush everything. */
    method AllocateData(name: seq<Byte>, initialSize: nat, sector: nat, directory: Directory, freeMap: BitMap, ghost d: Image)
      returns (success: bool)
      requires FilesOpen() && d == disk.Contents() && Manageable(initialSize, |Complement(FreeMap(d) + {sector}, NumSectors)|)
      requires CanEnter(Dir(d), FreeMap(d), name) && sector == LeastClear(FreeMap(d), NumSectors) && sector !in Reserved
      requires directory.table.Length == NumDirEntries && directory.table[..] == Entered(Dir(d), name, sector)
      requires freeMap.Valid() && freeMap.numBits == NumSectors && freeMap.Marked() == FreeMap(d) + {sector}
      modifies disk.sectors, freeMap.words
      ensures FilesOpen()
      ensures success <==> DivRoundUp(initialSize, SectorSize) <= |Complement(FreeMap(d) + {sector}, NumSectors)|
      ensures if success then CreateEffect(d, disk.Contents(), name, initialSize, true) else disk.Contents() == d
    {
      assert (freeMap.words as object) != disk.sectors && (freeMap.words as object) != directory.table;
      var hdr;
      success, hdr := AllocateHeader(freeMap, initialSize);
      if success {
        CommitFile(name, initialSize, hdr, sector, directory, freeMap, d);
      }
    }

    static method AllocateHeader(freeMap: BitMap, size: nat) returns (success: bool, hdr: FileHeader)
      requires freeMap.Valid() && freeMap.numBits == NumSectors
      requires Manageable(size, |Complement(freeMap.Marked(), NumSectors)|)
      modifies freeMap.words
      ensures hdr.Valid() && fresh(hdr) && fresh(hdr.dataSectors)
      ensures success <==> DivRoundUp(size, SectorSize) <= |Complement(old(freeMap.Marked()), NumSectors)|
      ensures success ==> AllocatedFor(hdr.View(), size, old(freeMap.Marked()))
      ensures success ==> freeMap.Marked() == old(freeMap.Marked()) + Elems(Data(hdr.View()))
    {
      hdr := new FileHeader();
      success := hdr.Allocate(freeMap, size);
    }

    method CommitFile(ghost name: seq<Byte>, ghost size: nat, hdr: FileHeader, sector: nat, directory: Directory, freeMap: BitMap, ghost d: Image)
      requires FilesOpen() && d == disk.Contents() && size <= MaxFileSize && hdr.Valid()
      requires CanEnter(Dir(d), FreeMap(d), name) && sector == LeastClear(FreeMap(d), NumSectors) && sector !in Reserved
      requires directory.table.Length == NumDirEntries && directory.table[..] == Entered(Dir(d), name, sector)
      requires freeMap.Valid() && freeMap.numBits == NumSectors
      requires AllocatedFor(hdr.View(), size, FreeMap(d) + {sector}) && freeMap.Marked() == FreeMap(d) + {sector} + Elems(Data(hdr.View()))
      modifies disk.sectors
      ensures FilesOpen() && CreateEffect(d, disk.Contents(), name, size, true)
    {
      ghost var h := hdr.View();
      Commit(hdr, sector, directory, freeMap);
      CommitIsCreated(d, disk.Contents(), name, size, sector, h);
    }

    /** The first part of Create: find a header sector and enter the name, in copies of the free map
        and of the directory. */
    method Enter(name: seq<Byte>)
      returns (success: bool, sector: int, directory: Directory, freeMap: BitMap)
      requires FilesOpen() && EntriesOnDisk(disk.Contents())
      ensures directory.table.Length == NumDirEntries && freeMap.Valid() && freeMap.numBits == NumSectors
      ensures fresh(directory.table) && fresh(freeMap.words)
      ensures success <==> CanEnter(Dir(disk.Contents()), FreeMap(disk.Contents()), name)
      ensures success ==> sector == LeastClear(FreeMap(disk.Contents()), NumSectors) < NumSectors
      ensures success ==> directory.table[..] == Entered(Dir(disk.Contents()), name, sector)
      ensures success ==> freeMap.Marked() == FreeMap(disk.Contents()) + {sector}
    {
      ghost var t, m := Dir(disk.Contents()), FreeMap(disk.Contents());
      freeMap := new BitMap(NumSectors);
      sector := -1;
      directory := new Directory(NumDirEntries);
      FetchDirectory(directory, directoryFile);
      var found := directory.Find(name);
      if found != -1 {
        return false, sector, directory, freeMap;
      }
      FetchBitMap(freeMap, freeMapFile);
      sector := freeMap.Find();
      if sector == -1 {
        return false, sector, directory, freeMap;
      }
      assert (directory.table as object) != freeMap.words;
      success := directory.Add(name, sector);
    }

    /** Flush a new header and the changed directory and free map to disk. */
    method Commit(hdr: FileHeader, sector: nat, directory: Directory, freeMap: BitMap)
      requires FilesOpen() && hdr.Valid() && directory.table.Length == NumDirEntries
      requires freeMap.Valid() && freeMap.numBits == NumSectors
      requires sector < NumSectors && sector != DirData && sector != MapData
      modifies disk.sectors
      ensures FilesOpen()
      ensures Committed(old(disk.Contents()), disk.Contents(), sector, old(hdr.View()),
                        old(directory.table[..]), old(freeMap.Marked()))
    {
      hdr.WriteBack(disk, sector);
      WriteDirectory(directory, directoryFile);
      WriteBitMap(freeMap, freeMapFile);
    }

    method Open(name: seq<Byte>) returns (file: OpenFile?)
      requires Valid()
      ensures var slot := Lookup(Dir(disk.Contents()), Key(name));
              && (file != null <==> slot < NumDirEntries)
              && (file != null ==>
                    && fresh(file) && fresh(file.hdr) && fresh(file.hdr.dataSectors)
                    && file.disk == disk && file.hdr.Valid() && file.seekPosition == 0
                    && file.hdr.View() == Catalog(disk.Contents())[slot].hdr)
    {
      var directory := new Directory(NumDirEntries);
      FetchDirectory(directory, directoryFile);
      var sector := directory.Find(name);
      file := null;
      if sector >= 0 {
        assert Proper(Catalog(disk.Contents())[Lookup(Dir(disk.Contents()), Key(name))]);
        file := new OpenFile(disk, sector);
      }
    }

    method Remove(name: seq<Byte>) returns (ok: bool)
      requires Valid()
      modifies disk.sectors
      ensures FilesOpen()
      ensures RemoveEffect(old(disk.Contents()), disk.Contents(), name, ok)
    {
      ghost var d := disk.Contents();
      var directory := new Directory(NumDirEntries);
      FetchDirectory(directory, directoryFile);
      var sector := directory.Find(name);
      if sector == -1 {
        return false;
      }
      ghost var slot := Lookup(Dir(d), Key(name));
      FileIsMarked(d, slot);
      var freeMap := ReleaseSectors(sector, d, slot);
      Drop(name, directory, freeMap, d, slot);
      return true;
    }

    /** The last part of Remove: the entry goes out of use, and everything is flushed. */
    method Drop(name: seq<Byte>, directory: Directory, freeMap: BitMap, ghost d: Image, ghost slot: nat)
      requires FilesOpen() && d == disk.Contents() && EntriesOnDisk(d) && slot == Lookup(Dir(d), Key(name)) < NumDirEntries
      requires Catalog(d)[slot].File? && Proper(Catalog(d)[slot])
      requires directory.table.Length == NumDirEntries && directory.table[..] == Dir(d)
      requires freeMap.Valid() && freeMap.numBits == NumSectors && freeMap.Marked() == FreeMap(d) - Owned(Catalog(d)[slot])
      modifies disk.sectors, directory.table
      ensures FilesOpen() && RemoveEffect(d, disk.Contents(), name, true)
    {
      assert (freeMap.words as object) != directory.table && (disk.sectors as object) != directory.table;
      var removed := directory.Remove(name);
      Flush(directory, freeMap);
    }

    /** The part of Remove that unmarks the file's sectors in a copy of the free map. */
    method ReleaseSectors(sector: nat, ghost d: Image, ghost slot: nat) returns (freeMap: BitMap)
      requires FilesOpen() && d == disk.Contents() && EntriesOnDisk(d) && slot < NumDirEntries
      requires Catalog(d)[slot].File? && Proper(Catalog(d)[slot]) && sector == Catalog(d)[slot].sector
      requires Owned(Catalog(d)[slot]) <= FreeMap(d)
      ensures freeMap.Valid() && freeMap.numBits == NumSectors && fresh(freeMap) && fresh(freeMap.words)
      ensures freeMap.Marked() == FreeMap(d) - Owned(Catalog(d)[slot])
    {
      var fileHdr := new FileHeader();
      fileHdr.FetchFrom(disk, sector);
      freeMap := new BitMap(NumSectors);
      FetchBitMap(freeMap, freeMapFile);
      ghost var h := fileHdr.View();
      fileHdr.Deallocate(freeMap);
      freeMap.Clear(sector);
    }
  }
}
