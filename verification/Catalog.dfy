/** The catalog of files that a disk holds, and the ownership of sectors. */
module Catalogs {
  import opened Sequences
  import opened Bytes
  import opened SynchDisks
  import opened BitMaps
  import opened FileHeaders
  import opened OpenFiles
  import opened Directories
  import opened DiskLayouts

  /** A directory entry together with the header that it leads to. */
  datatype Slot = Free | File(key: seq<Byte>, sector: int, hdr: Header)

  /** Sectors 0 and 1 hold the headers of the free map and of the directory, 2 and 3 their data. */
  const Reserved: set<int> := {FreeMapSector, DirectorySector, MapData, DirData}

  ghost predicate Proper(f: Slot) {
    f.File? ==>
      && WellFormed(f.hdr)
      && 0 <= f.sector < NumSectors
      && f.sector !in Reserved
      && f.sector !in Data(f.hdr)
      && forall i :: 0 <= i < f.hdr.numSectors ==> Data(f.hdr)[i] !in Reserved
  }

  /** The sectors of a file: its header and its data. */
  ghost function Owned(f: Slot): set<int>
    requires Proper(f)
  {
    if f.Free? then {} else {f.sector} + Elems(Data(f.hdr))
  }

  ghost function AllOwned(cat: seq<Slot>): set<int>
    requires forall i :: 0 <= i < |cat| ==> Proper(cat[i])
  {
    if cat == [] then {} else AllOwned(cat[..|cat| - 1]) + Owned(cat[|cat| - 1])
  }

  /** How many sectors the files of a catalog take. */
  ghost function Used(cat: seq<Slot>): int {
    if cat == [] then 0
    else Used(cat[..|cat| - 1]) + if cat[|cat| - 1].Free? then 0 else 1 + cat[|cat| - 1].hdr.numSectors
  }

  /** No sector belongs to two files and no two files have the same name. */
  ghost predicate Separate(cat: seq<Slot>)
    requires forall i :: 0 <= i < |cat| ==> Proper(cat[i])
  {
    forall i, j :: 0 <= i < j < |cat| && cat[i].File? && cat[j].File? ==>
                     Owned(cat[i]) !! Owned(cat[j]) && cat[i].key != cat[j].key
  }

  /** A sector is marked exactly when it is reserved or belongs to a listed file. */
  ghost predicate Coherent(cat: seq<Slot>, marked: set<int>) {
    && (forall i :: 0 <= i < |cat| ==> Proper(cat[i]))
    && Separate(cat)
    && marked == Reserved + AllOwned(cat)
  }

  lemma {:induction false} InAllOwned(cat: seq<Slot>, s: int)
    requires forall i :: 0 <= i < |cat| ==> Proper(cat[i])
    ensures s in AllOwned(cat) <==> exists i :: 0 <= i < |cat| && s in Owned(cat[i])
  {
    if cat != [] {
      InAllOwned(cat[..|cat| - 1], s);
      if i :| 0 <= i < |cat| && s in Owned(cat[i]) {
        assert i < |cat| - 1 ==> s in Owned(cat[..|cat| - 1][i]);
      }
    }
  }

  lemma OwnedSize(f: Slot)
    requires Proper(f) && f.File?
    ensures |Owned(f)| == 1 + f.hdr.numSectors
  {
    DistinctSize(Data(f.hdr));
  }

  lemma {:induction false} DistinctSize(s: seq<int>)
    requires Distinct(s)
    ensures |Elems(s)| == |s|
  {
    if s != [] {
      var t := s[..|s| - 1];
      DistinctSize(t);
      assert Elems(s) == Elems(t) + {s[|s| - 1]};
      assert s[|s| - 1] !in t;
    }
  }

  /** The number of marked sectors, counted by files. */
  lemma {:induction false} AllOwnedSize(cat: seq<Slot>)
    requires forall i :: 0 <= i < |cat| ==> Proper(cat[i])
    requires Separate(cat)
    ensures |AllOwned(cat)| == Used(cat)
  {
    if cat != [] {
      var rest, last := cat[..|cat| - 1], cat[|cat| - 1];
      AllOwnedSize(rest);
      if last.File? {
        OwnedSize(last);
        forall s | s in Owned(last) ensures s !in AllOwned(rest) {
          InAllOwned(rest, s);
        }
      }
    }
  }

  /** What is free is what the files and the four reserved sectors leave. */
  lemma FreeSectors(cat: seq<Slot>, marked: set<int>)
    requires Coherent(cat, marked)
    ensures |Complement(marked, NumSectors)| == NumSectors - 4 - Used(cat)
  {
    AllOwnedSize(cat);
    var owned := AllOwned(cat);
    forall s | s in owned ensures s !in Reserved && 0 <= s < NumSectors {
      OwnedInRange(cat, s);
    }
    DisjointSize(Reserved, owned);
    ComplementSize(marked, NumSectors);
  }

  lemma OwnedInRange(cat: seq<Slot>, s: int)
    requires forall i :: 0 <= i < |cat| ==> Proper(cat[i])
    requires s in AllOwned(cat)
    ensures s !in Reserved && 0 <= s < NumSectors
  {
  }

  lemma DisjointSize(a: set<int>, b: set<int>)
    requires a !! b
    ensures |a + b| == |a| + |b|
  {
  }

  lemma ComplementSize(s: set<int>, n: nat)
    requires forall x :: x in s ==> 0 <= x < n
    ensures |Complement(s, n)| == n - |s|
  {
    FullSize(n);
    DisjointSize(Complement(s, n), s);
    assert Complement(s, n) + s == Complement({}, n);
  }

  lemma {:induction false} FullSize(n: nat)
    ensures |Complement({}, n)| == n
  {
    if n > 0 {
      FullSize(n - 1);
      ComplementStep({}, n - 1);
    }
  }

  /** A new file in a free slot, made of unmarked sectors, keeps the catalog coherent. */
  lemma AddFile(cat: seq<Slot>, marked: set<int>, i: nat, f: Slot)
    requires Coherent(cat, marked) && i < |cat| && cat[i].Free?
    requires f.File? && Proper(f) && Owned(f) !! marked
    requires forall j :: 0 <= j < |cat| && cat[j].File? ==> cat[j].key != f.key
    ensures Coherent(cat[i := f], marked + Owned(f))
  {
    var after := cat[i := f];
    forall s ensures s in AllOwned(after) <==> s in AllOwned(cat) + Owned(f) {
      InAllOwned(cat, s);
      InAllOwned(after, s);
      assert forall j :: 0 <= j < |cat| && s in Owned(cat[j]) ==> s in Owned(after[j]);
      assert s in Owned(f) ==> s in Owned(after[i]);
    }
    forall j | 0 <= j < |cat| && cat[j].File? ensures Owned(cat[j]) !! Owned(f) {
      forall s | s in Owned(cat[j]) ensures s in marked {
        InAllOwned(cat, s);
      }
    }
  }

  /** Dropping a file releases exactly its own sectors. */
  lemma DropFile(cat: seq<Slot>, marked: set<int>, i: nat)
    requires Coherent(cat, marked) && i < |cat| && cat[i].File?
    ensures Owned(cat[i]) <= marked
    ensures Coherent(cat[i := Free], marked - Owned(cat[i]))
  {
    forall s | s in Owned(cat[i]) ensures s in marked {
      InAllOwned(cat, s);
    }
    var after := cat[i := Free];
    forall s ensures s in AllOwned(after) <==> s in AllOwned(cat) - Owned(cat[i]) {
      DropOwned(cat, i, s);
    }
  }

  lemma DropOwned(cat: seq<Slot>, i: nat, s: int)
    requires (forall j :: 0 <= j < |cat| ==> Proper(cat[j])) && Separate(cat)
    requires i < |cat| && cat[i].File?
    ensures s in AllOwned(cat[i := Free]) <==> s in AllOwned(cat) && s !in Owned(cat[i])
  {
    var after := cat[i := Free];
    InAllOwned(cat, s);
    InAllOwned(after, s);
    if j :| 0 <= j < |cat| && s in Owned(after[j]) {
      assert j != i && s in Owned(cat[j]) && cat[j].File?;
      assert Owned(cat[if i < j then i else j]) !! Owned(cat[if i < j then j else i]);
    }
    if j :| 0 <= j < |cat| && j != i && s in Owned(cat[j]) {
      assert s in Owned(after[j]);
    }
  }

  ghost predicate EntriesOnDisk(d: Image) {
    IsImage(d) && forall i :: 0 <= i < NumDirEntries && Dir(d)[i].inUse ==> 0 <= Dir(d)[i].sector < NumSectors
  }

  ghost function SlotOf(d: Image, e: DirectoryEntry): Slot
    requires IsImage(d) && (e.inUse ==> 0 <= e.sector < NumSectors)
  {
    if e.inUse then File(Key(e.name), e.sector, HeaderOf(d[e.sector])) else Free
  }

  /** The files on a disk, slot by slot. */
  ghost function Catalog(d: Image): (cat: seq<Slot>)
    requires EntriesOnDisk(d)
    ensures |cat| == NumDirEntries
  {
    seq(NumDirEntries, i requires 0 <= i < NumDirEntries => SlotOf(d, Dir(d)[i]))
  }

  /** The invariant of the file system. */
  ghost predicate Sound(d: Image) {
    Formatted(d) && EntriesOnDisk(d) && Coherent(Catalog(d), FreeMap(d))
  }
}
