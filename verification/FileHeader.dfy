/** File headers (i-nodes): where on disk the data of a file is. */
module FileHeaders {
  import opened Sequences
  import opened Bytes
  import opened SynchDisks
  import opened BitMaps

  const NumDirect: nat := 62
  const MaxFileSize: nat := 15872

  /** The table of a header holds all sectors of such a file, or there are not enough clear ones for it anyway. */
  ghost predicate Manageable(fileSize: nat, clear: nat) {
    fileSize < 0x8000_0000 && (fileSize <= MaxFileSize || DivRoundUp(fileSize, SectorSize) > clear)
  }

  /** The fields of a header, as a value. */
  datatype Header = Header(numBytes: Int32, numSectors: Int32, dataSectors: seq<Int32>)

  /** The header stored in a sector, and the sector in which a header is stored. */
  function HeaderOf(s: seq<Byte>): (h: Header)
    requires |s| == SectorSize
    ensures |h.dataSectors| == NumDirect
  {
    Header(Signed(WordAt(s, 0)), Signed(WordAt(s, 1)), IntsFrom(s, 2))
  }

  /** The integers stored in `s` from word `k` on. */
  function IntsFrom(s: seq<Byte>, k: nat): (ints: seq<Int32>)
    requires 4 * k <= |s| && |s| % 4 == 0
    ensures |ints| == |s| / 4 - k
    decreases |s| - k
  {
    if 4 * k == |s| then [] else [Signed(WordAt(s, k))] + IntsFrom(s, k + 1)
  }

  lemma {:induction false} IntsFromAt(s: seq<Byte>, k: nat, i: nat)
    requires |s| % 4 == 0 && 4 * (k + i) < |s|
    ensures IntsFrom(s, k)[i] == Signed(WordAt(s, k + i))
    decreases i
  {
    if i > 0 {
      IntsFromAt(s, k + 1, i - 1);
    }
  }

  function SectorOf(h: Header): (s: seq<Byte>)
    requires |h.dataSectors| == NumDirect
    ensures |s| == SectorSize
  {
    EncodeWords([Unsigned(h.numBytes), Unsigned(h.numSectors)] + Words(h.dataSectors))
  }

  function Words(ints: seq<Int32>): (ws: seq<Word>)
    ensures |ws| == |ints|
  {
    seq(|ints|, k requires 0 <= k < |ints| => Unsigned(ints[k]))
  }

  lemma HeaderRoundTrip(h: Header)
    requires |h.dataSectors| == NumDirect
    ensures HeaderOf(SectorOf(h)) == h
  {
    var ws := [Unsigned(h.numBytes), Unsigned(h.numSectors)] + Words(h.dataSectors);
    WordRoundTrip(ws, EncodeWords(ws), 0);
    WordRoundTrip(ws, EncodeWords(ws), 1);
    IntsRoundTrip(h.dataSectors, ws, 2);
  }

  /** Where the fields of a header are stored, each in little-endian order: the length of the file from byte 0 on, the
      number of its sectors from byte 4 on, and its sector `i` from byte 8 + 4i on. */
  lemma HeaderLayout(h: Header, i: nat, j: nat)
    requires |h.dataSectors| == NumDirect && i < NumDirect && j < 4
    ensures SectorOf(h)[j] == Unsigned(h.numBytes) / Pow256(j) % 256
    ensures SectorOf(h)[4 + j] == Unsigned(h.numSectors) / Pow256(j) % 256
    ensures SectorOf(h)[8 + 4 * i + j] == Unsigned(h.dataSectors[i]) / Pow256(j) % 256
  {
    var ws := [Unsigned(h.numBytes), Unsigned(h.numSectors)] + Words(h.dataSectors);
    EncodedByte(ws, 0, j);
    EncodedByte(ws, 1, j);
    EncodedByte(ws, 2 + i, j);
    EncodedDigit(ws[0], j);
    EncodedDigit(ws[1], j);
    EncodedDigit(ws[2 + i], j);
  }

  lemma IntsRoundTrip(ints: seq<Int32>, ws: seq<Word>, k: nat)
    requires k <= |ws| && ws[k..] == Words(ints)
    ensures IntsFrom(EncodeWords(ws), k) == ints
  {
    var s := EncodeWords(ws);
    forall j: nat | j < |ws| ensures WordAt(s, j) == ws[j] {
      WordRoundTrip(ws, s, j);
    }
    IntsAre(s, ws, ints, k);
  }

  lemma {:induction false} IntsAre(s: seq<Byte>, ws: seq<Word>, ints: seq<Int32>, k: nat)
    requires |s| == 4 * |ws| && k <= |ws| && ws[k..] == Words(ints) && forall j: nat :: j < |ws| ==> WordAt(s, j) == ws[j]
    ensures IntsFrom(s, k) == ints
    decreases |ints|
  {
    if ints != [] {
      assert Words(ints)[1..] == Words(ints[1..]) && Words(ints)[0] == Unsigned(ints[0]);
      IntsAre(s, ws, ints[1..], k + 1);
    }
  }

  function Elems(s: seq<int>): set<int> {
    set x | x in s
  }

  lemma PrefixStep(s: seq<int>, i: nat)
    requires i < |s|
    ensures s[i..][0] == s[i] && s[i..][1..] == s[i + 1..]
    ensures Elems(s[..i + 1]) == Elems(s[..i]) + {s[i]}
  {
  }

  /** The data sectors that a header lists. */
  ghost predicate Fits(h: Header) {
    |h.dataSectors| == NumDirect && 0 <= h.numSectors <= NumDirect
  }

  ghost function Data(h: Header): seq<int>
    requires Fits(h)
  {
    h.dataSectors[..h.numSectors]
  }

  ghost predicate OnDisk(s: seq<int>) {
    forall i :: 0 <= i < |s| ==> 0 <= s[i] < NumSectors
  }

  /** A header that Allocate has filled in. */
  ghost predicate WellFormed(h: Header) {
    && 0 <= h.numBytes <= MaxFileSize
    && h.numSectors == DivRoundUp(h.numBytes, SectorSize)
    && Fits(h)
    && OnDisk(Data(h))
    && Distinct(Data(h))
  }

  /** The bytes of the file that a header describes. */
  ghost function FileBytes(d: Image, h: Header): (b: seq<Byte>)
    requires IsImage(d) && WellFormed(h)
    ensures |b| == h.numBytes
  {
    seq(h.numBytes, i requires 0 <= i < h.numBytes => d[Data(h)[i / SectorSize]][i % SectorSize])
  }

  /** The `count` least numbers below `limit` that are not in `s`, in increasing order. */
  function FirstFit(s: set<int>, limit: nat, count: nat): (r: seq<int>)
    requires count <= |Complement(s, limit)|
    ensures |r| == count
    decreases count, s
  {
    if count == 0 then [] else
      var least := LeastClear(s, limit);
      TakeLeast(s, limit);
      [least] + FirstFit(s + {least}, limit, count - 1)
  }

  lemma TakeLeast(s: set<int>, limit: nat)
    requires Complement(s, limit) != {}
    ensures LeastClear(s, limit) < limit
    ensures |Complement(s + {LeastClear(s, limit)}, limit)| == |Complement(s, limit)| - 1
  {
    var x :| x in Complement(s, limit);
    LeastClearIsLeast(s, limit);
    var least := LeastClear(s, limit);
    assert least <= x;
    assert Complement(s + {least}, limit) == Complement(s, limit) - {least};
  }

  /** Repeatedly taking the least clear sector yields `plan`. */
  ghost predicate Yields(marked: set<int>, plan: seq<int>)
    decreases |plan|
  {
    plan == [] || (plan[0] == LeastClear(marked, NumSectors) < NumSectors && Yields(marked + {plan[0]}, plan[1..]))
  }

  lemma {:induction false} FirstFitYields(marked: set<int>, count: nat)
    requires count <= |Complement(marked, NumSectors)|
    ensures Yields(marked, FirstFit(marked, NumSectors, count))
    decreases count
  {
    if count > 0 {
      TakeLeast(marked, NumSectors);
      FirstFitYields(marked + {LeastClear(marked, NumSectors)}, count - 1);
    }
  }

  /** What repeatedly taking the least clear sector yields was clear, and comes in increasing order. */
  lemma {:induction false} YieldsClear(marked: set<int>, plan: seq<int>, i: nat)
    requires Yields(marked, plan) && i < |plan|
    ensures 0 <= plan[i] < NumSectors && plan[i] !in marked
    ensures i > 0 ==> plan[i - 1] < plan[i]
    decreases |plan|
  {
    LeastClearIsLeast(marked, NumSectors);
    if i > 0 {
      YieldsClear(marked + {plan[0]}, plan[1..], i - 1);
      assert plan[i - 1] < plan[i];
    }
  }

  /** It skips no clear sector. */
  lemma {:induction false} YieldsLeast(marked: set<int>, plan: seq<int>, i: nat, x: nat)
    requires Yields(marked, plan) && i < |plan| && x < plan[i]
    ensures x in marked || x in plan[..i]
    decreases |plan|
  {
    LeastClearIsLeast(marked, NumSectors);
    if i > 0 {
      YieldsLeast(marked + {plan[0]}, plan[1..], i - 1, x);
      assert plan[..i] == [plan[0]] + plan[1..][..i - 1];
    }
  }

  lemma {:induction false} Increasing(s: seq<int>, i: nat, j: nat)
    requires i < j < |s| && forall k :: 0 < k < |s| ==> s[k - 1] < s[k]
    ensures s[i] < s[j]
    decreases j
  {
    assert s[j - 1] < s[j];
    if i < j - 1 {
      Increasing(s, i, j - 1);
    }
  }

  /** Sectors taken one by one are distinct, on the disk and were clear. */
  lemma TakenSectors(marked: set<int>, plan: seq<int>)
    requires Yields(marked, plan)
    ensures OnDisk(plan) && Distinct(plan) && Elems(plan) !! marked
  {
    forall i | 0 <= i < |plan| ensures 0 <= plan[i] < NumSectors && plan[i] !in marked && (i > 0 ==> plan[i - 1] < plan[i]) {
      YieldsClear(marked, plan, i);
    }
    forall i, j | 0 <= i < j < |plan| ensures plan[i] != plan[j] {
      Increasing(plan, i, j);
    }
  }

  class FileHeader {
    var numBytes: Int32
    var numSectors: Int32
    const dataSectors: array<Int32>

    ghost predicate Valid() {
      dataSectors.Length == NumDirect
    }

    ghost function View(): (h: Header)
      requires Valid()
      reads this, dataSectors
    {
      Header(numBytes, numSectors, dataSectors[..])
    }

    /** A header in memory; its fields have no particular value yet. */
    constructor ()
      ensures Valid() && fresh(dataSectors)
    {
      dataSectors := new Int32[NumDirect];
    }

    /** Take data sectors for a new file of `fileSize` bytes out of the free map. */
    method Allocate(freeMap: BitMap, fileSize: nat) returns (ok: bool)
      requires Valid() && freeMap.Valid() && freeMap.numBits == NumSectors
      requires Manageable(fileSize, |Complement(freeMap.Marked(), NumSectors)|)
      modifies this, dataSectors, freeMap.words
      ensures numBytes == fileSize && numSectors == DivRoundUp(fileSize, SectorSize)
      ensures ok <==> numSectors <= |Complement(old(freeMap.Marked()), NumSectors)|
      ensures !ok ==> freeMap.Marked() == old(freeMap.Marked())
      ensures ok ==> Data(View()) == FirstFit(old(freeMap.Marked()), NumSectors, numSectors)
      ensures ok ==> freeMap.Marked() == old(freeMap.Marked()) + Elems(Data(View()))
    {
      numBytes := fileSize;
      numSectors := DivRoundUp(fileSize, SectorSize);
      var free := freeMap.NumClear();
      if free < numSectors {
        return false;
      }
      FirstFitYields(freeMap.Marked(), numSectors);
      TakeSectors(freeMap, FirstFit(freeMap.Marked(), NumSectors, numSectors));
      return true;
    }

    /** The allocation loop; `plan` is what first fit takes. */
    method TakeSectors(freeMap: BitMap, ghost plan: seq<int>)
      requires Valid() && freeMap.Valid() && freeMap.numBits == NumSectors
      requires |plan| == numSectors <= NumDirect && Yields(freeMap.Marked(), plan)
      modifies dataSectors, freeMap.words
      ensures dataSectors[..numSectors] == plan
      ensures freeMap.Marked() == old(freeMap.Marked()) + Elems(plan)
    {
      assert (freeMap.words as object) != dataSectors;
      ghost var marked := freeMap.Marked();
      for i := 0 to numSectors
        invariant forall k :: 0 <= k < i ==> dataSectors[k] == plan[k]
        invariant freeMap.Marked() == marked == old(freeMap.Marked()) + Elems(plan[..i])
        invariant Yields(marked, plan[i..])
      {
        var s := freeMap.Find();
        dataSectors[i] := s;
        PrefixStep(plan, i);
        marked := marked + {plan[i]};
      }
    }

    /** Give the data sectors of a file back; the loop's ASSERT holds because they are marked. */
    method Deallocate(freeMap: BitMap)
      requires Valid() && freeMap.Valid() && freeMap.numBits == NumSectors
      requires Fits(View()) && OnDisk(Data(View())) && Distinct(Data(View()))
      requires Elems(Data(View())) <= freeMap.Marked()
      modifies freeMap.words
      ensures freeMap.Marked() == old(freeMap.Marked()) - Elems(Data(View()))
    {
      for i := 0 to numSectors
        invariant freeMap.Marked() == old(freeMap.Marked()) - Elems(dataSectors[..i])
      {
        var used := freeMap.Test(dataSectors[i]);
        assert used by {
          assert Data(View())[i] in Elems(Data(View()));
        }
        freeMap.Clear(dataSectors[i]);
        assert dataSectors[..i + 1] == dataSectors[..i] + [dataSectors[i]];
      }
    }

    /** A file that is deallocated right after it was allocated leaves every bit of the map as it was. */
    method AllocateAndDeallocate(freeMap: BitMap, fileSize: nat) returns (ok: bool)
      requires Valid() && freeMap.Valid() && freeMap.numBits == NumSectors
      requires Manageable(fileSize, |Complement(freeMap.Marked(), NumSectors)|)
      modifies this, dataSectors, freeMap.words
      ensures ok <==> DivRoundUp(fileSize, SectorSize) <= |Complement(old(freeMap.Marked()), NumSectors)|
      ensures freeMap.Marked() == old(freeMap.Marked())
    {
      ghost var marked := freeMap.Marked();
      ok := Allocate(freeMap, fileSize);
      if ok {
        FirstFitYields(marked, numSectors);
        TakenSectors(marked, Data(View()));
        Deallocate(freeMap);
      }
    }

    method FetchFrom(disk: SynchDisk, sector: nat)
      requires Valid() && disk.Valid() && sector < NumSectors
      modifies this, dataSectors
      ensures View() == HeaderOf(disk.Contents()[sector])
    {
      var s := disk.sectors[sector];
      numBytes := Signed(WordAt(s, 0));
      numSectors := Signed(WordAt(s, 1));
      forall k: nat | k < NumDirect ensures Signed(WordAt(s, k + 2)) == IntsFrom(s, 2)[k] {
        IntsFromAt(s, 2, k);
      }
      forall k | 0 <= k < NumDirect {
        dataSectors[k] := Signed(WordAt(s, k + 2));
      }
    }

    method WriteBack(disk: SynchDisk, sector: nat)
      requires Valid() && disk.Valid() && sector < NumSectors
      modifies disk.sectors
      ensures disk.Valid() && OnlyChanged(old(disk.Contents()), disk.Contents(), sector)
      ensures HeaderOf(disk.Contents()[sector]) == View()
    {
      HeaderRoundTrip(View());
      disk.sectors[sector] := SectorOf(Header(numBytes, numSectors, dataSectors[..]));
    }
  }
}
