/** Open files: byte-granular access to a file that is stored in whole sectors. */
module OpenFiles {
  import opened Sequences
  import opened Bytes
  import opened SynchDisks
  import opened FileHeaders

  /** How many bytes a request for `numBytes` at `position` transfers, in a file of length `length`. */
  function Transfer(numBytes: int, position: nat, length: nat): (n: nat)
  {
    if numBytes <= 0 || position >= length then 0 else Min(numBytes, length - position)
  }

  /** The sectors that hold the `n` bytes from `position` on. */
  ghost function Touched(h: Header, position: nat, n: nat): (s: set<int>)
    requires WellFormed(h) && position + n <= h.numBytes
  {
    set k | position / SectorSize <= k <= (position + n - 1) / SectorSize && 0 <= k < h.numSectors && n > 0 :: Data(h)[k]
  }

  /** Between `d` and `e` the bytes `data` were written at `position` of the file `h`, and nothing else. */
  ghost predicate Wrote(d: Image, e: Image, h: Header, position: nat, data: seq<Byte>)
    requires IsImage(d) && WellFormed(h)
  {
    && IsImage(e)
    && (data == [] ==> e == d)
    && (data != [] ==>
          && position + |data| <= h.numBytes
          && FileBytes(e, h) == Splice(FileBytes(d, h), position, data)
          && forall s :: 0 <= s < NumSectors && s !in Touched(h, position, |data|) ==> e[s] == d[s])
  }

  /** The `n` bytes from `position` on lie in the sectors `first` to `last` of the file. */
  ghost predicate Span(first: nat, last: nat, position: nat, n: nat) {
    && first * SectorSize <= position < first * SectorSize + SectorSize
    && last * SectorSize < position + n <= last * SectorSize + SectorSize
    && n > 0
  }

  /** `buf` holds the sectors `first` to `last`, as they are after writing `data` at `position`;
      only the bytes that belong to the file matter. */
  ghost predicate Assembled(buf: seq<Byte>, contents: seq<Byte>, first: nat, last: nat, position: nat, data: seq<Byte>)
    requires Span(first, last, position, |data|) && position + |data| <= |contents|
  {
    && |buf| == (1 + last - first) * SectorSize
    && forall p :: first * SectorSize <= p < |contents| && p < last * SectorSize + SectorSize ==>
                     buf[p - first * SectorSize] == if position <= p < position + |data| then data[p - position] else contents[p]
  }

  /** Sector-sized piece `k` of a buffer. */
  function Chunk(buf: seq<Byte>, k: nat): (c: seq<Byte>)
    requires (k + 1) * SectorSize <= |buf|
    ensures |c| == SectorSize
  {
    buf[k * SectorSize..k * SectorSize + SectorSize]
  }

  /** `d` after its sectors `data[first..end]` were overwritten from `buf`. */
  ghost function Store(d: Image, data: seq<int>, buf: seq<Byte>, first: nat, end: nat): (e: Image)
    requires IsImage(d) && OnDisk(data) && first <= end <= |data| && (end - first) * SectorSize <= |buf|
    ensures IsImage(e)
    decreases end
  {
    if end == first then d
    else Store(d, data, buf, first, end - 1)[data[end - 1] := Chunk(buf, end - 1 - first)]
  }

  lemma {:induction false} StoreSector(d: Image, data: seq<int>, buf: seq<Byte>, first: nat, end: nat, s: nat)
    requires IsImage(d) && OnDisk(data) && first <= end <= |data| && (end - first) * SectorSize <= |buf|
    requires Distinct(data) && s < NumSectors
    ensures s !in data[first..end] ==> Store(d, data, buf, first, end)[s] == d[s]
    ensures forall k :: first <= k < end && data[k] == s ==>
                          Store(d, data, buf, first, end)[s] == Chunk(buf, k - first)
    decreases end
  {
    if first < end {
      StoreSector(d, data, buf, first, end - 1, s);
      assert data[first..end] == data[first..end - 1] + [data[end - 1]];
    }
  }

  /** `buf` holds the sectors `data[first..end]` of `d`. */
  ghost predicate Loaded(buf: seq<Byte>, d: Image, data: seq<int>, first: nat, end: nat)
    requires IsImage(d) && OnDisk(data) && first <= end <= |data|
  {
    && (end - first) * SectorSize <= |buf|
    && forall k :: first <= k < end ==>
                     Chunk(buf, k - first) == d[data[k]]
  }

  lemma LoadOne(buf: seq<Byte>, d: Image, data: seq<int>, first: nat, i: nat)
    requires IsImage(d) && OnDisk(data) && first <= i < |data| && (i + 1 - first) * SectorSize <= |buf|
    requires Loaded(buf, d, data, first, i)
    ensures Loaded(Splice(buf, (i - first) * SectorSize, d[data[i]]), d, data, first, i + 1)
  {
  }

  lemma LoadedBytes(buf: seq<Byte>, d: Image, h: Header, position: nat, n: nat)
    requires IsImage(d) && WellFormed(h) && n > 0 && position + n <= h.numBytes
    requires Loaded(buf, d, Data(h), position / SectorSize, (position + n - 1) / SectorSize + 1)
    ensures var skip := position % SectorSize;
            skip + n <= |buf| && buf[skip..skip + n] == FileBytes(d, h)[position..position + n]
  {
    var first, skip := position / SectorSize, position % SectorSize;
    var a, b := buf[skip..skip + n], FileBytes(d, h)[position..position + n];
    forall k | 0 <= k < n ensures a[k] == b[k] {
      var p := position + k;
      ChunkByte(buf, p / SectorSize - first, p % SectorSize);
    }
  }

  /** `buf`, which starts at sector `first` of the file, holds the file's part of sector `k`. */
  ghost predicate HoldsSector(buf: seq<Byte>, contents: seq<Byte>, first: nat, k: nat)
    requires first <= k && (k + 1 - first) * SectorSize <= |buf|
  {
    forall p :: k * SectorSize <= p < |contents| && p < (k + 1) * SectorSize ==> buf[p - first * SectorSize] == contents[p]
  }

  /** `buf` after the file's part of sector `k` was read to its place. */
  ghost function ReadInto(buf: seq<Byte>, contents: seq<Byte>, first: nat, k: nat): (now: seq<Byte>)
    requires first <= k && (k + 1 - first) * SectorSize <= |buf| && k * SectorSize < |contents|
    ensures |now| == |buf|
  {
    Splice(buf, (k - first) * SectorSize, contents[k * SectorSize..Min(|contents|, (k + 1) * SectorSize)])
  }

  lemma ReadHoldsSector(buf: seq<Byte>, contents: seq<Byte>, first: nat, k: nat)
    requires first <= k && (k + 1 - first) * SectorSize <= |buf| && k * SectorSize < |contents|
    ensures var now := ReadInto(buf, contents, first, k);
            && HoldsSector(now, contents, first, k)
            && (first < k && HoldsSector(buf, contents, first, first) ==> HoldsSector(now, contents, first, first))
  {
  }

  /** It is enough to fetch the first sector if it is written partially, and likewise the last. */
  lemma Assemble(buf: seq<Byte>, contents: seq<Byte>, first: nat, last: nat, position: nat, data: seq<Byte>)
    requires Span(first, last, position, |data|) && position + |data| <= |contents|
    requires |buf| == (1 + last - first) * SectorSize
    requires position != first * SectorSize ==> HoldsSector(buf, contents, first, first)
    requires position + |data| != (last + 1) * SectorSize ==> HoldsSector(buf, contents, first, last)
    ensures Assembled(Splice(buf, position - first * SectorSize, data), contents, first, last, position, data)
  {
  }

  lemma StoreIsWrote(d: Image, h: Header, first: nat, last: nat, position: nat, data: seq<Byte>, buf: seq<Byte>)
    requires IsImage(d) && WellFormed(h) && Span(first, last, position, |data|) && position + |data| <= h.numBytes
    requires last < h.numSectors && Assembled(buf, FileBytes(d, h), first, last, position, data)
    ensures Wrote(d, Store(d, Data(h), buf, first, last + 1), h, position, data)
  {
    var e := Store(d, Data(h), buf, first, last + 1);
    var now := Splice(FileBytes(d, h), position, data);
    forall s | 0 <= s < NumSectors && s !in Touched(h, position, |data|) ensures e[s] == d[s] {
      TouchedIs(h, first, last, position, |data|, s);
      StoreSector(d, Data(h), buf, first, last + 1, s);
    }
    forall p | 0 <= p < h.numBytes ensures FileBytes(e, h)[p] == now[p] {
      StoredByte(d, h, first, last, position, data, buf, p / SectorSize, p % SectorSize);
    }
  }

  lemma TouchedIs(h: Header, first: nat, last: nat, position: nat, n: nat, s: int)
    requires WellFormed(h) && Span(first, last, position, n) && position + n <= h.numBytes && last < h.numSectors
    ensures s in Data(h)[first..last + 1] ==> s in Touched(h, position, n)
  {
  }

  lemma StoredByte(d: Image, h: Header, first: nat, last: nat, position: nat, data: seq<Byte>, buf: seq<Byte>, k: nat, j: nat)
    requires IsImage(d) && WellFormed(h) && Span(first, last, position, |data|) && position + |data| <= h.numBytes
    requires last < h.numSectors && Assembled(buf, FileBytes(d, h), first, last, position, data)
    requires j < SectorSize && k * SectorSize + j < h.numBytes && k < h.numSectors
    ensures Store(d, Data(h), buf, first, last + 1)[Data(h)[k]][j]
         == Splice(FileBytes(d, h), position, data)[k * SectorSize + j]
  {
    if first <= k <= last {
      TouchedByte(d, h, first, last, position, data, buf, k, j);
    } else {
      StoreSector(d, Data(h), buf, first, last + 1, Data(h)[k]);
      FileByte(d, h, k, j);
    }
  }

  lemma TouchedByte(d: Image, h: Header, first: nat, last: nat, position: nat, data: seq<Byte>, buf: seq<Byte>, k: nat, j: nat)
    requires IsImage(d) && WellFormed(h) && Span(first, last, position, |data|) && position + |data| <= h.numBytes
    requires last < h.numSectors && Assembled(buf, FileBytes(d, h), first, last, position, data)
    requires j < SectorSize && k * SectorSize + j < h.numBytes && first <= k <= last
    ensures Store(d, Data(h), buf, first, last + 1)[Data(h)[k]][j]
         == Splice(FileBytes(d, h), position, data)[k * SectorSize + j]
  {
    StoreSector(d, Data(h), buf, first, last + 1, Data(h)[k]);
    FileByte(d, h, k, j);
    ChunkByte(buf, k - first, j);
  }

  lemma FileByte(d: Image, h: Header, k: nat, j: nat)
    requires IsImage(d) && WellFormed(h) && j < SectorSize && k * SectorSize + j < h.numBytes && k < h.numSectors
    ensures FileBytes(d, h)[k * SectorSize + j] == d[Data(h)[k]][j]
  {
  }

  lemma ChunkByte(buf: seq<Byte>, k: nat, j: nat)
    requires (k + 1) * SectorSize <= |buf| && j < SectorSize
    ensures Chunk(buf, k)[j] == buf[k * SectorSize + j]
  {
  }

  lemma LastSector(h: Header, position: nat, n: nat)
    requires WellFormed(h) && n > 0 && position + n <= h.numBytes
    ensures Span(position / SectorSize, (position + n - 1) / SectorSize, position, n)
    ensures (position + n - 1) / SectorSize < h.numSectors
  {
  }

  /** The library routine bcopy. */
  method Bcopy(from: seq<Byte>, into: array<Byte>, at: nat)
    requires at + |from| <= into.Length
    modifies into
    ensures into[..] == Splice(old(into[..]), at, from)
  {
    forall k | 0 <= k < |from| {
      into[at + k] := from[k];
    }
  }

  class OpenFile {
    const disk: SynchDisk
    const hdr: FileHeader
    var seekPosition: nat

    ghost predicate Valid()
      reads disk, disk.sectors, hdr, hdr.dataSectors
    {
      disk.Valid() && hdr.Valid() && WellFormed(hdr.View())
    }

    /** The bytes of the file on the current disk. */
    ghost function Contents(): seq<Byte>
      requires Valid()
      reads disk, disk.sectors, hdr, hdr.dataSectors
    {
      FileBytes(disk.Contents(), hdr.View())
    }

    constructor (disk: SynchDisk, sector: nat)
      requires disk.Valid() && sector < NumSectors && WellFormed(HeaderOf(disk.Contents()[sector]))
      ensures Valid() && this.disk == disk && fresh(hdr) && fresh(hdr.dataSectors)
      ensures hdr.View() == HeaderOf(disk.Contents()[sector]) && seekPosition == 0
    {
      var h := new FileHeader();
      h.FetchFrom(disk, sector);
      this.disk := disk;
      hdr := h;
      seekPosition := 0;
    }

    method Length() returns (n: nat)
      requires Valid()
      ensures n == |Contents()|
    {
      n := hdr.numBytes;
    }

    /** Read into `into` from index `at` on. */
    method ReadAt(into: array<Byte>, at: nat, numBytes: int, position: nat) returns (n: nat)
      requires Valid()
      requires at + Transfer(numBytes, position, hdr.numBytes) <= into.Length
      modifies into
      ensures n == Transfer(numBytes, position, hdr.numBytes)
      ensures position >= hdr.numBytes ==> n == 0
      ensures n > 0 ==> into[..] == Splice(old(into[..]), at, Contents()[position..position + n])
      ensures n == 0 ==> into[..] == old(into[..])
    {
      var fileLength := hdr.numBytes;
      if numBytes <= 0 || position >= fileLength {
        return 0;
      }
      n := if position + numBytes > fileLength then fileLength - position else numBytes;
      var firstSector := position / SectorSize;
      var lastSector := (position + n - 1) / SectorSize;
      var buf := LoadSectors(firstSector, lastSector);
      ghost var contents := Contents();
      LoadedBytes(buf[..], disk.Contents(), hdr.View(), position, n);
      var skip := position - firstSector * SectorSize;
      ghost var part := buf[skip..skip + n];
      assert part == contents[position..position + n] by {
        assert skip == position % SectorSize && part == buf[..][skip..skip + n];
      }
      assert (into as object) != disk.sectors && (into as object) != hdr.dataSectors;
      Bcopy(buf[skip..skip + n], into, at);
      assert Contents() == contents;
    }

    method LoadSectors(firstSector: nat, lastSector: nat) returns (buf: array<Byte>)
      requires Valid() && firstSector <= lastSector < hdr.numSectors
      ensures fresh(buf) && buf.Length == (1 + lastSector - firstSector) * SectorSize
      ensures Loaded(buf[..], disk.Contents(), Data(hdr.View()), firstSector, lastSector + 1)
    {
      buf := new Byte[(1 + lastSector - firstSector) * SectorSize];
      ghost var d, data := disk.Contents(), Data(hdr.View());
      for i := firstSector to lastSector + 1
        invariant Loaded(buf[..], d, data, firstSector, i)
      {
        ghost var was := buf[..];
        disk.ReadSector(hdr.dataSectors[i], buf, (i - firstSector) * SectorSize);
        LoadOne(was, d, data, firstSector, i);
      }
    }

    /** Write the first bytes of `from`. */
    method WriteAt(from: seq<Byte>, numBytes: int, position: nat) returns (n: nat)
      requires Valid()
      requires Transfer(numBytes, position, hdr.numBytes) <= |from|
      modifies disk.sectors
      ensures Valid() && hdr.View() == old(hdr.View())
      ensures n == Transfer(numBytes, position, hdr.numBytes)
      ensures Wrote(old(disk.Contents()), disk.Contents(), hdr.View(), position, from[..n])
    {
      var fileLength := hdr.numBytes;
      if numBytes <= 0 || position >= fileLength {
        return 0;
      }
      n := if position + numBytes > fileLength then fileLength - position else numBytes;
      var firstSector := position / SectorSize;
      var lastSector := (position + n - 1) / SectorSize;
      ghost var d, h := disk.Contents(), hdr.View();
      LastSector(h, position, n);
      var buf := FillBuffer(from[..n], position, firstSector, lastSector);
      StoreIsWrote(d, h, firstSector, lastSector, position, from[..n], buf[..]);
      StoreSectors(buf, firstSector, lastSector, d, Data(h));
    }

    method Seek(position: nat)
      modifies this`seekPosition
      ensures seekPosition == position
    {
      seekPosition := position;
    }

    method Read(into: array<Byte>, at: nat, numBytes: int) returns (n: nat)
      requires Valid()
      requires at + Transfer(numBytes, seekPosition, hdr.numBytes) <= into.Length
      modifies this`seekPosition, into
      ensures n == Transfer(numBytes, old(seekPosition), hdr.numBytes) && seekPosition == old(seekPosition) + n
      ensures n > 0 ==> into[..] == Splice(old(into[..]), at, Contents()[old(seekPosition)..seekPosition])
      ensures n == 0 ==> into[..] == old(into[..])
    {
      n := ReadAt(into, at, numBytes, seekPosition);
      seekPosition := seekPosition + n;
    }

    method Write(from: seq<Byte>, numBytes: int) returns (n: nat)
      requires Valid()
      requires Transfer(numBytes, seekPosition, hdr.numBytes) <= |from|
      modifies this`seekPosition, disk.sectors
      ensures Valid() && hdr.View() == old(hdr.View())
      ensures n == Transfer(numBytes, old(seekPosition), hdr.numBytes) && seekPosition == old(seekPosition) + n
      ensures Wrote(old(disk.Contents()), disk.Contents(), hdr.View(), old(seekPosition), from[..n])
    {
      n := WriteAt(from, numBytes, seekPosition);
      seekPosition := seekPosition + n;
    }

    /** Assemble the sectors to write: the new bytes, and around them what the file holds there.
        What `buf` holds past the end of the file is arbitrary. */
    method FillBuffer(data: seq<Byte>, position: nat, firstSector: nat, lastSector: nat) returns (buf: array<Byte>)
      requires Valid()
      requires Span(firstSector, lastSector, position, |data|) && position + |data| <= hdr.numBytes
      ensures fresh(buf) && Assembled(buf[..], Contents(), firstSector, lastSector, position, data)
    {
      buf := new Byte[(1 + lastSector - firstSector) * SectorSize];
      ghost var contents := Contents();
      FetchEdges(buf, position, |data|, firstSector, lastSector, contents);
      Assemble(buf[..], contents, firstSector, lastSector, position, data);
      ghost var assembled := Splice(buf[..], position - firstSector * SectorSize, data);
      Bcopy(data, buf, position - firstSector * SectorSize);
      assert buf[..] == assembled && Contents() == contents;
    }

    /** Read in the first and the last sector if they will be modified partially. */
    method FetchEdges(buf: array<Byte>, position: nat, n: nat, firstSector: nat, lastSector: nat, ghost contents: seq<Byte>)
      requires Valid() && contents == Contents()
      requires Span(firstSector, lastSector, position, n) && position + n <= |contents|
      requires buf.Length == (1 + lastSector - firstSector) * SectorSize
      modifies buf
      ensures Valid() && contents == Contents()
      ensures position != firstSector * SectorSize ==> HoldsSector(buf[..], contents, firstSector, firstSector)
      ensures position + n != (lastSector + 1) * SectorSize ==> HoldsSector(buf[..], contents, firstSector, lastSector)
    {
      var firstAligned := position == firstSector * SectorSize;
      var lastAligned := position + n == (lastSector + 1) * SectorSize;
      if !firstAligned {
        ReadHoldsSector(buf[..], contents, firstSector, firstSector);
        FetchSector(buf, firstSector, firstSector, contents);
      }
      if !lastAligned && (firstSector != lastSector || firstAligned) {
        ReadHoldsSector(buf[..], contents, firstSector, lastSector);
        FetchSector(buf, firstSector, lastSector, contents);
      }
    }

    /** Read sector `k` of the file to its place in `buf`, which starts at sector `first`. */
    method FetchSector(buf: array<Byte>, first: nat, k: nat, ghost contents: seq<Byte>)
      requires Valid() && contents == Contents()
      requires first <= k && (k + 1 - first) * SectorSize <= buf.Length && k * SectorSize < |contents|
      modifies buf
      ensures Valid() && contents == Contents()
      ensures buf[..] == ReadInto(old(buf[..]), contents, first, k)
    {
      assert (buf as object) != disk.sectors && (buf as object) != hdr.dataSectors;
      var n := ReadAt(buf, (k - first) * SectorSize, SectorSize, k * SectorSize);
      assert k * SectorSize + n == Min(|contents|, (k + 1) * SectorSize);
    }

    method StoreSectors(buf: array<Byte>, firstSector: nat, lastSector: nat, ghost d: Image, ghost data: seq<int>)
      requires Valid() && d == disk.Contents() && data == Data(hdr.View())
      requires firstSector <= lastSector < |data| && buf.Length == (1 + lastSector - firstSector) * SectorSize
      modifies disk.sectors
      ensures disk.Valid() && hdr.View() == old(hdr.View())
      ensures disk.Contents() == Store(d, data, buf[..], firstSector, lastSector + 1)
    {
      assert (disk.sectors as object) != hdr.dataSectors && (disk.sectors as object) != buf;
      ghost var bytes := buf[..];
      for i := firstSector to lastSector + 1
        invariant disk.Valid() && disk.Contents() == Store(d, data, bytes, firstSector, i)
      {
        disk.WriteSector(hdr.dataSectors[i], buf, (i - firstSector) * SectorSize);
        assert buf[(i - firstSector) * SectorSize..(i - firstSector) * SectorSize + SectorSize] == Chunk(bytes, i - firstSector);
      }
    }
  }
}
