/** The layout of a formatted disk: where the free map and the directory are stored, as files of one sector. */
module DiskLayouts {
  import opened Bits
  import opened Bytes
  import opened SynchDisks
  import opened BitMaps
  import opened FileHeaders
  import opened OpenFiles
  import opened Directories

  const FreeMapSector: nat := 0
  const DirectorySector: nat := 1
  const FreeMapFileSize: nat := 128
  const NumDirEntries: nat := 10
  const DirectoryFileSize: nat := 200

  /** The sectors that formatting gives to the data of the free map and of the directory. */
  const MapData: nat := 2
  const DirData: nat := 3

  ghost predicate MapHeader(h: Header) {
    WellFormed(h) && h.numBytes == FreeMapFileSize && h.dataSectors[0] == MapData
  }

  ghost predicate DirHeader(h: Header) {
    WellFormed(h) && h.numBytes == DirectoryFileSize && h.dataSectors[0] == DirData
  }

  ghost predicate Formatted(d: Image) {
    IsImage(d) && MapHeader(HeaderOf(d[FreeMapSector])) && DirHeader(HeaderOf(d[DirectorySector]))
  }

  /** The sectors marked in the free map on disk, and the directory on disk. */
  ghost function FreeMap(d: Image): set<int>
    requires IsImage(d)
  {
    BitsOf(DecodeWords(d[MapData], 32), NumSectors)
  }

  /** Sector `s` is marked on disk exactly if bit `s % 32` of word `s / 32` of sector 2 is set. */
  lemma MarkedOnDisk(d: Image, s: nat)
    requires IsImage(d) && s < NumSectors
    ensures s in FreeMap(d) <==> WordAt(d[2], s / 32) / Pow2(s % 32) % 2 == 1
  {
    var words := DecodeWords(d[MapData], 32);
    BitsOfAt(words, NumSectors, s);
    DigitIs(words[s / 32], s % 32);
  }

  ghost function Dir(d: Image): (t: seq<DirectoryEntry>)
    requires IsImage(d)
    ensures |t| == NumDirEntries
  {
    DecodeTable(d[DirData], NumDirEntries)
  }

  /** A file of one sector: its bytes are the first ones of that sector. */
  lemma OneSectorFile(d: Image, h: Header)
    requires IsImage(d) && WellFormed(h) && h.numSectors == 1
    ensures FileBytes(d, h) == d[h.dataSectors[0]][..h.numBytes]
  {
  }

  lemma DecodeTablePrefix(s: seq<Byte>, t: seq<Byte>, n: nat)
    requires EntrySize * n <= |s| <= |t| && s == t[..|s|]
    ensures DecodeTable(s, n) == DecodeTable(t, n)
  {
    forall k | 0 <= k < n ensures DecodeTable(s, n)[k] == DecodeTable(t, n)[k] {
      assert s[EntrySize * k..EntrySize * k + EntrySize] == t[EntrySize * k..EntrySize * k + EntrySize];
    }
  }

  lemma DecodeWordsPrefix(s: seq<Byte>, t: seq<Byte>, n: nat)
    requires 4 * n <= |s| <= |t| && s == t[..|s|]
    ensures DecodeWords(s, n) == DecodeWords(t, n)
  {
  }

  /** Writing the one sector of a file leaves all others alone. */
  lemma WroteOneSector(d: Image, e: Image, h: Header, data: seq<Byte>)
    requires IsImage(d) && WellFormed(h) && h.numSectors == 1 && |data| == h.numBytes
    requires Wrote(d, e, h, 0, data)
    ensures OnlyChanged(d, e, h.dataSectors[0])
    ensures e[h.dataSectors[0]][..h.numBytes] == data
  {
    OneSectorFile(e, h);
    assert Splice(FileBytes(d, h), 0, data) == data;
  }

  lemma WroteDirectory(d: Image, e: Image, h: Header, t: seq<DirectoryEntry>)
    requires IsImage(d) && DirHeader(h) && |t| == NumDirEntries
    requires Wrote(d, e, h, 0, EncodeTable(t))
    ensures OnlyChanged(d, e, DirData) && Dir(e) == t
  {
    WroteOneSector(d, e, h, EncodeTable(t));
    TableRoundTrip(t, e[DirData]);
  }

  lemma WroteFreeMap(d: Image, e: Image, h: Header, words: seq<Word>)
    requires IsImage(d) && MapHeader(h) && |words| == 32
    requires Wrote(d, e, h, 0, EncodeWords(words))
    ensures OnlyChanged(d, e, MapData) && FreeMap(e) == BitsOf(words, NumSectors)
  {
    WroteOneSector(d, e, h, EncodeWords(words));
    WordsRoundTrip(words, e[MapData]);
  }

  method FetchDirectory(directory: Directory, file: OpenFile)
    requires directory.table.Length == NumDirEntries && file.Valid() && DirHeader(file.hdr.View())
    modifies directory.table
    ensures directory.table[..] == Dir(file.disk.Contents())
  {
    directory.FetchFrom(file);
    assert (directory.table as object) != file.disk.sectors && (directory.table as object) != file.hdr.dataSectors;
    OneSectorFile(file.disk.Contents(), file.hdr.View());
    DecodeTablePrefix(file.Contents(), file.disk.Contents()[DirData], NumDirEntries);
  }

  /** BitMap::FetchFrom. */
  method FetchBitMap(freeMap: BitMap, file: OpenFile)
    requires freeMap.Valid() && freeMap.numBits == NumSectors && file.Valid() && MapHeader(file.hdr.View())
    modifies freeMap.words
    ensures freeMap.Marked() == FreeMap(file.disk.Contents())
  {
    var bytes := new Byte[FreeMapFileSize];
    ghost var contents, d := file.Contents(), file.disk.Contents();
    OneSectorFile(d, file.hdr.View());
    var n := file.ReadAt(bytes, 0, FreeMapFileSize, 0);
    assert bytes[..] == contents;
    DecodeWordsPrefix(bytes[..], d[MapData], 32);
    UnpackBitMap(freeMap, bytes[..]);
    assert (freeMap.words as object) != file.disk.sectors;
  }

  method UnpackBitMap(freeMap: BitMap, bytes: seq<Byte>)
    requires freeMap.Valid() && |bytes| == 4 * freeMap.words.Length
    modifies freeMap.words
    ensures freeMap.words[..] == DecodeWords(bytes, freeMap.words.Length)
  {
    forall k | 0 <= k < freeMap.words.Length {
      freeMap.words[k] := WordAt(bytes, k);
    }
  }

  /** BitMap::WriteBack. */
  method WriteBitMap(freeMap: BitMap, file: OpenFile)
    requires freeMap.Valid() && freeMap.numBits == NumSectors && file.Valid() && MapHeader(file.hdr.View())
    modifies file.disk.sectors
    ensures file.Valid() && file.hdr.View() == old(file.hdr.View())
    ensures OnlyChanged(old(file.disk.Contents()), file.disk.Contents(), MapData)
    ensures FreeMap(file.disk.Contents()) == old(freeMap.Marked())
  {
    ghost var d, words := file.disk.Contents(), freeMap.words[..];
    var n := file.WriteAt(EncodeWords(freeMap.words[..]), FreeMapFileSize, 0);
    WroteFreeMap(d, file.disk.Contents(), file.hdr.View(), words);
  }

  method WriteDirectory(directory: Directory, file: OpenFile)
    requires directory.table.Length == NumDirEntries && file.Valid() && DirHeader(file.hdr.View())
    modifies file.disk.sectors
    ensures file.Valid() && file.hdr.View() == old(file.hdr.View())
    ensures OnlyChanged(old(file.disk.Contents()), file.disk.Contents(), DirData)
    ensures Dir(file.disk.Contents()) == old(directory.table[..])
  {
    ghost var d, t := file.disk.Contents(), directory.table[..];
    directory.WriteBack(file);
    WroteDirectory(d, file.disk.Contents(), file.hdr.View(), t);
  }
}
