/** Reading and writing a file piece by piece through its seek position. */
module Streams {
  import opened Bytes
  import opened SynchDisks
  import opened FileHeaders
  import opened OpenFiles

  /** The bytes that a read request returns. */
  function ReadResult(contents: seq<Byte>, numBytes: int, position: nat): (r: seq<Byte>)
    ensures |r| == Transfer(numBytes, position, |contents|)
  {
    var from := Min(position, |contents|);
    contents[from..from + Transfer(numBytes, position, |contents|)]
  }

  /** What a request to write `data` makes of the contents of a file. */
  function WriteResult(contents: seq<Byte>, data: seq<Byte>, position: nat): (r: seq<Byte>)
    ensures |r| == |contents|
  {
    var n := Transfer(|data|, position, |contents|);
    if n == 0 then contents else Splice(contents, position, data[..n])
  }

  function Flatten(chunks: seq<seq<Byte>>): seq<Byte> {
    if chunks == [] then [] else chunks[0] + Flatten(chunks[1..])
  }

  /** Contents and seek position after consecutive calls of Write. */
  function WriteAll(contents: seq<Byte>, position: nat, chunks: seq<seq<Byte>>): (seq<Byte>, nat)
    decreases |chunks|
  {
    if chunks == [] then (contents, position)
    else WriteAll(WriteResult(contents, chunks[0], position),
                  position + Transfer(|chunks[0]|, position, |contents|), chunks[1..])
  }

  /** However a buffer is split, writing the pieces one after the other has the effect of one WriteAt. */
  lemma {:induction false} ChunkedWrite(contents: seq<Byte>, position: nat, chunks: seq<seq<Byte>>)
    ensures WriteAll(contents, position, chunks) ==
            (WriteResult(contents, Flatten(chunks), position), position + Transfer(|Flatten(chunks)|, position, |contents|))
    decreases |chunks|
  {
    if chunks != [] {
      var n := Transfer(|chunks[0]|, position, |contents|);
      ChunkedWrite(WriteResult(contents, chunks[0], position), position + n, chunks[1..]);
      TwoWrites(contents, position, chunks[0], Flatten(chunks[1..]));
    }
  }

  lemma TwoWrites(contents: seq<Byte>, position: nat, a: seq<Byte>, b: seq<Byte>)
    ensures var n := Transfer(|a|, position, |contents|);
            && WriteResult(WriteResult(contents, a, position), b, position + n) == WriteResult(contents, a + b, position)
            && n + Transfer(|b|, position + n, |contents|) == Transfer(|a + b|, position, |contents|)
  {
    var n := Transfer(|a|, position, |contents|);
    var once, twice := WriteResult(contents, a + b, position), WriteResult(WriteResult(contents, a, position), b, position + n);
    forall i: nat | i < |contents| ensures twice[i] == once[i] {
      TwiceWrittenByte(contents, position, a, b, n, i);
    }
  }

  lemma TwiceWrittenByte(contents: seq<Byte>, position: nat, a: seq<Byte>, b: seq<Byte>, n: nat, i: nat)
    requires i < |contents| && n == Transfer(|a|, position, |contents|)
    ensures WriteResult(WriteResult(contents, a, position), b, position + n)[i] == WriteResult(contents, a + b, position)[i]
  {
    var first := WriteResult(contents, a, position);
    WrittenByte(contents, a + b, position, i);
    WrittenByte(contents, a, position, i);
    WrittenByte(first, b, position + n, i);
    SameByte(|contents|, position, a, b, n, i, contents[i]);
  }

  /** The byte that a write leaves at `i`, over the byte `before`. */
  function Overwritten(data: seq<Byte>, position: nat, i: nat, before: Byte): Byte {
    if position <= i < position + |data| then data[i - position] else before
  }

  lemma SameByte(length: nat, position: nat, a: seq<Byte>, b: seq<Byte>, n: nat, i: nat, before: Byte)
    requires i < length && n == Transfer(|a|, position, length)
    ensures Overwritten(b, position + n, i, Overwritten(a, position, i, before)) == Overwritten(a + b, position, i, before)
  {
  }

  lemma WrittenByte(contents: seq<Byte>, data: seq<Byte>, position: nat, i: nat)
    requires i < |contents|
    ensures WriteResult(contents, data, position)[i] == Overwritten(data, position, i, contents[i])
  {
  }

  function Sum(sizes: seq<nat>): nat {
    if sizes == [] then 0 else sizes[0] + Sum(sizes[1..])
  }

  /** What consecutive calls of Read return, put together. */
  function ReadAll(contents: seq<Byte>, position: nat, sizes: seq<nat>): seq<Byte>
    decreases |sizes|
  {
    if sizes == [] then [] else
      var r := ReadResult(contents, sizes[0], position);
      r + ReadAll(contents, position + |r|, sizes[1..])
  }

  /** However a read is split, the pieces put together are what one ReadAt returns. */
  lemma {:induction false} ChunkedRead(contents: seq<Byte>, position: nat, sizes: seq<nat>)
    ensures ReadAll(contents, position, sizes) == ReadResult(contents, Sum(sizes), position)
    decreases |sizes|
  {
    if sizes != [] {
      var m, n := sizes[0], Sum(sizes[1..]);
      var r := ReadResult(contents, m, position);
      calc {
        ReadAll(contents, position, sizes);
        r + ReadAll(contents, position + |r|, sizes[1..]);
        { ChunkedRead(contents, position + |r|, sizes[1..]); }
        r + ReadResult(contents, n, position + |r|);
        { TwoReads(contents, position, m, n); }
        ReadResult(contents, m + n, position);
      }
    }
  }

  lemma TwoReads(contents: seq<Byte>, position: nat, m: nat, n: nat)
    ensures var r := ReadResult(contents, m, position);
            r + ReadResult(contents, n, position + |r|) == ReadResult(contents, m + n, position)
  {
  }

  /** Reading from the start, in positive pieces, until a read returns nothing, gives the whole file. */
  lemma {:induction false} ReadUntilEnd(contents: seq<Byte>, sizes: seq<nat>, last: nat)
    requires last > 0
    requires ReadResult(contents, last, |ReadAll(contents, 0, sizes)|) == []
    ensures ReadAll(contents, 0, sizes) == contents
  {
    ChunkedRead(contents, 0, sizes);
  }

  const TransferSize: nat := 10

  /** The copy loop of the file system test: fill a new file from `source` in small pieces. */
  method Copy(file: OpenFile, source: seq<Byte>)
    requires file.Valid() && file.seekPosition == 0 && |source| == file.hdr.numBytes
    modifies file`seekPosition, file.disk.sectors
    ensures file.Valid() && file.hdr.View() == old(file.hdr.View()) && file.Contents() == source
  {
    ghost var h := file.hdr.View();
    var i := 0;
    while i < |source|
      invariant file.Valid() && file.hdr.View() == h && file.seekPosition == i <= |source|
      invariant file.Contents()[..i] == source[..i]
    {
      var amount := Min(TransferSize, |source| - i);
      ghost var d, was := file.disk.Contents(), file.Contents();
      var n := file.Write(source[i..i + amount], amount);
      assert file.Contents() == Splice(was, i, source[i..i + amount]);
      CopiedPrefix(was, file.Contents(), source, i, amount);
      i := i + amount;
    }
  }

  lemma CopiedPrefix(was: seq<Byte>, now: seq<Byte>, source: seq<Byte>, i: nat, n: nat)
    requires |was| == |source| && i + n <= |source| && was[..i] == source[..i]
    requires now == Splice(was, i, source[i..i + n])
    ensures now[..i + n] == source[..i + n]
  {
  }

  lemma Append(s: seq<Byte>, a: nat, b: nat)
    requires a <= b <= |s|
    ensures s[..a] + s[a..b] == s[..b]
  {
  }

  /** The print loop of the file system test: read a file to its end in small pieces. */
  method ReadBack(file: OpenFile) returns (bytes: seq<Byte>)
    requires file.Valid() && file.seekPosition == 0
    modifies file`seekPosition
    ensures file.Valid() && file.Contents() == old(file.Contents()) && bytes == file.Contents()
  {
    ghost var contents := file.Contents();
    var buffer := new Byte[TransferSize];
    bytes := [];
    var amount: nat := ReadChunk(file, buffer, contents);
    while amount > 0
      invariant file.Valid() && file.Contents() == contents && |bytes| + amount == file.seekPosition <= |contents|
      invariant bytes == contents[..|bytes|]
      invariant amount <= TransferSize && buffer[..amount] == contents[|bytes|..file.seekPosition]
      invariant amount == 0 ==> file.seekPosition == |contents|
      decreases |contents| - |bytes|
    {
      Append(contents, |bytes|, file.seekPosition);
      bytes := bytes + buffer[..amount];
      amount := ReadChunk(file, buffer, contents);
    }
  }

  /** The next piece of a file; it is empty only at the end. */
  method ReadChunk(file: OpenFile, buffer: array<Byte>, ghost contents: seq<Byte>) returns (amount: nat)
    requires file.Valid() && file.Contents() == contents && file.seekPosition <= |contents| && buffer.Length == TransferSize
    modifies file`seekPosition, buffer
    ensures file.Valid() && file.Contents() == contents
    ensures amount <= TransferSize && file.seekPosition == old(file.seekPosition) + amount <= |contents|
    ensures buffer[..amount] == contents[old(file.seekPosition)..file.seekPosition]
    ensures amount == 0 ==> file.seekPosition == |contents|
  {
    amount := file.Read(buffer, 0, TransferSize);
  }
}
