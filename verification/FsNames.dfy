/** Files and their names: what a run does to the file of a name, and that it does nothing to the others. */
module FsNames {
  import opened Bytes
  import opened SynchDisks
  import opened OpenFiles
  import Streams
  import opened Directories
  import opened DiskLayouts
  import opened Catalogs
  import opened FsRefinements
  import opened FsRuns

  /** There is a file that the name stands for. */
  ghost predicate Named(files: FileMap, name: seq<Byte>) {
    exists k :: k in files && SameName(k, name)
  }

  /** The keys of the map are names of at most nine characters. */
  lemma FileKey(d: Image, k: seq<Byte>)
    requires Sound(d) && k in Files(d)
    ensures Key(k) == k
  {
    ListedKeys(d, k);
    KeyOfKey(Dir(d)[Lookup(Dir(d), k)].name);
  }

  /** A name stands for a file exactly if it agrees with the name of it in nine characters, and then for one only. */
  lemma NameFound(d: Image, name: seq<Byte>)
    requires Sound(d)
    ensures Key(name) in Files(d) <==> Named(Files(d), name)
    ensures forall k :: k in Files(d) ==> (SameName(k, name) <==> k == Key(name))
  {
    forall k | k in Files(d) ensures SameName(k, name) <==> k == Key(name) {
      FileKey(d, k);
      KeyEquality(k, name);
    }
    KeyOfKey(name);
    KeyEquality(Key(name), name);
  }

  /** Before and after operation `i` of a run. */
  ghost predicate At(states: seq<State>, ops: seq<Op>, i: nat, before: AbstractState, after: AbstractState) {
    && i < |ops| && |states| == |ops| + 1 && Invariant(states[i]) && Invariant(states[i + 1])
    && before == Abstract(states[i]) && after == Abstract(states[i + 1])
  }

  lemma Around(states: seq<State>, ops: seq<Op>, i: nat) returns (before: AbstractState, after: AbstractState)
    requires IsRun(states, ops) && i < |ops|
    ensures At(states, ops, i, before, after) && AbstractNext(before, ops[i], after)
  {
    GoesRefined(states, ops, i);
    before, after := Abstract(states[i]), Abstract(states[i + 1]);
  }

  /** There is a free entry, and room for the header and for so many sectors of 256 bytes as hold `size` bytes. */
  ghost predicate HasRoom(files: FileMap, size: nat) {
    |files| < 10 && TotalCost(files) + 1 + (size + 255) / 256 <= 1020
  }

  /** Only the file of that name is new, or gone. */
  ghost predicate OnlyAdds(files: FileMap, files': FileMap, name: seq<Byte>, size: nat) {
    exists k :: SameName(k, name) && k !in files && k in files' && |files'[k]| == size && files' == files[k := files'[k]]
  }

  ghost predicate OnlyDrops(files: FileMap, files': FileMap, name: seq<Byte>) {
    exists k :: SameName(k, name) && k in files && files' == files - {k}
  }

  /** In every run Create succeeds exactly if no file agrees with the name in nine characters, there are fewer than ten
      files and there is room; and then that file is there, and nothing else has changed. */
  lemma CreateIff(states: seq<State>, ops: seq<Op>, i: nat, a: AbstractState, a': AbstractState)
    requires IsRun(states, ops) && At(states, ops, i, a, a') && ops[i].Create?
    ensures ops[i].ok <==> !Named(a.files, ops[i].name) && HasRoom(a.files, ops[i].size)
    ensures if ops[i].ok then OnlyAdds(a.files, a'.files, ops[i].name, ops[i].size) else a'.files == a.files
    ensures a'.handles == a.handles
  {
    var _, _ := Around(states, ops, i);
    NameFound(states[i].disk, ops[i].name);
    RoundedUp(ops[i].size);
    KeyOfKey(ops[i].name);
    KeyEquality(Key(ops[i].name), ops[i].name);
  }

  lemma RoundedUp(size: nat)
    ensures Cost(size) == 1 + (size + 255) / 256
  {
  }

  /** In every run Open succeeds exactly if there is a file of that name, and the handle is for that file. */
  lemma OpenIff(states: seq<State>, ops: seq<Op>, i: nat, a: AbstractState, a': AbstractState)
    requires IsRun(states, ops) && At(states, ops, i, a, a') && ops[i].Open?
    ensures (ops[i].ok <==> Named(a.files, ops[i].name)) && a'.files == a.files
    ensures if ops[i].ok then
              && ops[i].id !in a.handles && ops[i].id in a'.handles && a'.handles[ops[i].id] in a.files
              && SameName(a'.handles[ops[i].id], ops[i].name)
              && a'.handles == a.handles[ops[i].id := a'.handles[ops[i].id]]
            else a'.handles == a.handles
  {
    var _, _ := Around(states, ops, i);
    NameFound(states[i].disk, ops[i].name);
  }

  /** In every run Remove succeeds exactly if there is a file of that name, and drops that file and its handles. */
  lemma RemoveIff(states: seq<State>, ops: seq<Op>, i: nat, a: AbstractState, a': AbstractState)
    requires IsRun(states, ops) && At(states, ops, i, a, a') && ops[i].Remove?
    ensures ops[i].ok <==> Named(a.files, ops[i].name)
    ensures if ops[i].ok then OnlyDrops(a.files, a'.files, ops[i].name) else a' == a
  {
    var _, _ := Around(states, ops, i);
    NameFound(states[i].disk, ops[i].name);
    assert !ops[i].ok ==> a.files - {Key(ops[i].name)} == a.files;
  }

  /** The files of one name are the same. */
  ghost predicate SameFile(files: FileMap, files': FileMap, name: seq<Byte>) {
    forall k :: SameName(k, name) ==> (k in files <==> k in files') && (k in files ==> files'[k] == files[k])
  }

  lemma OtherThan(k: seq<Byte>, name: seq<Byte>, other: seq<Byte>)
    requires SameName(k, name) && !SameName(name, other)
    ensures !SameName(k, other)
  {
    KeyEquality(k, name);
    KeyEquality(name, other);
    KeyEquality(k, other);
  }

  /** Create and Remove leave the files of all other names alone. */
  lemma OtherNames(states: seq<State>, ops: seq<Op>, i: nat, a: AbstractState, a': AbstractState, other: seq<Byte>)
    requires IsRun(states, ops) && At(states, ops, i, a, a') && (ops[i].Create? || ops[i].Remove?) && !SameName(ops[i].name, other)
    ensures SameFile(a.files, a'.files, other)
  {
    var name := ops[i].name;
    if ops[i].Create? {
      CreateIff(states, ops, i, a, a');
    } else {
      RemoveIff(states, ops, i, a, a');
    }
    forall k | SameName(k, name) ensures !SameName(k, other) {
      OtherThan(k, name, other);
    }
  }

  lemma ReadByte(file: seq<Byte>, numBytes: int, at: nat, p: nat)
    ensures p < |Streams.ReadResult(file, numBytes, at)| <==> p < numBytes && at + p < |file|
    ensures p < |Streams.ReadResult(file, numBytes, at)| ==> Streams.ReadResult(file, numBytes, at)[p] == file[at + p]
  {
  }

  lemma WrittenByte(file: seq<Byte>, data: seq<Byte>, at: nat, p: nat)
    ensures p < Transfer(|data|, at, |file|) <==> p < |data| && at + p < |file|
    ensures p < |file| ==> Streams.WriteResult(file, data, at)[p] == if at <= p < at + |data| then data[p - at] else file[p]
  {
  }

  /** ReadAt returns byte `p` after the position exactly if it was asked for and the file has it. */
  lemma ReadIs(a: AbstractState, op: Op, a': AbstractState, p: nat)
    requires AbstractNext(a, op, a') && op.ReadAt?
    ensures a' == a
    ensures var file := a.files[a.handles[op.id]];
            && (p < |op.bytes| <==> p < op.numBytes && op.at + p < |file|)
            && (p < |op.bytes| ==> op.bytes[p] == file[op.at + p])
  {
    ReadByte(a.files[a.handles[op.id]], op.numBytes, op.at, p);
  }

  /** WriteAt replaces byte `p` of the file exactly if it was given; no other file changes. */
  lemma WriteIs(a: AbstractState, op: Op, a': AbstractState, p: nat)
    requires AbstractNext(a, op, a') && op.WriteAt?
    ensures a'.handles == a.handles && a'.files.Keys == a.files.Keys
    ensures forall k :: k in a.files && k != a.handles[op.id] ==> a'.files[k] == a.files[k]
    ensures var file, file' := a.files[a.handles[op.id]], a'.files[a.handles[op.id]];
            && |file'| == |file|
            && (p < |file| ==> file'[p] == if op.at <= p < op.at + |op.data| then op.data[p - op.at] else file[p])
            && (p < op.n <==> p < |op.data| && op.at + p < |file|)
  {
    WrittenByte(a.files[a.handles[op.id]], op.data, op.at, p);
  }

  /** What was written through one handle is read back through any handle of the same file. */
  lemma WrittenIsRead(a: AbstractState, write: Op, b: AbstractState, read: Op, c: AbstractState, p: nat)
    requires AbstractNext(a, write, b) && AbstractNext(b, read, c) && write.WriteAt? && read.ReadAt?
    requires a.handles[write.id] == b.handles[read.id] && p < |read.bytes| && write.at <= read.at + p < write.at + |write.data|
    ensures read.bytes[p] == write.data[read.at + p - write.at]
  {
    ReadIs(b, read, c, p);
    WriteIs(a, write, b, read.at + p);
  }

  lemma AddedCost(files: FileMap, files': FileMap, name: seq<Byte>, size: nat)
    requires OnlyAdds(files, files', name, size)
    ensures |files'| == |files| + 1 && TotalCost(files') == TotalCost(files) + 1 + (size + 255) / 256
  {
    var k :| SameName(k, name) && k !in files && k in files' && |files'[k]| == size && files' == files[k := files'[k]];
    assert files' - {k} == files;
    TotalCostDrop(files', k);
    RoundedUp(size);
  }

  lemma AddedIsNamed(files: FileMap, files': FileMap, name: seq<Byte>, size: nat, other: seq<Byte>)
    requires OnlyAdds(files, files', name, size) && SameName(name, other)
    ensures Named(files', other)
  {
    var k :| SameName(k, name) && k !in files && k in files' && |files'[k]| == size && files' == files[k := files'[k]];
    KeyEquality(k, name);
    KeyEquality(name, other);
    KeyEquality(k, other);
  }

  /** Names that differ in their first nine characters are two files: after one was created the other can be created
      if there is room, and if they do not differ it cannot. */
  lemma TwoNamesTwoFiles(states: seq<State>, ops: seq<Op>, i: nat, a: AbstractState, b: AbstractState, c: AbstractState)
    requires IsRun(states, ops) && i + 1 < |ops| && At(states, ops, i, a, b) && At(states, ops, i + 1, b, c)
    requires ops[i].Create? && ops[i].ok && ops[i + 1].Create?
    ensures |b.files| == |a.files| + 1 && TotalCost(b.files) == TotalCost(a.files) + 1 + (ops[i].size + 255) / 256
    ensures if SameName(ops[i].name, ops[i + 1].name) then !ops[i + 1].ok
            else ops[i + 1].ok <==> !Named(a.files, ops[i + 1].name) && HasRoom(b.files, ops[i + 1].size)
  {
    CreateIff(states, ops, i, a, b);
    CreateIff(states, ops, i + 1, b, c);
    AddedCost(a.files, b.files, ops[i].name, ops[i].size);
    if SameName(ops[i].name, ops[i + 1].name) {
      AddedIsNamed(a.files, b.files, ops[i].name, ops[i].size, ops[i + 1].name);
    } else {
      OtherNames(states, ops, i, a, b, ops[i + 1].name);
    }
  }
}
