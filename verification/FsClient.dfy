/** The file system as its clients see it: what each call does to the named byte sequences. */
module FsClients {
  import opened Bytes
  import opened SynchDisks
  import opened FileHeaders
  import opened OpenFiles
  import opened Streams
  import opened Directories
  import opened DiskLayouts
  import opened Catalogs
  import opened FileSystems
  import opened FsInvariants
  import opened FsRefinements
  import opened FsRuns

  /** An operation was done, on the sectors as on the named byte sequences. */
  ghost predicate Done(s: State, op: Op, s': State) {
    && Invariant(s) && Invariant(s') && Next(s, op, s') && AbstractNext(Abstract(s), op, Abstract(s'))
  }

  lemma Refined(s: State, op: Op, s': State)
    requires Invariant(s) && Next(s, op, s')
    ensures Done(s, op, s')
  {
    StepRefines(s, op, s');
  }

  lemma Written(d: Image, e: Image, handles: map<nat, Handle>, id: nat, from: seq<Byte>, position: nat, n: nat)
    requires Invariant(State(d, handles)) && id in handles && WellFormed(handles[id].hdr)
    requires n == Transfer(|from|, position, handles[id].hdr.numBytes) <= |from|
    requires Wrote(d, e, handles[id].hdr, position, from[..n])
    ensures Done(State(d, handles), Op.WriteAt(id, from, position, n), State(e, handles))
  {
    Refined(State(d, handles), Op.WriteAt(id, from, position, n), State(e, handles));
  }

  /** A file system and the files that its clients have open. */
  class Session {
    const fs: FileSystem
    var files: map<nat, OpenFile>
    var keys: map<nat, seq<Byte>>
    ghost var handles: map<nat, Handle>

    /** The open files are what the handles say. */
    ghost predicate FilesMatch()
      reads this, set id | id in files :: files[id].hdr, set id | id in files :: files[id].hdr.dataSectors
    {
      && files.Keys == keys.Keys == handles.Keys
      && forall id :: id in files ==> Matches(files[id], keys[id], handles[id])
    }

    ghost predicate Matches(file: OpenFile, key: seq<Byte>, handle: Handle)
      reads file.hdr, file.hdr.dataSectors
    {
      file.disk == fs.disk && file.hdr.Valid() && handle == Handle(key, file.hdr.View())
    }

    /** The state that the run of operations has come to. */
    ghost function Now(): State
      reads this, fs.disk, fs.disk.sectors
    {
      State(fs.disk.Contents(), handles)
    }

    ghost predicate Valid()
      reads this, fs.disk, fs.disk.sectors, fs.freeMapFile.hdr, fs.freeMapFile.hdr.dataSectors,
            fs.directoryFile.hdr, fs.directoryFile.hdr.dataSectors,
            set id | id in files :: files[id].hdr, set id | id in files :: files[id].hdr.dataSectors
    {
      fs.FilesOpen() && Invariant(Now()) && FilesMatch()
    }

    lemma FileIsOpen(id: nat)
      requires Valid() && id in files
      ensures id in handles && WellFormed(handles[id].hdr) && files[id].disk == fs.disk && files[id].Valid()
      ensures files[id].hdr.View() == handles[id].hdr
    {
      assert Matches(files[id], keys[id], handles[id]);
      assert Live(Catalog(fs.disk.Contents()), handles[id]);
    }

    /** Format a disk. */
    constructor (disk: SynchDisk)
      requires disk.Valid()
      modifies disk.sectors
      ensures Valid() && fs.disk == disk && handles == map[] && Empty(disk.Contents()) && Abstract(Now()) == AbstractState(map[], map[])
    {
      fs := new FileSystem.Format(disk);
      files, keys, handles := map[], map[], map[];
      new;
      EmptyIsSound(disk.Contents());
      NoFiles(disk.Contents());
    }

    method Create(name: seq<Byte>, initialSize: nat) returns (success: bool)
      requires Valid() && SizeOk(fs.disk.Contents(), initialSize)
      modifies fs.disk.sectors
      ensures Valid() && Done(old(Now()), Op.Create(name, initialSize, success), Now())
    {
      success := CreateFile(name, initialSize);
      Refined(old(Now()), Op.Create(name, initialSize, success), Now());
    }

    method CreateFile(name: seq<Byte>, initialSize: nat) returns (success: bool)
      requires fs.Valid() && FilesMatch() && SizeOk(fs.disk.Contents(), initialSize)
      modifies fs.disk.sectors
      ensures fs.FilesOpen() && FilesMatch() && CreateEffect(old(fs.disk.Contents()), fs.disk.Contents(), name, initialSize, success)
    {
      success := fs.Create(name, initialSize);
    }

    /** The open files of that name can no longer be used. */
    method Remove(name: seq<Byte>) returns (success: bool)
      requires Valid()
      modifies this, fs.disk.sectors
      ensures Valid() && Done(old(Now()), Op.Remove(name, success), Now())
    {
      success := RemoveFile(name);
      Refined(old(Now()), Op.Remove(name, success), Now());
    }

    method RemoveFile(name: seq<Byte>) returns (success: bool)
      requires fs.Valid() && FilesMatch()
      modifies this, fs.disk.sectors
      ensures fs.FilesOpen() && FilesMatch() && RemoveEffect(old(fs.disk.Contents()), fs.disk.Contents(), name, success)
      ensures handles == if success then old(handles) - Stale(old(handles), Key(name)) else old(handles)
    {
      success := fs.Remove(name);
      if success {
        Close(Key(name));
      }
    }

    method Close(key: seq<Byte>)
      requires FilesMatch()
      modifies this
      ensures FilesMatch() && handles == old(handles) - Stale(old(handles), key)
    {
      var stale := set id | id in keys && keys[id] == key;
      assert Stale(handles, key) == stale by {
        assert forall id :: id in files ==> handles[id].key == keys[id];
      }
      files, keys, handles := files - stale, keys - stale, handles - stale;
    }

    method Open(name: seq<Byte>, id: nat) returns (success: bool)
      requires Valid() && id !in files
      modifies this
      ensures Valid() && Done(old(Now()), Op.Open(name, id, success), Now())
    {
      var file := fs.Open(name);
      success := file != null;
      if success {
        Keep(id, Key(name), file);
      }
      Refined(old(Now()), Op.Open(name, id, success), Now());
    }

    method Keep(id: nat, key: seq<Byte>, file: OpenFile)
      requires FilesMatch() && file.disk == fs.disk && file.hdr.Valid()
      modifies this
      ensures FilesMatch() && handles == old(handles)[id := Handle(key, file.hdr.View())]
    {
      files, keys := files[id := file], keys[id := key];
      handles := handles[id := Handle(key, file.hdr.View())];
    }

    method ReadAt(id: nat, numBytes: int, position: nat) returns (bytes: seq<Byte>)
      requires Valid() && id in files
      ensures Done(Now(), Op.ReadAt(id, numBytes, position, bytes), Now())
    {
      FileIsOpen(id);
      bytes := Read(files[id], numBytes, position);
      Refined(Now(), Op.ReadAt(id, numBytes, position, bytes), Now());
    }

    method WriteFile(id: nat, file: OpenFile, from: seq<Byte>, position: nat) returns (n: nat)
      requires fs.FilesOpen() && FilesMatch() && id in handles && file.disk == fs.disk && file.Valid() && file.hdr.View() == handles[id].hdr
      modifies fs.disk.sectors
      ensures fs.FilesOpen() && FilesMatch() && n == Transfer(|from|, position, handles[id].hdr.numBytes) <= |from|
      ensures Wrote(old(fs.disk.Contents()), fs.disk.Contents(), handles[id].hdr, position, from[..n])
    {
      n := file.WriteAt(from, |from|, position);
    }

    method DoWrite(id: nat, from: seq<Byte>, position: nat) returns (n: nat)
      requires Valid() && id in files
      modifies fs.disk.sectors
      ensures fs.FilesOpen() && FilesMatch() && Done(old(Now()), Op.WriteAt(id, from, position, n), Now())
    {
      FileIsOpen(id);
      ghost var d := fs.disk.Contents();
      n := WriteFile(id, files[id], from, position);
      Written(d, fs.disk.Contents(), handles, id, from, position, n);
    }

    method WriteAt(id: nat, from: seq<Byte>, position: nat) returns (n: nat)
      requires Valid() && id in files
      modifies fs.disk.sectors
      ensures Valid() && Done(old(Now()), Op.WriteAt(id, from, position, n), Now())
    {
      n := DoWrite(id, from, position);
    }
  }

  /** Read into a buffer of the requested size. */
  method Read(file: OpenFile, numBytes: int, position: nat) returns (bytes: seq<Byte>)
    requires file.Valid()
    ensures bytes == ReadResult(file.Contents(), numBytes, position)
  {
    var into := new Byte[if numBytes > 0 then numBytes else 0](i => 0);
    var n := file.ReadAt(into, 0, numBytes, position);
    bytes := into[..n];
  }

  /** What clients may ask for. */
  datatype Request =
    | ToCreate(name: seq<Byte>, size: nat)
    | ToRemove(name: seq<Byte>)
    | ToOpen(name: seq<Byte>, id: nat)
    | ToRead(id: nat, numBytes: int, position: nat)
    | ToWrite(id: nat, data: seq<Byte>, position: nat)

  /** The size fits a header, the number for a new open file is not taken, the file to read or write is open. */
  ghost predicate Possible(request: Request, s: State) {
    match request
    case ToCreate(_, size) => size <= MaxFileSize
    case ToRemove(_) => true
    case ToOpen(_, id) => id !in s.handles
    case ToRead(id, _, _) => id in s.handles
    case ToWrite(id, _, _) => id in s.handles
  }

  /** The operation is the one that was asked for. */
  ghost predicate Answers(op: Op, request: Request) {
    match request
    case ToCreate(name, size) => op.Create? && op == Op.Create(name, size, op.ok)
    case ToRemove(name) => op.Remove? && op == Op.Remove(name, op.ok)
    case ToOpen(name, id) => op.Open? && op == Op.Open(name, id, op.ok)
    case ToRead(id, numBytes, position) => op.ReadAt? && op == Op.ReadAt(id, numBytes, position, op.bytes)
    case ToWrite(id, data, position) => op.WriteAt? && op == Op.WriteAt(id, data, position, op.n)
  }

  /** One request; it is passed over if it is not possible. */
  method Serve(session: Session, request: Request) returns (served: bool, ghost op: Op)
    requires session.Valid()
    modifies session, session.fs.disk.sectors
    ensures session.Valid() && served == Possible(request, old(session.Now()))
    ensures if served then Answers(op, request) && Done(old(session.Now()), op, session.Now()) else session.Now() == old(session.Now())
  {
    op := Op.Remove([], false);
    match request
    case ToCreate(name, size) =>
      served := size <= MaxFileSize;
      if served {
        var success := session.Create(name, size);
        op := Op.Create(name, size, success);
      }
    case ToRemove(name) =>
      var success := session.Remove(name);
      served, op := true, Op.Remove(name, success);
    case ToOpen(name, id) =>
      served := id !in session.files;
      if served {
        var success := session.Open(name, id);
        op := Op.Open(name, id, success);
      }
    case ToRead(id, numBytes, position) =>
      served := id in session.files;
      if served {
        var bytes := session.ReadAt(id, numBytes, position);
        op := Op.ReadAt(id, numBytes, position, bytes);
      }
    case ToWrite(id, data, position) =>
      served := id in session.files;
      if served {
        var n := session.WriteAt(id, data, position);
        op := Op.WriteAt(id, data, position, n);
      }
  }

  /** The session has come to the end of the run. */
  ghost predicate AtEnd(session: Session, states: seq<State>, ops: seq<Op>)
    reads session, session.fs.disk, session.fs.disk.sectors
  {
    IsRun(states, ops) && session.Now() == states[|ops|]
  }

  /** Each request that was possible when its turn came was answered by one operation, and there are no others. */
  ghost predicate AllServed(requests: seq<Request>, states: seq<State>, ops: seq<Op>)
    decreases |requests|
  {
    && |states| == |ops| + 1
    && if requests == [] then ops == []
       else
         var n, last := |requests| - 1, |ops| - 1;
         || (!Possible(requests[n], states[|ops|]) && AllServed(requests[..n], states, ops))
         || (last >= 0 && Possible(requests[n], states[last]) && Answers(ops[last], requests[n])
             && AllServed(requests[..n], states[..last + 1], ops[..last]))
  }

  /** Format a disk and serve requests: the states of the objects are a run of the operations asked for. */
  method Execute(disk: SynchDisk, requests: seq<Request>) returns (session: Session, ghost states: seq<State>, ghost ops: seq<Op>)
    requires disk.Valid()
    modifies disk.sectors
    ensures session.Valid() && AtEnd(session, states, ops) && AllServed(requests, states, ops)
  {
    session := new Session(disk);
    Started(session.Now());
    states, ops := ServeAll(session, requests);
  }

  lemma Started(s: State)
    requires Empty(s.disk) && s.handles == map[]
    ensures IsRun([s], [])
  {
  }

  method ServeAll(session: Session, requests: seq<Request>) returns (ghost states: seq<State>, ghost ops: seq<Op>)
    requires session.Valid() && AtEnd(session, [session.Now()], [])
    modifies session, session.fs.disk.sectors
    ensures session.Valid() && AtEnd(session, states, ops) && AllServed(requests, states, ops)
  {
    states, ops := [session.Now()], [];
    for i := 0 to |requests|
      invariant session.Valid() && AtEnd(session, states, ops) && AllServed(requests[..i], states, ops)
    {
      states, ops := ServeNext(session, requests, i, states, ops);
    }
    assert requests[..|requests|] == requests;
  }

  /** A run goes on with the answer to one more request, if it is possible. */
  lemma ServedNext(requests: seq<Request>, i: nat, states: seq<State>, ops: seq<Op>, op: Op, s: State)
    returns (states': seq<State>, ops': seq<Op>)
    requires i < |requests| && AllServed(requests[..i], states, ops) && IsRun(states, ops)
    requires if Possible(requests[i], states[|ops|]) then Answers(op, requests[i]) && Done(states[|ops|], op, s) else s == states[|ops|]
    ensures IsRun(states', ops') && s == states'[|ops'|] && AllServed(requests[..i + 1], states', ops')
  {
    assert requests[..i + 1][..i] == requests[..i];
    states', ops' := states, ops;
    if Possible(requests[i], states[|ops|]) {
      Continued(states, ops, op, s);
      states', ops' := states + [s], ops + [op];
      assert states'[..|states|] == states && ops'[..|ops|] == ops;
    }
  }

  method ServeNext(session: Session, requests: seq<Request>, i: nat, ghost states: seq<State>, ghost ops: seq<Op>)
    returns (ghost states': seq<State>, ghost ops': seq<Op>)
    requires i < |requests| && session.Valid() && AtEnd(session, states, ops) && AllServed(requests[..i], states, ops)
    modifies session, session.fs.disk.sectors
    ensures session.Valid() && AtEnd(session, states', ops') && AllServed(requests[..i + 1], states', ops')
  {
    var served, op := Serve(session, requests[i]);
    states', ops' := ServedNext(requests, i, states, ops, op, session.Now());
  }
}
