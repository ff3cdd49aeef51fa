/** The unstable branch of WRITE, write_to_file, and COMMIT over the real file table: every call is
    one step of the storage machine, also after a rename that left two handles with one path. */
module WriteServices {
  import opened Nodes
  import opened Forests
  import opened Wire
  import opened Handles
  import opened Plainness
  import opened Coherence
  import opened Registry
  import opened Resolutions
  import opened RenameSteps
  import opened DotSteps
  import opened FileTables
  import opened Storage
  import opened Statuses

  /** FILE, opened by _fsopen. */
  class Stream {
    const path: string
    var position: nat
    var pending: seq<Patch>

    ghost function Value(): Opened
      reads this
    {
      Opened(path, position, pending)
    }

    constructor (path: string)
      ensures Value() == Opened(path, 0, [])
    {
      this.path := path;
      position := 0;
      pending := [];
    }

    /** _fseeki64, which leaves the position alone for an offset that is negative as a signed number, and
        fwrite of as many bytes as the C library takes. */
    method Put(offset: U64, data: Bytes, env: Env) returns (count: nat)
      modifies this
      ensures Value() == Buffered(old(Value()), offset, data, env)
      ensures count == if env.accepted <= |data| then env.accepted else |data|
      ensures var at := if offset < 0x8000_0000_0000_0000 then offset else old(position);
              position == at + count && pending == old(pending) + [Patch(at, data[..count])]
    {
      if offset < 0x8000_0000_0000_0000 {
        position := offset;
      }
      var taken := Taken(data, env);
      pending := pending + [Patch(position, taken)];
      position := position + |taken|;
      count := |taken|;
      assert taken == data[..count];
    }
  }

  /** The files, and the streams open on them, each of which denies others to write. */
  class Disk {
    var files: map<string, Bytes>
    var streams: set<Stream>

    constructor (files: map<string, Bytes>)
      ensures this.files == files && streams == {}
    {
      this.files := files;
      streams := {};
    }

    /** _fsopen(path, "r+b", _SH_DENYWR) */
    method Open(path: string, permitted: bool) returns (s: Stream?)
      modifies this`streams
      ensures s == null <==> !permitted || path !in files || exists t :: t in old(streams) && t.path == path
      ensures s == null ==> streams == old(streams)
      ensures s != null ==> fresh(s) && s.Value() == Opened(path, 0, []) && streams == old(streams) + {s}
    {
      if !permitted || path !in files || exists t :: t in streams && t.path == path {
        return null;
      }
      s := new Stream(path);
      streams := streams + {s};
    }

    /** fclose: what is pending reaches the file, and the file is free again. */
    method Close(s: Stream)
      requires s.path in files
      modifies this
      ensures streams == old(streams) - {s}
      ensures files == old(files)[s.path := StoreAll(old(files)[s.path], s.pending)]
    {
      files := files[s.path := StoreAll(files[s.path], s.pending)];
      streams := streams - {s};
    }
  }

  /** The member unstableStorageFile of CNFS3Prog, with the files its streams are open on. */
  class StreamTable {
    const disk: Disk
    var unstableStorageFile: map<int, Stream?>
    ghost var opens: map<int, Opened> // the values of the streams
    ghost var keys: map<Stream, int> // the key of each stream

    /** A mapped stream is non-null and open, and mapped once. */
    ghost predicate Backed(k: int)
      requires k in unstableStorageFile
      reads this, disk, disk.streams
    {
      var t := unstableStorageFile[k];
      t != null && t in disk.streams && k in opens && opens[k] == t.Value() && t in keys && keys[t] == k
    }

    /** An open stream is mapped. */
    ghost predicate Owned(t: Stream)
      reads this
    {
      t in keys && keys[t] in unstableStorageFile && unstableStorageFile[keys[t]] == t
    }

    ghost predicate Valid()
      reads this, disk, disk.streams
    {
      && (forall k {:trigger Backed(k)} :: k in unstableStorageFile ==> Backed(k))
      && (forall t {:trigger Owned(t)} :: t in disk.streams ==> Owned(t))
      && (forall k :: k in opens ==> k in unstableStorageFile)
    }

    constructor (disk: Disk)
      requires disk.streams == {}
      ensures Valid() && this.disk == disk && opens == map[]
    {
      this.disk := disk;
      unstableStorageFile, opens, keys := map[], map[], map[];
    }

    lemma LockedByStream(path: string)
      requires Valid()
      ensures Locked(opens, path) <==> exists t :: t in disk.streams && t.path == path
    {
      if Locked(opens, path) {
        var k :| k in opens && opens[k].path == path;
        assert Backed(k);
        assert unstableStorageFile[k] in disk.streams && unstableStorageFile[k].path == path;
      }
      if t :| t in disk.streams && t.path == path {
        assert Owned(t) && Backed(keys[t]);
      }
    }

    /** The stream of the handle, opened at its first use; null when _fsopen fails. */
    method StreamFor(handleId: int, path: string, permitted: bool) returns (pFile: Stream?)
      requires Valid() && path in disk.files
      modifies this, disk`streams
      ensures Valid()
      ensures pFile == null <==> handleId !in old(opens) && (!permitted || Locked(old(opens), path))
      ensures pFile == null ==> opens == old(opens) && disk.streams == old(disk.streams)
      ensures pFile != null ==> handleId in unstableStorageFile && unstableStorageFile[handleId] == pFile
      ensures pFile != null ==> disk.streams == old(disk.streams) + {pFile} && (fresh(pFile) || pFile in old(disk.streams))
      ensures pFile != null ==>
                opens == if handleId in old(opens) then old(opens) else old(opens)[handleId := Opened(path, 0, [])]
    {
      LockedByStream(path);
      if handleId !in unstableStorageFile {
        pFile := disk.Open(path, permitted);
        if pFile != null {
          forall k | k in unstableStorageFile
            ensures Backed(k) && unstableStorageFile[k] != pFile
          {
            assert old(Backed(k));
          }
          forall t | t in disk.streams && t != pFile
            ensures Owned(t)
          {
            assert old(Owned(t));
          }
          Insert(handleId, pFile);
        }
      } else {
        pFile := unstableStorageFile[handleId];
        assert Backed(handleId);
      }
    }

    /** Maps a stream that was just opened. */
    method Insert(handleId: int, pFile: Stream)
      requires handleId !in unstableStorageFile && pFile in disk.streams
      requires forall k {:trigger Backed(k)} :: k in unstableStorageFile ==> Backed(k) && unstableStorageFile[k] != pFile
      requires forall t {:trigger Owned(t)} :: t in disk.streams && t != pFile ==> Owned(t)
      requires forall k :: k in opens ==> k in unstableStorageFile
      modifies this
      ensures Valid()
      ensures unstableStorageFile == old(unstableStorageFile)[handleId := pFile]
      ensures opens == old(opens)[handleId := pFile.Value()]
    {
      unstableStorageFile := unstableStorageFile[handleId := pFile];
      opens := opens[handleId := pFile.Value()];
      keys := keys[pFile := handleId];
      forall k | k in unstableStorageFile
        ensures Backed(k)
      {
        assert k != handleId ==> old(Backed(k));
      }
      forall t | t in disk.streams
        ensures Owned(t)
      {
        assert t != pFile ==> old(Owned(t));
      }
    }

    /** Seek and fwrite on a mapped stream. */
    method PutThrough(handleId: int, pFile: Stream, offset: U64, data: Bytes, env: Env) returns (count: nat)
      requires Valid() && handleId in unstableStorageFile && unstableStorageFile[handleId] == pFile
      modifies this`opens, pFile
      ensures Valid() && handleId in old(opens)
      ensures opens == old(opens)[handleId := Buffered(old(opens)[handleId], offset, data, env)]
      ensures count == |Taken(data, env)|
    {
      assert Backed(handleId);
      count := pFile.Put(offset, data, env);
      opens := opens[handleId := Buffered(opens[handleId], offset, data, env)];
      forall k | k in unstableStorageFile
        ensures Backed(k)
      {
        assert old(Backed(k));
      }
      forall t | t in disk.streams
        ensures Owned(t)
      {
        assert old(Owned(t));
      }
    }

    /** The unstable branch of ProcedureWRITE behind GetFileHandle. */
    method WriteThrough(handleId: int, path: string, offset: U64, data: Bytes, env: Env) returns (reply: Reply)
      requires Valid() && path in disk.files
      modifies this, disk`streams, disk.streams
      ensures Valid() && fresh(disk.streams - old(disk.streams))
      ensures (opens, reply) == BufferWrite(old(opens), handleId, path, offset, data, env)
    {
      ghost var before := opens;
      var pFile := StreamFor(handleId, path, env.permitted);
      if pFile == null {
        return Refused(env.error);
      }
      ghost var first := Opened(path, 0, []);
      assert before[handleId := first][handleId := Buffered(first, offset, data, env)] ==
             before[handleId := Buffered(first, offset, data, env)];
      var count := PutThrough(handleId, pFile, offset, data, env);
      reply := Written(count, UNSTABLE);
    }

    /** write_to_file: open, write and close in one call. */
    method WriteToFile(path: string, offset: U64, data: Bytes, env: Env) returns (reply: Reply)
      requires Valid() && path in disk.files
      modifies disk
      ensures Valid() && disk.streams == old(disk.streams)
      ensures (disk.files, reply) == FileWrite(old(disk.files), opens, path, offset, data, env)
    {
      LockedByStream(path);
      var pFile := disk.Open(path, env.permitted);
      if pFile == null {
        return Refused(env.error);
      }
      var count := pFile.Put(offset, data, env);
      disk.Close(pFile);
      assert disk.streams == old(disk.streams);
      forall k | k in unstableStorageFile
        ensures Backed(k)
      {
        assert old(Backed(k));
      }
      forall t | t in disk.streams
        ensures Owned(t)
      {
        assert old(Owned(t));
      }
      reply := Written(count, FILE_SYNC);
    }

    /** What ProcedureCOMMIT does with the key: the stream is closed and forgotten. A mapped stream is
        never null. */
    method CloseStream(handleId: int)
      requires Valid()
      requires handleId in opens ==> opens[handleId].path in disk.files
      modifies this, disk
      ensures Valid() && disk.streams <= old(disk.streams)
      ensures opens == old(opens) - {handleId}
      ensures disk.files == if handleId in old(opens) then
                              old(disk.files)[old(opens)[handleId].path :=
                                StoreAll(old(disk.files)[old(opens)[handleId].path], old(opens)[handleId].pending)]
                            else old(disk.files)
    {
      if handleId in unstableStorageFile {
        assert Backed(handleId);
        var pFile := unstableStorageFile[handleId];
        if pFile == null {
          assert false;
        } else {
          disk.Close(pFile);
          forall k | k in unstableStorageFile && k != handleId
            ensures Backed(k)
          {
            assert old(Backed(k));
          }
          forall t | t in disk.streams
            ensures Owned(t)
          {
            assert old(Owned(t));
          }
          Erase(handleId, pFile);
        }
      } else {
        assert opens - {handleId} == opens;
      }
    }

    /** Forgets a stream that was just closed. */
    method Erase(handleId: int, pFile: Stream)
      requires handleId in unstableStorageFile && unstableStorageFile[handleId] == pFile && pFile !in disk.streams
      requires forall k {:trigger Backed(k)} :: k in unstableStorageFile && k != handleId ==> Backed(k)
      requires forall t {:trigger Owned(t)} :: t in disk.streams ==> Owned(t)
      requires forall k :: k in opens ==> k in unstableStorageFile
      modifies this
      ensures Valid() && opens == old(opens) - {handleId}
    {
      unstableStorageFile := unstableStorageFile - {handleId};
      opens := opens - {handleId};
      forall k | k in unstableStorageFile
        ensures Backed(k)
      {
        assert old(Backed(k));
      }
      forall t | t in disk.streams
        ensures Owned(t)
      {
        assert old(Owned(t));
      }
    }
  }

  /** The table shares no object with the streams. */
  ghost predicate Apart(files: FileTable, storage: StreamTable)
    reads files.table, storage.disk
  {
    && storage !in files.table.Repr && storage.disk !in files.table.Repr
    && forall t :: t in storage.disk.streams ==> t !in files.table.Repr
  }

  /** CNFS3Prog as far as WRITE and COMMIT go, with the global file table. */
  class WriteService {
    const files: FileTable
    const storage: StreamTable

    ghost predicate Valid()
      reads files, files.table, files.table.Repr
      reads files.tree, files.tree.filesTree, files.tree.filesTree.cells.Keys
      reads storage, storage.disk, storage.disk.streams
    {
      files.Held() && storage.Valid() && Apart(files, storage)
    }

    ghost function Now(): State
      requires files.Held()
      reads files, files.table, files.table.Repr
      reads files.tree, files.tree.filesTree, files.tree.filesTree.cells.Keys
      reads storage, storage.disk
    {
      State(files.Clients(), files.Resolved(), storage.disk.files, storage.opens)
    }

    constructor (files: FileTable, storage: StreamTable)
      requires files.Held() && storage.Valid() && storage.opens == map[] && Apart(files, storage)
      ensures Valid() && Inv(Now()) && Now() == State(files.Clients(), files.Resolved(), storage.disk.files, map[])
    {
      this.files := files;
      this.storage := storage;
      new;
      FilesAreConsistent(files);
    }

    /** GetFileHandle on the path a handle was resolved to. */
    method ResolveAgain(ghost s: State, path: string) returns (handleId: int)
      requires Valid() && Now() == s && path in s.found
      modifies files.tree`topNode, files.tree.filesTree, files.tree.filesTree.cells.Keys, files.table.Repr
      ensures Valid() && Now() == s && s.found[path] < 0x1_0000_0000 && handleId == Key(s.found[path])
      ensures storage.disk.streams == old(storage.disk.streams)
    {
      hide FileTable.Held, StreamTable.Valid, FileTable.Clients, FileTable.Resolved;
      handleId := KnownHandle(files, path);
      assert storage.Valid() == old(storage.Valid());
    }

    /** The unstable branch behind GetFileHandle leaves the table alone. */
    method Keep(ghost s: State, handleId: int, path: string, offset: U64, data: Bytes, env: Env) returns (reply: Reply)
      requires Valid() && Now() == s && path in s.disk
      modifies storage, storage.disk`streams, storage.disk.streams
      ensures Valid()
      ensures Now() == s.(open := BufferWrite(s.open, handleId, path, offset, data, env).0)
      ensures reply == BufferWrite(s.open, handleId, path, offset, data, env).1
    {
      hide FileTable.Held, StreamTable.Valid, FileTable.Clients, FileTable.Resolved, BufferWrite;
      reply := storage.WriteThrough(handleId, path, offset, data, env);
      assert files.Held() == old(files.Held());
    }

    /** ProcedureWRITE behind its checks, with any other stable. */
    method SyncBranch(ghost s: State, ghost id: U32, path: string, offset: U64, data: Bytes, env: Env) returns (reply: Reply)
      requires Valid() && Now() == s && id < |s.view| && s.view[id] == Some(path) && path in s.disk
      modifies storage.disk
      ensures Valid()
      ensures (Now(), reply) == DoWriteSync(s, id, offset, data, env)
    {
      hide FileTable.Held, StreamTable.Valid, FileTable.Clients, FileTable.Resolved, FileWrite;
      reply := storage.WriteToFile(path, offset, data, env);
      assert files.Held() == old(files.Held());
    }

    /** ProcedureWRITE behind its checks, with stable == UNSTABLE. */
    method UnstableBranch(ghost s: State, ghost id: U32, path: string, offset: U64, data: Bytes, env: Env) returns (reply: Reply)
      requires Valid() && Now() == s && id < |s.view| && s.view[id] == Some(path) && path in s.disk && path in s.found
      modifies storage, storage.disk`streams, storage.disk.streams
      modifies files.tree`topNode, files.tree.filesTree, files.tree.filesTree.cells.Keys, files.table.Repr
      ensures Valid()
      ensures (Now(), reply) == DoWriteUnstable(s, id, offset, data, env)
    {
      hide FileTable.Held, StreamTable.Valid, WriteService.Valid, WriteService.Now, BufferWrite;
      var handleId := ResolveAgain(s, path);
      reply := Keep(s, handleId, path, offset, data, env);
    }

    /** ProcedureWRITE behind its checks. */
    method WriteBranch(ghost s: State, ghost id: U32, path: string, offset: U64, stable: U32, data: Bytes, env: Env)
      returns (reply: Reply)
      requires Valid() && Now() == s && id < |s.view| && s.view[id] == Some(path) && path in s.disk
      requires stable == UNSTABLE ==> path in s.found
      modifies storage, storage.disk, storage.disk.streams
      modifies files.tree`topNode, files.tree.filesTree, files.tree.filesTree.cells.Keys, files.table.Repr
      ensures Valid()
      ensures (Now(), reply) == if stable == UNSTABLE then DoWriteUnstable(s, id, offset, data, env)
                                else DoWriteSync(s, id, offset, data, env)
    {
      if stable == UNSTABLE {
        reply := UnstableBranch(s, id, path, offset, data, env);
      } else {
        reply := SyncBranch(s, id, path, offset, data, env);
      }
    }

    /** While no two files share a path, every handle is the one its path is looked up to. */
    lemma EveryHandleIsOwn(id: nat)
      requires Valid() && files.Valid()
      ensures Reached(Now(), id) && (id < |Now().view| && Now().view[id].Some? ==> Own(Now(), id))
    {
      var f, slots := files.tree.filesTree.f, files.table.slots;
      if id < |Now().view| && Now().view[id].Some? {
        ClientsAreDistinct(f, slots);
        FilesAreConsistent(files);
        ViewShows(f, slots, Now().view[id].value);
        SoundIsResolved(f, slots, Now().view[id].value);
        OwnWhenDistinct(Now(), id);
      }
    }

    /** ProcedureWRITE. The path of a file must be found: a registration hidden by another one with the
        same path would be added once more. */
    method ProcedureWRITE(handle: Bytes, offset: U64, stable: U32, data: Bytes, env: Env) returns (reply: Reply)
      requires Valid() && Inv(Now()) && |handle| >= 4
      requires stable == UNSTABLE ==> Reached(Now(), HandleId(handle) as int)
      modifies storage, storage.disk, storage.disk.streams
      modifies files.tree`topNode, files.tree.filesTree, files.tree.filesTree.cells.Keys, files.table.Repr
      ensures Valid() && Inv(Now())
      ensures (Now(), reply) == Step(old(Now()), WriteCall(handle, offset, stable, data, env))
    {
      hide FileTable.Held, StreamTable.Valid, FileTable.Clients, FileTable.Resolved, Inv, Apart, BufferWrite, FileWrite, Resolve;
      ghost var s := Now();
      StepKeepsInv(s, WriteCall(handle, offset, stable, data, env));
      var path := files.GetPathByHandle(handle);
      if path == None {
        return Refused(NFS3ERR_STALE);
      }
      if path.value !in storage.disk.files {
        return Refused(NFS3ERR_NOENT);
      }
      reply := WriteBranch(s, HandleId(handle) as int, path.value, offset, stable, data, env);
    }

    /** The open streams are on files that a RENAME has nothing to do with: Windows moves and removes no
        file that is open, and no directory above one, and what is not on disk lies above nothing. */
    ghost predicate PassesBy(from: string, to: string, moved: bool)
      reads storage
    {
      forall k :: k in storage.opens ==> Aside(from, to, moved, storage.opens[k].path)
    }

    /** The table part of ProcedureRENAME, also one that leaves two handles with one path, is an allowed
        step between the writes: no open stream loses its handle. */
    method ProcedureRENAME(from: string, to: string, targetExists: bool, directoryLink: bool, removed: bool, errorNumber: int)
      returns (ok: bool)
      requires Valid() && Inv(Now()) && files.Valid() && files.tree.topNode != null
      requires RenameCall(files.tree.filesTree.f, from, to, targetExists, directoryLink, removed, errorNumber == 0)
      requires PassesBy(from, to, errorNumber == 0)
      modifies files.tree`topNode, files.tree.filesTree, files.tree.filesTree.cells.Keys, files.table.Repr
      ensures Valid() && Inv(Now())
      ensures var step := Other(Now().view, Now().found, old(Now()).disk);
              Allowed(old(Now()), step) && Now() == Step(old(Now()), step).0
    {
      hide FileTable.Held, FileTable.KeepsAside, StreamTable.Valid, Inv, Sound, RenameCall, DotView, DotsCollide, PerformedWithout, Allowed;
      files.HeldIsShaped();
      ghost var s, f, slots := Now(), files.tree.filesTree.f, files.table.slots;
      ghost var mid;
      ok, mid := files.ProcedureRENAME(from, to, targetExists, directoryLink, removed, errorNumber);
      assert storage.Valid() == old(storage.Valid());
      TracksStay(s, f, slots, from, to, errorNumber == 0);
      StepKeepsInv(s, Other(Now().view, Now().found, s.disk));
    }

    lemma TracksStay(s: State, f: Forest, slots: seq<Node?>, from: string, to: string, moved: bool)
      requires Valid() && Inv(s) && Sound(f) && Coherent(f, slots) && |slots| <= |files.table.slots|
      requires s.view == ViewOf(f, slots) && s.found == Resolution(f, slots) && s.open == storage.opens
      requires PassesBy(from, to, moved) && files.KeepsAside(f, slots, from, to, moved)
      ensures Allowed(s, Other(Now().view, Now().found, s.disk))
    {
      FilesAreConsistent(files);
      forall k | k in s.open && Tracked(s, k)
        ensures s.open[k].path in Now().found && Now().found[s.open[k].path] == s.found[s.open[k].path]
      {
        var path := s.open[k].path;
        assert Aside(from, to, moved, path);
        SoundIsUnshared(f, path);
        assert KeepsLookup(f, slots, files.tree.filesTree.f, files.table.slots, path);
      }
    }

    /** ProcedureCOMMIT: the stream of the client's own handle is closed. */
    method ProcedureCOMMIT(handle: Bytes)
      requires Valid() && Inv(Now()) && |handle| >= 4
      modifies storage, storage.disk
      ensures Valid() && Inv(Now()) && Now() == DoCommit(old(Now()), HandleId(handle) as int)
    {
      hide FileTable.Held, StreamTable.Valid, FileTable.Clients, FileTable.Resolved, Inv;
      ghost var id := HandleId(handle) as int;
      StepKeepsInv(Now(), Commit(id));
      CommitCloses(Now(), id);
      storage.CloseStream(Key(HandleId(handle) as int));
      assert files.Held() == old(files.Held());
    }
  }

  lemma FilesAreConsistent(files: FileTable)
    requires files.Held()
    ensures Consistent(files.Clients(), files.Resolved())
  {
    forall path | path in files.Resolved()
      ensures files.Resolved()[path] < |files.Clients()| && files.Clients()[files.Resolved()[path]] == Some(path)
    {
      ResolutionIsConsistent(files.tree.filesTree.f, files.table.slots, path);
    }
  }

  /** GetFileHandle for a path that is found. */
  method KnownHandle(files: FileTable, path: string) returns (handleId: int)
    requires files.Held() && path in files.Resolved()
    modifies files.tree`topNode, files.tree.filesTree, files.tree.filesTree.cells.Keys, files.table.Repr
    ensures files.Held() && files.Clients() == old(files.Clients()) && files.Resolved() == old(files.Resolved())
    ensures fresh(files.table.Repr - old(files.table.Repr))
    ensures old(files.Resolved())[path] < 0x1_0000_0000 && handleId == Key(old(files.Resolved())[path])
  {
    hide FileTable.Held, Coherent, Known, Hit;
    ghost var f, slots := files.tree.filesTree.f, files.table.slots;
    files.HeldIsShaped();
    ResolutionAt(f, slots, path);
    ShownAs(files, f, slots);
    var handle := files.GetHandleByPath(path);
    ShownAs(files, f, slots);
    handleId := Key(HandleId(handle.value) as int);
  }

  /** What a table shows depends on its tree and its slots alone. */
  lemma ShownAs(files: FileTable, f: Forest, slots: seq<Node?>)
    requires files.Held() && files.tree.filesTree.f == f && files.table.slots == slots
    ensures Coherent(f, slots) && files.Clients() == ViewOf(f, slots) && files.Resolved() == Resolution(f, slots)
  {
  }
}
