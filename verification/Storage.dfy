/** UNSTABLE WRITE and COMMIT (src/NFS3Prog/WRITE.cpp, src/NFS3Prog/COMMIT.cpp) as a state machine
    over the handle view, the lookups of the file table, the files on disk and the streams kept open
    between calls. Two handles may stand for one path: WRITE keys its stream by the handle the path is
    looked up to, COMMIT by the handle of the client. */
module Storage {
  import opened Nodes
  import opened Wire
  import opened SocketStreams
  import opened Handles
  import opened HandleMachine
  import opened Statuses

  /** An accepted fwrite. */
  datatype Patch = Patch(at: nat, data: Bytes)

  /** Storing behind the end fills the gap with zeros; storing nothing changes nothing. */
  function Store(file: Bytes, p: Patch): Bytes {
    if p.data == [] then file
    else if p.at <= |file| then Overwrite(file, p.at, p.data)
    else file + Zeros(p.at - |file|) + p.data
  }

  function StoreAll(file: Bytes, ps: seq<Patch>): Bytes
    decreases |ps|
  {
    if ps == [] then file else StoreAll(Store(file, ps[0]), ps[1..])
  }

  lemma {:induction false} StoreConcat(file: Bytes, a: seq<Patch>, b: seq<Patch>)
    ensures StoreAll(file, a + b) == StoreAll(StoreAll(file, a), b)
    decreases |a|
  {
    if a == [] {
      assert a + b == b;
    } else {
      assert (a + b)[1..] == a[1..] + b;
      StoreConcat(Store(file, a[0]), a[1..], b);
    }
  }

  /** A FILE * opened with _SH_DENYWR: `pending` has not reached the disk yet. */
  datatype Opened = Opened(path: string, position: nat, pending: seq<Patch>)

  /** `found` is what GetHandleByPath finds without adding anything: for a path the number of a handle. */
  datatype State = State(view: View, found: map<string, nat>, disk: map<string, Bytes>, open: map<int, Opened>)

  /** The int handleId: the unsigned index taken as a signed 32-bit number. */
  function Key(id: U32): (k: int)
    ensures -0x8000_0000 <= k < 0x8000_0000 && IdOf(k) == id
  {
    if id < 0x8000_0000 then id else id - 0x1_0000_0000
  }

  function IdOf(key: int): int {
    if key >= 0 then key else key + 0x1_0000_0000
  }

  /** What Windows and the C library decide during a call: whether _fsopen may succeed and the
      status its errno stands for otherwise, and how many bytes fwrite takes. */
  datatype Env = Env(permitted: bool, error: U32, accepted: nat)

  datatype Call =
    | WriteUnstable(id: U32, offset: U64, data: Bytes, env: Env)
    | WriteSync(id: U32, offset: U64, data: Bytes, env: Env)
    | Commit(id: U32)
    | Flush(key: int, n: nat) // the C library empties part of its buffer
    | Other(view: View, found: map<string, nat>, disk: map<string, Bytes>) // any other procedure

  datatype Reply = Refused(stat: U32) | Written(count: nat, stable: U32) | Done

  /** The call of a client that sends this handle. */
  function WriteCall(handle: Bytes, offset: U64, stable: U32, data: Bytes, env: Env): Call
    requires |handle| >= 4
  {
    var id := HandleId(handle) as int;
    if stable == UNSTABLE then WriteUnstable(id, offset, data, env) else WriteSync(id, offset, data, env)
  }

  // ---------------------------------------------------------------- single calls

  function PathOf(v: View, id: nat): Option<string> {
    if id < |v| then v[id] else None
  }

  /** A stream on the path denies a second one. */
  predicate Locked(open: map<int, Opened>, path: string) {
    exists k :: k in open && open[k].path == path
  }

  /** _fseeki64 takes the offset as signed and leaves the position alone when it is negative. */
  function Seeked(position: nat, offset: U64): nat {
    if offset < 0x8000_0000_0000_0000 then offset else position
  }

  function Taken(data: Bytes, env: Env): Bytes {
    if env.accepted <= |data| then data[..env.accepted] else data
  }

  /** Seek and fwrite on an open stream. */
  function Buffered(o: Opened, offset: U64, data: Bytes, env: Env): Opened {
    var at := Seeked(o.position, offset);
    Opened(o.path, at + |Taken(data, env)|, o.pending + [Patch(at, Taken(data, env))])
  }

  /** The unstable branch once the handle is resolved again: the stream under the key is used, or
      opened first. */
  function BufferWrite(open: map<int, Opened>, key: int, path: string, offset: U64, data: Bytes, env: Env)
    : (map<int, Opened>, Reply)
  {
    if key in open then (open[key := Buffered(open[key], offset, data, env)], Written(|Taken(data, env)|, UNSTABLE))
    else if !env.permitted || Locked(open, path) then (open, Refused(env.error))
    else (open[key := Buffered(Opened(path, 0, []), offset, data, env)], Written(|Taken(data, env)|, UNSTABLE))
  }

  /** GetHandleByPath: a path that is not found is registered once more, under a new handle. */
  function Resolve(s: State, path: string): (State, nat) {
    if path in s.found then (s, s.found[path])
    else (s.(view := s.view + [Some(path)], found := s.found[path := |s.view|]), |s.view|)
  }

  /** No more handles are issued than there are numbers; the source would start again at zero. */
  function DoWriteUnstable(s: State, id: U32, offset: U64, data: Bytes, env: Env): (State, Reply) {
    var path := PathOf(s.view, id);
    if path == None then (s, Refused(NFS3ERR_STALE))
    else if path.value !in s.disk then (s, Refused(NFS3ERR_NOENT))
    else
      var (t, handle) := Resolve(s, path.value);
      if handle >= 0x1_0000_0000 then (s, Refused(env.error))
      else
        var (open, reply) := BufferWrite(s.open, Key(handle), path.value, offset, data, env);
        (t.(open := open), reply)
  }

  /** write_to_file. */
  function FileWrite(disk: map<string, Bytes>, open: map<int, Opened>, path: string, offset: U64, data: Bytes, env: Env)
    : (map<string, Bytes>, Reply)
    requires path in disk
  {
    if !env.permitted || Locked(open, path) then (disk, Refused(env.error))
    else (disk[path := Store(disk[path], Patch(Seeked(0, offset), Taken(data, env)))], Written(|Taken(data, env)|, FILE_SYNC))
  }

  function DoWriteSync(s: State, id: U32, offset: U64, data: Bytes, env: Env): (State, Reply) {
    var path := PathOf(s.view, id);
    if path == None then (s, Refused(NFS3ERR_STALE))
    else if path.value !in s.disk then (s, Refused(NFS3ERR_NOENT))
    else
      var (disk, reply) := FileWrite(s.disk, s.open, path.value, offset, data, env);
      (s.(disk := disk), reply)
  }

  /** The stream's file with everything written to it. */
  function Whole(s: State, key: int): Bytes
    requires key in s.open && s.open[key].path in s.disk
  {
    StoreAll(s.disk[s.open[key].path], s.open[key].pending)
  }

  /** COMMIT keys by the handle of the client and succeeds whatever it finds. */
  function DoCommit(s: State, id: U32): State {
    var key := Key(id);
    if key in s.open && s.open[key].path in s.disk then
      s.(disk := s.disk[s.open[key].path := Whole(s, key)], open := s.open - {key})
    else s
  }

  function DoFlush(s: State, key: int, n: nat): State {
    if key in s.open && n <= |s.open[key].pending| && s.open[key].path in s.disk then
      var o := s.open[key];
      s.(disk := s.disk[o.path := StoreAll(s.disk[o.path], o.pending[..n])],
         open := s.open[key := o.(pending := o.pending[n..])])
    else s
  }

  function Step(s: State, c: Call): (State, Reply) {
    match c
    case WriteUnstable(id, offset, data, env) => DoWriteUnstable(s, id, offset, data, env)
    case WriteSync(id, offset, data, env) => DoWriteSync(s, id, offset, data, env)
    case Commit(id) => (DoCommit(s, id), Done)
    case Flush(key, n) => (DoFlush(s, key, n), Done)
    case Other(view, found, disk) => (s.(view := view, found := found, disk := disk), Done)
  }

  function After(s: State, calls: seq<Call>): State
    decreases |calls|
  {
    if calls == [] then s else After(Step(s, calls[0]).0, calls[1..])
  }

  // ---------------------------------------------------------------- the invariant

  /** What a lookup finds stands for the path that was looked up. */
  ghost predicate Consistent(view: View, found: map<string, nat>) {
    |view| <= 0x1_0000_0000 && forall p :: p in found ==> found[p] < |view| && view[found[p]] == Some(p)
  }

  /** If the handle stands for a file on disk, the path of the file is found. */
  predicate Reached(s: State, id: nat) {
    id < |s.view| && s.view[id].Some? && s.view[id].value in s.disk ==> s.view[id].value in s.found
  }

  /** Looking the path of the handle up gives the handle back. */
  predicate Own(s: State, id: nat) {
    id < |s.view| && s.view[id].Some? && s.view[id].value in s.found && s.found[s.view[id].value] == id
  }

  /** The stream under a key belongs to the file the handle with that number stands for, and looking
      the path up gives that handle. */
  predicate Tracked(s: State, key: int) {
    key in s.open ==>
      && -0x8000_0000 <= key < 0x8000_0000
      && Own(s, IdOf(key)) && s.view[IdOf(key)] == Some(s.open[key].path)
      && s.open[key].path in s.disk
  }

  ghost predicate Inv(s: State) {
    Consistent(s.view, s.found) && forall k :: k in s.open ==> Tracked(s, k)
  }

  /** Windows keeps every other procedure away from a file with an open stream: it can be neither
      written nor renamed nor removed, and nothing can be renamed onto it or onto a directory above it.
      Its handle stays as it is, and so does what its path is looked up to. Handles are only ever added. */
  ghost predicate Allowed(s: State, c: Call) {
    c.Other? ==>
      && Consistent(c.view, c.found) && |s.view| <= |c.view|
      && forall k :: k in s.open && Tracked(s, k) ==>
           && c.view[IdOf(k)] == s.view[IdOf(k)]
           && s.open[k].path in c.found && c.found[s.open[k].path] == s.found[s.open[k].path]
           && s.open[k].path in c.disk && c.disk[s.open[k].path] == s.disk[s.open[k].path]
  }

  ghost predicate AllAllowed(s: State, calls: seq<Call>)
    decreases |calls|
  {
    calls == [] || (Allowed(s, calls[0]) && AllAllowed(Step(s, calls[0]).0, calls[1..]))
  }

  /** At most one stream is open on a file. */
  lemma OneStreamPerFile(s: State, j: int, k: int)
    requires Inv(s) && j in s.open && k in s.open && s.open[j].path == s.open[k].path
    ensures j == k
  {
    assert Tracked(s, j) && Tracked(s, k);
  }

  /** The file of a handle its path is looked up to is locked exactly when the stream of that handle
      is open. */
  lemma LockIsOwn(s: State, id: U32)
    requires Inv(s) && Own(s, id)
    ensures Locked(s.open, s.view[id].value) <==> Key(id) in s.open
  {
    if Key(id) in s.open { assert Tracked(s, Key(id)); }
    if Locked(s.open, s.view[id].value) {
      var k :| k in s.open && s.open[k].path == s.view[id].value;
      assert Tracked(s, k);
    }
  }

  lemma UnstableKeepsInv(s: State, id: U32, offset: U64, data: Bytes, env: Env)
    requires Inv(s)
    ensures Inv(DoWriteUnstable(s, id, offset, data, env).0)
  {
    hide Taken, Seeked, Locked;
    var t := DoWriteUnstable(s, id, offset, data, env).0;
    forall k | k in t.open
      ensures Tracked(t, k)
    {
      if k in s.open { assert Tracked(s, k); }
    }
  }

  lemma StepKeepsInv(s: State, c: Call)
    requires Inv(s) && Allowed(s, c)
    ensures Inv(Step(s, c).0)
  {
    hide DoWriteUnstable, Taken, Seeked, Store, StoreAll, Locked;
    if c.WriteUnstable? {
      UnstableKeepsInv(s, c.id, c.offset, c.data, c.env);
    } else {
      var t := Step(s, c).0;
      forall k | k in t.open
        ensures Tracked(t, k)
      {
        if k in s.open { assert Tracked(s, k); }
      }
    }
  }

  lemma {:induction false} RunKeepsInv(s: State, calls: seq<Call>)
    requires Inv(s) && AllAllowed(s, calls)
    ensures Inv(After(s, calls))
    decreases |calls|
  {
    if calls != [] {
      StepKeepsInv(s, calls[0]);
      RunKeepsInv(Step(s, calls[0]).0, calls[1..]);
    }
  }

  /** In a table whose handles stand for different paths, and which finds whatever is registered, every
      handle is the one its path is looked up to. */
  lemma OwnWhenDistinct(s: State, id: nat)
    requires Consistent(s.view, s.found) && Distinct(s.view)
    requires id < |s.view| && s.view[id].Some? && s.view[id].value in s.found
    ensures Own(s, id)
  {
    var j := s.found[s.view[id].value];
    assert s.view[j] == s.view[id];
  }

  // ---------------------------------------------------------------- what a file should hold

  /** What the call adds to the file of a handle, judged by its reply: writes through any handle that
      stands for the same path count. */
  function Accepted(s: State, c: Call, id: U32): seq<Patch> {
    if (c.WriteUnstable? || c.WriteSync?) && PathOf(s.view, c.id) == PathOf(s.view, id) && Step(s, c).1.Written? then
      var position := if c.WriteUnstable? && Key(id) in s.open then s.open[Key(id)].position else 0;
      [Patch(Seeked(position, c.offset), if Step(s, c).1.count <= |c.data| then c.data[..Step(s, c).1.count] else c.data)]
    else []
  }

  function AllAccepted(s: State, calls: seq<Call>, id: U32): seq<Patch>
    decreases |calls|
  {
    if calls == [] then [] else Accepted(s, calls[0], id) + AllAccepted(Step(s, calls[0]).0, calls[1..], id)
  }

  ghost predicate NoCommit(calls: seq<Call>, id: U32) {
    forall i :: 0 <= i < |calls| ==> calls[i] != Commit(id)
  }

  /** A call leaves an open stream open, on the same file, and adds these patches to the file. */
  ghost predicate Adds(s: State, t: State, key: int, patches: seq<Patch>) {
    && key in s.open && Tracked(s, key)
    && key in t.open && Tracked(t, key)
    && t.open[key].path == s.open[key].path
    && Whole(t, key) == StoreAll(Whole(s, key), patches)
  }

  /** A path with an open stream is looked up to the handle of the stream. */
  lemma StreamIsFound(s: State, id: U32, own: U32)
    requires Inv(s) && Key(own) in s.open && PathOf(s.view, id) == PathOf(s.view, own)
    ensures var path := s.open[Key(own)].path;
            PathOf(s.view, id) == Some(path) && path in s.disk && Resolve(s, path) == (s, own)
  {
    assert Tracked(s, Key(own));
  }

  lemma UnstableAdds(s: State, id: U32, offset: U64, data: Bytes, env: Env, own: U32)
    requires Inv(s) && Key(own) in s.open
    ensures var c := WriteUnstable(id, offset, data, env);
            Adds(s, Step(s, c).0, Key(own), Accepted(s, c, own))
  {
    hide DoWriteUnstable, Adds, Inv;
    if PathOf(s.view, id) == PathOf(s.view, own) {
      OwnUnstableAdds(s, id, offset, data, env, own);
    } else {
      OtherUnstableAdds(s, id, offset, data, env, own);
    }
  }

  lemma OtherUnstableAdds(s: State, id: U32, offset: U64, data: Bytes, env: Env, own: U32)
    requires Inv(s) && Key(own) in s.open && PathOf(s.view, id) != PathOf(s.view, own)
    ensures Adds(s, DoWriteUnstable(s, id, offset, data, env).0, Key(own), [])
  {
    hide Store, Taken, Seeked, Locked, Buffered;
    UnstableKeepsInv(s, id, offset, data, env);
    assert Tracked(s, Key(own)) && Tracked(DoWriteUnstable(s, id, offset, data, env).0, Key(own));
  }

  lemma OwnUnstableAdds(s: State, id: U32, offset: U64, data: Bytes, env: Env, own: U32)
    requires Inv(s) && Key(own) in s.open && PathOf(s.view, id) == PathOf(s.view, own)
    ensures var c := WriteUnstable(id, offset, data, env);
            Adds(s, Step(s, c).0, Key(own), Accepted(s, c, own))
  {
    hide Store, Resolve, Locked;
    var c, o := WriteUnstable(id, offset, data, env), s.open[Key(own)];
    StreamIsFound(s, id, own);
    UnstableKeepsInv(s, id, offset, data, env);
    assert Tracked(s, Key(own)) && Tracked(Step(s, c).0, Key(own));
    assert data[..|data|] == data;
    StoreConcat(s.disk[o.path], o.pending, Accepted(s, c, own));
  }

  lemma SyncAdds(s: State, id: U32, offset: U64, data: Bytes, env: Env, own: U32)
    requires Inv(s) && Key(own) in s.open
    ensures var c := WriteSync(id, offset, data, env);
            Adds(s, Step(s, c).0, Key(own), Accepted(s, c, own))
  {
    var c := WriteSync(id, offset, data, env);
    StepKeepsInv(s, c);
    assert Tracked(s, Key(own)) && Tracked(Step(s, c).0, Key(own));
    LockIsOwn(s, own);
  }

  lemma CommitAdds(s: State, id: U32, own: U32)
    requires Inv(s) && Key(own) in s.open && id != own
    ensures Adds(s, DoCommit(s, id), Key(own), [])
  {
    StepKeepsInv(s, Commit(id));
    assert Tracked(s, Key(own)) && Tracked(DoCommit(s, id), Key(own));
    if Key(id) in s.open && s.open[Key(id)].path == s.open[Key(own)].path {
      OneStreamPerFile(s, Key(id), Key(own));
    }
  }

  lemma FlushAdds(s: State, key: int, n: nat, own: U32)
    requires Inv(s) && Key(own) in s.open
    ensures Adds(s, DoFlush(s, key, n), Key(own), [])
  {
    StepKeepsInv(s, Flush(key, n));
    assert Tracked(s, Key(own)) && Tracked(DoFlush(s, key, n), Key(own));
    if key in s.open && n <= |s.open[key].pending| {
      var o := s.open[key];
      if o.path == s.open[Key(own)].path {
        OneStreamPerFile(s, key, Key(own));
        assert o.pending == o.pending[..n] + o.pending[n..];
        StoreConcat(s.disk[o.path], o.pending[..n], o.pending[n..]);
      }
    }
  }

  /** A call other than its COMMIT leaves an open stream open, on the same file, and adds to the
      file exactly what it accepted. */
  lemma StepAddsAccepted(s: State, c: Call, id: U32)
    requires Inv(s) && Allowed(s, c) && c != Commit(id) && Key(id) in s.open
    ensures Inv(Step(s, c).0) && Adds(s, Step(s, c).0, Key(id), Accepted(s, c, id))
  {
    StepKeepsInv(s, c);
    match c
    case WriteUnstable(i, offset, data, env) => UnstableAdds(s, i, offset, data, env, id);
    case WriteSync(i, offset, data, env) => SyncAdds(s, i, offset, data, env, id);
    case Commit(i) => CommitAdds(s, i, id);
    case Flush(key, n) => FlushAdds(s, key, n, id);
    case Other(_, _, _) => assert Tracked(s, Key(id)) && Tracked(Step(s, c).0, Key(id));
  }

  /** Over any run without its COMMIT an open stream stays open on the same file, and the file with
      the buffer written out is what it was with the accepted writes applied in order. */
  lemma {:induction false} StreamKeepsWrites(s: State, calls: seq<Call>, id: U32)
    requires Inv(s) && AllAllowed(s, calls) && NoCommit(calls, id) && Key(id) in s.open
    ensures Inv(After(s, calls)) && Adds(s, After(s, calls), Key(id), AllAccepted(s, calls, id))
    decreases |calls|
  {
    if calls == [] {
      assert Tracked(s, Key(id));
    } else {
      var t := Step(s, calls[0]).0;
      StepAddsAccepted(s, calls[0], id);
      StreamKeepsWrites(t, calls[1..], id);
      StoreConcat(Whole(s, Key(id)), Accepted(s, calls[0], id), AllAccepted(t, calls[1..], id));
    }
  }

  /** An unstable write goes to the stream of the handle its path is looked up to; the first one opens it. */
  lemma FirstWriteOpens(s: State, id: U32, offset: U64, data: Bytes, env: Env)
    requires Inv(s) && id < |s.view| && s.view[id].Some? && s.view[id].value in s.found
    requires Step(s, WriteUnstable(id, offset, data, env)).1.Written?
    ensures var c, path, own := WriteUnstable(id, offset, data, env), s.view[id].value, s.found[s.view[id].value];
            var t := Step(s, c).0;
            && path in s.disk && own < 0x1_0000_0000 && s.view[own] == Some(path) && t.view == s.view && t.found == s.found
            && Key(own) in t.open && t.open[Key(own)].path == path && Tracked(t, Key(own))
            && (Key(own) !in s.open ==> Whole(t, Key(own)) == StoreAll(s.disk[path], Accepted(s, c, own)))
  {
    var c := WriteUnstable(id, offset, data, env);
    var own := s.found[s.view[id].value];
    StepKeepsInv(s, c);
    assert Tracked(Step(s, c).0, Key(own));
    if Key(own) in s.open { assert Tracked(s, Key(own)); }
    assert data[..|data|] == data && [] + Accepted(s, c, own) == Accepted(s, c, own);
  }

  /** COMMIT closes exactly the stream its handle wrote through, which puts the file on disk as it
      should be; every other stream and every other file stays as it is. */
  lemma CommitCloses(s: State, id: U32)
    requires Inv(s)
    ensures var t := DoCommit(s, id);
            && t.open == s.open - {Key(id)}
            && t.view == s.view
            && (Key(id) in s.open ==> Tracked(s, Key(id)) && t.disk == s.disk[s.open[Key(id)].path := Whole(s, Key(id))])
            && (Key(id) !in s.open ==> t == s)
  {
    if Key(id) in s.open { assert Tracked(s, Key(id)); }
  }

  lemma {:induction false} AfterConcat(s: State, a: seq<Call>, b: seq<Call>)
    ensures After(s, a + b) == After(After(s, a), b)
    decreases |a|
  {
    if a == [] {
      assert a + b == b;
    } else {
      assert (a + b)[1..] == a[1..] + b;
      AfterConcat(Step(s, a[0]).0, a[1..], b);
    }
  }

  /** Committed data: from the unstable write that opens a stream on a file, through any handle that
      stands for it, and whatever happens in between but a COMMIT of the handle the path is looked up to,
      a COMMIT closes the stream exactly when it is one of that handle. Then the disk holds the accepted
      writes applied in order to what the file held before; else they are still waiting. */
  lemma CommittedData(s: State, id: U32, offset: U64, data: Bytes, env: Env, calls: seq<Call>, last: U32)
    requires Inv(s) && id < |s.view| && s.view[id].Some? && s.view[id].value in s.found
    requires Key(s.found[s.view[id].value]) !in s.open
    requires Step(s, WriteUnstable(id, offset, data, env)).1.Written?
    requires AllAllowed(Step(s, WriteUnstable(id, offset, data, env)).0, calls) && NoCommit(calls, s.found[s.view[id].value])
    ensures var path, own := s.view[id].value, s.found[s.view[id].value];
            var writes := [WriteUnstable(id, offset, data, env)] + calls;
            var t := After(s, writes + [Commit(last)]);
            && path in s.disk && path in t.disk
            && (Key(own) !in t.open <==> last == own)
            && (last == own ==> t.disk[path] == StoreAll(s.disk[path], AllAccepted(s, writes, own)))
            && (last != own ==> t.open[Key(own)].path == path && Whole(t, Key(own)) == StoreAll(s.disk[path], AllAccepted(s, writes, own)))
  {
    var first, own := WriteUnstable(id, offset, data, env), s.found[s.view[id].value];
    var t := Step(s, first).0;
    StepKeepsInv(s, first);
    FirstWriteOpens(s, id, offset, data, env);
    StreamKeepsWrites(t, calls, own);
    var u := After(t, calls);
    if last == own { CommitCloses(u, last); } else { CommitAdds(u, last, own); }
    assert ([first] + calls)[1..] == calls;
    AfterConcat(s, [first] + calls, [Commit(last)]);
    assert [Commit(last)][1..] == [];
    assert After(u, [Commit(last)]) == DoCommit(u, last);
    StoreConcat(s.disk[s.view[id].value], Accepted(s, first, own), AllAccepted(t, calls, own));
  }

  /** A handle whose path is looked up to another handle, as after a rename onto a registration that
      outlived its file: the write through it is reported, its own COMMIT is too, and nothing is stored. */
  lemma CommitMisses(path: string, file: Bytes, data: Bytes, env: Env)
    requires env.permitted
    ensures var s := State([Some(path), Some(path)], map[path := 0], map[path := file], map[]);
            var (t, reply) := Step(s, WriteUnstable(1, 0, data, env));
            && Inv(s) && !Own(s, 1) && reply == Written(|Taken(data, env)|, UNSTABLE)
            && Step(t, Commit(1)) == (t, Done) && t.disk == s.disk && t.open.Keys == {0}
  {
  }
}
