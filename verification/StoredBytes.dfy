/** What WRITE and COMMIT leave in a file, byte by byte, in the terms of the client: the offset and the
    data it sent, and the count it was told. Behind offset + count the file is as it was, and where two
    writes overlap the later one counts. */
module StoredBytes {
  import opened Nodes
  import opened Wire
  import opened Storage
  import opened Statuses

  /** A write a client was told of, and where it was to go. */
  datatype Report = Report(at: nat, data: Bytes)

  /** The write says something about this byte. */
  predicate Covers(r: Report, i: nat) {
    r.at <= i < r.at + |r.data|
  }

  /** The file with data written at a place: those bytes, the other old ones, and zeros in a gap. */
  ghost predicate WrittenAt(before: Bytes, now: Bytes, at: nat, data: Bytes) {
    if data == [] then now == before
    else
      && |now| == (if at + |data| >= |before| then at + |data| else |before|)
      && (forall i :: at <= i < at + |data| ==> now[i] == data[i - at])
      && (forall i :: 0 <= i < |before| && !(at <= i < at + |data|) ==> now[i] == before[i])
      && (forall i :: |before| <= i < at ==> now[i] == 0)
  }

  /** The length of a file after these writes. */
  function Length(file: Bytes, rs: seq<Report>): (n: nat)
    ensures n >= |file|
  {
    if rs == [] then |file|
    else
      var n, r := Length(file, rs[..|rs| - 1]), rs[|rs| - 1];
      if r.data != [] && r.at + |r.data| > n then r.at + |r.data| else n
  }

  /** The byte at a place: that of the last write that covers it. */
  function ByteAt(file: Bytes, rs: seq<Report>, i: nat): Byte {
    if rs == [] then if i < |file| then file[i] else 0
    else
      var r := rs[|rs| - 1];
      if Covers(r, i) then r.data[i - r.at] else ByteAt(file, rs[..|rs| - 1], i)
  }

  ghost predicate Holds(file: Bytes, rs: seq<Report>, now: Bytes) {
    |now| == Length(file, rs) && forall i :: 0 <= i < |now| ==> now[i] == ByteAt(file, rs, i)
  }

  lemma HoldsOneMore(file: Bytes, rs: seq<Report>, r: Report, before: Bytes, now: Bytes)
    requires Holds(file, rs, before) && WrittenAt(before, now, r.at, r.data)
    ensures Holds(file, rs + [r], now)
  {
    assert (rs + [r])[..|rs|] == rs;
    forall i | 0 <= i < |now|
      ensures now[i] == ByteAt(file, rs + [r], i)
    {
      if i >= |before| && !Covers(r, i) { NothingBehind(file, rs, i); }
    }
  }

  /** Behind its end a file has no bytes. */
  lemma {:induction false} NothingBehind(file: Bytes, rs: seq<Report>, i: nat)
    requires i >= Length(file, rs)
    ensures ByteAt(file, rs, i) == 0
  {
    if rs != [] { NothingBehind(file, rs[..|rs| - 1], i); }
  }

  /** Of the writes that cover a byte the last one counts. */
  lemma {:induction false} LastWriteCounts(file: Bytes, rs: seq<Report>, k: nat, i: nat)
    requires k < |rs| && Covers(rs[k], i) && forall j :: k < j < |rs| ==> !Covers(rs[j], i)
    ensures i < Length(file, rs) && ByteAt(file, rs, i) == rs[k].data[i - rs[k].at]
  {
    if k < |rs| - 1 { LastWriteCounts(file, rs[..|rs| - 1], k, i); }
  }

  /** A byte that no write covers is the old one, or zero in a gap. */
  lemma {:induction false} UncoveredStays(file: Bytes, rs: seq<Report>, i: nat)
    requires forall j :: 0 <= j < |rs| ==> !Covers(rs[j], i)
    ensures ByteAt(file, rs, i) == if i < |file| then file[i] else 0
  {
    if rs != [] { UncoveredStays(file, rs[..|rs| - 1], i); }
  }

  /** One write is what WrittenAt says. */
  lemma OneReport(file: Bytes, r: Report, now: Bytes)
    requires Holds(file, [r], now)
    ensures WrittenAt(file, now, r.at, r.data)
  {
    assert [r][..0] == [];
    assert Length(file, []) == |file|;
    forall i | 0 <= i < |now|
      ensures now[i] == if Covers(r, i) then r.data[i - r.at] else if i < |file| then file[i] else 0
    {
      assert ByteAt(file, [], i) == if i < |file| then file[i] else 0;
    }
  }

  // ---------------------------------------------------------------- the patches of the machine

  lemma StoreWrites(file: Bytes, p: Patch)
    ensures WrittenAt(file, Store(file, p), p.at, p.data)
  {
  }

  function AsPatches(rs: seq<Report>): (ps: seq<Patch>)
    ensures |ps| == |rs|
  {
    seq(|rs|, i requires 0 <= i < |rs| => Patch(rs[i].at, rs[i].data))
  }

  lemma {:induction false} StoredHolds(file: Bytes, rs: seq<Report>)
    ensures Holds(file, rs, StoreAll(file, AsPatches(rs)))
  {
    if rs == [] {
      assert AsPatches(rs) == [];
    } else {
      var front, r := rs[..|rs| - 1], rs[|rs| - 1];
      StoredHolds(file, front);
      assert rs == front + [r] && AsPatches(rs) == AsPatches(front) + [Patch(r.at, r.data)];
      StoreConcat(file, AsPatches(front), [Patch(r.at, r.data)]);
      OneStored(StoreAll(file, AsPatches(front)), Patch(r.at, r.data));
      StoreWrites(StoreAll(file, AsPatches(front)), Patch(r.at, r.data));
      HoldsOneMore(file, front, r, StoreAll(file, AsPatches(front)), StoreAll(file, AsPatches(rs)));
    }
  }

  lemma OneStored(file: Bytes, p: Patch)
    ensures StoreAll(file, [p]) == Store(file, p)
  {
    assert [p][1..] == [];
    assert StoreAll(Store(file, p), []) == Store(file, p);
  }

  // ---------------------------------------------------------------- what clients are told

  /** The place of a write. An offset that is negative as a signed number leaves the position where it is:
      behind the last write of the open stream, or at 0 in a file that was just opened. */
  function Place(offset: U64, end: nat): nat {
    if offset < 0x8000_0000_0000_0000 then offset else end
  }

  /** What one call reports, and where the next write goes when its offset does not say. */
  function Reported(s: State, c: Call, id: U32, end: nat): (seq<Report>, nat) {
    var reply := Step(s, c).1;
    match c
    case WriteUnstable(other, offset, data, _) =>
      if PathOf(s.view, other) == PathOf(s.view, id) && reply.Written? && reply.count <= |data| then
        ([Report(Place(offset, end), data[..reply.count])], Place(offset, end) + reply.count)
      else ([], end)
    case WriteSync(other, offset, data, _) =>
      if PathOf(s.view, other) == PathOf(s.view, id) && reply.Written? && reply.count <= |data| then
        ([Report(Place(offset, 0), data[..reply.count])], end)
      else ([], end)
    case _ => ([], end)
  }

  /** The reports about the file of a handle. `end` is where the last write of the open stream ended. */
  function Reports(s: State, calls: seq<Call>, id: U32, end: nat): seq<Report>
    decreases |calls|
  {
    if calls == [] then []
    else
      var (rs, next) := Reported(s, calls[0], id, end);
      rs + Reports(Step(s, calls[0]).0, calls[1..], id, next)
  }

  /** The write through the open stream is the one the client is told of. */
  lemma UnstableReported(s: State, id: U32, offset: U64, data: Bytes, env: Env, own: U32, end: nat)
    requires Inv(s) && Key(own) in s.open && s.open[Key(own)].position == end
    ensures var c := WriteUnstable(id, offset, data, env);
            var (rs, next) := Reported(s, c, own, end);
            && Accepted(s, c, own) == AsPatches(rs)
            && Key(own) in Step(s, c).0.open && Step(s, c).0.open[Key(own)].position == next
  {
    hide Store, Whole, Locked;
    assert Tracked(s, Key(own));
    if PathOf(s.view, id) == PathOf(s.view, own) { StreamIsFound(s, id, own); }
  }

  lemma OtherReported(s: State, c: Call, own: U32, end: nat)
    requires Inv(s) && Allowed(s, c) && c != Commit(own) && !c.WriteUnstable?
    requires Key(own) in s.open && s.open[Key(own)].position == end
    ensures var (rs, next) := Reported(s, c, own, end);
            && Accepted(s, c, own) == AsPatches(rs)
            && Key(own) in Step(s, c).0.open && Step(s, c).0.open[Key(own)].position == next
  {
    StepAddsAccepted(s, c, own);
  }

  lemma {:induction false} ReportsAreAccepted(s: State, calls: seq<Call>, own: U32, end: nat)
    requires Inv(s) && AllAllowed(s, calls) && NoCommit(calls, own)
    requires Key(own) in s.open && s.open[Key(own)].position == end
    ensures AllAccepted(s, calls, own) == AsPatches(Reports(s, calls, own, end))
    decreases |calls|
  {
    if calls == [] {
      assert AsPatches([]) == [];
    } else {
      var c, t := calls[0], Step(s, calls[0]).0;
      var (rs, next) := Reported(s, c, own, end);
      if c.WriteUnstable? { UnstableReported(s, c.id, c.offset, c.data, c.env, own, end); } else { OtherReported(s, c, own, end); }
      StepKeepsInv(s, c);
      assert NoCommit(calls[1..], own) by { assert forall i :: 0 <= i < |calls[1..]| ==> calls[1..][i] == calls[i + 1]; }
      ReportsAreAccepted(t, calls[1..], own, next);
      PatchesConcat(rs, Reports(t, calls[1..], own, next));
    }
  }

  lemma PatchesConcat(a: seq<Report>, b: seq<Report>)
    ensures AsPatches(a + b) == AsPatches(a) + AsPatches(b)
  {
  }

  // ---------------------------------------------------------------- what the files hold

  /** A write that opens its stream. */
  lemma FirstReported(s: State, id: U32, offset: U64, data: Bytes, env: Env)
    requires Inv(s) && id < |s.view| && s.view[id].Some? && s.view[id].value in s.found
    requires Key(s.found[s.view[id].value]) !in s.open
    requires Step(s, WriteUnstable(id, offset, data, env)).1.Written?
    ensures var c, own := WriteUnstable(id, offset, data, env), s.found[s.view[id].value];
            var (t, reply) := Step(s, c);
            && reply.count <= |data|
            && Reported(s, c, own, 0) == ([Report(Place(offset, 0), data[..reply.count])], Place(offset, 0) + reply.count)
            && Accepted(s, c, own) == AsPatches(Reported(s, c, own, 0).0)
            && Key(own) in t.open && t.open[Key(own)].position == Reported(s, c, own, 0).1
  {
    hide Store, Locked, Tracked;
  }

  /** After the COMMIT the file holds what the clients were told: byte by byte the last write that covers
      it, from the one that opened the stream on, and else what was there before. */
  lemma CommittedBytes(s: State, id: U32, offset: U64, data: Bytes, env: Env, calls: seq<Call>)
    requires Inv(s) && id < |s.view| && s.view[id].Some? && s.view[id].value in s.found
    requires Key(s.found[s.view[id].value]) !in s.open
    requires Step(s, WriteUnstable(id, offset, data, env)).1.Written?
    requires AllAllowed(Step(s, WriteUnstable(id, offset, data, env)).0, calls) && NoCommit(calls, s.found[s.view[id].value])
    ensures var path, own, first := s.view[id].value, s.found[s.view[id].value], WriteUnstable(id, offset, data, env);
            var t := After(s, [first] + calls + [Commit(own)]);
            && path in s.disk && path in t.disk && Step(s, first).1.count <= |data|
            && Holds(s.disk[path], Reports(s, [first] + calls, own, 0), t.disk[path])
            && Reports(s, [first] + calls, own, 0) ==
               [Report(Place(offset, 0), data[..Step(s, first).1.count])] +
               Reports(Step(s, first).0, calls, own, Place(offset, 0) + Step(s, first).1.count)
  {
    hide DoWriteUnstable, Store, StoreAll, Holds, AllAllowed, NoCommit, Tracked;
    var path, own, first := s.view[id].value, s.found[s.view[id].value], WriteUnstable(id, offset, data, env);
    var t := Step(s, first).0;
    FirstReported(s, id, offset, data, env);
    StepKeepsInv(s, first);
    CommittedData(s, id, offset, data, env, calls, own);
    var (rs, end) := Reported(s, first, own, 0);
    ReportsAreAccepted(t, calls, own, end);
    assert ([first] + calls)[1..] == calls;
    PatchesConcat(rs, Reports(t, calls, own, end));
    StoredHolds(s.disk[path], Reports(s, [first] + calls, own, 0));
  }

  /** An unstable write and the COMMIT behind it: the data stand where the client said, as many as it was
      told, and nothing else has changed. */
  lemma WrittenAndCommitted(s: State, id: U32, offset: U64, data: Bytes, env: Env)
    requires Inv(s) && Own(s, id) && Key(id) !in s.open
    requires Step(s, WriteUnstable(id, offset, data, env)).1.Written? && offset < 0x8000_0000_0000_0000
    ensures var path, first := s.view[id].value, WriteUnstable(id, offset, data, env);
            var t := After(s, [first, Commit(id)]);
            && path in s.disk && Step(s, first).1.count <= |data| && t.disk.Keys == s.disk.Keys
            && WrittenAt(s.disk[path], t.disk[path], offset, data[..Step(s, first).1.count])
            && forall p :: p in s.disk && p != path ==> t.disk[p] == s.disk[p]
  {
    hide Holds, WrittenAt, Store, StoreAll, Reports, DoWriteUnstable, Inv, Tracked;
    var path, first := s.view[id].value, WriteUnstable(id, offset, data, env);
    assert AllAllowed(Step(s, first).0, []) && NoCommit([], id);
    CommittedBytes(s, id, offset, data, env, []);
    assert [first] + [] + [Commit(id)] == [first, Commit(id)];
    NoReports(Step(s, first).0, id, Place(offset, 0) + Step(s, first).1.count);
    var r := Report(offset, data[..Step(s, first).1.count]);
    assert [r] + [] == [r];
    OneReport(s.disk[path], r, After(s, [first, Commit(id)]).disk[path]);
    StepKeepsInv(s, first);
    FirstWriteOpens(s, id, offset, data, env);
    CommitCloses(Step(s, first).0, id);
    BufferedOnly(s, id, offset, data, env);
    TwoSteps(s, first, Commit(id));
  }

  /** An unstable write changes no file. */
  lemma BufferedOnly(s: State, id: U32, offset: U64, data: Bytes, env: Env)
    ensures Step(s, WriteUnstable(id, offset, data, env)).0.disk == s.disk
  {
  }

  lemma NoReports(s: State, id: U32, end: nat)
    ensures Reports(s, [], id, end) == []
  {
  }

  lemma TwoSteps(s: State, a: Call, b: Call)
    ensures After(s, [a, b]) == Step(Step(s, a).0, b).0
  {
    hide Step;
    assert [a, b][1..] == [b] && [b][1..] == [];
    assert After(Step(Step(s, a).0, b).0, []) == Step(Step(s, a).0, b).0;
  }

  /** What a WRITE is answered, through a handle that its path is looked up to: a handle that stands for nothing
      is stale, a file that is not there has no entry, an open stream takes any unstable write and denies
      every other one, and without a stream Windows decides. The count is what fwrite took. */
  lemma WriteAnswered(s: State, id: U32, offset: U64, data: Bytes, env: Env)
    requires Inv(s) && (PathOf(s.view, id) != None && PathOf(s.view, id).value in s.disk ==> Own(s, id))
    ensures var path, taken := PathOf(s.view, id), if env.accepted <= |data| then env.accepted else |data|;
            var unstable, sync := Step(s, WriteUnstable(id, offset, data, env)).1, Step(s, WriteSync(id, offset, data, env)).1;
            if path == None then unstable == sync == Refused(NFS3ERR_STALE)
            else if path.value !in s.disk then unstable == sync == Refused(NFS3ERR_NOENT)
            else
              && unstable == (if Key(id) in s.open || env.permitted then Written(taken, UNSTABLE) else Refused(env.error))
              && sync == if Key(id) !in s.open && env.permitted then Written(taken, FILE_SYNC) else Refused(env.error)
  {
    hide Store, Locked, Tracked;
    if PathOf(s.view, id) != None && PathOf(s.view, id).value in s.disk { LockIsOwn(s, id); }
  }

  /** A synchronous write is on disk at once; an offset of 2^63 or more leaves it at the beginning. */
  lemma WrittenAtOnce(s: State, id: U32, offset: U64, data: Bytes, env: Env)
    ensures var (t, reply) := Step(s, WriteSync(id, offset, data, env));
            && t.view == s.view && t.found == s.found && t.open == s.open
            && (reply.Written? ==>
                  && PathOf(s.view, id) != None && PathOf(s.view, id).value in s.disk
                  && reply.count <= |data| && t.disk.Keys == s.disk.Keys
                  && WrittenAt(s.disk[PathOf(s.view, id).value], t.disk[PathOf(s.view, id).value],
                               if offset < 0x8000_0000_0000_0000 then offset else 0, data[..reply.count])
                  && forall p :: p in s.disk && p != PathOf(s.view, id).value ==> t.disk[p] == s.disk[p])
            && (!reply.Written? ==> t == s)
  {
    hide Store, WrittenAt, Locked;
    var (t, reply) := Step(s, WriteSync(id, offset, data, env));
    assert data[..|data|] == data;
    if reply.Written? {
      StoreWrites(s.disk[PathOf(s.view, id).value], Patch(Seeked(0, offset), Taken(data, env)));
    }
  }
}
