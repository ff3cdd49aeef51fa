/** CNFS3Prog over the storage: what LOOKUP, READ, WRITE and COMMIT are answered by the file table, the
    streams and the files, and what a client takes out of the replies. */
module NfsStorage {
  import opened Nodes
  import opened Handles
  import opened Wire
  import opened Arguments
  import opened Results
  import opened SocketStreams
  import opened Codecs
  import opened Rpc
  import opened Statuses
  import opened NfsCalls
  import opened NfsResults
  import opened NfsPrograms
  import opened Paths
  import HandleMachine
  import Storage

  /** What the procedures work on, and the number of calls answered so far. */
  datatype World = World(now: Storage.State, time: nat)

  /** What _fsopen and fwrite decide; errno is told apart no further. */
  type Env = e: Storage.Env | e.error == NFS3ERR_ACCES || e.error == NFS3ERR_IO witness Storage.Env(true, NFS3ERR_IO, 0)

  /** A procedure other than the four: its answer, the handles, the lookups and the files behind it. */
  datatype Effects = Effects(answer: Answer, view: HandleMachine.View, found: map<string, nat>, disk: map<string, Bytes>)

  /** What is not decided here: the characters of a file name, what CheckFile says to a LOOKUP, what the C
      library does in a READ or WRITE, the attributes in every answer, and the other procedures. */
  datatype Windows = Windows(
    text: Bytes -> string,
    check: World -> Checked,
    env: World -> Env,
    base: World -> Answer,
    other: (World, U32, seq<Field>) -> Effects)

  // ---------------------------------------------------------------- the four procedures

  /** A handle of which the server reads four bytes. */
  type FileHandle = d: Short | |d| >= 4 witness Zeros(4)

  /** A READ whose result fits behind the head of the reply, whatever it gets; rtmax of FSINFO is less. */
  const READ_LIMIT := 1_000_000

  type ReadCount = n: U32 | n <= READ_LIMIT

  datatype Request =
    | Lookup(dir: FileHandle, name: Short)
    | Read(file: FileHandle, start: U64, length: ReadCount)
    | Write(file: FileHandle, offset: U64, count: U32, stable: U32, data: Short)
    | Commit(file: FileHandle, from: U64, size: U32)

  function ProcOf(r: Request): (proc: U32)
    ensures proc < PROCEDURES && proc != NULL && proc != MKNOD
  {
    match r case Lookup(_, _) => LOOKUP case Read(_, _, _) => READ case Write(_, _, _, _, _) => WRITE case Commit(_, _, _) => COMMIT
  }

  function ArgsFor(r: Request): seq<Field> {
    match r
    case Lookup(dir, name) => [Where(Diropargs3(dir, name))]
    case Read(file, start, length) => [Data(file), Long(start), Word(length)]
    case Write(file, offset, count, stable, data) => [Data(file), Long(offset), Word(count), Word(stable), Data(data)]
    case Commit(file, from, size) => [Data(file), Long(from), Word(size)]
  }

  function RequestOf(proc: U32, args: seq<Field>): Option<Request> {
    if proc == LOOKUP && Typed(proc, args) && |args[0].w.dir| >= 4 then Some(Lookup(args[0].w.dir, args[0].w.name))
    else if proc == READ && Typed(proc, args) && |args[0].d| >= 4 && args[2].n <= READ_LIMIT then
      Some(Read(args[0].d, args[1].m, args[2].n))
    else if proc == WRITE && Typed(proc, args) && |args[0].d| >= 4 then
      Some(Write(args[0].d, args[1].m, args[2].n, args[3].n, args[4].d))
    else if proc == COMMIT && Typed(proc, args) && |args[0].d| >= 4 then Some(Commit(args[0].d, args[1].m, args[2].n))
    else None
  }

  lemma RequestRoundTrip(r: Request)
    ensures ArgsOk(ProcOf(r), ArgsFor(r)) && RequestOf(ProcOf(r), ArgsFor(r)) == Some(r)
  {
  }

  function Number(file: FileHandle): U32 {
    HandleId(file) as int
  }

  /** GetFullPath; the path of a lost directory is empty. */
  function FullPath(windows: Windows, s: Storage.State, dir: FileHandle, name: Short): string {
    var path := Storage.PathOf(s.view, Number(dir));
    (if path.Some? then path.value else "") + "\\" + windows.text(name)
  }

  /** LOOKUP has found the file and asks for its handle. */
  predicate Finds(windows: Windows, w: World, dir: FileHandle, name: Short) {
    |FullPath(windows, w.now, dir, name)| <= MAXPATHLEN && windows.check(w) == NFS3_OK
  }

  /** The step of the storage machine that a request is. */
  function Meant(windows: Windows, w: World, r: Request): Storage.Call {
    match r
    case Lookup(dir, name) =>
      var t := if Finds(windows, w, dir, name) then Storage.Resolve(w.now, FullPath(windows, w.now, dir, name)).0 else w.now;
      Storage.Other(t.view, t.found, t.disk)
    case Read(_, _, _) => Storage.Other(w.now.view, w.now.found, w.now.disk)
    case Write(file, offset, _, stable, data) => Storage.WriteCall(file, offset, stable, data, windows.env(w))
    case Commit(file, _, _) => Storage.Commit(Number(file))
  }

  /** load_data on a stream opened for it, and whether fgetc then found the end. */
  function Loaded(file: Bytes, start: U64, length: ReadCount): (Chunk, bool) {
    var position := Storage.Seeked(0, start);
    if position >= |file| then ([], true)
    else if position + length < |file| then (file[position..position + length], false)
    else (file[position..], true)
  }

  function ReadAnswer(base: Answer, s: Storage.State, env: Env, file: FileHandle, start: U64, length: ReadCount): Answer {
    match Storage.PathOf(s.view, Number(file))
    case None => base.(check := NFS3ERR_STALE)
    case Some(path) =>
      if path !in s.disk then base.(check := NFS3ERR_NOENT)
      else if !env.permitted || Storage.Locked(s.open, path) then
        base.(check := NFS3_OK, errno := if env.error == NFS3ERR_ACCES then EACCES else OtherErrno)
      else
        var (data, eof) := Loaded(s.disk[path], start, length);
        base.(check := NFS3_OK, errno := NoError, data := data, eof := eof)
  }

  /** What GetFilePath, CheckFile, GetFileHandle, _fsopen and fwrite told WRITE, from what came of it. */
  function WriteAnswer(base: Answer, reply: Storage.Reply): Answer {
    match reply
    case Refused(stat) =>
      if stat == NFS3ERR_STALE || stat == NFS3ERR_NOENT then base.(check := stat)
      else base.(check := NFS3_OK, handle := Some(Zeros(NFS3_FHSIZE)), errno := if stat == NFS3ERR_ACCES then EACCES else OtherErrno)
    case Written(count, _) =>
      base.(check := NFS3_OK, handle := Some(Zeros(NFS3_FHSIZE)), errno := NoError,
            count := if count < 0x1_0000_0000 then count else 0)
    case Done => base
  }

  function LookupAnswer(windows: Windows, w: World, dir: FileHandle, name: Short): Answer {
    var id := Storage.Resolve(w.now, FullPath(windows, w.now, dir, name)).1;
    windows.base(w).(tooLong := |FullPath(windows, w.now, dir, name)| > MAXPATHLEN, check := windows.check(w),
                     handle := if id < 0x1_0000_0000 then Some(HandleBytes(id as uint32)) else None)
  }

  function AnswerTo(windows: Windows, w: World, r: Request): Answer {
    match r
    case Lookup(dir, name) => LookupAnswer(windows, w, dir, name)
    case Read(file, start, length) => ReadAnswer(windows.base(w), w.now, windows.env(w), file, start, length)
    case Write(_, _, _, _, _) => WriteAnswer(windows.base(w), Storage.Step(w.now, Meant(windows, w, r)).1)
    case Commit(_, _, _) => windows.base(w).(nullStream := false) // StreamTable.CloseStream
  }

  function CallOf(windows: Windows, w: World, proc: U32, args: seq<Field>): Storage.Call {
    match RequestOf(proc, args)
    case Some(r) => Meant(windows, w, r)
    case None => var e := windows.other(w, proc, args); Storage.Other(e.view, e.found, e.disk)
  }

  function AnswerOf(windows: Windows, w: World, proc: U32, args: seq<Field>): Answer {
    match RequestOf(proc, args)
    case Some(r) => AnswerTo(windows, w, r)
    case None => windows.other(w, proc, args).answer
  }

  function StorageHost(windows: Windows): Host<World> {
    (w: World, proc: U32, args: seq<Field>) =>
      (AnswerOf(windows, w, proc, args), World(Storage.Step(w.now, CallOf(windows, w, proc, args)).0, w.time + 1))
  }

  /** What the procedure writes for a request. */
  function Outcome(windows: Windows, w: World, r: Request): seq<Datum> {
    ResultData(ProcOf(r), ArgsFor(r), AnswerTo(windows, w, r))
  }

  /** The state behind a request. */
  function Done(windows: Windows, w: World, r: Request): World {
    World(Storage.Step(w.now, Meant(windows, w, r)).0, w.time + 1)
  }

  lemma HostDoes(windows: Windows, w: World, r: Request)
    ensures Result(StorageHost(windows), w, ProcOf(r), ArgsFor(r)) == Outcome(windows, w, r)
    ensures Effect(StorageHost(windows), w, ProcOf(r), ArgsFor(r)) == Done(windows, w, r)
    ensures StorageHost(windows)(w, ProcOf(r), ArgsFor(r)).0 == AnswerTo(windows, w, r)
  {
    hide ResultData, Storage.Step, Meant, AnswerTo, ArgsFor, RequestOf;
    RequestRoundTrip(r);
  }

  // ---------------------------------------------------------------- what the client is told

  /** A client takes these values out of the reply to its call. */
  ghost predicate Tells(reply: Bytes, h: Header, values: seq<Datum>) {
    exists body :: Framed(reply, h, SUCCESS, body) && DecResult(h.proc, body) == Got(values, [])
  }

  lemma FewData(proc: U32, args: seq<Field>, a: Answer)
    requires proc == LOOKUP || proc == WRITE || proc == COMMIT
    ensures var xs := ResultData(proc, args, a);
            |xs| <= 5 && forall i :: 0 <= i < |xs| ==> (xs[i].Opaque? ==> |xs[i].d| <= NFS3_FHSIZE) && !xs[i].PostOpFh3?
  {
  }

  lemma ReadDataBound(args: seq<Field>, a: Answer)
    requires a.check == NFS3_OK && a.errno == NoError ==> |a.data| <= READ_LIMIT
    ensures |EncAll(EncDatum, ResultData(READ, args, a))| <= 4 * PLAIN + READ_LIMIT + 8
  {
    hide EncDatum;
    var xs := ReadData(a);
    if |xs| == 5 {
      assert xs == xs[..4] + [xs[4]];
      AllConcat(EncDatum, xs[..4], [xs[4]]);
      forall i | 0 <= i < 4 ensures |EncDatum(xs[i])| <= PLAIN { DatumBound(xs[i]); }
      DataBound(xs[..4]);
      OpaqueBound(a.data);
      assert EncAll(EncDatum, [xs[4]]) == EncDatum(xs[4]) + EncAll(EncDatum, []);
    } else {
      forall i | 0 <= i < |xs| ensures |EncDatum(xs[i])| <= PLAIN { DatumBound(xs[i]); }
      DataBound(xs);
    }
  }

  /** The results of the four procedures fit, and a COMMIT finds no null stream. */
  lemma ShortResult(windows: Windows, w: World, r: Request)
    ensures |EncAll(EncDatum, Outcome(windows, w, r))| <= Room(true) && Proper(ProcOf(r), AnswerTo(windows, w, r))
  {
    hide EncDatum, ResultData, EncAll;
    var xs := Outcome(windows, w, r);
    if r.Read? {
      ReadDataBound(ArgsFor(r), AnswerTo(windows, w, r));
    } else {
      FewData(ProcOf(r), ArgsFor(r), AnswerTo(windows, w, r));
      forall i | 0 <= i < |xs|
        ensures |EncDatum(xs[i])| <= PLAIN
      {
        DatumBound(xs[i]);
      }
      DataBound(xs);
    }
  }

  /** A call as a client sends it, with an empty verifier and a credential that needs no fill bytes. */
  datatype ClientCall = ClientCall(mark: U32, header: Header, cred: Short, request: Request)

  ghost predicate Sendable(t: Table<World>, windows: Windows, c: ClientCall) {
    && c.header.credLength == |c.cred| && c.header.verfLength == 0 && Padding(|c.cred|) == 0
    && c.header.vers == NFS_VERSION && c.header.proc == ProcOf(c.request)
    && Serves(t, c.header, StorageHost(windows))
  }

  function SentBytes(c: ClientCall): Bytes {
    EncCall(true, c.mark, c.header, c.cred, []) + EncArgs(ArgsFor(c.request))
  }

  /** The reply the server sends to it. */
  function ReplyTo(t: Table<World>, w: World, c: ClientCall): Bytes {
    Reply(t, w, true, c.header, EncArgs(ArgsFor(c.request)), Room(true))
  }

  lemma SentIsRead(t: Table<World>, w: World, windows: Windows, c: ClientCall)
    requires Sendable(t, windows, c)
    ensures var args := EncArgs(ArgsFor(c.request));
            && DecCall(true, SentBytes(c)) == Got(c.header, args)
            && ResultOf(t, w, c.header, args) == PRC_OK && Unread(t, w, c.header, args) == []
            && Rpc.After(t, w, c.header, args) == Done(windows, w, c.request)
  {
    hide ArgsOk, Serves, EncCall, EncArgs, DecCall, StorageHost, Done, ResultOf, Unread, Rpc.After, Payload;
    var args := EncArgs(ArgsFor(c.request));
    RequestRoundTrip(c.request);
    CallRoundTrip(true, c.mark, c.header, c.cred, [], args);
    NfsServed(t, w, c.header, ArgsFor(c.request), [], StorageHost(windows), Room(true));
    assert args + [] == args;
    HostDoes(windows, w, c.request);
  }

  /** The client reads out of the reply exactly what the procedure wrote. */
  lemma TellsOutcome(t: Table<World>, w: World, windows: Windows, c: ClientCall, values: seq<Datum>)
    requires Sendable(t, windows, c)
    ensures Tells(ReplyTo(t, w, c), c.header, values) <==> values == Outcome(windows, w, c.request)
  {
    hide Reply, DecResult, Serves, ArgsOk, EncArgs, EncAll, Outcome, StorageHost, ArgsFor, Effect, Result;
    var args := EncArgs(ArgsFor(c.request));
    RequestRoundTrip(c.request);
    HostDoes(windows, w, c.request);
    ShortResult(windows, w, c.request);
    ClientGetsResult(t, w, c.header, ArgsFor(c.request), [], StorageHost(windows));
    assert args + [] == args;
    var body := Fit(EncAll(EncDatum, Outcome(windows, w, c.request)), Room(true));
    assert Framed(ReplyTo(t, w, c), c.header, SUCCESS, body);
  }

  /** What a client takes out of the reply to a READ: the bytes of the file from the offset on, as many as it
      asked for or all there are, their number, and whether the file ends there. */
  lemma ReadTells(windows: Windows, w: World, r: Request)
    requires r.Read?
    ensures var values, path := Outcome(windows, w, r), Storage.PathOf(w.now.view, Number(r.file));
            && values != []
            && (values[0] == Uint32(NFS3ERR_STALE) <==> path == None)
            && (values[0] == Uint32(NFS3ERR_NOENT) <==> path.Some? && path.value !in w.now.disk)
            && (values[0] == Uint32(NFS3_OK) <==>
                  path.Some? && path.value in w.now.disk && windows.env(w).permitted && !Storage.Locked(w.now.open, path.value))
            && (values[0] == Uint32(NFS3_OK) ==>
                  var file, from := w.now.disk[path.value], if r.start < 0x8000_0000_0000_0000 then r.start else 0;
                  && |values| == 5 && values[4].Opaque? && values[2] == Uint32(|values[4].d|)
                  && |values[4].d| == (if from >= |file| then 0 else if from + r.length <= |file| then r.length else |file| - from)
                  && (forall i :: 0 <= i < |values[4].d| ==> values[4].d[i] == file[from + i])
                  && values[3] == Bool(from + r.length >= |file|))
  {
  }

  lemma WriteReplies(s: Storage.State, handle: FileHandle, offset: U64, stable: U32, data: Short, env: Env)
    ensures match Storage.Step(s, Storage.WriteCall(handle, offset, stable, data, env)).1
            case Refused(stat) => stat == NFS3ERR_STALE || stat == NFS3ERR_NOENT || stat == env.error
            case Written(count, how) => count <= |data| && how == if stable == UNSTABLE then UNSTABLE else FILE_SYNC
            case Done => false
  {
  }

  lemma WriteSays(base: Answer, stable: U32, reply: Storage.Reply)
    requires reply.Refused? ==> reply.stat in {NFS3ERR_STALE, NFS3ERR_NOENT, NFS3ERR_ACCES, NFS3ERR_IO}
    requires reply.Written? ==> reply.count < 0x1_0000_0000 && reply.stable == if stable == UNSTABLE then UNSTABLE else FILE_SYNC
    requires !reply.Done?
    ensures var values := WriteData(stable, WriteAnswer(base, reply));
            match reply
            case Refused(stat) => |values| == 2 && values[0] == Uint32(stat)
            case Written(count, how) =>
              && |values| == 5 && values[0] == Uint32(NFS3_OK) && values[3] == Uint32(how)
              && values[2].Uint32? && values[2].n == count
            case Done => false
  {
    hide Zeros, Changed, AccessOrIo;
    var a := WriteAnswer(base, reply);
    assert reply.Written? ==> a.check == NFS3_OK && a.handle != None && a.errno == NoError && a.count == reply.count;
    WriteRefused(stable, a);
  }

  lemma WriteRefused(stable: U32, a: Answer)
    requires a.handle != None || a.check != NFS3_OK
    ensures a.check != NFS3_OK ==> WriteData(stable, a) == [Uint32(a.check), Wcc(a.wcc)]
    ensures a.check == NFS3_OK && a.errno != NoError ==>
              WriteData(stable, a) == [Uint32(if a.errno == EACCES then NFS3ERR_ACCES else NFS3ERR_IO), Wcc(a.wcc)]
  {
  }

  /** What the reply to a WRITE says is what came of it: the status, and how much was written. */
  lemma WriteTells(windows: Windows, w: World, r: Request)
    requires r.Write?
    ensures var values, reply := Outcome(windows, w, r), Storage.Step(w.now, Meant(windows, w, r)).1;
            match reply
            case Refused(stat) => |values| == 2 && values[0] == Uint32(stat) && stat != NFS3_OK
            case Written(count, stable) =>
              && |values| == 5 && values[0] == Uint32(NFS3_OK) && values[3] == Uint32(stable)
              && values[2].Uint32? && values[2].n == count <= |r.data|
            case Done => false
  {
    hide WriteAnswer, WriteData, Storage.Step, Storage.WriteCall;
    WriteReplies(w.now, r.file, r.offset, r.stable, r.data, windows.env(w));
    WriteSays(windows.base(w), r.stable, Storage.Step(w.now, Meant(windows, w, r)).1);
  }

  lemma LookupSays(windows: Windows, w: World, r: Request)
    requires r.Lookup?
    ensures var values, id := Outcome(windows, w, r), Storage.Resolve(w.now, FullPath(windows, w.now, r.dir, r.name)).1;
            && |values| >= 1 && (values[0] == Uint32(NFS3_OK) <==> Finds(windows, w, r.dir, r.name))
            && (values[0] == Uint32(NFS3ERR_NAMETOOLONG) <==> |FullPath(windows, w.now, r.dir, r.name)| > MAXPATHLEN)
            && (values[0] == Uint32(NFS3_OK) && id < 0x1_0000_0000 ==> |values| == 4 && values[1] == Opaque(HandleBytes(id as uint32)))
  {
    hide HandleBytes, Storage.Resolve, FullPath;
  }

  /** The status of a LOOKUP: directory path, separator and name make more than 1024 characters, or else
      what CheckFile says. */
  lemma LookupStatus(windows: Windows, w: World, r: Request, d: string)
    requires r.Lookup? && d == match Storage.PathOf(w.now.view, Number(r.dir)) { case Some(p) => p case None => "" }
    ensures var values := Outcome(windows, w, r);
            && values != []
            && (values[0] == Uint32(NFS3ERR_NAMETOOLONG) <==> |d| + 1 + |windows.text(r.name)| > 1024)
            && (values[0] == Uint32(NFS3_OK) <==> |d| + 1 + |windows.text(r.name)| <= 1024 && windows.check(w) == NFS3_OK)
            && (values[0] == Uint32(NFS3ERR_STALE) <==> |d| + 1 + |windows.text(r.name)| <= 1024 && windows.check(w) == NFS3ERR_STALE)
            && (values[0] == Uint32(NFS3ERR_NOENT) <==> |d| + 1 + |windows.text(r.name)| <= 1024 && windows.check(w) == NFS3ERR_NOENT)
  {
    hide HandleBytes, Storage.Resolve;
  }

  /** The handle in the reply to a LOOKUP stands for the path of the directory, a separator and the name, and
      that path is looked up to this handle. Files and streams stay as they are. */
  lemma LookupTells(windows: Windows, w: World, r: Request, d: string)
    requires r.Lookup? && Storage.Consistent(w.now.view, w.now.found) && |w.now.view| < 0x1_0000_0000
    requires Storage.PathOf(w.now.view, Number(r.dir)) == Some(d)
    ensures var values, t := Outcome(windows, w, r), Done(windows, w, r).now;
            && t.open == w.now.open && t.disk == w.now.disk
            && |values| >= 1
            && (values[0] == Uint32(NFS3_OK) ==>
                  && |values| == 4 && values[1].Opaque? && |values[1].d| == NFS3_FHSIZE
                  && Storage.Own(t, Number(values[1].d))
                  && t.view[Number(values[1].d)] == Some(d + "\\" + windows.text(r.name)))
  {
    hide HandleBytes, Outcome;
    var id := Storage.Resolve(w.now, FullPath(windows, w.now, r.dir, r.name)).1;
    LookupSays(windows, w, r);
    if id < 0x1_0000_0000 { HandleRoundTrip(id as uint32); }
  }

  /** The path of the handle is that of a file in the directory, with the name that was looked up. */
  lemma LookedUpInDirectory(windows: Windows, w: World, r: Request, d: string)
    requires r.Lookup? && Storage.Consistent(w.now.view, w.now.found) && |w.now.view| < 0x1_0000_0000
    requires Storage.PathOf(w.now.view, Number(r.dir)) == Some(d) && GoodName(windows.text(r.name))
    requires Outcome(windows, w, r)[..1] == [Uint32(NFS3_OK)]
    ensures var values := Outcome(windows, w, r);
            && |values| == 4 && values[1].Opaque? && |values[1].d| == NFS3_FHSIZE
            && var path := Storage.PathOf(Done(windows, w, r).now.view, Number(values[1].d));
            && path.Some? && Dirname(path.value) == d && Basename(path.value) == windows.text(r.name)
  {
    hide Outcome, Done, Storage.Consistent;
    LookupTells(windows, w, r, d);
    SplitBack(d, windows.text(r.name));
  }

  /** Two names, or names in two directories, never get one handle: as long as the first handle stands for
      its file, another LOOKUP gives another one. */
  lemma HandlesOfTwoNames(windows: Windows, w1: World, r1: Request, d1: string, w2: World, r2: Request, d2: string)
    requires r1.Lookup? && Storage.Consistent(w1.now.view, w1.now.found) && |w1.now.view| < 0x1_0000_0000
    requires r2.Lookup? && Storage.Consistent(w2.now.view, w2.now.found) && |w2.now.view| < 0x1_0000_0000
    requires Storage.PathOf(w1.now.view, Number(r1.dir)) == Some(d1) && GoodName(windows.text(r1.name))
    requires Storage.PathOf(w2.now.view, Number(r2.dir)) == Some(d2) && GoodName(windows.text(r2.name))
    requires Outcome(windows, w1, r1)[..1] == [Uint32(NFS3_OK)] && Outcome(windows, w2, r2)[..1] == [Uint32(NFS3_OK)]
    requires d1 != d2 || windows.text(r1.name) != windows.text(r2.name)
    ensures var v1, v2 := Outcome(windows, w1, r1), Outcome(windows, w2, r2);
            && |v1| == 4 && v1[1].Opaque? && |v1[1].d| == NFS3_FHSIZE && |v2| == 4 && v2[1].Opaque? && |v2[1].d| == NFS3_FHSIZE
            && var first, later := Done(windows, w1, r1).now.view, Done(windows, w2, r2).now.view;
            Storage.PathOf(later, Number(v1[1].d)) == Storage.PathOf(first, Number(v1[1].d)) ==> v1[1] != v2[1]
  {
    hide Outcome, Done, Storage.Consistent;
    LookedUpInDirectory(windows, w1, r1, d1);
    LookedUpInDirectory(windows, w2, r2, d2);
  }

  /** A LOOKUP only ever adds a handle. */
  lemma LookupKeepsInv(windows: Windows, w: World, r: Request)
    requires r.Lookup? && Storage.Inv(w.now) && |w.now.view| < 0x1_0000_0000
    ensures Storage.Allowed(w.now, Meant(windows, w, r)) && Storage.Inv(Done(windows, w, r).now)
  {
    hide FullPath, Finds;
    Storage.StepKeepsInv(w.now, Meant(windows, w, r));
  }
}
