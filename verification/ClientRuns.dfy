/** What any run of received buffers does to the files, and clients followed from the bytes of their calls
    to the bytes on disk and back. */
module ClientRuns {
  import opened Nodes
  import opened Wire
  import opened Results
  import opened SocketStreams
  import opened Rpc
  import opened Pipelines
  import opened Statuses
  import opened NfsCalls
  import opened NfsPrograms
  import opened NfsStorage
  import opened StoredBytes
  import Storage

  // ---------------------------------------------------------------- runs

  /** What the server meets: a received buffer on any of its sockets, or the C library writing part of a
      stream out. */
  datatype Event = Received(isStream: bool, input: Bytes) | Flushed(key: int, n: nat)

  /** Programs beside NFS have no streams. */
  ghost predicate KeepsStreams(program: Program<World>) {
    forall w, vers, proc, input :: program(w, vers, proc, input).state.now.open == w.now.open
  }

  ghost predicate Hosts(t: Table<World>, windows: Windows) {
    forall i :: 0 <= i < |t| && t[i].Some? ==> t[i].value == NfsProgram(StorageHost(windows)) || KeepsStreams(t[i].value)
  }

  /** The steps that one call is. */
  ghost function CallsOf(t: Table<World>, windows: Windows, w: World, h: Header, args: Bytes): seq<Storage.Call> {
    if Serves(t, h, StorageHost(windows)) then
      if Unknown(h.vers, h.proc) || DecArgs(h.proc, args).Fail? || h.proc == NULL || h.proc == MKNOD then []
      else [CallOf(windows, w, h.proc, DecArgs(h.proc, args).value)]
    else if Handler(t, h).None? then []
    else
      var s := Rpc.After(t, w, h, args).now;
      [Storage.Other(s.view, s.found, s.disk)]
  }

  /** The steps of all calls in a received buffer that are answered. */
  ghost function CallsIn(t: Table<World>, windows: Windows, w: World, isStream: bool, input: Bytes): seq<Storage.Call>
    decreases |input|
  {
    if input == [] then []
    else
      match DecCall(isStream, input)
      case Fail => []
      case Got(h, args) =>
        CallsOf(t, windows, w, h, args) +
        if isStream && ResultOf(t, w, h, args) == PRC_OK
        then CallsIn(t, windows, Rpc.After(t, w, h, args), isStream, Unread(t, w, h, args)) else []
  }

  function Next(t: Table<World>, w: World, e: Event): World {
    match e
    case Received(isStream, input) => Left(t, w, isStream, input).0
    case Flushed(key, n) => w.(now := Storage.DoFlush(w.now, key, n))
  }

  /** The state behind a run. */
  function Run(t: Table<World>, w: World, events: seq<Event>): World
    decreases |events|
  {
    if events == [] then w else Run(t, Next(t, w, events[0]), events[1..])
  }

  ghost function Steps(t: Table<World>, windows: Windows, w: World, e: Event): seq<Storage.Call> {
    match e
    case Received(isStream, input) => CallsIn(t, windows, w, isStream, input)
    case Flushed(key, n) => [Storage.Flush(key, n)]
  }

  ghost function RunSteps(t: Table<World>, windows: Windows, w: World, events: seq<Event>): seq<Storage.Call>
    decreases |events|
  {
    if events == [] then [] else Steps(t, windows, w, events[0]) + RunSteps(t, windows, Next(t, w, events[0]), events[1..])
  }

  lemma OneStep(s: Storage.State, c: Storage.Call)
    ensures Storage.After(s, [c]) == Storage.Step(s, c).0
  {
    assert [c][1..] == [];
    assert Storage.After(Storage.Step(s, c).0, []) == Storage.Step(s, c).0;
  }

  /** What a call to NFS leaves. */
  lemma NfsLeaves(t: Table<World>, w: World, h: Header, args: Bytes, host: Host<World>)
    requires Serves(t, h, host)
    ensures Rpc.After(t, w, h, args) ==
            if Unknown(h.vers, h.proc) || DecArgs(h.proc, args).Fail? then w else Effect(host, w, h.proc, DecArgs(h.proc, args).value)
  {
    hide DecArgs, Result, Effect;
  }

  lemma EffectIsStep(windows: Windows, w: World, proc: U32, args: seq<Field>)
    ensures Effect(StorageHost(windows), w, proc, args).now ==
            if proc == NULL || proc == MKNOD then w.now else Storage.Step(w.now, CallOf(windows, w, proc, args)).0
  {
    hide CallOf, Storage.Step, AnswerOf;
  }

  lemma OtherIsStep(t: Table<World>, windows: Windows, w: World, h: Header, args: Bytes)
    requires Hosts(t, windows) && !Serves(t, h, StorageHost(windows)) && Handler(t, h).Some?
    ensures var s := Rpc.After(t, w, h, args).now; s == Storage.Step(w.now, Storage.Other(s.view, s.found, s.disk)).0
  {
    hide StorageHost, NfsProgram, Storage.DoWriteUnstable, Storage.DoWriteSync, Storage.DoCommit, Storage.DoFlush;
    var program := t[h.prog - MIN_PROG_NUM].value;
    assert KeepsStreams(program);
    assert program(w, h.vers, h.proc, args).state.now.open == w.now.open;
  }

  lemma CallIsSteps(t: Table<World>, windows: Windows, w: World, h: Header, args: Bytes)
    requires Hosts(t, windows)
    ensures Rpc.After(t, w, h, args).now == Storage.After(w.now, CallsOf(t, windows, w, h, args))
  {
    hide Storage.Step, CallOf, StorageHost, Serves, Hosts, DecArgs, Unknown;
    var calls := CallsOf(t, windows, w, h, args);
    if |calls| == 1 { OneStep(w.now, calls[0]); }
    if Serves(t, h, StorageHost(windows)) {
      NfsLeaves(t, w, h, args, StorageHost(windows));
      if DecArgs(h.proc, args).Got? { EffectIsStep(windows, w, h.proc, DecArgs(h.proc, args).value); }
    } else if Handler(t, h).Some? {
      OtherIsStep(t, windows, w, h, args);
    }
  }

  /** Whatever is received, the files, the handles and the streams move along the steps of the storage
      machine. */
  lemma {:induction false} InputIsSteps(t: Table<World>, windows: Windows, w: World, isStream: bool, input: Bytes)
    requires Hosts(t, windows)
    ensures Left(t, w, isStream, input).0.now == Storage.After(w.now, CallsIn(t, windows, w, isStream, input))
    decreases |input|
  {
    if input != [] && DecCall(isStream, input).Got? {
      var (h, args) := DecCall(isStream, input).Extract();
      var first := CallsOf(t, windows, w, h, args);
      CallIsSteps(t, windows, w, h, args);
      if isStream && ResultOf(t, w, h, args) == PRC_OK {
        var next, rest := Rpc.After(t, w, h, args), Unread(t, w, h, args);
        InputIsSteps(t, windows, next, isStream, rest);
        Storage.AfterConcat(w.now, first, CallsIn(t, windows, next, isStream, rest));
      } else {
        assert first + [] == first;
      }
    }
  }

  lemma {:induction false} RunIsSteps(t: Table<World>, windows: Windows, w: World, events: seq<Event>)
    requires Hosts(t, windows)
    ensures Run(t, w, events).now == Storage.After(w.now, RunSteps(t, windows, w, events))
    decreases |events|
  {
    if events != [] {
      var next, first := Next(t, w, events[0]), Steps(t, windows, w, events[0]);
      match events[0] {
        case Received(isStream, input) => InputIsSteps(t, windows, w, isStream, input);
        case Flushed(key, n) => OneStep(w.now, Storage.Flush(key, n));
      }
      RunIsSteps(t, windows, next, events[1..]);
      Storage.AfterConcat(w.now, first, RunSteps(t, windows, next, events[1..]));
    }
  }

  lemma {:induction false} RunConcat(t: Table<World>, w: World, a: seq<Event>, b: seq<Event>)
    ensures Run(t, w, a + b) == Run(t, Run(t, w, a), b)
    decreases |a|
  {
    if a == [] {
      assert a + b == b;
    } else {
      assert (a + b)[1..] == a[1..] + b;
      RunConcat(t, Next(t, w, a[0]), a[1..], b);
    }
  }

  lemma RunFirst(t: Table<World>, w: World, first: Event, events: seq<Event>)
    ensures Run(t, w, [first] + events) == Run(t, Next(t, w, first), events)
  {
    hide Next;
    assert ([first] + events)[1..] == events;
  }

  lemma RunOnce(t: Table<World>, w: World, first: Event, events: seq<Event>, last: Event)
    ensures Run(t, w, [first] + events) == Run(t, Next(t, w, first), events)
    ensures Run(t, w, [first] + events + [last]) == Next(t, Run(t, Next(t, w, first), events), last)
  {
    hide Next;
    RunFirst(t, w, first, events);
    assert [last][1..] == [];
    RunConcat(t, w, [first] + events, [last]);
    assert Run(t, Next(t, Run(t, w, [first] + events), last), []) == Next(t, Run(t, w, [first] + events), last);
  }

  lemma AfterBetween(s: Storage.State, first: Storage.Call, calls: seq<Storage.Call>, last: Storage.Call)
    ensures Storage.After(s, [first] + calls + [last]) == Storage.Step(Storage.After(Storage.Step(s, first).0, calls), last).0
  {
    hide Storage.Step;
    assert ([first] + calls)[1..] == calls;
    Storage.AfterConcat(s, [first] + calls, [last]);
    OneStep(Storage.After(Storage.Step(s, first).0, calls), last);
  }

  /** A record that a client sends is one call of the program and gets one reply. */
  lemma SentIsOneCall(t: Table<World>, windows: Windows, w: World, c: ClientCall)
    requires Sendable(t, windows, c)
    ensures Next(t, w, Received(true, SentBytes(c))) == Done(windows, w, c.request)
    ensures Answers(t, w, true, SentBytes(c), [ReplyTo(t, w, c)])
  {
    hide Sendable, Reply, SentBytes, Left, Answers, Done;
    SentIsRead(t, w, windows, c);
    WholeRecord(t, w, SentBytes(c), c.header, EncArgs(ArgsFor(c.request)));
  }

  /** Looking the path of the handle up gives the handle back, and no stream is open on the file. */
  ghost predicate Ready(s: Storage.State, id: U32) {
    Storage.Inv(s) && Storage.Own(s, id) && Storage.Key(id) !in s.open
  }

  /** An unstable WRITE, and what the server meets behind it: the steps they are. */
  ghost function WriteSteps(t: Table<World>, windows: Windows, w: World, write: Request, events: seq<Event>): seq<Storage.Call> {
    [Meant(windows, w, write)] + RunSteps(t, windows, Done(windows, w, write), events)
  }

  /** Nothing happens that Windows forbids while streams are open, and the handle is not committed. */
  ghost predicate Undisturbed(t: Table<World>, windows: Windows, w: World, events: seq<Event>, id: U32) {
    Storage.AllAllowed(w.now, RunSteps(t, windows, w, events)) && Storage.NoCommit(RunSteps(t, windows, w, events), id)
  }

  /** A WRITE whose reply says so was accepted. */
  lemma ToldIsWritten(t: Table<World>, windows: Windows, w: World, write: ClientCall, told: seq<Datum>)
    requires Sendable(t, windows, write) && write.request.Write?
    requires Tells(ReplyTo(t, w, write), write.header, told)
    ensures var reply := Storage.Step(w.now, Meant(windows, w, write.request)).1;
            && told != [] && (told[0] == Uint32(NFS3_OK) <==> reply.Written?)
            && (reply.Written? ==> |told| == 5 && told[2].Uint32? && told[2].n == reply.count)
  {
    hide Sendable, Tells, Outcome, Storage.Step, Meant;
    TellsOutcome(t, w, windows, write, told);
    WriteTells(windows, w, write.request);
  }

  lemma CommitMeans(windows: Windows, w: World, r: Request)
    requires r.Commit?
    ensures Done(windows, w, r).now == Storage.DoCommit(w.now, Number(r.file))
    ensures var values := Outcome(windows, w, r); values != [] && values[0] == Uint32(NFS3_OK)
  {
    hide Storage.DoCommit;
  }

  /** The reports of a run: what the clients that write to the file of a handle are told, from an unstable
      WRITE on that opens its stream. */
  ghost function RunReports(t: Table<World>, windows: Windows, w: World, write: Request, events: seq<Event>, id: U32): seq<Report> {
    Reports(w.now, WriteSteps(t, windows, w, write, events), id, 0)
  }

  /** What the conditions of the run stand for. */
  lemma RunMeans(t: Table<World>, windows: Windows, w: World, write: Request, events: seq<Event>)
    requires write.Write? && write.stable == UNSTABLE && Ready(w.now, Number(write.file))
    requires Undisturbed(t, windows, Done(windows, w, write), events, Number(write.file))
    ensures var s, id, w1 := w.now, Number(write.file), Done(windows, w, write);
            && Storage.Inv(s) && id < |s.view| && s.view[id].Some? && s.view[id].value in s.found && s.found[s.view[id].value] == id
            && Storage.Key(id) !in s.open
            && Meant(windows, w, write) == Storage.WriteUnstable(id, write.offset, write.data, windows.env(w))
            && w1.now == Storage.Step(s, Meant(windows, w, write)).0
            && Storage.AllAllowed(w1.now, RunSteps(t, windows, w1, events)) && Storage.NoCommit(RunSteps(t, windows, w1, events), id)
            && WriteSteps(t, windows, w, write, events) == [Meant(windows, w, write)] + RunSteps(t, windows, w1, events)
            && RunReports(t, windows, w, write, events, id) ==
               Reports(s, [Meant(windows, w, write)] + RunSteps(t, windows, w1, events), id, 0)
  {
    hide Storage.Inv, Storage.AllAllowed, Storage.NoCommit, RunSteps, Storage.Step, Reports;
  }

  lemma CommitSteps(s: Storage.State, id: U32)
    ensures Storage.Step(s, Storage.Commit(id)).0 == Storage.DoCommit(s, id)
  {
  }

  /** A COMMIT is told to have succeeded. */
  lemma CommitIsStep(t: Table<World>, windows: Windows, w: World, commit: ClientCall, told: seq<Datum>)
    requires Sendable(t, windows, commit) && commit.request.Commit?
    ensures Next(t, w, Received(true, SentBytes(commit))).now == Storage.DoCommit(w.now, Number(commit.request.file))
    ensures Tells(ReplyTo(t, w, commit), commit.header, told) ==> told != [] && told[0] == Uint32(NFS3_OK)
  {
    hide *;
    SentIsOneCall(t, windows, w, commit);
    CommitMeans(windows, w, commit.request);
    if Tells(ReplyTo(t, w, commit), commit.header, told) { TellsOutcome(t, w, windows, commit, told); }
  }

  /** A handle fresh from a LOOKUP is ready for the first WRITE. */
  lemma LookupIsReady(windows: Windows, w: World, r: Request, d: string, found: seq<Datum>, file: FileHandle)
    requires r.Lookup? && Storage.Inv(w.now) && |w.now.view| < 0x1_0000_0000
    requires found == Outcome(windows, w, r) && |found| >= 2 && found[0] == Uint32(NFS3_OK) && found[1] == Opaque(file)
    requires Storage.PathOf(w.now.view, Number(r.dir)) == Some(d)
    ensures var t := Done(windows, w, r).now;
            && (Storage.Key(Number(file)) !in w.now.open ==> Ready(t, Number(file))) && t.disk == w.now.disk
            && Storage.Own(t, Number(file))
            && t.view[Number(file)] == Some(d + "\\" + windows.text(r.name))
  {
    hide Outcome, FullPath, Finds, Done, Storage.Step, Meant;
    LookupTells(windows, w, r, d);
    LookupKeepsInv(windows, w, r);
  }

  /** A client sends an unstable WRITE on a file without an open stream and takes NFS3_OK out of the reply;
      the server receives anything from anyone, and the C library writes out what it likes; and then the
      client sends a COMMIT for the same handle. */
  ghost predicate Saves(t: Table<World>, windows: Windows, w: World, write: ClientCall, told: seq<Datum>, events: seq<Event>,
                        commit: ClientCall)
  {
    && Hosts(t, windows) && Sendable(t, windows, write) && Sendable(t, windows, commit)
    && write.request.Write? && write.request.stable == UNSTABLE && commit.request.Commit?
    && Number(commit.request.file) == Number(write.request.file) && Ready(w.now, Number(write.request.file))
    && Tells(ReplyTo(t, w, write), write.header, told) && told != [] && told[0] == Uint32(NFS3_OK)
    && Undisturbed(t, windows, Done(windows, w, write.request), events, Number(write.request.file))
  }

  lemma SavesMeans(t: Table<World>, windows: Windows, w: World, write: ClientCall, told: seq<Datum>, events: seq<Event>,
                   commit: ClientCall)
    requires Saves(t, windows, w, write, told, events, commit)
    ensures Hosts(t, windows) && Sendable(t, windows, write) && Sendable(t, windows, commit)
    ensures write.request.Write? && write.request.stable == UNSTABLE && commit.request.Commit?
    ensures Number(commit.request.file) == Number(write.request.file) && Ready(w.now, Number(write.request.file))
    ensures Tells(ReplyTo(t, w, write), write.header, told) && told != [] && told[0] == Uint32(NFS3_OK)
    ensures Undisturbed(t, windows, Done(windows, w, write.request), events, Number(write.request.file))
  {
    hide Hosts, Sendable, Ready, Tells, Undisturbed;
  }

  /** The run up to the COMMIT. */
  function Before(write: ClientCall, events: seq<Event>): seq<Event> {
    [Received(true, SentBytes(write))] + events
  }

  /** And with it. */
  function Whole(write: ClientCall, events: seq<Event>, commit: ClientCall): seq<Event> {
    [Received(true, SentBytes(write))] + events + [Received(true, SentBytes(commit))]
  }

  /** The state behind the COMMIT, as steps of the storage. */
  lemma SavedState(t: Table<World>, windows: Windows, w: World, write: ClientCall, told: seq<Datum>, events: seq<Event>,
                   commit: ClientCall)
    requires Saves(t, windows, w, write, told, events, commit)
    ensures var id, w1 := Number(write.request.file), Done(windows, w, write.request);
            var call, calls := Meant(windows, w, write.request), RunSteps(t, windows, w1, events);
            && Storage.Step(w.now, call).1.Written?
            && |told| == 5 && told[2].Uint32? && told[2].n == Storage.Step(w.now, call).1.count
            && Run(t, w, Whole(write, events, commit)).now == Storage.After(w.now, [call] + calls + [Storage.Commit(id)])
            && Run(t, w, Whole(write, events, commit)).now == Storage.DoCommit(Storage.After(w1.now, calls), id)
  {
    hide *;
    SavesMeans(t, windows, w, write, told, events, commit);
    var id, call, w1 := Number(write.request.file), Meant(windows, w, write.request), Done(windows, w, write.request);
    RunMeans(t, windows, w, write.request, events);
    ToldIsWritten(t, windows, w, write, told);
    SentIsOneCall(t, windows, w, write);
    RunIsSteps(t, windows, w1, events);
    WholeMeans(write, events, commit);
    RunOnce(t, w, Received(true, SentBytes(write)), events, Received(true, SentBytes(commit)));
    CommitIsStep(t, windows, Run(t, w1, events), commit, []);
    CommitSteps(Run(t, w1, events).now, id);
    AfterBetween(w.now, call, RunSteps(t, windows, w1, events), Storage.Commit(id));
  }

  lemma WholeMeans(write: ClientCall, events: seq<Event>, commit: ClientCall)
    ensures Before(write, events) == [Received(true, SentBytes(write))] + events
    ensures Whole(write, events, commit) == [Received(true, SentBytes(write))] + events + [Received(true, SentBytes(commit))]
  {
  }

  /** The COMMIT is told to have succeeded. */
  lemma CommitIsTold(t: Table<World>, windows: Windows, w: World, write: ClientCall, told: seq<Datum>, events: seq<Event>,
                     commit: ClientCall, end: seq<Datum>)
    requires Saves(t, windows, w, write, told, events, commit)
    requires Tells(ReplyTo(t, Run(t, w, Before(write, events)), commit), commit.header, end)
    ensures end != [] && end[0] == Uint32(NFS3_OK)
  {
    hide *;
    SavesMeans(t, windows, w, write, told, events, commit);
    CommitIsStep(t, windows, Run(t, w, Before(write, events)), commit, end);
  }

  /** From the bytes of the calls to the bytes on disk: then the stream is closed, and every byte of the
      file is that of the last write reported for it, or else what it was before. The first report is of the
      client's data at the client's offset, as many bytes as the reply said. */
  lemma CommittedByClient(t: Table<World>, windows: Windows, w: World, write: ClientCall, told: seq<Datum>,
                          events: seq<Event>, commit: ClientCall)
    requires Saves(t, windows, w, write, told, events, commit)
    ensures var id, path := Number(write.request.file), w.now.view[Number(write.request.file)].value;
            var last, reports := Run(t, w, Whole(write, events, commit)).now, RunReports(t, windows, w, write.request, events, id);
            && path in w.now.disk && path in last.disk && Storage.Key(id) !in last.open
            && Storage.PathOf(last.view, id) == Some(path)
            && last.disk[path] ==
               Storage.StoreAll(w.now.disk[path], Storage.AllAccepted(w.now, WriteSteps(t, windows, w, write.request, events), id))
            && Holds(w.now.disk[path], reports, last.disk[path])
            && |told| == 5 && told[2].Uint32? && told[2].n <= |write.request.data|
            && reports != [] && reports[0].data == write.request.data[..told[2].n]
            && reports[0].at == if write.request.offset < 0x8000_0000_0000_0000 then write.request.offset else 0
  {
    hide *;
    SavesMeans(t, windows, w, write, told, events, commit);
    RunMeans(t, windows, w, write.request, events);
    SavedState(t, windows, w, write, told, events, commit);
    var id, calls := Number(write.request.file), RunSteps(t, windows, Done(windows, w, write.request), events);
    Storage.CommittedData(w.now, id, write.request.offset, write.request.data, windows.env(w), calls, id);
    CommittedBytes(w.now, id, write.request.offset, write.request.data, windows.env(w), calls);
    PlaceIs(write.request.offset);
    StreamStands(w.now, id, write.request.offset, write.request.data, windows.env(w), calls);
  }

  lemma PlaceIs(offset: U64)
    ensures Place(offset, 0) == if offset < 0x8000_0000_0000_0000 then offset else 0
  {
  }

  /** The handle of an open stream stands for the file until the COMMIT and behind it. */
  lemma StreamStands(s: Storage.State, id: U32, offset: U64, data: Bytes, env: Storage.Env, calls: seq<Storage.Call>)
    requires Storage.Inv(s) && id < |s.view| && s.view[id].Some? && s.view[id].value in s.found && s.found[s.view[id].value] == id
    requires Storage.Key(id) !in s.open && Storage.Step(s, Storage.WriteUnstable(id, offset, data, env)).1.Written?
    requires var t := Storage.Step(s, Storage.WriteUnstable(id, offset, data, env)).0;
             Storage.AllAllowed(t, calls) && Storage.NoCommit(calls, id)
    ensures var u := Storage.After(Storage.Step(s, Storage.WriteUnstable(id, offset, data, env)).0, calls);
            Storage.PathOf(Storage.DoCommit(u, id).view, id) == s.view[id]
  {
    hide Storage.AllAllowed, Storage.NoCommit, Storage.Inv, Storage.Step, Storage.After, Storage.Whole;
    var t := Storage.Step(s, Storage.WriteUnstable(id, offset, data, env)).0;
    Storage.StepKeepsInv(s, Storage.WriteUnstable(id, offset, data, env));
    Storage.FirstWriteOpens(s, id, offset, data, env);
    Storage.StreamKeepsWrites(t, calls, id);
    Storage.CommitCloses(Storage.After(t, calls), id);
  }

  /** With nothing in between the file is the old one with the client's data at the client's offset. */
  lemma WrittenByClient(t: Table<World>, windows: Windows, w: World, write: ClientCall, told: seq<Datum>, commit: ClientCall)
    requires Saves(t, windows, w, write, told, [], commit) && write.request.offset < 0x8000_0000_0000_0000
    ensures var path := w.now.view[Number(write.request.file)].value;
            var last := Run(t, w, [Received(true, SentBytes(write)), Received(true, SentBytes(commit))]).now;
            && path in w.now.disk && path in last.disk
            && |told| == 5 && told[2].Uint32? && told[2].n <= |write.request.data|
            && WrittenAt(w.now.disk[path], last.disk[path], write.request.offset, write.request.data[..told[2].n])
  {
    hide *;
    SavesMeans(t, windows, w, write, told, [], commit);
    RunMeans(t, windows, w, write.request, []);
    CommittedByClient(t, windows, w, write, told, [], commit);
    WholeMeans(write, [], commit);
    assert Whole(write, [], commit) == [Received(true, SentBytes(write)), Received(true, SentBytes(commit))];
    OnlyReport(t, windows, w, write.request, Number(write.request.file));
    var path := w.now.view[Number(write.request.file)].value;
    var reports := RunReports(t, windows, w, write.request, [], Number(write.request.file));
    assert reports == [reports[0]];
    OneReport(w.now.disk[path], reports[0], Run(t, w, Whole(write, [], commit)).now.disk[path]);
  }

  /** A client that takes NFS3_OK and FILE_SYNC out of the reply to a WRITE knows its data on disk, at its
      offset, and every other file as it was. */
  lemma SyncedByClient(t: Table<World>, windows: Windows, w: World, write: ClientCall, told: seq<Datum>)
    requires Sendable(t, windows, write) && write.request.Write? && write.request.offset < 0x8000_0000_0000_0000
    requires Tells(ReplyTo(t, w, write), write.header, told)
    requires |told| == 5 && told[0] == Uint32(NFS3_OK) && told[3] == Uint32(FILE_SYNC)
    ensures var path, last := Storage.PathOf(w.now.view, Number(write.request.file)), Next(t, w, Received(true, SentBytes(write))).now;
            && path.Some? && path.value in w.now.disk && last.disk.Keys == w.now.disk.Keys
            && told[2].Uint32? && told[2].n <= |write.request.data|
            && WrittenAt(w.now.disk[path.value], last.disk[path.value], write.request.offset, write.request.data[..told[2].n])
            && forall p :: p in w.now.disk && p != path.value ==> last.disk[p] == w.now.disk[p]
  {
    hide Tells, Sendable, Outcome, Storage.DoWriteSync, Storage.DoWriteUnstable, WrittenAt, ReplyTo, Next, SentBytes;
    var r := write.request;
    TellsOutcome(t, w, windows, write, told);
    WriteTells(windows, w, r);
    SentIsOneCall(t, windows, w, write);
    WriteReplies(w.now, r.file, r.offset, r.stable, r.data, windows.env(w));
    WrittenAtOnce(w.now, Number(r.file), r.offset, r.data, windows.env(w));
  }

  lemma OnlyReport(t: Table<World>, windows: Windows, w: World, write: Request, id: U32)
    ensures |RunReports(t, windows, w, write, [], id)| <= 1
  {
    hide Storage.Step, Reported, Meant;
    var call := Meant(windows, w, write);
    assert WriteSteps(t, windows, w, write, []) == [call];
    assert [call][1..] == [];
    NoReports(Storage.Step(w.now, call).0, id, Reported(w.now, call, id, 0).1);
    FewReported(w.now, call, id, 0);
  }

  lemma FewReported(s: Storage.State, c: Storage.Call, id: U32, end: nat)
    ensures |Reported(s, c, id, end).0| <= 1
  {
  }

  /** A READ behind the COMMIT gives back what was written: every byte is that of the last write reported for
      it, or else what the file held before. */
  lemma ReadBack(t: Table<World>, windows: Windows, w: World, write: ClientCall, told: seq<Datum>,
                 events: seq<Event>, commit: ClientCall, read: ClientCall, got: seq<Datum>)
    requires Saves(t, windows, w, write, told, events, commit) && Sendable(t, windows, read) && read.request.Read?
    requires Number(read.request.file) == Number(write.request.file) && read.request.start < 0x8000_0000_0000_0000
    requires Tells(ReplyTo(t, Run(t, w, Whole(write, events, commit)), read), read.header, got)
    ensures var path := w.now.view[Number(write.request.file)].value;
            var reports := RunReports(t, windows, w, write.request, events, Number(write.request.file));
            && got != []
            && (got[0] == Uint32(NFS3_OK) ==>
                  && |got| == 5 && got[4].Opaque? && path in w.now.disk
                  && forall i :: 0 <= i < |got[4].d| ==> got[4].d[i] == ByteAt(w.now.disk[path], reports, read.request.start + i))
  {
    hide Saves, Sendable, Tells, Run, Outcome, RunReports, ByteAt, Length, ReplyTo, Done, SentBytes, Storage.StoreAll;
    var last := Run(t, w, Whole(write, events, commit));
    CommittedByClient(t, windows, w, write, told, events, commit);
    TellsOutcome(t, last, windows, read, got);
    ReadTells(windows, last, read.request);
  }

  /** The same from a name: the client looks the name up and uses the handle it takes out of the reply. The
      file that holds the data has the path of the directory, a separator and the name. */
  lemma FromNameToDisk(t: Table<World>, windows: Windows, w: World, lookup: ClientCall, d: string, found: seq<Datum>,
                       write: ClientCall, told: seq<Datum>, events: seq<Event>, commit: ClientCall)
    requires Sendable(t, windows, lookup) && lookup.request.Lookup?
    requires Storage.Inv(w.now) && |w.now.view| < 0x1_0000_0000
    requires Storage.PathOf(w.now.view, Number(lookup.request.dir)) == Some(d)
    requires Tells(ReplyTo(t, w, lookup), lookup.header, found) && |found| >= 2 && found[0] == Uint32(NFS3_OK)
    requires Saves(t, windows, Done(windows, w, lookup.request), write, told, events, commit)
    requires found[1] == Opaque(write.request.file)
    ensures var path, id := d + "\\" + windows.text(lookup.request.name), Number(write.request.file);
            var w1 := Done(windows, w, lookup.request);
            var last := Run(t, w, [Received(true, SentBytes(lookup))] + Whole(write, events, commit)).now;
            var reports := RunReports(t, windows, w1, write.request, events, id);
            && path in w.now.disk && path in last.disk && Storage.Key(id) !in last.open
            && Holds(w.now.disk[path], reports, last.disk[path])
            && |told| == 5 && told[2].Uint32? && told[2].n <= |write.request.data|
            && reports != [] && reports[0].data == write.request.data[..told[2].n]
            && reports[0].at == if write.request.offset < 0x8000_0000_0000_0000 then write.request.offset else 0
  {
    hide *;
    var w1 := Done(windows, w, lookup.request);
    TellsOutcome(t, w, windows, lookup, found);
    SavesMeans(t, windows, w1, write, told, events, commit);
    RunMeans(t, windows, w1, write.request, events);
    LookupIsReady(windows, w, lookup.request, d, found, write.request.file);
    SentIsOneCall(t, windows, w, lookup);
    RunFirst(t, w, Received(true, SentBytes(lookup)), Whole(write, events, commit));
    CommittedByClient(t, windows, w1, write, told, events, commit);
  }
}
