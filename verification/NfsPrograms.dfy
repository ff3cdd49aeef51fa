/** CNFSProg::Process and CNFS3Prog::Process (src/NFSProg.cpp, src/NFS3Prog.cpp) as a program of the
    RPC server. `NfsProcedures` proves the procedures themselves to be this function; here its calls
    are followed from the bytes of a call to the bytes of the reply and back to the values in it. */
module NfsPrograms {
  import opened Nodes
  import opened Wire
  import opened Arguments
  import opened Results
  import opened SocketStreams
  import opened Rpc
  import opened Pipelines
  import opened NfsCalls
  import opened NfsResults

  const NFS_VERSION := 3

  /** The answers to the calls a procedure makes, and the state they leave. */
  type Host<!S> = (S, U32, seq<Field>) -> (Answer, S)

  /** The state after a procedure has run; NULL and MKNOD do nothing at all. */
  function Effect<S>(host: Host<S>, state: S, proc: U32, args: seq<Field>): S {
    if proc == NULL || proc == MKNOD then state else host(state, proc, args).1
  }

  /** What a procedure writes. */
  function Result<S>(host: Host<S>, state: S, proc: U32, args: seq<Field>): seq<Datum> {
    ResultData(proc, args, host(state, proc, args).0)
  }

  /** The program does not know the call. */
  predicate Unknown(vers: U32, proc: U32) {
    vers != NFS_VERSION || proc >= PROCEDURES
  }

  /** A call that throws has used up the input, written nothing and changed nothing. */
  function Nfs<S>(host: Host<S>, state: S, vers: U32, proc: U32, input: Bytes): Handled<S> {
    if Unknown(vers, proc) then Handled(PRC_NOTIMP, 0, [], state)
    else
      match DecArgs(proc, input)
      case Fail => Handled(PRC_FAIL, |input|, [], state)
      case Got(args, rest) =>
        ArgsShrink(proc, input);
        Handled(PRC_OK, |input| - |rest|, EncAll(EncDatum, Result(host, state, proc, args)), Effect(host, state, proc, args))
  }

  function NfsProgram<S>(host: Host<S>): Program<S> {
    (state: S, vers: U32, proc: U32, input: Bytes) => Nfs(host, state, vers, proc, input)
  }

  /** The calls with this header reach the NFS program. */
  ghost predicate Serves<S>(t: Table<S>, h: Header, host: Host<S>) {
    Handler(t, h) == Some(NfsProgram(host))
  }

  // ---------------------------------------------------------------- the reply to one call

  /** A reply is framed: the mark counts the bytes behind it, and behind the head of the call come
      the status word and the body. */
  predicate Framed(reply: Bytes, h: Header, status: U32, body: Bytes) {
    && 4 <= |reply| <= MAXDATA
    && DecU32(reply) == Got(0x8000_0000 + |reply| - 4, reply[4..])
    && ReadsAs(reply[4..], h, status, body)
  }

  lemma RecordFrames(content: Bytes, h: Header, status: U32, body: Bytes)
    requires |content| + 4 <= MAXDATA
    ensures Framed(Record(true, content), h, status, body) <==> ReadsAs(content, h, status, body)
  {
    MarkCounts(content);
    assert Record(true, content)[4..] == content;
  }

  /** A failing NFS call has written nothing. */
  lemma NfsLeavesNothing<S>(t: Table<S>, state: S, h: Header, args: Bytes, host: Host<S>, room: nat)
    requires Serves(t, h, host)
    ensures Leftover(t, state, h, args, room) == []
  {
  }

  lemma FramedExactly(h: Header, payload: Bytes, status: U32, body: Bytes)
    requires |payload| <= 4 + Room(true)
    requires ReadsAs(EncHead(h) + payload, h, status, body) <==> VerifierSize(h.verfLength) == 0
    ensures Framed(Record(true, EncHead(h) + payload), h, status, body) <==> h.verfLength == 0
  {
    hide ReadsAs, Record, Framed;
    RecordFrames(EncHead(h) + payload, h, status, body);
  }

  lemma ReplyReadsExactly<S>(t: Table<S>, state: S, h: Header, args: Bytes)
    requires Leftover(t, state, h, args, Room(true)) == []
    ensures Framed(Reply(t, state, true, h, args, Room(true)), h, Status(t, state, h, args), Body(t, state, h, args, Room(true)))
            <==> h.verfLength == 0
  {
    ClientReadsReply(t, state, h, args, Room(true));
    FramedExactly(h, Payload(t, state, h, args, Room(true)), Status(t, state, h, args), Body(t, state, h, args, Room(true)));
  }

  /** A reply of the NFS program, whatever the call, reads as intended exactly when the verifier of
      the call was empty. */
  lemma NfsReplyReadsExactly<S>(t: Table<S>, state: S, h: Header, args: Bytes, host: Host<S>)
    requires Serves(t, h, host)
    ensures Framed(Reply(t, state, true, h, args, Room(true)), h, Status(t, state, h, args), Body(t, state, h, args, Room(true)))
            <==> h.verfLength == 0
  {
    NfsLeavesNothing(t, state, h, args, host, Room(true));
    ReplyReadsExactly(t, state, h, args);
  }

  /** An unknown version or procedure gives PROC_UNAVAIL and changes nothing. */
  lemma NfsUnknown<S>(t: Table<S>, state: S, h: Header, args: Bytes, host: Host<S>, room: nat)
    requires Serves(t, h, host) && Unknown(h.vers, h.proc)
    ensures Payload(t, state, h, args, room) == EncU32(PROC_UNAVAIL) && After(t, state, h, args) == state
  {
  }

  /** The words of a reply behind its mark, by the numbers of section 9 of RFC 5531: xid, REPLY, accepted, flavor
      and length of the verifier, and the status, which is PROC_UNAVAIL for any other version than 3 and any
      procedure beyond 21, GARBAGE_ARGS when the arguments cannot be read, and else SUCCESS. */
  lemma ReplyWords<S>(t: Table<S>, state: S, h: Header, args: Bytes, host: Host<S>)
    requires Serves(t, h, host)
    ensures var reply := Reply(t, state, true, h, args, Room(true));
            && |reply| >= 28 && WordFrom(reply[4..], 0) == Some(h.xid) && WordFrom(reply[4..], 4) == Some(1)
            && WordFrom(reply[4..], 8) == Some(0) && WordFrom(reply[4..], 12) == Some(h.verfFlavor)
            && WordFrom(reply[4..], 16) == Some(h.verfLength)
            && WordFrom(reply[4..], 20) ==
               Some(if h.vers != 3 || h.proc > 21 then 3 else if DecArgs(h.proc, args).Fail? then 4 else 0)
  {
    hide WordFrom, DecArgs, EncU32;
    NfsLeavesNothing(t, state, h, args, host, Room(true));
    PayloadParts(t, state, h, args, Room(true));
    var status, body := Status(t, state, h, args), Body(t, state, h, args, Room(true));
    assert Payload(t, state, h, args, Room(true)) == EncU32(status) + body;
    WordsOf(h.xid, REPLY, MSG_ACCEPTED, h.verfFlavor, h.verfLength, status, body);
    assert Reply(t, state, true, h, args, Room(true))[4..] == EncHead(h) + (EncU32(status) + body);
  }

  /** Arguments cut short, of any procedure and at any byte, give GARBAGE_ARGS and no body; the call
      uses up the input and changes nothing. */
  lemma NfsTruncated<S>(t: Table<S>, state: S, h: Header, xs: seq<Field>, k: nat, host: Host<S>, room: nat)
    requires Serves(t, h, host) && !Unknown(h.vers, h.proc)
    requires ArgsOk(h.proc, xs) && k < |EncArgs(xs)|
    ensures var args := EncArgs(xs)[..k];
            && Payload(t, state, h, args, room) == EncU32(GARBAGE_ARGS)
            && ResultOf(t, state, h, args) == PRC_FAIL
            && Unread(t, state, h, args) == []
            && After(t, state, h, args) == state
  {
    ArgsTruncated(h.proc, xs, k);
  }

  /** Complete arguments, whatever follows them, are served once and up to their last byte. */
  lemma NfsServed<S>(t: Table<S>, state: S, h: Header, xs: seq<Field>, rest: Bytes, host: Host<S>, room: nat)
    requires Serves(t, h, host) && !Unknown(h.vers, h.proc) && ArgsOk(h.proc, xs)
    ensures var args := EncArgs(xs) + rest;
            && Payload(t, state, h, args, room) ==
               EncU32(SUCCESS) + Fit(EncAll(EncDatum, Result(host, state, h.proc, xs)), room)
            && ResultOf(t, state, h, args) == PRC_OK
            && Unread(t, state, h, args) == rest
            && After(t, state, h, args) == Effect(host, state, h.proc, xs)
  {
    ArgsRoundTrip(h.proc, xs, rest);
    assert (EncArgs(xs) + rest)[|EncArgs(xs)|..] == rest;
  }

  lemma NfsParts<S>(t: Table<S>, state: S, h: Header, xs: seq<Field>, rest: Bytes, host: Host<S>)
    requires Serves(t, h, host) && !Unknown(h.vers, h.proc) && ArgsOk(h.proc, xs)
    ensures var args, data := EncArgs(xs) + rest, EncAll(EncDatum, Result(host, state, h.proc, xs));
            Status(t, state, h, args) == SUCCESS && Body(t, state, h, args, Room(true)) == Fit(data, Room(true))
  {
    ArgsRoundTrip(h.proc, xs, rest);
  }

  /** From end to end: a client that reads the reply to a call with an empty verifier, and the body
      in it by the result types of RFC 1813, gets back the values the procedure wrote, exactly when the
      result is proper and fits behind the head of the reply. */
  lemma ClientGetsResult<S>(t: Table<S>, state: S, h: Header, xs: seq<Field>, rest: Bytes, host: Host<S>)
    requires Serves(t, h, host) && !Unknown(h.vers, h.proc) && ArgsOk(h.proc, xs) && h.verfLength == 0
    ensures var data := Result(host, state, h.proc, xs);
            var body := Fit(EncAll(EncDatum, data), Room(true));
            && Framed(Reply(t, state, true, h, EncArgs(xs) + rest, Room(true)), h, SUCCESS, body)
            && (DecResult(h.proc, body) == Got(data, [])
                <==> Proper(h.proc, host(state, h.proc, xs).0) && |EncAll(EncDatum, data)| <= Room(true))
  {
    NfsReplyReadsExactly(t, state, h, EncArgs(xs) + rest, host);
    NfsParts(t, state, h, xs, rest, host);
    CutResultReadsExactly(h.proc, xs, host(state, h.proc, xs).0, Room(true));
  }

  // ---------------------------------------------------------------- calls received together

  /** What the server does with a call alone. */
  function Alone<S>(t: Table<S>, state: S, call: Bytes, h: Header, args: Bytes): Exchange<S> {
    Exchange(call, h, args, Reply(t, state, true, h, args, Room(true)), ResultOf(t, state, h, args), After(t, state, h, args))
  }

  /** The procedure reads all of the bytes behind the header. */
  predicate ReadsAll(h: Header, args: Bytes) {
    Unknown(h.vers, h.proc) || (DecArgs(h.proc, args).Got? && DecArgs(h.proc, args).rest == [])
  }

  lemma NothingBehindMatters<S>(t: Table<S>, state: S, h: Header, args: Bytes, more: Bytes, host: Host<S>)
    requires Serves(t, h, host) && ReadsAll(h, args)
    ensures Reply(t, state, true, h, args + more, Room(true)) == Reply(t, state, true, h, args, Room(true))
    ensures ResultOf(t, state, h, args + more) == ResultOf(t, state, h, args)
    ensures After(t, state, h, args + more) == After(t, state, h, args)
    ensures ResultOf(t, state, h, args) == PRC_OK ==> Unread(t, state, h, args + more) == more
  {
    if !Unknown(h.vers, h.proc) {
      ArgsStable(h.proc, args, more);
      assert [] + more == more;
      assert (args + more)[|args|..] == more;
    }
  }

  lemma SelfContainedAtLeast<S>(t: Table<S>, state: S, call: Bytes, h: Header, args: Bytes, host: Host<S>)
    requires DecCall(true, call) == Got(h, args) && Serves(t, h, host) && ReadsAll(h, args)
    ensures SelfContained(t, state, Alone(t, state, call, h, args))
  {
    hide Room, Reply, Payload, Serves, ReadsAll, ResultOf, Unread, After, DecCall;
    var x := Alone(t, state, call, h, args);
    forall more {:trigger args + more}
      ensures Reply(t, state, true, h, args + more, Room(true)) == x.reply
      ensures ResultOf(t, state, h, args + more) == x.result && After(t, state, h, args + more) == x.after
      ensures x.result == PRC_OK ==> Unread(t, state, h, args + more) == more
    {
      NothingBehindMatters(t, state, h, args, more, host);
    }
  }

  /** Bytes that complete the arguments would be read, and bytes that are left would be left again. */
  lemma SelfContainedAtMost<S>(t: Table<S>, state: S, call: Bytes, h: Header, args: Bytes, host: Host<S>)
    requires DecCall(true, call) == Got(h, args) && Serves(t, h, host) && !ReadsAll(h, args)
    ensures !SelfContained(t, state, Alone(t, state, call, h, args))
  {
    hide Room, Reply, Payload, Serves, ResultOf, Unread, After, DecCall, DecArgs;
    assert args + [] == args;
    ReadsPartOrNothing(t, state, h, args, host);
    assert ResultOf(t, state, h, args) == PRC_OK ==> Unread(t, state, h, args + []) != [];
    var more := ArgsComplete(h.proc, args);
    WholeIsRead(t, state, h, args + more, host);
  }

  lemma WholeIsRead<S>(t: Table<S>, state: S, h: Header, args: Bytes, host: Host<S>)
    requires Serves(t, h, host) && !Unknown(h.vers, h.proc) && DecArgs(h.proc, args).Got?
    ensures ResultOf(t, state, h, args) == PRC_OK
  {
    hide DecArgs;
  }

  /** A call to NFS is complete exactly when the procedure reads the bytes behind its header to the
      last, or is not known at all. */
  lemma SelfContainedExactly<S>(t: Table<S>, state: S, call: Bytes, h: Header, args: Bytes, host: Host<S>)
    requires DecCall(true, call) == Got(h, args) && Serves(t, h, host)
    ensures SelfContained(t, state, Alone(t, state, call, h, args)) <==> ReadsAll(h, args)
  {
    hide *;
    if ReadsAll(h, args) {
      SelfContainedAtLeast(t, state, call, h, args, host);
    } else {
      SelfContainedAtMost(t, state, call, h, args, host);
    }
  }

  lemma ReadsPartOrNothing<S>(t: Table<S>, state: S, h: Header, args: Bytes, host: Host<S>)
    requires Serves(t, h, host) && !ReadsAll(h, args)
    ensures ResultOf(t, state, h, args) == PRC_OK ==> Unread(t, state, h, args) != []
    ensures ResultOf(t, state, h, args) == PRC_OK <==> DecArgs(h.proc, args).Got?
  {
    if DecArgs(h.proc, args).Got? { ArgsShrink(h.proc, args); }
  }

  lemma EncodedReadsAll(h: Header, xs: seq<Field>)
    requires !Unknown(h.vers, h.proc) && ArgsOk(h.proc, xs)
    ensures DecArgs(h.proc, EncArgs(xs)) == Got(xs, []) && ReadsAll(h, EncArgs(xs))
  {
    ArgsRoundTrip(h.proc, xs, []);
    assert EncArgs(xs) + [] == EncArgs(xs);
  }

  lemma ReadCallIsComplete<S>(t: Table<S>, state: S, call: Bytes, h: Header, xs: seq<Field>, host: Host<S>)
    requires DecCall(true, call) == Got(h, EncArgs(xs))
    requires Serves(t, h, host) && !Unknown(h.vers, h.proc) && ArgsOk(h.proc, xs)
    ensures var x := Alone(t, state, call, h, EncArgs(xs));
            SelfContained(t, state, x) && x.result == PRC_OK && x.after == Effect(host, state, h.proc, xs)
  {
    EncodedReadsAll(h, xs);
    SelfContainedExactly(t, state, call, h, EncArgs(xs), host);
  }

  /** A call as a client encodes it, without fill bytes behind credential and verifier, is complete
      and succeeds, whatever its procedure. */
  lemma ClientCallIsComplete<S>(t: Table<S>, state: S, mark: U32, h: Header, cred: Short, verf: Short, xs: seq<Field>,
                                host: Host<S>)
    requires h.credLength == |cred| && h.verfLength == |verf| && Padding(|cred|) == 0 && Padding(|verf|) == 0
    requires Serves(t, h, host) && !Unknown(h.vers, h.proc) && ArgsOk(h.proc, xs)
    ensures var x := Alone(t, state, EncCall(true, mark, h, cred, verf) + EncArgs(xs), h, EncArgs(xs));
            SelfContained(t, state, x) && x.result == PRC_OK && x.after == Effect(host, state, h.proc, xs)
  {
    CallRoundTrip(true, mark, h, cred, verf, EncArgs(xs));
    ReadCallIsComplete(t, state, EncCall(true, mark, h, cred, verf) + EncArgs(xs), h, xs, host);
  }

  /** A record with one call to NFS gets one reply exactly when nothing is left behind the arguments that
      the procedure reads. */
  lemma OneReplyPerRecord<S>(t: Table<S>, state: S, record: Bytes, h: Header, args: Bytes, replies: seq<Bytes>, host: Host<S>)
    requires DecCall(true, record) == Got(h, args) && Serves(t, h, host)
    requires Answers(t, state, true, record, replies)
    ensures |replies| == 1 <==> Unknown(h.vers, h.proc) || DecArgs(h.proc, args).Fail? || DecArgs(h.proc, args).rest == []
  {
    OneReplyExactly(t, state, record, h, args, replies);
    if !ReadsAll(h, args) { ReadsPartOrNothing(t, state, h, args, host); }
    if !Unknown(h.vers, h.proc) && DecArgs(h.proc, args).Got? { ArgsShrink(h.proc, args); }
  }

  // ---------------------------------------------------------------- MKNOD

  /** mknoddata3 of section 3.3.11 of RFC 1813. */
  datatype Mknoddata3 = Device(ftype: U32, attributes: Sattr3, spec: Specdata3) | Pipe(ftype: U32, attributes: Sattr3) | Void(ftype: U32)

  function EncMknod(what: Diropargs3, data: Mknoddata3): Bytes {
    EncDirop(what) +
    match data
    case Device(ftype, a, spec) => EncU32(ftype) + EncSattr3(a) + EncSpec(spec)
    case Pipe(ftype, a) => EncU32(ftype) + EncSattr3(a)
    case Void(ftype) => EncU32(ftype)
  }

  lemma MknodReadsNothing<S>(t: Table<S>, state: S, h: Header, args: Bytes, host: Host<S>)
    requires Serves(t, h, host) && h.vers == NFS_VERSION && h.proc == MKNOD
    ensures ResultOf(t, state, h, args) == PRC_OK && Unread(t, state, h, args) == args
    ensures Body(t, state, h, args, Room(true)) == [] && After(t, state, h, args) == state
    ensures ReadsAll(h, args) <==> args == []
  {
    assert args[0..] == args;
  }

  lemma MknodHasArguments(what: Diropargs3, data: Mknoddata3)
    ensures |EncMknod(what, data)| >= 12
  {
  }

  /** The arguments of a MKNOD call are all left unread, to be taken for the next call: no such call is
      complete, although the server reports success, and its record gets more than one reply. */
  lemma MknodIsNeverComplete<S>(t: Table<S>, state: S, call: Bytes, h: Header, what: Diropargs3, data: Mknoddata3,
                                replies: seq<Bytes>, host: Host<S>)
    requires Serves(t, h, host) && h.vers == NFS_VERSION && h.proc == MKNOD
    requires DecCall(true, call) == Got(h, EncMknod(what, data)) && Answers(t, state, true, call, replies)
    ensures |replies| > 1
    ensures ResultOf(t, state, h, EncMknod(what, data)) == PRC_OK
    ensures Unread(t, state, h, EncMknod(what, data)) == EncMknod(what, data)
    ensures !SelfContained(t, state, Alone(t, state, call, h, EncMknod(what, data)))
  {
    MknodHasArguments(what, data);
    MknodReadsNothing(t, state, h, EncMknod(what, data), host);
    SelfContainedExactly(t, state, call, h, EncMknod(what, data), host);
    OneReplyExactly(t, state, call, h, EncMknod(what, data), replies);
  }
}
