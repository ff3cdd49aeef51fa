/** CRPCServer of src/RPCServer.cpp over a socket's stream. */
module RpcServers {
  import opened Nodes
  import opened Wire
  import opened SocketStreams
  import opened Rpc
  import opened Pipelines
  import opened NfsPrograms
  import opened NfsProcedures

  /** The socket: its stream, its type, and what Send has sent so far. */
  class Connection {
    const stream: SocketStream
    const isStream: bool
    var sent: seq<Bytes>

    constructor (isStream: bool)
      ensures stream.Valid() && stream.AtEnd() && stream.Output() == [] && sent == []
      ensures this.isStream == isStream
      ensures fresh(stream) && fresh(stream.inBuffer) && fresh(stream.outBuffer)
    {
      this.isStream := isStream;
      stream := new SocketStream();
      sent := [];
    }

    method Send()
      requires stream.Valid()
      modifies this`sent, stream`outIndex, stream`outSize
      ensures stream.Valid() && stream.AtEnd() && stream.Output() == []
      ensures sent == old(sent) + [old(stream.Output())]
      ensures stream.Rest() == old(stream.Rest())
    {
      sent := sent + [stream.outBuffer[..stream.outSize]];
      stream.Reset();
    }
  }

  /** An entry of the program table: the NFS program, whose procedures run on the streams themselves,
      or another one, known by what it does. */
  datatype Registered<!S> = NfsServer(host: Host<S>) | Other(program: Program<S>)

  function ProgramOf<S>(r: Registered<S>): Program<S> {
    match r case NfsServer(host) => NfsProgram(host) case Other(program) => program
  }

  function ProgramsOf<S>(rs: seq<Option<Registered<S>>>): (t: seq<Option<Program<S>>>)
    ensures |t| == |rs|
  {
    seq(|rs|, i requires 0 <= i < |rs| => if rs[i].Some? then Some(ProgramOf(rs[i].value)) else None)
  }

  class RpcServer<S> {
    const progTable: array<Option<Registered<S>>>
    var state: S // what the programs keep between calls

    ghost predicate Valid() {
      progTable.Length == PROG_NUM
    }

    ghost function Programs(): Table<S>
      requires Valid()
      reads progTable
    {
      ProgramsOf(progTable[..])
    }

    constructor (state: S)
      ensures Valid() && fresh(progTable) && this.state == state
      ensures forall i :: 0 <= i < PROG_NUM ==> Programs()[i] == None
    {
      progTable := new Option<Registered<S>>[PROG_NUM](_ => None);
      this.state := state;
    }

    /** Registers a program under its number. */
    method Set(prog: U32, program: Registered<S>)
      requires Valid() && MIN_PROG_NUM <= prog < MIN_PROG_NUM + PROG_NUM
      modifies progTable
      ensures Programs() == old(Programs())[prog - MIN_PROG_NUM := Some(ProgramOf(program))]
      ensures forall h: Header ::
                Handler(Programs(), h) == if h.prog == prog then Some(ProgramOf(program)) else Handler(old(Programs()), h)
    {
      progTable[prog - MIN_PROG_NUM] := Some(program);
    }

    /** An opaque_auth; the reads go on after a short one. */
    method ReadAuth(s: SocketStream) returns (flavor: U32, length: U32, complete: bool)
      requires s.Valid()
      modifies s`inIndex
      ensures s.Valid()
      ensures match DecAuth(old(s.Rest()))
              case Fail => !complete && s.Rest() == []
              case Got(a, r) => complete && a == (flavor, length) && s.Rest() == r
    {
      ghost var r0 := s.Rest();
      var n;
      n, flavor := s.ReadWord();
      ghost var r1 := s.Rest();
      n, length := s.ReadWord();
      ghost var r2 := s.Rest();
      AuthRead(r0, r1, r2, flavor, length);
      complete := n == 4;
      n := s.Skip(length);
      if n < length {
        complete := false;
      }
    }

    method ReadFixed(s: SocketStream) returns (xid: U32, msg: U32, rpcvers: U32, prog: U32, vers: U32, proc: U32)
      requires s.Valid()
      modifies s`inIndex
      ensures s.Valid()
      ensures match DecFixed(old(s.Rest()))
              case Fail => s.Rest() == []
              case Got(h, r) => h == (xid, msg, rpcvers, prog, vers, proc) && s.Rest() == r
    {
      var n;
      n, xid := s.ReadWord();
      n, msg := s.ReadWord();
      n, rpcvers := s.ReadWord();
      n, prog := s.ReadWord();
      n, vers := s.ReadWord();
      n, proc := s.ReadWord();
    }

    /** The header, read to the end whatever is missing; only the verifier is checked. */
    method ReadHeader(isStream: bool, s: SocketStream) returns (mark: U32, h: Header, complete: bool)
      requires s.Valid()
      modifies s`inIndex
      ensures s.Valid()
      ensures match DecCall(isStream, old(s.Rest()))
              case Fail => !complete && s.Rest() == []
              case Got(header, r) => complete && h == header && s.Rest() == r
    {
      mark := 0;
      if isStream {
        var n;
        n, mark := s.ReadWord();
      }
      var xid, msg, rpcvers, prog, vers, proc := ReadFixed(s);
      var credFlavor, credLength, credComplete := ReadAuth(s);
      var verfFlavor, verfLength;
      verfFlavor, verfLength, complete := ReadAuth(s);
      h := Header(xid, msg, rpcvers, prog, vers, proc, credFlavor, credLength, verfFlavor, verfLength);
    }

    /** A word for which there is room. */
    method AppendWord(s: SocketStream, value: U32)
      requires s.Valid() && s.AtEnd() && s.outSize + 4 <= MAXDATA
      modifies s`outIndex, s`outSize, s.outBuffer
      ensures s.Valid() && s.AtEnd() && s.outSize == old(s.outSize) + 4
      ensures s.Output() == old(s.Output()) + EncU32(value)
    {
      s.WriteWord(value);
    }

    method WriteHead(s: SocketStream, h: Header)
      requires s.Valid() && s.AtEnd() && s.outSize + 20 <= MAXDATA
      modifies s`outIndex, s`outSize, s.outBuffer
      ensures s.Valid() && s.AtEnd() && s.Output() == old(s.Output()) + EncHead(h)
    {
      ghost var o := s.Output();
      AppendWord(s, h.xid);
      AppendWord(s, REPLY);
      AppendWord(s, MSG_ACCEPTED);
      AppendWord(s, h.verfFlavor);
      AppendWord(s, h.verfLength);
      HeadInWords(o, h);
    }

    /** A word written over four bytes of the output. */
    method ReplaceWord(s: SocketStream, value: U32)
      requires s.Valid() && s.outIndex + 4 <= s.outSize
      modifies s`outIndex, s`outSize, s.outBuffer
      ensures s.Valid() && s.outIndex == old(s.outIndex) + 4 && s.outSize == old(s.outSize)
      ensures s.Output() == Overwrite(old(s.Output()), old(s.outIndex), EncU32(value))
    {
      s.WriteWord(value);
    }

    /** Goes back over the last four bytes and puts the status there. */
    method PatchStatus(s: SocketStream, status: U32, ghost o: Bytes, ghost body: Bytes)
      requires s.Valid() && s.AtEnd() && s.Output() == o + (EncU32(SUCCESS) + body)
      modifies s`outIndex, s`outSize, s.outBuffer
      ensures s.Valid() && s.AtEnd() && s.Output() == o + Patched(body, status)
    {
      PatchedBehind(o, body, status);
      s.Seek(-4, SeekCur);
      ReplaceWord(s, status);
    }

    /** What a program leaves behind when it found this input and this state. */
    ghost predicate Ran(s: SocketStream, done: Handled<S>, result: Prc, input: Bytes)
      requires s.Valid()
      reads this, s, s.inBuffer
    {
      && result == done.result && state == done.state
      && s.Rest() == if done.consumed <= |input| then input[done.consumed..] else []
    }

    /** The rest of the input goes to the program; what it writes follows a status word that may be
        modified later. */
    method Dispatch(s: SocketStream, registered: Registered<S>, h: Header, ghost room: nat) returns (result: Prc)
      requires s.Valid() && s.AtEnd() && |s.Output()| + 4 + room == MAXDATA
      modifies this`state, s`inIndex, s`outIndex, s`outSize, s.outBuffer
      ensures s.Valid() && s.AtEnd()
      ensures var done := ProgramOf(registered)(old(state), h.vers, h.proc, old(s.Rest()));
              && Ran(s, done, result, old(s.Rest()))
              && s.Output() == old(s.Output()) + (EncU32(SUCCESS) + Fit(done.body, room))
    {
      ghost var o := s.Output();
      ghost var body := ProgramOf(registered)(state, h.vers, h.proc, s.Rest()).body;
      AppendWord(s, SUCCESS);
      match registered {
        case NfsServer(host) => result := RunNfs(s, host, h, room);
        case Other(program) => result := RunOther(s, program, h, room);
      }
      Assoc(o, EncU32(SUCCESS), Fit(body, room));
    }

    method RunNfs(s: SocketStream, host: Host<S>, h: Header, ghost room: nat) returns (result: Prc)
      requires s.Valid() && s.AtEnd() && |s.Output()| + room == MAXDATA
      modifies this`state, s`inIndex, s`outIndex, s`outSize, s.outBuffer
      ensures s.Valid() && s.AtEnd()
      ensures var done := Nfs(host, old(state), h.vers, h.proc, old(s.Rest()));
              && Ran(s, done, result, old(s.Rest()))
              && s.Output() == old(s.Output()) + Fit(done.body, room)
    {
      ghost var o := s.Output();
      var program := new Nfs3Prog(s, host, state);
      result := program.Process(h.vers, h.proc);
      state := program.state;
      Cut(o, Nfs(host, old(state), h.vers, h.proc, old(s.Rest())).body, room);
    }

    method RunOther(s: SocketStream, program: Program<S>, h: Header, ghost room: nat) returns (result: Prc)
      requires s.Valid() && s.AtEnd() && |s.Output()| + room == MAXDATA
      modifies this`state, s`inIndex, s`outIndex, s`outSize, s.outBuffer
      ensures s.Valid() && s.AtEnd()
      ensures var done := program(old(state), h.vers, h.proc, old(s.Rest()));
              && Ran(s, done, result, old(s.Rest()))
              && s.Output() == old(s.Output()) + Fit(done.body, room)
    {
      var input := s.inBuffer[s.inIndex..s.inSize];
      var done := program(state, h.vers, h.proc, input);
      result := done.result;
      state := done.state;
      var n := s.Skip(if done.consumed <= |input| then done.consumed else |input|);
      WriteBody(s, done.body, room);
    }

    method WriteBody(s: SocketStream, body: Bytes, ghost room: nat)
      requires s.Valid() && s.AtEnd() && |s.Output()| + room == MAXDATA
      modifies s`outIndex, s`outSize, s.outBuffer
      ensures s.Valid() && s.AtEnd()
      ensures s.Output() == old(s.Output()) + Fit(body, room)
    {
      BodyFits(s.Output(), body);
      s.Write(Fit(body, MAXDATA));
    }

    /** A program runs, and its status word is settled. */
    method RunProgram(s: SocketStream, registered: Registered<S>, h: Header, ghost room: nat) returns (result: Prc)
      requires s.Valid() && s.AtEnd() && |s.Output()| + 4 + room == MAXDATA
      modifies this`state, s`inIndex, s`outIndex, s`outSize, s.outBuffer
      ensures s.Valid() && s.AtEnd()
      ensures var done := ProgramOf(registered)(old(state), h.vers, h.proc, old(s.Rest()));
              && Ran(s, done, result, old(s.Rest()))
              && s.Output() == old(s.Output()) + Settled(done, room)
    {
      ghost var o := s.Output();
      ghost var body := Fit(ProgramOf(registered)(state, h.vers, h.proc, s.Rest()).body, room);
      result := Dispatch(s, registered, h, room);
      if result == PRC_NOTIMP {
        PatchStatus(s, PROC_UNAVAIL, o, body);
      } else if result == PRC_FAIL {
        PatchStatus(s, GARBAGE_ARGS, o, body);
      }
    }

    /** The server has done with the input what the table says. */
    ghost predicate Served(s: SocketStream, result: Prc, state0: S, h: Header, args: Bytes)
      requires Valid() && s.Valid()
      reads this, progTable, s, s.inBuffer
    {
      && result == ResultOf(Programs(), state0, h, args) && state == After(Programs(), state0, h, args)
      && s.Rest() == Unread(Programs(), state0, h, args)
    }

    /** What a complete call gets behind the verifier. */
    method Serve(s: SocketStream, h: Header, ghost room: nat) returns (result: Prc)
      requires Valid() && s.Valid() && s.AtEnd() && |s.Output()| + 4 + room == MAXDATA
      modifies this`state, s`inIndex, s`outIndex, s`outSize, s.outBuffer
      ensures s.Valid() && s.AtEnd() && Served(s, result, old(state), h, old(s.Rest()))
      ensures s.Output() == old(s.Output()) + Payload(Programs(), old(state), h, old(s.Rest()), room)
    {
      hide Settled, EncU32, Fit;
      result := PRC_OK;
      if h.prog < MIN_PROG_NUM || h.prog >= MIN_PROG_NUM + PROG_NUM {
        AppendWord(s, PROG_UNAVAIL);
      } else if progTable[h.prog - MIN_PROG_NUM].None? {
        AppendWord(s, PROG_UNAVAIL);
      } else {
        result := RunProgram(s, progTable[h.prog - MIN_PROG_NUM].value, h, room);
      }
    }

    /** What follows the verifier of any call. */
    ghost function Content(complete: bool, state0: S, h: Header, args: Bytes, room: nat): Bytes
      requires Valid()
      reads progTable
    {
      if complete then Payload(Programs(), state0, h, args, room) else EncU32(GARBAGE_ARGS)
    }

    ghost predicate Finished(s: SocketStream, complete: bool, result: Prc, state0: S, h: Header, args: Bytes)
      requires Valid() && s.Valid()
      reads this, progTable, s, s.inBuffer
    {
      if complete then Served(s, result, state0, h, args) else result == PRC_FAIL && state == state0 && s.Rest() == args
    }

    /** What any call gets behind the verifier. */
    method Respond(s: SocketStream, h: Header, complete: bool, ghost room: nat) returns (result: Prc)
      requires Valid() && s.Valid() && s.AtEnd() && |s.Output()| + 4 + room == MAXDATA
      modifies this`state, s`inIndex, s`outIndex, s`outSize, s.outBuffer
      ensures s.Valid() && s.AtEnd() && Finished(s, complete, result, old(state), h, old(s.Rest()))
      ensures s.Output() == old(s.Output()) + Content(complete, old(state), h, old(s.Rest()), room)
    {
      if complete {
        result := Serve(s, h, room);
      } else {
        result := PRC_FAIL;
        AppendWord(s, GARBAGE_ARGS);
      }
    }

    /** Puts the size of what was written behind the record mark into the mark. */
    method UpdateMark(s: SocketStream, pos: U32, ghost o: Bytes, ghost mark: U32, ghost content: Bytes)
      requires s.Valid() && s.AtEnd() && s.Output() == o + EncU32(mark) + content && pos == |o|
      modifies s`outIndex, s`outSize, s.outBuffer
      ensures s.Valid() && s.Output() == o + Record(true, content)
    {
      hide Record, Overwrite, EncU32;
      var size := s.GetPosition();
      var header := (0x8000_0000 + size - pos - 4) % 0x1_0000_0000;
      MarkReplaced(s.Output(), o, mark, content, header);
      s.Seek(pos, SeekSet);
      ReplaceWord(s, header);
    }

    /** The reply behind its mark. */
    method ComposeContent(s: SocketStream, h: Header, complete: bool, ghost room: nat) returns (result: Prc)
      requires Valid() && s.Valid() && s.AtEnd() && |s.Output()| + 24 + room == MAXDATA
      modifies this`state, s`inIndex, s`outIndex, s`outSize, s.outBuffer
      ensures s.Valid() && s.AtEnd() && Finished(s, complete, result, old(state), h, old(s.Rest()))
      ensures s.Output() == old(s.Output()) + (EncHead(h) + Content(complete, old(state), h, old(s.Rest()), room))
    {
      ghost var o := s.Output();
      ghost var content := Content(complete, state, h, s.Rest(), room);
      WriteHead(s, h);
      result := Respond(s, h, complete, room);
      Assoc(o, EncHead(h), content);
    }

    /** Process once the header is read. */
    method Compose(isStream: bool, s: SocketStream, mark: U32, h: Header, complete: bool, ghost room: nat) returns (result: Prc)
      requires Valid() && s.Valid() && s.AtEnd() && |s.Output()| + Overhead(isStream) + room == MAXDATA
      modifies this`state, s`inIndex, s`outIndex, s`outSize, s.outBuffer
      ensures s.Valid() && Finished(s, complete, result, old(state), h, old(s.Rest()))
      ensures s.Output() == old(s.Output()) +
              Record(isStream, EncHead(h) + Content(complete, old(state), h, old(s.Rest()), room))
    {
      ghost var o := s.Output();
      ghost var content := EncHead(h) + Content(complete, state, h, s.Rest(), room);
      var pos := s.GetPosition();
      if isStream {
        AppendWord(s, mark);
      }
      result := ComposeContent(s, h, complete, room);
      if isStream {
        UpdateMark(s, pos, o, mark, content);
      }
    }

    /** Process: one call is read and its reply appended to the output. */
    method Process(isStream: bool, s: SocketStream, ghost room: nat) returns (result: Prc)
      requires Valid() && s.Valid() && s.AtEnd() && |s.Output()| + Overhead(isStream) + room == MAXDATA
      modifies this`state, s`inIndex, s`outIndex, s`outSize, s.outBuffer
      ensures s.Valid()
      ensures |old(s.Output())| <= |s.Output()| && s.Output()[..|old(s.Output())|] == old(s.Output())
      ensures Processed(Programs(), old(state), isStream, old(s.Rest()), room, result,
                        s.Output()[|old(s.Output())|..], state, s.Rest())
    {
      ghost var o, state0 := s.Output(), state;
      var mark, h, complete := ReadHeader(isStream, s);
      ghost var args := s.Rest();
      result := Compose(isStream, s, mark, h, complete, room);
      ghost var reply := Record(isStream, EncHead(h) + Content(complete, state0, h, args, room));
      assert (o + reply)[|o|..] == reply;
      assert complete || reply == Garbage(isStream, h);
    }

    /** A call from an empty output buffer, and its reply sent. */
    method Exchange(c: Connection) returns (result: Prc, ghost reply: Bytes)
      requires Valid() && c.stream.Valid() && c.stream.AtEnd() && c.stream.Output() == []
      modifies this`state, c`sent, c.stream`inIndex, c.stream`outIndex, c.stream`outSize, c.stream.outBuffer
      ensures c.stream.Valid() && c.stream.AtEnd() && c.stream.Output() == []
      ensures c.sent == old(c.sent) + [reply]
      ensures Processed(Programs(), old(state), c.isStream, old(c.stream.Rest()), Room(c.isStream), result, reply,
                        state, c.stream.Rest())
    {
      result := Process(c.isStream, c.stream, Room(c.isStream));
      reply := c.stream.Output();
      assert reply[0..] == reply;
      c.Send();
    }

    /** One round of SocketReceived: a call is read, and its reply sent. */
    method Round(c: Connection, ghost state0: S, ghost input: Bytes, ghost before: seq<Bytes>) returns (more: bool)
      requires Valid() && c.stream.Valid() && c.stream.AtEnd() && c.stream.Output() == []
      requires before <= c.sent && c.stream.Rest() != []
      requires Continues(Programs(), state0, c.isStream, input, c.sent[|before|..], state, c.stream.Rest())
      modifies this`state, c`sent, c.stream`inIndex, c.stream`outIndex, c.stream`outSize, c.stream.outBuffer
      ensures c.stream.Valid() && c.stream.AtEnd() && c.stream.Output() == []
      ensures before <= c.sent && |c.stream.Rest()| < |old(c.stream.Rest())|
      ensures more ==> Continues(Programs(), state0, c.isStream, input, c.sent[|before|..], state, c.stream.Rest())
      ensures !more ==>
                && Answers(Programs(), state0, c.isStream, input, c.sent[|before|..])
                && Left(Programs(), state0, c.isStream, input) == (state, c.stream.Rest())
    {
      hide Continues, Processed, Answers, Left, ProgramsOf, Room;
      ghost var rest, replies, now := c.stream.Rest(), c.sent[|before|..], state;
      var result;
      ghost var reply;
      result, reply := Exchange(c);
      assert c.sent[|before|..] == replies + [reply];
      CallAnswered(Programs(), state0, c.isStream, input, replies, now, rest, result, reply, state, c.stream.Rest());
      more := result == PRC_OK && c.isStream;
    }

    /** SocketReceived: replies are sent until the input is used up or a call fails. Every round reads
        at least one byte. */
    method SocketReceived(c: Connection)
      requires Valid() && c.stream.Valid() && c.stream.AtEnd() && c.stream.Output() == []
      modifies this`state, c`sent, c.stream`inIndex, c.stream`outIndex, c.stream`outSize, c.stream.outBuffer
      ensures c.stream.Valid() && c.stream.AtEnd() && c.stream.Output() == []
      ensures old(c.sent) <= c.sent
      ensures Answers(Programs(), old(state), c.isStream, old(c.stream.Rest()), c.sent[|old(c.sent)|..])
      ensures (state, c.stream.Rest()) == Left(Programs(), old(state), c.isStream, old(c.stream.Rest()))
    {
      ghost var input, before, state0 := c.stream.Rest(), c.sent, state;
      NothingAnswered(Programs(), state, c.isStream, input);
      var n := c.stream.GetSize();
      while n > 0
        invariant c.stream.Valid() && c.stream.AtEnd() && c.stream.Output() == []
        invariant n == |c.stream.Rest()| && before <= c.sent
        invariant Continues(Programs(), state0, c.isStream, input, c.sent[|before|..], state, c.stream.Rest())
        decreases n
      {
        var more := Round(c, state0, input, before);
        if !more {
          return;
        }
        n := c.stream.GetSize();
      }
      AllInputAnswered(Programs(), state0, c.isStream, input, c.sent[|before|..], state);
    }
  }

  /** What two word reads and a skip find out about an opaque_auth. */
  lemma AuthRead(s: Bytes, s1: Bytes, s2: Bytes, flavor: U32, length: U32)
    requires s1 == if 4 <= |s| then s[4..] else []
    requires s2 == if 4 <= |s1| then s1[4..] else []
    requires 4 <= |s| ==> DecU32(s) == Got(flavor, s1)
    requires 4 <= |s1| ==> DecU32(s1) == Got(length, s2)
    ensures match DecAuth(s)
            case Fail => |s1| < 4 || |s2| < length
            case Got(a, r) => |s1| >= 4 && length <= |s2| && a == (flavor, length) && r == s2[length..]
  {
  }

  lemma HeadInWords(o: Bytes, h: Header)
    ensures o + EncU32(h.xid) + EncU32(REPLY) + EncU32(MSG_ACCEPTED) + EncU32(h.verfFlavor) + EncU32(h.verfLength) ==
            o + EncHead(h)
  {
    var w4 := EncU32(h.verfFlavor) + EncU32(h.verfLength);
    var w3 := EncU32(MSG_ACCEPTED) + w4;
    Assoc(o, EncU32(h.xid), EncU32(REPLY) + w3);
    Assoc(o + EncU32(h.xid), EncU32(REPLY), w3);
    Assoc(o + EncU32(h.xid) + EncU32(REPLY), EncU32(MSG_ACCEPTED), w4);
    Assoc(o + EncU32(h.xid) + EncU32(REPLY) + EncU32(MSG_ACCEPTED), EncU32(h.verfFlavor), EncU32(h.verfLength));
  }

  lemma Cut(o: Bytes, body: Bytes, room: nat)
    requires |o| + room == MAXDATA
    ensures Fit(o + body, MAXDATA) == o + Fit(body, room)
  {
  }

  lemma BodyFits(s: Bytes, body: Bytes)
    requires |s| <= MAXDATA
    ensures Fit(s + Fit(body, MAXDATA), MAXDATA) == s + Fit(body, MAXDATA - |s|)
  {
  }

  lemma PatchedBehind(o: Bytes, body: Bytes, status: U32)
    ensures Overwrite(o + (EncU32(SUCCESS) + body), |o| + |body|, EncU32(status)) == o + Patched(body, status)
  {
  }

  lemma MarkReplaced(out: Bytes, o: Bytes, mark: U32, content: Bytes, header: U32)
    requires out == o + EncU32(mark) + content && header == (0x8000_0000 + |content|) % 0x1_0000_0000
    ensures |o| <= |out| && Overwrite(out, |o|, EncU32(header)) == o + Record(true, content)
  {
    assert Record(true, content) == EncU32(header) + content;
  }
}
