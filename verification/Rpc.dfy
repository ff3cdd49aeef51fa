/** What src/RPCServer.cpp makes of a byte stream of calls, on plain byte sequences: the header it
    reads, the reply it builds by patching, and which calls of one received buffer are answered.
    The layouts are those of sections 9 and 11 of RFC 5531. */
module Rpc {
  import opened Nodes
  import opened Wire
  import opened SocketStreams

  const MIN_PROG_NUM := 100000
  const PROG_NUM := 10
  const REPLY := 1
  const MSG_ACCEPTED := 0
  const SUCCESS := 0
  const PROG_UNAVAIL := 1
  const PROC_UNAVAIL := 3
  const GARBAGE_ARGS := 4

  datatype Prc = PRC_OK | PRC_FAIL | PRC_NOTIMP

  /** RPC_HEADER without the record mark. */
  datatype Header = Header(xid: U32, msg: U32, rpcvers: U32, prog: U32, vers: U32, proc: U32,
                           credFlavor: U32, credLength: U32, verfFlavor: U32, verfLength: U32)

  /** What CRPCProg::Process does with the rest of the input: how much it reads, what it writes, and
      the state it leaves the server in. */
  datatype Handled<S> = Handled(result: Prc, consumed: nat, body: Bytes, state: S)

  /** A program, given the state of the server, the version, the procedure and the input. */
  type Program<!S> = (S, U32, U32, Bytes) -> Handled<S>

  type Table<!S> = t: seq<Option<Program<S>>> | |t| == PROG_NUM witness seq(PROG_NUM, _ => None)

  // ---------------------------------------------------------------- the call header

  function DecSkip(n: nat, s: Bytes): (p: Parsed<()>)
    ensures p.Got? ==> |p.rest| <= |s|
  {
    if |s| < n then Fail else Got((), s[n..])
  }

  function DecFixed(s: Bytes): (p: Parsed<(U32, U32, U32, U32, U32, U32)>)
    ensures p.Got? ==> |p.rest| < |s|
  {
    var (xid, r) :- DecU32(s);
    var (msg, r) :- DecU32(r);
    var (rpcvers, r) :- DecU32(r);
    var (prog, r) :- DecU32(r);
    var (vers, r) :- DecU32(r);
    var (proc, r) :- DecU32(r);
    Got((xid, msg, rpcvers, prog, vers, proc), r)
  }

  /** An opaque_auth as the server reads it: the fill bytes of its body are not skipped. */
  function DecAuth(s: Bytes): (p: Parsed<(U32, U32)>)
    ensures p.Got? ==> |p.rest| < |s|
  {
    var (flavor, r) :- DecU32(s);
    var (length, r) :- DecU32(r);
    var (_, r) :- DecSkip(length, r);
    Got((flavor, length), r)
  }

  function DecMark(isStream: bool, s: Bytes): (p: Parsed<()>)
    ensures p.Got? ==> |p.rest| <= |s|
  {
    if isStream then DecSkip(4, s) else Got((), s)
  }

  function DecCall(isStream: bool, s: Bytes): (p: Parsed<Header>)
    ensures p.Got? ==> |p.rest| < |s|
  {
    var (_, r) :- DecMark(isStream, s);
    var (h, r) :- DecFixed(r);
    var (cred, r) :- DecAuth(r);
    var (verf, r) :- DecAuth(r);
    Got(Header(h.0, h.1, h.2, h.3, h.4, h.5, cred.0, cred.1, verf.0, verf.1), r)
  }

  // ---------------------------------------------------------------- the reply

  function EncHead(h: Header): (s: Bytes)
    ensures |s| == 20
  {
    EncU32(h.xid) + (EncU32(REPLY) + (EncU32(MSG_ACCEPTED) + (EncU32(h.verfFlavor) + EncU32(h.verfLength))))
  }

  function Handler<S>(t: Table<S>, h: Header): Option<Program<S>> {
    if h.prog < MIN_PROG_NUM || h.prog >= MIN_PROG_NUM + PROG_NUM then None else t[h.prog - MIN_PROG_NUM]
  }

  /** The status word and the body behind it, after the seek back over the last four bytes. */
  function Patched(body: Bytes, status: U32): (s: Bytes)
    ensures |s| == 4 + |body|
  {
    Overwrite(EncU32(SUCCESS) + body, |body|, EncU32(status))
  }

  /** The status word and the body after a program has run; `room` bytes are left for the body. */
  function Settled<S>(done: Handled<S>, room: nat): (s: Bytes)
    ensures 4 <= |s| <= 4 + room
  {
    var body := Fit(done.body, room);
    match done.result
    case PRC_OK => EncU32(SUCCESS) + body
    case PRC_NOTIMP => Patched(body, PROC_UNAVAIL)
    case PRC_FAIL => Patched(body, GARBAGE_ARGS)
  }

  /** Everything behind the verifier. */
  function Payload<S>(t: Table<S>, state: S, h: Header, args: Bytes, room: nat): (s: Bytes)
    ensures 4 <= |s| <= 4 + room
  {
    match Handler(t, h)
    case None => EncU32(PROG_UNAVAIL)
    case Some(program) => Settled(program(state, h.vers, h.proc, args), room)
  }

  /** With a record mark before it on stream sockets. */
  function Record(isStream: bool, content: Bytes): Bytes {
    if isStream then EncU32((0x8000_0000 + |content|) % 0x1_0000_0000) + content else content
  }

  /** The size of a reply without its body. */
  function Overhead(isStream: bool): nat {
    if isStream then 28 else 24
  }

  function Reply<S>(t: Table<S>, state: S, isStream: bool, h: Header, args: Bytes, room: nat): Bytes {
    Record(isStream, EncHead(h) + Payload(t, state, h, args, room))
  }

  /** The room for the body of a reply that starts an empty output buffer. */
  function Room(isStream: bool): nat {
    MAXDATA - Overhead(isStream)
  }

  function ResultOf<S>(t: Table<S>, state: S, h: Header, args: Bytes): Prc {
    match Handler(t, h) case None => PRC_OK case Some(program) => program(state, h.vers, h.proc, args).result
  }

  function Unread<S>(t: Table<S>, state: S, h: Header, args: Bytes): (s: Bytes)
    ensures |s| <= |args|
  {
    match Handler(t, h)
    case None => args
    case Some(program) =>
      var n := program(state, h.vers, h.proc, args).consumed;
      if n <= |args| then args[n..] else []
  }

  /** The state behind the call; the server itself has none. */
  function After<S>(t: Table<S>, state: S, h: Header, args: Bytes): S {
    match Handler(t, h) case None => state case Some(program) => program(state, h.vers, h.proc, args).state
  }

  /** The reply to a truncated header: GARBAGE_ARGS and no body; the words copied from the header
      may be whatever the variables held. */
  function Garbage(isStream: bool, h: Header): Bytes {
    Record(isStream, EncHead(h) + EncU32(GARBAGE_ARGS))
  }

  // ---------------------------------------------------------------- what the client reads

  /** accepted_reply as section 9 of RFC 5531 lays it out: the verifier body follows its length. */
  function DecReply(s: Bytes): Parsed<(U32, U32, U32, U32, U32)> {
    var (xid, r) :- DecU32(s);
    var (msg, r) :- DecU32(r);
    var (stat, r) :- DecU32(r);
    var (flavor, r) :- DecU32(r);
    var (_, r) :- DecOpaque(r);
    var (status, r) :- DecU32(r);
    Got((xid, msg, stat, flavor, status), r)
  }

  /** The client reads the reply to the call with this header, this status and this body. */
  predicate ReadsAs(content: Bytes, h: Header, status: U32, body: Bytes) {
    DecReply(content) == Got((h.xid, REPLY, MSG_ACCEPTED, h.verfFlavor, status), body)
  }

  /** The accept status of RFC 5531 for what happened. */
  function Status<S>(t: Table<S>, state: S, h: Header, args: Bytes): U32 {
    match Handler(t, h)
    case None => PROG_UNAVAIL
    case Some(_) =>
      match ResultOf(t, state, h, args)
      case PRC_OK => SUCCESS
      case PRC_NOTIMP => PROC_UNAVAIL
      case PRC_FAIL => GARBAGE_ARGS
  }

  /** The body a reply with that status has. */
  function Body<S>(t: Table<S>, state: S, h: Header, args: Bytes, room: nat): Bytes {
    match Handler(t, h)
    case None => []
    case Some(program) =>
      if ResultOf(t, state, h, args) == PRC_OK then Fit(program(state, h.vers, h.proc, args).body, room) else []
  }

  /** What was written before the program failed. */
  function Leftover<S>(t: Table<S>, state: S, h: Header, args: Bytes, room: nat): Bytes {
    match Handler(t, h)
    case None => []
    case Some(program) =>
      if ResultOf(t, state, h, args) == PRC_OK then [] else Fit(program(state, h.vers, h.proc, args).body, room)
  }

  /** The bytes a client skips for a verifier of that length. */
  function VerifierSize(length: U32): nat {
    length + Padding(length)
  }

  /** A client that skips the verifier it was promised. */
  function AfterVerifier(length: U32, p: Bytes): Parsed<U32> {
    var (_, r) :- DecOpaque(EncU32(length) + p);
    DecU32(r)
  }

  lemma HeadReads(h: Header, p: Bytes)
    ensures DecReply(EncHead(h) + p) ==
            match AfterVerifier(h.verfLength, p)
            case Fail => Fail
            case Got(status, r) => Got((h.xid, REPLY, MSG_ACCEPTED, h.verfFlavor, status), r)
  {
    var w5 := EncU32(h.verfLength);
    var w4 := EncU32(h.verfFlavor) + w5;
    var w3 := EncU32(MSG_ACCEPTED) + w4;
    var w2 := EncU32(REPLY) + w3;
    assert EncHead(h) + p == EncU32(h.xid) + (w2 + p);
    assert w2 + p == EncU32(REPLY) + (w3 + p);
    assert w3 + p == EncU32(MSG_ACCEPTED) + (w4 + p);
    assert w4 + p == EncU32(h.verfFlavor) + (w5 + p);
    U32RoundTrip(h.xid, w2 + p);
    U32RoundTrip(REPLY, w3 + p);
    U32RoundTrip(MSG_ACCEPTED, w4 + p);
    U32RoundTrip(h.verfFlavor, w5 + p);
  }

  /** The payload is the leftover of a failed program, the status word and the body, except that
      the first four bytes of the leftover were overwritten by nothing: they still say SUCCESS. */
  lemma PayloadParts<S>(t: Table<S>, state: S, h: Header, args: Bytes, room: nat)
    ensures var left := Leftover(t, state, h, args, room);
            Payload(t, state, h, args, room) ==
            (EncU32(SUCCESS) + left)[..|left|] + EncU32(Status(t, state, h, args)) + Body(t, state, h, args, room)
  {
  }

  lemma SkipsVerifier(length: U32, p: Bytes)
    ensures AfterVerifier(length, p) ==
            if VerifierSize(length) <= |p| then DecU32(p[VerifierSize(length)..]) else Fail
  {
    U32RoundTrip(length, p);
  }

  lemma StatusBehind(length: U32, left: Bytes, status: U32, body: Bytes)
    ensures AfterVerifier(length, left + EncU32(status) + body) == Got(status, body) <==> VerifierSize(length) == |left|
  {
    var p, skip := left + EncU32(status) + body, VerifierSize(length);
    SkipsVerifier(length, p);
    U32RoundTrip(status, body);
    if skip == |left| {
      assert p[skip..] == EncU32(status) + body;
    }
  }

  /** A client reads the intended status and body behind the verifier exactly when the verifier
      length it was sent, with its fill bytes, is the size of what a failed program left behind:
      for a program that did not fail, exactly when the verifier is empty. */
  lemma ClientReadsReply<S>(t: Table<S>, state: S, h: Header, args: Bytes, room: nat)
    ensures ReadsAs(EncHead(h) + Payload(t, state, h, args, room), h, Status(t, state, h, args), Body(t, state, h, args, room))
            <==> VerifierSize(h.verfLength) == |Leftover(t, state, h, args, room)|
  {
    var left, status, body := Leftover(t, state, h, args, room), Status(t, state, h, args), Body(t, state, h, args, room);
    PayloadParts(t, state, h, args, room);
    HeadReads(h, Payload(t, state, h, args, room));
    StatusBehind(h.verfLength, (EncU32(SUCCESS) + left)[..|left|], status, body);
  }

  /** On stream sockets the mark has the last-fragment bit and the number of bytes behind it. */
  lemma MarkCounts(content: Bytes)
    requires |content| < 0x8000_0000
    ensures DecU32(Record(true, content)) == Got(0x8000_0000 + |content|, content)
  {
    U32RoundTrip(0x8000_0000 + |content|, content);
  }

  /** The word that starts at a byte. */
  function WordFrom(s: Bytes, at: nat): Option<U32>
    requires at <= |s|
  {
    match DecU32(s[at..]) case Got(n, _) => Some(n) case Fail => None
  }

  lemma WordBehind(front: Bytes, n: U32, rest: Bytes)
    ensures WordFrom(front + (EncU32(n) + rest), |front|) == Some(n)
  {
    assert (front + (EncU32(n) + rest))[|front|..] == EncU32(n) + rest;
    U32RoundTrip(n, rest);
  }

  lemma WordsOf(a: U32, b: U32, c: U32, d: U32, e: U32, f: U32, rest: Bytes)
    ensures var s := EncU32(a) + (EncU32(b) + (EncU32(c) + (EncU32(d) + EncU32(e)))) + (EncU32(f) + rest);
            && |s| >= 24 && WordFrom(s, 0) == Some(a) && WordFrom(s, 4) == Some(b) && WordFrom(s, 8) == Some(c)
            && WordFrom(s, 12) == Some(d) && WordFrom(s, 16) == Some(e) && WordFrom(s, 20) == Some(f)
  {
    hide EncU32, WordFrom;
    var (k, l, m, n, o) := (EncU32(a), EncU32(b), EncU32(c), EncU32(d), EncU32(e));
    var s, z := k + (l + (m + (n + o))) + (EncU32(f) + rest), EncU32(f) + rest;
    assert s == [] + (k + (l + m + n + o + z));
    assert s == k + (l + (m + n + o + z));
    assert s == (k + l) + (m + (n + o + z));
    assert s == (k + l + m) + (n + (o + z));
    assert s == (k + l + m + n) + (o + z);
    assert s == (k + l + m + n + o) + z;
    WordBehind([], a, l + m + n + o + z);
    WordBehind(k, b, m + n + o + z);
    WordBehind(k + l, c, n + o + z);
    WordBehind(k + l + m, d, o + z);
    WordBehind(k + l + m + n, e, z);
    WordBehind(k + l + m + n + o, f, rest);
  }

  /** The reply to an incomplete header, by the numbers of section 9 of RFC 5531: REPLY, accepted, GARBAGE_ARGS. */
  lemma GarbageWords(h: Header)
    ensures var reply := Garbage(true, h);
            && |reply| == 28 && WordFrom(reply, 0) == Some(0x8000_0018) && WordFrom(reply[4..], 4) == Some(1)
            && WordFrom(reply[4..], 8) == Some(0) && WordFrom(reply[4..], 20) == Some(4)
  {
    hide WordFrom, EncU32;
    var status := EncU32(GARBAGE_ARGS);
    assert status == status + [];
    WordsOf(h.xid, REPLY, MSG_ACCEPTED, h.verfFlavor, h.verfLength, GARBAGE_ARGS, []);
    assert Garbage(true, h)[4..] == EncHead(h) + (status + []);
    WordBehind([], 0x8000_0018, EncHead(h) + status);
    assert [] + (EncU32(0x8000_0018) + (EncHead(h) + status)) == Garbage(true, h);
  }

  /** A program that is not there: PROG_UNAVAIL, and nothing of the arguments is read. */
  lemma UnservedWords<S>(t: Table<S>, state: S, h: Header, args: Bytes)
    requires h.prog < 100000 || h.prog >= 100010 || t[h.prog - 100000] == None
    ensures var reply := Reply(t, state, true, h, args, Room(true));
            && |reply| == 28 && WordFrom(reply[4..], 0) == Some(h.xid) && WordFrom(reply[4..], 4) == Some(1)
            && WordFrom(reply[4..], 8) == Some(0) && WordFrom(reply[4..], 20) == Some(1)
            && Unread(t, state, h, args) == args && After(t, state, h, args) == state
  {
    hide WordFrom, EncU32;
    var status := EncU32(PROG_UNAVAIL);
    assert status == status + [];
    WordsOf(h.xid, REPLY, MSG_ACCEPTED, h.verfFlavor, h.verfLength, PROG_UNAVAIL, []);
    assert Reply(t, state, true, h, args, Room(true))[4..] == EncHead(h) + (status + []);
  }

  // ---------------------------------------------------------------- calls as clients encode them

  function EncMark(isStream: bool, mark: U32): Bytes {
    if isStream then EncU32(mark) else []
  }

  function EncFixed(h: Header): Bytes {
    EncU32(h.xid) + (EncU32(h.msg) + (EncU32(h.rpcvers) + (EncU32(h.prog) + (EncU32(h.vers) + EncU32(h.proc)))))
  }

  /** call_body of RFC 5531, with credential and verifier bodies as opaque data. */
  function EncCall(isStream: bool, mark: U32, h: Header, cred: Short, verf: Short): Bytes {
    EncMark(isStream, mark) +
    (EncFixed(h) + ((EncU32(h.credFlavor) + EncOpaque(cred)) + (EncU32(h.verfFlavor) + EncOpaque(verf))))
  }

  lemma FixedRoundTrip(h: Header, rest: Bytes)
    ensures DecFixed(EncFixed(h) + rest) == Got((h.xid, h.msg, h.rpcvers, h.prog, h.vers, h.proc), rest)
  {
    var w5 := EncU32(h.vers) + EncU32(h.proc);
    var w4 := EncU32(h.prog) + w5;
    var w3 := EncU32(h.rpcvers) + w4;
    var w2 := EncU32(h.msg) + w3;
    assert EncFixed(h) + rest == EncU32(h.xid) + (w2 + rest);
    assert w2 + rest == EncU32(h.msg) + (w3 + rest);
    assert w3 + rest == EncU32(h.rpcvers) + (w4 + rest);
    assert w4 + rest == EncU32(h.prog) + (w5 + rest);
    assert w5 + rest == EncU32(h.vers) + (EncU32(h.proc) + rest);
    U32RoundTrip(h.xid, w2 + rest);
    U32RoundTrip(h.msg, w3 + rest);
    U32RoundTrip(h.rpcvers, w4 + rest);
    U32RoundTrip(h.prog, w5 + rest);
    U32RoundTrip(h.vers, EncU32(h.proc) + rest);
    U32RoundTrip(h.proc, rest);
  }

  lemma SkipsBody(body: Bytes, rest: Bytes)
    ensures DecSkip(|body|, body + rest) == Got((), rest)
  {
  }

  /** The server stops in front of the fill bytes. */
  lemma AuthReads(flavor: U32, body: Short, rest: Bytes)
    ensures DecAuth(EncU32(flavor) + EncOpaque(body) + rest) == Got((flavor, |body|), Zeros(Padding(|body|)) + rest)
  {
    var z, len := Zeros(Padding(|body|)), EncU32(|body|);
    Assoc(EncU32(flavor), EncOpaque(body), rest);
    Assoc(len + body, z, rest);
    Assoc(len, body, z + rest);
    U32RoundTrip(flavor, len + (body + (z + rest)));
    U32RoundTrip(|body|, body + (z + rest));
    SkipsBody(body, z + rest);
  }

  lemma MarkReads(isStream: bool, mark: U32, rest: Bytes)
    ensures DecMark(isStream, EncMark(isStream, mark) + rest) == Got((), rest)
  {
    assert (EncMark(isStream, mark) + rest)[|EncMark(isStream, mark)|..] == rest;
  }

  /** What the server makes of an encoded call up to the fill bytes of its credential. */
  lemma CallReads(isStream: bool, mark: U32, h: Header, cred: Short, verf: Short, args: Bytes)
    ensures DecCall(isStream, EncCall(isStream, mark, h, cred, verf) + args) ==
            match DecAuth(Zeros(Padding(|cred|)) + (EncU32(h.verfFlavor) + EncOpaque(verf) + args))
            case Fail => Fail
            case Got(v, r) => Got(Header(h.xid, h.msg, h.rpcvers, h.prog, h.vers, h.proc, h.credFlavor, |cred|, v.0, v.1), r)
  {
    var a := EncU32(h.credFlavor) + EncOpaque(cred);
    var b := EncU32(h.verfFlavor) + EncOpaque(verf);
    assert EncCall(isStream, mark, h, cred, verf) + args == EncMark(isStream, mark) + (EncFixed(h) + (a + (b + args)));
    MarkReads(isStream, mark, EncFixed(h) + (a + (b + args)));
    FixedRoundTrip(h, a + (b + args));
    AuthReads(h.credFlavor, cred, b + args);
  }

  /** A call reads back and its arguments start where the server begins to read them, whenever
      neither opaque body needs fill bytes. */
  lemma CallRoundTrip(isStream: bool, mark: U32, h: Header, cred: Short, verf: Short, args: Bytes)
    requires h.credLength == |cred| && h.verfLength == |verf|
    requires Padding(|cred|) == 0 && Padding(|verf|) == 0
    ensures DecCall(isStream, EncCall(isStream, mark, h, cred, verf) + args) == Got(h, args)
  {
    CallReads(isStream, mark, h, cred, verf, args);
    var b := EncU32(h.verfFlavor) + EncOpaque(verf);
    assert Zeros(0) + (b + args) == b + args;
    AuthReads(h.verfFlavor, verf, args);
    assert Zeros(0) + args == args;
  }

  /** Fill bytes look like the start of an empty AUTH_NONE verifier. */
  lemma NullVerifierShifts(k: nat, args: Bytes)
    ensures DecAuth(Zeros(k) + (EncU32(0) + EncOpaque([]) + args)) == Got((0, 0), Zeros(k) + args)
  {
    var z := Zeros(k);
    NullVerifier();
    assert z + (EncU32(0) + EncOpaque([]) + args) == Zeros(4) + (Zeros(4) + (z + args));
    ZeroWord(Zeros(4) + (z + args));
    ZeroWord(z + args);
    SkipStable(0, [], z + args);
  }

  /** Behind the empty AUTH_NONE verifier of ordinary clients the server takes the fill bytes of
      the credential for the start of the arguments. */
  lemma CallWithNullVerifier(isStream: bool, mark: U32, h: Header, cred: Short, args: Bytes)
    requires h.credLength == |cred| && h.verfFlavor == 0 && h.verfLength == 0
    ensures DecCall(isStream, EncCall(isStream, mark, h, cred, []) + args) == Got(h, Zeros(Padding(|cred|)) + args)
  {
    CallReads(isStream, mark, h, cred, [], args);
    NullVerifierShifts(Padding(|cred|), args);
  }

  lemma FillShifts(p: Parsed<Header>, h: Header, n: nat, args: Bytes)
    requires p == Got(h, Zeros(Padding(n)) + args)
    ensures p == Got(h, args) <==> n % 4 == 0
  {
    assert |Zeros(Padding(n)) + args| == Padding(n) + |args|;
    if n % 4 == 0 { assert Zeros(0) + args == args; }
  }

  /** So the arguments are found exactly when the credential needs no fill bytes. */
  lemma ArgumentsAreFound(isStream: bool, mark: U32, h: Header, cred: Short, args: Bytes)
    requires h.credLength == |cred| && h.verfFlavor == 0 && h.verfLength == 0
    ensures DecCall(isStream, EncCall(isStream, mark, h, cred, []) + args) == Got(h, args) <==> |cred| % 4 == 0
  {
    CallWithNullVerifier(isStream, mark, h, cred, args);
    FillShifts(DecCall(isStream, EncCall(isStream, mark, h, cred, []) + args), h, |cred|, args);
  }

  lemma NullVerifier()
    ensures EncU32(0) == Zeros(4) && EncOpaque([]) == Zeros(4)
  {
    assert BigEndian(0, 1) == BigEndian(0, 0) + [0];
    assert BigEndian(0, 2) == [0, 0] && BigEndian(0, 3) == [0, 0, 0] && BigEndian(0, 4) == [0, 0, 0, 0];
  }

  lemma ZeroWord(rest: Bytes)
    ensures DecU32(Zeros(4) + rest) == Got(0, rest)
  {
    NullVerifier();
    U32RoundTrip(0, rest);
  }

  // ---------------------------------------------------------------- more input changes nothing

  lemma FixedStable(s: Bytes, t: Bytes)
    requires DecFixed(s).Got?
    ensures DecFixed(s + t) == Got(DecFixed(s).value, DecFixed(s).rest + t)
  {
    U32Stable(s, t);
    var r1 := DecU32(s).rest;
    U32Stable(r1, t);
    var r2 := DecU32(r1).rest;
    U32Stable(r2, t);
    var r3 := DecU32(r2).rest;
    U32Stable(r3, t);
    var r4 := DecU32(r3).rest;
    U32Stable(r4, t);
    U32Stable(DecU32(r4).rest, t);
  }

  lemma SkipStable(n: nat, s: Bytes, t: Bytes)
    requires n <= |s|
    ensures DecSkip(n, s + t) == Got((), s[n..] + t)
  {
  }

  lemma AuthStable(s: Bytes, t: Bytes)
    requires DecAuth(s).Got?
    ensures DecAuth(s + t) == Got(DecAuth(s).value, DecAuth(s).rest + t)
  {
    U32Stable(s, t);
    var r1 := DecU32(s).rest;
    U32Stable(r1, t);
    SkipStable(DecU32(r1).value, DecU32(r1).rest, t);
  }

  lemma CallStable(isStream: bool, s: Bytes, t: Bytes)
    requires DecCall(isStream, s).Got?
    ensures DecCall(isStream, s + t) == Got(DecCall(isStream, s).value, DecCall(isStream, s).rest + t)
  {
    if isStream { SkipStable(4, s, t); }
    var r0 := DecMark(isStream, s).rest;
    FixedStable(r0, t);
    var r1 := DecFixed(r0).rest;
    AuthStable(r1, t);
    AuthStable(DecAuth(r1).rest, t);
  }
}
