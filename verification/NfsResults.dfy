/** What the 22 procedures write for what Windows answered them, and how a client takes it: by the
    result types of section 3.3 of RFC 1813. The two fit exactly outside three cases. */
module NfsResults {
  import opened Nodes
  import opened Handles
  import opened Wire
  import opened Arguments
  import opened Results
  import opened Codecs
  import opened NfsCalls
  import opened Paging
  import opened Statuses
  import opened SocketStreams

  const MAXPATHLEN := 1024
  const MAXNAMELEN := 255

  /** Data short enough for the 32-bit cursor arithmetic of Write. */
  type Chunk = d: Short | |d| + MAXDATA < 0x1_0000_0000 witness []

  type Handle = h: Short | |h| == NFS3_FHSIZE witness Zeros(NFS3_FHSIZE)

  /** The names _findfirst and _findnext give: a directory that exists has an entry. */
  type Names = ns: seq<string> | ns != [] witness [""]

  /** What is said about one entry of a directory. */
  datatype About = About(name: Chunk, fileid: U64, attributes: Option<Fattr3>, handle: Option<Handle>)

  /** What CheckFile gives. */
  type Checked = n: U32 | n == NFS3_OK || n == NFS3ERR_NOENT || n == NFS3ERR_STALE witness NFS3_OK

  /** How a call of Windows or of the C library ended. */
  datatype Errno = NoError | ENOENT | EEXIST | EACCES | ENOTEMPTY | OtherErrno

  /** What the calls a procedure makes on Windows and on the file table give it. A procedure uses
      the answers to the calls it makes. */
  datatype Answer = Answer(
    known: bool, // GetFilePath, where the procedure tests it itself
    tooLong: bool, // GetFullPath gave NULL
    check: Checked, // CheckFile
    targetExists: bool, // FileExists of the target of a rename
    removal: Errno, // remove_entry of that target
    errno: Errno, // the operation itself
    present: bool, // CheckFile of the path after a failed operation
    attributes: Option<Fattr3>, // GetFileAttributesForNFS of the object
    directory: Option<Fattr3>, // and of the directory it is looked up in
    wcc: WccData, // and of the file or directory the call changes
    toWcc: WccData, // and of the second directory of a rename
    handle: Option<Handle>, // GetFileHandle
    count: U32, // fwrite
    data: Chunk, // fread, or the target of a link
    eof: bool,
    nullStream: bool, // COMMIT found a null stream
    callerFree: U64, total: U64, totalFree: U64, // GetDiskFreeSpaceEx, in the order of its results
    names: Names,
    about: string -> About)

  // ---------------------------------------------------------------- what is written

  /** For the procedures that call a lost file stale. */
  function Stale(check: Checked): U32 {
    if check == NFS3ERR_NOENT then NFS3ERR_STALE else check
  }

  function GetattrData(a: Answer): seq<Datum> {
    if Stale(a.check) != NFS3_OK then [Uint32(Stale(a.check))]
    else if a.attributes.None? then [Uint32(NFS3ERR_IO)]
    else [Uint32(NFS3_OK), Fattr(a.attributes.value)]
  }

  function SetattrData(a: Answer): seq<Datum> {
    if a.check != NFS3_OK then [Uint32(a.check), Wcc(a.wcc)]
    else if a.errno == NoError then [Uint32(NFS3_OK), Wcc(a.wcc)]
    else [Uint32(NFS3ERR_INVAL), Wcc(a.wcc)]
  }

  /** LOOKUP does not look at the outcome of GetFileHandle. */
  function LookupData(a: Answer): seq<Datum> {
    if a.tooLong then [Uint32(NFS3ERR_NAMETOOLONG), PostOpAttr(a.directory)]
    else if a.check != NFS3_OK then [Uint32(a.check), PostOpAttr(a.directory)]
    else [Uint32(a.check), Opaque(HandleOrZeros(a.handle)), PostOpAttr(a.attributes), PostOpAttr(a.directory)]
  }

  function HandleOrZeros(h: Option<Handle>): Handle {
    if h.Some? then h.value else Zeros(NFS3_FHSIZE)
  }

  function AccessData(access: U32, a: Answer): seq<Datum> {
    if Stale(a.check) != NFS3_OK then [Uint32(Stale(a.check)), PostOpAttr(a.attributes)]
    else [Uint32(NFS3_OK), PostOpAttr(a.attributes), Uint32(access)]
  }

  function ReadlinkData(a: Answer): seq<Datum> {
    if !a.known then [Uint32(NFS3ERR_STALE), PostOpAttr(a.attributes)]
    else if a.check != NFS3_OK then [Uint32(a.check), PostOpAttr(a.attributes)]
    else if a.errno != NoError then [Uint32(NFS3ERR_IO), PostOpAttr(a.attributes)]
    else [Uint32(a.check), PostOpAttr(a.attributes), Opaque(a.data)]
  }

  function AccessOrIo(errno: Errno): U32 {
    if errno == EACCES then NFS3ERR_ACCES else NFS3ERR_IO
  }

  function ReadData(a: Answer): seq<Datum> {
    if a.check != NFS3_OK then [Uint32(a.check), PostOpAttr(a.attributes)]
    else if a.errno != NoError then [Uint32(AccessOrIo(a.errno)), PostOpAttr(a.attributes)]
    else [Uint32(a.check), PostOpAttr(a.attributes), Uint32(|a.data|), Bool(a.eof), Opaque(a.data)]
  }

  /** The attributes before the call stand in front of those after it. */
  function Changed(w: WccData, after: Option<Fattr3>): Datum {
    Wcc(WccData(w.before, after))
  }

  function WriteData(stable: U32, a: Answer): seq<Datum> {
    if a.check != NFS3_OK then [Uint32(a.check), Wcc(a.wcc)]
    else if stable == UNSTABLE then
      if a.handle.None? then [Uint32(NFS3ERR_IO), Wcc(a.wcc)]
      else if a.errno != NoError then [Uint32(AccessOrIo(a.errno)), Wcc(a.wcc)]
      else [Uint32(a.check), Changed(a.wcc, None), Uint32(a.count), Uint32(UNSTABLE), Uint64(0)]
    else if a.errno != NoError then [Uint32(AccessOrIo(a.errno)), Wcc(a.wcc)]
    else [Uint32(NFS3_OK), Wcc(a.wcc), Uint32(a.count), Uint32(FILE_SYNC), Uint64(0)]
  }

  /** A new object: its handle, its attributes and its directory. */
  function Made(a: Answer): seq<Datum> {
    [Uint32(NFS3_OK), PostOpFh3(a.handle), PostOpAttr(a.attributes), Wcc(a.wcc)]
  }

  function CreateData(a: Answer): seq<Datum> {
    if a.tooLong then [Uint32(NFS3ERR_NAMETOOLONG), Changed(a.wcc, None)]
    else if a.errno == ENOENT then [Uint32(NFS3ERR_STALE), Wcc(a.wcc)]
    else if a.errno != NoError then [Uint32(AccessOrIo(a.errno)), Wcc(a.wcc)]
    else Made(a)
  }

  /** A failure that is none of the two expected ones, on a path that exists, is reported as a
      success. */
  function MkdirData(a: Answer): seq<Datum> {
    if a.tooLong then [Uint32(NFS3ERR_NAMETOOLONG), Changed(a.wcc, None)]
    else if a.errno == EEXIST then [Uint32(NFS3ERR_EXIST), Wcc(a.wcc)]
    else if a.errno == ENOENT then [Uint32(NFS3ERR_NOENT), Wcc(a.wcc)]
    else if a.errno != NoError then [Uint32(if a.present then NFS3_OK else NFS3ERR_IO), Wcc(a.wcc)]
    else Made(a)
  }

  function SymlinkData(a: Answer): seq<Datum> {
    if a.tooLong then [Uint32(NFS3ERR_NAMETOOLONG), Changed(a.wcc, None)]
    else if a.errno != NoError then [Uint32(if a.present then NFS3ERR_EXIST else NFS3ERR_IO), Wcc(a.wcc)]
    else Made(a)
  }

  /** REMOVE and RMDIR. */
  function Removal(errno: Errno): U32 {
    if errno == NoError then NFS3_OK else if errno == ENOTEMPTY then NFS3ERR_NOTEMPTY else NFS3ERR_IO
  }

  function RemoveData(a: Answer): seq<Datum> {
    if a.tooLong then [Uint32(NFS3ERR_NAMETOOLONG), Changed(a.wcc, None)]
    else if a.check != NFS3_OK then [Uint32(a.check), Wcc(a.wcc)]
    else [Uint32(Removal(a.errno)), Wcc(a.wcc)]
  }

  function RenameData(a: Answer): seq<Datum> {
    if a.tooLong then [Uint32(NFS3ERR_NAMETOOLONG), Wcc(WccData(None, None)), Wcc(WccData(None, None))]
    else if a.check != NFS3_OK then [Uint32(a.check), Wcc(a.wcc), Wcc(a.toWcc)]
    else if a.targetExists && a.removal != NoError then [Uint32(Removal(a.removal)), Wcc(a.wcc), Wcc(a.toWcc)]
    else if a.errno != NoError then [Uint32(AccessOrIo(a.errno)), Wcc(a.wcc), Wcc(a.toWcc)]
    else [Uint32(NFS3_OK), Wcc(a.wcc), Wcc(a.toWcc)]
  }

  function LinkData(a: Answer): seq<Datum> {
    if a.tooLong then [Uint32(NFS3ERR_NAMETOOLONG), PostOpAttr(None), Changed(a.wcc, None)]
    else if a.errno != NoError then
      [Uint32(if a.present then NFS3ERR_EXIST else NFS3ERR_IO), PostOpAttr(None), Wcc(a.wcc)]
    else if a.attributes.None? then [Uint32(NFS3ERR_IO), PostOpAttr(None), Wcc(a.wcc)]
    else [Uint32(NFS3_OK), PostOpAttr(a.attributes), Wcc(a.wcc)]
  }

  /** An entry of a listing, with what READDIRPLUS adds. */
  function EntryFields(plus: bool, e: Entry<About>): seq<Datum> {
    [Uint64(e.about.fileid), Opaque(e.about.name), Uint64(e.cookie)] +
    if plus then [PostOpAttr(e.about.attributes), PostOpFh3(e.about.handle)] else []
  }

  /** A true value announces it. */
  function EntryData(plus: bool, e: Entry<About>): seq<Datum> {
    [Bool(true)] + EntryFields(plus, e)
  }

  function EntriesData(plus: bool, es: seq<Entry<About>>): seq<Datum> {
    if es == [] then [] else EntryData(plus, es[0]) + EntriesData(plus, es[1..])
  }

  /** The status of a listing. */
  function ListStatus(a: Answer): U32 {
    if a.check == NFS3_OK && a.attributes.None? then NFS3ERR_IO else a.check
  }

  function ListHead(a: Answer): seq<Datum> {
    [Uint32(ListStatus(a)), PostOpAttr(a.attributes)]
  }

  /** What follows the verifier. */
  function ListTail(plus: bool, cookie: U64, a: Answer): seq<Datum> {
    var page := PageAt(a.names, a.about, cookie);
    EntriesData(plus, page.entries) + [Bool(false), Bool(page.eof)]
  }

  function ReaddirData(plus: bool, cookie: U64, verf: U64, a: Answer): seq<Datum> {
    if ListStatus(a) != NFS3_OK then ListHead(a) else ListHead(a) + [Uint64(verf)] + ListTail(plus, cookie, a)
  }

  function FsstatData(a: Answer): seq<Datum> {
    if a.check != NFS3_OK then [Uint32(a.check), PostOpAttr(None)]
    else if a.attributes.None? || a.errno != NoError then [Uint32(NFS3ERR_IO), PostOpAttr(a.attributes)]
    else
      [Uint32(a.check), PostOpAttr(a.attributes), Uint64(a.total), Uint64(a.callerFree), Uint64(a.totalFree),
       Uint64(0), Uint64(0), Uint64(0), Uint32(0)]
  }

  function FsinfoData(a: Answer): seq<Datum> {
    if a.check != NFS3_OK then [Uint32(a.check), PostOpAttr(None)]
    else if a.attributes.None? then [Uint32(NFS3ERR_SERVERFAULT), PostOpAttr(None)]
    else
      [Uint32(a.check), PostOpAttr(a.attributes), Uint32(65536), Uint32(32768), Uint32(4096), Uint32(65536),
       Uint32(32768), Uint32(4096), Uint32(8192), Uint64(0x7FFF_FFFF_FFFF_FFFF), Time(NfsTime3(1, 0)), Uint32(0x13)]
  }

  function PathconfData(a: Answer): seq<Datum> {
    if a.check != NFS3_OK then [Uint32(a.check), PostOpAttr(None)]
    else if a.attributes.None? then [Uint32(NFS3ERR_SERVERFAULT), PostOpAttr(None)]
    else
      [Uint32(a.check), PostOpAttr(a.attributes), Uint32(MAXPATHLEN - 1), Uint32(MAXNAMELEN), Bool(true), Bool(true),
       Bool(true), Bool(true)]
  }

  function CommitData(a: Answer): seq<Datum> {
    if a.nullStream then [Uint32(NFS3ERR_IO), Wcc(a.wcc), Uint64(0)] else [Uint32(NFS3_OK), Wcc(a.wcc), Uint64(0)]
  }

  function WordAt(args: seq<Field>, i: nat): U32 {
    if i < |args| && args[i].Word? then args[i].n else 0
  }

  function LongAt(args: seq<Field>, i: nat): U64 {
    if i < |args| && args[i].Long? then args[i].m else 0
  }

  /** The result of a procedure for its arguments and the answers it gets. */
  function ResultData(proc: U32, args: seq<Field>, a: Answer): seq<Datum> {
    if proc == GETATTR then GetattrData(a)
    else if proc == SETATTR then SetattrData(a)
    else if proc == LOOKUP then LookupData(a)
    else if proc == ACCESS then AccessData(WordAt(args, 1), a)
    else if proc == READLINK then ReadlinkData(a)
    else if proc == READ then ReadData(a)
    else if proc == WRITE then WriteData(WordAt(args, 3), a)
    else if proc == CREATE then CreateData(a)
    else if proc == MKDIR then MkdirData(a)
    else if proc == SYMLINK then SymlinkData(a)
    else if proc == REMOVE || proc == RMDIR then RemoveData(a)
    else if proc == RENAME then RenameData(a)
    else if proc == LINK then LinkData(a)
    else if proc == READDIR || proc == READDIRPLUS then ReaddirData(proc == READDIRPLUS, LongAt(args, 1), LongAt(args, 2), a)
    else if proc == FSSTAT then FsstatData(a)
    else if proc == FSINFO then FsinfoData(a)
    else if proc == PATHCONF then PathconfData(a)
    else if proc == COMMIT then CommitData(a)
    else [] // NULL and MKNOD
  }

  /** The entries of ResultData. */
  lemma ResultEntries(args: seq<Field>, a: Answer)
    ensures ResultData(GETATTR, args, a) == GetattrData(a) && ResultData(SETATTR, args, a) == SetattrData(a)
    ensures ResultData(LOOKUP, args, a) == LookupData(a) && ResultData(ACCESS, args, a) == AccessData(WordAt(args, 1), a)
    ensures ResultData(READLINK, args, a) == ReadlinkData(a) && ResultData(READ, args, a) == ReadData(a)
    ensures ResultData(WRITE, args, a) == WriteData(WordAt(args, 3), a) && ResultData(CREATE, args, a) == CreateData(a)
    ensures ResultData(MKDIR, args, a) == MkdirData(a) && ResultData(SYMLINK, args, a) == SymlinkData(a)
    ensures ResultData(REMOVE, args, a) == RemoveData(a) && ResultData(RMDIR, args, a) == RemoveData(a)
    ensures ResultData(RENAME, args, a) == RenameData(a) && ResultData(LINK, args, a) == LinkData(a)
    ensures ResultData(READDIR, args, a) == ReaddirData(false, LongAt(args, 1), LongAt(args, 2), a)
    ensures ResultData(READDIRPLUS, args, a) == ReaddirData(true, LongAt(args, 1), LongAt(args, 2), a)
    ensures ResultData(FSSTAT, args, a) == FsstatData(a) && ResultData(FSINFO, args, a) == FsinfoData(a)
    ensures ResultData(PATHCONF, args, a) == PathconfData(a) && ResultData(COMMIT, args, a) == CommitData(a)
  {
    hide GetattrData, SetattrData, LookupData, AccessData, ReadlinkData, ReadData, WriteData, CreateData, MkdirData, SymlinkData;
    hide RemoveData, RenameData, LinkData, ReaddirData, FsstatData, FsinfoData, PathconfData, CommitData, WordAt, LongAt;
  }

  // ---------------------------------------------------------------- how a client reads it

  /** The result types of RFC 1813 behind the status word, without the entries of a listing. */
  function Shape(proc: U32, stat: U32): seq<Kind> {
    if proc == GETATTR then if stat == NFS3_OK then [KFattr] else []
    else if proc == SETATTR || proc == REMOVE || proc == RMDIR then [KWcc]
    else if proc == RENAME then [KWcc, KWcc]
    else if proc == LINK then [KPostOpAttr, KWcc]
    else if proc == WRITE then if stat == NFS3_OK then [KWcc, KUint32, KUint32, KUint64] else [KWcc]
    else if proc == CREATE || proc == MKDIR || proc == SYMLINK || proc == MKNOD then
      if stat == NFS3_OK then [KPostOpFh3, KPostOpAttr, KWcc] else [KWcc]
    else if proc == COMMIT then if stat == NFS3_OK then [KWcc, KUint64] else [KWcc]
    else if stat != NFS3_OK then [KPostOpAttr]
    else if proc == LOOKUP then [KOpaque, KPostOpAttr, KPostOpAttr]
    else if proc == ACCESS then [KPostOpAttr, KUint32]
    else if proc == READLINK then [KPostOpAttr, KOpaque]
    else if proc == READ then [KPostOpAttr, KUint32, KBool, KOpaque]
    else if proc == FSSTAT then [KPostOpAttr, KUint64, KUint64, KUint64, KUint64, KUint64, KUint64, KUint32]
    else if proc == FSINFO then
      [KPostOpAttr, KUint32, KUint32, KUint32, KUint32, KUint32, KUint32, KUint32, KUint64, KTime, KUint32]
    else if proc == PATHCONF then [KPostOpAttr, KUint32, KUint32, KBool, KBool, KBool, KBool]
    else [KPostOpAttr, KUint64] // READDIR and READDIRPLUS
  }

  function EntryKinds(plus: bool): seq<Kind> {
    [KUint64, KOpaque, KUint64] + if plus then [KPostOpAttr, KPostOpFh3] else []
  }

  lemma {:induction false} DataShrink(ks: seq<Kind>, s: Bytes)
    ensures DecAll(DecDatum, ks, s).Got? ==> |DecAll(DecDatum, ks, s).rest| <= |s|
  {
    if ks != [] && DecDatum(ks[0], s).Got? {
      DataShrink(ks[1..], DecDatum(ks[0], s).rest);
    }
  }

  /** dirlist3 and dirlistplus3: entries as long as a true value stands in front, then eof. */
  function DecDirlist(plus: bool, s: Bytes): Parsed<seq<Datum>>
    decreases |s|
  {
    var (follows, r) :- DecBool(s);
    if !follows then
      var (eof, r) :- DecBool(r);
      Got([Bool(false), Bool(eof)], r)
    else
      DataShrink(EntryKinds(plus), r);
      var (entry, r) :- DecAll(DecDatum, EntryKinds(plus), r);
      var (tail, r) :- DecDirlist(plus, r);
      Got([Bool(true)] + entry + tail, r)
  }

  function DecBody(proc: U32, stat: U32, s: Bytes): Parsed<seq<Datum>> {
    var (head, r) :- DecAll(DecDatum, Shape(proc, stat), s);
    if (proc == READDIR || proc == READDIRPLUS) && stat == NFS3_OK then
      var (list, r) :- DecDirlist(proc == READDIRPLUS, r);
      Got(head + list, r)
    else Got(head, r)
  }

  /** The whole result; NULL has none. */
  function DecResult(proc: U32, s: Bytes): Parsed<seq<Datum>> {
    if proc == NULL then Got([], s)
    else
      var (stat, r) :- DecU32(s);
      var (body, r) :- DecBody(proc, stat, r);
      Got([Uint32(stat)] + body, r)
  }

  // ---------------------------------------------------------------- the two fit

  /** MKDIR failed for an unexpected reason where the path exists. */
  predicate MkdirDenied(a: Answer) {
    !a.tooLong && a.present && a.errno != NoError && a.errno != EEXIST && a.errno != ENOENT
  }

  /** The cases in which what is written has the type of RFC 1813. */
  predicate Proper(proc: U32, a: Answer) {
    && proc != MKNOD
    && !(proc == MKDIR && MkdirDenied(a))
    && !(proc == COMMIT && a.nullStream)
  }

  /** A status word followed by values of the kinds its result type lists. */
  predicate Shaped(proc: U32, xs: seq<Datum>) {
    |xs| >= 1 && xs[0].Uint32? && Kinds(xs[1..]) == Shape(proc, xs[0].n)
  }

  predicate Listing(proc: U32) {
    proc == READDIR || proc == READDIRPLUS
  }

  /** What is read has the kinds that were asked for, and took as many bytes as it is encoded in. */
  lemma {:induction false} DataRead(ks: seq<Kind>, s: Bytes)
    ensures DecAll(DecDatum, ks, s).Got? ==>
              var xs := DecAll(DecDatum, ks, s).value;
              Kinds(xs) == ks && |s| == |EncAll(EncDatum, xs)| + |DecAll(DecDatum, ks, s).rest|
  {
    hide DecDatum, EncDatum;
    if ks != [] && DecDatum(ks[0], s).Got? {
      DatumRead(ks[0], s);
      var x, r := DecDatum(ks[0], s).value, DecDatum(ks[0], s).rest;
      DataRead(ks[1..], r);
      if DecAll(DecDatum, ks[1..], r).Got? {
        FirstKind(x, DecAll(DecDatum, ks[1..], r).value);
        FirstDatum(x, DecAll(DecDatum, ks[1..], r).value);
        assert ks == [ks[0]] + ks[1..];
      }
    }
  }

  lemma FirstDatum(x: Datum, xs: seq<Datum>)
    ensures EncAll(EncDatum, [x] + xs) == EncDatum(x) + EncAll(EncDatum, xs)
  {
    assert ([x] + xs)[1..] == xs;
  }

  lemma FirstKind(x: Datum, xs: seq<Datum>)
    ensures Kinds([x] + xs) == [KindOf(x)] + Kinds(xs)
  {
  }

  lemma FirstWord(n: U32, xs: seq<Datum>, rest: Bytes)
    ensures DecU32(EncAll(EncDatum, [Uint32(n)] + xs) + rest) == Got(n, EncAll(EncDatum, xs) + rest)
  {
    assert ([Uint32(n)] + xs)[1..] == xs;
    Assoc(EncU32(n), EncAll(EncDatum, xs), rest);
    U32RoundTrip(n, EncAll(EncDatum, xs) + rest);
  }

  /** Outside of complete listings a client reads back what was written exactly when it has the
      kinds of the result type. */
  lemma ShapedExactly(proc: U32, xs: seq<Datum>)
    requires proc != NULL && (Listing(proc) ==> xs != [] && xs[0].Uint32? && xs[0].n != NFS3_OK)
    ensures DecResult(proc, EncAll(EncDatum, xs)) == Got(xs, []) <==> Shaped(proc, xs)
  {
    var s := EncAll(EncDatum, xs);
    if Shaped(proc, xs) {
      assert xs == [xs[0]] + xs[1..];
      FirstWord(xs[0].n, xs[1..], []);
      assert s + [] == s && EncAll(EncDatum, xs[1..]) + [] == EncAll(EncDatum, xs[1..]);
      DataRoundTrip(xs[1..], []);
    }
    if DecU32(s).Got? {
      DataRead(Shape(proc, DecU32(s).value), DecU32(s).rest);
      if DecResult(proc, s) == Got(xs, []) {
        assert xs[1..] == DecBody(proc, DecU32(s).value, DecU32(s).rest).value;
      }
    }
  }

  // ---------------------------------------------------------------- the result of each procedure

  lemma ReadIsShaped(proc: U32, args: seq<Field>, a: Answer)
    requires proc == GETATTR || proc == LOOKUP || proc == ACCESS || proc == READLINK || proc == READ
    ensures Shaped(proc, ResultData(proc, args, a))
  {
    hide HandleOrZeros;
  }

  lemma SystemIsShaped(proc: U32, args: seq<Field>, a: Answer)
    requires proc == FSSTAT || proc == FSINFO || proc == PATHCONF
    ensures Shaped(proc, ResultData(proc, args, a))
  {
  }

  lemma ChangeIsShaped(proc: U32, args: seq<Field>, a: Answer)
    requires proc == SETATTR || proc == WRITE || proc == REMOVE || proc == RMDIR || proc == RENAME || proc == COMMIT
    ensures Shaped(proc, ResultData(proc, args, a)) <==> Proper(proc, a)
  {
  }

  lemma NewIsShaped(proc: U32, args: seq<Field>, a: Answer)
    requires proc == CREATE || proc == MKDIR || proc == SYMLINK || proc == LINK
    ensures Shaped(proc, ResultData(proc, args, a)) <==> Proper(proc, a)
  {
  }

  // ---------------------------------------------------------------- listings

  lemma EntryReads(plus: bool, e: Entry<About>, rest: Bytes)
    ensures DecAll(DecDatum, EntryKinds(plus), EncAll(EncDatum, EntryFields(plus, e)) + rest) ==
            Got(EntryFields(plus, e), rest)
  {
    assert Kinds(EntryFields(plus, e)) == EntryKinds(plus);
    DataRoundTrip(EntryFields(plus, e), rest);
  }

  lemma TwoData(x: Datum, y: Datum)
    ensures EncAll(EncDatum, [x, y]) == EncDatum(x) + EncDatum(y)
  {
    assert [x, y][1..] == [y] && [y][1..] == [];
    assert EncAll(EncDatum, [y]) == EncDatum(y) + EncAll(EncDatum, []);
  }

  lemma ListEnds(plus: bool, eof: bool, rest: Bytes)
    ensures DecDirlist(plus, EncAll(EncDatum, [Bool(false), Bool(eof)]) + rest) == Got([Bool(false), Bool(eof)], rest)
  {
    TwoData(Bool(false), Bool(eof));
    Assoc(EncBool(false), EncBool(eof), rest);
    BoolRoundTrip(false, EncBool(eof) + rest);
    BoolRoundTrip(eof, rest);
  }

  lemma ListGoesOn(plus: bool, e: Bytes, q: Bytes, entry: seq<Datum>, tail: seq<Datum>, rest: Bytes)
    requires DecAll(DecDatum, EntryKinds(plus), e + q) == Got(entry, q) && DecDirlist(plus, q) == Got(tail, rest)
    ensures DecDirlist(plus, EncBool(true) + (e + q)) == Got([Bool(true)] + entry + tail, rest)
  {
    BoolRoundTrip(true, e + q);
    DataShrink(EntryKinds(plus), e + q);
  }

  lemma FirstFlag(y: seq<Datum>, tail: seq<Datum>, rest: Bytes)
    ensures EncAll(EncDatum, [Bool(true)] + y + tail) + rest ==
            EncBool(true) + (EncAll(EncDatum, y) + (EncAll(EncDatum, tail) + rest))
  {
    var e, t := EncAll(EncDatum, y), EncAll(EncDatum, tail);
    assert [Bool(true)] + y + tail == [Bool(true)] + (y + tail);
    assert ([Bool(true)] + (y + tail))[1..] == y + tail;
    AllConcat(EncDatum, y, tail);
    Assoc(EncBool(true), e + t, rest);
    Assoc(e, t, rest);
  }

  lemma OneMoreEntry(plus: bool, entry: seq<Datum>, tail: seq<Datum>, rest: Bytes)
    requires var q := EncAll(EncDatum, tail) + rest;
             && DecAll(DecDatum, EntryKinds(plus), EncAll(EncDatum, entry) + q) == Got(entry, q)
             && DecDirlist(plus, q) == Got(tail, rest)
    ensures var xs := [Bool(true)] + entry + tail;
            DecDirlist(plus, EncAll(EncDatum, xs) + rest) == Got(xs, rest)
  {
    ListGoesOn(plus, EncAll(EncDatum, entry), EncAll(EncDatum, tail) + rest, entry, tail, rest);
    FirstFlag(entry, tail, rest);
  }

  lemma EntriesInFront(plus: bool, es: seq<Entry<About>>, end: seq<Datum>)
    requires es != []
    ensures EntriesData(plus, es) + end == [Bool(true)] + EntryFields(plus, es[0]) + (EntriesData(plus, es[1..]) + end)
  {
  }

  /** A client finds the end of the entries by itself. */
  lemma {:induction false} DirlistReads(plus: bool, es: seq<Entry<About>>, eof: bool, rest: Bytes)
    ensures var xs := EntriesData(plus, es) + [Bool(false), Bool(eof)];
            DecDirlist(plus, EncAll(EncDatum, xs) + rest) == Got(xs, rest)
  {
    var end := [Bool(false), Bool(eof)];
    if es == [] {
      assert EntriesData(plus, es) + end == end;
      ListEnds(plus, eof, rest);
    } else {
      var tail := EntriesData(plus, es[1..]) + end;
      DirlistReads(plus, es[1..], eof, rest);
      var entry := EntryFields(plus, es[0]);
      EntryReads(plus, es[0], EncAll(EncDatum, tail) + rest);
      OneMoreEntry(plus, entry, tail, rest);
      EntriesInFront(plus, es, end);
    }
  }

  lemma ListBodyReads(proc: U32, head: seq<Datum>, list: seq<Datum>)
    requires Listing(proc) && Kinds(head) == Shape(proc, NFS3_OK)
    requires DecDirlist(proc == READDIRPLUS, EncAll(EncDatum, list)) == Got(list, [])
    ensures DecBody(proc, NFS3_OK, EncAll(EncDatum, head + list)) == Got(head + list, [])
  {
    AllConcat(EncDatum, head, list);
    DataRoundTrip(head, EncAll(EncDatum, list));
  }

  lemma ResultReads(proc: U32, stat: U32, body: seq<Datum>)
    requires proc != NULL && DecBody(proc, stat, EncAll(EncDatum, body)) == Got(body, [])
    ensures DecResult(proc, EncAll(EncDatum, [Uint32(stat)] + body)) == Got([Uint32(stat)] + body, [])
  {
    FirstWord(stat, body, []);
    var e, f := EncAll(EncDatum, [Uint32(stat)] + body), EncAll(EncDatum, body);
    assert e + [] == e && f + [] == f;
  }

  lemma CompleteListReads(proc: U32, head: seq<Datum>, list: seq<Datum>)
    requires Listing(proc) && Kinds(head) == Shape(proc, NFS3_OK)
    requires DecDirlist(proc == READDIRPLUS, EncAll(EncDatum, list)) == Got(list, [])
    ensures var xs := [Uint32(NFS3_OK)] + (head + list); DecResult(proc, EncAll(EncDatum, xs)) == Got(xs, [])
  {
    ListBodyReads(proc, head, list);
    ResultReads(proc, NFS3_OK, head + list);
  }

  lemma RefusedListReads(proc: U32, a: Answer)
    requires Listing(proc) && ListStatus(a) != NFS3_OK
    ensures DecResult(proc, EncAll(EncDatum, ListHead(a))) == Got(ListHead(a), [])
  {
    ShapedExactly(proc, ListHead(a));
  }

  lemma TailReads(plus: bool, cookie: U64, a: Answer)
    ensures DecDirlist(plus, EncAll(EncDatum, ListTail(plus, cookie, a))) == Got(ListTail(plus, cookie, a), [])
  {
    var page := PageAt(a.names, a.about, cookie);
    DirlistReads(plus, page.entries, page.eof, []);
    var e := EncAll(EncDatum, ListTail(plus, cookie, a));
    assert e + [] == e;
  }

  lemma ListParts(x: Datum, y: Datum, z: Datum, tail: seq<Datum>)
    ensures [x, y] + [z] + tail == [x] + ([y, z] + tail)
  {
  }

  lemma AcceptedListReads(proc: U32, head: seq<Datum>, cookie: U64, a: Answer)
    requires Listing(proc) && Kinds(head) == Shape(proc, NFS3_OK)
    ensures var xs := [Uint32(NFS3_OK)] + (head + ListTail(proc == READDIRPLUS, cookie, a));
            DecResult(proc, EncAll(EncDatum, xs)) == Got(xs, [])
  {
    TailReads(proc == READDIRPLUS, cookie, a);
    CompleteListReads(proc, head, ListTail(proc == READDIRPLUS, cookie, a));
  }

  /** A listing, complete or refused, reads back. */
  lemma ReaddirReads(proc: U32, cookie: U64, verf: U64, a: Answer)
    requires Listing(proc)
    ensures var xs := ReaddirData(proc == READDIRPLUS, cookie, verf, a); DecResult(proc, EncAll(EncDatum, xs)) == Got(xs, [])
  {
    if ListStatus(a) != NFS3_OK {
      RefusedListReads(proc, a);
    } else {
      AcceptedListReads(proc, [PostOpAttr(a.attributes), Uint64(verf)], cookie, a);
      ListParts(Uint32(NFS3_OK), PostOpAttr(a.attributes), Uint64(verf), ListTail(proc == READDIRPLUS, cookie, a));
    }
  }

  /** A list that was read took as many bytes as its values are encoded in. */
  lemma {:induction false} DirlistSize(plus: bool, s: Bytes)
    ensures DecDirlist(plus, s).Got? ==> |s| == |EncAll(EncDatum, DecDirlist(plus, s).value)| + |DecDirlist(plus, s).rest|
    decreases |s|
  {
    hide DecDatum;
    if DecDirlist(plus, s).Got? {
      var (follows, r) := DecBool(s).Extract();
      if follows {
        DataShrink(EntryKinds(plus), r);
        DataRead(EntryKinds(plus), r);
        var (entry, q) := DecAll(DecDatum, EntryKinds(plus), r).Extract();
        DirlistSize(plus, q);
        var tail := DecDirlist(plus, q).value;
        EncodedInThree(Bool(true), entry, tail);
      } else {
        TwoData(Bool(false), Bool(DecBool(r).value));
      }
    }
  }

  lemma EncodedInThree(x: Datum, y: seq<Datum>, z: seq<Datum>)
    ensures |EncAll(EncDatum, [x] + y + z)| == |EncDatum(x)| + |EncAll(EncDatum, y)| + |EncAll(EncDatum, z)|
  {
    assert [x] + y + z == [x] + (y + z);
    FirstDatum(x, y + z);
    AllConcat(EncDatum, y, z);
  }

  lemma WordSize(n: U32)
    ensures |EncDatum(Uint32(n))| == 4 && EncAll(EncDatum, []) == []
  {
  }

  /** Whatever a client reads as a result took as many bytes as it is encoded in, so a result that was
      cut off is never read as the whole. */
  lemma ResultSize(proc: U32, s: Bytes)
    requires proc != NULL && DecResult(proc, s).Got?
    ensures |s| == |EncAll(EncDatum, DecResult(proc, s).value)| + |DecResult(proc, s).rest|
  {
    hide DecDatum, EncDatum, EncAll, DecAll, DecDirlist, Shape, Kinds;
    var (stat, r) := DecU32(s).Extract();
    DataRead(Shape(proc, stat), r);
    var (head, q) := DecAll(DecDatum, Shape(proc, stat), r).Extract();
    WordSize(stat);
    EncodedInThree(Uint32(stat), head, []);
    assert [Uint32(stat)] + head + [] == [Uint32(stat)] + head;
    if Listing(proc) && stat == NFS3_OK {
      DirlistSize(proc == READDIRPLUS, q);
      var list := DecDirlist(proc == READDIRPLUS, q).value;
      EncodedInThree(Uint32(stat), head, list);
      assert [Uint32(stat)] + (head + list) == [Uint32(stat)] + head + list;
    }
  }

  // ---------------------------------------------------------------- sizes

  /** Room for a value that is no opaque. */
  const PLAIN := 128

  lemma {:induction false} DataBound(xs: seq<Datum>)
    requires forall i :: 0 <= i < |xs| ==> |EncDatum(xs[i])| <= PLAIN
    ensures |EncAll(EncDatum, xs)| <= PLAIN * |xs|
  {
    hide EncDatum;
    if xs != [] { DataBound(xs[1..]); }
  }

  lemma DatumBound(x: Datum)
    requires x.Opaque? ==> |x.d| <= NFS3_FHSIZE
    requires x.PostOpFh3? && x.h.Some? ==> |x.h.value| <= NFS3_FHSIZE
    ensures |EncDatum(x)| <= PLAIN
  {
  }

  lemma OpaqueBound(d: Short)
    ensures |EncDatum(Opaque(d))| <= |d| + 8
  {
  }

  // ---------------------------------------------------------------- all procedures

  lemma ResultIsShaped(proc: U32, args: seq<Field>, a: Answer)
    requires proc < PROCEDURES && !Listing(proc) && proc != NULL
    ensures Shaped(proc, ResultData(proc, args, a)) <==> Proper(proc, a)
  {
    if proc == GETATTR || proc == LOOKUP || proc == ACCESS || proc == READLINK || proc == READ {
      ReadIsShaped(proc, args, a);
    } else if proc == FSSTAT || proc == FSINFO || proc == PATHCONF {
      SystemIsShaped(proc, args, a);
    } else if proc == CREATE || proc == MKDIR || proc == SYMLINK || proc == LINK {
      NewIsShaped(proc, args, a);
    } else if proc != MKNOD {
      ChangeIsShaped(proc, args, a);
    }
  }

  /** A client that reads the result by the types of RFC 1813 gets back the very values the
      procedure wrote, to the last byte, except from MKNOD, from a MKDIR that failed for an unexpected
      reason on a path that exists, and from a COMMIT that met a null stream. */
  lemma ResultReadsExactly(proc: U32, args: seq<Field>, a: Answer)
    requires proc < PROCEDURES
    ensures var xs := ResultData(proc, args, a);
            DecResult(proc, EncAll(EncDatum, xs)) == Got(xs, []) <==> Proper(proc, a)
  {
    hide DecBody, EncDatum, Shape, Kinds;
    if Listing(proc) {
      ReaddirReads(proc, LongAt(args, 1), LongAt(args, 2), a);
    } else if proc != NULL {
      ResultIsShaped(proc, args, a);
      ShapedExactly(proc, ResultData(proc, args, a));
    }
  }

  /** The same for a result that has to fit: a cut one is not read as what was written. */
  lemma CutResultReadsExactly(proc: U32, args: seq<Field>, a: Answer, room: nat)
    requires proc < PROCEDURES
    ensures var xs := ResultData(proc, args, a);
            DecResult(proc, Fit(EncAll(EncDatum, xs), room)) == Got(xs, []) <==> Proper(proc, a) && |EncAll(EncDatum, xs)| <= room
  {
    var xs := ResultData(proc, args, a);
    var s := EncAll(EncDatum, xs);
    ResultReadsExactly(proc, args, a);
    if |s| > room && proc != NULL && DecResult(proc, Fit(s, room)).Got? { ResultSize(proc, Fit(s, room)); }
  }
}
