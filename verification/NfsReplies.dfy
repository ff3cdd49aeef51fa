/** What the reply to each procedure tells its client, as values decoded by the result types of section 3.3
    of RFC 1813: which status stands for which outcome, and which answer of Windows stands at which place. */
module NfsReplies {
  import opened Nodes
  import opened Handles
  import opened Wire
  import opened Arguments
  import opened Results
  import opened SocketStreams
  import opened Statuses
  import opened NfsCalls
  import opened NfsResults
  import opened Rpc
  import opened NfsPrograms

  /** What a client takes out of the result a procedure writes. */
  function Told(proc: U32, args: seq<Field>, a: Answer): seq<Datum> {
    match DecResult(proc, EncAll(EncDatum, ResultData(proc, args, a)))
    case Got(values, _) => values
    case Fail => []
  }

  /** A proper result that fits is read back in the reply, to its last byte. */
  lemma ReplyTells<S>(t: Table<S>, state: S, h: Header, xs: seq<Field>, rest: Bytes, host: Host<S>)
    requires Serves(t, h, host) && !Unknown(h.vers, h.proc) && ArgsOk(h.proc, xs) && h.verfLength == 0
    requires var a := host(state, h.proc, xs).0;
             Proper(h.proc, a) && |EncAll(EncDatum, ResultData(h.proc, xs, a))| <= Room(true)
    ensures var a := host(state, h.proc, xs).0;
            exists body ::
              && Framed(Reply(t, state, true, h, EncArgs(xs) + rest, Room(true)), h, SUCCESS, body)
              && DecResult(h.proc, body) == Got(Told(h.proc, xs, a), [])
  {
    hide Reply, Framed, Serves, EncArgs, EncAll, EncDatum, ResultData, DecResult, Proper;
    var a := host(state, h.proc, xs).0;
    ClientGetsResult(t, state, h, xs, rest, host);
    ResultReadsExactly(h.proc, xs, a);
    var body := Fit(EncAll(EncDatum, ResultData(h.proc, xs, a)), Room(true));
    assert Framed(Reply(t, state, true, h, EncArgs(xs) + rest, Room(true)), h, SUCCESS, body);
  }

  lemma ToldIsWritten(proc: U32, args: seq<Field>, a: Answer)
    requires proc < PROCEDURES && Proper(proc, a)
    ensures Told(proc, args, a) == ResultData(proc, args, a)
  {
    hide ResultData, DecResult, Proper, EncAll;
    ResultReadsExactly(proc, args, a);
  }

  // ---------------------------------------------------------------- procedures that change something

  /** A RENAME is told to have worked exactly when both paths fit, the source passed CheckFile, an existing
      target was removed and the move succeeded. Source directory first. */
  lemma RenameTells(args: seq<Field>, a: Answer)
    ensures var values, valid := Told(RENAME, args, a), !a.tooLong && a.check == NFS3_OK;
            var free := valid && (a.targetExists ==> a.removal == NoError);
            && |values| == 3
            && (values[0] == Uint32(NFS3ERR_NAMETOOLONG) <==> a.tooLong)
            && (values[0] == Uint32(NFS3ERR_STALE) <==> !a.tooLong && a.check == NFS3ERR_STALE)
            && (values[0] == Uint32(NFS3ERR_NOENT) <==> !a.tooLong && a.check == NFS3ERR_NOENT)
            && (values[0] == Uint32(NFS3ERR_NOTEMPTY) <==> valid && a.targetExists && a.removal == ENOTEMPTY)
            && (values[0] == Uint32(NFS3ERR_ACCES) <==> free && a.errno == EACCES)
            && (values[0] == Uint32(NFS3ERR_IO) <==>
                  || (valid && a.targetExists && a.removal != NoError && a.removal != ENOTEMPTY)
                  || (free && a.errno != NoError && a.errno != EACCES))
            && (values[0] == Uint32(NFS3_OK) <==> free && a.errno == NoError)
            && (a.tooLong ==> values[1] == values[2] == Wcc(WccData(None, None)))
            && (!a.tooLong ==> values[1] == Wcc(a.wcc) && values[2] == Wcc(a.toWcc))
  {
    hide Told, DecResult, EncAll, EncDatum;
    ToldIsWritten(RENAME, args, a);
    assert ResultData(RENAME, args, a) == RenameData(a) by { ResultEntries(args, a); }
  }

  /** REMOVE and RMDIR. */
  lemma RemoveTells(proc: U32, args: seq<Field>, a: Answer)
    requires proc == REMOVE || proc == RMDIR
    ensures var values, valid := Told(proc, args, a), !a.tooLong && a.check == NFS3_OK;
            && |values| == 2
            && (values[0] == Uint32(NFS3ERR_NAMETOOLONG) <==> a.tooLong)
            && (values[0] == Uint32(NFS3ERR_STALE) <==> !a.tooLong && a.check == NFS3ERR_STALE)
            && (values[0] == Uint32(NFS3ERR_NOENT) <==> !a.tooLong && a.check == NFS3ERR_NOENT)
            && (values[0] == Uint32(NFS3ERR_NOTEMPTY) <==> valid && a.errno == ENOTEMPTY)
            && (values[0] == Uint32(NFS3ERR_IO) <==> valid && a.errno != NoError && a.errno != ENOTEMPTY)
            && (values[0] == Uint32(NFS3_OK) <==> valid && a.errno == NoError)
            && values[1] == Wcc(WccData(a.wcc.before, if a.tooLong then None else a.wcc.after))
  {
    hide Told, DecResult, EncAll, EncDatum;
    ToldIsWritten(proc, args, a);
    assert ResultData(proc, args, a) == RemoveData(a) by { ResultEntries(args, a); }
  }

  lemma SetattrTells(args: seq<Field>, a: Answer)
    ensures var values := Told(SETATTR, args, a);
            && |values| == 2 && values[1] == Wcc(a.wcc)
            && (values[0] == Uint32(NFS3ERR_STALE) <==> a.check == NFS3ERR_STALE)
            && (values[0] == Uint32(NFS3ERR_NOENT) <==> a.check == NFS3ERR_NOENT)
            && (values[0] == Uint32(NFS3ERR_INVAL) <==> a.check == NFS3_OK && a.errno != NoError)
            && (values[0] == Uint32(NFS3_OK) <==> a.check == NFS3_OK && a.errno == NoError)
  {
    hide Told, DecResult, EncAll, EncDatum;
    ToldIsWritten(SETATTR, args, a);
    assert ResultData(SETATTR, args, a) == SetattrData(a) by { ResultEntries(args, a); }
  }

  /** A directory that is missing is called stale. */
  lemma CreateTells(args: seq<Field>, a: Answer)
    ensures var values := Told(CREATE, args, a);
            && values != []
            && (values[0] == Uint32(NFS3ERR_NAMETOOLONG) <==> a.tooLong)
            && (values[0] == Uint32(NFS3ERR_STALE) <==> !a.tooLong && a.errno == ENOENT)
            && (values[0] == Uint32(NFS3ERR_ACCES) <==> !a.tooLong && a.errno == EACCES)
            && (values[0] == Uint32(NFS3ERR_IO) <==> !a.tooLong && a.errno !in {NoError, ENOENT, EACCES})
            && (values[0] == Uint32(NFS3_OK) <==> !a.tooLong && a.errno == NoError)
            && TellsNew(values, a)
  {
    hide Told, DecResult, EncAll, EncDatum;
    ToldIsWritten(CREATE, args, a);
    assert ResultData(CREATE, args, a) == CreateData(a) by { ResultEntries(args, a); }
  }

  /** The new object's handle and attributes, and its directory; the directory alone when there is none. */
  predicate TellsNew(values: seq<Datum>, a: Answer)
    requires values != []
  {
    if values[0] == Uint32(NFS3_OK) then
      && |values| == 4
      && values[1] == PostOpFh3(a.handle) && values[2] == PostOpAttr(a.attributes) && values[3] == Wcc(a.wcc)
    else |values| == 2 && values[1] == Wcc(WccData(a.wcc.before, if a.tooLong then None else a.wcc.after))
  }

  lemma MkdirTells(args: seq<Field>, a: Answer)
    requires !MkdirDenied(a)
    ensures var values := Told(MKDIR, args, a);
            && values != []
            && (values[0] == Uint32(NFS3ERR_NAMETOOLONG) <==> a.tooLong)
            && (values[0] == Uint32(NFS3ERR_EXIST) <==> !a.tooLong && a.errno == EEXIST)
            && (values[0] == Uint32(NFS3ERR_NOENT) <==> !a.tooLong && a.errno == ENOENT)
            && (values[0] == Uint32(NFS3ERR_IO) <==> !a.tooLong && a.errno !in {NoError, EEXIST, ENOENT})
            && (values[0] == Uint32(NFS3_OK) <==> !a.tooLong && a.errno == NoError)
            && TellsNew(values, a)
  {
    hide Told, DecResult, EncAll, EncDatum;
    ToldIsWritten(MKDIR, args, a);
    assert ResultData(MKDIR, args, a) == MkdirData(a) by { ResultEntries(args, a); }
  }

  /** The status word of a MKDIR says more: that the directory was made, or that something unexpected
      happened on a path that exists. */
  lemma MkdirStatus(args: seq<Field>, a: Answer)
    ensures var status := DecU32(EncAll(EncDatum, ResultData(MKDIR, args, a)));
            status.Got? && (status.value == NFS3_OK <==> !a.tooLong && (a.errno == NoError || MkdirDenied(a)))
  {
    hide EncAll, EncDatum, DecU32;
    var xs := MkdirData(a);
    ResultEntries(args, a);
    assert xs == [xs[0]] + xs[1..];
    var s := EncAll(EncDatum, xs);
    assert s + [] == s;
    FirstWord(xs[0].n, xs[1..], []);
  }

  lemma SymlinkTells(args: seq<Field>, a: Answer)
    ensures var values := Told(SYMLINK, args, a);
            && values != []
            && (values[0] == Uint32(NFS3ERR_NAMETOOLONG) <==> a.tooLong)
            && (values[0] == Uint32(NFS3ERR_EXIST) <==> !a.tooLong && a.errno != NoError && a.present)
            && (values[0] == Uint32(NFS3ERR_IO) <==> !a.tooLong && a.errno != NoError && !a.present)
            && (values[0] == Uint32(NFS3_OK) <==> !a.tooLong && a.errno == NoError)
            && TellsNew(values, a)
  {
    hide Told, DecResult, EncAll, EncDatum;
    ToldIsWritten(SYMLINK, args, a);
    assert ResultData(SYMLINK, args, a) == SymlinkData(a) by { ResultEntries(args, a); }
  }

  /** A link that was made but has no attributes is told to have failed. */
  lemma LinkTells(args: seq<Field>, a: Answer)
    ensures var values := Told(LINK, args, a);
            && |values| == 3
            && (values[0] == Uint32(NFS3ERR_NAMETOOLONG) <==> a.tooLong)
            && (values[0] == Uint32(NFS3ERR_EXIST) <==> !a.tooLong && a.errno != NoError && a.present)
            && (values[0] == Uint32(NFS3ERR_IO) <==>
                  !a.tooLong && if a.errno == NoError then a.attributes == None else !a.present)
            && (values[0] == Uint32(NFS3_OK) <==> !a.tooLong && a.errno == NoError && a.attributes != None)
            && values[1] == PostOpAttr(if values[0] == Uint32(NFS3_OK) then a.attributes else None)
            && values[2] == Wcc(WccData(a.wcc.before, if a.tooLong then None else a.wcc.after))
  {
    hide Told, DecResult, EncAll, EncDatum;
    ToldIsWritten(LINK, args, a);
    assert ResultData(LINK, args, a) == LinkData(a) by { ResultEntries(args, a); }
  }

  /** Behind an unstable write the attributes are not told. */
  lemma WriteTells(args: seq<Field>, a: Answer)
    requires |args| == 5 && args[3].Word?
    ensures var values, unstable := Told(WRITE, args, a), args[3].n == UNSTABLE;
            var handled := a.check == NFS3_OK && (unstable ==> a.handle != None);
            && values != []
            && (values[0] == Uint32(NFS3ERR_STALE) <==> a.check == NFS3ERR_STALE)
            && (values[0] == Uint32(NFS3ERR_NOENT) <==> a.check == NFS3ERR_NOENT)
            && (values[0] == Uint32(NFS3ERR_ACCES) <==> handled && a.errno == EACCES)
            && (values[0] == Uint32(NFS3ERR_IO) <==>
                  a.check == NFS3_OK && ((unstable && a.handle == None) || (a.errno != NoError && a.errno != EACCES)))
            && (values[0] == Uint32(NFS3_OK) <==> handled && a.errno == NoError)
            && if values[0] == Uint32(NFS3_OK) then
                 && |values| == 5 && values[1] == Wcc(WccData(a.wcc.before, if unstable then None else a.wcc.after))
                 && values[2] == Uint32(a.count) && values[3] == Uint32(if unstable then UNSTABLE else FILE_SYNC)
                 && values[4] == Uint64(0)
               else |values| == 2 && values[1] == Wcc(a.wcc)
  {
    hide Told, DecResult, EncAll, EncDatum;
    ToldIsWritten(WRITE, args, a);
    assert ResultData(WRITE, args, a) == WriteData(args[3].n, a) by { ResultEntries(args, a); }
  }

  lemma CommitTells(args: seq<Field>, a: Answer)
    requires !a.nullStream
    ensures Told(COMMIT, args, a) == [Uint32(NFS3_OK), Wcc(a.wcc), Uint64(0)]
  {
    hide Told, DecResult, EncAll, EncDatum;
    ToldIsWritten(COMMIT, args, a);
    assert ResultData(COMMIT, args, a) == CommitData(a) by { ResultEntries(args, a); }
  }

  // ---------------------------------------------------------------- procedures that only look

  /** Whatever is not there is stale to GETATTR and ACCESS. */
  lemma GetattrTells(args: seq<Field>, a: Answer)
    ensures var values := Told(GETATTR, args, a);
            && values != []
            && (values[0] == Uint32(NFS3ERR_STALE) <==> a.check != NFS3_OK)
            && (values[0] == Uint32(NFS3ERR_IO) <==> a.check == NFS3_OK && a.attributes == None)
            && (values[0] == Uint32(NFS3_OK) <==> a.check == NFS3_OK && a.attributes != None)
            && if values[0] == Uint32(NFS3_OK) then |values| == 2 && values[1].Fattr? && a.attributes == Some(values[1].a)
               else |values| == 1
  {
    hide Told, DecResult, EncAll, EncDatum;
    ToldIsWritten(GETATTR, args, a);
    assert ResultData(GETATTR, args, a) == GetattrData(a) by { ResultEntries(args, a); }
  }

  /** Every right that is asked for is granted. */
  lemma AccessTells(args: seq<Field>, a: Answer)
    requires |args| == 2 && args[1].Word?
    ensures var values := Told(ACCESS, args, a);
            && |values| >= 2 && values[1] == PostOpAttr(a.attributes)
            && (values[0] == Uint32(NFS3ERR_STALE) <==> a.check != NFS3_OK)
            && (values[0] == Uint32(NFS3_OK) <==> a.check == NFS3_OK)
            && if values[0] == Uint32(NFS3_OK) then |values| == 3 && values[2] == Uint32(args[1].n) else |values| == 2
  {
    hide Told, DecResult, EncAll, EncDatum;
    ToldIsWritten(ACCESS, args, a);
    assert ResultData(ACCESS, args, a) == AccessData(args[1].n, a) by { ResultEntries(args, a); }
  }

  /** A file that was found but gets no handle is told to be there, with a handle of zeros. */
  lemma LookupTells(args: seq<Field>, a: Answer)
    ensures var values := Told(LOOKUP, args, a);
            && |values| >= 2 && values[|values| - 1] == PostOpAttr(a.directory)
            && (values[0] == Uint32(NFS3ERR_NAMETOOLONG) <==> a.tooLong)
            && (values[0] == Uint32(NFS3ERR_STALE) <==> !a.tooLong && a.check == NFS3ERR_STALE)
            && (values[0] == Uint32(NFS3ERR_NOENT) <==> !a.tooLong && a.check == NFS3ERR_NOENT)
            && (values[0] == Uint32(NFS3_OK) <==> !a.tooLong && a.check == NFS3_OK)
            && if values[0] == Uint32(NFS3_OK) then
                 && |values| == 4 && values[1].Opaque? && values[2] == PostOpAttr(a.attributes)
                 && |values[1].d| == NFS3_FHSIZE
                 && if a.handle != None then Some(values[1].d) == a.handle else forall i :: 0 <= i < NFS3_FHSIZE ==> values[1].d[i] == 0
               else |values| == 2
  {
    hide Told, DecResult, EncAll, EncDatum;
    ToldIsWritten(LOOKUP, args, a);
    assert ResultData(LOOKUP, args, a) == LookupData(a) by { ResultEntries(args, a); }
  }

  lemma ReadlinkTells(args: seq<Field>, a: Answer)
    ensures var values := Told(READLINK, args, a);
            && |values| >= 2 && values[1] == PostOpAttr(a.attributes)
            && (values[0] == Uint32(NFS3ERR_STALE) <==> !a.known || a.check == NFS3ERR_STALE)
            && (values[0] == Uint32(NFS3ERR_NOENT) <==> a.known && a.check == NFS3ERR_NOENT)
            && (values[0] == Uint32(NFS3ERR_IO) <==> a.known && a.check == NFS3_OK && a.errno != NoError)
            && (values[0] == Uint32(NFS3_OK) <==> a.known && a.check == NFS3_OK && a.errno == NoError)
            && if values[0] == Uint32(NFS3_OK) then |values| == 3 && values[2] == Opaque(a.data) else |values| == 2
  {
    hide Told, DecResult, EncAll, EncDatum;
    ToldIsWritten(READLINK, args, a);
    assert ResultData(READLINK, args, a) == ReadlinkData(a) by { ResultEntries(args, a); }
  }

  /** The bytes of fread, their number, and whether fgetc found the end behind them. */
  lemma ReadTells(args: seq<Field>, a: Answer)
    ensures var values := Told(READ, args, a);
            && |values| >= 2 && values[1] == PostOpAttr(a.attributes)
            && (values[0] == Uint32(NFS3ERR_STALE) <==> a.check == NFS3ERR_STALE)
            && (values[0] == Uint32(NFS3ERR_NOENT) <==> a.check == NFS3ERR_NOENT)
            && (values[0] == Uint32(NFS3ERR_ACCES) <==> a.check == NFS3_OK && a.errno == EACCES)
            && (values[0] == Uint32(NFS3ERR_IO) <==> a.check == NFS3_OK && a.errno != NoError && a.errno != EACCES)
            && (values[0] == Uint32(NFS3_OK) <==> a.check == NFS3_OK && a.errno == NoError)
            && if values[0] == Uint32(NFS3_OK) then
                 && |values| == 5 && values[4].Opaque? && values[2] == Uint32(|values[4].d|)
                 && values[4].d == a.data && values[3] == Bool(a.eof)
               else |values| == 2
  {
    hide Told, DecResult, EncAll, EncDatum;
    ToldIsWritten(READ, args, a);
    assert ResultData(READ, args, a) == ReadData(a) by { ResultEntries(args, a); }
  }

  /** A listing up to its entries. */
  lemma ListingTells(proc: U32, args: seq<Field>, a: Answer)
    requires Listing(proc) && |args| >= 3 && args[1].Long? && args[2].Long?
    ensures var values := Told(proc, args, a);
            && |values| >= 2 && values[1] == PostOpAttr(a.attributes)
            && (values[0] == Uint32(NFS3ERR_STALE) <==> a.check == NFS3ERR_STALE)
            && (values[0] == Uint32(NFS3ERR_NOENT) <==> a.check == NFS3ERR_NOENT)
            && (values[0] == Uint32(NFS3ERR_IO) <==> a.check == NFS3_OK && a.attributes == None)
            && (values[0] == Uint32(NFS3_OK) <==> a.check == NFS3_OK && a.attributes != None)
            && if values[0] == Uint32(NFS3_OK) then |values| >= 5 && values[2] == Uint64(args[2].m) else |values| == 2
  {
    hide Told, DecResult, EncAll, EncDatum, EntriesData;
    ToldIsWritten(proc, args, a);
    ResultEntries(args, a);
  }

  /** Section 3.3.18 has total bytes, free bytes and the bytes free to the caller, in this order. The server
      exchanges the last two: the client is told right exactly when they are equal, as without quotas. */
  lemma FsstatTells(args: seq<Field>, a: Answer)
    ensures var values := Told(FSSTAT, args, a);
            && |values| >= 2
            && (values[0] == Uint32(NFS3ERR_STALE) <==> a.check == NFS3ERR_STALE)
            && (values[0] == Uint32(NFS3ERR_NOENT) <==> a.check == NFS3ERR_NOENT)
            && (values[0] == Uint32(NFS3ERR_IO) <==> a.check == NFS3_OK && (a.attributes == None || a.errno != NoError))
            && (values[0] == Uint32(NFS3_OK) <==> a.check == NFS3_OK && a.attributes != None && a.errno == NoError)
            && values[1] == PostOpAttr(if a.check == NFS3_OK then a.attributes else None)
            && if values[0] == Uint32(NFS3_OK) then
                 && |values| == 9 && values[2] == Uint64(a.total)
                 && (values[3] == Uint64(a.totalFree) && values[4] == Uint64(a.callerFree) <==> a.totalFree == a.callerFree)
                 && values[5] == values[6] == values[7] == Uint64(0) && values[8] == Uint32(0)
                 && values[3] == Uint64(a.callerFree) && values[4] == Uint64(a.totalFree)
               else |values| == 2
  {
    hide Told, DecResult, EncAll, EncDatum;
    ToldIsWritten(FSSTAT, args, a);
    assert ResultData(FSSTAT, args, a) == FsstatData(a) by { ResultEntries(args, a); }
  }

  /** Transfer sizes in the order of section 3.3.19: maximum, preferred and multiple of a READ, the same of a
      WRITE, preferred of a READDIR; then the largest file, the resolution of times, and links, symbolic links
      and settable times. */
  lemma FsinfoTells(args: seq<Field>, a: Answer)
    ensures var values := Told(FSINFO, args, a);
            && |values| >= 2
            && (values[0] == Uint32(NFS3ERR_STALE) <==> a.check == NFS3ERR_STALE)
            && (values[0] == Uint32(NFS3ERR_NOENT) <==> a.check == NFS3ERR_NOENT)
            && (values[0] == Uint32(NFS3ERR_SERVERFAULT) <==> a.check == NFS3_OK && a.attributes == None)
            && (values[0] == Uint32(NFS3_OK) <==> a.check == NFS3_OK && a.attributes != None)
            && values[1] == PostOpAttr(if a.check == NFS3_OK then a.attributes else None)
            && if values[0] == Uint32(NFS3_OK) then
                 && |values| == 12
                 && values[2] == values[5] == Uint32(0x1_0000) && values[3] == values[6] == Uint32(0x8000)
                 && values[4] == values[7] == Uint32(0x1000) && values[8] == Uint32(0x2000)
                 && values[9] == Uint64(0x8000_0000_0000_0000 - 1) && values[10] == Time(NfsTime3(1, 0))
                 && values[11] == Uint32(0x1 + 0x2 + 0x10)
               else |values| == 2
  {
    hide Told, DecResult, EncAll, EncDatum;
    ToldIsWritten(FSINFO, args, a);
    assert ResultData(FSINFO, args, a) == FsinfoData(a) by { ResultEntries(args, a); }
  }

  /** Section 3.3.20: links to a file, the longest name, and that names are refused rather than cut, owners
      stay, and case is ignored and kept. */
  lemma PathconfTells(args: seq<Field>, a: Answer)
    ensures var values := Told(PATHCONF, args, a);
            && |values| >= 2
            && (values[0] == Uint32(NFS3ERR_STALE) <==> a.check == NFS3ERR_STALE)
            && (values[0] == Uint32(NFS3ERR_NOENT) <==> a.check == NFS3ERR_NOENT)
            && (values[0] == Uint32(NFS3ERR_SERVERFAULT) <==> a.check == NFS3_OK && a.attributes == None)
            && (values[0] == Uint32(NFS3_OK) <==> a.check == NFS3_OK && a.attributes != None)
            && values[1] == PostOpAttr(if a.check == NFS3_OK then a.attributes else None)
            && if values[0] == Uint32(NFS3_OK) then
                 && |values| == 8 && values[2] == Uint32(1023) && values[3] == Uint32(255)
                 && forall i :: 4 <= i < 8 ==> values[i] == Bool(true)
               else |values| == 2
  {
    hide Told, DecResult, EncAll, EncDatum;
    ToldIsWritten(PATHCONF, args, a);
    assert ResultData(PATHCONF, args, a) == PathconfData(a) by { ResultEntries(args, a); }
  }
}
