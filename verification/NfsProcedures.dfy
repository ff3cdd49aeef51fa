/** The 22 procedures of src/NFS3Prog/ over the streams: each reads its arguments field by field,
    makes its calls, and writes its result value by value. What Windows and the file table answer is
    a function of the server state, the procedure and its arguments, so it can be anything. */
module NfsProcedures {
  import opened Nodes
  import opened Handles
  import opened Wire
  import opened Arguments
  import opened Results
  import opened SocketStreams
  import opened Codecs
  import opened Paging
  import opened Statuses
  import opened NfsCalls
  import opened NfsResults
  import opened Rpc
  import opened NfsPrograms

  /** The output with these values written behind it. */
  function Behind(output: Bytes, xs: seq<Datum>): Bytes {
    Fit(output + EncAll(EncDatum, xs), MAXDATA)
  }

  class Nfs3Prog<S> {
    const codec: Codec
    const host: Host<S>
    var state: S

    ghost predicate Valid()
      reads this, codec, codec.stream
    {
      codec.Valid() && codec.stream.AtEnd()
    }

    ghost function Rest(): Bytes
      requires codec.Valid()
      reads this, codec, codec.stream, codec.stream.inBuffer
    {
      codec.Rest()
    }

    ghost function Output(): Bytes
      requires codec.Valid()
      reads this, codec, codec.stream, codec.stream.outBuffer
    {
      codec.Output()
    }

    constructor (stream: SocketStream, host: Host<S>, state: S)
      requires stream.Valid() && stream.AtEnd()
      ensures Valid() && codec.stream == stream && fresh(codec)
      ensures this.host == host && this.state == state
    {
      codec := new Codec(stream);
      this.host, this.state := host, state;
    }

    /** The arguments were read and the calls made, or a read threw and nothing else happened. */
    ghost predicate Asked(proc: U32, outcome: Outcome<Answer>, decoded: Parsed<seq<Field>>, state0: S)
      requires codec.Valid()
      reads this, codec, codec.stream, codec.stream.inBuffer
    {
      match decoded
      case Fail => outcome == Thrown && Rest() == [] && state == state0
      case Got(args, rest) =>
        outcome.Value? && Rest() == rest && (outcome.value, state) == host(state0, proc, args)
    }

    /** All calls a procedure makes, behind its last read. */
    method Ask(proc: U32, args: seq<Field>) returns (a: Answer)
      modifies this`state
      ensures (a, state) == host(old(state), proc, args)
    {
      var (answer, next) := host(state, proc, args);
      a, state := answer, next;
    }

    /** Calls of Write for these values, one after the other. */
    method Put(xs: seq<Datum>)
      requires Valid() && forall i :: 0 <= i < |xs| ==> Countable(xs[i])
      modifies codec.stream`outIndex, codec.stream`outSize, codec.stream.outBuffer
      ensures Valid() && Output() == Behind(old(Output()), xs)
      ensures Rest() == old(Rest())
    {
      codec.WriteData(xs);
    }

    method AnswerGETATTR(a: Answer)
      requires Valid()
      modifies codec.stream`outIndex, codec.stream`outSize, codec.stream.outBuffer
      ensures Valid() && Rest() == old(Rest()) && Output() == Behind(old(Output()), GetattrData(a))
    {
      var stat := Stale(a.check);
      if stat != NFS3_OK {
        Put([Uint32(stat)]);
      } else if a.attributes.None? {
        Put([Uint32(NFS3ERR_IO)]);
      } else {
        Put([Uint32(stat), Fattr(a.attributes.value)]);
      }
    }

    method ProcedureGETATTR() returns (r: Outcome<Answer>)
      requires Valid()
      modifies this`state, codec.stream`inIndex, codec.stream`outIndex, codec.stream`outSize, codec.stream.outBuffer
      ensures Valid() && Asked(GETATTR, r, DecFile(old(Rest())), old(state))
      ensures Output() == if r.Thrown? then old(Output()) else Behind(old(Output()), GetattrData(r.value))
    {
      var file :- codec.ReadOpaque();
      var a := Ask(GETATTR, [Data(file)]);
      AnswerGETATTR(a);
      return Value(a);
    }

    method AnswerSETATTR(a: Answer)
      requires Valid()
      modifies codec.stream`outIndex, codec.stream`outSize, codec.stream.outBuffer
      ensures Valid() && Rest() == old(Rest()) && Output() == Behind(old(Output()), SetattrData(a))
    {
      var stat: U32 := a.check;
      if stat == NFS3_OK && a.errno != NoError {
        stat := NFS3ERR_INVAL;
      }
      Put([Uint32(stat), Wcc(a.wcc)]);
    }

    method ProcedureSETATTR() returns (r: Outcome<Answer>)
      requires Valid()
      modifies this`state, codec.stream`inIndex, codec.stream`outIndex, codec.stream`outSize, codec.stream.outBuffer
      ensures Valid() && Asked(SETATTR, r, DecSetattr(old(Rest())), old(state))
      ensures Output() == if r.Thrown? then old(Output()) else Behind(old(Output()), SetattrData(r.value))
    {
      hide Behind, SetattrData, DecSattr3, DecGuard, DecOpaque;
      var file :- codec.ReadOpaque();
      var attributes :- codec.ReadSattr3();
      var guard :- codec.ReadSattrguard3();
      var a := Ask(SETATTR, [Data(file), Attributes(attributes), Guard(guard)]);
      AnswerSETATTR(a);
      return Value(a);
    }

    method AnswerLOOKUP(a: Answer)
      requires Valid()
      modifies codec.stream`outIndex, codec.stream`outSize, codec.stream.outBuffer
      ensures Valid() && Rest() == old(Rest()) && Output() == Behind(old(Output()), LookupData(a))
    {
      if a.tooLong {
        Put([Uint32(NFS3ERR_NAMETOOLONG), PostOpAttr(a.directory)]);
      } else if a.check != NFS3_OK {
        Put([Uint32(a.check), PostOpAttr(a.directory)]);
      } else {
        var handle: Handle := Zeros(NFS3_FHSIZE);
        if a.handle.Some? {
          handle := a.handle.value;
        }
        Put([Uint32(a.check), Opaque(handle), PostOpAttr(a.attributes), PostOpAttr(a.directory)]);
      }
    }

    method ProcedureLOOKUP() returns (r: Outcome<Answer>)
      requires Valid()
      modifies this`state, codec.stream`inIndex, codec.stream`outIndex, codec.stream`outSize, codec.stream.outBuffer
      ensures Valid() && Asked(LOOKUP, r, DecWhere(old(Rest())), old(state))
      ensures Output() == if r.Thrown? then old(Output()) else Behind(old(Output()), LookupData(r.value))
    {
      var what :- codec.ReadDiropargs3();
      var a := Ask(LOOKUP, [Where(what)]);
      AnswerLOOKUP(a);
      return Value(a);
    }

    method AnswerACCESS(access: U32, a: Answer)
      requires Valid()
      modifies codec.stream`outIndex, codec.stream`outSize, codec.stream.outBuffer
      ensures Valid() && Rest() == old(Rest()) && Output() == Behind(old(Output()), AccessData(access, a))
    {
      var stat := Stale(a.check);
      if stat != NFS3_OK {
        Put([Uint32(stat), PostOpAttr(a.attributes)]);
      } else {
        Put([Uint32(stat), PostOpAttr(a.attributes), Uint32(access)]);
      }
    }

    method ProcedureACCESS() returns (r: Outcome<Answer>)
      requires Valid()
      modifies this`state, codec.stream`inIndex, codec.stream`outIndex, codec.stream`outSize, codec.stream.outBuffer
      ensures Valid() && Asked(ACCESS, r, DecAccess(old(Rest())), old(state))
      ensures r.Thrown? ==> Output() == old(Output())
      ensures r.Value? ==> Output() == Behind(old(Output()), AccessData(WordAt(DecAccess(old(Rest())).value, 1), r.value))
    {
      var file :- codec.ReadOpaque();
      var access :- codec.ReadUint32();
      var a := Ask(ACCESS, [Data(file), Word(access)]);
      AnswerACCESS(access, a);
      return Value(a);
    }

    method AnswerREADLINK(a: Answer)
      requires Valid()
      modifies codec.stream`outIndex, codec.stream`outSize, codec.stream.outBuffer
      ensures Valid() && Rest() == old(Rest()) && Output() == Behind(old(Output()), ReadlinkData(a))
    {
      if !a.known {
        Put([Uint32(NFS3ERR_STALE), PostOpAttr(a.attributes)]);
      } else if a.check != NFS3_OK {
        Put([Uint32(a.check), PostOpAttr(a.attributes)]);
      } else if a.errno != NoError {
        Put([Uint32(NFS3ERR_IO), PostOpAttr(a.attributes)]);
      } else {
        Put([Uint32(a.check), PostOpAttr(a.attributes), Opaque(a.data)]);
      }
    }

    method ProcedureREADLINK() returns (r: Outcome<Answer>)
      requires Valid()
      modifies this`state, codec.stream`inIndex, codec.stream`outIndex, codec.stream`outSize, codec.stream.outBuffer
      ensures Valid() && Asked(READLINK, r, DecFile(old(Rest())), old(state))
      ensures Output() == if r.Thrown? then old(Output()) else Behind(old(Output()), ReadlinkData(r.value))
    {
      var file :- codec.ReadOpaque();
      var a := Ask(READLINK, [Data(file)]);
      AnswerREADLINK(a);
      return Value(a);
    }

    method AnswerREAD(a: Answer)
      requires Valid()
      modifies codec.stream`outIndex, codec.stream`outSize, codec.stream.outBuffer
      ensures Valid() && Rest() == old(Rest()) && Output() == Behind(old(Output()), ReadData(a))
    {
      if a.check != NFS3_OK {
        Put([Uint32(a.check), PostOpAttr(a.attributes)]);
      } else if a.errno != NoError {
        Put([Uint32(AccessOrIo(a.errno)), PostOpAttr(a.attributes)]);
      } else {
        Put([Uint32(a.check), PostOpAttr(a.attributes), Uint32(|a.data|), Bool(a.eof), Opaque(a.data)]);
      }
    }

    method ProcedureREAD() returns (r: Outcome<Answer>)
      requires Valid()
      modifies this`state, codec.stream`inIndex, codec.stream`outIndex, codec.stream`outSize, codec.stream.outBuffer
      ensures Valid() && Asked(READ, r, DecRange(old(Rest())), old(state))
      ensures Output() == if r.Thrown? then old(Output()) else Behind(old(Output()), ReadData(r.value))
    {
      var file :- codec.ReadOpaque();
      var offset :- codec.ReadUint64();
      var count :- codec.ReadUint32();
      var a := Ask(READ, [Data(file), Long(offset), Word(count)]);
      AnswerREAD(a);
      return Value(a);
    }

    method AnswerWRITE(stable: U32, a: Answer)
      requires Valid()
      modifies codec.stream`outIndex, codec.stream`outSize, codec.stream.outBuffer
      ensures Valid() && Rest() == old(Rest()) && Output() == Behind(old(Output()), WriteData(stable, a))
    {
      if a.check != NFS3_OK {
        Put([Uint32(a.check), Wcc(a.wcc)]);
      } else if stable == UNSTABLE && a.handle.None? {
        Put([Uint32(NFS3ERR_IO), Wcc(a.wcc)]);
      } else if a.errno != NoError {
        Put([Uint32(AccessOrIo(a.errno)), Wcc(a.wcc)]);
      } else if stable == UNSTABLE {
        Put([Uint32(a.check), Changed(a.wcc, None), Uint32(a.count), Uint32(stable), Uint64(0)]);
      } else {
        Put([Uint32(a.check), Wcc(a.wcc), Uint32(a.count), Uint32(FILE_SYNC), Uint64(0)]);
      }
    }

    method ReadWRITE() returns (r: Outcome<seq<Field>>)
      requires Valid()
      modifies codec.stream`inIndex
      ensures Valid() && Reads(r, Rest(), DecWrite(old(Rest())))
    {
      var file :- codec.ReadOpaque();
      var offset :- codec.ReadUint64();
      var count :- codec.ReadUint32();
      var stable :- codec.ReadUint32();
      var data :- codec.ReadOpaque();
      return Value([Data(file), Long(offset), Word(count), Word(stable), Data(data)]);
    }

    method ProcedureWRITE() returns (r: Outcome<Answer>)
      requires Valid()
      modifies this`state, codec.stream`inIndex, codec.stream`outIndex, codec.stream`outSize, codec.stream.outBuffer
      ensures Valid() && Asked(WRITE, r, DecWrite(old(Rest())), old(state))
      ensures r.Thrown? ==> Output() == old(Output())
      ensures r.Value? ==> Output() == Behind(old(Output()), WriteData(WordAt(DecWrite(old(Rest())).value, 3), r.value))
    {
      var args :- ReadWRITE();
      var a := Ask(WRITE, args);
      AnswerWRITE(WordAt(args, 3), a);
      return Value(a);
    }

    method AnswerCREATE(a: Answer)
      requires Valid()
      modifies codec.stream`outIndex, codec.stream`outSize, codec.stream.outBuffer
      ensures Valid() && Rest() == old(Rest()) && Output() == Behind(old(Output()), CreateData(a))
    {
      if a.tooLong {
        Put([Uint32(NFS3ERR_NAMETOOLONG), Changed(a.wcc, None)]);
      } else if a.errno == ENOENT {
        Put([Uint32(NFS3ERR_STALE), Wcc(a.wcc)]);
      } else if a.errno != NoError {
        Put([Uint32(AccessOrIo(a.errno)), Wcc(a.wcc)]);
      } else {
        Put([Uint32(NFS3_OK), PostOpFh3(a.handle), PostOpAttr(a.attributes), Wcc(a.wcc)]);
      }
    }

    method ProcedureCREATE() returns (r: Outcome<Answer>)
      requires Valid()
      modifies this`state, codec.stream`inIndex, codec.stream`outIndex, codec.stream`outSize, codec.stream.outBuffer
      ensures Valid() && Asked(CREATE, r, DecCreate(old(Rest())), old(state))
      ensures Output() == if r.Thrown? then old(Output()) else Behind(old(Output()), CreateData(r.value))
    {
      var what :- codec.ReadDiropargs3();
      var how :- codec.ReadCreatehow3();
      var a := Ask(CREATE, [Where(what), How(how)]);
      AnswerCREATE(a);
      return Value(a);
    }

    method AnswerMKDIR(a: Answer)
      requires Valid()
      modifies codec.stream`outIndex, codec.stream`outSize, codec.stream.outBuffer
      ensures Valid() && Rest() == old(Rest()) && Output() == Behind(old(Output()), MkdirData(a))
    {
      if a.tooLong {
        Put([Uint32(NFS3ERR_NAMETOOLONG), Changed(a.wcc, None)]);
      } else if a.errno != NoError {
        var stat := NFS3ERR_IO;
        if a.errno == EEXIST {
          stat := NFS3ERR_EXIST;
        } else if a.errno == ENOENT {
          stat := NFS3ERR_NOENT;
        } else if a.present {
          stat := NFS3_OK;
        }
        Put([Uint32(stat), Wcc(a.wcc)]);
      } else {
        Put([Uint32(NFS3_OK), PostOpFh3(a.handle), PostOpAttr(a.attributes), Wcc(a.wcc)]);
      }
    }

    method ProcedureMKDIR() returns (r: Outcome<Answer>)
      requires Valid()
      modifies this`state, codec.stream`inIndex, codec.stream`outIndex, codec.stream`outSize, codec.stream.outBuffer
      ensures Valid() && Asked(MKDIR, r, DecMkdir(old(Rest())), old(state))
      ensures Output() == if r.Thrown? then old(Output()) else Behind(old(Output()), MkdirData(r.value))
    {
      var what :- codec.ReadDiropargs3();
      var attributes :- codec.ReadSattr3();
      var a := Ask(MKDIR, [Where(what), Attributes(attributes)]);
      AnswerMKDIR(a);
      return Value(a);
    }

    method AnswerSYMLINK(a: Answer)
      requires Valid()
      modifies codec.stream`outIndex, codec.stream`outSize, codec.stream.outBuffer
      ensures Valid() && Rest() == old(Rest()) && Output() == Behind(old(Output()), SymlinkData(a))
    {
      if a.tooLong {
        Put([Uint32(NFS3ERR_NAMETOOLONG), Changed(a.wcc, None)]);
      } else if a.errno != NoError {
        Put([Uint32(if a.present then NFS3ERR_EXIST else NFS3ERR_IO), Wcc(a.wcc)]);
      } else {
        Put([Uint32(NFS3_OK), PostOpFh3(a.handle), PostOpAttr(a.attributes), Wcc(a.wcc)]);
      }
    }

    method ProcedureSYMLINK() returns (r: Outcome<Answer>)
      requires Valid()
      modifies this`state, codec.stream`inIndex, codec.stream`outIndex, codec.stream`outSize, codec.stream.outBuffer
      ensures Valid() && Asked(SYMLINK, r, DecSymlinkArgs(old(Rest())), old(state))
      ensures Output() == if r.Thrown? then old(Output()) else Behind(old(Output()), SymlinkData(r.value))
    {
      var what :- codec.ReadDiropargs3();
      var link :- codec.ReadSymlinkdata3();
      var a := Ask(SYMLINK, [Where(what), Field.Link(link)]);
      AnswerSYMLINK(a);
      return Value(a);
    }

    /** It reads nothing and writes nothing. */
    method ProcedureMKNOD()
    {
    }

    method ProcedureNULL()
    {
    }

    /** REMOVE and RMDIR. */
    method AnswerREMOVE(a: Answer)
      requires Valid()
      modifies codec.stream`outIndex, codec.stream`outSize, codec.stream.outBuffer
      ensures Valid() && Rest() == old(Rest()) && Output() == Behind(old(Output()), RemoveData(a))
    {
      if a.tooLong {
        Put([Uint32(NFS3ERR_NAMETOOLONG), Changed(a.wcc, None)]);
      } else if a.check != NFS3_OK {
        Put([Uint32(a.check), Wcc(a.wcc)]);
      } else {
        Put([Uint32(Removal(a.errno)), Wcc(a.wcc)]);
      }
    }

    method ProcedureREMOVE() returns (r: Outcome<Answer>)
      requires Valid()
      modifies this`state, codec.stream`inIndex, codec.stream`outIndex, codec.stream`outSize, codec.stream.outBuffer
      ensures Valid() && Asked(REMOVE, r, DecWhere(old(Rest())), old(state))
      ensures Output() == if r.Thrown? then old(Output()) else Behind(old(Output()), RemoveData(r.value))
    {
      var what :- codec.ReadDiropargs3();
      var a := Ask(REMOVE, [Where(what)]);
      AnswerREMOVE(a);
      return Value(a);
    }

    method ProcedureRMDIR() returns (r: Outcome<Answer>)
      requires Valid()
      modifies this`state, codec.stream`inIndex, codec.stream`outIndex, codec.stream`outSize, codec.stream.outBuffer
      ensures Valid() && Asked(RMDIR, r, DecWhere(old(Rest())), old(state))
      ensures Output() == if r.Thrown? then old(Output()) else Behind(old(Output()), RemoveData(r.value))
    {
      var what :- codec.ReadDiropargs3();
      var a := Ask(RMDIR, [Where(what)]);
      AnswerREMOVE(a);
      return Value(a);
    }

    method AnswerRENAME(a: Answer)
      requires Valid()
      modifies codec.stream`outIndex, codec.stream`outSize, codec.stream.outBuffer
      ensures Valid() && Rest() == old(Rest()) && Output() == Behind(old(Output()), RenameData(a))
    {
      if a.tooLong {
        Put([Uint32(NFS3ERR_NAMETOOLONG), Wcc(WccData(None, None)), Wcc(WccData(None, None))]);
      } else if a.check != NFS3_OK {
        Put([Uint32(a.check), Wcc(a.wcc), Wcc(a.toWcc)]);
      } else if a.targetExists && a.removal != NoError {
        Put([Uint32(Removal(a.removal)), Wcc(a.wcc), Wcc(a.toWcc)]);
      } else {
        Put([Uint32(if a.errno != NoError then AccessOrIo(a.errno) else NFS3_OK), Wcc(a.wcc), Wcc(a.toWcc)]);
      }
    }

    method ProcedureRENAME() returns (r: Outcome<Answer>)
      requires Valid()
      modifies this`state, codec.stream`inIndex, codec.stream`outIndex, codec.stream`outSize, codec.stream.outBuffer
      ensures Valid() && Asked(RENAME, r, DecRename(old(Rest())), old(state))
      ensures Output() == if r.Thrown? then old(Output()) else Behind(old(Output()), RenameData(r.value))
    {
      var from :- codec.ReadDiropargs3();
      var to :- codec.ReadDiropargs3();
      var a := Ask(RENAME, [Where(from), Where(to)]);
      AnswerRENAME(a);
      return Value(a);
    }

    method AnswerLINK(a: Answer)
      requires Valid()
      modifies codec.stream`outIndex, codec.stream`outSize, codec.stream.outBuffer
      ensures Valid() && Rest() == old(Rest()) && Output() == Behind(old(Output()), LinkData(a))
    {
      if a.tooLong {
        Put([Uint32(NFS3ERR_NAMETOOLONG), PostOpAttr(None), Changed(a.wcc, None)]);
      } else if a.errno != NoError {
        Put([Uint32(if a.present then NFS3ERR_EXIST else NFS3ERR_IO), PostOpAttr(None), Wcc(a.wcc)]);
      } else if a.attributes.None? {
        Put([Uint32(NFS3ERR_IO), PostOpAttr(None), Wcc(a.wcc)]);
      } else {
        Put([Uint32(NFS3_OK), PostOpAttr(a.attributes), Wcc(a.wcc)]);
      }
    }

    method ProcedureLINK() returns (r: Outcome<Answer>)
      requires Valid()
      modifies this`state, codec.stream`inIndex, codec.stream`outIndex, codec.stream`outSize, codec.stream.outBuffer
      ensures Valid() && Asked(LINK, r, DecLink(old(Rest())), old(state))
      ensures Output() == if r.Thrown? then old(Output()) else Behind(old(Output()), LinkData(r.value))
    {
      var file :- codec.ReadOpaque();
      var what :- codec.ReadDiropargs3();
      var a := Ask(LINK, [Data(file), Where(what)]);
      AnswerLINK(a);
      return Value(a);
    }

    /** The entries of a page, one after the other. */
    method PutEntries(plus: bool, entries: seq<Entry<About>>)
      requires Valid()
      modifies codec.stream`outIndex, codec.stream`outSize, codec.stream.outBuffer
      ensures Valid() && Rest() == old(Rest()) && Output() == Behind(old(Output()), EntriesData(plus, entries))
    {
      ghost var o := Output();
      var i := 0;
      NothingBehind(o);
      while i < |entries|
        invariant 0 <= i <= |entries| && Valid() && Rest() == old(Rest())
        invariant Output() == Behind(o, EntriesData(plus, entries[..i]))
      {
        Put(EntryData(plus, entries[i]));
        BehindTwice(o, EntriesData(plus, entries[..i]), EntryData(plus, entries[i]));
        EntriesSnoc(plus, entries, i);
        i := i + 1;
      }
      assert entries[..|entries|] == entries;
    }

    /** READDIR and READDIRPLUS behind the verifier. */
    method PutList(plus: bool, cookie: U64, a: Answer)
      requires Valid()
      modifies codec.stream`outIndex, codec.stream`outSize, codec.stream.outBuffer
      ensures Valid() && Rest() == old(Rest()) && Output() == Behind(old(Output()), ListTail(plus, cookie, a))
    {
      ghost var o := Output();
      var handle := new FindHandle(a.names);
      var entries, eof := ReadDirectory(handle, a.about, cookie);
      PutEntries(plus, entries);
      Put([Bool(false), Bool(eof)]);
      BehindTwice(o, EntriesData(plus, entries), [Bool(false), Bool(eof)]);
    }

    /** READDIR and READDIRPLUS. */
    method AnswerREADDIR(plus: bool, cookie: U64, verf: U64, a: Answer)
      requires Valid()
      modifies codec.stream`outIndex, codec.stream`outSize, codec.stream.outBuffer
      ensures Valid() && Rest() == old(Rest()) && Output() == Behind(old(Output()), ReaddirData(plus, cookie, verf, a))
    {
      ghost var o := Output();
      var stat: U32 := a.check;
      if stat == NFS3_OK && a.attributes.None? {
        stat := NFS3ERR_IO;
      }
      Put([Uint32(stat), PostOpAttr(a.attributes)]);
      if stat != NFS3_OK {
        return;
      }
      Put([Uint64(verf)]);
      BehindTwice(o, ListHead(a), [Uint64(verf)]);
      PutList(plus, cookie, a);
      BehindTwice(o, ListHead(a) + [Uint64(verf)], ListTail(plus, cookie, a));
    }

    method ReadREADDIR() returns (r: Outcome<seq<Field>>)
      requires Valid()
      modifies codec.stream`inIndex
      ensures Valid() && Reads(r, Rest(), DecReaddir(old(Rest())))
    {
      var file :- codec.ReadOpaque();
      var cookie :- codec.ReadUint64();
      var verf :- codec.ReadUint64();
      var count :- codec.ReadUint32();
      return Value([Data(file), Long(cookie), Long(verf), Word(count)]);
    }

    method ProcedureREADDIR() returns (r: Outcome<Answer>)
      requires Valid()
      modifies this`state, codec.stream`inIndex, codec.stream`outIndex, codec.stream`outSize, codec.stream.outBuffer
      ensures Valid() && Asked(READDIR, r, DecReaddir(old(Rest())), old(state))
      ensures r.Thrown? ==> Output() == old(Output())
      ensures r.Value? ==>
                var args := DecReaddir(old(Rest())).value;
                Output() == Behind(old(Output()), ReaddirData(false, LongAt(args, 1), LongAt(args, 2), r.value))
    {
      var args :- ReadREADDIR();
      var a := Ask(READDIR, args);
      AnswerREADDIR(false, LongAt(args, 1), LongAt(args, 2), a);
      return Value(a);
    }

    method ReadREADDIRPLUS() returns (r: Outcome<seq<Field>>)
      requires Valid()
      modifies codec.stream`inIndex
      ensures Valid() && Reads(r, Rest(), DecReaddirplus(old(Rest())))
    {
      var file :- codec.ReadOpaque();
      var cookie :- codec.ReadUint64();
      var verf :- codec.ReadUint64();
      var dircount :- codec.ReadUint32();
      var maxcount :- codec.ReadUint32();
      return Value([Data(file), Long(cookie), Long(verf), Word(dircount), Word(maxcount)]);
    }

    method ProcedureREADDIRPLUS() returns (r: Outcome<Answer>)
      requires Valid()
      modifies this`state, codec.stream`inIndex, codec.stream`outIndex, codec.stream`outSize, codec.stream.outBuffer
      ensures Valid() && Asked(READDIRPLUS, r, DecReaddirplus(old(Rest())), old(state))
      ensures r.Thrown? ==> Output() == old(Output())
      ensures r.Value? ==>
                var args := DecReaddirplus(old(Rest())).value;
                Output() == Behind(old(Output()), ReaddirData(true, LongAt(args, 1), LongAt(args, 2), r.value))
    {
      var args :- ReadREADDIRPLUS();
      var a := Ask(READDIRPLUS, args);
      AnswerREADDIR(true, LongAt(args, 1), LongAt(args, 2), a);
      return Value(a);
    }

    method AnswerFSSTAT(a: Answer)
      requires Valid()
      modifies codec.stream`outIndex, codec.stream`outSize, codec.stream.outBuffer
      ensures Valid() && Rest() == old(Rest()) && Output() == Behind(old(Output()), FsstatData(a))
    {
      if a.check != NFS3_OK {
        Put([Uint32(a.check), PostOpAttr(None)]);
      } else if a.attributes.None? || a.errno != NoError {
        Put([Uint32(NFS3ERR_IO), PostOpAttr(a.attributes)]);
      } else {
        Put([Uint32(a.check), PostOpAttr(a.attributes), Uint64(a.total), Uint64(a.callerFree), Uint64(a.totalFree),
             Uint64(0), Uint64(0), Uint64(0), Uint32(0)]);
      }
    }

    method ProcedureFSSTAT() returns (r: Outcome<Answer>)
      requires Valid()
      modifies this`state, codec.stream`inIndex, codec.stream`outIndex, codec.stream`outSize, codec.stream.outBuffer
      ensures Valid() && Asked(FSSTAT, r, DecFile(old(Rest())), old(state))
      ensures Output() == if r.Thrown? then old(Output()) else Behind(old(Output()), FsstatData(r.value))
    {
      var file :- codec.ReadOpaque();
      var a := Ask(FSSTAT, [Data(file)]);
      AnswerFSSTAT(a);
      return Value(a);
    }

    method AnswerFSINFO(a: Answer)
      requires Valid()
      modifies codec.stream`outIndex, codec.stream`outSize, codec.stream.outBuffer
      ensures Valid() && Rest() == old(Rest()) && Output() == Behind(old(Output()), FsinfoData(a))
    {
      if a.check != NFS3_OK {
        Put([Uint32(a.check), PostOpAttr(None)]);
      } else if a.attributes.None? {
        Put([Uint32(NFS3ERR_SERVERFAULT), PostOpAttr(None)]);
      } else {
        Put([Uint32(a.check), PostOpAttr(a.attributes), Uint32(65536), Uint32(32768), Uint32(4096), Uint32(65536),
             Uint32(32768), Uint32(4096), Uint32(8192), Uint64(0x7FFF_FFFF_FFFF_FFFF), Time(NfsTime3(1, 0)), Uint32(0x13)]);
      }
    }

    method ProcedureFSINFO() returns (r: Outcome<Answer>)
      requires Valid()
      modifies this`state, codec.stream`inIndex, codec.stream`outIndex, codec.stream`outSize, codec.stream.outBuffer
      ensures Valid() && Asked(FSINFO, r, DecFile(old(Rest())), old(state))
      ensures Output() == if r.Thrown? then old(Output()) else Behind(old(Output()), FsinfoData(r.value))
    {
      var file :- codec.ReadOpaque();
      var a := Ask(FSINFO, [Data(file)]);
      AnswerFSINFO(a);
      return Value(a);
    }

    method AnswerPATHCONF(a: Answer)
      requires Valid()
      modifies codec.stream`outIndex, codec.stream`outSize, codec.stream.outBuffer
      ensures Valid() && Rest() == old(Rest()) && Output() == Behind(old(Output()), PathconfData(a))
    {
      if a.check != NFS3_OK {
        Put([Uint32(a.check), PostOpAttr(None)]);
      } else if a.attributes.None? {
        Put([Uint32(NFS3ERR_SERVERFAULT), PostOpAttr(None)]);
      } else {
        Put([Uint32(a.check), PostOpAttr(a.attributes), Uint32(MAXPATHLEN - 1), Uint32(MAXNAMELEN), Bool(true), Bool(true),
             Bool(true), Bool(true)]);
      }
    }

    method ProcedurePATHCONF() returns (r: Outcome<Answer>)
      requires Valid()
      modifies this`state, codec.stream`inIndex, codec.stream`outIndex, codec.stream`outSize, codec.stream.outBuffer
      ensures Valid() && Asked(PATHCONF, r, DecFile(old(Rest())), old(state))
      ensures Output() == if r.Thrown? then old(Output()) else Behind(old(Output()), PathconfData(r.value))
    {
      var file :- codec.ReadOpaque();
      var a := Ask(PATHCONF, [Data(file)]);
      AnswerPATHCONF(a);
      return Value(a);
    }

    method AnswerCOMMIT(a: Answer)
      requires Valid()
      modifies codec.stream`outIndex, codec.stream`outSize, codec.stream.outBuffer
      ensures Valid() && Rest() == old(Rest()) && Output() == Behind(old(Output()), CommitData(a))
    {
      var stat := NFS3_OK;
      if a.nullStream {
        stat := NFS3ERR_IO;
      }
      Put([Uint32(stat), Wcc(a.wcc), Uint64(0)]);
    }

    method ProcedureCOMMIT() returns (r: Outcome<Answer>)
      requires Valid()
      modifies this`state, codec.stream`inIndex, codec.stream`outIndex, codec.stream`outSize, codec.stream.outBuffer
      ensures Valid() && Asked(COMMIT, r, DecRange(old(Rest())), old(state))
      ensures Output() == if r.Thrown? then old(Output()) else Behind(old(Output()), CommitData(r.value))
    {
      var file :- codec.ReadOpaque();
      var offset :- codec.ReadUint64();
      var count :- codec.ReadUint32();
      var a := Ask(COMMIT, [Data(file), Long(offset), Word(count)]);
      AnswerCOMMIT(a);
      return Value(a);
    }

    // ---------------------------------------------------------------- the procedure table

    /** The procedure threw, and then it has written nothing, changed nothing and left nothing to read;
        or it has read its arguments, written its result and had its effect. */
    ghost predicate Ran(thrown: bool, proc: U32, decoded: Parsed<seq<Field>>, output: Bytes, state0: S)
      requires codec.Valid()
      reads this, codec, codec.stream, codec.stream.inBuffer, codec.stream.outBuffer
    {
      match decoded
      case Fail => thrown && Rest() == [] && Output() == output && state == state0
      case Got(args, rest) =>
        && !thrown && Rest() == rest
        && Output() == Behind(output, Result(host, state0, proc, args)) && state == Effect(host, state0, proc, args)
    }

    lemma CodecIsValid()
      requires Valid()
      ensures codec.Valid()
    {
    }

    lemma ValueIsRead(proc: U32, r: Outcome<Answer>, decoded: Parsed<seq<Field>>, state0: S)
      requires codec.Valid() && Asked(proc, r, decoded, state0)
      ensures r.Value? ==> decoded.Got?
    {
    }

    /** A procedure that has read its arguments, made its calls and written its result has run. */
    lemma HasRun(proc: U32, r: Outcome<Answer>, decoded: Parsed<seq<Field>>, output: Bytes, state0: S)
      requires codec.Valid() && proc != NULL && proc != MKNOD && Asked(proc, r, decoded, state0)
      requires r.Thrown? ==> Output() == output
      requires r.Value? ==> decoded.Got? && Output() == Behind(output, ResultData(proc, decoded.value, r.value))
      ensures Ran(r.Thrown?, proc, decoded, output, state0)
    {
      hide ResultData;
    }

    method LookCall(proc: U32) returns (thrown: bool)
      requires Valid() && proc != NULL && proc != MKNOD && (proc == GETATTR || proc == SETATTR || proc == LOOKUP || proc == ACCESS || proc == READLINK)
      modifies this`state, codec.stream`inIndex, codec.stream`outIndex, codec.stream`outSize, codec.stream.outBuffer
      ensures Valid() && Ran(thrown, proc, DecArgs(proc, old(Rest())), old(Output()), old(state))
    {
      hide *;
      CodecIsValid();
      ghost var input, output, state0 := Rest(), Output(), state;
      var r;
      if proc == GETATTR { r := ProcedureGETATTR(); }
      else if proc == SETATTR { r := ProcedureSETATTR(); }
      else if proc == LOOKUP { r := ProcedureLOOKUP(); }
      else if proc == ACCESS { r := ProcedureACCESS(); }
      else { r := ProcedureREADLINK(); }
      ArgsEntries(proc, input);
      CodecIsValid();
      ValueIsRead(proc, r, DecArgs(proc, input), state0);
      if r.Value? { ResultEntries(DecArgs(proc, input).value, r.value); }
      HasRun(proc, r, DecArgs(proc, input), output, state0);
      thrown := r.Thrown?;
    }

    method TransferCall(proc: U32) returns (thrown: bool)
      requires Valid() && proc != NULL && proc != MKNOD && (proc == READ || proc == WRITE || proc == COMMIT)
      modifies this`state, codec.stream`inIndex, codec.stream`outIndex, codec.stream`outSize, codec.stream.outBuffer
      ensures Valid() && Ran(thrown, proc, DecArgs(proc, old(Rest())), old(Output()), old(state))
    {
      hide *;
      CodecIsValid();
      ghost var input, output, state0 := Rest(), Output(), state;
      var r;
      if proc == READ { r := ProcedureREAD(); }
      else if proc == WRITE { r := ProcedureWRITE(); }
      else { r := ProcedureCOMMIT(); }
      ArgsEntries(proc, input);
      CodecIsValid();
      ValueIsRead(proc, r, DecArgs(proc, input), state0);
      if r.Value? { ResultEntries(DecArgs(proc, input).value, r.value); }
      HasRun(proc, r, DecArgs(proc, input), output, state0);
      thrown := r.Thrown?;
    }

    method MakeCall(proc: U32) returns (thrown: bool)
      requires Valid() && proc != NULL && proc != MKNOD && (proc == CREATE || proc == MKDIR || proc == SYMLINK || proc == LINK)
      modifies this`state, codec.stream`inIndex, codec.stream`outIndex, codec.stream`outSize, codec.stream.outBuffer
      ensures Valid() && Ran(thrown, proc, DecArgs(proc, old(Rest())), old(Output()), old(state))
    {
      hide *;
      CodecIsValid();
      ghost var input, output, state0 := Rest(), Output(), state;
      var r;
      if proc == CREATE { r := ProcedureCREATE(); }
      else if proc == MKDIR { r := ProcedureMKDIR(); }
      else if proc == SYMLINK { r := ProcedureSYMLINK(); }
      else { r := ProcedureLINK(); }
      ArgsEntries(proc, input);
      CodecIsValid();
      ValueIsRead(proc, r, DecArgs(proc, input), state0);
      if r.Value? { ResultEntries(DecArgs(proc, input).value, r.value); }
      HasRun(proc, r, DecArgs(proc, input), output, state0);
      thrown := r.Thrown?;
    }

    method RemoveCall(proc: U32) returns (thrown: bool)
      requires Valid() && proc != NULL && proc != MKNOD && (proc == REMOVE || proc == RMDIR || proc == RENAME)
      modifies this`state, codec.stream`inIndex, codec.stream`outIndex, codec.stream`outSize, codec.stream.outBuffer
      ensures Valid() && Ran(thrown, proc, DecArgs(proc, old(Rest())), old(Output()), old(state))
    {
      hide *;
      CodecIsValid();
      ghost var input, output, state0 := Rest(), Output(), state;
      var r;
      if proc == REMOVE { r := ProcedureREMOVE(); }
      else if proc == RMDIR { r := ProcedureRMDIR(); }
      else { r := ProcedureRENAME(); }
      ArgsEntries(proc, input);
      CodecIsValid();
      ValueIsRead(proc, r, DecArgs(proc, input), state0);
      if r.Value? { ResultEntries(DecArgs(proc, input).value, r.value); }
      HasRun(proc, r, DecArgs(proc, input), output, state0);
      thrown := r.Thrown?;
    }

    method ListCall(proc: U32) returns (thrown: bool)
      requires Valid() && proc != NULL && proc != MKNOD && (proc == READDIR || proc == READDIRPLUS || proc == FSSTAT || proc == FSINFO || proc == PATHCONF)
      modifies this`state, codec.stream`inIndex, codec.stream`outIndex, codec.stream`outSize, codec.stream.outBuffer
      ensures Valid() && Ran(thrown, proc, DecArgs(proc, old(Rest())), old(Output()), old(state))
    {
      hide *;
      CodecIsValid();
      ghost var input, output, state0 := Rest(), Output(), state;
      var r;
      if proc == READDIR { r := ProcedureREADDIR(); }
      else if proc == READDIRPLUS { r := ProcedureREADDIRPLUS(); }
      else if proc == FSSTAT { r := ProcedureFSSTAT(); }
      else if proc == FSINFO { r := ProcedureFSINFO(); }
      else { r := ProcedurePATHCONF(); }
      ArgsEntries(proc, input);
      CodecIsValid();
      ValueIsRead(proc, r, DecArgs(proc, input), state0);
      if r.Value? { ResultEntries(DecArgs(proc, input).value, r.value); }
      HasRun(proc, r, DecArgs(proc, input), output, state0);
      thrown := r.Thrown?;
    }

    /** The call through the table pf, inside the try block. */
    method Call(proc: U32) returns (thrown: bool)
      requires Valid() && proc < PROCEDURES
      modifies this`state, codec.stream`inIndex, codec.stream`outIndex, codec.stream`outSize, codec.stream.outBuffer
      ensures Valid() && Ran(thrown, proc, DecArgs(proc, old(Rest())), old(Output()), old(state))
    {
      if proc == NULL {
        ProcedureNULL();
        NothingBehind(Output());
        thrown := false;
      } else if proc == MKNOD {
        ProcedureMKNOD();
        NothingBehind(Output());
        thrown := false;
      } else if proc == GETATTR || proc == SETATTR || proc == LOOKUP || proc == ACCESS || proc == READLINK {
        thrown := LookCall(proc);
      } else if proc == READ || proc == WRITE || proc == COMMIT {
        thrown := TransferCall(proc);
      } else if proc == CREATE || proc == MKDIR || proc == SYMLINK || proc == LINK {
        thrown := MakeCall(proc);
      } else if proc == REMOVE || proc == RMDIR || proc == RENAME {
        thrown := RemoveCall(proc);
      } else {
        thrown := ListCall(proc);
      }
    }

    /** CNFSProg::Process and CNFS3Prog::Process. */
    method Process(vers: U32, proc: U32) returns (result: Prc)
      requires Valid()
      modifies this`state, codec.stream`inIndex, codec.stream`outIndex, codec.stream`outSize, codec.stream.outBuffer
      ensures Valid()
      ensures var done := Nfs(host, old(state), vers, proc, old(Rest()));
              && result == done.result && state == done.state
              && done.consumed <= |old(Rest())| && Rest() == old(Rest())[done.consumed..]
              && Output() == Fit(old(Output()) + done.body, MAXDATA)
    {
      hide DecArgs, EncAll, EncDatum, ResultData;
      ghost var input, output := Rest(), Output();
      assert output + [] == output && input[0..] == input;
      if vers != NFS_VERSION || proc >= PROCEDURES {
        return PRC_NOTIMP;
      }
      var thrown := Call(proc);
      if DecArgs(proc, input).Got? { ArgsShrink(proc, input); }
      assert |Rest()| <= |input| ==> Rest() == input[|input| - |Rest()|..];
      result := if thrown then PRC_FAIL else PRC_OK;
    }
  }

  lemma NothingBehind(o: Bytes)
    requires |o| <= MAXDATA
    ensures Behind(o, []) == o
  {
    assert o + [] == o;
  }

  lemma BehindTwice(o: Bytes, xs: seq<Datum>, ys: seq<Datum>)
    ensures Behind(Behind(o, xs), ys) == Behind(o, xs + ys)
  {
    AllConcat(EncDatum, xs, ys);
    FitInPieces(o, EncAll(EncDatum, xs), EncAll(EncDatum, ys));
  }

  lemma {:induction false} EntriesConcat(plus: bool, a: seq<Entry<About>>, b: seq<Entry<About>>)
    ensures EntriesData(plus, a + b) == EntriesData(plus, a) + EntriesData(plus, b)
  {
    if a == [] {
      assert a + b == b;
    } else {
      assert (a + b)[1..] == a[1..] + b;
      EntriesConcat(plus, a[1..], b);
    }
  }

  lemma EntriesSnoc(plus: bool, es: seq<Entry<About>>, i: nat)
    requires i < |es|
    ensures EntriesData(plus, es[..i + 1]) == EntriesData(plus, es[..i]) + EntryData(plus, es[i])
  {
    assert es[..i + 1] == es[..i] + [es[i]];
    EntriesConcat(plus, es[..i], [es[i]]);
    assert EntriesData(plus, [es[i]]) == EntryData(plus, es[i]) + EntriesData(plus, []);
  }
}
