/** The Read and Write overloads of src/NFS3Prog.cpp over the streams. Reading does to the stream
    exactly what the decoder functions do to a byte sequence, writing appends the encodings. */
module Codecs {
  import opened Nodes
  import opened Wire
  import opened Arguments
  import opened Results
  import opened SocketStreams

  /** What a method with a `throw` in it ends with. */
  datatype Outcome<+T> = Thrown | Value(value: T) {
    predicate IsFailure() { Thrown? }
    function PropagateFailure<U>(): Outcome<U>
      requires Thrown?
    { Thrown }
    function Extract(): T
      requires Value?
    { value }
  }

  /** A reader ended as the decoder says; after a throw nothing is left to read. */
  predicate Reads<T(==)>(outcome: Outcome<T>, rest: Bytes, decoded: Parsed<T>) {
    match decoded
    case Fail => outcome == Thrown && rest == []
    case Got(v, r) => outcome == Value(v) && rest == r
  }

  /** Data short enough for the 32-bit cursor arithmetic of Write. */
  predicate Countable(x: Datum) {
    && (x.Opaque? ==> |x.d| + MAXDATA < 0x1_0000_0000)
    && (x.PostOpFh3? && x.h.Some? ==> |x.h.value| + MAXDATA < 0x1_0000_0000)
  }

  lemma {:induction false} AllConcat<X>(enc: X -> Bytes, xs: seq<X>, ys: seq<X>)
    ensures EncAll(enc, xs + ys) == EncAll(enc, xs) + EncAll(enc, ys)
  {
    if xs == [] {
      assert xs + ys == ys;
    } else {
      assert (xs + ys)[1..] == xs[1..] + ys;
      AllConcat(enc, xs[1..], ys);
    }
  }

  lemma AllSnoc<X>(enc: X -> Bytes, xs: seq<X>, i: nat)
    requires i < |xs|
    ensures EncAll(enc, xs[..i + 1]) == EncAll(enc, xs[..i]) + enc(xs[i])
  {
    assert xs[..i + 1] == xs[..i] + [xs[i]];
    AllConcat(enc, xs[..i], [xs[i]]);
    assert EncAll(enc, [xs[i]]) == enc(xs[i]) + EncAll(enc, []);
  }

  class Codec {
    const stream: SocketStream

    ghost predicate Valid()
      reads this, stream
    {
      stream.Valid()
    }

    ghost function Rest(): Bytes
      requires Valid()
      reads this, stream, stream.inBuffer
    {
      stream.Rest()
    }

    constructor (s: SocketStream)
      requires s.Valid()
      ensures stream == s && Valid()
    {
      stream := s;
    }

    // ---------------------------------------------------------------- arguments

    method ReadUint32() returns (r: Outcome<U32>)
      requires Valid()
      modifies stream`inIndex
      ensures Valid() && Reads(r, Rest(), DecU32(old(Rest())))
    {
      var n, value := stream.ReadWord();
      if n < 4 { return Thrown; }
      return Value(value);
    }

    method ReadUint64() returns (r: Outcome<U64>)
      requires Valid()
      modifies stream`inIndex
      ensures Valid() && Reads(r, Rest(), DecU64(old(Rest())))
    {
      var n, value := stream.Read8();
      if n < 8 { return Thrown; }
      return Value(value);
    }

    method ReadBool() returns (r: Outcome<bool>)
      requires Valid()
      modifies stream`inIndex
      ensures Valid() && Reads(r, Rest(), DecBool(old(Rest())))
    {
      var b :- ReadUint32();
      return Value(b == 1);
    }

    method ReadContents(len: U32) returns (r: Outcome<Short>)
      requires Valid()
      modifies stream`inIndex
      ensures Valid()
      ensures r == if len <= |old(Rest())| then Value(old(Rest())[..len]) else Thrown
      ensures Rest() == if len <= |old(Rest())| then old(Rest())[len..] else []
    {
      var contents := new Byte[len];
      var n := stream.Read(contents, len);
      if n < len { return Thrown; }
      assert contents[..] == contents[..len];
      return Value(contents[..]);
    }

    /** The fill bytes behind len bytes of an opaque. */
    method ReadFill(len: U32) returns (r: Outcome<()>)
      requires Valid()
      modifies stream`inIndex
      ensures Valid()
      ensures r == if Padding(len) <= |old(Rest())| then Value(()) else Thrown
      ensures Rest() == if Padding(len) <= |old(Rest())| then old(Rest())[Padding(len)..] else []
    {
      var fill := 4 - len % 4;
      if fill != 4 {
        var byte := new Byte[4];
        var n := stream.Read(byte, fill);
        if n < fill { return Thrown; }
      }
      return Value(());
    }

    method ReadOpaque() returns (r: Outcome<Short>)
      requires Valid()
      modifies stream`inIndex
      ensures Valid() && Reads(r, Rest(), DecOpaque(old(Rest())))
    {
      hide DecOpaque, DecU32, EncOpaque, Padding;
      OpaqueParts(Rest());
      var len :- ReadUint32();
      var contents :- ReadContents(len);
      var filled :- ReadFill(len);
      return Value(contents);
    }

    method ReadTime() returns (r: Outcome<NfsTime3>)
      requires Valid()
      modifies stream`inIndex
      ensures Valid() && Reads(r, Rest(), DecTime(old(Rest())))
    {
      var seconds :- ReadUint32();
      var nseconds :- ReadUint32();
      return Value(NfsTime3(seconds, nseconds));
    }

    /** set_mode3, set_uid3 and set_gid3. */
    method ReadSet32() returns (r: Outcome<Option<U32>>)
      requires Valid()
      modifies stream`inIndex
      ensures Valid() && Reads(r, Rest(), DecSet32(old(Rest())))
    {
      var setIt :- ReadBool();
      if setIt {
        var value :- ReadUint32();
        return Value(Some(value));
      }
      return Value(None);
    }

    /** set_size3. */
    method ReadSet64() returns (r: Outcome<Option<U64>>)
      requires Valid()
      modifies stream`inIndex
      ensures Valid() && Reads(r, Rest(), DecSet64(old(Rest())))
    {
      var setIt :- ReadBool();
      if setIt {
        var value :- ReadUint64();
        return Value(Some(value));
      }
      return Value(None);
    }

    /** set_atime and set_mtime. */
    method ReadSetTime() returns (r: Outcome<SetTime>)
      requires Valid()
      modifies stream`inIndex
      ensures Valid() && Reads(r, Rest(), DecSetTime(old(Rest())))
    {
      var setIt :- ReadUint32();
      if setIt == SET_TO_CLIENT_TIME {
        var time :- ReadTime();
        return Value(ClientTime(time));
      }
      return Value(Other(setIt));
    }

    method ReadSattr3() returns (r: Outcome<Sattr3>)
      requires Valid()
      modifies stream`inIndex
      ensures Valid() && Reads(r, Rest(), DecSattr3(old(Rest())))
    {
      var mode :- ReadSet32();
      var uid :- ReadSet32();
      var gid :- ReadSet32();
      var size :- ReadSet64();
      var atime :- ReadSetTime();
      var mtime :- ReadSetTime();
      return Value(Sattr3(mode, uid, gid, size, atime, mtime));
    }

    method ReadSattrguard3() returns (r: Outcome<Sattrguard3>)
      requires Valid()
      modifies stream`inIndex
      ensures Valid() && Reads(r, Rest(), DecGuard(old(Rest())))
    {
      var check :- ReadBool();
      if check {
        var objCtime :- ReadTime();
        return Value(Sattrguard3(Some(objCtime)));
      }
      return Value(Sattrguard3(None));
    }

    method ReadDiropargs3() returns (r: Outcome<Diropargs3>)
      requires Valid()
      modifies stream`inIndex
      ensures Valid() && Reads(r, Rest(), DecDirop(old(Rest())))
    {
      var dir :- ReadOpaque();
      var name :- ReadOpaque();
      return Value(Diropargs3(dir, name));
    }

    method ReadCreatehow3() returns (r: Outcome<Createhow3>)
      requires Valid()
      modifies stream`inIndex
      ensures Valid() && Reads(r, Rest(), DecHow(old(Rest())))
    {
      var mode :- ReadUint32();
      if mode == UNCHECKED || mode == GUARDED {
        var attributes :- ReadSattr3();
        return Value(WithAttributes(mode == GUARDED, attributes));
      } else {
        var verf :- ReadUint64();
        return Value(WithVerifier(mode, verf));
      }
    }

    method ReadSymlinkdata3() returns (r: Outcome<Symlinkdata3>)
      requires Valid()
      modifies stream`inIndex
      ensures Valid() && Reads(r, Rest(), DecSymlink(old(Rest())))
    {
      var attributes :- ReadSattr3();
      var path :- ReadOpaque();
      return Value(Symlinkdata3(attributes, path));
    }

    // ---------------------------------------------------------------- results

    ghost function Output(): Bytes
      requires Valid()
      reads this, stream, stream.outBuffer
    {
      stream.Output()
    }

    method WriteUint32(n: U32)
      requires Valid() && stream.AtEnd()
      modifies stream`outIndex, stream`outSize, stream.outBuffer
      ensures Valid() && stream.AtEnd() && Output() == Fit(old(Output()) + EncU32(n), MAXDATA)
    {
      stream.WriteWord(n);
    }

    method WriteUint64(n: U64)
      requires Valid() && stream.AtEnd()
      modifies stream`outIndex, stream`outSize, stream.outBuffer
      ensures Valid() && stream.AtEnd() && Output() == Fit(old(Output()) + EncU64(n), MAXDATA)
    {
      stream.Write8(n);
    }

    method WriteBool(b: bool)
      requires Valid() && stream.AtEnd()
      modifies stream`outIndex, stream`outSize, stream.outBuffer
      ensures Valid() && stream.AtEnd() && Output() == Fit(old(Output()) + EncBool(b), MAXDATA)
    {
      stream.WriteWord(if b then 1 else 0);
    }

    method WriteContents(d: Bytes)
      requires Valid() && stream.AtEnd() && |d| + MAXDATA < 0x1_0000_0000
      modifies stream`outIndex, stream`outSize, stream.outBuffer
      ensures Valid() && stream.AtEnd() && Output() == Fit(old(Output()) + d, MAXDATA)
    {
      stream.Write(d);
    }

    /** The fill bytes behind length bytes of an opaque. */
    method WriteFill(length: U32)
      requires Valid() && stream.AtEnd()
      modifies stream`outIndex, stream`outSize, stream.outBuffer
      ensures Valid() && stream.AtEnd() && Output() == Fit(old(Output()) + Zeros(Padding(length)), MAXDATA)
    {
      var len := length % 4;
      if len != 0 {
        stream.Write(Zeros(4 - len));
      } else {
        assert Output() + Zeros(0) == Output();
      }
    }

    method WriteOpaque(d: Short)
      requires Valid() && stream.AtEnd() && |d| + MAXDATA < 0x1_0000_0000
      modifies stream`outIndex, stream`outSize, stream.outBuffer
      ensures Valid() && stream.AtEnd() && Output() == Fit(old(Output()) + EncOpaque(d), MAXDATA)
    {
      ghost var o := Output();
      WriteUint32(|d|);
      ghost var o1 := Output();
      WriteContents(d);
      WriteFill(|d|);
      FitInPieces(o1, d, Zeros(Padding(|d|)));
      FitInPieces(o, EncU32(|d|), d + Zeros(Padding(|d|)));
      assert EncOpaque(d) == EncU32(|d|) + (d + Zeros(Padding(|d|)));
    }

    method WriteTime(t: NfsTime3)
      requires Valid() && stream.AtEnd()
      modifies stream`outIndex, stream`outSize, stream.outBuffer
      ensures Valid() && stream.AtEnd() && Output() == Fit(old(Output()) + EncTime(t), MAXDATA)
    {
      ghost var o := Output();
      WriteUint32(t.seconds);
      WriteUint32(t.nseconds);
      FitInPieces(o, EncU32(t.seconds), EncU32(t.nseconds));
    }

    method WriteSpec(s: Specdata3)
      requires Valid() && stream.AtEnd()
      modifies stream`outIndex, stream`outSize, stream.outBuffer
      ensures Valid() && stream.AtEnd() && Output() == Fit(old(Output()) + EncSpec(s), MAXDATA)
    {
      ghost var o := Output();
      WriteUint32(s.specdata1);
      WriteUint32(s.specdata2);
      FitInPieces(o, EncU32(s.specdata1), EncU32(s.specdata2));
    }

    method WriteFattrHead(a: Fattr3)
      requires Valid() && stream.AtEnd()
      modifies stream`outIndex, stream`outSize, stream.outBuffer
      ensures Valid() && stream.AtEnd() && Output() == Fit(old(Output()) + EncFattrHead(a), MAXDATA)
    {
      ghost var o := Output();
      WriteUint32(a.ftype);
      ghost var o1 := Output();
      WriteUint32(a.mode);
      ghost var o2 := Output();
      WriteUint32(a.nlink);
      ghost var o3 := Output();
      WriteUint32(a.uid);
      WriteUint32(a.gid);
      FitInPieces(o3, EncU32(a.uid), EncU32(a.gid));
      FitInPieces(o2, EncU32(a.nlink), EncU32(a.uid) + EncU32(a.gid));
      FitInPieces(o1, EncU32(a.mode), EncU32(a.nlink) + (EncU32(a.uid) + EncU32(a.gid)));
      FitInPieces(o, EncU32(a.ftype), EncU32(a.mode) + (EncU32(a.nlink) + (EncU32(a.uid) + EncU32(a.gid))));
    }

    method WriteFattrSizes(a: Fattr3)
      requires Valid() && stream.AtEnd()
      modifies stream`outIndex, stream`outSize, stream.outBuffer
      ensures Valid() && stream.AtEnd() && Output() == Fit(old(Output()) + EncFattrSizes(a), MAXDATA)
    {
      ghost var o := Output();
      WriteUint64(a.size);
      ghost var o1 := Output();
      WriteUint64(a.used);
      ghost var o2 := Output();
      WriteSpec(a.rdev);
      ghost var o3 := Output();
      WriteUint64(a.fsid);
      WriteUint64(a.fileid);
      FitInPieces(o3, EncU64(a.fsid), EncU64(a.fileid));
      FitInPieces(o2, EncSpec(a.rdev), EncU64(a.fsid) + EncU64(a.fileid));
      FitInPieces(o1, EncU64(a.used), EncSpec(a.rdev) + (EncU64(a.fsid) + EncU64(a.fileid)));
      FitInPieces(o, EncU64(a.size), EncU64(a.used) + (EncSpec(a.rdev) + (EncU64(a.fsid) + EncU64(a.fileid))));
    }

    method WriteFattrTimes(a: Fattr3)
      requires Valid() && stream.AtEnd()
      modifies stream`outIndex, stream`outSize, stream.outBuffer
      ensures Valid() && stream.AtEnd() && Output() == Fit(old(Output()) + EncFattrTimes(a), MAXDATA)
    {
      ghost var o := Output();
      WriteTime(a.atime);
      ghost var o1 := Output();
      WriteTime(a.mtime);
      WriteTime(a.ctime);
      FitInPieces(o1, EncTime(a.mtime), EncTime(a.ctime));
      FitInPieces(o, EncTime(a.atime), EncTime(a.mtime) + EncTime(a.ctime));
    }

    method WriteFattr3(a: Fattr3)
      requires Valid() && stream.AtEnd()
      modifies stream`outIndex, stream`outSize, stream.outBuffer
      ensures Valid() && stream.AtEnd() && Output() == Fit(old(Output()) + EncFattr3(a), MAXDATA)
    {
      ghost var o := Output();
      WriteFattrHead(a);
      ghost var o1 := Output();
      WriteFattrSizes(a);
      WriteFattrTimes(a);
      FitInPieces(o1, EncFattrSizes(a), EncFattrTimes(a));
      FitInPieces(o, EncFattrHead(a), EncFattrSizes(a) + EncFattrTimes(a));
    }

    method WriteWccAttr(w: WccAttr)
      requires Valid() && stream.AtEnd()
      modifies stream`outIndex, stream`outSize, stream.outBuffer
      ensures Valid() && stream.AtEnd() && Output() == Fit(old(Output()) + EncWccAttr(w), MAXDATA)
    {
      ghost var o := Output();
      WriteUint64(w.size);
      ghost var o1 := Output();
      WriteTime(w.mtime);
      WriteTime(w.ctime);
      FitInPieces(o1, EncTime(w.mtime), EncTime(w.ctime));
      FitInPieces(o, EncU64(w.size), EncTime(w.mtime) + EncTime(w.ctime));
    }

    method WritePreOpAttr(p: Option<WccAttr>)
      requires Valid() && stream.AtEnd()
      modifies stream`outIndex, stream`outSize, stream.outBuffer
      ensures Valid() && stream.AtEnd() && Output() == Fit(old(Output()) + EncPreOp(p), MAXDATA)
    {
      ghost var o := Output();
      WriteBool(p.Some?);
      if p.Some? {
        WriteWccAttr(p.value);
        FitInPieces(o, EncBool(true), EncWccAttr(p.value));
      }
    }

    method WritePostOpAttr(p: Option<Fattr3>)
      requires Valid() && stream.AtEnd()
      modifies stream`outIndex, stream`outSize, stream.outBuffer
      ensures Valid() && stream.AtEnd() && Output() == Fit(old(Output()) + EncPostOp(p), MAXDATA)
    {
      ghost var o := Output();
      WriteBool(p.Some?);
      if p.Some? {
        WriteFattr3(p.value);
        FitInPieces(o, EncBool(true), EncFattr3(p.value));
      }
    }

    method WritePostOpFh3(h: Option<Short>)
      requires Valid() && stream.AtEnd()
      requires h.Some? ==> |h.value| + MAXDATA < 0x1_0000_0000
      modifies stream`outIndex, stream`outSize, stream.outBuffer
      ensures Valid() && stream.AtEnd() && Output() == Fit(old(Output()) + EncPostFh(h), MAXDATA)
    {
      ghost var o := Output();
      WriteBool(h.Some?);
      if h.Some? {
        WriteOpaque(h.value);
        FitInPieces(o, EncBool(true), EncOpaque(h.value));
      }
    }

    method WriteWcc(w: WccData)
      requires Valid() && stream.AtEnd()
      modifies stream`outIndex, stream`outSize, stream.outBuffer
      ensures Valid() && stream.AtEnd() && Output() == Fit(old(Output()) + EncWcc(w), MAXDATA)
    {
      ghost var o := Output();
      WritePreOpAttr(w.before);
      WritePostOpAttr(w.after);
      FitInPieces(o, EncPreOp(w.before), EncPostOp(w.after));
    }

    method WriteDatum(x: Datum)
      requires Valid() && stream.AtEnd() && Countable(x)
      modifies stream`outIndex, stream`outSize, stream.outBuffer
      ensures Valid() && stream.AtEnd() && Output() == Fit(old(Output()) + EncDatum(x), MAXDATA)
    {
      hide EncOpaque, EncTime, EncFattr3, EncWcc, EncPostOp, EncPostFh, EncU32, EncU64, EncBool, Fit;
      match x
      case Bool(b) => WriteBool(b);
      case Uint32(n) => WriteUint32(n);
      case Uint64(m) => WriteUint64(m);
      case Opaque(d) => WriteOpaque(d);
      case Time(t) => WriteTime(t);
      case Fattr(a) => WriteFattr3(a);
      case Wcc(w) => WriteWcc(w);
      case PostOpAttr(p) => WritePostOpAttr(p);
      case PostOpFh3(h) => WritePostOpFh3(h);
    }

    method WriteData(xs: seq<Datum>)
      requires Valid() && stream.AtEnd()
      requires forall i :: 0 <= i < |xs| ==> Countable(xs[i])
      modifies stream`outIndex, stream`outSize, stream.outBuffer
      ensures Valid() && stream.AtEnd()
      ensures Output() == Fit(old(Output()) + EncAll(EncDatum, xs), MAXDATA)
    {
      ghost var o := Output();
      var i := 0;
      assert o + EncAll(EncDatum, xs[..0]) == o;
      while i < |xs|
        invariant 0 <= i <= |xs|
        invariant Valid() && stream.AtEnd()
        invariant Output() == Fit(o + EncAll(EncDatum, xs[..i]), MAXDATA)
      {
        WriteDatum(xs[i]);
        AllSnoc(EncDatum, xs, i);
        FitInPieces(o, EncAll(EncDatum, xs[..i]), EncDatum(xs[i]));
        i := i + 1;
      }
      assert xs[..|xs|] == xs;
    }

    /** A result written value by value that fits the buffer is on the wire as a client will read
        it back, and the write position is a multiple of four again. */
    method WriteResult(xs: seq<Datum>)
      requires Valid() && stream.AtEnd()
      requires forall i :: 0 <= i < |xs| ==> Countable(xs[i])
      requires |Output()| + |EncAll(EncDatum, xs)| <= MAXDATA
      modifies stream`outIndex, stream`outSize, stream.outBuffer
      ensures Valid() && stream.AtEnd()
      ensures |old(Output())| <= |Output()| && Output()[..|old(Output())|] == old(Output())
      ensures DecAll(DecDatum, Kinds(xs), Output()[|old(Output())|..]) == Got(xs, [])
      ensures (stream.outIndex - old(stream.outIndex)) % 4 == 0
    {
      hide EncDatum, DecDatum, EncAll, DecAll, Kinds;
      ghost var o, e := Output(), EncAll(EncDatum, xs);
      WriteData(xs);
      DataRoundTrip(xs, []);
      DataAligned(xs);
      assert (o + e)[|o|..] == e == e + [];
    }
  }
}
