/** The result types of RFC 1813 that src/NFS3Prog.cpp writes. Any sequence of values it writes
    parses back to itself, and every value keeps the stream aligned to four bytes. */
module Results {
  import opened Nodes
  import opened Wire
  import opened Arguments

  datatype Specdata3 = Specdata3(specdata1: U32, specdata2: U32)

  datatype Fattr3 = Fattr3(ftype: U32, mode: U32, nlink: U32, uid: U32, gid: U32, size: U64, used: U64,
                           rdev: Specdata3, fsid: U64, fileid: U64, atime: NfsTime3, mtime: NfsTime3, ctime: NfsTime3)

  datatype WccAttr = WccAttr(size: U64, mtime: NfsTime3, ctime: NfsTime3)

  datatype WccData = WccData(before: Option<WccAttr>, after: Option<Fattr3>)

  /** A value some procedure writes to its result. */
  datatype Datum =
    | Bool(b: bool)
    | Uint32(n: U32)
    | Uint64(m: U64)
    | Opaque(d: Short)
    | Time(t: NfsTime3)
    | Fattr(a: Fattr3)
    | Wcc(w: WccData)
    | PostOpAttr(p: Option<Fattr3>)
    | PostOpFh3(h: Option<Short>)

  datatype Kind = KBool | KUint32 | KUint64 | KOpaque | KTime | KFattr | KWcc | KPostOpAttr | KPostOpFh3

  function KindOf(x: Datum): Kind {
    match x
    case Bool(_) => KBool case Uint32(_) => KUint32 case Uint64(_) => KUint64 case Opaque(_) => KOpaque
    case Time(_) => KTime case Fattr(_) => KFattr case Wcc(_) => KWcc
    case PostOpAttr(_) => KPostOpAttr case PostOpFh3(_) => KPostOpFh3
  }

  // ---------------------------------------------------------------- what is written

  function EncSpec(s: Specdata3): (r: Bytes)
    ensures |r| == 8
  {
    EncU32(s.specdata1) + EncU32(s.specdata2)
  }

  /** The first five fields of fattr3, its four 64-bit fields with rdev between them, its times. */
  function EncFattrHead(a: Fattr3): (r: Bytes)
    ensures |r| == 20
  {
    EncU32(a.ftype) + (EncU32(a.mode) + (EncU32(a.nlink) + (EncU32(a.uid) + EncU32(a.gid))))
  }

  function EncFattrSizes(a: Fattr3): (r: Bytes)
    ensures |r| == 40
  {
    EncU64(a.size) + (EncU64(a.used) + (EncSpec(a.rdev) + (EncU64(a.fsid) + EncU64(a.fileid))))
  }

  function EncFattrTimes(a: Fattr3): (r: Bytes)
    ensures |r| == 24
  {
    EncTime(a.atime) + (EncTime(a.mtime) + EncTime(a.ctime))
  }

  function EncFattr3(a: Fattr3): (r: Bytes)
    ensures |r| == 84
  {
    EncFattrHead(a) + (EncFattrSizes(a) + EncFattrTimes(a))
  }

  function EncWccAttr(w: WccAttr): (r: Bytes)
    ensures |r| == 24
  {
    EncU64(w.size) + (EncTime(w.mtime) + EncTime(w.ctime))
  }

  function EncPreOp(o: Option<WccAttr>): (r: Bytes)
    ensures |r| % 4 == 0
  {
    match o case None => EncBool(false) case Some(w) => EncBool(true) + EncWccAttr(w)
  }

  function EncPostOp(o: Option<Fattr3>): (r: Bytes)
    ensures |r| % 4 == 0
  {
    match o case None => EncBool(false) case Some(a) => EncBool(true) + EncFattr3(a)
  }

  function EncPostFh(o: Option<Short>): (r: Bytes)
    ensures |r| % 4 == 0
  {
    match o case None => EncBool(false) case Some(h) => EncBool(true) + EncOpaque(h)
  }

  function EncWcc(w: WccData): (r: Bytes)
    ensures |r| % 4 == 0
  {
    EncPreOp(w.before) + EncPostOp(w.after)
  }

  function EncDatum(x: Datum): Bytes
  {
    match x
    case Bool(b) => EncBool(b)
    case Uint32(n) => EncU32(n)
    case Uint64(m) => EncU64(m)
    case Opaque(d) => EncOpaque(d)
    case Time(t) => EncTime(t)
    case Fattr(a) => EncFattr3(a)
    case Wcc(w) => EncWcc(w)
    case PostOpAttr(p) => EncPostOp(p)
    case PostOpFh3(h) => EncPostFh(h)
  }

  // ---------------------------------------------------------------- how a client reads it

  function DecSpec(s: Bytes): (p: Parsed<Specdata3>)
    ensures p.Got? ==> |s| == 8 + |p.rest|
  {
    var (a, r) :- DecU32(s);
    var (b, r) :- DecU32(r);
    Got(Specdata3(a, b), r)
  }

  function DecFattrHead(s: Bytes): (p: Parsed<(U32, U32, U32, U32, U32)>)
    ensures p.Got? ==> |s| == 20 + |p.rest|
  {
    var (ftype, r) :- DecU32(s);
    var (mode, r) :- DecU32(r);
    var (nlink, r) :- DecU32(r);
    var (uid, r) :- DecU32(r);
    var (gid, r) :- DecU32(r);
    Got((ftype, mode, nlink, uid, gid), r)
  }

  function DecFattrSizes(s: Bytes): (p: Parsed<(U64, U64, Specdata3, U64, U64)>)
    ensures p.Got? ==> |s| == 40 + |p.rest|
  {
    var (size, r) :- DecU64(s);
    var (used, r) :- DecU64(r);
    var (rdev, r) :- DecSpec(r);
    var (fsid, r) :- DecU64(r);
    var (fileid, r) :- DecU64(r);
    Got((size, used, rdev, fsid, fileid), r)
  }

  function DecFattrTimes(s: Bytes): (p: Parsed<(NfsTime3, NfsTime3, NfsTime3)>)
    ensures p.Got? ==> |s| == 24 + |p.rest|
  {
    var (atime, r) :- DecTime(s);
    var (mtime, r) :- DecTime(r);
    var (ctime, r) :- DecTime(r);
    Got((atime, mtime, ctime), r)
  }

  function DecFattr3(s: Bytes): (p: Parsed<Fattr3>)
    ensures p.Got? ==> |s| == 84 + |p.rest|
  {
    var (head, r) :- DecFattrHead(s);
    var (sizes, r) :- DecFattrSizes(r);
    var (times, r) :- DecFattrTimes(r);
    Got(Fattr3(head.0, head.1, head.2, head.3, head.4, sizes.0, sizes.1, sizes.2, sizes.3, sizes.4,
               times.0, times.1, times.2), r)
  }

  function DecWccAttr(s: Bytes): (p: Parsed<WccAttr>)
    ensures p.Got? ==> |s| == 24 + |p.rest|
  {
    var (size, r) :- DecU64(s);
    var (mtime, r) :- DecTime(r);
    var (ctime, r) :- DecTime(r);
    Got(WccAttr(size, mtime, ctime), r)
  }

  function DecPreOp(s: Bytes): (p: Parsed<Option<WccAttr>>)
    ensures p.Got? ==> |p.rest| < |s| == |EncPreOp(p.value)| + |p.rest|
  {
    var (follows, r) :- DecBool(s);
    if follows then
      var (w, r) :- DecWccAttr(r);
      Got(Some(w), r)
    else Got(None, r)
  }

  function DecPostOp(s: Bytes): (p: Parsed<Option<Fattr3>>)
    ensures p.Got? ==> |p.rest| < |s| == |EncPostOp(p.value)| + |p.rest|
  {
    var (follows, r) :- DecBool(s);
    if follows then
      var (a, r) :- DecFattr3(r);
      Got(Some(a), r)
    else Got(None, r)
  }

  function DecPostFh(s: Bytes): (p: Parsed<Option<Short>>)
    ensures p.Got? ==> |p.rest| < |s| == |EncPostFh(p.value)| + |p.rest|
  {
    var (follows, r) :- DecBool(s);
    if follows then
      var (h, r) :- DecOpaque(r);
      Got(Some(h), r)
    else Got(None, r)
  }

  function DecWcc(s: Bytes): (p: Parsed<WccData>)
    ensures p.Got? ==> |p.rest| < |s| == |EncWcc(p.value)| + |p.rest|
  {
    var (before, r) :- DecPreOp(s);
    var (after, r) :- DecPostOp(r);
    Got(WccData(before, after), r)
  }

  function FattrParsed(p: Parsed<Fattr3>): (q: Parsed<Datum>)
    ensures q.Got? ==> p.Got? && q.value == Fattr(p.value) && q.rest == p.rest
  {
    match p case Fail => Fail case Got(a, r) => Got(Fattr(a), r)
  }

  function DecDatum(k: Kind, s: Bytes): (p: Parsed<Datum>)
    ensures p.Got? ==> |p.rest| < |s|
  {
    match k
    case KBool => var (v, r) :- DecBool(s); Got(Bool(v), r)
    case KUint32 => var (v, r) :- DecU32(s); Got(Uint32(v), r)
    case KUint64 => var (v, r) :- DecU64(s); Got(Uint64(v), r)
    case KOpaque => var (v, r) :- DecOpaque(s); Got(Opaque(v), r)
    case KTime => var (v, r) :- DecTime(s); Got(Time(v), r)
    case KFattr => FattrParsed(DecFattr3(s))
    case KWcc => var (v, r) :- DecWcc(s); Got(Wcc(v), r)
    case KPostOpAttr => var (v, r) :- DecPostOp(s); Got(PostOpAttr(v), r)
    case KPostOpFh3 => var (v, r) :- DecPostFh(s); Got(PostOpFh3(v), r)
  }

  /** What is read has the kind that was asked for, and took as many bytes as it is encoded in. */
  lemma DatumRead(k: Kind, s: Bytes)
    ensures DecDatum(k, s).Got? ==>
              KindOf(DecDatum(k, s).value) == k && |s| == |EncDatum(DecDatum(k, s).value)| + |DecDatum(k, s).rest|
  {
    hide DecBool, DecU32, DecU64, DecTime, DecOpaque, DecFattr3, DecWcc, DecPostOp, DecPostFh;
    hide EncBool, EncU32, EncU64, EncTime, EncOpaque, EncFattr3, EncWcc, EncPostOp, EncPostFh;
    BoolSize(s);
    TimeSize(s);
  }

  lemma BoolSize(s: Bytes)
    ensures DecBool(s).Got? ==> |s| == |EncBool(DecBool(s).value)| + |DecBool(s).rest|
  {
  }

  lemma TimeSize(s: Bytes)
    ensures DecTime(s).Got? ==> |s| == |EncTime(DecTime(s).value)| + |DecTime(s).rest|
  {
  }

  function EncAll<X>(enc: X -> Bytes, xs: seq<X>): Bytes {
    if xs == [] then [] else enc(xs[0]) + EncAll(enc, xs[1..])
  }

  function DecAll<X, K>(dec: (K, Bytes) -> Parsed<X>, ks: seq<K>, s: Bytes): Parsed<seq<X>> {
    if ks == [] then Got([], s)
    else
      var (x, r) :- dec(ks[0], s);
      var (xs, r) :- DecAll(dec, ks[1..], r);
      Got([x] + xs, r)
  }

  // ---------------------------------------------------------------- round trips

  lemma SpecRoundTrip(d: Specdata3, rest: Bytes)
    ensures DecSpec(EncSpec(d) + rest) == Got(d, rest)
  {
    Assoc(EncU32(d.specdata1), EncU32(d.specdata2), rest);
    U32RoundTrip(d.specdata1, EncU32(d.specdata2) + rest);
    U32RoundTrip(d.specdata2, rest);
  }

  lemma FattrHeadRoundTrip(a: Fattr3, rest: Bytes)
    ensures DecFattrHead(EncFattrHead(a) + rest) == Got((a.ftype, a.mode, a.nlink, a.uid, a.gid), rest)
  {
    var t5 := EncU32(a.gid);
    var t4 := EncU32(a.uid) + t5;
    var t3 := EncU32(a.nlink) + t4;
    var t2 := EncU32(a.mode) + t3;
    Assoc(EncU32(a.ftype), t2, rest);
    Assoc(EncU32(a.mode), t3, rest);
    Assoc(EncU32(a.nlink), t4, rest);
    Assoc(EncU32(a.uid), t5, rest);
    U32RoundTrip(a.ftype, t2 + rest);
    U32RoundTrip(a.mode, t3 + rest);
    U32RoundTrip(a.nlink, t4 + rest);
    U32RoundTrip(a.uid, t5 + rest);
    U32RoundTrip(a.gid, rest);
  }

  lemma FattrSizesRoundTrip(a: Fattr3, rest: Bytes)
    ensures DecFattrSizes(EncFattrSizes(a) + rest) == Got((a.size, a.used, a.rdev, a.fsid, a.fileid), rest)
  {
    var t5 := EncU64(a.fileid);
    var t4 := EncU64(a.fsid) + t5;
    var t3 := EncSpec(a.rdev) + t4;
    var t2 := EncU64(a.used) + t3;
    Assoc(EncU64(a.size), t2, rest);
    Assoc(EncU64(a.used), t3, rest);
    Assoc(EncSpec(a.rdev), t4, rest);
    Assoc(EncU64(a.fsid), t5, rest);
    U64RoundTrip(a.size, t2 + rest);
    U64RoundTrip(a.used, t3 + rest);
    SpecRoundTrip(a.rdev, t4 + rest);
    U64RoundTrip(a.fsid, t5 + rest);
    U64RoundTrip(a.fileid, rest);
  }

  lemma FattrTimesRoundTrip(a: Fattr3, rest: Bytes)
    ensures DecFattrTimes(EncFattrTimes(a) + rest) == Got((a.atime, a.mtime, a.ctime), rest)
  {
    var t3 := EncTime(a.ctime);
    var t2 := EncTime(a.mtime) + t3;
    Assoc(EncTime(a.atime), t2, rest);
    Assoc(EncTime(a.mtime), t3, rest);
    TimeRoundTrip(a.atime, t2 + rest);
    TimeRoundTrip(a.mtime, t3 + rest);
    TimeRoundTrip(a.ctime, rest);
  }

  lemma Fattr3RoundTrip(a: Fattr3, rest: Bytes)
    ensures DecFattr3(EncFattr3(a) + rest) == Got(a, rest)
  {
    var head, sizes, times := EncFattrHead(a), EncFattrSizes(a), EncFattrTimes(a);
    Assoc(head, sizes + times, rest);
    Assoc(sizes, times, rest);
    FattrHeadRoundTrip(a, sizes + (times + rest));
    FattrSizesRoundTrip(a, times + rest);
    FattrTimesRoundTrip(a, rest);
  }

  lemma WccAttrRoundTrip(w: WccAttr, rest: Bytes)
    ensures DecWccAttr(EncWccAttr(w) + rest) == Got(w, rest)
  {
    var t2 := EncTime(w.mtime) + EncTime(w.ctime);
    Assoc(EncU64(w.size), t2, rest);
    Assoc(EncTime(w.mtime), EncTime(w.ctime), rest);
    U64RoundTrip(w.size, t2 + rest);
    TimeRoundTrip(w.mtime, EncTime(w.ctime) + rest);
    TimeRoundTrip(w.ctime, rest);
  }

  lemma PreOpRoundTrip(o: Option<WccAttr>, rest: Bytes)
    ensures DecPreOp(EncPreOp(o) + rest) == Got(o, rest)
  {
    match o
    case None => BoolRoundTrip(false, rest);
    case Some(w) =>
      Assoc(EncBool(true), EncWccAttr(w), rest);
      BoolRoundTrip(true, EncWccAttr(w) + rest);
      WccAttrRoundTrip(w, rest);
  }

  lemma PostOpRoundTrip(o: Option<Fattr3>, rest: Bytes)
    ensures DecPostOp(EncPostOp(o) + rest) == Got(o, rest)
  {
    match o
    case None => BoolRoundTrip(false, rest);
    case Some(a) =>
      Assoc(EncBool(true), EncFattr3(a), rest);
      BoolRoundTrip(true, EncFattr3(a) + rest);
      Fattr3RoundTrip(a, rest);
  }

  lemma PostFhRoundTrip(o: Option<Short>, rest: Bytes)
    ensures DecPostFh(EncPostFh(o) + rest) == Got(o, rest)
  {
    match o
    case None => BoolRoundTrip(false, rest);
    case Some(h) =>
      Assoc(EncBool(true), EncOpaque(h), rest);
      BoolRoundTrip(true, EncOpaque(h) + rest);
      OpaqueRoundTrip(h, rest);
  }

  lemma WccRoundTrip(w: WccData, rest: Bytes)
    ensures DecWcc(EncWcc(w) + rest) == Got(w, rest)
  {
    Assoc(EncPreOp(w.before), EncPostOp(w.after), rest);
    PreOpRoundTrip(w.before, EncPostOp(w.after) + rest);
    PostOpRoundTrip(w.after, rest);
  }

  lemma ScalarRoundTrip(x: Datum, rest: Bytes)
    requires x.Bool? || x.Uint32? || x.Uint64? || x.Opaque? || x.Time?
    ensures DecDatum(KindOf(x), EncDatum(x) + rest) == Got(x, rest)
  {
    match x
    case Bool(b) => BoolRoundTrip(b, rest);
    case Uint32(n) => U32RoundTrip(n, rest);
    case Uint64(m) => U64RoundTrip(m, rest);
    case Opaque(d) => OpaqueRoundTrip(d, rest);
    case Time(t) => TimeRoundTrip(t, rest);
  }

  lemma FattrRead(s: Bytes, a: Fattr3, rest: Bytes)
    requires DecFattr3(s) == Got(a, rest)
    ensures DecDatum(KFattr, s) == Got(Fattr(a), rest)
  {
    hide DecFattr3;
    assert DecDatum(KFattr, s) == FattrParsed(DecFattr3(s));
  }

  lemma FattrDatum(a: Fattr3, rest: Bytes)
    ensures DecDatum(KFattr, EncFattr3(a) + rest) == Got(Fattr(a), rest)
  {
    Fattr3RoundTrip(a, rest);
    FattrRead(EncFattr3(a) + rest, a, rest);
  }

  lemma WccRead(s: Bytes, w: WccData, rest: Bytes)
    requires DecWcc(s) == Got(w, rest)
    ensures DecDatum(KWcc, s) == Got(Wcc(w), rest)
  {
    hide DecWcc;
  }

  lemma WccDatum(w: WccData, rest: Bytes)
    ensures DecDatum(KWcc, EncWcc(w) + rest) == Got(Wcc(w), rest)
  {
    WccRoundTrip(w, rest);
    WccRead(EncWcc(w) + rest, w, rest);
  }

  lemma PostOpRead(s: Bytes, p: Option<Fattr3>, rest: Bytes)
    requires DecPostOp(s) == Got(p, rest)
    ensures DecDatum(KPostOpAttr, s) == Got(PostOpAttr(p), rest)
  {
    hide DecPostOp;
  }

  lemma PostOpDatum(p: Option<Fattr3>, rest: Bytes)
    ensures DecDatum(KPostOpAttr, EncPostOp(p) + rest) == Got(PostOpAttr(p), rest)
  {
    PostOpRoundTrip(p, rest);
    PostOpRead(EncPostOp(p) + rest, p, rest);
  }

  lemma PostFhRead(s: Bytes, h: Option<Short>, rest: Bytes)
    requires DecPostFh(s) == Got(h, rest)
    ensures DecDatum(KPostOpFh3, s) == Got(PostOpFh3(h), rest)
  {
    hide DecPostFh;
  }

  lemma PostFhDatum(h: Option<Short>, rest: Bytes)
    ensures DecDatum(KPostOpFh3, EncPostFh(h) + rest) == Got(PostOpFh3(h), rest)
  {
    PostFhRoundTrip(h, rest);
    PostFhRead(EncPostFh(h) + rest, h, rest);
  }

  lemma DatumRoundTrip(x: Datum, rest: Bytes)
    ensures DecDatum(KindOf(x), EncDatum(x) + rest) == Got(x, rest)
  {
    match x
    case Fattr(a) => FattrDatum(a, rest);
    case Wcc(w) => WccDatum(w, rest);
    case PostOpAttr(p) => PostOpDatum(p, rest);
    case PostOpFh3(h) => PostFhDatum(h, rest);
    case _ => ScalarRoundTrip(x, rest);
  }

  function Kinds(xs: seq<Datum>): (ks: seq<Kind>)
    ensures |ks| == |xs|
  {
    seq(|xs|, i requires 0 <= i < |xs| => KindOf(xs[i]))
  }

  lemma {:induction false} AllRoundTrip<X, K>(enc: X -> Bytes, dec: (K, Bytes) -> Parsed<X>, xs: seq<X>, ks: seq<K>, rest: Bytes)
    requires |ks| == |xs|
    requires forall i, r :: 0 <= i < |xs| ==> dec(ks[i], enc(xs[i]) + r) == Got(xs[i], r)
    ensures DecAll(dec, ks, EncAll(enc, xs) + rest) == Got(xs, rest)
  {
    if xs == [] {
      assert EncAll(enc, xs) + rest == rest;
    } else {
      var tail := EncAll(enc, xs[1..]);
      assert EncAll(enc, xs) + rest == enc(xs[0]) + (tail + rest);
      assert dec(ks[0], enc(xs[0]) + (tail + rest)) == Got(xs[0], tail + rest);
      forall i, r | 0 <= i < |xs[1..]|
        ensures dec(ks[1..][i], enc(xs[1..][i]) + r) == Got(xs[1..][i], r)
      {
        assert dec(ks[i + 1], enc(xs[i + 1]) + r) == Got(xs[i + 1], r);
      }
      AllRoundTrip(enc, dec, xs[1..], ks[1..], rest);
      assert xs == [xs[0]] + xs[1..];
    }
  }

  /** Any sequence of written values parses back to itself. */
  lemma DataRoundTrip(xs: seq<Datum>, rest: Bytes)
    ensures DecAll(DecDatum, Kinds(xs), EncAll(EncDatum, xs) + rest) == Got(xs, rest)
  {
    forall i, r | 0 <= i < |xs|
      ensures DecDatum(Kinds(xs)[i], EncDatum(xs[i]) + r) == Got(xs[i], r)
    {
      DatumRoundTrip(xs[i], r);
    }
    AllRoundTrip(EncDatum, DecDatum, xs, Kinds(xs), rest);
  }

  lemma DatumAligned(x: Datum)
    ensures |EncDatum(x)| % 4 == 0
  {
    match x
    case Opaque(d) => assert |EncOpaque(d)| == 4 + (|d| + Padding(|d|));
    case Time(t) => assert |EncTime(t)| == 8;
    case Wcc(w) => assert EncDatum(x) == EncWcc(w);
    case PostOpAttr(p) => assert EncDatum(x) == EncPostOp(p);
    case PostOpFh3(h) => assert EncDatum(x) == EncPostFh(h);
    case _ =>
  }

  lemma {:induction false} AllAligned<X>(enc: X -> Bytes, xs: seq<X>)
    requires forall i :: 0 <= i < |xs| ==> |enc(xs[i])| % 4 == 0
    ensures |EncAll(enc, xs)| % 4 == 0
  {
    if xs != [] {
      AllAligned(enc, xs[1..]);
    }
  }

  /** The write position stays a multiple of four. */
  lemma DataAligned(xs: seq<Datum>)
    ensures |EncAll(EncDatum, xs)| % 4 == 0
  {
    forall i | 0 <= i < |xs|
      ensures |EncDatum(xs[i])| % 4 == 0
    {
      DatumAligned(xs[i]);
    }
    AllAligned(EncDatum, xs);
  }
}
