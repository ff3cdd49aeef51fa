/** The argument types of RFC 1813 that src/NFS3Prog.cpp decodes. For each type: decoding an
    encoding gives the value back and stops exactly at the bytes behind it, more input never
    changes what was decoded, and so every strict prefix of an encoding makes the decoder throw. */
module Arguments {
  import opened Nodes
  import opened Wire

  datatype NfsTime3 = NfsTime3(seconds: U32, nseconds: U32)

  /** set_atime, set_mtime: a time follows only for SET_TO_CLIENT_TIME; any other discriminant is
      kept as it is. */
  datatype SetTime = ClientTime(time: NfsTime3) | Other(how: U32)

  const SET_TO_CLIENT_TIME := 2

  datatype Sattr3 = Sattr3(mode: Option<U32>, uid: Option<U32>, gid: Option<U32>, size: Option<U64>,
                           atime: SetTime, mtime: SetTime)

  datatype Sattrguard3 = Sattrguard3(objCtime: Option<NfsTime3>)

  datatype Diropargs3 = Diropargs3(dir: Short, name: Short)

  const UNCHECKED := 0
  const GUARDED := 1

  /** Every mode but UNCHECKED and GUARDED is followed by a verifier. */
  datatype Createhow3 = WithAttributes(guarded: bool, attributes: Sattr3) | WithVerifier(mode: U32, verf: U64)

  datatype Symlinkdata3 = Symlinkdata3(attributes: Sattr3, path: Short)

  predicate SetTimeOk(t: SetTime) {
    t.Other? ==> t.how != SET_TO_CLIENT_TIME
  }

  predicate Sattr3Ok(a: Sattr3) {
    SetTimeOk(a.atime) && SetTimeOk(a.mtime)
  }

  predicate CreatehowOk(h: Createhow3) {
    match h
    case WithAttributes(_, a) => Sattr3Ok(a)
    case WithVerifier(mode, _) => mode != UNCHECKED && mode != GUARDED
  }

  // ---------------------------------------------------------------- encodings of RFC 1813

  function EncTime(t: NfsTime3): Bytes {
    EncU32(t.seconds) + EncU32(t.nseconds)
  }

  function EncSet32(o: Option<U32>): Bytes {
    match o case None => EncBool(false) case Some(n) => EncBool(true) + EncU32(n)
  }

  function EncSet64(o: Option<U64>): Bytes {
    match o case None => EncBool(false) case Some(n) => EncBool(true) + EncU64(n)
  }

  function EncSetTime(t: SetTime): Bytes {
    match t case Other(how) => EncU32(how) case ClientTime(time) => EncU32(SET_TO_CLIENT_TIME) + EncTime(time)
  }

  function EncSattr3(a: Sattr3): Bytes {
    EncSet32(a.mode) + (EncSet32(a.uid) + (EncSet32(a.gid) + (EncSet64(a.size) + (EncSetTime(a.atime) + EncSetTime(a.mtime)))))
  }

  function EncGuard(g: Sattrguard3): Bytes {
    match g.objCtime case None => EncBool(false) case Some(t) => EncBool(true) + EncTime(t)
  }

  function EncDirop(d: Diropargs3): Bytes {
    EncOpaque(d.dir) + EncOpaque(d.name)
  }

  function EncHow(h: Createhow3): Bytes {
    match h
    case WithAttributes(guarded, a) => EncU32(if guarded then GUARDED else UNCHECKED) + EncSattr3(a)
    case WithVerifier(mode, verf) => EncU32(mode) + EncU64(verf)
  }

  function EncSymlink(s: Symlinkdata3): Bytes {
    EncSattr3(s.attributes) + EncOpaque(s.path)
  }

  // ---------------------------------------------------------------- the decoders of NFS3Prog.cpp

  function DecTime(s: Bytes): (p: Parsed<NfsTime3>)
    ensures p.Got? ==> |s| == 8 + |p.rest|
  {
    var (seconds, r) :- DecU32(s);
    var (nseconds, r) :- DecU32(r);
    Got(NfsTime3(seconds, nseconds), r)
  }

  function DecSet32(s: Bytes): (p: Parsed<Option<U32>>)
    ensures p.Got? ==> |p.rest| < |s|
  {
    var (given, r) :- DecBool(s);
    if given then
      var (n, r) :- DecU32(r);
      Got(Some(n), r)
    else Got(None, r)
  }

  function DecSet64(s: Bytes): (p: Parsed<Option<U64>>)
    ensures p.Got? ==> |p.rest| < |s|
  {
    var (given, r) :- DecBool(s);
    if given then
      var (n, r) :- DecU64(r);
      Got(Some(n), r)
    else Got(None, r)
  }

  function DecSetTime(s: Bytes): (p: Parsed<SetTime>)
    ensures p.Got? ==> |p.rest| < |s|
  {
    var (how, r) :- DecU32(s);
    if how == SET_TO_CLIENT_TIME then
      var (t, r) :- DecTime(r);
      Got(ClientTime(t), r)
    else Got(Other(how), r)
  }

  function DecSattr3(s: Bytes): (p: Parsed<Sattr3>)
    ensures p.Got? ==> |p.rest| < |s|
  {
    var (mode, r) :- DecSet32(s);
    var (uid, r) :- DecSet32(r);
    var (gid, r) :- DecSet32(r);
    var (size, r) :- DecSet64(r);
    var (atime, r) :- DecSetTime(r);
    var (mtime, r) :- DecSetTime(r);
    Got(Sattr3(mode, uid, gid, size, atime, mtime), r)
  }

  function DecGuard(s: Bytes): (p: Parsed<Sattrguard3>)
    ensures p.Got? ==> |p.rest| < |s|
  {
    var (check, r) :- DecBool(s);
    if check then
      var (t, r) :- DecTime(r);
      Got(Sattrguard3(Some(t)), r)
    else Got(Sattrguard3(None), r)
  }

  function DecDirop(s: Bytes): (p: Parsed<Diropargs3>)
    ensures p.Got? ==> |p.rest| < |s|
  {
    var (dir, r) :- DecOpaque(s);
    var (name, r) :- DecOpaque(r);
    Got(Diropargs3(dir, name), r)
  }

  function DecHow(s: Bytes): (p: Parsed<Createhow3>)
    ensures p.Got? ==> |p.rest| < |s|
  {
    var (mode, r) :- DecU32(s);
    if mode == UNCHECKED || mode == GUARDED then
      var (a, r) :- DecSattr3(r);
      Got(WithAttributes(mode == GUARDED, a), r)
    else
      var (verf, r) :- DecU64(r);
      Got(WithVerifier(mode, verf), r)
  }

  function DecSymlink(s: Bytes): (p: Parsed<Symlinkdata3>)
    ensures p.Got? ==> |p.rest| < |s|
  {
    var (a, r) :- DecSattr3(s);
    var (path, r) :- DecOpaque(r);
    Got(Symlinkdata3(a, path), r)
  }

  // ---------------------------------------------------------------- round trips

  lemma BoolRoundTrip(b: bool, rest: Bytes)
    ensures DecBool(EncBool(b) + rest) == Got(b, rest)
  {
    U32RoundTrip(if b then 1 else 0, rest);
  }

  lemma TimeRoundTrip(t: NfsTime3, rest: Bytes)
    ensures DecTime(EncTime(t) + rest) == Got(t, rest)
  {
    Assoc(EncU32(t.seconds), EncU32(t.nseconds), rest);
    U32RoundTrip(t.seconds, EncU32(t.nseconds) + rest);
    U32RoundTrip(t.nseconds, rest);
  }

  lemma Set32RoundTrip(o: Option<U32>, rest: Bytes)
    ensures DecSet32(EncSet32(o) + rest) == Got(o, rest)
  {
    match o
    case None => BoolRoundTrip(false, rest);
    case Some(n) =>
      Assoc(EncBool(true), EncU32(n), rest);
      BoolRoundTrip(true, EncU32(n) + rest);
      U32RoundTrip(n, rest);
  }

  lemma Set64RoundTrip(o: Option<U64>, rest: Bytes)
    ensures DecSet64(EncSet64(o) + rest) == Got(o, rest)
  {
    match o
    case None => BoolRoundTrip(false, rest);
    case Some(n) =>
      Assoc(EncBool(true), EncU64(n), rest);
      BoolRoundTrip(true, EncU64(n) + rest);
      U64RoundTrip(n, rest);
  }

  lemma SetTimeRoundTrip(t: SetTime, rest: Bytes)
    requires SetTimeOk(t)
    ensures DecSetTime(EncSetTime(t) + rest) == Got(t, rest)
  {
    match t
    case Other(how) => U32RoundTrip(how, rest);
    case ClientTime(time) =>
      Assoc(EncU32(SET_TO_CLIENT_TIME), EncTime(time), rest);
      U32RoundTrip(SET_TO_CLIENT_TIME, EncTime(time) + rest);
      TimeRoundTrip(time, rest);
  }

  lemma Sattr3RoundTrip(a: Sattr3, rest: Bytes)
    requires Sattr3Ok(a)
    ensures DecSattr3(EncSattr3(a) + rest) == Got(a, rest)
  {
    var t6 := EncSetTime(a.mtime);
    var t5 := EncSetTime(a.atime) + t6;
    var t4 := EncSet64(a.size) + t5;
    var t3 := EncSet32(a.gid) + t4;
    var t2 := EncSet32(a.uid) + t3;
    Assoc(EncSet32(a.mode), t2, rest);
    Assoc(EncSet32(a.uid), t3, rest);
    Assoc(EncSet32(a.gid), t4, rest);
    Assoc(EncSet64(a.size), t5, rest);
    Assoc(EncSetTime(a.atime), t6, rest);
    Set32RoundTrip(a.mode, t2 + rest);
    Set32RoundTrip(a.uid, t3 + rest);
    Set32RoundTrip(a.gid, t4 + rest);
    Set64RoundTrip(a.size, t5 + rest);
    SetTimeRoundTrip(a.atime, t6 + rest);
    SetTimeRoundTrip(a.mtime, rest);
  }

  lemma GuardRoundTrip(g: Sattrguard3, rest: Bytes)
    ensures DecGuard(EncGuard(g) + rest) == Got(g, rest)
  {
    match g.objCtime
    case None => BoolRoundTrip(false, rest);
    case Some(t) =>
      Assoc(EncBool(true), EncTime(t), rest);
      BoolRoundTrip(true, EncTime(t) + rest);
      TimeRoundTrip(t, rest);
  }

  lemma DiropRoundTrip(d: Diropargs3, rest: Bytes)
    ensures DecDirop(EncDirop(d) + rest) == Got(d, rest)
  {
    Assoc(EncOpaque(d.dir), EncOpaque(d.name), rest);
    OpaqueRoundTrip(d.dir, EncOpaque(d.name) + rest);
    OpaqueRoundTrip(d.name, rest);
  }

  lemma HowRoundTrip(h: Createhow3, rest: Bytes)
    requires CreatehowOk(h)
    ensures DecHow(EncHow(h) + rest) == Got(h, rest)
  {
    match h
    case WithAttributes(guarded, a) =>
      var mode := if guarded then GUARDED else UNCHECKED;
      Assoc(EncU32(mode), EncSattr3(a), rest);
      U32RoundTrip(mode, EncSattr3(a) + rest);
      Sattr3RoundTrip(a, rest);
    case WithVerifier(mode, verf) =>
      Assoc(EncU32(mode), EncU64(verf), rest);
      U32RoundTrip(mode, EncU64(verf) + rest);
      U64RoundTrip(verf, rest);
  }

  lemma SymlinkRoundTrip(s: Symlinkdata3, rest: Bytes)
    requires Sattr3Ok(s.attributes)
    ensures DecSymlink(EncSymlink(s) + rest) == Got(s, rest)
  {
    Assoc(EncSattr3(s.attributes), EncOpaque(s.path), rest);
    Sattr3RoundTrip(s.attributes, EncOpaque(s.path) + rest);
    OpaqueRoundTrip(s.path, rest);
  }

  // ---------------------------------------------------------------- stability

  lemma BoolStable(s: Bytes, t: Bytes)
    requires DecBool(s).Got?
    ensures DecBool(s + t) == Got(DecBool(s).value, DecBool(s).rest + t)
  {
    U32Stable(s, t);
  }

  lemma TimeStable(s: Bytes, t: Bytes)
    requires DecTime(s).Got?
    ensures DecTime(s + t) == Got(DecTime(s).value, DecTime(s).rest + t)
  {
    U32Stable(s, t);
    U32Stable(DecU32(s).rest, t);
  }

  lemma Set32Stable(s: Bytes, t: Bytes)
    requires DecSet32(s).Got?
    ensures DecSet32(s + t) == Got(DecSet32(s).value, DecSet32(s).rest + t)
  {
    BoolStable(s, t);
    if DecBool(s).value { U32Stable(DecBool(s).rest, t); }
  }

  lemma Set64Stable(s: Bytes, t: Bytes)
    requires DecSet64(s).Got?
    ensures DecSet64(s + t) == Got(DecSet64(s).value, DecSet64(s).rest + t)
  {
    BoolStable(s, t);
    if DecBool(s).value { U64Stable(DecBool(s).rest, t); }
  }

  lemma SetTimeStable(s: Bytes, t: Bytes)
    requires DecSetTime(s).Got?
    ensures DecSetTime(s + t) == Got(DecSetTime(s).value, DecSetTime(s).rest + t)
  {
    U32Stable(s, t);
    if DecU32(s).value == SET_TO_CLIENT_TIME { TimeStable(DecU32(s).rest, t); }
  }

  lemma Sattr3Stable(s: Bytes, t: Bytes)
    requires DecSattr3(s).Got?
    ensures DecSattr3(s + t) == Got(DecSattr3(s).value, DecSattr3(s).rest + t)
  {
    var r1 := DecSet32(s).rest;
    var r2 := DecSet32(r1).rest;
    var r3 := DecSet32(r2).rest;
    var r4 := DecSet64(r3).rest;
    var r5 := DecSetTime(r4).rest;
    Set32Stable(s, t);
    Set32Stable(r1, t);
    Set32Stable(r2, t);
    Set64Stable(r3, t);
    SetTimeStable(r4, t);
    SetTimeStable(r5, t);
  }

  lemma GuardStable(s: Bytes, t: Bytes)
    requires DecGuard(s).Got?
    ensures DecGuard(s + t) == Got(DecGuard(s).value, DecGuard(s).rest + t)
  {
    BoolStable(s, t);
    if DecBool(s).value { TimeStable(DecBool(s).rest, t); }
  }

  lemma DiropStable(s: Bytes, t: Bytes)
    requires DecDirop(s).Got?
    ensures DecDirop(s + t) == Got(DecDirop(s).value, DecDirop(s).rest + t)
  {
    OpaqueStable(s, t);
    OpaqueStable(DecOpaque(s).rest, t);
  }

  lemma HowStable(s: Bytes, t: Bytes)
    requires DecHow(s).Got?
    ensures DecHow(s + t) == Got(DecHow(s).value, DecHow(s).rest + t)
  {
    U32Stable(s, t);
    var (mode, r) := DecU32(s).Extract();
    if mode == UNCHECKED || mode == GUARDED { Sattr3Stable(r, t); } else { U64Stable(r, t); }
  }

  lemma SymlinkStable(s: Bytes, t: Bytes)
    requires DecSymlink(s).Got?
    ensures DecSymlink(s + t) == Got(DecSymlink(s).value, DecSymlink(s).rest + t)
  {
    Sattr3Stable(s, t);
    OpaqueStable(DecSattr3(s).rest, t);
  }

  // ---------------------------------------------------------------- truncated arguments

  lemma Sattr3Truncated(a: Sattr3, k: nat)
    requires Sattr3Ok(a) && k < |EncSattr3(a)|
    ensures DecSattr3(EncSattr3(a)[..k]) == Fail
  {
    var e := EncSattr3(a);
    assert e + [] == e;
    Sattr3RoundTrip(a, []);
    if DecSattr3(e[..k]).Got? { Sattr3Stable(e[..k], e[k..]); }
    PrefixFails(DecSattr3, e, a, k);
  }

  lemma GuardTruncated(g: Sattrguard3, k: nat)
    requires k < |EncGuard(g)|
    ensures DecGuard(EncGuard(g)[..k]) == Fail
  {
    var e := EncGuard(g);
    assert e + [] == e;
    GuardRoundTrip(g, []);
    if DecGuard(e[..k]).Got? { GuardStable(e[..k], e[k..]); }
    PrefixFails(DecGuard, e, g, k);
  }

  lemma DiropTruncated(d: Diropargs3, k: nat)
    requires k < |EncDirop(d)|
    ensures DecDirop(EncDirop(d)[..k]) == Fail
  {
    var e := EncDirop(d);
    assert e + [] == e;
    DiropRoundTrip(d, []);
    if DecDirop(e[..k]).Got? { DiropStable(e[..k], e[k..]); }
    PrefixFails(DecDirop, e, d, k);
  }

  lemma HowTruncated(h: Createhow3, k: nat)
    requires CreatehowOk(h) && k < |EncHow(h)|
    ensures DecHow(EncHow(h)[..k]) == Fail
  {
    var e := EncHow(h);
    assert e + [] == e;
    HowRoundTrip(h, []);
    if DecHow(e[..k]).Got? { HowStable(e[..k], e[k..]); }
    PrefixFails(DecHow, e, h, k);
  }

  lemma SymlinkTruncated(s: Symlinkdata3, k: nat)
    requires Sattr3Ok(s.attributes) && k < |EncSymlink(s)|
    ensures DecSymlink(EncSymlink(s)[..k]) == Fail
  {
    var e := EncSymlink(s);
    assert e + [] == e;
    SymlinkRoundTrip(s, []);
    if DecSymlink(e[..k]).Got? { SymlinkStable(e[..k], e[k..]); }
    PrefixFails(DecSymlink, e, s, k);
  }
}
