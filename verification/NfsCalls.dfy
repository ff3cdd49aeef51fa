/** The arguments of the 22 procedures in the table of src/NFS3Prog.cpp, as fields in the order in
    which the procedures read them. Cutting the arguments of any procedure short makes it throw,
    more input never changes what was read, and every truncated call can be completed. */
module NfsCalls {
  import opened Wire
  import opened Arguments
  import opened Results

  const NULL := 0
  const GETATTR := 1
  const SETATTR := 2
  const LOOKUP := 3
  const ACCESS := 4
  const READLINK := 5
  const READ := 6
  const WRITE := 7
  const CREATE := 8
  const MKDIR := 9
  const SYMLINK := 10
  const MKNOD := 11
  const REMOVE := 12
  const RMDIR := 13
  const RENAME := 14
  const LINK := 15
  const READDIR := 16
  const READDIRPLUS := 17
  const FSSTAT := 18
  const FSINFO := 19
  const PATHCONF := 20
  const COMMIT := 21

  /** The size of the procedure table. */
  const PROCEDURES := 22

  /** A value some procedure reads with one call of Read. */
  datatype Field =
    | Word(n: U32)
    | Long(m: U64)
    | Data(d: Short)
    | Attributes(a: Sattr3)
    | Guard(g: Sattrguard3)
    | Where(w: Diropargs3)
    | How(h: Createhow3)
    | Link(s: Symlinkdata3)

  datatype FieldKind = FWord | FLong | FData | FAttributes | FGuard | FWhere | FHow | FLink

  function FieldKindOf(x: Field): FieldKind {
    match x
    case Word(_) => FWord case Long(_) => FLong case Data(_) => FData case Attributes(_) => FAttributes
    case Guard(_) => FGuard case Where(_) => FWhere case How(_) => FHow case Link(_) => FLink
  }

  predicate FieldOk(x: Field) {
    match x
    case Attributes(a) => Sattr3Ok(a)
    case How(h) => CreatehowOk(h)
    case Link(s) => Sattr3Ok(s.attributes)
    case _ => true
  }

  function EncField(x: Field): Bytes {
    match x
    case Word(n) => EncU32(n)
    case Long(m) => EncU64(m)
    case Data(d) => EncOpaque(d)
    case Attributes(a) => EncSattr3(a)
    case Guard(g) => EncGuard(g)
    case Where(w) => EncDirop(w)
    case How(h) => EncHow(h)
    case Link(s) => EncSymlink(s)
  }

  function DecField(k: FieldKind, s: Bytes): (p: Parsed<Field>)
    ensures p.Got? ==> |p.rest| < |s|
  {
    match k
    case FWord => var (n, r) :- DecU32(s); Got(Word(n), r)
    case FLong => var (m, r) :- DecU64(s); Got(Long(m), r)
    case FData => var (d, r) :- DecOpaque(s); Got(Data(d), r)
    case FAttributes => var (a, r) :- DecSattr3(s); Got(Attributes(a), r)
    case FGuard => var (g, r) :- DecGuard(s); Got(Guard(g), r)
    case FWhere => var (w, r) :- DecDirop(s); Got(Where(w), r)
    case FHow => var (h, r) :- DecHow(s); Got(How(h), r)
    case FLink => var (l, r) :- DecSymlink(s); Got(Link(l), r)
  }

  /** What each procedure reads, in order: the argument types of section 3.3 of RFC 1813, except
      that MKNOD reads nothing. */
  function Layout(proc: U32): seq<FieldKind> {
    if proc == NULL || proc == MKNOD then []
    else if proc == SETATTR then [FData, FAttributes, FGuard]
    else if proc == LOOKUP || proc == REMOVE || proc == RMDIR then [FWhere]
    else if proc == ACCESS then [FData, FWord]
    else if proc == READ then [FData, FLong, FWord]
    else if proc == WRITE then [FData, FLong, FWord, FWord, FData]
    else if proc == CREATE then [FWhere, FHow]
    else if proc == MKDIR then [FWhere, FAttributes]
    else if proc == SYMLINK then [FWhere, FLink]
    else if proc == RENAME then [FWhere, FWhere]
    else if proc == LINK then [FData, FWhere]
    else if proc == READDIR then [FData, FLong, FLong, FWord]
    else if proc == READDIRPLUS then [FData, FLong, FLong, FWord, FWord]
    else if proc == COMMIT then [FData, FLong, FWord]
    else [FData] // GETATTR, READLINK, FSSTAT, FSINFO, PATHCONF
  }

  function DecArgs(proc: U32, s: Bytes): Parsed<seq<Field>> {
    DecAll(DecField, Layout(proc), s)
  }

  function EncArgs(xs: seq<Field>): Bytes {
    EncAll(EncField, xs)
  }

  /** What a procedure has read. */
  predicate Typed(proc: U32, xs: seq<Field>) {
    |xs| == |Layout(proc)| && forall i :: 0 <= i < |xs| ==> FieldKindOf(xs[i]) == Layout(proc)[i]
  }

  /** Arguments a client may send with the procedure number. */
  ghost predicate ArgsOk(proc: U32, xs: seq<Field>) {
    Typed(proc, xs) && forall i :: 0 <= i < |xs| ==> FieldOk(xs[i])
  }

  // ---------------------------------------------------------------- round trip

  lemma PlainFieldRoundTrip(x: Field, rest: Bytes)
    requires x.Word? || x.Long? || x.Data?
    ensures DecField(FieldKindOf(x), EncField(x) + rest) == Got(x, rest)
  {
    match x
    case Word(n) => U32RoundTrip(n, rest);
    case Long(m) => U64RoundTrip(m, rest);
    case Data(d) => OpaqueRoundTrip(d, rest);
  }

  lemma GuardRead(s: Bytes, g: Sattrguard3, rest: Bytes)
    requires DecGuard(s) == Got(g, rest)
    ensures DecField(FGuard, s) == Got(Guard(g), rest)
  {
  }

  lemma WhereRead(s: Bytes, w: Diropargs3, rest: Bytes)
    requires DecDirop(s) == Got(w, rest)
    ensures DecField(FWhere, s) == Got(Where(w), rest)
  {
  }

  lemma AttributesRead(s: Bytes, a: Sattr3, rest: Bytes)
    requires DecSattr3(s) == Got(a, rest)
    ensures DecField(FAttributes, s) == Got(Attributes(a), rest)
  {
  }

  lemma HowRead(s: Bytes, h: Createhow3, rest: Bytes)
    requires DecHow(s) == Got(h, rest)
    ensures DecField(FHow, s) == Got(How(h), rest)
  {
  }

  lemma LinkRead(s: Bytes, l: Symlinkdata3, rest: Bytes)
    requires DecSymlink(s) == Got(l, rest)
    ensures DecField(FLink, s) == Got(Link(l), rest)
  {
  }

  lemma FieldRoundTrip(x: Field, rest: Bytes)
    requires FieldOk(x)
    ensures DecField(FieldKindOf(x), EncField(x) + rest) == Got(x, rest)
  {
    match x
    case Guard(g) =>
      GuardRoundTrip(g, rest);
      GuardRead(EncGuard(g) + rest, g, rest);
    case Where(w) =>
      DiropRoundTrip(w, rest);
      WhereRead(EncDirop(w) + rest, w, rest);
    case Attributes(a) =>
      Sattr3RoundTrip(a, rest);
      AttributesRead(EncSattr3(a) + rest, a, rest);
    case How(h) =>
      HowRoundTrip(h, rest);
      HowRead(EncHow(h) + rest, h, rest);
    case Link(s) =>
      SymlinkRoundTrip(s, rest);
      LinkRead(EncSymlink(s) + rest, s, rest);
    case _ => PlainFieldRoundTrip(x, rest);
  }

  /** The arguments of any procedure, followed by any bytes, are read back and end at those bytes. */
  lemma ArgsRoundTrip(proc: U32, xs: seq<Field>, rest: Bytes)
    requires ArgsOk(proc, xs)
    ensures DecArgs(proc, EncArgs(xs) + rest) == Got(xs, rest)
  {
    forall i, r | 0 <= i < |xs|
      ensures DecField(Layout(proc)[i], EncField(xs[i]) + r) == Got(xs[i], r)
    {
      FieldRoundTrip(xs[i], r);
    }
    AllRoundTrip(EncField, DecField, xs, Layout(proc), rest);
  }

  // ---------------------------------------------------------------- stability and truncation

  lemma FieldStable(k: FieldKind, s: Bytes, t: Bytes)
    requires DecField(k, s).Got?
    ensures DecField(k, s + t) == Got(DecField(k, s).value, DecField(k, s).rest + t)
  {
    match k
    case FWord => U32Stable(s, t);
    case FLong => U64Stable(s, t);
    case FData => OpaqueStable(s, t);
    case FAttributes => Sattr3Stable(s, t);
    case FGuard => GuardStable(s, t);
    case FWhere => DiropStable(s, t);
    case FHow => HowStable(s, t);
    case FLink => SymlinkStable(s, t);
  }

  lemma {:induction false} FieldsStable(ks: seq<FieldKind>, s: Bytes, t: Bytes)
    requires DecAll(DecField, ks, s).Got?
    ensures DecAll(DecField, ks, s + t) == Got(DecAll(DecField, ks, s).value, DecAll(DecField, ks, s).rest + t)
  {
    if ks != [] {
      FieldStable(ks[0], s, t);
      FieldsStable(ks[1..], DecField(ks[0], s).rest, t);
    }
  }

  /** More input never changes what was read. */
  lemma ArgsStable(proc: U32, s: Bytes, t: Bytes)
    requires DecArgs(proc, s).Got?
    ensures DecArgs(proc, s + t) == Got(DecArgs(proc, s).value, DecArgs(proc, s).rest + t)
  {
    FieldsStable(Layout(proc), s, t);
  }

  /** Every strict prefix of the arguments of any procedure makes it throw. */
  lemma ArgsTruncated(proc: U32, xs: seq<Field>, k: nat)
    requires ArgsOk(proc, xs) && k < |EncArgs(xs)|
    ensures DecArgs(proc, EncArgs(xs)[..k]) == Fail
  {
    var e := EncArgs(xs);
    assert e + [] == e;
    ArgsRoundTrip(proc, xs, []);
    if DecArgs(proc, e[..k]).Got? { ArgsStable(proc, e[..k], e[k..]); }
    PrefixFails(s => DecArgs(proc, s), e, xs, k);
  }

  lemma {:induction false} FieldsShrink(ks: seq<FieldKind>, s: Bytes)
    ensures DecAll(DecField, ks, s).Got? ==> |DecAll(DecField, ks, s).rest| + |ks| <= |s|
  {
    if ks != [] && DecField(ks[0], s).Got? {
      FieldsShrink(ks[1..], DecField(ks[0], s).rest);
    }
  }

  /** Nothing is read twice, and only NULL and MKNOD read nothing. */
  lemma ArgsShrink(proc: U32, s: Bytes)
    requires DecArgs(proc, s).Got?
    ensures |DecArgs(proc, s).rest| <= |s|
    ensures proc != NULL && proc != MKNOD ==> |DecArgs(proc, s).rest| < |s|
  {
    FieldsShrink(Layout(proc), s);
  }

  // ---------------------------------------------------------------- completing a truncated call

  lemma OpaqueCompletes(s: Bytes) returns (t: Bytes)
    ensures DecOpaque(s + t).Got?
  {
    var u := Zeros(4);
    var (len, r) := DecU32(s + u).Extract();
    var v := Zeros(len + 3);
    U32Stable(s + u, v);
    t := u + v;
    Assoc(s, u, v);
  }

  lemma Set32Enough(s: Bytes)
    ensures |s| >= 8 ==> DecSet32(s).Got? && |DecSet32(s).rest| >= |s| - 8
  {
  }

  lemma Set64Enough(s: Bytes)
    ensures |s| >= 12 ==> DecSet64(s).Got? && |DecSet64(s).rest| >= |s| - 12
  {
  }

  lemma SetTimeEnough(s: Bytes)
    ensures |s| >= 12 ==> DecSetTime(s).Got? && |DecSetTime(s).rest| >= |s| - 12
  {
  }

  /** No sattr3 is longer than 60 bytes. */
  lemma Sattr3Completes(s: Bytes) returns (t: Bytes)
    ensures DecSattr3(s + t).Got?
  {
    t := Zeros(60);
    Set32Enough(s + t);
    var r := DecSet32(s + t).rest;
    Set32Enough(r);
    r := DecSet32(r).rest;
    Set32Enough(r);
    r := DecSet32(r).rest;
    Set64Enough(r);
    r := DecSet64(r).rest;
    SetTimeEnough(r);
    SetTimeEnough(DecSetTime(r).rest);
  }

  lemma GuardCompletes(s: Bytes) returns (t: Bytes)
    ensures DecGuard(s + t).Got?
  {
    t := Zeros(12);
  }

  lemma DiropCompletes(s: Bytes) returns (t: Bytes)
    ensures DecDirop(s + t).Got?
  {
    var u := OpaqueCompletes(s);
    var v := OpaqueCompletes(DecOpaque(s + u).rest);
    OpaqueStable(s + u, v);
    t := u + v;
    Assoc(s, u, v);
  }

  lemma HowCompletes(s: Bytes) returns (t: Bytes)
    ensures DecHow(s + t).Got?
  {
    var u := Zeros(4);
    var (mode, r) := DecU32(s + u).Extract();
    var v := Sattr3Completes(r);
    if mode != UNCHECKED && mode != GUARDED { v := Zeros(8); }
    U32Stable(s + u, v);
    t := u + v;
    Assoc(s, u, v);
  }

  lemma SymlinkCompletes(s: Bytes) returns (t: Bytes)
    ensures DecSymlink(s + t).Got?
  {
    var u := Sattr3Completes(s);
    var v := OpaqueCompletes(DecSattr3(s + u).rest);
    Sattr3Stable(s + u, v);
    t := u + v;
    Assoc(s, u, v);
  }

  lemma FieldCompletes(k: FieldKind, s: Bytes) returns (t: Bytes)
    ensures DecField(k, s + t).Got?
  {
    match k
    case FWord => t := Zeros(4);
    case FLong => t := Zeros(8);
    case FData => t := OpaqueCompletes(s);
    case FAttributes => t := Sattr3Completes(s);
    case FGuard => t := GuardCompletes(s);
    case FWhere => t := DiropCompletes(s);
    case FHow => t := HowCompletes(s);
    case FLink => t := SymlinkCompletes(s);
  }

  lemma {:induction false} FieldsComplete(ks: seq<FieldKind>, s: Bytes) returns (t: Bytes)
    ensures DecAll(DecField, ks, s + t).Got?
  {
    if ks == [] {
      t := [];
    } else {
      var u := FieldCompletes(ks[0], s);
      var v := FieldsComplete(ks[1..], DecField(ks[0], s + u).rest);
      FieldStable(ks[0], s + u, v);
      t := u + v;
      Assoc(s, u, v);
    }
  }

  /** Any bytes are the start of a complete call. */
  lemma ArgsComplete(proc: U32, s: Bytes) returns (t: Bytes)
    ensures DecArgs(proc, s + t).Got?
  {
    t := FieldsComplete(Layout(proc), s);
  }

  // ---------------------------------------------------------------- field by field

  /** GETATTR, READLINK, FSSTAT, FSINFO and PATHCONF. */
  function DecFile(s: Bytes): Parsed<seq<Field>> {
    var (file, r) :- DecOpaque(s);
    Got([Data(file)], r)
  }

  /** LOOKUP, REMOVE and RMDIR. */
  function DecWhere(s: Bytes): Parsed<seq<Field>> {
    var (what, r) :- DecDirop(s);
    Got([Where(what)], r)
  }

  /** SETATTR. */
  function DecSetattr(s: Bytes): Parsed<seq<Field>> {
    var (file, r) :- DecOpaque(s);
    var (attributes, r) :- DecSattr3(r);
    var (guard, r) :- DecGuard(r);
    Got([Data(file), Attributes(attributes), Guard(guard)], r)
  }

  /** ACCESS. */
  function DecAccess(s: Bytes): Parsed<seq<Field>> {
    var (file, r) :- DecOpaque(s);
    var (access, r) :- DecU32(r);
    Got([Data(file), Word(access)], r)
  }

  /** READ and COMMIT. */
  function DecRange(s: Bytes): Parsed<seq<Field>> {
    var (file, r) :- DecOpaque(s);
    var (offset, r) :- DecU64(r);
    var (count, r) :- DecU32(r);
    Got([Data(file), Long(offset), Word(count)], r)
  }

  /** WRITE. */
  function DecWrite(s: Bytes): Parsed<seq<Field>> {
    var (file, r) :- DecOpaque(s);
    var (offset, r) :- DecU64(r);
    var (count, r) :- DecU32(r);
    var (stable, r) :- DecU32(r);
    var (data, r) :- DecOpaque(r);
    Got([Data(file), Long(offset), Word(count), Word(stable), Data(data)], r)
  }

  /** CREATE. */
  function DecCreate(s: Bytes): Parsed<seq<Field>> {
    var (what, r) :- DecDirop(s);
    var (how, r) :- DecHow(r);
    Got([Where(what), How(how)], r)
  }

  /** MKDIR. */
  function DecMkdir(s: Bytes): Parsed<seq<Field>> {
    var (what, r) :- DecDirop(s);
    var (attributes, r) :- DecSattr3(r);
    Got([Where(what), Attributes(attributes)], r)
  }

  /** SYMLINK. */
  function DecSymlinkArgs(s: Bytes): Parsed<seq<Field>> {
    var (what, r) :- DecDirop(s);
    var (link, r) :- DecSymlink(r);
    Got([Where(what), Link(link)], r)
  }

  /** RENAME. */
  function DecRename(s: Bytes): Parsed<seq<Field>> {
    var (from, r) :- DecDirop(s);
    var (to, r) :- DecDirop(r);
    Got([Where(from), Where(to)], r)
  }

  /** LINK. */
  function DecLink(s: Bytes): Parsed<seq<Field>> {
    var (file, r) :- DecOpaque(s);
    var (what, r) :- DecDirop(r);
    Got([Data(file), Where(what)], r)
  }

  /** READDIR. */
  function DecReaddir(s: Bytes): Parsed<seq<Field>> {
    var (file, r) :- DecOpaque(s);
    var (cookie, r) :- DecU64(r);
    var (verf, r) :- DecU64(r);
    var (count, r) :- DecU32(r);
    Got([Data(file), Long(cookie), Long(verf), Word(count)], r)
  }

  /** READDIRPLUS. */
  function DecReaddirplus(s: Bytes): Parsed<seq<Field>> {
    var (file, r) :- DecOpaque(s);
    var (cookie, r) :- DecU64(r);
    var (verf, r) :- DecU64(r);
    var (dircount, r) :- DecU32(r);
    var (maxcount, r) :- DecU32(r);
    Got([Data(file), Long(cookie), Long(verf), Word(dircount), Word(maxcount)], r)
  }

  function InFront<X>(x: X, p: Parsed<seq<X>>): Parsed<seq<X>> {
    match p case Fail => Fail case Got(xs, r) => Got([x] + xs, r)
  }

  lemma NextField<X, K>(dec: (K, Bytes) -> Parsed<X>, k: K, ks: seq<K>, s: Bytes, x: Parsed<X>)
    requires x == dec(k, s)
    ensures DecAll(dec, [k] + ks, s) == if x.Fail? then Fail else InFront(x.value, DecAll(dec, ks, x.rest))
  {
    assert ([k] + ks)[1..] == ks;
  }

  lemma OneFields<X, K>(dec: (K, Bytes) -> Parsed<X>, a: K, s: Bytes, x: Parsed<X>)
    requires x == dec(a, s)
    ensures DecAll(dec, [a], s) == if x.Fail? then Fail else Got([x.value], x.rest)
  {
    NextField(dec, a, [], s, x);
    assert [a] == [a] + [];
    if x.Got? { assert [x.value] == [x.value] + []; }
  }

  lemma TwoFields<X, K>(dec: (K, Bytes) -> Parsed<X>, a: K, b: K, s: Bytes,
                   x: Parsed<X>, y: Parsed<X>)
    requires x == dec(a, s)
    requires y == if x.Got? then dec(b, x.rest) else Fail
    ensures DecAll(dec, [a, b], s) == if y.Fail? then Fail else Got([x.value, y.value], y.rest)
  {
    NextField(dec, a, [b], s, x);
    assert [a, b] == [a] + [b];
    if x.Got? {
      OneFields(dec, b, x.rest, y);
      if y.Got? { assert [x.value, y.value] == [x.value] + [y.value]; }
    }
  }

  lemma ThreeFields<X, K>(dec: (K, Bytes) -> Parsed<X>, a: K, b: K, c: K, s: Bytes,
                   x: Parsed<X>, y: Parsed<X>, z: Parsed<X>)
    requires x == dec(a, s)
    requires y == if x.Got? then dec(b, x.rest) else Fail
    requires z == if y.Got? then dec(c, y.rest) else Fail
    ensures DecAll(dec, [a, b, c], s) == if z.Fail? then Fail else Got([x.value, y.value, z.value], z.rest)
  {
    NextField(dec, a, [b, c], s, x);
    assert [a, b, c] == [a] + [b, c];
    if x.Got? {
      TwoFields(dec, b, c, x.rest, y, z);
      if z.Got? { assert [x.value, y.value, z.value] == [x.value] + [y.value, z.value]; }
    }
  }

  lemma FourFields<X, K>(dec: (K, Bytes) -> Parsed<X>, a: K, b: K, c: K, d: K, s: Bytes,
                   x: Parsed<X>, y: Parsed<X>, z: Parsed<X>, u: Parsed<X>)
    requires x == dec(a, s)
    requires y == if x.Got? then dec(b, x.rest) else Fail
    requires z == if y.Got? then dec(c, y.rest) else Fail
    requires u == if z.Got? then dec(d, z.rest) else Fail
    ensures DecAll(dec, [a, b, c, d], s) == if u.Fail? then Fail else Got([x.value, y.value, z.value, u.value], u.rest)
  {
    NextField(dec, a, [b, c, d], s, x);
    assert [a, b, c, d] == [a] + [b, c, d];
    if x.Got? {
      ThreeFields(dec, b, c, d, x.rest, y, z, u);
      if u.Got? { assert [x.value, y.value, z.value, u.value] == [x.value] + [y.value, z.value, u.value]; }
    }
  }

  lemma FiveFields<X, K>(dec: (K, Bytes) -> Parsed<X>, a: K, b: K, c: K, d: K, e: K, s: Bytes,
                   x: Parsed<X>, y: Parsed<X>, z: Parsed<X>, u: Parsed<X>, v: Parsed<X>)
    requires x == dec(a, s)
    requires y == if x.Got? then dec(b, x.rest) else Fail
    requires z == if y.Got? then dec(c, y.rest) else Fail
    requires u == if z.Got? then dec(d, z.rest) else Fail
    requires v == if u.Got? then dec(e, u.rest) else Fail
    ensures DecAll(dec, [a, b, c, d, e], s) == if v.Fail? then Fail else Got([x.value, y.value, z.value, u.value, v.value], v.rest)
  {
    NextField(dec, a, [b, c, d, e], s, x);
    assert [a, b, c, d, e] == [a] + [b, c, d, e];
    if x.Got? {
      FourFields(dec, b, c, d, e, x.rest, y, z, u, v);
      if v.Got? { assert [x.value, y.value, z.value, u.value, v.value] == [x.value] + [y.value, z.value, u.value, v.value]; }
    }
  }

  /** The arguments of a procedure as it reads them, call of Read by call of Read. */
  function DecProcedure(proc: U32, s: Bytes): Parsed<seq<Field>> {
    if proc == NULL || proc == MKNOD then Got([], s)
    else if proc == SETATTR then DecSetattr(s)
    else if proc == LOOKUP || proc == REMOVE || proc == RMDIR then DecWhere(s)
    else if proc == ACCESS then DecAccess(s)
    else if proc == READ || proc == COMMIT then DecRange(s)
    else if proc == WRITE then DecWrite(s)
    else if proc == CREATE then DecCreate(s)
    else if proc == MKDIR then DecMkdir(s)
    else if proc == SYMLINK then DecSymlinkArgs(s)
    else if proc == RENAME then DecRename(s)
    else if proc == LINK then DecLink(s)
    else if proc == READDIR then DecReaddir(s)
    else if proc == READDIRPLUS then DecReaddirplus(s)
    else DecFile(s) // GETATTR, READLINK, FSSTAT, FSINFO, PATHCONF
  }

  lemma FewArgsAsRead(proc: U32, s: Bytes)
    requires |Layout(proc)| <= 2
    ensures DecArgs(proc, s) == DecProcedure(proc, s)
  {
    hide DecOpaque, DecSattr3, DecGuard, DecDirop, DecHow, DecSymlink, DecU32, DecU64;
    var ks := Layout(proc);
    if ks != [] {
      var x := DecField(ks[0], s);
      var y := if x.Got? && |ks| > 1 then DecField(ks[1], x.rest) else Fail;
      if |ks| == 1 { OneFields(DecField, ks[0], s, x); } else { TwoFields(DecField, ks[0], ks[1], s, x, y); }
    }
  }

  lemma ThreeArgsAsRead(proc: U32, s: Bytes)
    requires proc == SETATTR || proc == READ || proc == COMMIT
    ensures DecArgs(proc, s) == DecProcedure(proc, s)
  {
    hide DecOpaque, DecSattr3, DecGuard, DecU32, DecU64;
    var ks := Layout(proc);
    var x := DecField(ks[0], s);
    var y := if x.Got? then DecField(ks[1], x.rest) else Fail;
    var z := if y.Got? then DecField(ks[2], y.rest) else Fail;
    ThreeFields(DecField, ks[0], ks[1], ks[2], s, x, y, z);
  }

  lemma ReaddirAsRead(s: Bytes)
    ensures DecAll(DecField, [FData, FLong, FLong, FWord], s) == DecReaddir(s)
  {
    hide DecOpaque, DecU32, DecU64, DecAll;
    var x := DecField(FData, s);
    var y := if x.Got? then DecField(FLong, x.rest) else Fail;
    var z := if y.Got? then DecField(FLong, y.rest) else Fail;
    var u := if z.Got? then DecField(FWord, z.rest) else Fail;
    FourFields(DecField, FData, FLong, FLong, FWord, s, x, y, z, u);
  }

  lemma ReaddirplusAsRead(s: Bytes)
    ensures DecAll(DecField, [FData, FLong, FLong, FWord, FWord], s) == DecReaddirplus(s)
  {
    hide DecOpaque, DecU32, DecU64, DecAll;
    var x := DecField(FData, s);
    var y := if x.Got? then DecField(FLong, x.rest) else Fail;
    var z := if y.Got? then DecField(FLong, y.rest) else Fail;
    var u := if z.Got? then DecField(FWord, z.rest) else Fail;
    var v := if u.Got? then DecField(FWord, u.rest) else Fail;
    FiveFields(DecField, FData, FLong, FLong, FWord, FWord, s, x, y, z, u, v);
  }

  lemma WriteAsRead(s: Bytes)
    ensures DecAll(DecField, [FData, FLong, FWord, FWord, FData], s) == DecWrite(s)
  {
    hide DecOpaque, DecU32, DecU64, DecAll;
    var x := DecField(FData, s);
    var y := if x.Got? then DecField(FLong, x.rest) else Fail;
    var z := if y.Got? then DecField(FWord, y.rest) else Fail;
    var u := if z.Got? then DecField(FWord, z.rest) else Fail;
    var v := if u.Got? then DecField(FData, u.rest) else Fail;
    FiveFields(DecField, FData, FLong, FWord, FWord, FData, s, x, y, z, u, v);
  }

  lemma ManyArgsAsRead(proc: U32, s: Bytes)
    requires |Layout(proc)| > 3
    ensures DecArgs(proc, s) == DecProcedure(proc, s)
  {
    hide DecAll, DecField, DecReaddir, DecReaddirplus, DecWrite;
    if proc == READDIR { ReaddirAsRead(s); } else if proc == READDIRPLUS { ReaddirplusAsRead(s); } else { WriteAsRead(s); }
  }

  /** What is read one after the other are the fields of the layout. */
  lemma ArgsAsRead(proc: U32, s: Bytes)
    ensures DecArgs(proc, s) == DecProcedure(proc, s)
  {
    if |Layout(proc)| <= 2 { FewArgsAsRead(proc, s); }
    else if |Layout(proc)| == 3 { ThreeArgsAsRead(proc, s); }
    else { ManyArgsAsRead(proc, s); }
  }

  /** The entries of DecArgs. */
  lemma ArgsEntries(proc: U32, s: Bytes)
    ensures proc == GETATTR || proc == READLINK || proc == FSSTAT || proc == FSINFO || proc == PATHCONF ==> DecArgs(proc, s) == DecFile(s)
    ensures proc == LOOKUP || proc == REMOVE || proc == RMDIR ==> DecArgs(proc, s) == DecWhere(s)
    ensures proc == READ || proc == COMMIT ==> DecArgs(proc, s) == DecRange(s)
    ensures proc == SETATTR ==> DecArgs(proc, s) == DecSetattr(s)
    ensures proc == ACCESS ==> DecArgs(proc, s) == DecAccess(s)
    ensures proc == WRITE ==> DecArgs(proc, s) == DecWrite(s)
    ensures proc == CREATE ==> DecArgs(proc, s) == DecCreate(s)
    ensures proc == MKDIR ==> DecArgs(proc, s) == DecMkdir(s)
    ensures proc == SYMLINK ==> DecArgs(proc, s) == DecSymlinkArgs(s)
    ensures proc == RENAME ==> DecArgs(proc, s) == DecRename(s)
    ensures proc == LINK ==> DecArgs(proc, s) == DecLink(s)
    ensures proc == READDIR ==> DecArgs(proc, s) == DecReaddir(s)
    ensures proc == READDIRPLUS ==> DecArgs(proc, s) == DecReaddirplus(s)
  {
    hide DecArgs, DecFile, DecWhere, DecSetattr, DecAccess, DecRange, DecWrite, DecCreate, DecMkdir, DecSymlinkArgs;
    hide DecRename, DecLink, DecReaddir, DecReaddirplus;
    ArgsAsRead(proc, s);
  }
}
