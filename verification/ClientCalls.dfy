/** The calls of version 3 as sections 3.3.1 to 3.3.21 of RFC 1813 give them to clients: number and arguments,
    written one behind the other. The server understands each of them, except MKNOD. */
module ClientCalls {
  import opened Wire
  import opened Arguments
  import opened Results
  import opened NfsCalls

  datatype Nfs3Call =
    | Getattr(file: Short)
    | Setattr(file: Short, new_attributes: Sattr3, guard: Sattrguard3)
    | Lookup(what: Diropargs3)
    | Access(file: Short, access: U32)
    | Readlink(symlink: Short)
    | Read(file: Short, offset: U64, count: U32)
    | Write(file: Short, offset: U64, count: U32, stable: U32, data: Short)
    | Create(where: Diropargs3, how: Createhow3)
    | Mkdir(where: Diropargs3, attributes: Sattr3)
    | Symlink(where: Diropargs3, link: Symlinkdata3)
    | Remove(what: Diropargs3)
    | Rmdir(what: Diropargs3)
    | Rename(from: Diropargs3, to: Diropargs3)
    | LinkTo(file: Short, where: Diropargs3)
    | Readdir(dir: Short, cookie: U64, cookieverf: U64, count: U32)
    | Readdirplus(dir: Short, cookie: U64, cookieverf: U64, dircount: U32, maxcount: U32)
    | Fsstat(fsroot: Short)
    | Fsinfo(fsroot: Short)
    | Pathconf(file: Short)
    | Commit(file: Short, offset: U64, count: U32)

  /** Section 3.3 of RFC 1813. */
  function Number(c: Nfs3Call): U32 {
    match c
    case Getattr(_) => 1
    case Setattr(_, _, _) => 2
    case Lookup(_) => 3
    case Access(_, _) => 4
    case Readlink(_) => 5
    case Read(_, _, _) => 6
    case Write(_, _, _, _, _) => 7
    case Create(_, _) => 8
    case Mkdir(_, _) => 9
    case Symlink(_, _) => 10
    case Remove(_) => 12
    case Rmdir(_) => 13
    case Rename(_, _) => 14
    case LinkTo(_, _) => 15
    case Readdir(_, _, _, _) => 16
    case Readdirplus(_, _, _, _, _) => 17
    case Fsstat(_) => 18
    case Fsinfo(_) => 19
    case Pathconf(_) => 20
    case Commit(_, _, _) => 21
  }

  /** The arguments on the wire. */
  function Encoded(c: Nfs3Call): Bytes {
    match c
    case Getattr(file) => EncOpaque(file)
    case Setattr(file, attributes, guard) => EncOpaque(file) + (EncSattr3(attributes) + EncGuard(guard))
    case Lookup(what) => EncDirop(what)
    case Access(file, access) => EncOpaque(file) + EncU32(access)
    case Readlink(symlink) => EncOpaque(symlink)
    case Read(file, offset, count) => EncOpaque(file) + (EncU64(offset) + EncU32(count))
    case Write(file, offset, count, stable, data) =>
      EncOpaque(file) + (EncU64(offset) + (EncU32(count) + (EncU32(stable) + EncOpaque(data))))
    case Create(where, how) => EncDirop(where) + EncHow(how)
    case Mkdir(where, attributes) => EncDirop(where) + EncSattr3(attributes)
    case Symlink(where, link) => EncDirop(where) + EncSymlink(link)
    case Remove(what) => EncDirop(what)
    case Rmdir(what) => EncDirop(what)
    case Rename(from, to) => EncDirop(from) + EncDirop(to)
    case LinkTo(file, where) => EncOpaque(file) + EncDirop(where)
    case Readdir(dir, cookie, verf, count) => EncOpaque(dir) + (EncU64(cookie) + (EncU64(verf) + EncU32(count)))
    case Readdirplus(dir, cookie, verf, dircount, maxcount) =>
      EncOpaque(dir) + (EncU64(cookie) + (EncU64(verf) + (EncU32(dircount) + EncU32(maxcount))))
    case Fsstat(root) => EncOpaque(root)
    case Fsinfo(root) => EncOpaque(root)
    case Pathconf(file) => EncOpaque(file)
    case Commit(file, offset, count) => EncOpaque(file) + (EncU64(offset) + EncU32(count))
  }

  /** What the server is to read. */
  function Fields(c: Nfs3Call): seq<Field> {
    match c
    case Getattr(file) => [Data(file)]
    case Setattr(file, attributes, guard) => [Data(file), Attributes(attributes), Guard(guard)]
    case Lookup(what) => [Where(what)]
    case Access(file, access) => [Data(file), Word(access)]
    case Readlink(symlink) => [Data(symlink)]
    case Read(file, offset, count) => [Data(file), Long(offset), Word(count)]
    case Write(file, offset, count, stable, data) => [Data(file), Long(offset), Word(count), Word(stable), Data(data)]
    case Create(where, how) => [Where(where), How(how)]
    case Mkdir(where, attributes) => [Where(where), Attributes(attributes)]
    case Symlink(where, link) => [Where(where), Field.Link(link)]
    case Remove(what) => [Where(what)]
    case Rmdir(what) => [Where(what)]
    case Rename(from, to) => [Where(from), Where(to)]
    case LinkTo(file, where) => [Data(file), Where(where)]
    case Readdir(dir, cookie, verf, count) => [Data(dir), Long(cookie), Long(verf), Word(count)]
    case Readdirplus(dir, cookie, verf, dircount, maxcount) =>
      [Data(dir), Long(cookie), Long(verf), Word(dircount), Word(maxcount)]
    case Fsstat(root) => [Data(root)]
    case Fsinfo(root) => [Data(root)]
    case Pathconf(file) => [Data(file)]
    case Commit(file, offset, count) => [Data(file), Long(offset), Word(count)]
  }

  /** Discriminants for which nothing else is laid out. */
  predicate Regular(c: Nfs3Call) {
    match c
    case Setattr(_, attributes, _) => Sattr3Ok(attributes)
    case Mkdir(_, attributes) => Sattr3Ok(attributes)
    case Create(_, how) => CreatehowOk(how)
    case Symlink(_, link) => Sattr3Ok(link.attributes)
    case _ => true
  }

  lemma OneField(x: Field)
    ensures EncArgs([x]) == EncField(x)
  {
    hide EncField;
    assert [x][1..] == [];
    assert EncAll(EncField, []) == [];
  }

  lemma MoreFields(x: Field, xs: seq<Field>)
    ensures EncArgs([x] + xs) == EncField(x) + EncArgs(xs)
  {
    hide EncField;
    assert ([x] + xs)[1..] == xs;
  }

  lemma {:induction false} FieldsEncoded(xs: seq<Field>)
    ensures 1 <= |xs| <= 5 ==>
              EncArgs(xs) ==
              if |xs| == 1 then EncField(xs[0])
              else if |xs| == 2 then EncField(xs[0]) + EncField(xs[1])
              else if |xs| == 3 then EncField(xs[0]) + (EncField(xs[1]) + EncField(xs[2]))
              else if |xs| == 4 then EncField(xs[0]) + (EncField(xs[1]) + (EncField(xs[2]) + EncField(xs[3])))
              else EncField(xs[0]) + (EncField(xs[1]) + (EncField(xs[2]) + (EncField(xs[3]) + EncField(xs[4]))))
  {
    hide EncField, EncArgs;
    if |xs| == 1 {
      OneField(xs[0]);
      assert xs == [xs[0]];
    } else if |xs| > 1 {
      FieldsEncoded(xs[1..]);
      MoreFields(xs[0], xs[1..]);
      assert xs == [xs[0]] + xs[1..];
    }
  }

  lemma EncodedAsFields(c: Nfs3Call)
    ensures EncArgs(Fields(c)) == Encoded(c)
  {
    hide EncArgs, EncOpaque, EncU32, EncU64, EncSattr3, EncGuard, EncDirop, EncHow, EncSymlink;
    FieldsEncoded(Fields(c));
  }

  /** The server takes every argument of every call from its place, and stops behind the last. */
  lemma ServerUnderstands(c: Nfs3Call, rest: Bytes)
    requires Regular(c)
    ensures ArgsOk(Number(c), Fields(c)) && DecArgs(Number(c), Encoded(c) + rest) == Got(Fields(c), rest)
  {
    hide EncArgs, DecArgs, Encoded, Sattr3Ok, CreatehowOk;
    EncodedAsFields(c);
    ArgsRoundTrip(Number(c), Fields(c), rest);
  }
}
