/** READDIR and READDIRPLUS seen from the client: it takes names, file ids and cookies out of the bytes of each
    reply by sections 3.3.16 and 3.3.17 of RFC 1813, and goes on with the last cookie it found. */
module Listings {
  import opened Nodes
  import opened Wire
  import opened Results
  import opened SocketStreams
  import opened Codecs
  import opened Statuses
  import opened NfsCalls
  import opened NfsResults
  import opened Rpc
  import opened NfsPrograms
  import opened Paging

  // ---------------------------------------------------------------- what the client takes out of a reply

  /** entry3, or entryplus3, without its cookie. */
  datatype Dirent = Dirent(fileid: U64, name: Short, attributes: Option<Fattr3>, handle: Option<Short>)

  /** The entries of one reply, and the cookie of the last of them. */
  datatype Batch = Batch(dirents: seq<Dirent>, cookie: Option<U64>, eof: bool)

  function Width(plus: bool): nat {
    if plus then 6 else 4
  }

  /** An entry: a true value, the file id, the name and the cookie; READDIRPLUS adds attributes and handle. */
  predicate HasEntry(plus: bool, values: seq<Datum>) {
    && |values| >= Width(plus) && values[0] == Bool(true) && values[1].Uint64? && values[2].Opaque? && values[3].Uint64?
    && (plus ==> values[4].PostOpAttr? && values[5].PostOpFh3?)
  }

  function FirstDirent(plus: bool, values: seq<Datum>): Dirent
    requires HasEntry(plus, values)
  {
    Dirent(values[1].m, values[2].d, if plus then values[4].p else None, if plus then values[5].h else None)
  }

  /** dirlist3 and dirlistplus3. */
  function BatchIn(plus: bool, values: seq<Datum>): Option<Batch>
    decreases |values|
  {
    if HasEntry(plus, values) then
      match BatchIn(plus, values[Width(plus)..])
      case None => None
      case Some(more) =>
        Some(Batch([FirstDirent(plus, values)] + more.dirents, if more.cookie == None then Some(values[3].m) else more.cookie, more.eof))
    else if |values| == 2 && values[0] == Bool(false) && values[1].Bool? then Some(Batch([], None, values[1].b))
    else None
  }

  /** The values in an accepted reply to the call with this header, to its last byte. */
  function ValuesIn(reply: Bytes, h: Header): seq<Datum> {
    if |reply| < 4 then []
    else
      match DecReply(reply[4..])
      case Fail => []
      case Got(head, body) =>
        if head != (h.xid, REPLY, MSG_ACCEPTED, h.verfFlavor, SUCCESS) then []
        else
          match DecResult(h.proc, body)
          case Fail => []
          case Got(values, rest) => if rest == [] then values else []
  }

  /** The listing in a reply: status, attributes and verifier stand in front of it. */
  function BatchFrom(reply: Bytes, h: Header): Option<Batch> {
    var values := ValuesIn(reply, h);
    if |values| >= 3 && values[0] == Uint32(NFS3_OK) then BatchIn(h.proc == READDIRPLUS, values[3..]) else None
  }

  /** What every call of a listing says besides the cookie; the server does not look at the sizes. */
  datatype Asked = Asked(file: Short, verf: U64, count: U32, dircount: U32)

  function ListArgs(proc: U32, q: Asked, cookie: U64): seq<Field> {
    [Data(q.file), Long(cookie), Long(q.verf)] + if proc == READDIRPLUS then [Word(q.dircount), Word(q.count)] else [Word(q.count)]
  }

  /** The first n replies: each call sends the last cookie of the reply before. */
  function Browse<S>(t: Table<S>, state: S, h: Header, q: Asked, cookie: U64, n: nat): seq<Batch>
    decreases n
  {
    if n == 0 then []
    else
      var args := EncArgs(ListArgs(h.proc, q, cookie));
      match BatchFrom(Reply(t, state, true, h, args, Room(true)), h)
      case None => []
      case Some(batch) =>
        var next := if batch.cookie == None then cookie else batch.cookie.value;
        [batch] + Browse(t, Rpc.After(t, state, h, args), h, q, next, n - 1)
  }

  function AllDirents(batches: seq<Batch>): seq<Dirent>
    decreases |batches|
  {
    if batches == [] then [] else batches[0].dirents + AllDirents(batches[1..])
  }

  // ---------------------------------------------------------------- one list

  /** What is said about a file, as the client sees it. */
  function DirentOf(plus: bool, about: About): Dirent {
    Dirent(about.fileid, about.name, if plus then about.attributes else None, if plus then about.handle else None)
  }

  function DirentsOf(plus: bool, about: string -> About, names: seq<string>): (dirents: seq<Dirent>)
    ensures |dirents| == |names|
  {
    seq(|names|, i requires 0 <= i < |names| => DirentOf(plus, about(names[i])))
  }

  function Seen(plus: bool, es: seq<Entry<About>>, eof: bool): Batch {
    Batch(seq(|es|, i requires 0 <= i < |es| => DirentOf(plus, es[i].about)),
          if es == [] then None else Some(es[|es| - 1].cookie), eof)
  }

  lemma FirstSeen(plus: bool, e: Entry<About>, tail: seq<Datum>)
    ensures var xs := EntryData(plus, e) + tail;
            && HasEntry(plus, xs) && FirstDirent(plus, xs) == DirentOf(plus, e.about) && xs[3] == Uint64(e.cookie)
            && xs[Width(plus)..] == tail
  {
  }

  lemma {:induction false} ListIsSeen(plus: bool, es: seq<Entry<About>>, eof: bool)
    ensures BatchIn(plus, EntriesData(plus, es) + [Bool(false), Bool(eof)]) == Some(Seen(plus, es, eof))
  {
    hide EntryData, HasEntry, FirstDirent, Width, DirentOf;
    var end := [Bool(false), Bool(eof)];
    if es == [] {
      NoEntry(plus, eof);
      assert EntriesData(plus, es) + end == end;
      assert Seen(plus, es, eof).dirents == [];
    } else {
      var tail := EntriesData(plus, es[1..]) + end;
      var xs := EntryData(plus, es[0]) + tail;
      assert EntriesData(plus, es) + end == xs;
      FirstSeen(plus, es[0], tail);
      ListIsSeen(plus, es[1..], eof);
      SeenFurther(plus, es, eof);
    }
  }

  lemma SeenFurther(plus: bool, es: seq<Entry<About>>, eof: bool)
    requires es != []
    ensures var more := Seen(plus, es[1..], eof);
            Seen(plus, es, eof) ==
            Batch([DirentOf(plus, es[0].about)] + more.dirents, if more.cookie == None then Some(es[0].cookie) else more.cookie, eof)
  {
    hide DirentOf;
  }

  lemma NoEntry(plus: bool, eof: bool)
    ensures !HasEntry(plus, [Bool(false), Bool(eof)])
  {
  }

  // ---------------------------------------------------------------- one reply

  /** A directory with these entries, of which a procedure says this. Windows gives no name of more than 259
      bytes. */
  ghost predicate Shows(a: Answer, names: seq<string>, about: string -> About) {
    && a.check == NFS3_OK && a.attributes != None && a.names == names && a.about == about
    && forall i :: 0 <= i < |names| ==> |about(names[i]).name| <= 0x1_0000
  }

  /** As long as this holds of the state the directory stays so. */
  ghost predicate Steady<S(!new)>(same: S -> bool, host: Host<S>, proc: U32, q: Asked, names: seq<string>, about: string -> About) {
    forall s: S, cookie: U64 :: same(s) ==>
      var (a, next) := host(s, proc, ListArgs(proc, q, cookie));
      Shows(a, names, about) && same(next)
  }

  /** Room for an entry. */
  const ENTRY := 0x1_0000 + 8 + 5 * PLAIN

  lemma EntryBound(plus: bool, e: Entry<About>)
    requires |e.about.name| <= 0x1_0000
    ensures |EncAll(EncDatum, EntryData(plus, e))| <= ENTRY
  {
    hide EncDatum, EncAll;
    var a := e.about;
    var front, name, back := [Bool(true), Uint64(a.fileid)], [Opaque(a.name)],
      [Uint64(e.cookie)] + if plus then [PostOpAttr(a.attributes), PostOpFh3(a.handle)] else [];
    assert EntryData(plus, e) == front + (name + back);
    AllConcat(EncDatum, front, name + back);
    AllConcat(EncDatum, name, back);
    forall i | 0 <= i < |front| ensures |EncDatum(front[i])| <= PLAIN { DatumBound(front[i]); }
    forall i | 0 <= i < |back| ensures |EncDatum(back[i])| <= PLAIN { DatumBound(back[i]); }
    DataBound(front);
    DataBound(back);
    OpaqueBound(a.name);
    OneDatum(Opaque(a.name));
  }

  lemma OneDatum(x: Datum)
    ensures EncAll(EncDatum, [x]) == EncDatum(x)
  {
    hide EncDatum;
    assert [x][1..] == [];
    assert EncAll(EncDatum, []) == [];
  }

  lemma {:induction false} EntriesBound(plus: bool, es: seq<Entry<About>>)
    requires forall i :: 0 <= i < |es| ==> |es[i].about.name| <= 0x1_0000
    ensures |EncAll(EncDatum, EntriesData(plus, es))| <= |es| * ENTRY
  {
    hide EncDatum, EntryData;
    if es != [] {
      EntryBound(plus, es[0]);
      EntriesBound(plus, es[1..]);
      AllConcat(EncDatum, EntryData(plus, es[0]), EntriesData(plus, es[1..]));
    }
  }

  lemma PageBound(names: seq<string>, about: string -> About, cookie: U64)
    requires forall i :: 0 <= i < |names| ==> |about(names[i]).name| <= 0x1_0000
    ensures var es := PageAt(names, about, cookie).entries;
            |es| <= 10 && forall i :: 0 <= i < |es| ==> |es[i].about.name| <= 0x1_0000
  {
  }

  /** Ten entries always fit. */
  lemma ListFits(proc: U32, q: Asked, cookie: U64, a: Answer, names: seq<string>, about: string -> About)
    requires Listing(proc) && Shows(a, names, about)
    ensures var values := ResultData(proc, ListArgs(proc, q, cookie), a);
            && |values| >= 3 && values[0] == Uint32(NFS3_OK)
            && values[3..] == ListTail(proc == READDIRPLUS, cookie, a)
            && |EncAll(EncDatum, values)| <= Room(true)
  {
    hide EncDatum, EncAll, EntriesData, PageAt;
    var plus, page := proc == READDIRPLUS, PageAt(names, about, cookie);
    ResultEntries(ListArgs(proc, q, cookie), a);
    var front, list, end := ListHead(a) + [Uint64(q.verf)], EntriesData(plus, page.entries), [Bool(false), Bool(page.eof)];
    AllConcat(EncDatum, front, list + end);
    AllConcat(EncDatum, list, end);
    PageBound(names, about, cookie);
    EntriesBound(plus, page.entries);
    forall i | 0 <= i < |front| ensures |EncDatum(front[i])| <= PLAIN { DatumBound(front[i]); }
    forall i | 0 <= i < |end| ensures |EncDatum(end[i])| <= PLAIN { DatumBound(end[i]); }
    DataBound(front);
    DataBound(end);
  }

  lemma ListArgsOk(proc: U32, q: Asked, cookie: U64)
    requires Listing(proc)
    ensures ArgsOk(proc, ListArgs(proc, q, cookie)) && !Unknown(NFS_VERSION, proc)
  {
  }

  lemma FramedIsRead(reply: Bytes, h: Header, body: Bytes, values: seq<Datum>)
    requires Framed(reply, h, SUCCESS, body) && DecResult(h.proc, body) == Got(values, [])
    ensures ValuesIn(reply, h) == values
  {
  }

  /** What the client finds in one reply. */
  lemma ReplySeen<S>(t: Table<S>, state: S, h: Header, q: Asked, cookie: U64, host: Host<S>,
                     names: seq<string>, about: string -> About)
    requires Serves(t, h, host) && h.vers == NFS_VERSION && Listing(h.proc) && h.verfLength == 0
    requires Shows(host(state, h.proc, ListArgs(h.proc, q, cookie)).0, names, about)
    ensures var args, page := ListArgs(h.proc, q, cookie), PageAt(names, about, cookie);
            && BatchFrom(Reply(t, state, true, h, EncArgs(args), Room(true)), h)
               == Some(Seen(h.proc == READDIRPLUS, page.entries, page.eof))
            && Rpc.After(t, state, h, EncArgs(args)) == host(state, h.proc, args).1
  {
    hide Reply, Framed, Serves, ArgsOk, EncArgs, EncAll, EncDatum, ResultData, DecResult, Seen, PageAt, Rpc.After, Payload, ValuesIn,
      ListArgs, Unread, ResultOf;
    var args, page := ListArgs(h.proc, q, cookie), PageAt(names, about, cookie);
    var a := host(state, h.proc, args).0;
    assert EncArgs(args) + [] == EncArgs(args);
    ListArgsOk(h.proc, q, cookie);
    ClientGetsResult(t, state, h, args, [], host);
    NfsServed(t, state, h, args, [], host, Room(true));
    ListFits(h.proc, q, cookie, a, names, about);
    var values := ResultData(h.proc, args, a);
    FramedIsRead(Reply(t, state, true, h, EncArgs(args), Room(true)), h, Fit(EncAll(EncDatum, values), Room(true)), values);
    ListIsSeen(h.proc == READDIRPLUS, page.entries, page.eof);
  }

  // ---------------------------------------------------------------- whole listings

  /** What the client finds in these pages. */
  function SeenAll(plus: bool, pages: seq<Page<About>>): (batches: seq<Batch>)
    ensures |batches| == |pages|
  {
    seq(|pages|, i requires 0 <= i < |pages| => Seen(plus, pages[i].entries, pages[i].eof))
  }

  /** Over any number of calls the client goes through the chain of pages. */
  lemma {:induction false} BrowsedIsChain<S(!new)>(t: Table<S>, state: S, h: Header, q: Asked, cookie: U64,
                                                   n: nat, host: Host<S>, same: S -> bool, names: seq<string>, about: string -> About)
    requires Serves(t, h, host) && h.vers == NFS_VERSION && Listing(h.proc) && h.verfLength == 0
    requires Steady(same, host, h.proc, q, names, about) && same(state)
    ensures Browse(t, state, h, q, cookie, n) == SeenAll(h.proc == READDIRPLUS, Chain(names, about, cookie, n))
    decreases n
  {
    hide Reply, Serves, EncArgs, BatchFrom, PageAt, Rpc.After, ListArgs, Shows;
    if n > 0 {
      var args, page := ListArgs(h.proc, q, cookie), PageAt(names, about, cookie);
      assert Shows(host(state, h.proc, args).0, names, about) && same(host(state, h.proc, args).1);
      ReplySeen(t, state, h, q, cookie, host, names, about);
      BrowsedIsChain(t, host(state, h.proc, args).1, h, q, NextCookie(page, cookie), n - 1, host, same, names, about);
    }
  }

  lemma DirentsConcat(plus: bool, about: string -> About, a: seq<string>, b: seq<string>)
    ensures DirentsOf(plus, about, a + b) == DirentsOf(plus, about, a) + DirentsOf(plus, about, b)
  {
  }

  /** On a page of a directory every name comes with what is said about it. */
  lemma PageIsDescribed(plus: bool, names: seq<string>, about: string -> About, cookie: U64)
    ensures var page := PageAt(names, about, cookie);
            Seen(plus, page.entries, page.eof).dirents == DirentsOf(plus, about, PageNames(page))
  {
  }

  lemma {:induction false} SeenIsListed(plus: bool, names: seq<string>, about: string -> About, cookie: U64, n: nat)
    ensures var pages := Chain(names, about, cookie, n);
            AllDirents(SeenAll(plus, pages)) == DirentsOf(plus, about, Listed(pages))
    decreases n
  {
    hide PageAt, DirentOf;
    if n > 0 {
      var page := PageAt(names, about, cookie);
      var next := NextCookie(page, cookie);
      var rest := Chain(names, about, next, n - 1);
      ChainStep(names, about, cookie, n, page);
      SeenIsListed(plus, names, about, next, n - 1);
      PageIsDescribed(plus, names, about, cookie);
      DirentsConcat(plus, about, PageNames(page), Listed(rest));
      assert SeenAll(plus, [page] + rest)[1..] == SeenAll(plus, rest);
    }
  }

  /** Every entry once and in order, each with the file id, and for READDIRPLUS the attributes and the handle, that
      belong to it. */
  ghost predicate Complete(plus: bool, found: seq<Dirent>, names: seq<string>, about: string -> About) {
    && |found| == |names|
    && (forall i :: 0 <= i < |names| ==> found[i].name == about(names[i]).name && found[i].fileid == about(names[i]).fileid)
    && (plus ==> forall i :: 0 <= i < |names| ==>
          found[i].attributes == about(names[i]).attributes && found[i].handle == about(names[i]).handle)
  }

  /** A client that goes from reply to reply, while the directory stays as it is, has read all of it after
      floor(N / 10) + 1 replies, and only the last of them says so. */
  lemma DirectoryIsListed<S(!new)>(t: Table<S>, state: S, h: Header, q: Asked, n: nat, host: Host<S>, same: S -> bool,
                                   names: seq<string>, about: string -> About)
    requires Serves(t, h, host) && h.vers == NFS_VERSION && Listing(h.proc) && h.verfLength == 0
    requires Steady(same, host, h.proc, q, names, about) && same(state)
    requires |names| < COOKIE_LIMIT && n == |names| / 10
    ensures var batches := Browse(t, state, h, q, 0, n + 1);
            && |batches| == n + 1 && (forall i :: 0 <= i <= n ==> (batches[i].eof <==> i == n))
            && Complete(h.proc == READDIRPLUS, AllDirents(batches), names, about)
  {
    hide Serves, Steady, Chain, Browse, Listed, AllDirents;
    BrowsedIsChain(t, state, h, q, 0, n + 1, host, same, names, about);
    SeenIsListed(h.proc == READDIRPLUS, names, about, 0, n + 1);
    WholeDirectoryIsListed(names, about, n);
    assert EofAt(Chain(names, about, 0, n + 1), n);
  }

  /** The limit is exact: in a larger directory of different names those replies are not the listing. */
  lemma CompleteExactlyBelowLimit<S(!new)>(t: Table<S>, state: S, h: Header, q: Asked, n: nat, host: Host<S>, same: S -> bool,
                                           names: seq<string>, about: string -> About)
    requires Serves(t, h, host) && h.vers == NFS_VERSION && Listing(h.proc) && h.verfLength == 0
    requires Steady(same, host, h.proc, q, names, about) && same(state) && n == |names| / 10
    requires forall i, j :: 0 <= i < j < |names| ==> about(names[i]).name != about(names[j]).name
    ensures Complete(h.proc == READDIRPLUS, AllDirents(Browse(t, state, h, q, 0, n + 1)), names, about) <==> |names| < COOKIE_LIMIT
  {
    hide Serves, Steady, Chain, Browse, Listed, AllDirents;
    if |names| < COOKIE_LIMIT {
      DirectoryIsListed(t, state, h, q, n, host, same, names, about);
    } else {
      BrowsedIsChain(t, state, h, q, 0, n + 1, host, same, names, about);
      SeenIsListed(h.proc == READDIRPLUS, names, about, 0, n + 1);
      FifthAgain(names, about, n);
      var found := AllDirents(Browse(t, state, h, q, 0, n + 1));
      assert found[COOKIE_LIMIT] == DirentOf(h.proc == READDIRPLUS, about(names[4]));
      if |names| > COOKIE_LIMIT { assert about(names[4]).name != about(names[COOKIE_LIMIT]).name; }
    }
  }
}
