/** READDIR and READDIRPLUS (src/NFS3Prog/READDIR.cpp, src/NFS3Prog/READDIRPLUS.cpp): ten entries a
    call, and a cookie that counts entries. */
module Paging {
  import opened Nodes
  import opened Wire
  import opened HandleMachine

  const MAX_DIR_ENTRIES := 10

  /** From this many entries on, a full page ends with a cookie that loses its high bits. */
  const COOKIE_LIMIT := 0x1_0000_0004

  /** An entry of a page: the name, what is said about the file (its id; for READDIRPLUS also its
      attributes and handle), and the cookie to continue behind it. */
  datatype Entry<D> = Entry(name: string, about: D, cookie: U64)

  datatype Page<D> = Page(entries: seq<Entry<D>>, eof: bool)

  /** _findfirst and _findnext over a directory that does not change: fileinfo is the entry at the
      cursor. */
  class FindHandle {
    const names: seq<string>
    var cursor: nat

    ghost predicate Valid()
      reads this
    {
      cursor < |names|
    }

    constructor (names: seq<string>)
      requires names != []
      ensures Valid() && this.names == names && cursor == 0
    {
      this.names := names;
      cursor := 0;
    }

    /** 0 when there is a next entry; at the end the cursor stays. */
    method FindNext() returns (r: int)
      requires Valid()
      modifies this
      ensures Valid()
      ensures cursor == if old(cursor) + 1 < |names| then old(cursor) + 1 else old(cursor)
      ensures r == if old(cursor) + 1 < |names| then 0 else -1
    {
      if cursor + 1 < |names| {
        cursor := cursor + 1;
        r := 0;
      } else {
        r := -1;
      }
    }
  }

  /** The entry a cookie leads to: it is cast to 32 bits. */
  function Start(cookie: U64): nat {
    cookie % 0x1_0000_0000
  }

  /** The 64-bit cookie k entries later. */
  function Later(cookie: U64, k: nat): U64 {
    (cookie + k) % 0x1_0000_0000_0000_0000
  }

  lemma LaterStep(cookie: U64, k: nat)
    ensures Later(Later(cookie, k), 1) == Later(cookie, k + 1)
  {
  }

  function EntryAt<D>(names: seq<string>, describe: string -> D, cookie: U64, k: nat): Entry<D>
    requires Start(cookie) + k < |names|
  {
    var name := names[Start(cookie) + k];
    Entry(name, describe(name), Later(cookie, k + 1))
  }

  /** The first n entries from a cookie on. */
  function EntriesFrom<D>(names: seq<string>, describe: string -> D, cookie: U64, n: nat): (es: seq<Entry<D>>)
    requires Start(cookie) + n <= |names|
    ensures |es| == n
    ensures forall k :: 0 <= k < n ==> es[k] == EntryAt(names, describe, cookie, k)
  {
    seq(n, k requires 0 <= k < n => EntryAt(names, describe, cookie, k))
  }

  /** What one call returns. */
  function PageAt<D>(names: seq<string>, describe: string -> D, cookie: U64): Page<D> {
    var left := |names| - Start(cookie);
    if left <= 0 then Page([], true)
    else
      var n := if left <= MAX_DIR_ENTRIES then left else MAX_DIR_ENTRIES;
      Page(EntriesFrom(names, describe, cookie, n), n < MAX_DIR_ENTRIES)
  }

  /** Advances the find handle; the result is that of the last step. */
  method SeekToCookie(handle: FindHandle, cookie: U64) returns (nFound: int)
    requires handle.Valid() && handle.cursor == 0
    modifies handle
    ensures handle.Valid()
    ensures nFound == 0 <==> Start(cookie) < |handle.names|
    ensures nFound == 0 ==> handle.cursor == Start(cookie)
  {
    nFound := 0;
    var i := cookie % 0x1_0000_0000;
    while i > 0
      invariant 0 <= i <= Start(cookie) && handle.Valid()
      invariant var done := Start(cookie) - i;
                if done < |handle.names| then nFound == 0 && handle.cursor == done
                else nFound != 0 && handle.cursor == |handle.names| - 1
    {
      nFound := handle.FindNext();
      i := i - 1;
    }
  }

  /** The loop over the entries from the cursor on. */
  method ListEntries<D>(handle: FindHandle, describe: string -> D, cookie0: U64) returns (entries: seq<Entry<D>>, eof: bool)
    requires handle.Valid() && handle.cursor == Start(cookie0)
    modifies handle
    ensures Page(entries, eof) == PageAt(handle.names, describe, cookie0)
  {
    entries, eof := [], true;
    var cookie := cookie0;
    var remaining := MAX_DIR_ENTRIES;
    var r := 0;
    while r == 0
      invariant handle.Valid() && Start(cookie0) < |handle.names|
      invariant 0 <= remaining <= MAX_DIR_ENTRIES && |entries| == MAX_DIR_ENTRIES - remaining
      invariant Start(cookie0) + |entries| <= |handle.names|
      invariant cookie == Later(cookie0, |entries|)
      invariant entries == EntriesFrom(handle.names, describe, cookie0, |entries|)
      invariant r == 0 ==> remaining > 0 && handle.cursor == Start(cookie0) + |entries|
      invariant r != 0 ==> remaining == 0 || Start(cookie0) + |entries| == |handle.names|
      invariant eof <==> remaining != 0
      decreases remaining, r == 0
    {
      var name := handle.names[handle.cursor];
      LaterStep(cookie0, |entries|);
      cookie := Later(cookie, 1);
      entries := entries + [Entry(name, describe(name), cookie)];
      remaining := remaining - 1;
      if remaining == 0 {
        eof := false;
        break;
      }
      r := handle.FindNext();
    }
  }

  /** The listing part of the two procedures. */
  method ReadDirectory<D>(handle: FindHandle, describe: string -> D, cookie: U64) returns (entries: seq<Entry<D>>, eof: bool)
    requires handle.Valid() && handle.cursor == 0
    modifies handle
    ensures Page(entries, eof) == PageAt(handle.names, describe, cookie)
  {
    entries, eof := [], true;
    var nFound := SeekToCookie(handle, cookie);
    if nFound == 0 {
      entries, eof := ListEntries(handle, describe, cookie);
    }
  }

  // ---------------------------------------------------------------- chains of calls

  /** The cookie the client sends next. */
  function NextCookie<D>(page: Page<D>, cookie: U64): U64 {
    if page.entries == [] then cookie else page.entries[|page.entries| - 1].cookie
  }

  /** The pages of the first n calls, each continuing where the one before ended. */
  function Chain<D>(names: seq<string>, describe: string -> D, cookie: U64, n: nat): (pages: seq<Page<D>>)
    ensures |pages| == n
    decreases n
  {
    if n == 0 then []
    else
      var page := PageAt(names, describe, cookie);
      [page] + Chain(names, describe, NextCookie(page, cookie), n - 1)
  }

  /** The names of all entries in the pages, in order. */
  function Listed<D>(pages: seq<Page<D>>): seq<string>
    decreases |pages|
  {
    if pages == [] then [] else PageNames(pages[0]) + Listed(pages[1..])
  }

  function PageNames<D>(page: Page<D>): seq<string> {
    seq(|page.entries|, k requires 0 <= k < |page.entries| => page.entries[k].name)
  }

  /** The names of one page, whatever the cookie. */
  lemma NamesOfPage<D>(names: seq<string>, describe: string -> D, cookie: U64, n: nat)
    requires Start(cookie) + n <= |names|
    ensures PageNames(Page(EntriesFrom(names, describe, cookie, n), n < MAX_DIR_ENTRIES)) ==
            names[Start(cookie)..Start(cookie) + n]
  {
  }

  lemma CookiesCount(cookie: U64, n: nat)
    requires cookie < 0x1_0000_0000 && n <= MAX_DIR_ENTRIES
    ensures Start(cookie) == cookie && Later(cookie, n) == cookie + n
  {
  }

  /** Where a page that starts at a cookie below 2^32 ends. */
  function End(names: seq<string>, cookie: nat): nat
    requires cookie <= |names|
  {
    if |names| - cookie < MAX_DIR_ENTRIES then |names| else cookie + MAX_DIR_ENTRIES
  }

  lemma PageSize<D>(names: seq<string>, describe: string -> D, cookie: U64)
    requires cookie <= |names| && cookie < 0x1_0000_0000
    ensures var n := End(names, cookie) - cookie;
            PageAt(names, describe, cookie) == Page(EntriesFrom(names, describe, cookie, n), n < MAX_DIR_ENTRIES)
  {
    CookiesCount(cookie, 0);
  }

  /** Below 2^32 a cookie counts the entries before it: a call returns the next ten, or all that are
      left. */
  lemma PageIsSlice<D>(names: seq<string>, describe: string -> D, cookie: U64)
    requires cookie <= |names| && cookie < 0x1_0000_0000
    ensures var page := PageAt(names, describe, cookie);
            && PageNames(page) == names[cookie..End(names, cookie)]
            && NextCookie(page, cookie) == End(names, cookie)
            && (page.eof <==> |names| - cookie < MAX_DIR_ENTRIES)
  {
    var n := End(names, cookie) - cookie;
    PageSize(names, describe, cookie);
    CookiesCount(cookie, n);
    NamesOfPage(names, describe, cookie, n);
    if n > 0 {
      assert EntriesFrom(names, describe, cookie, n)[n - 1] == EntryAt(names, describe, cookie, n - 1);
    }
  }

  lemma ChainStep<D>(names: seq<string>, describe: string -> D, cookie: U64, n: nat, page: Page<D>)
    requires n > 0 && page == PageAt(names, describe, cookie)
    ensures var rest := Chain(names, describe, NextCookie(page, cookie), n - 1);
            && Chain(names, describe, cookie, n) == [page] + rest
            && Listed([page] + rest) == PageNames(page) + Listed(rest)
  {
    assert ([page] + Chain(names, describe, NextCookie(page, cookie), n - 1))[1..] ==
           Chain(names, describe, NextCookie(page, cookie), n - 1);
  }

  /** Only page n says that the listing is over. */
  ghost predicate EofAt<D>(pages: seq<Page<D>>, n: nat) {
    forall i :: 0 <= i < |pages| ==> (pages[i].eof <==> i == n)
  }

  ghost predicate NoEof<D>(pages: seq<Page<D>>, n: nat)
    requires n <= |pages|
  {
    forall i :: 0 <= i < n ==> !pages[i].eof
  }

  /** One call in the middle: ten entries, and the chain goes on behind them. */
  lemma FullStep<D>(names: seq<string>, describe: string -> D, cookie: U64, next: U64, t: nat)
    requires t > 0 && next == cookie + MAX_DIR_ENTRIES && next <= |names| && next <= COOKIE_LIMIT
    ensures var pages, rest := Chain(names, describe, cookie, t), Chain(names, describe, next, t - 1);
            && pages == [pages[0]] + rest && !pages[0].eof
            && Listed(pages) == names[cookie..next] + Listed(rest)
  {
    PageIsSlice(names, describe, cookie);
    ChainStep(names, describe, cookie, t, PageAt(names, describe, cookie));
  }

  lemma SliceThen(names: seq<string>, a: nat, b: nat, c: nat, more: seq<string>)
    requires a <= b <= c <= |names|
    ensures names[a..b] + (names[b..c] + more) == names[a..c] + more
  {
  }

  lemma NothingBefore(names: seq<string>, a: nat, more: seq<string>)
    requires a <= |names|
    ensures names[a..a] + more == more
  {
  }

  lemma DropNone<D>(pages: seq<Page<D>>, k: int)
    requires k == 0
    ensures pages[k..] == pages
  {
  }

  lemma OnePageMore<D>(page: Page<D>, pages: seq<Page<D>>, n: nat)
    requires 0 < n <= |pages| + 1 && !page.eof && NoEof(pages, n - 1)
    ensures NoEof([page] + pages, n) && ([page] + pages)[n..] == pages[n - 1..]
  {
  }

  /** t calls list the entries up to the cookie `end` in full pages, and then go on for m calls. */
  ghost predicate Reaches<D>(names: seq<string>, describe: string -> D, cookie: U64, end: U64, t: nat, m: nat)
    requires m <= t && cookie <= end <= |names|
  {
    && Listed(Chain(names, describe, cookie, t)) == names[cookie..end] + Listed(Chain(names, describe, end, m))
    && NoEof(Chain(names, describe, cookie, t), t - m)
    && Chain(names, describe, cookie, t)[t - m..] == Chain(names, describe, end, m)
  }

  lemma ReachesItself<D>(names: seq<string>, describe: string -> D, cookie: U64, m: nat)
    requires cookie <= |names|
    ensures Reaches(names, describe, cookie, cookie, m, m)
  {
    NothingBefore(names, cookie, Listed(Chain(names, describe, cookie, m)));
    DropNone(Chain(names, describe, cookie, m), m - m);
  }

  lemma ReachesFurther<D>(names: seq<string>, describe: string -> D, cookie: U64, next: U64, end: U64, t: nat, m: nat)
    requires m < t && next == cookie + MAX_DIR_ENTRIES && next <= end <= |names| && end <= COOKIE_LIMIT
    requires Reaches(names, describe, next, end, t - 1, m)
    ensures Reaches(names, describe, cookie, end, t, m)
  {
    FullStep(names, describe, cookie, next, t);
    SliceThen(names, cookie, next, end, Listed(Chain(names, describe, end, m)));
    OnePageMore(Chain(names, describe, cookie, t)[0], Chain(names, describe, next, t - 1), t - m);
  }

  /** All but the last m of t calls return full pages, up to the cookie `end`. */
  lemma {:induction false} FullPages<D>(names: seq<string>, describe: string -> D, cookie: U64, end: U64, t: nat, m: nat)
    requires m <= t && cookie <= end <= |names| && end <= COOKIE_LIMIT
    requires end - cookie == MAX_DIR_ENTRIES * (t - m)
    ensures Reaches(names, describe, cookie, end, t, m)
    decreases t
  {
    if t == m {
      ReachesItself(names, describe, cookie, m);
    } else {
      FullPages(names, describe, cookie + MAX_DIR_ENTRIES, end, t - 1, m);
      ReachesFurther(names, describe, cookie, cookie + MAX_DIR_ENTRIES, end, t, m);
    }
  }

  /** The last page of a listing. */
  lemma LastPage<D>(names: seq<string>, describe: string -> D, cookie: U64)
    requires cookie <= |names| < cookie + MAX_DIR_ENTRIES && cookie < 0x1_0000_0000
    ensures var pages := Chain(names, describe, cookie, 1);
            pages[0].eof && Listed(pages) == names[cookie..]
  {
    PageIsSlice(names, describe, cookie);
    ChainStep(names, describe, cookie, 1, PageAt(names, describe, cookie));
    assert Listed<D>([]) == [];
  }

  lemma LastOfAll<D>(pages: seq<Page<D>>, last: seq<Page<D>>, n: nat)
    requires |pages| == n + 1 && NoEof(pages, n) && pages[n..] == last && last[0].eof
    ensures EofAt(pages, n)
  {
    assert pages[n] == pages[n..][0];
  }

  lemma WholeAtLast(names: seq<string>, last: nat)
    requires last <= |names|
    ensures names[0..last] + names[last..] == names
  {
  }

  /** Chaining calls from cookie 0 in a directory below the limit lists every entry once and in
      order, sets eof on the last call only, and takes floor(N / 10) + 1 calls. */
  lemma WholeDirectoryIsListed<D>(names: seq<string>, describe: string -> D, n: nat)
    requires |names| < COOKIE_LIMIT && n == |names| / MAX_DIR_ENTRIES
    ensures Listed(Chain(names, describe, 0, n + 1)) == names
    ensures EofAt(Chain(names, describe, 0, n + 1), n)
  {
    var last := MAX_DIR_ENTRIES * n;
    FullPages(names, describe, 0, last, n + 1, 1);
    LastPage(names, describe, last);
    WholeAtLast(names, last);
    LastOfAll(Chain(names, describe, 0, n + 1), Chain(names, describe, last, 1), n);
  }

  /** At the limit the cookie leads back to entry 4. */
  lemma ListingRestarts<D>(names: seq<string>, describe: string -> D, m: nat)
    requires |names| >= COOKIE_LIMIT && m > 0
    ensures var listed := Listed(Chain(names, describe, COOKIE_LIMIT, m));
            listed != [] && listed[0] == names[4]
  {
    var page := PageAt(names, describe, COOKIE_LIMIT);
    ChainStep(names, describe, COOKIE_LIMIT, m, page);
    assert page.entries[0] == EntryAt(names, describe, COOKIE_LIMIT, 0);
  }

  /** From the limit on, behind so many entries comes the fifth one again. */
  lemma FifthAgain<D>(names: seq<string>, describe: string -> D, n: nat)
    requires |names| >= COOKIE_LIMIT && n == |names| / MAX_DIR_ENTRIES
    ensures var listed := Listed(Chain(names, describe, 0, n + 1));
            |listed| > COOKIE_LIMIT && listed[COOKIE_LIMIT] == names[4]
  {
    var m := n + 1 - COOKIE_LIMIT / MAX_DIR_ENTRIES;
    FullPages(names, describe, 0, COOKIE_LIMIT, n + 1, m);
    ListingRestarts(names, describe, m);
    assert |names[0..COOKIE_LIMIT]| == COOKIE_LIMIT;
  }

  /** The condition is exact: in a larger directory whose names differ, the same number of calls
      lists something else. */
  lemma ListedExactlyBelowLimit<D>(names: seq<string>, describe: string -> D, n: nat)
    requires forall i, j :: 0 <= i < j < |names| ==> names[i] != names[j]
    requires n == |names| / MAX_DIR_ENTRIES
    ensures Listed(Chain(names, describe, 0, n + 1)) == names <==> |names| < COOKIE_LIMIT
  {
    if |names| < COOKIE_LIMIT {
      WholeDirectoryIsListed(names, describe, n);
    } else {
      FifthAgain(names, describe, n);
    }
  }

  // ---------------------------------------------------------------- file ids

  /** GetFileID issues a handle for the path if it has none; asked again after any number of other
      paths, it gives the same id. */
  lemma {:induction false} SameIdAgain(v: View, path: string, others: seq<string>)
    requires Distinct(v)
    ensures var w := Apply(v, Issue(path));
            var x := IssueEach(w, others);
            && Some(path) in w && Some(path) in x
            && Apply(x, Issue(path)) == x && HandleOf(x, path) == HandleOf(w, path)
  {
    var w := Apply(v, Issue(path));
    assert w[|w| - 1] == Some(path) || w == v;
    StepKeepsDistinct(v, Issue(path));
    Issued(w, HandleOf(w, path), others);
    HandleRoundTrips(IssueEach(w, others), HandleOf(w, path));
  }

  function IssueEach(v: View, paths: seq<string>): View
    decreases |paths|
  {
    if paths == [] then v else IssueEach(Apply(v, Issue(paths[0])), paths[1..])
  }

  lemma {:induction false} Issued(v: View, id: nat, paths: seq<string>)
    requires Distinct(v) && id < |v|
    ensures var w := IssueEach(v, paths);
            Distinct(w) && id < |w| && w[id] == v[id]
    decreases |paths|
  {
    if paths != [] {
      StepKeepsDistinct(v, Issue(paths[0]));
      Issued(Apply(v, Issue(paths[0])), id, paths[1..]);
    }
  }
}
