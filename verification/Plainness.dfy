/** The strings a caller may look up, and what looking one up means for the path map. */
module Plainness {
  import opened Nodes
  import opened Forests
  import opened Ancestry
  import opened Paths
  import opened Lookup
  import opened Registry

  /** A root occurs in the path only where the path is that root or continues it with proper
      components, and at most one root occurs. */
  ghost predicate Plain(f: Forest, path: string)
    requires WellFormed(f)
  {
    || (forall r :: r in Tops(f) ==> !Occurs(Name(f, r), path))
    || (exists t, c :: t in f.up && Legal(f, path, t, c))
  }

  ghost predicate Known(f: Forest, path: string)
    requires WellFormed(f)
  {
    path in PathMap(f).Values
  }

  lemma KnownNode(f: Forest, path: string) returns (n: Node)
    requires WellFormed(f) && Known(f, path)
    ensures n in PathMap(f) && PathMap(f)[n] == path && n in f.up && Registered(f, n) && FullPath(f, n) == path
  {
    n :| n in PathMap(f) && PathMap(f)[n] == path;
  }

  lemma RegisteredIsLegal(f: Forest, n: Node)
    requires Labelled(f) && Separated(f) && n in f.up && Registered(f, n)
    ensures Legal(f, FullPath(f, n), Top(f, n), Comps(f, n))
  {
    FullPathSplits(f, n);
    RegisteredIsGood(f, n);
  }

  lemma KnownIsPlain(f: Forest, path: string)
    requires Labelled(f) && Separated(f) && Known(f, path)
    ensures Plain(f, path)
  {
    var n := KnownNode(f, path);
    RegisteredIsLegal(f, n);
  }

  lemma ChildIsLegal(f: Forest, q: Node, name: string)
    requires Sound(f) && q in f.up && NewChild(f, q, name)
    ensures Legal(f, FullPath(f, q) + [SEP] + name, Top(f, q), Comps(f, q) + [name])
  {
    FullPathSplits(f, q);
    RegisteredIsGood(f, q);
    PathStringSnoc(Name(f, Top(f, q)), Comps(f, q), name);
  }

  lemma AddableIsPlain(f: Forest, path: string)
    requires Sound(f) && Addable(f, path)
    ensures Plain(f, path)
  {
    if !NewRoot(f, path) {
      var q: Node :| q in f.up && NewChild(f, q, Basename(path)) && path == FullPath(f, q) + [SEP] + Basename(path);
      ChildIsLegal(f, q, Basename(path));
    }
  }

  /** Looking up a plain path, whatever root is cached, decides whether the path is registered. */
  lemma PlainLookup(f: Forest, top: Node, path: string)
    requires Sound(f) && top in f.up && top in Tops(f) && Plain(f, path)
    ensures var r := Find(f, top, path);
            && (r == null <==> !Known(f, path))
            && (r != null ==> r in PathMap(f) && PathMap(f)[r] == path)
  {
    var r := Find(f, top, path);
    if t: Node, c :| t in f.up && Legal(f, path, t, c) {
      if r != null {
        LookupIsInverse(f, top, path, t, c, r);
        assert PathMap(f)[r] == path;
      }
      if Known(f, path) {
        var n := KnownNode(f, path);
        LookupIsInverse(f, top, path, t, c, n);
      }
    } else if Known(f, path) {
      var n := KnownNode(f, path);
      RegisteredIsLegal(f, n);
    }
  }

  /** Different registered nodes have different paths. */
  lemma PathMapInjective(f: Forest, a: Node, b: Node)
    requires Sound(f) && a in PathMap(f) && b in PathMap(f) && PathMap(f)[a] == PathMap(f)[b]
    ensures a == b
  {
    RegisteredIsLegal(f, a);
    TopIsTop(f, a);
    var t := Top(f, a);
    LookupIsInverse(f, t, FullPath(f, a), t, Comps(f, a), a);
    LookupIsInverse(f, t, FullPath(f, a), t, Comps(f, a), b);
  }

  /** After a lookup that found a registered node its root is the cached one. */
  lemma CachedAfterLookup(f: Forest, top: Node, n: Node)
    requires Labelled(f) && Separated(f) && top in f.up && top in Tops(f) && n in PathMap(f)
    ensures CachedRoot(f, top, PathMap(f)[n]) == Top(f, n)
  {
    RegisteredIsLegal(f, n);
    CacheIsTransparent(f, top, FullPath(f, n), Top(f, n));
  }

  /** A second lookup of the same path leaves the cached root alone. */
  lemma CacheSettles(f: Forest, top: Node, path: string)
    requires WellFormed(f) && top in f.up
    ensures CachedRoot(f, CachedRoot(f, top, path), path) == CachedRoot(f, top, path)
  {
  }

  /** Right after path was added as node n, looking it up finds n. */
  lemma JustAdded(f: Forest, top: Node, path: string, n: Node)
    requires Sound(f) && top in f.up && top in Tops(f)
    requires n in PathMap(f) && PathMap(f)[n] == path
    ensures Find(f, top, path) == n
  {
    assert Known(f, path);
    KnownIsPlain(f, path);
    PlainLookup(f, top, path);
    PathMapInjective(f, n, Find(f, top, path));
  }

  // ---------------------------------------------------------------- lookups where paths are shared

  /** What looking the path up gives, whatever root is cached. */
  ghost function Hit(f: Forest, path: string): (r: Node?)
    requires WellFormed(f)
    ensures r != null ==> r in f.up
  {
    if Tops(f) == [] then null else Find(f, Tops(f)[0], path)
  }

  lemma HitIsFind(f: Forest, top: Node, path: string)
    requires WellFormed(f) && top in f.up && top in Tops(f) && Plain(f, path)
    ensures Find(f, top, path) == Hit(f, path)
  {
    if t: Node, c :| t in f.up && Legal(f, path, t, c) {
      CacheIsTransparent(f, top, path, t);
      CacheIsTransparent(f, Tops(f)[0], path, t);
    }
  }

  /** Also where two nodes share a path, what is found is registered with the path looked up. */
  lemma HitHasThePath(f: Forest, path: string)
    requires Labelled(f) && Plain(f, path)
    ensures var r := Hit(f, path); r != null ==> r in PathMap(f) && PathMap(f)[r] == path
  {
    if r: Node, c :| r in f.up && Legal(f, path, r, c) {
      FoundHasThePath(f, Tops(f)[0], path, r, c);
    }
  }

  /** No two registered nodes share the path or one above it. */
  ghost predicate Unshared(f: Forest, path: string)
    requires WellFormed(f)
  {
    forall a, b :: a in PathMap(f) && b in PathMap(f) && PathMap(f)[a] == PathMap(f)[b] && Under(PathMap(f)[a], path) ==> a == b
  }

  lemma UnsharedAbove(f: Forest, p: string, path: string)
    requires WellFormed(f) && Unshared(f, path) && Under(p, path)
    ensures Unshared(f, p)
  {
    forall a, b | a in PathMap(f) && b in PathMap(f) && PathMap(f)[a] == PathMap(f)[b] && Under(PathMap(f)[a], p)
      ensures a == b
    {
      UnderOfUnder(PathMap(f)[a], p, path);
    }
  }

  /** A sibling with the same name is a second node with the same path. */
  lemma UnsharedScan(f: Forest, n: Node)
    requires Labelled(f) && Registered(f, n) && f.up[n] != null && Unshared(f, FullPath(f, n))
    ensures f.up[n] in f.rows && Scan(f, Kids(f, f.up[n]), Name(f, n)) == n
  {
    assert NodeOk(f, n) && RowOk(f, f.up[n]) && NodeNamed(f, n);
    var row := Kids(f, f.up[n]);
    forall b | b in row && Name(f, b) == Name(f, n)
      ensures b == n
    {
      assert NodeOk(f, b) && f.up[b] == f.up[n];
      ParentedIsProper(f, b);
      assert NodeNamed(f, b);
      assert FullPath(f, b) == FullPath(f, n);
      assert Registered(f, b);
      assert PathMap(f)[b] == PathMap(f)[n];
    }
  }

  lemma {:induction false} UnsharedWalk(f: Forest, n: Node)
    requires Labelled(f) && Registered(f, n) && Unshared(f, FullPath(f, n))
    ensures Walk(f, Top(f, n), Comps(f, n)) == n
    decreases Rank(f, n)
  {
    assert NodeOk(f, n);
    if f.up[n] != null {
      var p := f.up[n];
      assert NodeOk(f, p);
      RegisteredIsGood(f, n);
      assert FullPath(f, n) == FullPath(f, p) + [SEP] + Name(f, n);
      UnderExtends(FullPath(f, p), FullPath(f, p), Name(f, n));
      UnsharedAbove(f, FullPath(f, p), FullPath(f, n));
      UnsharedWalk(f, p);
      WalkSnoc(f, Top(f, n), Comps(f, p), Name(f, n));
      UnsharedScan(f, n);
    }
  }

  /** A registered path that no two nodes share is found, whatever happened elsewhere in the tree. */
  lemma UnsharedIsHit(f: Forest, n: Node)
    requires Labelled(f) && Separated(f) && n in PathMap(f) && Unshared(f, PathMap(f)[n])
    ensures Hit(f, PathMap(f)[n]) == n
  {
    var path, t, c := PathMap(f)[n], Top(f, n), Comps(f, n);
    RegisteredIsLegal(f, n);
    TopIsTop(f, n);
    UnsharedWalk(f, n);
    CacheIsTransparent(f, Tops(f)[0], path, t);
    FindInRootWalks(f, t, c);
  }

  /** Two registered nodes have the same path. */
  ghost predicate Shared(f: Forest)
    requires WellFormed(f)
  {
    exists a, b :: a in PathMap(f) && b in PathMap(f) && a != b && PathMap(f)[a] == PathMap(f)[b]
  }

  lemma SoundIsNotShared(f: Forest)
    requires Sound(f)
    ensures !Shared(f)
  {
    forall a, b | a in PathMap(f) && b in PathMap(f) && PathMap(f)[a] == PathMap(f)[b]
      ensures a == b
    {
      PathMapInjective(f, a, b);
    }
  }

  /** Under a path that no two nodes share, only nodes below its node are registered. */
  lemma {:induction false} UnsharedIsAbove(f: Forest, n: Node, m: Node)
    requires Labelled(f) && Separated(f) && Registered(f, n) && Registered(f, m) && Unshared(f, FullPath(f, n))
    requires Under(FullPath(f, n), FullPath(f, m))
    ensures Below(f, m, n)
    decreases Rank(f, m)
  {
    var from := FullPath(f, n);
    assert NodeOk(f, m) && NodeNamed(f, m);
    if FullPath(f, m) == from {
      assert PathMap(f)[m] == PathMap(f)[n];
      assert Below(f, n, n);
    } else if f.up[m] == null {
      RootIsNotUnder(f, n, m);
    } else {
      var p := f.up[m];
      assert NodeOk(f, p);
      RegisteredIsGood(f, m);
      UnderOfParent(from, FullPath(f, p), Name(f, m));
      UnsharedIsAbove(f, n, p);
    }
  }

  lemma UnderOfParent(a: string, b: string, name: string)
    requires SEP !in name && a + [SEP] <= b + [SEP] + name
    ensures Under(a, b)
  {
    assert (b + [SEP] + name)[|a|] == SEP;
    if |a| == |b| { assert a == (b + [SEP] + name)[..|b|] == b; }
    if |a| < |b| { assert a + [SEP] == (b + [SEP] + name)[..|a| + 1] == b[..|a| + 1]; }
  }

  /** The name of a root continues no registered path. */
  lemma RootIsNotUnder(f: Forest, n: Node, m: Node)
    requires Labelled(f) && Separated(f) && Registered(f, n) && Registered(f, m) && f.up[m] == null
    ensures Under(FullPath(f, n), FullPath(f, m)) ==> FullPath(f, n) == FullPath(f, m)
  {
    RegisteredIsLegal(f, n);
    RegisteredIsLegal(f, m);
    assert NodeOk(f, m);
    if Under(FullPath(f, n), FullPath(f, m)) {
      var t := Top(f, n);
      UnderOfUnder(Name(f, t), FullPath(f, n), FullPath(f, m));
      UnderOccurs(Name(f, t), FullPath(f, m));
      assert t == m;
    }
  }

  /** In a sound tree no path is shared. */
  lemma SoundIsUnshared(f: Forest, path: string)
    requires Sound(f)
    ensures Unshared(f, path)
  {
    forall a, b | a in PathMap(f) && b in PathMap(f) && PathMap(f)[a] == PathMap(f)[b]
      ensures a == b
    {
      PathMapInjective(f, a, b);
    }
  }

  /** The path is registered, and looking it up finds a registered node. */
  ghost predicate Findable(f: Forest, path: string)
    requires WellFormed(f)
  {
    Known(f, path) && Hit(f, path) != null && Hit(f, path) in PathMap(f)
  }

  lemma FoundIsFindable(f: Forest, path: string)
    requires WellFormed(f) && Hit(f, path) != null && Hit(f, path) in PathMap(f) && PathMap(f)[Hit(f, path)] == path
    ensures Findable(f, path)
  {
  }

  /** What a lookup finds, in any tree and in a sound one. */
  lemma HitShows(f: Forest, path: string)
    requires Labelled(f) && Separated(f) && Plain(f, path)
    ensures var r := Hit(f, path);
            && (r != null ==> r in PathMap(f) && PathMap(f)[r] == path)
            && (Sound(f) ==> (r == null <==> !Known(f, path)))
  {
    HitHasThePath(f, path);
    if Sound(f) && Known(f, path) {
      var n := KnownNode(f, path);
      SoundIsUnshared(f, path);
      UnsharedIsHit(f, n);
    }
  }

  // ---------------------------------------------------------------- removing and renaming by path

  /** The path names no root and nothing is registered below it. */
  ghost predicate Removable(f: Forest, path: string)
    requires WellFormed(f)
  {
    && (forall t :: t in Tops(f) ==> Name(f, t) != path)
    && (forall m :: m in PathMap(f) ==> !(path + [SEP] <= PathMap(f)[m]))
  }

  lemma NotARoot(f: Forest, n: Node)
    requires WellFormed(f) && n in PathMap(f)
    requires forall t :: t in Tops(f) ==> Name(f, t) != PathMap(f)[n]
    ensures f.up[n] != null && !Sentinel(f, n)
  {
    assert NodeOk(f, n);
    TopIsTop(f, n);
    var t := Top(f, n);
    assert f.up[n] == null ==> t == n;
  }

  lemma PlainPersists(f: Forest, g: Forest, path: string)
    requires WellFormed(f) && WellFormed(g) && SameRoots(f, g) && Plain(f, path)
    ensures Plain(g, path)
  {
    if t: Node, c :| t in f.up && Legal(f, path, t, c) {
      assert Legal(g, path, t, c);
    }
  }

  /** Where a walk of proper components arrives is a registered node with that path. */
  lemma WalkPath(f: Forest, t: Node, c: seq<string>)
    requires Labelled(f) && t in Tops(f) && t in f.up && Good(c) && Walk(f, t, c) != null
    ensures var m := Walk(f, t, c);
            m in PathMap(f) && PathMap(f)[m] == PathString(Name(f, t), c) && Top(f, m) == t
  {
    TopsAreTop(f, t);
    FoundIsRegistered(f, t, c);
    WalkOnlyReaches(f, t, c);
    FullPathSplits(f, Walk(f, t, c));
  }

  lemma UnderSharesRoot(f: Forest, path: string, t: Node, c: seq<string>, n: Node)
    requires Sound(f) && t in f.up && Legal(f, path, t, c) && n in PathMap(f) && Under(path, PathMap(f)[n])
    ensures Top(f, n) == t && |c| <= |Comps(f, n)| && Comps(f, n)[..|c|] == c
  {
    RegisteredIsLegal(f, n);
    UnderOfUnder(Name(f, t), path, PathMap(f)[n]);
    UnderOccurs(Name(f, t), PathMap(f)[n]);
    PathPrefix(Name(f, t), c, Comps(f, n));
  }

  /** The registered paths are closed under ancestors. */
  lemma AncestorIsKnown(f: Forest, path: string, n: Node)
    requires Sound(f) && Plain(f, path) && n in PathMap(f) && Under(path, PathMap(f)[n])
    requires exists r :: r in Tops(f) && Occurs(Name(f, r), path)
    ensures Known(f, path)
  {
    var t: Node, c :| t in f.up && Legal(f, path, t, c);
    UnderSharesRoot(f, path, t, c, n);
    var cn := Comps(f, n);
    assert cn == c + cn[|c|..];
    TopsAreTop(f, t);
    WalkReaches(f, n);
    WalkPrefix(f, t, c, cn[|c|..]);
    WalkPath(f, t, c);
    assert PathMap(f)[Walk(f, t, c)] == path;
  }

  lemma {:induction false} WalkPrefix(f: Forest, a: Node, c: seq<string>, d: seq<string>)
    requires WellFormed(f) && a in f.up && Walk(f, a, c + d) != null
    ensures Walk(f, a, c) != null
    decreases |c|
  {
    assert NodeOk(f, a);
    if c != [] {
      assert (c + d)[1..] == c[1..] + d;
      WalkPrefix(f, Scan(f, Kids(f, a), c[0]), c[1..], d);
    }
  }

  /** The parent RenameItem looks for, under the cached root: the registered node whose path, with
      the last component of `to`, makes up `to`. */
  lemma ParentOfPlain(f: Forest, top: Node, to: string)
    requires Labelled(f) && Separated(f) && Unshared(f, to) && top in f.up && top in Tops(f) && Plain(f, to)
    requires forall t :: t in Tops(f) ==> Name(f, t) != to
    ensures var p := FindParent(f, top, to);
            && (p != null ==>
                  && p in PathMap(f) && Top(f, p) == top
                  && PathMap(f)[p] + [SEP] + Basename(to) == to && GoodName(Basename(to)))
            && (p == null ==>
                  forall q :: q in PathMap(f) && q in f.up && Top(f, q) == top ==> PathMap(f)[q] + [SEP] + Basename(to) != to)
  {
    if FindParent(f, top, to) != null {
      var t: Node, c :| t in f.up && Legal(f, to, t, c);
      assert t == top;
      ParentWalk(f, top, c);
    }
    forall q | q in PathMap(f) && q in f.up && Top(f, q) == top && PathMap(f)[q] + [SEP] + Basename(to) == to
      ensures FindParent(f, top, to) != null
    {
      ParentAbove(f, q, to);
    }
  }

  /** A path extending that of q is not taken for one without a parent. */
  lemma ParentAbove(f: Forest, q: Node, to: string)
    requires Labelled(f) && Separated(f) && Unshared(f, to) && q in PathMap(f) && q in f.up && Plain(f, to)
    requires forall t :: t in Tops(f) ==> Name(f, t) != to
    requires PathMap(f)[q] + [SEP] + Basename(to) == to
    ensures Top(f, q) in Tops(f) && FindParent(f, Top(f, q), to) == q
  {
    var root := Name(f, Top(f, q));
    RegisteredIsLegal(f, q);
    UnderOfUnder(root, PathMap(f)[q], to);
    UnderOccurs(root, to);
    var t: Node, c :| t in f.up && Legal(f, to, t, c);
    assert t == Top(f, q);
    BasenameOfPath(root, c);
    UnderExtends(PathMap(f)[q], PathMap(f)[q], Basename(to));
    UnsharedAbove(f, PathMap(f)[q], to);
    UnsharedWalk(f, q);
    ParentIsFound(f, q, Basename(to));
  }

  lemma ParentIsWalk(f: Forest, t: Node, c: seq<string>)
    requires WellFormed(f) && t in f.up && Good(c) && c != []
    ensures var to := PathString(Name(f, t), c);
            to != Name(f, t) && FindParent(f, t, to) == Walk(f, t, c[..|c| - 1])
  {
    var to := PathString(Name(f, t), c);
    var front := c[..|c| - 1];
    UnderOccurs(Name(f, t), to);
    assert to[|Name(f, t)| + 1..] == Join(c);
    assert c == front + [c[|c| - 1]];
    DirnameOfJoin(front, c[|c| - 1]);
    if front != [] {
      SplitFront(front);
      FindFromWalks(f, front, t);
    }
  }

  lemma ParentWalk(f: Forest, t: Node, c: seq<string>)
    requires Labelled(f) && t in Tops(f) && t in f.up && Good(c) && c != []
    ensures var to := PathString(Name(f, t), c);
            && to != Name(f, t)
            && var p := FindParent(f, t, to);
            p != null ==>
              && p in PathMap(f) && Top(f, p) == t
              && PathMap(f)[p] + [SEP] + Basename(to) == to && GoodName(Basename(to))
  {
    ParentIsWalk(f, t, c);
    BasenameOfPath(Name(f, t), c);
    if Walk(f, t, c[..|c| - 1]) != null {
      WalkPath(f, t, c[..|c| - 1]);
    }
  }

  lemma PlainToFind(f: Forest, path: string)
    requires Labelled(f) && Separated(f) && (Known(f, path) || (Sound(f) && Addable(f, path)))
    ensures Plain(f, path)
  {
    if Known(f, path) { KnownIsPlain(f, path); } else { AddableIsPlain(f, path); }
  }

  /** Looking up the built path of a registered node finds the node again, and its subtree may be
      erased when its path is removable. */
  lemma FoundAgain(f: Forest, top: Node, n: Node)
    requires Sound(f) && top in f.up && top in Tops(f) && n in PathMap(f)
    requires Removable(f, PathMap(f)[n])
    ensures n in f.up && FullPath(f, n) == PathMap(f)[n]
    ensures Find(f, top, FullPath(f, n)) == n
    ensures !Sentinel(f, n) && f.up[n] != null
  {
    JustAdded(f, top, PathMap(f)[n], n);
    NotARoot(f, n);
  }

  // ---------------------------------------------------------------- removing a folder

  function Dot(path: string): string { path + [SEP] + "." }

  function DotDot(path: string): string { path + [SEP] + ".." }

  /** Below the folder at most its two dot entries are registered. */
  ghost predicate FolderRemovable(f: Forest, path: string)
    requires WellFormed(f)
  {
    && Plain(f, path) && Plain(f, Dot(path)) && Plain(f, DotDot(path))
    && (forall t :: t in Tops(f) ==> Name(f, t) != path && Name(f, t) != Dot(path) && Name(f, t) != DotDot(path))
    && (forall m :: m in PathMap(f) && path + [SEP] <= PathMap(f)[m] ==>
                      PathMap(f)[m] == Dot(path) || PathMap(f)[m] == DotDot(path))
  }

  lemma FolderPersists(f: Forest, g: Forest, path: string)
    requires WellFormed(f) && WellFormed(g) && Shrunk(f, g) && FolderRemovable(f, path)
    ensures FolderRemovable(g, path)
  {
    PlainPersists(f, g, path);
    PlainPersists(f, g, Dot(path));
    PlainPersists(f, g, DotDot(path));
  }

  /** Nothing stands below a dot entry when only the dot entries stand below the folder. */
  lemma NothingBelowDot(path: string, dot: string, p: string)
    requires dot == Dot(path) || dot == DotDot(path)
    requires path + [SEP] <= p ==> p == Dot(path) || p == DotDot(path)
    ensures !(dot + [SEP] <= p)
  {
    assert (dot + [SEP])[..|path| + 1] == path + [SEP];
    PrefixOfPrefix(path + [SEP], dot + [SEP], p);
    assert (dot + [SEP])[|dot|] == SEP;
  }

  lemma DotsRemovable(f: Forest, path: string)
    requires WellFormed(f) && FolderRemovable(f, path)
    ensures Removable(f, Dot(path)) && Removable(f, DotDot(path))
  {
    forall m | m in PathMap(f)
      ensures !(Dot(path) + [SEP] <= PathMap(f)[m]) && !(DotDot(path) + [SEP] <= PathMap(f)[m])
    {
      NothingBelowDot(path, Dot(path), PathMap(f)[m]);
      NothingBelowDot(path, DotDot(path), PathMap(f)[m]);
    }
  }

  lemma PrefixOfPrefix(a: string, b: string, s: string)
    requires a <= b
    ensures b <= s ==> a <= s
  {
  }

  lemma FolderItselfRemovable(f: Forest, path: string)
    requires WellFormed(f) && FolderRemovable(f, path)
    requires !Known(f, Dot(path)) && !Known(f, DotDot(path))
    ensures Removable(f, path)
  {
    forall m | m in PathMap(f)
      ensures !(path + [SEP] <= PathMap(f)[m])
    {
      assert Known(f, PathMap(f)[m]);
    }
  }

  lemma ShrunkForgets(f: Forest, g: Forest, path: string)
    requires WellFormed(f) && WellFormed(g) && Shrunk(f, g) && !Known(f, path)
    ensures !Known(g, path)
  {
    if Known(g, path) {
      var n := KnownNode(g, path);
    }
  }
}
