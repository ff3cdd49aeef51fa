/** The finite map that the forest stands for: every registered node with its full path. Adding,
    removing and renaming change that map in exactly the way the caller expects. */
module Registry {
  import opened Nodes
  import opened Forests
  import opened Ancestry
  import opened Erasure
  import opened Paths
  import opened Lookup
  import opened HandleMachine

  ghost function PathMap(f: Forest): map<Node, string>
    requires WellFormed(f)
  {
    map n | n in f.up && Registered(f, n) :: FullPath(f, n)
  }

  /** A path map with every path relabelled as a rename of `from` to `to` does. */
  ghost function RelabelMap(p: map<Node, string>, from: string, to: string): map<Node, string> {
    map n | n in p :: Relabel(from, to, p[n])
  }

  lemma SameMap(p: map<Node, string>, q: map<Node, string>)
    requires forall n :: n in p ==> n in q && q[n] == p[n]
    requires forall n :: n in q ==> n in p
    ensures p == q
  {
  }

  /** What holds between any two operations. */
  ghost predicate Sound(f: Forest) {
    Named(f) && Separated(f)
  }

  lemma SoundIsShaped(f: Forest)
    requires Sound(f)
    ensures WellFormed(f) && Labelled(f) && Separated(f)
  {
  }

  /** A node whose ancestors keep their parents and names keeps its path. */
  lemma {:induction false} PathsPersist(f: Forest, g: Forest, n: Node)
    requires WellFormed(f) && WellFormed(g) && n in f.up
    requires forall m :: m in f.up ==> m in g.up && g.up[m] == f.up[m]
    requires forall m :: m in f.up ==> m in g.up && Name(g, m) == Name(f, m)
    ensures n in g.up && FullPath(g, n) == FullPath(f, n) && Comps(g, n) == Comps(f, n) && Top(g, n) == Top(f, n)
    decreases Rank(f, n)
  {
    assert NodeOk(f, n) && NodeOk(g, n);
    if f.up[n] != null {
      assert NodeOk(f, f.up[n]) && NodeOk(g, f.up[n]);
      PathsPersist(f, g, f.up[n]);
    }
  }

  /** The roots and their names are the same. */
  ghost predicate SameRoots(f: Forest, g: Forest)
    requires WellFormed(f) && WellFormed(g)
  {
    Tops(g) == Tops(f) && forall r :: r in Tops(f) ==> r in g.up && Name(g, r) == Name(f, r)
  }

  /** g lost some registered nodes of f and nothing else the clients can see. */
  ghost predicate Shrunk(f: Forest, g: Forest)
    requires WellFormed(f) && WellFormed(g)
  {
    SameRoots(f, g) && forall m :: m in PathMap(g) ==> m in PathMap(f) && PathMap(g)[m] == PathMap(f)[m]
  }

  lemma EmptyIsSound(head: Node, feet: Node)
    requires head != feet && WellFormed(Empty(head, feet))
    ensures Sound(Empty(head, feet)) && PathMap(Empty(head, feet)) == map[] && Tops(Empty(head, feet)) == []
  {
    var f := Empty(head, feet);
    assert forall n :: n in f.up ==> n == head || n == feet;
    forall p: Node | p in f.up
      ensures RowNamed(f, p)
    {
      assert f.rows[p] == [];
    }
  }

  // ---------------------------------------------------------------- adding

  /** The path of q extended by name may be added: q is registered, the path is not, and no root
      other than that of q occurs in it. */
  ghost predicate NewChild(f: Forest, q: Node, name: string)
    requires WellFormed(f)
  {
    && Registered(f, q) && q in f.rows
    && GoodName(name)
    && var path := FullPath(f, q) + [SEP] + name;
    && (forall m {:trigger FullPath(f, m)} :: m in f.up && Registered(f, m) ==> FullPath(f, m) != path)
    && OnlyRoot(f, path, Top(f, q))
  }

  ghost predicate CanAddChild(f: Forest, q: Node, name: string, n: Node) {
    Sound(f) && NewChild(f, q, name) && n !in f.up
  }

  /** The paths do not contain a second root afterwards. */
  lemma ChildSeparated(f: Forest, q: Node, name: string, h: seq<Byte>, n: Node)
    requires CanAddChild(f, q, name, n) && CanAttach(f, q, |f.rows[q]|, n)
    requires WellFormed(Attach(f, q, |f.rows[q]|, n, Item(name, Some(h))))
    ensures var g := Attach(f, q, |f.rows[q]|, n, Item(name, Some(h)));
            && Separated(g) && Tops(g) == Tops(f)
            && n in g.up && FullPath(g, n) == FullPath(f, q) + [SEP] + name
  {
    assert NodeOk(f, q);
    var g := Attach(f, q, |f.rows[q]|, n, Item(name, Some(h)));
    AttachKeeps(f, q, |f.rows[q]|, n, Item(name, Some(h)));
    assert Tops(g) == Tops(f);
    PathsPersist(f, g, q);
    assert NodeOk(g, n);
    OnlyRootPersists(f, g, FullPath(g, n), Top(f, q));
    forall m | m in g.up && Registered(g, m)
      ensures OnlyRoot(g, FullPath(g, m), Top(g, m))
    {
      if m != n {
        PathsPersist(f, g, m);
        assert Registered(f, m);
        OnlyRootPersists(f, g, FullPath(f, m), Top(f, m));
      }
    }
  }

  lemma ChildAdded(f: Forest, q: Node, name: string, h: seq<Byte>, n: Node)
    requires CanAddChild(f, q, name, n)
    ensures CanAttach(f, q, |f.rows[q]|, n)
    ensures var g := Attach(f, q, |f.rows[q]|, n, Item(name, Some(h)));
            && Sound(g)
            && PathMap(g) == PathMap(f)[n := FullPath(f, q) + [SEP] + name]
            && Tops(g) == Tops(f)
  {
    assert NodeOk(f, q);
    var x := Item(name, Some(h));
    var g := Attach(f, q, |f.rows[q]|, n, x);
    AttachWellFormed(f, q, |f.rows[q]|, n, x);
    AttachKeeps(f, q, |f.rows[q]|, n, x);
    ChildNames(f, q, name, h, n);
    ChildSeparated(f, q, name, h, n);
    LeafRegistered(f, g, n, FullPath(f, q) + [SEP] + name);
  }

  /** When g is f with one more registered leaf, its map is the map of f with one more entry. */
  lemma LeafRegistered(f: Forest, g: Forest, n: Node, path: string)
    requires WellFormed(f) && WellFormed(g) && n !in f.up
    requires g.head == f.head && g.feet == f.feet
    requires g.up.Keys == f.up.Keys + {n}
    requires forall m :: m in f.up ==> m in g.up && g.up[m] == f.up[m]
    requires forall m :: m in f.up ==> m in g.up && Name(g, m) == Name(f, m)
    requires forall m :: m in f.up ==> (Registered(g, m) <==> Registered(f, m))
    requires Registered(g, n) && FullPath(g, n) == path
    ensures PathMap(g) == PathMap(f)[n := path]
  {
    forall m | m in f.up
      ensures FullPath(g, m) == FullPath(f, m)
    {
      PathsPersist(f, g, m);
    }
  }

  lemma AttachKeeps(f: Forest, p: Node?, k: nat, n: Node, x: Item)
    requires CanAttach(f, p, k, n) && WellFormed(Attach(f, p, k, n, x))
    ensures var g := Attach(f, p, k, n, x);
            && (forall m :: m in f.up ==> m in g.up && g.up[m] == f.up[m])
            && (forall m :: m in f.up ==> m in g.up && Name(g, m) == Name(f, m))
            && (forall m :: m in f.up ==> (Registered(g, m) <==> Registered(f, m)))
            && (Registered(g, n) <==> x.handle.Some?)
            && g.up.Keys == f.up.Keys + {n}
  {
    var g := Attach(f, p, k, n, x);
    assert NodeOk(f, f.head) && NodeOk(f, f.feet);
    forall m | m in f.up
      ensures m in g.up && Name(g, m) == Name(f, m)
      ensures Registered(g, m) <==> Registered(f, m)
    {
      assert NodeOk(f, m);
    }
  }

  lemma OnlyRootPersists(f: Forest, g: Forest, path: string, t: Node)
    requires WellFormed(f) && WellFormed(g) && OnlyRoot(f, path, t)
    requires forall r :: r in Tops(g) ==> r in Tops(f) && r in g.up && r in f.up && Name(g, r) == Name(f, r)
    requires t in Tops(g)
    ensures OnlyRoot(g, path, t)
  {
  }

  lemma ChildNames(f: Forest, q: Node, name: string, h: seq<Byte>, n: Node)
    requires CanAddChild(f, q, name, n) && CanAttach(f, q, |f.rows[q]|, n)
    requires WellFormed(Attach(f, q, |f.rows[q]|, n, Item(name, Some(h))))
    ensures Named(Attach(f, q, |f.rows[q]|, n, Item(name, Some(h))))
  {
    var x := Item(name, Some(h));
    var g := Attach(f, q, |f.rows[q]|, n, x);
    AttachKeeps(f, q, |f.rows[q]|, n, x);
    assert Tops(g) == Tops(f);
    forall m | m in g.up && !Sentinel(g, m)
      ensures NodeNamed(g, m)
    {
      assert NodeOk(g, m);
      if m != n { assert NodeNamed(f, m); }
    }
    forall p: Node | p in g.up
      ensures RowNamed(g, p)
    {
      ChildRow(f, q, name, h, n, p);
    }
  }

  lemma ChildRow(f: Forest, q: Node, name: string, h: seq<Byte>, n: Node, p: Node)
    requires CanAddChild(f, q, name, n) && CanAttach(f, q, |f.rows[q]|, n)
    requires WellFormed(Attach(f, q, |f.rows[q]|, n, Item(name, Some(h))))
    requires p == n || p in f.up
    ensures RowNamed(Attach(f, q, |f.rows[q]|, n, Item(name, Some(h))), p)
  {
    var x := Item(name, Some(h));
    var g := Attach(f, q, |f.rows[q]|, n, x);
    AttachKeeps(f, q, |f.rows[q]|, n, x);
    if p != n {
      assert RowNamed(f, p) && RowOk(f, p);
      assert g.rows[q] == f.rows[q] + [n];
      assert forall a :: a in g.rows[p] ==> a in f.rows[p] || (p == q && a == n);
      assert RowOk(f, q);
      forall a | a in f.rows[q]
        ensures a in f.up && Name(f, a) != name
      {
        assert NodeOk(f, a);
        ParentedIsProper(f, a);
        assert NodeNamed(f, a);
        assert Name(f, a) != "" ==> Registered(f, a);
        assert FullPath(f, a) == FullPath(f, q) + [SEP] + Name(f, a);
      }
    }
  }

  /** The path may be added as a new root: no root occurs in it, and it occurs in no registered
      path. */
  ghost predicate NewRoot(f: Forest, path: string)
    requires WellFormed(f)
  {
    && path != ""
    && (forall r :: r in Tops(f) ==> !Occurs(Name(f, r), path))
    && (forall m {:trigger FullPath(f, m)} :: m in f.up && Registered(f, m) ==> !Occurs(path, FullPath(f, m)))
  }

  ghost predicate CanAddRoot(f: Forest, path: string, k: nat, n: Node) {
    Sound(f) && NewRoot(f, path) && n !in f.up && 0 < k < |f.rows[null]|
  }

  /** A path being added either has its parent registered or lies under no existing root. */
  ghost predicate Addable(f: Forest, path: string)
    requires WellFormed(f)
  {
    NewRoot(f, path)
    || exists q :: q in f.up && NewChild(f, q, Basename(path)) && path == FullPath(f, q) + [SEP] + Basename(path)
  }

  lemma RootTops(f: Forest, k: nat, n: Node, x: Item)
    requires CanAttach(f, null, k, n) && WellFormed(Attach(f, null, k, n, x))
    ensures forall r :: r in Tops(Attach(f, null, k, n, x)) ==> r == n || r in Tops(f)
    ensures forall r :: r in Tops(f) ==> r in Tops(Attach(f, null, k, n, x))
    ensures n in Tops(Attach(f, null, k, n, x))
  {
    var g := Attach(f, null, k, n, x);
    var s := f.rows[null];
    assert Tops(g) == s[1..k] + [n] + s[k..|s| - 1];
    assert Tops(f) == s[1..k] + s[k..|s| - 1];
  }

  lemma RootAdded(f: Forest, path: string, h: seq<Byte>, k: nat, n: Node)
    requires CanAddRoot(f, path, k, n)
    ensures CanAttach(f, null, k, n)
    ensures var g := Attach(f, null, k, n, Item(path, Some(h)));
            Sound(g) && PathMap(g) == PathMap(f)[n := path] && n in Tops(g)
  {
    var x := Item(path, Some(h));
    assert CanAttach(f, null, k, n);
    var g := Attach(f, null, k, n, x);
    AttachWellFormed(f, null, k, n, x);
    AttachKeeps(f, null, k, n, x);
    RootTops(f, k, n, x);
    forall r | r in Tops(f)
      ensures Name(f, r) != path
    {
      OccursAt(path, path, 0);
    }
    RootNames(f, path, h, k, n);
    assert NodeOk(g, n) && FullPath(g, n) == path && Top(g, n) == n;
    LeafRegistered(f, g, n, path);
    forall m | m in g.up && Registered(g, m)
      ensures OnlyRoot(g, FullPath(g, m), Top(g, m))
    {
      if m != n {
        PathsPersist(f, g, m);
        assert Registered(f, m);
        assert OnlyRoot(f, FullPath(f, m), Top(f, m));
      }
    }
  }

  lemma RootNames(f: Forest, path: string, h: seq<Byte>, k: nat, n: Node)
    requires Named(f) && CanAttach(f, null, k, n)
    requires path != "" && forall r :: r in Tops(f) ==> Name(f, r) != path
    requires WellFormed(Attach(f, null, k, n, Item(path, Some(h))))
    ensures Named(Attach(f, null, k, n, Item(path, Some(h))))
  {
    hide Below, FullPath;
    var x := Item(path, Some(h));
    var g := Attach(f, null, k, n, x);
    AttachKeeps(f, null, k, n, x);
    RootTops(f, k, n, x);
    forall m | m in g.up && !Sentinel(g, m)
      ensures NodeNamed(g, m)
    {
      assert NodeOk(g, m);
      if m != n { assert NodeNamed(f, m); }
    }
    forall p: Node | p in g.up
      ensures RowNamed(g, p)
    {
      if p != n {
        assert RowNamed(f, p) && RowOk(f, p);
      }
    }
  }

  // ---------------------------------------------------------------- which case AddItem takes

  lemma NoTops(f: Forest)
    requires WellFormed(f) && Tops(f) == []
    ensures f.rows[null] == [f.head, f.feet]
  {
    assert |f.rows[null]| == 2;
  }

  lemma EmptyHasNoTops(f: Forest)
    requires WellFormed(f)
    ensures Tops(f) == [] <==> f.rows[null] == [f.head, f.feet]
  {
    SentinelsAreOk(f);
    if f.rows[null] == [f.head, f.feet] { assert Tops(f) == []; } else if Tops(f) == [] { NoTops(f); }
  }

  lemma TopPlace(f: Forest, t: Node)
    requires WellFormed(f) && t in Tops(f)
    ensures t in f.up && f.up[t] == null && t != f.head && 0 < Place(f, t) < |f.rows[null]|
  {
    TopsAreTop(f, t);
    assert NodeOk(f, t);
  }

  lemma AddableToEmpty(f: Forest, path: string)
    requires WellFormed(f) && Addable(f, path) && f.rows[null] == [f.head, f.feet]
    ensures NewRoot(f, path)
  {
    assert Tops(f) == [];
    if !NewRoot(f, path) {
      var q: Node :| q in f.up && NewChild(f, q, Basename(path));
      TopIsTop(f, q);
    }
  }

  lemma NotTheRoot(f: Forest, top: Node, path: string)
    requires Sound(f) && top in f.up && top in Tops(f) && Addable(f, path)
    ensures path != Name(f, top)
  {
    TopsAreTop(f, top);
    assert NodeNamed(f, top) && NodeOk(f, top);
    OccursAt(path, path, 0);
    assert FullPath(f, top) == Name(f, top);
  }

  /** With the root of an addable path cached, the code finds the parent exactly when the path
      extends a registered one. */
  lemma ParentOrRoot(f: Forest, top: Node, path: string)
    requires Sound(f) && top in f.up && top in Tops(f) && Addable(f, path)
    requires top == CachedRoot(f, top, path) && path != Name(f, top)
    ensures var q := FindParent(f, top, path);
            if q == null then NewRoot(f, path)
            else NewChild(f, q, Basename(path)) && path == FullPath(f, q) + [SEP] + Basename(path)
  {
    if q: Node :| q in f.up && NewChild(f, q, Basename(path)) && path == FullPath(f, q) + [SEP] + Basename(path) {
      CacheIsTransparent(f, top, path, Top(f, q));
      WalkReaches(f, q);
      ParentIsFound(f, q, Basename(path));
    }
  }

  /** findParentNodeFromRootForPath finds the node whose path stands before the last component, if the
      walk down that path arrives there. */
  lemma ParentIsFound(f: Forest, q: Node, name: string)
    requires Labelled(f) && Registered(f, q) && GoodName(name) && Walk(f, Top(f, q), Comps(f, q)) == q
    ensures var path, t := FullPath(f, q) + [SEP] + name, Top(f, q);
            path != Name(f, t) && FindParent(f, t, path) == q
  {
    var t, c := Top(f, q), Comps(f, q);
    var path := FullPath(f, q) + [SEP] + name;
    FullPathSplits(f, q);
    RegisteredIsGood(f, q);
    DirnameOfChild(Name(f, t), c, name);
    if c != [] {
      SplitFront(c);
      FindFromWalks(f, c, t);
    }
  }

  lemma DirnameOfChild(root: string, c: seq<string>, name: string)
    requires Good(c) && GoodName(name)
    ensures var path := PathString(root, c) + [SEP] + name;
            && Occurs(root, path) && |path| > |root|
            && Dirname(path[|root| + 1..]) == if c == [] then "" else Join(c)
  {
    var path := PathString(root, c) + [SEP] + name;
    UnderOccurs(root, path);
    var rest := path[|root| + 1..];
    if c == [] {
      assert rest == name;
      SplitSingle(name);
    } else {
      assert rest == Join(c) + [SEP] + name;
      SplitBack(Join(c), name);
    }
  }

  // ---------------------------------------------------------------- removing

  // ---------------------------------------------------------------- what AddItem does

  /** The node a search for the parent finds is no sentinel. */
  lemma {:induction false} FoundIsProper(f: Forest, path: string, node: Node)
    requires WellFormed(f) && node in f.up && FindFrom(f, path, node) != null
    ensures FindFrom(f, path, node) in f.rows && !Sentinel(f, FindFrom(f, path, node))
    decreases |path|
  {
    NodeIsOk(f, node);
    var c := Scan(f, Kids(f, node), FirstDirname(path));
    RowIsOk(f, node);
    NodeIsOk(f, c);
    if FollowingPath(path) == "" { ParentedIsProper(f, c); } else { FoundIsProper(f, FollowingPath(path), c); }
  }

  lemma ParentIsProper(f: Forest, top: Node, path: string)
    requires WellFormed(f) && top in Tops(f) && path != Name(f, top) && FindParent(f, top, path) != null
    ensures FindParent(f, top, path) in f.rows && !Sentinel(f, FindParent(f, top, path))
  {
    TopsAreTop(f, top);
    NodeIsOk(f, top);
    OccursLength(Name(f, top), path);
    var dir := Dirname(path[|Name(f, top)| + 1..]);
    if dir != "" { FoundIsProper(f, dir, top); }
  }

  /** g is f with the item below the parent that is found under the cached root, or else in front of that
      root, or alone. */
  ghost predicate ItemAdded(f: Forest, g: Forest, top: Node?, path: string, item: Item, n: Node)
    requires WellFormed(f) && (top != null ==> top in f.up && path != Name(f, top))
  {
    var q := if top == null then null else FindParent(f, top, path);
    if q != null then
      && q in f.rows && CanAttach(f, q, |f.rows[q]|, n)
      && item.path == Basename(path) && g == Attach(f, q, |f.rows[q]|, n, item)
    else
      var k := if top == null then 1 else Place(f, top);
      CanAttach(f, null, k, n) && item.path == path && g == Attach(f, null, k, n, item)
  }

  lemma AddedIsSound(f: Forest, g: Forest, top: Node?, path: string, item: Item, n: Node)
    requires Sound(f) && Addable(f, path) && item.handle.Some? && n !in f.up
    requires if top == null then Tops(f) == [] else top in f.up && top in Tops(f) && top == CachedRoot(f, top, path)
    requires (top != null ==> path != Name(f, top)) && ItemAdded(f, g, top, path, item, n)
    ensures Sound(g) && PathMap(g) == PathMap(f)[n := path] && n in g.up && g.item == f.item[n := item]
  {
    hide Sound, Addable, PathMap, Named;
    SoundIsShaped(f);
    if top == null {
      NoTops(f);
      AddableToEmpty(f, path);
      RootAdded(f, path, item.handle.value, 1, n);
    } else {
      TopPlace(f, top);
      ParentOrRoot(f, top, path);
      var q := FindParent(f, top, path);
      if q != null {
        ChildAdded(f, q, item.path, item.handle.value, n);
      } else {
        RootAdded(f, path, item.handle.value, Place(f, top), n);
      }
    }
  }

  lemma ErasedTops(f: Forest, n: Node)
    requires CanErase(f, n) && WellFormed(Erased(f, n)) && f.up[n] != null
    ensures SameRoots(f, Erased(f, n))
  {
    hide Below;
    var g := Erased(f, n);
    assert NodeOk(f, n);
    assert Tops(g) == Tops(f);
    forall r | r in Tops(f)
      ensures r in g.up && Name(g, r) == Name(f, r)
    {
      TopsAreTop(g, r);
      ErasedPath(f, n, r);
    }
  }

  lemma ErasedSeparated(f: Forest, n: Node)
    requires Sound(f) && CanErase(f, n) && WellFormed(Erased(f, n)) && SameRoots(f, Erased(f, n))
    ensures Separated(Erased(f, n))
  {
    hide Erased, FullPath, Top, OnlyRoot, Named, Labelled;
    var g := Erased(f, n);
    forall m | m in g.up && Registered(g, m)
      ensures OnlyRoot(g, FullPath(g, m), Top(g, m))
    {
      ErasedPath(f, n, m);
      assert Registered(f, m);
      TopIsTop(g, m);
      forall r | r in Tops(g)
        ensures r in f.up
      {
        TopsAreTop(f, r);
      }
      OnlyRootPersists(f, g, FullPath(f, m), Top(f, m));
    }
  }

  lemma ErasedMap(f: Forest, n: Node)
    requires CanErase(f, n) && WellFormed(Erased(f, n))
    ensures PathMap(Erased(f, n)) == PathMap(f) - Subtree(f, n)
  {
    hide FullPath, Top, Below;
    var g := Erased(f, n);
    forall m | m in g.up
      ensures m in f.up && FullPath(g, m) == FullPath(f, m) && (Registered(g, m) <==> Registered(f, m))
    {
      ErasedPath(f, n, m);
    }
  }

  /** Erasing a subtree drops exactly its nodes from the map. */
  lemma SubtreeRemoved(f: Forest, n: Node)
    requires Sound(f) && CanErase(f, n)
    requires f.up[n] != null
    ensures var g := Erased(f, n);
            && Sound(g)
            && PathMap(g) == PathMap(f) - Subtree(f, n)
            && SameRoots(f, g)
  {
    hide Erased, PathMap, Separated, Named, Subtree, Below;
    ErasedWellFormed(f, n);
    ErasedTops(f, n);
    ErasedMap(f, n);
    ErasedSeparated(f, n);
    RemovedNames(f, n);
  }

  lemma ErasedPath(f: Forest, n: Node, m: Node)
    requires CanErase(f, n) && WellFormed(Erased(f, n)) && m in Erased(f, n).up
    ensures var g := Erased(f, n);
            && m in f.up && Name(g, m) == Name(f, m)
            && FullPath(g, m) == FullPath(f, m) && Top(g, m) == Top(f, m)
            && (Registered(g, m) <==> Registered(f, m))
  {
    var g := Erased(f, n);
    forall x | x in g.up
      ensures x in f.up && g.up[x] == f.up[x] && Name(g, x) == Name(f, x)
    {
      assert NodeOk(f, x);
    }
    assert NodeOk(f, m);
    PathsPersist(g, f, m);
  }

  lemma RemovedNames(f: Forest, n: Node)
    requires Named(f) && CanErase(f, n) && WellFormed(Erased(f, n)) && f.up[n] != null
    requires Tops(Erased(f, n)) == Tops(f)
    ensures Named(Erased(f, n))
  {
    var g := Erased(f, n);
    forall m | m in g.up
      ensures m in f.up && Name(g, m) == Name(f, m)
    {
      ErasedPath(f, n, m);
    }
    forall m | m in g.up && !Sentinel(g, m)
      ensures NodeNamed(g, m)
    {
      assert NodeNamed(f, m) && NodeOk(g, m) && NodeOk(f, m);
      UnlinkedRow(f, n, m);
    }
    forall p: Node | p in g.up
      ensures RowNamed(g, p)
    {
      assert RowNamed(f, p) && NodeOk(g, p) && NodeOk(f, p);
      UnlinkedRow(f, n, p);
    }
  }
}
