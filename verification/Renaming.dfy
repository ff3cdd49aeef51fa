/** Renaming a node: moving it under another parent and giving it another name relabels the
    registered paths at and below it, and nothing else. */
module Renaming {
  import opened Nodes
  import opened Forests
  import opened Ancestry
  import opened Paths
  import opened Lookup
  import opened Registry
  import opened HandleMachine

  // ---------------------------------------------------------------- paths under a node

  /** A node below another carries its path as a prefix, up to a separator. */
  lemma {:induction false} BelowIsUnder(f: Forest, m: Node, n: Node)
    requires WellFormed(f) && m in f.up && n in f.up && Below(f, m, n)
    ensures Under(FullPath(f, n), FullPath(f, m))
    decreases Rank(f, m)
  {
    assert NodeOk(f, m);
    if m != n {
      assert NodeOk(f, f.up[m]);
      BelowIsUnder(f, f.up[m], n);
    }
  }

  lemma {:induction false} WalkPassesBelow(f: Forest, a: Node, c: seq<string>)
    requires WellFormed(f) && a in f.up && Walk(f, a, c) != null
    ensures Below(f, Walk(f, a, c), a)
    decreases |c|
  {
    assert NodeOk(f, a);
    if c == [] {
      assert Below(f, a, a);
    } else {
      var k := Scan(f, Kids(f, a), c[0]);
      assert RowOk(f, a);
      WalkPassesBelow(f, k, c[1..]);
      KidIsBelow(f, k, a);
      BelowTransitive(f, Walk(f, a, c), k, a);
    }
  }

  lemma {:induction false} WalkConcat(f: Forest, a: Node, c: seq<string>, d: seq<string>)
    requires WellFormed(f) && a in f.up && Walk(f, a, c) != null
    ensures Walk(f, a, c + d) == Walk(f, Walk(f, a, c), d)
    decreases |c|
  {
    if c == [] {
      assert c + d == d;
    } else {
      assert (c + d)[1..] == c[1..] + d;
      assert NodeOk(f, a);
      WalkConcat(f, Scan(f, Kids(f, a), c[0]), c[1..], d);
    }
  }

  /** A path under another one, as components. */
  lemma ComponentsPrefix(root: string, cn: seq<string>, cm: seq<string>)
    requires cn != [] && cm != [] && Good(cn) && Good(cm)
    requires Under(root + [SEP] + Join(cn), root + [SEP] + Join(cm))
    ensures cn <= cm
  {
    var p, q := root + [SEP] + Join(cn), root + [SEP] + Join(cm);
    assert p[|root| + 1..] == Join(cn) && q[|root| + 1..] == Join(cm);
    if p == q {
      JoinInjective(cn, cm);
    } else {
      assert Join(cn) + [SEP] <= Join(cm);
      JoinPrefix(cn, cm);
    }
  }

  /** Conversely, only nodes below n have paths under the path of n. */
  lemma UnderIsBelow(f: Forest, m: Node, n: Node)
    requires Sound(f) && Registered(f, m) && Registered(f, n) && f.up[n] != null
    requires Under(FullPath(f, n), FullPath(f, m))
    ensures Below(f, m, n)
  {
    hide Walk, Join;
    var t := Top(f, n);
    FullPathSplits(f, n);
    FullPathSplits(f, m);
    RegisteredIsGood(f, n);
    RegisteredIsGood(f, m);
    assert NodeOk(f, n);
    var cn, cm, root := Comps(f, n), Comps(f, m), Name(f, t);
    assert Under(root, FullPath(f, m));
    UnderOccurs(root, FullPath(f, m));
    TopIsTop(f, n);
    assert Top(f, m) == t && cn != [] && cm != [];
    ComponentsPrefix(root, cn, cm);
    UnderComponents(f, t, m, n, cm[|cn|..]);
  }

  /** The walk to m passes n. */
  lemma UnderComponents(f: Forest, t: Node, m: Node, n: Node, rest: seq<string>)
    requires Sound(f) && Registered(f, m) && Registered(f, n) && t == Top(f, n) == Top(f, m) && t in f.up
    requires Comps(f, m) == Comps(f, n) + rest
    ensures Below(f, m, n)
  {
    hide Walk, Below, FullPath, Comps;
    WalkReaches(f, n);
    WalkReaches(f, m);
    WalkConcat(f, t, Comps(f, n), rest);
    WalkPassesBelow(f, n, rest);
  }

  // ---------------------------------------------------------------- relocation

  /** g differs from f in the parent and the name of node (and perhaps in new nodes). */
  ghost predicate Relocated(f: Forest, g: Forest, node: Node, parent: Node, base: string) {
    && WellFormed(f) && WellFormed(g)
    && node in f.up && parent in f.up && !Below(f, parent, node)
    && (forall m :: m in f.up ==> m in g.up)
    && (forall m :: m in f.up && m != node ==> g.up[m] == f.up[m] && Name(g, m) == Name(f, m))
    && g.up[node] == parent && Name(g, node) == base
  }

  lemma {:induction false} OutsideKeepsPath(f: Forest, g: Forest, node: Node, parent: Node, base: string, m: Node)
    requires Relocated(f, g, node, parent, base) && m in f.up && !Below(f, m, node)
    ensures FullPath(g, m) == FullPath(f, m) && Top(g, m) == Top(f, m)
    decreases Rank(f, m)
  {
    assert NodeOk(f, m) && NodeOk(g, m);
    if f.up[m] != null {
      assert NodeOk(f, f.up[m]) && NodeOk(g, f.up[m]);
      OutsideKeepsPath(f, g, node, parent, base, f.up[m]);
    }
  }

  lemma {:induction false} InsideMovesPath(f: Forest, g: Forest, node: Node, parent: Node, base: string, m: Node)
    requires Relocated(f, g, node, parent, base) && m in f.up && Below(f, m, node)
    ensures |FullPath(f, node)| <= |FullPath(f, m)|
    ensures FullPath(g, m) == FullPath(f, parent) + [SEP] + base + FullPath(f, m)[|FullPath(f, node)|..]
    ensures Top(g, m) == Top(f, parent)
    decreases Rank(f, m)
  {
    hide Under;
    assert NodeOk(f, m) && NodeOk(g, m);
    if m == node {
      assert NodeOk(g, parent);
      OutsideKeepsPath(f, g, node, parent, base, parent);
    } else {
      var p := f.up[m];
      assert NodeOk(f, p) && NodeOk(g, p);
      InsideMovesPath(f, g, node, parent, base, p);
      BelowIsUnder(f, p, node);
      var k := |FullPath(f, node)|;
      assert FullPath(f, m)[k..] == FullPath(f, p)[k..] + [SEP] + Name(f, m);
    }
  }

  /** Whatever is registered under the path of the node is a node below it. */
  ghost predicate OwnsItsPaths(f: Forest, node: Node)
    requires WellFormed(f) && node in f.up
  {
    forall m {:trigger Registered(f, m)} :: m in f.up && Registered(f, m) && Under(FullPath(f, node), FullPath(f, m)) ==> Below(f, m, node)
  }

  /** The caller's conditions for a rename of node to the name base under parent. Siblings elsewhere may
      share a name. */
  ghost predicate CanRename(f: Forest, node: Node, parent: Node, base: string) {
    && Labelled(f) && Separated(f)
    && Registered(f, node) && f.up[node] != null && Registered(f, parent)
    && !Below(f, parent, node) && OwnsItsPaths(f, node)
    && GoodName(base)
    && var from, to := FullPath(f, node), FullPath(f, parent) + [SEP] + base;
    && (forall m {:trigger Relabel(from, to, FullPath(f, m))} :: m in f.up && Registered(f, m) && Below(f, m, node) ==>
          OnlyRoot(f, Relabel(from, to, FullPath(f, m)), Top(f, parent)))
  }

  /** No other registered node has the path the rename is to. */
  ghost predicate Unoccupied(f: Forest, node: Node, parent: Node, base: string)
    requires WellFormed(f) && parent in f.up
  {
    forall m {:trigger FullPath(f, m)} ::
      m in f.up && Registered(f, m) && m != node ==> FullPath(f, m) != FullPath(f, parent) + [SEP] + base
  }

  /** g registers the same nodes as f, under the same roots. */
  ghost predicate SameNodes(f: Forest, g: Forest)
    requires WellFormed(f) && WellFormed(g)
  {
    && Tops(g) == Tops(f)
    && (forall m :: m in f.up ==> m in g.up && (Registered(g, m) <==> Registered(f, m)))
    && (forall m :: m in g.up && m !in f.up ==> !Registered(g, m))
  }

  /** The map after a rename is the old map, relabelled. */
  lemma RenameRelabels(f: Forest, g: Forest, node: Node, parent: Node, base: string)
    requires CanRename(f, node, parent, base) && Relocated(f, g, node, parent, base) && SameNodes(f, g)
    ensures var from, to := FullPath(f, node), FullPath(f, parent) + [SEP] + base;
            PathMap(g) == RelabelMap(PathMap(f), from, to)
  {
    var from, to := FullPath(f, node), FullPath(f, parent) + [SEP] + base;
    forall m | m in PathMap(f)
      ensures m in PathMap(g) && PathMap(g)[m] == Relabel(from, to, PathMap(f)[m])
    {
      OneRelabelled(f, g, node, parent, base, m);
    }
    SameMap(RelabelMap(PathMap(f), from, to), PathMap(g));
  }

  lemma RenameSeparated(f: Forest, g: Forest, node: Node, parent: Node, base: string)
    requires CanRename(f, node, parent, base) && Relocated(f, g, node, parent, base) && SameNodes(f, g)
    ensures Separated(g)
  {
    forall m | m in g.up && Registered(g, m)
      ensures OnlyRoot(g, FullPath(g, m), Top(g, m))
    {
      OneRelabelled(f, g, node, parent, base, m);
    }
  }

  lemma OneRelabelled(f: Forest, g: Forest, node: Node, parent: Node, base: string, m: Node)
    requires CanRename(f, node, parent, base) && Relocated(f, g, node, parent, base)
    requires Tops(g) == Tops(f)
    requires m in f.up && Registered(f, m)
    ensures FullPath(g, m) == Relabel(FullPath(f, node), FullPath(f, parent) + [SEP] + base, FullPath(f, m))
    ensures OnlyRoot(g, FullPath(g, m), Top(g, m))
  {
    var from, to := FullPath(f, node), FullPath(f, parent) + [SEP] + base;
    TopsKeepNames(f, g, node, parent, base);
    if Below(f, m, node) {
      InsideMovesPath(f, g, node, parent, base, m);
      BelowIsUnder(f, m, node);
      assert FullPath(g, m) == Relabel(from, to, FullPath(f, m));
      OnlyRootPersists(f, g, FullPath(g, m), Top(f, parent));
    } else {
      OutsideKeepsPath(f, g, node, parent, base, m);
      assert Registered(f, m);
      OnlyRootPersists(f, g, FullPath(f, m), Top(f, m));
    }
  }

  lemma TopsKeepNames(f: Forest, g: Forest, node: Node, parent: Node, base: string)
    requires Relocated(f, g, node, parent, base) && f.up[node] != null && Tops(g) == Tops(f)
    ensures forall r :: r in Tops(g) ==> r in g.up && r in f.up && Name(g, r) == Name(f, r)
  {
    forall r | r in Tops(f)
      ensures r in f.up && r != node
    {
      TopsAreTop(f, r);
    }
  }

  // ---------------------------------------------------------------- what RenameItem does

  /** The children of parent after the placeholder step: never none. */
  ghost function WithPlaceholder(f: Forest, parent: Node, ph: Node): Forest
    requires WellFormed(f) && parent in f.rows && !Sentinel(f, parent)
    requires f.rows[parent] == [] ==> ph !in f.up
  {
    if f.rows[parent] == [] then Attach(f, parent, 0, ph, NO_ITEM) else f
  }

  /** The move behind the first child of parent, followed by the change of name. */
  ghost function RenamedForest(f: Forest, node: Node, parent: Node, base: string): Forest
    requires WellFormed(f) && parent in f.rows && f.rows[parent] != []
    requires node in f.up && f.rows[parent][0] in f.up
    requires f.rows[parent][0] == node || CanMove(f, f.rows[parent][0], node)
  {
    assert NodeOk(f, node);
    var g := MovedAfter(f, f.rows[parent][0], node);
    WithPath(g, node, base)
  }

  ghost predicate CanPlace(f: Forest, node: Node, parent: Node) {
    && WellFormed(f) && node in f.up && parent in f.up && parent in f.rows && f.rows[parent] != []
    && f.up[node] != null && !Below(f, parent, node)
  }

  /** node may be moved behind the first child of parent. */
  ghost predicate Placeable(f: Forest, node: Node, parent: Node) {
    && CanPlace(f, node, parent)
    && var first := f.rows[parent][0];
       first in f.up && f.up[first] == parent && (first == node || CanMove(f, first, node))
  }

  ghost predicate RenameAllowed(f: Forest, node: Node, parent: Node, ph: Node) {
    && WellFormed(f) && parent in f.rows && !Sentinel(f, parent)
    && (f.rows[parent] == [] ==> ph !in f.up)
    && Placeable(WithPlaceholder(f, parent, ph), node, parent)
  }

  lemma FirstKidIsTarget(f: Forest, node: Node, parent: Node)
    requires CanPlace(f, node, parent)
    ensures Placeable(f, node, parent)
  {
    var first := f.rows[parent][0];
    assert RowOk(f, parent) && NodeOk(f, first);
    ParentedIsProper(f, first);
    ParentedIsProper(f, node);
  }

  lemma MoveAfterRow(f: Forest, dst: Node, src: Node, q: Node?)
    requires CanMove(f, dst, src) && q in f.rows
    ensures var g := MoveAfter(f, dst, src);
            && q in g.rows
            && (forall c :: c in g.rows[q] ==> c in f.rows[q] || (q == f.up[dst] && c == src))
            && (q != f.up[dst] ==> src !in g.rows[q])
            && (q != f.up[dst] && q != f.up[src] ==> g.rows[q] == f.rows[q])
  {
    assert Below(f, src, src) && NodeOk(f, dst);
    MovedRowsMembers(f, dst, src, q);
    UnlinkedRow(f, src, f.up[dst]);
  }

  lemma MovedRow(f: Forest, dst: Node, src: Node, q: Node?)
    requires WellFormed(f) && dst in f.up && src in f.up && q in f.rows
    requires dst == src || CanMove(f, dst, src)
    ensures var g := MovedAfter(f, dst, src);
            && q in g.rows
            && (forall c :: c in g.rows[q] ==> c in f.rows[q] || (q == f.up[dst] && c == src))
            && (q != f.up[dst] ==> src !in g.rows[q])
            && (q != f.up[dst] && q != f.up[src] ==> g.rows[q] == f.rows[q])
  {
    assert NodeOk(f, dst) && NodeOk(f, src);
    assert RowOk(f, f.up[dst]) && RowOk(f, q);
    if dst != src && Next(f, dst) != src {
      MoveAfterRow(f, dst, src, q);
    }
  }

  lemma MovedLinksUp(f: Forest, dst: Node, src: Node)
    requires WellFormed(f) && dst in f.up && src in f.up
    requires dst == src || CanMove(f, dst, src)
    ensures var g := MovedAfter(f, dst, src);
            && g.up == f.up[src := f.up[dst]]
            && g.item == f.item && g.head == f.head && g.feet == f.feet
  {
    assert NodeOk(f, dst) && NodeOk(f, src);
    if dst != src && Next(f, dst) == src {
      assert RowOk(f, f.up[dst]);
    }
  }

  lemma RenamedWellFormed(f: Forest, node: Node, parent: Node, base: string)
    requires Placeable(f, node, parent)
    ensures var g := RenamedForest(f, node, parent, base);
            && WellFormed(g) && g.head == f.head && g.feet == f.feet
            && g.up == f.up[node := parent] && node in f.item && g.item == f.item[node := f.item[node].(path := base)]
  {
    var first := f.rows[parent][0];
    if first != node { MoveWellFormed(f, first, node); }
    var h := MovedAfter(f, first, node);
    assert NodeOk(f, node);
    MovedLinksUp(f, first, node);
    forall n | n in h.up
      ensures n in h.item
    {
      assert NodeOk(h, n);
    }
    SameButItems(h, RenamedForest(f, node, parent, base));
  }

  lemma RenamedRow(f: Forest, node: Node, parent: Node, base: string, q: Node?)
    requires Placeable(f, node, parent) && q in f.rows
    ensures var g := RenamedForest(f, node, parent, base);
            && q in g.rows
            && (forall c :: c in g.rows[q] ==> c in f.rows[q] || (q == parent && c == node))
            && (q != parent ==> node !in g.rows[q])
            && (q != parent && q != f.up[node] ==> g.rows[q] == f.rows[q])
  {
    hide WellFormed, CanMove, MovedAfter;
    MovedRow(f, f.rows[parent][0], node, q);
  }

  lemma RenamedShape(f: Forest, node: Node, parent: Node, base: string)
    requires Placeable(f, node, parent)
    ensures var g := RenamedForest(f, node, parent, base);
            && WellFormed(g) && g.head == f.head && g.feet == f.feet
            && Relocated(f, g, node, parent, base)
            && g.up.Keys == f.up.Keys
            && SameNodes(f, g)
  {
    hide RenamedForest, WellFormed, Below, CanMove;
    var g := RenamedForest(f, node, parent, base);
    RenamedWellFormed(f, node, parent, base);
    SentinelsAreOk(f);
    RenamedRow(f, node, parent, base, null);
    forall m | m in f.up
      ensures m != node ==> Name(g, m) == Name(f, m)
      ensures Registered(g, m) <==> Registered(f, m)
    {
      NodeIsOk(f, m);
      NodeIsOk(g, m);
    }
    NodeIsOk(g, node);
  }

  lemma RenamedLabels(f: Forest, node: Node, parent: Node, base: string)
    requires Placeable(f, node, parent)
    requires Labelled(f) && GoodName(base) && Registered(f, node)
    requires parent in f.item && f.item[parent].handle.Some?
    ensures Labelled(RenamedForest(f, node, parent, base))
  {
    var g := RenamedForest(f, node, parent, base);
    var first := f.rows[parent][0];
    RenamedShape(f, node, parent, base);
    MovedLinksUp(f, first, node);
    forall m | m in g.up && !Sentinel(g, m)
      ensures NodeNamed(g, m)
    {
      assert NodeNamed(f, m) && NodeOk(g, m) && NodeOk(f, m);
      MovedRow(f, first, node, m);
      if g.rows[m] != [] {
        assert g.rows[m][0] in g.rows[m];
        if m != parent {
          assert f.rows[m] != [];
        }
      }
    }
  }

  lemma RenamedNames(f: Forest, node: Node, parent: Node, base: string)
    requires Placeable(f, node, parent)
    requires Named(f) && GoodName(base) && Registered(f, node)
    requires parent in f.item && f.item[parent].handle.Some?
    requires forall a :: a in f.rows[parent] && a != node && a in f.up ==> Name(f, a) != base
    ensures Named(RenamedForest(f, node, parent, base))
  {
    hide WellFormed, Labelled, Below, CanMove, RenamedForest;
    var g := RenamedForest(f, node, parent, base);
    RenamedShape(f, node, parent, base);
    RenamedLabels(f, node, parent, base);
    forall p: Node | p in g.up
      ensures RowNamed(g, p)
    {
      assert RowNamed(f, p);
      NodeIsOk(f, p);
      NodeIsOk(g, p);
      RowIsOk(f, p);
      RenamedRow(f, node, parent, base, p);
    }
    TopsKeepNames(f, g, node, parent, base);
  }

  lemma PlaceholderRow(f: Forest, parent: Node, ph: Node, p: Node)
    requires Named(f) && CanAttach(f, parent, 0, ph) && f.rows[parent] == [] && p in f.up
    requires WellFormed(Attach(f, parent, 0, ph, NO_ITEM))
    ensures RowNamed(Attach(f, parent, 0, ph, NO_ITEM), p)
  {
    AttachKeeps(f, parent, 0, ph, NO_ITEM);
    assert RowNamed(f, p) && RowOk(f, p);
  }

  lemma PlaceholderNode(f: Forest, parent: Node, ph: Node, m: Node)
    requires Labelled(f) && CanAttach(f, parent, 0, ph) && f.rows[parent] == [] && Registered(f, parent)
    requires m in f.up && !Sentinel(f, m)
    requires WellFormed(Attach(f, parent, 0, ph, NO_ITEM))
    ensures NodeNamed(Attach(f, parent, 0, ph, NO_ITEM), m)
  {
    AttachKeeps(f, parent, 0, ph, NO_ITEM);
    assert NodeNamed(f, m) && NodeOk(f, m);
  }

  lemma PlaceholderNames(f: Forest, parent: Node, ph: Node)
    requires Labelled(f) && Registered(f, parent) && parent in f.rows && f.rows[parent] == [] && ph !in f.up
    ensures CanAttach(f, parent, 0, ph)
    ensures var g := Attach(f, parent, 0, ph, NO_ITEM);
            && Labelled(g) && (Named(f) ==> Named(g)) && Tops(g) == Tops(f) && g.rows[parent] == [ph]
  {
    var g := Attach(f, parent, 0, ph, NO_ITEM);
    AttachWellFormed(f, parent, 0, ph, NO_ITEM);
    AttachKeeps(f, parent, 0, ph, NO_ITEM);
    assert Tops(g) == Tops(f);
    assert TopsNamed(f) ==> TopsNamed(g);
    forall m | m in g.up && !Sentinel(g, m)
      ensures NodeNamed(g, m)
    {
      if m != ph { PlaceholderNode(f, parent, ph, m); }
    }
    if Named(f) {
      forall p: Node | p in g.up
        ensures RowNamed(g, p)
      {
        if p != ph { PlaceholderRow(f, parent, ph, p); }
      }
    }
  }

  lemma RenameItemAllowed(f: Forest, node: Node, parent: Node, ph: Node, base: string)
    requires CanRename(f, node, parent, base) && parent in f.rows
    requires f.rows[parent] == [] ==> ph !in f.up
    ensures RenameAllowed(f, node, parent, ph)
  {
    PlaceholderStep(f, node, parent, ph, base);
    FirstKidIsTarget(WithPlaceholder(f, parent, ph), node, parent);
  }

  /** RenameItem as one step of the abstract map, placeholder, move and change of name together.
      Sibling names stay unique when nothing else is registered under the new path. */
  lemma RenameItemRelabels(f: Forest, node: Node, parent: Node, ph: Node, base: string)
    requires CanRename(f, node, parent, base) && RenameAllowed(f, node, parent, ph)
    ensures var g := RenamedForest(WithPlaceholder(f, parent, ph), node, parent, base);
            && Labelled(g) && Separated(g) && SameRoots(f, g)
            && (Named(f) && Unoccupied(f, node, parent, base) ==> Sound(g))
            && PathMap(g) == RelabelMap(PathMap(f), FullPath(f, node), FullPath(f, parent) + [SEP] + base)
  {
    assert NodeOk(f, node) && NodeOk(f, parent);
    var f1 := WithPlaceholder(f, parent, ph);
    PlaceholderStep(f, node, parent, ph, base);
    var g := RenamedForest(f1, node, parent, base);
    RenamedShape(f1, node, parent, base);
    RenamedLabels(f1, node, parent, base);
    RenameRelabels(f, g, node, parent, base);
    TopsKeepNames(f, g, node, parent, base);
    RenameSeparated(f, g, node, parent, base);
    if Named(f) && Unoccupied(f, node, parent, base) {
      BaseIsFree(f, node, parent, ph, base);
      RenamedNames(f1, node, parent, base);
    }
  }

  lemma PlaceholderStep(f: Forest, node: Node, parent: Node, ph: Node, base: string)
    requires CanRename(f, node, parent, base) && parent in f.rows
    requires f.rows[parent] == [] ==> ph !in f.up
    ensures !Sentinel(f, parent)
    ensures var f1 := WithPlaceholder(f, parent, ph);
            && CanPlace(f1, node, parent) && Labelled(f1) && (Named(f) ==> Named(f1)) && Tops(f1) == Tops(f)
            && Registered(f1, node) && parent in f1.item && f1.item[parent].handle.Some?
            && (forall m :: m in f.up ==> m in f1.up && f1.up[m] == f.up[m])
            && (forall m :: m in f.up ==> m in f1.up && Name(f1, m) == Name(f, m))
            && (forall m :: m in f.up ==> (Registered(f1, m) <==> Registered(f, m)))
            && (forall m :: m in f1.up && m !in f.up ==> !Registered(f1, m))
  {
    assert NodeOk(f, node) && NodeOk(f, parent);
    var f1 := WithPlaceholder(f, parent, ph);
    if f.rows[parent] == [] {
      PlaceholderNames(f, parent, ph);
      AttachKeeps(f, parent, 0, ph, NO_ITEM);
      BelowPersists(f, f1, parent, node);
    }
  }

  lemma BaseIsFree(f: Forest, node: Node, parent: Node, ph: Node, base: string)
    requires CanRename(f, node, parent, base) && Unoccupied(f, node, parent, base) && parent in f.rows
    requires f.rows[parent] == [] ==> ph !in f.up
    ensures !Sentinel(f, parent)
    ensures var f1 := WithPlaceholder(f, parent, ph);
            WellFormed(f1) && parent in f1.rows
            && forall a :: a in f1.rows[parent] && a != node && a in f1.up ==> Name(f1, a) != base
  {
    PlaceholderStep(f, node, parent, ph, base);
    assert RowOk(f, parent);
    if f.rows[parent] != [] {
      forall a | a in f.rows[parent] && a != node && a in f.up
        ensures Name(f, a) != base
      {
        assert NodeOk(f, a);
        ParentedIsProper(f, a);
        assert NodeNamed(f, a);
        assert Name(f, a) != "" ==> Registered(f, a);
        assert FullPath(f, a) == FullPath(f, parent) + [SEP] + Name(f, a);
      }
    }
  }

  lemma {:induction false} BelowPersists(f: Forest, g: Forest, n: Node, a: Node)
    requires WellFormed(f) && WellFormed(g) && n in f.up
    requires forall m :: m in f.up ==> m in g.up && g.up[m] == f.up[m]
    ensures n in g.up && (Below(g, n, a) <==> Below(f, n, a))
    decreases Rank(f, n)
  {
    assert NodeOk(f, n) && NodeOk(g, n);
    if f.up[n] != null {
      assert NodeOk(f, f.up[n]) && NodeOk(g, f.up[n]);
      BelowPersists(f, g, f.up[n], a);
    }
  }

  /** Every node of f is still there and still carries its handle; new nodes carry none. */
  ghost predicate HandlesKept(f: Forest, g: Forest) {
    && (forall n :: n in f.up && n in f.item ==> n in g.up && n in g.item && g.item[n].handle == f.item[n].handle)
    && (forall n :: n in g.up && n !in f.up ==> n in g.item && g.item[n].handle == None)
  }

  lemma HandlesKeptByRename(f: Forest, node: Node, parent: Node, ph: Node, base: string)
    requires CanRename(f, node, parent, base) && RenameAllowed(f, node, parent, ph)
    ensures HandlesKept(f, RenamedForest(WithPlaceholder(f, parent, ph), node, parent, base))
  {
    hide RenamedForest, WellFormed, WithPlaceholder, CanRename, CanMove;
    var f1 := WithPlaceholder(f, parent, ph);
    RenamedWellFormed(f1, node, parent, base);
    PlaceholderKeepsHandles(f, parent, ph);
  }

  lemma PlaceholderKeepsHandles(f: Forest, parent: Node, ph: Node)
    requires WellFormed(f) && parent in f.rows && !Sentinel(f, parent) && (f.rows[parent] == [] ==> ph !in f.up)
    ensures HandlesKept(f, WithPlaceholder(f, parent, ph))
  {
    hide WellFormed;
  }
}
