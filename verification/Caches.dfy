/** When the cached root of src/FileTree.cpp is transparent, exactly. */
module Caches {
  import opened Nodes
  import opened Forests
  import opened Ancestry
  import opened Paths
  import opened Lookup
  import opened Registry

  /** The search without a cache: the first root in order that occurs in the path decides. */
  ghost function Stateless(f: Forest, path: string): (r: Node?)
    requires WellFormed(f)
  {
    var root := FirstRoot(f, Tops(f), path);
    if root == null then null else FindInRoot(f, path, root)
  }

  /** Whatever root is cached, the lookup gives what the search without a cache gives. */
  ghost predicate Transparent(f: Forest, path: string)
    requires WellFormed(f)
  {
    forall top :: top in Tops(f) ==> Find(f, top, path) == Stateless(f, path)
  }

  ghost predicate OneRootOccurs(f: Forest, path: string)
    requires WellFormed(f)
  {
    forall r, s :: r in Tops(f) && s in Tops(f) && Occurs(Name(f, r), path) && Occurs(Name(f, s), path) ==> r == s
  }

  ghost predicate NoRootKnows(f: Forest, path: string)
    requires WellFormed(f)
  {
    forall r :: r in Tops(f) && Occurs(Name(f, r), path) ==> FindInRoot(f, path, r) == null
  }

  lemma {:induction false} FoundBelow(f: Forest, path: string, a: Node)
    requires WellFormed(f) && a in f.up
    ensures var r := FindFrom(f, path, a); r != null ==> Below(f, r, a)
    decreases |path|
  {
    assert NodeOk(f, a) && RowOk(f, a);
    var c := Scan(f, Kids(f, a), FirstDirname(path));
    if c != null {
      assert NodeOk(f, c);
      KidIsBelow(f, c, a);
      assert Below(f, c, c);
      if FollowingPath(path) != "" {
        FoundBelow(f, FollowingPath(path), c);
        var r := FindFrom(f, FollowingPath(path), c);
        if r != null { BelowTransitive(f, r, c, a); }
      }
    }
  }

  /** Two roots never find the same node. */
  lemma RootsFindApart(f: Forest, path: string, r: Node, s: Node)
    requires WellFormed(f) && r in Tops(f) && s in Tops(f) && r != s
    requires Occurs(Name(f, r), path) && Occurs(Name(f, s), path)
    ensures FindInRoot(f, path, r) == FindInRoot(f, path, s) ==> FindInRoot(f, path, r) == null
  {
    TopsAreTop(f, r);
    TopsAreTop(f, s);
    assert Below(f, r, r) && Below(f, s, s);
    FoundInRootBelow(f, path, r);
    FoundInRootBelow(f, path, s);
    var n := FindInRoot(f, path, r);
    if n != null && n == FindInRoot(f, path, s) {
      SiblingsDisjoint(f, n, r, s);
    }
  }

  lemma FoundInRootBelow(f: Forest, path: string, r: Node)
    requires WellFormed(f) && r in f.up && Occurs(Name(f, r), path)
    ensures FindInRoot(f, path, r) != null ==> Below(f, FindInRoot(f, path, r), r)
  {
    assert Below(f, r, r);
    OccursLength(Name(f, r), path);
    if path != Name(f, r) {
      FoundBelow(f, path[|Name(f, r)| + 1..], r);
    }
  }

  /** The cache is transparent for a path exactly when at most one root occurs in the path, or none
      of the roots that do leads to a node. */
  lemma TransparentExactly(f: Forest, path: string)
    requires WellFormed(f)
    ensures Transparent(f, path) <==> OneRootOccurs(f, path) || NoRootKnows(f, path)
  {
    var first := FirstRoot(f, Tops(f), path);
    if Transparent(f, path) && !OneRootOccurs(f, path) {
      forall r | r in Tops(f) && Occurs(Name(f, r), path)
        ensures FindInRoot(f, path, r) == null
      {
        assert Find(f, r, path) == Stateless(f, path) == FindInRoot(f, path, first);
        var s: Node :| s in Tops(f) && Occurs(Name(f, s), path) && s != first;
        assert Find(f, s, path) == FindInRoot(f, path, first);
        RootsFindApart(f, path, s, first);
      }
    }
  }

  /** The shared prefix of two drive folders is enough to mislead it: with "D:\a" cached, "D:\ab" is
      looked for inside "D:\a", although it is a root of its own. */
  lemma CacheMisleads(f: Forest, a: Node, b: Node)
    requires Named(f) && a in Tops(f) && b in Tops(f) && a in f.rows && f.rows[a] == []
    requires Name(f, a) == "D:\\a" && Name(f, b) == "D:\\ab"
    ensures Find(f, b, "D:\\ab") == b && Find(f, a, "D:\\ab") == null
    ensures !Transparent(f, "D:\\ab")
  {
    assert "D:\\a" <= "D:\\ab";
    assert Occurs(Name(f, a), "D:\\ab") && Occurs(Name(f, b), "D:\\ab");
    assert CachedRoot(f, a, "D:\\ab") == a && CachedRoot(f, b, "D:\\ab") == b;
  }

  /** A new root in front of the others. */
  ghost function Fronted(f: Forest, n: Node, path: string, h: seq<Byte>): Forest
    requires CanAttach(f, null, 1, n)
  {
    Attach(f, null, 1, n, Item(path, Some(h)))
  }

  lemma RootInFront(f: Forest, n: Node, path: string, h: seq<Byte>)
    requires CanAttach(f, null, 1, n) && Named(f)
    requires path != "" && forall r :: r in Tops(f) ==> Name(f, r) != path
    ensures var g := Fronted(f, n, path, h);
            && Named(g) && Tops(g) == [n] + Tops(f)
            && Name(g, n) == path && n in g.rows && g.rows[n] == []
            && forall r :: r in Tops(f) ==> r in g.up && Name(g, r) == Name(f, r)
  {
    AttachWellFormed(f, null, 1, n, Item(path, Some(h)));
    RootNames(f, path, h, 1, n);
    AttachKeeps(f, null, 1, n, Item(path, Some(h)));
    var g, r := Fronted(f, n, path, h), f.rows[null];
    assert g.rows[null] == r[..1] + [n] + r[1..];
    assert Tops(g) == [n] + Tops(f);
  }

  /** The empty tree with "D:\\ab" and then "D:\\a" put in front. */
  ghost function TwoFolders(head: Node, feet: Node, a: Node, b: Node, h: seq<Byte>): Forest
    requires head != feet && a != b && a != head && a != feet && b != head && b != feet
  {
    EmptyDescribes(head, feet);
    AttachWellFormed(Empty(head, feet), null, 1, b, Item("D:\\ab", Some(h)));
    Fronted(Fronted(Empty(head, feet), b, "D:\\ab", h), a, "D:\\a", h)
  }

  /** So such a forest exists, with its names in order, and there the cache is not transparent. */
  lemma TwoFoldersMislead(head: Node, feet: Node, a: Node, b: Node, h: seq<Byte>)
    requires head != feet && a != b && a != head && a != feet && b != head && b != feet
    ensures var f := TwoFolders(head, feet, a, b, h);
            && Named(f) && Tops(f) == [a, b]
            && Find(f, b, "D:\\ab") == b && Find(f, a, "D:\\ab") == null
            && !Transparent(f, "D:\\ab")
  {
    hide Find, Transparent;
    EmptyDescribes(head, feet);
    EmptyIsSound(head, feet);
    RootInFront(Empty(head, feet), b, "D:\\ab", h);
    var g := Fronted(Empty(head, feet), b, "D:\\ab", h);
    RootInFront(g, a, "D:\\a", h);
    CacheMisleads(Fronted(g, a, "D:\\a", h), a, b);
  }
}
