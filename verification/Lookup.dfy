/** Looking up nodes by path and building the path of a node, as functions of the forest
    (src/FileTree.cpp), and the proof that the two are inverse. */
module Lookup {
  import opened Nodes
  import opened Rows
  import opened Forests
  import opened Ancestry
  import opened Paths

  ghost function Name(f: Forest, n: Node): string
    requires WellFormed(f) && n in f.up
  {
    assert NodeOk(f, n);
    f.item[n].path
  }

  ghost function Kids(f: Forest, p: Node?): (s: seq<Node>)
    requires WellFormed(f) && p in f.rows
    ensures forall c :: c in s ==> c in f.up
  {
    assert RowOk(f, p);
    f.rows[p]
  }

  /** The top-level nodes without head and feet. */
  ghost function Tops(f: Forest): (s: seq<Node>)
    requires WellFormed(f)
    ensures forall c :: c in s ==> c in f.up
  {
    assert RowOk(f, null);
    f.rows[null][1..|f.rows[null]| - 1]
  }

  // ---------------------------------------------------------------- the lookups of the code

  /** The first node of s with the given name. */
  ghost function Scan(f: Forest, s: seq<Node>, name: string): (r: Node?)
    requires WellFormed(f) && forall c :: c in s ==> c in f.up
    ensures r != null ==> r in s && r in f.up && Name(f, r) == name
    ensures r == null ==> forall c :: c in s ==> Name(f, c) != name
  {
    if s == [] then null
    else if Name(f, s[0]) == name then s[0]
    else Scan(f, s[1..], name)
  }

  /** findNodeWithPathFromNode */
  ghost function FindFrom(f: Forest, path: string, node: Node): (r: Node?)
    requires WellFormed(f) && node in f.up
    ensures r != null ==> r in f.up
    decreases |path|
  {
    assert NodeOk(f, node);
    var c := Scan(f, Kids(f, node), FirstDirname(path));
    if c == null then null
    else if FollowingPath(path) == "" then c
    else FindFrom(f, FollowingPath(path), c)
  }

  /** What findNodeFromRootWithPath does with a top-level node whose name occurs in the path. */
  ghost function FindInRoot(f: Forest, path: string, root: Node): (r: Node?)
    requires WellFormed(f) && root in f.up && Occurs(Name(f, root), path)
    ensures r != null ==> r in f.up
  {
    OccursLength(Name(f, root), path);
    if path == Name(f, root) then root
    else FindFrom(f, path[|Name(f, root)| + 1..], root)
  }

  /** The first of the top-level nodes in s whose name occurs in the path. */
  ghost function FirstRoot(f: Forest, s: seq<Node>, path: string): (r: Node?)
    requires WellFormed(f) && forall c :: c in s ==> c in f.up
    ensures r != null ==> r in s && r in f.up && Occurs(Name(f, r), path)
    ensures r == null ==> forall c :: c in s ==> !Occurs(Name(f, c), path)
  {
    if s == [] then null
    else if Occurs(Name(f, s[0]), path) then s[0]
    else FirstRoot(f, s[1..], path)
  }

  /** The value of topNode after findNodeFromRootWithPath: the cached root if it occurs in the
      path, else the first top-level node that does, else the cached root again. */
  ghost function CachedRoot(f: Forest, top: Node, path: string): (r: Node)
    requires WellFormed(f) && top in f.up
    ensures r in f.up && (r == top || r in Tops(f))
  {
    if Occurs(Name(f, top), path) then top
    else
      var r := FirstRoot(f, Tops(f), path);
      if r == null then top else r
  }

  /** findNodeFromRootWithPath, started with topNode at top. */
  ghost function Find(f: Forest, top: Node, path: string): (r: Node?)
    requires WellFormed(f) && top in f.up
    ensures r != null ==> r in f.up
  {
    var root := CachedRoot(f, top, path);
    if Occurs(Name(f, root), path) then FindInRoot(f, path, root) else null
  }

  /** findParentNodeFromRootForPath. A root that is the whole path makes substr throw. */
  ghost function FindParent(f: Forest, top: Node, path: string): (r: Node?)
    requires WellFormed(f) && top in f.up && path != Name(f, top)
    ensures r != null ==> r in f.up
  {
    if !Occurs(Name(f, top), path) then null
    else
      OccursLength(Name(f, top), path);
      var dir := Dirname(path[|Name(f, top)| + 1..]);
      if dir == "" then top else FindFrom(f, dir, top)
  }

  /** GetNodeFullPath */
  ghost function FullPath(f: Forest, n: Node): string
    requires WellFormed(f) && n in f.up
    decreases Rank(f, n)
  {
    assert NodeOk(f, n);
    if f.up[n] == null then Name(f, n)
    else assert NodeOk(f, f.up[n]); FullPath(f, f.up[n]) + [SEP] + Name(f, n)
  }

  lemma OccursLength(sub: string, s: string)
    requires Occurs(sub, s)
    ensures |sub| <= |s| && (|sub| == |s| ==> sub == s)
  {
  }

  // ---------------------------------------------------------------- well-named forests

  ghost predicate NodeNamed(f: Forest, n: Node)
    requires WellFormed(f)
  {
    && n in f.up && n in f.item && n in f.rows
    && (f.up[n] == null ==> Name(f, n) != "" && f.item[n].handle.Some?)
    && (f.up[n] != null ==> SEP !in Name(f, n) && (f.item[n].handle.Some? <==> Name(f, n) != ""))
    && (f.item[n].handle.None? ==> f.rows[n] == [])
  }

  /** No two children of p have the same name. */
  ghost predicate RowNamed(f: Forest, p: Node)
    requires WellFormed(f)
  {
    p in f.rows && forall a, b :: a in f.rows[p] && b in f.rows[p] && a in f.up && b in f.up && Name(f, a) == Name(f, b) ==> a == b
  }

  ghost predicate TopsNamed(f: Forest)
    requires WellFormed(f)
  {
    forall a, b :: a in Tops(f) && b in Tops(f) && Name(f, a) == Name(f, b) ==> a == b
  }

  /** Sibling names are unique, components are separator-free, and only placeholder children,
      which stay childless, have the empty name. */
  ghost predicate Named(f: Forest) {
    && WellFormed(f)
    && TopsNamed(f)
    && (forall n {:trigger NodeNamed(f, n)} :: n in f.up && !Sentinel(f, n) ==> NodeNamed(f, n))
    && (forall p: Node {:trigger RowNamed(f, p)} :: p in f.up ==> RowNamed(f, p))
  }

  /** What of it does not depend on sibling names being unique. */
  ghost predicate Labelled(f: Forest) {
    WellFormed(f) && forall n {:trigger NodeNamed(f, n)} :: n in f.up && !Sentinel(f, n) ==> NodeNamed(f, n)
  }

  /** The nodes that carry a handle. */
  ghost predicate Registered(f: Forest, n: Node?)
    requires WellFormed(f)
  {
    n != null && n in f.up && !Sentinel(f, n) && n in f.item && f.item[n].handle.Some?
  }

  // ---------------------------------------------------------------- component walks

  /** The names from below the top-level node down to n. */
  ghost function Comps(f: Forest, n: Node): seq<string>
    requires WellFormed(f) && n in f.up
    decreases Rank(f, n)
  {
    assert NodeOk(f, n);
    if f.up[n] == null then []
    else assert NodeOk(f, f.up[n]); Comps(f, f.up[n]) + [Name(f, n)]
  }

  ghost function Walk(f: Forest, a: Node, c: seq<string>): (r: Node?)
    requires WellFormed(f) && a in f.up
    ensures r != null ==> r in f.up
    decreases |c|
  {
    if c == [] then a
    else
      assert NodeOk(f, a);
      var k := Scan(f, Kids(f, a), c[0]);
      if k == null then null else Walk(f, k, c[1..])
  }

  lemma {:induction false} FindFromWalks(f: Forest, c: seq<string>, a: Node)
    requires WellFormed(f) && a in f.up && c != [] && Good(c)
    ensures FindFrom(f, Join(c), a) == Walk(f, a, c)
    decreases |c|
  {
    SplitFront(c);
    assert NodeOk(f, a);
    var k := Scan(f, Kids(f, a), c[0]);
    if k != null {
      if |c| > 1 {
        SplitFront(c[1..]);
        FindFromWalks(f, c[1..], k);
      } else {
        assert Walk(f, k, c[1..]) == k;
      }
    }
  }

  lemma {:induction false} WalkSnoc(f: Forest, a: Node, c: seq<string>, name: string)
    requires WellFormed(f) && a in f.up
    ensures var m := Walk(f, a, c);
            Walk(f, a, c + [name]) ==
            if m == null then null else assert NodeOk(f, m); Scan(f, Kids(f, m), name)
    decreases |c|
  {
    assert NodeOk(f, a);
    if c == [] {
      var k := Scan(f, Kids(f, a), name);
      assert (c + [name])[1..] == [];
    } else {
      assert (c + [name])[1..] == c[1..] + [name];
      var k := Scan(f, Kids(f, a), c[0]);
      if k != null {
        WalkSnoc(f, k, c[1..], name);
      }
    }
  }

  lemma ScanFinds(f: Forest, n: Node)
    requires Named(f) && n in f.up && f.up[n] != null
    ensures f.up[n] in f.rows && Scan(f, Kids(f, f.up[n]), Name(f, n)) == n
  {
    assert NodeOk(f, n) && RowNamed(f, f.up[n]);
  }

  /** Walking down the component list of n from its top-level node arrives at n... */
  lemma {:induction false} WalkReaches(f: Forest, n: Node)
    requires Named(f) && n in f.up
    ensures Walk(f, Top(f, n), Comps(f, n)) == n
    decreases Rank(f, n)
  {
    assert NodeOk(f, n);
    if f.up[n] != null {
      assert NodeOk(f, f.up[n]);
      WalkReaches(f, f.up[n]);
      WalkSnoc(f, Top(f, n), Comps(f, f.up[n]), Name(f, n));
      ScanFinds(f, n);
    }
  }

  /** ...and it arrives nowhere else. */
  lemma {:induction false} WalkOnlyReaches(f: Forest, t: Node, c: seq<string>)
    requires WellFormed(f) && t in f.up && f.up[t] == null
    requires Walk(f, t, c) != null
    ensures var n := Walk(f, t, c); Top(f, n) == t && Comps(f, n) == c
    decreases |c|
  {
    if c != [] {
      var front, name := c[..|c| - 1], c[|c| - 1];
      assert c == front + [name];
      WalkSnoc(f, t, front, name);
      WalkOnlyReaches(f, t, front);
      var m, n := Walk(f, t, front), Walk(f, t, c);
      assert NodeOk(f, m) && RowOk(f, m) && NodeOk(f, n);
    }
  }

  // ---------------------------------------------------------------- whole paths

  lemma {:induction false} FullPathSplits(f: Forest, n: Node)
    requires WellFormed(f) && n in f.up
    ensures FullPath(f, n) == PathString(Name(f, Top(f, n)), Comps(f, n))
    decreases Rank(f, n)
  {
    assert NodeOk(f, n);
    var p := f.up[n];
    if p != null {
      assert NodeOk(f, p);
      FullPathSplits(f, p);
      if Comps(f, p) != [] {
        JoinConcat(Comps(f, p), [Name(f, n)]);
      } else {
        assert Comps(f, n) == [Name(f, n)];
      }
    }
  }

  /** The components of a registered node are real names: a placeholder has no children. */
  lemma {:induction false} RegisteredIsGood(f: Forest, n: Node)
    requires Labelled(f) && Registered(f, n)
    ensures Good(Comps(f, n))
    ensures f.up[n] != null ==> Registered(f, f.up[n])
    decreases Rank(f, n)
  {
    assert NodeOk(f, n) && NodeNamed(f, n);
    var p := f.up[n];
    if p != null {
      assert NodeOk(f, p) && RowOk(f, p);
      assert !Sentinel(f, p);
      assert NodeNamed(f, p);
      RegisteredIsGood(f, p);
    }
  }

  lemma {:induction false} TopIsTop(f: Forest, n: Node)
    requires WellFormed(f) && n in f.up && !Sentinel(f, n)
    ensures Top(f, n) in Tops(f) && !Sentinel(f, Top(f, n))
    decreases Rank(f, n)
  {
    assert NodeOk(f, n);
    if f.up[n] != null {
      assert RowOk(f, f.up[n]) && NodeOk(f, f.up[n]);
      TopIsTop(f, f.up[n]);
    } else {
      var k := Index(f.rows[null], n);
      assert Tops(f)[k - 1] == n;
    }
  }

  /** t is the one root that occurs in the path, and the path is t or continues it. */
  ghost predicate OnlyRoot(f: Forest, path: string, t: Node)
    requires WellFormed(f)
  {
    && t in Tops(f)
    && Under(Name(f, t), path)
    && forall r :: r in Tops(f) && Occurs(Name(f, r), path) ==> r == t
  }

  /** The caller's discipline: in the path of a registered node no other root occurs. */
  ghost predicate Separated(f: Forest)
    requires WellFormed(f)
  {
    forall n {:trigger Registered(f, n)} :: n in f.up && Registered(f, n) ==> OnlyRoot(f, FullPath(f, n), Top(f, n))
  }

  /** Root cache transparency: when one root occurs in the path, topNode may be any root. */
  lemma CacheIsTransparent(f: Forest, top: Node, path: string, t: Node)
    requires WellFormed(f) && top in f.up && top in Tops(f) && OnlyRoot(f, path, t)
    ensures CachedRoot(f, top, path) == t
    ensures Find(f, top, path) == FindInRoot(f, path, t)
  {
    UnderOccurs(Name(f, t), path);
  }

  lemma FindInRootWalks(f: Forest, t: Node, c: seq<string>)
    requires WellFormed(f) && t in f.up && Good(c)
    ensures var path := PathString(Name(f, t), c);
            Occurs(Name(f, t), path) && FindInRoot(f, path, t) == Walk(f, t, c)
  {
    var path := PathString(Name(f, t), c);
    UnderOccurs(Name(f, t), path);
    if c != [] {
      FindFromWalks(f, c, t);
      assert path[|Name(f, t)| + 1..] == Join(c);
    }
  }

  /** A path the lookup is meant for: a root, or a root and proper components, and no other root
      occurs in it. */
  ghost predicate Legal(f: Forest, path: string, t: Node, c: seq<string>)
    requires WellFormed(f)
  {
    t in f.up && Good(c) && path == PathString(Name(f, t), c) && OnlyRoot(f, path, t)
  }

  /** Looking up a legal path, from any cached root, finds exactly the registered node whose
      built path is that path. */
  lemma LookupIsInverse(f: Forest, top: Node, path: string, t: Node, c: seq<string>, n: Node)
    requires Named(f) && Separated(f) && top in f.up && top in Tops(f) && Legal(f, path, t, c)
    requires n in f.up
    ensures Find(f, top, path) == n <==> Registered(f, n) && FullPath(f, n) == path
  {
    CacheIsTransparent(f, top, path, t);
    FindInRootWalks(f, t, c);
    if Find(f, top, path) == n {
      TopsAreTop(f, t);
      WalkOnlyReaches(f, t, c);
      FullPathSplits(f, n);
      FoundIsRegistered(f, t, c);
    }
    if Registered(f, n) && FullPath(f, n) == path {
      FullPathSplits(f, n);
      RegisteredIsGood(f, n);
      UnderOccurs(Name(f, Top(f, n)), path);
      assert Top(f, n) == t;
      if c != [] && Comps(f, n) != [] {
        assert Join(c) == path[|Name(f, t)| + 1..] == Join(Comps(f, n));
        JoinInjective(c, Comps(f, n));
      }
      WalkReaches(f, n);
    }
  }

  lemma TopsAreTop(f: Forest, t: Node)
    requires WellFormed(f) && t in Tops(f)
    ensures t in f.up && f.up[t] == null && !Sentinel(f, t) && Top(f, t) == t
  {
    assert RowOk(f, null);
    var i := Index(Tops(f), t);
    assert f.rows[null][i + 1] == t;
    assert f.rows[null][0] == f.head && f.rows[null][|f.rows[null]| - 1] == f.feet;
  }

  lemma FoundIsRegistered(f: Forest, t: Node, c: seq<string>)
    requires Labelled(f) && t in Tops(f) && t in f.up && Good(c) && Walk(f, t, c) != null
    ensures Registered(f, Walk(f, t, c))
  {
    TopsAreTop(f, t);
    var n := Walk(f, t, c);
    WalkOnlyReaches(f, t, c);
    assert NodeOk(f, n);
    assert !Sentinel(f, n) by {
      assert NodeOk(f, f.head) && NodeOk(f, f.feet) && RowOk(f, null);
      assert f.head in f.rows[null] && f.feet in f.rows[null];
    }
    assert NodeNamed(f, n);
    if f.up[n] != null {
      assert c[|c| - 1] == Name(f, n);
    }
  }

  /** Even where sibling names are not unique, what a lookup of a legal path finds has that path. */
  lemma FoundHasThePath(f: Forest, top: Node, path: string, t: Node, c: seq<string>)
    requires Labelled(f) && top in f.up && top in Tops(f) && Legal(f, path, t, c)
    ensures var n := Find(f, top, path); n != null ==> Registered(f, n) && FullPath(f, n) == path
  {
    CacheIsTransparent(f, top, path, t);
    FindInRootWalks(f, t, c);
    if Find(f, top, path) != null {
      TopsAreTop(f, t);
      WalkOnlyReaches(f, t, c);
      FullPathSplits(f, Find(f, top, path));
      FoundIsRegistered(f, t, c);
    }
  }

  // ---------------------------------------------------------------- what the loops read

  /** The node at place i of the top row, feet excepted, links to the node at place i + 1. */
  lemma TopCell(f: Forest, i: nat)
    requires WellFormed(f) && i + 1 < |f.rows[null]|
    ensures var c := f.rows[null][i];
            c in f.up && Next(f, c) == f.rows[null][i + 1]
    ensures i > 0 ==> i - 1 < |Tops(f)| && f.rows[null][i] == Tops(f)[i - 1]
  {
    RowLink(f, null, i);
  }

  lemma FeetIsLast(f: Forest, i: nat)
    requires WellFormed(f) && i <= |Tops(f)| && f.rows[null][i + 1] == f.feet
    ensures i == |Tops(f)|
  {
    assert RowOk(f, null);
    IndexAt(f.rows[null], i + 1);
    IndexAt(f.rows[null], |f.rows[null]| - 1);
  }
}
