/** Renaming by path: when RenameItem finds both ends, what the caller has to guarantee then, and
    why the rename is one step of the handle machine. */
module RenameSteps {
  import opened Nodes
  import opened Forests
  import opened Ancestry
  import opened Paths
  import opened Lookup
  import opened Registry
  import opened Plainness
  import opened Renaming
  import opened HandleMachine
  import opened Coherence

  /** `from` is registered, and so is the directory of `to`, under the same root. */
  ghost predicate Performed(f: Forest, from: string, to: string)
    requires WellFormed(f)
  {
    exists n, q :: n in PathMap(f) && q in PathMap(f) && n in f.up && q in f.up && Top(f, n) == Top(f, q)
                   && PathMap(f)[n] == from && PathMap(f)[q] + [SEP] + Basename(to) == to
  }

  /** `from` is no root, `to` is not at or below `from`, and in no relabelled path does another root
      occur. */
  ghost predicate Relocatable(f: Forest, from: string, to: string)
    requires WellFormed(f)
  {
    && (forall t :: t in Tops(f) ==> Name(f, t) != from)
    && !Under(from, to)
    && (forall n, m {:trigger Top(f, n), FullPath(f, m)}
          | n in PathMap(f) && m in PathMap(f) && n in f.up && m in f.up && PathMap(f)[n] == from && Under(from, PathMap(f)[m])
          :: OnlyRoot(f, Relabel(from, to, FullPath(f, m)), Top(f, n)))
  }

  ghost predicate RenameArgs(f: Forest, from: string, to: string)
    requires WellFormed(f)
  {
    && Plain(f, from) && Plain(f, to)
    && (forall t :: t in Tops(f) ==> Name(f, t) != to)
    && (Performed(f, from, to) ==> Relocatable(f, from, to))
  }

  /** The two lookups of RenameItem, started with this root cached, find a node and a parent. */
  ghost predicate Finds(f: Forest, top: Node, from: string, to: string)
    requires WellFormed(f) && top in f.up
  {
    var top' := CachedRoot(f, top, from);
    to != Name(f, top') && Find(f, top, from) != null && FindParent(f, top', to) != null
  }

  /** RenameItem throws: the new path is that of the root under which the old one is looked up. */
  ghost predicate Throws(f: Forest, top: Node, from: string, to: string)
    requires WellFormed(f) && top in f.up
  {
    to == Name(f, CachedRoot(f, top, from))
  }

  /** What they find may be renamed. */
  ghost predicate Ready(f: Forest, top: Node, from: string, to: string)
    requires WellFormed(f) && top in f.up
  {
    var top' := CachedRoot(f, top, from);
    && to != Name(f, top')
    && (Finds(f, top, from, to) ==>
          var n, p := Find(f, top, from), FindParent(f, top', to);
          && CanRename(f, n, p, Basename(to)) && !Under(from, to)
          && FullPath(f, n) == from && FullPath(f, p) + [SEP] + Basename(to) == to)
  }

  /** RenameItem finds both ends exactly when the rename is to be performed, and they are the right
      ones. */
  lemma RenameTargets(f: Forest, top: Node, from: string, to: string)
    requires Labelled(f) && Separated(f) && top in f.up && top in Tops(f) && RenameArgs(f, from, to)
    requires Unshared(f, from) && Unshared(f, to)
    ensures Ready(f, top, from, to)
    ensures Finds(f, top, from, to) <==> Performed(f, from, to)
  {
    var top' := CachedRoot(f, top, from);
    var n, p := Find(f, top, from), FindParent(f, top', to);
    HitIsFind(f, top, from);
    HitHasThePath(f, from);
    ParentOfPlain(f, top', to);
    if n != null {
      CachedAfterLookup(f, top, n);
      if p != null {
        assert Performed(f, from, to);
        RenameIsAllowed(f, n, p, from, to);
        assert PathMap(f)[n] == FullPath(f, n) && PathMap(f)[p] == FullPath(f, p);
      }
    }
    if Performed(f, from, to) {
      PerformedIsFound(f, top, from, to, n);
    }
  }

  lemma PerformedIsFound(f: Forest, top: Node, from: string, to: string, n: Node?)
    requires Labelled(f) && Separated(f) && top in f.up && top in Tops(f) && RenameArgs(f, from, to) && Performed(f, from, to)
    requires Unshared(f, from) && Unshared(f, to)
    requires n == Find(f, top, from)
    ensures Finds(f, top, from, to)
  {
    var top' := CachedRoot(f, top, from);
    var n', q :| n' in PathMap(f) && q in PathMap(f) && n' in f.up && q in f.up && Top(f, n') == Top(f, q)
      && PathMap(f)[n'] == from && PathMap(f)[q] + [SEP] + Basename(to) == to;
    HitIsFind(f, top, from);
    UnsharedIsHit(f, n');
    CachedAfterLookup(f, top, n);
    ParentOfPlain(f, top', to);
  }

  lemma RenameIsAllowed(f: Forest, n: Node, p: Node, from: string, to: string)
    requires Labelled(f) && Separated(f) && Unshared(f, from) && Relocatable(f, from, to)
    requires n in PathMap(f) && p in PathMap(f) && n in f.up && p in f.up && Top(f, n) == Top(f, p)
    requires PathMap(f)[n] == from && PathMap(f)[p] + [SEP] + Basename(to) == to && GoodName(Basename(to))
    ensures CanRename(f, n, p, Basename(to))
  {
    NotARoot(f, n);
    UnderExtends(from, PathMap(f)[p], Basename(to));
    if Below(f, p, n) {
      BelowIsUnder(f, p, n);
    }
    forall m | m in f.up && Registered(f, m) && Under(FullPath(f, n), FullPath(f, m))
      ensures Below(f, m, n)
    {
      UnsharedIsAbove(f, n, m);
    }
    forall m | m in f.up && Registered(f, m) && Below(f, m, n)
      ensures OnlyRoot(f, Relabel(from, to, FullPath(f, m)), Top(f, p))
    {
      BelowIsUnder(f, m, n);
      assert PathMap(f)[m] == FullPath(f, m);
      assert Top(f, n) == Top(f, p);
    }
  }

  /** The new path is free exactly when it is not registered. */
  lemma FreeExactly(f: Forest, n: Node, p: Node, from: string, to: string)
    requires WellFormed(f) && n in f.up && p in f.up && Registered(f, n)
    requires FullPath(f, n) == from && FullPath(f, p) + [SEP] + Basename(to) == to && !Under(from, to)
    ensures Unoccupied(f, n, p, Basename(to)) <==> !Known(f, to)
  {
    if Known(f, to) {
      var m := KnownNode(f, to);
      assert m != n;
    }
    forall m | m in f.up && Registered(f, m) && FullPath(f, m) == to
      ensures Known(f, to)
    {
      assert PathMap(f)[m] == to;
    }
  }

  /** Whatever is registered under the target of a performed rename makes the target registered. */
  lemma TargetIsClosed(f: Forest, from: string, to: string, m: Node)
    requires Sound(f) && RenameArgs(f, from, to) && Performed(f, from, to)
    requires m in PathMap(f) && Under(to, PathMap(f)[m])
    ensures Known(f, to)
  {
    var q :| q in PathMap(f) && PathMap(f)[q] + [SEP] + Basename(to) == to;
    RegisteredIsLegal(f, q);
    var root := Name(f, Top(f, q));
    UnderOfUnder(root, PathMap(f)[q], to);
    UnderOccurs(root, to);
    AncestorIsKnown(f, to, m);
  }

  /** A performed rename to a path that is not registered meets the condition of the handle machine:
      nothing is registered at or below its target. */
  lemma PerformedIsEnabled(f: Forest, slots: seq<Node?>, from: string, to: string)
    requires Sound(f) && Coherent(f, slots) && RenameArgs(f, from, to) && Performed(f, from, to) && !Known(f, to)
    ensures Enabled(ViewOf(f, slots), Rename(from, to))
  {
    forall m | m in PathMap(f)
      ensures !Under(to, PathMap(f)[m])
    {
      if Under(to, PathMap(f)[m]) { TargetIsClosed(f, from, to, m); }
    }
  }

  /** A rename onto a stale registration makes two nodes share their path; else names stay unique if they
      were. Nodes that share a path go on to. */
  lemma SharedExactly(f: Forest, g: Forest, n: Node, p: Node, from: string, to: string)
    requires WellFormed(f) && n in f.up && p in f.up && Registered(f, n) && WellFormed(g)
    requires FullPath(f, n) == from && FullPath(f, p) + [SEP] + Basename(to) == to && !Under(from, to)
    requires Named(f) && Unoccupied(f, n, p, Basename(to)) ==> Sound(g)
    requires PathMap(g) == RelabelMap(PathMap(f), from, to)
    ensures Sound(f) ==> (Sound(g) <==> !Known(f, to))
    ensures Known(f, to) || Shared(f) ==> Shared(g)
  {
    FreeExactly(f, n, p, from, to);
    if Known(f, to) {
      var m := KnownNode(f, to);
      assert PathMap(f)[n] == from && from[|from|..] == [] && to + [] == to;
      assert PathMap(g)[n] == to == PathMap(g)[m];
    }
    if Shared(f) {
      var a, b :| a in PathMap(f) && b in PathMap(f) && a != b && PathMap(f)[a] == PathMap(f)[b];
      assert PathMap(g)[a] == PathMap(g)[b];
    }
    if Sound(g) { SoundIsNotShared(g); }
  }

  /** The same, as the clients see it: no two handles share a path after a performed rename exactly
      when its target was not registered. */
  lemma HandlesApartExactly(f: Forest, slots: seq<Node?>, from: string, to: string)
    requires Sound(f) && Coherent(f, slots) && RenameArgs(f, from, to) && Performed(f, from, to)
    ensures Distinct(Apply(ViewOf(f, slots), Rename(from, to))) <==> !Known(f, to)
  {
    var v := ViewOf(f, slots);
    ClientsAreDistinct(f, slots);
    assert Known(f, from);
    ViewShows(f, slots, from);
    ViewShows(f, slots, to);
    forall i | 0 <= i < |v| && v[i].Some? && Under(to, v[i].value)
      ensures Some(to) in v
    {
      TargetIsClosed(f, from, to, slots[i]);
    }
    RenameKeepsDistinctExactly(v, from, to);
  }

  lemma RenameIsAStep(f: Forest, slots: seq<Node?>, g: Forest, from: string, to: string)
    requires Coherent(f, slots) && WellFormed(g)
    requires HandlesKept(f, g) && PathMap(g) == RelabelMap(PathMap(f), from, to)
    ensures Coherent(g, slots)
    ensures ViewOf(g, slots) == Apply(ViewOf(f, slots), Rename(from, to))
  {
    CoherentAfterRename(f, slots, g, from, to);
    assert ViewOf(g, slots) == Apply(ViewOf(f, slots), Rename(from, to));
  }

  // ---------------------------------------------------------------- the dot entries

  /** The two extra renames of RenameDirectory are plain and name no root. */
  ghost predicate DotArgs(f: Forest, from: string, to: string, dot: string)
    requires WellFormed(f)
  {
    && Plain(f, from + [SEP] + dot) && Plain(f, to + [SEP] + dot)
    && (forall t :: t in Tops(f) ==> Name(f, t) != from + [SEP] + dot && Name(f, t) != to + [SEP] + dot)
  }

  /** A dot rename does nothing when its target directory, or its source, is unregistered. */
  lemma DotRenameIsIdle(f: Forest, g: Forest, from: string, to: string, dot: string)
    requires Sound(f) && Sound(g) && SameRoots(f, g) && DotArgs(f, from, to, dot)
    requires GoodName(dot)
    requires !Known(g, to) || !Known(g, from + [SEP] + dot)
    ensures !Performed(g, from + [SEP] + dot, to + [SEP] + dot)
    ensures RenameArgs(g, from + [SEP] + dot, to + [SEP] + dot)
    ensures DotArgs(g, from, to, dot)
  {
    PlainPersists(f, g, from + [SEP] + dot);
    PlainPersists(f, g, to + [SEP] + dot);
    SplitBack(to, dot);
    assert Basename(to + [SEP] + dot) == dot;
    forall q | q in PathMap(g) && PathMap(g)[q] + [SEP] + dot == to + [SEP] + dot
      ensures PathMap(g)[q] == to
    {
      assert (PathMap(g)[q] + [SEP] + dot)[..|PathMap(g)[q]|] == PathMap(g)[q];
      assert (to + [SEP] + dot)[..|to|] == to;
    }
  }

  /** A dot rename is to be performed only where the main rename is. */
  lemma DotFollowsMain(f: Forest, from: string, to: string, dot: string)
    requires Sound(f) && RenameArgs(f, from, to) && DotArgs(f, from, to, dot) && GoodName(dot)
    requires Performed(f, from + [SEP] + dot, to + [SEP] + dot)
    ensures Performed(f, from, to)
  {
    SplitBack(to, dot);
    assert Basename(to + [SEP] + dot) == dot;
    var n, q :| n in PathMap(f) && q in PathMap(f) && n in f.up && q in f.up && Top(f, n) == Top(f, q)
      && PathMap(f)[n] == from + [SEP] + dot && PathMap(f)[q] + [SEP] + dot == to + [SEP] + dot;
    SameFront(PathMap(f)[q], to, dot);
    ParentsPerform(f, n, q, from, to, dot);
  }

  lemma ParentsPerform(f: Forest, n: Node, q: Node, from: string, to: string, dot: string)
    requires Sound(f) && GoodName(dot)
    requires n in PathMap(f) && q in PathMap(f) && n in f.up && q in f.up && Top(f, n) == Top(f, q)
    requires PathMap(f)[n] == from + [SEP] + dot && PathMap(f)[q] == to
    requires forall t :: t in Tops(f) ==> Name(f, t) != to && Name(f, t) != from + [SEP] + dot
    ensures Performed(f, from, to)
  {
    ParentOfDot(f, n, from, dot);
    ParentIsKnown(f, q);
  }

  lemma SameFront(a: string, b: string, dot: string)
    requires a + [SEP] + dot == b + [SEP] + dot
    ensures a == b
  {
    assert (a + [SEP] + dot)[..|a|] == a;
    assert (b + [SEP] + dot)[..|b|] == b;
  }

  /** A registered node below another one: its parent is registered, under the front of its path. */
  lemma ParentIsKnown(f: Forest, q: Node)
    requires Sound(f) && q in PathMap(f) && q in f.up
    requires forall t :: t in Tops(f) ==> Name(f, t) != PathMap(f)[q]
    ensures var p := f.up[q];
            && p != null && p in f.up && p in PathMap(f) && Top(f, p) == Top(f, q)
            && PathMap(f)[p] + [SEP] + Basename(PathMap(f)[q]) == PathMap(f)[q]
            && PathMap(f)[p] + [SEP] + Name(f, q) == PathMap(f)[q]
  {
    NotARoot(f, q);
    assert NodeOk(f, q);
    RegisteredIsGood(f, q);
    var p := f.up[q];
    assert NodeOk(f, p);
    assert NodeNamed(f, q);
    SplitBack(FullPath(f, p), Name(f, q));
  }

  lemma ParentOfDot(f: Forest, n: Node, from: string, dot: string)
    requires Sound(f) && n in PathMap(f) && n in f.up && GoodName(dot)
    requires PathMap(f)[n] == from + [SEP] + dot
    requires forall t :: t in Tops(f) ==> Name(f, t) != from + [SEP] + dot
    ensures var p := f.up[n];
            p != null && p in f.up && p in PathMap(f) && Top(f, p) == Top(f, n) && PathMap(f)[p] == from
  {
    ParentIsKnown(f, n);
    SplitBack(from, dot);
    assert Basename(PathMap(f)[n]) == dot;
    SameFront(PathMap(f)[f.up[n]], from, dot);
  }

  /** After a performed main rename the source of a dot rename is not found, also where the target was
      registered; its directory must not lie under the target then. */
  lemma DotSourceIsGone(f: Forest, s: seq<Node?>, g: Forest, t: seq<Node?>, top: Node, from: string, to: string, dot: string)
    requires Sound(f) && Coherent(f, s) && Labelled(g) && Coherent(g, t) && SameRoots(f, g)
    requires RenameArgs(f, from, to) && Performed(f, from, to) && DotArgs(f, from, to, dot)
    requires ViewOf(g, t) == Apply(ViewOf(f, s), Rename(from, to))
    requires top in g.up && top in Tops(g)
    requires Known(f, to) ==> !Under(to, from)
    ensures Find(g, top, from + [SEP] + dot) == null
  {
    var path := from + [SEP] + dot;
    PlainPersists(f, g, path);
    var n :| n in PathMap(f) && PathMap(f)[n] == from;
    if Under(to, from) { TargetIsClosed(f, from, to, n); }
    SourceIsVacated(ViewOf(f, s), from, to, path);
    ViewShows(g, t, path);
    FoundIsKnown(g, top, path);
  }

  lemma FoundIsKnown(g: Forest, top: Node, path: string)
    requires Labelled(g) && top in g.up && top in Tops(g) && Plain(g, path)
    ensures Find(g, top, path) != null ==> Known(g, path)
  {
    if r: Node, c :| r in g.up && Legal(g, path, r, c) {
      FoundHasThePath(g, top, path, r, c);
      if Find(g, top, path) != null {
        assert PathMap(g)[Find(g, top, path)] == path;
      }
    }
  }

  lemma RenameShows(v: View, from: string, to: string)
    requires Some(from) in v && from != to
    ensures Apply(v, Rename(from, to)) != v
  {
    var i :| 0 <= i < |v| && v[i] == Some(from);
    assert from[|from|..] == [] && to + [] == to;
    assert Apply(v, Rename(from, to))[i] == Some(to);
  }

  /** RenameDirectory renames the dot entries also after a move that failed. Such a rename is performed,
      and changes what the clients see, exactly when the entry is registered and the target directory is,
      under the same root. */
  lemma DotMovesExactly(f: Forest, slots: seq<Node?>, from: string, to: string, dot: string)
    requires Sound(f) && Coherent(f, slots) && GoodName(dot) && RenameArgs(f, from + [SEP] + dot, to + [SEP] + dot)
    ensures var fd, td, v := from + [SEP] + dot, to + [SEP] + dot, ViewOf(f, slots);
            && (Performed(f, fd, td) <==>
                exists n, q :: n in PathMap(f) && q in PathMap(f) && n in f.up && q in f.up && Top(f, n) == Top(f, q)
                               && PathMap(f)[n] == fd && PathMap(f)[q] == to)
            && (Performed(f, fd, td) ==> Apply(v, Rename(fd, td)) != v)
  {
    var fd, td := from + [SEP] + dot, to + [SEP] + dot;
    SplitBack(to, dot);
    forall q | q in PathMap(f)
      ensures PathMap(f)[q] + [SEP] + Basename(td) == td <==> PathMap(f)[q] == to
    {
      if PathMap(f)[q] + [SEP] + dot == td { SameFront(PathMap(f)[q], to, dot); }
    }
    if Performed(f, fd, td) {
      assert Known(f, fd);
      ViewShows(f, slots, fd);
      RenameShows(ViewOf(f, slots), fd, td);
    }
  }

  /** What RenameDirectory is called with after a successful move: the conditions of a rename, where a
      target that is registered although nothing was there does not hold the source. */
  ghost predicate MoveDone(f: Forest, from: string, to: string)
    requires WellFormed(f)
  {
    RenameArgs(f, from, to) && (Known(f, to) ==> !Under(to, from))
  }

  /** And after a failed one: the conditions of the two dot renames. */
  ghost predicate MoveFailed(f: Forest, from: string, to: string)
    requires WellFormed(f)
  {
    && RenameArgs(f, Dot(from), Dot(to)) && RenameArgs(f, DotDot(from), DotDot(to))
    && (Known(f, to) ==> !Under(to, from))
  }

  /** In the state after the main rename, performed or not, the dot renames find nothing to do. */
  lemma DotsAreIdle(f: Forest, s: seq<Node?>, g: Forest, t: seq<Node?>, top: Node, from: string, to: string, dot: string)
    requires Sound(f) && Coherent(f, s) && Labelled(g) && Coherent(g, t) && SameRoots(f, g)
    requires DotArgs(f, from, to, dot) && GoodName(dot)
    requires MoveDone(f, from, to)
    requires if Performed(f, from, to) then ViewOf(g, t) == Apply(ViewOf(f, s), Rename(from, to)) else g == f
    requires top in g.up && top in Tops(g)
    ensures Ready(g, top, from + [SEP] + dot, to + [SEP] + dot)
    ensures !Finds(g, top, from + [SEP] + dot, to + [SEP] + dot)
  {
    if Performed(f, from, to) {
      DotSourceIsGone(f, s, g, t, top, from, to, dot);
      CachedIsRoot(f, g, top, from, to, dot);
    } else {
      if Performed(g, from + [SEP] + dot, to + [SEP] + dot) { DotFollowsMain(f, from, to, dot); }
      SoundIsUnshared(f, from + [SEP] + dot);
      SoundIsUnshared(f, to + [SEP] + dot);
      RenameTargets(g, top, from + [SEP] + dot, to + [SEP] + dot);
    }
  }

  lemma CachedIsRoot(f: Forest, g: Forest, top: Node, from: string, to: string, dot: string)
    requires WellFormed(f) && WellFormed(g) && SameRoots(f, g) && DotArgs(f, from, to, dot)
    requires top in g.up && top in Tops(g)
    ensures to + [SEP] + dot != Name(g, CachedRoot(g, top, from + [SEP] + dot))
  {
  }

  // ---------------------------------------------------------------- removing the target first

  /** A registered path fixes its root, so forests with the same roots agree on it. */
  lemma SamePathSameTop(f: Forest, g: Forest, n: Node)
    requires Sound(f) && Sound(g) && SameRoots(f, g)
    requires n in PathMap(f) && n in PathMap(g) && PathMap(f)[n] == PathMap(g)[n]
    ensures Top(f, n) == Top(g, n)
  {
    RegisteredIsLegal(f, n);
    RegisteredIsLegal(g, n);
    UnderOccurs(Name(f, Top(f, n)), PathMap(f)[n]);
  }

  /** The rename is to be performed once the paths in `gone` are no longer registered. */
  ghost predicate PerformedWithout(f: Forest, from: string, to: string, gone: set<string>)
    requires WellFormed(f)
  {
    exists n, q :: n in PathMap(f) && q in PathMap(f) && n in f.up && q in f.up && Top(f, n) == Top(f, q)
                   && PathMap(f)[n] !in gone && PathMap(f)[q] !in gone
                   && PathMap(f)[n] == from && PathMap(f)[q] + [SEP] + Basename(to) == to
  }

  /** g is f without the paths in `gone`. */
  ghost predicate Without(f: Forest, g: Forest, gone: set<string>)
    requires WellFormed(f) && WellFormed(g)
  {
    Shrunk(f, g) && forall m :: m in PathMap(f) ==> (m in PathMap(g) <==> PathMap(f)[m] !in gone)
  }

  /** Nodes that stay registered keep their roots. */
  lemma SurvivorsKeepTops(f: Forest, g: Forest, gone: set<string>, m: Node)
    requires Sound(f) && Sound(g) && Without(f, g, gone) && m in PathMap(g)
    ensures m in PathMap(f) && m in f.up && m in g.up && Top(f, m) == Top(g, m) && FullPath(g, m) == FullPath(f, m)
  {
    SamePathSameTop(f, g, m);
    assert PathMap(g)[m] == FullPath(g, m) && PathMap(f)[m] == FullPath(f, m);
  }

  lemma PerformedThere(f: Forest, g: Forest, from: string, to: string, gone: set<string>)
    requires Sound(f) && Sound(g) && Without(f, g, gone)
    ensures Performed(g, from, to) <==> PerformedWithout(f, from, to, gone)
  {
    forall m | m in PathMap(g)
      ensures m in PathMap(f) && m in f.up && m in g.up && Top(f, m) == Top(g, m)
    {
      SurvivorsKeepTops(f, g, gone, m);
    }
  }

  /** Unregistering some paths leaves the conditions of a rename in place. */
  lemma ArgsSurviveRemoval(f: Forest, g: Forest, from: string, to: string, gone: set<string>)
    requires Sound(f) && Sound(g) && Without(f, g, gone)
    requires Plain(f, from) && Plain(f, to) && (forall t :: t in Tops(f) ==> Name(f, t) != to)
    requires PerformedWithout(f, from, to, gone) ==> Relocatable(f, from, to)
    ensures RenameArgs(g, from, to)
  {
    PlainPersists(f, g, from);
    PlainPersists(f, g, to);
    PerformedThere(f, g, from, to, gone);
    if Performed(g, from, to) {
      forall n, m | n in PathMap(g) && m in PathMap(g) && n in g.up && m in g.up && PathMap(g)[n] == from && Under(from, PathMap(g)[m])
        ensures OnlyRoot(g, Relabel(from, to, FullPath(g, m)), Top(g, n))
      {
        SurvivorsKeepTops(f, g, gone, n);
        SurvivorsKeepTops(f, g, gone, m);
        assert OnlyRoot(f, Relabel(from, to, FullPath(f, m)), Top(f, n));
        OnlyRootPersists(f, g, Relabel(from, to, FullPath(f, m)), Top(f, n));
      }
    }
  }

  lemma DotArgsSurvive(f: Forest, g: Forest, from: string, to: string, dot: string)
    requires WellFormed(f) && WellFormed(g) && SameRoots(f, g) && DotArgs(f, from, to, dot)
    ensures DotArgs(g, from, to, dot)
  {
    PlainPersists(f, g, from + [SEP] + dot);
    PlainPersists(f, g, to + [SEP] + dot);
  }

  /** What remove_entry asks of the table once the file system has removed the entry. */
  ghost predicate EntryRemovable(f: Forest, path: string, directoryLink: bool)
    requires WellFormed(f)
  {
    if directoryLink then FolderRemovable(f, path) else Plain(f, path) && (Known(f, path) ==> Removable(f, path))
  }

  /** The paths remove_entry unregisters. */
  ghost function Removed(path: string, directoryLink: bool): set<string> {
    if directoryLink then {Dot(path), DotDot(path), path} else {path}
  }

  /** The same forests, told by what the clients see. */
  lemma RemovalIsWithout(f: Forest, s: seq<Node?>, g: Forest, t: seq<Node?>, path: string, directoryLink: bool)
    requires Sound(f) && Coherent(f, s) && Sound(g) && Coherent(g, t) && Shrunk(f, g)
    requires ViewOf(g, t) == Run(ViewOf(f, s), EntryRemoval(path, directoryLink, true))
    ensures Without(f, g, Removed(path, directoryLink))
  {
    var gone := Removed(path, directoryLink);
    forall m | m in PathMap(f)
      ensures m in PathMap(g) <==> PathMap(f)[m] !in gone
    {
      var p := PathMap(f)[m];
      EntryRemovalShows(ViewOf(f, s), path, directoryLink, p);
      assert Known(f, p);
      ViewShows(f, s, p);
      ViewShows(g, t, p);
      if Known(g, p) {
        var k := KnownNode(g, p);
        PathMapInjective(f, k, m);
      }
      if m in PathMap(g) { assert PathMap(g)[m] == p; }
    }
  }

  lemma EntryRemovalShows(v: View, path: string, directoryLink: bool, p: string)
    ensures Some(p) in Run(v, EntryRemoval(path, directoryLink, true)) <==> Some(p) in v && p !in Removed(path, directoryLink)
  {
    if directoryLink {
      ThreeRemovals(v, path);
      RemovalShows(v, Dot(path), p);
      RemovalShows(Apply(v, Remove(Dot(path))), DotDot(path), p);
      RemovalShows(Apply(Apply(v, Remove(Dot(path))), Remove(DotDot(path))), path, p);
    } else {
      OneRemoval(v, path);
      RemovalShows(v, path, p);
    }
  }

  lemma RemovalShows(v: View, path: string, p: string)
    ensures Some(p) in Apply(v, Remove(path)) <==> Some(p) in v && p != path
  {
    var w := Apply(v, Remove(path));
    if Some(p) in v && p != path {
      var i :| 0 <= i < |v| && v[i] == Some(p);
      assert w[i] == Some(p);
    }
  }

  /** The paths that are unregistered when RENAME gets to the move. */
  ghost function Unlisted(to: string, targetExists: bool, directoryLink: bool, removed: bool): set<string> {
    if targetExists && removed then Removed(to, directoryLink) else {}
  }

  ghost predicate WithoutTarget(f: Forest, g: Forest, to: string, targetExists: bool, directoryLink: bool, removed: bool) {
    WellFormed(f) && WellFormed(g) && Without(f, g, Unlisted(to, targetExists, directoryLink, removed))
  }

  lemma TargetRemoved(f: Forest, s: seq<Node?>, g: Forest, t: seq<Node?>, to: string,
                      targetExists: bool, directoryLink: bool, removed: bool)
    requires Sound(f) && Coherent(f, s) && Sound(g) && Coherent(g, t) && Shrunk(f, g)
    requires ViewOf(g, t) == if targetExists then Run(ViewOf(f, s), EntryRemoval(to, directoryLink, removed)) else ViewOf(f, s)
    ensures WithoutTarget(f, g, to, targetExists, directoryLink, removed)
  {
    if targetExists && removed {
      RemovalIsWithout(f, s, g, t, to, directoryLink);
    } else {
      forall m | m in PathMap(f)
        ensures m in PathMap(g)
      {
        assert Known(f, PathMap(f)[m]);
        ViewShows(f, s, PathMap(f)[m]);
        ViewShows(g, t, PathMap(f)[m]);
        var k := KnownNode(g, PathMap(f)[m]);
        PathMapInjective(f, k, m);
      }
    }
  }

  /** What RENAME asks of the table: of the paths, that they are ones a client may name; of the removal,
      only when it takes place; of the renames, only of those that are performed. A target that is gone
      from the disk does not hold the source. */
  ghost predicate RenameCall(f: Forest, from: string, to: string, targetExists: bool, directoryLink: bool, removed: bool,
                             moved: bool)
    requires WellFormed(f)
  {
    && (targetExists && removed ==> EntryRemovable(f, to, directoryLink))
    && (!targetExists || removed ==>
          && DotArgs(f, from, to, ".") && DotArgs(f, from, to, "..")
          && (moved ==>
                && Plain(f, from) && Plain(f, to) && (forall t :: t in Tops(f) ==> Name(f, t) != to)
                && (PerformedWithout(f, from, to, Unlisted(to, targetExists, directoryLink, removed)) ==> Relocatable(f, from, to)))
          && (moved && !targetExists && Known(f, to) ==> !Under(to, from))
          && (!moved && !targetExists ==> MoveFailed(f, from, to)))
  }

  lemma SameKnown(f: Forest, g: Forest, path: string)
    requires WellFormed(f) && WellFormed(g) && Without(f, g, {})
    ensures Known(g, path) <==> Known(f, path)
  {
    if Known(f, path) {
      var k := KnownNode(f, path);
      assert k in PathMap(g) && PathMap(g)[k] == path;
    }
    if Known(g, path) {
      var k := KnownNode(g, path);
      assert PathMap(f)[k] == path;
    }
  }

  lemma FailureThere(f: Forest, g: Forest, from: string, to: string, targetExists: bool, directoryLink: bool, removed: bool)
    requires Sound(f) && Sound(g) && WithoutTarget(f, g, to, targetExists, directoryLink, removed)
    requires DotArgs(f, from, to, ".") && DotArgs(f, from, to, "..")
    requires if targetExists then removed else MoveFailed(f, from, to)
    ensures MoveFailed(g, from, to)
  {
    hide Sound, DotArgs;
    if targetExists {
      assert !Known(g, to);
      DotRenameIsIdle(f, g, from, to, ".");
      DotRenameIsIdle(f, g, from, to, "..");
    } else {
      ArgsSurviveRemoval(f, g, Dot(from), Dot(to), {});
      ArgsSurviveRemoval(f, g, DotDot(from), DotDot(to), {});
      SameKnown(f, g, to);
    }
  }

  lemma ReadyToRename(f: Forest, g: Forest, from: string, to: string,
                      targetExists: bool, directoryLink: bool, removed: bool, moved: bool)
    requires Sound(f) && Sound(g) && WithoutTarget(f, g, to, targetExists, directoryLink, removed)
    requires RenameCall(f, from, to, targetExists, directoryLink, removed, moved) && (!targetExists || removed)
    ensures DotArgs(g, from, to, ".") && DotArgs(g, from, to, "..")
    ensures if moved then MoveDone(g, from, to) else MoveFailed(g, from, to)
    ensures Known(g, to) <==> !targetExists && Known(f, to)
  {
    DotArgsSurvive(f, g, from, to, ".");
    DotArgsSurvive(f, g, from, to, "..");
    if moved {
      ArgsSurviveRemoval(f, g, from, to, Unlisted(to, targetExists, directoryLink, removed));
    } else {
      FailureThere(f, g, from, to, targetExists, directoryLink, removed);
    }
    if targetExists { assert !Known(g, to); } else { SameKnown(f, g, to); }
  }

  /** A file renamed onto itself: removing the target removes the source, so nothing is renamed, and the
      handle of the file goes stale. */
  lemma RenameOntoItself(f: Forest, s: seq<Node?>, path: string, directoryLink: bool, id: nat)
    requires WellFormed(f) && Coherent(f, s)
    ensures !PerformedWithout(f, path, path, Removed(path, directoryLink))
    ensures id < |s| && ViewOf(f, s)[id] == Some(path) ==>
              var w := Run(ViewOf(f, s), EntryRemoval(path, directoryLink, true)); id < |w| && w[id] == None
  {
    var v := ViewOf(f, s);
    if id < |s| && v[id] == Some(path) {
      if directoryLink { ThreeRemovals(v, path); } else { OneRemoval(v, path); }
    }
  }
}
