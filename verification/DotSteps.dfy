/** The two renames of dot entries that RenameDirectory makes also when the move has failed. Where the
    target is registered though nothing is there, they take effect; the second one is then made in a
    tree in which two nodes may share a path. */
module DotSteps {
  import opened Nodes
  import opened Forests
  import opened Ancestry
  import opened Paths
  import opened Lookup
  import opened Registry
  import opened Plainness
  import opened HandleMachine
  import opened Coherence
  import opened Resolutions
  import opened RenameSteps

  // ---------------------------------------------------------------- the dot entries

  lemma DotIsNotDotDot(path: string)
    ensures !Under(Dot(path), DotDot(path)) && !Under(DotDot(path), Dot(path)) && !Under(Dot(path), path)
  {
    assert Dot(path)[|path| + 1] == '.' && DotDot(path)[|path| + 2] == '.';
    assert (Dot(path) + [SEP])[|path| + 2] == SEP;
  }

  lemma SecondLast(a: string, b: string)
    ensures Dot(a) != DotDot(b)
  {
    assert Dot(a)[|Dot(a)| - 2] == SEP && DotDot(b)[|DotDot(b)| - 2] == '.';
  }

  /** The ends of the second dot rename and the target directory lie under neither end of the first. */
  lemma DotsAreApart(from: string, to: string, x: string)
    requires !Under(to, from) && !Under(Dot(from), Dot(to))
    requires x == DotDot(from) || x == to || x == DotDot(to)
    ensures !Under(Dot(from), x) && !Under(Dot(to), x)
  {
    DotIsNotDotDot(from);
    DotIsNotDotDot(to);
    SecondLast(from, to);
    SecondLast(to, from);
    UnderExtends(Dot(from), to, ".");
    if Dot(from) + [SEP] <= DotDot(to) { UnderOfParent(Dot(from), to, ".."); }
    if Dot(to) + [SEP] <= DotDot(from) {
      UnderOfParent(Dot(to), from, "..");
      UnderExtends(to, to, ".");
      UnderOfUnder(to, Dot(to), from);
    }
  }

  /** Nothing under the second source lies under an end of the first dot rename either. */
  lemma BelowDotDotIsApart(from: string, to: string, z: string)
    requires !Under(to, from) && !Under(Dot(from), Dot(to)) && !Under(DotDot(from), DotDot(to))
    requires Under(DotDot(from), z)
    ensures !Under(Dot(from), z) && !Under(Dot(to), z)
  {
    DotsAreApart(from, to, DotDot(from));
    DotIsNotDotDot(from);
    SecondLast(to, from);
    UnderComparable(DotDot(from), Dot(from), z);
    UnderComparable(DotDot(from), Dot(to), z);
    UnderExtends(DotDot(from), to, "..");
    if DotDot(from) + [SEP] <= Dot(to) { UnderOfParent(DotDot(from), to, "."); }
  }

  /** g is f after the first dot rename, which was performed. */
  ghost predicate FirstDotMoved(f: Forest, g: Forest, from: string, to: string) {
    && Sound(f) && Labelled(g) && Separated(g) && SameRoots(f, g)
    && MoveFailed(f, from, to) && Performed(f, Dot(from), Dot(to))
    && PathMap(g) == RelabelMap(PathMap(f), Dot(from), Dot(to))
  }

  /** A performed dot rename has the target directory registered, and does not go below its source. */
  lemma FirstDotEnds(f: Forest, g: Forest, from: string, to: string)
    requires FirstDotMoved(f, g, from, to)
    ensures Known(f, to) && !Under(to, from) && !Under(Dot(from), Dot(to))
  {
    SplitBack(to, ".");
    var q :| q in PathMap(f) && PathMap(f)[q] + [SEP] + Basename(Dot(to)) == Dot(to);
    SameFront(PathMap(f)[q], to, ".");
  }

  /** The ends of a rename are the same nodes, under the same roots, in both forests. */
  ghost predicate SameEnd(f: Forest, g: Forest, from: string, to: string, n: Node)
    requires WellFormed(f) && WellFormed(g)
  {
    && n in PathMap(f) && n in PathMap(g)
    && (PathMap(g)[n] == from <==> PathMap(f)[n] == from)
    && (PathMap(g)[n] + [SEP] + Basename(to) == to <==> PathMap(f)[n] + [SEP] + Basename(to) == to)
    && (PathMap(f)[n] == from || PathMap(f)[n] + [SEP] + Basename(to) == to ==> n in f.up && n in g.up && Top(f, n) == Top(g, n))
  }

  lemma PerformedAlike(f: Forest, g: Forest, from: string, to: string)
    requires WellFormed(f) && WellFormed(g)
    requires forall n {:trigger SameEnd(f, g, from, to, n)} :: n in PathMap(f) || n in PathMap(g) ==> SameEnd(f, g, from, to, n)
    ensures Performed(g, from, to) <==> Performed(f, from, to)
  {
    if n, q :| n in PathMap(f) && q in PathMap(f) && n in f.up && q in f.up && Top(f, n) == Top(f, q)
               && PathMap(f)[n] == from && PathMap(f)[q] + [SEP] + Basename(to) == to {
      assert SameEnd(f, g, from, to, n) && SameEnd(f, g, from, to, q);
    }
    if n, q :| n in PathMap(g) && q in PathMap(g) && n in g.up && q in g.up && Top(g, n) == Top(g, q)
               && PathMap(g)[n] == from && PathMap(g)[q] + [SEP] + Basename(to) == to {
      assert SameEnd(f, g, from, to, n) && SameEnd(f, g, from, to, q);
    }
  }

  lemma BasenameOfDotDot(to: string)
    ensures Basename(DotDot(to)) == ".."
  {
    SplitBack(to, "..");
  }

  lemma SecondDotNode(f: Forest, g: Forest, from: string, to: string, n: Node)
    requires FirstDotMoved(f, g, from, to) && (n in PathMap(f) || n in PathMap(g))
    ensures SameEnd(f, g, DotDot(from), DotDot(to), n)
  {
    FirstDotEnds(f, g, from, to);
    DotsAreApart(from, to, DotDot(from));
    DotsAreApart(from, to, to);
    assert n in PathMap(f);
    FarPath(f, g, Dot(from), Dot(to), DotDot(from), n);
    FarPath(f, g, Dot(from), Dot(to), to, n);
    BasenameOfDotDot(to);
    if PathMap(f)[n] + [SEP] + ".." == DotDot(to) { SameFront(PathMap(f)[n], to, ".."); }
    if PathMap(g)[n] + [SEP] + ".." == DotDot(to) { SameFront(PathMap(g)[n], to, ".."); }
    if PathMap(f)[n] == PathMap(g)[n] { FarTop(f, g, n); }
  }

  lemma SecondDotPerformed(f: Forest, g: Forest, from: string, to: string)
    requires FirstDotMoved(f, g, from, to)
    ensures Performed(g, DotDot(from), DotDot(to)) <==> Performed(f, DotDot(from), DotDot(to))
  {
    forall n | n in PathMap(f) || n in PathMap(g)
      ensures SameEnd(f, g, DotDot(from), DotDot(to), n)
    {
      SecondDotNode(f, g, from, to, n);
    }
    PerformedAlike(f, g, DotDot(from), DotDot(to));
  }

  lemma SecondDotRelocatable(f: Forest, g: Forest, from: string, to: string)
    requires FirstDotMoved(f, g, from, to) && Performed(f, DotDot(from), DotDot(to))
    ensures Relocatable(g, DotDot(from), DotDot(to))
  {
    FirstDotEnds(f, g, from, to);
    var fd, td := DotDot(from), DotDot(to);
    forall n, m | n in PathMap(g) && m in PathMap(g) && n in g.up && m in g.up && PathMap(g)[n] == fd && Under(fd, PathMap(g)[m])
      ensures OnlyRoot(g, Relabel(fd, td, FullPath(g, m)), Top(g, n))
    {
      DotsAreApart(from, to, fd);
      BelowDotDotIsApart(from, to, PathMap(g)[m]);
      FarPath(f, g, Dot(from), Dot(to), fd, n);
      FarPath(f, g, Dot(from), Dot(to), PathMap(g)[m], m);
      FarTop(f, g, n);
      assert m in f.up && FullPath(f, m) == FullPath(g, m);
      assert OnlyRoot(f, Relabel(fd, td, FullPath(f, m)), Top(f, n));
      OnlyRootPersists(f, g, Relabel(fd, td, FullPath(f, m)), Top(f, n));
    }
  }

  /** After the first dot rename the second one finds its ends exactly when they were there before. */
  lemma SecondDot(f: Forest, g: Forest, top: Node, from: string, to: string)
    requires FirstDotMoved(f, g, from, to) && top in g.up && top in Tops(g)
    ensures Ready(g, top, DotDot(from), DotDot(to))
    ensures Finds(g, top, DotDot(from), DotDot(to)) <==> Performed(f, DotDot(from), DotDot(to))
    ensures Known(g, DotDot(to)) <==> Known(f, DotDot(to))
  {
    FirstDotEnds(f, g, from, to);
    DotsAreApart(from, to, DotDot(from));
    DotsAreApart(from, to, DotDot(to));
    SoundIsUnshared(f, DotDot(from));
    SoundIsUnshared(f, DotDot(to));
    UnsharedStays(f, g, Dot(from), Dot(to), DotDot(from));
    UnsharedStays(f, g, Dot(from), Dot(to), DotDot(to));
    FarIsKnown(f, g, Dot(from), Dot(to), DotDot(to));
    SecondDotPerformed(f, g, from, to);
    if Performed(f, DotDot(from), DotDot(to)) { SecondDotRelocatable(f, g, from, to); }
    PlainPersists(f, g, DotDot(from));
    PlainPersists(f, g, DotDot(to));
    RenameTargets(g, top, DotDot(from), DotDot(to));
  }

  /** A path that a RENAME has nothing to do with: not under the target, nor under what is moved. */
  ghost predicate Aside(from: string, to: string, moved: bool, path: string) {
    && !Under(to, path)
    && if moved then !Under(from, path) else !Under(Dot(from), path) && !Under(DotDot(from), path)
  }

  lemma AsideOfDots(from: string, to: string, path: string)
    requires Aside(from, to, false, path)
    ensures !Under(Dot(from), path) && !Under(Dot(to), path) && !Under(DotDot(from), path) && !Under(DotDot(to), path)
  {
    UnderExtends(to, to, ".");
    UnderExtends(to, to, "..");
    if Under(Dot(to), path) { UnderOfUnder(to, Dot(to), path); }
    if Under(DotDot(to), path) { UnderOfUnder(to, DotDot(to), path); }
  }

  // ---------------------------------------------------------------- what the clients see

  ghost function RenamedIf(performed: bool, v: View, from: string, to: string): View {
    if performed then Apply(v, Rename(from, to)) else v
  }

  /** The view after a RENAME whose move failed. */
  ghost function DotView(f: Forest, v: View, from: string, to: string): View
    requires WellFormed(f)
  {
    RenamedIf(Performed(f, DotDot(from), DotDot(to)),
              RenamedIf(Performed(f, Dot(from), Dot(to)), v, Dot(from), Dot(to)), DotDot(from), DotDot(to))
  }

  /** One of the dot renames meets a registered entry. */
  ghost predicate DotsCollide(f: Forest, from: string, to: string)
    requires WellFormed(f)
  {
    || (Performed(f, Dot(from), Dot(to)) && Known(f, Dot(to)))
    || (Performed(f, DotDot(from), DotDot(to)) && Known(f, DotDot(to)))
  }

  /** The second dot rename, whether the first was performed or not. */
  lemma SecondDotReady(f: Forest, g: Forest, top: Node, from: string, to: string)
    requires Sound(f) && Labelled(g) && Separated(g) && SameRoots(f, g) && MoveFailed(f, from, to)
    requires if Performed(f, Dot(from), Dot(to)) then PathMap(g) == RelabelMap(PathMap(f), Dot(from), Dot(to)) else g == f
    requires top in g.up && top in Tops(g)
    ensures Ready(g, top, DotDot(from), DotDot(to))
    ensures Finds(g, top, DotDot(from), DotDot(to)) <==> Performed(f, DotDot(from), DotDot(to))
    ensures Known(g, DotDot(to)) <==> Known(f, DotDot(to))
  {
    if Performed(f, Dot(from), Dot(to)) {
      SecondDot(f, g, top, from, to);
    } else {
      SoundIsUnshared(f, DotDot(from));
      SoundIsUnshared(f, DotDot(to));
      RenameTargets(g, top, DotDot(from), DotDot(to));
    }
  }

  lemma NothingToMove(g: Forest, from: string, to: string, dot: string)
    requires WellFormed(g) && GoodName(dot) && !Known(g, to)
    ensures !Performed(g, from + [SEP] + dot, to + [SEP] + dot)
  {
    SplitBack(to, dot);
    forall q | q in PathMap(g) && PathMap(g)[q] + [SEP] + dot == to + [SEP] + dot
      ensures PathMap(g)[q] == to
    {
      SameFront(PathMap(g)[q], to, dot);
    }
  }

  /** With the target unregistered no dot entry moves. */
  lemma DotsStay(g: Forest, view: View, from: string, to: string)
    requires WellFormed(g) && !Known(g, to)
    ensures DotView(g, view, from, to) == view && !DotsCollide(g, from, to)
  {
    NothingToMove(g, from, to, ".");
    NothingToMove(g, from, to, "..");
  }

  /** Forests with the same registrations agree on the dot renames. */
  lemma DotsThere(f: Forest, g: Forest, view: View, from: string, to: string)
    requires Sound(f) && Sound(g) && Without(f, g, {})
    ensures DotView(g, view, from, to) == DotView(f, view, from, to)
    ensures DotsCollide(g, from, to) <==> DotsCollide(f, from, to)
  {
    var a, b, c, d := Dot(from), Dot(to), DotDot(from), DotDot(to);
    PerformedHere(f, g, a, b);
    PerformedHere(f, g, c, d);
    SameKnown(f, g, b);
    SameKnown(f, g, d);
  }

  lemma PerformedHere(f: Forest, g: Forest, from: string, to: string)
    requires Sound(f) && Sound(g) && Without(f, g, {})
    ensures Performed(g, from, to) <==> Performed(f, from, to)
  {
    PerformedThere(f, g, from, to, {});
  }

  /** Removing the target leaves the handles of other paths alone. */
  lemma RemovalIsAside(v: View, from: string, to: string, moved: bool, directoryLink: bool, removed: bool, path: string, id: nat)
    requires Aside(from, to, moved, path) && id < |v| && v[id] == Some(path)
    ensures var w := Run(v, EntryRemoval(to, directoryLink, removed)); id < |w| && w[id] == Some(path)
  {
    UnderExtends(to, to, ".");
    UnderExtends(to, to, "..");
    if removed {
      if directoryLink { ThreeRemovals(v, to); } else { OneRemoval(v, to); }
    }
  }

  lemma RemovalLength(v: View, path: string, directoryLink: bool, removed: bool)
    ensures |Run(v, EntryRemoval(path, directoryLink, removed))| == |v|
  {
    if removed {
      if directoryLink { ThreeRemovals(v, path); } else { OneRemoval(v, path); }
    }
  }

  lemma ShrunkToItself(f: Forest)
    requires WellFormed(f)
    ensures Shrunk(f, f)
  {
  }

  /** What one step keeps and the next one keeps, both keep. */
  lemma KeepsLookupThrough(f: Forest, s: seq<Node?>, g: Forest, t: seq<Node?>, h: Forest, u: seq<Node?>, path: string)
    requires Coherent(f, s) && Coherent(g, t) && Coherent(h, u)
    requires KeepsLookup(f, s, g, t, path) && KeepsLookup(g, t, h, u, path)
    ensures KeepsLookup(f, s, h, u, path)
  {
  }
}
