/** What GetHandleByPath finds, as a map from paths to handle numbers: in a sound table the handle that
    stands for the path, and in one where two nodes share a path the handle of the node that is found.
    A rename leaves the lookups of all paths alone that lie under neither of its ends. */
module Resolutions {
  import opened Nodes
  import opened Forests
  import opened Ancestry
  import opened Paths
  import opened Lookup
  import opened Registry
  import opened Plainness
  import opened Renaming
  import opened Handles
  import opened HandleMachine
  import opened Coherence

  /** The number of the handle of a registered node. */
  ghost function NumberOf(f: Forest, slots: seq<Node?>, n: Node): (id: nat)
    requires Coherent(f, slots) && n in PathMap(f)
    ensures id < |slots| && slots[id] == n
  {
    assert NodeSlotOk(f, slots, n);
    HandleId(f.item[n].handle.value) as int
  }

  ghost function Resolution(f: Forest, slots: seq<Node?>): map<string, nat>
    requires Coherent(f, slots)
  {
    map p | p in PathMap(f).Values && Findable(f, p) :: NumberOf(f, slots, Hit(f, p))
  }

  lemma ResolutionAt(f: Forest, slots: seq<Node?>, path: string)
    requires Coherent(f, slots)
    ensures path in Resolution(f, slots) <==> Findable(f, path)
    ensures Findable(f, path) ==> Resolution(f, slots)[path] == NumberOf(f, slots, Hit(f, path))
  {
  }

  /** A handle that is found stands for the path. */
  lemma ResolutionIsConsistent(f: Forest, slots: seq<Node?>, path: string)
    requires Labelled(f) && Separated(f) && Coherent(f, slots) && path in Resolution(f, slots)
    ensures var id := Resolution(f, slots)[path]; id < |slots| && ViewOf(f, slots)[id] == Some(path)
  {
    KnownIsPlain(f, path);
    HitHasThePath(f, path);
    StoredHandle(f, slots, Hit(f, path));
  }

  /** In a sound table every registered path is found. */
  lemma SoundIsResolved(f: Forest, slots: seq<Node?>, path: string)
    requires Sound(f) && Coherent(f, slots)
    ensures path in Resolution(f, slots) <==> Known(f, path)
  {
    if Known(f, path) {
      var n := KnownNode(f, path);
      SoundIsUnshared(f, path);
      UnsharedIsHit(f, n);
    }
  }

  // ---------------------------------------------------------------- paths a rename does not touch

  /** A path under neither end of a rename is given to whom it was given before. */
  lemma FarPath(f: Forest, g: Forest, from: string, to: string, x: string, n: Node)
    requires WellFormed(f) && WellFormed(g) && PathMap(g) == RelabelMap(PathMap(f), from, to)
    requires !Under(from, x) && !Under(to, x) && n in PathMap(f)
    ensures n in PathMap(g) && (PathMap(g)[n] == x <==> PathMap(f)[n] == x)
  {
    RelabelledIsUnder(from, to, PathMap(f)[n]);
  }

  lemma FarIsKnown(f: Forest, g: Forest, from: string, to: string, x: string)
    requires WellFormed(f) && WellFormed(g) && PathMap(g) == RelabelMap(PathMap(f), from, to)
    requires !Under(from, x) && !Under(to, x)
    ensures Known(g, x) <==> Known(f, x)
  {
    if Known(f, x) {
      var n := KnownNode(f, x);
      FarPath(f, g, from, to, x, n);
    }
    if Known(g, x) {
      var n := KnownNode(g, x);
      FarPath(f, g, from, to, x, n);
    }
  }

  /** A path above one that lies under neither end lies under neither end. */
  lemma FarAbove(from: string, to: string, x: string, y: string)
    requires !Under(from, y) && !Under(to, y) && Under(x, y)
    ensures !Under(from, x) && !Under(to, x)
  {
    if Under(from, x) { UnderOfUnder(from, x, y); }
    if Under(to, x) { UnderOfUnder(to, x, y); }
  }

  lemma UnsharedStays(f: Forest, g: Forest, from: string, to: string, y: string)
    requires WellFormed(f) && Unshared(f, y) && WellFormed(g) && PathMap(g) == RelabelMap(PathMap(f), from, to)
    requires !Under(from, y) && !Under(to, y)
    ensures Unshared(g, y)
  {
    forall a, b | a in PathMap(g) && b in PathMap(g) && PathMap(g)[a] == PathMap(g)[b] && Under(PathMap(g)[a], y)
      ensures a == b
    {
      var x := PathMap(g)[a];
      FarAbove(from, to, x, y);
      FarPath(f, g, from, to, x, a);
      FarPath(f, g, from, to, x, b);
    }
  }

  /** Nodes with the same path are under the same root, in forests with the same roots. */
  lemma FarTop(f: Forest, g: Forest, n: Node)
    requires Labelled(f) && Separated(f) && Labelled(g) && Separated(g) && SameRoots(f, g)
    requires n in PathMap(f) && n in PathMap(g) && PathMap(f)[n] == PathMap(g)[n]
    ensures n in f.up && n in g.up && Top(f, n) == Top(g, n)
  {
    RegisteredIsLegal(f, n);
    RegisteredIsLegal(g, n);
    UnderOccurs(Name(f, Top(f, n)), PathMap(f)[n]);
  }

  /** A path that is found, and that no two nodes share, is found under the same handle afterwards. */
  ghost predicate KeepsLookup(f: Forest, slots: seq<Node?>, g: Forest, slots': seq<Node?>, path: string)
    requires Coherent(f, slots) && Coherent(g, slots')
  {
    path in Resolution(f, slots) && Unshared(f, path) ==>
      path in Resolution(g, slots') && Resolution(g, slots')[path] == Resolution(f, slots)[path] && Unshared(g, path)
  }

  /** Whether or not the target was registered, a rename leaves the lookups of other paths alone. */
  lemma RenameKeepsLookup(f: Forest, slots: seq<Node?>, g: Forest, from: string, to: string, path: string)
    requires Labelled(f) && Separated(f) && Coherent(f, slots) && Labelled(g) && Separated(g) && Coherent(g, slots)
    requires HandlesKept(f, g) && PathMap(g) == RelabelMap(PathMap(f), from, to)
    requires !Under(from, path) && !Under(to, path)
    ensures KeepsLookup(f, slots, g, slots, path)
  {
    ResolutionAt(f, slots, path);
    if Findable(f, path) && Unshared(f, path) {
      KnownIsPlain(f, path);
      HitHasThePath(f, path);
      var n := Hit(f, path);
      FarPath(f, g, from, to, path, n);
      UnsharedStays(f, g, from, to, path);
      UnsharedIsHit(g, n);
      assert PathMap(g)[n] == path;
      ResolutionAt(g, slots, path);
      SameNumber(f, slots, g, n);
    }
  }

  /** Between sound tables the handle that stands for a path is the one that is found. */
  lemma SoundKeepsLookup(f: Forest, slots: seq<Node?>, g: Forest, slots': seq<Node?>, path: string)
    requires Sound(f) && Coherent(f, slots) && Sound(g) && Coherent(g, slots')
    requires forall id :: 0 <= id < |slots| && ViewOf(f, slots)[id] == Some(path) ==>
               id < |slots'| && ViewOf(g, slots')[id] == Some(path)
    ensures KeepsLookup(f, slots, g, slots', path)
  {
    hide Coherent, Resolution;
    if path in Resolution(f, slots) {
      ResolutionIsConsistent(f, slots, path);
      ViewShows(g, slots', path);
      SoundIsResolved(g, slots', path);
      ResolutionIsConsistent(g, slots', path);
      ClientsAreDistinct(g, slots');
      SoundIsUnshared(g, path);
    }
  }

  lemma SameNumber(f: Forest, slots: seq<Node?>, g: Forest, n: Node)
    requires Coherent(f, slots) && Coherent(g, slots) && HandlesKept(f, g) && n in PathMap(f) && n in PathMap(g)
    ensures NumberOf(g, slots, n) == NumberOf(f, slots, n)
  {
    assert NodeSlotOk(f, slots, n);
  }
}
