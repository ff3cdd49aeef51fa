/** The copying loop of replace in src/tree.hh. It walks one subtree and appends to another; at any time
    the nodes visited so far, their images, and how many children of each have been copied are known. */
module Copying {
  import opened Nodes
  import opened Rows
  import opened Forests
  import opened Ancestry
  import opened PreOrders
  import opened Replanting

  /** How many children of n have been copied when the walk stands at cf; `done` says that the children
      of cf itself are. */
  ghost function Done(f: Forest, cf: Node, done: bool, n: Node): nat
    requires WellFormed(f) && cf in f.up && n in f.rows
  {
    if n == cf then (if done then |f.rows[n]| else 0)
    else if n in f.up && Below(f, cf, n) then Place(f, KidAbove(f, cf, n)) + 1
    else |f.rows[n]|
  }

  ghost function Above(f: Forest, n: Node): Node
    requires n in f.up && f.up[n] != null
  {
    f.up[n]
  }

  ghost function Images(img: map<Node, Node>, s: seq<Node>): (t: seq<Node>)
    requires forall m :: m in s ==> m in img
    ensures |t| == |s|
  {
    seq(|s|, i requires 0 <= i < |s| => img[s[i]])
  }

  /** The copy goes below the leaf `to`, which lies outside of what is copied. */
  ghost predicate CanCopy(f: Forest, from: Node, to: Node) {
    && WellFormed(f) && from in f.up && to in f.up && to in f.rows && f.rows[to] == []
    && !Sentinel(f, to) && !Below(f, to, from)
  }

  /** The visited node n and its image. */
  ghost predicate ImageOk(f: Forest, from: Node, g: Forest, img: map<Node, Node>, cf: Node, done: bool, n: Node)
    requires WellFormed(f) && cf in f.up && n in img && from in img
  {
    && n in f.up && n in f.rows && Below(f, n, from)
    && Done(f, cf, done, n) <= |f.rows[n]|
    && (forall k :: 0 <= k < |f.rows[n]| ==> (f.rows[n][k] in img <==> k < Done(f, cf, done, n)))
    && (forall m :: m in f.rows[n][..Done(f, cf, done, n)] ==> m in img)
    && img[n] in g.up && img[n] in g.rows && g.rows[img[n]] == Images(img, f.rows[n][..Done(f, cf, done, n)])
    && n in f.item && img[n] in g.item && g.item[img[n]] == f.item[n]
    && (n != from ==> img[n] !in f.up && f.up[n] != null && f.up[n] in img && g.up[img[n]] == img[Above(f, n)])
  }

  ghost predicate Injective(img: map<Node, Node>) {
    forall a, b :: a in img && b in img && img[a] == img[b] ==> a == b
  }

  /** Nothing but the copy has changed. */
  ghost predicate Extends(f: Forest, to: Node, g: Forest, img: map<Node, Node>) {
    && g.head == f.head && g.feet == f.feet
    && (forall r :: r in f.rows && r != to ==> r in g.rows && g.rows[r] == f.rows[r])
    && (forall m :: m in f.up ==> m in g.up && g.up[m] == f.up[m])
    && (forall m :: m in f.up && m in f.item ==> m in g.item && g.item[m] == f.item[m])
    && (forall m :: m in g.up ==> m in f.up || exists n: Node :: n in img && img[n] == m)
  }

  ghost predicate Copied(f: Forest, from: Node, to: Node, g: Forest, img: map<Node, Node>, cf: Node, done: bool) {
    && CanCopy(f, from, to) && WellFormed(g)
    && from in img && img[from] == to && cf in img && cf in f.up
    && (forall n {:trigger ImageOk(f, from, g, img, cf, done, n)} :: n in img ==> ImageOk(f, from, g, img, cf, done, n))
    && Injective(img)
    && Extends(f, to, g, img)
  }

  lemma CopyStarts(f: Forest, from: Node, to: Node)
    requires CanCopy(f, from, to) && from in f.item && to in f.item && f.item[to] == f.item[from]
    ensures Copied(f, from, to, f, map[from := to], from, false)
  {
    var img := map[from := to];
    assert NodeOk(f, from) && NodeOk(f, to) && RowOk(f, from) && Below(f, from, from);
    assert ImageOk(f, from, f, img, from, false, from) by {
      forall k | 0 <= k < |f.rows[from]|
        ensures f.rows[from][k] !in img
      {
        assert f.rows[from][k] in f.rows[from];
        KidIsBelow(f, f.rows[from][k], from);
      }
    }
  }

  // ---------------------------------------------------------------- how the counts move

  lemma KidAboveStep(f: Forest, n: Node, m: Node)
    requires WellFormed(f) && n in f.up && f.up[n] != null && m in f.up && f.up[n] in f.up
    requires Below(f, f.up[n], m) && f.up[n] != m
    ensures n != m && Below(f, n, m) && KidAbove(f, n, m) == KidAbove(f, f.up[n], m)
  {
    assert NodeOk(f, n) && NodeOk(f, f.up[n]);
    KidIsBelow(f, n, f.up[n]);
    RankAbove(f, f.up[n], m);
  }

  lemma KidOfParent(f: Forest, n: Node)
    requires WellFormed(f) && n in f.up && f.up[n] != null
    ensures f.up[n] in f.up && f.up[n] in f.rows && n != f.up[n] && Below(f, n, f.up[n]) && KidAbove(f, n, f.up[n]) == n
  {
    assert NodeOk(f, n) && NodeOk(f, f.up[n]);
    KidIsBelow(f, n, f.up[n]);
  }

  /** Stepping from a node to its first child, or from a finished node to its next sibling, changes the
      count of the parent alone. */
  lemma DoneAfterKid(f: Forest, p: Node, c: Node, m: Node)
    requires WellFormed(f) && c in f.up && f.up[c] == p && p in f.up && m in f.up && m in f.rows && m != c
    ensures Done(f, c, false, m) == if m == p then Place(f, c) + 1 else Done(f, p, false, m)
  {
    KidOfParent(f, c);
    assert NodeOk(f, c);
    if m != p && Below(f, p, m) {
      KidAboveStep(f, c, m);
    }
  }

  lemma DoneAfterClimb(f: Forest, n: Node, m: Node)
    requires WellFormed(f) && n in f.up && f.up[n] != null && m in f.up && m in f.rows
    requires f.up[n] in f.up
    ensures Done(f, n, true, m) == if m == f.up[n] then Place(f, n) + 1 else Done(f, f.up[n], true, m)
  {
    var p := f.up[n];
    KidOfParent(f, n);
    assert NodeOk(f, n);
    if m != n && m != p && Below(f, p, m) {
      KidAboveStep(f, n, m);
    }
    if m == n && Below(f, p, n) { RankAbove(f, p, n); RankAbove(f, n, p); }
  }

  // ---------------------------------------------------------------- the steps of the walk

  /** With equal counts the image is as good from the other position. */
  lemma SameCounts(f: Forest, from: Node, to: Node, g: Forest, img: map<Node, Node>, cf: Node, done: bool, cf': Node, done': bool)
    requires Copied(f, from, to, g, img, cf, done) && cf' in img && cf' in f.up
    requires forall n :: n in img && n in f.rows ==> Done(f, cf', done', n) == Done(f, cf, done, n)
    ensures Copied(f, from, to, g, img, cf', done')
  {
    forall n | n in img
      ensures ImageOk(f, from, g, img, cf', done', n)
    {
      assert ImageOk(f, from, g, img, cf, done, n);
    }
  }

  /** A node without children is finished as soon as it is visited. */
  lemma LeafIsDone(f: Forest, from: Node, to: Node, g: Forest, img: map<Node, Node>, cf: Node)
    requires Copied(f, from, to, g, img, cf, false) && cf in f.rows && f.rows[cf] == []
    ensures Copied(f, from, to, g, img, cf, true)
  {
    SameCounts(f, from, to, g, img, cf, false, cf, true);
  }

  /** Behind its last child a node is finished. */
  lemma ParentIsDone(f: Forest, from: Node, to: Node, g: Forest, img: map<Node, Node>, cf: Node)
    requires Copied(f, from, to, g, img, cf, true) && cf != from && Next(f, cf) == null
    ensures f.up[cf] != null && f.up[cf] in img && Copied(f, from, to, g, img, f.up[cf], true)
    ensures img[cf] in g.up && g.up[img[cf]] == img[Above(f, cf)]
    ensures Rank(f, f.up[cf]) < Rank(f, cf)
  {
    assert ImageOk(f, from, g, img, cf, true, cf);
    var p := f.up[cf];
    assert NodeOk(f, cf) && RowOk(f, p) && NodeOk(f, p);
    NeighboursAt(f.rows[p], Place(f, cf));
    forall n | n in img && n in f.rows
      ensures Done(f, p, true, n) == Done(f, cf, true, n)
    {
      assert ImageOk(f, from, g, img, cf, true, n);
      DoneAfterClimb(f, cf, n);
    }
    SameCounts(f, from, to, g, img, cf, true, p, true);
  }

  /** The walk moves on to c: the counts of all visited nodes but its parent stay. */
  ghost predicate MovesTo(f: Forest, img: map<Node, Node>, cf: Node, done: bool, c: Node)
    requires WellFormed(f) && cf in f.up && c in f.up
  {
    && f.up[c] != null && f.up[c] in img && f.up[c] in f.rows && c in f.rows && c in f.item
    && Done(f, cf, done, f.up[c]) == Place(f, c)
    && forall m :: m in img && m in f.rows && m != c ==>
         Done(f, c, false, m) == if m == f.up[c] then Place(f, c) + 1 else Done(f, cf, done, m)
  }

  lemma FirstKidMoves(f: Forest, from: Node, to: Node, g: Forest, img: map<Node, Node>, cf: Node, c: Node)
    requires Copied(f, from, to, g, img, cf, false) && cf in f.rows && f.rows[cf] != [] && c == f.rows[cf][0]
    ensures c in f.up && f.up[c] == cf && MovesTo(f, img, cf, false, c)
  {
    assert ImageOk(f, from, g, img, cf, false, cf);
    assert RowOk(f, cf) && c in f.rows[cf];
    assert NodeOk(f, c);
    IndexAt(f.rows[cf], 0);
    forall m | m in img && m in f.rows && m != c
      ensures Done(f, c, false, m) == if m == cf then Place(f, c) + 1 else Done(f, cf, false, m)
    {
      assert ImageOk(f, from, g, img, cf, false, m);
      DoneAfterKid(f, cf, c, m);
    }
  }

  lemma NextSiblingMoves(f: Forest, from: Node, to: Node, g: Forest, img: map<Node, Node>, cf: Node, c: Node)
    requires Copied(f, from, to, g, img, cf, true) && cf != from && Next(f, cf) == c
    ensures c in f.up && f.up[c] == f.up[cf] && MovesTo(f, img, cf, true, c)
  {
    assert ImageOk(f, from, g, img, cf, true, cf);
    var p := f.up[cf];
    assert NodeOk(f, cf) && NodeOk(f, p) && RowOk(f, p);
    NeighboursAt(f.rows[p], Place(f, cf));
    assert c in f.rows[p] && NodeOk(f, c);
    IndexAt(f.rows[p], Place(f, cf) + 1);
    DoneAfterClimb(f, cf, p);
    forall m | m in img && m in f.rows && m != c
      ensures Done(f, c, false, m) == if m == p then Place(f, c) + 1 else Done(f, cf, true, m)
    {
      assert ImageOk(f, from, g, img, cf, true, m);
      DoneAfterKid(f, p, c, m);
      DoneAfterClimb(f, cf, m);
    }
  }

  /** What a visit needs: c comes next, and n is fresh. */
  ghost predicate CanVisit(f: Forest, from: Node, to: Node, g: Forest, img: map<Node, Node>, cf: Node, done: bool, c: Node, n: Node) {
    && Copied(f, from, to, g, img, cf, done) && c in f.up && MovesTo(f, img, cf, done, c)
    && n !in g.up && n !in g.rows
  }

  /** c was not visited before, nor were its children. */
  lemma NotYetVisited(f: Forest, from: Node, to: Node, g: Forest, img: map<Node, Node>, cf: Node, done: bool, c: Node, n: Node)
    requires CanVisit(f, from, to, g, img, cf, done, c, n)
    ensures c !in img && c != from
    ensures forall y :: y in img ==> y in f.up && f.up[y] != c
    ensures Below(f, c, from) && n !in f.up
  {
    var p := f.up[c];
    assert ImageOk(f, from, g, img, cf, done, p);
    assert NodeOk(f, c) && NodeOk(f, p);
    assert f.rows[p][Place(f, c)] == c;
    KidIsBelow(f, c, p);
    BelowTransitive(f, c, p, from);
    forall y | y in img
      ensures y in f.up && f.up[y] != c
    {
      assert ImageOk(f, from, g, img, cf, done, y);
      if y == from && f.up[from] == c {
        KidIsBelow(f, from, c);
        RankAbove(f, c, from);
      }
    }
  }

  lemma AttachAllowed(f: Forest, from: Node, to: Node, g: Forest, img: map<Node, Node>, cf: Node, done: bool, c: Node, n: Node)
    requires CanVisit(f, from, to, g, img, cf, done, c, n)
    ensures f.up[c] != null && f.up[c] in img && img[Above(f, c)] in g.rows && CanAttach(g, img[Above(f, c)], |g.rows[img[Above(f, c)]]|, n)
  {
    var p := Above(f, c);
    assert ImageOk(f, from, g, img, cf, done, p);
    if p != from {
      assert NodeOk(f, f.head) && NodeOk(f, f.feet);
    }
  }

  ghost function Grown(f: Forest, g: Forest, img: map<Node, Node>, c: Node, n: Node): Forest
    requires c in f.up && f.up[c] != null && f.up[c] in img && img[Above(f, c)] in g.rows && c in f.item
    requires CanAttach(g, img[Above(f, c)], |g.rows[img[Above(f, c)]]|, n)
  {
    Attach(g, img[Above(f, c)], |g.rows[img[Above(f, c)]]|, n, f.item[c])
  }

  lemma ImagesKept(img: map<Node, Node>, c: Node, n: Node, s: seq<Node>)
    requires forall m :: m in s ==> m in img && m != c
    ensures Images(img[c := n], s) == Images(img, s)
  {
  }

  lemma ImagesGrow(img: map<Node, Node>, c: Node, n: Node, s: seq<Node>)
    requires forall m :: m in s ==> m in img && m != c
    ensures Images(img[c := n], s + [c]) == Images(img, s) + [n]
  {
  }

  /** The children of another visited node m are visited as before. */
  lemma VisitOtherKids(f: Forest, from: Node, to: Node, g: Forest, img: map<Node, Node>, cf: Node, done: bool, c: Node, n: Node, m: Node)
    requires CanVisit(f, from, to, g, img, cf, done, c, n) && c !in img && m in img && m != f.up[c]
    ensures m in f.up && m in f.rows && ImageOk(f, from, g, img, cf, done, m)
    ensures Done(f, c, false, m) == Done(f, cf, done, m) <= |f.rows[m]|
    ensures forall k :: 0 <= k < |f.rows[m]| ==> f.rows[m][k] != c && (f.rows[m][k] in img[c := n] <==> k < Done(f, cf, done, m))
  {
    assert ImageOk(f, from, g, img, cf, done, m);
    assert RowOk(f, m) && m in f.rows;
    forall k | 0 <= k < |f.rows[m]|
      ensures f.rows[m][k] != c && (f.rows[m][k] in img[c := n] <==> k < Done(f, cf, done, m))
    {
      assert f.rows[m][k] in f.rows[m];
    }
  }

  /** Attaching the new image leaves the images of the other visited nodes alone. */
  lemma OtherImage(f: Forest, from: Node, to: Node, g: Forest, img: map<Node, Node>, cf: Node, done: bool, c: Node, n: Node, m: Node)
    requires CanVisit(f, from, to, g, img, cf, done, c, n) && m in img && m != f.up[c]
    requires img[Above(f, c)] in g.rows && CanAttach(g, img[Above(f, c)], |g.rows[img[Above(f, c)]]|, n)
    ensures var i, g' := img[m], Grown(f, g, img, c, n);
            && i != n && i in g.up && i in g'.up && g'.up[i] == g.up[i]
            && i in g.rows && i in g'.rows && g'.rows[i] == g.rows[i]
            && i in g.item && i in g'.item && g'.item[i] == g.item[i]
  {
    assert ImageOk(f, from, g, img, cf, done, m) && ImageOk(f, from, g, img, cf, done, Above(f, c));
    assert img[m] != img[Above(f, c)] && img[m] != n;
  }

  lemma VisitOther(f: Forest, from: Node, to: Node, g: Forest, img: map<Node, Node>, cf: Node, done: bool, c: Node, n: Node, m: Node)
    requires CanVisit(f, from, to, g, img, cf, done, c, n) && c !in img && m in img && m != f.up[c]
    requires img[Above(f, c)] in g.rows && CanAttach(g, img[Above(f, c)], |g.rows[img[Above(f, c)]]|, n)
    ensures ImageOk(f, from, Grown(f, g, img, c, n), img[c := n], c, false, m)
  {
    hide WellFormed, Injective, Extends, Below;
    VisitOtherKids(f, from, to, g, img, cf, done, c, n, m);
    OtherImage(f, from, to, g, img, cf, done, c, n, m);
    ImagesKept(img, c, n, f.rows[m][..Done(f, cf, done, m)]);
  }

  /** One more child of the parent is visited: the next one. */
  lemma VisitParentKids(f: Forest, from: Node, to: Node, g: Forest, img: map<Node, Node>, cf: Node, done: bool, c: Node, n: Node)
    requires CanVisit(f, from, to, g, img, cf, done, c, n) && c !in img
    ensures var p, k := Above(f, c), Place(f, c);
            && p in img && ImageOk(f, from, g, img, cf, done, p) && Done(f, cf, done, p) == k < |f.rows[p]| && f.rows[p][k] == c
            && (forall j :: 0 <= j < |f.rows[p]| ==> (f.rows[p][j] in img[c := n] <==> j < k + 1))
  {
    var p, k := Above(f, c), Place(f, c);
    assert ImageOk(f, from, g, img, cf, done, p);
    assert RowOk(f, p) && f.rows[p][k] == c;
    forall j | 0 <= j < |f.rows[p]|
      ensures f.rows[p][j] in img[c := n] <==> j < k + 1
    {
      IndexAt(f.rows[p], j);
      IndexAt(f.rows[p], k);
    }
  }

  lemma VisitParent(f: Forest, from: Node, to: Node, g: Forest, img: map<Node, Node>, cf: Node, done: bool, c: Node, n: Node)
    requires CanVisit(f, from, to, g, img, cf, done, c, n) && c !in img
    requires img[Above(f, c)] in g.rows && CanAttach(g, img[Above(f, c)], |g.rows[img[Above(f, c)]]|, n)
    ensures ImageOk(f, from, Grown(f, g, img, c, n), img[c := n], c, false, Above(f, c))
  {
    hide WellFormed, Injective, Extends, Below;
    var p, k := Above(f, c), Place(f, c);
    VisitParentKids(f, from, to, g, img, cf, done, c, n);
    assert f.rows[p][..k + 1] == f.rows[p][..k] + [c];
    ImagesGrow(img, c, n, f.rows[p][..k]);
  }

  lemma VisitNew(f: Forest, from: Node, to: Node, g: Forest, img: map<Node, Node>, cf: Node, done: bool, c: Node, n: Node)
    requires CanVisit(f, from, to, g, img, cf, done, c, n) && c !in img && c != from && n !in f.up
    requires forall y :: y in img ==> y in f.up && f.up[y] != c
    requires Below(f, c, from)
    requires img[Above(f, c)] in g.rows && CanAttach(g, img[Above(f, c)], |g.rows[img[Above(f, c)]]|, n)
    ensures ImageOk(f, from, Grown(f, g, img, c, n), img[c := n], c, false, c)
  {
    assert NodeOk(f, c) && RowOk(f, c);
    forall k | 0 <= k < |f.rows[c]|
      ensures f.rows[c][k] !in img[c := n]
    {
      assert f.rows[c][k] in f.rows[c];
      KidIsBelow(f, f.rows[c][k], c);
    }
  }

  lemma VisitExtends(f: Forest, from: Node, to: Node, g: Forest, img: map<Node, Node>, cf: Node, done: bool, c: Node, n: Node)
    requires CanVisit(f, from, to, g, img, cf, done, c, n) && c !in img && n !in f.up
    requires img[Above(f, c)] in g.rows && CanAttach(g, img[Above(f, c)], |g.rows[img[Above(f, c)]]|, n)
    ensures Extends(f, to, Grown(f, g, img, c, n), img[c := n])
  {
    hide Injective, Below;
    var p, g', img' := Above(f, c), Grown(f, g, img, c, n), img[c := n];
    assert ImageOk(f, from, g, img, cf, done, p);
    forall r | r in f.rows && r != to
      ensures r in g'.rows && g'.rows[r] == f.rows[r]
    {
      assert RowOk(f, r);
      assert r != n && r != img[p];
    }
    forall m | m in g'.up
      ensures m in f.up || exists y: Node :: y in img' && img'[y] == m
    {
      if m == n {
        assert img'[c] == n;
      } else if m !in f.up {
        var y: Node :| y in img && img[y] == m;
        assert img'[y] == m;
      }
    }
  }

  lemma VisitImage(f: Forest, from: Node, to: Node, g: Forest, img: map<Node, Node>, cf: Node, done: bool, c: Node, n: Node, m: Node)
    requires CanVisit(f, from, to, g, img, cf, done, c, n) && m in img[c := n]
    requires img[Above(f, c)] in g.rows && CanAttach(g, img[Above(f, c)], |g.rows[img[Above(f, c)]]|, n)
    ensures ImageOk(f, from, Grown(f, g, img, c, n), img[c := n], c, false, m)
  {
    NotYetVisited(f, from, to, g, img, cf, done, c, n);
    if m == c {
      VisitNew(f, from, to, g, img, cf, done, c, n);
    } else if m == f.up[c] {
      VisitParent(f, from, to, g, img, cf, done, c, n);
    } else {
      VisitOther(f, from, to, g, img, cf, done, c, n, m);
    }
  }

  /** Appending a fresh leaf with the data of the next node keeps everything known about the copy. */
  lemma Visited(f: Forest, from: Node, to: Node, g: Forest, img: map<Node, Node>, cf: Node, done: bool, c: Node, n: Node)
    requires CanVisit(f, from, to, g, img, cf, done, c, n)
    ensures f.up[c] != null && f.up[c] in img && img[Above(f, c)] in g.rows && CanAttach(g, img[Above(f, c)], |g.rows[img[Above(f, c)]]|, n)
    ensures Copied(f, from, to, Grown(f, g, img, c, n), img[c := n], c, false)
    ensures c !in img && c in Subtree(f, from)
  {
    AttachAllowed(f, from, to, g, img, cf, done, c, n);
    NotYetVisited(f, from, to, g, img, cf, done, c, n);
    GrownIsWellFormed(f, from, to, g, img, cf, done, c, n);
    VisitImages(f, from, to, g, img, cf, done, c, n);
    VisitExtends(f, from, to, g, img, cf, done, c, n);
    StillInjective(f, from, to, g, img, cf, done, c, n);
  }

  lemma GrownIsWellFormed(f: Forest, from: Node, to: Node, g: Forest, img: map<Node, Node>, cf: Node, done: bool, c: Node, n: Node)
    requires CanVisit(f, from, to, g, img, cf, done, c, n)
    requires f.up[c] != null && f.up[c] in img
    requires img[Above(f, c)] in g.rows && CanAttach(g, img[Above(f, c)], |g.rows[img[Above(f, c)]]|, n)
    ensures WellFormed(Grown(f, g, img, c, n))
  {
    AttachWellFormed(g, img[Above(f, c)], |g.rows[img[Above(f, c)]]|, n, f.item[c]);
  }

  lemma VisitImages(f: Forest, from: Node, to: Node, g: Forest, img: map<Node, Node>, cf: Node, done: bool, c: Node, n: Node)
    requires CanVisit(f, from, to, g, img, cf, done, c, n)
    requires f.up[c] != null && f.up[c] in img
    requires img[Above(f, c)] in g.rows && CanAttach(g, img[Above(f, c)], |g.rows[img[Above(f, c)]]|, n)
    ensures var g', img' := Grown(f, g, img, c, n), img[c := n];
            forall m {:trigger ImageOk(f, from, g', img', c, false, m)} :: m in img' ==> ImageOk(f, from, g', img', c, false, m)
  {
    var g', img' := Grown(f, g, img, c, n), img[c := n];
    forall m | m in img'
      ensures ImageOk(f, from, g', img', c, false, m)
    {
      VisitImage(f, from, to, g, img, cf, done, c, n, m);
    }
  }

  lemma StillInjective(f: Forest, from: Node, to: Node, g: Forest, img: map<Node, Node>, cf: Node, done: bool, c: Node, n: Node)
    requires Copied(f, from, to, g, img, cf, done) && n !in g.up && c !in img
    ensures Injective(img[c := n])
  {
    var img' := img[c := n];
    forall a, b | a in img' && b in img' && img'[a] == img'[b]
      ensures a == b
    {
      assert a != c ==> ImageOk(f, from, g, img, cf, done, a);
      assert b != c ==> ImageOk(f, from, g, img, cf, done, b);
    }
  }

  /** The links of a visited node are still those it had before the copying. */
  lemma SameLinks(f: Forest, from: Node, to: Node, g: Forest, img: map<Node, Node>, cf: Node, done: bool)
    requires Copied(f, from, to, g, img, cf, done)
    ensures cf in g.up && cf in f.rows && g.up[cf] == f.up[cf] && cf in f.item && cf in g.item && g.item[cf] == f.item[cf]
    ensures FirstKid(g, cf) == FirstKid(f, cf) && Next(g, cf) == Next(f, cf)
    ensures img[cf] in g.up && (cf != from ==> f.up[cf] != null && f.up[cf] in img && g.up[img[cf]] == img[Above(f, cf)])
  {
    assert ImageOk(f, from, g, img, cf, done, cf);
    assert NodeOk(f, cf) && NodeOk(g, cf) && Below(f, to, to);
    assert f.up[cf] != to;
  }

  lemma SameItem(f: Forest, to: Node, g: Forest, img: map<Node, Node>, c: Node)
    requires WellFormed(f) && WellFormed(g) && Extends(f, to, g, img) && c in f.up
    ensures c in g.up && c in f.item && c in g.item && g.item[c] == f.item[c]
  {
    assert NodeOk(f, c);
  }

  lemma DeeperRow(f: Forest, from: Node, cf: Node)
    requires WellFormed(f) && from in f.up && cf in f.up && Below(f, cf, from) && cf != from
    ensures f.up[cf] != f.up[from]
  {
    assert NodeOk(f, cf) && NodeOk(f, from);
    assert f.up[cf] in f.up && Below(f, f.up[cf], from);
    RankAbove(f, f.up[cf], from);
  }

  lemma NotBehind(f: Forest, from: Node, c: Node)
    requires WellFormed(f) && from in f.up && c in f.up && Below(f, c, from) && c != from
    ensures c != Next(f, from)
  {
    DeeperRow(f, from, c);
    assert NodeOk(f, from) && RowOk(f, f.up[from]);
    NeighboursAt(f.rows[f.up[from]], Place(f, from));
  }

  lemma OneLessToVisit(f: Forest, from: Node, img: map<Node, Node>, c: Node, n: Node)
    requires WellFormed(f) && from in f.up && from in img && c !in img && c in Subtree(f, from)
    ensures Subtree(f, from) - img[c := n].Keys < Subtree(f, from) - img.Keys
    ensures c != Next(f, from)
  {
    NotBehind(f, from, c);
    assert c in Subtree(f, from) - img.Keys && c !in Subtree(f, from) - img[c := n].Keys;
  }

  /** An image can have children. */
  lemma ImageIsProper(f: Forest, from: Node, to: Node, g: Forest, img: map<Node, Node>, cf: Node, done: bool, n: Node)
    requires Copied(f, from, to, g, img, cf, done) && n in img
    ensures img[n] in g.rows && img[n] in g.up && !Sentinel(g, img[n])
  {
    assert ImageOk(f, from, g, img, cf, done, n);
    assert f.head in f.up && f.feet in f.up;
  }

  // ---------------------------------------------------------------- the finished copy

  /** The node n of the subtree and its image in the finished copy. */
  ghost predicate CopyOk(f: Forest, from: Node, g: Forest, img: map<Node, Node>, n: Node)
    requires n in img
  {
    && n in f.rows && n in f.item && (forall m :: m in f.rows[n] ==> m in img)
    && img[n] in g.rows && g.rows[img[n]] == Images(img, f.rows[n])
    && img[n] in g.item && g.item[img[n]] == f.item[n]
    && (n != from ==> img[n] !in f.up)
  }

  /** Below `to` stands a copy of the subtree of `from`: the same shape, order and data, on other nodes;
      everything else is as it was. */
  ghost predicate IsCopy(f: Forest, from: Node, to: Node, g: Forest, img: map<Node, Node>) {
    && WellFormed(f) && WellFormed(g)
    && from in img && img[from] == to && Injective(img)
    && (forall n :: n in img ==> n in Subtree(f, from))
    && (forall n :: n in Subtree(f, from) ==> n in img)
    && (forall n {:trigger CopyOk(f, from, g, img, n)} :: n in img ==> CopyOk(f, from, g, img, n))
    && Extends(f, to, g, img)
  }

  lemma {:induction false} AllVisited(f: Forest, from: Node, to: Node, g: Forest, img: map<Node, Node>, n: Node)
    requires Copied(f, from, to, g, img, from, true) && n in f.up && Below(f, n, from)
    ensures n in img
    decreases Rank(f, n)
  {
    assert NodeOk(f, n);
    if n != from {
      RankAbove(f, n, from);
      var p := Above(f, n);
      assert NodeOk(f, p);
      AllVisited(f, from, to, g, img, p);
      assert ImageOk(f, from, g, img, from, true, p);
      FinishedAtFrom(f, from, p);
      assert f.rows[p][Place(f, n)] == n;
    }
  }

  lemma FinishedAtFrom(f: Forest, from: Node, n: Node)
    requires WellFormed(f) && from in f.up && n in f.up && n in f.rows && Below(f, n, from)
    ensures Done(f, from, true, n) == |f.rows[n]|
  {
    if n != from && Below(f, from, n) {
      RankAbove(f, n, from);
      RankAbove(f, from, n);
    }
  }

  /** When the walk is back at its start, the copy is complete. */
  lemma CopyIsComplete(f: Forest, from: Node, to: Node, g: Forest, img: map<Node, Node>)
    requires Copied(f, from, to, g, img, from, true)
    ensures IsCopy(f, from, to, g, img)
  {
    forall n | n in Subtree(f, from)
      ensures n in img
    {
      AllVisited(f, from, to, g, img, n);
    }
    forall n | n in img
      ensures n in Subtree(f, from) && CopyOk(f, from, g, img, n)
    {
      assert ImageOk(f, from, g, img, from, true, n);
      FinishedAtFrom(f, from, n);
      assert f.rows[n][..|f.rows[n]|] == f.rows[n];
    }
  }

  /** The images other than the new top of the copy were no nodes before. */
  lemma ImagesAreNew(f: Forest, from: Node, to: Node, g: Forest, img: map<Node, Node>)
    requires IsCopy(f, from, to, g, img)
    ensures forall n :: n in img && n != from ==> img[n] in g.up && img[n] !in f.up
  {
    forall n | n in img && n != from
      ensures img[n] in g.up && img[n] !in f.up
    {
      assert CopyOk(f, from, g, img, n);
      assert RowOk(g, img[n]);
    }
  }

  lemma ImagesOf(img: map<Node, Node>, c: Node, a: seq<Node>, b: seq<Node>)
    requires c in img && (forall m :: m in a ==> m in img) && (forall m :: m in b ==> m in img)
    ensures forall m :: m in [c] + a + b ==> m in img
    ensures Images(img, [c] + a + b) == [img[c]] + Images(img, a) + Images(img, b)
  {
  }

  /** In pre-order the copy is the original, node by node. */
  lemma {:induction false} CopyInPreOrder(f: Forest, from: Node, to: Node, g: Forest, img: map<Node, Node>, n: Node, k: nat)
    requires IsCopy(f, from, to, g, img) && n in img && n in f.rows && k <= |f.rows[n]|
    ensures img[n] in g.rows && |g.rows[img[n]]| == |f.rows[n]|
    ensures forall m :: m in PreRow(f, n, k) ==> m in img
    ensures PreRow(g, img[n], k) == Images(img, PreRow(f, n, k))
    decreases Height(f, n), |f.rows[n]| - k
  {
    assert CopyOk(f, from, g, img, n);
    if k < |f.rows[n]| {
      KidIsLower(f, n, k);
      var c := f.rows[n][k];
      assert c in f.rows[n] && CopyOk(f, from, g, img, c);
      KidIsLower(g, img[n], k);
      CopyInPreOrder(f, from, to, g, img, c, 0);
      CopyInPreOrder(f, from, to, g, img, n, k + 1);
      ImagesOf(img, c, PreRow(f, c, 0), PreRow(f, n, k + 1));
    }
  }

  // ---------------------------------------------------------------- before the copying starts

  /** Replacing a node that shares nothing with the subtree of `from` leaves that subtree alone, and the
      new leaf outside of it. */
  lemma {:induction false} SubtreeUntouched(f: Forest, p: Node, n: Node, x: Item, from: Node, m: Node)
    requires CanReplant(f, p, n) && WellFormed(Replanted(f, p, n, x))
    requires from in f.up && !Below(f, from, p) && !Below(f, p, from)
    requires m in f.up && !Below(f, m, p)
    ensures m in Replanted(f, p, n, x).up
    ensures Below(Replanted(f, p, n, x), m, from) <==> Below(f, m, from)
    decreases Rank(f, m)
  {
    var g := Replanted(f, p, n, x);
    assert NodeOk(f, m) && NodeOk(g, m);
    if f.up[m] != null {
      assert NodeOk(f, f.up[m]);
      SubtreeUntouched(f, p, n, x, from, f.up[m]);
    }
  }

  /** What lies below a node apart from p is as it was. */
  lemma ApartUntouched(f: Forest, p: Node, n: Node, x: Item, from: Node, m: Node)
    requires CanReplant(f, p, n) && from in f.up && !Below(f, from, p) && !Below(f, p, from)
    requires m in f.up && Below(f, m, from)
    ensures var g := Replanted(f, p, n, x);
            && !Below(f, m, p)
            && m in f.rows && m in g.rows && g.rows[m] == f.rows[m]
            && m in f.item && m in g.item && g.item[m] == f.item[m]
  {
    if Below(f, m, p) { Comparable(f, m, from, p); }
    assert NodeOk(f, p) && NodeOk(f, m);
    ParentNotInside(f, p, from, m);
  }

  /** The subtree apart from p has the nodes it had. */
  lemma ApartSubtree(f: Forest, p: Node, n: Node, x: Item, from: Node)
    requires CanReplant(f, p, n) && from in f.up && !Below(f, from, p) && !Below(f, p, from)
    requires WellFormed(Replanted(f, p, n, x))
    ensures var g := Replanted(f, p, n, x);
            && from in g.up
            && (forall m :: m in Subtree(g, from) <==> m in Subtree(f, from))
  {
    var g := Replanted(f, p, n, x);
    forall m | m in f.up && !Below(f, m, p)
      ensures m in g.up && (Below(g, m, from) <==> Below(f, m, from))
    {
      SubtreeUntouched(f, p, n, x, from, m);
    }
    forall m | m in f.up && Below(f, m, from)
      ensures !Below(f, m, p)
    {
      ApartUntouched(f, p, n, x, from, m);
    }
    if n in g.up && Below(g, n, from) {
      LeafNotInside(f, p, n, x, from);
    }
  }

  lemma ReadyToCopy(f: Forest, p: Node, n: Node, from: Node)
    requires CanReplant(f, p, n) && from in f.up && from in f.item && !Below(f, from, p) && !Below(f, p, from)
    ensures var g := Replanted(f, p, n, f.item[from]);
            && CanCopy(g, from, n) && from in g.item && n in g.item && g.item[n] == g.item[from] == f.item[from]
            && (forall m :: m in Subtree(g, from) <==> m in Subtree(f, from))
            && (forall m :: m in Subtree(f, from) ==>
                  m in f.rows && m in g.rows && g.rows[m] == f.rows[m] && m in g.item && m in f.item && g.item[m] == f.item[m])
  {
    var g := Replanted(f, p, n, f.item[from]);
    ReplantedWellFormed(f, p, n, f.item[from]);
    assert NodeOk(f, p) && NodeOk(g, n);
    ApartSubtree(f, p, n, f.item[from], from);
    forall m | m in f.up && Below(f, m, from)
      ensures m in f.rows && m in g.rows && g.rows[m] == f.rows[m] && m in g.item && m in f.item && g.item[m] == f.item[m]
    {
      ApartUntouched(f, p, n, f.item[from], from, m);
    }
    assert Below(f, from, from);
    if Below(g, n, from) {
      LeafNotInside(f, p, n, f.item[from], from);
    }
  }

  /** The parent of p does not lie below `from`. */
  lemma ParentNotInside(f: Forest, p: Node, from: Node, m: Node)
    requires WellFormed(f) && p in f.up && from in f.up && !Below(f, p, from) && m in f.up && Below(f, m, from)
    ensures f.up[p] != m
  {
    assert NodeOk(f, p);
  }

  lemma LeafNotInside(f: Forest, p: Node, n: Node, x: Item, from: Node)
    requires CanReplant(f, p, n) && WellFormed(Replanted(f, p, n, x))
    requires from in f.up && !Below(f, from, p) && !Below(f, p, from)
    ensures n in Replanted(f, p, n, x).up && !Below(Replanted(f, p, n, x), n, from)
  {
    var g := Replanted(f, p, n, x);
    assert NodeOk(f, p) && NodeOk(g, n);
    if f.up[p] != null {
      assert NodeOk(f, f.up[p]);
      if Below(f, f.up[p], p) { RankAbove(f, f.up[p], p); }
      SubtreeUntouched(f, p, n, x, from, f.up[p]);
    }
  }
}
