/** Removing a node with everything below it. */
module Erasure {
  import opened Nodes
  import opened Rows
  import opened Forests
  import opened Ancestry
  import opened PreOrders

  ghost predicate CanErase(f: Forest, n: Node) {
    WellFormed(f) && n in f.up && !Sentinel(f, n)
  }

  ghost function Erased(f: Forest, n: Node): Forest
    requires CanErase(f, n)
  {
    var dead := Subtree(f, n);
    var r := Unlinked(f, n);
    f.(rows := map p | p in f.rows && p !in dead && p in r :: r[p],
       up := map m | m in f.up && m !in dead :: f.up[m],
       rank := map m | m in f.up && m !in dead :: Rank(f, m),
       item := map m | m in f.item && m !in dead :: f.item[m])
  }

  lemma ErasedNodeOk(f: Forest, n: Node, m: Node)
    requires CanErase(f, n) && m in f.up && !Below(f, m, n)
    ensures NodeOk(Erased(f, n), m)
  {
    assert NodeOk(f, m);
    assert f.up[m] != null ==> !Below(f, f.up[m], n);
    UnlinkedRow(f, n, f.up[m]);
    UnlinkedRow(f, n, m);
    assert Below(f, n, n);
  }

  lemma ErasedRowOk(f: Forest, n: Node, q: Node?)
    requires CanErase(f, n) && q in f.rows
    requires q != null ==> q in f.up && !Below(f, q, n)
    ensures RowOk(Erased(f, n), q)
  {
    var g := Erased(f, n);
    assert RowOk(f, q);
    UnlinkedRow(f, n, q);
    forall c | c in g.rows[q]
      ensures c in g.up && g.up[c] == q
    {
      assert NodeOk(f, c);
    }
  }

  lemma SentinelsStayOut(f: Forest, n: Node)
    requires CanErase(f, n)
    ensures !Below(f, f.head, n) && !Below(f, f.feet, n)
  {
    assert NodeOk(f, f.head) && NodeOk(f, f.feet) && RowOk(f, null);
    assert f.head in f.rows[null] && f.feet in f.rows[null];
  }

  lemma ErasedWellFormed(f: Forest, n: Node)
    requires CanErase(f, n)
    ensures WellFormed(Erased(f, n))
  {
    var g := Erased(f, n);
    SentinelsStayOut(f, n);
    ErasedRowOk(f, n, null);
    assert NodeOk(f, f.head) && NodeOk(f, f.feet);
    assert g.head in g.up && g.feet in g.up;
    ErasedNodeOk(f, n, f.head);
    ErasedNodeOk(f, n, f.feet);
    UnlinkEnds(f, n, null);
    UnlinkEnds(f, n, f.head);
    UnlinkEnds(f, n, f.feet);
    if f.up[n] == null { TopNeighbours(f, n); }
    UnlinkedRow(f, n, null);
    assert Sentinels(g);
    forall m | m in g.up
      ensures NodeOk(g, m)
    {
      ErasedNodeOk(f, n, m);
    }
    forall q | q in g.rows
      ensures RowOk(g, q)
    {
      assert RowOk(f, q);
      ErasedRowOk(f, n, q);
    }
  }

  /** How erase rewires the cells that stay. */
  ghost function ErasedCells(f: Forest, c: map<Node, Cell>, n: Node): map<Node, Cell>
    requires Describes(f, c) && CanErase(f, n) && LinksIn(c, n)
  {
    var d := UnlinkedCells(c, n);
    map m | m in d && m !in Subtree(f, n) :: d[m]
  }

  lemma ErasedDescribes(f: Forest, c: map<Node, Cell>, n: Node)
    requires Describes(f, c) && CanErase(f, n) && LinksIn(c, n)
    ensures Describes(Erased(f, n), ErasedCells(f, c, n))
  {
    ErasedWellFormed(f, n);
    var g, d := Erased(f, n), ErasedCells(f, c, n);
    assert UnlinkedCells(c, n).Keys == c.Keys;
    assert Below(f, n, n);
    forall m | m in g.up
      ensures d[m] == CellOf(g, m)
    {
      assert NodeOk(f, m);
      UnlinkCell(f, c, n, m);
      assert f.up[m] != null ==> !Below(f, f.up[m], n);
    }
  }

  // ---------------------------------------------------------------- the pre-order without a subtree

  ghost function Without(s: seq<Node>, dead: set<Node>): (r: seq<Node>)
    ensures forall x :: x in r ==> x in s && x !in dead
  {
    if s == [] then [] else if s[0] in dead then Without(s[1..], dead) else [s[0]] + Without(s[1..], dead)
  }

  lemma {:induction false} WithoutConcat(s: seq<Node>, t: seq<Node>, dead: set<Node>)
    ensures Without(s + t, dead) == Without(s, dead) + Without(t, dead)
  {
    if s == [] {
      assert s + t == t;
    } else {
      assert (s + t)[1..] == s[1..] + t;
      WithoutConcat(s[1..], t, dead);
    }
  }

  lemma {:induction false} WithoutAll(s: seq<Node>, dead: set<Node>)
    ensures (forall x :: x in s ==> x in dead) ==> Without(s, dead) == []
    ensures (forall x :: x in s ==> x !in dead) ==> Without(s, dead) == s
  {
    if s != [] {
      WithoutAll(s[1..], dead);
      assert s == [s[0]] + s[1..];
      assert forall x :: x in s[1..] ==> x in s;
    }
  }

  /** A row outside of the erased subtree. */
  ghost predicate Stays(f: Forest, n: Node, p: Node?)
    requires WellFormed(f)
  {
    p in f.rows && (p != null ==> p in f.up && !Below(f, p, n))
  }

  /** Every row that stays has lost n and nothing else. */
  ghost predicate RowsFollow(f: Forest, n: Node, g: Forest)
    requires WellFormed(f)
  {
    WellFormed(g) &&
    forall p {:trigger Stays(f, n, p)} :: p in f.rows && Stays(f, n, p) ==> p in g.rows && g.rows[p] == Without(f.rows[p], {n})
  }

  lemma ErasedRowsFollow(f: Forest, n: Node)
    requires CanErase(f, n)
    ensures RowsFollow(f, n, Erased(f, n))
  {
    ErasedWellFormed(f, n);
    forall p | p in f.rows && Stays(f, n, p)
      ensures p in Erased(f, n).rows && Erased(f, n).rows[p] == Without(f.rows[p], {n})
    {
      UnlinkedRow(f, n, p);
      RowWithout(f, n, p);
    }
  }

  lemma RowWithout(f: Forest, n: Node, p: Node?)
    requires WellFormed(f) && n in f.up && p in f.rows
    ensures p in Unlinked(f, n) && Unlinked(f, n)[p] == Without(f.rows[p], {n})
  {
    assert NodeOk(f, n) && RowOk(f, p);
    var row := f.rows[p];
    if p == f.up[n] {
      var k := Place(f, n);
      assert row == row[..k] + [n] + row[k + 1..];
      IndexAt(row, k);
      CutOut(row[..k], [n], row[k + 1..], {n});
    } else {
      assert forall c :: c in row ==> NodeOk(f, c) && c != n;
      WithoutAll(row, {n});
    }
  }

  lemma KeptFirst(c: Node, s: seq<Node>, t: seq<Node>, dead: set<Node>)
    requires c !in dead
    ensures Without([c] + s + t, dead) == [c] + Without(s, dead) + Without(t, dead)
  {
    WithoutConcat([c] + s, t, dead);
    assert ([c] + s)[1..] == s;
  }

  lemma CutFirst(s: seq<Node>, t: seq<Node>, dead: set<Node>)
    requires Without(s, dead) == []
    ensures Without(s + t, dead) == Without(t, dead)
  {
    WithoutConcat(s, t, dead);
  }

  /** The traversal of a row starts with its first node, which stays. */
  lemma KeptStep(f: Forest, n: Node, p: Node?, k: nat, g: Forest, j: nat)
    requires WellFormed(f) && WellFormed(g) && p in f.rows && p in g.rows && k < |f.rows[p]| && j < |g.rows[p]|
    requires g.rows[p][j] == f.rows[p][k] && f.rows[p][k] !in Subtree(f, n)
    requires var c := f.rows[p][k];
             && c in f.rows && c in g.rows
             && PreRow(g, c, 0) == Without(PreRow(f, c, 0), Subtree(f, n))
             && PreRow(g, p, j + 1) == Without(PreRow(f, p, k + 1), Subtree(f, n))
    ensures PreRow(g, p, j) == Without(PreRow(f, p, k), Subtree(f, n))
  {
    var c := f.rows[p][k];
    KidIsLower(f, p, k);
    KidIsLower(g, p, j);
    KeptFirst(c, PreRow(f, c, 0), PreRow(f, p, k + 1), Subtree(f, n));
  }

  /** The first node of a row, and where it is when n is gone. */
  lemma SuffixStep(s: seq<Node>, k: nat, t: seq<Node>, j: nat, n: Node)
    requires k < |s| && j <= |t| && t[j..] == Without(s[k..], {n})
    ensures s[k] == n ==> t[j..] == Without(s[k + 1..], {n})
    ensures s[k] != n ==> j < |t| && t[j] == s[k] && t[j + 1..] == Without(s[k + 1..], {n})
  {
    assert s[k..][1..] == s[k + 1..];
    if s[k] != n {
      assert t[j..][0] == s[k];
      assert t[j + 1..] == t[j..][1..];
    }
  }

  lemma {:induction false} RemainingPreRow(f: Forest, n: Node, g: Forest, p: Node?, k: nat, j: nat)
    requires WellFormed(f) && n in f.up && RowsFollow(f, n, g) && Stays(f, n, p) && p in g.rows
    requires k <= |f.rows[p]| && j <= |g.rows[p]| && g.rows[p][j..] == Without(f.rows[p][k..], {n})
    ensures PreRow(g, p, j) == Without(PreRow(f, p, k), Subtree(f, n))
    decreases Height(f, p), |f.rows[p]| - k
  {
    if k < |f.rows[p]| {
      var c := f.rows[p][k];
      KidIsLower(f, p, k);
      SuffixStep(f.rows[p], k, g.rows[p], j, n);
      if c == n {
        RemainingPreRow(f, n, g, p, k + 1, j);
        SubtreeOnly(f, n);
        CutFirst([n] + PreRow(f, n, 0), PreRow(f, p, k + 1), Subtree(f, n));
      } else {
        RemainingPreRow(f, n, g, p, k + 1, j + 1);
        KidStays(f, n, p, k);
        WholeRow(f, n, g, c);
        RemainingPreRow(f, n, g, c, 0, 0);
        KeptStep(f, n, p, k, g, j);
      }
    }
  }

  lemma KidStays(f: Forest, n: Node, p: Node?, k: nat)
    requires WellFormed(f) && Stays(f, n, p) && k < |f.rows[p]| && f.rows[p][k] != n
    ensures Stays(f, n, f.rows[p][k]) && f.rows[p][k] !in Subtree(f, n)
  {
    KidIsLower(f, p, k);
    assert NodeOk(f, f.rows[p][k]);
  }

  lemma WholeRow(f: Forest, n: Node, g: Forest, p: Node?)
    requires WellFormed(f) && RowsFollow(f, n, g) && Stays(f, n, p)
    ensures p in g.rows && g.rows[p][0..] == Without(f.rows[p][0..], {n})
  {
    assert f.rows[p][0..] == f.rows[p] && g.rows[p][0..] == g.rows[p];
  }

  lemma SliceIsSubtree(f: Forest, n: Node, x: Node)
    requires WellFormed(f) && n in f.up && n in f.rows
    ensures x in [n] + PreRow(f, n, 0) <==> x in Subtree(f, n)
  {
    assert Below(f, n, n);
    PreRowMember(f, n, 0, x);
    if UnderRow(f, x, n, 0) {
      var j :| 0 <= j < |f.rows[n]| && Below(f, x, f.rows[n][j]);
      KidIsLower(f, n, j);
      KidIsBelow(f, f.rows[n][j], n);
      BelowTransitive(f, x, f.rows[n][j], n);
    }
    if x in Subtree(f, n) && x != n {
      var c := KidAbove(f, x, n);
      assert NodeOk(f, c);
    }
  }

  lemma SubtreeOnly(f: Forest, n: Node)
    requires WellFormed(f) && n in f.up && n in f.rows
    ensures Without([n] + PreRow(f, n, 0), Subtree(f, n)) == []
  {
    forall x | x in [n] + PreRow(f, n, 0)
      ensures x in Subtree(f, n)
    {
      SliceIsSubtree(f, n, x);
    }
    WithoutAll([n] + PreRow(f, n, 0), Subtree(f, n));
  }

  lemma CutOut(a: seq<Node>, m: seq<Node>, b: seq<Node>, dead: set<Node>)
    requires Without(m, dead) == [] && forall x :: x in a || x in b ==> x !in dead
    ensures Without(a + m + b, dead) == a + b
  {
    WithoutConcat(a + m, b, dead);
    WithoutConcat(a, m, dead);
    WithoutAll(a, dead);
    WithoutAll(b, dead);
  }

  lemma RemainingPreOrder(f: Forest, n: Node, g: Forest)
    requires WellFormed(f) && n in f.up && RowsFollow(f, n, g)
    ensures PreOrder(g) == Without(PreOrder(f), Subtree(f, n))
  {
    assert RowOk(f, null);
    WholeRow(f, n, g, null);
    RemainingPreRow(f, n, g, null, 0, 0);
  }

  /** The pre-order afterwards is the old one with the slice of the subtree cut out, and the node an
      iterator goes on with is the first one behind the cut. */
  lemma ErasedPreOrder(f: Forest, n: Node) returns (a: seq<Node>, b: seq<Node>)
    requires CanErase(f, n)
    ensures n in f.rows && PreOrder(f) == a + ([n] + PreRow(f, n, 0)) + b
    ensures WellFormed(Erased(f, n)) && PreOrder(Erased(f, n)) == a + b
    ensures b != [] && SkipNext(f, n) == b[0]
  {
    a, b := SubtreeIsASlice(f, n);
    ErasedRowsFollow(f, n);
    RemainingPreOrder(f, n, Erased(f, n));
    OutsideTheSlice(f, n, a, b);
    SubtreeOnly(f, n);
    CutOut(a, [n] + PreRow(f, n, 0), b, Subtree(f, n));
  }

  lemma OutsideTheSlice(f: Forest, n: Node, a: seq<Node>, b: seq<Node>)
    requires CanErase(f, n) && n in f.rows && PreOrder(f) == a + ([n] + PreRow(f, n, 0)) + b
    ensures forall x :: x in a || x in b ==> x !in Subtree(f, n)
    ensures b != []
  {
    PreOrderIsEveryNodeOnce(f);
    PreOrderEnds(f);
    var s, m := PreOrder(f), [n] + PreRow(f, n, 0);
    forall x | x in Subtree(f, n)
      ensures x !in a && x !in b
    {
      SliceIsSubtree(f, n, x);
      PartsAreApart(a, m, b, x);
    }
    if b == [] {
      assert s[|s| - 1] == m[|m| - 1];
      SliceIsSubtree(f, n, f.feet);
      SentinelsStayOut(f, n);
    }
  }

  lemma PartsAreApart(a: seq<Node>, m: seq<Node>, b: seq<Node>, x: Node)
    requires NoDup(a + m + b) && x in m
    ensures x !in a && x !in b
  {
    var s, i := a + m + b, Index(m, x);
    assert s[|a| + i] == x;
    forall j | 0 <= j < |a|
      ensures a[j] != x
    {
      assert s[j] == a[j];
    }
    forall j | 0 <= j < |b|
      ensures b[j] != x
    {
      assert s[|a| + |m| + j] == b[j];
    }
  }

  // ---------------------------------------------------------------- the recursion of erase_children

  /** n lies at or below one of the first i children of it. */
  ghost predicate Gone(f: Forest, it: Node, i: nat, n: Node)
    requires WellFormed(f) && it in f.rows && i <= |f.rows[it]|
  {
    n in f.up && exists j :: 0 <= j < i && Below(f, n, f.rows[it][j])
  }

  /** The cells left after the first i children of it are freed. */
  ghost function Survivors(f: Forest, c: map<Node, Cell>, it: Node, i: nat): map<Node, Cell>
    requires WellFormed(f) && it in f.rows && i <= |f.rows[it]|
  {
    map m | m in c && !Gone(f, it, i, m) :: c[m]
  }

  /** The cells left after all children of it are freed: it keeps its place but has no child. */
  ghost function Childless(f: Forest, c: map<Node, Cell>, it: Node): map<Node, Cell>
    requires WellFormed(f) && it in c
  {
    var d := map m | m in c && (m == it || m !in Subtree(f, it)) :: c[m];
    d[it := c[it].(first := null, last := null)]
  }

  /** The cells of the subtree of it are still all there and still as the forest says. */
  ghost predicate Intact(f: Forest, c: map<Node, Cell>, it: Node)
    requires WellFormed(f)
  {
    forall m {:trigger CellOf(f, m)} :: m in Subtree(f, it) ==> m in c && c[m] == CellOf(f, m)
  }

  lemma KidsInTurn(f: Forest, c: map<Node, Cell>, it: Node, i: nat)
    requires WellFormed(f) && it in f.up && it in f.rows && i <= |f.rows[it]|
    requires Intact(f, c, it)
    ensures it in Survivors(f, c, it, i) && it in c && Survivors(f, c, it, i)[it] == c[it]
    ensures c[it].first == if |f.rows[it]| == 0 then null else f.rows[it][0]
    ensures i < |f.rows[it]| ==>
              && var k, s := f.rows[it][i], Survivors(f, c, it, i);
              && k in f.up && k in f.rows && Rank(f, k) > Rank(f, it) && k != it
              && k in s && s[k].next == (if i + 1 == |f.rows[it]| then null else f.rows[it][i + 1])
              && Intact(f, s, k)
  {
    assert CellOf(f, it) == c[it];
    assert Below(f, it, it);
    assert NodeOk(f, it) && RowOk(f, it);
    forall j | 0 <= j < i
      ensures !Below(f, it, f.rows[it][j])
    {
      KidIsBelow(f, f.rows[it][j], it);
      if Below(f, it, f.rows[it][j]) { RankAbove(f, it, f.rows[it][j]); }
    }
    if i < |f.rows[it]| {
      var k, s := f.rows[it][i], Survivors(f, c, it, i);
      KidIsBelow(f, k, it);
      assert NodeOk(f, k);
      NeighboursAt(f.rows[it], i);
      forall m | m in Subtree(f, k)
        ensures m in s && s[m] == CellOf(f, m)
      {
        BelowTransitive(f, m, k, it);
        assert CellOf(f, m) == c[m];
        forall j | 0 <= j < i
          ensures !Below(f, m, f.rows[it][j])
        {
          if Below(f, m, f.rows[it][j]) { SiblingsDisjoint(f, m, k, f.rows[it][j]); }
        }
      }
      assert Below(f, k, k);
      assert CellOf(f, k) == s[k];
    }
  }

  lemma FirstKidInTurn(f: Forest, c: map<Node, Cell>, it: Node)
    requires WellFormed(f) && it in f.up && it in f.rows && Intact(f, c, it)
    ensures it in c && c[it].first == if |f.rows[it]| == 0 then null else f.rows[it][0]
    ensures Survivors(f, c, it, 0) == c
  {
    KidsInTurn(f, c, it, 0);
  }

  lemma OneKidLess(f: Forest, c: map<Node, Cell>, it: Node, i: nat)
    requires WellFormed(f) && it in f.up && it in f.rows && i < |f.rows[it]|
    requires f.rows[it][i] in Survivors(f, c, it, i)
    ensures var k := f.rows[it][i];
            Survivors(f, c, it, i + 1) == Childless(f, Survivors(f, c, it, i), k) - {k}
  {
    var k, s := f.rows[it][i], Survivors(f, c, it, i);
    assert RowOk(f, it);
    assert Below(f, k, k);
    var t := Survivors(f, c, it, i + 1);
    var u := Childless(f, s, k) - {k};
    assert forall m :: m in t ==> m in u;
    forall m | m in u
      ensures m in t
    {
      assert m in s && m != k && m !in Subtree(f, k);
    }
  }

  lemma NoKidLeft(f: Forest, c: map<Node, Cell>, it: Node)
    requires WellFormed(f) && it in f.up && it in f.rows && Intact(f, c, it)
    ensures it in c && it in Survivors(f, c, it, |f.rows[it]|)
    ensures Survivors(f, c, it, |f.rows[it]|)[it] == c[it]
    ensures Survivors(f, c, it, |f.rows[it]|)[it := c[it].(first := null, last := null)] == Childless(f, c, it)
  {
    var s := Survivors(f, c, it, |f.rows[it]|);
    KidsInTurn(f, c, it, |f.rows[it]|);
    forall m | m in c && m != it
      ensures m in s <==> m !in Subtree(f, it)
    {
      if m in Subtree(f, it) {
        var k := KidAbove(f, m, it);
        assert NodeOk(f, k);
        assert f.rows[it][Index(f.rows[it], k)] == k;
      } else if Gone(f, it, |f.rows[it]|, m) {
        var j :| 0 <= j < |f.rows[it]| && Below(f, m, f.rows[it][j]);
        assert RowOk(f, it);
        KidIsBelow(f, f.rows[it][j], it);
        BelowTransitive(f, m, f.rows[it][j], it);
      }
    }
  }

  lemma EraseAllowed(f: Forest, c: map<Node, Cell>, n: Node)
    requires Describes(f, c) && CanErase(f, n)
    ensures n in f.rows && n in c && Intact(f, c, n) && LinksIn(c, n)
    ensures var d := Childless(f, c, n);
            && n in d && LinksIn(d, n)
            && (d[n].parent == null ==> d[n].prev != null && d[n].next != null)
  {
    LinksStayInside(f, c, n);
    assert NodeOk(f, n) && RowOk(f, f.up[n]);
    assert c[n] == CellOf(f, n);
    if f.up[n] == null { TopNeighbours(f, n); }
    forall m: Node? | m == c[n].parent || m == c[n].prev || m == c[n].next
      ensures m != null && m in f.up ==> !Below(f, m, n)
    {
      if m != null && m in f.up && Below(f, m, n) {
        assert NodeOk(f, m);
        RankAbove(f, m, n);
        if f.up[m] == f.up[n] {
          RankAbove(f, f.up[n], n);
        }
      }
    }
  }

  /** What unlinking n makes of another cell. */
  lemma UnlinkedAt(c: map<Node, Cell>, n: Node, m: Node)
    requires n in c && LinksIn(c, n) && m in c
    ensures UnlinkedCells(c, n).Keys == c.Keys
    ensures var Cell(parent, _, _, prev, next, _) := c[n];
            UnlinkedCells(c, n)[m] ==
            c[m].(next := if m == prev then next else c[m].next,
                  prev := if m == next then prev else c[m].prev,
                  first := if prev == null && m == parent then next else c[m].first,
                  last := if next == null && m == parent then prev else c[m].last)
  {
  }

  /** Freeing the children first and unlinking the node then comes to the same cells. */
  lemma ErasedInAnyOrder(f: Forest, c: map<Node, Cell>, n: Node)
    requires Describes(f, c) && CanErase(f, n) && LinksIn(c, n)
    requires n in Childless(f, c, n) && LinksIn(Childless(f, c, n), n)
    ensures UnlinkedCells(Childless(f, c, n), n) - {n} == ErasedCells(f, c, n)
  {
    hide UnlinkedCells, WellFormed, CellOf, LinksIn, Childless;
    ChildlessKeys(f, c, n);
    UnlinkedAt(c, n, n);
    UnlinkedAt(Childless(f, c, n), n, n);
    var d := UnlinkedCells(Childless(f, c, n), n) - {n};
    assert d.Keys == c.Keys - Subtree(f, n);
    forall m | m in c && m !in Subtree(f, n)
      ensures d[m] == UnlinkedCells(c, n)[m]
    {
      UnlinkedOutside(f, c, n, m);
    }
  }

  lemma ChildlessKeys(f: Forest, c: map<Node, Cell>, n: Node)
    requires WellFormed(f) && n in f.up && n in c
    ensures forall m :: m in Childless(f, c, n).Keys <==> m == n || (m in c.Keys && m !in Subtree(f, n))
    ensures n in Subtree(f, n)
  {
    assert Below(f, n, n);
  }

  /** Outside of the subtree it makes no difference whether its cells are still there. */
  lemma UnlinkedOutside(f: Forest, c: map<Node, Cell>, n: Node, m: Node)
    requires WellFormed(f) && n in f.up && n in c && LinksIn(c, n) && m in c && m !in Subtree(f, n)
    requires n in Childless(f, c, n) && LinksIn(Childless(f, c, n), n)
    ensures m in UnlinkedCells(Childless(f, c, n), n) && m in UnlinkedCells(c, n)
    ensures UnlinkedCells(Childless(f, c, n), n)[m] == UnlinkedCells(c, n)[m]
  {
    hide UnlinkedCells, WellFormed, LinksIn, Subtree;
    ChildlessKeys(f, c, n);
    UnlinkedAt(c, n, m);
    UnlinkedAt(Childless(f, c, n), n, m);
  }
}
