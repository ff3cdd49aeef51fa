/** The first half of replace in src/tree.hh: a node with everything below it gives way to a fresh leaf
    in its place. */
module Replanting {
  import opened Nodes
  import opened Rows
  import opened Forests
  import opened Ancestry
  import opened Erasure

  lemma PutMembers(s: seq<Node>, i: nat, n: Node)
    requires i < |s| && NoDup(s) && n !in s
    ensures NoDup(s[i := n])
    ensures forall m :: m in s[i := n] <==> m == n || (m in s && m != s[i])
  {
    var r := s[i := n];
    forall m | m in s && m != s[i]
      ensures m in r
    {
      assert r[Index(s, m)] == m;
    }
    assert r[i] == n;
  }

  /** The neighbours in a row in which n has taken the place of the node at i. */
  lemma PutNeighbours(s: seq<Node>, i: nat, n: Node, k: nat)
    requires i < |s| && NoDup(s) && n !in s && k < |s|
    ensures var r, m := s[i := n], s[i := n][k];
            && m in r && s[i] in s && s[k] in s
            && (k == i ==> m == n && Before(r, n) == Before(s, s[i]) && After(r, n) == After(s, s[i]))
            && (k != i ==>
                  && m == s[k]
                  && Before(r, m) == (if m == After(s, s[i]) then n else Before(s, m))
                  && After(r, m) == (if m == Before(s, s[i]) then n else After(s, m)))
  {
    PutMembers(s, i, n);
    NeighboursAt(s, i);
    NeighboursAt(s, k);
    NeighboursAt(s[i := n], k);
  }

  ghost predicate CanReplant(f: Forest, p: Node, n: Node) {
    CanErase(f, p) && n !in f.up
  }

  ghost function Replanted(f: Forest, p: Node, n: Node, x: Item): Forest
    requires CanReplant(f, p, n)
  {
    assert NodeOk(f, p);
    var dead, q := Subtree(f, p), f.up[p];
    f.(rows := (map r | r in f.rows && r !in dead :: if r == q then f.rows[q][Place(f, p) := n] else f.rows[r])[n := []],
       up := (map m | m in f.up && m !in dead :: f.up[m])[n := q],
       rank := (map m | m in f.up && m !in dead :: Rank(f, m))[n := Rank(f, p)],
       item := (map m | m in f.item && m !in dead :: f.item[m])[n := x])
  }

  lemma ReplantedRow(f: Forest, p: Node, n: Node)
    requires CanReplant(f, p, n)
    ensures var q := f.up[p];
            && q in f.rows && q !in Subtree(f, p) && p in f.rows[q] && n !in f.rows[q]
            && NoDup(f.rows[q][Place(f, p) := n])
            && forall m :: m in f.rows[q][Place(f, p) := n] <==> m == n || (m in f.rows[q] && m != p)
  {
    assert NodeOk(f, p) && RowOk(f, f.up[p]) && Below(f, p, p);
    PutMembers(f.rows[f.up[p]], Place(f, p), n);
    if f.up[p] != null {
      assert NodeOk(f, f.up[p]);
      if Below(f, f.up[p], p) { RankAbove(f, f.up[p], p); }
    }
  }

  lemma ReplantedNodeOk(f: Forest, p: Node, n: Node, x: Item, m: Node)
    requires CanReplant(f, p, n) && (m == n || (m in f.up && !Below(f, m, p)))
    ensures NodeOk(Replanted(f, p, n, x), m)
  {
    ReplantedRow(f, p, n);
    assert NodeOk(f, p);
    if m == n {
      if f.up[p] != null { assert NodeOk(f, f.up[p]); }
    } else {
      assert NodeOk(f, m);
      assert Below(f, p, p);
      assert f.up[m] != null ==> !Below(f, f.up[m], p);
    }
  }

  lemma ReplantedRowOk(f: Forest, p: Node, n: Node, x: Item, r: Node?)
    requires CanReplant(f, p, n) && (r == n || (r in f.rows && r !in Subtree(f, p)))
    ensures RowOk(Replanted(f, p, n, x), r)
  {
    ReplantedRow(f, p, n);
    assert NodeOk(f, p) && Below(f, p, p);
    if r != n {
      var g := Replanted(f, p, n, x);
      assert RowOk(f, r);
      forall c | c in g.rows[r]
        ensures c in g.up && g.up[c] == r
      {
        if c != n {
          assert NodeOk(f, c);
          assert c != p;
        }
      }
    }
  }

  lemma ReplantedSentinels(f: Forest, p: Node, n: Node, x: Item)
    requires CanReplant(f, p, n)
    ensures Sentinels(Replanted(f, p, n, x))
  {
    hide Below;
    ReplantedRow(f, p, n);
    SentinelsStayOut(f, p);
    assert NodeOk(f, f.head) && NodeOk(f, f.feet) && NodeOk(f, p);
    if f.up[p] == null { TopNeighbours(f, p); }
  }

  lemma ReplantedWellFormed(f: Forest, p: Node, n: Node, x: Item)
    requires CanReplant(f, p, n)
    ensures WellFormed(Replanted(f, p, n, x))
  {
    var g := Replanted(f, p, n, x);
    ReplantedSentinels(f, p, n, x);
    forall m | m in g.up
      ensures NodeOk(g, m)
    {
      ReplantedNodeOk(f, p, n, x, m);
    }
    forall r | r in g.rows
      ensures RowOk(g, r)
    {
      ReplantedRowOk(f, p, n, x, r);
    }
  }

  // ---------------------------------------------------------------- the cells

  /** n takes the links of p over, and p is freed. */
  ghost function ReplantedCells(d: map<Node, Cell>, p: Node, n: Node, x: Item): map<Node, Cell>
    requires p in d && LinksIn(d, p) && n !in d
  {
    var Cell(parent, _, _, prev, next, _) := d[p];
    var d0 := d[n := Cell(parent, null, null, prev, next, x)];
    var d1 := if prev != null then d0[prev := d0[prev].(next := n)]
              else if parent != null then d0[parent := d0[parent].(first := n)]
              else d0;
    var d2 := if next != null then d1[next := d1[next].(prev := n)]
              else if parent != null then d1[parent := d1[parent].(last := n)]
              else d1;
    d2 - {p}
  }

  /** One cell after the assignments. */
  lemma ReplantedCell(d: map<Node, Cell>, p: Node, n: Node, x: Item, m: Node)
    requires p in d && LinksIn(d, p) && n !in d && m in d && m != p
    requires d[p].parent == null ==> d[p].prev != null && d[p].next != null
    ensures var Cell(parent, _, _, prev, next, _) := d[p];
            var e := ReplantedCells(d, p, n, x);
            && n in e && e[n] == Cell(parent, null, null, prev, next, x)
            && m in e
            && e[m] == d[m]
                 .(first := if m == parent && prev == null then n else d[m].first,
                   last := if m == parent && next == null then n else d[m].last,
                   prev := if m == next then n else d[m].prev,
                   next := if m == prev then n else d[m].next)
  {
  }

  lemma NewLeafLinks(f: Forest, p: Node, n: Node, x: Item)
    requires CanReplant(f, p, n) && WellFormed(Replanted(f, p, n, x))
    ensures var g := Replanted(f, p, n, x);
            n in g.up && CellOf(g, n) == Cell(f.up[p], null, null, Prev(f, p), Next(f, p), x)
  {
    var g, q := Replanted(f, p, n, x), f.up[p];
    ReplantedRow(f, p, n);
    assert NodeOk(f, p) && RowOk(f, q) && NodeOk(g, n);
    PutNeighbours(f.rows[q], Place(f, p), n, Place(f, p));
  }

  lemma ReplantLinks(f: Forest, p: Node, n: Node, x: Item, m: Node)
    requires CanReplant(f, p, n) && WellFormed(Replanted(f, p, n, x))
    requires m in f.up && !Below(f, m, p)
    ensures var g := Replanted(f, p, n, x);
            && m in g.up
            && Prev(g, m) == (if m == Next(f, p) then n else Prev(f, m))
            && Next(g, m) == (if m == Prev(f, p) then n else Next(f, m))
  {
    var g, q := Replanted(f, p, n, x), f.up[p];
    ReplantedRow(f, p, n);
    assert NodeOk(f, p) && NodeOk(f, m) && RowOk(f, q) && Below(f, p, p) && NodeOk(g, m);
    assert f.up[m] != null ==> !Below(f, f.up[m], p);
    var s, i := f.rows[q], Place(f, p);
    IndexAt(s, i);
    if f.up[m] == q {
      PutNeighbours(s, i, n, Index(s, m));
    } else {
      OtherRow(f, p, m);
    }
  }

  lemma OtherRow(f: Forest, p: Node, m: Node)
    requires WellFormed(f) && p in f.up && m in f.up && f.up[m] != f.up[p]
    ensures m != Next(f, p) && m != Prev(f, p)
  {
    assert NodeOk(f, p) && RowOk(f, f.up[p]);
    NeighboursAt(f.rows[f.up[p]], Place(f, p));
  }

  lemma ReplantEnds(f: Forest, p: Node, n: Node, x: Item, m: Node)
    requires CanReplant(f, p, n) && WellFormed(Replanted(f, p, n, x))
    requires m in f.up && !Below(f, m, p)
    ensures var g := Replanted(f, p, n, x);
            && m in g.up
            && FirstKid(g, m) == (if m == f.up[p] && Prev(f, p) == null then n else FirstKid(f, m))
            && LastKid(g, m) == (if m == f.up[p] && Next(f, p) == null then n else LastKid(f, m))
  {
    ReplantedRow(f, p, n);
    assert NodeOk(f, p) && NodeOk(f, m) && RowOk(f, f.up[p]);
    NeighboursAt(f.rows[f.up[p]], Place(f, p));
  }

  /** The links of p lead to cells that are not freed. */
  lemma ReplantLinksIn(f: Forest, c: map<Node, Cell>, p: Node)
    requires Describes(f, c) && CanErase(f, p)
    ensures p in c && c[p] == CellOf(f, p)
    ensures var d := Childless(f, c, p);
            && p in d && LinksIn(d, p) && d[p] == c[p].(first := null, last := null)
            && (d[p].parent == null ==> d[p].prev != null && d[p].next != null)
  {
    assert NodeOk(f, p) && RowOk(f, f.up[p]) && Below(f, p, p);
    assert c[p] == CellOf(f, p);
    LinksStayInside(f, c, p);
    NeighboursAt(f.rows[f.up[p]], Place(f, p));
    if f.up[p] == null {
      TopNeighbours(f, p);
    } else {
      assert NodeOk(f, f.up[p]);
      if Below(f, f.up[p], p) { RankAbove(f, f.up[p], p); }
    }
    SiblingStays(f, p, Prev(f, p));
    SiblingStays(f, p, Next(f, p));
  }

  lemma SiblingStays(f: Forest, p: Node, m: Node?)
    requires WellFormed(f) && p in f.up && (m == null || (m in f.up && f.up[m] == f.up[p] && m != p))
    ensures m != null ==> m !in Subtree(f, p)
  {
    if m != null && Below(f, m, p) {
      assert Below(f, m, m);
      SiblingsDisjoint(f, m, m, p);
    }
  }

  lemma ReplantCell(f: Forest, c: map<Node, Cell>, p: Node, n: Node, x: Item, m: Node)
    requires Describes(f, c) && CanReplant(f, p, n) && WellFormed(Replanted(f, p, n, x))
    requires m in f.up && !Below(f, m, p)
    requires p in c
    requires var d := Childless(f, c, p); p in d && LinksIn(d, p) && n !in d
    ensures m in ReplantedCells(Childless(f, c, p), p, n, x)
    ensures m in Replanted(f, p, n, x).up
    ensures ReplantedCells(Childless(f, c, p), p, n, x)[m] == CellOf(Replanted(f, p, n, x), m)
  {
    var d := Childless(f, c, p);
    ReplantLinksIn(f, c, p);
    assert NodeOk(f, m) && Below(f, p, p);
    assert c[m] == CellOf(f, m) && d[m] == c[m];
    ReplantedCell(d, p, n, x, m);
    ReplantLinks(f, p, n, x, m);
    ReplantEnds(f, p, n, x, m);
  }

  /** All assignments before the copying starts: the children are freed, n takes the place of p, and
      p is freed. */
  lemma ReplantDescribes(f: Forest, c: map<Node, Cell>, p: Node, n: Node, x: Item)
    requires Describes(f, c) && CanReplant(f, p, n)
    ensures p in c && p in Childless(f, c, p) && LinksIn(Childless(f, c, p), p) && n !in Childless(f, c, p)
    ensures Describes(Replanted(f, p, n, x), ReplantedCells(Childless(f, c, p), p, n, x))
  {
    var g := Replanted(f, p, n, x);
    ReplantedWellFormed(f, p, n, x);
    ReplantLinksIn(f, c, p);
    var d := Childless(f, c, p);
    assert n !in c;
    var e := ReplantedCells(d, p, n, x);
    assert Below(f, p, p);
    forall m | m in e
      ensures m in g.up
    {
      if m != n { assert m in d && m in c; }
    }
    forall m | m in g.up
      ensures m in e && e[m] == CellOf(g, m)
    {
      if m == n {
        NewLeafLinks(f, p, n, x);
        NewCell(d, p, n, x);
      } else {
        ReplantCell(f, c, p, n, x, m);
      }
    }
    CellByCell(g, e);
  }

  lemma NewCell(d: map<Node, Cell>, p: Node, n: Node, x: Item)
    requires p in d && LinksIn(d, p) && n !in d
    ensures var Cell(parent, _, _, prev, next, _) := d[p];
            && n in ReplantedCells(d, p, n, x)
            && ReplantedCells(d, p, n, x)[n] == Cell(parent, null, null, prev, next, x)
  {
  }
}
