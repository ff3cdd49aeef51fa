/** The abstract ordered forest that the linked cells of src/tree.hh stand for. It holds no heap
    state: a row of children per parent (the row of null is head, the top-level nodes, feet), the
    parent of every node, the data, and a rank that grows from parent to child. */
module Forests {
  import opened Nodes
  import opened Rows

  datatype Forest = Forest(
    head: Node,
    feet: Node,
    rows: map<Node?, seq<Node>>,
    up: map<Node, Node?>,
    rank: map<Node, nat>,
    limit: nat,
    item: map<Node, Item>)

  ghost predicate Sentinels(f: Forest) {
    && null in f.rows
    && f.head in f.up && f.feet in f.up
    && f.head in f.rows && f.feet in f.rows
    && f.head != f.feet
    && |f.rows[null]| >= 2
    && First(f.rows[null]) == f.head
    && Last(f.rows[null]) == f.feet
    && f.rows[f.head] == [] && f.rows[f.feet] == []
  }

  ghost predicate NodeOk(f: Forest, n: Node) {
    && n in f.up && n in f.rows && n in f.item && n in f.rank
    && f.rank[n] < f.limit
    && f.up[n] in f.rows && n in f.rows[f.up[n]]
    && (f.up[n] != null ==> f.up[n] in f.up && f.up[n] in f.rank && f.rank[f.up[n]] < f.rank[n])
  }

  ghost predicate RowOk(f: Forest, p: Node?) {
    && p in f.rows
    && (p != null ==> p in f.up)
    && NoDup(f.rows[p])
    && (forall c :: c in f.rows[p] ==> c in f.up && f.up[c] == p)
  }

  /** The triggers keep the two per-node facts closed until a proof names the node. */
  ghost predicate WellFormed(f: Forest) {
    && Sentinels(f)
    && (forall n {:trigger NodeOk(f, n)} :: n in f.up ==> NodeOk(f, n))
    && (forall p {:trigger RowOk(f, p)} :: p in f.rows ==> RowOk(f, p))
  }

  ghost predicate Sentinel(f: Forest, n: Node?) {
    n == f.head || n == f.feet
  }

  /** The forest of a fresh tree: nothing between the sentinels. */
  ghost function Empty(head: Node, feet: Node): Forest {
    Forest(head, feet, map[null := [head, feet], head := [], feet := []],
           map[head := null, feet := null], map[head := 0, feet := 0], 1,
           map[head := NO_ITEM, feet := NO_ITEM])
  }

  lemma NodeIsOk(f: Forest, n: Node)
    requires WellFormed(f) && n in f.up
    ensures NodeOk(f, n)
  {
  }

  lemma SentinelsAreOk(f: Forest)
    requires WellFormed(f)
    ensures Sentinels(f)
  {
  }

  lemma RowIsOk(f: Forest, p: Node?)
    requires WellFormed(f) && p in f.rows
    ensures RowOk(f, p)
  {
  }

  // ---------------------------------------------------------------- what the cells hold

  ghost function Prev(f: Forest, n: Node): Node?
    requires WellFormed(f) && n in f.up
  {
    assert NodeOk(f, n);
    Before(f.rows[f.up[n]], n)
  }

  ghost function Next(f: Forest, n: Node): Node?
    requires WellFormed(f) && n in f.up
  {
    assert NodeOk(f, n);
    After(f.rows[f.up[n]], n)
  }

  ghost function FirstKid(f: Forest, n: Node): Node?
    requires WellFormed(f) && n in f.up
  {
    assert NodeOk(f, n);
    First(f.rows[n])
  }

  ghost function LastKid(f: Forest, n: Node): Node?
    requires WellFormed(f) && n in f.up
  {
    assert NodeOk(f, n);
    Last(f.rows[n])
  }

  /** A node with a parent is no sentinel, and a sentinel has no children. */
  lemma ParentedIsProper(f: Forest, n: Node)
    requires WellFormed(f) && n in f.up && f.up[n] != null
    ensures !Sentinel(f, n) && !Sentinel(f, f.up[n])
  {
    assert NodeOk(f, n) && NodeOk(f, f.head) && NodeOk(f, f.feet) && RowOk(f, null);
    assert f.head in f.rows[null] && f.feet in f.rows[null];
  }

  /** The value the forest prescribes for the cell n. */
  ghost function CellOf(f: Forest, n: Node): Cell
    requires WellFormed(f) && n in f.up
  {
    assert NodeOk(f, n);
    Cell(f.up[n], FirstKid(f, n), LastKid(f, n), Prev(f, n), Next(f, n), f.item[n])
  }

  /** The cells c are the ones the forest f prescribes. */
  ghost predicate Describes(f: Forest, c: map<Node, Cell>) {
    && WellFormed(f)
    && (forall n :: n in c ==> n in f.up)
    && (forall n :: n in f.up ==> n in c)
    && (forall n {:trigger CellOf(f, n)} :: n in f.up ==> c[n] == CellOf(f, n))
  }

  lemma CellByCell(g: Forest, d: map<Node, Cell>)
    requires WellFormed(g)
    requires forall m :: m in d ==> m in g.up
    requires forall m :: m in g.up ==> m in d && d[m] == CellOf(g, m)
    ensures Describes(g, d)
  {
  }

  /** Every link of a described cell is null or another described cell. */
  lemma LinksStayInside(f: Forest, c: map<Node, Cell>, n: Node)
    requires Describes(f, c) && n in c
    ensures c[n].parent == null || c[n].parent in c
    ensures c[n].first == null || c[n].first in c
    ensures c[n].last == null || c[n].last in c
    ensures c[n].prev == null || c[n].prev in c
    ensures c[n].next == null || c[n].next in c
    ensures c[n].first == null <==> c[n].last == null
    ensures c[n].next != n && c[n].prev != n && c[n].parent != n && c[n].first != n && c[n].last != n
  {
    assert NodeOk(f, n) && RowOk(f, n) && RowOk(f, f.up[n]);
    assert c[n] == CellOf(f, n);
    if c[n].first != null {
      assert NodeOk(f, c[n].first) && NodeOk(f, c[n].last);
    }
  }

  lemma RowsAreNodes(f: Forest, n: Node)
    requires WellFormed(f)
    ensures n in f.rows ==> n in f.up
  {
    if n in f.rows { assert RowOk(f, n); }
  }

  lemma RowLink(f: Forest, p: Node?, i: nat)
    requires WellFormed(f) && p in f.rows && i < |f.rows[p]|
    ensures var c := f.rows[p][i];
            c in f.up && Next(f, c) == if i + 1 == |f.rows[p]| then null else f.rows[p][i + 1]
  {
    assert RowOk(f, p);
    var c := f.rows[p][i];
    assert c in f.rows[p] && NodeOk(f, c);
    NeighboursAt(f.rows[p], i);
  }

  /** The position of n among its siblings. */
  ghost function Place(f: Forest, n: Node): (k: nat)
    requires WellFormed(f) && n in f.up
    ensures f.up[n] in f.rows && k < |f.rows[f.up[n]]| && f.rows[f.up[n]][k] == n
  {
    assert NodeOk(f, n);
    Index(f.rows[f.up[n]], n)
  }

  /** n is a, or lies below a. */
  ghost predicate Below(f: Forest, n: Node, a: Node)
    requires WellFormed(f) && n in f.up
    decreases if n in f.rank then f.rank[n] else 0
  {
    assert NodeOk(f, n);
    n == a || (f.up[n] != null && assert NodeOk(f, f.up[n]); Below(f, f.up[n], a))
  }

  // ---------------------------------------------------------------- a new leaf

  ghost predicate CanAttach(f: Forest, p: Node?, k: nat, n: Node) {
    && WellFormed(f)
    && p in f.rows && k <= |f.rows[p]| && n !in f.up
    && !Sentinel(f, p)
    && (p == null ==> 0 < k < |f.rows[p]|)
  }

  /** A new leaf n at position k of the row of p. */
  ghost function Attach(f: Forest, p: Node?, k: nat, n: Node, x: Item): Forest
    requires CanAttach(f, p, k, n)
  {
    assert RowOk(f, p);
    assert p != null ==> NodeOk(f, p);
    f.(rows := f.rows[p := InsertAt(f.rows[p], k, n)][n := []],
       up := f.up[n := p],
       rank := f.rank[n := if p == null then 0 else f.rank[p] + 1],
       limit := f.limit + 1,
       item := f.item[n := x])
  }

  lemma AttachNodeOk(f: Forest, p: Node?, k: nat, n: Node, x: Item, m: Node)
    requires CanAttach(f, p, k, n) && (m == n || m in f.up)
    ensures NodeOk(Attach(f, p, k, n, x), m)
  {
    var g := Attach(f, p, k, n, x);
    assert RowOk(f, p);
    InsertKeepsNoDup(f.rows[p], k, n);
    if m != n {
      assert NodeOk(f, m);
      assert g.up[m] == f.up[m];
      assert m in g.rows[f.up[m]];
    } else {
      assert p != null ==> NodeOk(f, p);
    }
  }

  lemma AttachRowOk(f: Forest, p: Node?, k: nat, n: Node, x: Item, q: Node?)
    requires CanAttach(f, p, k, n) && (q == n || q in f.rows)
    ensures RowOk(Attach(f, p, k, n, x), q)
  {
    var g := Attach(f, p, k, n, x);
    assert RowOk(f, p);
    InsertKeepsNoDup(f.rows[p], k, n);
    if q != n {
      assert RowOk(f, q);
    }
  }

  lemma AttachSentinels(f: Forest, p: Node?, k: nat, n: Node, x: Item)
    requires CanAttach(f, p, k, n)
    ensures Sentinels(Attach(f, p, k, n, x))
  {
    var g := Attach(f, p, k, n, x);
    var s := g.rows[null];
    assert NodeOk(f, f.head) && NodeOk(f, f.feet);
    if p == null {
      var r := f.rows[null];
      assert s[0] == r[0] && s[|s| - 1] == r[|r| - 1];
    }
  }

  lemma AttachWellFormed(f: Forest, p: Node?, k: nat, n: Node, x: Item)
    requires CanAttach(f, p, k, n)
    ensures WellFormed(Attach(f, p, k, n, x))
  {
    var g := Attach(f, p, k, n, x);
    AttachSentinels(f, p, k, n, x);
    forall m | m in g.up
      ensures NodeOk(g, m)
    {
      AttachNodeOk(f, p, k, n, x, m);
    }
    forall q | q in g.rows
      ensures RowOk(g, q)
    {
      AttachRowOk(f, p, k, n, x, q);
    }
  }

  lemma AttachCell(f: Forest, p: Node?, k: nat, n: Node, x: Item, m: Node)
    requires CanAttach(f, p, k, n) && m in f.up
    requires WellFormed(Attach(f, p, k, n, x))
    ensures var g, s := Attach(f, p, k, n, x), f.rows[p];
            && CellOf(g, n) == Cell(p, null, null, if k == 0 then null else s[k - 1], if k == |s| then null else s[k], x)
            && CellOf(g, m) == CellOf(f, m)
                 .(prev := if k < |s| && m == s[k] then n else Prev(f, m),
                   next := if k > 0 && m == s[k - 1] then n else Next(f, m),
                   first := if m == p && k == 0 then n else FirstKid(f, m),
                   last := if m == p && k == |s| then n else LastKid(f, m))
  {
    hide WellFormed;
    RowIsOk(f, p);
    NodeIsOk(f, m);
    NodeIsOk(Attach(f, p, k, n, x), m);
    NodeIsOk(Attach(f, p, k, n, x), n);
    InsertNeighbours(f.rows[p], k, n);
  }

  lemma EmptyDescribes(head: Node, feet: Node)
    requires head != feet
    ensures Describes(Empty(head, feet), map[
              head := Cell(null, null, null, null, feet, NO_ITEM),
              feet := Cell(null, null, null, head, null, NO_ITEM)])
  {
    var f := Empty(head, feet);
    assert forall n :: n in f.up ==> n == head || n == feet;
    assert NodeOk(f, head) && NodeOk(f, feet);
    assert RowOk(f, null) && RowOk(f, head) && RowOk(f, feet);
    NeighboursAt(f.rows[null], 0);
    NeighboursAt(f.rows[null], 1);
  }

  /** How append_child rewires the cells. */
  ghost function AppendedCells(c: map<Node, Cell>, p: Node, n: Node, x: Item): map<Node, Cell>
    requires p in c && (c[p].last != null ==> c[p].last in c)
  {
    var last := c[p].last;
    var d := c[n := Cell(p, null, null, last, null, x)];
    if last == null then d[p := c[p].(first := n, last := n)]
    else d[last := c[last].(next := n)][p := c[p].(last := n)]
  }

  lemma AppendedCell(f: Forest, c: map<Node, Cell>, p: Node, n: Node, x: Item, m: Node)
    requires Describes(f, c) && p in c && n !in c && p in f.rows && CanAttach(f, p, |f.rows[p]|, n)
    requires c[p].last != null ==> c[p].last in c && c[p].last != p
    requires WellFormed(Attach(f, p, |f.rows[p]|, n, x)) && (m == n || m in f.up)
    ensures m in AppendedCells(c, p, n, x)
    ensures AppendedCells(c, p, n, x)[m] == CellOf(Attach(f, p, |f.rows[p]|, n, x), m)
  {
    hide WellFormed, Attach;
    var k := |f.rows[p]|;
    RowIsOk(f, p);
    assert c[p] == CellOf(f, p);
    AttachCell(f, p, k, n, x, if m == n then p else m);
    if m != n {
      assert c[m] == CellOf(f, m);
      NodeIsOk(f, m);
      if m == c[p].last { NeighboursAt(f.rows[p], k - 1); }
    }
  }

  lemma AppendDescribes(f: Forest, c: map<Node, Cell>, p: Node, n: Node, x: Item)
    requires Describes(f, c) && p in c && n !in c && !Sentinel(f, p)
    requires p in f.rows
    requires c[p].last != null ==> c[p].last in c && c[p].last != p
    ensures CanAttach(f, p, |f.rows[p]|, n)
    ensures Describes(Attach(f, p, |f.rows[p]|, n, x), AppendedCells(c, p, n, x))
  {
    hide WellFormed, CellOf, RowOk;
    NodeIsOk(f, p);
    RowIsOk(f, p);
    SentinelsAreOk(f);
    var k := |f.rows[p]|;
    var g, d := Attach(f, p, k, n, x), AppendedCells(c, p, n, x);
    AttachWellFormed(f, p, k, n, x);
    forall m | m in g.up
      ensures d[m] == CellOf(g, m)
    {
      AppendedCell(f, c, p, n, x, m);
    }
  }

  /** A new leaf may stand before any node but head. */
  lemma InsertAllowed(f: Forest, position: Node)
    requires WellFormed(f) && position in f.up && position != f.head
    ensures f.up[position] in f.rows && !Sentinel(f, f.up[position])
    ensures f.up[position] == null ==> 0 < Place(f, position) < |f.rows[null]|
  {
    assert NodeOk(f, position);
  }

  /** How insert rewires the cells. */
  ghost function InsertedCells(c: map<Node, Cell>, pos: Node, n: Node, x: Item): map<Node, Cell>
    requires pos in c
    requires c[pos].prev != null ==> c[pos].prev in c
    requires c[pos].parent != null ==> c[pos].parent in c
  {
    var prev, parent := c[pos].prev, c[pos].parent;
    var d := c[n := Cell(parent, null, null, prev, pos, x)][pos := c[pos].(prev := n)];
    if prev != null then d[prev := d[prev].(next := n)]
    else if parent != null then d[parent := d[parent].(first := n)]
    else d
  }

  lemma InsertedCell(f: Forest, c: map<Node, Cell>, pos: Node, n: Node, x: Item, m: Node)
    requires Describes(f, c) && pos in c && n !in c && CanAttach(f, f.up[pos], Place(f, pos), n)
    requires c[pos].prev != null ==> c[pos].prev in c && c[pos].prev != pos
    requires c[pos].parent != null ==> c[pos].parent in c && c[pos].parent != pos
    requires WellFormed(Attach(f, f.up[pos], Place(f, pos), n, x)) && (m == n || m in f.up)
    ensures m in InsertedCells(c, pos, n, x)
    ensures InsertedCells(c, pos, n, x)[m] == CellOf(Attach(f, f.up[pos], Place(f, pos), n, x), m)
  {
    hide WellFormed, Attach;
    NodeIsOk(f, pos);
    var p, k := f.up[pos], Place(f, pos);
    RowIsOk(f, p);
    NeighboursAt(f.rows[p], k);
    assert c[pos] == CellOf(f, pos);
    AttachCell(f, p, k, n, x, if m == n then pos else m);
    if m != n {
      assert c[m] == CellOf(f, m);
      NodeIsOk(f, m);
    }
  }

  lemma InsertDescribes(f: Forest, c: map<Node, Cell>, pos: Node, n: Node, x: Item)
    requires Describes(f, c) && pos in c && n !in c && pos != f.head
    requires c[pos].prev != null ==> c[pos].prev in c && c[pos].prev != pos
    requires c[pos].parent != null ==> c[pos].parent in c && c[pos].parent != pos
    ensures pos in f.up && CanAttach(f, f.up[pos], Place(f, pos), n)
    ensures Describes(Attach(f, f.up[pos], Place(f, pos), n, x), InsertedCells(c, pos, n, x))
  {
    hide WellFormed, CellOf;
    NodeIsOk(f, pos);
    var p, k := f.up[pos], Place(f, pos);
    RowIsOk(f, p);
    InsertAllowed(f, pos);
    NeighboursAt(f.rows[p], k);
    var g, d := Attach(f, p, k, n, x), InsertedCells(c, pos, n, x);
    AttachWellFormed(f, p, k, n, x);
    forall m | m in g.up
      ensures d[m] == CellOf(g, m)
    {
      InsertedCell(f, c, pos, n, x, m);
    }
  }

  // ---------------------------------------------------------------- taking a node out of its row

  ghost function Unlinked(f: Forest, n: Node): map<Node?, seq<Node>>
    requires WellFormed(f) && n in f.up
  {
    assert NodeOk(f, n);
    f.rows[f.up[n] := RemoveAt(f.rows[f.up[n]], Place(f, n))]
  }

  lemma UnlinkedRow(f: Forest, n: Node, q: Node?)
    requires WellFormed(f) && n in f.up && q in f.rows
    ensures q in Unlinked(f, n)
    ensures NoDup(Unlinked(f, n)[q])
    ensures forall c :: c in Unlinked(f, n)[q] <==> c in f.rows[q] && c != n
  {
    assert RowOk(f, q);
    if q == f.up[n] {
      RemoveKeepsNoDup(f.rows[q], Place(f, n));
    }
  }

  lemma UnlinkLinks(f: Forest, n: Node, m: Node)
    requires WellFormed(f) && n in f.up && m in f.up
    ensures var r := Unlinked(f, n);
            && f.up[m] in r
            && (m != n ==>
                  && m in r[f.up[m]]
                  && Before(r[f.up[m]], m) == (if m == Next(f, n) then Prev(f, n) else Prev(f, m))
                  && After(r[f.up[m]], m) == (if m == Prev(f, n) then Next(f, n) else Next(f, m)))
  {
    assert NodeOk(f, n) && NodeOk(f, m);
    assert RowOk(f, f.up[n]);
    RemoveNeighbours(f.rows[f.up[n]], Place(f, n));
    NeighboursAt(f.rows[f.up[n]], Place(f, n));
  }

  lemma UnlinkEnds(f: Forest, n: Node, q: Node?)
    requires WellFormed(f) && n in f.up && q in f.rows
    ensures var r := Unlinked(f, n);
            && q in r
            && First(r[q]) == (if q == f.up[n] && Prev(f, n) == null then Next(f, n) else First(f.rows[q]))
            && Last(r[q]) == (if q == f.up[n] && Next(f, n) == null then Prev(f, n) else Last(f.rows[q]))
  {
    assert NodeOk(f, n);
    assert RowOk(f, f.up[n]);
    RemoveNeighbours(f.rows[f.up[n]], Place(f, n));
    NeighboursAt(f.rows[f.up[n]], Place(f, n));
  }

  /** How the two statements that take n out of its row rewire the other cells. */
  ghost function UnlinkedCells(c: map<Node, Cell>, n: Node): map<Node, Cell>
    requires n in c && LinksIn(c, n)
  {
    var Cell(parent, _, _, prev, next, _) := c[n];
    var d := if prev != null then c[prev := c[prev].(next := next)]
             else if parent != null then c[parent := c[parent].(first := next)]
             else c;
    if next != null then d[next := d[next].(prev := prev)]
    else if parent != null then d[parent := d[parent].(last := prev)]
    else d
  }

  ghost predicate LinksIn(c: map<Node, Cell>, n: Node)
    requires n in c
  {
    && (c[n].parent != null ==> c[n].parent in c && c[n].parent != n)
    && (c[n].prev != null ==> c[n].prev in c && c[n].prev != n)
    && (c[n].next != null ==> c[n].next in c && c[n].next != n)
  }

  lemma UnlinkCell(f: Forest, c: map<Node, Cell>, n: Node, m: Node)
    requires Describes(f, c) && n in c && m in c && m != n && LinksIn(c, n)
    ensures var r := Unlinked(f, n);
            && f.up[m] in r && m in r && m in r[f.up[m]] && m in f.item
            && UnlinkedCells(c, n)[m]
                 == Cell(f.up[m], First(r[m]), Last(r[m]), Before(r[f.up[m]], m), After(r[f.up[m]], m), f.item[m])
  {
    assert NodeOk(f, n) && NodeOk(f, m);
    assert c[n] == CellOf(f, n) && c[m] == CellOf(f, m);
    UnlinkLinks(f, n, m);
    UnlinkEnds(f, n, m);
    assert RowOk(f, f.up[n]);
    NeighboursAt(f.rows[f.up[n]], Place(f, n));
    if f.up[n] == null && !Sentinel(f, n) {
      TopNeighbours(f, n);
    }
  }

  /** The top row starts with head and ends with feet, so a node between them has two neighbours. */
  lemma TopNeighbours(f: Forest, n: Node)
    requires WellFormed(f) && n in f.up && f.up[n] == null
    ensures !Sentinel(f, n) ==> Prev(f, n) != null && Next(f, n) != null
    ensures n == f.head ==> Prev(f, n) == null && Next(f, n) != null
    ensures n == f.feet ==> Next(f, n) == null && Prev(f, n) != null
  {
    assert NodeOk(f, n) && RowOk(f, null);
    NeighboursAt(f.rows[null], 0);
    NeighboursAt(f.rows[null], |f.rows[null]| - 1);
  }

  // ---------------------------------------------------------------- moving a node behind another

  ghost predicate CanMove(f: Forest, dst: Node, src: Node) {
    && WellFormed(f)
    && dst in f.up && src in f.up
    && !Sentinel(f, src) && !Sentinel(f, dst)
    && !Below(f, dst, src)
  }

  ghost function Rank(f: Forest, n: Node): nat
    requires WellFormed(f) && n in f.up
  {
    assert NodeOk(f, n);
    f.rank[n]
  }

  /** The rows once src stands right after dst. */
  ghost function MovedRows(f: Forest, dst: Node, src: Node): map<Node?, seq<Node>>
    requires WellFormed(f) && dst in f.up && src in f.up && dst != src
  {
    assert NodeOk(f, dst);
    UnlinkedRow(f, src, f.up[dst]);
    var r := Unlinked(f, src);
    r[f.up[dst] := InsertAt(r[f.up[dst]], Index(r[f.up[dst]], dst) + 1, src)]
  }

  /** Ranks that grow from parent to child again: those at and below src are lifted. */
  ghost function LiftedRank(f: Forest, src: Node): map<Node, nat>
    requires WellFormed(f)
  {
    map m | m in f.up :: if Below(f, m, src) then f.limit + Rank(f, m) else Rank(f, m)
  }

  /** src, with everything below it, becomes the sibling right after dst. */
  ghost function MoveAfter(f: Forest, dst: Node, src: Node): Forest
    requires CanMove(f, dst, src)
  {
    assert NodeOk(f, dst);
    assert dst != src by { assert Below(f, src, src); }
    f.(rows := MovedRows(f, dst, src), up := f.up[src := f.up[dst]],
       rank := LiftedRank(f, src), limit := f.limit + f.limit)
  }

  lemma MovedRowsMembers(f: Forest, dst: Node, src: Node, q: Node?)
    requires WellFormed(f) && dst in f.up && src in f.up && dst != src && q in f.rows
    ensures var s := MovedRows(f, dst, src);
            && q in s && NoDup(s[q])
            && (forall c :: c in s[q] ==> (c in f.rows[q] && c != src) || (q == f.up[dst] && c == src))
            && (forall c :: c in f.rows[q] && c != src ==> c in s[q])
            && (q == f.up[dst] ==> src in s[q])
  {
    assert NodeOk(f, dst);
    UnlinkedRow(f, src, f.up[dst]);
    UnlinkedRow(f, src, q);
    if q == f.up[dst] {
      var r := Unlinked(f, src);
      InsertKeepsNoDup(r[q], Index(r[q], dst) + 1, src);
    }
  }

  lemma MoveNodeOk(f: Forest, dst: Node, src: Node, m: Node)
    requires CanMove(f, dst, src) && m in f.up
    ensures NodeOk(MoveAfter(f, dst, src), m)
  {
    assert NodeOk(f, dst) && NodeOk(f, m) && Below(f, src, src);
    MovedRowsMembers(f, dst, src, f.up[dst]);
    MovedRowsMembers(f, dst, src, f.up[m]);
    MovedRowsMembers(f, dst, src, m);
    var p := f.up[dst];
    assert p != null ==> !Below(f, p, src);
  }

  lemma MoveRowOk(f: Forest, dst: Node, src: Node, q: Node?)
    requires CanMove(f, dst, src) && q in f.rows
    ensures RowOk(MoveAfter(f, dst, src), q)
  {
    assert RowOk(f, q) && Below(f, src, src);
    MovedRowsMembers(f, dst, src, q);
  }

  /** Putting a node behind another one of a row keeps both ends unless that one is the last. */
  lemma InsertBehindEnds(s: seq<Node>, j: nat, n: Node)
    requires j + 1 < |s|
    ensures var r := InsertAt(s, j + 1, n);
            |r| == |s| + 1 && First(r) == First(s) && Last(r) == Last(s)
  {
  }

  lemma MoveSentinels(f: Forest, dst: Node, src: Node)
    requires CanMove(f, dst, src)
    ensures Sentinels(MoveAfter(f, dst, src))
  {
    var p := f.up[dst];
    assert NodeOk(f, dst) && NodeOk(f, f.head) && NodeOk(f, f.feet) && Below(f, src, src);
    UnlinkedRow(f, src, p);
    UnlinkedSentinels(f, src);
    var r := Unlinked(f, src);
    if p == null {
      var j := Index(r[p], dst);
      assert r[p][j] == dst && r[p][|r[p]| - 1] == f.feet;
      InsertBehindEnds(r[p], j, src);
    } else {
      ParentedIsProper(f, dst);
    }
  }

  /** Taking a proper node out leaves the sentinels in place. */
  lemma UnlinkedSentinels(f: Forest, n: Node)
    requires WellFormed(f) && n in f.up && !Sentinel(f, n)
    ensures var r := Unlinked(f, n);
            && null in r && |r[null]| >= 2 && First(r[null]) == f.head && Last(r[null]) == f.feet
            && f.head in r && r[f.head] == [] && f.feet in r && r[f.feet] == []
  {
    assert NodeOk(f, n);
    UnlinkEnds(f, n, null);
    if f.up[n] == null {
      TopNeighbours(f, n);
      UnlinkedRow(f, n, null);
      assert f.head in f.rows[null] && f.feet in f.rows[null];
    } else {
      ParentedIsProper(f, n);
    }
  }

  lemma MoveWellFormed(f: Forest, dst: Node, src: Node)
    requires CanMove(f, dst, src)
    ensures WellFormed(MoveAfter(f, dst, src))
  {
    var g := MoveAfter(f, dst, src);
    MoveSentinels(f, dst, src);
    assert NodeOk(f, dst) && NodeOk(f, src);
    forall m | m in g.up
      ensures NodeOk(g, m)
    {
      MoveNodeOk(f, dst, src, m);
    }
    forall q | q in g.rows
      ensures RowOk(g, q)
    {
      MoveRowOk(f, dst, src, q);
    }
  }

  /** The neighbours in the moved rows, from those in the rows without src. */
  lemma MovedNeighbours(f: Forest, dst: Node, src: Node, q: Node?, m: Node)
    requires WellFormed(f) && dst in f.up && src in f.up && dst != src && q in f.rows
    requires f.up[dst] in f.rows
    requires m != src && m in f.rows[q]
    ensures var s, r, p := MovedRows(f, dst, src), Unlinked(f, src), f.up[dst];
            && p in s && p in r && q in s && q in r && src in s[p] && dst in r[p] && m in s[q] && m in r[q]
            && Before(s[p], src) == dst && After(s[p], src) == After(r[p], dst)
            && Before(s[q], m) == (if m == After(r[p], dst) then src else Before(r[q], m))
            && After(s[q], m) == (if m == dst then src else After(r[q], m))
  {
    assert NodeOk(f, dst) && RowOk(f, f.up[dst]) && RowOk(f, q);
    var p := f.up[dst];
    UnlinkedRow(f, src, p);
    UnlinkedRow(f, src, q);
    var r := Unlinked(f, src);
    InsertNeighbours(r[p], Index(r[p], dst) + 1, src);
    NeighboursAt(r[p], Index(r[p], dst));
  }

  lemma MoveLinks(f: Forest, dst: Node, src: Node, m: Node)
    requires CanMove(f, dst, src) && m in f.up && WellFormed(MoveAfter(f, dst, src))
    ensures var g, r, p := MoveAfter(f, dst, src), Unlinked(f, src), f.up[dst];
            && p in r && dst in r[p] && m in r && f.up[m] in r
            && Prev(g, src) == dst && Next(g, src) == After(r[p], dst)
            && (m != src ==>
                  && m in r[f.up[m]]
                  && Prev(g, m) == (if m == After(r[p], dst) then src else Before(r[f.up[m]], m))
                  && Next(g, m) == (if m == dst then src else After(r[f.up[m]], m)))
  {
    assert NodeOk(f, dst) && NodeOk(f, m) && Below(f, src, src);
    MovedNeighbours(f, dst, src, f.up[dst], dst);
    if m != src {
      MovedNeighbours(f, dst, src, f.up[m], m);
    }
  }

  lemma MoveEnds(f: Forest, dst: Node, src: Node, m: Node)
    requires CanMove(f, dst, src) && m in f.up && WellFormed(MoveAfter(f, dst, src))
    ensures var g, r, p := MoveAfter(f, dst, src), Unlinked(f, src), f.up[dst];
            && p in r && dst in r[p] && m in r
            && FirstKid(g, m) == First(r[m])
            && LastKid(g, m) == (if m == p && After(r[p], dst) == null then src else Last(r[m]))
  {
    assert NodeOk(f, dst) && NodeOk(f, m) && Below(f, src, src);
    var p := f.up[dst];
    UnlinkedRow(f, src, p);
    var r := Unlinked(f, src);
    InsertNeighbours(r[p], Index(r[p], dst) + 1, src);
    NeighboursAt(r[p], Index(r[p], dst));
  }

  /** How the second half of move_after rewires the cells: src, out of its row, goes behind dst. */
  ghost function LinkedCells(d: map<Node, Cell>, dst: Node, src: Node): map<Node, Cell>
    requires dst in d && src in d && LinksIn(d, dst)
  {
    var Cell(parent, _, _, _, next, _) := d[dst];
    var e := if next != null then d[next := d[next].(prev := src)]
             else if parent != null then d[parent := d[parent].(last := src)]
             else d;
    e[src := e[src].(parent := parent, prev := dst, next := next)][dst := e[dst].(next := src)]
  }

  /** src can be taken out of its row and linked again behind dst. */
  ghost predicate Movable(c: map<Node, Cell>, dst: Node, src: Node) {
    && dst in c && src in c && dst != src && LinksIn(c, src)
    && (c[src].parent == null ==> c[src].prev != null && c[src].next != null)
    && var d := UnlinkedCells(c, src);
    && LinksIn(d, dst)
    && d[dst].next != src && d[dst].parent != src
    && (d[dst].next != null || d[dst].parent != null)
  }

  ghost function MovedCells(c: map<Node, Cell>, dst: Node, src: Node): map<Node, Cell>
    requires Movable(c, dst, src)
  {
    LinkedCells(UnlinkedCells(c, src), dst, src)
  }

  /** Taking src out leaves its own cell alone. */
  lemma SourceUntouched(f: Forest, c: map<Node, Cell>, src: Node)
    requires Describes(f, c) && src in f.up && !Sentinel(f, src)
    ensures src in c && LinksIn(c, src) && (c[src].parent == null ==> c[src].prev != null && c[src].next != null)
    ensures UnlinkedCells(c, src)[src] == c[src] == CellOf(f, src)
  {
    hide WellFormed;
    LinksStayInside(f, c, src);
    NodeIsOk(f, src);
    RowIsOk(f, f.up[src]);
    assert c[src] == CellOf(f, src);
    NeighboursAt(f.rows[f.up[src]], Place(f, src));
    if f.up[src] == null { TopNeighbours(f, src); }
  }

  lemma NeighboursInRow(s: seq<Node>, m: Node)
    requires NoDup(s) && m in s
    ensures Before(s, m) != null ==> Before(s, m) in s && Before(s, m) != m
    ensures After(s, m) != null ==> After(s, m) in s && After(s, m) != m
  {
    NeighboursAt(s, Index(s, m));
  }

  /** At the top something follows dst also without src. */
  lemma TopGoesOn(f: Forest, dst: Node, src: Node)
    requires CanMove(f, dst, src) && dst != src && f.up[dst] == null
    requires null in Unlinked(f, src) && dst in Unlinked(f, src)[null]
    ensures After(Unlinked(f, src)[null], dst) != null
  {
    hide WellFormed, Below;
    UnlinkLinks(f, src, dst);
    TopNeighbours(f, dst);
    SentinelsAreOk(f);
    RowIsOk(f, null);
    if f.up[src] == null { TopNeighbours(f, src); }
    if Next(f, dst) == src { NeighboursAt(f.rows[null], Place(f, dst)); }
  }

  /** The links of dst, once src is taken out, lead neither to src nor out of the cells. */
  lemma TargetApart(f: Forest, c: map<Node, Cell>, dst: Node, src: Node)
    requires Describes(f, c) && CanMove(f, dst, src) && dst != src && dst in c && src in c && LinksIn(c, src)
    ensures var d := UnlinkedCells(c, src);
            && LinksIn(d, dst) && d[dst].next != src && d[dst].parent != src && (d[dst].next != null || d[dst].parent != null)
  {
    hide WellFormed, First, Last, Before, After, Unlinked;
    var p, r, d := f.up[dst], Unlinked(f, src), UnlinkedCells(c, src);
    NodeIsOk(f, dst);
    RowIsOk(f, p);
    UnlinkCell(f, c, src, dst);
    UnlinkedRow(f, src, p);
    NeighboursInRow(r[p], dst);
    assert p == src ==> Below(f, dst, src);
    if p == null { TopGoesOn(f, dst, src); } else { ParentInside(f, c, dst); }
  }

  lemma ParentInside(f: Forest, c: map<Node, Cell>, m: Node)
    requires Describes(f, c) && m in f.up && f.up[m] != null
    ensures f.up[m] in c && f.up[m] != m
  {
    NodeIsOk(f, m);
  }

  lemma MoveAllowed(f: Forest, c: map<Node, Cell>, dst: Node, src: Node)
    requires Describes(f, c) && CanMove(f, dst, src) && dst != src
    ensures Movable(c, dst, src)
    ensures UnlinkedCells(c, src)[src] == c[src] == CellOf(f, src)
  {
    hide WellFormed, UnlinkedCells, CellOf, LinksIn;
    SourceUntouched(f, c, src);
    TargetApart(f, c, dst, src);
  }

  lemma MoveCellOf(f: Forest, c: map<Node, Cell>, dst: Node, src: Node, m: Node)
    requires Describes(f, c) && CanMove(f, dst, src) && dst != src && m in f.up
    requires WellFormed(MoveAfter(f, dst, src)) && Movable(c, dst, src)
    ensures MovedCells(c, dst, src)[m] == CellOf(MoveAfter(f, dst, src), m)
  {
    MoveAllowed(f, c, dst, src);
    UnlinkCell(f, c, src, dst);
    assert NodeOk(f, m);
    MoveLinks(f, dst, src, m);
    MoveEnds(f, dst, src, m);
    if m == src {
      UnlinkEnds(f, src, src);
    } else {
      UnlinkCell(f, c, src, m);
    }
  }

  lemma MovedKeys(c: map<Node, Cell>, dst: Node, src: Node)
    requires Movable(c, dst, src)
    ensures MovedCells(c, dst, src).Keys == c.Keys
  {
    assert UnlinkedCells(c, src).Keys == c.Keys;
  }

  lemma MoveDescribes(f: Forest, c: map<Node, Cell>, dst: Node, src: Node)
    requires Describes(f, c) && CanMove(f, dst, src) && dst != src && Movable(c, dst, src)
    ensures Describes(MoveAfter(f, dst, src), MovedCells(c, dst, src))
  {
    hide WellFormed, CellOf, MovedCells, Movable;
    var g, d := MoveAfter(f, dst, src), MovedCells(c, dst, src);
    MoveWellFormed(f, dst, src);
    MovedKeys(c, dst, src);
    assert forall m :: m in d.Keys <==> m in c.Keys;
    forall m | m in g.up
      ensures m in d && d[m] == CellOf(g, m)
    {
      MoveCellOf(f, c, dst, src, m);
    }
    CellByCell(g, d);
  }

  /** What move_after does, its two early returns included. */
  ghost function MovedAfter(f: Forest, dst: Node, src: Node): Forest
    requires WellFormed(f) && dst in f.up && src in f.up
    requires dst == src || CanMove(f, dst, src)
  {
    if dst == src || Next(f, dst) == src then f else MoveAfter(f, dst, src)
  }

  // ---------------------------------------------------------------- changing the data of a node

  ghost function WithPath(f: Forest, n: Node, path: string): Forest
    requires n in f.item
  {
    f.(item := f.item[n := f.item[n].(path := path)])
  }

  lemma SameButItems(f: Forest, g: Forest)
    requires WellFormed(f) && g == f.(item := g.item)
    requires forall n :: n in f.up ==> n in g.item
    ensures WellFormed(g)
  {
    forall n | n in g.up
      ensures NodeOk(g, n)
    {
      assert NodeOk(f, n);
    }
    forall p | p in g.rows
      ensures RowOk(g, p)
    {
      assert RowOk(f, p);
    }
  }

  lemma WithPathDescribes(f: Forest, c: map<Node, Cell>, n: Node, path: string)
    requires Describes(f, c) && n in c && n in f.item
    ensures Describes(WithPath(f, n, path), c[n := c[n].(data := c[n].data.(path := path))])
  {
    var g := WithPath(f, n, path);
    forall m | m in f.up
      ensures m in g.item
    {
      assert NodeOk(f, m);
    }
    SameButItems(f, g);
    forall m | m in g.up
      ensures c[n := c[n].(data := c[n].data.(path := path))][m] == CellOf(g, m)
    {
      assert NodeOk(f, m);
      assert c[m] == CellOf(f, m);
    }
  }
}
