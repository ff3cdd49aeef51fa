/** flatten of src/tree.hh: the children of a node become the siblings right behind it. */
module Flattening {
  import opened Nodes
  import opened Rows
  import opened Forests
  import opened PreOrders

  /** t put into s behind position i. */
  ghost function Spliced(s: seq<Node>, i: nat, t: seq<Node>): seq<Node>
    requires i < |s|
  {
    s[..i + 1] + t + s[i + 1..]
  }

  lemma SplicedMembers(s: seq<Node>, i: nat, t: seq<Node>)
    requires i < |s| && NoDup(s) && NoDup(t) && forall x :: x in t ==> x !in s
    ensures NoDup(Spliced(s, i, t))
    ensures forall x :: x in Spliced(s, i, t) <==> x in s || x in t
  {
    var r := Spliced(s, i, t);
    assert s == s[..i + 1] + s[i + 1..];
    forall j, k | 0 <= j < k < |r|
      ensures r[j] != r[k]
    {
      assert i < j <= i + |t| ==> r[j] in t;
      assert i < k <= i + |t| ==> r[k] in t;
      assert j <= i ==> r[j] in s;
      assert k > i + |t| ==> r[k] == s[k - |t|] && r[k] in s;
      assert j > i + |t| ==> r[j] == s[j - |t|];
      assert k <= i ==> r[k] == s[k];
    }
  }

  lemma SplicedAt(s: seq<Node>, i: nat, t: seq<Node>)
    requires i < |s|
    ensures var r := Spliced(s, i, t);
            && |r| == |s| + |t|
            && (forall k :: 0 <= k <= i ==> r[k] == s[k])
            && (forall k :: 0 <= k < |t| ==> r[i + 1 + k] == t[k])
            && (forall k :: i < k < |s| ==> r[k + |t|] == s[k])
  {
  }

  lemma SplicedIndex(s: seq<Node>, i: nat, t: seq<Node>, x: nat)
    requires i < |s| && x < |Spliced(s, i, t)|
    ensures Spliced(s, i, t)[x] == if x <= i then s[x] else if x <= i + |t| then t[x - i - 1] else s[x - |t|]
  {
  }

  /** The neighbours of the nodes spliced in. */
  lemma NeighboursInside(s: seq<Node>, i: nat, t: seq<Node>, k: nat)
    requires i < |s| && NoDup(s) && NoDup(t) && (forall x :: x in t ==> x !in s) && k < |t|
    ensures var r, m := Spliced(s, i, t), t[k];
            && m in r && s[i] in s
            && Before(r, m) == (if k == 0 then s[i] else Before(t, m))
            && After(r, m) == (if k + 1 == |t| then After(s, s[i]) else After(t, m))
  {
    var r, at := Spliced(s, i, t), i + 1 + k;
    SplicedMembers(s, i, t);
    NeighboursAt(s, i);
    NeighboursAt(t, k);
    SplicedIndex(s, i, t, at);
    SplicedIndex(s, i, t, at - 1);
    if at + 1 < |r| { SplicedIndex(s, i, t, at + 1); }
    NeighboursAt(r, at);
  }

  /** The neighbours of the nodes that were in the row. */
  lemma NeighboursOutside(s: seq<Node>, i: nat, t: seq<Node>, k: nat)
    requires i < |s| && NoDup(s) && NoDup(t) && (forall x :: x in t ==> x !in s) && t != [] && k < |s|
    ensures var r, m := Spliced(s, i, t), s[k];
            && m in r && s[i] in s
            && Before(r, m) == (if k == i + 1 then t[|t| - 1] else Before(s, m))
            && After(r, m) == (if k == i then t[0] else After(s, m))
  {
    SplicedMembers(s, i, t);
    SplicedAt(s, i, t);
    NeighboursAt(s, k);
    NeighboursAt(Spliced(s, i, t), if k <= i then k else k + |t|);
  }

  lemma EndsOfSpliced(s: seq<Node>, i: nat, t: seq<Node>)
    requires i < |s| && t != []
    ensures First(Spliced(s, i, t)) == First(s)
    ensures Last(Spliced(s, i, t)) == if i + 1 == |s| then t[|t| - 1] else Last(s)
  {
    SplicedAt(s, i, t);
  }

  ghost predicate CanFlatten(f: Forest, p: Node) {
    WellFormed(f) && p in f.up && p in f.rows && !Sentinel(f, p)
  }

  ghost function Flattened(f: Forest, p: Node): Forest
    requires CanFlatten(f, p)
  {
    assert NodeOk(f, p);
    var q := f.up[p];
    f.(rows := f.rows[q := Spliced(f.rows[q], Place(f, p), f.rows[p])][p := []],
       up := map m | m in f.up :: if f.up[m] == p then q else f.up[m])
  }

  lemma FlattenedRow(f: Forest, p: Node)
    requires CanFlatten(f, p)
    ensures var g, q := Flattened(f, p), f.up[p];
            && q in f.rows && q != p && q in g.rows && NoDup(g.rows[q])
            && (forall x :: x in f.rows[p] ==> x !in f.rows[q])
            && (forall x :: x in g.rows[q] <==> x in f.rows[q] || x in f.rows[p])
  {
    assert NodeOk(f, p) && RowOk(f, f.up[p]) && RowOk(f, p);
    SplicedMembers(f.rows[f.up[p]], Place(f, p), f.rows[p]);
  }

  lemma FlattenedNodeOk(f: Forest, p: Node, m: Node)
    requires CanFlatten(f, p) && m in f.up
    ensures NodeOk(Flattened(f, p), m)
  {
    FlattenedRow(f, p);
    assert NodeOk(f, m) && NodeOk(f, p);
  }

  lemma FlattenedRowOk(f: Forest, p: Node, r: Node?)
    requires CanFlatten(f, p) && r in f.rows
    ensures RowOk(Flattened(f, p), r)
  {
    FlattenedRow(f, p);
    assert RowOk(f, r) && NodeOk(f, p) && RowOk(f, p);
    if r != f.up[p] && r != p {
      assert forall c :: c in f.rows[r] ==> f.up[c] != p;
    }
  }

  lemma FlattenedWellFormed(f: Forest, p: Node)
    requires CanFlatten(f, p)
    ensures WellFormed(Flattened(f, p))
  {
    var g := Flattened(f, p);
    assert NodeOk(f, p) && NodeOk(f, f.head) && NodeOk(f, f.feet) && RowOk(f, null);
    if f.up[p] == null {
      var s, i := f.rows[null], Place(f, p);
      var r := g.rows[null];
      assert i + 1 < |s|;
      assert r[0] == s[0] && r[|r| - 1] == s[|s| - 1];
    }
    forall m | m in g.up
      ensures NodeOk(g, m)
    {
      FlattenedNodeOk(f, p, m);
    }
    forall r | r in g.rows
      ensures RowOk(g, r)
    {
      FlattenedRowOk(f, p, r);
    }
  }

  /** Without children there is nothing to do. */
  lemma NothingToFlatten(f: Forest, p: Node)
    requires CanFlatten(f, p) && f.rows[p] == []
    ensures Flattened(f, p) == f
  {
    assert NodeOk(f, p) && RowOk(f, p);
    var g, q := Flattened(f, p), f.up[p];
    var s, i := f.rows[q], Place(f, p);
    assert Spliced(s, i, []) == s;
    assert g.rows == f.rows;
    forall m | m in f.up
      ensures f.up[m] != p
    {
      assert NodeOk(f, m);
    }
    assert g.up == f.up;
  }

  // ---------------------------------------------------------------- the cells

  /** After the first loop: the first i children point to the new parent. */
  ghost function Adopted(c: map<Node, Cell>, kids: seq<Node>, i: nat, q: Node?): map<Node, Cell>
    requires i <= |kids|
  {
    map m | m in c :: if m in kids[..i] then c[m].(parent := q) else c[m]
  }

  /** How the rest of flatten rewires the cells. */
  ghost function SplicedCells(d: map<Node, Cell>, p: Node): map<Node, Cell>
    requires p in d && d[p].first != null && d[p].first in d && d[p].last != null && d[p].last in d
    requires d[p].next != null ==> d[p].next in d
    requires d[p].parent != null ==> d[p].parent in d
  {
    var Cell(parent, first, last, _, next, _) := d[p];
    var e := if next != null then var e0 := d[last := d[last].(next := next)]; e0[next := e0[next].(prev := last)]
             else if parent != null then d[parent := d[parent].(last := last)]
             else d;
    var g := e[first := e[first].(prev := p)];
    g[p := g[p].(next := first, first := null, last := null)]
  }

  ghost predicate Flattenable(c: map<Node, Cell>, p: Node, kids: seq<Node>) {
    && p in c && kids != [] && c[p].first == kids[0] && c[p].last == kids[|kids| - 1]
    && (forall x :: x in kids ==> x in c && x != p)
    && (c[p].next != null ==> c[p].next in c && c[p].next != p && c[p].next !in kids)
    && (c[p].parent != null ==> c[p].parent in c && c[p].parent != p && c[p].parent !in kids)
    && (c[p].next == null ==> c[p].parent != null)
  }

  /** The child whose turn it is still points to its next sibling. */
  lemma AdoptNext(f: Forest, c: map<Node, Cell>, p: Node, i: nat)
    requires Describes(f, c) && CanFlatten(f, p) && Flattenable(c, p, f.rows[p]) && i < |f.rows[p]|
    ensures var kids, q := f.rows[p], f.up[p];
            var d := Adopted(c, kids, i, q);
            && kids[i] in d && p in d && d[kids[i]].next == Next(f, kids[i]) && d[p].parent == q
            && kids[i] in f.up
            && Adopted(c, kids, i + 1, q) == d[kids[i] := d[kids[i]].(parent := q)]
  {
    var kids := f.rows[p];
    assert kids[i] in kids && NodeOk(f, p) && RowOk(f, p);
    assert NodeOk(f, kids[i]);
    assert c[kids[i]] == CellOf(f, kids[i]) && c[p] == CellOf(f, p);
    assert kids[..i + 1] == kids[..i] + [kids[i]];
  }

  lemma AdoptedPosition(c: map<Node, Cell>, p: Node, kids: seq<Node>, q: Node?)
    requires Flattenable(c, p, kids)
    ensures var d := Adopted(c, kids, |kids|, q);
            && p in d && d[p] == c[p] && kids[0] in d && kids[|kids| - 1] in d
            && kids[0] != p && kids[|kids| - 1] != p && c[p].next != kids[0]
            && (c[p].next != null ==> c[p].next in d) && (c[p].parent != null ==> c[p].parent in d)
  {
    assert kids[..|kids|] == kids && kids[0] in kids && kids[|kids| - 1] in kids;
  }

  lemma FlattenAllowed(f: Forest, c: map<Node, Cell>, p: Node)
    requires Describes(f, c) && CanFlatten(f, p) && f.rows[p] != []
    ensures Flattenable(c, p, f.rows[p]) && c[p] == CellOf(f, p)
  {
    assert NodeOk(f, p) && RowOk(f, p) && RowOk(f, f.up[p]);
    assert c[p] == CellOf(f, p);
    FlattenedRow(f, p);
    LinksStayInside(f, c, p);
    NeighboursAt(f.rows[f.up[p]], Place(f, p));
    if f.up[p] == null { TopNeighbours(f, p); }
    forall x | x in f.rows[p]
      ensures x in c && x != p && x != f.up[p]
    {
      assert NodeOk(f, x);
      if f.up[p] != null { assert NodeOk(f, f.up[p]); }
    }
  }

  /** The neighbours of a child among its siblings, which now stand behind p. */
  lemma FlattenKidLinks(f: Forest, p: Node, m: Node)
    requires CanFlatten(f, p) && f.rows[p] != [] && m in f.up && WellFormed(Flattened(f, p)) && m in f.rows[p]
    ensures var g, kids := Flattened(f, p), f.rows[p];
            && Prev(g, m) == (if m == kids[0] then p else Prev(f, m))
            && Next(g, m) == (if m == kids[|kids| - 1] then Next(f, p) else Next(f, m))
  {
    var q, kids, g := f.up[p], f.rows[p], Flattened(f, p);
    FlattenedRow(f, p);
    assert NodeOk(f, p) && NodeOk(f, m) && RowOk(f, q) && RowOk(f, p) && NodeOk(g, m);
    var s, i, k := f.rows[q], Place(f, p), Index(kids, m);
    NeighboursAt(s, i);
    IndexAt(kids, 0);
    IndexAt(kids, |kids| - 1);
    NeighboursInside(s, i, kids, k);
  }

  /** The neighbours of the other nodes of the row. */
  lemma FlattenRowLinks(f: Forest, p: Node, m: Node)
    requires CanFlatten(f, p) && f.rows[p] != [] && m in f.up && WellFormed(Flattened(f, p))
    requires m !in f.rows[p] && f.up[m] == f.up[p]
    ensures var g, kids := Flattened(f, p), f.rows[p];
            && Prev(g, m) == (if m == Next(f, p) then kids[|kids| - 1] else Prev(f, m))
            && Next(g, m) == (if m == p then kids[0] else Next(f, m))
  {
    var q, kids, g := f.up[p], f.rows[p], Flattened(f, p);
    FlattenedRow(f, p);
    assert NodeOk(f, p) && NodeOk(f, m) && RowOk(f, q) && RowOk(f, p) && NodeOk(g, m);
    var s, i, k := f.rows[q], Place(f, p), Index(f.rows[q], m);
    NeighboursAt(s, i);
    IndexAt(s, i);
    if i + 1 < |s| { IndexAt(s, i + 1); }
    NeighboursOutside(s, i, kids, k);
  }

  lemma FlattenOtherLinks(f: Forest, p: Node, m: Node)
    requires CanFlatten(f, p) && f.rows[p] != [] && m in f.up && WellFormed(Flattened(f, p))
    requires m !in f.rows[p] && f.up[m] != f.up[p]
    ensures Prev(Flattened(f, p), m) == Prev(f, m) && Next(Flattened(f, p), m) == Next(f, m)
    ensures m != p && m != Next(f, p)
  {
    FlattenedRow(f, p);
    assert NodeOk(f, p) && NodeOk(f, m) && RowOk(f, f.up[p]) && NodeOk(Flattened(f, p), m);
    NeighboursAt(f.rows[f.up[p]], Place(f, p));
  }

  lemma FlattenLinks(f: Forest, p: Node, m: Node)
    requires CanFlatten(f, p) && f.rows[p] != [] && m in f.up && WellFormed(Flattened(f, p))
    ensures var g, kids := Flattened(f, p), f.rows[p];
            && Prev(g, m) == (if m in kids then (if m == kids[0] then p else Prev(f, m))
                              else if m == Next(f, p) then kids[|kids| - 1] else Prev(f, m))
            && Next(g, m) == (if m in kids then (if m == kids[|kids| - 1] then Next(f, p) else Next(f, m))
                              else if m == p then kids[0] else Next(f, m))
  {
    if m in f.rows[p] {
      FlattenKidLinks(f, p, m);
    } else if f.up[m] == f.up[p] {
      FlattenRowLinks(f, p, m);
    } else {
      FlattenOtherLinks(f, p, m);
    }
  }

  lemma FlattenEnds(f: Forest, p: Node, m: Node)
    requires CanFlatten(f, p) && f.rows[p] != [] && m in f.up && WellFormed(Flattened(f, p))
    ensures var g, kids := Flattened(f, p), f.rows[p];
            && FirstKid(g, m) == (if m == p then null else FirstKid(f, m))
            && LastKid(g, m) == (if m == p then null
                                 else if m == f.up[p] && Next(f, p) == null then kids[|kids| - 1] else LastKid(f, m))
  {
    FlattenedRow(f, p);
    assert NodeOk(f, p) && NodeOk(f, m) && RowOk(f, f.up[p]) && NodeOk(Flattened(f, p), m);
    EndsOfSpliced(f.rows[f.up[p]], Place(f, p), f.rows[p]);
    NeighboursAt(f.rows[f.up[p]], Place(f, p));
  }

  /** One cell after the assignments; they never meet in a field but at p. */
  lemma SplicedCell(d: map<Node, Cell>, p: Node, m: Node)
    requires p in d && d[p].first != null && d[p].first in d && d[p].last != null && d[p].last in d
    requires d[p].next != null ==> d[p].next in d
    requires d[p].parent != null ==> d[p].parent in d
    requires d[p].first != p && d[p].last != p && d[p].next != p && d[p].parent != p
    requires d[p].next != d[p].first && (d[p].next == null ==> d[p].parent != null) && m in d
    ensures var Cell(parent, first, last, _, next, _) := d[p];
            && m in SplicedCells(d, p)
            && SplicedCells(d, p)[m] == d[m]
                 .(first := if m == p then null else d[m].first,
                   last := if m == p then null else if m == parent && next == null then last else d[m].last,
                   prev := if m == first then p else if m == next then last else d[m].prev,
                   next := if m == p then first else if m == last && next != null then next else d[m].next)
  {
  }

  lemma FlattenCell(f: Forest, c: map<Node, Cell>, p: Node, m: Node)
    requires Describes(f, c) && CanFlatten(f, p) && Flattenable(c, p, f.rows[p]) && m in f.up
    requires WellFormed(Flattened(f, p))
    ensures var kids := f.rows[p];
            var d := Adopted(c, kids, |kids|, f.up[p]);
            SplicedCells(d, p)[m] == CellOf(Flattened(f, p), m)
  {
    var kids := f.rows[p];
    var d := Adopted(c, kids, |kids|, f.up[p]);
    AdoptedPosition(c, p, kids, f.up[p]);
    assert kids[..|kids|] == kids;
    assert NodeOk(f, p) && NodeOk(f, m) && RowOk(f, p);
    assert c[p] == CellOf(f, p) && c[m] == CellOf(f, m);
    assert m in kids <==> f.up[m] == p;
    SplicedCell(d, p, m);
    FlattenLinks(f, p, m);
    FlattenEnds(f, p, m);
  }

  lemma FlattenDescribes(f: Forest, c: map<Node, Cell>, p: Node)
    requires Describes(f, c) && CanFlatten(f, p) && Flattenable(c, p, f.rows[p])
    ensures Describes(Flattened(f, p), SplicedCells(Adopted(c, f.rows[p], |f.rows[p]|, f.up[p]), p))
  {
    var g := Flattened(f, p);
    FlattenedWellFormed(f, p);
    AdoptedPosition(c, p, f.rows[p], f.up[p]);
    var d := SplicedCells(Adopted(c, f.rows[p], |f.rows[p]|, f.up[p]), p);
    forall m | m in d
      ensures m in g.up
    {
      assert m in c && m in f.up;
    }
    forall m | m in g.up
      ensures m in d && d[m] == CellOf(g, m)
    {
      FlattenCell(f, c, p, m);
    }
    CellByCell(g, d);
  }

  // ---------------------------------------------------------------- the pre-order does not change

  /** A row that is neither the one of p nor the one p stands in. */
  lemma {:induction false} OtherRows(f: Forest, p: Node, r: Node?, k: nat)
    requires CanFlatten(f, p) && WellFormed(Flattened(f, p)) && r in f.rows && k <= |f.rows[r]|
    requires r != p && r != f.up[p]
    ensures k <= |Flattened(f, p).rows[r]|
    ensures PreRow(Flattened(f, p), r, k) == PreRow(f, r, k)
    decreases Height(f, r), |f.rows[r]| - k, 0
  {
    var g := Flattened(f, p);
    assert NodeOk(f, p);
    if k < |f.rows[r]| {
      KidIsLower(f, r, k);
      KidIsLower(g, r, k);
      var c := f.rows[r][k];
      AnyRow(f, p, c);
      OtherRows(f, p, r, k + 1);
    }
  }

  /** Everything below a node that is not p. */
  lemma {:induction false} AnyRow(f: Forest, p: Node, c: Node)
    requires CanFlatten(f, p) && WellFormed(Flattened(f, p)) && c in f.rows && c != p
    ensures PreRow(Flattened(f, p), c, 0) == PreRow(f, c, 0)
    decreases Height(f, c), |f.rows[c]| + 1, 0
  {
    if c == f.up[p] {
      OwnRow(f, p, 0);
    } else {
      OtherRows(f, p, c, 0);
    }
  }

  lemma PreRowStep(f: Forest, p: Node?, k: nat, next: nat)
    requires WellFormed(f) && p in f.rows && k < |f.rows[p]| && next == k + 1
    ensures var c := f.rows[p][k];
            c in f.rows && PreRow(f, p, k) == [c] + PreRow(f, c, 0) + PreRow(f, p, next)
  {
    KidIsLower(f, p, k);
  }

  lemma ThreeAndOne(c: Node, a: seq<Node>, b: seq<Node>, d: seq<Node>)
    ensures [c] + a + (b + d) == [c] + a + b + d
  {
  }

  lemma FlattenedSize(f: Forest, p: Node)
    requires CanFlatten(f, p) && f.up[p] in f.rows
    ensures |Flattened(f, p).rows[f.up[p]]| == |f.rows[f.up[p]]| + |f.rows[p]|
  {
    assert NodeOk(f, p);
    FlattenedRow(f, p);
  }

  /** Child j of p at its new place. */
  lemma FlattenedKid(f: Forest, p: Node, j: nat, at: nat)
    requires CanFlatten(f, p) && f.up[p] in f.rows && j < |f.rows[p]| && at == Place(f, p) + 1 + j
    ensures at < |Flattened(f, p).rows[f.up[p]]| && Flattened(f, p).rows[f.up[p]][at] == f.rows[p][j]
    ensures f.rows[p][j] in f.rows && f.rows[p][j] != p && Height(f, f.rows[p][j]) < Height(f, p)
  {
    assert NodeOk(f, p);
    FlattenedRow(f, p);
    SplicedIndex(f.rows[f.up[p]], Place(f, p), f.rows[p], at);
    KidIsLower(f, p, j);
  }

  lemma BehindOne(c: Node, a: seq<Node>, b: seq<Node>)
    ensures [c] + [] + (a + b) == [c] + a + b
  {
  }

  lemma NothingBefore(s: seq<Node>)
    ensures [] + s == s
  {
  }

  /** The children of p, now in the row p stands in, from child j at position `at` on. */
  lemma {:induction false} SplicedKids(f: Forest, p: Node, j: nat, at: nat, end: nat)
    requires CanFlatten(f, p) && WellFormed(Flattened(f, p)) && f.up[p] in f.rows && j <= |f.rows[p]|
    requires at == Place(f, p) + 1 + j && end == Place(f, p) + 1 + |f.rows[p]|
    ensures end <= |Flattened(f, p).rows[f.up[p]]|
    ensures PreRow(Flattened(f, p), f.up[p], at) == PreRow(f, p, j) + PreRow(Flattened(f, p), f.up[p], end)
    decreases Height(f, p), |f.rows[p]| - j, 0
  {
    var g, q, kids := Flattened(f, p), f.up[p], f.rows[p];
    FlattenedSize(f, p);
    if j == |kids| {
      assert at == end && PreRow(f, p, j) == [];
      NothingBefore(PreRow(g, q, end));
    } else {
      FlattenedKid(f, p, j, at);
      AnyRow(f, p, kids[j]);
      SplicedKids(f, p, j + 1, at + 1, end);
      PreRowStep(g, q, at, at + 1);
      PreRowStep(f, p, j, j + 1);
      ThreeAndOne(kids[j], PreRow(f, kids[j], 0), PreRow(f, p, j + 1), PreRow(g, q, end));
    }
  }

  /** The row p stands in, behind p; position k is now position `at`. */
  lemma {:induction false} RowBehind(f: Forest, p: Node, k: nat, at: nat)
    requires CanFlatten(f, p) && WellFormed(Flattened(f, p)) && f.up[p] in f.rows
    requires Place(f, p) < k <= |f.rows[f.up[p]]| && at == k + |f.rows[p]|
    ensures at <= |Flattened(f, p).rows[f.up[p]]|
    ensures PreRow(Flattened(f, p), f.up[p], at) == PreRow(f, f.up[p], k)
    decreases Height(f, f.up[p]), |f.rows[f.up[p]]| - k, 0
  {
    var g, q, kids := Flattened(f, p), f.up[p], f.rows[p];
    FlattenedSize(f, p);
    if k == |f.rows[q]| {
      assert at == |g.rows[q]|;
    } else {
      FlattenedSibling(f, p, k, at);
      AnyRow(f, p, f.rows[q][k]);
      RowBehind(f, p, k + 1, at + 1);
      PreRowStep(g, q, at, at + 1);
      PreRowStep(f, q, k, k + 1);
    }
  }

  /** A sibling of p at its new place. */
  lemma FlattenedSibling(f: Forest, p: Node, k: nat, at: nat)
    requires CanFlatten(f, p) && f.up[p] in f.rows && k < |f.rows[f.up[p]]| && k != Place(f, p)
    requires at == if k < Place(f, p) then k else k + |f.rows[p]|
    ensures at < |Flattened(f, p).rows[f.up[p]]| && Flattened(f, p).rows[f.up[p]][at] == f.rows[f.up[p]][k]
    ensures var c := f.rows[f.up[p]][k]; c in f.rows && c != p && Height(f, c) < Height(f, f.up[p])
  {
    FlattenedSize(f, p);
    SplicedIndex(f.rows[f.up[p]], Place(f, p), f.rows[p], at);
    FlattenedRow(f, p);
    KidIsLower(f, f.up[p], k);
    NotTwice(f, p, k);
  }

  lemma FlattenedItself(f: Forest, p: Node, i: nat)
    requires CanFlatten(f, p) && f.up[p] in f.rows && i == Place(f, p)
    ensures i < |Flattened(f, p).rows[f.up[p]]| && Flattened(f, p).rows[f.up[p]][i] == p
  {
    FlattenedSize(f, p);
    SplicedIndex(f.rows[f.up[p]], i, f.rows[p], i);
    FlattenedRow(f, p);
  }

  lemma NotTwice(f: Forest, p: Node, k: nat)
    requires CanFlatten(f, p) && f.up[p] in f.rows && k < |f.rows[f.up[p]]| && k != Place(f, p)
    ensures f.rows[f.up[p]][k] != p
  {
    assert NodeOk(f, p) && RowOk(f, f.up[p]);
    IndexAt(f.rows[f.up[p]], k);
  }

  /** The row p stands in, from a position before p. */
  lemma {:induction false} OwnRow(f: Forest, p: Node, k: nat)
    requires CanFlatten(f, p) && WellFormed(Flattened(f, p)) && f.up[p] in f.rows && k <= Place(f, p)
    ensures k <= |Flattened(f, p).rows[f.up[p]]|
    ensures PreRow(Flattened(f, p), f.up[p], k) == PreRow(f, f.up[p], k)
    decreases Height(f, f.up[p]), |f.rows[f.up[p]]| - k, 1
  {
    var g, q := Flattened(f, p), f.up[p];
    FlattenedSize(f, p);
    if k < Place(f, p) {
      FlattenedSibling(f, p, k, k);
      AnyRow(f, p, f.rows[q][k]);
      OwnRow(f, p, k + 1);
      PreRowStep(g, q, k, k + 1);
      PreRowStep(f, q, k, k + 1);
    } else {
      AtPlace(f, p, k, k + 1, k + 1 + |f.rows[p]|);
    }
  }

  /** The row p stands in, from p on. */
  lemma {:induction false} AtPlace(f: Forest, p: Node, i: nat, next: nat, end: nat)
    requires CanFlatten(f, p) && WellFormed(Flattened(f, p)) && f.up[p] in f.rows
    requires i == Place(f, p) && next == i + 1 && end == next + |f.rows[p]|
    ensures i <= |Flattened(f, p).rows[f.up[p]]|
    ensures PreRow(Flattened(f, p), f.up[p], i) == PreRow(f, f.up[p], i)
    decreases Height(f, f.up[p]), |f.rows[f.up[p]]| - i, 0
  {
    var g, q := Flattened(f, p), f.up[p];
    FlattenedSize(f, p);
    FlattenedItself(f, p, i);
    KidIsLower(f, q, i);
    SplicedKids(f, p, 0, next, end);
    RowBehind(f, p, next, end);
    PreRowStep(g, q, i, next);
    PreRowStep(f, q, i, next);
    assert PreRow(g, p, 0) == [];
    BehindOne(p, PreRow(f, p, 0), PreRow(f, q, next));
  }

  /** flatten leaves the sequence of nodes in pre-order as it was. */
  lemma FlattenKeepsPreOrder(f: Forest, p: Node)
    requires CanFlatten(f, p)
    ensures WellFormed(Flattened(f, p)) && PreOrder(Flattened(f, p)) == PreOrder(f)
  {
    FlattenedWellFormed(f, p);
    assert NodeOk(f, p);
    if f.up[p] == null {
      OwnRow(f, p, 0);
    } else {
      OtherRows(f, p, null, 0);
    }
  }
}
