/** reparent of src/tree.hh: a range of siblings moves, with everything below it, to the end of the
    children of another node. */
module Reparenting {
  import opened Nodes
  import opened Rows
  import opened Forests
  import opened Flattening

  // ---------------------------------------------------------------- rows

  ghost function Cut(s: seq<Node>, i: nat, j: nat): seq<Node>
    requires i <= j <= |s|
  {
    s[..i] + s[j..]
  }

  lemma CutIndex(s: seq<Node>, i: nat, j: nat, x: nat)
    requires i <= j <= |s| && x < |Cut(s, i, j)|
    ensures Cut(s, i, j)[x] == if x < i then s[x] else s[x + (j - i)]
  {
  }

  lemma InRange(s: seq<Node>, i: nat, j: nat, k: nat)
    requires i <= j <= |s| && k < |s|
    ensures i <= k < j ==> s[k] in s[i..j]
  {
    if i <= k < j { assert s[i..j][k - i] == s[k]; }
  }

  lemma NotTheEnd(s: seq<Node>, k: nat, j: nat)
    requires NoDup(s) && k < j <= |s|
    ensures s[k] != if j == |s| then null else s[j]
  {
  }

  lemma RangeGoesOn(s: seq<Node>, k: nat, j: nat, next: Node?, end: Node?)
    requires NoDup(s) && k < j <= |s| && next != end
    requires next == if k + 1 == |s| then null else s[k + 1]
    requires end == if j == |s| then null else s[j]
    ensures k + 1 < j && next != null
  {
  }

  lemma RangeEndsHere(s: seq<Node>, k: nat, j: nat, next: Node?, end: Node?)
    requires NoDup(s) && k < j <= |s| && next == end
    requires next == if k + 1 == |s| then null else s[k + 1]
    requires end == if j == |s| then null else s[j]
    ensures k + 1 == j
  {
  }

  ghost function Position(s: seq<Node>, i: nat, j: nat, m: Node): (at: nat)
    requires i <= j <= |s| && m in s[i..j]
    ensures i <= at < j && s[at] == m
  {
    i + Index(s[i..j], m)
  }

  lemma CutMembers(s: seq<Node>, i: nat, j: nat)
    requires i <= j <= |s| && NoDup(s)
    ensures NoDup(Cut(s, i, j)) && NoDup(s[i..j])
    ensures forall x :: x in Cut(s, i, j) <==> x in s && x !in s[i..j]
    ensures forall x :: x in s[i..j] ==> x in s
  {
    var r := Cut(s, i, j);
    assert forall x :: 0 <= x < |r| ==> r[x] == if x < i then s[x] else s[x + (j - i)];
    forall m | m in s && m !in s[i..j]
      ensures m in r
    {
      var k := Index(s, m);
      InRange(s, i, j, k);
      assert r[if k < i then k else k - (j - i)] == m;
    }
  }

  /** Where the element at k of a row stands after the cut. */
  ghost function CutAt(i: nat, j: nat, k: nat): int {
    if k < i then k else k - (j - i)
  }

  lemma CutBefore(s: seq<Node>, i: nat, j: nat, k: nat)
    requires i < j <= |s| && NoDup(s) && k < |s| && (k < i || k >= j)
    ensures var r := Cut(s, i, j);
            && NoDup(r) && 0 <= CutAt(i, j, k) < |r| && r[CutAt(i, j, k)] == s[k]
            && Before(r, s[k]) == (if k == j then Before(s, s[i]) else Before(s, s[k]))
  {
    var r, at := Cut(s, i, j), CutAt(i, j, k);
    CutMembers(s, i, j);
    NeighboursAt(s, i);
    NeighboursAt(s, k);
    CutIndex(s, i, j, at);
    if at > 0 { CutIndex(s, i, j, at - 1); }
    NeighboursAt(r, at);
  }

  lemma CutAfter(s: seq<Node>, i: nat, j: nat, k: nat)
    requires i < j <= |s| && NoDup(s) && k < |s| && (k < i || k >= j)
    ensures var r := Cut(s, i, j);
            && s[k] in r
            && After(r, s[k]) == (if k + 1 == i then After(s, s[j - 1]) else After(s, s[k]))
  {
    var r, at := Cut(s, i, j), CutAt(i, j, k);
    CutMembers(s, i, j);
    NeighboursAt(s, j - 1);
    NeighboursAt(s, k);
    CutIndex(s, i, j, at);
    if at + 1 < |r| { CutIndex(s, i, j, at + 1); }
    NeighboursAt(r, at);
  }

  lemma CutNeighbours(s: seq<Node>, i: nat, j: nat, k: nat)
    requires i < j <= |s| && NoDup(s) && k < |s| && (k < i || k >= j)
    ensures var r, m := Cut(s, i, j), s[k];
            && m in r && s[i] in s && s[j - 1] in s
            && Before(r, m) == (if k == j then Before(s, s[i]) else Before(s, m))
            && After(r, m) == (if k + 1 == i then After(s, s[j - 1]) else After(s, m))
  {
    CutBefore(s, i, j, k);
    CutAfter(s, i, j, k);
  }

  lemma CutEnds(s: seq<Node>, i: nat, j: nat)
    requires i < j <= |s| && NoDup(s)
    ensures s[i] in s && s[j - 1] in s
    ensures First(Cut(s, i, j)) == if i == 0 then After(s, s[j - 1]) else First(s)
    ensures Last(Cut(s, i, j)) == if j == |s| then Before(s, s[i]) else Last(s)
    ensures (i == 0 <==> Before(s, s[i]) == null) && (j == |s| <==> After(s, s[j - 1]) == null)
  {
    var r := Cut(s, i, j);
    NeighboursAt(s, i);
    NeighboursAt(s, j - 1);
    if r != [] {
      CutIndex(s, i, j, 0);
      CutIndex(s, i, j, |r| - 1);
    }
  }

  lemma JoinMembers(s: seq<Node>, t: seq<Node>)
    requires NoDup(s) && NoDup(t) && forall x :: x in t ==> x !in s
    ensures NoDup(s + t)
    ensures forall x :: x in s + t <==> x in s || x in t
  {
    var r := s + t;
    forall j, k | 0 <= j < k < |r|
      ensures r[j] != r[k]
    {
      assert j < |s| ==> r[j] in s;
      assert k >= |s| ==> r[k] in t;
    }
  }

  /** The neighbours of the nodes in front, in two rows put together. */
  lemma JoinFront(s: seq<Node>, t: seq<Node>, k: nat)
    requires NoDup(s) && NoDup(t) && (forall x :: x in t ==> x !in s) && t != [] && k < |s|
    ensures var r, m := s + t, s[k];
            && m in r
            && Before(r, m) == Before(s, m)
            && After(r, m) == (if k + 1 == |s| then t[0] else After(s, m))
  {
    JoinMembers(s, t);
    NeighboursAt(s, k);
    NeighboursAt(s + t, k);
  }

  lemma JoinEnds(s: seq<Node>, t: seq<Node>)
    requires t != []
    ensures First(s + t) == if s == [] then t[0] else First(s)
    ensures Last(s + t) == t[|t| - 1]
  {
  }

  lemma RangeEnds(s: seq<Node>, i: nat, j: nat)
    requires i < j <= |s|
    ensures s[i..j] != [] && s[i..j][0] == s[i] && s[i..j][|s[i..j]| - 1] == s[j - 1]
  {
  }

  /** The same, by the last node in front. */
  lemma TailLinks(s: seq<Node>, t: seq<Node>, m: Node)
    requires NoDup(s) && NoDup(t) && (forall x :: x in t ==> x !in s) && t != [] && m in s
    ensures m in s + t && Before(s + t, m) == Before(s, m)
    ensures After(s + t, m) == if m == Last(s) then t[0] else After(s, m)
  {
    var k := Index(s, m);
    IndexAt(s, |s| - 1);
    JoinFront(s, t, k);
  }

  lemma JoinBack(s: seq<Node>, t: seq<Node>, k: nat)
    requires NoDup(s) && NoDup(t) && (forall x :: x in t ==> x !in s) && k < |t|
    ensures var r, m := s + t, t[k];
            && m in r
            && Before(r, m) == (if k == 0 then Last(s) else Before(t, m))
            && After(r, m) == After(t, m)
  {
    JoinMembers(s, t);
    NeighboursAt(t, k);
    NeighboursAt(s + t, |s| + k);
  }

  /** Inside the range nothing changes but at its two ends. */
  lemma RangeNeighbours(s: seq<Node>, i: nat, j: nat, k: nat)
    requires i <= k < j <= |s| && NoDup(s)
    ensures var t, m := s[i..j], s[k];
            && m in t
            && Before(t, m) == (if k == i then null else Before(s, m))
            && After(t, m) == (if k + 1 == j then null else After(s, m))
  {
    CutMembers(s, i, j);
    NeighboursAt(s, k);
    assert s[i..j][k - i] == s[k];
    NeighboursAt(s[i..j], k - i);
  }

  // ---------------------------------------------------------------- the forest

  /** n lies at or below a node of the range. */
  ghost predicate UnderRange(f: Forest, n: Node, range: seq<Node>)
    requires WellFormed(f) && n in f.up
  {
    exists x :: x in range && Below(f, n, x)
  }

  /** The nodes at i..j in the row of p0 can move below pos. */
  ghost predicate CanReparent(f: Forest, pos: Node, p0: Node?, i: nat, j: nat) {
    && WellFormed(f)
    && pos in f.up && pos in f.rows && !Sentinel(f, pos)
    && p0 in f.rows && i < j <= |f.rows[p0]|
    && (forall x :: x in f.rows[p0][i..j] ==> !Sentinel(f, x))
    && !UnderRange(f, pos, f.rows[p0][i..j])
  }

  ghost function ReparentedRows(f: Forest, pos: Node, p0: Node?, i: nat, j: nat): map<Node?, seq<Node>>
    requires CanReparent(f, pos, p0, i, j)
  {
    var r := f.rows[p0 := Cut(f.rows[p0], i, j)];
    r[pos := r[pos] + f.rows[p0][i..j]]
  }

  ghost function Reparented(f: Forest, pos: Node, p0: Node?, i: nat, j: nat): Forest
    requires CanReparent(f, pos, p0, i, j)
  {
    var range := f.rows[p0][i..j];
    f.(rows := ReparentedRows(f, pos, p0, i, j),
       up := map m | m in f.up :: if m in range then pos else f.up[m],
       rank := map m | m in f.up :: if UnderRange(f, m, range) then f.limit + Rank(f, m) else Rank(f, m),
       limit := f.limit + f.limit)
  }

  /** The new row of r. */
  lemma ReparentedRow(f: Forest, pos: Node, p0: Node?, i: nat, j: nat, r: Node?)
    requires CanReparent(f, pos, p0, i, j) && r in f.rows
    ensures var s, range := ReparentedRows(f, pos, p0, i, j), f.rows[p0][i..j];
            && r in s && NoDup(s[r])
            && (forall x :: x in s[r] <==> (x in f.rows[r] && x !in range) || (r == pos && x in range))
  {
    var range := f.rows[p0][i..j];
    assert RowOk(f, r) && RowOk(f, p0) && RowOk(f, pos);
    CutMembers(f.rows[p0], i, j);
    if r == pos {
      JoinMembers(if pos == p0 then Cut(f.rows[p0], i, j) else f.rows[pos], range);
    }
  }

  lemma ReparentedNodeOk(f: Forest, pos: Node, p0: Node?, i: nat, j: nat, m: Node)
    requires CanReparent(f, pos, p0, i, j) && m in f.up
    ensures NodeOk(Reparented(f, pos, p0, i, j), m)
  {
    var range := f.rows[p0][i..j];
    assert NodeOk(f, m) && NodeOk(f, pos) && RowOk(f, p0);
    CutMembers(f.rows[p0], i, j);
    ReparentedRow(f, pos, p0, i, j, f.up[m]);
    ReparentedRow(f, pos, p0, i, j, pos);
    ReparentedRow(f, pos, p0, i, j, m);
    assert Below(f, m, m);
    UnderRangeOfParent(f, m, range);
  }

  /** A node outside the range lies below it exactly when its parent does. */
  lemma UnderRangeOfParent(f: Forest, m: Node, range: seq<Node>)
    requires WellFormed(f) && m in f.up
    ensures m in range ==> UnderRange(f, m, range)
    ensures m !in range && f.up[m] != null ==>
              f.up[m] in f.up && (UnderRange(f, m, range) <==> UnderRange(f, f.up[m], range))
    ensures m !in range && f.up[m] == null ==> !UnderRange(f, m, range)
  {
    assert NodeOk(f, m) && Below(f, m, m);
    if f.up[m] != null { assert NodeOk(f, f.up[m]); }
  }

  lemma ReparentedRowOk(f: Forest, pos: Node, p0: Node?, i: nat, j: nat, r: Node?)
    requires CanReparent(f, pos, p0, i, j) && r in f.rows
    ensures RowOk(Reparented(f, pos, p0, i, j), r)
  {
    assert RowOk(f, r) && RowOk(f, p0);
    CutMembers(f.rows[p0], i, j);
    ReparentedRow(f, pos, p0, i, j, r);
  }

  lemma CutKeepsEnds(s: seq<Node>, i: nat, j: nat)
    requires 0 < i < j < |s|
    ensures var r := Cut(s, i, j); |r| >= 2 && First(r) == First(s) && Last(r) == Last(s)
  {
    CutIndex(s, i, j, 0);
    CutIndex(s, i, j, |Cut(s, i, j)| - 1);
  }

  lemma ReparentedSentinels(f: Forest, pos: Node, p0: Node?, i: nat, j: nat)
    requires CanReparent(f, pos, p0, i, j)
    ensures Sentinels(Reparented(f, pos, p0, i, j))
  {
    assert NodeOk(f, f.head) && NodeOk(f, f.feet) && RowOk(f, null) && RowOk(f, p0);
    if p0 == null {
      var s := f.rows[null];
      assert s[i] in s[i..j] && s[j - 1] in s[i..j];
      assert i > 0 && j < |s|;
      CutKeepsEnds(s, i, j);
    } else {
      assert p0 != f.head && p0 != f.feet;
    }
  }

  lemma ReparentedWellFormed(f: Forest, pos: Node, p0: Node?, i: nat, j: nat)
    requires CanReparent(f, pos, p0, i, j)
    ensures WellFormed(Reparented(f, pos, p0, i, j))
  {
    var g := Reparented(f, pos, p0, i, j);
    ReparentedSentinels(f, pos, p0, i, j);
    forall m | m in g.up
      ensures NodeOk(g, m)
    {
      ReparentedNodeOk(f, pos, p0, i, j, m);
    }
    forall r | r in g.rows
      ensures RowOk(g, r)
    {
      ReparentedRowOk(f, pos, p0, i, j, r);
    }
  }

  /** What lies below pos afterwards: what did before, and the range with everything below it. */
  lemma {:induction false} BelowReparented(f: Forest, pos: Node, p0: Node?, i: nat, j: nat, n: Node)
    requires CanReparent(f, pos, p0, i, j) && WellFormed(Reparented(f, pos, p0, i, j)) && n in f.up
    ensures n in Reparented(f, pos, p0, i, j).up
    ensures Below(Reparented(f, pos, p0, i, j), n, pos) <==> Below(f, n, pos) || UnderRange(f, n, f.rows[p0][i..j])
    decreases Rank(f, n)
  {
    var g, range := Reparented(f, pos, p0, i, j), f.rows[p0][i..j];
    assert NodeOk(f, n) && NodeOk(g, n);
    UnderRangeOfParent(f, n, range);
    if n in range {
      assert Below(g, pos, pos);
    } else if f.up[n] != null {
      assert NodeOk(f, f.up[n]);
      BelowReparented(f, pos, p0, i, j, f.up[n]);
    }
  }

  // ---------------------------------------------------------------- the links

  /** The last child of pos once the range is out of its old row. */
  ghost function Tail(f: Forest, pos: Node, p0: Node?, i: nat, j: nat): Node?
    requires CanReparent(f, pos, p0, i, j)
  {
    Last(if pos == p0 then Cut(f.rows[p0], i, j) else f.rows[pos])
  }

  lemma MovedRangeLinks(f: Forest, pos: Node, p0: Node?, i: nat, j: nat, k: nat)
    requires CanReparent(f, pos, p0, i, j) && i <= k < j && WellFormed(Reparented(f, pos, p0, i, j))
    ensures var g, m := Reparented(f, pos, p0, i, j), f.rows[p0][k];
            && m in f.up && m in g.up && f.up[m] == p0 && g.up[m] == pos
            && Prev(g, m) == (if k == i then Tail(f, pos, p0, i, j) else Prev(f, m))
            && Next(g, m) == (if k + 1 == j then null else Next(f, m))
  {
    hide WellFormed, Cut, First, Before, After, UnderRange;
    var s, m := f.rows[p0], f.rows[p0][k];
    var range := s[i..j];
    RowIsOk(f, p0);
    RowIsOk(f, pos);
    assert m in s;
    NodeIsOk(f, m);
    NodeIsOk(Reparented(f, pos, p0, i, j), m);
    CutMembers(s, i, j);
    RangeNeighbours(s, i, j, k);
    assert range[k - i] == m;
    JoinBack(if pos == p0 then Cut(s, i, j) else f.rows[pos], range, k - i);
  }

  /** In the rows without the range. */
  lemma CutLinks(f: Forest, pos: Node, p0: Node?, i: nat, j: nat, m: Node)
    requires CanReparent(f, pos, p0, i, j) && m in f.up && f.up[m] in f.rows && m !in f.rows[p0][i..j]
    ensures var s, r := f.rows[p0], if f.up[m] == p0 then Cut(f.rows[p0], i, j) else f.rows[f.up[m]];
            && m in r && s[i] in s && s[j - 1] in s
            && Before(r, m) == (if m == After(s, s[j - 1]) then Before(s, s[i]) else Prev(f, m))
            && After(r, m) == (if m == Before(s, s[i]) then After(s, s[j - 1]) else Next(f, m))
  {
    var s := f.rows[p0];
    assert NodeOk(f, m) && RowOk(f, p0) && RowOk(f, f.up[m]);
    NeighboursAt(s, i);
    NeighboursAt(s, j - 1);
    if f.up[m] == p0 {
      var k := Index(s, m);
      InRange(s, i, j, k);
      if j < |s| { IndexAt(s, j); }
      if i > 0 { IndexAt(s, i - 1); }
      CutNeighbours(s, i, j, k);
    } else {
      assert forall x :: x in s ==> x in f.up && f.up[x] == p0;
    }
  }

  lemma NotTail(f: Forest, pos: Node, p0: Node?, i: nat, j: nat, m: Node)
    requires CanReparent(f, pos, p0, i, j) && m in f.up && f.up[m] != pos
    ensures m != Tail(f, pos, p0, i, j)
  {
    assert RowOk(f, pos);
    if pos == p0 { CutMembers(f.rows[p0], i, j); }
  }

  lemma OtherLinks(f: Forest, pos: Node, p0: Node?, i: nat, j: nat, m: Node)
    requires CanReparent(f, pos, p0, i, j) && m in f.up && m !in f.rows[p0][i..j] && WellFormed(Reparented(f, pos, p0, i, j))
    ensures var g, s := Reparented(f, pos, p0, i, j), f.rows[p0];
            && s[i] in s && s[j - 1] in s && m in g.up && g.up[m] == f.up[m]
            && Prev(g, m) == (if m == After(s, s[j - 1]) then Before(s, s[i]) else Prev(f, m))
            && Next(g, m) == (if m == Tail(f, pos, p0, i, j) then s[i]
                              else if m == Before(s, s[i]) then After(s, s[j - 1]) else Next(f, m))
  {
    hide WellFormed, Cut, First, Before, After, UnderRange;
    var g, s := Reparented(f, pos, p0, i, j), f.rows[p0];
    NodeIsOk(f, m);
    NodeIsOk(g, m);
    RowIsOk(f, p0);
    RowIsOk(f, pos);
    RowIsOk(f, f.up[m]);
    CutLinks(f, pos, p0, i, j, m);
    CutMembers(s, i, j);
    var r := if pos == p0 then Cut(s, i, j) else f.rows[pos];
    if f.up[m] == pos {
      TailLinks(r, s[i..j], m);
    } else {
      NotTail(f, pos, p0, i, j, m);
    }
  }

  lemma ReparentedEnds(f: Forest, pos: Node, p0: Node?, i: nat, j: nat, m: Node)
    requires CanReparent(f, pos, p0, i, j) && m in f.up && WellFormed(Reparented(f, pos, p0, i, j))
    ensures var g, s := Reparented(f, pos, p0, i, j), f.rows[p0];
            && s[i] in s && s[j - 1] in s && m in g.up
            && var first := if m == p0 && Before(s, s[i]) == null then After(s, s[j - 1]) else FirstKid(f, m);
            && FirstKid(g, m) == (if m == pos && first == null then s[i] else first)
            && LastKid(g, m) == (if m == pos then s[j - 1]
                                 else if m == p0 && After(s, s[j - 1]) == null then Before(s, s[i]) else LastKid(f, m))
  {
    hide WellFormed, Cut, Last, Before, After, UnderRange;
    var g, s := Reparented(f, pos, p0, i, j), f.rows[p0];
    NodeIsOk(f, m);
    NodeIsOk(g, m);
    RowIsOk(f, p0);
    var r := if m == p0 then Cut(s, i, j) else f.rows[m];
    CutEnds(s, i, j);
    RangeEnds(s, i, j);
    JoinEnds(r, s[i..j]);
    if m == pos {
      assert g.rows[m] == r + s[i..j];
    } else {
      assert g.rows[m] == r;
    }
  }

  // ---------------------------------------------------------------- the cells

  /** The range is taken out of its row. */
  ghost function CutCells(c: map<Node, Cell>, first: Node, last: Node): map<Node, Cell>
    requires first in c && last in c && EndsIn(c, first, last)
  {
    var prev, next, parent := c[first].prev, c[last].next, c[first].parent;
    var d := if prev != null then c[prev := c[prev].(next := next)]
             else c[parent := c[parent].(first := next)];
    if next != null then d[next := d[next].(prev := prev)] else d[parent := d[parent].(last := prev)]
  }

  ghost predicate EndsIn(c: map<Node, Cell>, first: Node, last: Node)
    requires first in c && last in c
  {
    && (c[first].prev != null ==> c[first].prev in c)
    && (c[last].next != null ==> c[last].next in c)
    && (c[first].parent != null ==> c[first].parent in c)
    && c[last].parent == c[first].parent
    && (c[first].parent == null ==> c[first].prev != null && c[last].next != null)
  }

  /** The range is hung behind the children of pos. */
  ghost function HungCells(d: map<Node, Cell>, pos: Node, first: Node, last: Node): map<Node, Cell>
    requires pos in d && first in d && last in d && (d[pos].last != null ==> d[pos].last in d)
  {
    var tail := d[pos].last;
    var e := if d[pos].first == null || tail == null then d[pos := d[pos].(first := first, last := last)]
             else var e0 := d[tail := d[tail].(next := first)]; e0[pos := e0[pos].(last := last)];
    var h := e[first := e[first].(prev := tail)];
    h[last := h[last].(next := null)]
  }

  /** One cell after the cut; the four updates never meet in a field. */
  lemma CutCell(c: map<Node, Cell>, first: Node, last: Node, m: Node)
    requires first in c && last in c && EndsIn(c, first, last) && m in c
    ensures var prev, next, parent := c[first].prev, c[last].next, c[first].parent;
            var d := CutCells(c, first, last);
            && m in d
            && d[m] == c[m]
                 .(first := if m == parent && prev == null then next else c[m].first,
                   last := if m == parent && next == null then prev else c[m].last,
                   prev := if m == next then prev else c[m].prev,
                   next := if m == prev then next else c[m].next)
  {
  }

  lemma HungCell(d: map<Node, Cell>, pos: Node, first: Node, last: Node, m: Node)
    requires pos in d && first in d && last in d && (d[pos].last != null ==> d[pos].last in d) && m in d
    requires d[pos].first == null <==> d[pos].last == null
    requires d[pos].last != last
    ensures var tail := d[pos].last;
            var h := HungCells(d, pos, first, last);
            && m in h
            && h[m] == d[m]
                 .(first := if m == pos && d[pos].first == null then first else d[m].first,
                   last := if m == pos then last else d[m].last,
                   prev := if m == first then tail else d[m].prev,
                   next := if m == last then null else if m == tail then first else d[m].next)
  {
  }

  ghost predicate Reparentable(c: map<Node, Cell>, pos: Node, range: seq<Node>) {
    && range != [] && pos in c
    && (forall x :: x in range ==> x in c && x != pos)
    && var first, last := range[0], range[|range| - 1];
    && EndsIn(c, first, last)
    && var d := CutCells(c, first, last);
    && first in d && last in d && pos in d
    && (d[pos].last != null ==> d[pos].last in d && d[pos].last !in range)
    && (d[pos].first == null <==> d[pos].last == null)
    && d[pos].last != pos && c[first].prev !in range
    && d[first].prev == c[first].prev && d[last].next == c[last].next
  }

  ghost function ReparentedCells(c: map<Node, Cell>, pos: Node, range: seq<Node>): map<Node, Cell>
    requires Reparentable(c, pos, range)
  {
    var first, last := range[0], range[|range| - 1];
    Adopted(HungCells(CutCells(c, first, last), pos, first, last), range, |range|, pos)
  }

  /** The cells at the ends of the range, and what they say about its neighbours. */
  lemma RangeCells(f: Forest, c: map<Node, Cell>, pos: Node, p0: Node?, i: nat, j: nat)
    requires Describes(f, c) && CanReparent(f, pos, p0, i, j)
    ensures var s := f.rows[p0];
            && s[i] in s && s[j - 1] in s && s[i] in f.up && s[j - 1] in f.up && s[i] in c && s[j - 1] in c
            && c[s[i]].prev == Before(s, s[i]) && c[s[j - 1]].next == After(s, s[j - 1])
            && c[s[i]].parent == c[s[j - 1]].parent == p0
            && EndsIn(c, s[i], s[j - 1])
  {
    var s := f.rows[p0];
    assert RowOk(f, p0);
    assert s[i] in s && s[j - 1] in s;
    var first, last := s[i], s[j - 1];
    RangeEnds(s, i, j);
    assert first in s[i..j] && last in s[i..j];
    assert c[first] == CellOf(f, first) && c[last] == CellOf(f, last);
    LinksStayInside(f, c, first);
    LinksStayInside(f, c, last);
    if p0 == null {
      TopNeighbours(f, first);
      TopNeighbours(f, last);
    }
  }

  /** The last child of pos after the cut, as the cells have it. */
  lemma CutTail(f: Forest, c: map<Node, Cell>, pos: Node, p0: Node?, i: nat, j: nat)
    requires Describes(f, c) && CanReparent(f, pos, p0, i, j)
    ensures var s := f.rows[p0];
            && s[i] in c && s[j - 1] in c && EndsIn(c, s[i], s[j - 1])
            && var d := CutCells(c, s[i], s[j - 1]);
            && pos in d && d[pos].last == Tail(f, pos, p0, i, j)
            && (d[pos].first == null <==> d[pos].last == null)
            && (d[pos].last != null ==> d[pos].last in c && d[pos].last !in s[i..j] && d[pos].last != pos)
  {
    var s := f.rows[p0];
    RangeCells(f, c, pos, p0, i, j);
    assert RowOk(f, p0) && RowOk(f, pos) && NodeOk(f, pos);
    assert c[pos] == CellOf(f, pos);
    CutCell(c, s[i], s[j - 1], pos);
    CutEnds(s, i, j);
    CutMembers(s, i, j);
    var r := if pos == p0 then Cut(s, i, j) else f.rows[pos];
    if r != [] {
      assert r[|r| - 1] in r && r[|r| - 1] in f.rows[pos];
      assert NodeOk(f, r[|r| - 1]);
    }
  }

  lemma ReparentAllowed(f: Forest, c: map<Node, Cell>, pos: Node, p0: Node?, i: nat, j: nat)
    requires Describes(f, c) && CanReparent(f, pos, p0, i, j)
    ensures Reparentable(c, pos, f.rows[p0][i..j])
  {
    var s := f.rows[p0];
    RangeEnds(s, i, j);
    RangeCells(f, c, pos, p0, i, j);
    CutTail(f, c, pos, p0, i, j);
    CutCell(c, s[i], s[j - 1], s[i]);
    CutCell(c, s[i], s[j - 1], s[j - 1]);
    RangeIsElsewhere(f, c, pos, p0, i, j);
  }

  lemma RangeIsElsewhere(f: Forest, c: map<Node, Cell>, pos: Node, p0: Node?, i: nat, j: nat)
    requires Describes(f, c) && CanReparent(f, pos, p0, i, j)
    ensures pos in c && forall x :: x in f.rows[p0][i..j] ==> x in c && x != pos && x != p0
    ensures var s := f.rows[p0];
            && s[i] in s && s[j - 1] in s && Before(s, s[i]) !in s[i..j] && After(s, s[j - 1]) !in s[i..j]
  {
    hide Cut, Before, After, CellOf;
    var s := f.rows[p0];
    RowIsOk(f, p0);
    CutMembers(s, i, j);
    NeighboursAt(s, i);
    NeighboursAt(s, j - 1);
    forall x | x in s[i..j]
      ensures x in c && x != pos && x != p0
      ensures x != Before(s, s[i]) && x != After(s, s[j - 1])
    {
      NodeIsOk(f, x);
      assert Below(f, pos, pos);
      var k := Index(s[i..j], x);
      assert s[i + k] == x;
      if p0 != null { assert NodeOk(f, p0); }
    }
  }

  /** What the cell of m looks like once the range hangs below pos. */
  ghost function HungShape(f: Forest, pos: Node, p0: Node?, i: nat, j: nat, m: Node): Cell
    requires CanReparent(f, pos, p0, i, j) && m in f.up && f.rows[p0][i] in f.rows[p0] && f.rows[p0][j - 1] in f.rows[p0]
  {
    assert NodeOk(f, m);
    var s := f.rows[p0];
    var first := if m == p0 && Before(s, s[i]) == null then After(s, s[j - 1]) else FirstKid(f, m);
    Cell(f.up[m],
         if m == pos && first == null then s[i] else first,
         if m == pos then s[j - 1]
         else if m == p0 && After(s, s[j - 1]) == null then Before(s, s[i]) else LastKid(f, m),
         if m == s[i] then Tail(f, pos, p0, i, j)
         else if m == After(s, s[j - 1]) then Before(s, s[i]) else Prev(f, m),
         if m == s[j - 1] then null
         else if m == Tail(f, pos, p0, i, j) then s[i]
         else if m == Before(s, s[i]) then After(s, s[j - 1]) else Next(f, m),
         f.item[m])
  }

  /** The cells once the range hangs below pos, before its nodes point to pos. */
  lemma HungRange(f: Forest, c: map<Node, Cell>, pos: Node, p0: Node?, i: nat, j: nat, m: Node)
    requires Describes(f, c) && CanReparent(f, pos, p0, i, j) && Reparentable(c, pos, f.rows[p0][i..j]) && m in f.up
    ensures var s := f.rows[p0];
            && s[i] in s && s[j - 1] in s && s[i] in c && s[j - 1] in c && EndsIn(c, s[i], s[j - 1])
            && var d := CutCells(c, s[i], s[j - 1]);
            && pos in d && s[i] in d && s[j - 1] in d && (d[pos].last != null ==> d[pos].last in d)
            && var h := HungCells(d, pos, s[i], s[j - 1]);
            && m in h && h[m] == HungShape(f, pos, p0, i, j, m)
  {
    var s := f.rows[p0];
    RangeEnds(s, i, j);
    RangeCells(f, c, pos, p0, i, j);
    CutTail(f, c, pos, p0, i, j);
    assert NodeOk(f, m);
    assert c[m] == CellOf(f, m) && c[pos] == CellOf(f, pos);
    var d := CutCells(c, s[i], s[j - 1]);
    CutCell(c, s[i], s[j - 1], m);
    CutCell(c, s[i], s[j - 1], pos);
    HungCell(d, pos, s[i], s[j - 1], m);
  }

  lemma AdoptedHere(c: map<Node, Cell>, pos: Node, range: seq<Node>, m: Node)
    requires Reparentable(c, pos, range) && m in range
    requires m in HungCells(CutCells(c, range[0], range[|range| - 1]), pos, range[0], range[|range| - 1])
    ensures m in ReparentedCells(c, pos, range)
    ensures ReparentedCells(c, pos, range)[m] ==
            HungCells(CutCells(c, range[0], range[|range| - 1]), pos, range[0], range[|range| - 1])[m].(parent := pos)
  {
    hide HungCells, CutCells, EndsIn;
    assert range[..|range|] == range;
  }

  /** Of the neighbours of a node in the range only those outside of it change. */
  lemma HungInside(f: Forest, c: map<Node, Cell>, pos: Node, p0: Node?, i: nat, j: nat, at: nat, m: Node)
    requires Describes(f, c) && CanReparent(f, pos, p0, i, j) && i <= at < j && m == f.rows[p0][at]
    ensures f.rows[p0][i] in f.rows[p0] && f.rows[p0][j - 1] in f.rows[p0] && m in f.up && m in f.item
    ensures HungShape(f, pos, p0, i, j, m).(parent := pos) ==
            Cell(pos, FirstKid(f, m), LastKid(f, m),
                 if at == i then Tail(f, pos, p0, i, j) else Prev(f, m),
                 if at + 1 == j then null else Next(f, m), f.item[m])
  {
    hide Describes, Tail, Before, After, FirstKid, LastKid, Prev, Next;
    var s := f.rows[p0];
    InRange(s, i, j, at);
    assert RowOk(f, p0) && NodeOk(f, m);
    RangeIsElsewhere(f, c, pos, p0, i, j);
    TailIsElsewhere(f, c, pos, p0, i, j);
    EndsOfRange(s, i, j, at, m);
  }

  lemma TailIsElsewhere(f: Forest, c: map<Node, Cell>, pos: Node, p0: Node?, i: nat, j: nat)
    requires Describes(f, c) && CanReparent(f, pos, p0, i, j)
    ensures Tail(f, pos, p0, i, j) !in f.rows[p0][i..j]
  {
    hide Tail, Describes, CutCells, EndsIn;
    CutTail(f, c, pos, p0, i, j);
  }

  /** The same for a node of the range. */
  lemma HungMoved(f: Forest, c: map<Node, Cell>, pos: Node, p0: Node?, i: nat, j: nat, at: nat, m: Node)
    requires Describes(f, c) && CanReparent(f, pos, p0, i, j) && Reparentable(c, pos, f.rows[p0][i..j])
    requires i <= at < j && m == f.rows[p0][at]
    ensures m in f.up && m in f.item && m in ReparentedCells(c, pos, f.rows[p0][i..j])
    ensures ReparentedCells(c, pos, f.rows[p0][i..j])[m] ==
            Cell(pos, FirstKid(f, m), LastKid(f, m),
                 if at == i then Tail(f, pos, p0, i, j) else Prev(f, m),
                 if at + 1 == j then null else Next(f, m), f.item[m])
  {
    hide WellFormed, Describes, Reparented, CutCells, HungCells, ReparentedCells, HungShape, CellOf, Reparentable, EndsIn, Below, RowOk, NodeOk;
    var s := f.rows[p0];
    var range := s[i..j];
    RangeEnds(s, i, j);
    InRange(s, i, j, at);
    HungInside(f, c, pos, p0, i, j, at, m);
    HungRange(f, c, pos, p0, i, j, m);
    AdoptedHere(c, pos, range, m);
  }

  lemma MovedEnds(f: Forest, pos: Node, p0: Node?, i: nat, j: nat, m: Node)
    requires CanReparent(f, pos, p0, i, j) && m in f.up && m in f.rows[p0][i..j] && WellFormed(Reparented(f, pos, p0, i, j))
    ensures FirstKid(Reparented(f, pos, p0, i, j), m) == FirstKid(f, m)
    ensures LastKid(Reparented(f, pos, p0, i, j), m) == LastKid(f, m)
  {
    assert RowOk(f, p0) && NodeOk(f, m) && Below(f, pos, pos) && NodeOk(Reparented(f, pos, p0, i, j), m);
    CutMembers(f.rows[p0], i, j);
    assert f.up[m] == p0;
    if p0 != null { assert NodeOk(f, p0); }
  }

  lemma ReparentMovedCell(f: Forest, c: map<Node, Cell>, pos: Node, p0: Node?, i: nat, j: nat, at: nat, m: Node)
    requires Describes(f, c) && CanReparent(f, pos, p0, i, j) && Reparentable(c, pos, f.rows[p0][i..j])
    requires WellFormed(Reparented(f, pos, p0, i, j)) && i <= at < j && m == f.rows[p0][at]
    ensures m in f.up && m in ReparentedCells(c, pos, f.rows[p0][i..j])
    ensures ReparentedCells(c, pos, f.rows[p0][i..j])[m] == CellOf(Reparented(f, pos, p0, i, j), m)
  {
    InRange(f.rows[p0], i, j, at);
    HungMoved(f, c, pos, p0, i, j, at, m);
    MovedEnds(f, pos, p0, i, j, m);
    MovedRangeLinks(f, pos, p0, i, j, at);
  }

  /** The cell of a node outside of the range, part by part. */
  lemma OtherCellParts(f: Forest, pos: Node, p0: Node?, i: nat, j: nat, m: Node)
    requires CanReparent(f, pos, p0, i, j) && m in f.up && m !in f.rows[p0][i..j] && WellFormed(Reparented(f, pos, p0, i, j))
    ensures var s := f.rows[p0];
            && s[i] in s && s[j - 1] in s && CellOf(Reparented(f, pos, p0, i, j), m) == HungShape(f, pos, p0, i, j, m)
  {
    hide WellFormed, Prev, Next, Tail, Before, After;
    var s := f.rows[p0];
    RangeEnds(s, i, j);
    assert s[i] in s[i..j] && s[j - 1] in s[i..j];
    assert m != s[i] && m != s[j - 1];
    ReparentedEnds(f, pos, p0, i, j, m);
    OtherLinks(f, pos, p0, i, j, m);
  }

  lemma AdoptedElsewhere(c: map<Node, Cell>, pos: Node, range: seq<Node>, m: Node)
    requires Reparentable(c, pos, range) && m !in range
    requires m in HungCells(CutCells(c, range[0], range[|range| - 1]), pos, range[0], range[|range| - 1])
    ensures m in ReparentedCells(c, pos, range)
    ensures ReparentedCells(c, pos, range)[m] ==
            HungCells(CutCells(c, range[0], range[|range| - 1]), pos, range[0], range[|range| - 1])[m]
  {
  }

  lemma ReparentOtherCell(f: Forest, c: map<Node, Cell>, pos: Node, p0: Node?, i: nat, j: nat, m: Node)
    requires Describes(f, c) && CanReparent(f, pos, p0, i, j) && Reparentable(c, pos, f.rows[p0][i..j])
    requires m in f.up && WellFormed(Reparented(f, pos, p0, i, j)) && m !in f.rows[p0][i..j]
    ensures m in ReparentedCells(c, pos, f.rows[p0][i..j])
    ensures ReparentedCells(c, pos, f.rows[p0][i..j])[m] == CellOf(Reparented(f, pos, p0, i, j), m)
  {
    hide WellFormed, Describes, Reparented, CutCells, HungCells, ReparentedCells, HungShape, CellOf, Reparentable, EndsIn, Below, RowOk, NodeOk;
    var s := f.rows[p0];
    var range := s[i..j];
    RangeEnds(s, i, j);
    HungRange(f, c, pos, p0, i, j, m);
    AdoptedElsewhere(c, pos, range, m);
    OtherCellParts(f, pos, p0, i, j, m);
  }

  lemma ReparentCell(f: Forest, c: map<Node, Cell>, pos: Node, p0: Node?, i: nat, j: nat, m: Node)
    requires Describes(f, c) && CanReparent(f, pos, p0, i, j) && Reparentable(c, pos, f.rows[p0][i..j])
    requires m in f.up && WellFormed(Reparented(f, pos, p0, i, j))
    ensures m in ReparentedCells(c, pos, f.rows[p0][i..j])
    ensures ReparentedCells(c, pos, f.rows[p0][i..j])[m] == CellOf(Reparented(f, pos, p0, i, j), m)
  {
    if m in f.rows[p0][i..j] {
      ReparentMovedCell(f, c, pos, p0, i, j, Position(f.rows[p0], i, j, m), m);
    } else {
      ReparentOtherCell(f, c, pos, p0, i, j, m);
    }
  }

  lemma ReparentDescribes(f: Forest, c: map<Node, Cell>, pos: Node, p0: Node?, i: nat, j: nat)
    requires Describes(f, c) && CanReparent(f, pos, p0, i, j) && Reparentable(c, pos, f.rows[p0][i..j])
    ensures Describes(Reparented(f, pos, p0, i, j), ReparentedCells(c, pos, f.rows[p0][i..j]))
  {
    hide WellFormed, CellOf, ReparentedCells, Reparentable, UnderRange;
    var g, d := Reparented(f, pos, p0, i, j), ReparentedCells(c, pos, f.rows[p0][i..j]);
    ReparentedWellFormed(f, pos, p0, i, j);
    ReparentedKeys(c, pos, f.rows[p0][i..j]);
    forall m | m in d
      ensures m in g.up
    {
      assert m in d.Keys;
      assert m in c && m in f.up;
    }
    forall m | m in g.up
      ensures m in d && d[m] == CellOf(g, m)
    {
      ReparentCell(f, c, pos, p0, i, j, m);
    }
    CellByCell(g, d);
  }

  lemma ReparentedKeys(c: map<Node, Cell>, pos: Node, range: seq<Node>)
    requires Reparentable(c, pos, range)
    ensures ReparentedCells(c, pos, range).Keys == c.Keys
  {
  }

  lemma EndsOfRange(s: seq<Node>, i: nat, j: nat, at: nat, m: Node)
    requires i <= at < j <= |s| && NoDup(s) && s[at] == m
    ensures m == s[i] <==> at == i
    ensures m == s[j - 1] <==> at + 1 == j
  {
    IndexAt(s, at);
    IndexAt(s, i);
    IndexAt(s, j - 1);
  }

  // ---------------------------------------------------------------- walking the range

  /** The cells of the range are linked in its order. */
  ghost predicate Chained(c: map<Node, Cell>, range: seq<Node>) {
    && range != [] && NoDup(range)
    && (forall k :: 0 <= k < |range| ==> range[k] in c)
    && (forall k :: 0 <= k < |range| - 1 ==> c[range[k]].next == range[k + 1])
  }

  lemma RangeIsChained(f: Forest, c: map<Node, Cell>, p0: Node?, i: nat, j: nat)
    requires Describes(f, c) && p0 in f.rows && i < j <= |f.rows[p0]|
    ensures Chained(c, f.rows[p0][i..j])
    ensures f.rows[p0][i..j][0] == f.rows[p0][i] && f.rows[p0][i..j][j - i - 1] == f.rows[p0][j - 1]
  {
    var s := f.rows[p0];
    var range := s[i..j];
    assert RowOk(f, p0);
    CutMembers(s, i, j);
    forall k | 0 <= k < |range|
      ensures range[k] in c
      ensures k < |range| - 1 ==> c[range[k]].next == range[k + 1]
    {
      assert range[k] == s[i + k] && s[i + k] in s;
      RowLink(f, p0, i + k);
      assert c[s[i + k]] == CellOf(f, s[i + k]);
    }
  }

  /** Cutting the range out and hanging it elsewhere leaves the links inside it. */
  lemma StillChained(c: map<Node, Cell>, pos: Node, range: seq<Node>)
    requires Reparentable(c, pos, range) && Chained(c, range)
    ensures var d := CutCells(c, range[0], range[|range| - 1]);
            && pos in d && range[0] in d && range[|range| - 1] in d
            && (d[pos].last != null ==> d[pos].last in d)
            && d[pos].last != range[0] && d[pos].last != range[|range| - 1]
            && range[0] != pos && range[|range| - 1] != pos
            && Chained(HungCells(d, pos, range[0], range[|range| - 1]), range)
  {
    var first, last := range[0], range[|range| - 1];
    var d := CutCells(c, first, last);
    var h := HungCells(d, pos, first, last);
    assert first in range && last in range;
    forall k | 0 <= k < |range|
      ensures range[k] in h
      ensures k < |range| - 1 ==> h[range[k]].next == range[k + 1]
    {
      var m := range[k];
      assert m in range;
      CutCell(c, first, last, m);
      HungCell(d, pos, first, last, m);
      IndexAt(range, k);
      IndexAt(range, |range| - 1);
    }
  }

  lemma AdoptInRange(c: map<Node, Cell>, range: seq<Node>, k: nat, pos: Node)
    requires Chained(c, range) && k < |range|
    ensures var d := Adopted(c, range, k, pos);
            && range[k] in d && (k + 1 < |range| ==> d[range[k]].next == range[k + 1] && range[k + 1] in c)
            && (range[k] == range[|range| - 1] <==> k + 1 == |range|)
            && Adopted(c, range, k + 1, pos) == d[range[k] := d[range[k]].(parent := pos)]
  {
    assert range[..k + 1] == range[..k] + [range[k]];
    IndexAt(range, k);
    IndexAt(range, |range| - 1);
  }
}
