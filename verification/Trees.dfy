/** tree<FILE_ITEM> of src/tree.hh: cells with five links, updated in place, between the two
    sentinels head and feet. Every operation is proved to leave the cells in exact agreement with
    one operation on the abstract forest. */
module Trees {
  import opened Nodes
  import opened Rows
  import opened Forests
  import opened Ancestry
  import opened PreOrders
  import opened Erasure
  import opened Flattening
  import opened Reparenting
  import opened Replanting
  import opened Copying

  class Tree {
    const head: Node
    const feet: Node
    ghost var cells: map<Node, Cell>
    ghost var f: Forest

    /** Each live cell holds its recorded value. */
    ghost predicate Linked()
      reads this, cells.Keys
    {
      forall n {:trigger n.Value()} :: n in cells ==> n.Value() == cells[n]
    }

    ghost predicate Valid()
      reads this, cells.Keys
    {
      && f.head == head && f.feet == feet
      && Describes(f, cells)
      && Linked()
    }

    /** head_initialise_. */
    constructor ()
      ensures Valid()
      ensures fresh(head) && fresh(feet)
      ensures f == Empty(head, feet)
    {
      var h := new Node(NO_ITEM);
      var t := new Node(NO_ITEM);
      h.nextSibling := t;
      t.prevSibling := h;
      head, feet := h, t;
      f := Empty(h, t);
      EmptyDescribes(h, t);
      cells := map[h := Cell(null, null, null, null, t, NO_ITEM), t := Cell(null, null, null, h, null, NO_ITEM)];
    }

    /** The assignments of append_child. */
    method AppendCell(position: Node, x: Item) returns (tmp: Node)
      requires Linked()
      requires position in cells
      requires cells[position].last != null ==> cells[position].last in cells && cells[position].last != position
      modifies this`cells, cells.Keys
      ensures Linked()
      ensures fresh(tmp)
      ensures cells == AppendedCells(old(cells), position, tmp, x)
    {
      assert position.Value() == cells[position];
      tmp := new Node(x);
      tmp.parent := position;
      if position.lastChild != null {
        position.lastChild.nextSibling := tmp;
      } else {
        position.firstChild := tmp;
      }
      tmp.prevSibling := position.lastChild;
      position.lastChild := tmp;
      tmp.nextSibling := null;
      ghost var c := AppendedCells(cells, position, tmp, x);
      forall n | n in c
        ensures n.Value() == c[n]
      {
        assert n in cells ==> old(n.Value()) == cells[n];
      }
      cells := c;
    }

    /** append_child(position, x). */
    method AppendChild(position: Node, x: Item) returns (tmp: Node)
      requires Valid()
      requires position in f.rows && !Sentinel(f, position)
      modifies this, cells.Keys
      ensures Valid()
      ensures fresh(tmp) && fresh(cells.Keys - old(cells.Keys))
      ensures CanAttach(old(f), position, |old(f).rows[position]|, tmp)
      ensures f == Attach(old(f), position, |old(f).rows[position]|, tmp, x)
    {
      hide WellFormed, AppendedCells, CellOf;
      RowIsOk(f, position);
      LinksStayInside(f, cells, position);
      ghost var c := cells;
      tmp := AppendCell(position, x);
      AppendDescribes(f, c, position, tmp, x);
      f := Attach(f, position, |f.rows[position]|, tmp, x);
    }

    /** The assignments of insert. */
    method InsertCell(position: Node, x: Item) returns (tmp: Node)
      requires Linked()
      requires position in cells && LinksIn(cells, position)
      modifies this`cells, cells.Keys
      ensures Linked()
      ensures fresh(tmp)
      ensures cells == InsertedCells(old(cells), position, tmp, x)
    {
      assert position.Value() == cells[position];
      tmp := new Node(x);
      tmp.parent := position.parent;
      tmp.nextSibling := position;
      tmp.prevSibling := position.prevSibling;
      position.prevSibling := tmp;
      if tmp.prevSibling == null {
        if tmp.parent != null { // the new first child; null in the top row
          tmp.parent.firstChild := tmp;
        }
      } else {
        tmp.prevSibling.nextSibling := tmp;
      }
      ghost var c := InsertedCells(cells, position, tmp, x);
      forall n | n in c
        ensures n.Value() == c[n]
      {
        assert n in cells ==> old(n.Value()) == cells[n];
      }
      cells := c;
    }

    /** insert(position, x): a new leaf right before position; a null position stands for feet. */
    method Insert(position: Node?, x: Item) returns (tmp: Node)
      requires Valid()
      requires position != null ==> position in f.up && position != head
      modifies this, cells.Keys
      ensures Valid()
      ensures fresh(tmp)
      ensures var at := if position == null then feet else position;
              && at in old(f).up && CanAttach(old(f), old(f).up[at], Place(old(f), at), tmp)
              && f == Attach(old(f), old(f).up[at], Place(old(f), at), tmp, x)
    {
      var at := position;
      if at == null {
        at := feet;
      }
      tmp := InsertAtNode(at, x);
    }

    method InsertAtNode(position: Node, x: Item) returns (tmp: Node)
      requires Valid()
      requires position in f.up && position != head
      modifies this, cells.Keys
      ensures Valid()
      ensures fresh(tmp)
      ensures CanAttach(old(f), old(f).up[position], Place(old(f), position), tmp)
      ensures f == Attach(old(f), old(f).up[position], Place(old(f), position), tmp, x)
    {
      LinksStayInside(f, cells, position);
      ghost var c := cells;
      tmp := InsertCell(position, x);
      InsertDescribes(f, c, position, tmp, x);
      f := Attach(f, f.up[position], Place(f, position), tmp, x);
    }

    /** set_head(x), on an empty tree. */
    method SetHead(x: Item) returns (tmp: Node)
      requires Valid()
      requires f.rows[null] == [head, feet]
      modifies this, cells.Keys
      ensures Valid()
      ensures fresh(tmp)
      ensures CanAttach(old(f), null, 1, tmp)
      ensures f == Attach(old(f), null, 1, tmp, x)
    {
      assert RowOk(f, null) && NodeOk(f, feet);
      IndexAt(f.rows[null], 1);
      tmp := Insert(feet, x);
    }

    /** The assignments with which move_after links src behind dst. */
    method LinkCells(dst: Node, src: Node)
      requires Linked()
      requires dst in cells && src in cells && dst != src && LinksIn(cells, dst)
      requires cells[dst].next != src && cells[dst].parent != src
      requires cells[dst].next != null || cells[dst].parent != null
      modifies this`cells, cells.Keys
      ensures Linked()
      ensures cells == LinkedCells(old(cells), dst, src)
    {
      assert dst.Value() == cells[dst] && src.Value() == cells[src];
      if dst.nextSibling != null {
        dst.nextSibling.prevSibling := src;
      } else {
        dst.parent.lastChild := src;
      }
      src.nextSibling := dst.nextSibling;
      dst.nextSibling := src;
      src.prevSibling := dst;
      src.parent := dst.parent;
      ghost var c := LinkedCells(cells, dst, src);
      forall n | n in c
        ensures n.Value() == c[n]
      {
        assert n in cells ==> old(n.Value()) == cells[n];
      }
      cells := c;
    }

    /** All assignments of move_after. */
    method MoveCells(dst: Node, src: Node)
      requires Linked()
      requires Movable(cells, dst, src)
      modifies this`cells, cells.Keys
      ensures Linked()
      ensures cells == MovedCells(old(cells), dst, src)
    {
      UnlinkCells(src);
      LinkCells(dst, src);
    }

    /** move_after(dst, src). */
    method MoveAfter(dst: Node, src: Node)
      requires Valid()
      requires dst in f.up && src in f.up
      requires dst == src || CanMove(f, dst, src)
      modifies this, cells.Keys
      ensures Valid()
      ensures f == MovedAfter(old(f), dst, src)
    {
      assert dst.Value() == cells[dst] == CellOf(f, dst);
      if dst != src && dst.nextSibling != src { // otherwise src is where it should be
        Relink(dst, src);
      }
    }

    method Relink(dst: Node, src: Node)
      requires Valid() && CanMove(f, dst, src) && dst != src
      modifies this, cells.Keys
      ensures Valid()
      ensures f == Forests.MoveAfter(old(f), dst, src)
    {
      hide WellFormed, MovedCells, CellOf, Unlinked, Movable;
      ghost var c := cells;
      MoveAllowed(f, c, dst, src);
      MoveCells(dst, src);
      MoveDescribes(f, c, dst, src);
      f := Forests.MoveAfter(f, dst, src);
    }

    /** The two statements with which erase and move_after take a node out of its row. */
    method UnlinkCells(src: Node)
      requires Linked()
      requires src in cells && LinksIn(cells, src)
      requires cells[src].parent == null ==> cells[src].prev != null && cells[src].next != null
      modifies this`cells, cells.Keys
      ensures Linked()
      ensures cells == UnlinkedCells(old(cells), src)
    {
      assert src.Value() == cells[src];
      if src.prevSibling != null {
        src.prevSibling.nextSibling := src.nextSibling;
      } else {
        src.parent.firstChild := src.nextSibling;
      }
      if src.nextSibling != null {
        src.nextSibling.prevSibling := src.prevSibling;
      } else {
        src.parent.lastChild := src.prevSibling;
      }
      ghost var c := UnlinkedCells(cells, src);
      forall n | n in c
        ensures n.Value() == c[n]
      {
        assert n in cells ==> old(n.Value()) == cells[n];
      }
      cells := c;
    }

    /** erase_children(it). A freed cell leaves the ghost map `cells`, and every cell read or
        written is still in that map: nothing is used after it is freed. */
    method EraseChildren(it: Node)
      requires Linked()
      requires WellFormed(f) && it in f.up && it in f.rows && it in cells && Intact(f, cells, it)
      modifies this`cells, cells.Keys
      ensures Linked()
      ensures cells == Childless(f, old(cells), it)
      decreases Height(f, it), 1
    {
      ghost var c := cells;
      ghost var i := 0;
      assert it.Value() == cells[it];
      FirstKidInTurn(f, c, it);
      var cur := it.firstChild;
      while cur != null
        invariant i <= |f.rows[it]|
        invariant cur == if i == |f.rows[it]| then null else f.rows[it][i]
        invariant cells == Survivors(f, c, it, i)
        invariant Linked()
        decreases |f.rows[it]| - i
      {
        cur := EraseKid(it, cur, c, i);
        i := i + 1;
      }
      NoKidLeft(f, c, it);
      ForgetChildren(it);
    }

    /** One turn of the loop: the child is erased with its subtree, and its next sibling is the next one. */
    method EraseKid(it: Node, cur: Node, ghost c: map<Node, Cell>, ghost i: nat) returns (next: Node?)
      requires Linked()
      requires WellFormed(f) && it in f.up && it in f.rows && Intact(f, c, it)
      requires i < |f.rows[it]| && cur == f.rows[it][i] && cells == Survivors(f, c, it, i)
      modifies this`cells, cells.Keys
      ensures Linked() && cells == Survivors(f, c, it, i + 1)
      ensures next == if i + 1 == |f.rows[it]| then null else f.rows[it][i + 1]
      decreases Height(f, it), 0
    {
      KidsInTurn(f, c, it, i);
      assert cur in cells && cur.Value() == cells[cur];
      var prev := cur;
      next := cur.nextSibling;
      EraseSubtree(prev);
      OneKidLess(f, c, it, i);
    }

    /** The children of prev go first, then prev is freed. */
    method EraseSubtree(prev: Node)
      requires Linked()
      requires WellFormed(f) && prev in f.up && prev in f.rows && Intact(f, cells, prev)
      modifies this`cells, cells.Keys
      ensures Linked()
      ensures prev in old(cells) && cells == Childless(f, old(cells), prev) - {prev}
      decreases Height(f, prev), 2
    {
      assert NodeOk(f, prev) && Below(f, prev, prev);
      assert CellOf(f, prev) == cells[prev];
      EraseChildren(prev);
      cells := cells - {prev};
    }

    /** The last two statements of erase_children. */
    method ForgetChildren(it: Node)
      requires Linked() && it in cells
      modifies this`cells, cells.Keys
      ensures Linked()
      ensures cells == old(cells)[it := old(cells)[it].(first := null, last := null)]
    {
      assert it.Value() == cells[it];
      it.firstChild := null;
      it.lastChild := null;
      ghost var c := cells[it := cells[it].(first := null, last := null)];
      forall n | n in c
        ensures n.Value() == c[n]
      {
        assert old(n.Value()) == cells[n];
      }
      cells := c;
    }

    /** erase(it): cuts the nodes of the subtree out of the pre-order, where they stand side by side, and
        returns the one that stood behind them. */
    method Erase(it: Node) returns (ret: Node, ghost before: seq<Node>, ghost after: seq<Node>)
      requires Valid() && CanErase(f, it)
      modifies this, cells.Keys
      ensures Valid()
      ensures f == Erased(old(f), it)
      ensures it in old(f).rows && PreOrder(old(f)) == before + ([it] + PreRow(old(f), it, 0)) + after
      ensures PreOrder(f) == before + after
      ensures after != [] && ret == after[0]
    {
      before, after := ErasedPreOrder(f, it);
      var next := NextAfterSubtree(it);
      ret := next;
      EraseSubtreeOf(it);
    }

    /** The node an iterator at it moves to when it passes over the children. */
    method NextAfterSubtree(it: Node) returns (ret: Node?)
      requires Valid() && it in f.up
      ensures ret == SkipNext(f, it)
    {
      var walk := new PreOrderIterator(it);
      walk.skip := true;
      walk.Increment(this);
      ret := walk.node;
    }

    method EraseSubtreeOf(it: Node)
      requires Valid() && CanErase(f, it)
      modifies this, cells.Keys
      ensures Valid()
      ensures f == Erased(old(f), it)
    {
      hide WellFormed, ErasedCells, CellOf, Below;
      ghost var c := cells;
      EraseCells(it);
      ErasedDescribes(f, c, it);
      f := Erased(f, it);
    }

    /** All assignments of erase. */
    method EraseCells(it: Node)
      requires Valid() && CanErase(f, it)
      modifies this`cells, cells.Keys
      ensures Linked()
      ensures LinksIn(old(cells), it) && cells == ErasedCells(f, old(cells), it)
    {
      ghost var c := cells;
      EraseAllowed(f, c, it);
      EraseChildren(it);
      UnlinkCells(it);
      cells := cells - {it}; // the node is freed
      ErasedInAnyOrder(f, c, it);
    }

    /** Puts a new path component into the data of a node. */
    method SetPath(node: Node, path: string)
      requires Valid() && node in f.up && node in f.item
      modifies this, cells.Keys
      ensures Valid()
      ensures f == WithPath(old(f), node, path)
    {
      assert node.Value() == cells[node];
      node.data := node.data.(path := path);
      ghost var c := cells[node := cells[node].(data := cells[node].data.(path := path))];
      forall n | n in c
        ensures n.Value() == c[n]
      {
        assert old(n.Value()) == cells[n];
      }
      WithPathDescribes(f, cells, node, path);
      cells, f := c, WithPath(f, node, path);
    }

    /** The loop of flatten: every child gets the parent of position. */
    method AdoptChildren(position: Node)
      requires Linked()
      requires CanFlatten(f, position) && Flattenable(cells, position, f.rows[position])
      requires Describes(f, cells)
      modifies this`cells, cells.Keys
      ensures Linked()
      ensures cells == Adopted(old(cells), f.rows[position], |f.rows[position]|, f.up[position])
    {
      ghost var c, kids := cells, f.rows[position];
      ghost var i := 0;
      assert position.Value() == cells[position] == CellOf(f, position);
      var tmp := position.firstChild;
      while tmp != null
        invariant i <= |kids|
        invariant tmp == if i == |kids| then null else kids[i]
        invariant cells == Adopted(c, kids, i, f.up[position])
        invariant Linked()
        decreases |kids| - i
      {
        RowLink(f, position, i);
        AdoptNext(f, c, position, i);
        assert tmp.Value() == cells[tmp] && position.Value() == cells[position];
        AdoptOne(tmp, position.parent);
        tmp := tmp.nextSibling;
        i := i + 1;
      }
    }

    /** tmp->parent = parent */
    method AdoptOne(tmp: Node, parent: Node?)
      requires Linked() && tmp in cells
      modifies this`cells, cells.Keys
      ensures Linked()
      ensures cells == old(cells)[tmp := old(cells)[tmp].(parent := parent)]
      ensures tmp.nextSibling == old(cells)[tmp].next
    {
      assert tmp.Value() == cells[tmp];
      tmp.parent := parent;
      ghost var c := cells[tmp := cells[tmp].(parent := parent)];
      forall n | n in c
        ensures n.Value() == c[n]
      {
        assert old(n.Value()) == cells[n];
      }
      cells := c;
    }

    /** The assignments of flatten behind its loop. */
    method SpliceChildren(position: Node)
      requires Linked()
      requires position in cells && cells[position].first != null && cells[position].first in cells
      requires cells[position].last != null && cells[position].last in cells
      requires cells[position].next != null ==> cells[position].next in cells
      requires cells[position].parent != null ==> cells[position].parent in cells
      requires cells[position].next == null ==> cells[position].parent != null
      requires position != cells[position].first && position != cells[position].last
      requires cells[position].next != position && cells[position].parent != position
      requires cells[position].next != null ==> cells[position].next != cells[position].first
      modifies this`cells, cells.Keys
      ensures Linked()
      ensures cells == SplicedCells(old(cells), position)
    {
      assert position.Value() == cells[position];
      if position.nextSibling != null {
        position.lastChild.nextSibling := position.nextSibling;
        position.nextSibling.prevSibling := position.lastChild;
      } else {
        position.parent.lastChild := position.lastChild;
      }
      position.nextSibling := position.firstChild;
      position.nextSibling.prevSibling := position;
      position.firstChild := null;
      position.lastChild := null;
      ghost var c := SplicedCells(cells, position);
      forall n | n in c
        ensures n.Value() == c[n]
      {
        assert n in cells && old(n.Value()) == cells[n];
        SplicedCell(cells, position, n);
      }
      cells := c;
    }

    /** All assignments of flatten for a node that has children. */
    method FlattenCells(position: Node)
      requires Valid() && CanFlatten(f, position) && Flattenable(cells, position, f.rows[position])
      modifies this`cells, cells.Keys
      ensures Linked()
      ensures old(Flattenable(cells, position, f.rows[position]))
      ensures cells == SplicedCells(Adopted(old(cells), f.rows[position], |f.rows[position]|, f.up[position]), position)
    {
      AdoptedPosition(cells, position, f.rows[position], f.up[position]);
      AdoptChildren(position);
      SpliceChildren(position);
    }

    /** flatten(position): its children become the siblings right behind it. */
    method Flatten(position: Node)
      requires Valid() && CanFlatten(f, position)
      modifies this, cells.Keys
      ensures Valid()
      ensures f == Flattened(old(f), position)
      ensures PreOrder(f) == PreOrder(old(f))
    {
      FlattenKeepsPreOrder(f, position);
      assert position.Value() == cells[position] == CellOf(f, position);
      if position.firstChild == null {
        NothingToFlatten(f, position);
      } else {
        FlattenRows(position);
      }
    }

    method FlattenRows(position: Node)
      requires Valid() && CanFlatten(f, position) && f.rows[position] != []
      modifies this, cells.Keys
      ensures Valid()
      ensures f == Flattened(old(f), position)
    {
      FlattenAllowed(f, cells, position);
      FlattenDescribes(f, cells, position);
      ghost var g := Flattened(f, position);
      FlattenCells(position);
      Settle(g, cells);
    }

    /** The loop of reparent that finds the last node of the range. */
    method LastOfRange(first: Node, end: Node?, ghost p0: Node?, ghost i: nat, ghost j: nat) returns (last: Node)
      requires Valid() && p0 in f.rows && i < j <= |f.rows[p0]|
      requires first == f.rows[p0][i] && end == if j == |f.rows[p0]| then null else f.rows[p0][j]
      ensures last == f.rows[p0][j - 1]
    {
      ghost var s, k := f.rows[p0], i;
      assert RowOk(f, p0);
      last := first;
      RowLink(f, p0, k);
      assert last.Value() == cells[last] == CellOf(f, last);
      var next := first.nextSibling;
      while next != end
        invariant i <= k < j && last == s[k]
        invariant next == if k + 1 == |s| then null else s[k + 1]
        decreases j - k
      {
        RangeGoesOn(s, k, j, next, end);
        last := next;
        k := k + 1;
        RowLink(f, p0, k);
        assert last.Value() == cells[last] == CellOf(f, last);
        next := last.nextSibling;
      }
      RangeEndsHere(s, k, j, next, end);
    }

    /** Takes the range from first to last out of its row. */
    method CutRange(first: Node, last: Node)
      requires Linked() && first in cells && last in cells && EndsIn(cells, first, last)
      modifies this`cells, cells.Keys
      ensures Linked()
      ensures cells == CutCells(old(cells), first, last)
    {
      assert first.Value() == cells[first] && last.Value() == cells[last];
      if first.prevSibling == null {
        first.parent.firstChild := last.nextSibling;
      } else {
        first.prevSibling.nextSibling := last.nextSibling;
      }
      if last.nextSibling == null {
        last.parent.lastChild := first.prevSibling;
      } else {
        last.nextSibling.prevSibling := first.prevSibling;
      }
      ghost var c := CutCells(cells, first, last);
      forall n | n in c
        ensures n.Value() == c[n]
      {
        assert n in cells && old(n.Value()) == cells[n];
        CutCell(cells, first, last, n);
      }
      cells := c;
    }

    /** Hangs the range from first to last behind the children of position. */
    method HangRange(position: Node, first: Node, last: Node)
      requires Linked() && position in cells && first in cells && last in cells
      requires cells[position].last != null ==> cells[position].last in cells
      requires cells[position].first == null <==> cells[position].last == null
      requires first != position && last != position
      requires cells[position].last != position && cells[position].last != first && cells[position].last != last
      modifies this`cells, cells.Keys
      ensures Linked()
      ensures cells == HungCells(old(cells), position, first, last)
    {
      assert first.Value() == cells[first] && last.Value() == cells[last] && position.Value() == cells[position];
      if position.firstChild == null {
        position.firstChild := first;
        position.lastChild := last;
        first.prevSibling := null;
      } else {
        position.lastChild.nextSibling := first;
        first.prevSibling := position.lastChild;
        position.lastChild := last;
      }
      last.nextSibling := null;
      ghost var c := HungCells(cells, position, first, last);
      forall n | n in c
        ensures n.Value() == c[n]
      {
        assert n in cells && old(n.Value()) == cells[n];
        HungCell(cells, position, first, last, n);
      }
      cells := c;
    }

    /** The last loop of reparent. */
    method AdoptRange(position: Node, first: Node, last: Node, ghost range: seq<Node>)
      requires Linked() && Chained(cells, range) && first == range[0] && last == range[|range| - 1]
      modifies this`cells, cells.Keys
      ensures Linked()
      ensures cells == Adopted(old(cells), range, |range|, position)
    {
      ghost var c := cells;
      ghost var k := 0;
      var pos := first;
      while true
        invariant k < |range| && pos == range[k] && pos in cells
        invariant cells == Adopted(c, range, k, position)
        invariant Linked()
        decreases |range| - k
      {
        AdoptInRange(c, range, k, position);
        AdoptOne(pos, position);
        if pos == last {
          break;
        }
        pos := pos.nextSibling;
        k := k + 1;
      }
    }

    /** All assignments of reparent. */
    method ReparentCells(position: Node, first: Node, last: Node, ghost range: seq<Node>)
      requires Linked() && Reparentable(cells, position, range) && Chained(cells, range)
      requires first == range[0] && last == range[|range| - 1]
      modifies this`cells, cells.Keys
      ensures Linked()
      ensures old(Reparentable(cells, position, range)) && cells == ReparentedCells(old(cells), position, range)
    {
      StillChained(cells, position, range);
      CutRange(first, last);
      HangRange(position, first, last);
      AdoptRange(position, first, last, range);
    }

    /** reparent(position, begin, end): the siblings from begin up to end, children number i to j of
        p0, move behind the children of position. */
    method Reparent(position: Node, begin: Node, end: Node?, ghost p0: Node?, ghost i: nat, ghost j: nat)
      returns (r: Node)
      requires Valid() && p0 in f.rows && i <= j <= |f.rows[p0]| && i < |f.rows[p0]|
      requires begin == f.rows[p0][i] && end == if j == |f.rows[p0]| then null else f.rows[p0][j]
      requires i < j ==> CanReparent(f, position, p0, i, j)
      modifies this, cells.Keys
      ensures Valid() && r == begin
      ensures f == if i == j then old(f) else Reparented(old(f), position, p0, i, j)
    {
      assert RowOk(f, p0);
      if i < j { NotTheEnd(f.rows[p0], i, j); }
      r := begin;
      if begin != end {
        ReparentRange(position, begin, end, p0, i, j);
      }
    }

    method ReparentRange(position: Node, begin: Node, end: Node?, ghost p0: Node?, ghost i: nat, ghost j: nat)
      requires Valid() && CanReparent(f, position, p0, i, j)
      requires begin == f.rows[p0][i] && end == if j == |f.rows[p0]| then null else f.rows[p0][j]
      modifies this, cells.Keys
      ensures Valid()
      ensures f == Reparented(old(f), position, p0, i, j)
    {
      ReparentAllowed(f, cells, position, p0, i, j);
      ReparentDescribes(f, cells, position, p0, i, j);
      ghost var g, d := Reparented(f, position, p0, i, j), ReparentedCells(cells, position, f.rows[p0][i..j]);
      assert Describes(g, d) && g.head == head && g.feet == feet;
      RelinkRange(position, begin, end, p0, i, j);
      Settle(g, d);
    }

    /** The cells already are the ones of g. */
    ghost method Settle(g: Forest, d: map<Node, Cell>)
      requires Linked() && cells == d && Describes(g, d) && g.head == head && g.feet == feet
      modifies this`f
      ensures Valid() && f == g
    {
      f := g;
    }

    /** The end of the range is found and all assignments made. */
    method RelinkRange(position: Node, begin: Node, end: Node?, ghost p0: Node?, ghost i: nat, ghost j: nat)
      requires Valid() && p0 in f.rows && i < j <= |f.rows[p0]| && Reparentable(cells, position, f.rows[p0][i..j])
      requires begin == f.rows[p0][i] && end == if j == |f.rows[p0]| then null else f.rows[p0][j]
      modifies this`cells, cells.Keys
      ensures Linked()
      ensures old(Reparentable(cells, position, f.rows[p0][i..j]))
      ensures cells == ReparentedCells(old(cells), position, f.rows[p0][i..j])
    {
      var last := LastOfRange(begin, end, p0, i, j);
      RangeIsChained(f, cells, p0, i, j);
      ReparentCells(position, begin, last, f.rows[p0][i..j]);
    }

    /** replace, behind erase_children: a fresh leaf takes the links of current over. */
    method LeafInPlace(current: Node, x: Item) returns (tmp: Node)
      requires Linked() && current in cells && LinksIn(cells, current)
      requires cells[current].parent == null ==> cells[current].prev != null && cells[current].next != null
      modifies this`cells, cells.Keys
      ensures Linked()
      ensures fresh(tmp) && tmp !in old(cells)
      ensures cells == ReplantedCells(old(cells), current, tmp, x)
    {
      assert current.Value() == cells[current];
      tmp := new Node(x);
      if current.prevSibling == null {
        if current.parent != null {
          current.parent.firstChild := tmp;
        }
      } else {
        current.prevSibling.nextSibling := tmp;
      }
      tmp.prevSibling := current.prevSibling;
      if current.nextSibling == null {
        if current.parent != null {
          current.parent.lastChild := tmp;
        }
      } else {
        current.nextSibling.prevSibling := tmp;
      }
      tmp.nextSibling := current.nextSibling;
      tmp.parent := current.parent;
      ghost var c := ReplantedCells(cells, current, tmp, x); // current is deallocated
      NewCell(cells, current, tmp, x);
      forall n | n in c
        ensures n.Value() == c[n]
      {
        if n != tmp {
          assert n in cells && old(n.Value()) == cells[n];
          ReplantedCell(cells, current, tmp, x, n);
        }
      }
      cells := c;
    }

    /** replace up to the copying loop. */
    method Replant(position: Node, x: Item) returns (tmp: Node)
      requires Valid() && CanErase(f, position)
      modifies this, cells.Keys
      ensures Valid() && fresh(tmp)
      ensures CanReplant(old(f), position, tmp) && f == Replanted(old(f), position, tmp, x)
    {
      ghost var c := cells;
      EraseAllowed(f, c, position);
      ReplantLinksIn(f, c, position);
      EraseChildren(position);
      tmp := LeafInPlace(position, x);
      ReplantDescribes(f, c, position, tmp, x);
      ghost var g := Replanted(f, position, tmp, x);
      Settle(g, cells);
    }

    /** append_child(toit, c->data), where c is the next node of the walk. */
    method AppendImage(toit: Node, c: Node, ghost s: Forest, ghost from: Node, ghost to: Node,
                       ghost img: map<Node, Node>, ghost cf: Node, ghost done: bool) returns (n: Node)
      requires Valid() && Copied(s, from, to, f, img, cf, done)
      requires c in s.up && MovesTo(s, img, cf, done, c) && toit == img[Above(s, c)]
      modifies this, cells.Keys
      ensures Valid() && fresh(n) && fresh(cells.Keys - old(cells.Keys))
      ensures Copied(s, from, to, f, img[c := n], c, false)
      ensures Subtree(s, from) - img[c := n].Keys < Subtree(s, from) - img.Keys
      ensures c != Next(s, from)
    {
      ghost var g := f;
      SameItem(s, to, f, img, c);
      assert c.Value() == cells[c] == CellOf(f, c);
      ImageIsProper(s, from, to, f, img, cf, done, Above(s, c));
      n := AppendChild(toit, c.data);
      RowsAreNodes(g, n);
      Visited(s, from, to, g, img, cf, done, c, n);
      OneLessToVisit(s, from, img, c, n);
    }

    /** The inner loop of replace: up to the next node that has a sibling behind it, or to the start. */
    method ClimbBack(cf0: Node, toit0: Node, from: Node, ghost s: Forest, ghost to: Node, ghost img: map<Node, Node>)
      returns (cf: Node, toit: Node)
      requires Valid() && Copied(s, from, to, f, img, cf0, true) && toit0 == img[cf0]
      ensures Copied(s, from, to, f, img, cf, true) && toit == img[cf]
      ensures cf == from || Next(s, cf) != null
    {
      cf, toit := cf0, toit0;
      SameLinks(s, from, to, f, img, cf, true);
      assert cf.Value() == cells[cf] == CellOf(f, cf) && toit.Value() == cells[toit] == CellOf(f, toit);
      while cf.nextSibling == null && cf != from
        invariant Copied(s, from, to, f, img, cf, true) && toit == img[cf]
        invariant cf in f.up && cf.Value() == CellOf(f, cf) && toit in f.up && toit.Value() == CellOf(f, toit)
        invariant cf.nextSibling == Next(s, cf)
        decreases Rank(s, cf)
      {
        SameLinks(s, from, to, f, img, cf, true);
        ParentIsDone(s, from, to, f, img, cf);
        cf := cf.parent;
        toit := toit.parent;
        SameLinks(s, from, to, f, img, cf, true);
        assert cf.Value() == cells[cf] == CellOf(f, cf) && toit.Value() == cells[toit] == CellOf(f, toit);
      }
    }

    /** One turn of the copying loop: the next node of the walk is copied, unless the walk is over. */
    method CopyNext(cf0: Node, toit0: Node, from: Node, last: Node?, ghost s: Forest, ghost to: Node, ghost img0: map<Node, Node>)
      returns (cf: Node?, toit: Node, ghost img: map<Node, Node>)
      requires Valid() && Copied(s, from, to, f, img0, cf0, false) && toit0 == img0[cf0] && last == Next(s, from)
      modifies this, cells.Keys
      ensures Valid() && fresh(cells.Keys - old(cells.Keys))
      ensures cf == last ==> Copied(s, from, to, f, img, from, true)
      ensures cf != last ==> cf != null && Copied(s, from, to, f, img, cf, false) && toit == img[cf]
      ensures cf != last ==> Subtree(s, from) - img.Keys < Subtree(s, from) - img0.Keys
    {
      SameLinks(s, from, to, f, img0, cf0, false);
      assert cf0.Value() == cells[cf0] == CellOf(f, cf0);
      if cf0.firstChild != null {
        cf, toit, img := CopyFirstKid(cf0, toit0, from, last, s, to, img0);
      } else {
        LeafIsDone(s, from, to, f, img0, cf0);
        cf, toit, img := CopyNextSibling(cf0, toit0, from, last, s, to, img0);
      }
    }

    method CopyFirstKid(cf0: Node, toit0: Node, from: Node, ghost last: Node?, ghost s: Forest, ghost to: Node,
                        ghost img0: map<Node, Node>)
      returns (cf: Node, toit: Node, ghost img: map<Node, Node>)
      requires Valid() && Copied(s, from, to, f, img0, cf0, false) && toit0 == img0[cf0] && last == Next(s, from)
      requires cf0 in s.rows && s.rows[cf0] != []
      modifies this, cells.Keys
      ensures Valid() && fresh(cells.Keys - old(cells.Keys))
      ensures cf != last && Copied(s, from, to, f, img, cf, false) && toit == img[cf]
      ensures Subtree(s, from) - img.Keys < Subtree(s, from) - img0.Keys
    {
      SameLinks(s, from, to, f, img0, cf0, false);
      assert cf0.Value() == cells[cf0] == CellOf(f, cf0);
      cf := cf0.firstChild;
      FirstKidMoves(s, from, to, f, img0, cf0, cf);
      toit := AppendImage(toit0, cf, s, from, to, img0, cf0, false);
      img := img0[cf := toit];
    }

    method CopyNextSibling(cf0: Node, toit0: Node, from: Node, last: Node?, ghost s: Forest, ghost to: Node,
                           ghost img0: map<Node, Node>)
      returns (cf: Node?, toit: Node, ghost img: map<Node, Node>)
      requires Valid() && Copied(s, from, to, f, img0, cf0, true) && toit0 == img0[cf0] && last == Next(s, from)
      modifies this, cells.Keys
      ensures Valid() && fresh(cells.Keys - old(cells.Keys))
      ensures cf == last ==> Copied(s, from, to, f, img, from, true)
      ensures cf != last ==> cf != null && Copied(s, from, to, f, img, cf, false) && toit == img[cf]
      ensures cf != last ==> Subtree(s, from) - img.Keys < Subtree(s, from) - img0.Keys
    {
      hide ImageOk, Injective, Extends, CanCopy, Below, Subtree;
      var c, t := ClimbBack(cf0, toit0, from, s, to, img0);
      if c == from {
        SameLinks(s, from, to, f, img0, c, true);
        assert c.Value() == cells[c] == CellOf(f, c);
        cf, toit, img := c.nextSibling, t, img0;
        assert cf == last;
      } else {
        cf, toit, img := CopySibling(c, t, from, last, s, to, img0);
      }
    }

    /** A finished node that is not the start has a sibling behind it. */
    method CopySibling(c: Node, t: Node, from: Node, last: Node?, ghost s: Forest, ghost to: Node, ghost img0: map<Node, Node>)
      returns (cf: Node, toit: Node, ghost img: map<Node, Node>)
      requires Valid() && Copied(s, from, to, f, img0, c, true) && t == img0[c] && last == Next(s, from)
      requires c != from && Next(s, c) != null
      modifies this, cells.Keys
      ensures Valid() && fresh(cells.Keys - old(cells.Keys))
      ensures cf != last && Copied(s, from, to, f, img, cf, false) && toit == img[cf]
      ensures Subtree(s, from) - img.Keys < Subtree(s, from) - img0.Keys
    {
      SameLinks(s, from, to, f, img0, c, true);
      assert c.Value() == cells[c] == CellOf(f, c) && t.Value() == cells[t] == CellOf(f, t);
      cf := c.nextSibling;
      NextSiblingMoves(s, from, to, f, img0, c, cf);
      toit := AppendImage(t.parent, cf, s, from, to, img0, c, true);
      img := img0[cf := toit];
    }

    /** The walk over the original, which ends where it started. */
    method CopyWalk(from: Node, tmp: Node, ghost s: Forest) returns (ghost img: map<Node, Node>)
      requires Valid() && f == s && CanCopy(s, from, tmp)
      requires from in s.item && tmp in s.item && s.item[tmp] == s.item[from]
      modifies this, cells.Keys
      ensures Valid() && fresh(cells.Keys - old(cells.Keys))
      ensures Copied(s, from, tmp, f, img, from, true)
    {
      hide ImageOk, Injective, Extends, CanCopy, Subtree;
      CopyStarts(s, from, tmp);
      img := map[from := tmp];
      assert from.Value() == cells[from] == CellOf(f, from);
      var last := from.nextSibling; // after the replacement, which may have changed this link
      var cf: Node, toit := from, tmp;
      ghost var keys := cells.Keys;
      while true
        invariant Valid() && Copied(s, from, tmp, f, img, cf, false) && toit == img[cf]
        invariant forall n :: n in cells.Keys ==> n in keys || fresh(n)
        decreases Subtree(s, from) - img.Keys
      {
        var next;
        next, toit, img := CopyNext(cf, toit, from, last, s, tmp, img);
        if next == last {
          break;
        }
        cf := next;
      }
    }

    /** The copy is complete, and everything below the new leaf is new. */
    method CopySubtree(from: Node, tmp: Node, ghost s: Forest) returns (ghost img: map<Node, Node>)
      requires Valid() && f == s && CanCopy(s, from, tmp)
      requires from in s.item && tmp in s.item && s.item[tmp] == s.item[from]
      modifies this, cells.Keys
      ensures Valid()
      ensures IsCopy(s, from, tmp, f, img)
      ensures forall n :: n in img && n != from ==> fresh(img[n])
    {
      img := CopyWalk(from, tmp, s);
      CopyIsComplete(s, from, tmp, f, img);
      ImagesAreNew(s, from, tmp, f, img);
    }

    /** replace(position, from): a fresh copy of the subtree at from takes the place of position and what
        was below it. The two subtrees share no node. */
    method Replace(position: Node, from: Node) returns (tmp: Node, ghost img: map<Node, Node>)
      requires Valid() && CanErase(f, position) && from in f.up && from in f.item
      requires !Below(f, from, position) && !Below(f, position, from)
      modifies this, cells.Keys
      ensures Valid() && fresh(tmp)
      ensures CanReplant(old(f), position, tmp)
      ensures IsCopy(Replanted(old(f), position, tmp, old(f).item[from]), from, tmp, f, img)
      ensures forall n :: n in img ==> fresh(img[n])
    {
      hide IsCopy, Below, Subtree;
      assert from.Value() == cells[from] == CellOf(f, from);
      ghost var g := f;
      tmp := Replant(position, from.data);
      ReadyToCopy(g, position, tmp, from);
      img := CopySubtree(from, tmp, f);
    }

    /** number_of_children(it) */
    method NumberOfChildren(it: Node) returns (n: nat)
      requires Valid() && it in f.up && it in f.rows
      ensures n == |f.rows[it]|
    {
      assert it.Value() == cells[it] == CellOf(f, it);
      var pos := it.firstChild;
      if pos == null {
        return 0;
      }
      n := 1;
      RowLink(f, it, 0);
      assert pos.Value() == cells[pos] == CellOf(f, pos);
      while pos.nextSibling != null
        invariant 1 <= n <= |f.rows[it]| && pos == f.rows[it][n - 1]
        invariant pos in f.up && pos.nextSibling == Next(f, pos)
        invariant Next(f, pos) == if n == |f.rows[it]| then null else f.rows[it][n]
        decreases |f.rows[it]| - n
      {
        pos := pos.nextSibling;
        RowLink(f, it, n);
        assert pos.Value() == cells[pos] == CellOf(f, pos);
        n := n + 1;
      }
    }

    /** empty() */
    method IsEmpty() returns (b: bool)
      requires Valid()
      ensures b <==> f.rows[null] == [head, feet]
    {
      assert head.Value() == cells[head] == CellOf(f, head);
      assert NodeOk(f, head) && RowOk(f, null);
      NeighboursAt(f.rows[null], 0);
      IndexAt(f.rows[null], 1);
      IndexAt(f.rows[null], |f.rows[null]| - 1);
      b := head.nextSibling == feet;
    }

    /** size(). */
    method Size() returns (i: nat)
      requires Valid()
      ensures i + 2 == |f.up|
    {
      hide PreOrder, NextPre, SkipNext;
      PreOrderIsEveryNodeOnce(f);
      PreOrderEnds(f);
      ghost var order := PreOrder(f);
      i := 0;
      assert head.Value() == cells[head] == CellOf(f, head);
      SecondInPreOrder(f);
      var it := new PreOrderIterator(head.nextSibling);
      while it.node != feet
        invariant fresh(it) && Valid()
        invariant i + 1 < |order| && it.node == order[i + 1] && !it.skip
        decreases |order| - i
      {
        i := i + 1;
        IncrementFollowsPreOrder(f, i);
        it.Increment(this);
      }
      IndexAt(order, i + 1);
      IndexAt(order, |order| - 1);
    }
  }

  /** pre_order_iterator. */
  class PreOrderIterator {
    var node: Node?
    var skip: bool // skip_current_children_

    constructor (n: Node?)
      ensures node == n && !skip
    {
      node, skip := n, false;
    }

    /** operator++. */
    method Increment(t: Tree)
      requires t.Valid()
      requires node != null && node in t.f.up
      modifies this
      ensures node == if old(skip) then SkipNext(t.f, old(node)) else NextPre(t.f, old(node))
      ensures !skip
    {
      ghost var f := t.f;
      assert node.Value() == t.cells[node] == CellOf(f, node);
      if !skip && node.firstChild != null {
        node := node.firstChild;
      } else {
        skip := false;
        while node.nextSibling == null
          invariant node != null && node in f.up && !skip
          invariant SkipNext(f, node) == SkipNext(f, old(node))
          decreases Rank(f, node)
        {
          assert node.Value() == t.cells[node] == CellOf(f, node);
          assert NodeOk(f, node);
          node := node.parent;
          if node == null {
            return;
          }
          assert NodeOk(f, node);
        }
        assert node.Value() == t.cells[node] == CellOf(f, node);
        node := node.nextSibling;
      }
    }
  }
}
