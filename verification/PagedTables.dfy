/** The linked list of 1024-slot pages inside CFileTable (src/FileTable.cpp), proved to be one flat
    sequence of slots that only grows. All index arithmetic is 32-bit. */
module PagedTables {
  import opened Nodes
  import opened Handles

  const TABLE_SIZE: uint32 := 1024

  /** The largest size for which no index computation of the table wraps around. */
  const MAX_SIZE: uint32 := 0xffff_fc00

  /** FILE_TABLE */
  class Page {
    const items: array<Node?>
    var next: Page?

    constructor ()
      ensures fresh(items) && items.Length == 1024 && next == null
      ensures forall k :: 0 <= k < 1024 ==> items[k] == null
    {
      items := new Node?[1024](_ => null);
      next := null;
    }
  }

  class PagedTable {
    var firstTable: Page
    var lastTable: Page
    var tableSize: uint32
    ghost var pages: seq<Page>
    ghost var slots: seq<Node?>

    ghost var Repr: set<object>

    ghost predicate PagesLinked()
      reads this, Repr
    {
      && this in Repr
      && (forall i :: 0 <= i < |pages| ==> pages[i] in Repr && pages[i].items in Repr)
      && |pages| >= 1
      && pages[0] == firstTable && pages[|pages| - 1] == lastTable
      && (forall i :: 0 <= i < |pages| ==> pages[i].items.Length == 1024)
      && (forall i {:trigger pages[i].next} :: 0 <= i < |pages| ==>
            pages[i].next == if i + 1 == |pages| then null else pages[i + 1])
      && (forall i, j :: 0 <= i < j < |pages| ==> pages[i] != pages[j] && pages[i].items != pages[j].items)
    }

    /** The slots are the entries of the pages, in order. */
    ghost predicate Holds()
      reads this, Repr
    {
      && PagesLinked()
      && |slots| == tableSize as int <= MAX_SIZE as int
      && |slots| <= 1024 * |pages|
      && (forall id :: 0 <= id < |slots| ==> pages[id / 1024].items[id % 1024] == slots[id])
    }

    ghost predicate Valid()
      reads this, Repr
    {
      && Holds()
      && |pages| == (if |slots| == 0 then 1 else (|slots| + 1023) / 1024)
    }

    constructor ()
      ensures Valid() && slots == []
      ensures fresh(Repr)
    {
      var page := new Page();
      firstTable, lastTable := page, page;
      tableSize := 0;
      pages, slots, Repr := [page], [], {this, page, page.items};
    }

    /** The page and slot statements of AddItem. */
    method Append(node: Node?)
      requires Valid() && tableSize < MAX_SIZE
      modifies Repr
      ensures Valid() && fresh(Repr - old(Repr))
      ensures slots == old(slots) + [node]
    {
      if tableSize > 0 && tableSize % TABLE_SIZE == 0 { // every page is full
        AddPage();
      }
      Store(node);
    }

    method AddPage()
      requires Holds()
      modifies this`lastTable, this`pages, this`Repr, lastTable`next
      ensures Holds() && |pages| == |old(pages)| + 1
      ensures slots == old(slots) && tableSize == old(tableSize)
      ensures fresh(Repr - old(Repr))
    {
      var page := new Page();
      lastTable.next := page;
      lastTable := page;
      pages := pages + [page];
      Repr := Repr + {page, page.items};
      assert pages[|pages| - 1] == page && pages[..|pages| - 1] == old(pages);
    }

    /** The next slot, which is on the last page, gets the node. */
    method Store(node: Node?)
      requires Holds() && tableSize < MAX_SIZE
      requires tableSize as int / 1024 == |pages| - 1
      modifies this`tableSize, this`slots, lastTable.items
      ensures Holds() && slots == old(slots) + [node]
      ensures pages == old(pages) && Repr == old(Repr)
    {
      var index := tableSize % TABLE_SIZE;
      lastTable.items[index as int] := node;
      forall id | 0 <= id < |slots|
        ensures pages[id / 1024].items[id % 1024] == slots[id]
      {
        assert old(pages[id / 1024].items[id % 1024]) == slots[id];
        if id / 1024 == |pages| - 1 {
          assert id % 1024 < index as int;
        }
      }
      tableSize := tableSize + 1;
      slots := slots + [node];
    }

    /** GetItemByID: the walk over the pages never meets a null page and never wraps. */
    method GetItemByID(nID: uint32) returns (r: Node?)
      requires Valid()
      ensures r == if nID as int < |slots| then slots[nID as int] else null
    {
      if nID >= tableSize {
        return null;
      }
      var table, i := WalkTo(nID);
      r := table.items[(nID + TABLE_SIZE - i) as int];
    }

    /** The page loop shared by GetItemByID and RemoveItem. */
    method WalkTo(nID: uint32) returns (table: Page, i: uint32)
      requires Valid() && nID < tableSize
      ensures nID as int / 1024 < |pages| && table == pages[nID as int / 1024]
      ensures i as int == (nID as int / 1024 + 1) * 1024
    {
      ghost var k := 0;
      table := firstTable;
      i := TABLE_SIZE;
      while i <= nID
        invariant k < |pages| && table == pages[k]
        invariant i as int == (k + 1) * 1024
        invariant k * 1024 <= nID as int
        decreases nID as int - i as int
      {
        assert table.next == pages[k + 1];
        table := table.next;
        i := i + TABLE_SIZE;
        k := k + 1;
      }
    }

    /** The slot statement of RemoveItem. */
    method ClearSlot(nID: uint32)
      requires Valid() && nID < tableSize
      modifies Repr
      ensures Valid() && Repr == old(Repr)
      ensures slots == old(slots)[nID as int := null]
    {
      var table, i := WalkTo(nID);
      table.items[(nID + TABLE_SIZE - i) as int] := null;
      slots := slots[nID as int := null];
    }
  }
}
