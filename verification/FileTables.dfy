/** CFileTable of src/FileTable.cpp together with the global file tree it points into. Every
    operation is proved to be one step of the handle machine on the view of the clients. */
module FileTables {
  import opened Nodes
  import opened Forests
  import opened Ancestry
  import opened Paths
  import opened Lookup
  import opened Registry
  import opened Plainness
  import opened Renaming
  import opened Handles
  import opened HandleMachine
  import opened PagedTables
  import opened FileTrees
  import opened Coherence
  import opened Resolutions
  import opened RenameSteps
  import opened DotSteps

  class FileTable {
    const table: PagedTable // m_pFirstTable, m_pLastTable, m_nTableSize
    const tree: FileTree // g_FileTree

    /** The pages and the tree share no object. */
    ghost predicate Apart()
      reads table, tree, tree.filesTree
    {
      && tree !in table.Repr && tree.filesTree !in table.Repr
      && forall n :: n in tree.filesTree.cells ==> n !in table.Repr
    }

    /** What holds in every state, also after a rename onto a path that was still registered. */
    ghost predicate Held()
      reads table, table.Repr, tree, tree.filesTree, tree.filesTree.cells.Keys
    {
      && table.Valid()
      && tree.Held()
      && Apart()
      && Coherent(tree.filesTree.f, table.slots)
    }

    ghost predicate Valid()
      reads table, table.Repr, tree, tree.filesTree, tree.filesTree.cells.Keys
    {
      Held() && Sound(tree.filesTree.f)
    }

    lemma HeldIsShaped()
      requires Held()
      ensures WellFormed(tree.filesTree.f) && Labelled(tree.filesTree.f) && Separated(tree.filesTree.f)
      ensures Coherent(tree.filesTree.f, table.slots)
      ensures tree.topNode != null ==> tree.topNode in tree.filesTree.f.up && tree.topNode in Tops(tree.filesTree.f)
    {
    }

    /** For every handle issued so far, the path GetPathByHandle would build. */
    ghost function Clients(): View
      requires WellFormed(tree.filesTree.f)
      reads table, tree, tree.filesTree
    {
      ViewOf(tree.filesTree.f, table.slots)
    }

    constructor ()
      ensures Valid() && Clients() == []
      ensures fresh(table.Repr) && fresh(tree) && fresh(tree.filesTree) && fresh(tree.filesTree.cells.Keys)
    {
      table := new PagedTable();
      tree := new FileTree();
    }

    /** For every registered path that a lookup finds, the number of the handle it finds. */
    ghost function Resolved(): map<string, nat>
      requires Coherent(tree.filesTree.f, table.slots)
      reads table, tree, tree.filesTree
    {
      Resolution(tree.filesTree.f, table.slots)
    }

    /** The lookup both structures agree on. */
    method FindFileItemForPath(path: string) returns (node: Node?)
      requires Held() && Plain(tree.filesTree.f, path)
      modifies tree`topNode
      ensures Held() && Clients() == old(Clients()) && node == Hit(tree.filesTree.f, path)
      ensures Sound(tree.filesTree.f) ==> (node == null <==> !Known(tree.filesTree.f, path))
      ensures node != null ==> node in PathMap(tree.filesTree.f) && PathMap(tree.filesTree.f)[node] == path
      ensures node != null ==> tree.topNode == Top(tree.filesTree.f, node)
      ensures tree.topNode != null ==> tree.topNode == CachedRoot(tree.filesTree.f, tree.topNode, path)
    {
      ghost var f, top := tree.filesTree.f, tree.topNode;
      node := tree.FindNodeFromRootWithPath(path);
      HitShows(f, path);
      if top != null {
        HitIsFind(f, top, path);
        CacheSettles(f, top, path);
        if node != null { CachedAfterLookup(f, top, node); }
      }
    }

    /** The tree half of AddItem: register the path and fetch its node. */
    method Register(path: string, handle: seq<Byte>) returns (node: Node, ghost item: Item)
      requires tree.Valid() && Addable(tree.filesTree.f, path)
      requires tree.topNode != null ==> tree.topNode == CachedRoot(tree.filesTree.f, tree.topNode, path)
      modifies tree`topNode, tree.filesTree, tree.filesTree.cells.Keys
      ensures tree.Valid()
      ensures fresh(node) && fresh(tree.filesTree.cells.Keys - old(tree.filesTree.cells.Keys))
      ensures node !in old(tree.filesTree.f).up
      ensures item.handle == Some(handle)
      ensures PathMap(tree.filesTree.f) == PathMap(old(tree.filesTree.f))[node := path]
      ensures tree.filesTree.f.item == old(tree.filesTree.f).item[node := item]
    {
      hide ItemAdded, Addable, PathMap, Find;
      ghost var n;
      var thrown;
      thrown, item, n := tree.AddItem(path, handle);
      assert !thrown;
      JustAdded(tree.filesTree.f, tree.topNode, path, n);
      var found := tree.FindNodeFromRootWithPath(path);
      node := found;
    }

    /** AddItem, after a lookup of the path that found nothing. */
    method AddItem(path: string)
      requires Held() && Sound(tree.filesTree.f) && table.tableSize < MAX_SIZE
      requires Addable(tree.filesTree.f, path)
      requires tree.topNode != null ==> tree.topNode == CachedRoot(tree.filesTree.f, tree.topNode, path)
      modifies tree`topNode, tree.filesTree, tree.filesTree.cells.Keys, table.Repr
      ensures Held() && Sound(tree.filesTree.f)
      ensures fresh(table.Repr - old(table.Repr))
      ensures fresh(tree.filesTree.cells.Keys - old(tree.filesTree.cells.Keys))
      ensures Clients() == old(Clients()) + [Some(path)]
    {
      ghost var f, slots := tree.filesTree.f, table.slots;
      ghost var beside := {tree, tree.filesTree} + tree.filesTree.cells.Keys;
      assert beside !! table.Repr;
      var node, item := Register(path, HandleBytes(table.tableSize));
      assert table.Valid() == old(table.Valid());
      beside := {tree, tree.filesTree} + tree.filesTree.cells.Keys;
      assert beside !! table.Repr;
      label Registered:
      table.Append(node);
      assert tree.Valid() == old@Registered(tree.Valid());
      CoherentAfterAdd(f, slots, tree.filesTree.f, node, path, item);
    }

    /** The handle bytes stand for the path. */
    ghost predicate StandsFor(handle: Option<seq<Byte>>, path: string)
      requires WellFormed(tree.filesTree.f)
      reads table, tree, tree.filesTree
    {
      && handle.Some? && |handle.value| == NFS3_FHSIZE
      && HandleId(handle.value) as int < |Clients()| && Clients()[HandleId(handle.value) as int] == Some(path)
      && handle.value == HandleBytes(HandleId(handle.value))
    }

    /** GetHandleByPath: the handle it returns stands for the path from now on. A path that is found
        keeps its handle, also in a table where paths are shared. */
    method GetHandleByPath(path: string) returns (handle: Option<seq<Byte>>)
      requires Held()
      requires Findable(tree.filesTree.f, path) || (Sound(tree.filesTree.f) && Addable(tree.filesTree.f, path) && table.tableSize < MAX_SIZE)
      modifies tree`topNode, tree.filesTree, tree.filesTree.cells.Keys, table.Repr
      ensures Held() && (old(Sound(tree.filesTree.f)) ==> Sound(tree.filesTree.f))
      ensures fresh(table.Repr - old(table.Repr))
      ensures fresh(tree.filesTree.cells.Keys - old(tree.filesTree.cells.Keys))
      ensures Clients() == Apply(old(Clients()), Issue(path))
      ensures handle.Some? && |handle.value| == NFS3_FHSIZE && StandsFor(handle, path)
      ensures Findable(old(tree.filesTree.f), path) ==>
                && tree.filesTree.f == old(tree.filesTree.f) && table.slots == old(table.slots)
                && Findable(tree.filesTree.f, path) && HandleId(handle.value) as int == NumberOf(tree.filesTree.f, table.slots, Hit(tree.filesTree.f, path))
    {
      hide *;
      ReadyToFind(path);
      handle := FindHandle(path);
      if handle == None {
        handle := AddAndFind(path);
      }
    }

    /** What GetHandleByPath is called with can be looked up, and is issued once. */
    lemma ReadyToFind(path: string)
      requires Held()
      requires Findable(tree.filesTree.f, path) || (Sound(tree.filesTree.f) && Addable(tree.filesTree.f, path))
      ensures Plain(tree.filesTree.f, path)
      ensures Hit(tree.filesTree.f, path) != null ==> Findable(tree.filesTree.f, path) && Clients() == Apply(Clients(), Issue(path))
      ensures Hit(tree.filesTree.f, path) == null ==> !Findable(tree.filesTree.f, path) && Clients() + [Some(path)] == Apply(Clients(), Issue(path))
    {
      PlainToFind(tree.filesTree.f, path);
      HitShows(tree.filesTree.f, path);
      ViewShows(tree.filesTree.f, table.slots, path);
    }

    /** The lookup of GetHandleByPath, and the handle of what it finds. */
    method FindHandle(path: string) returns (handle: Option<seq<Byte>>)
      requires Held() && Plain(tree.filesTree.f, path)
      modifies tree`topNode
      ensures Held() && Clients() == old(Clients()) && (handle == None <==> Hit(tree.filesTree.f, path) == null)
      ensures handle == None ==> tree.topNode != null ==> tree.topNode == CachedRoot(tree.filesTree.f, tree.topNode, path)
      ensures handle != None ==>
                && |handle.value| == NFS3_FHSIZE && StandsFor(handle, path) && Findable(tree.filesTree.f, path)
                && HandleId(handle.value) as int == NumberOf(tree.filesTree.f, table.slots, Hit(tree.filesTree.f, path))
    {
      hide *;
      var node := FindFileItemForPath(path);
      if node == null {
        return None;
      }
      HeldIsShaped();
      FoundIsFindable(tree.filesTree.f, path);
      handle := HandleOfNode(node);
    }

    /** The handle stored in a registered node. */
    method HandleOfNode(node: Node) returns (handle: Option<seq<Byte>>)
      requires Held() && node in PathMap(tree.filesTree.f)
      ensures handle.Some? && |handle.value| == NFS3_FHSIZE && StandsFor(handle, PathMap(tree.filesTree.f)[node])
      ensures HandleId(handle.value) as int == NumberOf(tree.filesTree.f, table.slots, node)
    {
      assert node.Value() == tree.filesTree.cells[node] == CellOf(tree.filesTree.f, node);
      StoredHandle(tree.filesTree.f, table.slots, node);
      handle := node.data.handle;
    }

    /** The miss of GetHandleByPath. */
    method AddAndFind(path: string) returns (handle: Option<seq<Byte>>)
      requires Held() && Sound(tree.filesTree.f) && table.tableSize < MAX_SIZE
      requires Addable(tree.filesTree.f, path)
      requires tree.topNode != null ==> tree.topNode == CachedRoot(tree.filesTree.f, tree.topNode, path)
      modifies tree`topNode, tree.filesTree, tree.filesTree.cells.Keys, table.Repr
      ensures Held() && Sound(tree.filesTree.f)
      ensures fresh(table.Repr - old(table.Repr))
      ensures fresh(tree.filesTree.cells.Keys - old(tree.filesTree.cells.Keys))
      ensures Clients() == old(Clients()) + [Some(path)]
      ensures handle.Some? && |handle.value| == NFS3_FHSIZE && StandsFor(handle, path)
    {
      hide *;
      AddItem(path);
      ItIsAdded(path);
      handle := FindAdded(path);
    }

    lemma ItIsAdded(path: string)
      requires Held() && Sound(tree.filesTree.f) && Some(path) in Clients()
      ensures Plain(tree.filesTree.f, path) && Hit(tree.filesTree.f, path) != null
    {
      ViewShows(tree.filesTree.f, table.slots, path);
      KnownIsPlain(tree.filesTree.f, path);
      HitShows(tree.filesTree.f, path);
    }

    /** The lookup behind AddItem. */
    method FindAdded(path: string) returns (handle: Option<seq<Byte>>)
      requires Held() && Plain(tree.filesTree.f, path) && Hit(tree.filesTree.f, path) != null
      modifies tree`topNode
      ensures Held() && Clients() == old(Clients())
      ensures handle.Some? && |handle.value| == NFS3_FHSIZE && StandsFor(handle, path)
    {
      hide *;
      var node := FindFileItemForPath(path);
      handle := HandleOfNode(node);
    }

    /** GetPathByHandle: the path the handle stands for, or failure for a handle that was never
        issued or whose file is gone. */
    method GetPathByHandle(handle: seq<Byte>) returns (path: Option<string>)
      requires Held() && |handle| >= 4
      ensures path == if HandleId(handle) as int < |Clients()| then Clients()[HandleId(handle) as int] else None
    {
      var node := table.GetItemByID(HandleId(handle));
      if node != null {
        assert SlotOk(tree.filesTree.f, table.slots, HandleId(handle) as int);
        var p := tree.GetNodeFullPath(node);
        path := Some(p);
      } else {
        path := None;
      }
    }

    /** RemoveItem. Its check of the handle against the table size never fails. */
    method RemoveItem(path: string) returns (found: bool)
      requires Valid() && Plain(tree.filesTree.f, path)
      requires Known(tree.filesTree.f, path) ==> Removable(tree.filesTree.f, path)
      modifies tree`topNode, tree.filesTree, tree.filesTree.cells.Keys, table.Repr
      ensures Valid()
      ensures table.Repr == old(table.Repr) && tree.filesTree.cells.Keys <= old(tree.filesTree.cells.Keys)
      ensures Clients() == Apply(old(Clients()), Remove(path))
      ensures found <==> Some(path) in old(Clients())
      ensures found ==> Enabled(old(Clients()), Remove(path))
      ensures Shrunk(old(tree.filesTree.f), tree.filesTree.f)
      ensures old(tree.topNode) != null ==> tree.topNode != null
    {
      ghost var f, slots := tree.filesTree.f, table.slots;
      ViewShows(f, slots, path);
      var item := FindFileItemForPath(path);
      if item == null {
        return false;
      }
      RemoveNode(item);
      return true;
    }

    /** RemoveItem once the node is found. */
    method RemoveNode(item: Node)
      requires Valid() && tree.topNode != null
      requires item in PathMap(tree.filesTree.f) && item in tree.filesTree.cells
      requires Removable(tree.filesTree.f, PathMap(tree.filesTree.f)[item])
      modifies tree`topNode, tree.filesTree, tree.filesTree.cells.Keys, table.Repr
      ensures Valid()
      ensures table.Repr == old(table.Repr) && tree.filesTree.cells.Keys <= old(tree.filesTree.cells.Keys)
      ensures Clients() == Apply(old(Clients()), Remove(PathMap(old(tree.filesTree.f))[item]))
      ensures Enabled(old(Clients()), Remove(PathMap(old(tree.filesTree.f))[item]))
      ensures Shrunk(old(tree.filesTree.f), tree.filesTree.f)
      ensures tree.topNode != null
    {
      ghost var f, slots := tree.filesTree.f, table.slots;
      var handle := ClearSlotOf(item);
      Unregister(item);
      RemoveIsAStep(f, slots, tree.filesTree.f, item, handle as int);
    }

    /** The table half of RemoveItem. */
    method ClearSlotOf(item: Node) returns (handle: uint32)
      requires Valid()
      requires item in PathMap(tree.filesTree.f) && item in tree.filesTree.cells
      modifies table.Repr
      ensures table.Valid() && tree.Valid() && Apart() && table.Repr == old(table.Repr)
      ensures handle as int < |old(table.slots)| && old(table.slots)[handle as int] == item
      ensures table.slots == old(table.slots)[handle as int := null]
      ensures tree.topNode == old(tree.topNode) && tree.filesTree.f == old(tree.filesTree.f)
      ensures tree.filesTree.cells == old(tree.filesTree.cells)
    {
      handle := SlotOf(item);
      table.ClearSlot(handle);
      assert tree.Valid() == old(tree.Valid());
    }

    /** The slot a registered node's handle decodes to; it is within the table and holds the node. */
    method SlotOf(item: Node) returns (handle: uint32)
      requires Valid()
      requires item in PathMap(tree.filesTree.f) && item in tree.filesTree.cells
      ensures handle < table.tableSize && table.slots[handle as int] == item
    {
      assert item.Value() == tree.filesTree.cells[item] == CellOf(tree.filesTree.f, item);
      StoredHandle(tree.filesTree.f, table.slots, item);
      handle := HandleId(item.data.handle.value);
    }

    /** The tree half of RemoveItem. */
    method Unregister(item: Node)
      requires tree.Valid() && tree.topNode != null && table.Valid() && Apart()
      requires item in PathMap(tree.filesTree.f) && Removable(tree.filesTree.f, PathMap(tree.filesTree.f)[item])
      modifies tree`topNode, tree.filesTree, tree.filesTree.cells.Keys
      ensures tree.Valid() && table.Valid() && Apart() && table.slots == old(table.slots) && table.Repr == old(table.Repr)
      ensures tree.filesTree.cells.Keys <= old(tree.filesTree.cells.Keys)
      ensures ItemsKept(old(tree.filesTree.f), tree.filesTree.f)
      ensures Shrunk(old(tree.filesTree.f), tree.filesTree.f)
      ensures PathMap(tree.filesTree.f) == PathMap(old(tree.filesTree.f)) - Subtree(old(tree.filesTree.f), item)
      ensures tree.topNode != null
    {
      hide Subtree, Shrunk, ItemsKept, Removable, PathMap;
      RemoveFromTree(item);
      assert table.Valid() == old(table.Valid());
    }

    /** The node is looked up once more, by its built path. */
    method RemoveFromTree(item: Node)
      requires tree.Valid() && tree.topNode != null
      requires item in PathMap(tree.filesTree.f) && Removable(tree.filesTree.f, PathMap(tree.filesTree.f)[item])
      modifies tree`topNode, tree.filesTree, tree.filesTree.cells.Keys
      ensures tree.Valid() && tree.topNode != null
      ensures tree.filesTree.cells.Keys <= old(tree.filesTree.cells.Keys)
      ensures ItemsKept(old(tree.filesTree.f), tree.filesTree.f)
      ensures Shrunk(old(tree.filesTree.f), tree.filesTree.f)
      ensures PathMap(tree.filesTree.f) == PathMap(old(tree.filesTree.f)) - Subtree(old(tree.filesTree.f), item)
    {
      FoundAgain(tree.filesTree.f, tree.topNode, item);
      var fullPath := tree.GetNodeFullPath(item);
      var _ := tree.RemoveItem(fullPath);
    }

    /** RenameFile of the table: it throws when the new path is that of the root under which the old one is
        looked up, and nothing happens unless both ends are found. Then it is one rename step,
        and a sound table is sound afterwards exactly when the new path was not registered. */
    method RenameFile(from: string, to: string) returns (thrown: bool)
      requires Held() && tree.topNode != null
      requires Throws(tree.filesTree.f, tree.topNode, from, to) || Ready(tree.filesTree.f, tree.topNode, from, to)
      modifies tree`topNode, tree.filesTree, tree.filesTree.cells.Keys
      ensures Held() && tree.topNode != null
      ensures fresh(tree.filesTree.cells.Keys - old(tree.filesTree.cells.Keys))
      ensures SameRoots(old(tree.filesTree.f), tree.filesTree.f)
      ensures Renamed(old(tree.filesTree.f), old(Clients()), old(Finds(tree.filesTree.f, tree.topNode, from, to)), from, to)
      ensures !old(Finds(tree.filesTree.f, tree.topNode, from, to)) ==> tree.filesTree.cells == old(tree.filesTree.cells)
      ensures thrown <==> old(Throws(tree.filesTree.f, tree.topNode, from, to))
      ensures old(Ready(tree.filesTree.f, tree.topNode, from, to)) ==> !thrown
    {
      ghost var f, slots := tree.filesTree.f, table.slots;
      ghost var found := Finds(f, tree.topNode, from, to);
      thrown := RenameBeside(from, to);
      if found { RenameIsAStep(f, slots, tree.filesTree.f, from, to); }
    }

    /** The tree after a rename that was performed or not, and what the clients see. */
    ghost predicate Renamed(f: Forest, view: View, performed: bool, from: string, to: string)
      requires WellFormed(f) && WellFormed(tree.filesTree.f)
      reads table, tree, tree.filesTree
    {
      if performed then
        && Clients() == Apply(view, Rename(from, to))
        && (Sound(f) ==> (Sound(tree.filesTree.f) <==> !Known(f, to)))
        && (Known(f, to) || Shared(f) ==> Shared(tree.filesTree.f))
        && HandlesKept(f, tree.filesTree.f) && PathMap(tree.filesTree.f) == RelabelMap(PathMap(f), from, to)
      else
        Clients() == view && tree.filesTree.f == f
    }

    /** What a rename, performed or not, has made of the tree. */
    ghost predicate TreeRenamed(f: Forest, cells: map<Node, Cell>, performed: bool, from: string, to: string)
      requires WellFormed(f) && WellFormed(tree.filesTree.f)
      reads tree, tree.filesTree
    {
      && SameRoots(f, tree.filesTree.f)
      && if performed then
           && HandlesKept(f, tree.filesTree.f)
           && PathMap(tree.filesTree.f) == RelabelMap(PathMap(f), from, to)
           && (Sound(f) ==> (Sound(tree.filesTree.f) <==> !Known(f, to)))
           && (Known(f, to) || Shared(f) ==> Shared(tree.filesTree.f))
         else tree.filesTree.f == f && tree.filesTree.cells == cells
    }

    /** The table does not notice. */
    method RenameBeside(from: string, to: string) returns (thrown: bool)
      requires tree.Held() && tree.topNode != null
      requires Throws(tree.filesTree.f, tree.topNode, from, to) || Ready(tree.filesTree.f, tree.topNode, from, to)
      requires table.Valid() && Apart()
      modifies tree`topNode, tree.filesTree, tree.filesTree.cells.Keys
      ensures tree.Held() && tree.topNode != null && table.Valid() && Apart()
      ensures fresh(tree.filesTree.cells.Keys - old(tree.filesTree.cells.Keys))
      ensures TreeRenamed(old(tree.filesTree.f), old(tree.filesTree.cells),
                          old(Finds(tree.filesTree.f, tree.topNode, from, to)), from, to)
      ensures thrown <==> old(Throws(tree.filesTree.f, tree.topNode, from, to))
    {
      ghost var beside := {tree, tree.filesTree} + tree.filesTree.cells.Keys;
      assert beside !! table.Repr;
      thrown := RenameInTree(from, to);
      assert table.Valid() == old(table.Valid());
    }

    method RenameInTree(from: string, to: string) returns (thrown: bool)
      requires tree.Held() && tree.topNode != null
      requires Throws(tree.filesTree.f, tree.topNode, from, to) || Ready(tree.filesTree.f, tree.topNode, from, to)
      modifies tree`topNode, tree.filesTree, tree.filesTree.cells.Keys
      ensures tree.Held() && tree.topNode != null
      ensures fresh(tree.filesTree.cells.Keys - old(tree.filesTree.cells.Keys))
      ensures TreeRenamed(old(tree.filesTree.f), old(tree.filesTree.cells),
                          old(Finds(tree.filesTree.f, tree.topNode, from, to)), from, to)
      ensures thrown <==> old(Throws(tree.filesTree.f, tree.topNode, from, to))
    {
      ghost var f := tree.filesTree.f;
      ghost var node, parent;
      thrown, node, parent := tree.RenameItem(from, to);
      if node != null && parent != null { SharedExactly(f, tree.filesTree.f, node, parent, from, to); }
    }

    /** The lookups of paths that a rename passes by are as they were in f. */
    ghost predicate KeepsAside(f: Forest, s: seq<Node?>, from: string, to: string, moved: bool)
      requires Coherent(f, s) && Coherent(tree.filesTree.f, table.slots)
      reads table, tree, tree.filesTree
    {
      forall path {:trigger Aside(from, to, moved, path)} ::
        Aside(from, to, moved, path) ==> KeepsLookup(f, s, tree.filesTree.f, table.slots, path)
    }

    lemma RenamedKeeps(f: Forest, s: seq<Node?>, performed: bool, from: string, to: string, path: string)
      requires Held() && Coherent(f, s) && Labelled(f) && Separated(f) && table.slots == s
      requires Renamed(f, ViewOf(f, s), performed, from, to) && !Under(from, path) && !Under(to, path)
      ensures KeepsLookup(f, s, tree.filesTree.f, table.slots, path)
    {
      if performed { RenameKeepsLookup(f, s, tree.filesTree.f, from, to, path); }
    }

    lemma MovedKeeps(f: Forest, s: seq<Node?>, performed: bool, from: string, to: string)
      requires Held() && Coherent(f, s) && Labelled(f) && Separated(f) && table.slots == s
      requires Renamed(f, ViewOf(f, s), performed, from, to)
      ensures KeepsAside(f, s, from, to, true)
    {
      forall path | Aside(from, to, true, path)
        ensures KeepsLookup(f, s, tree.filesTree.f, table.slots, path)
      {
        RenamedKeeps(f, s, performed, from, to, path);
      }
    }

    lemma DotKeeps(f: Forest, s: seq<Node?>, performed: bool, from: string, to: string, dot: string)
      requires Held() && Coherent(f, s) && Labelled(f) && Separated(f) && table.slots == s && (dot == "." || dot == "..")
      requires Renamed(f, ViewOf(f, s), performed, from + [SEP] + dot, to + [SEP] + dot)
      ensures KeepsAside(f, s, from, to, false)
    {
      forall path | Aside(from, to, false, path)
        ensures KeepsLookup(f, s, tree.filesTree.f, table.slots, path)
      {
        AsideOfDots(from, to, path);
        RenamedKeeps(f, s, performed, from + [SEP] + dot, to + [SEP] + dot, path);
      }
    }

    lemma KeepsThrough(f: Forest, s: seq<Node?>, g: Forest, t: seq<Node?>, from: string, to: string, moved: bool)
      requires Held() && Coherent(f, s) && Coherent(g, t) && KeepsAside(g, t, from, to, moved)
      requires forall path {:trigger Aside(from, to, moved, path)} :: Aside(from, to, moved, path) ==> KeepsLookup(f, s, g, t, path)
      ensures KeepsAside(f, s, from, to, moved)
    {
      forall path | Aside(from, to, moved, path)
        ensures KeepsLookup(f, s, tree.filesTree.f, table.slots, path)
      {
        KeepsLookupThrough(f, s, g, t, tree.filesTree.f, table.slots, path);
      }
    }

    /** RenameDirectory, after MoveFileW returned errorNumber. After a successful move the two extra
        renames of the dot entries find nothing to do; after a failed one they are made on their own. */
    method RenameDirectory(from: string, to: string, errorNumber: int) returns (r: int)
      requires Valid() && tree.topNode != null
      requires DotArgs(tree.filesTree.f, from, to, ".") && DotArgs(tree.filesTree.f, from, to, "..")
      requires if errorNumber == 0 then MoveDone(tree.filesTree.f, from, to) else MoveFailed(tree.filesTree.f, from, to)
      modifies tree`topNode, tree.filesTree, tree.filesTree.cells.Keys
      ensures Held() && tree.topNode != null && r == errorNumber
      ensures errorNumber == 0 ==>
                Renamed(old(tree.filesTree.f), old(Clients()), Performed(old(tree.filesTree.f), from, to), from, to)
      ensures errorNumber != 0 ==> DotsRenamed(old(tree.filesTree.f), old(Clients()), from, to)
      ensures KeepsAside(old(tree.filesTree.f), old(table.slots), from, to, errorNumber == 0)
    {
      if errorNumber == 0 {
        RenameMoved(from, to);
      } else {
        RenameDotsAlone(from, to);
      }
      r := errorNumber;
    }

    /** RenameDirectory after a successful move. */
    method RenameMoved(from: string, to: string)
      requires Valid() && tree.topNode != null && MoveDone(tree.filesTree.f, from, to)
      requires DotArgs(tree.filesTree.f, from, to, ".") && DotArgs(tree.filesTree.f, from, to, "..")
      modifies tree`topNode, tree.filesTree, tree.filesTree.cells.Keys
      ensures Held() && tree.topNode != null
      ensures Renamed(old(tree.filesTree.f), old(Clients()), Performed(old(tree.filesTree.f), from, to), from, to)
      ensures KeepsAside(old(tree.filesTree.f), old(table.slots), from, to, true)
    {
      hide FileTable.Held, FileTable.KeepsAside, FileTable.Renamed, Sound, Ready, Finds, Performed, RenameArgs;
      HeldIsShaped();
      ghost var f, s := tree.filesTree.f, table.slots;
      SoundIsUnshared(f, from);
      SoundIsUnshared(f, to);
      RenameTargets(f, tree.topNode, from, to);
      var thrown := RenameFile(from, to);
      assert !thrown;
      RenameIdleDots(from, to, f, s);
      MovedKeeps(f, s, Performed(f, from, to), from, to);
    }

    /** The two extra renames, in the state after the main one. */
    method RenameIdleDots(from: string, to: string, ghost f: Forest, ghost s: seq<Node?>)
      requires Held() && tree.topNode != null
      requires Sound(f) && Coherent(f, s) && SameRoots(f, tree.filesTree.f)
      requires DotArgs(f, from, to, ".") && DotArgs(f, from, to, "..") && MoveDone(f, from, to)
      requires Renamed(f, ViewOf(f, s), Performed(f, from, to), from, to)
      modifies tree`topNode, tree.filesTree, tree.filesTree.cells.Keys
      ensures Held() && tree.topNode != null
      ensures Renamed(f, ViewOf(f, s), Performed(f, from, to), from, to)
    {
      RenameIdleDot(from, to, ".", f, s);
      RenameIdleDot(from, to, "..", f, s);
    }

    /** One of the extra renames, in the state after the main one. */
    method RenameIdleDot(from: string, to: string, dot: string, ghost f: Forest, ghost s: seq<Node?>)
      requires Held() && tree.topNode != null
      requires Sound(f) && Coherent(f, s) && SameRoots(f, tree.filesTree.f)
      requires DotArgs(f, from, to, dot) && GoodName(dot) && MoveDone(f, from, to)
      requires Renamed(f, ViewOf(f, s), Performed(f, from, to), from, to)
      modifies tree`topNode, tree.filesTree, tree.filesTree.cells.Keys
      ensures Held() && tree.topNode != null
      ensures tree.filesTree.cells == old(tree.filesTree.cells) && SameRoots(f, tree.filesTree.f)
      ensures Renamed(f, ViewOf(f, s), Performed(f, from, to), from, to)
    {
      DotsAreIdle(f, s, tree.filesTree.f, table.slots, tree.topNode, from, to, dot);
      var thrown := RenameFile(from + [SEP] + dot, to + [SEP] + dot);
      assert !thrown;
    }

    /** The table after the two dot renames, each of which was performed or not. */
    ghost predicate DotsRenamed(f: Forest, view: View, from: string, to: string)
      requires WellFormed(f) && WellFormed(tree.filesTree.f)
      reads table, tree, tree.filesTree
    {
      Clients() == DotView(f, view, from, to) && (Sound(tree.filesTree.f) <==> !DotsCollide(f, from, to))
    }

    /** RenameDirectory after a failed move. */
    method RenameDotsAlone(from: string, to: string)
      requires Valid() && tree.topNode != null && MoveFailed(tree.filesTree.f, from, to)
      modifies tree`topNode, tree.filesTree, tree.filesTree.cells.Keys
      ensures Held() && tree.topNode != null
      ensures DotsRenamed(old(tree.filesTree.f), old(Clients()), from, to)
      ensures KeepsAside(old(tree.filesTree.f), old(table.slots), from, to, false)
    {
      hide FileTable.Held, FileTable.KeepsAside, FileTable.DotsRenamed, Sound, Ready, Finds, Performed, RenameArgs, KeepsLookup;
      HeldIsShaped();
      ghost var f, s, view := tree.filesTree.f, table.slots, Clients();
      SoundIsUnshared(f, Dot(from));
      SoundIsUnshared(f, Dot(to));
      RenameTargets(f, tree.topNode, Dot(from), Dot(to));
      var thrown := RenameFile(Dot(from), Dot(to));
      assert !thrown;
      ghost var g := tree.filesTree.f;
      DotKeeps(f, s, Performed(f, Dot(from), Dot(to)), from, to, ".");
      RenameSecondDot(from, to, f, view);
      KeepsThrough(f, s, g, s, from, to, false);
    }

    /** The second dot rename, in the state after the first. */
    method RenameSecondDot(from: string, to: string, ghost f: Forest, ghost view: View)
      requires Held() && tree.topNode != null && Sound(f) && MoveFailed(f, from, to) && SameRoots(f, tree.filesTree.f)
      requires Renamed(f, view, Performed(f, Dot(from), Dot(to)), Dot(from), Dot(to))
      modifies tree`topNode, tree.filesTree, tree.filesTree.cells.Keys
      ensures Held() && tree.topNode != null
      ensures DotsRenamed(f, view, from, to)
      ensures KeepsAside(old(tree.filesTree.f), old(table.slots), from, to, false)
    {
      hide FileTable.Held, FileTable.KeepsAside, Sound, FileTable.DotsRenamed, Ready, Finds, Performed, RenameArgs, MoveFailed, Known, Shared, HandlesKept, Apply;
      HeldIsShaped();
      SoundIsShaped(f);
      ghost var g, s := tree.filesTree.f, table.slots;
      SecondDotReady(f, g, tree.topNode, from, to);
      var thrown := RenameFile(DotDot(from), DotDot(to));
      assert !thrown;
      DotKeeps(g, s, Performed(f, DotDot(from), DotDot(to)), from, to, "..");
      HeldIsShaped();
      BothDotsDone(f, view, g, ViewOf(g, s), from, to);
    }

    lemma BothDotsDone(f: Forest, view: View, g: Forest, between: View, from: string, to: string)
      requires Sound(f) && WellFormed(g) && WellFormed(tree.filesTree.f)
      requires if Performed(f, Dot(from), Dot(to)) then
                 && between == Apply(view, Rename(Dot(from), Dot(to)))
                 && (Sound(g) <==> !Known(f, Dot(to))) && (Known(f, Dot(to)) ==> Shared(g))
               else between == view && g == f
      requires Known(g, DotDot(to)) <==> Known(f, DotDot(to))
      requires Renamed(g, between, Performed(f, DotDot(from), DotDot(to)), DotDot(from), DotDot(to))
      ensures DotsRenamed(f, view, from, to)
    {
      hide Performed, Known, Shared, HandlesKept, Apply, PathMap;
      if Sound(tree.filesTree.f) { SoundIsNotShared(tree.filesTree.f); }
    }

    /** RemoveFolder, after RemoveDirectory reported `removed`. */
    method RemoveFolder(path: string, removed: bool)
      requires Valid() && (removed ==> FolderRemovable(tree.filesTree.f, path))
      modifies tree`topNode, tree.filesTree, tree.filesTree.cells.Keys, table.Repr
      ensures Valid()
      ensures table.Repr == old(table.Repr) && tree.filesTree.cells.Keys <= old(tree.filesTree.cells.Keys)
      ensures Clients() ==
              if removed then Run(old(Clients()), [Remove(Dot(path)), Remove(DotDot(path)), Remove(path)])
              else old(Clients())
      ensures Shrunk(old(tree.filesTree.f), tree.filesTree.f)
      ensures old(tree.topNode) != null ==> tree.topNode != null
    {
      if removed {
        RemoveDots(path);
        ghost var f := tree.filesTree.f;
        FolderItselfRemovable(f, path);
        var _ := RemoveItem(path);
        ThreeRemovals(old(Clients()), path);
      }
    }

    /** The removal of the dot entries in RemoveFolder. */
    method RemoveDots(path: string)
      requires Valid() && FolderRemovable(tree.filesTree.f, path)
      modifies tree`topNode, tree.filesTree, tree.filesTree.cells.Keys, table.Repr
      ensures Valid() && FolderRemovable(tree.filesTree.f, path)
      ensures table.Repr == old(table.Repr) && tree.filesTree.cells.Keys <= old(tree.filesTree.cells.Keys)
      ensures Clients() == Apply(Apply(old(Clients()), Remove(Dot(path))), Remove(DotDot(path)))
      ensures Shrunk(old(tree.filesTree.f), tree.filesTree.f)
      ensures old(tree.topNode) != null ==> tree.topNode != null
      ensures !Known(tree.filesTree.f, Dot(path)) && !Known(tree.filesTree.f, DotDot(path))
    {
      ghost var f := tree.filesTree.f;
      RemoveDot(path, ".");
      ghost var g := tree.filesTree.f;
      RemoveDot(path, "..");
      ShrunkForgets(g, tree.filesTree.f, Dot(path));
    }

    method RemoveDot(path: string, dot: string)
      requires Valid() && FolderRemovable(tree.filesTree.f, path)
      requires dot == "." || dot == ".."
      modifies tree`topNode, tree.filesTree, tree.filesTree.cells.Keys, table.Repr
      ensures Valid() && FolderRemovable(tree.filesTree.f, path)
      ensures table.Repr == old(table.Repr) && tree.filesTree.cells.Keys <= old(tree.filesTree.cells.Keys)
      ensures Clients() == Apply(old(Clients()), Remove(path + [SEP] + dot))
      ensures Shrunk(old(tree.filesTree.f), tree.filesTree.f)
      ensures old(tree.topNode) != null ==> tree.topNode != null
      ensures !Known(tree.filesTree.f, path + [SEP] + dot)
    {
      ghost var f := tree.filesTree.f;
      DotsRemovable(f, path);
      var _ := RemoveItem(path + [SEP] + dot);
      FolderPersists(f, tree.filesTree.f, path);
      RemovedIsGone(old(Clients()), path + [SEP] + dot);
      ViewShows(tree.filesTree.f, table.slots, path + [SEP] + dot);
    }

    /** remove_entry of REMOVE.cpp and RENAME.cpp, after the file system reported `removed`. */
    method RemoveEntry(path: string, directoryLink: bool, removed: bool)
      requires Valid() && (removed ==> EntryRemovable(tree.filesTree.f, path, directoryLink))
      modifies tree`topNode, tree.filesTree, tree.filesTree.cells.Keys, table.Repr
      ensures Valid()
      ensures table.Repr == old(table.Repr) && tree.filesTree.cells.Keys <= old(tree.filesTree.cells.Keys)
      ensures Clients() == Run(old(Clients()), EntryRemoval(path, directoryLink, removed))
      ensures Shrunk(old(tree.filesTree.f), tree.filesTree.f)
      ensures old(tree.topNode) != null ==> tree.topNode != null
    {
      if directoryLink {
        RemoveFolder(path, removed);
      } else if removed {
        var _ := RemoveItem(path);
        OneRemoval(old(Clients()), path);
      }
    }

    /** The first half of ProcedureRENAME: an existing target is removed. */
    method RemoveTarget(to: string, targetExists: bool, directoryLink: bool, removed: bool)
      requires Valid() && tree.topNode != null
      requires targetExists && removed ==> EntryRemovable(tree.filesTree.f, to, directoryLink)
      modifies tree`topNode, tree.filesTree, tree.filesTree.cells.Keys, table.Repr
      ensures Valid() && tree.topNode != null
      ensures table.Repr == old(table.Repr) && tree.filesTree.cells.Keys <= old(tree.filesTree.cells.Keys)
      ensures |table.slots| == |old(table.slots)|
      ensures Clients() == if targetExists then Run(old(Clients()), EntryRemoval(to, directoryLink, removed)) else old(Clients())
      ensures WithoutTarget(old(tree.filesTree.f), tree.filesTree.f, to, targetExists, directoryLink, removed)
    {
      hide FileTable.Held, Sound, EntryRemovable, Shrunk, EntryRemoval, WithoutTarget;
      HeldIsShaped();
      ghost var f, s := tree.filesTree.f, table.slots;
      if targetExists {
        RemoveEntry(to, directoryLink, removed);
      }
      HeldIsShaped();
      ShrunkToItself(f);
      RemovalLength(ViewOf(f, s), to, directoryLink, removed);
      TargetRemoved(f, s, tree.filesTree.f, table.slots, to, targetExists, directoryLink, removed);
    }

    /** The table part of ProcedureRENAME: an existing target is removed first. The rename is performed
        exactly when the move succeeded and, without what was removed, the source and the directory of
        the target are registered under one root; then the table stays sound exactly when the target was
        not a registration that outlived its file. When the move failed, only dot entries move, and only
        into such a target. */
    method ProcedureRENAME(from: string, to: string, targetExists: bool, directoryLink: bool, removed: bool,
                           errorNumber: int) returns (ok: bool, ghost mid: View)
      requires Valid() && tree.topNode != null
      requires RenameCall(tree.filesTree.f, from, to, targetExists, directoryLink, removed, errorNumber == 0)
      modifies tree`topNode, tree.filesTree, tree.filesTree.cells.Keys, table.Repr
      ensures Held() && tree.topNode != null && table.Repr == old(table.Repr) && |table.slots| == |old(table.slots)|
      ensures ok == (errorNumber == 0 && (targetExists ==> removed))
      ensures mid == if targetExists then Run(old(Clients()), EntryRemoval(to, directoryLink, removed)) else old(Clients())
      ensures ok ==>
                var performed := PerformedWithout(old(tree.filesTree.f), from, to, Unlisted(to, targetExists, directoryLink, removed));
                && Clients() == (if performed then Apply(mid, Rename(from, to)) else mid)
                && (Valid() <==> !(performed && !targetExists && Known(old(tree.filesTree.f), to)))
      ensures !ok && targetExists ==> Clients() == mid && Valid()
      ensures !ok && !targetExists ==>
                && Clients() == DotView(old(tree.filesTree.f), mid, from, to)
                && (Valid() <==> !DotsCollide(old(tree.filesTree.f), from, to))
      ensures KeepsAside(old(tree.filesTree.f), old(table.slots), from, to, errorNumber == 0)
    {
      hide FileTable.Held, FileTable.KeepsAside, DotView, DotsCollide, PerformedWithout, Sound, EntryRemovable;
      hide MoveFailed, Relocatable, DotArgs, MoveDone, Run, EntryRemoval, Unlisted;
      HeldIsShaped();
      ghost var f, s := tree.filesTree.f, table.slots;
      RemoveTarget(to, targetExists, directoryLink, removed);
      HeldIsShaped();
      mid := Clients();
      RemovedKeeps(f, s, from, to, errorNumber == 0, targetExists, directoryLink, removed);
      if targetExists && !removed {
        return false, mid;
      }
      ghost var g, t := tree.filesTree.f, table.slots;
      ok := RenameWithoutTarget(from, to, targetExists, directoryLink, removed, errorNumber, f);
      KeepsThrough(f, s, g, t, from, to, errorNumber == 0);
    }

    lemma RemovedKeeps(f: Forest, s: seq<Node?>, from: string, to: string, moved: bool,
                       targetExists: bool, directoryLink: bool, removed: bool)
      requires Valid() && Sound(f) && Coherent(f, s)
      requires Clients() == if targetExists then Run(ViewOf(f, s), EntryRemoval(to, directoryLink, removed)) else ViewOf(f, s)
      ensures KeepsAside(f, s, from, to, moved)
    {
      forall path | Aside(from, to, moved, path)
        ensures KeepsLookup(f, s, tree.filesTree.f, table.slots, path)
      {
        forall id | 0 <= id < |s| && ViewOf(f, s)[id] == Some(path)
          ensures id < |Clients()| && Clients()[id] == Some(path)
        {
          if targetExists { RemovalIsAside(ViewOf(f, s), from, to, moved, directoryLink, removed, path, id); }
        }
        SoundKeepsLookup(f, s, tree.filesTree.f, table.slots, path);
      }
    }

    /** The second half, in the state f has become. */
    method RenameWithoutTarget(from: string, to: string, ghost targetExists: bool, ghost directoryLink: bool,
                               ghost removed: bool, errorNumber: int, ghost f: Forest) returns (ok: bool)
      requires Valid() && tree.topNode != null && Sound(f) && (targetExists ==> removed)
      requires WithoutTarget(f, tree.filesTree.f, to, targetExists, directoryLink, removed)
      requires RenameCall(f, from, to, targetExists, directoryLink, removed, errorNumber == 0)
      modifies tree`topNode, tree.filesTree, tree.filesTree.cells.Keys
      ensures Held() && tree.topNode != null && ok == (errorNumber == 0)
      ensures ok ==>
                var performed := PerformedWithout(f, from, to, Unlisted(to, targetExists, directoryLink, removed));
                && Clients() == (if performed then Apply(old(Clients()), Rename(from, to)) else old(Clients()))
                && (Valid() <==> !(performed && !targetExists && Known(f, to)))
      ensures !ok && targetExists ==> Clients() == old(Clients()) && Valid()
      ensures !ok && !targetExists ==>
                Clients() == DotView(f, old(Clients()), from, to) && (Valid() <==> !DotsCollide(f, from, to))
      ensures KeepsAside(old(tree.filesTree.f), old(table.slots), from, to, errorNumber == 0)
    {
      hide FileTable.KeepsAside, DotView, DotsCollide, PerformedWithout, MoveDone, MoveFailed, Separated, Named;
      ghost var g, view := tree.filesTree.f, Clients();
      ReadyToRename(f, g, from, to, targetExists, directoryLink, removed, errorNumber == 0);
      PerformedThere(f, g, from, to, Unlisted(to, targetExists, directoryLink, removed));
      var r := RenameDirectory(from, to, errorNumber);
      ok := r == 0;
      if targetExists { DotsStay(g, view, from, to); } else { DotsThere(f, g, view, from, to); }
    }
  }
}
