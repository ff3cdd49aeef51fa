/** CFileTree of src/FileTree.cpp: the static tree filesTree and the cached root topNode. */
module FileTrees {
  import opened Nodes
  import opened Forests
  import opened Ancestry
  import opened Erasure
  import opened Paths
  import opened Lookup
  import opened Registry
  import opened Renaming
  import opened Trees

  class FileTree {
    const filesTree: Tree
    var topNode: Node?

    /** The cached root is a top-level node, if there is one. */
    ghost predicate Rooted()
      reads this, filesTree, filesTree.cells.Keys
    {
      && filesTree.Valid()
      && (topNode == null ==> Tops(filesTree.f) == [])
      && (topNode != null ==> topNode in Tops(filesTree.f))
    }

    /** What holds in every state, also where two siblings have got the same name. */
    ghost predicate Held()
      reads this, filesTree, filesTree.cells.Keys
    {
      Rooted() && Labelled(filesTree.f) && Separated(filesTree.f)
    }

    ghost predicate Valid()
      reads this, filesTree, filesTree.cells.Keys
    {
      Held() && Sound(filesTree.f)
    }

    constructor ()
      ensures Valid()
      ensures fresh(filesTree) && fresh(filesTree.cells.Keys)
      ensures topNode == null && PathMap(filesTree.f) == map[]
    {
      filesTree := new Tree();
      topNode := null;
      new;
      EmptyIsSound(filesTree.head, filesTree.feet);
    }

    /** findNodeWithPathFromNode */
    method FindNodeWithPathFromNode(path: string, node: Node) returns (r: Node?)
      requires filesTree.Valid() && node in filesTree.f.up
      ensures r == FindFrom(filesTree.f, path, node)
      decreases |path|
    {
      ghost var f := filesTree.f;
      assert node.Value() == filesTree.cells[node] == CellOf(f, node);
      assert NodeOk(f, node);
      ghost var row, i := Kids(f, node), 0;
      var sib := node.firstChild;
      var currentPath := FirstDirname(path);
      var followingPath := FollowingPath(path);
      var currentLevel := followingPath == "";
      while sib != null
        invariant i <= |row|
        invariant sib == if i == |row| then null else row[i]
        invariant Scan(f, row, currentPath) == Scan(f, row[i..], currentPath)
        decreases |row| - i
      {
        RowLink(f, node, i);
        assert sib.Value() == filesTree.cells[sib] == CellOf(f, sib);
        if sib.data.path == currentPath {
          if currentLevel {
            return sib;
          } else {
            r := FindNodeWithPathFromNode(followingPath, sib);
            return;
          }
        }
        sib := sib.nextSibling;
        i := i + 1;
      }
      return null;
    }

    /** findNodeFromRootWithPath */
    method FindNodeFromRootWithPath(path: string) returns (r: Node?)
      requires Held()
      modifies this`topNode
      ensures Held()
      ensures old(topNode) == null ==> r == null && topNode == null
      ensures old(topNode) != null ==>
                && topNode == CachedRoot(filesTree.f, old(topNode), path)
                && r == Find(filesTree.f, old(topNode), path)
    {
      hide WellFormed, Occurs, Labelled, Separated;
      if topNode == null {
        return null;
      }
      ghost var f := filesTree.f;
      assert topNode.Value() == filesTree.cells[topNode] == CellOf(f, topNode);
      if path == topNode.data.path {
        OccursAt(path, path, 0);
        return topNode;
      }
      if Occurs(topNode.data.path, path) {
        OccursLength(topNode.data.path, path);
        r := FindNodeWithPathFromNode(path[|topNode.data.path| + 1..], topNode);
        return;
      }
      var it := SearchRoots(path);
      if it == null {
        return null;
      }
      topNode := it;
      assert it.Value() == filesTree.cells[it] == CellOf(f, it);
      if path == it.data.path {
        return it;
      }
      OccursLength(it.data.path, path);
      r := FindNodeWithPathFromNode(path[|it.data.path| + 1..], it);
    }

    /** The loop of findNodeFromRootWithPath: the first top-level node that is the path or occurs
        in it. */
    method SearchRoots(path: string) returns (it: Node?)
      requires filesTree.Valid()
      ensures it == FirstRoot(filesTree.f, Tops(filesTree.f), path)
    {
      ghost var f, i := filesTree.f, 0;
      ghost var tops := Tops(f);
      assert filesTree.head.Value() == filesTree.cells[filesTree.head] == CellOf(f, filesTree.head);
      TopCell(f, 0);
      it := filesTree.head.nextSibling;
      while it != filesTree.feet
        invariant i <= |tops|
        invariant it != null && it == f.rows[null][i + 1]
        invariant FirstRoot(f, tops, path) == FirstRoot(f, tops[i..], path)
        decreases |tops| - i
      {
        TopCell(f, i + 1);
        assert it.Value() == filesTree.cells[it] == CellOf(f, it);
        if path == it.data.path {
          OccursAt(path, path, 0);
          return;
        } else if Occurs(it.data.path, path) {
          return;
        }
        it := it.nextSibling;
        i := i + 1;
      }
      FeetIsLast(f, i);
      it := null;
    }

    /** findParentNodeFromRootForPath; substr throws when the path is that of the cached root. */
    method FindParentNodeFromRootForPath(path: string) returns (thrown: bool, r: Node?)
      requires Rooted() && topNode != null
      ensures thrown <==> path == Name(filesTree.f, topNode)
      ensures !thrown ==> r == FindParent(filesTree.f, topNode, path)
    {
      assert topNode.Value() == filesTree.cells[topNode] == CellOf(filesTree.f, topNode);
      thrown := false;
      if !Occurs(topNode.data.path, path) {
        OccursAt(path, path, 0);
        return false, null;
      }
      if |topNode.data.path| + 1 > |path| {
        OccursLength(topNode.data.path, path);
        return true, null;
      }
      var currentPath := path[|topNode.data.path| + 1..];
      var followingPath := Dirname(currentPath);
      if followingPath == "" {
        return false, topNode;
      } else {
        r := FindNodeWithPathFromNode(followingPath, topNode);
      }
    }

    /** GetNodeFullPath, appending to an empty string. */
    method GetNodeFullPath(node: Node) returns (path: string)
      requires filesTree.Valid() && node in filesTree.f.up
      ensures path == FullPath(filesTree.f, node)
    {
      ghost var f := filesTree.f;
      assert node.Value() == filesTree.cells[node] == CellOf(f, node);
      path := node.data.path;
      var parentNode := node.parent;
      ghost var below := node;
      assert NodeOk(f, node);
      while parentNode != null
        invariant below in f.up && parentNode == f.up[below]
        invariant parentNode != null ==> parentNode in f.up
        invariant FullPath(f, node) == (if parentNode == null then "" else FullPath(f, parentNode) + [SEP]) + path
        decreases Rank(f, below)
      {
        assert parentNode.Value() == filesTree.cells[parentNode] == CellOf(f, parentNode);
        assert NodeOk(f, below) && NodeOk(f, parentNode);
        path := [SEP] + path;
        path := parentNode.data.path + path;
        below := parentNode;
        parentNode := parentNode.parent;
      }
    }

    /** AddItem: below the parent that is found under the cached root, or else as a root in front of the
        cached one, also where the path lies under a root. With an addable path, and its root cached by the
        lookup before, the tree stays sound and registers exactly one more node. */
    method AddItem(absolutePath: string, handle: seq<Byte>) returns (thrown: bool, item: Item, ghost node: Node?)
      requires Rooted()
      modifies this`topNode, filesTree, filesTree.cells.Keys
      ensures Rooted() && fresh(filesTree.cells.Keys - old(filesTree.cells.Keys))
      ensures thrown <==> old(topNode) != null && absolutePath == Name(old(filesTree.f), old(topNode))
      ensures thrown ==> filesTree.f == old(filesTree.f) && topNode == old(topNode)
      ensures !thrown ==>
                && topNode != null && node != null && fresh(node) && item.handle == Some(handle)
                && ItemAdded(old(filesTree.f), filesTree.f, old(topNode), absolutePath, item, node)
      ensures old(ReadyToAdd(absolutePath)) ==>
                && !thrown && Valid() && node in filesTree.f.up
                && PathMap(filesTree.f) == PathMap(old(filesTree.f))[node := absolutePath]
                && filesTree.f.item == old(filesTree.f).item[node := item]
    {
      hide WellFormed, PathMap, ItemAdded, Addable, Find, CachedRoot;
      ghost var f, top := filesTree.f, topNode;
      ghost var proper := ReadyToAdd(absolutePath);
      if proper && top != null { NotTheRoot(f, top, absolutePath); }
      thrown, item, node := PlaceItem(absolutePath, handle);
      if proper { AddedIsSound(f, filesTree.f, top, absolutePath, item, node); }
    }

    /** The branches of AddItem. */
    method PlaceItem(absolutePath: string, handle: seq<Byte>) returns (thrown: bool, item: Item, ghost node: Node?)
      requires Rooted()
      modifies this`topNode, filesTree, filesTree.cells.Keys
      ensures Rooted() && fresh(filesTree.cells.Keys - old(filesTree.cells.Keys))
      ensures thrown <==> old(topNode) != null && absolutePath == Name(old(filesTree.f), old(topNode))
      ensures thrown ==> filesTree.f == old(filesTree.f) && topNode == old(topNode)
      ensures !thrown ==>
                && topNode != null && node != null && fresh(node) && item.handle == Some(handle)
                && node !in old(filesTree.f).up
                && ItemAdded(old(filesTree.f), filesTree.f, old(topNode), absolutePath, item, node)
    {
      hide WellFormed, Attach, CanAttach;
      var empty := filesTree.IsEmpty();
      EmptyHasNoTops(filesTree.f);
      thrown, item := false, Item(absolutePath, Some(handle));
      if empty {
        node := AddRoot(item);
      } else {
        var parentNode;
        thrown, parentNode := FindParentNodeFromRootForPath(absolutePath);
        if thrown {
          node := null;
          return;
        }
        if parentNode != null {
          ParentIsProper(filesTree.f, topNode, absolutePath);
          item := Item(Basename(absolutePath), Some(handle));
          node := AddChild(parentNode, item);
        } else {
          node := AddRoot(item);
        }
      }
    }

    /** What callers see to. */
    ghost predicate ReadyToAdd(path: string)
      reads this, filesTree, filesTree.cells.Keys
    {
      Valid() && Addable(filesTree.f, path) && (topNode != null ==> topNode == CachedRoot(filesTree.f, topNode, path))
    }

    /** The case of AddItem in which the parent is found. */
    method AddChild(parentNode: Node, item: Item) returns (ghost node: Node)
      requires Rooted() && topNode != null && parentNode in filesTree.f.rows && !Sentinel(filesTree.f, parentNode)
      modifies filesTree, filesTree.cells.Keys
      ensures Rooted()
      ensures fresh(node) && fresh(filesTree.cells.Keys - old(filesTree.cells.Keys))
      ensures CanAttach(old(filesTree.f), parentNode, |old(filesTree.f).rows[parentNode]|, node)
      ensures filesTree.f == Attach(old(filesTree.f), parentNode, |old(filesTree.f).rows[parentNode]|, node, item)
    {
      var tmp := filesTree.AppendChild(parentNode, item);
      node := tmp;
    }

    /** The two cases of AddItem that add a top-level node. */
    method AddRoot(item: Item) returns (ghost node: Node)
      requires Rooted()
      modifies this`topNode, filesTree, filesTree.cells.Keys
      ensures Rooted() && topNode != null
      ensures fresh(node) && fresh(filesTree.cells.Keys - old(filesTree.cells.Keys))
      ensures old(topNode) != null ==> old(topNode) in old(filesTree.f).up
      ensures var k := if old(topNode) == null then 1 else Place(old(filesTree.f), old(topNode));
              CanAttach(old(filesTree.f), null, k, node) && filesTree.f == Attach(old(filesTree.f), null, k, node, item)
    {
      if topNode == null {
        NoTops(filesTree.f);
        var tmp := filesTree.SetHead(item);
        node := tmp;
      } else {
        TopPlace(filesTree.f, topNode);
        var tmp := filesTree.Insert(topNode, item);
        node := tmp;
      }
      TopNodeToBegin();
    }

    /** topNode = filesTree.begin() */
    method TopNodeToBegin()
      requires filesTree.Valid() && Tops(filesTree.f) != []
      modifies this`topNode
      ensures Rooted() && topNode != null
    {
      ghost var f := filesTree.f;
      assert filesTree.head.Value() == filesTree.cells[filesTree.head] == CellOf(f, filesTree.head);
      TopCell(f, 0);
      topNode := filesTree.head.nextSibling;
      TopCell(f, 1);
    }

    /** RemoveItem */
    method RemoveItem(absolutePath: string) returns (ghost node: Node?)
      requires Valid()
      requires topNode != null ==>
                 var n := Find(filesTree.f, topNode, absolutePath);
                 n != null ==> !Sentinel(filesTree.f, n) && filesTree.f.up[n] != null
      modifies this`topNode, filesTree, filesTree.cells.Keys
      ensures Valid() && filesTree.cells.Keys <= old(filesTree.cells.Keys)
      ensures old(topNode) == null ==> node == null && topNode == null
      ensures old(topNode) != null ==>
                && topNode == CachedRoot(old(filesTree.f), old(topNode), absolutePath)
                && node == Find(old(filesTree.f), old(topNode), absolutePath)
      ensures node == null ==> filesTree.f == old(filesTree.f)
      ensures node != null ==> CanErase(old(filesTree.f), node) && filesTree.f == Erased(old(filesTree.f), node)
      ensures node != null ==>
                && SameRoots(old(filesTree.f), filesTree.f)
                && PathMap(filesTree.f) == PathMap(old(filesTree.f)) - Subtree(old(filesTree.f), node)
    {
      hide WellFormed, PathMap, Find, CachedRoot, Named, Separated, Erased, SameRoots, Subtree;
      var found := FindNodeFromRootWithPath(absolutePath);
      node := found;
      if found != null {
        EraseFound(found);
      }
    }

    /** RemoveItem once the node is found. */
    method EraseFound(node: Node)
      requires Valid() && topNode != null && node in filesTree.f.up
      requires !Sentinel(filesTree.f, node) && filesTree.f.up[node] != null
      modifies filesTree, filesTree.cells.Keys
      ensures Valid() && filesTree.cells.Keys <= old(filesTree.cells.Keys)
      ensures CanErase(old(filesTree.f), node) && filesTree.f == Erased(old(filesTree.f), node)
      ensures SameRoots(old(filesTree.f), filesTree.f)
      ensures PathMap(filesTree.f) == PathMap(old(filesTree.f)) - Subtree(old(filesTree.f), node)
    {
      hide Below, FullPath;
      SubtreeRemoved(filesTree.f, node);
      var _, _, _ := filesTree.Erase(node);
    }

    /** RenameItem */
    method RenameItem(absolutePathFrom: string, absolutePathTo: string)
        returns (thrown: bool, ghost node: Node?, ghost parentNode: Node?)
      requires Held() && topNode != null
      requires var f, top := filesTree.f, CachedRoot(filesTree.f, topNode, absolutePathFrom);
               absolutePathTo != Name(f, top) ==>
                 var n, p := Find(f, topNode, absolutePathFrom), FindParent(f, top, absolutePathTo);
                 (n != null && p != null ==> CanRename(f, n, p, Basename(absolutePathTo)))
      modifies this`topNode, filesTree, filesTree.cells.Keys
      ensures Held() && fresh(filesTree.cells.Keys - old(filesTree.cells.Keys))
      ensures topNode == CachedRoot(old(filesTree.f), old(topNode), absolutePathFrom)
      ensures thrown <==> absolutePathTo == Name(old(filesTree.f), topNode)
      ensures node == Find(old(filesTree.f), old(topNode), absolutePathFrom)
      ensures parentNode == if thrown then null else FindParent(old(filesTree.f), topNode, absolutePathTo)
      ensures node == null || parentNode == null ==>
                filesTree.f == old(filesTree.f) && filesTree.cells == old(filesTree.cells)
      ensures node != null && parentNode != null ==>
                && HandlesKept(old(filesTree.f), filesTree.f)
                && SameRoots(old(filesTree.f), filesTree.f)
                && (Named(old(filesTree.f)) && Unoccupied(old(filesTree.f), node, parentNode, Basename(absolutePathTo)) ==>
                      Sound(filesTree.f))
                && PathMap(filesTree.f) ==
                   RelabelMap(PathMap(old(filesTree.f)), FullPath(old(filesTree.f), node),
                              FullPath(old(filesTree.f), parentNode) + [SEP] + Basename(absolutePathTo))
    {
      hide Sound, WellFormed, Find, FindParent, CanRename, RelabelMap, PathMap, HandlesKept, SameRoots, Named, Unoccupied;
      ghost var f := filesTree.f;
      var from := FindNodeFromRootWithPath(absolutePathFrom);
      var to;
      thrown, to := FindParentNodeFromRootForPath(absolutePathTo);
      node, parentNode := from, if thrown then null else to;
      if thrown {
        return;
      }
      if to != null && from != null {
        ghost var keys := filesTree.cells.Keys;
        ghost var ph := MoveAndRename(from, to, Basename(absolutePathTo));
        assert forall n :: n in filesTree.cells.Keys && n !in keys ==> fresh(n);
      }
    }

    /** The branch of RenameItem where both nodes are found. */
    method MoveAndRename(node: Node, parentNode: Node, base: string) returns (ghost ph: Node)
      requires Held() && topNode != null
      requires CanRename(filesTree.f, node, parentNode, base)
      modifies filesTree, filesTree.cells.Keys
      ensures Held() && fresh(filesTree.cells.Keys - old(filesTree.cells.Keys))
      ensures HandlesKept(old(filesTree.f), filesTree.f) && SameRoots(old(filesTree.f), filesTree.f)
      ensures Named(old(filesTree.f)) && Unoccupied(old(filesTree.f), node, parentNode, base) ==> Sound(filesTree.f)
      ensures PathMap(filesTree.f) ==
              RelabelMap(PathMap(old(filesTree.f)), FullPath(old(filesTree.f), node),
                         FullPath(old(filesTree.f), parentNode) + [SEP] + base)
    {
      ghost var f := filesTree.f;
      ph := Relocate(node, parentNode, base);
      RenameItemRelabels(f, node, parentNode, ph, base);
      HandlesKeptByRename(f, node, parentNode, ph, base);
    }

    /** The statements of RenameItem once both nodes are found. */
    method Relocate(node: Node, parentNode: Node, base: string) returns (ghost ph: Node)
      requires filesTree.Valid() && CanRename(filesTree.f, node, parentNode, base)
      modifies filesTree, filesTree.cells.Keys
      ensures filesTree.Valid() && fresh(filesTree.cells.Keys - old(filesTree.cells.Keys))
      ensures RenameAllowed(old(filesTree.f), node, parentNode, ph)
      ensures filesTree.f == RenamedForest(WithPlaceholder(old(filesTree.f), parentNode, ph), node, parentNode, base)
    {
      ghost var f := filesTree.f;
      ph := EnsureChild(parentNode);
      RenameItemAllowed(f, node, parentNode, ph, base);
      MoveBehindFirst(node, parentNode, base);
    }

    /** The placeholder step of RenameItem. */
    method EnsureChild(parentNode: Node) returns (ghost ph: Node)
      requires filesTree.Valid() && Registered(filesTree.f, parentNode)
      modifies filesTree, filesTree.cells.Keys
      ensures filesTree.Valid() && fresh(filesTree.cells.Keys - old(filesTree.cells.Keys))
      ensures parentNode in old(filesTree.f).rows && !Sentinel(old(filesTree.f), parentNode)
      ensures old(filesTree.f).rows[parentNode] == [] ==> ph !in old(filesTree.f).up
      ensures filesTree.f == WithPlaceholder(old(filesTree.f), parentNode, ph)
    {
      assert NodeOk(filesTree.f, parentNode);
      ph := parentNode;
      var count := filesTree.NumberOfChildren(parentNode);
      if count < 1 {
        var tmp := filesTree.AppendChild(parentNode, NO_ITEM);
        ph := tmp;
      }
    }

    /** move_after behind the first child of the new parent, then the change of name. */
    method MoveBehindFirst(node: Node, parentNode: Node, base: string)
      requires filesTree.Valid() && Placeable(filesTree.f, node, parentNode)
      modifies filesTree, filesTree.cells.Keys
      ensures filesTree.Valid() && filesTree.cells.Keys <= old(filesTree.cells.Keys)
      ensures filesTree.f == RenamedForest(old(filesTree.f), node, parentNode, base)
    {
      ghost var f := filesTree.f;
      assert parentNode.Value() == filesTree.cells[parentNode] == CellOf(f, parentNode);
      var firstChild := parentNode.firstChild;
      MovedLinksUp(f, firstChild, node);
      filesTree.MoveAfter(firstChild, node);
      assert NodeOk(filesTree.f, node);
      filesTree.SetPath(node, base);
    }
  }
}
