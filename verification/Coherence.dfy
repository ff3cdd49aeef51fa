/** How the slots of the file table and the nodes of the tree refer to each other, and the view a
    client has of both: for every handle ever issued, the path it stands for, if any. */
module Coherence {
  import opened Nodes
  import opened Forests
  import opened Ancestry
  import opened Registry
  import opened Plainness
  import opened Renaming
  import opened Handles
  import opened HandleMachine

  /** A slot is null or holds a registered node whose handle decodes to the slot number. */
  ghost predicate SlotOk(f: Forest, slots: seq<Node?>, id: nat)
    requires WellFormed(f)
  {
    id < |slots| && id < 0x1_0000_0000 &&
    (slots[id] != null ==>
       slots[id] in PathMap(f) && slots[id] in f.item &&
       f.item[slots[id]].handle == Some(HandleBytes(id as uint32)))
  }

  /** The handle of a registered node decodes to a slot that holds the node. */
  ghost predicate NodeSlotOk(f: Forest, slots: seq<Node?>, n: Node)
    requires WellFormed(f)
  {
    n in f.item && f.item[n].handle.Some? && |f.item[n].handle.value| == NFS3_FHSIZE &&
    var id := HandleId(f.item[n].handle.value) as int;
    id < |slots| && slots[id] == n
  }

  /** Slot number i is non-null exactly when a live registered node has a handle decoding to i. */
  ghost predicate Coherent(f: Forest, slots: seq<Node?>) {
    && WellFormed(f)
    && |slots| < 0x1_0000_0000
    && (forall id: nat {:trigger SlotOk(f, slots, id)} :: id < |slots| ==> SlotOk(f, slots, id))
    && (forall n {:trigger NodeSlotOk(f, slots, n)} :: n in PathMap(f) ==> NodeSlotOk(f, slots, n))
  }

  ghost function ViewOf(f: Forest, slots: seq<Node?>): (v: View)
    requires WellFormed(f)
    ensures |v| == |slots|
    ensures forall id :: 0 <= id < |v| ==>
              v[id] == if slots[id] != null && slots[id] in PathMap(f) then Some(PathMap(f)[slots[id]]) else None
  {
    seq(|slots|, id requires 0 <= id < |slots| =>
      if slots[id] != null && slots[id] in PathMap(f) then Some(PathMap(f)[slots[id]]) else None)
  }

  lemma CoherentAfterAdd(f: Forest, slots: seq<Node?>, g: Forest, n: Node, path: string, item: Item)
    requires Coherent(f, slots) && WellFormed(g) && |slots| + 1 < 0x1_0000_0000
    requires n !in f.up && item.handle == Some(HandleBytes(|slots| as uint32))
    requires PathMap(g) == PathMap(f)[n := path] && g.item == f.item[n := item]
    ensures Coherent(g, slots + [n])
    ensures ViewOf(g, slots + [n]) == ViewOf(f, slots) + [Some(path)]
  {
    var slots' := slots + [n];
    forall id: nat | id < |slots'|
      ensures SlotOk(g, slots', id)
    {
      if id < |slots| { assert SlotOk(f, slots, id); }
    }
    forall m | m in PathMap(g)
      ensures NodeSlotOk(g, slots', m)
    {
      if m != n { assert NodeSlotOk(f, slots, m); } else { HandleRoundTrip(|slots| as uint32); }
    }
    forall id | 0 <= id < |slots|
      ensures ViewOf(g, slots')[id] == ViewOf(f, slots)[id]
    {
      assert SlotOk(f, slots, id);
    }
  }

  lemma CoherentAfterRename(f: Forest, slots: seq<Node?>, g: Forest, from: string, to: string)
    requires Coherent(f, slots) && WellFormed(g) && HandlesKept(f, g)
    requires PathMap(g) == RelabelMap(PathMap(f), from, to)
    ensures Coherent(g, slots)
    ensures forall id :: 0 <= id < |slots| ==>
              ViewOf(g, slots)[id] ==
              Relabelled(from, to, ViewOf(f, slots)[id])
  {
    forall id: nat | id < |slots|
      ensures SlotOk(g, slots, id)
    {
      assert SlotOk(f, slots, id);
    }
    forall m | m in PathMap(g)
      ensures NodeSlotOk(g, slots, m)
    {
      assert NodeSlotOk(f, slots, m);
    }
  }

  /** The nodes still registered have their data unchanged. */
  ghost predicate ItemsKept(f: Forest, g: Forest)
    requires WellFormed(g)
  {
    forall m :: m in PathMap(g) && m in f.item ==> m in g.item && g.item[m] == f.item[m]
  }

  /** No registered node but n lies below n. */
  ghost predicate NothingBelow(f: Forest, n: Node)
    requires WellFormed(f)
  {
    forall m :: m in PathMap(f) && m in f.up && Below(f, m, n) ==> m == n
  }

  /** Clearing the slot of an erased node alone keeps the two structures coherent exactly when no
      other registered node went away with it. */
  lemma CoherentAfterRemoveExactly(f: Forest, slots: seq<Node?>, g: Forest, n: Node, id: nat)
    requires Coherent(f, slots) && WellFormed(g)
    requires n in PathMap(f) && id < |slots| && slots[id] == n
    requires PathMap(g) == PathMap(f) - Subtree(f, n)
    requires ItemsKept(f, g)
    ensures Coherent(g, slots[id := null]) <==> NothingBelow(f, n)
    ensures NothingBelow(f, n) ==>
              forall i :: 0 <= i < |slots| ==>
                ViewOf(g, slots[id := null])[i] ==
                if ViewOf(f, slots)[i] == Some(PathMap(f)[n]) && slots[i] == n then None else ViewOf(f, slots)[i]
  {
    var slots' := slots[id := null];
    assert SlotOk(f, slots, id);
    assert Below(f, n, n);
    HandleRoundTrip(id as uint32);
    if NothingBelow(f, n) {
      forall i: nat | i < |slots|
        ensures SlotOk(g, slots', i)
        ensures i != id ==> slots[i] != n
      {
        assert SlotOk(f, slots, i);
        HandleRoundTrip(i as uint32);
      }
      forall m | m in PathMap(g)
        ensures NodeSlotOk(g, slots', m)
      {
        assert NodeSlotOk(f, slots, m);
      }
    } else {
      var m :| m in PathMap(f) && m in f.up && Below(f, m, n) && m != n;
      assert NodeSlotOk(f, slots, m);
      var k := HandleId(f.item[m].handle.value) as int;
      assert !SlotOk(g, slots', k);
    }
  }

  /** The handle stored with a registered node stands for the path of the node. */
  lemma StoredHandle(f: Forest, slots: seq<Node?>, n: Node)
    requires Coherent(f, slots) && n in PathMap(f)
    ensures n in f.item && f.item[n].handle.Some? && |f.item[n].handle.value| == NFS3_FHSIZE
    ensures var id := HandleId(f.item[n].handle.value);
            && id as int < |slots| && slots[id as int] == n
            && f.item[n].handle.value == HandleBytes(id)
            && ViewOf(f, slots)[id as int] == Some(PathMap(f)[n])
  {
    assert NodeSlotOk(f, slots, n);
    assert SlotOk(f, slots, HandleId(f.item[n].handle.value) as int);
  }

  lemma ViewShows(f: Forest, slots: seq<Node?>, path: string)
    requires Coherent(f, slots)
    ensures Some(path) in ViewOf(f, slots) <==> Known(f, path)
  {
    if Known(f, path) {
      var n := KnownNode(f, path);
      StoredHandle(f, slots, n);
    }
  }

  lemma ViewPicks(f: Forest, slots: seq<Node?>, n: Node, id: nat)
    requires Sound(f) && Coherent(f, slots) && n in PathMap(f) && id < |slots|
    ensures ViewOf(f, slots)[id] == Some(PathMap(f)[n]) <==> slots[id] == n
  {
    assert SlotOk(f, slots, id);
    if ViewOf(f, slots)[id] == Some(PathMap(f)[n]) {
      PathMapInjective(f, slots[id], n);
    }
  }

  /** In every sound state no two handles stand for the same path. */
  lemma ClientsAreDistinct(f: Forest, slots: seq<Node?>)
    requires Sound(f) && Coherent(f, slots)
    ensures Distinct(ViewOf(f, slots))
  {
    var v := ViewOf(f, slots);
    forall i, j | 0 <= i < j < |v| && v[i].Some?
      ensures v[i] != v[j]
    {
      assert SlotOk(f, slots, i) && SlotOk(f, slots, j);
      ViewPicks(f, slots, slots[i], j);
      HandleRoundTrip(i as uint32);
      HandleRoundTrip(j as uint32);
    }
  }

  lemma RemovableHasNothingBelow(f: Forest, n: Node)
    requires Sound(f) && n in PathMap(f) && Removable(f, PathMap(f)[n])
    ensures NothingBelow(f, n)
  {
    forall m | m in PathMap(f) && m in f.up && Below(f, m, n)
      ensures m == n
    {
      BelowIsUnder(f, m, n);
      PathMapInjective(f, m, n);
    }
  }

  /** Erasing the node and clearing its slot together are one removal step. */
  lemma RemoveIsAStep(f: Forest, slots: seq<Node?>, g: Forest, n: Node, id: nat)
    requires Sound(f) && Coherent(f, slots) && WellFormed(g)
    requires n in PathMap(f) && id < |slots| && slots[id] == n && Removable(f, PathMap(f)[n])
    requires ItemsKept(f, g) && PathMap(g) == PathMap(f) - Subtree(f, n)
    ensures Coherent(g, slots[id := null])
    ensures ViewOf(g, slots[id := null]) == Apply(ViewOf(f, slots), Remove(PathMap(f)[n]))
    ensures Enabled(ViewOf(f, slots), Remove(PathMap(f)[n]))
  {
    RemovableHasNothingBelow(f, n);
    CoherentAfterRemoveExactly(f, slots, g, n, id);
    forall i | 0 <= i < |slots|
      ensures ViewOf(g, slots[id := null])[i] == Apply(ViewOf(f, slots), Remove(PathMap(f)[n]))[i]
    {
      ViewPicks(f, slots, n, i);
    }
  }

  lemma ThreeRemovals(v: View, path: string)
    ensures Run(v, [Remove(Dot(path)), Remove(DotDot(path)), Remove(path)]) ==
            Apply(Apply(Apply(v, Remove(Dot(path))), Remove(DotDot(path))), Remove(path))
  {
    var a, b, c := Remove(Dot(path)), Remove(DotDot(path)), Remove(path);
    assert [a, b, c][1..] == [b, c] && [b, c][1..] == [c] && [c][1..] == [];
    assert Run(v, [a, b, c]) == Run(Apply(v, a), [b, c]);
    assert Run(Apply(v, a), [b, c]) == Run(Apply(Apply(v, a), b), [c]);
    assert Run(Apply(Apply(v, a), b), [c]) == Run(Apply(Apply(Apply(v, a), b), c), []);
  }

  /** The removal steps of remove_entry. */
  ghost function EntryRemoval(path: string, directoryLink: bool, removed: bool): seq<Op> {
    if !removed then []
    else if directoryLink then [Remove(Dot(path)), Remove(DotDot(path)), Remove(path)]
    else [Remove(path)]
  }

  lemma OneRemoval(v: View, path: string)
    ensures Run(v, [Remove(path)]) == Apply(v, Remove(path))
  {
    assert [Remove(path)][1..] == [];
    assert Run(Apply(v, Remove(path)), []) == Apply(v, Remove(path));
  }
}
