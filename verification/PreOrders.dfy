/** Pre-order traversal: an independent definition of the visiting order, and the proof that the
    pointer-walking increment of src/tree.hh follows it. */
module PreOrders {
  import opened Nodes
  import opened Rows
  import opened Forests
  import opened Ancestry

  ghost function Height(f: Forest, p: Node?): nat
    requires WellFormed(f) && p in f.rows
  {
    assert RowOk(f, p);
    if p == null then f.limit + 1 else assert NodeOk(f, p); f.limit - f.rank[p]
  }

  lemma KidIsLower(f: Forest, p: Node?, k: nat)
    requires WellFormed(f) && p in f.rows && k < |f.rows[p]|
    ensures var c := f.rows[p][k]; c in f.up && c in f.rows && f.up[c] == p && Height(f, c) < Height(f, p)
  {
    assert RowOk(f, p);
    assert f.rows[p][k] in f.rows[p];
    assert NodeOk(f, f.rows[p][k]);
  }

  /** The nodes below p from its child number k on, each before its own children. */
  ghost function PreRow(f: Forest, p: Node?, k: nat): seq<Node>
    requires WellFormed(f) && p in f.rows && k <= |f.rows[p]|
    decreases Height(f, p), |f.rows[p]| - k
  {
    if k == |f.rows[p]| then []
    else
      KidIsLower(f, p, k);
      var c := f.rows[p][k];
      [c] + PreRow(f, c, 0) + PreRow(f, p, k + 1)
  }

  /** The whole forest, head first and feet last. */
  ghost function PreOrder(f: Forest): seq<Node>
    requires WellFormed(f)
  {
    PreRow(f, null, 0)
  }

  /** Where the traversal goes after the subtree of n. */
  ghost function SkipNext(f: Forest, n: Node): Node?
    requires WellFormed(f) && n in f.up
    decreases if n in f.rank then f.rank[n] else 0
  {
    assert NodeOk(f, n);
    if Next(f, n) != null then Next(f, n)
    else if f.up[n] == null then null
    else assert NodeOk(f, f.up[n]); SkipNext(f, f.up[n])
  }

  /** What operator++ moves to. */
  ghost function NextPre(f: Forest, n: Node): Node?
    requires WellFormed(f) && n in f.up
  {
    if FirstKid(f, n) != null then FirstKid(f, n) else SkipNext(f, n)
  }

  ghost function Exit(f: Forest, p: Node?): Node?
    requires WellFormed(f) && p in f.rows
  {
    assert RowOk(f, p);
    if p == null then null else SkipNext(f, p)
  }

  lemma KidNext(f: Forest, p: Node?, k: nat)
    requires WellFormed(f) && p in f.rows && k < |f.rows[p]|
    ensures f.rows[p][k] in f.up
    ensures SkipNext(f, f.rows[p][k]) == if k + 1 < |f.rows[p]| then f.rows[p][k + 1] else Exit(f, p)
  {
    KidIsLower(f, p, k);
    assert RowOk(f, p);
    NeighboursAt(f.rows[p], k);
  }

  /** m lies below one of the children of p from number k on. */
  ghost predicate UnderRow(f: Forest, m: Node, p: Node?, k: nat)
    requires WellFormed(f) && p in f.rows && k <= |f.rows[p]|
  {
    m in f.up && exists j :: k <= j < |f.rows[p]| && Below(f, m, f.rows[p][j])
  }

  lemma UnderKid(f: Forest, m: Node, p: Node?, k: nat)
    requires WellFormed(f) && p in f.rows && k < |f.rows[p]|
    ensures var c := f.rows[p][k];
            c in f.rows &&
            (UnderRow(f, m, p, k) <==> m == c || UnderRow(f, m, c, 0) || UnderRow(f, m, p, k + 1))
  {
    KidIsLower(f, p, k);
    var c := f.rows[p][k];
    assert Below(f, c, c);
    if m in f.up && m != c && Below(f, m, c) {
      var d := KidAbove(f, m, c);
      assert NodeOk(f, d);
    }
    if UnderRow(f, m, c, 0) {
      var j :| 0 <= j < |f.rows[c]| && Below(f, m, f.rows[c][j]);
      KidIsLower(f, c, j);
      KidIsBelow(f, f.rows[c][j], c);
      BelowTransitive(f, m, f.rows[c][j], c);
    }
  }

  lemma {:induction false} PreRowMember(f: Forest, p: Node?, k: nat, m: Node)
    requires WellFormed(f) && p in f.rows && k <= |f.rows[p]|
    ensures m in PreRow(f, p, k) <==> UnderRow(f, m, p, k)
    decreases Height(f, p), |f.rows[p]| - k
  {
    if k < |f.rows[p]| {
      KidIsLower(f, p, k);
      UnderKid(f, m, p, k);
      PreRowMember(f, f.rows[p][k], 0, m);
      PreRowMember(f, p, k + 1, m);
    }
  }

  lemma {:induction false} PreRowNoDup(f: Forest, p: Node?, k: nat)
    requires WellFormed(f) && p in f.rows && k <= |f.rows[p]|
    ensures NoDup(PreRow(f, p, k))
    decreases Height(f, p), |f.rows[p]| - k
  {
    if k < |f.rows[p]| {
      KidIsLower(f, p, k);
      var c := f.rows[p][k];
      PreRowNoDup(f, c, 0);
      PreRowNoDup(f, p, k + 1);
      var a, b := PreRow(f, c, 0), PreRow(f, p, k + 1);
      forall x | x in a
        ensures x != c && x !in b
      {
        PreRowMember(f, c, 0, x);
        PreRowMember(f, p, k + 1, x);
        PreRowApart(f, p, k, x);
      }
      PreRowMember(f, p, k + 1, c);
      PreRowApart(f, p, k, c);
      assert forall x :: x in a ==> x != c && x !in b;
      ThreePartsNoDup(c, a, b);
    }
  }

  /** A node at or below child k is below no later child; and no node is its own proper descendant. */
  lemma PreRowApart(f: Forest, p: Node?, k: nat, x: Node)
    requires WellFormed(f) && p in f.rows && k < |f.rows[p]|
    ensures f.rows[p][k] in f.rows
    ensures UnderRow(f, x, f.rows[p][k], 0) ==> x != f.rows[p][k]
    ensures UnderRow(f, x, f.rows[p][k], 0) || x == f.rows[p][k] ==> !UnderRow(f, x, p, k + 1)
  {
    KidIsLower(f, p, k);
    assert RowOk(f, p);
    var c := f.rows[p][k];
    if UnderRow(f, x, c, 0) {
      UnderKid(f, x, p, k);
      var j :| 0 <= j < |f.rows[c]| && Below(f, x, f.rows[c][j]);
      KidIsLower(f, c, j);
      KidIsBelow(f, f.rows[c][j], c);
      BelowTransitive(f, x, f.rows[c][j], c);
      RankAbove(f, x, f.rows[c][j]);
    }
    if (UnderRow(f, x, c, 0) || x == c) && UnderRow(f, x, p, k + 1) {
      var i :| k + 1 <= i < |f.rows[p]| && Below(f, x, f.rows[p][i]);
      KidIsLower(f, p, i);
      SiblingsDisjoint(f, x, c, f.rows[p][i]);
    }
  }

  lemma ThreePartsNoDup(c: Node, a: seq<Node>, b: seq<Node>)
    requires NoDup(a) && NoDup(b) && c !in a && c !in b
    requires forall x :: x in a ==> x !in b
    ensures NoDup([c] + a + b)
  {
    var s := [c] + a + b;
    forall i, j | 0 <= i < j < |s|
      ensures s[i] != s[j]
    {
      assert 1 <= i <= |a| ==> s[i] in a;
      assert 1 <= j <= |a| ==> s[j] in a;
      assert i > |a| ==> s[i] in b;
      assert j > |a| ==> s[j] in b;
    }
  }

  /** The traversal visits every node exactly once. */
  lemma PreOrderIsEveryNodeOnce(f: Forest)
    requires WellFormed(f)
    ensures NoDup(PreOrder(f))
    ensures forall n :: n in PreOrder(f) ==> n in f.up
    ensures forall n :: n in f.up ==> n in PreOrder(f)
    ensures |PreOrder(f)| == |f.up|
  {
    PreRowNoDup(f, null, 0);
    forall n | n in PreOrder(f)
      ensures n in f.up
    {
      PreRowMember(f, null, 0, n);
    }
    forall n | n in f.up
      ensures n in PreOrder(f)
    {
      PreRowMember(f, null, 0, n);
      assert NodeOk(f, Top(f, n));
    }
    NoDupSize(PreOrder(f), f.up.Keys);
  }

  lemma NoDupSize(s: seq<Node>, t: set<Node>)
    requires NoDup(s)
    requires forall n :: n in s ==> n in t
    requires forall n :: n in t ==> n in s
    ensures |s| == |t|
    decreases |s|
  {
    if s == [] {
      assert t == {};
    } else {
      var r := s[1..];
      forall n | n in t - {s[0]}
        ensures n in r
      {
        var i := Index(s, n);
        assert r[i - 1] == n;
      }
      NoDupSize(r, t - {s[0]});
    }
  }

  /** head stands first in the pre-order and feet last. */
  lemma PreOrderEnds(f: Forest)
    requires WellFormed(f)
    ensures |PreOrder(f)| >= 2
    ensures PreOrder(f)[0] == f.head && PreOrder(f)[|PreOrder(f)| - 1] == f.feet
  {
    KidIsLower(f, null, 0);
    PreRowLast(f, 1);
  }

  lemma PreRowLast(f: Forest, k: nat)
    requires WellFormed(f) && k < |f.rows[null]|
    ensures var s := PreRow(f, null, k); |s| >= 1 && s[|s| - 1] == f.feet
    decreases |f.rows[null]| - k
  {
    KidIsLower(f, null, k);
    if k + 1 < |f.rows[null]| {
      PreRowLast(f, k + 1);
    } else {
      assert f.rows[null][k] == f.feet;
    }
  }

  /** Every step of the increment goes to the next node of the pre-order. */
  lemma {:induction false} IncrementFollowsPreRow(f: Forest, p: Node?, k: nat, i: nat)
    requires WellFormed(f) && p in f.rows && k <= |f.rows[p]|
    requires i < |PreRow(f, p, k)|
    ensures var s := PreRow(f, p, k);
            s[i] in f.up && NextPre(f, s[i]) == if i + 1 < |s| then s[i + 1] else Exit(f, p)
    decreases Height(f, p), |f.rows[p]| - k
  {
    KidIsLower(f, p, k);
    KidNext(f, p, k);
    var c := f.rows[p][k];
    var a, b := PreRow(f, c, 0), PreRow(f, p, k + 1);
    var s := PreRow(f, p, k);
    assert NodeOk(f, c);
    assert k + 1 < |f.rows[p]| ==> |b| > 0 && b[0] == f.rows[p][k + 1];
    if i == 0 {
      if |f.rows[c]| > 0 { KidIsLower(f, c, 0); }
    } else if i <= |a| {
      IncrementFollowsPreRow(f, c, 0, i - 1);
      assert s[i] == a[i - 1];
    } else {
      IncrementFollowsPreRow(f, p, k + 1, i - 1 - |a|);
      assert s[i] == b[i - 1 - |a|];
    }
  }

  /** Starting at head and incrementing visits the whole forest in pre-order, up to feet. */
  lemma IncrementFollowsPreOrder(f: Forest, i: nat)
    requires WellFormed(f) && i < |PreOrder(f)|
    ensures PreOrder(f)[i] in f.up
    ensures NextPre(f, PreOrder(f)[i]) == if i + 1 < |PreOrder(f)| then PreOrder(f)[i + 1] else null
  {
    IncrementFollowsPreRow(f, null, 0, i);
  }

  /** head has no children, so its next sibling comes second. */
  lemma SecondInPreOrder(f: Forest)
    requires WellFormed(f)
    ensures f.head in f.up && |PreOrder(f)| >= 2 && Next(f, f.head) == PreOrder(f)[1]
  {
    PreOrderEnds(f);
    IncrementFollowsPreOrder(f, 0);
    NodeIsOk(f, f.head);
    RowIsOk(f, null);
    TopNeighbours(f, f.head);
  }

  // ---------------------------------------------------------------- what stands behind a subtree

  /** The nodes from n on: n, everything below it, and then the node the traversal goes on with. */
  ghost predicate Splits(f: Forest, p: Node?, k: nat, n: Node, a: seq<Node>, b: seq<Node>)
    requires WellFormed(f) && p in f.rows && k <= |f.rows[p]|
  {
    && n in f.up && n in f.rows
    && PreRow(f, p, k) == a + ([n] + PreRow(f, n, 0)) + b
    && SkipNext(f, n) == if b == [] then Exit(f, p) else b[0]
  }

  lemma FirstSplits(f: Forest, p: Node?, k: nat)
    requires WellFormed(f) && p in f.rows && k < |f.rows[p]|
    ensures Splits(f, p, k, f.rows[p][k], [], PreRow(f, p, k + 1))
  {
    KidIsLower(f, p, k);
    KidNext(f, p, k);
    Behind(f, p, k);
    var c, b := f.rows[p][k], PreRow(f, p, k + 1);
    assert [c] + PreRow(f, c, 0) + b == [] + ([c] + PreRow(f, c, 0)) + b;
  }

  /** What the traversal of a row goes on with behind one of its subtrees. */
  lemma Behind(f: Forest, p: Node?, k: nat)
    requires WellFormed(f) && p in f.rows && k < |f.rows[p]|
    ensures f.rows[p][k] in f.up
    ensures var b := PreRow(f, p, k + 1); SkipNext(f, f.rows[p][k]) == if b == [] then Exit(f, p) else b[0]
  {
    KidNext(f, p, k);
    if k + 1 < |f.rows[p]| { KidIsLower(f, p, k + 1); }
  }

  /** A split of the nodes below a child is one of its row. */
  lemma SplitBelow(f: Forest, p: Node?, k: nat, n: Node, a: seq<Node>, b: seq<Node>)
    requires WellFormed(f) && p in f.rows && k < |f.rows[p]|
    requires f.rows[p][k] in f.rows && Splits(f, f.rows[p][k], 0, n, a, b)
    ensures Splits(f, p, k, n, [f.rows[p][k]] + a, b + PreRow(f, p, k + 1))
  {
    KidIsLower(f, p, k);
    Behind(f, p, k);
    var c, m, t := f.rows[p][k], [n] + PreRow(f, n, 0), PreRow(f, p, k + 1);
    assert [c] + (a + m + b) + t == ([c] + a) + m + (b + t);
  }

  /** And so is one of the nodes behind the child. */
  lemma SplitBehind(f: Forest, p: Node?, k: nat, n: Node, a: seq<Node>, b: seq<Node>)
    requires WellFormed(f) && p in f.rows && k < |f.rows[p]|
    requires f.rows[p][k] in f.rows && Splits(f, p, k + 1, n, a, b)
    ensures Splits(f, p, k, n, [f.rows[p][k]] + PreRow(f, f.rows[p][k], 0) + a, b)
  {
    KidIsLower(f, p, k);
    var s, m := [f.rows[p][k]] + PreRow(f, f.rows[p][k], 0), [n] + PreRow(f, n, 0);
    assert s + (a + m + b) == (s + a) + m + b;
  }

  lemma {:induction false} RowSplits(f: Forest, p: Node?, k: nat, n: Node) returns (a: seq<Node>, b: seq<Node>)
    requires WellFormed(f) && p in f.rows && k <= |f.rows[p]| && UnderRow(f, n, p, k)
    ensures Splits(f, p, k, n, a, b)
    decreases Height(f, p), |f.rows[p]| - k
  {
    KidIsLower(f, p, k);
    UnderKid(f, n, p, k);
    var c := f.rows[p][k];
    if n == c {
      FirstSplits(f, p, k);
      a, b := [], PreRow(f, p, k + 1);
    } else if UnderRow(f, n, c, 0) {
      var a0, b0 := RowSplits(f, c, 0, n);
      SplitBelow(f, p, k, n, a0, b0);
      a, b := [c] + a0, b0 + PreRow(f, p, k + 1);
    } else {
      var a0, b0 := RowSplits(f, p, k + 1, n);
      SplitBehind(f, p, k, n, a0, b0);
      a, b := [c] + PreRow(f, c, 0) + a0, b0;
    }
  }

  /** In pre-order a node is followed by everything below it and then by the node the climb without
      descent finds, if there is one. */
  lemma SubtreeIsASlice(f: Forest, n: Node) returns (a: seq<Node>, b: seq<Node>)
    requires WellFormed(f) && n in f.up
    ensures n in f.rows && PreOrder(f) == a + ([n] + PreRow(f, n, 0)) + b
    ensures SkipNext(f, n) == if b == [] then null else b[0]
  {
    assert NodeOk(f, Top(f, n));
    a, b := RowSplits(f, null, 0, n);
  }
}
