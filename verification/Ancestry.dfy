/** Who lies below whom in a forest. */
module Ancestry {
  import opened Nodes
  import opened Forests

  lemma RankAbove(f: Forest, n: Node, a: Node)
    requires WellFormed(f) && n in f.up && Below(f, n, a)
    ensures a in f.up && Rank(f, a) <= Rank(f, n)
    ensures n != a ==> f.up[n] != null && Rank(f, a) < Rank(f, n)
    decreases Rank(f, n)
  {
    assert NodeOk(f, n);
    if n != a {
      assert NodeOk(f, f.up[n]);
      RankAbove(f, f.up[n], a);
    }
  }

  lemma BelowTransitive(f: Forest, n: Node, a: Node, b: Node)
    requires WellFormed(f) && n in f.up && Below(f, n, a) && a in f.up && Below(f, a, b)
    ensures Below(f, n, b)
    decreases Rank(f, n)
  {
    assert NodeOk(f, n);
    if n != a && n != b {
      assert NodeOk(f, f.up[n]);
      BelowTransitive(f, f.up[n], a, b);
    }
  }

  lemma KidIsBelow(f: Forest, n: Node, a: Node)
    requires WellFormed(f) && n in f.up && f.up[n] == a
    ensures a in f.up && Below(f, n, a) && Rank(f, a) < Rank(f, n)
  {
    assert NodeOk(f, n);
    assert NodeOk(f, a);
    assert Below(f, a, a);
  }

  /** Two nodes above the same node lie one above the other. */
  lemma Comparable(f: Forest, n: Node, a: Node, b: Node)
    requires WellFormed(f) && n in f.up && Below(f, n, a) && Below(f, n, b)
    ensures a in f.up && b in f.up && (Below(f, a, b) || Below(f, b, a))
    decreases Rank(f, n)
  {
    assert NodeOk(f, n);
    RankAbove(f, n, a);
    RankAbove(f, n, b);
    if n != a && n != b {
      assert NodeOk(f, f.up[n]);
      Comparable(f, f.up[n], a, b);
    }
  }

  /** No node lies below two siblings. */
  lemma SiblingsDisjoint(f: Forest, n: Node, a: Node, b: Node)
    requires WellFormed(f) && n in f.up && Below(f, n, a) && Below(f, n, b)
    requires a in f.up && b in f.up && f.up[a] == f.up[b]
    ensures a == b
  {
    Comparable(f, n, a, b);
    assert NodeOk(f, a) && NodeOk(f, b);
    if a != b {
      if Below(f, a, b) {
        RankAbove(f, f.up[a], b);
      } else {
        RankAbove(f, f.up[b], a);
      }
    }
  }

  /** The child of a through which n lies below a. */
  ghost function KidAbove(f: Forest, n: Node, a: Node?): (c: Node)
    requires WellFormed(f) && n in f.up && n != a && (a == null || Below(f, n, a))
    ensures c in f.up && f.up[c] == a && Below(f, n, c)
    decreases Rank(f, n)
  {
    assert NodeOk(f, n);
    if f.up[n] == a then n
    else
      assert NodeOk(f, f.up[n]);
      assert f.up[n] != null;
      var c := KidAbove(f, f.up[n], a);
      assert Below(f, n, c);
      c
  }

  /** The top-level node above n. */
  ghost function Top(f: Forest, n: Node): (t: Node)
    requires WellFormed(f) && n in f.up
    ensures t in f.up && f.up[t] == null && Below(f, n, t)
  {
    KidAbove(f, n, null)
  }

  ghost function Subtree(f: Forest, a: Node): (s: set<Node>)
    requires WellFormed(f)
    ensures forall n :: n in s ==> n in f.up && Below(f, n, a)
    ensures forall n {:trigger Below(f, n, a)} :: n in f.up && Below(f, n, a) ==> n in s
  {
    set n | n in f.up && Below(f, n, a)
  }
}
