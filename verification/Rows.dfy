/** A row is the list of siblings under one parent. This module says who stands next to whom in
    a row, and how inserting or removing one node changes that. */
module Rows {
  import opened Nodes

  ghost predicate NoDup(s: seq<Node>) {
    forall i, j :: 0 <= i < j < |s| ==> s[i] != s[j]
  }

  ghost function Index(s: seq<Node>, n: Node): (k: nat)
    requires n in s
    ensures k < |s| && s[k] == n
  {
    var k: nat :| k < |s| && s[k] == n;
    k
  }

  ghost function First(s: seq<Node>): Node? {
    if s == [] then null else s[0]
  }

  ghost function Last(s: seq<Node>): Node? {
    if s == [] then null else s[|s| - 1]
  }

  ghost function Before(s: seq<Node>, n: Node): Node?
    requires n in s
  {
    var k := Index(s, n);
    if k == 0 then null else s[k - 1]
  }

  ghost function After(s: seq<Node>, n: Node): Node?
    requires n in s
  {
    var k := Index(s, n);
    if k + 1 == |s| then null else s[k + 1]
  }

  ghost function InsertAt(s: seq<Node>, k: nat, n: Node): seq<Node>
    requires k <= |s|
  {
    s[..k] + [n] + s[k..]
  }

  ghost function RemoveAt(s: seq<Node>, k: nat): seq<Node>
    requires k < |s|
  {
    s[..k] + s[k + 1..]
  }

  lemma IndexAt(s: seq<Node>, k: nat)
    requires NoDup(s) && k < |s|
    ensures Index(s, s[k]) == k
  {
  }

  lemma NeighboursAt(s: seq<Node>, k: nat)
    requires NoDup(s) && k < |s|
    ensures Before(s, s[k]) == (if k == 0 then null else s[k - 1])
    ensures After(s, s[k]) == (if k + 1 == |s| then null else s[k + 1])
  {
    IndexAt(s, k);
  }

  lemma InsertKeepsNoDup(s: seq<Node>, k: nat, n: Node)
    requires NoDup(s) && k <= |s| && n !in s
    ensures NoDup(InsertAt(s, k, n))
    ensures forall m :: m in InsertAt(s, k, n) <==> m == n || m in s
  {
    var t := InsertAt(s, k, n);
    assert forall i :: 0 <= i < |t| ==> t[i] == if i < k then s[i] else if i == k then n else s[i - 1];
    forall m | m in s
      ensures m in t
    {
      var i := Index(s, m);
      assert t[if i < k then i else i + 1] == m;
    }
    assert t[k] == n;
  }

  lemma InsertNeighbours(s: seq<Node>, k: nat, n: Node)
    requires NoDup(s) && k <= |s| && n !in s
    ensures NoDup(InsertAt(s, k, n))
    ensures forall m :: m in InsertAt(s, k, n) <==> m == n || m in s
    ensures First(InsertAt(s, k, n)) == if k == 0 then n else First(s)
    ensures Last(InsertAt(s, k, n)) == if k == |s| then n else Last(s)
    ensures Before(InsertAt(s, k, n), n) == if k == 0 then null else s[k - 1]
    ensures After(InsertAt(s, k, n), n) == if k == |s| then null else s[k]
    ensures forall m :: m in s ==>
              Before(InsertAt(s, k, n), m) == if k < |s| && m == s[k] then n else Before(s, m)
    ensures forall m :: m in s ==>
              After(InsertAt(s, k, n), m) == if k > 0 && m == s[k - 1] then n else After(s, m)
  {
    var t := InsertAt(s, k, n);
    InsertKeepsNoDup(s, k, n);
    assert t[k] == n;
    NeighboursAt(t, k);
    forall m | m in s
      ensures Before(t, m) == if k < |s| && m == s[k] then n else Before(s, m)
      ensures After(t, m) == if k > 0 && m == s[k - 1] then n else After(s, m)
    {
      var i := Index(s, m);
      NeighboursAt(s, i);
      NeighboursAt(t, if i < k then i else i + 1);
    }
  }

  lemma RemoveKeepsNoDup(s: seq<Node>, k: nat)
    requires NoDup(s) && k < |s|
    ensures NoDup(RemoveAt(s, k))
    ensures forall m :: m in RemoveAt(s, k) <==> m in s && m != s[k]
  {
    var t := RemoveAt(s, k);
    assert forall i :: 0 <= i < |t| ==> t[i] == if i < k then s[i] else s[i + 1];
    forall m | m in s && m != s[k]
      ensures m in t
    {
      var i := Index(s, m);
      assert t[if i < k then i else i - 1] == m;
    }
  }

  lemma RemoveNeighbours(s: seq<Node>, k: nat)
    requires NoDup(s) && k < |s|
    ensures NoDup(RemoveAt(s, k))
    ensures forall m :: m in RemoveAt(s, k) <==> m in s && m != s[k]
    ensures First(RemoveAt(s, k)) == if k == 0 then After(s, s[k]) else First(s)
    ensures Last(RemoveAt(s, k)) == if k + 1 == |s| then Before(s, s[k]) else Last(s)
    ensures forall m :: m in s && m != s[k] ==>
              Before(RemoveAt(s, k), m) == if k + 1 < |s| && m == s[k + 1] then Before(s, s[k]) else Before(s, m)
    ensures forall m :: m in s && m != s[k] ==>
              After(RemoveAt(s, k), m) == if k > 0 && m == s[k - 1] then After(s, s[k]) else After(s, m)
  {
    var t := RemoveAt(s, k);
    RemoveKeepsNoDup(s, k);
    NeighboursAt(s, k);
    forall m | m in s && m != s[k]
      ensures Before(t, m) == if k + 1 < |s| && m == s[k + 1] then Before(s, s[k]) else Before(s, m)
      ensures After(t, m) == if k > 0 && m == s[k - 1] then After(s, s[k]) else After(s, m)
    {
      var i := Index(s, m);
      NeighboursAt(s, i);
      NeighboursAt(t, if i < k then i else i - 1);
    }
  }
}
