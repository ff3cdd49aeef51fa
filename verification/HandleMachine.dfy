/** The handle service as a state machine. A view lists, for every handle ever issued, the path it
    stands for now, or None once its file is removed. CFileTable is proved to move along these
    steps; here the steps are proved to give clients what section 2.5 of RFC 1813 asks of handles. */
module HandleMachine {
  import opened Nodes
  import opened Paths

  type View = seq<Option<string>>

  datatype Op =
    | Issue(path: string) // GetHandleByPath
    | Rename(from: string, to: string) // RenameFile that finds both ends
    | Remove(path: string) // RemoveItem

  /** What a rename of `from` to `to` makes of a path. */
  function Relabel(from: string, to: string, path: string): string {
    if Under(from, path) then to + path[|from|..] else path
  }

  function Relabelled(from: string, to: string, p: Option<string>): Option<string> {
    match p
    case None => None
    case Some(path) => Some(Relabel(from, to, path))
  }

  function Apply(v: View, op: Op): View {
    match op
    case Issue(path) => if Some(path) in v then v else v + [Some(path)]
    case Rename(from, to) => seq(|v|, i requires 0 <= i < |v| => Relabelled(from, to, v[i]))
    case Remove(path) => seq(|v|, i requires 0 <= i < |v| => if v[i] == Some(path) then None else v[i])
  }

  function Run(v: View, ops: seq<Op>): View
    decreases |ops|
  {
    if ops == [] then v else Run(Apply(v, ops[0]), ops[1..])
  }

  /** The history of one file, told without any table: what becomes of its path. */
  function Follow(p: Option<string>, ops: seq<Op>): Option<string>
    decreases |ops|
  {
    if ops == [] then p
    else
      var q := match ops[0]
               case Issue(_) => p
               case Rename(from, to) => Relabelled(from, to, p)
               case Remove(path) => if p == Some(path) then None else p;
      Follow(q, ops[1..])
  }

  /** No two live handles stand for the same path. */
  ghost predicate Distinct(v: View) {
    forall i, j :: 0 <= i < j < |v| && v[i].Some? ==> v[i] != v[j]
  }

  /** The target of a rename lies outside the source, and nothing is registered at or below it; nothing
      is registered below what is removed. */
  ghost predicate Enabled(v: View, op: Op) {
    match op
    case Issue(_) => true
    case Rename(from, to) => !Under(from, to) && forall i :: 0 <= i < |v| && v[i].Some? ==> !Under(to, v[i].value)
    case Remove(path) => forall i :: 0 <= i < |v| && v[i].Some? ==> !(path + [SEP] <= v[i].value)
  }

  ghost predicate EnabledAll(v: View, ops: seq<Op>)
    decreases |ops|
  {
    ops == [] || (Enabled(v, ops[0]) && EnabledAll(Apply(v, ops[0]), ops[1..]))
  }

  /** Over any run, every handle follows the file it was issued for: through its own renames and
      those of its ancestors, to None when it is removed, whatever happens to other files. Handles
      are never taken back, so none is ever issued twice. */
  lemma {:induction false} HandlesFollowTheirFile(v: View, ops: seq<Op>, id: nat)
    requires id < |v|
    ensures |Run(v, ops)| >= |v|
    ensures Run(v, ops)[id] == Follow(v[id], ops)
    decreases |ops|
  {
    if ops != [] {
      HandlesFollowTheirFile(Apply(v, ops[0]), ops[1..], id);
    }
  }

  /** A handle whose file was removed stays invalid forever. */
  lemma {:induction false} StaleForever(v: View, ops: seq<Op>, id: nat)
    requires id < |v| && v[id] == None
    ensures |Run(v, ops)| >= |v| && Run(v, ops)[id] == None
    decreases |ops|
  {
    if ops != [] {
      StaleForever(Apply(v, ops[0]), ops[1..], id);
    }
  }

  /** A relabelled path lies under the target. */
  lemma RelabelledIsUnder(from: string, to: string, p: string)
    ensures Under(from, p) ==> Under(to, Relabel(from, to, p))
  {
    if Under(from, p) && p != from {
      assert (to + p[|from|..])[..|to| + 1] == to + [SEP];
    }
  }

  lemma SameSuffix(from: string, to: string, p: string, q: string)
    requires from <= p && from <= q && to + p[|from|..] == to + q[|from|..]
    ensures p == q
  {
    assert p == from + p[|from|..] && q == from + q[|from|..];
    assert (to + p[|from|..])[|to|..] == p[|from|..];
    assert (to + q[|from|..])[|to|..] == q[|from|..];
  }

  /** Paths outside the target stay different when relabelled. */
  lemma RelabelInjective(from: string, to: string, p: string, q: string)
    requires !Under(to, p) && !Under(to, q)
    requires Relabel(from, to, p) == Relabel(from, to, q)
    ensures p == q
  {
    RelabelledIsUnder(from, to, p);
    RelabelledIsUnder(from, to, q);
    if Under(from, p) && Under(from, q) {
      SameSuffix(from, to, p, q);
    }
  }

  lemma StepKeepsDistinct(v: View, op: Op)
    requires Distinct(v) && Enabled(v, op)
    ensures Distinct(Apply(v, op))
  {
    var w := Apply(v, op);
    forall i, j | 0 <= i < j < |w| && w[i].Some?
      ensures w[i] != w[j]
    {
      if op.Rename? && w[j].Some? {
        if w[i] == w[j] {
          RelabelInjective(op.from, op.to, v[i].value, v[j].value);
        }
      }
    }
  }

  /** What is registered under a path makes the path itself registered. */
  ghost predicate ClosedAt(v: View, path: string) {
    forall i :: 0 <= i < |v| && v[i].Some? && Under(path, v[i].value) ==> Some(path) in v
  }

  /** A rename keeps the handles apart exactly when its target is not registered any more: the handle
      of a stale target and the handle of the source end up with the same path. */
  lemma RenameKeepsDistinctExactly(v: View, from: string, to: string)
    requires Distinct(v) && Some(from) in v && !Under(from, to) && ClosedAt(v, to)
    ensures Distinct(Apply(v, Rename(from, to))) <==> Some(to) !in v
  {
    if Some(to) in v {
      var i :| 0 <= i < |v| && v[i] == Some(from);
      var j :| 0 <= j < |v| && v[j] == Some(to);
      var w := Apply(v, Rename(from, to));
      assert from[|from|..] == [] && to + [] == to;
      assert w[i] == Some(to) == w[j] && i != j;
    } else {
      StepKeepsDistinct(v, Rename(from, to));
    }
  }

  /** After a rename nothing is registered at or below the source, if the target is not above it. */
  lemma SourceIsVacated(v: View, from: string, to: string, path: string)
    requires !Under(from, to) && !Under(to, from) && Under(from, path)
    ensures Some(path) !in Apply(v, Rename(from, to))
  {
    var w := Apply(v, Rename(from, to));
    UnderComparable(from, to, path);
    forall i | 0 <= i < |w| && w[i].Some?
      ensures w[i].value != path
    {
      RelabelledIsUnder(from, to, v[i].value);
    }
  }

  /** Over any run whose steps are enabled, no two handles ever stand for the same path. */
  lemma {:induction false} HandlesStayDistinct(v: View, ops: seq<Op>)
    requires Distinct(v) && EnabledAll(v, ops)
    ensures Distinct(Run(v, ops))
    decreases |ops|
  {
    if ops != [] {
      StepKeepsDistinct(v, ops[0]);
      HandlesStayDistinct(Apply(v, ops[0]), ops[1..]);
    }
  }

  /** A handle issued for a path not registered before is new, and from then on it denotes the file
      of that moment and no other: at any later time any other handle stands for another path. */
  lemma IssuedHandleIsExclusive(v: View, path: string, ops: seq<Op>, other: nat)
    requires Distinct(v) && Some(path) !in v
    requires EnabledAll(Apply(v, Issue(path)), ops)
    ensures var w := Run(v, [Issue(path)] + ops);
            && |w| > |v|
            && w[|v|] == Follow(Some(path), ops)
            && (other < |w| && other != |v| && w[|v|].Some? ==> w[other] != w[|v|])
  {
    var u := Apply(v, Issue(path));
    StepKeepsDistinct(v, Issue(path));
    assert ([Issue(path)] + ops)[1..] == ops;
    HandlesFollowTheirFile(u, ops, |v|);
    HandlesStayDistinct(u, ops);
  }

  /** GetHandleByPath on a path that is registered. */
  function HandleOf(v: View, path: string): (id: nat)
    requires Some(path) in v
    ensures id < |v| && v[id] == Some(path)
  {
    if v[0] == Some(path) then 0 else 1 + HandleOf(v[1..], path)
  }

  /** Resolving a handle to its path and the path back to a handle gives the same handle. */
  lemma HandleRoundTrips(v: View, id: nat)
    requires Distinct(v) && id < |v| && v[id].Some?
    ensures HandleOf(v, v[id].value) == id
  {
    var j := HandleOf(v, v[id].value);
    assert v[j] == v[id];
  }

  lemma RemovedIsGone(v: View, path: string)
    ensures Some(path) !in Apply(v, Remove(path))
  {
  }
}
