/** The path strings of src/FileTree.cpp: the four splitters, std::string::find as a test, and how
    they act on a path joined from components. */
module Paths {

  const SEP := '\\'

  /** Position of the first separator, |s| if there is none. */
  function FirstSep(s: string): (k: nat)
    ensures k <= |s| && SEP !in s[..k]
    ensures k < |s| ==> s[k] == SEP
  {
    if s == "" || s[0] == SEP then 0
    else
      var k := FirstSep(s[1..]);
      assert s[..k + 1] == [s[0]] + s[1..][..k];
      k + 1
  }

  /** One past the last separator, 0 if there is none. */
  function AfterLastSep(s: string): (k: nat)
    ensures k <= |s| && SEP !in s[k..]
    ensures k > 0 ==> s[k - 1] == SEP
  {
    if s == "" then 0
    else if s[|s| - 1] == SEP then |s|
    else
      var k := AfterLastSep(s[..|s| - 1]);
      assert s[k..] == s[..|s| - 1][k..] + [s[|s| - 1]];
      k
  }

  /** _first_dirname */
  function FirstDirname(path: string): string {
    path[..FirstSep(path)]
  }

  /** _following_path */
  function FollowingPath(path: string): (r: string)
    ensures r != "" ==> |r| < |path|
  {
    var k := FirstSep(path);
    if k == |path| then "" else path[k + 1..]
  }

  /** _dirname_932 */
  function Dirname(path: string): string {
    var k := AfterLastSep(path);
    if k == 0 then "" else path[..k - 1]
  }

  /** _basename_932 */
  function Basename(path: string): string {
    path[AfterLastSep(path)..]
  }

  /** s.find(sub) != npos */
  predicate Occurs(sub: string, s: string) {
    sub <= s || (s != "" && Occurs(sub, s[1..]))
  }

  /** s is the root r, or continues it with a separator. */
  predicate Under(r: string, s: string) {
    s == r || r + [SEP] <= s
  }

  // ---------------------------------------------------------------- components

  predicate GoodName(s: string) {
    s != "" && SEP !in s
  }

  predicate Good(c: seq<string>) {
    forall i :: 0 <= i < |c| ==> GoodName(c[i])
  }

  function Join(c: seq<string>): string
    requires c != []
  {
    if |c| == 1 then c[0] else c[0] + [SEP] + Join(c[1..])
  }

  lemma FirstSepUnique(s: string, k: nat)
    requires k <= |s| && SEP !in s[..k]
    requires k < |s| ==> s[k] == SEP
    ensures FirstSep(s) == k
  {
    var j := FirstSep(s);
    assert forall i :: 0 <= i < k ==> s[i] == s[..k][i];
    assert forall i :: 0 <= i < j ==> s[i] == s[..j][i];
  }

  lemma AfterLastSepUnique(s: string, k: nat)
    requires k <= |s| && SEP !in s[k..]
    requires k > 0 ==> s[k - 1] == SEP
    ensures AfterLastSep(s) == k
  {
    var j := AfterLastSep(s);
    assert j <= k && k <= j;
  }

  /** The forward splitters take the first component off a joined path. */
  lemma SplitFront(c: seq<string>)
    requires c != [] && Good(c)
    ensures FirstDirname(Join(c)) == c[0]
    ensures FollowingPath(Join(c)) == if |c| == 1 then "" else Join(c[1..])
    ensures Join(c) != ""
  {
    var s := Join(c);
    assert s[..|c[0]|] == c[0];
    FirstSepUnique(s, |c[0]|);
  }

  lemma {:induction false} JoinConcat(a: seq<string>, b: seq<string>)
    requires a != [] && b != []
    ensures Join(a + b) == Join(a) + [SEP] + Join(b)
  {
    if |a| == 1 {
      assert (a + b)[1..] == b;
    } else {
      assert (a + b)[1..] == a[1..] + b;
      JoinConcat(a[1..], b);
    }
  }

  /** The backward splitters take the last component off; what stands in front does not matter. */
  lemma SplitBack(front: string, name: string)
    requires GoodName(name)
    ensures Basename(front + [SEP] + name) == name
    ensures Dirname(front + [SEP] + name) == front
  {
    var s := front + [SEP] + name;
    assert s[|front| + 1..] == name;
    AfterLastSepUnique(s, |front| + 1);
  }

  lemma SplitSingle(name: string)
    requires GoodName(name)
    ensures Basename(name) == name && Dirname(name) == ""
  {
    assert name[0..] == name;
    AfterLastSepUnique(name, 0);
  }

  /** A joined path determines its components. */
  lemma {:induction false} JoinInjective(a: seq<string>, b: seq<string>)
    requires a != [] && b != [] && Good(a) && Good(b) && Join(a) == Join(b)
    ensures a == b
  {
    SplitFront(a);
    SplitFront(b);
    if |a| > 1 {
      SplitFront(a[1..]);
    }
    if |b| > 1 {
      SplitFront(b[1..]);
    }
    if |a| > 1 && |b| > 1 {
      JoinInjective(a[1..], b[1..]);
    }
    assert a == [a[0]] + a[1..];
    assert b == [b[0]] + b[1..];
  }

  /** A joined path continues another with a separator only if the components continue too. */
  lemma {:induction false} JoinPrefix(a: seq<string>, b: seq<string>)
    requires a != [] && b != [] && Good(a) && Good(b)
    requires Join(a) + [SEP] <= Join(b)
    ensures |a| < |b| && b[..|a|] == a
  {
    FirstComponentsAgree(a, b);
    if |a| > 1 {
      JoinPrefix(a[1..], b[1..]);
      assert b[..|a|] == [b[0]] + b[1..][..|a| - 1];
      assert a == [a[0]] + a[1..];
    }
  }

  /** Splitting the front off two strings, one of which continues the other with a separator. */
  lemma SplitPrefix(s: string, t: string)
    requires s + [SEP] <= t
    ensures FirstSep(t) < |t| && FirstDirname(t) == FirstDirname(s)
    ensures FirstSep(s) < |s| ==> FollowingPath(s) + [SEP] <= FollowingPath(t)
  {
    var k := FirstSep(s);
    assert t[..k] == s[..k];
    assert t[k] == SEP;
    FirstSepUnique(t, k);
    if k < |s| {
      assert (s + [SEP])[k + 1..] == s[k + 1..] + [SEP];
    }
  }

  lemma FirstComponentsAgree(a: seq<string>, b: seq<string>)
    requires a != [] && b != [] && Good(a) && Good(b)
    requires Join(a) + [SEP] <= Join(b)
    ensures a[0] == b[0] && |b| > 1
    ensures |a| > 1 ==> Join(a[1..]) + [SEP] <= Join(b[1..])
  {
    SplitPrefix(Join(a), Join(b));
    SplitFront(a);
    SplitFront(b);
    if |a| > 1 {
      SplitFront(a[1..]);
    }
  }

  // ---------------------------------------------------------------- occurrence

  lemma {:induction false} OccursAt(sub: string, s: string, i: nat)
    requires i + |sub| <= |s| && s[i..i + |sub|] == sub
    ensures Occurs(sub, s)
  {
    if i > 0 {
      assert s[1..][i - 1..i - 1 + |sub|] == s[i..i + |sub|];
      OccursAt(sub, s[1..], i - 1);
    }
  }

  lemma UnderOccurs(r: string, s: string)
    requires Under(r, s)
    ensures Occurs(r, s)
  {
  }

  lemma UnderOfUnder(a: string, b: string, s: string)
    requires Under(a, b) && (Under(b, s) || b <= s)
    requires a != b || Under(b, s)
    ensures Under(a, s)
  {
    if a != b && b != s {
      assert a + [SEP] == b[..|a| + 1] == s[..|a| + 1];
    }
  }

  lemma UnderExtends(a: string, b: string, tail: string)
    ensures Under(a, b) ==> Under(a, b + [SEP] + tail)
  {
    if Under(a, b) && a != b {
      assert a + [SEP] == b[..|a| + 1] == (b + [SEP] + tail)[..|a| + 1];
    }
  }

  /** Two paths above the same path lie one above the other. */
  lemma UnderComparable(a: string, b: string, s: string)
    ensures Under(a, s) && Under(b, s) ==> Under(a, b) || Under(b, a)
  {
    if Under(a, s) && Under(b, s) {
      if |a| < |b| {
        assert a + [SEP] == s[..|a| + 1] == b[..|a| + 1];
      } else if |b| < |a| {
        assert b + [SEP] == s[..|b| + 1] == a[..|b| + 1];
      } else {
        assert a == s[..|a|] == b;
      }
    }
  }

  // ---------------------------------------------------------------- a root and components

  /** The string of a root and a component list. */
  function PathString(root: string, c: seq<string>): string {
    if c == [] then root else root + [SEP] + Join(c)
  }

  lemma PathStringSnoc(root: string, front: seq<string>, name: string)
    ensures PathString(root, front + [name]) == PathString(root, front) + [SEP] + name
  {
    if front != [] {
      JoinConcat(front, [name]);
    } else {
      assert front + [name] == [name];
    }
  }

  lemma BasenameOfPath(root: string, c: seq<string>)
    requires Good(c) && c != []
    ensures PathString(root, c) == PathString(root, c[..|c| - 1]) + [SEP] + c[|c| - 1]
    ensures Basename(PathString(root, c)) == c[|c| - 1]
  {
    assert c == c[..|c| - 1] + [c[|c| - 1]];
    PathStringSnoc(root, c[..|c| - 1], c[|c| - 1]);
    SplitBack(PathString(root, c[..|c| - 1]), c[|c| - 1]);
  }

  lemma DirnameOfJoin(front: seq<string>, name: string)
    requires GoodName(name)
    ensures Dirname(Join(front + [name])) == if front == [] then "" else Join(front)
  {
    if front == [] {
      assert front + [name] == [name];
      SplitSingle(name);
    } else {
      JoinConcat(front, [name]);
      SplitBack(Join(front), name);
    }
  }

  /** Under the same root, a path lies under another only if its components continue the other's. */
  lemma PathPrefix(root: string, c: seq<string>, d: seq<string>)
    requires Good(c) && Good(d) && Under(PathString(root, c), PathString(root, d))
    ensures |c| <= |d| && d[..|c|] == c
  {
    if c != [] {
      var p, q, k := PathString(root, c), PathString(root, d), |root| + 1;
      assert d != [];
      assert p[k..] == Join(c) && q[k..] == Join(d);
      if p == q {
        JoinInjective(c, d);
      } else {
        assert Join(c) + [SEP] == (p + [SEP])[k..] <= q[k..];
        JoinPrefix(c, d);
      }
    }
  }
}
