/** collapse_double_backslashes of src/NFS3Prog/READLINK.cpp. */
module Symlinks {
  import opened Paths

  /** Two separators at position i. */
  predicate DoubleAt(s: string, i: nat) {
    i + 1 < |s| && s[i] == SEP && s[i + 1] == SEP
  }

  /** The first position from `from` on with two separators. */
  method FindDouble(s: string, from: nat) returns (pos: int)
    requires from <= |s|
    ensures pos == -1 || (from <= pos && DoubleAt(s, pos))
    ensures forall i :: from <= i < (if pos == -1 then |s| else pos) ==> !DoubleAt(s, i)
  {
    pos := from;
    while pos < |s|
      invariant from <= pos <= |s|
      invariant forall i :: from <= i < pos ==> !DoubleAt(s, i)
    {
      if pos + 1 < |s| && s[pos] == SEP && s[pos + 1] == SEP {
        return;
      }
      pos := pos + 1;
    }
    pos := -1;
  }

  /** Pairs of separators from the left become one. */
  function Collapsed(s: string): (r: string)
    ensures |r| <= |s|
  {
    if s == [] then []
    else if DoubleAt(s, 0) then [SEP] + Collapsed(s[2..])
    else [s[0]] + Collapsed(s[1..])
  }

  /** Each replacement shortens the string or each search moves on, so the loop ends. */
  method CollapseDoubleBackslashes(s0: string) returns (s: string)
    ensures s == Collapsed(s0)
  {
    s := s0;
    var pos := FindDouble(s, 0);
    NothingToCollapse(s, 0, if pos == -1 then |s| else pos);
    while pos != -1
      invariant pos == -1 || (0 <= pos && DoubleAt(s, pos))
      invariant Collapsed(s0) == if pos == -1 then s else s[..pos] + Collapsed(s[pos..])
      decreases if pos == -1 then 0 else |s| - pos
    {
      ghost var before, at := s, pos;
      s := s[..pos] + [SEP] + s[pos + 2..];
      var next := pos + 1;
      Replaced(before, at, s);
      pos := FindDouble(s, next);
      NothingToCollapse(s, next, if pos == -1 then |s| else pos);
    }
  }

  lemma Replaced(s: string, pos: nat, t: string)
    requires DoubleAt(s, pos) && t == s[..pos] + [SEP] + s[pos + 2..]
    ensures |t| == |s| - 1
    ensures s[..pos] + Collapsed(s[pos..]) == t[..pos + 1] + Collapsed(t[pos + 1..])
  {
    assert s[pos..][2..] == s[pos + 2..] == t[pos + 1..];
    assert t[..pos + 1] == s[..pos] + [SEP];
  }

  /** A stretch without two separators stays as it is. */
  lemma {:induction false} NothingToCollapse(s: string, from: nat, end: nat)
    requires from <= end <= |s|
    requires forall i :: from <= i < end ==> !DoubleAt(s, i)
    ensures s[..from] + Collapsed(s[from..]) == if end == |s| then s else s[..end] + Collapsed(s[end..])
    decreases end - from
  {
    if from < end {
      SingleInFront(s, from);
      NothingToCollapse(s, from + 1, end);
    } else {
      assert end == |s| ==> s[..from] + Collapsed(s[from..]) == s;
    }
  }

  lemma SingleInFront(s: string, from: nat)
    requires from < |s| && !DoubleAt(s, from)
    ensures s[..from] + Collapsed(s[from..]) == s[..from + 1] + Collapsed(s[from + 1..])
  {
    assert !DoubleAt(s[from..], 0);
    assert s[from..][1..] == s[from + 1..];
    assert Collapsed(s[from..]) == [s[from]] + Collapsed(s[from + 1..]);
    assert s[..from + 1] == s[..from] + [s[from]];
  }

  // ---------------------------------------------------------------- what it means

  function Run(k: nat): (s: string)
    ensures |s| == k
  {
    seq(k, _ => SEP)
  }

  /** A run of ks[0] separators, a character, a run of ks[1] separators, and so on. */
  function Spell(ks: seq<nat>, cs: string): string
    requires |ks| == |cs| + 1
  {
    if cs == [] then Run(ks[0]) else Run(ks[0]) + [cs[0]] + Spell(ks[1..], cs[1..])
  }

  predicate NoSeparator(cs: string) {
    forall i :: 0 <= i < |cs| ==> cs[i] != SEP
  }

  function Halved(ks: seq<nat>): (hs: seq<nat>)
    ensures |hs| == |ks|
  {
    seq(|ks|, i requires 0 <= i < |ks| => (ks[i] + 1) / 2)
  }

  lemma OneMoreSeparator(ks: seq<nat>, cs: string)
    requires |ks| == |cs| + 1
    ensures Spell(ks[0 := ks[0] + 1], cs) == [SEP] + Spell(ks, cs)
  {
    assert Run(ks[0] + 1) == [SEP] + Run(ks[0]);
    assert ks[0 := ks[0] + 1][1..] == ks[1..];
  }

  /** Every string is spelled by its maximal runs of separators and its other characters. */
  lemma {:induction false} EveryStringIsSpelled(s: string)
    ensures exists ks: seq<nat>, cs: string :: |ks| == |cs| + 1 && NoSeparator(cs) && s == Spell(ks, cs)
  {
    if s == [] {
      assert s == Spell([0], []);
    } else {
      EveryStringIsSpelled(s[1..]);
      var ks: seq<nat>, cs: string :| |ks| == |cs| + 1 && NoSeparator(cs) && s[1..] == Spell(ks, cs);
      if s[0] == SEP {
        OneMoreSeparator(ks, cs);
        assert s == Spell(ks[0 := ks[0] + 1], cs);
      } else {
        assert ([0] + ks)[1..] == ks && ([s[0]] + cs)[1..] == cs;
        assert Run(0) + [s[0]] == [s[0]];
        assert s == Spell([0] + ks, [s[0]] + cs);
        assert NoSeparator([s[0]] + cs);
      }
    }
  }

  lemma PairInFront(k: nat, rest: string)
    requires k >= 2
    ensures Collapsed(Run(k) + rest) == [SEP] + Collapsed(Run(k - 2) + rest)
    ensures Run((k + 1) / 2) == [SEP] + Run((k - 1) / 2)
  {
    assert DoubleAt(Run(k) + rest, 0);
    assert (Run(k) + rest)[2..] == Run(k - 2) + rest;
  }

  lemma PairCollapses(k: nat, rest: string)
    requires k >= 2 && Collapsed(Run(k - 2) + rest) == Run((k - 1) / 2) + Collapsed(rest)
    ensures Collapsed(Run(k) + rest) == Run((k + 1) / 2) + Collapsed(rest)
  {
    hide Collapsed, Run;
    PairInFront(k, rest);
    assert [SEP] + Run((k - 1) / 2) + Collapsed(rest) == [SEP] + (Run((k - 1) / 2) + Collapsed(rest));
  }

  lemma {:induction false} RunCollapses(k: nat, rest: string)
    requires rest == [] || rest[0] != SEP
    ensures Collapsed(Run(k) + rest) == Run((k + 1) / 2) + Collapsed(rest)
  {
    var s := Run(k) + rest;
    if k == 0 {
      assert s == rest;
      assert Run(0) + Collapsed(rest) == Collapsed(rest);
    } else if k == 1 {
      assert s[1..] == rest && Run(1) == [SEP] && !DoubleAt(s, 0);
    } else {
      RunCollapses(k - 2, rest);
      PairCollapses(k, rest);
    }
  }

  lemma SpellStep(ks: seq<nat>, cs: string)
    requires |ks| == |cs| + 1 && cs != []
    ensures Spell(ks, cs) == Run(ks[0]) + ([cs[0]] + Spell(ks[1..], cs[1..]))
  {
  }

  lemma CollapsedBehind(c: char, s: string)
    requires c != SEP
    ensures Collapsed([c] + s) == [c] + Collapsed(s)
  {
    assert ([c] + s)[1..] == s;
  }

  /** Every maximal run of k separators becomes one of ceil(k / 2), and every other character keeps
      its place between the runs. */
  lemma {:induction false} EveryRunIsHalved(ks: seq<nat>, cs: string)
    requires |ks| == |cs| + 1 && NoSeparator(cs)
    ensures Collapsed(Spell(ks, cs)) == Spell(Halved(ks), cs)
    decreases |cs|
  {
    if cs == [] {
      assert Spell(ks, cs) == Run(ks[0]) + [];
      RunCollapses(ks[0], []);
      assert Run((ks[0] + 1) / 2) + Collapsed([]) == Run((ks[0] + 1) / 2);
    } else {
      var rest := [cs[0]] + Spell(ks[1..], cs[1..]);
      SpellStep(ks, cs);
      RunCollapses(ks[0], rest);
      CollapsedBehind(cs[0], Spell(ks[1..], cs[1..]));
      EveryRunIsHalved(ks[1..], cs[1..]);
      assert Halved(ks)[1..] == Halved(ks[1..]);
      SpellStep(Halved(ks), cs);
    }
  }

  ghost predicate NoDouble(s: string) {
    forall i :: 0 <= i < |s| ==> !DoubleAt(s, i)
  }

  /** The result is free of double separators exactly when no run was longer than two. */
  lemma {:induction false} DoublesAreGoneExactly(ks: seq<nat>, cs: string)
    requires |ks| == |cs| + 1 && NoSeparator(cs)
    ensures NoDouble(Collapsed(Spell(ks, cs))) <==> forall i :: 0 <= i < |ks| ==> ks[i] <= 2
  {
    EveryRunIsHalved(ks, cs);
    DoublesInSpelling(Halved(ks), cs);
    if k :| 0 <= k < |ks| && ks[k] > 2 {
      assert Halved(ks)[k] > 1;
    }
  }

  lemma {:induction false} DoublesInSpelling(ks: seq<nat>, cs: string)
    requires |ks| == |cs| + 1 && NoSeparator(cs)
    ensures NoDouble(Spell(ks, cs)) <==> forall i :: 0 <= i < |ks| ==> ks[i] <= 1
    decreases |cs|
  {
    if cs == [] {
      if ks[0] > 1 { assert DoubleAt(Run(ks[0]), 0); }
    } else {
      var rest := Spell(ks[1..], cs[1..]);
      var s := Spell(ks, cs);
      DoublesInSpelling(ks[1..], cs[1..]);
      assert s == Run(ks[0]) + [cs[0]] + rest;
      if ks[0] > 1 {
        assert DoubleAt(s, 0);
      } else {
        assert forall i :: 0 <= i < |rest| ==> (DoubleAt(rest, i) <==> DoubleAt(s, ks[0] + 1 + i));
        assert forall i :: 0 <= i < |s| && i <= ks[0] ==> !DoubleAt(s, i);
        assert NoDouble(s) <==> NoDouble(rest) by {
          if !NoDouble(rest) {
            var i :| 0 <= i < |rest| && DoubleAt(rest, i);
            assert DoubleAt(s, ks[0] + 1 + i);
          }
          if !NoDouble(s) {
            var i :| 0 <= i < |s| && DoubleAt(s, i);
            assert i > ks[0] ==> DoubleAt(rest, i - ks[0] - 1);
          }
        }
        assert (forall i :: 0 <= i < |ks| ==> ks[i] <= 1) <==> (forall i :: 0 <= i < |ks[1..]| ==> ks[1..][i] <= 1) by {
          if k :| 0 <= k < |ks| && ks[k] > 1 {
            assert ks[1..][k - 1] > 1;
          }
        }
      }
    }
  }
}
