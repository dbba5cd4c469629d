/** The Merkle root of a list of hashes. */
module Merkle {
  /** The hash of two nodes joined. */
  type Pair<!H> = (H, H) -> H

  /** The level above s: its last node is paired with itself when there is an odd number of them. */
  function Above<H>(h: Pair<H>, s: seq<H>): (t: seq<H>)
    ensures |t| == (|s| + 1) / 2
  {
    seq((|s| + 1) / 2, k requires 0 <= k < (|s| + 1) / 2 => h(s[2 * k], if 2 * k + 1 < |s| then s[2 * k + 1] else s[2 * k]))
  }

  function Root<H>(h: Pair<H>, s: seq<H>): H
    requires |s| >= 1
    decreases |s|
  {
    if |s| == 1 then s[0] else Root(h, Above(h, s))
  }

  function Height(n: nat): nat
    requires n >= 1
    decreases n
  {
    if n == 1 then 0 else 1 + Height((n + 1) / 2)
  }

  /** Two different nodes of a pair, somewhere in the tree, are equal. */
  ghost predicate Mutated<H>(h: Pair<H>, s: seq<H>)
    requires |s| >= 1
    decreases |s|
  {
    |s| > 1 && (EqualPair(s, |s|) || Mutated(h, Above(h, s)))
  }

  ghost predicate EqualPair<H>(s: seq<H>, n: nat) {
    exists k :: 0 <= 2 * k && 2 * k + 1 < n <= |s| && s[2 * k] == s[2 * k + 1]
  }

  lemma AboveStep<H>(h: Pair<H>, s: seq<H>, k: nat)
    requires 2 * k < |s|
    ensures Above(h, s)[..k + 1] == Above(h, s)[..k] + [h(s[2 * k], if 2 * k + 1 < |s| then s[2 * k + 1] else s[2 * k])]
  {
  }

  lemma EqualPairStep<H>(s: seq<H>, i: nat, same: bool)
    requires i % 2 == 0 && i < |s| && (same <==> i + 1 < |s| && s[i] == s[i + 1])
    ensures EqualPair(s, if i + 2 <= |s| then i + 2 else |s|) <==> EqualPair(s, i) || same
  {
    if same {
      assert s[2 * (i / 2)] == s[2 * (i / 2) + 1];
    }
    if EqualPair(s, i) {
      var k :| 0 <= 2 * k && 2 * k + 1 < i <= |s| && s[2 * k] == s[2 * k + 1];
      assert s[2 * k] == s[2 * k + 1];
    }
    var n := if i + 2 <= |s| then i + 2 else |s|;
    if EqualPair(s, n) && !EqualPair(s, i) {
      var k :| 0 <= 2 * k && 2 * k + 1 < n <= |s| && s[2 * k] == s[2 * k + 1];
      assert 2 * k == i;
    }
  }

  /** One level of CalcMerkle: the siz nodes from j on, the last ones there, are paired and the results appended. */
  method AppendLevel<H(==)>(h: Pair<H>, before: seq<H>, j: nat, siz: nat) returns (mtr: seq<H>, found: bool)
    requires |before| == j + siz && siz > 1
    ensures mtr == before + Above(h, before[j..])
    ensures found <==> EqualPair(before[j..], siz)
  {
    hide EqualPair, Above;
    ghost var level := before[j..];
    mtr, found := before, false;
    var i := 0;
    LevelStart(h, level);
    while i < siz
      invariant 0 <= i <= siz + 1 && i % 2 == 0
      invariant mtr == before + Above(h, level)[..(if i <= siz then i / 2 else (siz + 1) / 2)]
      invariant found <==> EqualPair(level, if i <= siz then i else siz)
      decreases siz - i
    {
      var i2 := if i + 1 < siz - 1 then i + 1 else siz - 1;
      assert mtr[j + i] == level[i] && mtr[j + i2] == level[i2];
      EqualPairStep(level, i, i != i2 && level[i] == level[i2]);
      AboveStep(h, level, i / 2);
      if i != i2 && mtr[j + i] == mtr[j + i2] {
        found := true;
      }
      mtr := mtr + [h(mtr[j + i], mtr[j + i2])];
      i := i + 2;
    }
    assert Above(h, level)[..(siz + 1) / 2] == Above(h, level);
  }

  lemma LevelStart<H>(h: Pair<H>, s: seq<H>)
    ensures Above(h, s)[..0] == [] && !EqualPair(s, 0)
  {
  }

  /** CalcMerkle: the levels are appended behind the leaves one after another. */
  method CalcMerkle<H(==)>(h: Pair<H>, leaves: seq<H>) returns (res: H, mutated: bool)
    requires |leaves| >= 1
    ensures res == Root(h, leaves)
    ensures mutated <==> Mutated(h, leaves)
  {
    hide Above, EqualPair;
    var mtr := leaves;
    var j, siz := 0, |leaves|;
    mutated := false;
    while siz > 1
      invariant 0 <= j && 1 <= siz && |mtr| == j + siz
      invariant Root(h, mtr[j..]) == Root(h, leaves)
      invariant Mutated(h, leaves) <==> mutated || Mutated(h, mtr[j..])
      decreases siz
    {
      ghost var level := mtr[j..];
      var found;
      mtr, found := AppendLevel(h, mtr, j, siz);
      mutated := mutated || found;
      j := j + siz;
      siz := (siz + 1) / 2;
      assert mtr[j..] == Above(h, level);
    }
    assert mtr[j..] == [mtr[|mtr| - 1]];
    res := mtr[|mtr| - 1];
  }

  /** No two different pairs have the same hash. */
  ghost predicate CollisionFree<H(!new)>(h: Pair<H>) {
    forall a, b, c, d :: h(a, b) == h(c, d) ==> a == c && b == d
  }

  lemma PairsAgree<H(!new)>(h: Pair<H>, s: seq<H>, t: seq<H>, k: nat)
    requires CollisionFree(h) && Above(h, s) == Above(h, t) && 2 * k < |s| && 2 * k < |t|
    ensures s[2 * k] == t[2 * k]
    ensures (if 2 * k + 1 < |s| then s[2 * k + 1] else s[2 * k]) == (if 2 * k + 1 < |t| then t[2 * k + 1] else t[2 * k])
  {
    assert Above(h, s)[k] == Above(h, t)[k];
  }

  /** The longer of two lists with the same level above ends in a pair of equals. */
  lemma LongerEndsInPair<H(!new)>(h: Pair<H>, s: seq<H>, t: seq<H>)
    requires CollisionFree(h) && |s| > |t| >= 1 && Above(h, s) == Above(h, t)
    ensures EqualPair(s, |s|)
  {
    var k := (|t| - 1) / 2;
    PairsAgree(h, s, t, k);
    assert s[2 * k] == s[2 * k + 1];
  }

  lemma SameAbove<H(!new)>(h: Pair<H>, s: seq<H>, t: seq<H>)
    requires CollisionFree(h) && |s| >= |t| >= 1 && Above(h, s) == Above(h, t) && !EqualPair(s, |s|)
    ensures s == t
  {
    hide CollisionFree, EqualPair;
    if |s| > |t| {
      LongerEndsInPair(h, s, t);
    } else {
      forall i | 0 <= i < |s|
        ensures s[i] == t[i]
      {
        PairsAgree(h, s, t, i / 2);
      }
    }
  }

  /** Leaf lists with trees of the same height, the same root and the mutated flag unset are the same. */
  lemma {:induction false} RootDetermines<H(!new)>(h: Pair<H>, s: seq<H>, t: seq<H>)
    requires CollisionFree(h) && |s| >= 1 && |t| >= 1 && Height(|s|) == Height(|t|)
    requires Root(h, s) == Root(h, t) && !Mutated(h, s) && !Mutated(h, t)
    ensures s == t
    decreases |s|
  {
    if |s| == 1 {
      assert s == [s[0]] && t == [t[0]];
    } else {
      RootDetermines(h, Above(h, s), Above(h, t));
      if |s| >= |t| {
        SameAbove(h, s, t);
      } else {
        SameAbove(h, t, s);
      }
    }
  }

  ghost predicate AllDifferent<H>(s: seq<H>) {
    forall i, j :: 0 <= i < j < |s| ==> s[i] != s[j]
  }

  lemma AboveDifferent<H(!new)>(h: Pair<H>, s: seq<H>)
    requires CollisionFree(h) && AllDifferent(s)
    ensures AllDifferent(Above(h, s))
  {
    var t := Above(h, s);
    forall i, j | 0 <= i < j < |t|
      ensures t[i] != t[j]
    {
      assert s[2 * i] != s[2 * j];
    }
  }

  /** Leaves that are all different never set the flag. */
  lemma {:induction false} DifferentUnmutated<H(!new)>(h: Pair<H>, s: seq<H>)
    requires CollisionFree(h) && |s| >= 1 && AllDifferent(s)
    ensures !Mutated(h, s)
    decreases |s|
  {
    hide CollisionFree, Above;
    if |s| > 1 {
      AboveDifferent(h, s);
      DifferentUnmutated(h, Above(h, s));
    }
  }

  /** Without the flag the root does not determine the leaves, whatever the hash. */
  lemma FlagNeeded<H>(h: Pair<H>, a: H, b: H, c: H)
    ensures Root(h, [a, b, c]) == Root(h, [a, b, c, c]) && Height(3) == Height(4) && Mutated(h, [a, b, c, c])
  {
    var s, t := [a, b, c], [a, b, c, c];
    assert Above(h, s) == [h(a, b), h(c, c)] == Above(h, t);
    assert t[2 * 1] == t[2 * 1 + 1];
  }
}
