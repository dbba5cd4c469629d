/** Median time past (BIP 113), and the finality of transactions. */
module MedianTime {
  import opened ChainTree

  const MedianTimeSpan := 11
  const LOCKTIME_THRESHOLD := 500000000

  type Clock = BlockTreeNode -> nat

  // Medians, by counting.

  ghost function CountBelow(s: seq<nat>, x: nat): nat {
    if s == [] then 0 else CountBelow(s[..|s| - 1], x) + if s[|s| - 1] < x then 1 else 0
  }

  /** Not more than half of s is below x, but more than half is below x + 1: x is what stands in the middle of s, sorted. */
  ghost predicate IsMedian(s: seq<nat>, x: nat) {
    CountBelow(s, x) <= |s| / 2 < CountBelow(s, x + 1)
  }

  lemma {:induction false} CountJoin(s: seq<nat>, t: seq<nat>, x: nat)
    ensures CountBelow(s + t, x) == CountBelow(s, x) + CountBelow(t, x)
  {
    if t == [] {
      assert s + t == s;
    } else {
      CountJoin(s, t[..|t| - 1], x);
      assert (s + t)[..|s + t| - 1] == s + t[..|t| - 1];
    }
  }

  lemma {:induction false} CountMonotone(s: seq<nat>, x: nat, y: nat)
    requires x <= y
    ensures CountBelow(s, x) <= CountBelow(s, y) <= |s|
  {
    if s != [] {
      CountMonotone(s[..|s| - 1], x, y);
    }
  }

  /** Counting does not depend on the order. */
  lemma {:induction false} CountPermuted(s: seq<nat>, t: seq<nat>, x: nat)
    requires multiset(s) == multiset(t)
    ensures CountBelow(s, x) == CountBelow(t, x)
  {
    if s == [] {
      assert |multiset(t)| == |t|;
    } else {
      var init, a := s[..|s| - 1], s[|s| - 1];
      assert s == init + [a];
      assert a in multiset(t);
      var k :| 0 <= k < |t| && t[k] == a;
      var rest := t[..k] + t[k + 1..];
      assert t == t[..k] + [a] + t[k + 1..];
      assert multiset(s) == multiset(init) + multiset{a};
      assert multiset(t) == multiset(t[..k]) + multiset{a} + multiset(t[k + 1..]);
      assert multiset(rest) == multiset(t[..k]) + multiset(t[k + 1..]);
      assert multiset(init) == multiset(s) - multiset{a};
      assert multiset(rest) == multiset(t) - multiset{a};
      CountPermuted(init, rest, x);
      CountJoin(t[..k], t[k + 1..], x);
      CountJoin(t[..k] + [a], t[k + 1..], x);
      CountJoin(t[..k], [a], x);
      CountOne(a, x);
      CountJoin(init, [a], x);
    }
  }

  lemma CountOne(a: nat, x: nat)
    ensures CountBelow([a], x) == if a < x then 1 else 0
  {
    assert [a][..0] == [];
  }

  predicate Sorted(s: seq<nat>) {
    forall i, j :: 0 <= i < j < |s| ==> s[i] <= s[j]
  }

  lemma {:induction false} CountAll(s: seq<nat>, x: nat)
    ensures (forall i :: 0 <= i < |s| ==> s[i] < x) ==> CountBelow(s, x) == |s|
    ensures (forall i :: 0 <= i < |s| ==> s[i] >= x) ==> CountBelow(s, x) == 0
  {
    if s != [] {
      CountAll(s[..|s| - 1], x);
    }
  }

  /** The middle of a sorted list is its median. */
  lemma MiddleIsMedian(s: seq<nat>)
    requires Sorted(s) && s != []
    ensures IsMedian(s, s[|s| / 2])
  {
    hide CountBelow;
    var k, x := |s| / 2, s[|s| / 2];
    assert s == s[..k] + s[k..];
    assert s == s[..k + 1] + s[k + 1..];
    CountJoin(s[..k], s[k..], x);
    CountAll(s[k..], x);
    CountMonotone(s[..k], x, x);
    CountJoin(s[..k + 1], s[k + 1..], x + 1);
    CountAll(s[..k + 1], x + 1);
  }

  lemma MiddleOfSorted(sorted: seq<nat>, s: seq<nat>)
    requires Sorted(sorted) && multiset(sorted) == multiset(s) && s != []
    ensures |sorted| == |s| && IsMedian(s, sorted[|s| / 2])
  {
    hide CountBelow;
    assert |sorted| == |multiset(sorted)| == |multiset(s)| == |s|;
    var m := sorted[|s| / 2];
    MiddleIsMedian(sorted);
    CountPermuted(sorted, s, m);
    CountPermuted(sorted, s, m + 1);
  }

  /** A list has one median only. */
  lemma MedianUnique(s: seq<nat>, x: nat, y: nat)
    requires IsMedian(s, x) && IsMedian(s, y)
    ensures x == y
  {
    if x < y {
      CountMonotone(s, x + 1, y);
    } else if y < x {
      CountMonotone(s, y + 1, x);
    }
  }

  lemma NothingSorted()
    ensures Sorted([])
  {
  }

  lemma Inserted(r: seq<nat>, k: nat, x: nat)
    requires Sorted(r) && k <= |r| && (forall j :: 0 <= j < k ==> r[j] <= x) && (k < |r| ==> x <= r[k])
    ensures Sorted(r[..k] + [x] + r[k..]) && multiset(r[..k] + [x] + r[k..]) == multiset(r) + multiset{x}
  {
    assert r == r[..k] + r[k..];
  }

  /** sort.Ints. */
  method SortInts(s: seq<nat>) returns (r: seq<nat>)
    ensures Sorted(r) && multiset(r) == multiset(s)
  {
    hide Sorted;
    r := [];
    assert s[..0] == [] && Sorted([]) by {
      NothingSorted();
    }
    for i := 0 to |s|
      invariant Sorted(r) && multiset(r) == multiset(s[..i])
    {
      var k := 0;
      while k < |r| && r[k] <= s[i]
        invariant 0 <= k <= |r| && forall j :: 0 <= j < k ==> r[j] <= s[i]
      {
        k := k + 1;
      }
      assert s[..i + 1] == s[..i] + [s[i]];
      Inserted(r, k, s[i]);
      r := r[..k] + [s[i]] + r[k..];
    }
    assert s[..|s|] == s;
  }

  /** The times of the last k blocks up to n, fewer near the root. */
  ghost function Window(ts: Clock, n: BlockTreeNode?, k: nat): seq<nat> {
    if n == null || k == 0 then [] else Window(ts, n.Parent, k - 1) + [ts(n)]
  }

  lemma WindowBack(ts: Clock, n: BlockTreeNode, k: nat)
    requires k > 0
    ensures Window(ts, n, k) == Window(ts, n.Parent, k - 1) + [ts(n)]
  {
  }

  lemma WindowEnd(ts: Clock, n: BlockTreeNode?, k: nat)
    requires n == null || k == 0
    ensures Window(ts, n, k) == []
  {
  }

  /** GetMedianTimePast. */
  method GetMedianTimePast(node: BlockTreeNode, ts: Clock) returns (m: nat)
    ensures IsMedian(Window(ts, node, MedianTimeSpan), m)
  {
    hide IsMedian, Window, Sorted;
    var pmedian := new nat[MedianTimeSpan];
    var pbegin := MedianTimeSpan;
    var pend := MedianTimeSpan;
    var pindex: BlockTreeNode? := node;
    var i := 0;
    WindowGrows(ts, node, MedianTimeSpan);
    assert pmedian[pbegin..] == [];
    ghost var whole := Window(ts, node, MedianTimeSpan);
    assert whole + [] == whole;
    while i < MedianTimeSpan && pindex != null
      invariant 0 <= i <= MedianTimeSpan && pbegin == MedianTimeSpan - i
      invariant Window(ts, pindex, MedianTimeSpan - i) + pmedian[pbegin..] == whole
      decreases MedianTimeSpan - i
    {
      ghost var tail, rest := pmedian[pbegin..], Window(ts, pindex.Parent, MedianTimeSpan - i - 1);
      WindowBack(ts, pindex, MedianTimeSpan - i);
      pbegin := pbegin - 1;
      pmedian[pbegin] := ts(pindex);
      assert pmedian[pbegin..] == [ts(pindex)] + tail;
      assert rest + ([ts(pindex)] + tail) == (rest + [ts(pindex)]) + tail;
      pindex := pindex.Parent;
      i := i + 1;
    }
    WindowEnd(ts, pindex, MedianTimeSpan - i);
    assert [] + pmedian[pbegin..] == pmedian[pbegin..];
    var window := pmedian[pbegin..pend];
    assert window == whole;
    var sorted := SortInts(window);
    MiddleOfSorted(sorted, window);
    m := sorted[(pend - pbegin) / 2];
  }

  /** A window one longer has the same times, or one more before them. */
  lemma {:induction false} WindowGrows(ts: Clock, n: BlockTreeNode?, k: nat)
    ensures |Window(ts, n, k)| <= k && (n != null && k > 0 ==> Window(ts, n, k) != [])
    ensures var w, v := Window(ts, n, k + 1), Window(ts, n, k); w == v || (|w| == |v| + 1 && w == [w[0]] + v)
    decreases k
  {
    if n != null && k > 0 {
      WindowGrows(ts, n.Parent, k - 1);
      var w, v := Window(ts, n.Parent, k), Window(ts, n.Parent, k - 1);
      if w != v {
        assert Window(ts, n, k + 1) == [w[0]] + Window(ts, n, k);
      }
    }
  }

  /** The timestamp rule: a block is later than the median of its parent. */
  ghost predicate Later(ts: Clock, n: BlockTreeNode) {
    n.Parent != null ==> forall m :: IsMedian(Window(ts, n.Parent, MedianTimeSpan), m) ==> ts(n) > m
  }

  /** PreCheckBlock's look at the time of a block on top of prevblk. */
  method PreCheckTime(prevblk: BlockTreeNode, blockTime: nat, ts: Clock) returns (medianPastTime: nat, ok: bool)
    ensures IsMedian(Window(ts, prevblk, MedianTimeSpan), medianPastTime)
    ensures ok <==> forall m :: IsMedian(Window(ts, prevblk, MedianTimeSpan), m) ==> blockTime > m
  {
    medianPastTime := GetMedianTimePast(prevblk, ts);
    ok := blockTime > medianPastTime;
    forall m | IsMedian(Window(ts, prevblk, MedianTimeSpan), m)
      ensures m == medianPastTime
    {
      MedianUnique(Window(ts, prevblk, MedianTimeSpan), m, medianPastTime);
    }
  }

  /** The median of a node is not below its parent's. */
  lemma MedianStep(ts: Clock, n: BlockTreeNode, m: nat, m': nat)
    requires n.Parent != null && Later(ts, n)
    requires IsMedian(Window(ts, n.Parent, MedianTimeSpan), m) && IsMedian(Window(ts, n, MedianTimeSpan), m')
    ensures m <= m'
  {
    hide IsMedian, Window;
    var old11, last10, now := Window(ts, n.Parent, MedianTimeSpan), Window(ts, n.Parent, MedianTimeSpan - 1), Window(ts, n, MedianTimeSpan);
    WindowGrows(ts, n.Parent, MedianTimeSpan - 1);
    WindowBack(ts, n, MedianTimeSpan);
    assert ts(n) > m;
    CountJoin(last10, [ts(n)], m);
    CountOne(ts(n), m);
    if old11 != last10 {
      CountJoin([old11[0]], last10, m);
    }
    NotBelow(old11, now, m, m');
  }

  lemma NotBelow(s: seq<nat>, t: seq<nat>, m: nat, m': nat)
    requires IsMedian(s, m) && IsMedian(t, m') && CountBelow(t, m) <= CountBelow(s, m) && |s| <= |t|
    ensures m <= m'
  {
    if m' < m {
      CountMonotone(t, m' + 1, m);
    }
  }

  /** Medians never decrease along a path on which every block passed the rule. */
  lemma {:induction false} MedianMonotone(ts: Clock, a: BlockTreeNode, n: BlockTreeNode, m: nat, m': nat)
    requires Ancestor(a, n) && forall x: BlockTreeNode :: Ancestor(a, x) && Ancestor(x, n) ==> Later(ts, x)
    requires IsMedian(Window(ts, a, MedianTimeSpan), m) && IsMedian(Window(ts, n, MedianTimeSpan), m')
    ensures m <= m'
    decreases n.Height
  {
    if a == n {
      MedianUnique(Window(ts, a, MedianTimeSpan), m, m');
    } else {
      var p := n.Parent;
      var between := MedianExists(ts, p);
      forall x: BlockTreeNode | Ancestor(a, x) && Ancestor(x, p)
        ensures Later(ts, x)
      {
        assert Ancestor(x, n) by {
          assert Ancestor(p, n);
          AncestorTrans(x, p, n);
        }
      }
      MedianMonotone(ts, a, p, m, between);
      assert Ancestor(a, n) && Ancestor(n, n);
      MedianStep(ts, n, between, m');
    }
  }

  lemma {:induction false} UpperBound(s: seq<nat>) returns (b: nat)
    ensures CountBelow(s, b) == |s|
  {
    b := 0;
    if s != [] {
      var c := UpperBound(s[..|s| - 1]);
      b := c + s[|s| - 1] + 1;
      CountMonotone(s[..|s| - 1], c, b);
    }
  }

  lemma MedianOf(s: seq<nat>) returns (m: nat)
    requires s != []
    ensures IsMedian(s, m)
  {
    var b := UpperBound(s);
    m := 0;
    CountAll(s, 0);
    while CountBelow(s, m + 1) <= |s| / 2
      invariant CountBelow(s, m) <= |s| / 2
      decreases b - m
    {
      if m + 1 >= b {
        CountMonotone(s, b, m + 1);
      }
      m := m + 1;
    }
  }

  lemma MedianExists(ts: Clock, n: BlockTreeNode) returns (m: nat)
    ensures IsMedian(Window(ts, n, MedianTimeSpan), m)
  {
    WindowGrows(ts, n, MedianTimeSpan);
    m := MedianOf(Window(ts, n, MedianTimeSpan));
  }

  // Lock times.

  /** IsFinal, for the lock time and the inputs' sequence numbers. */
  method IsFinal(lockTime: nat, sequences: seq<nat>, blockHeight: nat, timestamp: nat) returns (final: bool)
    ensures final <==> Final(lockTime, sequences, blockHeight, timestamp)
  {
    if lockTime == 0 {
      return true;
    }
    if lockTime < LOCKTIME_THRESHOLD {
      if lockTime < blockHeight {
        return true;
      }
    } else {
      if lockTime < timestamp {
        return true;
      }
    }
    for i := 0 to |sequences|
      invariant forall j :: 0 <= j < i ==> sequences[j] == 0xffffffff
    {
      if sequences[i] != 0xffffffff {
        return false;
      }
    }
    final := true;
  }

  ghost predicate Final(lockTime: nat, sequences: seq<nat>, blockHeight: nat, timestamp: nat) {
    || lockTime < (if lockTime < LOCKTIME_THRESHOLD then blockHeight else timestamp)
    || lockTime == 0
    || forall i :: 0 <= i < |sequences| ==> sequences[i] == 0xffffffff
  }

  /** With an input that is not final, a lock time below the threshold waits for a height, any other for a time. */
  lemma FinalFrom(lockTime: nat, sequences: seq<nat>, i: nat, blockHeight: nat, timestamp: nat)
    requires i < |sequences| && sequences[i] != 0xffffffff
    ensures 0 < lockTime < 500000000 ==> (Final(lockTime, sequences, blockHeight, timestamp) <==> blockHeight >= lockTime + 1)
    ensures lockTime >= 500000000 ==> (Final(lockTime, sequences, blockHeight, timestamp) <==> timestamp >= lockTime + 1)
    ensures lockTime == 0 ==> Final(lockTime, sequences, blockHeight, timestamp)
  {
  }

  /** A transaction final in a block on top of a is final in any block on top of a descendant of a. */
  lemma StaysFinal(ts: Clock, a: BlockTreeNode, n: BlockTreeNode, m: nat, m': nat, lockTime: nat, sequences: seq<nat>)
    requires Ancestor(a, n) && forall x: BlockTreeNode :: Ancestor(a, x) && Ancestor(x, n) ==> Later(ts, x)
    requires IsMedian(Window(ts, a, MedianTimeSpan), m) && IsMedian(Window(ts, n, MedianTimeSpan), m')
    requires Final(lockTime, sequences, a.Height + 1, m)
    ensures Final(lockTime, sequences, n.Height + 1, m')
  {
    MedianMonotone(ts, a, n, m, m');
    AncestorHeight(a, n);
  }
}
