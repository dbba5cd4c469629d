/** The attempts of one move: what the second needs, what a block leaves that stops one, and that the state before settles all. */
module Retries {
  import opened Utxo
  import opened CommitTxs
  import opened UnspentDb
  import opened ChainTree
  import opened ChainCoins
  import opened Fork
  import opened UndoFiles
  import opened BlockDb
  import opened Branches
  import C = Chain

  /**
   * After a block bad has stopped a move, the next attempt lacks undo files if and only if a block just connected is too far
   * below the first target for its file to have been written, or one that stood before has no file or has lost it.
   */
  lemma RetryLacks(c: C.Chain, r: C.Round, a: BlockTreeNode, bad: BlockTreeNode, next: C.Round, lower: BlockTreeNode)
    requires 0 !in r.files && (forall h :: h in r.files ==> h <= r.from.Height)
    requires HighestCommon(r.ns, a, r.dst, r.from) && c.FirstStop(r.bs, r.ns, a, r.dst, bad)
    requires c.AfterStop(r, FilesDown(r.files, a.Height, r.from.Height), a, bad, next)
    requires lower in next.ns && HighestCommon(next.ns, lower, next.dst, next.from) && !Blocked(c.root, next.ns, lower, next.dst, next.from)
    ensures var top := bad.Height - 1;
      c.Lacks(next) <==>
        || (top > a.Height && top > lower.Height && (if a.Height > lower.Height then a.Height else lower.Height) + 1 + UNWIND_BUF_LEN < r.dst.Height)
        || exists h :: lower.Height < h <= a.Height && !Kept(r.files, a.Height, top, h)
  {
    hide Blocked, FilesUp, Ancestor, C.Chain.StoreAfter, C.Chain.Sticks;
    var top := bad.Height - 1;
    AncestorHeight(a, r.from);
    AncestorHeight(a, bad.Parent);
    AncestorHeight(bad, r.dst);
    AncestorHeight(lower, next.from);
    HighestCommonUnique(next.ns, lower, next.dst, next.from);
    RetryHasUndo(r.files, r.from.Height, a.Height, top, r.dst.Height, lower.Height);
    assert c.Lacks(next) <==> !HasUndo(next.files, lower.Height, top);
  }

  ghost predicate HasChild(ns: set<BlockTreeNode>, n: BlockTreeNode) {
    exists x :: x in ns && x.Parent == n
  }

  ghost predicate HasTwo(ns: set<BlockTreeNode>, n: BlockTreeNode) {
    exists x, y :: x in ns && y in ns && x != y && x.Parent == n && y.Parent == n
  }

  lemma KidsCounted(ns: set<BlockTreeNode>, n: BlockTreeNode)
    ensures |Kids(ns, n)| >= 1 <==> HasChild(ns, n)
    ensures |Kids(ns, n)| >= 2 <==> HasTwo(ns, n)
  {
    var kids := Kids(ns, n);
    if x :| x in kids {
      assert x in ns && x.Parent == n;
      var rest := kids - {x};
      if y :| y in rest {
        assert x in ns && y in ns && x != y && x.Parent == n && y.Parent == n;
        assert |rest| == |rest - {y}| + 1;
      } else {
        assert rest == {} && kids == {x};
        assert forall y :: y in ns && y.Parent == n ==> y in kids;
      }
    } else {
      assert kids == {} && forall y :: y in ns && y.Parent == n ==> y in kids;
    }
  }

  /**
   * A refused block with data cannot be taken away if and only if it is trusted, or is in the file and has a child, or some
   * block above it is trusted and has a child, or is in the file and has two.
   */
  lemma StickingBlocks(c: C.Chain, bs: map<nat, Block>, saved: set<nat>, ns: set<BlockTreeNode>, bad: BlockTreeNode)
    requires bad in ns && bad.BlockSize > 0
    ensures c.Sticks(bs, saved, ns, bad) <==>
      || (bad.BlockHash in bs && (bs[bad.BlockHash].trusted || (bad.BlockHash in saved && HasChild(ns, bad))))
      || exists x :: x in ns && Ancestor(bad, x) && x != bad && x.BlockHash in bs
           && ((bs[x.BlockHash].trusted && HasChild(ns, x)) || (x.BlockHash in saved && HasTwo(ns, x)))
  {
    hide HasChild, HasTwo, Kids, Ancestor;
    SelfAncestor(bad);
    forall x | x in ns
      ensures Fatal(bs, saved, x.BlockHash, Calls(ns, bad, 1, x)) <==> (x.BlockHash in bs && (
        if x == bad then bs[x.BlockHash].trusted || (x.BlockHash in saved && HasChild(ns, x))
        else (bs[x.BlockHash].trusted && HasChild(ns, x)) || (x.BlockHash in saved && HasTwo(ns, x))))
    {
      KidsCounted(ns, x);
    }
  }

  /**
   * A block in the file that has been taken away stays in the store, and is trusted now: should its header come again, it
   * passes if and only if it does with its scripts not looked at.
   */
  lemma ComesBackTrusted(c: C.Chain, bs: map<nat, Block>, saved: set<nat>, ns: set<BlockTreeNode>, a: BlockTreeNode, bad: BlockTreeNode, again: BlockTreeNode)
    requires OneEach(ns) && ParentTree(c.root, ns) && bad in ns && bad.Parent != null && bad.BlockSize > 0 && !c.Sticks(bs, saved, ns, bad)
    requires bad.BlockHash in bs && bad.BlockHash in saved && |bs[bad.BlockHash].txs| >= 1
    requires again.BlockHash == bad.BlockHash && again.Parent == bad.Parent && again.Height == bad.Height
    ensures c.Passes(c.StoreAfter(bs, saved, ns, a, bad), again)
       <==> BlockOk(CoinsAt(c.content, bad.Parent), bs[bad.BlockHash].(trusted := true), bad.Height, c.env)
  {
    hide BlockOk, Ancestor, C.TrustedUp;
    var h, up := bad.BlockHash, C.TrustedUp(bs, a, bad.Parent);
    forall y | Ancestor(y, bad.Parent)
      ensures y.BlockHash != h
    {
      AncestorInTree(c.root, ns, y, bad.Parent);
      AncestorHeight(y, bad.Parent);
    }
    C.TrustedUpElse(bs, a, bad.Parent, h);
    SelfAncestor(bad);
    assert h in Called(ns, bad, 1) by {
      assert bad in Subtree(ns, bad) && Calls(ns, bad, 1, bad) > 0;
    }
    assert c.StoreAfter(bs, saved, ns, a, bad)[h] == bs[h].(trusted := true);
  }

  /**
   * A move that is refused, or lacks undo files, or has nothing in its way, or something that cannot be taken away, is over at
   * once. It panics if and only if it is not refused, and lacks them or has that in its way.
   */
  lemma NoRetry(c: C.Chain, ns: set<BlockTreeNode>, rounds: seq<C.Round>, o: C.Outcome, a: BlockTreeNode, bad: BlockTreeNode?)
    requires c.Trace(ns, rounds, o) && a in rounds[0].ns && HighestCommon(rounds[0].ns, a, rounds[0].dst, rounds[0].from)
    requires bad != null ==> c.FirstStop(rounds[0].bs, rounds[0].ns, a, rounds[0].dst, bad) && c.Sticks(rounds[0].bs, rounds[0].saved, rounds[0].ns, bad)
    requires || Blocked(c.root, rounds[0].ns, a, rounds[0].dst, rounds[0].from) || !HasUndo(rounds[0].files, a.Height, rounds[0].from.Height)
             || bad != null || c.ClearWay(rounds[0].bs, rounds[0].ns, a, rounds[0].dst)
    ensures |rounds| == 1
    ensures !c.mayAbort && !o.Diverged? ==>
      (o.Panicked? <==> !Blocked(c.root, rounds[0].ns, a, rounds[0].dst, rounds[0].from)
                        && (bad != null || !HasUndo(rounds[0].files, a.Height, rounds[0].from.Height)))
  {
    hide HighestCommon, Blocked, HasUndo, C.Chain.StoreAfter, C.Chain.Stops, C.Chain.Sticks, Ancestor;
    var r := rounds[0];
    HighestCommonUnique(r.ns, a, r.dst, r.from);
    forall x | x in r.ns && c.FirstStop(r.bs, r.ns, a, r.dst, x)
      ensures Ancestor(a, x) && x != a && (bad != null ==> x == bad)
    {
      AboveParent(a, x);
      if bad != null {
        OneFirstStop(c, r.bs, r.ns, a, r.dst, x, bad);
      }
    }
    if bad != null {
      AboveParent(a, bad);
    }
    var k := if |rounds| > 1 then 1 else 0;
    assert !c.Follows(r, rounds[k]);
  }

  lemma OneFirstStop(c: C.Chain, bs: map<nat, Block>, ns: set<BlockTreeNode>, a: BlockTreeNode, b: BlockTreeNode, x: BlockTreeNode, y: BlockTreeNode)
    requires c.FirstStop(bs, ns, a, b, x) && c.FirstStop(bs, ns, a, b, y)
    ensures x == y
  {
    if x.Height <= y.Height {
      FirstStopUnique(c, bs, ns, a, b, x, y);
    } else {
      FirstStopUnique(c, bs, ns, a, b, y, x);
    }
  }

  lemma FirstStopUnique(c: C.Chain, bs: map<nat, Block>, ns: set<BlockTreeNode>, a: BlockTreeNode, b: BlockTreeNode, x: BlockTreeNode, y: BlockTreeNode)
    requires c.FirstStop(bs, ns, a, b, x) && c.FirstStop(bs, ns, a, b, y) && x.Height <= y.Height
    ensures x == y
  {
    hide C.Chain.Stops;
    AncestorsLinear(x, y, b);
    AboveParent(a, x);
  }

  /** A block that stops the way up and can be taken away rules out that the move ends there. */
  lemma StopGoesOn(c: C.Chain, r: C.Round, next: C.Round)
    requires c.Follows(r, next)
    ensures !c.Ends(r) && !c.Lacks(r) && !c.Jams(r)
  {
    hide HighestCommon, Blocked, HasUndo, C.Chain.StoreAfter, C.Chain.Sticks, C.Chain.FirstStop, C.Chain.ClearWay, Ancestor;
    var a, bad :| a in r.ns && bad in r.ns && HighestCommon(r.ns, a, r.dst, r.from) && !Blocked(c.root, r.ns, a, r.dst, r.from)
      && HasUndo(r.files, a.Height, r.from.Height) && c.FirstStop(r.bs, r.ns, a, r.dst, bad)
      && c.AfterStop(r, FilesDown(r.files, a.Height, r.from.Height), a, bad, next);
    HighestCommonUnique(r.ns, a, r.dst, r.from);
    NotClear(c, r.bs, r.ns, a, r.dst, bad);
    if c.Jams(r) {
      var x :| x in r.ns && c.FirstStop(r.bs, r.ns, a, r.dst, x) && c.Sticks(r.bs, r.saved, r.ns, x);
      OneFirstStop(c, r.bs, r.ns, a, r.dst, x, bad);
    }
  }

  lemma NotClear(c: C.Chain, bs: map<nat, Block>, ns: set<BlockTreeNode>, a: BlockTreeNode, b: BlockTreeNode, bad: BlockTreeNode)
    requires c.FirstStop(bs, ns, a, b, bad)
    ensures !c.ClearWay(bs, ns, a, b)
  {
    hide C.Chain.Stops;
    AboveParent(a, bad);
  }

  /** No other node left is as high as the target. */
  ghost predicate NoTie(r: C.Round) {
    forall x :: x in r.ns && x != r.dst ==> x.Height < r.dst.Height
  }

  lemma FollowsUnique(c: C.Chain, r: C.Round, x: C.Round, y: C.Round)
    requires c.Follows(r, x) && c.Follows(r, y) && NoTie(x)
    ensures x == y
  {
    hide HighestCommon, Blocked, HasUndo, C.Chain.FirstStop, C.Chain.Sticks, C.Chain.StoreAfter, Subtree, FilesUp, FilesDown;
    var a, p :| a in r.ns && p in r.ns && HighestCommon(r.ns, a, r.dst, r.from) && c.FirstStop(r.bs, r.ns, a, r.dst, p)
      && c.AfterStop(r, FilesDown(r.files, a.Height, r.from.Height), a, p, x);
    var b, q :| b in r.ns && q in r.ns && HighestCommon(r.ns, b, r.dst, r.from) && c.FirstStop(r.bs, r.ns, b, r.dst, q)
      && c.AfterStop(r, FilesDown(r.files, b.Height, r.from.Height), b, q, y);
    HighestCommonUnique(r.ns, a, r.dst, r.from);
    OneFirstStop(c, r.bs, r.ns, a, r.dst, p, q);
  }

  lemma {:induction false} SameRounds(c: C.Chain, ns: set<BlockTreeNode>, xs: seq<C.Round>, ys: seq<C.Round>, o: C.Outcome, o': C.Outcome, k: nat)
    requires c.Trace(ns, xs, o) && c.Trace(ns, ys, o') && xs[0] == ys[0]
    requires (forall i :: 1 <= i < |xs| ==> NoTie(xs[i])) && k < |xs| && k < |ys|
    ensures xs[k] == ys[k]
  {
    hide C.Chain.Follows, C.Chain.Ends, C.Chain.Lacks, C.Chain.Jams, NoTie;
    if k > 0 {
      SameRounds(c, ns, xs, ys, o, o', k - 1);
      FollowsUnique(c, xs[k - 1], xs[k], ys[k]);
    }
  }

  /** Ties for the farthest node apart, what a move comes to is settled before it starts: the attempts and the outcome. */
  lemma Determined(c: C.Chain, ns: set<BlockTreeNode>, xs: seq<C.Round>, ys: seq<C.Round>, o: C.Outcome, o': C.Outcome)
    requires c.Trace(ns, xs, o) && c.Trace(ns, ys, o') && xs[0] == ys[0] && !c.mayAbort && !o.Diverged? && !o'.Diverged?
    requires forall i :: 1 <= i < |xs| ==> NoTie(xs[i])
    ensures xs == ys && o == o'
  {
    hide C.Chain.Follows, C.Chain.Ends, C.Chain.Lacks, C.Chain.Jams, NoTie;
    var n := if |xs| <= |ys| then |xs| else |ys|;
    forall k | 0 <= k < n
      ensures xs[k] == ys[k]
    {
      SameRounds(c, ns, xs, ys, o, o', k);
    }
    if |xs| < |ys| {
      StopGoesOn(c, ys[n - 1], ys[n]);
    }
    if |ys| < |xs| {
      StopGoesOn(c, xs[n - 1], xs[n]);
    }
    if c.Ends(xs[|xs| - 1]) {
      c.EndsHasAll(xs[|xs| - 1]);
    }
  }
}
