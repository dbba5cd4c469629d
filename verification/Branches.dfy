/** Which stored blocks a deleted branch touches: BlockInvalid is called for its lowest block, and for each block once a child. */
module Branches {
  import opened Utxo
  import opened Seqs
  import opened ChainTree
  import opened BlockDb

  ghost function Kids(ns: set<BlockTreeNode>, n: BlockTreeNode): set<BlockTreeNode> {
    set c | c in ns && c.Parent == n
  }

  /** How many calls x gets, top itself own more than it has children. */
  ghost function Calls(ns: set<BlockTreeNode>, top: BlockTreeNode, own: nat, x: BlockTreeNode): nat {
    |Kids(ns, x)| + if x == top then own else 0
  }

  ghost predicate Breaks(bs: map<nat, Block>, saved: set<nat>, ns: set<BlockTreeNode>, top: BlockTreeNode, own: nat) {
    exists x :: x in Subtree(ns, top) && Fatal(bs, saved, x.BlockHash, Calls(ns, top, own, x))
  }

  /** The blocks that get any calls. */
  ghost function Called(ns: set<BlockTreeNode>, top: BlockTreeNode, own: nat): set<nat> {
    set x | x in Subtree(ns, top) && Calls(ns, top, own, x) > 0 :: x.BlockHash
  }

  /** A block hash stands for one node. */
  ghost predicate OneEach(ns: set<BlockTreeNode>) {
    forall x, y :: x in ns && y in ns && x.BlockHash == y.BlockHash ==> x == y
  }

  lemma KidsAre(ns: set<BlockTreeNode>, n: BlockTreeNode, kids: seq<BlockTreeNode>)
    requires ChildsRight(ns, n) && kids == n.Childs
    ensures |Kids(ns, n)| == |kids|
  {
    DistinctSize(kids);
    assert Kids(ns, n) == Elems(kids);
  }

  /** The calls made while the first i children are dealt with: those below them, and one for the parent each. */
  ghost function CalledBy(ns: set<BlockTreeNode>, n: BlockTreeNode, kids: seq<BlockTreeNode>, i: nat): set<nat>
    requires i <= |kids|
  {
    (set x | x in Below(ns, kids, i) && Kids(ns, x) != {} :: x.BlockHash) + if i > 0 then {n.BlockHash} else {}
  }

  ghost predicate Harmless(bs: map<nat, Block>, saved: set<nat>, ns: set<BlockTreeNode>, n: BlockTreeNode, kids: seq<BlockTreeNode>, i: nat)
    requires i <= |kids|
  {
    && (forall x :: x in Below(ns, kids, i) ==> !Fatal(bs, saved, x.BlockHash, |Kids(ns, x)|))
    && !Fatal(bs, saved, n.BlockHash, i)
  }

  /** n's children are in the tree, with nothing in common below them, and n above them all. */
  ghost predicate Apart(ns: set<BlockTreeNode>, n: BlockTreeNode, kids: seq<BlockTreeNode>) {
    && OneEach(ns) && n in ns
    && (forall i :: 0 <= i < |kids| ==> kids[i] in ns && n !in Subtree(ns, kids[i]) && Subtree(ns, kids[i]) < Subtree(ns, n))
    && (forall i, j :: 0 <= i < j < |kids| ==> Subtree(ns, kids[i]) !! Subtree(ns, kids[j]))
    && Below(ns, kids, |kids|) == Subtree(ns, n) - {n}
    && |Kids(ns, n)| == |kids|
  }

  lemma AreApart(ns: set<BlockTreeNode>, n: BlockTreeNode, kids: seq<BlockTreeNode>)
    requires OneEach(ns) && n in ns && ChildsRight(ns, n) && kids == n.Childs
    requires forall i :: 0 <= i < |kids| ==> kids[i] in ns && n !in Subtree(ns, kids[i]) && Subtree(ns, kids[i]) < Subtree(ns, n)
    requires forall i, j :: 0 <= i < j < |kids| ==> Subtree(ns, kids[i]) !! Subtree(ns, kids[j])
    requires Below(ns, kids, |kids|) == Subtree(ns, n) - {n}
    ensures Apart(ns, n, kids)
  {
    hide Subtree, Below;
    KidsAre(ns, n, kids);
  }

  lemma NothingCalled(bs: map<nat, Block>, saved: set<nat>, ns: set<BlockTreeNode>, n: BlockTreeNode, kids: seq<BlockTreeNode>)
    ensures Below(ns, kids, 0) == {} && CalledBy(ns, n, kids, 0) == {} && Harmless(bs, saved, ns, n, kids, 0) && Marked(bs, saved, {}) == bs
  {
    MarkedNone(bs, saved);
  }

  lemma NotYetCalled(ns: set<BlockTreeNode>, n: BlockTreeNode, kids: seq<BlockTreeNode>, i: nat, x: BlockTreeNode)
    requires Apart(ns, n, kids) && i < |kids| && x in Subtree(ns, kids[i])
    ensures x.BlockHash !in CalledBy(ns, n, kids, i) && x in ns && x != n
  {
    hide Apart, Below;
    assert n in ns && x in ns && x != n && OneEach(ns) by {
      InSubtree(ns, n, kids, i, x);
    }
    forall y | y in Below(ns, kids, i)
      ensures y.BlockHash != x.BlockHash
    {
      EarlierBelow(ns, n, kids, i, x, y);
    }
  }

  lemma InSubtree(ns: set<BlockTreeNode>, n: BlockTreeNode, kids: seq<BlockTreeNode>, i: nat, x: BlockTreeNode)
    requires Apart(ns, n, kids) && i < |kids| && x in Subtree(ns, kids[i])
    ensures n in ns && x in ns && x != n && OneEach(ns)
  {
  }

  lemma EarlierBelow(ns: set<BlockTreeNode>, n: BlockTreeNode, kids: seq<BlockTreeNode>, i: nat, x: BlockTreeNode, y: BlockTreeNode)
    requires Apart(ns, n, kids) && i < |kids| && x in Subtree(ns, kids[i]) && y in Below(ns, kids, i)
    ensures y.BlockHash != x.BlockHash
  {
    BelowIs(ns, kids, i, y);
    var k :| 0 <= k < i && y in Subtree(ns, kids[k]);
    assert Subtree(ns, kids[k]) !! Subtree(ns, kids[i]);
  }

  /** What has been called for before does not matter below the next child. */
  lemma SameBelow(bs: map<nat, Block>, saved: set<nat>, ns: set<BlockTreeNode>, n: BlockTreeNode, kids: seq<BlockTreeNode>, i: nat)
    requires Apart(ns, n, kids) && i < |kids|
    ensures Breaks(Marked(bs, saved, CalledBy(ns, n, kids, i)), saved, ns, kids[i], 0) <==> Breaks(bs, saved, ns, kids[i], 0)
    ensures n.BlockHash !in Called(ns, kids[i], 0)
  {
    hide Apart, Fatal, Marked, CalledBy, Subtree;
    var hs := CalledBy(ns, n, kids, i);
    forall x | x in Subtree(ns, kids[i])
      ensures Fatal(Marked(bs, saved, hs), saved, x.BlockHash, Calls(ns, kids[i], 0, x)) <==> Fatal(bs, saved, x.BlockHash, Calls(ns, kids[i], 0, x))
      ensures x.BlockHash != n.BlockHash
    {
      NotYetCalled(ns, n, kids, i, x);
      FatalElse(bs, saved, hs, x.BlockHash, Calls(ns, kids[i], 0, x));
      InSubtree(ns, n, kids, i, x);
    }
  }

  lemma CalledByNext(ns: set<BlockTreeNode>, n: BlockTreeNode, kids: seq<BlockTreeNode>, i: nat)
    requires i < |kids|
    ensures CalledBy(ns, n, kids, i + 1) == CalledBy(ns, n, kids, i) + Called(ns, kids[i], 0) + {n.BlockHash}
  {
    hide Subtree;
  }

  /** One child more: what is below it, and then the call for the parent. */
  lemma HarmlessNext(bs: map<nat, Block>, saved: set<nat>, ns: set<BlockTreeNode>, n: BlockTreeNode, kids: seq<BlockTreeNode>, i: nat)
    requires Apart(ns, n, kids) && i < |kids| && Harmless(bs, saved, ns, n, kids, i) && !Breaks(bs, saved, ns, kids[i], 0)
    ensures var now := Marked(bs, saved, CalledBy(ns, n, kids, i) + Called(ns, kids[i], 0));
      Fatal(now, saved, n.BlockHash, 1) <==> Fatal(bs, saved, n.BlockHash, i + 1)
    ensures !Fatal(bs, saved, n.BlockHash, i + 1) ==> Harmless(bs, saved, ns, n, kids, i + 1)
  {
    SameBelow(bs, saved, ns, n, kids, i);
    NotAbove(ns, n, kids, i);
    hide Apart, Fatal, Marked, Subtree;
    FatalNext(bs, saved, CalledBy(ns, n, kids, i) + Called(ns, kids[i], 0), n.BlockHash, i);
    if !Fatal(bs, saved, n.BlockHash, i + 1) {
      forall x | x in Below(ns, kids, i + 1)
        ensures !Fatal(bs, saved, x.BlockHash, |Kids(ns, x)|)
      {
        if x in Subtree(ns, kids[i]) {
          assert Calls(ns, kids[i], 0, x) == |Kids(ns, x)|;
        }
      }
    }
  }

  lemma NotAbove(ns: set<BlockTreeNode>, n: BlockTreeNode, kids: seq<BlockTreeNode>, i: nat)
    requires Apart(ns, n, kids) && i < |kids|
    ensures n.BlockHash in CalledBy(ns, n, kids, i) <==> i > 0
  {
    if i == 0 {
      assert Below(ns, kids, 0) == {};
    }
  }

  lemma AllHarmless(bs: map<nat, Block>, saved: set<nat>, ns: set<BlockTreeNode>, n: BlockTreeNode, kids: seq<BlockTreeNode>)
    requires Apart(ns, n, kids) && Harmless(bs, saved, ns, n, kids, |kids|) && n in Subtree(ns, n)
    ensures !Breaks(bs, saved, ns, n, 0) && CalledBy(ns, n, kids, |kids|) == Called(ns, n, 0)
  {
    hide Fatal, Subtree, Below;
    assert forall x :: x in Subtree(ns, n) ==> x == n || x in Below(ns, kids, |kids|);
  }

  lemma KidBreaks(bs: map<nat, Block>, saved: set<nat>, ns: set<BlockTreeNode>, n: BlockTreeNode, kids: seq<BlockTreeNode>, i: nat)
    requires Apart(ns, n, kids) && i < |kids| && n in Subtree(ns, n)
    requires Breaks(bs, saved, ns, kids[i], 0) || Fatal(bs, saved, n.BlockHash, i + 1)
    ensures Breaks(bs, saved, ns, n, 0)
  {
    hide Below;
    if Fatal(bs, saved, n.BlockHash, i + 1) {
      assert Fatal(bs, saved, n.BlockHash, Calls(ns, n, 0, n));
    } else {
      var x :| x in Subtree(ns, kids[i]) && Fatal(bs, saved, x.BlockHash, Calls(ns, kids[i], 0, x));
      assert x in Subtree(ns, n) && Calls(ns, n, 0, x) == Calls(ns, kids[i], 0, x);
    }
  }

  /** The call for the lowest block itself comes first. */
  lemma TopFirst(bs: map<nat, Block>, saved: set<nat>, ns: set<BlockTreeNode>, top: BlockTreeNode)
    requires OneEach(ns) && top in Subtree(ns, top) && !Fatal(bs, saved, top.BlockHash, 1)
    ensures var first := Marked(bs, saved, {top.BlockHash});
      && (Breaks(first, saved, ns, top, 0) <==> Breaks(bs, saved, ns, top, 1))
      && Marked(first, saved, Called(ns, top, 0)) == Marked(bs, saved, Called(ns, top, 1))
  {
    var first := Marked(bs, saved, {top.BlockHash});
    forall x | x in Subtree(ns, top)
      ensures Fatal(first, saved, x.BlockHash, Calls(ns, top, 0, x)) <==> Fatal(bs, saved, x.BlockHash, Calls(ns, top, 1, x))
    {
      if x != top {
        FatalElse(bs, saved, {top.BlockHash}, x.BlockHash, |Kids(ns, x)|);
      }
    }
    MarkedTwice(bs, saved, {top.BlockHash}, Called(ns, top, 0));
    assert {top.BlockHash} + Called(ns, top, 0) == Called(ns, top, 1) by {
      assert Calls(ns, top, 1, top) > 0;
    }
  }

  lemma TopBreaks(bs: map<nat, Block>, saved: set<nat>, ns: set<BlockTreeNode>, top: BlockTreeNode)
    requires top in Subtree(ns, top) && Fatal(bs, saved, top.BlockHash, 1)
    ensures Breaks(bs, saved, ns, top, 1)
  {
    assert Fatal(bs, saved, top.BlockHash, Calls(ns, top, 1, top));
  }

  /** Blocks outside the branch are as they were. */
  lemma MarkedOutside(bs: map<nat, Block>, saved: set<nat>, ns: set<BlockTreeNode>, top: BlockTreeNode, own: nat, x: BlockTreeNode)
    requires OneEach(ns) && x in ns - Subtree(ns, top)
    ensures var now := Marked(bs, saved, Called(ns, top, own));
      (x.BlockHash in now <==> x.BlockHash in bs) && (x.BlockHash in bs ==> now[x.BlockHash] == bs[x.BlockHash])
  {
    assert x.BlockHash !in Called(ns, top, own);
  }
}
