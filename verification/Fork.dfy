/** Where two branches part, and whether the way up the new one is open. */
module Fork {
  import opened ChainTree

  /** fork is the highest node below both a and b. */
  ghost predicate HighestCommon(nodes: set<BlockTreeNode>, fork: BlockTreeNode, a: BlockTreeNode, b: BlockTreeNode) {
    && fork in nodes && Ancestor(fork, a) && Ancestor(fork, b)
    && forall x :: x in nodes && Ancestor(x, a) && Ancestor(x, b) ==> Ancestor(x, fork)
  }

  lemma {:induction false} HighestCommonExists(root: BlockTreeNode, nodes: set<BlockTreeNode>, a: BlockTreeNode, b: BlockTreeNode) returns (fork: BlockTreeNode)
    requires ParentTree(root, nodes) && a in nodes && b in nodes
    ensures HighestCommon(nodes, fork, a, b)
    decreases a.Height
  {
    if Ancestor(a, b) {
      fork := a;
    } else {
      RootIsAncestor(root, nodes, b);
      fork := HighestCommonExists(root, nodes, a.Parent, b);
    }
  }

  lemma CommonBelow(nodes: set<BlockTreeNode>, fork: BlockTreeNode, a: BlockTreeNode, b: BlockTreeNode)
    requires HighestCommon(nodes, fork, a, b)
    ensures fork in nodes && Ancestor(fork, a) && Ancestor(fork, b)
  {
  }

  lemma HighestCommonUnique(nodes: set<BlockTreeNode>, fork: BlockTreeNode, a: BlockTreeNode, b: BlockTreeNode)
    requires HighestCommon(nodes, fork, a, b)
    ensures forall x :: x in nodes && HighestCommon(nodes, x, a, b) ==> x == fork
  {
    forall x | x in nodes && HighestCommon(nodes, x, a, b)
      ensures x == fork
    {
      AncestorHeight(x, fork);
      AncestorHeight(fork, x);
    }
  }

  /** Every node from cur up to dst, dst apart, has block data. */
  ghost predicate Open(nodes: set<BlockTreeNode>, cur: BlockTreeNode, dst: BlockTreeNode)
    reads nodes`TxCount
  {
    forall x :: x in nodes && Ancestor(cur, x) && Ancestor(x, dst) && x != dst ==> x.TxCount > 0
  }

  lemma OpenStep(nodes: set<BlockTreeNode>, cur: BlockTreeNode, dst: BlockTreeNode)
    requires Open(nodes, cur, dst) && Ancestor(cur, dst) && cur.Parent != null && cur.Height == cur.Parent.Height + 1 && cur.Parent.TxCount > 0
    ensures Open(nodes, cur.Parent, dst)
  {
    forall x | x in nodes && Ancestor(cur.Parent, x) && Ancestor(x, dst) && x != dst
      ensures x.TxCount > 0
    {
      if x.Height >= cur.Height {
        AncestorsLinear(cur, x, dst);
      } else {
        AncestorsLinear(x, cur, dst);
        AncestorHeight(cur.Parent, x);
      }
    }
  }

  /** What stands in the way: a node without data, or the genesis block, whose data is never stored, when it is not the last one. */
  ghost predicate Blocked(root: BlockTreeNode, nodes: set<BlockTreeNode>, fork: BlockTreeNode, dst: BlockTreeNode, last: BlockTreeNode)
    reads nodes`TxCount
  {
    !Open(nodes, fork, dst) || (dst == root && last != root)
  }

  lemma OneDown(root: BlockTreeNode, nodes: set<BlockTreeNode>, fork: BlockTreeNode, cur: BlockTreeNode, top: BlockTreeNode)
    requires ParentTree(root, nodes) && top in nodes && Ancestor(cur, top) && Ancestor(fork, cur) && fork != cur
    ensures cur in nodes && cur.Parent != null && cur.Parent in nodes && cur.Height == cur.Parent.Height + 1
    ensures Ancestor(fork, cur.Parent) && Ancestor(cur.Parent, top) && fork.Height < cur.Height
  {
    AncestorInTree(root, nodes, cur, top);
    AncestorHeight(fork, cur);
    assert Ancestor(cur.Parent, cur);
    AncestorTrans(cur.Parent, cur, top);
  }

  /** The first half of MoveToBlock, up to the point where cur is the highest common block. */
  method FindFork(root: BlockTreeNode, ghost nodes: set<BlockTreeNode>, dst: BlockTreeNode, last: BlockTreeNode)
    returns (fork: BlockTreeNode?, ghost hca: BlockTreeNode)
    requires ParentTree(root, nodes) && root.Height == 0 && dst in nodes && last in nodes
    requires root.TxCount == 0 && forall n :: n in nodes && n != root && Ancestor(n, last) ==> n.TxCount > 0
    ensures HighestCommon(nodes, hca, dst, last)
    ensures fork == null <==> Blocked(root, nodes, hca, dst, last)
    ensures fork != null ==> HighestCommon(nodes, fork, dst, last)
    ensures fork != null ==> fork == hca
  {
    hide Ancestor, ParentTree, Open;
    hca := HighestCommonExists(root, nodes, dst, last);
    var cur, lastblock := dst, last;
    AncestorHeight(hca, dst);
    AncestorHeight(hca, last);
    OpenAtTop(nodes, dst, last);
    while cur.Height > lastblock.Height
      invariant cur in nodes && Ancestor(hca, cur) && Ancestor(cur, dst) && Open(nodes, cur, dst)
      invariant cur == dst || cur.Height >= lastblock.Height
      decreases cur.Height
    {
      OneDown(root, nodes, hca, cur, dst);
      if cur.Parent.TxCount == 0 {
        Gap(nodes, hca, cur.Parent, dst);
        return null, hca;
      }
      OpenStep(nodes, cur, dst);
      cur := cur.Parent;
    }
    AncestorHeight(hca, cur);
    while lastblock.Height > cur.Height
      invariant lastblock in nodes && Ancestor(hca, lastblock) && Ancestor(lastblock, last) && lastblock.Height >= cur.Height
      invariant lastblock == last || lastblock.TxCount > 0
      decreases lastblock.Height
    {
      OneDown(root, nodes, hca, lastblock, last);
      lastblock := lastblock.Parent;
      if lastblock.TxCount == 0 {
        OnlyRoot(root, nodes, cur);
        return null, hca;
      }
    }
    var tmp := lastblock;
    while tmp != cur
      invariant cur in nodes && Ancestor(hca, cur) && Ancestor(cur, dst) && Open(nodes, cur, dst)
      invariant tmp in nodes && Ancestor(hca, tmp) && Ancestor(tmp, last) && tmp.Height == cur.Height
      decreases cur.Height
    {
      AncestorHeight(hca, tmp);
      AncestorHeight(hca, cur);
      OneDown(root, nodes, hca, cur, dst);
      OneDown(root, nodes, hca, tmp, last);
      if cur.Parent.TxCount == 0 {
        Gap(nodes, hca, cur.Parent, dst);
        return null, hca;
      }
      OpenStep(nodes, cur, dst);
      cur := cur.Parent;
      tmp := tmp.Parent;
    }
    AncestorHeight(hca, cur);
    AncestorHeight(cur, hca);
    if dst == root {
      OnlyRoot(root, nodes, lastblock);
      AncestorHeight(cur, root);
    }
    fork := cur;
  }

  lemma OpenAtTop(nodes: set<BlockTreeNode>, dst: BlockTreeNode, last: BlockTreeNode)
    ensures Ancestor(dst, dst) && Ancestor(last, last) && Open(nodes, dst, dst)
  {
    forall x | x in nodes && Ancestor(dst, x) && Ancestor(x, dst)
      ensures x == dst
    {
      AncestorHeight(dst, x);
      AncestorHeight(x, dst);
    }
  }

  lemma Gap(nodes: set<BlockTreeNode>, hca: BlockTreeNode, x: BlockTreeNode, dst: BlockTreeNode)
    requires x in nodes && Ancestor(hca, x) && Ancestor(x, dst) && x.Height < dst.Height && x.TxCount == 0
    ensures !Open(nodes, hca, dst)
  {
  }

  lemma OnlyRoot(root: BlockTreeNode, nodes: set<BlockTreeNode>, n: BlockTreeNode)
    requires ParentTree(root, nodes) && root.Height == 0 && n in nodes && n.Height == 0
    ensures n == root
  {
  }
}
