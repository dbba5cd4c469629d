/** The tree of block nodes. Parents and heights never change; the lists of children do. */
module ChainTree {
  import opened Seqs

  class BlockTreeNode {
    const BlockHash: nat
    const Height: nat
    const Parent: BlockTreeNode?
    var Childs: seq<BlockTreeNode>
    var BlockSize: nat
    var TxCount: nat

    constructor (hash: nat, height: nat, parent: BlockTreeNode?)
      ensures BlockHash == hash && Height == height && Parent == parent
      ensures Childs == [] && BlockSize == 0 && TxCount == 0
    {
      BlockHash, Height, Parent := hash, height, parent;
      Childs, BlockSize, TxCount := [], 0, 0;
    }

    method AddChild(c: BlockTreeNode)
      modifies `Childs
      ensures Childs == old(Childs) + [c]
    {
      Childs := Childs + [c];
    }

    /** delChild: its panic, unless exactly one child has gone, is out of reach. */
    method DelChild(c: BlockTreeNode)
      requires c in Childs && Distinct(Childs)
      modifies `Childs
      ensures Distinct(Childs) && forall x :: x in Childs <==> x in old(Childs) && x != c
    {
      var newChds: seq<BlockTreeNode> := [];
      for i := 0 to |Childs|
        invariant Distinct(newChds) && (forall x :: x in newChds <==> x in Childs[..i] && x != c)
        invariant |newChds| == if c in Childs[..i] then i - 1 else i
      {
        assert Childs[..i + 1] == Childs[..i] + [Childs[i]];
        assert Childs[i] !in Childs[..i];
        if Childs[i] != c {
          newChds := newChds + [Childs[i]];
        }
      }
      assert Childs[..|Childs|] == Childs;
      if |newChds| != |Childs| - 1 {
        assert false;
      }
      Childs := newChds;
    }
  }

  /** a lies on n's path to the root. */
  ghost predicate Ancestor(a: BlockTreeNode, n: BlockTreeNode)
    decreases n.Height
  {
    n == a || (n.Parent != null && n.Height == n.Parent.Height + 1 && Ancestor(a, n.Parent))
  }

  /** nodes is a tree below root. Parents and heights are constants, so this never changes. */
  ghost predicate ParentTree(root: BlockTreeNode, nodes: set<BlockTreeNode>) {
    && root in nodes && root.Parent == null
    && forall n :: n in nodes && n != root ==> n.Parent != null && n.Parent in nodes && n.Height == n.Parent.Height + 1
  }

  /** n's list of children is right. */
  ghost predicate ChildsRight(nodes: set<BlockTreeNode>, n: BlockTreeNode)
    reads n
  {
    && Distinct(n.Childs)
    && (forall c :: c in n.Childs ==> c in nodes && c.Parent == n)
    && (forall c :: c in nodes && c.Parent == n ==> c in n.Childs)
  }

  ghost predicate IsTree(root: BlockTreeNode, nodes: set<BlockTreeNode>)
    reads nodes
  {
    ParentTree(root, nodes) && forall n :: n in nodes ==> ChildsRight(nodes, n)
  }

  lemma {:induction false} RootIsAncestor(root: BlockTreeNode, nodes: set<BlockTreeNode>, n: BlockTreeNode)
    requires ParentTree(root, nodes) && n in nodes
    ensures Ancestor(root, n)
    decreases n.Height
  {
    if n != root {
      RootIsAncestor(root, nodes, n.Parent);
    }
  }

  lemma {:induction false} AncestorHeight(a: BlockTreeNode, n: BlockTreeNode)
    requires Ancestor(a, n)
    ensures a.Height <= n.Height && (a.Height == n.Height ==> a == n)
    decreases n.Height
  {
    if n != a {
      AncestorHeight(a, n.Parent);
    }
  }

  lemma {:induction false} AncestorTrans(a: BlockTreeNode, b: BlockTreeNode, n: BlockTreeNode)
    requires Ancestor(a, b) && Ancestor(b, n)
    ensures Ancestor(a, n)
    decreases n.Height
  {
    if n != b {
      AncestorTrans(a, b, n.Parent);
    }
  }

  lemma AboveParent(a: BlockTreeNode, n: BlockTreeNode)
    requires n.Parent != null && n.Height == n.Parent.Height + 1 && Ancestor(a, n.Parent)
    ensures Ancestor(a, n) && n != a
  {
    AncestorHeight(a, n.Parent);
  }

  /** Two ancestors of a node lie on one line. */
  lemma {:induction false} AncestorsLinear(a: BlockTreeNode, b: BlockTreeNode, n: BlockTreeNode)
    requires Ancestor(a, n) && Ancestor(b, n) && a.Height <= b.Height
    ensures Ancestor(a, b)
    decreases n.Height
  {
    if b != n {
      if a == n {
        AncestorHeight(b, n);
      } else {
        AncestorsLinear(a, b, n.Parent);
      }
    }
  }

  /** Siblings have nothing below them in common. */
  lemma SiblingsApart(nodes: set<BlockTreeNode>, c: BlockTreeNode, d: BlockTreeNode)
    requires c.Height == d.Height && c != d
    ensures Subtree(nodes, c) !! Subtree(nodes, d)
  {
    forall n | n in Subtree(nodes, c) && n in Subtree(nodes, d)
      ensures false
    {
      AncestorsLinear(c, d, n);
      AncestorHeight(c, d);
    }
  }

  /** Without cur and all below it the tree is still one. */
  lemma CutParents(root: BlockTreeNode, nodes: set<BlockTreeNode>, cur: BlockTreeNode, last: BlockTreeNode)
    requires ParentTree(root, nodes) && cur in nodes && last in nodes && !Ancestor(cur, last)
    ensures ParentTree(root, nodes - Subtree(nodes, cur)) && last in nodes - Subtree(nodes, cur)
    ensures cur !in nodes - Subtree(nodes, cur)
    ensures forall c :: c in Subtree(nodes, cur) && c != cur ==> c.Parent in Subtree(nodes, cur)
    ensures cur.Parent != null && cur.Parent in nodes - Subtree(nodes, cur)
  {
    RootIsAncestor(root, nodes, last);
    assert !Ancestor(cur, root);
    assert !Ancestor(cur, cur.Parent) by {
      if Ancestor(cur, cur.Parent) {
        AncestorHeight(cur, cur.Parent);
      }
    }
  }

  lemma {:induction false} AncestorInTree(root: BlockTreeNode, nodes: set<BlockTreeNode>, a: BlockTreeNode, n: BlockTreeNode)
    requires ParentTree(root, nodes) && n in nodes && Ancestor(a, n)
    ensures a in nodes
    decreases n.Height
  {
    if n != a {
      AncestorInTree(root, nodes, a, n.Parent);
    }
  }

  ghost function Subtree(nodes: set<BlockTreeNode>, a: BlockTreeNode): set<BlockTreeNode> {
    set n | n in nodes && Ancestor(a, n)
  }

  lemma SelfAncestor(n: BlockTreeNode)
    ensures Ancestor(n, n)
  {
  }

  lemma Next(root: BlockTreeNode, nodes: set<BlockTreeNode>, n: BlockTreeNode)
    requires ParentTree(root, nodes) && n in nodes && n.Parent != null
    ensures n.Height == n.Parent.Height + 1 && n in Subtree(nodes, n)
  {
  }

  lemma SelfInSubtree(nodes: set<BlockTreeNode>, n: BlockTreeNode)
    requires n in nodes
    ensures n in Subtree(nodes, n) && Subtree(nodes, n) <= nodes
  {
  }

  /** The subtrees of the first i children. */
  ghost function Below(nodes: set<BlockTreeNode>, kids: seq<BlockTreeNode>, i: nat): set<BlockTreeNode>
    requires i <= |kids|
  {
    if i == 0 then {} else Below(nodes, kids, i - 1) + Subtree(nodes, kids[i - 1])
  }

  lemma {:induction false} BelowIs(nodes: set<BlockTreeNode>, kids: seq<BlockTreeNode>, i: nat, n: BlockTreeNode)
    requires i <= |kids|
    ensures n in Below(nodes, kids, i) <==> exists k :: 0 <= k < i && n in Subtree(nodes, kids[k])
  {
    hide Subtree;
    if i > 0 {
      BelowIs(nodes, kids, i - 1, n);
    }
  }

  lemma ChildSubtree(root: BlockTreeNode, nodes: set<BlockTreeNode>, a: BlockTreeNode, c: BlockTreeNode)
    requires ParentTree(root, nodes) && a in nodes && c in nodes && c.Parent == a
    ensures c.Height == a.Height + 1
    ensures Subtree(nodes, c) < Subtree(nodes, a)
  {
    assert Ancestor(a, c);
    forall n | n in Subtree(nodes, c)
      ensures n in Subtree(nodes, a)
    {
      AncestorTrans(a, c, n);
    }
    assert !Ancestor(c, a) by {
      if Ancestor(c, a) {
        AncestorHeight(c, a);
      }
    }
    assert a in Subtree(nodes, a) && a !in Subtree(nodes, c);
  }

  /** A node's proper descendants are below one of its children. */
  lemma {:induction false} ThroughChild(root: BlockTreeNode, nodes: set<BlockTreeNode>, a: BlockTreeNode, n: BlockTreeNode) returns (c: BlockTreeNode)
    requires ParentTree(root, nodes) && a in nodes && n in nodes && Ancestor(a, n) && n != a
    ensures c in nodes && Ancestor(c, n) && c.Parent == a
    decreases n.Height
  {
    if n.Parent == a {
      c := n;
    } else {
      c := ThroughChild(root, nodes, a, n.Parent);
    }
  }

  /** The subtree of n is n and the subtrees of its children. */
  lemma SubtreeOfChildren(root: BlockTreeNode, nodes: set<BlockTreeNode>, n: BlockTreeNode)
    requires IsTree(root, nodes) && n in nodes
    ensures n in Subtree(nodes, n)
    ensures forall x :: x in Subtree(nodes, n) && x != n ==> exists k :: 0 <= k < |n.Childs| && x in Subtree(nodes, n.Childs[k])
  {
    forall x | x in Subtree(nodes, n) && x != n
      ensures exists k :: 0 <= k < |n.Childs| && x in Subtree(nodes, n.Childs[k])
    {
      var c := ThroughChild(root, nodes, n, x);
      var k :| 0 <= k < |n.Childs| && n.Childs[k] == c;
      assert x in Subtree(nodes, n.Childs[k]);
    }
  }

  lemma ChildIsNode(root: BlockTreeNode, nodes: set<BlockTreeNode>, n: BlockTreeNode)
    requires IsTree(root, nodes) && n in nodes
    ensures forall k :: 0 <= k < |n.Childs| ==> n.Childs[k] in nodes && n.Childs[k].Parent == n
  {
    assert ChildsRight(nodes, n);
  }

  lemma ChildListed(nodes: set<BlockTreeNode>, c: BlockTreeNode)
    requires c in nodes && c.Parent != null && ChildsRight(nodes, c.Parent)
    ensures c in c.Parent.Childs && Distinct(c.Parent.Childs)
  {
  }

  lemma KidsOf(root: BlockTreeNode, nodes: set<BlockTreeNode>, n: BlockTreeNode, kids: seq<BlockTreeNode>)
    requires ParentTree(root, nodes) && n in nodes && ChildsRight(nodes, n) && kids == n.Childs
    ensures forall i :: 0 <= i < |kids| ==>
      kids[i] in nodes && n !in Subtree(nodes, kids[i]) && Subtree(nodes, kids[i]) < Subtree(nodes, n)
    ensures forall i, j :: 0 <= i < j < |kids| ==> Subtree(nodes, kids[i]) !! Subtree(nodes, kids[j])
    ensures Below(nodes, kids, |kids|) == Subtree(nodes, n) - {n}
  {
    forall i | 0 <= i < |kids|
      ensures kids[i].Height == n.Height + 1
      ensures n !in Subtree(nodes, kids[i]) && Subtree(nodes, kids[i]) < Subtree(nodes, n)
    {
      ChildSubtree(root, nodes, n, kids[i]);
      if Ancestor(kids[i], n) {
        AncestorHeight(kids[i], n);
      }
    }
    forall i, j | 0 <= i < j < |kids|
      ensures Subtree(nodes, kids[i]) !! Subtree(nodes, kids[j])
    {
      SiblingsApart(nodes, kids[i], kids[j]);
    }
    assert Below(nodes, kids, |kids|) == Subtree(nodes, n) - {n} by {
      hide Below;
      forall x | x in Below(nodes, kids, |kids|)
        ensures x in Subtree(nodes, n) - {n}
      {
        BelowKids(root, nodes, n, kids, x);
      }
      forall x | x in Subtree(nodes, n) - {n}
        ensures x in Below(nodes, kids, |kids|)
      {
        BelowKids(root, nodes, n, kids, x);
      }
    }
  }

  lemma BelowKids(root: BlockTreeNode, nodes: set<BlockTreeNode>, n: BlockTreeNode, kids: seq<BlockTreeNode>, x: BlockTreeNode)
    requires ParentTree(root, nodes) && n in nodes && ChildsRight(nodes, n) && kids == n.Childs
    requires forall i :: 0 <= i < |kids| ==> n !in Subtree(nodes, kids[i]) && Subtree(nodes, kids[i]) < Subtree(nodes, n)
    ensures x in Below(nodes, kids, |kids|) <==> x in Subtree(nodes, n) - {n}
  {
    BelowIs(nodes, kids, |kids|, x);
    if x in Subtree(nodes, n) && x != n {
      var c := ThroughChild(root, nodes, n, x);
      var k :| 0 <= k < |kids| && kids[k] == c;
      assert x in Subtree(nodes, kids[k]);
    }
  }

  lemma FirstKid(root: BlockTreeNode, nodes: set<BlockTreeNode>, n: BlockTreeNode, kids: seq<BlockTreeNode>)
    requires ParentTree(root, nodes) && n in nodes && ChildsRight(nodes, n) && kids == n.Childs
    ensures if kids == [] then Subtree(nodes, n) == {n} else kids[0] in Subtree(nodes, n) - {n}
  {
    SelfInSubtree(nodes, n);
    KidsOf(root, nodes, n, kids);
    if kids != [] {
      SelfInSubtree(nodes, kids[0]);
    }
  }

  /** FindFarthestNode: a highest node of the subtree, and how far above n it is. */
  method FindFarthestNode(root: BlockTreeNode, ghost nodes: set<BlockTreeNode>, n: BlockTreeNode) returns (res: BlockTreeNode, depth: nat)
    requires IsTree(root, nodes) && n in nodes
    ensures res in Subtree(nodes, n) && res.Height == n.Height + depth
    ensures forall x :: x in Subtree(nodes, n) ==> x.Height <= res.Height
    decreases Subtree(nodes, n)
  {
    hide ParentTree, ChildsRight, Subtree;
    SubtreeOfChildren(root, nodes, n);
    if |n.Childs| == 0 {
      return n, 0;
    }
    ChildIsNode(root, nodes, n);
    ChildSubtree(root, nodes, n, n.Childs[0]);
    res, depth := FindFarthestNode(root, nodes, n.Childs[0]);
    for i := 1 to |n.Childs|
      invariant res in Subtree(nodes, n) && res.Height == n.Height + 1 + depth
      invariant forall k, x :: 0 <= k < i && x in Subtree(nodes, n.Childs[k]) ==> x.Height <= res.Height
    {
      ChildSubtree(root, nodes, n, n.Childs[i]);
      var re, dept := FindFarthestNode(root, nodes, n.Childs[i]);
      if dept > depth {
        res := re;
        depth := dept;
      }
    }
    depth := depth + 1;
  }

  /** FindPathTo: the child of n on the way to end. Both panics are unreachable when end is below n. */
  method FindPathTo(root: BlockTreeNode, ghost nodes: set<BlockTreeNode>, n: BlockTreeNode, end: BlockTreeNode) returns (next: BlockTreeNode?)
    requires IsTree(root, nodes) && n in nodes && end in nodes && Ancestor(n, end)
    ensures next == null <==> n == end
    ensures next != null ==> next in nodes && next.Parent == n && Ancestor(next, end) && next in n.Childs
  {
    if n == end {
      return null;
    }
    AncestorHeight(n, end);
    if end.Height <= n.Height {
      assert false;
    }
    ghost var c := ThroughChild(root, nodes, n, end);
    if |n.Childs| == 0 {
      assert false;
    }
    if |n.Childs| == 1 {
      return n.Childs[0];
    }
    next := end;
    while next.Parent != n
      invariant next != null && next in nodes && Ancestor(n, next) && next != n && Ancestor(next, end)
      decreases next.Height
    {
      AncestorTrans(next.Parent, next, end);
      next := next.Parent;
    }
  }
}
