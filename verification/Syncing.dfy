/**
 * Another chain that comes to the panic at a missing undo file, with every block on top of one that is there: while headers
 * are known far above the head, no undo files are written, and then a rival branch gets ahead.
 */
module Syncing {
  import opened Utxo
  import opened CommitTxs
  import opened UnspentDb
  import opened ChainTree
  import opened ChainCoins
  import opened Fork
  import opened UndoFiles
  import opened BlockDb
  import opened Branches
  import opened Retries
  import opened LateRefusal
  import C = Chain

  /** The main branch's headers, and the data of its first few blocks; the head is the highest of these. */
  ghost predicate Known(c: C.Chain, main: seq<BlockTreeNode>, head: nat)
    reads c, c.nodes, c.Unspent, c.Blocks, main
  {
    && Ours(c) && Line(main) && c.root == main[0] && c.nodes == (set n | n in main) && head < |main| && c.last == main[head]
    && c.Unspent.undoFiles.Keys == {} && (forall h :: h in c.BlockIndex ==> h < |main|)
    && forall i :: 1 <= i <= head ==> main[i].BlockSize > 0 && main[i].TxCount > 0
  }

  method FirstHeader() returns (c: C.Chain, main: seq<BlockTreeNode>)
    ensures Known(c, main, 0) && |main| == 2 && fresh(c) && fresh(c.nodes) && fresh(c.Unspent) && fresh(c.Blocks)
  {
    hide Ours;
    c := Genesis();
    var n := Header(c, 1, c.root);
    main := [c.root, n];
  }

  method NextHeader(c: C.Chain, main: seq<BlockTreeNode>) returns (more: seq<BlockTreeNode>)
    requires Known(c, main, 0)
    modifies c`BlockIndex, c`nodes, c.nodes`Childs
    ensures Known(c, more, 0) && |more| == |main| + 1 && fresh(c.nodes - old(c.nodes))
  {
    hide Ours;
    assert main[|main| - 1] in c.nodes;
    var n := Header(c, |main|, main[|main| - 1]);
    more := main + [n];
  }

  /** The next block arrives, more than the window below the highest header: it gets no undo file. */
  method NextBlock(c: C.Chain, main: seq<BlockTreeNode>, head: nat)
    requires Known(c, main, head) && head < 2 && |main| == TOP + 1
    modifies c, c.nodes, c.Unspent, c.Blocks
    ensures Known(c, main, head + 1) && c.nodes == old(c.nodes)
  {
    hide Ours, WithBlock;
    assert main[head + 1] in c.nodes && main[head + 1].Parent == main[head];
    assert forall i :: 1 <= i <= head ==> main[i] in c.nodes && main[i] != main[head + 1];
    assert FilesNext({}, head + 1, TOP) == {};
    Connected(c, main[head + 1], TOP);
  }

  /** What the move to the rival branch finds. */
  ghost predicate Overtaken(c: C.Chain, r: C.Round, main: seq<BlockTreeNode>, s2: BlockTreeNode, s3: BlockTreeNode) {
    && Line(main) && Branch(main, s2, s3) && |main| > 2 && c.root == main[0] && r.ns == (set n | n in main) + {s2, s3}
    && r.dst == s3 && r.from == main[2] && r.files == {}
  }

  lemma NoWayBack(c: C.Chain, r: C.Round, main: seq<BlockTreeNode>, s2: BlockTreeNode, s3: BlockTreeNode)
    requires Overtaken(c, r, main, s2, s3) && main[1].TxCount > 0 && s2.TxCount > 0
    ensures c.Lacks(r)
  {
    hide Ancestor, HighestCommon;
    assert main[1] in r.ns;
    Parting(r.ns, main, s2, s3, 2);
    forall x | x in r.ns && Ancestor(main[1], x) && Ancestor(x, s3) && x != s3
      ensures x.TxCount > 0
    {
      OnSide(main, s2, s3, x);
      AncestorHeight(main[1], x);
    }
    assert 2 !in r.files && !HasUndo(r.files, 1, 2);
  }

  /** Two rival blocks arrive, one on top of the other, and with the second that branch has more work than the head. */
  method Overtake(c: C.Chain, main: seq<BlockTreeNode>) returns (o: C.Outcome, ghost rounds: seq<C.Round>)
    requires Known(c, main, 2) && |main| == TOP + 1
    modifies c, c.nodes, c.Unspent, c.Blocks
    ensures o.Panicked? && |rounds| == 1 && c.Lacks(rounds[0])
  {
    hide Ours, Ancestor, HighestCommon, Between, BlockDB.SavedWith, BlockDB.QueueWith, WithBlock, C.Chain.Trace, C.Chain.Lacks, C.Chain.Jams,
      C.Chain.GoodWay, C.Chain.OnlyBadLeft, Blocked, HasUndo, BlockOk, Subtree, FilesNext, CoinsAt;
    OnLine(main);
    assert main[1] in c.nodes;
    var s2 := Header(c, SIDE + 2, main[1]);
    Body(c, s2, main[1], main[1]);
    var s3 := Header(c, SIDE + 3, s2);
    ghost var r;
    o, r, rounds := LastOne(c, s3);
    OnBranch(main, s2, s3);
    NoWayBack(c, r, main, s2, s3);
  }

  method LastOne(c: C.Chain, n: BlockTreeNode) returns (o: C.Outcome, ghost r: C.Round, ghost rounds: seq<C.Round>)
    requires Ours(c) && n in c.nodes && n.Parent != null && n.Parent != c.last && n.Height > c.last.Height
    modifies c, c.nodes, c.Unspent, c.Blocks
    ensures r.ns == old(c.nodes) && r.dst == n && r.from == old(c.last) && r.files == old(c.Unspent.undoFiles.Keys)
    ensures forall x :: x in old(c.nodes) && x != n ==> x.TxCount == old(x.TxCount)
    ensures rounds != [] && rounds[0] == r && (c.Lacks(r) ==> o.Panicked? && |rounds| == 1)
  {
    hide C.Chain.Valid, Ancestor, HighestCommon, BlockDB.SavedWith, BlockDB.QueueWith, WithBlock, C.Chain.Trace, C.Chain.Lacks, C.Chain.Jams,
      C.Chain.GoodWay, C.Chain.OnlyBadLeft, Blocked, HasUndo, BlockOk, Subtree, FilesNext, CoinsAt;
    HeadIn(c);
    var e;
    e, o, rounds := c.CommitBlock(Block(n.BlockHash, Alone(n.BlockHash), false), n, 1, TOP, n.Height > c.last.Height, 0);
    r := rounds[0];
  }

  /** From an empty directory: headers, two blocks of the main branch, and the two rivals. */
  method Panics() returns (c: C.Chain, o: C.Outcome, ghost rounds: seq<C.Round>)
    ensures o.Panicked? && |rounds| == 1 && c.Lacks(rounds[0])
  {
    hide Known, C.Chain.Lacks;
    var main;
    c, main := FirstHeader();
    while |main| <= TOP
      invariant 2 <= |main| <= TOP + 1 && Known(c, main, 0) && fresh(c) && fresh(c.nodes) && fresh(c.Unspent) && fresh(c.Blocks)
      decreases TOP + 1 - |main|
    {
      main := NextHeader(c, main);
    }
    NextBlock(c, main, 0);
    NextBlock(c, main, 1);
    o, rounds := Overtake(c, main);
  }
}
