/**
 * A chain that comes to the panic in BlockInvalid: the block at height 2 of a longer branch is refused after it has been written
 * to the file, and it has a child.
 */
module StuckBranch {
  import opened Utxo
  import opened CommitTxs
  import opened UnspentDb
  import opened ChainTree
  import opened ChainCoins
  import opened Fork
  import opened UndoFiles
  import opened BlockDb
  import opened Branches
  import opened Retries
  import opened LateRefusal
  import C = Chain

  /** One block, another one on it, and the branch of the refused block beside that. */
  ghost predicate Shape(r: C.Round, root: BlockTreeNode, m1: BlockTreeNode, a2: BlockTreeNode, b2: BlockTreeNode, b3: BlockTreeNode) {
    && r.ns == {root, m1, a2, b2, b3} && root.Parent == null && root.Height == 0
    && m1.Parent == root && m1.Height == 1 && a2.Parent == m1 && a2.Height == 2 && a2 != b2
    && b2.Parent == m1 && b2.Height == 2 && b2.BlockHash == 3 && b3.Parent == b2 && b3.Height == 3
    && r.dst == b3 && r.from == a2 && r.files == {1, 2}
    && 3 in r.bs && r.bs[3] == Block(3, Alone(3), false) && 3 in r.saved
  }

  lemma Ways(r: C.Round, root: BlockTreeNode, m1: BlockTreeNode, a2: BlockTreeNode, b2: BlockTreeNode, b3: BlockTreeNode)
    requires Shape(r, root, m1, a2, b2, b3)
    ensures forall x :: Ancestor(x, m1) <==> x == m1 || x == root
    ensures forall x :: Ancestor(x, a2) <==> x == a2 || x == m1 || x == root
    ensures forall x :: Ancestor(x, b2) <==> x == b2 || x == m1 || x == root
    ensures forall x :: Ancestor(x, b3) <==> x == b3 || x == b2 || x == m1 || x == root
  {
    forall x
      ensures Ancestor(x, m1) <==> x == m1 || x == root
    {
      assert Ancestor(x, root) <==> x == root;
    }
    assert forall x :: Ancestor(x, b2) <==> x == b2 || Ancestor(x, m1);
  }

  lemma IsStuck(c: C.Chain, r: C.Round, m1: BlockTreeNode, a2: BlockTreeNode, b2: BlockTreeNode, b3: BlockTreeNode)
    requires Shape(r, c.root, m1, a2, b2, b3) && c.content == Alone && c.env == ENV
    requires m1.TxCount > 0 && a2.TxCount > 0 && b2.TxCount > 0 && b2.BlockSize > 0
    ensures HighestCommon(r.ns, m1, b3, a2) && !Blocked(c.root, r.ns, m1, b3, a2) && HasUndo(r.files, 1, 2)
    ensures c.FirstStop(r.bs, r.ns, m1, b3, b2) && c.Sticks(r.bs, r.saved, r.ns, b2)
  {
    hide Ancestor, C.Chain.Sticks, BlockOk, CoinsAt;
    Ways(r, c.root, m1, a2, b2, b3);
    if Ancestor(m1, c.root) {
      AncestorHeight(m1, c.root);
    }
    c.ClearStart(r.bs, r.ns, m1);
    AloneIsOk(m1, 3, false);
    StickingBlocks(c, r.bs, r.saved, r.ns, b2);
    assert b3 in r.ns && b3.Parent == b2;
  }

  /** The head on the one branch; the other has its first block in the file, and the header of the next. */
  ghost predicate Set(c: C.Chain, m1: BlockTreeNode, a2: BlockTreeNode, b2: BlockTreeNode, b3: BlockTreeNode)
    reads c, c.nodes, c.Unspent, c.Blocks, m1, a2, b2, b3
  {
    && Ours(c) && c.nodes == {c.root, m1, a2, b2, b3} && c.last == a2 && c.Unspent.undoFiles.Keys == {1, 2}
    && c.root.Parent == null && c.root.Height == 0
    && m1.Parent == c.root && m1.Height == 1 && a2.Parent == m1 && a2.Height == 2 && a2 != b2
    && b2.Parent == m1 && b2.Height == 2 && b2.BlockHash == 3 && b3.Parent == b2 && b3.Height == 3 && b3.BlockHash == 4
    && m1.BlockSize > 0 && m1.TxCount > 0 && a2.BlockSize > 0 && a2.TxCount > 0 && b2.BlockSize > 0 && b2.TxCount > 0
    && 3 in c.Blocks.blockIndex && c.Blocks.blockIndex[3] == Block(3, Alone(3), false) && c.Blocks.saved == c.Blocks.blockIndex.Keys
  }

  method Rival() returns (c: C.Chain, m1: BlockTreeNode, a2: BlockTreeNode, b2: BlockTreeNode)
    ensures Ours(c) && c.nodes == {c.root, m1, a2, b2} && c.last == a2 && c.Unspent.undoFiles.Keys == {1, 2}
    ensures c.root.Parent == null && c.root.Height == 0
    ensures m1.Parent == c.root && m1.Height == 1 && a2.Parent == m1 && a2.Height == 2 && a2 != b2 && a2 != m1
    ensures b2.Parent == m1 && b2.Height == 2 && b2.BlockHash == 3 && b2 != m1
    ensures m1.BlockSize > 0 && m1.TxCount > 0 && a2.BlockSize > 0 && a2.TxCount > 0
    ensures 3 !in c.Blocks.blockIndex && 4 !in c.BlockIndex
    ensures fresh(c) && fresh(c.nodes) && fresh(c.Unspent) && fresh(c.Blocks)
  {
    hide Ours, FilesNext, Line;
    var main;
    c, main := FirstBlock();
    FirstIs(main);
    m1 := main[1];
    EarlyFiles();
    a2 := Mined(c, 2);
    b2 := Header(c, 3, m1);
  }

  method TwoBranches() returns (c: C.Chain, m1: BlockTreeNode, a2: BlockTreeNode, b2: BlockTreeNode, b3: BlockTreeNode)
    ensures Set(c, m1, a2, b2, b3) && fresh(c) && fresh(c.nodes) && fresh(c.Unspent) && fresh(c.Blocks)
  {
    hide Ours, Ancestor, HighestCommon, Between, BlockDB.SavedWith, BlockDB.QueueWith;
    c, m1, a2, b2 := Rival();
    Body(c, b2, m1, m1);
    Written(c);
    b3 := Header(c, 4, b2);
  }

  lemma FirstIs(main: seq<BlockTreeNode>)
    requires Line(main) && |main| == 2
    ensures main[0].Parent == null && main[0].Height == 0 && main[1].Parent == main[0] && main[1].Height == 1
  {
  }

  method Written(c: C.Chain)
    requires Ours(c)
    modifies c.Blocks`saved, c.Blocks`blocksToWrite, c.Blocks`datToWrite
    ensures Ours(c) && c.Blocks.saved == c.Blocks.blockIndex.Keys
  {
    hide C.Chain.Valid;
    c.Idle();
  }

  /** The next block arrives, and the move to its branch, which has more work now, panics in its first attempt. */
  method Panics() returns (c: C.Chain, o: C.Outcome, ghost rounds: seq<C.Round>)
    ensures o.Panicked? && |rounds| == 1 && c.Jams(rounds[0])
  {
    hide C.Chain.Valid, C.Chain.Trace, C.Chain.GoodWay, C.Chain.OnlyBadLeft, C.Chain.Lacks, C.Chain.IndexExact, Ancestor, HighestCommon,
      HasUndo, BlockOk, Subtree, FilesNext, BlockDB.SavedWith, BlockDB.QueueWith, Blocked, CoinsAt, C.Chain.FirstStop, C.Chain.Sticks;
    var m1, a2, b2, b3;
    c, m1, a2, b2, b3 := TwoBranches();
    ghost var ns := c.nodes;
    var bl := Block(4, Alone(4), false);
    StaysSaved(c.Blocks, bl, 3);
    var e;
    e, o, rounds := c.CommitBlock(bl, b3, 1, 3, b3.Height > c.last.Height, 10);
    IsStuck(c, rounds[0], m1, a2, b2, b3);
    NoRetry(c, ns, rounds, o, m1, b2);
  }

  lemma StaysSaved(db: BlockDB, bl: Block, h: nat)
    requires h in db.saved && db.saved == db.blockIndex.Keys
    ensures h in db.SavedWith(bl, 1)
  {
  }
}
