/**
 * A chain that comes to the panic at a missing undo file, with equal work for every block: the block at height 3 of the longer
 * branch, the last but one to arrive, is refused while it is not in the file yet, and the one at height 2, connected outside
 * the window, has no undo file for the way back.
 */
module LateRefusal {
  import opened Utxo
  import opened CommitTxs
  import opened UnspentDb
  import opened ChainTree
  import opened ChainCoins
  import opened Fork
  import opened UndoFiles
  import opened BlockDb
  import opened Branches
  import opened Retries
  import C = Chain

  const TOP := UNWIND_BUF_LEN + 3
  const SIDE := 10000
  const ENV := Env((tx: Tx) => tx.hash != 3, (tx: Tx, spent: seq<Coin>) => true, (tx: Tx, spent: seq<Coin>) => 0, (tx: Tx) => false)

  /** Every block is a coinbase alone, without outputs. */
  function Alone(hash: nat): seq<Tx> {
    [Tx(hash, [], [])]
  }

  lemma AloneIs(hash: nat, height: nat)
    ensures var txs := Alone(hash);
      && ApplyTxs(map[], txs, height) == map[] && TxsOk(map[], txs, height) && ScriptsOk(map[], txs, height, ENV)
      && InTotal(map[], txs, height) == 0 && OutTotal(txs) == 0 && SigopsTotal(map[], txs, height, ENV) == 0
  {
    var txs := Alone(hash);
    assert txs[..0] == [];
    assert ApplyTxs(map[], txs[..0], height) == map[];
    assert OutTotal(txs[..0]) == 0 && SigopsTotal(map[], txs[..0], height, ENV) == 0;
    assert OutCoins(txs[0], true, height) == map[];
  }

  lemma {:induction false} NoCoins(n: BlockTreeNode)
    ensures CoinsAt(Alone, n) == map[]
    decreases n.Height
  {
    if n.Parent != null && n.Height == n.Parent.Height + 1 {
      NoCoins(n.Parent);
      AloneIs(n.BlockHash, n.Height);
    }
  }

  lemma AloneIsSane(n: BlockTreeNode, hash: nat)
    ensures SaneBlock(CoinsAt(Alone, n), Alone(hash), n.Height + 1)
  {
    NoCoins(n);
    AloneIs(hash, n.Height + 1);
    ShrLe(5000000000, (n.Height + 1) / 210000);
  }

  /** Only the block with hash 3 is bad. */
  lemma AloneIsOk(n: BlockTreeNode, hash: nat, trusted: bool)
    ensures BlockOk(CoinsAt(Alone, n), Block(hash, Alone(hash), trusted), n.Height + 1, ENV) <==> hash != 3
  {
    NoCoins(n);
    AloneIs(hash, n.Height + 1);
  }

  /** The main branch, from the genesis block up: heights are hashes. */
  ghost predicate Line(main: seq<BlockTreeNode>) {
    && |main| >= 2 && main[0].Parent == null && main[0].Height == 0
    && forall i :: 0 <= i < |main| ==> main[i].Height == i && main[i].BlockHash == i && (i > 0 ==> main[i].Parent == main[i - 1])
  }

  /** Two more blocks on top of the first one. */
  ghost predicate Branch(main: seq<BlockTreeNode>, s2: BlockTreeNode, s3: BlockTreeNode) {
    && |main| >= 2 && s2.Parent == main[1] && s2.Height == 2 && s2.BlockHash == SIDE + 2
    && s3.Parent == s2 && s3.Height == 3 && s3.BlockHash == SIDE + 3
  }

  lemma {:induction false} OnMain(main: seq<BlockTreeNode>, i: nat, x: BlockTreeNode)
    requires Line(main) && i < |main|
    ensures Ancestor(x, main[i]) <==> x.Height <= i && x == main[x.Height]
  {
    if i > 0 {
      OnMain(main, i - 1, x);
    }
  }

  lemma OnSide(main: seq<BlockTreeNode>, s2: BlockTreeNode, s3: BlockTreeNode, x: BlockTreeNode)
    requires Line(main) && Branch(main, s2, s3)
    ensures Ancestor(x, s3) <==> x == s3 || x == s2 || (x.Height <= 1 && x == main[x.Height])
  {
    OnMain(main, 1, x);
    assert Ancestor(x, s2) <==> x == s2 || Ancestor(x, main[1]);
  }

  /** The two branches part above the first block. */
  lemma Parting(ns: set<BlockTreeNode>, main: seq<BlockTreeNode>, s2: BlockTreeNode, s3: BlockTreeNode, i: nat)
    requires Line(main) && Branch(main, s2, s3) && 1 <= i < |main| && main[1] in ns
    ensures HighestCommon(ns, main[1], main[i], s3) && HighestCommon(ns, main[1], s3, main[i])
  {
    hide Ancestor;
    forall x
      ensures Ancestor(x, main[i]) <==> x.Height <= i && x == main[x.Height]
      ensures Ancestor(x, main[1]) <==> x.Height <= 1 && x == main[x.Height]
      ensures Ancestor(x, s3) <==> x == s3 || x == s2 || (x.Height <= 1 && x == main[x.Height])
    {
      OnMain(main, i, x);
      OnMain(main, 1, x);
      OnSide(main, s2, s3, x);
    }
  }

  /** Both branches are there with all their data; the store has the main one's from height 2 on, untrusted, and 3 not in the file. */
  ghost predicate Stranded(c: C.Chain, r: C.Round, main: seq<BlockTreeNode>, s2: BlockTreeNode, s3: BlockTreeNode)
    reads r.ns`BlockSize, r.ns`TxCount
  {
    && Line(main) && Branch(main, s2, s3) && |main| == TOP + 1 && r.ns == (set n | n in main) + {s2, s3}
    && c.root == main[0] && c.content == Alone && c.env == ENV
    && (forall n :: n in r.ns && n != c.root ==> n.BlockSize > 0 && n.TxCount > 0)
    && (forall h :: 2 <= h <= TOP ==> h in r.bs && r.bs[h] == Block(h, Alone(h), false)) && 3 !in r.saved
    && r.dst == main[TOP] && r.from == s3 && r.files == {1, 2, 3}
  }

  lemma ThirdStops(c: C.Chain, r: C.Round, main: seq<BlockTreeNode>, s2: BlockTreeNode, s3: BlockTreeNode)
    requires Stranded(c, r, main, s2, s3)
    ensures !c.Stops(r.bs, main[2]) && c.Stops(r.bs, main[3])
  {
    hide TxsOk, ScriptsOk, CoinsAt;
    AloneIsOk(main[1], 2, false);
    AloneIsOk(main[2], 3, false);
  }

  lemma OnlyThird(c: C.Chain, r: C.Round, main: seq<BlockTreeNode>, s2: BlockTreeNode, s3: BlockTreeNode, bad: BlockTreeNode)
    requires Stranded(c, r, main, s2, s3)
    ensures c.FirstStop(r.bs, r.ns, main[1], main[TOP], bad) ==> bad == main[3]
    ensures !c.ClearWay(r.bs, r.ns, main[1], main[TOP])
  {
    hide C.Chain.Stops, Ancestor;
    ThirdStops(c, r, main, s2, s3);
    OnMain(main, 3, main[1]);
    OnMain(main, TOP, main[3]);
    assert main[3] in r.ns;
    if c.FirstStop(r.bs, r.ns, main[1], main[TOP], bad) {
      OnMain(main, TOP, bad);
      AncestorHeight(main[1], bad.Parent);
      OnMain(main, bad.Height - 1, main[3]);
    }
  }

  /** The refused block can be taken away: it is not in the file, and the blocks above it have one child at most and are not trusted. */
  lemma ThirdComesOff(c: C.Chain, r: C.Round, main: seq<BlockTreeNode>, s2: BlockTreeNode, s3: BlockTreeNode)
    requires Stranded(c, r, main, s2, s3)
    ensures !c.Sticks(r.bs, r.saved, r.ns, main[3])
  {
    hide Ancestor, C.Chain.Sticks;
    assert main[3] in r.ns;
    StickingBlocks(c, r.bs, r.saved, r.ns, main[3]);
    forall x | x in r.ns && Ancestor(main[3], x)
      ensures x.BlockHash in r.bs && !r.bs[x.BlockHash].trusted && !HasTwo(r.ns, x)
    {
      OnSide(main, s2, s3, main[3]);
      if x == s2 {
        AncestorHeight(main[3], s2);
      }
      assert x in main;
      AncestorHeight(main[3], x);
      forall y | y in r.ns && y.Parent == x
        ensures y.Height == x.Height + 1 && y in main
      {
        assert x.BlockHash < SIDE && x.Height >= 3;
        assert y != s2 && y != s3;
        var k :| 0 <= k < |main| && main[k] == y;
        assert k > 0 && main[k].Parent == main[k - 1];
      }
    }
  }

  lemma SideOpen(c: C.Chain, r: C.Round, main: seq<BlockTreeNode>, s2: BlockTreeNode, s3: BlockTreeNode,
                 now: set<BlockTreeNode>, dst: BlockTreeNode, from: BlockTreeNode)
    requires Stranded(c, r, main, s2, s3) && now <= r.ns && dst != c.root
    ensures !Blocked(c.root, now, main[1], dst, from)
  {
    hide Ancestor;
    forall x | x in now && Ancestor(main[1], x)
      ensures x.TxCount > 0
    {
      AncestorHeight(main[1], x);
    }
  }

  /** With the branch of the refused block gone, the side branch is the longest, and the move back to it lacks the file at height 2. */
  lemma BackToSide(c: C.Chain, r: C.Round, main: seq<BlockTreeNode>, s2: BlockTreeNode, s3: BlockTreeNode, next: C.Round)
    requires Stranded(c, r, main, s2, s3) && c.AfterStop(r, {1}, main[1], main[3], next)
    ensures next.from == main[2] && next.dst == s3 && next.files == {1} && next.ns <= r.ns && main[1] in next.ns
  {
    hide Ancestor, C.Chain.Sticks, C.Chain.StoreAfter;
    assert main[3] in r.ns && main[1] in r.ns && s3 in r.ns;
    OnSide(main, s2, s3, main[3]);
    OnMain(main, 1, main[3]);
    assert next.ns == r.ns - Subtree(r.ns, main[3]) && s3 in next.ns;
    var n := next.dst;
    if n in main {
      OnMain(main, n.Height, main[3]);
    }
    assert FilesUp({1}, 1, 1, TOP) == {1};
  }

  /** The move to the longer branch panics in its second attempt, for want of an undo file. */
  lemma SecondPanics(c: C.Chain, main: seq<BlockTreeNode>, s2: BlockTreeNode, s3: BlockTreeNode, ns: set<BlockTreeNode>, rounds: seq<C.Round>, o: C.Outcome)
    requires c.Trace(ns, rounds, o) && Stranded(c, rounds[0], main, s2, s3) && !c.mayAbort && !o.Diverged?
    ensures |rounds| == 2 && o.Panicked? && c.Lacks(rounds[1])
  {
    hide C.Chain.FirstStop, C.Chain.AfterStop, C.Chain.ClearWay, C.Chain.Stops, C.Chain.Sticks, HighestCommon, Blocked, Ancestor;
    var r := rounds[0];
    assert main[1] in r.ns && main[TOP] in r.ns && main[TOP] != c.root;
    Parting(r.ns, main, s2, s3, TOP);
    HighestCommonUnique(r.ns, main[1], main[TOP], s3);
    SideOpen(c, r, main, s2, s3, r.ns, main[TOP], s3);
    OnlyThird(c, r, main, s2, s3, main[3]);
    NoJam(c, r, main, s2, s3);
    assert FilesDown({1, 2, 3}, 1, 3) == {1};
    assert |rounds| > 1 && c.Follows(r, rounds[1]);
    var bad :| bad in r.ns && c.FirstStop(r.bs, r.ns, main[1], main[TOP], bad) && c.AfterStop(r, {1}, main[1], bad, rounds[1]);
    OnlyThird(c, r, main, s2, s3, bad);
    var next := rounds[1];
    BackToSide(c, r, main, s2, s3, next);
    Parting(next.ns, main, s2, s3, 2);
    HighestCommonUnique(next.ns, main[1], s3, main[2]);
    SideOpen(c, r, main, s2, s3, next.ns, s3, main[2]);
    assert 2 !in next.files && !HasUndo(next.files, 1, 2);
    var k := if |rounds| > 2 then 2 else 1;
    assert !c.Follows(next, rounds[k]);
  }

  lemma NoJam(c: C.Chain, r: C.Round, main: seq<BlockTreeNode>, s2: BlockTreeNode, s3: BlockTreeNode)
    requires Stranded(c, r, main, s2, s3) && main[1] in r.ns && HighestCommon(r.ns, main[1], r.dst, r.from)
    ensures !c.Jams(r)
  {
    hide C.Chain.FirstStop, C.Chain.Sticks, HighestCommon, Blocked, HasUndo, Ancestor;
    HighestCommonUnique(r.ns, main[1], r.dst, r.from);
    ThirdComesOff(c, r, main, s2, s3);
    forall bad | c.FirstStop(r.bs, r.ns, main[1], r.dst, bad)
      ensures bad == main[3]
    {
      OnlyThird(c, r, main, s2, s3, bad);
    }
  }

  // How a chain gets there.

  ghost predicate Ours(c: C.Chain)
    reads c, c.nodes, c.Unspent, c.Blocks
  {
    c.Valid() && c.IndexExact() && c.content == Alone && c.env == ENV && !c.mayAbort
  }

  lemma Listed(c: C.Chain, n: BlockTreeNode)
    requires c.TreeValid() && n in c.nodes
    ensures n.BlockHash in c.BlockIndex && c.BlockIndex[n.BlockHash] == n
  {
  }

  /** A header arrives, on top of a block that is in the tree. */
  method Header(c: C.Chain, hash: nat, parent: BlockTreeNode) returns (n: BlockTreeNode)
    requires Ours(c) && parent in c.nodes && hash !in c.BlockIndex
    modifies c`BlockIndex, c`nodes, c.nodes`Childs
    ensures Ours(c) && fresh(n) && c.nodes == old(c.nodes) + {n} && c.BlockIndex == old(c.BlockIndex)[hash := n]
    ensures n.Parent == parent && n.Height == parent.Height + 1 && n.BlockHash == hash && n.BlockSize == 0 && n.TxCount == 0
  {
    hide C.Chain.TreeValid, C.Chain.DbValid, C.Chain.DataValid, SaneBlock;
    AloneIsSane(parent, hash);
    Listed(c, parent);
    n := c.AcceptHeader(hash, parent.BlockHash);
  }

  /** The data of a good block arrives, on top of the head. */
  method Connected(c: C.Chain, n: BlockTreeNode, lastKnown: nat)
    requires Ours(c) && n in c.nodes && n.Parent == c.last && n.BlockHash != 3
    modifies c, c.nodes, c.Unspent, c.Blocks
    ensures Ours(c) && c.nodes == old(c.nodes) && c.BlockIndex == old(c.BlockIndex) && c.last == n
    ensures n.BlockSize > 0 && n.TxCount > 0
    ensures forall x :: x in c.nodes && x != n ==> x.BlockSize == old(x.BlockSize) && x.TxCount == old(x.TxCount)
    ensures c.Unspent.undoFiles.Keys == FilesNext(old(c.Unspent.undoFiles.Keys), n.Height, lastKnown)
    ensures c.Blocks.blockIndex == WithBlock(old(c.Blocks.blockIndex), Block(n.BlockHash, Alone(n.BlockHash), true))
  {
    hide C.Chain.Valid, BlockOk, FilesNext, WithBlock, BlockDB.SavedWith, BlockDB.QueueWith, C.Chain.Trace, C.Chain.Lacks, C.Chain.Jams,
      C.Chain.GoodWay, C.Chain.OnlyBadLeft, HighestCommon, Blocked, HasUndo, Subtree, CoinsAt;
    NewHeight(c, n);
    AloneIsOk(c.last, n.BlockHash, false);
    var e, o;
    ghost var rounds;
    e, o, rounds := c.CommitBlock(Block(n.BlockHash, Alone(n.BlockHash), false), n, 1, lastKnown, true, 0);
  }

  /** A good header and its block arrive, on top of the head. */
  method Mined(c: C.Chain, hash: nat) returns (n: BlockTreeNode)
    requires Ours(c) && hash !in c.BlockIndex && hash != 3
    modifies c, c.nodes, c.Unspent, c.Blocks
    ensures Ours(c) && fresh(n) && c.nodes == old(c.nodes) + {n} && c.BlockIndex == old(c.BlockIndex)[hash := n]
    ensures n.Parent == old(c.last) && n.Height == n.Parent.Height + 1 && n.BlockHash == hash && n.BlockSize > 0 && n.TxCount > 0
    ensures forall x :: x in old(c.nodes) ==> x.BlockSize == old(x.BlockSize) && x.TxCount == old(x.TxCount)
    ensures c.last == n && c.Unspent.undoFiles.Keys == FilesNext(old(c.Unspent.undoFiles.Keys), n.Height, n.Height)
    ensures c.Blocks.blockIndex == WithBlock(old(c.Blocks.blockIndex), Block(hash, Alone(hash), true))
  {
    hide C.Chain.Valid, FilesNext, WithBlock;
    HeadIn(c);
    n := Header(c, hash, c.last);
    Connected(c, n, n.Height);
  }

  lemma HeadIn(c: C.Chain)
    requires c.Valid()
    ensures c.last in c.nodes && c.root in c.nodes && c.root.Parent == null
  {
  }

  lemma NewHeight(c: C.Chain, n: BlockTreeNode)
    requires c.Valid() && n in c.nodes && n.Parent == c.last
    ensures n != c.root && n.Height == c.last.Height + 1
  {
  }

  method Genesis() returns (c: C.Chain)
    ensures Ours(c) && fresh(c) && fresh(c.nodes) && fresh(c.Unspent) && fresh(c.Blocks) && c.nodes == {c.root} && c.last == c.root
    ensures c.root.Parent == null && c.root.Height == 0 && c.root.BlockHash == 0 && c.BlockIndex == map[0 := c.root]
    ensures c.Unspent.undoFiles.Keys == {} && c.Blocks.blockIndex == map[]
  {
    hide C.Chain.Valid;
    c := new C.Chain(0, Alone, ENV, false);
  }

  lemma EarlyFiles()
    ensures FilesNext({}, 1, 1) == {1} && FilesNext({1}, 2, 2) == {1, 2} && FilesNext({1, 2}, 3, 3) == {1, 2, 3}
  {
  }

  /** The first block, and so many of the main branch's headers above it; the head is on the side branch. */
  ghost predicate Aside(c: C.Chain, main: seq<BlockTreeNode>, s2: BlockTreeNode, s3: BlockTreeNode, have: set<nat>)
    reads c, c.nodes, c.Unspent, c.Blocks, main, s2, s3
  {
    && Ours(c) && Line(main) && Branch(main, s2, s3) && c.root == main[0] && c.nodes == (set n | n in main) + {s2, s3}
    && c.last == s3 && c.Unspent.undoFiles.Keys == {1, 2, 3}
    && (forall h :: h in c.BlockIndex ==> h < |main| || h > SIDE)
    && s2.BlockSize > 0 && s2.TxCount > 0 && s3.BlockSize > 0 && s3.TxCount > 0 && main[1].BlockSize > 0 && main[1].TxCount > 0
    && DataOf(main, have) && Holds(c.Blocks.blockIndex, have)
  }

  /** Above the first block, have says which heights of the main branch have their data. */
  ghost predicate DataOf(main: seq<BlockTreeNode>, have: set<nat>)
    reads main
  {
    forall i :: 2 <= i < |main| ==> if i in have then main[i].BlockSize > 0 && main[i].TxCount > 0 else main[i].BlockSize == 0 && main[i].TxCount == 0
  }

  ghost function Heights(lo: nat, hi: nat): (s: set<nat>)
    ensures forall i :: i in s <==> lo <= i < hi
  {
    if hi <= lo then {} else Heights(lo, hi - 1) + {hi - 1}
  }

  ghost predicate Holds(bs: map<nat, Block>, have: set<nat>) {
    forall h :: 2 <= h < SIDE ==> if h in have then h in bs && bs[h] == Block(h, Alone(h), false) else h !in bs
  }

  lemma SideStore(bs: map<nat, Block>)
    requires bs.Keys == {1}
    ensures Holds(WithBlock(WithBlock(bs, Block(SIDE + 2, Alone(SIDE + 2), true)), Block(SIDE + 3, Alone(SIDE + 3), true)), {})
  {
  }

  method FirstBlock() returns (c: C.Chain, main: seq<BlockTreeNode>)
    ensures Ours(c) && fresh(c) && fresh(c.nodes) && fresh(c.Unspent) && fresh(c.Blocks) && Line(main) && |main| == 2
    ensures c.root == main[0] && c.last == main[1] && c.nodes == {main[0], main[1]} && c.Unspent.undoFiles.Keys == {1}
    ensures c.BlockIndex == map[0 := main[0], 1 := main[1]] && main[1].BlockSize > 0 && main[1].TxCount > 0
    ensures c.Blocks.blockIndex.Keys == {1}
  {
    hide Ours, FilesNext;
    EarlyFiles();
    c := Genesis();
    var n := Mined(c, 1);
    main := [c.root, n];
  }

  method SideBranch() returns (c: C.Chain, main: seq<BlockTreeNode>, s2: BlockTreeNode, s3: BlockTreeNode)
    ensures Aside(c, main, s2, s3, {}) && |main| == 2 && fresh(c) && fresh(c.nodes) && fresh(c.Unspent) && fresh(c.Blocks)
  {
    hide Ours, FilesNext, Line, Branch, WithBlock, Holds;
    EarlyFiles();
    c, main := FirstBlock();
    OnLine(main);
    ghost var bs := c.Blocks.blockIndex;
    s2 := Mined(c, SIDE + 2);
    s3 := Mined(c, SIDE + 3);
    OnBranch(main, s2, s3);
    SideStore(bs);
  }

  lemma OnLine(main: seq<BlockTreeNode>)
    requires Line(main)
    ensures |main| >= 2 && main[1].Height == 1
  {
  }

  lemma LineNext(main: seq<BlockTreeNode>, n: BlockTreeNode, s2: BlockTreeNode, s3: BlockTreeNode)
    requires Line(main) && Branch(main, s2, s3) && n.Parent == main[|main| - 1] && n.Height == n.Parent.Height + 1 && n.BlockHash == |main|
    ensures Line(main + [n]) && Branch(main + [n], s2, s3)
  {
  }

  lemma OnBranch(main: seq<BlockTreeNode>, s2: BlockTreeNode, s3: BlockTreeNode)
    requires |main| >= 2 && s2.Parent == main[1] && s2.Height == 2 && s2.BlockHash == SIDE + 2
    requires s3.Parent == s2 && s3.Height == 3 && s3.BlockHash == SIDE + 3
    ensures Branch(main, s2, s3)
  {
  }

  /** The next header of the main branch. */
  method NextHeader(c: C.Chain, main: seq<BlockTreeNode>, s2: BlockTreeNode, s3: BlockTreeNode) returns (more: seq<BlockTreeNode>)
    requires Aside(c, main, s2, s3, {}) && |main| < SIDE
    modifies c, c.nodes, c.Unspent, c.Blocks
    ensures Aside(c, more, s2, s3, {}) && |more| == |main| + 1 && fresh(c.nodes - old(c.nodes))
  {
    hide Ours, Line, Branch, Holds;
    OnLine(main);
    assert main[|main| - 1] in c.nodes;
    var n := Header(c, |main|, main[|main| - 1]);
    LineNext(main, n, s2, s3);
    more := main + [n];
  }

  /** A node without data between two others. */
  ghost predicate Between(c: C.Chain, low: BlockTreeNode, gap: BlockTreeNode, n: BlockTreeNode)
    reads gap
  {
    Ancestor(low, gap) && Ancestor(gap, n) && gap != n && gap.TxCount == 0
  }

  /**
   * The data of a block arrives that is not on top of the head. If it is higher than the head it has more work behind it, but
   * then data is missing below it.
   */
  method Body(c: C.Chain, n: BlockTreeNode, ghost low: BlockTreeNode, ghost gap: BlockTreeNode)
    requires Ours(c) && n in c.nodes && n.Parent != null && n.Parent != c.last
    requires n.Height > c.last.Height ==> low in c.nodes && gap in c.nodes && HighestCommon(c.nodes, low, n, c.last) && Between(c, low, gap, n)
    modifies c, c.nodes, c.Unspent, c.Blocks
    ensures Ours(c) && c.nodes == old(c.nodes) && c.last == old(c.last) && c.BlockIndex == old(c.BlockIndex) && unchanged(c.Unspent)
    ensures n.BlockSize > 0 && n.TxCount > 0
    ensures forall x :: x in c.nodes && x != n ==> x.BlockSize == old(x.BlockSize) && x.TxCount == old(x.TxCount)
    ensures var bl := Block(n.BlockHash, Alone(n.BlockHash), false);
      c.Blocks.blockIndex == WithBlock(old(c.Blocks.blockIndex), bl)
      && c.Blocks.saved == old(c.Blocks.SavedWith(bl, 1)) && c.Blocks.blocksToWrite == old(c.Blocks.QueueWith(bl, 1))
  {
    hide C.Chain.Valid, BlockOk, FilesNext, BlockDB.SavedWith, BlockDB.QueueWith, WithBlock, C.Chain.Trace, C.Chain.Lacks, C.Chain.Jams,
      C.Chain.GoodWay, C.Chain.OnlyBadLeft, HighestCommon, HasUndo, Subtree, CoinsAt, Ancestor;
    HeadIn(c);
    var h := n.BlockHash;
    ghost var ns := c.nodes;
    var e, o;
    ghost var rounds;
    e, o, rounds := c.CommitBlock(Block(h, Alone(h), false), n, 1, n.Height, n.Height > c.last.Height, 0);
    if n.Height > old(c.last).Height {
      assert Blocked(c.root, ns, low, n, old(c.last));
    }
  }

  /** The move to height h is refused: the data at height 3 is not there yet. */
  lemma WayShut(c: C.Chain, ns: set<BlockTreeNode>, main: seq<BlockTreeNode>, s2: BlockTreeNode, s3: BlockTreeNode, h: nat)
    requires Line(main) && Branch(main, s2, s3) && 3 < h < |main| && main[1] in ns && main[3] in ns && main[3].TxCount == 0
    ensures HighestCommon(ns, main[1], main[h], s3) && Between(c, main[1], main[3], main[h])
  {
    hide Ancestor, HighestCommon;
    Parting(ns, main, s2, s3, h);
    OnMain(main, 3, main[1]);
    OnMain(main, h, main[3]);
  }

  lemma Spot(main: seq<BlockTreeNode>, s2: BlockTreeNode, s3: BlockTreeNode, h: nat)
    requires Line(main) && Branch(main, s2, s3) && 2 <= h < |main| < SIDE
    ensures main[h].Parent != null && main[h].Parent != s3 && main[h].BlockHash == h && main[h].Height == h && s3.Height == 3
    ensures main[h] != s2 && main[h] != s3 && forall i :: 0 <= i < |main| && i != h ==> main[i] != main[h]
  {
    assert main[h].Parent == main[h - 1];
  }

  lemma OneMore(bs: map<nat, Block>, have: set<nat>, h: nat)
    requires Holds(bs, have) && h !in have && 2 <= h < SIDE
    ensures Holds(WithBlock(bs, Block(h, Alone(h), false)), have + {h})
  {
  }

  /** The data of a block of the main branch arrives. */
  method Data(c: C.Chain, main: seq<BlockTreeNode>, s2: BlockTreeNode, s3: BlockTreeNode, ghost have: set<nat>, h: nat)
    requires Aside(c, main, s2, s3, have) && 2 <= h < |main| < SIDE && h !in have && (h > 3 ==> 3 !in have)
    modifies c, c.nodes, c.Unspent, c.Blocks
    ensures Aside(c, main, s2, s3, have + {h}) && c.nodes == old(c.nodes)
    ensures c.Blocks.saved == old(c.Blocks.SavedWith(Block(h, Alone(h), false), 1))
    ensures c.Blocks.blocksToWrite == old(c.Blocks.QueueWith(Block(h, Alone(h), false), 1))
  {
    hide Ours, BlockDB.SavedWith, BlockDB.QueueWith, HighestCommon, Between, Line, Branch, WithBlock, Holds;
    assert forall i :: 0 <= i < |main| ==> main[i] in c.nodes;
    Spot(main, s2, s3, h);
    OneMore(c.Blocks.blockIndex, have, h);
    if h > 3 {
      WayShut(c, c.nodes, main, s2, s3, h);
    }
    Body(c, main[h], main[1], if h > 3 then main[3] else main[1]);
  }

  lemma {:induction false} HowMany<T>(s: seq<T>)
    ensures |set x | x in s| <= |s|
  {
    if s != [] {
      HowMany(s[1..]);
      assert (set x | x in s) == {s[0]} + set x | x in s[1..];
    }
  }

  /** One small entry in the queue: the next block is not the one that has everything written. */
  lemma NoFlush(db: BlockDB, bl: Block)
    requires db.Valid() && db.blocksToWrite == [OneB2W(3, 1)]
    ensures db.SavedWith(bl, 1) == db.saved
  {
    assert DataSize([OneB2W(3, 1)]) == 1 + DataSize([OneB2W(3, 1)][1..]);
  }

  /** The state before the move, as a whole. */
  lemma IsStranded(c: C.Chain, r: C.Round, main: seq<BlockTreeNode>, s2: BlockTreeNode, s3: BlockTreeNode, bs: map<nat, Block>)
    requires Line(main) && Branch(main, s2, s3) && |main| == TOP + 1 && r.ns == (set n | n in main) + {s2, s3}
    requires c.root == main[0] && c.content == Alone && c.env == ENV
    requires s2.BlockSize > 0 && s2.TxCount > 0 && s3.BlockSize > 0 && s3.TxCount > 0
    requires forall i :: 1 <= i <= TOP ==> main[i].BlockSize > 0 && main[i].TxCount > 0
    requires Holds(bs, Heights(2, TOP)) && r.bs == WithBlock(bs, Block(TOP, Alone(TOP), false)) && 3 !in r.saved
    requires r.dst == main[TOP] && r.from == s3 && r.files == {1, 2, 3}
    ensures Stranded(c, r, main, s2, s3)
  {
    forall h | 2 <= h <= TOP
      ensures h in r.bs && r.bs[h] == Block(h, Alone(h), false)
    {
      assert h < TOP ==> h in bs && bs[h] == Block(h, Alone(h), false);
    }
  }

  lemma AllThere(c: C.Chain, main: seq<BlockTreeNode>, s2: BlockTreeNode, s3: BlockTreeNode)
    requires Aside(c, main, s2, s3, Heights(2, TOP)) && |main| == TOP + 1
    ensures c.Valid() && c.content == Alone && c.env == ENV && !c.mayAbort
    ensures forall i :: 1 <= i < TOP ==> main[i].BlockSize > 0 && main[i].TxCount > 0
  {
    hide C.Chain.Valid, Heights;
  }

  /** The last block of the main branch comes, and the head is to move there. */
  method LastBlock(c: C.Chain, main: seq<BlockTreeNode>, s2: BlockTreeNode, s3: BlockTreeNode) returns (o: C.Outcome, ghost rounds: seq<C.Round>)
    requires Aside(c, main, s2, s3, Heights(2, TOP)) && |main| == TOP + 1
    requires 3 !in c.Blocks.saved && c.Blocks.blocksToWrite == [OneB2W(3, 1)]
    modifies c, c.nodes, c.Unspent, c.Blocks
    ensures o.Panicked? && |rounds| == 2 && c.Lacks(rounds[1])
  {
    hide C.Chain.Valid, C.Chain.Trace, C.Chain.GoodWay, C.Chain.OnlyBadLeft, C.Chain.Lacks, C.Chain.Jams, C.Chain.IndexExact, Ancestor, HighestCommon,
      HasUndo, BlockOk, Subtree, FilesNext, Line, Branch, WithBlock, BlockDB.SavedWith, BlockDB.QueueWith, Stranded, Holds, Blocked, CoinsAt,
      DataOf, Ours, Heights;
    AllThere(c, main, s2, s3);
    var bl := Block(TOP, Alone(TOP), false);
    ghost var ns, bs := c.nodes, c.Blocks.blockIndex;
    HowMany(main);
    Spot(main, s2, s3, TOP);
    assert forall i :: 0 <= i < |main| ==> main[i] in ns;
    StoreRight(c);
    NoFlush(c.Blocks, bl);
    var e;
    e, o, rounds := c.CommitBlock(bl, main[TOP], 1, TOP, main[TOP].Height > c.last.Height, TOP + 4);
    IsStranded(c, rounds[0], main, s2, s3, bs);
    SecondPanics(c, main, s2, s3, ns, rounds, o);
  }

  lemma StoreRight(c: C.Chain)
    requires c.Valid()
    ensures c.Blocks.Valid()
  {
  }

  /** The data of the main branch: first from height 4 on, then height 2; and, with all of that in the file, height 3. */
  method AllData(c: C.Chain, main: seq<BlockTreeNode>, s2: BlockTreeNode, s3: BlockTreeNode)
    requires Aside(c, main, s2, s3, {}) && |main| == TOP + 1
    modifies c, c.nodes, c.Unspent, c.Blocks
    ensures Aside(c, main, s2, s3, Heights(2, TOP)) && c.nodes == old(c.nodes)
    ensures 3 !in c.Blocks.saved && c.Blocks.blocksToWrite == [OneB2W(3, 1)]
  {
    hide Aside;
    ghost var have: set<nat> := {};
    var h := 4;
    while h < TOP
      invariant 4 <= h <= TOP && have == Heights(4, h) && Aside(c, main, s2, s3, have) && c.nodes == old(c.nodes)
    {
      Data(c, main, s2, s3, have, h);
      have := have + {h};
      h := h + 1;
    }
    Data(c, main, s2, s3, have, 2);
    have := have + {2};
    Written(c, main, s2, s3, have);
    ghost var before := c.Blocks.saved;
    Data(c, main, s2, s3, have, 3);
    assert have + {3} == Heights(2, TOP);
  }

  /** Between blocks, everything waiting is written to the file. */
  method Written(c: C.Chain, main: seq<BlockTreeNode>, s2: BlockTreeNode, s3: BlockTreeNode, ghost have: set<nat>)
    requires Aside(c, main, s2, s3, have) && 3 !in have
    modifies c.Blocks
    ensures Aside(c, main, s2, s3, have) && 3 !in c.Blocks.saved && c.Blocks.blocksToWrite == []
    ensures c.Blocks.SavedWith(Block(3, Alone(3), false), 1) == c.Blocks.saved
    ensures c.Blocks.QueueWith(Block(3, Alone(3), false), 1) == [OneB2W(3, 1)]
  {
    hide C.Chain.Valid, Line, Branch;
    OnLine(main);
    c.Idle();
    StoreRight(c);
  }

  /** From an empty directory, headers and blocks alone bring the chain to that panic. */
  method Panics() returns (c: C.Chain, o: C.Outcome, ghost rounds: seq<C.Round>)
    ensures o.Panicked? && |rounds| == 2 && c.Lacks(rounds[1])
  {
    hide Aside;
    var main, s2, s3;
    c, main, s2, s3 := SideBranch();
    while |main| <= TOP
      invariant 2 <= |main| <= TOP + 1 && Aside(c, main, s2, s3, {}) && fresh(c) && fresh(c.nodes) && fresh(c.Unspent) && fresh(c.Blocks)
      decreases TOP + 1 - |main|
    {
      main := NextHeader(c, main, s2, s3);
    }
    AllData(c, main, s2, s3);
    o, rounds := LastBlock(c, main, s2, s3);
  }
}
