/** The chain: accepting blocks, undoing them, and moving between branches. */
module Chain {
  import opened Utxo
  import opened CommitTxs
  import opened UnspentDb
  import opened ChainTree
  import opened ChainCoins
  import opened Fork
  import opened Seqs
  import opened Supply
  import opened UndoFiles
  import opened BlockDb
  import opened Branches

  /** Panicked: the program stops. Diverged: the retries of ParseTillBlock and MoveToBlock have used up their fuel. */
  datatype Outcome = Fine | Panicked | Diverged

  /** How one round of ParseTillBlock ends. Broken: the program stops, while it takes a refused block's branch away. */
  datatype Step = Connected | NotYet | Rejected | Broken

  /**
   * One attempt to move: the tree, the target, the head, the heights with an undo file, the stored blocks and which of them
   * are in the file, at its beginning.
   */
  datatype Round = Round(ns: set<BlockTreeNode>, dst: BlockTreeNode, from: BlockTreeNode, files: set<nat>, bs: map<nat, Block>, saved: set<nat>)

  /** The store when the blocks above a, up to n, have been connected. */
  ghost function TrustedUp(bs: map<nat, Block>, a: BlockTreeNode, n: BlockTreeNode): map<nat, Block>
    decreases n.Height
  {
    if n == a || n.Parent == null || n.Height != n.Parent.Height + 1 then bs else Trust(TrustedUp(bs, a, n.Parent), n.BlockHash)
  }

  lemma TrustedUpNext(bs: map<nat, Block>, a: BlockTreeNode, n: BlockTreeNode, nxt: BlockTreeNode)
    requires Ancestor(a, n) && nxt.Parent == n && nxt.Height == n.Height + 1
    ensures TrustedUp(bs, a, nxt) == Trust(TrustedUp(bs, a, n), nxt.BlockHash)
  {
    AncestorHeight(a, n);
  }

  lemma {:induction false} TrustedUpElse(bs: map<nat, Block>, a: BlockTreeNode, n: BlockTreeNode, h: nat)
    requires forall y :: Ancestor(y, n) ==> y.BlockHash != h
    ensures (h in TrustedUp(bs, a, n) <==> h in bs) && (h in bs ==> TrustedUp(bs, a, n)[h] == bs[h])
    decreases n.Height
  {
    if !(n == a || n.Parent == null || n.Height != n.Parent.Height + 1) {
      assert Ancestor(n, n);
      TrustedUpElse(bs, a, n.Parent, h);
    }
  }

  /** Connecting blocks below bad does not change what taking its branch away comes to. */
  lemma BreaksSame(bs: map<nat, Block>, saved: set<nat>, root: BlockTreeNode, ns: set<BlockTreeNode>, a: BlockTreeNode, bad: BlockTreeNode)
    requires OneEach(ns) && ParentTree(root, ns) && bad in ns && bad.Parent != null
    ensures Breaks(TrustedUp(bs, a, bad.Parent), saved, ns, bad, 1) <==> Breaks(bs, saved, ns, bad, 1)
  {
    hide TrustedUp, Ancestor;
    forall x | x in Subtree(ns, bad)
      ensures var up := TrustedUp(bs, a, bad.Parent);
        (x.BlockHash in up <==> x.BlockHash in bs) && (x.BlockHash in bs ==> up[x.BlockHash] == bs[x.BlockHash])
    {
      forall y | Ancestor(y, bad.Parent)
        ensures y.BlockHash != x.BlockHash
      {
        AncestorInTree(root, ns, y, bad.Parent);
        AncestorHeight(y, bad.Parent);
        AncestorHeight(bad, x);
      }
      TrustedUpElse(bs, a, bad.Parent, x.BlockHash);
    }
  }

  /** What the block index lists beside the tree stands above nodes that have left it. */
  ghost predicate Rooted(index: map<nat, BlockTreeNode>, ns: set<BlockTreeNode>) {
    forall h :: h in index ==>
      && index[h].BlockHash == h && (index[h].Parent != null ==> index[h].Height == index[h].Parent.Height + 1)
      && (index[h] !in ns ==> index[h].Parent != null && index[h].Parent !in ns)
  }

  /** The block index has lost entries at most, and is still rooted if it was. */
  ghost predicate IndexKept(index: map<nat, BlockTreeNode>, ns: set<BlockTreeNode>, index': map<nat, BlockTreeNode>, ns': set<BlockTreeNode>) {
    && (forall h :: h in index' ==> h in index && index'[h] == index[h])
    && (Rooted(index, ns) ==> Rooted(index', ns'))
  }

  lemma IndexSame(index: map<nat, BlockTreeNode>, ns: set<BlockTreeNode>)
    ensures IndexKept(index, ns, index, ns)
  {
  }

  lemma IndexThen(i0: map<nat, BlockTreeNode>, n0: set<BlockTreeNode>, i1: map<nat, BlockTreeNode>, n1: set<BlockTreeNode>,
                  i2: map<nat, BlockTreeNode>, n2: set<BlockTreeNode>)
    requires IndexKept(i0, n0, i1, n1) && IndexKept(i1, n1, i2, n2)
    ensures IndexKept(i0, n0, i2, n2)
  {
    hide Rooted;
  }

  /** Taking a branch out of the tree, and some of its nodes out of the index, the lowest one for certain. */
  lemma IndexCut(root: BlockTreeNode, index: map<nat, BlockTreeNode>, ns: set<BlockTreeNode>, cur: BlockTreeNode, out: set<nat>)
    requires ParentTree(root, ns) && cur in ns && cur.BlockHash in out
    ensures IndexKept(index, ns, index - out, ns - Subtree(ns, cur))
  {
    if Rooted(index, ns) {
      var index', ns' := index - out, ns - Subtree(ns, cur);
      forall h | h in index' && index'[h] !in ns'
        ensures index'[h].Parent != null && index'[h].Parent !in ns'
      {
        var n := index[h];
        if n in ns {
          assert n != cur && Ancestor(cur, n);
        }
      }
    }
  }

  ghost function Hashes(ns: set<BlockTreeNode>): set<nat> {
    set n | n in ns :: n.BlockHash
  }

  /** The blocks the head comes to on its way from n down to a. */
  ghost function Down(n: BlockTreeNode, a: BlockTreeNode): seq<BlockTreeNode>
    decreases n.Height
  {
    if n == a || n.Parent == null || n.Height != n.Parent.Height + 1 then [] else [n.Parent] + Down(n.Parent, a)
  }

  lemma {:induction false} DownStep(n: BlockTreeNode, a: BlockTreeNode)
    requires Ancestor(a, n) && a.Parent != null && a.Height == a.Parent.Height + 1
    ensures Down(n, a.Parent) == Down(n, a) + [a.Parent]
    decreases n.Height
  {
    AncestorHeight(a, n);
    if n != a {
      DownStep(n.Parent, a);
    } else {
      assert Down(n, n.Parent) == [n.Parent] + Down(n.Parent, n.Parent);
    }
  }

  lemma HashesOf(a: set<BlockTreeNode>, b: set<BlockTreeNode>, n: BlockTreeNode)
    requires n in b
    ensures Hashes(a + b) == Hashes(a) + Hashes(b - {n}) + {n.BlockHash}
  {
  }

  lemma Fewer<T>(a: set<T>, b: set<T>)
    requires b <= a && b != {}
    ensures |a - b| < |a|
  {
  }

  class Chain {
    const root: BlockTreeNode
    const Unspent: UnspentDB
    const Blocks: BlockDB
    ghost const content: Content
    const env: Env
    /** Whether AbortNow can ever be found set. */
    const mayAbort: bool
    var BlockIndex: map<nat, BlockTreeNode>
    var last: BlockTreeNode
    ghost var nodes: set<BlockTreeNode>
    /** Every block SetLast has moved to. */
    ghost var moves: seq<BlockTreeNode>

    /** NewChainExt on an empty directory: the genesis block alone, and no coins. */
    constructor (genesis: nat, ghost content: Content, env: Env, mayAbort: bool)
      ensures Valid() && IndexExact() && IndexRooted() && last == root && nodes == {root} && root.BlockHash == genesis
      ensures this.content == content && this.env == env && this.mayAbort == mayAbort && fresh(root) && fresh(Unspent) && fresh(Blocks)
      ensures root.Parent == null && root.Height == 0 && BlockIndex == map[genesis := root] && Unspent.undoFiles == map[]
      ensures Blocks.blockIndex == map[]
    {
      root := new BlockTreeNode(genesis, 0, null);
      Unspent := new UnspentDB();
      this.content, this.env, this.mayAbort := content, env, mayAbort;
      Blocks := new BlockDB();
      BlockIndex, last := map[genesis := root], root;
      nodes, moves := {root}, [];
      new;
      hide TreeValid, DataValid, DbValid, IndexExact, Rooted, BlockDB.Valid;
      StartTree();
      StartDb();
    }

    lemma StartTree()
      requires root.Parent == null && root.Height == 0 && root.Childs == [] && root.BlockSize == 0 && root.TxCount == 0
      requires nodes == {root} && last == root && BlockIndex == map[root.BlockHash := root] && Blocks.Valid() && Blocks.blockIndex == map[]
      ensures TreeValid() && DataValid(null) && IndexExact() && IndexRooted()
    {
      hide BlockDB.Valid;
    }

    lemma StartDb()
      requires root.Parent == null && root.Height == 0 && last == root
      requires Unspent.HashMap == map[] && Unspent.LastBlockHeight == 0 && Unspent.undoFiles == map[] && Unspent.notified == []
      ensures DbValid()
    {
      assert Unspent.notified[|Unspent.notified|..] == [];
    }

    ghost predicate TreeValid()
      reads `BlockIndex, `last, `nodes, nodes
    {
      && IsTree(root, nodes) && root.Height == 0 && last in nodes
      && (forall n :: n in nodes ==> n.BlockHash in BlockIndex && BlockIndex[n.BlockHash] == n)
      && (forall n :: n in nodes ==> Sane(content, n))
    }

    /** The block store has the data of every node that says so; the node skip is not looked at. */
    ghost predicate DataValid(skip: BlockTreeNode?)
      reads Blocks, `last, `nodes, nodes
    {
      && Blocks.Valid() && (forall h :: h in Blocks.blockIndex ==> Blocks.blockIndex[h].txs == content(h))
      && (forall n :: n in nodes && n != skip ==> (n.BlockSize > 0 <==> n.TxCount > 0) && (n.BlockSize > 0 ==> n.BlockHash in Blocks.blockIndex))
      && (root in nodes ==> root.BlockSize == 0)
      && (forall n :: n in nodes && n != root && Ancestor(n, last) ==> n.BlockSize > 0)
    }

    /** The database is at the last block, and its notifications have told all of it. */
    ghost predicate DbValid()
      reads `last, Unspent
    {
      && DbFits(content, last, Unspent.HashMap, Unspent.LastBlockHeight, Unspent.undoFiles)
      && Notified([], Unspent.notified, map[], Unspent.HashMap)
      && Accepted(content, last)
    }

    ghost predicate Valid()
      reads this, nodes, Unspent, Blocks
    {
      TreeValid() && DataValid(null) && DbValid()
    }

    /** The block index lists nothing but the tree. */
    ghost predicate IndexExact()
      reads `BlockIndex, `nodes
    {
      forall h :: h in BlockIndex ==> BlockIndex[h] in nodes && BlockIndex[h].BlockHash == h
    }

    ghost predicate IndexRooted()
      reads `BlockIndex, `nodes
    {
      Rooted(BlockIndex, nodes)
    }

    /** What Valid says of the coins: the records are the fold of the blocks on the path to the last one. */
    lemma SetIsFold()
      requires Valid()
      ensures Agrees(Unspent.HashMap, CoinsAt(content, last)) && Canonical(Unspent.HashMap)
      ensures forall db: Records :: Canonical(db) && Agrees(db, CoinsAt(content, last)) ==> db == Unspent.HashMap
    {
      forall db: Records | Canonical(db) && Agrees(db, CoinsAt(content, last))
        ensures db == Unspent.HashMap
      {
        CoinsDetermineRecords(db, Unspent.HashMap, CoinsAt(content, last));
      }
    }

    /** The tree has one more leaf. */
    twostate predicate Attached(new cur: BlockTreeNode)
      reads this, nodes, Blocks
    {
      && cur.Parent != null && cur.Parent in old(nodes) && cur !in old(nodes) && nodes == old(nodes) + {cur}
      && cur.Height == cur.Parent.Height + 1 && cur.Childs == []
      && (forall n :: n in old(nodes) ==> n.Childs == if n == cur.Parent then old(n.Childs) + [cur] else old(n.Childs))
      && (forall n :: n in old(nodes) ==> n.BlockSize == old(n.BlockSize) && n.TxCount == old(n.TxCount))
      && cur.BlockHash !in old(BlockIndex) && BlockIndex == old(BlockIndex)[cur.BlockHash := cur]
      && last == old(last) && unchanged(Blocks)
    }

    twostate lemma Grown(new cur: BlockTreeNode)
      requires old(TreeValid()) && Attached(cur) && Sane(content, cur)
      ensures TreeValid()
    {
      hide Sane, ChildsRight;
      forall n | n in nodes
        ensures ChildsRight(nodes, n)
      {
        GrownChilds(cur, n);
      }
    }

    twostate lemma GrownChilds(new cur: BlockTreeNode, new n: BlockTreeNode)
      requires old(IsTree(root, nodes)) && Attached(cur) && n in nodes
      ensures ChildsRight(nodes, n)
    {
      if n != cur {
        assert old(ChildsRight(nodes, n));
      } else {
        assert forall c :: c in nodes ==> c.Parent != cur;
      }
    }

    twostate lemma GrownData(new cur: BlockTreeNode)
      requires old(TreeValid()) && Attached(cur) && cur.BlockSize == 0 && cur.TxCount == 0
      ensures old(DataValid(null)) ==> DataValid(null)
    {
      hide ChildsRight, Sane;
      if Ancestor(cur, last) {
        AncestorInTree(root, old(nodes), cur, last);
      }
    }

    /** A listener that knew the coins at some time and has heard every notification since knows the coins now. */
    lemma ToldSince(before: seq<Event>)
      requires Valid() && before <= Unspent.notified
      ensures var since := Unspent.notified[|before|..];
              ValidRun(Replay(map[], before), since) && Replay(Replay(map[], before), since) == CoinsAt(content, last)
    {
      var since := Unspent.notified[|before|..];
      assert before + since == Unspent.notified == Unspent.notified[0..];
      RunSuffix(map[], before, since);
      SameCoins(Unspent.HashMap, Replay(map[], Unspent.notified), CoinsAt(content, last));
    }

    /** The value of all unspent outputs never exceeds the subsidies of the blocks they come from. */
    lemma SupplyBounded()
      requires Valid()
      ensures Total(CoinsAt(content, last)) <= RewardSum(last.Height) < SUPPLY_LIMIT
    {
      SupplyAt(content, last);
    }

    /**
     * AcceptHeader: panics when the parent is unknown. A parent that only the index still knows, one above a refused block,
     * gets its child like any other; the tree does not change.
     */
    method AcceptHeader(hash: nat, parentHash: nat) returns (cur: BlockTreeNode?)
      requires TreeValid() && hash !in BlockIndex
      requires parentHash in BlockIndex && BlockIndex[parentHash] in nodes ==>
        var par := BlockIndex[parentHash]; SaneBlock(CoinsAt(content, par), content(hash), par.Height + 1)
      modifies `BlockIndex, `nodes, BlockIndex.Values`Childs
      ensures cur == null <==> parentHash !in old(BlockIndex)
      ensures cur == null ==> nodes == old(nodes) && BlockIndex == old(BlockIndex)
      ensures cur != null ==> fresh(cur) && cur.BlockSize == 0 && cur.TxCount == 0 && cur.BlockHash == hash
      ensures cur != null ==> cur.Parent == old(BlockIndex)[parentHash] && cur.Height == cur.Parent.Height + 1
      ensures cur != null ==> BlockIndex == old(BlockIndex)[hash := cur]
      ensures cur != null ==> cur.Parent.Childs == old(BlockIndex[parentHash].Childs) + [cur]
      ensures cur != null ==> nodes == old(nodes) + if cur.Parent in old(nodes) then {cur} else {}
      ensures TreeValid() && (old(IndexExact()) ==> IndexExact()) && (old(IndexRooted()) ==> IndexRooted())
      ensures old(DataValid(null)) ==> DataValid(null)
    {
      hide TreeValid, DataValid, SaneBlock;
      cur := null;
      if parentHash in BlockIndex {
        var prevblk := BlockIndex[parentHash];
        cur := new BlockTreeNode(hash, prevblk.Height + 1, prevblk);
        assert prevblk in BlockIndex.Values;
        prevblk.AddChild(cur);
        BlockIndex := BlockIndex[hash := cur];
        if prevblk in nodes {
          assert Sane(content, cur);
          nodes := nodes + {cur};
          Grown(cur);
          GrownData(cur);
        } else {
          Unmoved();
        }
      }
    }

    /** The index knows one more node, and the tree is as it was. */
    twostate lemma Unmoved()
      requires nodes == old(nodes) && last == old(last) && unchanged(Blocks)
      requires forall n :: n in nodes ==> n.Childs == old(n.Childs) && n.BlockSize == old(n.BlockSize) && n.TxCount == old(n.TxCount)
      requires forall h :: h in old(BlockIndex) ==> h in BlockIndex && BlockIndex[h] == old(BlockIndex)[h]
      ensures old(TreeValid()) ==> TreeValid()
      ensures old(DataValid(null)) ==> DataValid(null)
    {
      hide Sane;
      if old(TreeValid()) {
        forall n | n in nodes
          ensures ChildsRight(nodes, n)
        {
          assert old(ChildsRight(nodes, n));
        }
      }
    }

    /** cur and all below it have left the tree. */
    twostate predicate Cut(cur: BlockTreeNode)
      reads this, nodes
    {
      && cur in old(nodes) && cur != root && !Ancestor(cur, old(last)) && nodes == old(nodes) - Subtree(old(nodes), cur)
      && (forall n :: n in nodes && n != cur.Parent ==> n.Childs == old(n.Childs))
      && cur.Parent != null && cur.Parent in nodes && Distinct(cur.Parent.Childs)
      && (forall c :: c in cur.Parent.Childs ==> c in old(cur.Parent.Childs) && c != cur)
      && (forall c :: c in old(cur.Parent.Childs) && c != cur ==> c in cur.Parent.Childs)
      && (forall n :: n in nodes ==> n.BlockSize == old(n.BlockSize) && n.TxCount == old(n.TxCount))
      && (forall n :: n in nodes ==> n.BlockHash in BlockIndex && n.BlockHash in old(BlockIndex) && BlockIndex[n.BlockHash] == old(BlockIndex)[n.BlockHash])
      && last == old(last)
    }

    twostate lemma CutTree(cur: BlockTreeNode)
      requires old(TreeValid()) && Cut(cur)
      ensures TreeValid()
    {
      hide Sane, Ancestor, Subtree;
      CutParents(root, old(nodes), cur, old(last));
      forall n | n in nodes
        ensures ChildsRight(nodes, n)
      {
        assert old(ChildsRight(nodes, n));
      }
    }

    /** Fewer nodes, and the store still has the data of those left. */
    twostate lemma CutData(cur: BlockTreeNode)
      requires old(DataValid(null)) || old(DataValid(cur))
      requires nodes <= old(nodes) && cur !in nodes && last == old(last)
      requires forall n :: n in nodes ==> n.BlockSize == old(n.BlockSize) && n.TxCount == old(n.TxCount)
      requires Blocks.Valid() && forall h :: h in Blocks.blockIndex ==> Blocks.blockIndex[h].txs == content(h)
      requires forall n :: n in nodes && n.BlockHash in old(Blocks.blockIndex) ==> n.BlockHash in Blocks.blockIndex
      ensures DataValid(null)
    {
      hide Ancestor, BlockDB.Valid;
    }

    /**
     * delAllChildren: everything below cur leaves the block index, and cur has no children any more. BlockInvalid is called
     * for the parent once per child; not ok means that one of the calls stops the program.
     */
    method DelAllChildren(cur: BlockTreeNode, ghost ns: set<BlockTreeNode>) returns (ok: bool)
      requires ParentTree(root, ns) && cur in ns && forall x :: x in Subtree(ns, cur) ==> ChildsRight(ns, x)
      requires OneEach(ns) && Blocks.Valid()
      modifies `BlockIndex, Subtree(ns, cur)`Childs, Blocks`blockIndex
      ensures ok <==> !Breaks(old(Blocks.blockIndex), Blocks.saved, ns, cur, 0)
      ensures ok ==> BlockIndex == old(BlockIndex) - Hashes(Subtree(ns, cur) - {cur})
      ensures ok ==> Blocks.Valid() && Blocks.blockIndex == Marked(old(Blocks.blockIndex), Blocks.saved, Called(ns, cur, 0))
      decreases Subtree(ns, cur)
    {
      hide ParentTree, Subtree, ChildsRight, Breaks, Called, CalledBy, Harmless, Apart, Fatal, Marked, Calls, OneEach, BlockDB.Valid, Below;
      SelfInSubtree(ns, cur);
      var kids := cur.Childs;
      KidsOf(root, ns, cur, kids);
      AreApart(ns, cur, kids);
      ghost var bs, saved, hs := Blocks.blockIndex, Blocks.saved, {};
      NothingCalled(bs, saved, ns, cur, kids);
      ok := true;
      for i := 0 to |kids|
        invariant cur.Childs == kids && ok
        invariant forall j, x :: i <= j < |kids| && x in Subtree(ns, kids[j]) ==> ChildsRight(ns, x)
        invariant BlockIndex == old(BlockIndex) - Hashes(Below(ns, kids, i))
        invariant Blocks.Valid() && Harmless(bs, saved, ns, cur, kids, i) && hs == CalledBy(ns, cur, kids, i)
        invariant Blocks.blockIndex == Marked(bs, saved, hs)
      {
        SameBelow(bs, saved, ns, cur, kids, i);
        ok := DelAllChildren(kids[i], ns);
        if !ok {
          KidBreaks(bs, saved, ns, cur, kids, i);
          return;
        }
        MarkedTwice(bs, saved, hs, Called(ns, kids[i], 0));
        SelfInSubtree(ns, kids[i]);
        HashesNext(ns, kids, i);
        BlockIndex := BlockIndex - {kids[i].BlockHash};
        HarmlessNext(bs, saved, ns, cur, kids, i);
        ok := Blocks.BlockInvalid(cur.BlockHash);
        if !ok {
          KidBreaks(bs, saved, ns, cur, kids, i);
          return;
        }
        MarkedTwice(bs, saved, hs + Called(ns, kids[i], 0), {cur.BlockHash});
        CalledByNext(ns, cur, kids, i);
        hs := hs + Called(ns, kids[i], 0) + {cur.BlockHash};
      }
      AllHarmless(bs, saved, ns, cur, kids);
      cur.Childs := [];
    }

    lemma HashesNext(ns: set<BlockTreeNode>, kids: seq<BlockTreeNode>, i: nat)
      requires i < |kids| && kids[i] in Subtree(ns, kids[i])
      ensures Hashes(Below(ns, kids, i + 1)) == Hashes(Below(ns, kids, i)) + Hashes(Subtree(ns, kids[i]) - {kids[i]}) + {kids[i].BlockHash}
    {
      HashesOf(Below(ns, kids, i), Subtree(ns, kids[i]), kids[i]);
    }

    /** A block hash stands for one node of the tree. */
    lemma OneHash()
      requires TreeValid()
      ensures OneEach(nodes)
    {
      hide IsTree, Sane;
    }

    /** DeleteBranch: not ok means that the program stops. */
    method DeleteBranch(cur: BlockTreeNode) returns (ok: bool)
      requires TreeValid() && DataValid(null) && cur in nodes && !Ancestor(cur, last)
      modifies `BlockIndex, `nodes, nodes`Childs, Blocks`blockIndex
      ensures ok <==> !Breaks(old(Blocks.blockIndex), Blocks.saved, old(nodes), cur, 1)
      ensures ok ==> TreeValid() && DataValid(null)
      ensures ok ==> nodes == old(nodes) - Subtree(old(nodes), cur)
      ensures ok ==> BlockIndex == old(BlockIndex) - Hashes(Subtree(old(nodes), cur))
      ensures ok ==> Blocks.blockIndex == Marked(old(Blocks.blockIndex), Blocks.saved, Called(old(nodes), cur, 1))
      ensures ok ==> (old(IndexExact()) ==> IndexExact()) && IndexKept(old(BlockIndex), old(nodes), BlockIndex, nodes)
      ensures !ok ==> nodes == old(nodes)
    {
      hide TreeValid, DataValid, IndexExact, IndexKept, Ancestor, Subtree, Breaks, Called, Fatal, Marked, OneEach, BlockDB.Valid;
      ghost var bs, saved, ns := Blocks.blockIndex, Blocks.saved, nodes;
      OneHash();
      StoreValidBut(null);
      SelfInSubtree(nodes, cur);
      ok := Blocks.BlockInvalid(cur.BlockHash);
      if !ok {
        TopBreaks(bs, saved, ns, cur);
        return;
      }
      TopFirst(bs, saved, ns, cur);
      ok := Detach(cur);
      if ok {
        MarkedKeeps(bs, saved, ns, cur);
        CutData(cur);
      }
    }

    /** The rest of DeleteBranch, after the call for the block itself. */
    method Detach(cur: BlockTreeNode) returns (ok: bool)
      requires TreeValid() && OneEach(nodes) && Blocks.Valid() && cur in nodes && !Ancestor(cur, last)
      modifies `BlockIndex, `nodes, nodes`Childs, Blocks`blockIndex
      ensures ok <==> !Breaks(old(Blocks.blockIndex), Blocks.saved, old(nodes), cur, 0)
      ensures ok ==> TreeValid() && nodes == old(nodes) - Subtree(old(nodes), cur) && cur !in nodes
      ensures ok ==> BlockIndex == old(BlockIndex) - Hashes(Subtree(old(nodes), cur)) && (old(IndexExact()) ==> IndexExact())
      ensures ok ==> IndexKept(old(BlockIndex), old(nodes), BlockIndex, nodes)
      ensures ok ==> Blocks.Valid() && Blocks.blockIndex == Marked(old(Blocks.blockIndex), Blocks.saved, Called(old(nodes), cur, 0))
      ensures !ok ==> nodes == old(nodes)
    {
      hide Sane, Ancestor, Subtree, ChildsRight, ParentTree, Breaks, Called, Marked, OneEach, BlockDB.Valid, IndexKept;
      CutParents(root, nodes, cur, last);
      SelfInSubtree(nodes, cur);
      ChildListed(nodes, cur);
      BlockIndex := BlockIndex - {cur.BlockHash};
      cur.Parent.DelChild(cur);
      ok := DelAllChildren(cur, nodes);
      if !ok {
        return;
      }
      IndexCut(root, old(BlockIndex), nodes, cur, Hashes(Subtree(nodes, cur)));
      nodes := nodes - Subtree(nodes, cur);
      CutTree(cur);
    }

    lemma StoreValidBut(skip: BlockTreeNode?)
      requires DataValid(skip)
      ensures Blocks.Valid() && forall h :: h in Blocks.blockIndex ==> Blocks.blockIndex[h].txs == content(h)
    {
      hide Ancestor, BlockDB.Valid;
    }

    lemma MarkedKeeps(bs: map<nat, Block>, saved: set<nat>, ns: set<BlockTreeNode>, cur: BlockTreeNode)
      requires OneEach(ns) && forall h :: h in bs ==> bs[h].txs == content(h)
      ensures var now := Marked(bs, saved, Called(ns, cur, 1));
        && (forall h :: h in now ==> now[h].txs == content(h))
        && (forall n :: n in ns - Subtree(ns, cur) && n.BlockHash in bs ==> n.BlockHash in now)
    {
      hide Called, OneEach, Subtree;
      forall n | n in ns - Subtree(ns, cur) && n.BlockHash in bs
        ensures n.BlockHash in Marked(bs, saved, Called(ns, cur, 1))
      {
        MarkedOutside(bs, saved, ns, cur, 1, n);
      }
    }

    /** What ProcessBlockTransactions hands on to CommitBlockTxs. */
    ghost predicate Ready(cur: BlockTreeNode, changes: BlockChanges, pool: Pool)
      reads `last, Unspent, changes
    {
      && cur.Parent == last && cur.Height == last.Height + 1 && Sane(content, cur)
      && |content(cur.BlockHash)| >= 1 && changes.height == cur.Height
      && Collected(Unspent.HashMap, changes.deledTxs, changes.undoData, pool, CoinsAt(content, cur), cur.Height, content(cur.BlockHash)[0].hash)
      && AddsFit(changes.addList, pool, cur.Height, content(cur.BlockHash)[0].hash)
      && Lens(pool) == LensOf(content(cur.BlockHash))
      && Paid(CoinsAt(content, last), content(cur.BlockHash), cur.Height)
    }

    /** ProcessBlockTransactions: undo data is kept for the last blocks only. */
    method ProcessBlockTransactions(bl: Block, cur: BlockTreeNode, lknown: nat) returns (changes: BlockChanges, e: Result, ghost pool: Pool)
      requires DbValid() && cur.Parent == last && cur.Height == last.Height + 1 && Sane(content, cur)
      requires bl.txs == content(cur.BlockHash)
      ensures fresh(changes)
      ensures |bl.txs| >= 1 && (e.Ok? <==> BlockOk(CoinsAt(content, last), bl, cur.Height, env))
      ensures e.Ok? ==> Ready(cur, changes, pool)
      ensures changes.undoData.Some? <==> cur.Height + UNWIND_BUF_LEN >= lknown
    {
      hide TxsOk, ScriptsOk, SigopsTotal, InTotal, OutTotal, GetBlockReward, Agrees, Canonical, FreshCoins, FreshIds, NoWrap, Collected, AddsFit, Lens, LensOf, FilesFit, Notified, ApplyTxs;
      ghost var m := CoinsAt(content, last);
      changes := new BlockChanges(cur.Height, cur.Height + UNWIND_BUF_LEN >= lknown);
      FreshRecords(Unspent.HashMap, m, bl.txs);
      e, pool := CommitTxs.CommitTxs(Unspent.HashMap, bl, changes, env, m);
    }

    /** CommitBlockTxs and SetLast. */
    method Connect(cur: BlockTreeNode, changes: BlockChanges, ghost pool: Pool)
      requires DbValid() && Ready(cur, changes, pool)
      modifies `last, `moves, Unspent
      ensures moves == old(moves) + [cur]
      ensures DbValid() && last == cur
      ensures Unspent.undoFiles.Keys == (if changes.undoData.Some? then old(Unspent.undoFiles.Keys) + {cur.Height} else old(Unspent.undoFiles.Keys))
                                      - (if cur.Height > UNWIND_BUF_LEN then {cur.Height - UNWIND_BUF_LEN} else {})
    {
      hide Agrees, Canonical, FreshCoins, NoWrap, Collected, AddsFit, Lens, LensOf, FilesFit, Notified, Applied, Applicable, SaneBlock, CoinsAt;
      ghost var m := CoinsAt(content, last);
      ghost var db, height, files, before := Unspent.HashMap, Unspent.LastBlockHeight, Unspent.undoFiles, Unspent.notified;
      ghost var cs := (changes.addList, changes.deledTxs, changes.undoData);
      CollectedApplicable(db, cs.1, cs.2, pool, CoinsAt(content, cur), cur.Height, content(cur.BlockHash)[0].hash, cs.0);
      Unspent.CommitBlockTxs(changes, cur.BlockHash, m);
      Committed(content, cur, db, height, files, cs, pool, Unspent.HashMap);
      NotifiedFromStart(before, Unspent.notified, m, db, Unspent.HashMap);
      last, moves := cur, moves + [cur];
    }

    /** UndoBlockTxs and SetLast. */
    method Disconnect(bl: Block)
      requires DbValid() && last.Parent != null && last.Height == last.Parent.Height + 1
      requires bl.txs == content(last.BlockHash) && Unspent.LastBlockHeight in Unspent.undoFiles
      modifies `last, `moves, Unspent
      ensures moves == old(moves) + [last]
      ensures DbValid() && last == old(last).Parent
      ensures Unspent.undoFiles == old(Unspent.undoFiles) - {old(last.Height)}
    {
      hide CanUndo, UndoFits, Agrees, Canonical, Notified, CoinsAt;
      ghost var m, before, db, files := CoinsAt(content, last), Unspent.notified, Unspent.HashMap, Unspent.undoFiles;
      ghost var file := files[last.Height];
      ghost var db0, adds, deled, now :| Undoes(content, last, file, db0, adds, deled, now);
      CoinsDetermineRecords(now, db, m);
      CanUndoSame(BlockAt(content, last), bl, db0, adds, deled, db);
      Unspent.UndoBlockTxs(bl, last.Parent.BlockHash, db0, adds, deled, m);
      NotifiedFromStart(before, Unspent.notified, m, db, Unspent.HashMap);
      FilesFrame(content, last.Parent, files, Unspent.undoFiles);
      last, moves := last.Parent, moves + [last.Parent];
    }

    /** UndoLastBlock panics without the block's data or its undo file. */
    method UndoLastBlock() returns (o: Outcome)
      requires Valid()
      modifies `last, `moves, Unspent
      ensures o != Diverged
      ensures o == Fine <==> old(last != root && last.Height in Unspent.undoFiles)
      ensures o == Fine ==> Valid() && last == old(last).Parent && moves == old(moves) + [last]
      ensures o == Fine ==> Unspent.undoFiles == old(Unspent.undoFiles) - {old(last.Height)}
    {
      hide TreeValid, DataValid, DbValid;
      LastFacts();
      if last.BlockHash !in Blocks.blockIndex || last.Parent == null || Unspent.LastBlockHeight !in Unspent.undoFiles {
        return Panicked;
      }
      Disconnect(Blocks.blockIndex[last.BlockHash]);
      MovedBack();
      o := Fine;
    }

    lemma LastFacts()
      requires Valid()
      ensures Unspent.LastBlockHeight == last.Height && last in nodes && (last == root <==> last.Parent == null)
      ensures last != root ==> last.Height == last.Parent.Height + 1 && last.BlockHash in Blocks.blockIndex && Blocks.blockIndex[last.BlockHash].txs == content(last.BlockHash)
    {
      hide Agrees, Canonical, FilesFit, Notified, Sane, ChildsRight, CoinsAt, Accepted;
    }

    /** The head has moved to its parent. */
    twostate lemma MovedBack()
      requires old(TreeValid() && DataValid(null)) && old(last) != root && last == old(last).Parent
      requires nodes == old(nodes) && BlockIndex == old(BlockIndex) && unchanged(Blocks)
      requires forall n :: n in nodes ==> n.Childs == old(n.Childs) && n.BlockSize == old(n.BlockSize) && n.TxCount == old(n.TxCount)
      ensures TreeValid() && DataValid(null)
    {
      hide Sane;
      forall n | n in nodes
        ensures ChildsRight(nodes, n)
      {
        assert old(ChildsRight(nodes, n));
      }
      hide ChildsRight;
      forall n | n in nodes && n != root && Ancestor(n, last)
        ensures n.BlockSize > 0
      {
        assert Ancestor(n, old(last));
      }
    }

    /** The second half of MoveToBlock: undoes blocks one by one until the last one is fork, unless aborted. */
    method UndoTo(fork: BlockTreeNode) returns (o: Outcome, aborted: bool)
      requires Valid() && Ancestor(fork, last)
      modifies `last, `moves, Unspent
      ensures o != Diverged && (aborted ==> mayAbort && o == Fine)
      ensures o == Fine ==> Valid() && Ancestor(fork, last) && Ancestor(last, old(last)) && (!aborted ==> last == fork)
      ensures o == Fine ==> moves == old(moves) + Down(old(last), last)
      ensures o == Fine ==> Unspent.undoFiles.Keys == FilesDown(old(Unspent.undoFiles.Keys), last.Height, old(last).Height)
      ensures !aborted ==> (o == Fine <==> HasUndo(old(Unspent.undoFiles.Keys), fork.Height, old(last).Height))
    {
      hide DataValid, DbValid, ChildsRight, ParentTree, Sane, Ancestor;
      o, aborted := Fine, false;
      SelfAncestor(last);
      while last != fork
        invariant Valid() && Ancestor(fork, last) && Ancestor(last, old(last)) && !aborted && o == Fine
        invariant moves == old(moves) + Down(old(last), last)
        invariant last.Height <= old(last).Height
        invariant Unspent.undoFiles.Keys == FilesDown(old(Unspent.undoFiles.Keys), last.Height, old(last).Height)
        invariant HasUndo(old(Unspent.undoFiles.Keys), last.Height, old(last).Height)
        decreases last.Height
      {
        if mayAbort {
          aborted := *;
        }
        if aborted {
          return;
        }
        OneDown(root, nodes, fork, last, old(last));
        DownStep(old(last), last);
        AncestorHeight(last, old(last));
        o := UndoLastBlock();
        if o != Fine {
          return;
        }
      }
    }

    /** OnActiveBranch: dst lies on the way from the head to the genesis block. */
    method OnActiveBranch(dst: BlockTreeNode) returns (on: bool)
      requires TreeValid() && dst in nodes
      ensures on <==> Ancestor(dst, last)
    {
      hide ChildsRight, Sane;
      var top := last;
      while true
        invariant top in nodes && (Ancestor(dst, last) <==> Ancestor(dst, top))
        decreases top.Height
      {
        if dst == top {
          return true;
        }
        if dst.Height >= top.Height {
          if Ancestor(dst, top) {
            AncestorHeight(dst, top);
          }
          return false;
        }
        top := top.Parent;
      }
    }

    ghost predicate AllData(ns: set<BlockTreeNode>)
      reads ns`BlockSize
    {
      forall n :: n in ns && n != root ==> n.BlockSize > 0
    }

    /** The block of n is right on top of its parent, with its scripts looked at. */
    ghost predicate Good(n: BlockTreeNode) {
      n.Parent != null && |content(n.BlockHash)| >= 1 ==> BlockOk(CoinsAt(content, n.Parent), BlockAt(content, n), n.Height, env)
    }

    /** The blocks above a on the way to b are good. */
    ghost predicate GoodWay(ns: set<BlockTreeNode>, a: BlockTreeNode, b: BlockTreeNode) {
      forall n :: n in ns && Ancestor(a, n) && n != a && Ancestor(n, b) ==> Good(n)
    }

    /** Whatever has left the tree is a bad block or stood above one. */
    ghost predicate OnlyBadLeft(was: set<BlockTreeNode>, now: set<BlockTreeNode>) {
      now <= was && forall n :: n in was && n !in now ==> exists b :: b in was && Ancestor(b, n) && !Good(b)
    }

    ghost predicate Farthest(ns: set<BlockTreeNode>, n: BlockTreeNode) {
      n in ns && forall x :: x in ns ==> x.Height <= n.Height
    }

    /** n is a farthest node, or cannot go to one, having only the genesis block in common with it. */
    ghost predicate Settled(ns: set<BlockTreeNode>, n: BlockTreeNode) {
      exists f :: f in ns && Farthest(ns, f) && (f == n || HighestCommon(ns, root, f, n))
    }

    // Where moves end.

    /** The block of n, as the store has it, is right on top of its parent. */
    ghost predicate Passes(bs: map<nat, Block>, n: BlockTreeNode) {
      && n.Parent != null && n.BlockHash in bs && |bs[n.BlockHash].txs| >= 1
      && BlockOk(CoinsAt(content, n.Parent), bs[n.BlockHash], n.Height, env)
    }

    ghost predicate SamePasses(bs: map<nat, Block>, bs': map<nat, Block>, ns: set<BlockTreeNode>) {
      forall n :: n in ns ==> (Passes(bs, n) <==> Passes(bs', n))
    }

    /** The way up ends below n. */
    ghost predicate Stops(bs: map<nat, Block>, n: BlockTreeNode)
      reads n`BlockSize
    {
      n.BlockSize == 0 || !Passes(bs, n)
    }

    ghost predicate ClearWay(bs: map<nat, Block>, ns: set<BlockTreeNode>, a: BlockTreeNode, b: BlockTreeNode)
      reads ns`BlockSize
    {
      forall x :: x in ns && Ancestor(a, x) && x != a && Ancestor(x, b) ==> !Stops(bs, x)
    }

    /** The first node above a, on the way to b, that has no data or does not pass. */
    ghost predicate FirstStop(bs: map<nat, Block>, ns: set<BlockTreeNode>, a: BlockTreeNode, b: BlockTreeNode, bad: BlockTreeNode)
      reads ns`BlockSize
    {
      && bad in ns && bad.Parent != null && bad.Parent in ns && bad.Height == bad.Parent.Height + 1
      && Ancestor(a, bad.Parent) && Ancestor(bad, b) && Stops(bs, bad) && ClearWay(bs, ns, a, bad.Parent)
    }

    /** The block of bad is there but does not pass, and its branch cannot be taken away. */
    ghost predicate Sticks(bs: map<nat, Block>, saved: set<nat>, ns: set<BlockTreeNode>, bad: BlockTreeNode)
      reads bad`BlockSize
    {
      bad.BlockSize > 0 && Breaks(bs, saved, ns, bad, 1)
    }

    /** The store after a way up from a that bad has stopped: blocks connected are trusted, and its branch has been called invalid. */
    ghost function StoreAfter(bs: map<nat, Block>, saved: set<nat>, ns: set<BlockTreeNode>, a: BlockTreeNode, bad: BlockTreeNode): map<nat, Block>
      requires bad.Parent != null
      reads bad`BlockSize
    {
      var up := TrustedUp(bs, a, bad.Parent);
      if bad.BlockSize == 0 then up else Marked(up, saved, Called(ns, bad, 1))
    }

    /** The next attempt: a bad block has gone, with all above it, and the target is a farthest node left. */
    ghost predicate AfterStop(r: Round, files: set<nat>, a: BlockTreeNode, bad: BlockTreeNode, next: Round)
      reads bad`BlockSize
    {
      && bad.Parent != null && next.from == bad.Parent && !Sticks(r.bs, r.saved, r.ns, bad)
      && next.ns == (if bad.BlockSize == 0 then r.ns else r.ns - Subtree(r.ns, bad))
      && next.files == FilesUp(files, a.Height, bad.Parent.Height, r.dst.Height)
      && next.bs == StoreAfter(r.bs, r.saved, r.ns, a, bad) && next.saved == r.saved
      && Farthest(next.ns, next.dst)
    }

    ghost predicate Follows(r: Round, next: Round)
      reads r.ns`BlockSize, r.ns`TxCount
    {
      exists hca, bad :: hca in r.ns && bad in r.ns
        && HighestCommon(r.ns, hca, r.dst, r.from) && !Blocked(root, r.ns, hca, r.dst, r.from)
        && HasUndo(r.files, hca.Height, r.from.Height) && FirstStop(r.bs, r.ns, hca, r.dst, bad)
        && AfterStop(r, FilesDown(r.files, hca.Height, r.from.Height), hca, bad, next)
    }

    /** The way down is open, but the undo files for it are not all there. */
    ghost predicate Lacks(r: Round)
      reads r.ns`TxCount
    {
      exists hca :: hca in r.ns && HighestCommon(r.ns, hca, r.dst, r.from)
        && !Blocked(root, r.ns, hca, r.dst, r.from) && !HasUndo(r.files, hca.Height, r.from.Height)
    }

    /** The way down is open and has its undo files, but the first block on the way up that does not pass cannot be taken away. */
    ghost predicate Jams(r: Round)
      reads r.ns`BlockSize, r.ns`TxCount
    {
      exists hca, bad :: hca in r.ns && bad in r.ns
        && HighestCommon(r.ns, hca, r.dst, r.from) && !Blocked(root, r.ns, hca, r.dst, r.from)
        && HasUndo(r.files, hca.Height, r.from.Height) && FirstStop(r.bs, r.ns, hca, r.dst, bad) && Sticks(r.bs, r.saved, r.ns, bad)
    }

    /** The move is refused, or nothing is in its way. */
    ghost predicate Ends(r: Round)
      reads r.ns`BlockSize, r.ns`TxCount
    {
      exists hca :: hca in r.ns && HighestCommon(r.ns, hca, r.dst, r.from)
        && (Blocked(root, r.ns, hca, r.dst, r.from)
            || (HasUndo(r.files, hca.Height, r.from.Height) && ClearWay(r.bs, r.ns, hca, r.dst)))
    }

    /** The attempts of a move, one after the other, and how the last one ends. */
    ghost predicate Trace(ns: set<BlockTreeNode>, rounds: seq<Round>, o: Outcome)
      reads ns`BlockSize, ns`TxCount
    {
      && |rounds| >= 1 && (forall i :: 0 <= i < |rounds| ==> rounds[i].ns <= ns)
      && (forall i :: 1 <= i < |rounds| ==> Follows(rounds[i - 1], rounds[i]))
      && (o == Panicked ==> Lacks(rounds[|rounds| - 1]) || Jams(rounds[|rounds| - 1]))
      && (!mayAbort && o == Fine ==> Ends(rounds[|rounds| - 1]))
    }

    lemma EndsHasAll(r: Round)
      requires Ends(r)
      ensures !Lacks(r) && !Jams(r)
    {
      hide HighestCommon, Blocked, HasUndo, Stops, Sticks, Ancestor;
      var hca :| hca in r.ns && HighestCommon(r.ns, hca, r.dst, r.from)
        && (Blocked(root, r.ns, hca, r.dst, r.from)
            || (HasUndo(r.files, hca.Height, r.from.Height) && ClearWay(r.bs, r.ns, hca, r.dst)));
      HighestCommonUnique(r.ns, hca, r.dst, r.from);
      if Jams(r) {
        var bad :| bad in r.ns && FirstStop(r.bs, r.ns, hca, r.dst, bad);
        AboveParent(hca, bad);
      }
    }

    lemma TraceLonger(ns: set<BlockTreeNode>, first: Round, rounds: seq<Round>, o: Outcome)
      requires Trace(ns, rounds, o) && first.ns <= ns && Follows(first, rounds[0])
      ensures Trace(ns, [first] + rounds, o)
    {
      hide Follows, Ends, Lacks, Jams;
      var all := [first] + rounds;
      forall i | 1 <= i < |all|
        ensures Follows(all[i - 1], all[i])
      {
        assert all[i] == rounds[i - 1] && (i > 1 ==> all[i - 1] == rounds[i - 2]);
      }
    }

    lemma TraceWithin(ns: set<BlockTreeNode>, now: set<BlockTreeNode>, rounds: seq<Round>, o: Outcome)
      requires Trace(now, rounds, o) && now <= ns
      ensures Trace(ns, rounds, o)
    {
      hide Follows, Ends, Lacks, Jams;
    }

    lemma TraceOne(ns: set<BlockTreeNode>, r: Round, o: Outcome)
      requires r.ns <= ns && (o == Panicked ==> Lacks(r) || Jams(r)) && (!mayAbort && o == Fine ==> Ends(r))
      ensures Trace(ns, [r], o)
    {
      hide Ends, Lacks, Jams;
    }

    lemma ClearStep(bs: map<nat, Block>, ns: set<BlockTreeNode>, a: BlockTreeNode, n: BlockTreeNode, nxt: BlockTreeNode)
      requires ClearWay(bs, ns, a, n) && nxt.Parent == n && nxt.Height == n.Height + 1 && !Stops(bs, nxt)
      ensures ClearWay(bs, ns, a, nxt)
    {
      hide Passes;
    }

    lemma ClearStart(bs: map<nat, Block>, ns: set<BlockTreeNode>, a: BlockTreeNode)
      ensures ClearWay(bs, ns, a, a)
    {
      hide Passes;
      forall x | x in ns && Ancestor(a, x) && Ancestor(x, a)
        ensures x == a
      {
        AncestorHeight(a, x);
        AncestorHeight(x, a);
      }
    }

    /** A block that has passed and is trusted now passes again; the others are as they were. */
    lemma TrustedPasses(bs: map<nat, Block>, nxt: BlockTreeNode, ns: set<BlockTreeNode>)
      requires nxt in ns && Passes(bs, nxt) && OneEach(ns)
      ensures nxt.BlockHash in bs && SamePasses(bs, Trust(bs, nxt.BlockHash), ns)
    {
      hide TxsOk, ScriptsOk, CoinsAt;
    }

    lemma GoodIsOk(n: BlockTreeNode, bl: Block)
      requires Good(n) && n.Parent != null && bl.txs == content(n.BlockHash) && |bl.txs| >= 1
      ensures BlockOk(CoinsAt(content, n.Parent), bl, n.Height, env)
    {
      hide TxsOk, ScriptsOk, CoinsAt;
    }

    /** A bad block on the way up: it and all above it leave. */
    lemma BadCut(ns: set<BlockTreeNode>, start: BlockTreeNode, nxt: BlockTreeNode, end: BlockTreeNode)
      requires nxt in ns && nxt.Parent != null && nxt.Height == nxt.Parent.Height + 1 && !Good(nxt)
      requires Ancestor(start, nxt.Parent) && Ancestor(nxt, end)
      ensures !GoodWay(ns, start, end) && OnlyBadLeft(ns, ns - Subtree(ns, nxt))
    {
      hide Good;
      AncestorHeight(start, nxt.Parent);
      assert Ancestor(start, nxt);
    }

    lemma LeftThen(was: set<BlockTreeNode>, mid: set<BlockTreeNode>, now: set<BlockTreeNode>)
      requires OnlyBadLeft(was, mid) && OnlyBadLeft(mid, now)
      ensures OnlyBadLeft(was, now)
    {
      hide Good, Ancestor;
      forall n | n in was && n !in now
        ensures exists b :: b in was && Ancestor(b, n) && !Good(b)
      {
        if n in mid {
          var b :| b in mid && Ancestor(b, n) && !Good(b);
        }
      }
    }

    /** Where all data is there, only the genesis block can stand in the way. */
    lemma AllBlockedAtRoot(dst: BlockTreeNode)
      requires TreeValid() && DataValid(null)
      ensures AllData(nodes) ==> forall hca :: hca in nodes && HighestCommon(nodes, hca, dst, last) && Blocked(root, nodes, hca, dst, last) ==> hca == root
    {
      hide HighestCommon, ChildsRight, Sane;
      if AllData(nodes) {
        forall hca | hca in nodes && HighestCommon(nodes, hca, dst, last) && Blocked(root, nodes, hca, dst, last)
          ensures hca == root
        {
          CommonBelow(nodes, hca, dst, last);
          if !Open(nodes, hca, dst) {
            var x :| x in nodes && Ancestor(hca, x) && Ancestor(x, dst) && x != dst && x.TxCount == 0;
            assert x == root;
          }
        }
      }
    }

    /** One round of ParseTillBlock. The block store has what it needs, so the panic behind BlockGet is out of reach. */
    method ConnectNext(nxt: BlockTreeNode, end: BlockTreeNode) returns (s: Step)
      requires Valid() && nxt in nodes && nxt.Parent == last && nxt.Height == last.Height + 1
      modifies `last, `moves, Blocks`blockIndex, `BlockIndex, `nodes, nodes`Childs, Unspent
      ensures s != Broken ==> Valid() && (old(IndexExact()) ==> IndexExact()) && IndexKept(old(BlockIndex), old(nodes), BlockIndex, nodes)
      ensures moves == if s == Connected then old(moves) + [nxt] else old(moves)
      ensures s == NotYet <==> nxt.BlockSize == 0
      ensures s == Connected ==> last == nxt && nodes == old(nodes)
      ensures s != Connected ==> last == old(last) && unchanged(Unspent)
      ensures s == NotYet || s == Broken ==> nodes == old(nodes)
      ensures s == Rejected ==> nodes == old(nodes) - Subtree(old(nodes), nxt) && |nodes| < |old(nodes)|
      ensures s != NotYet ==> nxt.BlockHash in old(Blocks.blockIndex) && |content(nxt.BlockHash)| >= 1
      ensures s != NotYet ==> (s == Connected <==> BlockOk(CoinsAt(content, old(last)), old(Blocks.blockIndex)[nxt.BlockHash], nxt.Height, env))
      ensures s == Rejected || s == Broken ==> !Good(nxt) && (s == Broken <==> Sticks(old(Blocks.blockIndex), Blocks.saved, old(nodes), nxt))
      ensures s == Connected <==> !Stops(old(Blocks.blockIndex), nxt)
      ensures s == Connected ==> Blocks.blockIndex == Trust(old(Blocks.blockIndex), nxt.BlockHash)
      ensures s == NotYet ==> unchanged(Blocks)
      ensures s == Rejected ==> Blocks.blockIndex == Marked(old(Blocks.blockIndex), Blocks.saved, Called(old(nodes), nxt, 1))
      ensures s != Broken ==> SamePasses(old(Blocks.blockIndex), Blocks.blockIndex, nodes)
      ensures Unspent.undoFiles.Keys
           == if s == Connected then FilesNext(old(Unspent.undoFiles.Keys), nxt.Height, end.Height) else old(Unspent.undoFiles.Keys)
    {
      hide TreeValid, DataValid, DbValid, Sane, BlockOk, Ready, Subtree, IndexExact, IndexKept, Ancestor, Good, SamePasses, BlockDB.Valid, Breaks, Called, Marked, OneEach;
      IndexSame(BlockIndex, nodes);
      Stored(nxt);
      OneHash();
      AllSame(Blocks.blockIndex, nodes);
      if nxt.BlockSize == 0 {
        return NotYet;
      }
      var bl := Blocks.blockIndex[nxt.BlockHash];
      var changes, e;
      ghost var pool;
      changes, e, pool := ProcessBlockTransactions(bl, nxt, end.Height);
      if e.Err? {
        ghost var bs, ns := Blocks.blockIndex, nodes;
        if Good(nxt) {
          GoodIsOk(nxt, bl);
        }
        SelfInSubtree(nodes, nxt);
        Fewer(nodes, Subtree(nodes, nxt));
        var ok := DeleteBranch(nxt);
        if !ok {
          return Broken;
        }
        PassesOutside(bs, Blocks.saved, ns, nxt);
        return Rejected;
      }
      TrustedPasses(Blocks.blockIndex, nxt, nodes);
      if !bl.trusted {
        BlockTrusted(nxt.BlockHash);
      } else {
        TrustedAlready(Blocks.blockIndex, nxt.BlockHash);
      }
      Advance(nxt, changes, pool);
      s := Connected;
    }

    lemma TrustedAlready(bs: map<nat, Block>, h: nat)
      requires h in bs && bs[h].trusted
      ensures Trust(bs, h) == bs
    {
    }

    /** Taking a branch away changes nothing for the blocks outside it. */
    lemma PassesOutside(bs: map<nat, Block>, saved: set<nat>, ns: set<BlockTreeNode>, top: BlockTreeNode)
      requires OneEach(ns)
      ensures SamePasses(bs, Marked(bs, saved, Called(ns, top, 1)), ns - Subtree(ns, top))
    {
      hide BlockOk, OneEach, Called, Marked, Subtree;
      forall n | n in ns - Subtree(ns, top)
        ensures Passes(bs, n) <==> Passes(Marked(bs, saved, Called(ns, top, 1)), n)
      {
        MarkedOutside(bs, saved, ns, top, 1, n);
      }
    }

    lemma AllSame(bs: map<nat, Block>, ns: set<BlockTreeNode>)
      ensures SamePasses(bs, bs, ns)
    {
    }

    method BlockTrusted(hash: nat)
      requires DataValid(null) && hash in Blocks.blockIndex
      modifies Blocks`blockIndex
      ensures DataValid(null) && Blocks.blockIndex == Trust(old(Blocks.blockIndex), hash)
    {
      hide Ancestor, BlockDB.Valid;
      Blocks.BlockTrusted(hash);
    }

    lemma Stored(n: BlockTreeNode)
      requires TreeValid() && DataValid(null) && n in nodes && n.Parent == last && n.Height == last.Height + 1
      ensures n.BlockSize > 0 ==> n.BlockHash in Blocks.blockIndex && Blocks.blockIndex[n.BlockHash].hash == n.BlockHash && Blocks.blockIndex[n.BlockHash].txs == content(n.BlockHash)
      ensures Sane(content, n) && !Ancestor(n, last)
    {
      hide Sane;
      if Ancestor(n, last) {
        AncestorHeight(n, last);
      }
    }

    /** The head has moved to a child that has data. */
    twostate lemma Moved(nxt: BlockTreeNode)
      requires old(TreeValid() && DataValid(null)) && nxt in nodes && nxt.Parent == old(last) && last == nxt && nxt.BlockSize > 0
      requires nodes == old(nodes) && BlockIndex == old(BlockIndex)
      requires forall n :: n in nodes ==> n.Childs == old(n.Childs) && n.BlockSize == old(n.BlockSize) && n.TxCount == old(n.TxCount)
      requires unchanged(Blocks)
      ensures TreeValid() && DataValid(null)
    {
      hide Sane;
      forall n | n in nodes
        ensures ChildsRight(nodes, n)
      {
        assert old(ChildsRight(nodes, n));
      }
      hide ChildsRight;
      forall n | n in nodes && n != root && Ancestor(n, last)
        ensures n.BlockSize > 0
      {
        assert n == last || Ancestor(n, old(last));
      }
    }

    /**
     * What comes of a walk up from a, on the way to r's target, with these undo files at its beginning: the attempts that
     * follow, if a block stops it.
     */
    ghost predicate Retries(r: Round, files: set<nat>, a: BlockTreeNode, rounds: seq<Round>, o: Outcome)
      reads r.ns`BlockSize, r.ns`TxCount
    {
      if rounds == [] then
        && (o == Panicked ==> exists bad :: bad in r.ns && FirstStop(r.bs, r.ns, a, r.dst, bad) && Sticks(r.bs, r.saved, r.ns, bad))
        && (!mayAbort && o == Fine ==> ClearWay(r.bs, r.ns, a, r.dst))
      else
        && Trace(r.ns, rounds, o)
        && exists bad :: bad in r.ns && FirstStop(r.bs, r.ns, a, r.dst, bad) && AfterStop(r, files, a, bad, rounds[0])
    }

    /** The state as an attempt to go to dst finds it. */
    ghost function Now(dst: BlockTreeNode): Round
      reads this, Unspent, Blocks
    {
      Round(nodes, dst, last, Unspent.undoFiles.Keys, Blocks.blockIndex, Blocks.saved)
    }

    /**
     * ParseTillBlock: connects the blocks on the way to end. A block that fails takes its branch away, and then the
     * chain moves to the farthest node left.
     */
    method ParseTillBlock(end: BlockTreeNode, fuel: nat) returns (o: Outcome, ghost rounds: seq<Round>)
      requires Valid() && end in nodes && Ancestor(last, end)
      modifies `last, `moves, Blocks`blockIndex, `BlockIndex, `nodes, nodes`Childs, Unspent
      ensures o != Panicked ==> Valid() && (old(IndexExact()) ==> IndexExact()) && old(moves) <= moves
      ensures o != Panicked ==> IndexKept(old(BlockIndex), old(nodes), BlockIndex, nodes)
      ensures nodes <= old(nodes) && OnlyBadLeft(old(nodes), nodes)
      ensures o != Panicked ==> SamePasses(old(Blocks.blockIndex), Blocks.blockIndex, nodes)
      ensures Retries(old(Now(end)), old(Unspent.undoFiles.Keys), old(last), rounds, o)
      ensures old(AllData(nodes)) && !mayAbort && GoodWay(old(nodes), old(last), end) ==> o == Fine && last == end && nodes == old(nodes)
      ensures old(AllData(nodes)) && !mayAbort && o == Fine ==> last == end || (nodes != old(nodes) && Settled(nodes, last))
      ensures old(AllData(nodes)) && fuel > |old(nodes)| ==> o != Diverged
      decreases fuel, 0
    {
      hide DbValid, DataValid, Sane, ChildsRight, IndexExact, IndexKept, Ancestor, GoodWay, OnlyBadLeft, AllData, Settled, Farthest, HighestCommon,
        TreeValid, IsTree, Subtree, Blocked, Down, HasUndo, SamePasses, ClearWay, FirstStop, AfterStop, Trace, FilesUp, Retries, Valid, Passes,
        ParentTree, Good, Ends, Lacks, Jams, Sticks, Refused, StoreAfter;
      rounds := [];
      ghost var r, ns := Now(end), nodes;
      var s, aborted;
      ghost var bad;
      s, aborted, bad := ConnectTo(end);
      if s == Broken {
        Stuck(r, r.from, bad);
        return Panicked, [];
      }
      if aborted || last == end {
        NoRetries(r, r.from, Fine);
        return Fine, [];
      }
      if fuel == 0 {
        NoRetries(r, r.from, Diverged);
        return Diverged, [];
      }
      ghost var mid, bs', index := nodes, Blocks.blockIndex, BlockIndex;
      FewerData();
      o, rounds := Retry(fuel - 1);
      IsAfterStop(r, r.from, bad, rounds[0]);
      LeftThen(ns, mid, nodes);
      Shrunk(ns, mid, nodes);
      TraceWithin(ns, mid, rounds, o);
      if o != Panicked {
        SameThen(r.bs, bs', Blocks.blockIndex, mid, nodes);
        IndexThen(old(BlockIndex), ns, index, mid, BlockIndex, nodes);
      }
      SomeRetries(r, r.from, bad, rounds, o);
    }

    /** What ParseTillBlock does when it has not got to its end. */
    method Retry(fuel: nat) returns (o: Outcome, ghost rounds: seq<Round>)
      requires Valid()
      modifies `last, `moves, Blocks`blockIndex, `BlockIndex, `nodes, nodes`Childs, Unspent
      ensures o != Panicked ==> Valid() && (old(IndexExact()) ==> IndexExact()) && old(moves) <= moves
      ensures o != Panicked ==> IndexKept(old(BlockIndex), old(nodes), BlockIndex, nodes)
      ensures nodes <= old(nodes) && OnlyBadLeft(old(nodes), nodes)
      ensures o != Panicked ==> SamePasses(old(Blocks.blockIndex), Blocks.blockIndex, nodes)
      ensures Trace(old(nodes), rounds, o)
      ensures |rounds| >= 1 && rounds[0].ns == old(nodes) && rounds[0].from == old(last) && rounds[0].files == old(Unspent.undoFiles.Keys)
      ensures rounds[0].bs == old(Blocks.blockIndex) && rounds[0].saved == Blocks.saved && Farthest(old(nodes), rounds[0].dst)
      ensures old(AllData(nodes)) && !mayAbort && o == Fine ==> Settled(nodes, last)
      ensures old(AllData(nodes)) && fuel > |old(nodes)| ==> o != Diverged
      decreases fuel, 2
    {
      hide DbValid, DataValid, Sane, ChildsRight, IndexExact, IndexKept, Ancestor, GoodWay, OnlyBadLeft, AllData, Settled, Farthest, HighestCommon,
        TreeValid, IsTree, Subtree, Blocked, Down, HasUndo, SamePasses, Trace, Lacks, Jams, Valid;
      Standing();
      var farthest, depth := FindFarthestNode(root, nodes, root);
      SelfInSubtree(nodes, root);
      IsFarthest(farthest);
      o, rounds := MoveToBlock(farthest, fuel);
      if o != Panicked {
        Standing();
      }
      if old(AllData(nodes)) && !mayAbort && o == Fine && (last == farthest || (nodes == old(nodes) && last == old(last))) {
        SettledNow(old(nodes), nodes, farthest, last);
      }
    }

    lemma NoRetries(r: Round, a: BlockTreeNode, o: Outcome)
      requires o != Panicked && (!mayAbort && o == Fine ==> ClearWay(r.bs, r.ns, a, r.dst))
      ensures Retries(r, r.files, a, [], o)
    {
    }

    lemma Stuck(r: Round, a: BlockTreeNode, bad: BlockTreeNode)
      requires FirstStop(r.bs, r.ns, a, r.dst, bad) && Sticks(r.bs, r.saved, r.ns, bad)
      ensures Retries(r, r.files, a, [], Panicked)
    {
      hide Sticks, Stops, ClearWay;
    }

    lemma SomeRetries(r: Round, a: BlockTreeNode, bad: BlockTreeNode, rounds: seq<Round>, o: Outcome)
      requires |rounds| >= 1 && Trace(r.ns, rounds, o) && FirstStop(r.bs, r.ns, a, r.dst, bad) && AfterStop(r, r.files, a, bad, rounds[0])
      ensures Retries(r, r.files, a, rounds, o)
    {
      hide Trace, AfterStop, Stops, ClearWay;
    }

    lemma IsAfterStop(r: Round, a: BlockTreeNode, bad: BlockTreeNode, next: Round)
      requires bad.Parent != null && next.from == bad.Parent && Farthest(next.ns, next.dst) && !Sticks(r.bs, r.saved, r.ns, bad)
      requires next.ns == (if bad.BlockSize == 0 then r.ns else r.ns - Subtree(r.ns, bad))
      requires next.files == FilesUp(r.files, a.Height, bad.Parent.Height, r.dst.Height)
      requires next.bs == StoreAfter(r.bs, r.saved, r.ns, a, bad) && next.saved == r.saved
      ensures AfterStop(r, r.files, a, bad, next)
    {
    }

    /** A walk up does not depend on where the head came down from. */
    lemma SameLeg(r: Round, r': Round, files: set<nat>, a: BlockTreeNode, rounds: seq<Round>, o: Outcome)
      requires Retries(r, files, a, rounds, o) && r'.ns == r.ns && r'.dst == r.dst && r'.bs == r.bs && r'.saved == r.saved
      ensures Retries(r', files, a, rounds, o)
    {
      hide Trace, FirstStop, Sticks, ClearWay, StoreAfter, Farthest, FilesUp;
    }

    lemma Standing()
      requires Valid()
      ensures TreeValid() && last in nodes && root in nodes && IsTree(root, nodes) && ParentTree(root, nodes) && root.Parent == null
    {
    }

    lemma SameWithin(bs: map<nat, Block>, bs': map<nat, Block>, ns: set<BlockTreeNode>, now: set<BlockTreeNode>)
      requires SamePasses(bs, bs', ns) && now <= ns
      ensures SamePasses(bs, bs', now)
    {
      hide Passes;
    }

    lemma SameThen(bs: map<nat, Block>, bs1: map<nat, Block>, bs2: map<nat, Block>, ns: set<BlockTreeNode>, now: set<BlockTreeNode>)
      requires SamePasses(bs, bs1, ns) && SamePasses(bs1, bs2, now) && now <= ns
      ensures SamePasses(bs, bs2, now)
    {
      hide Passes;
    }

    lemma IsFarthest(f: BlockTreeNode)
      requires TreeValid() && f in Subtree(nodes, root) && forall x :: x in Subtree(nodes, root) ==> x.Height <= f.Height
      ensures Farthest(nodes, f)
    {
      hide Ancestor, Sane, ChildsRight;
      forall x | x in nodes
        ensures x.Height <= f.Height
      {
        RootIsAncestor(root, nodes, x);
      }
    }

    lemma SettledNow(was: set<BlockTreeNode>, now: set<BlockTreeNode>, f: BlockTreeNode, n: BlockTreeNode)
      requires Farthest(was, f) && now <= was && n in now
      requires n == f || (now == was && HighestCommon(now, root, f, n))
      ensures Settled(now, n)
    {
      hide HighestCommon;
      assert Farthest(now, f);
    }

    lemma Shrunk(was: set<BlockTreeNode>, mid: set<BlockTreeNode>, now: set<BlockTreeNode>)
      requires now <= mid <= was
      ensures |mid| < |was| ==> now != was
    {
      if now == was {
        assert mid == was;
      }
    }

    lemma NoneLeft(ns: set<BlockTreeNode>)
      ensures OnlyBadLeft(ns, ns)
    {
    }

    twostate lemma FewerData()
      requires nodes <= old(nodes) && forall n :: n in nodes ==> n.BlockSize == old(n.BlockSize)
      ensures old(AllData(nodes)) ==> AllData(nodes)
    {
    }

    /** The loop of ParseTillBlock, and the look at AbortNow behind it. */
    method ConnectTo(end: BlockTreeNode) returns (s: Step, aborted: bool, ghost bad: BlockTreeNode?)
      requires Valid() && end in nodes && Ancestor(last, end)
      modifies `last, `moves, Blocks`blockIndex, `BlockIndex, `nodes, nodes`Childs, Unspent
      ensures s != Broken ==> Valid() && (old(IndexExact()) ==> IndexExact()) && old(moves) <= moves
      ensures s != Broken ==> IndexKept(old(BlockIndex), old(nodes), BlockIndex, nodes)
      ensures nodes <= old(nodes) && OnlyBadLeft(old(nodes), nodes) && (!mayAbort ==> !aborted)
      ensures s == Rejected || s == Broken ==> !GoodWay(old(nodes), old(last), end)
      ensures s == Rejected ==> |nodes| < |old(nodes)|
      ensures s == NotYet ==> !old(AllData(nodes))
      ensures s == Connected ==> nodes == old(nodes)
      ensures s == Connected && !aborted ==> last == end && ClearWay(old(Blocks.blockIndex), old(nodes), old(last), end)
      ensures s != Connected ==> last != end
      ensures s != Connected ==> bad != null && FirstStop(old(Blocks.blockIndex), old(nodes), old(last), end, bad) && last == bad.Parent
      ensures s != Connected ==> (s == Broken <==> Sticks(old(Blocks.blockIndex), Blocks.saved, old(nodes), bad))
      ensures s == NotYet || s == Rejected ==> nodes == if bad.BlockSize == 0 then old(nodes) else old(nodes) - Subtree(old(nodes), bad)
      ensures s == NotYet || s == Rejected ==> Blocks.blockIndex == StoreAfter(old(Blocks.blockIndex), Blocks.saved, old(nodes), old(last), bad)
      ensures s == Connected ==> Blocks.blockIndex == TrustedUp(old(Blocks.blockIndex), old(last), last)
      ensures s != Broken ==> SamePasses(old(Blocks.blockIndex), Blocks.blockIndex, nodes)
      ensures Unspent.undoFiles.Keys == FilesUp(old(Unspent.undoFiles.Keys), old(last).Height, last.Height, end.Height)
    {
      hide DbValid, DataValid, TreeValid, IsTree, ParentTree, Subtree, IndexExact, IndexKept, Good, GoodWay, OnlyBadLeft, SamePasses, ClearWay, Stops,
        FilesNext, FirstStop, Valid, AllData, Refused, Sticks, StoreAfter, TrustedUp, Trust, Marked, OneEach;
      aborted, bad := false, null;
      s := Connected;
      ghost var bs, saved, ns, start := Blocks.blockIndex, Blocks.saved, nodes, last;
      SelfAncestor(last);
      RootAlone();
      NoneLeft(nodes);
      AllSame(bs, nodes);
      ClearStart(bs, nodes, last);
      NoneTrusted(bs, last);
      IndexSame(BlockIndex, nodes);
      while s == Connected && last != end
        invariant s != Broken ==> Valid() && (old(IndexExact()) ==> IndexExact()) && old(moves) <= moves
        invariant s != Broken ==> IndexKept(old(BlockIndex), old(nodes), BlockIndex, nodes)
        invariant Ancestor(start, last) && !aborted
        invariant if s == Connected then end in nodes && Ancestor(last, end) && nodes == ns && Blocks.blockIndex == TrustedUp(bs, start, last) else
          bad != null && FirstStop(bs, ns, start, end, bad) && Refused(bs, saved, ns, start, bad, s)
        invariant (s != Broken ==> SamePasses(bs, Blocks.blockIndex, nodes)) && ClearWay(bs, ns, start, last)
        invariant Unspent.undoFiles.Keys == FilesUp(old(Unspent.undoFiles.Keys), start.Height, last.Height, end.Height)
        decreases s == Connected, end.Height - last.Height
      {
        if mayAbort {
          aborted := *;
        }
        if aborted {
          return;
        }
        AncestorHeight(last, end);
        AncestorHeight(start, last);
        ghost var now, top, index := Blocks.blockIndex, last, BlockIndex;
        var nxt;
        s, nxt := ConnectOn(end);
        StopsSame(bs, now, ns, nxt);
        if s != Broken {
          SameWithin(bs, now, ns, nodes);
          SameThen(bs, now, Blocks.blockIndex, nodes, nodes);
          IndexThen(old(BlockIndex), ns, index, ns, BlockIndex, nodes);
        }
        if s == Connected {
          ClearStep(bs, ns, start, top, nxt);
          TrustedUpNext(bs, start, top, nxt);
        } else {
          bad := nxt;
          IsFirstStop(bs, ns, start, end, bad);
          IsRefused(bs, saved, ns, start, bad, s);
        }
      }
      if s != Connected {
        WhyRefused(bs, saved, ns, start, end, bad, s);
        if mayAbort && s != Broken {
          aborted := *;
        }
      }
    }

    lemma RootAlone()
      requires Valid()
      ensures root.Parent == null
    {
    }

    lemma NoneTrusted(bs: map<nat, Block>, a: BlockTreeNode)
      ensures TrustedUp(bs, a, a) == bs
    {
    }

    /** One turn of that loop. */
    method ConnectOn(end: BlockTreeNode) returns (s: Step, nxt: BlockTreeNode)
      requires Valid() && end in nodes && Ancestor(last, end) && last != end
      modifies `last, `moves, Blocks`blockIndex, `BlockIndex, `nodes, nodes`Childs, Unspent
      ensures s != Broken ==> Valid() && (old(IndexExact()) ==> IndexExact()) && old(moves) <= moves
      ensures s != Broken ==> IndexKept(old(BlockIndex), old(nodes), BlockIndex, nodes)
      ensures nxt in old(nodes) && nxt.Parent == old(last) && nxt.Parent in old(nodes) && nxt.Height == old(last).Height + 1 && Ancestor(nxt, end)
      ensures if s == Connected then last == nxt && nodes == old(nodes) && Blocks.blockIndex == Trust(old(Blocks.blockIndex), nxt.BlockHash)
              else last == old(last) && Refuses(old(Blocks.blockIndex), Blocks.saved, old(nodes), nxt, s)
      ensures ParentTree(root, old(nodes)) && OneEach(old(nodes)) && root.Parent == null
      ensures s == Connected <==> !Stops(old(Blocks.blockIndex), nxt)
      ensures s != Broken ==> SamePasses(old(Blocks.blockIndex), Blocks.blockIndex, nodes)
      ensures Unspent.undoFiles.Keys
           == if s == Connected then FilesNext(old(Unspent.undoFiles.Keys), nxt.Height, end.Height) else old(Unspent.undoFiles.Keys)
    {
      hide DbValid, DataValid, TreeValid, IsTree, ParentTree, Subtree, IndexExact, IndexKept, Good, SamePasses, Stops, FilesNext, Valid, BlockOk, Sticks, Marked,
        Called, OneEach, Trust;
      Standing();
      OneHash();
      nxt := FindPathTo(root, nodes, last, end);
      Next(root, nodes, nxt);
      s := ConnectNext(nxt, end);
    }

    /** What a turn that does not connect bad leaves of the tree and the store it finds. */
    ghost predicate Refuses(bs: map<nat, Block>, saved: set<nat>, ns: set<BlockTreeNode>, bad: BlockTreeNode, s: Step)
      reads `nodes, `last, Blocks, bad`BlockSize
    {
      && last == bad.Parent
      && s == (if bad.BlockSize == 0 then NotYet else if Sticks(bs, saved, ns, bad) then Broken else Rejected)
      && (s != NotYet ==> !Good(bad))
      && (s == NotYet ==> nodes == ns && Blocks.blockIndex == bs)
      && (s == Rejected ==> nodes == ns - Subtree(ns, bad) && |nodes| < |ns| && Blocks.blockIndex == Marked(bs, saved, Called(ns, bad, 1)))
      && (s == Broken ==> nodes == ns)
    }

    /** The same, seen from the beginning of the walk. */
    ghost predicate Refused(bs: map<nat, Block>, saved: set<nat>, ns: set<BlockTreeNode>, a: BlockTreeNode, bad: BlockTreeNode, s: Step)
      reads `nodes, `last, Blocks, bad`BlockSize
    {
      && last == bad.Parent && bad.Parent != null
      && s == (if bad.BlockSize == 0 then NotYet else if Sticks(bs, saved, ns, bad) then Broken else Rejected)
      && (s != NotYet ==> !Good(bad))
      && (s != Broken ==> Blocks.blockIndex == StoreAfter(bs, saved, ns, a, bad))
      && nodes == (if s == Rejected then ns - Subtree(ns, bad) else ns) && (s == Rejected ==> |nodes| < |ns|)
    }

    lemma IsRefused(bs: map<nat, Block>, saved: set<nat>, ns: set<BlockTreeNode>, a: BlockTreeNode, bad: BlockTreeNode, s: Step)
      requires bad in ns && bad.Parent != null && OneEach(ns) && ParentTree(root, ns)
      requires Refuses(TrustedUp(bs, a, bad.Parent), saved, ns, bad, s)
      ensures Refused(bs, saved, ns, a, bad, s)
    {
      hide OneEach, ParentTree, Breaks, Good, TrustedUp, Marked, Called, Subtree;
      BreaksSame(bs, saved, root, ns, a, bad);
    }

    lemma WhyRefused(bs: map<nat, Block>, saved: set<nat>, ns: set<BlockTreeNode>, a: BlockTreeNode, b: BlockTreeNode, bad: BlockTreeNode, s: Step)
      requires FirstStop(bs, ns, a, b, bad) && Refused(bs, saved, ns, a, bad, s)
      ensures nodes <= ns && OnlyBadLeft(ns, nodes) && last != b && last == bad.Parent && s != Connected
      ensures s == Rejected || s == Broken ==> !GoodWay(ns, a, b)
      ensures s == Rejected ==> |nodes| < |ns|
      ensures s == NotYet && root.Parent == null ==> !AllData(ns)
      ensures s == Broken <==> Sticks(bs, saved, ns, bad)
      ensures s != Broken ==> nodes == if bad.BlockSize == 0 then ns else ns - Subtree(ns, bad)
      ensures s != Broken ==> Blocks.blockIndex == StoreAfter(bs, saved, ns, a, bad)
    {
      hide Good, Stops, ClearWay, Subtree, StoreAfter, Breaks;
      AncestorHeight(bad, b);
      NoneLeft(ns);
      if s != NotYet {
        BadCut(ns, a, bad, b);
      }
    }

    lemma IsFirstStop(bs: map<nat, Block>, ns: set<BlockTreeNode>, a: BlockTreeNode, b: BlockTreeNode, bad: BlockTreeNode)
      requires bad in ns && bad.Parent != null && bad.Parent in ns && bad.Height == bad.Parent.Height + 1
      requires Ancestor(a, bad.Parent) && Ancestor(bad, b) && Stops(bs, bad) && ClearWay(bs, ns, a, bad.Parent)
      ensures FirstStop(bs, ns, a, b, bad)
    {
    }

    lemma StopsSame(bs: map<nat, Block>, bs': map<nat, Block>, ns: set<BlockTreeNode>, n: BlockTreeNode)
      requires SamePasses(bs, bs', ns) && n in ns
      ensures Stops(bs, n) <==> Stops(bs', n)
    {
      hide Passes;
    }

    lemma ReadyToFork()
      requires TreeValid() && DataValid(null)
      ensures ParentTree(root, nodes) && root.Height == 0 && last in nodes
      ensures root.TxCount == 0 && forall n :: n in nodes && n != root && Ancestor(n, last) ==> n.TxCount > 0
    {
      hide Ancestor, ChildsRight;
    }

    /**
     * MoveToBlock as far as its undoing loop. If the way to dst is open, the head goes down to the highest block it has
     * in common with dst, and no further; AbortNow can stop it on the way.
     */
    method MoveDown(dst: BlockTreeNode) returns (o: Outcome, ready: bool, ghost hca: BlockTreeNode)
      requires Valid() && dst in nodes
      modifies `last, `moves, Unspent
      ensures o != Diverged && HighestCommon(nodes, hca, dst, old(last))
      ensures old(Blocked(root, nodes, hca, dst, last)) ==> o == Fine && !ready && last == old(last) && moves == old(moves) && unchanged(Unspent)
      ensures o == Fine ==> Valid() && Ancestor(last, old(last)) && moves == old(moves) + Down(old(last), last)
      ensures ready ==> o == Fine && last == hca && Ancestor(last, dst)
      ensures ready ==> Unspent.undoFiles.Keys == FilesDown(old(Unspent.undoFiles.Keys), hca.Height, old(last).Height)
      ensures ready || o == Panicked || !mayAbort ==>
        && (ready <==> old(!Blocked(root, nodes, hca, dst, last)) && HasUndo(old(Unspent.undoFiles.Keys), hca.Height, old(last).Height))
        && (o == Panicked <==> old(!Blocked(root, nodes, hca, dst, last)) && !HasUndo(old(Unspent.undoFiles.Keys), hca.Height, old(last).Height))
    {
      hide TreeValid, DataValid, DbValid, Ancestor, HighestCommon, Blocked, HasUndo;
      ready := false;
      o := Fine;
      ReadyToFork();
      var fork;
      fork, hca := FindFork(root, nodes, dst, last);
      CommonBelow(nodes, hca, dst, last);
      if fork == null {
        SelfAncestor(last);
        return;
      }
      var aborted;
      o, aborted := UndoTo(fork);
      ready := o == Fine && !aborted;
    }

    /**
     * MoveToBlock. rounds tells its attempts: the first one, and one after each block that stops the way up. It panics if
     * and only if the last of them has an open way down and either lacks undo files for it, or is stopped by a block that
     * cannot be taken away; otherwise that one is refused or goes through. With the blocks on the way good, their data there
     * and the undo files for the way down, it gets to dst at once; in any case only bad blocks leave the tree, and what is
     * above them.
     */
    method MoveToBlock(dst: BlockTreeNode, fuel: nat) returns (o: Outcome, ghost rounds: seq<Round>)
      requires Valid() && dst in nodes
      modifies `last, `moves, Blocks`blockIndex, `BlockIndex, `nodes, nodes`Childs, Unspent
      ensures o != Panicked ==> Valid() && (old(IndexExact()) ==> IndexExact()) && old(moves) <= moves
      ensures o != Panicked ==> IndexKept(old(BlockIndex), old(nodes), BlockIndex, nodes)
      ensures nodes <= old(nodes) && OnlyBadLeft(old(nodes), nodes)
      ensures o != Panicked ==> SamePasses(old(Blocks.blockIndex), Blocks.blockIndex, nodes)
      ensures Trace(old(nodes), rounds, o)
      ensures |rounds| >= 1 && rounds[0] == old(Now(dst))
      ensures !mayAbort && o != Diverged ==> (o == Panicked <==> Lacks(rounds[|rounds| - 1]) || Jams(rounds[|rounds| - 1]))
      ensures !mayAbort && Lacks(rounds[0]) ==> o == Panicked && |rounds| == 1
      ensures forall hca :: hca in old(nodes) && HighestCommon(old(nodes), hca, dst, old(last)) && old(Blocked(root, nodes, hca, dst, last)) ==>
        && o == Fine && last == old(last) && moves == old(moves) && nodes == old(nodes) && BlockIndex == old(BlockIndex)
        && unchanged(Unspent) && unchanged(Blocks)
      ensures o != Panicked ==> forall hca :: hca in old(nodes) && HighestCommon(old(nodes), hca, dst, old(last)) && old(!Blocked(root, nodes, hca, dst, last)) ==>
        var went := moves[|old(moves)|..];
        Down(old(last), hca) <= went || (Ancestor(last, old(last)) && went == Down(old(last), last))
      ensures old(AllData(nodes)) ==> forall hca :: hca in old(nodes) && HighestCommon(old(nodes), hca, dst, old(last)) && hca != root ==>
        (!mayAbort && HasUndo(old(Unspent.undoFiles.Keys), hca.Height, old(last).Height) && GoodWay(old(nodes), hca, dst) ==>
          o == Fine && last == dst && nodes == old(nodes))
      ensures old(AllData(nodes)) && !mayAbort && o == Fine ==>
        || last == dst
        || (nodes != old(nodes) && Settled(nodes, last))
        || (nodes == old(nodes) && last == old(last) && HighestCommon(nodes, root, dst, last))
      ensures old(AllData(nodes)) && fuel > |old(nodes)| ==> o != Diverged
      decreases fuel, 1
    {
      hide TreeValid, DataValid, DbValid, Ancestor, IndexExact, IndexKept, HighestCommon, Blocked, AllData, GoodWay, HasUndo, Settled, Good, OnlyBadLeft,
        SamePasses, Trace, Lacks, Jams, Ends, Retries, FilesDown;
      NoneLeft(nodes);
      IndexSame(BlockIndex, nodes);
      AllSame(Blocks.blockIndex, nodes);
      var ready;
      ghost var hca;
      ghost var first := Now(dst);
      AllBlockedAtRoot(dst);
      o, ready, hca := MoveDown(dst);
      HighestCommonUnique(nodes, hca, dst, old(last));
      CommonBelow(nodes, hca, dst, old(last));
      if !ready {
        rounds := [first];
        OneRound(first, hca, o);
        return;
      }
      ghost var more, leg := [], Now(dst);
      o, more := ParseTillBlock(dst, fuel);
      rounds := [first] + more;
      SameLeg(leg, first, FilesDown(first.files, hca.Height, first.from.Height), hca, more, o);
      RoundsAre(first, hca, more, o);
    }

    /** The attempt has come to its end on the way down. */
    lemma OneRound(r: Round, hca: BlockTreeNode, o: Outcome)
      requires HighestCommon(r.ns, hca, r.dst, r.from) && hca in r.ns && o != Diverged
      requires o == Panicked ==> !Blocked(root, r.ns, hca, r.dst, r.from) && !HasUndo(r.files, hca.Height, r.from.Height)
      requires o == Fine && !mayAbort ==> Blocked(root, r.ns, hca, r.dst, r.from)
      ensures Trace(r.ns, [r], o)
      ensures !mayAbort ==> (o == Panicked <==> Lacks(r) || Jams(r)) && (Lacks(r) ==> o == Panicked)
    {
      hide HighestCommon, Blocked, HasUndo, ClearWay, Jams;
      TraceOne(r.ns, r, o);
      if o == Fine && !mayAbort {
        EndsHasAll(r);
      }
    }

    lemma RoundsAre(r: Round, hca: BlockTreeNode, more: seq<Round>, o: Outcome)
      requires HighestCommon(r.ns, hca, r.dst, r.from) && hca in r.ns
      requires !Blocked(root, r.ns, hca, r.dst, r.from) && HasUndo(r.files, hca.Height, r.from.Height)
      requires Retries(r, FilesDown(r.files, hca.Height, r.from.Height), hca, more, o)
      ensures Trace(r.ns, [r] + more, o)
      ensures !mayAbort && o != Diverged ==> (o == Panicked <==> Lacks(([r] + more)[|more|]) || Jams(([r] + more)[|more|]))
      ensures !Lacks(r)
    {
      HighestCommonUnique(r.ns, hca, r.dst, r.from);
      hide HighestCommon, Blocked, HasUndo, ClearWay, FirstStop, AfterStop, Sticks, FilesDown;
      if more == [] {
        TraceOne(r.ns, r, o);
        assert [r] + more == [r];
        if o == Fine && !mayAbort {
          EndsHasAll(r);
        }
      } else {
        TraceLonger(r.ns, r, more, o);
        assert ([r] + more)[|more|] == more[|more| - 1];
        if o == Fine && !mayAbort {
          EndsHasAll(more[|more| - 1]);
        }
      }
    }

    /** CommitBlock's first two lines: cur has data now, which is still to be stored. */
    method SetData(cur: BlockTreeNode, size: nat, txCount: nat)
      requires TreeValid() && DataValid(null) && cur in nodes && cur != root && size > 0 && txCount > 0
      modifies cur`BlockSize, cur`TxCount
      ensures TreeValid() && DataValid(cur) && cur.BlockSize == size && cur.TxCount == txCount
    {
      hide Sane, Ancestor;
      cur.BlockSize := size;
      cur.TxCount := txCount;
      forall n | n in nodes
        ensures ChildsRight(nodes, n)
      {
        assert old(ChildsRight(nodes, n));
      }
      hide ChildsRight;
    }

    lemma HashesRight()
      requires Blocks.Valid()
      ensures forall h :: h in Blocks.blockIndex ==> Blocks.blockIndex[h].hash == h
    {
    }

    lemma DataKept(was: map<nat, Block>, cur: BlockTreeNode)
      requires TreeValid() && cur in nodes && cur.BlockHash in Blocks.blockIndex && cur.BlockSize > 0 && cur.TxCount > 0 && cur != root
      requires forall h :: h in was ==> h in Blocks.blockIndex && was[h].hash == h && was[h].txs == content(h)
      requires Blocks.Valid() && forall h :: h in Blocks.blockIndex ==> Blocks.blockIndex[h].txs == content(h)
      requires forall n :: n in nodes && n != cur ==> (n.BlockSize > 0 <==> n.TxCount > 0) && (n.BlockSize > 0 ==> n.BlockHash in was)
      requires root.BlockSize == 0 && forall n :: n in nodes && n != root && Ancestor(n, last) ==> n.BlockSize > 0
      ensures DataValid(null)
    {
      hide TreeValid, Ancestor, BlockDB.Valid;
    }

    method Store(bl: Block, cur: BlockTreeNode, size: nat)
      requires TreeValid() && DataValid(cur) && cur in nodes && cur.BlockSize > 0 && cur.TxCount > 0 && cur != root
      requires bl.hash == cur.BlockHash && bl.txs == content(bl.hash)
      modifies Blocks
      ensures TreeValid() && DataValid(null) && Blocks.blockIndex == WithBlock(old(Blocks.blockIndex), bl)
      ensures Blocks.saved == old(Blocks.SavedWith(bl, size)) && Blocks.blocksToWrite == old(Blocks.QueueWith(bl, size))
    {
      hide ChildsRight, Ancestor, Sane, BlockDB.Valid, BlockDB.SavedWith, BlockDB.QueueWith;
      ghost var was := Blocks.blockIndex;
      HashesRight();
      Blocks.BlockAdd(bl, size);
      DataKept(was, cur);
    }

    /** The head moves to cur. */
    method Advance(cur: BlockTreeNode, changes: BlockChanges, ghost pool: Pool)
      requires Valid() && cur in nodes && cur.BlockSize > 0 && Ready(cur, changes, pool)
      modifies `last, `moves, Unspent
      ensures Valid() && last == cur && moves == old(moves) + [cur]
      ensures Unspent.undoFiles.Keys == (if changes.undoData.Some? then old(Unspent.undoFiles.Keys) + {cur.Height} else old(Unspent.undoFiles.Keys))
                                      - (if cur.Height > UNWIND_BUF_LEN then {cur.Height - UNWIND_BUF_LEN} else {})
    {
      hide TreeValid, DataValid, DbValid;
      Connect(cur, changes, pool);
      Moved(cur);
    }

    /** What CommitBlock does with a refused block. Its children stay in the block index. */
    method Discard(cur: BlockTreeNode)
      requires TreeValid() && DataValid(cur) && cur in nodes && cur.Parent == last && cur.Height == last.Height + 1
      modifies `BlockIndex, `nodes, nodes`Childs
      ensures TreeValid() && DataValid(null)
      ensures nodes == old(nodes) - Subtree(old(nodes), cur) && BlockIndex == old(BlockIndex) - {cur.BlockHash}
      ensures old(IndexExact()) ==> (IndexExact() <==> old(cur.Childs) == [])
      ensures IndexKept(old(BlockIndex), old(nodes), BlockIndex, nodes)
    {
      hide Sane, Ancestor, Subtree, ChildsRight, ParentTree, DataValid, BlockDB.Valid, IndexKept;
      StoreValidBut(cur);
      NotAbove(cur, last);
      CutParents(root, nodes, cur, last);
      SelfInSubtree(nodes, cur);
      ChildListed(nodes, cur);
      ghost var was, index, kids := nodes, BlockIndex, cur.Childs;
      FirstKid(root, nodes, cur, kids);
      cur.Parent.DelChild(cur);
      IndexCut(root, BlockIndex, nodes, cur, {cur.BlockHash});
      BlockIndex := BlockIndex - {cur.BlockHash};
      nodes := nodes - Subtree(nodes, cur);
      CutTree(cur);
      CutData(cur);
      if old(IndexExact()) {
        Dangling(was, index, cur, kids);
      }
    }

    lemma NotAbove(n: BlockTreeNode, m: BlockTreeNode)
      requires n.Height > m.Height
      ensures !Ancestor(n, m)
    {
      if Ancestor(n, m) {
        AncestorHeight(n, m);
      }
    }

    lemma Dangling(was: set<BlockTreeNode>, index: map<nat, BlockTreeNode>, cur: BlockTreeNode, kids: seq<BlockTreeNode>)
      requires forall n :: n in was ==> n.BlockHash in index && index[n.BlockHash] == n
      requires forall h :: h in index ==> index[h] in was && index[h].BlockHash == h
      requires cur in was && nodes == was - Subtree(was, cur) && BlockIndex == index - {cur.BlockHash}
      requires if kids == [] then Subtree(was, cur) == {cur} else kids[0] in Subtree(was, cur) - {cur}
      ensures IndexExact() <==> kids == []
    {
      if kids != [] {
        assert kids[0].BlockHash in BlockIndex;
      }
    }

    /**
     * CommitBlock. A block on top of the last one that is refused leaves the database and the head alone, and leaves
     * the tree together with everything above it; of those, the block index forgets only the block itself.
     */
    method CommitBlock(bl: Block, cur: BlockTreeNode, size: nat, lastKnown: nat, morePOW: bool, fuel: nat) 
      returns (e: Result, o: Outcome, ghost rounds: seq<Round>)
      requires Valid() && cur in nodes && cur != root
      requires bl.hash == cur.BlockHash && bl.txs == content(bl.hash) && size > 0
      modifies `last, `moves, Blocks, `BlockIndex, `nodes, nodes, Unspent
      ensures o != Panicked ==> Valid() && nodes <= old(nodes) && IndexKept(old(BlockIndex), old(nodes), BlockIndex, nodes)
      ensures old(last) == cur.Parent ==> o == Fine && (e.Ok? <==> BlockOk(CoinsAt(content, old(last)), bl, cur.Height, env))
      ensures old(last) == cur.Parent && e.Ok? ==> last == cur && nodes == old(nodes) && BlockIndex == old(BlockIndex)
      ensures old(last) == cur.Parent && e.Ok? ==> Blocks.blockIndex == WithBlock(old(Blocks.blockIndex), bl.(trusted := true))
      ensures old(last) == cur.Parent && e.Ok? ==>
        Unspent.undoFiles.Keys == FilesNext(old(Unspent.undoFiles.Keys), cur.Height, lastKnown)
      ensures old(last) == cur.Parent && e.Err? ==> last == old(last) && unchanged(Unspent) && unchanged(Blocks)
      ensures old(last) == cur.Parent && e.Err? ==> nodes == old(nodes) - Subtree(old(nodes), cur) && BlockIndex == old(BlockIndex) - {cur.BlockHash}
      ensures old(last) == cur.Parent && e.Err? && old(IndexExact()) ==> (IndexExact() <==> old(cur.Childs) == [])
      ensures old(last) != cur.Parent && o != Panicked ==> (old(IndexExact()) ==> IndexExact())
      ensures OnlyBadLeft(old(nodes), nodes)
      ensures old(last) != cur.Parent && morePOW ==> (e.Ok? <==> last == cur)
      ensures old(last) != cur.Parent && morePOW && !mayAbort && old(forall n :: n in nodes && n != root && n != cur ==> n.BlockSize > 0) ==>
        forall hca :: hca in old(nodes) && hca != root && HighestCommon(old(nodes), hca, cur, old(last))
                      && HasUndo(old(Unspent.undoFiles.Keys), hca.Height, old(last).Height) && GoodWay(old(nodes), hca, cur) ==>
          e == Ok && o == Fine && last == cur && nodes == old(nodes)
      ensures old(last) != cur.Parent && morePOW ==>
        && |rounds| >= 1 && Trace(old(nodes), rounds, o)
        && rounds[0] == old(Round(nodes, cur, last, Unspent.undoFiles.Keys, WithBlock(Blocks.blockIndex, bl), Blocks.SavedWith(bl, size)))
        && (!mayAbort && o != Diverged ==> (o == Panicked <==> Lacks(rounds[|rounds| - 1]) || Jams(rounds[|rounds| - 1])))
        && (!mayAbort && Lacks(rounds[0]) ==> o == Panicked && |rounds| == 1)
      ensures old(last) != cur.Parent && (!morePOW || exists hca :: hca in old(nodes) && HighestCommon(old(nodes), hca, cur, old(last))
                                                              && Blocked(root, old(nodes), hca, cur, old(last))) ==>
        && o == Fine && (!morePOW ==> e.Ok?) && last == old(last) && nodes == old(nodes) && BlockIndex == old(BlockIndex)
        && unchanged(Unspent) && Blocks.blockIndex == WithBlock(old(Blocks.blockIndex), bl)
      ensures old(last) != cur.Parent || e.Ok? ==>
        Blocks.saved == old(Blocks.SavedWith(bl, size)) && Blocks.blocksToWrite == old(Blocks.QueueWith(bl, size))
      ensures (forall n :: n in old(nodes) && n != root && n != cur ==> old(n.BlockSize) > 0) && fuel > |old(nodes)| ==> o != Diverged
      ensures cur.BlockSize == size && cur.TxCount == |bl.txs|
      ensures forall n :: n in old(nodes) && n != cur ==> n.BlockSize == old(n.BlockSize) && n.TxCount == old(n.TxCount)
    {
      hide TreeValid, DataValid, DbValid, BlockOk, Ready, Subtree, IndexExact, IndexKept, Ancestor, HighestCommon, HasUndo, GoodWay, OnlyBadLeft, Blocked, Down, Good, Settled,
        Trace, Lacks, Jams, Ends, SamePasses, Passes, BlockDB.Valid, BlockDB.SavedWith, BlockDB.QueueWith, WithBlock;
      rounds := [];
      NodeFacts(cur);
      NoneLeft(nodes);
      IndexSame(BlockIndex, nodes);
      SetData(cur, size, |bl.txs|);
      e, o := Ok, Fine;
      if last == cur.Parent {
        e := CommitOnTop(bl, cur, size, lastKnown);
      } else {
        Store(bl, cur, size);
        if morePOW {
          o, rounds := MoveToBlock(cur, fuel);
          if last != cur {
            e := Err;
          }
        }
      }
    }

    /** The first branch of CommitBlock. */
    method CommitOnTop(bl: Block, cur: BlockTreeNode, size: nat, lastKnown: nat) returns (e: Result)
      requires TreeValid() && DataValid(cur) && DbValid() && cur in nodes && cur != root && cur.Parent == last
      requires bl.hash == cur.BlockHash && bl.txs == content(bl.hash) && cur.BlockSize > 0 && cur.TxCount > 0
      modifies `last, `moves, Blocks, `BlockIndex, `nodes, nodes`Childs, Unspent
      ensures Valid() && OnlyBadLeft(old(nodes), nodes) && IndexKept(old(BlockIndex), old(nodes), BlockIndex, nodes)
      ensures |bl.txs| >= 1 && (e.Ok? <==> BlockOk(CoinsAt(content, old(last)), bl, cur.Height, env))
      ensures e.Ok? ==> last == cur && nodes == old(nodes) && BlockIndex == old(BlockIndex)
      ensures e.Ok? ==> Blocks.blockIndex == WithBlock(old(Blocks.blockIndex), bl.(trusted := true))
      ensures e.Ok? ==> Blocks.saved == old(Blocks.SavedWith(bl, size)) && Blocks.blocksToWrite == old(Blocks.QueueWith(bl, size))
      ensures e.Ok? ==> Unspent.undoFiles.Keys == FilesNext(old(Unspent.undoFiles.Keys), cur.Height, lastKnown)
      ensures e.Err? ==> last == old(last) && unchanged(Unspent) && unchanged(Blocks)
      ensures e.Err? ==> nodes == old(nodes) - Subtree(old(nodes), cur) && BlockIndex == old(BlockIndex) - {cur.BlockHash}
      ensures e.Err? && old(IndexExact()) ==> (IndexExact() <==> old(cur.Childs) == [])
    {
      hide TreeValid, DataValid, DbValid, BlockOk, Ready, Subtree, IndexExact, IndexKept, Ancestor, OnlyBadLeft, Good,
        BlockDB.Valid, BlockDB.SavedWith, BlockDB.QueueWith, WithBlock;
      NodeFacts(cur);
      NoneLeft(nodes);
      IndexSame(BlockIndex, nodes);
      var changes;
      ghost var pool;
      changes, e, pool := ProcessBlockTransactions(bl, cur, lastKnown);
      if e.Err? {
        if Good(cur) {
          GoodIsOk(cur, bl);
        }
        SelfAncestor(cur);
        SelfAncestor(cur.Parent);
        BadCut(nodes, cur.Parent, cur, cur);
        Discard(cur);
      } else {
        SameRoom(bl, size);
        Store(bl.(trusted := true), cur, size);
        Advance(cur, changes, pool);
      }
    }

    /** The block store's BlockAdd on its own, for a block of the tree or any other. */
    method BlockAdd(bl: Block, size: nat)
      requires Valid() && bl.txs == content(bl.hash)
      modifies Blocks
      ensures Valid() && Blocks.blockIndex == WithBlock(old(Blocks.blockIndex), bl)
      ensures Blocks.saved == old(Blocks.SavedWith(bl, size)) && Blocks.blocksToWrite == old(Blocks.QueueWith(bl, size))
    {
      hide TreeValid, DbValid, Ancestor, BlockDB.Valid, BlockDB.SavedWith, BlockDB.QueueWith;
      Blocks.BlockAdd(bl, size);
    }

    /** Idle, as far as the block store goes. */
    method Idle()
      requires Valid()
      modifies Blocks`saved, Blocks`blocksToWrite, Blocks`datToWrite
      ensures Valid() && Blocks.saved == Blocks.blockIndex.Keys && Blocks.blocksToWrite == []
    {
      hide TreeValid, DbValid, Ancestor, BlockDB.Valid;
      Blocks.Idle();
    }

    /** Where a block goes does not depend on its being trusted. */
    lemma SameRoom(bl: Block, size: nat)
      ensures Blocks.SavedWith(bl.(trusted := true), size) == Blocks.SavedWith(bl, size)
      ensures Blocks.QueueWith(bl.(trusted := true), size) == Blocks.QueueWith(bl, size)
    {
    }

    lemma NodeFacts(n: BlockTreeNode)
      requires TreeValid() && n in nodes && n != root
      ensures Sane(content, n) && |content(n.BlockHash)| >= 1 && n.Parent != null && n.Parent in nodes && n.Height == n.Parent.Height + 1
    {
    }
  }
}
