/** Any sequence of calls on the chain. */
module ChainRun {
  import opened Utxo
  import opened CommitTxs
  import opened ChainTree
  import opened ChainCoins
  import opened Fork
  import opened UndoFiles
  import opened BlockDb
  import opened Branches
  import C = Chain

  datatype Command =
    | Header(hash: nat, parent: nat)
    | Data(hash: nat, trusted: bool, size: nat, lastKnown: nat, morePOW: bool, fuel: nat, txs: seq<Tx>)
    | Stored(hash: nat, trusted: bool, size: nat, txs: seq<Tx>)
    | Delete(hash: nat)
    | Undo
    | Idle

  /** The coins behind blocks with these hashes, one on top of the other. */
  ghost function CoinsAlong(content: Content, path: seq<nat>): Coins {
    if path == [] then map[]
    else ApplyTxs(CoinsAlong(content, path[..|path| - 1]), content(path[|path| - 1]), |path|)
  }

  /**
   * The hashes of a path of different blocks up from the genesis block. A block's hash stands for its header, and so for its
   * parent: parentOf has the parents of all headers there are.
   */
  ghost predicate Linked(parentOf: map<nat, nat>, genesis: nat, path: seq<nat>) {
    path == [] || (
      var rest, h := path[..|path| - 1], path[|path| - 1];
      && Linked(parentOf, genesis, rest) && h in parentOf && h != genesis && h !in rest
      && parentOf[h] == if rest == [] then genesis else rest[|rest| - 1])
  }

  /** On its own path, no block brings an id that is still in use (BIP 30), or sums of more than 64 bits. */
  ghost predicate FairContent(content: Content, parentOf: map<nat, nat>, genesis: nat) {
    forall path: seq<nat> :: path != [] && Linked(parentOf, genesis, path) ==>
      SaneBlock(CoinsAlong(content, path[..|path| - 1]), content(path[|path| - 1]), |path|)
  }

  /** Every node of the tree stands where its header says. */
  ghost predicate Placed(ns: set<BlockTreeNode>, parentOf: map<nat, nat>) {
    forall n :: n in ns && n.Parent != null ==> n.BlockHash in parentOf && parentOf[n.BlockHash] == n.Parent.BlockHash
  }

  /** What the run needs of the chain and of the headers there are. */
  ghost predicate Ready(c: C.Chain, parentOf: map<nat, nat>)
    reads c, c.nodes, c.Unspent, c.Blocks
  {
    c.Valid() && c.IndexRooted() && Placed(c.nodes, parentOf)
  }

  /** The command speaks of headers and blocks there are. */
  ghost predicate Real(c: C.Chain, parentOf: map<nat, nat>, cmd: Command) {
    && (cmd.Header? ==> cmd.hash in parentOf && parentOf[cmd.hash] == cmd.parent)
    && (cmd.Data? ==> cmd.txs == c.content(cmd.hash)) && (cmd.Stored? ==> cmd.txs == c.content(cmd.hash))
  }

  ghost function PathOf(n: BlockTreeNode): seq<nat>
    decreases n.Height
  {
    if n.Parent == null || n.Height != n.Parent.Height + 1 then [] else PathOf(n.Parent) + [n.BlockHash]
  }

  lemma {:induction false} AlongPath(content: Content, root: BlockTreeNode, ns: set<BlockTreeNode>, n: BlockTreeNode)
    requires ParentTree(root, ns) && root.Height == 0 && n in ns
    ensures CoinsAt(content, n) == CoinsAlong(content, PathOf(n)) && |PathOf(n)| == n.Height
    ensures forall h :: h in PathOf(n) ==> exists x :: x in ns && x != root && x.BlockHash == h && x.Height <= n.Height
    ensures n != root ==> |PathOf(n)| > 0 && PathOf(n)[|PathOf(n)| - 1] == n.BlockHash
    decreases n.Height
  {
    hide ApplyTxs;
    if n != root {
      AlongPath(content, root, ns, n.Parent);
      var path := PathOf(n);
      assert path[..|path| - 1] == PathOf(n.Parent);
    }
  }

  lemma {:induction false} PathLinked(content: Content, root: BlockTreeNode, ns: set<BlockTreeNode>, parentOf: map<nat, nat>, n: BlockTreeNode)
    requires ParentTree(root, ns) && root.Height == 0 && OneEach(ns) && Placed(ns, parentOf) && n in ns
    ensures Linked(parentOf, root.BlockHash, PathOf(n))
    decreases n.Height
  {
    if n != root {
      PathLinked(content, root, ns, parentOf, n.Parent);
      AlongPath(content, root, ns, n.Parent);
      var path := PathOf(n);
      assert path[..|path| - 1] == PathOf(n.Parent);
      assert n.BlockHash !in PathOf(n.Parent);
      assert n.Parent == root ==> PathOf(root) == [];
    }
  }

  lemma FairHeader(c: C.Chain, parentOf: map<nat, nat>, hash: nat, par: BlockTreeNode)
    requires c.TreeValid() && FairContent(c.content, parentOf, c.root.BlockHash) && Placed(c.nodes, parentOf)
    requires par in c.nodes && hash !in c.BlockIndex && hash in parentOf && parentOf[hash] == par.BlockHash
    ensures SaneBlock(CoinsAt(c.content, par), c.content(hash), par.Height + 1)
  {
    hide Sane, SaneBlock, ChildsRight, CoinsAt, CoinsAlong, Placed;
    c.OneHash();
    AlongPath(c.content, c.root, c.nodes, par);
    PathLinked(c.content, c.root, c.nodes, parentOf, par);
    var path := PathOf(par) + [hash];
    assert path[..|path| - 1] == PathOf(par);
    assert hash !in PathOf(par) && hash != c.root.BlockHash;
    assert par == c.root ==> PathOf(par) == [];
    assert Linked(parentOf, c.root.BlockHash, path);
  }

  /** Whether a node of the block index is still part of the tree: all nodes below it are in the index. */
  method InTree(c: C.Chain, n: BlockTreeNode) returns (found: bool)
    requires c.TreeValid() && c.IndexRooted() && n.BlockHash in c.BlockIndex && c.BlockIndex[n.BlockHash] == n
    ensures found <==> n in c.nodes
  {
    hide Sane, ChildsRight;
    var x: BlockTreeNode := n;
    while x.Parent != null && x.Parent.BlockHash in c.BlockIndex && c.BlockIndex[x.Parent.BlockHash] == x.Parent
      invariant x.BlockHash in c.BlockIndex && c.BlockIndex[x.BlockHash] == x && (n in c.nodes <==> x in c.nodes)
      decreases x.Height
    {
      x := x.Parent;
    }
    found := x.Parent == null;
  }

  /** One call, unless its node is not there for it. */
  method Step(c: C.Chain, cmd: Command, ghost parentOf: map<nat, nat>) returns (o: C.Outcome)
    requires Ready(c, parentOf) && FairContent(c.content, parentOf, c.root.BlockHash) && Real(c, parentOf, cmd)
    modifies c, c.nodes, c.BlockIndex.Values, c.Unspent, c.Blocks
    ensures !o.Panicked? ==> Ready(c, parentOf) && fresh(c.nodes - old(c.nodes))
    ensures !o.Panicked? ==> forall h :: h in c.BlockIndex ==> c.BlockIndex[h] in old(c.BlockIndex.Values) || fresh(c.BlockIndex[h])
  {
    hide C.Chain.TreeValid, C.Chain.DataValid, C.Chain.DbValid, C.Rooted, FairContent;
    o := C.Fine;
    match cmd {
      case Header(hash, parent) =>
        if hash !in c.BlockIndex && parent in c.BlockIndex {
          NewHeader(c, hash, parent, parentOf);
        }
      case Data(hash, trusted, size, lastKnown, morePOW, fuel, txs) =>
        if hash in c.BlockIndex && hash != c.root.BlockHash && size > 0 {
          o := NewData(c, Block(hash, txs, trusted), size, lastKnown, morePOW, fuel);
        }
      case Stored(hash, trusted, size, txs) =>
        c.BlockAdd(Block(hash, txs, trusted), size);
      case Delete(hash) =>
        if hash in c.BlockIndex {
          o := Remove(c, hash);
        }
      case Undo =>
        o := c.UndoLastBlock();
      case Idle =>
        c.Idle();
    }
  }

  method NewHeader(c: C.Chain, hash: nat, parent: nat, ghost parentOf: map<nat, nat>)
    requires Ready(c, parentOf) && FairContent(c.content, parentOf, c.root.BlockHash)
    requires hash in parentOf && parentOf[hash] == parent && hash !in c.BlockIndex && parent in c.BlockIndex
    modifies c`BlockIndex, c`nodes, c.BlockIndex.Values`Childs
    ensures Ready(c, parentOf) && fresh(c.nodes - old(c.nodes))
    ensures forall h :: h in c.BlockIndex ==> c.BlockIndex[h] in old(c.BlockIndex.Values) || fresh(c.BlockIndex[h])
  {
    hide C.Chain.TreeValid, C.Chain.DataValid, C.Chain.DbValid, C.Rooted, FairContent, SaneBlock;
    Indexed(c, parent);
    if c.BlockIndex[parent] in c.nodes {
      FairHeader(c, parentOf, hash, c.BlockIndex[parent]);
    }
    var n := c.AcceptHeader(hash, parent);
  }

  lemma Indexed(c: C.Chain, h: nat)
    requires c.IndexRooted() && h in c.BlockIndex
    ensures c.BlockIndex[h].BlockHash == h
  {
  }

  method NewData(c: C.Chain, bl: Block, size: nat, lastKnown: nat, morePOW: bool, fuel: nat) returns (o: C.Outcome)
    requires c.Valid() && c.IndexRooted() && bl.txs == c.content(bl.hash) && bl.hash in c.BlockIndex && bl.hash != c.root.BlockHash && size > 0
    modifies c, c.nodes, c.Unspent, c.Blocks
    ensures !o.Panicked? ==> c.Valid() && c.IndexRooted() && c.nodes <= old(c.nodes)
    ensures !o.Panicked? ==> forall h :: h in c.BlockIndex ==> h in old(c.BlockIndex) && c.BlockIndex[h] == old(c.BlockIndex)[h]
  {
    hide C.Chain.TreeValid, C.Chain.DataValid, C.Chain.DbValid, C.Rooted, BlockOk, Subtree, C.Chain.IndexExact, HighestCommon, HasUndo, Blocked,
      C.Chain.GoodWay, C.Chain.OnlyBadLeft, C.Chain.Trace, C.Chain.Lacks, C.Chain.Jams, BlockDB.SavedWith, BlockDB.QueueWith, WithBlock, CoinsAt;
    Indexed(c, bl.hash);
    var n := c.BlockIndex[bl.hash];
    var there := InTree(c, n);
    o := C.Fine;
    if there {
      var e;
      ghost var rounds;
      e, o, rounds := c.CommitBlock(bl, n, size, lastKnown, morePOW, fuel);
    }
  }

  method Remove(c: C.Chain, hash: nat) returns (o: C.Outcome)
    requires c.Valid() && c.IndexRooted() && hash in c.BlockIndex
    modifies c, c.nodes, c.Blocks
    ensures !o.Panicked? ==> c.Valid() && c.IndexRooted() && c.nodes <= old(c.nodes)
    ensures !o.Panicked? ==> forall h :: h in c.BlockIndex ==> h in old(c.BlockIndex) && c.BlockIndex[h] == old(c.BlockIndex)[h]
  {
    hide C.Chain.TreeValid, C.Chain.DataValid, C.Chain.DbValid, C.Rooted, Ancestor, Subtree, C.Chain.IndexExact, C.Hashes, Breaks, Called, Marked;
    Indexed(c, hash);
    var n := c.BlockIndex[hash];
    var there := InTree(c, n);
    o := C.Fine;
    if there {
      var active := c.OnActiveBranch(n);
      if !active {
        var ok := c.DeleteBranch(n);
        if !ok {
          o := C.Panicked;
        }
      }
    }
  }

  /**
   * Valid, and all that follows from it, holds through any sequence of calls, up to one that panics; the run also ends at one
   * that uses up its fuel, and Valid holds then too.
   */
  method Run(c: C.Chain, cmds: seq<Command>, ghost parentOf: map<nat, nat>) returns (n: nat, o: C.Outcome)
    requires Ready(c, parentOf) && FairContent(c.content, parentOf, c.root.BlockHash)
    requires forall cmd :: cmd in cmds ==> Real(c, parentOf, cmd)
    modifies c, c.nodes, c.BlockIndex.Values, c.Unspent, c.Blocks
    ensures n <= |cmds| && (n == |cmds| <==> o.Fine?)
    ensures !o.Panicked? ==> Ready(c, parentOf)
  {
    hide Ready, FairContent, Real;
    n, o := 0, C.Fine;
    while n < |cmds|
      invariant n <= |cmds| && o.Fine? && Ready(c, parentOf) && fresh(c.nodes - old(c.nodes))
      invariant forall h :: h in c.BlockIndex ==> c.BlockIndex[h] in old(c.BlockIndex.Values) || fresh(c.BlockIndex[h])
    {
      o := Step(c, cmds[n], parentOf);
      if !o.Fine? {
        return;
      }
      n := n + 1;
    }
  }
}
