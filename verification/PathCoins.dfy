/** Which outputs are unspent at a node, and what they are, read off the blocks on its path. */
module PathCoins {
  import opened Utxo
  import opened CommitTxs
  import opened ChainTree
  import opened ChainCoins
  import C = Chain

  /** A connected block's transactions, and its height. */
  datatype Mined = Mined(txs: seq<Tx>, height: nat)

  /** The blocks on the path to n, from the first one behind the genesis block. */
  ghost function Path(content: Content, n: BlockTreeNode): seq<Mined>
    decreases n.Height
  {
    if n.Parent == null || n.Height != n.Parent.Height + 1 then []
    else Path(content, n.Parent) + [Mined(content(n.BlockHash), n.Height)]
  }

  /** Transaction t of block i has the output op. */
  ghost predicate Made(bs: seq<Mined>, i: int, t: int, op: OutPoint) {
    && 0 <= i < |bs| && 0 <= t < |bs[i].txs|
    && bs[i].txs[t].hash == op.hash && op.vout < |bs[i].txs[t].outs|
  }

  /** Transaction t of block i, not its first one, has op as an input. */
  ghost predicate Named(bs: seq<Mined>, i: int, t: int, op: OutPoint) {
    0 <= i < |bs| && 0 < t < |bs[i].txs| && op in bs[i].txs[t].ins
  }

  predicate Before(i: int, t: int, j: int, u: int) {
    i < j || (i == j && t < u)
  }

  /** No input behind transaction t of block i names op. */
  ghost predicate Kept(bs: seq<Mined>, i: int, t: int, op: OutPoint) {
    forall j, u :: Before(i, t, j, u) ==> !Named(bs, j, u, op)
  }

  /** No transaction behind transaction t of block i has the output op. */
  ghost predicate Last(bs: seq<Mined>, i: int, t: int, op: OutPoint) {
    forall j, u :: Before(i, t, j, u) ==> !Made(bs, j, u, op)
  }

  /** coin is output op.vout of transaction t of block i. */
  ghost predicate IsOutput(bs: seq<Mined>, i: int, t: int, op: OutPoint, coin: Coin)
    requires Made(bs, i, t, op)
  {
    var tx := bs[i].txs[t];
    && coin.value == tx.outs[op.vout].value && coin.script == tx.outs[op.vout].script
    && coin.inBlock == bs[i].height && (coin.coinbase <==> t == 0) && coin.voutCount == |tx.outs|
  }

  /** What m says about op is what the blocks say. */
  ghost predicate Tells(bs: seq<Mined>, m: Coins, op: OutPoint) {
    && (op in m <==> exists i, t :: Made(bs, i, t, op) && Kept(bs, i, t, op))
    && (op in m ==> exists i, t :: Made(bs, i, t, op) && Kept(bs, i, t, op) && Last(bs, i, t, op))
    && forall i, t :: Made(bs, i, t, op) && Kept(bs, i, t, op) && Last(bs, i, t, op) ==> op in m && IsOutput(bs, i, t, op, m[op])
  }

  ghost function Fold(bs: seq<Mined>): Coins {
    if bs == [] then map[] else ApplyTxs(Fold(bs[..|bs| - 1]), bs[|bs| - 1].txs, bs[|bs| - 1].height)
  }

  lemma {:induction false} FoldIs(content: Content, n: BlockTreeNode)
    ensures Fold(Path(content, n)) == CoinsAt(content, n)
    decreases n.Height
  {
    hide ApplyTxs;
    if n.Parent != null && n.Height == n.Parent.Height + 1 {
      FoldIs(content, n.Parent);
      var path := Path(content, n);
      assert path[..|path| - 1] == Path(content, n.Parent);
    }
  }

  /** now is was with one more transaction, number k of block i. */
  ghost predicate OneMore(was: seq<Mined>, now: seq<Mined>, i: nat, k: nat, op: OutPoint) {
    && (forall j, u :: Made(now, j, u, op) <==> Made(was, j, u, op) || (j == i && u == k && Made(now, i, k, op)))
    && (forall j, u :: Named(now, j, u, op) <==> Named(was, j, u, op) || (j == i && u == k && Named(now, i, k, op)))
    && (forall j, u :: Made(was, j, u, op) || Named(was, j, u, op) ==> Before(j, u, i, k))
    && (forall j, u :: Made(was, j, u, op) ==> was[j].txs[u] == now[j].txs[u] && was[j].height == now[j].height)
  }

  lemma AddedOne(bs: seq<Mined>, txs: seq<Tx>, k: nat, height: nat, op: OutPoint)
    requires k < |txs|
    ensures OneMore(bs + [Mined(txs[..k], height)], bs + [Mined(txs[..k + 1], height)], |bs|, k, op)
  {
  }

  lemma TellsMore(was: seq<Mined>, now: seq<Mined>, i: nat, k: nat, op: OutPoint, m: Coins, m': Coins)
    requires OneMore(was, now, i, k, op) && Tells(was, m, op)
    requires Made(now, i, k, op) ==> op in m' && IsOutput(now, i, k, op, m'[op])
    requires !Made(now, i, k, op) ==> Get(m', op) == if Named(now, i, k, op) then None else Get(m, op)
    ensures Tells(now, m', op)
  {
    hide Made, Named;
    if Made(now, i, k, op) {
      assert Kept(now, i, k, op) && Last(now, i, k, op);
    } else if !Named(now, i, k, op) {
      assert op in m' <==> op in m;
      forall j, u | Made(was, j, u, op)
        ensures Kept(now, j, u, op) <==> Kept(was, j, u, op)
        ensures Last(now, j, u, op) <==> Last(was, j, u, op)
      {
      }
    }
  }

  /** One more transaction. */
  lemma TellsNext(bs: seq<Mined>, txs: seq<Tx>, k: nat, height: nat, m: Coins, op: OutPoint)
    requires k < |txs| && Tells(bs + [Mined(txs[..k], height)], m, op)
    ensures Tells(bs + [Mined(txs[..k + 1], height)], ApplyTx(m, txs[k], k == 0, height), op)
  {
    hide Tells, OneMore;
    AddedOne(bs, txs, k, height, op);
    TellsMore(bs + [Mined(txs[..k], height)], bs + [Mined(txs[..k + 1], height)], |bs|, k, op, m, ApplyTx(m, txs[k], k == 0, height));
  }

  lemma TellsStart(bs: seq<Mined>, height: nat, m: Coins, op: OutPoint)
    requires Tells(bs, m, op)
    ensures Tells(bs + [Mined([], height)], m, op)
  {
    var now := bs + [Mined([], height)];
    forall i, t
      ensures Made(now, i, t, op) <==> Made(bs, i, t, op)
      ensures Named(now, i, t, op) <==> Named(bs, i, t, op)
    {
    }
    forall i, t
      ensures Kept(now, i, t, op) <==> Kept(bs, i, t, op)
      ensures Last(now, i, t, op) <==> Last(bs, i, t, op)
    {
    }
  }

  lemma {:induction false} TellsBlock(bs: seq<Mined>, txs: seq<Tx>, k: nat, height: nat, m: Coins, op: OutPoint)
    requires k <= |txs| && Tells(bs, m, op)
    ensures Tells(bs + [Mined(txs[..k], height)], ApplyTxs(m, txs[..k], height), op)
  {
    hide Tells, ApplyTx;
    if k == 0 {
      TellsStart(bs, height, m, op);
    } else {
      TellsBlock(bs, txs, k - 1, height, m, op);
      TellsNext(bs, txs, k - 1, height, ApplyTxs(m, txs[..k - 1], height), op);
      assert txs[..k][..k - 1] == txs[..k - 1];
    }
  }

  lemma {:induction false} FoldTells(bs: seq<Mined>, op: OutPoint)
    ensures Tells(bs, Fold(bs), op)
  {
    hide Tells, ApplyTxs;
    if bs == [] {
      TellsNothing(op);
    } else {
      var init, last := bs[..|bs| - 1], bs[|bs| - 1];
      FoldTells(init, op);
      TellsBlock(init, last.txs, |last.txs|, last.height, Fold(init), op);
      assert last.txs[..|last.txs|] == last.txs && init + [last] == bs;
    }
  }

  lemma TellsNothing(op: OutPoint)
    ensures Tells([], map[], op)
  {
  }

  /**
   * An output is unspent at n if and only if a transaction on n's path has it, and no later input on the path names it.
   */
  lemma UnspentAt(content: Content, n: BlockTreeNode, op: OutPoint)
    ensures op in CoinsAt(content, n) <==> exists i, t :: Made(Path(content, n), i, t, op) && Kept(Path(content, n), i, t, op)
  {
    hide Made, Kept, Last, IsOutput;
    FoldIs(content, n);
    FoldTells(Path(content, n), op);
  }

  /** Its coin has the value and the script of that very output, and says which block it is from and if from the coinbase. */
  lemma CoinAt(content: Content, n: BlockTreeNode, op: OutPoint, i: int, t: int)
    requires Made(Path(content, n), i, t, op) && Kept(Path(content, n), i, t, op) && Last(Path(content, n), i, t, op)
    ensures op in CoinsAt(content, n) && var tx, coin := Path(content, n)[i].txs[t], CoinsAt(content, n)[op];
      && coin.value == tx.outs[op.vout].value && coin.script == tx.outs[op.vout].script
      && coin.inBlock == Path(content, n)[i].height && (coin.coinbase <==> t == 0) && coin.voutCount == |tx.outs|
  {
    hide Kept, Last;
    FoldIs(content, n);
    FoldTells(Path(content, n), op);
    assert IsOutput(Path(content, n), i, t, op, CoinsAt(content, n)[op]);
  }

  // What the inputs of accepted blocks spend.

  /** The path up to transaction t of block i. */
  ghost function Until(bs: seq<Mined>, i: nat, t: nat): seq<Mined>
    requires i < |bs| && t <= |bs[i].txs|
  {
    bs[..i] + [Mined(bs[i].txs[..t], bs[i].height)]
  }

  ghost predicate AllPaid(bs: seq<Mined>) {
    bs == [] || (Paid(Fold(bs[..|bs| - 1]), bs[|bs| - 1].txs, bs[|bs| - 1].height) && AllPaid(bs[..|bs| - 1]))
  }

  lemma {:induction false} PathPaid(content: Content, n: BlockTreeNode)
    requires Accepted(content, n)
    ensures AllPaid(Path(content, n))
    decreases n.Height
  {
    hide Paid;
    if n.Parent != null && n.Height == n.Parent.Height + 1 {
      PathPaid(content, n.Parent);
      FoldIs(content, n.Parent);
      var path := Path(content, n);
      assert path[..|path| - 1] == Path(content, n.Parent);
    }
  }

  lemma {:induction false} PaidBlock(bs: seq<Mined>, i: nat)
    requires AllPaid(bs) && i < |bs|
    ensures Paid(Fold(bs[..i]), bs[i].txs, bs[i].height)
  {
    hide Paid, Fold;
    if i < |bs| - 1 {
      PaidBlock(bs[..|bs| - 1], i);
      assert bs[..|bs| - 1][..i] == bs[..i];
    }
  }

  lemma {:induction false} InputIs(m: Coins, ins: seq<OutPoint>, height: nat, op: OutPoint)
    requires InsOk(m, ins, height) && op in ins
    ensures op in m && !Immature(m[op], height)
  {
    var last := ins[|ins| - 1];
    if op != last {
      assert ins == ins[..|ins| - 1] + [last];
      InputIs(m, ins[..|ins| - 1], height, op);
    }
  }

  lemma InputFound(bs: seq<Mined>, i: nat, t: nat, op: OutPoint)
    requires AllPaid(bs) && Named(bs, i, t, op)
    ensures var m := Fold(Until(bs, i, t)); op in m && !Immature(m[op], bs[i].height)
  {
    hide InsOk, ApplyTx, AllPaid;
    PaidBlock(bs, i);
    var m, txs, height, until := Fold(bs[..i]), bs[i].txs, bs[i].height, Until(bs, i, t);
    TxsPrefix(m, txs, t + 1, height);
    assert txs[..t + 1][..t] == txs[..t];
    InputIs(ApplyTxs(m, txs[..t], height), txs[t].ins, height, op);
    assert until[..|until| - 1] == bs[..i];
  }

  lemma UntilSays(bs: seq<Mined>, i: nat, t: nat, op: OutPoint)
    requires i < |bs| && t <= |bs[i].txs|
    ensures forall j, u :: Made(Until(bs, i, t), j, u, op) <==> Made(bs, j, u, op) && Before(j, u, i, t)
    ensures forall j, u :: Named(Until(bs, i, t), j, u, op) <==> Named(bs, j, u, op) && Before(j, u, i, t)
  {
  }

  /**
   * Each input of an accepted block spends an output made before it on the path that no input in between has spent, and a
   * coinbase's only a hundred blocks later.
   */
  lemma SpentOnce(content: Content, n: BlockTreeNode, i: nat, t: nat, op: OutPoint) returns (j: int, u: int)
    requires Accepted(content, n) && Named(Path(content, n), i, t, op)
    ensures Made(Path(content, n), j, u, op) && Before(j, u, i, t)
    ensures forall k, v :: Before(j, u, k, v) && Before(k, v, i, t) ==> !Named(Path(content, n), k, v, op)
    ensures u == 0 ==> Path(content, n)[i].height >= Path(content, n)[j].height + 100
  {
    hide Accepted, AllPaid, Fold, Last;
    var bs := Path(content, n);
    var until := Until(bs, i, t);
    PathPaid(content, n);
    InputFound(bs, i, t, op);
    FoldTells(until, op);
    UntilSays(bs, i, t, op);
    j, u :| Made(until, j, u, op) && Kept(until, j, u, op) && Last(until, j, u, op);
    assert IsOutput(until, j, u, op, Fold(until)[op]);
    assert until[j].height == bs[j].height;
  }

  // Ids that are new where they come up make every unspent output's origin unique.

  ghost predicate AllSane(content: Content, n: BlockTreeNode)
    decreases n.Height
  {
    n.Parent == null || n.Height != n.Parent.Height + 1 || (Sane(content, n) && AllSane(content, n.Parent))
  }

  lemma {:induction false} TreeSane(content: Content, root: BlockTreeNode, ns: set<BlockTreeNode>, n: BlockTreeNode)
    requires ParentTree(root, ns) && n in ns && forall x :: x in ns ==> Sane(content, x)
    ensures AllSane(content, n)
    decreases n.Height
  {
    hide Sane;
    if n != root {
      TreeSane(content, root, ns, n.Parent);
    }
  }

  lemma {:induction false} FreshAt(content: Content, n: BlockTreeNode, j: nat)
    requires AllSane(content, n) && j < |Path(content, n)|
    ensures FreshCoins(Fold(Path(content, n)[..j]), Path(content, n)[j].txs)
    decreases n.Height
  {
    hide FreshCoins, Fold;
    var path := Path(content, n);
    assert path[..|path| - 1] == Path(content, n.Parent);
    if j == |path| - 1 {
      FoldIs(content, n.Parent);
    } else {
      FreshAt(content, n.Parent, j);
      assert path[..|path| - 1][..j] == path[..j];
    }
  }

  lemma StillUnspent(bs: seq<Mined>, i: int, t: int, j: nat, op: OutPoint)
    requires Made(bs, i, t, op) && Kept(bs, i, t, op) && i < j <= |bs|
    ensures op in Fold(bs[..j])
  {
    hide Fold;
    var below := bs[..j];
    assert Made(below, i, t, op);
    forall k, v | Before(i, t, k, v)
      ensures !Named(below, k, v, op)
    {
      assert !Named(bs, k, v, op);
    }
    FoldTells(below, op);
  }

  /** An output still unspent has not been made again since. */
  lemma KeptIsLast(content: Content, n: BlockTreeNode, op: OutPoint, i: int, t: int)
    requires AllSane(content, n) && Made(Path(content, n), i, t, op) && Kept(Path(content, n), i, t, op)
    ensures Last(Path(content, n), i, t, op)
  {
    hide AllSane, Fold, Kept;
    var bs := Path(content, n);
    forall j, u | Before(i, t, j, u)
      ensures !Made(bs, j, u, op)
    {
      if Made(bs, j, u, op) {
        FreshAt(content, n, j);
        if i < j {
          StillUnspent(bs, i, t, j, op);
        }
        assert false;
      }
    }
  }

  /** The database, standing at n, has a coin exactly for each output of the path that no later input names. */
  lemma RecordsTell(content: Content, n: BlockTreeNode, db: Records, height: nat, files: map<nat, Records>, op: OutPoint)
    requires DbFits(content, n, db, height, files) && AllSane(content, n)
    ensures UnspentGet(db, op).Some? <==> exists i, t :: Made(Path(content, n), i, t, op) && Kept(Path(content, n), i, t, op)
    ensures forall i, t :: Made(Path(content, n), i, t, op) && Kept(Path(content, n), i, t, op) ==>
      UnspentGet(db, op).Some? && IsOutput(Path(content, n), i, t, op, UnspentGet(db, op).value)
  {
    hide AllSane, Made, Kept, Last, FilesFit, CoinsAt, Path, Canonical, UnspentGet, IsOutput;
    assert UnspentGet(db, op) == Get(CoinsAt(content, n), op);
    UnspentAt(content, n, op);
    forall i, t | Made(Path(content, n), i, t, op) && Kept(Path(content, n), i, t, op)
      ensures UnspentGet(db, op).Some? && IsOutput(Path(content, n), i, t, op, UnspentGet(db, op).value)
    {
      KeptIsLast(content, n, op, i, t);
      FoldIs(content, n);
      FoldTells(Path(content, n), op);
    }
  }

  /** So does the database of a chain, whatever the run that led there. */
  lemma HeadTells(c: C.Chain, op: OutPoint)
    requires c.Valid()
    ensures UnspentGet(c.Unspent.HashMap, op).Some? <==>
      exists i, t :: Made(Path(c.content, c.last), i, t, op) && Kept(Path(c.content, c.last), i, t, op)
    ensures forall i, t :: Made(Path(c.content, c.last), i, t, op) && Kept(Path(c.content, c.last), i, t, op) ==>
      UnspentGet(c.Unspent.HashMap, op).Some? && IsOutput(Path(c.content, c.last), i, t, op, UnspentGet(c.Unspent.HashMap, op).value)
  {
    hide Made, Kept, IsOutput, Sane, DbFits, AllSane, UnspentGet, ChildsRight, Path, C.Chain.DataValid;
    TreeSane(c.content, c.root, c.nodes, c.last);
    RecordsTell(c.content, c.last, c.Unspent.HashMap, c.Unspent.LastBlockHeight, c.Unspent.undoFiles, op);
  }
}
