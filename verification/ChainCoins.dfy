/** What a chain of blocks means: the coins at a node, and the records and undo files that stand for them. */
module ChainCoins {
  import opened Utxo
  import opened CommitTxs
  import opened UnspentDb
  import opened ChainTree

  /** A block hash stands for one list of transactions. */
  type Content = nat -> seq<Tx>

  /** The fold of the blocks on the path from the root to n. The genesis block's own output is not spendable. */
  ghost function CoinsAt(content: Content, n: BlockTreeNode): Coins
    decreases n.Height
  {
    if n.Parent == null || n.Height != n.Parent.Height + 1 then map[]
    else ApplyTxs(CoinsAt(content, n.Parent), content(n.BlockHash), n.Height)
  }

  /** No transaction of the block has the id of one with an unspent output (BIP 30), and its sums fit 64 bits. */
  ghost predicate FreshCoins(m: Coins, txs: seq<Tx>) {
    && (forall i, op :: 0 <= i < |txs| && op in m ==> op.hash != txs[i].hash)
    && (forall i, j :: 0 <= i < j < |txs| ==> txs[i].hash != txs[j].hash)
  }

  ghost predicate SaneBlock(m: Coins, txs: seq<Tx>, height: nat) {
    |txs| >= 1 && FreshCoins(m, txs) && NoWrap(m, txs, height)
  }

  ghost predicate Sane(content: Content, n: BlockTreeNode) {
    n.Parent != null ==> SaneBlock(CoinsAt(content, n.Parent), content(n.BlockHash), n.Height)
  }

  /** The block's transactions find their inputs and spend no more than those and the subsidy. */
  ghost predicate Paid(m: Coins, txs: seq<Tx>, height: nat) {
    TxsOk(m, txs, height) && OutTotal(txs) <= GetBlockReward(height) + InTotal(m, txs, height)
  }

  /** Every block on the path to n was paid for when it was connected. */
  ghost predicate Accepted(content: Content, n: BlockTreeNode)
    decreases n.Height
  {
    n.Parent == null || n.Height != n.Parent.Height + 1 || (
      && Paid(CoinsAt(content, n.Parent), content(n.BlockHash), n.Height)
      && Accepted(content, n.Parent))
  }

  lemma RecordHasCoin(db: Records, m: Coins, h: TxId) returns (op: OutPoint)
    requires Agrees(db, m) && Canonical(db) && h in db
    ensures op in m && op.hash == h
  {
    var v :| 0 <= v < |db[h].outs| && db[h].outs[v].Some?;
    op := OutPoint(h, v);
    assert UnspentGet(db, op) == Get(m, op);
  }

  lemma FreshRecords(db: Records, m: Coins, txs: seq<Tx>)
    requires Agrees(db, m) && Canonical(db) && FreshCoins(m, txs)
    ensures FreshIds(db, txs)
  {
    forall i | 0 <= i < |txs|
      ensures txs[i].hash !in db
    {
      if txs[i].hash in db {
        var op := RecordHasCoin(db, m, txs[i].hash);
      }
    }
  }

  /** The changes collected from a block, once applied, give the records of the coins it leaves. */
  lemma CollectedAgrees(db: Records, deled: Marks, undo: Option<Records>, pool: Pool, cur: Coins, height: nat, cb: TxId, adds: Records, db': Records)
    requires Collected(db, deled, undo, pool, cur, height, cb) && AddsFit(adds, pool, height, cb)
    requires Applied(db, adds, deled, db')
    ensures Agrees(db', cur)
  {
    hide UndoFits;
    forall op: OutPoint
      ensures UnspentGet(db', op) == Get(cur, op)
    {
      assert Seen(db, deled, pool, op) == Get(cur, op);
      assert Get(db', op.hash) == Target(db, adds, deled, op.hash);
      if op.hash in adds {
        AddedCoin(db, pool, height, cb, op);
      } else if op.hash in deled {
        PrunedCoin(db[op.hash], deled[op.hash], op.vout);
      } else if op.hash in pool && op.vout < |pool[op.hash]| {
        assert pool[op.hash][op.vout].None?;
      }
    }
  }

  lemma AddedCoin(db: Records, pool: Pool, height: nat, cb: TxId, op: OutPoint)
    requires PoolFits(db, pool, height, cb) && op.hash in pool
    ensures RecCoin(PoolRec(pool[op.hash], op.hash == cb, height), op.vout)
         == if op.vout < |pool[op.hash]| then pool[op.hash][op.vout] else None
  {
  }

  lemma CollectedApplicable(db: Records, deled: Marks, undo: Option<Records>, pool: Pool, cur: Coins, height: nat, cb: TxId, adds: Records)
    requires Collected(db, deled, undo, pool, cur, height, cb) && AddsFit(adds, pool, height, cb)
    ensures Applicable(db, adds, deled)
  {
  }

  lemma AppliedCanonical(db: Records, adds: Records, deled: Marks, pool: Pool, height: nat, cb: TxId, db': Records)
    requires Applied(db, adds, deled, db') && Canonical(db) && AddsFit(adds, pool, height, cb)
    ensures Canonical(db')
  {
    forall h | h in db'
      ensures Live(db'[h])
    {
      assert Get(db', h) == Target(db, adds, deled, h);
      if h in adds {
        var v :| 0 <= v < |pool[h]| && pool[h][v].Some?;
        assert adds[h].outs[v].Some?;
      }
    }
  }

  lemma CollectedCanUndo(bl: Block, db: Records, deled: Marks, undo: Option<Records>, pool: Pool, cur: Coins, height: nat, cb: TxId,
                         adds: Records, db': Records)
    requires Collected(db, deled, undo, pool, cur, height, cb) && AddsFit(adds, pool, height, cb)
    requires Applied(db, adds, deled, db') && FreshIds(db, bl.txs) && Lens(pool) == LensOf(bl.txs)
    ensures CanUndo(bl, db, adds, deled, db')
  {
    assert bl.txs[..|bl.txs|] == bl.txs;
    LensKeys(db, bl.txs, |bl.txs|);
    assert Lens(pool).Keys == Ids(bl.txs);
    forall i | 0 <= i < |bl.txs| && bl.txs[i].hash in adds
      ensures |adds[bl.txs[i].hash].outs| == |bl.txs[i].outs|
    {
      assert Lens(pool)[bl.txs[i].hash] == |pool[bl.txs[i].hash]|;
    }
  }

  function BlockAt(content: Content, n: BlockTreeNode): Block {
    Block(n.BlockHash, content(n.BlockHash), false)
  }

  lemma CanUndoSame(bl1: Block, bl2: Block, db: Records, adds: Records, deled: Marks, now: Records)
    requires CanUndo(bl1, db, adds, deled, now) && bl1.txs == bl2.txs
    ensures CanUndo(bl2, db, adds, deled, now)
  {
  }

  /** file takes the records at n back to the records at its parent. */
  ghost predicate FileFits(content: Content, n: BlockTreeNode, file: Records)
    requires n.Parent != null
  {
    exists db, adds, deled, now :: Undoes(content, n, file, db, adds, deled, now)
  }

  ghost predicate Undoes(content: Content, n: BlockTreeNode, file: Records, db: Records, adds: Records, deled: Marks, now: Records)
    requires n.Parent != null
  {
    && CanUndo(BlockAt(content, n), db, adds, deled, now) && UndoFits(db, deled, Some(file))
    && Agrees(now, CoinsAt(content, n)) && Canonical(now)
    && Agrees(db, CoinsAt(content, n.Parent)) && Canonical(db)
  }

  ghost predicate FilesFit(content: Content, n: BlockTreeNode, files: map<nat, Records>)
    decreases n.Height
  {
    n.Parent == null || n.Height != n.Parent.Height + 1 || (
      && (n.Height in files ==> FileFits(content, n, files[n.Height]))
      && FilesFit(content, n.Parent, files))
  }

  /** Only the files at n's height and below matter. */
  lemma {:induction false} FilesFrame(content: Content, n: BlockTreeNode, files: map<nat, Records>, files': map<nat, Records>)
    requires FilesFit(content, n, files)
    requires forall k :: k in files' && k <= n.Height ==> k in files && files'[k] == files[k]
    ensures FilesFit(content, n, files')
    decreases n.Height
  {
    if n.Parent != null && n.Height == n.Parent.Height + 1 {
      FilesFrame(content, n.Parent, files, files');
    }
  }

  /** The database stands at n: its records are the coins there, and its undo files lead back towards the root. */
  ghost predicate DbFits(content: Content, n: BlockTreeNode, db: Records, height: nat, files: map<nat, Records>) {
    && Agrees(db, CoinsAt(content, n)) && Canonical(db)
    && height == n.Height
    && (forall k :: k in files ==> 0 < k <= height)
    && FilesFit(content, n, files)
  }

  /** The records depend on the node alone, not on how the chain got there. */
  lemma RecordsAtNode(content: Content, n: BlockTreeNode, db1: Records, db2: Records, height: nat, files1: map<nat, Records>, files2: map<nat, Records>)
    requires DbFits(content, n, db1, height, files1) && DbFits(content, n, db2, height, files2)
    ensures db1 == db2
  {
    CoinsDetermineRecords(db1, db2, CoinsAt(content, n));
  }

  ghost function FilesAfter(files: map<nat, Records>, height: nat, undo: Option<Records>): map<nat, Records> {
    (if undo.Some? then files[height := undo.value] else files) - (if height > UNWIND_BUF_LEN then {height - UNWIND_BUF_LEN} else {})
  }

  /** Committing the block of cur on top of its parent. */
  lemma Committed(content: Content, cur: BlockTreeNode, db: Records, height: nat, files: map<nat, Records>, changes: (Records, Marks, Option<Records>),
                  pool: Pool, db': Records)
    requires cur.Parent != null && cur.Height == cur.Parent.Height + 1
    requires DbFits(content, cur.Parent, db, height, files) && Sane(content, cur)
    requires Collected(db, changes.1, changes.2, pool, CoinsAt(content, cur), cur.Height, content(cur.BlockHash)[0].hash)
    requires AddsFit(changes.0, pool, cur.Height, content(cur.BlockHash)[0].hash) && Lens(pool) == LensOf(content(cur.BlockHash))
    requires Applied(db, changes.0, changes.1, db')
    ensures DbFits(content, cur, db', cur.Height, FilesAfter(files, cur.Height, changes.2))
  {
    hide CanUndo, Agrees, Canonical, Collected, AddsFit, Applied, UndoFits, MarksFit, Lens, LensOf, CoinsAt, ApplyTxs, NoWrap, FreshIds, FreshCoins;
    var m, txs := CoinsAt(content, cur), content(cur.BlockHash);
    var files' := FilesAfter(files, cur.Height, changes.2);
    FreshRecords(db, CoinsAt(content, cur.Parent), txs);
    CollectedAgrees(db, changes.1, changes.2, pool, m, cur.Height, txs[0].hash, changes.0, db');
    AppliedCanonical(db, changes.0, changes.1, pool, cur.Height, txs[0].hash, db');
    CollectedCanUndo(BlockAt(content, cur), db, changes.1, changes.2, pool, m, cur.Height, txs[0].hash, changes.0, db');
    UndoKept(db, changes.1, changes.2, pool, m, cur.Height, txs[0].hash);
    FilesFrame(content, cur.Parent, files, files');
    if changes.2.Some? {
      assert Undoes(content, cur, changes.2.value, db, changes.0, changes.1, db');
    }
  }

  lemma UndoKept(db: Records, deled: Marks, undo: Option<Records>, pool: Pool, cur: Coins, height: nat, cb: TxId)
    requires Collected(db, deled, undo, pool, cur, height, cb)
    ensures MarksFit(db, deled) && UndoFits(db, deled, undo)
  {
  }

  /** Notifications since the start, extended by those of one step. */
  lemma NotifiedFromStart(before: seq<Event>, now: seq<Event>, m: Coins, db: Records, db': Records)
    requires Notified([], before, map[], db) && Agrees(db, m) && Notified(before, now, m, db')
    ensures Notified([], now, map[], db')
  {
    assert before[0..] == before;
    SameCoins(db, m, Replay(map[], before));
    NotifiedThen([], before, now, map[], db, db');
  }

  lemma SameCoins(db: Records, m1: Coins, m2: Coins)
    requires Agrees(db, m1) && Agrees(db, m2)
    ensures m1 == m2
  {
    forall op: OutPoint
      ensures Get(m1, op) == Get(m2, op)
    {
      assert UnspentGet(db, op) == Get(m1, op);
    }
    forall op | op in m1
      ensures op in m2 && m1[op] == m2[op]
    {
      assert Get(m1, op) == Get(m2, op);
    }
    forall op | op in m2
      ensures op in m1
    {
      assert Get(m1, op) == Get(m2, op);
    }
  }
}
