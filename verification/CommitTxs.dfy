/** commitTxs: checking a block against the records and collecting the changes it makes. */
module CommitTxs {
  import opened Utxo

  /** Script checks, sigop costs and the pool's trusted transactions are not part of this model: any functions will do. */
  datatype Env = Env(cbScriptOk: Tx -> bool, verify: (Tx, seq<Coin>) -> bool, sigops: (Tx, seq<Coin>) -> nat, trustedTx: Tx -> bool)

  datatype Result = Ok | Err

  /** The subsidy: 50 coins, halved every 210000 blocks, shifted out to zero in the end. */
  function GetBlockReward(height: nat): nat {
    Shr(5000000000, height / 210000)
  }

  function Shr(x: nat, k: nat): nat {
    if k == 0 then x else Shr(x / 2, k - 1)
  }

  lemma {:induction false} ShrLe(x: nat, k: nat)
    ensures Shr(x, k) <= x
    decreases k
  {
    if k > 0 {
      ShrLe(x / 2, k - 1);
    }
  }

  type Marks = map<TxId, seq<bool>>
  type Pool = map<TxId, seq<Option<Coin>>>

  class BlockChanges {
    var height: nat
    var addList: Records
    var deledTxs: Marks
    var undoData: Option<Records>

    constructor (h: nat, keepUndo: bool)
      ensures height == h && addList == map[] && deledTxs == map[]
      ensures undoData == if keepUndo then Some(map[]) else None
    {
      height := h;
      addList := map[];
      deledTxs := map[];
      undoData := if keepUndo then Some(map[]) else None;
    }
  }

  /** What an input finds: the records less the marked outputs, and then the block's own outputs. */
  function Seen(db: Records, deled: Marks, pool: Pool, op: OutPoint): Option<Coin> {
    if op.hash in db then
      if op.hash in deled && op.vout < |deled[op.hash]| && deled[op.hash][op.vout] then None else UnspentGet(db, op)
    else if op.hash in pool && op.vout < |pool[op.hash]| then pool[op.hash][op.vout]
    else None
  }

  /** The marks fit the records they mark, and mark only outputs that are there. */
  ghost predicate MarksFit(db: Records, deled: Marks) {
    forall h :: h in deled ==>
      && h in db && |deled[h]| == |db[h].outs|
      && (exists v :: 0 <= v < |deled[h]| && deled[h][v])
      && forall v :: 0 <= v < |deled[h]| && deled[h][v] ==> db[h].outs[v].Some?
  }

  /** The undo record of h: what the marks take away from it. */
  function UndoRec(rec: Rec, marks: seq<bool>): Rec
    requires |marks| == |rec.outs|
  {
    rec.(outs := seq(|rec.outs|, i requires 0 <= i < |rec.outs| => if marks[i] then rec.outs[i] else None))
  }

  ghost predicate UndoFits(db: Records, deled: Marks, undo: Option<Records>)
    requires MarksFit(db, deled)
  {
    undo.Some? ==> undo.value.Keys == deled.Keys && forall h :: h in deled ==> undo.value[h] == UndoRec(db[h], deled[h])
  }

  /** Outputs of the block itself carry its height, their transaction's length and whether it is the coinbase. */
  ghost predicate PoolFits(db: Records, pool: Pool, height: nat, cb: TxId) {
    && pool.Keys !! db.Keys
    && forall h, v :: h in pool && 0 <= v < |pool[h]| && pool[h][v].Some? ==>
         var coin := pool[h][v].value;
         coin.inBlock == height && coin.voutCount == |pool[h]| && (coin.coinbase <==> h == cb)
  }

  ghost predicate Collected(db: Records, deled: Marks, undo: Option<Records>, pool: Pool, cur: Coins, height: nat, cb: TxId) {
    && MarksFit(db, deled)
    && UndoFits(db, deled, undo)
    && PoolFits(db, pool, height, cb)
    && forall op :: Seen(db, deled, pool, op) == Get(cur, op)
  }

  function Mark(deled: Marks, rec: Rec, op: OutPoint): Marks
    requires op.vout < |rec.outs|
    requires op.hash in deled ==> |deled[op.hash]| == |rec.outs|
  {
    var marks := if op.hash in deled then deled[op.hash] else seq(|rec.outs|, _ => false);
    deled[op.hash := marks[op.vout := true]]
  }

  lemma MarkFits(db: Records, deled: Marks, op: OutPoint)
    requires MarksFit(db, deled) && UnspentGet(db, op).Some?
    ensures MarksFit(db, Mark(deled, db[op.hash], op))
  {
    var d := Mark(deled, db[op.hash], op);
    assert d[op.hash][op.vout];
    forall h | h in d
      ensures h in db && |d[h]| == |db[h].outs|
      ensures exists v :: 0 <= v < |d[h]| && d[h][v]
    {
      if h != op.hash {
        assert h in deled && d[h] == deled[h];
      }
    }
  }

  function MarkUndo(undo: Records, rec: Rec, op: OutPoint): Records
    requires op.vout < |rec.outs|
    requires op.hash in undo ==> |undo[op.hash].outs| == |rec.outs|
  {
    var urec := if op.hash in undo then undo[op.hash] else Rec(rec.coinbase, rec.inBlock, seq(|rec.outs|, _ => None));
    undo[op.hash := urec.(outs := urec.outs[op.vout := rec.outs[op.vout]])]
  }

  lemma UndoLength(db: Records, deled: Marks, undo: Option<Records>, pool: Pool, cur: Coins, height: nat, cb: TxId, op: OutPoint)
    requires Collected(db, deled, undo, pool, cur, height, cb)
    ensures undo.Some? && op.hash in undo.value ==> op.hash in db && |undo.value[op.hash].outs| == |db[op.hash].outs|
  {
  }

  lemma MarkUndoFits(db: Records, deled: Marks, undo: Records, op: OutPoint)
    requires MarksFit(db, deled) && UndoFits(db, deled, Some(undo)) && UnspentGet(db, op).Some?
    requires MarksFit(db, Mark(deled, db[op.hash], op))
    ensures UndoFits(db, Mark(deled, db[op.hash], op), Some(MarkUndo(undo, db[op.hash], op)))
  {
    var rec, d := db[op.hash], Mark(deled, db[op.hash], op);
    var u := MarkUndo(undo, rec, op);
    MarksLength(db, deled);
    MarksLength(db, d);
    hide MarksFit;
    assert u.Keys == d.Keys;
    forall h | h in d
      ensures u[h] == UndoRec(db[h], d[h])
    {
      if h == op.hash {
        MarkUndoRec(undo, rec, deled, op);
      }
    }
  }

  lemma MarksLength(db: Records, deled: Marks)
    requires MarksFit(db, deled)
    ensures forall h :: h in deled ==> h in db && |deled[h]| == |db[h].outs|
  {
  }

  lemma MarkUndoRec(undo: Records, rec: Rec, deled: Marks, op: OutPoint)
    requires op.vout < |rec.outs|
    requires op.hash in undo <==> op.hash in deled
    requires op.hash in deled ==> |deled[op.hash]| == |rec.outs| && undo[op.hash] == UndoRec(rec, deled[op.hash])
    ensures MarkUndo(undo, rec, op)[op.hash] == UndoRec(rec, Mark(deled, rec, op)[op.hash])
  {
    assert MarkUndo(undo, rec, op)[op.hash].outs == UndoRec(rec, Mark(deled, rec, op)[op.hash]).outs;
  }

  lemma MarkSeen(db: Records, deled: Marks, pool: Pool, cur: Coins, op: OutPoint)
    requires MarksFit(db, deled) && UnspentGet(db, op).Some?
    requires forall q :: Seen(db, deled, pool, q) == Get(cur, q)
    ensures forall q :: Seen(db, Mark(deled, db[op.hash], op), pool, q) == Get(cur - {op}, q)
  {
    var d := Mark(deled, db[op.hash], op);
    forall q
      ensures Seen(db, d, pool, q) == Get(cur - {op}, q)
    {
      assert Seen(db, deled, pool, q) == Get(cur, q);
      if q.hash == op.hash && q.vout != op.vout && q.vout < |d[q.hash]| {
        assert d[q.hash][q.vout] == (q.hash in deled && deled[q.hash][q.vout]);
      }
    }
  }

  lemma TookPool(db: Records, deled: Marks, undo: Option<Records>, pool: Pool, cur: Coins, height: nat, cb: TxId, op: OutPoint)
    requires Collected(db, deled, undo, pool, cur, height, cb)
    requires op.hash in pool && op.vout < |pool[op.hash]| && pool[op.hash][op.vout].Some?
    ensures Collected(db, deled, undo, pool[op.hash := pool[op.hash][op.vout := None]], cur - {op}, height, cb)
  {
    var p := pool[op.hash := pool[op.hash][op.vout := None]];
    forall q
      ensures Seen(db, deled, p, q) == Get(cur - {op}, q)
    {
      assert Seen(db, deled, pool, q) == Get(cur, q);
    }
  }

  lemma TookRecord(db: Records, deled: Marks, undo: Option<Records>, pool: Pool, cur: Coins, height: nat, cb: TxId, op: OutPoint,
                   deled': Marks, undo': Option<Records>)
    requires Collected(db, deled, undo, pool, cur, height, cb) && UnspentGet(db, op).Some?
    requires op.hash in deled ==> |deled[op.hash]| == |db[op.hash].outs|
    requires undo.Some? && op.hash in undo.value ==> |undo.value[op.hash].outs| == |db[op.hash].outs|
    requires deled' == Mark(deled, db[op.hash], op)
    requires undo' == if undo.Some? then Some(MarkUndo(undo.value, db[op.hash], op)) else None
    ensures Collected(db, deled', undo', pool, cur - {op}, height, cb)
  {
    hide MarksFit, UndoFits, PoolFits, Mark, MarkUndo, Seen;
    MarkFits(db, deled, op);
    MarkSeen(db, deled, pool, cur, op);
    if undo.Some? {
      MarkUndoFits(db, deled, undo.value, op);
    } else {
      NoUndoFits(db, deled');
    }
  }

  lemma NoUndoFits(db: Records, deled: Marks)
    requires MarksFit(db, deled)
    ensures UndoFits(db, deled, None)
  {
  }

  lemma RefusedInput(db: Records, deled: Marks, undo: Option<Records>, pool: Pool, cur: Coins, height: nat, cb: TxId, op: OutPoint)
    requires Collected(db, deled, undo, pool, cur, height, cb)
    ensures op.hash in db ==> op.hash !in pool
    ensures Seen(db, deled, pool, op) == Get(cur, op)
    ensures op.hash in deled ==> op.hash in db && |deled[op.hash]| == |db[op.hash].outs|
    ensures op.hash in pool && op.vout < |pool[op.hash]| && pool[op.hash][op.vout].Some?
        ==> (Immature(pool[op.hash][op.vout].value, height) <==> pool[op.hash][op.vout].value.coinbase)
  {
  }

  /** The body of the input loop: finds the output, marks it as spent and remembers it for undoing. */
  method TakeInput(db: Records, changes: BlockChanges, pool: Pool, inp: OutPoint, ghost cur: Coins, ghost cb: TxId)
    returns (tout: Option<Coin>, pool': Pool)
    requires Collected(db, changes.deledTxs, changes.undoData, pool, cur, changes.height, cb)
    modifies changes
    ensures changes.height == old(changes.height) && changes.addList == old(changes.addList)
    ensures old(changes.undoData).Some? == changes.undoData.Some?
    ensures tout.Some? <==> inp in cur && !Immature(cur[inp], changes.height)
    ensures tout.Some? ==> tout.value == cur[inp] && Lens(pool') == Lens(pool)
    ensures tout.Some? ==> Collected(db, changes.deledTxs, changes.undoData, pool', cur - {inp}, changes.height, cb)
  {
    hide Collected, MarksFit, UndoFits, PoolFits, Lens;
    var deled := changes.deledTxs;
    RefusedInput(db, deled, changes.undoData, pool, cur, changes.height, cb, inp);
    pool' := pool;
    tout := None;
    var wasSpent := inp.hash in deled;
    if wasSpent {
      if inp.vout >= |deled[inp.hash]| {
        return;
      }
      if deled[inp.hash][inp.vout] {
        return;
      }
    }
    var coin := UnspentGet(db, inp);
    if coin == None {
      if inp.hash !in pool {
        return;
      }
      var t := pool[inp.hash];
      if inp.vout >= |t| {
        return;
      }
      if t[inp.vout] == None {
        return;
      }
      if t[inp.vout].value.coinbase {
        return;
      }
      tout := t[inp.vout];
      pool' := pool[inp.hash := t[inp.vout := None]];
      LensSame(pool, inp.hash, t[inp.vout := None]);
      TookPool(db, deled, changes.undoData, pool, cur, changes.height, cb, inp);
    } else {
      if Immature(coin.value, changes.height) {
        return;
      }
      var spentMap := if wasSpent then deled[inp.hash] else seq(coin.value.voutCount, _ => false);
      changes.deledTxs := deled[inp.hash := spentMap[inp.vout := true]];
      ghost var undo0 := changes.undoData;
      if changes.undoData.Some? {
        var undo := changes.undoData.value;
        var urec := if inp.hash in undo then undo[inp.hash]
                    else Rec(coin.value.coinbase, coin.value.inBlock, seq(coin.value.voutCount, _ => None));
        UndoLength(db, deled, undo0, pool, cur, changes.height, cb, inp);
        urec := urec.(outs := urec.outs[inp.vout := Some(TxOut(coin.value.value, coin.value.script))]);
        changes.undoData := Some(undo[inp.hash := urec]);
      }
      tout := coin;
      TookRecord(db, deled, undo0, pool, cur, changes.height, cb, inp, changes.deledTxs, changes.undoData);
    }
  }

  // What accepting a block means, on coins alone.

  ghost function SpentCoins(m: Coins, ins: seq<OutPoint>): seq<Coin> {
    if ins == [] then []
    else
      var last := ins[|ins| - 1];
      SpentCoins(m, ins[..|ins| - 1]) + if last in m then [m[last]] else []
  }

  /** Every transaction but the first finds its inputs and does not spend more than them. */
  ghost predicate TxsOk(m: Coins, txs: seq<Tx>, height: nat) {
    txs == [] || (
      var prefix, tx := txs[..|txs| - 1], txs[|txs| - 1];
      var cur := ApplyTxs(m, prefix, height);
      TxsOk(m, prefix, height) && (prefix != [] ==> InsOk(cur, tx.ins, height) && OutSum(tx.outs) <= InSum(cur, tx.ins)))
  }

  ghost function InTotal(m: Coins, txs: seq<Tx>, height: nat): nat {
    if |txs| <= 1 then 0
    else InTotal(m, txs[..|txs| - 1], height) + InSum(ApplyTxs(m, txs[..|txs| - 1], height), txs[|txs| - 1].ins)
  }

  ghost function OutTotal(txs: seq<Tx>): nat {
    if txs == [] then 0 else OutTotal(txs[..|txs| - 1]) + OutSum(txs[|txs| - 1].outs)
  }

  ghost predicate ScriptsOk(m: Coins, txs: seq<Tx>, height: nat, env: Env) {
    |txs| <= 1 || (
      var prefix, tx := txs[..|txs| - 1], txs[|txs| - 1];
      ScriptsOk(m, prefix, height, env)
      && (env.trustedTx(tx) || env.verify(tx, SpentCoins(ApplyTxs(m, prefix, height), tx.ins))))
  }

  ghost function SigopsTotal(m: Coins, txs: seq<Tx>, height: nat, env: Env): nat {
    if txs == [] then 0
    else
      var prefix, tx := txs[..|txs| - 1], txs[|txs| - 1];
      SigopsTotal(m, prefix, height, env)
      + env.sigops(tx, if prefix == [] then [] else SpentCoins(ApplyTxs(m, prefix, height), tx.ins))
  }

  ghost predicate BlockOk(m: Coins, bl: Block, height: nat, env: Env)
    requires |bl.txs| >= 1
  {
    && env.cbScriptOk(bl.txs[0])
    && TxsOk(m, bl.txs, height)
    && (bl.trusted || ScriptsOk(m, bl.txs, height, env))
    && OutTotal(bl.txs) <= GetBlockReward(height) + InTotal(m, bl.txs, height)
    && SigopsTotal(m, bl.txs, height, env) <= MAX_BLOCK_SIGOPS_COST
  }

  /** The block's transaction ids are new and different from each other (BIP 30). */
  ghost predicate FreshIds(db: Records, txs: seq<Tx>) {
    && (forall i :: 0 <= i < |txs| ==> txs[i].hash !in db)
    && (forall i, j :: 0 <= i < j < |txs| ==> txs[i].hash != txs[j].hash)
  }

  ghost function Ids(txs: seq<Tx>): set<TxId> {
    set i | 0 <= i < |txs| :: txs[i].hash
  }

  /** How many outputs each transaction in the pool has. */
  ghost function Lens(pool: Pool): (l: map<TxId, nat>)
    ensures l.Keys == pool.Keys
  {
    map h | h in pool :: |pool[h]|
  }

  ghost function LensOf(txs: seq<Tx>): map<TxId, nat> {
    if txs == [] then map[] else LensOf(txs[..|txs| - 1])[txs[|txs| - 1].hash := |txs[|txs| - 1].outs|]
  }

  lemma EmptyLens()
    ensures Lens(map[]) == map[] == LensOf([])
  {
  }

  lemma LensSame(pool: Pool, h: TxId, outs: seq<Option<Coin>>)
    requires h in pool && |outs| == |pool[h]|
    ensures Lens(pool[h := outs]) == Lens(pool)
  {
  }

  lemma LensAdd(pool: Pool, h: TxId, outs: seq<Option<Coin>>)
    ensures Lens(pool[h := outs]) == Lens(pool)[h := |outs|]
  {
  }

  lemma {:induction false} LensKeys(db: Records, txs: seq<Tx>, i: nat)
    requires i <= |txs| && FreshIds(db, txs)
    ensures LensOf(txs[..i]).Keys == Ids(txs[..i])
    ensures forall k :: 0 <= k < i ==> txs[k].hash in LensOf(txs[..i]) && LensOf(txs[..i])[txs[k].hash] == |txs[k].outs|
  {
    if i > 0 {
      LensKeys(db, txs, i - 1);
      IdsStep(db, txs, i - 1);
      assert txs[..i][..i - 1] == txs[..i - 1];
    }
  }

  lemma IdsStep(db: Records, txs: seq<Tx>, i: nat)
    requires i < |txs| && FreshIds(db, txs)
    ensures Ids([]) == {} && Ids(txs[..i + 1]) == Ids(txs[..i]) + {txs[i].hash}
    ensures txs[i].hash !in Ids(txs[..i]) && txs[i].hash !in db && (i == 0 <==> txs[i].hash == txs[0].hash)
  {
    var a, b := txs[..i + 1], txs[..i];
    forall h | h in Ids(a)
      ensures h in Ids(b) + {txs[i].hash}
    {
      var k :| 0 <= k < |a| && a[k].hash == h;
      if k < i {
        assert b[k].hash == h;
      }
    }
    forall h | h in Ids(b)
      ensures h in Ids(a)
    {
      var k :| 0 <= k < |b| && b[k].hash == h;
      assert a[k].hash == h;
    }
    assert a[i].hash == txs[i].hash;
  }

  lemma LensStep(db: Records, txs: seq<Tx>, i: nat)
    requires i < |txs| && FreshIds(db, txs)
    ensures LensOf(txs[..i + 1]) == LensOf(txs[..i])[txs[i].hash := |txs[i].outs|]
    ensures txs[i].hash !in LensOf(txs[..i]) && txs[i].hash !in db && (i == 0 <==> txs[i].hash == txs[0].hash)
  {
    IdsStep(db, txs, i);
    LensKeys(db, txs, i);
    assert txs[..i + 1][..i] == txs[..i];
  }

  /** The sums of a block stay below 2^64. */
  ghost predicate NoWrap(m: Coins, txs: seq<Tx>, height: nat) {
    && GetBlockReward(height) + InTotal(m, txs, height) < W64
    && OutTotal(txs) < W64
  }

  lemma {:induction false} InsOkPrefix(m: Coins, ins: seq<OutPoint>, j: nat, height: nat)
    requires j <= |ins| && InsOk(m, ins, height)
    ensures InsOk(m, ins[..j], height)
    decreases |ins|
  {
    if j < |ins| {
      InsOkPrefix(m, ins[..|ins| - 1], j, height);
      assert ins[..|ins| - 1][..j] == ins[..j];
    } else {
      assert ins[..j] == ins;
    }
  }

  lemma {:induction false} InSumPrefix(m: Coins, ins: seq<OutPoint>, j: nat)
    requires j <= |ins|
    ensures InSum(m, ins[..j]) <= InSum(m, ins)
    decreases |ins|
  {
    if j < |ins| {
      InSumPrefix(m, ins[..|ins| - 1], j);
      assert ins[..|ins| - 1][..j] == ins[..j];
    } else {
      assert ins[..j] == ins;
    }
  }

  lemma {:induction false} OutSumPrefix(outs: seq<TxOut>, j: nat)
    requires j <= |outs|
    ensures OutSum(outs[..j]) <= OutSum(outs)
    decreases |outs|
  {
    if j < |outs| {
      OutSumPrefix(outs[..|outs| - 1], j);
      assert outs[..|outs| - 1][..j] == outs[..j];
    } else {
      assert outs[..j] == outs;
    }
  }

  lemma {:induction false} TxsPrefix(m: Coins, txs: seq<Tx>, i: nat, height: nat)
    requires i <= |txs|
    ensures TxsOk(m, txs, height) ==> TxsOk(m, txs[..i], height)
    ensures InTotal(m, txs[..i], height) <= InTotal(m, txs, height)
    ensures OutTotal(txs[..i]) <= OutTotal(txs)
    decreases |txs|
  {
    if i < |txs| {
      TxsPrefix(m, txs[..|txs| - 1], i, height);
      assert txs[..|txs| - 1][..i] == txs[..i];
    } else {
      assert txs[..i] == txs;
    }
  }

  /** The outputs of one transaction, as they enter the block's temporary pool. */
  function PoolOuts(tx: Tx, coinbase: bool, height: nat): seq<Option<Coin>> {
    seq(|tx.outs|, v requires 0 <= v < |tx.outs| => Some(OutCoin(tx, v, coinbase, height)))
  }

  lemma AddedOuts(db: Records, deled: Marks, undo: Option<Records>, pool: Pool, cur: Coins, height: nat, cb: TxId, tx: Tx, coinbase: bool)
    requires Collected(db, deled, undo, pool, cur, height, cb)
    requires tx.hash !in db && tx.hash !in pool && (coinbase <==> tx.hash == cb)
    ensures Collected(db, deled, undo, pool[tx.hash := PoolOuts(tx, coinbase, height)], cur + OutCoins(tx, coinbase, height), height, cb)
  {
    hide MarksFit, UndoFits;
    var p, c := pool[tx.hash := PoolOuts(tx, coinbase, height)], cur + OutCoins(tx, coinbase, height);
    forall op
      ensures Seen(db, deled, p, op) == Get(c, op)
    {
      assert Seen(db, deled, pool, op) == Get(cur, op);
    }
  }

  /** The records of the block's own outputs that are left unspent. */
  ghost predicate AddsFit(adds: Records, pool: Pool, height: nat, cb: TxId) {
    forall h ::
      && (h in adds <==> h in pool && exists v :: 0 <= v < |pool[h]| && pool[h][v].Some?)
      && (h in adds ==> adds[h] == PoolRec(pool[h], h == cb, height))
  }

  function PoolRec(outs: seq<Option<Coin>>, coinbase: bool, height: nat): Rec {
    Rec(coinbase, height, seq(|outs|, v requires 0 <= v < |outs| =>
      if outs[v].Some? then Some(TxOut(outs[v].value.value, outs[v].value.script)) else None))
  }

  /** The input loop of one transaction. */
  method TakeInputs(db: Records, changes: BlockChanges, pool: Pool, tx: Tx, ghost m: Coins, ghost cb: TxId)
    returns (e: Result, pool': Pool, spent: seq<Coin>, txinsum: nat)
    requires Collected(db, changes.deledTxs, changes.undoData, pool, m, changes.height, cb)
    requires InSum(m, tx.ins) < W64
    modifies changes
    ensures changes.height == old(changes.height) && changes.addList == old(changes.addList)
    ensures old(changes.undoData).Some? == changes.undoData.Some?
    ensures e.Ok? <==> InsOk(m, tx.ins, changes.height)
    ensures e.Ok? ==> Collected(db, changes.deledTxs, changes.undoData, pool', m - InSet(tx.ins), changes.height, cb)
    ensures e.Ok? ==> Lens(pool') == Lens(pool) && spent == SpentCoins(m, tx.ins) && txinsum == InSum(m, tx.ins)
  {
    hide Collected;
    pool' := pool;
    spent := [];
    txinsum := 0;
    e := Ok;
    assert m - InSet([]) == m;
    assert tx.ins[..0] == [];
    for j := 0 to |tx.ins|
      invariant changes.height == old(changes.height) && changes.addList == old(changes.addList)
      invariant old(changes.undoData).Some? == changes.undoData.Some?
      invariant InsOk(m, tx.ins[..j], changes.height)
      invariant Collected(db, changes.deledTxs, changes.undoData, pool', m - InSet(tx.ins[..j]), changes.height, cb)
      invariant Lens(pool') == Lens(pool) && spent == SpentCoins(m, tx.ins[..j]) && txinsum == InSum(m, tx.ins[..j])
    {
      var inp := tx.ins[j];
      ghost var cur := m - InSet(tx.ins[..j]);
      assert tx.ins[..j + 1][..j] == tx.ins[..j] && tx.ins[..j + 1][j] == inp;
      assert cur - {inp} == m - InSet(tx.ins[..j + 1]);
      var tout;
      tout, pool' := TakeInput(db, changes, pool', inp, cur, cb);
      if tout.None? {
        if InsOk(m, tx.ins, changes.height) {
          InsOkPrefix(m, tx.ins, j + 1, changes.height);
          assert false;
        }
        e := Err;
        return;
      }
      InSumPrefix(m, tx.ins, j + 1);
      spent := spent + [tout.value];
      txinsum := (txinsum + tout.value.value) % W64;
    }
    assert tx.ins[..|tx.ins|] == tx.ins;
  }

  method SumOuts(outs: seq<TxOut>) returns (sum: nat)
    requires OutSum(outs) < W64
    ensures sum == OutSum(outs)
  {
    sum := 0;
    for j := 0 to |outs|
      invariant sum == OutSum(outs[..j])
    {
      assert outs[..j + 1][..j] == outs[..j];
      OutSumPrefix(outs, j + 1);
      sum := (sum + outs[j].value) % W64;
    }
    assert outs[..|outs|] == outs;
  }

  /** The running sums after i transactions. */
  ghost predicate SumsFit(m: Coins, txs: seq<Tx>, height: nat, env: Env, sumIn: nat, sumOut: nat, sigops: nat) {
    && sumIn == GetBlockReward(height) + InTotal(m, txs, height)
    && sumOut == OutTotal(txs)
    && sigops == SigopsTotal(m, txs, height, env)
  }

  /** Transaction i, on the coins its predecessors leave. */
  lemma TxStep(m: Coins, txs: seq<Tx>, i: nat, height: nat, env: Env)
    requires i < |txs|
    ensures var cur, tx, next := ApplyTxs(m, txs[..i], height), txs[i], txs[..i + 1];
            && ApplyTxs(m, next, height) == ApplyTx(cur, tx, i == 0, height)
            && (TxsOk(m, next, height) <==>
                  TxsOk(m, txs[..i], height) && (i > 0 ==> InsOk(cur, tx.ins, height) && OutSum(tx.outs) <= InSum(cur, tx.ins)))
            && InTotal(m, next, height) == InTotal(m, txs[..i], height) + (if i == 0 then 0 else InSum(cur, tx.ins))
            && OutTotal(next) == OutTotal(txs[..i]) + OutSum(tx.outs)
            && SigopsTotal(m, next, height, env)
            == SigopsTotal(m, txs[..i], height, env) + env.sigops(tx, if i == 0 then [] else SpentCoins(cur, tx.ins))
            && (ScriptsOk(m, next, height, env) <==>
                  ScriptsOk(m, txs[..i], height, env) && (i == 0 || env.trustedTx(tx) || env.verify(tx, SpentCoins(cur, tx.ins))))
  {
    hide InsOk, ApplyTx, OutSum, InSum, SpentCoins;
    assert txs[..i + 1][..i] == txs[..i];
  }

  lemma SumsBelow(m: Coins, txs: seq<Tx>, i: nat, height: nat)
    requires i < |txs| && NoWrap(m, txs, height)
    ensures var cur := ApplyTxs(m, txs[..i], height);
            && (i > 0 ==> InSum(cur, txs[i].ins) < W64)
            && GetBlockReward(height) + InTotal(m, txs[..i + 1], height) < W64
            && OutTotal(txs[..i + 1]) < W64 && OutSum(txs[i].outs) < W64
  {
    hide GetBlockReward, ApplyTxs, InSum, OutSum;
    TxsPrefix(m, txs, i + 1, height);
    assert txs[..i + 1][..i] == txs[..i];
  }

  /** The sums after one more transaction; the 64-bit additions do not wrap. */
  lemma SumsNext(m: Coins, txs: seq<Tx>, i: nat, height: nat, env: Env, sumIn: nat, sumOut: nat, sigops: nat, txIn: nat, txOut: nat, cost: nat)
    requires i < |txs| && NoWrap(m, txs, height) && SumsFit(m, txs[..i], height, env, sumIn, sumOut, sigops)
    requires txIn == (if i == 0 then 0 else InSum(ApplyTxs(m, txs[..i], height), txs[i].ins)) && txOut == OutSum(txs[i].outs)
    requires cost == env.sigops(txs[i], if i == 0 then [] else SpentCoins(ApplyTxs(m, txs[..i], height), txs[i].ins))
    ensures SumsFit(m, txs[..i + 1], height, env, (sumIn + txIn) % W64, (sumOut + txOut) % W64, sigops + cost)
  {
    hide InTotal, OutTotal, SigopsTotal, ApplyTxs, InSum, OutSum, SpentCoins, GetBlockReward, NoWrap, TxsOk, ScriptsOk;
    TxStep(m, txs, i, height, env);
    SumsBelow(m, txs, i, height);
  }

  lemma SumsTotal(m: Coins, txs: seq<Tx>, height: nat, env: Env, sumIn: nat, sumOut: nat, sigops: nat)
    requires SumsFit(m, txs, height, env, sumIn, sumOut, sigops)
    ensures sumIn == GetBlockReward(height) + InTotal(m, txs, height) && sumOut == OutTotal(txs) && sigops == SigopsTotal(m, txs, height, env)
  {
  }

  lemma Start(db: Records, m: Coins, deled: Marks, undo: Option<Records>, txs: seq<Tx>, height: nat, cb: TxId, env: Env)
    requires Agrees(db, m) && deled == map[] && (undo.None? || undo.value == map[])
    ensures Collected(db, deled, undo, map[], ApplyTxs(m, [], height), height, cb)
    ensures TxsOk(m, [], height) && ScriptsOk(m, [], height, env) && SumsFit(m, [], height, env, GetBlockReward(height), 0, 0)
  {
    hide GetBlockReward;
    forall op
      ensures Seen(db, deled, map[], op) == Get(m, op)
    {
      assert UnspentGet(db, op) == Get(m, op);
    }
  }

  lemma NextCoins(db: Records, deled: Marks, undo: Option<Records>, pool: Pool, cur: Coins, height: nat, cb: TxId, tx: Tx, coinbase: bool)
    requires Collected(db, deled, undo, pool, if coinbase then cur else cur - InSet(tx.ins), height, cb)
    requires tx.hash !in db && tx.hash !in pool && (coinbase <==> tx.hash == cb)
    ensures Collected(db, deled, undo, pool[tx.hash := PoolOuts(tx, coinbase, height)], ApplyTx(cur, tx, coinbase, height), height, cb)
  {
    hide Collected;
    AddedOuts(db, deled, undo, pool, if coinbase then cur else cur - InSet(tx.ins), height, cb, tx, coinbase);
  }

  /** The record of one transaction's outputs left in the pool, if any is. */
  method CollectRec(outs: seq<Option<Coin>>, height: nat, ghost coinbase: bool) returns (rec: Option<Rec>)
    requires forall v :: 0 <= v < |outs| && outs[v].Some? ==> outs[v].value.coinbase == coinbase
    ensures rec.Some? <==> exists v :: 0 <= v < |outs| && outs[v].Some?
    ensures rec.Some? ==> rec.value == PoolRec(outs, coinbase, height)
  {
    rec := None;
    for i := 0 to |outs|
      invariant rec.Some? <==> exists v :: 0 <= v < i && outs[v].Some?
      invariant rec.Some? ==> rec.value.coinbase == coinbase && rec.value.inBlock == height && |rec.value.outs| == |outs|
      invariant rec.Some? ==> forall v :: 0 <= v < |outs| ==> rec.value.outs[v] == if v < i then PoolRec(outs, coinbase, height).outs[v] else None
      invariant rec.None? ==> forall v :: 0 <= v < i ==> outs[v].None?
    {
      if outs[i].Some? {
        if rec.None? {
          rec := Some(Rec(outs[i].value.coinbase, height, seq(|outs|, _ => None)));
        }
        rec := Some(rec.value.(outs := rec.value.outs[i := Some(TxOut(outs[i].value.value, outs[i].value.script))]));
      }
    }
    if rec.Some? {
      assert rec.value.outs == PoolRec(outs, coinbase, height).outs;
    }
  }

  method CollectAdds(db: Records, pool: Pool, height: nat, ghost cb: TxId) returns (adds: Records)
    requires PoolFits(db, pool, height, cb)
    ensures AddsFit(adds, pool, height, cb)
  {
    hide AddsFit, PoolRec;
    adds := map[];
    var keys := pool.Keys;
    NoAdds(height, cb);
    assert Except(pool, keys) == map[];
    while keys != {}
      invariant keys <= pool.Keys && AddsFit(adds, Except(pool, keys), height, cb)
    {
      var k :| k in keys;
      var rec := CollectRec(pool[k], height, k == cb);
      AddOne(adds, Except(pool, keys), height, cb, k, pool[k], rec);
      assert Except(pool, keys - {k}) == Except(pool, keys)[k := pool[k]];
      keys := keys - {k};
      if rec.Some? {
        adds := adds[k := rec.value];
      }
    }
    assert Except(pool, {}) == pool;
  }

  ghost function Except(pool: Pool, keys: set<TxId>): Pool {
    map h | h in pool && h !in keys :: pool[h]
  }

  lemma NoAdds(height: nat, cb: TxId)
    ensures AddsFit(map[], map[], height, cb)
  {
  }

  lemma AddOne(adds: Records, pool: Pool, height: nat, cb: TxId, k: TxId, outs: seq<Option<Coin>>, rec: Option<Rec>)
    requires AddsFit(adds, pool, height, cb) && k !in pool
    requires rec.Some? <==> exists v :: 0 <= v < |outs| && outs[v].Some?
    requires rec.Some? ==> rec.value == PoolRec(outs, k == cb, height)
    ensures AddsFit(if rec.Some? then adds[k := rec.value] else adds, pool[k := outs], height, cb)
  {
    hide PoolRec;
    assert k !in adds;
  }

  lemma CollectedPool(db: Records, deled: Marks, undo: Option<Records>, pool: Pool, cur: Coins, height: nat, cb: TxId)
    requires Collected(db, deled, undo, pool, cur, height, cb)
    ensures PoolFits(db, pool, height, cb)
  {
  }

  /** The body of the transaction loop; the caller keeps the block's sums. */
  method OneTx(db: Records, changes: BlockChanges, pool: Pool, tx: Tx, first: bool, trusted: bool, env: Env, ghost cur: Coins, ghost cb: TxId)
    returns (e: Result, pool': Pool, txinsum: nat, txoutsum: nat, cost: nat, bad: bool)
    requires Collected(db, changes.deledTxs, changes.undoData, pool, cur, changes.height, cb)
    requires tx.hash !in db && tx.hash !in pool && (first <==> tx.hash == cb)
    requires (!first ==> InSum(cur, tx.ins) < W64) && OutSum(tx.outs) < W64
    modifies changes
    ensures changes.height == old(changes.height) && changes.undoData.Some? == old(changes.undoData).Some?
    ensures e.Ok? <==> if first then env.cbScriptOk(tx) else InsOk(cur, tx.ins, changes.height) && OutSum(tx.outs) <= InSum(cur, tx.ins)
    ensures e.Ok? ==> Collected(db, changes.deledTxs, changes.undoData, pool', ApplyTx(cur, tx, first, changes.height), changes.height, cb)
    ensures e.Ok? ==> Lens(pool') == Lens(pool)[tx.hash := |tx.outs|]
    ensures e.Ok? ==> txinsum == (if first then 0 else InSum(cur, tx.ins)) && txoutsum == OutSum(tx.outs)
    ensures e.Ok? ==> cost == env.sigops(tx, if first then [] else SpentCoins(cur, tx.ins))
    ensures e.Ok? ==> (bad <==> !first && !trusted && !(env.trustedTx(tx) || env.verify(tx, SpentCoins(cur, tx.ins))))
  {
    hide Collected, InsOk, InSum, OutSum, SpentCoins, ApplyTx, Lens;
    var spent := [];
    e, pool', txinsum, txoutsum, cost, bad := Ok, pool, 0, 0, 0, false;
    if !first {
      e, pool', spent, txinsum := TakeInputs(db, changes, pool, tx, cur, cb);
      if e.Err? {
        return;
      }
      if !(trusted || env.trustedTx(tx)) {
        bad := !env.verify(tx, spent);
      }
    } else {
      if !env.cbScriptOk(tx) {
        e := Err;
        return;
      }
    }
    cost := env.sigops(tx, spent);
    txoutsum := SumOuts(tx.outs);
    if !first && txoutsum > txinsum {
      e := Err;
      return;
    }
    NextCoins(db, changes.deledTxs, changes.undoData, pool', cur, changes.height, cb, tx, first);
    LensAdd(pool', tx.hash, PoolOuts(tx, first, changes.height));
    pool' := pool'[tx.hash := PoolOuts(tx, first, changes.height)];
  }

  /**
   * commitTxs. It accepts a block exactly when BlockOk holds on the coins, and then the changes describe the
   * difference between the records and the coins the block leaves.
   */
  method CommitTxs(db: Records, bl: Block, changes: BlockChanges, env: Env, ghost m: Coins)
    returns (e: Result, ghost pool: Pool)
    requires |bl.txs| >= 1 && Agrees(db, m) && FreshIds(db, bl.txs) && NoWrap(m, bl.txs, changes.height)
    requires changes.deledTxs == map[] && (changes.undoData.None? || changes.undoData.value == map[])
    modifies changes
    ensures changes.height == old(changes.height) && changes.undoData.Some? == old(changes.undoData).Some?
    ensures e.Ok? <==> BlockOk(m, bl, changes.height, env)
    ensures e.Ok? ==> Collected(db, changes.deledTxs, changes.undoData, pool, ApplyTxs(m, bl.txs, changes.height), changes.height, bl.txs[0].hash)
    ensures e.Ok? ==> AddsFit(changes.addList, pool, changes.height, bl.txs[0].hash)
    ensures e.Ok? ==> Lens(pool) == LensOf(bl.txs)
  {
    hide SumsFit, Collected, TxsOk, ScriptsOk, SigopsTotal, InTotal, OutTotal, ApplyTxs, ApplyTx, InsOk, InSum, OutSum, SpentCoins, GetBlockReward, AddsFit, Agrees, PoolOuts, NoWrap, FreshIds, Lens, LensOf;
    var height, txs := changes.height, bl.txs;
    ghost var cb := txs[0].hash;
    var sumblockin: nat := GetBlockReward(height);
    var sumblockout: nat := 0;
    var sigops: nat := 0;
    var verErrs := false;
    var blUnsp: Pool := map[];
    pool, e := map[], Ok;
    EmptyLens();
    Start(db, m, changes.deledTxs, changes.undoData, txs, height, cb, env);
    assert txs[..0] == [];
    for i := 0 to |txs|
      invariant changes.height == height && changes.undoData.Some? == old(changes.undoData).Some?
      invariant i > 0 ==> env.cbScriptOk(txs[0])
      invariant TxsOk(m, txs[..i], height)
      invariant Collected(db, changes.deledTxs, changes.undoData, blUnsp, ApplyTxs(m, txs[..i], height), height, cb)
      invariant SumsFit(m, txs[..i], height, env, sumblockin, sumblockout, sigops)
      invariant !bl.trusted ==> (verErrs <==> !ScriptsOk(m, txs[..i], height, env))
      invariant Lens(blUnsp) == LensOf(txs[..i])
    {
      var tx := txs[i];
      ghost var cur := ApplyTxs(m, txs[..i], height);
      TxStep(m, txs, i, height, env);
      TxsPrefix(m, txs, i + 1, height);
      SumsBelow(m, txs, i, height);
      LensStep(db, txs, i);
      var txinsum, txoutsum, cost, bad;
      e, blUnsp, txinsum, txoutsum, cost, bad := OneTx(db, changes, blUnsp, tx, i == 0, bl.trusted, env, cur, cb);
      if e.Err? {
        return;
      }
      SumsNext(m, txs, i, height, env, sumblockin, sumblockout, sigops, txinsum, txoutsum, cost);
      verErrs := verErrs || bad;
      sigops := sigops + cost;
      sumblockin := (sumblockin + txinsum) % W64;
      sumblockout := (sumblockout + txoutsum) % W64;
    }
    assert txs[..|txs|] == txs;
    SumsTotal(m, txs, height, env, sumblockin, sumblockout, sigops);
    if !bl.trusted && verErrs {
      return Err, map[];
    }
    if sumblockin < sumblockout {
      return Err, map[];
    }
    if sigops > MAX_BLOCK_SIGOPS_COST {
      return Err, map[];
    }
    CollectedPool(db, changes.deledTxs, changes.undoData, blUnsp, ApplyTxs(m, txs, height), height, cb);
    changes.addList := CollectAdds(db, blUnsp, height, cb);
    e, pool := Ok, blUnsp;
  }
}
