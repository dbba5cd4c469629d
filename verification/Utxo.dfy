/** Unspent outputs: the records the database keeps, and the map from outpoint to coin they stand for. */
module Utxo {
  datatype Option<+T> = None | Some(value: T)

  /** A 256-bit transaction id. The database key is its first 8 bytes, taken to be unique. */
  type TxId = nat
  type Script = seq<nat>

  datatype OutPoint = OutPoint(hash: TxId, vout: nat)
  datatype TxOut = TxOut(value: nat, script: Script)

  /** One database record: a transaction's outputs, the spent ones gone. */
  datatype Rec = Rec(coinbase: bool, inBlock: nat, outs: seq<Option<TxOut>>)
  type Records = map<TxId, Rec>

  /** One unspent output on its own, with what its record says of it. */
  datatype Coin = Coin(value: nat, script: Script, coinbase: bool, inBlock: nat, voutCount: nat)
  type Coins = map<OutPoint, Coin>

  function Get<K, V>(m: map<K, V>, k: K): Option<V> {
    if k in m then Some(m[k]) else None
  }

  function RecCoin(rec: Rec, vout: nat): Option<Coin> {
    if vout < |rec.outs| && rec.outs[vout].Some? then
      Some(Coin(rec.outs[vout].value.value, rec.outs[vout].value.script, rec.coinbase, rec.inBlock, |rec.outs|))
    else None
  }

  /** UnspentGet. */
  function UnspentGet(db: Records, op: OutPoint): Option<Coin> {
    if op.hash in db then RecCoin(db[op.hash], op.vout) else None
  }

  /** The records hold exactly the coins of m. */
  ghost predicate Agrees(db: Records, m: Coins) {
    forall op :: UnspentGet(db, op) == Get(m, op)
  }

  predicate Live(rec: Rec) {
    exists v :: 0 <= v < |rec.outs| && rec.outs[v].Some?
  }

  /** No record without an unspent output is kept. */
  ghost predicate Canonical(db: Records) {
    forall h :: h in db ==> Live(db[h])
  }

  lemma RecDetermined(r1: Rec, r2: Rec)
    requires Live(r1)
    requires forall v: nat :: RecCoin(r1, v) == RecCoin(r2, v)
    ensures r1 == r2
  {
    var v :| 0 <= v < |r1.outs| && r1.outs[v].Some?;
    assert RecCoin(r1, v) == RecCoin(r2, v);
    forall u | 0 <= u < |r1.outs|
      ensures r1.outs[u] == r2.outs[u]
    {
      assert RecCoin(r1, u) == RecCoin(r2, u);
    }
  }

  /** The coins determine the records. */
  lemma CoinsDetermineRecords(db1: Records, db2: Records, m: Coins)
    requires Canonical(db1) && Canonical(db2) && Agrees(db1, m) && Agrees(db2, m)
    ensures db1 == db2
  {
    forall h | h in db1
      ensures h in db2 && db1[h] == db2[h]
    {
      Included(db1, db2, m, h);
    }
    forall h | h in db2
      ensures h in db1
    {
      Included(db2, db1, m, h);
    }
  }

  lemma Included(db1: Records, db2: Records, m: Coins, h: TxId)
    requires Canonical(db1) && Canonical(db2) && Agrees(db1, m) && Agrees(db2, m) && h in db1
    ensures h in db2 && db1[h] == db2[h]
  {
    var v :| 0 <= v < |db1[h].outs| && db1[h].outs[v].Some?;
    assert UnspentGet(db1, OutPoint(h, v)) == UnspentGet(db2, OutPoint(h, v));
    forall v: nat
      ensures RecCoin(db1[h], v) == RecCoin(db2[h], v)
    {
      assert UnspentGet(db1, OutPoint(h, v)) == UnspentGet(db2, OutPoint(h, v));
    }
    RecDetermined(db1[h], db2[h]);
  }

  // Blocks, and the plain meaning of applying one.

  datatype Tx = Tx(hash: TxId, ins: seq<OutPoint>, outs: seq<TxOut>)
  datatype Block = Block(hash: nat, txs: seq<Tx>, trusted: bool)

  const COINBASE_MATURITY := 100
  const MAX_BLOCK_SIGOPS_COST := 80000
  const W64 := 0x1_0000_0000_0000_0000

  predicate Immature(coin: Coin, height: nat) {
    coin.coinbase && height - coin.inBlock < COINBASE_MATURITY
  }

  function OutCoin(tx: Tx, v: nat, coinbase: bool, height: nat): Coin
    requires v < |tx.outs|
  {
    Coin(tx.outs[v].value, tx.outs[v].script, coinbase, height, |tx.outs|)
  }

  function OutCoins(tx: Tx, coinbase: bool, height: nat): Coins {
    map op: OutPoint | op in Points(tx.hash, |tx.outs|) :: OutCoin(tx, op.vout, coinbase, height)
  }

  function Points(hash: TxId, n: nat): (s: set<OutPoint>)
    ensures forall op :: op in s <==> op.hash == hash && op.vout < n
  {
    set v | 0 <= v < n :: OutPoint(hash, v)
  }

  function InSet(ins: seq<OutPoint>): set<OutPoint> {
    set op | op in ins
  }

  /** Inputs are spent in order, each at most once. A block's own coinbase is immature too. */
  ghost predicate InsOk(m: Coins, ins: seq<OutPoint>, height: nat) {
    if ins == [] then true
    else
      var last := ins[|ins| - 1];
      && InsOk(m, ins[..|ins| - 1], height)
      && last in m && last !in InSet(ins[..|ins| - 1])
      && !Immature(m[last], height)
  }

  ghost function InSum(m: Coins, ins: seq<OutPoint>): nat {
    if ins == [] then 0
    else InSum(m, ins[..|ins| - 1]) + (if ins[|ins| - 1] in m then m[ins[|ins| - 1]].value else 0)
  }

  ghost function OutSum(outs: seq<TxOut>): nat {
    if outs == [] then 0 else OutSum(outs[..|outs| - 1]) + outs[|outs| - 1].value
  }

  /** The fold: each transaction takes its inputs away and adds its outputs. The first one has no inputs. */
  ghost function ApplyTx(m: Coins, tx: Tx, coinbase: bool, height: nat): Coins {
    (if coinbase then m else m - InSet(tx.ins)) + OutCoins(tx, coinbase, height)
  }

  ghost function ApplyTxs(m: Coins, txs: seq<Tx>, height: nat): Coins {
    if txs == [] then m
    else ApplyTx(ApplyTxs(m, txs[..|txs| - 1], height), txs[|txs| - 1], |txs| == 1, height)
  }
}
