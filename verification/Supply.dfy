/** The money supply: what an accepted block can add to the total value of the unspent outputs. */
module Supply {
  import opened Utxo
  import opened CommitTxs
  import opened ChainTree
  import opened ChainCoins
  import opened Sums

  const SUPPLY_LIMIT := 2100000000000000

  ghost function Values(m: Coins): map<OutPoint, nat> {
    map op | op in m :: m[op].value
  }

  ghost function Total(m: Coins): nat {
    Sum(Values(m))
  }

  lemma TotalWithout(m: Coins, op: OutPoint)
    requires op in m
    ensures Total(m) == m[op].value + Total(m - {op})
  {
    SumWithout(Values(m), op);
    assert Values(m - {op}) == Values(m) - {op};
  }

  lemma TotalAdd(m: Coins, op: OutPoint, coin: Coin)
    ensures Total(m[op := coin]) <= Total(m) + coin.value
    ensures op !in m ==> Total(m[op := coin]) == Total(m) + coin.value
  {
    SumAdd(Values(m), op, coin.value);
    assert Values(m[op := coin]) == Values(m)[op := coin.value];
  }

  /** Spending takes away exactly what is spent: no outpoint is spent twice. */
  lemma {:induction false} TotalSpent(m: Coins, ins: seq<OutPoint>, height: nat)
    requires InsOk(m, ins, height)
    ensures Total(m - InSet(ins)) + InSum(m, ins) == Total(m)
  {
    if ins == [] {
      assert m - InSet(ins) == m;
    } else {
      var init, last := ins[..|ins| - 1], ins[|ins| - 1];
      TotalSpent(m, init, height);
      var rest := m - InSet(init);
      TotalWithout(rest, last);
      assert rest - {last} == m - InSet(ins);
    }
  }

  ghost function FirstOuts(tx: Tx, k: nat, coinbase: bool, height: nat): Coins
    requires k <= |tx.outs|
  {
    if k == 0 then map[] else FirstOuts(tx, k - 1, coinbase, height)[OutPoint(tx.hash, k - 1) := OutCoin(tx, k - 1, coinbase, height)]
  }

  lemma {:induction false} FirstOutsAre(tx: Tx, k: nat, coinbase: bool, height: nat)
    requires k <= |tx.outs|
    ensures forall op :: op in FirstOuts(tx, k, coinbase, height) <==> op in Points(tx.hash, k)
    ensures forall op :: op in Points(tx.hash, k) ==> FirstOuts(tx, k, coinbase, height)[op] == OutCoin(tx, op.vout, coinbase, height)
  {
    if k > 0 {
      FirstOutsAre(tx, k - 1, coinbase, height);
    }
  }

  lemma {:induction false} TotalOuts(m: Coins, tx: Tx, k: nat, coinbase: bool, height: nat)
    requires k <= |tx.outs|
    ensures Total(m + FirstOuts(tx, k, coinbase, height)) <= Total(m) + OutSum(tx.outs[..k])
  {
    hide Total;
    if k == 0 {
      assert m + map[] == m;
    } else {
      TotalOuts(m, tx, k - 1, coinbase, height);
      assert tx.outs[..k][..k - 1] == tx.outs[..k - 1];
      var op, coin := OutPoint(tx.hash, k - 1), OutCoin(tx, k - 1, coinbase, height);
      assert m + FirstOuts(tx, k, coinbase, height) == (m + FirstOuts(tx, k - 1, coinbase, height))[op := coin];
      TotalAdd(m + FirstOuts(tx, k - 1, coinbase, height), op, coin);
    }
  }

  lemma TotalTx(m: Coins, tx: Tx, coinbase: bool, height: nat)
    requires coinbase || InsOk(m, tx.ins, height)
    ensures Total(ApplyTx(m, tx, coinbase, height)) + (if coinbase then 0 else InSum(m, tx.ins)) <= Total(m) + OutSum(tx.outs)
  {
    hide Total, InsOk, InSum, OutSum;
    var rest := if coinbase then m else m - InSet(tx.ins);
    if !coinbase {
      TotalSpent(m, tx.ins, height);
    }
    var n := |tx.outs|;
    FirstOutsAre(tx, n, coinbase, height);
    TotalOuts(rest, tx, n, coinbase, height);
    assert tx.outs[..n] == tx.outs;
    assert FirstOuts(tx, n, coinbase, height) == OutCoins(tx, coinbase, height);
  }

  lemma {:induction false} TotalTxs(m: Coins, txs: seq<Tx>, height: nat)
    requires TxsOk(m, txs, height)
    ensures Total(ApplyTxs(m, txs, height)) + InTotal(m, txs, height) <= Total(m) + OutTotal(txs)
  {
    hide InsOk, ApplyTx, OutSum, InSum, Total;
    if txs != [] {
      var prefix, tx := txs[..|txs| - 1], txs[|txs| - 1];
      TotalTxs(m, prefix, height);
      TotalTx(ApplyTxs(m, prefix, height), tx, |txs| == 1, height);
    }
  }

  lemma OneMoreOut(m: Coins, tx: Tx, k: nat, coinbase: bool, height: nat)
    requires k < |tx.outs| && forall op :: op in m ==> op.hash != tx.hash
    ensures var op, before := OutPoint(tx.hash, k), m + FirstOuts(tx, k, coinbase, height);
      && op !in before && OutCoin(tx, k, coinbase, height).value == tx.outs[k].value
      && m + FirstOuts(tx, k + 1, coinbase, height) == before[op := OutCoin(tx, k, coinbase, height)]
  {
    FirstOutsAre(tx, k, coinbase, height);
  }

  /** The outputs of a transaction whose id is new add exactly their values. */
  lemma {:induction false} TotalNewOuts(m: Coins, tx: Tx, k: nat, coinbase: bool, height: nat)
    requires k <= |tx.outs| && forall op :: op in m ==> op.hash != tx.hash
    ensures Total(m + FirstOuts(tx, k, coinbase, height)) == Total(m) + OutSum(tx.outs[..k])
  {
    hide Total, OutCoin;
    if k == 0 {
      assert m + map[] == m;
    } else {
      TotalNewOuts(m, tx, k - 1, coinbase, height);
      assert tx.outs[..k][..k - 1] == tx.outs[..k - 1];
      OneMoreOut(m, tx, k - 1, coinbase, height);
      hide FirstOuts;
      TotalAdd(m + FirstOuts(tx, k - 1, coinbase, height), OutPoint(tx.hash, k - 1), OutCoin(tx, k - 1, coinbase, height));
    }
  }

  /** A transaction whose id is new takes away the value of its inputs and adds that of its outputs. */
  lemma TotalApplied(m: Coins, tx: Tx, coinbase: bool, height: nat)
    requires (coinbase || InsOk(m, tx.ins, height)) && forall op :: op in m ==> op.hash != tx.hash
    ensures Total(ApplyTx(m, tx, coinbase, height)) + (if coinbase then 0 else InSum(m, tx.ins)) == Total(m) + OutSum(tx.outs)
  {
    hide Total, InsOk, InSum, OutSum;
    var rest, n := if coinbase then m else m - InSet(tx.ins), |tx.outs|;
    if !coinbase {
      TotalSpent(m, tx.ins, height);
    }
    FirstOutsAre(tx, n, coinbase, height);
    TotalNewOuts(rest, tx, n, coinbase, height);
    assert tx.outs[..n] == tx.outs;
    assert FirstOuts(tx, n, coinbase, height) == OutCoins(tx, coinbase, height);
  }

  lemma {:induction false} IdsAfter(m: Coins, txs: seq<Tx>, k: nat, height: nat, op: OutPoint)
    requires k <= |txs| && op in ApplyTxs(m, txs[..k], height)
    ensures op in m || exists i :: 0 <= i < k && op.hash == txs[i].hash
  {
    if k > 0 {
      assert txs[..k][..k - 1] == txs[..k - 1];
      if op !in OutCoins(txs[k - 1], k == 1, height) {
        IdsAfter(m, txs, k - 1, height, op);
      }
    }
  }

  /** A block whose ids are new changes the total by exactly what it pays out less what it takes in. */
  lemma {:induction false} TotalAfter(m: Coins, txs: seq<Tx>, k: nat, height: nat)
    requires k <= |txs| && FreshCoins(m, txs) && TxsOk(m, txs[..k], height)
    ensures Total(ApplyTxs(m, txs[..k], height)) + InTotal(m, txs[..k], height) == Total(m) + OutTotal(txs[..k])
  {
    hide InsOk, ApplyTx, OutSum, InSum, Total;
    if k > 0 {
      assert txs[..k][..k - 1] == txs[..k - 1];
      TotalAfter(m, txs, k - 1, height);
      var cur, tx := ApplyTxs(m, txs[..k - 1], height), txs[k - 1];
      forall op | op in cur
        ensures op.hash != tx.hash
      {
        IdsAfter(m, txs, k - 1, height, op);
      }
      TotalApplied(cur, tx, k == 1, height);
    }
  }

  /** An accepted block raises the total by its subsidy at most. */
  lemma BlockRaisesTotal(m: Coins, bl: Block, height: nat, env: Env)
    requires |bl.txs| >= 1 && BlockOk(m, bl, height, env)
    ensures Total(ApplyTxs(m, bl.txs, height)) <= Total(m) + GetBlockReward(height)
  {
    hide Total, ApplyTxs, InTotal, OutTotal, TxsOk, ScriptsOk, SigopsTotal, GetBlockReward;
    TotalTxs(m, bl.txs, height);
  }

  // The sum of the subsidies.

  ghost function RewardSum(height: nat): nat {
    if height == 0 then 0 else RewardSum(height - 1) + GetBlockReward(height)
  }

  lemma {:induction false} ShrNext(x: nat, k: nat)
    ensures Shr(x, k + 1) == Shr(x, k) / 2
  {
    if k > 0 {
      ShrNext(x / 2, k - 1);
    }
  }

  /** The subsidy is 50 coins at first, and half of what it was, rounded down, 210000 blocks later. */
  lemma Halving(height: nat)
    ensures height < 210000 ==> GetBlockReward(height) == 5000000000
    ensures GetBlockReward(height + 210000) == GetBlockReward(height) / 2
  {
    assert (height + 210000) / 210000 == height / 210000 + 1;
    ShrNext(5000000000, height / 210000);
  }

  /** What is left to mine, at the present subsidy, until the next halving, and as much again as a whole period of it. */
  ghost function Ahead(height: nat): int {
    (419999 - height % 210000) * GetBlockReward(height)
  }

  lemma AheadNext(height: nat)
    ensures Ahead(height + 1) + GetBlockReward(height + 1) <= Ahead(height)
  {
    var k, r, r' := height % 210000, GetBlockReward(height), GetBlockReward(height + 1);
    if k < 209999 {
      assert (height + 1) / 210000 == height / 210000 && (height + 1) % 210000 == k + 1;
      assert (419999 - (k + 1)) * r + r == (419999 - k) * r;
    } else {
      assert (height + 1) / 210000 == height / 210000 + 1 && (height + 1) % 210000 == 0;
      ShrNext(5000000000, height / 210000);
      assert 420000 * r' <= 210000 * r;
    }
  }

  lemma AheadStart()
    ensures Ahead(0) == 419999 * 5000000000
  {
    assert GetBlockReward(0) == 5000000000;
  }

  lemma AheadNotNegative(height: nat)
    ensures Ahead(height) >= 0
  {
    var a, b: nat := 419999 - height % 210000, GetBlockReward(height);
    assert a * b >= 0;
  }

  lemma {:induction false} RewardsBounded(height: nat)
    ensures RewardSum(height) + Ahead(height) <= 419999 * 5000000000
    ensures RewardSum(height) < SUPPLY_LIMIT
  {
    hide Ahead, GetBlockReward;
    AheadNotNegative(height);
    if height > 0 {
      RewardsBounded(height - 1);
      AheadNext(height - 1);
    } else {
      AheadStart();
    }
  }

  /** The blocks up to n were all paid for. */
  lemma {:induction false} SupplyAt(content: Content, n: BlockTreeNode)
    requires Accepted(content, n)
    ensures Total(CoinsAt(content, n)) <= RewardSum(n.Height) < SUPPLY_LIMIT
    decreases n.Height
  {
    hide ApplyTxs, InTotal, OutTotal, TxsOk, GetBlockReward;
    RewardsBounded(n.Height);
    if n.Parent != null && n.Height == n.Parent.Height + 1 {
      SupplyAt(content, n.Parent);
      TotalTxs(CoinsAt(content, n.Parent), content(n.BlockHash), n.Height);
    } else {
      assert CoinsAt(content, n) == map[];
    }
  }
}
