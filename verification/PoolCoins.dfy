/** The inputs of a transaction for the pool, as coins: those of the records, with the pool's own outputs added. */
module PoolCoins {
  import opened Utxo
  import opened Seqs
  import opened Sums
  import opened Supply
  import opened Mempool
  import opened TxAccept
  import opened Powers

  ghost function PoolPoints(T: Txs): (s: set<OutPoint>)
    ensures forall op :: op in s <==> op.hash in T && op.vout < |T[op.hash].tx.outs|
  {
    set k, v | k in T && 0 <= v < |T[k].tx.outs| :: OutPoint(k, v)
  }

  /** The coins m with the outputs of every transaction in the pool, as if all of them were mined at this height. */
  ghost function WithPool(m: Coins, T: Txs, height: nat): Coins {
    m + map op | op in PoolPoints(T) ::
      Coin(T[op.hash].tx.outs[op.vout].value, T[op.hash].tx.outs[op.vout].script, false, height, |T[op.hash].tx.outs|)
  }

  /** HandleNetTx lets an input through exactly when it is such a coin, mature, and allowed to come from where it does. */
  lemma InputIsCoin(T: Txs, db: Records, m: Coins, height: nat, memAllowed: bool, op: OutPoint)
    requires Agrees(db, m)
    ensures InputOk(T, db, height, memAllowed, op) <==>
      && op in WithPool(m, T, height) && (op.hash in T ==> memAllowed && op in PoolPoints(T))
      && (op.hash !in T && m[op].coinbase ==> height >= m[op].inBlock + 100)
    ensures InputOk(T, db, height, memAllowed, op) ==> InputValue(T, db, op) == WithPool(m, T, height)[op].value
  {
    assert UnspentGet(db, op) == Get(m, op);
  }

  /** What it adds up is the value of those coins. */
  lemma {:induction false} SumOfCoins(T: Txs, db: Records, m: Coins, height: nat, memAllowed: bool, ins: seq<OutPoint>)
    requires Agrees(db, m) && EachInputOk(T, db, height, memAllowed, ins)
    ensures InputSum(T, db, ins) == InSum(WithPool(m, T, height), ins)
  {
    hide InputOk, InputValue, WithPool, Agrees;
    if ins != [] {
      var init, last := ins[..|ins| - 1], ins[|ins| - 1];
      assert ins == init + [last];
      SumOfCoins(T, db, m, height, memAllowed, init);
      assert last in ins;
      InputIsCoin(T, db, m, height, memAllowed, last);
    }
  }

  lemma CoinMature(T: Txs, db: Records, m: Coins, height: nat, memAllowed: bool, op: OutPoint)
    requires Agrees(db, m) && InputOk(T, db, height, memAllowed, op)
    ensures op in WithPool(m, T, height) && !Immature(WithPool(m, T, height)[op], height)
  {
    assert UnspentGet(db, op) == Get(m, op);
  }

  lemma {:induction false} CoinsFound(T: Txs, db: Records, m: Coins, height: nat, memAllowed: bool, ins: seq<OutPoint>)
    requires Agrees(db, m) && EachInputOk(T, db, height, memAllowed, ins) && Distinct(ins)
    ensures InsOk(WithPool(m, T, height), ins, height)
  {
    hide InputOk, WithPool, Agrees, Immature;
    if ins != [] {
      var init, last := ins[..|ins| - 1], ins[|ins| - 1];
      assert ins == init + [last];
      CoinsFound(T, db, m, height, memAllowed, init);
      assert last in ins;
      CoinMature(T, db, m, height, memAllowed, last);
      assert last !in init;
    }
  }

  lemma IdsOf(m: Coins, T: Txs, height: nat)
    ensures forall op :: op in WithPool(m, T, height) ==> op in m || op.hash in T
  {
  }

  /**
   * The fee HandleNetTx files with a transaction is exactly the value that is lost when the transaction takes its inputs
   * and makes its outputs.
   */
  lemma FeeIsLost(T: Txs, db: Records, m: Coins, height: nat, memAllowed: bool, tx: Tx, fee: nat)
    requires Agrees(db, m) && EachInputOk(T, db, height, memAllowed, tx.ins) && Distinct(tx.ins)
    requires tx.hash !in T && forall op :: op in m ==> op.hash != tx.hash
    requires InputSum(T, db, tx.ins) < W64 && OutSum(tx.outs) < W64
    requires fee == InputSum(T, db, tx.ins) % W64 - OutSum(tx.outs) % W64
    ensures var M := WithPool(m, T, height);
      InSum(M, tx.ins) == OutSum(tx.outs) + fee && Total(ApplyTx(M, tx, false, height)) + fee == Total(M)
  {
    hide Total, InsOk, InSum, OutSum, InputSum, Agrees, EachInputOk, WithPool, ApplyTx, Distinct;
    SumOfCoins(T, db, m, height, memAllowed, tx.ins);
    CoinsFound(T, db, m, height, memAllowed, tx.ins);
    IdsOf(m, T, height);
    TotalApplied(WithPool(m, T, height), tx, false, height);
  }

  // Replacing by fee.

  /** Not every one of the replaced pays as much for its weight as fee for weight, if all of them together pay less. */
  lemma {:induction false} OnePaysLess(T: Txs, ks: set<TxId>, fee: nat, weight: nat) returns (k: TxId)
    requires ks <= T.Keys && Sum(Fees(T, ks)) * weight < fee * Sum(Weights(T, ks))
    ensures k in ks && T[k].Fee * weight < fee * T[k].weight
    decreases |ks|
  {
    NoSums(T);
    k :| k in ks;
    var rest := ks - {k};
    SumWithout(Fees(T, ks), k);
    SumWithout(Weights(T, ks), k);
    assert Fees(T, ks) - {k} == Fees(T, rest) && Weights(T, ks) - {k} == Weights(T, rest);
    if T[k].Fee * weight >= fee * T[k].weight {
      Split(T[k].Fee, Sum(Fees(T, rest)), weight, fee, T[k].weight, Sum(Weights(T, rest)));
      k := OnePaysLess(T, rest, fee, weight);
    }
  }

  lemma NoSums(T: Txs)
    ensures Sum(Fees(T, {})) == 0 && Sum(Weights(T, {})) == 0
  {
    assert Fees(T, {}) == map[] && Weights(T, {}) == map[];
  }

  lemma Split(f: nat, g: nat, weight: nat, fee: nat, w: nat, v: nat)
    requires (f + g) * weight < fee * (w + v) && f * weight >= fee * w
    ensures g * weight < fee * v
  {
    assert (f + g) * weight == f * weight + g * weight;
    assert fee * (w + v) == fee * w + fee * v;
  }

  /**
   * Nothing spends more than its inputs are worth. From elsewhere nothing comes in below the minimum fee, or in the place of
   * others without paying more for its weight than they do together, and than one of them alone, where 64 bits are enough.
   */
  lemma FeeIsEnough(T: Txs, rbf: set<TxId>, totinp: nat, totout: nat, weight: nat, local: bool, minFee: nat) returns (k: TxId)
    requires rbf <= T.Keys && FeeOk(T, rbf, totinp, totout, weight, local, minFee)
    requires Sum(Fees(T, rbf)) * weight < W64 && totinp * Sum(Weights(T, rbf)) < W64 && (weight > 0 || Sum(Fees(T, rbf)) < W64)
    ensures totout <= totinp && (!local ==> totinp - totout >= minFee)
    ensures !local && rbf != {} ==>
      var fee := totinp - totout;
      && Sum(Fees(T, rbf)) * weight < fee * Sum(Weights(T, rbf))
      && k in rbf && T[k].Fee * weight < fee * T[k].weight
  {
    k := 0;
    if !local && rbf != {} {
      var fee, f, w: nat := totinp - totout, Sum(Fees(T, rbf)), Sum(Weights(T, rbf));
      Narrow(f, weight, fee, totinp, w);
      k := OnePaysLess(T, rbf, fee, weight);
    }
  }

  lemma Narrow(f: nat, weight: nat, fee: nat, totinp: nat, w: nat)
    requires f * weight < W64 && totinp * w < W64 && fee <= totinp && (weight > 0 || f < W64)
    ensures f % W64 * weight % W64 == f * weight && fee * w % W64 == fee * w
  {
    MulLe(fee, totinp, w);
    if weight > 0 {
      MulLe(1, weight, f);
      assert f * weight == weight * f;
    }
  }
}
