/** When a block is accepted, transaction by transaction. */
module Acceptance {
  import opened Utxo
  import opened CommitTxs
  import opened ChainCoins
  import opened Seqs
  import opened Supply

  /** The inputs are different coins, those of a coinbase a hundred blocks old. */
  lemma {:induction false} InputsAre(m: Coins, ins: seq<OutPoint>, height: nat)
    ensures InsOk(m, ins, height) <==>
      Distinct(ins) && forall op :: op in ins ==> op in m && (m[op].coinbase ==> height >= m[op].inBlock + 100)
  {
    if ins != [] {
      var init, last := ins[..|ins| - 1], ins[|ins| - 1];
      assert ins == init + [last];
      InputsAre(m, init, height);
      assert Distinct(ins) <==> Distinct(init) && last !in init by {
        if last !in init && Distinct(init) {
          DistinctAppend(init, last);
        }
      }
    }
  }

  /** The script checks see the coin of each input, in the order of the inputs. */
  lemma {:induction false} CoinsShown(m: Coins, ins: seq<OutPoint>, i: nat)
    requires (forall op :: op in ins ==> op in m) && i < |ins|
    ensures |SpentCoins(m, ins)| == |ins| && SpentCoins(m, ins)[i] == m[ins[i]]
  {
    var init, last := ins[..|ins| - 1], ins[|ins| - 1];
    assert ins == init + [last];
    if init != [] {
      CoinsShown(m, init, if i < |init| then i else 0);
    }
  }

  /** Transaction i finds its inputs among the coins left by those before it, and does not spend more than them. */
  ghost predicate Covered(m: Coins, txs: seq<Tx>, i: nat, height: nat)
    requires i < |txs|
  {
    var cur := ApplyTxs(m, txs[..i], height);
    InsOk(cur, txs[i].ins, height) && OutSum(txs[i].outs) <= InSum(cur, txs[i].ins)
  }

  ghost predicate Signed(m: Coins, txs: seq<Tx>, i: nat, height: nat, env: Env)
    requires i < |txs|
  {
    env.trustedTx(txs[i]) || env.verify(txs[i], SpentCoins(ApplyTxs(m, txs[..i], height), txs[i].ins))
  }

  lemma {:induction false} TxsAre(m: Coins, txs: seq<Tx>, k: nat, height: nat, env: Env)
    requires k <= |txs|
    ensures TxsOk(m, txs[..k], height) <==> forall i :: 1 <= i < k ==> Covered(m, txs, i, height)
    ensures ScriptsOk(m, txs[..k], height, env) <==> forall i :: 1 <= i < k ==> Signed(m, txs, i, height, env)
  {
    hide ApplyTxs, InsOk, InSum, OutSum, SpentCoins;
    if k == 0 {
      assert txs[..0] == [];
    } else {
      assert txs[..k][..k - 1] == txs[..k - 1];
      TxsAre(m, txs, k - 1, height, env);
      TxStep(m, txs, k - 1, height, env);
      assert Covered(m, txs, k - 1, height) <==>
        InsOk(ApplyTxs(m, txs[..k - 1], height), txs[k - 1].ins, height)
        && OutSum(txs[k - 1].outs) <= InSum(ApplyTxs(m, txs[..k - 1], height), txs[k - 1].ins);
      assert Signed(m, txs, k - 1, height, env) <==>
        env.trustedTx(txs[k - 1]) || env.verify(txs[k - 1], SpentCoins(ApplyTxs(m, txs[..k - 1], height), txs[k - 1].ins));
    }
  }

  /**
   * A block with new ids is accepted if and only if the coinbase's script is right, every other transaction is covered and,
   * unless the block is trusted, signed, the total value grows by the subsidy at most, and the signature checks are not too many.
   */
  lemma AcceptedMeans(m: Coins, bl: Block, height: nat, env: Env)
    requires |bl.txs| >= 1 && FreshCoins(m, bl.txs)
    ensures BlockOk(m, bl, height, env) <==>
      && env.cbScriptOk(bl.txs[0])
      && (forall i :: 1 <= i < |bl.txs| ==> Covered(m, bl.txs, i, height) && (bl.trusted || Signed(m, bl.txs, i, height, env)))
      && Total(ApplyTxs(m, bl.txs, height)) <= Total(m) + GetBlockReward(height)
      && SigopsTotal(m, bl.txs, height, env) <= 80000
  {
    hide Covered, Signed, TxsOk, ScriptsOk, FreshCoins, Total, ApplyTxs, GetBlockReward, SigopsTotal, InTotal, OutTotal;
    var n := |bl.txs|;
    assert bl.txs[..n] == bl.txs;
    TxsAre(m, bl.txs, n, height, env);
    if TxsOk(m, bl.txs, height) {
      TotalAfter(m, bl.txs, n, height);
    }
  }
}
