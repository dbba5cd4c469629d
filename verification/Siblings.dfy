/** Two rival blocks with a transaction in common, and a third on top of one of them: what a run with a reorganisation may meet. */
module Siblings {
  import opened Utxo
  import opened CommitTxs
  import opened ChainCoins
  import opened BlockDb
  import opened ChainRun
  import C = Chain

  const SHARED := Tx(20, [OutPoint(11, 0)], [TxOut(40, [])])
  const PARENTS: map<nat, nat> := map[1 := 0, 2 := 1, 3 := 1, 4 := 3]

  /** The first block makes a coin, and both the second and the third, on top of it, spend that in the same transaction. */
  function Txs(hash: nat): seq<Tx> {
    if hash == 1 then [Tx(11, [], [TxOut(50, [])])]
    else if hash == 2 || hash == 3 then [Tx(10 + hash, [], []), SHARED]
    else [Tx(10 + hash, [], [])]
  }

  lemma {:induction false} Paths(path: seq<nat>)
    requires Linked(PARENTS, 0, path)
    ensures path == [] || path == [1] || path == [1, 2] || path == [1, 3] || path == [1, 3, 4]
    decreases |path|
  {
    if path != [] {
      var rest, h := path[..|path| - 1], path[|path| - 1];
      Paths(rest);
      assert path == rest + [h];
    }
  }

  const COIN := OutPoint(11, 0)

  lemma First()
    ensures SaneBlock(map[], Txs(1), 1)
    ensures var m := CoinsAlong(Txs, [1]); m.Keys == {COIN} && m[COIN].value == 50
  {
    var txs := Txs(1);
    assert txs[..0] == [] && txs[0].outs[..0] == [] && [1][..0] == [];
    assert OutSum(txs[0].outs) == 50;
    assert OutTotal(txs) == OutTotal([]) + 50;
    ShrLe(5000000000, 0);
    assert ApplyTxs(map[], txs, 1) == ApplyTx(map[], txs[0], true, 1);
    assert Points(11, 1) == {COIN};
  }

  /** Each of the two, on top of the first. */
  lemma Rival(h: nat)
    requires h == 2 || h == 3
    ensures SaneBlock(CoinsAlong(Txs, [1]), Txs(h), 2)
    ensures CoinsAlong(Txs, [1, h]).Keys == {OutPoint(20, 0)}
  {
    First();
    var m, txs := CoinsAlong(Txs, [1]), Txs(h);
    assert txs[..1] == [txs[0]] && txs[..1][..0] == [] && [1, h][..1] == [1];
    assert Points(10 + h, 0) == {} && Points(20, 1) == {OutPoint(20, 0)};
    var mid := ApplyTxs(m, txs[..1], 2);
    assert mid == m by {
      assert ApplyTxs(m, [], 2) == m;
      assert OutCoins(txs[0], true, 2) == map[];
    }
    assert SHARED.ins[..0] == [] && InSum(mid, SHARED.ins) == 50;
    assert SHARED.outs[..0] == [] && OutSum(SHARED.outs) == 40 && OutSum(txs[0].outs) == 0;
    assert InTotal(m, txs[..1], 2) == 0 && InTotal(m, txs, 2) == 50;
    assert OutTotal(txs[..1]) == 0 && OutTotal(txs) == 40;
    ShrLe(5000000000, 0);
    assert ApplyTxs(m, txs, 2) == ApplyTx(mid, SHARED, false, 2);
    assert m - InSet(SHARED.ins) == map[];
  }

  lemma Last()
    ensures SaneBlock(CoinsAlong(Txs, [1, 3]), Txs(4), 3)
  {
    Rival(3);
    var txs := Txs(4);
    assert txs[..0] == [];
    assert OutTotal(txs) == OutTotal([]) + OutSum([]);
    ShrLe(5000000000, 0);
  }

  lemma NoneAlong()
    ensures CoinsAlong(Txs, []) == map[]
  {
  }

  lemma FairOn(path: seq<nat>)
    requires path == [1] || path == [1, 2] || path == [1, 3] || path == [1, 3, 4]
    ensures SaneBlock(CoinsAlong(Txs, path[..|path| - 1]), Txs(path[|path| - 1]), |path|)
  {
    hide SaneBlock, CoinsAlong, Txs;
    if path == [1] {
      NoneAlong();
      First();
      assert path[..0] == [];
    } else if path == [1, 3, 4] {
      Last();
      assert path[..2] == [1, 3];
    } else {
      Rival(path[1]);
      assert path[..1] == [1];
    }
  }

  /** On their own paths they are fair, though the shared transaction is in both rivals. */
  lemma SiblingsAreFair()
    ensures FairContent(Txs, PARENTS, 0)
  {
    hide SaneBlock, CoinsAlong, Linked, Txs;
    forall path: seq<nat> | path != [] && Linked(PARENTS, 0, path)
      ensures SaneBlock(CoinsAlong(Txs, path[..|path| - 1]), Txs(path[|path| - 1]), |path|)
    {
      Paths(path);
      FairOn(path);
    }
  }

  /** Such a run: the head goes to the second block, and then over to the branch of the third and fourth. */
  method OverToRival(env: Env) returns (c: C.Chain, n: nat, o: C.Outcome)
    ensures !o.Panicked? ==> c.Valid()
  {
    c := new C.Chain(0, Txs, env, false);
    hide FairContent, Txs, Real, C.Chain.Valid;
    SiblingsAreFair();
    var cmds := [
      Header(1, 0), Data(1, false, 100, 1, true, 0, Txs(1)), Header(2, 1), Data(2, false, 100, 2, true, 0, Txs(2)),
      Header(3, 1), Data(3, false, 100, 3, false, 0, Txs(3)), Header(4, 3), Data(4, false, 100, 3, true, 10, Txs(4))];
    AreReal(c, cmds);
    n, o := Run(c, cmds, PARENTS);
  }

  lemma AreReal(c: C.Chain, cmds: seq<Command>)
    requires c.content == Txs
    requires cmds == [
      Header(1, 0), Data(1, false, 100, 1, true, 0, Txs(1)), Header(2, 1), Data(2, false, 100, 2, true, 0, Txs(2)),
      Header(3, 1), Data(3, false, 100, 3, false, 0, Txs(3)), Header(4, 3), Data(4, false, 100, 3, true, 10, Txs(4))]
    ensures forall cmd :: cmd in cmds ==> Real(c, PARENTS, cmd)
  {
    hide Txs;
  }
}
