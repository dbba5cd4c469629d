/** What the two orders of the pool mean in its transactions' own fees and weights. */
module FeeOrders {
  import opened Utxo
  import opened Seqs
  import opened Mempool
  import opened Relatives
  import opened TxSort
  import opened TxPackages

  /** No product of a fee and a weight needs more than 64 bits. */
  ghost predicate FeesFit(T: Txs) {
    forall k, l :: k in T && l in T ==> T[k].weight > 0 && T[k].Fee * T[l].weight < W64
  }

  /** a pays more for its weight than b, or as much and has no more inputs from the pool. */
  ghost predicate PaysNoLess(T: Txs, a: TxId, b: TxId)
    requires a in T && b in T
    reads T.Values
  {
    || T[a].Fee * T[b].weight > T[b].Fee * T[a].weight
    || (T[a].Fee * T[b].weight == T[b].Fee * T[a].weight && T[a].MemInputCnt <= T[b].MemInputCnt)
  }

  /** The order by fee. */
  lemma PaysInOrder(T: Txs, order: seq<TxId>, i: nat, j: nat)
    requires FeeOrder(Rates(T), order) && FeesFit(T) && i < j < |order|
    ensures order[i] in T && order[j] in T && PaysNoLess(T, order[i], order[j])
  {
    hide Richer;
    var rates := Rates(T);
    forall k, l | k in rates && l in rates
      ensures Fit(rates[k], rates[l])
    {
    }
    assert order[i] in Elems(order) && order[j] in Elems(order);
    assert !RicherIn(rates)(order[j], order[i]);
    RicherIs(rates[order[j]], rates[order[i]]);
  }

  /** The part of the order that has all of k's ancestors, and no longer than that. */
  lemma {:induction false} LastTurn(rank: TxId -> nat, T: Txs, order: seq<TxId>, k: TxId, n: nat) returns (p: nat)
    requires Keyed(rank, T) && k in T && n <= |order| && k in Ready(rank, T, Elems(order[..n]))
    ensures p < n && k in Ready(rank, T, Elems(order[..p + 1])) && order[p] in T && Descends(rank, T, order[p], k)
  {
    hide Keyed, Descends;
    SelfDescends(rank, T, k);
    assert k in Elems(order[..n]);
    var m := n - 1;
    ElemsNext(order, m);
    if k in Ready(rank, T, Elems(order[..m])) {
      p := LastTurn(rank, T, order, k, m);
    } else {
      p := m;
      var a :| a in T && Descends(rank, T, a, k) && a !in Elems(order[..m]);
      assert a in Elems(order[..n]);
    }
  }

  lemma ReadyFirst(rank: TxId -> nat, T: Txs, order: seq<TxId>, result: seq<TxId>, i: nat, j: nat, p: nat)
    requires Keyed(rank, T) && Staged(rank, T, order, result, |order|) && Distinct(result)
    requires i < j < |result| && p < |order| && result[j] in Ready(rank, T, Elems(order[..p + 1]))
    ensures result[i] in Ready(rank, T, Elems(order[..p + 1]))
  {
    hide Keyed, Ready;
    assert StagedAt(rank, T, result, Elems(order[..p + 1]));
    var n :| 0 <= n <= |result| && Elems(result[..n]) == Ready(rank, T, Elems(order[..p + 1]));
    assert result[j] in Elems(result[..n]);
    var x :| 0 <= x < n && result[..n][x] == result[j];
    assert result[x] == result[j];
    assert result[..n][i] == result[i];
    assert result[i] in Elems(result[..n]);
  }

  lemma PaysBefore(T: Txs, order: seq<TxId>, b: TxId, p: nat)
    requires FeeOrder(Rates(T), order) && FeesFit(T) && p < |order| && b in Elems(order[..p + 1]) && b != order[p]
    ensures b in T && order[p] in T && PaysNoLess(T, b, order[p])
  {
    hide FeesFit, FeeOrder, PaysNoLess;
    var x :| 0 <= x < p + 1 && order[..p + 1][x] == b;
    assert order[x] == b;
    PaysInOrder(T, order, x, p);
  }

  /**
   * The sorted pool: of the later of two transactions and its ancestors, one pays no more for its weight than the earlier
   * one and each of its ancestors.
   */
  lemma TurnsInOrder(rank: TxId -> nat, T: Txs, order: seq<TxId>, result: seq<TxId>, i: nat, j: nat) returns (a: TxId)
    requires Keyed(rank, T) && FeesFit(T) && FeeOrder(Rates(T), order) && Staged(rank, T, order, result, |order|)
    requires ParentsFirst(T, result) && Elems(result) == T.Keys && i < j < |result|
    ensures a in T && result[i] in T && result[j] in T && Descends(rank, T, a, result[j])
    ensures forall b :: b in T && Descends(rank, T, b, result[i]) ==> b == a || PaysNoLess(T, b, a)
  {
    hide Keyed, FeesFit, FeeOrder, Staged, PaysNoLess, Parents, Elems, Descends;
    ElemsAre(result);
    assert result[i] in Elems(result) && result[j] in Elems(result);
    OrderIs(T, order);
    assert order[..|order|] == order;
    var p := LastTurn(rank, T, order, result[j], |order|);
    ReadyFirst(rank, T, order, result, i, j, p);
    a := order[p];
    forall b | b in T && Descends(rank, T, b, result[i]) && b != a
      ensures PaysNoLess(T, b, a)
    {
      assert b in Elems(order[..p + 1]);
      PaysBefore(T, order, b, p);
    }
  }

  /** Transactions without parents in the pool are sorted by fee. */
  lemma LooseInOrder(rank: TxId -> nat, T: Txs, order: seq<TxId>, result: seq<TxId>, i: nat, j: nat)
    requires Keyed(rank, T) && FeesFit(T) && FeeOrder(Rates(T), order) && Staged(rank, T, order, result, |order|)
    requires ParentsFirst(T, result) && Elems(result) == T.Keys && i < j < |result|
    requires Parents(T, result[i]) == {} && Parents(T, result[j]) == {}
    ensures result[i] in T && result[j] in T && PaysNoLess(T, result[i], result[j])
  {
    hide Keyed, FeesFit, FeeOrder, Staged, PaysNoLess;
    var a := TurnsInOrder(rank, T, order, result, i, j);
    NoAncestor(rank, T, a, result[j]);
    assert Descends(rank, T, result[i], result[i]);
  }

  lemma NoAncestor(rank: TxId -> nat, T: Txs, a: TxId, k: TxId)
    requires Keyed(rank, T) && k in T && Parents(T, k) == {} && Descends(rank, T, a, k)
    ensures a == k
  {
    assert forall op :: op in T[k].tx.ins && op.hash in T ==> op.hash in Parents(T, k);
  }

  // With packages.

  /** No product of the fee of a package or a transaction and the weight of another needs more than 64 bits. */
  ghost predicate UnitsFit(T: Txs, pkgs: seq<OneTxsPackage>) {
    && (forall p, q :: p in pkgs && q in pkgs ==> p.Weight > 0 && p.Fee * q.Weight < W64)
    && forall p, k :: p in pkgs && k in T ==> T[k].weight > 0 && p.Fee * T[k].weight < W64 && T[k].Fee * p.Weight < W64
  }

  lemma UnitsFitIs(T: Txs, pkgs: seq<OneTxsPackage>)
    requires UnitsFit(T, pkgs)
    ensures AllFit(T, pkgs)
  {
  }

  /** The packages come sorted by fee. */
  lemma PackagesInOrder(T: Txs, txs: seq<TxId>, pkgs: seq<OneTxsPackage>, p: nat, q: nat)
    requires Packages(T, txs, pkgs) && UnitsFit(T, pkgs) && p < q < |pkgs|
    ensures pkgs[p].Fee * pkgs[q].Weight >= pkgs[q].Fee * pkgs[p].Weight
  {
    hide GoodPackage, Richer, Heads;
    UnitsFitIs(T, pkgs);
    var a, b := pkgs[p], pkgs[q];
    assert a in pkgs && b in pkgs && Fit(RateOf(b), RateOf(a));
    assert !BetterPackage()(b, a);
    RicherIs(RateOf(b), RateOf(a));
  }

  /**
   * Where something comes out, alone or as a package, any package that pays more for its weight has something out before.
   */
  lemma UnitsInOrder(T: Txs, txs: seq<TxId>, pkgs: seq<OneTxsPackage>, units: seq<OneTxsPackage>, m: nat, pk: OneTxsPackage)
    requires Merged(T, txs, pkgs, units) && UnitsFit(T, pkgs) && m < |units| && pk in pkgs
    requires pk.Fee * units[m].Weight > units[m].Fee * pk.Weight
    ensures exists k :: k in pk.Txs && k in Out(units[..m])
  {
    hide Richer, Out, SinglesInOrder;
    UnitsFitIs(T, pkgs);
    var unit := units[m];
    assert Fit(RateOf(pk), RateOf(unit));
    RicherIs(RateOf(pk), RateOf(unit));
    assert NoneBetter(pkgs, unit, Elems(Out(units[..m])));
    assert Meets(pk, Elems(Out(units[..m])));
  }
}
