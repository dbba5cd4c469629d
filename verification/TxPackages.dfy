/** Packages of the memory pool's transactions, the sorter that uses them, and the eviction that uses the order. */
module TxPackages {
  import opened Utxo
  import opened Seqs
  import opened Sums
  import opened Mempool
  import opened Relatives
  import opened TxSort

  datatype OneTxsPackage = OneTxsPackage(Txs: seq<TxId>, Weight: nat, Fee: nat)

  ghost function WeightOf(T: Txs, s: seq<TxId>): nat {
    if s == [] then 0 else WeightOf(T, s[..|s| - 1]) + if s[|s| - 1] in T then T[s[|s| - 1]].weight else 0
  }

  ghost function FeeOf(T: Txs, s: seq<TxId>): nat {
    if s == [] then 0 else FeeOf(T, s[..|s| - 1]) + if s[|s| - 1] in T then T[s[|s| - 1]].Fee else 0
  }

  /** A package is a whole component of the pool, parents first, and begins with one that has no parents. */
  ghost predicate GoodPackage(T: Txs, pk: OneTxsPackage) {
    && |pk.Txs| > 1 && ParentsFirst(T, pk.Txs) && pk.Txs[0] in T && Parents(T, pk.Txs[0]) == {}
    && Elems(pk.Txs) == Component(T, pk.Txs[0])
    && pk.Weight == WeightOf(T, pk.Txs) && pk.Fee == FeeOf(T, pk.Txs) % W64
  }

  /** A transaction without parents in the pool, but with children. */
  ghost predicate Heads(T: Txs, k: TxId) {
    k in T && Parents(T, k) == {} && exists c :: c in T && Spends(T, c, k)
  }

  predicate Begins(pk: OneTxsPackage, k: TxId) {
    |pk.Txs| > 0 && pk.Txs[0] == k
  }

  function RateOf(pk: OneTxsPackage): Rate {
    Rate(pk.Fee, pk.Weight, 0)
  }

  function BetterPackage(): (OneTxsPackage, OneTxsPackage) -> bool {
    (a, b) => Richer(RateOf(a), RateOf(b))
  }

  ghost predicate PackagesFit(pkgs: seq<OneTxsPackage>) {
    forall p, q :: p in pkgs && q in pkgs ==> Fit(RateOf(p), RateOf(q))
  }

  /** One package for each transaction of txs that heads one; the better ones first, if nothing overflows. */
  ghost predicate Packages(T: Txs, txs: seq<TxId>, pkgs: seq<OneTxsPackage>) {
    && (forall pk :: pk in pkgs ==> GoodPackage(T, pk))
    && (forall k :: (exists pk :: pk in pkgs && Begins(pk, k)) <==> k in txs && Heads(T, k))
    && (PackagesFit(pkgs) ==> SortedBy(BetterPackage(), pkgs))
  }

  lemma NoParents(T: Txs, s: seq<TxId>)
    requires |s| >= 1 && Stacked(T, s) && s[0] in T && Parents(T, s[0]) == {}
    ensures ParentsFirst(T, s)
  {
  }

  method PackageOf(T: Txs, txs: seq<TxId>) returns (pkg: OneTxsPackage)
    requires forall i :: 0 <= i < |txs| ==> txs[i] in T
    ensures pkg == OneTxsPackage(txs, WeightOf(T, txs), FeeOf(T, txs) % W64)
  {
    var weight, fee := 0, 0;
    for i := 0 to |txs|
      invariant weight == WeightOf(T, txs[..i]) && fee == FeeOf(T, txs[..i]) % W64
    {
      assert txs[..i + 1][..i] == txs[..i];
      weight := weight + T[txs[i]].weight;
      fee := (fee + T[txs[i]].Fee) % W64;
    }
    assert txs[..|txs|] == txs;
    pkg := OneTxsPackage(txs, weight, fee);
  }

  /** More than one transaction comes with a head, and only with a head. */
  lemma HeadsMore(rank: TxId -> nat, T: Txs, s: seq<TxId>)
    requires Keyed(rank, T) && |s| >= 1 && Distinct(s) && s[0] in T && Parents(T, s[0]) == {} && Elems(s) == Component(T, s[0])
    ensures |s| > 1 <==> Heads(T, s[0])
  {
    hide Component;
    var k := s[0];
    if c :| c in T && Spends(T, c, k) {
      ComponentHas(T, k, k, c);
      assert c in Elems(s) && c != k;
    } else {
      forall c, p | c in T && p in T && Spends(T, c, p)
        ensures c in {k} <==> p in {k}
      {
        Orphan(T, k);
      }
      ComponentLeast(T, k, {k});
      DistinctSize(s);
      SubsetSize(Elems(s), {k});
    }
  }

  lemma Orphan(T: Txs, k: TxId)
    requires k in T && Parents(T, k) == {}
    ensures forall p :: p in T ==> !Spends(T, k, p)
  {
    forall p | p in T
      ensures !Spends(T, k, p)
    {
      assert p !in Parents(T, k);
    }
  }

  lemma BetterIsWeak(pkgs: seq<OneTxsPackage>)
    ensures PackagesFit(pkgs) ==> WeakOrder(BetterPackage(), pkgs)
  {
    hide Richer, Fit;
    if PackagesFit(pkgs) {
      forall a, b | a in pkgs && b in pkgs && BetterPackage()(a, b)
        ensures !BetterPackage()(b, a)
      {
        RicherOneWay(RateOf(a), RateOf(b));
      }
      forall a, b, c | a in pkgs && b in pkgs && c in pkgs && !BetterPackage()(b, a) && !BetterPackage()(c, b)
        ensures !BetterPackage()(c, a)
      {
        RicherPassedOn(RateOf(a), RateOf(b), RateOf(c));
      }
    }
  }

  lemma SameMembers<T>(r: seq<T>, s: seq<T>)
    requires multiset(r) == multiset(s)
    ensures forall x :: x in r <==> x in s
  {
    forall x
      ensures x in r <==> x in s
    {
      assert x in r <==> x in multiset(r);
    }
  }

  /** LookForPackages. */
  method LookForPackages(pool: Pool, txs: seq<TxId>) returns (result: seq<OneTxsPackage>)
    requires pool.Valid() && forall i :: 0 <= i < |txs| ==> txs[i] in pool.TransactionsToSend
    ensures Packages(pool.TransactionsToSend, txs, result)
  {
    hide Pool.Valid, Keyed, Stacked, ParentsFirst, ChildrenIn, Parents, Elems, Component, GoodPackage, Heads, PackagesFit, WeakOrder, SortedBy, BetterPackage;
    var T := pool.TransactionsToSend;
    PoolKeyed(pool);
    result := [];
    for i := 0 to |txs|
      invariant forall pk :: pk in result ==> GoodPackage(T, pk)
      invariant forall k :: (exists pk :: pk in result && Begins(pk, k)) <==> k in txs[..i] && Heads(T, k)
    {
      var tx := T[txs[i]];
      MemFlags(pool, txs[i]);
      assert txs[..i + 1] == txs[..i] + [txs[i]];
      if tx.MemInputCnt > 0 {
        NotHead(T, txs[i]);
      } else {
        var pandch := GetItWithAllChildren(pool, txs[i]);
        NoParents(T, pandch);
        AllKnown(T, pandch);
        HeadsMore(pool.rank, T, pandch);
        if |pandch| > 1 {
          var pkg := PackageOf(T, pandch);
          PackageIsGood(T, pkg);
          AddedHead(T, txs[..i], txs[i], result, pkg);
          result := result + [pkg];
        }
      }
    }
    assert txs[..|txs|] == txs;
    var sorted := SortSlice(result, BetterPackage());
    BetterIsWeak(result);
    SameMembers(sorted, result);
    SameFit(sorted, result);
    result := sorted;
  }

  lemma NotHead(T: Txs, k: TxId)
    requires k in T && Parents(T, k) != {}
    ensures !Heads(T, k)
  {
  }

  lemma PackageIsGood(T: Txs, pk: OneTxsPackage)
    requires |pk.Txs| > 1 && ParentsFirst(T, pk.Txs) && pk.Txs[0] in T && Parents(T, pk.Txs[0]) == {}
    requires Elems(pk.Txs) == Component(T, pk.Txs[0]) && pk.Weight == WeightOf(T, pk.Txs) && pk.Fee == FeeOf(T, pk.Txs) % W64
    ensures GoodPackage(T, pk)
  {
  }

  lemma AddedHead(T: Txs, txs: seq<TxId>, k: TxId, pkgs: seq<OneTxsPackage>, pk: OneTxsPackage)
    requires forall x :: (exists p :: p in pkgs && Begins(p, x)) <==> x in txs && Heads(T, x)
    requires Begins(pk, k) && Heads(T, k)
    ensures forall x :: (exists p :: p in pkgs + [pk] && Begins(p, x)) <==> x in txs + [k] && Heads(T, x)
  {
    hide Heads;
    assert pk in pkgs + [pk];
    forall x | x in txs && Heads(T, x)
      ensures exists p :: p in pkgs + [pk] && Begins(p, x)
    {
      var p :| p in pkgs && Begins(p, x);
      assert p in pkgs + [pk];
    }
  }

  lemma SameFit(r: seq<OneTxsPackage>, s: seq<OneTxsPackage>)
    requires forall x :: x in r <==> x in s
    ensures PackagesFit(r) == PackagesFit(s)
  {
  }

  lemma AllKnown(T: Txs, s: seq<TxId>)
    requires ParentsFirst(T, s)
    ensures forall i :: 0 <= i < |s| ==> s[i] in T
  {
  }

  /** AnyIn. */
  method AnyIn(pk: OneTxsPackage, list: set<TxId>) returns (ok: bool)
    ensures ok <==> exists k :: k in pk.Txs && k in list
  {
    ok := false;
    for i := 0 to |pk.Txs|
      invariant forall j :: 0 <= j < i ==> pk.Txs[j] !in list
    {
      if pk.Txs[i] in list {
        return true;
      }
    }
  }

  // The order the merging of transactions and packages makes.

  /** One transaction on its own, as if it were a package. */
  function Single(T: Txs, k: TxId): OneTxsPackage
    requires k in T
  {
    OneTxsPackage([k], T[k].weight, T[k].Fee)
  }

  ghost function Out(units: seq<OneTxsPackage>): seq<TxId> {
    if units == [] then [] else Out(units[..|units| - 1]) + units[|units| - 1].Txs
  }

  ghost predicate Meets(pk: OneTxsPackage, out: set<TxId>) {
    exists k :: k in pk.Txs && k in out
  }

  /** Of the packages, those better than unit have something out already. */
  ghost predicate NoneBetter(pkgs: seq<OneTxsPackage>, unit: OneTxsPackage, out: set<TxId>) {
    forall pk :: pk in pkgs && Richer(RateOf(pk), RateOf(unit)) ==> Meets(pk, out)
  }

  ghost predicate AllFit(T: Txs, pkgs: seq<OneTxsPackage>) {
    PackagesFit(pkgs) && forall pk, k :: pk in pkgs && k in T ==> Fit(RateOf(pk), RateOf(Single(T, k)))
  }

  ghost predicate Before(txs: seq<TxId>, a: TxId, b: TxId) {
    exists i, j :: 0 <= i < j < |txs| && txs[i] == a && txs[j] == b
  }

  /** The single transactions among the units come in the order of txs. */
  ghost predicate SinglesInOrder(txs: seq<TxId>, units: seq<OneTxsPackage>) {
    forall m, l :: 0 <= m < l < |units| && |units[m].Txs| == 1 && |units[l].Txs| == 1 ==>
      Before(txs, units[m].Txs[0], units[l].Txs[0])
  }

  ghost predicate SinglesIn(txs: seq<TxId>, units: seq<OneTxsPackage>) {
    forall m :: 0 <= m < |units| && |units[m].Txs| == 1 ==> units[m].Txs[0] in txs
  }

  /**
   * The units are packages, or single transactions in the order of txs. No unit comes before a better package, unless
   * something of that one is out already.
   */
  ghost predicate Merged(T: Txs, txs: seq<TxId>, pkgs: seq<OneTxsPackage>, units: seq<OneTxsPackage>) {
    && (forall m :: 0 <= m < |units| ==> units[m] in pkgs || exists k :: k in T && units[m] == Single(T, k))
    && SinglesInOrder(txs, units)
    && (AllFit(T, pkgs) ==> forall m :: 0 <= m < |units| ==> NoneBetter(pkgs, units[m], Elems(Out(units[..m]))))
  }

  /** result is what comes of merging the transactions, sorted by fee, with their packages. */
  ghost predicate ByPackages(rank: TxId -> nat, T: Txs, result: seq<TxId>)
    reads T.Values
  {
    exists order: seq<TxId>, txs: seq<TxId>, pkgs: seq<OneTxsPackage>, units: seq<OneTxsPackage> ::
      && Keyed(rank, T) && FeeOrder(Rates(T), order) && Staged(rank, T, order, txs, |order|)
      && ParentsFirst(T, txs) && Elems(txs) == T.Keys && Packages(T, txs, pkgs)
      && Merged(T, txs, pkgs, units) && result == Out(units)
  }

  /** A package not better than the next one, all before which have something out, is worse than none that has nothing out. */
  lemma NextIsBest(pkgs: seq<OneTxsPackage>, i: nat, unit: OneTxsPackage, out: set<TxId>)
    requires i <= |pkgs| && forall p :: 0 <= p < i ==> Meets(pkgs[p], out)
    requires i < |pkgs| ==> !Richer(RateOf(pkgs[i]), RateOf(unit))
    requires PackagesFit(pkgs) && SortedBy(BetterPackage(), pkgs) && forall pk :: pk in pkgs ==> Fit(RateOf(pk), RateOf(unit))
    ensures NoneBetter(pkgs, unit, out)
  {
    hide Richer, Fit, Meets;
    forall pk | pk in pkgs && Richer(RateOf(pk), RateOf(unit))
      ensures Meets(pk, out)
    {
      var p :| 0 <= p < |pkgs| && pkgs[p] == pk;
      if p > i {
        assert !BetterPackage()(pkgs[p], pkgs[i]);
        FitBack(RateOf(pkgs[i]), RateOf(unit));
        FitBack(RateOf(pkgs[p]), RateOf(unit));
        RicherPassedOn(RateOf(unit), RateOf(pkgs[i]), RateOf(pkgs[p]));
      }
    }
  }

  lemma FitBack(a: Rate, b: Rate)
    requires Fit(a, b)
    ensures Fit(b, a)
  {
  }

  lemma MergedNext(T: Txs, txs: seq<TxId>, pkgs: seq<OneTxsPackage>, units: seq<OneTxsPackage>, unit: OneTxsPackage)
    requires Merged(T, txs, pkgs, units)
    requires unit in pkgs || exists k :: k in T && unit == Single(T, k)
    requires |unit.Txs| == 1 ==> forall m :: 0 <= m < |units| && |units[m].Txs| == 1 ==> Before(txs, units[m].Txs[0], unit.Txs[0])
    requires AllFit(T, pkgs) ==> NoneBetter(pkgs, unit, Elems(Out(units)))
    ensures Merged(T, txs, pkgs, units + [unit]) && Out(units + [unit]) == Out(units) + unit.Txs
  {
    hide AllFit, Before, NoneBetter, Out;
    OutNext(units, unit);
    var more := units + [unit];
    forall m | 0 <= m < |units|
      ensures more[..m] == units[..m]
    {
    }
    assert more[..|units|] == units;
  }

  lemma OutNext(units: seq<OneTxsPackage>, unit: OneTxsPackage)
    ensures Out(units + [unit]) == Out(units) + unit.Txs
  {
    assert (units + [unit])[..|units|] == units;
  }

  /** A package comes out. */
  lemma PackageOut(T: Txs, txs: seq<TxId>, pkgs: seq<OneTxsPackage>, units: seq<OneTxsPackage>, i: nat, n: nat)
    requires Merged(T, txs, pkgs, units) && Packages(T, txs, pkgs) && i < |pkgs|
    requires forall p :: 0 <= p < i ==> Meets(pkgs[p], Elems(Out(units)))
    requires n <= |txs| && SinglesIn(txs[..n], units)
    ensures Merged(T, txs, pkgs, units + [pkgs[i]]) && Out(units + [pkgs[i]]) == Out(units) + pkgs[i].Txs
    ensures SinglesIn(txs[..n], units + [pkgs[i]])
  {
    hide Merged, Out, Elems, Meets, Fit, Richer, ParentsFirst, Component, SortedBy;
    var unit := pkgs[i];
    assert GoodPackage(T, unit);
    if AllFit(T, pkgs) {
      RicherOneWay(RateOf(unit), RateOf(unit));
      NextIsBest(pkgs, i, unit, Elems(Out(units)));
    }
    MergedNext(T, txs, pkgs, units, unit);
  }

  /** The next transaction comes out, on its own. */
  lemma SingleOut(T: Txs, txs: seq<TxId>, pkgs: seq<OneTxsPackage>, units: seq<OneTxsPackage>, i: nat, n: nat)
    requires Merged(T, txs, pkgs, units) && Packages(T, txs, pkgs) && i <= |pkgs| && n < |txs| && txs[n] in T
    requires forall p :: 0 <= p < i ==> Meets(pkgs[p], Elems(Out(units)))
    requires i < |pkgs| ==> !Richer(RateOf(pkgs[i]), RateOf(Single(T, txs[n])))
    requires SinglesIn(txs[..n], units)
    ensures var unit := Single(T, txs[n]);
            && Merged(T, txs, pkgs, units + [unit]) && Out(units + [unit]) == Out(units) + [txs[n]]
            && SinglesIn(txs[..n + 1], units + [unit])
  {
    hide Merged, Out, Elems, Meets, Fit, Richer, GoodPackage, SortedBy;
    var unit := Single(T, txs[n]);
    if AllFit(T, pkgs) {
      NextIsBest(pkgs, i, unit, Elems(Out(units)));
    }
    forall m | 0 <= m < |units| && |units[m].Txs| == 1
      ensures Before(txs, units[m].Txs[0], txs[n])
    {
      var j :| 0 <= j < n && txs[..n][j] == units[m].Txs[0];
      assert txs[j] == units[m].Txs[0];
    }
    MergedNext(T, txs, pkgs, units, unit);
  }

  lemma NotYetOut(units: seq<OneTxsPackage>, txs: seq<TxId>, n: nat)
    requires n < |txs| && SinglesIn(txs[..n], units)
    ensures SinglesIn(txs[..n + 1], units)
  {
    assert txs[..n + 1] == txs[..n] + [txs[n]];
  }

  lemma StillMeets(pkgs: seq<OneTxsPackage>, i: nat, out: set<TxId>, more: set<TxId>)
    requires i <= |pkgs| && (forall p :: 0 <= p < i ==> Meets(pkgs[p], out)) && out <= more
    ensures forall p :: 0 <= p < i ==> Meets(pkgs[p], more)
  {
  }

  /**
   * GetSortedMempoolNew: still every transaction once, behind its parents; and a package comes out before anything it is
   * better than, unless something of it is out already.
   */
  method GetSortedMempoolNew(pool: Pool) returns (result: seq<TxId>)
    requires pool.Valid()
    ensures ParentsFirst(pool.TransactionsToSend, result) && Elems(result) == pool.TransactionsToSend.Keys
    ensures ByPackages(pool.rank, pool.TransactionsToSend, result)
  {
    hide Pool.Valid, Keyed, ParentsFirst, Elems, Parents, Distinct, WeightOf, FeeOf, Component, Merged, Packages, Out, Meets, SinglesIn, Richer,
      FeeOrder, Staged;
    var T := pool.TransactionsToSend;
    var txs;
    ghost var order;
    txs, order := GetSortedMempool(pool);
    AllKnown(T, txs);
    var pkgs := LookForPackages(pool, txs);
    AllGood(T, txs, pkgs);
    result := [];
    var already_in: set<TxId> := {};
    var txs_idx, pks_idx := 0, 0;
    ghost var units: seq<OneTxsPackage> := [];
    MergeStart(T, txs);
    NoUnits(T, txs, pkgs);
    while txs_idx < |txs|
      invariant 0 <= txs_idx <= |txs| && 0 <= pks_idx <= |pkgs|
      invariant ParentsFirst(T, result) && already_in == Elems(result) && Elems(txs[..txs_idx]) <= already_in <= T.Keys
      invariant Merged(T, txs, pkgs, units) && result == Out(units) && SinglesIn(txs[..txs_idx], units)
      invariant forall p :: 0 <= p < pks_idx ==> Meets(pkgs[p], already_in)
      decreases |txs| - txs_idx + |pkgs| - pks_idx
    {
      var tx := T[txs[txs_idx]];
      ghost var was := already_in;
      if pks_idx < |pkgs| && pkgs[pks_idx].Fee * tx.weight % W64 > tx.Fee * pkgs[pks_idx].Weight % W64 {
        var pk := pkgs[pks_idx];
        assert pk in pkgs;
        var any := AnyIn(pk, already_in);
        if !any {
          MergePackage(T, result, pk.Txs);
          PackageOut(T, txs, pkgs, units, pks_idx, txs_idx);
          already_in := already_in + set k | k in pk.Txs;
          ElemsAre(pk.Txs);
          result := result + pk.Txs;
          units := units + [pk];
        }
        StillMeets(pkgs, pks_idx, was, already_in);
        MeetsNow(T, pk, already_in, any);
        pks_idx := pks_idx + 1;
      } else {
        MergeNext(T, txs, txs_idx, result);
        if txs[txs_idx] !in already_in {
          NotRicher(T, pkgs, pks_idx, txs[txs_idx]);
          SingleOut(T, txs, pkgs, units, pks_idx, txs_idx);
          already_in := already_in + {txs[txs_idx]};
          result := result + [txs[txs_idx]];
          units := units + [Single(T, txs[txs_idx])];
          StillMeets(pkgs, pks_idx, was, already_in);
        } else {
          NotYetOut(units, txs, txs_idx);
        }
        txs_idx := txs_idx + 1;
      }
    }
    assert txs[..|txs|] == txs;
    Witnessed(pool.rank, T, order, txs, pkgs, units);
  }

  lemma Witnessed(rank: TxId -> nat, T: Txs, order: seq<TxId>, txs: seq<TxId>, pkgs: seq<OneTxsPackage>, units: seq<OneTxsPackage>)
    requires Keyed(rank, T) && FeeOrder(Rates(T), order) && Staged(rank, T, order, txs, |order|)
    requires ParentsFirst(T, txs) && Elems(txs) == T.Keys && Packages(T, txs, pkgs) && Merged(T, txs, pkgs, units)
    ensures ByPackages(rank, T, Out(units))
  {
    hide Keyed, FeeOrder, Staged, ParentsFirst, Elems, Packages, Merged, Out;
  }

  lemma AllGood(T: Txs, txs: seq<TxId>, pkgs: seq<OneTxsPackage>)
    requires Packages(T, txs, pkgs)
    ensures forall pk :: pk in pkgs ==> GoodPackage(T, pk)
  {
  }

  lemma NoUnits(T: Txs, txs: seq<TxId>, pkgs: seq<OneTxsPackage>)
    ensures Merged(T, txs, pkgs, []) && Out([]) == [] && SinglesIn(txs[..0], [])
  {
  }

  lemma MeetsNow(T: Txs, pk: OneTxsPackage, out: set<TxId>, any: bool)
    requires GoodPackage(T, pk) && if any then exists k :: k in pk.Txs && k in out else Elems(pk.Txs) <= out
    ensures Meets(pk, out)
  {
    if !any {
      assert pk.Txs[0] in Elems(pk.Txs);
    }
  }

  lemma NotRicher(T: Txs, pkgs: seq<OneTxsPackage>, i: nat, k: TxId)
    requires k in T && i < |pkgs| ==> !(pkgs[i].Fee * T[k].weight % W64 > T[k].Fee * pkgs[i].Weight % W64)
    ensures k in T && i < |pkgs| ==> !Richer(RateOf(pkgs[i]), RateOf(Single(T, k)))
  {
  }

  lemma MergeStart(T: Txs, txs: seq<TxId>)
    ensures ParentsFirst(T, []) && Elems<TxId>([]) == {} && Elems(txs[..0]) == {}
  {
  }

  /** A package none of whose members is in fits in whole. */
  lemma MergePackage(T: Txs, result: seq<TxId>, more: seq<TxId>)
    requires ParentsFirst(T, result) && ParentsFirst(T, more) && forall k :: k in more ==> k !in Elems(result)
    ensures ParentsFirst(T, result + more) && Elems(result + more) == Elems(result) + Elems(more) <= T.Keys
    ensures |result + more| <= |T|
  {
    ParentsFirstJoin(T, result, more);
    ListBounded(T, result + more);
  }

  /** The parents of the next transaction are in. */
  lemma MergeNext(T: Txs, txs: seq<TxId>, i: nat, result: seq<TxId>)
    requires ParentsFirst(T, txs) && i < |txs| && ParentsFirst(T, result) && Elems(txs[..i]) <= Elems(result)
    ensures Elems(txs[..i + 1]) == Elems(txs[..i]) + {txs[i]} && txs[i] in T
    ensures Elems(result + [txs[i]]) == Elems(result) + {txs[i]}
    ensures txs[i] !in Elems(result) ==> ParentsFirst(T, result + [txs[i]])
  {
    ElemsNext(txs, i);
    ElemsAppend(result, txs[i]);
    if txs[i] !in Elems(result) {
      ParentsFirstAppend(T, result, txs[i]);
    }
  }

  /** What descends from a stands at or behind a. */
  lemma {:induction false} DescendantsBehind(rank: TxId -> nat, T: Txs, now: Txs, s: seq<TxId>, i: nat, j: nat)
    requires Keyed(rank, T) && Keyed(rank, now) && Within(now, T) && ParentsFirst(T, s) && Elems(s) == T.Keys
    requires i < |s| && j < |s| && s[j] in now && Descends(rank, now, s[i], s[j])
    ensures i <= j
    decreases rank(s[j])
  {
    if s[i] != s[j] {
      var op :| op in now[s[j]].tx.ins && op.hash in now && Descends(rank, now, s[i], op.hash);
      assert op.hash in Parents(T, s[j]);
      assert op.hash in Elems(s[..j]);
      var k :| 0 <= k < j && s[k] == op.hash;
      DescendantsBehind(rank, T, now, s, i, k);
    }
  }

  /** The last one in the order has nothing behind it to take along. */
  lemma LastAlone(rank: TxId -> nat, T: Txs, now: Txs, s: seq<TxId>, i: nat)
    requires Keyed(rank, T) && Keyed(rank, now) && Within(now, T) && ParentsFirst(T, s) && Elems(s) == T.Keys
    requires i < |s| && now.Keys == Elems(s[..i + 1])
    ensures Family(rank, now, s[i]) == {s[i]} && s[i] in now && s[i] !in Elems(s[..i]) && Elems(s[..i + 1]) == Elems(s[..i]) + {s[i]}
  {
    ElemsNext(s, i);
    forall k | k in Family(rank, now, s[i])
      ensures k == s[i]
    {
      var j :| 0 <= j < i + 1 && s[j] == k;
      DescendantsBehind(rank, T, now, s, i, j);
    }
  }

  lemma NothingLeft(T: Txs)
    requires T.Keys == {}
    ensures Sum(Sizes(T)) == 0
  {
    assert Sizes(T) == map[];
  }

  /** LimitPoolSize: when the pool is too big, the shortest possible tail of the order goes, and nothing else. */
  method LimitPoolSize(pool: Pool, limit: nat) returns (ghost sorted: seq<TxId>, ghost kept: nat)
    requires pool.Valid()
    modifies pool
    ensures pool.Valid() && Within(pool.TransactionsToSend, old(pool.TransactionsToSend))
    ensures old(pool.TransactionsToSendSize) < limit ==> pool.TransactionsToSend == old(pool.TransactionsToSend)
    ensures old(pool.TransactionsToSendSize) >= limit ==> pool.TransactionsToSendSize <= limit - limit / 32
    ensures old(pool.TransactionsToSendSize) >= limit ==> old(ByPackages(pool.rank, pool.TransactionsToSend, sorted))
    ensures old(pool.TransactionsToSendSize) >= limit ==>
      && ParentsFirst(old(pool.TransactionsToSend), sorted) && Elems(sorted) == old(pool.TransactionsToSend).Keys
      && kept <= |sorted| && pool.TransactionsToSend.Keys == Elems(sorted[..kept])
      && (kept < |sorted| ==> pool.TransactionsToSendSize + old(pool.TransactionsToSend)[sorted[kept]].size > limit - limit / 32)
  {
    hide Keyed, SpentExact, MemFits, Sizes, Sum, ParentsFirst, Elems, Family, Descends, ByPackages;
    var ticklen := limit / 32;
    sorted, kept := [], 0;
    if pool.TransactionsToSendSize < limit {
      return;
    }
    ghost var before := pool.TransactionsToSend;
    var order := GetSortedMempoolNew(pool);
    AllKnown(before, order);
    var idx := |order|;
    var maxlen := limit - ticklen;
    assert order[..|order|] == order;
    while idx > 0 && pool.TransactionsToSendSize > maxlen
      invariant 0 <= idx <= |order| && pool.Valid() && Within(pool.TransactionsToSend, before)
      invariant pool.TransactionsToSend.Keys == Elems(order[..idx])
      invariant idx < |order| ==> pool.TransactionsToSendSize + before[order[idx]].size > maxlen
    {
      idx := idx - 1;
      ghost var now := pool.TransactionsToSend;
      LastAlone(pool.rank, before, now, order, idx);
      KeyIs(pool.rank, now, order[idx]);
      SizeWithout(now, order[idx]);
      if order[idx] in pool.TransactionsToSend {
        var tx := pool.TransactionsToSend[order[idx]];
        pool.Delete(tx, true, {}, {});
        assert (now - {order[idx]}).Keys == now.Keys - {order[idx]};
      }
    }
    if idx == 0 {
      NoPrefix(order);
      NothingLeft(pool.TransactionsToSend);
    }
    sorted, kept := order, idx;
  }

  lemma NoPrefix(s: seq<TxId>)
    ensures Elems(s[..0]) == {}
  {
  }
}
