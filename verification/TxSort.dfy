/** The plain sorter of the memory pool: by fee, as far as parents allow. */
module TxSort {
  import opened Utxo
  import opened Seqs
  import opened Sums
  import opened Mempool
  import opened Relatives
  import opened Powers

  /** Every transaction once at most, and behind all its parents. */
  ghost predicate ParentsFirst(T: Txs, s: seq<TxId>) {
    Distinct(s) && forall i :: 0 <= i < |s| ==> s[i] in T && Parents(T, s[i]) <= Elems(s[..i])
  }

  lemma ParentsFirstAppend(T: Txs, s: seq<TxId>, k: TxId)
    requires ParentsFirst(T, s) && k in T && k !in s && Parents(T, k) <= Elems(s)
    ensures ParentsFirst(T, s + [k])
  {
    DistinctAppend(s, k);
    assert (s + [k])[..|s|] == s;
    forall i | 0 <= i < |s|
      ensures (s + [k])[..i] == s[..i]
    {
    }
  }

  lemma ParentsFirstJoin(T: Txs, s: seq<TxId>, t: seq<TxId>)
    requires ParentsFirst(T, s) && ParentsFirst(T, t) && forall k :: k in t ==> k !in s
    ensures ParentsFirst(T, s + t)
  {
    var r := s + t;
    forall i, j | 0 <= i < |s| && 0 <= j < |t|
      ensures s[i] != t[j]
    {
      assert t[j] in t;
    }
    forall i | 0 <= i < |r|
      ensures r[i] in T && Parents(T, r[i]) <= Elems(r[..i])
    {
      if i < |s| {
        assert r[..i] == s[..i];
      } else {
        assert r[..i] == s + t[..i - |s|];
      }
    }
  }

  lemma {:induction false} CountRest(s: seq<bool>, i: nat)
    requires i <= |s|
    ensures CountTrue(s[..i]) <= CountTrue(s)
    ensures CountTrue(s[..i]) == CountTrue(s) ==> forall j :: i <= j < |s| ==> !s[j]
  {
    if i == |s| {
      assert s[..i] == s;
    } else {
      var init := s[..|s| - 1];
      CountRest(init, i);
      assert init[..i] == s[..i];
      forall j | i <= j < |s| - 1
        ensures s[j] == init[j]
      {
      }
    }
  }

  /** missing_parents: the pool parents of k that are not in yet, or only whether there are any. */
  method MissingParents(pool: Pool, k: TxId, already_in: set<TxId>, is_any: bool) returns (res: seq<TxId>, yes: bool)
    requires pool.Valid() && k in pool.TransactionsToSend
    ensures yes <==> Parents(pool.TransactionsToSend, k) - already_in != {}
    ensures !is_any ==> Elems(res) == Parents(pool.TransactionsToSend, k) - already_in
  {
    hide Pool.Valid, Keyed, Elems;
    var rec := pool.TransactionsToSend[k];
    ghost var parents := Parents(pool.TransactionsToSend, k);
    MemFlags(pool, k);
    FlagCount(pool, k);
    res, yes := [], false;
    assert Elems<TxId>([]) == {} by { NoElems(); }
    if rec.MemInputs.None? {
      return;
    }
    var mi := rec.MemInputs.value;
    assert mi[..|mi|] == mi;
    var cnt_ok := 0;
    ghost var seen: set<TxId> := {};
    for idx := 0 to |rec.tx.ins|
      invariant cnt_ok == CountTrue(mi[..idx]) && cnt_ok < rec.MemInputCnt
      invariant seen <= parents && forall j :: 0 <= j < idx && mi[j] ==> rec.tx.ins[j].hash in seen
      invariant yes <==> seen - already_in != {}
      invariant Elems(res) == seen - already_in
    {
      assert mi[..idx + 1][..idx] == mi[..idx];
      if mi[idx] {
        var txk := rec.tx.ins[idx].hash;
        seen := seen + {txk};
        if txk !in already_in {
          yes := true;
          assert txk in seen - already_in && txk in parents - already_in;
          if is_any {
            return;
          }
          ElemsAppend(res, txk);
          res := res + [txk];
        }
        cnt_ok := cnt_ok + 1;
        if cnt_ok == rec.MemInputCnt {
          CountRest(mi, idx + 1);
          AllSeen(pool.TransactionsToSend, k, mi, seen);
          return;
        }
      }
    }
  }

  lemma NoElems()
    ensures Elems<TxId>([]) == {}
  {
  }

  lemma FlagCount(pool: Pool, k: TxId)
    requires pool.Valid() && k in pool.TransactionsToSend
    ensures var rec := pool.TransactionsToSend[k]; rec.MemInputs.Some? ==> rec.MemInputCnt == CountTrue(rec.MemInputs.value)
  {
    assert MemFits(pool.TransactionsToSend[k], pool.TransactionsToSend, {});
  }

  lemma AllSeen(T: Txs, k: TxId, mi: seq<bool>, seen: set<TxId>)
    requires k in T && |mi| == |T[k].tx.ins| && seen <= Parents(T, k)
    requires forall i :: 0 <= i < |mi| ==> (mi[i] <==> T[k].tx.ins[i].hash in T)
    requires forall j :: 0 <= j < |mi| && mi[j] ==> T[k].tx.ins[j].hash in seen
    ensures seen == Parents(T, k)
  {
  }

  type Deferred = map<TxId, seq<TxId>>

  /** d waits for a parent that is not in yet. */
  ghost predicate Waits(T: Txs, result: seq<TxId>, d: TxId) {
    d in T && exists p :: p in Parents(T, d) && p !in result
  }

  /**
   * Where GetSortedMempool stands. Of the transactions visited, those not in yet are on the list of every parent they
   * still wait for, and, but for those owed a retry, they do wait for one.
   */
  ghost predicate Sorting(T: Txs, result: seq<TxId>, parent_of: Deferred, visited: set<TxId>, owed: set<TxId>) {
    && ParentsFirst(T, result) && Elems(result) <= visited <= T.Keys
    && (forall d, p :: d in visited && d !in result && p in Parents(T, d) && p !in result ==> p in parent_of && d in parent_of[p])
    && (forall p, d :: p in parent_of && d in parent_of[p] ==> d in visited)
    && (forall d :: d in visited && d !in result && d !in owed ==> Waits(T, result, d))
  }

  /** k comes in; what waited for it alone is owed a retry. */
  lemma SortingAppend(T: Txs, result: seq<TxId>, parent_of: Deferred, visited: set<TxId>, owed: set<TxId>, k: TxId)
    requires Sorting(T, result, parent_of, visited, owed + {k}) && k in visited && k !in result && Parents(T, k) <= Elems(result)
    ensures Sorting(T, result + [k], parent_of, visited, owed + if k in parent_of then Elems(parent_of[k]) else {})
  {
    ParentsFirstAppend(T, result, k);
    ElemsAppend(result, k);
    forall d | d in visited && d !in result + [k] && d !in owed && !(k in parent_of && d in parent_of[k])
      ensures Waits(T, result + [k], d)
    {
      StillWaits(T, result, parent_of, visited, owed + {k}, k, d);
    }
    hide ParentsFirst, Parents, Waits, Elems;
  }

  lemma StillWaits(T: Txs, result: seq<TxId>, parent_of: Deferred, visited: set<TxId>, owed: set<TxId>, k: TxId, d: TxId)
    requires Sorting(T, result, parent_of, visited, owed) && k !in result
    requires d in visited && d !in result && d !in owed && !(k in parent_of && d in parent_of[k])
    ensures Waits(T, result + [k], d)
  {
    hide ParentsFirst, Parents;
    assert Waits(T, result, d);
    var p :| p in Parents(T, d) && p !in result;
    assert p !in result + [k];
  }

  /** One retried: it is in, or still waits. */
  lemma SortingRetried(T: Txs, result: seq<TxId>, parent_of: Deferred, visited: set<TxId>, owed: set<TxId>, d: TxId)
    requires Sorting(T, result, parent_of, visited, owed + {d}) && (d in result || (d in T && Parents(T, d) - Elems(result) != {}))
    ensures Sorting(T, result, parent_of, visited, owed)
  {
    if d !in result {
      var p :| p in Parents(T, d) - Elems(result);
      assert Waits(T, result, d);
    }
  }

  lemma SortingForget(T: Txs, result: seq<TxId>, parent_of: Deferred, visited: set<TxId>, owed: set<TxId>, k: TxId)
    requires Sorting(T, result, parent_of, visited, owed) && k in result
    ensures Sorting(T, result, parent_of - {k}, visited, owed)
  {
  }

  /** append_txs. open holds the transactions whose retries are under way. */
  method AppendTxs(pool: Pool, txkey: TxId, before: seq<TxId>, parents: Deferred, ghost visited: set<TxId>, ghost owed: set<TxId>, ghost open: set<TxId>)
    returns (result: seq<TxId>, parent_of: Deferred)
    requires pool.Valid() && Sorting(pool.TransactionsToSend, before, parents, visited, owed + {txkey})
    requires txkey in visited && txkey !in before && Parents(pool.TransactionsToSend, txkey) <= Elems(before)
    requires parents.Keys * Elems(before) <= open
    ensures before <= result && txkey in result && Sorting(pool.TransactionsToSend, result, parent_of, visited, owed)
    ensures parent_of.Keys * Elems(result) <= open && parent_of.Keys <= parents.Keys
    decreases |pool.TransactionsToSend| - |before|
  {
    hide Pool.Valid, Sorting, Elems, Parents, ParentsFirst, Distinct;
    var T := pool.TransactionsToSend;
    Bounded(T, before, parents, visited, owed + {txkey}, txkey);
    SortingAppend(T, before, parents, visited, owed, txkey);
    ElemsAppend(before, txkey);
    result, parent_of := before + [txkey], parents;
    if txkey in parent_of {
      var toretry := parent_of[txkey];
      assert toretry[0..] == toretry;
      for i := 0 to |toretry|
        invariant before + [txkey] <= result && Sorting(T, result, parent_of, visited, owed + Elems(toretry[i..]))
        invariant parent_of.Keys * Elems(result) <= open + {txkey} && parent_of.Keys <= parents.Keys
      {
        var kv := toretry[i];
        ElemsHead(toretry, i);
        ghost var rest := owed + Elems(toretry[i + 1..]);
        assert owed + Elems(toretry[i..]) == rest + {kv};
        Listed(T, parents, visited, txkey, kv, before, owed + {txkey});
        if kv !in result {
          var already_in := set x | x in result;
          ElemsAre(result);
          assert already_in == Elems(result);
          var _, yes := MissingParents(pool, kv, already_in, true);
          if !yes {
            NoneLeft(Parents(T, kv), already_in);
            result, parent_of := AppendTxs(pool, kv, result, parent_of, visited, rest, open + {txkey});
          } else {
            SortingRetried(T, result, parent_of, visited, rest, kv);
          }
        } else {
          SortingRetried(T, result, parent_of, visited, rest, kv);
        }
      }
      assert toretry[|toretry|..] == [];
      NoElems();
      assert owed + {} == owed;
      assert result[|before|] == (before + [txkey])[|before|] == txkey;
      SortingForget(T, result, parent_of, visited, owed, txkey);
      assert (parent_of - {txkey}).Keys == parent_of.Keys - {txkey};
      OneLess(parent_of.Keys, Elems(result), open, txkey);
      parent_of := parent_of - {txkey};
    } else {
      assert owed + {} == owed;
      assert txkey !in parent_of.Keys && parent_of.Keys * Elems(result) == parents.Keys * Elems(before);
    }
  }

  lemma OneLess(a: set<TxId>, b: set<TxId>, open: set<TxId>, k: TxId)
    requires a * b <= open + {k}
    ensures (a - {k}) * b <= open
  {
    forall x | x in (a - {k}) * b
      ensures x in open
    {
      assert x in a * b;
    }
  }

  lemma NoneLeft(a: set<TxId>, b: set<TxId>)
    requires a - b == {}
    ensures a <= b
  {
    forall x | x in a
      ensures x in b
    {
      assert x !in a - b;
    }
  }

  lemma ElemsAre(s: seq<TxId>)
    ensures Elems(s) == set x | x in s
  {
  }

  lemma ElemsHead(s: seq<TxId>, i: nat)
    requires i < |s|
    ensures Elems(s[i..]) == {s[i]} + Elems(s[i + 1..])
  {
    assert s[i..] == [s[i]] + s[i + 1..];
  }

  lemma Listed(T: Txs, parents: Deferred, visited: set<TxId>, k: TxId, d: TxId, before: seq<TxId>, owed: set<TxId>)
    requires Sorting(T, before, parents, visited, owed) && k in parents && d in parents[k]
    ensures d in visited && d in T
  {
  }

  lemma Bounded(T: Txs, s: seq<TxId>, parents: Deferred, visited: set<TxId>, owed: set<TxId>, k: TxId)
    requires Sorting(T, s, parents, visited, owed) && k in visited && k !in s
    ensures k in T && |s| < |T|
  {
    ElemsAppend(s, k);
    DistinctAppend(s, k);
    ListBounded(T, s + [k]);
  }

  /** A transaction none of whose ancestors waits is in. */
  lemma {:induction false} NoneStuck(rank: TxId -> nat, T: Txs, result: seq<TxId>, k: TxId)
    requires Keyed(rank, T) && k in T && forall d :: d in T && d !in result ==> Waits(T, result, d)
    ensures k in result
    decreases rank(k)
  {
    if k !in result {
      assert Waits(T, result, k);
      var p :| p in Parents(T, k) && p !in result;
      NoneStuck(rank, T, result, p);
    }
  }

  /** When everything has been visited and nothing is owed a retry, everything is in. */
  lemma SortingDone(rank: TxId -> nat, T: Txs, result: seq<TxId>, parent_of: Deferred)
    requires Keyed(rank, T) && Sorting(T, result, parent_of, T.Keys, {})
    ensures ParentsFirst(T, result) && Elems(result) == T.Keys && |result| == |T|
  {
    forall k | k in T
      ensures k in result
    {
      NoneStuck(rank, T, result, k);
    }
    DistinctSize(result);
  }

  /** txkey is put on the list of every parent it waits for. */
  lemma SortingDefer(T: Txs, result: seq<TxId>, parent_of: Deferred, visited: set<TxId>, k: TxId, parent_of': Deferred)
    requires Sorting(T, result, parent_of, visited, {}) && k in T && k !in visited && Parents(T, k) - Elems(result) != {}
    requires parent_of.Keys <= parent_of'.Keys
    requires forall p :: p in parent_of' ==> (p in parent_of || p in Parents(T, k)) && forall d :: d in parent_of'[p] ==> d == k || (p in parent_of && d in parent_of[p])
    requires forall p, d :: p in parent_of && d in parent_of[p] ==> d in parent_of'[p]
    requires forall p :: p in Parents(T, k) && p !in result ==> p in parent_of' && k in parent_of'[p]
    ensures Sorting(T, result, parent_of', visited + {k}, {})
  {
    hide ParentsFirst;
    var q :| q in Parents(T, k) - Elems(result);
    assert Waits(T, result, k);
  }

  // The order by fee.

  /** Among the members of s, what is not before another is not before anything that is not after that. */
  ghost predicate WeakOrder<T>(less: (T, T) -> bool, s: seq<T>) {
    && (forall a, b :: a in s && b in s && less(a, b) ==> !less(b, a))
    && (forall a, b, c :: a in s && b in s && c in s && !less(b, a) && !less(c, b) ==> !less(c, a))
  }

  ghost predicate SortedBy<T>(less: (T, T) -> bool, s: seq<T>) {
    forall i, j :: 0 <= i < j < |s| ==> !less(s[j], s[i])
  }

  predicate IsLeast<T>(less: (T, T) -> bool, s: seq<T>, k: nat)
    requires k < |s|
  {
    forall j :: 0 <= j < |s| ==> !less(s[j], s[k])
  }

  lemma {:induction false} LeastExists<T>(less: (T, T) -> bool, s: seq<T>, n: nat) returns (k: nat)
    requires WeakOrder(less, s) && 0 < n <= |s|
    ensures k < n && IsLeast(less, s[..n], k)
    decreases n
  {
    k := n - 1;
    if n > 1 {
      var l := LeastExists(less, s, n - 1);
      assert forall j :: 0 <= j < n - 1 ==> s[..n - 1][j] == s[j];
      if less(s[n - 1], s[l]) {
        forall j | 0 <= j < n
          ensures !less(s[j], s[n - 1])
        {
          assert s[l] in s && s[j] in s && s[n - 1] in s;
        }
      } else {
        k := l;
      }
    } else {
      assert s[0] in s;
    }
  }

  /** sort.Slice: a permutation, and sorted if the comparison is a weak order. */
  method SortSlice<T>(s: seq<T>, less: (T, T) -> bool) returns (r: seq<T>)
    ensures multiset(r) == multiset(s)
    ensures WeakOrder(less, s) ==> SortedBy(less, r)
  {
    r := [];
    var rest := s;
    while rest != []
      invariant multiset(r) + multiset(rest) == multiset(s)
      invariant forall x :: x in r || x in rest ==> x in s
      invariant WeakOrder(less, s) ==> SortedBy(less, r) && forall x, y :: x in r && y in rest ==> !less(y, x)
      decreases |rest|
    {
      ghost var l: nat := 0;
      if WeakOrder(less, s) {
        l := LeastExists(less, rest, |rest|);
        assert rest[..|rest|] == rest;
        assert IsLeast(less, rest, l);
      }
      var k: nat := 0;
      if j: nat :| j < |rest| && IsLeast(less, rest, j) {
        k := j;
      }
      assert rest == rest[..k] + [rest[k]] + rest[k + 1..];
      assert rest[k] in rest;
      r := r + [rest[k]];
      rest := rest[..k] + rest[k + 1..];
    }
  }

  lemma {:induction false} CountOnce<T>(s: seq<T>)
    ensures Distinct(s) <==> forall x :: x in s ==> multiset(s)[x] == 1
  {
    if s != [] {
      var init, l := s[..|s| - 1], s[|s| - 1];
      assert s == init + [l];
      CountOnce(init);
      if Distinct(s) {
        assert Distinct(init) && l !in init;
      } else if Distinct(init) {
        assert l in init;
        assert multiset(s)[l] == multiset(init)[l] + 1;
      } else {
        var x :| x in init && multiset(init)[x] != 1;
        assert x in s;
      }
    }
  }

  lemma Permuted<T>(s: seq<T>, r: seq<T>)
    requires multiset(r) == multiset(s)
    ensures Distinct(s) ==> Distinct(r)
    ensures Elems(r) == Elems(s)
  {
    forall x
      ensures x in r <==> x in s
    {
      assert x in r <==> x in multiset(r);
    }
    CountOnce(s);
    CountOnce(r);
  }

  /** What the comparison looks at. */
  datatype Rate = Rate(fee: nat, weight: nat, cnt: int)

  ghost function Rates(T: Txs): map<TxId, Rate>
    reads T.Values
  {
    map k | k in T :: Rate(T[k].Fee, T[k].weight, T[k].MemInputCnt)
  }

  /** More fee for the weight, or as much and fewer parents in the pool. A further tie-break compares a hash with itself. */
  predicate Richer(a: Rate, b: Rate) {
    var x, y := a.fee * b.weight % W64, b.fee * a.weight % W64;
    if x != y then x > y else a.cnt < b.cnt
  }

  function RicherIn(rates: map<TxId, Rate>): (TxId, TxId) -> bool {
    (a, b) => a in rates && b in rates && Richer(rates[a], rates[b])
  }

  /** The products fit 64 bits. */
  ghost predicate Fit(a: Rate, b: Rate) {
    a.weight > 0 && b.weight > 0 && a.fee * b.weight < W64 && b.fee * a.weight < W64
  }

  ghost predicate RatesFit(rates: map<TxId, Rate>) {
    forall k, l :: k in rates && l in rates ==> Fit(rates[k], rates[l])
  }

  lemma Crossed(f1: nat, w1: nat, f2: nat, w2: nat, f3: nat, w3: nat)
    requires f1 * w2 <= f2 * w1 && f2 * w3 <= f3 * w2 && w2 > 0
    ensures f1 * w3 <= f3 * w1
    ensures f1 * w3 == f3 * w1 && w1 > 0 && w3 > 0 ==> f1 * w2 == f2 * w1 && f2 * w3 == f3 * w2
  {
    var x, y := f1 * w3, f3 * w1;
    assert x * w2 == f1 * w2 * w3 && y * w2 == f3 * w2 * w1 && f2 * w1 * w3 == f2 * w3 * w1;
    MulLe(f1 * w2, f2 * w1, w3);
    MulLe(f2 * w3, f3 * w2, w1);
    assert x * w2 <= f2 * w1 * w3 <= y * w2;
    if x > y {
      MulLess(y, x, w2);
    }
    if x == y && w1 > 0 && w3 > 0 {
      if f1 * w2 < f2 * w1 {
        MulLess(f1 * w2, f2 * w1, w3);
      }
      if f2 * w3 < f3 * w2 {
        MulLess(f2 * w3, f3 * w2, w1);
      }
    }
  }

  lemma MulLess(a: nat, b: nat, w: nat)
    requires a < b && w > 0
    ensures a * w < b * w
  {
  }

  lemma RicherPassedOn(a: Rate, b: Rate, c: Rate)
    requires Fit(a, b) && Fit(b, c) && Fit(a, c) && !Richer(b, a) && !Richer(c, b)
    ensures !Richer(c, a)
  {
    hide Richer;
    RicherIs(b, a);
    RicherIs(c, b);
    RicherIs(c, a);
    Crossed(c.fee, c.weight, b.fee, b.weight, a.fee, a.weight);
  }

  lemma RicherIs(a: Rate, b: Rate)
    requires Fit(a, b)
    ensures var x, y := a.fee * b.weight, b.fee * a.weight;
            Richer(a, b) <==> x > y || (x == y && a.cnt < b.cnt)
  {
    Small(a.fee * b.weight);
    Small(b.fee * a.weight);
  }

  lemma Small(x: nat)
    requires x < W64
    ensures x % W64 == x
  {
  }

  lemma RicherIsWeak(rates: map<TxId, Rate>, s: seq<TxId>)
    ensures RatesFit(rates) && Elems(s) <= rates.Keys ==> WeakOrder(RicherIn(rates), s)
  {
    hide Richer;
    if RatesFit(rates) && Elems(s) <= rates.Keys {
      forall a, b | a in s && b in s && RicherIn(rates)(a, b)
        ensures !RicherIn(rates)(b, a)
      {
        RicherOneWay(rates[a], rates[b]);
      }
      forall a, b, c | a in s && b in s && c in s && !RicherIn(rates)(b, a) && !RicherIn(rates)(c, b)
        ensures !RicherIn(rates)(c, a)
      {
        assert a in Elems(s) && b in Elems(s) && c in Elems(s);
        RicherPassedOn(rates[a], rates[b], rates[c]);
      }
    }
  }

  lemma RicherOneWay(a: Rate, b: Rate)
    ensures Richer(a, b) ==> !Richer(b, a)
  {
  }

  /** order has every transaction once; those with the better fee come first, if nothing overflows. */
  ghost predicate FeeOrder(rates: map<TxId, Rate>, order: seq<TxId>) {
    && Distinct(order) && Elems(order) == rates.Keys
    && (RatesFit(rates) ==> SortedBy(RicherIn(rates), order))
  }

  method SortByFee(T: Txs) returns (order: seq<TxId>)
    ensures FeeOrder(Rates(T), order)
  {
    hide Distinct, SortedBy, WeakOrder;
    var rates := map k | k in T :: Rate(T[k].Fee, T[k].weight, T[k].MemInputCnt);
    assert rates.Keys == T.Keys;
    var all_txs := AnyOrder(T.Keys);
    order := SortSlice(all_txs, RicherIn(rates));
    Permuted(all_txs, order);
    RicherIsWeak(rates, all_txs);
  }

  // As far as parents allow.

  /** The transactions all of whose ancestors are in xs, themselves included. */
  ghost function Ready(rank: TxId -> nat, T: Txs, xs: set<TxId>): set<TxId>
    requires Keyed(rank, T)
  {
    set k | k in T && forall a :: a in T && Descends(rank, T, a, k) ==> a in xs
  }

  ghost predicate StagedAt(rank: TxId -> nat, T: Txs, result: seq<TxId>, xs: set<TxId>)
    requires Keyed(rank, T)
  {
    exists n :: 0 <= n <= |result| && Elems(result[..n]) == Ready(rank, T, xs)
  }

  /**
   * Each transaction comes as soon as the last of its ancestors has had its turn: for each part of order from the
   * beginning, a part of result from the beginning has just those that part of order makes ready.
   */
  ghost predicate Staged(rank: TxId -> nat, T: Txs, order: seq<TxId>, result: seq<TxId>, i: nat)
    requires Keyed(rank, T) && i <= |order|
  {
    forall j :: 0 <= j <= i ==> StagedAt(rank, T, result, Elems(order[..j]))
  }

  lemma {:induction false} AncestorsIn(rank: TxId -> nat, T: Txs, result: seq<TxId>, a: TxId, k: TxId)
    requires Keyed(rank, T) && ParentsFirst(T, result) && k in T && k in result && Descends(rank, T, a, k)
    ensures a in result
    decreases rank(k)
  {
    if a != k {
      var op :| op in T[k].tx.ins && op.hash in T && Descends(rank, T, a, op.hash);
      var i :| 0 <= i < |result| && result[i] == k;
      assert op.hash in Parents(T, result[i]);
      assert op.hash in Elems(result[..i]);
      AncestorsIn(rank, T, result, a, op.hash);
    }
  }

  lemma {:induction false} ReadyIn(rank: TxId -> nat, T: Txs, result: seq<TxId>, visited: set<TxId>, k: TxId)
    requires Keyed(rank, T) && k in Ready(rank, T, visited)
    requires forall d :: d in visited && d !in result ==> Waits(T, result, d)
    ensures k in result
    decreases rank(k)
  {
    hide Keyed;
    assert Descends(rank, T, k, k);
    if k !in result {
      var p :| p in Parents(T, k) && p !in result;
      ParentReady(rank, T, visited, k, p);
      ReadyIn(rank, T, result, visited, p);
    }
  }

  lemma ParentReady(rank: TxId -> nat, T: Txs, visited: set<TxId>, k: TxId, p: TxId)
    requires Keyed(rank, T) && k in Ready(rank, T, visited) && p in Parents(T, k)
    ensures p in Ready(rank, T, visited) && rank(p) < rank(k)
  {
    var op :| op in T[k].tx.ins && op.hash in T && op.hash == p;
    forall a | a in T && Descends(rank, T, a, p)
      ensures a in visited
    {
      assert Descends(rank, T, a, k);
    }
  }

  /** With nothing owed a retry, just the ready ones are in. */
  lemma ReadyNow(rank: TxId -> nat, T: Txs, result: seq<TxId>, parent_of: Deferred, visited: set<TxId>)
    requires Keyed(rank, T) && Sorting(T, result, parent_of, visited, {})
    ensures Elems(result) == Ready(rank, T, visited)
  {
    hide Keyed, ParentsFirst, Waits, Descends;
    forall k | k in result
      ensures k in Ready(rank, T, visited)
    {
      assert k in Elems(result);
      forall a | a in T && Descends(rank, T, a, k)
        ensures a in visited
      {
        AncestorsIn(rank, T, result, a, k);
        assert a in Elems(result);
      }
    }
    forall k | k in Ready(rank, T, visited)
      ensures k in result
    {
      ReadyIn(rank, T, result, visited, k);
    }
  }

  lemma StagedNext(rank: TxId -> nat, T: Txs, order: seq<TxId>, i: nat, was: seq<TxId>, result: seq<TxId>, parent_of: Deferred)
    requires Keyed(rank, T) && i < |order| && Staged(rank, T, order, was, i) && was <= result
    requires Sorting(T, result, parent_of, Elems(order[..i + 1]), {})
    ensures Staged(rank, T, order, result, i + 1)
  {
    hide Keyed, Sorting, Elems, Ready;
    ReadyNow(rank, T, result, parent_of, Elems(order[..i + 1]));
    forall j | 0 <= j <= i + 1
      ensures StagedAt(rank, T, result, Elems(order[..j]))
    {
      if j <= i {
        var n :| 0 <= n <= |was| && Elems(was[..n]) == Ready(rank, T, Elems(order[..j]));
        assert result[..n] == was[..n];
      } else {
        assert result[..|result|] == result;
      }
    }
  }

  lemma StagedStart(rank: TxId -> nat, T: Txs, order: seq<TxId>)
    requires Keyed(rank, T)
    ensures Staged(rank, T, order, [], 0)
  {
    hide Keyed;
    var none: seq<TxId> := [];
    assert Elems(order[..0]) == {} && Elems(none[..0]) == {};
    forall k | k in T
      ensures k !in Ready(rank, T, {})
    {
      assert Descends(rank, T, k, k);
    }
    assert Elems(none[..0]) == Ready(rank, T, Elems(order[..0]));
  }

  /**
   * GetSortedMempool: every transaction once, behind its parents, and as early as the order by fee lets it. Its
   * complaint is never printed.
   */
  method GetSortedMempool(pool: Pool) returns (result: seq<TxId>, ghost order: seq<TxId>)
    requires pool.Valid()
    ensures ParentsFirst(pool.TransactionsToSend, result) && Elems(result) == pool.TransactionsToSend.Keys
    ensures |result| == |pool.TransactionsToSend|
    ensures FeeOrder(Rates(pool.TransactionsToSend), order)
    ensures Keyed(pool.rank, pool.TransactionsToSend) && Staged(pool.rank, pool.TransactionsToSend, order, result, |order|)
  {
    hide Pool.Valid, Keyed, Sorting, Elems, Parents, ParentsFirst, Distinct, FeeOrder, Staged;
    var T := pool.TransactionsToSend;
    PoolKeyed(pool);
    var all_txs := SortByFee(T);
    OrderIs(T, all_txs);
    var parent_of: Deferred := map[];
    result := [];
    SortingStart(T, all_txs);
    StagedStart(pool.rank, T, all_txs);
    for i := 0 to |all_txs|
      invariant Sorting(T, result, parent_of, Elems(all_txs[..i]), {}) && parent_of.Keys * Elems(result) <= {} && parent_of.Keys <= T.Keys
      invariant Staged(pool.rank, T, all_txs, result, i)
    {
      var txkey := all_txs[i];
      ghost var visited, before := Elems(all_txs[..i]), result;
      NewKey(T, all_txs, i, result, parent_of);
      var already_in := set x | x in result;
      ElemsAre(result);
      assert already_in == Elems(result);
      var missing, yes := MissingParents(pool, txkey, already_in, false);
      if yes {
        ghost var was := parent_of;
        parent_of := Defer(parent_of, missing, txkey);
        DeferredElems(T, txkey, result, missing);
        SortingDefer(T, result, was, visited, txkey, parent_of);
        DeferOpen(was, parent_of, missing, result);
      } else {
        NoneLeft(Parents(T, txkey), already_in);
        SortingVisit(T, result, parent_of, visited, txkey);
        result, parent_of := AppendTxs(pool, txkey, result, parent_of, visited + {txkey}, {}, {});
      }
      StagedNext(pool.rank, T, all_txs, i, before, result, parent_of);
    }
    assert all_txs[..|all_txs|] == all_txs;
    SortingDone(pool.rank, T, result, parent_of);
    NothingDeferred(T, result, parent_of);
    assert parent_of == map[] && |result| == |T|;
    order := all_txs;
  }

  lemma OrderIs(T: Txs, order: seq<TxId>)
    requires FeeOrder(Rates(T), order)
    ensures Distinct(order) && Elems(order) == T.Keys
  {
    assert Rates(T).Keys == T.Keys;
  }

  lemma SortingStart(T: Txs, all_txs: seq<TxId>)
    ensures Sorting(T, [], map[], Elems(all_txs[..0]), {}) && Elems<TxId>([]) == {}
  {
  }

  lemma NewKey(T: Txs, all_txs: seq<TxId>, i: nat, result: seq<TxId>, parent_of: Deferred)
    requires Distinct(all_txs) && Elems(all_txs) == T.Keys && i < |all_txs| && Sorting(T, result, parent_of, Elems(all_txs[..i]), {})
    ensures all_txs[i] in T && all_txs[i] !in Elems(all_txs[..i]) && all_txs[i] !in result
    ensures Elems(all_txs[..i + 1]) == Elems(all_txs[..i]) + {all_txs[i]}
  {
    ElemsNext(all_txs, i);
    assert all_txs[i] in Elems(all_txs);
    assert all_txs[i] !in Elems(result);
  }

  lemma DeferredElems(T: Txs, k: TxId, result: seq<TxId>, missing: seq<TxId>)
    requires k in T && Elems(missing) == Parents(T, k) - Elems(result)
    ensures forall p :: p in missing ==> p in T
    ensures forall p :: p in missing <==> p in Parents(T, k) && p !in result
  {
    forall p
      ensures p in missing <==> p in Parents(T, k) && p !in result
    {
      assert p in missing <==> p in Elems(missing);
      assert p in result <==> p in Elems(result);
    }
  }

  lemma DeferOpen(was: Deferred, now: Deferred, missing: seq<TxId>, result: seq<TxId>)
    requires was.Keys * Elems(result) <= {} && forall p :: p in now ==> p in was || p in missing
    requires forall p :: p in missing ==> p !in result
    ensures now.Keys * Elems(result) <= {}
  {
    forall p | p in now
      ensures p !in Elems(result)
    {
      assert p !in was.Keys * Elems(result);
    }
  }

  lemma SortingVisit(T: Txs, result: seq<TxId>, parent_of: Deferred, visited: set<TxId>, k: TxId)
    requires Sorting(T, result, parent_of, visited, {}) && k in T && Parents(T, k) <= Elems(result)
    ensures Sorting(T, result, parent_of, visited + {k}, {} + {k})
  {
    hide ParentsFirst, Parents;
  }

  lemma NothingDeferred(T: Txs, result: seq<TxId>, parent_of: Deferred)
    requires Elems(result) == T.Keys && parent_of.Keys * Elems(result) <= {} && Sorting(T, result, parent_of, T.Keys, {})
    requires parent_of.Keys <= T.Keys
    ensures parent_of == map[]
  {
    assert forall p :: p in parent_of ==> p in parent_of.Keys * Elems(result);
  }

  /** The loop that puts txkey on its missing parents' lists. */
  method Defer(before: Deferred, missing: seq<TxId>, txkey: TxId) returns (parent_of: Deferred)
    ensures forall p :: p in parent_of <==> p in before || p in missing
    ensures forall p, d :: p in parent_of && d in parent_of[p] ==> d == txkey || (p in before && d in before[p])
    ensures forall p, d :: p in before && d in before[p] ==> d in parent_of[p]
    ensures forall p :: p in missing ==> txkey in parent_of[p]
  {
    parent_of := before;
    for i := 0 to |missing|
      invariant forall p :: p in parent_of <==> p in before || p in missing[..i]
      invariant forall p, d :: p in parent_of && d in parent_of[p] ==> d == txkey || (p in before && d in before[p])
      invariant forall p, d :: p in before && d in before[p] ==> d in parent_of[p]
      invariant forall p :: p in missing[..i] ==> txkey in parent_of[p]
    {
      var kv := missing[i];
      assert missing[..i + 1] == missing[..i] + [kv];
      parent_of := parent_of[kv := (if kv in parent_of then parent_of[kv] else []) + [txkey]];
    }
    assert missing[..|missing|] == missing;
  }
}
