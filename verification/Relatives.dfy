/** Finding a pool transaction's children, their children, and their other parents. */
module Relatives {
  import opened Utxo
  import opened Seqs
  import opened Mempool

  /** c spends an output of p. */
  predicate Spends(T: Txs, c: TxId, p: TxId)
    requires c in T
  {
    exists op :: op in T[c].tx.ins && op.hash == p
  }

  lemma PoolKeyed(pool: Pool)
    requires pool.Valid()
    ensures Keyed(pool.rank, pool.TransactionsToSend)
  {
  }

  /** GetChildren. */
  method GetChildren(pool: Pool, k: TxId) returns (result: seq<TxId>)
    requires pool.Valid() && k in pool.TransactionsToSend
    ensures Distinct(result)
    ensures forall c :: c in result <==> c in pool.TransactionsToSend && Spends(pool.TransactionsToSend, c, k)
  {
    hide MemFits, Pool.Valid;
    var T := pool.TransactionsToSend;
    var tx := T[k].tx;
    Views(pool, k);
    var res: set<TxId> := {};
    for vout := 0 to |tx.outs|
      invariant forall c :: c in res ==> c in T && Spends(T, c, k)
      invariant forall c, op :: c in T && op in T[c].tx.ins && op.hash == k && op.vout < vout ==> c in res
    {
      var po := OutPoint(tx.hash, vout);
      if po in pool.SpentOutputs {
        res := res + {pool.SpentOutputs[po]};
      }
    }
    result := AnyOrder(res);
    forall c
      ensures c in result <==> c in T && Spends(T, c, k)
    {
      assert c in result <==> c in Elems(result);
    }
  }

  /** What Valid says of k and of who spends from it. */
  lemma Views(pool: Pool, k: TxId)
    requires pool.Valid() && k in pool.TransactionsToSend
    ensures var T, S := pool.TransactionsToSend, pool.SpentOutputs;
            && T[k].tx.hash == k
            && (forall c, op :: c in T && op in T[c].tx.ins && op.hash == k ==> op.vout < |T[k].tx.outs| && op in S && S[op] == c)
            && (forall op :: op in S ==> S[op] in T && op in T[S[op]].tx.ins)
  {
    hide MemFits;
  }

  /** Every child of a member of xs is a member of all. */
  ghost predicate ChildrenIn(T: Txs, xs: set<TxId>, all: set<TxId>) {
    forall p, c :: p in xs && c in T && Spends(T, c, p) ==> c in all
  }

  lemma {:induction false} ClosedFamily(rank: TxId -> nat, T: Txs, a: TxId, all: set<TxId>, k: TxId)
    requires Keyed(rank, T) && a in all && ChildrenIn(T, all, all) && k in T && Descends(rank, T, a, k)
    ensures k in all
    decreases rank(k)
  {
    if k != a {
      var op :| op in T[k].tx.ins && op.hash in T && Descends(rank, T, a, op.hash);
      ClosedFamily(rank, T, a, all, op.hash);
      assert Spends(T, k, op.hash);
    }
  }

  lemma ChildDescends(rank: TxId -> nat, T: Txs, a: TxId, p: TxId, c: TxId)
    requires Keyed(rank, T) && p in T && c in T && Descends(rank, T, a, p) && Spends(T, c, p)
    ensures Descends(rank, T, a, c) && rank(p) < rank(c)
    ensures a in T && c != a
  {
    DescendsRank(rank, T, a, p);
  }

  lemma ListBounded(T: Txs, s: seq<TxId>)
    requires Distinct(s) && Elems(s) <= T.Keys
    ensures |s| <= |T|
  {
    DistinctSize(s);
    SubsetSize(Elems(s), T.Keys);
  }

  /** Each new member is one of more, and those before it there are before it here. */
  ghost predicate Inserted(s: seq<TxId>, more: seq<TxId>, s': seq<TxId>) {
    forall i :: |s| <= i < |s'| ==> exists j :: 0 <= j < |more| && more[j] == s'[i] && Elems(more[..j]) <= Elems(s'[..i])
  }

  /** The loop that appends what is not there yet. */
  method AppendUnseen(result: seq<TxId>, already: set<TxId>, more: seq<TxId>) returns (result': seq<TxId>, already': set<TxId>)
    requires Distinct(result) && already == Elems(result)
    ensures Distinct(result') && already' == Elems(result') == Elems(result) + Elems(more)
    ensures result <= result'
    ensures Inserted(result, more, result')
  {
    hide Distinct;
    result', already' := result, already;
    assert Elems(more[..0]) == {};
    for i := 0 to |more|
      invariant Distinct(result') && already' == Elems(result') == Elems(result) + Elems(more[..i]) && result <= result'
      invariant Inserted(result, more, result')
    {
      ElemsNext(more, i);
      if more[i] !in already' {
        ghost var was := result';
        ElemsAppend(result', more[i]);
        DistinctAppend(result', more[i]);
        already' := already' + {more[i]};
        result' := result' + [more[i]];
        assert forall i :: 0 <= i <= |was| ==> result'[..i] == was[..i];
      }
    }
    assert more[..|more|] == more;
  }

  /** GetAllChildren: everything that descends from k, without k, each once. */
  method GetAllChildren(pool: Pool, k: TxId) returns (result: seq<TxId>)
    requires pool.Valid() && k in pool.TransactionsToSend
    ensures Distinct(result) && Elems(result) == Family(pool.rank, pool.TransactionsToSend, k) - {k}
  {
    hide MemFits, SpentExact, Keyed, Descends, Spends, Distinct, ChildrenIn;
    ghost var rank := pool.rank;
    var T := pool.TransactionsToSend;
    var already: set<TxId> := {};
    result := [];
    var idx := 0;
    var par := k;
    ghost var expanded: set<TxId> := {};
    NothingExpanded(rank, T, k);
    while true
      invariant 0 <= idx <= |result| && Distinct(result) && already == Elems(result)
      invariant already <= Family(rank, T, k) - {k}
      invariant par in Family(rank, T, k) && expanded + {par} == {k} + Elems(result[..idx])
      invariant ChildrenIn(T, expanded, already)
      decreases |T| - idx
    {
      var chlds := GetChildren(pool, par);
      ChildrenDescend(rank, T, k, par, chlds);
      ghost var before, was := result, already;
      result, already := AppendUnseen(result, already, chlds);
      assert result[..idx] == before[..idx];
      Expanded(T, expanded, par, was, chlds, already);
      expanded := expanded + {par};
      if idx == |result| {
        break;
      }
      ElemsNext(result, idx);
      par := result[idx];
      assert par in Elems(result);
      already := already + {par};
      idx := idx + 1;
      ListBounded(T, result);
    }
    assert result[..|result|] == result;
    FamilyFound(rank, T, k, expanded, result);
  }

  lemma NothingExpanded(rank: TxId -> nat, T: Txs, k: TxId)
    requires Keyed(rank, T) && k in T
    ensures k in Family(rank, T, k) && Distinct<TxId>([]) && Elems<TxId>([]) == {} && ChildrenIn(T, {}, {})
  {
  }

  lemma ChildrenDescend(rank: TxId -> nat, T: Txs, k: TxId, par: TxId, chlds: seq<TxId>)
    requires Keyed(rank, T) && par in Family(rank, T, k) && forall c :: c in chlds <==> c in T && Spends(T, c, par)
    ensures Elems(chlds) <= Family(rank, T, k) - {k}
  {
    forall c | c in chlds
      ensures c in Family(rank, T, k) - {k}
    {
      ChildDescends(rank, T, k, par, c);
    }
  }

  lemma Expanded(T: Txs, xs: set<TxId>, par: TxId, all: set<TxId>, chlds: seq<TxId>, all': set<TxId>)
    requires ChildrenIn(T, xs, all) && (forall c :: c in chlds <==> c in T && Spends(T, c, par)) && all' == all + Elems(chlds)
    ensures ChildrenIn(T, xs + {par}, all')
  {
  }

  lemma FamilyFound(rank: TxId -> nat, T: Txs, k: TxId, expanded: set<TxId>, result: seq<TxId>)
    requires Keyed(rank, T) && k in T && expanded == {k} + Elems(result) && ChildrenIn(T, expanded, Elems(result))
    requires Elems(result) <= Family(rank, T, k) - {k}
    ensures Elems(result) == Family(rank, T, k) - {k}
  {
    forall c | c in Family(rank, T, k)
      ensures c in expanded
    {
      ClosedFamily(rank, T, k, expanded, c);
    }
  }

  /** The transactions in the pool that k spends from. */
  ghost function Parents(T: Txs, k: TxId): set<TxId>
    requires k in T
  {
    set op | op in T[k].tx.ins && op.hash in T :: op.hash
  }

  /** Every member stands behind its parents, except's absence apart. */
  ghost predicate Ordered(T: Txs, except: TxId, s: seq<TxId>) {
    && Distinct(s)
    && forall i :: 0 <= i < |s| ==> s[i] in T && s[i] != except && Parents(T, s[i]) <= Elems(s[..i]) + {except}
  }

  lemma OrderedAppend(T: Txs, except: TxId, s: seq<TxId>, k: TxId)
    requires Ordered(T, except, s) && k in T && k != except && k !in s && Parents(T, k) <= Elems(s) + {except}
    ensures Ordered(T, except, s + [k])
  {
    DistinctAppend(s, k);
    assert (s + [k])[..|s|] == s;
    forall i | 0 <= i < |s|
      ensures (s + [k])[..i] == s[..i]
    {
    }
  }

  lemma MemFlags(pool: Pool, k: TxId)
    requires pool.Valid() && k in pool.TransactionsToSend
    ensures var T, rec := pool.TransactionsToSend, pool.TransactionsToSend[k];
            && (rec.MemInputCnt > 0 <==> rec.MemInputs.Some?)
            && (rec.MemInputs.Some? ==> |rec.MemInputs.value| == |rec.tx.ins|)
            && (rec.MemInputs.Some? ==> forall i :: 0 <= i < |rec.tx.ins| ==> (rec.MemInputs.value[i] <==> rec.tx.ins[i].hash in T))
            && (rec.MemInputs.None? <==> Parents(T, k) == {})
            && (forall p :: p in Parents(T, k) ==> pool.rank(p) < pool.rank(k))
            && (forall i :: 0 <= i < |rec.tx.ins| && rec.tx.ins[i].hash in T ==> rec.tx.ins[i].hash in Parents(T, k))
  {
    hide SpentExact, Descends;
    var T, rec := pool.TransactionsToSend, pool.TransactionsToSend[k];
    assert MemFits(rec, T, {});
    if rec.MemInputs.None? {
      forall op | op in rec.tx.ins
        ensures op.hash !in T
      {
        var i :| 0 <= i < |rec.tx.ins| && rec.tx.ins[i] == op;
        assert !FromMem(T, {}, rec.tx.ins[i]);
      }
    } else {
      CountNone(rec.MemInputs.value);
      var i :| 0 <= i < |rec.tx.ins| && rec.MemInputs.value[i];
      assert rec.tx.ins[i].hash in Parents(T, k);
    }
  }

  /** xs has the parents of k and, with each of its members, that one's parents, except's absence apart. */
  ghost predicate ClosedUp(T: Txs, k: TxId, except: TxId, xs: set<TxId>)
    requires k in T
  {
    Parents(T, k) - {except} <= xs && forall x :: x in xs && x in T ==> Parents(T, x) - {except} <= xs
  }

  /** The ancestors of k that are reached without going through except: the least set that is closed upwards. */
  ghost function AncestorsExcept(T: Txs, k: TxId, except: TxId): set<TxId>
    requires k in T
  {
    set x | x in T && forall xs :: ClosedUp(T, k, except, xs) ==> x in xs
  }

  lemma LeastClosed(T: Txs, k: TxId, except: TxId)
    requires k in T
    ensures ClosedUp(T, k, except, AncestorsExcept(T, k, except))
  {
    hide Spends;
  }

  /** do_one of GetAllParentsExcept: start itself is never listed. */
  method DoOne(pool: Pool, start: TxId, except: TxId, k: TxId, before: seq<TxId>) returns (result: seq<TxId>)
    requires pool.Valid() && k in pool.TransactionsToSend && Ordered(pool.TransactionsToSend, except, before)
    requires start !in before && (k == start || (k != except && pool.rank(k) < pool.rank(start)))
    requires start in pool.TransactionsToSend && (k == start || k in AncestorsExcept(pool.TransactionsToSend, start, except))
    requires Elems(before) <= AncestorsExcept(pool.TransactionsToSend, start, except)
    ensures before <= result && Ordered(pool.TransactionsToSend, except, result) && start !in result
    ensures Elems(result) <= AncestorsExcept(pool.TransactionsToSend, start, except)
    ensures Parents(pool.TransactionsToSend, k) <= Elems(result) + {except}
    ensures k != start ==> k in result
    decreases pool.rank(k)
  {
    hide Pool.Valid, Ordered, Parents, Keyed, Elems, AncestorsExcept;
    var T := pool.TransactionsToSend;
    ghost var above := AncestorsExcept(T, start, except);
    var rec := T[k];
    MemFlags(pool, k);
    LeastClosed(T, start, except);
    result := before;
    if rec.MemInputCnt > 0 {
      for idx := 0 to |rec.tx.ins|
        invariant before <= result && Ordered(T, except, result) && start !in result && Elems(result) <= above
        invariant forall j :: 0 <= j < idx && rec.tx.ins[j].hash in T ==> rec.tx.ins[j].hash == except || rec.tx.ins[j].hash in result
      {
        if rec.MemInputs.value[idx] {
          var par := rec.tx.ins[idx].hash;
          if par != except {
            if par != start && par !in result {
              result := DoOne(pool, start, except, par, result);
            }
          }
        }
      }
    }
    ParentsListed(T, k, except, result);
    if k != start && k !in result {
      OrderedAppend(T, except, result, k);
      ElemsAppend(result, k);
      result := result + [k];
    }
  }

  lemma ParentsListed(T: Txs, k: TxId, except: TxId, s: seq<TxId>)
    requires k in T
    requires Parents(T, k) == {} || forall j :: 0 <= j < |T[k].tx.ins| && T[k].tx.ins[j].hash in T ==> T[k].tx.ins[j].hash == except || T[k].tx.ins[j].hash in s
    ensures Parents(T, k) <= Elems(s) + {except}
  {
  }

  /** GetAllParentsExcept: k's ancestors, parents first, but not except nor those that only it brings in. */
  method GetAllParentsExcept(pool: Pool, k: TxId, except: TxId) returns (result: seq<TxId>)
    requires pool.Valid() && k in pool.TransactionsToSend
    ensures Ordered(pool.TransactionsToSend, except, result) && k !in result
    ensures Parents(pool.TransactionsToSend, k) <= Elems(result) + {except}
    ensures Elems(result) == AncestorsExcept(pool.TransactionsToSend, k, except)
  {
    hide Pool.Valid, Keyed, AncestorsExcept;
    result := DoOne(pool, k, except, k, []);
    AllListed(pool.TransactionsToSend, k, except, result);
  }

  lemma AllListed(T: Txs, k: TxId, except: TxId, s: seq<TxId>)
    requires k in T && Ordered(T, except, s) && Parents(T, k) <= Elems(s) + {except}
    ensures AncestorsExcept(T, k, except) <= Elems(s)
  {
    forall x | x in Elems(s) && x in T
      ensures Parents(T, x) - {except} <= Elems(s)
    {
      var i :| 0 <= i < |s| && s[i] == x;
      assert Parents(T, s[i]) <= Elems(s[..i]) + {except};
    }
    assert ClosedUp(T, k, except, Elems(s));
  }

  /** With each of its members, xs has all the pool transactions it spends from and all that spend from it. */
  ghost predicate Whole(T: Txs, xs: set<TxId>) {
    forall c, p :: c in T && p in T && Spends(T, c, p) ==> (c in xs <==> p in xs)
  }

  /** All that is connected with k by spending: the least whole set with k in it. */
  ghost function Component(T: Txs, k: TxId): set<TxId> {
    set x | x in T && forall xs :: Whole(T, xs) && k in xs ==> x in xs
  }

  lemma ComponentWhole(T: Txs, k: TxId)
    requires k in T
    ensures Whole(T, Component(T, k)) && k in Component(T, k)
  {
    hide Spends;
  }

  lemma ComponentLeast(T: Txs, k: TxId, xs: set<TxId>)
    requires Whole(T, xs) && k in xs
    ensures Component(T, k) <= xs
  {
  }

  /** The component of k has k's ancestors, and its children. */
  lemma ComponentHas(T: Txs, k: TxId, except: TxId, c: TxId)
    requires k in T
    ensures AncestorsExcept(T, k, except) <= Component(T, k)
    ensures c in T && Spends(T, c, k) ==> c in Component(T, k)
  {
    hide Component;
    ComponentWhole(T, k);
    var all := Component(T, k);
    forall x, p | x in T && x in all && p in Parents(T, x)
      ensures p in all
    {
      var op :| op in T[x].tx.ins && op.hash in T && op.hash == p;
      assert Spends(T, x, p);
    }
    assert ClosedUp(T, k, except, all);
  }

  /** What is closed under children, and under the parents of all but its head, is the head's component if that has no parents. */
  lemma ComponentFound(T: Txs, s: seq<TxId>)
    requires |s| >= 1 && Stacked(T, s) && ChildrenIn(T, Elems(s), Elems(s)) && Elems(s) <= Component(T, s[0])
    requires Parents(T, s[0]) == {}
    ensures Elems(s) == Component(T, s[0])
  {
    hide Component, ChildrenIn;
    forall c, p | c in T && p in T && Spends(T, c, p)
      ensures c in Elems(s) <==> p in Elems(s)
    {
      if c in Elems(s) {
        var i :| 0 <= i < |s| && s[i] == c;
        var op :| op in T[c].tx.ins && op.hash == p;
        assert p in Parents(T, s[i]);
        assert p in Elems(s[..i]);
      } else if p in Elems(s) {
        ChildOf(T, s, p, c);
      }
    }
    ComponentLeast(T, s[0], Elems(s));
  }

  lemma ChildOf(T: Txs, s: seq<TxId>, p: TxId, c: TxId)
    requires ChildrenIn(T, Elems(s), Elems(s)) && p in Elems(s) && c in T && Spends(T, c, p)
    ensures c in Elems(s)
  {
  }

  /** Apart from the first one, every member stands behind its parents. */
  ghost predicate Stacked(T: Txs, s: seq<TxId>) {
    && Distinct(s)
    && (forall i :: 0 <= i < |s| ==> s[i] in T)
    && forall i :: 1 <= i < |s| ==> Parents(T, s[i]) <= Elems(s[..i])
  }

  lemma StackAppend(T: Txs, s: seq<TxId>, k: TxId)
    requires Stacked(T, s) && k in T && k !in s && Parents(T, k) <= Elems(s)
    ensures Stacked(T, s + [k])
  {
    DistinctAppend(s, k);
    assert (s + [k])[..|s|] == s;
    forall i | 0 <= i < |s|
      ensures (s + [k])[..i] == s[..i]
    {
    }
  }

  lemma StackUnseen(T: Txs, s: seq<TxId>, par: TxId, more: seq<TxId>, s': seq<TxId>)
    requires Stacked(T, s) && par in s && Ordered(T, par, more) && Distinct(s') && s <= s'
    requires Inserted(s, more, s')
    ensures Stacked(T, s')
  {
    forall i | 1 <= i < |s'|
      ensures s'[i] in T && Parents(T, s'[i]) <= Elems(s'[..i])
    {
      if i < |s| {
        assert s'[..i] == s[..i];
      } else {
        var j :| 0 <= j < |more| && more[j] == s'[i] && Elems(more[..j]) <= Elems(s'[..i]);
        assert par in s'[..i] by {
          assert s'[..i][..|s|] == s;
        }
      }
    }
  }

  /** The part of GetItWithAllChildren that lists one child, after those of its other ancestors that are not listed yet. */
  method WithParents(pool: Pool, ch: TxId, par: TxId, before: seq<TxId>, already: set<TxId>) returns (result: seq<TxId>, already': set<TxId>)
    requires pool.Valid() && ch in pool.TransactionsToSend && par in before && ch !in before
    requires Stacked(pool.TransactionsToSend, before) && already == Elems(before)
    ensures before <= result && Stacked(pool.TransactionsToSend, result) && already' == Elems(result) && ch in result
    ensures already' <= already + Component(pool.TransactionsToSend, ch)
  {
    hide Pool.Valid, Keyed, Stacked, Parents, Distinct, Inserted, Ordered, Component, AncestorsExcept;
    var prnts := GetAllParentsExcept(pool, ch, par);
    ComponentHas(pool.TransactionsToSend, ch, par, ch);
    ComponentWhole(pool.TransactionsToSend, ch);
    StackDistinct(pool.TransactionsToSend, before);
    result, already' := AppendUnseen(before, already, prnts);
    StackUnseen(pool.TransactionsToSend, before, par, prnts, result);
    assert ch !in Elems(result);
    StackAppend(pool.TransactionsToSend, result, ch);
    ElemsAppend(result, ch);
    already' := already' + {ch};
    result := result + [ch];
  }

  /**
   * GetItWithAllChildren: closed under children and, past the first member, parents first; nothing is in it that has
   * nothing to do with tx. For a transaction without parents in the pool it is the whole component.
   */
  method GetItWithAllChildren(pool: Pool, tx: TxId) returns (result: seq<TxId>)
    requires pool.Valid() && tx in pool.TransactionsToSend
    ensures |result| >= 1 && result[0] == tx && Stacked(pool.TransactionsToSend, result)
    ensures ChildrenIn(pool.TransactionsToSend, Elems(result), Elems(result))
    ensures Elems(result) <= Component(pool.TransactionsToSend, tx)
    ensures Parents(pool.TransactionsToSend, tx) == {} ==> Elems(result) == Component(pool.TransactionsToSend, tx)
  {
    hide Pool.Valid, Keyed, Stacked, ChildrenIn, Parents, Distinct, Spends, Component;
    var T := pool.TransactionsToSend;
    ghost var all := Component(T, tx);
    result := [tx];
    var already := {tx};
    JustOne(T, tx);
    ComponentWhole(T, tx);
    var idx := 0;
    assert Elems(result[..0]) == {};
    while idx < |result|
      invariant 0 <= idx <= |result| && |result| >= 1 && result[0] == tx && already == Elems(result) && Stacked(T, result)
      invariant ChildrenIn(T, Elems(result[..idx]), already) && already <= all
      decreases |T| - idx
    {
      var par := result[idx];
      InStack(T, result, idx);
      var chs := GetChildren(pool, par);
      ghost var before := result;
      for i := 0 to |chs|
        invariant |before| >= 1 && before <= result && result[0] == tx && already == Elems(result) && Stacked(T, result)
        invariant forall j :: 0 <= j < i ==> chs[j] in already
        invariant already <= all
      {
        var ch := chs[i];
        if ch !in already {
          InComponent(T, tx, par, ch);
          result, already := WithParents(pool, ch, par, result, already);
        }
      }
      assert result[..idx] == before[..idx];
      ExpandedList(T, result, idx, Elems(before), chs, already);
      StackDistinct(T, result);
      idx := idx + 1;
      ListBounded(T, result);
    }
    assert result[..|result|] == result;
    if Parents(T, tx) == {} {
      ComponentFound(T, result);
    }
  }

  lemma InComponent(T: Txs, k: TxId, p: TxId, c: TxId)
    requires k in T && p in T && p in Component(T, k) && c in T && Spends(T, c, p)
    ensures c in Component(T, k) && Component(T, c) <= Component(T, k)
  {
    hide Component, Spends;
    ComponentWhole(T, k);
    ComponentLeast(T, c, Component(T, k));
  }

  lemma JustOne(T: Txs, tx: TxId)
    requires tx in T
    ensures Stacked(T, [tx]) && Elems([tx]) == {tx} && ChildrenIn(T, {}, {tx})
  {
  }

  lemma InStack(T: Txs, s: seq<TxId>, i: nat)
    requires Stacked(T, s) && i < |s|
    ensures s[i] in T
  {
  }

  lemma StackDistinct(T: Txs, s: seq<TxId>)
    requires Stacked(T, s)
    ensures Distinct(s) && Elems(s) <= T.Keys
  {
  }

  lemma ExpandedList(T: Txs, s: seq<TxId>, idx: nat, was: set<TxId>, chs: seq<TxId>, all: set<TxId>)
    requires idx < |s| && ChildrenIn(T, Elems(s[..idx]), was) && was <= all
    requires forall c :: c in chs <==> c in T && Spends(T, c, s[idx])
    requires forall j :: 0 <= j < |chs| ==> chs[j] in all
    ensures ChildrenIn(T, Elems(s[..idx + 1]), all)
  {
    ElemsNext(s, idx);
  }
}
