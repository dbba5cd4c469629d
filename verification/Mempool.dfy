/** The memory pool: the transactions waiting to be mined, and the two redundant views of how they spend each other. */
module Mempool {
  import opened Utxo
  import opened Sums
  import opened Seqs

  class OneTxToSend {
    const tx: Tx
    const size: nat
    const weight: nat
    const Fee: nat
    const Final: bool
    const Spent: seq<OutPoint>
    var MemInputs: Option<seq<bool>>
    var MemInputCnt: int

    constructor (tx: Tx, size: nat, weight: nat, fee: nat, final: bool, memInputs: Option<seq<bool>>, memInputCnt: int)
      ensures this.tx == tx && this.size == size && this.weight == weight && Fee == fee && Final == final && Spent == tx.ins
      ensures MemInputs == memInputs && MemInputCnt == memInputCnt
    {
      this.tx, this.size, this.weight, Fee, Final, Spent := tx, size, weight, fee, final, tx.ins;
      MemInputs, MemInputCnt := memInputs, memInputCnt;
    }

    /** IIdx: which input spends op. */
    method IIdx(op: OutPoint) returns (idx: int)
      ensures idx < 0 <==> op !in tx.ins
      ensures idx >= 0 ==> idx < |tx.ins| && tx.ins[idx] == op
    {
      for i := 0 to |tx.ins|
        invariant op !in tx.ins[..i]
      {
        assert tx.ins[..i + 1] == tx.ins[..i] + [tx.ins[i]];
        if tx.ins[i] == op {
          return i;
        }
      }
      assert tx.ins[..|tx.ins|] == tx.ins;
      idx := -1;
    }

    /** One child's part of UnMarkChildrenForMem. Neither complaint is ever printed. */
    method Unmark(op: OutPoint, ghost T: Txs, ghost gone: set<OutPoint>)
      requires MemFits(this, T, gone) && Distinct(tx.ins) && op in tx.ins && FromMem(T, gone, op)
      modifies this
      ensures MemFits(this, T, gone + {op})
    {
      var idx := IIdx(op);
      if MemInputs.None? || idx < 0 {
        return;
      }
      ghost var mi := MemInputs.value[idx := false];
      assert forall i :: 0 <= i < |mi| ==> (mi[i] <==> FromMem(T, gone + {op}, tx.ins[i]));
      CountClear(MemInputs.value, idx);
      CountNone(mi);
      MemInputs := Some(MemInputs.value[idx := false]);
      MemInputCnt := MemInputCnt - 1;
      if MemInputCnt == 0 {
        MemInputs := None;
      }
    }
  }

  type Txs = map<TxId, OneTxToSend>

  function CountTrue(s: seq<bool>): nat {
    if s == [] then 0 else CountTrue(s[..|s| - 1]) + if s[|s| - 1] then 1 else 0
  }

  lemma {:induction false} CountClear(s: seq<bool>, i: nat)
    requires i < |s| && s[i]
    ensures CountTrue(s[i := false]) == CountTrue(s) - 1
  {
    var n := |s| - 1;
    if i == n {
      assert s[i := false][..n] == s[..n];
    } else {
      assert s[i := false][..n] == s[..n][i := false];
      CountClear(s[..n], i);
    }
  }

  lemma {:induction false} CountNone(s: seq<bool>)
    ensures CountTrue(s) == 0 <==> forall i :: 0 <= i < |s| ==> !s[i]
  {
    if s != [] {
      var init := s[..|s| - 1];
      CountNone(init);
      if CountTrue(s) == 0 {
        forall i | 0 <= i < |s|
          ensures !s[i]
        {
          assert i < |s| - 1 ==> s[i] == init[i];
        }
      } else if CountTrue(init) > 0 {
        var i :| 0 <= i < |init| && init[i];
        assert s[i];
      }
    }
  }

  /** Each transaction is filed under its id; its inputs differ, and those from the pool exist there. Spending is acyclic. */
  ghost predicate Keyed(rank: TxId -> nat, T: Txs) {
    forall k :: k in T ==>
      && T[k].tx.hash == k && T[k].Spent == T[k].tx.ins && Distinct(T[k].tx.ins)
      && forall op :: op in T[k].tx.ins && op.hash in T ==> rank(op.hash) < rank(k) && op.vout < |T[op.hash].tx.outs|
  }

  /** SpentOutputs is the inverse of the pool's inputs. */
  ghost predicate SpentExact(T: Txs, S: map<OutPoint, TxId>) {
    && (forall k, op :: k in T && op in T[k].tx.ins ==> op in S && S[op] == k)
    && (forall op :: op in S ==> S[op] in T && op in T[S[op]].tx.ins)
  }

  ghost function Sizes(T: Txs): map<TxId, nat> {
    map k | k in T :: T[k].size
  }

  /** The output comes from the pool. Those in gone are mined already. */
  predicate FromMem(T: Txs, gone: set<OutPoint>, op: OutPoint) {
    op.hash in T && op !in gone
  }

  /** MemInputs marks exactly the inputs that come from the pool, and MemInputCnt counts them. */
  ghost predicate MemFits(rec: OneTxToSend, T: Txs, gone: set<OutPoint>)
    reads rec
  {
    var ins := rec.tx.ins;
    match rec.MemInputs
    case None => rec.MemInputCnt == 0 && forall i :: 0 <= i < |ins| ==> !FromMem(T, gone, ins[i])
    case Some(mi) =>
      && |mi| == |ins| && rec.MemInputCnt == CountTrue(mi) && rec.MemInputCnt > 0
      && forall i :: 0 <= i < |ins| ==> (mi[i] <==> FromMem(T, gone, ins[i]))
  }

  /** k spends, directly or not, from a; each transaction descends from itself. */
  ghost predicate Descends(rank: TxId -> nat, T: Txs, a: TxId, k: TxId)
    requires Keyed(rank, T) && k in T
    decreases rank(k)
  {
    k == a || exists op :: op in T[k].tx.ins && op.hash in T && Descends(rank, T, a, op.hash)
  }

  ghost function Family(rank: TxId -> nat, T: Txs, a: TxId): set<TxId>
    requires Keyed(rank, T)
  {
    set k | k in T && Descends(rank, T, a, k)
  }

  /** No transaction of now spends from one that was in before and has left. */
  ghost predicate Closed(before: Txs, now: Txs) {
    forall k, op :: k in now && op in now[k].tx.ins && op.hash in before ==> op.hash in now
  }

  ghost predicate Within(now: Txs, before: Txs) {
    forall k :: k in now ==> k in before && now[k] == before[k]
  }

  lemma KeyedWithin(rank: TxId -> nat, before: Txs, now: Txs)
    requires Keyed(rank, before) && Within(now, before)
    ensures Keyed(rank, now)
  {
  }

  lemma {:induction false} DescendsRank(rank: TxId -> nat, T: Txs, a: TxId, k: TxId)
    requires Keyed(rank, T) && k in T && Descends(rank, T, a, k)
    ensures a in T && rank(a) <= rank(k) && (a != k ==> rank(a) < rank(k))
    decreases rank(k)
  {
    if k != a {
      var op :| op in T[k].tx.ins && op.hash in T && Descends(rank, T, a, op.hash);
      DescendsRank(rank, T, a, op.hash);
    }
  }

  lemma {:induction false} DescendsTrans(rank: TxId -> nat, T: Txs, a: TxId, b: TxId, k: TxId)
    requires Keyed(rank, T) && k in T && b in T && Descends(rank, T, a, b) && Descends(rank, T, b, k)
    ensures Descends(rank, T, a, k)
    decreases rank(k)
  {
    if k != b {
      var op :| op in T[k].tx.ins && op.hash in T && Descends(rank, T, b, op.hash);
      DescendsTrans(rank, T, a, b, op.hash);
    }
  }

  lemma {:induction false} DescendsWithin(rank: TxId -> nat, before: Txs, now: Txs, a: TxId, k: TxId)
    requires Keyed(rank, before) && Keyed(rank, now) && Within(now, before) && k in now && Descends(rank, now, a, k)
    ensures Descends(rank, before, a, k)
    decreases rank(k)
  {
    if k != a {
      var op :| op in now[k].tx.ins && op.hash in now && Descends(rank, now, a, op.hash);
      DescendsWithin(rank, before, now, a, op.hash);
    }
  }

  /** In a closed part of the pool, nothing descends from what has left. */
  lemma {:induction false} NoneDescends(rank: TxId -> nat, before: Txs, now: Txs, a: TxId, k: TxId)
    requires Keyed(rank, before) && Within(now, before) && Closed(before, now) && a !in now && k in now
    ensures !Descends(rank, before, a, k)
    decreases rank(k)
  {
    if Descends(rank, before, a, k) {
      var op :| op in before[k].tx.ins && op.hash in before && Descends(rank, before, a, op.hash);
      NoneDescends(rank, before, now, a, op.hash);
    }
  }

  /** What leaves with a family is closed. */
  lemma FamilyClosed(rank: TxId -> nat, T: Txs, a: TxId)
    requires Keyed(rank, T)
    ensures Closed(T, T - Family(rank, T, a)) && Within(T - Family(rank, T, a), T)
  {
  }

  lemma MemSame(rec: OneTxToSend, T: Txs, T': Txs, gone: set<OutPoint>)
    requires forall op :: op in rec.tx.ins ==> FromMem(T, gone, op) == FromMem(T', gone, op)
    ensures MemFits(rec, T, gone) == MemFits(rec, T', gone)
  {
    forall i | 0 <= i < |rec.tx.ins|
      ensures FromMem(T, gone, rec.tx.ins[i]) == FromMem(T', gone, rec.tx.ins[i])
    {
      assert rec.tx.ins[i] in rec.tx.ins;
    }
  }

  lemma SpentWithout(rank: TxId -> nat, T: Txs, S: map<OutPoint, TxId>, h: TxId)
    requires Keyed(rank, T) && SpentExact(T, S) && h in T
    ensures SpentExact(T - {h}, S - Elems(T[h].tx.ins))
  {
    forall k, op | k in T - {h} && op in T[k].tx.ins
      ensures op in S - Elems(T[h].tx.ins) && S[op] == k
    {
      assert S[op] == k;
    }
    forall op | op in S - Elems(T[h].tx.ins)
      ensures S[op] in T - {h}
    {
      assert op in T[S[op]].tx.ins;
    }
  }

  lemma SizeWithout(T: Txs, h: TxId)
    requires h in T
    ensures Sum(Sizes(T)) == Sum(Sizes(T - {h})) + T[h].size
  {
    SumWithout(Sizes(T), h);
    assert Sizes(T - {h}) == Sizes(T) - {h};
  }

  lemma SizeWith(T: Txs, h: TxId, rec: OneTxToSend)
    requires h !in T
    ensures Sum(Sizes(T[h := rec])) == Sum(Sizes(T)) + rec.size
  {
    SumAdd(Sizes(T), h, rec.size);
    assert Sizes(T[h := rec]) == Sizes(T)[h := rec.size];
  }

  ghost function Above(rank: TxId -> nat, T: Txs, r: nat): set<TxId> {
    set k | k in T && rank(k) > r
  }

  /** No one spends a's outputs below number v. */
  ghost predicate Childless(T: Txs, a: TxId, v: nat) {
    forall k, op :: k in T && op in T[k].tx.ins && op.hash == a ==> op.vout >= v
  }

  /** Some of a's proper descendants have left, and nothing that spends from them stays. */
  ghost predicate Shedding(rank: TxId -> nat, before: Txs, now: Txs, a: TxId)
    requires Keyed(rank, before)
  {
    && Within(now, before) && Closed(before, now) && a in now && a in before
    && forall k :: k in before && k !in now ==> Descends(rank, before, a, k)
  }

  /** A child's family leaves. */
  lemma ShedChild(rank: TxId -> nat, before: Txs, now: Txs, a: TxId, c: TxId, op: OutPoint)
    requires Keyed(rank, before) && Keyed(rank, now) && Shedding(rank, before, now, a)
    requires c in now && op in now[c].tx.ins && op.hash == a
    ensures Shedding(rank, before, now - Family(rank, now, c), a)
  {
    var after := now - Family(rank, now, c);
    FamilyClosed(rank, now, c);
    DescendsOne(rank, before, a, c, op);
    if Descends(rank, now, c, a) {
      DescendsRank(rank, now, c, a);
    }
    forall k | k in now && k !in after
      ensures Descends(rank, before, a, k)
    {
      DescendsWithin(rank, before, now, c, k);
      DescendsTrans(rank, before, a, c, k);
    }
    ClosedTrans(before, now, after);
  }

  lemma ClosedTrans(before: Txs, now: Txs, after: Txs)
    requires Within(now, before) && Within(after, now) && Closed(before, now) && Closed(now, after)
    ensures Within(after, before) && Closed(before, after)
  {
  }

  lemma DescendsOne(rank: TxId -> nat, T: Txs, a: TxId, c: TxId, op: OutPoint)
    requires Keyed(rank, T) && c in T && a in T && op in T[c].tx.ins && op.hash == a
    ensures Descends(rank, T, a, c)
  {
    assert Descends(rank, T, a, op.hash);
  }

  /** Once no child is left, a alone is missing from its family's departure. */
  lemma ShedAll(rank: TxId -> nat, before: Txs, now: Txs, a: TxId)
    requires Keyed(rank, before) && Keyed(rank, now) && Shedding(rank, before, now, a) && Childless(now, a, |before[a].tx.outs|)
    ensures now - {a} == before - Family(rank, before, a)
  {
    var after := now - {a};
    forall k, op | k in after && op in after[k].tx.ins && op.hash in before
      ensures op.hash in after
    {
      assert k in now && op in now[k].tx.ins && op.hash in now;
      assert op.hash in before && op.vout < |before[op.hash].tx.outs|;
    }
    forall k | k in after
      ensures k in before && !Descends(rank, before, a, k)
    {
      NoneDescends(rank, before, after, a, k);
    }
    forall k | k in before && !Descends(rank, before, a, k)
      ensures k in after
    {
    }
  }

  class Pool {
    var TransactionsToSend: Txs
    var TransactionsToSendSize: nat
    var SpentOutputs: map<OutPoint, TxId>
    ghost const rank: TxId -> nat

    constructor (ghost rank: TxId -> nat)
      ensures Valid() && TransactionsToSend == map[] && this.rank == rank
    {
      TransactionsToSend, TransactionsToSendSize, SpentOutputs := map[], 0, map[];
      this.rank := rank;
      new;
      assert Sizes(TransactionsToSend) == map[];
    }

    /** The invariant that MempoolCheck tests, apart from the members of leaving and the outputs already gone. */
    ghost predicate ValidBut(leaving: set<TxId>, gone: set<OutPoint>)
      reads this, TransactionsToSend.Values
    {
      && Keyed(rank, TransactionsToSend) && SpentExact(TransactionsToSend, SpentOutputs)
      && TransactionsToSendSize == Sum(Sizes(TransactionsToSend))
      && forall k :: k in TransactionsToSend && k !in leaving ==> MemFits(TransactionsToSend[k], TransactionsToSend, gone)
    }

    ghost predicate Valid()
      reads this, TransactionsToSend.Values
    {
      ValidBut({}, {})
    }

    /** The second half of Delete: tx alone leaves. */
    method Remove(tx: OneTxToSend, ghost leaving: set<TxId>, ghost gone: set<OutPoint>)
      requires ValidBut(leaving, gone) && tx.tx.hash in TransactionsToSend && TransactionsToSend[tx.tx.hash] == tx
      requires forall k, op :: k in TransactionsToSend && k !in leaving && op in TransactionsToSend[k].tx.ins && op.hash == tx.tx.hash ==> op in gone
      modifies this
      ensures ValidBut(leaving, gone) && TransactionsToSend == old(TransactionsToSend) - {tx.tx.hash}
      ensures SpentOutputs == old(SpentOutputs) - Elems(tx.tx.ins)
    {
      hide Distinct, FromMem, MemFits, Sum, SpentExact, Sizes;
      var h := tx.tx.hash;
      ghost var T := TransactionsToSend;
      SpentWithout(rank, T, SpentOutputs, h);
      SizeWithout(T, h);
      KeyedWithin(rank, T, T - {h});
      ghost var S := SpentOutputs;
      assert SpentOutputs - Elems(tx.Spent[..0]) == S;
      for i := 0 to |tx.Spent|
        invariant SpentOutputs == S - Elems(tx.Spent[..i])
        invariant TransactionsToSend == T && TransactionsToSendSize == old(TransactionsToSendSize)
      {
        ElemsNext(tx.Spent, i);
        SpentOutputs := SpentOutputs - {tx.Spent[i]};
      }
      assert tx.Spent[..|tx.Spent|] == tx.Spent;
      TransactionsToSendSize := TransactionsToSendSize - tx.size;
      TransactionsToSend := TransactionsToSend - {h};
      forall k | k in TransactionsToSend && k !in leaving
        ensures MemFits(TransactionsToSend[k], TransactionsToSend, gone)
      {
        assert MemFits(T[k], T, gone);
        OthersUnmoved(T, h, T[k], gone);
        MemSame(T[k], T, TransactionsToSend, gone);
      }
    }

    /** Delete. */
    method Delete(tx: OneTxToSend, with_children: bool, ghost leaving: set<TxId>, ghost gone: set<OutPoint>)
      requires ValidBut(leaving, gone) && tx.tx.hash in TransactionsToSend && TransactionsToSend[tx.tx.hash] == tx
      requires with_children ==> leaving == {} && gone == {}
      requires !with_children ==> forall k, op ::
        k in TransactionsToSend && k !in leaving && op in TransactionsToSend[k].tx.ins && op.hash == tx.tx.hash ==> op in gone
      modifies this
      ensures ValidBut(leaving, gone)
      ensures !with_children ==> TransactionsToSend == old(TransactionsToSend) - {tx.tx.hash}
      ensures with_children ==> TransactionsToSend == old(TransactionsToSend) - Family(rank, old(TransactionsToSend), tx.tx.hash)
      decreases Above(rank, TransactionsToSend, rank(tx.tx.hash))
    {
      hide Keyed, SpentExact, Family, Descends, Shedding, MemFits, Childless, Sizes, Sum;
      ghost var before, h := TransactionsToSend, tx.tx.hash;
      if with_children {
        ShedNothing(rank, before, h);
        for vout := 0 to |tx.tx.outs|
          invariant Valid() && Shedding(rank, before, TransactionsToSend, h) && Childless(TransactionsToSend, h, vout)
        {
          var po := OutPoint(tx.tx.hash, vout);
          Spender(TransactionsToSend, SpentOutputs, h, vout);
          if po in SpentOutputs {
            var so := SpentOutputs[po];
            if so in TransactionsToSend {
              ghost var now := TransactionsToSend;
              ShedChild(rank, before, now, h, so, po);
              ChildAbove(rank, before, now, h, so, po);
              ChildGone(rank, now, SpentOutputs, h, vout);
              Delete(TransactionsToSend[so], true, {}, {});
            }
          }
        }
        ShedKeeps(rank, before, TransactionsToSend, h);
        NoChildLeft(rank, TransactionsToSend, h);
        ShedAll(rank, before, TransactionsToSend, h);
      }
      Remove(tx, leaving, gone);
    }

    /** UnMarkChildrenForMem: tx has been mined, though it has not left the pool yet. */
    method UnMarkChildrenForMem(tx: OneTxToSend)
      requires Valid() && tx.tx.hash in TransactionsToSend && TransactionsToSend[tx.tx.hash] == tx
      modifies TransactionsToSend.Values
      ensures ValidBut({}, Points(tx.tx.hash, |tx.tx.outs|))
    {
      hide SpentExact, MemFits, Sizes, Sum;
      var h := tx.tx.hash;
      assert Points(h, 0) == {};
      for vout := 0 to |tx.tx.outs|
        invariant ValidBut({}, Points(h, vout))
      {
        var po := OutPoint(h, vout);
        ghost var gone := Points(h, vout);
        assert Points(h, vout + 1) == gone + {po};
        OnlySpender(TransactionsToSend, SpentOutputs, po);
        forall k | k in TransactionsToSend && po !in TransactionsToSend[k].tx.ins {
          MemSameGone(TransactionsToSend[k], TransactionsToSend, gone, po);
        }
        if po in SpentOutputs {
          var val := SpentOutputs[po];
          if val in TransactionsToSend {
            TransactionsToSend[val].Unmark(po, TransactionsToSend, gone);
          }
        }
      }
    }

    /** With h gone, its outputs are no longer an exception. */
    lemma Forget(h: TxId, n: nat)
      requires ValidBut({}, Points(h, n)) && h !in TransactionsToSend
      ensures Valid()
    {
      forall k | k in TransactionsToSend
        ensures MemFits(TransactionsToSend[k], TransactionsToSend, {})
      {
        var T, ins, gone := TransactionsToSend, TransactionsToSend[k].tx.ins, Points(h, n);
        forall i | 0 <= i < |ins|
          ensures FromMem(T, gone, ins[i]) == FromMem(T, {}, ins[i])
        {
        }
      }
    }

    /** A mined transaction leaves; those that spend from it stay. */
    method DropMined(h: TxId)
      requires Valid() && h in TransactionsToSend
      modifies this, TransactionsToSend.Values
      ensures Valid() && TransactionsToSend == old(TransactionsToSend) - {h}
    {
      hide Keyed, SpentExact, MemFits, Sizes, Sum;
      var rec := TransactionsToSend[h];
      KeyIs(rank, TransactionsToSend, h);
      UnMarkChildrenForMem(rec);
      NoOtherOutput(rank, TransactionsToSend, h);
      Delete(rec, false, {}, Points(h, |rec.tx.outs|));
      Forget(h, |rec.tx.outs|);
    }

    /** Whoever spends op leaves with its family. */
    method DropSpender(op: OutPoint)
      requires Valid() && op in SpentOutputs
      modifies this
      ensures Valid() && old(SpentOutputs[op]) in old(TransactionsToSend)
      ensures TransactionsToSend == old(TransactionsToSend) - Family(rank, old(TransactionsToSend), old(SpentOutputs)[op])
      ensures SpentOutputs.Keys <= old(SpentOutputs.Keys) && op !in SpentOutputs
    {
      hide Keyed, SpentExact, MemFits, Sizes, Sum, Descends;
      var val := SpentOutputs[op];
      ghost var now, S := TransactionsToSend, SpentOutputs;
      OnlySpender(now, S, op);
      KeyIs(rank, now, val);
      SelfDescends(rank, now, val);
      if val in TransactionsToSend {
        Delete(TransactionsToSend[val], true, {}, {});
        SpentShrinks(rank, now, S, TransactionsToSend, SpentOutputs, op);
      }
      assert SpentOutputs - {op} == SpentOutputs;
      SpentOutputs := SpentOutputs - {op};
    }

    /** tx_mined, for any transaction of a block. */
    method TxMined(tx: Tx)
      requires Valid()
      modifies this, TransactionsToSend.Values
      ensures Valid() && old(Keyed(rank, TransactionsToSend))
      ensures TransactionsToSend == MinedOne(rank, old(TransactionsToSend), tx)
      ensures forall op :: op in tx.ins ==> op !in SpentOutputs
    {
      hide Keyed, SpentExact, MemFits, Sizes, Sum, Descends, Spared;
      if tx.hash in TransactionsToSend {
        DropMined(tx.hash);
      }
      ghost var rest := TransactionsToSend;
      assert rest == old(TransactionsToSend) - {tx.hash};
      NoneConflict(rank, rest);
      assert tx.ins[..0] == [];
      for i := 0 to |tx.ins|
        invariant Valid() && TransactionsToSend == Spared(rank, rest, tx.ins[..i])
        invariant forall j :: 0 <= j < i ==> tx.ins[j] !in SpentOutputs
      {
        var op := tx.ins[i];
        SparedNext(rank, rest, tx.ins, i, TransactionsToSend, SpentOutputs);
        if op in SpentOutputs {
          DropSpender(op);
        }
      }
      assert tx.ins[..|tx.ins|] == tx.ins;
    }

    /** BlockMined, without the retrying of transactions that wait for inputs. */
    method BlockMined(txs: seq<Tx>)
      requires Valid()
      modifies this, TransactionsToSend.Values
      ensures Valid() && old(Keyed(rank, TransactionsToSend))
      ensures TransactionsToSend == MinedAll(rank, old(TransactionsToSend), if txs == [] then [] else txs[1..])
    {
      hide Keyed, MemFits, Sizes, Sum, MinedOne, SpentExact;
      if |txs| < 1 {
        return;
      }
      assert txs[1..1] == [];
      for i := 1 to |txs|
        invariant Valid() && TransactionsToSend == MinedAll(rank, old(TransactionsToSend), txs[1..i])
      {
        TxMined(txs[i]);
        assert txs[1..i + 1] == txs[1..i] + [txs[i]];
      }
      assert txs[1..|txs|] == txs[1..];
    }
  }

  lemma SelfDescends(rank: TxId -> nat, T: Txs, k: TxId)
    requires Keyed(rank, T) && k in T
    ensures k in Family(rank, T, k)
  {
  }

  /** SpentOutputs names the only spender there is. */
  lemma OnlySpender(T: Txs, S: map<OutPoint, TxId>, po: OutPoint)
    requires SpentExact(T, S)
    ensures po in S ==> S[po] in T && po in T[S[po]].tx.ins && forall k :: k in T && po in T[k].tx.ins ==> k == S[po]
    ensures po !in S ==> forall k :: k in T ==> po !in T[k].tx.ins
  {
  }

  lemma MemSameGone(rec: OneTxToSend, T: Txs, gone: set<OutPoint>, po: OutPoint)
    requires po !in rec.tx.ins
    ensures MemFits(rec, T, gone) == MemFits(rec, T, gone + {po})
  {
    forall i | 0 <= i < |rec.tx.ins|
      ensures FromMem(T, gone, rec.tx.ins[i]) == FromMem(T, gone + {po}, rec.tx.ins[i])
    {
      assert rec.tx.ins[i] in rec.tx.ins;
    }
  }

  lemma KeyIs(rank: TxId -> nat, T: Txs, k: TxId)
    requires Keyed(rank, T) && k in T
    ensures T[k].tx.hash == k && Distinct(T[k].tx.ins)
  {
  }

  lemma NoOtherOutput(rank: TxId -> nat, T: Txs, h: TxId)
    requires Keyed(rank, T) && h in T
    ensures forall k, op :: k in T && op in T[k].tx.ins && op.hash == h ==> op in Points(h, |T[h].tx.outs|)
  {
  }

  // What a mined transaction leaves of the pool.

  /** k descends from a pool transaction that spends op. */
  ghost predicate Hit(rank: TxId -> nat, T: Txs, op: OutPoint, k: TxId)
    requires Keyed(rank, T) && k in T
  {
    exists c :: c in T && op in T[c].tx.ins && Descends(rank, T, c, k)
  }

  /** k descends from a pool transaction that spends one of the inputs. */
  ghost predicate Conflicts(rank: TxId -> nat, T: Txs, ins: seq<OutPoint>, k: TxId)
    requires Keyed(rank, T) && k in T
  {
    exists op :: op in ins && Hit(rank, T, op, k)
  }

  ghost function Spared(rank: TxId -> nat, T: Txs, ins: seq<OutPoint>): (rest: Txs)
    requires Keyed(rank, T)
    ensures Within(rest, T) && Keyed(rank, rest)
  {
    map k | k in T && !Conflicts(rank, T, ins, k) :: T[k]
  }

  /** The transaction itself goes, alone; then all who spend its inputs go, with their families. */
  ghost function MinedOne(rank: TxId -> nat, T: Txs, tx: Tx): (rest: Txs)
    requires Keyed(rank, T)
    ensures Within(rest, T) && Keyed(rank, rest)
  {
    KeyedWithin(rank, T, T - {tx.hash});
    Spared(rank, T - {tx.hash}, tx.ins)
  }

  ghost function MinedAll(rank: TxId -> nat, T: Txs, txs: seq<Tx>): (rest: Txs)
    requires Keyed(rank, T)
    ensures Within(rest, T) && Keyed(rank, rest)
  {
    if txs == [] then T else MinedOne(rank, MinedAll(rank, T, txs[..|txs| - 1]), txs[|txs| - 1])
  }

  lemma NoneConflict(rank: TxId -> nat, T: Txs)
    requires Keyed(rank, T)
    ensures Spared(rank, T, []) == T
  {
  }

  lemma {:induction false} DescendsKept(rank: TxId -> nat, before: Txs, now: Txs, a: TxId, k: TxId)
    requires Keyed(rank, before) && Keyed(rank, now) && Within(now, before) && Closed(before, now)
    requires k in now && Descends(rank, before, a, k)
    ensures Descends(rank, now, a, k)
    decreases rank(k)
  {
    if k != a {
      var op :| op in before[k].tx.ins && op.hash in before && Descends(rank, before, a, op.hash);
      DescendsKept(rank, before, now, a, op.hash);
    }
  }

  lemma ConflictsDown(rank: TxId -> nat, T: Txs, ins: seq<OutPoint>, p: TxId, k: TxId, op: OutPoint)
    requires Keyed(rank, T) && p in T && k in T && op in T[k].tx.ins && op.hash == p && Conflicts(rank, T, ins, p)
    ensures Conflicts(rank, T, ins, k)
  {
    var o :| o in ins && Hit(rank, T, o, p);
    var c :| c in T && o in T[c].tx.ins && Descends(rank, T, c, p);
    assert Descends(rank, T, c, k);
    assert Hit(rank, T, o, k);
  }

  lemma SparedClosed(rank: TxId -> nat, T: Txs, ins: seq<OutPoint>)
    requires Keyed(rank, T)
    ensures Closed(T, Spared(rank, T, ins))
  {
    hide Keyed, Conflicts;
    var now := Spared(rank, T, ins);
    forall k, op | k in now && op in now[k].tx.ins && op.hash in T
      ensures op.hash in now
    {
      if Conflicts(rank, T, ins, op.hash) {
        ConflictsDown(rank, T, ins, op.hash, k, op);
      }
    }
  }

  /** One more input: its spender, if there still is one, goes with its family. */
  lemma SparedNext(rank: TxId -> nat, T: Txs, ins: seq<OutPoint>, i: nat, now: Txs, S: map<OutPoint, TxId>)
    requires Keyed(rank, T) && i < |ins| && now == Spared(rank, T, ins[..i]) && SpentExact(now, S)
    ensures Spared(rank, T, ins[..i + 1]) == if ins[i] in S then now - Family(rank, now, S[ins[i]]) else now
  {
    hide Keyed, SpentExact, Descends, Family, Hit;
    var op := ins[i];
    var less := if op in S then now - Family(rank, now, S[op]) else now;
    assert ins[..i + 1] == ins[..i] + [op];
    assert forall o :: o in ins[..i + 1] <==> o in ins[..i] || o == op;
    forall k | k in now
      ensures Conflicts(rank, T, ins[..i + 1], k) <==> k !in less
    {
      SparedOne(rank, T, ins[..i], op, now, S, k);
    }
  }

  lemma SparedOne(rank: TxId -> nat, T: Txs, ins: seq<OutPoint>, op: OutPoint, now: Txs, S: map<OutPoint, TxId>, k: TxId)
    requires Keyed(rank, T) && now == Spared(rank, T, ins) && SpentExact(now, S) && k in now
    ensures Hit(rank, T, op, k) <==> op in S && k in Family(rank, now, S[op])
  {
    hide Keyed, SpentExact, Descends, Spared, Conflicts;
    OnlySpender(now, S, op);
    SparedClosed(rank, T, ins);
    if op in S && k in Family(rank, now, S[op]) {
      DescendsWithin(rank, T, now, S[op], k);
    } else if c :| c in T && op in T[c].tx.ins && Descends(rank, T, c, k) {
      if c !in now {
        NoneDescends(rank, T, now, c, k);
      } else {
        DescendsKept(rank, T, now, c, k);
      }
    }
  }

  /** What is left after a block neither is in it nor spends what it spends. */
  lemma {:induction false} NoneMined(rank: TxId -> nat, T: Txs, txs: seq<Tx>, i: nat)
    requires Keyed(rank, T) && i < |txs|
    ensures txs[i].hash !in MinedAll(rank, T, txs)
    ensures forall k, op :: k in MinedAll(rank, T, txs) && op in txs[i].ins ==> op !in MinedAll(rank, T, txs)[k].tx.ins
  {
    hide Keyed, MinedOne;
    var n := |txs| - 1;
    var before := MinedAll(rank, T, txs[..n]);
    assert Within(MinedAll(rank, T, txs), before);
    if i < n {
      NoneMined(rank, T, txs[..n], i);
    } else {
      OneMined(rank, before, txs[n]);
    }
  }

  /** Whatever a block drives out is in it, or descends from a transaction that spends what one of the block's does. */
  lemma {:induction false} OnlyMinedLeave(rank: TxId -> nat, T: Txs, txs: seq<Tx>, k: TxId) returns (i: nat, c: TxId)
    requires Keyed(rank, T) && k in T && k !in MinedAll(rank, T, txs)
    ensures i < |txs|
    ensures k == txs[i].hash || (c in T && Descends(rank, T, c, k) && exists op :: op in txs[i].ins && op in T[c].tx.ins)
  {
    hide Keyed, Descends;
    var n := |txs| - 1;
    var before := MinedAll(rank, T, txs[..n]);
    if k !in before {
      i, c := OnlyMinedLeave(rank, T, txs[..n], k);
    } else {
      i, c := n, k;
      var now := before - {txs[n].hash};
      KeyedWithin(rank, before, now);
      if k != txs[n].hash {
        var op :| op in txs[n].ins && Hit(rank, now, op, k);
        c :| c in now && op in now[c].tx.ins && Descends(rank, now, c, k);
        DescendsWithin(rank, T, now, c, k);
      }
    }
  }

  lemma SelfHit(rank: TxId -> nat, T: Txs, ins: seq<OutPoint>, k: TxId)
    requires Keyed(rank, T) && k in Spared(rank, T, ins)
    ensures forall op :: op in ins ==> op !in T[k].tx.ins
  {
    hide Keyed;
    SelfDescends(rank, T, k);
    forall op | op in ins
      ensures op !in T[k].tx.ins
    {
      assert !Hit(rank, T, op, k);
    }
  }

  lemma OneMined(rank: TxId -> nat, T: Txs, tx: Tx)
    requires Keyed(rank, T)
    ensures tx.hash !in MinedOne(rank, T, tx)
    ensures forall k, op :: k in MinedOne(rank, T, tx) && op in tx.ins ==> op !in MinedOne(rank, T, tx)[k].tx.ins
  {
    hide Keyed, Spared;
    KeyedWithin(rank, T, T - {tx.hash});
    forall k, op | k in MinedOne(rank, T, tx) && op in tx.ins
      ensures op !in MinedOne(rank, T, tx)[k].tx.ins
    {
      SelfHit(rank, T - {tx.hash}, tx.ins, k);
    }
  }

  lemma SpentShrinks(rank: TxId -> nat, T: Txs, S: map<OutPoint, TxId>, T': Txs, S': map<OutPoint, TxId>, op: OutPoint)
    requires SpentExact(T, S) && SpentExact(T', S') && Within(T', T) && op in S && S[op] !in T'
    ensures S'.Keys <= S.Keys && op !in S'
  {
    forall o | o in S'
      ensures o in S && S[o] == S'[o]
    {
      assert S'[o] in T' && o in T'[S'[o]].tx.ins;
    }
  }

  lemma ShedNothing(rank: TxId -> nat, T: Txs, a: TxId)
    requires Keyed(rank, T) && a in T
    ensures Shedding(rank, T, T, a) && Childless(T, a, 0)
  {
  }

  lemma ShedKeeps(rank: TxId -> nat, before: Txs, now: Txs, a: TxId)
    requires Keyed(rank, before) && Shedding(rank, before, now, a)
    ensures a in now && a in before && now[a] == before[a]
  {
  }

  /** Who spends output vout: the one SpentOutputs names, or nobody. */
  lemma Spender(T: Txs, S: map<OutPoint, TxId>, h: TxId, vout: nat)
    requires SpentExact(T, S) && Childless(T, h, vout)
    ensures var po := OutPoint(h, vout);
            if po in S then S[po] in T && po in T[S[po]].tx.ins else Childless(T, h, vout + 1)
  {
    if OutPoint(h, vout) !in S {
      forall k, op | k in T && op in T[k].tx.ins && op.hash == h
        ensures op.vout >= vout + 1
      {
        assert op in S;
        assert op != OutPoint(h, vout);
      }
    }
  }

  lemma ChildAbove(rank: TxId -> nat, before: Txs, now: Txs, a: TxId, c: TxId, op: OutPoint)
    requires Keyed(rank, before) && Keyed(rank, now) && Shedding(rank, before, now, a) && c in now && op in now[c].tx.ins && op.hash == a
    ensures now[c].tx.hash == c && Above(rank, now, rank(c)) < Above(rank, before, rank(a))
  {
    assert rank(a) < rank(c);
    assert c in Above(rank, before, rank(a)) && c !in Above(rank, now, rank(c));
  }

  lemma ChildGone(rank: TxId -> nat, T: Txs, S: map<OutPoint, TxId>, h: TxId, vout: nat)
    requires Keyed(rank, T) && SpentExact(T, S) && Childless(T, h, vout) && OutPoint(h, vout) in S
    ensures Childless(T - Family(rank, T, S[OutPoint(h, vout)]), h, vout + 1)
  {
    var c := S[OutPoint(h, vout)];
    assert Descends(rank, T, c, c);
    forall k, op | k in T - Family(rank, T, c) && op in T[k].tx.ins && op.hash == h
      ensures op.vout >= vout + 1
    {
      assert S[op] == k;
      assert op != OutPoint(h, vout);
    }
  }

  lemma NoChildLeft(rank: TxId -> nat, T: Txs, h: TxId)
    requires Keyed(rank, T) && h in T && Childless(T, h, |T[h].tx.outs|)
    ensures forall k, op :: k in T && op in T[k].tx.ins ==> op.hash != h
  {
    forall k, op | k in T && op in T[k].tx.ins
      ensures op.hash != h
    {
      assert op.hash in T ==> op.vout < |T[op.hash].tx.outs|;
    }
  }

  lemma OthersUnmoved(T: Txs, h: TxId, rec: OneTxToSend, gone: set<OutPoint>)
    requires forall op :: op in rec.tx.ins && op.hash == h ==> op in gone
    ensures forall op :: op in rec.tx.ins ==> FromMem(T, gone, op) == FromMem(T - {h}, gone, op)
  {
  }
}
