/** HandleNetTx: taking a transaction into the memory pool, in place of those it conflicts with. */
module TxAccept {
  import opened Utxo
  import opened Seqs
  import opened Sums
  import opened Mempool
  import opened Relatives

  /** What has to go for a transaction with these inputs: whoever spends one of them, and all that descends from those. */
  ghost function Replaced(rank: TxId -> nat, T: Txs, S: map<OutPoint, TxId>, ins: seq<OutPoint>): set<TxId>
    requires Keyed(rank, T)
  {
    set k | k in T && Displaced(rank, T, S, ins, k)
  }

  ghost predicate Displaced(rank: TxId -> nat, T: Txs, S: map<OutPoint, TxId>, ins: seq<OutPoint>, k: TxId)
    requires Keyed(rank, T) && k in T
  {
    exists op :: op in ins && op in S && Descends(rank, T, S[op], k)
  }

  lemma ReplacedNext(rank: TxId -> nat, T: Txs, S: map<OutPoint, TxId>, ins: seq<OutPoint>, i: nat)
    requires Keyed(rank, T) && i < |ins|
    ensures Replaced(rank, T, S, ins[..i + 1])
         == Replaced(rank, T, S, ins[..i]) + if ins[i] in S then Family(rank, T, S[ins[i]]) else {}
  {
    assert ins[..i + 1] == ins[..i] + [ins[i]];
    forall k | k in T
      ensures Displaced(rank, T, S, ins[..i + 1], k) <==> Displaced(rank, T, S, ins[..i], k) || (ins[i] in S && Descends(rank, T, S[ins[i]], k))
    {
      if Displaced(rank, T, S, ins[..i], k) {
        var op :| op in ins[..i] && op in S && Descends(rank, T, S[op], k);
        assert op in ins[..i + 1];
      }
      if ins[i] in S && Descends(rank, T, S[ins[i]], k) {
        assert ins[i] in ins[..i + 1];
      }
    }
  }

  /** Whoever spends from a replaced transaction is replaced too. */
  lemma ReplacedClosed(rank: TxId -> nat, T: Txs, S: map<OutPoint, TxId>, ins: seq<OutPoint>)
    requires Keyed(rank, T)
    ensures forall k, op :: k in T && op in T[k].tx.ins && op.hash in Replaced(rank, T, S, ins) ==> k in Replaced(rank, T, S, ins)
  {
    forall k, op | k in T && op in T[k].tx.ins && op.hash in Replaced(rank, T, S, ins)
      ensures Displaced(rank, T, S, ins, k)
    {
      var o :| o in ins && o in S && Descends(rank, T, S[o], op.hash);
      assert Descends(rank, T, S[o], k);
    }
  }

  lemma ReplacedBut(pool: Pool, rbf: set<TxId>)
    requires pool.Valid()
    ensures pool.ValidBut(rbf, {})
  {
  }

  /** Once the replaced ones have left, nothing is out of order any more. */
  lemma AllReplaced(pool: Pool, rbf: set<TxId>)
    requires pool.ValidBut(rbf, {}) && pool.TransactionsToSend.Keys !! rbf
    ensures pool.Valid()
  {
  }

  /** The loop that deletes the replaced transactions, one at a time, in any order. */
  method DeleteReplaced(pool: Pool, rbf: set<TxId>)
    requires pool.Valid() && rbf <= pool.TransactionsToSend.Keys
    requires forall k, op :: k in pool.TransactionsToSend && op in pool.TransactionsToSend[k].tx.ins && op.hash in rbf ==> k in rbf
    modifies pool
    ensures pool.Valid() && pool.TransactionsToSend == old(pool.TransactionsToSend) - rbf
  {
    hide Keyed, SpentExact, MemFits, Sizes, Sum;
    ghost var before := pool.TransactionsToSend;
    ReplacedBut(pool, rbf);
    var todo := rbf;
    while todo != {}
      invariant todo <= rbf && pool.ValidBut(rbf, {}) && pool.TransactionsToSend == before - (rbf - todo)
    {
      var k :| k in todo;
      assert k in pool.TransactionsToSend;
      KeyIs(pool.rank, pool.TransactionsToSend, k);
      pool.Delete(pool.TransactionsToSend[k], false, rbf, {});
      todo := todo - {k};
    }
    AllReplaced(pool, rbf);
  }

  /** A new transaction fits in behind those it spends from. */
  ghost predicate Newcomer(rank: TxId -> nat, T: Txs, S: map<OutPoint, TxId>, tx: Tx) {
    && tx.hash !in T && Distinct(tx.ins)
    && (forall op :: op in tx.ins ==> rank(op.hash) < rank(tx.hash))
    && (forall op :: op in S ==> op.hash != tx.hash)
  }

  lemma InsertKeyed(rank: TxId -> nat, T: Txs, S: map<OutPoint, TxId>, rec: OneTxToSend)
    requires Keyed(rank, T) && SpentExact(T, S) && Newcomer(rank, T, S, rec.tx) && rec.Spent == rec.tx.ins
    requires forall op :: op in rec.tx.ins && op.hash in T ==> op.vout < |T[op.hash].tx.outs|
    ensures Keyed(rank, T[rec.tx.hash := rec])
  {
    hide Distinct;
    var T' := T[rec.tx.hash := rec];
    forall k, op | k in T && op in T[k].tx.ins
      ensures op.hash != rec.tx.hash
    {
      assert op in S;
    }
  }

  lemma InsertSpent(T: Txs, S: map<OutPoint, TxId>, rec: OneTxToSend)
    requires SpentExact(T, S) && rec.tx.hash !in T && forall op :: op in rec.tx.ins ==> op !in S
    ensures SpentExact(T[rec.tx.hash := rec], S + (map op | op in rec.tx.ins :: rec.tx.hash))
  {
    var T', S' := T[rec.tx.hash := rec], S + (map op | op in rec.tx.ins :: rec.tx.hash);
    forall k, op | k in T' && op in T'[k].tx.ins
      ensures op in S' && S'[op] == k
    {
      if k != rec.tx.hash {
        assert op in S && S[op] == k;
      }
    }
    forall op | op in S'
      ensures S'[op] in T' && op in T'[S'[op]].tx.ins
    {
      if op !in rec.tx.ins {
        assert S[op] in T && op in T[S[op]].tx.ins;
      }
    }
  }

  lemma InsertMem(T: Txs, S: map<OutPoint, TxId>, rec: OneTxToSend, other: OneTxToSend)
    requires SpentExact(T, S) && other.tx.hash in T && T[other.tx.hash] == other && forall op :: op in S ==> op.hash != rec.tx.hash
    ensures MemFits(other, T, {}) == MemFits(other, T[rec.tx.hash := rec], {})
  {
    forall op | op in other.tx.ins
      ensures FromMem(T, {}, op) == FromMem(T[rec.tx.hash := rec], {}, op)
    {
      assert op in S;
    }
    MemSame(other, T, T[rec.tx.hash := rec], {});
  }

  /** The end of HandleNetTx. Only the newcomer's own marks can be wrong then. */
  method Insert(pool: Pool, rec: OneTxToSend)
    requires pool.Valid() && Newcomer(pool.rank, pool.TransactionsToSend, pool.SpentOutputs, rec.tx) && rec.Spent == rec.tx.ins
    requires forall op :: op in rec.tx.ins ==> op !in pool.SpentOutputs
    requires forall op :: op in rec.tx.ins && op.hash in pool.TransactionsToSend ==> op.vout < |pool.TransactionsToSend[op.hash].tx.outs|
    modifies pool
    ensures pool.TransactionsToSend == old(pool.TransactionsToSend)[rec.tx.hash := rec] && pool.ValidBut({rec.tx.hash}, {})
    ensures pool.Valid() <==> old(MemFits(rec, pool.TransactionsToSend, {}))
  {
    hide Keyed, SpentExact, MemFits, Sizes, Sum, Distinct;
    ghost var T, S := pool.TransactionsToSend, pool.SpentOutputs;
    InsertKeyed(pool.rank, T, S, rec);
    InsertSpent(T, S, rec);
    SizeWith(T, rec.tx.hash, rec);
    OwnInputs(pool.rank, T, rec);
    MemSame(rec, T, T[rec.tx.hash := rec], {});
    forall k | k in T
      ensures MemFits(T[k], T[rec.tx.hash := rec], {})
    {
      KeyIs(pool.rank, T, k);
      InsertMem(T, S, rec, T[k]);
    }
    pool.TransactionsToSend := pool.TransactionsToSend[rec.tx.hash := rec];
    pool.TransactionsToSendSize := pool.TransactionsToSendSize + rec.size;
    MarkSpent(pool, rec);
    OnlyNewcomer(pool, rec);
  }

  lemma OnlyNewcomer(pool: Pool, rec: OneTxToSend)
    requires pool.ValidBut({rec.tx.hash}, {}) && rec.tx.hash in pool.TransactionsToSend && pool.TransactionsToSend[rec.tx.hash] == rec
    ensures pool.Valid() <==> MemFits(rec, pool.TransactionsToSend, {})
  {
    hide Keyed, SpentExact, MemFits, Sizes, Sum;
  }

  lemma WithAndWithout(T: Txs, rbf: set<TxId>, h: TxId, rec: OneTxToSend)
    requires h !in T
    ensures (T - rbf)[h := rec] - {h} == T - rbf
  {
  }

  method MarkSpent(pool: Pool, rec: OneTxToSend)
    modifies pool`SpentOutputs
    ensures pool.SpentOutputs == old(pool.SpentOutputs) + (map op | op in rec.Spent :: rec.tx.hash)
  {
    ghost var S := pool.SpentOutputs;
    var h := rec.tx.hash;
    assert rec.Spent[..0] == [];
    assert S + map[] == S;
    for i := 0 to |rec.Spent|
      invariant pool.SpentOutputs == S + (map op | op in rec.Spent[..i] :: h)
    {
      assert rec.Spent[..i + 1] == rec.Spent[..i] + [rec.Spent[i]];
      pool.SpentOutputs := pool.SpentOutputs[rec.Spent[i] := h];
    }
    assert rec.Spent[..|rec.Spent|] == rec.Spent;
  }

  lemma OwnInputs(rank: TxId -> nat, T: Txs, rec: OneTxToSend)
    requires forall op :: op in rec.tx.ins ==> rank(op.hash) < rank(rec.tx.hash)
    ensures forall op :: op in rec.tx.ins ==> FromMem(T, {}, op) == FromMem(T[rec.tx.hash := rec], {}, op)
  {
  }

  /** A transaction from an untrusted source may replace a hundred others, none of them final. */
  ghost predicate MayReplace(T: Txs, rbf: set<TxId>, trusted: bool) {
    trusted || (|rbf| <= 100 && forall k :: k in rbf && k in T ==> !T[k].Final)
  }

  lemma MayReplaceLess(T: Txs, less: set<TxId>, more: set<TxId>, trusted: bool)
    requires less <= more && MayReplace(T, more, trusted)
    ensures MayReplace(T, less, trusted)
  {
    SubsetSize(less, more);
  }

  /** The conflict found at one input: its spender and all that descends from it join the list. */
  method AddConflict(pool: Pool, so: TxId, before: set<TxId>, trusted: bool) returns (ok: bool, rbf: set<TxId>)
    requires pool.Valid() && so in pool.TransactionsToSend && MayReplace(pool.TransactionsToSend, before, trusted)
    ensures ok <==> MayReplace(pool.TransactionsToSend, before + Family(pool.rank, pool.TransactionsToSend, so), trusted)
    ensures ok ==> rbf == before + Family(pool.rank, pool.TransactionsToSend, so)
  {
    hide Pool.Valid, Keyed, Descends, MayReplace;
    var T := pool.TransactionsToSend;
    PoolKeyed(pool);
    ghost var all := before + Family(pool.rank, T, so);
    SelfDescends(pool.rank, T, so);
    rbf := before;
    var room := Join(T, so, before, all, trusted);
    rbf := rbf + {so};
    if !room {
      return false, rbf;
    }
    var chlds := GetAllChildren(pool, so);
    assert Elems(chlds[..0]) == {};
    for i := 0 to |chlds|
      invariant rbf == before + {so} + Elems(chlds[..i]) && MayReplace(T, rbf, trusted)
    {
      ElemsNext(chlds, i);
      assert chlds[i] in Elems(chlds) && chlds[i] in Family(pool.rank, T, so);
      PrefixElems(chlds, i);
      room := Join(T, chlds[i], rbf, all, trusted);
      rbf := rbf + {chlds[i]};
      if !room {
        return false, rbf;
      }
    }
    assert chlds[..|chlds|] == chlds;
    assert rbf == all;
    ok := true;
  }

  lemma PrefixElems(s: seq<TxId>, i: nat)
    requires i <= |s|
    ensures Elems(s[..i]) <= Elems(s)
  {
  }

  /** The two checks made of each one that joins the list. */
  method Join(T: Txs, k: TxId, rbf: set<TxId>, ghost all: set<TxId>, trusted: bool) returns (ok: bool)
    requires k in T && MayReplace(T, rbf, trusted) && rbf <= all && k in all
    ensures ok <==> MayReplace(T, rbf + {k}, trusted)
    ensures !ok ==> !MayReplace(T, all, trusted)
  {
    ok := true;
    if !trusted && T[k].Final {
      ok := false;
    } else if !trusted && |rbf + {k}| > 100 {
      ok := false;
    }
    if !ok {
      SubsetSize(rbf + {k}, all);
    }
  }

  /** An input's output is in the pool or among the records, and may be spent. */
  predicate InputOk(T: Txs, db: Records, height: nat, memAllowed: bool, op: OutPoint) {
    if op.hash in T then op.vout < |T[op.hash].tx.outs| && memAllowed
    else UnspentGet(db, op).Some? && !Immature(UnspentGet(db, op).value, height)
  }

  function InputValue(T: Txs, db: Records, op: OutPoint): nat {
    if op.hash in T then if op.vout < |T[op.hash].tx.outs| then T[op.hash].tx.outs[op.vout].value else 0
    else if UnspentGet(db, op).Some? then UnspentGet(db, op).value.value else 0
  }

  ghost function InputSum(T: Txs, db: Records, ins: seq<OutPoint>): nat {
    if ins == [] then 0 else InputSum(T, db, ins[..|ins| - 1]) + InputValue(T, db, ins[|ins| - 1])
  }

  /** frommem marks the inputs that come from the pool so far. */
  ghost predicate Marked(T: Txs, ins: seq<OutPoint>, i: nat, frommem: Option<seq<bool>>, cnt: nat)
    requires i <= |ins|
  {
    match frommem
    case None => cnt == 0 && forall j :: 0 <= j < i ==> ins[j].hash !in T
    case Some(mi) => |mi| == |ins| && cnt == CountTrue(mi) && cnt > 0 && forall j :: 0 <= j < |ins| ==> (mi[j] <==> j < i && ins[j].hash in T)
  }

  lemma {:induction false} CountSet(s: seq<bool>, i: nat)
    requires i < |s| && !s[i]
    ensures CountTrue(s[i := true]) == CountTrue(s) + 1
  {
    CountClear(s[i := true], i);
    assert s[i := true][i := false] == s;
  }

  lemma {:induction false} NoneMarked(n: nat)
    ensures CountTrue(seq(n, _ => false)) == 0
  {
    CountNone(seq(n, _ => false));
  }

  ghost predicate EachInputOk(T: Txs, db: Records, height: nat, memAllowed: bool, ins: seq<OutPoint>) {
    forall op :: op in ins ==> InputOk(T, db, height, memAllowed, op)
  }

  lemma EachNext(T: Txs, db: Records, height: nat, memAllowed: bool, ins: seq<OutPoint>, i: nat)
    requires i < |ins|
    ensures EachInputOk(T, db, height, memAllowed, ins[..i + 1])
       <==> EachInputOk(T, db, height, memAllowed, ins[..i]) && InputOk(T, db, height, memAllowed, ins[i])
    ensures EachInputOk(T, db, height, memAllowed, ins) ==> EachInputOk(T, db, height, memAllowed, ins[..i + 1])
  {
    hide InputOk;
    assert ins[..i + 1] == ins[..i] + [ins[i]];
  }

  /** Everything HandleNetTx asks of the inputs. */
  ghost predicate InputsOk(rank: TxId -> nat, T: Txs, S: map<OutPoint, TxId>, db: Records, height: nat, ins: seq<OutPoint>, trusted: bool, allowMem: bool)
    requires Keyed(rank, T)
  {
    && EachInputOk(T, db, height, trusted || allowMem, ins)
    && MayReplace(T, Replaced(rank, T, S, ins), trusted)
  }

  lemma CheckStart(rank: TxId -> nat, T: Txs, S: map<OutPoint, TxId>, db: Records, height: nat, ins: seq<OutPoint>, trusted: bool, allowMem: bool)
    requires Keyed(rank, T)
    ensures Replaced(rank, T, S, ins[..0]) == {} && InputsOk(rank, T, S, db, height, ins[..0], trusted, allowMem)
    ensures Marked(T, ins, 0, None, 0) && InputSum(T, db, ins[..0]) == 0
  {
  }

  lemma CheckNext(rank: TxId -> nat, T: Txs, S: map<OutPoint, TxId>, db: Records, height: nat, ins: seq<OutPoint>, i: nat, trusted: bool, allowMem: bool)
    requires Keyed(rank, T) && i < |ins| && InputsOk(rank, T, S, db, height, ins[..i], trusted, allowMem)
    ensures var now := Replaced(rank, T, S, ins[..i]) + if ins[i] in S then Family(rank, T, S[ins[i]]) else {};
            && Replaced(rank, T, S, ins[..i + 1]) == now && MayReplace(T, Replaced(rank, T, S, ins[..i]), trusted)
            && (InputsOk(rank, T, S, db, height, ins[..i + 1], trusted, allowMem)
                <==> InputOk(T, db, height, trusted || allowMem, ins[i]) && MayReplace(T, now, trusted))
            && (ins[i] !in S ==> MayReplace(T, now, trusted))
    ensures InputsOk(rank, T, S, db, height, ins, trusted, allowMem) ==> InputsOk(rank, T, S, db, height, ins[..i + 1], trusted, allowMem)
    ensures InputSum(T, db, ins[..i + 1]) == InputSum(T, db, ins[..i]) + InputValue(T, db, ins[i])
  {
    hide InputOk, Descends, Replaced, EachInputOk, MayReplace, InputValue;
    ReplacedNext(rank, T, S, ins, i);
    EachNext(T, db, height, trusted || allowMem, ins, i);
    assert ins[..i + 1][..i] == ins[..i];
    if InputsOk(rank, T, S, db, height, ins, trusted, allowMem) {
      ReplacedPrefix(rank, T, S, ins, i + 1);
      MayReplaceLess(T, Replaced(rank, T, S, ins[..i + 1]), Replaced(rank, T, S, ins), trusted);
    }
    assert Replaced(rank, T, S, ins[..i]) + {} == Replaced(rank, T, S, ins[..i]);
  }

  lemma ReplacedPrefix(rank: TxId -> nat, T: Txs, S: map<OutPoint, TxId>, ins: seq<OutPoint>, i: nat)
    requires Keyed(rank, T) && i <= |ins|
    ensures Replaced(rank, T, S, ins[..i]) <= Replaced(rank, T, S, ins)
  {
    forall k | k in Replaced(rank, T, S, ins[..i])
      ensures Displaced(rank, T, S, ins, k)
    {
      var op :| op in ins[..i] && op in S && Descends(rank, T, S[op], k);
      assert op in ins;
    }
  }

  lemma SpenderKnown(pool: Pool, op: OutPoint)
    requires pool.Valid() && op in pool.SpentOutputs
    ensures pool.SpentOutputs[op] in pool.TransactionsToSend
  {
  }

  /** The second half of the input loop's body. */
  method CheckInput(T: Txs, db: Records, height: nat, trusted: bool, allowMem: bool, op: OutPoint) returns (ok: bool)
    ensures ok <==> InputOk(T, db, height, trusted || allowMem, op)
  {
    if op.hash in T {
      if op.vout >= |T[op.hash].tx.outs| {
        return false;
      }
      if !trusted && !allowMem {
        return false;
      }
    } else {
      var pos := UnspentGet(db, op);
      if pos == None {
        return false;
      }
      if pos.value.coinbase {
        if height - pos.value.inBlock < COINBASE_MATURITY {
          return false;
        }
      }
    }
    ok := true;
  }

  lemma MarkNext(T: Txs, ins: seq<OutPoint>, i: nat, frommem: Option<seq<bool>>, cnt: nat)
    requires i < |ins| && Marked(T, ins, i, frommem, cnt) && ins[i].hash in T
    ensures frommem.Some? ==> |frommem.value| == |ins|
    ensures Marked(T, ins, i + 1, Some((if frommem.Some? then frommem.value else seq(|ins|, _ => false))[i := true]), cnt + 1)
  {
    var mi := if frommem.Some? then frommem.value else seq(|ins|, _ => false);
    if frommem.None? {
      NoneMarked(|ins|);
    }
    CountSet(mi, i);
  }

  method MarkInput(T: Txs, ins: seq<OutPoint>, i: nat, frommem: Option<seq<bool>>, cnt: nat) returns (frommem': Option<seq<bool>>, cnt': nat)
    requires i < |ins| && Marked(T, ins, i, frommem, cnt)
    ensures Marked(T, ins, i + 1, frommem', cnt')
  {
    hide Marked;
    frommem', cnt' := frommem, cnt;
    if ins[i].hash in T {
      MarkNext(T, ins, i, frommem, cnt);
      frommem' := Some((if frommem.Some? then frommem.value else seq(|ins|, _ => false))[i := true]);
      cnt' := cnt + 1;
    } else {
      NoMark(T, ins, i, frommem, cnt);
    }
  }

  lemma NoMark(T: Txs, ins: seq<OutPoint>, i: nat, frommem: Option<seq<bool>>, cnt: nat)
    requires i < |ins| && Marked(T, ins, i, frommem, cnt) && ins[i].hash !in T
    ensures Marked(T, ins, i + 1, frommem, cnt)
  {
  }

  /** The loop over the inputs: it goes through exactly when all of them are right. */
  method CheckInputs(pool: Pool, ins: seq<OutPoint>, db: Records, height: nat, trusted: bool, allowMem: bool)
    returns (ok: bool, rbf: set<TxId>, frommem: Option<seq<bool>>, cnt: nat, totinp: nat)
    requires pool.Valid()
    ensures Keyed(pool.rank, pool.TransactionsToSend)
    ensures ok <==> InputsOk(pool.rank, pool.TransactionsToSend, pool.SpentOutputs, db, height, ins, trusted, allowMem)
    ensures ok ==> rbf == Replaced(pool.rank, pool.TransactionsToSend, pool.SpentOutputs, ins)
    ensures ok ==> Marked(pool.TransactionsToSend, ins, |ins|, frommem, cnt) && totinp == InputSum(pool.TransactionsToSend, db, ins) % W64
  {
    hide Pool.Valid, Keyed, Descends, MayReplace, InputOk, Replaced, InputsOk, Marked, SpentExact, Family, InputValue, InputSum;
    var T, S := pool.TransactionsToSend, pool.SpentOutputs;
    PoolKeyed(pool);
    ok, rbf, frommem, cnt, totinp := true, {}, None, 0, 0;
    CheckStart(pool.rank, T, S, db, height, ins, trusted, allowMem);
    for i := 0 to |ins|
      invariant rbf == Replaced(pool.rank, T, S, ins[..i]) && InputsOk(pool.rank, T, S, db, height, ins[..i], trusted, allowMem)
      invariant Marked(T, ins, i, frommem, cnt) && totinp == InputSum(T, db, ins[..i]) % W64 && ok
    {
      var op := ins[i];
      CheckNext(pool.rank, T, S, db, height, ins, i, trusted, allowMem);
      if op in S {
        SpenderKnown(pool, op);
        ok, rbf := AddConflict(pool, S[op], rbf, trusted);
        if !ok {
          return;
        }
      }
      ok := CheckInput(T, db, height, trusted, allowMem, op);
      if !ok {
        return;
      }
      frommem, cnt := MarkInput(T, ins, i, frommem, cnt);
      totinp := (totinp + InputValue(T, db, op)) % W64;
    }
    assert ins[..|ins|] == ins;
  }

  ghost function Weights(T: Txs, ks: set<TxId>): map<TxId, nat> {
    map k | k in ks && k in T :: T[k].weight
  }

  ghost function Fees(T: Txs, ks: set<TxId>): map<TxId, nat> {
    map k | k in ks && k in T :: T[k].Fee
  }

  method RbfTotals(T: Txs, rbf: set<TxId>) returns (totweight: nat, totfees: nat)
    requires rbf <= T.Keys
    ensures totweight == Sum(Weights(T, rbf)) && totfees == Sum(Fees(T, rbf)) % W64
  {
    totweight, totfees := 0, 0;
    var todo := rbf;
    ghost var done: set<TxId> := {};
    assert Weights(T, {}) == map[] && Fees(T, {}) == map[];
    while todo != {}
      invariant todo <= rbf && done == rbf - todo
      invariant totweight == Sum(Weights(T, done)) && totfees == Sum(Fees(T, done)) % W64
    {
      var k :| k in todo;
      SumAdd(Weights(T, done), k, T[k].weight);
      SumAdd(Fees(T, done), k, T[k].Fee);
      assert Weights(T, done + {k}) == Weights(T, done)[k := T[k].weight];
      assert Fees(T, done + {k}) == Fees(T, done)[k := T[k].Fee];
      totweight := totweight + T[k].weight;
      totfees := (totfees + T[k].Fee) % W64;
      todo, done := todo - {k}, done + {k};
    }
    assert done == rbf;
  }

  /** The transaction pays enough, and better than what it replaces. The sums are 64 bits wide. */
  ghost predicate FeeOk(T: Txs, rbf: set<TxId>, totinp: nat, totout: nat, weight: nat, local: bool, minFee: nat) {
    && totout <= totinp
    && (local || totinp - totout >= minFee)
    && (local || rbf == {} ||
        Sum(Fees(T, rbf)) % W64 * weight % W64 < (totinp - totout) * Sum(Weights(T, rbf)) % W64)
  }

  method SumOutputs(outs: seq<TxOut>) returns (totout: nat)
    ensures totout == OutSum(outs) % W64
  {
    totout := 0;
    for i := 0 to |outs|
      invariant totout == OutSum(outs[..i]) % W64
    {
      assert outs[..i + 1][..i] == outs[..i];
      totout := (totout + outs[i].value) % W64;
    }
    assert outs[..|outs|] == outs;
  }

  method CheckFee(T: Txs, rbf: set<TxId>, totinp: nat, totout: nat, weight: nat, local: bool, minFee: nat) returns (ok: bool)
    requires rbf <= T.Keys
    ensures ok <==> FeeOk(T, rbf, totinp, totout, weight, local, minFee)
    ensures ok ==> totout <= totinp
  {
    if totout > totinp {
      return false;
    }
    var fee := totinp - totout;
    if !local && fee < minFee {
      return false;
    }
    if rbf != {} {
      var totweight, totfees := RbfTotals(T, rbf);
      if !local && totfees * weight % W64 >= fee * totweight % W64 {
        return false;
      }
    }
    ok := true;
  }

  lemma ReplacedKnown(rank: TxId -> nat, T: Txs, S: map<OutPoint, TxId>, ins: seq<OutPoint>)
    requires Keyed(rank, T)
    ensures Replaced(rank, T, S, ins) <= T.Keys
  {
  }

  lemma BothViews(pool: Pool)
    requires pool.Valid()
    ensures Keyed(pool.rank, pool.TransactionsToSend) && SpentExact(pool.TransactionsToSend, pool.SpentOutputs)
  {
  }

  lemma EachOk(rank: TxId -> nat, T: Txs, S: map<OutPoint, TxId>, db: Records, height: nat, ins: seq<OutPoint>, trusted: bool, allowMem: bool)
    requires Keyed(rank, T) && InputsOk(rank, T, S, db, height, ins, trusted, allowMem)
    ensures EachInputOk(T, db, height, trusted || allowMem, ins)
  {
  }

  /** With the replaced ones gone, the new transaction conflicts with nothing. */
  lemma ReadyToInsert(rank: TxId -> nat, T: Txs, S: map<OutPoint, TxId>, now: Txs, S': map<OutPoint, TxId>,
                      db: Records, height: nat, memAllowed: bool, tx: Tx)
    requires Keyed(rank, T) && SpentExact(T, S) && SpentExact(now, S') && Newcomer(rank, T, S, tx)
    requires now == T - Replaced(rank, T, S, tx.ins) && EachInputOk(T, db, height, memAllowed, tx.ins)
    ensures Newcomer(rank, now, S', tx) && forall op :: op in tx.ins ==> op !in S'
    ensures forall op :: op in tx.ins && op.hash in now ==> op.vout < |now[op.hash].tx.outs|
  {
    hide Distinct;
    forall op | op in S'
      ensures op in S && S[op] == S'[op]
    {
      assert S'[op] in now && op in now[S'[op]].tx.ins;
    }
    forall op | op in tx.ins
      ensures op !in S'
    {
      if op in S {
        SpenderReplaced(rank, T, S, tx.ins, op);
      }
    }
    forall op | op in tx.ins && op.hash in now
      ensures op.vout < |now[op.hash].tx.outs|
    {
      assert InputOk(T, db, height, memAllowed, op);
    }
  }

  lemma SpenderReplaced(rank: TxId -> nat, T: Txs, S: map<OutPoint, TxId>, ins: seq<OutPoint>, op: OutPoint)
    requires Keyed(rank, T) && SpentExact(T, S) && op in ins && op in S
    ensures S[op] in Replaced(rank, T, S, ins)
  {
    assert Descends(rank, T, S[op], S[op]);
  }

  /** The marks, set before the replaced ones left, are right afterwards if and only if none of those was a parent. */
  lemma MarkedFits(T: Txs, now: Txs, rec: OneTxToSend, frommem: Option<seq<bool>>, cnt: nat, gone: set<TxId>)
    requires Marked(T, rec.tx.ins, |rec.tx.ins|, frommem, cnt) && rec.MemInputs == frommem && rec.MemInputCnt == cnt
    requires gone <= T.Keys && now == T - gone
    ensures MemFits(rec, now, {}) <==> forall op :: op in rec.tx.ins ==> op.hash !in gone
  {
    var ins := rec.tx.ins;
    forall i | 0 <= i < |ins|
      ensures ins[i].hash in T && ins[i].hash !in gone <==> FromMem(now, {}, ins[i])
    {
    }
    if op :| op in ins && op.hash in gone {
      var i :| 0 <= i < |ins| && ins[i] == op;
      assert ins[i].hash in T && !FromMem(now, {}, ins[i]);
    }
  }

  /** A transaction cannot be replaced if any of its inputs has a final sequence number. */
  method AnyFinal(sequences: seq<nat>) returns (final: bool)
    ensures final <==> exists i :: 0 <= i < |sequences| && sequences[i] >= 0xfffffffe
  {
    final := false;
    for i := 0 to |sequences|
      invariant final <==> exists j :: 0 <= j < i && sequences[j] >= 0xfffffffe
    {
      if !final && sequences[i] >= 0xfffffffe {
        final := true;
      }
    }
  }

  /** The last part of HandleNetTx: the replaced ones leave and the newcomer comes in. */
  method TakeIn(pool: Pool, rec: OneTxToSend, rbf: set<TxId>, ghost db: Records, ghost height: nat, ghost memAllowed: bool)
    requires pool.Valid() && Newcomer(pool.rank, pool.TransactionsToSend, pool.SpentOutputs, rec.tx) && rec.Spent == rec.tx.ins
    requires Keyed(pool.rank, pool.TransactionsToSend)
    requires rbf == Replaced(pool.rank, pool.TransactionsToSend, pool.SpentOutputs, rec.tx.ins)
    requires EachInputOk(pool.TransactionsToSend, db, height, memAllowed, rec.tx.ins)
    requires rec.MemInputCnt >= 0 && Marked(pool.TransactionsToSend, rec.tx.ins, |rec.tx.ins|, rec.MemInputs, rec.MemInputCnt)
    modifies pool
    ensures pool.ValidBut({rec.tx.hash}, {}) && pool.TransactionsToSend == (old(pool.TransactionsToSend) - rbf)[rec.tx.hash := rec]
    ensures pool.Valid() <==> forall op :: op in rec.tx.ins ==> op.hash !in rbf
  {
    hide Pool.Valid, Pool.ValidBut, Keyed, EachInputOk, Replaced, Marked, MemFits, SpentExact, Newcomer;
    ghost var T, S := pool.TransactionsToSend, pool.SpentOutputs;
    BothViews(pool);
    ReplacedKnown(pool.rank, T, S, rec.tx.ins);
    if rbf != {} {
      ReplacedClosed(pool.rank, T, S, rec.tx.ins);
      DeleteReplaced(pool, rbf);
    }
    assert pool.TransactionsToSend == T - rbf;
    BothViews(pool);
    ReadyToInsert(pool.rank, T, S, pool.TransactionsToSend, pool.SpentOutputs, db, height, memAllowed, rec.tx);
    MarkedFits(T, pool.TransactionsToSend, rec, rec.MemInputs, rec.MemInputCnt, rbf);
    Insert(pool, rec);
  }

  /** Whether HandleNetTx takes the transaction, and what it has found out by then. */
  method Judge(pool: Pool, tx: Tx, weight: nat, trusted: bool, local: bool, allowMem: bool, db: Records, height: nat, minFee: nat, scriptsOk: bool)
    returns (ok: bool, rbf: set<TxId>, frommem: Option<seq<bool>>, cnt: nat, fee: nat)
    requires pool.Valid()
    ensures Keyed(pool.rank, pool.TransactionsToSend)
    ensures ok <==>
      && InputsOk(pool.rank, pool.TransactionsToSend, pool.SpentOutputs, db, height, tx.ins, trusted, allowMem)
      && FeeOk(pool.TransactionsToSend, Replaced(pool.rank, pool.TransactionsToSend, pool.SpentOutputs, tx.ins),
               InputSum(pool.TransactionsToSend, db, tx.ins) % W64, OutSum(tx.outs) % W64, weight, local, minFee)
      && (trusted || scriptsOk)
    ensures ok ==> rbf == Replaced(pool.rank, pool.TransactionsToSend, pool.SpentOutputs, tx.ins)
    ensures ok ==> Marked(pool.TransactionsToSend, tx.ins, |tx.ins|, frommem, cnt)
    ensures ok ==> fee == InputSum(pool.TransactionsToSend, db, tx.ins) % W64 - OutSum(tx.outs) % W64
  {
    hide Pool.Valid, Keyed, InputsOk, FeeOk, Replaced, Marked, OutSum, InputSum;
    fee := 0;
    var totinp;
    ok, rbf, frommem, cnt, totinp := CheckInputs(pool, tx.ins, db, height, trusted, allowMem);
    if !ok {
      return;
    }
    ReplacedKnown(pool.rank, pool.TransactionsToSend, pool.SpentOutputs, tx.ins);
    var totout := SumOutputs(tx.outs);
    ok := CheckFee(pool.TransactionsToSend, rbf, totinp, totout, weight, local, minFee);
    if !ok {
      return;
    }
    fee := totinp - totout;
    ok := trusted || scriptsOk;
  }

  /**
   * HandleNetTx, from the look at the inputs on. It takes the transaction exactly when the inputs, the fee and the
   * scripts are right, and then puts it in the place of all it conflicts with. If one of those was its parent, it stays in the
   * pool with that input marked as coming from there, and in this case alone the invariant is broken.
   */
  method HandleNetTx(pool: Pool, tx: Tx, sequences: seq<nat>, size: nat, weight: nat, trusted: bool, local: bool, allowMem: bool,
                     db: Records, height: nat, minFee: nat, scriptsOk: bool)
    returns (accepted: bool)
    requires pool.Valid() && Newcomer(pool.rank, pool.TransactionsToSend, pool.SpentOutputs, tx)
    modifies pool
    ensures old(Keyed(pool.rank, pool.TransactionsToSend))
    ensures accepted ==> pool.ValidBut({tx.hash}, {})
    ensures pool.Valid() <==>
      !accepted || forall op :: op in tx.ins ==> op.hash !in old(Replaced(pool.rank, pool.TransactionsToSend, pool.SpentOutputs, tx.ins))
    ensures accepted <==> old(
      && InputsOk(pool.rank, pool.TransactionsToSend, pool.SpentOutputs, db, height, tx.ins, trusted, allowMem)
      && FeeOk(pool.TransactionsToSend, Replaced(pool.rank, pool.TransactionsToSend, pool.SpentOutputs, tx.ins),
               InputSum(pool.TransactionsToSend, db, tx.ins) % W64, OutSum(tx.outs) % W64, weight, local, minFee)
      && (trusted || scriptsOk))
    ensures !accepted ==> unchanged(pool)
    ensures accepted ==> tx.hash in pool.TransactionsToSend && fresh(pool.TransactionsToSend[tx.hash])
    ensures accepted ==>
      var rec := pool.TransactionsToSend[tx.hash];
      && rec.tx == tx && rec.size == size && rec.weight == weight
      && (rec.Final <==> exists i :: 0 <= i < |sequences| && sequences[i] >= 0xfffffffe)
      && rec.Fee == old(InputSum(pool.TransactionsToSend, db, tx.ins)) % W64 - OutSum(tx.outs) % W64
    ensures accepted ==> (pool.TransactionsToSend - {tx.hash}
      == old(pool.TransactionsToSend - Replaced(pool.rank, pool.TransactionsToSend, pool.SpentOutputs, tx.ins)))
  {
    assert tx.hash !in pool.TransactionsToSend;
    hide Pool.Valid, Pool.ValidBut, Keyed, InputsOk, EachInputOk, FeeOk, Replaced, Marked, OutSum, InputSum, Newcomer;
    var rbf, frommem, cnt, fee;
    accepted, rbf, frommem, cnt, fee := Judge(pool, tx, weight, trusted, local, allowMem, db, height, minFee, scriptsOk);
    if !accepted {
      return;
    }
    EachOk(pool.rank, pool.TransactionsToSend, pool.SpentOutputs, db, height, tx.ins, trusted, allowMem);
    var final := AnyFinal(sequences);
    var rec := new OneTxToSend(tx, size, weight, fee, final, frommem, cnt);
    WithAndWithout(pool.TransactionsToSend, rbf, tx.hash, rec);
    TakeIn(pool, rec, rbf, db, height, trusted || allowMem);
  }

  // A transaction that replaces its own parent: the second one spends an output of the first and the coin the first spends.

  const COIN := OutPoint(0, 0)
  const DB: Records := map[0 := Rec(false, 0, [Some(TxOut(100, []))])]
  const FIRST := Tx(1, [COIN], [TxOut(50, [])])
  const SECOND := Tx(2, [COIN, OutPoint(1, 0)], [TxOut(10, [])])

  method OneInPool() returns (pool: Pool)
    ensures fresh(pool) && pool.Valid() && pool.TransactionsToSend.Keys == {1} && pool.TransactionsToSend[1].tx == FIRST
    ensures pool.rank == ((h: TxId) => h)
  {
    hide Pool.ValidBut, InputsOk, InputSum, OutSum, Replaced, Newcomer, Keyed;
    pool := new Pool((h: TxId) => h);
    NewcomerTo(pool, FIRST);
    FirstFits(pool);
    var ok := HandleNetTx(pool, FIRST, [], 0, 0, true, true, true, DB, 0, 0, true);
    assert (pool.TransactionsToSend - {1}).Keys == {};
    assert pool.TransactionsToSend.Keys == {1};
  }

  lemma NewcomerTo(pool: Pool, tx: Tx)
    requires pool.Valid() && tx in [FIRST, SECOND] && pool.rank == ((h: TxId) => h)
    requires forall k :: k in pool.TransactionsToSend ==> k == 1 && tx == SECOND && pool.TransactionsToSend[k].tx == FIRST
    ensures Newcomer(pool.rank, pool.TransactionsToSend, pool.SpentOutputs, tx)
  {
    forall op | op in pool.SpentOutputs
      ensures op.hash != tx.hash
    {
      assert op in pool.TransactionsToSend[pool.SpentOutputs[op]].tx.ins;
    }
  }

  lemma FirstFits(pool: Pool)
    requires pool.Valid() && pool.TransactionsToSend == map[]
    ensures InputsOk(pool.rank, map[], pool.SpentOutputs, DB, 0, FIRST.ins, true, true)
    ensures InputSum(map[], DB, FIRST.ins) == 100 && OutSum(FIRST.outs) == 50
    ensures Replaced(pool.rank, map[], pool.SpentOutputs, FIRST.ins) == {}
  {
    var T: Txs := map[];
    assert FIRST.ins[..0] == [] && FIRST.outs[..0] == [];
    assert InputSum(T, DB, FIRST.ins[..0]) == 0 && InputValue(T, DB, FIRST.ins[0]) == 100;
  }

  lemma SecondFits(pool: Pool)
    requires pool.Valid() && pool.TransactionsToSend.Keys == {1} && pool.TransactionsToSend[1].tx == FIRST
    ensures Keyed(pool.rank, pool.TransactionsToSend)
    ensures InputsOk(pool.rank, pool.TransactionsToSend, pool.SpentOutputs, DB, 0, SECOND.ins, true, true)
    ensures InputSum(pool.TransactionsToSend, DB, SECOND.ins) == 150 && OutSum(SECOND.outs) == 10
    ensures 1 in Replaced(pool.rank, pool.TransactionsToSend, pool.SpentOutputs, SECOND.ins)
  {
    var T := pool.TransactionsToSend;
    assert SECOND.ins[..1] == [COIN] && [COIN][..0] == [] && SECOND.outs[..0] == [];
    assert InputSum(T, DB, [COIN]) == 100;
    assert COIN in T[1].tx.ins && pool.SpentOutputs[COIN] == 1;
    SelfDescends(pool.rank, T, 1);
    assert COIN in SECOND.ins;
  }

  method OwnParent() returns (pool: Pool)
    ensures pool.ValidBut({2}, {}) && !pool.Valid()
  {
    hide Pool.ValidBut, InputsOk, InputSum, OutSum, Replaced;
    pool := OneInPool();
    NewcomerTo(pool, SECOND);
    SecondFits(pool);
    var ok := HandleNetTx(pool, SECOND, [], 0, 0, true, true, true, DB, 0, 0, true);
    assert OutPoint(1, 0) in SECOND.ins;
  }
}
