/** Any sequence of calls on the memory pool. */
module PoolRun {
  import opened Utxo
  import opened Seqs
  import opened Mempool
  import opened Relatives
  import opened TxAccept
  import opened TxPackages

  datatype Command =
    | Arrives(tx: Tx, sequences: seq<nat>, size: nat, weight: nat, trusted: bool, local: bool, allowMem: bool, db: Records, height: nat,
              minFee: nat, scriptsOk: bool)
    | Mined(txs: seq<Tx>)
    | Limited(limit: nat)
    | Dropped(hash: TxId)

  /** A transaction has different inputs, and spending is acyclic: what it spends from ranks below it. */
  ghost predicate Fair(rank: TxId -> nat, cmd: Command) {
    cmd.Arrives? ==> Distinct(cmd.tx.ins) && forall op :: op in cmd.tx.ins ==> rank(op.hash) < rank(cmd.tx.hash)
  }

  /** A transaction in the pool or spent from there is not handed over again. */
  predicate Known(pool: Pool, tx: Tx)
    reads pool
  {
    tx.hash in pool.TransactionsToSend || exists op :: op in pool.SpentOutputs && op.hash == tx.hash
  }

  /** tx has come into the pool in place of all it conflicts with, and one of those was its parent. */
  ghost predicate Orphaned(rank: TxId -> nat, before: Txs, spent: map<OutPoint, TxId>, tx: Tx, now: Txs) {
    && Keyed(rank, before) && tx.hash in now && now[tx.hash].tx == tx
    && now - {tx.hash} == before - Replaced(rank, before, spent, tx.ins)
    && exists op :: op in tx.ins && op.hash in before && op.hash in Replaced(rank, before, spent, tx.ins)
  }

  lemma Left(before: Txs, now: Txs, gone: set<TxId>, h: TxId)
    requires now - {h} == before - gone && gone <= before.Keys
    ensures forall k :: k != h ==> (k in gone <==> k in before && k !in now)
    ensures forall k :: k in now && k != h ==> k in before && now[k] == before[k]
  {
    forall k | k != h
      ensures k in now <==> k in before && k !in gone
      ensures k in now ==> now[k] == before[k]
    {
      assert k in now <==> k in now - {h};
      assert k in now ==> (now - {h})[k] == (before - gone)[k];
    }
  }

  /** orphan: tx has come in and one of its parents has left for it. */
  method Arrive(pool: Pool, cmd: Command) returns (orphan: bool)
    requires cmd.Arrives? && pool.Valid() && Fair(pool.rank, cmd) && !Known(pool, cmd.tx)
    modifies pool
    ensures orphan <==> !pool.Valid()
    ensures orphan ==> Orphaned(pool.rank, old(pool.TransactionsToSend), old(pool.SpentOutputs), cmd.tx, pool.TransactionsToSend)
    ensures forall k :: k in pool.TransactionsToSend ==>
      fresh(pool.TransactionsToSend[k]) || (k in old(pool.TransactionsToSend) && pool.TransactionsToSend[k] == old(pool.TransactionsToSend)[k])
  {
    hide Pool.Valid, Pool.ValidBut, InputsOk, FeeOk, Replaced, Keyed;
    var before := pool.TransactionsToSend;
    PoolKeyed(pool);
    ghost var gone := Replaced(pool.rank, before, pool.SpentOutputs, cmd.tx.ins);
    ReplacedKnown(pool.rank, before, pool.SpentOutputs, cmd.tx.ins);
    var accepted := HandleNetTx(pool, cmd.tx, cmd.sequences, cmd.size, cmd.weight, cmd.trusted, cmd.local, cmd.allowMem, cmd.db, cmd.height,
                                cmd.minFee, cmd.scriptsOk);
    if accepted {
      Left(before, pool.TransactionsToSend, gone, cmd.tx.hash);
    }
    orphan := accepted && exists op :: op in cmd.tx.ins && op.hash in before && op.hash !in pool.TransactionsToSend;
  }

  /**
   * The pool's invariant holds through any sequence of calls, until a transaction comes in that replaces a parent of its own:
   * before and spent are the pool it finds.
   */
  method Run(pool: Pool, cmds: seq<Command>) returns (n: nat, ghost before: Txs, ghost spent: map<OutPoint, TxId>)
    requires pool.Valid() && forall cmd :: cmd in cmds ==> Fair(pool.rank, cmd)
    modifies pool, pool.TransactionsToSend.Values
    ensures n <= |cmds| && (n == |cmds| <==> pool.Valid())
    ensures n < |cmds| ==> cmds[n].Arrives? && Orphaned(pool.rank, before, spent, cmds[n].tx, pool.TransactionsToSend)
  {
    hide Pool.Valid, Pool.ValidBut, Keyed, Fair, Known, Orphaned;
    n, before, spent := 0, map[], map[];
    while n < |cmds|
      invariant n <= |cmds| && pool.Valid()
      invariant forall k :: k in pool.TransactionsToSend ==>
        fresh(pool.TransactionsToSend[k]) || pool.TransactionsToSend[k] in old(pool.TransactionsToSend.Values)
      decreases |cmds| - n
    {
      match cmds[n] {
        case Arrives(tx, _, _, _, _, _, _, _, _, _, _) =>
          if !Known(pool, tx) {
            before, spent := pool.TransactionsToSend, pool.SpentOutputs;
            var orphan := Arrive(pool, cmds[n]);
            if orphan {
              return;
            }
          }
        case Mined(txs) =>
          pool.BlockMined(txs);
        case Limited(limit) =>
          ghost var sorted, kept := LimitPoolSize(pool, limit);
        case Dropped(h) =>
          if h in pool.TransactionsToSend {
            Drop(pool, h);
          }
      }
      n := n + 1;
    }
  }

  /** Delete with children, as for a transaction that has expired. */
  method Drop(pool: Pool, h: TxId)
    requires pool.Valid() && h in pool.TransactionsToSend
    modifies pool
    ensures pool.Valid() && Within(pool.TransactionsToSend, old(pool.TransactionsToSend))
  {
    hide MemFits, SpentExact, Descends;
    assert pool.TransactionsToSend[h].tx.hash == h;
    pool.Delete(pool.TransactionsToSend[h], true, {}, {});
  }
}
