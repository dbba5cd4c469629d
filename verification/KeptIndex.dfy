/** The wallet's index beside the chain: following the notifications comes to the same as starting from nothing. */
module KeptIndex {
  import opened UnspentDb
  import opened ChainCoins
  import opened Balance
  import opened Utxo
  import C = Chain

  /** The index is told what has come since. */
  method CatchUp(c: C.Chain, kept: Balances, ghost before: seq<Event>, since: seq<Event>)
    requires c.Valid() && c.Unspent.notified == before + since && kept.Holds(Replay(map[], before))
    modifies kept, kept.AllBalances.Values
    ensures c.Valid() && kept.Holds(CoinsAt(c.content, c.last))
  {
    hide C.Chain.Valid, Balances.Holds, CoinsAt, ValidRun;
    assert since == c.Unspent.notified[|before|..];
    c.ToldSince(before);
    kept.Follow(since, Replay(map[], before));
  }

  /** An index made from the records alone. */
  method FromScratch(c: C.Chain, useMapCnt: int, minVal: nat) returns (scratch: Balances)
    requires c.Valid()
    ensures fresh(scratch) && scratch.minVal == minVal && scratch.Holds(CoinsAt(c.content, c.last))
  {
    hide C.Chain.Valid, Balances.Holds, Agrees, Canonical, CoinsAt;
    c.SetIsFold();
    scratch := new Balances(useMapCnt, minVal);
    var aborted := scratch.LoadBalance(c.Unspent.HashMap, None, CoinsAt(c.content, c.last));
  }

  /**
   * An index that was right after the notifications before has been told all that has come since, whatever blocks were
   * connected and undone meanwhile. One made now, from the records alone, has the same listings and the same values.
   */
  method Compare(c: C.Chain, kept: Balances, ghost before: seq<Event>, since: seq<Event>) returns (scratch: Balances)
    requires c.Valid() && c.Unspent.notified == before + since && kept.Holds(Replay(map[], before))
    modifies kept, kept.AllBalances.Values
    ensures c.Valid() && fresh(scratch) && kept.Holds(CoinsAt(c.content, c.last)) && scratch.Holds(CoinsAt(c.content, c.last))
    ensures kept.AllBalances.Keys == scratch.AllBalances.Keys
    ensures forall a :: a in kept.AllBalances ==>
      kept.AllBalances[a].Listed() == scratch.AllBalances[a].Listed() && kept.AllBalances[a].Value == scratch.AllBalances[a].Value
  {
    hide C.Chain.Valid, Balances.Holds, CoinsAt;
    CatchUp(c, kept, before, since);
    scratch := FromScratch(c, kept.UseMapCnt, kept.minVal);
    IndexIsDetermined(kept, scratch, CoinsAt(c.content, c.last));
  }
}
