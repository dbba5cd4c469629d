/** The wallet's index of balances by address, kept up to date by the database's notifications. */
module Balance {
  import opened Utxo
  import opened CommitTxs
  import opened UnspentDb
  import opened Supply
  import opened Seqs
  import opened Scripts

  datatype Kind = P2KH | P2SH | P2WKH | P2WSH | P2TAP
  datatype Addr = Addr(kind: Kind, key: seq<nat>)

  /** The map an output is listed in, and its key there. */
  function AddrOf(scr: Script): Option<Addr> {
    if IsP2KH(scr) then Some(Addr(P2KH, scr[3..23]))
    else if IsP2SH(scr) then Some(Addr(P2SH, scr[2..22]))
    else if IsP2WPKH(scr) then Some(Addr(P2WKH, scr[2..22]))
    else if IsP2WSH(scr) then Some(Addr(P2WSH, scr[2..34]))
    else if IsP2TAP(scr) then Some(Addr(P2TAP, scr[2..34]))
    else None
  }

  function KeyLength(kind: Kind): nat {
    match kind
    case P2KH => 20
    case P2SH => 20
    case P2WKH => 20
    case P2WSH => 32
    case P2TAP => 32
  }

  /** The script that pays to an address. */
  function ScriptOf(a: Addr): Script {
    match a.kind
    case P2KH => [0x76, 0xa9, 0x14] + a.key + [0x88, 0xac]
    case P2SH => [0xa9, 0x14] + a.key + [0x87]
    case P2WKH => [0x00, 0x14] + a.key
    case P2WSH => [0x00, 0x20] + a.key
    case P2TAP => [0x51, 0x20] + a.key
  }

  /** An output is listed under an address exactly when its script is the one that pays to it. */
  lemma AddressPays(scr: Script, a: Addr)
    ensures AddrOf(scr) == Some(a) <==> scr == ScriptOf(a) && |a.key| == KeyLength(a.kind)
  {
    var n := |ScriptOf(a)|;
    if scr == ScriptOf(a) && |a.key| == KeyLength(a.kind) {
      match a.kind {
        case P2KH => assert scr[3..23] == a.key;
        case P2SH => assert scr[2..22] == a.key;
        case P2WKH => assert scr[2..22] == a.key;
        case P2WSH => assert scr[2..34] == a.key;
        case P2TAP => assert scr[2..34] == a.key;
      }
    }
    if AddrOf(scr) == Some(a) {
      assert scr == ScriptOf(a);
    }
  }

  /** Different scripts are never listed under one address. */
  lemma OneScriptEach(scr: Script, other: Script)
    requires AddrOf(scr).Some? && AddrOf(other) == AddrOf(scr)
    ensures other == scr
  {
    AddressPays(scr, AddrOf(scr).value);
    AddressPays(other, AddrOf(scr).value);
  }

  /** The coins of one address that are not below the minimum: what its entry must list. */
  ghost function CoinsOf(m: Coins, min: nat, a: Addr): Coins {
    map op | op in m && m[op].value >= min && AddrOf(m[op].script) == Some(a) :: m[op]
  }

  /** An entry's fields list exactly the coins c, each once, and the value is their sum in 64 bits. */
  ghost predicate Lists(value: nat, unsp: seq<OutPoint>, unspMap: Option<set<OutPoint>>, c: Coins) {
    && (if unspMap.Some? then unspMap.value else Elems(unsp)) == c.Keys
    && (unspMap.None? ==> Distinct(unsp))
    && value == Total(c) % W64
  }

  /** What an address lists: the coins whose script pays to it. */
  lemma CoinsPay(m: Coins, min: nat, a: Addr, op: OutPoint)
    requires |a.key| == KeyLength(a.kind)
    ensures op in CoinsOf(m, min, a) <==> op in m && m[op].value >= min && m[op].script == ScriptOf(a)
  {
    if op in m {
      AddressPays(m[op].script, a);
    }
  }

  lemma ListsNothing()
    ensures Lists(0, [], None, map[])
  {
  }

  lemma ModAdd(t: nat, v: nat)
    ensures (t % W64 + v) % W64 == (t + v) % W64
    ensures ((t + v) % W64 - v) % W64 == t % W64
  {
  }

  lemma ListInMap(value: nat, unsp: seq<OutPoint>, unspMap: set<OutPoint>, c: Coins, nr: OutPoint, coin: Coin)
    requires Lists(value, unsp, Some(unspMap), c) && nr !in c
    ensures Lists((value + coin.value) % W64, unsp, Some(unspMap + {nr}), c[nr := coin])
  {
    TotalAdd(c, nr, coin);
    ModAdd(Total(c), coin.value);
  }

  lemma ListInSeq(value: nat, unsp: seq<OutPoint>, c: Coins, nr: OutPoint, coin: Coin)
    requires Lists(value, unsp, None, c) && nr !in c
    ensures Lists((value + coin.value) % W64, unsp + [nr], None, c[nr := coin])
    ensures Lists((value + coin.value) % W64, [], Some(Elems(unsp) + {nr}), c[nr := coin])
  {
    hide Total;
    TotalAdd(c, nr, coin);
    ModAdd(Total(c), coin.value);
    assert nr !in Elems(unsp);
    assert Elems(unsp + [nr]) == Elems(unsp) + {nr};
  }

  lemma UnlistFromMap(value: nat, unsp: seq<OutPoint>, unspMap: set<OutPoint>, c: Coins, nr: OutPoint)
    requires Lists(value, unsp, Some(unspMap), c) && nr in c
    ensures nr in unspMap && (unspMap - {nr} == {} <==> c.Keys == {nr})
    ensures Lists((value - c[nr].value) % W64, unsp, Some(unspMap - {nr}), c - {nr})
  {
    TotalWithout(c, nr);
    ModAdd(Total(c - {nr}), c[nr].value);
    assert (c - {nr}).Keys == c.Keys - {nr};
  }

  lemma UnlistFromSeq(value: nat, unsp: seq<OutPoint>, c: Coins, nr: OutPoint, i: nat)
    requires Lists(value, unsp, None, c) && i < |unsp| && unsp[i] == nr
    ensures nr in c && (|unsp| == 1 <==> c.Keys == {nr})
    ensures Lists((value - c[nr].value) % W64, unsp[..i] + unsp[i + 1..], None, c - {nr})
  {
    hide Total;
    OneElem(unsp, i);
    Removed(unsp, i);
    hide Elems, Distinct;
    TotalWithout(c, nr);
    ModAdd(Total(c - {nr}), c[nr].value);
    assert (c - {nr}).Keys == c.Keys - {nr};
  }

  lemma OneElem(s: seq<OutPoint>, i: nat)
    requires i < |s| && Distinct(s)
    ensures s[i] in Elems(s) && (|s| == 1 <==> Elems(s) == {s[i]})
  {
    if |s| > 1 {
      var k := if i == 0 then 1 else 0;
      assert s[k] in Elems(s) && s[k] != s[i];
    }
  }

  lemma Removed(s: seq<OutPoint>, i: nat)
    requires i < |s| && Distinct(s)
    ensures Elems(s[..i] + s[i + 1..]) == Elems(s) - {s[i]} && Distinct(s[..i] + s[i + 1..])
  {
    assert s == s[..i] + [s[i]] + s[i + 1..];
  }

  /** An address's entry. A short list of outpoints becomes a set when it grows. */
  class OneAllAddrBal {
    var Value: nat
    var unsp: seq<OutPoint>
    var unspMap: Option<set<OutPoint>>

    constructor ()
      ensures Value == 0 && unsp == [] && unspMap == None
    {
      Value, unsp, unspMap := 0, [], None;
    }

    ghost predicate Fits(c: Coins)
      reads this
    {
      Lists(Value, unsp, unspMap, c)
    }

    ghost function Listed(): set<OutPoint>
      reads this
    {
      if unspMap.Some? then unspMap.value else Elems(unsp)
    }

    /** The end of NewUTXO's loop body. */
    method List(nr: OutPoint, value: nat, useMapCnt: int, ghost c: Coins, ghost coin: Coin)
      requires Fits(c) && nr !in c && coin.value == value
      modifies this
      ensures Fits(c[nr := coin])
    {
      hide Lists, Distinct;
      if unspMap.Some? {
        ListInMap(Value, unsp, unspMap.value, c, nr, coin);
        Value := (Value + value) % W64;
        unspMap := Some(unspMap.value + {nr});
        return;
      }
      ListInSeq(Value, unsp, c, nr, coin);
      Value := (Value + value) % W64;
      if |unsp| >= useMapCnt - 1 {
        var all: set<OutPoint> := {};
        for i := 0 to |unsp|
          invariant all == Elems(unsp[..i])
        {
          assert unsp[..i + 1] == unsp[..i] + [unsp[i]];
          all := all + {unsp[i]};
        }
        assert unsp[..|unsp|] == unsp;
        unspMap := Some(all + {nr});
        unsp := [];
        return;
      }
      unsp := unsp + [nr];
    }

    /** The end of all_del_utxos's loop body. When gone, the caller has to delete the entry, which is left as it was. */
    method Unlist(nr: OutPoint, value: nat, ghost c: Coins) returns (found: bool, gone: bool)
      requires Fits(c) && nr in c && c[nr].value == value
      modifies this
      ensures found && (gone <==> c.Keys == {nr})
      ensures !gone ==> Fits(c - {nr})
    {
      hide Lists, Distinct, Elems;
      found, gone := true, false;
      if unspMap.Some? {
        UnlistFromMap(Value, unsp, unspMap.value, c, nr);
        if nr !in unspMap.value {
          return false, false;
        }
        unspMap := Some(unspMap.value - {nr});
        if |unspMap.value| == 0 {
          gone := true;
        } else {
          Value := (Value - value) % W64;
        }
        return;
      }
      assert unsp[..|unsp|] == unsp;
      var i := 0;
      while i < |unsp| && unsp[i] != nr
        invariant 0 <= i <= |unsp| && nr !in unsp[..i]
      {
        assert unsp[..i + 1] == unsp[..i] + [unsp[i]];
        i := i + 1;
      }
      ListedSomewhere(Value, unsp, c, nr);
      if i == |unsp| {
        return false, false;
      }
      UnlistFromSeq(Value, unsp, c, nr, i);
      if |unsp| == 1 {
        gone := true;
      } else {
        Value := (Value - value) % W64;
        unsp := unsp[..i] + unsp[i + 1..];
      }
    }
  }

  lemma ListedSomewhere(value: nat, unsp: seq<OutPoint>, c: Coins, nr: OutPoint)
    requires Lists(value, unsp, None, c) && nr in c
    ensures nr in unsp
  {
    assert nr in Elems(unsp);
  }

  // One coin more or less, for each address.

  lemma CoinsOfAdd(m: Coins, min: nat, op: OutPoint, coin: Coin, a: Addr)
    requires op !in m
    ensures CoinsOf(m[op := coin], min, a)
         == if coin.value >= min && AddrOf(coin.script) == Some(a) then CoinsOf(m, min, a)[op := coin] else CoinsOf(m, min, a)
  {
    hide AddrOf;
  }

  lemma NotListed(m: Coins, min: nat, op: OutPoint, a: Addr)
    requires op !in m
    ensures op !in CoinsOf(m, min, a)
  {
  }

  lemma CoinsOfDel(m: Coins, min: nat, op: OutPoint, a: Addr)
    requires op in m
    ensures CoinsOf(m - {op}, min, a)
         == if m[op].value >= min && AddrOf(m[op].script) == Some(a) then CoinsOf(m, min, a) - {op} else CoinsOf(m, min, a)
    ensures op in CoinsOf(m, min, a) <==> m[op].value >= min && AddrOf(m[op].script) == Some(a)
  {
    hide AddrOf;
  }

  lemma ListedValue(m: Coins, min: nat, op: OutPoint, a: Addr)
    requires op in m && m[op].value >= min && AddrOf(m[op].script) == Some(a)
    ensures op in CoinsOf(m, min, a) && CoinsOf(m, min, a)[op] == m[op]
  {
  }

  lemma LastOne(c: Coins, op: OutPoint)
    requires op in c
    ensures c - {op} == map[] <==> c.Keys == {op}
  {
    var rest := c - {op};
    assert rest.Keys == c.Keys - {op};
    if c.Keys == {op} {
      assert forall k :: k !in rest.Keys;
    } else {
      assert rest.Keys + {op} == c.Keys;
    }
  }

  // The outputs of a record, one at a time.

  ghost function FirstCoins(h: TxId, rec: Rec, n: nat): Coins
    requires n <= |rec.outs|
  {
    map op | op in Points(h, n) && RecCoin(rec, op.vout).Some? :: RecCoin(rec, op.vout).value
  }

  lemma FirstCoinsNext(m: Coins, h: TxId, rec: Rec, n: nat)
    requires n < |rec.outs| && ValidEvent(m, UnspentDb.Added(h, rec))
    ensures var op := OutPoint(h, n); var now := m + FirstCoins(h, rec, n);
            && (rec.outs[n].Some? ==> op !in now && m + FirstCoins(h, rec, n + 1) == now[op := RecCoin(rec, n).value])
            && (rec.outs[n].None? ==> m + FirstCoins(h, rec, n + 1) == now)
  {
    var op := OutPoint(h, n);
    FirstCoinsStep(h, rec, n);
    if rec.outs[n].Some? {
      assert op in RecCoins(h, rec).Keys;
      assert m + FirstCoins(h, rec, n)[op := RecCoin(rec, n).value] == (m + FirstCoins(h, rec, n))[op := RecCoin(rec, n).value];
    }
  }

  lemma FirstCoinsStep(h: TxId, rec: Rec, n: nat)
    requires n < |rec.outs|
    ensures OutPoint(h, n) !in FirstCoins(h, rec, n)
    ensures FirstCoins(h, rec, n + 1)
         == if rec.outs[n].Some? then FirstCoins(h, rec, n)[OutPoint(h, n) := RecCoin(rec, n).value] else FirstCoins(h, rec, n)
  {
  }

  ghost function FirstMarked(h: TxId, rec: Rec, marks: seq<bool>, n: nat): set<OutPoint>
    requires n <= |rec.outs| == |marks|
  {
    set op | op in Points(h, n) && marks[op.vout] && RecCoin(rec, op.vout).Some?
  }

  lemma FirstMarkedNext(m: Coins, h: TxId, rec: Rec, marks: seq<bool>, n: nat)
    requires n < |rec.outs| && ValidEvent(m, Deleted(h, rec, marks))
    ensures var op := OutPoint(h, n); var now := m - FirstMarked(h, rec, marks, n);
            && (marks[n] && rec.outs[n].Some? ==>
                  && op in now && now[op].value == rec.outs[n].value.value && now[op].script == rec.outs[n].value.script
                  && m - FirstMarked(h, rec, marks, n + 1) == now - {op})
            && (!(marks[n] && rec.outs[n].Some?) ==> m - FirstMarked(h, rec, marks, n + 1) == now)
  {
    var op := OutPoint(h, n);
    if marks[n] && rec.outs[n].Some? {
      assert op in MarkedCoins(h, rec, marks);
      assert Get(m, op) == RecCoin(rec, n);
    }
  }

  lemma {:induction false} RunPrefix(m: Coins, evs: seq<Event>, i: nat)
    requires i <= |evs| && ValidRun(m, evs)
    ensures ValidRun(m, evs[..i])
    decreases |evs|
  {
    if i == |evs| {
      assert evs[..i] == evs;
    } else {
      assert evs[..|evs| - 1][..i] == evs[..i];
      RunPrefix(m, evs[..|evs| - 1], i);
    }
  }

  // The coins of some records.

  ghost function Under(m: Coins, hs: set<TxId>): Coins {
    map op | op in m && op.hash in hs :: m[op]
  }

  lemma UnderNext(db: Records, m: Coins, hs: set<TxId>, h: TxId)
    requires Agrees(db, m) && h in db && h !in hs
    ensures ValidEvent(Under(m, hs), UnspentDb.Added(h, db[h])) && Under(m, hs) + RecCoins(h, db[h]) == Under(m, hs + {h})
  {
    forall op: OutPoint | op.hash == h
      ensures Get(m, op) == Get(RecCoins(h, db[h]), op)
    {
      assert UnspentGet(db, op) == Get(m, op);
    }
    var a, b := Under(m, hs) + RecCoins(h, db[h]), Under(m, hs + {h});
    forall op: OutPoint
      ensures Get(a, op) == Get(b, op)
    {
      if op.hash == h {
        assert Get(m, op) == Get(RecCoins(h, db[h]), op);
      }
    }
    SameMaps(a, b);
  }

  lemma SameMaps(a: Coins, b: Coins)
    requires forall op :: Get(a, op) == Get(b, op)
    ensures a == b
  {
    forall op | op in a
      ensures op in b && a[op] == b[op]
    {
      assert Get(a, op) == Get(b, op);
    }
    forall op | op in b
      ensures op in a
    {
      assert Get(a, op) == Get(b, op);
    }
  }

  lemma AllUnder(db: Records, m: Coins)
    requires Agrees(db, m)
    ensures Under(m, db.Keys) == m && Under(m, {}) == map[]
  {
    forall op | op in m
      ensures op.hash in db
    {
      assert UnspentGet(db, op) == Get(m, op);
    }
  }

  class Balances {
    var AllBalances: map<Addr, OneAllAddrBal>
    const UseMapCnt: int
    const minVal: nat

    constructor (useMapCnt: int, minVal: nat)
      ensures UseMapCnt == useMapCnt && this.minVal == minVal && AllBalances == map[] && Holds(map[])
    {
      UseMapCnt, this.minVal, AllBalances := useMapCnt, minVal, map[];
    }

    /** The index is exactly what the coins m call for. */
    ghost predicate Holds(m: Coins)
      reads this, AllBalances.Values
    {
      && (forall a, b :: a in AllBalances && b in AllBalances && a != b ==> AllBalances[a] != AllBalances[b])
      && (forall a :: a in AllBalances <==> CoinsOf(m, minVal, a) != map[])
      && (forall a :: a in AllBalances ==> AllBalances[a].Fits(CoinsOf(m, minVal, a)))
    }

    /** One output of NewUTXO. */
    method AddOutput(op: OutPoint, out: TxOut, ghost m: Coins, ghost coin: Coin)
      requires Holds(m) && op !in m && coin.value == out.value && coin.script == out.script
      modifies this, AllBalances.Values
      ensures Holds(m[op := coin]) && fresh(AllBalances.Values - old(AllBalances.Values))
    {
      hide AddrOf, CoinsOf, Lists;
      ListsNothing();
      forall a: Addr { CoinsOfAdd(m, minVal, op, coin, a); }
      if out.value < minVal {
        return;
      }
      var ad := AddrOf(out.script);
      if ad.None? {
        return;
      }
      var a := ad.value;
      var rec;
      if a in AllBalances {
        rec := AllBalances[a];
      } else {
        rec := new OneAllAddrBal();
        assert CoinsOf(m, minVal, a) == map[] && rec.Fits(map[]);
        AllBalances := AllBalances[a := rec];
      }
      assert op !in CoinsOf(m, minVal, a) by { NotListed(m, minVal, op, a); }
      rec.List(op, out.value, UseMapCnt, CoinsOf(m, minVal, a), coin);
    }

    /** One output of all_del_utxos. None of its complaints is ever printed. */
    method DelOutput(op: OutPoint, out: TxOut, ghost m: Coins)
      requires Holds(m) && op in m && m[op].value == out.value && m[op].script == out.script
      modifies this, AllBalances.Values
      ensures Holds(m - {op}) && fresh(AllBalances.Values - old(AllBalances.Values))
    {
      hide AddrOf, CoinsOf, Lists;
      forall a: Addr { CoinsOfDel(m, minVal, op, a); }
      if out.value < minVal {
        return;
      }
      var ad := AddrOf(out.script);
      if ad.None? {
        return;
      }
      var a := ad.value;
      ghost var c := CoinsOf(m, minVal, a);
      ListedValue(m, minVal, op, a);
      if a !in AllBalances {
        return;
      }
      LastOne(c, op);
      var rec := AllBalances[a];
      var found, gone := rec.Unlist(op, out.value, c);
      if !found {
        return;
      }
      if gone {
        AllBalances := AllBalances - {a};
      }
    }

    /** NewUTXO. */
    method NewUTXO(h: TxId, rec: Rec, ghost m: Coins)
      requires Holds(m) && ValidEvent(m, UnspentDb.Added(h, rec))
      modifies this, AllBalances.Values
      ensures Holds(m + RecCoins(h, rec)) && fresh(AllBalances.Values - old(AllBalances.Values))
    {
      hide Holds;
      assert m + FirstCoins(h, rec, 0) == m;
      for vout := 0 to |rec.outs|
        invariant Holds(m + FirstCoins(h, rec, vout)) && fresh(AllBalances.Values - old(AllBalances.Values))
      {
        FirstCoinsNext(m, h, rec, vout);
        if rec.outs[vout].Some? {
          AddOutput(OutPoint(h, vout), rec.outs[vout].value, m + FirstCoins(h, rec, vout), RecCoin(rec, vout).value);
        }
      }
      assert FirstCoins(h, rec, |rec.outs|) == RecCoins(h, rec);
    }

    /** all_del_utxos. */
    method AllDelUtxos(h: TxId, rec: Rec, outs: seq<bool>, ghost m: Coins)
      requires Holds(m) && ValidEvent(m, Deleted(h, rec, outs))
      modifies this, AllBalances.Values
      ensures Holds(m - MarkedCoins(h, rec, outs)) && fresh(AllBalances.Values - old(AllBalances.Values))
    {
      hide Holds;
      assert m - FirstMarked(h, rec, outs, 0) == m;
      for vout := 0 to |rec.outs|
        invariant Holds(m - FirstMarked(h, rec, outs, vout)) && fresh(AllBalances.Values - old(AllBalances.Values))
      {
        FirstMarkedNext(m, h, rec, outs, vout);
        if outs[vout] && rec.outs[vout].Some? {
          DelOutput(OutPoint(h, vout), rec.outs[vout].value, m - FirstMarked(h, rec, outs, vout));
        }
      }
      assert FirstMarked(h, rec, outs, |rec.outs|) == MarkedCoins(h, rec, outs);
    }

    /** The wallet is told everything the database does, in order. */
    method Follow(evs: seq<Event>, ghost m: Coins)
      requires Holds(m) && ValidRun(m, evs)
      modifies this, AllBalances.Values
      ensures Holds(Replay(m, evs))
    {
      hide Holds, ValidEvent, Notify;
      assert evs[..0] == [];
      for i := 0 to |evs|
        invariant ValidRun(m, evs[..i]) && Holds(Replay(m, evs[..i])) && fresh(AllBalances.Values - old(AllBalances.Values))
      {
        RunPrefix(m, evs, i + 1);
        assert evs[..i + 1] == evs[..i] + [evs[i]];
        ReplayOne(m, evs[..i], evs[i]);
        Tell(evs[i], Replay(m, evs[..i]));
      }
      assert evs[..|evs|] == evs;
    }

    /** TxNotifyAdd and TxNotifyDel. */
    method Tell(e: Event, ghost m: Coins)
      requires Holds(m) && ValidEvent(m, e)
      modifies this, AllBalances.Values
      ensures Holds(Notify(m, e)) && fresh(AllBalances.Values - old(AllBalances.Values))
    {
      match e
      case Added(h, rec) => NewUTXO(h, rec, m);
      case Deleted(h, rec, marks) => AllDelUtxos(h, rec, marks, m);
    }

    /**
     * LoadBalance: the index made from nothing but the records. tick gives the answers of FetchingBalanceTick, if there
     * is one; a yes after any record gives the index up.
     */
    method LoadBalance(db: Records, tick: Option<nat -> bool>, ghost m: Coins) returns (aborted: bool)
      requires Agrees(db, m)
      modifies this, AllBalances.Values
      ensures aborted <==> !Quiet(tick, |db|)
      ensures if aborted then AllBalances == map[] else Holds(m)
    {
      hide Holds, Under, Agrees, Distinct;
      AllUnder(db, m);
      AllBalances := map[];
      NothingHeld();
      var keys := Seqs.AnyOrder(db.Keys);
      assert Elems(keys[..0]) == {};
      for i := 0 to |keys|
        invariant Holds(Under(m, Elems(keys[..i]))) && fresh(AllBalances.Values) && Quiet(tick, i)
      {
        var k := keys[i];
        ElemsNext(keys, i);
        NewKey(keys, i);
        UnderNext(db, m, Elems(keys[..i]), k);
        NewUTXO(k, db[k], Under(m, Elems(keys[..i])));
        if tick.Some? && tick.value(i) {
          AllBalances := map[];
          return true;
        }
      }
      assert keys[..|keys|] == keys;
      aborted := false;
    }

    static lemma NewKey(keys: seq<TxId>, i: nat)
      requires Distinct(keys) && i < |keys|
      ensures keys[i] in Elems(keys) && keys[i] !in Elems(keys[..i])
    {
    }

    /** None of the first n answers is a yes. */
    static ghost predicate Quiet(tick: Option<nat -> bool>, n: nat) {
      tick.Some? ==> forall i: nat :: i < n ==> !tick.value(i)
    }

    lemma NothingHeld()
      requires AllBalances == map[]
      ensures Holds(map[])
    {
    }
  }

  /** The kept index and one made from scratch have the same addresses, the same listings and the same values. */
  lemma IndexIsDetermined(kept: Balances, scratch: Balances, m: Coins)
    requires kept.Holds(m) && scratch.Holds(m) && kept.minVal == scratch.minVal
    ensures kept.AllBalances.Keys == scratch.AllBalances.Keys
    ensures forall a :: a in kept.AllBalances ==>
      kept.AllBalances[a].Listed() == scratch.AllBalances[a].Listed() && kept.AllBalances[a].Value == scratch.AllBalances[a].Value
  {
  }
}
