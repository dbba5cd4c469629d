/** The unspent-output database: committing a block's changes from concurrent goroutines, and undoing a block. */
module UnspentDb {
  import opened Utxo
  import opened CommitTxs

  /** The calls of NotifyTxAdd and NotifyTxDel. */
  datatype Event = Added(h: TxId, rec: Rec) | Deleted(h: TxId, rec: Rec, marks: seq<bool>)

  function Prune(rec: Rec, marks: seq<bool>): Rec
    requires |marks| == |rec.outs|
  {
    rec.(outs := seq(|rec.outs|, i requires 0 <= i < |rec.outs| => if marks[i] then None else rec.outs[i]))
  }

  /** The changes of a block can be applied to db: marks fit their records, and new ids are new. */
  ghost predicate Applicable(db: Records, adds: Records, deled: Marks) {
    && adds.Keys !! db.Keys
    && deled.Keys <= db.Keys
    && forall h :: h in deled ==> |deled[h]| == |db[h].outs|
  }

  /** What every schedule must end with, record by record. */
  ghost function Target(db: Records, adds: Records, deled: Marks, h: TxId): Option<Rec>
    requires Applicable(db, adds, deled)
  {
    if h in adds then Some(adds[h])
    else if h in deled then if Live(Prune(db[h], deled[h])) then Some(Prune(db[h], deled[h])) else None
    else Get(db, h)
  }

  /** db' is db with the changes applied. */
  ghost predicate Applied(db: Records, adds: Records, deled: Marks, db': Records) {
    Applicable(db, adds, deled) && forall h :: Get(db', h) == Target(db, adds, deled, h)
  }

  /** UnwindBufLen, which nothing changes. */
  const UNWIND_BUF_LEN := 2560

  class UnspentDB {
    var HashMap: Records
    var LastBlockHash: nat
    var LastBlockHeight: nat
    var undoFiles: map<nat, Records>
    ghost var notified: seq<Event>

    /** NewUnspentDb, with nothing on disk. */
    constructor ()
      ensures HashMap == map[] && LastBlockHeight == 0 && undoFiles == map[] && notified == []
    {
      HashMap, LastBlockHash, LastBlockHeight := map[], 0, 0;
      undoFiles, notified := map[], [];
    }

    /** del's outcome for one record. */
    method StorePruned(h: TxId, rec: Rec, marks: seq<bool>)
      requires |marks| == |rec.outs|
      modifies `HashMap
      ensures HashMap == if Live(Prune(rec, marks)) then old(HashMap)[h := Prune(rec, marks)] else old(HashMap) - {h}
    {
      var outs := rec.outs;
      var anyout := false;
      for i := 0 to |marks|
        invariant |outs| == |rec.outs|
        invariant forall k :: 0 <= k < |outs| ==> outs[k] == if k < i && marks[k] then None else rec.outs[k]
        invariant anyout <==> exists k :: 0 <= k < i && !marks[k] && rec.outs[k].Some?
      {
        if marks[i] {
          outs := outs[i := None];
        } else if !anyout && outs[i].Some? {
          anyout := true;
        }
      }
      assert outs == Prune(rec, marks).outs;
      if anyout {
        var k :| 0 <= k < |marks| && !marks[k] && rec.outs[k].Some?;
        assert Prune(rec, marks).outs[k].Some?;
        HashMap := HashMap[h := rec.(outs := outs)];
      } else {
        HashMap := HashMap - {h};
      }
    }

    /**
     * commit: the main thread spawns a goroutine per record while those already spawned take their steps in any
     * order. A deleting goroutine reads its record under one lock (reading) and stores it under another (writing).
     */
    method Commit(adds: Records, deled: Marks, ghost m: Coins)
      requires Applicable(HashMap, adds, deled) && Agrees(HashMap, m)
      modifies `HashMap, `notified
      ensures Applied(old(HashMap), adds, deled, HashMap)
      ensures Notified(old(notified), notified, m, HashMap)
    {
      hide Stored, Told, Replay, ValidRun, Agrees, Applicable, Target, Sched.Fits, Sched.Pending, Sched.Untold, Sched.Steps, Sched.Only, Prune;
      ghost var db, before := HashMap, notified;
      var s := Sched(adds.Keys, {}, deled.Keys, {}, map[]);
      ghost var evs: seq<Event> := [];
      NothingDone(db, adds, deled, m);
      assert notified == before + [];
      while !s.Done()
        invariant notified == before + evs
        invariant s.Fits(db, adds, deled)
        invariant Stored(db, adds, deled, s.Pending(), HashMap)
        invariant Told(db, adds, deled, s.Untold(), m, evs)
        decreases s.Steps()
      {
        if
        case s.toAdd != {} =>
          var h :| h in s.toAdd;
          s.Places(db, adds, deled, h);
          s.SpawnAddSets(db, adds, deled, h);
          TellAdd(db, adds, deled, s.Untold(), m, evs, h);
          notified := notified + [Added(h, adds[h])];
          evs := evs + [Added(h, adds[h])];
          s := s.SpawnAdd(h);
        case s.toAdd == {} && s.toDel != {} =>
          var h :| h in s.toDel;
          s.Places(db, adds, deled, h);
          s.SpawnDelSets(db, adds, deled, h);
          s := s.SpawnDel(h);
        case s.adding != {} =>
          var h :| h in s.adding;
          s.Places(db, adds, deled, h);
          s.StoreAddSets(db, adds, deled, h);
          TargetOfAdd(db, adds, deled, h);
          StoreOne(db, adds, deled, s.Pending(), HashMap, h, Some(adds[h]));
          HashMap := HashMap[h := adds[h]];
          s := s.StoreAdd(h);
        case s.reading != {} =>
          var h :| h in s.reading;
          s.Places(db, adds, deled, h);
          s.ReadDelSets(db, adds, deled, h);
          ReadOne(db, adds, deled, s.Pending(), HashMap, h);
          if h in HashMap {
            TellDel(db, adds, deled, s.Untold(), m, evs, h);
            notified := notified + [Deleted(h, HashMap[h], deled[h])];
            evs := evs + [Deleted(h, HashMap[h], deled[h])];
            s := s.ReadDel(h, HashMap[h]);
          } else {
            s := s.(reading := s.reading - {h});
          }
        case s.writing != map[] =>
          var h :| h in s.writing;
          s.Places(db, adds, deled, h);
          s.StoreDelSets(db, adds, deled, h);
          TargetOfDel(db, adds, deled, h);
          StoreOne(db, adds, deled, s.Pending(), HashMap, h, Target(db, adds, deled, h));
          StorePruned(h, s.writing[h], deled[h]);
          s := s.StoreDel(h);
      }
      s.Finished();
      AllDone(db, adds, deled, HashMap, m, evs);
      assert notified[|before|..] == evs && notified[..|before|] == before;
    }

    /** CommitBlockTxs: writes the undo file, applies the changes and moves to the new block. */
    method CommitBlockTxs(changes: BlockChanges, blhash: nat, ghost m: Coins)
      requires Applicable(HashMap, changes.addList, changes.deledTxs) && Agrees(HashMap, m)
      modifies this
      ensures Applied(old(HashMap), changes.addList, changes.deledTxs, HashMap)
      ensures Notified(old(notified), notified, m, HashMap)
      ensures LastBlockHash == blhash && LastBlockHeight == changes.height
      ensures undoFiles == (if changes.undoData.Some? then old(undoFiles)[changes.height := changes.undoData.value] else old(undoFiles))
                         - (if changes.height > UNWIND_BUF_LEN then {changes.height - UNWIND_BUF_LEN} else {})
    {
      if changes.undoData.Some? {
        undoFiles := undoFiles[changes.height := changes.undoData.value];
      }
      Commit(changes.addList, changes.deledTxs, m);
      LastBlockHash := blhash;
      LastBlockHeight := changes.height;
      if changes.height > UNWIND_BUF_LEN {
        undoFiles := undoFiles - {changes.height - UNWIND_BUF_LEN};
      }
    }

    /** del, called for one record at a time. */
    method Del(h: TxId, marks: seq<bool>, ghost m: Coins)
      requires h in HashMap ==> |marks| == |HashMap[h].outs|
      requires Agrees(HashMap, m)
      modifies `HashMap, `notified
      ensures Notified(old(notified), notified, m, HashMap)
      ensures h !in old(HashMap) ==> HashMap == old(HashMap)
      ensures h in old(HashMap) ==>
        var r := Prune(old(HashMap)[h], marks); HashMap == if Live(r) then old(HashMap)[h := r] else old(HashMap) - {h}
    {
      ghost var db, before := HashMap, notified;
      if h !in HashMap {
        assert notified[|before|..] == [];
        return;
      }
      var rec := HashMap[h];
      notified := notified + [Deleted(h, rec, marks)];
      StorePruned(h, rec, marks);
      assert notified[|before|..] == [] + [Deleted(h, rec, marks)];
      ReplayOne(m, [], Deleted(h, rec, marks));
      DelAgrees(db, m, h, marks);
    }

    /**
     * UndoBlockTxs: deletes the block's outputs and puts back what its undo file holds. The records come out as
     * they were before the block was committed.
     */
    method UndoBlockTxs(bl: Block, newhash: nat, ghost db: Records, ghost adds: Records, ghost deled: Marks, ghost m: Coins)
      requires CanUndo(bl, db, adds, deled, HashMap) && Agrees(HashMap, m)
      requires LastBlockHeight in undoFiles && UndoFits(db, deled, Some(undoFiles[LastBlockHeight])) && LastBlockHeight > 0
      modifies this
      ensures HashMap == db
      ensures Notified(old(notified), notified, m, HashMap)
      ensures LastBlockHash == newhash && LastBlockHeight == old(LastBlockHeight) - 1
      ensures undoFiles == old(undoFiles) - {old(LastBlockHeight)}
    {
      hide Notified, Agrees, CanUndo, UndoFits, Without, PutBack;
      ghost var before := notified;
      ghost var cur := m;
      UndoStart(bl, db, adds, deled, HashMap, m, notified);
      for i := 0 to |bl.txs|
        invariant Without(bl, i, db, adds, deled, HashMap)
        invariant Agrees(HashMap, cur) && Notified(before, notified, m, HashMap)
        invariant before <= notified && cur == Replay(m, notified[|before|..])
        invariant undoFiles == old(undoFiles) && LastBlockHeight == old(LastBlockHeight)
      {
        var tx := bl.txs[i];
        var lst := seq(|tx.outs|, _ => true);
        WithoutStep(bl, i, db, adds, deled, HashMap);
        ghost var mid, was := notified, HashMap;
        Del(tx.hash, lst, cur);
        NotifiedThen(before, mid, notified, m, was, HashMap);
        cur := Replay(m, notified[|before|..]);
      }
      var file := undoFiles[LastBlockHeight];
      AddbackStart(bl, db, adds, deled, HashMap, file);
      var todo := file.Keys;
      while todo != {}
        invariant todo <= file.Keys && PutBack(db, deled, todo, HashMap)
        invariant Agrees(HashMap, cur) && Notified(before, notified, m, HashMap)
        invariant before <= notified && cur == Replay(m, notified[|before|..])
        invariant undoFiles == old(undoFiles) && LastBlockHeight == old(LastBlockHeight)
      {
        var h :| h in todo;
        var rec := file[h];
        ghost var mid, was := notified, HashMap;
        PutBackStep(db, deled, todo, HashMap, file, h, cur, notified);
        notified := notified + [Added(h, rec)];
        if h in HashMap {
          var oldrec := HashMap[h];
          rec := Merge(rec, oldrec);
        }
        HashMap := HashMap[h := rec];
        NotifiedThen(before, mid, notified, m, was, HashMap);
        cur := Replay(m, notified[|before|..]);
        todo := todo - {h};
      }
      PutBackAll(db, deled, HashMap);
      undoFiles := undoFiles - {LastBlockHeight};
      LastBlockHeight := LastBlockHeight - 1;
      LastBlockHash := newhash;
    }
  }

  /** The loop that fills the holes of an undo record from the record still in the database. */
  function Merge(rec: Rec, oldrec: Rec): Rec
    requires |rec.outs| == |oldrec.outs|
  {
    rec.(outs := seq(|rec.outs|, a requires 0 <= a < |rec.outs| => if rec.outs[a].None? then oldrec.outs[a] else rec.outs[a]))
  }

  /** The goroutines of a commit: not spawned yet, spawned, and holding the record they read. */
  datatype Sched = Sched(toAdd: set<TxId>, adding: set<TxId>, toDel: set<TxId>, reading: set<TxId>, writing: map<TxId, Rec>) {
    predicate Done() {
      toAdd == {} && adding == {} && toDel == {} && reading == {} && writing == map[]
    }

    /** Nothing has been stored for these yet. */
    ghost function Pending(): set<TxId> {
      toAdd + adding + toDel + reading + writing.Keys
    }

    /** Nothing has been notified for these yet. */
    ghost function Untold(): set<TxId> {
      toAdd + toDel + reading
    }

    ghost function Steps(): nat {
      2 * |toAdd| + |adding| + 3 * |toDel| + 2 * |reading| + |writing.Keys|
    }

    ghost predicate Fits(db: Records, adds: Records, deled: Marks) {
      && adds.Keys !! deled.Keys && deled.Keys <= db.Keys
      && toAdd + adding <= adds.Keys && toAdd !! adding
      && toDel + reading + writing.Keys <= deled.Keys && toDel !! reading !! writing.Keys
      && (forall h :: h in deled ==> |deled[h]| == |db[h].outs|)
      && (forall h :: h in writing ==> writing[h] == db[h])
    }

    function SpawnAdd(h: TxId): Sched {
      this.(toAdd := toAdd - {h}, adding := adding + {h})
    }

    function SpawnDel(h: TxId): Sched {
      this.(toDel := toDel - {h}, reading := reading + {h})
    }

    function StoreAdd(h: TxId): Sched {
      this.(adding := adding - {h})
    }

    function ReadDel(h: TxId, rec: Rec): Sched {
      this.(reading := reading - {h}, writing := writing[h := rec])
    }

    function StoreDel(h: TxId): Sched {
      this.(writing := writing - {h})
    }

    lemma Finished()
      requires Done()
      ensures Pending() == {} && Untold() == {}
    {
    }

    /** Each goroutine is at one place only. */
    ghost predicate Only(h: TxId, place: nat) {
      (h in toAdd <==> place == 0) && (h in adding <==> place == 1) && (h in toDel <==> place == 2)
      && (h in reading <==> place == 3) && (h in writing <==> place == 4)
    }

    lemma Places(db: Records, adds: Records, deled: Marks, h: TxId)
      requires Fits(db, adds, deled)
      ensures h in toAdd ==> h in adds && Only(h, 0)
      ensures h in adding ==> h in adds && Only(h, 1)
      ensures h in toDel ==> h in deled && Only(h, 2)
      ensures h in reading ==> h in deled && Only(h, 3)
      ensures h in writing ==> h in deled && Only(h, 4) && h in db && writing[h] == db[h]
      ensures h in deled ==> h in db && |deled[h]| == |db[h].outs|
    {
    }

    lemma SpawnAddSets(db: Records, adds: Records, deled: Marks, h: TxId)
      requires Fits(db, adds, deled) && Only(h, 0)
      ensures SpawnAdd(h).Fits(db, adds, deled) && SpawnAdd(h).Steps() < Steps()
      ensures SpawnAdd(h).Pending() == Pending() && SpawnAdd(h).Untold() == Untold() - {h} && h in Untold()
    {
      hide Fits, Steps;
      SpawnAddFits(db, adds, deled, h);
      SpawnAddSteps(h);
      SameSet(SpawnAdd(h).Pending(), Pending());
      SameSet(SpawnAdd(h).Untold(), Untold() - {h});
    }

    lemma SpawnAddFits(db: Records, adds: Records, deled: Marks, h: TxId)
      requires Fits(db, adds, deled) && h in toAdd
      ensures SpawnAdd(h).Fits(db, adds, deled)
    {
    }

    lemma SpawnAddSteps(h: TxId)
      requires Only(h, 0)
      ensures SpawnAdd(h).Steps() < Steps()
    {
    }

    lemma SpawnDelSets(db: Records, adds: Records, deled: Marks, h: TxId)
      requires Fits(db, adds, deled) && Only(h, 2)
      ensures SpawnDel(h).Fits(db, adds, deled) && SpawnDel(h).Steps() < Steps()
      ensures SpawnDel(h).Pending() == Pending() && SpawnDel(h).Untold() == Untold()
    {
      hide Fits, Steps;
      SpawnDelFits(db, adds, deled, h);
      SpawnDelSteps(h);
      SameSet(SpawnDel(h).Pending(), Pending());
      SameSet(SpawnDel(h).Untold(), Untold());
    }

    lemma SpawnDelFits(db: Records, adds: Records, deled: Marks, h: TxId)
      requires Fits(db, adds, deled) && h in toDel
      ensures SpawnDel(h).Fits(db, adds, deled)
    {
    }

    lemma SpawnDelSteps(h: TxId)
      requires Only(h, 2)
      ensures SpawnDel(h).Steps() < Steps()
    {
    }

    lemma StoreAddSets(db: Records, adds: Records, deled: Marks, h: TxId)
      requires Fits(db, adds, deled) && Only(h, 1)
      ensures StoreAdd(h).Fits(db, adds, deled) && StoreAdd(h).Steps() < Steps()
      ensures StoreAdd(h).Pending() == Pending() - {h} && StoreAdd(h).Untold() == Untold() && h in Pending()
    {
      hide Fits, Steps;
      StoreAddFits(db, adds, deled, h);
      StoreAddSteps(h);
      SameSet(StoreAdd(h).Pending(), Pending() - {h});
      SameSet(StoreAdd(h).Untold(), Untold());
    }

    lemma StoreAddFits(db: Records, adds: Records, deled: Marks, h: TxId)
      requires Fits(db, adds, deled) && h in adding
      ensures StoreAdd(h).Fits(db, adds, deled)
    {
    }

    lemma StoreAddSteps(h: TxId)
      requires Only(h, 1)
      ensures StoreAdd(h).Steps() < Steps()
    {
    }

    lemma ReadDelSets(db: Records, adds: Records, deled: Marks, h: TxId)
      requires Fits(db, adds, deled) && Only(h, 3) && h in db
      ensures ReadDel(h, db[h]).Fits(db, adds, deled) && ReadDel(h, db[h]).Steps() < Steps()
      ensures ReadDel(h, db[h]).Pending() == Pending() && ReadDel(h, db[h]).Untold() == Untold() - {h} && h in Untold() && h in Pending()
    {
      hide Fits, Steps;
      ReadDelFits(db, adds, deled, h);
      ReadDelSteps(db, h);
      assert ReadDel(h, db[h]).writing.Keys == writing.Keys + {h};
      SameSet(ReadDel(h, db[h]).Pending(), Pending());
      SameSet(ReadDel(h, db[h]).Untold(), Untold() - {h});
    }

    lemma ReadDelFits(db: Records, adds: Records, deled: Marks, h: TxId)
      requires Fits(db, adds, deled) && h in reading && h in db
      ensures ReadDel(h, db[h]).Fits(db, adds, deled)
    {
      assert ReadDel(h, db[h]).writing.Keys == writing.Keys + {h};
    }

    lemma ReadDelSteps(db: Records, h: TxId)
      requires Only(h, 3) && h in db
      ensures ReadDel(h, db[h]).Steps() < Steps()
    {
      assert ReadDel(h, db[h]).writing.Keys == writing.Keys + {h};
    }

    lemma StoreDelSets(db: Records, adds: Records, deled: Marks, h: TxId)
      requires Fits(db, adds, deled) && Only(h, 4)
      ensures StoreDel(h).Fits(db, adds, deled) && StoreDel(h).Steps() < Steps()
      ensures StoreDel(h).Pending() == Pending() - {h} && StoreDel(h).Untold() == Untold() && h in Pending()
    {
      hide Fits, Steps;
      StoreDelFits(db, adds, deled, h);
      StoreDelSteps(h);
      assert StoreDel(h).writing.Keys == writing.Keys - {h};
      SameSet(StoreDel(h).Pending(), Pending() - {h});
      SameSet(StoreDel(h).Untold(), Untold());
    }

    lemma StoreDelFits(db: Records, adds: Records, deled: Marks, h: TxId)
      requires Fits(db, adds, deled) && h in writing
      ensures StoreDel(h).Fits(db, adds, deled)
    {
      assert StoreDel(h).writing.Keys == writing.Keys - {h};
    }

    lemma StoreDelSteps(h: TxId)
      requires Only(h, 4)
      ensures StoreDel(h).Steps() < Steps()
    {
      assert StoreDel(h).writing.Keys == writing.Keys - {h};
    }
  }

  lemma SameSet(a: set<TxId>, b: set<TxId>)
    requires forall k :: k in a <==> k in b
    ensures a == b
  {
  }

  /** Pending records are as before, the others as they will be. */
  ghost predicate Stored(db: Records, adds: Records, deled: Marks, pending: set<TxId>, now: Records) {
    Applicable(db, adds, deled) && forall h :: Get(now, h) == if h in pending then Get(db, h) else Target(db, adds, deled, h)
  }

  lemma StoreOne(db: Records, adds: Records, deled: Marks, pending: set<TxId>, now: Records, h: TxId, r: Option<Rec>)
    requires Stored(db, adds, deled, pending, now) && h in pending && r == Target(db, adds, deled, h)
    ensures Stored(db, adds, deled, pending - {h}, if r.Some? then now[h := r.value] else now - {h})
  {
    hide Target, Applicable;
  }

  lemma TargetOfAdd(db: Records, adds: Records, deled: Marks, h: TxId)
    requires Applicable(db, adds, deled) && h in adds
    ensures Target(db, adds, deled, h) == Some(adds[h])
  {
  }

  lemma TargetOfDel(db: Records, adds: Records, deled: Marks, h: TxId)
    requires Applicable(db, adds, deled) && h in deled
    ensures h in db && |deled[h]| == |db[h].outs|
    ensures var r := Prune(db[h], deled[h]); Target(db, adds, deled, h) == if Live(r) then Some(r) else None
  {
  }

  lemma ReadOne(db: Records, adds: Records, deled: Marks, pending: set<TxId>, now: Records, h: TxId)
    requires Stored(db, adds, deled, pending, now) && h in pending && h in db
    ensures h in now && now[h] == db[h]
  {
    hide Target, Applicable;
    assert Get(now, h) == Get(db, h);
  }

  // Notifications, on coins.

  function RecCoins(h: TxId, rec: Rec): Coins {
    map op | op in Points(h, |rec.outs|) && RecCoin(rec, op.vout).Some? :: RecCoin(rec, op.vout).value
  }

  function MarkedCoins(h: TxId, rec: Rec, marks: seq<bool>): set<OutPoint> {
    set op | op in Points(h, |rec.outs|) && op.vout < |marks| && marks[op.vout] && RecCoin(rec, op.vout).Some?
  }

  ghost function Notify(m: Coins, e: Event): Coins {
    match e
    case Added(h, rec) => m + RecCoins(h, rec)
    case Deleted(h, rec, marks) => m - MarkedCoins(h, rec, marks)
  }

  /** A notification tells something new: added coins were not there, deleted ones were. */
  ghost predicate ValidEvent(m: Coins, e: Event) {
    match e
    case Added(h, rec) => RecCoins(h, rec).Keys !! m.Keys
    case Deleted(h, rec, marks) =>
      |marks| == |rec.outs| && forall op :: op in MarkedCoins(h, rec, marks) ==> Get(m, op) == RecCoin(rec, op.vout)
  }

  ghost function Replay(m: Coins, evs: seq<Event>): Coins {
    if evs == [] then m else Notify(Replay(m, evs[..|evs| - 1]), evs[|evs| - 1])
  }

  ghost predicate ValidRun(m: Coins, evs: seq<Event>) {
    evs == [] || (ValidRun(m, evs[..|evs| - 1]) && ValidEvent(Replay(m, evs[..|evs| - 1]), evs[|evs| - 1]))
  }

  /** The new notifications lead from the coins m to the coins of the records. */
  ghost predicate Notified(before: seq<Event>, now: seq<Event>, m: Coins, db: Records) {
    && before <= now
    && ValidRun(m, now[|before|..])
    && Agrees(db, Replay(m, now[|before|..]))
  }

  lemma ReplayOne(m: Coins, evs: seq<Event>, e: Event)
    ensures Replay(m, evs + [e]) == Notify(Replay(m, evs), e)
    ensures ValidRun(m, evs + [e]) <==> ValidRun(m, evs) && ValidEvent(Replay(m, evs), e)
  {
    assert (evs + [e])[..|evs|] == evs;
  }

  /** The coin at op once its record has been notified. */
  ghost function TargetCoin(db: Records, adds: Records, deled: Marks, m: Coins, op: OutPoint): Option<Coin>
    requires Applicable(db, adds, deled)
  {
    if op.hash in adds then RecCoin(adds[op.hash], op.vout)
    else if op.hash in deled then RecCoin(Prune(db[op.hash], deled[op.hash]), op.vout)
    else Get(m, op)
  }

  /** The coins as the notifications so far tell them. */
  ghost predicate Told(db: Records, adds: Records, deled: Marks, untold: set<TxId>, m: Coins, evs: seq<Event>) {
    && Applicable(db, adds, deled) && Agrees(db, m) && ValidRun(m, evs)
    && forall op :: Get(Replay(m, evs), op) == if op.hash in untold then Get(m, op) else TargetCoin(db, adds, deled, m, op)
  }

  lemma NothingDone(db: Records, adds: Records, deled: Marks, m: Coins)
    requires Applicable(db, adds, deled) && Agrees(db, m)
    ensures var s := Sched(adds.Keys, {}, deled.Keys, {}, map[]);
            && s.Fits(db, adds, deled) && Stored(db, adds, deled, s.Pending(), db) && Told(db, adds, deled, s.Untold(), m, [])
  {
  }

  lemma TellAdd(db: Records, adds: Records, deled: Marks, untold: set<TxId>, m: Coins, evs: seq<Event>, h: TxId)
    requires Told(db, adds, deled, untold, m, evs) && h in untold && h in adds
    ensures Told(db, adds, deled, untold - {h}, m, evs + [Added(h, adds[h])])
  {
    hide ValidRun, Replay;
    ReplayOne(m, evs, Added(h, adds[h]));
    forall op: OutPoint | op.hash == h
      ensures Get(m, op) == None
    {
      assert UnspentGet(db, op) == Get(m, op);
    }
    var cur, c := Replay(m, evs), RecCoins(h, adds[h]);
    forall op: OutPoint
      ensures Get(cur + c, op) == if op.hash in untold - {h} then Get(m, op) else TargetCoin(db, adds, deled, m, op)
    {
      assert Get(cur, op) == if op.hash in untold then Get(m, op) else TargetCoin(db, adds, deled, m, op);
    }
  }

  lemma TellDel(db: Records, adds: Records, deled: Marks, untold: set<TxId>, m: Coins, evs: seq<Event>, h: TxId)
    requires Told(db, adds, deled, untold, m, evs) && h in untold && h in deled
    ensures h in db && |deled[h]| == |db[h].outs|
    ensures Told(db, adds, deled, untold - {h}, m, evs + [Deleted(h, db[h], deled[h])])
  {
    hide ValidRun, Replay;
    ReplayOne(m, evs, Deleted(h, db[h], deled[h]));
    var cur, c := Replay(m, evs), MarkedCoins(h, db[h], deled[h]);
    forall op: OutPoint
      ensures Get(cur - c, op) == if op.hash in untold - {h} then Get(m, op) else TargetCoin(db, adds, deled, m, op)
      ensures op in c ==> Get(cur, op) == RecCoin(db[h], op.vout)
    {
      assert Get(cur, op) == if op.hash in untold then Get(m, op) else TargetCoin(db, adds, deled, m, op);
      assert UnspentGet(db, op) == Get(m, op);
    }
  }

  lemma AllDone(db: Records, adds: Records, deled: Marks, now: Records, m: Coins, evs: seq<Event>)
    requires Stored(db, adds, deled, {}, now) && Told(db, adds, deled, {}, m, evs)
    ensures Applied(db, adds, deled, now)
    ensures ValidRun(m, evs) && Agrees(now, Replay(m, evs))
  {
    hide ValidRun, Replay;
    forall op: OutPoint
      ensures UnspentGet(now, op) == Get(Replay(m, evs), op)
    {
      assert Get(now, op.hash) == Target(db, adds, deled, op.hash);
      assert UnspentGet(db, op) == Get(m, op);
    }
  }

  // Undoing.

  lemma DelAgrees(db: Records, m: Coins, h: TxId, marks: seq<bool>)
    requires Agrees(db, m) && h in db && |marks| == |db[h].outs|
    ensures ValidEvent(m, Deleted(h, db[h], marks))
    ensures var r := Prune(db[h], marks); Agrees(if Live(r) then db[h := r] else db - {h}, Notify(m, Deleted(h, db[h], marks)))
  {
    var r := Prune(db[h], marks);
    var db' := if Live(r) then db[h := r] else db - {h};
    forall op: OutPoint
      ensures UnspentGet(db', op) == Get(m - MarkedCoins(h, db[h], marks), op)
      ensures op.hash == h ==> Get(m, op) == RecCoin(db[h], op.vout)
    {
      assert UnspentGet(db, op) == Get(m, op);
      if op.hash == h {
        PrunedCoin(db[h], marks, op.vout);
      }
    }
  }

  lemma PrunedCoin(rec: Rec, marks: seq<bool>, v: nat)
    requires |marks| == |rec.outs|
    ensures RecCoin(Prune(rec, marks), v) == if v < |marks| && marks[v] then None else RecCoin(rec, v)
    ensures !Live(Prune(rec, marks)) ==> RecCoin(Prune(rec, marks), v) == None
  {
    if v < |marks| && RecCoin(Prune(rec, marks), v).Some? {
      assert Prune(rec, marks).outs[v].Some?;
    }
  }

  /** A run of notifications followed by another. */
  lemma {:induction false} ReplayThen(m: Coins, evs: seq<Event>, more: seq<Event>)
    ensures Replay(m, evs + more) == Replay(Replay(m, evs), more)
    ensures ValidRun(m, evs) && ValidRun(Replay(m, evs), more) ==> ValidRun(m, evs + more)
  {
    if more == [] {
      assert evs + more == evs;
    } else {
      var init, e := more[..|more| - 1], more[|more| - 1];
      ReplayThen(m, evs, init);
      assert evs + more == (evs + init) + [e] && more == init + [e];
      ReplayOne(m, evs + init, e);
      ReplayOne(Replay(m, evs), init, e);
    }
  }

  /** What follows a part of a run is a run of its own: one can start listening at any time. */
  lemma {:induction false} RunSuffix(m: Coins, evs: seq<Event>, more: seq<Event>)
    requires ValidRun(m, evs + more)
    ensures ValidRun(m, evs) && ValidRun(Replay(m, evs), more) && Replay(Replay(m, evs), more) == Replay(m, evs + more)
  {
    if more == [] {
      assert evs + more == evs;
    } else {
      var init, e := more[..|more| - 1], more[|more| - 1];
      assert evs + more == (evs + init) + [e] && more == init + [e];
      ReplayOne(m, evs + init, e);
      RunSuffix(m, evs, init);
      ReplayOne(Replay(m, evs), init, e);
    }
  }

  lemma NotifiedThen(before: seq<Event>, mid: seq<Event>, now: seq<Event>, m: Coins, midDb: Records, db: Records)
    requires before <= mid && Notified(before, mid, m, midDb)
    requires Notified(mid, now, Replay(m, mid[|before|..]), db)
    ensures before <= now && Notified(before, now, m, db)
    ensures Agrees(db, Replay(m, now[|before|..]))
  {
    assert now[|before|..] == mid[|before|..] + now[|mid|..];
    ReplayThen(m, mid[|before|..], now[|mid|..]);
  }

  /** now is what committing bl's changes to db has left, and every record bl added is one of its transactions'. */
  ghost predicate CanUndo(bl: Block, db: Records, adds: Records, deled: Marks, now: Records) {
    && Applied(db, adds, deled, now) && MarksFit(db, deled)
    && FreshIds(db, bl.txs)
    && adds.Keys <= Ids(bl.txs)
    && forall i :: 0 <= i < |bl.txs| && bl.txs[i].hash in adds ==> |adds[bl.txs[i].hash].outs| == |bl.txs[i].outs|
  }

  /** The outputs of the first i transactions are gone again. */
  ghost predicate Without(bl: Block, i: nat, db: Records, adds: Records, deled: Marks, now: Records)
    requires i <= |bl.txs|
  {
    && Applicable(db, adds, deled) && MarksFit(db, deled) && FreshIds(db, bl.txs) && adds.Keys <= Ids(bl.txs)
    && (forall k :: 0 <= k < |bl.txs| && bl.txs[k].hash in adds ==> |adds[bl.txs[k].hash].outs| == |bl.txs[k].outs|)
    && forall h :: Get(now, h) == if h in Ids(bl.txs[..i]) then None else Target(db, adds, deled, h)
  }

  lemma UndoStart(bl: Block, db: Records, adds: Records, deled: Marks, now: Records, m: Coins, evs: seq<Event>)
    requires CanUndo(bl, db, adds, deled, now) && Agrees(now, m)
    ensures Without(bl, 0, db, adds, deled, now) && Notified(evs, evs, m, now) && Replay(m, evs[|evs|..]) == m
  {
    assert evs[|evs|..] == [];
  }

  lemma WithoutStep(bl: Block, i: nat, db: Records, adds: Records, deled: Marks, now: Records)
    requires i < |bl.txs| && Without(bl, i, db, adds, deled, now)
    ensures var tx := bl.txs[i]; var lst := seq(|tx.outs|, _ => true);
            && (tx.hash in now ==> |now[tx.hash].outs| == |lst| && !Live(Prune(now[tx.hash], lst)))
            && Without(bl, i + 1, db, adds, deled, now - {tx.hash})
            && (tx.hash !in now ==> now - {tx.hash} == now)
  {
    hide MarksFit;
    var tx := bl.txs[i];
    IdsStep(db, bl.txs, i);
    hide FreshIds, Ids;
    assert Get(now, tx.hash) == Target(db, adds, deled, tx.hash);
  }

  /** The undo records of todo are still to be put back; everything else is as before the block. */
  ghost predicate PutBack(db: Records, deled: Marks, todo: set<TxId>, now: Records) {
    && todo <= deled.Keys && MarksFit(db, deled)
    && forall h :: Get(now, h) ==
         if h in todo then if Live(Prune(db[h], deled[h])) then Some(Prune(db[h], deled[h])) else None else Get(db, h)
  }

  lemma AddbackStart(bl: Block, db: Records, adds: Records, deled: Marks, now: Records, file: Records)
    requires Without(bl, |bl.txs|, db, adds, deled, now) && UndoFits(db, deled, Some(file))
    ensures PutBack(db, deled, file.Keys, now)
  {
    assert bl.txs[..|bl.txs|] == bl.txs;
    forall h
      ensures Get(now, h) ==
        if h in file then if Live(Prune(db[h], deled[h])) then Some(Prune(db[h], deled[h])) else None else Get(db, h)
    {
      if h in Ids(bl.txs) {
        assert h !in db;
      }
      assert Get(now, h) == if h in Ids(bl.txs) then None else Target(db, adds, deled, h);
    }
  }

  lemma PutBackStep(db: Records, deled: Marks, todo: set<TxId>, now: Records, file: Records, h: TxId, cur: Coins, evs: seq<Event>)
    requires PutBack(db, deled, todo, now) && UndoFits(db, deled, Some(file)) && h in todo && Agrees(now, cur)
    ensures h in file && (h in now ==> |file[h].outs| == |now[h].outs|)
    ensures var now' := now[h := if h in now then Merge(file[h], now[h]) else file[h]];
            PutBack(db, deled, todo - {h}, now') && Notified(evs, evs + [Added(h, file[h])], cur, now')
  {
    hide Agrees, Notified, Live, Merge;
    PutBackRec(db, deled, todo, now, file, h);
    PutBackTold(now, cur, h, db[h], file[h], evs);
  }

  lemma PutBackRec(db: Records, deled: Marks, todo: set<TxId>, now: Records, file: Records, h: TxId)
    requires PutBack(db, deled, todo, now) && UndoFits(db, deled, Some(file)) && h in todo
    ensures h in db && h in deled && |deled[h]| == |db[h].outs| && h in file && file[h] == UndoRec(db[h], deled[h])
    ensures h in now ==> |file[h].outs| == |now[h].outs| && Merge(file[h], now[h]) == db[h]
    ensures h !in now ==> file[h] == db[h]
    ensures PutBack(db, deled, todo - {h}, now[h := db[h]])
    ensures forall v: nat :: RecCoin(db[h], v) == if RecCoin(file[h], v).Some? then RecCoin(file[h], v) else UnspentGet(now, OutPoint(h, v))
    ensures forall v: nat :: RecCoin(file[h], v).Some? ==> UnspentGet(now, OutPoint(h, v)) == None
  {
    hide Live;
    assert Get(now, h) == if Live(Prune(db[h], deled[h])) then Some(Prune(db[h], deled[h])) else None;
    MergeRestores(db[h], deled[h]);
    forall v: nat
      ensures RecCoin(db[h], v) == if RecCoin(file[h], v).Some? then RecCoin(file[h], v) else UnspentGet(now, OutPoint(h, v))
      ensures RecCoin(file[h], v).Some? ==> UnspentGet(now, OutPoint(h, v)) == None
    {
      PrunedCoin(db[h], deled[h], v);
    }
  }

  lemma PutBackTold(now: Records, cur: Coins, h: TxId, rec: Rec, file: Rec, evs: seq<Event>)
    requires Agrees(now, cur)
    requires forall v: nat :: RecCoin(rec, v) == if RecCoin(file, v).Some? then RecCoin(file, v) else UnspentGet(now, OutPoint(h, v))
    requires forall v: nat :: RecCoin(file, v).Some? ==> UnspentGet(now, OutPoint(h, v)) == None
    ensures Notified(evs, evs + [Added(h, file)], cur, now[h := rec])
  {
    var e := Added(h, file);
    hide RecCoin;
    forall op: OutPoint
      ensures UnspentGet(now[h := rec], op) == Get(cur + RecCoins(h, file), op)
      ensures op in RecCoins(h, file) ==> Get(cur, op) == None
    {
      assert UnspentGet(now, op) == Get(cur, op);
      FileCoin(h, file, op);
      assert op.hash == h ==> op == OutPoint(h, op.vout);
    }
    assert (evs + [e])[|evs|..] == [] + [e];
    ReplayOne(cur, [], e);
  }

  lemma FileCoin(h: TxId, rec: Rec, op: OutPoint)
    ensures op in RecCoins(h, rec) <==> op.hash == h && RecCoin(rec, op.vout).Some?
    ensures op in RecCoins(h, rec) ==> RecCoins(h, rec)[op] == RecCoin(rec, op.vout).value
  {
  }

  /** What was marked and what was left make up the record again. */
  lemma MergeRestores(rec: Rec, marks: seq<bool>)
    requires |marks| == |rec.outs|
    ensures Merge(UndoRec(rec, marks), Prune(rec, marks)) == rec
    ensures !Live(Prune(rec, marks)) ==> UndoRec(rec, marks) == rec
  {
    assert Merge(UndoRec(rec, marks), Prune(rec, marks)).outs == rec.outs;
    if !Live(Prune(rec, marks)) {
      forall v | 0 <= v < |marks|
        ensures UndoRec(rec, marks).outs[v] == rec.outs[v]
      {
        assert !Prune(rec, marks).outs[v].Some?;
      }
      assert UndoRec(rec, marks).outs == rec.outs;
    }
  }

  lemma PutBackAll(db: Records, deled: Marks, now: Records)
    requires PutBack(db, deled, {}, now)
    ensures now == db
  {
    assert forall h :: Get(now, h) == Get(db, h);
    forall h | h in now
      ensures h in db && now[h] == db[h]
    {
      assert Get(now, h) == Get(db, h);
    }
    forall h | h in db
      ensures h in now
    {
      assert Get(now, h) == Get(db, h);
    }
  }
}
