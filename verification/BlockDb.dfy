/** The block store: the records in memory, which of them are in the file, and those waiting to be written there. */
module BlockDb {
  import opened Utxo

  const MAX_BLOCKS_TO_WRITE := 1024
  const MAX_DATA_WRITE := 16 * 1024 * 1024

  /** An entry of the queue: whose data it is, and how much. */
  datatype OneB2W = OneB2W(hash: nat, size: nat)

  function DataSize(q: seq<OneB2W>): nat {
    if q == [] then 0 else q[0].size + DataSize(q[1..])
  }

  lemma {:induction false} DataSizeAppend(q: seq<OneB2W>, b: OneB2W)
    ensures DataSize(q + [b]) == DataSize(q) + b.size
  {
    if q == [] {
      assert q + [b] == [b];
    } else {
      assert (q + [b])[1..] == q[1..] + [b];
      DataSizeAppend(q[1..], b);
    }
  }

  /** The store with bl added: a block already stored is kept, and can only become trusted. */
  function WithBlock(bs: map<nat, Block>, bl: Block): map<nat, Block> {
    bs[bl.hash := if bl.hash in bs then bs[bl.hash].(trusted := bs[bl.hash].trusted || bl.trusted) else bl]
  }

  function Trust(bs: map<nat, Block>, h: nat): map<nat, Block> {
    if h in bs then bs[h := bs[h].(trusted := true)] else bs
  }

  // Calls of BlockInvalid.

  /** That many calls for h end in a panic: the block is trusted, or in the file, where the first call makes it trusted. */
  predicate Fatal(bs: map<nat, Block>, saved: set<nat>, h: nat, calls: nat) {
    calls > 0 && h in bs && (bs[h].trusted || (calls > 1 && h in saved))
  }

  /** What calls for the blocks hs leave: those in the file are trusted now, the others gone. */
  function Marked(bs: map<nat, Block>, saved: set<nat>, hs: set<nat>): map<nat, Block> {
    map h | h in bs && (h in hs ==> h in saved) :: if h in hs then bs[h].(trusted := true) else bs[h]
  }

  lemma MarkedNone(bs: map<nat, Block>, saved: set<nat>)
    ensures Marked(bs, saved, {}) == bs
  {
  }

  lemma MarkedTwice(bs: map<nat, Block>, saved: set<nat>, hs: set<nat>, hs': set<nat>)
    ensures Marked(Marked(bs, saved, hs), saved, hs') == Marked(bs, saved, hs + hs')
  {
  }

  /** One more call, after some that did no harm. */
  lemma FatalNext(bs: map<nat, Block>, saved: set<nat>, hs: set<nat>, h: nat, calls: nat)
    requires !Fatal(bs, saved, h, calls) && (h in hs <==> calls > 0)
    ensures Fatal(Marked(bs, saved, hs), saved, h, 1) <==> Fatal(bs, saved, h, calls + 1)
  {
  }

  lemma FatalElse(bs: map<nat, Block>, saved: set<nat>, hs: set<nat>, h: nat, calls: nat)
    requires h !in hs
    ensures Fatal(Marked(bs, saved, hs), saved, h, calls) <==> Fatal(bs, saved, h, calls)
  {
  }

  class BlockDB {
    var blockIndex: map<nat, Block>
    /** The records whose place in the file is known (ipos is not -1). */
    var saved: set<nat>
    var blocksToWrite: seq<OneB2W>
    var datToWrite: nat

    constructor ()
      ensures Valid() && blockIndex == map[] && saved == {} && blocksToWrite == []
    {
      blockIndex, saved, blocksToWrite, datToWrite := map[], {}, [], 0;
    }

    ghost predicate Valid()
      reads this
    {
      && (forall h :: h in blockIndex ==> blockIndex[h].hash == h)
      && saved <= blockIndex.Keys
      && (forall h :: h in blockIndex && h !in saved ==> exists b :: b in blocksToWrite && b.hash == h)
      && |blocksToWrite| < MAX_BLOCKS_TO_WRITE && datToWrite == DataSize(blocksToWrite)
    }

    /** Whether adding bl is followed by writing everything to the file. */
    predicate Flushes(bl: Block, size: nat)
      reads this
    {
      bl.hash !in blockIndex && (|blocksToWrite| + 1 >= MAX_BLOCKS_TO_WRITE || datToWrite + size >= MAX_DATA_WRITE)
    }

    ghost function SavedWith(bl: Block, size: nat): set<nat>
      reads this
    {
      if Flushes(bl, size) then blockIndex.Keys + {bl.hash} else saved
    }

    ghost function QueueWith(bl: Block, size: nat): seq<OneB2W>
      reads this
    {
      if Flushes(bl, size) then [] else if bl.hash in blockIndex then blocksToWrite else blocksToWrite + [OneB2W(bl.hash, size)]
    }

    /** BlockAdd. It never finds the queue full, nor nothing to write. */
    method BlockAdd(bl: Block, size: nat)
      requires Valid()
      modifies this
      ensures Valid() && blockIndex == WithBlock(old(blockIndex), bl) && saved == old(SavedWith(bl, size))
      ensures blocksToWrite == old(QueueWith(bl, size))
    {
      if bl.hash !in blockIndex {
        blockIndex := blockIndex[bl.hash := bl];
        ghost var q := blocksToWrite;
        datToWrite := datToWrite + size;
        DataSizeAppend(blocksToWrite, OneB2W(bl.hash, size));
        blocksToWrite := blocksToWrite + [OneB2W(bl.hash, size)];
        forall h | h in blockIndex && h !in saved
          ensures exists b :: b in blocksToWrite && b.hash == h
        {
          if h == bl.hash {
            assert OneB2W(bl.hash, size) in blocksToWrite;
          } else {
            var b :| b in q && b.hash == h;
            assert b in blocksToWrite;
          }
        }
        if |blocksToWrite| >= MAX_BLOCKS_TO_WRITE || datToWrite >= MAX_DATA_WRITE {
          var stored := WriteAll();
          if !stored {
            assert false;
          }
        }
      } else if !blockIndex[bl.hash].trusted && bl.trusted {
        BlockTrusted(bl.hash);
      }
    }

    /** writeAll, as BlockAdd and Idle call it: the queue may be full. */
    method WriteAll() returns (any: bool)
      requires forall h :: h in blockIndex ==> blockIndex[h].hash == h
      requires saved <= blockIndex.Keys && datToWrite == DataSize(blocksToWrite)
      requires forall h :: h in blockIndex && h !in saved ==> exists b :: b in blocksToWrite && b.hash == h
      modifies `saved, `blocksToWrite, `datToWrite
      ensures Valid() && saved == blockIndex.Keys && blocksToWrite == [] && (any <==> old(blocksToWrite) != [])
    {
      any := false;
      while blocksToWrite != []
        invariant saved <= blockIndex.Keys && datToWrite == DataSize(blocksToWrite)
        invariant forall h :: h in blockIndex && h !in saved ==> exists b :: b in blocksToWrite && b.hash == h
        invariant any || blocksToWrite == old(blocksToWrite)
        invariant any ==> old(blocksToWrite) != []
        decreases |blocksToWrite|
      {
        WriteOne();
        any := true;
      }
    }

    /** writeOne, with something in the queue: an entry whose record has gone, or has been written already, is thrown away. */
    method WriteOne()
      requires blocksToWrite != [] && saved <= blockIndex.Keys && datToWrite == DataSize(blocksToWrite)
      requires forall h :: h in blockIndex && h !in saved ==> exists b :: b in blocksToWrite && b.hash == h
      modifies `saved, `blocksToWrite, `datToWrite
      ensures blocksToWrite == old(blocksToWrite[1..]) && datToWrite == DataSize(blocksToWrite)
      ensures saved == old(saved) + if old(blocksToWrite[0].hash) in blockIndex then {old(blocksToWrite[0].hash)} else {}
      ensures forall h :: h in blockIndex && h !in saved ==> exists b :: b in blocksToWrite && b.hash == h
    {
      var b2w := blocksToWrite[0];
      ghost var q := blocksToWrite;
      blocksToWrite := blocksToWrite[1..];
      datToWrite := datToWrite - b2w.size;
      if b2w.hash in blockIndex && b2w.hash !in saved {
        saved := saved + {b2w.hash};
      }
      forall h | h in blockIndex && h !in saved
        ensures exists b :: b in blocksToWrite && b.hash == h
      {
        var b :| b in q && b.hash == h;
        assert b in blocksToWrite;
      }
    }

    /** Idle. */
    method Idle()
      requires Valid()
      modifies `saved, `blocksToWrite, `datToWrite
      ensures Valid() && saved == blockIndex.Keys && blocksToWrite == []
    {
      var any := WriteAll();
    }

    /** BlockTrusted. */
    method BlockTrusted(hash: nat)
      requires Valid()
      modifies `blockIndex
      ensures Valid() && blockIndex == Trust(old(blockIndex), hash)
    {
      if hash in blockIndex && !blockIndex[hash].trusted {
        SetBlockFlag(hash);
      }
    }

    /** setBlockFlag, as far as the memory is concerned: whatever the flag, the record becomes trusted. */
    method SetBlockFlag(hash: nat)
      requires Valid() && hash in blockIndex
      modifies `blockIndex
      ensures Valid() && blockIndex == Trust(old(blockIndex), hash)
    {
      blockIndex := blockIndex[hash := blockIndex[hash].(trusted := true)];
    }

    /** BlockInvalid: not ok means a panic. */
    method BlockInvalid(hash: nat) returns (ok: bool)
      requires Valid()
      modifies `blockIndex
      ensures ok <==> !Fatal(old(blockIndex), saved, hash, 1)
      ensures ok ==> Valid() && blockIndex == Marked(old(blockIndex), saved, {hash})
    {
      if hash !in blockIndex {
        return true;
      }
      if blockIndex[hash].trusted {
        return false;
      }
      if hash !in saved {
        blockIndex := blockIndex - {hash};
      } else {
        SetBlockFlag(hash);
      }
      ok := true;
    }
  }
}
