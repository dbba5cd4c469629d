/** Which heights have an undo file, while blocks are undone and others are connected. */
module UndoFiles {
  import opened UnspentDb

  /** The files it takes to undo the blocks above height lo, up to hi. */
  ghost predicate HasUndo(files: set<nat>, lo: nat, hi: nat) {
    forall h :: lo < h <= hi ==> h in files
  }

  /** What undoing those blocks leaves. */
  ghost function FilesDown(files: set<nat>, lo: nat, hi: nat): set<nat> {
    set h | h in files && !(lo < h <= hi)
  }

  /** One block connected at height h, on the way to a target at height end. */
  ghost function FilesNext(files: set<nat>, h: nat, end: nat): set<nat> {
    (if h + UNWIND_BUF_LEN >= end then files + {h} else files) - (if h > UNWIND_BUF_LEN then {h - UNWIND_BUF_LEN} else {})
  }

  /** The blocks above height lo, up to hi, connected. */
  ghost function FilesUp(files: set<nat>, lo: nat, hi: nat, end: nat): set<nat>
    decreases hi
  {
    if hi <= lo then files else FilesNext(FilesUp(files, lo, hi - 1, end), hi, end)
  }

  /** The file of height h was there, and connecting the blocks above lo, up to hi, does not remove it. */
  ghost predicate Kept(files: set<nat>, lo: nat, hi: nat, h: nat) {
    h in files && !(lo < h + UNWIND_BUF_LEN <= hi)
  }

  /** A file is there if and only if it was written and has not fallen out of the window, or was there before and has not. */
  lemma {:induction false} FilesUpAre(files: set<nat>, lo: nat, hi: nat, end: nat, h: nat)
    requires lo <= hi && 0 !in files && h > 0
    ensures h in FilesUp(files, lo, hi, end) <==>
      if h <= lo || h > hi then Kept(files, lo, hi, h)
      else hi < h + UNWIND_BUF_LEN && (h + UNWIND_BUF_LEN >= end || h in files)
    decreases hi
  {
    if hi > lo {
      FilesUpAre(files, lo, hi - 1, end, h);
    }
  }

  lemma {:induction false} NoFileZero(files: set<nat>, lo: nat, hi: nat, end: nat)
    requires 0 !in files
    ensures 0 !in FilesUp(files, lo, hi, end)
    decreases hi
  {
    if hi > lo {
      NoFileZero(files, lo, hi - 1, end);
    }
  }

  /**
   * After a move down from height from to lo and up to hi, on the way to end: the files for coming down again to lower are
   * there if and only if every block newly connected is within the window of end, and those that were connected before
   * had their files and have not lost them since.
   */
  lemma RetryHasUndo(files: set<nat>, from: nat, lo: nat, hi: nat, end: nat, lower: nat)
    requires 0 !in files && (forall h :: h in files ==> h <= from) && lo <= from && lo <= hi < end && lower <= hi
    ensures HasUndo(FilesUp(FilesDown(files, lo, from), lo, hi, end), lower, hi) <==>
      && (hi > lo && hi > lower ==> (if lo > lower then lo else lower) + 1 + UNWIND_BUF_LEN >= end)
      && (forall h :: lower < h <= lo ==> Kept(files, lo, hi, h))
  {
    hide FilesUp;
    var was := FilesDown(files, lo, from);
    var now := FilesUp(was, lo, hi, end);
    forall h | lower < h <= hi
      ensures h in now <==> if h <= lo then Kept(files, lo, hi, h) else h + UNWIND_BUF_LEN >= end
    {
      FilesUpAre(was, lo, hi, end, h);
    }
    var first := (if lo > lower then lo else lower) + 1;
    if HasUndo(now, lower, hi) {
      if hi > lo && hi > lower {
        assert lower < first <= hi && first > lo && first in now;
      }
      forall h | lower < h <= lo
        ensures Kept(files, lo, hi, h)
      {
        assert h in now;
      }
    } else {
      var h :| lower < h <= hi && h !in now;
      assert h <= lo ==> !Kept(files, lo, hi, h);
      assert h > lo ==> hi > lo && hi > lower && h >= first;
    }
  }
}
