/** The byte form of database records, plain and compressed. */
module UtxoCodec {
  import opened Residues
  import opened Utxo
  import opened Scripts
  import opened VarInt
  import opened Seqs

  /** Which of the two sets of functions is in use. */
  datatype Codec = Plain | Packed(keys: Keys)

  const UtxoIdxLen := 8

  // The format.

  function ScriptBytes(codec: Codec, scr: Script): Bytes {
    match codec
    case Plain => VarBytes(|scr|) + scr
    case Packed(_) =>
      match CompressScript(scr)
      case Some(c) => c
      case None => VarBytes(6 + |scr|) + scr
  }

  function ValueOf(codec: Codec, value: nat): nat {
    match codec
    case Plain => value
    case Packed(_) => var x := Pack(value); if x < 0 then 0 else x
  }

  function OutBytes(codec: Codec, i: nat, out: TxOut): Bytes {
    VarBytes(i) + (VarBytes(ValueOf(codec, out.value)) + ScriptBytes(codec, out.script))
  }

  /** The unspent outputs from number i on. */
  function OutsFrom(codec: Codec, outs: seq<Option<TxOut>>, i: nat): Bytes
    requires i <= |outs|
    decreases |outs| - i
  {
    if i == |outs| then []
    else (if outs[i].Some? then OutBytes(codec, i, outs[i].value) else []) + OutsFrom(codec, outs, i + 1)
  }

  function OutCnt(rec: Rec): nat {
    2 * |rec.outs| + if rec.coinbase then 1 else 0
  }

  /** The record without the transaction id. */
  function BodyBytes(codec: Codec, rec: Rec): Bytes {
    VarBytes(rec.inBlock) + (VarBytes(OutCnt(rec)) + OutsFrom(codec, rec.outs, 0))
  }

  function RecBytes(codec: Codec, txid: Bytes, rec: Rec, full: bool): Bytes
    requires |txid| == 32
  {
    (if full then txid else txid[UtxoIdxLen..]) + BodyBytes(codec, rec)
  }

  /** Widths: heights of 32 bits, amounts of 64 bits that can be packed, scripts and lists that fit a length. */
  ghost predicate OutFits(codec: Codec, out: TxOut) {
    |out.script| < W32 && match codec case Plain => out.value < W64 case Packed(_) => out.value <= PACKABLE
  }

  ghost predicate Fits(codec: Codec, rec: Rec) {
    && rec.inBlock < W32 && |rec.outs| < W32
    && (forall i :: 0 <= i < |rec.outs| && rec.outs[i].Some? ==> OutFits(codec, rec.outs[i].value))
  }

  /** What comes back of a record: itself, but for the scripts that are not reduced. */
  function BackScript(codec: Codec, scr: Script): Script {
    match codec
    case Plain => scr
    case Packed(keys) => Restored(keys, scr)
  }

  function BackOuts(codec: Codec, outs: seq<Option<TxOut>>): seq<Option<TxOut>> {
    seq(|outs|, i requires 0 <= i < |outs| =>
      if outs[i].Some? then Some(TxOut(outs[i].value.value, BackScript(codec, outs[i].value.script))) else None)
  }

  function Back(codec: Codec, rec: Rec): Rec {
    Rec(rec.coinbase, rec.inBlock, BackOuts(codec, rec.outs))
  }

  /** In the compressed form a record comes back if and only if all its scripts are reduced; in the plain form always. */
  lemma ComesBack(codec: Codec, rec: Rec)
    requires codec.Packed? ==> SquareRoots(codec.keys)
    requires forall i :: 0 <= i < |rec.outs| && rec.outs[i].Some? ==> Octets(rec.outs[i].value.script)
    ensures Back(codec, rec) == rec <==>
      codec.Plain? || forall i :: 0 <= i < |rec.outs| && rec.outs[i].Some? ==> Reduced(rec.outs[i].value.script)
  {
    hide SquareRoots, Restored, Reduced, Octets;
    forall i | 0 <= i < |rec.outs| && rec.outs[i].Some?
      ensures BackOuts(codec, rec.outs)[i] == rec.outs[i] <==> codec.Plain? || Reduced(rec.outs[i].value.script)
    {
      if codec.Packed? {
        ScriptRoundTrip(codec.keys, rec.outs[i].value.script);
      }
    }
    if Back(codec, rec) != rec {
      var i :| 0 <= i < |rec.outs| && BackOuts(codec, rec.outs)[i] != rec.outs[i];
      assert rec.outs[i].Some?;
    }
  }

  /** A record that does not: its one output pays to a key with a large x. */
  lemma LargeKeyRecord(keys: Keys, coinbase: bool, inBlock: nat, value: nat) returns (rec: Rec)
    ensures rec.coinbase == coinbase && rec.inBlock == inBlock && |rec.outs| == 1 && rec.outs[0].Some? && rec.outs[0].value.value == value
    ensures Octets(rec.outs[0].value.script) && |rec.outs[0].value.script| == 67 && Back(Packed(keys), rec) != rec
  {
    hide Restored, Octets;
    var scr := KeyScript(P + 1, Y_OF_ONE);
    LargeX(keys);
    rec := Rec(coinbase, inBlock, [Some(TxOut(value, scr))]);
    assert Back(Packed(keys), rec).outs[0] != rec.outs[0];
  }

  // Writing.

  method CopyIn(b: array<nat>, of: nat, bytes: Bytes)
    requires of + |bytes| <= b.Length
    modifies b
    ensures b[..of + |bytes|] == old(b[..of]) + bytes
  {
    for i := 0 to |bytes|
      invariant b[..of + i] == old(b[..of]) + bytes[..i]
    {
      b[of + i] := bytes[i];
      assert b[..of + i + 1] == b[..of + i] + [bytes[i]];
    }
  }

  lemma ValueBelow(codec: Codec, out: TxOut)
    requires OutFits(codec, out)
    ensures ValueOf(codec, out.value) < W64
    ensures codec.Packed? ==> ValueOf(codec, out.value) == Pack(out.value)
  {
    UnpackPack(out.value);
  }

  /** The packed value and script of one output; the plain form has nothing to prepare. */
  method Prepare(codec: Codec, out: TxOut) returns (val: nat, scr: Option<Bytes>)
    requires OutFits(codec, out)
    ensures val == ValueOf(codec, out.value)
    ensures scr == match codec case Plain => None case Packed(_) => CompressScript(out.script)
  {
    ValueBelow(codec, out);
    match codec
    case Plain =>
      val, scr := out.value, None;
    case Packed(_) =>
      val := CompressAmount(out.value);
      scr := CompressScript(out.script);
  }

  /** The first pass of Serialize: the exact length, and the prepared outputs. */
  method Measure(codec: Codec, rec: Rec, full: bool) returns (le: nat, any_out: bool, vals: seq<nat>, scrs: seq<Option<Bytes>>)
    requires Fits(codec, rec)
    ensures le == (if full then 32 else 24) + |BodyBytes(codec, rec)|
    ensures any_out <==> Live(rec)
    ensures |vals| == |scrs| == |rec.outs|
    ensures forall i :: 0 <= i < |rec.outs| && rec.outs[i].Some? ==>
      Prepared(codec, rec.outs[i].value, vals[i], scrs[i])
  {
    hide ValueOf, CompressScript, VarBytes, OutBytes, OutsFrom, OutFits;
    le := if full then 32 else 32 - UtxoIdxLen;
    le := le + VLenSize(rec.inBlock);
    le := le + VLenSize(OutCnt(rec));
    any_out := false;
    vals, scrs := seq(|rec.outs|, _ => 0), seq(|rec.outs|, _ => None);
    for i := 0 to |rec.outs|
      invariant |vals| == |scrs| == |rec.outs|
      invariant le + |OutsFrom(codec, rec.outs, i)| == (if full then 32 else 24) + |BodyBytes(codec, rec)|
      invariant any_out <==> exists v :: 0 <= v < i && rec.outs[v].Some?
      invariant forall k :: 0 <= k < i && rec.outs[k].Some? ==> Prepared(codec, rec.outs[k].value, vals[k], scrs[k])
    {
      LengthStep(codec, rec.outs, i);
      if rec.outs[i].Some? {
        var r := rec.outs[i].value;
        le := le + VLenSize(i);
        var val, scr := Prepare(codec, r);
        vals, scrs := vals[i := val], scrs[i := scr];
        le := le + VLenSize(val);
        if scr.Some? {
          le := le + |scr.value|;
        } else {
          le := le + VLenSize((if codec.Packed? then 6 else 0) + |r.script|);
          le := le + |r.script|;
        }
        any_out := true;
      }
    }
    NoMoreOuts(codec, rec.outs);
  }

  lemma LengthStep(codec: Codec, outs: seq<Option<TxOut>>, i: nat)
    requires i < |outs|
    ensures |OutsFrom(codec, outs, i)| == |OutsFrom(codec, outs, i + 1)| + if outs[i].None? then 0 else
      var out := outs[i].value;
      var scr := match codec case Plain => None case Packed(_) => CompressScript(out.script);
      VLenSize(i) + VLenSize(ValueOf(codec, out.value)) +
      if scr.Some? then |scr.value| else VLenSize((if codec.Packed? then 6 else 0) + |out.script|) + |out.script|
  {
    hide VarBytes, CompressScript, ValueOf;
  }

  lemma NoMoreOuts(codec: Codec, outs: seq<Option<TxOut>>)
    ensures OutsFrom(codec, outs, |outs|) == []
  {
  }

  ghost predicate Prepared(codec: Codec, out: TxOut, val: nat, scr: Option<Bytes>) {
    val == ValueOf(codec, out.value) && scr == match codec case Plain => None case Packed(_) => CompressScript(out.script)
  }

  lemma Assoc(s: Bytes, a: Bytes, b: Bytes, c: Bytes)
    ensures ((s + a) + b) + c == s + (a + (b + c))
  {
  }

  method WriteScript(buf: array<nat>, start: nat, codec: Codec, out: TxOut, val: nat, scr: Option<Bytes>) returns (of: nat)
    requires OutFits(codec, out) && Prepared(codec, out, val, scr) && start + |ScriptBytes(codec, out.script)| <= buf.Length
    modifies buf
    ensures of == start + |ScriptBytes(codec, out.script)| && buf[..of] == old(buf[..start]) + ScriptBytes(codec, out.script)
  {
    hide VarBytes, CompressScript, ValueOf;
    ghost var done := buf[..start];
    if scr.Some? {
      CopyIn(buf, start, scr.value);
      of := start + |scr.value|;
    } else {
      var len := (if codec.Packed? then 6 else 0) + |out.script|;
      var n := PutULe(buf, start, len);
      CopyIn(buf, start + n, out.script);
      of := start + n + |out.script|;
      assert (done + VarBytes(len)) + out.script == done + (VarBytes(len) + out.script);
    }
  }

  /** The body of the second pass. */
  method WriteOut(buf: array<nat>, start: nat, codec: Codec, i: nat, out: TxOut, val: nat, scr: Option<Bytes>) returns (of: nat)
    requires OutFits(codec, out) && Prepared(codec, out, val, scr) && i < W32 && start + |OutBytes(codec, i, out)| <= buf.Length
    modifies buf
    ensures of == start + |OutBytes(codec, i, out)| && buf[..of] == old(buf[..start]) + OutBytes(codec, i, out)
  {
    hide VarBytes, CompressScript, ValueOf, ScriptBytes;
    ValueBelow(codec, out);
    ghost var done := buf[..start];
    of := start;
    var n := PutULe(buf, of, i);
    of := of + n;
    n := PutULe(buf, of, val);
    of := of + n;
    of := WriteScript(buf, of, codec, out, val, scr);
    Assoc(done, VarBytes(i), VarBytes(val), ScriptBytes(codec, out.script));
  }

  /** The second pass. */
  method WriteOuts(buf: array<nat>, start: nat, codec: Codec, rec: Rec, vals: seq<nat>, scrs: seq<Option<Bytes>>) returns (of: nat)
    requires Fits(codec, rec) && |vals| == |scrs| == |rec.outs|
    requires forall i :: 0 <= i < |rec.outs| && rec.outs[i].Some? ==> Prepared(codec, rec.outs[i].value, vals[i], scrs[i])
    requires start + |OutsFrom(codec, rec.outs, 0)| <= buf.Length
    modifies buf
    ensures of == start + |OutsFrom(codec, rec.outs, 0)| && buf[..of] == old(buf[..start]) + OutsFrom(codec, rec.outs, 0)
  {
    hide OutBytes, Prepared, OutFits;
    of := start;
    ghost var whole := buf[..start] + OutsFrom(codec, rec.outs, 0);
    for i := 0 to |rec.outs|
      invariant of + |OutsFrom(codec, rec.outs, i)| == |whole| <= buf.Length && buf[..of] + OutsFrom(codec, rec.outs, i) == whole
    {
      if rec.outs[i].Some? {
        ghost var b, done := OutBytes(codec, i, rec.outs[i].value), buf[..of];
        assert done + (b + OutsFrom(codec, rec.outs, i + 1)) == (done + b) + OutsFrom(codec, rec.outs, i + 1);
        of := WriteOut(buf, of, codec, i, rec.outs[i].value, vals[i], scrs[i]);
      } else {
        assert [] + OutsFrom(codec, rec.outs, i + 1) == OutsFrom(codec, rec.outs, i + 1);
      }
    }
    assert buf[..of] + [] == buf[..of];
  }

  /** Serialize: nothing for a record without outputs; otherwise a buffer of exactly the length computed first. */
  method Serialize(codec: Codec, txid: Bytes, rec: Rec, full: bool) returns (buf: array?<nat>)
    requires |txid| == 32 && Fits(codec, rec)
    ensures buf == null <==> !Live(rec)
    ensures buf != null ==> fresh(buf) && buf[..] == RecBytes(codec, txid, rec, full)
  {
    hide OutBytes, VarBytes, Prepared, OutFits, OutsFrom;
    var le, any_out, vals, scrs := Measure(codec, rec, full);
    if !any_out {
      return null;
    }
    buf := new nat[le];
    var of: nat;
    ghost var id := if full then txid else txid[UtxoIdxLen..];
    if full {
      CopyIn(buf, 0, txid);
      of := 32;
    } else {
      of := 32 - UtxoIdxLen;
      CopyIn(buf, 0, txid[UtxoIdxLen..]);
    }
    assert buf[..of] == id;
    var n := PutULe(buf, of, rec.inBlock);
    of := of + n;
    n := PutULe(buf, of, OutCnt(rec));
    of := of + n;
    of := WriteOuts(buf, of, codec, rec, vals, scrs);
    Assoc(id, VarBytes(rec.inBlock), VarBytes(OutCnt(rec)), OutsFrom(codec, rec.outs, 0));
    assert of == buf.Length;
    assert buf[..buf.Length] == buf[..];
  }

  // Reading.

  lemma ReadAt(dat: Bytes, off: nat, v: nat, rest: Bytes)
    requires off <= |dat| && dat[off..] == VarBytes(v) + rest && v < W64
    ensures VULe(dat[off..]) == (v, VLenSize(v)) && off + VLenSize(v) <= |dat| && dat[off + VLenSize(v)..] == rest
  {
    ReadBack(v, rest);
    assert dat[off + VLenSize(v)..] == dat[off..][VLenSize(v)..];
  }

  /** Where a script's bytes are, and whether they are in compressed form. */
  method FindScript(codec: Codec, dat: Bytes, off: nat, ghost scr: Script, ghost rest: Bytes) returns (at: nat, len: nat, compressed: bool)
    requires |scr| < W32
    requires off <= |dat| && dat[off..] == ScriptBytes(codec, scr) + rest
    ensures at + len <= |dat| && dat[at + len..] == rest
    ensures compressed ==> codec.Packed? && CompressScript(scr) == Some(dat[at..at + len])
    ensures !compressed ==> dat[at..at + len] == scr && (codec.Packed? ==> CompressScript(scr).None?)
  {
    hide CompressScript, DecompressScript, VarBytes, VULe, ScriptBytes;
    if codec.Packed? && CompressScript(scr).Some? {
      CompressedAt(codec, dat, off, scr, rest);
    } else {
      PlainAt(codec, dat, off, scr, rest);
    }
    var (i, n) := VULe(dat[off..]);
    at, len, compressed := off, i, false;
    if codec.Packed? && i < 6 {
      len := ComprScrLen[i];
      compressed := true;
    } else {
      at := off + n;
      if codec.Packed? {
        len := i - 6;
      }
    }
  }

  lemma CompressedAt(codec: Codec, dat: Bytes, off: nat, scr: Script, rest: Bytes)
    requires codec.Packed? && CompressScript(scr).Some?
    requires off <= |dat| && dat[off..] == ScriptBytes(codec, scr) + rest
    ensures var c := CompressScript(scr).value;
            && VULe(dat[off..]).0 < 6 && |c| == ComprScrLen[VULe(dat[off..]).0]
            && off + |c| <= |dat| && dat[off..off + |c|] == c && dat[off + |c|..] == rest
  {
    hide CompressScript, DecompressScript;
    var c := CompressScript(scr).value;
    CompressedLength(scr);
    assert dat[off] == dat[off..][0] == c[0];
    FirstByte(dat, off);
    assert dat[off..off + |c|] == dat[off..][..|c|];
    assert dat[off + |c|..] == dat[off..][|c|..];
  }

  lemma PlainAt(codec: Codec, dat: Bytes, off: nat, scr: Script, rest: Bytes)
    requires |scr| < W32 && (codec.Packed? ==> CompressScript(scr).None?)
    requires off <= |dat| && dat[off..] == ScriptBytes(codec, scr) + rest
    ensures var len := (if codec.Packed? then 6 else 0) + |scr|; var at := off + VLenSize(len);
            && VULe(dat[off..]) == (len, VLenSize(len))
            && at + |scr| <= |dat| && dat[at..at + |scr|] == scr && dat[at + |scr|..] == rest
  {
    hide CompressScript, VarBytes, VULe;
    var len := (if codec.Packed? then 6 else 0) + |scr|;
    var at := off + VLenSize(len);
    assert dat[off..] == VarBytes(len) + (scr + rest);
    ReadAt(dat, off, len, scr + rest);
    assert dat[at..at + |scr|] == dat[at..][..|scr|];
    assert dat[at + |scr|..] == dat[at..][|scr|..];
  }

  lemma FirstByte(dat: Bytes, off: nat)
    requires off < |dat| && dat[off] < 6
    ensures VULe(dat[off..]) == (dat[off], 1)
  {
  }

  method ReadScript(codec: Codec, dat: Bytes, at: nat, len: nat, compressed: bool, ghost scr: Script) returns (res: Script)
    requires at + len <= |dat|
    requires compressed ==> codec.Packed? && CompressScript(scr) == Some(dat[at..at + len])
    requires !compressed ==> dat[at..at + len] == scr && (codec.Packed? ==> CompressScript(scr).None?)
    ensures res == BackScript(codec, scr)
  {
    hide CompressScript, DecompressScript;
    res := dat[at..at + len];
    if compressed {
      CompressedLength(scr);
      res := DecompressScript(codec.keys, res);
    }
  }

  method ReadValue(codec: Codec, u64: nat, ghost out: TxOut) returns (value: nat)
    requires u64 == ValueOf(codec, out.value) && OutFits(codec, out)
    ensures value == out.value
  {
    UnpackPack(out.value);
    ValueBelow(codec, out);
    if codec.Packed? {
      value := DecompressAmount(u64);
    } else {
      value := u64;
    }
  }

  /** The next unspent output at or after k, if there is one. */
  lemma {:induction false} NextOut(codec: Codec, outs: seq<Option<TxOut>>, k: nat) returns (j: nat)
    requires k <= |outs|
    ensures k <= j <= |outs| && forall x :: k <= x < j ==> outs[x].None?
    ensures j == |outs| <==> OutsFrom(codec, outs, k) == []
    ensures j < |outs| ==> outs[j].Some? && OutsFrom(codec, outs, k) == OutBytes(codec, j, outs[j].value) + OutsFrom(codec, outs, j + 1)
    decreases |outs| - k
  {
    hide OutBytes;
    if k == |outs| {
      j := k;
    } else if outs[k].Some? {
      j := k;
      OutNotEmpty(codec, k, outs[k].value);
    } else {
      j := NextOut(codec, outs, k + 1);
    }
  }

  lemma OutNotEmpty(codec: Codec, i: nat, out: TxOut)
    ensures |OutBytes(codec, i, out)| > 0
  {
  }

  /** The head of a record. */
  lemma HeadAt(codec: Codec, txid: Bytes, rec: Rec, dat: Bytes)
    requires |txid| == 32 && Fits(codec, rec) && dat == RecBytes(codec, txid, rec, false)
    ensures |dat| >= 24 && dat[..24] == txid[8..] && VULe(dat[24..]) == (rec.inBlock, VLenSize(rec.inBlock))
    ensures var off := 24 + VLenSize(rec.inBlock);
            && off <= |dat| && VULe(dat[off..]) == (OutCnt(rec), VLenSize(OutCnt(rec)))
            && off + VLenSize(OutCnt(rec)) <= |dat|
            && dat[off + VLenSize(OutCnt(rec))..] == OutsFrom(codec, rec.outs, 0)
  {
    hide OutsFrom, VULe, VarBytes;
    assert dat[24..] == BodyBytes(codec, rec);
    ReadAt(dat, 24, rec.inBlock, VarBytes(OutCnt(rec)) + OutsFrom(codec, rec.outs, 0));
    ReadAt(dat, 24 + VLenSize(rec.inBlock), OutCnt(rec), OutsFrom(codec, rec.outs, 0));
  }

  /** One round of a parser. */
  lemma OutAt(codec: Codec, i: nat, out: TxOut, dat: Bytes, off: nat, rest: Bytes)
    requires OutFits(codec, out) && i < W32 && off <= |dat| && dat[off..] == OutBytes(codec, i, out) + rest
    ensures VULe(dat[off..]) == (i, VLenSize(i)) && off < |dat| && |out.script| < W32
    ensures var off1 := off + VLenSize(i);
            && off1 <= |dat| && VULe(dat[off1..]) == (ValueOf(codec, out.value), VLenSize(ValueOf(codec, out.value)))
            && off1 + VLenSize(ValueOf(codec, out.value)) <= |dat|
            && dat[off1 + VLenSize(ValueOf(codec, out.value))..] == ScriptBytes(codec, out.script) + rest
  {
    hide VULe, VarBytes, ValueOf, ScriptBytes;
    ValueBelow(codec, out);
    var v := ValueOf(codec, out.value);
    assert dat[off..] == VarBytes(i) + (VarBytes(v) + (ScriptBytes(codec, out.script) + rest));
    ReadAt(dat, off, i, VarBytes(v) + (ScriptBytes(codec, out.script) + rest));
    ReadAt(dat, off + VLenSize(i), v, ScriptBytes(codec, out.script) + rest);
  }

  /** The outputs below k have been read. */
  ghost predicate ReadTo(outs: seq<Option<TxOut>>, outs0: seq<Option<TxOut>>, k: nat) {
    |outs| == |outs0| && k <= |outs| && forall x :: 0 <= x < |outs| ==> outs[x] == if x < k then outs0[x] else None
  }

  /** The body of the loop that reads outputs. */
  method ReadOut(codec: Codec, dat: Bytes, start: nat, ghost j: nat, ghost out: TxOut, ghost rest: Bytes)
    returns (idx: nat, value: nat, scr: Script, off: nat)
    requires OutFits(codec, out) && j < W32 && start <= |dat| && dat[start..] == OutBytes(codec, j, out) + rest
    ensures idx == j && value == out.value && scr == BackScript(codec, out.script)
    ensures start < off <= |dat| && dat[off..] == rest
  {
    hide OutBytes, OutFits, ValueOf, ScriptBytes, VULe;
    OutAt(codec, j, out, dat, start, rest);
    OutNotEmpty(codec, j, out);
    off := start;
    var (i, n) := VULe(dat[off..]);
    idx := i;
    off := off + n;
    var (u64, n2) := VULe(dat[off..]);
    off := off + n2;
    value := ReadValue(codec, u64, out);
    var at, len, compressed := FindScript(codec, dat, off, out.script, rest);
    scr := ReadScript(codec, dat, at, len, compressed, out.script);
    off := at + len;
    Shorter(dat, start, off, OutBytes(codec, j, out), rest);
  }

  /** NewUtxoRec: what comes back of the record written, which is the record itself if its scripts are reduced. */
  method NewUtxoRec(codec: Codec, key: Bytes, dat: Bytes, ghost txid0: Bytes, ghost rec0: Rec) returns (txid: Bytes, rec: Rec)
    requires |txid0| == 32 && Fits(codec, rec0) && key == txid0[..UtxoIdxLen] && dat == RecBytes(codec, txid0, rec0, false)
    ensures txid == txid0 && rec == Back(codec, rec0)
  {
    hide OutsFrom, OutBytes, OutFits, ValueOf, ScriptBytes, VULe, RecBytes;
    HeadAt(codec, txid0, rec0, dat);
    var off := 32 - UtxoIdxLen;
    txid := key + dat[..off];
    assert txid == txid0;
    var (inBlock, n) := VULe(dat[off..]);
    off := off + n;
    var (cnt, n2) := VULe(dat[off..]);
    off := off + n2;
    var outs: seq<Option<TxOut>> := seq(cnt / 2, _ => None);
    ghost var k := 0;
    while off < |dat|
      invariant off <= |dat| && 0 <= k <= |rec0.outs| && dat[off..] == OutsFrom(codec, rec0.outs, k)
      invariant ReadTo(outs, BackOuts(codec, rec0.outs), k)
      decreases |dat| - off
    {
      ghost var j := NextOut(codec, rec0.outs, k);
      ghost var out, rest := rec0.outs[j].value, OutsFrom(codec, rec0.outs, j + 1);
      var idx, value, scr;
      idx, value, scr, off := ReadOut(codec, dat, off, j, out, rest);
      outs := outs[idx := Some(TxOut(value, scr))];
      k := j + 1;
    }
    k := NextOut(codec, rec0.outs, k);
    assert outs == BackOuts(codec, rec0.outs);
    rec := Rec(cnt % 2 != 0, inBlock, outs);
  }

  lemma Shorter(dat: Bytes, off: nat, off': nat, b: Bytes, rest: Bytes)
    requires off <= |dat| && off' <= |dat| && dat[off..] == b + rest && dat[off'..] == rest && |b| > 0
    ensures off < off'
  {
    assert |dat| - off == |b| + |rest| && |dat| - off' == |rest|;
  }

  /** FullUtxoRec, which reads what Serialize writes with the whole id. */
  method FullUtxoRec(codec: Codec, dat: Bytes, ghost txid0: Bytes, ghost rec0: Rec) returns (txid: Bytes, rec: Rec)
    requires |txid0| == 32 && Fits(codec, rec0) && dat == RecBytes(codec, txid0, rec0, true)
    ensures txid == txid0 && rec == Back(codec, rec0)
  {
    assert dat[..UtxoIdxLen] == txid0[..UtxoIdxLen];
    assert dat[UtxoIdxLen..] == RecBytes(codec, txid0, rec0, false);
    txid, rec := NewUtxoRec(codec, dat[..UtxoIdxLen], dat[UtxoIdxLen..], txid0, rec0);
  }

  lemma BackCoin(codec: Codec, rec: Rec, vout: nat)
    ensures RecCoin(Back(codec, rec), vout) ==
      if vout < |rec.outs| && rec.outs[vout].Some? then
        Some(Coin(rec.outs[vout].value.value, BackScript(codec, rec.outs[vout].value.script), rec.coinbase, rec.inBlock, |rec.outs|))
      else None
  {
  }

  /** OneUtxoRec: reads no further than it has to, and finds what the whole record read back says of output vout. */
  method OneUtxoRec(codec: Codec, dat: Bytes, vout: nat, ghost txid0: Bytes, ghost rec0: Rec) returns (res: Option<Coin>)
    requires |txid0| == 32 && Fits(codec, rec0) && dat == RecBytes(codec, txid0, rec0, false) && vout < W32
    ensures res == RecCoin(Back(codec, rec0), vout)
  {
    hide OutsFrom, OutBytes, OutFits, ValueOf, ScriptBytes, VULe, RecBytes, Back, BackOuts, BackScript, RecCoin, VarBytes, VLenSize;
    BackCoin(codec, rec0, vout);
    HeadAt(codec, txid0, rec0, dat);
    var off := 32 - UtxoIdxLen;
    var (inBlock, n) := VULe(dat[off..]);
    off := off + n;
    var (cnt, n2) := VULe(dat[off..]);
    off := off + n2;
    if cnt / 2 <= vout {
      return None;
    }
    ghost var k := 0;
    while off < |dat|
      invariant off <= |dat| && 0 <= k <= |rec0.outs| && dat[off..] == OutsFrom(codec, rec0.outs, k)
      invariant forall x :: 0 <= x < k && rec0.outs[x].Some? ==> x != vout
      decreases |dat| - off
    {
      ghost var j := NextOut(codec, rec0.outs, k);
      ghost var out, rest := rec0.outs[j].value, OutsFrom(codec, rec0.outs, j + 1);
      OutAt(codec, j, out, dat, off, rest);
      ghost var start := off;
      var (idx, n3) := VULe(dat[off..]);
      if idx > vout {
        return None;
      }
      off := off + n3;
      var (u64, n4) := VULe(dat[off..]);
      off := off + n4;
      var at, len, compressed := FindScript(codec, dat, off, out.script, rest);
      if idx == vout {
        var value := ReadValue(codec, u64, out);
        var scr := ReadScript(codec, dat, at, len, compressed, out.script);
        return Some(Coin(value, scr, cnt % 2 != 0, inBlock, cnt / 2));
      }
      off := at + len;
      k := j + 1;
      Shorter(dat, start, off, OutBytes(codec, j, out), rest);
    }
    k := NextOut(codec, rec0.outs, k);
    res := None;
  }

  /** What all static records share: the list of outputs, each naming its place in a pool, both used again and again. */
  class Static {
    var recOuts: array<Option<nat>>
    var recPool: array<TxOut>
    var outCnt: nat

    constructor ()
      ensures recOuts.Length == recPool.Length && outCnt == 0 && fresh(recOuts) && fresh(recPool)
    {
      recOuts := new Option<nat>[30001](_ => None);
      recPool := new TxOut[30001](_ => TxOut(0, []));
      outCnt := 0;
    }

    ghost predicate Valid()
      reads this, recOuts, recPool
    {
      && recOuts.Length == recPool.Length && outCnt <= recOuts.Length
      && forall i :: 0 <= i < outCnt && recOuts[i].Some? ==> recOuts[i].value < recPool.Length
    }

    /** The outputs as a caller sees them, until the next record is read. */
    ghost function Outs(): seq<Option<TxOut>>
      requires Valid()
      reads this, recOuts, recPool
    {
      seq(outCnt, i requires 0 <= i < outCnt && Valid() reads this, recOuts, recPool =>
        if recOuts[i].Some? then Some(recPool[recOuts[i].value]) else None)
    }

    /** NewUtxoRecStatic: whatever was read before, the same record as NewUtxoRec's. */
    method NewUtxoRecStatic(codec: Codec, key: Bytes, dat: Bytes, ghost txid0: Bytes, ghost rec0: Rec)
      returns (txid: Bytes, coinbase: bool, inBlock: nat)
      requires |txid0| == 32 && Fits(codec, rec0) && key == txid0[..UtxoIdxLen] && dat == RecBytes(codec, txid0, rec0, false)
      requires recOuts.Length == recPool.Length
      modifies this, recOuts, recPool
      ensures Valid() && txid == txid0 && Rec(coinbase, inBlock, Outs()) == Back(codec, rec0)
      ensures recOuts == old(recOuts) || fresh(recOuts)
      ensures recPool == old(recPool) || fresh(recPool)
    {
      hide OutsFrom, OutBytes, OutFits, ValueOf, ScriptBytes, VULe, RecBytes, Holds;
      HeadAt(codec, txid0, rec0, dat);
      var off := 32 - UtxoIdxLen;
      txid := key + dat[..off];
      assert txid == txid0;
      var (height, n) := VULe(dat[off..]);
      inBlock := height;
      off := off + n;
      var (cnt, n2) := VULe(dat[off..]);
      off := off + n2;
      coinbase := cnt % 2 != 0;
      Reset(cnt / 2);
      NoneHeld(BackOuts(codec, rec0.outs));
      var recIdx := 0;
      ghost var k := 0;
      while off < |dat|
        invariant off <= |dat| && 0 <= k <= |rec0.outs| && dat[off..] == OutsFrom(codec, rec0.outs, k)
        invariant recIdx <= k && outCnt == |rec0.outs| && Holds(BackOuts(codec, rec0.outs), k, recIdx)
        invariant recOuts == old(recOuts) || fresh(recOuts)
        invariant recPool == old(recPool) || fresh(recPool)
        decreases |dat| - off
      {
        ghost var j := NextOut(codec, rec0.outs, k);
        ghost var out, rest := rec0.outs[j].value, OutsFrom(codec, rec0.outs, j + 1);
        var idx, value, scr;
        idx, value, scr, off := ReadOut(codec, dat, off, j, out, rest);
        Put(idx, recIdx, TxOut(value, scr), BackOuts(codec, rec0.outs), k);
        recIdx := recIdx + 1;
        k := j + 1;
      }
      ghost var last := NextOut(codec, rec0.outs, k);
      AllHeld(BackOuts(codec, rec0.outs), k, recIdx);
    }

    lemma NoneHeld(outs: seq<Option<TxOut>>)
      requires recOuts.Length == recPool.Length >= |outs| == outCnt && forall i :: 0 <= i < outCnt ==> recOuts[i].None?
      ensures Holds(outs, 0, 0)
    {
    }

    /** One output goes to the next place of the pool. */
    method Put(idx: nat, place: nat, out: TxOut, ghost outs: seq<Option<TxOut>>, ghost k: nat)
      requires Holds(outs, k, place) && place <= k <= idx < |outs| && outs[idx] == Some(out) && forall x :: k <= x < idx ==> outs[x].None?
      modifies recOuts, recPool
      ensures Holds(outs, idx + 1, place + 1)
    {
      recOuts[idx] := Some(place);
      recPool[place] := out;
    }

    lemma AllHeld(outs: seq<Option<TxOut>>, k: nat, used: nat)
      requires Holds(outs, k, used) && k <= |outs| && forall x :: k <= x < |outs| ==> outs[x].None?
      ensures Valid() && Outs() == outs
    {
    }

    /** Outputs below k are in the first used places of the pool; there are none at k and above. */
    ghost predicate Holds(outs: seq<Option<TxOut>>, k: nat, used: nat)
      reads this, recOuts, recPool
    {
      && recOuts.Length == recPool.Length && outCnt == |outs| <= recOuts.Length && used <= recPool.Length
      && forall i :: 0 <= i < outCnt ==>
           if i < k && outs[i].Some? then recOuts[i].Some? && recOuts[i].value < used && recPool[recOuts[i].value] == outs[i].value
           else recOuts[i].None?
    }

    method Reset(cnt: nat)
      requires recOuts.Length == recPool.Length
      modifies this, recOuts
      ensures recOuts.Length == recPool.Length >= cnt && outCnt == cnt
      ensures forall i :: 0 <= i < cnt ==> recOuts[i].None?
      ensures recOuts == old(recOuts) || fresh(recOuts)
      ensures recPool == old(recPool) || fresh(recPool)
    {
      if recOuts.Length < cnt {
        recOuts := new Option<nat>[cnt](_ => None);
        recPool := new TxOut[cnt](_ => TxOut(0, []));
      }
      outCnt := cnt;
      for i := 0 to cnt
        invariant recOuts.Length == recPool.Length >= cnt && outCnt == cnt
        invariant recOuts == old(recOuts) || fresh(recOuts)
        invariant recPool == old(recPool) || fresh(recPool)
        invariant forall k :: 0 <= k < i ==> recOuts[k].None?
      {
        recOuts[i] := None;
      }
    }
  }
}
