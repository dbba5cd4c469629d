/** A peer connection: the send buffer shared with the writing thread, and the message parser at the other end. */
module PeerStream {
  import opened Utxo
  import opened VarInt

  datatype Msg = Msg(cmd: Bytes, pl: Bytes)

  /** The network's magic, and the first four bytes of a double SHA-256, which are not part of this model. */
  datatype Wire = Wire(magic: Bytes, sum: Bytes -> Bytes)

  ghost predicate WireOk(w: Wire) {
    |w.magic| == 4 && forall pl :: |w.sum(pl)| == 4
  }

  const SendBufSize := 16777216

  function Ascii(s: string): Bytes {
    seq(|s|, i requires 0 <= i < |s| => s[i] as nat)
  }

  /** maxmsgsize. */
  function MaxMsgSize(cmd: Bytes): nat {
    if cmd == Ascii("inv") then 9 + 50000 * 36
    else if cmd == Ascii("tx") then 500000
    else if cmd == Ascii("addr") then 9 + 1000 * 30
    else if cmd == Ascii("block") then 4000000
    else if cmd == Ascii("getblocks") then 4 + 9 + 101 * 32 + 32
    else if cmd == Ascii("getdata") then 9 + 50000 * 36
    else if cmd == Ascii("headers") then 9 + 2000 * 89
    else if cmd == Ascii("getheaders") then 4 + 9 + 101 * 32 + 32
    else if cmd == Ascii("cmpctblock") then 1000000
    else if cmd == Ascii("getblocktxn") then 1000000
    else if cmd == Ascii("blocktxn") then 4000000
    else if cmd == Ascii("notfound") then 9 + 50000 * 36
    else if cmd == Ascii("getmp") then 9 + 8 * 1000000
    else 1024
  }

  function Zeros(n: nat): (z: Bytes)
    ensures |z| == n
  {
    seq(n, _ => 0)
  }

  function TrimRight(s: Bytes): Bytes {
    if s != [] && s[|s| - 1] == 0 then TrimRight(s[..|s| - 1]) else s
  }

  /** A message that can be sent: the command fits its field and has no zero at its end, the payload is not too big. */
  ghost predicate Sendable(m: Msg) {
    |m.cmd| <= 12 && (m.cmd == [] || m.cmd[|m.cmd| - 1] != 0) && |m.pl| <= MaxMsgSize(m.cmd)
  }

  function Header(w: Wire, m: Msg): Bytes
    requires |m.cmd| <= 12
  {
    w.magic + (m.cmd + Zeros(12 - |m.cmd|)) + LittleEndian(|m.pl|, 4) + w.sum(m.pl)
  }

  function Frame(w: Wire, m: Msg): Bytes
    requires |m.cmd| <= 12
  {
    Header(w, m) + m.pl
  }

  ghost predicate AllSendable(ms: seq<Msg>) {
    forall i :: 0 <= i < |ms| ==> Sendable(ms[i])
  }

  /** The bytes of a list of messages, one after another. */
  ghost function Stream(w: Wire, ms: seq<Msg>): Bytes
    requires AllSendable(ms)
  {
    if ms == [] then [] else Stream(w, ms[..|ms| - 1]) + Frame(w, ms[|ms| - 1])
  }

  lemma {:induction false} Trimmed(cmd: Bytes, n: nat)
    requires cmd == [] || cmd[|cmd| - 1] != 0
    ensures TrimRight(cmd + Zeros(n)) == cmd
  {
    var s := cmd + Zeros(n);
    if n == 0 {
      assert s == cmd;
    } else {
      assert s[..|s| - 1] == cmd + Zeros(n - 1);
      Trimmed(cmd, n - 1);
    }
  }

  lemma SizesFit(cmd: Bytes)
    ensures MaxMsgSize(cmd) < SendBufSize - 24 < W32
  {
  }

  /** What the parser finds in the header of a message. */
  lemma HeaderParts(w: Wire, m: Msg)
    requires WireOk(w) && Sendable(m)
    ensures var h := Header(w, m);
            && |h| == 24 && h[..4] == w.magic && TrimRight(h[4..16]) == m.cmd
            && FromLittleEndian(h[16..20]) == |m.pl| && h[20..24] == w.sum(m.pl)
  {
    var h := Header(w, m);
    assert h[4..16] == m.cmd + Zeros(12 - |m.cmd|);
    assert h[16..20] == LittleEndian(|m.pl|, 4);
    Trimmed(m.cmd, 12 - |m.cmd|);
    SizesFit(m.cmd);
    Widths();
    LittleEndianBack(|m.pl|, 4);
  }

  lemma {:induction false} StreamPrefix(w: Wire, ms: seq<Msg>, k: nat)
    requires AllSendable(ms) && k <= |ms|
    ensures AllSendable(ms[..k]) && Stream(w, ms[..k]) <= Stream(w, ms)
    decreases |ms|
  {
    if k == |ms| {
      assert ms[..k] == ms;
    } else {
      var init := ms[..|ms| - 1];
      assert init[..k] == ms[..k];
      StreamPrefix(w, init, k);
    }
  }

  lemma StreamNext(w: Wire, ms: seq<Msg>, m: Msg)
    requires AllSendable(ms) && Sendable(m)
    ensures AllSendable(ms + [m]) && Stream(w, ms + [m]) == Stream(w, ms) + Frame(w, m)
  {
    assert (ms + [m])[..|ms|] == ms;
  }

  /** What has been read of the stream after its first k messages is the beginning of the next one. */
  lemma NextMessage(w: Wire, sent: seq<Msg>, k: nat, part: Bytes)
    requires AllSendable(sent) && k <= |sent| && AllSendable(sent[..k]) && Stream(w, sent[..k]) + part <= Stream(w, sent)
    ensures part != [] ==> k < |sent|
    ensures k < |sent| && |part| <= |Frame(w, sent[k])| ==> part <= Frame(w, sent[k])
  {
    if k == |sent| {
      assert sent[..k] == sent;
    } else {
      StreamPrefix(w, sent, k + 1);
      assert sent[..k + 1][..k] == sent[..k];
      if |part| <= |Frame(w, sent[k])| {
        ShorterPrefix(Stream(w, sent[..k]), part, Frame(w, sent[k]), Stream(w, sent));
      }
    }
  }

  lemma ShorterPrefix(x: Bytes, a: Bytes, b: Bytes, s: Bytes)
    requires x + a <= s && x + b <= s && |a| <= |b|
    ensures a <= b
  {
    forall i | 0 <= i < |a|
      ensures a[i] == b[i]
    {
      assert (x + a)[|x| + i] == s[|x| + i] == (x + b)[|x| + i];
    }
  }

  /** Reading k bytes off the wire. */
  lemma ReadOff(a: Bytes, p: Bytes, wire: Bytes, t: Bytes, k: nat)
    requires k <= |wire|
    ensures a + (p + wire[..k]) + wire[k..] + t == a + p + wire + t
    ensures p + wire[..k] <= p + wire
  {
    assert wire == wire[..k] + wire[k..];
  }

  lemma Begins(a: Bytes, p: Bytes, wire: Bytes, t: Bytes, part: Bytes)
    requires part <= p + wire
    ensures a + part <= a + p + wire + t
  {
    assert p + wire == part + (p + wire)[|part|..];
    assert a + p + wire + t == a + part + ((p + wire)[|part|..] + t);
  }

  lemma Lengthened(s: Bytes, a: Bytes, u: Bytes, n: nat, f: Bytes)
    requires n <= |u| && s == a + u[n..]
    ensures s + f == a + (u + f)[n..]
  {
    assert (u + f)[n..] == u[n..] + f;
  }

  lemma HandedOn(a: Bytes, p: Bytes, wire: Bytes, t: Bytes)
    ensures (a + p) + [] + wire + t == a + p + wire + t
  {
    assert (a + p) + [] == a + p;
  }

  // The ring.

  function Mod(x: int): nat {
    x % SendBufSize
  }

  /** len bytes of the buffer, from position cons on and around its end. */
  ghost function Ring(buf: seq<nat>, cons: nat, len: nat): (r: Bytes)
    requires |buf| == SendBufSize
    ensures |r| == len
  {
    seq(len, i requires 0 <= i < len => buf[Mod(cons + i)])
  }

  lemma ModNear(x: nat)
    requires x < 2 * SendBufSize
    ensures Mod(x) == if x < SendBufSize then x else x - SendBufSize
  {
  }

  lemma RingSplit(buf: seq<nat>, cons: nat, len: nat, n: nat)
    requires |buf| == SendBufSize && cons < SendBufSize && n <= len < SendBufSize
    ensures Ring(buf, cons, len)[..n] == Ring(buf, cons, n)
    ensures Ring(buf, Mod(cons + n), len - n) == Ring(buf, cons, len)[n..]
  {
    var rest := Ring(buf, Mod(cons + n), len - n);
    forall i | 0 <= i < len - n
      ensures rest[i] == Ring(buf, cons, len)[n + i]
    {
      ModNear(cons + n);
      ModNear(Mod(cons + n) + i);
      ModNear(cons + (n + i));
    }
  }

  lemma RingFlat(buf: seq<nat>, cons: nat, n: nat)
    requires |buf| == SendBufSize && cons + n <= SendBufSize
    ensures Ring(buf, cons, n) == buf[cons..cons + n]
  {
    forall i | 0 <= i < n
      ensures Ring(buf, cons, n)[i] == buf[cons + i]
    {
      ModNear(cons + i);
    }
  }

  /** Writing d behind the bytes in the ring leaves those alone. */
  lemma RingAppend(buf: seq<nat>, buf': seq<nat>, cons: nat, len: nat, d: Bytes)
    requires |buf| == |buf'| == SendBufSize && cons < SendBufSize && len + |d| < SendBufSize
    requires forall k :: 0 <= k < SendBufSize ==>
      buf'[k] == var at := Mod(k - Mod(cons + len)); if at < |d| then d[at] else buf[k]
    ensures Ring(buf', cons, len + |d|) == Ring(buf, cons, len) + d
  {
    forall i | 0 <= i < len + |d|
      ensures Ring(buf', cons, len + |d|)[i] == (Ring(buf, cons, len) + d)[i]
    {
      Offset(cons, len, |d|, i);
    }
  }

  /** The two copies of append_to_send_buffer put d there. */
  lemma RingCopied(buf: seq<nat>, buf': seq<nat>, cons: nat, len: nat, prod: nat, d: Bytes)
    requires |buf| == |buf'| == SendBufSize && cons < SendBufSize && len + |d| < SendBufSize && prod == Mod(cons + len)
    requires forall k :: 0 <= k < SendBufSize ==>
      buf'[k] == if prod <= k < prod + |d| then d[k - prod]
                 else if k + SendBufSize < prod + |d| then d[k + SendBufSize - prod] else buf[k]
    ensures Ring(buf', cons, len + |d|) == Ring(buf, cons, len) + d
  {
    RingAppend(buf, buf', cons, len, d);
  }

  lemma Offset(cons: nat, len: nat, n: nat, i: nat)
    requires cons < SendBufSize && len + n < SendBufSize && i < len + n
    ensures var at := Mod(Mod(cons + i) - Mod(cons + len)); if i < len then at >= n else at == i - len
  {
    ModNear(cons + i);
    ModNear(cons + len);
  }

  /** Where the writing thread is: looking for work, about to write some bytes, or having written some of those. */
  datatype Writer = Idle | Writing(count: nat) | Wrote(count: nat)

  datatype Fetched = Nothing | Got(m: Msg) | BadMagic | TooBig | BadChecksum

  datatype Step = Send(m: Msg) | Look | Write(n: nat) | Advance | ReadHdr(n: nat) | ReadData(n: nat)

  class Connection {
    const w: Wire
    const sendBuf: array<nat>
    var SendBufProd: nat
    var SendBufCons: nat
    var writer: Writer
    /** Bytes between the two sockets. */
    var wire: Bytes
    var hdr: Bytes
    var plLen: nat
    var cmd: Bytes
    var dat: Option<Bytes>
    ghost var sent: seq<Msg>
    ghost var received: seq<Msg>

    constructor (w: Wire)
      requires WireOk(w)
      ensures Valid() && sent == [] && received == [] && fresh(sendBuf) && this.w == w
    {
      this.w := w;
      sendBuf := new nat[SendBufSize](_ => 0);
      SendBufProd, SendBufCons, writer := 0, 0, Idle;
      wire, hdr, plLen, cmd, dat := [], [], 0, [], None;
      sent, received := [], [];
      new;
      assert sent[..0] == [];
    }

    /** BytesToSent. */
    function BytesToSent(): nat
      requires SendBufProd < SendBufSize && SendBufCons < SendBufSize
      reads this
    {
      if SendBufProd >= SendBufCons then SendBufProd - SendBufCons else SendBufProd + SendBufSize - SendBufCons
    }

    /** The bytes in the buffer that the other side may not have seen yet. */
    ghost function Unsent(): Bytes
      requires sendBuf.Length == SendBufSize && SendBufProd < SendBufSize && SendBufCons < SendBufSize
      reads this, sendBuf
    {
      Ring(sendBuf[..], SendBufCons, BytesToSent())
    }

    /** How many of those are written already, though the writing thread has not said so yet. */
    ghost function InFlight(): nat
      reads this
    {
      if writer.Wrote? then writer.count else 0
    }

    /** What the parser holds of the message it is reading. */
    ghost function Partial(): Bytes
      reads this
    {
      hdr + if dat.Some? then dat.value else []
    }

    /** How long the message is that the parser is reading, if one has been sent. */
    ghost function NextSize(): nat
      reads `received, `sent
    {
      if |received| < |sent| && |sent[|received|].cmd| <= 12 then |Frame(w, sent[|received|])| else 0
    }

    ghost predicate BufferValid()
      reads this
    {
      && sendBuf.Length == SendBufSize && SendBufProd < SendBufSize && SendBufCons < SendBufSize
      && match writer
         case Idle => true
         case Writing(n) => 0 < n <= BytesToSent() && SendBufCons + n <= SendBufSize
         case Wrote(n) => 0 < n <= BytesToSent() && SendBufCons + n <= SendBufSize
    }

    ghost predicate ParserValid()
      reads this
    {
      && |hdr| <= 24 && (|hdr| < 24 ==> dat.None?)
      && (|hdr| == 24 ==> plLen == FromLittleEndian(hdr[16..20]) && cmd == TrimRight(hdr[4..16]))
      && (dat.Some? ==> plLen > 0 && |dat.value| < plLen)
    }

    /**
     * Everything accepted for sending is, in order: received, held by the parser, on the wire, or still in the buffer,
     * of which the first bytes may be in flight. What has been received is a prefix of what was accepted.
     */
    ghost predicate Valid()
      reads this, sendBuf
    {
      && WireOk(w) && BufferValid() && ParserValid() && AllSendable(sent) && AllSendable(received) && received <= sent
      && Flow()
    }

    ghost predicate Flow()
      requires BufferValid() && AllSendable(sent) && AllSendable(received)
      reads this, sendBuf
    {
      Stream(w, sent) == Stream(w, received) + Partial() + wire + Unsent()[InFlight()..]
    }

    /** append_to_send_buffer. */
    method AppendToSendBuffer(d: Bytes)
      requires BufferValid() && BytesToSent() + |d| < SendBufSize
      modifies sendBuf, `SendBufProd
      ensures BufferValid() && BytesToSent() == old(BytesToSent()) + |d|
      ensures Unsent() == old(Unsent()) + d
    {
      ghost var buf, len := sendBuf[..], BytesToSent();
      var roomLeft := SendBufSize - SendBufProd;
      ProdIs();
      if roomLeft >= |d| {
        Copy(SendBufProd, d);
      } else {
        Copy(SendBufProd, d[..roomLeft]);
        Copy(0, d[roomLeft..]);
      }
      RingCopied(buf, sendBuf[..], SendBufCons, len, SendBufProd, d);
      ModNear(SendBufProd + |d|);
      SendBufProd := (SendBufProd + |d|) % SendBufSize;
    }

    method AppendFrame(sbuf: Bytes, pl: Bytes)
      requires BufferValid() && BytesToSent() + |sbuf| + |pl| < SendBufSize
      modifies sendBuf, `SendBufProd
      ensures BufferValid() && Unsent() == old(Unsent()) + (sbuf + pl)
    {
      hide Ring;
      ghost var before := Unsent();
      AppendToSendBuffer(sbuf);
      AppendToSendBuffer(pl);
      assert (before + sbuf) + pl == before + (sbuf + pl);
    }

    lemma ProdIs()
      requires BufferValid()
      ensures SendBufProd == Mod(SendBufCons + BytesToSent())
    {
      ModNear(SendBufCons + BytesToSent());
    }

    method Copy(at: nat, d: Bytes)
      requires sendBuf.Length == SendBufSize && at + |d| <= SendBufSize
      modifies sendBuf
      ensures forall k :: 0 <= k < SendBufSize ==> sendBuf[k] == if at <= k < at + |d| then d[k - at] else old(sendBuf[k])
    {
      for i := 0 to |d|
        invariant forall k :: 0 <= k < SendBufSize ==> sendBuf[k] == if at <= k < at + i then d[k - at] else old(sendBuf[k])
      {
        sendBuf[at + i] := d[i];
      }
    }

    /** SendRawMsg: refused when the message would fill the buffer; nothing unsent is ever overwritten. */
    method SendRawMsg(m: Msg) returns (accepted: bool)
      requires Valid() && Sendable(m)
      modifies `SendBufProd, `sent, sendBuf
      ensures Valid()
      ensures accepted <==> old(BytesToSent()) + |m.pl| + 24 < SendBufSize
      ensures sent == if accepted then old(sent) + [m] else old(sent)
      ensures Unsent() == if accepted then old(Unsent()) + Frame(w, m) else old(Unsent())
    {
      hide Header, Ring, MaxMsgSize, TrimRight, Stream;
      var bytesLeft := SendBufSize - BytesToSent();
      if bytesLeft <= |m.pl| + 24 {
        return false;
      }
      ghost var before := Unsent();
      HeaderParts(w, m);
      var sbuf := Header(w, m);
      AppendFrame(sbuf, m.pl);
      StreamNext(w, sent, m);
      Lengthened(Stream(w, sent), Stream(w, received) + Partial() + wire, before, InFlight(), Frame(w, m));
      sent := sent + [m];
      accepted := true;
    }

    /** The writing thread looks, under the lock, how much there is to write without going round the buffer's end. */
    method WriterLook()
      requires Valid() && writer.Idle?
      modifies `writer
      ensures Valid() && (writer.Idle? <==> BytesToSent() == 0)
      ensures writer.Idle? || writer == Writing(if SendBufCons + BytesToSent() > SendBufSize then SendBufSize - SendBufCons else BytesToSent())
    {
      hide Ring, Stream, TrimRight;
      if SendBufProd == SendBufCons {
        return;
      }
      var bytesToSend := SendBufProd - SendBufCons;
      if bytesToSend < 0 {
        bytesToSend := bytesToSend + SendBufSize;
      }
      if SendBufCons + bytesToSend > SendBufSize {
        bytesToSend := SendBufSize - SendBufCons;
      }
      writer := Writing(bytesToSend);
    }

    /** SockWrite, without the lock: the socket takes n of the bytes, as they are in the buffer now. */
    method WriterWrite(n: nat)
      requires Valid() && writer.Writing? && n <= writer.count
      modifies `writer, `wire
      ensures Valid() && writer == if n == 0 then Idle else Wrote(n)
      ensures wire == old(wire) + old(Unsent())[..n]
    {
      hide Ring, Stream, TrimRight;
      if n == 0 {
        writer := Idle;
        return;
      }
      RingSplit(sendBuf[..], SendBufCons, BytesToSent(), n);
      RingFlat(sendBuf[..], SendBufCons, n);
      ghost var u := Unsent();
      assert u == u[..n] + u[n..];
      wire := wire + sendBuf[SendBufCons..SendBufCons + n];
      writer := Wrote(n);
    }

    /** Under the lock again: the bytes written leave the buffer. */
    method WriterAdvance()
      requires Valid() && writer.Wrote?
      modifies `writer, `SendBufCons
      ensures Valid() && writer.Idle? && Unsent() == old(Unsent())[old(writer.count)..]
    {
      hide Ring, Stream, TrimRight;
      var n := writer.count;
      RingSplit(sendBuf[..], SendBufCons, BytesToSent(), n);
      ModNear(SendBufCons + n);
      SendBufCons := (SendBufCons + n) % SendBufSize;
      writer := Idle;
    }

    /** What the parser has read is the beginning of the next message. */
    lemma PartialIsNext(part: Bytes)
      requires Valid() && part <= Partial() + wire
      ensures |received| <= |sent| && received == sent[..|received|]
      ensures part != [] ==> |received| < |sent| && Sendable(sent[|received|])
      ensures |received| < |sent| && |part| <= |Frame(w, sent[|received|])| ==> part <= Frame(w, sent[|received|])
    {
      hide Header, Ring, MaxMsgSize, TrimRight, Stream;
      var k := |received|;
      Begins(Stream(w, received), Partial(), wire, Unsent()[InFlight()..], part);
      assert sent[..k] == received;
      NextMessage(w, sent, k, part);
    }

    lemma HeaderBegins(part: Bytes)
      requires Valid() && part <= Partial() + wire && |part| <= 24
      ensures |part| >= 4 ==> part[..4] == w.magic
    {
      hide Ring, Stream, TrimRight, MaxMsgSize;
      PartialIsNext(part);
      if part != [] {
        HeaderParts(w, sent[|received|]);
      }
    }

    /** The header half of FetchMessage: one read, of any number of bytes. */
    method ReadHeader(n: nat) returns (r: Fetched)
      requires Valid() && |hdr| < 24
      modifies `hdr, `wire, `plLen, `cmd
      ensures Valid() && r == Nothing
      ensures var k := Least(n, 24 - |old(hdr)|, |old(wire)|);
              |hdr| == |old(hdr)| + k && wire == old(wire)[k..] && Partial() == old(Partial()) + old(wire)[..k]
    {
      hide Ring, Stream, TrimRight, MaxMsgSize, Header;
      var k := Least(n, 24 - |hdr|, |wire|);
      ghost var tail := Unsent()[InFlight()..];
      ReadOff(Stream(w, received), hdr, wire, tail, k);
      HeaderBegins(hdr + wire[..k]);
      assert Partial() == hdr;
      hdr := hdr + wire[..k];
      wire := wire[k..];
      assert Partial() == hdr == old(Partial()) + old(wire)[..k];
      if |hdr| >= 4 && hdr[..4] != w.magic {
        return BadMagic;
      }
      if |hdr| == 24 {
        plLen := FromLittleEndian(hdr[16..20]);
        cmd := TrimRight(hdr[4..16]);
      }
      r := Nothing;
    }

    /** A complete header is that of the next message. */
    lemma HeaderKnown()
      requires Valid() && |hdr| == 24
      ensures |received| < |sent|
      ensures var m := sent[|received|];
              && |m.cmd| <= 12 && hdr == Header(w, m) && hdr[20..24] == w.sum(m.pl)
              && cmd == m.cmd && plLen == |m.pl| <= MaxMsgSize(m.cmd) && NextSize() == 24 + |m.pl|
    {
      hide Ring, Stream, TrimRight, MaxMsgSize, Header;
      PartialIsNext(hdr);
      ghost var m := sent[|received|];
      HeaderParts(w, m);
      assert hdr == Frame(w, m)[..24] == Header(w, m);
    }

    /** The payload half. */
    method ReadBody(n: nat) returns (r: Fetched)
      requires Valid() && |hdr| == 24
      modifies `hdr, `wire, `cmd, `dat, `received
      ensures Valid() && (r == Nothing || r.Got?)
      ensures received == if r.Got? then old(received) + [r.m] else old(received)
      ensures r.Got? ==> |old(received)| < |sent| && r.m == sent[|old(received)|]
      ensures |old(received)| < |sent| && old(NextSize() >= |Partial()|)
      ensures var left := old(NextSize() - |Partial()|); var k := Least(n, left, |old(wire)|);
              wire == old(wire)[k..] && (r.Got? <==> k == left) && if r.Got? then Partial() == [] else Partial() == old(Partial()) + old(wire)[..k]
    {
      hide Ring, Stream, TrimRight, MaxMsgSize, Header, Sendable, FromLittleEndian, NextSize;
      HeaderKnown();
      ghost var m := sent[|received|];
      if plLen > 0 {
        if dat.None? {
          if plLen > MaxMsgSize(cmd) {
            return TooBig;
          }
          assert Partial() + [] == Partial();
          dat := Some([]);
          assert Partial() == old(Partial());
        }
        ReadPayload(n, m);
        if |dat.value| < plLen {
          return Nothing;
        }
      } else {
        assert wire[0..] == wire;
      }
      var payload := if dat.Some? then dat.value else [];
      assert payload == m.pl;
      if hdr[20..24] != w.sum(payload) {
        return BadChecksum;
      }
      r := Got(Msg(cmd, payload));
      Deliver(m);
    }

    /** SockRead of what is missing of the payload, or less. */
    method ReadPayload(n: nat, ghost m: Msg)
      requires Valid() && |hdr| == 24 && dat.Some? && |received| < |sent| && m == sent[|received|] && plLen == |m.pl|
      requires |m.cmd| <= 12 && |Header(w, m)| == 24 && hdr == Header(w, m)
      modifies `wire, `dat
      ensures dat.Some? && dat.value <= m.pl && Flow()
      ensures var k := Least(n, |m.pl| - |old(dat).value|, |old(wire)|);
              wire == old(wire)[k..] && |dat.value| == |old(dat).value| + k && Partial() == old(Partial()) + old(wire)[..k]
    {
      hide Ring, Stream, TrimRight, MaxMsgSize, Header;
      var k := Least(n, plLen - |dat.value|, |wire|);
      ghost var more, tail := dat.value + wire[..k], Unsent()[InFlight()..];
      ReadOff(Stream(w, received), Partial(), wire, tail, k);
      assert Partial() + wire[..k] == hdr + more;
      PartialIsNext(hdr + more);
      assert (hdr + more)[24..] == more && Frame(w, m)[24..] == m.pl;
      dat := Some(dat.value + wire[..k]);
      wire := wire[k..];
      assert Partial() == hdr + more;
    }

    /** The message is handed on, and the parser starts afresh. */
    method Deliver(ghost m: Msg)
      requires WireOk(w) && BufferValid() && AllSendable(sent) && AllSendable(received) && received <= sent && Flow()
      requires |received| < |sent| && m == sent[|received|] && Partial() == Frame(w, m)
      modifies `hdr, `cmd, `dat, `received
      ensures Valid() && hdr == [] && received == old(received) + [m]
    {
      hide Ring, TrimRight, Header;
      hide Stream;
      StreamNext(w, received, m);
      HandedOn(Stream(w, received), Partial(), wire, Unsent()[InFlight()..]);
      assert (received + [m])[..|received|] == received && received + [m] <= sent;
      hdr, cmd, dat := [], [], None;
      received := received + [m];
    }

    /**
     * FetchMessage: a read of the header if that is not complete, and, once it is, one of the payload. Nothing is lost,
     * something is read or returned if something is there, and a message that is there is returned if the reads go far enough.
     */
    method FetchMessage(n1: nat, n2: nat) returns (r: Fetched)
      requires Valid()
      modifies `hdr, `wire, `plLen, `cmd, `dat, `received
      ensures Valid() && (r == Nothing || r.Got?)
      ensures received == if r.Got? then old(received) + [r.m] else old(received)
      ensures r == Nothing ==> Partial() + wire == old(Partial() + wire)
      ensures n1 > 0 && n2 > 0 && old(wire) != [] ==> r.Got? || |wire| < |old(wire)|
      ensures n1 >= 24 && n2 >= SendBufSize && |old(received)| < |sent| && old(|Partial() + wire| >= NextSize()) ==> r.Got?
    {
      hide Valid, NextSize, Unsent;
      HeaderSize();
      NextFits();
      ghost var p, was := Partial(), wire;
      r := Nothing;
      if |hdr| < 24 {
        NextLong();
        r := ReadHeader(n1);
        assert Partial() + wire == p + was;
        if r != Nothing || |hdr| < 24 {
          return;
        }
      }
      ghost var p1, was1 := Partial(), wire;
      r := ReadBody(n2);
      if r == Nothing {
        assert Partial() + wire == p1 + was1;
      }
    }

    lemma NextFits()
      requires Valid()
      ensures NextSize() < SendBufSize && |hdr| <= |Partial()| && (|hdr| < 24 ==> Partial() == hdr)
    {
      hide Ring, TrimRight, Stream, Header, Flow;
      if |received| < |sent| {
        HeaderParts(w, sent[|received|]);
        SizesFit(sent[|received|].cmd);
      }
    }

    lemma NextLong()
      requires Valid()
      ensures |received| < |sent| ==> NextSize() >= 24
    {
      hide Ring, TrimRight, Stream, MaxMsgSize, Header, Flow;
      if |received| < |sent| {
        HeaderParts(w, sent[|received|]);
      }
    }

    /** Any schedule of the sender, the writing thread and the reader, each step in one of its states. */
    method Run(steps: seq<Step>)
      requires Valid() && forall i :: 0 <= i < |steps| && steps[i].Send? ==> Sendable(steps[i].m)
      modifies this, sendBuf
      ensures Valid() && old(sent) <= sent && old(received) <= received <= sent
    {
      hide Valid;
      SentOrder();
      for i := 0 to |steps|
        invariant Valid() && old(sent) <= sent && old(received) <= received <= sent
      {
        match steps[i]
        case Send(m) =>
          var _ := SendRawMsg(m);
        case Look =>
          if writer.Idle? { WriterLook(); }
        case Write(n) =>
          if writer.Writing? && n <= writer.count { WriterWrite(n); }
        case Advance =>
          if writer.Wrote? { WriterAdvance(); }
        case ReadHdr(n) =>
          if |hdr| < 24 { var _ := ReadHeader(n); }
        case ReadData(n) =>
          HeaderSize();
          if |hdr| == 24 { var _ := ReadBody(n); }
        SentOrder();
      }
    }

    /** With nothing in the buffer, on the wire or half read, everything accepted has been received. */
    lemma AllArrived()
      requires Valid() && Unsent() == [] && wire == [] && Partial() == []
      ensures received == sent
    {
      hide Ring, TrimRight, Header, MaxMsgSize;
      assert Stream(w, sent) == Stream(w, received);
      if |received| < |sent| {
        var k := |received|;
        assert sent[..k] == received;
        StreamPrefix(w, sent, k + 1);
        assert sent[..k + 1] == received + [sent[k]];
        StreamNext(w, received, sent[k]);
        HeaderParts(w, sent[k]);
      }
    }

    /** The writing thread left to itself, with a socket that takes all it is given, empties the buffer. */
    method Flush()
      requires Valid()
      modifies `writer, `wire, `SendBufCons
      ensures Valid() && writer.Idle? && Unsent() == [] && InFlight() == 0
      ensures wire == old(wire) + old(Unsent()[InFlight()..])
    {
      hide Ring, Stream, TrimRight, Flow, Header;
      ghost var all := wire + Unsent()[InFlight()..];
      if writer.Wrote? {
        WriterAdvance();
        assert Unsent() == Unsent()[0..];
      }
      while !writer.Idle? || BytesToSent() > 0
        invariant Valid() && !writer.Wrote? && wire + Unsent() == all
        decreases BytesToSent(), writer.Idle?
      {
        if writer.Idle? {
          WriterLook();
        } else {
          ghost var u, n := Unsent(), writer.count;
          WriterWrite(writer.count);
          WriterAdvance();
          assert wire + Unsent() == all by {
            assert u == u[..n] + u[n..];
          }
        }
      }
    }

    /** Nothing gets stuck: from any state whatever, all that has been accepted arrives. */
    method Drain()
      requires Valid()
      modifies this
      ensures Valid() && sent == old(sent) && received == sent && Unsent() == [] && wire == [] && Partial() == []
    {
      hide Ring, Stream, TrimRight, Header;
      Flush();
      while wire != [] || hdr != []
        invariant Valid() && sent == old(sent) && Unsent() == [] && InFlight() == 0
        decreases |sent| - |received|
      {
        NextThere();
        var r := FetchMessage(24, SendBufSize);
      }
      NoPayload();
      AllArrived();
    }

    lemma NoPayload()
      requires Valid()
      ensures hdr == [] ==> Partial() == []
    {
      hide Ring, TrimRight, Stream, Flow;
    }

    /** With the buffer empty, the whole next message is at the other side or on the wire. */
    lemma NextThere()
      requires Valid() && Unsent() == [] && InFlight() == 0 && (wire != [] || hdr != [])
      ensures |received| < |sent| && |Partial() + wire| >= NextSize()
    {
      hide Ring, TrimRight, Header, MaxMsgSize;
      var k := |received|;
      assert |Stream(w, sent)| == |Stream(w, received)| + |Partial()| + |wire|;
      assert sent[..k] == received && sent[..|sent|] == sent;
      StreamPrefix(w, sent, k + 1);
      assert sent[..k + 1] == received + [sent[k]];
      StreamNext(w, received, sent[k]);
    }

    lemma SentOrder()
      requires Valid()
      ensures received <= sent
    {
    }

    lemma HeaderSize()
      requires Valid()
      ensures |hdr| <= 24
    {
    }

    static function Least(a: nat, b: nat, c: nat): nat {
      if a <= b && a <= c then a else if b <= c then b else c
    }
  }
}
