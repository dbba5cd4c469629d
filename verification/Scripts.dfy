/** Standard output scripts, and their compressed forms. */
module Scripts {
  import opened Residues
  import opened Utxo
  import opened VarInt

  predicate IsP2KH(scr: Script) {
    |scr| == 25 && scr[0] == 0x76 && scr[1] == 0xa9 && scr[2] == 0x14 && scr[23] == 0x88 && scr[24] == 0xac
  }

  predicate IsP2SH(scr: Script) {
    |scr| == 23 && scr[0] == 0xa9 && scr[1] == 0x14 && scr[22] == 0x87
  }

  predicate IsP2WPKH(scr: Script) {
    |scr| == 22 && scr[0] == 0 && scr[1] == 20
  }

  predicate IsP2WSH(scr: Script) {
    |scr| == 34 && scr[0] == 0 && scr[1] == 32
  }

  predicate IsP2TAP(scr: Script) {
    |scr| == 34 && scr[0] == 0x51 && scr[1] == 32
  }

  // Keys.

  /** Every element is a byte. */
  predicate Octets(s: seq<nat>) {
    forall i :: 0 <= i < |s| ==> s[i] < 256
  }

  function FromBigEndian(b: seq<nat>): nat {
    if b == [] then 0 else 256 * FromBigEndian(b[..|b| - 1]) + b[|b| - 1]
  }

  function BigEndian(v: nat, k: nat): (b: seq<nat>)
    ensures |b| == k && Octets(b)
  {
    if k == 0 then [] else BigEndian(v / 256, k - 1) + [v % 256]
  }

  lemma {:induction false} BigEndianBack(b: seq<nat>)
    requires Octets(b)
    ensures BigEndian(FromBigEndian(b), |b|) == b
  {
    if b != [] {
      var init, l := b[..|b| - 1], b[|b| - 1];
      BigEndianBack(init);
      assert FromBigEndian(b) / 256 == FromBigEndian(init) && FromBigEndian(b) % 256 == l;
      assert b == init + [l];
    }
  }

  lemma {:induction false} FromBigEndianBack(v: nat, k: nat)
    requires v < Pow256(k)
    ensures FromBigEndian(BigEndian(v, k)) == v
  {
    if k > 0 {
      FromBigEndianBack(v / 256, k - 1);
      assert BigEndian(v, k)[..k - 1] == BigEndian(v / 256, k - 1);
    }
  }

  lemma Room()
    ensures P < Pow256(32) == 0x1_0000000000000000_0000000000000000_0000000000000000_0000000000000000
  {
    assert Pow256(8) == 0x1_0000000000000000;
    assert Pow256(16) == 0x1_0000000000000000_0000000000000000;
    assert Pow256(24) == 0x1_0000000000000000_0000000000000000_0000000000000000;
  }

  /** The product modulo P, as repeated addition. */
  function Times(a: nat, b: nat): nat {
    if b == 0 then 0 else (Times(a, b - 1) + a) % P
  }

  lemma {:induction false} TimesIs(a: nat, b: nat)
    ensures Times(a, b) == a * b % P
  {
    if b > 0 {
      TimesIs(a, b - 1);
      var u := a * (b - 1);
      ModAdd(u % P + a, u / P);
      assert a * b == u + a;
    }
  }

  /** The right-hand side of the curve's equation. */
  function Curve(x: nat): nat {
    (Times(Times(x, x), x) + 7) % P
  }

  function Square(y: nat): nat {
    Times(y, y)
  }

  /** Sqrt, with the residue normalized. */
  datatype Keys = Keys(root: nat -> nat)

  /** A root is found wherever there is one, and the only other one is its negative: P is prime. */
  ghost predicate SquareRoots(keys: Keys) {
    forall y: nat :: y < P ==> RootOf(keys, y)
  }

  ghost predicate RootOf(keys: Keys, y: nat)
    requires y < P
  {
    var r := keys.root(Square(y)) % P; r == y || r == (P - y) % P
  }

  function XOf(pk: seq<nat>): nat
    requires |pk| == 65
  {
    FromBigEndian(pk[1..33])
  }

  function YOf(pk: seq<nat>): nat
    requires |pk| == 65
  {
    FromBigEndian(pk[33..65])
  }

  /** ParsePubkey and IsValid, for an uncompressed key: its coordinates may be any numbers of 256 bits. */
  predicate ValidKey(pk: seq<nat>) {
    |pk| == 65 && pk[0] == 0x04 && Square(YOf(pk)) == Curve(XOf(pk))
  }

  /** ParsePubkey of 33 bytes and GetPublicKey of 65: the point with that x and that parity of y, both reduced modulo P. */
  function Complete(keys: Keys, data: seq<nat>): (pk: seq<nat>)
    requires |data| == 33
    ensures |pk| == 65
  {
    var x := FromBigEndian(data[1..33]);
    var r := keys.root(Curve(x)) % P;
    var y := if (r % 2 == 1) != (data[0] == 0x03) then (P - r) % P else r;
    [0x04] + BigEndian(x % P, 32) + BigEndian(y, 32)
  }

  /** The key a script pays to, if it is of that form. */
  function IsP2PK(scr: Script): Option<seq<nat>> {
    if |scr| == 35 && scr[0] == 33 && scr[34] == 0xac && (scr[1] == 0x02 || scr[1] == 0x03) then Some(scr[1..34])
    else if |scr| == 67 && scr[0] == 65 && scr[66] == 0xac && scr[1] == 0x04 && ValidKey(scr[1..66]) then Some(scr[1..66])
    else None
  }

  function CompressScript(scr: Script): Option<seq<nat>> {
    if IsP2KH(scr) then Some([0x00] + scr[3..23])
    else if IsP2SH(scr) then Some([0x01] + scr[2..22])
    else match IsP2PK(scr)
      case None => None
      case Some(pk) => Some([if pk[0] == 0x04 then pk[0] + pk[64] % 2 else pk[0]] + pk[1..33])
  }

  const ComprScrLen: seq<nat> := [21, 21, 33, 33, 33, 33]

  function DecompressScript(keys: Keys, data: seq<nat>): Script
    requires |data| >= 1 && (data[0] < 6 ==> |data| == ComprScrLen[data[0]])
  {
    if data[0] == 0x00 then [0x76, 0xa9, 20] + data[1..21] + [0x88, 0xac]
    else if data[0] == 0x01 then [0xa9, 20] + data[1..] + [0x87]
    else if data[0] == 0x02 || data[0] == 0x03 then [33] + data + [0xac]
    else if data[0] == 0x04 || data[0] == 0x05 then [65] + Complete(keys, [data[0] - 2] + data[1..]) + [0xac]
    else []
  }

  /** c is the compressed form of one of the four kinds of scripts that have one. */
  ghost predicate IsForm(scr: Script, c: seq<nat>) {
    || (|c| == 21 && c[0] == 0x00 && scr == [0x76, 0xa9, 0x14] + c[1..] + [0x88, 0xac])
    || (|c| == 21 && c[0] == 0x01 && scr == [0xa9, 0x14] + c[1..] + [0x87])
    || (|c| == 33 && c[0] in {0x02, 0x03} && scr == [0x21] + c + [0xac])
    || (|c| == 33 && |scr| == 67 && ValidKey(scr[1..66]) && c[0] == 0x04 + scr[65] % 2 && scr == [0x41, 0x04] + c[1..] + scr[34..66] + [0xac])
  }

  lemma HasForm(scr: Script)
    requires CompressScript(scr).Some?
    ensures IsForm(scr, CompressScript(scr).value)
  {
    hide ValidKey;
    if IsP2KH(scr) {
      assert scr == [0x76, 0xa9, 0x14] + scr[3..23] + [0x88, 0xac];
    } else if IsP2SH(scr) {
      assert scr == [0xa9, 0x14] + scr[2..22] + [0x87];
    } else if |scr| == 35 {
      assert scr == [0x21] + scr[1..34] + [0xac] && [scr[1]] + scr[1..34][1..33] == scr[1..34];
    } else {
      assert scr == [0x41, 0x04] + scr[2..34] + scr[34..66] + [0xac];
      assert scr[1..66][1..33] == scr[2..34] && scr[1..66][64] == scr[65];
    }
  }

  lemma FormGiven(scr: Script, c: seq<nat>)
    requires IsForm(scr, c)
    ensures CompressScript(scr) == Some(c)
  {
    hide ValidKey;
    assert c == [c[0]] + c[1..];
    if |c| == 21 && c[0] == 0x00 {
      assert scr[3..23] == c[1..];
    } else if |c| == 21 {
      assert scr[2..22] == c[1..];
    } else if |scr| == 35 {
      assert scr[1..34] == c && c[1..33] == c[1..];
    } else {
      assert scr[1..66][1..33] == c[1..] && scr[1..66][64] == scr[65];
    }
  }

  /** The four kinds of scripts with a compressed form, and the form of each. */
  lemma CompressedForms(scr: Script, c: seq<nat>)
    ensures CompressScript(scr) == Some(c) <==> IsForm(scr, c)
  {
    hide CompressScript, IsForm;
    if IsForm(scr, c) {
      FormGiven(scr, c);
    }
    if CompressScript(scr) == Some(c) {
      HasForm(scr);
    }
  }

  /** A compressed script tells its own length. */
  lemma CompressedLength(scr: Script)
    requires CompressScript(scr).Some?
    ensures var c := CompressScript(scr).value; |c| >= 1 && c[0] < 6 && |c| == ComprScrLen[c[0]]
  {
    hide ValidKey;
  }

  /** What comes back of a script that has been through its compressed form, if it has one. */
  function Restored(keys: Keys, scr: Script): Script {
    match CompressScript(scr)
    case None => scr
    case Some(c) => CompressedLength(scr); DecompressScript(keys, c)
  }

  /** If the script pays to an uncompressed key of the curve, both its coordinates are below P. */
  predicate Reduced(scr: Script) {
    |scr| == 67 && IsP2PK(scr).Some? ==> XOf(scr[1..66]) < P && YOf(scr[1..66]) < P
  }

  lemma KeyParts(pk: seq<nat>)
    requires |pk| == 65 && Octets(pk) && pk[0] == 0x04
    ensures pk == [0x04] + BigEndian(XOf(pk), 32) + BigEndian(YOf(pk), 32)
    ensures YOf(pk) % 2 == pk[64] % 2
  {
    hide BigEndian;
    BigEndianBack(pk[1..33]);
    BigEndianBack(pk[33..65]);
    var y := pk[33..65];
    assert FromBigEndian(y) == 256 * FromBigEndian(y[..31]) + y[31];
    assert pk == [0x04] + pk[1..33] + pk[33..65];
  }

  /** The completed key is the same exactly if its coordinates were reduced. */
  lemma KeyRoundTrip(keys: Keys, pk: seq<nat>)
    requires SquareRoots(keys) && Octets(pk) && ValidKey(pk)
    ensures Complete(keys, [0x02 + pk[64] % 2] + pk[1..33]) == pk <==> XOf(pk) < P && YOf(pk) < P
  {
    hide Square, Curve, BigEndian, FromBigEndian, ValidKey;
    KeyOnCurve(pk);
    var data := [0x02 + pk[64] % 2] + pk[1..33];
    assert data[1..33] == pk[1..33];
    var x, y := XOf(pk), YOf(pk);
    KeyParts(pk);
    var back := Complete(keys, data);
    CompleteParts(keys, data);
    if x < P && y < P {
      assert RootOf(keys, y);
      Parity(y, keys.root(Square(y)) % P);
    }
  }

  lemma KeyOnCurve(pk: seq<nat>)
    requires ValidKey(pk)
    ensures Square(YOf(pk)) == Curve(XOf(pk)) && |pk| == 65 && pk[0] == 0x04
  {
    hide Square, Curve, XOf, YOf;
  }

  lemma Parity(y: nat, r: nat)
    requires y < P && (r == y || r == (P - y) % P)
    ensures (if r % 2 != y % 2 then (P - r) % P else r) == y
  {
  }

  lemma Coordinates(x: nat, y: nat)
    requires x < Pow256(32) && y < Pow256(32)
    ensures var pk := [0x04] + BigEndian(x, 32) + BigEndian(y, 32); XOf(pk) == x && YOf(pk) == y
  {
    hide BigEndian, FromBigEndian, Pow256;
    var pk := [0x04] + BigEndian(x, 32) + BigEndian(y, 32);
    assert pk[1..33] == BigEndian(x, 32) && pk[33..65] == BigEndian(y, 32);
    FromBigEndianBack(x, 32);
    FromBigEndianBack(y, 32);
  }

  lemma CompleteParts(keys: Keys, data: seq<nat>)
    requires |data| == 33
    ensures var pk := Complete(keys, data); XOf(pk) == FromBigEndian(data[1..33]) % P < P && YOf(pk) < P
  {
    hide BigEndian, FromBigEndian, Pow256, Curve, XOf, YOf;
    Room();
    var x := FromBigEndian(data[1..33]);
    var r := keys.root(Curve(x)) % P;
    Coordinates(x % P, if (r % 2 == 1) != (data[0] == 0x03) then (P - r) % P else r);
  }

  /** A script comes back if and only if it is reduced. */
  lemma ScriptRoundTrip(keys: Keys, scr: Script)
    requires SquareRoots(keys) && Octets(scr)
    ensures Restored(keys, scr) == scr <==> Reduced(scr)
  {
    hide ValidKey, Complete, XOf, YOf, SquareRoots;
    if CompressScript(scr).Some? {
      var c := CompressScript(scr).value;
      if IsP2KH(scr) {
        assert c[1..21] == scr[3..23];
      } else if IsP2SH(scr) {
        assert c[1..] == scr[2..22];
      } else if |scr| == 67 {
        var pk := scr[1..66];
        assert IsP2PK(scr) == Some(pk);
        KeyRoundTrip(keys, pk);
        assert c == [0x04 + pk[64] % 2] + pk[1..33];
        assert [c[0] - 2] + c[1..] == [2 + pk[64] % 2] + pk[1..33];
        var back := Complete(keys, [2 + pk[64] % 2] + pk[1..33]);
        assert Restored(keys, scr) == [65] + back + [0xac];
        assert scr == [65] + pk + [0xac];
        assert ([65] + back + [0xac])[1..66] == back;
      } else {
        assert c == scr[1..34];
        assert scr == [33] + scr[1..34] + [0xac];
      }
    }
  }

  // Two keys of the curve that do not come back.

  function KeyScript(x: nat, y: nat): (scr: Script)
    ensures |scr| == 67 && Octets(scr)
  {
    [65, 0x04] + BigEndian(x, 32) + BigEndian(y, 32) + [0xac]
  }

  lemma KeyScriptParts(x: nat, y: nat)
    requires x < Pow256(32) && y < Pow256(32)
    ensures var pk := KeyScript(x, y)[1..66]; |pk| == 65 && pk[0] == 0x04 && XOf(pk) == x && YOf(pk) == y
  {
    hide BigEndian, FromBigEndian, Pow256, XOf, YOf;
    Coordinates(x, y);
    assert KeyScript(x, y)[1..66] == [0x04] + BigEndian(x, 32) + BigEndian(y, 32);
  }

  /** Any such key that is not reduced has its script changed, whatever the square root. */
  lemma Changed(keys: Keys, x: nat, y: nat)
    requires x < Pow256(32) && y < Pow256(32) && Square(y) == Curve(x) && (x >= P || y >= P)
    ensures var scr := KeyScript(x, y);
            CompressScript(scr).Some? && !Reduced(scr) && Restored(keys, scr) != scr
  {
    hide Square, Curve, XOf, YOf, Complete;
    var scr := KeyScript(x, y);
    var pk := scr[1..66];
    KeyScriptParts(x, y);
    assert IsP2PK(scr) == Some(pk);
    var c := CompressScript(scr).value;
    assert [c[0] - 2] + c[1..] == [2 + pk[64] % 2] + pk[1..33];
    var back := Complete(keys, [2 + pk[64] % 2] + pk[1..33]);
    CompleteParts(keys, [2 + pk[64] % 2] + pk[1..33]);
    assert Restored(keys, scr) == [65] + back + [0xac];
    assert Restored(keys, scr)[1..66] == back;
  }

  /** The points with x = 1 and with y = 1. */
  const Y_OF_ONE: nat := 0x4218f20ae6c646b363db68605822fb14264ca8d2587fdd6fbc750d587e76a7ee
  const X_OF_ONE: nat := 0x1fe1e5ef3fceb5c135ab7741333ce5a6e80d68167653f6b2b24bcbcfaaaff507

  // The same sides of the equation, as plain products.

  function SquareOf(y: nat): nat {
    y * y % P
  }

  function CurveAt(x: nat): nat {
    (x * x * x + 7) % P
  }

  lemma SameSquare(y: nat)
    ensures Square(y) == SquareOf(y)
  {
    TimesIs(y, y);
  }

  lemma SameCurve(x: nat)
    ensures Curve(x) == CurveAt(x)
  {
    hide Times;
    var s := x * x;
    TimesIs(x, x);
    TimesIs(s % P, x);
    CubeMod(s, x);
  }

  lemma CubeMod(s: nat, x: nat)
    ensures (s % P * x % P + 7) % P == (s * x + 7) % P
  {
    hide Cong;
    var t := s % P * x;
    CongIs(s, s % P);
    CongIs(x, x);
    CongMul(s, s % P, x, x);
    CongIs(t % P, t);
    CongIs(7, 7);
    CongAdd(t % P, t, 7, 7);
    CongAdd(s * x, t, 7, 7);
    CongIs(t % P + 7, t + 7);
    CongIs(s * x + 7, t + 7);
  }

  lemma LargeXOnCurve()
    ensures Square(Y_OF_ONE) == Curve(P + 1) && Y_OF_ONE < Pow256(32) && P + 1 < Pow256(32)
  {
    hide Square, Curve, Pow256;
    Room();
    SameSquare(Y_OF_ONE);
    SameCurve(P + 1);
    assert SquareOf(0x4218f20ae6c646b363db68605822fb14264ca8d2587fdd6fbc750d587e76a7ee) == CurveAt(P + 1) == 8;
  }

  lemma LargeYOnCurve()
    ensures Square(P + 1) == Curve(X_OF_ONE) && X_OF_ONE < Pow256(32) && P + 1 < Pow256(32)
  {
    hide Square, Curve, Pow256;
    Room();
    SameSquare(P + 1);
    SameCurve(X_OF_ONE);
    assert SquareOf(P + 1) == CurveAt(0x1fe1e5ef3fceb5c135ab7741333ce5a6e80d68167653f6b2b24bcbcfaaaff507) == 1;
  }

  /** x = P + 1: the point with x = 1, spelt with a larger number. */
  lemma LargeX(keys: Keys)
    ensures var scr := KeyScript(P + 1, Y_OF_ONE); CompressScript(scr).Some? && Restored(keys, scr) != scr
  {
    hide Square, Curve, Pow256, CompressScript, Restored, Reduced, KeyScript;
    LargeXOnCurve();
    Changed(keys, P + 1, Y_OF_ONE);
  }

  /** y = P + 1: the point with y = 1. */
  lemma LargeY(keys: Keys)
    ensures var scr := KeyScript(X_OF_ONE, P + 1); CompressScript(scr).Some? && Restored(keys, scr) != scr
  {
    hide Square, Curve, Pow256, CompressScript, Restored, Reduced, KeyScript;
    LargeYOnCurve();
    Changed(keys, X_OF_ONE, P + 1);
  }
}
