/** OP_CHECKMULTISIG's matching loop, and the wallet's reordering of signatures for it. */
module MultiSig {
  import opened Seqs

  type Bytes = seq<nat>

  /** Which encodings are accepted, and which signatures are good for which keys; the script code is fixed. */
  datatype Checker = Checker(encoded: (Bytes, Bytes) -> bool, verify: (Bytes, Bytes) -> bool)

  datatype Outcome = Success | Failure | BadEncoding

  /** Each signature is good for a key of its own, and the keys come in the order of the signatures. */
  ghost predicate Matches(c: Checker, sigs: seq<Bytes>, keys: seq<Bytes>, f: seq<nat>) {
    && |f| == |sigs|
    && (forall i :: 0 <= i < |f| ==> f[i] < |keys| && c.verify(sigs[i], keys[f[i]]))
    && forall i, j :: 0 <= i < j < |f| ==> f[i] < f[j]
  }

  ghost predicate Matchable(c: Checker, sigs: seq<Bytes>, keys: seq<Bytes>) {
    exists f :: Matches(c, sigs, keys, f)
  }

  lemma NoSigs(c: Checker, sigs: seq<Bytes>, keys: seq<Bytes>)
    requires sigs == []
    ensures Matchable(c, sigs, keys)
  {
    var f: seq<nat> := [];
    assert Matches(c, sigs, keys, f);
  }

  lemma {:induction false} Climbs(c: Checker, sigs: seq<Bytes>, keys: seq<Bytes>, f: seq<nat>, i: nat)
    requires Matches(c, sigs, keys, f) && i < |f|
    ensures f[i] >= i
  {
    if i > 0 {
      Climbs(c, sigs, keys, f, i - 1);
      assert f[i - 1] < f[i];
    }
  }

  lemma TooManySigs(c: Checker, sigs: seq<Bytes>, keys: seq<Bytes>)
    requires |sigs| > |keys|
    ensures !Matchable(c, sigs, keys)
  {
    forall f
      ensures !Matches(c, sigs, keys, f)
    {
      if Matches(c, sigs, keys, f) {
        Climbs(c, sigs, keys, f, |sigs| - 1);
      }
    }
  }

  /** The last signature is good for the last key: taking them together loses nothing. */
  lemma TakeBoth(c: Checker, sigs: seq<Bytes>, keys: seq<Bytes>)
    requires sigs != [] && keys != [] && c.verify(sigs[|sigs| - 1], keys[|keys| - 1])
    ensures Matchable(c, sigs, keys) <==> Matchable(c, sigs[..|sigs| - 1], keys[..|keys| - 1])
  {
    var sigs', keys' := sigs[..|sigs| - 1], keys[..|keys| - 1];
    if Matchable(c, sigs, keys) {
      var f: seq<nat> :| Matches(c, sigs, keys, f);
      var n := |f| - 1;
      forall i | 0 <= i < n
        ensures f[i] < |keys'|
      {
        assert f[i] < f[n];
      }
      assert Matches(c, sigs', keys', f[..n]);
    }
    if Matchable(c, sigs', keys') {
      var f: seq<nat> :| Matches(c, sigs', keys', f);
      var last: nat := |keys| - 1;
      assert Matches(c, sigs, keys, f + [last]);
    }
  }

  /** It is not: the last key is of no use. */
  lemma DropKey(c: Checker, sigs: seq<Bytes>, keys: seq<Bytes>)
    requires sigs != [] && keys != [] && !c.verify(sigs[|sigs| - 1], keys[|keys| - 1])
    ensures Matchable(c, sigs, keys) <==> Matchable(c, sigs, keys[..|keys| - 1])
  {
    var keys' := keys[..|keys| - 1];
    if Matchable(c, sigs, keys) {
      var f: seq<nat> :| Matches(c, sigs, keys, f);
      var n := |f| - 1;
      assert f[n] != |keys| - 1;
      forall i | 0 <= i < |f|
        ensures f[i] < |keys'|
      {
        assert i < n ==> f[i] < f[n];
      }
      assert Matches(c, sigs, keys', f);
    }
    if Matchable(c, sigs, keys') {
      var f: seq<nat> :| Matches(c, sigs, keys', f);
      assert Matches(c, sigs, keys, f);
    }
  }

  /**
   * The matching loop, from the top of the stack down: it succeeds exactly when the signatures can be matched, unless
   * it comes upon a bad encoding.
   */
  method CheckMultiSig(c: Checker, sigs: seq<Bytes>, keys: seq<Bytes>) returns (r: Outcome)
    requires |sigs| <= |keys|
    ensures r != BadEncoding ==> (r == Success <==> Matchable(c, sigs, keys))
    ensures r == BadEncoding ==> exists i, j :: 0 <= i < |sigs| && 0 <= j < |keys| && !c.encoded(sigs[i], keys[j])
  {
    hide Matchable;
    var sigscnt, keyscnt := |sigs|, |keys|;
    var isig, ikey := 1, 1;
    assert sigs[..sigscnt] == sigs && keys[..keyscnt] == keys;
    while sigscnt > 0
      invariant 0 <= sigscnt <= keyscnt && isig == |sigs| - sigscnt + 1 && ikey == |keys| - keyscnt + 1
      invariant Matchable(c, sigs, keys) <==> Matchable(c, sigs[..sigscnt], keys[..keyscnt])
      decreases keyscnt
    {
      var vchPubKey, vchSig := keys[|keys| - ikey], sigs[|sigs| - isig];
      if !c.encoded(vchSig, vchPubKey) {
        return BadEncoding;
      }
      assert sigs[..sigscnt][..sigscnt - 1] == sigs[..sigscnt - 1] && keys[..keyscnt][..keyscnt - 1] == keys[..keyscnt - 1];
      if c.verify(vchSig, vchPubKey) {
        TakeBoth(c, sigs[..sigscnt], keys[..keyscnt]);
        isig := isig + 1;
        sigscnt := sigscnt - 1;
      } else {
        DropKey(c, sigs[..sigscnt], keys[..keyscnt]);
      }
      ikey := ikey + 1;
      keyscnt := keyscnt - 1;
      if sigscnt > keyscnt {
        TooManySigs(c, sigs[..sigscnt], keys[..keyscnt]);
        return Failure;
      }
    }
    NoSigs(c, sigs[..0], keys[..keyscnt]);
    r := Success;
  }

  /**
   * multisig_reorder, for one input: for each key in turn, the first signature that is good for it. The signatures it
   * keeps are matched to the keys; without -xtramsigs it keeps no more than needed, one apart when none is.
   */
  method Reorder(c: Checker, keys: seq<Bytes>, signatures: seq<Bytes>, needed: nat, allowExtra: bool)
    returns (sigs: seq<Bytes>, allSigned: bool)
    ensures Matchable(c, sigs, keys) && forall s :: s in sigs ==> s in signatures
    ensures allSigned <==> |sigs| >= needed
    ensures !allowExtra ==> |sigs| <= needed || |sigs| == 1
    ensures !allSigned ==> |sigs| == |GoodKeys(c, keys, signatures, |keys|)|
  {
    hide Matchable;
    sigs := [];
    ghost var f: seq<nat> := [];
    for ki := 0 to |keys|
      invariant Matches(c, sigs, keys, f) && (forall s :: s in sigs ==> s in signatures) && (ki > 0 && !allowExtra ==> |sigs| < needed)
      invariant forall i :: 0 <= i < |f| ==> f[i] < ki
      invariant |sigs| == |GoodKeys(c, keys, signatures, ki)|
    {
      GoodKeysNext(c, keys, signatures, ki);
      var found := FirstGood(c, signatures, keys[ki]);
      if found < |signatures| {
        sigs := sigs + [signatures[found]];
        f := f + [ki];
      }
      if !allowExtra && |sigs| >= needed {
        MatchableBy(c, sigs, keys, f);
        allSigned := true;
        return;
      }
    }
    MatchableBy(c, sigs, keys, f);
    allSigned := |sigs| >= needed;
  }

  predicate Good(c: Checker, signatures: seq<Bytes>, key: Bytes) {
    exists i :: 0 <= i < |signatures| && c.verify(signatures[i], key)
  }

  /** The keys among the first n that some signature is good for. */
  ghost function GoodKeys(c: Checker, keys: seq<Bytes>, signatures: seq<Bytes>, n: nat): set<nat>
    requires n <= |keys|
  {
    set k: nat | k < n && Good(c, signatures, keys[k])
  }

  lemma GoodKeysNext(c: Checker, keys: seq<Bytes>, signatures: seq<Bytes>, n: nat)
    requires n < |keys|
    ensures n !in GoodKeys(c, keys, signatures, n)
    ensures GoodKeys(c, keys, signatures, n + 1) == GoodKeys(c, keys, signatures, n) + if Good(c, signatures, keys[n]) then {n} else {}
  {
  }

  lemma FewGoodKeys(c: Checker, keys: seq<Bytes>, signatures: seq<Bytes>, sigs: seq<Bytes>, f: seq<nat>)
    requires Matches(c, sigs, keys, f) && forall s :: s in sigs ==> s in signatures
    ensures |sigs| <= |GoodKeys(c, keys, signatures, |keys|)|
  {
    forall k | k in Elems(f)
      ensures k in GoodKeys(c, keys, signatures, |keys|)
    {
      var i :| 0 <= i < |f| && f[i] == k;
      assert sigs[i] in signatures;
      var j :| 0 <= j < |signatures| && signatures[j] == sigs[i];
      assert c.verify(signatures[j], keys[k]);
    }
    DistinctSize(f);
    SubsetSize(Elems(f), GoodKeys(c, keys, signatures, |keys|));
  }

  lemma MatchableBy(c: Checker, sigs: seq<Bytes>, keys: seq<Bytes>, f: seq<nat>)
    requires Matches(c, sigs, keys, f)
    ensures Matchable(c, sigs, keys)
  {
  }

  method FirstGood(c: Checker, signatures: seq<Bytes>, key: Bytes) returns (si: nat)
    ensures si <= |signatures| && (si < |signatures| ==> c.verify(signatures[si], key))
    ensures si < |signatures| <==> Good(c, signatures, key)
  {
    for i := 0 to |signatures|
      invariant forall j :: 0 <= j < i ==> !c.verify(signatures[j], key)
    {
      if c.verify(signatures[i], key) {
        return i;
      }
    }
    si := |signatures|;
  }

  /** The last signatures of a matched list are matched. */
  lemma MatchedTail(c: Checker, sigs: seq<Bytes>, keys: seq<Bytes>, n: nat)
    requires Matchable(c, sigs, keys) && n <= |sigs|
    ensures Matchable(c, sigs[|sigs| - n..], keys)
  {
    var f: seq<nat> :| Matches(c, sigs, keys, f);
    assert Matches(c, sigs[|sigs| - n..], keys, f[|f| - n..]);
  }

  /**
   * What Reorder leaves fully signed makes the matching loop succeed, on as many signatures as are needed; what it does
   * not, no choice and order of the signatures would.
   */
  method ReorderThenCheck(c: Checker, keys: seq<Bytes>, signatures: seq<Bytes>, needed: nat, allowExtra: bool)
    returns (allSigned: bool, r: Outcome)
    requires needed <= |keys| && forall s, k :: s in signatures && k in keys ==> c.encoded(s, k)
    ensures allSigned ==> r == Success
    ensures !allSigned ==> forall chosen: seq<Bytes> :: |chosen| == needed && (forall s :: s in chosen ==> s in signatures) ==>
      !Matchable(c, chosen, keys)
  {
    var sigs;
    sigs, allSigned := Reorder(c, keys, signatures, needed, allowExtra);
    if allSigned {
      MatchedTail(c, sigs, keys, needed);
      r := CheckMultiSig(c, sigs[|sigs| - needed..], keys);
    } else {
      r := Failure;
      forall chosen: seq<Bytes> | |chosen| == needed && (forall s :: s in chosen ==> s in signatures)
        ensures !Matchable(c, chosen, keys)
      {
        if Matchable(c, chosen, keys) {
          var f: seq<nat> :| Matches(c, chosen, keys, f);
          FewGoodKeys(c, keys, signatures, chosen, f);
        }
      }
    }
  }
}
