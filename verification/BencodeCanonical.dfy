/**
 * Encodings are canonical: equal up to key order means equal bytes, different normal forms
 * give different bytes, and no encoding is a proper prefix of another.
 */
module BencodeCanonical {
  import opened ByteStrings
  import opened Numerals
  import opened BencodeEncoder
  import opened BencodeRoundTrip

  // ---- Unique decomposition ----------------------------------------------------

  lemma {:induction false} SentinelSplit(a: Bytes, b: Bytes, c: Byte, x: Bytes, y: Bytes)
    requires c !in a && c !in b
    requires a + ([c] + x) == b + ([c] + y)
    ensures a == b && x == y
  {
    var left, right := a + ([c] + x), b + ([c] + y);
    assert left[|a|] == c && right[|b|] == c;
    assert forall k :: 0 <= k < |a| ==> left[k] != c;
    assert forall k :: 0 <= k < |b| ==> right[k] != c;
    assert |a| == |b|;
    assert left[..|a|] == a && right[..|b|] == b;
    assert left[|a| + 1..] == x && right[|b| + 1..] == y;
  }

  lemma RenderIsInjective(m: int, n: int)
    requires Render(m) == Render(n)
    ensures m == n
  {
    RenderParses(m);
    RenderParses(n);
  }

  lemma IntUnique(m: int, n: int, x: Bytes, y: Bytes)
    requires EncodeInt(m) + x == EncodeInt(n) + y
    ensures m == n && x == y
  {
    assert EncodeInt(m) + x == [CHAR_I] + (Render(m) + ([CHAR_E] + x));
    assert EncodeInt(n) + y == [CHAR_I] + (Render(n) + ([CHAR_E] + y));
    assert (EncodeInt(m) + x)[1..] == Render(m) + ([CHAR_E] + x);
    assert (EncodeInt(n) + y)[1..] == Render(n) + ([CHAR_E] + y);
    RenderAvoids(m, CHAR_E);
    RenderAvoids(n, CHAR_E);
    SentinelSplit(Render(m), Render(n), CHAR_E, x, y);
    RenderIsInjective(m, n);
  }

  lemma BytesUnique(a: Bytes, b: Bytes, x: Bytes, y: Bytes)
    requires EncodeBytes(a) + x == EncodeBytes(b) + y
    ensures a == b && x == y
  {
    assert EncodeBytes(a) + x == Digits(|a|) + ([COLON] + (a + x));
    assert EncodeBytes(b) + y == Digits(|b|) + ([COLON] + (b + y));
    RenderAvoids(|a|, COLON);
    RenderAvoids(|b|, COLON);
    SentinelSplit(Digits(|a|), Digits(|b|), COLON, a + x, b + y);
    assert Digits(|a|) == Render(|a|) && Digits(|b|) == Render(|b|);
    RenderIsInjective(|a|, |b|);
    assert (a + x)[..|a|] == a && (b + y)[..|b|] == b;
    assert (a + x)[|a|..] == x && (b + y)[|b|..] == y;
  }

  /** The first byte tells the kind of value. */
  function Kind(t: Tree): nat {
    match t
    case Number(_) => 0
    case Str(_) => 1
    case Seq(_) => 2
    case Map(_) => 3
  }

  lemma SameKind(t: Tree, u: Tree)
    requires Encode(t)[..1] == Encode(u)[..1]
    ensures Kind(t) == Kind(u)
  {
    hide EncodeAll, EncodePairs, Digits, Render;
    assert Encode(t)[0] == Encode(t)[..1][0] && Encode(u)[0] == Encode(u)[..1][0];
    assert t.Str? ==> IsDigit(Digits(|t.data|)[0]);
    assert u.Str? ==> IsDigit(Digits(|u.data|)[0]);
  }

  /** An encoding can be read off the front of a byte string in only one way. */
  lemma {:induction false} UniqueDecomposition(t: Tree, u: Tree, x: Bytes, y: Bytes)
    requires Encode(t) + x == Encode(u) + y
    ensures t == u && x == y
    decreases t
  {
    hide EncodeInt, EncodeBytes, EncodeAll, EncodePairs;
    FirstByte(t);
    FirstByte(u);
    assert (Encode(t) + x)[..1] == Encode(t)[..1] && (Encode(u) + y)[..1] == Encode(u)[..1];
    SameKind(t, u);
    match t
    case Number(n) => IntUnique(n, u.n, x, y);
    case Str(b) => BytesUnique(b, u.data, x, y);
    case Seq(items) =>
      StripOpening(CHAR_L, EncodeAll(items), EncodeAll(u.items), x, y);
      ItemsUnique(items, u.items, x, y);
    case Map(pairs) =>
      StripOpening(CHAR_D, EncodePairs(pairs), EncodePairs(u.pairs), x, y);
      PairsUnique(pairs, u.pairs, x, y);
  }

  lemma StripOpening(open: Byte, a: Bytes, b: Bytes, x: Bytes, y: Bytes)
    requires [open] + a + [CHAR_E] + x == [open] + b + [CHAR_E] + y
    ensures a + ([CHAR_E] + x) == b + ([CHAR_E] + y)
  {
    assert ([open] + a + [CHAR_E] + x)[1..] == a + ([CHAR_E] + x);
    assert ([open] + b + [CHAR_E] + y)[1..] == b + ([CHAR_E] + y);
  }

  lemma {:induction false} ItemsUnique(ts: seq<Tree>, us: seq<Tree>, x: Bytes, y: Bytes)
    requires EncodeAll(ts) + ([CHAR_E] + x) == EncodeAll(us) + ([CHAR_E] + y)
    ensures ts == us && x == y
    decreases ts
  {
    hide Encode;
    var left, right := EncodeAll(ts) + ([CHAR_E] + x), EncodeAll(us) + ([CHAR_E] + y);
    if ts != [] { FirstByte(ts[0]); assert left[0] == Encode(ts[0])[0]; }
    if us != [] { FirstByte(us[0]); assert right[0] == Encode(us[0])[0]; }
    assert us == [] ==> right[0] == CHAR_E;
    if ts == [] {
      assert left[0] == CHAR_E && us == [];
      assert left[1..] == x && right[1..] == y;
    } else {
      var restT, restU := EncodeAll(ts[1..]) + ([CHAR_E] + x), EncodeAll(us[1..]) + ([CHAR_E] + y);
      assert left == Encode(ts[0]) + restT && right == Encode(us[0]) + restU;
      UniqueDecomposition(ts[0], us[0], restT, restU);
      ItemsUnique(ts[1..], us[1..], x, y);
      assert ts == [ts[0]] + ts[1..] && us == [us[0]] + us[1..];
    }
  }

  lemma {:induction false} PairsUnique(ts: seq<Pair>, us: seq<Pair>, x: Bytes, y: Bytes)
    requires EncodePairs(ts) + ([CHAR_E] + x) == EncodePairs(us) + ([CHAR_E] + y)
    ensures ts == us && x == y
    decreases ts
  {
    hide Encode, EncodeBytes;
    var left, right := EncodePairs(ts) + ([CHAR_E] + x), EncodePairs(us) + ([CHAR_E] + y);
    if ts != [] { KeyFirst(ts[0].key); assert left[0] == EncodeBytes(ts[0].key)[0]; }
    if us != [] { KeyFirst(us[0].key); assert right[0] == EncodeBytes(us[0].key)[0]; }
    assert us == [] ==> right[0] == CHAR_E;
    if ts == [] {
      assert left[0] == CHAR_E && us == [];
      assert left[1..] == x && right[1..] == y;
    } else {
      var restT, restU := EncodePairs(ts[1..]) + ([CHAR_E] + x), EncodePairs(us[1..]) + ([CHAR_E] + y);
      assert left == EncodeBytes(ts[0].key) + (Encode(ts[0].value) + restT);
      assert right == EncodeBytes(us[0].key) + (Encode(us[0].value) + restU);
      BytesUnique(ts[0].key, us[0].key, Encode(ts[0].value) + restT, Encode(us[0].value) + restU);
      assert ts[0].value < ts[0];
      UniqueDecomposition(ts[0].value, us[0].value, restT, restU);
      PairsUnique(ts[1..], us[1..], x, y);
      assert ts == [ts[0]] + ts[1..] && us == [us[0]] + us[1..];
    }
  }

  lemma KeyFirst(key: Bytes)
    ensures EncodeBytes(key) != [] && EncodeBytes(key)[0] != CHAR_E
  {
    FirstByte(Str(key));
  }

  // ---- Canonicity for program values -------------------------------------------

  /** Two supported values have the same encoding exactly when they have the same normal form. */
  lemma EqualEncodingsIffEqualNormalForms(v: Value, w: Value)
    requires Supported(v) && Supported(w)
    ensures Bencode(v) == Bencode(w) <==> Normalize(v) == Normalize(w)
  {
    BencodePrintsNormalForm(v);
    BencodePrintsNormalForm(w);
    if Bencode(v) == Bencode(w) {
      UniqueDecomposition(Normalize(v), Normalize(w), [], []);
    }
  }

  /** No encoding is a proper prefix of another. */
  lemma EncodingsArePrefixFree(v: Value, w: Value)
    requires Supported(v) && Supported(w)
    requires Bencode(v).Ok? && Bencode(w).Ok? && Bencode(v).value <= Bencode(w).value
    ensures Bencode(v) == Bencode(w)
  {
    hide Bencode, Supported, Normalize, Encode;
    BencodePrintsNormalForm(v);
    BencodePrintsNormalForm(w);
    var e, f := Bencode(v).value, Bencode(w).value;
    assert e + f[|e|..] == f + [];
    UniqueDecomposition(Normalize(v), Normalize(w), f[|e|..], []);
  }

  /** The same value, with the entries of dictionaries at any depth in any order. */
  ghost predicate SameUpToOrder(v: Value, w: Value)
    decreases v, 1
  {
    if v.Dict? && w.Dict? then
      && (forall i {:trigger v.entries[i]} :: 0 <= i < |v.entries| ==> exists j :: SameEntry(v, i, w, j))
      && (forall j {:trigger w.entries[j]} :: 0 <= j < |w.entries| ==> exists i :: SameEntry(v, i, w, j))
    else if (v.List? && w.List?) || (v.Tuple? && w.Tuple?) then
      && |v.items| == |w.items|
      && forall i :: 0 <= i < |v.items| ==> SameUpToOrder(Children(v)[i], Children(w)[i])
    else v == w
  }

  ghost predicate SameEntry(v: Value, i: nat, w: Value, j: nat)
    requires v.Dict? && w.Dict?
    decreases v, 0
  {
    && i < |v.entries| && j < |w.entries|
    && v.entries[i].key == w.entries[j].key
    && SameUpToOrder(Children(v)[i], Children(w)[j])
  }

  /** Where the i-th entry of a dictionary ends up in its normal form. */
  lemma EntryInNormalForm(v: Value, i: nat) returns (k: nat)
    requires v.Dict? && Supported(v) && i < |v.entries|
    ensures Supported(Children(v)[i]) && Normalize(v).Map?
    ensures k < |Normalize(v).pairs|
    ensures Normalize(v).pairs[k] == Pair(KeyBytes(v.entries[i].key), Normalize(Children(v)[i]))
  {
    var order := SortOrder(Keys(v.entries));
    SortOrderIsStable(Keys(v.entries));
    assert i in order;
    k :| 0 <= k < |order| && order[k] == i;
  }

  /** The entry that a pair of the normal form comes from. */
  lemma EntryOfNormalForm(v: Value, k: nat) returns (i: nat)
    requires v.Dict? && Supported(v) && Normalize(v).Map? && k < |Normalize(v).pairs|
    ensures i < |v.entries| && Supported(Children(v)[i])
    ensures i < |v.entries|
    ensures Normalize(v).pairs[k] == Pair(KeyBytes(v.entries[i].key), Normalize(Children(v)[i]))
  {
    i := SortOrder(Keys(v.entries))[k];
  }

  /** Insertion order never shows in the encoding, at any depth. */
  lemma {:induction false} OrderIndependent(v: Value, w: Value)
    requires Supported(v) && Supported(w) && KeysDistinct(v) && KeysDistinct(w)
    requires SameUpToOrder(v, w)
    ensures Normalize(v) == Normalize(w)
    decreases v
  {
    if v.Dict? && w.Dict? {
      DictOrderIndependent(v, w);
    } else if (v.List? && w.List?) || (v.Tuple? && w.Tuple?) {
      forall i | 0 <= i < |v.items| ensures NormalChildren(v)[i] == NormalChildren(w)[i] {
        OrderIndependent(Children(v)[i], Children(w)[i]);
      }
      assert NormalChildren(v) == NormalChildren(w);
    }
  }

  lemma {:induction false} DictOrderIndependent(v: Value, w: Value)
    requires v.Dict? && w.Dict? && SameUpToOrder(v, w)
    requires Supported(v) && Supported(w) && KeysDistinct(v) && KeysDistinct(w)
    ensures Normalize(v) == Normalize(w)
    decreases v, 0
  {
    DictNormalForm(v);
    DictNormalForm(w);
    hide Normalize, Supported, KeysDistinct;
    var pv, pw := Normalize(v).pairs, Normalize(w).pairs;
    forall k | 0 <= k < |pv| ensures pv[k] in pw {
      var i := EntryOfNormalForm(v, k);
      assert v.entries[i] == v.entries[i];
      var j: nat :| SameEntry(v, i, w, j);
      SameChildren(v, i, w, j);
      var l := EntryInNormalForm(w, j);
      assert pw[l] == pv[k];
    }
    forall l | 0 <= l < |pw| ensures pw[l] in pv {
      var j := EntryOfNormalForm(w, l);
      assert w.entries[j] == w.entries[j];
      var i: nat :| SameEntry(v, i, w, j);
      SameChildren(v, i, w, j);
      var k := EntryInNormalForm(v, i);
      assert pw[l] == pv[k];
    }
    SamePairs(pv, pw);
  }

  lemma {:induction false} SameChildren(v: Value, i: nat, w: Value, j: nat)
    requires v.Dict? && w.Dict? && SameEntry(v, i, w, j)
    requires Supported(v) && Supported(w) && KeysDistinct(v) && KeysDistinct(w)
    ensures Supported(Children(v)[i]) && Supported(Children(w)[j])
    ensures Normalize(Children(v)[i]) == Normalize(Children(w)[j])
    decreases v, 0, 0
  {
    OrderIndependent(Children(v)[i], Children(w)[j]);
  }

  lemma DictNormalForm(v: Value)
    requires v.Dict? && Supported(v) && KeysDistinct(v)
    ensures Normalize(v).Map? && StrictlySorted(PairKeys(Normalize(v).pairs))
  {
    NormalFormOrder(v);
  }

  /** Strictly sorted pair lists with the same members are the same list. */
  lemma SamePairs(ps: seq<Pair>, qs: seq<Pair>)
    requires StrictlySorted(PairKeys(ps)) && StrictlySorted(PairKeys(qs))
    requires forall k :: 0 <= k < |ps| ==> ps[k] in qs
    requires forall k :: 0 <= k < |qs| ==> qs[k] in ps
    ensures ps == qs
  {
    forall x ensures x in PairKeys(ps) <==> x in PairKeys(qs) {
      if x in PairKeys(ps) {
        var k :| 0 <= k < |ps| && PairKeys(ps)[k] == x;
        var l :| 0 <= l < |qs| && qs[l] == ps[k];
        assert PairKeys(qs)[l] == x;
      }
      if x in PairKeys(qs) {
        var k :| 0 <= k < |qs| && PairKeys(qs)[k] == x;
        var l :| 0 <= l < |ps| && ps[l] == qs[k];
        assert PairKeys(ps)[l] == x;
      }
    }
    SortedListingIsUnique(PairKeys(ps), PairKeys(qs));
    forall k | 0 <= k < |ps| ensures ps[k] == qs[k] {
      var l :| 0 <= l < |qs| && qs[l] == ps[k];
      assert PairKeys(ps)[k] == PairKeys(qs)[k] && PairKeys(qs)[l] == PairKeys(ps)[k];
      if l < k { LessIsAsymmetric(PairKeys(qs)[l], PairKeys(qs)[k]); }
      if k < l { LessIsAsymmetric(PairKeys(qs)[k], PairKeys(qs)[l]); }
    }
  }
}
