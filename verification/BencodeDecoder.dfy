/** What the decoder does with arbitrary bytes, not only with encodings. */
module BencodeDecoder {
  import opened Wrappers
  import opened ByteStrings
  import opened Numerals
  import opened BencodeEncoder
  import opened BencodeParser
  import opened BencodeRoundTrip
  import BencodeCanonical

  // ---- Appended bytes do not change a parse ------------------------------------

  lemma {:induction false} FindStable(data: Bytes, b: Byte, from: nat, more: Bytes)
    requires from <= |data| && Find(data, b, from).Some?
    ensures Find(data + more, b, from) == Find(data, b, from)
    decreases |data| - from
  {
    if data[from] != b { FindStable(data, b, from + 1, more); }
  }

  lemma IntegerStable(data: Bytes, i: nat, more: Bytes)
    requires i < |data| && ParseInteger(data, i).Parsed?
    ensures ParseInteger(data + more, i) == ParseInteger(data, i)
  {
    hide IntegerOf;
    FindStable(data, CHAR_E, i + 1, more);
    var end := Find(data, CHAR_E, i + 1).value;
    assert (data + more)[i + 1..end] == data[i + 1..end];
  }

  lemma BytesStable(data: Bytes, i: nat, more: Bytes)
    requires i < |data| && IsDigit(data[i]) && ParseBytes(data, i).Parsed?
    ensures ParseBytes(data + more, i) == ParseBytes(data, i)
  {
    hide LengthOf;
    FindStable(data, COLON, i, more);
    var colon := Find(data, COLON, i).value;
    assert (data + more)[i..colon] == data[i..colon];
    var length := LengthOf(data[i..colon]).value;
    assert (data + more)[colon + 1..colon + 1 + length] == data[colon + 1..colon + 1 + length];
  }

  /** A successful parse is unchanged by whatever bytes follow. */
  lemma {:induction false} ParseIsStable(data: Bytes, i: nat, more: Bytes)
    requires i <= |data| && ParseValue(data, i).Parsed?
    ensures ParseValue(data + more, i) == ParseValue(data, i)
    decreases |data| - i, 1
  {
    hide ParseInteger, ParseBytes, ParseItems, ParsePairs;
    assert (data + more)[i] == data[i];
    if data[i] == CHAR_I { IntegerStable(data, i, more); }
    else if data[i] == CHAR_L { ItemsStable(data, i + 1, [], more); }
    else if data[i] == CHAR_D { PairsStable(data, i + 1, [], more); }
    else { BytesStable(data, i, more); }
  }

  lemma {:induction false} ItemsStable(data: Bytes, i: nat, done: seq<Tree>, more: Bytes)
    requires i <= |data| && ParseItems(data, i, done).Parsed?
    ensures ParseItems(data + more, i, done) == ParseItems(data, i, done)
    decreases |data| - i, 2
  {
    hide ParseValue;
    assert (data + more)[i] == data[i];
    if data[i] != CHAR_E {
      ParseIsStable(data, i, more);
      var item := ParseValue(data, i);
      ItemsStable(data, item.next, done + [item.value], more);
    }
  }

  lemma {:induction false} PairsStable(data: Bytes, i: nat, done: seq<Pair>, more: Bytes)
    requires i <= |data| && ParsePairs(data, i, done).Parsed?
    ensures ParsePairs(data + more, i, done) == ParsePairs(data, i, done)
    decreases |data| - i, 2
  {
    hide ParseValue, PairKeys, Less;
    assert (data + more)[i] == data[i];
    if data[i] != CHAR_E {
      ParseIsStable(data, i, more);
      var key := ParseValue(data, i);
      ParseIsStable(data, key.next, more);
      var value := ParseValue(data, key.next);
      PairsStable(data, value.next, done + [Pair(key.value.data, value.value)], more);
    }
  }

  // ---- Every accepted dictionary is strictly sorted ----------------------------

  /** Whatever the bytes, every dictionary in an accepted value has strictly increasing keys. */
  lemma {:induction false} DecodedIsClean(data: Bytes, i: nat)
    requires i <= |data| && ParseValue(data, i).Parsed?
    ensures Clean(ParseValue(data, i).value)
    decreases |data| - i, 1
  {
    hide ParseInteger, ParseBytes, ParseItems, ParsePairs, PairKeys, StrictlySorted;
    if data[i] == CHAR_I { IntegerIsNumber(data, i); }
    else if data[i] == CHAR_L { ItemsAreClean(data, i + 1, []); }
    else if data[i] == CHAR_D { NoKeys(); PairsAreClean(data, i + 1, []); }
    else { BytesAreStr(data, i); }
  }

  lemma IntegerIsNumber(data: Bytes, i: nat)
    requires i < |data| && ParseInteger(data, i).Parsed?
    ensures ParseInteger(data, i).value.Number?
  {
    hide IntegerOf;
  }

  lemma BytesAreStr(data: Bytes, i: nat)
    requires i < |data| && IsDigit(data[i]) && ParseBytes(data, i).Parsed?
    ensures ParseBytes(data, i).value.Str?
  {
    hide LengthOf;
  }

  lemma {:induction false} ItemsAreClean(data: Bytes, i: nat, done: seq<Tree>)
    requires i <= |data| && ParseItems(data, i, done).Parsed?
    requires forall k :: 0 <= k < |done| ==> Clean(done[k])
    ensures ParseItems(data, i, done).value.Seq?
    ensures done <= ParseItems(data, i, done).value.items
    ensures forall k :: 0 <= k < |ParseItems(data, i, done).value.items| ==>
      Clean(ParseItems(data, i, done).value.items[k])
    decreases |data| - i, 2
  {
    hide ParseValue, Clean;
    if data[i] != CHAR_E {
      DecodedIsClean(data, i);
      var item := ParseValue(data, i);
      ItemsAreClean(data, item.next, done + [item.value]);
    }
  }

  ghost predicate CleanPairs(pairs: seq<Pair>) {
    StrictlySorted(PairKeys(pairs)) && forall k :: 0 <= k < |pairs| ==> Clean(pairs[k].value)
  }

  lemma {:induction false} PairsAreClean(data: Bytes, i: nat, done: seq<Pair>)
    requires i <= |data| && ParsePairs(data, i, done).Parsed?
    requires CleanPairs(done)
    ensures ParsePairs(data, i, done).value.Map?
    ensures done <= ParsePairs(data, i, done).value.pairs
    ensures CleanPairs(ParsePairs(data, i, done).value.pairs)
    decreases |data| - i, 2
  {
    hide ParseValue, CleanPairs, PairKeys, Less;
    if data[i] != CHAR_E {
      var key := ParseValue(data, i);
      var value := ParseValue(data, key.next);
      DecodedIsClean(data, key.next);
      ExtendCleanPairs(done, Pair(key.value.data, value.value));
      PairsAreClean(data, value.next, done + [Pair(key.value.data, value.value)]);
    }
  }

  lemma ExtendCleanPairs(done: seq<Pair>, p: Pair)
    requires CleanPairs(done) && Clean(p.value)
    requires done != [] ==> !Less(p.key, done[|done| - 1].key)
    requires p.key !in PairKeys(done)
    ensures CleanPairs(done + [p])
  {
    hide Clean;
    var keys, longer := PairKeys(done), PairKeys(done + [p]);
    forall a, b | 0 <= a < b < |longer| ensures Less(longer[a], longer[b]) {
      assert longer[a] == keys[a];
      if b == |done| {
        var last := keys[|done| - 1];
        LessIsTotal(last, p.key);
        if a < |done| - 1 { LessIsTransitive(keys[a], last, p.key); }
      } else {
        assert longer[b] == keys[b];
      }
    }
  }

  // ---- Decoding, encoding and decoding again -----------------------------------

  /** A decoded value, seen as a value the program can encode. */
  function ToValue(t: Tree): Value
    decreases t
  {
    match t
    case Number(n) => Int(n)
    case Str(data) => Raw(data)
    case Seq(items) => List(seq(|items|, k requires 0 <= k < |items| => ToValue(items[k])))
    case Map(pairs) => Dict(seq(|pairs|, k requires 0 <= k < |pairs| =>
        Entry(RawKey(pairs[k].key), ToValue(pairs[k].value))))
  }

  /** Decoded values are supported and are their own normal form. */
  lemma {:induction false} DecodedIsNormal(t: Tree)
    requires Clean(t)
    ensures Supported(ToValue(t)) && Normalize(ToValue(t)) == t
    decreases t
  {
    match t
    case Number(_) =>
    case Str(_) =>
    case Seq(items) =>
      var v := ToValue(t);
      forall k | 0 <= k < |items|
        ensures Supported(Children(v)[k]) && Normalize(Children(v)[k]) == items[k]
      {
        DecodedIsNormal(items[k]);
      }
      assert NormalChildren(v) == items;
    case Map(pairs) =>
      var v := ToValue(t);
      forall k | 0 <= k < |pairs|
        ensures Supported(Children(v)[k]) && Normalize(Children(v)[k]) == pairs[k].value
      {
        DecodedIsNormal(pairs[k].value);
      }
      SortedStaysPut(PairKeys(pairs));
      assert Keys(v.entries) == PairKeys(pairs);
      assert Normalize(v).pairs == pairs;
  }

  /** Sorting a strictly sorted list moves nothing. */
  lemma SortedStaysPut(keys: seq<Bytes>)
    requires StrictlySorted(keys)
    ensures forall k :: 0 <= k < |keys| ==> SortOrder(keys)[k] == k
  {
    var order := SortOrder(keys);
    SortedImpliesDistinct(keys);
    ReorderSorts(keys);
    SortedListingIsUnique(Reorder(keys, order), keys);
    forall k | 0 <= k < |keys| ensures order[k] == k {
      assert keys[order[k]] == Reorder(keys, order)[k] == keys[k];
    }
  }

  lemma SortedImpliesDistinct(keys: seq<Bytes>)
    requires StrictlySorted(keys)
    ensures Distinct(keys)
  {
    forall i, j | 0 <= i < j < |keys| ensures keys[i] != keys[j] {
      LessIsAsymmetric(keys[i], keys[j]);
    }
  }

  /** `bdecode(bencode(bdecode(d))) == bdecode(d)` for every accepted d. */
  lemma DecodeEncodeDecode(d: Bytes)
    requires Bdecode(d).Ok?
    ensures Bencode(ToValue(Bdecode(d).value)).Ok?
    ensures Bdecode(Bencode(ToValue(Bdecode(d).value)).value) == Bdecode(d)
  {
    var t := Bdecode(d).value;
    DecodedIsClean(d, 0);
    DecodedIsNormal(t);
    NormalFormOrder(ToValue(t));
    RoundTrip(ToValue(t));
  }

  // ---- When the second encoding is the first one -------------------------------

  /** Every number and length in the value at i is written the way `str` writes it. */
  predicate PlainValue(data: Bytes, i: nat)
    requires i <= |data| && ParseValue(data, i).Parsed?
    decreases |data| - i, 1
  {
    if data[i] == CHAR_I then PlainNumeral(data[i + 1..Find(data, CHAR_E, i + 1).value])
    else if data[i] == CHAR_L then PlainItems(data, i + 1, [])
    else if data[i] == CHAR_D then PlainPairs(data, i + 1, [])
    else PlainNumeral(data[i..Find(data, COLON, i).value])
  }

  predicate PlainItems(data: Bytes, i: nat, done: seq<Tree>)
    requires i <= |data| && ParseItems(data, i, done).Parsed?
    decreases |data| - i, 2
  {
    data[i] == CHAR_E ||
    (PlainValue(data, i) &&
     PlainItems(data, ParseValue(data, i).next, done + [ParseValue(data, i).value]))
  }

  predicate PlainPairs(data: Bytes, i: nat, done: seq<Pair>)
    requires i <= |data| && ParsePairs(data, i, done).Parsed?
    decreases |data| - i, 2
  {
    data[i] == CHAR_E ||
    (var key := ParseValue(data, i);
     var value := ParseValue(data, key.next);
     PlainValue(data, i) && PlainValue(data, key.next) &&
     PlainPairs(data, value.next, done + [Pair(key.value.data, value.value)]))
  }

  /** The bytes consumed at i are exactly the encoding of the value found there. */
  ghost predicate Reprints(data: Bytes, i: nat)
    requires i <= |data| && ParseValue(data, i).Parsed?
  {
    data[i..ParseValue(data, i).next] == Encode(ParseValue(data, i).value)
  }

  lemma IntegerReprints(data: Bytes, i: nat)
    requires i < |data| && data[i] == CHAR_I && ParseInteger(data, i).Parsed?
    ensures var r := ParseInteger(data, i);
      && r.value.Number?
      && (data[i..r.next] == EncodeInt(r.value.n)
          <==> PlainNumeral(data[i + 1..Find(data, CHAR_E, i + 1).value]))
  {
    hide PlainNumeral, NoZeroPadding, PyInt, Render, IntegerOf;
    var end := Find(data, CHAR_E, i + 1).value;
    var raw := data[i + 1..end];
    var n := IntegerOf(raw).value;
    IntegerChecks(raw);
    PrintsBackIffPlain(raw);
    assert data[i..end + 1] == [CHAR_I] + raw + [CHAR_E];
    if data[i..end + 1] == EncodeInt(n) {
      assert data[i..end + 1][1..|data[i..end + 1]| - 1] == raw;
      assert EncodeInt(n)[1..|EncodeInt(n)| - 1] == Render(n);
    }
  }

  lemma IntegerChecks(raw: Bytes)
    requires IntegerOf(raw).Ok?
    ensures NoZeroPadding(raw) && PyInt(raw) == Some(IntegerOf(raw).value)
  {
    hide PyInt;
  }

  lemma LengthChecks(raw: Bytes)
    requires raw != [] && IsDigit(raw[0]) && LengthOf(raw).Ok?
    ensures NoZeroPadding(raw) && PyInt(raw) == Some(LengthOf(raw).value)
  {
    hide PyInt;
  }

  lemma BytesReprint(data: Bytes, i: nat)
    requires i < |data| && IsDigit(data[i]) && ParseBytes(data, i).Parsed?
    ensures var r := ParseBytes(data, i);
      && r.value.Str?
      && (data[i..r.next] == EncodeBytes(r.value.data)
          <==> PlainNumeral(data[i..Find(data, COLON, i).value]))
  {
    hide PlainNumeral, NoZeroPadding, PyInt, Digits, LengthOf;
    var colon := Find(data, COLON, i).value;
    var raw := data[i..colon];
    assert raw[0] == data[i];
    var length := LengthOf(raw).value;
    var b := data[colon + 1..colon + 1 + length];
    LengthChecks(raw);
    PrintsBackIffPlain(raw);
    assert data[i..colon + 1 + length] == raw + [COLON] + b;
    if raw + [COLON] + b == EncodeBytes(b) {
      assert |raw| == |Digits(|b|)|;
      assert (raw + [COLON] + b)[..|raw|] == raw;
      assert EncodeBytes(b)[..|raw|] == Digits(|b|);
    }
  }

  /**
   * An accepted value prints back to the very bytes it was read from exactly when all its
   * numerals are plain: `int()` also takes `+5`, `1_0` and ` 7`, which print differently.
   */
  lemma {:induction false} ReprintsIffPlain(data: Bytes, i: nat)
    requires i <= |data| && ParseValue(data, i).Parsed?
    ensures Reprints(data, i) <==> PlainValue(data, i)
    decreases |data| - i, 1
  {
    hide ParseInteger, ParseBytes, ParseItems, ParsePairs, EncodeInt, EncodeBytes,
      EncodeAll, EncodePairs, PlainNumeral, PlainItems, PlainPairs, PairKeys, StrictlySorted;
    if data[i] == CHAR_I { IntegerReprints(data, i); }
    else if data[i] == CHAR_L {
      var r := ParseItems(data, i + 1, []);
      ItemsReprintIffPlain(data, i + 1, []);
      assert r.value.items[0..] == r.value.items;
      WrapIffInner(CHAR_L, EncodeAll(r.value.items), data, i, r.next);
    } else if data[i] == CHAR_D {
      var r := ParsePairs(data, i + 1, []);
      NoKeys();
      PairsReprintIffPlain(data, i + 1, []);
      assert r.value.pairs[0..] == r.value.pairs;
      WrapIffInner(CHAR_D, EncodePairs(r.value.pairs), data, i, r.next);
    } else { BytesReprint(data, i); }
  }

  lemma WrapIffInner(open: Byte, body: Bytes, data: Bytes, i: nat, n: nat)
    requires i < n <= |data| && data[i] == open
    ensures data[i..n] == [open] + body + [CHAR_E] <==> data[i + 1..n] == body + [CHAR_E]
  {
    assert data[i..n] == [open] + data[i + 1..n];
    assert [open] + body + [CHAR_E] == [open] + (body + [CHAR_E]);
    assert ([open] + (body + [CHAR_E]))[1..] == body + [CHAR_E];
    assert data[i..n][1..] == data[i + 1..n];
  }

  /** If an encoding stands where a clean value was parsed, the parse consumed exactly it. */
  lemma ConsumedExactly(data: Bytes, i: nat, n: nat, rest: Bytes)
    requires i <= |data| && ParseValue(data, i).Parsed? && n <= |data|
    requires i <= n && data[i..n] == Encode(ParseValue(data, i).value) + rest
    ensures Reprints(data, i)
    ensures ParseValue(data, i).next <= n && data[ParseValue(data, i).next..n] == rest
  {
    hide ParseValue, Encode, Clean, Ordered;
    var t := ParseValue(data, i).value;
    DecodedIsClean(data, i);
    CleanIsOrdered(t);
    assert data[i..i + |Encode(t)|] == data[i..n][..|Encode(t)|] == Encode(t);
    ParseEncoded(t, data, i);
    assert data[i + |Encode(t)|..n] == data[i..n][|Encode(t)|..] == rest;
  }

  lemma {:induction false} CleanIsOrdered(t: Tree)
    requires Clean(t)
    ensures Ordered(t)
    decreases t
  {
    match t
    case Number(_) =>
    case Str(_) =>
    case Seq(items) =>
      forall k | 0 <= k < |items| ensures Ordered(items[k]) { CleanIsOrdered(items[k]); }
    case Map(pairs) =>
      var keys := PairKeys(pairs);
      forall i, j | 0 <= i < j < |keys| ensures !Less(keys[j], keys[i]) {
        LessIsAsymmetric(keys[i], keys[j]);
      }
      forall k | 0 <= k < |pairs| ensures Ordered(pairs[k].value) { CleanIsOrdered(pairs[k].value); }
  }

  lemma {:induction false} ItemsReprintIffPlain(data: Bytes, i: nat, done: seq<Tree>)
    requires i <= |data| && ParseItems(data, i, done).Parsed?
    requires forall k :: 0 <= k < |done| ==> Clean(done[k])
    ensures var r := ParseItems(data, i, done);
      && r.value.Seq? && done <= r.value.items
      && (data[i..r.next] == EncodeAll(r.value.items[|done|..]) + [CHAR_E] <==> PlainItems(data, i, done))
    decreases |data| - i, 2
  {
    hide ParseValue, Encode, Clean, PlainValue, Reprints;
    var r := ParseItems(data, i, done);
    ItemsAreClean(data, i, done);
    if data[i] == CHAR_E {
      assert r.value.items[|done|..] == [];
      assert data[i..r.next] == [CHAR_E];
    } else {
      var item := ParseValue(data, i);
      var longer := done + [item.value];
      DecodedIsClean(data, i);
      ItemsReprintIffPlain(data, item.next, longer);
      ReprintsIffPlain(data, i);
      var items := r.value.items[|done|..];
      assert items == [item.value] + r.value.items[|longer|..];
      ParsedRestIsLater(data, item.next, longer);
      FrontAndRest(data, i, r.next, EncodeAll(r.value.items[|longer|..]) + [CHAR_E]);
      assert EncodeAll(items) + [CHAR_E]
        == Encode(item.value) + (EncodeAll(r.value.items[|longer|..]) + [CHAR_E]);
    }
  }

  lemma ParsedRestIsLater(data: Bytes, i: nat, done: seq<Tree>)
    requires i <= |data| && ParseItems(data, i, done).Parsed?
    ensures i < ParseItems(data, i, done).next <= |data|
  {
  }

  /** A slice is a value's encoding and a rest iff each part of it is. */
  lemma FrontAndRest(data: Bytes, i: nat, n: nat, rest: Bytes)
    requires i <= |data| && ParseValue(data, i).Parsed?
    requires ParseValue(data, i).next <= n <= |data|
    ensures var r := ParseValue(data, i);
      data[i..n] == Encode(r.value) + rest <==> Reprints(data, i) && data[r.next..n] == rest
  {
    hide ParseValue, Encode;
    var r := ParseValue(data, i);
    assert data[i..n] == data[i..r.next] + data[r.next..n];
    if data[i..n] == Encode(r.value) + rest { ConsumedExactly(data, i, n, rest); }
  }

  lemma {:induction false} PairsReprintIffPlain(data: Bytes, i: nat, done: seq<Pair>)
    requires i <= |data| && ParsePairs(data, i, done).Parsed?
    requires CleanPairs(done)
    ensures var r := ParsePairs(data, i, done);
      && r.value.Map? && done <= r.value.pairs
      && (data[i..r.next] == EncodePairs(r.value.pairs[|done|..]) + [CHAR_E] <==> PlainPairs(data, i, done))
    decreases |data| - i, 2
  {
    hide ParseValue, Encode, EncodeBytes, CleanPairs, PairKeys, Less, PlainValue, Reprints;
    var r := ParsePairs(data, i, done);
    PairsAreClean(data, i, done);
    if data[i] == CHAR_E {
      assert r.value.pairs[|done|..] == [];
      assert data[i..r.next] == [CHAR_E];
    } else {
      var key := ParseValue(data, i);
      var value := ParseValue(data, key.next);
      var p := Pair(key.value.data, value.value);
      var longer := done + [p];
      DecodedIsClean(data, key.next);
      ExtendCleanPairs(done, p);
      PairsReprintIffPlain(data, value.next, longer);
      ReprintsIffPlain(data, i);
      ReprintsIffPlain(data, key.next);
      var pairs := r.value.pairs[|done|..];
      var rest := EncodePairs(r.value.pairs[|longer|..]) + [CHAR_E];
      assert pairs == [p] + r.value.pairs[|longer|..];
      KeyEncoding(key.value.data);
      FrontAndRest(data, key.next, r.next, rest);
      FrontAndRest(data, i, r.next, Encode(value.value) + rest);
      assert EncodePairs(pairs) + [CHAR_E] == EncodeBytes(p.key) + (Encode(value.value) + rest);
    }
  }

  lemma KeyEncoding(key: Bytes)
    ensures Encode(Str(key)) == EncodeBytes(key)
  {
  }

  /** `bencode(bdecode(d)) == d` exactly when every numeral in d is plain. */
  lemma ReencodesToItselfIffPlain(d: Bytes)
    requires Bdecode(d).Ok?
    ensures Bencode(ToValue(Bdecode(d).value)) == Ok(d) <==> PlainValue(d, 0)
  {
    hide Encode, Clean, Ordered, PlainValue;
    var t := Bdecode(d).value;
    DecodedIsClean(d, 0);
    DecodedIsNormal(t);
    BencodePrintsNormalForm(ToValue(t));
    ReprintsIffPlain(d, 0);
    assert d[0..|d|] == d;
  }

  /** The accepted input `i+5e` is one that does not re-encode to itself. */
  lemma PaddedNumeralIsAccepted()
    ensures
      var d: Bytes := [CHAR_I, PLUS, 53, CHAR_E];
      Bdecode(d) == Ok(Number(5)) && Bencode(ToValue(Number(5))) != Ok(d)
  {
    var d: Bytes := [CHAR_I, PLUS, 53, CHAR_E];
    assert d[1..3] == [PLUS, 53] && [PLUS, 53][1..] == [53];
    assert Find(d, CHAR_E, 1) == Some(3);
    NothingToTrim([PLUS, 53]);
    DigitsAreUnsigned([53]);
    assert DigitsValue([53]) == 5 by { assert [53][..0] == []; }
    assert Render(5) == [53];
  }
}
