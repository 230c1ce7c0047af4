/** Decoding undoes encoding, for every supported value and at every nesting depth. */
module BencodeRoundTrip {
  import opened Wrappers
  import opened ByteStrings
  import opened Numerals
  import opened BencodeEncoder
  import opened BencodeParser

  /** The bytes s stand at position i. */
  predicate At(data: Bytes, i: nat, s: Bytes) {
    i + |s| <= |data| && data[i..i + |s|] == s
  }

  lemma AtSplit(data: Bytes, i: nat, a: Bytes, b: Bytes)
    requires At(data, i, a + b)
    ensures At(data, i, a) && At(data, i + |a|, b)
  {
    assert data[i..i + |a + b|][..|a|] == a;
    assert data[i..i + |a + b|][|a|..] == b;
  }

  lemma AtByte(data: Bytes, i: nat, b: Byte)
    requires At(data, i, [b])
    ensures i < |data| && data[i] == b
  {
    assert data[i..i + 1][0] == b;
  }

  lemma {:induction false} FindAt(data: Bytes, b: Byte, i: nat, s: Bytes)
    requires At(data, i, s + [b]) && b !in s
    ensures i <= |data| && Find(data, b, i) == Some(i + |s|)
    decreases |s|
  {
    AtSplit(data, i, s, [b]);
    AtByte(data, i + |s|, b);
    if s != [] {
      assert s + [b] == [s[0]] + (s[1..] + [b]);
      AtSplit(data, i, [s[0]], s[1..] + [b]);
      AtByte(data, i, s[0]);
      FindAt(data, b, i + 1, s[1..]);
    }
  }

  lemma RenderAvoids(n: int, b: Byte)
    requires b == CHAR_E || b == COLON
    ensures b !in Render(n) && (n >= 0 ==> b !in Digits(n))
  {
  }

  /** The decoder's checks accept every numeral that `str` prints. */
  lemma NumeralsAccepted(n: int)
    ensures IntegerOf(Render(n)) == Ok(n)
    ensures n >= 0 ==> LengthOf(Digits(n)) == Ok(n)
  {
    RenderParses(n);
  }

  lemma ParseEncodedInt(n: int, data: Bytes, i: nat)
    requires At(data, i, EncodeInt(n))
    ensures i < |data| && data[i] == CHAR_I
    ensures ParseInteger(data, i) == Parsed(Number(n), i + |EncodeInt(n)|)
  {
    hide IntegerOf, Render;
    var raw := Render(n);
    assert EncodeInt(n) == [CHAR_I] + (raw + [CHAR_E]);
    AtSplit(data, i, [CHAR_I], raw + [CHAR_E]);
    AtByte(data, i, CHAR_I);
    AtSplit(data, i + 1, raw, [CHAR_E]);
    RenderAvoids(n, CHAR_E);
    NumeralsAccepted(n);
    FindAt(data, CHAR_E, i + 1, raw);
    assert data[i + 1..i + 1 + |raw|] == raw;
  }

  lemma ParseEncodedBytes(b: Bytes, data: Bytes, i: nat)
    requires At(data, i, EncodeBytes(b))
    ensures i < |data| && IsDigit(data[i])
    ensures ParseBytes(data, i) == Parsed(Str(b), i + |EncodeBytes(b)|)
  {
    hide LengthOf, Digits;
    var raw := Digits(|b|);
    AtSplit(data, i, raw + [COLON], b);
    AtSplit(data, i, raw, [COLON]);
    assert IsDigit(raw[0]) && data[i] == data[i..i + |raw|][0];
    RenderAvoids(|b|, COLON);
    NumeralsAccepted(|b|);
    FindAt(data, COLON, i, raw);
  }

  /**
   * The decoder reads an encoding back from wherever it stands, whatever follows it; it
   * fails, with a duplicate key, exactly when some dictionary in the tree repeats one.
   */
  lemma {:induction false} ParseEncoded(t: Tree, data: Bytes, i: nat)
    requires Ordered(t) && At(data, i, Encode(t))
    ensures i < |data|
    ensures ParseValue(data, i) ==
      if Clean(t) then Parsed(t, i + |Encode(t)|) else Failed(DuplicateKey)
    decreases t
  {
    hide ParseInteger, ParseBytes, ParseItems, ParsePairs, EncodeInt, EncodeBytes, EncodeAll, EncodePairs;
    hide PairKeys, Sorted, StrictlySorted, At;
    match t
    case Number(n) => ParseEncodedInt(n, data, i);
    case Str(b) => ParseEncodedBytes(b, data, i);
    case Seq(items) =>
      Unwrap(CHAR_L, EncodeAll(items), data, i);
      ParseEncodedItems(items, data, i + 1, []);
      assert [] + items == items;
    case Map(pairs) =>
      Unwrap(CHAR_D, EncodePairs(pairs), data, i);
      assert [] + pairs == pairs;
      NoKeys();
      ParseEncodedPairs(pairs, data, i + 1, []);
  }

  lemma Unwrap(open: Byte, body: Bytes, data: Bytes, i: nat)
    requires At(data, i, [open] + body + [CHAR_E])
    ensures i < |data| && data[i] == open && At(data, i + 1, body + [CHAR_E])
  {
    assert [open] + body + [CHAR_E] == [open] + (body + [CHAR_E]);
    AtSplit(data, i, [open], body + [CHAR_E]);
    AtByte(data, i, open);
  }

  lemma {:induction false} ParseEncodedItems(items: seq<Tree>, data: Bytes, i: nat, done: seq<Tree>)
    requires forall k :: 0 <= k < |items| ==> Ordered(items[k])
    requires At(data, i, EncodeAll(items) + [CHAR_E])
    ensures ParseItems(data, i, done) ==
      if forall k :: 0 <= k < |items| ==> Clean(items[k])
      then Parsed(Seq(done + items), i + |EncodeAll(items)| + 1)
      else Failed(DuplicateKey)
    decreases items
  {
    hide ParseValue, Encode, Clean, Ordered;
    if items == [] {
      AtSplit(data, i, [], [CHAR_E]);
      AtByte(data, i, CHAR_E);
      assert done + items == done;
    } else {
      var rest := EncodeAll(items[1..]) + [CHAR_E];
      assert EncodeAll(items) + [CHAR_E] == Encode(items[0]) + rest;
      AtSplit(data, i, Encode(items[0]), rest);
      ParseEncoded(items[0], data, i);
      FirstByte(items[0]);
      assert data[i] == data[i..i + |Encode(items[0])|][0];
      ParseEncodedItems(items[1..], data, i + |Encode(items[0])|, done + [items[0]]);
      assert done + [items[0]] + items[1..] == done + items;
      assert forall k :: 0 < k < |items| ==> items[k] == items[1..][k - 1];
    }
  }

  lemma FirstByte(t: Tree)
    ensures Encode(t) != [] && Encode(t)[0] != CHAR_E
  {
    if t.Str? { assert IsDigit(Digits(|t.data|)[0]); }
  }

  lemma NoKeys()
    ensures StrictlySorted(PairKeys([]))
  {
  }

  lemma PairsEnd(data: Bytes, i: nat, done: seq<Pair>)
    requires i < |data| && data[i] == CHAR_E
    ensures ParsePairs(data, i, done) == Parsed(Map(done), i + 1)
  {
  }

  lemma PairsStep(data: Bytes, i: nat, done: seq<Pair>, key: Bytes, afterKey: nat)
    requires i < |data| && data[i] != CHAR_E
    requires ParseValue(data, i) == Parsed(Str(key), afterKey)
    requires done != [] ==> !Less(key, done[|done| - 1].key)
    ensures key in PairKeys(done) ==> ParsePairs(data, i, done) == Failed(DuplicateKey)
    ensures key !in PairKeys(done) ==>
      ParsePairs(data, i, done) ==
      match ParseValue(data, afterKey)
      case Failed(e) => Failed(e)
      case Parsed(value, next) => ParsePairs(data, next, done + [Pair(key, value)])
  {
    hide ParseValue, PairKeys, Less;
  }

  lemma {:induction false} ParseEncodedPairs(pairs: seq<Pair>, data: Bytes, i: nat, done: seq<Pair>)
    requires forall k :: 0 <= k < |pairs| ==> Ordered(pairs[k].value)
    requires StrictlySorted(PairKeys(done)) && Sorted(PairKeys(done + pairs))
    requires At(data, i, EncodePairs(pairs) + [CHAR_E])
    ensures ParsePairs(data, i, done) ==
      if StrictlySorted(PairKeys(done + pairs)) && forall k :: 0 <= k < |pairs| ==> Clean(pairs[k].value)
      then Parsed(Map(done + pairs), i + |EncodePairs(pairs)| + 1)
      else Failed(DuplicateKey)
    decreases pairs
  {
    hide ParseValue, ParsePairs, Encode, EncodeBytes, Clean, Ordered, PairKeys, StrictlySorted, Sorted, Less;
    if pairs == [] {
      AtSplit(data, i, [], [CHAR_E]);
      AtByte(data, i, CHAR_E);
      PairsEnd(data, i, done);
      assert done + pairs == done;
    } else {
      var key, value := pairs[0].key, pairs[0].value;
      var rest := EncodePairs(pairs[1..]) + [CHAR_E];
      var afterKey := i + |EncodeBytes(key)|;
      assert EncodePairs(pairs) + [CHAR_E] == EncodeBytes(key) + (Encode(value) + rest);
      AtSplit(data, i, EncodeBytes(key), Encode(value) + rest);
      AtSplit(data, afterKey, Encode(value), rest);
      ParseKey(key, data, i);
      KeyStep(done, pairs);
      PairsStep(data, i, done, key, afterKey);
      if key !in PairKeys(done) {
        assert value < pairs[0];
        ParseEncoded(value, data, afterKey);
        if Clean(value) {
          ParseEncodedPairs(pairs[1..], data, afterKey + |Encode(value)|, done + [pairs[0]]);
        }
        assert forall k :: 0 < k < |pairs| ==> pairs[k] == pairs[1..][k - 1];
      }
    }
  }

  lemma ParseKey(key: Bytes, data: Bytes, i: nat)
    requires At(data, i, EncodeBytes(key))
    ensures i < |data| && data[i] != CHAR_E
    ensures ParseValue(data, i) == Parsed(Str(key), i + |EncodeBytes(key)|)
  {
    hide EncodeBytes, ParseBytes;
    ParseEncodedBytes(key, data, i);
  }

  lemma KeyStep(done: seq<Pair>, pairs: seq<Pair>)
    requires pairs != [] && StrictlySorted(PairKeys(done)) && Sorted(PairKeys(done + pairs))
    ensures done + [pairs[0]] + pairs[1..] == done + pairs
    ensures done != [] ==> !Less(pairs[0].key, done[|done| - 1].key)
    ensures pairs[0].key in PairKeys(done) ==> !StrictlySorted(PairKeys(done + pairs))
    ensures pairs[0].key !in PairKeys(done) ==> StrictlySorted(PairKeys(done + [pairs[0]]))
  {
    var keys := PairKeys(done + pairs);
    assert done + [pairs[0]] + pairs[1..] == done + pairs;
    assert keys[|done|] == pairs[0].key;
    assert done != [] ==> keys[|done| - 1] == done[|done| - 1].key;
    if pairs[0].key in PairKeys(done) {
      var k :| 0 <= k < |done| && PairKeys(done)[k] == pairs[0].key;
      assert keys[k] == pairs[0].key;
      LessIsIrreflexive(pairs[0].key);
    } else {
      var longer := PairKeys(done + [pairs[0]]);
      forall a, b | 0 <= a < b < |longer| ensures Less(longer[a], longer[b]) {
        assert longer[a] == keys[a] && longer[b] == keys[b];
        if b == |done| {
          assert keys[a] == PairKeys(done)[a];
          LessIsTotal(longer[a], longer[b]);
        } else {
          assert longer[a] == PairKeys(done)[a] && longer[b] == PairKeys(done)[b];
        }
      }
    }
  }

  /**
   * The Bencode round trip: `bdecode(bencode(v))` is the normal form of v, with all input
   * consumed, exactly when no dictionary in v has two keys that coincide in UTF-8.
   */
  lemma RoundTrip(v: Value)
    requires Supported(v)
    ensures Bencode(v).Ok?
    ensures Bdecode(Bencode(v).value) == if KeysDistinct(v) then Ok(Normalize(v)) else Err(DuplicateKey)
  {
    BencodePrintsNormalForm(v);
    NormalFormOrder(v);
    ParseEncoded(Normalize(v), Encode(Normalize(v)), 0);
  }

  /** The form itself: `d1:al2:hi0:e1:bi-7ee`. */
  lemma KnownForm()
    ensures Encode(Map([Pair([97], Seq([Str([104, 105]), Str([])])), Pair([98], Number(-7))]))
      == [100, 49, 58, 97, 108, 50, 58, 104, 105, 48, 58, 101, 49, 58, 98, 105, 45, 55, 101, 101]
  {
    hide EncodeInt, EncodeBytes, EncodeAll;
    KnownLeaves();
    KnownList();
    var pairs := [Pair([97], Seq([Str([104, 105]), Str([])])), Pair([98], Number(-7))];
    assert pairs[1..] == [pairs[1]] && [pairs[1]][1..] == [];
  }

  lemma KnownList()
    ensures Encode(Seq([Str([104, 105]), Str([])])) == [108, 50, 58, 104, 105, 48, 58, 101]
  {
    hide EncodeBytes;
    KnownLeaves();
    assert [Str([104, 105]), Str([])][1..] == [Str([])] && [Str([])][1..] == [];
  }

  lemma KnownLeaves()
    ensures EncodeInt(-7) == [105, 45, 55, 101]
    ensures EncodeBytes([97]) == [49, 58, 97] && EncodeBytes([98]) == [49, 58, 98]
    ensures EncodeBytes([104, 105]) == [50, 58, 104, 105] && EncodeBytes([]) == [48, 58]
  {
  }

  /** A dictionary holding both "a" and b"a" is encoded, and its encoding is not decodable. */
  lemma CollidingKeysAreNotDecodable()
    ensures
      var v := Dict([Entry(TextKey("a"), Int(1)), Entry(RawKey([97]), Int(2))]);
      Bencode(v).Ok? && Bdecode(Bencode(v).value) == Err(DuplicateKey)
  {
    var v := Dict([Entry(TextKey("a"), Int(1)), Entry(RawKey([97]), Int(2))]);
    assert Children(v) == [Int(1), Int(2)];
    assert Supported(Int(1)) && Supported(Int(2));
    Utf8AsciiA();
    assert Keys(v.entries)[0] == Keys(v.entries)[1];
    RoundTrip(v);
  }

  lemma Utf8AsciiA()
    ensures KeyBytes(TextKey("a")) == [97]
  {
    assert "a"[1..] == [];
  }
}
