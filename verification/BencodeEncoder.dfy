/**
 * The Bencode encoder of common/bencode.py (the "bencoding" section of BEP 3).
 * `Value` is what the program hands to `bencode` or reads from JSON; `Tree` is what
 * `bdecode` can return: integers, byte strings, lists and dictionaries with byte keys.
 */
module BencodeEncoder {
  import opened Wrappers
  import opened ByteStrings
  import opened Numerals
  import Utf8

  const CHAR_I: Byte := 105
  const CHAR_L: Byte := 108
  const CHAR_D: Byte := 100
  const CHAR_E: Byte := 101
  const COLON: Byte := 58

  datatype Key = TextKey(text: string) | RawKey(data: Bytes) | OtherKey

  /** A dictionary is its entries in insertion order. */
  datatype Value =
    | Int(n: int)
    | Bool(flag: bool)
    | Float(x: real)
    | Raw(data: Bytes)
    | Text(text: string)
    | List(items: seq<Value>)
    | Tuple(items: seq<Value>)
    | Dict(entries: seq<Entry>)
    | Null

  datatype Entry = Entry(key: Key, value: Value)

  /** A decoded dictionary is its pairs in insertion order. */
  datatype Tree =
    | Number(n: int)
    | Str(data: Bytes)
    | Seq(items: seq<Tree>)
    | Map(pairs: seq<Pair>)

  datatype Pair = Pair(key: Bytes, value: Tree)

  datatype Error =
    | BoolUnsupported | TypeUnsupported | KeyUnsupported
    | UnexpectedEnd | InvalidMarker | ExtraData
    | UnterminatedInteger | EmptyInteger | NegativeZero | LeadingZero | LeadingZeroNegative | InvalidInteger
    | MissingColon | EmptyLength | LeadingZeroLength | InvalidLength | StringTooLong
    | UnterminatedList | UnterminatedDictionary
    | KeyNotBytes | KeysNotSorted | DuplicateKey

  type Encoded = Result<Bytes, Error>

  // ---- What bencode computes ---------------------------------------------------

  function EncodeInt(n: int): Bytes { [CHAR_I] + Render(n) + [CHAR_E] }

  function EncodeBytes(b: Bytes): Bytes { Digits(|b|) + [COLON] + b }

  function KeyBytes(key: Key): Bytes {
    match key
    case TextKey(text) => Utf8.Encode(text)
    case RawKey(data) => data
    case OtherKey => []
  }

  function Keys(entries: seq<Entry>): (keys: seq<Bytes>)
    ensures |keys| == |entries|
  {
    seq(|entries|, k requires 0 <= k < |entries| => KeyBytes(entries[k].key))
  }

  predicate KeysSupported(entries: seq<Entry>) {
    forall k :: 0 <= k < |entries| ==> !entries[k].key.OtherKey?
  }

  /** The concatenation of the bodies, or the first error among them. */
  function Join(bodies: seq<Encoded>): Encoded {
    if bodies == [] then Ok([])
    else match bodies[0]
      case Err(e) => Err(e)
      case Ok(body) => Prepend(body, Join(bodies[1..]))
  }

  function JoinPairs(keys: seq<Bytes>, bodies: seq<Encoded>): Encoded
    requires |keys| == |bodies|
  {
    if bodies == [] then Ok([])
    else match bodies[0]
      case Err(e) => Err(e)
      case Ok(body) => Prepend(EncodeBytes(keys[0]) + body, JoinPairs(keys[1..], bodies[1..]))
  }

  function Prepend(front: Bytes, rest: Encoded): Encoded {
    match rest
    case Err(e) => Err(e)
    case Ok(body) => Ok(front + body)
  }

  function Wrap(open: Byte, body: Encoded): Encoded {
    match body
    case Err(e) => Err(e)
    case Ok(bytes) => Ok([open] + bytes + [CHAR_E])
  }

  /** The values directly inside a list, tuple or dictionary. */
  function Children(v: Value): (children: seq<Value>)
    ensures forall k :: 0 <= k < |children| ==> children[k] < v
    ensures v.Dict? ==> |children| == |v.entries|
    ensures v.List? || v.Tuple? ==> children == v.items
  {
    match v
    case List(items) => items
    case Tuple(items) => items
    case Dict(entries) => seq(|entries|, k requires 0 <= k < |entries| => entries[k].value)
    case _ => []
  }

  function Bencode(v: Value): Encoded
    decreases v, 1
  {
    match v
    case Bool(_) => Err(BoolUnsupported)
    case Int(n) => Ok(EncodeInt(n))
    case Raw(data) => Ok(EncodeBytes(data))
    case Text(text) => Ok(EncodeBytes(Utf8.Encode(text)))
    case List(_) => Wrap(CHAR_L, Join(Bodies(v)))
    case Tuple(_) => Wrap(CHAR_L, Join(Bodies(v)))
    case Dict(entries) =>
      if !KeysSupported(entries) then Err(KeyUnsupported)
      else
        var order := SortOrder(Keys(entries));
        Wrap(CHAR_D, JoinPairs(Reorder(Keys(entries), order), Reorder(Bodies(v), order)))
    case Float(_) => Err(TypeUnsupported)
    case Null => Err(TypeUnsupported)
  }

  function Bodies(v: Value): (bodies: seq<Encoded>)
    ensures |bodies| == |Children(v)|
    decreases v, 0
  {
    seq(|Children(v)|, k requires 0 <= k < |Children(v)| => Bencode(Children(v)[k]))
  }

  // ---- The encoder as the source writes it -------------------------------------

  /** `bencode(value)`: the dictionary branch collects, sorts and then extends a buffer. */
  method Encoder(v: Value) returns (r: Encoded)
    ensures r == Bencode(v)
    decreases v, 1
  {
    match v {
      case Bool(_) => r := Err(BoolUnsupported);
      case Int(n) => r := Ok([CHAR_I] + Render(n) + [CHAR_E]);
      case Raw(data) => r := Ok(Digits(|data|) + [COLON] + data);
      case Text(text) =>
        var encoded := Utf8.Encode(text);
        r := Ok(Digits(|encoded|) + [COLON] + encoded);
      case List(items) => r := EncodeList(v, items);
      case Tuple(items) => r := EncodeList(v, items);
      case Dict(entries) => r := EncodeDict(v, entries);
      case Float(_) => r := Err(TypeUnsupported);
      case Null => r := Err(TypeUnsupported);
    }
  }

  method EncodeList(v: Value, items: seq<Value>) returns (r: Encoded)
    requires v == List(items) || v == Tuple(items)
    ensures r == Bencode(v)
    decreases v, 0
  {
    ghost var bodies := Bodies(v);
    var joined: Bytes := [];
    PrependNothing(Join(bodies));
    for i := 0 to |items|
      invariant Join(bodies) == Prepend(joined, Join(bodies[i..]))
    {
      var body := Encoder(items[i]);
      if body.Err? { return body; }
      assert bodies[i..][1..] == bodies[i + 1..];
      PrependTwice(joined, body.value, Join(bodies[i + 1..]));
      joined := joined + body.value;
    }
    assert bodies[|items|..] == [] && joined + [] == joined;
    r := Ok([CHAR_L] + joined + [CHAR_E]);
  }

  method EncodeDict(v: Value, entries: seq<Entry>) returns (r: Encoded)
    requires v == Dict(entries)
    ensures r == Bencode(v)
    decreases v, 0
  {
    var items: seq<(Bytes, Value)> := [];
    for i := 0 to |entries|
      invariant KeysSupported(entries[..i])
      invariant |items| == i
      invariant forall k :: 0 <= k < i ==> items[k] == (KeyBytes(entries[k].key), Children(v)[k])
    {
      var key: Bytes;
      match entries[i].key {
        case TextKey(text) => key := Utf8.Encode(text);
        case RawKey(data) => key := data;
        case OtherKey => return Err(KeyUnsupported);
      }
      items := items + [(key, entries[i].value)];
    }
    var order := SortOrder(Firsts(items));
    assert Firsts(items) == Keys(entries);
    r := EncodeSorted(v, Reorder(items, order));
  }

  function Firsts(items: seq<(Bytes, Value)>): seq<Bytes> {
    seq(|items|, k requires 0 <= k < |items| => items[k].0)
  }

  method EncodeSorted(v: Value, items: seq<(Bytes, Value)>) returns (r: Encoded)
    requires v.Dict? && KeysSupported(v.entries) && |items| == |v.entries|
    requires forall k :: 0 <= k < |items| ==>
      var i := SortOrder(Keys(v.entries))[k];
      items[k] == (KeyBytes(v.entries[i].key), Children(v)[i])
    ensures r == Bencode(v)
    decreases v, 0, 0
  {
    ghost var order := SortOrder(Keys(v.entries));
    ghost var keys, bodies := Reorder(Keys(v.entries), order), Reorder(Bodies(v), order);
    var body: Bytes := [];
    PrependNothing(JoinPairs(keys, bodies));
    for i := 0 to |items|
      invariant JoinPairs(keys, bodies) == Prepend(body, JoinPairs(keys[i..], bodies[i..]))
    {
      var item := Encoder(items[i].1);
      assert bodies[i] == item && keys[i] == items[i].0;
      if item.Err? { return item; }
      assert bodies[i..][1..] == bodies[i + 1..] && keys[i..][1..] == keys[i + 1..];
      PrependTwice(body, EncodeBytes(items[i].0) + item.value, JoinPairs(keys[i + 1..], bodies[i + 1..]));
      body := body + (EncodeBytes(items[i].0) + item.value);
    }
    assert bodies[|items|..] == [] && body + [] == body;
    r := Ok([CHAR_D] + body + [CHAR_E]);
  }

  lemma PrependNothing(rest: Encoded)
    ensures Prepend([], rest) == rest
  {
    if rest.Ok? { assert [] + rest.value == rest.value; }
  }

  lemma PrependTwice(a: Bytes, b: Bytes, rest: Encoded)
    ensures Prepend(a, Prepend(b, rest)) == Prepend(a + b, rest)
  {
    if rest.Ok? { assert a + (b + rest.value) == a + b + rest.value; }
  }

  // ---- Normal forms ------------------------------------------------------------

  /** No bool, float, null or foreign key anywhere: the values `bencode` does not reject. */
  predicate Supported(v: Value)
    decreases v
  {
    && !v.Bool? && !v.Float? && !v.Null?
    && (v.Dict? ==> KeysSupported(v.entries))
    && forall k :: 0 <= k < |Children(v)| ==> Supported(Children(v)[k])
  }

  /** At every level the keys stay distinct once text keys are UTF-8 encoded. */
  predicate KeysDistinct(v: Value)
    decreases v
  {
    && (v.Dict? ==> Distinct(Keys(v.entries)))
    && forall k :: 0 <= k < |Children(v)| ==> KeysDistinct(Children(v)[k])
  }

  /** Text becomes bytes, tuples become lists, dictionaries are sorted by key bytes. */
  function Normalize(v: Value): Tree
    requires Supported(v)
    decreases v, 1
  {
    match v
    case Int(n) => Number(n)
    case Raw(data) => Str(data)
    case Text(text) => Str(Utf8.Encode(text))
    case List(_) => Seq(NormalChildren(v))
    case Tuple(_) => Seq(NormalChildren(v))
    case Dict(entries) =>
      var order := SortOrder(Keys(entries));
      Map(Zip(Reorder(Keys(entries), order), Reorder(NormalChildren(v), order)))
  }

  function NormalChildren(v: Value): (trees: seq<Tree>)
    requires Supported(v)
    ensures |trees| == |Children(v)|
    decreases v, 0
  {
    seq(|Children(v)|, k requires 0 <= k < |Children(v)| => Normalize(Children(v)[k]))
  }

  function Zip(keys: seq<Bytes>, trees: seq<Tree>): (pairs: seq<Pair>)
    requires |keys| == |trees|
    ensures |pairs| == |keys|
    ensures forall k :: 0 <= k < |pairs| ==> pairs[k] == Pair(keys[k], trees[k])
  {
    seq(|keys|, k requires 0 <= k < |keys| => Pair(keys[k], trees[k]))
  }

  function PairKeys(pairs: seq<Pair>): (keys: seq<Bytes>)
    ensures |keys| == |pairs|
    ensures forall k :: 0 <= k < |keys| ==> keys[k] == pairs[k].key
  {
    seq(|pairs|, k requires 0 <= k < |pairs| => pairs[k].key)
  }

  function Encode(t: Tree): Bytes
    decreases t
  {
    match t
    case Number(n) => EncodeInt(n)
    case Str(data) => EncodeBytes(data)
    case Seq(items) => [CHAR_L] + EncodeAll(items) + [CHAR_E]
    case Map(pairs) => [CHAR_D] + EncodePairs(pairs) + [CHAR_E]
  }

  function EncodeAll(items: seq<Tree>): Bytes
    decreases items
  {
    if items == [] then [] else Encode(items[0]) + EncodeAll(items[1..])
  }

  function EncodePairs(pairs: seq<Pair>): Bytes
    decreases pairs
  {
    if pairs == [] then [] else
      assert pairs[0].value < pairs[0];
      EncodeBytes(pairs[0].key) + Encode(pairs[0].value) + EncodePairs(pairs[1..])
  }

  /** Every dictionary in the tree has its keys in order. */
  predicate Ordered(t: Tree)
    decreases t
  {
    match t
    case Number(_) => true
    case Str(_) => true
    case Seq(items) => forall k :: 0 <= k < |items| ==> Ordered(items[k])
    case Map(pairs) => Sorted(PairKeys(pairs)) && forall k :: 0 <= k < |pairs| ==> Ordered(pairs[k].value)
  }

  /** Every dictionary in the tree has strictly increasing keys. */
  predicate Clean(t: Tree)
    decreases t
  {
    match t
    case Number(_) => true
    case Str(_) => true
    case Seq(items) => forall k :: 0 <= k < |items| ==> Clean(items[k])
    case Map(pairs) =>
      StrictlySorted(PairKeys(pairs)) && forall k :: 0 <= k < |pairs| ==> Clean(pairs[k].value)
  }

  // ---- The encoder prints the normal form --------------------------------------

  lemma {:induction false} JoinOfTrees(bodies: seq<Encoded>, trees: seq<Tree>)
    requires |bodies| == |trees|
    requires forall k :: 0 <= k < |bodies| ==> bodies[k] == Ok(Encode(trees[k]))
    ensures Join(bodies) == Ok(EncodeAll(trees))
  {
    if bodies != [] { JoinOfTrees(bodies[1..], trees[1..]); }
  }

  lemma {:induction false} JoinPairsOfTrees(keys: seq<Bytes>, bodies: seq<Encoded>, pairs: seq<Pair>)
    requires |bodies| == |pairs| == |keys|
    requires forall k :: 0 <= k < |bodies| ==>
      keys[k] == pairs[k].key && bodies[k] == Ok(Encode(pairs[k].value))
    ensures JoinPairs(keys, bodies) == Ok(EncodePairs(pairs))
  {
    if bodies != [] { JoinPairsOfTrees(keys[1..], bodies[1..], pairs[1..]); }
  }

  lemma {:induction false} JoinFails(bodies: seq<Encoded>, k: nat)
    requires k < |bodies| && bodies[k].Err?
    ensures Join(bodies).Err?
  {
    if k > 0 && bodies[0].Ok? { JoinFails(bodies[1..], k - 1); }
  }

  lemma {:induction false} JoinPairsFails(keys: seq<Bytes>, bodies: seq<Encoded>, k: nat)
    requires |keys| == |bodies| && k < |bodies| && bodies[k].Err?
    ensures JoinPairs(keys, bodies).Err?
  {
    if k > 0 && bodies[0].Ok? { JoinPairsFails(keys[1..], bodies[1..], k - 1); }
  }

  /** `bencode` succeeds on exactly the supported values, and prints their normal form. */
  lemma {:induction false} BencodePrintsNormalForm(v: Value)
    ensures Bencode(v).Ok? <==> Supported(v)
    ensures Supported(v) ==> Bencode(v) == Ok(Encode(Normalize(v)))
    decreases v
  {
    forall k | 0 <= k < |Children(v)|
      ensures Bencode(Children(v)[k]).Ok? <==> Supported(Children(v)[k])
      ensures Supported(Children(v)[k]) ==> Bodies(v)[k] == Ok(Encode(Normalize(Children(v)[k])))
    {
      BencodePrintsNormalForm(Children(v)[k]);
    }
    if v.List? || v.Tuple? {
      if Supported(v) {
        JoinOfTrees(Bodies(v), NormalChildren(v));
      } else {
        var k :| 0 <= k < |Children(v)| && !Supported(Children(v)[k]);
        JoinFails(Bodies(v), k);
      }
    } else if v.Dict? && KeysSupported(v.entries) {
      DictPrintsNormalForm(v);
    }
  }

  lemma DictPrintsNormalForm(v: Value)
    requires v.Dict? && KeysSupported(v.entries)
    requires forall k :: 0 <= k < |Children(v)| ==>
      && (Bencode(Children(v)[k]).Ok? <==> Supported(Children(v)[k]))
      && (Supported(Children(v)[k]) ==> Bodies(v)[k] == Ok(Encode(Normalize(Children(v)[k]))))
    ensures Bencode(v).Ok? <==> Supported(v)
    ensures Supported(v) ==> Bencode(v) == Ok(Encode(Normalize(v)))
  {
    hide Bencode, Supported, Normalize, JoinPairs, SortOrder, EncodePairs;
    var order := SortOrder(Keys(v.entries));
    var keys, bodies := Reorder(Keys(v.entries), order), Reorder(Bodies(v), order);
    BencodeOfDict(v);
    SupportedDict(v);
    if Supported(v) {
      NormalFormOfDict(v);
      var pairs := Normalize(v).pairs;
      forall k | 0 <= k < |pairs| ensures bodies[k] == Ok(Encode(pairs[k].value)) {
        assert bodies[k] == Bodies(v)[order[k]];
      }
      JoinPairsOfTrees(keys, bodies, pairs);
    } else {
      var i :| 0 <= i < |Children(v)| && !Supported(Children(v)[i]);
      assert Bodies(v)[i].Err?;
      SortOrderIsStable(Keys(v.entries));
      assert i in order;
      var k :| 0 <= k < |order| && order[k] == i;
      JoinPairsFails(keys, bodies, k);
    }
  }

  lemma BencodeOfDict(v: Value)
    requires v.Dict? && KeysSupported(v.entries)
    ensures var order := SortOrder(Keys(v.entries));
      Bencode(v) == Wrap(CHAR_D, JoinPairs(Reorder(Keys(v.entries), order), Reorder(Bodies(v), order)))
    ensures forall k :: 0 <= k < |Children(v)| ==> Bodies(v)[k] == Bencode(Children(v)[k])
  {
    hide JoinPairs, SortOrder, KeyBytes;
  }

  lemma SupportedDict(v: Value)
    requires v.Dict? && KeysSupported(v.entries)
    ensures Supported(v) <==> forall k :: 0 <= k < |Children(v)| ==> Supported(Children(v)[k])
  {
  }

  /** A dictionary's pairs, in the order in which its entries are sorted. */
  lemma NormalFormOfDict(v: Value)
    requires v.Dict? && Supported(v)
    ensures var order := SortOrder(Keys(v.entries));
      && Normalize(v).Map? && |Normalize(v).pairs| == |order| == |v.entries|
      && forall k :: 0 <= k < |order| ==>
           && Supported(Children(v)[order[k]])
           && Normalize(v).pairs[k] == Pair(Keys(v.entries)[order[k]], Normalize(Children(v)[order[k]]))
  {
    hide SortOrder, KeyBytes;
  }

  /** Normal forms are ordered, and clean exactly when no two keys collide. */
  lemma {:induction false} NormalFormOrder(v: Value)
    requires Supported(v)
    ensures Ordered(Normalize(v))
    ensures Clean(Normalize(v)) <==> KeysDistinct(v)
    decreases v
  {
    forall k | 0 <= k < |Children(v)|
      ensures Ordered(NormalChildren(v)[k])
      ensures Clean(NormalChildren(v)[k]) <==> KeysDistinct(Children(v)[k])
    {
      NormalFormOrder(Children(v)[k]);
    }
    if v.Dict? {
      NormalEntriesOrder(v);
    } else if v.List? || v.Tuple? {
      assert Normalize(v).items == NormalChildren(v);
    }
  }

  lemma NormalEntriesOrder(v: Value)
    requires v.Dict? && Supported(v)
    requires forall k :: 0 <= k < |Children(v)| ==>
      && Ordered(NormalChildren(v)[k])
      && (Clean(NormalChildren(v)[k]) <==> KeysDistinct(Children(v)[k]))
    ensures Ordered(Normalize(v))
    ensures Clean(Normalize(v)) <==> KeysDistinct(v)
  {
    var keys := Keys(v.entries);
    var order := SortOrder(keys);
    var pairs := Normalize(v).pairs;
    assert PairKeys(pairs) == Reorder(keys, order);
    ReorderSorts(keys);
    SortOrderIsStable(keys);
    forall k | 0 <= k < |pairs|
      ensures Ordered(pairs[k].value)
      ensures Clean(pairs[k].value) <==> KeysDistinct(Children(v)[order[k]])
    {
      assert pairs[k].value == NormalChildren(v)[order[k]];
    }
    if forall k :: 0 <= k < |pairs| ==> Clean(pairs[k].value) {
      forall i | 0 <= i < |Children(v)| ensures KeysDistinct(Children(v)[i]) {
        assert i in order;
        var k :| 0 <= k < |order| && order[k] == i;
        assert Clean(pairs[k].value);
      }
    }
  }
}
