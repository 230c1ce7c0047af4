/** The cursor-based decoder of common/bencode.py. */
module BencodeParser {
  import opened Wrappers
  import opened ByteStrings
  import opened Numerals
  import opened BencodeEncoder

  /** What one `_parse_*` call does: a value and the cursor it leaves, or an exception. */
  datatype Parsed<+T> = Parsed(value: T, next: nat) | Failed(error: Error)

  /** `data.find(bytes([b]), from)`. */
  function Find(data: Bytes, b: Byte, from: nat): (r: Option<nat>)
    requires from <= |data|
    ensures r.Some? ==> from <= r.value < |data| && data[r.value] == b && b !in data[from..r.value]
    ensures r.None? ==> b !in data[from..]
    decreases |data| - from
  {
    if from == |data| then None
    else if data[from] == b then Some(from)
    else Find(data, b, from + 1)
  }

  lemma {:induction false} TrimRightKeepsFirst(s: Bytes)
    requires s != []
    ensures !IsSpaceByte(s[0]) ==> TrimRight(s) != [] && TrimRight(s)[0] == s[0]
  {
    if IsSpaceByte(s[|s| - 1]) && |s| > 1 { TrimRightKeepsFirst(s[..|s| - 1]); }
  }

  /** The number between `i` and `e`, after the decoder's checks on its text. */
  function IntegerOf(raw: Bytes): Result<int, Error> {
    if raw == [] then Err(EmptyInteger)
    else if raw == [MINUS, ZERO] then Err(NegativeZero)
    else if raw[0] == ZERO && raw != [ZERO] then Err(LeadingZero)
    else if |raw| >= 2 && raw[0] == MINUS && raw[1] == ZERO then Err(LeadingZeroNegative)
    else match PyInt(raw)
      case None => Err(InvalidInteger)
      case Some(n) => Ok(n)
  }

  /** The byte-string length before `:`, after the decoder's checks on its text. */
  function LengthOf(raw: Bytes): (r: Result<int, Error>)
    ensures raw != [] && IsDigit(raw[0]) && r.Ok? ==> r.value >= 0
  {
    if raw == [] then Err(EmptyLength)
    else if raw[0] == ZERO && raw != [ZERO] then Err(LeadingZeroLength)
    else match PyInt(raw)
      case None => Err(InvalidLength)
      case Some(n) =>
        TrimRightKeepsFirst(raw);
        Ok(n)
  }

  function ParseInteger(data: Bytes, i: nat): (r: Parsed<Tree>)
    requires i < |data|
    ensures r.Parsed? ==> i < r.next <= |data|
  {
    match Find(data, CHAR_E, i + 1)
    case None => Failed(UnterminatedInteger)
    case Some(end) =>
      match IntegerOf(data[i + 1..end])
      case Err(e) => Failed(e)
      case Ok(n) => Parsed(Number(n), end + 1)
  }

  function ParseBytes(data: Bytes, i: nat): (r: Parsed<Tree>)
    requires i < |data| && IsDigit(data[i])
    ensures r.Parsed? ==> i < r.next <= |data|
  {
    match Find(data, COLON, i)
    case None => Failed(MissingColon)
    case Some(colon) =>
      match LengthOf(data[i..colon])
      case Err(e) => Failed(e)
      case Ok(length) =>
        assert data[i..colon][0] == data[i];
        if colon + 1 + length > |data| then Failed(StringTooLong)
        else Parsed(Str(data[colon + 1..colon + 1 + length]), colon + 1 + length)
  }

  function ParseValue(data: Bytes, i: nat): (r: Parsed<Tree>)
    requires i <= |data|
    ensures r.Parsed? ==> i < r.next <= |data|
    decreases |data| - i, 1
  {
    if i == |data| then Failed(UnexpectedEnd)
    else if data[i] == CHAR_I then ParseInteger(data, i)
    else if data[i] == CHAR_L then ParseItems(data, i + 1, [])
    else if data[i] == CHAR_D then ParsePairs(data, i + 1, [])
    else if IsDigit(data[i]) then ParseBytes(data, i)
    else Failed(InvalidMarker)
  }

  /** The list loop, with the items collected so far. */
  function ParseItems(data: Bytes, i: nat, done: seq<Tree>): (r: Parsed<Tree>)
    requires i <= |data|
    ensures r.Parsed? ==> i < r.next <= |data|
    decreases |data| - i, 2
  {
    if i == |data| then Failed(UnterminatedList)
    else if data[i] == CHAR_E then Parsed(Seq(done), i + 1)
    else match ParseValue(data, i)
      case Failed(e) => Failed(e)
      case Parsed(item, next) => ParseItems(data, next, done + [item])
  }

  /** The dictionary loop, with the pairs collected so far. */
  function ParsePairs(data: Bytes, i: nat, done: seq<Pair>): (r: Parsed<Tree>)
    requires i <= |data|
    ensures r.Parsed? ==> i < r.next <= |data|
    decreases |data| - i, 2
  {
    if i == |data| then Failed(UnterminatedDictionary)
    else if data[i] == CHAR_E then Parsed(Map(done), i + 1)
    else match ParseValue(data, i)
      case Failed(e) => Failed(e)
      case Parsed(key, afterKey) =>
        if !key.Str? then Failed(KeyNotBytes)
        else if done != [] && Less(key.data, done[|done| - 1].key) then Failed(KeysNotSorted)
        else if key.data in PairKeys(done) then Failed(DuplicateKey)
        else match ParseValue(data, afterKey)
          case Failed(e) => Failed(e)
          case Parsed(value, next) => ParsePairs(data, next, done + [Pair(key.data, value)])
  }

  /** `bdecode(data)`. */
  function Bdecode(data: Bytes): Result<Tree, Error> {
    match ParseValue(data, 0)
    case Failed(e) => Err(e)
    case Parsed(t, next) => if next != |data| then Err(ExtraData) else Ok(t)
  }

  /** A result and the cursor it leaves, in the terms of the specification. */
  function Outcome(r: Result<Tree, Error>, index: nat): Parsed<Tree> {
    match r
    case Ok(t) => Parsed(t, index)
    case Err(e) => Failed(e)
  }

  class Parser {
    const data: Bytes
    var index: nat

    constructor (data: Bytes)
      ensures this.data == data && index == 0
    {
      this.data := data;
      index := 0;
    }

    /** `parse`: one value, with nothing after it. */
    method Parse() returns (r: Result<Tree, Error>)
      requires index == 0
      modifies this
      ensures r == Bdecode(data)
    {
      r := ReadValue();
      if r.Ok? && index != |data| { r := Err(ExtraData); }
    }

    method ReadValue() returns (r: Result<Tree, Error>)
      requires index <= |data|
      modifies this
      ensures Outcome(r, index) == ParseValue(data, old(index))
      decreases |data| - index, 1
    {
      if index >= |data| { return Err(UnexpectedEnd); }
      var marker := data[index];
      if marker == CHAR_I { r := ReadInteger(); }
      else if marker == CHAR_L { r := ReadList(); }
      else if marker == CHAR_D { r := ReadDictionary(); }
      else if 48 <= marker <= 57 { r := ReadBytes(); }
      else { r := Err(InvalidMarker); }
    }

    method ReadInteger() returns (r: Result<Tree, Error>)
      requires index < |data|
      modifies this
      ensures Outcome(r, index) == ParseInteger(data, old(index))
    {
      index := index + 1;
      var end := Find(data, CHAR_E, index);
      if end.None? { return Err(UnterminatedInteger); }
      var raw := data[index..end.value];
      if raw == [] { return Err(EmptyInteger); }
      if raw == [MINUS, ZERO] { return Err(NegativeZero); }
      if raw[0] == ZERO && raw != [ZERO] { return Err(LeadingZero); }
      if |raw| >= 2 && raw[..2] == [MINUS, ZERO] { return Err(LeadingZeroNegative); }
      var number := PyInt(raw);
      if number.None? { return Err(InvalidInteger); }
      index := end.value + 1;
      r := Ok(Number(number.value));
    }

    method ReadBytes() returns (r: Result<Tree, Error>)
      requires index < |data| && IsDigit(data[index])
      modifies this
      ensures Outcome(r, index) == ParseBytes(data, old(index))
    {
      var colon := Find(data, COLON, index);
      if colon.None? { return Err(MissingColon); }
      var raw := data[index..colon.value];
      if raw == [] { return Err(EmptyLength); }
      if raw[0] == ZERO && raw != [ZERO] { return Err(LeadingZeroLength); }
      var length := PyInt(raw);
      if length.None? { return Err(InvalidLength); }
      TrimRightKeepsFirst(raw);
      var start := colon.value + 1;
      var end := start + length.value;
      if end > |data| { return Err(StringTooLong); }
      index := end;
      r := Ok(Str(data[start..end]));
    }

    method ReadList() returns (r: Result<Tree, Error>)
      requires index < |data|
      modifies this
      ensures Outcome(r, index) == ParseItems(data, old(index) + 1, [])
      decreases |data| - index, 0
    {
      index := index + 1;
      var result: seq<Tree> := [];
      while true
        invariant old(index) < index <= |data|
        invariant ParseItems(data, old(index) + 1, []) == ParseItems(data, index, result)
        decreases |data| - index
      {
        if index >= |data| { return Err(UnterminatedList); }
        if data[index] == CHAR_E {
          index := index + 1;
          return Ok(Seq(result));
        }
        var item := ReadValue();
        if item.Err? { return item; }
        result := result + [item.value];
      }
    }

    method ReadDictionary() returns (r: Result<Tree, Error>)
      requires index < |data|
      modifies this
      ensures Outcome(r, index) == ParsePairs(data, old(index) + 1, [])
      decreases |data| - index, 0
    {
      index := index + 1;
      var result: seq<Pair> := [];
      var previousKey: Option<Bytes> := None;
      while true
        invariant old(index) < index <= |data|
        invariant ParsePairs(data, old(index) + 1, []) == ParsePairs(data, index, result)
        invariant previousKey == if result == [] then None else Some(result[|result| - 1].key)
        decreases |data| - index
      {
        if index >= |data| { return Err(UnterminatedDictionary); }
        if data[index] == CHAR_E {
          index := index + 1;
          return Ok(Map(result));
        }
        var key := ReadValue();
        if key.Err? { return key; }
        if !key.value.Str? { return Err(KeyNotBytes); }
        if previousKey.Some? && Less(key.value.data, previousKey.value) { return Err(KeysNotSorted); }
        if key.value.data in PairKeys(result) { return Err(DuplicateKey); }
        previousKey := Some(key.value.data);
        var value := ReadValue();
        if value.Err? { return value; }
        result := result + [Pair(key.value.data, value.value)];
      }
    }
  }
}
