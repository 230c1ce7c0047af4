/** The JSON objects peers exchange (peer/peer_protocol.py), as Python dictionaries. */
module PeerMessages {
  import opened ByteStrings
  import opened BencodeEncoder

  type Message = map<string, Value>

  /** `message.get(name) == text`. */
  predicate HasText(m: Message, name: string, text: string) { name in m && m[name] == Text(text) }

  /** `isinstance(message.get(name), list)`. */
  predicate HasList(m: Message, name: string) { name in m && m[name].List? }

  /** `value == n` in Python, where True is 1, False is 0 and 1.0 is 1. */
  predicate PyEqualsInt(v: Value, n: int) {
    match v
    case Int(k) => k == n
    case Bool(flag) => (if flag then 1 else 0) == n
    case Float(x) => x == n as real
    case _ => false
  }

  /** Only text, integers and lists of booleans: what the messages about torrents hold. */
  predicate IsPlain(m: Message) {
    forall name :: name in m ==> m[name].Text? || m[name].Int? || (m[name].List? && AllBooleans(m[name].items))
  }

  predicate AllBooleans(items: seq<Value>) { forall k :: 0 <= k < |items| ==> items[k].Bool? }

  function Booleans(items: seq<Value>): (bits: seq<bool>)
    requires AllBooleans(items)
    ensures |bits| == |items|
    ensures forall k :: 0 <= k < |bits| ==> items[k] == Bool(bits[k])
  {
    seq(|items|, k requires 0 <= k < |items| => items[k].flag)
  }

  function BoolValues(bits: seq<bool>): (items: seq<Value>)
    ensures |items| == |bits| && AllBooleans(items) && Booleans(items) == bits
  {
    var items := seq(|bits|, k requires 0 <= k < |bits| => Bool(bits[k]));
    assert Booleans(items) == bits;
    items
  }
}
