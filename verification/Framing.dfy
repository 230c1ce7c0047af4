/**
 * peer/peer_protocol.py: length-prefixed messages over a stream that arrives in chunks of
 * any size. JSON is a codec parameter.
 */
module Framing {
  import opened Wrappers
  import opened ByteStrings
  import opened BencodeEncoder
  import opened PeerMessages
  import opened PyText

  const HEADER_SIZE: nat := 4
  const DEFAULT_MAX_MESSAGE_SIZE: nat := 8 * 1024 * 1024
  const HEADER_LIMIT: nat := 0x1_0000_0000

  /** The constructors that take a limit refuse any other. */
  type Limit = n: int | 0 < n witness 1

  /** JSON text as UTF-8 bytes, and back to a dictionary; None stands for their exceptions. */
  datatype Codec = Codec(encode: Message -> Option<Bytes>, decode: Bytes -> Option<Message>)

  /** What the stream does once its bytes are used up. */
  datatype Ending = Closed | TimedOut

  datatype FrameError =
    | NoType | BadLimit | NotSerializable | EmptyPayload | TooLarge | HeaderOverflow | Undecodable
    | Ended(ending: Ending)

  /** `isinstance(m.get("type"), str) and m["type"].strip()`. */
  predicate HasType(m: Message) { "type" in m && m["type"].Text? && Strip(m["type"].text) != "" }

  // ---- The header --------------------------------------------------------------

  /** `struct.pack("!I", n)`. */
  function Header(n: nat): (header: Bytes)
    requires n < HEADER_LIMIT
    ensures |header| == HEADER_SIZE
  {
    [n / 0x100_0000, n / 0x1_0000 % 0x100, n / 0x100 % 0x100, n % 0x100]
  }

  /** `struct.unpack("!I", header)`. */
  function HeaderValue(header: Bytes): (n: nat)
    requires |header| == HEADER_SIZE
    ensures n < HEADER_LIMIT
  {
    header[0] as int * 0x100_0000 + header[1] as int * 0x1_0000 + header[2] as int * 0x100 + header[3] as int
  }

  lemma HeaderRoundTrip(n: nat)
    requires n < HEADER_LIMIT
    ensures HeaderValue(Header(n)) == n
  {
    assert n == n / 0x100 * 0x100 + n % 0x100;
    assert n / 0x100 == n / 0x1_0000 * 0x100 + n / 0x100 % 0x100;
    assert n / 0x1_0000 == n / 0x100_0000 * 0x100 + n / 0x1_0000 % 0x100;
  }

  lemma HeaderIsCanonical(header: Bytes)
    requires |header| == HEADER_SIZE
    ensures Header(HeaderValue(header)) == header
  {
    var n := HeaderValue(header);
    assert n / 0x100 == header[0] as int * 0x1_0000 + header[1] as int * 0x100 + header[2];
    assert n / 0x1_0000 == header[0] as int * 0x100 + header[1];
    assert n / 0x100_0000 == header[0];
  }

  /** The header is big-endian: headers compare as bytes the way their lengths compare as numbers. */
  lemma HeadersKeepOrder(m: nat, n: nat)
    requires m < HEADER_LIMIT && n < HEADER_LIMIT
    ensures Less(Header(m), Header(n)) <==> m < n
  {
    hide Header, HeaderValue;
    HeaderRoundTrip(m);
    HeaderRoundTrip(n);
    FourBytes(Header(m), Header(n));
  }

  lemma FourBytes(a: Bytes, b: Bytes)
    requires |a| == |b| == HEADER_SIZE
    ensures Less(a, b) <==> HeaderValue(a) < HeaderValue(b)
  {
    assert Less(a[4..], b[4..]) == false;
    assert Less(a[3..], b[3..]) <==> a[3] < b[3] by { assert a[3..][1..] == a[4..] && b[3..][1..] == b[4..]; }
    assert Less(a[2..], b[2..]) <==> a[2] < b[2] || (a[2] == b[2] && Less(a[3..], b[3..])) by {
      assert a[2..][1..] == a[3..] && b[2..][1..] == b[3..];
    }
    assert Less(a[1..], b[1..]) <==> a[1] < b[1] || (a[1] == b[1] && Less(a[2..], b[2..])) by {
      assert a[1..][1..] == a[2..] && b[1..][1..] == b[2..];
    }
  }

  // ---- Sending -----------------------------------------------------------------

  /** `encode_message(message, max_message_size=limit)`. */
  function EncodeMessage(codec: Codec, m: Message, limit: int): Result<Bytes, FrameError> {
    if !HasType(m) then Err(NoType)
    else if limit <= 0 then Err(BadLimit)
    else match codec.encode(m)
      case None => Err(NotSerializable)
      case Some(payload) =>
        if payload == [] then Err(EmptyPayload)
        else if |payload| > limit then Err(TooLarge)
        else if |payload| >= HEADER_LIMIT then Err(HeaderOverflow)
        else Ok(Header(|payload|) + payload)
  }

  /** Under the default limit the length always fits the header. */
  lemma DefaultLimitFitsHeader(codec: Codec, m: Message, limit: int)
    requires limit <= DEFAULT_MAX_MESSAGE_SIZE
    ensures EncodeMessage(codec, m, limit) != Err(HeaderOverflow)
  {
    hide HasType, Header;
  }

  /** What the default limit lets through: payloads of up to 8388608 bytes, in both directions. */
  lemma DefaultLimit(codec: Codec, m: Message, stream: Bytes, ending: Ending)
    requires HasType(m) && codec.encode(m).Some? && codec.encode(m).value != []
    ensures EncodeMessage(codec, m, DEFAULT_MAX_MESSAGE_SIZE).Ok? <==> |codec.encode(m).value| <= 8388608
    ensures |stream| >= HEADER_SIZE ==>
      (Receive(codec, stream, ending, DEFAULT_MAX_MESSAGE_SIZE).0 == Err(TooLarge) <==>
       HeaderValue(stream[..HEADER_SIZE]) > 8388608)
  {
    hide HasType, Header, HeaderValue;
  }

  // ---- Receiving, on the stream as a whole -------------------------------------

  /** `recv_exact(sock, size)`: its result and the rest of the stream. */
  function TakeExact(stream: Bytes, size: nat, ending: Ending): (Result<Bytes, FrameError>, Bytes) {
    if |stream| >= size then (Ok(stream[..size]), stream[size..]) else (Err(Ended(ending)), [])
  }

  /** `receive_message(sock, max_message_size=limit)`: its result and the rest of the stream. */
  function Receive(codec: Codec, stream: Bytes, ending: Ending, limit: int): (Result<Message, FrameError>, Bytes) {
    if limit <= 0 then (Err(BadLimit), stream)
    else match TakeExact(stream, HEADER_SIZE, ending)
      case (Err(e), rest) => (Err(e), rest)
      case (Ok(header), rest) =>
        var size := HeaderValue(header);
        if size == 0 then (Err(EmptyPayload), rest)
        else if size > limit then (Err(TooLarge), rest)
        else match TakeExact(rest, size, ending)
          case (Err(e), after) => (Err(e), after)
          case (Ok(payload), after) => (DecodePayload(codec, payload), after)
  }

  function DecodePayload(codec: Codec, payload: Bytes): Result<Message, FrameError> {
    match codec.decode(payload)
    case None => Err(Undecodable)
    case Some(m) => if HasType(m) then Ok(m) else Err(NoType)
  }

  // ---- Receiving, chunk by chunk -----------------------------------------------

  function Flatten(chunks: seq<Bytes>): Bytes {
    if chunks == [] then [] else chunks[0] + Flatten(chunks[1..])
  }

  /** The receiving end of a connection: the chunks still to arrive. */
  class Socket {
    var chunks: seq<Bytes>
    const ending: Ending

    ghost predicate Valid()
      reads this
    {
      forall k :: 0 <= k < |chunks| ==> chunks[k] != []
    }

    function Stream(): Bytes
      reads this
    {
      Flatten(chunks)
    }

    constructor (chunks: seq<Bytes>, ending: Ending)
      requires forall k :: 0 <= k < |chunks| ==> chunks[k] != []
      ensures Valid() && this.chunks == chunks && this.ending == ending
    {
      this.chunks := chunks;
      this.ending := ending;
    }

    /** `recv(n)`: some of the next chunk; no bytes once the connection is closed. */
    method Recv(n: nat) returns (r: Result<Bytes, FrameError>)
      requires Valid() && n > 0
      modifies this`chunks
      ensures Valid()
      ensures r.Ok? ==> |r.value| <= n && r.value + Stream() == old(Stream())
      ensures r.Ok? && r.value == [] ==> old(Stream()) == [] && ending == Closed
      ensures r.Err? ==> r.error == Ended(TimedOut) && ending == TimedOut && old(Stream()) == [] && Stream() == []
    {
      if chunks == [] {
        return if ending == Closed then Ok([]) else Err(Ended(TimedOut));
      }
      var chunk, rest := chunks[0], chunks[1..];
      if |chunk| <= n {
        chunks := rest;
        r := Ok(chunk);
      } else {
        chunks := [chunk[n..]] + rest;
        assert chunks[1..] == rest;
        assert chunk[..n] + (chunk[n..] + Flatten(rest)) == chunk + Flatten(rest);
        r := Ok(chunk[..n]);
      }
    }

    /** `recv_exact(sock, size)`. */
    method RecvExact(size: nat) returns (r: Result<Bytes, FrameError>)
      requires Valid()
      modifies this`chunks
      ensures Valid() && (r, Stream()) == TakeExact(old(Stream()), size, ending)
    {
      ghost var stream := Stream();
      var received: Bytes := [];
      while |received| < size
        invariant Valid() && |received| <= size
        invariant received + Stream() == stream
      {
        ghost var before := received;
        var chunk := Recv(size - |received|);
        if chunk.Err? { return Err(chunk.error); }
        if chunk.value == [] { return Err(Ended(Closed)); }
        received := received + chunk.value;
        assert received + Stream() == before + (chunk.value + Stream());
      }
      assert stream[..size] == received && stream[size..] == Stream();
      r := Ok(received);
    }

    /** `receive_message(sock)`: the outcome depends on the bytes alone, never on the chunks. */
    method ReceiveMessage(codec: Codec, limit: int) returns (r: Result<Message, FrameError>)
      requires Valid()
      modifies this`chunks
      ensures Valid() && (r, Stream()) == Receive(codec, old(Stream()), ending, limit)
    {
      hide Flatten, HeaderValue, HasType;
      if limit <= 0 { return Err(BadLimit); }
      var header := RecvExact(HEADER_SIZE);
      if header.Err? { return Err(header.error); }
      var size := HeaderValue(header.value);
      if size == 0 { return Err(EmptyPayload); }
      if size > limit { return Err(TooLarge); }
      var payload := RecvExact(size);
      if payload.Err? { return Err(payload.error); }
      var message := codec.decode(payload.value);
      if message.None? { return Err(Undecodable); }
      if !HasType(message.value) { return Err(NoType); }
      r := Ok(message.value);
    }
  }

  // ---- Round trips -------------------------------------------------------------

  /** The library fact about JSON and UTF-8, for one message: decoding undoes encoding. */
  predicate Faithful(codec: Codec, m: Message) {
    codec.encode(m).Some? ==> codec.decode(codec.encode(m).value) == Some(m)
  }

  /**
   * A received frame is the sent message, whatever follows it; the call consumes exactly the
   * header and the payload. A receiver with a smaller limit refuses it.
   */
  lemma FrameRoundTrip(codec: Codec, m: Message, limit: int, receiverLimit: int, ending: Ending, rest: Bytes)
    requires EncodeMessage(codec, m, limit).Ok? && Faithful(codec, m) && receiverLimit > 0
    ensures var frame := EncodeMessage(codec, m, limit).value;
      var (r, after) := Receive(codec, frame + rest, ending, receiverLimit);
      && |frame| == HEADER_SIZE + |codec.encode(m).value|
      && if |codec.encode(m).value| <= receiverLimit then r == Ok(m) && after == rest else r == Err(TooLarge)
  {
    hide HasType, Header, HeaderValue;
    var payload := codec.encode(m).value;
    var stream := Header(|payload|) + payload + rest;
    HeaderRoundTrip(|payload|);
    assert stream[..HEADER_SIZE] == Header(|payload|);
    assert stream[HEADER_SIZE..] == payload + rest;
    assert (payload + rest)[..|payload|] == payload && (payload + rest)[|payload|..] == rest;
  }

  /** The frames of a list of messages, one after the other. */
  function Frames(codec: Codec, ms: seq<Message>, limit: int): Bytes
    requires forall k :: 0 <= k < |ms| ==> EncodeMessage(codec, ms[k], limit).Ok?
  {
    if ms == [] then [] else EncodeMessage(codec, ms[0], limit).value + Frames(codec, ms[1..], limit)
  }

  /** `receive_message` called n times, as long as it succeeds: the messages and the rest. */
  function ReceiveMany(codec: Codec, stream: Bytes, ending: Ending, limit: int, n: nat)
    : (Result<seq<Message>, FrameError>, Bytes)
    decreases n
  {
    if n == 0 then (Ok([]), stream)
    else match Receive(codec, stream, ending, limit)
      case (Err(e), rest) => (Err(e), rest)
      case (Ok(m), rest) =>
        match ReceiveMany(codec, rest, ending, limit, n - 1)
        case (Err(e), after) => (Err(e), after)
        case (Ok(ms), after) => (Ok([m] + ms), after)
  }

  /** Any number of messages come back in order, and nothing after them is touched. */
  lemma {:induction false} AllMessagesInOrder(codec: Codec, ms: seq<Message>, limit: int, ending: Ending, rest: Bytes)
    requires forall k :: 0 <= k < |ms| ==> EncodeMessage(codec, ms[k], limit).Ok? && Faithful(codec, ms[k])
    ensures ReceiveMany(codec, Frames(codec, ms, limit) + rest, ending, limit, |ms|) == (Ok(ms), rest)
  {
    if ms == [] {
      assert [] + rest == rest;
    } else {
      var frame, frames := EncodeMessage(codec, ms[0], limit).value, Frames(codec, ms[1..], limit);
      assert frame + frames + rest == frame + (frames + rest);
      FitsLimit(codec, ms[0], limit);
      FrameRoundTrip(codec, ms[0], limit, limit, ending, frames + rest);
      hide EncodeMessage, Receive, Faithful;
      AllMessagesInOrder(codec, ms[1..], limit, ending, rest);
      assert [ms[0]] + ms[1..] == ms;
    }
  }

  lemma FitsLimit(codec: Codec, m: Message, limit: int)
    requires EncodeMessage(codec, m, limit).Ok?
    ensures limit > 0 && codec.encode(m).Some? && |codec.encode(m).value| <= limit
  {
  }

  /** n calls of `receive_message` in a row on one socket. */
  method ReceiveInTurn(socket: Socket, codec: Codec, limit: int, n: nat) returns (r: Result<seq<Message>, FrameError>)
    requires socket.Valid()
    modifies socket`chunks
    ensures socket.Valid()
    ensures (r, socket.Stream()) == ReceiveMany(codec, old(socket.Stream()), socket.ending, limit, n)
    decreases n
  {
    hide Receive, Flatten;
    if n == 0 { return Ok([]); }
    var first := socket.ReceiveMessage(codec, limit);
    if first.Err? { return Err(first.error); }
    var others := ReceiveInTurn(socket, codec, limit, n - 1);
    r := if others.Err? then others else Ok([first.value] + others.value);
  }

  /**
   * Fragmentation: however the frames of some messages are cut into chunks, a socket that
   * receives those chunks gives the same messages in the same order, and keeps what follows.
   */
  method ReceiveFragmented(
      chunks: seq<Bytes>, ending: Ending, codec: Codec, limit: int, n: nat, ghost ms: seq<Message>, ghost rest: Bytes)
    returns (socket: Socket, r: Result<seq<Message>, FrameError>)
    requires n == |ms| && forall k :: 0 <= k < |chunks| ==> chunks[k] != []
    requires forall k :: 0 <= k < |ms| ==> EncodeMessage(codec, ms[k], limit).Ok? && Faithful(codec, ms[k])
    requires Flatten(chunks) == Frames(codec, ms, limit) + rest
    ensures fresh(socket) && socket.Valid() && r == Ok(ms) && socket.Stream() == rest
  {
    hide ReceiveMany, EncodeMessage, Faithful;
    AllMessagesInOrder(codec, ms, limit, ending, rest);
    socket := new Socket(chunks, ending);
    r := ReceiveInTurn(socket, codec, limit, n);
  }

  /** The type is text that is not all spaces. */
  predicate NamesType(m: Message) { "type" in m && m["type"].Text? && !AllSpace(m["type"].text) }

  lemma TypesAreNamed(m: Message)
    ensures HasType(m) <==> NamesType(m)
  {
    hide Strip;
    if "type" in m && m["type"].Text? { StripKeeps(m["type"].text); }
  }

  /** Exactly the messages that name a type, can be encoded and are neither empty nor too large are sent. */
  lemma SentMessages(codec: Codec, m: Message, limit: Limit)
    ensures EncodeMessage(codec, m, limit).Ok? <==>
      && NamesType(m) && codec.encode(m).Some?
      && 0 < |codec.encode(m).value| <= limit && |codec.encode(m).value| < HEADER_LIMIT
  {
    hide HasType, NamesType, Header;
    TypesAreNamed(m);
  }

  /** Whatever is returned as a message came as one whole frame, within the limit. */
  lemma ReceivedIsAWholeFrame(codec: Codec, stream: Bytes, ending: Ending, limit: int)
    requires Receive(codec, stream, ending, limit).0.Ok?
    ensures exists payload: Bytes, rest: Bytes ::
      && 0 < |payload| <= limit && |payload| < HEADER_LIMIT
      && stream == Header(|payload|) + payload + rest
      && codec.decode(payload) == Some(Receive(codec, stream, ending, limit).0.value)
      && Receive(codec, stream, ending, limit).1 == rest
    ensures NamesType(Receive(codec, stream, ending, limit).0.value)
  {
    TypesAreNamed(Receive(codec, stream, ending, limit).0.value);
    hide HasType, NamesType, Header, HeaderValue;
    var header, tail := stream[..HEADER_SIZE], stream[HEADER_SIZE..];
    var size := HeaderValue(header);
    HeaderIsCanonical(header);
    var payload, rest := tail[..size], tail[size..];
    assert stream == Header(|payload|) + payload + rest;
  }

  /** A frame cut short anywhere is never returned as a message: it is the end of the stream. */
  lemma TruncatedFrameIsRefused(codec: Codec, m: Message, limit: int, ending: Ending, k: nat)
    requires EncodeMessage(codec, m, limit).Ok? && k < |EncodeMessage(codec, m, limit).value|
    ensures Receive(codec, EncodeMessage(codec, m, limit).value[..k], ending, limit) == (Err(Ended(ending)), [])
  {
    hide HasType, Header, HeaderValue;
    var payload := codec.encode(m).value;
    var frame := Header(|payload|) + payload;
    if k >= HEADER_SIZE {
      assert frame[..k][..HEADER_SIZE] == Header(|payload|);
      HeaderRoundTrip(|payload|);
    }
  }
}
