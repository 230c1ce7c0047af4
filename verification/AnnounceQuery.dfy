/**
 * The announce query, from the arguments a peer gives (peer/tracker_client.py) to the
 * typed parameters the tracker reads (tracker/tracker_server.py).
 */
module AnnounceQuery {
  import opened Wrappers
  import opened ByteStrings
  import opened Numerals
  import opened PercentEncoding
  import Utf8

  // ---- The client side ---------------------------------------------------------

  datatype ClientArgs = ClientArgs(
    infoHash: Bytes, uploaded: int, downloaded: int, left: int, event: Option<string>)

  datatype ClientError = BadInfoHash | NegativeCounter | BadEvent

  predicate KnownEvent(event: string) {
    event == "" || event == "started" || event == "completed" || event == "stopped"
  }

  /** A tracker client as its constructor leaves it. */
  datatype Client = Client(announceUrl: string, peerId: Bytes, port: int)

  predicate ValidClient(c: Client) { |c.peerId| == 20 && 1 <= c.port <= 65535 }

  /** `_validate_announce_arguments`. */
  function ArgsError(a: ClientArgs): Option<ClientError> {
    if |a.infoHash| != 20 then Some(BadInfoHash)
    else if a.uploaded < 0 || a.downloaded < 0 || a.left < 0 then Some(NegativeCounter)
    else if a.event.Some? && !KnownEvent(a.event.value) then Some(BadEvent)
    else None
  }

  /** ASCII bytes as text. */
  function TextOf(b: Bytes): (s: string)
    requires forall k :: 0 <= k < |b| ==> b[k] < 128
    ensures |s| == |b|
    ensures forall k :: 0 <= k < |s| ==> s[k] as int == b[k]
  {
    seq(|b|, k requires 0 <= k < |b| => b[k] as char)
  }

  /** `str(n)` for n >= 0, as text. */
  function Str(n: nat): string { TextOf(Digits(n)) }

  function Fields(c: Client, a: ClientArgs): seq<(string, string)>
    requires ValidClient(c) && ArgsError(a).None?
  {
    [("info_hash", Quote(a.infoHash)), ("peer_id", Quote(c.peerId)), ("port", Str(c.port)),
     ("uploaded", Str(a.uploaded)), ("downloaded", Str(a.downloaded)), ("left", Str(a.left))]
    + (if a.event.Some? && a.event.value != "" then [("event", a.event.value)] else [])
  }

  /** `"&".join(f"{name}={value}" for ...)`. */
  function JoinFields(fields: seq<(string, string)>): string {
    if fields == [] then ""
    else if |fields| == 1 then Component(fields[0])
    else Component(fields[0]) + "&" + JoinFields(fields[1..])
  }

  function Component(field: (string, string)): string { field.0 + "=" + field.1 }

  /** `build_announce_url(...)`. */
  function BuildAnnounceUrl(c: Client, a: ClientArgs): Result<string, ClientError>
    requires ValidClient(c)
  {
    if ArgsError(a).Some? then Err(ArgsError(a).value)
    else
      var separator := if '?' in c.announceUrl then "&" else "?";
      Ok(c.announceUrl + separator + JoinFields(Fields(c, a)))
  }

  // ---- Text splitting ----------------------------------------------------------

  /** The index of the first c, or the length if there is none. */
  function IndexOf(s: string, c: char): (i: nat)
    ensures i <= |s|
    ensures forall k :: 0 <= k < i ==> s[k] != c
    ensures i < |s| ==> s[i] == c
  {
    if s == "" || s[0] == c then 0 else 1 + IndexOf(s[1..], c)
  }

  /** `s.split(c)`. */
  function Split(s: string, c: char): (parts: seq<string>)
    decreases |s|
  {
    var i := IndexOf(s, c);
    if i == |s| then [s] else [s[..i]] + Split(s[i + 1..], c)
  }

  /** The query of a URL: `urlsplit(url).query`. */
  function QueryOf(url: string): string {
    var whole := url[..IndexOf(url, '#')];
    var i := IndexOf(whole, '?');
    if i == |whole| then "" else whole[i + 1..]
  }

  // ---- The server side ---------------------------------------------------------

  datatype RequestError =
    | MissingEquals | NameNotAscii | EmptyName | DuplicateParameter | UnknownParameter
    | Missing(name: string) | WrongLength(name: string) | NotDigits(name: string)
    | EventNotAscii | UnknownEvent

  type Parameters = map<string, Bytes>

  function PlusToSpace(s: string): (r: string)
    ensures |r| == |s|
    ensures forall k :: 0 <= k < |s| ==> r[k] == if s[k] == '+' then ' ' else s[k]
  {
    seq(|s|, k requires 0 <= k < |s| => if s[k] == '+' then ' ' else s[k])
  }

  /** `_decode_query_component`. */
  function DecodeComponent(s: string): Bytes { Unquote(Utf8.Encode(PlusToSpace(s))) }

  /** `bytes.decode("ascii")`. */
  function AsciiText(b: Bytes): Option<string> {
    if forall k :: 0 <= k < |b| ==> b[k] < 128 then Some(TextOf(b)) else None
  }

  /** One turn of the loop in `parse_announce_query`. */
  function AddComponent(parameters: Parameters, component: string): Result<Parameters, RequestError> {
    if component == "" then Ok(parameters)
    else
      var i := IndexOf(component, '=');
      if i == |component| then Err(MissingEquals)
      else
        var name := AsciiText(DecodeComponent(component[..i]));
        if name.None? then Err(NameNotAscii)
        else if name.value == "" then Err(EmptyName)
        else if name.value in parameters then Err(DuplicateParameter)
        else Ok(parameters[name.value := DecodeComponent(component[i + 1..])])
  }

  function AddComponents(components: seq<string>): Result<Parameters, RequestError> {
    if components == [] then Ok(map[])
    else match AddComponents(components[..|components| - 1])
      case Err(e) => Err(e)
      case Ok(parameters) => AddComponent(parameters, components[|components| - 1])
  }

  /** `parse_announce_query(raw_query)`. */
  function ParseAnnounceQuery(query: string): Result<Parameters, RequestError> {
    if query == "" then Ok(map[]) else AddComponents(Split(query, '&'))
  }

  /** The loop itself, which fills a dictionary. */
  method ReadAnnounceQuery(query: string) returns (r: Result<Parameters, RequestError>)
    ensures r == ParseAnnounceQuery(query)
  {
    hide DecodeComponent, Split;
    var parameters: Parameters := map[];
    if query == "" { return Ok(parameters); }
    var components := Split(query, '&');
    for n := 0 to |components|
      invariant AddComponents(components[..n]) == Ok(parameters)
    {
      assert components[..n + 1][..n] == components[..n];
      var component := components[n];
      if component == "" { continue; }
      var i := IndexOf(component, '=');
      if i == |component| {
        AddingStops(components, n + 1);
        return Err(MissingEquals);
      }
      var name := AsciiText(DecodeComponent(component[..i]));
      if name.None? {
        AddingStops(components, n + 1);
        return Err(NameNotAscii);
      }
      if name.value == "" {
        AddingStops(components, n + 1);
        return Err(EmptyName);
      }
      if name.value in parameters {
        AddingStops(components, n + 1);
        return Err(DuplicateParameter);
      }
      parameters := parameters[name.value := DecodeComponent(component[i + 1..])];
    }
    assert components[..|components|] == components;
    r := Ok(parameters);
  }

  lemma {:induction false} AddingStops(components: seq<string>, n: nat)
    requires n <= |components| && AddComponents(components[..n]).Err?
    ensures AddComponents(components) == AddComponents(components[..n])
  {
    hide AddComponent;
    if n == |components| {
      assert components[..n] == components;
    } else {
      assert components[..|components| - 1][..n] == components[..n];
      AddingStops(components[..|components| - 1], n);
    }
  }

  const ALLOWED: set<string> :=
    {"info_hash", "peer_id", "port", "uploaded", "downloaded", "left", "event"}

  function Require20(parameters: Parameters, name: string): Result<Bytes, RequestError> {
    if name !in parameters then Err(Missing(name))
    else if |parameters[name]| != 20 then Err(WrongLength(name))
    else Ok(parameters[name])
  }

  /** `_require_non_negative_integer`: any number of leading zeros is accepted. */
  function RequireNatural(parameters: Parameters, name: string): Result<int, RequestError> {
    if name !in parameters then Err(Missing(name))
    else
      var raw := parameters[name];
      if raw == [] || !AllDigits(raw) then Err(NotDigits(name)) else Ok(DigitsValue(raw))
  }

  function RequireEvent(parameters: Parameters): Result<string, RequestError> {
    var raw := if "event" in parameters then parameters["event"] else [];
    if AsciiText(raw).None? then Err(EventNotAscii)
    else if !KnownEvent(AsciiText(raw).value) then Err(UnknownEvent)
    else Ok(AsciiText(raw).value)
  }

  datatype ServerArgs = ServerArgs(
    infoHash: Bytes, peerId: Bytes, port: int, uploaded: int, downloaded: int, left: int, event: string)

  /** The typed parameters, checked in the order of `parse_announce_parameters`. */
  function TypedParameters(parameters: Parameters): Result<ServerArgs, RequestError> {
    if !(parameters.Keys <= ALLOWED) then Err(UnknownParameter)
    else match Require20(parameters, "info_hash")
      case Err(e) => Err(e)
      case Ok(infoHash) =>
    match Require20(parameters, "peer_id")
      case Err(e) => Err(e)
      case Ok(peerId) =>
    match RequireNatural(parameters, "port")
      case Err(e) => Err(e)
      case Ok(port) =>
    match RequireNatural(parameters, "uploaded")
      case Err(e) => Err(e)
      case Ok(uploaded) =>
    match RequireNatural(parameters, "downloaded")
      case Err(e) => Err(e)
      case Ok(downloaded) =>
    match RequireNatural(parameters, "left")
      case Err(e) => Err(e)
      case Ok(left) =>
    match RequireEvent(parameters)
      case Err(e) => Err(e)
      case Ok(event) => Ok(ServerArgs(infoHash, peerId, port, uploaded, downloaded, left, event))
  }

  /** `parse_announce_parameters(raw_query)`. */
  function ParseAnnounceParameters(query: string): Result<ServerArgs, RequestError> {
    match ParseAnnounceQuery(query)
    case Err(e) => Err(e)
    case Ok(parameters) => TypedParameters(parameters)
  }

  /** Whatever the query, parameters that are accepted have 20-byte ids, natural numbers and a known event. */
  lemma ParsedParametersAreValid(query: string)
    ensures var r := ParseAnnounceParameters(query);
      r.Ok? ==>
        && |r.value.infoHash| == 20 && |r.value.peerId| == 20 && KnownEvent(r.value.event)
        && r.value.port >= 0 && r.value.uploaded >= 0 && r.value.downloaded >= 0 && r.value.left >= 0
  {
    hide DigitsValue, AsciiText, KnownEvent, ParseAnnounceQuery;
    match ParseAnnounceQuery(query)
    case Err(_) =>
    case Ok(parameters) =>
      NaturalIsNatural(parameters, "port");
      NaturalIsNatural(parameters, "uploaded");
      NaturalIsNatural(parameters, "downloaded");
      NaturalIsNatural(parameters, "left");
  }

  const REQUIRED: set<string> := {"info_hash", "peer_id", "port", "uploaded", "downloaded", "left"}

  const NUMBERS: set<string> := {"port", "uploaded", "downloaded", "left"}

  /**
   * A query is accepted exactly when it reads as parameters that include the six required
   * ones and nothing but a known `event` besides, with two ids of 20 bytes and four numbers
   * of decimal digits; the values are then those of the parameters.
   */
  lemma AcceptedQueries(query: string)
    ensures ParseAnnounceQuery(query).Err? ==> ParseAnnounceParameters(query) == Err(ParseAnnounceQuery(query).error)
    ensures ParseAnnounceQuery(query).Ok? ==>
      var p, r := ParseAnnounceQuery(query).value, ParseAnnounceParameters(query);
      && (r.Ok? <==>
            && REQUIRED <= p.Keys <= REQUIRED + {"event"}
            && |p["info_hash"]| == 20 && |p["peer_id"]| == 20
            && (forall name :: name in NUMBERS ==> p[name] != [] && AllDigits(p[name]))
            && ("event" in p ==> AsciiText(p["event"]).Some? && KnownEvent(AsciiText(p["event"]).value)))
      && (r.Ok? ==>
            && r.value.infoHash == p["info_hash"] && r.value.peerId == p["peer_id"]
            && r.value.port == DigitsValue(p["port"]) && r.value.uploaded == DigitsValue(p["uploaded"])
            && r.value.downloaded == DigitsValue(p["downloaded"]) && r.value.left == DigitsValue(p["left"])
            && (if "event" in p then AsciiText(p["event"]) == Some(r.value.event) else r.value.event == ""))
  {
    hide DigitsValue, AsciiText, KnownEvent, ParseAnnounceQuery, AllDigits;
    NoEvent();
    if ParseAnnounceQuery(query).Ok? {
      var p := ParseAnnounceQuery(query).value;
      assert p.Keys <= ALLOWED <==> p.Keys <= REQUIRED + {"event"};
    }
  }

  lemma NoEvent()
    ensures AsciiText([]) == Some("") && KnownEvent("")
  {
    assert TextOf([]) == "";
  }

  lemma NaturalIsNatural(parameters: Parameters, name: string)
    ensures RequireNatural(parameters, name).Ok? ==> RequireNatural(parameters, name).value >= 0
  {
    if name in parameters && AllDigits(parameters[name]) { DigitsAreNatural(parameters[name]); }
  }

  lemma {:induction false} DigitsAreNatural(s: Bytes)
    requires AllDigits(s)
    ensures DigitsValue(s) >= 0
  {
    if s != [] { DigitsAreNatural(s[..|s| - 1]); }
  }

  // ---- Splitting undoes joining ------------------------------------------------

  lemma IndexUnique(s: string, c: char, i: nat)
    requires i <= |s| && (forall k :: 0 <= k < i ==> s[k] != c) && (i < |s| ==> s[i] == c)
    ensures IndexOf(s, c) == i
  {
  }

  predicate AllComponentsWithout(fields: seq<(string, string)>, c: char) {
    forall k :: 0 <= k < |fields| ==> c !in Component(fields[k])
  }

  function Components(fields: seq<(string, string)>): (cs: seq<string>)
    ensures |cs| == |fields|
    ensures forall k :: 0 <= k < |cs| ==> cs[k] == Component(fields[k])
  {
    seq(|fields|, k requires 0 <= k < |fields| => Component(fields[k]))
  }

  lemma {:induction false} SplitJoin(fields: seq<(string, string)>)
    requires fields != [] && AllComponentsWithout(fields, '&')
    ensures Split(JoinFields(fields), '&') == Components(fields)
  {
    hide Component;
    var first := Component(fields[0]);
    if |fields| == 1 {
      IndexUnique(first, '&', |first|);
    } else {
      SplitFirst(first, JoinFields(fields[1..]));
      hide Split;
      SplitJoin(fields[1..]);
      assert Components(fields) == [first] + Components(fields[1..]);
    }
  }

  lemma SplitFirst(first: string, rest: string)
    requires '&' !in first
    ensures Split(first + "&" + rest, '&') == [first] + Split(rest, '&')
  {
    var whole := first + "&" + rest;
    assert whole[|first|] == '&';
    assert forall k :: 0 <= k < |first| ==> whole[k] == first[k];
    IndexUnique(whole, '&', |first|);
    assert whole[..|first|] == first && whole[|first| + 1..] == rest;
  }

  lemma {:induction false} JoinKeeps(fields: seq<(string, string)>, c: char)
    requires AllComponentsWithout(fields, c) && c != '&'
    ensures c !in JoinFields(fields)
  {
    hide Component;
    if |fields| > 1 { JoinKeeps(fields[1..], c); }
  }

  /** The query of a URL whose base has none. */
  lemma QueryOfBuilt(base: string, query: string)
    requires '#' !in base && '#' !in query && '?' !in base
    ensures QueryOf(base) == "" && QueryOf(base + "?" + query) == query
  {
    var url := base + "?" + query;
    NoFragment(base);
    NoFragment(url);
    assert forall k :: 0 <= k < |base| ==> url[k] == base[k];
    IndexUnique(url, '?', |base|);
    IndexUnique(base, '?', |base|);
    assert url[|base| + 1..] == query;
  }

  /** The query of a URL that continues the query of its base. */
  lemma QueryContinues(base: string, query: string)
    requires '#' !in base && '#' !in query && '?' in base
    ensures QueryOf(base + "&" + query) == QueryOf(base) + "&" + query
  {
    var i := IndexOf(base, '?');
    var url := base + "&" + query;
    NoFragment(base);
    NoFragment(url);
    hide IndexOf;
    assert i < |base|;
    assert forall k :: 0 <= k < |base| ==> url[k] == base[k];
    IndexUnique(url, '?', i);
    assert base == base[..i + 1] + base[i + 1..];
    assert url == base[..i + 1] + (base[i + 1..] + "&" + query);
  }

  lemma NoFragment(url: string)
    requires '#' !in url
    ensures url[..IndexOf(url, '#')] == url
  {
    IndexUnique(url, '#', |url|);
    assert url[..|url|] == url;
  }

  /** Whatever follows a `#` is no part of the query. */
  lemma FragmentSwallows(base: string, rest: string)
    requires '#' in base
    ensures QueryOf(base + rest) == QueryOf(base)
  {
    var i := IndexOf(base, '#');
    var url := base + rest;
    assert i < |base|;
    assert forall k :: 0 <= k <= i ==> url[k] == base[k];
    IndexUnique(url, '#', i);
    assert url[..i] == base[..i];
  }

  /** Splitting a query that continues another splits both. */
  lemma {:induction false} SplitContinues(own: string, query: string)
    ensures Split(own + "&" + query, '&') == Split(own, '&') + Split(query, '&')
    decreases |own|
  {
    hide Split;
    var i := IndexOf(own, '&');
    if i == |own| {
      SplitNothing(own);
      SplitFirst(own, query);
    } else {
      var first, rest := own[..i], own[i + 1..];
      SplitContinues(rest, query);
      hide IndexOf;
      assert own == first + "&" + rest;
      SplitFirst(first, rest);
      SplitFirst(first, rest + "&" + query);
      assert own + "&" + query == first + "&" + (rest + "&" + query);
      Regroup([first], Split(rest, '&'), Split(query, '&'));
    }
  }

  lemma SplitNothing(s: string)
    requires '&' !in s
    ensures Split(s, '&') == [s]
  {
    IndexUnique(s, '&', |s|);
  }

  lemma Regroup(a: seq<string>, b: seq<string>, c: seq<string>)
    ensures a + (b + c) == (a + b) + c
  {
  }

  // ---- Decoding undoes encoding ------------------------------------------------

  lemma QuotedHasNoPlus(s: string)
    requires IsQuoted(s)
    ensures PlusToSpace(s) == s
  {
  }

  lemma DecodeQuoted(bytes: Bytes)
    ensures DecodeComponent(Quote(bytes)) == bytes
  {
    QuoteIsQuoted(bytes);
    QuotedHasNoPlus(Quote(bytes));
    UnquoteQuote(bytes);
  }

  /** A plus sign in a query stands for a space; unreserved characters stand for themselves. */
  lemma PlusStandsForSpace(s: string)
    requires forall k :: 0 <= k < |s| ==> IsUnreserved(s[k]) || s[k] == '+'
    ensures |DecodeComponent(s)| == |s|
    ensures forall k :: 0 <= k < |s| ==> DecodeComponent(s)[k] == if s[k] == '+' then 32 else s[k] as int
  {
    var text := PlusToSpace(s);
    forall k | 0 <= k < |s| ensures text[k] as int < 128 && text[k] != '%' {
      PlainCharacters(s[k]);
    }
    hide IsUnreserved;
    Utf8.AsciiEncode(text);
    UnquotePlain(Utf8.Encode(text));
  }

  lemma PlainCharacters(c: char)
    ensures IsUnreserved(c) ==> c as int < 128 && c != '%'
    ensures ' ' as int == 32
  {
  }

  /** Unreserved text decodes to its own character codes. */
  predicate IsPlainText(s: string) { forall k :: 0 <= k < |s| ==> IsUnreserved(s[k]) }

  function Codes(s: string): (b: Bytes)
    requires Utf8.IsAscii(s)
    ensures |b| == |s|
    ensures forall k :: 0 <= k < |b| ==> b[k] == s[k] as int
  {
    seq(|s|, k requires 0 <= k < |s| => s[k] as int)
  }

  lemma DecodePlain(s: string)
    requires IsPlainText(s)
    ensures Utf8.IsAscii(s) && DecodeComponent(s) == Codes(s)
    ensures AsciiText(Codes(s)) == Some(s)
  {
    QuotedHasNoPlus(s);
    Utf8.AsciiEncode(s);
    assert Utf8.Encode(s) == Codes(s);
    assert PERCENT !in Codes(s);
    UnquotePlain(Codes(s));
    assert TextOf(Codes(s)) == s;
  }

  lemma DecodeNumber(n: nat)
    ensures IsPlainText(Str(n)) && DecodeComponent(Str(n)) == Digits(n)
    ensures Digits(n) != [] && AllDigits(Digits(n)) && DigitsValue(Digits(n)) == n
  {
    assert forall k :: 0 <= k < |Str(n)| ==> IsDigit(Digits(n)[k]);
    DecodePlain(Str(n));
    assert Codes(Str(n)) == Digits(n);
    ValueOfDigits(n);
  }

  // ---- The dictionary the server builds ----------------------------------------

  predicate GoodField(field: (string, string)) {
    field.0 != "" && IsPlainText(field.0) && IsQuoted(field.1)
  }

  predicate DistinctNames(fields: seq<(string, string)>) {
    forall i, j :: 0 <= i < j < |fields| ==> fields[i].0 != fields[j].0
  }

  function Dictionary(fields: seq<(string, string)>): Parameters {
    if fields == [] then map[]
    else Dictionary(fields[..|fields| - 1])[fields[|fields| - 1].0 := DecodeComponent(fields[|fields| - 1].1)]
  }

  lemma {:induction false} DictionaryKeys(fields: seq<(string, string)>)
    requires DistinctNames(fields)
    ensures forall name :: name in Dictionary(fields) <==> exists k :: 0 <= k < |fields| && fields[k].0 == name
    ensures forall k :: 0 <= k < |fields| ==> Dictionary(fields)[fields[k].0] == DecodeComponent(fields[k].1)
  {
    hide DecodeComponent;
    if fields != [] {
      var n := |fields| - 1;
      DictionaryKeys(fields[..n]);
      assert forall k :: 0 <= k < n ==> fields[..n][k] == fields[k];
      forall name ensures name in Dictionary(fields) <==> exists k :: 0 <= k < |fields| && fields[k].0 == name {
        if name in Dictionary(fields[..n]) {
          var k :| 0 <= k < n && fields[..n][k].0 == name;
          assert fields[k].0 == name;
        }
      }
    }
  }

  lemma ComponentParts(field: (string, string))
    requires GoodField(field)
    ensures Component(field) != "" && IndexOf(Component(field), '=') == |field.0| < |Component(field)|
    ensures Component(field)[..|field.0|] == field.0 && Component(field)[|field.0| + 1..] == field.1
  {
    var c := Component(field);
    assert c[|field.0|] == '=' && forall k :: 0 <= k < |field.0| ==> c[k] == field.0[k];
    IndexUnique(c, '=', |field.0|);
  }

  lemma LastNameIsNew(fields: seq<(string, string)>)
    requires fields != [] && DistinctNames(fields)
    ensures DistinctNames(fields[..|fields| - 1])
    ensures fields[|fields| - 1].0 !in Dictionary(fields[..|fields| - 1])
  {
    hide Dictionary;
    DictionaryKeys(fields[..|fields| - 1]);
  }

  lemma GoodName(field: (string, string))
    requires GoodField(field)
    ensures AsciiText(DecodeComponent(field.0)) == Some(field.0) && field.0 != ""
  {
    DecodePlain(field.0);
  }

  // ---- The round trip ----------------------------------------------------------

  lemma KnownEventIsPlain(event: string)
    requires KnownEvent(event)
    ensures IsPlainText(event)
  {
  }

  lemma FieldNamesDiffer(c: Client, a: ClientArgs)
    requires ValidClient(c) && ArgsError(a).None?
    ensures DistinctNames(Fields(c, a))
  {
    hide Quote, Str;
  }

  lemma FieldValuesQuoted(c: Client, a: ClientArgs)
    requires ValidClient(c) && ArgsError(a).None?
    ensures forall k :: 0 <= k < |Fields(c, a)| ==> IsQuoted(Fields(c, a)[k].1)
  {
    hide Quote, Str, IsQuoted, DecodeComponent, Digits, DigitsValue, IsPlainText;
    QuoteIsQuoted(a.infoHash);
    QuoteIsQuoted(c.peerId);
    DecodeNumber(c.port);
    DecodeNumber(a.uploaded);
    DecodeNumber(a.downloaded);
    DecodeNumber(a.left);
    if a.event.Some? && a.event.value != "" {
      KnownEventIsPlain(a.event.value);
      PlainIsQuoted(a.event.value);
    }
    PlainIsQuoted(Str(c.port));
    PlainIsQuoted(Str(a.uploaded));
    PlainIsQuoted(Str(a.downloaded));
    PlainIsQuoted(Str(a.left));
  }

  lemma PlainIsQuoted(s: string)
    requires IsPlainText(s)
    ensures IsQuoted(s)
  {
  }

  lemma FieldNamesPlain(c: Client, a: ClientArgs)
    requires ValidClient(c) && ArgsError(a).None?
    ensures forall k :: 0 <= k < |Fields(c, a)| ==> Fields(c, a)[k].0 != "" && IsPlainText(Fields(c, a)[k].0)
  {
    hide Quote, Str, IsPlainText;
    NamesPlain();
  }

  lemma NamesPlain()
    ensures IsPlainText("info_hash") && IsPlainText("peer_id") && IsPlainText("port")
    ensures IsPlainText("uploaded") && IsPlainText("downloaded") && IsPlainText("left") && IsPlainText("event")
  {
  }

  lemma FieldsAreGood(c: Client, a: ClientArgs)
    requires ValidClient(c) && ArgsError(a).None?
    ensures DistinctNames(Fields(c, a))
    ensures forall k :: 0 <= k < |Fields(c, a)| ==> GoodField(Fields(c, a)[k])
  {
    FieldNamesDiffer(c, a);
    FieldValuesQuoted(c, a);
    FieldNamesPlain(c, a);
    hide Fields, IsPlainText, IsQuoted;
  }

  lemma GoodFieldAvoids(field: (string, string), c: char)
    requires GoodField(field) && !IsUnreserved(c) && c != '%' && c != '='
    ensures c !in Component(field)
  {
  }

  lemma DictionaryIsTyped(c: Client, a: ClientArgs)
    requires ValidClient(c) && ArgsError(a).None?
    ensures TypedParameters(Dictionary(Fields(c, a))) == Ok(ServerArgs(
      a.infoHash, c.peerId, c.port, a.uploaded, a.downloaded, a.left,
      if a.event.None? then "" else a.event.value))
  {
    hide Quote, Str, DecodeComponent, Digits, DigitsValue, IsPlainText, Dictionary, GoodField;
    var fields := Fields(c, a);
    FieldsAreGood(c, a);
    DictionaryKeys(fields);
    DecodeQuoted(a.infoHash);
    DecodeQuoted(c.peerId);
    DecodeNumber(c.port);
    DecodeNumber(a.uploaded);
    DecodeNumber(a.downloaded);
    DecodeNumber(a.left);
    var d := Dictionary(fields);
    assert d["info_hash"] == a.infoHash by { assert fields[0].0 == "info_hash"; }
    assert d["peer_id"] == c.peerId by { assert fields[1].0 == "peer_id"; }
    assert d["port"] == Digits(c.port) by { assert fields[2].0 == "port"; }
    assert d["uploaded"] == Digits(a.uploaded) by { assert fields[3].0 == "uploaded"; }
    assert d["downloaded"] == Digits(a.downloaded) by { assert fields[4].0 == "downloaded"; }
    assert d["left"] == Digits(a.left) by { assert fields[5].0 == "left"; }
    assert d.Keys <= ALLOWED;
    if a.event.Some? && a.event.value != "" {
      KnownEventIsPlain(a.event.value);
      DecodePlain(a.event.value);
      assert d["event"] == Codes(a.event.value) by { assert fields[6].0 == "event"; }
    } else {
      assert "event" !in d;
      assert TextOf([]) == "";
    }
  }

  // ---- What the base URL brings of its own --------------------------------------

  predicate NoneOf(own: Parameters, fields: seq<(string, string)>) {
    forall k :: 0 <= k < |fields| ==> fields[k].0 !in own
  }

  /** Fields read after other components: each adds its value, unless one of them was there before. */
  lemma {:induction false} FieldsAfter(components: seq<string>, own: Parameters, fields: seq<(string, string)>)
    requires AddComponents(components) == Ok(own)
    requires DistinctNames(fields) && forall k :: 0 <= k < |fields| ==> GoodField(fields[k])
    ensures AddComponents(components + Components(fields)).Ok? <==> NoneOf(own, fields)
    ensures NoneOf(own, fields) ==> AddComponents(components + Components(fields)) == Ok(own + Dictionary(fields))
  {
    hide DecodeComponent, Component, GoodField, AddComponent, DistinctNames;
    var whole := components + Components(fields);
    if fields == [] {
      assert whole == components && own + map[] == own;
    } else {
      var n := |fields| - 1;
      var front, last := fields[..n], fields[n];
      assert forall k :: 0 <= k < n ==> front[k] == fields[k];
      assert Components(fields)[..n] == Components(front);
      assert whole[..|whole| - 1] == components + Components(front) && whole[|whole| - 1] == Component(last);
      LastNameIsNew(fields);
      FieldsAfter(components, own, front);
      NoneOfMore(own, fields);
      if NoneOf(own, front) {
        hide NoneOf;
        OneFieldAfter(own + Dictionary(front), last);
        AddOne(own, Dictionary(front), last.0, DecodeComponent(last.1));
      }
    }
  }

  /** Fields alone: the server's dictionary is the client's fields, decoded. */
  lemma ServerReadsFields(fields: seq<(string, string)>)
    requires DistinctNames(fields) && forall k :: 0 <= k < |fields| ==> GoodField(fields[k])
    ensures AddComponents(Components(fields)) == Ok(Dictionary(fields))
  {
    hide GoodField, DistinctNames, Dictionary, AddComponents, Component;
    EmptyQuery();
    FieldsAfter([], map[], fields);
    assert [] + Components(fields) == Components(fields);
    assert map[] + Dictionary(fields) == Dictionary(fields);
  }

  lemma AddOne(own: Parameters, given: Parameters, name: string, value: Bytes)
    ensures (own + given)[name := value] == own + given[name := value]
  {
  }

  lemma NoneOfMore(own: Parameters, fields: seq<(string, string)>)
    requires fields != []
    ensures NoneOf(own, fields) <==> NoneOf(own, fields[..|fields| - 1]) && fields[|fields| - 1].0 !in own
  {
    var front := fields[..|fields| - 1];
    assert fields == front + [fields[|fields| - 1]];
  }

  lemma OneFieldAfter(parameters: Parameters, field: (string, string))
    requires GoodField(field)
    ensures AddComponent(parameters, Component(field)).Ok? <==> field.0 !in parameters
    ensures field.0 !in parameters ==>
      AddComponent(parameters, Component(field)) == Ok(parameters[field.0 := DecodeComponent(field.1)])
  {
    hide DecodeComponent, Component, GoodField, IndexOf, AsciiText;
    ComponentParts(field);
    GoodName(field);
  }

  function EventGiven(event: Option<string>): string { if event.None? then "" else event.value }

  /**
   * The event that reaches the tracker, if the announce can be read at all. A base URL may
   * bring parameters of its own, but none can stand beside the client's except one known
   * `event`, and that only when the client sends none: it is then the one that arrives.
   */
  function Arriving(url: string, event: Option<string>): Option<string> {
    match ParseAnnounceQuery(QueryOf(url))
    case Err(_) => None
    case Ok(own) =>
      if own == map[] then Some(EventGiven(event))
      else if own.Keys != {"event"} || EventGiven(event) != "" then None
      else match AsciiText(own["event"])
        case None => None
        case Some(text) => if KnownEvent(text) then Some(text) else None
  }

  function Intended(c: Client, a: ClientArgs, event: string): ServerArgs {
    ServerArgs(a.infoHash, c.peerId, c.port, a.uploaded, a.downloaded, a.left, event)
  }

  /** Typing the client's parameters together with some that the base URL brings. */
  lemma OwnAndGiven(c: Client, a: ClientArgs, url: string, own: Parameters)
    requires ValidClient(c) && ArgsError(a).None? && ParseAnnounceQuery(QueryOf(url)) == Ok(own)
    requires NoneOf(own, Fields(c, a))
    ensures match Arriving(url, a.event)
      case Some(event) => TypedParameters(own + Dictionary(Fields(c, a))) == Ok(Intended(c, a, event))
      case None => TypedParameters(own + Dictionary(Fields(c, a))).Err?
  {
    var given := Dictionary(Fields(c, a));
    DictionaryIsTyped(c, a);
    GivenKeys(c, a);
    hide Fields, Dictionary, AsciiText, KnownEvent, ParseAnnounceQuery, QueryOf, TypedParameters, NoneOf, ArgsError;
    if own == map[] {
      assert own + given == given;
    } else if own.Keys == {"event"} {
      assert "event" !in given;
      AddedToOne(own, given, "event");
      EventReplaced(given, own["event"]);
    } else {
      ForeignName(own, given);
    }
  }

  lemma AddedToOne(own: Parameters, given: Parameters, name: string)
    requires own.Keys == {name} && name !in given
    ensures own + given == given[name := own[name]]
  {
  }

  /** The names the client sends. */
  lemma GivenKeys(c: Client, a: ClientArgs)
    requires ValidClient(c) && ArgsError(a).None?
    ensures Dictionary(Fields(c, a)).Keys
      == if EventGiven(a.event) == "" then ALLOWED - {"event"} else ALLOWED
    ensures forall own: Parameters ::
      NoneOf(own, Fields(c, a)) ==> own.Keys !! Dictionary(Fields(c, a)).Keys
  {
    hide Quote, Str, DecodeComponent, Dictionary;
    var fields := Fields(c, a);
    FieldNamesDiffer(c, a);
    DictionaryKeys(fields);
    var given := Dictionary(fields);
    assert fields[0].0 in given && fields[1].0 in given && fields[2].0 in given;
    assert fields[3].0 in given && fields[4].0 in given && fields[5].0 in given;
    assert |fields| == 7 ==> fields[6].0 in given;
  }

  lemma EventReplaced(given: Parameters, raw: Bytes)
    requires TypedParameters(given).Ok?
    ensures var r := TypedParameters(given["event" := raw]);
      match AsciiText(raw)
      case None => r.Err?
      case Some(text) =>
        if KnownEvent(text) then r == Ok(TypedParameters(given).value.(event := text)) else r.Err?
  {
    hide AsciiText, KnownEvent, DigitsValue;
  }

  lemma ForeignName(own: Parameters, given: Parameters)
    requires ALLOWED - {"event"} <= given.Keys && own.Keys !! given.Keys && own != map[] && own.Keys != {"event"}
    ensures TypedParameters(own + given) == Err(UnknownParameter)
  {
    var name :| name in own.Keys && name != "event";
    assert name !in ALLOWED;
    assert name in own + given;
  }

  /**
   * What the tracker reads of a printed announce, for every base URL. Without a fragment, it
   * reads the client's values and the event that `Arriving` says, or refuses the request;
   * with one, it reads nothing of what the client was given.
   */
  lemma QueryRoundTrip(c: Client, a: ClientArgs)
    requires ValidClient(c) && ArgsError(a).None?
    ensures BuildAnnounceUrl(c, a).Ok?
    ensures var read := ParseAnnounceParameters(QueryOf(BuildAnnounceUrl(c, a).value));
      if '#' in c.announceUrl then read == ParseAnnounceParameters(QueryOf(c.announceUrl))
      else match Arriving(c.announceUrl, a.event)
        case Some(event) => read == Ok(Intended(c, a, event))
        case None => read.Err?
  {
    hide Fields, JoinFields, TypedParameters, ParseAnnounceQuery, QueryOf, Arriving;
    if '#' in c.announceUrl {
      FragmentSwallows(c.announceUrl, (if '?' in c.announceUrl then "&" else "?") + JoinFields(Fields(c, a)));
      assert c.announceUrl + ((if '?' in c.announceUrl then "&" else "?") + JoinFields(Fields(c, a)))
        == BuildAnnounceUrl(c, a).value;
    } else {
      FieldsAreGood(c, a);
      ParsedTogether(c, a);
      match ParseAnnounceQuery(QueryOf(c.announceUrl))
      case Err(_) => NothingArrives(c.announceUrl, a.event);
      case Ok(own) =>
        if NoneOf(own, Fields(c, a)) {
          OwnAndGiven(c, a, c.announceUrl, own);
        } else {
          RepeatedName(c, a, own);
        }
    }
  }

  lemma NothingArrives(url: string, event: Option<string>)
    requires ParseAnnounceQuery(QueryOf(url)).Err?
    ensures Arriving(url, event).None?
  {
  }

  lemma RepeatedName(c: Client, a: ClientArgs, own: Parameters)
    requires ValidClient(c) && ArgsError(a).None? && ParseAnnounceQuery(QueryOf(c.announceUrl)) == Ok(own)
    requires !NoneOf(own, Fields(c, a))
    ensures Arriving(c.announceUrl, a.event).None?
  {
    hide Quote, Str, ParseAnnounceQuery, QueryOf, AsciiText, KnownEvent;
  }

  /** The query the tracker sees is read as the base URL's own part and then the client's. */
  lemma ParsedTogether(c: Client, a: ClientArgs)
    requires ValidClient(c) && ArgsError(a).None? && '#' !in c.announceUrl
    ensures var own := ParseAnnounceQuery(QueryOf(c.announceUrl));
      var whole := ParseAnnounceQuery(QueryOf(BuildAnnounceUrl(c, a).value));
      && (whole.Ok? <==> own.Ok? && NoneOf(own.value, Fields(c, a)))
      && (whole.Ok? ==> whole.value == own.value + Dictionary(Fields(c, a)))
  {
    var fields := Fields(c, a);
    FieldsAreGood(c, a);
    hide Fields, Component, GoodField, Split, AddComponents, QueryOf, Dictionary, JoinFields, NoneOf;
    forall k | 0 <= k < |fields| ensures '&' !in Component(fields[k]) && '#' !in Component(fields[k]) {
      GoodFieldAvoids(fields[k], '&');
      GoodFieldAvoids(fields[k], '#');
    }
    NotEmpty(c, a);
    SplitJoin(fields);
    JoinKeeps(fields, '#');
    EmptyQuery();
    if '?' in c.announceUrl {
      QueryContinues(c.announceUrl, JoinFields(fields));
      SplitContinues(QueryOf(c.announceUrl), JoinFields(fields));
      ComponentsAfter(Split(QueryOf(c.announceUrl), '&'), fields);
    } else {
      QueryOfBuilt(c.announceUrl, JoinFields(fields));
      ComponentsAfter([], fields);
      assert [] + Components(fields) == Components(fields);
    }
  }

  lemma ComponentsAfter(components: seq<string>, fields: seq<(string, string)>)
    requires DistinctNames(fields) && forall k :: 0 <= k < |fields| ==> GoodField(fields[k])
    ensures var own, whole := AddComponents(components), AddComponents(components + Components(fields));
      && (whole.Ok? <==> own.Ok? && NoneOf(own.value, fields))
      && (whole.Ok? ==> whole.value == own.value + Dictionary(fields))
  {
    hide AddComponents, Dictionary, NoneOf, GoodField;
    if AddComponents(components).Ok? {
      FieldsAfter(components, AddComponents(components).value, fields);
    } else {
      var longer := components + Components(fields);
      assert longer[..|components|] == components;
      AddingStops(longer, |components|);
    }
  }

  lemma EmptyQuery()
    ensures AddComponents([]) == Ok(map[]) && AddComponents(Split("", '&')) == Ok(map[])
  {
    assert Split("", '&') == [""];
    assert [""][..0] == [];
  }

  lemma NotEmpty(c: Client, a: ClientArgs)
    requires ValidClient(c) && ArgsError(a).None?
    ensures Fields(c, a) != [] && JoinFields(Fields(c, a)) != ""
  {
    hide Quote, Str;
  }

  /** A base URL without a query or fragment carries every event. */
  lemma PlainUrlCarries(url: string, event: Option<string>)
    requires '?' !in url && '#' !in url
    ensures Arriving(url, event) == Some(EventGiven(event))
  {
    hide AddComponents, AsciiText, QueryOf;
    QueryOfBuilt(url, "");
  }

  /** A base URL that names an event replaces the missing event of every periodic announce. */
  lemma BaseUrlNamesEvent(url: string, event: string)
    requires '?' !in url && '#' !in url && KnownEvent(event) && event != ""
    ensures Arriving(url + "?event=" + event, None) == Some(event)
    ensures forall given: Option<string> ::
      EventGiven(given) != "" ==> Arriving(url + "?event=" + event, given) == None
  {
    hide AsciiText, QueryOf, KnownEvent, DecodeComponent, ParseAnnounceQuery;
    OwnEvent(url, event);
    EventField(event);
    var own: Parameters := map["event" := DecodeComponent(event)];
    assert own != map[] && own.Keys == {"event"} by { assert "event" in own; }
  }

  lemma OwnEvent(url: string, event: string)
    requires '?' !in url && '#' !in url && KnownEvent(event)
    ensures ParseAnnounceQuery(QueryOf(url + "?event=" + event)) == Ok(map["event" := DecodeComponent(event)])
  {
    hide AddComponents, AsciiText, QueryOf, Split, KnownEvent, DecodeComponent, GoodField, IsUnreserved;
    var field := ("event", event);
    EventField(event);
    assert !IsUnreserved('&') && !IsUnreserved('#') by { Separators(); }
    GoodFieldAvoids(field, '&');
    GoodFieldAvoids(field, '#');
    assert Component(field) == "event=" + event;
    assert url + "?event=" + event == url + "?" + Component(field);
    QueryOfBuilt(url, Component(field));
    SplitJoin([field]);
    ServerReadsFields([field]);
    OneEntry(field);
  }

  lemma OneEntry(field: (string, string))
    ensures Dictionary([field]) == map[field.0 := DecodeComponent(field.1)]
  {
    hide DecodeComponent;
    assert [field][..0] == [];
  }

  lemma Separators()
    ensures !IsUnreserved('&') && !IsUnreserved('#')
  {
  }

  lemma EventField(event: string)
    requires KnownEvent(event)
    ensures GoodField(("event", event)) && AsciiText(DecodeComponent(event)) == Some(event)
  {
    KnownEventIsPlain(event);
    PlainIsQuoted(event);
    NamesPlain();
    DecodePlain(event);
  }
}
