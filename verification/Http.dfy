/** Executing one command over HTTP: the pipeline from the command line to a bounded
    JSON body. */
module Http {
  import opened Prelude
  import Text
  import Resp
  import RespRoundTrip
  import RespAccounting
  import RequestProofs
  import Utf8
  import Json
  import JsonProofs
  import JsonReader
  import Command
  import CommandProofs
  import Policy

  const MAX_RESPONSE_BODY_BYTES: nat := 64 * 1024
  const MAX_JSON_VALUE_BYTES: nat := MAX_RESPONSE_BODY_BYTES - 1024

  datatype Status =
    | Success200
    | BadRequest400
    | Forbidden403
    | Conflict409
    | PayloadTooLarge413
    | Unprocessable422
    | TooManyRequests429
    | BadGateway502

  datatype ApiResponse = Data(value: Json.JsonValue) | Failure(text: bytes)

  datatype Response = Response(status: Status, body: bytes)

  const DATA_PREFIX: bytes := Ascii("{\"success\":true,") + Ascii("\"data\":")
  const ERROR_PREFIX: bytes := Ascii("{\"success\":false,") + Ascii("\"error\":")
  const CLOSING: bytes := Ascii("}")
  const TOO_LARGE_BODY: bytes := Ascii("{\"success\":false,\"error\":\"response exceeds the playground output limit\"}")

  /** The compact JSON text of a response. */
  function BodyText(response: ApiResponse): bytes {
    match response
    case Data(value) => DATA_PREFIX + Json.Text(value) + CLOSING
    case Failure(text) => ERROR_PREFIX + Json.Quoted(text) + CLOSING
  }

  // ------------------------------------------------------------------ the bounded writer

  function Concat(pieces: seq<bytes>): bytes {
    if pieces == [] then [] else pieces[0] + Concat(pieces[1..])
  }

  /** A buffer that refuses any piece that would take it over its limit. */
  class LimitedJsonBuffer {
    var data: bytes
    const limit: nat

    constructor (limit: nat)
      ensures this.limit == limit && data == []
    {
      this.limit := limit;
      data := [];
    }

    method Write(piece: bytes) returns (ok: bool)
      modifies this
      ensures ok <==> SaturatingAdd(|old(data)|, |piece|) <= limit
      ensures data == if ok then old(data) + piece else old(data)
    {
      if SaturatingAdd(|data|, |piece|) > limit { return false; }
      data := data + piece;
      return true;
    }
  }

  /** Writing a text out piece by piece succeeds exactly when all of it fits, however the
      serializer cuts it up. */
  method Serialize(pieces: seq<bytes>, limit: nat) returns (r: Option<bytes>)
    requires limit < USIZE_MAX
    ensures r == if |Concat(pieces)| <= limit then Some(Concat(pieces)) else None
  {
    var writer := new LimitedJsonBuffer(limit);
    var i := 0;
    assert pieces[0..] == pieces && [] + Concat(pieces) == Concat(pieces);
    while i < |pieces|
      invariant 0 <= i <= |pieces|
      invariant writer.limit == limit
      invariant writer.data + Concat(pieces[i..]) == Concat(pieces)
      invariant |writer.data| <= limit
    {
      assert pieces[i..][1..] == pieces[i + 1..];
      Assoc(writer.data, pieces[i], Concat(pieces[i + 1..]));
      var ok := writer.Write(pieces[i]);
      if !ok { return None; }
      i := i + 1;
    }
    assert pieces[i..] == [] && writer.data + [] == writer.data;
    return Some(writer.data);
  }

  /** `api_response`: a body that does not fit is replaced, and its status with it. */
  function ApiRespond(status: Status, response: ApiResponse): (r: Response)
    ensures |r.body| <= MAX_RESPONSE_BODY_BYTES
  {
    if |BodyText(response)| <= MAX_RESPONSE_BODY_BYTES then Response(status, BodyText(response))
    else Response(PayloadTooLarge413, TOO_LARGE_BODY)
  }

  // ------------------------------------------------------------------------ the pipeline

  predicate Contains(text: bytes, phrase: bytes) {
    |phrase| <= |text| && (text[..|phrase|] == phrase || (text != [] && Contains(text[1..], phrase)))
  }

  const OVER_BUDGET: bytes := Ascii("JSON conversion exceeds")

  function ConversionError(e: Json.JsonError): bytes {
    match e
    case OverBudget => OVER_BUDGET + Ascii(" the playground output budget of 64512 bytes")
    case ReplyError(text) => text
    case NotUtf8 => Ascii("RESP verbatim string was not valid UTF-8")
    case TooLarge => Ascii("binary response is too large") + Ascii(" to encode as base64")
  }

  function ParseError(e: Command.CommandError): bytes {
    match e
    case TooLong => Ascii("command is too long (maximum 16384 bytes)")
    case IncompleteEscape => Ascii("command ends with an incomplete escape")
    case UnterminatedQuote => Ascii("command contains an unterminated quote")
    case Empty => Ascii("command must not be empty")
    case TooManyArguments => Ascii("command has too many arguments (maximum 256)")
  }

  /** One exchange with the backend: a reply, or why there is none. */
  type Backend = seq<bytes> -> Result<Resp.RespValue, bytes>

  /** What came back, and what was sent to the backend if anything was. */
  datatype Exchange = Exchange(response: Response, sent: Option<seq<bytes>>)

  predicate IsSelect(name: bytes) {
    Text.Upper(name) == Ascii("SELECT")
  }

  function Answer(reply: Result<Resp.RespValue, bytes>, floats: Json.FloatText): (r: Response)
    ensures |r.body| <= MAX_RESPONSE_BODY_BYTES
  {
    match reply
    case Err(e) => ApiRespond(BadGateway502, Failure(Ascii("Ferrite command failed: ") + e))
    case Ok(value) =>
      match Json.ToJson(value, MAX_JSON_VALUE_BYTES, floats)
      case Ok(json) => ApiRespond(Success200, Data(json))
      case Err(e) =>
        var text := ConversionError(e);
        ApiRespond(if Contains(text, OVER_BUDGET) then PayloadTooLarge413 else Unprocessable422, Failure(text))
  }

  const SELECT_TEXT: bytes :=
    Ascii("SELECT is not available through stateless HTTP requests; ")
    + Ascii("use one persistent public RESP connection to retain database selection")
  const BUSY_TEXT: bytes := Ascii("Ferrite playground backend is busy; retry after an in-flight operation completes")

  function Refuse(status: Status, text: bytes): (r: Exchange)
    ensures |r.response.body| <= MAX_RESPONSE_BODY_BYTES && r.sent == None
  {
    Exchange(ApiRespond(status, Failure(text)), None)
  }

  /** `execute`. Every body fits, whatever was asked and answered. */
  function Execute(command: string, allowlist: Policy.Allowlist, permit: bool, backend: Backend,
                   floats: Json.FloatText): (r: Exchange)
    ensures |r.response.body| <= MAX_RESPONSE_BODY_BYTES
  {
    match Command.Parse(command)
    case Err(e) => Refuse(BadRequest400, ParseError(e))
    case Ok(words) => ExecuteWords(CommandProofs.Argv(words), allowlist, permit, backend, floats)
  }

  function ExecuteWords(argv: seq<bytes>, allowlist: Policy.Allowlist, permit: bool, backend: Backend,
                        floats: Json.FloatText): (r: Exchange)
    ensures |r.response.body| <= MAX_RESPONSE_BODY_BYTES
  {
    if argv != [] && IsSelect(argv[0]) then Refuse(Conflict409, SELECT_TEXT)
    else
      match Policy.ClassifyText(allowlist, argv)
      case Rejected(name, reason) => Refuse(Forbidden403, Policy.Rejected(name, reason).Message())
      case Allow =>
        if !permit then Refuse(TooManyRequests429, BUSY_TEXT)
        else Exchange(Answer(backend(argv), floats), Some(argv))
  }

  // -------------------------------------------------------------------------- guarantees

  /** A converted reply's success is never replaced by an error: its text, charged within
      the smaller limit, always leaves room for the envelope. */
  lemma SuccessIsKept(value: Resp.RespValue, floats: Json.FloatText)
    requires JsonProofs.Everywhere(value, JsonProofs.Fitting(floats))
    ensures var json := Json.ToJson(value, MAX_JSON_VALUE_BYTES, floats);
            json.Ok? ==> Answer(Ok(value), floats) == Response(Success200, DATA_PREFIX + Json.Text(json.value) + CLOSING)
  {
    hide Json.ToJson, Json.Text, Ascii;
    JsonProofs.TextFitsTheLimit(value, MAX_JSON_VALUE_BYTES, floats);
  }

  /** For a reply without doubles the answer is a success exactly when it converts. */
  lemma SucceedsExactly(value: Resp.RespValue, floats: Json.FloatText)
    requires JsonProofs.Everywhere(value, JsonProofs.NotDouble)
    ensures Answer(Ok(value), floats).status == Success200
            <==> JsonProofs.Convertible(value) && JsonProofs.Cost(value, floats) <= MAX_JSON_VALUE_BYTES
  {
    hide Json.ToJson, Json.Convert, BodyText, JsonProofs.Everywhere, Contains, ConversionError;
    JsonProofs.DoubleFree(value, floats);
    SuccessIsKept(value, floats);
    Settled(value, floats);
  }

  /** Whatever the reply: a success exactly when it converts within its limit and the text
      of what it stands for leaves 24 bytes of the body for the envelope. */
  lemma SucceedsExactlyForAll(value: Resp.RespValue, floats: Json.FloatText)
    ensures Answer(Ok(value), floats).status == Success200
            <==> && JsonProofs.Convertible(value) && JsonProofs.Cost(value, floats) <= MAX_JSON_VALUE_BYTES
                 && |Json.Text(JsonProofs.Value(value, floats))| <= MAX_RESPONSE_BODY_BYTES - 24
    ensures JsonProofs.Convertible(value) && JsonProofs.Cost(value, floats) <= MAX_JSON_VALUE_BYTES
            && Answer(Ok(value), floats).status != Success200
            ==> Answer(Ok(value), floats) == Response(PayloadTooLarge413, TOO_LARGE_BODY)
  {
    hide Json.ToJson, Json.Text, JsonProofs.Cost, JsonProofs.Convertible, JsonProofs.Value, Contains,
         ConversionError, Ascii;
    Settled(value, floats);
    ConvertsTo(value, floats);
    EnvelopeLength();
  }

  lemma EnvelopeLength()
    ensures |DATA_PREFIX| + |CLOSING| == 24
  {
  }

  /** For replies without maps that is a bound on the charge and the doubles' surplus. */
  lemma SucceedsExactlyWithDoubles(value: Resp.RespValue, floats: Json.FloatText)
    requires JsonProofs.Everywhere(value, JsonProofs.NotMap)
    ensures Answer(Ok(value), floats).status == Success200
            <==> && JsonProofs.Convertible(value) && JsonProofs.Cost(value, floats) <= MAX_JSON_VALUE_BYTES
                 && JsonProofs.Cost(value, floats) + JsonProofs.Surplus(value, floats) <= MAX_RESPONSE_BODY_BYTES - 24
  {
    hide Answer, Json.Text, JsonProofs.Cost, JsonProofs.Convertible, JsonProofs.Value, JsonProofs.Surplus,
         JsonProofs.Everywhere;
    SucceedsExactlyForAll(value, floats);
    if JsonProofs.Convertible(value) { JsonProofs.TextIsCostAndSurplus(value, floats); }
  }

  // ------------------------------------------------------------- doubles that print longer

  const SHORT: bytes := Ascii("1e15")
  const LONG: bytes := Ascii("1000000000000000.0")

  function Doubles(n: nat): seq<Resp.RespValue> {
    if n == 0 then [] else [Resp.Double(SHORT)] + Doubles(n - 1)
  }

  lemma {:induction false} DoublesMeasure(n: nat, index: nat, floats: Json.FloatText)
    requires floats(SHORT) == Some(LONG)
    ensures |Doubles(n)| == n
    ensures JsonProofs.EverywhereAll(Doubles(n), JsonProofs.NotMap)
    ensures JsonProofs.EverywhereAll(Doubles(n), JsonProofs.ConvertibleHere)
    ensures JsonProofs.CostItems(Doubles(n), index, floats) == 5 * n - if index == 0 && n > 0 then 1 else 0
    ensures JsonProofs.SurplusAll(Doubles(n), floats) == 14 * n
  {
    if n > 0 {
      DoublesMeasure(n - 1, index + 1, floats);
      var vs := Doubles(n);
      assert vs[1..] == Doubles(n - 1);
      OneDouble(floats);
    }
  }

  lemma OneDouble(floats: Json.FloatText)
    requires floats(SHORT) == Some(LONG)
    ensures var d := Resp.Double(SHORT);
            && JsonProofs.Cost(d, floats) == 4 && JsonProofs.Surplus(d, floats) == 14
            && JsonProofs.Everywhere(d, JsonProofs.NotMap) && JsonProofs.Everywhere(d, JsonProofs.ConvertibleHere)
  {
    assert Resp.Kids(Resp.Double(SHORT)) == [];
    assert |SHORT| == 4 && |LONG| == 18;
  }

  lemma {:induction false} DoublesAreDecodable(n: nat)
    ensures |Doubles(n)| == n
    ensures RespRoundTrip.DecodableAll(Doubles(n)) && Resp.NodesAll(Doubles(n)) == n
    ensures Resp.DepthAll(Doubles(n)) == 0 && |Resp.EncodeAll(Doubles(n))| == 7 * n
  {
    if n > 0 {
      DoublesAreDecodable(n - 1);
      var vs := Doubles(n);
      assert vs[1..] == Doubles(n - 1);
      DecodableDouble();
      RespRoundTrip.SequenceBytes(vs, []);
    }
  }

  lemma DecodableDouble()
    ensures var d := Resp.Double(SHORT);
            RespRoundTrip.Decodable(d) && Resp.Nodes(d) == 1 && Resp.Depth(d) == 0 && |Resp.Encode(d)| == 7
  {
    hide Utf8.ValidUtf8;
    var d := Resp.Double(SHORT);
    assert Resp.Kids(d) == [];
    Utf8.AsciiIsValid(SHORT);
    RespRoundTrip.EncodeParts(d, []);
    RespAccounting.FlatIsDecodable(d);
  }

  /** A reply the backend can send and the converter accepts whose success is replaced: an
      array of 4096 doubles `1e15`, charged 20481 bytes and printed in 77825. */
  lemma ManyDoublesAreReplaced(floats: Json.FloatText)
    requires floats(SHORT) == Some(LONG)
    ensures var reply := Resp.Array(Doubles(4096));
            && RespAccounting.Deliverable(reply)
            && JsonProofs.Cost(reply, floats) == 20481
            && Json.ToJson(reply, MAX_JSON_VALUE_BYTES, floats).Ok?
            && |Json.Text(JsonProofs.Value(reply, floats))| == 77825
            && Answer(Ok(reply), floats) == Response(PayloadTooLarge413, TOO_LARGE_BODY)
  {
    hide Doubles, Answer, Json.ToJson, Json.Text, JsonProofs.Value, JsonProofs.CostItems, JsonProofs.SurplusAll,
         JsonProofs.EverywhereAll, Resp.EncodeAll, Resp.DepthAll, Resp.NodesAll, RespRoundTrip.DecodableAll;
    var reply := Resp.Array(Doubles(4096));
    DoublesMeasure(4096, 0, floats);
    ManyDoublesArrive();
    SucceedsExactlyWithDoubles(reply, floats);
    SucceedsExactlyForAll(reply, floats);
    JsonProofs.TextIsCostAndSurplus(reply, floats);
    Settled(reply, floats);
  }

  lemma ManyDoublesArrive()
    ensures RespAccounting.Deliverable(Resp.Array(Doubles(4096)))
  {
    hide Doubles, Resp.EncodeAll, Resp.DepthAll, Resp.NodesAll, RespRoundTrip.DecodableAll, Resp.Encode;
    var reply := Resp.Array(Doubles(4096));
    DoublesAreDecodable(4096);
    RespRoundTrip.AggregateParts(reply);
    RespAccounting.AggregateIsDecodable(reply, 0);
    RequestProofs.PrintLength(4096);
  }

  // ----------------------------------------------------------- keys that are charged twice

  function Letters(n: nat): (r: bytes)
    ensures |r| == n && forall b :: b in r ==> b == 107
  {
    seq(n, _ => 107)
  }

  /** One entry whose key is 40000 letters long. */
  function LongKey(): Resp.RespValue {
    Resp.Map([(Resp.Simple(Letters(40000)), Resp.Null)])
  }

  lemma LongKeyMeasures(floats: Json.FloatText)
    ensures JsonProofs.Convertible(LongKey())
    ensures JsonProofs.Cost(LongKey(), floats) == 80011
    ensures JsonProofs.Excess(LongKey(), floats) == 40002
  {
    hide Letters, JsonProofs.Convertible, JsonProofs.Cost, JsonProofs.Excess, Json.Quoted;
    var name := Letters(40000);
    JsonProofs.PlainLength(name);
    OneKeyCosts(name, floats);
    OneKeyExceeds(name, floats);
    OneKeyConverts(name);
  }

  lemma OneKeyCosts(name: bytes, floats: Json.FloatText)
    ensures JsonProofs.Cost(Resp.Map([(Resp.Simple(name), Resp.Null)]), floats) == 2 * |Json.Quoted(name)| + 7
  {
    hide Json.Quoted;
    var entry := (Resp.Simple(name), Resp.Null);
    var entries := [entry];
    assert entries[1..] == [];
    assert JsonProofs.CostEntry(entry, floats) == 2 * |Json.Quoted(name)| + 5;
    assert JsonProofs.CostEntries(entries, 0, floats) == JsonProofs.CostEntry(entry, floats);
  }

  lemma OneKeyExceeds(name: bytes, floats: Json.FloatText)
    ensures JsonProofs.Excess(Resp.Map([(Resp.Simple(name), Resp.Null)]), floats) == |Json.Quoted(name)|
  {
    hide Json.Quoted, Json.Insert;
    var entry := (Resp.Simple(name), Resp.Null);
    var entries := [entry];
    assert entries[1..] == [];
    assert JsonProofs.ExcessEntry(entry, floats) == |Json.Quoted(name)|;
    assert JsonProofs.Dropped([], name) == 0;
    assert JsonProofs.ExcessEntries(entries, [], floats) == JsonProofs.ExcessEntry(entry, floats);
  }

  lemma OneKeyConverts(name: bytes)
    ensures JsonProofs.Convertible(Resp.Map([(Resp.Simple(name), Resp.Null)]))
  {
    var entries := [(Resp.Simple(name), Resp.Null)];
    JsonProofs.EverywhereEntries(entries, JsonProofs.ConvertibleHere);
    assert entries[1..] == [];
    assert Resp.Flatten(entries[1..]) == [];
  }

  /** A reply the backend can send, whose text of 40009 bytes would fit the body, and which is
      refused because its one key is charged twice. */
  lemma LongKeyIsRefused(floats: Json.FloatText)
    ensures RespAccounting.Deliverable(LongKey())
    ensures |Json.Text(JsonProofs.Value(LongKey(), floats))| == 40009
    ensures Json.ToJson(LongKey(), MAX_JSON_VALUE_BYTES, floats).Err?
    ensures Answer(Ok(LongKey()), floats).status != Success200
  {
    hide LongKey, Json.ToJson, Json.Text, JsonProofs.Value, JsonProofs.Cost, JsonProofs.Excess,
         JsonProofs.Convertible, Answer, RespAccounting.Deliverable;
    LongKeyMeasures(floats);
    LongKeyArrives();
    JsonProofs.TextAndExcessAreCost(LongKey(), floats);
    JsonProofs.RefusedThoughItFitsExactly(LongKey(), MAX_JSON_VALUE_BYTES, floats);
    SucceedsExactlyForAll(LongKey(), floats);
  }

  lemma LongKeyArrives()
    ensures RespAccounting.Deliverable(LongKey())
  {
    hide Letters, Utf8.ValidUtf8, Resp.Encode;
    var name := Letters(40000);
    var key, reply := Resp.Simple(name), LongKey();
    assert LF !in name;
    Utf8.AsciiIsValid(name);
    KeyAndNull(key);
    RespAccounting.FlatIsDecodable(key);
    RespAccounting.FlatIsDecodable(Resp.Null);
    RespRoundTrip.EncodeParts(key, []);
    RespRoundTrip.EncodeParts(Resp.Null, []);
    var kids := Resp.Kids(reply);
    assert kids == [key] + [Resp.Null];
    assert kids[1..] == [Resp.Null] && kids[1..][1..] == [];
    RespRoundTrip.SequenceBytes(kids, []);
    RespRoundTrip.SequenceBytes(kids[1..], []);
    RespRoundTrip.AggregateParts(reply);
    RespAccounting.AggregateIsDecodable(reply, 0);
  }

  lemma KeyAndNull(key: Resp.RespValue)
    requires key.Simple?
    ensures Resp.EncodeAll([]) == [] && Resp.Kids(key) == [] && Resp.Kids(Resp.Null) == []
  {
  }

  lemma Settled(value: Resp.RespValue, floats: Json.FloatText)
    ensures Json.ToJson(value, MAX_JSON_VALUE_BYTES, floats).Ok?
            <==> JsonProofs.Convertible(value) && JsonProofs.Cost(value, floats) <= MAX_JSON_VALUE_BYTES
  {
    hide Json.Convert, JsonProofs.Cost, JsonProofs.Convertible, JsonProofs.Value;
    JsonProofs.ConvertSettles(value, 0, MAX_JSON_VALUE_BYTES, floats);
  }

  /** What the RESP port would let through, SELECT apart. */
  predicate Admitted(argv: seq<bytes>, allowlist: Policy.Allowlist, permit: bool) {
    argv != [] && !IsSelect(argv[0]) && Policy.ClassifyBytes(allowlist, argv).Allow? && permit
  }

  /** The backend sees a command exactly when it parsed, is not SELECT, got a permit and is
      one the RESP port would have allowed; and then it sees the arguments typed. */
  lemma SentExactly(command: string, allowlist: Policy.Allowlist, permit: bool, backend: Backend, floats: Json.FloatText)
    ensures Execute(command, allowlist, permit, backend, floats).sent
         == match Command.Parse(command)
            case Err(_) => None
            case Ok(words) =>
              var argv := CommandProofs.Argv(words);
              if Admitted(argv, allowlist, permit) then Some(argv) else None
  {
    hide ApiRespond, Command.Parse, Policy.ClassifyText, Policy.ClassifyBytes, Answer, IsSelect, ParseError, Ascii,
         CommandProofs.Argv, Refuse;
    if Command.Parse(command).Ok? {
      CommandProofs.TypedCommandIsTheCommandSent(allowlist, command, []);
    }
  }

  /** The response as a JSON object. */
  function Envelope(response: ApiResponse): Json.JsonValue {
    match response
    case Data(value) => Json.JObject([(Ascii("success"), Json.JBool(true)), (Ascii("data"), value)])
    case Failure(text) => Json.JObject([(Ascii("success"), Json.JBool(false)), (Ascii("error"), Json.JString(text))])
  }

  lemma PlainQuoted(name: string)
    requires forall i :: 0 <= i < |name| ==> 'a' <= name[i] <= 'z'
    ensures Json.Quoted(Ascii(name)) == [Json.QUOTE] + Ascii(name) + [Json.QUOTE]
  {
    PlainEscapes(Ascii(name));
  }

  lemma {:induction false} PlainEscapes(s: bytes)
    requires forall i :: 0 <= i < |s| ==> 97 <= s[i] <= 122
    ensures Json.EscapeAll(s) == s
  {
    if s != [] {
      PlainEscapes(s[1..]);
      assert Json.Escape(s[0]) == [s[0]];
      assert [s[0]] + s[1..] == s;
    }
  }

  lemma TwoMembers(a: (bytes, Json.JsonValue), b: (bytes, Json.JsonValue))
    ensures Json.Text(Json.JObject([a, b]))
         == ['{' as int] + Json.Member(a) + [',' as int] + Json.Member(b) + ['}' as int]
  {
    hide Json.Member;
    var both, last := [a, b], [b];
    assert both[1..] == last;
    assert Json.Members(last) == Json.Member(b);
    assert Json.Members(both) == Json.Member(a) + [',' as int] + Json.Members(last);
  }

  /** The body written is the compact text of the response's object. */
  lemma BodyIsJson(response: ApiResponse)
    ensures BodyText(response) == Json.Text(Envelope(response))
  {
    match response
    case Data(value) => DataIsJson(value);
    case Failure(text) => FailureIsJson(text);
  }

  lemma DataIsJson(value: Json.JsonValue)
    ensures BodyText(Data(value)) == Json.Text(Envelope(Data(value)))
  {
    hide Json.EscapeAll, Json.Members, Json.Quoted, Ascii;
    PlainQuoted("success");
    PlainQuoted("data");
    SuccessTrue();
    Keys();
    var a, b := (Ascii("success"), Json.JBool(true)), (Ascii("data"), value);
    TwoMembers(a, b);
    Assoc(['{' as int] + Json.Member(a) + [',' as int], Ascii("\"data\":"), Json.Text(value));
  }

  lemma FailureIsJson(text: bytes)
    ensures BodyText(Failure(text)) == Json.Text(Envelope(Failure(text)))
  {
    hide Json.EscapeAll, Json.Members, Json.Quoted, Ascii;
    PlainQuoted("success");
    PlainQuoted("error");
    SuccessFalse();
    Keys();
    var a, b := (Ascii("success"), Json.JBool(false)), (Ascii("error"), Json.JString(text));
    TwoMembers(a, b);
    Assoc(['{' as int] + Json.Member(a) + [',' as int], Ascii("\"error\":"), Json.Quoted(text));
  }

  lemma Keys()
    ensures Ascii("\"data\":") == [Json.QUOTE] + Ascii("data") + [Json.QUOTE] + [':' as int]
    ensures Ascii("\"error\":") == [Json.QUOTE] + Ascii("error") + [Json.QUOTE] + [':' as int]
  {
  }

  lemma SuccessTrue()
    ensures Ascii("{\"success\":true,")
         == ['{' as int] + ([Json.QUOTE] + Ascii("success") + [Json.QUOTE] + [':' as int] + Ascii("true")) + [',' as int]
  {
  }

  lemma SuccessFalse()
    ensures Ascii("{\"success\":false,")
         == ['{' as int] + ([Json.QUOTE] + Ascii("success") + [Json.QUOTE] + [':' as int] + Ascii("false")) + [',' as int]
  {
  }

  /** A client that reads a successful body finds exactly the value of the reply. */
  lemma BodyReadsBack(value: Resp.RespValue, floats: Json.FloatText)
    requires JsonProofs.Everywhere(value, JsonProofs.NotDouble)
    requires Answer(Ok(value), floats).status == Success200
    ensures JsonReader.ReadValue(Answer(Ok(value), floats).body)
         == Some(JsonReader.Read(Envelope(Data(JsonProofs.Value(value, floats))), []))
  {
    hide Json.Convert, Json.ToJson, JsonProofs.Everywhere, BodyText, JsonReader.ReadValue, Json.Text, ConversionError,
         Contains,
         JsonProofs.Value, JsonProofs.Cost;
    SucceedsExactly(value, floats);
    ConvertsTo(value, floats);
    var json := JsonProofs.Value(value, floats);
    var response := Data(json);
    KeptBody(value, floats);
    BodyIsJson(response);
    JsonReader.ValueHasNoFloat(value, floats);
    EnvelopeHasNoFloat(json);
    JsonReader.TextReadsBack(Envelope(response), []);
    assert Json.Text(Envelope(response)) + [] == Json.Text(Envelope(response));
  }

  lemma KeptBody(value: Resp.RespValue, floats: Json.FloatText)
    requires Answer(Ok(value), floats).status == Success200
    ensures var json := Json.ToJson(value, MAX_JSON_VALUE_BYTES, floats);
            json.Ok? && Answer(Ok(value), floats).body == BodyText(Data(json.value))
  {
    hide Json.ToJson, BodyText, ConversionError, Contains;
  }

  lemma ConvertsTo(value: Resp.RespValue, floats: Json.FloatText)
    ensures var json := Json.ToJson(value, MAX_JSON_VALUE_BYTES, floats);
            json.Ok? ==> json.value == JsonProofs.Value(value, floats)
  {
    hide Json.Convert, JsonProofs.Cost, JsonProofs.Convertible, JsonProofs.Value;
    JsonProofs.ConvertSettles(value, 0, MAX_JSON_VALUE_BYTES, floats);
  }

  lemma EnvelopeHasNoFloat(json: Json.JsonValue)
    requires JsonReader.NoFloat(json)
    ensures JsonReader.NoFloat(Envelope(Data(json)))
  {
    var a, b := (Ascii("success"), Json.JBool(true)), (Ascii("data"), json);
    var members := [a, b];
    assert members[1..] == [b];
    var last := [b];
    assert last[1..] == [];
    assert JsonReader.NoFloatMember(a) && JsonReader.NoFloatMember(b);
    assert JsonReader.NoFloatMembers(last);
  }

  lemma {:induction false} EscapesAtMostSixfold(s: bytes)
    ensures |Json.EscapeAll(s)| <= 6 * |s|
  {
    if s != [] { EscapesAtMostSixfold(s[1..]); }
  }

  /** An error text of up to 10,900 bytes keeps its status, whatever it holds; a longer one
      keeps it exactly when its escaped form fits. */
  lemma StatusIsKept(status: Status, text: bytes)
    ensures |text| <= 10_900 ==> ApiRespond(status, Failure(text)).status == status
    ensures status != PayloadTooLarge413 ==>
              (ApiRespond(status, Failure(text)).status == status <==> |Json.Quoted(text)| <= MAX_RESPONSE_BODY_BYTES - 26)
  {
    hide Json.EscapeAll;
    EscapesAtMostSixfold(text);
    assert |ERROR_PREFIX| == 25 && |CLOSING| == 1;
  }

  lemma {:induction false} FirstByteAbsent(text: bytes, phrase: bytes)
    requires phrase != [] && phrase[0] !in text
    ensures !Contains(text, phrase)
  {
    if |phrase| <= |text| {
      assert text[..|phrase|][0] == text[0] && text[0] in text;
      assert forall b :: b in text[1..] ==> b in text;
      FirstByteAbsent(text[1..], phrase);
    }
  }

  /** A conversion over budget is answered 413; so is an error reply that quotes the
      phrase the status is chosen by, and nothing else. */
  lemma TooLargeExactly(e: Json.JsonError)
    ensures Contains(ConversionError(e), OVER_BUDGET)
            <==> e.OverBudget? || (e.ReplyError? && Contains(e.text, OVER_BUDGET))
  {
    hide Contains, Ascii;
    match e
    case OverBudget => OpensWithPhrase(OVER_BUDGET, Ascii(" the playground output budget of 64512 bytes"));
    case ReplyError(_) =>
    case NotUtf8 => VerbatimTextIsOther();
    case TooLarge => BinaryTextIsOther();
  }

  lemma VerbatimTextIsOther()
    ensures !Contains(Ascii("RESP verbatim string was not valid UTF-8"), OVER_BUDGET)
  {
    hide Contains, Ascii;
    NoCapitalJ("RESP verbatim string was not valid UTF-8");
  }

  lemma BinaryTextIsOther()
    ensures !Contains(ConversionError(Json.TooLarge), OVER_BUDGET)
  {
    hide Contains, Ascii;
    NoCapitalJ("binary response is too large");
    NoCapitalJ(" to encode as base64");
    assert OVER_BUDGET[0] == 74;
    FirstByteAbsent(ConversionError(Json.TooLarge), OVER_BUDGET);
  }

  lemma OpensWithPhrase(phrase: bytes, rest: bytes)
    ensures Contains(phrase + rest, phrase)
  {
  }

  lemma NoCapitalJ(text: string)
    requires forall i :: 0 <= i < |text| ==> text[i] != 'J'
    ensures 74 !in Ascii(text) && !Contains(Ascii(text), OVER_BUDGET)
  {
    hide Contains;
    assert OVER_BUDGET[0] == 74;
    FirstByteAbsent(Ascii(text), OVER_BUDGET);
  }
}
