/** Converting a reply to JSON: the value built, its compact text, and the bytes
    charged before anything is allocated. */
module Json {
  import opened Prelude
  import opened Decimal
  import opened Utf8
  import opened Resp
  import Base64

  /** A JSON value; objects keep their keys in order, as serde_json's default map does. */
  datatype JsonValue =
    | JNull
    | JBool(b: bool)
    | JInt(n: int)
    | JFloat(printed: bytes)
    | JString(text: bytes)
    | JArray(items: seq<JsonValue>)
    | JObject(members: seq<(bytes, JsonValue)>)

  /** How a double's wire text is printed again, or None when it does not denote a
      finite number. Floating-point parsing and printing stay a parameter. */
  type FloatText = bytes -> Option<bytes>

  datatype JsonError = OverBudget | ReplyError(text: bytes) | NotUtf8 | TooLarge

  // ----------------------------------------------------------------------- JSON text

  const QUOTE: byte := '"' as int
  const BACKSLASH: byte := '\\' as int

  function HexDigit(n: int): byte
    requires 0 <= n < 16
  {
    if n < 10 then 48 + n else 87 + n
  }

  /** One character of a string (section 7 of RFC 8259). */
  function Escape(b: byte): (r: bytes)
    ensures |r| == if b in [QUOTE, BACKSLASH, 8, 9, 10, 12, 13] then 2 else if b < 0x20 then 6 else 1
  {
    if b == QUOTE || b == BACKSLASH then [BACKSLASH, b]
    else if b == 8 then [BACKSLASH, 'b' as int]
    else if b == 9 then [BACKSLASH, 't' as int]
    else if b == 10 then [BACKSLASH, 'n' as int]
    else if b == 12 then [BACKSLASH, 'f' as int]
    else if b == 13 then [BACKSLASH, 'r' as int]
    else if b < 0x20 then [BACKSLASH, 'u' as int, '0' as int, '0' as int, HexDigit(b / 16), HexDigit(b % 16)]
    else [b]
  }

  function EscapeAll(s: bytes): bytes {
    if s == [] then [] else Escape(s[0]) + EscapeAll(s[1..])
  }

  function Quoted(s: bytes): bytes {
    [QUOTE] + EscapeAll(s) + [QUOTE]
  }

  /** The compact text of a value. */
  function Text(v: JsonValue): bytes
    decreases v, 1
  {
    match v
    case JNull => Ascii("null")
    case JBool(b) => if b then Ascii("true") else Ascii("false")
    case JInt(n) => PrintInt(n)
    case JFloat(printed) => printed
    case JString(text) => Quoted(text)
    case JArray(items) => ['[' as int] + Items(items) + [']' as int]
    case JObject(members) => ['{' as int] + Members(members) + ['}' as int]
  }

  function Items(items: seq<JsonValue>): bytes
    decreases items, 0
  {
    if items == [] then []
    else if |items| == 1 then Text(items[0])
    else Text(items[0]) + [',' as int] + Items(items[1..])
  }

  function Member(m: (bytes, JsonValue)): bytes
    decreases m, 1
  {
    Quoted(m.0) + [':' as int] + Text(m.1)
  }

  function Members(members: seq<(bytes, JsonValue)>): bytes
    decreases members, 2
  {
    if members == [] then []
    else if |members| == 1 then Member(members[0])
    else Member(members[0]) + [',' as int] + Members(members[1..])
  }

  // ---------------------------------------------------------------------- reading strings

  function Unescaped(b: byte): Option<byte> {
    if b == QUOTE || b == BACKSLASH || b == '/' as int then Some(b)
    else if b == 'b' as int then Some(8)
    else if b == 't' as int then Some(9)
    else if b == 'n' as int then Some(10)
    else if b == 'f' as int then Some(12)
    else if b == 'r' as int then Some(13)
    else None
  }

  function HexValue(b: byte): Option<int> {
    if 48 <= b <= 57 then Some(b - 48)
    else if 65 <= b <= 70 then Some(b - 55)
    else if 97 <= b <= 102 then Some(b - 87)
    else None
  }

  /** The rest of a string after its opening quote, as a reader of RFC 8259 takes it, and
      what follows the closing quote. Four-digit escapes are read for the ASCII range. */
  function ReadChars(input: bytes): Option<(bytes, bytes)> {
    if input == [] then None
    else if input[0] == QUOTE then Some(([], input[1..]))
    else if input[0] < 0x20 then None
    else if input[0] != BACKSLASH then Before(input[0], ReadChars(input[1..]))
    else if |input| < 2 then None
    else if input[1] != 'u' as int then
      match Unescaped(input[1])
      case None => None
      case Some(b) => Before(b, ReadChars(input[2..]))
    else if |input| < 6 || input[2] != '0' as int || input[3] != '0' as int then None
    else
      match (HexValue(input[4]), HexValue(input[5]))
      case (Some(high), Some(low)) =>
        if high < 8 then Before(high * 16 + low, ReadChars(input[6..])) else None
      case _ => None
  }

  function Before(b: byte, r: Option<(bytes, bytes)>): Option<(bytes, bytes)> {
    match r
    case None => None
    case Some((text, rest)) => Some(([b] + text, rest))
  }

  // ------------------------------------------------------------------- ordered objects

  /** `Map::insert`: a key already present gets the new value. */
  function Insert(members: seq<(bytes, JsonValue)>, k: bytes, v: JsonValue): (r: seq<(bytes, JsonValue)>)
    ensures |r| == |members| || |r| == |members| + 1
    ensures r != []
  {
    if members == [] then [(k, v)]
    else if members[0].0 == k then [(k, v)] + members[1..]
    else if Less(k, members[0].0) then [(k, v)] + members
    else [members[0]] + Insert(members[1..], k, v)
  }

  // ------------------------------------------------------------------- the conversion

  function BinaryObject(data: bytes): JsonValue {
    JObject(Insert(Insert([], Ascii("encoding"), JString(Ascii("base64"))),
                   Ascii("data"), JString(Base64.Encode(data))))
  }

  const BINARY_PREFIX_LENGTH: nat := 29
  const BINARY_SUFFIX_LENGTH: nat := 2

  /** Verbatim strings carry a three-character format and a colon. */
  function VerbatimText(data: bytes): bytes {
    if |data| >= 4 && data[3] == ':' as int then data[4..] else data
  }

  /** What an object key becomes when the reply's key is not a string. */
  function KeyText(key: JsonValue): bytes {
    if key.JString? then key.text else Text(key)
  }

  /** Running out of budget stops the conversion at once. */
  datatype Charged<T> = Charged(result: Result<T, JsonError>, used: nat)

  /** Charges `n` bytes. Charging nothing never fails once `used` is within the limit, so
      the comma an element does without is a charge of zero. */
  function Consume(used: nat, n: nat, limit: nat): Option<nat> {
    var next := SaturatingAdd(used, n);
    if next > limit then None else Some(next)
  }

  function Pay<T>(used: nat, n: nat, limit: nat, value: T): Charged<T> {
    match Consume(used, n, limit)
    case None => Charged(Err(OverBudget), used)
    case Some(used') => Charged(Ok(value), used')
  }

  function BulkToJson(data: bytes, used: nat, limit: nat): Charged<JsonValue> {
    if ValidUtf8(data) then Pay(used, |Quoted(data)|, limit, JString(data))
    else
      match Base64.EncodedLength(|data|)
      case None => Charged(Err(TooLarge), used)
      case Some(n) =>
        Pay(used, SaturatingAdd(SaturatingAdd(BINARY_PREFIX_LENGTH, n), BINARY_SUFFIX_LENGTH), limit, BinaryObject(data))
  }

  /** `to_json_budgeted`. */
  function Convert(v: RespValue, used: nat, limit: nat, floats: FloatText): Charged<JsonValue>
    decreases Nodes(v), 0
  {
    match v
    case Simple(text) => Pay(used, |Quoted(text)|, limit, JString(text))
    case Error(text) => Charged(Err(ReplyError(text)), used)
    case Integer(n) => Pay(used, |PrintInt(n)|, limit, JInt(n))
    case NullBulk => Pay(used, 4, limit, JNull)
    case NullArray => Pay(used, 4, limit, JNull)
    case Null => Pay(used, 4, limit, JNull)
    case Bulk(data) => BulkToJson(data, used, limit)
    case Array(values) => ConvertList(values, used, limit, floats)
    case Set(values) => ConvertList(values, used, limit, floats)
    case Push(values) => ConvertList(values, used, limit, floats)
    case Boolean(b) => Pay(used, if b then 4 else 5, limit, JBool(b))
    case Double(text) =>
      (match floats(text)
       case Some(printed) => Pay(used, |text|, limit, JFloat(printed))
       case None => Pay(used, |Quoted(text)|, limit, JString(text)))
    case BigNumber(text) => Pay(used, |Quoted(text)|, limit, JString(text))
    case BlobError(blob) => Charged(Err(ReplyError(Lossy(blob))), used)
    case Verbatim(blob) =>
      if !ValidUtf8(blob) then Charged(Err(JsonError.NotUtf8), used)
      else Pay(used, |Quoted(VerbatimText(blob))|, limit, JString(VerbatimText(blob)))
    case Map(entries) =>
      match Consume(used, 2, limit) {
        case None => Charged(Err(OverBudget), used)
        case Some(used') => ConvertEntries(entries, [], 0, used', limit, floats)
      }
  }

  function ConvertList(values: seq<RespValue>, used: nat, limit: nat, floats: FloatText): Charged<JsonValue>
    decreases NodesAll(values), 2
  {
    match Consume(used, 2, limit)
    case None => Charged(Err(OverBudget), used)
    case Some(used') =>
      match ConvertItems(values, 0, used', limit, floats)
      case Charged(Err(e), u) => Charged(Err(e), u)
      case Charged(Ok(items), u) => Charged(Ok(JArray(items)), u)
  }

  /** The remaining elements of an array, `index` of which are already converted. */
  function ConvertItems(values: seq<RespValue>, index: nat, used: nat, limit: nat,
                        floats: FloatText): Charged<seq<JsonValue>>
    decreases NodesAll(values), 1
  {
    if values == [] then Charged(Ok([]), used)
    else
      match Consume(used, if index > 0 then 1 else 0, limit)
      case None => Charged(Err(OverBudget), used)
      case Some(u0) =>
        match Convert(values[0], u0, limit, floats)
        case Charged(Err(e), u1) => Charged(Err(e), u1)
        case Charged(Ok(item), u1) =>
          match ConvertItems(values[1..], index + 1, u1, limit, floats)
          case Charged(Err(e), u2) => Charged(Err(e), u2)
          case Charged(Ok(items), u2) => Charged(Ok([item] + items), u2)
  }

  /** One map entry: the key is converted, charged again as an object key, then the
      colon and the value are charged. */
  function ConvertEntry(entry: (RespValue, RespValue), comma: bool, used: nat, limit: nat, floats: FloatText):
    Charged<(bytes, JsonValue)>
    decreases NodesEntry(entry), 1
  {
    match Consume(used, if comma then 1 else 0, limit)
    case None => Charged(Err(OverBudget), used)
    case Some(u0) =>
      match Convert(entry.0, u0, limit, floats)
      case Charged(Err(e), u1) => Charged(Err(e), u1)
      case Charged(Ok(key), u1) =>
        match Consume(u1, |Quoted(KeyText(key))|, limit)
        case None => Charged(Err(OverBudget), u1)
        case Some(u2) =>
          match Consume(u2, 1, limit)
          case None => Charged(Err(OverBudget), u2)
          case Some(u3) =>
            match Convert(entry.1, u3, limit, floats)
            case Charged(Err(e), u4) => Charged(Err(e), u4)
            case Charged(Ok(value), u4) => Charged(Ok((KeyText(key), value)), u4)
  }

  /** The remaining entries of a map, inserted into the object built so far. */
  function ConvertEntries(entries: seq<(RespValue, RespValue)>, built: seq<(bytes, JsonValue)>, index: nat,
                          used: nat, limit: nat, floats: FloatText): Charged<JsonValue>
    decreases NodesEntries(entries), 2
  {
    if entries == [] then Charged(Ok(JObject(built)), used)
    else
      match ConvertEntry(entries[0], index > 0, used, limit, floats)
      case Charged(Err(e), u) => Charged(Err(e), u)
      case Charged(Ok((k, v)), u) => ConvertEntries(entries[1..], Insert(built, k, v), index + 1, u, limit, floats)
  }

  /** `to_json_with_budget`. */
  function ToJson(v: RespValue, limit: nat, floats: FloatText): Result<JsonValue, JsonError> {
    Convert(v, 0, limit, floats).result
  }
}
