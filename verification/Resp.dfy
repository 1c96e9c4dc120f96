/** RESP2/RESP3 replies: the value type, its wire form, and the budgeted
    decoder, as functions. `RespMethods` holds the imperative code proved
    against them. */
module Resp {
  import opened Prelude
  import opened Decimal
  import opened Utf8

  const MAX_ARGUMENTS: nat := 256
  const MAX_RESP_BULK_LENGTH: nat := 16 * 1024 * 1024
  const MAX_RESP_ARRAY_LENGTH: nat := 4 * 1024
  const MAX_RESP_DEPTH: nat := 64
  const MAX_RESPONSE_NODES: nat := 8 * 1024
  const MAX_RESPONSE_ELEMENTS: nat := 8 * 1024
  const MAX_RESPONSE_BYTES: nat := 1024 * 1024

  datatype RespValue =
    | Simple(text: bytes)
    | Error(text: bytes)
    | Integer(n: int)
    | NullBulk
    | Bulk(data: bytes)
    | NullArray
    | Array(values: seq<RespValue>)
    | Null
    | Boolean(b: bool)
    | Double(text: bytes)
    | BigNumber(text: bytes)
    | BlobError(blob: bytes)
    | Verbatim(blob: bytes)
    | Map(entries: seq<(RespValue, RespValue)>)
    | Set(elements: seq<RespValue>)
    | Push(elements: seq<RespValue>)

  // ---------------------------------------------------------------- structure

  /** The children of an aggregate in wire order. */
  function Kids(v: RespValue): seq<RespValue> {
    match v
    case Array(values) => values
    case Map(entries) => Flatten(entries)
    case Set(elements) => elements
    case Push(elements) => elements
    case _ => []
  }

  function Flatten(entries: seq<(RespValue, RespValue)>): (r: seq<RespValue>)
    ensures |r| == 2 * |entries|
  {
    if entries == [] then [] else [entries[0].0, entries[0].1] + Flatten(entries[1..])
  }

  /** Regroups keys and values read in turn. */
  function Pair(vs: seq<RespValue>): (r: seq<(RespValue, RespValue)>)
    requires |vs| % 2 == 0
    ensures |r| == |vs| / 2
  {
    if vs == [] then [] else [(vs[0], vs[1])] + Pair(vs[2..])
  }

  /** Decoded values in a reply, the reply itself included. */
  function Nodes(v: RespValue): (n: nat)
    ensures n > 0
    decreases v
  {
    match v
    case Array(values) => 1 + NodesAll(values)
    case Map(entries) => 1 + NodesEntries(entries)
    case Set(elements) => 1 + NodesAll(elements)
    case Push(elements) => 1 + NodesAll(elements)
    case _ => 1
  }

  function NodesAll(vs: seq<RespValue>): (n: nat)
    ensures n >= |vs|
    decreases vs
  {
    if vs == [] then 0 else Nodes(vs[0]) + NodesAll(vs[1..])
  }

  function NodesEntries(entries: seq<(RespValue, RespValue)>): nat
    decreases entries
  {
    if entries == [] then 0
    else NodesEntry(entries[0]) + NodesEntries(entries[1..])
  }

  function NodesEntry(entry: (RespValue, RespValue)): nat
    decreases entry
  {
    Nodes(entry.0) + Nodes(entry.1)
  }

  lemma {:induction false} NodesAt(vs: seq<RespValue>, i: nat)
    requires i < |vs|
    ensures Nodes(vs[i]) <= NodesAll(vs)
  {
    hide Nodes;
    if i > 0 {
      NodesAt(vs[1..], i - 1);
    }
  }

  lemma {:induction false} NodesFlatten(entries: seq<(RespValue, RespValue)>)
    ensures NodesAll(Flatten(entries)) == NodesEntries(entries)
  {
    if entries != [] {
      NodesFlatten(entries[1..]);
      var f := Flatten(entries);
      assert f[1..] == [entries[0].1] + Flatten(entries[1..]);
      assert f[1..][1..] == Flatten(entries[1..]);
    }
  }

  lemma NodesOfKids(v: RespValue)
    ensures NodesAll(Kids(v)) == Nodes(v) - 1
  {
    if v.Map? {
      NodesFlatten(v.entries);
    }
  }

  /** Nesting below this value. */
  function Depth(v: RespValue): nat
    decreases Nodes(v), 0
  {
    NodesOfKids(v);
    if Kids(v) == [] then 0 else 1 + DepthAll(Kids(v))
  }

  function DepthAll(vs: seq<RespValue>): nat
    decreases NodesAll(vs), 1
  {
    if vs == [] then 0
    else
      var first, others := Depth(vs[0]), DepthAll(vs[1..]);
      if first > others then first else others
  }

  // ----------------------------------------------------------------- encoding

  /** The type byte that opens a reply. */
  function Prefix(v: RespValue): byte {
    match v
    case Simple(_) => '+' as int
    case Error(_) => '-' as int
    case Integer(_) => ':' as int
    case NullBulk => '$' as int
    case Bulk(_) => '$' as int
    case NullArray => '*' as int
    case Array(_) => '*' as int
    case Null => '_' as int
    case Boolean(_) => '#' as int
    case Double(_) => ',' as int
    case BigNumber(_) => '(' as int
    case BlobError(_) => '!' as int
    case Verbatim(_) => '=' as int
    case Map(_) => '%' as int
    case Set(_) => '~' as int
    case Push(_) => '>' as int
  }

  /** The rest of the first line, without its CRLF. */
  function HeadText(v: RespValue): bytes {
    match v
    case Simple(text) => text
    case Error(text) => text
    case Integer(n) => PrintInt(n)
    case NullBulk => PrintInt(-1)
    case Bulk(data) => PrintInt(|data|)
    case NullArray => PrintInt(-1)
    case Array(values) => PrintInt(|values|)
    case Null => []
    case Boolean(b) => if b then TRUE_TEXT else FALSE_TEXT
    case Double(text) => text
    case BigNumber(text) => text
    case BlobError(blob) => PrintInt(|blob|)
    case Verbatim(blob) => PrintInt(|blob|)
    case Map(entries) => PrintInt(|entries|)
    case Set(elements) => PrintInt(|elements|)
    case Push(elements) => PrintInt(|elements|)
  }

  const TRUE_TEXT: bytes := ['t' as int]
  const FALSE_TEXT: bytes := ['f' as int]

  function HeadLine(v: RespValue): (s: bytes)
    ensures |s| == 1 + |HeadText(v)| && s[0] == Prefix(v) && s[1..] == HeadText(v)
  {
    [Prefix(v)] + HeadText(v)
  }

  /** What follows the first line of a length-prefixed payload. */
  function Blob(v: RespValue): bytes {
    match v
    case Bulk(data) => data + CRLF
    case BlobError(blob) => blob + CRLF
    case Verbatim(blob) => blob + CRLF
    case _ => []
  }

  /** The complete wire form of a reply. */
  function Encode(v: RespValue): (s: bytes)
    ensures |s| >= 3
    decreases Nodes(v), 0
  {
    NodesOfKids(v);
    HeadLine(v) + CRLF + Blob(v) + EncodeAll(Kids(v))
  }

  function EncodeAll(vs: seq<RespValue>): (s: bytes)
    decreases NodesAll(vs), 1
  {
    if vs == [] then [] else Encode(vs[0]) + EncodeAll(vs[1..])
  }

  // ----------------------------------------------------------------- decoding

  datatype DecodeError =
    | TooDeep
    | ByteBudget
    | NodeBudget
    | ElementBudget
    | ConnectionClosed
    | LineWithoutCrlf
    | EmptyLine
    | NotUtf8
    | BadNumber
    | BadLength
    | BadBoolean
    | TruncatedBlob
    | BlobWithoutCrlf
    | UnsupportedPrefix(prefix: byte)

  datatype Budget = Budget(
    byteLimit: nat, bytesUsed: nat,
    nodeLimit: nat, nodesUsed: nat,
    elementLimit: nat, elementsUsed: nat)
  {
    /** Counters within limits, limits representable in a machine word. */
    predicate Valid() {
      && bytesUsed <= byteLimit <= USIZE_MAX
      && nodesUsed <= nodeLimit <= USIZE_MAX
      && elementsUsed <= elementLimit <= USIZE_MAX
    }

    function Charge(byteCount: nat, nodeCount: nat, elementCount: nat): Budget {
      this.(bytesUsed := bytesUsed + byteCount,
            nodesUsed := nodesUsed + nodeCount,
            elementsUsed := elementsUsed + elementCount)
    }

    /** `consume_bytes`, `consume_node` and `reserve_elements`. */
    function ConsumeBytes(n: nat): Option<Budget> {
      var next := SaturatingAdd(bytesUsed, n);
      if next > byteLimit then None else Some(this.(bytesUsed := next))
    }

    function ConsumeNode(): Option<Budget> {
      var next := SaturatingAdd(nodesUsed, 1);
      if next > nodeLimit then None else Some(this.(nodesUsed := next))
    }

    function ReserveElements(n: nat): Option<Budget> {
      var next := SaturatingAdd(elementsUsed, n);
      if next > elementLimit then None else Some(this.(elementsUsed := next))
    }
  }

  function FreshBudget(byteLimit: nat): Budget {
    Budget(byteLimit, 0, MAX_RESPONSE_NODES, 0, MAX_RESPONSE_ELEMENTS, 0)
  }

  /** The result of reading from a byte stream: what was read, what is left of
      the stream, and the budget afterwards, on success and on failure. */
  datatype Outcome<T> = Outcome(result: Result<T, DecodeError>, rest: bytes, budget: Budget)

  /** Length of the first line, its line feed included; everything if there is none. */
  function LineLength(s: bytes): (n: nat)
    ensures n <= |s|
    ensures LF !in s[..n] || (n > 0 && s[n - 1] == LF && LF !in s[..n - 1])
    ensures n < |s| ==> LF in s[..n]
  {
    if s == [] then 0
    else if s[0] == LF then 1
    else
      var n := LineLength(s[1..]);
      assert s[..n + 1] == [s[0]] + s[1..][..n];
      assert n > 0 ==> s[..n] == [s[0]] + s[1..][..n - 1];
      n + 1
  }

  /** What one header line announces. */
  datatype Shape =
    | Leaf(value: RespValue)
    | Payload(length: nat)
    | Children(count: nat)
    | Bad(error: DecodeError)

  function Length(payload: bytes, limit: nat): Result<nat, DecodeError> {
    match ParseI64(payload)
    case None => Err(BadNumber)
    case Some(n) => if n < 0 || n > limit then Err(BadLength) else Ok(n)
  }

  function Shaped(prefix: byte, payload: bytes): Shape {
    if prefix == '+' as int then
      (if ValidUtf8(payload) then Leaf(Simple(payload)) else Bad(NotUtf8))
    else if prefix == '-' as int then Leaf(Error(Lossy(payload)))
    else if prefix == ':' as int then
      match ParseI64(payload) {
        case None => Bad(BadNumber)
        case Some(n) => Leaf(Integer(n))
      }
    else if prefix == '$' as int then
      (if ParseI64(payload) == Some(-1) then Leaf(NullBulk)
       else match Length(payload, MAX_RESP_BULK_LENGTH) {
              case Err(e) => Bad(e)
              case Ok(n) => Payload(n)
            })
    else if prefix == '*' as int then
      (if ParseI64(payload) == Some(-1) then Leaf(NullArray)
       else match Length(payload, MAX_RESP_ARRAY_LENGTH) {
              case Err(e) => Bad(e)
              case Ok(n) => Children(n)
            })
    else if prefix == '_' as int then Leaf(Null)
    else if prefix == '#' as int then
      (if payload == TRUE_TEXT then Leaf(Boolean(true))
       else if payload == FALSE_TEXT then Leaf(Boolean(false))
       else Bad(BadBoolean))
    else if prefix == ',' as int then
      (if ValidUtf8(payload) then Leaf(Double(payload)) else Bad(NotUtf8))
    else if prefix == '(' as int then
      (if ValidUtf8(payload) then Leaf(BigNumber(payload)) else Bad(NotUtf8))
    else if prefix == '!' as int || prefix == '=' as int then
      match Length(payload, MAX_RESP_BULK_LENGTH) {
        case Err(e) => Bad(e)
        case Ok(n) => Payload(n)
      }
    else if prefix == '%' as int then
      match Length(payload, MAX_RESP_ARRAY_LENGTH) {
        case Err(e) => Bad(e)
        case Ok(n) => Children(2 * n)
      }
    else if prefix == '~' as int || prefix == '>' as int then
      match Length(payload, MAX_RESP_ARRAY_LENGTH) {
        case Err(e) => Bad(e)
        case Ok(n) => Children(n)
      }
    else Bad(UnsupportedPrefix(prefix))
  }

  function FromPayload(prefix: byte, data: bytes): RespValue {
    if prefix == '$' as int then Bulk(data)
    else if prefix == '!' as int then BlobError(data)
    else Verbatim(data)
  }

  function FromChildren(prefix: byte, values: seq<RespValue>): RespValue
    requires prefix == '%' as int ==> |values| % 2 == 0
  {
    if prefix == '*' as int then Array(values)
    else if prefix == '%' as int then Map(Pair(values))
    else if prefix == '~' as int then Set(values)
    else Push(values)
  }

  /** Reads one header line: charges a node, takes the line, charges its bytes. */
  function ReadHeader(input: bytes, depth: nat, b: Budget): (r: Outcome<bytes>)
    ensures r.result.Ok? ==> r.result.value != [] && depth <= MAX_RESP_DEPTH
  {
    if depth > MAX_RESP_DEPTH then Outcome(Err(TooDeep), input, b)
    else
      match b.ConsumeNode() {
        case None => Outcome(Err(NodeBudget), input, b)
        case Some(b1) =>
          var n := LineLength(input);
          var line, rest := input[..n], input[n..];
          if n == 0 then Outcome(Err(ConnectionClosed), rest, b1)
          else if !EndsWithCrlf(line) then Outcome(Err(LineWithoutCrlf), rest, b1)
          else
            match b1.ConsumeBytes(n) {
              case None => Outcome(Err(ByteBudget), rest, b1)
              case Some(b2) =>
                if n == 2 then Outcome(Err(EmptyLine), rest, b2)
                else Outcome(Ok(line[..n - 2]), rest, b2)
            }
      }
  }

  /** Reads a payload of a declared length and its CRLF. */
  function ReadPayload(input: bytes, length: nat, b: Budget): Outcome<bytes> {
    match b.ConsumeBytes(length + 2)
    case None => Outcome(Err(ByteBudget), input, b)
    case Some(b1) =>
      if |input| < length + 2 then Outcome(Err(TruncatedBlob), [], b1)
      else if !EndsWithCrlf(input[..length + 2]) then
        Outcome(Err(BlobWithoutCrlf), input[length + 2..], b1)
      else Outcome(Ok(input[..length]), input[length + 2..], b1)
  }

  /** Decodes one reply, charging everything read to the budget. */
  function Decode(input: bytes, depth: nat, b: Budget): (r: Outcome<RespValue>)
    decreases MAX_RESP_DEPTH - depth, 0
  {
    match ReadHeader(input, depth, b)
    case Outcome(Err(e), rest, b1) => Outcome(Err(e), rest, b1)
    case Outcome(Ok(line), rest, b1) =>
      match Shaped(line[0], line[1..]) {
        case Bad(e) => Outcome(Err(e), rest, b1)
        case Leaf(value) => Outcome(Ok(value), rest, b1)
        case Payload(length) =>
          (match ReadPayload(rest, length, b1)
           case Outcome(Err(e), rest', b2) => Outcome(Err(e), rest', b2)
           case Outcome(Ok(data), rest', b2) => Outcome(Ok(FromPayload(line[0], data)), rest', b2))
        case Children(count) =>
          (match b1.ReserveElements(count)
           case None => Outcome(Err(ElementBudget), rest, b1)
           case Some(b2) =>
             match DecodeMany(rest, count, depth + 1, b2)
             case Outcome(Err(e), rest', b3) => Outcome(Err(e), rest', b3)
             case Outcome(Ok(values), rest', b3) =>
               Outcome(Ok(FromChildren(line[0], values)), rest', b3))
      }
  }

  /** Decodes `count` replies one after the other. */
  function DecodeMany(input: bytes, count: nat, depth: nat, b: Budget): (r: Outcome<seq<RespValue>>)
    ensures r.result.Ok? ==> |r.result.value| == count
    decreases MAX_RESP_DEPTH - depth, count
  {
    if count == 0 then Outcome(Ok([]), input, b)
    else
      match Decode(input, depth, b)
      case Outcome(Err(e), rest, b1) => Outcome(Err(e), rest, b1)
      case Outcome(Ok(first), rest, b1) =>
        match DecodeMany(rest, count - 1, depth, b1)
        case Outcome(Err(e), rest', b2) => Outcome(Err(e), rest', b2)
        case Outcome(Ok(others), rest', b2) => Outcome(Ok([first] + others), rest', b2)
  }
}
