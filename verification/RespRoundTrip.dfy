/** Decoding undoes encoding, with framing. */
module RespRoundTrip {
  import opened Prelude
  import opened Decimal
  import opened Utf8
  import opened Resp

  // ------------------------------------------------- what a reply may contain

  /** The value itself fits the decoder's limits: text kept on one line is UTF-8
      without line feed, numbers and lengths are in range. */
  predicate LocallyDecodable(v: RespValue) {
    match v
    case Simple(text) => ValidUtf8(text) && LF !in text
    case Error(text) => ValidUtf8(text) && LF !in text
    case Integer(n) => I64_MIN <= n <= I64_MAX
    case Bulk(data) => |data| <= MAX_RESP_BULK_LENGTH
    case Array(values) => |values| <= MAX_RESP_ARRAY_LENGTH
    case Double(text) => ValidUtf8(text) && LF !in text
    case BigNumber(text) => ValidUtf8(text) && LF !in text
    case BlobError(blob) => |blob| <= MAX_RESP_BULK_LENGTH
    case Verbatim(blob) => |blob| <= MAX_RESP_BULK_LENGTH
    case Map(entries) => |entries| <= MAX_RESP_ARRAY_LENGTH
    case Set(elements) => |elements| <= MAX_RESP_ARRAY_LENGTH
    case Push(elements) => |elements| <= MAX_RESP_ARRAY_LENGTH
    case _ => true
  }

  predicate Decodable(v: RespValue)
    decreases Nodes(v), 0
  {
    NodesOfKids(v);
    LocallyDecodable(v) && DecodableAll(Kids(v))
  }

  predicate DecodableAll(vs: seq<RespValue>)
    decreases NodesAll(vs), 1
  {
    vs == [] || (Decodable(vs[0]) && DecodableAll(vs[1..]))
  }

  /** The reply fits what is left of the budget and of the nesting allowance. */
  predicate Fits(v: RespValue, depth: nat, b: Budget) {
    && depth + Depth(v) <= MAX_RESP_DEPTH
    && b.bytesUsed + |Encode(v)| <= b.byteLimit
    && b.nodesUsed + Nodes(v) <= b.nodeLimit
    && b.elementsUsed + Nodes(v) - 1 <= b.elementLimit
  }

  /** The budget after decoding a reply: its bytes, its values, and one element
      slot for every value but the root. */
  function Charged(v: RespValue, b: Budget): Budget {
    b.Charge(|Encode(v)|, Nodes(v), Nodes(v) - 1)
  }

  // ------------------------------------------------------------- header lines

  predicate IsAggregate(v: RespValue) {
    v.Array? || v.Map? || v.Set? || v.Push?
  }

  predicate HasPayload(v: RespValue) {
    v.Bulk? || v.BlobError? || v.Verbatim?
  }

  function PayloadOf(v: RespValue): bytes
    requires HasPayload(v)
  {
    if v.Bulk? then v.data else v.blob
  }

  function ShapeOf(v: RespValue): Shape {
    if IsAggregate(v) then Children(|Kids(v)|)
    else if HasPayload(v) then Payload(|PayloadOf(v)|)
    else Leaf(v)
  }

  /** The first line of a value whose text is a number. */
  predicate HasNumericHead(v: RespValue) {
    v.Integer? || v.NullBulk? || v.NullArray? || IsAggregate(v) || HasPayload(v)
  }

  lemma HeadLineIsOneLine(v: RespValue)
    requires LocallyDecodable(v)
    ensures LF !in HeadLine(v)
  {
    if HasNumericHead(v) {
      var n := ParseSigned(HeadText(v));
      PrintIntParses(NumberIn(v));
      NumberHasNoLineFeed(HeadText(v));
    }
  }

  function NumberIn(v: RespValue): int
    requires HasNumericHead(v)
    ensures HeadText(v) == PrintInt(NumberIn(v))
  {
    match v
    case Integer(n) => n
    case NullBulk => -1
    case NullArray => -1
    case Bulk(data) => |data|
    case BlobError(blob) => |blob|
    case Verbatim(blob) => |blob|
    case Array(values) => |values|
    case Map(entries) => |entries|
    case Set(elements) => |elements|
    case Push(elements) => |elements|
  }

  lemma HeadTextShape(v: RespValue)
    requires LocallyDecodable(v)
    ensures Shaped(Prefix(v), HeadText(v)) == ShapeOf(v)
  {
    if HasNumericHead(v) {
      ParsePrint(NumberIn(v));
    } else if v.Error? {
      LossyRepairs(v.text);
    }
  }

  /** A line feed ends the first line. */
  lemma {:induction false} LineLengthOf(line: bytes, rest: bytes)
    requires LF !in line
    ensures LineLength(line + [LF] + rest) == |line| + 1
  {
    var s := line + [LF] + rest;
    if line != [] {
      assert line[0] in line;
      assert s[0] == line[0];
      assert s[1..] == line[1..] + [LF] + rest;
      LineLengthOf(line[1..], rest);
    }
  }

  lemma ReadHeaderOf(line: bytes, rest: bytes, depth: nat, b: Budget)
    requires line != [] && LF !in line && b.Valid() && depth <= MAX_RESP_DEPTH
    requires b.nodesUsed < b.nodeLimit && b.bytesUsed + |line| + 2 <= b.byteLimit
    ensures ReadHeader(line + CRLF + rest, depth, b) == Outcome(Ok(line), rest, b.Charge(|line| + 2, 1, 0))
  {
    var input := line + CRLF + rest;
    assert input == (line + [CR]) + [LF] + rest;
    LineLengthOf(line + [CR], rest);
    assert input[..|line| + 2] == line + CRLF;
    assert input[|line| + 2..] == rest;
    assert (line + CRLF)[|line|..] == CRLF;
    assert (line + CRLF)[..|line|] == line;
  }

  lemma ReadPayloadOf(data: bytes, rest: bytes, b: Budget)
    requires b.Valid() && b.bytesUsed + |data| + 2 <= b.byteLimit
    ensures ReadPayload(data + CRLF + rest, |data|, b) == Outcome(Ok(data), rest, b.Charge(|data| + 2, 0, 0))
  {
    var input := data + CRLF + rest;
    assert input[..|data| + 2] == data + CRLF;
    assert (data + CRLF)[|data|..] == CRLF;
    assert input[|data| + 2..] == rest;
    assert input[..|data|] == data;
  }

  lemma {:induction false} PairFlatten(entries: seq<(RespValue, RespValue)>)
    ensures Pair(Flatten(entries)) == entries
  {
    if entries != [] {
      PairFlatten(entries[1..]);
      assert Flatten(entries)[2..] == Flatten(entries[1..]);
      assert entries == [(entries[0].0, entries[0].1)] + entries[1..];
    }
  }

  lemma {:induction false} FlattenPair(vs: seq<RespValue>)
    requires |vs| % 2 == 0
    ensures Flatten(Pair(vs)) == vs
  {
    if vs != [] {
      FlattenPair(vs[2..]);
      assert Pair(vs)[1..] == Pair(vs[2..]);
      assert vs == [vs[0], vs[1]] + vs[2..];
    }
  }

  // ------------------------------------------------------------- parser undoes printer

  lemma DecodeLeaf(input: bytes, depth: nat, b: Budget, line: bytes, rest: bytes, b1: Budget)
    requires ReadHeader(input, depth, b) == Outcome(Ok(line), rest, b1)
    requires line != [] && Shaped(line[0], line[1..]).Leaf?
    ensures Decode(input, depth, b) == Outcome(Ok(Shaped(line[0], line[1..]).value), rest, b1)
  {
  }

  lemma DecodePayload(input: bytes, depth: nat, b: Budget, line: bytes, rest: bytes, b1: Budget,
                      data: bytes, rest': bytes, b2: Budget)
    requires ReadHeader(input, depth, b) == Outcome(Ok(line), rest, b1)
    requires line != [] && Shaped(line[0], line[1..]).Payload?
    requires ReadPayload(rest, Shaped(line[0], line[1..]).length, b1) == Outcome(Ok(data), rest', b2)
    ensures Decode(input, depth, b) == Outcome(Ok(FromPayload(line[0], data)), rest', b2)
  {
  }

  lemma DecodeChildren(input: bytes, depth: nat, b: Budget, line: bytes, rest: bytes, b1: Budget,
                       b2: Budget, values: seq<RespValue>, rest': bytes, b3: Budget)
    requires ReadHeader(input, depth, b) == Outcome(Ok(line), rest, b1)
    requires line != [] && Shaped(line[0], line[1..]).Children?
    requires b1.ReserveElements(Shaped(line[0], line[1..]).count) == Some(b2)
    requires DecodeMany(rest, Shaped(line[0], line[1..]).count, depth + 1, b2) == Outcome(Ok(values), rest', b3)
    requires line[0] == '%' as int ==> |values| % 2 == 0
    ensures Decode(input, depth, b) == Outcome(Ok(FromChildren(line[0], values)), rest', b3)
  {
  }

  lemma FromChildrenOfKids(v: RespValue)
    requires IsAggregate(v)
    ensures Prefix(v) == '%' as int ==> |Kids(v)| % 2 == 0
    ensures FromChildren(Prefix(v), Kids(v)) == v
  {
    if v.Map? {
      PairFlatten(v.entries);
    }
  }

  lemma EncodeParts(v: RespValue, rest: bytes)
    ensures Encode(v) + rest == HeadLine(v) + CRLF + (Blob(v) + EncodeAll(Kids(v)) + rest)
    ensures |Encode(v)| == |HeadLine(v)| + 2 + |Blob(v)| + |EncodeAll(Kids(v))|
  {
    hide EncodeAll, HeadLine, Blob, Kids;
  }

  lemma DecodeEncodeFlat(v: RespValue, rest: bytes, depth: nat, b: Budget)
    requires Decodable(v) && Fits(v, depth, b) && b.Valid() && !IsAggregate(v)
    ensures Decode(Encode(v) + rest, depth, b) == Outcome(Ok(v), rest, Charged(v, b))
  {
    hide Decode, ReadHeader, Shaped, ReadPayload;
    EncodeParts(v, rest);
    var head := HeadLine(v);
    var input, body := Encode(v) + rest, Blob(v) + EncodeAll(Kids(v)) + rest;
    HeadLineIsOneLine(v);
    ReadHeaderOf(head, body, depth, b);
    HeadTextShape(v);
    var b1 := b.Charge(|head| + 2, 1, 0);
    if HasPayload(v) {
      assert body == PayloadOf(v) + CRLF + rest;
      ReadPayloadOf(PayloadOf(v), rest, b1);
      DecodePayload(input, depth, b, head, body, b1, PayloadOf(v), rest, Charged(v, b));
    } else {
      assert body == rest;
      DecodeLeaf(input, depth, b, head, rest, b1);
    }
  }

  lemma AggregateParts(v: RespValue)
    requires IsAggregate(v)
    ensures Blob(v) == [] && |Kids(v)| <= NodesAll(Kids(v)) == Nodes(v) - 1
    ensures |Encode(v)| == |HeadLine(v)| + 2 + |EncodeAll(Kids(v))|
    ensures Kids(v) != [] ==> Depth(v) == 1 + DepthAll(Kids(v))
    ensures Decodable(v) ==> LocallyDecodable(v) && DecodableAll(Kids(v))
    ensures ShapeOf(v) == Children(|Kids(v)|)
  {
    NodesOfKids(v);
  }

  lemma EncodeAllUnfolds(vs: seq<RespValue>)
    requires vs != []
    ensures EncodeAll(vs) == Encode(vs[0]) + EncodeAll(vs[1..])
  {
    hide Encode;
  }

  lemma SequenceBytes(vs: seq<RespValue>, rest: bytes)
    requires vs != []
    ensures EncodeAll(vs) + rest == Encode(vs[0]) + (EncodeAll(vs[1..]) + rest)
    ensures |EncodeAll(vs)| == |Encode(vs[0])| + |EncodeAll(vs[1..])|
  {
    hide Encode, EncodeAll;
    EncodeAllUnfolds(vs);
    Assoc(Encode(vs[0]), EncodeAll(vs[1..]), rest);
  }

  lemma SequenceParts(vs: seq<RespValue>)
    requires vs != []
    ensures NodesAll(vs) == Nodes(vs[0]) + NodesAll(vs[1..])
    ensures DepthAll(vs) >= Depth(vs[0]) && DepthAll(vs) >= DepthAll(vs[1..])
    ensures DecodableAll(vs) ==> Decodable(vs[0]) && DecodableAll(vs[1..])
  {
    hide Depth, Nodes, Decodable;
  }

  lemma NothingToDecode(rest: bytes, depth: nat, b: Budget)
    ensures EncodeAll([]) == [] && NodesAll([]) == 0
    ensures DecodeMany(EncodeAll([]) + rest, 0, depth, b) == Outcome(Ok([]), rest, b)
  {
    assert EncodeAll([]) + rest == rest;
  }

  lemma {:induction false} DecodeEncode(v: RespValue, rest: bytes, depth: nat, b: Budget)
    requires Decodable(v) && Fits(v, depth, b) && b.Valid()
    ensures Decode(Encode(v) + rest, depth, b) == Outcome(Ok(v), rest, Charged(v, b))
    decreases Nodes(v), 0
  {
    hide Decode, ReadHeader, Shaped, Encode, DecodeMany, Decodable, DecodableAll, LocallyDecodable, HeadLine,
         HeadText, Depth, DepthAll, Nodes, EncodeAll, Kids;
    if IsAggregate(v) {
      AggregateParts(v);
      EncodeParts(v, rest);
      var head, kids := HeadLine(v), Kids(v);
      var input, body := Encode(v) + rest, EncodeAll(kids) + rest;
      assert Blob(v) + EncodeAll(kids) + rest == body;
      HeadLineIsOneLine(v);
      ReadHeaderOf(head, body, depth, b);
      HeadTextShape(v);
      var b1 := b.Charge(|head| + 2, 1, 0);
      var b2 := b1.Charge(0, 0, |kids|);
      assert b1.ReserveElements(|kids|) == Some(b2);
      DecodeEncodeAll(kids, rest, depth + 1, b2);
      FromChildrenOfKids(v);
      DecodeChildren(input, depth, b, head, body, b1, b2, kids, rest, Charged(v, b));
    } else {
      DecodeEncodeFlat(v, rest, depth, b);
    }
  }

  lemma {:induction false} DecodeEncodeAll(vs: seq<RespValue>, rest: bytes, depth: nat, b: Budget)
    requires DecodableAll(vs) && b.Valid()
    requires vs != [] ==> depth + DepthAll(vs) <= MAX_RESP_DEPTH
    requires b.bytesUsed + |EncodeAll(vs)| <= b.byteLimit
    requires b.nodesUsed + NodesAll(vs) <= b.nodeLimit
    requires b.elementsUsed + NodesAll(vs) - |vs| <= b.elementLimit
    ensures DecodeMany(EncodeAll(vs) + rest, |vs|, depth, b)
            == Outcome(Ok(vs), rest, b.Charge(|EncodeAll(vs)|, NodesAll(vs), NodesAll(vs) - |vs|))
    decreases NodesAll(vs), 1
  {
    hide Decode, Encode, DecodeMany, EncodeAll, Decodable, DecodableAll, NodesAll, Depth, DepthAll, Nodes;
    if vs == [] {
      NothingToDecode(rest, depth, b);
    } else {
      var v, others := vs[0], vs[1..];
      SequenceBytes(vs, rest);
      SequenceParts(vs);
      var input, rest1 := EncodeAll(vs) + rest, EncodeAll(others) + rest;
      DecodeEncode(v, rest1, depth, b);
      DecodeEncodeAll(others, rest, depth, Charged(v, b));
      DecodeManyStep(input, |vs|, depth, b, v, rest1, Charged(v, b), others, rest,
                     Charged(v, b).Charge(|EncodeAll(others)|, NodesAll(others), NodesAll(others) - |others|));
      assert [v] + others == vs;
    }
  }

  lemma DecodeManyStep(input: bytes, count: nat, depth: nat, b: Budget, first: RespValue, rest: bytes, b1: Budget,
                       others: seq<RespValue>, rest': bytes, b2: Budget)
    requires count > 0
    requires Decode(input, depth, b) == Outcome(Ok(first), rest, b1)
    requires DecodeMany(rest, count - 1, depth, b1) == Outcome(Ok(others), rest', b2)
    ensures DecodeMany(input, count, depth, b) == Outcome(Ok([first] + others), rest', b2)
  {
  }
}
