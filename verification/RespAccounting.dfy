/** What the decoder charges, on every input: bytes, values and element slots
    are accounted for exactly, limits are never passed, and whatever is decoded
    could have been produced by the encoder. */
module RespAccounting {
  import opened Prelude
  import opened Decimal
  import opened Utf8
  import opened Resp
  import opened RespRoundTrip

  /** A valid budget that saturating arithmetic can never reach the end of. */
  predicate Strict(b: Budget) {
    b.Valid() && b.byteLimit < USIZE_MAX && b.nodeLimit < USIZE_MAX && b.elementLimit < USIZE_MAX
  }

  predicate SameLimits(b: Budget, c: Budget) {
    b.byteLimit == c.byteLimit && b.nodeLimit == c.nodeLimit && b.elementLimit == c.elementLimit
  }

  /** Counters only grow, stay within the limits, and never show more decoded
      values than `roots` plus the element slots reserved since `b`. */
  predicate Advanced(b: Budget, c: Budget, roots: nat) {
    && SameLimits(b, c) && c.Valid()
    && b.bytesUsed <= c.bytesUsed
    && b.nodesUsed <= c.nodesUsed
    && b.elementsUsed <= c.elementsUsed
    && c.nodesUsed - b.nodesUsed <= roots + (c.elementsUsed - b.elementsUsed)
  }

  lemma HeaderCharges(input: bytes, depth: nat, b: Budget)
    requires b.Valid()
    ensures var r := ReadHeader(input, depth, b);
            && Advanced(b, r.budget, 1) && r.budget.elementsUsed == b.elementsUsed
            && (r.result.Ok? && Strict(b) ==>
                  r.budget == b.Charge(|r.result.value| + 2, 1, 0) && Strict(r.budget))
  {
    hide LineLength;
  }

  lemma HeaderAccounts(input: bytes, depth: nat, b: Budget)
    requires b.Valid() && ReadHeader(input, depth, b).result.Ok?
    ensures var r := ReadHeader(input, depth, b);
            && IsSuffix(r.rest, input) && depth <= MAX_RESP_DEPTH
            && r.result.value != [] && LF !in r.result.value
            && Consumed(input, r.rest) == r.result.value + CRLF
  {
    var n := LineLength(input);
    var line := input[..n];
    assert IsSuffix(input[n..], input);
    LineBeforeCrlf(line);
  }

  lemma LineBeforeCrlf(line: bytes)
    requires EndsWithCrlf(line) && LF !in line[..|line| - 1]
    ensures line == line[..|line| - 2] + CRLF && LF !in line[..|line| - 2]
  {
    assert line == line[..|line| - 2] + line[|line| - 2..];
    assert line[..|line| - 1][..|line| - 2] == line[..|line| - 2];
  }

  lemma PayloadAccounts(input: bytes, length: nat, b: Budget)
    requires b.Valid()
    ensures var r := ReadPayload(input, length, b);
            && Advanced(b, r.budget, 0)
            && (r.result.Ok? ==>
                  && IsSuffix(r.rest, input) && |r.result.value| == length
                  && Consumed(input, r.rest) == r.result.value + CRLF)
            && (r.result.Ok? && Strict(b) ==> r.budget == b.Charge(length + 2, 0, 0))
  {
    var r := ReadPayload(input, length, b);
    if r.result.Ok? {
      var part := input[..length + 2];
      assert part[length..] == CRLF && part[..length] == input[..length];
      assert part == input[..length] + CRLF;
    }
  }

  /** Everything a header line can announce is within the decoder's limits. */
  lemma ShapedLeaf(line: bytes)
    requires line != [] && LF !in line && Shaped(line[0], line[1..]).Leaf?
    ensures var v := Shaped(line[0], line[1..]).value;
            LocallyDecodable(v) && Kids(v) == [] && Blob(v) == [] && !IsAggregate(v) && !HasPayload(v)
  {
    hide Lossy, ValidUtf8, ParseI64, LocallyDecodable, Kids, Blob;
    var text, v := line[1..], Shaped(line[0], line[1..]).value;
    assert LF !in text;
    LossyRepairs(text);
    NumbersInRange(text);
    LeafIsLocal(text, v);
  }

  lemma LeafIsLocal(text: bytes, v: RespValue)
    requires LF !in text && LF !in Lossy(text) && ValidUtf8(Lossy(text))
    requires !IsAggregate(v) && !HasPayload(v)
    requires v.Integer? ==> I64_MIN <= v.n <= I64_MAX
    requires v.Simple? || v.Double? || v.BigNumber? ==> v.text == text && ValidUtf8(text)
    requires v.Error? ==> v.text == Lossy(text)
    ensures LocallyDecodable(v) && Kids(v) == [] && Blob(v) == []
  {
    hide Lossy, ValidUtf8;
  }

  lemma NumbersInRange(text: bytes)
    ensures ParseI64(text).Some? ==> I64_MIN <= ParseI64(text).value <= I64_MAX
  {
  }

  lemma ShapedPayload(line: bytes, data: bytes)
    requires line != [] && Shaped(line[0], line[1..]) == Payload(|data|)
    ensures var v := FromPayload(line[0], data);
            LocallyDecodable(v) && Kids(v) == [] && HasPayload(v) && PayloadOf(v) == data
  {
    hide Lossy, ValidUtf8, ParseI64;
  }

  lemma FromChildrenIsDecodable(line: bytes, values: seq<RespValue>)
    requires line != [] && Shaped(line[0], line[1..]) == Children(|values|)
    ensures line[0] == '%' as int ==> |values| % 2 == 0
    ensures var v := FromChildren(line[0], values);
            LocallyDecodable(v) && Kids(v) == values && IsAggregate(v) && Blob(v) == []
  {
    hide Lossy, ValidUtf8, ParseI64;
    if line[0] == '%' as int {
      FlattenPair(values);
    }
  }

  /** What a completed read of some replies leaves behind. */
  predicate Accounted(input: bytes, rest: bytes, b: Budget, c: Budget, nodes: nat, elements: nat) {
    && IsSuffix(rest, input)
    && c == b.Charge(|input| - |rest|, nodes, elements)
  }

  /** A decoded reply respects every limit the encoder side assumes, the bytes
      charged are the bytes taken from the stream, and one element slot was
      reserved for every decoded value but the root. */
  lemma {:induction false} DecodeAccounts(input: bytes, depth: nat, b: Budget)
    requires Strict(b)
    ensures var r := Decode(input, depth, b);
            && Advanced(b, r.budget, 1)
            && (r.result.Ok? ==>
                  && Decodable(r.result.value)
                  && depth + Depth(r.result.value) <= MAX_RESP_DEPTH
                  && Accounted(input, r.rest, b, r.budget, Nodes(r.result.value), Nodes(r.result.value) - 1))
    decreases MAX_RESP_DEPTH - depth, 0
  {
    hide DecodeMany, Decodable, DecodableAll, LocallyDecodable, Depth, DepthAll, Nodes, NodesAll, Kids, Shaped,
         ReadHeader, ReadPayload, Encode, FromChildren, FromPayload;
    HeaderCharges(input, depth, b);
    var h := ReadHeader(input, depth, b);
    if h.result.Ok? {
      HeaderAccounts(input, depth, b);
      var line := h.result.value;
      match Shaped(line[0], line[1..])
      case Bad(_) =>
      case Leaf(v) =>
        ShapedLeaf(line);
        FlatIsDecodable(v);
      case Payload(length) =>
        PayloadAccounts(h.rest, length, h.budget);
        var p := ReadPayload(h.rest, length, h.budget);
        if p.result.Ok? {
          ShapedPayload(line, p.result.value);
          FlatIsDecodable(FromPayload(line[0], p.result.value));
          SuffixTrans(input, h.rest, p.rest);
        }
      case Children(count) =>
        match h.budget.ReserveElements(count)
        case None =>
        case Some(b2) =>
          DecodeManyAccounts(h.rest, count, depth + 1, b2);
          var m := DecodeMany(h.rest, count, depth + 1, b2);
          if m.result.Ok? {
            var values := m.result.value;
            FromChildrenIsDecodable(line, values);
            AggregateIsDecodable(FromChildren(line[0], values), depth);
            SuffixTrans(input, h.rest, m.rest);
          }
    }
  }

  lemma FlatIsDecodable(v: RespValue)
    requires LocallyDecodable(v) && Kids(v) == []
    ensures Decodable(v) && Depth(v) == 0 && Nodes(v) == 1
  {
    NodesOfKids(v);
  }

  lemma AggregateIsDecodable(v: RespValue, depth: nat)
    requires LocallyDecodable(v) && DecodableAll(Kids(v)) && depth <= MAX_RESP_DEPTH
    requires Kids(v) != [] ==> depth + 1 + DepthAll(Kids(v)) <= MAX_RESP_DEPTH
    ensures Decodable(v) && depth + Depth(v) <= MAX_RESP_DEPTH && Nodes(v) == 1 + NodesAll(Kids(v))
  {
    NodesOfKids(v);
  }

  lemma {:induction false} DecodeManyAccounts(input: bytes, count: nat, depth: nat, b: Budget)
    requires Strict(b)
    ensures var r := DecodeMany(input, count, depth, b);
            && Advanced(b, r.budget, count)
            && (r.result.Ok? ==>
                  && DecodableAll(r.result.value) && |r.result.value| == count
                  && (count > 0 ==> depth + DepthAll(r.result.value) <= MAX_RESP_DEPTH)
                  && Accounted(input, r.rest, b, r.budget,
                               NodesAll(r.result.value), NodesAll(r.result.value) - count))
    decreases MAX_RESP_DEPTH - depth, count
  {
    hide Decode, Decodable, Depth, Nodes, Encode;
    if count > 0 {
      DecodeAccounts(input, depth, b);
      var d := Decode(input, depth, b);
      if d.result.Ok? {
        DecodeManyAccounts(d.rest, count - 1, depth, d.budget);
        var m := DecodeMany(d.rest, count - 1, depth, d.budget);
        if m.result.Ok? {
          SequenceOf(d.result.value, m.result.value);
          SuffixTrans(input, d.rest, m.rest);
        }
      }
    }
  }

  lemma SequenceOf(first: RespValue, others: seq<RespValue>)
    ensures NodesAll([first] + others) == Nodes(first) + NodesAll(others)
    ensures EncodeAll([first] + others) == Encode(first) + EncodeAll(others)
    ensures DepthAll([first] + others) == if Depth(first) > DepthAll(others) then Depth(first) else DepthAll(others)
    ensures DecodableAll([first] + others) <==> Decodable(first) && DecodableAll(others)
  {
    hide Decodable, Depth, Nodes, Encode;
    assert ([first] + others)[1..] == others;
  }

  // -------------------------------------------------------------- consequences

  /** Parser undoes printer exactly when the value is decodable and fits. */
  lemma RoundTrip(v: RespValue, rest: bytes, depth: nat, b: Budget)
    requires Strict(b)
    ensures Decode(Encode(v) + rest, depth, b) == Outcome(Ok(v), rest, Charged(v, b))
            <==> Decodable(v) && Fits(v, depth, b)
  {
    hide Decode, Decodable, Depth, Nodes, Encode;
    DecodeAccounts(Encode(v) + rest, depth, b);
    if Decodable(v) && Fits(v, depth, b) {
      DecodeEncode(v, rest, depth, b);
    }
  }

  /** A budget nothing in question can exhaust. */
  function Ample(n: nat): Budget
    requires n < USIZE_MAX
  {
    Budget(n, 0, n, 0, n, 0)
  }

  lemma {:induction false} NodesBoundBytes(v: RespValue)
    ensures Nodes(v) <= |Encode(v)|
    decreases Nodes(v), 0
  {
    hide EncodeAll, NodesAll, Encode;
    NodesOfKids(v);
    EncodeParts(v, []);
    NodesBoundBytesAll(Kids(v));
  }

  lemma {:induction false} NodesBoundBytesAll(vs: seq<RespValue>)
    ensures NodesAll(vs) <= |EncodeAll(vs)|
    decreases NodesAll(vs), 1
  {
    hide Encode, Nodes;
    if vs != [] {
      NodesBoundBytes(vs[0]);
      NodesBoundBytesAll(vs[1..]);
    }
  }

  /** No encoding is a proper prefix of another, so a stream of encodings can be
      cut in only one way. */
  lemma PrefixFree(v: RespValue, w: RespValue, r: bytes, s: bytes)
    requires Decodable(v) && Decodable(w) && Depth(v) <= MAX_RESP_DEPTH && Depth(w) <= MAX_RESP_DEPTH
    requires |Encode(v)| < USIZE_MAX && |Encode(w)| < USIZE_MAX
    requires Encode(v) + r == Encode(w) + s
    ensures v == w && r == s
  {
    hide Decode, Decodable, Depth, Nodes, Encode;
    var n := if |Encode(v)| > |Encode(w)| then |Encode(v)| else |Encode(w)|;
    NodesBoundBytes(v);
    NodesBoundBytes(w);
    DecodeEncode(v, r, 0, Ample(n));
    DecodeEncode(w, s, 0, Ample(n));
  }

  /** Reads replies until the stream ends, each on a fresh budget, as the proxy
      and its clients do. */
  function DecodeStream(input: bytes): Option<seq<RespValue>>
    decreases |input|
  {
    if input == [] then Some([])
    else
      var r := Decode(input, 0, FreshBudget(MAX_RESPONSE_BYTES));
      if r.result.Err? || |r.rest| >= |input| then None
      else
        match DecodeStream(r.rest)
        case None => None
        case Some(others) => Some([r.result.value] + others)
  }

  predicate Deliverable(v: RespValue) {
    Decodable(v) && Fits(v, 0, FreshBudget(MAX_RESPONSE_BYTES))
  }

  /** A concatenation of replies decodes to the same replies in the same order. */
  lemma {:induction false} StreamRoundTrip(vs: seq<RespValue>)
    requires forall v :: v in vs ==> Deliverable(v)
    ensures DecodeStream(EncodeAll(vs)) == Some(vs)
  {
    hide Decode, Decodable, Depth, Nodes, Encode, Fits;
    if vs != [] {
      var v := vs[0];
      assert v in vs;
      SequenceBytes(vs, []);
      assert EncodeAll(vs) == Encode(v) + EncodeAll(vs[1..]);
      RoundTrip(v, EncodeAll(vs[1..]), 0, FreshBudget(MAX_RESPONSE_BYTES));
      StreamRoundTrip(vs[1..]);
      assert [v] + vs[1..] == vs;
    }
  }

  // ------------------------------------------------------- bytes that arrive later

  lemma {:induction false} LineLengthExtends(input: bytes, more: bytes)
    requires LineLength(input) > 0 && input[LineLength(input) - 1] == LF
    ensures LineLength(input + more) == LineLength(input)
  {
    if input[0] != LF {
      assert (input + more)[1..] == input[1..] + more;
      LineLengthExtends(input[1..], more);
    }
  }

  lemma ReadHeaderExtends(input: bytes, more: bytes, depth: nat, b: Budget)
    requires ReadHeader(input, depth, b).result.Ok?
    ensures var r := ReadHeader(input, depth, b);
            ReadHeader(input + more, depth, b) == Outcome(r.result, r.rest + more, r.budget)
  {
    var n := LineLength(input);
    var line := input[..n];
    assert line[n - 2..][1] == LF;
    LineLengthExtends(input, more);
    assert (input + more)[..n] == line && (input + more)[n..] == input[n..] + more;
  }

  lemma ReadPayloadExtends(input: bytes, more: bytes, length: nat, b: Budget)
    requires ReadPayload(input, length, b).result.Ok?
    ensures var r := ReadPayload(input, length, b);
            ReadPayload(input + more, length, b) == Outcome(r.result, r.rest + more, r.budget)
  {
    assert (input + more)[..length + 2] == input[..length + 2];
    assert (input + more)[length + 2..] == input[length + 2..] + more;
    assert (input + more)[..length] == input[..length];
  }

  /** A reply that has arrived completely is not affected by what arrives after it. */
  lemma {:induction false} DecodeExtends(input: bytes, more: bytes, depth: nat, b: Budget)
    requires Decode(input, depth, b).result.Ok?
    ensures var r := Decode(input, depth, b);
            Decode(input + more, depth, b) == Outcome(r.result, r.rest + more, r.budget)
    decreases MAX_RESP_DEPTH - depth, 0
  {
    hide DecodeMany, Shaped, ReadHeader, ReadPayload, FromChildren, FromPayload;
    ReadHeaderExtends(input, more, depth, b);
    var h := ReadHeader(input, depth, b);
    var line := h.result.value;
    match Shaped(line[0], line[1..])
    case Payload(length) =>
      ReadPayloadExtends(h.rest, more, length, h.budget);
    case Children(count) =>
      if h.budget.ReserveElements(count).Some? {
        DecodeManyExtends(h.rest, more, count, depth + 1, h.budget.ReserveElements(count).value);
      }
    case _ =>
  }

  lemma {:induction false} DecodeManyExtends(input: bytes, more: bytes, count: nat, depth: nat, b: Budget)
    requires DecodeMany(input, count, depth, b).result.Ok?
    ensures var r := DecodeMany(input, count, depth, b);
            DecodeMany(input + more, count, depth, b) == Outcome(r.result, r.rest + more, r.budget)
    decreases MAX_RESP_DEPTH - depth, count
  {
    hide Decode;
    if count > 0 {
      DecodeExtends(input, more, depth, b);
      var d := Decode(input, depth, b);
      DecodeManyExtends(d.rest, more, count - 1, depth, d.budget);
    }
  }

  // ------------------------------------------------------------------ a roomier budget

  /** `c` leaves at least as much of everything as `b`. */
  predicate Roomier(b: Budget, c: Budget) {
    && c.byteLimit - c.bytesUsed >= b.byteLimit - b.bytesUsed
    && c.nodeLimit - c.nodesUsed >= b.nodeLimit - b.nodesUsed
    && c.elementLimit - c.elementsUsed >= b.elementLimit - b.elementsUsed
  }

  lemma HeaderWithMore(input: bytes, depth: nat, b: Budget, c: Budget)
    requires Strict(b) && Strict(c) && Roomier(b, c) && ReadHeader(input, depth, b).result.Ok?
    ensures var r, s := ReadHeader(input, depth, b), ReadHeader(input, depth, c);
            && s.result == r.result && s.rest == r.rest
            && Strict(r.budget) && Strict(s.budget) && Roomier(r.budget, s.budget)
  {
  }

  lemma PayloadWithMore(input: bytes, length: nat, b: Budget, c: Budget)
    requires Strict(b) && Strict(c) && Roomier(b, c) && ReadPayload(input, length, b).result.Ok?
    ensures var r, s := ReadPayload(input, length, b), ReadPayload(input, length, c);
            && s.result == r.result && s.rest == r.rest
            && Strict(r.budget) && Strict(s.budget) && Roomier(r.budget, s.budget)
  {
  }

  /** What decodes within a budget decodes to the same value within a roomier one. */
  lemma {:induction false} DecodeWithMore(input: bytes, depth: nat, b: Budget, c: Budget)
    requires Strict(b) && Strict(c) && Roomier(b, c) && Decode(input, depth, b).result.Ok?
    ensures var r, s := Decode(input, depth, b), Decode(input, depth, c);
            && s.result == r.result && s.rest == r.rest
            && Strict(r.budget) && Strict(s.budget) && Roomier(r.budget, s.budget)
    decreases MAX_RESP_DEPTH - depth, 0
  {
    hide DecodeMany, Shaped, ReadHeader, ReadPayload, FromChildren, FromPayload;
    HeaderWithMore(input, depth, b, c);
    var h, k := ReadHeader(input, depth, b), ReadHeader(input, depth, c);
    var line := h.result.value;
    match Shaped(line[0], line[1..])
    case Payload(length) =>
      PayloadWithMore(h.rest, length, h.budget, k.budget);
    case Children(count) =>
      DecodeManyWithMore(h.rest, count, depth + 1, h.budget.ReserveElements(count).value,
                         k.budget.ReserveElements(count).value);
    case _ =>
  }

  lemma {:induction false} DecodeManyWithMore(input: bytes, count: nat, depth: nat, b: Budget, c: Budget)
    requires Strict(b) && Strict(c) && Roomier(b, c) && DecodeMany(input, count, depth, b).result.Ok?
    ensures var r, s := DecodeMany(input, count, depth, b), DecodeMany(input, count, depth, c);
            && s.result == r.result && s.rest == r.rest
            && Strict(r.budget) && Strict(s.budget) && Roomier(r.budget, s.budget)
    decreases MAX_RESP_DEPTH - depth, count
  {
    hide Decode, Strict, Roomier;
    if count > 0 {
      DecodeWithMore(input, depth, b, c);
      var d, e := Decode(input, depth, b), Decode(input, depth, c);
      DecodeManyWithMore(d.rest, count - 1, depth, d.budget, e.budget);
    }
  }
}
