/** The codec as the launcher runs it: counters updated in place, a reader that
    is advanced, an output buffer that grows. Each method is proved against the
    functions of `Resp`. */
module RespMethods {
  import opened Prelude
  import opened Decimal
  import opened Resp
  import opened RespRoundTrip

  /** The bytes of a connection that have not been read yet, up to its end. */
  class ByteReader {
    var input: bytes

    constructor (input: bytes)
      ensures this.input == input
    {
      this.input := input;
    }

    /** `read_until(b'\n')`: one line with its line feed, or what is left. */
    method ReadLine() returns (line: bytes)
      modifies this
      ensures line == old(input)[..LineLength(old(input))]
      ensures input == old(input)[LineLength(old(input))..]
    {
      var n := 0;
      while n < |input| && input[n] != LF
        invariant n <= |input|
        invariant forall i :: 0 <= i < n ==> input[i] != LF
      {
        n := n + 1;
      }
      if n < |input| {
        n := n + 1;
        assert input[..n - 1] + [LF] + input[n..] == input;
        LineLengthOf(input[..n - 1], input[n..]);
      } else {
        LineWithoutEnd(input);
      }
      line, input := input[..n], input[n..];
    }

    /** `read_exact`: all of `n` bytes, or an error with the stream used up. */
    method ReadExact(n: nat) returns (data: Option<bytes>)
      modifies this
      ensures if n <= |old(input)|
              then data == Some(old(input)[..n]) && input == old(input)[n..]
              else data == None && input == []
    {
      if n <= |input| {
        data, input := Some(input[..n]), input[n..];
      } else {
        data, input := None, [];
      }
    }
  }

  lemma LineWithoutEnd(s: bytes)
    requires LF !in s
    ensures LineLength(s) == |s|
  {
    assert forall b :: b in s[..LineLength(s)] ==> b in s;
  }

  class ResponseBudget {
    var byteLimit: nat
    var bytesUsed: nat
    var nodeLimit: nat
    var nodesUsed: nat
    var elementLimit: nat
    var elementsUsed: nat

    function View(): Budget
      reads this
    {
      Budget(byteLimit, bytesUsed, nodeLimit, nodesUsed, elementLimit, elementsUsed)
    }

    constructor WithLimits(byteLimit: nat, nodeLimit: nat, elementLimit: nat)
      ensures View() == Budget(byteLimit, 0, nodeLimit, 0, elementLimit, 0)
    {
      this.byteLimit, this.bytesUsed := byteLimit, 0;
      this.nodeLimit, this.nodesUsed := nodeLimit, 0;
      this.elementLimit, this.elementsUsed := elementLimit, 0;
    }

    constructor (byteLimit: nat)
      ensures View() == FreshBudget(byteLimit)
    {
      this.byteLimit, this.bytesUsed := byteLimit, 0;
      this.nodeLimit, this.nodesUsed := MAX_RESPONSE_NODES, 0;
      this.elementLimit, this.elementsUsed := MAX_RESPONSE_ELEMENTS, 0;
    }

    /** Charges bytes, or refuses and charges nothing. */
    method ConsumeBytes(n: nat) returns (ok: bool)
      modifies this`bytesUsed
      ensures old(View()).ConsumeBytes(n) == if ok then Some(View()) else None
      ensures !ok ==> View() == old(View())
      ensures byteLimit < USIZE_MAX ==> (ok <==> old(bytesUsed) + n <= byteLimit)
      ensures byteLimit < USIZE_MAX && ok ==> bytesUsed == old(bytesUsed) + n
    {
      var next := SaturatingAdd(bytesUsed, n);
      if next > byteLimit { return false; }
      bytesUsed := next;
      return true;
    }

    method ConsumeNode() returns (ok: bool)
      modifies this`nodesUsed
      ensures old(View()).ConsumeNode() == if ok then Some(View()) else None
      ensures !ok ==> View() == old(View())
      ensures nodeLimit < USIZE_MAX ==> (ok <==> old(nodesUsed) + 1 <= nodeLimit)
      ensures nodeLimit < USIZE_MAX && ok ==> nodesUsed == old(nodesUsed) + 1
    {
      var next := SaturatingAdd(nodesUsed, 1);
      if next > nodeLimit { return false; }
      nodesUsed := next;
      return true;
    }

    method ReserveElements(n: nat) returns (ok: bool)
      modifies this`elementsUsed
      ensures old(View()).ReserveElements(n) == if ok then Some(View()) else None
      ensures !ok ==> View() == old(View())
      ensures elementLimit < USIZE_MAX ==> (ok <==> old(elementsUsed) + n <= elementLimit)
      ensures elementLimit < USIZE_MAX && ok ==> elementsUsed == old(elementsUsed) + n
    {
      var next := SaturatingAdd(elementsUsed, n);
      if next > elementLimit { return false; }
      elementsUsed := next;
      return true;
    }
  }

  /** The decoder has done what `Decode` says: same result, same bytes taken,
      same counters. */
  ghost predicate Agrees<T>(o: Outcome<T>, r: Result<T, DecodeError>, input: bytes, b: Budget) {
    o == Outcome(r, input, b)
  }

  method ReadPayloadBytes(reader: ByteReader, length: nat, budget: ResponseBudget)
    returns (r: Result<bytes, DecodeError>)
    modifies reader, budget
    ensures Agrees(ReadPayload(old(reader.input), length, old(budget.View())), r, reader.input, budget.View())
  {
    var ok := budget.ConsumeBytes(length + 2);
    if !ok { return Err(ByteBudget); }
    var data := reader.ReadExact(length + 2);
    if data.None? { return Err(TruncatedBlob); }
    if !EndsWithCrlf(data.value) { return Err(BlobWithoutCrlf); }
    assert data.value[..length] == old(reader.input)[..length];
    return Ok(data.value[..length]);
  }

  method ReadHeaderLine(reader: ByteReader, depth: nat, budget: ResponseBudget)
    returns (r: Result<bytes, DecodeError>)
    modifies reader, budget
    ensures Agrees(ReadHeader(old(reader.input), depth, old(budget.View())), r, reader.input, budget.View())
    ensures r.Ok? ==> r.value != [] && depth <= MAX_RESP_DEPTH
  {
    if depth > MAX_RESP_DEPTH { return Err(TooDeep); }
    var ok := budget.ConsumeNode();
    if !ok { return Err(NodeBudget); }
    var line := reader.ReadLine();
    if |line| == 0 { return Err(ConnectionClosed); }
    if !EndsWithCrlf(line) { return Err(LineWithoutCrlf); }
    ok := budget.ConsumeBytes(|line|);
    if !ok { return Err(ByteBudget); }
    line := line[..|line| - 2];
    if line == [] { return Err(EmptyLine); }
    return Ok(line);
  }

  /** Decodes one reply in place. */
  method ReadValueBudgeted(reader: ByteReader, depth: nat, budget: ResponseBudget)
    returns (r: Result<RespValue, DecodeError>)
    modifies reader, budget
    ensures Agrees(Decode(old(reader.input), depth, old(budget.View())), r, reader.input, budget.View())
    decreases MAX_RESP_DEPTH + 1 - depth, 0
  {
    hide DecodeMany, ReadHeader, ReadPayload;
    var header := ReadHeaderLine(reader, depth, budget);
    if header.Err? { return Err(header.error); }
    var prefix, payload := header.value[0], header.value[1..];
    var shape := Shaped(prefix, payload);
    if prefix == '$' as int || prefix == '!' as int || prefix == '=' as int {
      if prefix == '$' as int && ParseI64(payload) == Some(-1) { return Ok(NullBulk); }
      var length := Length(payload, MAX_RESP_BULK_LENGTH);
      if length.Err? { return Err(length.error); }
      var data := ReadPayloadBytes(reader, length.value, budget);
      if data.Err? { return Err(data.error); }
      return Ok(FromPayload(prefix, data.value));
    } else if prefix == '*' as int || prefix == '~' as int || prefix == '>' as int {
      if prefix == '*' as int && ParseI64(payload) == Some(-1) { return Ok(NullArray); }
      var length := Length(payload, MAX_RESP_ARRAY_LENGTH);
      if length.Err? { return Err(length.error); }
      var ok := budget.ReserveElements(length.value);
      if !ok { return Err(ElementBudget); }
      var values := ReadValues(reader, length.value, depth + 1, budget);
      if values.Err? { return Err(values.error); }
      return Ok(FromChildren(prefix, values.value));
    } else if prefix == '%' as int {
      var length := Length(payload, MAX_RESP_ARRAY_LENGTH);
      if length.Err? { return Err(length.error); }
      var ok := budget.ReserveElements(2 * length.value);
      if !ok { return Err(ElementBudget); }
      var entries := ReadEntries(reader, length.value, depth + 1, budget);
      if entries.Err? { return Err(entries.error); }
      return Ok(Map(entries.value));
    } else {
      match shape
      case Leaf(value) => return Ok(value);
      case Bad(error) => return Err(error);
    }
  }

  function Prepend(values: seq<RespValue>, o: Outcome<seq<RespValue>>): Outcome<seq<RespValue>> {
    match o.result
    case Err(_) => o
    case Ok(others) => o.(result := Ok(values + others))
  }

  /** One step of a loop that decodes `count` replies. */
  lemma Continue(values: seq<RespValue>, input: bytes, count: nat, depth: nat, b: Budget)
    requires count > 0
    ensures var d := Decode(input, depth, b);
            Prepend(values, DecodeMany(input, count, depth, b))
            == if d.result.Err? then Outcome(Err(d.result.error), d.rest, d.budget)
               else Prepend(values + [d.result.value], DecodeMany(d.rest, count - 1, depth, d.budget))
  {
    hide Decode;
    var d := Decode(input, depth, b);
    if d.result.Ok? {
      var m := DecodeMany(d.rest, count - 1, depth, d.budget);
      if m.result.Ok? {
        assert values + ([d.result.value] + m.result.value) == (values + [d.result.value]) + m.result.value;
      }
    }
  }

  lemma PrependNothing(o: Outcome<seq<RespValue>>)
    ensures Prepend([], o) == o
  {
    if o.result.Ok? {
      assert [] + o.result.value == o.result.value;
    }
  }

  lemma NoneLeft(values: seq<RespValue>, input: bytes, depth: nat, b: Budget)
    ensures Prepend(values, DecodeMany(input, 0, depth, b)) == Outcome(Ok(values), input, b)
  {
    assert values + [] == values;
  }

  method ReadValues(reader: ByteReader, length: nat, depth: nat, budget: ResponseBudget)
    returns (r: Result<seq<RespValue>, DecodeError>)
    modifies reader, budget
    ensures Agrees(DecodeMany(old(reader.input), length, depth, old(budget.View())), r, reader.input, budget.View())
    decreases MAX_RESP_DEPTH + 1 - depth, 1
  {
    hide Decode, DecodeMany;
    ghost var goal := DecodeMany(reader.input, length, depth, budget.View());
    var values: seq<RespValue> := [];
    PrependNothing(goal);
    while |values| < length
      invariant |values| <= length
      invariant goal == Prepend(values, DecodeMany(reader.input, length - |values|, depth, budget.View()))
    {
      Continue(values, reader.input, length - |values|, depth, budget.View());
      var value := ReadValueBudgeted(reader, depth, budget);
      if value.Err? { return Err(value.error); }
      values := values + [value.value];
    }
    NoneLeft(values, reader.input, depth, budget.View());
    return Ok(values);
  }

  lemma {:induction false} FlattenSnoc(entries: seq<(RespValue, RespValue)>, k: RespValue, v: RespValue)
    ensures Flatten(entries + [(k, v)]) == Flatten(entries) + [k] + [v]
  {
    if entries == [] {
      assert Flatten([(k, v)]) == [k, v] + Flatten([(k, v)][1..]);
    } else {
      FlattenSnoc(entries[1..], k, v);
      assert (entries + [(k, v)])[1..] == entries[1..] + [(k, v)];
    }
  }

  method ReadEntries(reader: ByteReader, length: nat, depth: nat, budget: ResponseBudget)
    returns (r: Result<seq<(RespValue, RespValue)>, DecodeError>)
    modifies reader, budget
    ensures Agrees(DecodeMany(old(reader.input), 2 * length, depth, old(budget.View())),
                   if r.Ok? then Ok(Flatten(r.value)) else Err(r.error), reader.input, budget.View())
    ensures r.Ok? ==> Pair(Flatten(r.value)) == r.value
    decreases MAX_RESP_DEPTH + 1 - depth, 1
  {
    hide Decode, DecodeMany;
    ghost var goal := DecodeMany(reader.input, 2 * length, depth, budget.View());
    var entries: seq<(RespValue, RespValue)> := [];
    PrependNothing(goal);
    while |entries| < length
      invariant |entries| <= length
      invariant goal == Prepend(Flatten(entries),
                                DecodeMany(reader.input, 2 * (length - |entries|), depth, budget.View()))
    {
      Continue(Flatten(entries), reader.input, 2 * (length - |entries|), depth, budget.View());
      var key := ReadValueBudgeted(reader, depth, budget);
      if key.Err? { return Err(key.error); }
      Continue(Flatten(entries) + [key.value], reader.input, 2 * (length - |entries|) - 1, depth, budget.View());
      var value := ReadValueBudgeted(reader, depth, budget);
      if value.Err? { return Err(value.error); }
      FlattenSnoc(entries, key.value, value.value);
      entries := entries + [(key.value, value.value)];
    }
    NoneLeft(Flatten(entries), reader.input, depth, budget.View());
    PairFlatten(entries);
    return Ok(entries);
  }

  // ------------------------------------------------------------------ encoding

  class Buffer {
    var data: bytes

    constructor ()
      ensures data == []
    {
      data := [];
    }
  }

  predicate WithinLimit(n: nat, limit: nat) {
    SaturatingAdd(n, 0) <= limit
  }

  /** `out` grew by all of `code` exactly when that stays within the limit;
      otherwise it grew by a proper part of it, or not at all, and stays within the limit. */
  predicate Appended(ok: bool, before: bytes, after: bytes, code: bytes, limit: nat) {
    && (ok <==> WithinLimit(|before| + |code|, limit))
    && (ok ==> after == before + code)
    && (!ok ==> && |before| <= |after| && (|after| < |before| + |code| || after == before)
                && after == (before + code)[..|after|]
                && (WithinLimit(|before|, limit) ==> WithinLimit(|after|, limit)))
  }

  method Append(out: Buffer, code: bytes, limit: nat) returns (ok: bool)
    requires limit <= USIZE_MAX
    modifies out
    ensures Appended(ok, old(out.data), out.data, code, limit)
  {
    if SaturatingAdd(|out.data|, |code|) > limit {
      assert out.data == (out.data + code)[..|out.data|];
      return false;
    }
    out.data := out.data + code;
    return true;
  }

  /** Appending in two steps is appending at once. */
  lemma AppendedTwice(before: bytes, middle: bytes, after: bytes, c: bytes, d: bytes, ok: bool, limit: nat)
    requires limit <= USIZE_MAX && d != []
    requires middle == before + c && WithinLimit(|middle|, limit)
    requires Appended(ok, middle, after, d, limit)
    ensures Appended(ok, before, after, c + d, limit)
  {
    assert before + (c + d) == middle + d;
  }

  lemma AppendedFails(before: bytes, after: bytes, c: bytes, d: bytes, limit: nat)
    requires limit <= USIZE_MAX && Appended(false, before, after, c, limit)
    ensures Appended(false, before, after, c + d, limit)
  {
    assert (before + (c + d))[..|after|] == (before + c)[..|after|];
  }

  /** Serializes a value without letting `out` pass the limit. */
  method EncodeValue(value: RespValue, out: Buffer, limit: nat) returns (ok: bool)
    requires limit <= USIZE_MAX
    modifies out
    ensures Appended(ok, old(out.data), out.data, Encode(value), limit)
    decreases Nodes(value), 0
  {
    hide Encode, EncodeAll, Nodes, NodesAll, HeadLine, HeadText;
    ghost var before := out.data;
    var head := HeadLine(value) + CRLF;
    EncodeParts(value, []);
    ghost var tail := Blob(value) + EncodeAll(Kids(value));
    assert Encode(value) == head + tail by {
      assert Encode(value) + [] == Encode(value);
      assert tail + [] == tail;
    }
    if value.Simple? || value.Error? {
      ok := AppendTextLine(value, out, limit);
    } else {
      ok := Append(out, head, limit);
    }
    if !ok {
      AppendedFails(before, out.data, head, tail, limit);
      return;
    }
    ghost var middle := out.data;
    match value {
      case Bulk(data) =>
        ok := AppendPayload(out, data, limit);
        PayloadTail(value);
        AppendedTwice(before, middle, out.data, head, tail, ok, limit);
      case BlobError(blob) =>
        ok := AppendPayload(out, blob, limit);
        PayloadTail(value);
        AppendedTwice(before, middle, out.data, head, tail, ok, limit);
      case Verbatim(blob) =>
        ok := AppendPayload(out, blob, limit);
        PayloadTail(value);
        AppendedTwice(before, middle, out.data, head, tail, ok, limit);
      case Map(_) =>
        ok := EncodeChildren(value, out, head, before, limit);
      case Array(_) =>
        ok := EncodeChildren(value, out, head, before, limit);
      case Set(_) =>
        ok := EncodeChildren(value, out, head, before, limit);
      case Push(_) =>
        ok := EncodeChildren(value, out, head, before, limit);
      case _ =>
        LeafTail(value);
        assert head + tail == head;
    }
  }

  /** Simple strings and errors are written in three pieces. */
  method AppendTextLine(value: RespValue, out: Buffer, limit: nat) returns (ok: bool)
    requires limit <= USIZE_MAX && (value.Simple? || value.Error?)
    modifies out
    ensures Appended(ok, old(out.data), out.data, HeadLine(value) + CRLF, limit)
  {
    ghost var before := out.data;
    ghost var prefix := [Prefix(value)];
    assert HeadLine(value) + CRLF == prefix + (value.text + CRLF);
    ok := Append(out, [Prefix(value)], limit);
    if !ok {
      AppendedFails(before, out.data, prefix, value.text + CRLF, limit);
      return;
    }
    ghost var middle := out.data;
    ok := AppendPayload(out, value.text, limit);
    AppendedTwice(before, middle, out.data, prefix, value.text + CRLF, ok, limit);
  }

  lemma PayloadTail(v: RespValue)
    requires HasPayload(v)
    ensures Blob(v) + EncodeAll(Kids(v)) == PayloadOf(v) + CRLF
  {
  }

  lemma LeafTail(v: RespValue)
    requires !HasPayload(v) && !IsAggregate(v)
    ensures Blob(v) + EncodeAll(Kids(v)) == []
  {
  }

  /** Data and CRLF as two pieces. */
  method AppendPayload(out: Buffer, data: bytes, limit: nat) returns (ok: bool)
    requires limit <= USIZE_MAX
    requires WithinLimit(|out.data|, limit)
    modifies out
    ensures Appended(ok, old(out.data), out.data, data + CRLF, limit)
  {
    ghost var before := out.data;
    ok := Append(out, data, limit);
    if !ok {
      AppendedFails(before, out.data, data, CRLF, limit);
      return;
    }
    ghost var middle := out.data;
    assert middle == before + data;
    ok := Append(out, CRLF, limit);
    AppendedTwice(before, middle, out.data, data, CRLF, ok, limit);
  }

  lemma {:induction false} EncodeAllSnoc(vs: seq<RespValue>, v: RespValue)
    ensures EncodeAll(vs + [v]) == EncodeAll(vs) + Encode(v)
    ensures NodesAll(vs + [v]) == NodesAll(vs) + Nodes(v)
  {
    hide Encode, Nodes;
    if vs == [] {
      assert [v][1..] == [];
      assert vs + [v] == [v];
    } else {
      EncodeAllSnoc(vs[1..], v);
      assert (vs + [v])[1..] == vs[1..] + [v];
    }
  }

  lemma EncodeAllTail(vs: seq<RespValue>, i: nat)
    requires i < |vs|
    ensures EncodeAll(vs[..i + 1]) == EncodeAll(vs[..i]) + Encode(vs[i])
    ensures EncodeAll(vs) == EncodeAll(vs[..i + 1]) + EncodeAll(vs[i + 1..])
  {
    hide Encode, EncodeAll, Nodes, NodesAll;
    assert vs[..i + 1] == vs[..i] + [vs[i]];
    EncodeAllSnoc(vs[..i], vs[i]);
    EncodeAllSplit(vs[..i + 1], vs[i + 1..]);
    assert vs[..i + 1] + vs[i + 1..] == vs;
  }

  lemma {:induction false} EncodeAllSplit(s: seq<RespValue>, t: seq<RespValue>)
    ensures EncodeAll(s + t) == EncodeAll(s) + EncodeAll(t)
  {
    hide Encode;
    if s == [] {
      assert s + t == t;
    } else {
      EncodeAllSplit(s[1..], t);
      assert (s + t)[1..] == s[1..] + t;
    }
  }

  /** One turn of the loop over the children of an aggregate. */
  lemma ChildAppended(head: bytes, done: bytes, code: bytes, others: bytes,
                      before: bytes, middle: bytes, after: bytes, ok: bool, limit: nat)
    requires limit <= USIZE_MAX && code != []
    requires middle == before + (head + done) && WithinLimit(|middle|, limit)
    requires Appended(ok, middle, after, code, limit)
    ensures ok ==> after == before + (head + (done + code)) && WithinLimit(|after|, limit)
    ensures !ok ==> Appended(false, before, after, head + ((done + code) + others), limit)
  {
    hide Appended, WithinLimit;
    Assoc(head, done, code);
    AppendedTwice(before, middle, after, head + done, code, ok, limit);
    if ok {
      AppendedWhole(before, after, head + (done + code), limit);
    } else {
      AppendedFails(before, after, head + (done + code), others, limit);
      Assoc(head, done + code, others);
    }
  }

  /** The loops over the children of an aggregate. */
  method EncodeChildren(value: RespValue, out: Buffer, ghost head: bytes, ghost before: bytes, limit: nat)
    returns (ok: bool)
    requires limit <= USIZE_MAX && IsAggregate(value)
    requires out.data == before + head && WithinLimit(|out.data|, limit)
    modifies out
    ensures Appended(ok, before, out.data, head + (Blob(value) + EncodeAll(Kids(value))), limit)
    decreases Nodes(value), 0, 0
  {
    hide Encode, EncodeAll, Nodes, NodesAll, Appended, WithinLimit, Kids, Blob, Depth, DepthAll;
    AggregateParts(value);
    var kids := Kids(value);
    assert Blob(value) + EncodeAll(kids) == EncodeAll(kids);
    var i := 0;
    NothingToDecode([], 0, FreshBudget(0));
    assert kids[..0] == [] && head + [] == head;
    while i < |kids|
      invariant 0 <= i <= |kids|
      invariant out.data == before + (head + EncodeAll(kids[..i])) && WithinLimit(|out.data|, limit)
    {
      NodesAt(kids, i);
      EncodeAllTail(kids, i);
      ghost var middle := out.data;
      ok := EncodeValue(kids[i], out, limit);
      ChildAppended(head, EncodeAll(kids[..i]), Encode(kids[i]), EncodeAll(kids[i + 1..]),
                    before, middle, out.data, ok, limit);
      if !ok { return; }
      i := i + 1;
    }
    assert kids[..i] == kids;
    AppendedAll(before, out.data, head + EncodeAll(kids), limit);
    ok := true;
  }

  lemma AppendedWhole(before: bytes, after: bytes, code: bytes, limit: nat)
    requires Appended(true, before, after, code, limit)
    ensures after == before + code && WithinLimit(|after|, limit)
  {
  }

  lemma AppendedAll(before: bytes, after: bytes, code: bytes, limit: nat)
    requires after == before + code && WithinLimit(|after|, limit)
    ensures Appended(true, before, after, code, limit)
  {
  }
}
