/** Decoding a reply and encoding it again, as the proxy does for every
    forwarded command. */
module RespReencode {
  import opened Prelude
  import opened Decimal
  import opened Utf8
  import opened Resp
  import opened RespRoundTrip
  import opened RespAccounting

  // ------------------------------------------------------ the lines of a reply

  /** The header lines the decoder reads, in order, without their CRLF. */
  function HeaderLines(input: bytes, depth: nat, b: Budget): seq<bytes>
    decreases MAX_RESP_DEPTH - depth, 0
  {
    match ReadHeader(input, depth, b)
    case Outcome(Err(_), _, _) => []
    case Outcome(Ok(line), rest, b1) =>
      match Shaped(line[0], line[1..]) {
        case Children(count) =>
          (match b1.ReserveElements(count)
           case None => [line]
           case Some(b2) => [line] + HeaderLinesMany(rest, count, depth + 1, b2))
        case _ => [line]
      }
  }

  function HeaderLinesMany(input: bytes, count: nat, depth: nat, b: Budget): seq<bytes>
    decreases MAX_RESP_DEPTH - depth, count
  {
    if count == 0 then []
    else
      var d := Decode(input, depth, b);
      HeaderLines(input, depth, b)
      + (if d.result.Err? then [] else HeaderLinesMany(d.rest, count - 1, depth, d.budget))
  }

  /** A `-` line whose payload is UTF-8, or any other line. */
  predicate Clean(line: bytes) {
    line != [] && line[0] == '-' as int ==> ValidUtf8(line[1..])
  }

  /** A line the encoder would write itself: clean, its number without `+`,
      leading zero or `-0`, and nothing after the `_` of a null. */
  predicate CanonicalLine(line: bytes) {
    line != [] ==>
      if line[0] == '-' as int then ValidUtf8(line[1..])
      else if line[0] == '_' as int then |line| == 1
      else if HasNumber(line[0]) then CanonicalNumber(line[1..])
      else true
  }

  /** `:`, `$`, `*`, `!`, `=`, `%`, `~` and `>`. */
  predicate HasNumber(prefix: byte) {
    || prefix == 58 || prefix == 36 || prefix == 42 || prefix == 33
    || prefix == 61 || prefix == 37 || prefix == 126 || prefix == 62
  }

  predicate AllClean(lines: seq<bytes>) {
    forall i :: 0 <= i < |lines| ==> Clean(lines[i])
  }

  predicate AllCanonical(lines: seq<bytes>) {
    forall i :: 0 <= i < |lines| ==> CanonicalLine(lines[i])
  }

  lemma CleanFirst(line: bytes, lines: seq<bytes>)
    ensures AllClean([line] + lines) <==> Clean(line) && AllClean(lines)
  {
    CleanConcat([line], lines);
    assert AllClean([line]) <==> Clean([line][0]);
  }

  lemma CanonicalFirst(line: bytes, lines: seq<bytes>)
    ensures AllCanonical([line] + lines) <==> CanonicalLine(line) && AllCanonical(lines)
  {
    CanonicalConcat([line], lines);
    assert AllCanonical([line]) <==> CanonicalLine([line][0]);
  }

  lemma CleanConcat(s: seq<bytes>, t: seq<bytes>)
    ensures AllClean(s + t) <==> AllClean(s) && AllClean(t)
  {
    assert forall i :: 0 <= i < |s| ==> (s + t)[i] == s[i];
    assert forall i :: 0 <= i < |t| ==> (s + t)[|s| + i] == t[i];
  }

  lemma CanonicalConcat(s: seq<bytes>, t: seq<bytes>)
    ensures AllCanonical(s + t) <==> AllCanonical(s) && AllCanonical(t)
  {
    assert forall i :: 0 <= i < |s| ==> (s + t)[i] == s[i];
    assert forall i :: 0 <= i < |t| ==> (s + t)[|s| + i] == t[i];
  }

  // ---------------------------------------------------------- one line at a time

  /** `v` was read from a reply that starts with `line`. */
  predicate Announced(line: bytes, v: RespValue) {
    line != [] &&
    match Shaped(line[0], line[1..])
    case Leaf(x) => v == x
    case Payload(n) => HasPayload(v) && |PayloadOf(v)| == n && v == FromPayload(line[0], PayloadOf(v))
    case Children(n) =>
      && IsAggregate(v) && |Kids(v)| == n
      && (line[0] == '%' as int ==> n % 2 == 0) && v == FromChildren(line[0], Kids(v))
    case Bad(_) => false
  }

  lemma AnnouncedNumber(line: bytes, v: RespValue)
    requires Announced(line, v) && HasNumber(line[0])
    ensures Prefix(v) == line[0] && HasNumericHead(v) && ParseSigned(line[1..]) == Some(NumberIn(v))
  {
    hide Lossy, ValidUtf8, ParseSigned;
  }

  lemma AnnouncedText(line: bytes, v: RespValue)
    requires Announced(line, v) && !HasNumber(line[0])
    ensures Prefix(v) == line[0]
    ensures HeadText(v) == if line[0] == '-' as int then Lossy(line[1..])
                           else if line[0] == '_' as int then []
                           else line[1..]
  {
    hide Lossy, ValidUtf8, ParseSigned, ParseI64;
  }

  /** The line written back is no longer than the line read when that was clean,
      and is the same line exactly when that was canonical. */
  lemma HeadLineAgain(line: bytes, v: RespValue)
    requires Announced(line, v)
    ensures Clean(line) ==> |HeadLine(v)| <= |line|
    ensures HeadLine(v) == line <==> CanonicalLine(line)
  {
    assert line != [];
    hide Lossy, ValidUtf8, ParseSigned, ParseI64, HeadText, Shaped, Announced;
    var text := line[1..];
    assert line == [line[0]] + text;
    assert HeadLine(v) == line <==> Prefix(v) == line[0] && HeadText(v) == text;
    if HasNumber(line[0]) {
      AnnouncedNumber(line, v);
      PrintParse(text);
    } else {
      AnnouncedText(line, v);
      LossyRepairs(text);
    }
  }

  // ---------------------------------------------------------------- whole replies

  lemma {:induction false} NeverGrows(input: bytes, depth: nat, b: Budget)
    requires Strict(b) && Decode(input, depth, b).result.Ok?
    requires AllClean(HeaderLines(input, depth, b))
    ensures var r := Decode(input, depth, b);
            IsSuffix(r.rest, input) && |Encode(r.result.value)| <= |input| - |r.rest|
    decreases MAX_RESP_DEPTH - depth, 0
  {
    hide Decode, DecodeMany, HeaderLines, HeaderLinesMany, Encode, EncodeAll, ReadHeader, Shaped, Announced, HeadLine,
         Clean, AllClean, Kids, Blob, Decodable, Nodes, Depth;
    DecodedParts(input, depth, b);
    var d, h := Decode(input, depth, b), ReadHeader(input, depth, b);
    var line, v := h.result.value, d.result.value;
    HeadLineAgain(line, v);
    EncodeParts(v, []);
    if IsAggregate(v) {
      var b2, n := AfterReserve(input, depth, b), |Kids(v)|;
      CleanFirst(line, HeaderLinesMany(h.rest, n, depth + 1, b2));
      NeverGrowsMany(h.rest, n, depth + 1, b2);
      AggregateParts(v);
    } else {
      assert [line] + [] == [line];
      CleanFirst(line, []);
      EmptyEncodes(v);
    }
  }

  /** An encoding matches the stream exactly when its first line and its body do. */
  lemma EncodingMatches(input: bytes, depth: nat, b: Budget)
    requires Strict(b) && Decode(input, depth, b).result.Ok?
    ensures var d, h := Decode(input, depth, b), ReadHeader(input, depth, b);
            && IsSuffix(d.rest, input) && h.result.Ok? && IsSuffix(d.rest, h.rest)
            && (Encode(d.result.value) == Consumed(input, d.rest)
                <==> && CanonicalLine(h.result.value)
                     && Blob(d.result.value) + EncodeAll(Kids(d.result.value)) == Consumed(h.rest, d.rest))
  {
    hide Decode, DecodeMany, HeaderLines, HeaderLinesMany, Encode, EncodeAll, ReadHeader, Shaped, Announced,
         CanonicalLine, HeadLine, Kids, Blob;
    DecodedParts(input, depth, b);
    HeaderAccounts(input, depth, b);
    var d, h := Decode(input, depth, b), ReadHeader(input, depth, b);
    var line, v := h.result.value, d.result.value;
    var mine := Blob(v) + EncodeAll(Kids(v));
    HeadLineAgain(line, v);
    HeadLineIsCut(line, v, mine, Consumed(h.rest, d.rest));
    EncodeParts(v, []);
    assert Encode(v) + [] == Encode(v) && mine + [] == mine;
  }

  lemma EmptyEncodes(v: RespValue)
    requires !IsAggregate(v)
    ensures EncodeAll(Kids(v)) == []
  {
  }

  /** The budget with which the children of an aggregate are read. */
  function AfterReserve(input: bytes, depth: nat, b: Budget): Budget
    requires Decode(input, depth, b).result.Ok? && IsAggregate(Decode(input, depth, b).result.value)
  {
    var h := ReadHeader(input, depth, b);
    h.budget.Charge(0, 0, |Kids(Decode(input, depth, b).result.value)|)
  }

  /** How a decoded reply lies in the stream: its header line, then its payload
      or its children, then the rest. */
  lemma DecodedParts(input: bytes, depth: nat, b: Budget)
    requires Strict(b) && Decode(input, depth, b).result.Ok?
    ensures var d, h := Decode(input, depth, b), ReadHeader(input, depth, b);
            && h.result.Ok? && Strict(h.budget) && Announced(h.result.value, d.result.value)
            && IsSuffix(h.rest, input) && IsSuffix(d.rest, h.rest) && IsSuffix(d.rest, input)
            && Consumed(input, d.rest) == h.result.value + CRLF + Consumed(h.rest, d.rest)
            && (IsAggregate(d.result.value) ==>
                  var b2, n := AfterReserve(input, depth, b), |Kids(d.result.value)|;
                  && Strict(b2) && depth < MAX_RESP_DEPTH + 1
                  && DecodeMany(h.rest, n, depth + 1, b2) == Outcome(Ok(Kids(d.result.value)), d.rest, d.budget)
                  && HeaderLines(input, depth, b)
                     == [h.result.value] + HeaderLinesMany(h.rest, n, depth + 1, b2))
            && (!IsAggregate(d.result.value) ==>
                  && Consumed(h.rest, d.rest) == Blob(d.result.value)
                  && HeaderLines(input, depth, b) == [h.result.value])
  {
    hide DecodeMany, HeaderLinesMany, Shaped, ReadHeader, ReadPayload, Encode, FromChildren, FromPayload, Kids, Blob,
         LocallyDecodable;
    HeaderCharges(input, depth, b);
    HeaderAccounts(input, depth, b);
    var d, h := Decode(input, depth, b), ReadHeader(input, depth, b);
    var line, v := h.result.value, d.result.value;
    match Shaped(line[0], line[1..])
    case Leaf(_) =>
      ShapedLeaf(line);
    case Payload(length) =>
      PayloadAccounts(h.rest, length, h.budget);
      ShapedPayload(line, ReadPayload(h.rest, length, h.budget).result.value);
      PayloadBlob(v);
      SuffixTrans(input, h.rest, d.rest);
    case Children(count) =>
      var b2 := h.budget.ReserveElements(count).value;
      DecodeManyAccounts(h.rest, count, depth + 1, b2);
      FromChildrenIsDecodable(line, DecodeMany(h.rest, count, depth + 1, b2).result.value);
      SuffixTrans(input, h.rest, d.rest);
  }

  lemma PayloadBlob(v: RespValue)
    requires HasPayload(v)
    ensures Blob(v) == PayloadOf(v) + CRLF && !IsAggregate(v)
  {
  }

  lemma {:induction false} NeverGrowsMany(input: bytes, count: nat, depth: nat, b: Budget)
    requires Strict(b) && DecodeMany(input, count, depth, b).result.Ok?
    requires AllClean(HeaderLinesMany(input, count, depth, b))
    ensures var r := DecodeMany(input, count, depth, b);
            IsSuffix(r.rest, input) && |EncodeAll(r.result.value)| <= |input| - |r.rest|
    decreases MAX_RESP_DEPTH - depth, count
  {
    hide Decode, HeaderLines, Encode, Decodable, DecodableAll, Nodes, Depth;
    if count > 0 {
      var d := Decode(input, depth, b);
      DecodeAccounts(input, depth, b);
      CleanConcat(HeaderLines(input, depth, b), HeaderLinesMany(d.rest, count - 1, depth, d.budget));
      NeverGrows(input, depth, b);
      NeverGrowsMany(d.rest, count - 1, depth, d.budget);
      SequenceOf(d.result.value, DecodeMany(d.rest, count - 1, depth, d.budget).result.value);
    }
  }

  /** A clean reply goes through the proxy: its re-encoding fits wherever the
      reply itself fitted, and decodes to the same value again. */
  lemma ReencodeFits(input: bytes, depth: nat, b: Budget, rest: bytes)
    requires Strict(b) && Decode(input, depth, b).result.Ok?
    requires AllClean(HeaderLines(input, depth, b))
    ensures var v := Decode(input, depth, b).result.value;
            && b.bytesUsed + |Encode(v)| <= b.byteLimit
            && Decode(Encode(v) + rest, depth, b) == Outcome(Ok(v), rest, Charged(v, b))
  {
    hide Decode, HeaderLines, Encode, Decodable, Nodes, Depth;
    NeverGrows(input, depth, b);
    DecodeAccounts(input, depth, b);
    RoundTrip(Decode(input, depth, b).result.value, rest, depth, b);
  }

  // -------------------------------------------------------------- exactly how much it grows

  /** How long the header line is that the encoder writes for a header line read: an error
      text is repaired, a null loses its payload and a number is printed anew. */
  function WrittenLength(line: bytes): nat
    requires line != []
  {
    if line[0] == '-' as int then 1 + |Lossy(line[1..])|
    else if line[0] == '_' as int then 1
    else if HasNumber(line[0]) && ParseSigned(line[1..]).Some? then 1 + |PrintInt(ParseSigned(line[1..]).value)|
    else |line|
  }

  /** The bytes by which rewriting these header lines lengthens them all together. */
  function Growth(lines: seq<bytes>): int {
    if lines == [] then 0
    else (if lines[0] == [] then 0 else WrittenLength(lines[0]) - |lines[0]|) + Growth(lines[1..])
  }

  lemma {:induction false} GrowthConcat(s: seq<bytes>, t: seq<bytes>)
    ensures Growth(s + t) == Growth(s) + Growth(t)
  {
    hide WrittenLength;
    if s == [] {
      assert s + t == t;
    } else {
      assert (s + t)[1..] == s[1..] + t;
      GrowthConcat(s[1..], t);
    }
  }

  lemma GrowthFirst(line: bytes, lines: seq<bytes>)
    requires line != []
    ensures Growth([line] + lines) == WrittenLength(line) - |line| + Growth(lines)
  {
    hide WrittenLength;
    assert ([line] + lines)[1..] == lines;
  }

  lemma HeadLineLength(line: bytes, v: RespValue)
    requires Announced(line, v)
    ensures line != [] && |HeadLine(v)| == WrittenLength(line)
  {
    hide Lossy, ParseSigned, ParseI64, Shaped, Announced;
    assert line != [] by { AnnouncedIsNotEmpty(line, v); }
    hide HeadText;
    if HasNumber(line[0]) {
      AnnouncedNumber(line, v);
      NumericHead(v);
    } else {
      AnnouncedText(line, v);
    }
  }

  lemma AnnouncedIsNotEmpty(line: bytes, v: RespValue)
    requires Announced(line, v)
    ensures line != []
  {
  }

  lemma NumericHead(v: RespValue)
    requires HasNumericHead(v)
    ensures HeadText(v) == PrintInt(NumberIn(v))
  {
  }

  /** Re-encoding takes exactly the bytes consumed plus what its header lines grow by. */
  lemma {:induction false} GrowsExactly(input: bytes, depth: nat, b: Budget)
    requires Strict(b) && Decode(input, depth, b).result.Ok?
    ensures var r := Decode(input, depth, b);
            && IsSuffix(r.rest, input)
            && |Encode(r.result.value)| == |input| - |r.rest| + Growth(HeaderLines(input, depth, b))
    decreases MAX_RESP_DEPTH - depth, 0
  {
    hide Decode, DecodeMany, HeaderLines, HeaderLinesMany, Encode, EncodeAll, ReadHeader, Shaped, Announced, HeadLine,
         WrittenLength, Growth, Kids, Blob, Decodable, Nodes, Depth;
    DecodedParts(input, depth, b);
    var d, h := Decode(input, depth, b), ReadHeader(input, depth, b);
    var line, v := h.result.value, d.result.value;
    HeadLineLength(line, v);
    EncodeParts(v, []);
    if IsAggregate(v) {
      var b2, n := AfterReserve(input, depth, b), |Kids(v)|;
      GrowthFirst(line, HeaderLinesMany(h.rest, n, depth + 1, b2));
      GrowsExactlyMany(h.rest, n, depth + 1, b2);
      AggregateParts(v);
    } else {
      assert [line] + [] == [line];
      GrowthFirst(line, []);
      NoGrowth();
      EmptyEncodes(v);
    }
  }

  lemma NoGrowth()
    ensures Growth([]) == 0
  {
  }

  lemma {:induction false} GrowsExactlyMany(input: bytes, count: nat, depth: nat, b: Budget)
    requires Strict(b) && DecodeMany(input, count, depth, b).result.Ok?
    ensures var r := DecodeMany(input, count, depth, b);
            && IsSuffix(r.rest, input)
            && |EncodeAll(r.result.value)| == |input| - |r.rest| + Growth(HeaderLinesMany(input, count, depth, b))
    decreases MAX_RESP_DEPTH - depth, count
  {
    hide Decode, HeaderLines, Encode, Decodable, DecodableAll, Nodes, Depth, Growth;
    if count > 0 {
      var d := Decode(input, depth, b);
      DecodeAccounts(input, depth, b);
      GrowthConcat(HeaderLines(input, depth, b), HeaderLinesMany(d.rest, count - 1, depth, d.budget));
      GrowsExactly(input, depth, b);
      GrowsExactlyMany(d.rest, count - 1, depth, d.budget);
      SequenceOf(d.result.value, DecodeMany(d.rest, count - 1, depth, d.budget).result.value);
    } else {
      NoGrowth();
    }
  }

  /** The encode step, with the decoder's own limit, succeeds exactly when the bytes of the
      reply and its growth together stay within it - and then, and only then, the reply
      written again decodes to the same value wherever it was decoded. */
  lemma EncodeStepSucceedsExactly(input: bytes, depth: nat, b: Budget, rest: bytes)
    requires Strict(b) && Decode(input, depth, b).result.Ok?
    ensures var r := Decode(input, depth, b);
            var v := r.result.value;
            var grown := |input| - |r.rest| + Growth(HeaderLines(input, depth, b));
            && (|Encode(v)| > |input| - |r.rest| <==> Growth(HeaderLines(input, depth, b)) > 0)
            && (b.bytesUsed + |Encode(v)| <= b.byteLimit <==> b.bytesUsed + grown <= b.byteLimit)
            && (Decode(Encode(v) + rest, depth, b) == Outcome(Ok(v), rest, Charged(v, b))
                <==> b.bytesUsed + grown <= b.byteLimit)
  {
    hide Decode, HeaderLines, Encode, Decodable, Nodes, Depth, Growth;
    GrowsExactly(input, depth, b);
    DecodeAccounts(input, depth, b);
    RoundTrip(Decode(input, depth, b).result.value, rest, depth, b);
  }

  /** Only repaired error lines ever grow: a header line is written longer than it was read
      exactly when repairing its text lengthens it. */
  lemma OnlyRepairsGrow(line: bytes)
    requires line != []
    ensures WrittenLength(line) > |line| <==> line[0] == '-' as int && |Lossy(line[1..])| > |line| - 1
    ensures Clean(line) ==> WrittenLength(line) <= |line|
  {
    hide Lossy, ValidUtf8, ParseSigned;
    if line[0] == '-' as int {
      LossyRepairs(line[1..]);
    } else if HasNumber(line[0]) && ParseSigned(line[1..]).Some? {
      PrintParse(line[1..]);
    }
  }

  // ------------------------------------------------------- which streams read back

  lemma HeadLineTriples(line: bytes, v: RespValue)
    requires Announced(line, v)
    ensures line != [] && |HeadLine(v)| <= 3 * |line|
  {
    hide Lossy, ValidUtf8, ParseSigned, Announced;
    HeadLineLength(line, v);
    OnlyRepairsGrow(line);
    if line[0] == '-' as int { LossyRepairs(line[1..]); }
  }

  /** Re-encoding never takes more than three times the bytes consumed. */
  lemma {:induction false} AtMostTriples(input: bytes, depth: nat, b: Budget)
    requires Strict(b) && Decode(input, depth, b).result.Ok?
    ensures var r := Decode(input, depth, b);
            IsSuffix(r.rest, input) && |Encode(r.result.value)| <= 3 * (|input| - |r.rest|)
    decreases MAX_RESP_DEPTH - depth, 0
  {
    hide Decode, DecodeMany, HeaderLines, HeaderLinesMany, Encode, EncodeAll, ReadHeader, Shaped, Announced, HeadLine,
         Kids, Blob, Decodable, Nodes, Depth;
    DecodedParts(input, depth, b);
    var d, h := Decode(input, depth, b), ReadHeader(input, depth, b);
    var line, v := h.result.value, d.result.value;
    HeadLineTriples(line, v);
    EncodeParts(v, []);
    if IsAggregate(v) {
      AtMostTriplesMany(h.rest, |Kids(v)|, depth + 1, AfterReserve(input, depth, b));
      AggregateParts(v);
    } else {
      EmptyEncodes(v);
    }
  }

  lemma {:induction false} AtMostTriplesMany(input: bytes, count: nat, depth: nat, b: Budget)
    requires Strict(b) && DecodeMany(input, count, depth, b).result.Ok?
    ensures var r := DecodeMany(input, count, depth, b);
            IsSuffix(r.rest, input) && |EncodeAll(r.result.value)| <= 3 * (|input| - |r.rest|)
    decreases MAX_RESP_DEPTH - depth, count
  {
    hide Decode, Encode, Decodable, DecodableAll, Nodes, Depth;
    if count > 0 {
      var d := Decode(input, depth, b);
      DecodeAccounts(input, depth, b);
      AtMostTriples(input, depth, b);
      AtMostTriplesMany(d.rest, count - 1, depth, d.budget);
      SequenceOf(d.result.value, DecodeMany(d.rest, count - 1, depth, d.budget).result.value);
    }
  }

  /** If a stream that starts with a reply's wire form decodes to that reply at all, the
      reply can be delivered, and what follows it is left. */
  lemma DecodedFirstIsDeliverable(v: RespValue, tail: bytes)
    requires Decode(Encode(v) + tail, 0, FreshBudget(MAX_RESPONSE_BYTES)).result == Ok(v)
    ensures Deliverable(v)
    ensures Decode(Encode(v) + tail, 0, FreshBudget(MAX_RESPONSE_BYTES)).rest == tail
  {
    hide Decode, Decodable, Depth, Nodes, Encode;
    var input, b, c := Encode(v) + tail, FreshBudget(MAX_RESPONSE_BYTES), Ample(4 * MAX_RESPONSE_BYTES);
    DecodeAccounts(input, 0, b);
    AtMostTriples(input, 0, b);
    NodesBoundBytes(v);
    DecodeEncode(v, tail, 0, c);
    DecodeWithMore(input, 0, b, c);
  }

  /** A concatenation of replies decodes to the same replies exactly when each of them can be
      delivered. */
  lemma {:induction false} StreamRoundTripExactly(vs: seq<RespValue>)
    ensures DecodeStream(EncodeAll(vs)) == Some(vs) <==> forall v :: v in vs ==> Deliverable(v)
  {
    hide Decode, Decodable, Depth, Nodes, Encode, Fits;
    if forall v :: v in vs ==> Deliverable(v) {
      StreamRoundTrip(vs);
    } else {
      if DecodeStream(EncodeAll(vs)) == Some(vs) {
        StreamIsDeliverable(vs);
      }
    }
  }

  lemma {:induction false} StreamIsDeliverable(vs: seq<RespValue>)
    requires DecodeStream(EncodeAll(vs)) == Some(vs)
    ensures forall v :: v in vs ==> Deliverable(v)
  {
    hide Decode, Deliverable, Nodes, Encode;
    if vs != [] {
      var v, tail := vs[0], EncodeAll(vs[1..]);
      SequenceBytes(vs, []);
      assert EncodeAll(vs) == Encode(v) + tail;
      var r := Decode(EncodeAll(vs), 0, FreshBudget(MAX_RESPONSE_BYTES));
      var others := DecodeStream(r.rest).value;
      assert vs == [r.result.value] + others && vs[1..] == others;
      DecodedFirstIsDeliverable(v, tail);
      StreamIsDeliverable(vs[1..]);
      assert vs == [v] + vs[1..];
    }
  }

  // ------------------------------------------------------------- byte for byte

  /** Re-encoding gives back the very bytes of the reply exactly when every header
      line was canonical. */
  lemma {:induction false} ByteForByte(input: bytes, depth: nat, b: Budget)
    requires Strict(b) && Decode(input, depth, b).result.Ok?
    ensures var r := Decode(input, depth, b);
            && IsSuffix(r.rest, input)
            && (Encode(r.result.value) == Consumed(input, r.rest)
                <==> AllCanonical(HeaderLines(input, depth, b)))
    decreases MAX_RESP_DEPTH - depth, 0
  {
    hide Decode, DecodeMany, HeaderLines, HeaderLinesMany, Encode, EncodeAll, ReadHeader, Shaped, Announced,
         CanonicalLine, AllCanonical, Kids, Blob, IsSuffix;
    DecodedParts(input, depth, b);
    EncodingMatches(input, depth, b);
    var d, h := Decode(input, depth, b), ReadHeader(input, depth, b);
    var line, v := h.result.value, d.result.value;
    if IsAggregate(v) {
      var b2, n := AfterReserve(input, depth, b), |Kids(v)|;
      CanonicalFirst(line, HeaderLinesMany(h.rest, n, depth + 1, b2));
      ByteForByteMany(h.rest, n, depth + 1, b2);
      AggregateParts(v);
      assert Blob(v) + EncodeAll(Kids(v)) == EncodeAll(Kids(v));
    } else {
      assert [line] + [] == [line];
      CanonicalFirst(line, []);
      NoneCanonical();
      EmptyEncodes(v);
      assert Blob(v) + EncodeAll(Kids(v)) == Blob(v);
    }
  }

  lemma NoneCanonical()
    ensures AllCanonical([])
  {
  }

  /** Two texts of one line each can be compared piecewise. */
  lemma HeadLineIsCut(line: bytes, v: RespValue, s: bytes, t: bytes)
    requires line != [] && LF !in line && Announced(line, v)
    ensures HeadLine(v) + CRLF + s == line + CRLF + t <==> HeadLine(v) == line && s == t
  {
    hide Shaped;
    AnnouncedOneLine(line, v);
    var head := HeadLine(v);
    if head + CRLF + s == line + CRLF + t {
      var whole := head + CRLF + s;
      assert whole == (head + [CR]) + [LF] + s && whole == (line + [CR]) + [LF] + t;
      LineLengthOf(head + [CR], s);
      LineLengthOf(line + [CR], t);
      assert whole[..|head|] == head && whole[..|line|] == line;
      assert whole[|head| + 2..] == s && whole[|line| + 2..] == t;
    }
  }

  lemma AnnouncedOneLine(line: bytes, v: RespValue)
    requires line != [] && LF !in line && Announced(line, v)
    ensures LF !in HeadLine(v)
  {
    hide Lossy, ValidUtf8, ParseSigned, ParseI64, HeadText, Shaped, Announced, PrintInt;
    if HasNumber(line[0]) {
      AnnouncedNumber(line, v);
      PrintIntParses(NumberIn(v));
      NumberHasNoLineFeed(HeadText(v));
    } else {
      AnnouncedText(line, v);
      LossyRepairs(line[1..]);
    }
  }

  lemma {:induction false} ByteForByteMany(input: bytes, count: nat, depth: nat, b: Budget)
    requires Strict(b) && DecodeMany(input, count, depth, b).result.Ok?
    ensures var r := DecodeMany(input, count, depth, b);
            && IsSuffix(r.rest, input)
            && (EncodeAll(r.result.value) == Consumed(input, r.rest)
                <==> AllCanonical(HeaderLinesMany(input, count, depth, b)))
    decreases MAX_RESP_DEPTH - depth, count
  {
    hide Decode, HeaderLines, Encode, Decodable, DecodableAll, Nodes, Depth, CanonicalLine;
    if count > 0 {
      var d := Decode(input, depth, b);
      DecodeAccounts(input, depth, b);
      DecodeManyAccounts(d.rest, count - 1, depth, d.budget);
      var m := DecodeMany(d.rest, count - 1, depth, d.budget);
      var v, others := d.result.value, m.result.value;
      SequenceOf(v, others);
      SuffixTrans(input, d.rest, m.rest);
      CanonicalConcat(HeaderLines(input, depth, b), HeaderLinesMany(d.rest, count - 1, depth, d.budget));
      ByteForByte(input, depth, b);
      ByteForByteMany(d.rest, count - 1, depth, d.budget);
      if Encode(v) + EncodeAll(others) == Consumed(input, d.rest) + Consumed(d.rest, m.rest) {
        CutIsTheSame(input, depth, b, EncodeAll(others), m.rest);
      }
    }
  }

  /** When a decoded value's encoding followed by anything is what was consumed,
      the encoding is the part that value was decoded from. */
  lemma CutIsTheSame(input: bytes, depth: nat, b: Budget, tail: bytes, rest: bytes)
    requires Strict(b) && Decode(input, depth, b).result.Ok?
    requires var d := Decode(input, depth, b);
             && IsSuffix(d.rest, input) && IsSuffix(rest, d.rest)
             && d.budget.bytesUsed + |Consumed(d.rest, rest)| <= b.byteLimit
             && Encode(d.result.value) + tail == Consumed(input, d.rest) + Consumed(d.rest, rest)
    ensures var d := Decode(input, depth, b);
            Encode(d.result.value) == Consumed(input, d.rest) && tail == Consumed(d.rest, rest)
  {
    hide Decode, Encode, Decodable, Nodes, Depth;
    var d := Decode(input, depth, b);
    var v := d.result.value;
    var first, second := Consumed(input, d.rest), Consumed(d.rest, rest);
    DecodeAccounts(input, depth, b);
    Recut(input, Encode(v), tail, first, second, rest);
    DecodeEncode(v, tail + rest, depth, b);
    SameTail(tail, second, rest);
    SameTail(Encode(v), first, d.rest);
  }

  lemma Recut(input: bytes, e: bytes, tail: bytes, first: bytes, second: bytes, rest: bytes)
    requires input == first + (second + rest) && e + tail == first + second
    ensures input == e + (tail + rest)
  {
    Assoc(first, second, rest);
    Assoc(e, tail, rest);
  }

  lemma SameTail(a: bytes, b: bytes, rest: bytes)
    requires a + rest == b + rest
    ensures a == b
  {
    assert |a + rest| == |b + rest|;
    assert (a + rest)[..|a|] == a && (b + rest)[..|b|] == b;
  }

  // ---------------------------------------------------------- the lossy exception

  function Repeat(b: byte, n: nat): bytes {
    seq(n, _ => b)
  }

  lemma {:induction false} LossyOfFf(n: nat)
    ensures |Lossy(Repeat(0xFF, n))| == 3 * n
  {
    if n > 0 {
      LossyOfFf(n - 1);
      var s := Repeat(0xFF, n);
      assert Scan(s) == (1, false);
      assert s[1..] == Repeat(0xFF, n - 1);
    }
  }

  /** Without clean `-` payloads the proxy's encode step can fail on a reply the
      decoder accepted: an error line of 349525 bytes 0xFF uses a third of the
      response budget and re-encodes past it. */
  lemma LossyGrowthPassesTheLimit(rest: bytes)
    ensures var line := ['-' as int] + Repeat(0xFF, 349525);
            var b := FreshBudget(MAX_RESPONSE_BYTES);
            var r := Decode(line + CRLF + rest, 0, b);
            && r.result.Ok? && r.budget.bytesUsed == 349528
            && |Encode(r.result.value)| > MAX_RESPONSE_BYTES
  {
    hide Lossy, Decode, Encode, ReadHeader;
    var payload := Repeat(0xFF, 349525);
    var line := ['-' as int] + payload;
    var b := FreshBudget(MAX_RESPONSE_BYTES);
    assert LF !in payload;
    ReadHeaderOf(line, rest, 0, b);
    assert line[1..] == payload;
    var v := Error(Lossy(payload));
    DecodeLeaf(line + CRLF + rest, 0, b, line, rest, b.Charge(|line| + 2, 1, 0));
    LossyOfFf(349525);
    EncodeParts(v, []);
  }
}
