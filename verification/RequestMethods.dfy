/** `read_request` as it runs: a loop over the declared arguments that takes
    permits from the shared budget in place and gives them back on every error. */
module RequestMethods {
  import opened Prelude
  import opened Resp
  import opened RespRoundTrip
  import opened RespMethods
  import opened Request
  import opened RequestProofs

  class RequestByteBudget {
    const capacity: nat
    var free: nat

    constructor (capacity: nat)
      ensures this.capacity == capacity && free == capacity
    {
      this.capacity, this.free := capacity, capacity;
    }

    /** Takes permits at once or not at all; zero bytes never touch the budget. */
    method TryReserve(n: nat) returns (permits: Option<seq<nat>>)
      modifies this
      ensures permits == Reserve(n, old(free))
      ensures free == old(free) - if permits.Some? then Sum(permits.value) else 0
    {
      if n == 0 { return Some([]); }
      var wanted := Permits(n);
      if wanted > free { return None; }
      free := free - wanted;
      assert [wanted][1..] == [];
      return Some([wanted]);
    }

    /** Dropping permits gives their bytes back. */
    method Release(permits: seq<nat>)
      modifies this
      ensures free == old(free) + Sum(permits)
    {
      var i := 0;
      while i < |permits|
        invariant 0 <= i <= |permits|
        invariant free + Sum(permits[i..]) == old(free) + Sum(permits)
      {
        assert permits[i..][1..] == permits[i + 1..];
        free := free + permits[i];
        i := i + 1;
      }
    }
  }

  /** The line a bounded scan stops at. */
  lemma ScanStops(input: bytes, n: nat)
    requires n <= |input| && n <= MAX_REQUEST_LINE + 1 && LF !in input[..n]
    ensures n < |input| && n < MAX_REQUEST_LINE + 1 && input[n] == LF ==>
              TakeLine(input) == (Line(if n > 0 && input[n - 1] == CR then input[..n - 1] else input[..n]), input[n + 1..])
    ensures n == |input| || n == MAX_REQUEST_LINE + 1 ==>
              TakeLine(input) == (if n == 0 then NoLine else BadLine, input[n..])
  {
    var window := if |input| > MAX_REQUEST_LINE + 1 then input[..MAX_REQUEST_LINE + 1] else input;
    if n == |input| || n == MAX_REQUEST_LINE + 1 {
      assert window == input[..n];
      LineWithoutEnd(window);
      if n > 0 {
        assert input[n - 1] in input[..n];
      }
    } else if input[n] == LF {
      assert window == input[..n] + [LF] + window[n + 1..];
      LineLengthOf(input[..n], window[n + 1..]);
    }
  }

  /** `read_line` on the public port. */
  method ReadRequestLine(reader: ByteReader) returns (line: Line)
    modifies reader
    ensures (line, reader.input) == TakeLine(old(reader.input))
  {
    hide TakeLine;
    var n := 0;
    while n < |reader.input| && n < MAX_REQUEST_LINE + 1 && reader.input[n] != LF
      invariant n <= |reader.input| && n <= MAX_REQUEST_LINE + 1
      invariant forall i :: 0 <= i < n ==> reader.input[i] != LF
    {
      n := n + 1;
    }
    var input := reader.input;
    ScanStops(input, n);
    if n == |input| || n == MAX_REQUEST_LINE + 1 {
      reader.input := input[n..];
      return if n == 0 then NoLine else BadLine;
    }
    reader.input := input[n + 1..];
    return Line(if n > 0 && input[n - 1] == CR then input[..n - 1] else input[..n]);
  }

  /** One turn of the loop has done what the two steps of the parser say. */
  predicate ArgumentRead(p: Progress, input: bytes, free: nat,
                         r: Result<(nat, seq<nat>, bytes), RequestError>, after: bytes)
  {
    match ReadArgumentHeader(p, input, free)
    case (Err(e), rest) => r == Err(e) && after == rest
    case (Ok((q, length)), rest) =>
      match ReadArgumentPayload(q, length, rest)
      case (Err(e), rest') => r == Err(e) && after == rest'
      case (Ok(q'), rest') =>
        && r.Ok? && r.value.0 == length && after == rest'
        && q' == Progress(p.count, p.args + [r.value.2], p.total + length, p.reserved + r.value.1)
  }

  lemma FailedArgument(p: Progress, input: bytes, free: nat, e: RequestError, after: bytes)
    requires |p.args| < p.count && ArgumentRead(p, input, free, Err(e), after)
    ensures ParseArguments(p, input, free) == Parsed(Err(e), after, [])
  {
    hide ReadArgumentHeader, ReadArgumentPayload;
  }

  lemma NextArgument(p: Progress, input: bytes, free: nat, length: nat, permits: seq<nat>, data: bytes, after: bytes)
    requires |p.args| < p.count && ArgumentRead(p, input, free, Ok((length, permits, data)), after)
    ensures Sum(permits) == length <= free && length <= MAX_REQUEST_BULK && p.total + length <= MAX_REQUEST_BYTES
    ensures ParseArguments(p, input, free)
            == ParseArguments(Progress(p.count, p.args + [data], p.total + length, p.reserved + permits),
                              after, free - length)
  {
    hide ReadArgumentHeader, ReadArgumentPayload;
    SumAppend(p.reserved, permits);
    var (q, _) := ReadArgumentHeader(p, input, free).0.value;
    assert q.reserved == p.reserved + permits by { PayloadKeepsReserved(q, length, ReadArgumentHeader(p, input, free).1); }
  }

  /** The `*<count>` line and the reservation of the argument slots. */
  method BeginRequest(reader: ByteReader, budget: RequestByteBudget) returns (start: Start)
    modifies reader, budget
    ensures (start, reader.input) == StartRequest(old(reader.input), old(budget.free))
    ensures budget.free == old(budget.free) - if start.Begun? then Sum(start.progress.reserved) else 0
  {
    hide TakeLine, TrimmedNumber;
    var line := ReadRequestLine(reader);
    if line.NoLine? { return AtEof; }
    if line.BadLine? { return StartFailed(LineTooLong); }
    if line.text == [] || line.text[0] != '*' as int { return StartFailed(InlineNotSupported); }
    var count := TrimmedNumber(line.text[1..]);
    if count.None? { return StartFailed(InvalidNumber); }
    if count.value <= 0 { return NoArguments; }
    if count.value > Resp.MAX_ARGUMENTS { return StartFailed(TooManyArguments); }
    var slots := budget.TryReserve(count.value * ARGUMENT_SLOT_OVERHEAD_BYTES);
    if slots.None? { return StartFailed(BudgetExhausted); }
    return Begun(Progress(count.value, [], 0, slots.value));
  }

  /** Reads one command; the caller holds the returned permits. */
  method ReadRequest(reader: ByteReader, budget: RequestByteBudget)
    returns (r: Result<Request, RequestError>, reservation: seq<nat>)
    modifies reader, budget
    ensures Parsed(r, reader.input, reservation) == ParseRequest(old(reader.input), old(budget.free))
    ensures budget.free + Sum(reservation) == old(budget.free)
    ensures r.Err? ==> reservation == []
  {
    hide StartRequest, ParseArguments, ArgumentRead;
    ghost var input0, free0 := reader.input, budget.free;
    var start := BeginRequest(reader, budget);
    match start {
      case AtEof => return Ok(Eof), [];
      case StartFailed(e) => return Err(e), [];
      case NoArguments => return Ok(Command([])), [];
      case Begun(_) =>
    }
    var count, arguments, total := start.progress.count, [], 0;
    reservation := start.progress.reserved;
    while |arguments| < count
      invariant |arguments| <= count
      invariant budget.free + Sum(reservation) == free0
      invariant ParseRequest(input0, free0)
                == ParseArguments(Progress(count, arguments, total, reservation), reader.input, budget.free)
    {
      ghost var p, before, free := Progress(count, arguments, total, reservation), reader.input, budget.free;
      var argument := ReadArgument(reader, budget, total, p);
      if argument.Err? {
        FailedArgument(p, before, free, argument.error, reader.input);
        budget.Release(reservation);
        return Err(argument.error), [];
      }
      var (length, permits, data) := argument.value;
      NextArgument(p, before, free, length, permits, data, reader.input);
      SumAppend(reservation, permits);
      total := total + length;
      reservation := reservation + permits;
      arguments := arguments + [data];
    }
    NoneToParse(Progress(count, arguments, total, reservation), reader.input, budget.free);
    return Ok(Command(arguments)), reservation;
  }

  /** One turn of the loop: header line, checks, reservation, payload. On an
      error the permits taken in this turn have been given back. */
  method ReadArgument(reader: ByteReader, budget: RequestByteBudget, total: nat, ghost p: Progress)
    returns (r: Result<(nat, seq<nat>, bytes), RequestError>)
    requires total == p.total
    modifies reader, budget
    ensures budget.free == old(budget.free) - if r.Ok? then Sum(r.value.1) else 0
    ensures ArgumentRead(p, old(reader.input), old(budget.free), r, reader.input)
  {
    hide TakeLine, TrimmedNumber;
    var line := ReadRequestLine(reader);
    if line.NoLine? { return Err(UnexpectedEnd); }
    if line.BadLine? { return Err(LineTooLong); }
    if line.text == [] || line.text[0] != '$' as int { return Err(ExpectedDollar); }
    var length := TrimmedNumber(line.text[1..]);
    if length.None? { return Err(InvalidNumber); }
    if length.value < 0 || length.value > MAX_REQUEST_BULK { return Err(InvalidBulkLength); }
    if SaturatingAdd(total, length.value) > MAX_REQUEST_BYTES { return Err(CommandTooLarge); }
    var permits := budget.TryReserve(length.value);
    if permits.None? { return Err(BudgetExhausted); }
    ghost var payload := reader.input;
    var data := reader.ReadExact(length.value + 2);
    if data.None? {
      budget.Release(permits.value);
      return Err(PayloadUnreadable);
    }
    if !EndsWithCrlf(data.value) {
      budget.Release(permits.value);
      return Err(UnbalancedTerminator);
    }
    assert data.value[..length.value] == payload[..length.value];
    return Ok((length.value, permits.value, data.value[..length.value]));
  }
}
