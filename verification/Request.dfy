/** Client commands on the public port: a second RESP parser that reserves the
    declared sizes from a shared byte budget while it reads. */
module Request {
  import opened Prelude
  import opened Decimal
  import opened Utf8
  import Text
  import Resp

  const MAX_ARGUMENTS: nat := Resp.MAX_ARGUMENTS
  const MAX_REQUEST_LINE: nat := 64 * 1024
  const MAX_REQUEST_BULK: nat := 256 * 1024
  const MAX_REQUEST_BYTES: nat := 1024 * 1024
  const MAX_IN_FLIGHT_REQUEST_BYTES: nat := 4 * 1024 * 1024
  const ARGUMENT_SLOT_OVERHEAD_BYTES: nat := 64
  const U32_MAX: nat := 0xFFFF_FFFF

  datatype Request = Command(arguments: seq<bytes>) | Eof

  datatype RequestError =
    | LineTooLong
    | InlineNotSupported
    | InvalidNumber
    | TooManyArguments
    | BudgetExhausted
    | UnexpectedEnd
    | ExpectedDollar
    | InvalidBulkLength
    | CommandTooLarge
    | PayloadUnreadable
    | UnbalancedTerminator

  // ------------------------------------------------------------------------ lines

  /** The proxy's `parse_number`, which tolerates surrounding white space. */
  function TrimmedNumber(s: bytes): Option<int> {
    if !ValidUtf8(s) then None else ParseI64(Text.Trim(s))
  }

  datatype Line = NoLine | Line(text: bytes) | BadLine

  /** One LF- or CRLF-terminated line of at most `MAX_REQUEST_LINE` bytes
      before its line feed; what follows it. */
  function TakeLine(input: bytes): (r: (Line, bytes))
    ensures IsSuffix(r.1, input)
    ensures r.0.Line? ==> |r.1| < |input|
  {
    var window := if |input| > MAX_REQUEST_LINE + 1 then input[..MAX_REQUEST_LINE + 1] else input;
    var n := Resp.LineLength(window);
    if n == 0 then (NoLine, input)
    else if input[n - 1] != LF then (BadLine, input[n..])
    else if n >= 2 && input[n - 2] == CR then (Line(input[..n - 2]), input[n..])
    else (Line(input[..n - 1]), input[n..])
  }

  // ------------------------------------------------------------------ reservations

  /** Semaphore permits asked for a number of bytes. */
  function Permits(n: nat): nat {
    if n > U32_MAX then U32_MAX else n
  }

  /** `RequestByteBudget::reserve`: the permits held, none for zero bytes; None
      when the budget cannot give that many at once. */
  function Reserve(n: nat, free: nat): (r: Option<seq<nat>>)
    ensures n <= U32_MAX ==> (r.Some? <==> n <= free)
    ensures n <= U32_MAX && r.Some? ==> Sum(r.value) == n
    ensures r.Some? ==> Sum(r.value) <= free
  {
    if n == 0 then Some([])
    else if Permits(n) > free then None
    else Some([Permits(n)])
  }

  // ------------------------------------------------------------- reading a command

  /** A command whose first `|args|` arguments have been read. */
  datatype Progress = Progress(count: nat, args: seq<bytes>, total: nat, reserved: seq<nat>)

  datatype Start =
    | AtEof
    | StartFailed(error: RequestError)
    | NoArguments
    | Begun(progress: Progress)

  /** Reads the `*<count>` line and reserves the argument slots. */
  function StartRequest(input: bytes, free: nat): (r: (Start, bytes))
    ensures IsSuffix(r.1, input)
    ensures r.0.Begun? ==>
              var p := r.0.progress;
              && 0 < p.count <= MAX_ARGUMENTS && p.args == [] && p.total == 0
              && Sum(p.reserved) == ARGUMENT_SLOT_OVERHEAD_BYTES * p.count <= free
  {
    var (line, rest) := TakeLine(input);
    match line
    case NoLine => (AtEof, rest)
    case BadLine => (StartFailed(LineTooLong), rest)
    case Line(text) =>
      if text == [] || text[0] != '*' as int then (StartFailed(InlineNotSupported), rest)
      else
        match TrimmedNumber(text[1..])
        case None => (StartFailed(InvalidNumber), rest)
        case Some(count) =>
          if count <= 0 then (NoArguments, rest)
          else if count > MAX_ARGUMENTS then (StartFailed(TooManyArguments), rest)
          else
            match Reserve(count * ARGUMENT_SLOT_OVERHEAD_BYTES, free)
            case None => (StartFailed(BudgetExhausted), rest)
            case Some(held) => (Begun(Progress(count, [], 0, held)), rest)
  }

  /** Reads a `$<length>` line and reserves the payload before it is allocated. */
  function ReadArgumentHeader(p: Progress, input: bytes, free: nat): (r: (Result<(Progress, nat), RequestError>, bytes))
    ensures IsSuffix(r.1, input)
    ensures r.0.Ok? ==>
              var (q, length) := r.0.value;
              && q.count == p.count && q.args == p.args && length <= MAX_REQUEST_BULK
              && q.total == p.total + length <= MAX_REQUEST_BYTES
              && Sum(q.reserved) == Sum(p.reserved) + length && length <= free
  {
    var (line, rest) := TakeLine(input);
    match line
    case NoLine => (Err(UnexpectedEnd), rest)
    case BadLine => (Err(LineTooLong), rest)
    case Line(text) =>
      if text == [] || text[0] != '$' as int then (Err(ExpectedDollar), rest)
      else
        match TrimmedNumber(text[1..])
        case None => (Err(InvalidNumber), rest)
        case Some(length) =>
          if length < 0 || length > MAX_REQUEST_BULK then (Err(InvalidBulkLength), rest)
          else
            var total := SaturatingAdd(p.total, length);
            if total > MAX_REQUEST_BYTES then (Err(CommandTooLarge), rest)
            else
              match Reserve(length, free)
              case None => (Err(BudgetExhausted), rest)
              case Some(held) =>
                SumAppend(p.reserved, held);
                (Ok((p.(total := total, reserved := p.reserved + held), length)), rest)
  }

  /** Reads the payload and its CRLF. */
  function ReadArgumentPayload(p: Progress, length: nat, input: bytes): (r: (Result<Progress, RequestError>, bytes))
    ensures IsSuffix(r.1, input)
  {
    if |input| < length + 2 then (Err(PayloadUnreadable), [])
    else if !EndsWithCrlf(input[..length + 2]) then (Err(UnbalancedTerminator), input[length + 2..])
    else (Ok(p.(args := p.args + [input[..length]])), input[length + 2..])
  }

  /** The outcome of reading one command: what was read, what is left of the
      stream, and the permits the caller now holds. */
  datatype Parsed = Parsed(result: Result<Request, RequestError>, rest: bytes, reserved: seq<nat>)

  /** Reads the remaining arguments; `free` is what the budget has left. */
  function ParseArguments(p: Progress, input: bytes, free: nat): Parsed
    decreases p.count - |p.args|
  {
    if |p.args| >= p.count then Parsed(Ok(Command(p.args)), input, p.reserved)
    else
      match ReadArgumentHeader(p, input, free)
      case (Err(e), rest) => Parsed(Err(e), rest, [])
      case (Ok((p1, length)), rest) =>
        match ReadArgumentPayload(p1, length, rest)
        case (Err(e), rest') => Parsed(Err(e), rest', [])
        case (Ok(p2), rest') =>
          ParseArguments(p2, rest', free - length)
  }

  /** `read_request`, undisturbed by other clients and timeouts. */
  function ParseRequest(input: bytes, free: nat): Parsed {
    match StartRequest(input, free)
    case (AtEof, rest) => Parsed(Ok(Eof), rest, [])
    case (StartFailed(e), rest) => Parsed(Err(e), rest, [])
    case (NoArguments, rest) => Parsed(Ok(Command([])), rest, [])
    case (Begun(p), rest) => ParseArguments(p, rest, free - Sum(p.reserved))
  }

  // --------------------------------------------------------------------- encoding

  function EncodeArguments(args: seq<bytes>): bytes {
    if args == [] then []
    else ['$' as int] + PrintInt(|args[0]|) + CRLF + (args[0] + CRLF) + EncodeArguments(args[1..])
  }

  /** `encode_command`: an argv as a RESP array of bulk strings. */
  function EncodeCommand(args: seq<bytes>): bytes {
    ['*' as int] + PrintInt(|args|) + CRLF + EncodeArguments(args)
  }

  function TotalLength(args: seq<bytes>): nat {
    if args == [] then 0 else |args[0]| + TotalLength(args[1..])
  }

  /** What the proxy accepts as one command. */
  predicate Acceptable(args: seq<bytes>) {
    && |args| <= MAX_ARGUMENTS
    && (forall i :: 0 <= i < |args| ==> |args[i]| <= MAX_REQUEST_BULK)
    && TotalLength(args) <= MAX_REQUEST_BYTES
  }

  /** The bytes one command holds in the shared budget. */
  function Demand(args: seq<bytes>): nat {
    ARGUMENT_SLOT_OVERHEAD_BYTES * |args| + TotalLength(args)
  }
}
