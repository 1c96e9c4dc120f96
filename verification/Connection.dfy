/** One public client from accept to close, as a state machine whose steps are
    the stretches between two suspension points. The environment chooses the
    step: what the network delivers, how far a write gets, whether a deadline
    passes. */
module Connection {
  import opened Prelude
  import opened Request
  import Resp

  /** The playground policy: None allows a command, Some is the refusal text. */
  type Policy = seq<bytes> -> Option<bytes>

  const BUSY_TEXT: bytes := Ascii("ERR the Ferrite playground backend is busy; try again shortly")
  const STATE_LOSS_TEXT: bytes :=
    Ascii("ERR playground upstream state was lost; reconnect before sending another command")

  /** What the proxy decided about a command that was read. */
  datatype Fate = Refused | Busy | Granted

  datatype Handled = Handled(args: seq<bytes>, fate: Fate)

  datatype Phase =
    | Idle                                                     // waiting for a command to begin
    | Reading(progress: Progress)                              // between two arguments
    | Allocated(progress: Progress, length: nat)               // payload buffer allocated, bytes awaited
    | Received(args: seq<bytes>, held: seq<nat>)               // command complete, to be classified
    | Forwarding(args: seq<bytes>, held: seq<nat>)             // backend permit held, nothing sent yet
    | Awaiting(args: seq<bytes>, held: seq<nat>)               // command sent, reply awaited
    | Replying(reply: Resp.RespValue, args: seq<bytes>, held: seq<nat>, permit: bool, close: bool)
    | Refusing(frame: bytes)                                   // protocol error or idle timeout being reported
    | Closed

  /** A client's state; the fields after `upstream` record its history. */
  datatype Client = Client(
    phase: Phase,
    inbox: bytes,                     // client bytes not read yet
    upstream: Option<bytes>,          // the upstream connection, with its bytes not decoded yet
    mark: bytes,                      // the inbox when the current command began
    requests: seq<seq<bytes>>,        // commands read, empty ones included
    handled: seq<Handled>,            // non-empty commands decided on
    connects: nat,                    // upstream connections opened
    sent: bytes,                      // bytes written upstream
    received: bytes,                  // bytes the upstream delivered
    relayed: seq<Resp.RespValue>,     // replies decoded and accepted for relaying
    replies: seq<Resp.RespValue>,     // replies written completely to the client
    delivered: bytes)                 // bytes written to the client

  function NewClient(input: bytes): Client {
    Client(Idle, input, None, input, [], [], 0, [], [], [], [], [])
  }

  /** The semaphores all clients share. */
  datatype Shared = Shared(freeBytes: nat, freePermits: nat)

  datatype Action =
    | ReadCount(text: bytes)          // `text` is the error text should this step fail
    | ReadLength(text: bytes)
    | ReadData(text: bytes)
    | FinishRead
    | GiveUpReading(text: bytes)      // a read deadline or an I/O error
    | Classify
    | Connect(ok: bool)
    | Send(ok: bool, taken: nat)      // `taken` bytes went out before a failure
    | Receive(more: bytes)            // what the upstream delivered until the reply ended or failed
    | LoseUpstream
    | Respond(ok: bool, taken: nat)

  function EncodeError(text: bytes): bytes {
    Resp.Encode(Resp.Error(text))
  }

  /** Reading failed: the permits taken so far are dropped before the error is reported. */
  function StopReading(c: Client, rest: bytes, text: bytes, held: seq<nat>, s: Shared): (Client, Shared) {
    (c.(phase := Refusing(EncodeError(text)), inbox := rest), s.(freeBytes := s.freeBytes + Sum(held)))
  }

  function ReadCountStep(c: Client, text: bytes, s: Shared): (Client, Shared) {
    match StartRequest(c.inbox, s.freeBytes)
    case (AtEof, rest) => (c.(phase := Closed, inbox := rest), s)
    case (StartFailed(_), rest) => StopReading(c, rest, text, [], s)
    case (NoArguments, rest) => (c.(inbox := rest, mark := rest, requests := c.requests + [[]]), s)
    case (Begun(p), rest) =>
      (c.(phase := Reading(p), inbox := rest), s.(freeBytes := s.freeBytes - Sum(p.reserved)))
  }

  function ReadLengthStep(c: Client, p: Progress, text: bytes, s: Shared): (Client, Shared) {
    match ReadArgumentHeader(p, c.inbox, s.freeBytes)
    case (Err(_), rest) => StopReading(c, rest, text, p.reserved, s)
    case (Ok((q, length)), rest) =>
      (c.(phase := Allocated(q, length), inbox := rest), s.(freeBytes := s.freeBytes - length))
  }

  function ReadDataStep(c: Client, p: Progress, length: nat, text: bytes, s: Shared): (Client, Shared) {
    match ReadArgumentPayload(p, length, c.inbox)
    case (Err(_), rest) => StopReading(c, rest, text, p.reserved, s)
    case (Ok(q), rest) => (c.(phase := Reading(q), inbox := rest), s)
  }

  /** Policy first, then one backend permit, both without waiting. */
  function ClassifyStep(policy: Policy, c: Client, args: seq<bytes>, held: seq<nat>, s: Shared): (Client, Shared) {
    match policy(args)
    case Some(message) =>
      (c.(phase := Replying(Resp.Error(message), args, held, false, false), handled := c.handled + [Handled(args, Refused)]), s)
    case None =>
      if s.freePermits == 0 then
        (c.(phase := Replying(Resp.Error(BUSY_TEXT), args, held, false, false), handled := c.handled + [Handled(args, Busy)]), s)
      else
        (c.(phase := Forwarding(args, held), handled := c.handled + [Handled(args, Granted)]),
         s.(freePermits := s.freePermits - 1))
  }

  /** The forwarded command failed: one bounded error, then the connection closes. */
  function StateLoss(c: Client, args: seq<bytes>, held: seq<nat>): Client {
    c.(phase := Replying(Resp.Error(STATE_LOSS_TEXT), args, held, true, true))
  }

  function SendStep(c: Client, args: seq<bytes>, held: seq<nat>, ok: bool, taken: nat): Client {
    var request := EncodeCommand(args);
    if ok then c.(phase := Awaiting(args, held), sent := c.sent + request)
    else StateLoss(c.(sent := c.sent + Part(request, taken)), args, held)
  }

  /** What an interrupted write got out. */
  function Part(s: bytes, taken: nat): bytes {
    if taken < |s| then s[..taken] else s
  }

  function ReceiveStep(c: Client, args: seq<bytes>, held: seq<nat>, more: bytes): Client
    requires c.upstream.Some?
  {
    var d := Resp.Decode(c.upstream.value + more, 0, Resp.FreshBudget(Resp.MAX_RESPONSE_BYTES));
    var c' := c.(received := c.received + more, upstream := Some(c.upstream.value + more));
    match d.result
    case Err(_) => StateLoss(c', args, held)
    case Ok(value) =>
      if |Resp.Encode(value)| > Resp.MAX_RESPONSE_BYTES then StateLoss(c', args, held)
      else c'.(phase := Replying(value, args, held, true, false), upstream := Some(d.rest), relayed := c.relayed + [value])
  }

  /** A write that completes or fails after `taken` bytes; then the backend permit
      and, at the end of the iteration, the reservation are dropped. */
  function RespondStep(c: Client, ok: bool, taken: nat, s: Shared): (Client, Shared)
    requires c.phase.Replying?
  {
    var Replying(reply, _, held, permit, close) := c.phase;
    var frame := Resp.Encode(reply);
    var s' := Shared(s.freeBytes + Sum(held), s.freePermits + if permit then 1 else 0);
    if ok then
      (c.(phase := if close then Closed else Idle, mark := c.inbox,
          replies := c.replies + [reply], delivered := c.delivered + frame), s')
    else (c.(phase := Closed, delivered := c.delivered + Part(frame, taken)), s')
  }

  /** The step the environment chose, or None when the client is not at a point
      where it can happen. */
  function Next(policy: Policy, c: Client, a: Action, s: Shared): Option<(Client, Shared)> {
    match (c.phase, a)
    case (Idle, ReadCount(text)) => Some(ReadCountStep(c, text, s))
    case (Idle, GiveUpReading(text)) => Some(StopReading(c, c.inbox, text, [], s))
    case (Reading(p), ReadLength(text)) =>
      if |p.args| < p.count then Some(ReadLengthStep(c, p, text, s)) else None
    case (Reading(p), FinishRead) =>
      if |p.args| < p.count then None
      else Some((c.(phase := Received(p.args, p.reserved), mark := c.inbox, requests := c.requests + [p.args]), s))
    case (Reading(p), GiveUpReading(text)) => Some(StopReading(c, c.inbox, text, p.reserved, s))
    case (Allocated(p, length), ReadData(text)) => Some(ReadDataStep(c, p, length, text, s))
    case (Allocated(p, _), GiveUpReading(text)) => Some(StopReading(c, c.inbox, text, p.reserved, s))
    case (Received(args, held), Classify) => Some(ClassifyStep(policy, c, args, held, s))
    case (Forwarding(args, held), Connect(ok)) =>
      if c.upstream.Some? then None
      else if ok then Some((c.(upstream := Some([]), connects := c.connects + 1), s))
      else Some((StateLoss(c, args, held), s))
    case (Forwarding(args, held), Send(ok, taken)) =>
      if c.upstream.None? then None else Some((SendStep(c, args, held, ok, taken), s))
    case (Awaiting(args, held), Receive(more)) =>
      if c.upstream.None? then None else Some((ReceiveStep(c, args, held, more), s))
    case (Awaiting(args, held), LoseUpstream) => Some((StateLoss(c, args, held), s))
    case (Replying(_, _, _, _, _), Respond(ok, taken)) => Some(RespondStep(c, ok, taken, s))
    case (Refusing(frame), Respond(ok, taken)) =>
      Some((c.(phase := Closed, delivered := c.delivered + if ok then frame else Part(frame, taken)), s))
    case _ => None
  }

  // ------------------------------------------------------------------- holdings

  /** Permits of the request-byte budget a client holds. */
  function HeldPermits(c: Client): seq<nat> {
    match c.phase
    case Reading(p) => p.reserved
    case Allocated(p, _) => p.reserved
    case Received(_, held) => held
    case Forwarding(_, held) => held
    case Awaiting(_, held) => held
    case Replying(_, _, held, _, _) => held
    case _ => []
  }

  function HeldBytes(c: Client): nat {
    Sum(HeldPermits(c))
  }

  /** Backend permits a client holds. */
  function HeldBackend(c: Client): nat {
    match c.phase
    case Forwarding(_, _) => 1
    case Awaiting(_, _) => 1
    case Replying(_, _, _, permit, _) => if permit then 1 else 0
    case _ => 0
  }

  function BufferBytes(args: seq<bytes>): nat {
    if args == [] then 0 else |args[0]| + 2 + BufferBytes(args[1..])
  }

  /** Argument payload buffers a client keeps allocated, each two bytes longer
      than its argument. */
  function Buffers(c: Client): nat {
    match c.phase
    case Reading(p) => BufferBytes(p.args)
    case Allocated(p, length) => BufferBytes(p.args) + length + 2
    case Received(args, _) => BufferBytes(args)
    case Forwarding(args, _) => BufferBytes(args)
    case Awaiting(args, _) => BufferBytes(args)
    case Replying(_, args, _, _, _) => BufferBytes(args)
    case _ => 0
  }
}
