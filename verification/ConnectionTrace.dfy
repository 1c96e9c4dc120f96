/** What every run of one client keeps: which commands reach the upstream, which
    replies reach the client, and what the client holds meanwhile. */
module ConnectionTrace {
  import opened Prelude
  import opened Utf8
  import Resp
  import opened RespRoundTrip
  import opened RespAccounting
  import RespReencode
  import opened RespMethods
  import opened Request
  import opened RequestProofs
  import opened Connection

  // --------------------------------------------------------------------- vocabulary

  const CAPACITY: nat := MAX_IN_FLIGHT_REQUEST_BYTES

  /** The client's bytes start with these commands, one after the other, and
      continue with `rest`. Every command that can be accepted at all fits the
      idle budget, so this does not depend on other clients. */
  predicate Follows(input: bytes, requests: seq<seq<bytes>>, rest: bytes)
    decreases |requests|
  {
    if requests == [] then input == rest
    else
      var r := ParseRequest(input, CAPACITY);
      r.result == Ok(Command(requests[0])) && Follows(r.rest, requests[1..], rest)
  }

  function NonEmpty(requests: seq<seq<bytes>>): seq<seq<bytes>> {
    if requests == [] then []
    else (if requests[0] == [] then [] else [requests[0]]) + NonEmpty(requests[1..])
  }

  function ArgsOf(handled: seq<Handled>): seq<seq<bytes>> {
    if handled == [] then [] else [handled[0].args] + ArgsOf(handled[1..])
  }

  /** The commands that were given a backend permit, in order. */
  function GrantedArgs(handled: seq<Handled>): seq<seq<bytes>> {
    if handled == [] then []
    else (if handled[0].fate.Granted? then [handled[0].args] else []) + GrantedArgs(handled[1..])
  }

  function EncodeCommands(commands: seq<seq<bytes>>): bytes {
    if commands == [] then [] else EncodeCommand(commands[0]) + EncodeCommands(commands[1..])
  }

  /** The upstream's bytes decode to these replies, and `left` is not decoded yet. */
  predicate Relays(received: bytes, relayed: seq<Resp.RespValue>, left: bytes)
    decreases |relayed|
  {
    if relayed == [] then received == left
    else
      var d := Resp.Decode(received, 0, Resp.FreshBudget(Resp.MAX_RESPONSE_BYTES));
      d.result == Ok(relayed[0]) && Relays(d.rest, relayed[1..], left)
  }

  lemma {:induction false} FollowsSnoc(input: bytes, requests: seq<seq<bytes>>, mid: bytes, args: seq<bytes>)
    requires Follows(input, requests, mid)
    requires ParseRequest(mid, CAPACITY).result == Ok(Command(args))
    ensures Follows(input, requests + [args], ParseRequest(mid, CAPACITY).rest)
    decreases |requests|
  {
    hide ParseRequest;
    if requests == [] {
      assert [args][1..] == [] && requests + [args] == [args];
    } else {
      FollowsSnoc(ParseRequest(input, CAPACITY).rest, requests[1..], mid, args);
      assert (requests + [args])[1..] == requests[1..] + [args];
    }
  }

  lemma {:induction false} NonEmptySnoc(requests: seq<seq<bytes>>, args: seq<bytes>)
    ensures NonEmpty(requests + [args]) == NonEmpty(requests) + if args == [] then [] else [args]
  {
    if requests == [] {
      assert [args][1..] == [] && requests + [args] == [args];
    } else {
      NonEmptySnoc(requests[1..], args);
      assert (requests + [args])[1..] == requests[1..] + [args];
    }
  }

  lemma HandledSnoc(handled: seq<Handled>, h: Handled)
    ensures ArgsOf(handled + [h]) == ArgsOf(handled) + [h.args]
    ensures GrantedArgs(handled + [h]) == GrantedArgs(handled) + if h.fate.Granted? then [h.args] else []
  {
    ArgsSnoc(handled, h);
    GrantedSnoc(handled, h);
  }

  lemma {:induction false} ArgsSnoc(handled: seq<Handled>, h: Handled)
    ensures ArgsOf(handled + [h]) == ArgsOf(handled) + [h.args]
  {
    if handled == [] {
      assert [h][1..] == [] && handled + [h] == [h];
    } else {
      ArgsSnoc(handled[1..], h);
      assert (handled + [h])[1..] == handled[1..] + [h];
      Assoc([handled[0].args], ArgsOf(handled[1..]), [h.args]);
    }
  }

  lemma {:induction false} GrantedSnoc(handled: seq<Handled>, h: Handled)
    ensures GrantedArgs(handled + [h]) == GrantedArgs(handled) + if h.fate.Granted? then [h.args] else []
  {
    if handled == [] {
      assert [h][1..] == [] && handled + [h] == [h];
    } else {
      GrantedSnoc(handled[1..], h);
      assert (handled + [h])[1..] == handled[1..] + [h];
    }
  }

  lemma {:induction false} EncodeCommandsSnoc(commands: seq<seq<bytes>>, args: seq<bytes>)
    ensures EncodeCommands(commands + [args]) == EncodeCommands(commands) + EncodeCommand(args)
  {
    hide EncodeCommand;
    if commands == [] {
      assert [args][1..] == [] && commands + [args] == [args];
    } else {
      EncodeCommandsSnoc(commands[1..], args);
      assert (commands + [args])[1..] == commands[1..] + [args];
      Assoc(EncodeCommand(commands[0]), EncodeCommands(commands[1..]), EncodeCommand(args));
    }
  }

  // -------------------------------------------------- reading follows the client's bytes

  /** A header line has been accepted: the payload of `length` bytes is due. */
  predicate WellAllocated(p: Progress, length: nat) {
    && 0 < p.count <= MAX_ARGUMENTS && |p.args| < p.count
    && (forall i :: 0 <= i < |p.args| ==> |p.args[i]| <= MAX_REQUEST_BULK)
    && length <= MAX_REQUEST_BULK
    && p.total == TotalLength(p.args) + length <= MAX_REQUEST_BYTES
    && Sum(p.reserved) == ARGUMENT_SLOT_OVERHEAD_BYTES * p.count + p.total
  }

  /** How the command being read would end if nothing disturbed it. */
  function Rest(p: Progress, input: bytes): Parsed
    requires Sum(p.reserved) <= CAPACITY
  {
    ParseArguments(p, input, CAPACITY - Sum(p.reserved))
  }

  function RestOfPayload(p: Progress, length: nat, input: bytes): Parsed
    requires Sum(p.reserved) <= CAPACITY
  {
    match ReadArgumentPayload(p, length, input)
    case (Err(e), rest) => Parsed(Err(e), rest, [])
    case (Ok(q), rest) =>
      PayloadKeepsReserved(p, length, input);
      Rest(q, rest)
  }

  predicate ReadInv(input: bytes, c: Client) {
    && Follows(input, c.requests, c.mark)
    && match c.phase {
         case Reading(p) => WellStarted(p) && ParseRequest(c.mark, CAPACITY) == Rest(p, c.inbox)
         case Allocated(p, length) =>
           WellAllocated(p, length) && ParseRequest(c.mark, CAPACITY) == RestOfPayload(p, length, c.inbox)
         case Refusing(_) => true
         case Closed => true
         case _ => c.mark == c.inbox
       }
  }

  /** Whether the budget is shared or idle, an accepted line means the same. */
  lemma HeaderAnywhere(p: Progress, input: bytes, free: nat, idle: nat)
    requires ReadArgumentHeader(p, input, free).0.Ok? && idle >= MAX_REQUEST_BULK
    ensures ReadArgumentHeader(p, input, idle) == ReadArgumentHeader(p, input, free)
  {
    hide TakeLine, TrimmedNumber;
  }

  lemma StartAnywhere(input: bytes, free: nat)
    requires StartRequest(input, free).0.Begun? || StartRequest(input, free).0.NoArguments?
    ensures StartRequest(input, CAPACITY) == StartRequest(input, free)
  {
    hide TakeLine, TrimmedNumber;
  }

  lemma HeaderStep(p: Progress, input: bytes, free: nat)
    requires WellStarted(p) && |p.args| < p.count && ReadArgumentHeader(p, input, free).0.Ok?
    ensures var r := ReadArgumentHeader(p, input, free);
            var (q, length) := r.0.value;
            WellAllocated(q, length) && Rest(p, input) == RestOfPayload(q, length, r.1)
  {
    hide ReadArgumentPayload, ReadArgumentHeader, TotalLength;
    var idle := CAPACITY - Sum(p.reserved);
    HeaderAnywhere(p, input, free, idle);
    var r := ReadArgumentHeader(p, input, free);
    var (q, length) := r.0.value;
    PayloadKeepsReserved(q, length, r.1);
    ArgumentUnfolds(p, input, idle, q, length, r.1);
  }

  lemma ArgumentUnfolds(p: Progress, input: bytes, free: nat, q: Progress, length: nat, mid: bytes)
    requires |p.args| < p.count && length <= free && ReadArgumentHeader(p, input, free) == (Ok((q, length)), mid)
    ensures ParseArguments(p, input, free)
            == match ReadArgumentPayload(q, length, mid)
               case (Err(e), rest) => Parsed(Err(e), rest, [])
               case (Ok(q'), rest) => ParseArguments(q', rest, free - length)
  {
    hide ReadArgumentPayload, ReadArgumentHeader;
  }

  lemma PayloadStep(p: Progress, length: nat, input: bytes)
    requires WellAllocated(p, length) && ReadArgumentPayload(p, length, input).0.Ok?
    ensures WellStarted(ReadArgumentPayload(p, length, input).0.value)
  {
    TotalLengthSnoc(p.args, input[..length]);
  }

  lemma {:induction false} ReadInvStep(policy: Policy, input: bytes, c: Client, a: Action, s: Shared)
    requires ReadInv(input, c) && Next(policy, c, a, s).Some?
    ensures ReadInv(input, Next(policy, c, a, s).value.0)
  {
    hide Follows, ParseArguments, ReadArgumentHeader, ReadArgumentPayload, StartRequest, EncodeCommand, Resp.Decode,
         Resp.Encode, TotalLength, WellStarted, WellAllocated;
    match (c.phase, a)
    case (Idle, ReadCount(_)) =>
      var start := StartRequest(c.inbox, s.freeBytes);
      if start.0.Begun? || start.0.NoArguments? {
        StartAnywhere(c.inbox, s.freeBytes);
      }
      if start.0.NoArguments? {
        FollowsSnoc(input, c.requests, c.mark, []);
      } else if start.0.Begun? {
        BegunIsWellStarted(start.0.progress);
      }
    case (Reading(p), ReadLength(_)) =>
      if ReadArgumentHeader(p, c.inbox, s.freeBytes).0.Ok? {
        HeaderStep(p, c.inbox, s.freeBytes);
      }
    case (Reading(p), FinishRead) =>
      FinishedRead(p, c.inbox);
      FollowsSnoc(input, c.requests, c.mark, p.args);
    case (Allocated(p, length), ReadData(_)) =>
      if ReadArgumentPayload(p, length, c.inbox).0.Ok? {
        PayloadStep(p, length, c.inbox);
      }
    case _ =>
  }

  lemma BegunIsWellStarted(p: Progress)
    requires 0 < p.count <= MAX_ARGUMENTS && p.args == [] && p.total == 0
    requires Sum(p.reserved) == ARGUMENT_SLOT_OVERHEAD_BYTES * p.count
    ensures WellStarted(p)
  {
  }

  lemma FinishedRead(p: Progress, input: bytes)
    requires WellStarted(p) && |p.args| >= p.count
    ensures Rest(p, input) == Parsed(Ok(Command(p.args)), input, p.reserved)
    ensures p.args != [] && Acceptable(p.args) && Sum(p.reserved) == Demand(p.args)
  {
  }

  // --------------------------------------------------------------- the kinds of step

  predicate IsReading(c: Client) {
    c.phase.Idle? || c.phase.Reading? || c.phase.Allocated?
  }

  /** A step that only reads from the client. */
  predicate ReadingOnly(c: Client, c': Client) {
    && c' == c.(phase := c'.phase, inbox := c'.inbox, mark := c'.mark, requests := c'.requests)
    && (IsReading(c') || c'.phase.Received? || c'.phase.Refusing? || c'.phase.Closed?)
    && (|| (c'.requests == c.requests && !c'.phase.Received?)
        || (c'.requests == c.requests + [[]] && c'.phase.Idle?)
        || (c.phase.Reading? && c'.phase == Received(c.phase.progress.args, c.phase.progress.reserved)
            && |c.phase.progress.args| >= c.phase.progress.count
            && c'.requests == c.requests + [c.phase.progress.args]))
  }

  /** Every step is of one of these kinds. */
  lemma Kinds(policy: Policy, c: Client, a: Action, s: Shared)
    requires Next(policy, c, a, s).Some?
    ensures var (c', s') := Next(policy, c, a, s).value;
            match c.phase
            case Received(args, held) => (c', s') == ClassifyStep(policy, c, args, held, s)
            case Forwarding(args, held) =>
              && s' == s
              && (|| (c.upstream.None? && c' == c.(upstream := Some([]), connects := c.connects + 1))
                  || (c.upstream.None? && c' == StateLoss(c, args, held))
                  || (c.upstream.Some? && a.Send? && c' == SendStep(c, args, held, a.ok, a.taken)))
            case Awaiting(args, held) =>
              && s' == s
              && (|| c' == StateLoss(c, args, held)
                  || (c.upstream.Some? && a.Receive? && c' == ReceiveStep(c, args, held, a.more)))
            case Replying(_, _, _, _, _) => a.Respond? && (c', s') == RespondStep(c, a.ok, a.taken, s)
            case Refusing(_) => s' == s && c.delivered <= c'.delivered && c' == c.(phase := Closed, delivered := c'.delivered)
            case Closed => false
            case _ => ReadingOnly(c, c')
  {
    hide StartRequest, ReadArgumentHeader, ReadArgumentPayload, EncodeCommand, Resp.Decode, Resp.Encode;
  }

  // --------------------------------------------------------- decisions follow the reading

  predicate HandledInv(policy: Policy, c: Client) {
    && NonEmpty(c.requests) == ArgsOf(c.handled) + (if c.phase.Received? then [c.phase.args] else [])
    && (forall h :: h in c.handled ==>
          Acceptable(h.args) && h.args != [] && (h.fate.Refused? <==> policy(h.args).Some?))
    && (c.phase.Received? ==> c.phase.args != [] && Acceptable(c.phase.args))
  }

  lemma HandledInvStep(policy: Policy, input: bytes, c: Client, a: Action, s: Shared)
    requires ReadInv(input, c) && HandledInv(policy, c) && Next(policy, c, a, s).Some?
    ensures HandledInv(policy, Next(policy, c, a, s).value.0)
  {
    hide ReadInv, HandledInv, Next;
    if IsReading(c) {
      HandledInvReading(policy, input, c, a, s);
    } else if c.phase.Received? {
      HandledInvReceived(policy, c, a, s);
    } else {
      SameHandled(policy, c, a, s);
      HandledInvStays(policy, c, Next(policy, c, a, s).value.0);
    }
  }

  lemma HandledInvReading(policy: Policy, input: bytes, c: Client, a: Action, s: Shared)
    requires ReadInv(input, c) && HandledInv(policy, c) && Next(policy, c, a, s).Some? && IsReading(c)
    ensures HandledInv(policy, Next(policy, c, a, s).value.0)
  {
    hide Next, Follows, ParseArguments, WellAllocated, Acceptable, WellStarted, ArgsOf, NonEmpty;
    Kinds(policy, c, a, s);
    var c' := Next(policy, c, a, s).value.0;
    NonEmptySnoc(c.requests, []);
    if c'.phase.Received? {
      FinishedRead(c.phase.progress, c.inbox);
      NonEmptySnoc(c.requests, c.phase.progress.args);
    }
  }

  lemma HandledInvReceived(policy: Policy, c: Client, a: Action, s: Shared)
    requires HandledInv(policy, c) && Next(policy, c, a, s).Some? && c.phase.Received?
    ensures HandledInv(policy, Next(policy, c, a, s).value.0)
  {
    hide Next, Acceptable, ArgsOf, GrantedArgs, NonEmpty;
    Kinds(policy, c, a, s);
    var c' := Next(policy, c, a, s).value.0;
    var fate := c'.handled[|c.handled|].fate;
    HandledSnoc(c.handled, Handled(c.phase.args, fate));
  }

  lemma HandledInvStays(policy: Policy, c: Client, c': Client)
    requires HandledInv(policy, c) && !c.phase.Received? && !c'.phase.Received?
    requires c'.handled == c.handled && c'.requests == c.requests
    ensures HandledInv(policy, c')
  {
    hide Acceptable, ArgsOf, NonEmpty;
  }

  lemma SameHandled(policy: Policy, c: Client, a: Action, s: Shared)
    requires Next(policy, c, a, s).Some? && !IsReading(c) && !c.phase.Received?
    ensures var c' := Next(policy, c, a, s).value.0;
            c'.handled == c.handled && c'.requests == c.requests && !c'.phase.Received?
  {
    hide Next, Resp.Decode, Resp.Encode, EncodeCommand;
    Kinds(policy, c, a, s);
  }

  // ----------------------------------------------------------------- bytes sent upstream

  predicate SentAll(c: Client) {
    c.sent == EncodeCommands(GrantedArgs(c.handled))
  }

  /** Everything but the last granted command was sent. */
  predicate SentButLast(c: Client) {
    var g := GrantedArgs(c.handled);
    g != [] && c.sent == EncodeCommands(g[..|g| - 1])
  }

  /** At most a part of the last granted command is missing. */
  predicate SentPart(c: Client) {
    var g := GrantedArgs(c.handled);
    && g != []
    && EncodeCommands(g[..|g| - 1]) <= c.sent <= EncodeCommands(g)
  }

  predicate SentInv(c: Client) {
    match c.phase
    case Forwarding(args, _) =>
      SentButLast(c) && GrantedArgs(c.handled)[|GrantedArgs(c.handled)| - 1] == args
    case Awaiting(_, _) => SentAll(c) && GrantedArgs(c.handled) != []
    case Replying(_, _, _, _, close) => if close then SentPart(c) else SentAll(c)
    case Closed => SentAll(c) || SentPart(c)
    case _ => SentAll(c)
  }

  predicate UpstreamInv(c: Client) {
    && c.connects == (if c.upstream.Some? then 1 else 0)
    && (c.upstream.None? ==> c.sent == [] && c.received == [] && c.relayed == [])
    && (c.phase.Awaiting? ==> c.upstream.Some?)
  }

  lemma PartBetween(sent: bytes, request: bytes, taken: nat)
    ensures sent <= sent + Part(request, taken) <= sent + request
  {
  }

  lemma LastIsSent(g: seq<seq<bytes>>)
    requires g != []
    ensures EncodeCommands(g) == EncodeCommands(g[..|g| - 1]) + EncodeCommand(g[|g| - 1])
  {
    hide EncodeCommand;
    EncodeCommandsSnoc(g[..|g| - 1], g[|g| - 1]);
    assert g[..|g| - 1] + [g[|g| - 1]] == g;
  }

  lemma ClassifySent(policy: Policy, c: Client, s: Shared)
    requires SentInv(c) && c.phase.Received?
    ensures SentInv(ClassifyStep(policy, c, c.phase.args, c.phase.held, s).0)
  {
    hide EncodeCommand, EncodeCommands, GrantedArgs;
    var c' := ClassifyStep(policy, c, c.phase.args, c.phase.held, s).0;
    var g := GrantedArgs(c.handled);
    HandledSnoc(c.handled, Handled(c.phase.args, c'.handled[|c.handled|].fate));
    assert g + [] == g && (g + [c.phase.args])[..|g|] == g;
  }

  lemma ForwardingSent(c: Client, ok: bool, taken: nat)
    requires SentInv(c) && c.phase.Forwarding?
    ensures SentInv(StateLoss(c, c.phase.args, c.phase.held))
    ensures SentInv(SendStep(c, c.phase.args, c.phase.held, ok, taken))
  {
    hide EncodeCommand, EncodeCommands, GrantedArgs, Part;
    var g := GrantedArgs(c.handled);
    LastIsSent(g);
    PartBetween(EncodeCommands(g[..|g| - 1]), EncodeCommand(g[|g| - 1]), taken);
    PrefixSelf(EncodeCommands(g[..|g| - 1]), EncodeCommand(g[|g| - 1]));
  }

  lemma PrefixSelf(a: bytes, b: bytes)
    ensures a <= a && a <= a + b
  {
  }

  lemma SentAllIsPart(c: Client)
    requires SentAll(c) && GrantedArgs(c.handled) != []
    ensures SentPart(c)
  {
    hide EncodeCommand, EncodeCommands, GrantedArgs;
    var g := GrantedArgs(c.handled);
    LastIsSent(g);
    PrefixSelf(EncodeCommands(g[..|g| - 1]), EncodeCommand(g[|g| - 1]));
  }

  lemma SentInvStep(policy: Policy, c: Client, a: Action, s: Shared)
    requires SentInv(c) && Next(policy, c, a, s).Some?
    ensures SentInv(Next(policy, c, a, s).value.0)
  {
    hide Next, EncodeCommand, EncodeCommands, GrantedArgs, Resp.Decode, Resp.Encode, SentPart, SentAll, SentButLast,
         ClassifyStep, SendStep;
    Kinds(policy, c, a, s);
    if c.phase.Received? {
      ClassifySent(policy, c, s);
    } else if c.phase.Forwarding? {
      ForwardingSent(c, a.Send? && a.ok, if a.Send? then a.taken else 0);
      SameSent(c, c.(upstream := Some([]), connects := c.connects + 1));
    } else if c.phase.Awaiting? {
      SentAllIsPart(c);
      var c' := Next(policy, c, a, s).value.0;
      SameSent(c, c');
    } else {
      SameSent(c, Next(policy, c, a, s).value.0);
    }
  }

  lemma SameSent(c: Client, c': Client)
    ensures c'.sent == c.sent && c'.handled == c.handled ==>
              && SentPart(c') == SentPart(c) && SentAll(c') == SentAll(c) && SentButLast(c') == SentButLast(c)
  {
  }

  lemma UpstreamInvStep(policy: Policy, c: Client, a: Action, s: Shared)
    requires UpstreamInv(c) && Next(policy, c, a, s).Some?
    ensures UpstreamInv(Next(policy, c, a, s).value.0)
  {
    hide Next, EncodeCommand, Resp.Decode, Resp.Encode;
    Kinds(policy, c, a, s);
  }

  // ------------------------------------------------------------- bytes from the upstream

  predicate RelayInv(c: Client) {
    && (c.upstream.Some? ==> Relays(c.received, c.relayed, c.upstream.value))
    && (forall v :: v in c.relayed ==> Deliverable(v))
  }

  /** What the decoder accepts and the encoder fits in, the client can decode. */
  lemma RelayedIsDeliverable(input: bytes)
    ensures var d := Resp.Decode(input, 0, Resp.FreshBudget(Resp.MAX_RESPONSE_BYTES));
            d.result.Ok? && |Resp.Encode(d.result.value)| <= Resp.MAX_RESPONSE_BYTES ==> Deliverable(d.result.value)
  {
    hide Resp.Decode, Resp.Encode, Decodable, Resp.Nodes, Resp.Depth;
    DecodeAccounts(input, 0, Resp.FreshBudget(Resp.MAX_RESPONSE_BYTES));
  }

  lemma {:induction false} RelaysExtends(received: bytes, relayed: seq<Resp.RespValue>, left: bytes, more: bytes)
    requires Relays(received, relayed, left)
    ensures Relays(received + more, relayed, left + more)
    decreases |relayed|
  {
    hide Resp.Decode;
    if relayed != [] {
      var b := Resp.FreshBudget(Resp.MAX_RESPONSE_BYTES);
      DecodeExtends(received, more, 0, b);
      RelaysExtends(Resp.Decode(received, 0, b).rest, relayed[1..], left, more);
    }
  }

  lemma {:induction false} RelaysSnoc(received: bytes, relayed: seq<Resp.RespValue>, left: bytes)
    requires Relays(received, relayed, left)
    ensures var d := Resp.Decode(left, 0, Resp.FreshBudget(Resp.MAX_RESPONSE_BYTES));
            d.result.Ok? ==> Relays(received, relayed + [d.result.value], d.rest)
    decreases |relayed|
  {
    hide Resp.Decode;
    var b := Resp.FreshBudget(Resp.MAX_RESPONSE_BYTES);
    var d := Resp.Decode(left, 0, b);
    if d.result.Ok? {
      if relayed == [] {
        assert relayed + [d.result.value] == [d.result.value];
      } else {
        RelaysSnoc(Resp.Decode(received, 0, b).rest, relayed[1..], left);
        assert (relayed + [d.result.value])[1..] == relayed[1..] + [d.result.value];
      }
    }
  }

  lemma RelayInvStep(policy: Policy, c: Client, a: Action, s: Shared)
    requires RelayInv(c) && UpstreamInv(c) && Next(policy, c, a, s).Some?
    ensures RelayInv(Next(policy, c, a, s).value.0)
  {
    hide Next, EncodeCommand, Resp.Decode, Resp.Encode, Relays, Deliverable;
    Kinds(policy, c, a, s);
    if c.phase.Awaiting? && a.Receive? && c.upstream.Some? {
      RelayedIsDeliverable(c.upstream.value + a.more);
      RelaysExtends(c.received, c.relayed, c.upstream.value, a.more);
      RelaysSnoc(c.received + a.more, c.relayed, c.upstream.value + a.more);
    } else if c.phase.Forwarding? {
      NothingRelayed();
    }
  }

  lemma NothingRelayed()
    ensures Relays([], [], [])
  {
  }

  // ------------------------------------------------------------------ replies to the client

  /** The reply the client gets for its `i`-th command, given what was relayed. */
  function Answer(policy: Policy, handled: seq<Handled>, relayed: seq<Resp.RespValue>, i: nat): Resp.RespValue
    requires i < |handled|
  {
    match handled[i].fate
    case Refused =>
      (match policy(handled[i].args)
       case Some(message) => Resp.Error(message)
       case None => Resp.Error([]))
    case Busy => Resp.Error(BUSY_TEXT)
    case Granted =>
      var j := |GrantedArgs(handled[..i])|;
      if j < |relayed| then relayed[j] else Resp.Error(STATE_LOSS_TEXT)
  }

  /** How many decided commands have no complete reply yet. */
  predicate Outstanding(c: Client) {
    match c.phase
    case Forwarding(_, _) => |c.replies| + 1 == |c.handled|
    case Awaiting(_, _) => |c.replies| + 1 == |c.handled|
    case Replying(_, _, _, _, _) => |c.replies| + 1 == |c.handled|
    case Closed => |c.replies| <= |c.handled| <= |c.replies| + 1
    case _ => |c.replies| == |c.handled|
  }

  /** How many granted commands have no relayed reply. */
  predicate Unrelayed(c: Client) {
    var granted, relayed := |GrantedArgs(c.handled)|, |c.relayed|;
    match c.phase
    case Forwarding(_, _) => granted == relayed + 1
    case Awaiting(_, _) => granted == relayed + 1
    case Replying(_, _, _, _, close) => if close then granted == relayed + 1 else granted == relayed
    case Closed => relayed <= granted <= relayed + 1
    case _ => granted == relayed
  }

  predicate ReplyInv(policy: Policy, c: Client) {
    && Outstanding(c) && Unrelayed(c)
    && (if c.phase.Closed? then Resp.EncodeAll(c.replies) <= c.delivered else c.delivered == Resp.EncodeAll(c.replies))
    && (forall i :: 0 <= i < |c.replies| ==> c.replies[i] == Answer(policy, c.handled, c.relayed, i))
    && (c.phase.Replying? ==> c.phase.reply == Answer(policy, c.handled, c.relayed, |c.replies|))
    && (c.phase.Forwarding? || c.phase.Awaiting? || (c.phase.Replying? && c.phase.close) ==>
          c.handled[|c.replies|].fate.Granted?)
  }

  lemma {:induction false} GrantedPrefix(handled: seq<Handled>, i: nat)
    requires i <= |handled|
    ensures |GrantedArgs(handled[..i])| <= |GrantedArgs(handled)|
    ensures i < |handled| && handled[i].fate.Granted? ==> |GrantedArgs(handled[..i])| < |GrantedArgs(handled)|
    decreases |handled|
  {
    if i < |handled| {
      var k := |handled| - 1;
      HandledSnoc(handled[..k], handled[k]);
      assert handled[..k] + [handled[k]] == handled;
      GrantedPrefix(handled[..k], i);
      assert handled[..k][..i] == handled[..i];
    } else {
      assert handled[..i] == handled;
    }
  }

  /** Answers already given do not change when another command is decided on or
      another reply is relayed. */
  lemma AnswersStay(policy: Policy, handled: seq<Handled>, h: Handled, relayed: seq<Resp.RespValue>,
                    v: Resp.RespValue, i: nat)
    requires i < |handled| && |GrantedArgs(handled)| <= |relayed|
    ensures Answer(policy, handled + [h], relayed, i) == Answer(policy, handled, relayed, i)
    ensures Answer(policy, handled, relayed + [v], i) == Answer(policy, handled, relayed, i)
  {
    hide GrantedArgs;
    assert (handled + [h])[..i] == handled[..i];
    GrantedPrefix(handled, i);
  }

  lemma ClassifyReply(policy: Policy, c: Client, s: Shared)
    requires ReplyInv(policy, c) && c.phase.Received?
    ensures ReplyInv(policy, ClassifyStep(policy, c, c.phase.args, c.phase.held, s).0)
  {
    hide GrantedArgs, Resp.EncodeAll, Answer;
    var c' := ClassifyStep(policy, c, c.phase.args, c.phase.held, s).0;
    var h := c'.handled[|c.handled|];
    HandledSnoc(c.handled, h);
    forall i | 0 <= i < |c.replies|
      ensures c'.replies[i] == Answer(policy, c'.handled, c'.relayed, i)
    {
      AnswersStay(policy, c.handled, h, c.relayed, Resp.Null, i);
    }
    NewAnswer(policy, c.handled, h, c.relayed);
  }

  lemma NewAnswer(policy: Policy, handled: seq<Handled>, h: Handled, relayed: seq<Resp.RespValue>)
    ensures var a := Answer(policy, handled + [h], relayed, |handled|);
            && (h.fate.Refused? && policy(h.args).Some? ==> a == Resp.Error(policy(h.args).value))
            && (h.fate.Busy? ==> a == Resp.Error(BUSY_TEXT))
            && (h.fate.Granted? ==>
                  a == if |GrantedArgs(handled)| < |relayed| then relayed[|GrantedArgs(handled)|]
                       else Resp.Error(STATE_LOSS_TEXT))
  {
    hide GrantedArgs;
    assert (handled + [h])[..|handled|] == handled;
  }

  /** The last command was granted and its reply is relayed or lost. */
  lemma LastAnswer(policy: Policy, handled: seq<Handled>, relayed: seq<Resp.RespValue>)
    requires handled != [] && handled[|handled| - 1].fate.Granted?
    requires |GrantedArgs(handled)| == |relayed| + 1
    ensures Answer(policy, handled, relayed, |handled| - 1) == Resp.Error(STATE_LOSS_TEXT)
    ensures forall v :: Answer(policy, handled, relayed + [v], |handled| - 1) == v
    ensures forall i, v :: 0 <= i < |handled| - 1 ==>
              Answer(policy, handled, relayed + [v], i) == Answer(policy, handled, relayed, i)
  {
    hide GrantedArgs;
    var k := |handled| - 1;
    HandledSnoc(handled[..k], handled[k]);
    assert handled[..k] + [handled[k]] == handled;
    forall i, v | 0 <= i < k
      ensures Answer(policy, handled, relayed + [v], i) == Answer(policy, handled, relayed, i)
    {
      AnswersStay(policy, handled[..k], handled[k], relayed, v, i);
      AnswersStay(policy, handled[..k], handled[k], relayed + [v], v, i);
    }
  }

  lemma ReplyInvStep(policy: Policy, c: Client, a: Action, s: Shared)
    requires ReplyInv(policy, c) && Next(policy, c, a, s).Some?
    ensures ReplyInv(policy, Next(policy, c, a, s).value.0)
  {
    hide Next, EncodeCommand, Resp.Decode, Resp.Encode, Resp.EncodeAll, GrantedArgs, Answer;
    Kinds(policy, c, a, s);
    if c.phase.Received? {
      ClassifyReply(policy, c, s);
    } else if c.phase.Forwarding? || c.phase.Awaiting? {
      LastAnswer(policy, c.handled, c.relayed);
    } else if c.phase.Replying? {
      EncodeAllSnoc(c.replies, c.phase.reply);
    }
  }

  // ------------------------------------------------------------------------ holdings

  /** A complete command holds exactly what it declared until its reply is written. */
  predicate HoldInv(c: Client) {
    match c.phase
    case Received(args, held) => Sum(held) == Demand(args)
    case Forwarding(args, held) => Sum(held) == Demand(args)
    case Awaiting(args, held) => Sum(held) == Demand(args)
    case Replying(_, args, held, _, _) => Sum(held) == Demand(args)
    case _ => true
  }

  lemma HoldInvStep(policy: Policy, input: bytes, c: Client, a: Action, s: Shared)
    requires HoldInv(c) && ReadInv(input, c) && Next(policy, c, a, s).Some?
    ensures HoldInv(Next(policy, c, a, s).value.0)
  {
    hide Next, Follows, EncodeCommand, Resp.Decode, Resp.Encode, WellStarted, WellAllocated, Demand;
    Kinds(policy, c, a, s);
    if c.phase.Reading? && Next(policy, c, a, s).value.0.phase.Received? {
      FinishedRead(c.phase.progress, c.inbox);
    }
  }

  /** One step moves permits between the semaphores and this client and loses none,
      on every path: errors, refusals, write failures and state loss included. */
  lemma StepConserves(policy: Policy, c: Client, a: Action, s: Shared)
    requires Next(policy, c, a, s).Some?
    ensures var (c', s') := Next(policy, c, a, s).value;
            && s'.freeBytes + HeldBytes(c') == s.freeBytes + HeldBytes(c)
            && s'.freePermits + HeldBackend(c') == s.freePermits + HeldBackend(c)
  {
    hide Next, HeldBytes, HeldBackend;
    if IsReading(c) { ReadingConserves(policy, c, a, s); } else { HandlingConserves(policy, c, a, s); }
  }

  lemma ReadingConserves(policy: Policy, c: Client, a: Action, s: Shared)
    requires Next(policy, c, a, s).Some? && IsReading(c)
    ensures var (c', s') := Next(policy, c, a, s).value;
            && s'.freeBytes + HeldBytes(c') == s.freeBytes + HeldBytes(c)
            && s'.freePermits + HeldBackend(c') == s.freePermits + HeldBackend(c)
  {
    hide StartRequest, ReadArgumentHeader, ClassifyStep, SendStep, ReceiveStep, RespondStep, EncodeError, Sum;
    NoPermits();
    match (c.phase, a)
    case (Allocated(p, length), ReadData(_)) =>
      PayloadKeepsReserved(p, length, c.inbox);
    case _ =>
  }

  lemma HandlingConserves(policy: Policy, c: Client, a: Action, s: Shared)
    requires Next(policy, c, a, s).Some? && !IsReading(c)
    ensures var (c', s') := Next(policy, c, a, s).value;
            && s'.freeBytes + HeldBytes(c') == s.freeBytes + HeldBytes(c)
            && s'.freePermits + HeldBackend(c') == s.freePermits + HeldBackend(c)
  {
    hide ReadCountStep, ReadLengthStep, ReadDataStep, StopReading, EncodeCommand, Resp.Decode, Resp.Encode, Part, Sum;
    NoPermits();
  }

  lemma NoPermits()
    ensures Sum([]) == 0
  {
  }

  lemma {:induction false} BufferBytesAre(args: seq<bytes>)
    ensures BufferBytes(args) == TotalLength(args) + 2 * |args|
  {
    if args != [] {
      BufferBytesAre(args[1..]);
    }
  }

  /** The payload buffers of a client never exceed what it has reserved. */
  lemma BuffersAreReserved(input: bytes, c: Client)
    requires ReadInv(input, c) && HoldInv(c)
    ensures Buffers(c) <= HeldBytes(c)
  {
    hide Follows, ParseArguments, Resp.Encode;
    match c.phase
    case Reading(p) => BufferBytesAre(p.args);
    case Allocated(p, _) => BufferBytesAre(p.args);
    case Received(args, _) => BufferBytesAre(args);
    case Forwarding(args, _) => BufferBytesAre(args);
    case Awaiting(args, _) => BufferBytesAre(args);
    case Replying(_, args, _, _, _) => BufferBytesAre(args);
    case _ =>
  }

  // ------------------------------------------------------------------------ whole runs

  /** A step of a client and the semaphores it found, which other clients may have
      changed in any way since its last step. */
  datatype Turn = Turn(action: Action, shared: Shared)

  function Run(policy: Policy, c: Client, turns: seq<Turn>): Option<Client>
    decreases |turns|
  {
    if turns == [] then Some(c)
    else
      match Next(policy, c, turns[0].action, turns[0].shared)
      case None => None
      case Some((c', _)) => Run(policy, c', turns[1..])
  }

  predicate Invariant(policy: Policy, input: bytes, c: Client) {
    && ReadInv(input, c) && HandledInv(policy, c) && SentInv(c) && UpstreamInv(c)
    && RelayInv(c) && ReplyInv(policy, c) && HoldInv(c)
  }

  lemma InvariantAtStart(policy: Policy, input: bytes)
    ensures Invariant(policy, input, NewClient(input))
  {
  }

  lemma InvariantStep(policy: Policy, input: bytes, c: Client, a: Action, s: Shared)
    requires Invariant(policy, input, c) && Next(policy, c, a, s).Some?
    ensures Invariant(policy, input, Next(policy, c, a, s).value.0)
  {
    hide Next, ReadInv, HandledInv, SentInv, UpstreamInv, RelayInv, ReplyInv, HoldInv;
    ReadInvStep(policy, input, c, a, s);
    HandledInvStep(policy, input, c, a, s);
    SentInvStep(policy, c, a, s);
    UpstreamInvStep(policy, c, a, s);
    RelayInvStep(policy, c, a, s);
    ReplyInvStep(policy, c, a, s);
    HoldInvStep(policy, input, c, a, s);
  }

  lemma {:induction false} RunKeepsInvariant(policy: Policy, input: bytes, c: Client, turns: seq<Turn>)
    requires Invariant(policy, input, c) && Run(policy, c, turns).Some?
    ensures Invariant(policy, input, Run(policy, c, turns).value)
    decreases |turns|
  {
    hide Next, Invariant;
    if turns != [] {
      InvariantStep(policy, input, c, turns[0].action, turns[0].shared);
      RunKeepsInvariant(policy, input, Next(policy, c, turns[0].action, turns[0].shared).value.0, turns[1..]);
    }
  }

  lemma {:induction false} CommandsDecode(commands: seq<seq<bytes>>)
    requires forall i :: 0 <= i < |commands| ==> Acceptable(commands[i])
    ensures Follows(EncodeCommands(commands), commands, [])
    decreases |commands|
  {
    hide ParseRequest, EncodeCommand, Acceptable;
    if commands != [] {
      AcceptableFitsIdleBudget(commands[0]);
      CommandRoundTrip(commands[0], EncodeCommands(commands[1..]), CAPACITY);
      CommandsDecode(commands[1..]);
    }
  }

  lemma {:induction false} GrantedIn(handled: seq<Handled>, i: nat)
    requires i < |GrantedArgs(handled)|
    ensures exists h :: h in handled && h.fate.Granted? && h.args == GrantedArgs(handled)[i]
  {
    var first := if handled[0].fate.Granted? then [handled[0].args] else [];
    if i < |first| {
      assert handled[0] in handled;
    } else {
      GrantedIn(handled[1..], i - |first|);
      assert GrantedArgs(handled)[i] == GrantedArgs(handled[1..])[i - |first|];
      var h :| h in handled[1..] && h.fate.Granted? && h.args == GrantedArgs(handled[1..])[i - |first|];
      assert h in handled;
    }
  }

  /** The commands decided on are the non-empty commands of the client's own bytes, in
      order; the policy alone decides which are refused; at most one upstream
      connection is opened; and the bytes sent upstream are the encodings of the
      granted commands in order, which read back as exactly those commands -
      complete, or broken off within the last one. */
  ghost predicate UpstreamIsRight(policy: Policy, input: bytes, c: Client) {
    var granted := GrantedArgs(c.handled);
    && Follows(input, c.requests, c.mark)
    && NonEmpty(c.requests) == ArgsOf(c.handled) + (if c.phase.Received? then [c.phase.args] else [])
    && (forall h :: h in c.handled ==> (h.fate.Refused? <==> policy(h.args).Some?))
    && c.connects <= 1
    && (c.sent == EncodeCommands(granted)
        || (granted != [] && EncodeCommands(granted[..|granted| - 1]) <= c.sent <= EncodeCommands(granted)))
    && Follows(EncodeCommands(granted), granted, [])
  }

  lemma UpstreamOfInvariant(policy: Policy, input: bytes, c: Client)
    requires Invariant(policy, input, c)
    ensures UpstreamIsRight(policy, input, c)
  {
    hide Next, Follows, EncodeCommands, ReplyInv, RelayInv, HoldInv, Acceptable, NonEmpty, ArgsOf, ReadInv;
    ReadInvFollows(input, c);
    var granted := GrantedArgs(c.handled);
    forall i | 0 <= i < |granted|
      ensures Acceptable(granted[i])
    {
      GrantedIn(c.handled, i);
    }
    CommandsDecode(granted);
    if c.phase.Forwarding? {
      LastIsSent(granted);
    }
  }

  /** Over every run of one client the upstream sees exactly the granted commands. */
  lemma UpstreamSeesGrantedCommands(policy: Policy, input: bytes, turns: seq<Turn>)
    requires Run(policy, NewClient(input), turns).Some?
    ensures UpstreamIsRight(policy, input, Run(policy, NewClient(input), turns).value)
  {
    hide Invariant, UpstreamIsRight, Next;
    InvariantAtStart(policy, input);
    RunKeepsInvariant(policy, input, NewClient(input), turns);
    UpstreamOfInvariant(policy, input, Run(policy, NewClient(input), turns).value);
  }

  lemma ReadInvFollows(input: bytes, c: Client)
    requires ReadInv(input, c)
    ensures Follows(input, c.requests, c.mark)
  {
  }

  /** The connection is being given up, or is closed. */
  predicate Ending(c: Client) {
    c.phase.Closed? || c.phase.Refusing? || (c.phase.Replying? && c.phase.close)
  }

  /** After a forward or encode failure, a protocol error or a timeout, nothing is
      read, decided, connected or sent any more. */
  lemma {:induction false} NothingAfterLoss(policy: Policy, c: Client, turns: seq<Turn>)
    requires Ending(c) && Run(policy, c, turns).Some?
    ensures var d := Run(policy, c, turns).value;
            && Ending(d) && d.sent == c.sent && d.handled == c.handled && d.requests == c.requests
            && d.connects == c.connects && d.relayed == c.relayed && d.received == c.received
    decreases |turns|
  {
    hide Next, Resp.Encode, Resp.Decode;
    if turns != [] {
      Kinds(policy, c, turns[0].action, turns[0].shared);
      NothingAfterLoss(policy, Next(policy, c, turns[0].action, turns[0].shared).value.0, turns[1..]);
    }
  }

  /** A reply received is relayed exactly when it decodes and its bytes, with the growth of
      its repaired and reprinted header lines, stay within the response limit; anything
      else loses the upstream state. */
  lemma ReplyIsRelayedExactly(c: Client, args: seq<bytes>, held: seq<nat>, more: bytes)
    requires c.upstream.Some?
    ensures var stream, b := c.upstream.value + more, Resp.FreshBudget(Resp.MAX_RESPONSE_BYTES);
            var d, c' := Resp.Decode(stream, 0, b), ReceiveStep(c, args, held, more);
            if d.result.Ok?
               && |stream| - |d.rest| + RespReencode.Growth(RespReencode.HeaderLines(stream, 0, b)) <= Resp.MAX_RESPONSE_BYTES
            then c'.relayed == c.relayed + [d.result.value] && c'.phase == Replying(d.result.value, args, held, true, false)
            else c'.relayed == c.relayed && c'.phase == Replying(Resp.Error(STATE_LOSS_TEXT), args, held, true, true)
  {
    hide Resp.Decode, Resp.Encode, RespReencode.Growth, RespReencode.HeaderLines;
    var stream, b := c.upstream.value + more, Resp.FreshBudget(Resp.MAX_RESPONSE_BYTES);
    if Resp.Decode(stream, 0, b).result.Ok? {
      RespReencode.GrowsExactly(stream, 0, b);
    }
  }

  // ------------------------------------------------------------ what the client can read

  /** An error frame reads back as one reply exactly when its text is UTF-8 without
      line feed and the frame fits the response budget. */
  lemma ErrorFrame(text: bytes, rest: bytes)
    ensures var v, b := Resp.Error(text), Resp.FreshBudget(Resp.MAX_RESPONSE_BYTES);
            Resp.Decode(EncodeError(text) + rest, 0, b) == Resp.Outcome(Ok(v), rest, Charged(v, b))
            <==> ValidUtf8(text) && LF !in text && |text| + 3 <= Resp.MAX_RESPONSE_BYTES
  {
    hide Resp.Decode;
    RoundTrip(Resp.Error(text), rest, 0, Resp.FreshBudget(Resp.MAX_RESPONSE_BYTES));
    ErrorDeliverable(text);
  }

  predicate CleanMessage(text: bytes) {
    ValidUtf8(text) && LF !in text && |text| + 3 <= Resp.MAX_RESPONSE_BYTES
  }

  lemma ErrorDeliverable(text: bytes)
    ensures Deliverable(Resp.Error(text)) <==> CleanMessage(text)
  {
    hide Resp.Encode, Resp.Decode, ValidUtf8;
    var v := Resp.Error(text);
    EncodeParts(v, []);
    if LocallyDecodable(v) {
      FlatIsDecodable(v);
    }
  }

  lemma StaticMessagesAreClean()
    ensures CleanMessage(BUSY_TEXT) && CleanMessage(STATE_LOSS_TEXT)
  {
    hide ValidUtf8;
    AsciiIsValid(BUSY_TEXT);
    AsciiIsValid(STATE_LOSS_TEXT);
  }

  /** Every refusal given so far is one frame. */
  predicate CleanRefusals(policy: Policy, c: Client) {
    forall h :: h in c.handled && policy(h.args).Some? ==> CleanMessage(policy(h.args).value)
  }

  /** The client's bytes are one reply frame for each command decided on, in order, with at
      most the last one missing: the reply the upstream gave, the policy refusal, the
      busy error, or the one state-loss error before the connection closes. */
  ghost predicate RepliesAreRight(policy: Policy, c: Client) {
    && Outstanding(c) && Unrelayed(c)
    && (if c.phase.Closed? then Resp.EncodeAll(c.replies) <= c.delivered
        else c.delivered == Resp.EncodeAll(c.replies))
    && DecodeStream(Resp.EncodeAll(c.replies)) == Some(c.replies)
    && (forall i :: 0 <= i < |c.replies| ==> c.replies[i] == Answer(policy, c.handled, c.relayed, i))
    && (c.upstream.Some? ==> Relays(c.received, c.relayed, c.upstream.value))
  }

  lemma RepliesOfInvariant(policy: Policy, input: bytes, c: Client)
    requires Invariant(policy, input, c) && CleanRefusals(policy, c)
    ensures RepliesAreRight(policy, c)
  {
    hide Next, Resp.EncodeAll, Resp.Decode, ReadInv, SentInv, Deliverable, CleanMessage, GrantedArgs, DecodeStream,
         Relays, Acceptable;
    assert HandledInv(policy, c) && ReplyInv(policy, c) && RelayInv(c);
    forall v | v in c.replies
      ensures Deliverable(v)
    {
      var i :| 0 <= i < |c.replies| && c.replies[i] == v;
      assert c.handled[i] in c.handled;
      AnswerIsDeliverable(policy, c, i);
    }
    StreamRoundTrip(c.replies);
  }

  /** Over every run of one client whose refusals are clean, it reads one reply for each
      command, in order. */
  lemma OneReplyPerCommand(policy: Policy, input: bytes, turns: seq<Turn>)
    requires Run(policy, NewClient(input), turns).Some?
    requires CleanRefusals(policy, Run(policy, NewClient(input), turns).value)
    ensures RepliesAreRight(policy, Run(policy, NewClient(input), turns).value)
  {
    hide Invariant, RepliesAreRight, CleanRefusals, Next;
    InvariantAtStart(policy, input);
    RunKeepsInvariant(policy, input, NewClient(input), turns);
    RepliesOfInvariant(policy, input, Run(policy, NewClient(input), turns).value);
  }

  /** The replies a client was sent read back as one for each command exactly when every
      refusal among them is clean. */
  lemma RepliesReadBackExactly(policy: Policy, input: bytes, turns: seq<Turn>)
    requires Run(policy, NewClient(input), turns).Some?
    ensures var c := Run(policy, NewClient(input), turns).value;
            && |c.replies| <= |c.handled|
            && (DecodeStream(Resp.EncodeAll(c.replies)) == Some(c.replies)
                <==> forall i :: 0 <= i < |c.replies| && c.handled[i].fate.Refused? ==> CleanRefusal(policy, c.handled[i]))
  {
    hide Invariant, Next;
    InvariantAtStart(policy, input);
    RunKeepsInvariant(policy, input, NewClient(input), turns);
    ReadBackOfInvariant(policy, input, Run(policy, NewClient(input), turns).value);
  }

  /** The refusal of this command is one frame. */
  predicate CleanRefusal(policy: Policy, h: Handled) {
    policy(h.args).Some? && CleanMessage(policy(h.args).value)
  }

  lemma ReadBackOfInvariant(policy: Policy, input: bytes, c: Client)
    requires Invariant(policy, input, c)
    ensures |c.replies| <= |c.handled|
    ensures DecodeStream(Resp.EncodeAll(c.replies)) == Some(c.replies)
            <==> forall i :: 0 <= i < |c.replies| && c.handled[i].fate.Refused? ==> CleanRefusal(policy, c.handled[i])
  {
    hide Next, Resp.EncodeAll, Resp.Decode, ReadInv, SentInv, Deliverable, CleanMessage, GrantedArgs, DecodeStream,
         Relays, Acceptable;
    assert HandledInv(policy, c) && ReplyInv(policy, c) && RelayInv(c);
    RespReencode.StreamRoundTripExactly(c.replies);
    forall i | 0 <= i < |c.replies|
      ensures Deliverable(c.replies[i]) <==> (c.handled[i].fate.Refused? ==> CleanRefusal(policy, c.handled[i]))
      ensures c.replies[i] in c.replies
    {
      assert c.handled[i] in c.handled;
      AnswerDeliverableExactly(policy, c, i);
    }
  }

  lemma AnswerDeliverableExactly(policy: Policy, c: Client, i: nat)
    requires HandledInv(policy, c) && RelayInv(c) && i < |c.handled|
    ensures Deliverable(Answer(policy, c.handled, c.relayed, i))
            <==> (c.handled[i].fate.Refused? ==> CleanRefusal(policy, c.handled[i]))
  {
    hide Deliverable, CleanMessage, GrantedArgs, Relays, Acceptable;
    StaticMessagesAreClean();
    ErrorDeliverable(BUSY_TEXT);
    ErrorDeliverable(STATE_LOSS_TEXT);
    assert c.handled[i] in c.handled;
    if c.handled[i].fate.Refused? {
      ErrorDeliverable(policy(c.handled[i].args).value);
    }
  }

  lemma AnswerIsDeliverable(policy: Policy, c: Client, i: nat)
    requires HandledInv(policy, c) && RelayInv(c) && i < |c.handled|
    requires policy(c.handled[i].args).Some? ==> CleanMessage(policy(c.handled[i].args).value)
    ensures Deliverable(Answer(policy, c.handled, c.relayed, i))
  {
    hide Deliverable, CleanMessage, GrantedArgs, Relays, Acceptable;
    StaticMessagesAreClean();
    ErrorDeliverable(BUSY_TEXT);
    ErrorDeliverable(STATE_LOSS_TEXT);
    assert c.handled[i] in c.handled;
    if c.handled[i].fate.Refused? {
      ErrorDeliverable(policy(c.handled[i].args).value);
    }
  }
}
