/** All clients of the launcher at once: every interleaving of their steps, with
    the request-byte budget, the backend permits (shared with the HTTP API) and
    the connection permits they take and give back. */
module SharedResources {
  import opened Prelude
  import opened Request
  import opened Connection
  import opened ConnectionTrace

  const MAX_CONNECTIONS: nat := 64

  /** A spawned client task with the connection permit it keeps until it ends. */
  datatype Slot = Slot(client: Client, permit: bool, input: bytes)

  datatype System = System(slots: seq<Slot>, shared: Shared, freeConnections: nat, httpOperations: nat)

  datatype Event =
    | Accept(input: bytes)
    | Step(index: nat, action: Action)
    | TaskEnds(index: nat)
    | HttpBegins
    | HttpEnds

  function Initial(backendPermits: nat): System {
    System([], Shared(MAX_IN_FLIGHT_REQUEST_BYTES, backendPermits), MAX_CONNECTIONS, 0)
  }

  /** One event; None when it cannot happen. A connection or an HTTP operation that
      finds no permit is refused and takes nothing. */
  function NextSystem(policy: Policy, y: System, e: Event): Option<System> {
    match e
    case Accept(input) =>
      if y.freeConnections == 0 then Some(y)
      else Some(y.(slots := y.slots + [Slot(NewClient(input), true, input)],
                   freeConnections := y.freeConnections - 1))
    case Step(i, a) =>
      if i >= |y.slots| then None
      else
        (match Next(policy, y.slots[i].client, a, y.shared)
         case None => None
         case Some((c, shared)) => Some(y.(slots := y.slots[i := y.slots[i].(client := c)], shared := shared)))
    case TaskEnds(i) =>
      if i >= |y.slots| || !y.slots[i].client.phase.Closed? || !y.slots[i].permit then None
      else Some(y.(slots := y.slots[i := y.slots[i].(permit := false)], freeConnections := y.freeConnections + 1))
    case HttpBegins =>
      if y.shared.freePermits == 0 then Some(y)
      else Some(y.(shared := y.shared.(freePermits := y.shared.freePermits - 1),
                   httpOperations := y.httpOperations + 1))
    case HttpEnds =>
      if y.httpOperations == 0 then None
      else Some(y.(shared := y.shared.(freePermits := y.shared.freePermits + 1),
                   httpOperations := y.httpOperations - 1))
  }

  function RunSystem(policy: Policy, y: System, events: seq<Event>): Option<System>
    decreases |events|
  {
    if events == [] then Some(y)
    else
      match NextSystem(policy, y, events[0])
      case None => None
      case Some(y') => RunSystem(policy, y', events[1..])
  }

  // ------------------------------------------------------------------------- totals

  function BytesOf(slot: Slot): nat { HeldBytes(slot.client) }

  function BackendOf(slot: Slot): nat { HeldBackend(slot.client) }

  function BuffersOf(slot: Slot): nat { Buffers(slot.client) }

  function ConnectionOf(slot: Slot): nat { if slot.permit then 1 else 0 }

  function Total(f: Slot -> nat, slots: seq<Slot>): nat {
    if slots == [] then 0 else f(slots[0]) + Total(f, slots[1..])
  }

  lemma {:induction false} TotalUpdate(f: Slot -> nat, slots: seq<Slot>, i: nat, slot: Slot)
    requires i < |slots|
    ensures Total(f, slots[i := slot]) + f(slots[i]) == Total(f, slots) + f(slot)
  {
    if i == 0 {
      assert slots[0 := slot][1..] == slots[1..];
    } else {
      assert slots[i := slot][1..] == slots[1..][i - 1 := slot];
      TotalUpdate(f, slots[1..], i - 1, slot);
    }
  }

  lemma {:induction false} TotalSnoc(f: Slot -> nat, slots: seq<Slot>, slot: Slot)
    ensures Total(f, slots + [slot]) == Total(f, slots) + f(slot)
  {
    if slots == [] {
      assert [slot][1..] == [] && slots + [slot] == [slot];
    } else {
      TotalSnoc(f, slots[1..], slot);
      assert (slots + [slot])[1..] == slots[1..] + [slot];
    }
  }

  lemma {:induction false} TotalMonotone(f: Slot -> nat, g: Slot -> nat, slots: seq<Slot>)
    requires forall i :: 0 <= i < |slots| ==> f(slots[i]) <= g(slots[i])
    ensures Total(f, slots) <= Total(g, slots)
  {
    if slots != [] {
      forall i | 0 <= i < |slots[1..]| ensures f(slots[1..][i]) <= g(slots[1..][i]) {
        assert slots[1..][i] == slots[i + 1];
      }
      TotalMonotone(f, g, slots[1..]);
    }
  }

  lemma {:induction false} TotalZero(f: Slot -> nat, slots: seq<Slot>)
    requires forall i :: 0 <= i < |slots| ==> f(slots[i]) == 0
    ensures Total(f, slots) == 0
  {
    if slots != [] {
      forall i | 0 <= i < |slots[1..]| ensures f(slots[1..][i]) == 0 {
        assert slots[1..][i] == slots[i + 1];
      }
      TotalZero(f, slots[1..]);
    }
  }

  // ------------------------------------------------------------------------ invariant

  /** Free plus held is the capacity, for each of the three resources. */
  predicate Conserved(backendPermits: nat, y: System) {
    && y.shared.freeBytes + Total(BytesOf, y.slots) == MAX_IN_FLIGHT_REQUEST_BYTES
    && y.shared.freePermits + Total(BackendOf, y.slots) + y.httpOperations == backendPermits
    && y.freeConnections + Total(ConnectionOf, y.slots) == MAX_CONNECTIONS
  }

  predicate EachClient(policy: Policy, y: System) {
    forall i :: 0 <= i < |y.slots| ==>
                  Invariant(policy, y.slots[i].input, y.slots[i].client)
                  && (y.slots[i].permit || y.slots[i].client.phase.Closed?)
  }

  lemma ConservedStep(policy: Policy, backendPermits: nat, y: System, e: Event)
    requires Conserved(backendPermits, y) && NextSystem(policy, y, e).Some?
    ensures Conserved(backendPermits, NextSystem(policy, y, e).value)
  {
    hide Next, HeldBytes, HeldBackend, Total;
    match e
    case Accept(input) =>
      var slot := Slot(NewClient(input), true, input);
      NewClientHoldsNothing(input);
      TotalSnoc(BytesOf, y.slots, slot);
      TotalSnoc(BackendOf, y.slots, slot);
      TotalSnoc(ConnectionOf, y.slots, slot);
    case Step(i, a) =>
      StepConserves(policy, y.slots[i].client, a, y.shared);
      var slot := y.slots[i].(client := Next(policy, y.slots[i].client, a, y.shared).value.0);
      TotalUpdate(BytesOf, y.slots, i, slot);
      TotalUpdate(BackendOf, y.slots, i, slot);
      TotalUpdate(ConnectionOf, y.slots, i, slot);
    case TaskEnds(i) =>
      var slot := y.slots[i].(permit := false);
      TotalUpdate(BytesOf, y.slots, i, slot);
      TotalUpdate(BackendOf, y.slots, i, slot);
      TotalUpdate(ConnectionOf, y.slots, i, slot);
    case HttpBegins =>
    case HttpEnds =>
  }

  lemma NewClientHoldsNothing(input: bytes)
    ensures HeldBytes(NewClient(input)) == 0 && HeldBackend(NewClient(input)) == 0
  {
  }

  lemma EachClientStep(policy: Policy, y: System, e: Event)
    requires EachClient(policy, y) && NextSystem(policy, y, e).Some?
    ensures EachClient(policy, NextSystem(policy, y, e).value)
  {
    hide Next, Invariant;
    match e
    case Accept(input) =>
      InvariantAtStart(policy, input);
    case Step(i, a) =>
      InvariantStep(policy, y.slots[i].input, y.slots[i].client, a, y.shared);
      ClosedIsFinal(policy, y.slots[i].client, a, y.shared);
    case _ =>
  }

  lemma ClosedIsFinal(policy: Policy, c: Client, a: Action, s: Shared)
    ensures c.phase.Closed? ==> Next(policy, c, a, s).None?
  {
  }

  lemma {:induction false} RunKeeps(policy: Policy, backendPermits: nat, y: System, events: seq<Event>)
    requires Conserved(backendPermits, y) && EachClient(policy, y) && RunSystem(policy, y, events).Some?
    ensures var z := RunSystem(policy, y, events).value;
            Conserved(backendPermits, z) && EachClient(policy, z)
    decreases |events|
  {
    hide NextSystem, Conserved, EachClient;
    if events != [] {
      ConservedStep(policy, backendPermits, y, events[0]);
      EachClientStep(policy, y, events[0]);
      RunKeeps(policy, backendPermits, NextSystem(policy, y, events[0]).value, events[1..]);
    }
  }

  /** Over every interleaving of any number of clients: nothing is lost or created,
      and the payload buffers of all commands in flight stay within what is
      reserved, which stays within the 4 MiB of the budget. */
  lemma ResourcesAreConserved(policy: Policy, backendPermits: nat, events: seq<Event>)
    requires RunSystem(policy, Initial(backendPermits), events).Some?
    ensures var y := RunSystem(policy, Initial(backendPermits), events).value;
            && Conserved(backendPermits, y)
            && Total(BuffersOf, y.slots) <= Total(BytesOf, y.slots) <= MAX_IN_FLIGHT_REQUEST_BYTES
            && Total(BackendOf, y.slots) + y.httpOperations <= backendPermits
            && Total(ConnectionOf, y.slots) <= MAX_CONNECTIONS
  {
    hide NextSystem, Invariant, Total;
    NothingHeldInitially();
    RunKeeps(policy, backendPermits, Initial(backendPermits), events);
    var y := RunSystem(policy, Initial(backendPermits), events).value;
    forall i | 0 <= i < |y.slots|
      ensures BuffersOf(y.slots[i]) <= BytesOf(y.slots[i])
    {
      BuffersWithin(policy, y.slots[i].input, y.slots[i].client);
    }
    TotalMonotone(BuffersOf, BytesOf, y.slots);
  }

  lemma NothingHeldInitially()
    ensures Total(BytesOf, []) == 0 && Total(BackendOf, []) == 0 && Total(ConnectionOf, []) == 0
  {
  }

  lemma BuffersWithin(policy: Policy, input: bytes, c: Client)
    requires Invariant(policy, input, c)
    ensures Buffers(c) <= HeldBytes(c)
  {
    hide ReadInv, HandledInv, SentInv, UpstreamInv, RelayInv, ReplyInv, HoldInv;
    BuffersAreReserved(input, c);
  }

  /** Over every interleaving, and for every client in it: its upstream sees exactly its
      granted commands, and while its refusals are clean it reads one reply for each
      command, in order - whatever the other clients do. */
  lemma EveryClientIsServedRight(policy: Policy, backendPermits: nat, events: seq<Event>, i: nat)
    requires RunSystem(policy, Initial(backendPermits), events).Some?
    requires i < |RunSystem(policy, Initial(backendPermits), events).value.slots|
    ensures var slot := RunSystem(policy, Initial(backendPermits), events).value.slots[i];
            && UpstreamIsRight(policy, slot.input, slot.client)
            && (CleanRefusals(policy, slot.client) ==> RepliesAreRight(policy, slot.client))
  {
    hide NextSystem, Invariant, Total, UpstreamIsRight, RepliesAreRight, CleanRefusals;
    NothingHeldInitially();
    RunKeeps(policy, backendPermits, Initial(backendPermits), events);
    var slot := RunSystem(policy, Initial(backendPermits), events).value.slots[i];
    UpstreamOfInvariant(policy, slot.input, slot.client);
    if CleanRefusals(policy, slot.client) {
      RepliesOfInvariant(policy, slot.input, slot.client);
    }
  }

  /** Once every client is done, whichever way each ended, everything is free again. */
  lemma EverythingIsReturned(policy: Policy, backendPermits: nat, events: seq<Event>)
    requires RunSystem(policy, Initial(backendPermits), events).Some?
    requires var y := RunSystem(policy, Initial(backendPermits), events).value;
             && y.httpOperations == 0
             && forall i :: 0 <= i < |y.slots| ==> y.slots[i].client.phase.Closed? && !y.slots[i].permit
    ensures var y := RunSystem(policy, Initial(backendPermits), events).value;
            && y.shared == Shared(MAX_IN_FLIGHT_REQUEST_BYTES, backendPermits)
            && y.freeConnections == MAX_CONNECTIONS
  {
    hide NextSystem, Total;
    ResourcesAreConserved(policy, backendPermits, events);
    var y := RunSystem(policy, Initial(backendPermits), events).value;
    forall i | 0 <= i < |y.slots|
      ensures BytesOf(y.slots[i]) == 0 && BackendOf(y.slots[i]) == 0 && ConnectionOf(y.slots[i]) == 0
    {
      ClosedHoldsNothing(y.slots[i].client);
    }
    TotalZero(BytesOf, y.slots);
    TotalZero(BackendOf, y.slots);
    TotalZero(ConnectionOf, y.slots);
  }

  lemma ClosedHoldsNothing(c: Client)
    requires c.phase.Closed?
    ensures HeldBytes(c) == 0 && HeldBackend(c) == 0
  {
  }

  // ---------------------------------------------------- each client sees a run of its own

  /** The steps of slot `i` in a run of the system. */
  function TurnsOf(policy: Policy, y: System, events: seq<Event>, i: nat): seq<Turn>
    decreases |events|
  {
    if events == [] || NextSystem(policy, y, events[0]).None? then []
    else
      (if events[0].Step? && events[0].index == i then [Turn(events[0].action, y.shared)] else [])
      + TurnsOf(policy, NextSystem(policy, y, events[0]).value, events[1..], i)
  }

  /** What a client does in the system is a run of that client alone, so every
      property of single-client runs holds for each client under interference. */
  lemma {:induction false} ClientRunsAlone(policy: Policy, y: System, events: seq<Event>, i: nat)
    requires i < |y.slots| && RunSystem(policy, y, events).Some?
    ensures var z := RunSystem(policy, y, events).value;
            && i < |z.slots| && z.slots[i].input == y.slots[i].input
            && Run(policy, y.slots[i].client, TurnsOf(policy, y, events, i)) == Some(z.slots[i].client)
    decreases |events|
  {
    hide Next;
    if events != [] {
      var y' := NextSystem(policy, y, events[0]).value;
      var turns := TurnsOf(policy, y', events[1..], i);
      ClientRunsAlone(policy, y', events[1..], i);
      if events[0].Step? && events[0].index == i {
        var first := Turn(events[0].action, y.shared);
        assert ([first] + turns)[0] == first && ([first] + turns)[1..] == turns;
      } else {
        assert [] + turns == turns;
      }
    }
  }
}
