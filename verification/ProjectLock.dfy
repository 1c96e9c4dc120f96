/** The project lock: a directory holding an owner record, taken, recovered and released
    by concurrent processes whose file operations interleave. */
module ProjectLock {
  import opened Prelude

  // -------------------------------------------------------------------------------- state

  /** The owner file: absent, created but not yet written, or naming a process. */
  datatype Owner = NoRecord | Blank | Names(process: nat)

  /** The lock directory. `foreign` is an entry other than the owner file. The rest is
      bookkeeping no process reads: `gen` numbers the directories made, `maker` made this
      one, and it is `disturbed` once a recoverer has removed a record from it. */
  datatype Dir = Dir(gen: nat, maker: nat, owner: Owner, foreign: bool, disturbed: bool)

  /** Where a process is; `g` is the directory it made or read the record of. */
  datatype Phase =
    | Idle
    | Attempt                       // about to make the directory
    | Made(g: nat)                  // about to create the owner file
    | Opened(g: nat)                // about to write the record
    | Written(g: nat)               // about to set the directory's mode
    | Holding(g: nat)
    | Undo(g: nat)                  // recording failed: about to remove the owner file
    | UndoDir(g: nat)
    | Checking                      // the directory exists: about to validate it
    | Reading
    | Judging(q: nat, g: nat)       // read `q`: about to look whether it lives
    | Removing(q: nat, g: nat)      // `q` is gone: about to remove the owner file
    | RemoveFailed
    | Removed(q: nat, g: nat)       // about to remove the directory
    | Restoring(q: nat, g: nat)     // the directory would not go: about to put the record back
    | Releasing(g: nat)             // about to read the record
    | Unlinking(g: nat)
    | Unlinked(g: nat)
    | PutBack(g: nat)

  datatype Proc = Proc(alive: bool, phase: Phase)

  datatype State = State(dir: Option<Dir>, made: nat, procs: seq<Proc>) {
    predicate Alive(p: nat) {
      p < |procs| && procs[p].alive
    }

    predicate Gone(p: nat) {
      p < |procs| && !procs[p].alive
    }

    function Put(p: nat, phase: Phase): State
      requires p < |procs|
    {
      this.(procs := procs[p := procs[p].(phase := phase)])
    }

    function Kill(p: nat): State
      requires p < |procs|
    {
      this.(procs := procs[p := procs[p].(alive := false)])
    }

    function WithOwner(owner: Owner): State
      requires dir.Some?
    {
      this.(dir := Some(dir.value.(owner := owner)))
    }

    /** A recoverer takes the record away. */
    function WithoutRecord(): State
      requires dir.Some?
    {
      this.(dir := Some(dir.value.(owner := NoRecord, disturbed := true)))
    }

    predicate HasRecord() {
      dir.Some? && !dir.value.owner.NoRecord?
    }

    /** The directory can be removed. */
    predicate Removable() {
      dir.Some? && dir.value.owner.NoRecord? && !dir.value.foreign
    }
  }

  datatype Action =
    | Begin(p: nat)
    | Run(p: nat)                   // the next file operation or test of a process
    | Fault(p: nat)                 // writing the record fails, or setting the mode
    | Finish(p: nat)                // the holder starts to release
    | Die(p: nat)
    | Spawn                         // one more process starts
    | Meddle(foreign: bool)         // an outsider adds or removes another entry

  // -------------------------------------------------------------------------------- steps

  function Next(s: State, a: Action): Option<State> {
    match a
    case Begin(p) => if s.Alive(p) && s.procs[p].phase.Idle? then Some(s.Put(p, Attempt)) else None
    case Run(p) => if s.Alive(p) then Advance(s, p) else None
    case Fault(p) =>
      if s.Alive(p) then
        (match s.procs[p].phase
         case Made(g) => Some(s.Put(p, Undo(g)))
         case Opened(g) => Some(s.Put(p, Undo(g)))
         case Written(g) => Some(s.Put(p, Undo(g)))
         case Restoring(_, _) => Some(s.Kill(p))
         case PutBack(_) => Some(s.Put(p, Idle))
         case _ => None)
      else None
    case Finish(p) =>
      if s.Alive(p) && s.procs[p].phase.Holding? then Some(s.Put(p, Releasing(s.procs[p].phase.g))) else None
    case Die(p) => if s.Alive(p) then Some(s.Kill(p)) else None
    case Spawn => Some(s.(procs := s.procs + [Proc(true, Idle)]))
    case Meddle(foreign) => if s.dir.Some? then Some(s.(dir := Some(s.dir.value.(foreign := foreign)))) else None
  }

  /** One operation of a living process. */
  function Advance(s: State, p: nat): Option<State>
    requires s.Alive(p)
  {
    match s.procs[p].phase
    case Attempt =>
      if s.dir.Some? then Some(s.Put(p, Checking))
      else
        var g := s.made + 1;
        Some(s.(dir := Some(Dir(g, p, NoRecord, false, false)), made := g).Put(p, Made(g)))
    case Made(g) =>
      if s.dir.Some? then Some(s.WithOwner(Blank).Put(p, Opened(s.dir.value.gen))) else Some(s.Put(p, Undo(g)))
    case Opened(g) =>
      // The bytes go to the file that was opened; the mode is set on the path.
      if s.dir.Some? && s.dir.value.gen == g && s.dir.value.owner.Blank?
      then Some(s.WithOwner(Names(p)).Put(p, Written(g)))
      else if s.HasRecord() then Some(s.Put(p, Written(g)))
      else Some(s.Put(p, Undo(g)))
    case Written(g) => if s.dir.Some? then Some(s.Put(p, Holding(g))) else Some(s.Put(p, Undo(g)))
    case Undo(g) =>
      if s.dir.Some? then Some(s.WithOwner(NoRecord).Put(p, UndoDir(g))) else Some(s.Put(p, UndoDir(g)))
    case UndoDir(_) => if s.Removable() then Some(s.(dir := None).Kill(p)) else Some(s.Kill(p))
    case Checking => if s.dir.Some? then Some(s.Put(p, Reading)) else Some(s.Kill(p))
    case Reading =>
      if s.dir.Some? && s.dir.value.owner.Names?
      then Some(s.Put(p, Judging(s.dir.value.owner.process, s.dir.value.gen)))
      else Some(s.Kill(p))
    case Judging(q, g) => if s.Alive(q) then Some(s.Kill(p)) else Some(s.Put(p, Removing(q, g)))
    case Removing(q, _) =>
      if s.HasRecord() then Some(s.WithoutRecord().Put(p, Removed(q, s.dir.value.gen)))
      else Some(s.Put(p, RemoveFailed))
    case RemoveFailed => if s.dir.Some? then Some(s.Kill(p)) else Some(s.Put(p, Attempt))
    case Removed(q, g) =>
      if s.Removable() then Some(s.(dir := None).Put(p, Attempt)) else Some(s.Put(p, Restoring(q, g)))
    case Restoring(q, _) =>
      if s.dir.Some? && s.dir.value.owner.NoRecord? then Some(s.WithOwner(Names(q)).Kill(p)) else Some(s.Kill(p))
    case Releasing(g) =>
      if s.dir.Some? && s.dir.value.owner == Names(p) then Some(s.Put(p, Unlinking(g))) else Some(s.Put(p, Idle))
    case Unlinking(g) =>
      if s.HasRecord() then Some(s.WithOwner(NoRecord).Put(p, Unlinked(g))) else Some(s.Put(p, Idle))
    case Unlinked(g) =>
      if s.Removable() then Some(s.(dir := None).Put(p, Idle)) else Some(s.Put(p, PutBack(g)))
    case PutBack(_) =>
      if s.dir.Some? && s.dir.value.owner.NoRecord? then Some(s.WithOwner(Names(p)).Put(p, Idle)) else Some(s.Put(p, Idle))
    case _ => None
  }

  function Initial(n: nat): State {
    State(None, 0, seq(n, _ => Proc(true, Idle)))
  }

  // ---------------------------------------------------------------------------- invariant

  /** The phases in which a process is about to change or remove the directory, or relies on
      its record standing there. A process about to read its record does neither yet. */
  predicate Custodian(phase: Phase) {
    || phase.Made? || phase.Opened? || phase.Written? || phase.Holding? || phase.Undo? || phase.UndoDir?
    || phase.Removed? || phase.Restoring? || phase.Unlinking? || phase.Unlinked? || phase.PutBack?
  }

  predicate LiveCustodian(s: State, p: nat) {
    s.Alive(p) && Custodian(s.procs[p].phase)
  }

  /** `p` made this directory, no recoverer touched it, and its owner file is as given. */
  predicate MadeBy(s: State, g: nat, p: nat, owner: Owner) {
    s.dir.Some? && s.dir.value.gen == g && s.dir.value.maker == p && s.dir.value.owner == owner && !s.dir.value.disturbed
  }

  /** A record read in an undisturbed directory names its maker. */
  predicate ReadFrom(s: State, q: nat, g: nat) {
    && g <= s.made && q < |s.procs|
    && (s.dir.Some? && s.dir.value.gen == g && !s.dir.value.disturbed ==> q == s.dir.value.maker)
  }

  /** The directory was disturbed by a recoverer, who now looks after it. */
  predicate TakenFrom(s: State, q: nat, g: nat) {
    s.dir.Some? && s.dir.value.gen == g && s.dir.value.owner.NoRecord? && s.dir.value.disturbed && s.Gone(q)
  }

  /** What holds of a living process by its phase. */
  predicate ProcOk(s: State, p: nat)
    requires p < |s.procs|
  {
    s.procs[p].alive ==>
      match s.procs[p].phase
      case Made(g) => MadeBy(s, g, p, NoRecord)
      case Opened(g) => MadeBy(s, g, p, Blank)
      case Written(g) => MadeBy(s, g, p, Names(p))
      case Holding(g) => MadeBy(s, g, p, Names(p))
      case Unlinking(g) => MadeBy(s, g, p, Names(p))
      case Undo(g) => s.dir.Some? && MadeBy(s, g, p, s.dir.value.owner)
      case UndoDir(g) => MadeBy(s, g, p, NoRecord)
      case Unlinked(g) => MadeBy(s, g, p, NoRecord)
      case PutBack(g) => MadeBy(s, g, p, NoRecord)
      case Releasing(g) => g <= s.made && (s.dir.Some? && s.dir.value.maker == p ==> s.dir.value.gen == g)
      case Removed(q, g) => TakenFrom(s, q, g)
      case Restoring(q, g) => TakenFrom(s, q, g)
      case Judging(q, g) => ReadFrom(s, q, g)
      case Removing(q, g) => ReadFrom(s, q, g) && s.Gone(q)
      case _ => true
  }

  /** A record names the maker, or in a disturbed directory one that is gone. */
  predicate DirOk(s: State) {
    s.dir.Some? ==>
      && s.dir.value.gen == s.made && s.dir.value.maker < |s.procs|
      && (s.dir.value.owner.Names? ==>
            if s.dir.value.disturbed then s.Gone(s.dir.value.owner.process)
            else s.dir.value.owner.process == s.dir.value.maker)
  }

  predicate Unique(s: State) {
    forall p, q :: 0 <= p < |s.procs| && 0 <= q < |s.procs| && LiveCustodian(s, p) && LiveCustodian(s, q) ==> p == q
  }

  predicate Inv(s: State) {
    DirOk(s) && Unique(s) && forall p :: 0 <= p < |s.procs| ==> ProcOk(s, p)
  }

  /** `p` is about to remove an owner record it has judged stale, and there is one. */
  predicate RemovesRecord(s: State, a: Action) {
    a.Run? && s.Alive(a.p) && s.procs[a.p].phase.Removing? && s.HasRecord()
  }

  /** The directory is still the one whose record was read. */
  predicate Fresh(s: State, a: Action) {
    RemovesRecord(s, a) ==> s.dir.value.gen == s.procs[a.p].phase.g
  }

  ghost predicate SomeCustodian(s: State) {
    exists p :: 0 <= p < |s.procs| && LiveCustodian(s, p)
  }

  /** What keeping the invariant needs of a step. */
  ghost predicate Allowed(s: State, a: Action) {
    RemovesRecord(s, a) ==> !SomeCustodian(s)
  }

  // ------------------------------------------------------------------------------- frames

  /** The directory is as before, or nobody but `i` looks after it and `i` made it anew or
      changed what is in it. */
  predicate DirMovesFor(s: State, i: nat, dir: Option<Dir>, made: nat) {
    && s.made <= made
    && (dir.Some? && (s.dir.None? || dir.value.gen != s.dir.value.gen) ==> s.made < dir.value.gen && dir.value.maker == i)
    && (dir.Some? && s.dir.Some? && dir.value.gen == s.dir.value.gen ==>
          dir.value.maker == s.dir.value.maker && (s.dir.value.disturbed ==> dir.value.disturbed))
    && (dir == s.dir || (forall p :: 0 <= p < |s.procs| && p != i ==> !LiveCustodian(s, p)))
  }

  /** Only process `i` moved, and it did not come to life. */
  predicate OnlyMoves(s: State, i: nat, t: State) {
    && i < |s.procs| == |t.procs|
    && t.procs == s.procs[i := t.procs[i]]
    && (t.procs[i].alive ==> s.procs[i].alive)
    && DirMovesFor(s, i, t.dir, t.made)
  }

  /** The processes that do not move keep what holds of them. */
  lemma OthersKeep(s: State, i: nat, t: State, p: nat)
    requires DirOk(s) && OnlyMoves(s, i, t)
    requires p < |s.procs| && p != i && ProcOk(s, p)
    ensures ProcOk(t, p)
  {
    assert t.procs[p] == s.procs[p];
    assert forall q: nat :: s.Gone(q) ==> t.Gone(q);
    if s.procs[p].alive && Custodian(s.procs[p].phase) {
      assert LiveCustodian(s, p);
      assert t.dir == s.dir;
    }
  }

  /** A step of `i` keeps the invariant when it leaves `i` and the directory in order and
      makes no second custodian. */
  lemma Assemble(s: State, i: nat, t: State)
    requires Inv(s) && OnlyMoves(s, i, t)
    requires ProcOk(t, i) && DirOk(t)
    requires LiveCustodian(t, i) ==> LiveCustodian(s, i) || !SomeCustodian(s)
    ensures Inv(t)
  {
    hide ProcOk, DirOk, Custodian, DirMovesFor;
    forall p | 0 <= p < |t.procs|
      ensures ProcOk(t, p)
    {
      if p != i { OthersKeep(s, i, t, p); }
    }
    forall p, q | 0 <= p < |t.procs| && 0 <= q < |t.procs| && LiveCustodian(t, p) && LiveCustodian(t, q)
      ensures p == q
    {
      assert p != i ==> LiveCustodian(s, p);
      assert q != i ==> LiveCustodian(s, q);
    }
  }

  /** A living custodian means there is a directory. */
  lemma CustodianHasDir(s: State)
    requires Inv(s) && SomeCustodian(s)
    ensures s.dir.Some?
  {
    var p :| 0 <= p < |s.procs| && LiveCustodian(s, p);
    assert ProcOk(s, p);
  }

  /** Only the custodian itself can be one. */
  lemma AloneInCustody(s: State, i: nat)
    requires Inv(s) && LiveCustodian(s, i)
    ensures forall p :: 0 <= p < |s.procs| && p != i ==> !LiveCustodian(s, p)
  {
  }

  // --------------------------------------------------------------------- keeping it, by step

  lemma AttemptKeeps(s: State, i: nat)
    requires Inv(s) && s.Alive(i) && s.procs[i].phase.Attempt?
    ensures Inv(Advance(s, i).value)
  {
    hide Inv;
    var t := Advance(s, i).value;
    if s.dir.None? && SomeCustodian(s) { CustodianHasDir(s); }
    InvParts(s, i);
    Assemble(s, i, t);
  }

  lemma InvParts(s: State, i: nat)
    requires Inv(s) && i < |s.procs|
    ensures ProcOk(s, i) && DirOk(s)
    ensures !SomeCustodian(s) ==> forall p :: 0 <= p < |s.procs| ==> !LiveCustodian(s, p)
  {
  }

  /** Making, recording, undoing, releasing: the steps of a custodian. */
  lemma CustodianKeeps(s: State, i: nat)
    requires Inv(s) && LiveCustodian(s, i)
    ensures Advance(s, i).None? || Inv(Advance(s, i).value)
  {
    hide Inv;
    InvParts(s, i);
    AloneInCustody(s, i);
    if Advance(s, i).Some? {
      Assemble(s, i, Advance(s, i).value);
    }
  }

  /** Validating, reading and judging change nothing but the process. */
  lemma ObserverKeeps(s: State, i: nat)
    requires Inv(s) && s.Alive(i) && !Custodian(s.procs[i].phase)
    requires !s.procs[i].phase.Attempt? && !s.procs[i].phase.Removing? && !s.procs[i].phase.Releasing?
    ensures Advance(s, i).None? || Inv(Advance(s, i).value)
  {
    hide Inv;
    InvParts(s, i);
    if Advance(s, i).Some? {
      Assemble(s, i, Advance(s, i).value);
    }
  }

  /** A releasing process that finds its record made the directory, and nobody else looks
      after it. */
  lemma ReleasingKeeps(s: State, i: nat)
    requires Inv(s) && s.Alive(i) && s.procs[i].phase.Releasing?
    ensures Inv(Advance(s, i).value)
  {
    hide Inv;
    InvParts(s, i);
    if s.dir.Some? && s.dir.value.owner == Names(i) { OwnRecordAlone(s, i); }
    Assemble(s, i, Advance(s, i).value);
  }

  lemma OwnRecordAlone(s: State, i: nat)
    requires Inv(s) && s.Alive(i) && !Custodian(s.procs[i].phase) && s.dir.Some? && s.dir.value.owner == Names(i)
    ensures !SomeCustodian(s)
  {
    forall c | 0 <= c < |s.procs| && LiveCustodian(s, c)
      ensures c == i
    {
      KeeperIsMaker(s, c);
    }
  }

  lemma RemovingKeeps(s: State, i: nat)
    requires Inv(s) && s.Alive(i) && s.procs[i].phase.Removing?
    requires s.HasRecord() ==> !SomeCustodian(s)
    ensures Inv(Advance(s, i).value)
  {
    hide Inv;
    InvParts(s, i);
    Assemble(s, i, Advance(s, i).value);
  }

  /** Dying, failing to record, starting, finishing. */
  lemma LocalKeeps(s: State, a: Action)
    requires Inv(s) && Next(s, a).Some? && !a.Run? && !a.Meddle? && !a.Spawn?
    ensures Inv(Next(s, a).value)
  {
    hide Inv;
    InvParts(s, a.p);
    Assemble(s, a.p, Next(s, a).value);
  }

  lemma MeddleKeeps(s: State, a: Action)
    requires Inv(s) && Next(s, a).Some? && a.Meddle?
    ensures Inv(Next(s, a).value)
  {
    var t := Next(s, a).value;
    forall p | 0 <= p < |t.procs|
      ensures ProcOk(t, p)
    {
      assert ProcOk(s, p);
    }
    assert forall p :: LiveCustodian(t, p) ==> LiveCustodian(s, p);
  }

  lemma SpawnKeeps(s: State)
    requires Inv(s)
    ensures Inv(Next(s, Spawn).value)
  {
    var t := Next(s, Spawn).value;
    forall p | 0 <= p < |t.procs|
      ensures ProcOk(t, p)
    {
      if p < |s.procs| { assert ProcOk(s, p); }
    }
    assert forall p :: LiveCustodian(t, p) ==> LiveCustodian(s, p);
  }

  /** Every step keeps the invariant, provided no record is removed under a custodian. */
  lemma NextKeeps(s: State, a: Action)
    requires Inv(s) && Next(s, a).Some? && Allowed(s, a)
    ensures Inv(Next(s, a).value)
  {
    hide Inv, ProcOk, DirOk, Unique, SomeCustodian, Advance;
    if a.Meddle? {
      MeddleKeeps(s, a);
    } else if a.Spawn? {
      SpawnKeeps(s);
    } else if !a.Run? {
      LocalKeeps(s, a);
    } else if Custodian(s.procs[a.p].phase) {
      CustodianKeeps(s, a.p);
    } else if s.procs[a.p].phase.Attempt? {
      AttemptKeeps(s, a.p);
    } else if s.procs[a.p].phase.Removing? {
      RemovingKeeps(s, a.p);
    } else if s.procs[a.p].phase.Releasing? {
      ReleasingKeeps(s, a.p);
    } else {
      ObserverKeeps(s, a.p);
    }
  }

  // ------------------------------------------------------------------- removing a record

  /** A living custodian of a directory with a record made that directory itself. */
  lemma KeeperIsMaker(s: State, c: nat)
    requires Inv(s) && LiveCustodian(s, c) && s.HasRecord()
    ensures var phase := s.procs[c].phase;
            && (phase.Opened? || phase.Written? || phase.Holding? || phase.Undo? || phase.Unlinking?)
            && s.dir.value.maker == c && s.dir.value.gen == s.made == phase.g && !s.dir.value.disturbed
  {
    assert ProcOk(s, c);
  }

  /** When a record is removed although somebody looks after the directory, the directory
      was made anew after the record was read. */
  lemma RemovedUnderCustodian(s: State, a: Action)
    requires Inv(s) && RemovesRecord(s, a) && SomeCustodian(s)
    ensures s.dir.value.gen > s.procs[a.p].phase.g && LiveCustodian(s, s.dir.value.maker)
  {
    assert ProcOk(s, a.p);
    var c :| 0 <= c < |s.procs| && LiveCustodian(s, c);
    KeeperIsMaker(s, c);
  }

  /** While the directory is the one whose record was read, nobody looks after it: removing
      the record is safe. */
  lemma FreshIsAllowed(s: State, a: Action)
    requires Inv(s) && Fresh(s, a)
    ensures Allowed(s, a)
  {
    if RemovesRecord(s, a) && SomeCustodian(s) { RemovedUnderCustodian(s, a); }
  }

  /** Removing a record keeps the invariant exactly when nobody looks after the directory;
      otherwise its maker does, and the directory was made anew after the record was
      read. */
  lemma RemovalIsSafeExactly(s: State, a: Action)
    requires Inv(s) && RemovesRecord(s, a)
    ensures Next(s, a).Some?
    ensures Inv(Next(s, a).value) <==> !SomeCustodian(s)
    ensures SomeCustodian(s) ==> s.dir.value.gen > s.procs[a.p].phase.g && LiveCustodian(s, s.dir.value.maker)
  {
    var t := Next(s, a).value;
    if SomeCustodian(s) {
      var c :| 0 <= c < |s.procs| && LiveCustodian(s, c);
      assert LiveCustodian(t, c) && LiveCustodian(t, a.p);
      RemovedUnderCustodian(s, a);
    } else {
      NextKeeps(s, a);
    }
  }

  // -------------------------------------------------------------------------------- runs

  /** Every removal along the run is of the record that was read. */
  ghost predicate FreshRun(s: State, actions: seq<Action>, t: State)
    decreases |actions|
  {
    if actions == [] then t == s
    else Fresh(s, actions[0]) && Next(s, actions[0]).Some? && FreshRun(Next(s, actions[0]).value, actions[1..], t)
  }

  lemma InitialIsFine(n: nat)
    ensures Inv(Initial(n))
  {
  }

  lemma {:induction false} RunKeeps(s: State, actions: seq<Action>, t: State)
    requires Inv(s) && FreshRun(s, actions, t)
    ensures Inv(t)
    decreases |actions|
  {
    hide Inv, Next, Fresh, Allowed;
    if actions != [] {
      FreshIsAllowed(s, actions[0]);
      NextKeeps(s, actions[0]);
      RunKeeps(Next(s, actions[0]).value, actions[1..], t);
    }
  }

  predicate Holds(s: State, p: nat) {
    s.Alive(p) && s.procs[p].phase.Holding?
  }

  /** In every run without stale removals at most one living process holds the lock, its
      record stands, and a release finds its own record to remove. */
  lemma LockIsSafe(n: nat, actions: seq<Action>, s: State)
    requires FreshRun(Initial(n), actions, s)
    ensures forall p, q :: Holds(s, p) && Holds(s, q) ==> p == q
    ensures forall p :: Holds(s, p) ==> s.dir.Some? && s.dir.value.owner == Names(p)
    ensures forall p: nat :: s.Alive(p) && s.procs[p].phase.Unlinking? ==> s.dir.Some? && s.dir.value.owner == Names(p)
  {
    InitialIsFine(n);
    RunKeeps(Initial(n), actions, s);
    assert forall p: nat :: s.Alive(p) ==> ProcOk(s, p);
    assert forall p :: Holds(s, p) ==> LiveCustodian(s, p);
  }

  // ------------------------------------------------- what one removal under a custodian does

  /** Two living processes hold the lock. */
  ghost predicate TwoHold(s: State) {
    exists p, q :: Holds(s, p) && Holds(s, q) && p != q
  }

  /** Some run without stale removals leads from `s` to `t`. */
  ghost predicate Reaches(s: State, t: State) {
    exists actions :: FreshRun(s, actions, t)
  }

  lemma {:induction false} RunsJoin(s: State, a: seq<Action>, t: State, b: seq<Action>, u: State)
    requires FreshRun(s, a, t) && FreshRun(t, b, u)
    ensures FreshRun(s, a + b, u)
    decreases |a|
  {
    hide Next, Fresh;
    if a == [] {
      assert a + b == b;
    } else {
      assert (a + b)[0] == a[0] && (a + b)[1..] == a[1..] + b;
      RunsJoin(Next(s, a[0]).value, a[1..], t, b, u);
    }
  }

  lemma ReachesOn(s: State, t: State, u: State)
    requires Reaches(s, t) && Reaches(t, u)
    ensures Reaches(s, u)
  {
    hide FreshRun;
    var a :| FreshRun(s, a, t);
    var b :| FreshRun(t, b, u);
    RunsJoin(s, a, t, b, u);
  }

  /** One more step. */
  lemma ReachesBy(s: State, t: State, a: Action, u: State)
    requires Reaches(s, t) && Fresh(t, a) && Next(t, a) == Some(u)
    ensures Reaches(s, u)
  {
    hide Next, Fresh;
    assert [a][1..] == [];
    assert FreshRun(t, [a], u);
    ReachesOn(s, t, u);
  }

  lemma ReachesSelf(s: State)
    ensures Reaches(s, s)
  {
    assert FreshRun(s, [], s);
  }

  /** `p` made the directory and recorded itself. */
  function Taken(s: State, p: nat): State
    requires p < |s.procs|
  {
    s.(dir := Some(Dir(s.made + 1, p, Names(p), false, false)), made := s.made + 1).Put(p, Holding(s.made + 1))
  }

  /** A free lock is taken in four steps. */
  lemma ReachesTaken(s: State, p: nat)
    requires s.Alive(p) && s.procs[p].phase.Attempt? && s.dir.None?
    ensures Reaches(s, Taken(s, p))
  {
    hide Reaches;
    var g := s.made + 1;
    var made := s.(dir := Some(Dir(g, p, NoRecord, false, false)), made := g).Put(p, Made(g));
    var blank := made.WithOwner(Blank).Put(p, Opened(g));
    var named := blank.WithOwner(Names(p)).Put(p, Written(g));
    var held := named.Put(p, Holding(g));
    ReachesSelf(s);
    ReachesBy(s, s, Run(p), made);
    ReachesBy(s, made, Run(p), blank);
    ReachesBy(s, blank, Run(p), named);
    ReachesBy(s, named, Run(p), held);
    assert held == Taken(s, p);
  }

  /** `p` has just taken the lock. */
  predicate Secured(s: State, p: nat) {
    s.Alive(p) && s.procs[p].phase == Holding(s.made) && s.dir == Some(Dir(s.made, p, Names(p), false, false))
  }

  /** A recoverer that took the record goes on to take the lock. */
  lemma RecovererTakes(s: State, p: nat, c: nat)
    requires s.Alive(p) && s.procs[p].phase.Removing? && s.HasRecord() && c < |s.procs| && c != p
    ensures exists t :: Reaches(Next(s, Run(p)).value, t) && Secured(t, p) && |t.procs| == |s.procs|
                        && t.procs[c] == s.procs[c] && t.made == s.made + 1
  {
    hide Reaches;
    var q, gen := s.procs[p].phase.q, s.dir.value.gen;
    var s1 := Next(s, Run(p)).value;
    var s2 := s1.(dir := Some(s1.dir.value.(foreign := false)));
    var s3 := s2.(dir := None).Put(p, Attempt);
    ReachesSelf(s1);
    ReachesBy(s1, s1, Meddle(false), s2);
    ReachesBy(s1, s2, Run(p), s3);
    ReachesTaken(s3, p);
    ReachesOn(s1, s3, Taken(s3, p));
    assert Secured(Taken(s3, p), p);
  }

  /** Once the directory of a holder is gone, one process more is enough. */
  lemma NewcomerTakes(s: State, p: nat)
    requires s.Alive(p) && s.procs[p].phase.Holding? && s.dir.None?
    ensures exists t :: Reaches(s, t) && TwoHold(t)
  {
    hide Reaches;
    var r := |s.procs|;
    var s1 := s.(procs := s.procs + [Proc(true, Idle)]);
    var s2 := s1.Put(r, Attempt);
    ReachesSelf(s);
    ReachesBy(s, s, Spawn, s1);
    ReachesBy(s, s1, Begin(r), s2);
    ReachesTaken(s2, r);
    var t := Taken(s2, r);
    ReachesOn(s, s2, t);
    assert Holds(t, p) && Holds(t, r);
  }

  /** A maker undoing its record takes the new holder's directory away. */
  lemma UndoBreaks(s: State, p: nat, c: nat)
    requires Secured(s, p) && s.Alive(c) && c != p && s.procs[c].phase.Undo?
    ensures exists t :: Reaches(s, t) && TwoHold(t)
  {
    hide Reaches;
    var g := s.procs[c].phase.g;
    var s1 := s.WithOwner(NoRecord).Put(c, UndoDir(g));
    var s2 := s1.(dir := None).Kill(c);
    ReachesSelf(s);
    ReachesBy(s, s, Run(c), s1);
    ReachesBy(s, s1, Run(c), s2);
    NewcomerTakes(s2, p);
    var t :| Reaches(s2, t) && TwoHold(t);
    ReachesOn(s, s2, t);
  }

  /** So does a releasing one that already read its own record. */
  lemma UnlinkBreaks(s: State, p: nat, c: nat)
    requires Secured(s, p) && s.Alive(c) && c != p && s.procs[c].phase.Unlinking?
    ensures exists t :: Reaches(s, t) && TwoHold(t)
  {
    hide Reaches;
    var g := s.procs[c].phase.g;
    var s1 := s.WithOwner(NoRecord).Put(c, Unlinked(g));
    var s2 := s1.(dir := None).Put(c, Idle);
    ReachesSelf(s);
    ReachesBy(s, s, Run(c), s1);
    ReachesBy(s, s1, Run(c), s2);
    NewcomerTakes(s2, p);
    var t :| Reaches(s2, t) && TwoHold(t);
    ReachesOn(s, s2, t);
  }

  /** Whatever phase the custodian was in, two can come to hold the lock. */
  lemma CustodianBreaks(s: State, p: nat, c: nat)
    requires Secured(s, p) && s.Alive(c) && c != p
    requires var phase := s.procs[c].phase;
             phase.Undo? || phase.Unlinking? || ((phase.Opened? || phase.Written? || phase.Holding?) && phase.g < s.made)
    ensures exists t :: Reaches(s, t) && TwoHold(t)
  {
    hide Reaches;
    ReachesSelf(s);
    match s.procs[c].phase
    case Undo(_) => UndoBreaks(s, p, c);
    case Unlinking(_) => UnlinkBreaks(s, p, c);
    case Opened(g) =>
      var s1, s2 := s.Put(c, Written(g)), s.Put(c, Holding(g));
      assert s1.Put(c, Holding(g)) == s2;
      ReachesBy(s, s, Run(c), s1);
      ReachesBy(s, s1, Run(c), s2);
      assert Holds(s2, c) && Holds(s2, p);
    case Written(g) =>
      var s1 := s.Put(c, Holding(g));
      ReachesBy(s, s, Run(c), s1);
      assert Holds(s1, c) && Holds(s1, p);
    case Holding(_) =>
      assert Holds(s, c) && Holds(s, p);
  }

  /** After a record is removed, mutual exclusion holds in every run without a further stale
      removal exactly when no living process was looking after the directory. */
  lemma RemovalBreaksExactly(s: State, p: nat)
    requires Inv(s) && RemovesRecord(s, Run(p))
    ensures (exists t :: Reaches(Next(s, Run(p)).value, t) && TwoHold(t)) <==> SomeCustodian(s)
  {
    hide Reaches;
    var s1 := Next(s, Run(p)).value;
    if SomeCustodian(s) {
      var c :| 0 <= c < |s.procs| && LiveCustodian(s, c);
      KeeperIsMaker(s, c);
      RecovererTakes(s, p, c);
      var t :| Reaches(s1, t) && Secured(t, p) && |t.procs| == |s.procs| && t.procs[c] == s.procs[c] && t.made == s.made + 1;
      CustodianBreaks(t, p, c);
      var u :| Reaches(t, u) && TwoHold(u);
      ReachesOn(s1, t, u);
    } else {
      NextKeeps(s, Run(p));
      forall t | Reaches(s1, t)
        ensures !TwoHold(t)
      {
        StaysExclusive(s1, t);
      }
    }
  }

  lemma StaysExclusive(s: State, t: State)
    requires Inv(s) && Reaches(s, t)
    ensures !TwoHold(t)
  {
    hide Inv, FreshRun;
    var actions :| FreshRun(s, actions, t);
    RunKeeps(s, actions, t);
    OneHolds(t);
  }

  lemma OneHolds(s: State)
    requires Inv(s)
    ensures !TwoHold(s)
  {
    assert forall p :: Holds(s, p) ==> LiveCustodian(s, p);
  }

  /** From the start, for every process about to remove a record: if the directory is still
      the one it read, exclusion is never lost by this; if it was made anew, exclusion can
      be lost exactly while somebody looks after it. */
  lemma StaleRemovalExactly(n: nat, actions: seq<Action>, s: State, p: nat)
    requires FreshRun(Initial(n), actions, s) && RemovesRecord(s, Run(p))
    ensures !TwoHold(s)
    ensures (exists t :: Reaches(Next(s, Run(p)).value, t) && TwoHold(t))
            <==> s.dir.value.gen != s.procs[p].phase.g && SomeCustodian(s)
  {
    hide Inv, Reaches, FreshRun, TwoHold, SomeCustodian;
    InitialIsFine(n);
    RunKeeps(Initial(n), actions, s);
    OneHolds(s);
    RemovalBreaksExactly(s, p);
    if SomeCustodian(s) { RemovedUnderCustodian(s, Run(p)); }
  }

  // ----------------------------------------------------------- a condition on the schedule

  /** `p` lies between reading a record and removing it. */
  predicate Recovering(s: State, p: nat) {
    s.Alive(p) && (s.procs[p].phase.Judging? || s.procs[p].phase.Removing?)
  }

  /** No directory is made while anybody is recovering. */
  ghost predicate Calm(s: State, a: Action) {
    a.Run? && s.Alive(a.p) && s.procs[a.p].phase.Attempt? && s.dir.None? ==>
      forall p :: 0 <= p < |s.procs| ==> !Recovering(s, p)
  }

  predicate ReadsAreCurrent(s: State) {
    forall p :: 0 <= p < |s.procs| && Recovering(s, p) && s.dir.Some? ==> s.procs[p].phase.g == s.dir.value.gen
  }

  ghost predicate CalmRun(s: State, actions: seq<Action>, t: State)
    decreases |actions|
  {
    if actions == [] then t == s
    else Calm(s, actions[0]) && Next(s, actions[0]).Some? && CalmRun(Next(s, actions[0]).value, actions[1..], t)
  }

  lemma CalmKeepsReads(s: State, a: Action)
    requires ReadsAreCurrent(s) && Calm(s, a) && Next(s, a).Some?
    ensures Fresh(s, a) && ReadsAreCurrent(Next(s, a).value)
  {
    var t := Next(s, a).value;
    forall p | 0 <= p < |t.procs| && Recovering(t, p) && t.dir.Some?
      ensures t.procs[p].phase.g == t.dir.value.gen
    {
      assert s.procs[p].phase == t.procs[p].phase ==> Recovering(s, p);
      if a.Run? && a.p == p && s.procs[p].phase.Judging? { assert Recovering(s, p); }
    }
    if RemovesRecord(s, a) { assert Recovering(s, a.p); }
  }

  /** If no directory is made inside anybody's recovery window, no removal is stale. */
  lemma {:induction false} CalmRunIsFresh(s: State, actions: seq<Action>, t: State)
    requires ReadsAreCurrent(s) && CalmRun(s, actions, t)
    ensures FreshRun(s, actions, t)
    decreases |actions|
  {
    hide ReadsAreCurrent, Calm, Fresh, Next;
    if actions != [] {
      CalmKeepsReads(s, actions[0]);
      CalmRunIsFresh(Next(s, actions[0]).value, actions[1..], t);
    }
  }

  lemma CalmLockIsSafe(n: nat, actions: seq<Action>, s: State)
    requires CalmRun(Initial(n), actions, s)
    ensures forall p, q :: Holds(s, p) && Holds(s, q) ==> p == q
    ensures forall p :: Holds(s, p) ==> s.dir.Some? && s.dir.value.owner == Names(p)
  {
    CalmRunIsFresh(Initial(n), actions, s);
    LockIsSafe(n, actions, s);
  }

  // -------------------------------------------------------------- a lock nobody can take

  ghost predicate AnyRun(s: State, actions: seq<Action>, t: State)
    decreases |actions|
  {
    if actions == [] then t == s
    else Next(s, actions[0]).Some? && AnyRun(Next(s, actions[0]).value, actions[1..], t)
  }

  /** Some run, of whatever steps, leads to a living process holding the lock. */
  ghost predicate CanBeHeld(s: State) {
    exists actions, t, p :: AnyRun(s, actions, t) && Holds(t, p)
  }

  /** `p` lives and is on its way to remove a record it read, not one naming itself. */
  predicate Rescuer(s: State, p: nat) {
    Recovering(s, p) && (s.procs[p].phase.Judging? ==> s.procs[p].phase.q != p)
  }

  /** A directory without a full record that nobody looks after; and if it holds a created
      but unwritten record, nobody is already on the way to remove that. */
  predicate Wedged(s: State) {
    && s.dir.Some? && !s.dir.value.owner.Names?
    && (forall p :: 0 <= p < |s.procs| ==> !LiveCustodian(s, p))
    && (s.dir.value.owner.Blank? ==> forall p :: 0 <= p < |s.procs| ==> !Rescuer(s, p))
  }

  lemma WedgedStays(s: State, a: Action)
    requires Wedged(s) && Next(s, a).Some?
    ensures Wedged(Next(s, a).value)
  {
    var t := Next(s, a).value;
    var stepping := !a.Meddle? && !a.Spawn?;
    assert stepping ==> !LiveCustodian(s, a.p);
    assert stepping && s.dir.value.owner.Blank? ==> !Rescuer(s, a.p);
    forall p | 0 <= p < |t.procs|
      ensures !LiveCustodian(t, p) && (s.dir.value.owner.Blank? ==> !Rescuer(t, p))
    {
      if p < |s.procs| {
        assert !LiveCustodian(s, p);
        assert s.dir.value.owner.Blank? ==> !Rescuer(s, p);
      }
    }
  }

  /** Nobody ever takes or recovers such a lock again, whatever is run. */
  lemma {:induction false} WedgedIsForever(s: State, actions: seq<Action>, t: State)
    requires Wedged(s) && AnyRun(s, actions, t)
    ensures Wedged(t) && forall p :: !Holds(t, p)
    decreases |actions|
  {
    if actions != [] {
      hide Wedged, Next;
      WedgedStays(s, actions[0]);
      WedgedIsForever(Next(s, actions[0]).value, actions[1..], t);
    } else {
      assert forall p :: Holds(t, p) ==> LiveCustodian(t, p);
    }
  }

  lemma HeldNow(s: State, p: nat)
    requires Holds(s, p)
    ensures CanBeHeld(s)
  {
    assert AnyRun(s, [], s);
  }

  lemma HeldAfter(s: State, a: Action)
    requires Next(s, a).Some? && CanBeHeld(Next(s, a).value)
    ensures CanBeHeld(s)
  {
    hide Next;
    var actions, t, p :| AnyRun(Next(s, a).value, actions, t) && Holds(t, p);
    assert ([a] + actions)[1..] == actions;
    assert AnyRun(s, [a] + actions, t);
  }

  lemma HeldThen(s: State, a: Action, t: State)
    requires Next(s, a) == Some(t) && CanBeHeld(t)
    ensures CanBeHeld(s)
  {
    HeldAfter(s, a);
  }

  /** A free lock can be taken by a process that starts now. */
  lemma FreeCanBeHeld(s: State)
    requires s.dir.None?
    ensures CanBeHeld(s)
  {
    hide CanBeHeld;
    var r := |s.procs|;
    var s1 := s.(procs := s.procs + [Proc(true, Idle)]);
    var s2 := s1.Put(r, Attempt);
    var g := s.made + 1;
    var made := s2.(dir := Some(Dir(g, r, NoRecord, false, false)), made := g).Put(r, Made(g));
    var blank := made.WithOwner(Blank).Put(r, Opened(g));
    var named := blank.WithOwner(Names(r)).Put(r, Written(g));
    var held := named.Put(r, Holding(g));
    HeldNow(held, r);
    HeldThen(named, Run(r), held);
    HeldThen(blank, Run(r), named);
    HeldThen(made, Run(r), blank);
    HeldThen(s2, Run(r), made);
    HeldThen(s1, Begin(r), s2);
    HeldThen(s, Spawn, s1);
  }

  /** An empty directory about to be removed soon leaves the lock free. */
  lemma RemovableCanBeHeld(s: State, p: nat)
    requires s.Alive(p) && s.dir.Some? && s.dir.value.owner.NoRecord?
    requires var phase := s.procs[p].phase; phase.UndoDir? || phase.Unlinked? || phase.Removed?
    ensures CanBeHeld(s)
  {
    hide CanBeHeld;
    var s1 := s.(dir := Some(s.dir.value.(foreign := false)));
    FreeCanBeHeld(Next(s1, Run(p)).value);
    HeldAfter(s1, Run(p));
    HeldThen(s, Meddle(false), s1);
  }

  /** A process about to remove a record leads to a free lock. */
  lemma RemovingCanBeHeld(s: State, p: nat)
    requires s.Alive(p) && s.procs[p].phase.Removing? && s.HasRecord()
    ensures CanBeHeld(s)
  {
    hide CanBeHeld;
    RemovableCanBeHeld(Next(s, Run(p)).value, p);
    HeldAfter(s, Run(p));
  }

  /** So does one that read a record of another process, which may exit. */
  lemma JudgingCanBeHeld(s: State, p: nat)
    requires s.Alive(p) && s.procs[p].phase.Judging? && s.procs[p].phase.q != p && s.HasRecord()
    ensures CanBeHeld(s)
  {
    hide CanBeHeld;
    var q := s.procs[p].phase.q;
    if s.Alive(q) {
      var s1 := s.Kill(q);
      RemovingCanBeHeld(Next(s1, Run(p)).value, p);
      HeldAfter(s1, Run(p));
      HeldThen(s, Die(q), s1);
    } else {
      RemovingCanBeHeld(Next(s, Run(p)).value, p);
      HeldAfter(s, Run(p));
    }
  }

  /** A full record can be recovered by a process that starts now, once its owner exits. */
  lemma NamedCanBeHeld(s: State)
    requires s.dir.Some? && s.dir.value.owner.Names? && s.dir.value.owner.process < |s.procs|
    ensures CanBeHeld(s)
  {
    hide CanBeHeld;
    var q, r := s.dir.value.owner.process, |s.procs|;
    var s1 := s.(procs := s.procs + [Proc(true, Idle)]);
    var s2, s3, s4 := s1.Put(r, Attempt), s1.Put(r, Checking), s1.Put(r, Reading);
    var s5 := s1.Put(r, Judging(q, s.dir.value.gen));
    assert s2.Put(r, Checking) == s3 && s3.Put(r, Reading) == s4 && s4.Put(r, Judging(q, s.dir.value.gen)) == s5;
    JudgingCanBeHeld(s5, r);
    HeldThen(s4, Run(r), s5);
    HeldThen(s3, Run(r), s4);
    HeldThen(s2, Run(r), s3);
    HeldThen(s1, Begin(r), s2);
    HeldThen(s, Spawn, s1);
  }

  /** A maker recording itself comes to hold the lock. */
  lemma RecordingCanBeHeld(s: State, p: nat)
    requires Inv(s) && s.Alive(p)
    requires var phase := s.procs[p].phase; phase.Made? || phase.Opened? || phase.Written? || phase.Holding?
    ensures CanBeHeld(s)
    decreases match s.procs[p].phase case Made(_) => 3 case Opened(_) => 2 case Written(_) => 1 case _ => 0
  {
    hide CanBeHeld;
    assert ProcOk(s, p);
    if s.procs[p].phase.Holding? {
      HeldNow(s, p);
    } else {
      assert LiveCustodian(s, p);
      CustodianKeeps(s, p);
      RecordingCanBeHeld(Next(s, Run(p)).value, p);
      HeldAfter(s, Run(p));
    }
  }

  /** Whoever looks after the directory leads to the lock being held again. */
  lemma CustodianCanBeHeld(s: State, p: nat)
    requires Inv(s) && LiveCustodian(s, p)
    ensures CanBeHeld(s)
  {
    hide CanBeHeld, Inv;
    InvParts(s, p);
    match s.procs[p].phase
    case Undo(_) =>
      RemovableCanBeHeld(Next(s, Run(p)).value, p);
      HeldAfter(s, Run(p));
    case Unlinking(_) =>
      RemovableCanBeHeld(Next(s, Run(p)).value, p);
      HeldAfter(s, Run(p));
    case UndoDir(_) => RemovableCanBeHeld(s, p);
    case Unlinked(_) => RemovableCanBeHeld(s, p);
    case Removed(_, _) => RemovableCanBeHeld(s, p);
    case PutBack(_) =>
      NamedCanBeHeld(Next(s, Run(p)).value);
      HeldAfter(s, Run(p));
    case Restoring(_, _) =>
      NamedCanBeHeld(Next(s, Run(p)).value);
      HeldAfter(s, Run(p));
    case _ => RecordingCanBeHeld(s, p);
  }

  /** The lock can be held again exactly unless it is wedged. */
  lemma HeldAgainExactly(s: State)
    requires Inv(s)
    ensures CanBeHeld(s) <==> !Wedged(s)
  {
    if Wedged(s) {
      forall actions, t, p | AnyRun(s, actions, t)
        ensures !Holds(t, p)
      {
        WedgedIsForever(s, actions, t);
      }
    } else if s.dir.None? {
      FreeCanBeHeld(s);
    } else if s.dir.value.owner.Names? {
      NamedCanBeHeld(s);
    } else if SomeCustodian(s) {
      var p :| 0 <= p < |s.procs| && LiveCustodian(s, p);
      CustodianCanBeHeld(s, p);
    } else {
      var p :| 0 <= p < |s.procs| && Rescuer(s, p);
      if s.procs[p].phase.Removing? { RemovingCanBeHeld(s, p); } else { JudgingCanBeHeld(s, p); }
    }
  }

  /** Two ways to wedge the lock in one ordinary run: to die after making the directory, and
      to die after creating the owner file. */
  lemma WedgesAreReached()
    ensures exists t :: Reaches(Initial(1), t) && Wedged(t) && t.dir.value.owner == NoRecord
    ensures exists t :: Reaches(Initial(1), t) && Wedged(t) && t.dir.value.owner == Blank
  {
    hide Reaches;
    var s := Initial(1);
    var s1 := s.Put(0, Attempt);
    var s2 := s1.(dir := Some(Dir(1, 0, NoRecord, false, false)), made := 1).Put(0, Made(1));
    var s3 := s2.WithOwner(Blank).Put(0, Opened(1));
    ReachesSelf(s);
    ReachesBy(s, s, Begin(0), s1);
    ReachesBy(s, s1, Run(0), s2);
    ReachesBy(s, s2, Die(0), s2.Kill(0));
    ReachesBy(s, s2, Run(0), s3);
    ReachesBy(s, s3, Die(0), s3.Kill(0));
    assert Wedged(s2.Kill(0)) && Wedged(s3.Kill(0));
  }

  // ------------------------------------------------------------------------ concrete runs

  /** Nobody but `r` is recovering. */
  predicate OnlyRecoverer(s: State, r: nat) {
    forall p :: 0 <= p < |s.procs| && p != r ==> !Recovering(s, p)
  }

  /** A run in which nobody but `r` is ever recovering. */
  function Exec(s: State, actions: seq<Action>, r: nat): Option<State>
    decreases |actions|
  {
    if !OnlyRecoverer(s, r) then None
    else if actions == [] then Some(s)
    else
      match Next(s, actions[0])
      case None => None
      case Some(t) => Exec(t, actions[1..], r)
  }

  lemma {:induction false} ExecConcat(s: State, a: seq<Action>, b: seq<Action>, r: nat)
    requires Exec(s, a, r).Some?
    ensures Exec(s, a + b, r) == Exec(Exec(s, a, r).value, b, r)
    decreases |a|
  {
    hide OnlyRecoverer, Next;
    if a == [] {
      assert a + b == b;
    } else {
      assert (a + b)[0] == a[0] && (a + b)[1..] == a[1..] + b;
      ExecConcat(Next(s, a[0]).value, a[1..], b, r);
    }
  }

  /** One action more at the front of a run. */
  lemma ExecOne(s: State, a: Action, p: nat, t: State, rest: seq<Action>, r: nat)
    requires OnlyRecoverer(s, r) && Next(s, a) == Some(t)
    requires p < |s.procs| == |t.procs| && t.procs == s.procs[p := t.procs[p]] && (p == r || !Recovering(t, p))
    ensures OnlyRecoverer(t, r)
    ensures Exec(s, [a] + rest, r) == Exec(t, rest, r)
  {
    hide Next;
    assert ([a] + rest)[1..] == rest;
    StillOnly(s, p, t, r);
  }

  lemma StillOnly(s: State, p: nat, t: State, r: nat)
    requires OnlyRecoverer(s, r)
    requires p < |s.procs| == |t.procs| && t.procs == s.procs[p := t.procs[p]] && (p == r || !Recovering(t, p))
    ensures OnlyRecoverer(t, r)
  {
    forall q | 0 <= q < |t.procs| && q != r
      ensures !Recovering(t, q)
    {
      assert !Recovering(s, q);
    }
  }

  function Runs(p: nat, n: nat): seq<Action> {
    if n == 0 then [] else [Run(p)] + Runs(p, n - 1)
  }

  /** From the attempt on, four operations take a free lock. */
  lemma TakesFree(s: State, p: nat, r: nat)
    requires s.Alive(p) && s.procs[p].phase.Attempt? && s.dir.None? && OnlyRecoverer(s, r)
    ensures Exec(s, Runs(p, 4), r) == Some(Taken(s, p))
  {
    hide Exec, OnlyRecoverer;
    var g := s.made + 1;
    var made := s.(dir := Some(Dir(g, p, NoRecord, false, false)), made := g).Put(p, Made(g));
    var blank := made.WithOwner(Blank).Put(p, Opened(g));
    var named := blank.WithOwner(Names(p)).Put(p, Written(g));
    var held := named.Put(p, Holding(g));
    ExecOne(s, Run(p), p, made, Runs(p, 3), r);
    ExecOne(made, Run(p), p, blank, Runs(p, 2), r);
    ExecOne(blank, Run(p), p, named, Runs(p, 1), r);
    ExecOne(named, Run(p), p, held, Runs(p, 0), r);
    ExecNothing(held, r);
    assert held == Taken(s, p);
  }

  /** Three operations find the record of a lock that is taken. */
  lemma Looks(s: State, p: nat)
    requires s.Alive(p) && s.procs[p].phase.Attempt? && OnlyRecoverer(s, p)
    requires s.dir.Some? && s.dir.value.owner.Names?
    ensures Exec(s, Runs(p, 3), p) == Some(s.Put(p, Judging(s.dir.value.owner.process, s.dir.value.gen)))
  {
    hide Exec, OnlyRecoverer;
    var q, g := s.dir.value.owner.process, s.dir.value.gen;
    var s1, s2, s3 := s.Put(p, Checking), s.Put(p, Reading), s.Put(p, Judging(q, g));
    assert s1.Put(p, Reading) == s2 && s2.Put(p, Judging(q, g)) == s3;
    ExecOne(s, Run(p), p, s1, Runs(p, 2), p);
    ExecOne(s1, Run(p), p, s2, Runs(p, 1), p);
    ExecOne(s2, Run(p), p, s3, Runs(p, 0), p);
    ExecNothing(s3, p);
  }

  /** Three more judge a dead owner, remove the record and remove the directory - whoever's
      record it is by then. */
  lemma Clears(s: State, p: nat, q: nat, g: nat)
    requires s.Alive(p) && s.procs[p].phase == Judging(q, g) && OnlyRecoverer(s, p)
    requires !s.Alive(q) && s.HasRecord() && !s.dir.value.foreign
    ensures Exec(s, Runs(p, 3), p) == Some(s.(dir := None).Put(p, Attempt))
  {
    hide Exec, OnlyRecoverer;
    var s1 := s.Put(p, Removing(q, g));
    var s2 := s1.WithoutRecord().Put(p, Removed(q, s.dir.value.gen));
    var s3 := s.(dir := None).Put(p, Attempt);
    assert s2.(dir := None).Put(p, Attempt) == s3;
    ExecOne(s, Run(p), p, s1, Runs(p, 2), p);
    ExecOne(s1, Run(p), p, s2, Runs(p, 1), p);
    ExecOne(s2, Run(p), p, s3, Runs(p, 0), p);
    ExecNothing(s3, p);
  }

  /** A lock left by a dead holder is taken over by the next process that tries, when
      nobody else is recovering it. */
  lemma StaleLockIsRecovered(s: State, p: nat)
    requires s.Alive(p) && s.procs[p].phase.Attempt? && OnlyRecoverer(s, p)
    requires s.dir.Some? && s.dir.value.owner.Names? && !s.dir.value.foreign
    requires !s.Alive(s.dir.value.owner.process)
    ensures Exec(s, Runs(p, 3) + Runs(p, 3) + Runs(p, 4), p) == Some(Taken(s, p))
  {
    hide Next, Exec, OnlyRecoverer, Runs;
    var q, g := s.dir.value.owner.process, s.dir.value.gen;
    Looks(s, p);
    var s1 := s.Put(p, Judging(q, g));
    StillOnly(s, p, s1, p);
    Clears(s1, p, q, g);
    var s2 := s1.(dir := None).Put(p, Attempt);
    StillOnly(s1, p, s2, p);
    TakesFree(s2, p, p);
    ExecConcat(s, Runs(p, 3), Runs(p, 3), p);
    ExecConcat(s, Runs(p, 3) + Runs(p, 3), Runs(p, 4), p);
    assert Taken(s2, p) == Taken(s, p);
  }

  /** Four operations release the lock. */
  lemma Releases(s: State, p: nat, g: nat, r: nat)
    requires s.Alive(p) && s.procs[p].phase == Holding(g) && OnlyRecoverer(s, r)
    requires s.dir.Some? && s.dir.value.owner == Names(p) && !s.dir.value.foreign
    ensures Exec(s, [Finish(p)] + Runs(p, 3), r) == Some(s.(dir := None).Put(p, Idle))
  {
    hide Exec, OnlyRecoverer;
    var s0, s1 := s.Put(p, Releasing(g)), s.Put(p, Unlinking(g));
    var s2 := s1.WithOwner(NoRecord).Put(p, Unlinked(g));
    var s3 := s.(dir := None).Put(p, Idle);
    assert s0.Put(p, Unlinking(g)) == s1 && s2.(dir := None).Put(p, Idle) == s3;
    ExecOne(s, Finish(p), p, s0, Runs(p, 3), r);
    ExecOne(s0, Run(p), p, s1, Runs(p, 2), r);
    ExecOne(s1, Run(p), p, s2, Runs(p, 1), r);
    ExecOne(s2, Run(p), p, s3, Runs(p, 0), r);
    ExecNothing(s3, r);
  }

  /** The run that breaks the lock: 0 takes it and 1 reads its record; 0 releases and exits
      and 2 takes it; only then does 1 find 0 gone and clear the way for itself. */
  function BreakingRun(): seq<Action> {
    TakeAndLook() + ReleaseAndTake() + (Runs(1, 3) + Runs(1, 4))
  }

  function TakeAndLook(): seq<Action> {
    [Begin(0)] + Runs(0, 4) + [Begin(1)] + Runs(1, 3)
  }

  function ReleaseAndTake(): seq<Action> {
    [Finish(0)] + Runs(0, 3) + [Die(0)] + [Begin(2)] + Runs(2, 4)
  }

  /** After 0 took the lock and 1 read its record. */
  const LOOKED: State := State(Some(Dir(1, 0, Names(0), false, false)), 1,
                               [Proc(true, Holding(1)), Proc(true, Judging(0, 1)), Proc(true, Idle)])

  /** After 0 released and exited and 2 took the lock. */
  const RETAKEN: State := State(Some(Dir(2, 2, Names(2), false, false)), 2,
                                [Proc(false, Idle), Proc(true, Judging(0, 1)), Proc(true, Holding(2))])

  lemma FirstPart()
    ensures Exec(Initial(3), TakeAndLook(), 1) == Some(LOOKED)
  {
    hide Exec, Runs;
    var s := Initial(3);
    var none: seq<Action> := [];
    ExecNothing(s, 1);
    Then(s, none, Begin(0), 1);
    var s1 := s.Put(0, Attempt);
    assert none + [Begin(0)] == [Begin(0)];
    TakesFree(s1, 0, 1);
    ExecConcat(s, [Begin(0)], Runs(0, 4), 1);
    var s2 := Taken(s1, 0);
    Then(s, [Begin(0)] + Runs(0, 4), Begin(1), 1);
    var s3 := s2.Put(1, Attempt);
    Looks(s3, 1);
    ExecConcat(s, [Begin(0)] + Runs(0, 4) + [Begin(1)], Runs(1, 3), 1);
    assert s3.Put(1, Judging(0, 1)) == LOOKED;
  }

  lemma SecondPart()
    ensures Exec(LOOKED, ReleaseAndTake(), 1) == Some(RETAKEN)
  {
    hide Exec, Runs;
    var s := LOOKED;
    Releases(s, 0, 1, 1);
    var a := [Finish(0)] + Runs(0, 3);
    var s1 := s.(dir := None).Put(0, Idle);
    Then(s, a, Die(0), 1);
    var s2 := s1.Kill(0);
    Then(s, a + [Die(0)], Begin(2), 1);
    var s3 := s2.Put(2, Attempt);
    TakesFree(s3, 2, 1);
    ExecConcat(s, a + [Die(0)] + [Begin(2)], Runs(2, 4), 1);
    assert Taken(s3, 2) == RETAKEN;
  }

  /** One recoverer is enough: although only process 1 is ever between reading a record and
      removing it, two living processes end up holding the lock. */
  lemma OneRecovererBreaksTheLock()
    ensures var end := Exec(Initial(3), BreakingRun(), 1); end.Some? && Holds(end.value, 1) && Holds(end.value, 2)
  {
    hide Exec, Runs;
    FirstPart();
    SecondPart();
    ExecConcat(Initial(3), TakeAndLook(), ReleaseAndTake(), 1);
    Clears(RETAKEN, 1, 0, 1);
    var s := RETAKEN.(dir := None).Put(1, Attempt);
    TakesFree(s, 1, 1);
    ExecConcat(RETAKEN, Runs(1, 3), Runs(1, 4), 1);
    ExecConcat(Initial(3), TakeAndLook() + ReleaseAndTake(), Runs(1, 3) + Runs(1, 4), 1);
  }

  lemma ExecNothing(s: State, r: nat)
    requires OnlyRecoverer(s, r)
    ensures Exec(s, [], r) == Some(s)
  {
  }

  /** One action more at the end of a run. */
  lemma Then(s: State, a: seq<Action>, last: Action, r: nat)
    requires Exec(s, a, r).Some? && OnlyRecoverer(Exec(s, a, r).value, r)
    requires Next(Exec(s, a, r).value, last).Some? && OnlyRecoverer(Next(Exec(s, a, r).value, last).value, r)
    ensures Exec(s, a + [last], r) == Next(Exec(s, a, r).value, last)
  {
    hide OnlyRecoverer, Next;
    var t := Exec(s, a, r).value;
    ExecConcat(s, a, [last], r);
    assert [last][1..] == [];
    ExecNothing(Next(t, last).value, r);
  }
}
