/** Ownership of the coprocessor state and the command ring between the two cores
  * (src/platform/rp2350/fx_sync.cpp), as interleaved atomic steps. */
module FxSync {
  const COMMANDS := 256

  datatype Command = CpuWrite(addr: nat, value: nat) | Reset

  datatype Gate = Open | Held0 | Held1

  // Where core 0 is. In every state but Idle0 and Deferred it holds the gate.
  datatype Core0 =
    | Idle0
    | Entered(cmd: Command)   // a write or reset, gate taken
    | Room(cmd: Command)      // core 1 owns the state: look for room in the ring
    | Stored(cmd: Command)    // slot written, index not yet advanced
    | Queued(cmd: Command)    // index advanced
    | Applying(cmd: Command)  // changing the state directly
    | Applied(cmd: Command)   // deciding who owns it now
    | Reading(clear: bool)    // a register read that may change the state
    | ReadEntered(clear: bool)
    | Deferred                // an interrupt-clear left for core 1, gate not yet taken again
    | Leaving(report: Report) // about to release the gate and return

  datatype Report = Accepted(cmd: Command) | Refused | Nothing

  // Where core 1 is in one service.
  datatype Core1 =
    | Idle1
    | Serving              // saw that it owns the state
    | ClearingIrq          // changing the state
    | Draining             // at the top of the pop loop
    | Fetched(cmd: Command) // slot read, index not yet advanced
    | Executing(cmd: Command) // changing the state
    | Stepping             // changing the state: one instruction
    | Stopping             // stopped: waiting for the gate
    | Deciding             // gate held
    | Departing            // about to release the gate

  datatype State = State(
    ring: seq<Command>, write: nat, read: nat,
    owns: bool, video: bool, gate: Gate, irqClear: bool, running: bool,
    core0: Core0, core1: Core1,
    accepted: seq<Command>, // every command taken, in order
    applied: seq<Command>,  // every command applied, in order
    reported: seq<Command>, // every command reported accepted to the caller, in order
    cleared: nat,           // interrupt clears carried out for a status read
    executed: nat)          // instructions executed

  // What may happen next; running is what the coprocessor turns out to do. A reset always stops it.
  datatype Action =
    | Call(cmd: Command) | CallRead | CallClear
    | Step0(running: bool)
    | Service | Step1(running: bool)
    | VideoAcquire | VideoRelease

  function Wrap(i: nat): (r: nat)
    ensures r < COMMANDS
  {
    i % COMMANDS
  }

  function Used(write: nat, read: nat): nat {
    (write - read) % COMMANDS
  }

  // The commands in the ring, oldest first.
  function Pending(ring: seq<Command>, read: nat, count: nat): (p: seq<Command>)
    requires |ring| == COMMANDS
    ensures |p| == count
  {
    seq(count, i requires 0 <= i < count => ring[Wrap(read + i)])
  }

  predicate Gated0(c: Core0) {
    !c.Idle0? && !c.Deferred?
  }

  predicate Gated1(c: Core1) {
    c.Deciding? || c.Departing?
  }

  // The states in which a core changes the coprocessor's state.
  predicate Changing0(s: State) {
    s.core0.Applying? || s.core0.Reading?
  }

  predicate Changing1(s: State) {
    s.core1.ClearingIrq? || s.core1.Executing? || s.core1.Stepping?
  }

  predicate Enabled(s: State, a: Action) {
    match a
    case Call(_) => s.core0.Idle0? && s.gate.Open?
    case CallRead => s.core0.Idle0? && s.gate.Open?
    case CallClear => s.core0.Idle0?
    case Step0(_) => Gated0(s.core0) || (s.core0.Deferred? && s.gate.Open?)
    case Service => s.core1.Idle1?
    case Step1(_) => !s.core1.Idle1? && (s.core1.Stopping? ==> s.gate.Open?)
    case VideoAcquire => s.core1.Idle1? && s.gate.Open?
    case VideoRelease => s.core1.Idle1?
  }

  function Next0(s: State, running: bool): (t: State)
    requires |s.ring| == COMMANDS && s.write < COMMANDS && (Gated0(s.core0) || s.core0.Deferred?)
    ensures |t.ring| == COMMANDS && t.write < COMMANDS
  {
    match s.core0
    case Entered(cmd) =>
      if s.video && cmd.CpuWrite? then s.(core0 := Leaving(Nothing))
      else if s.owns then s.(core0 := Room(cmd))
      else s.(core0 := Applying(cmd))
    case Room(cmd) =>
      if Wrap(s.write + 1) == s.read then s.(core0 := Leaving(Refused))
      else s.(ring := s.ring[s.write := cmd], core0 := Stored(cmd))
    case Stored(cmd) => s.(write := Wrap(s.write + 1), accepted := s.accepted + [cmd], core0 := Queued(cmd))
    case Queued(cmd) => s.(irqClear := s.irqClear || cmd.Reset?, core0 := Leaving(Accepted(cmd)))
    case Applying(cmd) =>
      s.(running := running && cmd.CpuWrite?, irqClear := s.irqClear && !cmd.Reset?,
         accepted := s.accepted + [cmd], applied := s.applied + [cmd], core0 := Applied(cmd))
    case Applied(cmd) => s.(owns := cmd.CpuWrite? && s.running, core0 := Leaving(Accepted(cmd)))
    case ReadEntered(clear) => if s.owns then s.(core0 := Leaving(Nothing)) else s.(core0 := Reading(clear))
    case Reading(clear) =>
      s.(irqClear := s.irqClear && !clear, cleared := if clear then s.cleared + 1 else s.cleared, core0 := Leaving(Nothing))
    case Deferred => s.(gate := Held0, core0 := ReadEntered(true))
    case Leaving(report) =>
      s.(gate := Open, reported := if report.Accepted? then s.reported + [report.cmd] else s.reported, core0 := Idle0)
    case Idle0 => s
  }

  function Next1(s: State, running: bool): State
    requires |s.ring| == COMMANDS && s.read < COMMANDS
  {
    match s.core1
    case Serving => s.(irqClear := false, core1 := if s.irqClear then ClearingIrq else Draining)
    case ClearingIrq => s.(cleared := s.cleared + 1, core1 := Draining)
    case Draining => if s.read == s.write then s.(core1 := Stepping) else s.(core1 := Fetched(s.ring[s.read]))
    case Fetched(cmd) => s.(read := Wrap(s.read + 1), core1 := Executing(cmd))
    case Executing(cmd) =>
      s.(running := running && cmd.CpuWrite?, irqClear := s.irqClear && !cmd.Reset?, applied := s.applied + [cmd], core1 := Draining)
    case Stepping =>
      var after := s.running && running;
      s.(running := after, executed := if s.running then s.executed + 1 else s.executed, core1 := if after then Idle1 else Stopping)
    case Stopping => s.(gate := Held1, core1 := Deciding)
    case Deciding => s.(owns := s.owns && (s.read != s.write || s.irqClear), core1 := Departing)
    case Departing => s.(gate := Open, core1 := Idle1)
    case Idle1 => s
  }

  function Next(s: State, a: Action): State
    requires |s.ring| == COMMANDS && s.write < COMMANDS && s.read < COMMANDS && Enabled(s, a)
  {
    match a
    case Call(cmd) => s.(gate := Held0, core0 := Entered(cmd))
    case CallRead => s.(gate := Held0, core0 := ReadEntered(false))
    case CallClear => s.(irqClear := true, core0 := Deferred)
    case Step0(running) => Next0(s, running)
    case Service => if s.owns then s.(core1 := Serving) else s
    case Step1(running) => Next1(s, running)
    case VideoAcquire =>
      s.(video := s.video || (!s.running && !s.owns && s.read == s.write))
    case VideoRelease => s.(video := false)
  }

  ghost predicate Initial(s: State) {
    && |s.ring| == COMMANDS && s.write == s.read == 0 && !s.owns && !s.video && s.gate.Open? && !s.irqClear && !s.running
    && s.core0.Idle0? && s.core1.Idle1? && s.accepted == [] && s.applied == [] && s.reported == []
  }

  // Who holds the gate, and who may assume whose ownership.
  ghost predicate Owners(s: State) {
    && (s.gate.Held0? <==> Gated0(s.core0)) && (s.gate.Held1? <==> Gated1(s.core1))
    && (s.core0.Room? || s.core0.Stored? || s.core0.Queued? ==> s.owns)
    && (s.core0.Applying? || s.core0.Applied? || s.core0.Reading? ==> !s.owns)
    && (!s.core1.Idle1? && !s.core1.Departing? ==> s.owns)
    && (s.video ==> !s.owns && !(s.core0.Applied? && s.core0.cmd.CpuWrite?) && !(s.core0.Applying? && s.core0.cmd.CpuWrite?))
  }

  // The command popped but not yet applied.
  function InFlight(c: Core1): seq<Command> {
    if c.Executing? then [c.cmd] else []
  }

  // The command accepted but not yet reported.
  function Unreported(c: Core0): seq<Command> {
    match c
    case Queued(cmd) => [cmd]
    case Applied(cmd) => [cmd]
    case Leaving(Accepted(cmd)) => [cmd]
    case _ => []
  }

  // What was accepted is what was applied, then what was popped, then what is in the ring.
  ghost predicate InOrder(ring: seq<Command>, write: nat, read: nat, accepted: seq<Command>, applied: seq<Command>, popped: seq<Command>) {
    && |ring| == COMMANDS && write < COMMANDS && read < COMMANDS
    && accepted == applied + popped + Pending(ring, read, Used(write, read))
  }

  // Nothing accepted is lost, repeated or reordered on its way through the ring.
  ghost predicate Delivered(s: State) {
    && InOrder(s.ring, s.write, s.read, s.accepted, s.applied, InFlight(s.core1))
    && s.accepted == s.reported + Unreported(s.core0)
    && (s.core1.Fetched? ==> s.read != s.write && s.core1.cmd == s.ring[s.read])
    && (s.core0.Stored? ==> s.ring[s.write] == s.core0.cmd && Wrap(s.write + 1) != s.read)
    && (!s.owns ==> s.read == s.write)
  }

  // A coprocessor that runs is core 1's, as soon as core 0 has handed it over; and an interrupt clear left for
  // core 1 is core 1's to carry out, unless core 0 is about to see to it itself.
  ghost predicate Served(s: State) {
    && (!s.owns && !(s.core0.Applied? && s.core0.cmd.CpuWrite?) ==> !s.running)
    && (s.core1.Stopping? || s.core1.Deciding? ==> !s.running)
    && (!s.owns && s.irqClear ==> s.core0.Deferred? || s.core0 == ReadEntered(true) || s.core0 == Reading(true))
  }

  ghost predicate Inv(s: State) {
    |s.ring| == COMMANDS && s.write < COMMANDS && s.read < COMMANDS && Owners(s) && Delivered(s) && Served(s)
  }

  lemma InitialInv(s: State)
    requires Initial(s)
    ensures Inv(s)
  {}

  lemma OwnersStep0(s: State, running: bool)
    requires Inv(s) && Enabled(s, Step0(running))
    ensures Owners(Next0(s, running))
  {
    hide Delivered, Wrap;
    var s' := Next0(s, running);
    match s.core0 {
      case Entered(_) => assert s'.core0.Leaving? || s'.core0.Room? || s'.core0.Applying?;
      case _ =>
    }
  }

  lemma OwnersStep1(s: State, running: bool)
    requires Inv(s) && Enabled(s, Step1(running))
    ensures Owners(Next1(s, running))
  {
    hide Delivered, Wrap;
    var s' := Next1(s, running);
    match s.core1 {
      case Deciding => assert s'.gate.Held1? && s'.core1.Departing?;
      case _ =>
    }
  }

  lemma OwnersStep(s: State, a: Action)
    requires Inv(s) && Enabled(s, a)
    ensures Owners(Next(s, a))
  {
    match a {
      case Step0(running) => OwnersStep0(s, running);
      case Step1(running) => OwnersStep1(s, running);
      case _ => hide Delivered, Next0, Next1;
    }
  }

  lemma WrapIs(i: nat)
    requires i < 2 * COMMANDS
    ensures Wrap(i) == if i < COMMANDS then i else i - COMMANDS
  {}

  lemma UsedIs(write: nat, read: nat)
    requires write < COMMANDS && read < COMMANDS
    ensures Used(write, read) == if read <= write then write - read else write - read + COMMANDS
  {}

  lemma WrapApart(i: nat, j: nat)
    requires i < COMMANDS && j < COMMANDS && i != j
    ensures Wrap(i + 1) != Wrap(j + 1)
  {
    WrapIs(i + 1);
    WrapIs(j + 1);
    hide Wrap;
  }

  // Storing in the free slot leaves the queued commands alone,
  lemma StoreKeeps(ring: seq<Command>, write: nat, read: nat, accepted: seq<Command>, applied: seq<Command>, popped: seq<Command>,
                   cmd: Command)
    requires InOrder(ring, write, read, accepted, applied, popped) && Wrap(write + 1) != read
    ensures InOrder(ring[write := cmd], write, read, accepted, applied, popped)
  {
    UsedIs(write, read);
    WrapIs(write + 1);
    hide Wrap, Used;
    var before, after := Pending(ring, read, Used(write, read)), Pending(ring[write := cmd], read, Used(write, read));
    forall i: nat | i < Used(write, read)
      ensures after[i] == before[i]
    {
      WrapIs(read + i);
    }
  }

  // advancing the index appends the stored one,
  lemma PublishAppends(ring: seq<Command>, write: nat, read: nat, accepted: seq<Command>, applied: seq<Command>, popped: seq<Command>)
    requires InOrder(ring, write, read, accepted, applied, popped) && Wrap(write + 1) != read
    ensures InOrder(ring, Wrap(write + 1), read, accepted + [ring[write]], applied, popped)
  {
    hide Wrap, Used;
    WrapIs(write + 1);
    UsedIs(write, read);
    UsedIs(Wrap(write + 1), read);
    WrapIs(read + Used(write, read));
    assert Pending(ring, read, Used(write, read) + 1) == Pending(ring, read, Used(write, read)) + [ring[write]];
  }

  // popping takes the oldest,
  lemma PopTakes(ring: seq<Command>, write: nat, read: nat, accepted: seq<Command>, applied: seq<Command>)
    requires InOrder(ring, write, read, accepted, applied, []) && read != write
    ensures InOrder(ring, write, Wrap(read + 1), accepted, applied, [ring[read]])
  {
    WrapIs(read);
    WrapIs(read + 1);
    UsedIs(write, read);
    UsedIs(write, Wrap(read + 1));
    hide Wrap, Used;
    var whole, rest := Pending(ring, read, Used(write, read)), Pending(ring, Wrap(read + 1), Used(write, read) - 1);
    forall i: nat | i < Used(write, read)
      ensures whole[i] == ([ring[read]] + rest)[i]
    {
      WrapIs(read + i);
      if 0 < i {
        WrapIs(Wrap(read + 1) + (i - 1));
      }
    }
    assert whole == [ring[read]] + rest;
  }

  // applying it completes its way,
  lemma ApplyTakes(ring: seq<Command>, write: nat, read: nat, accepted: seq<Command>, applied: seq<Command>, cmd: Command)
    requires InOrder(ring, write, read, accepted, applied, [cmd])
    ensures InOrder(ring, write, read, accepted, applied + [cmd], [])
  {}

  // and a command may go past the ring only while the ring is empty.
  lemma DirectApplies(ring: seq<Command>, write: nat, read: nat, accepted: seq<Command>, applied: seq<Command>, cmd: Command)
    requires InOrder(ring, write, read, accepted, applied, []) && read == write
    ensures InOrder(ring, write, read, accepted + [cmd], applied + [cmd], [])
  {
    UsedIs(write, read);
  }

  lemma DeliveredStep0(s: State, running: bool)
    requires Inv(s) && Enabled(s, Step0(running))
    ensures Delivered(Next0(s, running))
  {
    hide Delivered, InOrder, Wrap, Owners, Next0;
    match s.core0 {
      case Room(_) => RoomStep(s, running);
      case Stored(_) => StoredStep(s, running);
      case Applying(_) => ApplyingStep(s, running);
      case Queued(_) => ReportStep(s, running);
      case Applied(_) => ReportStep(s, running);
      case Leaving(_) => ReportStep(s, running);
      case _ => QuietStep(s, running);
    }
  }

  lemma RoomStep(s: State, running: bool)
    requires Inv(s) && Enabled(s, Step0(running)) && s.core0.Room?
    ensures Delivered(Next0(s, running))
  {
    hide InOrder, Wrap;
    if Wrap(s.write + 1) != s.read {
      StoreKeeps(s.ring, s.write, s.read, s.accepted, s.applied, InFlight(s.core1), s.core0.cmd);
    }
  }

  lemma StoredStep(s: State, running: bool)
    requires Inv(s) && Enabled(s, Step0(running)) && s.core0.Stored?
    ensures Delivered(Next0(s, running))
  {
    hide InOrder, Wrap;
    PublishAppends(s.ring, s.write, s.read, s.accepted, s.applied, InFlight(s.core1));
  }

  lemma ApplyingStep(s: State, running: bool)
    requires Inv(s) && Enabled(s, Step0(running)) && s.core0.Applying?
    ensures Delivered(Next0(s, running))
  {
    hide InOrder, Wrap;
    DirectApplies(s.ring, s.write, s.read, s.accepted, s.applied, s.core0.cmd);
  }

  // The other steps leave the ring and what was accepted alone: a report adds what was not yet reported,
  lemma ReportStep(s: State, running: bool)
    requires Inv(s) && Enabled(s, Step0(running)) && (s.core0.Queued? || s.core0.Applied? || s.core0.Leaving?)
    ensures Delivered(Next0(s, running))
  {
    hide InOrder, Wrap;
  }

  // and the rest reports nothing.
  lemma QuietStep(s: State, running: bool)
    requires Inv(s) && Enabled(s, Step0(running)) && !s.core0.Room? && !s.core0.Stored? && !s.core0.Applying?
    requires !s.core0.Queued? && !s.core0.Applied? && !s.core0.Leaving?
    ensures Delivered(Next0(s, running))
  {
    hide InOrder, Wrap, Owners;
  }

  lemma DeliveredStep1(s: State, running: bool)
    requires Inv(s) && Enabled(s, Step1(running))
    ensures Delivered(Next1(s, running))
  {
    hide InOrder, Wrap;
    match s.core1 {
      case Fetched(_) =>
        PopTakes(s.ring, s.write, s.read, s.accepted, s.applied);
        WrapApart(s.read, s.write);
      case Executing(cmd) => ApplyTakes(s.ring, s.write, s.read, s.accepted, s.applied, cmd);
      case _ =>
    }
  }

  lemma DeliveredStep(s: State, a: Action)
    requires Inv(s) && Enabled(s, a)
    ensures Delivered(Next(s, a))
  {
    hide InOrder, Wrap;
    match a {
      case Step0(running) => DeliveredStep0(s, running);
      case Step1(running) => DeliveredStep1(s, running);
      case _ => hide Next0, Next1;
    }
  }

  lemma ServedStep(s: State, a: Action)
    requires Inv(s) && Enabled(s, a)
    ensures Served(Next(s, a))
  {
    hide Delivered, InOrder, Wrap;
    match a {
      case Step0(running) => ServedStep0(s, running);
      case Step1(running) => ServedStep1(s, running);
      case _ => hide Next0, Next1;
    }
  }

  lemma ServedStep0(s: State, running: bool)
    requires Inv(s) && Enabled(s, Step0(running))
    ensures Served(Next0(s, running))
  {
    hide Delivered, InOrder, Wrap;
  }

  lemma ServedStep1(s: State, running: bool)
    requires Inv(s) && Enabled(s, Step1(running))
    ensures Served(Next1(s, running))
  {
    hide Delivered, InOrder, Wrap;
  }

  // Every step of either core keeps the invariant.
  lemma InvStep(s: State, a: Action)
    requires Inv(s) && Enabled(s, a)
    ensures Inv(Next(s, a))
  {
    OwnersStep(s, a);
    DeliveredStep(s, a);
    ServedStep(s, a);
    assert InOrder(Next(s, a).ring, Next(s, a).write, Next(s, a).read, Next(s, a).accepted, Next(s, a).applied, InFlight(Next(s, a).core1));
    hide Owners, Next, Served;
  }

  // The states an interleaving of the two cores passes through.
  ghost predicate Runs(s: State, actions: seq<Action>, t: State)
    decreases |actions|
  {
    if actions == [] then s == t
    else
      && |s.ring| == COMMANDS && s.write < COMMANDS && s.read < COMMANDS
      && Enabled(s, actions[0]) && Runs(Next(s, actions[0]), actions[1..], t)
  }

  lemma {:induction false} RunInv(s: State, actions: seq<Action>, t: State)
    requires Inv(s) && Runs(s, actions, t)
    ensures Inv(t)
    decreases |actions|
  {
    if actions != [] {
      InvStep(s, actions[0]);
      RunInv(Next(s, actions[0]), actions[1..], t);
    }
  }

  // Under every interleaving the two cores never change the state at the same time,
  lemma NeverTogether(s: State, actions: seq<Action>, t: State)
    requires Initial(s) && Runs(s, actions, t)
    ensures !(Changing0(t) && Changing1(t))
  {
    InitialInv(s);
    RunInv(s, actions, t);
  }

  // and outside these states a step of a core leaves the coprocessor alone: what it has applied, cleared and
  // executed, and whether it runs.
  lemma OnlyThenChanged(s: State, running: bool)
    requires |s.ring| == COMMANDS && s.write < COMMANDS && s.read < COMMANDS
    ensures (Gated0(s.core0) || s.core0.Deferred?) && !Changing0(s) ==> Same(s, Next0(s, running))
    ensures !Changing1(s) ==> Same(s, Next1(s, running))
  {
    hide Next0, Next1, Same;
    if Gated0(s.core0) || s.core0.Deferred? {
      OnlyThen0(s, running);
    }
    OnlyThen1(s, running);
  }

  lemma OnlyThen0(s: State, running: bool)
    requires |s.ring| == COMMANDS && s.write < COMMANDS && (Gated0(s.core0) || s.core0.Deferred?)
    ensures !Changing0(s) ==> Same(s, Next0(s, running))
  {}

  lemma OnlyThen1(s: State, running: bool)
    requires |s.ring| == COMMANDS && s.read < COMMANDS
    ensures !Changing1(s) ==> Same(s, Next1(s, running))
  {}

  // The coprocessor is the same in both states.
  predicate Same(s: State, t: State) {
    s.applied == t.applied && s.cleared == t.cleared && s.executed == t.executed && s.running == t.running
  }

  // what core 1 does not own has nothing waiting,
  lemma UnownedIsDrained(s: State, actions: seq<Action>, t: State)
    requires Initial(s) && Runs(s, actions, t) && !t.owns
    ensures t.read == t.write && t.applied == t.accepted && (t.core1.Idle1? || t.core1.Departing?)
  {
    InitialInv(s);
    RunInv(s, actions, t);
    assert t.read == t.write && Owners(t) && Delivered(t);
    UsedIs(t.write, t.read);
    hide Wrap, Used;
  }

  // and the commands reported accepted are the ones applied, in order and once each: at any moment the
  // applied ones are the first of the accepted ones, all but those still in the ring or in hand.
  lemma ExactlyOnceInOrder(s: State, actions: seq<Action>, t: State)
    requires Initial(s) && Runs(s, actions, t)
    ensures |t.ring| == COMMANDS && t.accepted == t.applied + InFlight(t.core1) + Pending(t.ring, t.read, Used(t.write, t.read))
    ensures t.applied <= t.accepted && t.reported <= t.accepted && |t.accepted| <= |t.reported| + 1
    ensures t.core1.Draining? && t.read == t.write ==> t.applied == t.accepted
  {
    InitialInv(s);
    RunInv(s, actions, t);
    InvOrder(t);
  }

  lemma InvOrder(t: State)
    requires Inv(t)
    ensures t.accepted == t.applied + InFlight(t.core1) + Pending(t.ring, t.read, Used(t.write, t.read))
    ensures t.applied <= t.accepted && t.reported <= t.accepted && |t.accepted| <= |t.reported| + 1
    ensures t.core1.Draining? && t.read == t.write ==> t.applied == t.accepted
  {
    UsedIs(t.write, t.read);
    hide Wrap, Used, Owners;
  }

  // A coprocessor that runs is run: the next service executes it,
  lemma RunningIsServed(s: State, actions: seq<Action>, t: State)
    requires Initial(s) && Runs(s, actions, t) && t.running && !t.core0.Applied?
    ensures Inv(t) && t.owns && (t.core1.Idle1? ==> Next(t, Service).core1 == Serving)
  {
    InitialInv(s);
    RunInv(s, actions, t);
  }

  // and an interrupt clear is never left lying: core 1 will service it, or core 0 is on its way to it.
  lemma ClearIsServed(s: State, actions: seq<Action>, t: State)
    requires Initial(s) && Runs(s, actions, t) && t.irqClear
    ensures t.owns || t.core0.Deferred? || t.core0 == ReadEntered(true) || t.core0 == Reading(true)
  {
    InitialInv(s);
    RunInv(s, actions, t);
  }

  // Core 0 on its own for so many steps, or until it returns; running is what a write makes of the coprocessor.
  function Alone0(s: State, running: bool, steps: nat): State
    requires |s.ring| == COMMANDS && s.write < COMMANDS
    decreases steps
  {
    if steps == 0 || s.core0.Idle0? then s else Alone0(Next0(s, running), running, steps - 1)
  }

  // A write or a reset from beginning to end, wherever core 1 stands: dropped during video, queued behind what
  // is waiting when core 1 owns the state and refused without a trace when there is no room, and otherwise
  // applied at once, with the coprocessor handed to core 1 exactly when the write started it.
  lemma CallAlone(s: State, cmd: Command, running: bool)
    requires Inv(s) && s.core0.Idle0? && s.gate.Open?
    ensures Alone0(Next(s, Call(cmd)), running, 5) ==
            if s.video && cmd.CpuWrite? then s
            else if s.owns then
              if Used(s.write, s.read) == COMMANDS - 1 then s
              else s.(ring := s.ring[s.write := cmd], write := Wrap(s.write + 1), accepted := s.accepted + [cmd],
                      reported := s.reported + [cmd], irqClear := s.irqClear || cmd.Reset?)
            else
              var runs := running && cmd.CpuWrite?;
              s.(running := runs, owns := runs, irqClear := s.irqClear && cmd.CpuWrite?, accepted := s.accepted + [cmd],
                 applied := s.applied + [cmd], reported := s.reported + [cmd])
  {
    hide Alone0, Wrap, Used, Owners, Delivered, Served;
    var a := Next(s, Call(cmd));
    Step0Alone(a, running, 5);
    if s.video && cmd.CpuWrite? {
      Leave0Alone(Next0(a, running), running, 4);
    } else if s.owns {
      QueueAlone(s, cmd, running);
    } else {
      ApplyAlone(s, cmd, running);
    }
  }

  lemma Step0Alone(s: State, running: bool, steps: nat)
    requires |s.ring| == COMMANDS && s.write < COMMANDS && 0 < steps && !s.core0.Idle0?
    ensures Alone0(s, running, steps) == Alone0(Next0(s, running), running, steps - 1)
  {}

  lemma Leave0Alone(s: State, running: bool, steps: nat)
    requires |s.ring| == COMMANDS && s.write < COMMANDS && 0 < steps && s.core0.Leaving?
    ensures Alone0(s, running, steps) == Next0(s, running)
  {
    assert Alone0(s, running, steps) == Alone0(Next0(s, running), running, steps - 1);
  }

  lemma QueueAlone(s: State, cmd: Command, running: bool)
    requires |s.ring| == COMMANDS && s.write < COMMANDS && s.read < COMMANDS && s.core0.Idle0? && s.gate.Open? && s.owns
    ensures Alone0(s.(gate := Held0, core0 := Room(cmd)), running, 4) ==
            if Used(s.write, s.read) == COMMANDS - 1 then s
            else s.(ring := s.ring[s.write := cmd], write := Wrap(s.write + 1), accepted := s.accepted + [cmd],
                    reported := s.reported + [cmd], irqClear := s.irqClear || cmd.Reset?)
  {
    hide Alone0, Wrap, Used, Next0;
    var b := s.(gate := Held0, core0 := Room(cmd));
    RoomAlone(s, cmd, running);
    Step0Alone(b, running, 4);
    if Used(s.write, s.read) == COMMANDS - 1 {
      Leave0Alone(Next0(b, running), running, 3);
      RefuseAlone(s, running);
    } else {
      StoredAlone(s.(ring := s.ring[s.write := cmd]), cmd, running);
    }
  }

  lemma RoomAlone(s: State, cmd: Command, running: bool)
    requires |s.ring| == COMMANDS && s.write < COMMANDS && s.read < COMMANDS
    ensures Next0(s.(gate := Held0, core0 := Room(cmd)), running) ==
            if Used(s.write, s.read) == COMMANDS - 1 then s.(gate := Held0, core0 := Leaving(Refused))
            else s.(gate := Held0, ring := s.ring[s.write := cmd], core0 := Stored(cmd))
  {
    UsedIs(s.write, s.read);
    WrapIs(s.write + 1);
    hide Wrap, Used;
  }

  lemma RefuseAlone(s: State, running: bool)
    requires |s.ring| == COMMANDS && s.write < COMMANDS && s.core0.Idle0? && s.gate.Open?
    ensures Next0(s.(gate := Held0, core0 := Leaving(Refused)), running) == s
  {}

  lemma StoredAlone(s: State, cmd: Command, running: bool)
    requires |s.ring| == COMMANDS && s.write < COMMANDS && s.core0.Idle0? && s.gate.Open?
    ensures Alone0(s.(gate := Held0, core0 := Stored(cmd)), running, 3) ==
            s.(write := Wrap(s.write + 1), accepted := s.accepted + [cmd], reported := s.reported + [cmd],
               irqClear := s.irqClear || cmd.Reset?)
  {
    hide Alone0, Wrap;
    var c := s.(gate := Held0, core0 := Stored(cmd));
    Step0Alone(c, running, 3);
    var d := Next0(c, running);
    Step0Alone(d, running, 2);
    Leave0Alone(Next0(d, running), running, 1);
  }

  lemma ApplyAlone(s: State, cmd: Command, running: bool)
    requires |s.ring| == COMMANDS && s.write < COMMANDS && s.core0.Idle0? && s.gate.Open? && !s.owns
    ensures Alone0(s.(gate := Held0, core0 := Applying(cmd)), running, 4) ==
            var runs := running && cmd.CpuWrite?;
            s.(running := runs, owns := runs, irqClear := s.irqClear && cmd.CpuWrite?, accepted := s.accepted + [cmd],
               applied := s.applied + [cmd], reported := s.reported + [cmd])
  {
    hide Alone0, Wrap;
    var b := s.(gate := Held0, core0 := Applying(cmd));
    Step0Alone(b, running, 4);
    var c := Next0(b, running);
    Step0Alone(c, running, 3);
    Leave0Alone(Next0(c, running), running, 2);
  }

  // A register read leaves the synchronisation as it was; one that must clear the interrupt clears it at once
  // when core 1 does not own the state, and leaves it for core 1 otherwise.
  lemma ReadAlone(s: State, running: bool)
    requires Inv(s) && s.core0.Idle0? && s.gate.Open?
    ensures Alone0(Next(s, CallRead), running, 4) == s
    ensures Alone0(Next(s, CallClear), running, 4) ==
            if s.owns then s.(irqClear := true) else s.(irqClear := false, cleared := s.cleared + 1)
  {
    hide Alone0, Wrap, Used, Owners, Delivered;
    var a := Next(s, CallRead);
    ReadsAlone(s, false, running, 4);
    var p := Next(s, CallClear);
    Step0Alone(p, running, 4);
    ReadsAlone(s.(irqClear := true), true, running, 3);
  }

  lemma ReadsAlone(s: State, clear: bool, running: bool, steps: nat)
    requires |s.ring| == COMMANDS && s.write < COMMANDS && s.core0.Idle0? && s.gate.Open? && 3 <= steps
    ensures Alone0(s.(gate := Held0, core0 := ReadEntered(clear)), running, steps) ==
            if clear && !s.owns then s.(irqClear := false, cleared := s.cleared + 1) else s
  {
    hide Alone0, Wrap;
    var a := s.(gate := Held0, core0 := ReadEntered(clear));
    Step0Alone(a, running, steps);
    var b := Next0(a, running);
    if s.owns {
      Leave0Alone(b, running, steps - 1);
    } else {
      Step0Alone(b, running, steps - 1);
      Leave0Alone(Next0(b, running), running, steps - 2);
    }
  }

  // What the coprocessor does with a command, and whether it still runs after an instruction, as a service finds it.
  datatype Cpu = Cpu(write: (Command, bool) -> bool, step: bool)

  function Ran(cpu: Cpu, cmd: Command, running: bool): bool {
    cmd.CpuWrite? && cpu.write(cmd, running)
  }

  // Whether it runs after these commands.
  function RanAll(cpu: Cpu, queue: seq<Command>, running: bool): bool {
    if queue == [] then running else RanAll(cpu, queue[1..], Ran(cpu, queue[0], running))
  }

  // Core 1 on its own for so many steps, or until its service is over.
  function Alone1(s: State, cpu: Cpu, steps: nat): State
    requires |s.ring| == COMMANDS && s.read < COMMANDS
    decreases steps
  {
    if steps == 0 || s.core1.Idle1? then s
    else Alone1(Next1(s, if s.core1.Executing? then Ran(cpu, s.core1.cmd, s.running) else cpu.step), cpu, steps - 1)
  }

  // Steps of a service: the clear, three for each command, one more look, the instruction, the hand-over.
  function ServiceSteps(s: State): nat {
    3 * Used(s.write, s.read) + 7
  }

  // A service from beginning to end while core 0 is quiet: the interrupt clear, every waiting command once and in
  // order, then one instruction if the coprocessor runs; and core 1 keeps the state exactly as long as it runs.
  lemma ServiceAlone(s: State, cpu: Cpu)
    requires Inv(s) && s.core0.Idle0? && s.core1.Idle1? && s.owns
    ensures var queue := Pending(s.ring, s.read, Used(s.write, s.read));
            var ran := RanAll(cpu, queue, s.running);
            Alone1(Next(s, Service), cpu, ServiceSteps(s)) ==
            s.(read := s.write, irqClear := false, running := ran && cpu.step, owns := ran && cpu.step,
               applied := s.applied + queue, cleared := if s.irqClear then s.cleared + 1 else s.cleared,
               executed := if ran then s.executed + 1 else s.executed)
  {
    hide Alone1, Owners, Delivered, Served, Next1, Pending, RanAll, Used;
    var n := ServiceSteps(s);
    var a := Next(s, Service);
    assert s.gate.Open? by {
      IdleGate(s);
    }
    Step1Alone(a, cpu, n);
    ServingAlone(s, cpu);
    if s.irqClear {
      var b := s.(irqClear := false, core1 := ClearingIrq);
      Step1Alone(b, cpu, n - 1);
      ClearingAlone(s, cpu);
      DrainAlone(s.(irqClear := false, cleared := s.cleared + 1), cpu, n - 2);
    } else {
      DrainAlone(s, cpu, n - 1);
    }
  }

  lemma IdleGate(s: State)
    requires Inv(s) && s.core0.Idle0? && s.core1.Idle1?
    ensures s.gate.Open?
  {
    hide Delivered, Served;
  }

  lemma Step1Alone(s: State, cpu: Cpu, steps: nat)
    requires |s.ring| == COMMANDS && s.read < COMMANDS && 0 < steps && !s.core1.Idle1?
    ensures Alone1(s, cpu, steps) ==
            Alone1(Next1(s, if s.core1.Executing? then Ran(cpu, s.core1.cmd, s.running) else cpu.step), cpu, steps - 1)
  {}

  lemma ServingAlone(s: State, cpu: Cpu)
    requires |s.ring| == COMMANDS && s.read < COMMANDS && s.core1.Idle1?
    ensures Next1(s.(core1 := Serving), cpu.step) == s.(irqClear := false, core1 := if s.irqClear then ClearingIrq else Draining)
  {}

  lemma ClearingAlone(s: State, cpu: Cpu)
    requires |s.ring| == COMMANDS && s.read < COMMANDS && s.core1.Idle1?
    ensures Next1(s.(irqClear := false, core1 := ClearingIrq), cpu.step) ==
            s.(irqClear := false, cleared := s.cleared + 1, core1 := Draining)
  {}

  // From the pop loop on.
  lemma {:induction false} DrainAlone(s: State, cpu: Cpu, steps: nat)
    requires |s.ring| == COMMANDS && s.write < COMMANDS && s.read < COMMANDS && s.core1.Idle1? && s.gate.Open? && s.owns && !s.irqClear
    requires 3 * Used(s.write, s.read) + 5 <= steps
    ensures var queue := Pending(s.ring, s.read, Used(s.write, s.read));
            var ran := RanAll(cpu, queue, s.running);
            Alone1(s.(core1 := Draining), cpu, steps) ==
            s.(read := s.write, running := ran && cpu.step, owns := ran && cpu.step, applied := s.applied + queue,
               executed := if ran then s.executed + 1 else s.executed)
    decreases Used(s.write, s.read)
  {
    hide Alone1, Next1, Pending, Wrap, RanAll, Used;
    UsedIs(s.write, s.read);
    if s.read == s.write {
      EmptyAlone(s, cpu, steps);
      NothingPending(s.ring, s.read, cpu, s.running);
    } else {
      var cmd := s.ring[s.read];
      var next := s.(read := Wrap(s.read + 1), running := Ran(cpu, cmd, s.running), applied := s.applied + [cmd]);
      PopAlone(s, cpu, steps);
      PendingPop(s.ring, s.write, s.read);
      RanPop(cpu, cmd, Pending(s.ring, Wrap(s.read + 1), Used(s.write, Wrap(s.read + 1))), s.running);
      DrainAlone(next, cpu, steps - 3);
    }
  }

  lemma NothingPending(ring: seq<Command>, read: nat, cpu: Cpu, running: bool)
    requires |ring| == COMMANDS
    ensures Pending(ring, read, 0) == [] && RanAll(cpu, [], running) == running
  {}

  lemma RanPop(cpu: Cpu, cmd: Command, rest: seq<Command>, running: bool)
    ensures RanAll(cpu, [cmd] + rest, running) == RanAll(cpu, rest, Ran(cpu, cmd, running))
  {
    assert ([cmd] + rest)[1..] == rest;
  }

  lemma PendingPop(ring: seq<Command>, write: nat, read: nat)
    requires |ring| == COMMANDS && write < COMMANDS && read < COMMANDS && read != write
    ensures Used(write, Wrap(read + 1)) == Used(write, read) - 1
    ensures Pending(ring, read, Used(write, read)) == [ring[read]] + Pending(ring, Wrap(read + 1), Used(write, Wrap(read + 1)))
  {
    UsedIs(write, read);
    WrapIs(read + 1);
    UsedIs(write, Wrap(read + 1));
    hide Used;
    var accepted := Pending(ring, read, Used(write, read));
    PopTakes(ring, write, read, accepted, []);
  }

  lemma PopAlone(s: State, cpu: Cpu, steps: nat)
    requires |s.ring| == COMMANDS && s.read < COMMANDS && s.core1.Idle1? && !s.irqClear && s.read != s.write && 3 <= steps
    ensures var cmd := s.ring[s.read];
            Alone1(s.(core1 := Draining), cpu, steps) ==
            Alone1(s.(read := Wrap(s.read + 1), running := Ran(cpu, cmd, s.running), applied := s.applied + [cmd], core1 := Draining),
                   cpu, steps - 3)
  {
    hide Alone1, Wrap;
    var cmd := s.ring[s.read];
    Step1Alone(s.(core1 := Draining), cpu, steps);
    Step1Alone(s.(core1 := Fetched(cmd)), cpu, steps - 1);
    Step1Alone(s.(read := Wrap(s.read + 1), core1 := Executing(cmd)), cpu, steps - 2);
  }

  // With nothing waiting: the instruction, and the decision who owns the state.
  lemma EmptyAlone(s: State, cpu: Cpu, steps: nat)
    requires |s.ring| == COMMANDS && s.read < COMMANDS && s.core1.Idle1? && s.gate.Open? && s.owns && !s.irqClear
    requires s.read == s.write && 5 <= steps
    ensures Alone1(s.(core1 := Draining), cpu, steps) ==
            s.(running := s.running && cpu.step, owns := s.running && cpu.step,
               executed := if s.running then s.executed + 1 else s.executed)
  {
    hide Alone1, Wrap;
    Step1Alone(s.(core1 := Draining), cpu, steps);
    var b := s.(core1 := Stepping);
    Step1Alone(b, cpu, steps - 1);
    if s.running && cpu.step {
      IdleAlone(Next1(b, cpu.step), cpu, steps - 2);
    } else {
      StopAlone(s.(running := false, executed := if s.running then s.executed + 1 else s.executed), cpu, steps - 2);
    }
  }

  lemma IdleAlone(s: State, cpu: Cpu, steps: nat)
    requires |s.ring| == COMMANDS && s.read < COMMANDS && s.core1.Idle1?
    ensures Alone1(s, cpu, steps) == s
  {}

  lemma StopAlone(s: State, cpu: Cpu, steps: nat)
    requires |s.ring| == COMMANDS && s.read < COMMANDS && s.core1.Idle1? && s.gate.Open? && s.read == s.write && !s.irqClear && 3 <= steps
    ensures Alone1(s.(core1 := Stopping), cpu, steps) == s.(owns := false)
  {
    hide Alone1, Wrap;
    Step1Alone(s.(core1 := Stopping), cpu, steps);
    Step1Alone(s.(gate := Held1, core1 := Deciding), cpu, steps - 1);
    Step1Alone(s.(gate := Held1, owns := false, core1 := Departing), cpu, steps - 2);
    IdleAlone(s.(owns := false), cpu, steps - 3);
  }

  // A command is refused only when the ring is full, and then leaves no trace.
  lemma RefusedWhenFull(s: State, running: bool)
    requires Inv(s) && s.core0.Room?
    ensures var s' := Next0(s, running);
            && (s'.core0 == Leaving(Refused) <==> Used(s.write, s.read) == 255)
            && (s'.core0 == Leaving(Refused) ==> s' == s.(core0 := Leaving(Refused)))
  {
    hide Wrap, Used;
    UsedIs(s.write, s.read);
    WrapIs(s.write + 1);
  }

  // Video gets the RAM exactly while the coprocessor is stopped and core 1 does not own it, and gives it back.
  lemma VideoSession(s: State, actions: seq<Action>, t: State)
    requires Initial(s) && Runs(s, actions, t) && t.core1.Idle1? && t.gate.Open? && !t.video
    ensures Inv(t) && Next(t, VideoAcquire) == t.(video := !t.owns) && (Next(t, VideoAcquire).video ==> !t.running)
    ensures Next(Next(t, VideoAcquire), VideoRelease) == t
  {
    InitialInv(s);
    RunInv(s, actions, t);
  }

  // While video owns the RAM core 1 does not own the state, and a register write is dropped.
  lemma VideoDrops(s: State, running: bool)
    requires Inv(s) && s.video && s.core0.Entered? && s.core0.cmd.CpuWrite?
    ensures !s.owns && Next0(s, running) == s.(core0 := Leaving(Nothing))
  {}
}
