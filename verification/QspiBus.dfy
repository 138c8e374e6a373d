/** Who may use the QSPI bus (src/platform/rp2350/qspi_bus.cpp): an owner flag, and the handshake that parks
  * core 0 in SRAM while core 1 talks to the SD card, as interleaved atomic steps. */
module QspiBus {
  datatype Phase = Idle | Requested | Preparing | Active | Ending

  // Where core 0 is.
  datatype Core0 =
    | Running0
    | Beginning         // asking the bus code to hand over to SRAM
    | Refusing          // it would not: about to store Idle
    | Parking           // about to store Active
    | Waiting           // parked, as long as the phase is Active
    | Restoring         // about to take the bus back from SRAM
    | Restored          // about to store Idle
    | Saving0           // holds the owner flag for a flash save

  // Where core 1 is.
  datatype Core1 =
    | Running1
    | Acquired          // has the owner flag, about to clear the cancel flag and request
    | Polling           // looking at the phase
    | TimedOut          // about to withdraw the request
    | GivingUp          // saw Idle or withdrew: about to release the owner flag
    | Transferring      // the begin call returned true
    | Releasing         // the end call: about to release the owner flag
    | Closing           // about to store Ending
    | Draining          // until the phase is Idle
    | Saving1           // holds the owner flag for a flash save or a program upload

  // sram: the bus code serves the console from SRAM, so the QSPI bus is free of core 0's reads.
  datatype State = State(owner: bool, phase: Phase, cancelled: bool, sram: bool, core0: Core0, core1: Core1)

  datatype Action =
    | Begin | End | Save1                    // core 1 calls
    | Service | Save0                        // core 0 calls
    | Step0(granted: bool)                   // core 0's next step; granted is the bus code's answer
    | Step1(late: bool)                      // core 1's next step; late is whether the timeout has passed
    | Cancel                                 // the console was reset, disconnected, or its queue is filling

  predicate Enabled(s: State, a: Action) {
    match a
    case Begin => s.core1.Running1?
    case End => s.core1.Transferring?
    case Save1 => s.core1.Running1?
    case Service => s.core0.Running0?
    case Save0 => s.core0.Running0?
    case Step0(_) => !s.core0.Running0?
    case Step1(_) => !s.core1.Running1? && !s.core1.Transferring?
    case Cancel => true
  }

  // Test-and-set of the owner flag.
  function Next0(s: State, granted: bool): State {
    match s.core0
    case Running0 => s
    case Beginning => if granted then s.(sram := true, core0 := Parking) else s.(cancelled := true, core0 := Refusing)
    case Refusing => s.(phase := Idle, core0 := Running0)
    case Parking => s.(phase := Active, core0 := Waiting)
    case Waiting => if s.phase.Active? then s else s.(core0 := Restoring)
    case Restoring => s.(sram := false, core0 := Restored)
    case Restored => s.(phase := Idle, core0 := Running0)
    case Saving0 => s.(owner := false, core0 := Running0)
  }

  function Next1(s: State, late: bool): State {
    match s.core1
    case Running1 => s
    case Acquired => s.(cancelled := false, phase := Requested, core1 := Polling)
    case Polling =>
      if s.phase.Active? then s.(core1 := Transferring)
      else if s.phase.Idle? then s.(core1 := GivingUp)
      else if late then s.(core1 := TimedOut)
      else s
    case TimedOut =>
      if s.phase.Requested? then s.(phase := Idle, core1 := GivingUp)
      else s.(cancelled := true, core1 := Polling)
    case GivingUp => s.(owner := false, core1 := Running1)
    case Transferring => s
    case Releasing => s.(owner := false, core1 := Closing)
    case Closing => s.(phase := Ending, core1 := Draining)
    case Draining => if s.phase.Idle? then s.(core1 := Running1) else s
    case Saving1 => s.(owner := false, core1 := Running1)
  }

  function Next(s: State, a: Action): State {
    match a
    case Begin => if s.owner then s else s.(owner := true, core1 := Acquired)
    case Save1 => if s.owner then s else s.(owner := true, core1 := Saving1)
    case End => s.(core1 := Releasing)
    case Service => if s.phase.Requested? then s.(phase := Preparing, core0 := Beginning) else s
    case Save0 => if s.owner then s else s.(owner := true, core0 := Saving0)
    case Step0(granted) => Next0(s, granted)
    case Step1(late) => Next1(s, late)
    case Cancel => s.(cancelled := true)
  }

  predicate Initial(s: State) {
    !s.owner && s.phase.Idle? && !s.sram && s.core0.Running0? && s.core1.Running1?
  }

  // Core 1 holds the owner flag.
  predicate Holds1(c: Core1) {
    c.Acquired? || c.Polling? || c.TimedOut? || c.GivingUp? || c.Transferring? || c.Releasing? || c.Saving1?
  }

  // Core 0 takes part in a handshake.
  predicate Engaged(c: Core0) {
    c.Beginning? || c.Refusing? || c.Parking? || c.Waiting? || c.Restoring? || c.Restored?
  }

  // The phase says where both cores are.
  predicate Agrees(s: State) {
    match s.phase
    case Idle => !Engaged(s.core0) && !s.core1.Transferring? && !s.core1.Releasing? && !s.core1.Closing?
    case Requested => !Engaged(s.core0) && (s.core1.Polling? || s.core1.TimedOut?)
    case Preparing => (s.core0.Beginning? || s.core0.Refusing? || s.core0.Parking?) && (s.core1.Polling? || s.core1.TimedOut?)
    case Active =>
      s.core0.Waiting? && (s.core1.Polling? || s.core1.TimedOut? || s.core1.Transferring? || s.core1.Releasing? || s.core1.Closing?)
    case Ending => (s.core0.Waiting? || s.core0.Restoring? || s.core0.Restored?) && s.core1.Draining?
  }

  // The owner flag is held by exactly one user, the bus is served from SRAM exactly from the grant until
  // core 0 takes it back, and the phase tells the truth.
  predicate Inv(s: State) {
    && (s.owner <==> Holds1(s.core1) || s.core0.Saving0?)
    && !(Holds1(s.core1) && s.core0.Saving0?)
    && (s.sram <==> s.core0.Parking? || s.core0.Waiting? || s.core0.Restoring?)
    && Agrees(s)
  }

  lemma InvStep(s: State, a: Action)
    requires Inv(s) && Enabled(s, a)
    ensures Inv(Next(s, a))
  {
    match a {
      case Step0(granted) =>
        match s.core0 {
          case Waiting => assert s.phase.Active? || s.phase.Ending?;
          case _ =>
        }
      case Step1(late) =>
        match s.core1 {
          case Polling => assert Engaged(s.core0) || s.phase.Requested? || s.phase.Idle?;
          case _ =>
        }
      case _ =>
    }
  }

  ghost predicate Runs(s: State, actions: seq<Action>, t: State)
    decreases |actions|
  {
    if actions == [] then s == t else Enabled(s, actions[0]) && Runs(Next(s, actions[0]), actions[1..], t)
  }

  lemma {:induction false} RunInv(s: State, actions: seq<Action>, t: State)
    requires Inv(s) && Runs(s, actions, t)
    ensures Inv(t)
    decreases |actions|
  {
    if actions != [] {
      InvStep(s, actions[0]);
      hide Inv, Next, Enabled;
      RunInv(Next(s, actions[0]), actions[1..], t);
    }
  }

  // In every reachable state an SD transfer runs only after the bus code has handed over to SRAM, while core 0
  // is parked in its Active wait and the owner flag is core 1's, and no save overlaps it.
  lemma TransferIsExclusive(s: State, actions: seq<Action>, t: State)
    requires Initial(s) && Runs(s, actions, t) && t.core1.Transferring?
    ensures t.sram && t.core0.Waiting? && t.phase.Active? && t.owner
    ensures !t.core0.Saving0? && !t.core1.Saving1?
  {
    RunInv(s, actions, t);
  }

  // At most one save or SD window holds the flag at any time.
  lemma OneHolder(s: State, actions: seq<Action>, t: State)
    requires Initial(s) && Runs(s, actions, t)
    ensures !(t.core0.Saving0? && t.core1.Saving1?) && !(t.core0.Saving0? && Holds1(t.core1))
    ensures t.core0.Saving0? ==> t.phase.Idle? || t.core1.Draining?
  {
    RunInv(s, actions, t);
  }

  // Core 0 only leaves its wait after core 1 ended the transfer.
  lemma ParkedUntilEnd(s: State, actions: seq<Action>, t: State, granted: bool)
    requires Initial(s) && Runs(s, actions, t) && t.core0.Waiting? && Next(t, Step0(granted)).core0.Restoring?
    ensures t.sram && t.core1.Draining? && !t.owner
  {
    RunInv(s, actions, t);
  }

  // A begin call that took the flag ends one of two ways: with core 0 parked, or with the flag released
  // and the phase Idle again.
  lemma BeginOutcome(s: State, actions: seq<Action>, t: State, late: bool)
    requires Initial(s) && Runs(s, actions, t) && (t.core1.Polling? || t.core1.TimedOut? || t.core1.GivingUp?)
    ensures var t' := Next(t, Step1(late));
            && (t'.core1.Polling? || t'.core1.TimedOut? || t'.core1.GivingUp? || t'.core1.Transferring? || t'.core1.Running1?)
            && (t'.core1.Transferring? ==> t'.phase.Active? && t'.owner && t'.core0.Waiting?)
            && (t'.core1.Running1? ==> t'.phase.Idle? && !t'.owner && !Engaged(t'.core0))
  {
    RunInv(s, actions, t);
    InvStep(t, Step1(late));
  }

  // How many steps of core 0 the answer is away.
  function Distance(s: State): nat {
    match s.phase
    case Requested => 3
    case Preparing => if s.core0.Beginning? then 2 else 1
    case _ => 0
  }

  // A waiting begin call always gets an answer: at distance zero its next look ends it, at three the
  // timeout withdraws the request, and otherwise every step of core 0 brings the answer closer.
  lemma BeginIsAnswered(s: State, actions: seq<Action>, t: State, granted: bool)
    requires Initial(s) && Runs(s, actions, t) && t.core1.Polling?
    ensures Distance(t) == 0 ==> Next(t, Step1(false)).core1.Transferring? || Next(t, Step1(false)).core1.GivingUp?
    ensures Distance(t) == 3 ==> Next(Next(t, Step1(true)), Step1(true)).core1.GivingUp?
    ensures 0 < Distance(t) < 3 ==> Enabled(t, Step0(granted)) && Distance(Next(t, Step0(granted))) < Distance(t)
    ensures Distance(t) == 3 && t.core0.Running0? ==> Distance(Next(t, Service)) < Distance(t)
  {
    RunInv(s, actions, t);
  }

  // A refused request leaves the begin call refused and cancelled, with nothing changed on the bus.
  lemma RefusedIsCancelled(s: State, actions: seq<Action>, t: State)
    requires Initial(s) && Runs(s, actions, t) && t.core0.Beginning?
    ensures var t' := Next(Next(t, Step0(false)), Step0(false));
            t'.core0.Running0? && t'.phase.Idle? && t'.cancelled && !t'.sram &&
            (t.core1.Polling? ==> Next(t', Step1(false)).core1.GivingUp?)
  {
    RunInv(s, actions, t);
  }

  // A cancellation stays until the next request, whoever made it.
  lemma {:induction false} CancelStays(s: State, actions: seq<Action>, t: State)
    requires s.cancelled && Runs(s, actions, t)
    requires forall i, r :: 0 <= i < |actions| && Runs(s, actions[..i], r) ==> !(r.core1.Acquired? && actions[i].Step1?)
    ensures t.cancelled
    decreases |actions|
  {
    if actions != [] {
      assert Runs(s, actions[..0], s);
      var s', rest := Next(s, actions[0]), actions[1..];
      forall i, r | 0 <= i < |rest| && Runs(s', rest[..i], r)
        ensures !(r.core1.Acquired? && rest[i].Step1?)
      {
        assert actions[..i + 1][1..] == rest[..i] && actions[..i + 1][0] == actions[0];
        assert Runs(s, actions[..i + 1], r);
      }
      CancelStays(s', rest, t);
    }
  }

  // How far an end call is from its return.
  function Ahead(s: State): nat {
    match s.core1
    case Releasing => 6
    case Closing => 5
    case Draining => if s.phase.Idle? then 1 else if s.core0.Waiting? then 4 else if s.core0.Restoring? then 3 else 2
    case _ => 0
  }

  // An end call always returns, with core 0 out of the handshake and the bus taken back: no action takes it
  // further from its return, and as long as it has not returned a step of one of the cores brings it closer.
  lemma EndIsAnswered(s: State, actions: seq<Action>, t: State, a: Action, granted: bool, late: bool)
    requires Initial(s) && Runs(s, actions, t) && 0 < Ahead(t) && Enabled(t, a)
    ensures Ahead(Next(t, a)) <= Ahead(t)
    ensures Ahead(t) == 1 || 5 <= Ahead(t) ==> Enabled(t, Step1(late)) && Ahead(Next(t, Step1(late))) < Ahead(t)
    ensures 2 <= Ahead(t) <= 4 ==> Enabled(t, Step0(granted)) && Ahead(Next(t, Step0(granted))) < Ahead(t)
    ensures Ahead(Next(t, a)) == 0 ==> !Engaged(t.core0) && t.phase.Idle? && !t.sram
  {
    RunInv(s, actions, t);
  }

  // A request that is granted becomes a transfer,
  lemma Granted(s: State, late: bool, granted: bool)
    requires Initial(s)
    ensures var t := Next(Next(Next(s, Begin), Step1(late)), Service);
            Next(Next(Next(t, Step0(true)), Step0(granted)), Step1(late)) == State(true, Active, false, true, Waiting, Transferring)
  {
    var t := Next(Next(Next(s, Begin), Step1(late)), Service);
    assert t == State(true, Preparing, false, false, Beginning, Polling);
  }

  // and its end leaves everything as it was.
  lemma Ended(t: State, late: bool, granted: bool)
    requires t == State(true, Active, t.cancelled, true, Waiting, Transferring)
    ensures var u := Next(Next(Next(t, End), Step1(late)), Step1(late));
            Next(Next(Next(Next(u, Step0(granted)), Step0(granted)), Step0(granted)), Step1(late)) ==
              State(false, Idle, t.cancelled, false, Running0, Running1)
  {
    var u := Next(Next(Next(t, End), Step1(late)), Step1(late));
    assert u == State(false, Ending, t.cancelled, true, Waiting, Draining);
  }

  // A free flag is there for every save, which gives it back.
  lemma SavesTakeTurns(s: State, actions: seq<Action>, t: State, granted: bool, late: bool)
    requires Initial(s) && Runs(s, actions, t)
    ensures t.core0.Running0? ==> (Next(t, Save0).core0.Saving0? <==> !t.owner) && (t.owner ==> Next(t, Save0) == t)
    ensures t.core1.Running1? ==> (Next(t, Save1).core1.Saving1? <==> !t.owner) && (t.owner ==> Next(t, Save1) == t)
    ensures t.core1.Running1? ==> (Next(t, Begin).core1.Acquired? <==> !t.owner) && (t.owner ==> Next(t, Begin) == t)
    ensures t.core0.Running0? && !t.owner ==> Next(Next(t, Save0), Step0(granted)) == t
    ensures t.core1.Running1? && !t.owner ==> Next(Next(t, Save1), Step1(late)) == t
  {
    RunInv(s, actions, t);
  }
}
