/** Signal handlers as overrides of the instruction pointer: a queue of at most sixteen, saved and
    resumed at every entry into and exit from ring zero.

    Slot 0 is where the thread goes on, the slots after it are handlers that have not begun; without
    overrides it goes on at the saved instruction pointer. Address 0 means an empty slot, so no user
    code runs there. Issuing stops at the first empty slot and handler return clears the last one; the
    source leaves out both, see the AsWritten members. Registers are one value: all that store_state
    saves and leave_ringzero loads but the instruction pointer. */
module Signals {

  const SLOTS: nat := 16

  type Registers = seq<nat>

  /** What is kept in the thread record. */
  datatype Saved = Saved(frames: seq<nat>, ip: nat, regs: Registers, killed: bool)

  /** The slots that hold the queue. */
  function Slots(frames: seq<nat>): (r: seq<nat>)
    requires |frames| <= SLOTS
    ensures |r| == SLOTS && forall i | 0 <= i < SLOTS :: r[i] == if i < |frames| then frames[i] else 0
  {
    frames + seq(SLOTS - |frames|, _ => 0)
  }

  ghost predicate Queue(frames: seq<nat>) {
    |frames| <= SLOTS && forall i | 0 <= i < |frames| :: frames[i] != 0
  }

  // ----- what the operations do -----

  function Stored(s: Saved, ip: nat, regs: Registers): Saved {
    if s.frames != [] then s.(frames := s.frames[0 := ip], regs := regs) else s.(ip := ip, regs := regs)
  }

  function ResumeAt(s: Saved): nat {
    if s.frames != [] then s.frames[0] else s.ip
  }

  /** A signal with no handler has address 0. */
  function Issued(s: Saved, handler: nat): Saved {
    if |s.frames| >= SLOTS then s.(killed := true)
    else if handler == 0 then s
    else s.(frames := s.frames + [handler])
  }

  function Returned(s: Saved): Saved {
    if s.frames == [] then s else s.(frames := s.frames[1..])
  }

  class ThreadState {
    const instructionOverride: array<nat>
    var instructionPointer: nat
    var regs: Registers
    var killed: bool
    ghost var frames: seq<nat>

    ghost predicate Valid()
      reads this, instructionOverride
    {
      Queue(frames) && instructionOverride.Length == SLOTS && instructionOverride[..] == Slots(frames)
    }

    ghost function Abs(): Saved
      reads this
    {
      Saved(frames, instructionPointer, regs, killed)
    }

    constructor (ip: nat, regs: Registers)
      ensures Valid() && Abs() == Saved([], ip, regs, false) && fresh(instructionOverride)
    {
      instructionOverride := new nat[SLOTS](_ => 0);
      instructionPointer, this.regs, killed, frames := ip, regs, false, [];
    }

    /** `store_state`, at an entry into ring zero. */
    method StoreState(ip: nat, regs: Registers)
      requires Valid() && ip != 0
      modifies this, instructionOverride
      ensures Valid() && Abs() == Stored(old(Abs()), ip, regs)
    {
      this.regs := regs;
      if instructionOverride[0] == 0 {
        assert instructionOverride[..][0] == 0;
        instructionPointer := ip;
      } else {
        assert instructionOverride[..][0] != 0;
        instructionOverride[0] := ip;
        frames := frames[0 := ip];
      }
    }

    /** `leave_ringzero`: where it goes on, and with what registers. */
    method LeaveRingzero() returns (ip: nat, regs: Registers)
      requires Valid()
      ensures ip == ResumeAt(Abs()) && regs == this.regs
    {
      assert instructionOverride[..][0] == instructionOverride[0];
      ip := instructionOverride[0];
      if ip == 0 {
        ip := instructionPointer;
      }
      regs := this.regs;
    }

    /** `signal_issuer`. */
    method SignalIssuer(handler: nat)
      requires Valid()
      modifies this, instructionOverride
      ensures Valid() && Abs() == Issued(old(Abs()), handler)
    {
      var i := 0;
      while i < SLOTS
        invariant 0 <= i <= |frames| && i <= SLOTS && Valid() && Abs() == old(Abs())
      {
        assert instructionOverride[..][i] == instructionOverride[i];
        if instructionOverride[i] == 0 {
          instructionOverride[i] := handler;
          if handler != 0 {
            frames := frames + [handler];
          }
          assert instructionOverride[..] == Slots(frames);
          return;
        }
        i := i + 1;
      }
      killed := true;
    }

    /** `signal_handler_return`. */
    method SignalHandlerReturn()
      requires Valid()
      modifies this, instructionOverride
      ensures Valid() && Abs() == Returned(old(Abs()))
    {
      ghost var was := instructionOverride[..];
      for i := 0 to SLOTS - 1
        invariant Abs() == old(Abs()) && instructionOverride.Length == SLOTS && |was| == SLOTS
        invariant forall k | 0 <= k < i :: instructionOverride[k] == was[k + 1]
        invariant forall k | i <= k < SLOTS :: instructionOverride[k] == was[k]
      {
        instructionOverride[i] := instructionOverride[i + 1];
      }
      instructionOverride[SLOTS - 1] := 0;
      if frames != [] {
        frames := frames[1..];
      }
      assert forall k | 0 <= k < SLOTS :: instructionOverride[k] == if k + 1 < SLOTS then was[k + 1] else 0;
      assert instructionOverride[..] == Slots(frames);
    }
  }

  // ----- a thread over time -----

  datatype Mode = User | Kernel | Returning

  /** handlers: whose frame each slot is. accepted: the handlers queued so far; finished: those that
      returned. begun: whether the first in the queue has run. interrupted: the instruction pointer at the
      last entry without overrides. */
  datatype Machine = Machine(saved: Saved, mode: Mode, ip: nat, regs: Registers,
                             handlers: seq<nat>, begun: bool, accepted: seq<nat>, finished: seq<nat>,
                             interrupted: nat)

  /** Step: user code gets to ip with regs. Enter: an interrupt or a system call; `call` for the one
      that reports a handler's return. */
  datatype Event = Step(ip: nat, regs: Registers) | Enter(call: bool) | Issue(handler: nat) | Return | Leave

  ghost function Next(m: Machine, e: Event): Machine {
    match e
    case Step(ip, regs) => if m.mode.User? && ip != 0 then m.(ip := ip, regs := regs) else m
    case Enter(call) =>
      if !m.mode.User? then m
      else m.(saved := Stored(m.saved, m.ip, m.regs), mode := if call then Returning else Kernel,
              interrupted := if m.saved.frames == [] then m.ip else m.interrupted)
    case Issue(handler) =>
      if !m.mode.Kernel? then m
      else
        var s := Issued(m.saved, handler);
        if s.frames == m.saved.frames then m.(saved := s)
        else m.(saved := s, handlers := m.handlers + [handler], accepted := m.accepted + [handler],
                begun := if m.saved.frames == [] then false else m.begun)
    case Return =>
      if !m.mode.Returning? then m
      else if m.handlers == [] then m.(saved := Returned(m.saved), mode := Kernel)
      else m.(saved := Returned(m.saved), mode := Kernel, handlers := m.handlers[1..], begun := false,
              finished := m.finished + [m.handlers[0]])
    case Leave =>
      if !m.mode.Kernel? then m
      else m.(mode := User, ip := ResumeAt(m.saved), regs := m.saved.regs, begun := true)
  }

  ghost function Run(m: Machine, events: seq<Event>): Machine
    decreases |events|
  {
    if events == [] then m else Run(Next(m, events[0]), events[1..])
  }

  ghost predicate Fresh(m: Machine) {
    && m.saved == Saved([], m.ip, m.regs, false) && m.mode.User? && m.ip != 0
    && m.handlers == m.accepted == m.finished == [] && m.interrupted == m.ip
  }

  /** What holds between any two events. */
  ghost predicate Orderly(m: Machine) {
    && Queue(m.saved.frames) && m.ip != 0 && m.saved.ip != 0
    && |m.handlers| == |m.saved.frames|
    && (forall i | 0 < i < |m.handlers| :: m.saved.frames[i] == m.handlers[i])
    && (m.handlers != [] && !m.begun ==> m.saved.frames[0] == m.handlers[0])
    && (m.handlers != [] && !m.mode.Kernel? ==> m.begun)
    && m.accepted == m.finished + m.handlers
    && m.saved.ip == m.interrupted
  }

  lemma NextOrderly(m: Machine, e: Event)
    requires Orderly(m)
    ensures Orderly(Next(m, e))
  {
    match e
    case Issue(handler) =>
      if m.mode.Kernel? && Issued(m.saved, handler).frames != m.saved.frames {
        assert m.accepted + [handler] == m.finished + (m.handlers + [handler]);
      }
    case Return =>
      if m.mode.Returning? && m.handlers != [] {
        assert m.finished + m.handlers == m.finished + [m.handlers[0]] + m.handlers[1..];
      }
    case _ =>
  }

  lemma {:induction false} RunOrderly(m: Machine, events: seq<Event>)
    requires Orderly(m)
    ensures Orderly(Run(m, events))
    decreases |events|
  {
    if events != [] {
      NextOrderly(m, events[0]);
      RunOrderly(Next(m, events[0]), events[1..]);
    }
  }

  /** Over every run the queue is a bounded FIFO: the handlers that returned are the first accepted, in
      order, and those queued the rest, at most sixteen; one that has not begun begins at its own
      address, and the next exit goes to the first in the queue. When the queue is empty every accepted
      handler has returned and the thread goes on where it was interrupted. */
  lemma HandlersRunInOrder(m: Machine, events: seq<Event>)
    requires Fresh(m)
    ensures var m' := Run(m, events);
            && m'.accepted == m'.finished + m'.handlers && |m'.handlers| <= SLOTS
            && (m'.mode.Kernel? && m'.handlers != [] && !m'.begun ==> Next(m', Leave).ip == m'.handlers[0])
            && (m'.mode.Kernel? && m'.handlers == []
                ==> Next(m', Leave).ip == m'.interrupted && m'.finished == m'.accepted)
  {
    RunOrderly(m, events);
  }

  // ----- what each event does -----

  /** A signal that arrives in ring zero is accepted exactly when it has a handler and there is a slot to
      spare: its handler is queued last, behind the ones that wait. Otherwise nothing is queued. */
  lemma IssueQueues(m: Machine, handler: nat)
    requires Orderly(m)
    ensures var m' := Next(m, Issue(handler));
            && (m'.mode, m'.ip, m'.regs, m'.interrupted) == (m.mode, m.ip, m.regs, m.interrupted)
            && (m'.saved.ip, m'.saved.regs, m'.finished) == (m.saved.ip, m.saved.regs, m.finished)
            && if m.mode.Kernel? && handler != 0 && |m.handlers| < SLOTS then
                 && m'.handlers == m.handlers + [handler] && m'.accepted == m.accepted + [handler]
                 && m'.saved.frames == m.saved.frames + [handler] && m'.saved.killed == m.saved.killed
               else
                 (m'.handlers, m'.accepted, m'.saved.frames) == (m.handlers, m.accepted, m.saved.frames)
  {
  }

  /** A handler that reports its return is finished and the others move up; the next exit goes to the
      first of them, or on where the thread was interrupted. */
  lemma ReturnMovesUp(m: Machine)
    requires Orderly(m) && m.mode.Returning? && m.handlers != []
    ensures var m' := Next(m, Return);
            && m'.mode.Kernel? && m'.finished == m.finished + [m.handlers[0]] && m'.accepted == m.accepted
            && m'.handlers == m.handlers[1..] && m'.saved.frames == m.saved.frames[1..]
            && m'.saved.regs == m.saved.regs && m'.saved.killed == m.saved.killed
            && Next(m', Leave).ip == if |m.handlers| > 1 then m.handlers[1] else m.interrupted
  {
    NextOrderly(m, Return);
  }

  /** An interrupt in which no signal arrives is invisible: the code goes on at its instruction with its
      registers, whether it is the thread's own or a handler's. */
  lemma InterruptIsInvisible(m: Machine)
    requires Orderly(m) && m.mode.User?
    ensures var m' := Next(Next(m, Enter(false)), Leave);
            && m'.mode.User? && m'.ip == m.ip && m'.regs == m.regs
            && m'.handlers == m.handlers && m'.accepted == m.accepted && m'.finished == m.finished
            && |m'.saved.frames| == |m.saved.frames| && m'.saved.killed == m.saved.killed
            && forall i | 1 <= i < |m.saved.frames| :: m'.saved.frames[i] == m.saved.frames[i]
  {
  }

  /** A signal that arrives during it runs its handler at once, if none is queued. */
  lemma IssuedRunsNext(m: Machine, handler: nat)
    requires Orderly(m) && m.mode.User? && m.saved.frames == [] && handler != 0
    ensures var m' := Next(Next(Next(m, Enter(false)), Issue(handler)), Leave);
            m'.mode.User? && m'.ip == handler && m'.regs == m.regs && m'.interrupted == m.ip
  {
  }

  /** A full queue refuses: nothing changes but that the process is to be killed; and nothing else
      raises that. */
  lemma OverflowKills(m: Machine, e: Event)
    requires Orderly(m)
    ensures Next(m, e).saved.killed != m.saved.killed
            <==> e.Issue? && m.mode.Kernel? && |m.saved.frames| == SLOTS && !m.saved.killed
    ensures e.Issue? && |m.saved.frames| == SLOTS
            ==> Next(m, e) == m.(saved := m.saved.(killed := Next(m, e).saved.killed))
  {
  }

  /** No entry of the events finds the queue empty. */
  ghost predicate Overridden(m: Machine, events: seq<Event>)
    decreases |events|
  {
    events == [] || (
      && (events[0].Enter? && m.mode.User? ==> m.saved.frames != [])
      && Overridden(Next(m, events[0]), events[1..]))
  }

  lemma {:induction false} OverriddenKeepsIp(m: Machine, events: seq<Event>)
    requires Overridden(m, events)
    ensures Run(m, events).saved.ip == m.saved.ip
    decreases |events|
  {
    if events != [] {
      OverriddenKeepsIp(Next(m, events[0]), events[1..]);
    }
  }

  /** The registers user code has, and had at the last entry, as the events alone tell: steps set them,
      an entry takes note of them, and an exit brings back those noted. */
  datatype Seen = Seen(mode: Mode, current: Registers, entered: Registers)

  function FollowOne(t: Seen, e: Event): Seen {
    match e
    case Step(ip, regs) => if t.mode.User? && ip != 0 then t.(current := regs) else t
    case Enter(call) => if t.mode.User? then t.(mode := if call then Returning else Kernel, entered := t.current) else t
    case Issue(_) => t
    case Return => if t.mode.Returning? then t.(mode := Kernel) else t
    case Leave => if t.mode.Kernel? then t.(mode := User, current := t.entered) else t
  }

  function Follow(t: Seen, events: seq<Event>): Seen
    decreases |events|
  {
    if events == [] then t else Follow(FollowOne(t, events[0]), events[1..])
  }

  function SeenIn(m: Machine): Seen {
    Seen(m.mode, m.regs, m.saved.regs)
  }

  lemma NextFollows(m: Machine, e: Event)
    ensures SeenIn(Next(m, e)) == FollowOne(SeenIn(m), e)
  {
  }

  /** What is saved is what user code had at the last entry. */
  lemma {:induction false} SavedAtLastEntry(m: Machine, events: seq<Event>)
    ensures SeenIn(Run(m, events)) == Follow(SeenIn(m), events)
    decreases |events|
  {
    if events != [] {
      NextFollows(m, events[0]);
      SavedAtLastEntry(Next(m, events[0]), events[1..]);
    }
  }

  /** Exact resume: interrupted at m.ip with nothing queued, whatever handlers are issued, run, are
      themselves interrupted and return after that, the first exit that finds the queue empty again
      goes on at m.ip. No handler's registers are kept apart: the exit brings back the interrupted ones
      exactly when those are what the code that entered last, to report the last handler's return, had. */
  lemma ResumesWhereInterrupted(m: Machine, call: bool, events: seq<Event>)
    requires Orderly(m) && m.mode.User? && m.saved.frames == [] && Overridden(Next(m, Enter(call)), events)
    ensures var m' := Run(Next(m, Enter(call)), events);
            m'.mode.Kernel? && m'.saved.frames == [] ==>
              && Next(m', Leave).ip == m.ip
              && (Next(m', Leave).regs == m.regs
                  <==> Follow(Seen(User, m.regs, []), [Enter(call)] + events).entered == m.regs)
  {
    var entered := Next(m, Enter(call));
    NextOrderly(m, Enter(call));
    RunOrderly(entered, events);
    OverriddenKeepsIp(entered, events);
    SavedAtLastEntry(entered, events);
    assert ([Enter(call)] + events)[1..] == events;
  }

  /** A handler that changes a register and returns: the thread goes on where it was interrupted, with
      the handler's register. */
  lemma HandlerLeavesItsRegisters()
    ensures var m := Machine(Saved([], 100, [1], false), User, 100, [1], [], true, [], [], 100);
            var after := Run(m, [Enter(false), Issue(200), Leave, Step(204, [2]), Enter(true), Return, Leave]);
            Fresh(m) && after.ip == 100 && after.mode.User? && after.finished == [200] && after.regs == [2]
  {
    var m0 := Machine(Saved([], 100, [1], false), User, 100, [1], [], true, [], [], 100);
    var m1 := Next(m0, Enter(false));
    var m2 := Next(m1, Issue(200));
    var m3 := Next(m2, Leave);
    var m4 := Next(m3, Step(204, [2]));
    var m5 := Next(m4, Enter(true));
    var m6 := Next(m5, Return);
    assert m3.ip == 200 && m5.saved.frames == [204] && m6.saved.frames == [] && m6.finished == [200];
    assert Run(m6, [Leave]) == Run(Next(m6, Leave), []);
    assert Run(m5, [Return, Leave]) == Run(m6, [Leave]);
    assert Run(m4, [Enter(true), Return, Leave]) == Run(m5, [Return, Leave]);
    assert Run(m3, [Step(204, [2]), Enter(true), Return, Leave]) == Run(m4, [Enter(true), Return, Leave]);
    assert Run(m2, [Leave, Step(204, [2]), Enter(true), Return, Leave])
        == Run(m3, [Step(204, [2]), Enter(true), Return, Leave]);
    assert Run(m1, [Issue(200), Leave, Step(204, [2]), Enter(true), Return, Leave])
        == Run(m2, [Leave, Step(204, [2]), Enter(true), Return, Leave]);
    assert Run(m0, [Enter(false), Issue(200), Leave, Step(204, [2]), Enter(true), Return, Leave])
        == Run(m1, [Issue(200), Leave, Step(204, [2]), Enter(true), Return, Leave]);
  }

  // ----- as written -----

  /** Without a break the handler goes into every empty slot. */
  function IssuedAsWritten(slots: seq<nat>, handler: nat): (r: seq<nat>)
    ensures |r| == |slots| && forall i | 0 <= i < |slots| :: r[i] == if slots[i] == 0 then handler else slots[i]
  {
    seq(|slots|, i requires 0 <= i < |slots| => if slots[i] == 0 then handler else slots[i])
  }

  /** So issuing is right exactly with at most one slot to spare. */
  lemma IssueAsWrittenFills(s: Saved, handler: nat)
    requires Queue(s.frames) && handler != 0
    ensures IssuedAsWritten(Slots(s.frames), handler) == Slots(Issued(s, handler).frames) <==> |s.frames| >= SLOTS - 1
  {
    var left, right := IssuedAsWritten(Slots(s.frames), handler), Slots(Issued(s, handler).frames);
    if |s.frames| < SLOTS - 1 {
      assert left[SLOTS - 1] != right[SLOTS - 1];
    } else {
      assert left == right;
    }
  }

  /** Handler return without clearing the last slot. */
  function ReturnedAsWritten(slots: seq<nat>): (r: seq<nat>)
    requires |slots| == SLOTS
    ensures |r| == SLOTS
  {
    slots[1..] + [slots[SLOTS - 1]]
  }

  lemma ReturnAsWrittenShifts(s: Saved)
    requires Queue(s.frames)
    ensures ReturnedAsWritten(Slots(s.frames)) == Slots(Returned(s).frames) <==> |s.frames| < SLOTS
  {
    var left, right := ReturnedAsWritten(Slots(s.frames)), Slots(Returned(s).frames);
    if |s.frames| == SLOTS {
      assert left[SLOTS - 1] != right[SLOTS - 1];
    } else {
      assert left == right;
    }
  }

  function Returns(slots: seq<nat>, n: nat): (r: seq<nat>)
    requires |slots| == SLOTS
    ensures |r| == SLOTS
  {
    if n == 0 then slots else ReturnedAsWritten(Returns(slots, n - 1))
  }

  /** A queue that was once full never drains: its last handler moves up behind every return, and from
      the fifteenth on fills every slot. */
  lemma {:induction false} FullNeverDrains(slots: seq<nat>, n: nat)
    requires |slots| == SLOTS
    ensures forall i | 0 <= i < SLOTS ::
              Returns(slots, n)[i] == if i + n < SLOTS then slots[i + n] else slots[SLOTS - 1]
  {
    if n > 0 {
      FullNeverDrains(slots, n - 1);
      var before := Returns(slots, n - 1);
      forall i | 0 <= i < SLOTS ensures Returns(slots, n)[i] == before[if i + 1 < SLOTS then i + 1 else i] {
      }
    }
  }
}
