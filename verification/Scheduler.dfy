/** The thread table, the processors that pick from it, and the end of a process.

    A pass goes once round the table from the slot after the current one, up to but not including it
    (the source wraps inside the body and skips its own exit test). Vacant slots are passed over, as
    are threads whose target time has not come, and picking sets `taken` (the source tests the clock
    after it has picked, the wrong way round, and never sets `taken`). The thread table's lock makes
    a pass one step.

    As written, a pass kills the thread in a slot whose process has SIGKILL even while another
    processor runs it, timed_out leaves `taken` set, and help_out does not count what it runs, so that a
    processor that was handed a thread is handed the next one too. */
module Scheduler {
  import opened PageTypes

  datatype Thread = Vacant | Thread(parent: nat, taken: bool, wake: nat)

  /** torn counts how often the process was torn down. */
  datatype Process = Process(killed: bool, workers: int, torn: nat)

  /** running: between run_thread and the next entry into the scheduler. */
  datatype Processor = Processor(current: Option<nat>, running: bool, executed: nat, online: bool)

  datatype State = State(threads: seq<Thread>, procs: seq<Process>, cpus: seq<Processor>)

  // ----- one pass -----

  /** TKILL, and PKILL when that was the last worker. */
  function Kill(st: State, i: nat): (r: State)
    requires i < |st.threads|
    ensures |r.threads| == |st.threads| && |r.procs| == |st.procs| && r.cpus == st.cpus
  {
    if st.threads[i].Vacant? || st.threads[i].parent >= |st.procs| then st
    else
      var q := st.threads[i].parent;
      var left := st.procs[q].workers - 1;
      st.(threads := st.threads[i := Vacant],
          procs := st.procs[q := st.procs[q].(workers := left, torn := st.procs[q].torn + if left == 0 then 1 else 0)])
  }

  predicate Doomed(st: State, i: nat) {
    i < |st.threads| && st.threads[i].Thread? && st.threads[i].parent < |st.procs|
        && st.procs[st.threads[i].parent].killed
  }

  /** A thread the scheduler may pick. */
  predicate Runnable(st: State, i: nat, now: nat) {
    i < |st.threads| && st.threads[i].Thread? && !st.threads[i].taken && st.threads[i].wake <= now && !Doomed(st, i)
  }

  function After(i: nat, n: nat): nat {
    if i + 1 < n then i + 1 else 0
  }

  /** `left` slots from i on: the doomed are killed, the first that may run is the answer. */
  function Sweep(st: State, i: nat, left: nat, now: nat): (r: (State, Option<nat>))
    requires left > 0 ==> i < |st.threads|
    ensures |r.0.threads| == |st.threads| && |r.0.procs| == |st.procs| && r.0.cpus == st.cpus
    decreases left
  {
    if left == 0 then (st, None)
    else if Doomed(st, i) then Sweep(Kill(st, i), After(i, |st.threads|), left - 1, now)
    else if Runnable(st, i, now) then (st, Some(i))
    else Sweep(st, After(i, |st.threads|), left - 1, now)
  }

  /** How far t lies after i, going round. */
  function Dist(i: nat, t: nat, n: nat): int {
    if t >= i then t - i else t + n - i
  }

  function PassStart(current: Option<nat>, n: nat): nat {
    match current
    case Some(c) => After(c, n)
    case None => 0
  }

  function PassLength(current: Option<nat>, n: nat): nat {
    if current.Some? && current.value < n then n - 1 else n
  }

  /** `getnext_thread` for processor p: the table after the pass, with the picked thread taken. */
  function GetNext(st: State, p: nat, now: nat): (r: (State, Option<nat>))
    requires p < |st.cpus|
    ensures |r.0.threads| == |st.threads| && |r.0.procs| == |st.procs| && r.0.cpus == st.cpus
  {
    var (swept, r) := Sweep(st, PassStart(st.cpus[p].current, |st.threads|),
        PassLength(st.cpus[p].current, |st.threads|), now);
    match r
    case Some(i) => if i < |swept.threads| then (Taken(swept, i, true), r) else (swept, r)
    case None => (swept, r)
  }

  function Taken(st: State, i: nat, taken: bool): (r: State)
    requires i < |st.threads|
    ensures |r.threads| == |st.threads| && r.procs == st.procs && r.cpus == st.cpus
  {
    if st.threads[i].Vacant? then st else st.(threads := st.threads[i := st.threads[i].(taken := taken)])
  }

  /** A pass kills only doomed threads, each by its own process, and answers a thread that may run. */
  lemma {:induction false} SweepKillsDoomed(st: State, i: nat, left: nat, now: nat)
    requires left > 0 ==> i < |st.threads|
    ensures var (st', r) := Sweep(st, i, left, now);
            && (forall j | 0 <= j < |st.threads| ::
                  st'.threads[j] == st.threads[j] || (st'.threads[j].Vacant? && Doomed(st, j)))
            && (forall q | 0 <= q < |st.procs| :: st'.procs[q].killed == st.procs[q].killed)
            && (r.Some? ==> Runnable(st, r.value, now) && Runnable(st', r.value, now))
    decreases left
  {
    if left > 0 {
      if Doomed(st, i) {
        SweepKillsDoomed(Kill(st, i), After(i, |st.threads|), left - 1, now);
      } else if !Runnable(st, i, now) {
        SweepKillsDoomed(st, After(i, |st.threads|), left - 1, now);
      }
    }
  }

  /** No thread that may run is passed over: the answer lies no further round than any of them. */
  lemma {:induction false} SweepMissesNone(st: State, i: nat, left: nat, now: nat, t: nat)
    requires i < |st.threads| && left <= |st.threads| && Runnable(st, t, now) && Dist(i, t, |st.threads|) < left
    ensures var r := Sweep(st, i, left, now).1;
            r.Some? && r.value < |st.threads| && Dist(i, r.value, |st.threads|) <= Dist(i, t, |st.threads|)
    decreases left
  {
    if t != i {
      var n := |st.threads|;
      if Doomed(st, i) {
        assert Runnable(Kill(st, i), t, now);
        SweepMissesNone(Kill(st, i), After(i, n), left - 1, now, t);
      } else if !Runnable(st, i, now) {
        SweepMissesNone(st, After(i, n), left - 1, now, t);
      }
    }
  }

  /** The slot is among the `length` from start on, before every thread that may run. */
  ghost predicate Reached(st: State, start: nat, length: nat, now: nat, j: nat) {
    && j < |st.threads| && Dist(start, j, |st.threads|) < length
    && forall t: nat | Runnable(st, t, now) && Dist(start, t, |st.threads|) < length ::
         Dist(start, j, |st.threads|) < Dist(start, t, |st.threads|)
  }

  /** Exactly the doomed threads in slots reached before the answer are killed. */
  lemma {:induction false} SweepKillsReached(st: State, i: nat, left: nat, now: nat, j: nat)
    requires left <= |st.threads| && i < |st.threads| && j < |st.threads| && st.threads[j].Thread?
    ensures Sweep(st, i, left, now).0.threads[j]
            == if Doomed(st, j) && Reached(st, i, left, now, j) then Vacant else st.threads[j]
    decreases left
  {
    if left > 0 && !Runnable(st, i, now) {
      var n, next := |st.threads|, if Doomed(st, i) then Kill(st, i) else st;
      OneOn(st, next, i, left, now, j);
      if Doomed(st, i) && j == i {
        StaysVacant(next, After(i, n), left - 1, now, j);
      } else {
        SweepKillsReached(next, After(i, n), left - 1, now, j);
      }
    }
  }

  /** Passing over slot i leaves the rest to be reached as before. */
  lemma OneOn(st: State, next: State, i: nat, left: nat, now: nat, j: nat)
    requires 0 < left <= |st.threads| && i < |st.threads| && j < |st.threads| && !Runnable(st, i, now)
    requires next == if Doomed(st, i) then Kill(st, i) else st
    ensures j != i ==> (Reached(st, i, left, now, j) <==> Reached(next, After(i, |st.threads|), left - 1, now, j))
    ensures Reached(st, i, left, now, i)
    ensures j != i ==> next.threads[j] == st.threads[j] && (Doomed(next, j) <==> Doomed(st, j))
  {
    var n, on := |st.threads|, After(i, |st.threads|);
    if j != i {
      assert Dist(i, j, n) == Dist(on, j, n) + 1;
      if Reached(st, i, left, now, j) {
        forall t: nat | Runnable(next, t, now) && Dist(on, t, n) < left - 1 ensures Dist(on, j, n) < Dist(on, t, n) {
          assert Runnable(st, t, now) && t != i && Dist(i, t, n) == Dist(on, t, n) + 1;
        }
        assert Reached(next, on, left - 1, now, j);
      }
      if Reached(next, on, left - 1, now, j) {
        forall t: nat | Runnable(st, t, now) && Dist(i, t, n) < left ensures Dist(i, j, n) < Dist(i, t, n) {
          assert Runnable(next, t, now) && t != i && Dist(i, t, n) == Dist(on, t, n) + 1;
        }
        assert Reached(st, i, left, now, j);
      }
    }
  }

  lemma {:induction false} StaysVacant(st: State, i: nat, left: nat, now: nat, j: nat)
    requires (left > 0 ==> i < |st.threads|) && j < |st.threads| && st.threads[j].Vacant?
    ensures Sweep(st, i, left, now).0.threads[j].Vacant?
    decreases left
  {
    if left > 0 {
      if Doomed(st, i) {
        StaysVacant(Kill(st, i), After(i, |st.threads|), left - 1, now, j);
      } else if !Runnable(st, i, now) {
        StaysVacant(st, After(i, |st.threads|), left - 1, now, j);
      }
    }
  }

  // ----- the steps -----

  datatype Step =
    | Pick(p: nat, now: nat)
    | Help(p: nat, now: nat)
    | Sysret(p: nat)
    | TimedOut(p: nat)
    | Sleep(p: nat, until: nat)
    | Spawn(p: nat)
    | Exec
    | Signal(q: nat)

  function FirstVacant(threads: seq<Thread>, from: nat): (r: Option<nat>)
    requires from <= |threads|
    ensures r.Some? ==> from <= r.value < |threads| && threads[r.value].Vacant?
    decreases |threads| - from
  {
    if from == |threads| then None else if threads[from].Vacant? then Some(from) else FirstVacant(threads, from + 1)
  }

  /** The processor that is handed a thread: the first that has executed none and is online. */
  function Brother(cpus: seq<Processor>, from: nat): (r: Option<nat>)
    requires from <= |cpus|
    ensures r.Some? ==> from <= r.value < |cpus| && cpus[r.value].executed == 0 && cpus[r.value].online
    decreases |cpus| - from
  {
    if from == |cpus| then None
    else if cpus[from].executed == 0 && cpus[from].online then Some(from) else Brother(cpus, from + 1)
  }

  function WithThread(st: State, i: nat, t: Thread): State
    requires i < |st.threads|
  {
    st.(threads := st.threads[i := t])
  }

  function WithCpu(st: State, p: nat, cpu: Processor): State
    requires p < |st.cpus|
  {
    st.(cpus := st.cpus[p := cpu])
  }

  /** p runs the thread in slot i. */
  predicate Runs(st: State, p: int, i: int) {
    0 <= p < |st.cpus| && st.cpus[p].running && st.cpus[p].current.Some? && st.cpus[p].current.value == i
  }

  predicate InThread(st: State, p: nat) {
    p < |st.cpus| && st.cpus[p].running && st.cpus[p].current.Some? && st.cpus[p].current.value < |st.threads|
  }

  function Next(st: State, step: Step): State {
    match step
    case Pick(p, now) =>
      if p < |st.cpus| && !st.cpus[p].running then
        var (st', r) := GetNext(st, p, now);
        WithCpu(st', p, st.cpus[p].(current := r, running := r.Some?, executed := st.cpus[p].executed + 1))
      else st
    case Help(p, now) =>
      if InThread(st, p) && Brother(st.cpus, 0).Some? then
        var (st', r) := GetNext(st, p, now);
        var b := Brother(st.cpus, 0).value;
        if b == p then st' else WithCpu(st', b, st.cpus[b].(current := r, running := r.Some?))
      else st
    case Sysret(p) =>
      if InThread(st, p) then
        WithCpu(Taken(st, st.cpus[p].current.value, false), p, st.cpus[p].(running := false))
      else st
    case TimedOut(p) =>
      if InThread(st, p) then WithCpu(st, p, st.cpus[p].(running := false)) else st
    case Sleep(p, until) =>
      if InThread(st, p) && st.threads[st.cpus[p].current.value].Thread? then
        WithThread(st, st.cpus[p].current.value, st.threads[st.cpus[p].current.value].(wake := until)) else st
    case Spawn(p) =>
      if InThread(st, p) && st.threads[st.cpus[p].current.value].Thread? && FirstVacant(st.threads, 0).Some? then
        var t := st.threads[st.cpus[p].current.value];
        if t.parent < |st.procs| then
          WithThread(st, FirstVacant(st.threads, 0).value, t.(taken := false)).(
            procs := st.procs[t.parent := st.procs[t.parent].(workers := st.procs[t.parent].workers + 1)])
        else st
      else st
    case Exec =>
      if FirstVacant(st.threads, 0).Some? then
        WithThread(st, FirstVacant(st.threads, 0).value, Thread(|st.procs|, false, 0))
        .(procs := st.procs + [Process(false, 1, 0)])
      else st
    case Signal(q) => if q < |st.procs| then st.(procs := st.procs[q := st.procs[q].(killed := true)]) else st
  }

  function Run(st: State, steps: seq<Step>): State
    decreases |steps|
  {
    if steps == [] then st else Run(Next(st, steps[0]), steps[1..])
  }

  // ----- each thread on one processor -----

  /** Every running processor runs a thread that is there and taken, no two the same. */
  ghost predicate Safe(st: State) {
    && (forall p, i | Runs(st, p, i) :: 0 <= i < |st.threads| && st.threads[i].Thread? && st.threads[i].taken)
    && (forall p, q, i | Runs(st, p, i) && Runs(st, q, i) :: p == q)
  }

  /** The pass of processor p comes to slot j before it has its answer. */
  ghost predicate PassReaches(st: State, p: nat, now: nat, j: nat)
    requires p < |st.cpus|
  {
    Reached(st, PassStart(st.cpus[p].current, |st.threads|), PassLength(st.cpus[p].current, |st.threads|), now, j)
  }

  /** No processor runs a thread whose process was sent SIGKILL in a slot that the pass of the step comes
      to. In a hand-over the brother stops running what it ran. */
  ghost predicate Spares(st: State, step: Step) {
    match step
    case Pick(p, now) =>
      p < |st.cpus| && !st.cpus[p].running ==>
        forall q, j: nat | Runs(st, q, j) && Doomed(st, j) :: !PassReaches(st, p, now, j)
    case Help(p, now) =>
      InThread(st, p) && Brother(st.cpus, 0).Some? ==>
        forall q, j: nat | Runs(st, q, j) && Doomed(st, j) && (q == p || q != Brother(st.cpus, 0).value) ::
          !PassReaches(st, p, now, j)
    case _ => true
  }

  /** What processors go on running is there after the step. */
  ghost predicate Survives(st: State, step: Step) {
    var st' := Next(st, step);
    forall p, i | Runs(st, p, i) && Runs(st', p, i) && 0 <= i < |st'.threads| :: st'.threads[i].Thread?
  }

  /** A running thread is gone after a pass exactly when it was doomed in a slot the pass came to. */
  lemma RunningKilled(st: State, p: nat, now: nat, q: int, j: nat)
    requires Safe(st) && p < |st.cpus| && Runs(st, q, j)
    ensures j < |st.threads| && st.threads[j].Thread?
    ensures GetNext(st, p, now).0.threads[j].Vacant? <==> Doomed(st, j) && PassReaches(st, p, now, j)
  {
    GetNextTakes(st, p, now);
    SweepKillsReached(st, PassStart(st.cpus[p].current, |st.threads|),
        PassLength(st.cpus[p].current, |st.threads|), now, j);
  }

  lemma PickSurvives(st: State, p: nat, now: nat)
    requires Safe(st)
    ensures Spares(st, Pick(p, now)) <==> Survives(st, Pick(p, now))
  {
    if p < |st.cpus| && !st.cpus[p].running {
      var st' := Next(st, Pick(p, now));
      forall q, j: nat | Runs(st, q, j)
        ensures Runs(st', q, j) && (st'.threads[j].Thread? <==> !(Doomed(st, j) && PassReaches(st, p, now, j)))
      {
        RunningKilled(st, p, now, q, j);
      }
    }
  }

  lemma HelpSurvives(st: State, p: nat, now: nat)
    requires Safe(st)
    ensures Spares(st, Help(p, now)) <==> Survives(st, Help(p, now))
  {
    if InThread(st, p) && Brother(st.cpus, 0).Some? {
      var st', b := Next(st, Help(p, now)), Brother(st.cpus, 0).value;
      GetNextTakes(st, p, now);
      forall q, j: nat | Runs(st, q, j)
        ensures j < |st.threads| && (st'.threads[j].Thread? <==> !(Doomed(st, j) && PassReaches(st, p, now, j)))
        ensures Runs(st', q, j) <==> q == p || q != b
      {
        RunningKilled(st, p, now, q, j);
      }
    }
  }

  lemma GetNextTakes(st: State, p: nat, now: nat)
    requires p < |st.cpus|
    ensures var (st', r) := GetNext(st, p, now);
            && (forall j | 0 <= j < |st.threads| && r != Some(j) ::
                  st'.threads[j] == st.threads[j] || (st'.threads[j].Vacant? && Doomed(st, j)))
            && (forall q | 0 <= q < |st.procs| :: st'.procs[q].killed == st.procs[q].killed)
            && (r.Some? ==> Runnable(st, r.value, now) && st'.threads[r.value] == st.threads[r.value].(taken := true))
  {
    SweepKillsDoomed(st, PassStart(st.cpus[p].current, |st.threads|),
        PassLength(st.cpus[p].current, |st.threads|), now);
  }

  lemma PickSafe(st: State, p: nat, now: nat)
    requires Safe(st)
    ensures Safe(Next(st, Pick(p, now))) <==> Survives(st, Pick(p, now))
  {
    if p < |st.cpus| && !st.cpus[p].running {
      GetNextTakes(st, p, now);
      var st', r := Next(st, Pick(p, now)), GetNext(st, p, now).1;
      assert forall q, i | Runs(st', q, i) && q != p :: Runs(st, q, i);
    } else {
      assert Next(st, Pick(p, now)) == st;
    }
  }

  lemma HelpSafe(st: State, p: nat, now: nat)
    requires Safe(st)
    ensures Safe(Next(st, Help(p, now))) <==> Survives(st, Help(p, now))
  {
    if InThread(st, p) && Brother(st.cpus, 0).Some? {
      GetNextTakes(st, p, now);
      var st', r := Next(st, Help(p, now)), GetNext(st, p, now).1;
      var b := Brother(st.cpus, 0).value;
      var k: int := if r.Some? then r.value else -1;
      forall q, i | Runs(st', q, i)
        ensures (b != p && q == b && i == k) || ((q != b || b == p) && Runs(st, q, i) && i != k)
      {
        if q != b || b == p {
          assert Runs(st, q, i);
        }
      }
      forall q, i | Runs(st', q, i) && 0 <= i < |st.threads| && st'.threads[i].Thread? ensures st'.threads[i].taken {
      }
    } else {
      assert Next(st, Help(p, now)) == st;
    }
  }

  lemma OwnThreadSafe(st: State, p: nat, step: Step)
    requires Safe(st) && (step == Sysret(p) || step == TimedOut(p) || (step.Sleep? && step.p == p))
    ensures Safe(Next(st, step))
  {
    var st' := Next(st, step);
    if InThread(st, p) {
      assert Runs(st, p, st.cpus[p].current.value);
    }
    assert forall q, i | Runs(st', q, i) :: Runs(st, q, i);
  }

  lemma NewThreadSafe(st: State, step: Step)
    requires Safe(st) && (step.Spawn? || step.Exec? || step.Signal?)
    ensures Safe(Next(st, step))
  {
    assert forall q, i :: Runs(Next(st, step), q, i) <==> Runs(st, q, i);
  }

  /** Each thread stays on at most one processor, hand-over included, over exactly the steps whose pass
      comes to no running thread of a process with SIGKILL. */
  lemma NextSafe(st: State, step: Step)
    requires Safe(st)
    ensures Safe(Next(st, step)) <==> Spares(st, step)
  {
    match step
    case Pick(p, now) =>
      PickSafe(st, p, now);
      PickSurvives(st, p, now);
    case Help(p, now) =>
      HelpSafe(st, p, now);
      HelpSurvives(st, p, now);
    case Sysret(p) => OwnThreadSafe(st, p, step);
    case TimedOut(p) => OwnThreadSafe(st, p, step);
    case Sleep(p, _) => OwnThreadSafe(st, p, step);
    case _ => NewThreadSafe(st, step);
  }

  /** No processor runs a thread of a process with SIGKILL: then no pass at all does harm. */
  ghost predicate Calm(st: State) {
    forall p, j: nat | Runs(st, p, j) :: !Doomed(st, j)
  }

  lemma CalmSpares(st: State, step: Step)
    requires Calm(st)
    ensures Spares(st, step)
  {
  }

  ghost predicate AlwaysCalm(st: State, steps: seq<Step>)
    decreases |steps|
  {
    steps == [] || (Calm(st) && AlwaysCalm(Next(st, steps[0]), steps[1..]))
  }

  /** Every run is safe in which SIGKILL reaches only processes none of whose threads is running. */
  lemma {:induction false} CalmRunSafe(st: State, steps: seq<Step>)
    requires Safe(st) && AlwaysCalm(st, steps)
    ensures Safe(Run(st, steps))
    decreases |steps|
  {
    if steps != [] {
      CalmSpares(st, steps[0]);
      NextSafe(st, steps[0]);
      CalmRunSafe(Next(st, steps[0]), steps[1..]);
    }
  }

  /** Every step of the run spares. */
  ghost predicate Sparing(st: State, steps: seq<Step>)
    decreases |steps|
  {
    steps == [] || (Spares(st, steps[0]) && Sparing(Next(st, steps[0]), steps[1..]))
  }

  /** Over whole runs: some processor comes to run a thread another runs, or one that is gone, only
      after a running thread was killed. */
  lemma {:induction false} RunSafe(st: State, steps: seq<Step>)
    requires Safe(st) && Sparing(st, steps)
    ensures Safe(Run(st, steps))
    decreases |steps|
  {
    if steps != [] {
      NextSafe(st, steps[0]);
      RunSafe(Next(st, steps[0]), steps[1..]);
    }
  }

  /** Three processors, two slots. Processor 0 runs the only thread of a process that has been sent
      SIGKILL, processor 1 the thread of another, processor 2 is about to pick. */
  function Killed(): State {
    State([Thread(0, true, 0), Thread(1, true, 0)], [Process(true, 1, 0), Process(false, 1, 0)],
          [Processor(Some(0), true, 1, true), Processor(Some(1), true, 1, true), Processor(None, false, 1, true)])
  }

  /** A pass kills the running thread, its slot goes to a new one, and the next pass picks that:
      processors 0 and 2 are on one thread. */
  lemma KillingRunningBreaks()
    ensures Safe(Killed())
    ensures var st := Run(Killed(), [Pick(2, 0), Spawn(1), Pick(2, 0)]); Runs(st, 0, 0) && Runs(st, 2, 0)
  {
    var st0 := Killed();
    assert forall p, i | Runs(st0, p, i) :: (p == 0 && i == 0) || (p == 1 && i == 1);
    var vacated := Kill(st0, 0);
    assert Sweep(vacated, 0, 0, 0) == (vacated, None);
    assert Sweep(vacated, 1, 1, 0) == (vacated, None);
    assert Sweep(st0, 0, 2, 0) == (vacated, None);
    var st1 := Next(st0, Pick(2, 0));
    assert st1.threads == [Vacant, Thread(1, true, 0)];
    var st2 := Next(st1, Spawn(1));
    assert st2.threads == [Thread(1, false, 0), Thread(1, true, 0)];
    assert Runnable(st2, 0, 0) && Sweep(st2, 0, 2, 0) == (st2, Some(0));
    var st3 := Next(st2, Pick(2, 0));
    assert [Pick(2, 0), Spawn(1), Pick(2, 0)][1..] == [Spawn(1), Pick(2, 0)]
        && [Spawn(1), Pick(2, 0)][1..] == [Pick(2, 0)];
    assert [Pick(2, 0)][1..] == [];
  }

  // ----- fairness -----

  /** In how many picks at the latest a processor comes to slot t. */
  function Rank(current: Option<nat>, t: nat, n: nat): int {
    match current
    case Some(c) => if c == t || c >= n then n + 1 else Dist(After(c, n), t, n) + 1
    case None => t + 1
  }

  /** A pick that does not take a thread that may run comes nearer to it. */
  lemma PickComesNearer(st: State, p: nat, now: nat, t: nat)
    requires p < |st.cpus| && Runnable(st, t, now)
             && (st.cpus[p].current.Some? ==> st.cpus[p].current.value < |st.threads|)
    ensures var (st', r) := GetNext(st, p, now);
            && (r.Some? ==> r.value < |st.threads|)
            && (r != Some(t) ==>
                  0 < Rank(r, t, |st.threads|) < Rank(st.cpus[p].current, t, |st.threads|) <= |st.threads| + 1)
  {
    var n, current := |st.threads|, st.cpus[p].current;
    SweepKillsDoomed(st, PassStart(current, n), PassLength(current, n), now);
    if current != Some(t) {
      SweepMissesNone(st, PassStart(current, n), PassLength(current, n), now, t);
    }
  }

  /** Whether step is a pick by p that happens. */
  predicate Picks(st: State, step: Step, p: nat) {
    step.Pick? && step.p == p && p < |st.cpus| && !st.cpus[p].running
  }

  /** At every pick of p, t may run and is not the one picked. */
  ghost predicate PassedOver(st: State, steps: seq<Step>, p: nat, t: nat)
    decreases |steps|
  {
    steps == [] || (
      && (Picks(st, steps[0], p) ==> Runnable(st, t, steps[0].now) && GetNext(st, p, steps[0].now).1 != Some(t))
      && PassedOver(Next(st, steps[0]), steps[1..], p, t))
  }

  function PickCount(st: State, steps: seq<Step>, p: nat): nat
    decreases |steps|
  {
    if steps == [] then 0 else (if Picks(st, steps[0], p) then 1 else 0) + PickCount(Next(st, steps[0]), steps[1..], p)
  }

  /** Fairness: whatever the other processors do, a processor that has started picks at most once for
      each slot before it picks a thread that could run at every one of its picks. */
  lemma {:induction false} PickedWithinOnePass(st: State, steps: seq<Step>, p: nat, t: nat)
    requires p < |st.cpus| && st.cpus[p].executed > 0 && PassedOver(st, steps, p, t)
    requires st.cpus[p].current.Some? ==> st.cpus[p].current.value < |st.threads|
    requires t < |st.threads|
    ensures PickCount(st, steps, p) < Rank(st.cpus[p].current, t, |st.threads|) <= |st.threads| + 1
    decreases |steps|
  {
    if steps != [] {
      var st' := Next(st, steps[0]);
      if Picks(st, steps[0], p) {
        PickComesNearer(st, p, steps[0].now, t);
      }
      PickedWithinOnePass(st', steps[1..], p, t);
    }
  }

  // ----- as written: a thread whose time ran out -----

  /** Taken, though no processor runs it. */
  ghost predicate Stranded(st: State, t: nat) {
    t < |st.threads| && st.threads[t].Thread? && st.threads[t].taken && forall p :: !Runs(st, p, t)
  }

  lemma TimedOutStrands(st: State, p: nat)
    requires Safe(st) && InThread(st, p)
    ensures Stranded(Next(st, TimedOut(p)), st.cpus[p].current.value)
  {
    var t := st.cpus[p].current.value;
    assert Runs(st, p, t);
    var st' := Next(st, TimedOut(p));
    assert forall q | Runs(st', q, t) :: Runs(st, q, t) && q != p;
  }

  /** Taken by nobody that runs it, or gone. */
  ghost predicate StrandedOrGone(st: State, t: nat) {
    t < |st.threads| && (st.threads[t].Vacant? || Stranded(st, t))
  }

  lemma HelpStrands(st: State, p: nat, now: nat, t: nat)
    requires Stranded(st, t)
    ensures StrandedOrGone(Next(st, Help(p, now)), t)
  {
    var st' := Next(st, Help(p, now));
    if InThread(st, p) && Brother(st.cpus, 0).Some? {
      GetNextTakes(st, p, now);
      var b := Brother(st.cpus, 0).value;
      assert GetNext(st, p, now).1 != Some(t);
      assert forall q | Runs(st', q, t) && q != b :: Runs(st, q, t);
      assert !Runs(st, b, t) && !Runs(st', b, t);
    }
  }

  lemma PickStrands(st: State, p: nat, now: nat, t: nat)
    requires Stranded(st, t)
    ensures StrandedOrGone(Next(st, Pick(p, now)), t)
  {
    if p < |st.cpus| && !st.cpus[p].running {
      GetNextTakes(st, p, now);
      assert forall q | Runs(Next(st, Pick(p, now)), q, t) && q != p :: Runs(st, q, t);
    }
  }

  lemma StrandedStays(st: State, step: Step, t: nat)
    requires Stranded(st, t)
    ensures StrandedOrGone(Next(st, step), t)
    ensures forall now :: !Runnable(st, t, now)
  {
    var st' := Next(st, step);
    match step
    case Pick(p, now) => PickStrands(st, p, now, t);
    case Help(p, now) => HelpStrands(st, p, now, t);
    case _ =>
      assert forall q | Runs(st', q, t) :: Runs(st, q, t);
      assert forall p: nat | InThread(st, p) && st.cpus[p].current == Some(t) :: Runs(st, p, t);
  }

  /** The thread is in its slot after every step. */
  ghost predicate Stays(st: State, steps: seq<Step>, t: nat)
    decreases |steps|
  {
    t < |st.threads| && st.threads[t].Thread? && (steps == [] || Stays(Next(st, steps[0]), steps[1..], t))
  }

  /** A thread that was timed out never runs again in any run that does not kill it. */
  lemma {:induction false} StrandedForever(st: State, steps: seq<Step>, t: nat)
    requires Stranded(st, t) && Stays(st, steps, t)
    ensures Stranded(Run(st, steps), t)
    decreases |steps|
  {
    if steps != [] {
      StrandedStays(st, steps[0], t);
      StrandedForever(Next(st, steps[0]), steps[1..], t);
    }
  }

  // ----- which steps lose a thread -----

  /** Every taken thread is run by a processor. */
  ghost predicate NoneLost(st: State) {
    forall i: nat | i < |st.threads| && st.threads[i].Thread? && st.threads[i].taken :: exists p :: Runs(st, p, i)
  }

  /** No thread that may run lies in the range of the pass. */
  ghost predicate FindsNone(st: State, p: nat, now: nat)
    requires p < |st.cpus|
  {
    forall t: nat | Runnable(st, t, now) ::
      Dist(PassStart(st.cpus[p].current, |st.threads|), t, |st.threads|)
      >= PassLength(st.cpus[p].current, |st.threads|)
  }

  /** The step times nobody out. A hand-over to the processor itself, that goes on with its own thread,
      finds none; one to a processor that runs a thread kills that, which its current thread replaces. */
  ghost predicate LosesNone(st: State, step: Step) {
    match step
    case TimedOut(p) => !InThread(st, p)
    case Help(p, now) =>
      InThread(st, p) && Brother(st.cpus, 0).Some? ==>
        if Brother(st.cpus, 0).value == p then FindsNone(st, p, now)
        else forall j: nat | Runs(st, Brother(st.cpus, 0).value, j) :: Doomed(st, j) && PassReaches(st, p, now, j)
    case _ => true
  }

  lemma {:induction false} SweepAnswersInRange(st: State, i: nat, left: nat, now: nat)
    requires i < |st.threads| && left <= |st.threads|
    ensures var r := Sweep(st, i, left, now).1; r.Some? ==> Dist(i, r.value, |st.threads|) < left
    decreases left
  {
    if left > 0 && !Runnable(st, i, now) {
      var n, next := |st.threads|, if Doomed(st, i) then Kill(st, i) else st;
      SweepAnswersInRange(next, After(i, n), left - 1, now);
      SweepKillsDoomed(next, After(i, n), left - 1, now);
    }
  }

  lemma FindsNoneIs(st: State, p: nat, now: nat)
    requires p < |st.cpus|
    ensures GetNext(st, p, now).1.None? <==> FindsNone(st, p, now)
  {
    var n, start, length := |st.threads|, PassStart(st.cpus[p].current, |st.threads|),
        PassLength(st.cpus[p].current, |st.threads|);
    SweepKillsDoomed(st, start, length, now);
    if n > 0 {
      SweepAnswersInRange(st, start, length, now);
      forall t: nat | Runnable(st, t, now) && Dist(start, t, n) < length
        ensures Sweep(st, start, length, now).1.Some?
      {
        SweepMissesNone(st, start, length, now, t);
      }
    }
  }

  /** The new thread is the processor's own, so a pick loses none. */
  lemma PickLosesNone(st: State, p: nat, now: nat)
    requires Safe(st) && NoneLost(st)
    ensures NoneLost(Next(st, Pick(p, now)))
  {
    if p < |st.cpus| && !st.cpus[p].running {
      GetNextTakes(st, p, now);
      var st', r := Next(st, Pick(p, now)), GetNext(st, p, now).1;
      assert r.Some? ==> Runs(st', p, r.value);
      forall i: nat | i < |st'.threads| && st'.threads[i].Thread? && st'.threads[i].taken && r != Some(i)
        ensures exists q :: Runs(st', q, i)
      {
        assert st.threads[i] == st'.threads[i];
        var q :| Runs(st, q, i);
        assert Runs(st', q, i);
      }
    }
  }

  /** A processor that hands over to itself: what the pass found is taken, and the processor goes on
      with the thread it had. */
  lemma SelfHelpLoses(st: State, p: nat, now: nat)
    requires Safe(st) && NoneLost(st) && InThread(st, p) && Brother(st.cpus, 0) == Some(p)
    ensures var (st', r) := (Next(st, Help(p, now)), GetNext(st, p, now).1);
            (r.Some? ==> Stranded(st', r.value)) && (r.None? ==> NoneLost(st'))
  {
    GetNextTakes(st, p, now);
    var st', r := Next(st, Help(p, now)), GetNext(st, p, now).1;
    assert forall q, i :: Runs(st', q, i) <==> Runs(st, q, i);
    if r.None? {
      forall i: nat | i < |st'.threads| && st'.threads[i].Thread? && st'.threads[i].taken
        ensures exists q :: Runs(st', q, i)
      {
        assert st.threads[i] == st'.threads[i];
      }
    }
  }

  /** A hand-over to another processor replaces what that ran: it is lost unless it was killed. */
  lemma HandOverLoses(st: State, p: nat, now: nat, j: nat)
    requires Safe(st) && InThread(st, p) && Brother(st.cpus, 0).Some?
    requires Brother(st.cpus, 0).value != p && Runs(st, Brother(st.cpus, 0).value, j)
    ensures j < |st.threads|
    ensures Stranded(Next(st, Help(p, now)), j) <==> !(Doomed(st, j) && PassReaches(st, p, now, j))
  {
    var st', b := Next(st, Help(p, now)), Brother(st.cpus, 0).value;
    GetNextTakes(st, p, now);
    RunningKilled(st, p, now, b, j);
    assert forall q | Runs(st', q, j) && q != b :: Runs(st, q, j);
    assert forall q :: !Runs(st', q, j);
  }

  /** And nothing else is lost by it. */
  lemma HandOverKeeps(st: State, p: nat, now: nat, i: nat)
    requires Safe(st) && NoneLost(st) && InThread(st, p) && Brother(st.cpus, 0).Some?
    requires Brother(st.cpus, 0).value != p && !Runs(st, Brother(st.cpus, 0).value, i)
    ensures !Stranded(Next(st, Help(p, now)), i)
  {
    var st', b, r := Next(st, Help(p, now)), Brother(st.cpus, 0).value, GetNext(st, p, now).1;
    GetNextTakes(st, p, now);
    if r == Some(i) {
      assert Runs(st', b, i);
    } else if i < |st'.threads| && st'.threads[i].Thread? && st'.threads[i].taken {
      assert st.threads[i] == st'.threads[i];
      var q :| Runs(st, q, i);
      assert Runs(st', q, i);
    }
  }

  lemma HelpLosesNone(st: State, p: nat, now: nat)
    requires Safe(st) && NoneLost(st)
    ensures NoneLost(Next(st, Help(p, now))) <==> LosesNone(st, Help(p, now))
  {
    if InThread(st, p) && Brother(st.cpus, 0).Some? {
      var st', b := Next(st, Help(p, now)), Brother(st.cpus, 0).value;
      LostIsStranded(st');
      if b == p {
        SelfHelpLoses(st, p, now);
        FindsNoneIs(st, p, now);
      } else {
        forall i: nat ensures Runs(st, b, i) ==>
            (Stranded(st', i) <==> !(Doomed(st, i) && PassReaches(st, p, now, i)))
          ensures !Runs(st, b, i) ==> !Stranded(st', i)
        {
          if Runs(st, b, i) {
            HandOverLoses(st, p, now, i);
          } else {
            HandOverKeeps(st, p, now, i);
          }
        }
      }
    }
  }

  lemma LostIsStranded(st: State)
    ensures NoneLost(st) <==> forall i: nat :: !Stranded(st, i)
  {
    if !NoneLost(st) {
      var i: nat :| i < |st.threads| && st.threads[i].Thread? && st.threads[i].taken && forall p :: !Runs(st, p, i);
      assert Stranded(st, i);
    }
  }

  lemma OthersLoseNone(st: State, step: Step)
    requires Safe(st) && NoneLost(st) && (step.Sysret? || step.Sleep? || step.Spawn? || step.Exec? || step.Signal?)
    ensures NoneLost(Next(st, step))
  {
    var st' := Next(st, step);
    if step.Sysret? && InThread(st, step.p) {
      assert Runs(st, step.p, st.cpus[step.p].current.value);
    }
    forall i: nat | i < |st'.threads| && st'.threads[i].Thread? && st'.threads[i].taken
      ensures exists q :: Runs(st', q, i)
    {
      assert st.threads[i].Thread? && st.threads[i].taken;
      var q :| Runs(st, q, i);
      assert Runs(st', q, i);
    }
  }

  /** A taken thread stays with a processor over exactly the steps described. */
  lemma NextLosesNone(st: State, step: Step)
    requires Safe(st) && NoneLost(st)
    ensures NoneLost(Next(st, step)) <==> LosesNone(st, step)
  {
    match step
    case Pick(p, now) => PickLosesNone(st, p, now);
    case Help(p, now) => HelpLosesNone(st, p, now);
    case TimedOut(p) =>
      LostIsStranded(Next(st, step));
      if InThread(st, p) {
        TimedOutStrands(st, p);
      }
    case _ => OthersLoseNone(st, step);
  }

  /** Every step of the run spares what runs and loses none. */
  ghost predicate Careful(st: State, steps: seq<Step>)
    decreases |steps|
  {
    steps == [] || (Spares(st, steps[0]) && LosesNone(st, steps[0]) && Careful(Next(st, steps[0]), steps[1..]))
  }

  /** Over whole runs of such steps every thread that is taken is run, by one processor alone. */
  lemma {:induction false} RunLosesNone(st: State, steps: seq<Step>)
    requires Safe(st) && NoneLost(st) && Careful(st, steps)
    ensures Safe(Run(st, steps)) && NoneLost(Run(st, steps))
    decreases |steps|
  {
    if steps != [] {
      NextSafe(st, steps[0]);
      NextLosesNone(st, steps[0]);
      RunLosesNone(Next(st, steps[0]), steps[1..]);
    }
  }

  /** A processor in a thread, one that has never picked, and two threads more. */
  function Struggling(): State {
    State([Thread(0, true, 0), Thread(0, false, 0), Thread(0, false, 0)], [Process(false, 3, 0)],
          [Processor(Some(0), true, 1, true), Processor(None, false, 0, true)])
  }

  /** The second hand-over goes to the same processor, because running what it was handed does not
      count: the first thread handed over is lost. */
  lemma SecondHelpLoses()
    ensures Safe(Struggling()) && NoneLost(Struggling())
    ensures Stranded(Run(Struggling(), [Help(0, 0), Help(0, 0)]), 1)
  {
    var st0 := Struggling();
    assert forall p, i | Runs(st0, p, i) :: p == 0 && i == 0;
    assert Runs(st0, 0, 0);
    assert Brother(st0.cpus, 0) == Brother(st0.cpus, 1) == Some(1);
    assert Runnable(st0, 1, 0) && Sweep(st0, 1, 2, 0) == (st0, Some(1));
    var st1 := Next(st0, Help(0, 0));
    assert st1.cpus[1] == Processor(Some(1), true, 0, true) && st1.cpus[0] == st0.cpus[0];
    assert Brother(st1.cpus, 0) == Brother(st1.cpus, 1) == Some(1);
    NextSafe(st0, Help(0, 0));
    HandOverLoses(st1, 0, 0, 1);
    assert !Doomed(st1, 1);
    var st2 := Next(st1, Help(0, 0));
    assert [Help(0, 0), Help(0, 0)][1..] == [Help(0, 0)] && [Help(0, 0)][1..] == [];
    assert Run(st1, [Help(0, 0)]) == Run(st2, []) == st2;
  }

  // ----- the end of a process -----

  function Workers(threads: seq<Thread>, q: nat): nat {
    if threads == [] then 0
    else Workers(threads[..|threads| - 1], q) + if Of(threads[|threads| - 1], q) then 1 else 0
  }

  predicate Of(t: Thread, q: nat) {
    t.Thread? && t.parent == q
  }

  lemma {:induction false} WorkersUpdate(threads: seq<Thread>, i: nat, t: Thread, q: nat)
    requires i < |threads|
    ensures Workers(threads[i := t], q)
            == Workers(threads, q) - (if Of(threads[i], q) then 1 else 0) + (if Of(t, q) then 1 else 0)
  {
    var last := |threads| - 1;
    if i < last {
      assert threads[i := t][..last] == threads[..last][i := t];
      WorkersUpdate(threads[..last], i, t, q);
    } else {
      assert threads[i := t][..last] == threads[..last];
    }
  }

  /** Process q counts its live threads, and has been torn down once if it has none left, and
      otherwise never. */
  ghost predicate Accounted(st: State, q: nat)
    requires q < |st.procs|
  {
    st.procs[q].workers == Workers(st.threads, q) && st.procs[q].torn == if Workers(st.threads, q) == 0 then 1 else 0
  }

  ghost predicate AllAccounted(st: State) {
    && (forall q | 0 <= q < |st.procs| :: Accounted(st, q))
    && (forall i | 0 <= i < |st.threads| && st.threads[i].Thread? :: st.threads[i].parent < |st.procs|)
  }

  lemma {:induction false} NoWorkers(threads: seq<Thread>, q: nat)
    ensures Workers(threads, q) > 0 <==> exists i :: 0 <= i < |threads| && Of(threads[i], q)
  {
    if threads != [] {
      NoWorkers(threads[..|threads| - 1], q);
      assert Of(threads[|threads| - 1], q)
          || forall i | 0 <= i < |threads| - 1 :: threads[i] == threads[..|threads| - 1][i];
    }
  }

  lemma KillAccounted(st: State, i: nat)
    requires AllAccounted(st) && i < |st.threads|
    ensures AllAccounted(Kill(st, i))
  {
    if st.threads[i].Thread? {
      forall q | 0 <= q < |st.procs| ensures Accounted(Kill(st, i), q) {
        assert Accounted(st, q);
        WorkersUpdate(st.threads, i, Vacant, q);
        NoWorkers(st.threads, q);
      }
    }
  }

  lemma {:induction false} SweepAccounted(st: State, i: nat, left: nat, now: nat)
    requires AllAccounted(st) && (left > 0 ==> i < |st.threads|)
    ensures AllAccounted(Sweep(st, i, left, now).0)
    decreases left
  {
    if left > 0 {
      if Doomed(st, i) {
        KillAccounted(st, i);
        SweepAccounted(Kill(st, i), After(i, |st.threads|), left - 1, now);
      } else if !Runnable(st, i, now) {
        SweepAccounted(st, After(i, |st.threads|), left - 1, now);
      }
    }
  }

  /** Another thread of the same process in the slot, or a change to nothing counted. */
  lemma SameParentAccounted(st: State, i: nat, t: Thread)
    requires AllAccounted(st) && i < |st.threads| && t.Thread? && st.threads[i].Thread?
             && t.parent == st.threads[i].parent
    ensures AllAccounted(WithThread(st, i, t))
  {
    forall q | 0 <= q < |st.procs| ensures Accounted(WithThread(st, i, t), q) {
      assert Accounted(st, q);
      WorkersUpdate(st.threads, i, t, q);
    }
  }

  lemma TakenAccounted(st: State, i: nat, taken: bool)
    requires AllAccounted(st) && i < |st.threads|
    ensures AllAccounted(Taken(st, i, taken))
  {
    if st.threads[i].Thread? {
      SameParentAccounted(st, i, st.threads[i].(taken := taken));
    }
  }

  lemma GetNextAccounted(st: State, p: nat, now: nat)
    requires AllAccounted(st) && p < |st.cpus|
    ensures AllAccounted(GetNext(st, p, now).0)
  {
    var start, length := PassStart(st.cpus[p].current, |st.threads|), PassLength(st.cpus[p].current, |st.threads|);
    SweepAccounted(st, start, length, now);
    var (swept, r) := Sweep(st, start, length, now);
    if r.Some? && r.value < |swept.threads| {
      TakenAccounted(swept, r.value, true);
    }
  }

  lemma SpawnAccounted(st: State, p: nat)
    requires AllAccounted(st)
    ensures AllAccounted(Next(st, Spawn(p)))
  {
    var st' := Next(st, Spawn(p));
    if st' != st {
      var i, t := FirstVacant(st.threads, 0).value, st.threads[st.cpus[p].current.value];
      forall q | 0 <= q < |st.procs| ensures Accounted(st', q) {
        assert Accounted(st, q);
        WorkersUpdate(st.threads, i, t.(taken := false), q);
        NoWorkers(st.threads, t.parent);
      }
    }
  }

  lemma ExecAccounted(st: State)
    requires AllAccounted(st)
    ensures AllAccounted(Next(st, Exec))
  {
    var st' := Next(st, Exec);
    if st' != st {
      var i := FirstVacant(st.threads, 0).value;
      NoWorkers(st.threads, |st.procs|);
      forall q | 0 <= q < |st'.procs| ensures Accounted(st', q) {
        if q < |st.procs| {
          assert Accounted(st, q);
        }
        WorkersUpdate(st.threads, i, Thread(|st.procs|, false, 0), q);
      }
    }
  }

  /** Neither the processors nor the signals are counted. */
  lemma OnlyCountsMatter(st: State, st': State)
    requires AllAccounted(st) && st'.threads == st.threads && |st'.procs| == |st.procs|
    requires forall q | 0 <= q < |st.procs| ::
               st'.procs[q].workers == st.procs[q].workers && st'.procs[q].torn == st.procs[q].torn
    ensures AllAccounted(st')
  {
    forall q | 0 <= q < |st.procs| ensures Accounted(st', q) {
      assert Accounted(st, q);
    }
  }

  lemma NextAccounted(st: State, step: Step)
    requires AllAccounted(st)
    ensures AllAccounted(Next(st, step))
  {
    match step
    case Pick(p, now) =>
      if p < |st.cpus| && !st.cpus[p].running {
        GetNextAccounted(st, p, now);
        OnlyCountsMatter(GetNext(st, p, now).0, Next(st, step));
      }
    case Help(p, now) =>
      if InThread(st, p) && Brother(st.cpus, 0).Some? {
        GetNextAccounted(st, p, now);
        OnlyCountsMatter(GetNext(st, p, now).0, Next(st, step));
      }
    case Sysret(p) =>
      if InThread(st, p) {
        TakenAccounted(st, st.cpus[p].current.value, false);
        OnlyCountsMatter(Taken(st, st.cpus[p].current.value, false), Next(st, step));
      }
    case TimedOut(_) => OnlyCountsMatter(st, Next(st, step));
    case Sleep(p, until) =>
      if InThread(st, p) && st.threads[st.cpus[p].current.value].Thread? {
        SameParentAccounted(st, st.cpus[p].current.value, st.threads[st.cpus[p].current.value].(wake := until));
      }
    case Spawn(p) => SpawnAccounted(st, p);
    case Exec => ExecAccounted(st);
    case Signal(_) => OnlyCountsMatter(st, Next(st, step));
  }

  lemma {:induction false} RunAccounted(st: State, steps: seq<Step>)
    requires AllAccounted(st)
    ensures AllAccounted(Run(st, steps))
    decreases |steps|
  {
    if steps != [] {
      NextAccounted(st, steps[0]);
      RunAccounted(Next(st, steps[0]), steps[1..]);
    }
  }

  /** In every run from an empty table, even one that kills running threads: a process has been torn
      down once if it has no thread left, and never if it has one. */
  lemma TornDownOnce(st: State, steps: seq<Step>, q: nat)
    requires st.procs == [] && forall i | 0 <= i < |st.threads| :: st.threads[i].Vacant?
    ensures var st' := Run(st, steps);
            q < |st'.procs| ==>
              && st'.procs[q].torn <= 1
              && (st'.procs[q].torn == 0 <==> exists i :: 0 <= i < |st'.threads| && Of(st'.threads[i], q))
  {
    RunAccounted(st, steps);
    var st' := Run(st, steps);
    if q < |st'.procs| {
      assert Accounted(st', q);
      NoWorkers(st'.threads, q);
    }
  }

  // ----- the scheduler -----

  class ThreadsKing {
    var threads: seq<Thread>
    var procs: seq<Process>
    var cpus: seq<Processor>

    function St(): State
      reads this
    {
      State(threads, procs, cpus)
    }

    /** `TKILL` of the thread in slot i, with `PKILL` of its process after its last. */
    method Tkill(i: nat)
      requires i < |threads|
      modifies this`threads, this`procs
      ensures St() == Kill(old(St()), i)
    {
      match threads[i]
      case Vacant =>
      case Thread(q, _, _) =>
        if q < |procs| {
          threads := threads[i := Vacant];
          procs := procs[q := procs[q].(workers := procs[q].workers - 1)];
          if procs[q].workers == 0 {
            procs := procs[q := procs[q].(torn := procs[q].torn + 1)];
          }
        }
    }

    /** `getnext_thread`. */
    method GetNextThread(p: nat, now: nat) returns (r: Option<nat>)
      requires p < |cpus|
      modifies this`threads, this`procs
      ensures (St(), r) == GetNext(old(St()), p, now)
    {
      var i: nat := PassStart(cpus[p].current, |threads|);
      var left: nat := PassLength(cpus[p].current, |threads|);
      ghost var all := Sweep(St(), i, left, now);
      while left > 0
        invariant left > 0 ==> i < |threads|
        invariant Sweep(St(), i, left, now) == all && |threads| == |old(threads)| && cpus == old(cpus)
        decreases left
      {
        if threads[i].Thread? {
          if threads[i].parent < |procs| && procs[threads[i].parent].killed {
            Tkill(i);
          } else if !threads[i].taken && threads[i].wake <= now {
            threads := threads[i := threads[i].(taken := true)];
            return Some(i);
          }
        }
        i := After(i, |threads|);
        left := left - 1;
      }
      r := None;
    }

    /** The part of `routine` and run_thread that picks. */
    method Routine(p: nat, now: nat)
      requires p < |cpus| && !cpus[p].running
      modifies this
      ensures St() == Next(old(St()), Pick(p, now))
    {
      var r := GetNextThread(p, now);
      cpus := cpus[p := cpus[p].(current := r, running := r.Some?, executed := cpus[p].executed + 1)];
    }

    /** `get_some_help`: the first processor that has executed nothing is handed what a pass of this
        one finds. */
    method GetSomeHelp(p: nat, now: nat)
      requires InThread(St(), p)
      modifies this
      ensures St() == Next(old(St()), Help(p, now))
    {
      var i := 0;
      while i < |cpus|
        invariant i <= |cpus| && Brother(cpus, i) == Brother(cpus, 0) && St() == old(St())
      {
        if cpus[i].executed == 0 && cpus[i].online {
          var r := GetNextThread(p, now);
          if i != p {
            cpus := cpus[i := cpus[i].(current := r, running := r.Some?)];
          }
          return;
        }
        i := i + 1;
      }
    }

    /** `sysret` of an application's thread. */
    method SysretApplication(p: nat)
      requires InThread(St(), p)
      modifies this
      ensures St() == Next(old(St()), Sysret(p))
    {
      var c := cpus[p].current.value;
      if threads[c].Thread? {
        threads := threads[c := threads[c].(taken := false)];
      }
      cpus := cpus[p := cpus[p].(running := false)];
    }
  }
}
