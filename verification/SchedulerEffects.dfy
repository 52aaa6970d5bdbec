/** What each step of the scheduler does to threads, processes and processors, and when a thread may run
    afterwards. */
module SchedulerEffects {
  import opened PageTypes
  import opened Scheduler

  ghost predicate OtherThreadsStay(st: State, st': State, i: nat) {
    |st'.threads| == |st.threads| && forall j | 0 <= j < |st.threads| && j != i :: st'.threads[j] == st.threads[j]
  }

  ghost predicate OtherCpusStay(st: State, st': State, p: nat) {
    |st'.cpus| == |st.cpus| && forall q | 0 <= q < |st.cpus| && q != p :: st'.cpus[q] == st.cpus[q]
  }

  // ----- giving a thread up -----

  /** A thread given up keeps its process and its target time, and may run again once that has come. */
  lemma SysretReleases(st: State, p: nat)
    requires Safe(st) && InThread(st, p)
    ensures var (st', t) := (Next(st, Sysret(p)), st.cpus[p].current.value);
            && OtherThreadsStay(st, st', t) && OtherCpusStay(st, st', p) && st'.procs == st.procs
            && st'.threads[t].Thread? && st'.threads[t].parent == st.threads[t].parent
            && st'.threads[t].wake == st.threads[t].wake
            && (forall q, i :: Runs(st', q, i) <==> Runs(st, q, i) && q != p)
            && forall now: nat :: Runnable(st', t, now) <==> st.threads[t].wake <= now && !Doomed(st, t)
  {
    var t := st.cpus[p].current.value;
    assert Runs(st, p, t);
  }

  /** A thread that goes to sleep and is given up may run from its target time on and not before. */
  lemma SleeperWakes(st: State, p: nat, until: nat)
    requires Safe(st) && InThread(st, p)
    ensures var (st', t) := (Next(Next(st, Sleep(p, until)), Sysret(p)), st.cpus[p].current.value);
            && OtherThreadsStay(st, st', t) && OtherCpusStay(st, st', p) && st'.procs == st.procs
            && forall now: nat :: Runnable(st', t, now) <==> until <= now && !Doomed(st, t)
  {
    assert Runs(st, p, st.cpus[p].current.value);
  }

  /** A thread that only goes to sleep runs on. */
  lemma SleeperRunsOn(st: State, p: nat, until: nat)
    ensures var st' := Next(st, Sleep(p, until));
            st'.cpus == st.cpus && st'.procs == st.procs && forall q, i :: Runs(st', q, i) <==> Runs(st, q, i)
  {
  }

  /** Being timed out stops the processor and touches no thread. */
  lemma TimeoutStops(st: State, p: nat)
    requires InThread(st, p)
    ensures var st' := Next(st, TimedOut(p));
            && st'.threads == st.threads && st'.procs == st.procs && OtherCpusStay(st, st', p)
            && forall q, i :: Runs(st', q, i) <==> Runs(st, q, i) && q != p
  {
  }

  // ----- new threads and processes -----

  lemma {:induction false} VacantIsFirst(threads: seq<Thread>, from: nat)
    requires from <= |threads|
    ensures var r := FirstVacant(threads, from);
            && (r.None? <==> forall i | from <= i < |threads| :: threads[i].Thread?)
            && (r.Some? ==> forall i | from <= i < r.value :: threads[i].Thread?)
    decreases |threads| - from
  {
    if from < |threads| {
      VacantIsFirst(threads, from + 1);
    }
  }

  /** The first vacant slot, if there is one. */
  ghost predicate IsFirstVacant(threads: seq<Thread>, i: nat) {
    i < |threads| && threads[i].Vacant? && forall j | 0 <= j < i :: threads[j].Thread?
  }

  /** A thread that spawns gets a brother in the first vacant slot, counted by its process and ready to run;
      without a vacant slot nothing changes. */
  lemma SpawnStarts(st: State, p: nat)
    requires Safe(st) && InThread(st, p)
    requires st.threads[st.cpus[p].current.value].Thread? ==> st.threads[st.cpus[p].current.value].parent < |st.procs|
    ensures st.threads[st.cpus[p].current.value].Thread?
    ensures var (st', t) := (Next(st, Spawn(p)), st.threads[st.cpus[p].current.value]);
            && st'.cpus == st.cpus
            && ((forall i | 0 <= i < |st.threads| :: st.threads[i].Thread?) ==> st' == st)
            && forall i: nat | IsFirstVacant(st.threads, i) ::
                 && OtherThreadsStay(st, st', i) && st'.threads[i] == Thread(t.parent, false, t.wake)
                 && st'.procs == st.procs[t.parent := st.procs[t.parent].(workers := st.procs[t.parent].workers + 1)]
                 && forall now: nat :: Runnable(st', i, now) <==> t.wake <= now && !st.procs[t.parent].killed
  {
    VacantIsFirst(st.threads, 0);
    assert Runs(st, p, st.cpus[p].current.value);
  }

  /** exec makes a process with one thread, ready to run at once. */
  lemma ExecStarts(st: State)
    ensures var st' := Next(st, Exec);
            && st'.cpus == st.cpus
            && ((forall i | 0 <= i < |st.threads| :: st.threads[i].Thread?) ==> st' == st)
            && forall i: nat | IsFirstVacant(st.threads, i) ::
                 && OtherThreadsStay(st, st', i) && st'.procs == st.procs + [Process(false, 1, 0)]
                 && Of(st'.threads[i], |st.procs|) && forall now: nat :: Runnable(st', i, now)
  {
    VacantIsFirst(st.threads, 0);
  }

  // ----- signals -----

  /** SIGKILL dooms the threads of the process and no others, and stops none of them. */
  lemma SignalDooms(st: State, q: nat)
    requires q < |st.procs|
    ensures var st' := Next(st, Signal(q));
            && st'.threads == st.threads && st'.cpus == st.cpus && |st'.procs| == |st.procs|
            && (forall i: nat :: Doomed(st', i) <==> Doomed(st, i) || (i < |st.threads| && Of(st.threads[i], q)))
            && forall r | 0 <= r < |st.procs| ::
                 st'.procs[r].workers == st.procs[r].workers && st'.procs[r].torn == st.procs[r].torn
  {
  }

  // ----- picking and handing over -----

  /** The pass of p finds t: it may run, and lies no further round than any other that may. */
  ghost predicate Nearest(st: State, p: nat, now: nat, t: nat)
    requires p < |st.cpus|
  {
    var start, n := PassStart(st.cpus[p].current, |st.threads|), |st.threads|;
    && Runnable(st, t, now) && Dist(start, t, n) < PassLength(st.cpus[p].current, n)
    && forall i: nat | Runnable(st, i, now) :: Dist(start, t, n) <= Dist(start, i, n)
  }

  /** What a pass leaves: the nearest thread taken, the doomed ones before it gone, the rest as it was. */
  ghost predicate Passed(st: State, st': State, p: nat, now: nat)
    requires p < |st.cpus|
  {
    && |st'.threads| == |st.threads|
    && forall i: nat | i < |st.threads| && st.threads[i].Thread? ::
         st'.threads[i] == if Doomed(st, i) && PassReaches(st, p, now, i) then Vacant
                           else if Nearest(st, p, now, i) then st.threads[i].(taken := true)
                           else st.threads[i]
  }

  lemma FoundIsNearest(st: State, p: nat, now: nat)
    requires p < |st.cpus|
    ensures var r := GetNext(st, p, now).1;
            && (r.None? <==> FindsNone(st, p, now))
            && (r.Some? ==> Nearest(st, p, now, r.value) && forall t: nat :: Nearest(st, p, now, t) ==> t == r.value)
  {
    FindsNoneIs(st, p, now);
    var n, start, length := |st.threads|, PassStart(st.cpus[p].current, |st.threads|),
        PassLength(st.cpus[p].current, |st.threads|);
    var r := GetNext(st, p, now).1;
    if r.Some? {
      SweepKillsDoomed(st, start, length, now);
      SweepAnswersInRange(st, start, length, now);
      forall i: nat | Runnable(st, i, now) ensures Dist(start, r.value, n) <= Dist(start, i, n) {
        if Dist(start, i, n) < length {
          SweepMissesNone(st, start, length, now, i);
        }
      }
    }
  }

  lemma PassLeaves(st: State, p: nat, now: nat)
    requires p < |st.cpus|
    ensures Passed(st, GetNext(st, p, now).0, p, now)
  {
    var (st', r) := GetNext(st, p, now);
    FoundIsNearest(st, p, now);
    GetNextTakes(st, p, now);
    forall i: nat | i < |st.threads| && st.threads[i].Thread?
      ensures st'.threads[i] == if Doomed(st, i) && PassReaches(st, p, now, i) then Vacant
                                else if Nearest(st, p, now, i) then st.threads[i].(taken := true)
                                else st.threads[i]
    {
      SweepKillsReached(st, PassStart(st.cpus[p].current, |st.threads|),
          PassLength(st.cpus[p].current, |st.threads|), now, i);
    }
  }

  /** A processor that picks runs the nearest thread that may, and idles exactly when there is none. */
  lemma PickRunsNearest(st: State, p: nat, now: nat)
    requires p < |st.cpus| && !st.cpus[p].running
    ensures var st' := Next(st, Pick(p, now));
            && Passed(st, st', p, now) && OtherCpusStay(st, st', p)
            && st'.cpus[p].executed == st.cpus[p].executed + 1
            && (st'.cpus[p].running <==> !FindsNone(st, p, now))
            && forall t: nat :: Runs(st', p, t) <==> Nearest(st, p, now, t)
  {
    FoundIsNearest(st, p, now);
    PassLeaves(st, p, now);
  }

  lemma {:induction false} BrotherIsFirst(cpus: seq<Processor>, from: nat)
    requires from <= |cpus|
    ensures var r := Brother(cpus, from);
            && (r.None? <==> forall b | from <= b < |cpus| :: !(cpus[b].executed == 0 && cpus[b].online))
            && (r.Some? ==> forall b | from <= b < r.value :: !(cpus[b].executed == 0 && cpus[b].online))
    decreases |cpus| - from
  {
    if from < |cpus| {
      BrotherIsFirst(cpus, from + 1);
    }
  }

  /** The first processor online that has executed nothing. */
  ghost predicate IsBrother(st: State, b: nat) {
    && b < |st.cpus| && st.cpus[b].executed == 0 && st.cpus[b].online
    && forall i | 0 <= i < b :: !(st.cpus[i].executed == 0 && st.cpus[i].online)
  }

  /** A processor that asks for help has the first brother run what its own pass finds, and goes on itself. */
  lemma HelpHandsOver(st: State, p: nat, now: nat, b: nat)
    requires InThread(st, p) && IsBrother(st, b) && b != p
    ensures var st' := Next(st, Help(p, now));
            && Passed(st, st', p, now) && OtherCpusStay(st, st', b)
            && (st'.cpus[b].running <==> !FindsNone(st, p, now))
            && forall t: nat :: Runs(st', b, t) <==> Nearest(st, p, now, t)
  {
    BrotherIsFirst(st.cpus, 0);
    FoundIsNearest(st, p, now);
    PassLeaves(st, p, now);
  }

  /** Without one nothing changes. */
  lemma NobodyHelps(st: State, p: nat, now: nat)
    requires forall b: nat :: !IsBrother(st, b)
    ensures Next(st, Help(p, now)) == st
  {
    BrotherIsFirst(st.cpus, 0);
    var b := Brother(st.cpus, 0);
    assert b.Some? ==> IsBrother(st, b.value);
  }
}
