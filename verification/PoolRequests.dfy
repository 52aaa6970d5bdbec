/** The pool under its lock, seen by its callers: every operation leaves as what it was begun as, with the
    lengths asked for, and after so many steps of its processor it does leave. */
module PoolRequests {
  import opened PageTypes
  import opened Bitmap
  import opened PoolLock
  import Pool

  /** What a caller asks: a run, a section back, or a section back for a run. */
  datatype Request =
    | Wants(n: nat)
    | Returns(first: nat, length: nat)
    | Swaps(first: nat, length: nat, n: nat)

  /** The pool, what each processor's caller waits for, and the requests answered so far. */
  datatype Watched = Watched(st: State, asked: seq<Option<Request>>, answered: seq<Request>)

  /** The request is let in: its processor is idle, the lock it takes is free, its section is live. */
  predicate LetIn(st: State, step: Step) {
    && step.p < |st.pcs| && st.pcs[step.p].Idle?
    && match step
      case BeginAlloc(_, n) => !st.calendar && n > 0
      case BeginFree(_, id) => id in st.live && !(st.freeLocks && st.calendar)
      case BeginRealloc(_, id, n) => id in st.live && !st.calendar && n > 0
      case Work(_) => false
  }

  function AskedBy(st: State, step: Step): Request
    requires LetIn(st, step)
  {
    match step
    case BeginAlloc(_, n) => Wants(n)
    case BeginFree(_, id) => Returns(st.live[id].0, st.live[id].1)
    case BeginRealloc(_, id, n) => Swaps(st.live[id].0, st.live[id].1, n)
  }

  /** The processor works on an operation that is done. */
  predicate Finishes(st: State, step: Step) {
    step.Work? && step.p < |st.pcs| && st.pcs[step.p].Leaving?
  }

  ghost function Watch(m: Watched, step: Step): Watched {
    var st := Next(m.st, step);
    if step.p >= |m.asked| then m.(st := st)
    else if LetIn(m.st, step) then m.(st := st, asked := m.asked[step.p := Some(AskedBy(m.st, step))])
    else if Finishes(m.st, step) && m.asked[step.p].Some? then
      Watched(st, m.asked[step.p := None], m.answered + [m.asked[step.p].value])
    else m.(st := st)
  }

  ghost function WatchRun(m: Watched, steps: seq<Step>): Watched
    decreases |steps|
  {
    if steps == [] then m else WatchRun(Watch(m, steps[0]), steps[1..])
  }

  /** The event is the request carried out, with whatever run was found. */
  predicate Answers(ask: Request, ev: Event) {
    match ask
    case Wants(n) => ev.Alloc? && ev.n == n
    case Returns(first, length) => ev == Free(first, length)
    case Swaps(first, length, n) => ev.Realloc? && ev.first == first && ev.length == length && ev.n == n
  }

  function RequestOf(was: Was, n: nat): Request {
    match was
    case None => Wants(n)
    case Some((first, length)) => Swaps(first, length, n)
  }

  /** At each point of an operation it is still the one asked for. */
  ghost predicate Tracks(pc: PC, asked: Option<Request>) {
    match pc
    case Idle => asked.None?
    case Scanning(was, n, _, _) => asked == Some(RequestOf(was, n))
    case Marking(was, n, _, _) => asked == Some(RequestOf(was, n))
    case Clearing(next, first, n, _) =>
      asked == Some(if next.Some? then Swaps(first, n, next.value) else Returns(first, n))
    case Leaving(ev) => asked.Some? && Answers(asked.value, ev)
  }

  ghost predicate Faithful(m: Watched) {
    && |m.asked| == |m.st.pcs| && (forall p | 0 <= p < |m.asked| :: Tracks(m.st.pcs[p], m.asked[p]))
    && |m.answered| == |m.st.log| && forall i | 0 <= i < |m.answered| :: Answers(m.answered[i], m.st.log[i])
  }

  lemma AdvanceTracks(st: State, p: nat, asked: Option<Request>)
    requires p < |st.pcs| && !st.pcs[p].Leaving? && Tracks(st.pcs[p], asked)
    ensures Advance(st, p).log == st.log && |Advance(st, p).pcs| == |st.pcs|
    ensures forall q | 0 <= q < |st.pcs| && q != p :: Advance(st, p).pcs[q] == st.pcs[q]
    ensures Tracks(Advance(st, p).pcs[p], asked)
  {
    match st.pcs[p]
    case Idle =>
    case Scanning(_, _, _, _) =>
    case Marking(_, _, _, _) =>
    case Clearing(_, _, _, _) =>
  }

  lemma WatchIsFaithful(m: Watched, step: Step)
    requires Faithful(m)
    ensures Faithful(Watch(m, step))
  {
    var p := step.p;
    if p < |m.asked| {
      if step.Work? && !m.st.pcs[p].Leaving? {
        AdvanceTracks(m.st, p, m.asked[p]);
      } else if Finishes(m.st, step) {
        FinishIsFaithful(m, p);
      } else {
        BeginIsFaithful(m, step);
      }
    }
  }

  lemma FinishIsFaithful(m: Watched, p: nat)
    requires Faithful(m) && p < |m.asked| && m.st.pcs[p].Leaving?
    ensures Faithful(Watch(m, Work(p)))
  {
  }

  lemma BeginIsFaithful(m: Watched, step: Step)
    requires Faithful(m) && step.p < |m.asked| && !step.Work?
    ensures Faithful(Watch(m, step))
  {
  }

  /** Over every run the operations finished are the requests answered, one for one and in order: the kind
      of each, the section it gave back and the length it wanted. */
  lemma {:induction false} RunAnswersRequests(m: Watched, steps: seq<Step>)
    requires Faithful(m) || (Init(m.st) && m.answered == [] && m.asked == Pool.Fill(None, |m.st.pcs|))
    ensures Faithful(WatchRun(m, steps))
    decreases |steps|
  {
    if steps != [] {
      WatchIsFaithful(m, steps[0]);
      RunAnswersRequests(Watch(m, steps[0]), steps[1..]);
    }
  }

  /** A request that is let in is under way afterwards, its section no longer live and no other touched. */
  lemma LetInBegins(m: Watched, step: Step)
    requires Faithful(m) && LetIn(m.st, step)
    ensures var st' := Next(m.st, step);
            && !st'.pcs[step.p].Idle? && Watch(m, step).asked[step.p] == Some(AskedBy(m.st, step))
            && st'.live == (if step.BeginAlloc? then m.st.live else m.st.live - {step.id})
            && st'.ck == m.st.ck && st'.log == m.st.log
  {
  }

  /** When it is done, the run it found is live under a new number, with exactly the length asked for; with
      none found, and after a free, no section comes up. No other live section changes. */
  lemma FinishMakesLive(m: Watched, p: nat)
    requires Safe(m.st) && Faithful(m) && Finishes(m.st, Work(p))
    ensures var (st', ask, ev) := (Next(m.st, Work(p)), m.asked[p].value, m.st.pcs[p].ev);
            && st'.pcs[p].Idle? && st'.log == m.st.log + [ev] && Answers(ask, ev)
            && m.st.nextId !in m.st.live
            && (if ask.Returns? || ev.result.None? then st'.live == m.st.live
                else st'.live == m.st.live[m.st.nextId := (ev.result.value, ask.n)])
  {
    assert Local(m.st, p);
    assert forall id | id in m.st.live :: id < m.st.nextId;
  }

  // ----- every operation leaves -----

  /** How many steps of its processor an operation needs at most. */
  function Left(st: State, p: nat): nat
    requires p < |st.pcs|
  {
    match st.pcs[p]
    case Idle => 0
    case Leaving(_) => 1
    case Marking(_, n, _, k) => (if k < n then n - k else 0) + 2
    case Scanning(_, n, i, _) => (if i < |st.ck| then |st.ck| - i else 0) + n + 3
    case Clearing(next, _, n, k) => (if k < n then n - k else 0) + (if next.Some? then |st.ck| + next.value + 4 else 2)
  }

  lemma ScanComesNearer(st: State, p: nat)
    requires Safe(st) && p < |st.pcs| && st.pcs[p].Scanning?
    ensures p < |Advance(st, p).pcs| && Left(Advance(st, p), p) < Left(st, p)
  {
    assert Local(st, p);
  }

  lemma MarkComesNearer(st: State, p: nat)
    requires Safe(st) && p < |st.pcs| && st.pcs[p].Marking?
    ensures p < |Advance(st, p).pcs| && Left(Advance(st, p), p) < Left(st, p)
  {
    assert Local(st, p);
  }

  lemma ClearComesNearer(st: State, p: nat)
    requires Safe(st) && p < |st.pcs| && st.pcs[p].Clearing?
    ensures p < |Advance(st, p).pcs| && Left(Advance(st, p), p) < Left(st, p)
  {
    assert Local(st, p);
  }

  lemma WorkComesNearer(st: State, p: nat)
    requires Safe(st) && p < |st.pcs| && !st.pcs[p].Idle?
    ensures p < |Advance(st, p).pcs| && Left(Advance(st, p), p) < Left(st, p)
  {
    match st.pcs[p]
    case Scanning(_, _, _, _) => ScanComesNearer(st, p);
    case Marking(_, _, _, _) => MarkComesNearer(st, p);
    case Clearing(_, _, _, _) => ClearComesNearer(st, p);
    case Leaving(_) =>
  }

  lemma OthersDoNotDelay(st: State, step: Step, p: nat)
    requires Safe(st) && p < |st.pcs| && step.p != p
    ensures |Next(st, step).pcs| == |st.pcs| && Left(Next(st, step), p) == Left(st, p)
  {
    if step.p < |st.pcs| && step.Work? {
      OthersWork(st, step.p, p);
    }
  }

  lemma OthersWork(st: State, q: nat, p: nat)
    requires Safe(st) && p < |st.pcs| && q < |st.pcs| && q != p
    ensures |Advance(st, q).pcs| == |st.pcs| && Left(Advance(st, q), p) == Left(st, p)
  {
    if st.pcs[q].Scanning? && (st.pcs[p].Scanning? || (st.pcs[p].Clearing? && st.pcs[p].next.Some?)) {
      assert Inside(st, q) && Inside(st, p);
    } else {
      match st.pcs[q]
      case Idle =>
      case Scanning(_, _, _, _) =>
      case Marking(_, _, _, _) =>
      case Clearing(_, _, _, _) =>
      case Leaving(_) =>
    }
  }

  ghost predicate NeverIdle(st: State, steps: seq<Step>, p: nat)
    decreases |steps|
  {
    p < |st.pcs| && !st.pcs[p].Idle? && (steps == [] || NeverIdle(Next(st, steps[0]), steps[1..], p))
  }

  function WorkCount(steps: seq<Step>, p: nat): nat {
    if steps == [] then 0 else (if steps[0] == Work(p) then 1 else 0) + WorkCount(steps[1..], p)
  }

  lemma BusyBeginsNothing(st: State, step: Step)
    requires step.p < |st.pcs| && !st.pcs[step.p].Idle? && !step.Work?
    ensures Next(st, step) == st
  {
  }

  /** In every run, whatever the other processors do, an operation is done before its processor has worked
      more often than that. */
  lemma {:induction false} OperationsEnd(st: State, steps: seq<Step>, p: nat)
    requires Safe(st) && NeverIdle(st, steps, p)
    ensures WorkCount(steps, p) < Left(st, p)
    decreases |steps|
  {
    if steps != [] {
      var step := steps[0];
      NextIsSafe(st, step);
      OperationsEnd(Next(st, step), steps[1..], p);
      if step.p != p {
        OthersDoNotDelay(st, step, p);
      } else if step.Work? {
        WorkComesNearer(st, p);
      } else {
        BusyBeginsNothing(st, step);
      }
    }
  }

  // ----- what is set is somebody's -----

  /** A slot with a claim belongs to a section that is live, or to an operation that is still at it. */
  ghost predicate ClaimHeld(st: State, j: nat)
    requires j < |st.claims|
  {
    match st.claims[j]
    case Nobody => true
    case Of(id) => id in st.live && st.live[id].0 <= j < st.live[id].0 + st.live[id].1
    case Taking(p) => TakerAt(st, p, j)
    case Giving(p) =>
      p < |st.pcs| && st.pcs[p].Clearing? && st.pcs[p].first + st.pcs[p].k <= j < st.pcs[p].first + st.pcs[p].n
  }

  ghost predicate AllHeld(st: State) {
    forall j: nat | j < |st.claims| :: ClaimHeld(st, j)
  }

  /** Slots that p does not have in hand are held as before, and so are those it keeps. */
  lemma HeldStays(st: State, st': State, p: nat)
    requires AllHeld(st) && p < |st.pcs| == |st'.pcs| && |st.claims| <= |st'.claims|
    requires forall q | 0 <= q < |st.pcs| && q != p :: st'.pcs[q] == st.pcs[q]
    requires forall j: nat | j < |st'.claims| && (j >= |st.claims| || st'.claims[j] != st.claims[j]
               || st.claims[j] == Taking(p) || st.claims[j] == Giving(p)) :: ClaimHeld(st', j)
    requires forall id | id in st.live && id !in st'.live ::
               forall j: nat | j < |st'.claims| :: st'.claims[j] != Of(id)
    requires forall id | id in st.live && id in st'.live :: st'.live[id] == st.live[id]
    ensures AllHeld(st')
  {
    forall j: nat | j < |st'.claims| ensures ClaimHeld(st', j) {
      if j < |st.claims| && st'.claims[j] == st.claims[j] {
        assert ClaimHeld(st, j);
      }
    }
  }

  /** A processor that is idle or scans has no slot in hand. */
  lemma NoneInHand(st: State, p: nat)
    requires AllHeld(st) && p < |st.pcs| && (st.pcs[p].Idle? || st.pcs[p].Scanning?)
    ensures forall j: nat | j < |st.claims| :: st.claims[j] != Taking(p) && st.claims[j] != Giving(p)
  {
    forall j: nat | j < |st.claims| ensures st.claims[j] != Taking(p) && st.claims[j] != Giving(p) {
      assert ClaimHeld(st, j);
    }
  }

  lemma GrowHeld(st: State, p: nat)
    requires Safe(st) && AllHeld(st) && p < |st.pcs| && st.pcs[p].Scanning? && st.pcs[p].i >= |st.ck| && st.grow
    ensures AllHeld(Advance(st, p))
  {
    NoneInHand(st, p);
    HeldStays(st, Advance(st, p), p);
  }

  lemma TakeHeld(st: State, p: nat, pc: PC)
    requires AllHeld(st) && p < |st.pcs| && st.pcs[p].Scanning? && pc.Marking?
    requires forall j | 0 <= j < |st.claims| && pc.first <= j < pc.first + pc.n :: st.claims[j] == Nobody
    ensures AllHeld(st.(pcs := st.pcs[p := pc], claims := Claimed(st.claims, pc.first, pc.n, Taking(p))))
  {
    NoneInHand(st, p);
    HeldStays(st, st.(pcs := st.pcs[p := pc], claims := Claimed(st.claims, pc.first, pc.n, Taking(p))), p);
  }

  lemma GoesOnHeld(st: State, p: nat, pc: PC)
    requires AllHeld(st) && p < |st.pcs| && st.pcs[p].Scanning?
    ensures AllHeld(st.(pcs := st.pcs[p := pc]))
  {
    NoneInHand(st, p);
    HeldStays(st, st.(pcs := st.pcs[p := pc]), p);
  }

  lemma ScanHeld(st: State, p: nat)
    requires Safe(st) && AllHeld(st) && p < |st.pcs| && st.pcs[p].Scanning?
    ensures AllHeld(Advance(st, p))
  {
    var Scanning(was, n, i, g) := st.pcs[p];
    assert Local(st, p);
    FreeIsNobodys(st, p, i);
    if i >= |st.ck| && st.grow {
      GrowHeld(st, p);
    } else if i < |st.ck| && !st.ck[i] && g + 1 == n {
      TakeHeld(st, p, Marking(was, n, i - g, 0));
    } else {
      GoesOnHeld(st, p, Advance(st, p).pcs[p]);
    }
  }

  lemma MarkHeld(st: State, p: nat)
    requires Safe(st) && AllHeld(st) && p < |st.pcs| && st.pcs[p].Marking?
    ensures AllHeld(Advance(st, p))
  {
    var st' := Advance(st, p);
    assert Local(st, p);
    forall j: nat | j < |st.claims| && (st.claims[j] == Taking(p) || st.claims[j] == Giving(p))
      ensures ClaimHeld(st', j)
    {
      assert ClaimHeld(st, j);
    }
    HeldStays(st, st', p);
  }

  lemma ClearHeld(st: State, p: nat)
    requires Safe(st) && AllHeld(st) && p < |st.pcs| && st.pcs[p].Clearing?
    ensures AllHeld(Advance(st, p))
  {
    var st' := Advance(st, p);
    assert Local(st, p);
    forall j: nat | j < |st'.claims| && (st.claims[j] == Taking(p) || st.claims[j] == Giving(p))
      ensures ClaimHeld(st', j)
    {
      assert ClaimHeld(st, j);
    }
    HeldStays(st, st', p);
  }

  lemma LeaveHeld(st: State, p: nat)
    requires Safe(st) && AllHeld(st) && p < |st.pcs| && st.pcs[p].Leaving?
    ensures AllHeld(Advance(st, p))
  {
    var st' := Advance(st, p);
    assert Local(st, p);
    assert forall id | id in st.live :: id < st.nextId;
    forall j: nat | j < |st'.claims| && (st'.claims[j] != st.claims[j] || st.claims[j] == Taking(p)
                                         || st.claims[j] == Giving(p))
      ensures ClaimHeld(st', j)
    {
      assert ClaimHeld(st, j);
    }
    HeldStays(st, st', p);
  }

  lemma GiveUpHeld(st: State, p: nat, id: nat, next: Option<nat>)
    requires Safe(st) && AllHeld(st) && p < |st.pcs| && st.pcs[p].Idle? && id in st.live
    ensures AllHeld(GiveUp(st, p, id, next))
  {
    var st' := GiveUp(st, p, id, next);
    assert LiveRange(st, id);
    forall j: nat | j < |st'.claims| && (st'.claims[j] != st.claims[j] || st.claims[j] == Taking(p)
                                         || st.claims[j] == Giving(p))
      ensures ClaimHeld(st', j)
    {
      assert ClaimHeld(st, j);
    }
    forall j: nat | j < |st'.claims| ensures st'.claims[j] != Of(id) {
      assert ClaimHeld(st, j);
    }
    HeldStays(st, st', p);
  }

  lemma BeginAllocHeld(st: State, p: nat, n: nat)
    requires Safe(st) && AllHeld(st) && p < |st.pcs| && st.pcs[p].Idle?
    ensures AllHeld(Next(st, BeginAlloc(p, n)))
  {
    NoneInHand(st, p);
    HeldStays(st, Next(st, BeginAlloc(p, n)), p);
  }

  lemma NextHeld(st: State, step: Step)
    requires Safe(st) && AllHeld(st)
    ensures AllHeld(Next(st, step))
  {
    if step.p < |st.pcs| && (step.Work? || st.pcs[step.p].Idle?) {
      match step
      case BeginAlloc(p, n) => BeginAllocHeld(st, p, n);
      case BeginFree(p, id) =>
        if id in st.live && !(st.freeLocks && st.calendar) {
          GiveUpHeld(st, p, id, None);
        }
      case BeginRealloc(p, id, n) =>
        if id in st.live && !st.calendar && n > 0 {
          GiveUpHeld(st, p, id, Some(n));
        }
      case Work(p) =>
        match st.pcs[p]
        case Idle =>
        case Scanning(_, _, _, _) => ScanHeld(st, p);
        case Marking(_, _, _, _) => MarkHeld(st, p);
        case Clearing(_, _, _, _) => ClearHeld(st, p);
        case Leaving(_) => LeaveHeld(st, p);
    }
  }

  lemma {:induction false} RunHeld(st: State, steps: seq<Step>)
    requires Safe(st) && AllHeld(st)
    ensures AllHeld(Run(st, steps))
    decreases |steps|
  {
    if steps != [] {
      NextIsSafe(st, steps[0]);
      NextHeld(st, steps[0]);
      RunHeld(Next(st, steps[0]), steps[1..]);
    }
  }

  /** The slot lies in a live section. */
  ghost predicate InLive(st: State, j: nat) {
    exists id :: id in st.live && st.live[id].0 <= j < st.live[id].0 + st.live[id].1
  }

  /** Nothing leaks and nothing is given away: over every run that starts so, with free locked or not,
      whenever no operation is under way a slot is set exactly when it lies in a live section. */
  lemma SetIsLive(st: State, steps: seq<Step>, j: nat)
    requires Init(st) && forall i: nat | i < |st.ck| && st.ck[i] :: InLive(st, i)
    ensures var s := Run(st, steps);
            (forall p | 0 <= p < |s.pcs| :: s.pcs[p].Idle?) && j < |s.ck| ==> (s.ck[j] <==> InLive(s, j))
  {
    RunIsSafe(st, []);
    forall i: nat | i < |st.claims| ensures ClaimHeld(st, i) {
      if st.ck[i] {
        var id :| id in st.live && st.live[id].0 <= i < st.live[id].0 + st.live[id].1;
        assert LiveRange(st, id);
      }
    }
    RunHeld(st, steps);
    RunIsSafe(st, steps);
    var s := Run(st, steps);
    if (forall p | 0 <= p < |s.pcs| :: s.pcs[p].Idle?) && j < |s.ck| {
      assert ClaimHeld(s, j);
      forall id | id in s.live && s.live[id].0 <= j < s.live[id].0 + s.live[id].1 ensures s.ck[j] {
        assert LiveRange(s, id);
      }
    }
  }
}
