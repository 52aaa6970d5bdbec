/** `King`: the pool under its lock, with any number of processors taking interleaved steps.

    An acquire is the successful compare-and-swap of `mutex`, a release the store of 0 to `calendar`;
    between them one slot of the pool is read or written per step. The source wraps pool_alloc and
    pool_realloc in the lock but leaves pool_free as it inherits it from Hash: `freeLocks` chooses
    between a free that takes the lock and the free as written. A realloc holds the lock from clearing
    its section to marking the new run. `grow` says whether the pool may grow, which takes one step;
    requests are for at least one slot. */
module PoolLock {
  import opened PageTypes
  import opened Bitmap
  import Pool

  datatype Event =
    | Alloc(n: nat, result: Option<nat>)
    | Free(first: nat, length: nat)
    | Realloc(first: nat, length: nat, n: nat, result: Option<nat>)

  /** The section a realloc has released, if the allocation under way is one's. */
  type Was = Option<(nat, nat)>

  datatype PC =
    | Idle
    | Scanning(was: Was, n: nat, i: nat, g: nat)
    | Marking(was: Was, n: nat, first: nat, k: nat)
    | Clearing(next: Option<nat>, first: nat, n: nat, k: nat)
    | Leaving(ev: Event)

  /** Who may count on a slot. No part of the kernel: it is what `ck` is measured against. */
  datatype Claim = Nobody | Of(id: nat) | Taking(p: nat) | Giving(p: nat)

  datatype State = State(
    freeLocks: bool,
    grow: bool,
    ck: seq<bool>,
    calendar: bool,
    pcs: seq<PC>,
    live: map<nat, (nat, nat)>,
    nextId: nat,
    claims: seq<Claim>,
    log: seq<Event>)

  datatype Step =
    | BeginAlloc(p: nat, n: nat)
    | BeginFree(p: nat, id: nat)
    | BeginRealloc(p: nat, id: nat, n: nat)
    | Work(p: nat)

  ghost function Claimed(claims: seq<Claim>, first: int, n: int, c: Claim): (r: seq<Claim>)
    ensures |r| == |claims|
    ensures forall j | 0 <= j < |claims| :: r[j] == if first <= j < first + n then c else claims[j]
  {
    seq(|claims|, j requires 0 <= j < |claims| => if first <= j < first + n then c else claims[j])
  }

  predicate Holds(pc: PC, freeLocks: bool) {
    match pc
    case Idle => false
    case Scanning(_, _, _, _) => true
    case Marking(_, _, _, _) => true
    case Clearing(next, _, _, _) => freeLocks || next.Some?
    case Leaving(ev) => freeLocks || !ev.Free?
  }

  function Answered(was: Was, n: nat, result: Option<nat>): Event {
    match was
    case None => Alloc(n, result)
    case Some((first, length)) => Realloc(first, length, n, result)
  }

  /** The run an operation has got. */
  function Got(ev: Event): Option<(nat, nat)> {
    if ev.Free? || ev.result.None? then None else Some((ev.result.value, ev.n))
  }

  /** One internal step of the processor's current operation. */
  ghost function Advance(st: State, p: nat): State
    requires p < |st.pcs|
  {
    match st.pcs[p]
    case Idle => st
    case Scanning(was, n, i, g) =>
      if i >= |st.ck| then
        if st.grow then
          st.(ck := st.ck + Pool.Fill(true, n), claims := st.claims + Pool.Fill(Taking(p), n),
              pcs := st.pcs[p := Leaving(Answered(was, n, Some(|st.ck|)))])
        else st.(pcs := st.pcs[p := Leaving(Answered(was, n, None))])
      else if st.ck[i] then st.(pcs := st.pcs[p := Scanning(was, n, i + 1, 0)])
      else if g + 1 < n then st.(pcs := st.pcs[p := Scanning(was, n, i + 1, g + 1)])
      else
        var first := if g <= i then i - g else 0;
        st.(pcs := st.pcs[p := Marking(was, n, first, 0)], claims := Claimed(st.claims, first, n, Taking(p)))
    case Marking(was, n, first, k) =>
      if k < n && first + k < |st.ck| then
        st.(ck := st.ck[first + k := true], pcs := st.pcs[p := Marking(was, n, first, k + 1)])
      else st.(pcs := st.pcs[p := Leaving(Answered(was, n, Some(first)))])
    case Clearing(next, first, n, k) =>
      if k < n && first + k < |st.ck| then
        st.(ck := st.ck[first + k := false], pcs := st.pcs[p := Clearing(next, first, n, k + 1)],
            claims := Claimed(st.claims, first + k, 1, Nobody))
      else
        st.(pcs := st.pcs[p := if next.Some? then Scanning(Some((first, n)), next.value, 0, 0)
                              else Leaving(Free(first, n))])
    case Leaving(ev) =>
      var freed := st.(pcs := st.pcs[p := Idle], log := st.log + [ev],
                       calendar := if Holds(st.pcs[p], st.freeLocks) then false else st.calendar);
      match Got(ev)
      case None => freed
      case Some((first, n)) =>
        freed.(live := st.live[st.nextId := (first, n)], nextId := st.nextId + 1,
            claims := Claimed(st.claims, first, n, Of(st.nextId)))
  }

  /** p gives up allocation id, to free it or, with a new length, to realloc it. */
  ghost function GiveUp(st: State, p: nat, id: nat, next: Option<nat>): State
    requires p < |st.pcs| && id in st.live
  {
    var (first, n) := st.live[id];
    st.(calendar := st.calendar || st.freeLocks || next.Some?, pcs := st.pcs[p := Clearing(next, first, n, 0)],
        live := st.live - {id}, claims := Claimed(st.claims, first, n, Giving(p)))
  }

  ghost function Next(st: State, step: Step): State {
    if step.p >= |st.pcs| || (!step.Work? && !st.pcs[step.p].Idle?) then st
    else
      match step
      case BeginAlloc(p, n) =>
        if !st.calendar && n > 0 then st.(calendar := true, pcs := st.pcs[p := Scanning(None, n, 0, 0)]) else st
      case BeginFree(p, id) =>
        if id in st.live && !(st.freeLocks && st.calendar) then GiveUp(st, p, id, None) else st
      case BeginRealloc(p, id, n) =>
        if id in st.live && !st.calendar && n > 0 then GiveUp(st, p, id, Some(n)) else st
      case Work(p) => Advance(st, p)
  }

  ghost function Run(st: State, steps: seq<Step>): State
    decreases |steps|
  {
    if steps == [] then st else Run(Next(st, steps[0]), steps[1..])
  }

  ghost predicate Init(st: State) {
    && (forall p | 0 <= p < |st.pcs| :: st.pcs[p].Idle?) && !st.calendar
    && st.log == [] && |st.claims| == |st.ck|
    && (forall j | 0 <= j < |st.ck| :: st.ck[j] <==> st.claims[j].Of?)
    && (forall j | 0 <= j < |st.ck| :: st.claims[j].Of? || st.claims[j].Nobody?)
    && (forall id | id in st.live :: id < st.nextId && LiveRange(st, id))
  }

  ghost predicate LiveRange(st: State, id: nat)
    requires id in st.live && |st.claims| == |st.ck|
  {
    var (first, n) := st.live[id];
    n > 0 && first + n <= |st.ck| && forall j | first <= j < first + n :: st.claims[j] == Of(id)
  }

  /** What a processor may rely on at its present step. */
  ghost predicate Local(st: State, p: nat)
    requires p < |st.pcs| && |st.claims| == |st.ck|
  {
    match st.pcs[p]
    case Idle => true
    case Scanning(_, n, i, g) =>
      g <= i <= |st.ck| && g < n && forall j | i - g <= j < i :: st.claims[j] == Nobody
    case Marking(_, n, first, k) =>
      && k <= n && n > 0 && first + n <= |st.ck|
      && forall j | first <= j < first + n :: st.claims[j] == Taking(p) && (st.ck[j] <==> j < first + k)
    case Clearing(next, first, n, k) =>
      && k <= n && first + n <= |st.ck| && (next.Some? ==> next.value > 0)
      && forall j | first + k <= j < first + n :: st.claims[j] == Giving(p)
    case Leaving(ev) =>
      match Got(ev)
      case None => true
      case Some((first, n)) =>
        && n > 0 && first + n <= |st.ck|
        && forall j | first <= j < first + n :: st.claims[j] == Taking(p) && st.ck[j]
  }

  /** At most one processor is inside, and calendar is set exactly while one is. */
  ghost predicate Exclusive(st: State) {
    && (forall p, q | 0 <= p < |st.pcs| && 0 <= q < |st.pcs| && Inside(st, p) && Inside(st, q) :: p == q)
    && (st.calendar ==> exists p :: 0 <= p < |st.pcs| && Inside(st, p))
    && (!st.calendar ==> forall p | 0 <= p < |st.pcs| :: !Inside(st, p))
  }

  ghost predicate Inside(st: State, p: int)
    requires 0 <= p < |st.pcs|
  {
    Holds(st.pcs[p], st.freeLocks)
  }

  ghost predicate Safe(st: State) {
    && |st.claims| == |st.ck|
    && Exclusive(st)
    && (forall p | 0 <= p < |st.pcs| :: Local(st, p))
    && (forall id | id in st.live :: id < st.nextId && LiveRange(st, id))
    && (forall j | 0 <= j < |st.ck| ::
          (st.claims[j].Nobody? ==> !st.ck[j]) && (st.claims[j].Of? || st.claims[j].Giving? ==> st.ck[j]))
    && (forall j | 0 <= j < |st.ck| :: st.claims[j].Taking? ==> TakerAt(st, st.claims[j].p, j))
  }

  /** A slot is being taken only by a processor past its scan, as part of the run it found. */
  ghost predicate TakerAt(st: State, p: nat, j: int) {
    p < |st.pcs| &&
    match st.pcs[p]
    case Marking(_, n, first, _) => first <= j < first + n
    case Leaving(ev) => Got(ev).Some? && Got(ev).value.0 <= j < Got(ev).value.0 + Got(ev).value.1
    case _ => false
  }

  /** Only p moves, and it leaves the slots others count on alone. */
  ghost predicate Yields(st: State, st': State, p: nat)
    requires p < |st.pcs| && |st.claims| == |st.ck|
  {
    && |st'.pcs| == |st.pcs| && st'.freeLocks == st.freeLocks && |st.ck| <= |st'.ck| == |st'.claims|
    && (|st.ck| < |st'.ck| ==> Inside(st, p))
    && (forall q | 0 <= q < |st.pcs| && q != p :: st'.pcs[q] == st.pcs[q])
    && (forall j | 0 <= j < |st.ck| && st.claims[j] != st'.claims[j] ::
          st.claims[j] == Taking(p) || st.claims[j] == Giving(p) || st.claims[j].Of?
              || (st.claims[j].Nobody? && Inside(st, p)))
    && (forall j | 0 <= j < |st.ck| && st.ck[j] != st'.ck[j] :: st.claims[j] == Taking(p) || st.claims[j] == Giving(p))
  }

  lemma OthersStay(st: State, st': State, p: nat)
    requires Safe(st) && p < |st.pcs| && Yields(st, st', p)
    ensures forall q | 0 <= q < |st.pcs| && q != p :: Local(st', q)
  {
    forall q | 0 <= q < |st.pcs| && q != p ensures Local(st', q) {
      assert Local(st, q);
      if st.pcs[q].Scanning? {
        assert Inside(st, q) && !Inside(st, p);
      }
    }
  }

  /** The lock after a step of p: taken by it, given up by it, or as before. */
  lemma LockAfter(st: State, st': State, p: nat)
    requires Exclusive(st) && p < |st.pcs| && |st'.pcs| == |st.pcs| && st'.freeLocks == st.freeLocks
    requires forall q | 0 <= q < |st.pcs| && q != p :: st'.pcs[q] == st.pcs[q]
    requires Inside(st', p) && !Inside(st, p) ==> !st.calendar
    requires st'.calendar == if Inside(st', p) == Inside(st, p) then st.calendar else Inside(st', p)
    ensures Exclusive(st')
  {
    assert forall q | 0 <= q < |st.pcs| && q != p :: Inside(st', q) <==> Inside(st, q);
    if Inside(st', p) == Inside(st, p) && st'.calendar {
      var q :| 0 <= q < |st.pcs| && Inside(st, q);
      assert Inside(st', q);
    }
  }

  lemma LiveStays(st: State, st': State)
    requires Safe(st) && |st.ck| <= |st'.ck| == |st'.claims| && st'.nextId >= st.nextId
    requires forall id | id in st'.live :: id in st.live && st'.live[id] == st.live[id]
    requires forall j | 0 <= j < |st.ck| && st.claims[j].Of? && st.claims[j].id in st'.live ::
               st'.claims[j] == st.claims[j]
    ensures forall id | id in st'.live :: id < st'.nextId && LiveRange(st', id)
  {
    forall id | id in st'.live ensures id < st'.nextId && LiveRange(st', id) {
      assert LiveRange(st, id);
    }
  }

  lemma NextIsSafe(st: State, step: Step)
    requires Safe(st)
    ensures Safe(Next(st, step))
  {
    if step.p < |st.pcs| {
      match step
      case BeginAlloc(p, n) => BeginAllocIsSafe(st, p, n);
      case BeginFree(p, id) =>
        if st.pcs[p].Idle? && id in st.live && !(st.freeLocks && st.calendar) {
          GiveUpIsSafe(st, p, id, None);
        }
      case BeginRealloc(p, id, n) =>
        if st.pcs[p].Idle? && id in st.live && !st.calendar && n > 0 {
          GiveUpIsSafe(st, p, id, Some(n));
        }
      case Work(p) =>
        match st.pcs[p]
        case Idle =>
        case Scanning(_, _, _, _) => ScanIsSafe(st, p);
        case Marking(_, _, _, _) => MarkIsSafe(st, p);
        case Clearing(_, _, _, _) => ClearIsSafe(st, p);
        case Leaving(_) => LeaveIsSafe(st, p);
    }
  }

  lemma BeginAllocIsSafe(st: State, p: nat, n: nat)
    requires Safe(st) && p < |st.pcs|
    ensures Safe(Next(st, BeginAlloc(p, n)))
  {
    var st' := Next(st, BeginAlloc(p, n));
    if st' != st {
      OthersStay(st, st', p);
      LockAfter(st, st', p);
      LiveStays(st, st');
      TakersStay(st, st', p);
    }
  }

  lemma TakersStay(st: State, st': State, p: nat)
    requires Safe(st) && p < |st.pcs| && |st.ck| <= |st'.ck| == |st'.claims| && |st'.pcs| == |st.pcs|
    requires forall q | 0 <= q < |st.pcs| && q != p :: st'.pcs[q] == st.pcs[q]
    requires forall j | 0 <= j < |st'.ck| && st'.claims[j].Taking? && st'.claims[j].p != p ::
               j < |st.ck| && st'.claims[j] == st.claims[j]
    requires forall j | 0 <= j < |st'.ck| && st'.claims[j] == Taking(p) :: TakerAt(st', p, j)
    ensures forall j | 0 <= j < |st'.ck| :: st'.claims[j].Taking? ==> TakerAt(st', st'.claims[j].p, j)
  {
    forall j | 0 <= j < |st'.ck| && st'.claims[j].Taking? ensures TakerAt(st', st'.claims[j].p, j) {
      if st'.claims[j].p != p {
        assert TakerAt(st, st.claims[j].p, j);
      }
    }
  }

  lemma GiveUpIsSafe(st: State, p: nat, id: nat, next: Option<nat>)
    requires Safe(st) && p < |st.pcs| && st.pcs[p].Idle? && id in st.live
    requires (st.freeLocks || next.Some?) ==> !st.calendar
    requires next.Some? ==> next.value > 0
    ensures Safe(GiveUp(st, p, id, next))
  {
    var st' := GiveUp(st, p, id, next);
    assert LiveRange(st, id);
    OthersStay(st, st', p);
    LockAfter(st, st', p);
    LiveStays(st, st');
    TakersStay(st, st', p);
  }

  /** A step of p that only moves it on, neither taking nor giving up the lock. */
  lemma MovesOn(st: State, p: nat, pc: PC)
    requires Safe(st) && p < |st.pcs| && Holds(pc, st.freeLocks) == Inside(st, p)
    requires Local(st.(pcs := st.pcs[p := pc]), p)
    requires forall j | 0 <= j < |st.ck| && st.claims[j] == Taking(p) :: TakerAt(st.(pcs := st.pcs[p := pc]), p, j)
    ensures Safe(st.(pcs := st.pcs[p := pc]))
  {
    var st' := st.(pcs := st.pcs[p := pc]);
    OthersStay(st, st', p);
    LockAfter(st, st', p);
    LiveStays(st, st');
    TakersStay(st, st', p);
  }

  /** A scan that has found its run claims it. */
  lemma Takes(st: State, p: nat, was: Was, n: nat, first: nat)
    requires Safe(st) && p < |st.pcs| && st.pcs[p].Scanning? && n > 0 && first + n <= |st.ck|
    requires forall j | first <= j < first + n :: st.claims[j] == Nobody
    ensures Safe(st.(pcs := st.pcs[p := Marking(was, n, first, 0)], claims := Claimed(st.claims, first, n, Taking(p))))
  {
    var st' := st.(pcs := st.pcs[p := Marking(was, n, first, 0)], claims := Claimed(st.claims, first, n, Taking(p)));
    assert Inside(st, p);
    OthersStay(st, st', p);
    LockAfter(st, st', p);
    LiveStays(st, st');
    TakersStay(st, st', p);
  }

  /** A scan that has found none and may grow takes what it grows by. */
  lemma Grows(st: State, p: nat)
    requires Safe(st) && p < |st.pcs| && st.pcs[p].Scanning? && st.grow && st.pcs[p].i >= |st.ck|
    ensures Safe(Advance(st, p))
  {
    var st' := Advance(st, p);
    assert Local(st, p) && Inside(st, p);
    OthersStay(st, st', p);
    LockAfter(st, st', p);
    LiveStays(st, st');
    TakersStay(st, st', p);
  }

  lemma ScanIsSafe(st: State, p: nat)
    requires Safe(st) && p < |st.pcs| && st.pcs[p].Scanning?
    ensures Safe(Advance(st, p))
  {
    var Scanning(was, n, i, g) := st.pcs[p];
    assert Local(st, p);
    FreeIsNobodys(st, p, i);
    if i >= |st.ck| && st.grow {
      Grows(st, p);
    } else if i < |st.ck| && !st.ck[i] && g + 1 == n {
      Takes(st, p, was, n, i - g);
    } else {
      MovesOn(st, p, Advance(st, p).pcs[p]);
    }
  }

  /** To a processor that scans, a slot that reads 0 is nobody's. */
  lemma FreeIsNobodys(st: State, p: nat, j: nat)
    requires Safe(st) && p < |st.pcs| && st.pcs[p].Scanning?
    ensures j < |st.ck| && !st.ck[j] ==> st.claims[j] == Nobody
  {
    assert Inside(st, p);
    if j < |st.ck| && st.claims[j].Taking? {
      assert TakerAt(st, st.claims[j].p, j) ==> Inside(st, st.claims[j].p);
    }
  }

  lemma MarkOneIsSafe(st: State, p: nat)
    requires Safe(st) && p < |st.pcs| && st.pcs[p].Marking? && st.pcs[p].k < st.pcs[p].n
    ensures Safe(Advance(st, p))
  {
    var Marking(was, n, first, k) := st.pcs[p];
    assert Local(st, p);
    assert forall j | 0 <= j < |st.ck| && st.claims[j] == Taking(p) :: TakerAt(st, p, j);
    WriteIsSafe(st, p, first + k, true, Marking(was, n, first, k + 1), st.claims);
  }

  lemma MarkIsSafe(st: State, p: nat)
    requires Safe(st) && p < |st.pcs| && st.pcs[p].Marking?
    ensures Safe(Advance(st, p))
  {
    var Marking(was, n, first, k) := st.pcs[p];
    if k < n {
      MarkOneIsSafe(st, p);
    } else {
      assert Local(st, p);
      assert forall j | 0 <= j < |st.ck| && st.claims[j] == Taking(p) :: TakerAt(st, p, j);
      MovesOn(st, p, Leaving(Answered(was, n, Some(first))));
    }
  }

  /** A step of p that writes slot i, which it is taking or giving up. */
  lemma WriteIsSafe(st: State, p: nat, i: nat, value: bool, pc: PC, claims: seq<Claim>)
    requires Safe(st) && p < |st.pcs| && i < |st.ck| && Holds(pc, st.freeLocks) == Inside(st, p)
    requires if value then st.claims[i] == Taking(p) && claims == st.claims
             else st.claims[i] == Giving(p) && claims == Claimed(st.claims, i, 1, Nobody)
    requires Local(st.(ck := st.ck[i := value], pcs := st.pcs[p := pc], claims := claims), p)
    requires forall j | 0 <= j < |st.ck| && claims[j] == Taking(p) :: TakerAt(st.(pcs := st.pcs[p := pc]), p, j)
    ensures Safe(st.(ck := st.ck[i := value], pcs := st.pcs[p := pc], claims := claims))
  {
    var st' := st.(ck := st.ck[i := value], pcs := st.pcs[p := pc], claims := claims);
    OthersStay(st, st', p);
    LockAfter(st, st', p);
    LiveStays(st, st');
    assert forall j | 0 <= j < |st.ck| && claims[j] == Taking(p) ::
        TakerAt(st.(pcs := st.pcs[p := pc]), p, j) && TakerAt(st', p, j);
    TakersStay(st, st', p);
  }

  lemma ClearOneIsSafe(st: State, p: nat)
    requires Safe(st) && p < |st.pcs| && st.pcs[p].Clearing? && st.pcs[p].k < st.pcs[p].n
    ensures Safe(Advance(st, p))
  {
    var Clearing(next, first, n, k) := st.pcs[p];
    assert Local(st, p);
    assert forall j | 0 <= j < |st.ck| && st.claims[j] == Taking(p) :: TakerAt(st, p, j);
    WriteIsSafe(st, p, first + k, false, Clearing(next, first, n, k + 1), Claimed(st.claims, first + k, 1, Nobody));
  }

  lemma ClearIsSafe(st: State, p: nat)
    requires Safe(st) && p < |st.pcs| && st.pcs[p].Clearing?
    ensures Safe(Advance(st, p))
  {
    if st.pcs[p].k < st.pcs[p].n {
      ClearOneIsSafe(st, p);
    } else {
      assert Local(st, p);
      assert forall j | 0 <= j < |st.ck| && st.claims[j] == Taking(p) :: TakerAt(st, p, j);
      MovesOn(st, p, Advance(st, p).pcs[p]);
    }
  }

  lemma LeaveEmptyIsSafe(st: State, p: nat)
    requires Safe(st) && p < |st.pcs| && st.pcs[p].Leaving? && Got(st.pcs[p].ev).None?
    ensures Safe(Advance(st, p))
  {
    var st' := Advance(st, p);
    assert Local(st, p);
    assert forall j | 0 <= j < |st.ck| && st.claims[j] == Taking(p) :: TakerAt(st, p, j);
    OthersStay(st, st', p);
    LockAfter(st, st', p);
    LiveStays(st, st');
    TakersStay(st, st', p);
  }

  /** A finished operation gets its run as a live allocation. */
  lemma LeaveWithRunIsSafe(st: State, p: nat)
    requires Safe(st) && p < |st.pcs| && st.pcs[p].Leaving? && Got(st.pcs[p].ev).Some?
    ensures Safe(Advance(st, p))
  {
    var st' := Advance(st, p);
    assert Local(st, p);
    assert forall j | 0 <= j < |st.ck| && st.claims[j] == Taking(p) :: TakerAt(st, p, j);
    OthersStay(st, st', p);
    LockAfter(st, st', p);
    LiveStays(st, st'.(live := st.live));
    TakersStay(st, st', p);
  }

  lemma LeaveIsSafe(st: State, p: nat)
    requires Safe(st) && p < |st.pcs| && st.pcs[p].Leaving?
    ensures Safe(Advance(st, p))
  {
    if Got(st.pcs[p].ev).None? {
      LeaveEmptyIsSafe(st, p);
    } else {
      LeaveWithRunIsSafe(st, p);
    }
  }

  /** In every run, with the lock around free or without: one processor at a time is inside, and ... */
  lemma {:induction false} RunIsSafe(st: State, steps: seq<Step>)
    requires Init(st) || Safe(st)
    ensures Safe(Run(st, steps))
    decreases |steps|
  {
    if steps != [] {
      NextIsSafe(st, steps[0]);
      RunIsSafe(Next(st, steps[0]), steps[1..]);
    }
  }

  /** ... no two live allocations overlap, and all their slots are set. */
  lemma LiveNeverOverlap(st: State, steps: seq<Step>, id: nat, id': nat)
    requires Init(st)
    requires var s := Run(st, steps); id in s.live && id' in s.live && id != id'
    ensures var s := Run(st, steps);
            var ((a, m), (b, n)) := (s.live[id], s.live[id']);
            && (a + m <= b || b + n <= a) && a + m <= |s.ck|
            && forall j | a <= j < a + m :: s.ck[j]
  {
    RunIsSafe(st, steps);
    var s := Run(st, steps);
    assert LiveRange(s, id) && LiveRange(s, id');
    var ((a, m), (b, n)) := (s.live[id], s.live[id']);
    var j := if a <= b then b else a;
    if a <= j < a + m && b <= j < b + n {
      ClaimedBy(s, id, j);
      ClaimedBy(s, id', j);
      assert false;
    }
  }

  lemma ClaimedBy(s: State, id: nat, j: nat)
    requires Safe(s) && id in s.live && s.live[id].0 <= j < s.live[id].0 + s.live[id].1
    ensures j < |s.ck| && s.claims[j] == Of(id)
  {
    assert LiveRange(s, id);
  }

  // ----- linearization -----

  ghost function Given(ck: seq<bool>, n: nat, result: Option<nat>, grow: bool): Option<seq<bool>> {
    if n > 0 && Pool.Allocated(ck, n, grow).1 == result then Some(Pool.Allocated(ck, n, grow).0) else None
  }

  /** The sequential pool: what one operation of Hash makes of the slots, if it answers as it did. */
  ghost function Apply(ck: seq<bool>, ev: Event, grow: bool): Option<seq<bool>> {
    match ev
    case Alloc(n, result) => Given(ck, n, result, grow)
    case Free(first, length) => Some(SetRange(ck, first, length, false))
    case Realloc(first, length, n, result) => Given(SetRange(ck, first, length, false), n, result, grow)
  }

  ghost function Replay(ck: seq<bool>, log: seq<Event>, grow: bool): Option<seq<bool>> {
    if log == [] then Some(ck)
    else match Replay(ck, log[..|log| - 1], grow)
      case None => None
      case Some(c) => Apply(c, log[|log| - 1], grow)
  }

  ghost function Released(abs: seq<bool>, was: Was): (r: seq<bool>)
    ensures |r| == |abs|
  {
    match was
    case None => abs
    case Some((first, length)) => SetRange(abs, first, length, false)
  }

  /** How the slots stand to those the finished operations left, at each point inside the lock. */
  ghost predicate Pending(abs: seq<bool>, ck: seq<bool>, pc: PC, grow: bool) {
    match pc
    case Idle => ck == abs
    case Scanning(was, n, i, g) =>
      && ck == Released(abs, was) && g < n && g <= i <= |ck| && FreeRun(ck, i - g, g)
      && forall s | 0 <= s < i - g :: !Fit(ck, s, n, SmallPage, |ck|)
    case Marking(was, n, first, k) =>
      var from := Released(abs, was);
      n > 0 && k <= n && FirstFit(from, 0, |from|, n, SmallPage) == Some(first) && ck == SetRange(from, first, k, true)
    case Clearing(next, first, n, k) =>
      k <= n && first + n <= |ck| && ck == SetRange(abs, first, k, false) && (next.Some? ==> next.value > 0)
    case Leaving(ev) => Apply(abs, ev, grow) == Some(ck)
  }

  predicate Busy(st: State, p: int)
    requires 0 <= p < |st.pcs|
  {
    !st.pcs[p].Idle?
  }

  ghost predicate Alone(st: State) {
    forall p, q | 0 <= p < |st.pcs| && 0 <= q < |st.pcs| && Busy(st, p) && Busy(st, q) :: p == q
  }

  /** Between operations the slots are what the finished ones leave, and inside one they stand to that as
      they should. */
  ghost predicate Linear(st: State, ck0: seq<bool>) {
    match Replay(ck0, st.log, st.grow)
    case None => false
    case Some(abs) =>
      && ((forall p | 0 <= p < |st.pcs| :: !Busy(st, p)) ==> st.ck == abs)
      && (forall p | 0 <= p < |st.pcs| && Busy(st, p) :: Pending(abs, st.ck, st.pcs[p], st.grow))
  }

  lemma ScanIsPending(abs: seq<bool>, ck: seq<bool>, was: Was, n: nat, i: nat, g: nat, grow: bool)
    requires Pending(abs, ck, Scanning(was, n, i, g), grow)
    ensures i < |ck| && ck[i] ==> Pending(abs, ck, Scanning(was, n, i + 1, 0), grow)
    ensures i < |ck| && !ck[i] && g + 1 < n ==> Pending(abs, ck, Scanning(was, n, i + 1, g + 1), grow)
    ensures i < |ck| && !ck[i] && g + 1 == n ==> Pending(abs, ck, Marking(was, n, i - g, 0), grow)
    ensures i == |ck| && !grow ==> Pending(abs, ck, Leaving(Answered(was, n, None)), grow)
    ensures i == |ck| && grow ==> Pending(abs, ck + Pool.Fill(true, n), Leaving(Answered(was, n, Some(|ck|))), grow)
  {
    if i < |ck| && ck[i] {
      forall s | 0 <= s < i + 1 ensures !Fit(ck, s, n, SmallPage, |ck|) {
        assert s >= i - g ==> !FreeRun(ck, s, n);
      }
    } else if i < |ck| && g + 1 == n {
      FirstFitIs(ck, i - g, |ck|, n, SmallPage);
      assert SetRange(ck, i - g, 0, true) == ck;
    } else if i == |ck| {
      assert FirstFit(ck, 0, |ck|, n, SmallPage).None?;
    }
  }

  lemma MarkIsPending(abs: seq<bool>, ck: seq<bool>, was: Was, n: nat, first: nat, k: nat, grow: bool)
    requires Pending(abs, ck, Marking(was, n, first, k), grow) && first + n <= |ck|
    ensures k < n ==> Pending(abs, ck[first + k := true], Marking(was, n, first, k + 1), grow)
    ensures k == n ==> Pending(abs, ck, Leaving(Answered(was, n, Some(first))), grow)
  {
    if k < n {
      assert ck[first + k := true] == SetRange(Released(abs, was), first, k + 1, true);
    }
  }

  lemma ClearIsPending(abs: seq<bool>, ck: seq<bool>, next: Option<nat>, first: nat, n: nat, k: nat, grow: bool)
    requires Pending(abs, ck, Clearing(next, first, n, k), grow)
    ensures k < n ==> Pending(abs, ck[first + k := false], Clearing(next, first, n, k + 1), grow)
    ensures k == n && next.None? ==> Pending(abs, ck, Leaving(Free(first, n)), grow)
    ensures k == n && next.Some? ==> Pending(abs, ck, Scanning(Some((first, n)), next.value, 0, 0), grow)
  {
    if k < n {
      assert ck[first + k := false] == SetRange(abs, first, k + 1, false);
    }
  }

  lemma ScanAdvances(st: State, p: nat, abs: seq<bool>)
    requires Safe(st) && p < |st.pcs| && Pending(abs, st.ck, st.pcs[p], st.grow) && st.pcs[p].Scanning?
    ensures Busy(Advance(st, p), p) && Pending(abs, Advance(st, p).ck, Advance(st, p).pcs[p], st.grow)
  {
    ScanIsPending(abs, st.ck, st.pcs[p].was, st.pcs[p].n, st.pcs[p].i, st.pcs[p].g, st.grow);
  }

  lemma MarkAdvances(st: State, p: nat, abs: seq<bool>)
    requires Safe(st) && p < |st.pcs| && Pending(abs, st.ck, st.pcs[p], st.grow) && st.pcs[p].Marking?
    ensures Busy(Advance(st, p), p) && Pending(abs, Advance(st, p).ck, Advance(st, p).pcs[p], st.grow)
  {
    assert Local(st, p);
    MarkIsPending(abs, st.ck, st.pcs[p].was, st.pcs[p].n, st.pcs[p].first, st.pcs[p].k, st.grow);
  }

  lemma ClearAdvances(st: State, p: nat, abs: seq<bool>)
    requires Safe(st) && p < |st.pcs| && Pending(abs, st.ck, st.pcs[p], st.grow) && st.pcs[p].Clearing?
    ensures Busy(Advance(st, p), p) && Pending(abs, Advance(st, p).ck, Advance(st, p).pcs[p], st.grow)
  {
    ClearIsPending(abs, st.ck, st.pcs[p].next, st.pcs[p].first, st.pcs[p].n, st.pcs[p].k, st.grow);
  }

  lemma LeaveIsLinear(st: State, p: nat, ck0: seq<bool>)
    requires Alone(st) && Linear(st, ck0) && p < |st.pcs| && st.pcs[p].Leaving?
    ensures Linear(Advance(st, p), ck0)
  {
    var st' := Advance(st, p);
    assert Busy(st, p);
    assert st'.log[..|st.log|] == st.log;
    forall q | 0 <= q < |st.pcs| ensures !Busy(st', q) {
      assert q != p ==> !Busy(st, q);
    }
  }

  /** p alone is busy after the step, and the slots stand as they should to what was finished before. */
  lemma StaysLinear(st: State, st': State, p: nat, ck0: seq<bool>)
    requires Alone(st') && p < |st'.pcs| && Busy(st', p) && st'.log == st.log && st'.grow == st.grow
    requires Replay(ck0, st.log, st.grow).Some?
    requires Pending(Replay(ck0, st.log, st.grow).value, st'.ck, st'.pcs[p], st.grow)
    ensures Linear(st', ck0)
  {
  }

  lemma WorkAdvances(st: State, p: nat, abs: seq<bool>)
    requires Safe(st) && p < |st.pcs| && Pending(abs, st.ck, st.pcs[p], st.grow)
    requires !st.pcs[p].Idle? && !st.pcs[p].Leaving?
    ensures Busy(Advance(st, p), p) && Pending(abs, Advance(st, p).ck, Advance(st, p).pcs[p], st.grow)
  {
    match st.pcs[p]
    case Scanning(_, _, _, _) => ScanAdvances(st, p, abs);
    case Marking(_, _, _, _) => MarkAdvances(st, p, abs);
    case Clearing(_, _, _, _) => ClearAdvances(st, p, abs);
  }

  lemma WorkIsLinear(st: State, p: nat, ck0: seq<bool>)
    requires Safe(st) && Alone(st) && Linear(st, ck0) && p < |st.pcs| && Alone(Advance(st, p))
    ensures Linear(Advance(st, p), ck0)
  {
    if st.pcs[p].Leaving? {
      LeaveIsLinear(st, p, ck0);
    } else if Busy(st, p) {
      WorkAdvances(st, p, Replay(ck0, st.log, st.grow).value);
      StaysLinear(st, Advance(st, p), p, ck0);
    }
  }

  /** An operation that begins finds no other under way, and the slots as the finished ones left them. */
  lemma BeginsAlone(st: State, st': State, p: nat, pc: PC, ck0: seq<bool>)
    requires Linear(st, ck0) && Alone(st') && p < |st.pcs| && st.pcs[p].Idle?
    requires !pc.Idle? && st'.pcs == st.pcs[p := pc]
    ensures st.ck == Replay(ck0, st.log, st.grow).value
  {
    forall q | 0 <= q < |st.pcs| ensures !Busy(st, q) {
      assert Busy(st', p) && (q != p ==> Busy(st', q) == Busy(st, q));
    }
  }

  lemma BeginAllocIsLinear(st: State, p: nat, n: nat, ck0: seq<bool>)
    requires Linear(st, ck0) && p < |st.pcs| && st.pcs[p].Idle? && !st.calendar && n > 0
    requires Alone(Next(st, BeginAlloc(p, n)))
    ensures Linear(Next(st, BeginAlloc(p, n)), ck0)
  {
    var st' := Next(st, BeginAlloc(p, n));
    BeginsAlone(st, st', p, Scanning(None, n, 0, 0), ck0);
    StaysLinear(st, st', p, ck0);
  }

  lemma GiveUpIsLinear(st: State, p: nat, id: nat, next: Option<nat>, ck0: seq<bool>)
    requires Safe(st) && Linear(st, ck0) && p < |st.pcs| && st.pcs[p].Idle? && id in st.live
    requires (next.Some? ==> next.value > 0) && Alone(GiveUp(st, p, id, next))
    ensures Linear(GiveUp(st, p, id, next), ck0)
  {
    var st' := GiveUp(st, p, id, next);
    assert LiveRange(st, id);
    assert SetRange(st.ck, st.live[id].0, 0, false) == st.ck;
    BeginsAlone(st, st', p, Clearing(next, st.live[id].0, st.live[id].1, 0), ck0);
    StaysLinear(st, st', p, ck0);
  }

  lemma NextKeepsMode(st: State, step: Step)
    ensures Next(st, step).freeLocks == st.freeLocks && Next(st, step).grow == st.grow
  {
  }

  lemma NextIsLinear(st: State, step: Step, ck0: seq<bool>)
    requires Safe(st) && Alone(st) && Linear(st, ck0) && Alone(Next(st, step))
    ensures Linear(Next(st, step), ck0)
  {
    if step.p < |st.pcs| && (step.Work? || st.pcs[step.p].Idle?) {
      match step
      case BeginAlloc(p, n) =>
        if !st.calendar && n > 0 {
          BeginAllocIsLinear(st, p, n, ck0);
        }
      case BeginFree(p, id) =>
        if id in st.live && !(st.freeLocks && st.calendar) {
          GiveUpIsLinear(st, p, id, None, ck0);
        }
      case BeginRealloc(p, id, n) =>
        if id in st.live && !st.calendar && n > 0 {
          GiveUpIsLinear(st, p, id, Some(n), ck0);
        }
      case Work(p) => WorkIsLinear(st, p, ck0);
    }
  }

  // ----- when the pool linearizes -----

  predicate Frees(pc: PC) {
    (pc.Clearing? && pc.next.None?) || (pc.Leaving? && pc.ev.Free?)
  }

  /** No free is under way while another operation is. */
  ghost predicate FreesAlone(st: State) {
    forall p, q | 0 <= p < |st.pcs| && 0 <= q < |st.pcs| && Busy(st, p) && Busy(st, q) && Frees(st.pcs[p]) :: p == q
  }

  lemma OneAtATime(st: State)
    requires Safe(st) && (st.freeLocks || FreesAlone(st))
    ensures Alone(st)
  {
    forall p, q | 0 <= p < |st.pcs| && 0 <= q < |st.pcs| && Busy(st, p) && Busy(st, q) ensures p == q {
      if st.freeLocks || (!Frees(st.pcs[p]) && !Frees(st.pcs[q])) {
        assert Inside(st, p) && Inside(st, q);
      }
    }
  }

  /** So it is before and after every step of the run. */
  ghost predicate FreesApart(st: State, steps: seq<Step>)
    decreases |steps|
  {
    FreesAlone(st) && (steps == [] || FreesApart(Next(st, steps[0]), steps[1..]))
  }

  lemma {:induction false} RunIsLinear(st: State, steps: seq<Step>, ck0: seq<bool>)
    requires Safe(st) && Linear(st, ck0) && (st.freeLocks || FreesApart(st, steps))
    ensures Linear(Run(st, steps), ck0) && Run(st, steps).grow == st.grow && Run(st, steps).freeLocks == st.freeLocks
    decreases |steps|
  {
    if steps != [] {
      NextIsSafe(st, steps[0]);
      NextKeepsMode(st, steps[0]);
      OneAtATime(st);
      OneAtATime(Next(st, steps[0]));
      NextIsLinear(st, steps[0], ck0);
      RunIsLinear(Next(st, steps[0]), steps[1..], ck0);
    }
  }

  /** With free under the lock every run is a sequential run of the pool: the finished operations, in
      the order they left, give every answer they gave, and whenever calendar is 0 the slots are
      exactly what they leave. */
  lemma LockedRunsLinearize(st: State, steps: seq<Step>)
    requires Init(st) && st.freeLocks
    ensures var s := Run(st, steps);
            && Replay(st.ck, s.log, st.grow).Some?
            && (!s.calendar ==> s.ck == Replay(st.ck, s.log, st.grow).value)
  {
    RunIsLinear(st, steps, st.ck);
    RunIsSafe(st, steps);
    var s := Run(st, steps);
    assert forall p | 0 <= p < |s.pcs| :: Busy(s, p) ==> Inside(s, p);
  }

  /** With free as written every run is one in which no free is under way while another operation is:
      the finished operations are sequential, and whenever none is under way the slots are exactly what
      they leave. */
  lemma UnlockedRunsLinearize(st: State, steps: seq<Step>)
    requires Init(st) && !st.freeLocks && FreesApart(st, steps)
    ensures var s := Run(st, steps);
            && Replay(st.ck, s.log, st.grow).Some?
            && ((forall p | 0 <= p < |s.pcs| :: s.pcs[p].Idle?) ==> s.ck == Replay(st.ck, s.log, st.grow).value)
  {
    RunIsLinear(st, steps, st.ck);
    var s := Run(st, steps);
    assert forall p | 0 <= p < |s.pcs| :: Busy(s, p) <==> !s.pcs[p].Idle?;
  }

  // ----- free as written -----

  /** Two single slots in use, two processors, free outside the lock. */
  ghost function TwoInUse(): State {
    State(false, false, [true, true], false, [Idle, Idle], map[0 := (0, 1), 1 := (1, 1)], 2, [Of(0), Of(1)], [])
  }

  /** Processor 0 starts to allocate one slot and passes slot 0; processor 1 frees slot 0, then slot 1;
      processor 0 goes on and takes slot 1. */
  ghost function OvertakenScan(k: nat): seq<Step>
    decreases 14 - k
  {
    if k >= 14 then [] else [StepAt(k)] + OvertakenScan(k + 1)
  }

  function StepAt(k: nat): Step {
    if k == 0 then BeginAlloc(0, 1)
    else if k == 2 then BeginFree(1, 0)
    else if k == 6 then BeginFree(1, 1)
    else if 2 < k < 10 then Work(1)
    else Work(0)
  }

  /** The state before step k. */
  ghost function StateAt(k: nat): State {
    var both := map[0 := (0, 1), 1 := (1, 1)];
    var free0, free1 := Free(0, 1), Free(1, 1);
    if k == 0 then TwoInUse()
    else if k == 1 then Mid([true, true], true, Scanning(None, 1, 0, 0), Idle, both, [Of(0), Of(1)], [])
    else if k == 2 then Mid([true, true], true, Scanning(None, 1, 1, 0), Idle, both, [Of(0), Of(1)], [])
    else if k == 3 then Mid([true, true], true, Scanning(None, 1, 1, 0), Clearing(None, 0, 1, 0), both - {0},
        [Giving(1), Of(1)], [])
    else if k == 4 then Mid([false, true], true, Scanning(None, 1, 1, 0), Clearing(None, 0, 1, 1), both - {0},
        [Nobody, Of(1)], [])
    else if k == 5 then Mid([false, true], true, Scanning(None, 1, 1, 0), Leaving(free0), both - {0},
        [Nobody, Of(1)], [])
    else if k == 6 then Mid([false, true], true, Scanning(None, 1, 1, 0), Idle, both - {0}, [Nobody, Of(1)], [free0])
    else if k == 7 then Mid([false, true], true, Scanning(None, 1, 1, 0), Clearing(None, 1, 1, 0),
        both - {0} - {1}, [Nobody, Giving(1)], [free0])
    else if k == 8 then Mid([false, false], true, Scanning(None, 1, 1, 0), Clearing(None, 1, 1, 1),
        both - {0} - {1}, [Nobody, Nobody], [free0])
    else if k == 9 then Mid([false, false], true, Scanning(None, 1, 1, 0), Leaving(free1), both - {0} - {1},
        [Nobody, Nobody], [free0])
    else if k == 10 then Mid([false, false], true, Scanning(None, 1, 1, 0), Idle, both - {0} - {1},
        [Nobody, Nobody], [free0, free1])
    else if k == 11 then Mid([false, false], true, Marking(None, 1, 1, 0), Idle, both - {0} - {1},
        [Nobody, Taking(0)], [free0, free1])
    else if k == 12 then Mid([false, true], true, Marking(None, 1, 1, 1), Idle, both - {0} - {1},
        [Nobody, Taking(0)], [free0, free1])
    else Mid([false, true], true, Leaving(Alloc(1, Some(1))), Idle, both - {0} - {1}, [Nobody, Taking(0)],
        [free0, free1])
  }

  ghost function Mid(ck: seq<bool>, calendar: bool, pc0: PC, pc1: PC, live: map<nat, (nat, nat)>,
      claims: seq<Claim>, log: seq<Event>): State {
    State(false, false, ck, calendar, [pc0, pc1], live, 2, claims, log)
  }

  lemma EarlySteps(k: nat)
    requires k < 4
    ensures Next(StateAt(k), StepAt(k)) == StateAt(k + 1)
  {
    if k == 2 {
      assert Claimed([Of(0), Of(1)], 0, 1, Giving(1)) == [Giving(1), Of(1)];
    } else if k == 3 {
      assert Claimed([Giving(1), Of(1)], 0, 1, Nobody) == [Nobody, Of(1)];
    }
  }

  lemma MiddleSteps(k: nat)
    requires 4 <= k < 8
    ensures Next(StateAt(k), StepAt(k)) == StateAt(k + 1)
  {
    if k == 6 {
      assert Claimed([Nobody, Of(1)], 1, 1, Giving(1)) == [Nobody, Giving(1)];
    } else if k == 7 {
      assert Claimed([Nobody, Giving(1)], 1, 1, Nobody) == [Nobody, Nobody];
    }
  }

  lemma LateSteps(k: nat)
    requires 8 <= k < 10
    ensures Next(StateAt(k), StepAt(k)) == StateAt(k + 1)
  {
  }

  lemma TakingStep()
    ensures Next(StateAt(10), StepAt(10)) == StateAt(11)
  {
    assert Claimed([Nobody, Nobody], 1, 1, Taking(0)) == [Nobody, Taking(0)];
  }

  lemma LastSteps(k: nat)
    requires 11 <= k < 13
    ensures Next(StateAt(k), StepAt(k)) == StateAt(k + 1)
  {
  }

  lemma {:induction false} RunFrom(k: nat)
    requires k <= 13
    ensures Run(StateAt(k), OvertakenScan(k)).log == [Free(0, 1), Free(1, 1), Alloc(1, Some(1))]
    decreases 13 - k
  {
    assert OvertakenScan(k)[1..] == OvertakenScan(k + 1);
    if k < 13 {
      if k < 4 {
        EarlySteps(k);
      } else if k < 8 {
        MiddleSteps(k);
      } else if k < 10 {
        LateSteps(k);
      } else if k == 10 {
        TakingStep();
      } else {
        LastSteps(k);
      }
      RunFrom(k + 1);
    }
  }

  /** As written the pool does not linearize: this run finishes with the answer slot 1 ... */
  lemma UnlockedFreeOvertakes()
    ensures Run(StateAt(0), OvertakenScan(0)).log == [Free(0, 1), Free(1, 1), Alloc(1, Some(1))]
  {
    RunFrom(0);
  }

  lemma OvertakenScanStartsRight()
    ensures Init(StateAt(0)) && !StateAt(0).freeLocks && StateAt(0).ck == [true, true]
  {
    var st := StateAt(0);
    assert st.pcs[0].Idle? && st.pcs[1].Idle?;
    assert LiveRange(st, 0) && LiveRange(st, 1);
  }

  ghost predicate Explains(order: seq<Event>) {
    Replay([true, true], order, false).Some?
  }

  /** ... which no place for the allocation among the two frees explains. */
  lemma NoOrderExplains()
    ensures !Explains([Alloc(1, Some(1)), Free(0, 1), Free(1, 1)])
    ensures !Explains([Free(0, 1), Alloc(1, Some(1)), Free(1, 1)])
    ensures !Explains([Free(0, 1), Free(1, 1), Alloc(1, Some(1))])
  {
    AllocFirst();
    AllocBetween();
    AllocLast();
  }

  lemma AllocFirst()
    ensures !Explains([Alloc(1, Some(1)), Free(0, 1), Free(1, 1)])
  {
    var alloc := Alloc(1, Some(1));
    var ck := [true, true];
    assert ck[1] && !FreeRun(ck, 1, 1);
    Replays([true, true], [], alloc);
    Replays([true, true], [alloc], Free(0, 1));
    Replays([true, true], [alloc, Free(0, 1)], Free(1, 1));
    assert [] + [alloc] == [alloc] && [alloc] + [Free(0, 1)] == [alloc, Free(0, 1)];
    assert [alloc, Free(0, 1)] + [Free(1, 1)] == [alloc, Free(0, 1), Free(1, 1)];
  }

  lemma AllocBetween()
    ensures !Explains([Free(0, 1), Alloc(1, Some(1)), Free(1, 1)])
  {
    var alloc := Alloc(1, Some(1));
    var one := SetRange([true, true], 0, 1, false);
    FirstFitIs(one, 0, 2, 1, SmallPage);
    Replays([true, true], [], Free(0, 1));
    Replays([true, true], [Free(0, 1)], alloc);
    Replays([true, true], [Free(0, 1), alloc], Free(1, 1));
    assert [] + [Free(0, 1)] == [Free(0, 1)] && [Free(0, 1)] + [alloc] == [Free(0, 1), alloc];
    assert [Free(0, 1), alloc] + [Free(1, 1)] == [Free(0, 1), alloc, Free(1, 1)];
  }

  lemma AllocLast()
    ensures !Explains([Free(0, 1), Free(1, 1), Alloc(1, Some(1))])
  {
    var alloc := Alloc(1, Some(1));
    var two := SetRange(SetRange([true, true], 0, 1, false), 1, 1, false);
    FirstFitIs(two, 0, 2, 1, SmallPage);
    Replays([true, true], [], Free(0, 1));
    Replays([true, true], [Free(0, 1)], Free(1, 1));
    Replays([true, true], [Free(0, 1), Free(1, 1)], alloc);
    assert [] + [Free(0, 1)] == [Free(0, 1)] && [Free(0, 1)] + [Free(1, 1)] == [Free(0, 1), Free(1, 1)];
    assert [Free(0, 1), Free(1, 1)] + [alloc] == [Free(0, 1), Free(1, 1), alloc];
  }

  lemma Replays(ck: seq<bool>, log: seq<Event>, ev: Event)
    ensures Replay(ck, log + [ev], false)
            == match Replay(ck, log, false) case None => None case Some(c) => Apply(c, ev, false)
  {
    assert (log + [ev])[..|log|] == log;
  }
}
