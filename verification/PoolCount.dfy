/** `count` of the pool beside its lock. An operation that has its answer reads the count, and writes it
    back changed in another step, before it leaves; a realloc changes it once for both of its halves. */
module PoolCount {
  import opened PageTypes
  import opened PoolLock
  import Pool

  datatype Cell = Untouched | Loaded(value: int) | Stored

  datatype Counted = Counted(st: State, count: int, cells: seq<Cell>)

  datatype Action = Move(step: Step) | Load(p: nat) | Write(p: nat)

  /** What the finished operation adds to the occupied slots. */
  function Change(ev: Event): int {
    match ev
    case Alloc(n, result) => if result.Some? then n else 0
    case Free(_, length) => 0 - length
    case Realloc(_, length, n, result) => (if result.Some? then n else 0) - length
  }

  predicate Leaves(c: Counted, p: nat) {
    p < |c.st.pcs| == |c.cells| && c.st.pcs[p].Leaving?
  }

  ghost function Act(c: Counted, a: Action): Counted {
    match a
    case Move(step) =>
      if step.Work? && Leaves(c, step.p) then
        if c.cells[step.p].Stored? then Counted(Next(c.st, step), c.count, c.cells[step.p := Untouched]) else c
      else c.(st := Next(c.st, step))
    case Load(p) =>
      if Leaves(c, p) && c.cells[p].Untouched? then c.(cells := c.cells[p := Loaded(c.count)]) else c
    case Write(p) =>
      if Leaves(c, p) && c.cells[p].Loaded? then
        c.(count := c.cells[p].value + Change(c.st.pcs[p].ev), cells := c.cells[p := Stored])
      else c
  }

  ghost function RunCounted(c: Counted, actions: seq<Action>): Counted
    decreases |actions|
  {
    if actions == [] then c else RunCounted(Act(c, actions[0]), actions[1..])
  }

  /** How far a write falls behind the count it replaces: what others added since its read, taken back. */
  function Stale(c: Counted, a: Action): int {
    if a.Write? && Leaves(c, a.p) && c.cells[a.p].Loaded? then c.cells[a.p].value - c.count else 0
  }

  ghost function Drift(c: Counted, actions: seq<Action>): int
    decreases |actions|
  {
    if actions == [] then 0 else Stale(c, actions[0]) + Drift(Act(c, actions[0]), actions[1..])
  }

  function Released(was: Was): nat {
    match was
    case None => 0
    case Some((_, length)) => length
  }

  /** By how much the count is ahead of the slots for what a processor has under way. */
  function Ahead(pc: PC, cell: Cell): int {
    match pc
    case Idle => 0
    case Scanning(was, _, _, _) => Released(was)
    case Marking(was, _, _, k) => Released(was) - k
    case Clearing(_, _, _, k) => k
    case Leaving(ev) => if cell.Stored? then 0 else -Change(ev)
  }

  function AllAhead(pcs: seq<PC>, cells: seq<Cell>): int
    requires |pcs| == |cells|
  {
    var last := |pcs| - 1;
    if pcs == [] then 0 else AllAhead(pcs[..last], cells[..last]) + Ahead(pcs[last], cells[last])
  }

  lemma {:induction false} AheadUpdate(pcs: seq<PC>, cells: seq<Cell>, p: nat, pc: PC, cell: Cell)
    requires |pcs| == |cells| && p < |pcs|
    ensures AllAhead(pcs[p := pc], cells[p := cell])
            == AllAhead(pcs, cells) - Ahead(pcs[p], cells[p]) + Ahead(pc, cell)
  {
    var last := |pcs| - 1;
    if p < last {
      assert pcs[p := pc][..last] == pcs[..last][p := pc] && cells[p := cell][..last] == cells[..last][p := cell];
      AheadUpdate(pcs[..last], cells[..last], p, pc, cell);
    } else {
      assert pcs[p := pc][..last] == pcs[..last] && cells[p := cell][..last] == cells[..last];
    }
  }

  ghost predicate Shape(c: Counted) {
    && Safe(c.st) && |c.cells| == |c.st.pcs|
    && forall p | 0 <= p < |c.cells| && !c.st.pcs[p].Leaving? :: c.cells[p].Untouched?
  }

  /** Count, slots and what is under way balance, but for what was lost. */
  ghost predicate Balanced(c: Counted, drift: int) {
    Shape(c) && c.count == Pool.Occupied(c.st.ck) + AllAhead(c.st.pcs, c.cells) + drift
  }

  /** The step of p moves the slots as it moves what p is ahead by. */
  ghost predicate Moves(st: State, p: nat, st': State)
    requires p < |st.pcs|
  {
    && |st'.pcs| == |st.pcs| && st'.pcs == st.pcs[p := st'.pcs[p]]
    && Pool.Occupied(st'.ck) + Ahead(st'.pcs[p], Untouched) == Pool.Occupied(st.ck) + Ahead(st.pcs[p], Untouched)
  }

  lemma GrowMoves(st: State, p: nat)
    requires Safe(st) && p < |st.pcs| && st.pcs[p].Scanning? && st.pcs[p].i >= |st.ck| && st.grow
    ensures Moves(st, p, Advance(st, p))
  {
    var n := st.pcs[p].n;
    Pool.OccupiedAppend(st.ck, Pool.Fill(true, n));
    Pool.OccupiedNone(Pool.Fill(true, n));
  }

  lemma ScanMoves(st: State, p: nat)
    requires Safe(st) && p < |st.pcs| && st.pcs[p].Scanning? && (st.pcs[p].i < |st.ck| || !st.grow)
    ensures Moves(st, p, Advance(st, p))
  {
    assert Advance(st, p).ck == st.ck;
  }

  lemma MarkMoves(st: State, p: nat)
    requires Safe(st) && p < |st.pcs| && st.pcs[p].Marking?
    ensures Moves(st, p, Advance(st, p))
  {
    var Marking(_, n, first, k) := st.pcs[p];
    assert Local(st, p);
    if k < n {
      MarkOneMoves(st, p);
    }
  }

  lemma MarkOneMoves(st: State, p: nat)
    requires Safe(st) && p < |st.pcs| && st.pcs[p].Marking? && st.pcs[p].k < st.pcs[p].n
    ensures Moves(st, p, Advance(st, p))
  {
    var at := st.pcs[p].first + st.pcs[p].k;
    assert Local(st, p) && !st.ck[at];
    Pool.OccupiedUpdate(st.ck, at, true);
  }

  lemma ClearMoves(st: State, p: nat)
    requires Safe(st) && p < |st.pcs| && st.pcs[p].Clearing?
    ensures Moves(st, p, Advance(st, p))
  {
    assert Local(st, p);
    if st.pcs[p].k < st.pcs[p].n {
      ClearOneMoves(st, p);
    }
  }

  lemma ClearOneMoves(st: State, p: nat)
    requires Safe(st) && p < |st.pcs| && st.pcs[p].Clearing? && st.pcs[p].k < st.pcs[p].n
    ensures Moves(st, p, Advance(st, p))
  {
    var at := st.pcs[p].first + st.pcs[p].k;
    assert Local(st, p) && st.claims[at] == Giving(p) && st.ck[at];
    Pool.OccupiedUpdate(st.ck, at, false);
  }

  lemma WorkMoves(st: State, p: nat)
    requires Safe(st) && p < |st.pcs| && !st.pcs[p].Leaving?
    ensures Moves(st, p, Advance(st, p))
  {
    match st.pcs[p]
    case Idle => assert st.pcs[p := Idle] == st.pcs;
    case Scanning(_, _, i, _) =>
      if i >= |st.ck| && st.grow {
        GrowMoves(st, p);
      } else {
        ScanMoves(st, p);
      }
    case Marking(_, _, _, _) => MarkMoves(st, p);
    case Clearing(_, _, _, _) => ClearMoves(st, p);
  }

  lemma SameCell(cells: seq<Cell>, p: nat)
    requires p < |cells|
    ensures cells[p := cells[p]] == cells
  {
  }

  lemma MoveBalances(c: Counted, step: Step, drift: int)
    requires Balanced(c, drift)
    ensures Balanced(Act(c, Move(step)), drift)
  {
    var c', p := Act(c, Move(step)), step.p;
    NextIsSafe(c.st, step);
    if p < |c.st.pcs| {
      SameCell(c.cells, p);
      if Leaves(c, p) {
        if step.Work? && c.cells[p].Stored? {
          AheadUpdate(c.st.pcs, c.cells, p, Idle, Untouched);
        }
      } else if step.Work? {
        WorkMoves(c.st, p);
        AheadUpdate(c.st.pcs, c.cells, p, c'.st.pcs[p], c.cells[p]);
      } else if c'.st != c.st {
        AheadUpdate(c.st.pcs, c.cells, p, c'.st.pcs[p], c.cells[p]);
      }
    }
  }

  lemma CellBalances(c: Counted, a: Action, drift: int)
    requires Balanced(c, drift) && !a.Move?
    ensures Balanced(Act(c, a), drift + Stale(c, a))
  {
    if Leaves(c, a.p) {
      var pc := c.st.pcs[a.p];
      assert c.st.pcs[a.p := pc] == c.st.pcs;
      AheadUpdate(c.st.pcs, c.cells, a.p, pc, Act(c, a).cells[a.p]);
    }
  }

  lemma {:induction false} RunBalances(c: Counted, actions: seq<Action>, drift: int)
    requires Balanced(c, drift)
    ensures Balanced(RunCounted(c, actions), drift + Drift(c, actions))
    decreases |actions|
  {
    if actions != [] {
      var a := actions[0];
      match a {
        case Move(step) => MoveBalances(c, step, drift);
        case _ => CellBalances(c, a, drift);
      }
      RunBalances(Act(c, a), actions[1..], drift + Stale(c, a));
    }
  }

  ghost predicate InitCounted(c: Counted) {
    && Init(c.st) && |c.cells| == |c.st.pcs| && c.count == Pool.Occupied(c.st.ck)
    && forall p | 0 <= p < |c.cells| :: c.cells[p].Untouched?
  }

  lemma {:induction false} NoneAhead(pcs: seq<PC>, cells: seq<Cell>)
    requires |pcs| == |cells| && forall p | 0 <= p < |pcs| :: pcs[p].Idle?
    ensures AllAhead(pcs, cells) == 0
  {
    if pcs != [] {
      NoneAhead(pcs[..|pcs| - 1], cells[..|pcs| - 1]);
    }
  }

  /** Over every run, with free locked or as written, whenever no operation is under way the count is
      off by exactly what stale writes took back. */
  lemma CountDrifts(c: Counted, actions: seq<Action>)
    requires InitCounted(c)
    ensures var s := RunCounted(c, actions);
            (forall p | 0 <= p < |s.st.pcs| :: s.st.pcs[p].Idle?) ==>
              s.count == Pool.Occupied(s.st.ck) + Drift(c, actions)
  {
    RunIsSafe(c.st, []);
    NoneAhead(c.st.pcs, c.cells);
    RunBalances(c, actions, 0);
    var s := RunCounted(c, actions);
    if forall p | 0 <= p < |s.st.pcs| :: s.st.pcs[p].Idle? {
      NoneAhead(s.st.pcs, s.cells);
    }
  }

  // ----- with free under the lock -----

  /** A count read is still the count. */
  ghost predicate Current(c: Counted) {
    Shape(c) && c.st.freeLocks && forall p | 0 <= p < |c.cells| && c.cells[p].Loaded? :: c.cells[p].value == c.count
  }

  lemma ActStaysCurrent(c: Counted, a: Action)
    requires Current(c)
    ensures Current(Act(c, a)) && Stale(c, a) == 0
  {
    OneAtATime(c.st);
    match a
    case Move(step) =>
      NextIsSafe(c.st, step);
      NextKeepsMode(c.st, step);
      NextMovesOne(c.st, step);
    case Load(_) =>
    case Write(p) =>
      if Leaves(c, p) {
        assert forall q | 0 <= q < |c.cells| && c.cells[q].Loaded? :: Busy(c.st, q) && Busy(c.st, p);
      }
  }

  /** Only the processor of the step moves, and it leaves by working alone. */
  lemma NextMovesOne(st: State, step: Step)
    ensures |Next(st, step).pcs| == |st.pcs|
    ensures forall q | 0 <= q < |st.pcs| && q != step.p :: Next(st, step).pcs[q] == st.pcs[q]
    ensures !step.Work? && step.p < |st.pcs| && st.pcs[step.p].Leaving? ==> Next(st, step) == st
  {
    if step.Work? && step.p < |st.pcs| {
      AdvanceMovesOne(st, step.p);
    }
  }

  lemma AdvanceMovesOne(st: State, p: nat)
    requires p < |st.pcs|
    ensures |Advance(st, p).pcs| == |st.pcs|
    ensures forall q | 0 <= q < |st.pcs| && q != p :: Advance(st, p).pcs[q] == st.pcs[q]
  {
    var pcs := Advance(st, p).pcs;
    match st.pcs[p]
    case Idle =>
    case Scanning(_, _, _, _) => assert pcs == st.pcs[p := pcs[p]];
    case Marking(_, _, _, _) => assert pcs == st.pcs[p := pcs[p]];
    case Clearing(_, _, _, _) => assert pcs == st.pcs[p := pcs[p]];
    case Leaving(_) => assert pcs == st.pcs[p := Idle];
  }

  lemma {:induction false} RunStaysCurrent(c: Counted, actions: seq<Action>)
    requires Current(c)
    ensures Current(RunCounted(c, actions)) && Drift(c, actions) == 0
    decreases |actions|
  {
    if actions != [] {
      ActStaysCurrent(c, actions[0]);
      RunStaysCurrent(Act(c, actions[0]), actions[1..]);
    }
  }

  /** With free under the lock nothing is lost: whenever calendar is 0 the count is the number of
      occupied slots. */
  lemma LockedCountIsRight(c: Counted, actions: seq<Action>)
    requires InitCounted(c) && c.st.freeLocks
    ensures var s := RunCounted(c, actions); !s.st.calendar ==> s.count == Pool.Occupied(s.st.ck)
  {
    RunIsSafe(c.st, []);
    RunStaysCurrent(c, actions);
    CountDrifts(c, actions);
    var s := RunCounted(c, actions);
    if !s.st.calendar {
      forall p | 0 <= p < |s.st.pcs| ensures s.st.pcs[p].Idle? {
        assert !Inside(s.st, p);
      }
    }
  }

  // ----- with free as written -----

  /** Two processors free the two single slots of TwoInUse, each reading the count before the other has
      written it. */
  function Race(): seq<Action> {
    [Move(BeginFree(0, 0)), Move(BeginFree(1, 1)), Move(Work(0)), Move(Work(1)), Move(Work(0)), Move(Work(1)),
     Load(0), Load(1), Write(0), Write(1), Move(Work(0)), Move(Work(1))]
  }

  ghost function RaceStart(): Counted {
    Counted(TwoInUse(), 2, [Untouched, Untouched])
  }

  /** Both slots are clear and neither free has left. */
  ghost function BothCleared(count: int, cells: seq<Cell>): Counted {
    Counted(State(false, false, [false, false], false, [Leaving(Free(0, 1)), Leaving(Free(1, 1))],
                  map[0 := (0, 1), 1 := (1, 1)] - {0} - {1}, 2, [Nobody, Nobody], []), count, cells)
  }

  lemma RaceClears(c: Counted, race: seq<Action>)
    requires c == RaceStart() && race == Race()
    ensures RunCounted(c, race) == RunCounted(BothCleared(2, [Untouched, Untouched]), race[6..])
  {
    var live, cells := map[0 := (0, 1), 1 := (1, 1)], [Untouched, Untouched];
    var c1 := Counted(State(false, false, [true, true], false, [Clearing(None, 0, 1, 0), Idle], live - {0}, 2,
                            [Giving(0), Of(1)], []), 2, cells);
    var c2 := Counted(State(false, false, [true, true], false, [Clearing(None, 0, 1, 0), Clearing(None, 1, 1, 0)],
                            live - {0} - {1}, 2, [Giving(0), Giving(1)], []), 2, cells);
    var c3 := Counted(State(false, false, [false, true], false, [Clearing(None, 0, 1, 1), Clearing(None, 1, 1, 0)],
                            live - {0} - {1}, 2, [Nobody, Giving(1)], []), 2, cells);
    var c4 := Counted(State(false, false, [false, false], false, [Clearing(None, 0, 1, 1), Clearing(None, 1, 1, 1)],
                            live - {0} - {1}, 2, [Nobody, Nobody], []), 2, cells);
    var c5 := Counted(State(false, false, [false, false], false, [Leaving(Free(0, 1)), Clearing(None, 1, 1, 1)],
                            live - {0} - {1}, 2, [Nobody, Nobody], []), 2, cells);
    assert Claimed([Of(0), Of(1)], 0, 1, Giving(0)) == [Giving(0), Of(1)];
    assert Act(c, race[0]) == c1;
    assert Claimed([Giving(0), Of(1)], 1, 1, Giving(1)) == [Giving(0), Giving(1)];
    assert Act(c1, race[1]) == c2;
    assert Claimed([Giving(0), Giving(1)], 0, 1, Nobody) == [Nobody, Giving(1)];
    assert Act(c2, race[2]) == c3;
    assert Claimed([Nobody, Giving(1)], 1, 1, Nobody) == [Nobody, Nobody];
    assert Act(c3, race[3]) == c4;
    assert Act(c4, race[4]) == c5;
    assert Act(c5, race[5]) == BothCleared(2, cells);
    Unfold(c, race, 0);
    Unfold(c1, race, 1);
    Unfold(c2, race, 2);
    Unfold(c3, race, 3);
    Unfold(c4, race, 4);
    Unfold(c5, race, 5);
    assert race[0..] == race;
  }

  lemma Unfold(c: Counted, actions: seq<Action>, k: nat)
    requires k < |actions|
    ensures RunCounted(c, actions[k..]) == RunCounted(Act(c, actions[k]), actions[k + 1..])
  {
    assert actions[k..][1..] == actions[k + 1..];
  }

  lemma RaceWrites(race: seq<Action>)
    requires race == Race()
    ensures RunCounted(BothCleared(2, [Untouched, Untouched]), race[6..])
            == RunCounted(BothCleared(1, [Stored, Stored]), race[10..])
  {
    var c6 := BothCleared(2, [Untouched, Untouched]);
    var c7 := BothCleared(2, [Loaded(2), Untouched]);
    var c8 := BothCleared(2, [Loaded(2), Loaded(2)]);
    var c9 := BothCleared(1, [Stored, Loaded(2)]);
    assert Act(c6, race[6]) == c7;
    assert Act(c7, race[7]) == c8;
    assert Act(c8, race[8]) == c9;
    assert Act(c9, race[9]) == BothCleared(1, [Stored, Stored]);
    Unfold(c6, race, 6);
    Unfold(c7, race, 7);
    Unfold(c8, race, 8);
    Unfold(c9, race, 9);
  }

  lemma RaceEnds(race: seq<Action>)
    requires race == Race()
    ensures var s := RunCounted(BothCleared(1, [Stored, Stored]), race[10..]);
            s.st.pcs == [Idle, Idle] && s.st.ck == [false, false] && s.count == 1
  {
    var c10 := BothCleared(1, [Stored, Stored]);
    var c11 := Act(c10, race[10]);
    assert c11.st.pcs == [Idle, Leaving(Free(1, 1))] && c11.st.ck == [false, false] && c11.count == 1;
    Unfold(c10, race, 10);
    Unfold(c11, race, 11);
    assert race[12..] == [];
  }

  lemma RaceStartsRight()
    ensures InitCounted(RaceStart()) && !RaceStart().st.freeLocks
  {
    OvertakenScanStartsRight();
    Pool.OccupiedNone([true, true]);
  }

  /** Then no operation is under way, no slot is in use and the count is 1. */
  lemma UnlockedCountRaces(c: Counted, race: seq<Action>)
    requires c == RaceStart() && race == Race()
    ensures InitCounted(c) && !c.st.freeLocks
    ensures var s := RunCounted(c, race);
            s.st.pcs == [Idle, Idle] && s.count == 1 && Pool.Occupied(s.st.ck) == 0
  {
    RaceStartsRight();
    RaceClears(c, race);
    RaceWrites(race);
    RaceEnds(race);
    Pool.OccupiedNone([false, false]);
  }
}
