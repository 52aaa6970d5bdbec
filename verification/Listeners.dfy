/** File mappings, the listeners that count them, and the write-back that goes by the count.

    Each open descriptor of each process has a `maps` array marking the pages of its file it has
    mapped; each page of a file counts its listeners in a char, so modulo 256. Listeners have an array
    of their own here (the source aliases them to the pool's ckarray), FUNMAP clears the marks it
    releases, PKILL indexes listeners by the page and releases every mark once, through `maps`, and the
    write-back skips pages that are not in memory and forgets those it frees.

    Everything else is as written, also where it loses count: FMAP counts a page it had mapped
    already, marks pages before it knows whether there is address space for them, and SYSCLOSE drops
    a descriptor with its marks. `Stray` is what a step leaves the counter of a page off by. */
module Listeners {
  import opened PageTypes
  import opened Bitmap

  type Content = nat

  /** A char. */
  type Counter = c: nat | c < 256

  datatype Page = Page(memory: Option<Content>, listeners: Counter, disk: Content)

  datatype Descriptor = Descriptor(file: nat, maps: seq<bool>)

  type Table = seq<Option<Descriptor>>

  datatype State = State(files: seq<seq<Page>>, procs: seq<Table>)

  predicate Opened(st: State, q: int, s: int) {
    0 <= q < |st.procs| && 0 <= s < |st.procs[q]| && st.procs[q][s].Some?
  }

  predicate Marks(st: State, q: int, s: int, f: nat, p: nat) {
    Opened(st, q, s) &&
    var d := st.procs[q][s].value; d.file == f && p < |d.maps| && d.maps[p]
  }

  /** A descriptor's file exists, and its maps are as long as the file. */
  ghost predicate Valid(st: State) {
    forall q, s | Opened(st, q, s) ::
      var d := st.procs[q][s].value; d.file < |st.files| && |d.maps| == |st.files[d.file]|
  }

  predicate InFile(st: State, f: int, p: int) {
    0 <= f < |st.files| && 0 <= p < |st.files[f]|
  }

  /** The live descriptors whose maps mark the page. */
  ghost function Holders(st: State, f: nat, p: nat): set<(int, int)> {
    set q, s | 0 <= q < |st.procs| && 0 <= s < |st.procs[q]| && Marks(st, q, s, f, p) :: (q, s)
  }

  /** The counter of a page tells its holders, but for x. */
  ghost predicate Agrees(st: State, f: nat, p: nat, x: int)
    requires InFile(st, f, p)
  {
    st.files[f][p].listeners == (|Holders(st, f, p)| + x) % 256
  }

  // ----- the operations -----

  /** The counters of n pages moved by k, and those of the marked pages moved by k. */
  function Bump(pages: seq<Page>, first: nat, n: nat, k: nat): (r: seq<Page>)
    ensures |r| == |pages|
    ensures forall i | 0 <= i < |pages| :: r[i] == if first <= i < first + n then Moved(pages[i], k) else pages[i]
  {
    seq(|pages|, i requires 0 <= i < |pages| => if first <= i < first + n then Moved(pages[i], k) else pages[i])
  }

  function BumpMarked(pages: seq<Page>, maps: seq<bool>, k: nat): (r: seq<Page>)
    ensures |r| == |pages|
    ensures forall i | 0 <= i < |pages| :: r[i] == if i < |maps| && maps[i] then Moved(pages[i], k) else pages[i]
  {
    seq(|pages|, i requires 0 <= i < |pages| => if i < |maps| && maps[i] then Moved(pages[i], k) else pages[i])
  }

  function Moved(page: Page, k: nat): Page {
    page.(listeners := (page.listeners + k) % 256)
  }

  function WithDesc(st: State, q: nat, s: nat, d: Option<Descriptor>): State
    requires q < |st.procs| && s < |st.procs[q]|
  {
    st.(procs := st.procs[q := st.procs[q][s := d]])
  }

  /** SYS_FMAP and fmap: mark first, count once vmtree_fetch has found room. */
  ghost function FMap(st: State, q: nat, s: nat, first: nat, n: nat, room: bool): State {
    if CanMap(st, q, s, first, n) then
      var d := st.procs[q][s].value;
      var marked := WithDesc(st, q, s, Some(d.(maps := SetRange(d.maps, first, n, true))));
      if room then marked.(files := st.files[d.file := Bump(st.files[d.file], first, n, 1)]) else marked
    else st
  }

  predicate CanMap(st: State, q: nat, s: nat, first: nat, n: nat) {
    && Opened(st, q, s)
    && var d := st.procs[q][s].value; d.file < |st.files| && |d.maps| == |st.files[d.file]| && first + n <= |d.maps|
  }

  /** SYS_FUNMAP: nothing is released unless every page is marked. */
  ghost function FUnmap(st: State, q: nat, s: nat, first: nat, n: nat): State {
    if CanMap(st, q, s, first, n) && AllMarked(st.procs[q][s].value, first, n) then
      var d := st.procs[q][s].value;
      WithDesc(st, q, s, Some(d.(maps := SetRange(d.maps, first, n, false)))).(
        files := st.files[d.file := Bump(st.files[d.file], first, n, 255)])
    else st
  }

  predicate AllMarked(d: Descriptor, first: nat, n: nat)
    requires first + n <= |d.maps|
  {
    forall g | first <= g < first + n :: d.maps[g]
  }

  /** PKILL's body for one slot. */
  ghost function Drop(st: State, q: nat, s: nat): State {
    if Opened(st, q, s) && st.procs[q][s].value.file < |st.files| then
      var d := st.procs[q][s].value;
      WithDesc(st, q, s, None).(files := st.files[d.file := BumpMarked(st.files[d.file], d.maps, 255)])
    else st
  }

  ghost function KillFrom(st: State, q: nat, s: nat): State
    decreases if q < |st.procs| then |st.procs[q]| - s else 0
  {
    if q < |st.procs| && s < |st.procs[q]| then KillFrom(Drop(st, q, s), q, s + 1) else st
  }

  function Load(page: Page): Page {
    if page.memory.None? then page.(memory := Some(page.disk)) else page
  }

  function WriteBack(page: Page): Page {
    if page.listeners == 0 && page.memory.Some? then page.(disk := page.memory.value, memory := None) else page
  }

  function WriteBackAll(pages: seq<Page>): (r: seq<Page>)
    ensures |r| == |pages| && forall i | 0 <= i < |pages| :: r[i] == WriteBack(pages[i])
  {
    seq(|pages|, i requires 0 <= i < |pages| => WriteBack(pages[i]))
  }

  datatype Step =
    | Start(slots: nat)
    | Open(q: nat, s: nat, file: nat)
    | Map(q: nat, s: nat, first: nat, n: nat, room: bool)
    | Unmap(q: nat, s: nat, first: nat, n: nat)
    | Close(q: nat, s: nat)
    | Kill(q: nat)
    | Touch(f: nat, p: nat)
    | Store(f: nat, p: nat, value: Content)
    | Cycle

  function WithPage(st: State, f: nat, p: nat, page: Page): State
    requires InFile(st, f, p)
  {
    st.(files := st.files[f := st.files[f][p := page]])
  }

  ghost function Next(st: State, step: Step): State {
    match step
    case Start(slots) => st.(procs := st.procs + [seq(slots, _ => None)])
    case Open(q, s, f) =>
      if q < |st.procs| && s < |st.procs[q]| && st.procs[q][s].None? && f < |st.files|
      then WithDesc(st, q, s, Some(Descriptor(f, seq(|st.files[f]|, _ => false)))) else st
    case Map(q, s, first, n, room) => FMap(st, q, s, first, n, room)
    case Unmap(q, s, first, n) => FUnmap(st, q, s, first, n)
    case Close(q, s) => if Opened(st, q, s) then WithDesc(st, q, s, None) else st
    case Kill(q) => KillFrom(st, q, 0)
    case Touch(f, p) => if InFile(st, f, p) then WithPage(st, f, p, Load(st.files[f][p])) else st
    case Store(f, p, v) => if InFile(st, f, p) then WithPage(st, f, p, st.files[f][p].(memory := Some(v))) else st
    case Cycle => st.(files := seq(|st.files|, f requires 0 <= f < |st.files| => WriteBackAll(st.files[f])))
  }

  ghost function Run(st: State, steps: seq<Step>): State
    decreases |steps|
  {
    if steps == [] then st else Run(Next(st, steps[0]), steps[1..])
  }

  /** How far a step pulls the counter of a page away from its holders. */
  ghost function Stray(st: State, step: Step, f: nat, p: nat): int {
    match step
    case Map(q, s, first, n, room) =>
      if CanMap(st, q, s, first, n) && st.procs[q][s].value.file == f && first <= p < first + n then
        (if room then 1 else 0) - (if Marks(st, q, s, f, p) then 0 else 1)
      else 0
    case Close(q, s) => if Marks(st, q, s, f, p) then 1 else 0
    case _ => 0
  }

  ghost function Strays(st: State, steps: seq<Step>, f: nat, p: nat): int
    decreases |steps|
  {
    if steps == [] then 0 else Stray(st, steps[0], f, p) + Strays(Next(st, steps[0]), steps[1..], f, p)
  }

  // ----- conservation -----

  lemma HoldersChange(st: State, q: nat, s: nat, d: Option<Descriptor>, files: seq<seq<Page>>, f: nat, p: nat)
    requires q < |st.procs| && s < |st.procs[q]|
    ensures var st' := WithDesc(st, q, s, d).(files := files);
            |Holders(st', f, p)|
            == |Holders(st, f, p)| - (if Marks(st, q, s, f, p) then 1 else 0)
               + (if Marks(st', q, s, f, p) then 1 else 0)
  {
    var st' := WithDesc(st, q, s, d).(files := files);
    var before, after := Holders(st, f, p), Holders(st', f, p);
    assert (q, s) in before <==> Marks(st, q, s, f, p);
    assert (q, s) in after <==> Marks(st', q, s, f, p);
    forall e: (int, int) | e != (q, s) ensures e in before <==> e in after {
    }
    SameButFor(before, after, (q, s));
  }

  lemma SameButFor(before: set<(int, int)>, after: set<(int, int)>, x: (int, int))
    requires forall e | e != x :: e in before <==> e in after
    ensures |after| == |before| - (if x in before then 1 else 0) + (if x in after then 1 else 0)
  {
    assert before - {x} == after - {x};
    Without(before, x);
    Without(after, x);
  }

  lemma Without<T>(all: set<T>, x: T)
    ensures |all| == |all - {x}| + if x in all then 1 else 0
  {
    assert all == all - {x} + if x in all then {x} else {};
  }

  lemma StartAgrees(st: State, slots: nat, f: nat, p: nat, x: int)
    requires Valid(st) && InFile(st, f, p) && Agrees(st, f, p, x)
    ensures Valid(Next(st, Start(slots))) && Agrees(Next(st, Start(slots)), f, p, x)
  {
    var st' := Next(st, Start(slots));
    assert forall a, b | Opened(st', a, b) :: Opened(st, a, b) && st'.procs[a][b] == st.procs[a][b];
    assert forall a, b :: Marks(st, a, b, f, p) <==> Marks(st', a, b, f, p);
    assert Holders(st', f, p) == Holders(st, f, p);
  }

  /** One slot and the counters of its file change. */
  lemma SlotAgrees(st: State, st': State, q: nat, s: nat, d: Option<Descriptor>, f: nat, p: nat, x: int, y: int)
    requires Valid(st) && InFile(st, f, p) && Agrees(st, f, p, x)
    requires q < |st.procs| && s < |st.procs[q]| && st' == WithDesc(st, q, s, d).(files := st'.files)
    requires SameShape(st, st') && (d.Some? ==> d.value.file < |st.files| && |d.value.maps| == |st.files[d.value.file]|)
    requires st'.files[f][p].listeners == (st.files[f][p].listeners + y - x
      + (if Marks(st', q, s, f, p) then 1 else 0) - (if Marks(st, q, s, f, p) then 1 else 0)) % 256
    ensures Valid(st') && Agrees(st', f, p, y)
  {
    HoldersChange(st, q, s, d, st'.files, f, p);
    assert forall a, b | Opened(st', a, b) ::
        (a, b) == (q, s) || (Opened(st, a, b) && st'.procs[a][b] == st.procs[a][b]);
  }

  ghost predicate SameShape(st: State, st': State) {
    |st'.files| == |st.files| && forall g | 0 <= g < |st.files| :: |st'.files[g]| == |st.files[g]|
  }

  lemma MapAgrees(st: State, q: nat, s: nat, first: nat, n: nat, room: bool, f: nat, p: nat, x: int)
    requires Valid(st) && InFile(st, f, p) && Agrees(st, f, p, x)
    ensures var step := Map(q, s, first, n, room);
            Valid(Next(st, step)) && SameShape(st, Next(st, step))
                && Agrees(Next(st, step), f, p, x + Stray(st, step, f, p))
  {
    if CanMap(st, q, s, first, n) {
      var st' := FMap(st, q, s, first, n, room);
      SlotAgrees(st, st', q, s, st'.procs[q][s], f, p, x, x + Stray(st, Map(q, s, first, n, room), f, p));
    }
  }

  lemma UnmapAgrees(st: State, q: nat, s: nat, first: nat, n: nat, f: nat, p: nat, x: int)
    requires Valid(st) && InFile(st, f, p) && Agrees(st, f, p, x)
    ensures var st' := FUnmap(st, q, s, first, n); Valid(st') && SameShape(st, st') && Agrees(st', f, p, x)
  {
    if CanMap(st, q, s, first, n) && AllMarked(st.procs[q][s].value, first, n) {
      var st' := FUnmap(st, q, s, first, n);
      SlotAgrees(st, st', q, s, st'.procs[q][s], f, p, x, x);
    }
  }

  lemma OpenAgrees(st: State, q: nat, s: nat, file: nat, f: nat, p: nat, x: int)
    requires Valid(st) && InFile(st, f, p) && Agrees(st, f, p, x)
    ensures var st' := Next(st, Open(q, s, file)); Valid(st') && SameShape(st, st') && Agrees(st', f, p, x)
  {
    var st' := Next(st, Open(q, s, file));
    if q < |st.procs| && s < |st.procs[q]| && st.procs[q][s].None? && file < |st.files| {
      SlotAgrees(st, st', q, s, st'.procs[q][s], f, p, x, x);
    }
  }

  lemma CloseAgrees(st: State, q: nat, s: nat, f: nat, p: nat, x: int)
    requires Valid(st) && InFile(st, f, p) && Agrees(st, f, p, x)
    ensures var st' := Next(st, Close(q, s));
            Valid(st') && SameShape(st, st') && Agrees(st', f, p, x + Stray(st, Close(q, s), f, p))
  {
    if Opened(st, q, s) {
      SlotAgrees(st, Next(st, Close(q, s)), q, s, None, f, p, x, x + Stray(st, Close(q, s), f, p));
    }
  }

  lemma DropAgrees(st: State, q: nat, s: nat, f: nat, p: nat, x: int)
    requires Valid(st) && InFile(st, f, p) && Agrees(st, f, p, x)
    ensures var st' := Drop(st, q, s); Valid(st') && SameShape(st, st') && Agrees(st', f, p, x)
  {
    if Opened(st, q, s) {
      SlotAgrees(st, Drop(st, q, s), q, s, None, f, p, x, x);
    }
  }

  lemma {:induction false} KillAgrees(st: State, q: nat, s: nat, f: nat, p: nat, x: int)
    requires Valid(st) && InFile(st, f, p) && Agrees(st, f, p, x)
    ensures var st' := KillFrom(st, q, s); Valid(st') && SameShape(st, st') && Agrees(st', f, p, x)
    decreases if q < |st.procs| then |st.procs[q]| - s else 0
  {
    if q < |st.procs| && s < |st.procs[q]| {
      DropAgrees(st, q, s, f, p, x);
      KillAgrees(Drop(st, q, s), q, s + 1, f, p, x);
    }
  }

  /** Descriptors and counters stay, whatever happens to the contents. */
  lemma ContentsAgree(st: State, st': State, f: nat, p: nat, x: int)
    requires Valid(st) && InFile(st, f, p) && Agrees(st, f, p, x)
    requires st'.procs == st.procs && SameShape(st, st')
    requires forall g, h | InFile(st, g, h) :: st'.files[g][h].listeners == st.files[g][h].listeners
    ensures Valid(st') && Agrees(st', f, p, x)
  {
    assert forall a, b | Opened(st', a, b) :: Opened(st, a, b) && st'.procs[a][b] == st.procs[a][b];
    assert forall g, h | InFile(st', g, h) :: InFile(st, g, h) && st'.files[g][h].listeners == st.files[g][h].listeners;
    assert forall a, b :: Marks(st, a, b, f, p) <==> Marks(st', a, b, f, p);
    assert Holders(st', f, p) == Holders(st, f, p);
  }

  lemma PageStepAgrees(st: State, step: Step, f: nat, p: nat, x: int)
    requires Valid(st) && InFile(st, f, p) && Agrees(st, f, p, x) && (step.Touch? || step.Store? || step.Cycle?)
    ensures var st' := Next(st, step); Valid(st') && SameShape(st, st') && Agrees(st', f, p, x)
  {
    ContentsAgree(st, Next(st, step), f, p, x);
  }

  /** Every step moves a page's counter with its holders, but for its stray. */
  lemma NextAgrees(st: State, step: Step, f: nat, p: nat, x: int)
    requires Valid(st) && InFile(st, f, p) && Agrees(st, f, p, x)
    ensures var st' := Next(st, step); Valid(st') && SameShape(st, st') && Agrees(st', f, p, x + Stray(st, step, f, p))
  {
    match step
    case Start(slots) => StartAgrees(st, slots, f, p, x);
    case Open(q, s, g) => OpenAgrees(st, q, s, g, f, p, x);
    case Map(q, s, first, n, room) => MapAgrees(st, q, s, first, n, room, f, p, x);
    case Unmap(q, s, first, n) => UnmapAgrees(st, q, s, first, n, f, p, x);
    case Close(q, s) => CloseAgrees(st, q, s, f, p, x);
    case Kill(q) => KillAgrees(st, q, 0, f, p, x);
    case Touch(_, _) => PageStepAgrees(st, step, f, p, x);
    case Store(_, _, _) => PageStepAgrees(st, step, f, p, x);
    case Cycle => PageStepAgrees(st, step, f, p, x);
  }

  lemma {:induction false} RunAgrees(st: State, steps: seq<Step>, f: nat, p: nat, x: int)
    requires Valid(st) && InFile(st, f, p) && Agrees(st, f, p, x)
    ensures var st' := Run(st, steps);
            Valid(st') && SameShape(st, st') && Agrees(st', f, p, x + Strays(st, steps, f, p))
    decreases |steps|
  {
    if steps != [] {
      NextAgrees(st, steps[0], f, p, x);
      RunAgrees(Next(st, steps[0]), steps[1..], f, p, x + Stray(st, steps[0], f, p));
    }
  }

  /** No process yet, no listener yet. */
  ghost predicate Init(st: State) {
    st.procs == [] && forall f, p | InFile(st, f, p) :: st.files[f][p].listeners == 0
  }

  /** Listener conservation, over every run: the counter of a page is the number of live descriptors
      that mark it, plus the strays of the run, modulo 256. */
  lemma ListenersCountHolders(st: State, steps: seq<Step>, f: nat, p: nat)
    requires Init(st) && InFile(st, f, p)
    ensures InFile(Run(st, steps), f, p) && Agrees(Run(st, steps), f, p, Strays(st, steps, f, p))
  {
    assert Holders(st, f, p) == {};
    RunAgrees(st, steps, f, p, 0);
  }

  lemma OnlyZeroStray(st: State, f: nat, p: nat, x: int)
    requires InFile(st, f, p) && Agrees(st, f, p, x) && -1 <= x <= 1
    ensures Agrees(st, f, p, 0) <==> x == 0
  {
    var c := |Holders(st, f, p)|;
    assert (c + 1) % 256 != c % 256 && (c - 1) % 256 != c % 256;
  }

  ghost predicate Conserved(st: State, f: nat) {
    forall p: nat | InFile(st, f, p) :: Agrees(st, f, p, 0)
  }

  /** FMAP keeps the counts of its file right exactly when it finds room and has none of the pages
      mapped yet, or finds none and has them all already. */
  lemma MapConserves(st: State, q: nat, s: nat, first: nat, n: nat, room: bool)
    requires Valid(st) && CanMap(st, q, s, first, n) && Conserved(st, st.procs[q][s].value.file)
    ensures Conserved(Next(st, Map(q, s, first, n, room)), st.procs[q][s].value.file)
            <==> forall g | first <= g < first + n :: st.procs[q][s].value.maps[g] != room
  {
    var d := st.procs[q][s].value;
    var step := Map(q, s, first, n, room);
    forall p: nat | InFile(st, d.file, p)
      ensures Agrees(Next(st, step), d.file, p, 0) <==> (first <= p < first + n ==> d.maps[p] != room)
    {
      MapAgrees(st, q, s, first, n, room, d.file, p, 0);
      OnlyZeroStray(Next(st, step), d.file, p, Stray(st, step, d.file, p));
    }
    var st' := Next(st, step);
    assert forall p :: InFile(st', d.file, p) <==> InFile(st, d.file, p);
  }

  /** SYSCLOSE keeps them right exactly when the descriptor has nothing mapped. */
  lemma CloseConserves(st: State, q: nat, s: nat)
    requires Valid(st) && Opened(st, q, s) && Conserved(st, st.procs[q][s].value.file)
    ensures Conserved(Next(st, Close(q, s)), st.procs[q][s].value.file) <==> true !in st.procs[q][s].value.maps
  {
    var d := st.procs[q][s].value;
    var step := Close(q, s);
    forall p: nat | InFile(st, d.file, p) ensures Agrees(Next(st, step), d.file, p, 0) <==> !d.maps[p] {
      NextAgrees(st, step, d.file, p, 0);
      OnlyZeroStray(Next(st, step), d.file, p, Stray(st, step, d.file, p));
    }
    assert forall p :: InFile(Next(st, step), d.file, p) <==> InFile(st, d.file, p);
  }

  /** One process with a descriptor of a file of one page, that it has mapped. */
  function OneMapped(): State {
    State([[Page(Some(0), 1, 0)]], [[Some(Descriptor(0, [true]))]])
  }

  lemma OneMappedIsRight()
    ensures Valid(OneMapped()) && Conserved(OneMapped(), 0)
  {
    var st := OneMapped();
    assert forall q, s | Opened(st, q, s) :: q == 0 && s == 0;
    assert Marks(st, 0, 0, 0, 0);
    assert Holders(st, 0, 0) == {(0, 0)};
    assert forall p: nat | InFile(st, 0, p) :: p == 0;
  }

  /** Mapping the page again through the same descriptor miscounts it. */
  lemma MappedTwiceMiscounts()
    ensures Conserved(OneMapped(), 0) && !Conserved(Next(OneMapped(), Map(0, 0, 0, 1, true)), 0)
  {
    OneMappedIsRight();
    assert OneMapped().procs[0][0].value.maps[0];
    MapConserves(OneMapped(), 0, 0, 0, 1, true);
  }

  /** So does closing the descriptor. */
  lemma ClosedMappedMiscounts()
    ensures Conserved(OneMapped(), 0) && !Conserved(Next(OneMapped(), Close(0, 0)), 0)
  {
    OneMappedIsRight();
    assert OneMapped().procs[0][0].value.maps[0];
    CloseConserves(OneMapped(), 0, 0);
  }
}
