/** Paging seen through the page tree: the machine of Paging finds an entry by its owner, the hardware
    by walking the tree. In any tree that holds a process' entries both come to the same byte. */
module Translation {
  import opened PageTypes
  import opened PageTree
  import opened Paging

  /** The level of the table an entry of that size sits in. */
  function Depth(size: PageType): nat {
    match size
    case Lev4 => 0
    case BigPage => 1
    case MidPage => 2
    case SmallPage => 3
  }

  /** The block is one page, in line with its size and within the tree, as vmtree_fetch finds it. */
  predicate InLine(o: Owner, b: Block) {
    o.Virtual? ==>
      && b.count == 1 && b.size != Lev4 && o.page % Pages(b.size) == 0
      && (o.page + Pages(b.size)) * PAGE_BYTES <= VIRTUAL_END
  }

  ghost predicate Aligned(s: State) {
    forall o | o in s.blocks :: InLine(o, s.blocks[o])
  }

  /** Where in the tree the entry of o is. */
  function Slot(o: Owner, b: Block): nat
    requires o.Virtual?
  {
    Index(Depth(b.size), o.page * PAGE_BYTES)
  }

  /** What the hardware sees of the block. */
  predicate Shows(e: Entry, b: Block) {
    && (e.present <==> b.place.InRam?)
    && (e.large <==> b.size != SmallPage)
    && (b.place.InRam? ==> e.frame == b.place.frame * PAGE_BYTES)
  }

  /** The tree holds the entries of the process; the rest of it is free but for the tables above them. */
  ghost predicate Enters(t: seq<Entry>, s: State, pid: nat) {
    && Linked(t)
    && forall o | o in s.blocks && o.Virtual? && o.pid == pid ::
         && Slot(o, s.blocks[o]) < TREE && Shows(t[Slot(o, s.blocks[o])], s.blocks[o])
         && ClearAbove(t, Depth(s.blocks[o].size), o.page * PAGE_BYTES)
  }

  // ----- the walk finds the entry -----

  lemma PageIs(page: nat, size: PageType, vm: nat)
    requires size != Lev4 && page % Pages(size) == 0 && page <= vm / PAGE_BYTES < page + Pages(size)
    ensures Quot(vm, Depth(size)) == Quot(page * PAGE_BYTES, Depth(size))
    ensures Rem(vm, Depth(size)) == vm - page * PAGE_BYTES
  {
    match size
    case BigPage => InPage(page / (512 * 512), vm, 1);
    case MidPage => InPage(page / 512, vm, 2);
    case SmallPage => InPage(page, vm, 3);
  }

  lemma InPage(q: nat, vm: nat, depth: nat)
    requires depth <= 3 && Times(q, depth) <= vm < Times(q + 1, depth)
    ensures Quot(vm, depth) == q == Quot(Times(q, depth), depth) && Rem(vm, depth) == vm - Times(q, depth)
  {
  }

  lemma InEntry(s: State, pid: nat, vm: nat, o: Owner)
    requires Aligned(s) && LiesIn(s, pid, vm, o)
    ensures var (b, start) := (s.blocks[o], o.page * PAGE_BYTES);
            && vm < VIRTUAL_END && b.size != Lev4
            && Index(Depth(b.size), vm) == Slot(o, b)
            && Rem(vm, Depth(b.size)) == Offset(o, vm)
            && forall d | 0 <= d <= Depth(b.size) :: Quot(vm, d) == Quot(start, d)
  {
    var b := s.blocks[o];
    assert InLine(o, b) && b.Length() == Pages(b.size);
    PageIs(o.page, b.size, vm);
    SameAbove(Depth(b.size), vm, o.page * PAGE_BYTES);
  }

  /** In a tree with the process' entries the walk for an address lands on the entry that spans it, and
      that leads to the block's frame. */
  lemma WalkFindsEntry(t: seq<Entry>, s: State, pid: nat, vm: nat, o: Owner)
    requires Enters(t, s, pid) && Aligned(s) && LiesIn(s, pid, vm, o)
    ensures vm < VIRTUAL_END && Walk(t, 0, 0, 3, vm) == Some((Slot(o, s.blocks[o]), Depth(s.blocks[o].size)))
    ensures Shows(t[Slot(o, s.blocks[o])], s.blocks[o])
    ensures s.blocks[o].place.InRam? ==>
              VmToPhys(t, vm) == s.blocks[o].place.frame * PAGE_BYTES + Offset(o, vm)
  {
    var depth := Depth(s.blocks[o].size);
    InEntry(s, pid, vm, o);
    ClearStays(t, t, depth, o.page * PAGE_BYTES, vm);
    LandingIs(t, depth, vm, 3);
    WalkIsClosedForm(t, vm, 3);
  }

  /** And to the byte that the entry's owner finds. */
  lemma WalkReadsByte(t: seq<Entry>, w: World, pid: nat, vm: nat, o: Owner)
    requires Valid(w) && Enters(t, w.s, pid) && Aligned(w.s) && LiesIn(w.s, pid, vm, o) && w.s.blocks[o].place.InRam?
    ensures vm < VIRTUAL_END && VmToPhys(t, vm) < |w.s.ram|
    ensures Load(w.s, pid, vm) == Some(w.s.ram[VmToPhys(t, vm)])
  {
    WalkFindsEntry(t, w.s, pid, vm, o);
    LoadIs(w.s, pid, vm, o);
    InMemory(w, o, Offset(o, vm));
  }

  lemma InMemory(w: World, o: Owner, off: nat)
    requires Valid(w) && o in w.s.blocks && w.s.blocks[o].place.InRam? && off < w.s.blocks[o].Bytes()
    ensures w.s.blocks[o].place.frame * PAGE_BYTES + off < |w.s.ram|
  {
  }

  // ----- entries stay in line -----

  /** The addresses the step is given are such as vmtree_fetch answers. */
  predicate Fetched(step: Step) {
    match step
    case SysMalloc(_, page, n, size) => page.Some? ==> RunInLine(page.value, n, size)
    case SysRealloc(_, _, _, _, to, new_, size) => size != Lev4 && (to.Some? ==> RunInLine(to.value, new_, size))
    case _ => true
  }

  predicate RunInLine(page: nat, n: nat, size: PageType) {
    page % Pages(size) == 0 && At(page, n, size) * PAGE_BYTES <= VIRTUAL_END
  }

  lemma PageInLine(page: nat, h: nat, n: nat, size: PageType, place: Place, pid: nat)
    requires RunInLine(page, n, size) && h < n && size != Lev4
    ensures InLine(Virtual(pid, At(page, h, size)), Block(1, size, place))
  {
    AtEnd(page, h, n, size);
    AtMultiple(page, h, size);
  }

  lemma AtMultiple(page: nat, h: nat, size: PageType)
    requires page % Pages(size) == 0
    ensures At(page, h, size) % Pages(size) == 0
  {
    match size
    case Lev4 =>
    case BigPage =>
    case MidPage =>
    case SmallPage =>
  }

  /** The blocks are as many and as large as before, whatever their places. */
  ghost predicate SameShape(s: State, s': State) {
    forall o | o in s'.blocks && o.Virtual? ::
      o in s.blocks && s'.blocks[o].(place := Nowhere) == s.blocks[o].(place := Nowhere)
  }

  lemma ShapeAligned(s: State, s': State)
    requires Aligned(s) && SameShape(s, s')
    ensures Aligned(s')
  {
    forall o | o in s'.blocks ensures InLine(o, s'.blocks[o]) {
      if o.Virtual? {
        assert InLine(o, s.blocks[o]);
      }
    }
  }

  lemma {:induction false} ReserveAllAligned(w: World, pid: nat, page: nat, n: nat, size: PageType)
    requires Aligned(w.s) && RunInLine(page, n, size) && size != Lev4
    ensures Aligned(ReserveAll(w, pid, page, n, size).s)
    decreases n
  {
    if n > 0 {
      AtNext(page, n - 1, size);
      PageInLine(page, 0, n, size, Nowhere, pid);
      assert At(page, 0, size) == page;
      NextInLine(page, n, size);
      ReserveAllAligned(Paging.Reserve(w, Virtual(pid, page), 1, size), pid, page + Pages(size), n - 1, size);
    }
  }

  lemma NextInLine(page: nat, n: nat, size: PageType)
    requires RunInLine(page, n, size) && n > 0
    ensures RunInLine(page + Pages(size), n - 1, size)
  {
    AtNext(page, n - 1, size);
    NextMultiple(page, size);
  }

  lemma NextMultiple(page: nat, size: PageType)
    requires page % Pages(size) == 0
    ensures (page + Pages(size)) % Pages(size) == 0
  {
    match size
    case Lev4 =>
    case BigPage =>
    case MidPage =>
    case SmallPage =>
  }

  lemma {:induction false} ReleaseAllShape(w: World, pid: nat, page: nat, n: nat, size: PageType)
    ensures SameShape(w.s, ReleaseAll(w, pid, page, n, size).s)
    decreases n
  {
    if n > 0 {
      ReleaseAllShape(Release(w, Virtual(pid, page)), pid, page + Pages(size), n - 1, size);
    }
  }

  /** The slots of the array are single pages of the size. */
  ghost predicate Sized(s: State, call: nat, size: PageType) {
    forall h: nat | Parked(call, h) in s.blocks ::
      s.blocks[Parked(call, h)].count == 1 && s.blocks[Parked(call, h)].size == size
  }

  lemma {:induction false} ParkShape(w: World, call: nat, pid: nat, page: nat, n: nat, size: PageType)
    requires HasAll(w, pid, page, n, size) && Unused(w, call)
    ensures SameShape(w.s, Park(w, call, pid, page, n, size).s)
    ensures Sized(Park(w, call, pid, page, n, size).s, call, size)
  {
    if n > 0 {
      ParkShape(w, call, pid, page, n - 1, size);
      var parked := Park(w, call, pid, page, n - 1, size);
      var o := Virtual(pid, At(page, n - 1, size));
      assert o in w.s.blocks && w.s.blocks[o].(place := Nowhere) == Block(1, size, Nowhere);
      assert o in parked.s.blocks ==> parked.s.blocks[o].count == 1 && parked.s.blocks[o].size == size;
    }
  }

  lemma AllocateShape(w: World, call: nat, h: nat, size: PageType)
    requires Sized(w.s, call, size)
    ensures SameShape(w.s, Allocate(w, Parked(call, h), 1, size).s)
    ensures Sized(Allocate(w, Parked(call, h), 1, size).s, call, size)
  {
  }

  lemma {:induction false} ExtendShape(w: World, call: nat, from: nat, n: nat, size: PageType)
    requires from <= n && Sized(w.s, call, size)
    ensures SameShape(w.s, Extend(w, call, from, n, size).s) && Sized(Extend(w, call, from, n, size).s, call, size)
  {
    if n > from {
      ExtendShape(w, call, from, n - 1, size);
      AllocateShape(Extend(w, call, from, n - 1, size), call, n - 1, size);
    }
  }

  lemma {:induction false} UnparkAligned(w: World, call: nat, pid: nat, page: nat, n: nat, all: nat, size: PageType)
    requires Aligned(w.s) && Sized(w.s, call, size) && size != Lev4 && n <= all && RunInLine(page, all, size)
    ensures Aligned(Unpark(w, call, pid, page, n, size).s) && Sized(Unpark(w, call, pid, page, n, size).s, call, size)
  {
    if n > 0 {
      UnparkAligned(w, call, pid, page, n - 1, all, size);
      var before, slot := Unpark(w, call, pid, page, n - 1, size), Parked(call, n - 1);
      if slot in before.s.blocks {
        PageInLine(page, n - 1, all, size, before.s.blocks[slot].place, pid);
      }
    }
  }

  lemma ReallocAligned(w: World, call: nat, pid: nat, page: nat, old_: nat, to: Option<nat>, new_: nat,
      size: PageType)
    requires Aligned(w.s) && size != Lev4 && (to.Some? ==> RunInLine(to.value, new_, size))
    ensures Aligned(Realloc(w, call, pid, page, old_, to, new_, size).0.s)
  {
    if old_ <= new_ && HasAll(w, pid, page, old_, size) && Unused(w, call) {
      var parked := Park(w, call, pid, page, old_, size);
      var longer := Extend(parked, call, old_, new_, size);
      ParkShape(w, call, pid, page, old_, size);
      ShapeAligned(w.s, parked.s);
      ExtendShape(parked, call, old_, new_, size);
      ShapeAligned(parked.s, longer.s);
      if to.Some? {
        UnparkAligned(longer, call, pid, to.value, new_, new_, size);
      }
    }
  }

  /** Every step keeps entries in line that is given addresses in line. */
  lemma NextAligned(k: Kernel, step: Step)
    requires Aligned(k.w.s) && Fetched(step)
    ensures Aligned(Next(k, step).w.s)
  {
    match step
    case SysMalloc(pid, page, n, size) =>
      if page.Some? && size != Lev4 {
        ReserveAllAligned(k.w, pid, page.value, n, size);
      }
    case SysRealloc(call, pid, from, old_, to, new_, size) =>
      ReallocAligned(k.w, call, pid, from, old_, to, new_, size);
    case SysFree(pid, page, n, size) =>
      ReleaseAllShape(k.w, pid, page, n, size);
      ShapeAligned(k.w.s, ReleaseAll(k.w, pid, page, n, size).s);
    case Exit(pid) =>
      ReleaseSetShape(k.w, EntriesOf(k.w.s, pid));
      ShapeAligned(k.w.s, Next(k, step).w.s);
    case _ =>
      assert SameShape(k.w.s, Next(k, step).w.s);
      ShapeAligned(k.w.s, Next(k, step).w.s);
  }

  lemma {:induction false} ReleaseSetShape(w: World, owners: set<Owner>)
    ensures SameShape(w.s, ReleaseSet(w, owners).s)
    decreases |owners|
  {
    if owners != {} {
      var o :| o in owners && ReleaseSet(w, owners) == ReleaseSet(Release(w, o), owners - {o});
      ReleaseSetShape(Release(w, o), owners - {o});
    }
  }

  lemma {:induction false} RunAligned(k: Kernel, steps: seq<Step>)
    requires Aligned(k.w.s) && forall i | 0 <= i < |steps| :: Fetched(steps[i])
    ensures Aligned(Run(k, steps).w.s)
    decreases |steps|
  {
    if steps != [] {
      NextAligned(k, steps[0]);
      RunAligned(Next(k, steps[0]), steps[1..]);
    }
  }

  // ----- from the store to the load, through the hardware -----

  /** After any steps that neither store at the address nor give its page up, the walk in the process'
      tree lands on an entry; where that is present memory holds the byte last stored at the address it
      translates to, and where it is not the page is on disk, for the fault to bring back. */
  lemma PagingIsInvisible(k: Kernel, pid: nat, vm: nat, value: Byte, steps: seq<Step>, t: seq<Entry>)
    requires Valid(k.w) && Aligned(k.w.s) && Resident(k.w.s, pid, vm)
    requires forall i | 0 <= i < |steps| :: !Hits(steps[i], pid, vm) && Fetched(steps[i])
    requires Enters(t, Run(Next(k, StoreAt(k.w.s, pid, vm, value)), steps).w.s, pid)
    ensures var s := Run(Next(k, StoreAt(k.w.s, pid, vm, value)), steps).w.s;
            && vm < VIRTUAL_END && Walk(t, 0, 0, 3, vm).Some? && Walk(t, 0, 0, 3, vm).value.0 < |t|
            && var e := t[Walk(t, 0, 0, 3, vm).value.0];
            && (e.present ==> VmToPhys(t, vm) < |s.ram| && s.ram[VmToPhys(t, vm)] == value)
            && (!e.present ==> exists o :: LiesIn(s, pid, vm, o) && s.blocks[o].place.OnDisk?)
  {
    var step := StoreAt(k.w.s, pid, vm, value);
    var end := Run(Next(k, step), steps);
    LoadReturnsLastStore(k, pid, vm, value, steps);
    NextAligned(k, step);
    RunAligned(Next(k, step), steps);
    NextKeeps(k, step);
    RunsKeep(Next(k, step), steps);
    var o :| LiesIn(end.w.s, pid, vm, o);
    WalkFindsEntry(t, end.w.s, pid, vm, o);
    LoadIs(end.w.s, pid, vm, o);
    if end.w.s.blocks[o].place.InRam? {
      WalkReadsByte(t, end.w, pid, vm, o);
    }
  }

  // ----- there is such a tree -----

  ghost predicate OwnsSlot(s: State, pid: nat, o: Owner, k: nat) {
    o in s.blocks && o.Virtual? && o.pid == pid && Slot(o, s.blocks[o]) == k
  }

  ghost function EntryAt(s: State, pid: nat, k: nat): Entry {
    if exists o :: OwnsSlot(s, pid, o, k) then
      var o :| OwnsSlot(s, pid, o, k);
      EntryFor(s.blocks[o])
    else DefaultEntry(k)
  }

  function EntryFor(b: Block): Entry {
    match b.place
    case Nowhere => Entry(false, false, b.size != SmallPage, true, Mode.Reserve, 0)
    case InRam(frame) => Entry(true, false, b.size != SmallPage, true, Mode.Reserve, frame * PAGE_BYTES)
    case OnDisk(_, position) => Entry(false, false, b.size != SmallPage, true, Mode.Swapped, position)
  }

  /** A freshly laid tree with the process' entries written into it. */
  ghost function TreeFor(s: State, pid: nat): (t: seq<Entry>)
    ensures |t| == TREE
  {
    seq(TREE, k requires 0 <= k < TREE => EntryAt(s, pid, k))
  }

  lemma SameQuot(page: nat, size: PageType, vm: nat)
    requires size != Lev4 && page % Pages(size) == 0
    requires Quot(vm, Depth(size)) == Quot(page * PAGE_BYTES, Depth(size))
    ensures page <= vm / PAGE_BYTES < page + Pages(size)
  {
    match size
    case BigPage =>
    case MidPage =>
    case SmallPage =>
  }

  lemma SlotSpans(o: Owner, b: Block, vm: nat)
    requires o.Virtual? && InLine(o, b) && vm < VIRTUAL_END && Slot(o, b) == Index(Depth(b.size), vm)
    ensures Spans(o, b, o.pid, vm / PAGE_BYTES)
  {
    SameQuot(o.page, b.size, vm);
  }

  lemma SlotOfDepth(o: Owner, b: Block)
    requires o.Virtual? && InLine(o, b)
    ensures Slot(o, b) < TREE && DepthOf(Slot(o, b)) == Depth(b.size)
  {
    IndexBound(Depth(b.size), o.page * PAGE_BYTES);
  }

  /** Two entries in one slot would span one page. */
  lemma OneInSlot(s: State, pid: nat, o: Owner, q: Owner, k: nat)
    requires OneEntry(s) && Aligned(s) && OwnsSlot(s, pid, o, k) && OwnsSlot(s, pid, q, k)
    ensures o == q
  {
    var b, c, start := s.blocks[o], s.blocks[q], o.page * PAGE_BYTES;
    SlotOfDepth(o, b);
    SlotOfDepth(q, c);
    SlotSpans(o, b, start);
    SlotSpans(q, c, start);
    assert Spans(o, b, pid, start / PAGE_BYTES) && Spans(q, c, pid, start / PAGE_BYTES);
  }

  lemma WrittenInTree(s: State, pid: nat, o: Owner)
    requires OneEntry(s) && Aligned(s) && o in s.blocks && o.Virtual? && o.pid == pid
    ensures Slot(o, s.blocks[o]) < TREE && TreeFor(s, pid)[Slot(o, s.blocks[o])] == EntryFor(s.blocks[o])
  {
    var k := Slot(o, s.blocks[o]);
    SlotOfDepth(o, s.blocks[o]);
    assert OwnsSlot(s, pid, o, k);
    var q :| OwnsSlot(s, pid, q, k) && EntryAt(s, pid, k) == EntryFor(s.blocks[q]);
    OneInSlot(s, pid, o, q, k);
  }

  /** A large page above an entry would span its page too. */
  lemma NoneAbove(s: State, pid: nat, o: Owner, d: nat)
    requires OneEntry(s) && Aligned(s) && o in s.blocks && o.Virtual? && o.pid == pid && d < Depth(s.blocks[o].size)
    ensures Index(d, o.page * PAGE_BYTES) < TREE && !TreeFor(s, pid)[Index(d, o.page * PAGE_BYTES)].large
  {
    var b, start := s.blocks[o], o.page * PAGE_BYTES;
    var k := Index(d, start);
    assert InLine(o, b) && Spans(o, b, pid, start / PAGE_BYTES);
    IndexBound(d, start);
    if q :| OwnsSlot(s, pid, q, k) {
      SlotOfDepth(q, s.blocks[q]);
      SlotSpans(q, s.blocks[q], start);
    }
  }

  /** Entries that lie over no other, in line, can all be in one tree. */
  lemma TreeForEnters(s: State, pid: nat)
    requires OneEntry(s) && Aligned(s)
    ensures Enters(TreeFor(s, pid), s, pid)
  {
    var t := TreeFor(s, pid);
    forall k | 0 <= k < LEVEL3 ensures t[k].large || t[k].frame == ChildTable(k) {
      if o :| OwnsSlot(s, pid, o, k) && EntryAt(s, pid, k) == EntryFor(s.blocks[o]) {
        SlotOfDepth(o, s.blocks[o]);
      }
    }
    forall o | o in s.blocks && o.Virtual? && o.pid == pid
      ensures Slot(o, s.blocks[o]) < TREE && Shows(t[Slot(o, s.blocks[o])], s.blocks[o])
      ensures ClearAbove(t, Depth(s.blocks[o].size), o.page * PAGE_BYTES)
    {
      WrittenInTree(s, pid, o);
      forall d: nat | d < Depth(s.blocks[o].size)
        ensures Index(d, o.page * PAGE_BYTES) < TREE && !t[Index(d, o.page * PAGE_BYTES)].large
      {
        NoneAbove(s, pid, o, d);
      }
    }
  }
}
