/** The room on swap partitions. Swapping a page out claims room, and nothing in the kernel gives any
    back: neither `hardfault_handler`, that reads the page in again (runtime/mem/core.h), nor the
    releases. */
module SwapRoom {
  import opened PageTypes
  import opened Bitmap
  import opened Paging
  import opened Effects

  /** A block whose bytes are on a partition. */
  predicate Swapped(b: Block) {
    b.place.OnDisk? && b.Length() > 0
  }

  ghost predicate HeldAt(s: State, a: nat, p: nat) {
    exists o :: o in s.blocks && s.blocks[o].Stores(a, p)
  }

  /** Every page a partition counts as used has a block stored there. */
  ghost predicate RoomOwned(s: State) {
    forall a: nat, p: nat | a < |s.areas| && p < |s.areas[a].used| && s.areas[a].used[p] :: HeldAt(s, a, p)
  }

  // ----- what a step takes off disk -----

  /** The step brings the block back or gives it up. A page is brought back when there is a frame. */
  ghost predicate TakesOff(w: World, step: Step, o: Owner)
    requires o in w.s.blocks
  {
    var b := w.s.blocks[o];
    match step
    case KernelFree(id) => o == Owner.Kernel(id)
    case SysFree(pid, first, n, size) =>
      SysSize(size, n) && HasAll(w, pid, first, n, size) && o in PagesOf(pid, first, n, size)
    case HardFault(pid, page) =>
      o == Virtual(pid, page) && FirstFit(w.s.table, 0, ScanEnd(|w.s.table|), b.Length(), b.size).Some?
    case Exit(pid) => o.Virtual? && o.pid == pid
    case EvictPage(file, index) => o == FilePage(file, index)
    case _ => false
  }

  ghost predicate TakesSwapped(w: World, step: Step) {
    exists o :: o in w.s.blocks && Swapped(w.s.blocks[o]) && TakesOff(w, step, o)
  }

  // ----- a state that differs in what is on disk -----

  /** The blocks of `gone` are no longer on disk, all others as they were. */
  ghost predicate OffDisk(s: State, s': State, gone: set<Owner>) {
    && s'.areas == s.areas
    && (forall o | o in gone && o in s'.blocks :: !s'.blocks[o].place.OnDisk?)
    && (forall o | o !in gone && o in s.blocks && s.blocks[o].place.OnDisk? ::
          o in s'.blocks && s'.blocks[o] == s.blocks[o])
    && (forall o | o !in gone && o in s'.blocks && s'.blocks[o].place.OnDisk? ::
          o in s.blocks && s'.blocks[o] == s.blocks[o])
  }

  /** Their room stays used with nobody there. */
  lemma GoneLeavesRoom(s: State, s': State, gone: set<Owner>)
    requires SwapOwned(s) && RoomOwned(s) && OffDisk(s, s', gone)
    ensures RoomOwned(s') <==> forall o | o in gone && o in s.blocks :: !Swapped(s.blocks[o])
  {
    if o :| o in gone && o in s.blocks && Swapped(s.blocks[o]) {
      var a, p := s.blocks[o].place.area, s.blocks[o].place.position;
      assert s.blocks[o].Stores(a, p) && s'.areas[a].used[p];
      assert forall q | q in s'.blocks && s'.blocks[q].Stores(a, p) :: q in s.blocks && s.blocks[q].Stores(a, p);
      assert !HeldAt(s', a, p);
    } else {
      forall a: nat, p: nat | a < |s'.areas| && p < |s'.areas[a].used| && s'.areas[a].used[p]
        ensures HeldAt(s', a, p)
      {
        assert HeldAt(s, a, p);
        var o :| o in s.blocks && s.blocks[o].Stores(a, p);
        assert Swapped(s.blocks[o]);
        assert s'.blocks[o].Stores(a, p);
      }
    }
  }

  lemma AllocateStays(w: World, o: Owner, count: nat, size: PageType)
    ensures OffDisk(w.s, Allocate(w, o, count, size).s, {})
  {
    if Allocate(w, o, count, size) != w {
      BackStays(Reserve(w, o, count, size), o);
    }
  }

  lemma BackStays(w: World, o: Owner)
    requires o in w.s.blocks && w.s.blocks[o].place.Nowhere?
    ensures OffDisk(w.s, Back(w, o).s, {})
    ensures o in Back(w, o).s.blocks && !Back(w, o).s.blocks[o].place.OnDisk?
  {
  }

  lemma {:induction false} ReserveAllStays(w: World, pid: nat, page: nat, n: nat, size: PageType)
    ensures OffDisk(w.s, ReserveAll(w, pid, page, n, size).s, {})
    decreases n
  {
    if n > 0 {
      ReserveAllStays(Reserve(w, Virtual(pid, page), 1, size), pid, page + Pages(size), n - 1, size);
    }
  }

  lemma {:induction false} ReleaseAllTakes(w: World, pid: nat, page: nat, n: nat, size: PageType)
    ensures ReleaseAll(w, pid, page, n, size).s.areas == w.s.areas
    ensures ReleaseAll(w, pid, page, n, size).s.blocks == w.s.blocks - PagesOf(pid, page, n, size)
    decreases n
  {
    if n > 0 {
      PagesNext(pid, page, n, size);
      ReleaseAllTakes(Release(w, Virtual(pid, page)), pid, page + Pages(size), n - 1, size);
    }
  }

  lemma {:induction false} ReleaseSetAreas(w: World, owners: set<Owner>)
    ensures ReleaseSet(w, owners).s.areas == w.s.areas
    decreases |owners|
  {
    if owners != {} {
      var o :| o in owners && ReleaseSet(w, owners) == ReleaseSet(Release(w, o), owners - {o});
      ReleaseSetAreas(Release(w, o), owners - {o});
    }
  }

  // ----- what moves keeps its room -----

  ghost predicate SameRoom(s: State, s': State) {
    s'.areas == s.areas && forall a: nat, p: nat :: HeldAt(s', a, p) <==> HeldAt(s, a, p)
  }

  lemma RenameRoom(w: World, o: Owner, to: Owner)
    ensures SameRoom(w.s, Rename(w, o, to).s)
  {
    var s' := Rename(w, o, to).s;
    if s' != w.s {
      forall a: nat, p: nat ensures HeldAt(s', a, p) <==> HeldAt(w.s, a, p) {
        if HeldAt(w.s, a, p) {
          var q :| q in w.s.blocks && w.s.blocks[q].Stores(a, p);
          assert s'.blocks[if q == o then to else q].Stores(a, p);
        }
        if HeldAt(s', a, p) {
          var q :| q in s'.blocks && s'.blocks[q].Stores(a, p);
          assert w.s.blocks[Before(q, o, to)].Stores(a, p);
        }
      }
    }
  }

  lemma StaysRoom(s: State, s': State)
    requires OffDisk(s, s', {})
    ensures SameRoom(s, s')
  {
    forall a: nat, p: nat ensures HeldAt(s', a, p) <==> HeldAt(s, a, p) {
      if HeldAt(s, a, p) {
        var q :| q in s.blocks && s.blocks[q].Stores(a, p);
        assert s'.blocks[q].Stores(a, p);
      }
      if HeldAt(s', a, p) {
        var q :| q in s'.blocks && s'.blocks[q].Stores(a, p);
        assert s.blocks[q].Stores(a, p);
      }
    }
  }

  lemma {:induction false} ParkRoom(w: World, call: nat, pid: nat, page: nat, n: nat, size: PageType)
    ensures SameRoom(w.s, Park(w, call, pid, page, n, size).s)
  {
    if n > 0 {
      ParkRoom(w, call, pid, page, n - 1, size);
      RenameRoom(Park(w, call, pid, page, n - 1, size), Virtual(pid, At(page, n - 1, size)), Parked(call, n - 1));
    }
  }

  lemma {:induction false} ExtendRoom(w: World, call: nat, from: nat, n: nat, size: PageType)
    requires from <= n
    ensures SameRoom(w.s, Extend(w, call, from, n, size).s)
  {
    if n > from {
      var before := Extend(w, call, from, n - 1, size);
      ExtendRoom(w, call, from, n - 1, size);
      AllocateStays(before, Parked(call, n - 1), 1, size);
      StaysRoom(before.s, Allocate(before, Parked(call, n - 1), 1, size).s);
    }
  }

  lemma {:induction false} UnparkRoom(w: World, call: nat, pid: nat, page: nat, n: nat, size: PageType)
    ensures SameRoom(w.s, Unpark(w, call, pid, page, n, size).s)
  {
    if n > 0 {
      UnparkRoom(w, call, pid, page, n - 1, size);
      RenameRoom(Unpark(w, call, pid, page, n - 1, size), Parked(call, n - 1), Virtual(pid, At(page, n - 1, size)));
    }
  }

  lemma ReallocRoom(w: World, call: nat, pid: nat, page: nat, old_: nat, to: Option<nat>, new_: nat, size: PageType)
    ensures SameRoom(w.s, Realloc(w, call, pid, page, old_, to, new_, size).0.s)
  {
    if old_ <= new_ {
      var parked := Park(w, call, pid, page, old_, size);
      ParkRoom(w, call, pid, page, old_, size);
      ExtendRoom(parked, call, old_, new_, size);
      if to.Some? {
        UnparkRoom(Extend(parked, call, old_, new_, size), call, pid, to.value, new_, size);
      }
    }
  }

  /** Swapping out claims room for the page alone. */
  lemma SwapOutRoom(w: World, o: Owner)
    requires Valid(w) && RoomOwned(w.s)
    ensures RoomOwned(SwapOut(w, o).s)
  {
    var s, s' := w.s, SwapOut(w, o).s;
    if s' != s {
      var b := s'.blocks[o];
      forall a: nat, p: nat | a < |s'.areas| && p < |s'.areas[a].used| && s'.areas[a].used[p]
        ensures HeldAt(s', a, p)
      {
        if b.Stores(a, p) {
        } else {
          assert s.areas[a].used[p] && HeldAt(s, a, p);
          var q :| q in s.blocks && s.blocks[q].Stores(a, p);
          assert s'.blocks[q].Stores(a, p);
        }
      }
    }
  }

  /** Which blocks are no longer on disk after the step. */
  ghost function Gone(w: World, step: Step): set<Owner> {
    set o | o in w.s.blocks && TakesOff(w, step, o)
  }

  lemma OneGone(w: World, step: Step, o: Owner)
    requires (o.Kernel? && step == KernelFree(o.id)) || (o.FilePage? && step == EvictPage(o.file, o.index))
    ensures OffDisk(w.s, Release(w, o).s, Gone(w, step))
  {
  }

  lemma GivenUp(k: Kernel, step: Step)
    requires Valid(k.w) && !step.SwapPage? && !step.SysRealloc?
    ensures OffDisk(k.w.s, Next(k, step).w.s, Gone(k.w, step))
  {
    match step
    case KernelMalloc(id, pages, size) => AllocateStays(k.w, Owner.Kernel(id), pages, size);
    case LoadPage(file, index, size) => AllocateStays(k.w, FilePage(file, index), 1, size);
    case KernelFree(id) => OneGone(k.w, step, Owner.Kernel(id));
    case EvictPage(file, index) => OneGone(k.w, step, FilePage(file, index));
    case SysMalloc(pid, page, n, size) => ReserveAllStays(k.w, pid, page.GetOr(0), n, size);
    case SysFree(pid, page, n, size) => ReleaseAllTakes(k.w, pid, page, n, size);
    case Exit(pid) =>
      ReleaseSetKeeps(k.w, EntriesOf(k.w.s, pid));
      ReleaseSetAreas(k.w, EntriesOf(k.w.s, pid));
    case _ =>
  }

  /** Partitions go on counting exactly the pages that hold a block, over exactly the steps that neither
      bring a swapped block back nor give one up. */
  lemma NextOwnsRoom(k: Kernel, step: Step)
    requires Valid(k.w) && RoomOwned(k.w.s)
    ensures RoomOwned(Next(k, step).w.s) <==> !TakesSwapped(k.w, step)
  {
    match step
    case SwapPage(pid, page) => SwapOutRoom(k.w, Virtual(pid, page));
    case SysRealloc(call, pid, from, old_, to, new_, size) => ReallocRoom(k.w, call, pid, from, old_, to, new_, size);
    case _ =>
      GivenUp(k, step);
      GoneLeavesRoom(k.w.s, Next(k, step).w.s, Gone(k.w, step));
  }

  ghost predicate NeverTakesSwapped(k: Kernel, steps: seq<Step>)
    decreases |steps|
  {
    steps == [] || (!TakesSwapped(k.w, steps[0]) && NeverTakesSwapped(Next(k, steps[0]), steps[1..]))
  }

  /** So over whole runs of such steps each page of a partition is used exactly when one block is stored
      there. */
  lemma {:induction false} RunOwnsRoom(k: Kernel, steps: seq<Step>, a: nat, p: nat)
    requires Valid(k.w) && RoomOwned(k.w.s) && NeverTakesSwapped(k, steps)
    ensures var s := Run(k, steps).w.s;
            a < |s.areas| && p < |s.areas[a].used| ==> (s.areas[a].used[p] <==> HeldAt(s, a, p))
    decreases |steps|
  {
    if steps != [] {
      NextKeeps(k, steps[0]);
      NextOwnsRoom(k, steps[0]);
      RunOwnsRoom(Next(k, steps[0]), steps[1..], a, p);
    }
  }

  /** One page on a partition of one page, and free memory. */
  function OneSwapped(): Kernel {
    var zeros: seq<Byte> := seq(PAGE_BYTES, _ => 0);
    Kernel.Kernel(World(State([false, false], zeros + zeros, [Area([true], zeros)],
                              map[Virtual(0, 0) := Block(1, SmallPage, OnDisk(0, 0))]), map[]), map[])
  }

  lemma OneSwappedStored()
    ensures Valid(OneSwapped().w) && RoomOwned(OneSwapped().w.s)
  {
    assert OneSwapped().w.s.blocks[Virtual(0, 0)].Stores(0, 0);
  }

  /** Once the page is back nothing is on the partition, and it is full. */
  lemma PageInKeepsRoomUsed()
    ensures Valid(OneSwapped().w) && RoomOwned(OneSwapped().w.s)
    ensures var s := Next(OneSwapped(), HardFault(0, 0)).w.s;
            s.blocks[Virtual(0, 0)].place.InRam? && s.areas[0].used == [true] && !HeldAt(s, 0, 0)
  {
    var k := OneSwapped();
    OneSwappedStored();
    FirstFitIs([false, false], 0, ScanEnd(2), 1, SmallPage);
    var s := Next(k, HardFault(0, 0)).w.s;
    assert !s.blocks[Virtual(0, 0)].Stores(0, 0);
  }
}
