/** What the counters of 018/019 and `mem_realloc` do to `used_memory` and to the frames they move. */
module Accounting {
  import opened PageTypes
  import opened Bitmap
  import opened Paging
  import opened Effects
  import opened Moves

  // ----- the pages a process reserved -----

  function Cost(o: Owner, b: Block, pid: nat): nat {
    if o.Virtual? && o.pid == pid then b.Length() else 0
  }

  ghost function ReservedBy(blocks: map<Owner, Block>, pid: nat): nat
    decreases |blocks|
  {
    if blocks == map[] then 0
    else
      var o :| o in blocks;
      Cost(o, blocks[o], pid) + ReservedBy(blocks - {o}, pid)
  }

  lemma {:induction false} ReservedRemove(blocks: map<Owner, Block>, o: Owner, pid: nat)
    requires o in blocks
    ensures ReservedBy(blocks, pid) == Cost(o, blocks[o], pid) + ReservedBy(blocks - {o}, pid)
    decreases |blocks|
  {
    var q :| q in blocks && ReservedBy(blocks, pid) == Cost(q, blocks[q], pid) + ReservedBy(blocks - {q}, pid);
    if q != o {
      ReservedRemove(blocks - {q}, o, pid);
      ReservedRemove(blocks - {o}, q, pid);
      assert blocks - {q} - {o} == blocks - {o} - {q};
    }
  }

  lemma ReservedInsert(blocks: map<Owner, Block>, o: Owner, b: Block, pid: nat)
    requires o !in blocks
    ensures ReservedBy(blocks[o := b], pid) == Cost(o, b, pid) + ReservedBy(blocks, pid)
  {
    ReservedRemove(blocks[o := b], o, pid);
    assert blocks[o := b] - {o} == blocks;
  }

  lemma ReservedUpdate(blocks: map<Owner, Block>, o: Owner, b: Block, pid: nat)
    requires o in blocks && b.Length() == blocks[o].Length()
    ensures ReservedBy(blocks[o := b], pid) == ReservedBy(blocks, pid)
  {
    ReservedRemove(blocks, o, pid);
    ReservedRemove(blocks[o := b], o, pid);
    assert blocks[o := b] - {o} == blocks - {o};
  }

  ghost predicate Accounted(k: Kernel) {
    forall pid: nat :: UsedBy(k, pid) == ReservedBy(k.w.s.blocks, pid)
  }

  /** The steps after which used_memory is still right: a free must hit pages the process reserved
      (the source subtracts even when mem_free refused), and a realloc, which nothing accounts for,
      must end with as many pages as it began with. */
  ghost predicate Balanced(k: Kernel, step: Step) {
    match step
    case SysFree(pid, first, n, size) => !SysSize(size, n) || n == 0 || HasAll(k.w, pid, first, n, size)
    case SysRealloc(call, pid, from, old_, to, new_, size) =>
      || old_ > new_ || !HasAll(k.w, pid, from, old_, size) || !Unused(k.w, call)
      || if ReallocFits(k.w, pid, from, old_, to, new_, size) then new_ == old_ else old_ == 0
    case _ => true
  }

  // ----- runs of pages -----

  lemma OneMore(n: int, size: PageType)
    ensures n * Pages(size) == (n - 1) * Pages(size) + Pages(size)
  {
  }

  /** Where there is room for n pages the first is entered, and there is room for the rest behind it. */
  lemma FirstEntered(w: World, pid: nat, page: nat, n: nat, size: PageType, q: nat)
    requires n > 0 && HasNone(w, pid, page, n, size)
    ensures var w' := Reserve(w, Virtual(pid, page), 1, size);
            && ReservedBy(w'.s.blocks, q) == ReservedBy(w.s.blocks, q) + (if q == pid then Pages(size) else 0)
            && HasNone(w', pid, page + Pages(size), n - 1, size)
  {
    OneMore(n, size);
    ReservedInsert(w.s.blocks, Virtual(pid, page), Block(1, size, Nowhere), q);
  }

  lemma {:induction false} ReserveAllCost(w: World, pid: nat, page: nat, n: nat, size: PageType, q: nat)
    requires HasNone(w, pid, page, n, size)
    ensures ReservedBy(ReserveAll(w, pid, page, n, size).s.blocks, q)
         == ReservedBy(w.s.blocks, q) + if q == pid then n * Pages(size) else 0
    decreases n
  {
    if n > 0 {
      FirstEntered(w, pid, page, n, size, q);
      ReserveAllCost(Reserve(w, Virtual(pid, page), 1, size), pid, page + Pages(size), n - 1, size, q);
      OneMore(n, size);
    }
  }

  lemma FirstReleased(w: World, pid: nat, page: nat, n: nat, size: PageType)
    requires n > 0 && HasAll(w, pid, page, n, size)
    ensures Virtual(pid, page) in w.s.blocks && w.s.blocks[Virtual(pid, page)].Length() == Pages(size)
    ensures HasAll(Release(w, Virtual(pid, page)), pid, page + Pages(size), n - 1, size)
  {
    assert At(page, 0, size) == page;
    var w', next := Release(w, Virtual(pid, page)), page + Pages(size);
    forall h: nat | h < n - 1
      ensures Virtual(pid, At(next, h, size)) in w'.s.blocks
      ensures w'.s.blocks[Virtual(pid, At(next, h, size))].(place := Nowhere) == Block(1, size, Nowhere)
    {
      AtNext(page, h, size);
      AtEnd(page, 0, h + 1, size);
    }
  }

  lemma {:induction false} ReleaseAllCost(w: World, pid: nat, page: nat, n: nat, size: PageType, q: nat)
    requires HasAll(w, pid, page, n, size)
    ensures ReservedBy(ReleaseAll(w, pid, page, n, size).s.blocks, q)
         == ReservedBy(w.s.blocks, q) - if q == pid then n * Pages(size) else 0
    decreases n
  {
    if n > 0 {
      FirstReleased(w, pid, page, n, size);
      ReservedRemove(w.s.blocks, Virtual(pid, page), q);
      ReleaseAllCost(Release(w, Virtual(pid, page)), pid, page + Pages(size), n - 1, size, q);
      OneMore(n, size);
    }
  }

  lemma {:induction false} ReleaseSetCost(w: World, owners: set<Owner>, pid: nat, q: nat)
    requires owners == EntriesOf(w.s, pid)
    ensures ReservedBy(ReleaseSet(w, owners).s.blocks, q) == if q == pid then 0 else ReservedBy(w.s.blocks, q)
    decreases |owners|
  {
    if owners == {} {
      if q == pid {
        forall o | o in w.s.blocks ensures !(o.Virtual? && o.pid == pid) {
          assert o !in EntriesOf(w.s, pid);
        }
        NoneReserved(w.s.blocks, pid);
      }
    } else {
      var o :| o in owners && ReleaseSet(w, owners) == ReleaseSet(Release(w, o), owners - {o});
      ReservedRemove(w.s.blocks, o, q);
      ReleaseSetCost(Release(w, o), owners - {o}, pid, q);
    }
  }

  lemma {:induction false} NoneReserved(blocks: map<Owner, Block>, pid: nat)
    requires forall o | o in blocks :: !(o.Virtual? && o.pid == pid)
    ensures ReservedBy(blocks, pid) == 0
    decreases |blocks|
  {
    if blocks != map[] {
      var o :| o in blocks && ReservedBy(blocks, pid) == Cost(o, blocks[o], pid) + ReservedBy(blocks - {o}, pid);
      assert Cost(o, blocks[o], pid) == 0;
      NoneReserved(blocks - {o}, pid);
    }
  }

  lemma ParkStep(w: World, call: nat, pid: nat, page: nat, n: nat, size: PageType, q: nat)
    requires n > 0 && HasAll(w, pid, page, n, size) && Unused(w, call)
    ensures ReservedBy(Park(w, call, pid, page, n, size).s.blocks, q)
         == ReservedBy(Park(w, call, pid, page, n - 1, size).s.blocks, q) - if q == pid then Pages(size) else 0
  {
    var before := Park(w, call, pid, page, n - 1, size);
    var last := Virtual(pid, At(page, n - 1, size));
    ParkLast(w, call, pid, page, n, size);
    RenameCost(before, last, Parked(call, n - 1), q);
  }

  lemma {:induction false} ParkCost(w: World, call: nat, pid: nat, page: nat, n: nat, size: PageType, q: nat)
    requires HasAll(w, pid, page, n, size) && Unused(w, call)
    ensures ReservedBy(Park(w, call, pid, page, n, size).s.blocks, q)
         == ReservedBy(w.s.blocks, q) - if q == pid then n * Pages(size) else 0
  {
    if n > 0 {
      ParkCost(w, call, pid, page, n - 1, size, q);
      ParkStep(w, call, pid, page, n, size, q);
      OneMore(n, size);
    }
  }

  lemma RenameCost(w: World, o: Owner, to: Owner, q: nat)
    requires o in w.s.blocks && to !in w.s.blocks && Room(w.s, to, w.s.blocks[o].Length())
    ensures ReservedBy(Rename(w, o, to).s.blocks, q)
         == ReservedBy(w.s.blocks, q) - Cost(o, w.s.blocks[o], q) + Cost(to, w.s.blocks[o], q)
  {
    ReservedRemove(w.s.blocks, o, q);
    ReservedInsert(w.s.blocks - {o}, to, w.s.blocks[o], q);
  }

  lemma AllocateCost(w: World, o: Owner, count: nat, size: PageType, q: nat)
    requires !o.Virtual?
    ensures ReservedBy(Allocate(w, o, count, size).s.blocks, q) == ReservedBy(w.s.blocks, q)
  {
    if o !in w.s.blocks {
      var reserved := Reserve(w, o, count, size);
      ReservedInsert(w.s.blocks, o, Block(count, size, Nowhere), q);
      var backed := Back(reserved, o);
      ReservedUpdate(reserved.s.blocks, o, backed.s.blocks[o], q);
      if backed.s.blocks[o].place.Nowhere? {
        ReservedRemove(backed.s.blocks, o, q);
      }
    }
  }

  lemma {:induction false} ExtendCost(w: World, call: nat, from: nat, n: nat, size: PageType, q: nat)
    requires from <= n
    ensures ReservedBy(Extend(w, call, from, n, size).s.blocks, q) == ReservedBy(w.s.blocks, q)
  {
    if n > from {
      ExtendCost(w, call, from, n - 1, size, q);
      AllocateCost(Extend(w, call, from, n - 1, size), Parked(call, n - 1), 1, size, q);
    }
  }

  lemma UnparkStep(w: World, call: nat, pid: nat, page: nat, n: nat, size: PageType, q: nat)
    requires n > 0 && Slots(w, call, n, size) && HasNone(w, pid, page, n, size)
    ensures ReservedBy(Unpark(w, call, pid, page, n, size).s.blocks, q)
         == ReservedBy(Unpark(w, call, pid, page, n - 1, size).s.blocks, q) + if q == pid then Pages(size) else 0
  {
    UnparkLast(w, call, pid, page, n, size);
    RenameCost(Unpark(w, call, pid, page, n - 1, size), Parked(call, n - 1), Virtual(pid, At(page, n - 1, size)), q);
  }

  lemma {:induction false} UnparkCost(w: World, call: nat, pid: nat, page: nat, n: nat, size: PageType, q: nat)
    requires Slots(w, call, n, size) && HasNone(w, pid, page, n, size)
    ensures ReservedBy(Unpark(w, call, pid, page, n, size).s.blocks, q)
         == ReservedBy(w.s.blocks, q) + if q == pid then n * Pages(size) else 0
  {
    if n > 0 {
      FewerPages(w, pid, page, n, size);
      UnparkCost(w, call, pid, page, n - 1, size, q);
      UnparkStep(w, call, pid, page, n, size, q);
      OneMore(n, size);
    }
  }

  lemma ReallocCost(w: World, call: nat, pid: nat, page: nat, old_: nat, to: Option<nat>, new_: nat,
      size: PageType, q: nat)
    requires old_ <= new_ && HasAll(w, pid, page, old_, size) && Unused(w, call)
    ensures var r := Realloc(w, call, pid, page, old_, to, new_, size);
            ReservedBy(r.0.s.blocks, q) == ReservedBy(w.s.blocks, q)
              + if q != pid then 0 else (if r.1 then new_ * Pages(size) else 0) - old_ * Pages(size)
  {
    ParkCost(w, call, pid, page, old_, size, q);
    if Realloc(w, call, pid, page, old_, to, new_, size).1 {
      var parked := Park(w, call, pid, page, old_, size);
      ExtendCost(parked, call, old_, new_, size, q);
      ReadyToUnpark(w, call, pid, page, old_, to.value, new_, size);
      UnparkCost(Extend(parked, call, old_, new_, size), call, pid, to.value, new_, size, q);
    }
  }

  // ----- used_memory -----

  /** What the step adds to the pages process q has reserved. */
  ghost function Added(k: Kernel, step: Step, q: nat): int {
    match step
    case SysMalloc(pid, page, n, size) =>
      if pid != q || !SysSize(size, n) || page.None? || !HasNone(k.w, pid, page.value, n, size) then 0
      else n * Pages(size)
    case SysFree(pid, first, n, size) =>
      if pid != q || !SysSize(size, n) || !HasAll(k.w, pid, first, n, size) then 0 else -(n * Pages(size))
    case SysRealloc(call, pid, from, old_, to, new_, size) =>
      if pid != q || old_ > new_ || !HasAll(k.w, pid, from, old_, size) || !Unused(k.w, call) then 0
      else (if ReallocFits(k.w, pid, from, old_, to, new_, size) then new_ * Pages(size) else 0) - old_ * Pages(size)
    case Exit(pid) => if pid == q then 0 - ReservedBy(k.w.s.blocks, q) else 0
    case _ => 0
  }

  lemma StepAdds(k: Kernel, step: Step, q: nat)
    ensures ReservedBy(Next(k, step).w.s.blocks, q) == ReservedBy(k.w.s.blocks, q) + Added(k, step, q)
  {
    match step
    case KernelMalloc(id, pages, size) => AllocateCost(k.w, Owner.Kernel(id), pages, size, q);
    case KernelFree(id) => ReleaseCost(k.w, Owner.Kernel(id), q);
    case SysMalloc(pid, page, n, size) =>
      if page.Some? && HasNone(k.w, pid, page.value, n, size) {
        ReserveAllCost(k.w, pid, page.value, n, size, q);
      }
    case SysFree(pid, page, n, size) =>
      if HasAll(k.w, pid, page, n, size) {
        ReleaseAllCost(k.w, pid, page, n, size, q);
      }
    case SysRealloc(call, pid, from, old_, to, new_, size) =>
      if old_ <= new_ && HasAll(k.w, pid, from, old_, size) && Unused(k.w, call) {
        ReallocCost(k.w, call, pid, from, old_, to, new_, size, q);
        ReallocSucceeds(k.w, call, pid, from, old_, to, new_, size);
      }
    case SoftFault(pid, page) => PlaceCost(k.w, Back(k.w, Virtual(pid, page)), Virtual(pid, page), q);
    case HardFault(pid, page) => PlaceCost(k.w, SwapIn(k.w, Virtual(pid, page)), Virtual(pid, page), q);
    case SwapPage(pid, page) => PlaceCost(k.w, SwapOut(k.w, Virtual(pid, page)), Virtual(pid, page), q);
    case Exit(pid) => ReleaseSetCost(k.w, EntriesOf(k.w.s, pid), pid, q);
    case LoadPage(file, index, size) => AllocateCost(k.w, FilePage(file, index), 1, size, q);
    case EvictPage(file, index) => ReleaseCost(k.w, FilePage(file, index), q);
    case StoreByte(o, off, value) =>
  }

  lemma ReleaseCost(w: World, o: Owner, q: nat)
    requires !o.Virtual?
    ensures ReservedBy(Release(w, o).s.blocks, q) == ReservedBy(w.s.blocks, q)
  {
    if o in w.s.blocks {
      ReservedRemove(w.s.blocks, o, q);
    }
  }

  lemma PlaceCost(w: World, w': World, o: Owner, q: nat)
    requires w' != w ==> o in w.s.blocks && o in w'.s.blocks && w'.s.blocks == w.s.blocks[o := w'.s.blocks[o]]
                         && w'.s.blocks[o].Length() == w.s.blocks[o].Length()
    ensures ReservedBy(w'.s.blocks, q) == ReservedBy(w.s.blocks, q)
  {
    if w' != w {
      ReservedUpdate(w.s.blocks, o, w'.s.blocks[o], q);
    }
  }

  /** used_memory equals the pages every process has reserved after a step exactly when the step is
      balanced: these are all the ways in which the source loses count. */
  lemma StepAccounts(k: Kernel, step: Step)
    requires Accounted(k)
    ensures Accounted(Next(k, step)) <==> Balanced(k, step)
  {
    var k' := Next(k, step);
    forall q: nat ensures UsedBy(k', q) == ReservedBy(k'.w.s.blocks, q) <==> (Balanced(k, step) || !Names(step, q)) {
      StepAdds(k, step, q);
      UsedIsCharged(k, step, q);
      Differs(k, step, q);
    }
    if !Balanced(k, step) {
      assert UsedBy(k', step.pid) != ReservedBy(k'.w.s.blocks, step.pid);
    }
  }

  ghost predicate Names(step: Step, q: nat) {
    (step.SysFree? && step.pid == q) || (step.SysRealloc? && step.pid == q)
  }

  /** What the step adds to used_memory. */
  ghost function Charged(k: Kernel, step: Step, q: nat): int {
    match step
    case SysMalloc(_, _, _, _) => Added(k, step, q)
    case SysFree(pid, _, n, size) => if pid == q && SysSize(size, n) then -(n * Pages(size)) else 0
    case Exit(pid) => if pid == q then -UsedBy(k, q) else 0
    case _ => 0
  }

  lemma UsedIsCharged(k: Kernel, step: Step, q: nat)
    ensures UsedBy(Next(k, step), q) == UsedBy(k, q) + Charged(k, step, q)
  {
  }

  lemma SameProduct(a: nat, b: nat, size: PageType)
    ensures a * Pages(size) == b * Pages(size) <==> a == b
  {
    match size
    case Lev4 =>
    case BigPage =>
    case MidPage =>
    case SmallPage =>
  }

  lemma Differs(k: Kernel, step: Step, q: nat)
    requires UsedBy(k, q) == ReservedBy(k.w.s.blocks, q)
    ensures Charged(k, step, q) == Added(k, step, q) <==> (Balanced(k, step) || !Names(step, q))
  {
    match step
    case SysFree(pid, _, n, size) => SameProduct(n, 0, size);
    case SysRealloc(_, _, _, old_, _, new_, size) =>
      SameProduct(old_, 0, size);
      SameProduct(new_, old_, size);
    case _ =>
  }

  ghost predicate AllBalanced(k: Kernel, steps: seq<Step>)
    decreases |steps|
  {
    steps == [] || (Balanced(k, steps[0]) && AllBalanced(Next(k, steps[0]), steps[1..]))
  }

  /** A run of balanced steps from a fresh machine never loses count. */
  lemma {:induction false} RunsAccount(k: Kernel, steps: seq<Step>)
    requires (Init(k) || Accounted(k)) && AllBalanced(k, steps)
    ensures Accounted(Run(k, steps))
    decreases |steps|
  {
    if steps != [] {
      StepAccounts(k, steps[0]);
      RunsAccount(Next(k, steps[0]), steps[1..]);
    }
  }

  // ----- freeing as written -----

  /** A block whose frames are given back while its entry stays, reserved. */
  ghost function Emptied(w: World, o: Owner): World {
    if o in w.s.blocks then
      var freed := Release(w, o);
      freed.(s := freed.s.(blocks := w.s.blocks[o := w.s.blocks[o].(place := Nowhere)]))
    else w
  }

  /** `mem_free` as written gives the frames back and leaves a RESERVE entry for each page, that the next
      touch backs again. */
  ghost function EmptyAll(w: World, pid: nat, page: nat, n: nat, size: PageType): World
    decreases n
  {
    if n == 0 then w
    else EmptyAll(Emptied(w, Virtual(pid, page)), pid, page + Pages(size), n - 1, size)
  }

  lemma {:induction false} EmptyAllReserves(w: World, pid: nat, page: nat, n: nat, size: PageType, q: nat)
    ensures ReservedBy(EmptyAll(w, pid, page, n, size).s.blocks, q) == ReservedBy(w.s.blocks, q)
    decreases n
  {
    if n > 0 {
      var o := Virtual(pid, page);
      if o in w.s.blocks {
        ReservedUpdate(w.s.blocks, o, w.s.blocks[o].(place := Nowhere), q);
      }
      EmptyAllReserves(Emptied(w, o), pid, page + Pages(size), n - 1, size, q);
    }
  }

  /** The pages are still entered, but reserved, their frames alone came free, and no other owner noticed. */
  ghost predicate LeftReserved(s: State, s': State, pages: set<Owner>) {
    && (forall o | o in pages :: (o in s'.blocks <==> o in s.blocks)
          && (o in s.blocks ==> s'.blocks[o] == s.blocks[o].(place := Nowhere)))
    && (forall o | o !in pages :: KeepsAll(s, s', o))
    && s'.ram == s.ram && s'.areas == s.areas && |s'.table| == |s.table|
    && forall p | 0 <= p < |s.table| ::
         s'.table[p] <==> s.table[p] && forall o | o in pages && o in s.blocks :: !s.blocks[o].Covers(p)
  }

  lemma EmptiedLeaves(w: World, o: Owner)
    ensures LeftReserved(w.s, Emptied(w, o).s, {o})
  {
  }

  lemma LeftReservedNext(s: State, s1: State, s2: State, o: Owner, rest: set<Owner>)
    requires LeftReserved(s, s1, {o}) && LeftReserved(s1, s2, rest) && o !in rest
    ensures LeftReserved(s, s2, {o} + rest)
  {
    forall q | q !in {o} + rest ensures KeepsAll(s, s2, q) {
      assert KeepsAll(s, s1, q) && KeepsAll(s1, s2, q);
    }
    assert KeepsAll(s1, s2, o);
    forall q | q in rest
      ensures (q in s1.blocks <==> q in s.blocks) && (q in s.blocks ==> s1.blocks[q] == s.blocks[q])
    {
      assert KeepsAll(s, s1, q);
    }
    forall p | 0 <= p < |s.table|
      ensures s2.table[p] <==> s.table[p] && forall q | q in {o} + rest && q in s.blocks :: !s.blocks[q].Covers(p)
    {
    }
  }

  /** mem_free as written: every page it frees stays entered. */
  lemma {:induction false} EmptyAllLeaves(w: World, pid: nat, page: nat, n: nat, size: PageType)
    ensures LeftReserved(w.s, EmptyAll(w, pid, page, n, size).s, PagesOf(pid, page, n, size))
    decreases n
  {
    if n > 0 {
      var o, rest := Virtual(pid, page), PagesOf(pid, page + Pages(size), n - 1, size);
      PagesNext(pid, page, n, size);
      NotAmongNext(pid, page, n, size);
      EmptiedLeaves(w, o);
      EmptyAllLeaves(Emptied(w, o), pid, page + Pages(size), n - 1, size);
      LeftReservedNext(w.s, Emptied(w, o).s, EmptyAll(w, pid, page, n, size).s, o, rest);
    }
  }

  ghost function FreedAsWritten(k: Kernel, pid: nat, page: nat, n: nat, size: PageType): Kernel {
    Kernel.Kernel(EmptyAll(k.w, pid, page, n, size), k.used[pid := UsedBy(k, pid) - n * Pages(size)])
  }

  /** So used_memory, which SYS_FREE lowers, is right afterwards exactly when nothing was freed. */
  lemma FreeAsWrittenAccounts(k: Kernel, pid: nat, page: nat, n: nat, size: PageType)
    requires Accounted(k)
    ensures Accounted(FreedAsWritten(k, pid, page, n, size)) <==> n == 0
  {
    var k' := FreedAsWritten(k, pid, page, n, size);
    SameProduct(n, 0, size);
    forall q: nat ensures UsedBy(k', q) == ReservedBy(k'.w.s.blocks, q) <==> q != pid || n == 0 {
      EmptyAllReserves(k.w, pid, page, n, size, q);
    }
    if n != 0 {
      assert UsedBy(k', pid) != ReservedBy(k'.w.s.blocks, pid);
    }
  }
}
