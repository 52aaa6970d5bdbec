/** What `mem_realloc` does to bytes: none of memory or of a partition changes, so the pages that move
    carry theirs along and every other owner keeps its own. */
module MovedBytes {
  import opened PageTypes
  import opened Bitmap
  import opened Paging
  import opened Effects
  import opened Moves

  /** Neither memory nor what lies on partitions changed. */
  ghost predicate SameStore(s: State, s': State) {
    s'.ram == s.ram && s'.areas == s.areas
  }

  /** What was last stored by the one is what was last stored by the other. */
  ghost predicate SameStored(mem: Memory, o: Owner, mem': Memory, o': Owner) {
    (o' in mem' <==> o in mem) && (o in mem ==> mem'[o'] == mem[o])
  }

  lemma RenameCarries(w: World, o: Owner, to: Owner, key: Owner)
    requires o in w.s.blocks && to !in w.s.blocks && key != o && Room(w.s, to, w.s.blocks[o].Length())
    ensures var w' := Rename(w, o, to);
            SameStore(w.s, w'.s) && SameStored(w.mem, if key == to then o else key, w'.mem, key)
  {
  }

  lemma RenameStores(w: World, o: Owner, to: Owner, key: Owner)
    ensures SameStore(w.s, Rename(w, o, to).s)
    ensures key != o && key != to ==> SameStored(w.mem, key, Rename(w, o, to).mem, key)
  {
  }

  // ----- out of the tree -----

  lemma {:induction false} ParkStores(w: World, call: nat, pid: nat, page: nat, n: nat, size: PageType, o: Owner)
    requires !(o.Parked? && o.call == call)
    ensures SameStore(w.s, Park(w, call, pid, page, n, size).s)
    ensures !IsPage(o, pid, page, n, size) ==> SameStored(w.mem, o, Park(w, call, pid, page, n, size).mem, o)
  {
    if n > 0 {
      ParkStores(w, call, pid, page, n - 1, size, o);
      PageGrows(o, pid, page, n, size);
      RenameStores(Park(w, call, pid, page, n - 1, size), Virtual(pid, At(page, n - 1, size)), Parked(call, n - 1), o);
    }
  }

  lemma {:induction false} ParkCarries(w: World, call: nat, pid: nat, page: nat, n: nat, size: PageType, h: nat)
    requires HasAll(w, pid, page, n, size) && Unused(w, call) && h < n
    ensures SameStored(w.mem, Virtual(pid, At(page, h, size)), Park(w, call, pid, page, n, size).mem, Parked(call, h))
  {
    var before, last := Park(w, call, pid, page, n - 1, size), Virtual(pid, At(page, n - 1, size));
    ParkLast(w, call, pid, page, n, size);
    RenameCarries(before, last, Parked(call, n - 1), Parked(call, h));
    if h < n - 1 {
      ParkCarries(w, call, pid, page, n - 1, size, h);
    } else {
      LastIsNew(pid, page, n - 1, size);
      ParkStores(w, call, pid, page, n - 1, size, last);
    }
  }

  // ----- fresh frames -----

  lemma AllocateStores(w: World, o: Owner, count: nat, size: PageType, q: Owner)
    requires q != o
    ensures SameStore(w.s, Allocate(w, o, count, size).s) && SameStored(w.mem, q, Allocate(w, o, count, size).mem, q)
  {
  }

  lemma {:induction false} ExtendStores(w: World, call: nat, from: nat, n: nat, size: PageType, o: Owner)
    requires from <= n && !(o.Parked? && o.call == call && o.slot >= from)
    ensures SameStore(w.s, Extend(w, call, from, n, size).s)
    ensures SameStored(w.mem, o, Extend(w, call, from, n, size).mem, o)
  {
    if n > from {
      ExtendStores(w, call, from, n - 1, size, o);
      AllocateStores(Extend(w, call, from, n - 1, size), Parked(call, n - 1), 1, size, o);
    }
  }

  /** Every slot that was allocated has a frame. */
  lemma {:induction false} ExtendBacks(w: World, call: nat, from: nat, n: nat, size: PageType, h: nat)
    requires from <= h < n && Parked(call, h) !in w.s.blocks
    requires forall i: nat | from <= i :: Parked(call, i) !in w.s.blocks
    ensures var s := Extend(w, call, from, n, size).s;
            Parked(call, h) in s.blocks ==> s.blocks[Parked(call, h)].place.InRam?
  {
    var before := Extend(w, call, from, n - 1, size);
    if h < n - 1 {
      ExtendBacks(w, call, from, n - 1, size, h);
      AllocateLeaves(before, Parked(call, n - 1), 1, size, Parked(call, h));
    } else {
      ExtendLeaves(w, call, from, n - 1, size, Parked(call, h));
      AllocateObtains(before, Parked(call, h), 1, size);
    }
  }

  // ----- into the tree -----

  lemma {:induction false} UnparkStores(w: World, call: nat, pid: nat, page: nat, n: nat, size: PageType, o: Owner)
    requires !(o.Parked? && o.call == call && o.slot < n)
    ensures SameStore(w.s, Unpark(w, call, pid, page, n, size).s)
    ensures !IsPage(o, pid, page, n, size) ==> SameStored(w.mem, o, Unpark(w, call, pid, page, n, size).mem, o)
  {
    if n > 0 {
      UnparkStores(w, call, pid, page, n - 1, size, o);
      PageGrows(o, pid, page, n, size);
      RenameStores(Unpark(w, call, pid, page, n - 1, size), Parked(call, n - 1), Virtual(pid, At(page, n - 1, size)),
          o);
    }
  }

  lemma {:induction false} UnparkCarries(w: World, call: nat, pid: nat, page: nat, n: nat, size: PageType, h: nat)
    requires Slots(w, call, n, size) && HasNone(w, pid, page, n, size) && h < n
    ensures SameStored(w.mem, Parked(call, h), Unpark(w, call, pid, page, n, size).mem, Virtual(pid, At(page, h, size)))
  {
    var before, last := Unpark(w, call, pid, page, n - 1, size), Virtual(pid, At(page, n - 1, size));
    UnparkLast(w, call, pid, page, n, size);
    RenameCarries(before, Parked(call, n - 1), last, Virtual(pid, At(page, h, size)));
    if h < n - 1 {
      FewerPages(w, pid, page, n, size);
      AtEnd(page, h, n - 1, size);
      UnparkCarries(w, call, pid, page, n - 1, size, h);
    } else {
      UnparkStores(w, call, pid, page, n - 1, size, Parked(call, n - 1));
    }
  }

  // ----- mem_realloc -----

  lemma ReallocStores(w: World, call: nat, pid: nat, page: nat, old_: nat, to: Option<nat>, new_: nat,
      size: PageType, o: Owner)
    requires !(o.Parked? && o.call == call) && !IsPage(o, pid, page, old_, size)
    requires to.Some? ==> !IsPage(o, pid, to.value, new_, size)
    ensures var w' := Realloc(w, call, pid, page, old_, to, new_, size).0;
            SameStore(w.s, w'.s) && SameStored(w.mem, o, w'.mem, o)
  {
    if old_ <= new_ && HasAll(w, pid, page, old_, size) {
      var parked := Park(w, call, pid, page, old_, size);
      ParkStores(w, call, pid, page, old_, size, o);
      ExtendStores(parked, call, old_, new_, size, o);
      if to.Some? {
        UnparkStores(Extend(parked, call, old_, new_, size), call, pid, to.value, new_, size, o);
      }
    }
  }

  /** A page that does not move keeps everything, whether the realloc fits or fails. */
  lemma ReallocKeepsOthers(w: World, call: nat, pid: nat, page: nat, old_: nat, to: Option<nat>, new_: nat,
      size: PageType, o: Owner)
    requires !(o.Parked? && o.call == call) && !IsPage(o, pid, page, old_, size)
    requires to.Some? ==> !IsPage(o, pid, to.value, new_, size)
    ensures var w' := Realloc(w, call, pid, page, old_, to, new_, size).0;
            KeepsAll(w.s, w'.s, o) && SameStored(w.mem, o, w'.mem, o)
  {
    ReallocStores(w, call, pid, page, old_, to, new_, size, o);
    if old_ <= new_ && HasAll(w, pid, page, old_, size) && Unused(w, call) {
      var parked := Park(w, call, pid, page, old_, size);
      ParkLeaves(w, call, pid, page, old_, size, o);
      ParkedSlots(w, call, pid, page, old_, size);
      ExtendLeaves(parked, call, old_, new_, size, o);
      if to.Some? {
        UnparkLeaves(Extend(parked, call, old_, new_, size), call, pid, to.value, new_, size, o);
      }
    }
  }

  lemma ReallocKeepsStore(w: World, call: nat, pid: nat, page: nat, old_: nat, to: Option<nat>, new_: nat,
      size: PageType)
    ensures SameStore(w.s, Realloc(w, call, pid, page, old_, to, new_, size).0.s)
  {
    var o := Owner.Kernel(0);
    ReallocStores(w, call, pid, page, old_, to, new_, size, o);
  }

  /** Of pages that are not all there, or to fewer pages, nothing moves. */
  lemma ReallocRefused(k: Kernel, call: nat, pid: nat, page: nat, old_: nat, to: Option<nat>, new_: nat, size: PageType)
    requires old_ > new_ || !HasAll(k.w, pid, page, old_, size)
    ensures Next(k, SysRealloc(call, pid, page, old_, to, new_, size)).w == k.w
  {
  }

  /** The process finds every byte of an old page at the new address, and reads there what it last
      stored at the old one. */
  lemma ReallocCarriesBytes(w: World, call: nat, pid: nat, page: nat, old_: nat, to: Option<nat>, new_: nat,
      size: PageType, h: nat)
    requires old_ <= new_ && HasAll(w, pid, page, old_, size) && Unused(w, call)
    requires ReallocFits(w, pid, page, old_, to, new_, size) && h < old_
    ensures var w' := Realloc(w, call, pid, page, old_, to, new_, size).0;
            var o, o' := Virtual(pid, At(page, h, size)), Virtual(pid, At(to.value, h, size));
            && o in w.s.blocks && o' in w'.s.blocks && SameBytes(w.s, w.s.blocks[o], w'.s, w'.s.blocks[o'])
            && forall off, value :: Holds(w, o, off, value) <==> Holds(w', o', off, value)
  {
    ReallocMoves(w, call, pid, page, old_, to, new_, size, h);
    ReallocKeepsStore(w, call, pid, page, old_, to, new_, size);
    ReallocSucceeds(w, call, pid, page, old_, to, new_, size);
    ReadyToUnpark(w, call, pid, page, old_, to.value, new_, size);
    var parked := Park(w, call, pid, page, old_, size);
    ParkCarries(w, call, pid, page, old_, size, h);
    ExtendStores(parked, call, old_, new_, size, Parked(call, h));
    UnparkCarries(Extend(parked, call, old_, new_, size), call, pid, to.value, new_, size, h);
  }

  /** The pages behind them are in memory. */
  lemma ReallocBacksNew(w: World, call: nat, pid: nat, page: nat, old_: nat, to: Option<nat>, new_: nat,
      size: PageType, h: nat)
    requires old_ <= new_ && HasAll(w, pid, page, old_, size) && Unused(w, call)
    requires ReallocFits(w, pid, page, old_, to, new_, size) && old_ <= h < new_
    ensures var s' := Realloc(w, call, pid, page, old_, to, new_, size).0.s;
            Virtual(pid, At(to.value, h, size)) in s'.blocks
            && s'.blocks[Virtual(pid, At(to.value, h, size))].place.InRam?
  {
    ReallocSucceeds(w, call, pid, page, old_, to, new_, size);
    ReadyToUnpark(w, call, pid, page, old_, to.value, new_, size);
    var parked := Park(w, call, pid, page, old_, size);
    var longer := Extend(parked, call, old_, new_, size);
    ParkedSlots(w, call, pid, page, old_, size);
    ExtendBacks(parked, call, old_, new_, size, h);
    UnparkMoves(longer, call, pid, to.value, new_, size, h);
  }

  lemma MovedByteIsHeld(w: World, call: nat, pid: nat, page: nat, old_: nat, to: Option<nat>, new_: nat,
      size: PageType, h: nat, off: nat, value: Byte)
    requires Valid(w) && old_ <= new_ && HasAll(w, pid, page, old_, size) && Unused(w, call)
    requires ReallocFits(w, pid, page, old_, to, new_, size) && h < old_
    requires Holds(w, Virtual(pid, At(page, h, size)), off, value)
    ensures var w' := Realloc(w, call, pid, page, old_, to, new_, size).0;
            Valid(w') && Holds(w', Virtual(pid, At(to.value, h, size)), off, value)
  {
    ReallocKeeps(w, call, pid, page, old_, to, new_, size);
    ReallocCarriesBytes(w, call, pid, page, old_, to, new_, size, h);
  }

  lemma HeldPageIsRead(w: World, pid: nat, page: nat, off: nat, value: Byte, vm: nat)
    requires Valid(w) && Holds(w, Virtual(pid, page), off, value) && vm == page * PAGE_BYTES + off
    ensures Load(w.s, pid, vm) == Some(value)
  {
    HeldLiesIn(w, pid, vm, Virtual(pid, page), value);
  }

  lemma StepIsRealloc(k: Kernel, call: nat, pid: nat, page: nat, old_: nat, to: Option<nat>, new_: nat, size: PageType)
    ensures Next(k, SysRealloc(call, pid, page, old_, to, new_, size)).w
            == Realloc(k.w, call, pid, page, old_, to, new_, size).0
  {
  }

  /** As a step: what is stored at an old address and moved is read at the new one. */
  lemma MovedByteIsRead(k: Kernel, step: Step, h: nat, off: nat, value: Byte, vm: nat)
    requires Valid(k.w) && step.SysRealloc? && step.old_ <= step.new_ && h < step.old_ && Unused(k.w, step.call)
    requires HasAll(k.w, step.pid, step.from, step.old_, step.size)
    requires ReallocFits(k.w, step.pid, step.from, step.old_, step.to, step.new_, step.size)
    requires Holds(k.w, Virtual(step.pid, At(step.from, h, step.size)), off, value)
    requires vm == At(step.to.value, h, step.size) * PAGE_BYTES + off
    ensures Load(Next(k, step).w.s, step.pid, vm) == Some(value)
  {
    var SysRealloc(call, pid, from, old_, to, new_, size) := step;
    MovedByteIsHeld(k.w, call, pid, from, old_, to, new_, size, h, off, value);
    StepIsRealloc(k, call, pid, from, old_, to, new_, size);
    HeldPageIsRead(Next(k, step).w, pid, At(to.value, h, size), off, value, vm);
  }
}
