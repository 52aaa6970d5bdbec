/** How `mem_realloc` moves pages through its array `phys[]`: when it succeeds, what it keeps, what a
    failure loses; and what becomes of pages that are not in memory when only their frame field is
    looked at. */
module Moves {
  import opened PageTypes
  import opened Bitmap
  import opened Paging

  // ----- out of the tree -----

  ghost predicate IsPage(o: Owner, pid: nat, page: nat, n: nat, size: PageType) {
    exists h: nat :: h < n && o == Virtual(pid, At(page, h, size))
  }

  lemma PageGrows(o: Owner, pid: nat, page: nat, n: nat, size: PageType)
    requires n > 0
    ensures IsPage(o, pid, page, n, size)
            <==> IsPage(o, pid, page, n - 1, size) || o == Virtual(pid, At(page, n - 1, size))
  {
    if IsPage(o, pid, page, n, size) {
      var h: nat :| h < n && o == Virtual(pid, At(page, h, size));
    }
  }

  lemma LastIsNew(pid: nat, page: nat, n: nat, size: PageType)
    ensures !IsPage(Virtual(pid, At(page, n, size)), pid, page, n, size)
  {
    forall h: nat | h < n ensures At(page, h, size) < At(page, n, size) {
      AtEnd(page, h, n, size);
    }
  }

  /** Moving n pages into `phys[]` touches no other owner. */
  lemma {:induction false} ParkLeaves(w: World, call: nat, pid: nat, page: nat, n: nat, size: PageType, o: Owner)
    requires !(o.Parked? && o.call == call)
    ensures o in Park(w, call, pid, page, n, size).s.blocks
            ==> o in w.s.blocks && Park(w, call, pid, page, n, size).s.blocks[o] == w.s.blocks[o]
    ensures !IsPage(o, pid, page, n, size) && o in w.s.blocks ==> o in Park(w, call, pid, page, n, size).s.blocks
  {
    if n > 0 {
      ParkLeaves(w, call, pid, page, n - 1, size, o);
      PageGrows(o, pid, page, n, size);
    }
  }

  lemma LastStays(w: World, call: nat, pid: nat, page: nat, n: nat, size: PageType)
    requires n > 0 && HasAll(w, pid, page, n, size)
    ensures var before, last := Park(w, call, pid, page, n - 1, size), Virtual(pid, At(page, n - 1, size));
            last in w.s.blocks && last in before.s.blocks && before.s.blocks[last] == w.s.blocks[last]
                && w.s.blocks[last].Length() == Pages(size)
  {
    LastIsNew(pid, page, n - 1, size);
    ParkLeaves(w, call, pid, page, n - 1, size, Virtual(pid, At(page, n - 1, size)));
  }

  /** ... and slot h of `phys[]` holds page h. */
  lemma {:induction false} ParkMoves(w: World, call: nat, pid: nat, page: nat, n: nat, size: PageType, h: nat)
    requires HasAll(w, pid, page, n, size) && Unused(w, call)
    ensures var w' := Park(w, call, pid, page, n, size);
            && (Parked(call, h) in w'.s.blocks <==> h < n)
            && (h < n ==> w'.s.blocks[Parked(call, h)] == w.s.blocks[Virtual(pid, At(page, h, size))])
  {
    if n > 0 {
      ParkMoves(w, call, pid, page, n - 1, size, h);
      ParkMoves(w, call, pid, page, n - 1, size, n - 1);
      LastStays(w, call, pid, page, n, size);
      var before, last := Park(w, call, pid, page, n - 1, size), Virtual(pid, At(page, n - 1, size));
      Renamed(before, last, Parked(call, n - 1), Parked(call, h));
    }
  }

  lemma Renamed(w: World, o: Owner, to: Owner, key: Owner)
    requires o in w.s.blocks && to !in w.s.blocks && key != o && Room(w.s, to, w.s.blocks[o].Length())
    ensures var w' := Rename(w, o, to);
            && (key in w'.s.blocks <==> key == to || key in w.s.blocks)
            && (key in w'.s.blocks ==> w'.s.blocks[key] == if key == to then w.s.blocks[o] else w.s.blocks[key])
  {
  }

  lemma ParkLast(w: World, call: nat, pid: nat, page: nat, n: nat, size: PageType)
    requires n > 0 && HasAll(w, pid, page, n, size) && Unused(w, call)
    ensures var before, last := Park(w, call, pid, page, n - 1, size), Virtual(pid, At(page, n - 1, size));
            && last in before.s.blocks && Parked(call, n - 1) !in before.s.blocks
            && before.s.blocks[last].Length() == Pages(size)
  {
    LastStays(w, call, pid, page, n, size);
    ParkMoves(w, call, pid, page, n - 1, size, n - 1);
  }

  lemma {:induction false} ParkEmpties(w: World, call: nat, pid: nat, page: nat, n: nat, size: PageType, h: nat)
    requires HasAll(w, pid, page, n, size) && Unused(w, call) && h < n
    ensures Virtual(pid, At(page, h, size)) !in Park(w, call, pid, page, n, size).s.blocks
  {
    ParkLast(w, call, pid, page, n, size);
    if h < n - 1 {
      ParkEmpties(w, call, pid, page, n - 1, size, h);
    }
  }

  lemma {:induction false} ParkTable(w: World, call: nat, pid: nat, page: nat, n: nat, size: PageType)
    ensures Park(w, call, pid, page, n, size).s.table == w.s.table
  {
    if n > 0 {
      ParkTable(w, call, pid, page, n - 1, size);
    }
  }

  // ----- fresh frames -----

  lemma AllocateLeaves(w: World, o: Owner, count: nat, size: PageType, q: Owner)
    requires q != o || o in w.s.blocks
    ensures q in Allocate(w, o, count, size).s.blocks <==> q in w.s.blocks
    ensures q in w.s.blocks ==> Allocate(w, o, count, size).s.blocks[q] == w.s.blocks[q]
  {
  }

  lemma AllocateMakes(w: World, o: Owner, count: nat, size: PageType)
    requires o !in w.s.blocks && o in Allocate(w, o, count, size).s.blocks
    ensures Allocate(w, o, count, size).s.blocks[o].(place := Nowhere) == Block(count, size, Nowhere)
  {
  }

  /** `phys[]` grows at its end, by fresh blocks of one page, and nothing else changes. */
  lemma {:induction false} ExtendLeaves(w: World, call: nat, from: nat, n: nat, size: PageType, o: Owner)
    requires from <= n && forall h: nat | from <= h :: Parked(call, h) !in w.s.blocks
    ensures var w' := Extend(w, call, from, n, size);
            && (!(o.Parked? && o.call == call && from <= o.slot < n) ==>
                  (o in w'.s.blocks <==> o in w.s.blocks) && (o in w.s.blocks ==> w'.s.blocks[o] == w.s.blocks[o]))
            && (o.Parked? && o.call == call && from <= o.slot < n && o in w'.s.blocks ==>
                  w'.s.blocks[o].(place := Nowhere) == Block(1, size, Nowhere))
  {
    if n > from {
      ExtendLeaves(w, call, from, n - 1, size, o);
      ExtendLeaves(w, call, from, n - 1, size, Parked(call, n - 1));
      var before := Extend(w, call, from, n - 1, size);
      if o == Parked(call, n - 1) {
        if o in Extend(w, call, from, n, size).s.blocks {
          AllocateMakes(before, o, 1, size);
        }
      } else {
        AllocateLeaves(before, Parked(call, n - 1), 1, size, o);
      }
    }
  }

  lemma AllocateTakes(w: World, o: Owner, size: PageType)
    requires !o.Virtual? && o !in w.s.blocks && AllBlocks(w.s.table, size) != []
    ensures var w' := Allocate(w, o, 1, size);
            && o in w'.s.blocks && |w'.s.table| == |w.s.table|
            && |AllBlocks(w'.s.table, size)| == |AllBlocks(w.s.table, size)| - 1
  {
    ScanFindsBlocks(w.s.table, size);
    TakeFirst(w.s.table, FirstFit(w.s.table, 0, ScanEnd(|w.s.table|), Pages(size), size).value, size);
  }

  /** get_free_phys saw enough blocks, so every slot gets one. */
  lemma ExtendTakes(w: World, call: nat, from: nat, n: nat, size: PageType, h: nat)
    requires from <= n && FreePhys(w.s.table, n - from, size) && from <= h < n
    requires forall i: nat | from <= i :: Parked(call, i) !in w.s.blocks
    ensures Parked(call, h) in Extend(w, call, from, n, size).s.blocks
  {
    ExtendCounts(w, call, from, h, size);
    NextTaken(w, call, from, h, size);
    ExtendStays(w, call, from, h + 1, n, size, Parked(call, h));
  }

  lemma NextTaken(w: World, call: nat, from: nat, n: nat, size: PageType)
    requires from <= n && AllBlocks(Extend(w, call, from, n, size).s.table, size) != []
    requires forall i: nat | from <= i :: Parked(call, i) !in w.s.blocks
    ensures var before, after := Extend(w, call, from, n, size), Extend(w, call, from, n + 1, size);
            && Parked(call, n) in after.s.blocks && |after.s.table| == |before.s.table|
            && |AllBlocks(after.s.table, size)| == |AllBlocks(before.s.table, size)| - 1
  {
    ExtendLeaves(w, call, from, n, size, Parked(call, n));
    AllocateTakes(Extend(w, call, from, n, size), Parked(call, n), size);
  }

  lemma {:induction false} ExtendCounts(w: World, call: nat, from: nat, n: nat, size: PageType)
    requires from <= n && FreePhys(w.s.table, n - from, size)
    requires forall i: nat | from <= i :: Parked(call, i) !in w.s.blocks
    ensures var table := Extend(w, call, from, n, size).s.table;
            |table| == |w.s.table| && |AllBlocks(table, size)| == |AllBlocks(w.s.table, size)| - (n - from)
  {
    if n > from {
      ExtendCounts(w, call, from, n - 1, size);
      NextTaken(w, call, from, n - 1, size);
    }
  }

  lemma {:induction false} ExtendStays(w: World, call: nat, from: nat, some: nat, n: nat, size: PageType, o: Owner)
    requires from <= some <= n && o in Extend(w, call, from, some, size).s.blocks
    ensures o in Extend(w, call, from, n, size).s.blocks
    decreases n
  {
    if some < n {
      ExtendStays(w, call, from, some, n - 1, size, o);
      AllocateLeaves(Extend(w, call, from, n - 1, size), Parked(call, n - 1), 1, size, o);
    }
  }

  // ----- into the tree -----

  /** The first n slots each hold one page. */
  ghost predicate Slots(w: World, call: nat, n: nat, size: PageType) {
    forall h | 0 <= h < n ::
      Parked(call, h) in w.s.blocks && w.s.blocks[Parked(call, h)].(place := Nowhere) == Block(1, size, Nowhere)
  }

  lemma FewerPages(w: World, pid: nat, page: nat, n: nat, size: PageType)
    requires n > 0 && HasNone(w, pid, page, n, size)
    ensures HasNone(w, pid, page, n - 1, size)
  {
    assert n * Pages(size) == (n - 1) * Pages(size) + Pages(size);
  }

  lemma {:induction false} UnparkLeaves(w: World, call: nat, pid: nat, page: nat, n: nat, size: PageType, o: Owner)
    requires !IsPage(o, pid, page, n, size) && !(o.Parked? && o.call == call && o.slot < n)
    ensures o in Unpark(w, call, pid, page, n, size).s.blocks <==> o in w.s.blocks
    ensures o in w.s.blocks ==> Unpark(w, call, pid, page, n, size).s.blocks[o] == w.s.blocks[o]
  {
    if n > 0 {
      PageGrows(o, pid, page, n, size);
      UnparkLeaves(w, call, pid, page, n - 1, size, o);
    }
  }

  /** Behind the first n pages there is still room for the rest. */
  lemma {:induction false} UnparkRoom(w: World, call: nat, pid: nat, page: nat, n: nat, all: nat, size: PageType)
    requires n <= all && Slots(w, call, all, size) && HasNone(w, pid, page, all, size)
    ensures HasNone(Unpark(w, call, pid, page, n, size), pid, At(page, n, size), all - n, size)
  {
    if n == 0 {
      assert At(page, 0, size) == page;
    } else {
      UnparkRoom(w, call, pid, page, n - 1, all, size);
      UnparkLeaves(w, call, pid, page, n - 1, size, Parked(call, n - 1));
      StillRoom(Unpark(w, call, pid, page, n - 1, size), Parked(call, n - 1), pid, page, n, all, size);
    }
  }

  lemma StillRoom(w: World, o: Owner, pid: nat, page: nat, n: nat, all: nat, size: PageType)
    requires 0 < n <= all && o in w.s.blocks && !o.Virtual? && w.s.blocks[o].Length() == Pages(size)
    requires HasNone(w, pid, At(page, n - 1, size), all - n + 1, size)
    ensures HasNone(Rename(w, o, Virtual(pid, At(page, n - 1, size))), pid, At(page, n, size), all - n, size)
  {
    assert (all - n + 1) * Pages(size) == (all - n) * Pages(size) + Pages(size);
    assert n * Pages(size) == (n - 1) * Pages(size) + Pages(size);
  }

  /** Slot n-1 can be entered as the next page. */
  lemma UnparkLast(w: World, call: nat, pid: nat, page: nat, n: nat, size: PageType)
    requires n > 0 && Slots(w, call, n, size) && HasNone(w, pid, page, n, size)
    ensures var before, last := Unpark(w, call, pid, page, n - 1, size), Virtual(pid, At(page, n - 1, size));
            && Parked(call, n - 1) in before.s.blocks && last !in before.s.blocks
            && before.s.blocks[Parked(call, n - 1)] == w.s.blocks[Parked(call, n - 1)]
            && Room(before.s, last, Pages(size)) && before.s.blocks[Parked(call, n - 1)].Length() == Pages(size)
  {
    UnparkLeaves(w, call, pid, page, n - 1, size, Parked(call, n - 1));
    UnparkRoom(w, call, pid, page, n - 1, n, size);
    assert (n - (n - 1)) * Pages(size) == Pages(size);
  }

  /** The first n slots of `phys[]` end up as n consecutive pages of the tree. */
  lemma {:induction false} UnparkMoves(w: World, call: nat, pid: nat, page: nat, n: nat, size: PageType, h: nat)
    requires Slots(w, call, n, size) && HasNone(w, pid, page, n, size) && h < n
    ensures var w' := Unpark(w, call, pid, page, n, size);
            && Virtual(pid, At(page, h, size)) in w'.s.blocks
            && w'.s.blocks[Virtual(pid, At(page, h, size))] == w.s.blocks[Parked(call, h)]
            && Parked(call, h) !in w'.s.blocks
  {
    UnparkLast(w, call, pid, page, n, size);
    if h < n - 1 {
      FewerPages(w, pid, page, n, size);
      UnparkMoves(w, call, pid, page, n - 1, size, h);
    }
  }

  // ----- mem_realloc -----

  lemma ParkedSlots(w: World, call: nat, pid: nat, page: nat, n: nat, size: PageType)
    requires HasAll(w, pid, page, n, size) && Unused(w, call)
    ensures forall h: nat :: Parked(call, h) in Park(w, call, pid, page, n, size).s.blocks <==> h < n
  {
    forall h: nat ensures Parked(call, h) in Park(w, call, pid, page, n, size).s.blocks <==> h < n {
      ParkMoves(w, call, pid, page, n, size, h);
    }
  }

  lemma ExtendNone(w: World, call: nat, pid: nat, from: nat, n: nat, page: nat, len: nat)
    requires from <= n && forall h: nat | from <= h :: Parked(call, h) !in w.s.blocks
    requires Room(w.s, Virtual(pid, page), len)
    ensures forall size :: Room(Extend(w, call, from, n, size).s, Virtual(pid, page), len)
  {
    forall size ensures Room(Extend(w, call, from, n, size).s, Virtual(pid, page), len) {
      forall q: Owner | q.Virtual? ensures q in Extend(w, call, from, n, size).s.blocks <==> q in w.s.blocks
        ensures q in w.s.blocks ==> Extend(w, call, from, n, size).s.blocks[q] == w.s.blocks[q]
      {
        ExtendLeaves(w, call, from, n, size, q);
      }
    }
  }

  /** Once there is room for the pages and frames for the new ones, every slot is filled. */
  lemma ReadyToUnpark(w: World, call: nat, pid: nat, page: nat, old_: nat, to: nat, new_: nat, size: PageType)
    requires old_ <= new_ && HasAll(w, pid, page, old_, size) && Unused(w, call)
    requires var parked := Park(w, call, pid, page, old_, size);
             HasNone(parked, pid, to, new_, size) && FreePhys(parked.s.table, new_ - old_, size)
    ensures var longer := Extend(Park(w, call, pid, page, old_, size), call, old_, new_, size);
            && Slots(longer, call, new_, size) && HasNone(longer, pid, to, new_, size)
            && forall h | 0 <= h < old_ :: longer.s.blocks[Parked(call, h)]
                == w.s.blocks[Virtual(pid, At(page, h, size))]
  {
    var parked := Park(w, call, pid, page, old_, size);
    var longer := Extend(parked, call, old_, new_, size);
    ParkedSlots(w, call, pid, page, old_, size);
    ExtendNone(parked, call, pid, old_, new_, to, new_ * Pages(size));
    forall h: nat | h < new_
      ensures Parked(call, h) in longer.s.blocks
      ensures longer.s.blocks[Parked(call, h)].(place := Nowhere) == Block(1, size, Nowhere)
      ensures h < old_ ==> longer.s.blocks[Parked(call, h)] == w.s.blocks[Virtual(pid, At(page, h, size))]
    {
      ParkMoves(w, call, pid, page, old_, size, h);
      ExtendLeaves(parked, call, old_, new_, size, Parked(call, h));
      if h >= old_ {
        ExtendTakes(parked, call, old_, new_, size, h);
      }
    }
  }

  /** The new pages lie over no entry of the process but those that move. */
  ghost predicate RoomBut(w: World, pid: nat, page: nat, old_: nat, to: nat, new_: nat, size: PageType) {
    forall q | q in w.s.blocks && q.Virtual? && q.pid == pid && !IsPage(q, pid, page, old_, size) ::
      (q.page < to && q.page + w.s.blocks[q].Length() <= to) || to + new_ * Pages(size) <= q.page
  }

  /** vmtree_fetch answered, with room but for the pages that move, and the bitmap has the frames that
      are missing. */
  ghost predicate ReallocFits(w: World, pid: nat, page: nat, old_: nat, to: Option<nat>, new_: nat, size: PageType)
    requires old_ <= new_
  {
    to.Some? && RoomBut(w, pid, page, old_, to.value, new_, size) && FreePhys(w.s.table, new_ - old_, size)
  }

  lemma ParkedRoom(w: World, call: nat, pid: nat, page: nat, old_: nat, to: nat, new_: nat, size: PageType)
    requires HasAll(w, pid, page, old_, size) && Unused(w, call)
    ensures HasNone(Park(w, call, pid, page, old_, size), pid, to, new_, size)
            <==> RoomBut(w, pid, page, old_, to, new_, size)
  {
    var parked := Park(w, call, pid, page, old_, size);
    forall q: Owner | q.Virtual?
      ensures q in parked.s.blocks <==> q in w.s.blocks && !IsPage(q, pid, page, old_, size)
      ensures q in parked.s.blocks ==> parked.s.blocks[q] == w.s.blocks[q]
    {
      ParkLeaves(w, call, pid, page, old_, size, q);
      if IsPage(q, pid, page, old_, size) {
        var h: nat :| h < old_ && q == Virtual(pid, At(page, h, size));
        ParkEmpties(w, call, pid, page, old_, size, h);
      }
    }
  }

  /** A realloc of pages the process has succeeds exactly when it fits. */
  lemma ReallocSucceeds(w: World, call: nat, pid: nat, page: nat, old_: nat, to: Option<nat>, new_: nat, size: PageType)
    requires old_ <= new_ && HasAll(w, pid, page, old_, size) && Unused(w, call)
    ensures Realloc(w, call, pid, page, old_, to, new_, size).1 <==> ReallocFits(w, pid, page, old_, to, new_, size)
  {
    ParkTable(w, call, pid, page, old_, size);
    if to.Some? {
      ParkedRoom(w, call, pid, page, old_, to.value, new_, size);
    }
  }

  /** Then the old pages, place and contents, are found in order under the new addresses, fresh ones
      behind them. */
  lemma ReallocMoves(w: World, call: nat, pid: nat, page: nat, old_: nat, to: Option<nat>, new_: nat,
      size: PageType, h: nat)
    requires old_ <= new_ && HasAll(w, pid, page, old_, size) && Unused(w, call)
    requires ReallocFits(w, pid, page, old_, to, new_, size) && h < new_
    ensures var w' := Realloc(w, call, pid, page, old_, to, new_, size).0;
            var o := Virtual(pid, At(to.value, h, size));
            && o in w'.s.blocks
            && (h < old_ ==> w'.s.blocks[o] == w.s.blocks[Virtual(pid, At(page, h, size))])
            && (h >= old_ ==> w'.s.blocks[o].(place := Nowhere) == Block(1, size, Nowhere))
  {
    ReallocSucceeds(w, call, pid, page, old_, to, new_, size);
    ReadyToUnpark(w, call, pid, page, old_, to.value, new_, size);
    UnparkMoves(Extend(Park(w, call, pid, page, old_, size), call, old_, new_, size), call, pid, to.value, new_,
        size, h);
  }

  /** It loses no frame to its array exactly when it fits or has no page to begin with: one that does
      not fit has given its pages up, and their frames stay set in the bitmap. */
  lemma ReallocLeaks(w: World, call: nat, pid: nat, page: nat, old_: nat, to: Option<nat>, new_: nat, size: PageType)
    requires old_ <= new_ && HasAll(w, pid, page, old_, size) && Unused(w, call)
    ensures Unused(Realloc(w, call, pid, page, old_, to, new_, size).0, call)
            <==> ReallocFits(w, pid, page, old_, to, new_, size) || old_ == 0
  {
    var r := Realloc(w, call, pid, page, old_, to, new_, size);
    var parked := Park(w, call, pid, page, old_, size);
    ReallocSucceeds(w, call, pid, page, old_, to, new_, size);
    ParkedSlots(w, call, pid, page, old_, size);
    if r.1 {
      var longer := Extend(parked, call, old_, new_, size);
      ReadyToUnpark(w, call, pid, page, old_, to.value, new_, size);
      forall h: nat ensures Parked(call, h) !in r.0.s.blocks {
        ExtendLeaves(parked, call, old_, new_, size, Parked(call, h));
        if h < new_ {
          UnparkMoves(longer, call, pid, to.value, new_, size, h);
        } else {
          UnparkLeaves(longer, call, pid, to.value, new_, size, Parked(call, h));
        }
      }
    } else if old_ > 0 {
      assert Parked(call, 0) in r.0.s.blocks;
    }
  }

  // ----- as written: only the frame field is looked at -----

  /** What `deallocate_vm` takes for the frame of a page, whatever the page's mode: 0 where it was never
      touched, the disk position where it is swapped. */
  function Field(place: Place): nat {
    match place
    case Nowhere => 0
    case InRam(frame) => frame
    case OnDisk(_, position) => position
  }

  /** `mem_free` of one page as written: those pages are cleared in the bitmap. */
  ghost function ReleaseAsWritten(s: State, o: Owner): State
    requires o in s.blocks
  {
    s.(table := SetRange(s.table, Field(s.blocks[o].place), s.blocks[o].Length(), false), blocks := s.blocks - {o})
  }

  /** No page of memory that the frame field names is in use. */
  ghost predicate NamesNoOwned(table: seq<bool>, b: Block) {
    forall p | Field(b.place) <= p < Field(b.place) + b.Length() && p < |table| :: !table[p]
  }

  /** Every frame keeps exactly its one owner when the page is in memory, or nobody owns the frames its
      field names; and in no other case. */
  lemma ReleaseAsWrittenOwns(s: State, o: Owner)
    requires FramesOwned(s) && o in s.blocks
    ensures FramesOwned(ReleaseAsWritten(s, o)) <==> s.blocks[o].place.InRam? || NamesNoOwned(s.table, s.blocks[o])
  {
    var s' := ReleaseAsWritten(s, o);
    if s.blocks[o].place.InRam? {
      FreedOwned(s, s', o);
    } else if NamesNoOwned(s.table, s.blocks[o]) {
      assert s'.table == s.table;
      SameFrames(s, s', o);
    } else {
      var p :| Field(s.blocks[o].place) <= p < Field(s.blocks[o].place) + s.blocks[o].Length() && p < |s.table|
          && s.table[p];
      var q :| q in s.blocks && s.blocks[q].Covers(p);
      assert q in s'.blocks && s'.blocks[q].Covers(p) && !s'.table[p];
    }
  }

  lemma FreedOwned(s: State, s': State, o: Owner)
    requires FramesOwned(s) && o in s.blocks && s.blocks[o].place.InRam? && s'.blocks == s.blocks - {o}
    requires s'.table == SetRange(s.table, s.blocks[o].place.frame, s.blocks[o].Length(), false)
    ensures FramesOwned(s')
  {
    forall p | 0 <= p < |s'.table| && s'.table[p] ensures exists q :: q in s'.blocks && s'.blocks[q].Covers(p) {
      var q :| q in s.blocks && s.blocks[q].Covers(p);
      assert s'.blocks[q].Covers(p);
    }
  }

  /** Freeing a page never touched takes frame 0 from whoever has it. */
  lemma FreeingUntouchedTakesFrame0()
    ensures var kernel, page := Block(1, SmallPage, InRam(0)), Block(1, SmallPage, Nowhere);
            var s := State([true], [], [], map[Owner.Kernel(0) := kernel, Virtual(0, 0) := page]);
            FramesOwned(s) && !FramesOwned(ReleaseAsWritten(s, Virtual(0, 0)))
  {
    var kernel, page := Block(1, SmallPage, InRam(0)), Block(1, SmallPage, Nowhere);
    var s := State([true], [], [], map[Owner.Kernel(0) := kernel, Virtual(0, 0) := page]);
    assert kernel.Covers(0) && page.Length() == 1 && Field(page.place) == 0 && s.table[0];
    assert s.blocks[Owner.Kernel(0)] == kernel && s.blocks[Virtual(0, 0)] == page;
    ReleaseAsWrittenOwns(s, Virtual(0, 0));
  }

  /** `mem_realloc` as written up to its array: slot h is a present page in the frame that the field of
      page h names. */
  ghost function ParkAsWritten(s: State, call: nat, pid: nat, page: nat, n: nat, size: PageType): State
    requires forall h | 0 <= h < n :: Virtual(pid, At(page, h, size)) in s.blocks
  {
    var stay := set o | o in s.blocks && !IsPage(o, pid, page, n, size);
    var slots := set h | 0 <= h < n :: Parked(call, h);
    s.(blocks := map o | o in stay + slots ::
                     if o in slots then Present(s, Virtual(pid, At(page, o.slot, size))) else s.blocks[o])
  }

  function Present(s: State, o: Owner): Block {
    if o in s.blocks then s.blocks[o].(place := InRam(Field(s.blocks[o].place))) else Block(0, SmallPage, Nowhere)
  }

  /** Every frame keeps exactly its one owner exactly when every page that moves is in memory. */
  lemma ParkAsWrittenOwns(w: World, call: nat, pid: nat, page: nat, n: nat, size: PageType)
    requires FramesOwned(w.s) && HasAll(w, pid, page, n, size) && Unused(w, call)
    ensures FramesOwned(ParkAsWritten(w.s, call, pid, page, n, size))
            <==> forall h | 0 <= h < n :: w.s.blocks[Virtual(pid, At(page, h, size))].place.InRam?
  {
    var s' := ParkAsWritten(w.s, call, pid, page, n, size);
    if forall h | 0 <= h < n :: w.s.blocks[Virtual(pid, At(page, h, size))].place.InRam? {
      AllParkedOwned(w.s, s', call, pid, page, n, size);
    } else {
      var h :| 0 <= h < n && !w.s.blocks[Virtual(pid, At(page, h, size))].place.InRam?;
      StrayFrame(w.s, s', call, pid, page, n, size, h);
    }
  }

  lemma AllParkedOwned(s: State, s': State, call: nat, pid: nat, page: nat, n: nat, size: PageType)
    requires FramesOwned(s) && forall h: nat :: Parked(call, h) !in s.blocks
    requires forall h | 0 <= h < n ::
               Virtual(pid, At(page, h, size)) in s.blocks && s.blocks[Virtual(pid, At(page, h, size))].place.InRam?
    requires s' == ParkAsWritten(s, call, pid, page, n, size)
    ensures FramesOwned(s')
  {
    forall o | o in s'.blocks ensures Was(o, call, pid, page, size) in s.blocks
      ensures s'.blocks[o] == s.blocks[Was(o, call, pid, page, size)]
    {
    }
    forall o, o', p | o in s'.blocks && o' in s'.blocks && s'.blocks[o].Covers(p)
        && s'.blocks[o'].Covers(p) ensures o == o' {
      var q, q' := Was(o, call, pid, page, size), Was(o', call, pid, page, size);
      assert s.blocks[q].Covers(p) && s.blocks[q'].Covers(p) && q == q';
      if o != o' {
        DistinctWere(s, s', call, pid, page, n, size, o, o');
      }
    }
    forall p | 0 <= p < |s'.table| && s'.table[p] ensures exists o :: o in s'.blocks && s'.blocks[o].Covers(p) {
      var q :| q in s.blocks && s.blocks[q].Covers(p);
      if IsPage(q, pid, page, n, size) {
        var h: nat :| h < n && q == Virtual(pid, At(page, h, size));
        assert s'.blocks[Parked(call, h)] == s.blocks[q];
      } else {
        assert s'.blocks[q].Covers(p);
      }
    }
  }

  function Was(o: Owner, call: nat, pid: nat, page: nat, size: PageType): Owner {
    if o.Parked? && o.call == call then Virtual(pid, At(page, o.slot, size)) else o
  }

  lemma DistinctWere(s: State, s': State, call: nat, pid: nat, page: nat, n: nat, size: PageType, o: Owner, o': Owner)
    requires forall h | 0 <= h < n :: Virtual(pid, At(page, h, size)) in s.blocks
    requires forall h: nat :: Parked(call, h) !in s.blocks
    requires s' == ParkAsWritten(s, call, pid, page, n, size) && o in s'.blocks && o' in s'.blocks && o != o'
    ensures Was(o, call, pid, page, size) != Was(o', call, pid, page, size)
  {
    if o.Parked? && o.call == call && o'.Parked? && o'.call == call {
      if o.slot < o'.slot {
        AtEnd(page, o.slot, o'.slot, size);
      } else {
        AtEnd(page, o'.slot, o.slot, size);
      }
    }
  }

  /** A page that is not in memory comes out as a present one in a frame that is free or another's. */
  lemma StrayFrame(s: State, s': State, call: nat, pid: nat, page: nat, n: nat, size: PageType, h: nat)
    requires FramesOwned(s) && forall i: nat :: Parked(call, i) !in s.blocks
    requires forall i | 0 <= i < n ::
               Virtual(pid, At(page, i, size)) in s.blocks && s.blocks[Virtual(pid, At(page, i, size))].Length() > 0
    requires s' == ParkAsWritten(s, call, pid, page, n, size)
    requires h < n && !s.blocks[Virtual(pid, At(page, h, size))].place.InRam?
    ensures !FramesOwned(s')
  {
    var page_ := Virtual(pid, At(page, h, size));
    var p := Field(s.blocks[page_].place);
    assert Parked(call, h) in s'.blocks && s'.blocks[Parked(call, h)].Covers(p);
    if p < |s.table| && s.table[p] {
      var q :| q in s.blocks && s.blocks[q].Covers(p);
      if IsPage(q, pid, page, n, size) {
        var i: nat :| i < n && q == Virtual(pid, At(page, i, size));
        assert Parked(call, i) in s'.blocks && s'.blocks[Parked(call, i)].Covers(p) && i != h;
      } else {
        assert q in s'.blocks && s'.blocks[q].Covers(p);
      }
    }
  }
}
