/** What each step of paging does, told by the entries, the bitmap and the bytes an owner finds: the page
    concerned, and that every other owner keeps its block and every byte of it, stored or not. */
module Effects {
  import opened PageTypes
  import opened Bitmap
  import opened Paging

  /** The owner has the block it had, with the bytes it had, or none as before. */
  ghost predicate KeepsAll(s: State, s': State, o: Owner) {
    && (o in s'.blocks <==> o in s.blocks)
    && (o in s.blocks ==> s'.blocks[o] == s.blocks[o] && SameBytes(s, s.blocks[o], s', s.blocks[o]))
  }

  ghost predicate SameBytes(s: State, b: Block, s': State, b': Block) {
    b'.Bytes() == b.Bytes() && forall off | 0 <= off < b.Bytes() :: ByteAt(s', b', off) == ByteAt(s, b, off)
  }

  ghost predicate OthersKeep(s: State, s': State, o: Owner) {
    forall q | q != o :: KeepsAll(s, s', q)
  }

  /** The pages of the run became so, no other one changed. */
  ghost predicate OnlyRun(table: seq<bool>, table': seq<bool>, at: nat, len: nat, value: bool) {
    && |table'| == |table|
    && forall p | 0 <= p < |table| :: table'[p] == if at <= p < at + len then value else table[p]
  }

  /** Memory has an aligned free run of that length, but for its last page. */
  ghost predicate HasFrame(table: seq<bool>, len: nat, size: PageType) {
    exists f: nat :: Fit(table, f, len, size, ScanEnd(|table|))
  }

  /** The block of o is in memory, in the first aligned run that was free, and that run alone was taken. */
  ghost predicate GotFrame(s: State, s': State, o: Owner)
    requires o in s'.blocks
  {
    var b := s'.blocks[o];
    && b.place.InRam? && b.place.frame % Pages(b.size) == 0
    && b.place.frame + b.Length() <= ScanEnd(|s.table|) && FreeRun(s.table, b.place.frame, b.Length())
    && (forall f: nat | f < b.place.frame :: !Fit(s.table, f, b.Length(), b.size, ScanEnd(|s.table|)))
    && OnlyRun(s.table, s'.table, b.place.frame, b.Length(), true)
  }

  /** The block is as long and of the same page size. */
  ghost predicate SameLength(s: State, s': State, o: Owner) {
    && o in s.blocks && o in s'.blocks
    && s'.blocks[o].count == s.blocks[o].count && s'.blocks[o].size == s.blocks[o].size
  }

  // ----- faults -----

  /** A page never touched gets a frame exactly when there is one; otherwise nothing changes. */
  ghost predicate FirstTouched(s: State, s': State, o: Owner) {
    && SameLength(s, s', o) && OthersKeep(s, s', o) && s'.ram == s.ram && s'.areas == s.areas
    && if HasFrame(s.table, s.blocks[o].Length(), s.blocks[o].size) then GotFrame(s, s', o) else s' == s
  }

  lemma BackTouches(w: World, o: Owner)
    requires o in w.s.blocks && w.s.blocks[o].place.Nowhere?
    ensures FirstTouched(w.s, Back(w, o).s, o)
  {
  }

  /** First touch: the fault on a reserved page. */
  lemma SoftFaultBacks(k: Kernel, pid: nat, page: nat)
    requires Virtual(pid, page) in k.w.s.blocks && k.w.s.blocks[Virtual(pid, page)].place.Nowhere?
    ensures FirstTouched(k.w.s, Next(k, SoftFault(pid, page)).w.s, Virtual(pid, page))
  {
    BackTouches(k.w, Virtual(pid, page));
  }

  lemma ClaimKeeps(w: World, w': World, o: Owner, frame: nat, data: seq<Byte>, q: Owner)
    requires Valid(w) && Claims(w, w', o, frame, data) && q != o
    ensures KeepsAll(w.s, w'.s, q)
  {
    ClaimFrames(w.s, w'.s, o, frame);
    if q in w.s.blocks && w.s.blocks[q].place.InRam? {
      forall i: nat | i < w.s.blocks[q].Bytes()
        ensures ByteAt(w'.s, w.s.blocks[q], i) == ByteAt(w.s, w.s.blocks[q], i)
      {
        OutsideFrame(w'.s, o, q, i);
      }
    }
  }

  lemma ClaimFills(w: World, w': World, o: Owner, frame: nat, data: seq<Byte>)
    requires Valid(w) && Claims(w, w', o, frame, data) && w.s.blocks[o].place.OnDisk?
    ensures SameBytes(w.s, w.s.blocks[o], w'.s, w'.s.blocks[o])
  {
    var b := w.s.blocks[o];
    forall i: nat | i < b.Bytes() ensures ByteAt(w'.s, w'.s.blocks[o], i) == ByteAt(w.s, b, i) {
      var at := frame * PAGE_BYTES + i;
      assert w'.s.ram[at] == data[i];
    }
  }

  /** A page on disk comes into a frame with every byte it had, exactly when there is one. */
  ghost predicate BroughtIn(s: State, s': State, o: Owner) {
    && SameLength(s, s', o) && OthersKeep(s, s', o) && s'.areas == s.areas
    && SameBytes(s, s.blocks[o], s', s'.blocks[o])
    && if HasFrame(s.table, s.blocks[o].Length(), s.blocks[o].size) then GotFrame(s, s', o) else s' == s
  }

  lemma SwapInBrings(w: World, o: Owner)
    requires Valid(w) && o in w.s.blocks && w.s.blocks[o].place.OnDisk?
    ensures BroughtIn(w.s, SwapIn(w, o).s, o)
  {
    var w' := SwapIn(w, o);
    if HasFrame(w.s.table, w.s.blocks[o].Length(), w.s.blocks[o].size) {
      var frame, data := w'.s.blocks[o].place.frame, Contents(w.s, w.s.blocks[o]);
      forall q | q != o ensures KeepsAll(w.s, w'.s, q) {
        ClaimKeeps(w, w', o, frame, data, q);
      }
      ClaimFills(w, w', o, frame, data);
    }
  }

  lemma HardFaultBringsIn(k: Kernel, pid: nat, page: nat)
    requires Valid(k.w) && Virtual(pid, page) in k.w.s.blocks && k.w.s.blocks[Virtual(pid, page)].place.OnDisk?
    ensures BroughtIn(k.w.s, Next(k, HardFault(pid, page)).w.s, Virtual(pid, page))
  {
    SwapInBrings(k.w, Virtual(pid, page));
  }

  /** A page in memory goes to the first partition with a free run, with every byte it had, and its
      frames alone come free; exactly when there is one. */
  ghost predicate TakenOut(s: State, s': State, o: Owner) {
    && SameLength(s, s', o) && OthersKeep(s, s', o) && s.blocks[o].place.InRam?
    && SameBytes(s, s.blocks[o], s', s'.blocks[o])
    && if exists a | 0 <= a < |s.areas| :: HasRun(s.areas[a].used, s.blocks[o].Length()) then
         && s'.blocks[o].place.OnDisk?
         && OnlyRun(s.table, s'.table, s.blocks[o].place.frame, s.blocks[o].Length(), false)
         && OnFirst(s.areas, s'.areas, s'.blocks[o].place.area, s'.blocks[o].place.position, s.blocks[o].Length())
       else s' == s
  }

  ghost predicate OnFirst(areas: seq<Area>, areas': seq<Area>, a: nat, position: nat, len: nat) {
    && |areas'| == |areas| && a < |areas|
    && (forall i | 0 <= i < a :: !HasRun(areas[i].used, len))
    && FreeRun(areas[a].used, position, len) && OnlyRun(areas[a].used, areas'[a].used, position, len, true)
    && (forall i | 0 <= i < |areas| && i != a :: areas'[i] == areas[i])
  }

  lemma WrittenKeeps(w: World, w': World, o: Owner, area: nat, position: nat, data: seq<Byte>, q: Owner)
    requires Valid(w) && WritesOut(w, w', o, area, position, data) && q != o
    ensures KeepsAll(w.s, w'.s, q)
  {
    ClaimSwap(w.s, w'.s, o, area, position);
    if q in w.s.blocks && w.s.blocks[q].place.OnDisk? && w.s.blocks[q].place.area == area {
      forall i: nat | i < w.s.blocks[q].Bytes()
        ensures ByteAt(w'.s, w.s.blocks[q], i) == ByteAt(w.s, w.s.blocks[q], i)
      {
        OutsidePosition(w'.s, o, q, i);
      }
    }
  }

  lemma WrittenHolds(w: World, w': World, o: Owner, area: nat, position: nat, data: seq<Byte>)
    requires Valid(w) && WritesOut(w, w', o, area, position, data)
    ensures SameBytes(w.s, w.s.blocks[o], w'.s, w'.s.blocks[o])
  {
    var bytes, b := w'.s.areas[area].bytes, w.s.blocks[o];
    forall i: nat | i < b.Bytes() ensures ByteAt(w'.s, w'.s.blocks[o], i) == ByteAt(w.s, b, i) {
      var at := position * PAGE_BYTES + i;
      assert bytes[at] == data[i];
    }
  }

  lemma SwapPageTakesOut(k: Kernel, pid: nat, page: nat)
    requires Valid(k.w) && Virtual(pid, page) in k.w.s.blocks && k.w.s.blocks[Virtual(pid, page)].place.InRam?
    ensures TakenOut(k.w.s, Next(k, SwapPage(pid, page)).w.s, Virtual(pid, page))
  {
    SwapOutTakes(k.w, Virtual(pid, page));
  }

  lemma SwapOutTakes(w: World, o: Owner)
    requires Valid(w) && o in w.s.blocks && w.s.blocks[o].place.InRam?
    ensures TakenOut(w.s, SwapOut(w, o).s, o)
  {
    var w', b := SwapOut(w, o), w.s.blocks[o];
    FindSwapIsFirst(w.s.areas, 0, b.Length());
    var room := FindSwap(w.s.areas, 0, b.Length());
    if room.Some? {
      var data := Contents(w.s, b);
      assert HasRun(w.s.areas[room.value.0].used, b.Length());
      assert WritesOut(w, w', o, room.value.0, room.value.1, data);
      forall q | q != o ensures KeepsAll(w.s, w'.s, q) {
        WrittenKeeps(w, w', o, room.value.0, room.value.1, data, q);
      }
      WrittenHolds(w, w', o, room.value.0, room.value.1, data);
    }
  }

  /** A fault on an entry that is in another state, or on none, and swapping one that is not in memory,
      change nothing. */
  lemma FaultsElsewhereChangeNothing(k: Kernel, pid: nat, page: nat)
    ensures var (o, s) := (Virtual(pid, page), k.w.s);
            && (o !in s.blocks || !s.blocks[o].place.Nowhere? ==> Next(k, SoftFault(pid, page)) == k)
            && (o !in s.blocks || !s.blocks[o].place.OnDisk? ==> Next(k, HardFault(pid, page)) == k)
            && (o !in s.blocks || !s.blocks[o].place.InRam? ==> Next(k, SwapPage(pid, page)) == k)
  {
  }

  // ----- allocating and freeing -----

  /** A new owner gets its block in a frame exactly when there is one; otherwise nothing changes. */
  ghost predicate Obtained(s: State, s': State, o: Owner, count: nat, size: PageType) {
    && OthersKeep(s, s', o) && s'.ram == s.ram && s'.areas == s.areas
    && if o !in s.blocks && HasFrame(s.table, count * Pages(size), size) then
         && o in s'.blocks && s'.blocks[o].count == count && s'.blocks[o].size == size && GotFrame(s, s', o)
       else s' == s
  }

  lemma AllocateObtains(w: World, o: Owner, count: nat, size: PageType)
    requires !o.Virtual?
    ensures Obtained(w.s, Allocate(w, o, count, size).s, o, count, size)
  {
    if o !in w.s.blocks {
      var reserved := Reserve(w, o, count, size);
      BackTouches(reserved, o);
      var back := Back(reserved, o);
      assert back.s.blocks - {o} == w.s.blocks;
    }
  }

  lemma KernelMallocObtains(k: Kernel, id: nat, pages: nat, size: PageType)
    ensures Obtained(k.w.s, Next(k, KernelMalloc(id, pages, size)).w.s, Owner.Kernel(id), pages, size)
  {
    AllocateObtains(k.w, Owner.Kernel(id), pages, size);
  }

  lemma LoadPageObtains(k: Kernel, file: nat, index: nat, size: PageType)
    ensures Obtained(k.w.s, Next(k, LoadPage(file, index, size)).w.s, FilePage(file, index), 1, size)
  {
    AllocateObtains(k.w, FilePage(file, index), 1, size);
  }

  /** The block is gone, and of the frames exactly its own came free. */
  ghost predicate GivenBack(s: State, s': State, o: Owner) {
    && o !in s'.blocks && OthersKeep(s, s', o) && s'.ram == s.ram && s'.areas == s.areas && |s'.table| == |s.table|
    && forall p | 0 <= p < |s.table| :: s'.table[p] <==> s.table[p] && !(o in s.blocks && s.blocks[o].Covers(p))
  }

  lemma KernelFreeGivesBack(k: Kernel, id: nat)
    ensures GivenBack(k.w.s, Next(k, KernelFree(id)).w.s, Owner.Kernel(id))
  {
  }

  lemma EvictPageGivesBack(k: Kernel, file: nat, index: nat)
    ensures GivenBack(k.w.s, Next(k, EvictPage(file, index)).w.s, FilePage(file, index))
  {
  }

  /** The entries are gone, and of the frames exactly theirs came free. */
  ghost predicate AllGivenBack(s: State, s': State, gone: set<Owner>) {
    && (forall o | o in gone :: o !in s'.blocks) && (forall o | o !in gone :: KeepsAll(s, s', o))
    && s'.ram == s.ram && s'.areas == s.areas && |s'.table| == |s.table|
    && forall p | 0 <= p < |s.table| ::
         s'.table[p] <==> s.table[p] && forall o | o in gone && o in s.blocks :: !s.blocks[o].Covers(p)
  }

  lemma GivenBackNext(s: State, s1: State, s2: State, o: Owner, rest: set<Owner>)
    requires GivenBack(s, s1, o) && AllGivenBack(s1, s2, rest)
    ensures AllGivenBack(s, s2, {o} + rest)
  {
    forall q | q !in {o} + rest ensures KeepsAll(s, s2, q) {
      assert KeepsAll(s, s1, q) && KeepsAll(s1, s2, q);
    }
    forall q | q in {o} + rest ensures q !in s2.blocks {
      if q !in rest {
        assert KeepsAll(s1, s2, o);
      }
    }
    forall p | 0 <= p < |s.table|
      ensures s2.table[p] <==> s.table[p] && forall q | q in {o} + rest && q in s.blocks :: !s.blocks[q].Covers(p)
    {
      forall q | q in rest && q != o ensures (q in s1.blocks <==> q in s.blocks)
        ensures q in s.blocks ==> s1.blocks[q] == s.blocks[q]
      {
        assert KeepsAll(s, s1, q);
      }
    }
  }

  lemma ReleaseGivesBack(w: World, o: Owner)
    ensures GivenBack(w.s, Release(w, o).s, o)
  {
  }

  ghost function PagesOf(pid: nat, page: nat, n: nat, size: PageType): set<Owner> {
    set h | 0 <= h < n :: Virtual(pid, At(page, h, size))
  }

  lemma PagesNext(pid: nat, page: nat, n: nat, size: PageType)
    requires n > 0
    ensures PagesOf(pid, page, n, size) == {Virtual(pid, page)} + PagesOf(pid, page + Pages(size), n - 1, size)
  {
    var all, rest := PagesOf(pid, page, n, size), PagesOf(pid, page + Pages(size), n - 1, size);
    assert Virtual(pid, At(page, 0, size)) in all;
    forall o | o in rest ensures o in all {
      var h :| 0 <= h < n - 1 && o == Virtual(pid, At(page + Pages(size), h, size));
      AtNext(page, h, size);
      assert Virtual(pid, At(page, h + 1, size)) in all;
    }
    forall o | o in all ensures o in {Virtual(pid, page)} + rest {
      var h :| 0 <= h < n && o == Virtual(pid, At(page, h, size));
      if h > 0 {
        AtNext(page, h - 1, size);
        assert Virtual(pid, At(page + Pages(size), h - 1, size)) in rest;
      }
    }
  }

  lemma {:induction false} ReleaseAllGivesBack(w: World, pid: nat, page: nat, n: nat, size: PageType)
    ensures AllGivenBack(w.s, ReleaseAll(w, pid, page, n, size).s, PagesOf(pid, page, n, size))
    decreases n
  {
    if n > 0 {
      var o, rest := Virtual(pid, page), PagesOf(pid, page + Pages(size), n - 1, size);
      PagesNext(pid, page, n, size);
      ReleaseGivesBack(w, o);
      ReleaseAllGivesBack(Release(w, o), pid, page + Pages(size), n - 1, size);
      GivenBackNext(w.s, Release(w, o).s, ReleaseAll(w, pid, page, n, size).s, o, rest);
    }
  }

  /** The owner has a single page of that size. */
  predicate HasPage(s: State, o: Owner, size: PageType) {
    o in s.blocks && s.blocks[o].count == 1 && s.blocks[o].size == size
  }

  /** SYS_FREE: the pages are gone when all of them are there, and nothing changes when one is not. */
  lemma SysFreeGivesBack(k: Kernel, pid: nat, page: nat, n: nat, size: PageType)
    requires SysSize(size, n)
    ensures var (s', pages) := (Next(k, SysFree(pid, page, n, size)).w.s, PagesOf(pid, page, n, size));
            if forall o | o in pages :: HasPage(k.w.s, o, size) then AllGivenBack(k.w.s, s', pages) else s' == k.w.s
  {
    var pages := PagesOf(pid, page, n, size);
    ReleaseAllGivesBack(k.w, pid, page, n, size);
    if forall o | o in pages :: HasPage(k.w.s, o, size) {
      assert forall h | 0 <= h < n :: Virtual(pid, At(page, h, size)) in pages;
    }
  }

  lemma {:induction false} ReleaseSetGivesBack(w: World, owners: set<Owner>)
    ensures AllGivenBack(w.s, ReleaseSet(w, owners).s, owners)
    decreases |owners|
  {
    if owners != {} {
      var o :| o in owners && ReleaseSet(w, owners) == ReleaseSet(Release(w, o), owners - {o});
      ReleaseGivesBack(w, o);
      ReleaseSetGivesBack(Release(w, o), owners - {o});
      GivenBackNext(w.s, Release(w, o).s, ReleaseSet(w, owners).s, o, owners - {o});
      assert {o} + (owners - {o}) == owners;
    }
  }

  lemma ExitGivesBack(k: Kernel, pid: nat)
    ensures AllGivenBack(k.w.s, Next(k, Exit(pid)).w.s, EntriesOf(k.w.s, pid))
  {
    ReleaseSetGivesBack(k.w, EntriesOf(k.w.s, pid));
  }

  // ----- reserving -----

  /** The pages are there, untouched, and nothing else changed. */
  ghost predicate AllReserved(s: State, s': State, pid: nat, page: nat, n: nat, size: PageType) {
    && (forall h | 0 <= h < n ::
          Virtual(pid, At(page, h, size)) in s'.blocks
          && s'.blocks[Virtual(pid, At(page, h, size))] == Block(1, size, Nowhere))
    && (forall o | o !in PagesOf(pid, page, n, size) :: KeepsAll(s, s', o))
    && s'.table == s.table && s'.ram == s.ram && s'.areas == s.areas
  }

  lemma {:induction false} ReserveAllReserves(w: World, pid: nat, page: nat, n: nat, size: PageType)
    requires HasNone(w, pid, page, n, size)
    ensures AllReserved(w.s, ReserveAll(w, pid, page, n, size).s, pid, page, n, size)
    decreases n
  {
    if n > 0 {
      var o, w' := Virtual(pid, page), ReserveAll(w, pid, page, n, size);
      var first := Reserve(w, o, 1, size);
      FirstReserved(w, pid, page, n, size);
      PagesNext(pid, page, n, size);
      ReserveAllReserves(first, pid, page + Pages(size), n - 1, size);
      forall h | 0 <= h < n
        ensures Virtual(pid, At(page, h, size)) in w'.s.blocks
        ensures w'.s.blocks[Virtual(pid, At(page, h, size))] == Block(1, size, Nowhere)
      {
        if h > 0 {
          AtNext(page, h - 1, size);
          assert Virtual(pid, At(page + Pages(size), h - 1, size)) in w'.s.blocks;
        } else {
          NotAmongNext(pid, page, n, size);
          assert At(page, 0, size) == page && KeepsAll(first.s, w'.s, o);
        }
      }
      forall q | q !in PagesOf(pid, page, n, size) ensures KeepsAll(w.s, w'.s, q) {
        assert KeepsAll(w.s, first.s, q) && KeepsAll(first.s, w'.s, q);
      }
    }
  }

  lemma FirstReserved(w: World, pid: nat, page: nat, n: nat, size: PageType)
    requires n > 0 && HasNone(w, pid, page, n, size)
    ensures var first := Reserve(w, Virtual(pid, page), 1, size);
            && first.s.blocks == w.s.blocks[Virtual(pid, page) := Block(1, size, Nowhere)]
            && first.s.(blocks := w.s.blocks) == w.s
            && HasNone(first, pid, page + Pages(size), n - 1, size)
  {
    assert n * Pages(size) == (n - 1) * Pages(size) + Pages(size) && (n - 1) * Pages(size) >= 0;
  }

  lemma NotAmongNext(pid: nat, page: nat, n: nat, size: PageType)
    requires n > 0
    ensures Virtual(pid, page) !in PagesOf(pid, page + Pages(size), n - 1, size)
  {
    if Virtual(pid, page) in PagesOf(pid, page + Pages(size), n - 1, size) {
      var h :| 0 <= h < n - 1 && Virtual(pid, page) == Virtual(pid, At(page + Pages(size), h, size));
      AtEnd(page + Pages(size), h, n - 1, size);
    }
  }

  /** Nothing the process has entered lies over the pages. */
  ghost predicate ClearOf(s: State, pid: nat, page: nat, len: nat) {
    forall o, v | o in s.blocks && page <= v < page + len :: !Spans(o, s.blocks[o], pid, v)
  }

  /** That, for entries of at least a page, is what the search of the tree asks. */
  lemma HasNoneIsClear(w: World, pid: nat, page: nat, n: nat, size: PageType)
    requires n > 0 && forall o | o in w.s.blocks && o.Virtual? :: w.s.blocks[o].Length() > 0
    ensures HasNone(w, pid, page, n, size) <==> ClearOf(w.s, pid, page, n * Pages(size))
  {
    var len := n * Pages(size);
    assert len > 0 by {
      assert len == (n - 1) * Pages(size) + Pages(size) && (n - 1) * Pages(size) >= 0;
    }
    if ClearOf(w.s, pid, page, len) {
      forall q | q in w.s.blocks && q.Virtual? && q.pid == pid
        ensures (q.page < page && q.page + w.s.blocks[q].Length() <= page) || page + len <= q.page
      {
        var v := if q.page < page then page else q.page;
        assert page <= v < page + len ==> !Spans(q, w.s.blocks[q], pid, v);
      }
    }
  }

  /** SYS_MALLOC: all the pages or none. */
  lemma SysMallocReserves(k: Kernel, pid: nat, page: Option<nat>, n: nat, size: PageType)
    ensures var s' := Next(k, SysMalloc(pid, page, n, size)).w.s;
            if SysSize(size, n) && page.Some? && HasNone(k.w, pid, page.value, n, size)
            then AllReserved(k.w.s, s', pid, page.value, n, size) else s' == k.w.s
  {
    if page.Some? && HasNone(k.w, pid, page.value, n, size) {
      ReserveAllReserves(k.w, pid, page.value, n, size);
    }
  }

  // ----- storing -----

  /** A store changes the one byte, for its owner alone. */
  lemma StoreChangesOneByte(k: Kernel, o: Owner, off: nat, value: Byte)
    requires Valid(k.w) && o in k.w.s.blocks && k.w.s.blocks[o].place.InRam? && off < k.w.s.blocks[o].Bytes()
    ensures var s, s' := k.w.s, Next(k, StoreByte(o, off, value)).w.s;
            && OthersKeep(s, s', o) && s'.blocks == s.blocks && s'.table == s.table && s'.areas == s.areas
            && forall i: nat | i < s.blocks[o].Bytes() ::
                 ByteAt(s', s.blocks[o], i) == if i == off then Some(value) else ByteAt(s, s.blocks[o], i)
  {
    var s, s' := k.w.s, Next(k, StoreByte(o, off, value)).w.s;
    forall q | q != o ensures KeepsAll(s, s', q) {
      if q in s.blocks && s.blocks[q].place.InRam? {
        forall i: nat | i < s.blocks[q].Bytes() ensures ByteAt(s', s.blocks[q], i) == ByteAt(s, s.blocks[q], i) {
          ApartInRam(s, o, q, off, i);
        }
      }
    }
  }
}
