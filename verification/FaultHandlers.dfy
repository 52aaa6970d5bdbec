/** The fault handlers and the swapper on the kernel's own mutable state, each proved to make exactly
    one transition of Paging. */
module FaultHandlers {
  import opened PageTypes
  import opened Bitmap
  import opened Paging
  import opened Effects

  /** Swapping out the given entries one after the other. */
  ghost function SwapEach(w: World, entries: seq<Owner>): World {
    if entries == [] then w else SwapOut(SwapEach(w, entries[..|entries| - 1]), entries[|entries| - 1])
  }

  lemma {:induction false} SwapEachKeeps(w: World, entries: seq<Owner>, o: Owner, off: nat, value: Byte)
    requires Valid(w) && Holds(w, o, off, value)
    ensures Valid(SwapEach(w, entries)) && Holds(SwapEach(w, entries), o, off, value)
    ensures ByteAt(SwapEach(w, entries).s, SwapEach(w, entries).s.blocks[o], off) == Some(value)
  {
    if entries != [] {
      SwapEachKeeps(w, entries[..|entries| - 1], o, off, value);
      SwapOutKeeps(SwapEach(w, entries[..|entries| - 1]), entries[|entries| - 1]);
    }
  }

  /** No partition has a free run of that length. */
  ghost predicate Full(s: State, len: nat) {
    forall a | 0 <= a < |s.areas| :: !HasRun(s.areas[a].used, len)
  }

  lemma FullStays(w: World, o: Owner, len: nat)
    requires Valid(w) && Full(w.s, len)
    ensures Full(SwapOut(w, o).s, len)
  {
    var s, s' := w.s, SwapOut(w, o).s;
    forall a | 0 <= a < |s'.areas| ensures !HasRun(s'.areas[a].used, len) {
      forall at | FreeRun(s'.areas[a].used, at, len) ensures HasRun(s.areas[a].used, len) {
        assert FreeRun(s.areas[a].used, at, len);
      }
    }
  }

  lemma SwapOutLeaves(w: World, o: Owner, q: Owner)
    requires Valid(w) && q in w.s.blocks
    ensures q in SwapOut(w, o).s.blocks && SwapOut(w, o).s.blocks[q].Length() == w.s.blocks[q].Length()
    ensures SwapOut(w, o).s.blocks[q].place.InRam? ==> w.s.blocks[q].place.InRam?
    ensures q == o && SwapOut(w, o).s.blocks[q].place.InRam? ==> Full(SwapOut(w, o).s, w.s.blocks[q].Length())
  {
    if o in w.s.blocks && w.s.blocks[o].place.InRam? {
      SwapOutTakes(w, o);
      assert q != o ==> KeepsAll(w.s, SwapOut(w, o).s, q);
    }
  }

  /** A whole process goes out: an entry that is still in memory afterwards found no partition with room. */
  lemma {:induction false} SwapEachTakesOut(w: World, entries: seq<Owner>, o: Owner)
    requires Valid(w) && o in w.s.blocks
    ensures var s := SwapEach(w, entries).s;
            && Valid(SwapEach(w, entries)) && o in s.blocks && s.blocks[o].Length() == w.s.blocks[o].Length()
            && (o in entries && s.blocks[o].place.InRam? ==> Full(s, s.blocks[o].Length()))
  {
    if entries != [] {
      var last := |entries| - 1;
      var before := SwapEach(w, entries[..last]);
      SwapEachTakesOut(w, entries[..last], o);
      SwapOutKeeps(before, entries[last]);
      SwapOutLeaves(before, entries[last], o);
      if Full(before.s, before.s.blocks[o].Length()) {
        FullStays(before, entries[last], before.s.blocks[o].Length());
      }
      assert o in entries ==> o in entries[..last] || o == entries[last];
    }
  }

  /** `pool_alloc` over a partition's pages: the first long enough free run. */
  method FindRun(used: seq<bool>, len: nat) returns (r: Option<nat>)
    ensures r == FirstFit(used, 0, |used|, len, SmallPage)
  {
    var i, g := 0, 0;
    while i < |used| && g < len
      invariant 0 <= g <= i <= |used| && g <= len
      invariant FreeRun(used, i - g, g)
      invariant forall s | 0 <= s < i - g :: !Fit(used, s, len, SmallPage, |used|)
    {
      if used[i] {
        forall s | 0 <= s < i + 1 ensures !Fit(used, s, len, SmallPage, |used|) {
          assert s + len > i ==> !FreeRun(used, s, len) || s > i;
        }
        g := 0;
      } else {
        g := g + 1;
      }
      i := i + 1;
    }
    if g == len {
      FirstFitIs(used, i - g, |used|, len, SmallPage);
      r := Some(i - g);
    } else {
      r := None;
    }
  }

  // ----- which partition a swap number means -----

  datatype Partition = Vacant | Swap | Other

  /** The countdown of `hardfault_handler` from partition `from` on: one for each occupied SWAP partition,
      until none is left to count. */
  function Numbered(parts: seq<Partition>, from: nat, ct: int): (r: Option<nat>)
    ensures r.Some? ==> from <= r.value < |parts|
    decreases |parts| - from
  {
    if from >= |parts| then None
    else if parts[from].Vacant? then Numbered(parts, from + 1, ct)
    else
      var left := if parts[from].Swap? then ct - 1 else ct;
      if left == 0 then Some(from) else Numbered(parts, from + 1, left)
  }

  method FindNumbered(parts: seq<Partition>, number: nat) returns (r: Option<nat>)
    ensures r == Numbered(parts, 0, number)
  {
    var ct: int := number;
    for i := 0 to |parts|
      invariant Numbered(parts, i, ct) == Numbered(parts, 0, number)
    {
      if !parts[i].Vacant? {
        if parts[i].Swap? {
          ct := ct - 1;
        }
        if ct == 0 {
          return Some(i);
        }
      }
    }
    r := None;
  }

  /** `swap_process` counts every partition it tries, so it leaves number i+1 for partition i. The handler
      comes back to that partition exactly when it and all before it are occupied SWAP partitions. */
  lemma NumberComesBack(parts: seq<Partition>, i: nat)
    requires i < |parts|
    ensures Numbered(parts, 0, i + 1) == Some(i) <==> forall j | 0 <= j <= i :: parts[j].Swap?
  {
    CountdownReaches(parts, 0, i + 1, i);
  }

  lemma {:induction false} CountdownReaches(parts: seq<Partition>, from: nat, ct: int, i: nat)
    requires from <= i < |parts| && ct > i - from
    ensures Numbered(parts, from, ct) == Some(i) <==> ct == i - from + 1 && forall j | from <= j <= i :: parts[j].Swap?
    decreases i - from
  {
    if from < i {
      CountdownReaches(parts, from + 1, if parts[from].Swap? then ct - 1 else ct, i);
    }
  }

  /** memcpy, byte after byte. */
  function CopyForward(bytes: seq<Byte>, from: nat, to: nat, n: nat): (r: seq<Byte>)
    requires from + n <= |bytes| && to + n <= |bytes|
    ensures |r| == |bytes|
  {
    if n == 0 then bytes
    else
      var r := CopyForward(bytes, from, to, n - 1);
      r[to + n - 1 := r[from + n - 1]]
  }

  /** Between places that do not overlap it moves the bytes as they were. */
  lemma {:induction false} CopyIsOverwrite(bytes: seq<Byte>, from: nat, to: nat, n: nat)
    requires from + n <= |bytes| && to + n <= |bytes| && (from + n <= to || to + n <= from)
    ensures CopyForward(bytes, from, to, n) == Overwrite(bytes, to, bytes[from..from + n])
  {
    if n > 0 {
      CopyIsOverwrite(bytes, from, to, n - 1);
      assert bytes[from..from + n][..n - 1] == bytes[from..from + n - 1];
    }
  }

  /** Runs of pages, one in use and one free, do not overlap; nor do their bytes. */
  lemma RunsApart(table: seq<bool>, base: nat, len: nat, s: nat, want: nat, previous: nat)
    requires base + len <= |table| && (forall p | base <= p < base + len :: table[p])
    requires FreeRun(table, s, want) && previous <= len && previous <= want
    ensures base + previous <= s || s + previous <= base
  {
    if previous > 0 {
      var p := if s < base then base else s;
      assert table[p] || !table[p];
    }
  }

  class Vm {
    const mm: Kingmem
    const ram: array<Byte>
    var areas: seq<Area>
    var blocks: map<Owner, Block>

    constructor (mm: Kingmem, ram: array<Byte>, areas: seq<Area>)
      ensures this.mm == mm && this.ram == ram && View() == State(mm.physRamTable[..], ram[..], areas, map[])
    {
      this.mm, this.ram, this.areas, this.blocks := mm, ram, areas, map[];
    }

    ghost function View(): State
      reads this, mm, mm.physRamTable, ram
    {
      State(mm.physRamTable[..], ram[..], areas, blocks)
    }

    ghost predicate Apart()
      reads this
    {
      mm.physRamTable as object != ram as object
    }

    /** `softfault_handler`: back a RESERVE entry never touched. An address without an entry is a
        segmentation fault. */
    method SoftfaultHandler(o: Owner, ghost mem: Memory) returns (segv: bool)
      requires Apart()
      modifies this`blocks, mm.physRamTable
      ensures World(View(), mem) == Back(World(old(View()), mem), o)
      ensures segv <==> o !in old(blocks)
      ensures o in old(blocks) && old(blocks)[o].place.Nowhere? ==> FirstTouched(old(View()), View(), o)
    {
      if o in blocks && blocks[o].place.Nowhere? {
        BackTouches(World(View(), mem), o);
      }
      segv := o !in blocks;
      if o in blocks && blocks[o].place.Nowhere? {
        var phys := mm.Malloc(blocks[o].count, blocks[o].size);
        if phys.Some? {
          blocks := blocks[o := blocks[o].(place := InRam(phys.value))];
        }
      }
    }

    /** `raw_read` of a page into its new frame. */
    method Fill(frame: nat, data: seq<Byte>)
      modifies ram
      ensures ram[..] == Overwrite(old(ram[..]), frame * PAGE_BYTES, data)
    {
      var i := 0;
      while i < |data| && frame * PAGE_BYTES + i < ram.Length
        invariant 0 <= i <= |data|
        invariant ram[..] == Overwrite(old(ram[..]), frame * PAGE_BYTES, data[..i])
      {
        ram[frame * PAGE_BYTES + i] := data[i];
        i := i + 1;
      }
    }

    /** `hardfault_handler`: bring a SWAPPED entry back. Any other entry is a segmentation fault; a swap
        number without a partition kills the process, and the frame claimed for it goes back. */
    method HardfaultHandler(o: Owner, ghost mem: Memory) returns (segv: bool, killed: bool)
      requires Apart() && ram.Length == mm.physRamTable.Length * PAGE_BYTES
      modifies this`blocks, mm.physRamTable, ram
      ensures World(View(), mem) == SwapIn(World(old(View()), mem), o)
      ensures segv <==> !(o in old(blocks) && old(blocks)[o].place.OnDisk?)
      ensures Valid(World(old(View()), mem)) && !segv ==> BroughtIn(old(View()), View(), o)
      ensures killed <==> (!segv && old(blocks)[o].place.area >= |areas| &&
                           FirstFit(old(mm.physRamTable[..]), 0, ScanEnd(mm.physRamTable.Length),
                                    old(blocks)[o].Length(), old(blocks)[o].size).Some?)
    {
      ghost var w := World(View(), mem);
      if Valid(w) && o in blocks && blocks[o].place.OnDisk? {
        SwapInBrings(w, o);
      }
      segv, killed := !(o in blocks && blocks[o].place.OnDisk?), false;
      if segv {
        return;
      }
      var b := blocks[o];
      var phys := mm.Malloc(b.count, b.size);
      if phys.Some? {
        if b.place.area >= |areas| {
          mm.MFree(phys.value, b.count, b.size);
          killed := true;
          assert mm.physRamTable[..] == old(mm.physRamTable[..]);
        } else {
          var data := Contents(State([], [], areas, map[]), b);
          assert data == Contents(old(View()), b);
          Fill(phys.value, data);
          blocks := blocks[o := b.(place := InRam(phys.value))];
        }
      }
    }

    /** `mrealloc`: a new run, the old contents in it, and the old run released, also when there is no new
        one (the source then copies to address 0). It copies the old length whatever the new one is; a new
        run as long as the old holds the old bytes. */
    method MRealloc(base: nat, previous: nat, pages: nat, pagetype: PageType, backup: bool) returns (r: Option<nat>)
      requires Apart() && ram.Length == mm.physRamTable.Length * PAGE_BYTES
      requires base + Pages(pagetype) * previous <= mm.physRamTable.Length
      requires forall p | base <= p < base + Pages(pagetype) * previous :: mm.physRamTable[p]
      modifies mm.physRamTable, ram
      ensures var table, end := old(mm.physRamTable[..]), ScanEnd(mm.physRamTable.Length);
              r == FirstFit(table, 0, end, Pages(pagetype) * pages, pagetype)
      ensures forall p | 0 <= p < mm.physRamTable.Length ::
                mm.physRamTable[p] == if r.Some? && r.value <= p < r.value + Pages(pagetype) * pages &&
                                         !(base <= p < base + Pages(pagetype) * previous) then true
                                      else if base <= p < base + Pages(pagetype) * previous then false
                                      else old(mm.physRamTable[p])
      ensures r.None? || !backup ==> ram[..] == old(ram[..])
      ensures var end := base + Pages(pagetype) * previous;
              r.Some? && backup && previous <= pages ==>
                ram[..] == Overwrite(old(ram[..]), r.value * PAGE_BYTES, old(ram[base * PAGE_BYTES..end * PAGE_BYTES]))
    {
      ghost var table := mm.physRamTable[..];
      r := mm.Malloc(pages, pagetype);
      if r.Some? && backup {
        RunGrows(pagetype, previous, pages);
        CopyRun(table, base, Pages(pagetype) * previous, r.value, Pages(pagetype) * pages);
      }
      mm.MFree(base, previous, pagetype);
    }

    method CopyRun(ghost table: seq<bool>, base: nat, len: nat, to: nat, ghost want: nat)
      requires base + len <= |table| && |table| * PAGE_BYTES == ram.Length && FreeRun(table, to, want)
      requires forall p | base <= p < base + len :: table[p]
      modifies ram
      ensures len <= want ==>
                ram[..] == Overwrite(old(ram[..]), to * PAGE_BYTES,
                    old(ram[base * PAGE_BYTES..(base + len) * PAGE_BYTES]))
    {
      if len <= want {
        RunsApart(table, base, len, to, want, len);
        CopyIsOverwrite(ram[..], base * PAGE_BYTES, to * PAGE_BYTES, len * PAGE_BYTES);
      }
      MemCopy(base * PAGE_BYTES, to * PAGE_BYTES, len * PAGE_BYTES);
    }

    /** The copying macro; what would lie past memory is not copied. */
    method MemCopy(from: nat, to: nat, bytes: nat)
      requires from + bytes <= ram.Length
      modifies ram
      ensures to + bytes <= ram.Length ==> ram[..] == CopyForward(old(ram[..]), from, to, bytes)
    {
      var i := 0;
      while i < bytes && to + i < ram.Length
        invariant 0 <= i <= bytes && (i > 0 ==> to + i <= ram.Length)
        invariant to + i <= ram.Length ==> ram[..] == CopyForward(old(ram[..]), from, to, i)
      {
        ram[to + i] := ram[from + i];
        i := i + 1;
      }
    }

    /** The partition search of `swap_process`. The source declares its two counters nowhere; here every
        page starts at the first partition. */
    method FindPartition(len: nat) returns (r: Option<(nat, nat)>)
      ensures r == FindSwap(areas, 0, len)
      ensures r.None? <==> forall a | 0 <= a < |areas| :: !HasRun(areas[a].used, len)
      ensures r.Some? ==> r.value.0 < |areas| && FreeRun(areas[r.value.0].used, r.value.1, len)
      ensures r.Some? ==> forall a | 0 <= a < r.value.0 :: !HasRun(areas[a].used, len)
    {
      FindSwapIsFirst(areas, 0, len);
      var i := 0;
      while i < |areas|
        invariant 0 <= i <= |areas|
        invariant FindSwap(areas, 0, len) == FindSwap(areas, i, len)
      {
        var position := FindRun(areas[i].used, len);
        if position.Some? {
          return Some((i, position.value));
        }
        i := i + 1;
      }
      r := None;
    }

    /** The second half of a turn: the page goes to its place on disk and its frame back. */
    method WriteOut(o: Owner, area: nat, position: nat)
      requires Apart() && o in blocks && blocks[o].place.InRam? && area < |areas|
      requires blocks[o].place.frame + blocks[o].Length() <= mm.physRamTable.Length
      modifies this`areas, this`blocks, mm.physRamTable
      ensures View() == SwappedTo(old(View()), o, area, position)
    {
      var b, a := blocks[o], areas[area];
      var data := Contents(State([], ram[..], [], map[]), b);
      assert data == Contents(old(View()), b);
      areas := areas[area := Area(Marked(a.used, position, b.Length()),
          Overwrite(a.bytes, position * PAGE_BYTES, data))];
      mm.MFree(b.place.frame, b.count, b.size);
      blocks := blocks[o := b.(place := OnDisk(area, position))];
    }

    /** One turn of the loop in `swap_process`. */
    method SwapEntry(o: Owner, ghost mem: Memory)
      requires o in blocks && blocks[o].place.InRam?
               ==> blocks[o].place.frame + blocks[o].Length() <= mm.physRamTable.Length
      requires Apart()
      modifies this`areas, this`blocks, mm.physRamTable
      ensures World(View(), mem) == SwapOut(World(old(View()), mem), o)
      ensures Valid(World(old(View()), mem)) && o in old(blocks) && old(blocks)[o].place.InRam? ==>
                TakenOut(old(View()), View(), o)
    {
      if Valid(World(View(), mem)) && o in blocks && blocks[o].place.InRam? {
        SwapOutTakes(World(View(), mem), o);
      }
      if o in blocks && blocks[o].place.InRam? {
        var room := FindPartition(blocks[o].Length());
        if room.Some? {
          WriteOut(o, room.value.0, room.value.1);
        }
      }
    }

    /** `swap_process` over the entries of a process' tree. */
    method SwapProcess(entries: seq<Owner>, ghost mem: Memory)
      requires Apart() && Valid(World(View(), mem))
      modifies this`areas, this`blocks, mm.physRamTable
      ensures World(View(), mem) == SwapEach(World(old(View()), mem), entries)
    {
      ghost var w := World(View(), mem);
      var i := 0;
      while i < |entries|
        invariant 0 <= i <= |entries|
        invariant Valid(World(View(), mem))
        invariant World(View(), mem) == SwapEach(w, entries[..i])
      {
        ghost var before := World(View(), mem);
        SwapEntry(entries[i], mem);
        SwapOutKeeps(before, entries[i]);
        assert entries[..i + 1][..i] == entries[..i];
        i := i + 1;
      }
      assert entries[..i] == entries;
    }
  }

  lemma RunGrows(pagetype: PageType, a: nat, b: nat)
    ensures a <= b ==> Pages(pagetype) * a <= Pages(pagetype) * b
  {
    match pagetype
    case Lev4 =>
    case BigPage =>
    case MidPage =>
    case SmallPage =>
  }

  function Marked(used: seq<bool>, position: nat, len: nat): (r: seq<bool>)
    ensures r == SetRange(used, position, len, true)
  {
    seq(|used|, p requires 0 <= p < |used| => if position <= p < position + len then true else used[p])
  }
}
