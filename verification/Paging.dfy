/** Frames, page faults and swapping as one machine over every owner of memory.

    An Owner is whatever holds a block: an entry of a process' page tree (named by its first virtual
    page), a kernel `malloc`, a loaded file page, or a slot of the `phys[]` array that `mem_realloc`
    keeps frames in while it moves them. The tree lookup itself is the subject of PageTree; here an
    entry is found by its owner. `mem` is no part of the kernel: it remembers the byte last stored at
    every offset of every block, and is what the kernel's reads are measured against. */
module Paging {
  import opened PageTypes
  import opened Bitmap

  newtype Byte = x: int | 0 <= x < 256

  datatype Owner =
    | Virtual(pid: nat, page: nat)
    | Kernel(id: nat)
    | FilePage(file: nat, index: nat)
    | Parked(call: nat, slot: nat)

  /** Nowhere is a RESERVE entry never touched, InRam one with a frame, OnDisk a SWAPPED one. */
  datatype Place = Nowhere | InRam(frame: nat) | OnDisk(area: nat, position: nat)

  datatype Block = Block(count: nat, size: PageType, place: Place) {
    function Length(): nat { count * Pages(size) }
    function Bytes(): nat { Length() * PAGE_BYTES }
    predicate Covers(p: int) {
      place.InRam? && place.frame <= p < place.frame + Length()
    }
    predicate Stores(a: nat, p: int) {
      place.OnDisk? && place.area == a && place.position <= p < place.position + Length()
    }
  }

  /** A swap partition, counted in 4096-byte pages. */
  datatype Area = Area(used: seq<bool>, bytes: seq<Byte>)

  datatype State = State(
    table: seq<bool>,
    ram: seq<Byte>,
    areas: seq<Area>,
    blocks: map<Owner, Block>)

  type Memory = map<Owner, map<nat, Byte>>

  datatype World = World(s: State, mem: Memory)

  // ----- invariants -----

  ghost predicate Shape(s: State) {
    && |s.ram| == |s.table| * PAGE_BYTES
    && (forall a | 0 <= a < |s.areas| :: |s.areas[a].bytes| == |s.areas[a].used| * PAGE_BYTES)
  }

  /** A bitmap bit is set exactly when one owner holds that frame, and no two owners overlap. */
  ghost predicate FramesOwned(s: State) {
    && (forall o | o in s.blocks && s.blocks[o].place.InRam? ::
          s.blocks[o].place.frame + s.blocks[o].Length() <= |s.table|)
    && (forall o, p | o in s.blocks && s.blocks[o].Covers(p) :: s.table[p])
    && (forall o, o', p | o in s.blocks && o' in s.blocks && s.blocks[o].Covers(p) && s.blocks[o'].Covers(p) :: o == o')
    && (forall p | 0 <= p < |s.table| && s.table[p] :: exists o :: o in s.blocks && s.blocks[o].Covers(p))
  }

  /** Swapped blocks lie on pages their partition counts as used and do not overlap. A position is
      never given back, neither after reading it in nor with its block; see SwapRoom. */
  ghost predicate SwapOwned(s: State) {
    && (forall o | o in s.blocks && s.blocks[o].place.OnDisk? ::
          && s.blocks[o].place.area < |s.areas|
          && s.blocks[o].place.position + s.blocks[o].Length() <= |s.areas[s.blocks[o].place.area].used|)
    && (forall o, a: nat, p | o in s.blocks && s.blocks[o].Stores(a, p) :: s.areas[a].used[p])
    && (forall o, o', a: nat, p | o in s.blocks && o' in s.blocks && s.blocks[o].Stores(a, p)
        && s.blocks[o'].Stores(a, p) :: o == o')
  }

  /** The byte found through the block's present place. */
  function ByteAt(s: State, b: Block, off: nat): Option<Byte> {
    match b.place
    case Nowhere => None
    case InRam(frame) =>
      if frame * PAGE_BYTES + off < |s.ram| then Some(s.ram[frame * PAGE_BYTES + off]) else None
    case OnDisk(area, position) =>
      if area < |s.areas| && position * PAGE_BYTES + off < |s.areas[area].bytes|
      then Some(s.areas[area].bytes[position * PAGE_BYTES + off]) else None
  }

  ghost predicate Remembered(w: World) {
    forall o, off | o in w.mem && off in w.mem[o] ::
      o in w.s.blocks && off < w.s.blocks[o].Bytes() && ByteAt(w.s, w.s.blocks[o], off) == Some(w.mem[o][off])
  }

  /** The block of o lies at virtual page v of the process. */
  predicate Spans(o: Owner, b: Block, pid: nat, v: int) {
    o.Virtual? && o.pid == pid && o.page <= v < o.page + b.Length()
  }

  /** Every virtual page is in at most one entry. */
  ghost predicate OneEntry(s: State) {
    forall o, o', pid, v | o in s.blocks && o' in s.blocks && Spans(o, s.blocks[o], pid, v)
        && Spans(o', s.blocks[o'], pid, v) ::
      o == o'
  }

  /** A block of len pages can be entered at o without lying over another. */
  ghost predicate Room(s: State, o: Owner, len: nat) {
    o.Virtual? ==>
      forall q | q in s.blocks && q.Virtual? && q.pid == o.pid ::
        (q.page < o.page && q.page + s.blocks[q].Length() <= o.page) || o.page + len <= q.page
  }

  ghost predicate Valid(w: World) {
    Shape(w.s) && FramesOwned(w.s) && SwapOwned(w.s) && OneEntry(w.s) && Remembered(w)
  }

  // ----- the primitive transitions -----

  function Overwrite(bytes: seq<Byte>, at: nat, data: seq<Byte>): (r: seq<Byte>)
    ensures |r| == |bytes|
    ensures forall i | 0 <= i < |bytes| :: r[i] == if at <= i < at + |data| then data[i - at] else bytes[i]
  {
    seq(|bytes|, i requires 0 <= i < |bytes| => if at <= i < at + |data| then data[i - at] else bytes[i])
  }

  /** The bytes of the block, wherever it is. */
  function Contents(s: State, b: Block): (r: seq<Byte>)
    ensures |r| == b.Bytes()
  {
    seq(b.Bytes(), i requires 0 <= i < b.Bytes() => ByteAt(s, b, i).GetOr(0))
  }

  /** A new RESERVE entry, or the handle of an allocation still without frames. */
  ghost function Reserve(w: World, o: Owner, count: nat, size: PageType): World {
    if o in w.s.blocks || !Room(w.s, o, count * Pages(size)) then w
    else w.(s := w.s.(blocks := w.s.blocks[o := Block(count, size, Nowhere)]), mem := w.mem - {o})
  }

  /** First touch: `softfault_handler` on a RESERVE entry. Without a free frame nothing changes. */
  ghost function Back(w: World, o: Owner): World {
    if o in w.s.blocks && w.s.blocks[o].place.Nowhere? then
      var b := w.s.blocks[o];
      match FirstFit(w.s.table, 0, ScanEnd(|w.s.table|), b.Length(), b.size)
      case None => w
      case Some(frame) => w.(s := w.s.(
                             table := SetRange(w.s.table, frame, b.Length(), true),
                             blocks := w.s.blocks[o := b.(place := InRam(frame))]))
    else w
  }

  ghost predicate HasRun(used: seq<bool>, len: nat) {
    exists s :: FreeRun(used, s, len)
  }

  /** The swap partition the source tries first that has room, and the room: `pool_alloc` of its pages. */
  ghost function FindSwap(areas: seq<Area>, from: nat, len: nat): (r: Option<(nat, nat)>)
    ensures r.Some? ==> r.value.0 < |areas| && FreeRun(areas[r.value.0].used, r.value.1, len)
    decreases |areas| - from
  {
    if from >= |areas| then None
    else match FirstFit(areas[from].used, 0, |areas[from].used|, len, SmallPage)
      case Some(position) => Some((from, position))
      case None => FindSwap(areas, from + 1, len)
  }

  /** No partition before it has room, and None when none has. */
  lemma {:induction false} FindSwapIsFirst(areas: seq<Area>, from: nat, len: nat)
    ensures var r := FindSwap(areas, from, len);
            && (r.None? ==> forall a | from <= a < |areas| :: !HasRun(areas[a].used, len))
            && (r.Some? ==> from <= r.value.0 && forall a | from <= a < r.value.0 :: !HasRun(areas[a].used, len))
    decreases |areas| - from
  {
    if from < |areas| {
      var used := areas[from].used;
      if FirstFit(used, 0, |used|, len, SmallPage).None? {
        assert forall s :: FreeRun(used, s, len) ==> Fit(used, s, len, SmallPage, |used|);
        FindSwapIsFirst(areas, from + 1, len);
      }
    }
  }

  /** One page of `swap_process`: write it out, point the entry at the disk, release the frame. The
      source sets the freed bits instead of clearing them and never writes the page. */
  ghost function SwapOut(w: World, o: Owner): World {
    if o in w.s.blocks && w.s.blocks[o].place.InRam? then
      match FindSwap(w.s.areas, 0, w.s.blocks[o].Length())
      case None => w
      case Some((area, position)) => w.(s := SwappedTo(w.s, o, area, position))
    else w
  }

  ghost function SwappedTo(s: State, o: Owner, area: nat, position: nat): State
    requires o in s.blocks && s.blocks[o].place.InRam? && area < |s.areas|
  {
    var b, a := s.blocks[o], s.areas[area];
    s.(table := SetRange(s.table, b.place.frame, b.Length(), false),
       areas := s.areas[area := Area(SetRange(a.used, position, b.Length(), true),
                                     Overwrite(a.bytes, position * PAGE_BYTES, Contents(s, b)))],
       blocks := s.blocks[o := b.(place := OnDisk(area, position))])
  }

  /** `hardfault_handler` on a SWAPPED entry: a fresh frame filled from the partition. */
  ghost function SwapIn(w: World, o: Owner): World {
    if o in w.s.blocks && w.s.blocks[o].place.OnDisk? then
      var b := w.s.blocks[o];
      match FirstFit(w.s.table, 0, ScanEnd(|w.s.table|), b.Length(), b.size)
      case None => w
      case Some(frame) =>
        if b.place.area >= |w.s.areas| then w
        else
          w.(s := w.s.(
             table := SetRange(w.s.table, frame, b.Length(), true),
             ram := Overwrite(w.s.ram, frame * PAGE_BYTES, Contents(w.s, b)),
             blocks := w.s.blocks[o := b.(place := InRam(frame))]))
    else w
  }

  /** The entry goes back to default and its frames, if it has any, to the bitmap. */
  ghost function Release(w: World, o: Owner): World {
    if o in w.s.blocks then
      var b := w.s.blocks[o];
      World(w.s.(table := if b.place.InRam? then SetRange(w.s.table, b.place.frame, b.Length(), false) else w.s.table,
                 blocks := w.s.blocks - {o}),
            w.mem - {o})
    else w
  }

  /** The block changes hands with its contents. */
  ghost function Rename(w: World, o: Owner, to: Owner): World {
    if o in w.s.blocks && to !in w.s.blocks && Room(w.s, to, w.s.blocks[o].Length()) then
      World(w.s.(blocks := (w.s.blocks - {o})[to := w.s.blocks[o]]),
            if o in w.mem then (w.mem - {o})[to := w.mem[o]] else w.mem - {to})
    else w
  }

  /** The owner writes a byte. Only a block in memory can be written, anything else faults first. */
  ghost function Store(w: World, o: Owner, off: nat, value: Byte): World {
    if o in w.s.blocks && w.s.blocks[o].place.InRam? && off < w.s.blocks[o].Bytes() then
      World(w.s.(ram := Overwrite(w.s.ram, w.s.blocks[o].place.frame * PAGE_BYTES + off, [value])),
            w.mem[o := (if o in w.mem then w.mem[o] else map[])[off := value]])
    else w
  }

  // ----- every primitive keeps the invariants -----

  /** s' differs from s in the block of o only. */
  ghost predicate OnlyBlock(s: State, s': State, o: Owner) {
    forall q | q != o :: (q in s.blocks <==> q in s'.blocks) && (q in s.blocks ==> s'.blocks[q] == s.blocks[q])
  }

  lemma ClaimFrames(s: State, s': State, o: Owner, frame: nat)
    requires FramesOwned(s) && OnlyBlock(s, s', o) && o in s'.blocks
    requires o in s.blocks ==> !s.blocks[o].place.InRam?
    requires s'.blocks[o].place == InRam(frame) && FreeRun(s.table, frame, s'.blocks[o].Length())
    requires s'.table == SetRange(s.table, frame, s'.blocks[o].Length(), true)
    ensures FramesOwned(s')
  {
    forall q, p | q != o && q in s'.blocks && s'.blocks[q].Covers(p) ensures s.table[p] && !s'.blocks[o].Covers(p) {
      assert s.blocks[q].Covers(p);
    }
    forall p | 0 <= p < |s'.table| && s'.table[p] ensures exists q :: q in s'.blocks && s'.blocks[q].Covers(p) {
      if s.table[p] {
        var q :| q in s.blocks && s.blocks[q].Covers(p);
        assert s'.blocks[q].Covers(p);
      } else {
        assert s'.blocks[o].Covers(p);
      }
    }
    forall q, q', p | q in s'.blocks && q' in s'.blocks && s'.blocks[q].Covers(p)
        && s'.blocks[q'].Covers(p) ensures q == q' {
      if q != o && q' != o {
        assert s.blocks[q].Covers(p) && s.blocks[q'].Covers(p);
      }
    }
  }

  lemma SameFrames(s: State, s': State, o: Owner)
    requires FramesOwned(s) && OnlyBlock(s, s', o) && s'.table == s.table
    requires o in s.blocks ==> !s.blocks[o].place.InRam?
    requires o in s'.blocks ==> !s'.blocks[o].place.InRam?
    ensures FramesOwned(s')
  {
    forall p | 0 <= p < |s'.table| && s'.table[p] ensures exists q :: q in s'.blocks && s'.blocks[q].Covers(p) {
      var q :| q in s.blocks && s.blocks[q].Covers(p);
      assert s'.blocks[q].Covers(p);
    }
  }

  /** Two owners never keep a byte at the same address of memory. */
  lemma ApartInRam(s: State, o: Owner, q: Owner, i: nat, j: nat)
    requires FramesOwned(s) && o in s.blocks && q in s.blocks && o != q
    requires s.blocks[o].place.InRam? && s.blocks[q].place.InRam?
    requires i < s.blocks[o].Bytes() && j < s.blocks[q].Bytes()
    ensures s.blocks[o].place.frame * PAGE_BYTES + i != s.blocks[q].place.frame * PAGE_BYTES + j
  {
    var p := s.blocks[o].place.frame + i / PAGE_BYTES;
    assert s.blocks[o].Covers(p);
    assert !s.blocks[q].Covers(p);
  }

  lemma ApartOnDisk(s: State, o: Owner, q: Owner, i: nat, j: nat)
    requires SwapOwned(s) && o in s.blocks && q in s.blocks && o != q
    requires s.blocks[o].place.OnDisk? && s.blocks[q].place.OnDisk? && s.blocks[o].place.area == s.blocks[q].place.area
    requires i < s.blocks[o].Bytes() && j < s.blocks[q].Bytes()
    ensures s.blocks[o].place.position * PAGE_BYTES + i != s.blocks[q].place.position * PAGE_BYTES + j
  {
    var a := s.blocks[o].place.area;
    var p := s.blocks[o].place.position + i / PAGE_BYTES;
    assert s.blocks[o].Stores(a, p);
    assert !s.blocks[q].Stores(a, p);
  }

  lemma SameSwap(s: State, s': State, o: Owner)
    requires SwapOwned(s) && OnlyBlock(s, s', o) && s'.areas == s.areas
    requires o in s'.blocks ==> !s'.blocks[o].place.OnDisk?
    ensures SwapOwned(s')
  {
    forall q, q', a: nat, p | q in s'.blocks && q' in s'.blocks && s'.blocks[q].Stores(a, p)
        && s'.blocks[q'].Stores(a, p)
      ensures q == q'
    {
      assert s.blocks[q].Stores(a, p) && s.blocks[q'].Stores(a, p);
    }
    forall q, a: nat, p | q in s'.blocks && s'.blocks[q].Stores(a, p) ensures s'.areas[a].used[p] {
      assert s.blocks[q].Stores(a, p);
    }
  }

  lemma ClaimSwap(s: State, s': State, o: Owner, area: nat, position: nat)
    requires SwapOwned(s) && OnlyBlock(s, s', o) && o in s'.blocks && area < |s.areas|
    requires o in s.blocks ==> !s.blocks[o].place.OnDisk?
    requires s'.blocks[o].place == OnDisk(area, position)
    requires FreeRun(s.areas[area].used, position, s'.blocks[o].Length())
    requires |s'.areas| == |s.areas| && forall a | 0 <= a < |s.areas| && a != area :: s'.areas[a] == s.areas[a]
    requires s'.areas[area].used == SetRange(s.areas[area].used, position, s'.blocks[o].Length(), true)
    ensures SwapOwned(s')
  {
    forall q, a: nat, p | q != o && q in s'.blocks && s'.blocks[q].Stores(a, p)
      ensures s.areas[a].used[p] && !s'.blocks[o].Stores(a, p)
    {
      assert s.blocks[q].Stores(a, p);
    }
    forall q, q', a: nat, p | q in s'.blocks && q' in s'.blocks && s'.blocks[q].Stores(a, p)
        && s'.blocks[q'].Stores(a, p)
      ensures q == q'
    {
      if q != o && q' != o {
        assert s.blocks[q].Stores(a, p) && s.blocks[q'].Stores(a, p);
      }
    }
  }

  /** A block entered where there is room lies over no other. */
  lemma EnteredApart(s: State, s': State, o: Owner)
    requires OneEntry(s) && OnlyBlock(s, s', o) && o in s'.blocks && Room(s, o, s'.blocks[o].Length()) && o !in s.blocks
    ensures OneEntry(s')
  {
  }

  /** Blocks that stay where they are in virtual memory stay apart. */
  lemma StillApart(s: State, s': State)
    requires OneEntry(s) && forall o | o in s'.blocks :: o in s.blocks && s'.blocks[o].Length() == s.blocks[o].Length()
    ensures OneEntry(s')
  {
    forall o, o', pid, v
      | o in s'.blocks && o' in s'.blocks && Spans(o, s'.blocks[o], pid, v) && Spans(o', s'.blocks[o'], pid, v)
      ensures o == o'
    {
      assert Spans(o, s.blocks[o], pid, v) && Spans(o', s.blocks[o'], pid, v);
    }
  }

  lemma ReserveKeeps(w: World, o: Owner, count: nat, size: PageType)
    requires Valid(w)
    ensures Valid(Reserve(w, o, count, size))
  {
    var w' := Reserve(w, o, count, size);
    if w' != w {
      SameFrames(w.s, w'.s, o);
      SameSwap(w.s, w'.s, o);
      EnteredApart(w.s, w'.s, o);
    }
  }

  /** The block of o, so far without frames, gets a free run and, when it has any, its bytes. */
  ghost predicate Claims(w: World, w': World, o: Owner, frame: nat, data: seq<Byte>) {
    && o in w.s.blocks && !w.s.blocks[o].place.InRam?
    && FreeRun(w.s.table, frame, w.s.blocks[o].Length())
    && w'.mem == w.mem && w'.s.areas == w.s.areas
    && w'.s.table == SetRange(w.s.table, frame, w.s.blocks[o].Length(), true)
    && w'.s.ram == Overwrite(w.s.ram, frame * PAGE_BYTES, data)
    && w'.s.blocks == w.s.blocks[o := w.s.blocks[o].(place := InRam(frame))]
    && data == if w.s.blocks[o].place.OnDisk? then Contents(w.s, w.s.blocks[o]) else []
  }

  lemma ClaimedReads(w: World, w': World, o: Owner, frame: nat, data: seq<Byte>, q: Owner, i: nat)
    requires Valid(w) && Claims(w, w', o, frame, data) && FramesOwned(w'.s) && q in w.mem && i in w.mem[q]
    ensures q in w'.s.blocks && i < w'.s.blocks[q].Bytes() && ByteAt(w'.s, w'.s.blocks[q], i) == Some(w'.mem[q][i])
  {
    if q == o {
      var at := frame * PAGE_BYTES + i;
      assert w'.s.ram[at] == data[i];
    } else {
      if w.s.blocks[q].place.InRam? {
        OutsideFrame(w'.s, o, q, i);
      }
    }
  }

  lemma Claimed(w: World, w': World, o: Owner, frame: nat, data: seq<Byte>)
    requires Valid(w) && Claims(w, w', o, frame, data)
    ensures Valid(w')
  {
    ClaimFrames(w.s, w'.s, o, frame);
    SameSwap(w.s, w'.s, o);
    StillApart(w.s, w'.s);
    forall q, i | q in w'.mem && i in w'.mem[q]
      ensures q in w'.s.blocks && i < w'.s.blocks[q].Bytes() && ByteAt(w'.s, w'.s.blocks[q], i) == Some(w'.mem[q][i])
    {
      ClaimedReads(w, w', o, frame, data, q, i);
    }
  }

  lemma BackKeeps(w: World, o: Owner)
    requires Valid(w)
    ensures Valid(Back(w, o))
  {
    var w' := Back(w, o);
    if w' != w {
      assert Overwrite(w.s.ram, w'.s.blocks[o].place.frame * PAGE_BYTES, []) == w.s.ram;
      Claimed(w, w', o, w'.s.blocks[o].place.frame, []);
    }
  }

  lemma ReleaseOwns(w: World, o: Owner)
    requires Valid(w) && o in w.s.blocks
    ensures FramesOwned(Release(w, o).s) && SwapOwned(Release(w, o).s)
  {
    var w' := Release(w, o);
    if !w.s.blocks[o].place.InRam? {
      SameFrames(w.s, w'.s, o);
    }
    SameSwap(w.s, w'.s, o);
  }

  lemma ReleaseKeeps(w: World, o: Owner)
    requires Valid(w)
    ensures Valid(Release(w, o))
  {
    var w' := Release(w, o);
    if o in w.s.blocks {
      ReleaseOwns(w, o);
      StillApart(w.s, w'.s);
      forall q, i | q in w'.mem && i in w'.mem[q]
        ensures q in w'.s.blocks && i < w'.s.blocks[q].Bytes() && ByteAt(w'.s, w'.s.blocks[q], i) == Some(w'.mem[q][i])
      {
      }
    }
  }

  lemma StoreKeeps(w: World, o: Owner, off: nat, value: Byte)
    requires Valid(w)
    ensures Valid(Store(w, o, off, value))
  {
    var w' := Store(w, o, off, value);
    if w' != w {
      StillApart(w.s, w'.s);
      forall q, i | q in w'.mem && i in w'.mem[q]
        ensures q in w'.s.blocks && i < w'.s.blocks[q].Bytes() && ByteAt(w'.s, w'.s.blocks[q], i) == Some(w'.mem[q][i])
      {
        if q != o {
          if w.s.blocks[q].place.InRam? {
            ApartInRam(w.s, o, q, off, i);
          }
        }
      }
    }
  }

  lemma SwapInKeeps(w: World, o: Owner)
    requires Valid(w)
    ensures Valid(SwapIn(w, o))
  {
    var w' := SwapIn(w, o);
    if w' != w {
      var b := w.s.blocks[o];
      Claimed(w, w', o, w'.s.blocks[o].place.frame, Contents(w.s, b));
    }
  }

  lemma OutsideFrame(s: State, o: Owner, q: Owner, i: nat)
    requires FramesOwned(s) && o in s.blocks && q in s.blocks && o != q
    requires s.blocks[o].place.InRam? && s.blocks[q].place.InRam? && i < s.blocks[q].Bytes()
    ensures var x := s.blocks[q].place.frame * PAGE_BYTES + i;
            var start := s.blocks[o].place.frame * PAGE_BYTES;
            !(start <= x < start + s.blocks[o].Bytes())
  {
    var x := s.blocks[q].place.frame * PAGE_BYTES + i;
    var start := s.blocks[o].place.frame * PAGE_BYTES;
    if start <= x < start + s.blocks[o].Bytes() {
      ApartInRam(s, o, q, x - start, i);
    }
  }

  lemma OutsidePosition(s: State, o: Owner, q: Owner, i: nat)
    requires SwapOwned(s) && o in s.blocks && q in s.blocks && o != q
    requires s.blocks[o].place.OnDisk? && s.blocks[q].place.OnDisk? && s.blocks[o].place.area == s.blocks[q].place.area
    requires i < s.blocks[q].Bytes()
    ensures var x := s.blocks[q].place.position * PAGE_BYTES + i;
            var start := s.blocks[o].place.position * PAGE_BYTES;
            !(start <= x < start + s.blocks[o].Bytes())
  {
    var x := s.blocks[q].place.position * PAGE_BYTES + i;
    var start := s.blocks[o].place.position * PAGE_BYTES;
    if start <= x < start + s.blocks[o].Bytes() {
      ApartOnDisk(s, o, q, x - start, i);
    }
  }

  /** o was written out to a free run of a partition and its frames were freed. */
  ghost predicate WritesOut(w: World, w': World, o: Owner, area: nat, position: nat, data: seq<Byte>) {
    && o in w.s.blocks && w.s.blocks[o].place.InRam? && area < |w.s.areas|
    && FreeRun(w.s.areas[area].used, position, w.s.blocks[o].Length())
    && |data| == w.s.blocks[o].Bytes()
    && (forall i | 0 <= i < |data| :: ByteAt(w.s, w.s.blocks[o], i) == Some(data[i]))
    && w'.mem == w.mem && w'.s.ram == w.s.ram
    && w'.s.table == SetRange(w.s.table, w.s.blocks[o].place.frame, w.s.blocks[o].Length(), false)
    && w'.s.areas == w.s.areas[area := Area(SetRange(w.s.areas[area].used, position, w.s.blocks[o].Length(), true),
                                            Overwrite(w.s.areas[area].bytes, position * PAGE_BYTES, data))]
    && w'.s.blocks == w.s.blocks[o := w.s.blocks[o].(place := OnDisk(area, position))]
  }

  lemma WrittenReads(w: World, w': World, o: Owner, area: nat, position: nat, data: seq<Byte>, q: Owner, i: nat)
    requires Valid(w) && WritesOut(w, w', o, area, position, data) && SwapOwned(w'.s) && q in w.mem && i in w.mem[q]
    ensures q in w'.s.blocks && i < w'.s.blocks[q].Bytes() && ByteAt(w'.s, w'.s.blocks[q], i) == Some(w'.mem[q][i])
  {
    if q != o {
      if w.s.blocks[q].place.OnDisk? && w.s.blocks[q].place.area == area {
        OutsidePosition(w'.s, o, q, i);
      }
    }
  }

  lemma WrittenOut(w: World, w': World, o: Owner, area: nat, position: nat, data: seq<Byte>)
    requires Valid(w) && WritesOut(w, w', o, area, position, data)
    ensures Valid(w')
  {
    ClaimSwap(w.s, w'.s, o, area, position);
    StillApart(w.s, w'.s);
    forall q, i | q in w'.mem && i in w'.mem[q]
      ensures q in w'.s.blocks && i < w'.s.blocks[q].Bytes() && ByteAt(w'.s, w'.s.blocks[q], i) == Some(w'.mem[q][i])
    {
      WrittenReads(w, w', o, area, position, data, q, i);
    }
  }

  lemma SwapOutKeeps(w: World, o: Owner)
    requires Valid(w)
    ensures Valid(SwapOut(w, o))
  {
    var w' := SwapOut(w, o);
    if w' != w {
      var place := w'.s.blocks[o].place;
      WrittenOut(w, w', o, place.area, place.position, Contents(w.s, w.s.blocks[o]));
    }
  }

  lemma RenameApart(s: State, s': State, o: Owner, to: Owner)
    requires OneEntry(s) && o in s.blocks && to !in s.blocks && Room(s, to, s.blocks[o].Length())
    requires s'.blocks == (s.blocks - {o})[to := s.blocks[o]]
    ensures OneEntry(s')
  {
    var without := s.(blocks := s.blocks - {o});
    StillApart(s, without);
    EnteredApart(without, s', to);
  }

  lemma RenameReads(w: World, o: Owner, to: Owner, q: Owner, i: nat)
    requires Valid(w) && q in Rename(w, o, to).mem && i in Rename(w, o, to).mem[q]
    ensures var w' := Rename(w, o, to);
            q in w'.s.blocks && i < w'.s.blocks[q].Bytes() && ByteAt(w'.s, w'.s.blocks[q], i) == Some(w'.mem[q][i])
  {
    var w' := Rename(w, o, to);
    if w' != w {
      assert w'.mem[q] == w.mem[Before(q, o, to)] && w'.s.blocks[q] == w.s.blocks[Before(q, o, to)];
    }
  }

  lemma RenameKeeps(w: World, o: Owner, to: Owner)
    requires Valid(w)
    ensures Valid(Rename(w, o, to))
  {
    var w' := Rename(w, o, to);
    if o in w.s.blocks && to !in w.s.blocks && Room(w.s, to, w.s.blocks[o].Length()) {
      RenameFrames(w.s, w'.s, o, to);
      RenameSwap(w.s, w'.s, o, to);
      RenameApart(w.s, w'.s, o, to);
      forall q, i | q in w'.mem && i in w'.mem[q]
        ensures q in w'.s.blocks && i < w'.s.blocks[q].Bytes() && ByteAt(w'.s, w'.s.blocks[q], i) == Some(w'.mem[q][i])
      {
        RenameReads(w, o, to, q, i);
      }
    }
  }

  function Before(q: Owner, o: Owner, to: Owner): Owner {
    if q == to then o else q
  }

  lemma RenameFrames(s: State, s': State, o: Owner, to: Owner)
    requires FramesOwned(s) && o in s.blocks && to !in s.blocks && s'.table == s.table
    requires s'.blocks == (s.blocks - {o})[to := s.blocks[o]]
    ensures FramesOwned(s')
  {
    forall q, q', p | q in s'.blocks && q' in s'.blocks && s'.blocks[q].Covers(p)
        && s'.blocks[q'].Covers(p) ensures q == q' {
      assert s.blocks[Before(q, o, to)].Covers(p) && s.blocks[Before(q', o, to)].Covers(p);
    }
    forall p | 0 <= p < |s'.table| && s'.table[p] ensures exists q :: q in s'.blocks && s'.blocks[q].Covers(p) {
      var q :| q in s.blocks && s.blocks[q].Covers(p);
      assert s'.blocks[if q == o then to else q].Covers(p);
    }
  }

  lemma RenameSwap(s: State, s': State, o: Owner, to: Owner)
    requires SwapOwned(s) && o in s.blocks && to !in s.blocks && s'.areas == s.areas
    requires s'.blocks == (s.blocks - {o})[to := s.blocks[o]]
    ensures SwapOwned(s')
  {
    forall q, q', a: nat, p
      | q in s'.blocks && q' in s'.blocks && s'.blocks[q].Stores(a, p) && s'.blocks[q'].Stores(a, p)
      ensures q == q'
    {
      assert s.blocks[Before(q, o, to)].Stores(a, p) && s.blocks[Before(q', o, to)].Stores(a, p);
    }
  }

  // ----- what the kernel does with the primitives -----

  ghost function Allocate(w: World, o: Owner, count: nat, size: PageType): World {
    if o in w.s.blocks || !Room(w.s, o, count * Pages(size)) then w
    else
      var w' := Back(Reserve(w, o, count, size), o);
      if w'.s.blocks[o].place.Nowhere? then Release(w', o) else w'
  }

  /** `mem_alloc`: n RESERVE entries in a row. */
  ghost function ReserveAll(w: World, pid: nat, page: nat, n: nat, size: PageType): World
    decreases n
  {
    if n == 0 then w else ReserveAll(Reserve(w, Virtual(pid, page), 1, size), pid, page + Pages(size), n - 1, size)
  }

  ghost function ReleaseAll(w: World, pid: nat, page: nat, n: nat, size: PageType): World
    decreases n
  {
    if n == 0 then w else ReleaseAll(Release(w, Virtual(pid, page)), pid, page + Pages(size), n - 1, size)
  }

  ghost predicate HasAll(w: World, pid: nat, page: nat, n: nat, size: PageType) {
    forall h | 0 <= h < n ::
      Virtual(pid, At(page, h, size)) in w.s.blocks &&
      w.s.blocks[Virtual(pid, At(page, h, size))].(place := Nowhere) == Block(1, size, Nowhere)
  }

  /** No entry of the process lies in the n pages. */
  ghost predicate HasNone(w: World, pid: nat, page: nat, n: nat, size: PageType) {
    Room(w.s, Virtual(pid, page), n * Pages(size))
  }

  /** `recursive_free` over the entries of a dying process. */
  ghost function ReleaseSet(w: World, owners: set<Owner>): World
    decreases |owners|
  {
    if owners == {} then w
    else
      var o :| o in owners;
      ReleaseSet(Release(w, o), owners - {o})
  }

  ghost function EntriesOf(s: State, pid: nat): set<Owner> {
    set o | o in s.blocks && o.Virtual? && o.pid == pid
  }

  /** The h-th of consecutive pages of that size. */
  function At(page: nat, h: nat, size: PageType): nat {
    page + h * Pages(size)
  }

  /** `deallocate_vm` into the local array `phys[]`. */
  ghost function Park(w: World, call: nat, pid: nat, page: nat, n: nat, size: PageType): World {
    if n == 0 then w
    else Rename(Park(w, call, pid, page, n - 1, size), Virtual(pid, At(page, n - 1, size)), Parked(call, n - 1))
  }

  /** `get_free_phys` for the slots from..n of `phys[]`. The source does not mark what it found, and
      lets it start one slot early, over the last old page. */
  ghost function Extend(w: World, call: nat, from: nat, n: nat, size: PageType): World
    requires from <= n
  {
    if n == from then w else Allocate(Extend(w, call, from, n - 1, size), Parked(call, n - 1), 1, size)
  }

  ghost function Unpark(w: World, call: nat, pid: nat, page: nat, n: nat, size: PageType): World {
    if n == 0 then w
    else Rename(Unpark(w, call, pid, page, n - 1, size), Parked(call, n - 1), Virtual(pid, At(page, n - 1, size)))
  }

  ghost predicate Unused(w: World, call: nat) {
    forall h: nat :: Parked(call, h) !in w.s.blocks
  }

  /** The answer of `get_free_phys`: the scan sees that many free blocks. */
  ghost predicate FreePhys(table: seq<bool>, n: nat, size: PageType) {
    |table| > 0 && |AllBlocks(table, size)| >= n
  }

  /** `mem_realloc`, with the address `vmtree_fetch` answered (None: no room in the tree). It gives the
      old pages up before it knows that the new ones can be had. After a refused deallocate_vm the
      source raises SIGSEGV and goes on with whatever is in `phys[]`. */
  ghost function Realloc(
      w: World, call: nat, pid: nat, page: nat, old_: nat, to: Option<nat>, new_: nat, size: PageType):
    (World, bool)
  {
    if old_ > new_ || !HasAll(w, pid, page, old_, size) || !Unused(w, call) then (w, false)
    else
      var parked := Park(w, call, pid, page, old_, size);
      if to.None? || !HasNone(parked, pid, to.value, new_, size) || !FreePhys(parked.s.table, new_ - old_, size)
      then (parked, false)
      else (Unpark(Extend(parked, call, old_, new_, size), call, pid, to.value, new_, size), true)
  }

  datatype Step =
    | KernelMalloc(id: nat, pages: nat, size: PageType)
    | KernelFree(id: nat)
    | SysMalloc(pid: nat, page: Option<nat>, n: nat, size: PageType)
    | SysFree(pid: nat, first: nat, n: nat, size: PageType)
    | SysRealloc(call: nat, pid: nat, from: nat, old_: nat, to: Option<nat>, new_: nat, size: PageType)
    | SoftFault(pid: nat, at: nat)
    | HardFault(pid: nat, at: nat)
    | SwapPage(pid: nat, at: nat)
    | Exit(pid: nat)
    | LoadPage(file: nat, index: nat, size: PageType)
    | EvictPage(file: nat, index: nat)
    | StoreByte(o: Owner, off: nat, value: Byte)

  datatype Kernel = Kernel(w: World, used: map<nat, int>)

  function UsedBy(k: Kernel, pid: nat): int {
    if pid in k.used then k.used[pid] else 0
  }

  predicate SysSize(size: PageType, n: nat) {
    size != Lev4 && n <= 512
  }

  ghost function Next(k: Kernel, step: Step): Kernel {
    match step
    case KernelMalloc(id, pages, size) => k.(w := Allocate(k.w, Owner.Kernel(id), pages, size))
    case KernelFree(id) => k.(w := Release(k.w, Owner.Kernel(id)))
    case SysMalloc(pid, page, n, size) =>
      if !SysSize(size, n) || page.None? || !HasNone(k.w, pid, page.value, n, size) then k
      else Kernel.Kernel(ReserveAll(k.w, pid, page.value, n, size), k.used[pid := UsedBy(k, pid) + n * Pages(size)])
    case SysFree(pid, page, n, size) =>
      if !SysSize(size, n) then k
      else
        // as in the source the count goes down whether or not mem_free refused
        Kernel.Kernel(if HasAll(k.w, pid, page, n, size) then ReleaseAll(k.w, pid, page, n, size) else k.w,
               k.used[pid := UsedBy(k, pid) - n * Pages(size)])
    case SysRealloc(call, pid, from, old_, to, new_, size) =>
      k.(w := Realloc(k.w, call, pid, from, old_, to, new_, size).0)
    case SoftFault(pid, page) => k.(w := Back(k.w, Virtual(pid, page)))
    case HardFault(pid, page) => k.(w := SwapIn(k.w, Virtual(pid, page)))
    case SwapPage(pid, page) => k.(w := SwapOut(k.w, Virtual(pid, page)))
    case Exit(pid) => Kernel.Kernel(ReleaseSet(k.w, EntriesOf(k.w.s, pid)), k.used - {pid})
    case LoadPage(file, index, size) => k.(w := Allocate(k.w, FilePage(file, index), 1, size))
    case EvictPage(file, index) => k.(w := Release(k.w, FilePage(file, index)))
    case StoreByte(o, off, value) => k.(w := Store(k.w, o, off, value))
  }

  ghost function Run(k: Kernel, steps: seq<Step>): Kernel
    decreases |steps|
  {
    if steps == [] then k else Run(Next(k, steps[0]), steps[1..])
  }

  /** A machine with free memory and swap partitions of any size. */
  ghost predicate Init(k: Kernel) {
    && Shape(k.w.s) && k.w.s.blocks == map[] && k.w.mem == map[] && k.used == map[]
    && forall p | 0 <= p < |k.w.s.table| :: !k.w.s.table[p]
  }

  lemma AllocateKeeps(w: World, o: Owner, count: nat, size: PageType)
    requires Valid(w)
    ensures Valid(Allocate(w, o, count, size))
  {
    ReserveKeeps(w, o, count, size);
    var w' := Reserve(w, o, count, size);
    BackKeeps(w', o);
    ReleaseKeeps(Back(w', o), o);
  }

  lemma {:induction false} ReserveAllKeeps(w: World, pid: nat, page: nat, n: nat, size: PageType)
    requires Valid(w)
    ensures Valid(ReserveAll(w, pid, page, n, size))
    decreases n
  {
    if n > 0 {
      ReserveKeeps(w, Virtual(pid, page), 1, size);
      ReserveAllKeeps(Reserve(w, Virtual(pid, page), 1, size), pid, page + Pages(size), n - 1, size);
    }
  }

  lemma {:induction false} ReleaseAllKeeps(w: World, pid: nat, page: nat, n: nat, size: PageType)
    requires Valid(w)
    ensures Valid(ReleaseAll(w, pid, page, n, size))
    decreases n
  {
    if n > 0 {
      ReleaseKeeps(w, Virtual(pid, page));
      ReleaseAllKeeps(Release(w, Virtual(pid, page)), pid, page + Pages(size), n - 1, size);
    }
  }

  lemma {:induction false} ReleaseSetKeeps(w: World, owners: set<Owner>)
    requires Valid(w)
    ensures Valid(ReleaseSet(w, owners))
    ensures forall o :: o in ReleaseSet(w, owners).s.blocks <==> o in w.s.blocks && o !in owners
    ensures forall o | o in ReleaseSet(w, owners).s.blocks :: ReleaseSet(w, owners).s.blocks[o] == w.s.blocks[o]
    ensures forall o | o !in owners ::
              (o in ReleaseSet(w, owners).mem <==> o in w.mem)
              && (o in w.mem ==> ReleaseSet(w, owners).mem[o] == w.mem[o])
    decreases |owners|
  {
    if owners != {} {
      var o :| o in owners && ReleaseSet(w, owners) == ReleaseSet(Release(w, o), owners - {o});
      ReleaseKeeps(w, o);
      ReleaseSetKeeps(Release(w, o), owners - {o});
    }
  }

  lemma {:induction false} ParkKeeps(w: World, call: nat, pid: nat, page: nat, n: nat, size: PageType)
    requires Valid(w)
    ensures Valid(Park(w, call, pid, page, n, size))
  {
    if n > 0 {
      ParkKeeps(w, call, pid, page, n - 1, size);
      RenameKeeps(Park(w, call, pid, page, n - 1, size), Virtual(pid, At(page, n - 1, size)), Parked(call, n - 1));
    }
  }

  lemma {:induction false} ExtendKeeps(w: World, call: nat, from: nat, n: nat, size: PageType)
    requires Valid(w) && from <= n
    ensures Valid(Extend(w, call, from, n, size))
  {
    if n > from {
      ExtendKeeps(w, call, from, n - 1, size);
      AllocateKeeps(Extend(w, call, from, n - 1, size), Parked(call, n - 1), 1, size);
    }
  }

  lemma {:induction false} UnparkKeeps(w: World, call: nat, pid: nat, page: nat, n: nat, size: PageType)
    requires Valid(w)
    ensures Valid(Unpark(w, call, pid, page, n, size))
  {
    if n > 0 {
      UnparkKeeps(w, call, pid, page, n - 1, size);
      RenameKeeps(Unpark(w, call, pid, page, n - 1, size), Parked(call, n - 1), Virtual(pid, At(page, n - 1, size)));
    }
  }

  lemma ReallocKeeps(w: World, call: nat, pid: nat, page: nat, old_: nat, to: Option<nat>, new_: nat, size: PageType)
    requires Valid(w)
    ensures Valid(Realloc(w, call, pid, page, old_, to, new_, size).0)
  {
    if old_ <= new_ {
      ParkKeeps(w, call, pid, page, old_, size);
      var parked := Park(w, call, pid, page, old_, size);
      ExtendKeeps(parked, call, old_, new_, size);
      if to.Some? {
        UnparkKeeps(Extend(parked, call, old_, new_, size), call, pid, to.value, new_, size);
      }
    }
  }

  lemma NextKeeps(k: Kernel, step: Step)
    requires Valid(k.w)
    ensures Valid(Next(k, step).w)
  {
    match step
    case KernelMalloc(id, pages, size) => AllocateKeeps(k.w, Owner.Kernel(id), pages, size);
    case KernelFree(id) => ReleaseKeeps(k.w, Owner.Kernel(id));
    case SysMalloc(pid, page, n, size) => ReserveAllKeeps(k.w, pid, page.GetOr(0), n, size);
    case SysFree(pid, page, n, size) => ReleaseAllKeeps(k.w, pid, page, n, size);
    case SysRealloc(call, pid, from, old_, to, new_, size) => ReallocKeeps(k.w, call, pid, from, old_, to, new_, size);
    case SoftFault(pid, page) => BackKeeps(k.w, Virtual(pid, page));
    case HardFault(pid, page) => SwapInKeeps(k.w, Virtual(pid, page));
    case SwapPage(pid, page) => SwapOutKeeps(k.w, Virtual(pid, page));
    case Exit(pid) => ReleaseSetKeeps(k.w, EntriesOf(k.w.s, pid));
    case LoadPage(file, index, size) => AllocateKeeps(k.w, FilePage(file, index), 1, size);
    case EvictPage(file, index) => ReleaseKeeps(k.w, FilePage(file, index));
    case StoreByte(o, off, value) => StoreKeeps(k.w, o, off, value);
  }

  /** Over every run from a fresh machine: each bitmap bit has exactly one owner, no owners overlap
      in memory or on a partition, and every remembered byte is where the owner's entry points. */
  lemma {:induction false} RunsKeep(k: Kernel, steps: seq<Step>)
    requires Init(k) || Valid(k.w)
    ensures Valid(Run(k, steps).w)
    decreases |steps|
  {
    if steps != [] {
      NextKeeps(k, steps[0]);
      RunsKeep(Next(k, steps[0]), steps[1..]);
    }
  }

  // ----- paging is invisible -----

  /** The step stores to that byte or gives the block up. */
  ghost predicate Touches(step: Step, o: Owner, off: nat) {
    match step
    case KernelFree(id) => o == Owner.Kernel(id)
    case SysFree(pid, first, n, size) => exists h :: 0 <= h < n && o == Virtual(pid, At(first, h, size))
    case SysRealloc(call, pid, from, old_, _, _, size) =>
      (exists h :: 0 <= h < old_ && o == Virtual(pid, At(from, h, size))) || (o.Parked? && o.call == call)
    case Exit(pid) => o.Virtual? && o.pid == pid
    case EvictPage(file, index) => o == FilePage(file, index)
    case StoreByte(o', off', _) => o' == o && off' == off
    case _ => false
  }

  ghost predicate Holds(w: World, o: Owner, off: nat, value: Byte) {
    o in w.s.blocks && o in w.mem && off in w.mem[o] && w.mem[o][off] == value
  }

  lemma {:induction false} ReserveAllHolds(w: World, pid: nat, page: nat, n: nat, size: PageType, o: Owner,
      off: nat, value: Byte)
    requires Holds(w, o, off, value)
    ensures Holds(ReserveAll(w, pid, page, n, size), o, off, value)
    decreases n
  {
    if n > 0 {
      ReserveAllHolds(Reserve(w, Virtual(pid, page), 1, size), pid, page + Pages(size), n - 1, size, o, off, value);
    }
  }

  lemma {:induction false} ReleaseAllHolds(w: World, pid: nat, page: nat, n: nat, size: PageType, o: Owner,
      off: nat, value: Byte)
    requires Holds(w, o, off, value)
    requires forall h | 0 <= h < n :: o != Virtual(pid, At(page, h, size))
    ensures Holds(ReleaseAll(w, pid, page, n, size), o, off, value)
    decreases n
  {
    if n > 0 {
      assert At(page, 0, size) == page;
      var next := page + Pages(size);
      forall h: nat | h < n - 1 ensures At(next, h, size) == At(page, h + 1, size) {
        AtNext(page, h, size);
      }
      ReleaseAllHolds(Release(w, Virtual(pid, page)), pid, page + Pages(size), n - 1, size, o, off, value);
    }
  }

  lemma AtNext(page: nat, h: nat, size: PageType)
    ensures At(page + Pages(size), h, size) == At(page, h + 1, size)
  {
    assert (h + 1) * Pages(size) == h * Pages(size) + Pages(size);
  }

  lemma {:induction false} ParkHolds(w: World, call: nat, pid: nat, page: nat, n: nat, size: PageType, o: Owner,
      off: nat, value: Byte)
    requires Holds(w, o, off, value) && forall h | 0 <= h < n :: o != Virtual(pid, At(page, h, size))
    ensures Holds(Park(w, call, pid, page, n, size), o, off, value)
  {
    if n > 0 {
      ParkHolds(w, call, pid, page, n - 1, size, o, off, value);
    }
  }

  lemma {:induction false} ExtendHolds(w: World, call: nat, from: nat, n: nat, size: PageType, o: Owner,
      off: nat, value: Byte)
    requires Holds(w, o, off, value) && from <= n && !(o.Parked? && o.call == call)
    ensures Holds(Extend(w, call, from, n, size), o, off, value)
  {
    if n > from {
      ExtendHolds(w, call, from, n - 1, size, o, off, value);
    }
  }

  lemma {:induction false} UnparkHolds(w: World, call: nat, pid: nat, page: nat, n: nat, size: PageType,
      o: Owner, off: nat, value: Byte)
    requires Holds(w, o, off, value) && !(o.Parked? && o.call == call)
    ensures Holds(Unpark(w, call, pid, page, n, size), o, off, value)
  {
    if n > 0 {
      UnparkHolds(w, call, pid, page, n - 1, size, o, off, value);
    }
  }

  lemma ReallocHolds(w: World, call: nat, pid: nat, page: nat, old_: nat, to: Option<nat>, new_: nat,
      size: PageType, o: Owner, off: nat, value: Byte)
    requires Holds(w, o, off, value) && !(o.Parked? && o.call == call)
    requires forall h | 0 <= h < old_ :: o != Virtual(pid, At(page, h, size))
    ensures Holds(Realloc(w, call, pid, page, old_, to, new_, size).0, o, off, value)
  {
    if old_ <= new_ {
      ParkHolds(w, call, pid, page, old_, size, o, off, value);
      var parked := Park(w, call, pid, page, old_, size);
      ExtendHolds(parked, call, old_, new_, size, o, off, value);
      UnparkHolds(Extend(parked, call, old_, new_, size), call, pid, to.GetOr(0), new_, size, o, off, value);
    }
  }

  lemma AllocateHolds(w: World, new_: Owner, count: nat, size: PageType, o: Owner, off: nat, value: Byte)
    requires Holds(w, o, off, value)
    ensures Holds(Allocate(w, new_, count, size), o, off, value)
  {
  }

  lemma NextHolds(k: Kernel, step: Step, o: Owner, off: nat, value: Byte)
    requires Valid(k.w) && Holds(k.w, o, off, value) && !Touches(step, o, off)
    ensures Holds(Next(k, step).w, o, off, value)
  {
    match step
    case KernelMalloc(id, pages, size) => AllocateHolds(k.w, Owner.Kernel(id), pages, size, o, off, value);
    case LoadPage(file, index, size) => AllocateHolds(k.w, FilePage(file, index), 1, size, o, off, value);
    case SysMalloc(pid, page, n, size) => ReserveAllHolds(k.w, pid, page.GetOr(0), n, size, o, off, value);
    case SysFree(pid, page, n, size) => ReleaseAllHolds(k.w, pid, page, n, size, o, off, value);
    case SysRealloc(call, pid, from, old_, to, new_, size) =>
      ReallocHolds(k.w, call, pid, from, old_, to, new_, size, o, off, value);
    case Exit(pid) => ReleaseSetKeeps(k.w, EntriesOf(k.w.s, pid));
    case _ =>
  }

  lemma {:induction false} RunHolds(k: Kernel, steps: seq<Step>, o: Owner, off: nat, value: Byte)
    requires Valid(k.w) && Holds(k.w, o, off, value)
    requires forall i | 0 <= i < |steps| :: !Touches(steps[i], o, off)
    ensures Holds(Run(k, steps).w, o, off, value) && Valid(Run(k, steps).w)
    decreases |steps|
  {
    if steps != [] {
      NextKeeps(k, steps[0]);
      NextHolds(k, steps[0], o, off, value);
      RunHolds(Next(k, steps[0]), steps[1..], o, off, value);
    }
  }

  lemma StoreIsHeld(w: World, o: Owner, off: nat, value: Byte)
    requires o in w.s.blocks && w.s.blocks[o].place.InRam? && off < w.s.blocks[o].Bytes()
    ensures Holds(Store(w, o, off, value), o, off, value)
  {
  }

  /** Seen by its owner: after any steps that leave it alone, the byte found in a block is the one last
      stored there, wherever the block lies by then. */
  lemma BlockReadsLastStore(k: Kernel, o: Owner, off: nat, value: Byte, steps: seq<Step>)
    requires Valid(k.w) && o in k.w.s.blocks && k.w.s.blocks[o].place.InRam? && off < k.w.s.blocks[o].Bytes()
    requires forall i | 0 <= i < |steps| :: !Touches(steps[i], o, off)
    ensures var s := Run(Next(k, StoreByte(o, off, value)), steps).w.s;
            o in s.blocks && ByteAt(s, s.blocks[o], off) == Some(value)
  {
    var k' := Next(k, StoreByte(o, off, value));
    StepIsHeld(k, o, off, value);
    RunHolds(k', steps, o, off, value);
    HeldIsRead(Run(k', steps).w, o, off, value);
  }

  lemma StepIsHeld(k: Kernel, o: Owner, off: nat, value: Byte)
    requires Valid(k.w) && o in k.w.s.blocks && k.w.s.blocks[o].place.InRam? && off < k.w.s.blocks[o].Bytes()
    ensures Valid(Next(k, StoreByte(o, off, value)).w) && Holds(Next(k, StoreByte(o, off, value)).w, o, off, value)
  {
    NextKeeps(k, StoreByte(o, off, value));
    StoreIsHeld(k.w, o, off, value);
  }

  lemma HeldIsRead(w: World, o: Owner, off: nat, value: Byte)
    requires Valid(w) && Holds(w, o, off, value)
    ensures ByteAt(w.s, w.s.blocks[o], off) == Some(value) && off < w.s.blocks[o].Bytes()
  {
  }

  // ----- ... at every virtual address -----

  /** The address lies in the entry of o. */
  ghost predicate LiesIn(s: State, pid: nat, vm: nat, o: Owner) {
    o in s.blocks && Spans(o, s.blocks[o], pid, vm / PAGE_BYTES)
  }

  function Offset(o: Owner, vm: nat): int
    requires o.Virtual?
  {
    vm - o.page * PAGE_BYTES
  }

  /** What the process reads at the address. */
  ghost function Load(s: State, pid: nat, vm: nat): Option<Byte> {
    if exists o :: LiesIn(s, pid, vm, o) then
      var o :| LiesIn(s, pid, vm, o);
      ByteAt(s, s.blocks[o], Offset(o, vm))
    else None
  }

  ghost predicate Resident(s: State, pid: nat, vm: nat) {
    exists o :: LiesIn(s, pid, vm, o) && s.blocks[o].place.InRam?
  }

  /** The process stores a byte at the address. */
  ghost function StoreAt(s: State, pid: nat, vm: nat, value: Byte): Step
    requires Resident(s, pid, vm)
  {
    var o :| LiesIn(s, pid, vm, o) && s.blocks[o].place.InRam?;
    StoreByte(o, Offset(o, vm), value)
  }

  /** The step stores at the address, or gives the pages around it up. */
  ghost predicate Hits(step: Step, pid: nat, vm: nat) {
    match step
    case SysFree(q, first, n, size) => q == pid && first <= vm / PAGE_BYTES < At(first, n, size)
    case SysRealloc(_, q, from, old_, _, _, size) => q == pid && from <= vm / PAGE_BYTES < At(from, old_, size)
    case Exit(q) => q == pid
    case StoreByte(o, off, _) => o.Virtual? && o.pid == pid && o.page * PAGE_BYTES + off == vm
    case _ => false
  }

  lemma LoadIs(s: State, pid: nat, vm: nat, o: Owner)
    requires OneEntry(s) && LiesIn(s, pid, vm, o)
    ensures Load(s, pid, vm) == ByteAt(s, s.blocks[o], Offset(o, vm))
  {
  }

  lemma AtEnd(page: nat, h: nat, n: nat, size: PageType)
    requires h < n
    ensures At(page, h, size) + Pages(size) <= At(page, n, size) && page <= At(page, h, size)
  {
    assert n * Pages(size) == h * Pages(size) + Pages(size) + (n - h - 1) * Pages(size);
  }

  /** A run of pages all entered that starts at an entry which holds the address would hit it. */
  lemma MissesRun(w: World, pid: nat, first: nat, n: nat, size: PageType, vm: nat, o: Owner)
    requires LiesIn(w.s, pid, vm, o) && HasAll(w, pid, first, n, size)
    requires !(first <= vm / PAGE_BYTES < At(first, n, size))
    ensures forall h | 0 <= h < n :: o != Virtual(pid, At(first, h, size))
  {
    forall h | 0 <= h < n ensures o != Virtual(pid, At(first, h, size)) {
      AtEnd(first, h, n, size);
      assert w.s.blocks[Virtual(pid, At(first, h, size))].Length() == Pages(size);
    }
  }

  lemma NextHoldsAt(k: Kernel, step: Step, pid: nat, vm: nat, o: Owner, value: Byte)
    requires Valid(k.w) && LiesIn(k.w.s, pid, vm, o) && Holds(k.w, o, Offset(o, vm), value) && !Hits(step, pid, vm)
    ensures Holds(Next(k, step).w, o, Offset(o, vm), value)
  {
    match step
    case SysFree(q, first, n, size) =>
      if HasAll(k.w, q, first, n, size) {
        if q == pid {
          MissesRun(k.w, pid, first, n, size, vm, o);
        }
        ReleaseAllHolds(k.w, q, first, n, size, o, Offset(o, vm), value);
      }
    case SysRealloc(call, q, from, old_, to, new_, size) =>
      if old_ <= new_ && HasAll(k.w, q, from, old_, size) {
        if q == pid {
          MissesRun(k.w, pid, from, old_, size, vm, o);
        }
        ReallocHolds(k.w, call, q, from, old_, to, new_, size, o, Offset(o, vm), value);
      }
    case _ => NextHolds(k, step, o, Offset(o, vm), value);
  }

  lemma HeldLiesIn(w: World, pid: nat, vm: nat, o: Owner, value: Byte)
    requires Valid(w) && o.Virtual? && o.pid == pid && Offset(o, vm) >= 0 && Holds(w, o, Offset(o, vm), value)
    ensures LiesIn(w.s, pid, vm, o) && Load(w.s, pid, vm) == Some(value)
  {
    HeldIsRead(w, o, Offset(o, vm), value);
    LoadIs(w.s, pid, vm, o);
  }

  lemma {:induction false} RunHoldsAt(k: Kernel, steps: seq<Step>, pid: nat, vm: nat, o: Owner, value: Byte)
    requires Valid(k.w) && LiesIn(k.w.s, pid, vm, o) && Holds(k.w, o, Offset(o, vm), value)
    requires forall i | 0 <= i < |steps| :: !Hits(steps[i], pid, vm)
    ensures Load(Run(k, steps).w.s, pid, vm) == Some(value)
    decreases |steps|
  {
    if steps == [] {
      HeldLiesIn(k.w, pid, vm, o, value);
    } else {
      var k' := Next(k, steps[0]);
      NextKeeps(k, steps[0]);
      NextHoldsAt(k, steps[0], pid, vm, o, value);
      HeldLiesIn(k'.w, pid, vm, o, value);
      RunHoldsAt(k', steps[1..], pid, vm, o, value);
    }
  }

  /** Paging is invisible: after any steps whatever that neither store at the address nor give its pages
      up, swaps and faults of every process among them, the process reads there what it last stored, in
      the one entry that spans the address. */
  lemma LoadReturnsLastStore(k: Kernel, pid: nat, vm: nat, value: Byte, steps: seq<Step>)
    requires Valid(k.w) && Resident(k.w.s, pid, vm)
    requires forall i | 0 <= i < |steps| :: !Hits(steps[i], pid, vm)
    ensures var s := Run(Next(k, StoreAt(k.w.s, pid, vm, value)), steps).w.s;
            && Load(s, pid, vm) == Some(value)
            && forall o, o' | LiesIn(s, pid, vm, o) && LiesIn(s, pid, vm, o') :: o == o'
  {
    var step := StoreAt(k.w.s, pid, vm, value);
    StoredAt(k, pid, vm, value, step);
    RunHoldsAt(Next(k, step), steps, pid, vm, step.o, value);
    RunsKeep(Next(k, step), steps);
  }

  lemma StoredAt(k: Kernel, pid: nat, vm: nat, value: Byte, step: Step)
    requires Valid(k.w) && step.StoreByte? && LiesIn(k.w.s, pid, vm, step.o) && k.w.s.blocks[step.o].place.InRam?
    requires step.off == Offset(step.o, vm) && step.value == value
    ensures Valid(Next(k, step).w) && LiesIn(Next(k, step).w.s, pid, vm, step.o)
    ensures Holds(Next(k, step).w, step.o, Offset(step.o, vm), value)
  {
    StepIsHeld(k, step.o, step.off, value);
    HeldLiesIn(Next(k, step).w, pid, vm, step.o, value);
  }

  /** Frames given up by a swap-out are free and no entry of any owner leads to them. */
  lemma SwappedFrameUnreachable(w: World, o: Owner, p: int)
    requires Valid(w) && o in w.s.blocks && w.s.blocks[o].Covers(p) && SwapOut(w, o) != w
    ensures !SwapOut(w, o).s.table[p]
    ensures forall q | q in SwapOut(w, o).s.blocks :: !SwapOut(w, o).s.blocks[q].Covers(p)
  {
    SwapOutKeeps(w, o);
  }

  /** A process that exits leaves no entry, and frees exactly the frames its entries covered. */
  lemma ExitFreesItsFrames(k: Kernel, pid: nat, p: nat)
    requires Valid(k.w) && p < |k.w.s.table|
    ensures EntriesOf(Next(k, Exit(pid)).w.s, pid) == {}
    ensures |Next(k, Exit(pid)).w.s.table| == |k.w.s.table|
    ensures Next(k, Exit(pid)).w.s.table[p] <==>
              k.w.s.table[p] && forall o | o in EntriesOf(k.w.s, pid) :: !k.w.s.blocks[o].Covers(p)
  {
    var s, s' := k.w.s, Next(k, Exit(pid)).w.s;
    ReleaseSetKeeps(k.w, EntriesOf(s, pid));
    ReleaseSetLength(k.w, EntriesOf(s, pid));
    assert forall q | q in s'.blocks && s.blocks[q].Covers(p) :: s'.blocks[q].Covers(p);
    if s'.table[p] {
      var q :| q in s'.blocks && s'.blocks[q].Covers(p);
      assert s.blocks[q].Covers(p);
    } else if s.table[p] {
      var q :| q in s.blocks && s.blocks[q].Covers(p);
    }
  }

  lemma {:induction false} ReleaseSetLength(w: World, owners: set<Owner>)
    ensures |ReleaseSet(w, owners).s.table| == |w.s.table|
    decreases |owners|
  {
    if owners != {} {
      var o :| o in owners && ReleaseSet(w, owners) == ReleaseSet(Release(w, o), owners - {o});
      ReleaseSetLength(Release(w, o), owners - {o});
    }
  }
}
