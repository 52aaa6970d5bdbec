/** The physical page bitmap of `Kingmem`: the two skipping scans, the marking loop and the
    kernel allocator over them.

    One element of `physRamTable` is one bit of the source's table and stands for one 4096-byte
    page. The source packs eight to a byte but mixes bytes, bits and pages in its scan (it compares
    the gate with a byte count, steps with `bit<<=2`, and never advances the byte in
    `manipulate_phys`); everything here counts pages. Addresses are page numbers and a failed search
    is None, where the source returns the address 0 that is also the address of page 0. */
module Bitmap {
  import opened PageTypes

  ghost predicate FreeRun(table: seq<bool>, start: int, len: int) {
    0 <= start && start + len <= |table| && forall p | start <= p < start + len :: !table[p]
  }

  /** A free run lying before `end` that starts on a page of the given size. */
  ghost predicate Fit(table: seq<bool>, start: int, len: int, pagetype: PageType, end: int) {
    start % Pages(pagetype) == 0 && start + len <= end && FreeRun(table, start, len)
  }

  /** Plain page-by-page search for the first aligned free run before `end`. */
  ghost function FirstFit(table: seq<bool>, from: nat, end: int, len: nat, pagetype: PageType): (r: Option<nat>)
    requires end <= |table|
    ensures r.Some? ==> from <= r.value && Fit(table, r.value, len, pagetype, end)
    ensures r.Some? ==> forall s | from <= s < r.value :: !Fit(table, s, len, pagetype, end)
    ensures r.None? ==> forall s | from <= s :: !Fit(table, s, len, pagetype, end)
    decreases |table| - from
  {
    if from + len > end then None
    else if Fit(table, from, len, pagetype, end) then Some(from)
    else if from < |table| then FirstFit(table, from + 1, end, len, pagetype)
    else None
  }

  lemma FirstFitIs(table: seq<bool>, s: nat, end: int, len: nat, pagetype: PageType)
    requires end <= |table| && Fit(table, s, len, pagetype, end)
    requires forall t | 0 <= t < s :: !Fit(table, t, len, pagetype, end)
    ensures FirstFit(table, 0, end, len, pagetype) == Some(s)
  {
    var r := FirstFit(table, 0, end, len, pagetype);
    assert r.Some?;
  }

  /** The free blocks of one page of the given size below page `end`, ascending. */
  ghost function FreeBlocks(table: seq<bool>, end: nat, pagetype: PageType): (r: seq<nat>)
    requires end % Pages(pagetype) == 0
    ensures forall b | b in r :: b + Pages(pagetype) <= end
    decreases end
  {
    if end == 0 then []
    else
      BlockBelow(end, pagetype);
      var s := end - Pages(pagetype);
      FreeBlocks(table, s, pagetype) + if FreeRun(table, s, Pages(pagetype)) then [s] else []
  }

  /** FreeBlocks is the whole list: a block is in it exactly when it is an aligned free block. */
  lemma {:induction false} FreeBlocksIsAll(table: seq<bool>, end: nat, pagetype: PageType, s: int)
    requires end % Pages(pagetype) == 0
    ensures s in FreeBlocks(table, end, pagetype) <==> Fit(table, s, Pages(pagetype), pagetype, end)
    decreases end
  {
    if end > 0 {
      BlockBelow(end, pagetype);
      FreeBlocksIsAll(table, end - Pages(pagetype), pagetype, s);
      if s % Pages(pagetype) == 0 {
        BlockGap(s, end - Pages(pagetype), pagetype);
      }
    }
  }

  lemma {:induction false} FreeBlocksAscend(table: seq<bool>, end: nat, pagetype: PageType, i: nat, j: nat)
    requires end % Pages(pagetype) == 0
    requires i < j < |FreeBlocks(table, end, pagetype)|
    ensures FreeBlocks(table, end, pagetype)[i] < FreeBlocks(table, end, pagetype)[j]
    decreases end
  {
    BlockBelow(end, pagetype);
    var below := FreeBlocks(table, end - Pages(pagetype), pagetype);
    assert below[i] in below;
    if j < |below| {
      FreeBlocksAscend(table, end - Pages(pagetype), pagetype, i, j);
    }
  }

  lemma {:induction false} FreeBlocksPrefix(table: seq<bool>, some: nat, end: nat, pagetype: PageType)
    requires some <= end && some % Pages(pagetype) == 0 && end % Pages(pagetype) == 0
    ensures FreeBlocks(table, some, pagetype) <= FreeBlocks(table, end, pagetype)
    decreases end
  {
    BlockGap(some, end, pagetype);
    if some < end {
      BlockBelow(end, pagetype);
      FreeBlocksPrefix(table, some, end - Pages(pagetype), pagetype);
    }
  }

  lemma BlockBelow(end: nat, pagetype: PageType)
    requires end % Pages(pagetype) == 0
    ensures (end + Pages(pagetype)) % Pages(pagetype) == 0
    ensures end > 0 ==> end >= Pages(pagetype) && (end - Pages(pagetype)) % Pages(pagetype) == 0
  {
    match pagetype
    case Lev4 =>
    case BigPage =>
    case MidPage =>
    case SmallPage =>
  }

  /** Two multiples of the page size are equal or at least one page apart. */
  lemma BlockGap(a: int, b: int, pagetype: PageType)
    requires a % Pages(pagetype) == 0 && b % Pages(pagetype) == 0
    ensures a < b ==> a + Pages(pagetype) <= b
    ensures b < a ==> b + Pages(pagetype) <= a
  {
    match pagetype
    case Lev4 =>
    case BigPage =>
    case MidPage =>
    case SmallPage =>
  }

  /** The page after x that starts the next aligned block. The source's own expression for it
      divides by the block size once too often. */
  function NextBlock(x: nat, pagetype: PageType): (n: nat)
    ensures x < n <= x + Pages(pagetype) && n % Pages(pagetype) == 0
  {
    match pagetype
    case MidPage => (x / 512 + 1) * 512
    case BigPage => (x / 262144 + 1) * 262144
    case _ => x + 1
  }

  ghost function SetRange(table: seq<bool>, start: int, len: int, value: bool): (r: seq<bool>)
    ensures |r| == |table|
    ensures forall p | 0 <= p < |table| :: r[p] == if start <= p < start + len then value else table[p]
  {
    seq(|table|, p requires 0 <= p < |table| => if start <= p < start + len then value else table[p])
  }

  /** The pages of all the given blocks set to `value`. */
  ghost function SetBlocks(table: seq<bool>, blocks: seq<nat>, pagetype: PageType, value: bool): (r: seq<bool>)
    ensures |r| == |table|
  {
    if blocks == [] then table
    else SetRange(SetBlocks(table, blocks[..|blocks| - 1], pagetype, value), blocks[|blocks| - 1],
        Pages(pagetype), value)
  }

  /** The page lies in one of the blocks. */
  ghost predicate InBlocks(blocks: seq<nat>, pagetype: PageType, p: nat) {
    exists i :: 0 <= i < |blocks| && blocks[i] <= p < blocks[i] + Pages(pagetype)
  }

  lemma {:induction false} SetBlocksAt(table: seq<bool>, blocks: seq<nat>, pagetype: PageType, value: bool, p: nat)
    requires p < |table|
    ensures SetBlocks(table, blocks, pagetype, value)[p] == if InBlocks(blocks, pagetype, p) then value else table[p]
  {
    if blocks != [] {
      var last := |blocks| - 1;
      SetBlocksAt(table, blocks[..last], pagetype, value, p);
      if InBlocks(blocks[..last], pagetype, p) {
        var i :| 0 <= i < last && blocks[..last][i] <= p < blocks[..last][i] + Pages(pagetype);
        assert blocks[i] <= p < blocks[i] + Pages(pagetype);
      } else if InBlocks(blocks, pagetype, p) {
        var i :| 0 <= i < |blocks| && blocks[i] <= p < blocks[i] + Pages(pagetype);
        assert i < last ==> blocks[..last][i] == blocks[i];
      }
    }
  }

  /** Both scans look for a full gate only on entering the next iteration, so a run that ends with
      the last page of memory is never seen: they search the table without its last page. */
  function ScanEnd(length: nat): int {
    length - 1
  }

  /** Exactly when the kernel's scan answers as a search of the whole table would: the first fit
      does not end with the last page of memory. */
  lemma ScanMissesLastPage(table: seq<bool>, len: nat, pagetype: PageType)
    ensures FirstFit(table, 0, ScanEnd(|table|), len, pagetype) == FirstFit(table, 0, |table|, len, pagetype)
       <==> (FirstFit(table, 0, |table|, len, pagetype).Some? ==>
               FirstFit(table, 0, |table|, len, pagetype).value + len < |table|)
  {
    var full := FirstFit(table, 0, |table|, len, pagetype);
    var scan := FirstFit(table, 0, ScanEnd(|table|), len, pagetype);
    if full.Some? && full.value + len < |table| {
      assert forall t | 0 <= t < full.value ::
          Fit(table, t, len, pagetype, ScanEnd(|table|)) ==> Fit(table, t, len, pagetype, |table|);
      FirstFitIs(table, full.value, ScanEnd(|table|), len, pagetype);
    } else if scan.Some? {
      assert Fit(table, scan.value, len, pagetype, |table|);
    }
  }

  /** It does miss: one free page of memory is there for the search, not for the scan. */
  lemma LastPageMissed()
    ensures FirstFit([false], 0, 1, 1, SmallPage) == Some(0) && FirstFit([false], 0, ScanEnd(1), 1, SmallPage) == None
  {
    FirstFitIs([false], 0, 1, 1, SmallPage);
  }

  /** With the last page used it never does. */
  lemma UsedLastPageMissesNone(table: seq<bool>, len: nat, pagetype: PageType)
    requires table != [] && table[|table| - 1] && len > 0
    ensures FirstFit(table, 0, ScanEnd(|table|), len, pagetype) == FirstFit(table, 0, |table|, len, pagetype)
  {
    ScanMissesLastPage(table, len, pagetype);
  }

  class Kingmem {
    const physRamTable: array<bool>

    constructor (pages: nat)
      ensures physRamTable.Length == pages
      ensures forall p | 0 <= p < pages :: !physRamTable[p]
      ensures fresh(physRamTable)
    {
      physRamTable := new bool[pages](_ => false);
    }

    /** `get_free_identity`: the first aligned run of `pages` pages of the given size. */
    method GetFreeIdentity(pages: nat, pagetype: PageType) returns (r: Option<nat>)
      ensures r == FirstFit(physRamTable[..], 0, ScanEnd(physRamTable.Length), Pages(pagetype) * pages, pagetype)
    {
      ghost var table := physRamTable[..];
      ghost var end := ScanEnd(physRamTable.Length);
      var want := Pages(pagetype) * pages;
      var page, gate := 0, 0;
      while page < physRamTable.Length
        invariant 0 <= gate <= page && gate <= want
        invariant (page - gate) % Pages(pagetype) == 0
        invariant gate > 0 ==> FreeRun(table, page - gate, gate)
        invariant forall s | 0 <= s < page - gate :: !Fit(table, s, want, pagetype, end)
        decreases physRamTable.Length - page
      {
        if gate == want {
          FirstFitIs(table, page - gate, end, want, pagetype);
          return Some(page - gate);
        }
        if physRamTable[page] {
          var next := NextBlock(page, pagetype);
          SkipMissesNothing(table, page, gate, next, want, pagetype, end);
          gate := 0;
          page := next;
        } else {
          gate := gate + 1;
          page := page + 1;
        }
      }
      r := None;
    }

    /** `get_free_phys`: up to `pages` separate aligned blocks, in ascending order; `ok` says whether
        there were enough, and the blocks found are returned either way. The source forgets to
        reset the gate after recording a block. */
    method GetFreePhys(pages: nat, pagetype: PageType) returns (blocks: seq<nat>, ok: bool)
      ensures FirstBlocks(physRamTable[..], pages, pagetype, blocks, ok)
    {
      ghost var table := physRamTable[..];
      blocks, ok := [], false;
      if pages == 0 {
        assert AllBlocks(table, pagetype)[..0] == [];
        return [], physRamTable.Length > 0;
      }
      var page, gate := 0, 0;
      ghost var start: nat := 0;
      while page < physRamTable.Length
        invariant start + gate == page && |blocks| < pages
        invariant Scanned(table, start, gate, pagetype, blocks)
        decreases physRamTable.Length - page
      {
        if gate == Pages(pagetype) {
          RecordStep(table, start, pagetype, blocks);
          blocks := blocks + [page - gate];
          gate, start := 0, page;
          if |blocks| == pages {
            EnoughBlocks(table, pages, pagetype, blocks);
            return blocks, true;
          }
        }
        if physRamTable[page] {
          JumpStep(table, start, page, pagetype, blocks);
          page := NextBlock(page, pagetype);
          gate, start := 0, page;
        } else {
          GateStep(table, start, gate, pagetype, blocks);
          gate := gate + 1;
          page := page + 1;
        }
      }
      if table != [] {
        ExitStep(table, start, gate, pagetype, blocks);
      }
    }

    /** `manipulate_phys`. As in the source, clearing first sets the bit and then flips it. */
    method ManipulatePhys(phys: seq<nat>, pagetype: PageType, set_: bool)
      requires forall b | b in phys :: b + Pages(pagetype) <= physRamTable.Length
      modifies physRamTable
      ensures physRamTable[..] == SetBlocks(old(physRamTable[..]), phys, pagetype, set_)
    {
      var i := 0;
      while i < |phys|
        invariant 0 <= i <= |phys|
        invariant physRamTable[..] == SetBlocks(old(physRamTable[..]), phys[..i], pagetype, set_)
      {
        ghost var before := physRamTable[..];
        assert phys[i] in phys;
        var j := 0;
        while j < Pages(pagetype)
          invariant 0 <= j <= Pages(pagetype)
          invariant physRamTable[..] == SetRange(before, phys[i], j, set_)
        {
          physRamTable[phys[i] + j] := true;
          if !set_ {
            physRamTable[phys[i] + j] := !physRamTable[phys[i] + j];
          }
          j := j + 1;
        }
        assert phys[..i + 1][..i] == phys[..i];
        i := i + 1;
      }
      assert phys[..i] == phys;
    }

    /** `malloc`: claim the first fit. The source marks the pages from address 0 when there is none. */
    method Malloc(pages: nat, pagetype: PageType) returns (r: Option<nat>)
      modifies physRamTable
      ensures r == FirstFit(old(physRamTable[..]), 0, ScanEnd(physRamTable.Length), Pages(pagetype) * pages, pagetype)
      ensures physRamTable[..] == if r.None? then old(physRamTable[..])
                                  else SetRange(old(physRamTable[..]), r.value, Pages(pagetype) * pages, true)
    {
      r := GetFreeIdentity(pages, pagetype);
      if r.Some? {
        var blocks := Consecutive(r.value, pages, pagetype);
        RunLengthIs(pages, pagetype);
        ConsecutiveBlocks(physRamTable[..], r.value, pages, pagetype, true);
        ManipulatePhys(blocks, pagetype, true);
      }
    }

    /** `mfree` */
    method MFree(base: nat, pages: nat, pagetype: PageType)
      requires base + Pages(pagetype) * pages <= physRamTable.Length
      modifies physRamTable
      ensures physRamTable[..] == SetRange(old(physRamTable[..]), base, Pages(pagetype) * pages, false)
    {
      var blocks := Consecutive(base, pages, pagetype);
      RunLengthIs(pages, pagetype);
      ConsecutiveBlocks(physRamTable[..], base, pages, pagetype, false);
      ManipulatePhys(blocks, pagetype, false);
    }
  }

  /** The pages of n blocks. */
  function RunLength(n: nat, pagetype: PageType): nat {
    if n == 0 then 0 else RunLength(n - 1, pagetype) + Pages(pagetype)
  }

  lemma {:induction false} RunLengthIs(n: nat, pagetype: PageType)
    ensures RunLength(n, pagetype) == Pages(pagetype) * n
  {
    if n > 0 {
      RunLengthIs(n - 1, pagetype);
      assert Pages(pagetype) * n - Pages(pagetype) == Pages(pagetype) * (n - 1);
    }
  }

  /** The first pages of n consecutive blocks. */
  function Consecutive(base: nat, n: nat, pagetype: PageType): (r: seq<nat>)
    ensures |r| == n
    ensures forall b | b in r :: b + Pages(pagetype) <= base + RunLength(n, pagetype)
  {
    if n == 0 then [] else Consecutive(base, n - 1, pagetype) + [base + RunLength(n - 1, pagetype)]
  }

  lemma {:induction false} ConsecutiveBlocks(table: seq<bool>, base: nat, n: nat, pagetype: PageType, value: bool)
    ensures SetBlocks(table, Consecutive(base, n, pagetype), pagetype, value)
         == SetRange(table, base, RunLength(n, pagetype), value)
  {
    if n == 0 {
      assert SetRange(table, base, 0, value) == table;
    } else {
      ConsecutiveBlocks(table, base, n - 1, pagetype, value);
      OneMore(table, Consecutive(base, n - 1, pagetype), base, RunLength(n - 1, pagetype), pagetype, value);
    }
  }

  lemma OneMore(table: seq<bool>, blocks: seq<nat>, base: nat, less: nat, pagetype: PageType, value: bool)
    requires SetBlocks(table, blocks, pagetype, value) == SetRange(table, base, less, value)
    ensures SetBlocks(table, blocks + [base + less], pagetype, value)
            == SetRange(table, base, less + Pages(pagetype), value)
  {
    SetBlocksSnoc(table, blocks, base + less, pagetype, value);
    SetRangeSplit(table, base, less, Pages(pagetype), value);
  }

  lemma SetBlocksSnoc(table: seq<bool>, blocks: seq<nat>, b: nat, pagetype: PageType, value: bool)
    ensures SetBlocks(table, blocks + [b], pagetype, value)
         == SetRange(SetBlocks(table, blocks, pagetype, value), b, Pages(pagetype), value)
  {
    assert (blocks + [b])[..|blocks|] == blocks;
  }

  lemma SetRangeSplit(table: seq<bool>, start: int, len: nat, more: nat, value: bool)
    ensures SetRange(SetRange(table, start, len, value), start + len, more, value)
         == SetRange(table, start, len + more, value)
  {
  }

  /** The end of the last whole block the scan can see. */
  ghost function LastEnd(length: nat, pagetype: PageType): (e: nat)
    requires length > 0
    ensures e % Pages(pagetype) == 0 && e < length <= e + Pages(pagetype)
  {
    BlockBelow(NextBlock(length - 1, pagetype), pagetype);
    NextBlock(length - 1, pagetype) - Pages(pagetype)
  }

  /** Every block the scan can see. */
  ghost function AllBlocks(table: seq<bool>, pagetype: PageType): seq<nat> {
    if table == [] then [] else FreeBlocks(table, LastEnd(|table|, pagetype), pagetype)
  }

  /** The scan's first answer for one page is the first of those blocks. */
  lemma ScanFindsBlocks(table: seq<bool>, pagetype: PageType)
    requires table != []
    ensures var r := FirstFit(table, 0, ScanEnd(|table|), Pages(pagetype), pagetype);
            && (r.Some? <==> AllBlocks(table, pagetype) != [])
            && (r.Some? ==> r.value in AllBlocks(table, pagetype))
  {
    var r := FirstFit(table, 0, ScanEnd(|table|), Pages(pagetype), pagetype);
    var all := AllBlocks(table, pagetype);
    if r.Some? {
      SeenBlock(table, r.value, pagetype);
    }
    if all != [] {
      assert all[0] in all;
      SeenBlock(table, all[0], pagetype);
    }
  }

  lemma SeenBlock(table: seq<bool>, s: nat, pagetype: PageType)
    requires table != []
    ensures s in AllBlocks(table, pagetype) <==> Fit(table, s, Pages(pagetype), pagetype, ScanEnd(|table|))
  {
    var end := LastEnd(|table|, pagetype);
    FreeBlocksIsAll(table, end, pagetype, s);
    if s % Pages(pagetype) == 0 {
      BlockGap(end, s, pagetype);
    }
  }

  /** Taking a block takes just it from the free ones. */
  lemma {:induction false} TakeBlock(table: seq<bool>, end: nat, b: nat, pagetype: PageType)
    requires end % Pages(pagetype) == 0 && b % Pages(pagetype) == 0 && end <= |table|
    ensures |FreeBlocks(SetRange(table, b, Pages(pagetype), true), end, pagetype)|
            == |FreeBlocks(table, end, pagetype)| - if b in FreeBlocks(table, end, pagetype) then 1 else 0
    decreases end
  {
    if end > 0 {
      BlockBelow(end, pagetype);
      var s := end - Pages(pagetype);
      TakeBlock(table, s, b, pagetype);
      TakenRun(table, s, b, pagetype);
    }
  }

  lemma TakenRun(table: seq<bool>, s: nat, b: nat, pagetype: PageType)
    requires s % Pages(pagetype) == 0 && b % Pages(pagetype) == 0 && s + Pages(pagetype) <= |table|
    ensures FreeRun(SetRange(table, b, Pages(pagetype), true), s, Pages(pagetype))
            <==> FreeRun(table, s, Pages(pagetype)) && s != b
  {
    BlockGap(s, b, pagetype);
    var taken := SetRange(table, b, Pages(pagetype), true);
    assert taken[s] == (s == b || table[s]) || s != b;
    if s != b {
      assert forall p | s <= p < s + Pages(pagetype) :: taken[p] == table[p];
    } else {
      assert taken[s];
    }
  }

  lemma TakeFirst(table: seq<bool>, b: nat, pagetype: PageType)
    requires FirstFit(table, 0, ScanEnd(|table|), Pages(pagetype), pagetype) == Some(b)
    ensures |AllBlocks(SetRange(table, b, Pages(pagetype), true), pagetype)| == |AllBlocks(table, pagetype)| - 1
  {
    ScanFindsBlocks(table, pagetype);
    TakeBlock(table, LastEnd(|table|, pagetype), b, pagetype);
  }

  /** The first so many blocks the scan can see, if there are enough, and else all there are. */
  ghost predicate FirstBlocks(table: seq<bool>, pages: nat, pagetype: PageType, blocks: seq<nat>, ok: bool) {
    var all := AllBlocks(table, pagetype);
    && (ok <==> |table| > 0 && |all| >= pages)
    && blocks == if |all| >= pages then all[..pages] else all
  }

  lemma EnoughBlocks(table: seq<bool>, pages: nat, pagetype: PageType, blocks: seq<nat>)
    requires table != [] && |blocks| == pages && blocks <= AllBlocks(table, pagetype)
    ensures FirstBlocks(table, pages, pagetype, blocks, true)
  {
  }

  /** The state before a turn: the blocks are the free ones below start, `gate` free pages were seen from
      there, and what was jumped over was no free block. */
  ghost predicate Scanned(table: seq<bool>, start: nat, gate: nat, pagetype: PageType, blocks: seq<nat>) {
    && start % Pages(pagetype) == 0 && gate <= Pages(pagetype) && (gate > 0 ==> FreeRun(table, start, gate))
    && (gate == 0 && start > 0 ==> start < |table| + Pages(pagetype) && DeadBlock(table, start, pagetype))
    && blocks == FreeBlocks(table, start, pagetype)
  }

  lemma RecordStep(table: seq<bool>, start: nat, pagetype: PageType, blocks: seq<nat>)
    requires start % Pages(pagetype) == 0 && start + Pages(pagetype) < |table|
    requires FreeRun(table, start, Pages(pagetype)) && blocks == FreeBlocks(table, start, pagetype)
    ensures (start + Pages(pagetype)) % Pages(pagetype) == 0
    ensures FreeBlocks(table, start + Pages(pagetype), pagetype) == blocks + [start]
    ensures blocks + [start] <= AllBlocks(table, pagetype)
  {
    BlockBelow(start, pagetype);
    BlockGap(LastEnd(|table|, pagetype), start, pagetype);
    BlockGap(start + Pages(pagetype), LastEnd(|table|, pagetype), pagetype);
    FreeBlocksPrefix(table, start + Pages(pagetype), LastEnd(|table|, pagetype), pagetype);
  }

  lemma NextBlockIs(start: nat, x: nat, pagetype: PageType)
    requires start % Pages(pagetype) == 0 && start <= x < start + Pages(pagetype)
    ensures NextBlock(x, pagetype) == start + Pages(pagetype)
  {
    match pagetype
    case Lev4 =>
    case BigPage =>
    case MidPage =>
    case SmallPage =>
  }

  lemma JumpStep(table: seq<bool>, start: nat, used: nat, pagetype: PageType, blocks: seq<nat>)
    requires start % Pages(pagetype) == 0 && start <= used < start + Pages(pagetype) && used < |table| && table[used]
    requires blocks == FreeBlocks(table, start, pagetype)
    ensures Scanned(table, NextBlock(used, pagetype), 0, pagetype, blocks)
  {
    NextBlockIs(start, used, pagetype);
    BlockBelow(start, pagetype);
  }

  lemma GateStep(table: seq<bool>, start: nat, gate: nat, pagetype: PageType, blocks: seq<nat>)
    requires start % Pages(pagetype) == 0 && gate < Pages(pagetype) && (gate > 0 ==> FreeRun(table, start, gate))
    requires start + gate < |table| && !table[start + gate] && blocks == FreeBlocks(table, start, pagetype)
    ensures Scanned(table, start, gate + 1, pagetype, blocks)
  {
  }

  lemma ExitStep(table: seq<bool>, start: nat, gate: nat, pagetype: PageType, blocks: seq<nat>)
    requires |table| > 0 && Scanned(table, start, gate, pagetype, blocks) && start + gate >= |table|
    ensures blocks == AllBlocks(table, pagetype)
  {
    var end := LastEnd(|table|, pagetype);
    if gate > 0 {
      BlockGap(end, start, pagetype);
    } else {
      BlockBelow(start, pagetype);
      BlockGap(end, start - Pages(pagetype), pagetype);
    }
  }

  ghost predicate DeadBlock(table: seq<bool>, end: nat, pagetype: PageType) {
    !FreeRun(table, end - Pages(pagetype), Pages(pagetype))
  }

  /** Jumping to the next aligned block after a used page loses no fit: the run under the gate
      and every aligned start up to the used page would contain that page. */
  lemma SkipMissesNothing(table: seq<bool>, used: nat, gate: nat, next: nat, want: nat, pagetype: PageType, end: int)
    requires used < |table| && table[used] && gate <= used && gate < want
    requires next == NextBlock(used, pagetype)
    requires forall s | 0 <= s < used - gate :: !Fit(table, s, want, pagetype, end)
    ensures forall s | 0 <= s < next :: !Fit(table, s, want, pagetype, end)
  {
    forall s | 0 <= s < next ensures !Fit(table, s, want, pagetype, end) {
      if used < s {
        NotAligned(used, s, pagetype);
      } else if used - gate <= s {
        assert !FreeRun(table, s, want);
      }
    }
  }

  lemma NotAligned(x: nat, s: nat, pagetype: PageType)
    requires x < s < NextBlock(x, pagetype)
    ensures s % Pages(pagetype) != 0
  {
    match pagetype
    case Lev4 =>
    case BigPage =>
    case MidPage =>
    case SmallPage =>
  }
}
