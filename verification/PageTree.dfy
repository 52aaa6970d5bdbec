/** The four-level page tree of a process, laid out in one array level after level: laying, walking,
    finding free runs, mapping and unmapping.

    Indices count 8-byte entries from the start of the tree; `offset_by_depth` mixes them with bytes.
    A directory's `frame` is the index of its table, a leaf's the physical address it maps. Large
    pages carry the PS bit that `memreq_template` leaves out, and the taken bit survives the
    template. Depth 0 is LEV4, depth 3 SMALLPAGE; the search covers the whole level, where the
    source stops after the bytes of one page divided by 4096. */
module PageTree {
  import opened PageTypes

  datatype Mode = Segfault | Map | Reserve | Swapped | File

  datatype Entry = Entry(present: bool, supervisor: bool, large: bool, taken: bool, mode: Mode, frame: nat)

  const LEVEL1: nat := 512
  const LEVEL2: nat := 512 + 512 * 512
  const LEVEL3: nat := 512 + 512 * 512 + 512 * 512 * 512
  const TREE: nat := 512 + 512 * 512 + 512 * 512 * 512 + 512 * 512 * 512 * 512
  const VIRTUAL_END: nat := 512 * 512 * 512 * 512 * 4096

  /** `offset_by_depth`: where a level starts. */
  function LevelBase(depth: nat): nat {
    if depth == 0 then 0 else if depth == 1 then LEVEL1 else if depth == 2 then LEVEL2 else LEVEL3
  }

  function LevelLength(depth: nat): nat {
    if depth == 0 then 512
    else if depth == 1 then 512 * 512
    else if depth == 2 then 512 * 512 * 512
    else 512 * 512 * 512 * 512
  }

  /** n entries of the level in bytes, the entry an address falls in, and the rest; an entry of the
      levels spans 512 GB, 1 GB, 2 MB and 4 KB, spelled out to keep the arithmetic linear. */
  function Times(n: nat, depth: nat): nat {
    if depth == 0 then n * 549755813888
    else if depth == 1 then n * 1073741824
    else if depth == 2 then n * 2097152
    else n * 4096
  }

  function Quot(m: nat, depth: nat): nat {
    if depth == 0 then m / 549755813888
    else if depth == 1 then m / 1073741824
    else if depth == 2 then m / 2097152
    else m / 4096
  }

  function Rem(m: nat, depth: nat): nat {
    if depth == 0 then m % 549755813888
    else if depth == 1 then m % 1073741824
    else if depth == 2 then m % 2097152
    else m % 4096
  }

  /** The closed form: level offset plus address divided by page size. At depth 3 this is
      `physto_offset`. */
  function Index(depth: nat, vm: nat): nat {
    LevelBase(depth) + Quot(vm, depth)
  }

  /** `entryto_vm`: the first address behind an entry. */
  function EntryToVm(k: nat): nat {
    if k < LEVEL1 then Times(k, 0)
    else if k < LEVEL2 then Times(k - LEVEL1, 1)
    else if k < LEVEL3 then Times(k - LEVEL2, 2)
    else Times(k - LEVEL3, 3)
  }

  function DepthOf(k: nat): nat {
    if k < LEVEL1 then 0 else if k < LEVEL2 then 1 else if k < LEVEL3 then 2 else 3
  }

  /** The table an entry of levels 0 to 2 is laid to point at: the i-th table of the next level. */
  function ChildTable(k: nat): nat {
    512 * (k + 1)
  }

  function Parent(k: nat): nat
    requires k >= 512
  {
    k / 512 - 1
  }

  function DefaultEntry(k: nat): Entry {
    Entry(true, false, false, false, Segfault, if k < LEVEL3 then ChildTable(k) else 0)
  }

  /** Tables of different entries never overlap, those of one level fill exactly the next level, and
      all lie within the tree. */
  lemma TablesTile(k: nat, j: nat)
    requires k < LEVEL3 && j < LEVEL3
    ensures LevelBase(DepthOf(k) + 1) <= ChildTable(k)
    ensures ChildTable(k) + 512 <= LevelBase(DepthOf(k) + 1) + LevelLength(DepthOf(k) + 1) <= TREE
    ensures k != j ==> ChildTable(k) + 512 <= ChildTable(j) || ChildTable(j) + 512 <= ChildTable(k)
    ensures forall i | ChildTable(k) <= i < ChildTable(k) + 512 :: Parent(i) == k
  {
  }

  /** `entryto_vm` and the closed form are inverse, at every level. */
  lemma EntryVmInverse(k: nat, vm: nat, depth: nat)
    requires k < TREE && depth <= 3 && vm < VIRTUAL_END
    ensures EntryToVm(k) < VIRTUAL_END && Index(DepthOf(k), EntryToVm(k)) == k
    ensures Index(depth, vm) < LevelBase(depth) + LevelLength(depth) && DepthOf(Index(depth, vm)) == depth
    ensures EntryToVm(Index(depth, vm)) == vm - Rem(vm, depth)
  {
  }

  /** Every directory that is not a large page points where it was laid to. */
  ghost predicate Linked(t: seq<Entry>) {
    |t| == TREE && forall k | 0 <= k < LEVEL3 :: t[k].large || t[k].frame == ChildTable(k)
  }

  /** The walk of `vmto_entry` through the stored pointers, from a table of the given depth, down to
      the first large page or to the depth asked for. */
  ghost function Walk(t: seq<Entry>, table: nat, depth: nat, limit: nat, vm: nat): Option<(nat, nat)>
    requires depth <= limit <= 3
    decreases limit - depth
  {
    var k := table + Quot(vm, depth) % 512;
    if k >= |t| then None
    else if depth == limit || t[k].large then Some((k, depth))
    else Walk(t, t[k].frame, depth + 1, limit, vm)
  }

  /** The depth at which the closed form meets a large page, or the limit. */
  ghost function Landing(t: seq<Entry>, vm: nat, limit: nat): (depth: nat)
    requires |t| == TREE && vm < VIRTUAL_END && limit <= 3
    ensures depth <= limit
  {
    if limit == 0 || t[Index(0, vm)].large then 0
    else if limit == 1 || t[Index(1, vm)].large then 1
    else if limit == 2 || t[Index(2, vm)].large then 2
    else 3
  }

  lemma Descend(depth: nat, vm: nat)
    requires depth < 3 && vm < VIRTUAL_END
    ensures ChildTable(Index(depth, vm)) + Quot(vm, depth + 1) % 512 == Index(depth + 1, vm)
    ensures Index(depth, vm) < LEVEL3 && Index(depth + 1, vm) < TREE
    ensures Parent(Index(depth + 1, vm)) == Index(depth, vm)
  {
    if depth == 0 {
      assert Quot(vm, 1) / 512 == Quot(vm, 0);
    } else if depth == 1 {
      assert Quot(vm, 2) / 512 == Quot(vm, 1);
    } else {
      assert Quot(vm, 3) / 512 == Quot(vm, 2);
    }
  }

  /** No large page on the way down to the given depth. */
  ghost predicate ClearAbove(t: seq<Entry>, depth: nat, vm: nat) {
    && (depth > 0 ==> Index(0, vm) < |t| && !t[Index(0, vm)].large)
    && (depth > 1 ==> Index(1, vm) < |t| && !t[Index(1, vm)].large)
    && (depth > 2 ==> Index(2, vm) < |t| && !t[Index(2, vm)].large)
  }

  lemma LandingIs(t: seq<Entry>, depth: nat, vm: nat, limit: nat)
    requires |t| == TREE && depth <= limit <= 3 && vm < VIRTUAL_END
    ensures Index(depth, vm) < TREE
    ensures Landing(t, vm, limit) == depth
            <==> ClearAbove(t, depth, vm) && (depth == limit || t[Index(depth, vm)].large)
  {
    IndexBound(0, vm);
    IndexBound(1, vm);
    IndexBound(2, vm);
    IndexBound(3, vm);
  }

  lemma {:induction false} WalkFrom(t: seq<Entry>, table: nat, depth: nat, limit: nat, vm: nat, landed: nat)
    requires Linked(t) && vm < VIRTUAL_END && depth <= landed <= limit <= 3 && ClearAbove(t, landed, vm)
    requires Index(landed, vm) < TREE && (landed == limit || t[Index(landed, vm)].large)
    requires table + Quot(vm, depth) % 512 == Index(depth, vm)
    ensures Walk(t, table, depth, limit, vm) == Some((Index(landed, vm), landed))
    decreases limit - depth
  {
    var k := Index(depth, vm);
    IndexBound(depth, vm);
    if depth < landed {
      Descend(depth, vm);
      WalkFrom(t, ChildTable(k), depth + 1, limit, vm, landed);
    } else {
      WalkEnd(t, table, depth, limit, vm, k);
    }
  }

  lemma WalkEnd(t: seq<Entry>, table: nat, depth: nat, limit: nat, vm: nat, k: nat)
    requires depth <= limit <= 3 && k == table + Quot(vm, depth) % 512 && k < |t| && (depth == limit || t[k].large)
    ensures Walk(t, table, depth, limit, vm) == Some((k, depth))
  {
  }

  /** The level-by-level walk lands on the entry the closed form gives. */
  lemma WalkIsClosedForm(t: seq<Entry>, vm: nat, limit: nat)
    requires Linked(t) && vm < VIRTUAL_END && limit <= 3
    ensures Walk(t, 0, 0, limit, vm) == Some((Index(Landing(t, vm, limit), vm), Landing(t, vm, limit)))
  {
    LandingIs(t, Landing(t, vm, limit), vm, limit);
    WalkFrom(t, 0, 0, limit, vm, Landing(t, vm, limit));
  }

  /** `vmto_phys` */
  ghost function VmToPhys(t: seq<Entry>, vm: nat): nat
    requires |t| == TREE && vm < VIRTUAL_END
  {
    var depth := Landing(t, vm, 3);
    IndexBound(depth, vm);
    t[Index(depth, vm)].frame + Rem(vm, depth)
  }

  lemma IndexBound(depth: nat, vm: nat)
    requires depth <= 3 && vm < VIRTUAL_END
    ensures Index(depth, vm) < TREE && DepthOf(Index(depth, vm)) == depth
  {
  }

  // ----- finding, mapping, unmapping -----

  /** n unused entries of one directory from the given position of the level, below no large page. */
  ghost predicate FreeAt(t: seq<Entry>, depth: nat, at: nat, n: nat)
    requires |t| == TREE && depth <= 3
  {
    && at < LevelLength(depth) && at % 512 + n <= 512
    && (forall k | LevelBase(depth) + at <= k < LevelBase(depth) + at + n && k < TREE :: t[k].present && !t[k].taken)
    && ClearAbove(t, depth, Times(at, depth))
  }

  /** Only taken bits were added, and none of them from entry `from` on. */
  ghost predicate OnlyMarked(t: seq<Entry>, t': seq<Entry>, from: nat) {
    && |t| == |t'|
    && (forall k | 0 <= k < |t| :: t'[k] == t[k].(taken := t'[k].taken) && (t[k].taken ==> t'[k].taken))
    && (forall k | from <= k < |t| :: t'[k] == t[k])
  }

  lemma MarkingKeepsTranslations(t: seq<Entry>, t': seq<Entry>, from: nat, vm: nat)
    requires |t| == TREE && OnlyMarked(t, t', from) && vm < VIRTUAL_END
    ensures VmToPhys(t', vm) == VmToPhys(t, vm)
  {
    IndexBound(0, vm);
    IndexBound(1, vm);
    IndexBound(2, vm);
    IndexBound(3, vm);
  }

  /** Unused entries are as laid, and whatever is used sits under used directories. */
  ghost predicate Wellformed(t: seq<Entry>) {
    && Linked(t)
    && (forall k | 0 <= k < TREE && !t[k].taken :: t[k] == DefaultEntry(k))
    && (forall k | 512 <= k < TREE && t[k].taken :: t[Parent(k)].taken)
    && (forall k | 512 <= k < TREE && t[Parent(k)].large :: !t[k].taken)
    && (forall k | 0 <= k < LEVEL3 && !t[k].large :: t[k].present && t[k].mode == Segfault)
  }

  /** The entry `mem_map` writes for its h-th page. */
  function MapEntry(depth: nat, target: nat, h: nat): Entry {
    Entry(true, false, depth < 3, true, Map, target + Times(h, depth))
  }

  ghost function Mapped(t: seq<Entry>, depth: nat, at: nat, n: nat, target: nat): (r: seq<Entry>)
    ensures |r| == |t|
  {
    seq(|t|, k requires 0 <= k < |t| =>
      var h := k - LevelBase(depth) - at;
      if 0 <= h < n then MapEntry(depth, target, h) else t[k])
  }

  ghost function Unmapped(t: seq<Entry>, depth: nat, at: nat, n: nat): (r: seq<Entry>)
    ensures |r| == |t|
  {
    seq(|t|, k requires 0 <= k < |t| =>
      if LevelBase(depth) + at <= k < LevelBase(depth) + at + n then DefaultEntry(k) else t[k])
  }

  lemma UpOne(depth: nat, vm: nat)
    requires depth < 3
    ensures Quot(vm, depth) == Quot(vm, depth + 1) / 512
  {
    if depth == 0 {
      assert Quot(vm, 0) == Quot(vm, 1) / 512;
    } else if depth == 1 {
      assert Quot(vm, 1) == Quot(vm, 2) / 512;
    } else {
      assert Quot(vm, 2) == Quot(vm, 3) / 512;
    }
  }

  /** Addresses under the same entry of one level are under the same entry of every level above. */
  lemma {:induction false} SameAbove(depth: nat, x: nat, y: nat)
    requires depth <= 3 && Quot(x, depth) == Quot(y, depth)
    ensures forall d | 0 <= d <= depth :: Quot(x, d) == Quot(y, d)
  {
    if depth > 0 {
      UpOne(depth - 1, x);
      UpOne(depth - 1, y);
      SameAbove(depth - 1, x, y);
    }
  }

  lemma ShiftedUp(depth: nat, at: nat, n: nat, x: nat, y: nat)
    requires 1 <= depth <= 3 && at < LevelLength(depth) && at % 512 + n <= 512
    requires at <= Quot(x, depth) < at + n && at <= Quot(y, depth) < at + n
    ensures x < VIRTUAL_END && y < VIRTUAL_END
    ensures forall d | 0 <= d < depth :: Quot(x, d) == Quot(y, d)
  {
    UpOne(depth - 1, x);
    UpOne(depth - 1, y);
    SameAbove(depth - 1, x, y);
  }

  lemma DivMod(a: nat, depth: nat)
    ensures Times(Quot(a, depth), depth) + Rem(a, depth) == a
  {
  }

  lemma ShiftedIndex(depth: nat, at: nat, n: nat, a: nat)
    requires 1 <= depth <= 3 && at < LevelLength(depth) && at % 512 + n <= 512 && a < Times(n, depth)
    ensures Times(at, depth) + a < VIRTUAL_END && Times(at, depth) < VIRTUAL_END
    ensures forall d | 0 <= d < depth :: Quot(Times(at, depth) + a, d) == Quot(Times(at, depth), d)
    ensures Quot(Times(at, depth) + a, depth) == at + Quot(a, depth)
    ensures Quot(a, depth) < n
    ensures Rem(Times(at, depth) + a, depth) == Rem(a, depth)
  {
    ShiftedUp(depth, at, n, Times(at, depth) + a, Times(at, depth));
  }

  lemma ClearStays(t: seq<Entry>, t': seq<Entry>, depth: nat, start: nat, vm: nat)
    requires |t| == TREE == |t'| && depth <= 3 && vm < VIRTUAL_END
    requires forall k | 0 <= k < LevelBase(depth) :: t'[k].large == t[k].large
    requires forall d | 0 <= d < depth :: Quot(vm, d) == Quot(start, d)
    requires ClearAbove(t, depth, start)
    ensures ClearAbove(t', depth, vm)
  {
    assert depth > 0 ==> Index(0, vm) == Index(0, start) < LevelBase(depth);
    assert depth > 1 ==> Index(1, vm) == Index(1, start) < LevelBase(depth);
    assert depth > 2 ==> Index(2, vm) == Index(2, start) < LevelBase(depth);
  }

  lemma MappedPage(t: seq<Entry>, depth: nat, at: nat, n: nat, target: nat, start: nat, vm: nat, h: nat)
    requires |t| == TREE && 1 <= depth <= 3 && h < n
    requires vm < VIRTUAL_END && Quot(vm, depth) == at + h && ClearAbove(t, depth, start)
    requires forall d | 0 <= d < depth :: Quot(vm, d) == Quot(start, d)
    ensures VmToPhys(Mapped(t, depth, at, n, target), vm) == target + Times(h, depth) + Rem(vm, depth)
  {
    var t' := Mapped(t, depth, at, n, target);
    assert forall k | 0 <= k < LevelBase(depth) :: t'[k] == t[k];
    ClearStays(t, t', depth, start, vm);
    IndexBound(depth, vm);
    assert t'[Index(depth, vm)] == MapEntry(depth, target, h);
    LandingIs(t', depth, vm, 3);
  }

  /** Page h of a run mapped at `start` translates to target plus h page sizes plus the offset. */
  lemma MappedTranslates(t: seq<Entry>, depth: nat, at: nat, n: nat, target: nat, start: nat, vm: nat)
    requires |t| == TREE && 1 <= depth <= 3 && at < LevelLength(depth) && at % 512 + n <= 512
    requires start == Times(at, depth) && ClearAbove(t, depth, start) && start <= vm < start + Times(n, depth)
    ensures vm < VIRTUAL_END && VmToPhys(Mapped(t, depth, at, n, target), vm) == target + (vm - start)
  {
    var a := vm - start;
    ShiftedIndex(depth, at, n, a);
    MappedPage(t, depth, at, n, target, start, vm, Quot(a, depth));
    DivMod(a, depth);
  }

  /** Rewriting entries of a run changes no translation of an address outside it. */
  lemma OthersTranslate(t: seq<Entry>, t': seq<Entry>, depth: nat, at: nat, n: nat, vm: nat)
    requires |t| == TREE == |t'| && 1 <= depth <= 3 && vm < VIRTUAL_END
    requires forall k | 0 <= k < TREE && !(LevelBase(depth) + at <= k < LevelBase(depth) + at + n) :: t'[k] == t[k]
    requires at + n <= LevelLength(depth)
    requires !(at <= Quot(vm, depth) < at + n)
    ensures VmToPhys(t', vm) == VmToPhys(t, vm)
  {
  }

  /** As written the search always walks to the last level and so recognises an unused entry only
      there: no run of large pages is ever found in a freshly laid tree. */
  lemma FetchAsWrittenFindsSmallOnly(t: seq<Entry>, depth: nat, at: nat, n: nat)
    requires Wellformed(t) && 1 <= depth <= 3 && n > 0 && FreeAt(t, depth, at, n)
    ensures Times(at, depth) < VIRTUAL_END
    ensures Landing(t, Times(at, depth), 3) == depth <==> depth == 3
  {
    ShiftedIndex(depth, at, n, 0);
    var k := LevelBase(depth) + at;
    assert t[k] == DefaultEntry(k);
    LandingIs(t, depth, Times(at, depth), 3);
  }
}
