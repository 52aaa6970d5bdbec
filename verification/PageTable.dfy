/** The methods of `Kingmem` that change a process' page tree, on the array it lies in. */
module PageTable {
  import opened PageTypes
  import opened PageTree

  predicate OnPath(j: int, vm: nat, n: nat) {
    (n > 0 && j == Index(0, vm)) || (n > 1 && j == Index(1, vm)) || (n > 2 && j == Index(2, vm))
        || (n > 3 && j == Index(3, vm))
  }

  /** The first n entries on the way to vm marked as taken. */
  ghost function Touched(t: seq<Entry>, vm: nat, n: nat): (r: seq<Entry>)
    ensures |r| == |t|
  {
    seq(|t|, j requires 0 <= j < |t| => if OnPath(j, vm, n) then t[j].(taken := true) else t[j])
  }

  class ProcessTree {
    const tree: array<Entry>

    constructor ()
      ensures fresh(tree) && tree.Length == TREE
      ensures forall k | 0 <= k < TREE :: tree[k] == DefaultEntry(k)
    {
      var blank := Entry(false, false, false, false, Segfault, 0);
      tree := new Entry[TREE](_ => blank);
      new;
      Lay(512);
    }

    /** `vmtree_lay`. The source's second loop ends `expectedUsage` entries short of the top level. */
    method Lay(expectedUsage: nat)
      requires tree.Length == TREE && expectedUsage <= 512
      modifies tree
      ensures forall k | 0 <= k < TREE :: tree[k] == DefaultEntry(k)
    {
      var location, length := 0, 512;
      var next := location + length;
      var i := 0;
      while i < expectedUsage
        invariant 0 <= i <= expectedUsage
        invariant forall k | 0 <= k < i :: tree[k] == DefaultEntry(k)
      {
        tree[i] := Entry(true, false, false, false, Segfault, next + i * 512);
        i := i + 1;
      }
      while i < 512
        invariant expectedUsage <= i <= 512
        invariant forall k | 0 <= k < i :: tree[k] == DefaultEntry(k)
      {
        tree[i] := Entry(true, false, false, false, Segfault, next + i * 512);
        i := i + 1;
      }
      var g := 1;
      while g <= 3
        invariant 1 <= g <= 4
        invariant g <= 3 ==> next == LevelBase(g) && 512 * length == LevelLength(g)
        invariant forall k | 0 <= k < if g <= 3 then LevelBase(g) else TREE :: tree[k] == DefaultEntry(k)
      {
        location, length := next, 512 * length;
        next := location + length;
        i := 0;
        while i < length
          invariant 0 <= i <= length
          invariant forall k | 0 <= k < location + i :: tree[k] == DefaultEntry(k)
        {
          tree[location + i] := Entry(true, false, false, false, Segfault, if g != 3 then next + i * 512 else 0);
          i := i + 1;
        }
        g := g + 1;
      }
    }

    /** `vmto_entry`: walk down to the entry of vm, marking every entry on the way as taken. The limit
        is the page type the caller passes in, the depth what it gets back. */
    method VmtoEntry(vm: nat, limit: nat) returns (k: nat, depth: nat)
      requires Linked(tree[..]) && vm < VIRTUAL_END && limit <= 3
      modifies tree
      ensures depth == Landing(old(tree[..]), vm, limit) && k == Index(depth, vm) < TREE
      ensures tree[..] == Touched(old(tree[..]), vm, depth + 1)
    {
      ghost var t := tree[..];
      depth, k := 0, Quot(vm, 0);
      LandingIs(t, 0, vm, limit);
      while depth < limit && !tree[k].large
        invariant depth <= limit && k == Index(depth, vm) && k < TREE
        invariant ClearAbove(t, depth, vm)
        invariant tree[..] == Touched(t, vm, depth)
      {
        Descend(depth, vm);
        TouchStep(t, vm, depth);
        var child := tree[k].frame + Quot(vm, depth + 1) % 512;
        tree[k] := tree[k].(taken := true);
        k, depth := child, depth + 1;
      }
      TouchStep(t, vm, depth);
      LandingIs(t, depth, vm, limit);
      tree[k] := tree[k].(taken := true);
    }

    /** The inner loop of `vmtree_fetch`: n unused entries without crossing a directory boundary. The
        source looks n times at the first entry only, and leaves where that one starts a directory. */
    method RunIsFree(n: nat, depth: nat, at: nat) returns (ok: bool)
      requires tree.Length == TREE && 1 <= depth <= 3 && at < LevelLength(depth)
      ensures ok <==> (at % 512 + n <= 512 &&
                       forall k | LevelBase(depth) + at <= k < LevelBase(depth) + at + n
                           && k < TREE :: tree[k].present && !tree[k].taken)
    {
      var first := LevelBase(depth) + at;
      var j := 0;
      while j < n
        invariant 0 <= j <= n && at % 512 + j <= 512
        invariant forall k | first <= k < first + j && k < TREE :: tree[k].present && !tree[k].taken
      {
        if j > 0 && (at + j) % 512 == 0 {
          return false;
        }
        if !tree[first + j].present || tree[first + j].taken {
          return false;
        }
        j := j + 1;
      }
      ok := true;
    }

    /** One turn of the outer loop: the run check, then the walk that checks the directories above. */
    method TryRun(ghost t: seq<Entry>, n: nat, depth: nat, at: nat) returns (found: bool)
      requires Wellformed(tree[..]) && 1 <= depth <= 3 && at < LevelLength(depth)
               && OnlyMarked(t, tree[..], LevelBase(depth))
      modifies tree
      ensures Wellformed(tree[..]) && OnlyMarked(t, tree[..], TREE)
      ensures found <==> FreeAt(t, depth, at, n)
      ensures !found ==> OnlyMarked(t, tree[..], LevelBase(depth))
      ensures forall k | LevelBase(depth) <= k < TREE && k != LevelBase(depth) + at :: tree[k] == t[k]
    {
      ghost var before := tree[..];
      found := RunIsFree(n, depth, at);
      FreeAtMarked(t, before, depth, at, n);
      if found {
        var vm := Times(at, depth);
        PositionOfVm(depth, at);
        var k, landed := VmtoEntry(vm, depth);
        AfterWalk(t, before, depth, at, vm, landed);
        TouchedWellformed(before, vm, depth);
        found := k == LevelBase(depth) + at;
      }
    }

    /** `vmtree_fetch`: the first address of the level whose run of n entries is unused, in one
        directory, and under no large page. None exactly when there is no such run. */
    method VmtreeFetch(n: nat, depth: nat) returns (r: Option<nat>)
      requires Wellformed(tree[..]) && 1 <= depth <= 3
      modifies tree
      ensures Wellformed(tree[..])
      ensures r.None? ==> forall at: nat :: !FreeAt(old(tree[..]), depth, at, n)
      ensures r.Some? ==> Rem(r.value, depth) == 0 && FreeAt(old(tree[..]), depth, Quot(r.value, depth), n)
      ensures r.Some? ==> forall at: nat | at < Quot(r.value, depth) :: !FreeAt(old(tree[..]), depth, at, n)
      ensures OnlyMarked(old(tree[..]), tree[..], TREE)
      ensures forall k | LevelBase(depth) <= k < TREE ::
                tree[k] == old(tree[k]) || (r.Some? && k == Index(depth, r.value))
    {
      ghost var t := tree[..];
      var at := 0;
      while at < LevelLength(depth)
        invariant 0 <= at <= LevelLength(depth)
        invariant Wellformed(tree[..]) && OnlyMarked(t, tree[..], LevelBase(depth))
        invariant forall i: nat | i < at :: !FreeAt(t, depth, i, n)
      {
        var found := TryRun(t, n, depth, at);
        if found {
          PositionOfVm(depth, at);
          return Some(Times(at, depth));
        }
        at := at + 1;
      }
      r := None;
    }

    /** The writing loop of `mem_map`. */
    method WriteRun(off: nat, depth: nat, ghost at: nat, n: nat, target: nat)
      requires tree.Length == TREE && 1 <= depth <= 3 && off == LevelBase(depth) + at && off + n <= TREE
      modifies tree
      ensures tree[..] == Mapped(old(tree[..]), depth, at, n, target)
    {
      var h := 0;
      while h < n
        invariant 0 <= h <= n
        invariant tree[..] == Mapped(old(tree[..]), depth, at, h, target)
      {
        tree[off + h] := Entry(true, false, depth < 3, true, Map, target + Times(h, depth));
        MappedStep(old(tree[..]), depth, at, h, target);
        h := h + 1;
      }
    }

    /** The second half of `mem_map`: walk to the run that was fetched and write its entries. */
    method MapAt(ghost t: seq<Entry>, target: nat, n: nat, depth: nat, start: nat, ghost at: nat)
      requires Wellformed(t) && Wellformed(tree[..]) && 1 <= depth <= 3 && start == Times(at, depth)
      requires OnlyMarked(t, tree[..], TREE) && FreeAt(t, depth, at, n)
      requires forall k | LevelBase(depth) <= k < TREE :: tree[k] == t[k] || k == LevelBase(depth) + at
      modifies tree
      ensures Wellformed(tree[..]) && MapDone(t, tree[..], depth, n, target, start)
    {
      ghost var walked := Touched(tree[..], start, depth + 1);
      ghost var mapped := Mapped(walked, depth, at, n, target);
      MapProof(t, tree[..], depth, at, n, target, start);
      var off, _ := VmtoEntry(start, depth);
      assert tree[..] == walked;
      WriteRun(off, depth, at, n, target);
      assert tree[..] == mapped;
    }

    /** `mem_map`: find a run and point its pages at consecutive physical pages from `target`. Every
        address of the run translates into them, every other one as before, and taking the run's
        entries back would leave nothing behind but marks on its directories. */
    method MemMap(target: nat, n: nat, depth: nat) returns (r: Option<nat>)
      requires Wellformed(tree[..]) && 1 <= depth <= 3
      modifies tree
      ensures Wellformed(tree[..])
      ensures r.None? <==> forall at: nat :: !FreeAt(old(tree[..]), depth, at, n)
      ensures r.Some? ==> FreeAt(old(tree[..]), depth, Quot(r.value, depth), n)
      ensures r.None? ==> OnlyMarked(old(tree[..]), tree[..], TREE)
      ensures r.Some? ==> MapDone(old(tree[..]), tree[..], depth, n, target, r.value)
    {
      ghost var t := tree[..];
      r := VmtreeFetch(n, depth);
      if r.Some? {
        DivMod(r.value, depth);
        PositionOfVm(depth, Quot(r.value, depth));
        MapAt(t, target, n, depth, r.value, Quot(r.value, depth));
      }
    }

    /** `mem_unmap`: all n entries must be user mappings; then they go back to default. The source's
        template would leave them reserved and, above the last level, without their table. */
    method MemUnmap(vm: nat, n: nat, limit: nat) returns (code: nat)
      requires Wellformed(tree[..]) && vm < VIRTUAL_END && limit <= 3
      modifies tree
      ensures Wellformed(tree[..])
      ensures code == 0 <==> Mappings(old(tree[..]), Index(Landing(old(tree[..]), vm, limit), vm), n)
      ensures tree[..] == AfterUnmap(old(tree[..]), vm, n, limit)
      ensures code != 0 ==> SameElsewhere(old(tree[..]), tree[..], 0, 0)
    {
      ghost var t := tree[..];
      var off, depth := VmtoEntry(vm, limit);
      ghost var at, walked := Quot(vm, depth), tree[..];
      TouchedWellformed(t, vm, limit);
      TouchMarks(t, vm, depth + 1);
      MarksTranslate(t, walked);
      code := CheckRun(off, n);
      MarkedMappings(t, walked, off, n);
      if code == 0 {
        WipeRun(off, depth, at, n);
        UnmapKeepsForm(walked, depth, at, n);
      }
    }

    /** The check loop of `mem_unmap`: 1 for a supervisor page, 2 for one that is not mapped. A run may
        leave its level; one that leaves the tree, which the source would read past, is refused. */
    method CheckRun(off: nat, n: nat) returns (code: nat)
      requires off <= tree.Length
      ensures code == 0 <==> Mappings(tree[..], off, n)
    {
      var h := 0;
      while h < n
        invariant 0 <= h <= n && Mappings(tree[..], off, h)
      {
        if off + h >= tree.Length {
          return 2;
        }
        if tree[off + h].supervisor {
          return 1;
        }
        if tree[off + h].mode != Map {
          return 2;
        }
        h := h + 1;
      }
      code := 0;
    }

    method WipeRun(off: nat, depth: nat, ghost at: nat, n: nat)
      requires tree.Length == TREE && depth <= 3 && off == LevelBase(depth) + at && off + n <= TREE
      modifies tree
      ensures tree[..] == Unmapped(old(tree[..]), depth, at, n)
    {
      var h := 0;
      while h < n
        invariant 0 <= h <= n
        invariant tree[..] == Unmapped(old(tree[..]), depth, at, h)
      {
        tree[off + h] := DefaultEntry(off + h);
        h := h + 1;
      }
    }

    /** Unmapping what mem_map has just mapped succeeds and leaves only marks. */
    method TakeBack(ghost t: seq<Entry>, start: nat, n: nat, depth: nat, ghost target: nat)
      requires Wellformed(t) && Wellformed(tree[..]) && 1 <= depth <= 3 && Quot(start, depth) < LevelLength(depth)
      requires MapDone(t, tree[..], depth, n, target, start)
      modifies tree
      ensures Wellformed(tree[..]) && OnlyMarked(t, tree[..], TREE) && SameElsewhere(t, tree[..], 0, 0)
      ensures FreeAt(tree[..], depth, Quot(start, depth), n)
    {
      LendProof(t, tree[..], depth, n, target, start);
      ghost var mapped := tree[..];
      var code := MemUnmap(start, n, depth);
      LendLands(t, mapped, depth, n, target, start);
      DivMod(start, depth);
      UnmappedIsFree(mapped, depth, Quot(start, depth), n, start);
    }

    /** The way a disk request lends its buffer to a driver: map, use, unmap. Nothing of it stays but
        marks; every translation is what it was before, and the same run can be found again. */
    method Lend(target: nat, n: nat, depth: nat) returns (r: Option<nat>)
      requires Wellformed(tree[..]) && 1 <= depth <= 3
      modifies tree
      ensures Wellformed(tree[..]) && OnlyMarked(old(tree[..]), tree[..], TREE)
      ensures SameElsewhere(old(tree[..]), tree[..], 0, 0)
      ensures r.Some? ==> FreeAt(tree[..], depth, Quot(r.value, depth), n)
    {
      ghost var t := tree[..];
      r := MemMap(target, n, depth);
      if r.Some? {
        TakeBack(t, r.value, n, depth, target);
      } else {
        MarksTranslate(t, tree[..]);
      }
    }
  }

  /** What mem_unmap leaves: the walk's marks, and the run at its default if all of it was mapped. */
  ghost function AfterUnmap(t: seq<Entry>, vm: nat, n: nat, limit: nat): (r: seq<Entry>)
    requires |t| == TREE && vm < VIRTUAL_END && limit <= 3
    ensures |r| == TREE
  {
    var depth := Landing(t, vm, limit);
    var walked := Touched(t, vm, depth + 1);
    if Mappings(t, Index(depth, vm), n) then Unmapped(walked, depth, Quot(vm, depth), n) else walked
  }

  /** n entries from off that userspace may unmap. */
  ghost predicate Mappings(t: seq<Entry>, off: nat, n: nat) {
    off + n <= |t| && forall k | off <= k < off + n :: !t[k].supervisor && t[k].mode == Map
  }

  lemma MarksTranslate(t: seq<Entry>, t': seq<Entry>)
    requires |t| == TREE && OnlyMarked(t, t', TREE)
    ensures SameElsewhere(t, t', 0, 0)
  {
    forall x: nat | x < VIRTUAL_END ensures VmToPhys(t', x) == VmToPhys(t, x) {
      MarkingKeepsTranslations(t, t', TREE, x);
    }
  }

  lemma MarkedMappings(t: seq<Entry>, t': seq<Entry>, off: nat, n: nat)
    requires OnlyMarked(t, t', TREE)
    ensures Mappings(t, off, n) <==> Mappings(t', off, n)
  {
  }

  lemma UnmapKeepsForm(t: seq<Entry>, depth: nat, at: nat, n: nat)
    requires Wellformed(t) && depth <= 3 && Mappings(t, LevelBase(depth) + at, n)
    ensures Wellformed(Unmapped(t, depth, at, n))
  {
    var u := Unmapped(t, depth, at, n);
    forall k | 512 <= k < TREE ensures (u[k].taken ==> u[Parent(k)].taken) && (u[Parent(k)].large ==> !u[k].taken) {
      var p := Parent(k);
      if LevelBase(depth) + at <= p < LevelBase(depth) + at + n {
        assert p < LEVEL3 && t[p].large && !t[k].taken;
      }
    }
  }

  lemma RunLanding(t: seq<Entry>, mapped: seq<Entry>, depth: nat, n: nat, target: nat, start: nat)
    requires MapDone(t, mapped, depth, n, target, start) && 1 <= depth <= 3 && start < VIRTUAL_END
    ensures Landing(mapped, start, depth) == depth && Mappings(mapped, Index(depth, start), n)
    ensures Quot(start, depth) + n <= LevelLength(depth)
  {
    DivMod(start, depth);
    LandingIs(mapped, depth, start, depth);
    BytesFit(depth, Quot(start, depth), n);
  }

  lemma StartOfRun(depth: nat, start: nat)
    requires 1 <= depth <= 3 && Rem(start, depth) == 0
    requires Quot(start, depth) < LevelLength(depth)
    ensures start < VIRTUAL_END
  {
    DivMod(start, depth);
    PositionOfVm(depth, Quot(start, depth));
  }

  lemma BytesFit(depth: nat, at: nat, n: nat)
    requires 1 <= depth <= 3 && Times(at, depth) + Times(n, depth) <= VIRTUAL_END
    ensures at + n <= LevelLength(depth)
  {
  }

  /** What mem_unmap does to a run that mem_map has just made: it succeeds and leaves only marks. */
  lemma LendProof(t: seq<Entry>, mapped: seq<Entry>, depth: nat, n: nat, target: nat, start: nat)
    requires Wellformed(t) && MapDone(t, mapped, depth, n, target, start) && 1 <= depth <= 3
    requires Quot(start, depth) < LevelLength(depth)
    ensures start < VIRTUAL_END && Landing(mapped, start, depth) == depth && Mappings(mapped, Index(depth, start), n)
    ensures OnlyMarked(t, AfterUnmap(mapped, start, n, depth), TREE)
    ensures SameElsewhere(t, AfterUnmap(mapped, start, n, depth), 0, 0)
  {
    LendLands(t, mapped, depth, n, target, start);
    UnmapUndoes(t, mapped, depth, n, target, start);
    MarksTranslate(t, AfterUnmap(mapped, start, n, depth));
  }

  lemma LendLands(t: seq<Entry>, mapped: seq<Entry>, depth: nat, n: nat, target: nat, start: nat)
    requires MapDone(t, mapped, depth, n, target, start) && 1 <= depth <= 3 && Quot(start, depth) < LevelLength(depth)
    ensures start < VIRTUAL_END && Landing(mapped, start, depth) == depth && Mappings(mapped, Index(depth, start), n)
    ensures AfterUnmap(mapped, start, n, depth)
            == Unmapped(Touched(mapped, start, depth + 1), depth, Quot(start, depth), n)
  {
    StartOfRun(depth, start);
    RunLanding(t, mapped, depth, n, target, start);
  }

  /** The run that was mapped is free again. */
  lemma UnmappedIsFree(mapped: seq<Entry>, depth: nat, at: nat, n: nat, start: nat)
    requires |mapped| == TREE && 1 <= depth <= 3 && RunMapped(mapped, depth, at, n) && start == Times(at, depth)
    ensures FreeAt(Unmapped(Touched(mapped, start, depth + 1), depth, at, n), depth, at, n)
  {
    var walked := Touched(mapped, start, depth + 1);
    var u := Unmapped(walked, depth, at, n);
    PositionOfVm(depth, at);
    assert forall k | 0 <= k < LevelBase(depth) :: u[k] == walked[k] && walked[k].large == mapped[k].large;
    ClearStays(mapped, u, depth, start, start);
    forall k | LevelBase(depth) + at <= k < LevelBase(depth) + at + n && k < TREE
      ensures u[k].present && !u[k].taken
    {
      assert u[k] == DefaultEntry(k);
    }
  }

  lemma UnmapUndoes(t: seq<Entry>, mapped: seq<Entry>, depth: nat, n: nat, target: nat, start: nat)
    requires MapDone(t, mapped, depth, n, target, start) && 1 <= depth <= 3
    ensures OnlyMarked(t, Unmapped(Touched(mapped, start, depth + 1), depth, Quot(start, depth), n), TREE)
  {
    MarkedTwice(t, Unmapped(mapped, depth, Quot(start, depth), n),
                Unmapped(Touched(mapped, start, depth + 1), depth, Quot(start, depth), n));
  }

  lemma MappedStep(t: seq<Entry>, depth: nat, at: nat, h: nat, target: nat)
    requires LevelBase(depth) + at + h < |t|
    ensures Mapped(t, depth, at, h + 1, target)
         == Mapped(t, depth, at, h, target)[LevelBase(depth) + at + h := MapEntry(depth, target, h)]
  {
  }

  /** What a successful `mem_map` at `start` means. */
  ghost predicate MapDone(t: seq<Entry>, t': seq<Entry>, depth: nat, n: nat, target: nat, start: nat) {
    && |t| == TREE == |t'| && Rem(start, depth) == 0
    && TranslatesTo(t', start, Times(n, depth), target)
    && SameElsewhere(t, t', start, Times(n, depth))
    && RunMapped(t', depth, Quot(start, depth), n)
    && OnlyMarked(t, Unmapped(t', depth, Quot(start, depth), n), TREE)
  }

  /** Every entry of the run is there for the processor and for userspace, and in use. */
  ghost predicate RunMapped(t: seq<Entry>, depth: nat, at: nat, n: nat) {
    && ClearAbove(t, depth, Times(at, depth)) && LevelBase(depth) + at + n <= |t|
    && at < LevelLength(depth) && at % 512 + n <= 512
    && forall k | LevelBase(depth) + at <= k < LevelBase(depth) + at + n ::
         t[k].present && t[k].taken && t[k].mode == Map && !t[k].supervisor && (t[k].large <==> depth < 3)
  }

  lemma MapProof(t: seq<Entry>, fetched: seq<Entry>, depth: nat, at: nat, n: nat, target: nat, start: nat)
    requires Wellformed(t) && Wellformed(fetched) && 1 <= depth <= 3 && start == Times(at, depth)
    requires OnlyMarked(t, fetched, TREE) && FreeAt(t, depth, at, n)
    requires forall k | LevelBase(depth) <= k < TREE :: fetched[k] == t[k] || k == LevelBase(depth) + at
    ensures start < VIRTUAL_END && Landing(fetched, start, depth) == depth
    ensures Index(depth, start) == LevelBase(depth) + at && LevelBase(depth) + at + n <= TREE
    ensures var m := Mapped(Touched(fetched, start, depth + 1), depth, at, n, target);
            Wellformed(m) && MapDone(t, m, depth, n, target, start)
  {
    AfterFetch(t, fetched, depth, at, n, start);
    FetchedReady(t, fetched, depth, at, n, start);
    RunEnd(depth, at, n);
    AfterMap(t, Touched(fetched, start, depth + 1), depth, at, n, target, start);
  }

  lemma AfterMap(t: seq<Entry>, walked: seq<Entry>, depth: nat, at: nat, n: nat, target: nat, start: nat)
    requires ReadyToMap(t, walked, depth, at, n) && start == Times(at, depth)
    ensures Wellformed(Mapped(walked, depth, at, n, target))
    ensures MapDone(t, Mapped(walked, depth, at, n, target), depth, n, target, start)
  {
    PositionOfVm(depth, at);
    MapKeepsForm(t, walked, depth, at, n, target);
    MapReaches(t, walked, depth, at, n, target);
    MapLeaves(t, walked, depth, at, n, target);
    MapUndone(t, walked, depth, at, n, target);
    ClearMarked(t, walked, depth, start);
    MapClear(walked, depth, at, n, target, start);
  }

  lemma MapClear(walked: seq<Entry>, depth: nat, at: nat, n: nat, target: nat, start: nat)
    requires |walked| == TREE && 1 <= depth <= 3 && at < LevelLength(depth) && at % 512 + n <= 512
    requires start == Times(at, depth) && ClearAbove(walked, depth, start)
    ensures RunMapped(Mapped(walked, depth, at, n, target), depth, at, n)
  {
    var m := Mapped(walked, depth, at, n, target);
    PositionOfVm(depth, at);
    RunEnd(depth, at, n);
    assert forall k | 0 <= k < LevelBase(depth) :: m[k] == walked[k];
    ClearStays(walked, m, depth, start, start);
    forall k | LevelBase(depth) + at <= k < LevelBase(depth) + at + n
      ensures m[k] == MapEntry(depth, target, k - LevelBase(depth) - at)
    {
    }
  }

  lemma TouchStep(t: seq<Entry>, vm: nat, depth: nat)
    requires depth <= 3 && Index(depth, vm) < |t|
    ensures var k := Index(depth, vm);
            && Touched(t, vm, depth)[k].large == t[k].large && Touched(t, vm, depth)[k].frame == t[k].frame
            && Touched(t, vm, depth + 1) == Touched(t, vm, depth)[k := Touched(t, vm, depth)[k].(taken := true)]
  {
  }

  /** The walk after a fetch lands on the run's first entry and marks no other entry of its level. */
  lemma AfterFetch(t: seq<Entry>, fetched: seq<Entry>, depth: nat, at: nat, n: nat, vm: nat)
    requires |t| == TREE && 1 <= depth <= 3 && OnlyMarked(t, fetched, TREE) && FreeAt(t, depth, at, n)
    requires vm == Times(at, depth)
    ensures vm < VIRTUAL_END && Landing(fetched, vm, depth) == depth && Index(depth, vm) == LevelBase(depth) + at
    ensures ClearAbove(fetched, depth, vm)
  {
    PositionOfVm(depth, at);
    ClearMarked(t, fetched, depth, vm);
    LandingIs(fetched, depth, vm, depth);
  }

  lemma FetchedReady(t: seq<Entry>, fetched: seq<Entry>, depth: nat, at: nat, n: nat, vm: nat)
    requires Wellformed(t) && Wellformed(fetched) && 1 <= depth <= 3
    requires OnlyMarked(t, fetched, TREE) && FreeAt(t, depth, at, n)
    requires forall k | LevelBase(depth) <= k < TREE :: fetched[k] == t[k] || k == LevelBase(depth) + at
    requires vm < VIRTUAL_END && Landing(fetched, vm, depth) == depth && Index(depth, vm) == LevelBase(depth) + at
    requires ClearAbove(fetched, depth, vm)
    ensures ReadyToMap(t, Touched(fetched, vm, depth + 1), depth, at, n)
  {
    WalkMarks(fetched, depth, at, vm);
    WalkedForm(t, fetched, depth, vm);
    Ready(t, fetched, Touched(fetched, vm, depth + 1), depth, at, n);
  }

  lemma WalkedForm(t: seq<Entry>, fetched: seq<Entry>, depth: nat, vm: nat)
    requires Wellformed(fetched) && OnlyMarked(t, fetched, TREE) && depth <= 3
    requires vm < VIRTUAL_END && Landing(fetched, vm, depth) == depth
    ensures Wellformed(Touched(fetched, vm, depth + 1)) && OnlyMarked(t, Touched(fetched, vm, depth + 1), TREE)
  {
    TouchedWellformed(fetched, vm, depth);
    TouchMarks(fetched, vm, depth + 1);
    MarkedTwice(t, fetched, Touched(fetched, vm, depth + 1));
  }

  lemma Ready(t: seq<Entry>, fetched: seq<Entry>, walked: seq<Entry>, depth: nat, at: nat, n: nat)
    requires Wellformed(t) && Wellformed(walked) && 1 <= depth <= 3 && |fetched| == TREE
    requires OnlyMarked(t, walked, TREE) && FreeAt(t, depth, at, n) && FatherTaken(walked, depth, at)
    requires forall k | LevelBase(depth) <= k < TREE :: fetched[k] == t[k] || k == LevelBase(depth) + at
    requires forall k | LevelBase(depth) <= k < TREE && k != LevelBase(depth) + at :: walked[k] == fetched[k]
    ensures ReadyToMap(t, walked, depth, at, n)
  {
  }

  lemma TouchMarks(t: seq<Entry>, vm: nat, n: nat)
    ensures OnlyMarked(t, Touched(t, vm, n), |t|)
  {
  }

  lemma MarkedTwice(t: seq<Entry>, t': seq<Entry>, t'': seq<Entry>)
    requires OnlyMarked(t, t', TREE) && OnlyMarked(t', t'', TREE)
    ensures OnlyMarked(t, t'', TREE)
  {
  }

  lemma ClearMarked(t: seq<Entry>, t': seq<Entry>, depth: nat, vm: nat)
    requires OnlyMarked(t, t', TREE) && ClearAbove(t, depth, vm)
    ensures ClearAbove(t', depth, vm)
  {
  }

  lemma WalkMarks(t: seq<Entry>, depth: nat, at: nat, vm: nat)
    requires Linked(t) && 1 <= depth <= 3 && at < LevelLength(depth) && vm < VIRTUAL_END
    requires Index(depth, vm) == LevelBase(depth) + at && ClearAbove(t, depth, vm)
    ensures FatherTaken(Touched(t, vm, depth + 1), depth, at)
    ensures forall k | LevelBase(depth) <= k < TREE
            && k != LevelBase(depth) + at :: Touched(t, vm, depth + 1)[k] == t[k]
  {
    Descend(depth - 1, vm);
    PathAbove(vm, depth + 1, depth);
    assert OnPath(Index(depth - 1, vm), vm, depth + 1);
    assert !t[Index(depth - 1, vm)].large;
  }

  /** The directory the at-th entry of the level lies in is taken and no large page. */
  ghost predicate FatherTaken(t: seq<Entry>, depth: nat, at: nat)
    requires |t| == TREE && 1 <= depth <= 3 && at < LevelLength(depth)
  {
    t[Parent(LevelBase(depth) + at)].taken && !t[Parent(LevelBase(depth) + at)].large
  }

  /** The n pages from start translate to the physical pages from target. */
  ghost predicate TranslatesTo(t: seq<Entry>, start: nat, bytes: nat, target: nat)
    requires |t| == TREE
  {
    start + bytes <= VIRTUAL_END &&
    forall vm: nat | start <= vm < start + bytes :: VmToPhys(t, vm) == target + (vm - start)
  }

  ghost predicate SameElsewhere(t: seq<Entry>, t': seq<Entry>, start: nat, bytes: nat)
    requires |t| == TREE == |t'|
  {
    forall vm: nat | vm < VIRTUAL_END && !(start <= vm < start + bytes) :: VmToPhys(t', vm) == VmToPhys(t, vm)
  }

  /** `walked` is what fetch and walk left of t before the entries of the run are written. */
  ghost predicate ReadyToMap(t: seq<Entry>, walked: seq<Entry>, depth: nat, at: nat, n: nat) {
    && Wellformed(t) && Wellformed(walked) && 1 <= depth <= 3 && at < LevelLength(depth)
    && OnlyMarked(t, walked, TREE) && FreeAt(t, depth, at, n)
    && (forall k | LevelBase(depth) <= k < TREE :: walked[k] == t[k] || k == LevelBase(depth) + at)
    && FatherTaken(walked, depth, at)
  }

  lemma MapKeepsForm(t: seq<Entry>, walked: seq<Entry>, depth: nat, at: nat, n: nat, target: nat)
    requires ReadyToMap(t, walked, depth, at, n)
    ensures Wellformed(Mapped(walked, depth, at, n, target))
  {
    var m := Mapped(walked, depth, at, n, target);
    forall k | 512 <= k < TREE ensures (m[k].taken ==> m[Parent(k)].taken) && (m[Parent(k)].large ==> !m[k].taken) {
      MapKeepsFormAt(t, walked, depth, at, n, target, k);
    }
    WrittenEntries(walked, depth, at, n, target);
  }

  lemma WrittenEntries(walked: seq<Entry>, depth: nat, at: nat, n: nat, target: nat)
    requires |walked| == TREE && 1 <= depth <= 3
    ensures var m := Mapped(walked, depth, at, n, target);
            forall k | 0 <= k < TREE :: m[k] == walked[k] || (m[k].taken && (k < LEVEL3 ==> m[k].large))
  {
    var m := Mapped(walked, depth, at, n, target);
    forall k | 0 <= k < TREE ensures m[k] == walked[k] || (m[k].taken && (k < LEVEL3 ==> m[k].large)) {
      var h := k - LevelBase(depth) - at;
      if 0 <= h < n {
        assert m[k] == MapEntry(depth, target, h);
        assert depth == 3 ==> k >= LEVEL3;
      }
    }
  }

  lemma MapKeepsFormAt(t: seq<Entry>, walked: seq<Entry>, depth: nat, at: nat, n: nat, target: nat, k: nat)
    requires ReadyToMap(t, walked, depth, at, n) && 512 <= k < TREE
    ensures var m := Mapped(walked, depth, at, n, target);
            (m[k].taken ==> m[Parent(k)].taken) && (m[Parent(k)].large ==> !m[k].taken)
  {
    var m := Mapped(walked, depth, at, n, target);
    var first := LevelBase(depth) + at;
    RunParent(depth, at, n, k);
    if first <= k < first + n {
      assert m[Parent(k)] == walked[Parent(first)];
    } else if first <= Parent(k) < first + n {
      assert walked[k] == t[k] && m[k] == walked[k];
      assert !t[Parent(k)].taken;
    } else {
      assert m[k] == walked[k] && m[Parent(k)] == walked[Parent(k)];
    }
  }

  lemma RunParent(depth: nat, at: nat, n: nat, k: nat)
    requires 1 <= depth <= 3 && at < LevelLength(depth) && at % 512 + n <= 512 && 512 <= k < TREE
    ensures LevelBase(depth) + at <= k < LevelBase(depth) + at + n ==>
              Parent(k) == Parent(LevelBase(depth) + at) < LevelBase(depth)
    ensures LevelBase(depth) + at <= Parent(k) < LevelBase(depth) + at + n
            ==> k >= LevelBase(depth) + at + n && k >= LevelBase(depth) + 512
  {
  }

  lemma MapReaches(t: seq<Entry>, walked: seq<Entry>, depth: nat, at: nat, n: nat, target: nat)
    requires ReadyToMap(t, walked, depth, at, n)
    ensures TranslatesTo(Mapped(walked, depth, at, n, target), Times(at, depth), Times(n, depth), target)
  {
    var m := Mapped(walked, depth, at, n, target);
    var start, bytes := Times(at, depth), Times(n, depth);
    RunEnd(depth, at, n);
    ClearMarked(t, walked, depth, start);
    forall vm: nat | start <= vm < start + bytes ensures VmToPhys(m, vm) == target + (vm - start) {
      MappedTranslates(walked, depth, at, n, target, start, vm);
    }
  }

  lemma RunEnd(depth: nat, at: nat, n: nat)
    requires 1 <= depth <= 3 && at < LevelLength(depth) && at % 512 + n <= 512
    ensures Times(at, depth) + Times(n, depth) <= VIRTUAL_END
    ensures at + n <= LevelLength(depth)
  {
  }

  lemma MapLeaves(t: seq<Entry>, walked: seq<Entry>, depth: nat, at: nat, n: nat, target: nat)
    requires ReadyToMap(t, walked, depth, at, n)
    ensures SameElsewhere(t, Mapped(walked, depth, at, n, target), Times(at, depth), Times(n, depth))
  {
    var m := Mapped(walked, depth, at, n, target);
    RunEnd(depth, at, n);
    forall vm: nat | vm < VIRTUAL_END && !(Times(at, depth) <= vm < Times(at, depth) + Times(n, depth))
      ensures VmToPhys(m, vm) == VmToPhys(t, vm)
    {
      OutsideRun(depth, at, n, vm);
      OthersTranslate(walked, m, depth, at, n, vm);
      MarkingKeepsTranslations(t, walked, TREE, vm);
    }
  }

  lemma OutsideRun(depth: nat, at: nat, n: nat, vm: nat)
    requires 1 <= depth <= 3 && !(Times(at, depth) <= vm < Times(at, depth) + Times(n, depth))
    ensures !(at <= Quot(vm, depth) < at + n)
  {
  }

  lemma UndoneInside(t: seq<Entry>, walked: seq<Entry>, depth: nat, at: nat, n: nat, target: nat, k: nat)
    requires ReadyToMap(t, walked, depth, at, n)
    requires k < TREE && LevelBase(depth) + at <= k < LevelBase(depth) + at + n
    ensures Unmapped(Mapped(walked, depth, at, n, target), depth, at, n)[k] == t[k]
  {
    assert t[k] == DefaultEntry(k);
  }

  lemma UndoneOutside(t: seq<Entry>, walked: seq<Entry>, depth: nat, at: nat, n: nat, target: nat, k: nat)
    requires |walked| == TREE && k < TREE && !(LevelBase(depth) + at <= k < LevelBase(depth) + at + n)
    ensures Unmapped(Mapped(walked, depth, at, n, target), depth, at, n)[k] == walked[k]
  {
  }

  /** Putting the default entries back leaves t with nothing but marks added. */
  lemma MapUndone(t: seq<Entry>, walked: seq<Entry>, depth: nat, at: nat, n: nat, target: nat)
    requires ReadyToMap(t, walked, depth, at, n)
    ensures OnlyMarked(t, Unmapped(Mapped(walked, depth, at, n, target), depth, at, n), TREE)
  {
    var u := Unmapped(Mapped(walked, depth, at, n, target), depth, at, n);
    forall k | 0 <= k < TREE ensures u[k] == t[k] || u[k] == walked[k] {
      if LevelBase(depth) + at <= k < LevelBase(depth) + at + n {
        UndoneInside(t, walked, depth, at, n, target, k);
      } else {
        UndoneOutside(t, walked, depth, at, n, target, k);
      }
    }
  }

  lemma FreeAtMarked(t: seq<Entry>, t': seq<Entry>, depth: nat, at: nat, n: nat)
    requires |t| == TREE && 1 <= depth <= 3 && at < LevelLength(depth) && OnlyMarked(t, t', LevelBase(depth))
    ensures FreeAt(t, depth, at, n) <==> FreeAt(t', depth, at, n)
  {
  }

  lemma PositionOfVm(depth: nat, at: nat)
    requires 1 <= depth <= 3 && at < LevelLength(depth)
    ensures Times(at, depth) < VIRTUAL_END && Quot(Times(at, depth), depth) == at
    ensures Rem(Times(at, depth), depth) == 0 && Index(depth, Times(at, depth)) == LevelBase(depth) + at
  {
  }

  lemma PathParent(t: seq<Entry>, vm: nat, limit: nat, k: nat)
    requires |t| == TREE && vm < VIRTUAL_END && limit <= 3 && OnPath(k, vm, Landing(t, vm, limit) + 1) && k >= 512
    ensures k < TREE && OnPath(Parent(k), vm, Landing(t, vm, limit) + 1) && !t[Parent(k)].large
  {
    LandingIs(t, Landing(t, vm, limit), vm, limit);
    IndexBound(0, vm);
    Descend(0, vm);
    Descend(1, vm);
    Descend(2, vm);
  }

  /** Marking a walk keeps the tree well formed. */
  lemma TouchedWellformed(t: seq<Entry>, vm: nat, limit: nat)
    requires Wellformed(t) && vm < VIRTUAL_END && limit <= 3
    ensures Wellformed(Touched(t, vm, Landing(t, vm, limit) + 1))
  {
    var t' := Touched(t, vm, Landing(t, vm, limit) + 1);
    forall k | 512 <= k < TREE && t'[k].taken ensures t'[Parent(k)].taken && !t'[Parent(k)].large {
      if OnPath(k, vm, Landing(t, vm, limit) + 1) {
        PathParent(t, vm, limit, k);
      }
    }
  }

  /** What the walk to the at-th entry of a level leaves: nothing of that level or below is marked
      unless the walk lands on that entry, which it does exactly when no large page is above. */
  lemma AfterWalk(t: seq<Entry>, before: seq<Entry>, depth: nat, at: nat, vm: nat, landed: nat)
    requires |before| == TREE && 1 <= depth <= 3 && vm < VIRTUAL_END && OnlyMarked(t, before, LevelBase(depth))
    requires Index(depth, vm) == LevelBase(depth) + at && landed == Landing(before, vm, depth)
    ensures var after := Touched(before, vm, landed + 1);
            && OnlyMarked(t, after, TREE)
            && (Index(landed, vm) == LevelBase(depth) + at <==> ClearAbove(before, depth, vm))
            && (!ClearAbove(before, depth, vm) ==> OnlyMarked(t, after, LevelBase(depth)))
            && (forall k | LevelBase(depth) <= k < TREE && k != LevelBase(depth) + at :: after[k] == t[k])
  {
    LandingIs(before, depth, vm, depth);
    PathAbove(vm, landed + 1, depth);
    TouchMarks(before, vm, landed + 1);
  }

  lemma PathAbove(vm: nat, n: nat, depth: nat)
    requires vm < VIRTUAL_END && 1 <= n <= depth + 1 <= 4
    ensures forall k | OnPath(k, vm, n) ::
              0 <= k < TREE && (k < LevelBase(depth) || (n == depth + 1 && k == Index(depth, vm)))
    ensures n <= depth ==> Index(n - 1, vm) < LevelBase(depth)
  {
    IndexBound(0, vm);
    IndexBound(1, vm);
    IndexBound(2, vm);
    IndexBound(3, vm);
  }
}
