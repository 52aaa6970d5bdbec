/** Who reaches what in the page tree: the processor every page that was mapped, the search none of them,
    and in a tree just laid every run. */
module Reach {
  import opened PageTypes
  import opened PageTree
  import opened PageTable

  /** Every entry on the processor's way to the address is present. */
  ghost predicate Reached(t: seq<Entry>, vm: nat)
    requires |t| == TREE && vm < VIRTUAL_END
  {
    forall d | 0 <= d <= Landing(t, vm, 3) :: Index(d, vm) < TREE && t[Index(d, vm)].present
  }

  /** A walk marks the one entry of each level that the address lies under, and changes nothing else. */
  lemma WalkMarksPath(t: seq<Entry>, vm: nat, limit: nat, k: nat)
    requires |t| == TREE && vm < VIRTUAL_END && limit <= 3 && k < TREE
    ensures Touched(t, vm, limit + 1)[k]
            == if DepthOf(k) <= limit && k == Index(DepthOf(k), vm) then t[k].(taken := true) else t[k]
  {
    IndexBound(0, vm);
    IndexBound(1, vm);
    IndexBound(2, vm);
    IndexBound(3, vm);
  }

  lemma InRunIs(t: seq<Entry>, depth: nat, at: nat, n: nat, vm: nat)
    requires |t| == TREE && 1 <= depth <= 3 && RunMapped(t, depth, at, n)
    requires Times(at, depth) <= vm < Times(at, depth) + Times(n, depth)
    ensures vm < VIRTUAL_END && at <= Quot(vm, depth) < at + n
    ensures Index(depth, vm) < TREE && ClearAbove(t, depth, vm) && Landing(t, vm, 3) == depth
    ensures forall d | 0 <= d < depth :: Quot(vm, d) == Quot(Times(at, depth), d)
  {
    var a := vm - Times(at, depth);
    ShiftedIndex(depth, at, n, a);
    ClearStays(t, t, depth, Times(at, depth), vm);
    IndexBound(depth, vm);
    LandingIs(t, depth, vm, 3);
  }

  /** The processor reaches every address of a run that was mapped. */
  lemma MappedIsReached(t: seq<Entry>, depth: nat, at: nat, n: nat, vm: nat)
    requires Wellformed(t) && 1 <= depth <= 3 && RunMapped(t, depth, at, n)
    requires Times(at, depth) <= vm < Times(at, depth) + Times(n, depth)
    ensures vm < VIRTUAL_END && Reached(t, vm)
  {
    InRunIs(t, depth, at, n, vm);
    forall d | 0 <= d <= depth ensures Index(d, vm) < TREE && t[Index(d, vm)].present {
      IndexBound(d, vm);
      if d < depth {
        assert Index(d, vm) < LEVEL3 && !t[Index(d, vm)].large;
      }
    }
  }

  /** Everything above a taken entry is taken. */
  lemma {:induction false} TakenAbove(t: seq<Entry>, depth: nat, vm: nat, d: nat)
    requires Wellformed(t) && d <= depth <= 3 && vm < VIRTUAL_END
    requires Index(depth, vm) < TREE && t[Index(depth, vm)].taken
    ensures Index(d, vm) < TREE && t[Index(d, vm)].taken
    decreases depth - d
  {
    if d < depth {
      Descend(depth - 1, vm);
      TakenAbove(t, depth - 1, vm, d);
    }
  }

  lemma TakenIsNotFetched(t: seq<Entry>, depth: nat, d: nat, i: nat, m: nat, vm: nat)
    requires Wellformed(t) && 1 <= d <= depth <= 3 && Times(i, d) <= vm < Times(i, d) + Times(m, d)
    requires vm < VIRTUAL_END && Index(depth, vm) < TREE && t[Index(depth, vm)].taken
    ensures !FreeAt(t, d, i, m)
  {
    TakenAbove(t, depth, vm, d);
    if FreeAt(t, d, i, m) {
      ShiftedIndex(d, i, m, vm - Times(i, d));
    }
  }

  lemma BelowLargeIsNotFetched(t: seq<Entry>, depth: nat, d: nat, i: nat, m: nat, vm: nat)
    requires |t| == TREE && 1 <= depth < d <= 3 && Times(i, d) <= vm < Times(i, d) + Times(m, d)
    requires vm < VIRTUAL_END && Index(depth, vm) < TREE && t[Index(depth, vm)].large
    ensures !FreeAt(t, d, i, m)
  {
    if FreeAt(t, d, i, m) {
      ShiftedIndex(d, i, m, vm - Times(i, d));
    }
  }

  /** No search, at any level, answers a run that shares an address with one that is mapped. */
  lemma MappedIsNotFetched(t: seq<Entry>, depth: nat, at: nat, n: nat, d: nat, i: nat, m: nat, vm: nat)
    requires Wellformed(t) && 1 <= depth <= 3 && RunMapped(t, depth, at, n)
    requires Times(at, depth) <= vm < Times(at, depth) + Times(n, depth)
    requires 1 <= d <= 3 && Times(i, d) <= vm < Times(i, d) + Times(m, d)
    ensures !FreeAt(t, d, i, m)
  {
    InRunIs(t, depth, at, n, vm);
    if d <= depth {
      TakenIsNotFetched(t, depth, d, i, m, vm);
    } else {
      BelowLargeIsNotFetched(t, depth, d, i, m, vm);
    }
  }

  // ----- a tree just laid -----

  ghost predicate Laid(t: seq<Entry>) {
    |t| == TREE && forall k | 0 <= k < TREE :: t[k] == DefaultEntry(k)
  }

  /** It is well formed, every run within one directory is free, and the processor walks all of it. */
  lemma LaidIsFree(t: seq<Entry>, depth: nat, at: nat, n: nat)
    requires Laid(t) && 1 <= depth <= 3 && at < LevelLength(depth) && at % 512 + n <= 512
    ensures Wellformed(t) && FreeAt(t, depth, at, n)
  {
    LaidIsWellformed(t);
    PositionOfVm(depth, at);
    var vm := Times(at, depth);
    IndexBound(0, vm);
    IndexBound(1, vm);
    IndexBound(2, vm);
    RunEnd(depth, at, n);
  }

  lemma LaidIsWellformed(t: seq<Entry>)
    requires Laid(t)
    ensures Wellformed(t)
  {
  }

  lemma LaidIsReached(t: seq<Entry>, vm: nat)
    requires Laid(t) && vm < VIRTUAL_END
    ensures Reached(t, vm) && Landing(t, vm, 3) == 3
  {
    forall d: nat | d <= 3 ensures Index(d, vm) < TREE && !t[Index(d, vm)].large {
      IndexBound(d, vm);
    }
    LandingIs(t, 3, vm, 3);
  }
}
