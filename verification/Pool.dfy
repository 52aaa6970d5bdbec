/** `Hash`: the contiguous first-fit pool allocator every kernel table rests on.

    The source counts a free run but never marks it, answers its last slot, does not count what it
    grows by and throws the grown run away; `free` stops at `length` instead of start plus length.
    Here the run is marked, counted, answered by its first slot, and cleared whole. A pool of
    pointers may grow when the pointer pool has `room` for it. */
module Pool {
  import opened PageTypes
  import opened Bitmap

  /** Occupied slots. */
  function Occupied(ck: seq<bool>): (n: nat)
    ensures n <= |ck|
  {
    if ck == [] then 0 else Occupied(ck[..|ck| - 1]) + if ck[|ck| - 1] then 1 else 0
  }

  lemma {:induction false} OccupiedUpdate(ck: seq<bool>, i: nat, value: bool)
    requires i < |ck|
    ensures Occupied(ck[i := value]) == Occupied(ck) - (if ck[i] then 1 else 0) + (if value then 1 else 0)
  {
    var last := |ck| - 1;
    if i < last {
      assert ck[i := value][..last] == ck[..last][i := value];
      OccupiedUpdate(ck[..last], i, value);
    } else {
      assert ck[i := value][..last] == ck[..last];
    }
  }

  /** Setting a range changes the count by the slots that were not yet so. */
  lemma {:induction false} OccupiedSet(ck: seq<bool>, start: nat, n: nat, value: bool)
    requires start + n <= |ck|
    ensures Occupied(SetRange(ck, start, n, value))
            == Occupied(ck) - Occupied(ck[start..start + n]) + if value then n else 0
    decreases n
  {
    if n == 0 {
      assert SetRange(ck, start, 0, value) == ck;
    } else {
      OccupiedSet(ck, start, n - 1, value);
      OneMoreSet(ck, start, n, value);
      OneMoreSlot(ck, start, n);
    }
  }

  lemma OneMoreSet(ck: seq<bool>, start: nat, n: nat, value: bool)
    requires n > 0 && start + n <= |ck|
    ensures Occupied(SetRange(ck, start, n, value)) == Occupied(SetRange(ck, start, n - 1, value))
              - (if ck[start + n - 1] then 1 else 0) + (if value then 1 else 0)
  {
    var less := SetRange(ck, start, n - 1, value);
    OccupiedUpdate(less, start + n - 1, value);
    assert SetRange(ck, start, n, value) == less[start + n - 1 := value];
  }

  lemma OneMoreSlot(ck: seq<bool>, start: nat, n: nat)
    requires n > 0 && start + n <= |ck|
    ensures Occupied(ck[start..start + n]) == Occupied(ck[start..start + n - 1]) + (if ck[start + n - 1] then 1 else 0)
  {
    assert ck[start..start + n][..n - 1] == ck[start..start + n - 1];
  }

  lemma {:induction false} OccupiedNone(ck: seq<bool>)
    ensures Occupied(ck) == 0 <==> forall i | 0 <= i < |ck| :: !ck[i]
    ensures Occupied(ck) == |ck| <==> forall i | 0 <= i < |ck| :: ck[i]
  {
    if ck != [] {
      OccupiedNone(ck[..|ck| - 1]);
    }
  }

  lemma OccupiedSlice(ck: seq<bool>, start: nat, n: nat)
    requires start + n <= |ck|
    ensures Occupied(ck[start..start + n]) == n <==> forall p | start <= p < start + n :: ck[p]
  {
    var slice := ck[start..start + n];
    OccupiedNone(slice);
    assert forall p | start <= p < start + n :: ck[p] == slice[p - start];
  }

  lemma {:induction false} OccupiedAppend(ck: seq<bool>, more: seq<bool>)
    ensures Occupied(ck + more) == Occupied(ck) + Occupied(more)
  {
    if more == [] {
      assert ck + more == ck;
    } else {
      assert (ck + more)[..|ck + more| - 1] == ck + more[..|more| - 1];
      OccupiedAppend(ck, more[..|more| - 1]);
    }
  }

  function Splice<T>(pool: seq<T>, at: nat, data: seq<T>): (r: seq<T>)
    ensures |r| == |pool|
    ensures forall i | 0 <= i < |pool| :: r[i] == if at <= i < at + |data| then data[i - at] else pool[i]
  {
    seq(|pool|, i requires 0 <= i < |pool| => if at <= i < at + |data| then data[i - at] else pool[i])
  }

  function Fill<T>(value: T, n: nat): (r: seq<T>)
    ensures |r| == n && forall i | 0 <= i < n :: r[i] == value
  {
    seq(n, _ => value)
  }

  /** The slots after an allocation, and its first slot. */
  ghost function Allocated(ck: seq<bool>, n: nat, grow: bool): (r: (seq<bool>, Option<nat>)) {
    match FirstFit(ck, 0, |ck|, n, SmallPage)
    case Some(s) => (SetRange(ck, s, n, true), Some(s))
    case None => if grow then (ck + Fill(true, n), Some(|ck|)) else (ck, None)
  }

  /** An allocation that fits takes exactly the first free run of its length. One that does not takes new
      slots behind the last where the pool may grow, and otherwise nothing. */
  lemma AllocatedTakes(ck: seq<bool>, n: nat, grow: bool)
    ensures var (after, r) := Allocated(ck, n, grow);
            && (r.Some? <==> grow || exists s :: FreeRun(ck, s, n))
            && (r.None? ==> after == ck)
            && (r.Some? ==>
                  && |after| == (if exists s :: FreeRun(ck, s, n) then |ck| else |ck| + n)
                  && r.value + n <= |after| && (forall p | r.value <= p < r.value + n && p < |ck| :: !ck[p])
                  && (forall p | 0 <= p < |after| :: after[p] == if r.value <= p < r.value + n then true else ck[p])
                  && forall s: nat | s < r.value :: !FreeRun(ck, s, n))
  {
    var r := FirstFit(ck, 0, |ck|, n, SmallPage);
    assert forall s :: FreeRun(ck, s, n) <==> 0 <= s && Fit(ck, s, n, SmallPage, |ck|);
    if r.None? {
      assert forall s :: !FreeRun(ck, s, n);
    }
  }

  class Hash<T> {
    const zero: T
    const doublePointer: bool
    var ckarray: seq<bool>
    var pool: seq<T>
    var count: int

    constructor (zero: T, doublePointer: bool, length: nat)
      ensures this.zero == zero && this.doublePointer == doublePointer
      ensures ckarray == Fill(false, length) && pool == Fill(zero, length) && Valid()
    {
      this.zero, this.doublePointer := zero, doublePointer;
      ckarray, pool, count := Fill(false, length), Fill(zero, length), 0;
      OccupiedNone(Fill(false, length));
    }

    /** `count` is the number of occupied slots. */
    ghost predicate Valid()
      reads this
    {
      |pool| == |ckarray| && count == Occupied(ckarray)
    }

    /** `alloc`: the first long enough free run, else fresh slots at the end of a pool that can grow.
        What is in the pool stays. An empty request changes nothing. */
    method Alloc(reqlen: nat, room: bool) returns (r: Option<nat>)
      requires Valid()
      modifies this`ckarray, this`pool, this`count
      ensures Valid() && count >= old(count)
      ensures reqlen > 0 ==> (ckarray, r) == Allocated(old(ckarray), reqlen, doublePointer && room)
      ensures reqlen == 0 ==> ckarray == old(ckarray)
      ensures pool == old(pool) + Fill(zero, |ckarray| - |old(ckarray)|)
    {
      var g, i := 0, 0;
      while i < |ckarray|
        invariant 0 <= g <= i <= |ckarray| && (reqlen > 0 ==> g < reqlen)
        invariant FreeRun(ckarray, i - g, g)
        invariant forall s | 0 <= s < i - g :: reqlen > 0 ==> !Fit(ckarray, s, reqlen, SmallPage, |ckarray|)
        invariant ckarray == old(ckarray) && pool == old(pool) && count == old(count)
      {
        if ckarray[i] {
          forall s | 0 <= s < i + 1 ensures reqlen > 0 ==> !Fit(ckarray, s, reqlen, SmallPage, |ckarray|) {
            assert s + reqlen > i ==> !FreeRun(ckarray, s, reqlen) || s > i || reqlen == 0;
          }
          g := 0;
        } else {
          g := g + 1;
        }
        if g == reqlen {
          var first := i + 1 - reqlen;
          if reqlen > 0 {
            FirstFitIs(ckarray, first, |ckarray|, reqlen, SmallPage);
          }
          OccupiedSet(ckarray, first, reqlen, true);
          OccupiedNone(ckarray[first..first + reqlen]);
          ckarray := Splice(ckarray, first, Fill(true, reqlen));
          assert ckarray == SetRange(old(ckarray), first, reqlen, true);
          count := count + g;
          assert pool == old(pool) + Fill(zero, 0);
          return Some(first);
        }
        i := i + 1;
      }
      assert reqlen > 0 ==> FirstFit(ckarray, 0, |ckarray|, reqlen, SmallPage).None?;
      if doublePointer && room {
        r := Some(|ckarray|);
        OccupiedAppend(ckarray, Fill(true, reqlen));
        OccupiedNone(Fill(true, reqlen));
        ckarray, pool := ckarray + Fill(true, reqlen), pool + Fill(zero, reqlen);
        count := count + reqlen;
      } else {
        r := None;
        assert pool == old(pool) + Fill(zero, 0);
      }
    }

    /** `free`. Like the source it takes the caller's word for what was occupied: the count stays right
        exactly when the whole section was. */
    method Free(section: nat, length: nat)
      requires section + length <= |ckarray| == |pool|
      modifies this`ckarray, this`pool, this`count
      ensures ckarray == SetRange(old(ckarray), section, length, false)
      ensures pool == Splice(old(pool), section, Fill(zero, length)) && count == old(count) - length
      ensures old(Valid()) ==> (Valid() <==> forall p | section <= p < section + length :: old(ckarray)[p])
    {
      OccupiedSet(ckarray, section, length, false);
      OccupiedSlice(ckarray, section, length);
      var g := section;
      while g < section + length
        invariant section <= g <= section + length
        invariant ckarray == SetRange(old(ckarray), section, g - section, false)
        invariant pool == old(pool) && count == old(count)
      {
        ckarray := ckarray[g := false];
        g := g + 1;
      }
      count := count - length;
      pool := Splice(pool, section, Fill(zero, length));
    }

    /** `realloc`, over a backup copy (`backup` says whether there was memory for one). The section is
        released before the new run is looked for, so a run that is not found loses the contents.
        When the new length holds the old, the old contents lead the new run, wherever it is, and
        every slot outside both runs is as before. */
    method Realloc(section: nat, prevlen: nat, newlen: nat, backup: bool, room: bool) returns (r: Option<nat>)
      requires Valid() && section + prevlen <= |ckarray|
      requires forall p | section <= p < section + prevlen :: ckarray[p]
      modifies this`ckarray, this`pool, this`count
      ensures Valid()
      ensures !backup ==> r.None? && ckarray == old(ckarray) && pool == old(pool)
      ensures backup && newlen > 0 ==>
                (ckarray, r)
                == Allocated(SetRange(old(ckarray), section, prevlen, false), newlen, doublePointer && room)
      ensures |ckarray| >= |old(ckarray)|
      ensures backup ==> pool == Reallocated(old(pool), zero, section, prevlen, |ckarray| - |old(ckarray)|, r)
    {
      if !backup {
        return None;
      }
      var saved := pool[section..section + prevlen];
      Free(section, prevlen);
      r := Alloc(newlen, room);
      if r.Some? {
        pool := Splice(pool, r.value, saved);
      }
    }
  }

  /** The contents after a realloc: section cleared, pool grown, old contents copied to the new run. */
  function Reallocated<T>(pool: seq<T>, zero: T, section: nat, prevlen: nat, grown: nat, r: Option<nat>): (p: seq<T>)
    requires section + prevlen <= |pool|
  {
    var cleared := Splice(pool, section, Fill(zero, prevlen)) + Fill(zero, grown);
    match r
    case Some(s) => Splice(cleared, s, pool[section..section + prevlen])
    case None => cleared
  }

  /** Realloc to at least the old length keeps the old prefix even when the new run overlaps the
      released one, and touches no slot outside the two. */
  lemma ReallocKeepsPrefix<T>(pool: seq<T>, zero: T, section: nat, prevlen: nat, newlen: nat, grown: nat, s: nat)
    requires section + prevlen <= |pool| && prevlen <= newlen && s + newlen <= |pool| + grown
    ensures var p := Reallocated(pool, zero, section, prevlen, grown, Some(s));
            && p[s..s + prevlen] == pool[section..section + prevlen]
            && forall i | 0 <= i < |pool| && !(section <= i < section + prevlen)
                && !(s <= i < s + newlen) :: p[i] == pool[i]
  {
  }

  /** Every slot outside the released section and the new run holds what it held. */
  ghost predicate OthersKept<T>(pool: seq<T>, zero: T, section: nat, prevlen: nat, newlen: nat, grown: nat, s: nat)
    requires section + prevlen <= |pool|
  {
    forall i | 0 <= i < |pool| && !(section <= i < section + prevlen) && !(s <= i < s + newlen) ::
      Reallocated(pool, zero, section, prevlen, grown, Some(s))[i] == pool[i]
  }

  predicate Within(i: int, start: int, len: int) {
    start <= i < start + len
  }

  /** What a shorter copy runs over lies in the section it comes from. */
  ghost predicate OverrunsOwn(length: nat, section: nat, prevlen: nat, newlen: nat, s: nat) {
    forall i | s + newlen <= i < s + prevlen && i < length :: Within(i, section, prevlen)
  }

  lemma ReallocatedAt<T>(pool: seq<T>, zero: T, section: nat, prevlen: nat, grown: nat, s: nat, i: nat)
    requires section + prevlen <= |pool| && i < |pool|
    ensures Reallocated(pool, zero, section, prevlen, grown, Some(s))[i]
            == if Within(i, s, prevlen) then pool[section + i - s]
               else if Within(i, section, prevlen) then zero
               else pool[i]
  {
  }

  lemma HoldingKeepsOthers<T>(pool: seq<T>, zero: T, section: nat, prevlen: nat, newlen: nat, grown: nat, s: nat)
    requires section + prevlen <= |pool|
    requires prevlen <= newlen || OverrunsOwn(|pool|, section, prevlen, newlen, s)
    ensures OthersKept(pool, zero, section, prevlen, newlen, grown, s)
  {
    forall i | 0 <= i < |pool| && !(section <= i < section + prevlen) && !(s <= i < s + newlen)
      ensures Reallocated(pool, zero, section, prevlen, grown, Some(s))[i] == pool[i]
    {
      ReallocatedAt(pool, zero, section, prevlen, grown, s, i);
      assert !Within(i, section, prevlen) && !Within(i, s, newlen);
      assert Within(i, s, prevlen) ==> prevlen > newlen && s + newlen <= i < s + prevlen;
    }
  }

  /** The copy takes the old length whatever the new one is: it leaves the others alone, whatever they
      hold, exactly when the new length holds the old or what it runs over lies in the section. */
  lemma ReallocKeepsOthers(length: nat, section: nat, prevlen: nat, newlen: nat, grown: nat, s: nat)
    requires section + prevlen <= length && s + newlen <= length + grown
    ensures (forall pool: seq<nat> | |pool| == length :: OthersKept(pool, 0, section, prevlen, newlen, grown, s))
            <==> prevlen <= newlen || OverrunsOwn(length, section, prevlen, newlen, s)
  {
    if prevlen <= newlen || OverrunsOwn(length, section, prevlen, newlen, s) {
      forall pool: seq<nat> | |pool| == length ensures OthersKept(pool, 0, section, prevlen, newlen, grown, s) {
        HoldingKeepsOthers(pool, 0, section, prevlen, newlen, grown, s);
      }
    } else {
      var i: nat :| s + newlen <= i < s + prevlen && i < length && !Within(i, section, prevlen);
      var pool: seq<nat> := Fill(0, length)[i := 1];
      ReallocatedAt(pool, 0, section, prevlen, grown, s, i);
      assert !OthersKept(pool, 0, section, prevlen, newlen, grown, s);
    }
  }

  /** With the run that alloc answers after the release, that is so exactly when the new length holds the
      old or no free run of the new length ends before the section. */
  lemma ShrinkingKeepsOthers(ck: seq<bool>, section: nat, prevlen: nat, newlen: nat, grow: bool)
    requires section + prevlen <= |ck|
    ensures var (after, r) := Allocated(SetRange(ck, section, prevlen, false), newlen, grow);
            r.Some? ==>
              ((forall pool: seq<nat> | |pool| == |ck| ::
                  OthersKept(pool, 0, section, prevlen, newlen, |after| - |ck|, r.value))
               <==> prevlen <= newlen || NoneBefore(ck, section, newlen))
  {
    var freed := SetRange(ck, section, prevlen, false);
    var (after, r) := Allocated(freed, newlen, grow);
    if r.Some? {
      ReallocKeepsOthers(|ck|, section, prevlen, newlen, |after| - |ck|, r.value);
      if prevlen > newlen {
        RunBefore(ck, section, prevlen, newlen);
        assert r.value + newlen < section ==> !Within(r.value + newlen, section, prevlen);
      }
    }
  }

  ghost predicate NoneBefore(ck: seq<bool>, section: nat, len: nat) {
    forall t: nat | t + len < section :: !FreeRun(ck, t, len)
  }

  /** A section given up holds a shorter run: the first one lies there or before. */
  lemma RunBefore(ck: seq<bool>, section: nat, prevlen: nat, newlen: nat)
    requires section + prevlen <= |ck| && newlen < prevlen
    ensures var r := FirstFit(SetRange(ck, section, prevlen, false), 0, |ck|, newlen, SmallPage);
            r.Some? && r.value <= section && (section <= r.value + newlen <==> NoneBefore(ck, section, newlen))
  {
    var freed := SetRange(ck, section, prevlen, false);
    var r := FirstFit(freed, 0, |ck|, newlen, SmallPage);
    assert Fit(freed, section, newlen, SmallPage, |ck|);
    forall t: nat | t + newlen < section
      ensures Fit(freed, t, newlen, SmallPage, |ck|) <==> FreeRun(ck, t, newlen)
    {
    }
  }

  /** It does run over them: here a realloc from two slots to one finds the first slot of the pool free
      and overwrites the second, which is another's. */
  lemma ShrinkingReallocOverruns()
    ensures var ck, pool := [false, true, true, true], [0, 7, 1, 2];
            var after := Allocated(SetRange(ck, 2, 2, false), 1, false);
            after == ([true, true, false, false], Some(0)) && !OthersKept(pool, 0, 2, 2, 1, 0, 0)
  {
    var ck, pool := [false, true, true, true], [0, 7, 1, 2];
    var freed := SetRange(ck, 2, 2, false);
    FirstFitIs(freed, 0, |freed|, 1, SmallPage);
    assert SetRange(freed, 0, 1, true) == [true, true, false, false];
    assert Reallocated(pool, 0, 2, 2, 0, Some(0))[1] == 2;
  }

  /** free undoes alloc: the slots are those from before, plus what the pool grew by. */
  lemma FreeUndoesAlloc(ck: seq<bool>, n: nat, grow: bool)
    ensures var (after, r) := Allocated(ck, n, grow);
            r.Some? ==> SetRange(after, r.value, n, false) == ck + Fill(false, |after| - |ck|)
  {
    var (after, r) := Allocated(ck, n, grow);
    if r.Some? {
      var s := r.value;
      assert forall i | 0 <= i < |ck| :: SetRange(after, s, n, false)[i] == ck[i];
    }
  }

  /** The loop of `free` as written clears [section, length): the right slots exactly for a section at
      the start of the pool. */
  lemma FreeAsWrittenClears(ck: seq<bool>, section: nat, length: nat)
    requires section + length <= |ck| && forall p | section <= p < section + length :: ck[p]
    ensures SetRange(ck, section, length - section, false) == SetRange(ck, section, length, false)
            <==> section == 0 || length == 0
  {
    if section > 0 && length > 0 {
      assert SetRange(ck, section, length - section, false)[section + length - 1];
    }
  }
}
