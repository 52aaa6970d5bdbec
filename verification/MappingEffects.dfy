/** What each step on mappings does, told page by page and descriptor by descriptor: which marks come and
    go, who holds a page, its counter and what is in memory and on disk. */
module MappingEffects {
  import opened PageTypes
  import opened Bitmap
  import opened Listeners

  ghost predicate SameDescs(st: State, st': State) {
    |st'.procs| == |st.procs| && forall a | 0 <= a < |st.procs| :: st'.procs[a] == st.procs[a]
  }

  ghost predicate OtherDescsStay(st: State, st': State, q: nat, s: nat) {
    && |st'.procs| == |st.procs| && (forall a | 0 <= a < |st.procs| :: |st'.procs[a]| == |st.procs[a]|)
    && forall a, b | 0 <= a < |st.procs| && 0 <= b < |st.procs[a]| && (a != q || b != s) ::
         st'.procs[a][b] == st.procs[a][b]
  }

  ghost predicate SamePages(st: State, st': State) {
    |st'.files| == |st.files| && forall f | 0 <= f < |st.files| :: st'.files[f] == st.files[f]
  }

  /** Memory and disk are as before, and the counter moved by k for pages first to first+n of f alone. */
  ghost predicate CountersMove(st: State, st': State, f: nat, first: nat, n: nat, k: int) {
    && (forall g, p :: InFile(st', g, p) <==> InFile(st, g, p))
    && forall g, p | InFile(st, g, p) ::
         && st'.files[g][p].memory == st.files[g][p].memory && st'.files[g][p].disk == st.files[g][p].disk
         && st'.files[g][p].listeners
            == if g == f && first <= p < first + n then (st.files[g][p].listeners + k) % 256
               else st.files[g][p].listeners
  }

  /** The descriptor is still open on its file and marks the pages of the run, or none of them. */
  ghost predicate MarksBecome(st: State, st': State, q: nat, s: nat, first: nat, n: nat, value: bool)
    requires Opened(st, q, s)
  {
    var f := st.procs[q][s].value.file;
    && Opened(st', q, s) && st'.procs[q][s].value.file == f
    && |st'.procs[q][s].value.maps| == |st.procs[q][s].value.maps|
    && forall g, p: nat :: Marks(st', q, s, g, p) <==>
         if g == f && first <= p < first + n then value else Marks(st, q, s, g, p)
  }

  // ----- FUNMAP -----

  /** The marks of the run are gone, the descriptor alone no longer holds its pages, and their counters went
      down by one. */
  ghost predicate Released(st: State, st': State, q: nat, s: nat, first: nat, n: nat)
    requires Opened(st, q, s)
  {
    var f := st.procs[q][s].value.file;
    && MarksBecome(st, st', q, s, first, n, false) && OtherDescsStay(st, st', q, s)
    && CountersMove(st, st', f, first, n, -1)
    && forall p: nat | first <= p < first + n ::
         (q, s) in Holders(st, f, p) && Holders(st', f, p) == Holders(st, f, p) - {(q, s)}
  }

  lemma UnmapReleases(st: State, q: nat, s: nat, first: nat, n: nat)
    requires CanMap(st, q, s, first, n)
    ensures var st' := Next(st, Unmap(q, s, first, n));
            if forall p: nat | first <= p < first + n :: Marks(st, q, s, st.procs[q][s].value.file, p)
            then Released(st, st', q, s, first, n) else st' == st
  {
    var st', d := Next(st, Unmap(q, s, first, n)), st.procs[q][s].value;
    if forall p: nat | first <= p < first + n :: Marks(st, q, s, d.file, p) {
      UnmapMoves(st, q, s, first, n);
      forall p: nat | first <= p < first + n
        ensures (q, s) in Holders(st, d.file, p) && Holders(st', d.file, p) == Holders(st, d.file, p) - {(q, s)}
      {
        assert Marks(st, q, s, d.file, p);
        HoldersWithout(st, st', q, s, d.file, p);
      }
    } else {
      var p: nat :| first <= p < first + n && !Marks(st, q, s, d.file, p);
      assert !d.maps[p];
    }
  }

  lemma UnmapMoves(st: State, q: nat, s: nat, first: nat, n: nat)
    requires CanMap(st, q, s, first, n)
    requires forall p: nat | first <= p < first + n :: Marks(st, q, s, st.procs[q][s].value.file, p)
    ensures var st' := Next(st, Unmap(q, s, first, n));
            && MarksBecome(st, st', q, s, first, n, false) && OtherDescsStay(st, st', q, s)
            && CountersMove(st, st', st.procs[q][s].value.file, first, n, -1)
  {
    var d := st.procs[q][s].value;
    forall g | first <= g < first + n ensures d.maps[g] {
      assert Marks(st, q, s, d.file, g);
    }
  }

  lemma HoldersWithout(st: State, st': State, q: nat, s: nat, f: nat, p: nat)
    requires OtherDescsStay(st, st', q, s) && Opened(st, q, s) && Opened(st', q, s)
    requires Marks(st, q, s, f, p) && !Marks(st', q, s, f, p)
    ensures (q, s) in Holders(st, f, p) && Holders(st', f, p) == Holders(st, f, p) - {(q, s)}
  {
    assert forall a, b | (a, b) != (q, s) :: Marks(st', a, b, f, p) <==> Marks(st, a, b, f, p);
  }

  // ----- FMAP -----

  /** The run is marked, the descriptor holds its pages, and, if there was room, their counters went up by
      one. */
  ghost predicate Held(st: State, st': State, q: nat, s: nat, first: nat, n: nat, room: bool)
    requires Opened(st, q, s)
  {
    var f := st.procs[q][s].value.file;
    && MarksBecome(st, st', q, s, first, n, true) && OtherDescsStay(st, st', q, s)
    && CountersMove(st, st', f, first, n, if room then 1 else 0)
    && forall p: nat | first <= p < first + n :: Holders(st', f, p) == Holders(st, f, p) + {(q, s)}
  }

  lemma MapHolds(st: State, q: nat, s: nat, first: nat, n: nat, room: bool)
    requires CanMap(st, q, s, first, n)
    ensures Held(st, Next(st, Map(q, s, first, n, room)), q, s, first, n, room)
  {
    var st', d := Next(st, Map(q, s, first, n, room)), st.procs[q][s].value;
    MapMoves(st, q, s, first, n, room);
    forall p: nat | first <= p < first + n
      ensures Holders(st', d.file, p) == Holders(st, d.file, p) + {(q, s)}
    {
      assert Marks(st', q, s, d.file, p);
      assert forall a, b | (a, b) != (q, s) :: Marks(st', a, b, d.file, p) <==> Marks(st, a, b, d.file, p);
    }
  }

  lemma MapMoves(st: State, q: nat, s: nat, first: nat, n: nat, room: bool)
    requires CanMap(st, q, s, first, n)
    ensures var st' := Next(st, Map(q, s, first, n, room));
            && MarksBecome(st, st', q, s, first, n, true) && OtherDescsStay(st, st', q, s)
            && CountersMove(st, st', st.procs[q][s].value.file, first, n, if room then 1 else 0)
  {
  }

  // ----- opening and closing -----

  /** A vacant slot is open on the file and marks nothing. */
  lemma OpenOpens(st: State, q: nat, s: nat, file: nat)
    requires q < |st.procs| && s < |st.procs[q]| && !Opened(st, q, s) && file < |st.files|
    ensures var st' := Next(st, Open(q, s, file));
            && Opened(st', q, s) && st'.procs[q][s].value.file == file
            && |st'.procs[q][s].value.maps| == |st.files[file]| && (forall p: nat :: !Marks(st', q, s, file, p))
            && OtherDescsStay(st, st', q, s) && SamePages(st, st')
  {
  }

  /** A closed one is vacant; the counters do not move. */
  lemma CloseCloses(st: State, q: nat, s: nat)
    requires Opened(st, q, s)
    ensures var st' := Next(st, Close(q, s));
            !Opened(st', q, s) && OtherDescsStay(st, st', q, s) && SamePages(st, st')
  {
  }

  /** A new process has so many vacant slots. */
  lemma StartStarts(st: State, slots: nat)
    ensures var st' := Next(st, Start(slots));
            && |st'.procs| == |st.procs| + 1 && st'.procs[..|st.procs|] == st.procs && SamePages(st, st')
            && |st'.procs[|st.procs|]| == slots && (forall s :: !Opened(st', |st.procs|, s))
  {
  }

  // ----- the pages -----

  ghost predicate OtherPagesStay(st: State, st': State, f: nat, p: nat) {
    && SameDescs(st, st') && (forall g, r :: InFile(st', g, r) <==> InFile(st, g, r))
    && forall g, r | InFile(st, g, r) && (g != f || r != p) :: st'.files[g][r] == st.files[g][r]
  }

  /** A page that is read is in memory afterwards, with what is on disk if it was not before. */
  lemma TouchLoads(st: State, f: nat, p: nat)
    requires InFile(st, f, p)
    ensures var st', page := Next(st, Touch(f, p)), st.files[f][p];
            && OtherPagesStay(st, st', f, p)
            && st'.files[f][p].memory == Some(page.memory.GetOr(page.disk))
            && st'.files[f][p].disk == page.disk && st'.files[f][p].listeners == page.listeners
  {
  }

  lemma StoreStores(st: State, f: nat, p: nat, value: Content)
    requires InFile(st, f, p)
    ensures var st', page := Next(st, Store(f, p, value)), st.files[f][p];
            && OtherPagesStay(st, st', f, p) && st'.files[f][p].memory == Some(value)
            && st'.files[f][p].disk == page.disk && st'.files[f][p].listeners == page.listeners
  {
  }

  /** Write-back takes exactly the pages in memory whose counter is 0 out, to disk. */
  lemma CycleWritesBack(st: State, f: nat, p: nat)
    requires InFile(st, f, p)
    ensures var st', page := Next(st, Cycle), st.files[f][p];
            && SameDescs(st, st') && InFile(st', f, p) && st'.files[f][p].listeners == page.listeners
            && (page.memory.Some? && page.listeners == 0 ==>
                  st'.files[f][p].memory.None? && st'.files[f][p].disk == page.memory.value)
            && (page.memory.None? || page.listeners != 0 ==> st'.files[f][p] == page)
  {
  }

  // ----- PKILL -----

  /** Descriptors of q before `from` and those of other processes stay, and so do memory and disk. */
  ghost predicate Killed(st: State, st': State, q: nat, from: nat) {
    && |st'.procs| == |st.procs| && (forall a | 0 <= a < |st.procs| :: |st'.procs[a]| == |st.procs[a]|)
    && (forall a, b | 0 <= a < |st.procs| && 0 <= b < |st.procs[a]| ::
          st'.procs[a][b] == if a == q && b >= from then None else st.procs[a][b])
    && (forall f, p :: InFile(st', f, p) <==> InFile(st, f, p))
    && forall f, p | InFile(st, f, p) ::
         st'.files[f][p].memory == st.files[f][p].memory && st'.files[f][p].disk == st.files[f][p].disk
  }

  lemma DropKills(st: State, q: nat, s: nat)
    requires Valid(st) && q < |st.procs| && s < |st.procs[q]|
    ensures var st' := Drop(st, q, s);
            && Valid(st') && OtherDescsStay(st, st', q, s) && st'.procs[q][s].None?
            && (forall f, p :: InFile(st', f, p) <==> InFile(st, f, p))
            && forall f, p | InFile(st, f, p) ::
                 st'.files[f][p].memory == st.files[f][p].memory && st'.files[f][p].disk == st.files[f][p].disk
  {
    var st' := Drop(st, q, s);
    assert forall a, b | Opened(st', a, b) :: Opened(st, a, b) && st'.procs[a][b] == st.procs[a][b];
  }

  lemma {:induction false} KillFromKills(st: State, q: nat, s: nat)
    requires Valid(st) && q < |st.procs| && s <= |st.procs[q]|
    ensures Killed(st, KillFrom(st, q, s), q, s)
    decreases |st.procs[q]| - s
  {
    if s < |st.procs[q]| {
      DropKills(st, q, s);
      KillFromKills(Drop(st, q, s), q, s + 1);
    }
  }

  /** A process killed has no descriptor left; no page is loaded, written or lost by it. */
  lemma KillTakesDescriptors(st: State, q: nat)
    requires Valid(st) && q < |st.procs|
    ensures Killed(st, Next(st, Kill(q)), q, 0)
  {
    KillFromKills(st, q, 0);
  }
}
