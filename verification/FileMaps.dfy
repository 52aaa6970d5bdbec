/** What Listeners counts, put to use: teardown of a process' mappings, the write-back that goes by the
    counters, and the system calls on the kernel's own mutable state. */
module FileMaps {
  import opened PageTypes
  import opened Bitmap
  import opened Listeners
  import opened MappingEffects

  /** FUNMAP as written, once it has checked the marks: it counts down and leaves them. */
  function CountedDown(st: State, f: nat, first: nat, n: nat): State
    requires f < |st.files|
  {
    st.(files := st.files[f := Bump(st.files[f], first, n, 255)])
  }

  /** Every page it releases is counted one too low. */
  lemma UnmapAsWrittenLosesCount(st: State, f: nat, first: nat, n: nat, p: nat)
    requires InFile(st, f, p) && Agrees(st, f, p, 0)
    ensures Agrees(CountedDown(st, f, first, n), f, p, 0) <==> p < first || first + n <= p
  {
    var st' := CountedDown(st, f, first, n);
    assert forall a, b :: Marks(st, a, b, f, p) <==> Marks(st', a, b, f, p);
    assert Holders(st', f, p) == Holders(st, f, p);
    assert (st.files[f][p].listeners + 255) % 256 != st.files[f][p].listeners;
  }

  ghost function NotOf(holders: set<(int, int)>, q: int): set<(int, int)> {
    set e | e in holders && e.0 != q
  }

  /** PKILL leaves the process holding nothing, and every other descriptor what it held. */
  lemma {:induction false} KillReleasesAll(st: State, q: nat, s: nat, f: nat, p: nat)
    requires Valid(st) && q < |st.procs| && s <= |st.procs[q]|
    requires forall i: nat | i < s :: !Opened(st, q, i)
    ensures Holders(KillFrom(st, q, s), f, p) == NotOf(Holders(st, f, p), q)
    ensures forall i: nat :: !Opened(KillFrom(st, q, s), q, i)
    decreases |st.procs[q]| - s
  {
    if s < |st.procs[q]| {
      var st' := Drop(st, q, s);
      forall e: (int, int) ensures e.0 != q ==> (e in Holders(st', f, p) <==> e in Holders(st, f, p)) {
        assert e.0 != q ==> (Marks(st', e.0, e.1, f, p) <==> Marks(st, e.0, e.1, f, p));
      }
      if st' != st {
        assert Valid(st') by {
          assert forall a, b | Opened(st', a, b) :: Opened(st, a, b) && st'.procs[a][b] == st.procs[a][b];
        }
      }
      forall i: nat | i < s + 1 ensures !Opened(st', q, i) {
        assert i < s ==> !Opened(st, q, i);
      }
      KillReleasesAll(st', q, s + 1, f, p);
    }
  }

  // ----- write-back -----

  /** What a process that maps the page sees in it. */
  function Seen(page: Page): Content {
    page.memory.GetOr(page.disk)
  }

  /** A write-back cycle takes the page out of memory. */
  ghost predicate Evicts(st: State, f: nat, p: nat)
    requires InFile(st, f, p)
  {
    st.files[f][p].memory.Some? && WriteBack(st.files[f][p]).memory.None?
  }

  /** In every reachable state: a page in memory is taken out by a cycle exactly when its holders and
      strays make a multiple of 256; without strays and with at most 255 holders, when nobody has it
      mapped. What is taken out is on disk. */
  lemma CycleFrees(st0: State, steps: seq<Step>, f: nat, p: nat)
    requires Init(st0) && InFile(st0, f, p)
    ensures InFile(Run(st0, steps), f, p)
    ensures var st := Run(st0, steps);
            st.files[f][p].memory.Some? ==>
              && (Evicts(st, f, p) <==> (|Holders(st, f, p)| + Strays(st0, steps, f, p)) % 256 == 0)
              && (Strays(st0, steps, f, p) == 0 && |Holders(st, f, p)| < 256 ==>
                    (Evicts(st, f, p) <==> Holders(st, f, p) == {}))
              && (Evicts(st, f, p) ==> Next(st, Cycle).files[f][p].disk == st.files[f][p].memory.value)
  {
    ListenersCountHolders(st0, steps, f, p);
  }

  /** The value last stored to the page, c if none was. */
  function LastStore(steps: seq<Step>, f: nat, p: nat, c: Content): Content
    decreases |steps|
  {
    if steps == [] then c
    else
      var step := steps[0];
      LastStore(steps[1..], f, p, if step.Store? && step.f == f && step.p == p then step.value else c)
  }

  lemma {:induction false} KillKeepsContents(st: State, q: nat, s: nat, f: nat, p: nat)
    requires InFile(st, f, p)
    ensures var st' := KillFrom(st, q, s); InFile(st', f, p) && Seen(st'.files[f][p]) == Seen(st.files[f][p])
    decreases if q < |st.procs| then |st.procs[q]| - s else 0
  {
    if q < |st.procs| && s < |st.procs[q]| {
      KillKeepsContents(Drop(st, q, s), q, s + 1, f, p);
    }
  }

  /** Mapping, faulting in, writing back and teardown are invisible: in every run a page reads as the
      value last stored to it. */
  lemma {:induction false} PagesReadLastStore(st: State, steps: seq<Step>, f: nat, p: nat)
    requires InFile(st, f, p)
    ensures var st' := Run(st, steps);
            InFile(st', f, p) && Seen(st'.files[f][p]) == LastStore(steps, f, p, Seen(st.files[f][p]))
    decreases |steps|
  {
    if steps != [] {
      match steps[0] {
        case Kill(q) => KillKeepsContents(st, q, 0, f, p);
        case _ =>
      }
      PagesReadLastStore(Next(st, steps[0]), steps[1..], f, p);
    }
  }

  /** The cycle as written does not ask whether a page is in memory before it writes it out: what is
      behind a null pointer goes to disk. The page survives exactly when it is counted or in memory, or
      when that is what it held. */
  lemma CycleAsWrittenKeeps(page: Page, behindNull: Content)
    ensures Seen(if page.listeners == 0 then page.(disk := page.memory.GetOr(behindNull)) else page) == Seen(page)
            <==> page.listeners != 0 || page.memory.Some? || page.disk == behindNull
  {
  }

  // ----- the system calls -----

  /** The `count` of a descriptor pool. */
  function OpenCount(table: Table): nat {
    if table == [] then 0 else OpenCount(table[..|table| - 1]) + if table[|table| - 1].Some? then 1 else 0
  }

  /** Testing a descriptor against the count lets every open one through exactly when they have no gap
      before them. */
  lemma {:induction false} CountAdmitsOpen(table: Table)
    ensures OpenCount(table) <= |table|
    ensures (forall s | 0 <= s < |table| && table[s].Some? :: s < OpenCount(table))
            <==> (forall s | 0 <= s < |table| :: table[s].Some? <==> s < OpenCount(table))
  {
    PackedAbove(table, OpenCount(table));
  }

  /** Where everything from k on is closed there are at most k open, and k only if all before are. */
  lemma {:induction false} PackedAbove(table: Table, k: nat)
    ensures OpenCount(table) <= |table|
    ensures (forall s | k <= s < |table| :: table[s].None?) ==>
              OpenCount(table) <= k
              && (OpenCount(table) == k ==> forall s | 0 <= s < |table| && s < k :: table[s].Some?)
  {
    if table != [] {
      var last := |table| - 1;
      PackedAbove(table[..last], if k <= last then k else last);
    }
  }

  class Mappings {
    var files: seq<seq<Page>>
    var procs: seq<Table>

    function St(): State
      reads this
    {
      State(files, procs)
    }

    /** `SYS_FMAP`: -3 for a descriptor past the limit, -1 for one that is not open, or numbered past the
        count of open ones, -2 for a file whose mode asks for root. A page mapped before gets the process
        killed and is counted again all the same. A range past the end of the file, which the source
        writes to, is refused here with -4. */
    method SysFmap(q: nat, desc: nat, amount: nat, offset: nat, pagetype: PageType, rootOnly: bool, root: bool,
        room: bool)
      returns (code: int, killed: bool)
      requires Valid(St()) && q < |procs|
      modifies this
      ensures var first, n := offset / Multi(pagetype), RoundUp(amount, pagetype);
              if desc > 0x4000 then code == -3 && St() == old(St())
              else if desc >= OpenCount(old(procs)[q]) || !Opened(old(St()), q, desc) then
                code == -1 && St() == old(St())
              else if rootOnly && !root then code == -2 && St() == old(St())
              else if !CanMap(old(St()), q, desc, first, n) then code == -4 && St() == old(St())
              else
                && St() == FMap(old(St()), q, desc, first, n, room) && code == (if room then 1 else 0)
                && (killed <==> exists g :: first <= g < first + n && old(procs[q][desc].value.maps[g]))
      ensures !killed || code >= 0
      ensures code >= 0 ==> Held(old(St()), St(), q, desc, offset / Multi(pagetype), RoundUp(amount, pagetype), room)
    {
      if CanMap(St(), q, desc, offset / Multi(pagetype), RoundUp(amount, pagetype)) {
        MapHolds(St(), q, desc, offset / Multi(pagetype), RoundUp(amount, pagetype), room);
      }
      killed := false;
      if desc > 0x4000 {
        return -3, false;
      }
      if desc >= OpenCount(procs[q]) || desc >= |procs[q]| || procs[q][desc].None? {
        return -1, false;
      }
      if rootOnly && !root {
        return -2, false;
      }
      var d := procs[q][desc].value;
      var pureoff, n := offset / Multi(pagetype), RoundUp(amount, pagetype);
      if pureoff + n > |files[d.file]| {
        return -4, false;
      }
      var maps := d.maps;
      for g := 0 to n
        invariant maps == SetRange(d.maps, pureoff, g, true)
        invariant killed <==> exists k :: pureoff <= k < pureoff + g && d.maps[k]
        invariant St() == old(St())
      {
        if maps[g + pureoff] {
          killed := true;
        }
        maps := maps[g + pureoff := true];
      }
      procs := procs[q := procs[q][desc := Some(d.(maps := maps))]];
      code := Fmap(d.file, pureoff, n, room);
    }

    /** The counting in `fmap`. */
    method Fmap(f: nat, first: nat, n: nat, room: bool) returns (code: int)
      requires f < |files| && first + n <= |files[f]|
      modifies this`files
      ensures code == if room then 1 else 0
      ensures files == if room then old(files)[f := Bump(old(files)[f], first, n, 1)] else old(files)
    {
      if !room {
        return 0;
      }
      var pages := files[f];
      for g := first to first + n
        invariant pages == Bump(files[f], first, g - first, 1)
      {
        pages := pages[g := Moved(pages[g], 1)];
      }
      files := files[f := pages];
      code := 1;
    }

    /** `SYS_FUNMAP`, for the descriptor and first page the entry names: every page is checked before
        one is released. 1 when the first page lies past the file; a range that ends past it, or a
        descriptor that is not open, the source does not notice, here they are 2 and -1. (As written its
        second guard refuses every amount of at least a page.) */
    method SysFunmap(q: nat, desc: nat, first: nat, n: nat) returns (code: int, killed: bool)
      requires Valid(St()) && q < |procs|
      modifies this
      ensures var st := old(St());
              if !Opened(st, q, desc) then code == -1 && !killed && St() == st
              else if first > |st.procs[q][desc].value.maps| then code == 1 && !killed && St() == st
              else if !CanMap(st, q, desc, first, n) then code == 2 && !killed && St() == st
              else
                && code == 0 && St() == FUnmap(st, q, desc, first, n)
                && (killed <==> !AllMarked(st.procs[q][desc].value, first, n))
      ensures code == 0 && !killed ==> Released(old(St()), St(), q, desc, first, n)
      ensures code == 0 && killed ==> St() == old(St())
    {
      if CanMap(St(), q, desc, first, n) {
        UnmapReleases(St(), q, desc, first, n);
      }
      if desc >= |procs[q]| || procs[q][desc].None? {
        return -1, false;
      }
      var d := procs[q][desc].value;
      if first > |files[d.file]| {
        return 1, false;
      }
      if first + n > |files[d.file]| {
        return 2, false;
      }
      for k := first to first + n
        invariant forall g | first <= g < k :: d.maps[g]
        invariant St() == old(St())
      {
        if !d.maps[k] {
          return 0, true;
        }
      }
      var pages, maps := files[d.file], d.maps;
      for k := first to first + n
        invariant pages == Bump(files[d.file], first, k - first, 255)
                  && maps == SetRange(d.maps, first, k - first, false)
        invariant St() == old(St())
      {
        pages := pages[k := Moved(pages[k], 255)];
        maps := maps[k := false];
      }
      files := files[d.file := pages];
      procs := procs[q := procs[q][desc := Some(d.(maps := maps))]];
      return 0, false;
    }

    /** The descriptors of `PKILL`. */
    method Pkill(q: nat)
      requires Valid(St()) && q < |procs|
      modifies this
      ensures St() == KillFrom(old(St()), q, 0)
    {
      var i := 0;
      while i < |procs[q]|
        invariant Valid(St()) && q < |procs| && i <= |procs[q]|
        invariant KillFrom(St(), q, i) == KillFrom(old(St()), q, 0)
        decreases |procs[q]| - i
      {
        ghost var before := St();
        if procs[q][i].Some? {
          var d := procs[q][i].value;
          var pages := files[d.file];
          for y := 0 to |pages|
            invariant pages == BumpMarked(files[d.file], d.maps[..y], 255)
            invariant St() == before
          {
            if d.maps[y] {
              pages := pages[y := Moved(pages[y], 255)];
            }
          }
          assert d.maps[..|pages|] == d.maps;
          files := files[d.file := pages];
          procs := procs[q := procs[q][i := None]];
          assert forall a, b | Opened(St(), a, b) :: Opened(before, a, b) && St().procs[a][b] == before.procs[a][b];
        }
        assert St() == Drop(before, q, i);
        i := i + 1;
      }
    }

    /** `load_page`; `frame` says whether there is memory. The source lets a page one past the end
        through. */
    method LoadPage(f: nat, p: nat, frame: bool) returns (r: Option<Content>)
      requires f < |files|
      modifies this`files
      ensures St() == if frame then Next(old(St()), Touch(f, p)) else old(St())
      ensures r.Some? <==> InFile(St(), f, p) && files[f][p].memory.Some?
      ensures r.Some? ==> r.value == Seen(old(files[f][p]))
      ensures frame && p < |old(files)[f]| ==> r.Some?
    {
      if p >= |files[f]| {
        return None;
      }
      assert files[f][p := files[f][p]] == files[f] && files[f := files[f]] == files;
      if files[f][p].memory.None? && frame {
        files := files[f := files[f][p := files[f][p].(memory := Some(files[f][p].disk))]];
      }
      return files[f][p].memory;
    }

    /** `writeback_cycle`. */
    method WritebackCycle()
      modifies this`files
      ensures St() == Next(old(St()), Cycle)
    {
      for i := 0 to |files|
        invariant |files| == |old(files)|
        invariant forall g | 0 <= g < |files| ::
                    files[g] == if g < i then WriteBackAll(old(files)[g]) else old(files)[g]
      {
        var pages := files[i];
        for h := 0 to |pages|
          invariant |pages| == |files[i]|
          invariant forall g | 0 <= g < |pages| :: pages[g] == if g < h then WriteBack(files[i][g]) else files[i][g]
        {
          if pages[h].listeners == 0 && pages[h].memory.Some? {
            pages := pages[h := pages[h].(disk := pages[h].memory.value, memory := None)];
          }
        }
        files := files[i := pages];
      }
    }
  }
}
