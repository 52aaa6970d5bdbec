/** `disk_request`: pages that lie next to each other in physical memory go to the driver in one
    request.

    A run goes on as long as its l-th page lies l page sizes after its first (the source compares
    entry[g+1] with entry[g] whatever l is, from l = 0), and each request names the disk position of
    its first page (the source gives every request the position of the whole). Both are kept in the
    AsWritten members. */
module Disk {
  type Content = nat

  /** The bytes of n pages, n times atom. */
  function Span(n: nat, atom: nat): nat {
    if n == 0 then 0 else Span(n - 1, atom) + atom
  }

  lemma {:induction false} SpanIsProduct(n: nat, atom: nat)
    ensures Span(n, atom) == n * atom
  {
    if n > 0 {
      SpanIsProduct(n - 1, atom);
    }
  }

  datatype Action = Read | Write

  datatype Store = Store(memory: map<nat, Content>, disk: map<nat, Content>)

  /** What the driver is told: where on disk, from which address on, how many pages. */
  datatype Request = Request(position: nat, address: nat, pages: nat)

  function Get(m: map<nat, Content>, at: nat): Content {
    if at in m then m[at] else 0
  }

  function Transfer(st: Store, action: Action, position: nat, address: nat): Store {
    match action
    case Read => st.(memory := st.memory[address := Get(st.disk, position)])
    case Write => st.(disk := st.disk[position := Get(st.memory, address)])
  }

  /** The driver's work: n pages from one address and one position on. */
  function Serve(st: Store, action: Action, position: nat, address: nat, n: nat, atom: nat): Store {
    if n == 0 then st
    else Transfer(Serve(st, action, position, address, n - 1, atom), action, position + Span(n - 1, atom),
        address + Span(n - 1, atom))
  }

  /** The first n pages, each on its own. */
  function PageByPage(st: Store, action: Action, position: nat, entry: seq<nat>, n: nat, atom: nat): Store
    requires n <= |entry|
  {
    if n == 0 then st
    else Transfer(PageByPage(st, action, position, entry, n - 1, atom), action, position + Span(n - 1, atom),
        entry[n - 1])
  }

  predicate Follows(entry: seq<nat>, atom: nat, k: int)
    requires 0 <= k < |entry| - 1
  {
    entry[k + 1] == entry[k] + atom
  }

  /** Pages g to g+l follow each other in physical memory. */
  predicate Contiguous(entry: seq<nat>, atom: nat, g: nat, l: nat)
    requires g + l <= |entry|
  {
    forall k | g <= k < g + l - 1 :: Follows(entry, atom, k)
  }

  datatype Piece = Piece(first: nat, pages: nat)

  /** Nonempty contiguous pieces that cover exactly the pages from g to end. */
  ghost predicate Tiles(entry: seq<nat>, atom: nat, g: nat, pieces: seq<Piece>, end: nat)
    requires end <= |entry|
    decreases |pieces|
  {
    if pieces == [] then g == end
    else
      && pieces[0].first == g && pieces[0].pages > 0 && g + pieces[0].pages <= end
      && Contiguous(entry, atom, g, pieces[0].pages)
      && Tiles(entry, atom, g + pieces[0].pages, pieces[1..], end)
  }

  /** No piece could be one page longer. */
  ghost predicate Maximal(entry: seq<nat>, atom: nat, pieces: seq<Piece>) {
    forall i | 0 <= i < |pieces| ::
      var end := pieces[i].first + pieces[i].pages;
      pieces[i].pages > 0 && end <= |entry| && (end < |entry| ==> !Follows(entry, atom, end - 1))
  }

  lemma {:induction false} TilesAppend(entry: seq<nat>, atom: nat, g: nat, pieces: seq<Piece>, end: nat, more: Piece)
    requires end <= |entry| && Tiles(entry, atom, g, pieces, end)
    requires more.first == end && more.pages > 0 && end + more.pages <= |entry|
             && Contiguous(entry, atom, end, more.pages)
    ensures Tiles(entry, atom, g, pieces + [more], end + more.pages)
    decreases |pieces|
  {
    if pieces == [] {
      assert [more][1..] == [];
    } else {
      assert (pieces + [more])[1..] == pieces[1..] + [more];
      TilesAppend(entry, atom, g + pieces[0].pages, pieces[1..], end, more);
    }
  }

  /** Serving a contiguous run is transferring its pages one by one. */
  lemma {:induction false} RunIsItsPages(st: Store, action: Action, position: nat, entry: seq<nat>, atom: nat,
      g: nat, l: nat)
    requires g + l <= |entry| && g < |entry| && Contiguous(entry, atom, g, l)
    ensures Serve(PageByPage(st, action, position, entry, g, atom), action, position + Span(g, atom), entry[g], l, atom)
            == PageByPage(st, action, position, entry, g + l, atom)
    decreases l
  {
    if l > 0 {
      RunIsItsPages(st, action, position, entry, atom, g, l - 1);
      Offset(entry, atom, g, l);
      SpanAdds(g, l - 1, atom);
    }
  }

  lemma {:induction false} SpanAdds(a: nat, b: nat, atom: nat)
    ensures Span(a + b, atom) == Span(a, atom) + Span(b, atom)
    decreases b
  {
    if b > 0 {
      SpanAdds(a, b - 1, atom);
    }
  }

  /** The l-th neighbour of a contiguous run lies l page sizes on. */
  lemma {:induction false} Offset(entry: seq<nat>, atom: nat, g: nat, l: nat)
    requires 0 < l && g + l <= |entry| && Contiguous(entry, atom, g, l)
    ensures entry[g + l - 1] == entry[g] + Span(l - 1, atom)
    decreases l
  {
    if l > 1 {
      Offset(entry, atom, g, l - 1);
      assert Follows(entry, atom, g + l - 2);
    }
  }

  /** Coalescing is optimal: no way to cover the pages by contiguous runs takes fewer requests. */
  lemma {:induction false} MaximalIsFewest(entry: seq<nat>, atom: nat, g: nat, pieces: seq<Piece>, h: nat,
      other: seq<Piece>)
    requires h <= g <= |entry| && Tiles(entry, atom, g, pieces, |entry|) && Maximal(entry, atom, pieces)
    requires Tiles(entry, atom, h, other, |entry|)
    ensures |pieces| <= |other|
    decreases |pieces|
  {
    if pieces != [] {
      var end, otherEnd := g + pieces[0].pages, h + other[0].pages;
      assert otherEnd <= end by {
        assert pieces[0].first + pieces[0].pages == end && (end < |entry| ==> !Follows(entry, atom, end - 1));
      }
      assert forall i | 0 <= i < |pieces[1..]| :: pieces[1..][i] == pieces[i + 1];
      MaximalIsFewest(entry, atom, end, pieces[1..], otherEnd, other[1..]);
    }
  }

  function RequestFor(piece: Piece, position: nat, entry: seq<nat>, atom: nat): Request
    requires piece.first < |entry|
  {
    Request(position + Span(piece.first, atom), entry[piece.first], piece.pages)
  }

  /** One request for each piece, in order. */
  ghost predicate Asked(pieces: seq<Piece>, requests: seq<Request>, position: nat, entry: seq<nat>, atom: nat) {
    && |requests| == |pieces|
    && forall i | 0 <= i < |pieces| :: pieces[i].first < |entry|
        && requests[i] == RequestFor(pieces[i], position, entry, atom)
  }

  lemma MaximalAppend(entry: seq<nat>, atom: nat, pieces: seq<Piece>, g: nat, l: nat)
    requires Maximal(entry, atom, pieces) && l > 0 && g + l <= |entry|
    requires g + l < |entry| ==> !Follows(entry, atom, g + l - 1)
    ensures Maximal(entry, atom, pieces + [Piece(g, l)])
  {
  }

  lemma PieceServed(st: Store, action: Action, request: Request, piece: Piece, position: nat, entry: seq<nat>,
      atom: nat)
    requires piece.first + piece.pages <= |entry| && piece.pages > 0
             && Contiguous(entry, atom, piece.first, piece.pages)
    requires request == RequestFor(piece, position, entry, atom)
    ensures Serve(PageByPage(st, action, position, entry, piece.first, atom), action, request.position,
            request.address, request.pages, atom)
            == PageByPage(st, action, position, entry, piece.first + piece.pages, atom)
  {
    RunIsItsPages(st, action, position, entry, atom, piece.first, piece.pages);
  }

  /** Where page g+l stands to the run of l pages from g. */
  lemma NextInRun(entry: seq<nat>, atom: nat, g: nat, l: nat)
    requires 0 < l && g + l < |entry| && Contiguous(entry, atom, g, l)
    ensures entry[g + l] == entry[g] + Span(l, atom) <==> Follows(entry, atom, g + l - 1)
  {
    Offset(entry, atom, g, l);
  }

  // ----- what a request has transferred -----

  /** No page of the request after k, up to n, goes to the same address. */
  ghost predicate Latest(entry: seq<nat>, k: nat, n: nat)
    requires n <= |entry|
  {
    forall j | k < j < n :: entry[j] != entry[k]
  }

  /** Page k of a read is in memory as it was on disk, unless a later one goes to the same address. */
  lemma {:induction false} ReadsPage(st: Store, position: nat, entry: seq<nat>, n: nat, atom: nat, k: nat)
    requires k < n <= |entry| && Latest(entry, k, n)
    ensures Get(PageByPage(st, Read, position, entry, n, atom).memory, entry[k])
            == Get(st.disk, position + Span(k, atom))
  {
    if k < n - 1 {
      assert Latest(entry, k, n - 1) && entry[n - 1] != entry[k];
      ReadsPage(st, position, entry, n - 1, atom, k);
    }
    ReadsOnly(st, position, entry, n - 1, atom, 0);
  }

  /** No other address changes, and nothing on disk. */
  lemma {:induction false} ReadsOnly(st: Store, position: nat, entry: seq<nat>, n: nat, atom: nat, a: nat)
    requires n <= |entry|
    ensures PageByPage(st, Read, position, entry, n, atom).disk == st.disk
    ensures a !in entry[..n] ==> Get(PageByPage(st, Read, position, entry, n, atom).memory, a) == Get(st.memory, a)
  {
    if n > 0 {
      assert entry[..n] == entry[..n - 1] + [entry[n - 1]];
      ReadsOnly(st, position, entry, n - 1, atom, a);
    }
  }

  /** Page k of a write is on disk, in its place, as it was in memory. */
  lemma {:induction false} WritesPage(st: Store, position: nat, entry: seq<nat>, n: nat, atom: nat, k: nat)
    requires k < n <= |entry| && atom > 0
    ensures Get(PageByPage(st, Write, position, entry, n, atom).disk, position + Span(k, atom))
            == Get(st.memory, entry[k])
  {
    if k < n - 1 {
      Apart(k, n - 1, atom);
      WritesPage(st, position, entry, n - 1, atom, k);
    }
    WritesOnly(st, position, entry, n - 1, atom, 0);
  }

  /** No other place on disk changes, and nothing in memory. */
  lemma {:induction false} WritesOnly(st: Store, position: nat, entry: seq<nat>, n: nat, atom: nat, a: nat)
    requires n <= |entry|
    ensures PageByPage(st, Write, position, entry, n, atom).memory == st.memory
    ensures (forall k | 0 <= k < n :: a != position + Span(k, atom)) ==>
              Get(PageByPage(st, Write, position, entry, n, atom).disk, a) == Get(st.disk, a)
  {
    if n > 0 {
      WritesOnly(st, position, entry, n - 1, atom, a);
    }
  }

  class DisksKing {
    var memory: map<nat, Content>
    var disk: map<nat, Content>

    function St(): Store
      reads this
    {
      Store(memory, disk)
    }

    method Issue(action: Action, request: Request, atom: nat)
      modifies this
      ensures St() == Serve(old(St()), action, request.position, request.address, request.pages, atom)
    {
      for i := 0 to request.pages
        invariant St() == Serve(old(St()), action, request.position, request.address, i, atom)
      {
        var position, address := request.position + Span(i, atom), request.address + Span(i, atom);
        match action {
          case Read => memory := memory[address := Get(disk, position)];
          case Write => disk := disk[position := Get(memory, address)];
        }
      }
    }

    /** `disk_request` over the physical addresses of the pages. The pieces cover every page exactly
        once, are physically contiguous and as long as can be, there is one request for each, and all
        together do what a transfer page by page would. */
    method DiskRequest(action: Action, position: nat, entry: seq<nat>, atom: nat)
        returns (requests: seq<Request>, pieces: seq<Piece>)
      modifies this
      ensures Tiles(entry, atom, 0, pieces, |entry|) && Maximal(entry, atom, pieces)
      ensures Asked(pieces, requests, position, entry, atom)
      ensures St() == PageByPage(old(St()), action, position, entry, |entry|, atom)
    {
      requests, pieces := [], [];
      ghost var start := St();
      var g := 0;
      while g < |entry|
        invariant g <= |entry| && Tiles(entry, atom, 0, pieces, g) && Maximal(entry, atom, pieces)
        invariant Asked(pieces, requests, position, entry, atom)
        invariant St() == PageByPage(start, action, position, entry, g, atom)
      {
        var l := 1;
        while g + l < |entry| && entry[g + l] == entry[g] + Span(l, atom)
          invariant 0 < l && g + l <= |entry| && Contiguous(entry, atom, g, l)
          invariant St() == PageByPage(start, action, position, entry, g, atom)
        {
          NextInRun(entry, atom, g, l);
          l := l + 1;
        }
        if g + l < |entry| {
          NextInRun(entry, atom, g, l);
        }
        var piece := Piece(g, l);
        var request := RequestFor(piece, position, entry, atom);
        PieceServed(start, action, request, piece, position, entry, atom);
        TilesAppend(entry, atom, 0, pieces, g, piece);
        MaximalAppend(entry, atom, pieces, g, l);
        Issue(action, request, atom);
        requests, pieces := requests + [request], pieces + [piece];
        g := g + l;
      }
    }
  }

  // ----- as written -----

  /** One turn of the loop as written, over a table with one entry more than is asked for: the same
      comparison either never fails or fails at once. */
  function TurnAsWritten(entry: seq<nat>, atom: nat, g: nat): nat
    requires g + 1 < |entry|
  {
    if entry[g + 1] == entry[g] + atom then g + (|entry| - 1) else g
  }

  /** Where g is after n turns. */
  function TurnsAsWritten(entry: seq<nat>, atom: nat, n: nat): nat {
    if n == 0 then 0
    else
      var g := TurnsAsWritten(entry, atom, n - 1);
      if g + 1 < |entry| then TurnAsWritten(entry, atom, g) else g
  }

  /** The loop as written ends exactly when there is nothing to do or the second page follows the
      first; then it takes all pages for one run. */
  lemma {:induction false} AsWrittenStays(entry: seq<nat>, atom: nat, n: nat)
    requires |entry| > 0
    ensures TurnsAsWritten(entry, atom, n)
            == if n > 0 && |entry| > 1 && entry[1] == entry[0] + atom then |entry| - 1 else 0
  {
    if n > 0 {
      AsWrittenStays(entry, atom, n - 1);
    }
  }

  lemma AsWrittenEnds(entry: seq<nat>, atom: nat)
    requires |entry| > 0
    ensures (exists n :: TurnsAsWritten(entry, atom, n) >= |entry| - 1) <==> |entry| == 1 || entry[1] == entry[0] + atom
  {
    AsWrittenStays(entry, atom, 1);
    forall n: nat ensures TurnsAsWritten(entry, atom, n) == TurnsAsWritten(entry, atom, if n == 0 then 0 else 1) {
      AsWrittenStays(entry, atom, n);
    }
  }

  lemma Apart(a: nat, b: nat, atom: nat)
    requires a != b && atom > 0
    ensures Span(a, atom) != Span(b, atom)
  {
    if a < b {
      SpanAdds(a, b - a, atom);
    } else {
      SpanAdds(b, a - b, atom);
    }
  }

  lemma {:induction false} ServeReads(st: Store, position: nat, address: nat, n: nat, atom: nat, k: nat)
    requires k < n && atom > 0
    ensures Get(Serve(st, Read, position, address, n, atom).memory, address + Span(k, atom))
            == Get(st.disk, position + Span(k, atom))
    ensures Serve(st, Read, position, address, n, atom).disk == st.disk
    decreases n
  {
    if n > 1 {
      ServeReads(st, position, address, n - 1, atom, if k < n - 1 then k else 0);
    }
    if k < n - 1 {
      Apart(k, n - 1, atom);
    }
  }

  /** With one nonzero block on disk, no page but its own becomes nonzero. */
  lemma {:induction false} OnePageRead(st: Store, position: nat, entry: seq<nat>, n: nat, atom: nat, k: nat, a: nat)
    requires n <= |entry| && k < |entry| && entry[k] != a && atom > 0
    requires st.memory == map[] && st.disk == map[position + Span(k, atom) := 1]
    ensures Get(PageByPage(st, Read, position, entry, n, atom).memory, a) == 0
    ensures PageByPage(st, Read, position, entry, n, atom).disk == st.disk
    decreases n
  {
    if n > 0 {
      OnePageRead(st, position, entry, n - 1, atom, k, a);
      if n - 1 != k {
        Apart(n - 1, k, atom);
      }
    }
  }

  ghost predicate OneRunDoes(st: Store, position: nat, entry: seq<nat>, atom: nat)
    requires entry != []
  {
    Serve(st, Read, position, entry[0], |entry|, atom) == PageByPage(st, Read, position, entry, |entry|, atom)
  }

  /** That one request reads every page right, whatever is in memory and on disk, exactly when the
      pages are contiguous. */
  lemma OneRunIsRight(position: nat, entry: seq<nat>, atom: nat)
    requires entry != [] && atom > 0
    ensures (forall st :: OneRunDoes(st, position, entry, atom)) <==> Contiguous(entry, atom, 0, |entry|)
  {
    if Contiguous(entry, atom, 0, |entry|) {
      forall st ensures OneRunDoes(st, position, entry, atom) {
        RunIsItsPages(st, Read, position, entry, atom, 0, |entry|);
      }
    } else {
      var j :| 0 <= j < |entry| - 1 && !Follows(entry, atom, j);
      var k := if entry[j] != entry[0] + Span(j, atom) then j else j + 1;
      var st := Store(map[], map[position + Span(k, atom) := 1]);
      ServeReads(st, position, entry[0], |entry|, atom, k);
      OnePageRead(st, position, entry, |entry|, atom, k, entry[0] + Span(k, atom));
      assert !OneRunDoes(st, position, entry, atom);
    }
  }

  /** Requests that all name the position of the first: what several of them read in is right whatever
      is on disk exactly when there is one. */
  lemma StalePositionReads(position: nat, entry: seq<nat>, atom: nat, g: nat, l: nat)
    requires g + l <= |entry| && l > 0 && atom > 0
    ensures (forall disk: map<nat, Content> :: SamePages(disk, position, g, l, atom)) <==> g == 0
  {
    if g > 0 {
      Apart(0, g, atom);
      var disk := map[position := 1];
      assert Get(disk, position + Span(0, atom)) == 1;
      assert !SamePages(disk, position, g, l, atom);
    }
  }

  /** The pages of a run that starts at g, read from position, are those read from its own place. */
  ghost predicate SamePages(disk: map<nat, Content>, position: nat, g: nat, l: nat, atom: nat) {
    forall k | 0 <= k < l :: Get(disk, position + Span(k, atom)) == Get(disk, position + Span(g + k, atom))
  }
}
