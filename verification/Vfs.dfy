/** The tree of descriptions: mounting a partition into the pool, and looking paths up in it.

    Mounting allocates a slot for the root too (the source loads it through an uninitialised pointer)
    and inserts into the directory it is at. The lookup takes what its recursive call found (the
    source drops it), and a name ends where the path has a slash (the source goes down only where the
    name has one as well, see ResolveAsWritten). */
module Vfs {
  import opened PageTypes

  /** What a partition holds. The entries of a plain file mean nothing. */
  datatype Disk = Disk(name: string, isDir: bool, entries: seq<Disk>) {
    function Below(): seq<Disk> {
      if isDir then entries else []
    }
  }

  datatype File = File(name: string, isDir: bool, partition: nat, parent: nat, children: seq<nat>)

  type Pool = seq<Option<File>>

  // ----- mounting -----

  function Size(trees: seq<Disk>): nat {
    if trees == [] then 0 else 1 + (if trees[0].isDir then Size(trees[0].entries) else 0) + Size(trees[1..])
  }

  ghost function Unused(pool: Pool): set<nat> {
    set i | 0 <= i < |pool| && pool[i].None?
  }

  function FirstUnused(pool: Pool, from: nat): (r: Option<nat>)
    requires from <= |pool|
    ensures r.Some? ==> from <= r.value < |pool| && pool[r.value].None?
    ensures r.Some? ==> forall i | from <= i < r.value :: pool[i].Some?
    ensures r.None? ==> forall i | from <= i < |pool| :: pool[i].Some?
    decreases |pool| - from
  {
    if from == |pool| then None else if pool[from].None? then Some(from) else FirstUnused(pool, from + 1)
  }

  /** One entry loaded into slot i and made a child of dir. */
  function Linked(pool: Pool, dir: nat, i: nat, disk: Disk, part: nat): (r: Pool)
    requires dir < |pool| && pool[dir].Some? && i < |pool| && i != dir
  {
    var d := pool[dir].value;
    pool[i := Some(File(disk.name, disk.isDir, part, dir, []))][dir := Some(d.(children := d.children + [i]))]
  }

  /** The pool after inserting the trees below dir, each with all that is below it before the next. */
  function Insert(pool: Pool, dir: nat, trees: seq<Disk>, part: nat): (r: (Pool, bool))
    requires dir < |pool| && pool[dir].Some?
    ensures |r.0| == |pool| && forall i | 0 <= i < |pool| && pool[i].Some? :: r.0[i].Some?
    decreases Size(trees)
  {
    if trees == [] then (pool, true)
    else match FirstUnused(pool, 0)
      case None => (pool, false)
      case Some(i) =>
        var (below, ok) := Insert(Linked(pool, dir, i, trees[0], part), i, trees[0].Below(), part);
        if ok then Insert(below, dir, trees[1..], part) else (below, false)
  }

  /** `kids` are the trees: same names and kinds, children in order, each pointing back at its parent,
      all in slots that were unused in `base`. */
  ghost predicate Represents(base: Pool, pool: Pool, kids: seq<nat>, trees: seq<Disk>, parent: nat, part: nat)
    decreases Size(trees)
  {
    && |kids| == |trees|
    && (trees != [] ==>
          && kids[0] < |pool| && |base| == |pool| && base[kids[0]].None? && pool[kids[0]].Some?
          && var file := pool[kids[0]].value;
          && file == File(trees[0].name, trees[0].isDir, part, parent, file.children)
          && Represents(base, pool, file.children, trees[0].Below(), kids[0], part)
          && Represents(base, pool, kids[1..], trees[1..], parent, part))
  }

  /** The slots of the trees. */
  ghost function Slots(pool: Pool, kids: seq<nat>, trees: seq<Disk>): set<nat>
    decreases Size(trees)
  {
    if trees == [] || kids == [] || kids[0] >= |pool| || pool[kids[0]].None? then {}
    else {kids[0]} + Slots(pool, pool[kids[0]].value.children, trees[0].Below()) + Slots(pool, kids[1..], trees[1..])
  }

  /** What stands in slots that were unused in base2 still stands when none of those change. */
  lemma {:induction false} RepresentsStays(base: Pool, base2: Pool, pool: Pool, after: Pool, kids: seq<nat>,
      trees: seq<Disk>, parent: nat, part: nat)
    requires Represents(base2, pool, kids, trees, parent, part) && |after| == |pool| == |base| == |base2|
    requires forall i | 0 <= i < |base| && base2[i].None? :: base[i].None? && (pool[i].Some? ==> after[i] == pool[i])
    ensures Represents(base, after, kids, trees, parent, part)
    ensures Slots(after, kids, trees) == Slots(pool, kids, trees)
    decreases Size(trees)
  {
    if trees != [] {
      RepresentsStays(base, base2, pool, after, pool[kids[0]].value.children, trees[0].Below(), kids[0], part);
      RepresentsStays(base, base2, pool, after, kids[1..], trees[1..], parent, part);
    }
  }

  /** An insertion below dir touches no other description that was there, and only appends to dir's
      children. */
  ghost predicate Kept(pool: Pool, dir: nat, after: Pool)
    requires dir < |pool| && pool[dir].Some?
  {
    && |after| == |pool| && after[dir].Some?
    && (forall i | 0 <= i < |pool| && i != dir && pool[i].Some? :: after[i] == pool[i])
    && var was, now := pool[dir].value, after[dir].value;
    && |was.children| <= |now.children| && now == was.(children := now.children)
    && now.children[..|was.children|] == was.children
  }

  /** What it appends are the trees, in as many slots as they have nodes. */
  ghost predicate Filled(pool: Pool, dir: nat, trees: seq<Disk>, part: nat, after: Pool)
    requires dir < |pool| && pool[dir].Some? && Kept(pool, dir, after)
  {
    var kids := after[dir].value.children[|pool[dir].value.children|..];
    && Represents(pool, after, kids, trees, dir, part)
    && Slots(after, kids, trees) == Unused(pool) - Unused(after)
    && |Unused(after)| == |Unused(pool)| - Size(trees)
  }

  ghost predicate Inserted(pool: Pool, dir: nat, trees: seq<Disk>, part: nat, after: Pool, ok: bool)
    requires dir < |pool| && pool[dir].Some?
  {
    && Kept(pool, dir, after)
    && (ok <==> Size(trees) <= |Unused(pool)|)
    && (ok ==> Filled(pool, dir, trees, part, after))
  }

  lemma UnusedAfterLink(pool: Pool, dir: nat, i: nat, disk: Disk, part: nat)
    requires dir < |pool| && pool[dir].Some? && i < |pool| && pool[i].None?
    ensures Unused(Linked(pool, dir, i, disk, part)) == Unused(pool) - {i}
    ensures |Unused(Linked(pool, dir, i, disk, part))| == |Unused(pool)| - 1
  {
    assert Unused(pool) == Unused(pool) - {i} + {i};
  }

  lemma {:induction false} InsertInserts(pool: Pool, dir: nat, trees: seq<Disk>, part: nat)
    requires dir < |pool| && pool[dir].Some?
    ensures var (after, ok) := Insert(pool, dir, trees, part); Inserted(pool, dir, trees, part, after, ok)
    decreases Size(trees)
  {
    if trees == [] {
      assert pool[dir].value.children[..|pool[dir].value.children|] == pool[dir].value.children;
      assert Unused(pool) - Unused(pool) == {};
    } else {
      match FirstUnused(pool, 0)
      case None =>
        assert Unused(pool) == {};
      case Some(i) =>
        var linked := Linked(pool, dir, i, trees[0], part);
        UnusedAfterLink(pool, dir, i, trees[0], part);
        InsertInserts(linked, i, trees[0].Below(), part);
        var (below, ok) := Insert(linked, i, trees[0].Below(), part);
        if ok {
          InsertInserts(below, dir, trees[1..], part);
          var (after, fine) := Insert(below, dir, trees[1..], part);
          Joined(pool, dir, i, trees, part, below, after, fine);
        } else {
          FailedBelow(pool, dir, i, trees, part, below);
        }
    }
  }

  lemma FailedBelow(pool: Pool, dir: nat, i: nat, trees: seq<Disk>, part: nat, below: Pool)
    requires dir < |pool| && pool[dir].Some? && i < |pool| && pool[i].None? && trees != []
    requires Inserted(Linked(pool, dir, i, trees[0], part), i, trees[0].Below(), part, below, false)
    ensures Inserted(pool, dir, trees, part, below, false)
  {
    UnusedAfterLink(pool, dir, i, trees[0], part);
  }

  lemma KeptJoined(pool: Pool, dir: nat, i: nat, disk: Disk, part: nat, below: Pool, after: Pool)
    requires dir < |pool| && pool[dir].Some? && i < |pool| && pool[i].None?
    requires Kept(Linked(pool, dir, i, disk, part), i, below) && Kept(below, dir, after)
    ensures Kept(pool, dir, after) && after[i] == below[i]
    ensures var n := |pool[dir].value.children|;
            && |below[dir].value.children| == n + 1 && n < |after[dir].value.children|
            && after[dir].value.children[n] == i
  {
    var n := |pool[dir].value.children|;
    assert below[dir].value.children == pool[dir].value.children + [i];
    assert after[dir].value.children[..n + 1] == below[dir].value.children;
    assert after[dir].value.children[..n] == after[dir].value.children[..n + 1][..n];
    assert after[dir].value.children[n] == after[dir].value.children[..n + 1][n];
  }

  /** The first tree and then the rest is all the trees. */
  lemma Joined(pool: Pool, dir: nat, i: nat, trees: seq<Disk>, part: nat, below: Pool, after: Pool, ok: bool)
    requires dir < |pool| && pool[dir].Some? && i < |pool| && pool[i].None? && trees != []
    requires Inserted(Linked(pool, dir, i, trees[0], part), i, trees[0].Below(), part, below, true)
    requires below[dir].Some? && Inserted(below, dir, trees[1..], part, after, ok)
    ensures Inserted(pool, dir, trees, part, after, ok)
  {
    var linked := Linked(pool, dir, i, trees[0], part);
    UnusedAfterLink(pool, dir, i, trees[0], part);
    KeptJoined(pool, dir, i, trees[0], part, below, after);
    if ok {
      FilledJoined(pool, dir, i, trees, part, below, after);
    }
  }

  lemma FilledJoined(pool: Pool, dir: nat, i: nat, trees: seq<Disk>, part: nat, below: Pool, after: Pool)
    requires dir < |pool| && pool[dir].Some? && i < |pool| && pool[i].None? && trees != []
    requires var linked := Linked(pool, dir, i, trees[0], part);
             Kept(linked, i, below) && Filled(linked, i, trees[0].Below(), part, below)
    requires below[dir].Some? && Kept(below, dir, after) && Filled(below, dir, trees[1..], part, after)
    ensures Kept(pool, dir, after) && Filled(pool, dir, trees, part, after)
  {
    UnusedAfterLink(pool, dir, i, trees[0], part);
    KeptJoined(pool, dir, i, trees[0], part, below, after);
    TreesJoined(pool, dir, i, trees, part, below, after);
    SlotsJoined(pool, dir, i, trees, part, below, after);
  }

  /** The slots used one after the other: the first node's, those below it, those of the rest. */
  lemma SlotsJoined(pool: Pool, dir: nat, i: nat, trees: seq<Disk>, part: nat, below: Pool, after: Pool)
    requires dir < |pool| && pool[dir].Some? && i < |pool| && pool[i].None? && trees != []
    requires Kept(Linked(pool, dir, i, trees[0], part), i, below)
    requires below[dir].Some? && Kept(below, dir, after)
    ensures Unused(pool) - Unused(after)
            == {i} + (Unused(Linked(pool, dir, i, trees[0], part)) - Unused(below)) + (Unused(below) - Unused(after))
  {
    UnusedAfterLink(pool, dir, i, trees[0], part);
    KeptUnused(Linked(pool, dir, i, trees[0], part), i, below);
    KeptUnused(below, dir, after);
    InTurn(Unused(pool), Unused(Linked(pool, dir, i, trees[0], part)), Unused(below), Unused(after), i);
  }

  lemma KeptUnused(pool: Pool, dir: nat, after: Pool)
    requires dir < |pool| && pool[dir].Some? && Kept(pool, dir, after)
    ensures Unused(after) <= Unused(pool)
  {
  }

  lemma InTurn(all: set<nat>, linked: set<nat>, below: set<nat>, after: set<nat>, i: nat)
    requires all == linked + {i} && i !in linked && after <= below <= linked
    ensures all - after == {i} + (linked - below) + (below - after)
  {
  }

  lemma TreesJoined(pool: Pool, dir: nat, i: nat, trees: seq<Disk>, part: nat, below: Pool, after: Pool)
    requires dir < |pool| && pool[dir].Some? && i < |pool| && pool[i].None? && trees != []
    requires var linked := Linked(pool, dir, i, trees[0], part);
             Kept(linked, i, below) && Filled(linked, i, trees[0].Below(), part, below)
    requires below[dir].Some? && Kept(below, dir, after) && Filled(below, dir, trees[1..], part, after)
    ensures |pool[dir].value.children| <= |after[dir].value.children|
    ensures var kids := after[dir].value.children[|pool[dir].value.children|..];
            && Represents(pool, after, kids, trees, dir, part)
            && Slots(after, kids, trees)
               == {i} + (Unused(Linked(pool, dir, i, trees[0], part)) - Unused(below)) + (Unused(below) - Unused(after))
  {
    KeptJoined(pool, dir, i, trees[0], part, below, after);
    var n := |pool[dir].value.children|;
    var kids, grandkids := after[dir].value.children[n..], below[i].value.children;
    assert kids[0] == i && kids[1..] == after[dir].value.children[n + 1..] && grandkids[0..] == grandkids;
    FirstStays(pool, dir, i, trees[0], part, below, after);
    RestStays(pool, dir, i, trees[0], part, below, after, kids[1..], trees[1..]);
  }

  lemma FirstStays(pool: Pool, dir: nat, i: nat, disk: Disk, part: nat, below: Pool, after: Pool)
    requires dir < |pool| && pool[dir].Some? && i < |pool| && pool[i].None?
    requires Kept(Linked(pool, dir, i, disk, part), i, below) && Kept(below, dir, after)
    requires Represents(Linked(pool, dir, i, disk, part), below, below[i].value.children, disk.Below(), i, part)
    ensures Represents(pool, after, below[i].value.children, disk.Below(), i, part)
    ensures Slots(after, below[i].value.children, disk.Below()) == Slots(below, below[i].value.children, disk.Below())
  {
    var linked := Linked(pool, dir, i, disk, part);
    forall k | 0 <= k < |pool| && linked[k].None? ensures pool[k].None? && k != dir {
    }
    RepresentsStays(pool, linked, below, after, below[i].value.children, disk.Below(), i, part);
  }

  lemma RestStays(pool: Pool, dir: nat, i: nat, disk: Disk, part: nat, below: Pool, after: Pool, kids: seq<nat>,
      trees: seq<Disk>)
    requires dir < |pool| && pool[dir].Some? && i < |pool| && pool[i].None?
    requires Kept(Linked(pool, dir, i, disk, part), i, below)
    requires Represents(below, after, kids, trees, dir, part) && |after| == |pool|
    ensures Represents(pool, after, kids, trees, dir, part)
  {
    var linked := Linked(pool, dir, i, disk, part);
    forall k | 0 <= k < |pool| && below[k].None? ensures pool[k].None? {
      assert linked[k].None?;
    }
    RepresentsStays(pool, below, after, after, kids, trees, dir, part);
  }

  /** The root, its own parent. */
  function WithRoot(pool: Pool, root: nat, disk: Disk, part: nat): Pool
    requires root < |pool|
  {
    pool[root := Some(File(disk.name, disk.isDir, part, root, []))]
  }

  ghost function Mounted(pool: Pool, root: nat, disk: Disk, part: nat): (Pool, bool)
    requires root < |pool|
  {
    Insert(WithRoot(pool, root, disk, part), root, disk.Below(), part)
  }

  lemma UnusedBelowRoot(pool: Pool, root: nat, disk: Disk, part: nat)
    requires root < |pool| && pool[root].None?
    ensures Unused(pool) == Unused(WithRoot(pool, root, disk, part)) + {root}
            && root !in Unused(WithRoot(pool, root, disk, part))
  {
  }

  /** Mounting leaves every earlier description as it was, and no allocation fails exactly when the
      tree is no larger than what is free: the capacity check, where files_number is its size. */
  lemma MountKeepsEarlier(pool: Pool, root: nat, disk: Disk, part: nat)
    requires root < |pool| && pool[root].None?
    ensures var (after, ok) := Mounted(pool, root, disk, part);
            && |after| == |pool|
            && (forall i | 0 <= i < |pool| && pool[i].Some? :: after[i] == pool[i])
            && (ok <==> Size([disk]) <= |Unused(pool)|)
  {
    InsertInserts(WithRoot(pool, root, disk, part), root, disk.Below(), part);
    UnusedBelowRoot(pool, root, disk, part);
    assert [disk][1..] == [];
  }

  /** A mount that fits copies the whole tree, with parent links, into slots that were unused, one for
      each node. */
  lemma MountCopiesTree(pool: Pool, root: nat, disk: Disk, part: nat)
    requires root < |pool| && pool[root].None? && Size([disk]) <= |Unused(pool)|
    ensures var after := Mounted(pool, root, disk, part).0;
            && Represents(pool, after, [root], [disk], root, part)
            && Slots(after, [root], [disk]) == Unused(pool) - Unused(after)
            && |Slots(after, [root], [disk])| == Size([disk])
  {
    var rooted := WithRoot(pool, root, disk, part);
    InsertInserts(rooted, root, disk.Below(), part);
    MountKeepsEarlier(pool, root, disk, part);
    CopyIsWhole(pool, rooted, Mounted(pool, root, disk, part).0, root, disk, part);
  }

  lemma CopyIsWhole(pool: Pool, rooted: Pool, after: Pool, root: nat, disk: Disk, part: nat)
    requires root < |pool| && pool[root].None? && rooted == WithRoot(pool, root, disk, part)
    requires Kept(rooted, root, after) && Filled(rooted, root, disk.Below(), part, after)
    ensures Represents(pool, after, [root], [disk], root, part)
    ensures Slots(after, [root], [disk]) == Unused(pool) - Unused(after)
            && |Slots(after, [root], [disk])| == Size([disk])
  {
    var kids := after[root].value.children;
    assert kids[0..] == kids;
    UnusedBelowRoot(pool, root, disk, part);
    RepresentsStays(pool, rooted, after, after, kids, disk.Below(), root, part);
    Alone(pool, after, root, disk, part);
  }

  lemma Alone(base: Pool, pool: Pool, root: nat, disk: Disk, part: nat)
    requires root < |pool| == |base| && base[root].None? && pool[root].Some?
    requires var file := pool[root].value;
             file == File(disk.name, disk.isDir, part, root, file.children)
                 && Represents(base, pool, file.children, disk.Below(), root, part)
    ensures Represents(base, pool, [root], [disk], root, part)
    ensures Slots(pool, [root], [disk]) == {root} + Slots(pool, pool[root].value.children, disk.Below())
    ensures Size([disk]) == 1 + Size(disk.Below())
  {
    assert [disk][1..] == [] && [root][1..] == [];
  }

  // ----- paths -----

  datatype Outcome = Found(index: nat) | NotADir | NoMatch

  predicate StartsWith(path: string, name: string) {
    |name| < |path| && path[..|name|] == name && path[|name|] == '/'
  }

  /** The first child the path, or the path up to a slash, names decides. */
  function Resolve(pool: Pool, kids: seq<nat>, path: string): Outcome
    decreases |path|, |kids|
  {
    if kids == [] then NoMatch
    else if kids[0] >= |pool| || pool[kids[0]].None? then Resolve(pool, kids[1..], path)
    else
      var test := pool[kids[0]].value;
      if path == test.name then Found(kids[0])
      else if StartsWith(path, test.name) then
        if test.isDir then Resolve(pool, test.children, path[|test.name| + 1..]) else NotADir
      else Resolve(pool, kids[1..], path)
  }

  /** chain[0] is one of kids, every next a child of the one before. */
  ghost predicate Chain(pool: Pool, kids: seq<nat>, chain: seq<nat>)
    decreases |chain|
  {
    && chain != [] && chain[0] in kids && chain[0] < |pool| && pool[chain[0]].Some?
    && (|chain| > 1 ==> pool[chain[0]].value.isDir && Chain(pool, pool[chain[0]].value.children, chain[1..]))
  }

  /** The names along a chain, joined by slashes. */
  ghost function Spelled(pool: Pool, kids: seq<nat>, chain: seq<nat>): string
    requires Chain(pool, kids, chain)
    decreases |chain|
  {
    var file := pool[chain[0]].value;
    if |chain| == 1 then file.name else file.name + "/" + Spelled(pool, file.children, chain[1..])
  }

  predicate NoSlash(name: string) {
    forall i | 0 <= i < |name| :: name[i] != '/'
  }

  /** No two of them have the same name. */
  ghost predicate Distinct(pool: Pool, kids: seq<nat>) {
    forall a, b | 0 <= a < b < |kids| && kids[a] < |pool| && kids[b] < |pool| && pool[kids[a]].Some?
        && pool[kids[b]].Some? ::
      pool[kids[a]].value.name != pool[kids[b]].value.name
  }

  ghost predicate Wellnamed(pool: Pool) {
    forall i | 0 <= i < |pool| && pool[i].Some? :: NoSlash(pool[i].value.name) && Distinct(pool, pool[i].value.children)
  }

  /** Whatever is found, the path spells a chain to it. */
  lemma {:induction false} FoundIsSpelled(pool: Pool, kids: seq<nat>, path: string) returns (chain: seq<nat>)
    ensures Resolve(pool, kids, path).Found? ==>
              Chain(pool, kids, chain) && chain[|chain| - 1] == Resolve(pool, kids, path).index
                  && Spelled(pool, kids, chain) == path
    decreases |path|, |kids|
  {
    chain := [];
    if kids != [] {
      if kids[0] >= |pool| || pool[kids[0]].None? {
        chain := FoundIsSpelled(pool, kids[1..], path);
      } else {
        var test := pool[kids[0]].value;
        if path == test.name {
          chain := [kids[0]];
        } else if StartsWith(path, test.name) {
          if test.isDir {
            var rest := FoundIsSpelled(pool, test.children, path[|test.name| + 1..]);
            chain := [kids[0]] + rest;
            assert chain[1..] == rest;
            assert path == test.name + "/" + path[|test.name| + 1..];
          }
        } else {
          chain := FoundIsSpelled(pool, kids[1..], path);
        }
      }
    }
  }

  /** A spelled path goes on with the name of the chain's first node and no other. */
  lemma OnlyItsName(name: string, rest: string, other: string, alone: bool)
    requires NoSlash(name) && NoSlash(other) && name != other
    ensures var path := if alone then name else name + "/" + rest; path != other && !StartsWith(path, other)
  {
    var path := if alone then name else name + "/" + rest;
    assert path[..|name|] == name && (!alone ==> path[|name|] == '/');
    if |other| < |name| {
      assert path[|other|] == name[|other|];
    } else if |other| > |name| && !alone && |other| <= |path| {
      assert path[..|other|][|name|] == '/';
    }
  }

  /** Every node is found under its spelled path. */
  lemma {:induction false} SpelledIsFound(pool: Pool, kids: seq<nat>, chain: seq<nat>)
    requires Wellnamed(pool) && Distinct(pool, kids) && Chain(pool, kids, chain)
    ensures Resolve(pool, kids, Spelled(pool, kids, chain)) == Found(chain[|chain| - 1])
    decreases |chain|, |kids|
  {
    var path, file := Spelled(pool, kids, chain), pool[chain[0]].value;
    if kids[0] == chain[0] {
      if |chain| > 1 {
        var rest := Spelled(pool, file.children, chain[1..]);
        assert path == file.name + "/" + rest;
        assert path[|file.name| + 1..] == rest && path[..|file.name|] == file.name;
        SpelledIsFound(pool, file.children, chain[1..]);
      }
    } else {
      var at :| 0 <= at < |kids| && kids[at] == chain[0];
      assert kids[1..][at - 1] == chain[0];
      assert Chain(pool, kids[1..], chain) && Spelled(pool, kids[1..], chain) == path;
      SpelledIsFound(pool, kids[1..], chain);
      if kids[0] < |pool| && pool[kids[0]].Some? {
        var rest := if |chain| > 1 then Spelled(pool, file.children, chain[1..]) else "";
        OnlyItsName(file.name, rest, pool[kids[0]].value.name, |chain| == 1);
      }
    }
  }

  /** The lookup inverts spelling a path, both ways. */
  lemma LookupInvertsSpelling(pool: Pool, kids: seq<nat>, path: string, i: nat)
    requires Wellnamed(pool) && Distinct(pool, kids)
    ensures Resolve(pool, kids, path) == Found(i)
            <==> exists chain ::
              Chain(pool, kids, chain) && chain[|chain| - 1] == i && Spelled(pool, kids, chain) == path
  {
    if Resolve(pool, kids, path) == Found(i) {
      var chain := FoundIsSpelled(pool, kids, path);
    }
    forall chain | Chain(pool, kids, chain) && chain[|chain| - 1] == i && Spelled(pool, kids, chain) == path
      ensures Resolve(pool, kids, path) == Found(i)
    {
      SpelledIsFound(pool, kids, chain);
    }
  }

  /** As written the lookup goes down only through a slash that is also in the name: names without
      slashes are only compared whole. */
  function ResolveAsWritten(pool: Pool, kids: seq<nat>, path: string): Outcome {
    if kids == [] then NoMatch
    else if kids[0] < |pool| && pool[kids[0]].Some? && pool[kids[0]].value.name == path then Found(kids[0])
    else ResolveAsWritten(pool, kids[1..], path)
  }

  /** So it is right exactly for the paths with no slash, and those that lead nowhere by a name. */
  lemma {:induction false} AsWrittenFindsChildrenOnly(pool: Pool, kids: seq<nat>, path: string)
    requires forall i | 0 <= i < |pool| && pool[i].Some? :: NoSlash(pool[i].value.name)
    ensures ResolveAsWritten(pool, kids, path) == Resolve(pool, kids, path)
            <==> NoSlash(path) || Resolve(pool, kids, path) == NoMatch
    ensures !NoSlash(path) ==> ResolveAsWritten(pool, kids, path) == NoMatch
    decreases |kids|
  {
    if kids != [] {
      AsWrittenFindsChildrenOnly(pool, kids[1..], path);
    }
  }

  /** A path that goes on behind a spelled chain goes on below its last node. */
  lemma {:induction false} SpelledGoesOn(pool: Pool, kids: seq<nat>, chain: seq<nat>, tail: string)
    requires Wellnamed(pool) && Distinct(pool, kids) && Chain(pool, kids, chain)
    ensures chain[|chain| - 1] < |pool| && pool[chain[|chain| - 1]].Some?
    ensures var last := pool[chain[|chain| - 1]].value;
            Resolve(pool, kids, Spelled(pool, kids, chain) + "/" + tail)
            == if last.isDir then Resolve(pool, last.children, tail) else NotADir
    decreases |chain|, |kids|
  {
    var path, file := Spelled(pool, kids, chain) + "/" + tail, pool[chain[0]].value;
    if kids[0] == chain[0] {
      var rest := if |chain| > 1 then Spelled(pool, file.children, chain[1..]) + "/" + tail else tail;
      assert path == file.name + "/" + rest;
      assert path[|file.name| + 1..] == rest && path[..|file.name|] == file.name;
      if |chain| > 1 {
        SpelledGoesOn(pool, file.children, chain[1..], tail);
      }
    } else {
      var at :| 0 <= at < |kids| && kids[at] == chain[0];
      assert kids[1..][at - 1] == chain[0];
      assert Chain(pool, kids[1..], chain) && Spelled(pool, kids[1..], chain) + "/" + tail == path;
      SpelledGoesOn(pool, kids[1..], chain, tail);
      if kids[0] < |pool| && pool[kids[0]].Some? {
        var rest := if |chain| > 1 then Spelled(pool, file.children, chain[1..]) + "/" + tail else tail;
        assert path == file.name + "/" + rest;
        OnlyItsName(file.name, rest, pool[kids[0]].value.name, false);
      }
    }
  }

  /** Where the path goes through a file, a chain to that file is spelled up to a slash. */
  lemma {:induction false} FileIsSpelled(pool: Pool, kids: seq<nat>, path: string) returns (chain: seq<nat>)
    ensures Resolve(pool, kids, path) == NotADir ==> ThroughFile(pool, kids, path, chain)
    decreases |path|, |kids|
  {
    chain := [];
    if kids != [] {
      if kids[0] >= |pool| || pool[kids[0]].None? {
        chain := FileIsSpelled(pool, kids[1..], path);
      } else {
        var test := pool[kids[0]].value;
        if path == test.name {
        } else if StartsWith(path, test.name) {
          chain := [kids[0]];
          if test.isDir {
            var rest := FileIsSpelled(pool, test.children, path[|test.name| + 1..]);
            chain := [kids[0]] + rest;
            assert chain[1..] == rest;
            assert path == test.name + "/" + path[|test.name| + 1..];
          }
        } else {
          chain := FileIsSpelled(pool, kids[1..], path);
        }
      }
    }
  }

  /** The path begins with the spelled chain and a slash, and the chain ends in a file. */
  ghost predicate ThroughFile(pool: Pool, kids: seq<nat>, path: string, chain: seq<nat>) {
    && Chain(pool, kids, chain) && StartsWith(path, Spelled(pool, kids, chain))
    && chain[|chain| - 1] < |pool| && pool[chain[|chain| - 1]].Some? && !pool[chain[|chain| - 1]].value.isDir
  }

  /** The path spells a chain, whole or up to a file. */
  ghost predicate Names(pool: Pool, kids: seq<nat>, path: string, chain: seq<nat>) {
    (Chain(pool, kids, chain) && Spelled(pool, kids, chain) == path) || ThroughFile(pool, kids, path, chain)
  }

  /** A path matches no name exactly when it spells no chain, not even up to a file. */
  lemma UnspelledMatchesNone(pool: Pool, kids: seq<nat>, path: string)
    requires Wellnamed(pool) && Distinct(pool, kids)
    ensures Resolve(pool, kids, path) == NoMatch <==> forall chain :: !Names(pool, kids, path, chain)
  {
    var found := FoundIsSpelled(pool, kids, path);
    var file := FileIsSpelled(pool, kids, path);
    assert Resolve(pool, kids, path) != NoMatch ==> Names(pool, kids, path, found) || Names(pool, kids, path, file);
    forall chain | Names(pool, kids, path, chain) ensures Resolve(pool, kids, path) != NoMatch {
      var spelled := Spelled(pool, kids, chain);
      if spelled == path {
        SpelledIsFound(pool, kids, chain);
      } else {
        assert path == spelled + "/" + path[|spelled| + 1..];
        SpelledGoesOn(pool, kids, chain, path[|spelled| + 1..]);
      }
    }
  }

  /** So the lookup as written is right exactly for the paths with no slash, and those that spell none. */
  lemma AsWrittenRightUnspelled(pool: Pool, kids: seq<nat>, path: string)
    requires Wellnamed(pool) && Distinct(pool, kids)
    ensures ResolveAsWritten(pool, kids, path) == Resolve(pool, kids, path)
            <==> NoSlash(path) || forall chain :: !Names(pool, kids, path, chain)
  {
    AsWrittenFindsChildrenOnly(pool, kids, path);
    UnspelledMatchesNone(pool, kids, path);
  }

  // ----- a mounted partition is found -----

  datatype OnDisk = There(disk: Disk) | NotADirectory | Nothing

  /** The same lookup on the partition itself. */
  function ResolveOnDisk(trees: seq<Disk>, path: string): OnDisk
    decreases |path|, |trees|
  {
    if trees == [] then Nothing
    else if path == trees[0].name then There(trees[0])
    else if StartsWith(path, trees[0].name) then
      if trees[0].isDir then ResolveOnDisk(trees[0].entries, path[|trees[0].name| + 1..]) else NotADirectory
    else ResolveOnDisk(trees[1..], path)
  }

  /** In an inserted tree every path comes to what it comes to on disk: the description with that name,
      kind and partition, or the same error. */
  lemma {:induction false} InsertedPathsResolve(base: Pool, pool: Pool, kids: seq<nat>, trees: seq<Disk>,
      parent: nat, part: nat, path: string)
    requires Represents(base, pool, kids, trees, parent, part)
    ensures match ResolveOnDisk(trees, path)
            case There(disk) =>
              && Resolve(pool, kids, path).Found?
              && var i := Resolve(pool, kids, path).index;
              && i < |pool| && base[i].None? && pool[i].Some?
              && pool[i].value.name == disk.name && pool[i].value.isDir == disk.isDir && pool[i].value.partition == part
            case NotADirectory => Resolve(pool, kids, path) == NotADir
            case Nothing => Resolve(pool, kids, path) == NoMatch
    decreases |path|, |trees|
  {
    if trees != [] && path != trees[0].name {
      if StartsWith(path, trees[0].name) {
        if trees[0].isDir {
          InsertedPathsResolve(base, pool, pool[kids[0]].value.children, trees[0].entries, kids[0], part,
              path[|trees[0].name| + 1..]);
        }
      } else {
        InsertedPathsResolve(base, pool, kids[1..], trees[1..], parent, part, path);
      }
    }
  }

  // ----- the file system -----

  class VirtualFs {
    var descriptions: Pool

    /** `recursive_insert`; false when an allocation fails, which the source does not look at. */
    method RecursiveInsert(dir: nat, trees: seq<Disk>, part: nat) returns (ok: bool)
      requires dir < |descriptions| && descriptions[dir].Some?
      modifies this
      ensures (descriptions, ok) == Insert(old(descriptions), dir, trees, part)
      decreases Size(trees)
    {
      var u := 0;
      while u < |trees|
        invariant u <= |trees| && dir < |descriptions| && descriptions[dir].Some?
        invariant Size(trees[u..]) <= Size(trees)
        invariant Insert(descriptions, dir, trees[u..], part) == Insert(old(descriptions), dir, trees, part)
      {
        ghost var rest := trees[u..];
        assert rest[0] == trees[u] && rest[1..] == trees[u + 1..];
        var slot := FirstUnused(descriptions, 0);
        if slot.None? {
          return false;
        }
        descriptions := Linked(descriptions, dir, slot.value, trees[u], part);
        ok := RecursiveInsert(slot.value, trees[u].Below(), part);
        if !ok {
          return false;
        }
        u := u + 1;
      }
      ok := true;
    }

    /** `mount`: refused when fewer slots are free than `filesNumber` says the partition needs. */
    method Mount(disk: Disk, filesNumber: nat, part: nat) returns (refused: bool, root: nat)
      modifies this
      ensures refused <==> |Unused(old(descriptions))| < filesNumber || FirstUnused(old(descriptions), 0).None?
      ensures refused ==> descriptions == old(descriptions)
      ensures !refused ==> FirstUnused(old(descriptions), 0) == Some(root)
      ensures !refused ==> descriptions == Mounted(old(descriptions), root, disk, part).0
    {
      var free := CountUnused();
      if free < filesNumber {
        return true, 0;
      }
      var slot := FirstUnused(descriptions, 0);
      if slot.None? {
        return true, 0;
      }
      root := slot.value;
      descriptions := WithRoot(descriptions, root, disk, part);
      var ok := RecursiveInsert(root, disk.Below(), part);
      refused := false;
    }

    method CountUnused() returns (n: nat)
      ensures n == |Unused(descriptions)|
    {
      n := 0;
      ghost var seen: set<nat> := {};
      for i := 0 to |descriptions|
        invariant seen == (set k | 0 <= k < i && descriptions[k].None?) && n == |seen|
      {
        if descriptions[i].None? {
          n := n + 1;
          seen := seen + {i};
        }
      }
      assert seen == Unused(descriptions);
    }

    /** `recurse_directories`, called for the children of a directory. */
    method RecurseDirectories(path: string, children: seq<nat>) returns (r: Outcome)
      ensures r == Resolve(descriptions, children, path)
      decreases |path|
    {
      var i := 0;
      while i < |children|
        invariant i <= |children| && Resolve(descriptions, children[i..], path) == Resolve(descriptions, children, path)
      {
        ghost var rest := children[i..];
        assert rest[0] == children[i] && rest[1..] == children[i + 1..];
        if children[i] < |descriptions| && descriptions[children[i]].Some? {
          var test := descriptions[children[i]].value;
          var o := 0;
          while o < |path| && o < |test.name| && path[o] == test.name[o]
            invariant o <= |path| && o <= |test.name| && path[..o] == test.name[..o]
          {
            o := o + 1;
          }
          assert test.name[..|test.name|] == test.name && path[..|path|] == path;
          assert forall j | 0 <= j < |test.name| && StartsWith(path, test.name) :: path[j] == path[..|test.name|][j];
          if o == |test.name| {
            if o == |path| {
              return Found(children[i]);
            }
            if path[o] == '/' {
              if !test.isDir {
                return NotADir;
              }
              r := RecurseDirectories(path[o + 1..], test.children);
              return;
            }
          } else {
            assert !StartsWith(path, test.name);
          }
        }
        i := i + 1;
      }
      r := NoMatch;
    }

    /** `open`, relative to a directory. */
    method Open(path: string, dir: nat) returns (r: Option<Outcome>)
      ensures r.None? <==> dir >= |descriptions| || descriptions[dir].None?
      ensures r.Some? ==> r.value == Resolve(descriptions, descriptions[dir].value.children, path)
    {
      if dir >= |descriptions| || descriptions[dir].None? {
        return None;
      }
      var found := RecurseDirectories(path, descriptions[dir].value.children);
      return Some(found);
    }
  }
}
