/** Drivers, the problems (quirks) they have, the drivers that solve those, and their removal.

    A driver's slots hold quirks, a quirk's slots drivers; a slot may be vacant. Removal walks the
    occupied slots and advances past vacant ones too (the source stays at them for ever, see
    WalkAsWritten). A removed driver's slot among the drivers at the top is freed; like the source it does
    not clear one in a quirk. */
module Modules {
  import opened PageTypes

  datatype Ref = Driver(id: nat) | Quirk(id: nat)

  type Slots = seq<Option<Ref>>

  type Nodes = map<Ref, Slots>

  /** What a driver and all that is below it look like. No part of the kernel. */
  datatype Tree = Tree(root: Ref, below: seq<Tree>)

  ghost function Refs(trees: seq<Tree>): set<Ref> {
    if trees == [] then {} else {trees[0].root} + Refs(trees[0].below) + Refs(trees[1..])
  }

  /** The drivers, or the quirks, in the trees. */
  ghost function Tally(trees: seq<Tree>, drivers: bool): nat {
    if trees == [] then 0
    else
      (if trees[0].root.Driver? == drivers then 1 else 0)
      + Tally(trees[0].below, drivers) + Tally(trees[1..], drivers)
  }

  /** No node is twice in the trees. */
  ghost predicate Separate(trees: seq<Tree>) {
    trees == [] || (
      && trees[0].root !in Refs(trees[0].below) && trees[0].root !in Refs(trees[1..])
      && Refs(trees[0].below) !! Refs(trees[1..])
      && Separate(trees[0].below) && Separate(trees[1..]))
  }

  /** Drivers over quirks over drivers. */
  ghost predicate Alternate(trees: seq<Tree>, drivers: bool) {
    trees == []
    || (trees[0].root.Driver? == drivers && Alternate(trees[0].below, !drivers) && Alternate(trees[1..], drivers))
  }

  /** The occupied slots lead to the trees, in order. */
  ghost predicate Shows(nodes: Nodes, slots: Slots, trees: seq<Tree>)
    decreases trees, |slots|
  {
    if slots == [] then trees == []
    else if slots[0].None? then Shows(nodes, slots[1..], trees)
    else
      && trees != [] && slots[0].value == trees[0].root && trees[0].root in nodes
      && Shows(nodes, nodes[trees[0].root], trees[0].below)
      && Shows(nodes, slots[1..], trees[1..])
  }

  lemma {:induction false} ShowsStays(nodes: Nodes, nodes': Nodes, slots: Slots, trees: seq<Tree>)
    requires Shows(nodes, slots, trees)
    requires forall r | r in Refs(trees) && r in nodes :: r in nodes' && nodes'[r] == nodes[r]
    ensures Shows(nodes', slots, trees)
    decreases trees, |slots|
  {
    if slots != [] {
      if slots[0].None? {
        ShowsStays(nodes, nodes', slots[1..], trees);
      } else {
        ShowsStays(nodes, nodes', nodes[trees[0].root], trees[0].below);
        ShowsStays(nodes, nodes', slots[1..], trees[1..]);
      }
    }
  }

  lemma {:induction false} ShownAreNodes(nodes: Nodes, slots: Slots, trees: seq<Tree>)
    requires Shows(nodes, slots, trees)
    ensures Refs(trees) <= nodes.Keys
    ensures forall i | 0 <= i < |slots| && slots[i].Some? :: slots[i].value in Refs(trees)
    decreases trees, |slots|
  {
    if slots != [] {
      if slots[0].None? {
        ShownAreNodes(nodes, slots[1..], trees);
      } else {
        ShownAreNodes(nodes, nodes[trees[0].root], trees[0].below);
        ShownAreNodes(nodes, slots[1..], trees[1..]);
      }
      assert forall i | 0 < i < |slots| :: slots[i] == slots[1..][i - 1];
    }
  }

  // ----- removal -----

  /** The nodes after removing the trees. */
  ghost function Without(nodes: Nodes, trees: seq<Tree>): Nodes {
    nodes - Refs(trees)
  }

  /** What the removal of trees below `owner` needs. */
  ghost predicate Removable(nodes: Nodes, owner: Ref, slots: Slots, trees: seq<Tree>, drivers: bool) {
    && owner in nodes && owner !in Refs(trees)
    && Shows(nodes, slots, trees) && Separate(trees) && Alternate(trees, drivers)
  }

  /** After the first tree is gone the rest can go. */
  lemma FirstRemoved(nodes: Nodes, owner: Ref, slots: Slots, trees: seq<Tree>, drivers: bool, after: Nodes)
    requires Removable(nodes, owner, slots, trees, drivers) && slots != [] && slots[0].Some?
    requires after == Without(nodes, trees[0].below) - {trees[0].root}
    ensures Removable(after, owner, slots[1..], trees[1..], drivers) && after[owner] == nodes[owner]
    ensures Without(after, trees[1..]) == Without(nodes, trees)
  {
    ShowsStays(nodes, after, slots[1..], trees[1..]);
  }

  // ----- insertion -----

  /** pool_alloc(1) in a quirk's slots: the first vacant one, or one more. */
  function PlaceIn(slots: Slots, r: Ref): Slots {
    if slots == [] then [Some(r)]
    else if slots[0].None? then [Some(r)] + slots[1..]
    else [slots[0]] + PlaceIn(slots[1..], r)
  }

  ghost function Placed(slots: Slots, trees: seq<Tree>, t: Tree): seq<Tree> {
    if slots == [] || trees == [] || slots[0].None? then [t] + trees else [trees[0]] + Placed(slots[1..], trees[1..], t)
  }

  /** The trees with t placed below q. */
  ghost function Graft(nodes: Nodes, trees: seq<Tree>, q: Ref, t: Tree): seq<Tree> {
    if trees == [] then []
    else
      var first := trees[0].root;
      var below :=
        if first == q && q in nodes then Placed(nodes[q], trees[0].below, t)
        else Graft(nodes, trees[0].below, q, t);
      [Tree(first, below)] + Graft(nodes, trees[1..], q, t)
  }

  lemma {:induction false} PlacedShows(nodes: Nodes, slots: Slots, trees: seq<Tree>, t: Tree)
    requires Shows(nodes, slots, trees) && t.root in nodes && Shows(nodes, nodes[t.root], t.below)
    ensures Shows(nodes, PlaceIn(slots, t.root), Placed(slots, trees, t))
    decreases |slots|
  {
    var slots', trees' := PlaceIn(slots, t.root), Placed(slots, trees, t);
    if slots == [] {
      assert trees'[1..] == [] && slots'[1..] == [];
    } else if slots[0].None? {
      assert trees'[1..] == trees && slots'[1..] == slots[1..];
    } else {
      PlacedShows(nodes, slots[1..], trees[1..], t);
      assert trees'[1..] == Placed(slots[1..], trees[1..], t) && slots'[1..] == PlaceIn(slots[1..], t.root);
    }
  }

  lemma {:induction false} PlacedAdds(slots: Slots, trees: seq<Tree>, t: Tree, kind: bool)
    ensures Refs(Placed(slots, trees, t)) == Refs(trees) + Refs([t])
    ensures Tally(Placed(slots, trees, t), kind) == Tally(trees, kind) + Tally([t], kind)
    ensures Separate(trees) && Separate([t]) && Refs(trees) !! Refs([t]) ==> Separate(Placed(slots, trees, t))
    ensures Alternate(trees, kind) && Alternate([t], kind) ==> Alternate(Placed(slots, trees, t), kind)
    decreases |trees|
  {
    var trees' := Placed(slots, trees, t);
    assert [t][1..] == [];
    if slots == [] || trees == [] || slots[0].None? {
      assert trees'[1..] == trees;
    } else {
      PlacedAdds(slots[1..], trees[1..], t, kind);
      assert trees'[1..] == Placed(slots[1..], trees[1..], t);
    }
  }

  /** The nodes after t was placed below q. */
  ghost predicate GrownBy(nodes: Nodes, q: Ref, t: Tree, nodes': Nodes) {
    && q in nodes && q in nodes' && nodes'[q] == PlaceIn(nodes[q], t.root)
    && (forall r | r in nodes && r != q :: r in nodes' && nodes'[r] == nodes[r])
    && t.root in nodes' && Shows(nodes', nodes'[t.root], t.below)
  }

  lemma {:induction false} GraftShows(nodes: Nodes, slots: Slots, trees: seq<Tree>, q: Ref, t: Tree, nodes': Nodes)
    requires Shows(nodes, slots, trees) && Separate(trees) && GrownBy(nodes, q, t, nodes')
    ensures Shows(nodes', slots, Graft(nodes, trees, q, t))
    decreases trees, |slots|
  {
    if slots != [] {
      if slots[0].None? {
        GraftShows(nodes, slots[1..], trees, q, t, nodes');
      } else {
        var first, trees' := trees[0].root, Graft(nodes, trees, q, t);
        if first == q {
          ShowsStays(nodes, nodes', nodes[q], trees[0].below);
          PlacedShows(nodes', nodes[q], trees[0].below, t);
        } else {
          GraftShows(nodes, nodes[first], trees[0].below, q, t, nodes');
        }
        GraftShows(nodes, slots[1..], trees[1..], q, t, nodes');
        assert trees'[1..] == Graft(nodes, trees[1..], q, t);
      }
    }
  }

  lemma {:induction false} GraftMisses(nodes: Nodes, trees: seq<Tree>, q: Ref, t: Tree)
    requires q !in Refs(trees)
    ensures Graft(nodes, trees, q, t) == trees
  {
    if trees != [] {
      GraftMisses(nodes, trees[0].below, q, t);
      GraftMisses(nodes, trees[1..], q, t);
    }
  }

  lemma {:induction false} GraftRefs(nodes: Nodes, trees: seq<Tree>, q: Ref, t: Tree)
    requires Separate(trees) && q in Refs(trees) && q in nodes
    ensures Refs(Graft(nodes, trees, q, t)) == Refs(trees) + Refs([t])
    decreases trees
  {
    assert Graft(nodes, trees, q, t)[1..] == Graft(nodes, trees[1..], q, t);
    if q == trees[0].root {
      GraftMisses(nodes, trees[1..], q, t);
      PlacedAdds(nodes[q], trees[0].below, t, true);
    } else if q in Refs(trees[0].below) {
      GraftRefs(nodes, trees[0].below, q, t);
      GraftMisses(nodes, trees[1..], q, t);
    } else {
      GraftMisses(nodes, trees[0].below, q, t);
      GraftRefs(nodes, trees[1..], q, t);
    }
  }

  lemma {:induction false} GraftTallies(nodes: Nodes, trees: seq<Tree>, q: Ref, t: Tree, kind: bool)
    requires Separate(trees) && q in Refs(trees) && q in nodes
    ensures Tally(Graft(nodes, trees, q, t), kind) == Tally(trees, kind) + Tally([t], kind)
    decreases trees
  {
    assert Graft(nodes, trees, q, t)[1..] == Graft(nodes, trees[1..], q, t);
    if q == trees[0].root {
      GraftMisses(nodes, trees[1..], q, t);
      PlacedAdds(nodes[q], trees[0].below, t, kind);
    } else if q in Refs(trees[0].below) {
      GraftTallies(nodes, trees[0].below, q, t, kind);
      GraftMisses(nodes, trees[1..], q, t);
    } else {
      GraftMisses(nodes, trees[0].below, q, t);
      GraftTallies(nodes, trees[1..], q, t, kind);
    }
  }

  lemma {:induction false} GraftSeparate(nodes: Nodes, trees: seq<Tree>, q: Ref, t: Tree)
    requires Separate(trees) && Separate([t]) && Refs(trees) !! Refs([t]) && q in Refs(trees) && q in nodes
    ensures Separate(Graft(nodes, trees, q, t))
    decreases trees
  {
    assert Graft(nodes, trees, q, t)[1..] == Graft(nodes, trees[1..], q, t);
    if q == trees[0].root {
      GraftMisses(nodes, trees[1..], q, t);
      PlacedAdds(nodes[q], trees[0].below, t, true);
    } else if q in Refs(trees[0].below) {
      GraftRefs(nodes, trees[0].below, q, t);
      GraftSeparate(nodes, trees[0].below, q, t);
      GraftMisses(nodes, trees[1..], q, t);
    } else {
      GraftMisses(nodes, trees[0].below, q, t);
      GraftRefs(nodes, trees[1..], q, t);
      GraftSeparate(nodes, trees[1..], q, t);
    }
  }

  lemma {:induction false} GraftAlternates(nodes: Nodes, trees: seq<Tree>, q: Ref, t: Tree, kind: bool)
    requires Alternate(trees, kind) && q.Quirk? && Alternate([t], true) && q in nodes
    ensures Alternate(Graft(nodes, trees, q, t), kind)
    decreases trees
  {
    if trees != [] {
      GraftAlternates(nodes, trees[0].below, q, t, !kind);
      GraftAlternates(nodes, trees[1..], q, t, kind);
      PlacedAdds(nodes[q], trees[0].below, t, true);
      assert Graft(nodes, trees, q, t)[1..] == Graft(nodes, trees[1..], q, t);
    }
  }

  /** What insertion makes and removal takes apart: the drivers at the top, in `tops`, and all below. */
  ghost predicate Forest(nodes: Nodes, tops: Slots, trees: seq<Tree>) {
    Shows(nodes, tops, trees) && Separate(trees) && Alternate(trees, true) && Refs(trees) == nodes.Keys
  }

  function WithQuirks(nodes: Nodes, problems: seq<Ref>): Nodes {
    if problems == [] then nodes else WithQuirks(nodes, problems[..|problems| - 1])[problems[|problems| - 1] := []]
  }

  function Occupied(problems: seq<Ref>): (r: Slots)
    ensures |r| == |problems| && forall i | 0 <= i < |problems| :: r[i] == Some(problems[i])
  {
    seq(|problems|, i requires 0 <= i < |problems| => Some(problems[i]))
  }

  /** The nodes with a new driver and its problems, none of them solved. */
  function Loaded(nodes: Nodes, d: Ref, problems: seq<Ref>): Nodes {
    WithQuirks(nodes, problems)[d := Occupied(problems)]
  }

  lemma {:induction false} WithQuirksAdds(nodes: Nodes, problems: seq<Ref>)
    ensures WithQuirks(nodes, problems).Keys == nodes.Keys + set q | q in problems
    ensures forall r | r in WithQuirks(nodes, problems) ::
              WithQuirks(nodes, problems)[r] == if r in problems then [] else nodes[r]
  {
    if problems != [] {
      var last := |problems| - 1;
      WithQuirksAdds(nodes, problems[..last]);
      assert problems == problems[..last] + [problems[last]];
    }
  }

  ghost function Leaves(problems: seq<Ref>): (r: seq<Tree>)
    ensures |r| == |problems|
  {
    if problems == [] then [] else [Tree(problems[0], [])] + Leaves(problems[1..])
  }

  predicate New(nodes: Nodes, d: Ref, problems: seq<Ref>) {
    && d.Driver? && d !in nodes
    && (forall i | 0 <= i < |problems| :: problems[i].Quirk? && problems[i] !in nodes)
    && (forall i, j | 0 <= i < j < |problems| :: problems[i] != problems[j])
  }

  lemma {:induction false} LeavesShow(nodes: Nodes, problems: seq<Ref>, slots: Slots)
    requires |slots| == |problems| && forall i | 0 <= i < |problems| :: slots[i] == Some(problems[i])
    requires forall i | 0 <= i < |problems| :: problems[i].Quirk? && problems[i] in nodes && nodes[problems[i]] == []
    requires forall i, j | 0 <= i < j < |problems| :: problems[i] != problems[j]
    ensures Shows(nodes, slots, Leaves(problems)) && Separate(Leaves(problems)) && Alternate(Leaves(problems), false)
    ensures Refs(Leaves(problems)) == set q | q in problems
    ensures Tally(Leaves(problems), true) == 0 && Tally(Leaves(problems), false) == |problems|
    decreases |problems|
  {
    if problems != [] {
      LeavesShow(nodes, problems[1..], slots[1..]);
      assert Leaves(problems)[1..] == Leaves(problems[1..]);
    }
  }

  lemma LoadedNodes(nodes: Nodes, d: Ref, problems: seq<Ref>)
    requires New(nodes, d, problems)
    ensures var nodes' := Loaded(nodes, d, problems);
            && nodes'.Keys == nodes.Keys + {d} + (set q | q in problems)
            && nodes'[d] == Occupied(problems)
            && (forall i | 0 <= i < |problems| :: nodes'[problems[i]] == [])
            && (forall r | r in nodes :: nodes'[r] == nodes[r])
  {
    WithQuirksAdds(nodes, problems);
    assert forall i | 0 <= i < |problems| :: problems[i] in problems && problems[i] != d;
    assert forall r | r in nodes :: r != d && r !in problems;
  }

  lemma LoadedShows(nodes: Nodes, d: Ref, problems: seq<Ref>)
    requires New(nodes, d, problems)
    ensures var nodes', t := Loaded(nodes, d, problems), Tree(d, Leaves(problems));
            && d in nodes' && Shows(nodes', nodes'[d], t.below) && nodes'.Keys == nodes.Keys + Refs([t])
            && (forall r | r in nodes :: nodes'[r] == nodes[r])
  {
    LoadedNodes(nodes, d, problems);
    var nodes' := Loaded(nodes, d, problems);
    forall i | 0 <= i < |problems| ensures problems[i] in nodes' {
      assert problems[i] in set q | q in problems;
    }
    LeavesShow(nodes', problems, nodes'[d]);
    Alone(Tree(d, Leaves(problems)), true);
  }

  /** A new driver's tree shares no node with what was there. */
  lemma LoadedIsNew(nodes: Nodes, d: Ref, problems: seq<Ref>)
    requires New(nodes, d, problems)
    ensures var t := Tree(d, Leaves(problems));
            && Separate([t]) && Alternate([t], true) && Refs([t]) !! nodes.Keys
            && Tally([t], true) == 1 && Tally([t], false) == |problems|
  {
    LoadedNodes(nodes, d, problems);
    var nodes' := Loaded(nodes, d, problems);
    forall i | 0 <= i < |problems| ensures problems[i] in nodes' {
      assert problems[i] in set q | q in problems;
    }
    LeavesShow(nodes', problems, nodes'[d]);
    Alone(Tree(d, Leaves(problems)), true);
    Alone(Tree(d, Leaves(problems)), false);
  }

  lemma Alone(t: Tree, kind: bool)
    ensures Refs([t]) == {t.root} + Refs(t.below)
    ensures Tally([t], kind) == (if t.root.Driver? == kind then 1 else 0) + Tally(t.below, kind)
    ensures Separate([t]) <==> t.root !in Refs(t.below) && Separate(t.below)
    ensures Alternate([t], kind) <==> t.root.Driver? == kind && Alternate(t.below, !kind)
  {
    assert [t][1..] == [];
  }

  /** Inserting a driver as a solution of a quirk keeps the forest one, with the driver and its problems
      in it. */
  lemma InsertKeepsForest(nodes: Nodes, tops: Slots, trees: seq<Tree>, q: Ref, d: Ref, problems: seq<Ref>,
      nodes': Nodes)
    requires Forest(nodes, tops, trees) && q.Quirk? && q in nodes && New(nodes, d, problems)
    requires nodes' == Loaded(nodes, d, problems)[q := PlaceIn(nodes[q], d)]
    ensures var t := Tree(d, Leaves(problems));
            && Forest(nodes', tops, Graft(nodes, trees, q, t))
            && Tally(Graft(nodes, trees, q, t), true) == Tally(trees, true) + 1
            && Tally(Graft(nodes, trees, q, t), false) == Tally(trees, false) + |problems|
  {
    var loaded, t := Loaded(nodes, d, problems), Tree(d, Leaves(problems));
    LoadedShows(nodes, d, problems);
    LoadedIsNew(nodes, d, problems);
    Alone(t, true);
    ShowsStays(loaded, nodes', loaded[d], t.below);
    GraftShows(nodes, tops, trees, q, t, nodes');
    GraftRefs(nodes, trees, q, t);
    GraftTallies(nodes, trees, q, t, true);
    GraftTallies(nodes, trees, q, t, false);
    GraftSeparate(nodes, trees, q, t);
    GraftAlternates(nodes, trees, q, t, true);
  }

  lemma TopAdded(nodes: Nodes, tops: Slots, trees: seq<Tree>, t: Tree, nodes': Nodes)
    requires Forest(nodes, tops, trees) && Separate([t]) && Alternate([t], true) && Refs([t]) !! nodes.Keys
    requires t.root in nodes' && Shows(nodes', nodes'[t.root], t.below) && nodes'.Keys == nodes.Keys + Refs([t])
    requires forall r | r in nodes :: nodes'[r] == nodes[r]
    ensures Forest(nodes', [Some(t.root)] + tops, [t] + trees)
  {
    ShowsStays(nodes, nodes', tops, trees);
  }

  lemma InsertTopKeepsForest(nodes: Nodes, tops: Slots, trees: seq<Tree>, d: Ref, problems: seq<Ref>)
    requires Forest(nodes, tops, trees) && New(nodes, d, problems)
    ensures Forest(Loaded(nodes, d, problems), [Some(d)] + tops, [Tree(d, Leaves(problems))] + trees)
    ensures Tally([Tree(d, Leaves(problems))] + trees, true) == Tally(trees, true) + 1
    ensures Tally([Tree(d, Leaves(problems))] + trees, false) == Tally(trees, false) + |problems|
  {
    var t := Tree(d, Leaves(problems));
    LoadedShows(nodes, d, problems);
    LoadedIsNew(nodes, d, problems);
    TopAdded(nodes, tops, trees, t, Loaded(nodes, d, problems));
  }

  // ----- finding the quirk a module is for -----

  /** `recurse_modules` below the driver it has found by name: down the slots that the header lists. The
      source lets a slot one past the end through and does not ask whether it is vacant. */
  function Descend(nodes: Nodes, rel: Ref, types: seq<nat>): Option<Ref>
    decreases |types|
  {
    if types == [] then Some(rel)
    else if rel !in nodes || types[0] >= |nodes[rel]| || nodes[rel][types[0]].None? then None
    else Descend(nodes, nodes[rel][types[0]].value, types[1..])
  }

  /** A way down: each node's slot that the header lists leads to the next. */
  ghost predicate LeadsDown(nodes: Nodes, types: seq<nat>, way: seq<Ref>) {
    && |way| == |types| + 1
    && forall i | 0 <= i < |types| ::
         way[i] in nodes && types[i] < |nodes[way[i]]| && nodes[way[i]][types[i]] == Some(way[i + 1])
  }

  lemma {:induction false} WayDown(nodes: Nodes, rel: Ref, types: seq<nat>) returns (way: seq<Ref>)
    ensures Descend(nodes, rel, types).Some? ==>
              LeadsDown(nodes, types, way) && way[0] == rel && way[|types|] == Descend(nodes, rel, types).value
    decreases |types|
  {
    way := [rel];
    if types != [] && rel in nodes && types[0] < |nodes[rel]| && nodes[rel][types[0]].Some? {
      var rest := WayDown(nodes, nodes[rel][types[0]].value, types[1..]);
      way := [rel] + rest;
      assert way[1..] == rest;
    }
  }

  lemma {:induction false} DownTheWay(nodes: Nodes, types: seq<nat>, way: seq<Ref>)
    requires LeadsDown(nodes, types, way)
    ensures Descend(nodes, way[0], types) == Some(way[|types|])
    decreases |types|
  {
    if types != [] {
      assert LeadsDown(nodes, types[1..], way[1..]);
      DownTheWay(nodes, types[1..], way[1..]);
    }
  }

  /** What recurse_modules comes to is at the end of that way, and it comes to nothing where there is none. */
  lemma DescendFollows(nodes: Nodes, rel: Ref, types: seq<nat>, r: Ref)
    ensures Descend(nodes, rel, types) == Some(r)
            <==> exists way :: LeadsDown(nodes, types, way) && way[0] == rel && way[|types|] == r
  {
    var down := WayDown(nodes, rel, types);
    forall way | LeadsDown(nodes, types, way) && way[0] == rel && way[|types|] == r
      ensures Descend(nodes, rel, types) == Some(r)
    {
      DownTheWay(nodes, types, way);
    }
  }

  /** A solution goes to the first vacant slot, or to a new one behind the last; no other slot changes. */
  lemma {:induction false} PlacedFirst(slots: Slots, r: Ref) returns (k: nat)
    ensures k <= |slots| && (forall j | 0 <= j < k :: slots[j].Some?) && (k < |slots| ==> slots[k].None?)
    ensures PlaceIn(slots, r) == if k < |slots| then slots[k := Some(r)] else slots + [Some(r)]
  {
    if slots == [] || slots[0].None? {
      k := 0;
    } else {
      k := PlacedFirst(slots[1..], r);
      k := k + 1;
      assert slots == [slots[0]] + slots[1..];
    }
  }

  /** A driver's slots hold quirks, a quirk's drivers. */
  lemma {:induction false} SlotsAlternate(nodes: Nodes, slots: Slots, trees: seq<Tree>, kind: bool, a: Ref, i: nat)
    requires Shows(nodes, slots, trees) && Alternate(trees, kind) && a in Refs(trees)
    requires a in nodes && i < |nodes[a]| && nodes[a][i].Some?
    ensures nodes[a][i].value.Driver? != a.Driver?
    decreases trees, |slots|
  {
    if slots[0].None? {
      SlotsAlternate(nodes, slots[1..], trees, kind, a, i);
    } else if a == trees[0].root {
      TopsAreOfKind(nodes, nodes[a], trees[0].below, !kind, i);
    } else if a in Refs(trees[0].below) {
      SlotsAlternate(nodes, nodes[trees[0].root], trees[0].below, !kind, a, i);
    } else {
      SlotsAlternate(nodes, slots[1..], trees[1..], kind, a, i);
    }
  }

  lemma {:induction false} TopsAreOfKind(nodes: Nodes, slots: Slots, trees: seq<Tree>, kind: bool, i: nat)
    requires Shows(nodes, slots, trees) && Alternate(trees, kind) && i < |slots| && slots[i].Some?
    ensures slots[i].value.Driver? == kind
    decreases |slots|
  {
    if slots[0].None? {
      TopsAreOfKind(nodes, slots[1..], trees, kind, i - 1);
    } else if i > 0 {
      TopsAreOfKind(nodes, slots[1..], trees[1..], kind, i - 1);
    }
  }

  /** From a driver an odd number of slots leads to a quirk, an even one to a driver; and to one that is
      there. */
  lemma {:induction false} DescendAlternates(nodes: Nodes, tops: Slots, trees: seq<Tree>, rel: Ref, types: seq<nat>)
    requires Forest(nodes, tops, trees) && rel in nodes && Descend(nodes, rel, types).Some?
    ensures var r := Descend(nodes, rel, types).value;
            r in nodes && (r.Driver? <==> (rel.Driver? <==> |types| % 2 == 0))
    decreases |types|
  {
    if types != [] {
      SlotsAlternate(nodes, tops, trees, true, rel, types[0]);
      SlotsStayInside(nodes, tops, trees, rel, types[0]);
      DescendAlternates(nodes, tops, trees, nodes[rel][types[0]].value, types[1..]);
    }
  }

  // ----- removing a driver from the forest -----

  ghost function Sub(trees: seq<Tree>, d: Ref): Tree
    requires d in Refs(trees)
  {
    if trees[0].root == d then trees[0]
    else if d in Refs(trees[0].below) then Sub(trees[0].below, d)
    else Sub(trees[1..], d)
  }

  lemma {:induction false} SubIsRemovable(nodes: Nodes, slots: Slots, trees: seq<Tree>, d: Ref, kind: bool)
    requires Shows(nodes, slots, trees) && Separate(trees) && Alternate(trees, kind) && d in Refs(trees)
    ensures var t := Sub(trees, d);
            t.root == d && d in nodes && Removable(nodes, d, nodes[d], t.below, !d.Driver?)
                && Refs(t.below) <= Refs(trees)
    decreases trees, |slots|
  {
    if slots[0].None? {
      SubIsRemovable(nodes, slots[1..], trees, d, kind);
    } else if trees[0].root == d {
    } else if d in Refs(trees[0].below) {
      SubIsRemovable(nodes, nodes[trees[0].root], trees[0].below, d, !kind);
    } else {
      SubIsRemovable(nodes, slots[1..], trees[1..], d, kind);
    }
  }

  /** Slots lead only to nodes of the same trees. */
  lemma {:induction false} SlotsStayInside(nodes: Nodes, slots: Slots, trees: seq<Tree>, a: Ref, i: nat)
    requires Shows(nodes, slots, trees) && a in Refs(trees) && a in nodes && i < |nodes[a]| && nodes[a][i].Some?
    ensures nodes[a][i].value in Refs(trees)
    decreases trees, |slots|
  {
    if slots[0].None? {
      SlotsStayInside(nodes, slots[1..], trees, a, i);
    } else if a == trees[0].root {
      ShownAreNodes(nodes, nodes[a], trees[0].below);
    } else if a in Refs(trees[0].below) {
      SlotsStayInside(nodes, nodes[trees[0].root], trees[0].below, a, i);
    } else {
      SlotsStayInside(nodes, slots[1..], trees[1..], a, i);
    }
  }

  /** From outside, slots lead to the root of a part and to nothing below it. */
  lemma {:induction false} OnlyRootIsReached(nodes: Nodes, slots: Slots, trees: seq<Tree>, d: Ref, a: Ref, i: nat)
    requires Shows(nodes, slots, trees) && Separate(trees) && d in Refs(trees) && a in Refs(trees)
    requires a != d && a !in Refs(Sub(trees, d).below) && a in nodes && i < |nodes[a]| && nodes[a][i].Some?
    ensures nodes[a][i].value !in Refs(Sub(trees, d).below)
    decreases trees, |slots|
  {
    if slots[0].None? {
      OnlyRootIsReached(nodes, slots[1..], trees, d, a, i);
    } else {
      var first, below, rest := trees[0].root, trees[0].below, trees[1..];
      SubInside(trees, d);
      if a in Refs(rest) {
        SlotsStayInside(nodes, slots[1..], rest, a, i);
        if d in Refs(rest) {
          OnlyRootIsReached(nodes, slots[1..], rest, d, a, i);
        }
      } else if a == first {
        ShownAreNodes(nodes, nodes[first], below);
        if d in Refs(below) {
          TopsAreNotBelow(nodes, nodes[first], below, d, i);
        }
      } else {
        SlotsStayInside(nodes, nodes[first], below, a, i);
        if d in Refs(below) {
          OnlyRootIsReached(nodes, nodes[first], below, d, a, i);
        }
      }
    }
  }

  lemma {:induction false} SubInside(trees: seq<Tree>, d: Ref)
    requires d in Refs(trees)
    ensures Refs(Sub(trees, d).below) <= Refs(trees)
    ensures d in Refs(trees[0].below) && d != trees[0].root ==> Refs(Sub(trees, d).below) <= Refs(trees[0].below)
    ensures d !in Refs(trees[0].below) && d != trees[0].root ==> Refs(Sub(trees, d).below) <= Refs(trees[1..])
  {
    if trees[0].root == d {
    } else if d in Refs(trees[0].below) {
      SubInside(trees[0].below, d);
    } else {
      SubInside(trees[1..], d);
    }
  }

  lemma {:induction false} TopsAreNotBelow(nodes: Nodes, slots: Slots, trees: seq<Tree>, d: Ref, i: nat)
    requires Shows(nodes, slots, trees) && Separate(trees) && d in Refs(trees) && i < |slots| && slots[i].Some?
    ensures slots[i].value !in Refs(Sub(trees, d).below)
    decreases |slots|
  {
    if slots[0].None? {
      TopsAreNotBelow(nodes, slots[1..], trees, d, i - 1);
    } else {
      SubInside(trees, d);
      ShownAreNodes(nodes, slots[1..], trees[1..]);
      if i > 0 {
        assert slots[i] == slots[1..][i - 1];
        if d !in Refs(trees[0].below) && d != trees[0].root {
          TopsAreNotBelow(nodes, slots[1..], trees[1..], d, i - 1);
        }
      }
    }
  }

  /** Every occupied slot leads to a node. */
  ghost predicate Closed(nodes: Nodes) {
    forall a, i | a in nodes && 0 <= i < |nodes[a]| && nodes[a][i].Some? :: nodes[a][i].value in nodes
  }

  /** Nothing leads to the root of a tree from inside the trees. */
  lemma {:induction false} RootsAreNotReached(nodes: Nodes, slots: Slots, trees: seq<Tree>, a: Ref, i: nat, k: nat)
    requires Shows(nodes, slots, trees) && Separate(trees) && a in Refs(trees) && k < |trees|
    requires a in nodes && i < |nodes[a]| && nodes[a][i].Some?
    ensures nodes[a][i].value != trees[k].root
    decreases trees, |slots|
  {
    if slots[0].None? {
      RootsAreNotReached(nodes, slots[1..], trees, a, i, k);
    } else {
      var first, below, rest := trees[0].root, trees[0].below, trees[1..];
      RootIsIn(trees, k);
      if k > 0 {
        RootIsIn(rest, k - 1);
      }
      if a in Refs(rest) {
        SlotsStayInside(nodes, slots[1..], rest, a, i);
        if k > 0 {
          RootsAreNotReached(nodes, slots[1..], rest, a, i, k - 1);
        }
      } else if a == first {
        ShownAreNodes(nodes, nodes[first], below);
      } else {
        SlotsStayInside(nodes, nodes[first], below, a, i);
      }
    }
  }

  lemma {:induction false} RootIsIn(trees: seq<Tree>, k: nat)
    requires k < |trees|
    ensures trees[k].root in Refs(trees)
  {
    if k > 0 {
      RootIsIn(trees[1..], k - 1);
    }
  }

  lemma {:induction false} TopIsRoot(nodes: Nodes, slots: Slots, trees: seq<Tree>, d: Ref) returns (k: nat)
    requires Shows(nodes, slots, trees) && Some(d) in slots
    ensures k < |trees| && trees[k].root == d
    decreases |slots|
  {
    if slots[0].None? {
      assert Some(d) in slots[1..];
      k := TopIsRoot(nodes, slots[1..], trees, d);
    } else if slots[0].value == d {
      k := 0;
    } else {
      assert Some(d) in slots[1..];
      k := TopIsRoot(nodes, slots[1..], trees[1..], d);
      k := k + 1;
    }
  }

  /** What is not at the top is in a slot of a node outside its own part. */
  lemma {:induction false} HasParent(nodes: Nodes, slots: Slots, trees: seq<Tree>, d: Ref) returns (a: Ref)
    requires Shows(nodes, slots, trees) && Separate(trees) && d in Refs(trees) && Some(d) !in slots
    ensures a in Refs(trees) && a in nodes && Some(d) in nodes[a] && a != d && a !in Refs(Sub(trees, d).below)
    decreases trees, |slots|
  {
    SubInside(trees, d);
    if slots[0].None? {
      a := HasParent(nodes, slots[1..], trees, d);
    } else {
      var first, below, rest := trees[0].root, trees[0].below, trees[1..];
      assert slots[0] != Some(d);
      if d in Refs(below) {
        if Some(d) in nodes[first] {
          a := first;
        } else {
          a := HasParent(nodes, nodes[first], below, d);
        }
      } else {
        a := HasParent(nodes, slots[1..], rest, d);
      }
    }
  }

  /** A driver removed on its own leaves no slot leading nowhere exactly when it is one at the top:
      removing the solution of a problem leaves the problem's slot. */
  lemma RemovalDangles(nodes: Nodes, tops: Slots, trees: seq<Tree>, d: Ref)
    requires Forest(nodes, tops, trees) && d in nodes
    ensures Closed(Without(nodes, Sub(trees, d).below) - {d}) <==> Some(d) in tops
  {
    var after: Nodes := Without(nodes, Sub(trees, d).below) - {d};
    if Some(d) in tops {
      var k := TopIsRoot(nodes, tops, trees, d);
      forall a, i | a in after && 0 <= i < |after[a]| && after[a][i].Some? ensures after[a][i].value in after {
        SlotsStayInside(nodes, tops, trees, a, i);
        OnlyRootIsReached(nodes, tops, trees, d, a, i);
        RootsAreNotReached(nodes, tops, trees, a, i, k);
      }
    } else {
      var a := HasParent(nodes, tops, trees, d);
      var i :| 0 <= i < |nodes[a]| && nodes[a][i] == Some(d);
      assert a in after && after[a][i].value !in after;
    }
  }

  /** The slots at the top once the driver's is free. */
  ghost function Vacated(slots: Slots, d: Ref): (r: Slots)
    ensures |r| == |slots|
    ensures forall i | 0 <= i < |slots| :: r[i] == if slots[i] == Some(d) then None else slots[i]
  {
    seq(|slots|, i requires 0 <= i < |slots| => if slots[i] == Some(d) then None else slots[i])
  }

  /** The trees but for the one with that root. */
  ghost function Cut(trees: seq<Tree>, d: Ref): seq<Tree> {
    if trees == [] then []
    else if trees[0].root == d then trees[1..]
    else [trees[0]] + Cut(trees[1..], d)
  }

  lemma {:induction false} CutShows(nodes: Nodes, slots: Slots, trees: seq<Tree>, d: Ref)
    requires Shows(nodes, slots, trees) && Separate(trees) && Some(d) in slots
    ensures Shows(nodes, Vacated(slots, d), Cut(trees, d))
    decreases |slots|
  {
    var slots' := Vacated(slots, d);
    assert slots'[1..] == Vacated(slots[1..], d);
    if slots[0].None? {
      assert Some(d) in slots[1..];
      CutShows(nodes, slots[1..], trees, d);
    } else if slots[0].value == d {
      ShownAreNodes(nodes, slots[1..], trees[1..]);
      assert slots'[1..] == slots[1..];
    } else {
      assert Some(d) in slots[1..];
      CutShows(nodes, slots[1..], trees[1..], d);
      assert Cut(trees, d)[1..] == Cut(trees[1..], d);
    }
  }

  /** What is cut is the driver's part, what is left all the rest. */
  lemma {:induction false} CutLeaves(trees: seq<Tree>, d: Ref, k: nat, kind: bool)
    requires Separate(trees) && Alternate(trees, true) && k < |trees| && trees[k].root == d
    ensures d in Refs(trees) && Refs(Cut(trees, d)) == Refs(trees) - Refs(Sub(trees, d).below) - {d}
    ensures Separate(Cut(trees, d)) && Alternate(Cut(trees, d), true)
    ensures Tally(Cut(trees, d), kind) == Tally(trees, kind) - Tally([Sub(trees, d)], kind)
    decreases |trees|
  {
    RootIsIn(trees, k);
    if k == 0 {
      assert [trees[0]][1..] == [];
    } else {
      RootIsIn(trees[1..], k - 1);
      CutLeaves(trees[1..], d, k - 1, kind);
      SubInside(trees[1..], d);
      assert Cut(trees, d)[1..] == Cut(trees[1..], d);
    }
  }

  /** A driver at the top can be removed and leaves a forest, for insertion and removal to go on with. */
  lemma RemovalKeepsForest(nodes: Nodes, tops: Slots, trees: seq<Tree>, d: Ref)
    requires Forest(nodes, tops, trees) && Some(d) in tops
    ensures d in Refs(trees)
    ensures Forest(Without(nodes, Sub(trees, d).below) - {d}, Vacated(tops, d), Cut(trees, d))
    ensures forall kind :: Tally(Cut(trees, d), kind) == Tally(trees, kind) - Tally([Sub(trees, d)], kind)
  {
    var k := TopIsRoot(nodes, tops, trees, d);
    CutLeaves(trees, d, k, true);
    CutLeaves(trees, d, k, false);
    CutShows(nodes, tops, trees, d);
    ShowsStays(nodes, Without(nodes, Sub(trees, d).below) - {d}, Vacated(tops, d), Cut(trees, d));
  }

  class Kings {
    var nodes: Nodes
    var driverCount: int
    var fileCount: int
    var quirkCount: int
    ghost var tops: Slots
    ghost var trees: seq<Tree>

    /** `quirkrm`. */
    method Quirkrm(unborn: Ref, ghost below: seq<Tree>)
      requires unborn.Quirk? && unborn in nodes && Removable(nodes, unborn, nodes[unborn], below, true)
      modifies this`nodes, this`driverCount, this`fileCount, this`quirkCount
      ensures nodes == Without(old(nodes), below) - {unborn}
      ensures driverCount == old(driverCount) - Tally(below, true) && fileCount == old(fileCount) - Tally(below, true)
      ensures quirkCount == old(quirkCount) - Tally(below, false) - 1
      decreases below
    {
      var pool := nodes[unborn];
      ghost var rest, k := below, 0;
      for i := 0 to |pool|
        invariant k <= |below| && rest == below[k..]
        invariant Removable(nodes, unborn, pool[i..], rest, true)
        invariant Without(nodes, rest) == Without(old(nodes), below)
        invariant driverCount - Tally(rest, true) == old(driverCount) - Tally(below, true)
        invariant fileCount - Tally(rest, true) == old(fileCount) - Tally(below, true)
        invariant quirkCount - Tally(rest, false) == old(quirkCount) - Tally(below, false)
      {
        assert pool[i..][0] == pool[i] && pool[i..][1..] == pool[i + 1..];
        if pool[i].Some? {
          ghost var before := nodes;
          Modrm(pool[i].value, rest[0].below);
          FirstRemoved(before, unborn, pool[i..], rest, true, nodes);
          rest, k := rest[1..], k + 1;
        }
      }
      nodes := nodes - {unborn};
      quirkCount := quirkCount - 1;
    }

    /** `modrm`: releases the driver, and every driver and quirk below it, once each, and nothing else. */
    method Modrm(unborn: Ref, ghost below: seq<Tree>)
      requires unborn.Driver? && unborn in nodes && Removable(nodes, unborn, nodes[unborn], below, false)
      modifies this`nodes, this`driverCount, this`fileCount, this`quirkCount
      ensures nodes == Without(old(nodes), below) - {unborn}
      ensures driverCount == old(driverCount) - Tally(below, true) - 1
              && fileCount == old(fileCount) - Tally(below, true) - 1
      ensures quirkCount == old(quirkCount) - Tally(below, false)
      decreases below
    {
      var pool := nodes[unborn];
      ghost var rest, k := below, 0;
      for i := 0 to |pool|
        invariant k <= |below| && rest == below[k..]
        invariant Removable(nodes, unborn, pool[i..], rest, false)
        invariant Without(nodes, rest) == Without(old(nodes), below)
        invariant driverCount - Tally(rest, true) == old(driverCount) - Tally(below, true)
        invariant fileCount - Tally(rest, true) == old(fileCount) - Tally(below, true)
        invariant quirkCount - Tally(rest, false) == old(quirkCount) - Tally(below, false)
      {
        assert pool[i..][0] == pool[i] && pool[i..][1..] == pool[i + 1..];
        if pool[i].Some? {
          ghost var before := nodes;
          Quirkrm(pool[i].value, rest[0].below);
          FirstRemoved(before, unborn, pool[i..], rest, false, nodes);
          rest, k := rest[1..], k + 1;
        }
      }
      nodes := nodes - {unborn};
      fileCount, driverCount := fileCount - 1, driverCount - 1;
    }

    ghost predicate Valid()
      reads this
    {
      && Forest(nodes, tops, trees)
      && driverCount == fileCount == Tally(trees, true) && quirkCount == Tally(trees, false)
    }

    /** The records `modinsert` adds: a driver at the top, with a quirk for each of its problems. */
    method InsertDriver(d: Ref, problems: seq<Ref>)
      requires Valid() && New(nodes, d, problems)
      modifies this
      ensures Valid() && nodes == Loaded(old(nodes), d, problems)
    {
      InsertTopKeepsForest(nodes, tops, trees, d, problems);
      Load(d, problems);
      tops, trees := [Some(d)] + tops, [Tree(d, Leaves(problems))] + trees;
    }

    /** The same for a module, that solves the problem recurse_modules has found. */
    method InsertModule(q: Ref, d: Ref, problems: seq<Ref>)
      requires Valid() && q.Quirk? && q in nodes && New(nodes, d, problems)
      modifies this
      ensures Valid() && nodes == Loaded(old(nodes), d, problems)[q := PlaceIn(old(nodes)[q], d)]
    {
      InsertKeepsForest(nodes, tops, trees, q, d, problems, Loaded(nodes, d, problems)[q := PlaceIn(nodes[q], d)]);
      var solutions := PlaceIn(nodes[q], d);
      trees := Graft(nodes, trees, q, Tree(d, Leaves(problems)));
      Load(d, problems);
      nodes := nodes[q := solutions];
    }

    /** `recurse_modules`, given the driver with the name the header starts with, if there is one: refused
        for an odd number of types, which would end at a driver, and for none. The source forgets to
        return what it comes to. */
    method RecurseModules(top: Option<Ref>, types: seq<nat>) returns (r: Option<Ref>)
      requires Valid() && (top.Some? ==> top.value.Driver? && top.value in nodes)
      ensures r == if |types| % 2 == 1 || types == [] || top.None? then None else Descend(nodes, top.value, types[1..])
      ensures r.Some? ==> r.value.Quirk? && r.value in nodes
    {
      if |types| % 2 == 1 || types == [] || top.None? {
        return None;
      }
      var rel := top.value;
      for i := 1 to |types|
        invariant Descend(nodes, rel, types[i..]) == Descend(nodes, top.value, types[1..])
      {
        assert types[i..][0] == types[i] && types[i..][1..] == types[i + 1..];
        if rel !in nodes || types[i] >= |nodes[rel]| || nodes[rel][types[i]].None? {
          return None;
        }
        rel := nodes[rel][types[i]].value;
      }
      r := Some(rel);
      DescendAlternates(nodes, tops, trees, top.value, types[1..]);
    }

    method Load(d: Ref, problems: seq<Ref>)
      requires New(nodes, d, problems)
      modifies this`nodes, this`driverCount, this`fileCount, this`quirkCount
      ensures nodes == Loaded(old(nodes), d, problems)
      ensures driverCount == old(driverCount) + 1 && fileCount == old(fileCount) + 1
      ensures quirkCount == old(quirkCount) + |problems|
    {
      ghost var before := nodes;
      driverCount, fileCount := driverCount + 1, fileCount + 1;
      for o := 0 to |problems|
        invariant nodes == WithQuirks(before, problems[..o])
        invariant driverCount == old(driverCount) + 1 && fileCount == old(fileCount) + 1
        invariant quirkCount == old(quirkCount) + o
      {
        assert problems[..o + 1][..o] == problems[..o];
        nodes := nodes[problems[o] := []];
        quirkCount := quirkCount + 1;
      }
      assert problems[..|problems|] == problems;
      nodes := nodes[d := Occupied(problems)];
    }

    /** `modrm_wrap`: of everything insertion has made, what goes is the driver and all below it, and
        the counts go down by just that many. A problem's slot that leads to the driver is not
        cleared: what is left is in order exactly when the driver was one at the top, and then
        insertion and removal can go on. */
    method ModrmWrap(d: Ref)
      requires Valid() && d.Driver? && d in nodes
      modifies this
      ensures var t := Sub(old(trees), d);
              && t.root == d && Refs([t]) <= old(nodes).Keys
              && nodes == old(nodes) - Refs([t])
              && driverCount == fileCount == old(driverCount) - Tally([t], true)
              && quirkCount == old(quirkCount) - Tally([t], false)
      ensures Closed(nodes) <==> Some(d) in old(tops)
      ensures Some(d) in old(tops) ==> Valid() && tops == Vacated(old(tops), d)
    {
      SubIsRemovable(nodes, tops, trees, d, true);
      RemovalDangles(nodes, tops, trees, d);
      ghost var t := Sub(trees, d);
      assert [t][1..] == [];
      if Some(d) in tops {
        RemovalKeepsForest(nodes, tops, trees, d);
      }
      Modrm(d, t.below);
      if Some(d) in tops {
        tops, trees := Vacated(tops, d), Cut(trees, d);
      }
    }
  }

  // ----- as written -----

  /** Where the loop as written is after n turns: it advances on occupied slots only. */
  function WalkAsWritten(slots: Slots, n: nat): (i: nat)
    ensures i <= |slots|
  {
    if n == 0 then 0
    else
      var i := WalkAsWritten(slots, n - 1);
      if i < |slots| && slots[i].Some? then i + 1 else i
  }

  lemma {:induction false} WalkStopsAtVacant(slots: Slots, n: nat)
    ensures var i := WalkAsWritten(slots, n);
            i <= n && (forall k | 0 <= k < i :: slots[k].Some?) && (i < n && i < |slots| ==> slots[i].None?)
  {
    if n > 0 {
      WalkStopsAtVacant(slots, n - 1);
    }
  }

  /** It comes to the end exactly when no slot is vacant. */
  lemma WalkAsWrittenEnds(slots: Slots)
    ensures (exists n :: WalkAsWritten(slots, n) == |slots|) <==> None !in slots
  {
    WalkStopsAtVacant(slots, |slots|);
    forall n: nat | WalkAsWritten(slots, n) == |slots| ensures None !in slots {
      WalkStopsAtVacant(slots, n);
    }
    if None !in slots {
      assert WalkAsWritten(slots, |slots|) == |slots|;
    }
  }
}
