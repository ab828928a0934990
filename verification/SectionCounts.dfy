/** How many runs the sections of a test case take, read off the tree of sections. */
module SectionCounts {
  import opened SectionTree

  /** The number of sections, at any depth. */
  function Size(sections: seq<Section>): nat
    decreases sections
  {
    if sections == [] then 0 else 1 + Size(sections[0].children) + Size(sections[1..])
  }

  /** There are no more runs than sections. */
  lemma {:induction false} AtMostOneEach(sections: seq<Section>, filters: seq<string>)
    ensures |StopsIn(sections, filters)| <= Size(sections)
    decreases sections
  {
    if sections != [] {
      AtMostOneEach(sections[0].children, NextFilters(filters));
      AtMostOneEach(sections[1..], filters);
    }
  }

  /** All leaves in depth-first order, each by the names on the way to it. */
  function DepthFirst(sections: seq<Section>): seq<seq<Name>>
    decreases sections
  {
    if sections == [] then []
    else
      var s := sections[0];
      (if s.children == [] then [[s.name]] else Prefixed(s.name, DepthFirst(s.children))) + DepthFirst(sections[1..])
  }

  function Prefixed(name: Name, paths: seq<seq<Name>>): (r: seq<seq<Name>>)
    ensures |r| == |paths| && forall i | 0 <= i < |r| :: r[i] == [name] + paths[i]
  {
    seq(|paths|, i requires 0 <= i < |paths| => [name] + paths[i])
  }

  function Paths(stops: seq<Stop>): (r: seq<seq<Name>>)
    ensures |r| == |stops| && forall i | 0 <= i < |r| :: r[i] == stops[i].path
  {
    seq(|stops|, i requires 0 <= i < |stops| => stops[i].path)
  }

  predicate Quiet(sections: seq<Section>)
    decreases sections
  {
    forall i | 0 <= i < |sections| :: !sections[i].throws && Quiet(sections[i].children)
  }

  predicate AllQuiet(stops: seq<Stop>) {
    forall i | 0 <= i < |stops| :: stops[i].thrown == 0
  }

  lemma {:induction false} QuietStops(s: Section, inner: seq<Stop>)
    requires !s.throws && inner == StopsIn(s.children, []) && AllQuiet(inner) && (s.children != [] ==> inner != [])
    ensures var stops := Stops(s, []);
            && stops != [] && AllQuiet(stops)
            && Paths(stops) == if s.children == [] then [[s.name]] else Prefixed(s.name, Paths(inner))
  {
    PathsUnder(s.name, inner);
    if s.children == [] {
      assert Stops(s, []) == Under(s.name, inner) + [Stop([s.name], 0)];
    }
  }

  /** Without filters and throws there is one run for each leaf, in depth-first order. */
  lemma {:induction false} RunsAreDepthFirst(sections: seq<Section>)
    requires Quiet(sections)
    ensures var stops := StopsIn(sections, []);
            Paths(stops) == DepthFirst(sections) && AllQuiet(stops) && (sections != [] ==> stops != [])
    decreases sections
  {
    if sections != [] {
      var s, rest := sections[0], sections[1..];
      assert forall i | 0 <= i < |rest| :: rest[i] == sections[i + 1];
      RunsAreDepthFirst(s.children);
      RunsAreDepthFirst(rest);
      QuietStops(s, StopsIn(s.children, []));
      PathsConcat(Stops(s, []), StopsIn(rest, []));
    }
  }

  lemma {:induction false} PathsConcat(a: seq<Stop>, b: seq<Stop>)
    ensures Paths(a + b) == Paths(a) + Paths(b)
  {
  }

  lemma {:induction false} PathsUnder(name: Name, stops: seq<Stop>)
    ensures Paths(Under(name, stops)) == Prefixed(name, Paths(stops))
  {
  }

  // ---------- Counting on the tree ----------

  predicate AllSelectedThrow(sections: seq<Section>, filters: seq<string>) {
    forall i | 0 <= i < |sections| && Selected(sections[i].name, filters) :: sections[i].throws
  }

  /** The last of the sections is selected and does not throw. */
  predicate LastEnds(sections: seq<Section>, filters: seq<string>) {
    sections != [] && var last := sections[|sections| - 1]; Selected(last.name, filters) && !last.throws
  }

  /**
   * The leaves that are entered: by all runs, or, when not `all`, by those up to the first that does not throw.
   */
  function LeafRuns(sections: seq<Section>, filters: seq<string>, all: bool): nat
    decreases sections, 0
  {
    if sections == [] then 0
    else
      var s, rest := sections[0], sections[1..];
      if !Selected(s.name, filters) then LeafRuns(rest, filters, all)
      else LeafRunsOf(s, filters, all) + if all || s.throws then LeafRuns(rest, filters, all) else 0
  }

  function LeafRunsOf(s: Section, filters: seq<string>, all: bool): nat
    decreases s, 1
  {
    if s.children == [] then 1 else LeafRuns(s.children, NextFilters(filters), all && !s.throws)
  }

  /**
   * The runs of the same kind that end in a section with sections inside without entering any of them. A section
   * takes one if its last section throws or is not selected; if only the runs up to a first one without a throw
   * count, or the section throws itself, it takes one if all that is selected inside throws.
   */
  function ExtraRuns(sections: seq<Section>, filters: seq<string>, all: bool): nat
    decreases sections, 0
  {
    if sections == [] then 0
    else
      var s, rest := sections[0], sections[1..];
      if !Selected(s.name, filters) then ExtraRuns(rest, filters, all)
      else ExtraRunsOf(s, filters, all) + if all || s.throws then ExtraRuns(rest, filters, all) else 0
  }

  function ExtraRunsOf(s: Section, filters: seq<string>, all: bool): nat
    decreases s, 1
  {
    if s.children == [] then 0
    else
      var f, inside := NextFilters(filters), all && !s.throws;
      ExtraRuns(s.children, f, inside)
      + if (if inside then LastEnds(s.children, f) else !AllSelectedThrow(s.children, f)) then 0 else 1
  }

  lemma {:induction false} AllThrowIff(sections: seq<Section>, filters: seq<string>)
    ensures AllThrow(StopsIn(sections, filters)) <==> AllSelectedThrow(sections, filters)
    decreases |sections|
  {
    if sections != [] {
      var s, rest := sections[0], sections[1..];
      var first, later := Stops(s, filters), StopsIn(rest, filters);
      AllThrowIff(rest, filters);
      StopsNotEmpty(s, filters);
      if Selected(s.name, filters) {
        ThrowsOrEnds(s, filters);
      }
      AllThrowConcat(first, later);
      assert forall i | 0 <= i < |rest| :: rest[i] == sections[i + 1];
      assert forall i | 0 < i < |sections| :: sections[i] == rest[i - 1];
    }
  }

  lemma {:induction false} AllThrowConcat(a: seq<Stop>, b: seq<Stop>)
    ensures AllThrow(a + b) <==> AllThrow(a) && AllThrow(b)
  {
    assert forall k | 0 <= k < |a| :: a[k] == (a + b)[k];
    assert forall k | 0 <= k < |b| :: b[k] == (a + b)[|a| + k];
  }

  /** The last section has had its last run, without a throw, exactly when it is selected and does not throw. */
  lemma {:induction false} EndsCompleteIff(sections: seq<Section>, filters: seq<string>)
    ensures EndsComplete(sections, filters, StopsIn(sections, filters)) <==> LastEnds(sections, filters)
    decreases |sections|
  {
    if sections != [] && Selected(sections[|sections| - 1].name, filters) {
      hide Stops, StopsIn;
      var s, rest := sections[0], sections[1..];
      SomeStops(sections, filters);
      StopsInConcat(sections, filters);
      if rest == [] {
        ThrowsOrEnds(s, filters);
        StopsInNone(filters);
      } else {
        assert rest[|rest| - 1] == sections[|sections| - 1];
        SomeStops(rest, filters);
        EndsCompleteIff(rest, filters);
      }
    }
  }

  lemma {:induction false} StopsInNone(filters: seq<string>)
    ensures StopsIn([], filters) == []
  {
  }

  /** All runs, or those up to the first that does not throw. */
  function Made(stops: seq<Stop>, all: bool): seq<Stop> {
    if all then stops else UntilThrow(stops)
  }

  lemma {:induction false} MadeConcat(a: seq<Stop>, b: seq<Stop>, all: bool)
    ensures |Made(a + b, all)| == |Made(a, all)| + if all || AllThrow(a) then |Made(b, all)| else 0
  {
    UntilThrowConcat(a, b);
    if AllThrow(a) {
      UntilThrowConcat(a, []);
      assert a + [] == a;
    }
  }

  /** The number of runs of one section, from that of the runs inside. */
  lemma {:induction false} MadeOf(s: Section, filters: seq<string>, all: bool)
    requires Selected(s.name, filters)
    ensures var f, inside := NextFilters(filters), all && !s.throws;
            |Made(Stops(s, filters), all)| ==
            |Made(StopsIn(s.children, f), inside)|
            + if (if inside then LastEnds(s.children, f) else !AllSelectedThrow(s.children, f)) then 0 else 1
  {
    var f := NextFilters(filters);
    var inner := StopsIn(s.children, f);
    AllThrowIff(s.children, f);
    EndsCompleteIff(s.children, f);
    if s.throws {
      ThrowsOrEnds(s, filters);
      AllThrowMade(Stops(s, filters));
      AllThrownIff(inner);
    } else if !all {
      UntilThrowOf(s, filters);
    }
  }

  lemma {:induction false} AllThrowMade(stops: seq<Stop>)
    requires AllThrow(stops)
    ensures UntilThrow(stops) == stops
  {
    UntilThrowConcat(stops, []);
    assert stops + [] == stops;
  }

  lemma {:induction false} AllThrownIff(stops: seq<Stop>)
    ensures AllThrow(stops) <==> Thrown(stops) == |stops|
  {
  }

  /** The runs are those that enter a leaf and those that end in another section, for every tree. */
  lemma {:induction false} RunsCounted(sections: seq<Section>, filters: seq<string>, all: bool)
    ensures |Made(StopsIn(sections, filters), all)| ==
            LeafRuns(sections, filters, all) + ExtraRuns(sections, filters, all)
    decreases sections, 0
  {
    if sections != [] {
      hide Stops, Made;
      var s, rest := sections[0], sections[1..];
      var first, later := Stops(s, filters), StopsIn(rest, filters);
      MadeConcat(first, later, all);
      RunsCounted(rest, filters, all);
      StopsNotEmpty(s, filters);
      if Selected(s.name, filters) {
        ThrowsOrEnds(s, filters);
        RunsOfCounted(s, filters, all);
      } else {
        MadeNothing(all);
      }
    } else {
      MadeNothing(all);
    }
  }

  lemma {:induction false} MadeNothing(all: bool)
    ensures Made([], all) == []
  {
  }

  lemma {:induction false} RunsOfCounted(s: Section, filters: seq<string>, all: bool)
    requires Selected(s.name, filters)
    ensures |Made(Stops(s, filters), all)| == LeafRunsOf(s, filters, all) + ExtraRunsOf(s, filters, all)
    decreases s, 1
  {
    hide Stops, Made;
    MadeOf(s, filters, all);
    RunsCounted(s.children, NextFilters(filters), all && !s.throws);
  }

  // ---------- The leaves that are entered ----------

  /** The leaf is reached, and if not `all` runs count, by a run up to the first that does not throw. */
  predicate ReachedBy(sections: seq<Section>, filters: seq<string>, path: seq<Name>, all: bool) {
    Reaches(sections, filters, path) && (all || OnlyThrowsBefore(sections, filters, path))
  }

  function Reached(paths: seq<seq<Name>>, sections: seq<Section>, filters: seq<string>, all: bool): nat {
    if paths == [] then 0
    else (if ReachedBy(sections, filters, paths[0], all) then 1 else 0) + Reached(paths[1..], sections, filters, all)
  }

  lemma {:induction false} ReachedConcat(a: seq<seq<Name>>, b: seq<seq<Name>>, sections: seq<Section>,
                                         filters: seq<string>, all: bool)
    ensures Reached(a + b, sections, filters, all) ==
            Reached(a, sections, filters, all) + Reached(b, sections, filters, all)
  {
    hide ReachedBy;
    if a == [] {
      assert a + b == b;
    } else {
      assert (a + b)[1..] == a[1..] + b;
      ReachedConcat(a[1..], b, sections, filters, all);
    }
  }

  lemma {:induction false} DepthFirstNames(sections: seq<Section>)
    ensures forall k | 0 <= k < |DepthFirst(sections)| ::
              DepthFirst(sections)[k] != [] && DepthFirst(sections)[k][0] in Names(sections)
    decreases |sections|
  {
    if sections != [] {
      DepthFirstNames(sections[1..]);
    }
  }

  /** A place inside the first section. */
  lemma {:induction false} ReachedInside(sections: seq<Section>, filters: seq<string>, path: seq<Name>, all: bool)
    requires sections != [] && DistinctSiblings(sections) && sections[0].children != [] && path != []
    ensures var s := sections[0];
            ReachedBy(sections, filters, [s.name] + path, all) <==>
            && Selected(s.name, filters)
            && ReachedBy(s.children, NextFilters(filters), path, all && !s.throws)
  {
    NameThenPath(sections[0].name, path);
  }

  lemma {:induction false} NameThenPath(name: Name, path: seq<Name>)
    ensures ([name] + path)[0] == name && ([name] + path)[1..] == path
  {
  }

  /** A place in a later one. */
  lemma {:induction false} ReachedLater(sections: seq<Section>, filters: seq<string>, path: seq<Name>, all: bool)
    requires sections != [] && path != [] && path[0] != sections[0].name
    ensures ReachedBy(sections, filters, path, all) <==>
            && (all || (Selected(sections[0].name, filters) ==> sections[0].throws))
            && ReachedBy(sections[1..], filters, path, all)
  {
    ReachesRest(sections, filters, path);
  }

  lemma {:induction false} AllReachedInside(paths: seq<seq<Name>>, sections: seq<Section>,
                                            filters: seq<string>, all: bool)
    requires sections != [] && DistinctSiblings(sections) && sections[0].children != []
    requires forall k | 0 <= k < |paths| :: paths[k] != []
    ensures var s := sections[0];
            Reached(Prefixed(s.name, paths), sections, filters, all) ==
            if Selected(s.name, filters) then Reached(paths, s.children, NextFilters(filters), all && !s.throws) else 0
    decreases |paths|
  {
    hide ReachedBy;
    var s := sections[0];
    if paths != [] {
      assert Prefixed(s.name, paths)[1..] == Prefixed(s.name, paths[1..]);
      ReachedInside(sections, filters, paths[0], all);
      AllReachedInside(paths[1..], sections, filters, all);
    }
  }

  lemma {:induction false} AllReachedLater(paths: seq<seq<Name>>, sections: seq<Section>,
                                           filters: seq<string>, all: bool)
    requires sections != []
    requires forall k | 0 <= k < |paths| :: paths[k] != [] && paths[k][0] != sections[0].name
    ensures Reached(paths, sections, filters, all) ==
            if all || (Selected(sections[0].name, filters) ==> sections[0].throws)
            then Reached(paths, sections[1..], filters, all) else 0
    decreases |paths|
  {
    hide ReachedBy;
    if paths != [] {
      ReachedLater(sections, filters, paths[0], all);
      AllReachedLater(paths[1..], sections, filters, all);
    }
  }

  lemma {:induction false} ReachedLeaf(sections: seq<Section>, filters: seq<string>, all: bool)
    requires sections != [] && DistinctSiblings(sections) && sections[0].children == []
    ensures Reached([[sections[0].name]], sections, filters, all) ==
            if Selected(sections[0].name, filters) then 1 else 0
  {
    var path := [sections[0].name];
    assert ReachedBy(sections, filters, path, all) <==> Selected(path[0], filters);
    var none: seq<seq<Name>> := [];
    assert [path][1..] == none;
  }

  /** The runs that enter a leaf enter the leaves that are reached, each once. */
  lemma {:induction false} LeafRunsReached(sections: seq<Section>, filters: seq<string>, all: bool)
    requires DistinctSiblings(sections)
    ensures LeafRuns(sections, filters, all) == Reached(DepthFirst(sections), sections, filters, all)
    decreases sections
  {
    if sections != [] {
      hide ReachedBy;
      var s, rest := sections[0], sections[1..];
      var inside := DepthFirst(s.children);
      var first := if s.children == [] then [[s.name]] else Prefixed(s.name, inside);
      DistinctTail(sections);
      ReachedConcat(first, DepthFirst(rest), sections, filters, all);
      LeafRunsReached(rest, filters, all);
      DepthFirstNames(rest);
      FirstNotLater(sections);
      AllReachedLater(DepthFirst(rest), sections, filters, all);
      if s.children == [] {
        ReachedLeaf(sections, filters, all);
      } else {
        DepthFirstNames(s.children);
        AllReachedInside(inside, sections, filters, all);
        LeafRunsReached(s.children, NextFilters(filters), all && !s.throws);
      }
    }
  }

  // ---------- One run for each leaf ----------

  /** The number of runs: one for each leaf that is reached, and the extra ones. */
  lemma {:induction false} RunsExactly(sections: seq<Section>, filters: seq<string>)
    requires DistinctSiblings(sections)
    ensures |StopsIn(sections, filters)| ==
            Reached(DepthFirst(sections), sections, filters, true) + ExtraRuns(sections, filters, true)
  {
    RunsCounted(sections, filters, true);
    LeafRunsReached(sections, filters, true);
  }

  function SelectedLeaves(sections: seq<Section>, filters: seq<string>): nat
    decreases sections
  {
    if sections == [] then 0
    else
      var s := sections[0];
      (if !Selected(s.name, filters) then 0
       else if s.children == [] then 1 else SelectedLeaves(s.children, NextFilters(filters)))
      + SelectedLeaves(sections[1..], filters)
  }

  /** The selected sections with sections inside of which the last throws or is not selected. */
  function Unsettled(sections: seq<Section>, filters: seq<string>): nat
    decreases sections
  {
    if sections == [] then 0
    else
      var s := sections[0];
      (if !Selected(s.name, filters) || s.children == [] then 0
       else Unsettled(s.children, NextFilters(filters)) + if LastEnds(s.children, NextFilters(filters)) then 0 else 1)
      + Unsettled(sections[1..], filters)
  }

  /** When only leaves throw, every selected leaf takes one run, and every unsettled section one more. */
  lemma {:induction false} LeavesAndUnsettled(sections: seq<Section>, filters: seq<string>)
    requires OnlyLeavesThrow(sections)
    ensures LeafRuns(sections, filters, true) == SelectedLeaves(sections, filters)
    ensures ExtraRuns(sections, filters, true) == Unsettled(sections, filters)
    decreases sections
  {
    if sections != [] {
      var rest := sections[1..];
      assert forall i | 0 <= i < |rest| :: rest[i] == sections[i + 1];
      LeavesAndUnsettled(rest, filters);
      LeavesAndUnsettled(sections[0].children, NextFilters(filters));
    }
  }

  /** So there is one run for each selected leaf exactly when no section is unsettled. */
  lemma {:induction false} OneRunPerLeafIff(sections: seq<Section>, filters: seq<string>)
    requires OnlyLeavesThrow(sections)
    ensures |StopsIn(sections, filters)| == SelectedLeaves(sections, filters) + Unsettled(sections, filters)
    ensures |StopsIn(sections, filters)| == SelectedLeaves(sections, filters) <==> Unsettled(sections, filters) == 0
  {
    RunsCounted(sections, filters, true);
    LeavesAndUnsettled(sections, filters);
  }

  /** Two runs for a single leaf, which throws. */
  lemma {:induction false} ThrowingLeafTakesTwo(t: Name, a: Name)
    ensures var tree := Section(t, [Section(a, [], true)], false);
            |StopsIn([tree], [])| == 2 && |DepthFirst([tree])| == 1
  {
    var leaf := Section(a, [], true);
    var tree := Section(t, [leaf], false);
    assert [tree][0] == tree && |[tree][1..]| == 0 && tree.children[0] == leaf && tree.children[1..] == [];
    OneRunPerLeafIff([tree], []);
    assert SelectedLeaves(tree.children, []) == 1 && Unsettled(tree.children, []) == 0;
    assert DepthFirst(tree.children) == [[a]];
  }
}
