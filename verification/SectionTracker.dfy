/**
 * The tracker context of Catch (catch.hpp): a test body is run again and again, and each time the
 * trackers decide which SECTION blocks to enter.
 */
module SectionTracker {
  import opened Machine
  import opened SectionCounts
  import opened SectionPasses
  import opened SectionTree
  import opened TrackerStates

  function InitialFilters(filters: seq<string>): seq<string> {
    if filters == [] then [] else ["", ""] + filters
  }

  class TrackerContext {
    var trackers: Trackers
    var current: Path
    var cycle: CycleState

    /** How many sections an exception has left so far in this run. */
    var unfinished: nat

    /** Every section entered since the trackers were made, in order. */
    ghost var entered: seq<Path>

    constructor ()
      ensures trackers == map[] && cycle == CycleNotStarted && unfinished == 0 && entered == []
    {
      trackers := map[];
      current, cycle, unfinished, entered := Root, CycleNotStarted, 0, [];
    }

    /** `startRun`, and the filters given to the root. */
    method StartRun(filters: seq<string>)
      modifies this`trackers, this`cycle, this`entered
      ensures trackers == map[Root := Tracker(NotStarted, [], InitialFilters(filters))]
      ensures cycle == CycleExecuting && entered == []
    {
      trackers := map[Root := Tracker(NotStarted, [], InitialFilters(filters))];
      cycle, entered := CycleExecuting, [];
    }

    method StartCycle()
      modifies this`current, this`cycle
      ensures current == Root && cycle == CycleExecuting
    {
      current, cycle := Root, CycleExecuting;
    }

    /** `openChild`, which goes up until it meets a tracker that already runs children. */
    method OpenChild(p: Path)
      requires Rooted(trackers, p)
      modifies this`trackers
      ensures trackers == OpenUpward(old(trackers), p)
      decreases p
    {
      if trackers[p].state != ExecutingChildren {
        trackers := trackers[p := trackers[p].(state := ExecutingChildren)];
        if p.Child? {
          StillRooted(old(trackers), trackers, p.parent);
          OpenChild(p.parent);
        }
      }
    }

    /** `open`: the section runs and is current, and the trackers above it run children. */
    method Open(p: Path)
      requires Rooted(trackers, p)
      modifies this`trackers, this`current, this`entered
      ensures current == p && entered == old(entered) + [p] && trackers == OpenedUp(old(trackers), p)
    {
      trackers := trackers[p := trackers[p].(state := Executing)];
      current := p;
      entered := entered + [p];
      if p.Child? {
        StillRooted(old(trackers), trackers, p.parent);
        OpenChild(p.parent);
      }
    }

    /** `acquire`: find or make the child of this name, and try to open it unless the cycle is over. */
    method Acquire(name: Name) returns (p: Path)
      requires Rooted(trackers, current)
      requires name in trackers[current].children ==> Child(current, name) in trackers
      modifies this`trackers, this`current, this`entered
      ensures p == Child(old(current), name)
      ensures var m := Discovered(old(trackers), old(current), name);
              if cycle != CompletedCycle && !IsComplete(m[p]) && Selected(name, m[p].filters) then
                Rooted(m, p) && trackers == OpenedUp(m, p) && current == p && entered == old(entered) + [p]
              else trackers == m && current == old(current) && entered == old(entered)
    {
      p := Child(current, name);
      assert Depth(p.parent) < Depth(p);
      if name !in trackers[current].children {
        trackers := trackers[p := Tracker(NotStarted, [], NextFilters(trackers[current].filters))];
        trackers := trackers[current := trackers[current].(children := trackers[current].children + [name])];
      }
      StillRooted(old(trackers), trackers, current);
      if cycle != CompletedCycle {
        if !IsComplete(trackers[p]) && Selected(name, trackers[p].filters) {
          Open(p);
        }
      }
    }

    /** `close` of the current tracker; a tracker that is not running makes it throw. */
    method CloseCurrent() returns (ok: bool)
      requires current.Child? && current in trackers && LastThere(trackers, current)
      modifies this`trackers, this`current, this`cycle
      ensures ok == IsOpen(old(trackers)[old(current)])
      ensures if ok then
                && trackers == Closed(old(trackers), old(current)) && current == old(current).parent
                && cycle == CompletedCycle
              else trackers == old(trackers) && current == old(current) && cycle == old(cycle)
    {
      var p := current;
      var t := trackers[p];
      match t.state {
        case NotStarted => return false;
        case CompletedSuccessfully => return false;
        case Failed => return false;
        case NeedsAnotherRun =>
          assert trackers == trackers[p := t];
        case Executing =>
          trackers := trackers[p := t.(state := CompletedSuccessfully)];
        case ExecutingChildren =>
          if t.children == [] || IsComplete(trackers[Child(p, t.children[|t.children| - 1])]) {
            trackers := trackers[p := t.(state := CompletedSuccessfully)];
          } else {
            assert trackers == trackers[p := t];
          }
      }
      current := p.parent;
      cycle := CompletedCycle;
      return true;
    }

    /** `close`: first every tracker still open below `p`, from the current one upward, then `p` itself. */
    method Close(p: Path) returns (ok: bool)
      requires p.Child? && Within(current, p) && WayThere(trackers, current, p)
      modifies this`trackers, this`current, this`cycle
      ensures var end := CloseFrom(old(trackers), old(current), p);
              && ok == end.ok && trackers == end.trackers && current == (if ok then p.parent else end.at)
              && cycle == if ok || end.at != old(current) then CompletedCycle else old(cycle)
    {
      while current != p
        invariant Within(current, p) && WayThere(trackers, current, p)
        invariant CloseFrom(trackers, current, p) == CloseFrom(old(trackers), old(current), p)
        invariant Depth(current) <= Depth(old(current))
        invariant cycle == if current != old(current) then CompletedCycle else old(cycle)
        decreases current
      {
        ghost var m, q := trackers, current;
        ok := CloseCurrent();
        if !ok {
          return;
        }
        WayStaysThere(m, trackers, q.parent, p);
      }
      ok := CloseCurrent();
    }

    /** `fail`: the section is over, and its parent has to run again. */
    method Fail(p: Path)
      requires p.Child? && p in trackers && p.parent in trackers
      modifies this`trackers, this`current, this`cycle
      ensures trackers == FailedAt(old(trackers), p) && current == p.parent && cycle == CompletedCycle
    {
      assert Depth(p) > Depth(p.parent);
      trackers := trackers[p := trackers[p].(state := Failed)];
      trackers := trackers[p.parent := trackers[p.parent].(state := NeedsAnotherRun)];
      current := p.parent;
      cycle := CompletedCycle;
    }

    /** `sectionEnded`: the body of a section, which run `k` has entered, has come to its end. */
    method EndSection(s: Section, ghost filters: seq<string>, ghost k: nat, ghost before: Trackers)
      requires current.Child? && current in trackers && current.parent in before && before.Keys <= trackers.Keys
      requires SameOutside(before, trackers, current, Names(s.children)) && k < |Stops(s, filters)|
      requires BodyRan(trackers, current, s, filters, k) && Stops(s, filters)[k].thrown != 1
      requires before[current.parent].state == ExecutingChildren
      modifies this`trackers, this`current, this`cycle
      ensures current == old(current).parent && cycle == CompletedCycle
      ensures Ran(before, trackers, old(current), s, filters, k, ParentState(s, filters, k))
    {
      ghost var p, m := current, trackers;
      StopAt(s, filters, k);
      BodyLast(m, p, s, filters, k);
      Closing(m, p, s, filters, k);
      var ok := Close(current);
      RanClosed(before, m, p, s, filters, k);
    }

    /** `sectionEndedEarly`: an exception leaves a section; the first that it leaves has failed. */
    method EndSectionEarly(s: Section, ghost filters: seq<string>, ghost k: nat, ghost before: Trackers)
      requires current.Child? && current in trackers && current.parent in before && before.Keys <= trackers.Keys
      requires SameOutside(before, trackers, current, Names(s.children)) && k < |Stops(s, filters)|
      requires BodyRan(trackers, current, s, filters, k) && Stops(s, filters)[k].thrown == unfinished + 1
      requires before[current.parent].state == ExecutingChildren
      modifies this`trackers, this`current, this`cycle, this`unfinished
      ensures current == old(current).parent && cycle == CompletedCycle && unfinished == old(unfinished) + 1
      ensures Ran(before, trackers, old(current), s, filters, k, ParentState(s, filters, k))
    {
      if unfinished == 0 {
        ghost var m := trackers;
        StopAt(s, filters, k);
        RanFailed(before, m, current, s, filters, k);
        Fail(current);
      } else {
        EndSection(s, filters, k, before);
      }
      unfinished := unfinished + 1;
    }

    /** `acquire` for a section of the test: where that leaves the trackers. */
    method Announce(name: Name, ghost sections: seq<Section>, ghost known: seq<Name>,
                    ghost filters: seq<string>, ghost k: nat)
      returns (p: Path, ghost m: Trackers)
      requires Rooted(trackers, current) && Settled(trackers, current)
      requires sections != [] && name == sections[0].name && name !in known
      requires Ready(trackers, current, known, sections, filters, k) && (cycle == CompletedCycle ==> k == 0)
      modifies this`trackers, this`current, this`entered
      ensures p == Child(old(current), name) && p in trackers && Rooted(m, old(current)) && Rooted(m, p)
      ensures Announced(old(trackers), m, old(current), known, sections, filters, k)
      ensures IsOpen(trackers[p]) == (cycle != CompletedCycle && k < |Stops(sections[0], filters)|)
      ensures if IsOpen(trackers[p]) then
                && Matches(m, p, sections[0], filters, k)
                && trackers == Opened(m, p) && current == p && entered == old(entered) + [p]
              else trackers == m && current == old(current) && entered == old(entered)
    {
      Discovering(trackers, current, known, sections, filters, k);
      m := Discovered(trackers, current, name);
      StillRooted(trackers, m, current);
      Settling(trackers, m, current, name);
      OpensIff(m, Child(current, name), sections[0], filters, k, cycle == CompletedCycle);
      p := Acquire(name);
    }

    /** `sectionStarted`: announce a section and say whether its body is to run. */
    method StartSection(name: Name, ghost sections: seq<Section>, ghost known: seq<Name>,
                        ghost filters: seq<string>, ghost k: nat)
      returns (open: bool, ghost m: Trackers)
      requires Rooted(trackers, current) && Settled(trackers, current)
      requires sections != [] && name == sections[0].name && name !in known
      requires Ready(trackers, current, known, sections, filters, k) && (cycle == CompletedCycle ==> k == 0)
      modifies this`trackers, this`current, this`entered
      ensures open == (cycle != CompletedCycle && k < |Stops(sections[0], filters)|)
      ensures Announced(old(trackers), m, old(current), known, sections, filters, k) && Rooted(m, old(current))
      ensures if open then
                var p := Child(old(current), name);
                && Matches(m, p, sections[0], filters, k) && Rooted(m, p)
                && trackers == Opened(m, p) && current == p && entered == old(entered) + [p]
              else trackers == m && current == old(current) && entered == old(entered)
    {
      var p;
      p, m := Announce(name, sections, known, filters, k);
      open := IsOpen(trackers[p]);
    }

    /** Run the body of the current section, which has just been opened in `m`, after `k` runs before. */
    method RunBody(s: Section, ghost filters: seq<string>, ghost k: nat, ghost m: Trackers) returns (aborted: bool)
      requires current.Child? && Rooted(m, current) && trackers == Opened(m, current)
      requires Matches(m, current, s, filters, k) && k < |Stops(s, filters)| && DistinctSiblings(s.children)
      requires cycle != CompletedCycle && unfinished == 0
      modifies this`trackers, this`current, this`cycle, this`unfinished, this`entered
      ensures current == old(current) && current in trackers && BodyRan(trackers, current, s, filters, k)
      ensures var inner := StopsIn(s.children, NextFilters(filters));
              && k <= |inner|
              && unfinished == (if k < |inner| then inner[k].thrown else 0) && aborted == (unfinished > 0)
              && entered == old(entered) + Chain(current, if k < |inner| then inner[k].path else [])
      ensures var before := Opened(m, current);
              && current.parent in before && before[current.parent].state == ExecutingChildren
              && SameOutside(before, trackers, current, Names(s.children)) && before.Keys <= trackers.Keys
              && SameOutside(m, before, current.parent, [current.name])
      decreases s, 1
    {
      hide Ready, PassRun, BodyRan, SameOutside, Stops, StopsIn;
      ghost var p, before, e := current, trackers, entered;
      Opening(m, p, s, filters, k);
      assert Depth(p) > Depth(p.parent);
      aborted := RunSections(s.children, [], NextFilters(filters), k);
      BodyDone(before, trackers, p, s, filters, k, cycle == CompletedCycle, entered[|e|..], unfinished);
      assert entered == e + entered[|e|..];
    }

    /** A SECTION block that is open: its body, and the end of it, in order or by an exception. */
    method RunSection(s: Section, ghost filters: seq<string>, ghost k: nat, ghost m: Trackers) returns (aborted: bool)
      requires current.Child? && Rooted(m, current) && trackers == Opened(m, current)
      requires Matches(m, current, s, filters, k) && k < |Stops(s, filters)| && DistinctSiblings(s.children)
      requires cycle != CompletedCycle && unfinished == 0
      modifies this`trackers, this`current, this`cycle, this`unfinished, this`entered
      ensures current == old(current).parent && cycle == CompletedCycle
      ensures Ran(m, trackers, old(current), s, filters, k, ParentState(s, filters, k))
      ensures var stop := Stops(s, filters)[k];
              && stop.path != [] && entered == old(entered) + Chain(old(current), stop.path[1..])
              && unfinished == stop.thrown && aborted == (stop.thrown > 0)
      decreases s, 2
    {
      hide Matches, BodyRan, Ran, SameOutside, Stops, StopsIn;
      ghost var p := current;
      StopAt(s, filters, k);
      aborted := RunBody(s, filters, k, m);
      if aborted || s.throws {
        EndSectionEarly(s, filters, k, Opened(m, p));
        aborted := true;
      } else {
        EndSection(s, filters, k, Opened(m, p));
      }
      RanFromOpening(m, trackers, p, s, filters, k, ParentState(s, filters, k));
    }

    /** Announce the first of several sections side by side, and run it if the tracker has it open. `known` are the
        names announced before, and `k` runs have entered `sections` so far. */
    method RunFirst(sections: seq<Section>, ghost known: seq<Name>, ghost filters: seq<string>, ghost k: nat)
      returns (aborted: bool)
      requires Rooted(trackers, current) && Settled(trackers, current) && unfinished == 0
      requires sections != [] && DistinctSiblings(sections) && sections[0].name !in known
      requires Ready(trackers, current, known, sections, filters, k)
      requires cycle == CompletedCycle ==> k == 0
      modifies this`trackers, this`current, this`cycle, this`unfinished, this`entered
      ensures current == old(current) && old(entered) <= entered && aborted == (unfinished > 0)
      ensures FirstRun(old(trackers), trackers, current, known, sections, filters, k,
                       old(cycle) == CompletedCycle, cycle == CompletedCycle, entered[|old(entered)|..], unfinished)
      decreases sections, 3
    {
      hide Ready, Announced, Ran, FirstRun, Stops;
      ghost var here, m0, e, over := current, trackers, entered, cycle == CompletedCycle;
      var s := sections[0];
      var open;
      ghost var m1;
      open, m1 := StartSection(s.name, sections, known, filters, k);
      aborted := false;
      if open {
        DistinctTail(sections);
        aborted := RunSection(s, filters, k, m1);
        ChainFirst(here, s, filters, k);
      }
      assert entered[|e|..] == if open then Chain(here, Stops(s, filters)[k].path) else [];
      FirstAnnounced(m0, m1, trackers, here, known, sections, filters, k, over, entered[|e|..], unfinished);
    }

    /** One pass through SECTION blocks side by side in the body of the current section: each is announced to the
        tracker, and its own body runs only if the tracker has it open. */
    method RunSections(sections: seq<Section>, ghost known: seq<Name>, ghost filters: seq<string>, ghost k: nat)
      returns (aborted: bool)
      requires Rooted(trackers, current) && Settled(trackers, current) && unfinished == 0
      requires DistinctSiblings(sections) && (forall i | 0 <= i < |sections| :: sections[i].name !in known)
      requires Ready(trackers, current, known, sections, filters, k)
      requires cycle == CompletedCycle ==> k == 0
      modifies this`trackers, this`current, this`cycle, this`unfinished, this`entered
      ensures current == old(current) && old(entered) <= entered && aborted == (unfinished > 0)
      ensures PassRun(old(trackers), trackers, current, known, sections, filters, k,
                      old(cycle) == CompletedCycle, cycle == CompletedCycle, entered[|old(entered)|..], unfinished)
      decreases sections, 4
    {
      hide FirstRun, PassRun, Ready, Stops, StopsIn;
      ReadyBound(trackers, current, known, sections, filters, k);
      if sections == [] {
        PassNothing(trackers, current, known, filters, k, cycle == CompletedCycle);
        assert entered[|old(entered)|..] == [];
        return false;
      }
      ghost var m, e, over := trackers, entered, cycle == CompletedCycle;
      aborted := RunFirst(sections, known, filters, k);
      ghost var m1, e1, over1 := trackers, entered, cycle == CompletedCycle;
      if aborted {
        FirstThrows(m, m1, current, known, sections, filters, k, over, over1, e1[|e|..], unfinished);
        return;
      }
      PassGoesOn(m, m1, current, known, sections, filters, k, over, over1, e1[|e|..]);
      ghost var rest := k - Min(k, |Stops(sections[0], filters)|);
      aborted := RunSections(sections[1..], known + [sections[0].name], filters, rest);
      FirstThenRest(m, m1, trackers, current, known, sections, filters, k, over, over1, e1[|e|..],
                    cycle == CompletedCycle, entered[|e1|..], unfinished);
      assert entered[|e|..] == e1[|e|..] + entered[|e1|..];
    }

    /** `runCurrentTest`: whatever leaves the body of the test case, its tracker is closed. */
    method RunCurrentTest(test: Section, ghost filters: seq<string>, ghost k: nat, ghost m: Trackers)
      requires current.Child? && Rooted(m, current) && trackers == Opened(m, current) && !test.throws
      requires Matches(m, current, test, filters, k) && k < |Stops(test, filters)| && DistinctSiblings(test.children)
      requires cycle != CompletedCycle && unfinished == 0
      modifies this`trackers, this`current, this`cycle, this`unfinished, this`entered
      ensures current == old(current).parent && unfinished == 0
      ensures Ran(m, trackers, old(current), test, filters, k, ExecutingChildren)
      ensures var stop := Stops(test, filters)[k];
              stop.path != [] && entered == old(entered) + Chain(old(current), stop.path[1..])
    {
      hide Matches, BodyRan, Ran, SameOutside, Stops, StopsIn;
      ghost var p := current;
      StopAt(test, filters, k);
      var aborted := RunBody(test, filters, k, m);
      EndSection(test, filters, k, Opened(m, p));
      unfinished := 0;
      RanFromOpening(m, trackers, p, test, filters, k, ExecutingChildren);
    }

    /**
     * The inner loop of `runTest`: cycles until the test case is complete, or the limit on failed assertions
     * ends it early. Each cycle makes the next of the runs of the test case, entering the sections of that run
     * and no others; when the loop is not ended early none is left out.
     */
    method RunTest(test: Section, filters: seq<string>) returns (cycles: nat, done: bool)
      requires DistinctSiblings(test.children) && unfinished == 0
      modifies this
      ensures 0 < cycles <= |TestRuns(test, filters)| && unfinished == 0
      ensures entered == Tour(TestRuns(test, filters)[..cycles])
      ensures forall p | p in entered :: Permitted(p, filters)
      ensures var p := Child(Root, test.name);
              && p in trackers && done == (trackers[p].state == CompletedSuccessfully)
              && done == (cycles == |TestRuns(test, filters)|)
    {
      hide Ready, Matches, Stops, StopsIn, Tour;
      StartRun(filters);
      var t := TestCase(test);
      ghost var f := NextFilters(InitialFilters(filters));
      ghost var stops := TestRuns(test, filters);
      TestSelected(test, filters);
      FirstCycleReady(trackers, t, f);
      cycles, done := 0, false;
      var aborting := false;
      while !done && !aborting
        invariant unfinished == 0 && Rooted(trackers, Root)
        invariant cycles <= |stops| && done == (cycles == |stops|) && entered == Tour(stops[..cycles])
        invariant Ready(trackers, Root, [], [t], f, cycles) && (aborting ==> cycles > 0)
        invariant cycles > 0 ==> Matches(trackers, Child(Root, test.name), t, f, cycles)
        decreases |stops| - cycles
      {
        StartCycle();
        RunCycle(t, f, cycles);
        TourGrows(stops, cycles);
        cycles := cycles + 1;
        DoneIff(trackers, Child(Root, test.name), t, f, cycles);
        done := trackers[Child(Root, test.name)].state == CompletedSuccessfully;
        aborting := *;
      }
      DoneIff(trackers, Child(Root, test.name), t, f, cycles);
      OnlyPermittedEntered(test, filters, cycles);
    }

    /** One cycle: the test case is acquired and its body is run. */
    method RunCycle(test: Section, ghost filters: seq<string>, ghost k: nat)
      requires current == Root && Rooted(trackers, Root) && cycle == CycleExecuting && unfinished == 0
      requires !test.throws && DistinctSiblings(test.children) && k < |Stops(test, filters)|
      requires Ready(trackers, Root, [], [test], filters, k)
      modifies this`trackers, this`current, this`cycle, this`unfinished, this`entered
      ensures unfinished == 0 && Rooted(trackers, Root) && Ready(trackers, Root, [], [test], filters, k + 1)
      ensures Matches(trackers, Child(Root, test.name), test, filters, k + 1)
      ensures entered == old(entered) + Chain(Root, Stops(test, filters)[k].path)
    {
      hide Ready, Announced, Ran, Stops, StopsIn;
      ghost var m0 := trackers;
      var p;
      ghost var m1;
      p, m1 := Announce(test.name, [test], [], filters, k);
      RunCurrentTest(test, filters, k, m1);
      ChainFirst(Root, test, filters, k);
      CycleRan(m0, m1, trackers, test, filters, k);
    }
  }

  lemma {:induction false} CycleRan(m: Trackers, m1: Trackers, m2: Trackers, test: Section, filters: seq<string>,
                                    k: nat)
    requires Rooted(m, Root) && Rooted(m1, Root) && Announced(m, m1, Root, [], [test], filters, k)
    requires !test.throws && DistinctSiblings(test.children) && k < |Stops(test, filters)|
    requires Ran(m1, m2, Child(Root, test.name), test, filters, k, ExecutingChildren)
    ensures Rooted(m2, Root) && Ready(m2, Root, [], [test], filters, k + 1)
    ensures Matches(m2, Child(Root, test.name), test, filters, k + 1)
  {
    hide Announced, Ran, Matches, MatchesAll, Stops, StopsIn, SameOutside;
    StopAt(test, filters, k);
    assert ParentState(test, filters, k) == ExecutingChildren;
    FirstDone(m, m1, m2, Root, [], [test], filters, k, true);
    NextCycleReady(m2, test, filters, k + 1);
  }

  lemma {:induction false} FirstCycleReady(m: Trackers, test: Section, filters: seq<string>)
    requires Root in m && m[Root].children == [] && NextFilters(m[Root].filters) == filters
    ensures Ready(m, Root, [], [test], filters, 0)
    ensures Tour([]) == []
  {
  }

  lemma {:induction false} DoneIff(m: Trackers, p: Path, test: Section, filters: seq<string>, k: nat)
    requires 0 < k <= |Stops(test, filters)| && !test.throws && Matches(m, p, test, filters, k)
    ensures p in m && (m[p].state == CompletedSuccessfully <==> k == |Stops(test, filters)|)
  {
  }

  lemma {:induction false} NextCycleReady(m: Trackers, test: Section, filters: seq<string>, k: nat)
    requires Root in m && k <= |Stops(test, filters)| && Matches(m, Child(Root, test.name), test, filters, k)
    requires Ready(m, Root, [] + [test.name], [test][1..], filters, 0)
    ensures Ready(m, Root, [], [test], filters, k)
  {
    StopsInLength([test], filters);
    var names := m[Root].children;
    assert names == [test.name] && names[0..] == names;
    MatchesJoin(m, Root, names, [test], filters, k, 0);
  }

  // ---------- The tour ----------

  /** The test case as the trackers see it: what its own code throws is caught outside. */
  function TestCase(test: Section): Section {
    test.(throws := false)
  }

  /** The runs of a test case, given the sections asked for. */
  function TestRuns(test: Section, filters: seq<string>): seq<Stop> {
    Stops(TestCase(test), NextFilters(InitialFilters(filters)))
  }

  lemma {:induction false} TestSelected(test: Section, filters: seq<string>)
    ensures TestRuns(test, filters) != []
    ensures StopsIn([TestCase(test)], NextFilters(InitialFilters(filters))) == TestRuns(test, filters)
  {
    StopsNotEmpty(TestCase(test), NextFilters(InitialFilters(filters)));
    StopsInConcat([TestCase(test)], NextFilters(InitialFilters(filters)));
  }

  /** The sections entered in these runs. */
  function Tour(stops: seq<Stop>): seq<Path> {
    if stops == [] then [] else Tour(stops[..|stops| - 1]) + Chain(Root, stops[|stops| - 1].path)
  }

  lemma {:induction false} TourGrows(stops: seq<Stop>, n: nat)
    requires n < |stops|
    ensures Tour(stops[..n + 1]) == Tour(stops[..n]) + Chain(Root, stops[n].path)
  {
    assert stops[..n + 1][..n] == stops[..n];
  }

  function PathOf(p: Path, names: seq<Name>): Path
    decreases |names|
  {
    if names == [] then p else PathOf(Child(p, names[0]), names[1..])
  }

  lemma {:induction false} PathDepth(p: Path, names: seq<Name>)
    ensures Depth(PathOf(p, names)) == Depth(p) + |names| && Within(PathOf(p, names), p)
    decreases |names|
  {
    if names != [] {
      PathDepth(Child(p, names[0]), names[1..]);
      WithinParent(PathOf(p, names), p, names[0]);
    }
  }

  /** How often `x` occurs in `s`. */
  function Times(s: seq<Path>, x: Path): nat {
    if s == [] then 0 else (if s[0] == x then 1 else 0) + Times(s[1..], x)
  }

  lemma {:induction false} TimesConcat(a: seq<Path>, b: seq<Path>, x: Path)
    ensures Times(a + b, x) == Times(a, x) + Times(b, x)
  {
    if a == [] {
      assert a + b == b;
    } else {
      assert (a + b)[1..] == a[1..] + b;
      TimesConcat(a[1..], b, x);
    }
  }

  /** Places below different children are different. */
  lemma {:induction false} ChildrenApart(p: Path, a: seq<Name>, b: Name)
    requires a != [] && a[0] != b
    ensures !Within(PathOf(p, a), Child(p, b))
  {
    PathDepth(Child(p, a[0]), a[1..]);
    if Within(PathOf(p, a), Child(p, b)) {
      SiblingsApart(PathOf(p, a), p, b, [a[0]]);
      WithinBelow(PathOf(p, a), p, a[0]);
    }
  }

  lemma {:induction false} WithinBelow(q: Path, p: Path, name: Name)
    requires Within(q, Child(p, name))
    ensures Below(q, p, [name])
  {
    if q != Child(p, name) {
      WithinBelow(q.parent, p, name);
    }
  }

  /** The way along `names` passes a place exactly when `names` begins with the names of that place. */
  lemma {:induction false} ChainCount(p: Path, names: seq<Name>, q: seq<Name>)
    requires q != []
    ensures Times(Chain(p, names), PathOf(p, q)) == if q <= names then 1 else 0
    decreases |names|
  {
    if names != [] {
      var c := Child(p, names[0]);
      assert Chain(p, names)[1..] == Chain(c, names[1..]);
      PathDepth(Child(p, q[0]), q[1..]);
      if q[0] != names[0] {
        ChildrenApart(p, q, names[0]);
        ChainWithin(c, names[1..], PathOf(p, q));
      } else if |q| == 1 {
        ChainWithout(c, names[1..], c);
      } else {
        ChainCount(c, names[1..], q[1..]);
        assert q == [q[0]] + q[1..] && names == [names[0]] + names[1..];
      }
    }
  }

  lemma {:induction false} ChainWithin(p: Path, names: seq<Name>, x: Path)
    requires !Within(x, p)
    ensures Times(Chain(p, names), x) == 0
    decreases |names|
  {
    if names != [] {
      var c := Child(p, names[0]);
      assert Chain(p, names)[1..] == Chain(c, names[1..]);
      if Within(x, c) {
        WithinParent(x, p, names[0]);
      }
      ChainWithin(c, names[1..], x);
    }
  }

  lemma {:induction false} ChainWithout(p: Path, names: seq<Name>, x: Path)
    requires Depth(x) <= Depth(p)
    ensures Times(Chain(p, names), x) == 0
    decreases |names|
  {
    if names != [] {
      var c := Child(p, names[0]);
      assert Chain(p, names)[1..] == Chain(c, names[1..]);
      ChainWithout(c, names[1..], x);
    }
  }

  lemma {:induction false} TourCount(stops: seq<Stop>, q: seq<Name>)
    requires q != []
    ensures Times(Tour(stops), PathOf(Root, q)) == Entering(stops, q)
  {
    if stops != [] {
      hide Chain, PathOf, Times, Entering;
      var front, last := stops[..|stops| - 1], stops[|stops| - 1];
      TourCount(front, q);
      ChainCount(Root, last.path, q);
      TimesConcat(Tour(front), Chain(Root, last.path), PathOf(Root, q));
      assert stops == front + [last];
      EnteringMore(front, last, q);
    }
  }

  /** A leaf section is entered once if the runs reach it, and otherwise not at all. */
  lemma {:induction false} LeafEnteredOnce(test: Section, filters: seq<string>, q: seq<Name>)
    requires DistinctSiblings(test.children) && IsLeafPath([TestCase(test)], q)
    ensures Times(Tour(TestRuns(test, filters)), PathOf(Root, q)) ==
            if Reaches([TestCase(test)], NextFilters(InitialFilters(filters)), q) then 1 else 0
  {
    var f := NextFilters(InitialFilters(filters));
    TestSelected(test, filters);
    TourCount(TestRuns(test, filters), q);
    LeafEntered([TestCase(test)], f, q);
  }

  /** The number of cycles: one for each leaf that is reached, and the extra ones. */
  lemma {:induction false} CyclesCounted(test: Section, filters: seq<string>)
    requires DistinctSiblings(test.children)
    ensures var t, f := [TestCase(test)], NextFilters(InitialFilters(filters));
            |TestRuns(test, filters)| == Reached(DepthFirst(t), t, f, true) + ExtraRuns(t, f, true)
  {
    TestSelected(test, filters);
    RunsExactly([TestCase(test)], NextFilters(InitialFilters(filters)));
  }

  /** Without throws and filters, one cycle for each leaf section, in depth-first order. */
  lemma {:induction false} QuietTour(test: Section)
    requires Quiet(test.children)
    ensures Paths(TestRuns(test, [])) == DepthFirst([TestCase(test)])
  {
    TestSelected(test, []);
    RunsAreDepthFirst([TestCase(test)]);
  }

  // ---------- The sections asked for ----------

  /** Below the test case, every section on the way has the name asked for at its level, if one is. */
  predicate Permitted(p: Path, filters: seq<string>) {
    Depth(p) <= 1 || (Permitted(p.parent, filters) && Allowed(filters, Depth(p) - 2, p.name))
  }

  lemma {:induction false} TestFilters(filters: seq<string>, path: seq<Name>)
    ensures AllAllowed(NextFilters(InitialFilters(filters)), path) <==>
            forall k | 0 < k < |path| :: Allowed(filters, k - 1, path[k])
  {
    var f := NextFilters(InitialFilters(filters));
    forall k | 0 <= k < |path| ensures Allowed(f, k, path[k]) <==> k == 0 || Allowed(filters, k - 1, path[k]) {
      assert filters != [] ==> f == [""] + filters;
    }
  }

  lemma {:induction false} ChainPermitted(p: Path, names: seq<Name>, filters: seq<string>, x: Path)
    requires x in Chain(p, names) && Permitted(p, filters)
    requires forall k | 0 <= k < |names| && Depth(p) + k >= 1 :: Allowed(filters, Depth(p) + k - 1, names[k])
    ensures Permitted(x, filters)
    decreases |names|
  {
    var c := Child(p, names[0]);
    assert Permitted(c, filters);
    if x != c {
      assert x in Chain(c, names[1..]);
      assert forall k | 0 <= k < |names[1..]| :: names[1..][k] == names[k + 1];
      ChainPermitted(c, names[1..], filters, x);
    }
  }

  lemma {:induction false} TourPermitted(stops: seq<Stop>, filters: seq<string>, x: Path)
    requires x in Tour(stops)
    requires forall i | 0 <= i < |stops| :: AllAllowed(NextFilters(InitialFilters(filters)), stops[i].path)
    ensures Permitted(x, filters)
  {
    var front, last := stops[..|stops| - 1], stops[|stops| - 1];
    if x in Tour(front) {
      TourPermitted(front, filters, x);
    } else {
      TestFilters(filters, last.path);
      ChainPermitted(Root, last.path, filters, x);
    }
  }

  /** No cycle enters a section at a level where another name is asked for. */
  lemma {:induction false} OnlyPermittedEntered(test: Section, filters: seq<string>, cycles: nat)
    requires cycles <= |TestRuns(test, filters)|
    ensures forall p | p in Tour(TestRuns(test, filters)[..cycles]) :: Permitted(p, filters)
  {
    var stops := TestRuns(test, filters)[..cycles];
    forall i | 0 <= i < |stops| ensures AllAllowed(NextFilters(InitialFilters(filters)), stops[i].path) {
      StopAllowed(TestCase(test), NextFilters(InitialFilters(filters)), i);
    }
    forall p | p in Tour(stops) ensures Permitted(p, filters) {
      TourPermitted(stops, filters, p);
    }
  }

  /** When only leaves throw, a leaf is entered once if every section on the way to it has the name asked for at
      its level, and never if one has not. */
  lemma {:induction false} AskedForOnce(test: Section, filters: seq<string>, q: seq<Name>)
    requires DistinctSiblings(test.children) && OnlyLeavesThrow(test.children) && IsLeafPath([TestCase(test)], q)
    ensures Times(Tour(TestRuns(test, filters)), PathOf(Root, q)) ==
            if forall k | 0 < k < |q| :: Allowed(filters, k - 1, q[k]) then 1 else 0
  {
    LeafEnteredOnce(test, filters, q);
    ReachesIffAllowed([TestCase(test)], NextFilters(InitialFilters(filters)), q);
    TestFilters(filters, q);
  }

  /** Sections without sections inside that throw keep no other from being entered, once. */
  lemma {:induction false} EveryLeafOnce(test: Section, q: seq<Name>)
    requires DistinctSiblings(test.children) && OnlyLeavesThrow(test.children) && IsLeafPath([TestCase(test)], q)
    ensures Times(Tour(TestRuns(test, [])), PathOf(Root, q)) == 1
  {
    EveryLeafReached([TestCase(test)], q);
    LeafEnteredOnce(test, [], q);
  }
}
