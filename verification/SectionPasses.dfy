/** What one pass through SECTION blocks side by side, and one run of a section, does to the trackers. */
module SectionPasses {
  import opened Machine
  import opened SectionTree
  import opened TrackerStates

  // ---------- A pass over sections side by side ----------

  /** Before a pass: `k` runs have entered the sections, and those that are known come from the left. */
  ghost predicate Ready(m: Trackers, p: Path, known: seq<Name>, sections: seq<Section>, filters: seq<string>, k: nat)
    requires p in m
  {
    && k <= |StopsIn(sections, filters)| && NextFilters(m[p].filters) == filters && known <= m[p].children
    && MatchesAll(m, p, m[p].children[|known|..], sections, filters, k)
  }

  lemma {:induction false} RestSame(m: Trackers, m': Trackers, p: Path, changed: seq<Name>, names: seq<Name>,
                                    sections: seq<Section>, filters: seq<string>, k: nat)
    requires SameOutside(m, m', p, changed) && MatchesAll(m, p, names, sections, filters, k)
    requires forall i | 0 <= i < |sections| :: sections[i].name !in changed
    ensures MatchesAll(m', p, names, sections, filters, k)
  {
    forall i | 0 <= i < |sections| ensures SameBelow(m, m', Child(p, sections[i].name)) {
      SameBelowSibling(m, m', p, changed, sections[i].name);
    }
    SameBelowEach(m, m', p, sections);
    MatchesAllSame(m, m', p, names, sections, filters, k);
  }

  /** What announcing the first of the sections leaves. */
  ghost predicate Announced(m: Trackers, m': Trackers, p: Path, known: seq<Name>, sections: seq<Section>,
                            filters: seq<string>, k: nat)
    requires sections != [] && p in m
  {
    var s := sections[0];
    var j := Min(k, |Stops(s, filters)|);
    && p in m' && m'[p].state == m[p].state && m'[p].filters == m[p].filters
    && m.Keys <= m'.Keys && SameOutside(m, m', p, [s.name])
    && Matches(m', Child(p, s.name), s, filters, j)
    && Ready(m', p, known + [s.name], sections[1..], filters, k - j)
  }

  lemma {:induction false} KnownAnnounced(m: Trackers, p: Path, known: seq<Name>, sections: seq<Section>,
                                          filters: seq<string>, k: nat)
    requires sections != [] && p in m && Ready(m, p, known, sections, filters, k) && known != m[p].children
    ensures var s := sections[0];
            && Child(p, s.name) in m && Discovered(m, p, s.name) == m
            && Announced(m, m, p, known, sections, filters, k)
  {
    var children := m[p].children;
    var names := children[|known|..];
    assert names != [] && names[0] == children[|known|];
    assert Matches(m, Child(p, names[0]), sections[0], filters, Min(k, |Stops(sections[0], filters)|));
    assert names[1..] == children[|known + [sections[0].name]|..];
    StopsInLength(sections, filters);
  }

  lemma {:induction false} FreshAnnounced(m: Trackers, p: Path, known: seq<Name>, sections: seq<Section>,
                                          filters: seq<string>)
    requires sections != [] && p in m && m[p].children == known && sections[0].name !in known
    requires NextFilters(m[p].filters) == filters
    ensures Announced(m, Discovered(m, p, sections[0].name), p, known, sections, filters, 0)
  {
    var s := sections[0];
    var q := Child(p, s.name);
    var m' := Discovered(m, p, s.name);
    assert Depth(q) > Depth(p);
    assert m'[q] == Tracker(NotStarted, [], filters) && m'[p].children == known + [s.name];
    assert Below(q, p, [s.name]);
  }

  lemma {:induction false} Discovering(m: Trackers, p: Path, known: seq<Name>, sections: seq<Section>,
                                       filters: seq<string>, k: nat)
    requires sections != [] && p in m && Ready(m, p, known, sections, filters, k) && sections[0].name !in known
    ensures var s := sections[0];
            && (s.name in m[p].children ==> Child(p, s.name) in m)
            && Announced(m, Discovered(m, p, s.name), p, known, sections, filters, k)
  {
    if known != m[p].children {
      KnownAnnounced(m, p, known, sections, filters, k);
    } else {
      FreshAnnounced(m, p, known, sections, filters);
    }
  }

  /** Announcing a child leaves its parent settled. */
  lemma {:induction false} Settling(m: Trackers, m': Trackers, p: Path, name: Name)
    requires Rooted(m, p) && Settled(m, p) && (name in m[p].children ==> Child(p, name) in m)
    requires m' == Discovered(m, p, name) && Rooted(m', p)
    ensures Rooted(m', Child(p, name)) && OpenedUp(m', Child(p, name)) == Opened(m', Child(p, name))
  {
    assert p.Child? ==> Depth(p.parent) < Depth(p) < Depth(Child(p, name));
    OpenedOnce(m', Child(p, name));
  }

  /** The tracker opens a section exactly when the cycle is not over and runs of it are left. */
  lemma {:induction false} OpensIff(m: Trackers, q: Path, s: Section, filters: seq<string>, k: nat, over: bool)
    requires q.Child? && q.name == s.name && Rooted(m, q) && (over ==> k == 0)
    requires Matches(m, q, s, filters, Min(k, |Stops(s, filters)|))
    ensures var opens := !over && !IsComplete(m[q]) && Selected(q.name, m[q].filters);
            && opens == (!over && k < |Stops(s, filters)|)
            && IsOpen((if opens then Opened(m, q) else m)[q]) == opens
  {
    assert Depth(q) > Depth(q.parent);
    CompleteIff(m, q, s, filters, Min(k, |Stops(s, filters)|));
    StopsNotEmpty(s, filters);
  }

  /** The pass has dealt with the first section, which `j` runs have entered, and is ready for the others. */
  ghost predicate FirstPassed(m: Trackers, m': Trackers, p: Path, known: seq<Name>, sections: seq<Section>,
                              filters: seq<string>, j: nat, rest: nat)
    requires sections != []
  {
    var s := sections[0];
    && p in m && p in m' && m'[p].filters == m[p].filters
    && SameOutside(m, m', p, [s.name]) && m.Keys <= m'.Keys && Rooted(m', p) && Settled(m', p)
    && Matches(m', Child(p, s.name), s, filters, j) && Ready(m', p, known + [s.name], sections[1..], filters, rest)
  }

  lemma {:induction false} PassOne(m: Trackers, m1: Trackers, m2: Trackers, p: Path, known: seq<Name>,
                                   sections: seq<Section>, filters: seq<string>, rest: nat)
    requires sections != [] && DistinctSiblings(sections) && Rooted(m, p) && Settled(m, p)
    requires SameOutside(m, m1, p, [sections[0].name]) && SameOutside(m1, m2, p, [sections[0].name])
    requires m.Keys <= m1.Keys <= m2.Keys && m2[p].children == m1[p].children && m2[p].filters == m1[p].filters
    requires Ready(m1, p, known + [sections[0].name], sections[1..], filters, rest)
    ensures SameOutside(m, m2, p, [sections[0].name]) && Rooted(m2, p) && Settled(m2, p)
    ensures Ready(m2, p, known + [sections[0].name], sections[1..], filters, rest)
  {
    var name := sections[0].name;
    SameOutsideJoin(m, m1, m2, p, [name], [name], [name]);
    StillRooted(m, m2, p);
    if p.Child? {
      assert Depth(p.parent) < Depth(p);
      NotBelowSelf(p.parent, p, [name]);
    }
    assert forall i | 0 <= i < |sections[1..]| :: sections[1..][i] == sections[i + 1];
    RestSame(m1, m2, p, [name], m1[p].children[|known| + 1..], sections[1..], filters, rest);
  }

  /** A pass over sections side by side, after which `k` runs have entered them; all are known if it was whole. */
  ghost predicate Passed(m: Trackers, m': Trackers, p: Path, known: seq<Name>, sections: seq<Section>,
                         filters: seq<string>, k: nat, whole: bool)
  {
    && p in m && p in m' && m'[p].filters == m[p].filters
    && m.Keys <= m'.Keys && SameOutside(m, m', p, Names(sections)) && known <= m'[p].children
    && MatchesAll(m', p, m'[p].children[|known|..], sections, filters, k)
    && (whole ==> m'[p].children == known + Names(sections))
  }

  lemma {:induction false} NamesTail(sections: seq<Section>, known: seq<Name>)
    requires sections != []
    ensures known + Names(sections) == known + [sections[0].name] + Names(sections[1..])
    ensures forall x | x in Names(sections) :: x == sections[0].name || x in Names(sections[1..])
    ensures forall x | x in Names(sections[1..]) :: x in Names(sections)
    ensures sections[0].name in Names(sections)
  {
    assert Names(sections) == [sections[0].name] + Names(sections[1..]);
  }

  lemma {:induction false} MatchesJoin(m: Trackers, p: Path, names: seq<Name>, sections: seq<Section>,
                                       filters: seq<string>, j: nat, rest: nat)
    requires sections != [] && names != [] && names[0] == sections[0].name
    requires Matches(m, Child(p, names[0]), sections[0], filters, j)
    requires MatchesAll(m, p, names[1..], sections[1..], filters, rest)
    requires j <= |Stops(sections[0], filters)| && (rest > 0 ==> j == |Stops(sections[0], filters)|)
    ensures MatchesAll(m, p, names, sections, filters, j + rest)
  {
    hide Matches, Stops;
    assert Min(j + rest, |Stops(sections[0], filters)|) == j;
  }

  lemma {:induction false} PassRest(m: Trackers, m1: Trackers, m2: Trackers, p: Path, known: seq<Name>,
                                    sections: seq<Section>, filters: seq<string>, j: nat, rest: nat, whole: bool)
    requires sections != [] && DistinctSiblings(sections)
    requires p in m && m.Keys <= m1.Keys && m1[p].filters == m[p].filters
    requires SameOutside(m, m1, p, [sections[0].name])
    requires Matches(m1, Child(p, sections[0].name), sections[0], filters, j)
    requires Passed(m1, m2, p, known + [sections[0].name], sections[1..], filters, rest, whole)
    requires j <= |Stops(sections[0], filters)| && (rest > 0 ==> j == |Stops(sections[0], filters)|)
    ensures Passed(m, m2, p, known, sections, filters, j + rest, whole)
  {
    var s, tail := sections[0], Names(sections[1..]);
    NamesTail(sections, known);
    SameOutsideJoin(m, m1, m2, p, [s.name], tail, Names(sections));
    FirstNotLater(sections);
    SameBelowSibling(m1, m2, p, tail, s.name);
    MatchesSame(m1, m2, Child(p, s.name), s, filters, j);
    var names := m2[p].children[|known|..];
    assert names[0] == s.name && names[1..] == m2[p].children[|known + [s.name]|..];
    MatchesJoin(m2, p, names, sections, filters, j, rest);
  }

  lemma {:induction false} TailUnknown(sections: seq<Section>, known: seq<Name>)
    requires sections != [] && DistinctSiblings(sections)
    requires forall i | 0 <= i < |sections| :: sections[i].name !in known
    ensures forall i | 0 <= i < |sections[1..]| :: sections[1..][i].name !in known + [sections[0].name]
  {
    assert forall i | 0 <= i < |sections[1..]| :: sections[1..][i] == sections[i + 1];
  }

  // ---------- One section ----------

  /** Opening it. */
  lemma {:induction false} Opening(m: Trackers, q: Path, s: Section, filters: seq<string>, k: nat)
    requires q.Child? && Rooted(m, q) && Matches(m, q, s, filters, k) && k < |Stops(s, filters)|
    ensures var m' := Opened(m, q);
            && Rooted(m', q) && Settled(m', q) && SameOutside(m, m', q.parent, [q.name]) && m'[q].state == Executing
            && Ready(m', q, [], s.children, NextFilters(filters), k)
  {
    var m' := Opened(m, q);
    assert Depth(q) > Depth(q.parent);
    StillRooted(m, m', q);
    StopAt(s, filters, k);
    assert m'[q].children[0..] == m[q].children;
    if k > 0 {
      assert SameOutside(m, m', q.parent, [q.name]);
      forall i | 0 <= i < |s.children| ensures SameBelow(m, m', Child(q, s.children[i].name)) {
        forall r | Within(r, Child(q, s.children[i].name)) ensures r != q && r != q.parent {
          WithinDepth(r, Child(q, s.children[i].name));
        }
      }
      SameBelowEach(m, m', q, s.children);
      MatchesAllSame(m, m', q, m[q].children, s.children, NextFilters(filters), k);
    }
  }

  /** The state of a section's tracker when its body has been run through or left by a throw from inside. */
  function BodyState(s: Section, filters: seq<string>, k: nat): RunState {
    var inner := StopsIn(s.children, NextFilters(filters));
    if k >= |inner| then Executing else if inner[k].thrown == 1 then NeedsAnotherRun else ExecutingChildren
  }

  /** A body that has been run through, or left by a throw from inside. */
  ghost predicate BodyRan(m: Trackers, p: Path, s: Section, filters: seq<string>, k: nat)
    requires p in m
  {
    var inner := StopsIn(s.children, NextFilters(filters));
    var thrown := if k < |inner| then inner[k].thrown else 0;
    && m[p].filters == filters && m[p].state == BodyState(s, filters, k)
    && MatchesAll(m, p, m[p].children, s.children, NextFilters(filters), if k < |inner| then k + 1 else k)
    && (thrown == 0 ==> m[p].children == Names(s.children)) && (thrown > 1 ==> LastUnfinished(m, p))
  }

  lemma {:induction false} BodyLast(m: Trackers, p: Path, s: Section, filters: seq<string>, k: nat)
    requires p in m && BodyRan(m, p, s, filters, k)
    ensures LastThere(m, p) && IsOpen(m[p])
  {
    var inner := StopsIn(s.children, NextFilters(filters));
    if m[p].children != [] {
      LastKnown(m, p, m[p].children, s.children, NextFilters(filters), if k < |inner| then k + 1 else k);
    }
  }

  /** Another state of `p` changes nothing below it. */
  lemma {:induction false} SelfChanged(m: Trackers, p: Path, t: Tracker, sections: seq<Section>)
    requires p in m
    ensures SameBelowAll(m, m[p := t], p, sections) && SameOutside(m, m[p := t], p, [])
  {
    var m' := m[p := t];
    forall i | 0 <= i < |sections| ensures SameBelow(m, m', Child(p, sections[i].name)) {
      forall r | Within(r, Child(p, sections[i].name)) ensures r != p {
        WithinDepth(r, Child(p, sections[i].name));
      }
    }
    SameBelowEach(m, m', p, sections);
  }

  lemma {:induction false} NewStateMatches(m: Trackers, p: Path, s: Section, filters: seq<string>, k: nat,
                                           state: RunState)
    requires p in m && m[p].filters == filters && state == StateAfter(s, filters, k + 1)
    requires k + 1 < |Stops(s, filters)| ==>
               MatchesAll(m, p, m[p].children, s.children, NextFilters(filters), k + 1)
    ensures var m' := m[p := m[p].(state := state)];
            Matches(m', p, s, filters, k + 1) && SameOutside(m, m', p, [])
  {
    hide SameOutside, MatchesAll, Stops, StateAfter;
    SelfChanged(m, p, m[p].(state := state), s.children);
    if k + 1 < |Stops(s, filters)| {
      ChildrenKept(m, p, s.children, NextFilters(filters), k + 1, state);
    }
  }

  lemma {:induction false} ChildrenKept(m: Trackers, p: Path, sections: seq<Section>, filters: seq<string>, k: nat,
                                        state: RunState)
    requires p in m && MatchesAll(m, p, m[p].children, sections, filters, k)
    ensures MatchesAll(m[p := m[p].(state := state)], p, m[p].children, sections, filters, k)
  {
    SelfChanged(m, p, m[p].(state := state), sections);
    MatchesAllSame(m, m[p := m[p].(state := state)], p, m[p].children, sections, filters, k);
  }

  /** Closing does nothing after a throw from inside. */
  lemma {:induction false} ClosingThrown(m: Trackers, p: Path, s: Section, filters: seq<string>, k: nat)
    requires p in m && BodyRan(m, p, s, filters, k) && LastThere(m, p)
    requires var inner := StopsIn(s.children, NextFilters(filters)); k < |inner| && inner[k].thrown > 0
    ensures Closed(m, p) == m[p := m[p]] == m
  {
  }

  /** Closing after a run inside completes the section exactly when no run is left. */
  lemma {:induction false} ClosingLast(m: Trackers, p: Path, s: Section, filters: seq<string>, k: nat)
    requires p in m && BodyRan(m, p, s, filters, k) && k < |Stops(s, filters)| && LastThere(m, p) && !s.throws
    requires var inner := StopsIn(s.children, NextFilters(filters)); k < |inner| && inner[k].thrown == 0
    ensures Closed(m, p)[p].state == StateAfter(s, filters, k + 1)
  {
    var f := NextFilters(filters);
    StopAt(s, filters, k);
    NamesSpec(s.children);
    LastComplete(m, p, s.children, f, k + 1);
  }

  lemma {:induction false} ClosedState(m: Trackers, p: Path, s: Section, filters: seq<string>, k: nat)
    requires p in m && BodyRan(m, p, s, filters, k) && k < |Stops(s, filters)| && LastThere(m, p)
    requires s.throws ==> Stops(s, filters)[k].thrown > 1
    ensures Closed(m, p)[p].state == StateAfter(s, filters, k + 1)
  {
    var inner := StopsIn(s.children, NextFilters(filters));
    StopAt(s, filters, k);
    if k < |inner| {
      if inner[k].thrown > 0 {
        ClosingThrown(m, p, s, filters, k);
      } else {
        ClosingLast(m, p, s, filters, k);
      }
    }
  }

  /** Closing it after its body has run. */
  lemma {:induction false} Closing(m: Trackers, p: Path, s: Section, filters: seq<string>, k: nat)
    requires p in m && BodyRan(m, p, s, filters, k) && k < |Stops(s, filters)| && LastThere(m, p)
    requires s.throws ==> Stops(s, filters)[k].thrown > 1
    ensures Matches(Closed(m, p), p, s, filters, k + 1) && SameOutside(m, Closed(m, p), p, [])
  {
    StopAt(s, filters, k);
    ClosedState(m, p, s, filters, k);
    NewStateMatches(m, p, s, filters, k, Closed(m, p)[p].state);
    assert Closed(m, p) == m[p := m[p].(state := Closed(m, p)[p].state)];
  }

  // ---------- Runs of one section ----------

  /** The end of a section: its trackers are as after one more run, and nothing else has changed but the parent. */
  ghost predicate Ran(m: Trackers, m': Trackers, p: Path, s: Section, filters: seq<string>, k: nat, state: RunState)
    requires p.Child?
  {
    && Matches(m', p, s, filters, k + 1) && SameOutside(m, m', p.parent, [p.name]) && m.Keys <= m'.Keys
    && p.parent in m && m'[p.parent] == m[p.parent].(state := state)
  }

  /** The state in which run `k` of a section leaves the tracker above it. */
  function ParentState(s: Section, filters: seq<string>, k: nat): RunState
    requires k < |Stops(s, filters)|
  {
    if Stops(s, filters)[k].thrown == 1 then NeedsAnotherRun else ExecutingChildren
  }

  lemma {:induction false} RanClosed(m: Trackers, m1: Trackers, p: Path, s: Section, filters: seq<string>, k: nat)
    requires p.Child? && p.parent in m && m.Keys <= m1.Keys && m[p.parent].state == ExecutingChildren
    requires SameOutside(m, m1, p, Names(s.children)) && p in m1 && LastThere(m1, p)
    requires Matches(Closed(m1, p), p, s, filters, k + 1) && SameOutside(m1, Closed(m1, p), p, [])
    ensures Ran(m, Closed(m1, p), p, s, filters, k, ExecutingChildren)
  {
    SameOutsideNested(m, m1, p.parent, p.name, Names(s.children));
    SameOutsideNested(m1, Closed(m1, p), p.parent, p.name, []);
    SameOutsideJoin(m, m1, Closed(m1, p), p.parent, [p.name], [p.name], [p.name]);
  }

  lemma {:induction false} RanFailed(m: Trackers, m1: Trackers, p: Path, s: Section, filters: seq<string>, k: nat)
    requires p.Child? && p.parent in m && m.Keys <= m1.Keys
    requires SameOutside(m, m1, p, Names(s.children)) && p in m1 && m1[p].filters == filters
    requires s.throws && k + 1 == |Stops(s, filters)|
    ensures Ran(m, FailedAt(m1, p), p, s, filters, k, NeedsAnotherRun)
  {
    SameOutsideNested(m, m1, p.parent, p.name, Names(s.children));
    assert Depth(p) > Depth(p.parent);
    assert Below(p, p.parent, [p.name]);
    assert SameOutside(m1, FailedAt(m1, p), p.parent, [p.name]);
    SameOutsideJoin(m, m1, FailedAt(m1, p), p.parent, [p.name], [p.name], [p.name]);
  }

  lemma {:induction false} RanFromOpening(m: Trackers, m': Trackers, p: Path, s: Section, filters: seq<string>,
                                          k: nat, state: RunState)
    requires p.Child? && Rooted(m, p) && Ran(Opened(m, p), m', p, s, filters, k, state)
    requires SameOutside(m, Opened(m, p), p.parent, [p.name])
    ensures Ran(m, m', p, s, filters, k, state)
  {
    SameOutsideJoin(m, Opened(m, p), m', p.parent, [p.name], [p.name], [p.name]);
    assert Depth(p) > Depth(p.parent);
  }

  /** After a pass the body of a section has been run through, or left by a throw from inside. */
  lemma {:induction false} BodyPassed(m: Trackers, m': Trackers, p: Path, s: Section, filters: seq<string>, k: nat,
                                      whole: bool)
    requires p in m && m[p].filters == filters && k < |Stops(s, filters)|
    requires var inner := StopsIn(s.children, NextFilters(filters));
             var thrown := if k < |inner| then inner[k].thrown else 0;
             && Passed(m, m', p, [], s.children, NextFilters(filters), if k < |inner| then k + 1 else k, whole)
             && (thrown == 0 ==> whole) && (thrown > 1 ==> LastUnfinished(m', p))
    requires m'[p].state == BodyState(s, filters, k)
    ensures BodyRan(m', p, s, filters, k)
  {
    assert m'[p].children[0..] == m'[p].children;
    assert [] + Names(s.children) == Names(s.children);
  }

  /** What a run of the body does, seen from the section. */
  lemma {:induction false} BodyDone(m: Trackers, m': Trackers, p: Path, s: Section, filters: seq<string>, k: nat,
                                    over: bool, entered: seq<Path>, unfinished: nat)
    requires p.Child? && p in m && m[p].filters == filters && m[p].state == Executing && k < |Stops(s, filters)|
    requires PassRun(m, m', p, [], s.children, NextFilters(filters), k, false, over, entered, unfinished)
    ensures p in m' && BodyRan(m', p, s, filters, k)
    ensures var inner := StopsIn(s.children, NextFilters(filters));
            && k <= |inner| && unfinished == (if k < |inner| then inner[k].thrown else 0)
            && entered == Chain(p, if k < |inner| then inner[k].path else [])
    ensures SameOutside(m, m', p, Names(s.children)) && m.Keys <= m'.Keys
  {
    hide SameOutside, MatchesAll, LastUnfinished, Stops, StopsIn;
    StopAt(s, filters, k);
    BodyPassed(m, m', p, s, filters, k, unfinished == 0);
  }

  lemma {:induction false} FirstDone(m: Trackers, m1: Trackers, m2: Trackers, p: Path, known: seq<Name>,
                                     sections: seq<Section>, filters: seq<string>, k: nat, ran: bool)
    requires sections != [] && DistinctSiblings(sections) && Rooted(m, p) && Settled(m, p)
    requires Announced(m, m1, p, known, sections, filters, k) && Rooted(m1, p)
    requires var s := sections[0];
             if ran then
               k < |Stops(s, filters)| && Ran(m1, m2, Child(p, s.name), s, filters, k, ParentState(s, filters, k))
             else m2 == m1
    ensures var j := Min(k, |Stops(sections[0], filters)|);
            FirstPassed(m, m2, p, known, sections, filters, if ran then k + 1 else j, k - j)
    ensures m2[p].state == if ran then ParentState(sections[0], filters, k) else m[p].state
  {
    PassOne(m, m1, m2, p, known, sections, filters, k - Min(k, |Stops(sections[0], filters)|));
  }

  /** A throw out of the first section ends the pass. */
  lemma {:induction false} PassCut(m: Trackers, m': Trackers, p: Path, known: seq<Name>, sections: seq<Section>,
                                   filters: seq<string>, k: nat)
    requires sections != [] && DistinctSiblings(sections) && k < |Stops(sections[0], filters)|
    requires FirstPassed(m, m', p, known, sections, filters, k + 1, 0)
    ensures Passed(m, m', p, known, sections, filters, k + 1, false)
    ensures Stops(sections[0], filters)[k].thrown > 1 ==> LastUnfinished(m', p)
  {
    assert Passed(m', m', p, known + [sections[0].name], sections[1..], filters, 0, false);
    PassRest(m, m', m', p, known, sections, filters, k + 1, 0, false);
    if Stops(sections[0], filters)[k].thrown > 1 {
      assert known < m'[p].children;
      LastIncomplete(m', p, known, sections, filters, k);
    }
  }

  lemma {:induction false} ChainFirst(p: Path, s: Section, filters: seq<string>, k: nat)
    requires k < |Stops(s, filters)|
    ensures var path := Stops(s, filters)[k].path;
            && path != [] && path[0] == s.name
            && Chain(p, path) == [Child(p, s.name)] + Chain(Child(p, s.name), path[1..])
  {
    StopAt(s, filters, k);
  }

  /**
   * What a pass through sections with these runs does when `k` of them have been made: run `k`, unless
   * the cycle is over or none is left. It says how the cycle stands before and after, likewise the state
   * of the tracker at `p`, which sections are entered, and how many of them are left by a throw.
   */
  ghost predicate Effect(stops: seq<Stop>, k: nat, p: Path, over: bool, state: RunState,
                         over': bool, state': RunState, entered: seq<Path>, unfinished: nat)
  {
    if !over && k < |stops| then
      && over' && state' == (if stops[k].thrown == 1 then NeedsAnotherRun else ExecutingChildren)
      && entered == Chain(p, stops[k].path) && unfinished == stops[k].thrown
    else over' == over && state' == state && entered == [] && unfinished == 0
  }

  lemma {:induction false} EffectFirst(first: seq<Stop>, tail: seq<Stop>, k: nat, p: Path, over: bool, state: RunState,
                                       over': bool, state': RunState, entered: seq<Path>, unfinished: nat)
    requires unfinished > 0 && Effect(first, k, p, over, state, over', state', entered, unfinished)
    ensures !over && k < |first|
    ensures Effect(first + tail, k, p, over, state, over', state', entered, unfinished)
  {
  }

  lemma {:induction false} EffectJoin(first: seq<Stop>, tail: seq<Stop>, k: nat, p: Path, over: bool, state: RunState,
                                      over1: bool, state1: RunState, entered1: seq<Path>,
                                      over2: bool, state2: RunState, entered2: seq<Path>, unfinished: nat)
    requires over ==> k == 0
    requires Effect(first, k, p, over, state, over1, state1, entered1, 0)
    requires Effect(tail, k - Min(k, |first|), p, over1, state1, over2, state2, entered2, unfinished)
    ensures Effect(first + tail, k, p, over, state, over2, state2, entered1 + entered2, unfinished)
  {
  }

  /** How many runs have entered sections with `n` runs, after a pass that found `k` made. */
  function After(n: nat, k: nat, over: bool): nat {
    if !over && k < n then k + 1 else Min(k, n)
  }

  /** After the first of the sections and then the others, a pass over all of them has been made. */
  lemma {:induction false} PassJoin(m: Trackers, m1: Trackers, m2: Trackers, p: Path, known: seq<Name>,
                                    sections: seq<Section>,
                                    filters: seq<string>, j: nat, rest: nat, rest': nat, whole: bool)
    requires sections != [] && DistinctSiblings(sections)
    requires FirstPassed(m, m1, p, known, sections, filters, j, rest)
    requires Passed(m1, m2, p, known + [sections[0].name], sections[1..], filters, rest', whole)
    requires j <= |Stops(sections[0], filters)| && (rest' > 0 ==> j == |Stops(sections[0], filters)|)
    ensures Passed(m, m2, p, known, sections, filters, j + rest', whole)
  {
    PassRest(m, m1, m2, p, known, sections, filters, j, rest', whole);
  }

  lemma {:induction false} AfterJoin(sections: seq<Section>, filters: seq<string>, k: nat, over: bool)
    requires sections != [] && k <= |StopsIn(sections, filters)| && (over ==> k == 0)
    ensures var n, t := |Stops(sections[0], filters)|, |StopsIn(sections[1..], filters)|;
            var j, rest := After(n, k, over), After(t, k - Min(k, n), over || k < n);
            After(|StopsIn(sections, filters)|, k, over) == j + rest && j <= n && (rest > 0 ==> j == n)
  {
    StopsInLength(sections, filters);
  }

  /** All that dealing with the first of the sections does. */
  ghost predicate FirstRun(m: Trackers, m': Trackers, p: Path, known: seq<Name>, sections: seq<Section>,
                           filters: seq<string>,
                           k: nat, over: bool, over': bool, entered: seq<Path>, unfinished: nat)
  {
    && sections != [] && p in m && p in m'
    && (var n := |Stops(sections[0], filters)|;
        FirstPassed(m, m', p, known, sections, filters, After(n, k, over), k - Min(k, n)))
    && Effect(Stops(sections[0], filters), k, p, over, m[p].state, over', m'[p].state, entered, unfinished)
  }

  /** All that a pass over the sections does; a throw ends it before all of them are known. */
  ghost predicate PassRun(m: Trackers, m': Trackers, p: Path, known: seq<Name>, sections: seq<Section>,
                          filters: seq<string>,
                          k: nat, over: bool, over': bool, entered: seq<Path>, unfinished: nat)
  {
    && p in m && p in m'
    && Passed(m, m', p, known, sections, filters, After(|StopsIn(sections, filters)|, k, over), unfinished == 0)
    && Effect(StopsIn(sections, filters), k, p, over, m[p].state, over', m'[p].state, entered, unfinished)
    && (unfinished > 1 ==> LastUnfinished(m', p))
  }

  lemma {:induction false} ReadyBound(m: Trackers, p: Path, known: seq<Name>, sections: seq<Section>,
                                      filters: seq<string>, k: nat)
    requires p in m && Ready(m, p, known, sections, filters, k)
    ensures k <= |StopsIn(sections, filters)|
  {
  }

  lemma {:induction false} PassNothing(m: Trackers, p: Path, known: seq<Name>, filters: seq<string>, k: nat, over: bool)
    requires p in m && Ready(m, p, known, [], filters, k)
    ensures PassRun(m, m, p, known, [], filters, k, over, over, [], 0)
  {
    assert m[p].children[|known|..] == [];
    assert m[p].children == known + Names([]);
  }

  /** The first section announced, and run if it was open. */
  lemma {:induction false} FirstAnnounced(m: Trackers, m1: Trackers, m2: Trackers, p: Path, known: seq<Name>,
                                          sections: seq<Section>,
                                          filters: seq<string>, k: nat, over: bool, entered: seq<Path>, unfinished: nat)
    requires sections != [] && DistinctSiblings(sections) && Rooted(m, p) && Settled(m, p)
    requires Announced(m, m1, p, known, sections, filters, k) && Rooted(m1, p)
    requires var s := sections[0];
             if !over && k < |Stops(s, filters)| then
               && Ran(m1, m2, Child(p, s.name), s, filters, k, ParentState(s, filters, k))
               && entered == Chain(p, Stops(s, filters)[k].path) && unfinished == Stops(s, filters)[k].thrown
             else m2 == m1 && entered == [] && unfinished == 0
    ensures FirstRun(m, m2, p, known, sections, filters, k, over,
                     over || k < |Stops(sections[0], filters)|, entered, unfinished)
  {
    hide Announced, Ran, FirstPassed, Stops;
    FirstDone(m, m1, m2, p, known, sections, filters, k, !over && k < |Stops(sections[0], filters)|);
  }

  lemma {:induction false} FirstThrows(m: Trackers, m': Trackers, p: Path, known: seq<Name>, sections: seq<Section>,
                                       filters: seq<string>,
                                       k: nat, over: bool, over': bool, entered: seq<Path>, unfinished: nat)
    requires FirstRun(m, m', p, known, sections, filters, k, over, over', entered, unfinished)
    requires unfinished > 0 && DistinctSiblings(sections)
    ensures PassRun(m, m', p, known, sections, filters, k, over, over', entered, unfinished)
  {
    hide FirstPassed, Passed, Stops, StopsIn, LastUnfinished;
    var first, tail := Stops(sections[0], filters), StopsIn(sections[1..], filters);
    StopsInConcat(sections, filters);
    EffectFirst(first, tail, k, p, over, m[p].state, over', m'[p].state, entered, unfinished);
    PassCut(m, m', p, known, sections, filters, k);
  }

  lemma {:induction false} PassGoesOn(m: Trackers, m': Trackers, p: Path, known: seq<Name>, sections: seq<Section>,
                                      filters: seq<string>, k: nat, over: bool, over': bool, entered: seq<Path>)
    requires FirstRun(m, m', p, known, sections, filters, k, over, over', entered, 0) && (over ==> k == 0)
    requires DistinctSiblings(sections) && forall i | 0 <= i < |sections| :: sections[i].name !in known
    ensures var rest := k - Min(k, |Stops(sections[0], filters)|);
            && Rooted(m', p) && Settled(m', p) && (over' ==> rest == 0)
            && Ready(m', p, known + [sections[0].name], sections[1..], filters, rest)
    ensures DistinctSiblings(sections[1..])
    ensures forall i | 0 <= i < |sections[1..]| :: sections[1..][i].name !in known + [sections[0].name]
  {
    DistinctTail(sections);
    TailUnknown(sections, known);
  }

  lemma {:induction false} FirstThenRest(m: Trackers, m1: Trackers, m2: Trackers, p: Path, known: seq<Name>,
                                         sections: seq<Section>,
                                         filters: seq<string>, k: nat, over: bool, over1: bool, entered1: seq<Path>,
                                         over2: bool, entered2: seq<Path>, unfinished: nat)
    requires FirstRun(m, m1, p, known, sections, filters, k, over, over1, entered1, 0)
    requires var rest := k - Min(k, |Stops(sections[0], filters)|);
             PassRun(m1, m2, p, known + [sections[0].name], sections[1..], filters,
                     rest, over1, over2, entered2, unfinished)
    requires DistinctSiblings(sections) && k <= |StopsIn(sections, filters)| && (over ==> k == 0)
    ensures PassRun(m, m2, p, known, sections, filters, k, over, over2, entered1 + entered2, unfinished)
  {
    hide FirstPassed, Passed, Stops, StopsIn, LastUnfinished;
    var first, tail := Stops(sections[0], filters), StopsIn(sections[1..], filters);
    var rest := k - Min(k, |first|);
    StopsInConcat(sections, filters);
    EffectJoin(first, tail, k, p, over, m[p].state, over1, m1[p].state, entered1,
               over2, m2[p].state, entered2, unfinished);
    AfterJoin(sections, filters, k, over);
    PassJoin(m, m1, m2, p, known, sections, filters,
             After(|first|, k, over), rest, After(|tail|, rest, over1), unfinished == 0);
  }
}
