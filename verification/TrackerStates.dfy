/**
 * The trackers of Catch (catch.hpp), and where a section stands after some runs of the test body.
 * A tracker is known by its parent and its own name, so the link to the parent is part of the path;
 * siblings never share a name, because a tracker looks for a child of that name before it makes one.
 */
module TrackerStates {
  import opened Machine
  import opened SectionTree

  datatype Path = Root | Child(parent: Path, name: Name)

  datatype RunState = NotStarted | Executing | ExecutingChildren | NeedsAnotherRun | CompletedSuccessfully | Failed

  datatype Tracker = Tracker(state: RunState, children: seq<Name>, filters: seq<string>)

  datatype CycleState = CycleNotStarted | CycleExecuting | CompletedCycle

  type Trackers = map<Path, Tracker>

  predicate IsComplete(t: Tracker) {
    t.state == CompletedSuccessfully || t.state == Failed
  }

  predicate IsOpen(t: Tracker) {
    t.state != NotStarted && !IsComplete(t)
  }

  /** `q` is `p` or below it. */
  predicate Within(q: Path, p: Path) {
    q == p || (q.Child? && Within(q.parent, p))
  }

  /** `q` is below `p`, starting with one of these names. */
  predicate Below(q: Path, p: Path, names: seq<Name>) {
    q.Child? && ((q.parent == p && q.name in names) || Below(q.parent, p, names))
  }

  predicate Rooted(m: Trackers, p: Path) {
    p in m && (p.Child? ==> p.parent in m && Rooted(m, p.parent))
  }

  function Depth(p: Path): nat {
    if p.Root? then 0 else Depth(p.parent) + 1
  }

  lemma {:induction false} WithinDepth(q: Path, p: Path)
    requires Within(q, p)
    ensures Depth(p) <= Depth(q)
  {
    if q != p {
      WithinDepth(q.parent, p);
    }
  }

  lemma {:induction false} WithinParent(q: Path, p: Path, name: Name)
    requires Within(q, Child(p, name))
    ensures Within(q, p)
  {
    if q != Child(p, name) {
      WithinParent(q.parent, p, name);
    }
  }

  /** Below one child is not below another. */
  lemma {:induction false} SiblingsApart(q: Path, p: Path, name: Name, names: seq<Name>)
    requires Within(q, Child(p, name)) && name !in names
    ensures q != p && !Below(q, p, names)
  {
    WithinDepth(q, Child(p, name));
    if q != Child(p, name) {
      SiblingsApart(q.parent, p, name, names);
    } else {
      NotBelowSelf(p, p, names);
    }
  }

  lemma {:induction false} NotBelowSelf(q: Path, p: Path, names: seq<Name>)
    requires Depth(q) <= Depth(p)
    ensures !Below(q, p, names)
  {
    if q.Child? {
      NotBelowSelf(q.parent, p, names);
    }
  }

  // ---------- Where a section stands after some runs ----------

  /** The state of a section's tracker when `k` runs have entered it. */
  function StateAfter(s: Section, filters: seq<string>, k: nat): RunState {
    if k == 0 then NotStarted
    else if k >= |Stops(s, filters)| then if s.throws then Failed else CompletedSuccessfully
    else
      var inner := StopsIn(s.children, NextFilters(filters));
      if k <= |inner| && inner[k - 1].thrown == 1 then NeedsAnotherRun else ExecutingChildren
  }

  /** The trackers at and below `p` are those of section `s` after `k` runs. */
  predicate Matches(m: Trackers, p: Path, s: Section, filters: seq<string>, k: nat)
    decreases s, 1
  {
    && p in m && m[p].filters == filters && m[p].state == StateAfter(s, filters, k)
    && (k == 0 ==> m[p].children == [])
    && (0 < k < |Stops(s, filters)| ==> MatchesAll(m, p, m[p].children, s.children, NextFilters(filters), k))
  }

  /** Likewise for sections side by side below `p`, of which those in `names` are known, a part from the left. */
  predicate MatchesAll(m: Trackers, p: Path, names: seq<Name>, sections: seq<Section>, filters: seq<string>, k: nat)
    decreases sections, 0
  {
    if names == [] then k == 0
    else
      && sections != [] && names[0] == sections[0].name
      && var n := Min(k, |Stops(sections[0], filters)|);
      && Matches(m, Child(p, names[0]), sections[0], filters, n)
      && MatchesAll(m, p, names[1..], sections[1..], filters, k - n)
  }

  /** `m` and `m'` have the same trackers at and below `p`. */
  ghost predicate SameBelow(m: Trackers, m': Trackers, p: Path) {
    forall q {:trigger q in m} {:trigger q in m'} | Within(q, p) ::
      (q in m <==> q in m') && (q in m ==> m[q] == m'[q])
  }

  lemma {:induction false} MatchesSame(m: Trackers, m': Trackers, p: Path, s: Section, filters: seq<string>, k: nat)
    requires Matches(m, p, s, filters, k) && SameBelow(m, m', p)
    ensures Matches(m', p, s, filters, k)
    decreases s, 1
  {
    if 0 < k < |Stops(s, filters)| {
      forall i | 0 <= i < |s.children| ensures SameBelow(m, m', Child(p, s.children[i].name)) {
        forall q | Within(q, Child(p, s.children[i].name)) ensures Within(q, p) {
          WithinParent(q, p, s.children[i].name);
        }
      }
      SameBelowEach(m, m', p, s.children);
      MatchesAllSame(m, m', p, m[p].children, s.children, NextFilters(filters), k);
    }
  }

  lemma {:induction false} MatchesAllSame(m: Trackers, m': Trackers, p: Path, names: seq<Name>,
                                          sections: seq<Section>, filters: seq<string>, k: nat)
    requires MatchesAll(m, p, names, sections, filters, k) && SameBelowAll(m, m', p, sections)
    ensures MatchesAll(m', p, names, sections, filters, k)
    decreases sections, 0
  {
    if names != [] {
      var n := Min(k, |Stops(sections[0], filters)|);
      MatchesSame(m, m', Child(p, sections[0].name), sections[0], filters, n);
      MatchesAllSame(m, m', p, names[1..], sections[1..], filters, k - n);
    }
  }

  ghost predicate SameBelowAll(m: Trackers, m': Trackers, p: Path, sections: seq<Section>) {
    sections == [] || (SameBelow(m, m', Child(p, sections[0].name)) && SameBelowAll(m, m', p, sections[1..]))
  }

  lemma {:induction false} SameBelowEach(m: Trackers, m': Trackers, p: Path, sections: seq<Section>)
    requires forall i | 0 <= i < |sections| :: SameBelow(m, m', Child(p, sections[i].name))
    ensures SameBelowAll(m, m', p, sections)
  {
    if sections != [] {
      assert forall i | 0 <= i < |sections[1..]| :: sections[1..][i] == sections[i + 1];
      SameBelowEach(m, m', p, sections[1..]);
    }
  }

  /** Only the tracker of `p` and those below its children in `names` differ. */
  ghost predicate SameOutside(m: Trackers, m': Trackers, p: Path, names: seq<Name>) {
    forall q {:trigger q in m} {:trigger q in m'} | q != p && !Below(q, p, names) ::
      (q in m <==> q in m') && (q in m ==> m[q] == m'[q])
  }

  lemma {:induction false} SameBelowSibling(m: Trackers, m': Trackers, p: Path, names: seq<Name>, name: Name)
    requires SameOutside(m, m', p, names) && name !in names
    ensures SameBelow(m, m', Child(p, name))
  {
    forall q | Within(q, Child(p, name)) ensures (q in m <==> q in m') && (q in m ==> m[q] == m'[q]) {
      SiblingsApart(q, p, name, names);
    }
  }

  // ---------- The last child ----------

  lemma {:induction false} CompleteIff(m: Trackers, p: Path, s: Section, filters: seq<string>, k: nat)
    requires Matches(m, p, s, filters, k) && k <= |Stops(s, filters)|
    ensures IsComplete(m[p]) <==> Selected(s.name, filters) && k == |Stops(s, filters)|
  {
    StopsNotEmpty(s, filters);
  }

  lemma {:induction false} StopsInLength(sections: seq<Section>, filters: seq<string>)
    requires sections != []
    ensures |StopsIn(sections, filters)| == |Stops(sections[0], filters)| + |StopsIn(sections[1..], filters)|
  {
  }

  /** The number of runs left in `sections` when `k` of them have been made. */
  ghost predicate Left(sections: seq<Section>, filters: seq<string>, k: nat, left: nat) {
    k + left == |StopsIn(sections, filters)|
  }

  lemma {:induction false} LeftInRest(sections: seq<Section>, filters: seq<string>, k: nat, left: nat)
    returns (rest: nat)
    requires sections != [] && Left(sections, filters, k, left)
    ensures var j := Min(k, |Stops(sections[0], filters)|);
            Left(sections[1..], filters, k - j, rest) && left == |Stops(sections[0], filters)| - j + rest
  {
    StopsInLength(sections, filters);
    var n := |Stops(sections[0], filters)|;
    rest := if k < n then |StopsIn(sections[1..], filters)| else left;
  }

  /** With every section known, the last is complete exactly when it is selected and no run is left. */
  lemma {:induction false} LastCompleteIff(m: Trackers, p: Path, sections: seq<Section>,
                                           filters: seq<string>, k: nat, left: nat)
    requires sections != [] && MatchesAll(m, p, Names(sections), sections, filters, k)
    requires Left(sections, filters, k, left)
    ensures var name := sections[|sections| - 1].name;
            Child(p, name) in m && (IsComplete(m[Child(p, name)]) <==> Selected(name, filters) && left == 0)
    decreases |sections|
  {
    if |sections| == 1 {
      LastOfOne(m, p, sections, filters, k);
      StopsInLength(sections, filters);
    } else {
      var rest := sections[1..];
      var left' := LeftInRest(sections, filters, k, left);
      var j := NamedRest(m, p, sections, filters, k);
      LastCompleteIff(m, p, rest, filters, j, left');
      if k < |Stops(sections[0], filters)| && Selected(rest[|rest| - 1].name, filters) {
        SomeStops(rest, filters);
      }
    }
  }

  lemma {:induction false} LastComplete(m: Trackers, p: Path, sections: seq<Section>, filters: seq<string>, k: nat)
    requires sections != [] && MatchesAll(m, p, Names(sections), sections, filters, k)
    requires k <= |StopsIn(sections, filters)|
    ensures var name := sections[|sections| - 1].name;
            && Child(p, name) in m
            && (IsComplete(m[Child(p, name)]) <==> Selected(name, filters) && k == |StopsIn(sections, filters)|)
  {
    LastCompleteIff(m, p, sections, filters, k, |StopsIn(sections, filters)| - k);
  }

  lemma {:induction false} LastOfOne(m: Trackers, p: Path, sections: seq<Section>, filters: seq<string>, k: nat)
    requires |sections| == 1 && MatchesAll(m, p, Names(sections), sections, filters, k)
    requires k <= |StopsIn(sections, filters)|
    ensures var q := Child(p, sections[0].name);
            q in m && (IsComplete(m[q]) <==> Selected(sections[0].name, filters) && k == |StopsIn(sections, filters)|)
  {
    StopsInLength(sections, filters);
    CompleteIff(m, Child(p, sections[0].name), sections[0], filters, k);
  }

  lemma {:induction false} NamedRest(m: Trackers, p: Path, sections: seq<Section>, filters: seq<string>, k: nat)
    returns (j: nat)
    requires sections != [] && MatchesAll(m, p, Names(sections), sections, filters, k)
    ensures j == k - Min(k, |Stops(sections[0], filters)|)
    ensures MatchesAll(m, p, Names(sections[1..]), sections[1..], filters, j)
  {
    j := k - Min(k, |Stops(sections[0], filters)|);
    assert Names(sections)[1..] == Names(sections[1..]);
  }

  /** The last known child of a tracker is there, and has not started if no run was made. */
  lemma {:induction false} LastKnown(m: Trackers, p: Path, names: seq<Name>, sections: seq<Section>,
                                     filters: seq<string>, k: nat)
    requires names != [] && MatchesAll(m, p, names, sections, filters, k)
    ensures var q := Child(p, names[|names| - 1]); q in m && (k == 0 ==> m[q].state == NotStarted)
    decreases sections
  {
    if |names| > 1 {
      assert names[1..][|names| - 2] == names[|names| - 1];
      LastKnown(m, p, names[1..], sections[1..], filters, k - Min(k, |Stops(sections[0], filters)|));
    }
  }

  lemma {:induction false} ThrownThrough(m: Trackers, p: Path, s: Section, filters: seq<string>, k: nat)
    requires k < |Stops(s, filters)| && Stops(s, filters)[k].thrown > 1 && Matches(m, p, s, filters, k + 1)
    ensures !IsComplete(m[p])
  {
    StopAt(s, filters, k);
  }

  /** The last known child is not complete. */
  predicate LastUnfinished(m: Trackers, p: Path)
    requires p in m
  {
    var names := m[p].children;
    names != [] && Child(p, names[|names| - 1]) in m && !IsComplete(m[Child(p, names[|names| - 1])])
  }

  /** After a throw from below a child, the last known child is not complete. */
  lemma {:induction false} LastIncomplete(m: Trackers, p: Path, known: seq<Name>, sections: seq<Section>,
                                          filters: seq<string>, k: nat)
    requires p in m && known < m[p].children && MatchesAll(m, p, m[p].children[|known|..], sections, filters, k + 1)
    requires k < |Stops(sections[0], filters)| && Stops(sections[0], filters)[k].thrown > 1
    ensures LastUnfinished(m, p)
  {
    var names := m[p].children[|known|..];
    ThrownThrough(m, Child(p, names[0]), sections[0], filters, k);
    if |names| > 1 {
      assert names[1..][|names| - 2] == names[|names| - 1];
      LastKnown(m, p, names[1..], sections[1..], filters, 0);
    }
  }

  // ---------- Opening and closing ----------

  /** The sections entered on the way along `names` from `p`. */
  function Chain(p: Path, names: seq<Name>): seq<Path>
    decreases |names|
  {
    if names == [] then [] else [Child(p, names[0])] + Chain(Child(p, names[0]), names[1..])
  }

  lemma {:induction false} StillRooted(m: Trackers, m': Trackers, p: Path)
    requires Rooted(m, p) && m.Keys <= m'.Keys
    ensures Rooted(m', p)
  {
    if p.Child? {
      StillRooted(m, m', p.parent);
    }
  }

  function OpenUpward(m: Trackers, p: Path): Trackers
    requires Rooted(m, p)
    decreases p
  {
    if m[p].state == ExecutingChildren then m
    else
      var m' := m[p := m[p].(state := ExecutingChildren)];
      if p.Root? then m' else StillRooted(m, m', p.parent); OpenUpward(m', p.parent)
  }

  /** The tracker above `p`, if any, already runs children. */
  predicate Settled(m: Trackers, p: Path)
    requires Rooted(m, p)
  {
    p.Child? ==> m[p.parent].state == ExecutingChildren
  }

  lemma {:induction false} OpenUpwardOnce(m: Trackers, p: Path)
    requires Rooted(m, p) && Settled(m, p)
    ensures OpenUpward(m, p) == m[p := m[p].(state := ExecutingChildren)]
  {
    if m[p].state == ExecutingChildren {
      assert m == m[p := m[p].(state := ExecutingChildren)];
    }
  }

  /** `open`: the section runs, and the trackers above it run children. */
  function OpenedUp(m: Trackers, p: Path): Trackers
    requires Rooted(m, p)
  {
    var m' := m[p := m[p].(state := Executing)];
    if p.Root? then m' else StillRooted(m, m', p.parent); OpenUpward(m', p.parent)
  }

  /** What that comes to below a parent that is settled. */
  function Opened(m: Trackers, p: Path): Trackers
    requires p.Child? && Rooted(m, p)
  {
    m[p := m[p].(state := Executing)][p.parent := m[p.parent].(state := ExecutingChildren)]
  }

  lemma {:induction false} OpenedOnce(m: Trackers, p: Path)
    requires p.Child? && Rooted(m, p) && Settled(m, p.parent)
    ensures OpenedUp(m, p) == Opened(m, p)
  {
    var m' := m[p := m[p].(state := Executing)];
    StillRooted(m, m', p.parent);
    assert p.parent.Child? ==> Depth(p.parent.parent) < Depth(p.parent) < Depth(p);
    OpenUpwardOnce(m', p.parent);
  }

  /** `findChild`, or a new child when there is none; it takes over the filters of its parent but the first. */
  function Discovered(m: Trackers, p: Path, name: Name): (r: Trackers)
    requires p in m && (name in m[p].children ==> Child(p, name) in m)
    ensures Child(p, name) in r
  {
    if name in m[p].children then m
    else
      m[Child(p, name) := Tracker(NotStarted, [], NextFilters(m[p].filters))]
       [p := m[p].(children := m[p].children + [name])]
  }

  /** The last child of a tracker is there. */
  predicate LastThere(m: Trackers, p: Path)
    requires p in m
  {
    var c := m[p].children;
    c != [] ==> Child(p, c[|c| - 1]) in m
  }

  function Closed(m: Trackers, p: Path): (r: Trackers)
    requires p in m && LastThere(m, p)
    ensures r.Keys == m.Keys && forall q | q in m :: r[q].children == m[q].children
  {
    var t := m[p];
    var done := t.state == Executing ||
                (t.state == ExecutingChildren &&
                 (t.children == [] || IsComplete(m[Child(p, t.children[|t.children| - 1])])));
    m[p := if done then t.(state := CompletedSuccessfully) else t]
  }

  /** The trackers from `q` up to `p` are there, and so are their last children. */
  predicate WayThere(m: Trackers, q: Path, p: Path)
    requires Within(q, p)
  {
    q in m && LastThere(m, q) && (q != p ==> WayThere(m, q.parent, p))
  }

  lemma {:induction false} WayStaysThere(m: Trackers, m': Trackers, q: Path, p: Path)
    requires Within(q, p) && WayThere(m, q, p)
    requires m'.Keys == m.Keys && forall r | r in m :: m'[r].children == m[r].children
    ensures WayThere(m', q, p)
  {
    if q != p {
      WayStaysThere(m, m', q.parent, p);
    }
  }

  /** Whether a close succeeds, the trackers it leaves, and the last tracker it came to. */
  datatype Closure = Closure(ok: bool, trackers: Trackers, at: Path)

  /** `close` of `p` while `q` below it is current: all from `q` up to `p` are closed, as far as they are open. */
  function CloseFrom(m: Trackers, q: Path, p: Path): Closure
    requires Within(q, p) && WayThere(m, q, p)
    decreases q
  {
    if !IsOpen(m[q]) then Closure(false, m, q)
    else if q == p then Closure(true, Closed(m, q), q)
    else WayStaysThere(m, Closed(m, q), q.parent, p); CloseFrom(Closed(m, q), q.parent, p)
  }

  /** `fail`: the parent has to run again. */
  function FailedAt(m: Trackers, p: Path): Trackers
    requires p in m && p.Child? && p.parent in m
  {
    m[p := m[p].(state := Failed)][p.parent := m[p.parent].(state := NeedsAnotherRun)]
  }

  lemma {:induction false} BelowMonotone(q: Path, p: Path, a: seq<Name>, b: seq<Name>)
    requires Below(q, p, a) && forall x | x in a :: x in b
    ensures Below(q, p, b)
  {
    if !(q.parent == p && q.name in a) {
      BelowMonotone(q.parent, p, a, b);
    }
  }

  lemma {:induction false} SameOutsideJoin(m: Trackers, m1: Trackers, m2: Trackers, p: Path, a: seq<Name>,
                                           b: seq<Name>, c: seq<Name>)
    requires SameOutside(m, m1, p, a) && SameOutside(m1, m2, p, b)
    requires (forall x | x in a :: x in c) && (forall x | x in b :: x in c)
    ensures SameOutside(m, m2, p, c)
  {
    forall q | q != p && !Below(q, p, c) ensures (q in m <==> q in m2) && (q in m ==> m[q] == m2[q]) {
      assert !Below(q, p, a) by { if Below(q, p, a) { BelowMonotone(q, p, a, c); } }
      assert !Below(q, p, b) by { if Below(q, p, b) { BelowMonotone(q, p, b, c); } }
    }
  }

  lemma {:induction false} BelowNested(q: Path, p: Path, name: Name, names: seq<Name>)
    requires Below(q, Child(p, name), names)
    ensures Below(q, p, [name])
  {
    if q.parent != Child(p, name) {
      BelowNested(q.parent, p, name, names);
    }
  }

  /** Changes below a child are changes below its parent. */
  lemma {:induction false} SameOutsideNested(m: Trackers, m': Trackers, p: Path, name: Name, names: seq<Name>)
    requires SameOutside(m, m', Child(p, name), names)
    ensures SameOutside(m, m', p, [name])
    ensures (p in m <==> p in m') && (p in m ==> m[p] == m'[p])
  {
    forall q | q != p && !Below(q, p, [name]) ensures (q in m <==> q in m') && (q in m ==> m[q] == m'[q]) {
      assert !Below(q, Child(p, name), names) by {
        if Below(q, Child(p, name), names) { BelowNested(q, p, name, names); }
      }
    }
    NotBelowSelf(p, Child(p, name), names);
  }
}
