/** The SECTION blocks of a Catch test case (catch.hpp), and what each run of the test body is to do with them. */
module SectionTree {

  /** Sections are told apart by their name and the place they stand at. */
  datatype Name = Name(text: string, location: nat)

  /**
   * A SECTION block. When `throws` holds, its own code throws after the blocks in `children`;
   * what would follow them is never reached.
   */
  datatype Section = Section(name: Name, children: seq<Section>, throws: bool)

  /** Sections under one parent have different names, all the way down. */
  predicate DistinctSiblings(sections: seq<Section>)
    decreases sections
  {
    && (forall i, j | 0 <= i < j < |sections| :: sections[i].name != sections[j].name)
    && (forall i | 0 <= i < |sections| :: DistinctSiblings(sections[i].children))
  }

  function Names(sections: seq<Section>): seq<Name> {
    if sections == [] then [] else [sections[0].name] + Names(sections[1..])
  }

  /** A section is run only if the first of its filters allows its name. */
  predicate Selected(name: Name, filters: seq<string>) {
    filters == [] || filters[0] == "" || filters[0] == name.text
  }

  /** The filters of the sections below. */
  function NextFilters(filters: seq<string>): seq<string> {
    if |filters| > 1 then filters[1..] else []
  }

  // ---------- Runs of the body ----------

  /**
   * One run of the body: the sections it enters, outermost first, and which of
   * them throws, counted from 1; 0 when none does.
   */
  datatype Stop = Stop(path: seq<Name>, thrown: nat)

  function Down(name: Name, stop: Stop): Stop {
    Stop([name] + stop.path, if stop.thrown == 0 then 0 else stop.thrown + 1)
  }

  function Under(name: Name, stops: seq<Stop>): (r: seq<Stop>)
    ensures |r| == |stops| && forall i | 0 <= i < |r| :: r[i] == Down(name, stops[i])
  {
    seq(|stops|, i requires 0 <= i < |stops| => Down(name, stops[i]))
  }

  /** How many runs in a row, from the first, end with a throw. */
  function Thrown(stops: seq<Stop>): (n: nat)
    ensures n <= |stops| && (forall i | 0 <= i < n :: stops[i].thrown > 0)
    ensures n < |stops| ==> stops[n].thrown == 0
  {
    if stops == [] || stops[0].thrown == 0 then 0 else 1 + Thrown(stops[1..])
  }

  /** After its last run the last of the sections is complete. */
  predicate EndsComplete(sections: seq<Section>, filters: seq<string>, stops: seq<Stop>) {
    && sections != [] && Selected(sections[|sections| - 1].name, filters)
    && stops != [] && stops[|stops| - 1].thrown == 0
  }

  /**
   * The runs that enter a section. One whose own code throws is left for good as
   * soon as that code is reached. Otherwise one run more is needed if the last
   * run inside ended with a throw, or if the last section inside is not selected.
   */
  function Stops(s: Section, filters: seq<string>): seq<Stop>
    decreases s, 1
  {
    if !Selected(s.name, filters) then []
    else
      var inner := StopsIn(s.children, NextFilters(filters));
      var n := Thrown(inner);
      if s.throws then Under(s.name, inner[..n]) + [Stop([s.name] + if n < |inner| then inner[n].path else [], 1)]
      else if EndsComplete(s.children, NextFilters(filters), inner) then Under(s.name, inner)
      else Under(s.name, inner) + [Stop([s.name], 0)]
  }

  function StopsIn(sections: seq<Section>, filters: seq<string>): seq<Stop>
    decreases sections, 0
  {
    if sections == [] then [] else Stops(sections[0], filters) + StopsIn(sections[1..], filters)
  }

  /** Run `k` of a section seen from inside: it goes on inside while there are runs, and may end in a throw. */
  lemma {:induction false} StopAt(s: Section, filters: seq<string>, k: nat)
    requires k < |Stops(s, filters)|
    ensures var inner := StopsIn(s.children, NextFilters(filters));
            var stop := Stops(s, filters)[k];
            && Selected(s.name, filters) && k <= |inner|
            && stop.path == [s.name] + (if k < |inner| then inner[k].path else [])
            && stop.thrown == (if k < |inner| && inner[k].thrown > 0 then inner[k].thrown + 1
                               else if s.throws then 1 else 0)
    ensures var inner := StopsIn(s.children, NextFilters(filters));
            k + 1 == |Stops(s, filters)| <==>
            if k == |inner| then true
            else if inner[k].thrown > 0 then false
            else s.throws || (k + 1 == |inner| && EndsComplete(s.children, NextFilters(filters), inner))
  {
  }

  lemma {:induction false} StopsNotEmpty(s: Section, filters: seq<string>)
    ensures Stops(s, filters) != [] <==> Selected(s.name, filters)
  {
  }

  lemma {:induction false} StopsInConcat(sections: seq<Section>, filters: seq<string>)
    requires sections != []
    ensures StopsIn(sections, filters) == Stops(sections[0], filters) + StopsIn(sections[1..], filters)
  {
  }

  lemma {:induction false} SomeStops(sections: seq<Section>, filters: seq<string>)
    requires sections != [] && Selected(sections[|sections| - 1].name, filters)
    ensures StopsIn(sections, filters) != []
    decreases |sections|
  {
    StopsNotEmpty(sections[0], filters);
    if |sections| > 1 {
      assert sections[1..][|sections| - 2] == sections[|sections| - 1];
      SomeStops(sections[1..], filters);
    }
  }

  // ---------- Leaves ----------

  /** `path` leads to a section without sections inside. */
  predicate IsLeafPath(sections: seq<Section>, path: seq<Name>)
    decreases path
  {
    path != [] && exists i | 0 <= i < |sections| ::
      && sections[i].name == path[0]
      && if sections[i].children == [] then |path| == 1 else IsLeafPath(sections[i].children, path[1..])
  }

  /** Of the runs inside a section that throws, those up to the first that does not throw itself. */
  function UntilThrow(stops: seq<Stop>): seq<Stop> {
    stops[..if Thrown(stops) < |stops| then Thrown(stops) + 1 else |stops|]
  }

  /**
   * Whatever is run in `sections` before the leaf at the end of `path` throws: every selected section to the
   * left of the path, at each level down to the first section on the path that throws itself.
   */
  predicate OnlyThrowsBefore(sections: seq<Section>, filters: seq<string>, path: seq<Name>)
    decreases path, sections
  {
    && path != [] && sections != []
    && var s := sections[0];
       if s.name == path[0] then
         s.children == [] || s.throws || OnlyThrowsBefore(s.children, NextFilters(filters), path[1..])
       else (Selected(s.name, filters) ==> s.throws) && OnlyThrowsBefore(sections[1..], filters, path)
  }

  /** Every section on the path is selected, and inside one that throws only throws come before the leaf. */
  predicate Reaches(sections: seq<Section>, filters: seq<string>, path: seq<Name>)
    decreases path
  {
    path != [] && exists i | 0 <= i < |sections| ::
      && sections[i].name == path[0] && Selected(path[0], filters)
      && if sections[i].children == [] then |path| == 1
         else
           && Reaches(sections[i].children, NextFilters(filters), path[1..])
           && (sections[i].throws ==> OnlyThrowsBefore(sections[i].children, NextFilters(filters), path[1..]))
  }

  /** How many runs enter the section that `path` leads to. */
  function Entering(stops: seq<Stop>, path: seq<Name>): nat {
    if stops == [] then 0 else (if path <= stops[0].path then 1 else 0) + Entering(stops[1..], path)
  }

  lemma {:induction false} EnteringConcat(a: seq<Stop>, b: seq<Stop>, path: seq<Name>)
    ensures Entering(a + b, path) == Entering(a, path) + Entering(b, path)
  {
    if a == [] {
      assert a + b == b;
    } else {
      assert (a + b)[1..] == a[1..] + b;
      EnteringConcat(a[1..], b, path);
    }
  }

  lemma {:induction false} EnteringMore(stops: seq<Stop>, last: Stop, path: seq<Name>)
    ensures Entering(stops + [last], path) == Entering(stops, path) + if path <= last.path then 1 else 0
  {
    EnteringConcat(stops, [last], path);
  }

  lemma {:induction false} EnteringUnder(name: Name, stops: seq<Stop>, path: seq<Name>)
    requires path != []
    ensures Entering(Under(name, stops), path) == if path[0] == name then Entering(stops, path[1..]) else 0
  {
    if stops != [] {
      var under := Under(name, stops);
      assert under[1..] == Under(name, stops[1..]);
      assert path <= [name] + stops[0].path <==> path[0] == name && path[1..] <= stops[0].path by {
        assert path == [path[0]] + path[1..];
      }
      EnteringUnder(name, stops[1..], path);
    }
  }

  /** Runs of a section enter only places below it. */
  lemma {:induction false} EnteringElsewhere(s: Section, filters: seq<string>, path: seq<Name>)
    requires path != [] && path[0] != s.name
    ensures Entering(Stops(s, filters), path) == 0
  {
    var stops := Stops(s, filters);
    forall k | 0 <= k < |stops| ensures !(path <= stops[k].path) {
      StopAt(s, filters, k);
    }
    NoneEntering(stops, path);
  }

  lemma {:induction false} NoneEntering(stops: seq<Stop>, path: seq<Name>)
    requires forall k | 0 <= k < |stops| :: !(path <= stops[k].path)
    ensures Entering(stops, path) == 0
  {
    if stops != [] {
      NoneEntering(stops[1..], path);
    }
  }

  lemma {:induction false} NotAmong(sections: seq<Section>, filters: seq<string>, path: seq<Name>)
    requires path != [] && forall i | 0 <= i < |sections| :: sections[i].name != path[0]
    ensures Entering(StopsIn(sections, filters), path) == 0
    decreases |sections|
  {
    if sections != [] {
      EnteringElsewhere(sections[0], filters, path);
      NotAmong(sections[1..], filters, path);
      EnteringConcat(Stops(sections[0], filters), StopsIn(sections[1..], filters), path);
    }
  }

  lemma {:induction false} EnteringLeaf(s: Section, filters: seq<string>)
    requires s.children == []
    ensures Entering(Stops(s, filters), [s.name]) == if Selected(s.name, filters) then 1 else 0
  {
    if Selected(s.name, filters) {
      var stop := Stop([s.name], if s.throws then 1 else 0);
      StopAt(s, filters, 0);
      assert [s.name] + [] == [s.name];
      assert Stops(s, filters)[0] == stop;
      assert Stops(s, filters) == [stop];
      assert Entering([stop], [s.name]) == 1 + Entering([], [s.name]);
    }
  }

  /** Below a section, a place is entered as often as the runs inside enter it, up to the throw if there is one. */
  lemma {:induction false} EnteringInside(s: Section, filters: seq<string>, path: seq<Name>)
    requires |path| > 1 && path[0] == s.name && Selected(s.name, filters)
    ensures var inner := StopsIn(s.children, NextFilters(filters));
            Entering(Stops(s, filters), path) == Entering(if s.throws then UntilThrow(inner) else inner, path[1..])
  {
    var inner := StopsIn(s.children, NextFilters(filters));
    if s.throws {
      EnteringUntilThrow(s.name, inner, path);
    } else {
      EnteringUnder(s.name, inner, path);
      EnteringConcat(Under(s.name, inner), [Stop([s.name], 0)], path);
    }
  }

  lemma {:induction false} EnteringUntilThrow(name: Name, inner: seq<Stop>, path: seq<Name>)
    requires |path| > 1 && path[0] == name
    ensures var n := Thrown(inner);
            var last := Stop([name] + if n < |inner| then inner[n].path else [], 1);
            Entering(Under(name, inner[..n]) + [last], path) == Entering(UntilThrow(inner), path[1..])
  {
    var n := Thrown(inner);
    var last := Stop([name] + if n < |inner| then inner[n].path else [], 1);
    EnteringConcat(Under(name, inner[..n]), [last], path);
    EnteringUnder(name, inner[..n], path);
    assert path == [name] + path[1..];
    if n < |inner| {
      assert UntilThrow(inner) == inner[..n] + [inner[n]];
      EnteringConcat(inner[..n], [inner[n]], path[1..]);
      assert path <= last.path <==> path[1..] <= inner[n].path;
    } else {
      assert UntilThrow(inner) == inner[..n];
    }
  }

  lemma {:induction false} EnteringUntil(stops: seq<Stop>, path: seq<Name>)
    ensures Entering(UntilThrow(stops), path) <= Entering(stops, path)
  {
    var n := |UntilThrow(stops)|;
    assert stops == UntilThrow(stops) + stops[n..];
    EnteringConcat(UntilThrow(stops), stops[n..], path);
  }

  /** A leaf inside a section is entered by at most one run of the section. */
  lemma {:induction false} LeafInside(s: Section, filters: seq<string>, path: seq<Name>)
    requires |path| > 1 && path[0] == s.name
    requires Entering(StopsIn(s.children, NextFilters(filters)), path[1..]) <= 1
    ensures Entering(Stops(s, filters), path) <= 1
    ensures var inner := StopsIn(s.children, NextFilters(filters));
            Entering(Stops(s, filters), path) == 1 <==>
            && Selected(s.name, filters) && Entering(inner, path[1..]) == 1
            && (s.throws ==> Entering(UntilThrow(inner), path[1..]) > 0)
  {
    if Selected(s.name, filters) {
      var inner := StopsIn(s.children, NextFilters(filters));
      EnteringInside(s, filters, path);
      EnteringUntil(inner, path[1..]);
    }
  }

  // ---------- Which runs throw ----------

  predicate AllThrow(stops: seq<Stop>) {
    forall k | 0 <= k < |stops| :: stops[k].thrown > 0
  }

  /** All runs of a section that throws do, and of any other section the last does not. */
  lemma {:induction false} ThrowsOrEnds(s: Section, filters: seq<string>)
    requires Selected(s.name, filters)
    ensures var stops := Stops(s, filters);
            stops != [] && if s.throws then AllThrow(stops) else stops[|stops| - 1].thrown == 0
  {
    StopsNotEmpty(s, filters);
    var stops := Stops(s, filters);
    forall k | 0 <= k < |stops| ensures s.throws ==> stops[k].thrown > 0 {
      StopAt(s, filters, k);
    }
    StopAt(s, filters, |stops| - 1);
  }

  lemma {:induction false} ThrownConcat(a: seq<Stop>, b: seq<Stop>)
    ensures Thrown(a + b) == if AllThrow(a) then |a| + Thrown(b) else Thrown(a)
  {
    if a == [] {
      assert a + b == b;
    } else {
      assert (a + b)[1..] == a[1..] + b;
      ThrownConcat(a[1..], b);
      assert AllThrow(a) <==> a[0].thrown > 0 && AllThrow(a[1..]);
    }
  }

  lemma {:induction false} UntilThrowConcat(a: seq<Stop>, b: seq<Stop>)
    ensures UntilThrow(a + b) == if AllThrow(a) then a + UntilThrow(b) else UntilThrow(a)
  {
    ThrownConcat(a, b);
  }

  lemma {:induction false} ThrownUnder(name: Name, stops: seq<Stop>)
    ensures Thrown(Under(name, stops)) == Thrown(stops)
  {
    if stops != [] {
      assert Under(name, stops)[1..] == Under(name, stops[1..]);
      ThrownUnder(name, stops[1..]);
    }
  }

  lemma {:induction false} UntilThrowUnder(name: Name, stops: seq<Stop>)
    ensures UntilThrow(Under(name, stops)) == Under(name, UntilThrow(stops))
    ensures AllThrow(stops) <==> AllThrow(Under(name, stops))
    ensures AllThrow(stops) ==> UntilThrow(stops) == stops
  {
    ThrownUnder(name, stops);
  }

  /** Of a section that does not throw itself, the runs up to the first that does not throw. */
  lemma {:induction false} UntilThrowOf(s: Section, filters: seq<string>)
    requires Selected(s.name, filters) && !s.throws
    ensures var inner := StopsIn(s.children, NextFilters(filters));
            UntilThrow(Stops(s, filters)) ==
            Under(s.name, UntilThrow(inner)) + if AllThrow(inner) then [Stop([s.name], 0)] else []
  {
    var inner := StopsIn(s.children, NextFilters(filters));
    UntilThrowUnder(s.name, inner);
    UntilThrowConcat(Under(s.name, inner), [Stop([s.name], 0)]);
    if EndsComplete(s.children, NextFilters(filters), inner) {
      assert !AllThrow(inner);
    }
    assert UntilThrow([Stop([s.name], 0)]) == [Stop([s.name], 0)];
  }

  /** Before the first run that does not throw, a leaf that is entered at all is entered exactly when nothing
      but throws come before it. */
  lemma {:induction false} EntersBeforeThrow(sections: seq<Section>, filters: seq<string>, path: seq<Name>)
    requires DistinctSiblings(sections) && IsLeafPath(sections, path)
    requires Entering(StopsIn(sections, filters), path) > 0
    ensures Entering(UntilThrow(StopsIn(sections, filters)), path) > 0 <==> OnlyThrowsBefore(sections, filters, path)
    decreases sections
  {
    var s, rest := sections[0], sections[1..];
    var first, later := Stops(s, filters), StopsIn(rest, filters);
    assert forall i | 0 <= i < |rest| :: rest[i] == sections[i + 1];
    EnteringConcat(first, later, path);
    UntilThrowConcat(first, later);
    EnteringConcat(first, UntilThrow(later), path);
    if path[0] == s.name {
      NotAmong(rest, filters, path);
      if s.throws {
        ThrowsOrEnds(s, filters);
      } else {
        EntersWithin(s, filters, path);
      }
    } else {
      EnteringElsewhere(s, filters, path);
      EntersBeforeThrow(rest, filters, path);
      EnteringUntil(first, path);
      if Selected(s.name, filters) {
        ThrowsOrEnds(s, filters);
      }
    }
  }

  lemma {:induction false} EntersWithin(s: Section, filters: seq<string>, path: seq<Name>)
    requires path != [] && path[0] == s.name && !s.throws && DistinctSiblings(s.children)
    requires if s.children == [] then |path| == 1 else IsLeafPath(s.children, path[1..])
    requires Entering(Stops(s, filters), path) > 0
    ensures !AllThrow(Stops(s, filters))
    ensures Entering(UntilThrow(Stops(s, filters)), path) > 0 <==>
            s.children == [] || OnlyThrowsBefore(s.children, NextFilters(filters), path[1..])
    decreases s
  {
    StopsNotEmpty(s, filters);
    ThrowsOrEnds(s, filters);
    UntilThrowOf(s, filters);
    var inner := StopsIn(s.children, NextFilters(filters));
    var extra := if AllThrow(inner) then [Stop([s.name], 0)] else [];
    EnteringConcat(Under(s.name, UntilThrow(inner)), extra, path);
    if s.children == [] {
      assert path == [s.name];
      assert Entering([Stop([s.name], 0)], path) == 1 + Entering([], path);
    } else {
      EnteringUnder(s.name, UntilThrow(inner), path);
      EnteringInside(s, filters, path);
      EntersBeforeThrow(s.children, NextFilters(filters), path[1..]);
    }
  }

  /** No leaf is entered by two runs, and one is entered exactly when it is reached. */
  lemma {:induction false} LeafEntered(sections: seq<Section>, filters: seq<string>, path: seq<Name>)
    requires DistinctSiblings(sections) && IsLeafPath(sections, path)
    ensures Entering(StopsIn(sections, filters), path) == if Reaches(sections, filters, path) then 1 else 0
    decreases sections
  {
    var s, rest := sections[0], sections[1..];
    assert forall i | 0 <= i < |rest| :: rest[i] == sections[i + 1];
    EnteringConcat(Stops(s, filters), StopsIn(rest, filters), path);
    if path[0] == s.name {
      NotAmong(rest, filters, path);
      if s.children == [] {
        assert path == [s.name];
        EnteringLeaf(s, filters);
      } else {
        LeafEntered(s.children, NextFilters(filters), path[1..]);
        LeafInside(s, filters, path);
        if Reaches(s.children, NextFilters(filters), path[1..]) {
          EntersBeforeThrow(s.children, NextFilters(filters), path[1..]);
        }
      }
    } else {
      EnteringElsewhere(s, filters, path);
      LeafEntered(rest, filters, path);
      ReachesRest(sections, filters, path);
    }
  }

  /** A leaf that is selected but never entered, behind one that does not throw in a section that does. */
  lemma {:induction false} LeafMissed(s: Name, a: Name, b: Name)
    requires a != b
    ensures var tree := Section(s, [Section(a, [], false), Section(b, [], false)], true);
            && IsLeafPath([tree], [s, b]) && !Reaches([tree], [], [s, b])
            && Entering(StopsIn([tree], []), [s, b]) == 0
  {
    var left, right := Section(a, [], false), Section(b, [], false);
    var tree := Section(s, [left, right], true);
    assert [tree][0] == tree && [s, b][1..] == [b];
    assert tree.children[1] == right && IsLeafPath(tree.children, [b]);
    assert tree.children[0] == left && !OnlyThrowsBefore(tree.children, [], [b]);
    LeafEntered([tree], [], [s, b]);
  }

  lemma {:induction false} ReachesRest(sections: seq<Section>, filters: seq<string>, path: seq<Name>)
    requires sections != [] && path != [] && path[0] != sections[0].name
    ensures Reaches(sections, filters, path) <==> Reaches(sections[1..], filters, path)
  {
    assert forall i | 0 <= i < |sections[1..]| :: sections[1..][i] == sections[i + 1];
    assert forall i | 0 < i < |sections| :: sections[i] == sections[1..][i - 1];
  }

  /** Only sections without sections inside throw. */
  predicate OnlyLeavesThrow(sections: seq<Section>)
    decreases sections
  {
    forall i | 0 <= i < |sections| ::
      (sections[i].children != [] ==> !sections[i].throws) && OnlyLeavesThrow(sections[i].children)
  }

  /** A leaf that throws keeps no other leaf from being entered. */
  lemma {:induction false} EveryLeafReached(sections: seq<Section>, path: seq<Name>)
    requires OnlyLeavesThrow(sections) && IsLeafPath(sections, path)
    ensures Reaches(sections, [], path)
    decreases path
  {
    var i :| 0 <= i < |sections| && sections[i].name == path[0] &&
             if sections[i].children == [] then |path| == 1 else IsLeafPath(sections[i].children, path[1..]);
    if sections[i].children != [] {
      EveryLeafReached(sections[i].children, path[1..]);
    }
  }

  // ---------- Filters ----------

  /** A list of filters has nothing against a section of this name at level `k`. */
  predicate Allowed(filters: seq<string>, k: nat, name: Name) {
    k >= |filters| || filters[k] == "" || filters[k] == name.text
  }

  predicate AllAllowed(filters: seq<string>, path: seq<Name>) {
    forall k | 0 <= k < |path| :: Allowed(filters, k, path[k])
  }

  lemma {:induction false} AllowedBelow(filters: seq<string>, path: seq<Name>)
    requires path != []
    ensures AllAllowed(filters, path) <==>
            Selected(path[0], filters) && AllAllowed(NextFilters(filters), path[1..])
  {
    var next, rest := NextFilters(filters), path[1..];
    forall k | 0 < k < |path| ensures Allowed(filters, k, path[k]) <==> Allowed(next, k - 1, rest[k - 1]) {
    }
    assert forall k | 0 <= k < |rest| :: Allowed(next, k, rest[k]) == Allowed(filters, k + 1, path[k + 1]);
    assert Selected(path[0], filters) <==> Allowed(filters, 0, path[0]);
  }

  /** No run enters a section that a filter is against. */
  lemma {:induction false} StopAllowed(s: Section, filters: seq<string>, k: nat)
    requires k < |Stops(s, filters)|
    ensures AllAllowed(filters, Stops(s, filters)[k].path)
    decreases s, 1
  {
    StopAt(s, filters, k);
    var inner, path := StopsIn(s.children, NextFilters(filters)), Stops(s, filters)[k].path;
    AllowedBelow(filters, path);
    if k < |inner| {
      StopInAllowed(s.children, NextFilters(filters), k);
      assert path[1..] == inner[k].path;
    }
  }

  lemma {:induction false} StopInAllowed(sections: seq<Section>, filters: seq<string>, k: nat)
    requires k < |StopsIn(sections, filters)|
    ensures AllAllowed(filters, StopsIn(sections, filters)[k].path)
    decreases sections, 0
  {
    var n := |Stops(sections[0], filters)|;
    StopsInConcat(sections, filters);
    if k < n {
      StopAllowed(sections[0], filters, k);
    } else {
      StopInAllowed(sections[1..], filters, k - n);
    }
  }

  lemma {:induction false} ReachesAllowed(sections: seq<Section>, filters: seq<string>, path: seq<Name>)
    requires Reaches(sections, filters, path)
    ensures AllAllowed(filters, path)
    decreases path
  {
    var i :| 0 <= i < |sections| && sections[i].name == path[0] && Selected(path[0], filters)
      && if sections[i].children == [] then |path| == 1
         else Reaches(sections[i].children, NextFilters(filters), path[1..]);
    AllowedBelow(filters, path);
    if sections[i].children != [] {
      ReachesAllowed(sections[i].children, NextFilters(filters), path[1..]);
    }
  }

  /** When only leaves throw, the leaves that are entered are those no filter is against. */
  lemma {:induction false} ReachesIffAllowed(sections: seq<Section>, filters: seq<string>, path: seq<Name>)
    requires OnlyLeavesThrow(sections) && IsLeafPath(sections, path)
    ensures Reaches(sections, filters, path) <==> AllAllowed(filters, path)
    decreases path
  {
    if Reaches(sections, filters, path) {
      ReachesAllowed(sections, filters, path);
    }
    if AllAllowed(filters, path) {
      var i :| 0 <= i < |sections| && sections[i].name == path[0] &&
               if sections[i].children == [] then |path| == 1 else IsLeafPath(sections[i].children, path[1..]);
      AllowedBelow(filters, path);
      if sections[i].children != [] {
        ReachesIffAllowed(sections[i].children, NextFilters(filters), path[1..]);
      }
    }
  }

  // ---------- Siblings ----------

  lemma {:induction false} DistinctTail(sections: seq<Section>)
    requires sections != [] && DistinctSiblings(sections)
    ensures DistinctSiblings(sections[1..]) && DistinctSiblings(sections[0].children)
  {
    assert forall i | 0 <= i < |sections[1..]| :: sections[1..][i] == sections[i + 1];
  }

  lemma {:induction false} NamesSpec(sections: seq<Section>)
    ensures |Names(sections)| == |sections|
    ensures forall i | 0 <= i < |sections| :: Names(sections)[i] == sections[i].name
  {
    if sections != [] {
      NamesSpec(sections[1..]);
    }
  }

  lemma {:induction false} FirstNotLater(sections: seq<Section>)
    requires sections != [] && DistinctSiblings(sections)
    ensures sections[0].name !in Names(sections[1..])
  {
    NamesSpec(sections[1..]);
    assert forall i | 0 <= i < |sections[1..]| :: sections[1..][i] == sections[i + 1];
  }
}
