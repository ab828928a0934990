/** `runTest` of Catch (catch.hpp): a test case is run through for every combination of its generators. */
module TestLoop {
  import opened Generators
  import opened SectionTracker
  import opened SectionTree
  import opened TrackerStates

  /** What is to be entered for combination `k`; the sections of a test may depend on its generators. */
  ghost function Round(tests: seq<nat> -> Section, sizes: seq<nat>, filters: seq<string>, k: nat): seq<Stop> {
    TestRuns(tests(Nth(sizes, k)), filters)
  }

  /** The tours are those of the first combinations, in order. */
  ghost predicate Toured(tests: seq<nat> -> Section, sizes: seq<nat>, filters: seq<string>, tours: seq<seq<Path>>) {
    forall k | 0 <= k < |tours| :: tours[k] == Tour(Round(tests, sizes, filters, k))
  }

  /** So are all but the last, which has gone as far as some cycle. */
  ghost predicate TouredPart(tests: seq<nat> -> Section, sizes: seq<nat>, filters: seq<string>,
                             tours: seq<seq<Path>>, cycles: nat)
  {
    && tours != []
    && var k := |tours| - 1;
    && Toured(tests, sizes, filters, tours[..k]) && 0 < cycles <= |Round(tests, sizes, filters, k)|
    && tours[k] == Tour(Round(tests, sizes, filters, k)[..cycles])
  }

  lemma {:induction false} TourAdded(tests: seq<nat> -> Section, sizes: seq<nat>, filters: seq<string>,
                                     tours: seq<seq<Path>>, tour: seq<Path>, cycles: nat)
    requires Toured(tests, sizes, filters, tours) && 0 < cycles <= |Round(tests, sizes, filters, |tours|)|
    requires tour == Tour(Round(tests, sizes, filters, |tours|)[..cycles])
    ensures TouredPart(tests, sizes, filters, tours + [tour], cycles)
    ensures cycles == |Round(tests, sizes, filters, |tours|)| ==> Toured(tests, sizes, filters, tours + [tour])
  {
    hide Tour, Round;
    assert (tours + [tour])[..|tours|] == tours;
    var round := Round(tests, sizes, filters, |tours|);
    assert round[..|round|] == round;
  }

  /** A move of the generators after combination `k`. */
  lemma {:induction false} MovedOn(sizes: seq<nat>, k: nat, indices: seq<nat>, more: bool)
    requires forall i | 0 <= i < |sizes| :: sizes[i] >= 1
    requires k < Total(sizes) && Move(indices, more) == Advance(Nth(sizes, k), sizes)
    ensures more <==> k + 1 < Total(sizes)
    ensures indices == if more then Nth(sizes, k + 1) else Zeros(|sizes|)
  {
    MoreUntilLast(sizes, k);
  }

  /** The test case run through for combination `k`, and the generators moved on. */
  method RunRound(ctx: TrackerContext, tests: seq<nat> -> Section, filters: seq<string>, gens: GeneratorsForTest,
                  ghost sizes: seq<nat>, ghost k: nat)
    returns (complete: bool, more: bool, ghost cycles: nat)
    requires gens.Valid() && ctx.unfinished == 0 && DistinctSiblings(tests(Nth(sizes, k)).children)
    requires sizes == Sizes(gens.generatorsInOrder) && (forall i | 0 <= i < |sizes| :: sizes[i] >= 1)
    requires k < Total(sizes) && Indices(gens.generatorsInOrder) == Nth(sizes, k)
    modifies ctx, gens.generatorsInOrder
    ensures ctx.unfinished == 0 && more == (k + 1 < Total(sizes))
    ensures Indices(gens.generatorsInOrder) == if more then Nth(sizes, k + 1) else Zeros(|sizes|)
    ensures 0 < cycles <= |Round(tests, sizes, filters, k)|
    ensures ctx.entered == Tour(Round(tests, sizes, filters, k)[..cycles])
    ensures complete == (cycles == |Round(tests, sizes, filters, k)|)
  {
    hide Tour, TestRuns, DistinctSiblings, Total, Advance, Nth;
    cycles, complete := ctx.RunTest(tests(Indices(gens.generatorsInOrder)), filters);
    more := gens.MoveNext();
    MovedOn(sizes, k, Indices(gens.generatorsInOrder), more);
  }

  /**
   * Unless the limit on failed assertions ends it early, every combination of the generators is run through
   * once, in order, and the generators are back at their first values.
   */
  method RunAll(ctx: TrackerContext, tests: seq<nat> -> Section, filters: seq<string>, gens: GeneratorsForTest)
    returns (done: bool, ghost tours: seq<seq<Path>>, ghost cycles: nat)
    requires gens.Valid() && ctx.unfinished == 0 && forall ix :: DistinctSiblings(tests(ix).children)
    requires forall i | 0 <= i < |gens.generatorsInOrder| :: gens.generatorsInOrder[i].size >= 1
    requires Indices(gens.generatorsInOrder) == Zeros(|gens.generatorsInOrder|)
    modifies ctx, gens.generatorsInOrder
    ensures var sizes := Sizes(gens.generatorsInOrder);
            if done then
              && |tours| == Total(sizes) && Toured(tests, sizes, filters, tours)
              && Indices(gens.generatorsInOrder) == Zeros(|sizes|)
            else |tours| <= Total(sizes) && TouredPart(tests, sizes, filters, tours, cycles)
  {
    hide Tour, Round, DistinctSiblings, Total, Toured, TouredPart, Nth, Sizes, Indices, Zeros;
    ghost var sizes := Sizes(gens.generatorsInOrder);
    tours := [];
    NoTours(tests, sizes, filters);
    while true
      invariant gens.Valid() && ctx.unfinished == 0
      invariant |tours| < Total(sizes) && Indices(gens.generatorsInOrder) == Nth(sizes, |tours|)
      invariant Toured(tests, sizes, filters, tours)
      decreases Total(sizes) - |tours|
    {
      var complete, more;
      complete, more, cycles := RunRound(ctx, tests, filters, gens, sizes, |tours|);
      TourAdded(tests, sizes, filters, tours, ctx.entered, cycles);
      tours := tours + [ctx.entered];
      var aborting := *;
      if !complete || (more && aborting) {
        return false, tours, cycles;
      }
      if !more {
        return true, tours, cycles;
      }
    }
  }

  lemma {:induction false} NoTours(tests: seq<nat> -> Section, sizes: seq<nat>, filters: seq<string>)
    requires forall i | 0 <= i < |sizes| :: sizes[i] >= 1
    ensures Toured(tests, sizes, filters, []) && Nth(sizes, 0) == Zeros(|sizes|) && Total(sizes) >= 1
  {
    ZerosRank(sizes);
  }
}
