/** The generators of a test case, which count through all combinations of their values. */
module Generators {

  class GeneratorInfo {
    const size: nat
    var currentIndex: nat

    constructor (size: nat)
      ensures this.size == size && currentIndex == 0
    {
      this.size, currentIndex := size, 0;
    }

    method MoveNext() returns (more: bool)
      modifies this
      ensures more == (old(currentIndex) + 1 != size)
      ensures currentIndex == if more then old(currentIndex) + 1 else 0
    {
      currentIndex := currentIndex + 1;
      if currentIndex == size {
        currentIndex := 0;
        return false;
      }
      return true;
    }
  }

  function Sizes(gens: seq<GeneratorInfo>): (r: seq<nat>)
    ensures |r| == |gens| && forall i | 0 <= i < |r| :: r[i] == gens[i].size
  {
    if gens == [] then [] else [gens[0].size] + Sizes(gens[1..])
  }

  function Indices(gens: seq<GeneratorInfo>): (r: seq<nat>)
    reads gens
    ensures |r| == |gens| && forall i | 0 <= i < |r| :: r[i] == gens[i].currentIndex
  {
    if gens == [] then [] else [gens[0].currentIndex] + Indices(gens[1..])
  }

  /** The next combination, and whether there was one before the count started again. */
  datatype Move = Move(indices: seq<nat>, more: bool)

  function Advance(ix: seq<nat>, sizes: seq<nat>): (r: Move)
    requires |ix| == |sizes|
    ensures |r.indices| == |ix|
  {
    if ix == [] then Move([], false)
    else if ix[0] + 1 != sizes[0] then Move([ix[0] + 1] + ix[1..], true)
    else var r := Advance(ix[1..], sizes[1..]); Move([0] + r.indices, r.more)
  }

  function Zeros(n: nat): (r: seq<nat>)
    ensures |r| == n && forall i | 0 <= i < n :: r[i] == 0
  {
    if n == 0 then [] else [0] + Zeros(n - 1)
  }

  /** The first generator not at its last value moves, and those before it start again. */
  lemma {:induction false} AdvanceStopsAt(ix: seq<nat>, sizes: seq<nat>, i: nat, next: seq<nat>)
    requires i < |ix| == |sizes| == |next| && (forall j | 0 <= j < i :: ix[j] + 1 == sizes[j]) && ix[i] + 1 != sizes[i]
    requires forall j | 0 <= j < |ix| :: next[j] == if j < i then 0 else if j == i then ix[i] + 1 else ix[j]
    ensures Advance(ix, sizes) == Move(next, true)
  {
    if i == 0 {
      assert next == [ix[0] + 1] + ix[1..];
    } else {
      AdvanceStopsAt(ix[1..], sizes[1..], i - 1, next[1..]);
      assert next == [0] + next[1..];
    }
  }

  lemma {:induction false} AdvanceWraps(ix: seq<nat>, sizes: seq<nat>, next: seq<nat>)
    requires |ix| == |sizes| == |next| && forall j | 0 <= j < |ix| :: ix[j] + 1 == sizes[j] && next[j] == 0
    ensures Advance(ix, sizes) == Move(next, false)
  {
    if ix != [] {
      AdvanceWraps(ix[1..], sizes[1..], next[1..]);
      assert next == [0] + next[1..];
    }
  }

  class GeneratorsForTest {
    var generatorsByName: map<string, GeneratorInfo>
    var generatorsInOrder: seq<GeneratorInfo>

    /** Every generator is listed once and belongs to one name. */
    ghost predicate Valid()
      reads this
    {
      && (forall i, j | 0 <= i < j < |generatorsInOrder| :: generatorsInOrder[i] != generatorsInOrder[j])
      && (forall name | name in generatorsByName :: generatorsByName[name] in generatorsInOrder)
    }

    constructor ()
      ensures Valid() && generatorsInOrder == []
    {
      generatorsByName, generatorsInOrder := map[], [];
    }

    /** The generator of that name, which is new if the name is. */
    method GetGeneratorInfo(fileInfo: string, size: nat) returns (info: GeneratorInfo)
      requires Valid()
      modifies this
      ensures Valid() && fileInfo in generatorsByName && generatorsByName[fileInfo] == info
      ensures fileInfo in old(generatorsByName) ==> unchanged(this)
      ensures fileInfo !in old(generatorsByName) ==>
                && fresh(info) && info.size == size && info.currentIndex == 0
                && generatorsInOrder == old(generatorsInOrder) + [info]
                && generatorsByName == old(generatorsByName)[fileInfo := info]
    {
      if fileInfo !in generatorsByName {
        info := new GeneratorInfo(size);
        generatorsByName := generatorsByName[fileInfo := info];
        generatorsInOrder := generatorsInOrder + [info];
        return;
      }
      return generatorsByName[fileInfo];
    }

    method MoveNext() returns (more: bool)
      requires Valid()
      modifies generatorsInOrder
      ensures Move(Indices(generatorsInOrder), more) ==
              Advance(old(Indices(generatorsInOrder)), Sizes(generatorsInOrder))
    {
      var gens := generatorsInOrder;
      ghost var ix, sizes := Indices(gens), Sizes(gens);
      for i := 0 to |gens|
        invariant forall j | 0 <= j < i :: gens[j].currentIndex == 0 && ix[j] + 1 == sizes[j]
        invariant forall j | i <= j < |gens| :: gens[j].currentIndex == ix[j]
      {
        more := gens[i].MoveNext();
        if more {
          AdvanceStopsAt(ix, sizes, i, Indices(gens));
          return;
        }
      }
      AdvanceWraps(ix, sizes, Indices(gens));
      return false;
    }
  }

  // ----- The count -----

  ghost predicate InRange(ix: seq<nat>, sizes: seq<nat>) {
    |ix| == |sizes| && forall i | 0 <= i < |ix| :: ix[i] < sizes[i]
  }

  /** The place of a combination in the count, the first generator running fastest. */
  function Rank(ix: seq<nat>, sizes: seq<nat>): nat
    requires |ix| == |sizes|
  {
    if ix == [] then 0 else ix[0] + sizes[0] * Rank(ix[1..], sizes[1..])
  }

  function Total(sizes: seq<nat>): nat {
    if sizes == [] then 1 else sizes[0] * Total(sizes[1..])
  }

  lemma {:induction false} RankBound(ix: seq<nat>, sizes: seq<nat>)
    requires InRange(ix, sizes)
    ensures Rank(ix, sizes) < Total(sizes)
  {
    if ix != [] {
      RankBound(ix[1..], sizes[1..]);
      MulBound(ix[0], sizes[0], Rank(ix[1..], sizes[1..]), Total(sizes[1..]));
    }
  }

  lemma MulBound(a: nat, s: nat, r: nat, t: nat)
    requires a < s && r < t
    ensures a + s * r < s * t
  {
    assert s * r + s == s * (r + 1);
    assert s * (r + 1) <= s * t;
  }

  lemma MulInjective(a: nat, b: nat, s: nat, r: nat, q: nat)
    requires a < s && b < s && a + s * r == b + s * q
    ensures a == b && r == q
  {
    if r < q {
      MulBound(a, s, r, q);
    } else if q < r {
      MulBound(b, s, q, r);
    }
  }

  /** Different combinations have different places. */
  lemma {:induction false} RankInjective(ix: seq<nat>, iy: seq<nat>, sizes: seq<nat>)
    requires InRange(ix, sizes) && InRange(iy, sizes) && Rank(ix, sizes) == Rank(iy, sizes)
    ensures ix == iy
  {
    if ix != [] {
      MulInjective(ix[0], iy[0], sizes[0], Rank(ix[1..], sizes[1..]), Rank(iy[1..], sizes[1..]));
      RankInjective(ix[1..], iy[1..], sizes[1..]);
      assert ix == [ix[0]] + ix[1..] && iy == [iy[0]] + iy[1..];
    }
  }

  /** A move goes to the next place, or from the last place back to the first. */
  lemma {:induction false} AdvanceRank(ix: seq<nat>, sizes: seq<nat>)
    requires InRange(ix, sizes)
    ensures var r := Advance(ix, sizes);
            && InRange(r.indices, sizes)
            && r.more == (Rank(ix, sizes) + 1 < Total(sizes))
            && Rank(r.indices, sizes) == (if r.more then Rank(ix, sizes) + 1 else 0)
            && (!r.more ==> r.indices == Zeros(|ix|))
  {
    RankBound(ix, sizes);
    if ix != [] {
      var r := Advance(ix, sizes);
      AdvanceRank(ix[1..], sizes[1..]);
      RankBound(ix[1..], sizes[1..]);
      assert r.indices[1..] == if ix[0] + 1 != sizes[0] then ix[1..] else Advance(ix[1..], sizes[1..]).indices;
      CarryRank(ix[0], sizes[0], Rank(ix[1..], sizes[1..]), Total(sizes[1..]));
    }
  }

  lemma CarryRank(a: nat, s: nat, r: nat, t: nat)
    requires a < s && r < t
    ensures a + 1 < s ==> a + s * r + 1 < s * t
    ensures a + 1 == s ==> 0 + s * (r + 1) == a + s * r + 1
    ensures a + 1 == s ==> (a + s * r + 1 < s * t <==> r + 1 < t)
  {
    assert s * r + s == s * (r + 1);
    MulBound(a, s, r, t);
    if a + 1 < s {
      MulBound(a + 1, s, r, t);
    }
    if r + 1 < t {
      MulBound(0, s, r + 1, t);
    }
  }

  /** The combination after `k` moves from the start. */
  function Nth(sizes: seq<nat>, k: nat): (r: seq<nat>)
    ensures |r| == |sizes|
  {
    if k == 0 then Zeros(|sizes|) else Advance(Nth(sizes, k - 1), sizes).indices
  }

  lemma {:induction false} ZerosRank(sizes: seq<nat>)
    requires forall i | 0 <= i < |sizes| :: sizes[i] >= 1
    ensures InRange(Zeros(|sizes|), sizes) && Rank(Zeros(|sizes|), sizes) == 0 && Total(sizes) >= 1
  {
    if sizes != [] {
      ZerosRank(sizes[1..]);
      assert Zeros(|sizes|)[1..] == Zeros(|sizes| - 1);
      MulBound(0, sizes[0], 0, Total(sizes[1..]));
    }
  }

  lemma {:induction false} NthRank(sizes: seq<nat>, k: nat)
    requires forall i | 0 <= i < |sizes| :: sizes[i] >= 1
    requires k < Total(sizes)
    ensures InRange(Nth(sizes, k), sizes) && Rank(Nth(sizes, k), sizes) == k
  {
    ZerosRank(sizes);
    if k > 0 {
      NthRank(sizes, k - 1);
      AdvanceRank(Nth(sizes, k - 1), sizes);
    }
  }

  /**
   * Before the count starts again every combination of indices comes up, and
   * comes up once.
   */
  lemma EveryCombinationOnce(sizes: seq<nat>, ix: seq<nat>)
    requires InRange(ix, sizes)
    ensures Rank(ix, sizes) < Total(sizes) && Nth(sizes, Rank(ix, sizes)) == ix
    ensures forall k: nat | k < Total(sizes) && Nth(sizes, k) == ix :: k == Rank(ix, sizes)
  {
    RankBound(ix, sizes);
    NthRank(sizes, Rank(ix, sizes));
    RankInjective(Nth(sizes, Rank(ix, sizes)), ix, sizes);
    forall k: nat | k < Total(sizes) && Nth(sizes, k) == ix ensures k == Rank(ix, sizes) {
      NthRank(sizes, k);
    }
  }

  /** The moves report that there is more until the last combination has come up. */
  lemma MoreUntilLast(sizes: seq<nat>, k: nat)
    requires forall i | 0 <= i < |sizes| :: sizes[i] >= 1
    requires k < Total(sizes)
    ensures Advance(Nth(sizes, k), sizes).more <==> k + 1 < Total(sizes)
    ensures k + 1 == Total(sizes) ==> Nth(sizes, k + 1) == Nth(sizes, 0)
  {
    NthRank(sizes, k);
    AdvanceRank(Nth(sizes, k), sizes);
  }
}
