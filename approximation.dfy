/** The greedy constructors of `approximation.py`, running on the mutable
    `Bpp.Solution`. Each `solve` loop is proved to leave the solution's
    contents equal to the value-level fold `Greedy.Pack` over the items it
    managed to place; `Bin.append` raising on a non-positive weight stops the
    loop with the state it had reached. */
module Approximation {
  import opened Bpp
  import opened Greedy

  /* ---------------------------------------------------------------------
     The solve loops
     --------------------------------------------------------------------- */

  /** The bins of `s` are those it had on entry, followed by bins created
      since: what a loop that only grows the bin list may touch. */
  ghost predicate Grown(s: Solution, old0: seq<Bin>)
    reads s
  {
    |s.bins| >= |old0| && s.bins[..|old0|] == old0
  }

  /** `NullAlgorithm.solve`: every item goes through `pack_in_new_bin`. */
  method NullSolve(s: Solution, items: seq<int>) returns (ok: bool)
    requires s.Valid() && |s.bins| > 0
    modifies s, s.bins
    ensures s.Valid() && |s.bins| > 0
    ensures ok <==> PositivePrefix(items) == |items|
    ensures s.Contents() == Pack(Null, ReuseEmptyLast, s.binSize, old(s.Contents()), items[..PositivePrefix(items)])
  {
    ghost var c0 := s.Contents();
    var i := 0;
    while i < |items|
      invariant 0 <= i <= PositivePrefix(items)
      invariant s.Valid() && |s.bins| > 0
      invariant s.Contents() == Pack(Null, ReuseEmptyLast, s.binSize, c0, items[..i])
      invariant Grown(s, old(s.bins)) && forall j :: |old(s.bins)| <= j < |s.bins| ==> fresh(s.bins[j])
    {
      PackPrefixStep(Null, ReuseEmptyLast, s.binSize, c0, items, i);
      PositivePrefixAt(items, i);
      var placed := s.PackInNewBin(items[i]);
      if !placed {
        return false;
      }
      i := i + 1;
    }
    return true;
  }

  /** One item of `NextFitAlgorithm.solve`: it joins the last bin when it
      fits; otherwise the last bin is closed and `pack_in_new_bin` takes
      over. */
  method NextFitPlace(s: Solution, item: int) returns (placed: bool)
    requires s.Valid() && |s.bins| > 0
    modifies s, s.bins
    ensures s.Valid() && Grown(s, old(s.bins))
    ensures forall j :: |old(s.bins)| <= j < |s.bins| ==> fresh(s.bins[j])
    ensures placed <==> item > 0
    ensures s.Contents() == if placed then Step(NextFit, ReuseEmptyLast, s.binSize, old(s.Contents()), item) else old(s.Contents())
    ensures forall j :: 0 <= j < |old(s.bins)| - 1 ==> s.bins[j].closed == old(s.bins[j].closed)
    ensures forall j :: |old(s.bins)| - 1 <= j < |s.bins| - 1 ==> s.bins[j].closed
  {
    var last := |s.bins| - 1;
    if s.bins[last].Fits(item) {
      placed := s.AppendTo(last, item);
    } else {
      s.Close(last);
      placed := s.PackInNewBin(item);
    }
  }

  /** `NextFitAlgorithm.solve`. Every bin that stopped being the last one
      during the run was closed when the run moved past it. */
  method NextFitSolve(s: Solution, items: seq<int>) returns (ok: bool)
    requires s.Valid() && |s.bins| > 0
    modifies s, s.bins
    ensures s.Valid() && |s.bins| > 0
    ensures ok <==> PositivePrefix(items) == |items|
    ensures s.Contents() == Pack(NextFit, ReuseEmptyLast, s.binSize, old(s.Contents()), items[..PositivePrefix(items)])
    ensures forall j :: |old(s.bins)| - 1 <= j < |s.bins| - 1 ==> s.bins[j].closed
  {
    ghost var c0 := s.Contents();
    ghost var n0 := |s.bins|;
    var i := 0;
    while i < |items|
      invariant 0 <= i <= PositivePrefix(items)
      invariant s.Valid() && |s.bins| > 0
      invariant s.Contents() == Pack(NextFit, ReuseEmptyLast, s.binSize, c0, items[..i])
      invariant Grown(s, old(s.bins)) && forall j :: n0 <= j < |s.bins| ==> fresh(s.bins[j])
      invariant forall j :: n0 - 1 <= j < |s.bins| - 1 ==> s.bins[j].closed
    {
      PackPrefixStep(NextFit, ReuseEmptyLast, s.binSize, c0, items, i);
      PositivePrefixAt(items, i);
      var placed := NextFitPlace(s, items[i]);
      if !placed {
        return false;
      }
      i := i + 1;
    }
    return true;
  }

  /** The scan of `FirstFitAlgorithm.solve`: the index of the first bin the
      item fits in, or the bin count when there is none. */
  method FirstFittingBin(s: Solution, item: int) returns (j: int)
    requires s.Valid()
    ensures 0 <= j <= |s.bins|
    ensures j == FirstFitIndex(s.binSize, s.Contents(), item)
  {
    j := 0;
    while j < |s.bins| && !s.bins[j].Fits(item)
      invariant 0 <= j <= |s.bins|
      invariant forall l :: 0 <= l < j ==> !FitsValue(s.binSize, s.Contents()[l], item)
    {
      j := j + 1;
    }
    FirstFitIndexUnique(s.binSize, s.Contents(), item, j);
  }

  /** One item of `FirstFitAlgorithm.solve`: the first bin it fits in takes
      it, and only when none fits does `pack_in_new_bin`. */
  method FirstFitPlace(s: Solution, item: int) returns (placed: bool)
    requires s.Valid() && |s.bins| > 0
    modifies s, s.bins
    ensures s.Valid() && Grown(s, old(s.bins))
    ensures forall j :: |old(s.bins)| <= j < |s.bins| ==> fresh(s.bins[j])
    ensures placed <==> item > 0
    ensures s.Contents() == if placed then Step(FirstFit, ReuseEmptyLast, s.binSize, old(s.Contents()), item) else old(s.Contents())
  {
    var j := FirstFittingBin(s, item);
    if j < |s.bins| {
      placed := s.AppendTo(j, item);
    } else {
      placed := s.PackInNewBin(item);
    }
  }

  /** `FirstFitAlgorithm.solve`. */
  method FirstFitSolve(s: Solution, items: seq<int>) returns (ok: bool)
    requires s.Valid() && |s.bins| > 0
    modifies s, s.bins
    ensures s.Valid() && |s.bins| > 0
    ensures ok <==> PositivePrefix(items) == |items|
    ensures s.Contents() == Pack(FirstFit, ReuseEmptyLast, s.binSize, old(s.Contents()), items[..PositivePrefix(items)])
  {
    ghost var c0 := s.Contents();
    var i := 0;
    while i < |items|
      invariant 0 <= i <= PositivePrefix(items)
      invariant s.Valid() && |s.bins| > 0
      invariant s.Contents() == Pack(FirstFit, ReuseEmptyLast, s.binSize, c0, items[..i])
      invariant Grown(s, old(s.bins)) && forall j :: |old(s.bins)| <= j < |s.bins| ==> fresh(s.bins[j])
    {
      PackPrefixStep(FirstFit, ReuseEmptyLast, s.binSize, c0, items, i);
      PositivePrefixAt(items, i);
      var placed := FirstFitPlace(s, items[i]);
      if !placed {
        return false;
      }
      i := i + 1;
    }
    return true;
  }

  /** `FirstFitIndex` is the one index before which nothing fits and at which
      the item fits (or the end). */
  lemma FirstFitIndexUnique(size: int, p: Packing, w: int, j: int)
    requires 0 <= j <= |p|
    requires forall l :: 0 <= l < j ==> !FitsValue(size, p[l], w)
    requires j < |p| ==> FitsValue(size, p[j], w)
    ensures j == FirstFitIndex(size, p, w)
  {
    var k := FirstFitIndex(size, p, w);
    assert !(k < j) && !(j < k);
  }

  /* ---------------------------------------------------------------------
     The Algorithm classes
     --------------------------------------------------------------------- */

  /** The concrete algorithm classes of `approximation.py`. */
  datatype Kind =
    | NullAlgorithm
    | NextFitAlgorithm
    | FirstFitAlgorithm
    | FirstFitDecreasingAlgorithm

  /** The placement rule behind each class: First-Fit-Decreasing inherits
      First-Fit's `solve`. */
  function RuleOf(kind: Kind): Rule
  {
    match kind
    case NullAlgorithm => Null
    case NextFitAlgorithm => NextFit
    case FirstFitAlgorithm => FirstFit
    case FirstFitDecreasingAlgorithm => FirstFit
  }

  /** `Algorithm`: the instance to pack and the solution being built. */
  class Algorithm {
    const kind: Kind
    const instance: Instance
    const solution: Solution

    ghost predicate Valid()
      reads this, solution, solution.bins
    {
      solution.Valid() && solution.binSize == instance.binSize && |solution.bins| > 0
    }

    /** `__init__`: `AlgorithmDecreasing` sorts the instance first; every
        algorithm starts from a fresh solution with one empty bin. */
    constructor (kind: Kind, instance: Instance)
      ensures this.kind == kind
      ensures this.instance == if kind == FirstFitDecreasingAlgorithm then instance.SortDecreasing() else instance
      ensures Valid() && fresh(solution) && solution.Contents() == [[]]
    {
      this.kind := kind;
      var inst := if kind == FirstFitDecreasingAlgorithm then instance.SortDecreasing() else instance;
      this.instance := inst;
      solution := new Solution(inst.binSize);
    }

    /** `solve`: runs the class's loop over the instance's items and returns
        the solution. A non-positive weight makes `Bin.append` raise: the
        result is then `ok == false` with the items before it placed. */
    method Solve() returns (ok: bool, result: Solution)
      requires Valid()
      modifies solution, solution.bins
      ensures Valid() && result == solution
      ensures kind == NextFitAlgorithm ==>
        forall j :: |old(solution.bins)| - 1 <= j < |solution.bins| - 1 ==> solution.bins[j].closed
      ensures ok <==> PositivePrefix(instance.items) == |instance.items|
      ensures solution.Contents() ==
        Pack(RuleOf(kind), ReuseEmptyLast, instance.binSize, old(solution.Contents()),
             instance.items[..PositivePrefix(instance.items)])
    {
      match kind {
        case NullAlgorithm => ok := NullSolve(solution, instance.items);
        case NextFitAlgorithm => ok := NextFitSolve(solution, instance.items);
        case FirstFitAlgorithm => ok := FirstFitSolve(solution, instance.items);
        case FirstFitDecreasingAlgorithm => ok := FirstFitSolve(solution, instance.items);
      }
      result := solution;
    }
  }

  /* ---------------------------------------------------------------------
     What a fresh run produces
     --------------------------------------------------------------------- */

  /** The items an algorithm of `kind` iterates over. */
  function ItemsRun(kind: Kind, inst: Instance): (items: seq<int>)
    ensures multiset(items) == multiset(inst.items)
  {
    if kind == FirstFitDecreasingAlgorithm then inst.SortDecreasing().items else inst.items
  }

  /** Fed weights `0 < w <= bin_size`, `solve` on a freshly constructed
      algorithm succeeds, and the solution holds exactly the instance's items,
      no bin over capacity, so with at least `lower_bound` bins. */
  lemma FreshSolveIsValidPacking(kind: Kind, inst: Instance)
    requires inst.binSize > 0
    requires forall i :: 0 <= i < |inst.items| ==> 0 < inst.items[i] <= inst.binSize
    ensures var items := ItemsRun(kind, inst);
      && PositivePrefix(items) == |items|
      && multiset(Flatten(Pack(RuleOf(kind), ReuseEmptyLast, inst.binSize, [[]], items))) == multiset(inst.items)
      && WithinCapacity(Pack(RuleOf(kind), ReuseEmptyLast, inst.binSize, [[]], items), inst.binSize)
      && |Pack(RuleOf(kind), ReuseEmptyLast, inst.binSize, [[]], items)| >= inst.LowerBound()
  {
    var items := ItemsRun(kind, inst);
    forall i | 0 <= i < |items| ensures 0 < items[i] <= inst.binSize {
      assert items[i] in multiset(inst.items);
    }
    var run := Instance(inst.binSize, items);
    PackIsValidPacking(RuleOf(kind), ReuseEmptyLast, run);
    SumPermutation(items, inst.items);
  }
}
