/** The older single-file version of the program (`main.py`): a `Bin` whose
    `add` accepts any weight, a solution whose `pack_in_new_bin` always opens
    a new bin, and the Next-Fit, First-Fit and First-Fit-Decreasing loops of
    `BPAlgorithm`. Its `BPInstance` is the one of `bpp.py` (`Bpp.Instance`). */
module Snapshot {
  import opened Bpp
  import opened Greedy

  /** `Bin`: capacity, weights in insertion order, the `closed` flag. */
  class Bin {
    const size: int
    var items: seq<int>
    var closed: bool

    constructor (size: int, items: seq<int>)
      ensures this.size == size && this.items == items && !closed
    {
      this.size := size;
      this.items := items;
      closed := false;
    }

    /** `content`: the sum of the weights. */
    function Content(): int
      reads this
    {
      Sum(items)
    }

    /** `fits`: the weight is at most the remaining gap. */
    predicate Fits(item: int): (r: bool)
      reads this
      ensures r <==> Content() + item <= size
      ensures Content() <= size && item <= 0 ==> r
    {
      FitsValue(size, items, item)
    }

    /** `add`: appends the weight, whatever its sign. */
    method Add(item: int)
      modifies this
      ensures items == old(items) + [item] && closed == old(closed)
    {
      items := items + [item];
    }
  }

  /** `BPSolution` of `main.py`. */
  class Solution {
    const binSize: int
    var bins: seq<Bin>

    ghost predicate Valid()
      reads this, bins
    {
      && (forall i, j :: 0 <= i < j < |bins| ==> bins[i] != bins[j])
      && (forall i :: 0 <= i < |bins| ==> bins[i].size == binSize)
    }

    function Contents(): (c: Packing)
      reads this, bins
      ensures |c| == |bins|
      ensures forall i :: 0 <= i < |bins| ==> c[i] == bins[i].items
    {
      seq(|bins|, i reads this, bins requires 0 <= i < |bins| => bins[i].items)
    }

    /** `__post_init__`: one empty bin. */
    constructor (binSize: int)
      ensures this.binSize == binSize
      ensures Valid() && Contents() == [[]]
    {
      this.binSize := binSize;
      var b := new Bin(binSize, []);
      bins := [b];
    }

    /** `pack_in_new_bin`: always a new bin `[item]` at the end, even when
        the last bin is empty. */
    method PackInNewBin(item: int)
      requires Valid()
      modifies this
      ensures Valid()
      ensures Contents() == old(Contents()) + [[item]]
      ensures |bins| == |old(bins)| + 1 && bins[..|old(bins)|] == old(bins)
      ensures fresh(bins[|old(bins)|]) && !bins[|old(bins)|].closed
    {
      var b := new Bin(binSize, [item]);
      bins := bins + [b];
      assert Contents() == old(Contents()) + [[item]];
    }

    /** `self[j].add(item)`. */
    method AddTo(j: int, item: int)
      requires Valid() && 0 <= j < |bins|
      modifies bins[j]
      ensures Valid() && bins == old(bins)
      ensures Contents() == old(Contents())[j := old(Contents())[j] + [item]]
      ensures forall i :: 0 <= i < |bins| ==> bins[i].closed == old(bins[i].closed)
    {
      ghost var c := Contents();
      bins[j].Add(item);
      assert Contents() == c[j := c[j] + [item]];
    }

    /** `self[j].closed = True`. */
    method Close(j: int)
      requires Valid() && 0 <= j < |bins|
      modifies bins[j]
      ensures Valid() && bins == old(bins)
      ensures Contents() == old(Contents())
      ensures forall i :: 0 <= i < |bins| ==> bins[i].closed == (i == j || old(bins[i].closed))
    {
      ghost var c := Contents();
      bins[j].closed := true;
      assert Contents() == c;
    }
  }

  /** The bins of `s` are those it had on entry, followed by bins created since. */
  ghost predicate Grown(s: Solution, old0: seq<Bin>)
    reads s
  {
    |s.bins| >= |old0| && s.bins[..|old0|] == old0
  }

  /** One item of `NextFitAlgorithm.solve`. */
  method NextFitPlace(s: Solution, item: int)
    requires s.Valid() && |s.bins| > 0
    modifies s, s.bins
    ensures s.Valid() && Grown(s, old(s.bins))
    ensures forall j :: |old(s.bins)| <= j < |s.bins| ==> fresh(s.bins[j])
    ensures s.Contents() == Step(NextFit, AlwaysAppend, s.binSize, old(s.Contents()), item)
    ensures forall j :: 0 <= j < |old(s.bins)| - 1 ==> s.bins[j].closed == old(s.bins[j].closed)
    ensures forall j :: |old(s.bins)| - 1 <= j < |s.bins| - 1 ==> s.bins[j].closed
  {
    var last := |s.bins| - 1;
    if s.bins[last].Fits(item) {
      s.AddTo(last, item);
    } else {
      s.Close(last);
      s.PackInNewBin(item);
    }
  }

  /** `NextFitAlgorithm.solve`: every item is placed; every bin the run moved
      past is closed. */
  method NextFitSolve(s: Solution, items: seq<int>)
    requires s.Valid() && |s.bins| > 0
    modifies s, s.bins
    ensures s.Valid() && |s.bins| > 0
    ensures s.Contents() == Pack(NextFit, AlwaysAppend, s.binSize, old(s.Contents()), items)
    ensures forall j :: |old(s.bins)| - 1 <= j < |s.bins| - 1 ==> s.bins[j].closed
  {
    ghost var c0 := s.Contents();
    ghost var n0 := |s.bins|;
    var i := 0;
    while i < |items|
      invariant 0 <= i <= |items|
      invariant s.Valid() && |s.bins| > 0
      invariant s.Contents() == Pack(NextFit, AlwaysAppend, s.binSize, c0, items[..i])
      invariant Grown(s, old(s.bins)) && forall j :: n0 <= j < |s.bins| ==> fresh(s.bins[j])
      invariant forall j :: n0 - 1 <= j < |s.bins| - 1 ==> s.bins[j].closed
    {
      PackPrefixStep(NextFit, AlwaysAppend, s.binSize, c0, items, i);
      NextFitPlace(s, items[i]);
      i := i + 1;
    }
    assert items[..i] == items;
  }

  /** The scan of `FirstFitAlgorithm.solve`. */
  method FirstFittingBin(s: Solution, item: int) returns (j: int)
    requires s.Valid()
    ensures 0 <= j <= |s.bins|
    ensures j == FirstFitIndex(s.binSize, s.Contents(), item)
  {
    j := 0;
    while j < |s.bins| && !s.bins[j].Fits(item)
      invariant 0 <= j <= |s.bins|
      invariant forall l :: 0 <= l < j ==> !FitsValue(s.binSize, s.Contents()[l], item)
    {
      j := j + 1;
    }
    var k := FirstFitIndex(s.binSize, s.Contents(), item);
    assert !(k < j) && !(j < k);
  }

  /** One item of `FirstFitAlgorithm.solve`. */
  method FirstFitPlace(s: Solution, item: int)
    requires s.Valid() && |s.bins| > 0
    modifies s, s.bins
    ensures s.Valid() && Grown(s, old(s.bins))
    ensures forall j :: |old(s.bins)| <= j < |s.bins| ==> fresh(s.bins[j])
    ensures s.Contents() == Step(FirstFit, AlwaysAppend, s.binSize, old(s.Contents()), item)
  {
    var j := FirstFittingBin(s, item);
    if j < |s.bins| {
      s.AddTo(j, item);
    } else {
      s.PackInNewBin(item);
    }
  }

  /** `FirstFitAlgorithm.solve`: every item is placed. */
  method FirstFitSolve(s: Solution, items: seq<int>)
    requires s.Valid() && |s.bins| > 0
    modifies s, s.bins
    ensures s.Valid() && |s.bins| > 0
    ensures s.Contents() == Pack(FirstFit, AlwaysAppend, s.binSize, old(s.Contents()), items)
  {
    ghost var c0 := s.Contents();
    var i := 0;
    while i < |items|
      invariant 0 <= i <= |items|
      invariant s.Valid() && |s.bins| > 0
      invariant s.Contents() == Pack(FirstFit, AlwaysAppend, s.binSize, c0, items[..i])
      invariant Grown(s, old(s.bins)) && forall j :: |old(s.bins)| <= j < |s.bins| ==> fresh(s.bins[j])
    {
      PackPrefixStep(FirstFit, AlwaysAppend, s.binSize, c0, items, i);
      FirstFitPlace(s, items[i]);
      i := i + 1;
    }
    assert items[..i] == items;
  }

  /** The algorithm classes of `main.py`. */
  datatype Kind = NextFitAlgorithm | FirstFitAlgorithm | FirstFitDecreasingAlgorithm

  /** `BPAlgorithm`: the instance (sorted when `decreasing`) and the solution. */
  class Algorithm {
    const kind: Kind
    const instance: Instance
    const solution: Solution

    ghost predicate Valid()
      reads this, solution, solution.bins
    {
      solution.Valid() && solution.binSize == instance.binSize && |solution.bins| > 0
    }

    /** `BPAlgorithm.__init__(instance, decreasing)`; First-Fit-Decreasing
        always passes `decreasing=True`. */
    constructor (kind: Kind, instance: Instance, decreasing: bool)
      ensures this.kind == kind
      ensures this.instance ==
        if decreasing || kind == FirstFitDecreasingAlgorithm then instance.SortDecreasing() else instance
      ensures Valid() && fresh(solution) && solution.Contents() == [[]]
    {
      this.kind := kind;
      var inst := if decreasing || kind == FirstFitDecreasingAlgorithm then instance.SortDecreasing() else instance;
      this.instance := inst;
      solution := new Solution(inst.binSize);
    }

    /** `solve`: Next-Fit or First-Fit over every item of the instance. */
    method Solve() returns (result: Solution)
      requires Valid()
      modifies solution, solution.bins
      ensures Valid() && result == solution
      ensures kind == NextFitAlgorithm ==>
        forall j :: |old(solution.bins)| - 1 <= j < |solution.bins| - 1 ==> solution.bins[j].closed
      ensures solution.Contents() ==
        Pack(if kind == NextFitAlgorithm then NextFit else FirstFit, AlwaysAppend,
             instance.binSize, old(solution.Contents()), instance.items)
    {
      if kind == NextFitAlgorithm {
        NextFitSolve(solution, instance.items);
      } else {
        FirstFitSolve(solution, instance.items);
      }
      result := solution;
    }
  }
}
