/** `aproximation.py`, the near-duplicate of `approximation.py`: the same
    loops (its `maybe_plot` calls draw and wait for input, and are no-ops
    here), a `Worst` algorithm in place of `Null`, and a `debug` flag that
    `AlgorithmDecreasing` never passes on. */
module Aproximation {
  import opened Bpp
  import opened Greedy
  import Approximation

  /** The concrete algorithm classes of `aproximation.py`. */
  datatype Kind =
    | WorstAlgorithm
    | NextFitAlgorithm
    | FirstFitAlgorithm
    | FirstFitDecreasingAlgorithm

  function RuleOf(kind: Kind): Rule
  {
    match kind
    case WorstAlgorithm => Null
    case NextFitAlgorithm => NextFit
    case FirstFitAlgorithm => FirstFit
    case FirstFitDecreasingAlgorithm => FirstFit
  }

  class Algorithm {
    const kind: Kind
    const instance: Instance
    const solution: Solution
    const debug: bool

    ghost predicate Valid()
      reads this, solution, solution.bins
    {
      solution.Valid() && solution.binSize == instance.binSize && |solution.bins| > 0
    }

    /** `__init__(instance, debug)`. `AlgorithmDecreasing.__init__` takes no
        `debug` argument and sorts the instance, so First-Fit-Decreasing
        always runs with `debug == False`. */
    constructor (kind: Kind, instance: Instance, debug: bool)
      ensures this.kind == kind
      ensures this.instance == if kind == FirstFitDecreasingAlgorithm then instance.SortDecreasing() else instance
      ensures this.debug == (debug && kind != FirstFitDecreasingAlgorithm)
      ensures Valid() && fresh(solution) && solution.Contents() == [[]]
    {
      this.kind := kind;
      var inst := if kind == FirstFitDecreasingAlgorithm then instance.SortDecreasing() else instance;
      this.instance := inst;
      this.debug := debug && kind != FirstFitDecreasingAlgorithm;
      solution := new Solution(inst.binSize);
    }

    /** `solve`: the loop of the class; a non-positive weight stops it with
        `ok == false`. */
    method Solve() returns (ok: bool, result: Solution)
      requires Valid()
      modifies solution, solution.bins
      ensures Valid() && result == solution
      ensures kind == NextFitAlgorithm ==>
        forall j :: |old(solution.bins)| - 1 <= j < |solution.bins| - 1 ==> solution.bins[j].closed
      ensures ok <==> PositivePrefix(instance.items) == |instance.items|
      ensures solution.Contents() ==
        Pack(RuleOf(kind), ReuseEmptyLast, instance.binSize, old(solution.Contents()),
             instance.items[..PositivePrefix(instance.items)])
    {
      match kind {
        case WorstAlgorithm => ok := Approximation.NullSolve(solution, instance.items);
        case NextFitAlgorithm => ok := Approximation.NextFitSolve(solution, instance.items);
        case FirstFitAlgorithm => ok := Approximation.FirstFitSolve(solution, instance.items);
        case FirstFitDecreasingAlgorithm => ok := Approximation.FirstFitSolve(solution, instance.items);
      }
      result := solution;
    }
  }
}
