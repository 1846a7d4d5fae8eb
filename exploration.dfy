/** `BPSolutionExplorer` of `optimization.py`: a mutable `Bpp.Solution`
    together with the neighbourhood operations the variable neighbourhood
    search drives. Every loop is proved to produce the value-level list of
    `Optimization` (whose membership, evaluation and effect are proved
    there), and `do_move` is proved to perform the transfers of a move, in
    some iteration order of its set, followed by `remove_empty_bins`. */
module Exploration {
  import opened Bpp
  import opened Optimization

  class Explorer {
    const solution: Solution

    ghost predicate Valid()
      reads this, solution, solution.bins
    {
      solution.Valid()
    }

    /** The dataclass constructor: the explorer wraps the given solution. */
    constructor (solution: Solution)
      ensures this.solution == solution
    {
      this.solution := solution;
    }

    /** `possible_transfers`: in the order of its three nested loops, the
        moves of `TransferCandidates`, which are exactly the feasible
        transfers (`TransferCandidatesExact`). The loops read the bins'
        item lists, which nothing changes while they run. */
    method PossibleTransfers(skipFull: bool) returns (moves: seq<Move>)
      requires Valid()
      ensures moves == TransferMoves(TransferCandidates(solution.Contents(), solution.binSize, skipFull))
    {
      var p := solution.Contents();
      moves := TransfersFromBins(p, solution.binSize, skipFull);
    }

    /** `possible_swaps`: in the order of its four nested loops, the moves of
        `SwapCandidates`, which are exactly the feasible swaps
        (`SwapCandidatesExact`). */
    method PossibleSwaps(skipFull: bool) returns (moves: seq<Move>)
      requires Valid()
      ensures moves == SwapMoves(SwapCandidates(solution.Contents(), solution.binSize, skipFull))
    {
      var p := solution.Contents();
      moves := SwapsFromBins(p, solution.binSize, skipFull);
    }

    /** `possible_moves`: the transfers, then the swaps. */
    method PossibleMoves(skipFull: bool) returns (moves: seq<Move>)
      requires Valid()
      ensures moves == MoveCandidates(solution.Contents(), solution.binSize, skipFull)
    {
      var transfers := PossibleTransfers(skipFull);
      var swaps := PossibleSwaps(skipFull);
      moves := transfers + swaps;
    }

    /* -------------------------------------------------------------------
       do_move and copy
       ------------------------------------------------------------------- */

    /** `do_move`: the move's transfers through `move_item`, one at a time in
        the iteration order of the set, then `remove_empty_bins`. A transfer
        whose item is missing makes `move_item` raise: the method returns
        `ok == false` with the transfers before it applied and no cleanup. */
    method DoMove(m: Move) returns (ok: bool)
      requires Valid()
      requires forall t :: t in m.transfers ==> InRange(|solution.bins|, t)
      modifies solution, solution.bins
      ensures Valid()
      ensures forall i :: 0 <= i < |solution.bins| ==> solution.bins[i] in old(solution.bins)
      ensures forall b :: b in solution.bins ==> b.closed == old(b.closed)
      ensures DoMoveStep(old(solution.Contents()), m, solution.Contents(), ok)
    {
      ghost var p := solution.Contents();
      ghost var order: seq<Transfer> := [];
      var remaining := m.transfers;
      while remaining != {}
        invariant solution.Valid() && solution.bins == old(solution.bins)
        invariant forall b :: b in solution.bins ==> b.closed == old(b.closed)
        invariant DoMoveProgress(p, m.transfers, order, remaining, solution.Contents())
        decreases |remaining|
      {
        var t :| t in remaining;
        ghost var c := solution.Contents();
        ok := solution.MoveItem(t.binFrom, t.item, t.binTo);
        DoMoveProgressStep(p, m, order, remaining, c, t, solution.Contents(), ok);
        if !ok {
          return;
        }
        order := order + [t];
        remaining := remaining - {t};
      }
      DoMoveProgressDone(p, m, order, solution.Contents());
      ok := true;
      solution.RemoveEmptyBins();
    }

    /** `copy` (a `deepcopy`): a fresh explorer over fresh bins with the same
        contents. */
    method Copy() returns (e: Explorer)
      requires Valid()
      ensures fresh(e) && fresh(e.solution) && e.Valid()
      ensures forall i :: 0 <= i < |e.solution.bins| ==> fresh(e.solution.bins[i])
      ensures e.solution.binSize == solution.binSize
      ensures e.solution.Contents() == solution.Contents()
    {
      var s := solution.Copy();
      e := new Explorer(s);
    }

    /* -------------------------------------------------------------------
       improve and shake
       ------------------------------------------------------------------- */

    /** One pass of the loop of `improve`: the candidates of non-full bins,
        the first of largest delta (`ImprovingMove`, at `BestIndex`), and,
        when that delta is positive, `do_move` of that move (`ImprovePass`).
        Either the fitness rises, the items stay and no bin within capacity
        overflows, or nothing changes and no candidate has a positive delta
        (`ImproveOutcome`). */
    method ImproveStep() returns (improved: bool)
      requires Valid()
      modifies solution, solution.bins
      ensures Valid()
      ensures forall i :: 0 <= i < |solution.bins| ==> solution.bins[i] in old(solution.bins)
      ensures forall b :: b in solution.bins ==> b.closed == old(b.closed)
      ensures ImproveOutcome(old(solution.Contents()), solution.binSize, solution.Contents(), improved)
    {
      var moves := PossibleMoves(true);
      var c := solution.Contents();
      var best := ImprovingMove(c, solution.binSize, moves);
      if best.None? {
        return false;
      }
      var ok := DoMove(best.value);
      assert AllPositive(c);
      ImprovingMoveApplied(c, solution.binSize, moves, solution.Contents(), ok);
      improved := true;
    }

    /** `improve`: on a copy, repeats the pass while it finds a move with a
        positive delta. Each move raises the fitness, which the square of the
        total weight bounds, so the loop ends, and it ends in a local
        optimum: no candidate left has a positive delta. The items are those
        of the original solution, no bin that was within capacity overflows,
        and the original is untouched (`ImproveState`). The run is recorded
        as an `ImproveTrace`: `states` are the contents after each improving
        pass, the last of them is the result, and a further pass finds no
        improvement. */
    method Improve() returns (e: Explorer, ghost states: seq<Packing>)
      requires Valid()
      ensures fresh(e) && fresh(e.solution) && e.Valid()
      ensures e.solution.binSize == solution.binSize
      ensures ImproveState(old(solution.Contents()), solution.binSize, Sum(Flatten(old(solution.Contents()))),
                           states, e.solution.Contents())
      ensures ImprovePass(e.solution.Contents(), solution.binSize, e.solution.Contents(), false)
      ensures forall m :: m in MoveCandidates(e.solution.Contents(), solution.binSize, true) ==>
        DeltaFitness(e.solution.Contents(), m).Some? && DeltaFitness(e.solution.Contents(), m).value <= 0
    {
      ghost var p0 := solution.Contents();
      ghost var w := Sum(Flatten(p0));
      var size := solution.binSize;
      assert AllPositive(p0);
      FitnessAtMostSquare(p0);
      e := Copy();
      states := [p0];
      while true
        invariant fresh(e) && fresh(e.solution) && e.Valid()
        invariant forall i :: 0 <= i < |e.solution.bins| ==> fresh(e.solution.bins[i])
        invariant e.solution.binSize == size
        invariant ImproveState(p0, size, w, states, e.solution.Contents())
        decreases Sq(w) - Fitness(e.solution.Contents())
      {
        ghost var c := e.solution.Contents();
        assert AllPositive(c);
        var improved := e.ImproveStep();
        if !improved {
          break;
        }
        ghost var q := e.solution.Contents();
        assert AllPositive(q);
        ImproveStateSnoc(p0, size, w, states, c, q);
        states := states + [q];
      }
    }

    /** One pass of the loop of `shake`: the candidates not in `forbidden`,
        and the one the caller's number `choice` picks among them in place of
        `random.choice`, applied. With no candidate left `random.choice`
        raises: `ok == false` and nothing changes. */
    method ShakeStep(choice: nat, forbidden: set<Move>) returns (ok: bool, move: Move)
      requires Valid()
      modifies solution, solution.bins
      ensures Valid()
      ensures forall i :: 0 <= i < |solution.bins| ==> solution.bins[i] in old(solution.bins)
      ensures forall b :: b in solution.bins ==> b.closed == old(b.closed)
      ensures ok ==> Picked(old(solution.Contents()), solution.binSize, choice, forbidden, move)
      ensures ok ==> DoMoveStep(old(solution.Contents()), move, solution.Contents(), true)
      ensures ok ==> multiset(Flatten(solution.Contents())) == multiset(Flatten(old(solution.Contents())))
      ensures ok && WithinCapacity(old(solution.Contents()), solution.binSize) ==>
        WithinCapacity(solution.Contents(), solution.binSize)
      ensures !ok ==> solution.Contents() == old(solution.Contents())
      ensures !ok ==> Allowed(MoveCandidates(solution.Contents(), solution.binSize, false), forbidden) == []
    {
      var candidates := PossibleMoves(false);
      var c := solution.Contents();
      assert c == old(solution.Contents());
      var moves := Allowed(candidates, forbidden);
      if |moves| == 0 {
        return false, Move({});
      }
      move := moves[choice % |moves|];
      CandidatesEvaluable(c, solution.binSize, false);
      var done := DoMove(move);
      ghost var q := solution.Contents();
      assert AllPositive(c);
      CandidateStep(c, solution.binSize, false, move, q, done);
      ok := true;
    }

    /** `shake(k)`: on a copy, `k` passes, each applying a candidate move
        that does not undo a move applied before. The run is recorded as a
        `ShakeTrace` (so `ShakeNeverUndoes` applies to it); it stops with
        `ok == false` when every candidate is excluded. The items are those
        of the original, no bin that was within capacity overflows, and the
        original is untouched. */
    method Shake(k: nat, choices: seq<nat>) returns (ok: bool, e: Explorer, ghost applied: seq<Move>, ghost states: seq<Packing>)
      requires Valid() && |choices| >= k
      ensures fresh(e) && fresh(e.solution) && e.Valid()
      ensures e.solution.binSize == solution.binSize
      ensures ShakeTrace(old(solution.Contents()), solution.binSize, choices, applied, states)
      ensures states[|applied|] == e.solution.Contents()
      ensures ok <==> |applied| == k
      ensures !ok ==> |applied| < k && Allowed(MoveCandidates(e.solution.Contents(), solution.binSize, false), ReversedSet(applied)) == []
      ensures multiset(Flatten(e.solution.Contents())) == multiset(Flatten(old(solution.Contents())))
      ensures WithinCapacity(old(solution.Contents()), solution.binSize) ==> WithinCapacity(e.solution.Contents(), solution.binSize)
    {
      ghost var p0 := solution.Contents();
      var size := solution.binSize;
      e := Copy();
      var forbidden: set<Move> := {};
      applied := [];
      states := [p0];
      var kth := 0;
      while kth < k
        invariant kth == |applied| <= k
        invariant fresh(e) && fresh(e.solution) && e.Valid()
        invariant forall i :: 0 <= i < |e.solution.bins| ==> fresh(e.solution.bins[i])
        invariant e.solution.binSize == size
        invariant ShakeState(p0, size, choices, applied, states, forbidden, e.solution.Contents())
      {
        ghost var c := e.solution.Contents();
        var picked, move := e.ShakeStep(choices[kth], forbidden);
        if !picked {
          return false, e, applied, states;
        }
        ghost var q := e.solution.Contents();
        ShakeStateSnoc(p0, size, choices, applied, states, forbidden, c, move, q);
        applied := applied + [move];
        states := states + [q];
        forbidden := forbidden + {Reversed(move)};
        kth := kth + 1;
      }
      ok := true;
    }
  }

  /* ---------------------------------------------------------------------
     The loops of possible_transfers and possible_swaps, over the item
     lists `p` of the bins (bin `i` holds `p[i]`; `fits` and `is_full` are
     `FitsValue` and `Full` of its list)
     --------------------------------------------------------------------- */

  /** The innermost loop of `possible_transfers`: `item` of bin `f` to
      every other bin it fits in. */
  method TransfersOfItem(p: Packing, size: int, f: int, item: int) returns (ms: seq<Move>)
    ensures ms == TransferMoves(TransfersTo(p, size, f, item, |p|))
  {
    ghost var ts: seq<Transfer> := [];
    ms := [];
    var t := 0;
    while t < |p|
      invariant 0 <= t <= |p|
      invariant ts == TransfersTo(p, size, f, item, t)
      invariant ms == TransferMoves(ts)
    {
      if f != t && FitsValue(size, p[t], item) {
        TransferMovesSnoc(ts, Transfer(f, item, t));
        ts := ts + [Transfer(f, item, t)];
        ms := ms + [FromTransfer(f, item, t)];
      }
      t := t + 1;
    }
  }

  /** The loop over the items of bin `f`. */
  method TransfersOfBin(p: Packing, size: int, f: int) returns (ms: seq<Move>)
    requires 0 <= f < |p|
    ensures ms == TransferMoves(TransfersOfItems(p, size, f, |p[f]|))
  {
    ms := [];
    var k := 0;
    while k < |p[f]|
      invariant 0 <= k <= |p[f]|
      invariant ms == TransferMoves(TransfersOfItems(p, size, f, k))
    {
      var more := TransfersOfItem(p, size, f, p[f][k]);
      TransfersOfItemsStep(p, size, f, k, ms, more);
      ms := ms + more;
      k := k + 1;
    }
  }

  /** The outer loop of `possible_transfers`, skipping full bins when
      asked to. */
  method TransfersFromBins(p: Packing, size: int, skipFull: bool) returns (ms: seq<Move>)
    ensures ms == TransferMoves(TransferCandidates(p, size, skipFull))
  {
    ms := [];
    var f := 0;
    while f < |p|
      invariant 0 <= f <= |p|
      invariant ms == TransferMoves(TransfersFrom(p, size, skipFull, f))
    {
      if !(skipFull && Full(size, p[f])) {
        var more := TransfersOfBin(p, size, f);
        TransfersFromStep(p, size, skipFull, f, ms, more);
        ms := ms + more;
      }
      f := f + 1;
    }
  }

  /** The innermost loop of `possible_swaps`: `itemFirst` of bin `f`
      against every item of bin `s`. */
  method SwapsWithBin(p: Packing, size: int, f: int, itemFirst: int, s: int) returns (ms: seq<Move>)
    requires 0 <= f < |p| && 0 <= s < |p|
    ensures ms == SwapMoves(SwapsWithItems(p, size, f, itemFirst, s, |p[s]|))
  {
    ghost var ss: seq<Swap> := [];
    ms := [];
    var l := 0;
    while l < |p[s]|
      invariant 0 <= l <= |p[s]|
      invariant ss == SwapsWithItems(p, size, f, itemFirst, s, l)
      invariant ms == SwapMoves(ss)
    {
      var itemSecond := p[s][l];
      if itemFirst != itemSecond {
        if FitsValue(size, p[s], itemFirst - itemSecond) && FitsValue(size, p[f], itemSecond - itemFirst) {
          SwapMovesSnoc(ss, Swap(f, itemFirst, s, itemSecond));
          ss := ss + [Swap(f, itemFirst, s, itemSecond)];
          ms := ms + [FromSwap(f, itemFirst, s, itemSecond)];
        }
      }
      l := l + 1;
    }
  }

  /** The loop over the second bins for `itemFirst` of bin `f`: only bins
      after `f`, and only non-full ones when asked to. */
  method SwapsOfItem(p: Packing, size: int, skipFull: bool, f: int, itemFirst: int) returns (ms: seq<Move>)
    requires 0 <= f < |p|
    ensures ms == SwapMoves(SwapsWithBins(p, size, skipFull, f, itemFirst, |p|))
  {
    ms := [];
    var s := 0;
    while s < |p|
      invariant 0 <= s <= |p|
      invariant ms == SwapMoves(SwapsWithBins(p, size, skipFull, f, itemFirst, s))
    {
      if f < s {
        if !(skipFull && Full(size, p[s])) {
          var more := SwapsWithBin(p, size, f, itemFirst, s);
          SwapsWithBinsStep(p, size, skipFull, f, itemFirst, s, ms, more);
          ms := ms + more;
        }
      }
      s := s + 1;
    }
  }

  /** The loop over the items of bin `f`. */
  method SwapsOfBin(p: Packing, size: int, skipFull: bool, f: int) returns (ms: seq<Move>)
    requires 0 <= f < |p|
    ensures ms == SwapMoves(SwapsOfItems(p, size, skipFull, f, |p[f]|))
  {
    ms := [];
    var k := 0;
    while k < |p[f]|
      invariant 0 <= k <= |p[f]|
      invariant ms == SwapMoves(SwapsOfItems(p, size, skipFull, f, k))
    {
      var more := SwapsOfItem(p, size, skipFull, f, p[f][k]);
      SwapsOfItemsStep(p, size, skipFull, f, k, ms, more);
      ms := ms + more;
      k := k + 1;
    }
  }

  /** The outer loop of `possible_swaps`, skipping full bins when asked
      to. */
  method SwapsFromBins(p: Packing, size: int, skipFull: bool) returns (ms: seq<Move>)
    ensures ms == SwapMoves(SwapCandidates(p, size, skipFull))
  {
    ms := [];
    var f := 0;
    while f < |p|
      invariant 0 <= f <= |p|
      invariant ms == SwapMoves(SwapsFrom(p, size, skipFull, f))
    {
      if !(skipFull && Full(size, p[f])) {
        var more := SwapsOfBin(p, size, skipFull, f);
        SwapsFromStep(p, size, skipFull, f, ms, more);
        ms := ms + more;
      } else {
        SwapsFromSkip(p, size, skipFull, f);
      }
      f := f + 1;
    }
  }
}
