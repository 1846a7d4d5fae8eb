/** The neighbourhood of `optimization.py` on values: transfers and moves,
    the fitness of a packing, the constant-time delta of a move, what
    `do_move` makes of a move, and the candidate lists of
    `possible_transfers` and `possible_swaps`. The explorer class that runs
    these on a mutable solution is in module `Exploration`. */
module Optimization {
  import opened Bpp

  datatype Option<T> = None | Some(value: T)

  /* ---------------------------------------------------------------------
     Transfer and Move
     --------------------------------------------------------------------- */

  /** One item leaving bin `binFrom` for bin `binTo` (frozen dataclass:
      equality is field-wise). */
  datatype Transfer = Transfer(binFrom: int, item: int, binTo: int)
  {
    /** `Transfer.reversed`: the transfer that carries the item back. */
    function Reversed(): Transfer
    {
      Transfer(binTo, item, binFrom)
    }
  }

  /** A move is a frozenset of transfers. */
  datatype Move = Move(transfers: set<Transfer>)

  /** `Move.from_transfer`: a move of exactly one transfer. */
  function FromTransfer(binFrom: int, item: int, binTo: int): (m: Move)
    ensures |m.transfers| == 1 && Transfer(binFrom, item, binTo) in m.transfers
  {
    Move({Transfer(binFrom, item, binTo)})
  }

  /** `Move.from_swap`: the first item goes to the second bin and the second
      item to the first bin. The two transfers are distinct, so the set has
      two elements, exactly when the bins differ or the items do. */
  function FromSwap(binFirst: int, itemFirst: int, binSecond: int, itemSecond: int): (m: Move)
    ensures Transfer(binFirst, itemFirst, binSecond) in m.transfers
    ensures Transfer(binSecond, itemSecond, binFirst) in m.transfers
    ensures |m.transfers| == 2 <==> binFirst != binSecond || itemFirst != itemSecond
    ensures |m.transfers| <= 2
  {
    var a := Transfer(binFirst, itemFirst, binSecond);
    var b := Transfer(binSecond, itemSecond, binFirst);
    if a == b then
      assert {a, b} == {a};
      Move({a, b})
    else
      assert |{a, b} - {a}| == 1 by { assert {a, b} - {a} == {b}; }
      Move({a, b})
  }

  /** `Move.reversed`: every transfer reversed. */
  function Reversed(m: Move): Move
  {
    Move(set t | t in m.transfers :: t.Reversed())
  }

  lemma TransferReversedTwice(t: Transfer)
    ensures t.Reversed().Reversed() == t
  {
  }

  /** Reversing a move twice gives the move back. */
  lemma ReversedTwice(m: Move)
    ensures Reversed(Reversed(m)) == m
  {
    var r := Reversed(Reversed(m));
    forall t | t in m.transfers ensures t in r.transfers {
      assert t.Reversed() in Reversed(m).transfers;
      assert t.Reversed().Reversed() == t;
    }
    forall t | t in r.transfers ensures t in m.transfers {
      var u :| u in Reversed(m).transfers && t == u.Reversed();
      var v :| v in m.transfers && u == v.Reversed();
      assert t == v;
    }
  }

  /** The reverse of a transfer move sends the item back. */
  lemma ReversedFromTransfer(binFrom: int, item: int, binTo: int)
    ensures Reversed(FromTransfer(binFrom, item, binTo)) == FromTransfer(binTo, item, binFrom)
  {
    var r := Reversed(FromTransfer(binFrom, item, binTo));
    assert Transfer(binFrom, item, binTo).Reversed() in r.transfers;
    assert r.transfers == {Transfer(binTo, item, binFrom)};
  }

  /** The reverse of a swap is the swap of the same bins with the items
      exchanged: the first bin now gives the second item back. */
  lemma ReversedFromSwap(binFirst: int, itemFirst: int, binSecond: int, itemSecond: int)
    ensures Reversed(FromSwap(binFirst, itemFirst, binSecond, itemSecond))
         == FromSwap(binFirst, itemSecond, binSecond, itemFirst)
  {
    var a := Transfer(binFirst, itemFirst, binSecond);
    var b := Transfer(binSecond, itemSecond, binFirst);
    var m := FromSwap(binFirst, itemFirst, binSecond, itemSecond);
    assert m.transfers == {a, b};
    var r := Reversed(m);
    assert a.Reversed() in r.transfers && b.Reversed() in r.transfers;
    assert r.transfers == {a.Reversed(), b.Reversed()};
    var s := FromSwap(binFirst, itemSecond, binSecond, itemFirst);
    assert s.transfers == {Transfer(binFirst, itemSecond, binSecond), Transfer(binSecond, itemFirst, binFirst)};
  }

  /* ---------------------------------------------------------------------
     Fitness and delta fitness
     --------------------------------------------------------------------- */

  function Sq(x: int): int
  {
    x * x
  }

  /** `fitness`: the sum over bins of the squared content. */
  function Fitness(p: Packing): int
  {
    if p == [] then 0 else Sq(Sum(p[0])) + Fitness(p[1..])
  }

  /** The transfer formula of `delta_fitness_from_move`, from the contents
      `b1` of the source bin and `b2` of the destination. */
  function TransferDelta(b1: int, b2: int, it: int): int
  {
    Sq(b1 - it) + Sq(b2 + it) - Sq(b1) - Sq(b2)
  }

  /** The swap formula: `b1`, `b2` are the contents of the two source bins
      and `i1`, `i2` the items leaving them. */
  function SwapDelta(b1: int, i1: int, b2: int, i2: int): int
  {
    Sq(b1 - i1 + i2) + Sq(b2 + i1 - i2) - Sq(b1) - Sq(b2)
  }

  /** Which of the two transfers is unpacked as `trans1` does not matter. */
  lemma SwapDeltaSymmetric(b1: int, i1: int, b2: int, i2: int)
    ensures SwapDelta(b1, i1, b2, i2) == SwapDelta(b2, i2, b1, i1)
  {
    assert b2 - i2 + i1 == b2 + i1 - i2 && b1 + i2 - i1 == b1 - i1 + i2;
  }

  lemma SingletonUnique(s: set<Transfer>)
    requires |s| == 1
    ensures forall a, b :: a in s && b in s ==> a == b
  {
    forall a, b | a in s && b in s ensures a == b {
      var rest := s - {a};
      assert |rest| == 0;
      assert b in rest || b == a;
    }
  }

  lemma PairThird(s: set<Transfer>, a: Transfer, b: Transfer, d: Transfer)
    requires |s| == 2 && a in s && b in s && d in s && a != b && a != d
    ensures b == d
  {
    var rest := s - {a} - {b};
    assert |rest| == 0;
    assert d in rest || d == b;
  }

  lemma PairOther(s: set<Transfer>, a: Transfer)
    requires |s| == 2 && a in s
    ensures exists b :: b in s && b != a
  {
    var rest := s - {a};
    assert |rest| == 1;
    var b :| b in rest;
  }

  lemma PairUnique(s: set<Transfer>)
    requires |s| == 2
    ensures forall a, b, d :: a in s && b in s && d in s && a != b && a != d ==> b == d
    ensures forall a :: a in s ==> exists b :: b in s && b != a
  {
    forall a, b, d | a in s && b in s && d in s && a != b && a != d ensures b == d {
      PairThird(s, a, b, d);
    }
    forall a | a in s ensures exists b :: b in s && b != a {
      PairOther(s, a);
    }
  }

  /** The moves `delta_fitness_from_move` can evaluate: one transfer between
      two existing bins, or two transfers out of existing bins. Any other
      move makes the unpacking or the indexing raise. */
  ghost predicate Evaluable(p: Packing, m: Move)
  {
    || (|m.transfers| == 1 && forall t :: t in m.transfers ==> 0 <= t.binFrom < |p| && 0 <= t.binTo < |p|)
    || (|m.transfers| == 2 && forall t :: t in m.transfers ==> 0 <= t.binFrom < |p|)
  }

  /** The transfer case of `delta_fitness_from_move`: `b1` is the content of
      the source bin and `b2` of the destination. */
  function TransferMoveDelta(p: Packing, m: Move): (r: Option<int>)
    requires |m.transfers| == 1
    ensures r.Some? <==> forall t :: t in m.transfers ==> 0 <= t.binFrom < |p| && 0 <= t.binTo < |p|
  {
    SingletonUnique(m.transfers);
    var t :| t in m.transfers;
    if 0 <= t.binFrom < |p| && 0 <= t.binTo < |p| then
      Some(TransferDelta(Sum(p[t.binFrom]), Sum(p[t.binTo]), t.item))
    else None
  }

  /** The swap formula for the unpacking `trans1, trans2 = a, b`. */
  function PairDelta(p: Packing, a: Transfer, b: Transfer): Option<int>
  {
    if 0 <= a.binFrom < |p| && 0 <= b.binFrom < |p| then
      Some(SwapDelta(Sum(p[a.binFrom]), a.item, Sum(p[b.binFrom]), b.item))
    else None
  }

  /** Both unpackings of a two-transfer move give the same delta. */
  lemma PairDeltaUnique(p: Packing, s: set<Transfer>)
    requires |s| == 2
    ensures forall a, b, c, d :: (a in s && b in s && c in s && d in s && a != b && c != d
      ==> PairDelta(p, a, b) == PairDelta(p, c, d))
  {
    PairUnique(s);
    forall a, b | a in s && b in s && a != b ensures PairDelta(p, a, b) == PairDelta(p, b, a) {
      if 0 <= a.binFrom < |p| && 0 <= b.binFrom < |p| {
        SwapDeltaSymmetric(Sum(p[a.binFrom]), a.item, Sum(p[b.binFrom]), b.item);
      }
    }
  }

  /** The swap case: the move unpacks into `trans1, trans2`, in whichever
      order the frozenset yields them. */
  function SwapMoveDelta(p: Packing, m: Move): (r: Option<int>)
    requires |m.transfers| == 2
    ensures r.Some? <==> forall t :: t in m.transfers ==> 0 <= t.binFrom < |p|
  {
    PairUnique(m.transfers);
    PairDeltaUnique(p, m.transfers);
    var t1, t2 :| t1 in m.transfers && t2 in m.transfers && t1 != t2;
    PairDelta(p, t1, t2)
  }

  /** `delta_fitness_from_move`: `None` where the source raises. */
  function DeltaFitness(p: Packing, m: Move): (r: Option<int>)
    ensures r.Some? <==> Evaluable(p, m)
  {
    if |m.transfers| == 1 then TransferMoveDelta(p, m)
    else if |m.transfers| == 2 then SwapMoveDelta(p, m)
    else None
  }

  /** A bin replaced: fitness changes by the difference of its squares. */
  lemma {:induction false} FitnessUpdate(p: Packing, i: int, b: seq<int>)
    requires 0 <= i < |p|
    ensures Fitness(p[i := b]) == Fitness(p) - Sq(Sum(p[i])) + Sq(Sum(b))
  {
    if i > 0 {
      assert p[i := b][1..] == p[1..][i - 1 := b];
      FitnessUpdate(p[1..], i - 1, b);
    } else {
      assert p[i := b][1..] == p[1..];
    }
  }

  /** Bins of content zero add nothing to the fitness, so dropping them
      leaves it unchanged. */
  lemma {:induction false} FitnessRemoveEmpty(p: Packing)
    ensures Fitness(RemoveEmpty(p)) == Fitness(p)
  {
    if p != [] {
      FitnessRemoveEmpty(p[1..]);
      if Sum(p[0]) != 0 {
        var r := [p[0]] + RemoveEmpty(p[1..]);
        assert r[1..] == RemoveEmpty(p[1..]);
      }
    }
  }

  /** Both transfers of a swap, first item first. */
  function SwapValue(p: Packing, binFirst: int, itemFirst: int, binSecond: int, itemSecond: int): Packing
    requires 0 <= binFirst < |p| && 0 <= binSecond < |p|
  {
    MoveItemValue(MoveItemValue(p, binFirst, itemFirst, binSecond), binSecond, itemSecond, binFirst)
  }

  /** Occupancies after one transfer between different bins. */
  lemma MoveItemSums(p: Packing, f: int, i: int, t: int)
    requires 0 <= f < |p| && 0 <= t < |p| && f != t && i in p[f]
    ensures var q := MoveItemValue(p, f, i, t);
      && |q| == |p|
      && q[f] == RemoveFirst(p[f], i) && q[t] == p[t] + [i]
      && Sum(q[f]) == Sum(p[f]) - i && Sum(q[t]) == Sum(p[t]) + i
      && (forall j :: 0 <= j < |p| && j != f && j != t ==> q[j] == p[j])
  {
    SumRemoveFirst(p[f], i);
    SumAppend(p[t], i);
  }

  /** The fitness after a transfer, item `i` from bin `f` to bin `t`. */
  lemma MoveItemFitness(p: Packing, f: int, i: int, t: int)
    requires 0 <= f < |p| && 0 <= t < |p| && f != t && i in p[f]
    ensures Fitness(MoveItemValue(p, f, i, t)) - Fitness(p)
         == TransferDelta(Sum(p[f]), Sum(p[t]), i)
  {
    var r := RemoveFirst(p[f], i);
    var a := p[t] + [i];
    MoveItemShape(p, f, i, t);
    FitnessTwoUpdates(p, f, r, t, a);
    TransferDeltaArith(Fitness(p), Fitness(MoveItemValue(p, f, i, t)), Sum(p[f]), Sum(p[t]), Sum(r), Sum(a), i);
  }

  lemma MoveItemShape(p: Packing, f: int, i: int, t: int)
    requires 0 <= f < |p| && 0 <= t < |p| && f != t && i in p[f]
    ensures MoveItemValue(p, f, i, t) == p[f := RemoveFirst(p[f], i)][t := p[t] + [i]]
    ensures Sum(RemoveFirst(p[f], i)) == Sum(p[f]) - i && Sum(p[t] + [i]) == Sum(p[t]) + i
  {
    SumRemoveFirst(p[f], i);
    SumAppend(p[t], i);
  }

  lemma TransferDeltaArith(fit: int, fit2: int, b1: int, b2: int, c1: int, c2: int, i: int)
    requires fit2 == fit - Sq(b1) + Sq(c1) - Sq(b2) + Sq(c2)
    requires c1 == b1 - i && c2 == b2 + i
    ensures fit2 - fit == TransferDelta(b1, b2, i)
  {
  }

  /** Two different bins replaced. */
  lemma FitnessTwoUpdates(p: Packing, f: int, x: seq<int>, t: int, y: seq<int>)
    requires 0 <= f < |p| && 0 <= t < |p| && f != t
    ensures Fitness(p[f := x][t := y])
         == Fitness(p) - Sq(Sum(p[f])) + Sq(Sum(x)) - Sq(Sum(p[t])) + Sq(Sum(y))
  {
    FitnessUpdate(p, f, x);
    FitnessUpdate(p[f := x], t, y);
  }

  /** The delta of the move made of the single transfer `tr`. */
  lemma TransferMoveDeltaOf(p: Packing, tr: Transfer)
    requires 0 <= tr.binFrom < |p| && 0 <= tr.binTo < |p|
    ensures DeltaFitness(p, Move({tr})) == Some(TransferDelta(Sum(p[tr.binFrom]), Sum(p[tr.binTo]), tr.item))
  {
    var m := Move({tr});
    assert |m.transfers| == 1;
  }

  /** The delta of the move made of the two different transfers `a`, `b`. */
  lemma SwapMoveDeltaOf(p: Packing, a: Transfer, b: Transfer)
    requires a != b && 0 <= a.binFrom < |p| && 0 <= b.binFrom < |p|
    ensures DeltaFitness(p, Move({a, b})) == Some(SwapDelta(Sum(p[a.binFrom]), a.item, Sum(p[b.binFrom]), b.item))
  {
    var m := Move({a, b});
    assert |m.transfers| == 2 by { assert m.transfers - {a} == {b}; }
    SwapDeltaSymmetric(Sum(p[a.binFrom]), a.item, Sum(p[b.binFrom]), b.item);
  }

  /** The constant-time delta of a transfer is the real change in fitness:
      for a transfer of an item present in its source bin to a different
      bin, `delta_fitness_from_move` is exactly the fitness after `do_move`
      minus the fitness before. */
  lemma TransferDeltaIsFitnessChange(p: Packing, f: int, i: int, t: int)
    requires 0 <= f < |p| && 0 <= t < |p| && f != t && i in p[f]
    ensures DeltaFitness(p, FromTransfer(f, i, t))
         == Some(Fitness(RemoveEmpty(MoveItemValue(p, f, i, t))) - Fitness(p))
  {
    var d := TransferDelta(Sum(p[f]), Sum(p[t]), i);
    var e := Fitness(RemoveEmpty(MoveItemValue(p, f, i, t))) - Fitness(p);
    assert FromTransfer(f, i, t) == Move({Transfer(f, i, t)});
    TransferMoveDeltaOf(p, Transfer(f, i, t));
    TransferFitnessChange(p, f, i, t);
    assert d == e;
  }

  /** The fitness change `do_move` makes with a transfer. */
  lemma TransferFitnessChange(p: Packing, f: int, i: int, t: int)
    requires 0 <= f < |p| && 0 <= t < |p| && f != t && i in p[f]
    ensures Fitness(RemoveEmpty(MoveItemValue(p, f, i, t))) - Fitness(p) == TransferDelta(Sum(p[f]), Sum(p[t]), i)
  {
    MoveItemFitness(p, f, i, t);
    FitnessRemoveEmpty(MoveItemValue(p, f, i, t));
  }

  /** The fitness after both transfers of a swap. */
  lemma SwapFitness(p: Packing, b1: int, i1: int, b2: int, i2: int)
    requires 0 <= b1 < |p| && 0 <= b2 < |p| && b1 != b2 && i1 in p[b1] && i2 in p[b2]
    ensures Fitness(SwapValue(p, b1, i1, b2, i2)) - Fitness(p) == SwapDelta(Sum(p[b1]), i1, Sum(p[b2]), i2)
  {
    var p1 := MoveItemValue(p, b1, i1, b2);
    var p2 := MoveItemValue(p1, b2, i2, b1);
    assert p2 == SwapValue(p, b1, i1, b2, i2);
    var s1, s2 := Sum(p[b1]), Sum(p[b2]);
    MoveItemSums(p, b1, i1, b2);
    assert Sum(p1[b2]) == s2 + i1 && Sum(p1[b1]) == s1 - i1 && i2 in p1[b2];
    MoveItemFitness(p, b1, i1, b2);
    assert Fitness(p1) - Fitness(p) == TransferDelta(s1, s2, i1);
    MoveItemFitness(p1, b2, i2, b1);
    SwapDeltaArith(Fitness(p), Fitness(p1), Fitness(p2), s1, i1, s2, i2, Sum(p1[b1]), Sum(p1[b2]));
  }

  lemma SwapDeltaArith(fit: int, fit1: int, fit2: int, b1: int, i1: int, b2: int, i2: int, c1: int, c2: int)
    requires c1 == b1 - i1 && c2 == b2 + i1
    requires fit1 - fit == TransferDelta(b1, b2, i1)
    requires fit2 - fit1 == TransferDelta(c2, c1, i2)
    ensures fit2 - fit == SwapDelta(b1, i1, b2, i2)
  {
  }

  /** The constant-time delta of a swap is the real change in fitness: for
      a swap between two different bins of items present in them,
      `delta_fitness_from_move` (whichever transfer it unpacks first) is
      exactly the fitness after `do_move` minus the fitness before. */
  lemma SwapDeltaIsFitnessChange(p: Packing, b1: int, i1: int, b2: int, i2: int)
    requires 0 <= b1 < |p| && 0 <= b2 < |p| && b1 != b2 && i1 in p[b1] && i2 in p[b2]
    ensures DeltaFitness(p, FromSwap(b1, i1, b2, i2))
         == Some(Fitness(RemoveEmpty(SwapValue(p, b1, i1, b2, i2))) - Fitness(p))
  {
    var m := FromSwap(b1, i1, b2, i2);
    var d := SwapDelta(Sum(p[b1]), i1, Sum(p[b2]), i2);
    var e := Fitness(RemoveEmpty(SwapValue(p, b1, i1, b2, i2))) - Fitness(p);
    SwapDeltaOfMove(p, b1, i1, b2, i2, m);
    SwapFitnessChange(p, b1, i1, b2, i2);
    assert d == e;
  }

  lemma SwapDeltaOfMove(p: Packing, b1: int, i1: int, b2: int, i2: int, m: Move)
    requires 0 <= b1 < |p| && 0 <= b2 < |p| && b1 != b2
    requires m == FromSwap(b1, i1, b2, i2)
    ensures DeltaFitness(p, m) == Some(SwapDelta(Sum(p[b1]), i1, Sum(p[b2]), i2))
  {
    assert m == Move({Transfer(b1, i1, b2), Transfer(b2, i2, b1)});
    SwapMoveDeltaOf(p, Transfer(b1, i1, b2), Transfer(b2, i2, b1));
  }


  /** The fitness change `do_move` makes with a swap. */
  lemma SwapFitnessChange(p: Packing, b1: int, i1: int, b2: int, i2: int)
    requires 0 <= b1 < |p| && 0 <= b2 < |p| && b1 != b2 && i1 in p[b1] && i2 in p[b2]
    ensures Fitness(RemoveEmpty(SwapValue(p, b1, i1, b2, i2))) - Fitness(p) == SwapDelta(Sum(p[b1]), i1, Sum(p[b2]), i2)
  {
    SwapFitness(p, b1, i1, b2, i2);
    FitnessRemoveEmpty(SwapValue(p, b1, i1, b2, i2));
  }

  /* ---------------------------------------------------------------------
     do_move on values
     --------------------------------------------------------------------- */

  ghost predicate InRange(n: int, t: Transfer)
  {
    0 <= t.binFrom < n && 0 <= t.binTo < n
  }

  /** `do_move`'s loop for one iteration order `ts` of the move's transfers:
      `move_item` for each in turn. The flag is false when some transfer's
      item is missing from its bin; the packing is then the one reached
      before it. */
  function ApplyInOrder(p: Packing, ts: seq<Transfer>): (r: (Packing, bool))
    requires forall j :: 0 <= j < |ts| ==> InRange(|p|, ts[j])
    ensures |r.0| == |p|
    decreases |ts|
  {
    if ts == [] then (p, true)
    else
      assert InRange(|p|, ts[0]);
      if ts[0].item !in p[ts[0].binFrom] then (p, false)
      else
        var q := MoveItemValue(p, ts[0].binFrom, ts[0].item, ts[0].binTo);
        assert |q| == |p|;
        assert forall j :: 0 <= j < |ts[1..]| ==> ts[1..][j] == ts[j + 1];
        ApplyInOrder(q, ts[1..])
  }

  /** `ts` lists the elements of `s`, each once: an iteration order of the
      frozenset. */
  ghost predicate Enumerates(ts: seq<Transfer>, s: set<Transfer>)
  {
    && |ts| == |s|
    && (forall j :: 0 <= j < |ts| ==> ts[j] in s)
    && (forall j, l :: 0 <= j < l < |ts| ==> ts[j] != ts[l])
  }

  lemma EnumeratesSingleton(ts: seq<Transfer>, a: Transfer)
    requires Enumerates(ts, {a})
    ensures ts == [a]
  {
  }

  lemma EnumeratesPair(ts: seq<Transfer>, a: Transfer, b: Transfer)
    requires a != b && Enumerates(ts, {a, b})
    ensures ts == [a, b] || ts == [b, a]
  {
    assert |{a, b}| == 2 by { assert {a, b} - {a} == {b}; }
  }

  /** `list.remove` of an item present before an append is unaffected by it. */
  lemma {:induction false} RemoveFirstAppend(s: seq<int>, x: int, y: int)
    requires x in s
    ensures RemoveFirst(s + [y], x) == RemoveFirst(s, x) + [y]
  {
    assert (s + [y])[0] == s[0];
    if s[0] != x {
      assert (s + [y])[1..] == s[1..] + [y];
      RemoveFirstAppend(s[1..], x, y);
    } else {
      assert (s + [y])[1..] == s[1..] + [y];
    }
  }

  /** The two transfers of a swap commute: whichever the frozenset yields
      first, the bins end up the same. */
  lemma SwapOrderIrrelevant(p: Packing, b1: int, i1: int, b2: int, i2: int)
    requires 0 <= b1 < |p| && 0 <= b2 < |p| && b1 != b2 && i1 in p[b1] && i2 in p[b2]
    ensures MoveItemValue(MoveItemValue(p, b2, i2, b1), b1, i1, b2) == SwapValue(p, b1, i1, b2, i2)
  {
    RemoveFirstAppend(p[b1], i1, i2);
    RemoveFirstAppend(p[b2], i2, i1);
    var x := MoveItemValue(MoveItemValue(p, b2, i2, b1), b1, i1, b2);
    var y := SwapValue(p, b1, i1, b2, i2);
    assert |x| == |y|;
    forall j | 0 <= j < |x| ensures x[j] == y[j] {
    }
  }

  /** `do_move` of a transfer move, whatever the iteration order: the one
      `move_item`, then `remove_empty_bins`. */
  lemma TransferOutcome(p: Packing, f: int, i: int, t: int, ts: seq<Transfer>)
    requires 0 <= f < |p| && 0 <= t < |p| && i in p[f]
    requires Enumerates(ts, FromTransfer(f, i, t).transfers)
    ensures forall j :: 0 <= j < |ts| ==> InRange(|p|, ts[j])
    ensures ApplyInOrder(p, ts) == (MoveItemValue(p, f, i, t), true)
  {
    EnumeratesSingleton(ts, Transfer(f, i, t));
    var q := MoveItemValue(p, f, i, t);
    assert ts[1..] == [];
    assert ApplyInOrder(q, []) == (q, true);
  }

  /** `do_move` of a swap move between different bins, whatever the
      iteration order: both `move_item`s succeed and give `SwapValue`. */
  lemma SwapOutcome(p: Packing, b1: int, i1: int, b2: int, i2: int, ts: seq<Transfer>)
    requires 0 <= b1 < |p| && 0 <= b2 < |p| && b1 != b2 && i1 in p[b1] && i2 in p[b2]
    requires Enumerates(ts, FromSwap(b1, i1, b2, i2).transfers)
    ensures forall j :: 0 <= j < |ts| ==> InRange(|p|, ts[j])
    ensures ApplyInOrder(p, ts) == (SwapValue(p, b1, i1, b2, i2), true)
  {
    var a := Transfer(b1, i1, b2);
    var b := Transfer(b2, i2, b1);
    assert FromSwap(b1, i1, b2, i2).transfers == {a, b};
    EnumeratesPair(ts, a, b);
    if ts == [a, b] {
      var p1 := MoveItemValue(p, b1, i1, b2);
      MoveItemSums(p, b1, i1, b2);
      var p2 := MoveItemValue(p1, b2, i2, b1);
      assert ts[1..] == [b] && ts[1..][1..] == [];
      assert ApplyInOrder(p1, [b]) == ApplyInOrder(p2, []);
    } else {
      var p1 := MoveItemValue(p, b2, i2, b1);
      MoveItemSums(p, b2, i2, b1);
      var p2 := MoveItemValue(p1, b1, i1, b2);
      assert ts[1..] == [a] && ts[1..][1..] == [];
      assert ApplyInOrder(p1, [a]) == ApplyInOrder(p2, []);
      SwapOrderIrrelevant(p, b1, i1, b2, i2);
    }
  }

  /** `do_move` for the iteration order `ts`: the packing it leaves and
      whether every `move_item` succeeded; `remove_empty_bins` runs only
      then. */
  function DoMoveResult(p: Packing, ts: seq<Transfer>): (Packing, bool)
    requires forall j :: 0 <= j < |ts| ==> InRange(|p|, ts[j])
  {
    var (q, done) := ApplyInOrder(p, ts);
    (if done then RemoveEmpty(q) else q, done)
  }

  /** `do_move` of `m` may turn `p` into `q` with outcome `ok`: for some
      iteration order of the frozenset. */
  ghost predicate DoMoveStep(p: Packing, m: Move, q: Packing, ok: bool)
  {
    exists ts :: Enumerates(ts, m.transfers)
      && (forall j :: 0 <= j < |ts| ==> InRange(|p|, ts[j]))
      && DoMoveResult(p, ts) == (q, ok)
  }

  /** One more transfer after a run of successful ones. */
  lemma {:induction false} ApplyInOrderSnoc(p: Packing, ts: seq<Transfer>, t: Transfer)
    requires forall j :: 0 <= j < |ts| ==> InRange(|p|, ts[j])
    requires InRange(|p|, t) && ApplyInOrder(p, ts).1
    ensures forall j :: 0 <= j < |ts + [t]| ==> InRange(|p|, (ts + [t])[j])
    ensures var q := ApplyInOrder(p, ts).0;
      ApplyInOrder(p, ts + [t])
      == if t.item in q[t.binFrom] then (MoveItemValue(q, t.binFrom, t.item, t.binTo), true) else (q, false)
    decreases |ts|
  {
    var q := ApplyInOrder(p, ts).0;
    if ts == [] {
      assert ts + [t] == [t] && [t][1..] == [];
    } else {
      assert InRange(|p|, ts[0]);
      var p1 := MoveItemValue(p, ts[0].binFrom, ts[0].item, ts[0].binTo);
      assert (ts + [t])[1..] == ts[1..] + [t];
      ApplyInOrderSnoc(p1, ts[1..], t);
    }
  }

  /** After a failing transfer nothing more happens. */
  lemma {:induction false} ApplyInOrderStops(p: Packing, a: seq<Transfer>, b: seq<Transfer>)
    requires forall j :: 0 <= j < |a + b| ==> InRange(|p|, (a + b)[j])
    requires forall j :: 0 <= j < |a| ==> InRange(|p|, a[j])
    requires !ApplyInOrder(p, a).1
    ensures ApplyInOrder(p, a + b) == ApplyInOrder(p, a)
    decreases |a|
  {
    assert a != [];
    assert (a + b)[0] == a[0];
    if a[0].item in p[a[0].binFrom] {
      var p1 := MoveItemValue(p, a[0].binFrom, a[0].item, a[0].binTo);
      assert (a + b)[1..] == a[1..] + b;
      ApplyInOrderStops(p1, a[1..], b);
    }
  }

  /** Some iteration order of a finite set of transfers. */
  ghost function Enumeration(s: set<Transfer>): (ts: seq<Transfer>)
    ensures Enumerates(ts, s)
    decreases |s|
  {
    if s == {} then []
    else
      var t :| t in s;
      var rest := Enumeration(s - {t});
      assert forall j :: 0 <= j < |rest| ==> ([t] + rest)[j + 1] == rest[j];
      [t] + rest
  }

  /** Moving a positive item between bins of positive items keeps every
      item positive. */
  lemma MoveItemPositive(p: Packing, f: int, i: int, t: int)
    requires AllPositive(p) && 0 <= f < |p| && 0 <= t < |p| && i in p[f]
    ensures AllPositive(MoveItemValue(p, f, i, t))
  {
    var q := MoveItemValue(p, f, i, t);
    assert i > 0;
    PositiveRemoveFirst(p[f], i);
    var r := RemoveFirst(p[f], i);
    var p1 := p[f := r];
    assert Positive(p1[t] + [i]) by {
      assert forall k :: 0 <= k < |p1[t]| ==> (p1[t] + [i])[k] == p1[t][k];
    }
    assert forall k :: 0 <= k < |q| ==> q[k] == if k == t then p1[t] + [i] else p1[k];
  }

  /** A feasible transfer leaves no bin over capacity. */
  lemma TransferWithinCapacity(p: Packing, size: int, f: int, i: int, t: int)
    requires WithinCapacity(p, size) && 0 <= f < |p| && 0 <= t < |p| && f != t
    requires i in p[f] && i > 0 && FitsValue(size, p[t], i)
    ensures WithinCapacity(MoveItemValue(p, f, i, t), size)
  {
    MoveItemSums(p, f, i, t);
  }

  /** A feasible swap leaves no bin over capacity: `fits` checked both
      net changes. */
  lemma SwapWithinCapacity(p: Packing, size: int, b1: int, i1: int, b2: int, i2: int)
    requires WithinCapacity(p, size) && 0 <= b1 < |p| && 0 <= b2 < |p| && b1 != b2
    requires i1 in p[b1] && i2 in p[b2]
    requires FitsValue(size, p[b2], i1 - i2) && FitsValue(size, p[b1], i2 - i1)
    ensures WithinCapacity(SwapValue(p, b1, i1, b2, i2), size)
  {
    var p1 := MoveItemValue(p, b1, i1, b2);
    MoveItemSums(p, b1, i1, b2);
    assert i2 in p1[b2];
    MoveItemSums(p1, b2, i2, b1);
  }

  /** `remove_empty_bins` after moves that kept the items and the capacity. */
  lemma CleanupFacts(p: Packing, size: int, r: Packing)
    requires multiset(Flatten(r)) == multiset(Flatten(p)) && AllPositive(r)
    requires WithinCapacity(p, size) ==> WithinCapacity(r, size)
    ensures var q := RemoveEmpty(r);
      && multiset(Flatten(q)) == multiset(Flatten(p)) && AllPositive(q)
      && (forall k :: 0 <= k < |q| ==> Sum(q[k]) != 0)
      && (WithinCapacity(p, size) ==> WithinCapacity(q, size))
  {
    RemoveEmptyConserves(r);
    RemoveEmptyKeepsNonEmpty(r);
    if WithinCapacity(p, size) {
      RemoveEmptyWithinCapacity(r, size);
    }
  }

  /** The transfer itself keeps the items, their positivity and the capacity. */
  lemma TransferFacts(p: Packing, size: int, f: int, i: int, t: int)
    requires AllPositive(p) && 0 <= f < |p| && 0 <= t < |p| && f != t && i in p[f]
    requires FitsValue(size, p[t], i)
    ensures var r := MoveItemValue(p, f, i, t);
      && multiset(Flatten(r)) == multiset(Flatten(p)) && AllPositive(r)
      && (WithinCapacity(p, size) ==> WithinCapacity(r, size))
  {
    MoveItemConserves(p, f, i, t);
    MoveItemPositive(p, f, i, t);
    if WithinCapacity(p, size) {
      TransferWithinCapacity(p, size, f, i, t);
    }
  }

  /** Both transfers of a swap keep the items, their positivity and the
      capacity. */
  lemma SwapFacts(p: Packing, size: int, b1: int, i1: int, b2: int, i2: int)
    requires AllPositive(p) && 0 <= b1 < |p| && 0 <= b2 < |p| && b1 != b2 && i1 in p[b1] && i2 in p[b2]
    requires FitsValue(size, p[b2], i1 - i2) && FitsValue(size, p[b1], i2 - i1)
    ensures var r := SwapValue(p, b1, i1, b2, i2);
      && multiset(Flatten(r)) == multiset(Flatten(p)) && AllPositive(r)
      && (WithinCapacity(p, size) ==> WithinCapacity(r, size))
  {
    var p1 := MoveItemValue(p, b1, i1, b2);
    MoveItemConserves(p, b1, i1, b2);
    MoveItemPositive(p, b1, i1, b2);
    MoveItemSums(p, b1, i1, b2);
    assert i2 in p1[b2];
    MoveItemConserves(p1, b2, i2, b1);
    MoveItemPositive(p1, b2, i2, b1);
    if WithinCapacity(p, size) {
      SwapWithinCapacity(p, size, b1, i1, b2, i2);
    }
  }

  /** The `do_move` of a transfer whose item is in its bin: both iteration
      orders of a one-element set are the same. */
  lemma TransferStepOutcome(p: Packing, f: int, i: int, t: int, q: Packing, ok: bool)
    requires 0 <= f < |p| && 0 <= t < |p| && i in p[f]
    requires DoMoveStep(p, FromTransfer(f, i, t), q, ok)
    ensures ok && q == RemoveEmpty(MoveItemValue(p, f, i, t))
  {
    var ts :| Enumerates(ts, FromTransfer(f, i, t).transfers)
      && (forall j :: 0 <= j < |ts| ==> InRange(|p|, ts[j]))
      && DoMoveResult(p, ts) == (q, ok);
    TransferOutcome(p, f, i, t, ts);
  }

  /** The `do_move` of a swap between two bins holding its items, in either
      iteration order. */
  lemma SwapStepOutcome(p: Packing, b1: int, i1: int, b2: int, i2: int, q: Packing, ok: bool)
    requires 0 <= b1 < |p| && 0 <= b2 < |p| && b1 != b2 && i1 in p[b1] && i2 in p[b2]
    requires DoMoveStep(p, FromSwap(b1, i1, b2, i2), q, ok)
    ensures ok && q == RemoveEmpty(SwapValue(p, b1, i1, b2, i2))
  {
    var ts :| Enumerates(ts, FromSwap(b1, i1, b2, i2).transfers)
      && (forall j :: 0 <= j < |ts| ==> InRange(|p|, ts[j]))
      && DoMoveResult(p, ts) == (q, ok);
    SwapOutcome(p, b1, i1, b2, i2, ts);
  }

  /** The delta of a transfer, once `q` is known to be its outcome. */
  lemma TransferDeltaOf(p: Packing, f: int, i: int, t: int, m: Move, q: Packing)
    requires 0 <= f < |p| && 0 <= t < |p| && f != t && i in p[f]
    requires m == FromTransfer(f, i, t) && q == RemoveEmpty(MoveItemValue(p, f, i, t))
    ensures DeltaFitness(p, m) == Some(Fitness(q) - Fitness(p))
  {
    TransferDeltaIsFitnessChange(p, f, i, t);
  }

  /** The delta of a swap, once `q` is known to be its outcome. */
  lemma SwapDeltaOf(p: Packing, b1: int, i1: int, b2: int, i2: int, m: Move, q: Packing)
    requires 0 <= b1 < |p| && 0 <= b2 < |p| && b1 != b2 && i1 in p[b1] && i2 in p[b2]
    requires m == FromSwap(b1, i1, b2, i2) && q == RemoveEmpty(SwapValue(p, b1, i1, b2, i2))
    ensures DeltaFitness(p, m) == Some(Fitness(q) - Fitness(p))
  {
    SwapDeltaIsFitnessChange(p, b1, i1, b2, i2);
  }

  /** The packing a transfer's `do_move` leaves: no item lost, no empty bin,
      no bin over capacity. */
  lemma TransferCleanup(p: Packing, size: int, f: int, i: int, t: int, q: Packing)
    requires AllPositive(p) && 0 <= f < |p| && 0 <= t < |p| && f != t && i in p[f]
    requires FitsValue(size, p[t], i)
    requires q == RemoveEmpty(MoveItemValue(p, f, i, t))
    ensures multiset(Flatten(q)) == multiset(Flatten(p)) && AllPositive(q)
    ensures forall k :: 0 <= k < |q| ==> Sum(q[k]) != 0
    ensures WithinCapacity(p, size) ==> WithinCapacity(q, size)
  {
    TransferFacts(p, size, f, i, t);
    CleanupFacts(p, size, MoveItemValue(p, f, i, t));
  }

  /** The packing a swap's `do_move` leaves, likewise. */
  lemma SwapCleanup(p: Packing, size: int, b1: int, i1: int, b2: int, i2: int, q: Packing)
    requires AllPositive(p) && 0 <= b1 < |p| && 0 <= b2 < |p| && b1 != b2 && i1 in p[b1] && i2 in p[b2]
    requires FitsValue(size, p[b2], i1 - i2) && FitsValue(size, p[b1], i2 - i1)
    requires q == RemoveEmpty(SwapValue(p, b1, i1, b2, i2))
    ensures multiset(Flatten(q)) == multiset(Flatten(p)) && AllPositive(q)
    ensures forall k :: 0 <= k < |q| ==> Sum(q[k]) != 0
    ensures WithinCapacity(p, size) ==> WithinCapacity(q, size)
  {
    SwapFacts(p, size, b1, i1, b2, i2);
    CleanupFacts(p, size, SwapValue(p, b1, i1, b2, i2));
  }

  /** What `do_move` of a transfer leaves behind: no item lost, no empty
      bin, no bin over capacity, and the fitness changed by exactly the
      delta. */
  lemma TransferStep(p: Packing, size: int, f: int, i: int, t: int, m: Move, q: Packing, ok: bool)
    requires AllPositive(p) && 0 <= f < |p| && 0 <= t < |p| && f != t && i in p[f]
    requires FitsValue(size, p[t], i)
    requires m == FromTransfer(f, i, t)
    requires DoMoveStep(p, m, q, ok)
    ensures ok
    ensures DeltaFitness(p, m) == Some(Fitness(q) - Fitness(p))
    ensures multiset(Flatten(q)) == multiset(Flatten(p)) && AllPositive(q)
    ensures forall k :: 0 <= k < |q| ==> Sum(q[k]) != 0
    ensures WithinCapacity(p, size) ==> WithinCapacity(q, size)
  {
    TransferStepOutcome(p, f, i, t, q, ok);
    TransferDeltaOf(p, f, i, t, m, q);
    TransferCleanup(p, size, f, i, t, q);
  }

  /** What `do_move` of a swap leaves behind, likewise. */
  lemma SwapStep(p: Packing, size: int, b1: int, i1: int, b2: int, i2: int, m: Move, q: Packing, ok: bool)
    requires AllPositive(p) && 0 <= b1 < |p| && 0 <= b2 < |p| && b1 != b2 && i1 in p[b1] && i2 in p[b2]
    requires FitsValue(size, p[b2], i1 - i2) && FitsValue(size, p[b1], i2 - i1)
    requires m == FromSwap(b1, i1, b2, i2)
    requires DoMoveStep(p, m, q, ok)
    ensures ok
    ensures DeltaFitness(p, m) == Some(Fitness(q) - Fitness(p))
    ensures multiset(Flatten(q)) == multiset(Flatten(p)) && AllPositive(q)
    ensures forall k :: 0 <= k < |q| ==> Sum(q[k]) != 0
    ensures WithinCapacity(p, size) ==> WithinCapacity(q, size)
  {
    SwapStepOutcome(p, b1, i1, b2, i2, q, ok);
    SwapDeltaOf(p, b1, i1, b2, i2, m, q);
    SwapCleanup(p, size, b1, i1, b2, i2, q);
  }

  /* ---------------------------------------------------------------------
     Candidate moves
     --------------------------------------------------------------------- */

  /** `Bin.is_full`. */
  predicate Full(size: int, bin: seq<int>)
  {
    Sum(bin) == size
  }

  /** The innermost loop of `possible_transfers` for one item of bin `f`:
      destination bins among the first `n`, other than `f`, it fits in. */
  function TransfersTo(p: Packing, size: int, f: int, item: int, n: nat): seq<Transfer>
    requires n <= |p|
  {
    if n == 0 then []
    else
      TransfersTo(p, size, f, item, n - 1)
      + (if f != n - 1 && FitsValue(size, p[n - 1], item) then [Transfer(f, item, n - 1)] else [])
  }

  /** The loop over the first `k` items of bin `f`. */
  function TransfersOfItems(p: Packing, size: int, f: int, k: nat): seq<Transfer>
    requires 0 <= f < |p| && k <= |p[f]|
  {
    if k == 0 then []
    else TransfersOfItems(p, size, f, k - 1) + TransfersTo(p, size, f, p[f][k - 1], |p|)
  }

  /** The outer loop over the first `n` source bins, skipping full ones when
      asked to. */
  function TransfersFrom(p: Packing, size: int, skipFull: bool, n: nat): seq<Transfer>
    requires n <= |p|
  {
    if n == 0 then []
    else
      TransfersFrom(p, size, skipFull, n - 1)
      + (if skipFull && Full(size, p[n - 1]) then [] else TransfersOfItems(p, size, n - 1, |p[n - 1]|))
  }

  /** The transfers `possible_transfers` returns, in its order. */
  function TransferCandidates(p: Packing, size: int, skipFull: bool): seq<Transfer>
  {
    TransfersFrom(p, size, skipFull, |p|)
  }

  /** What `possible_transfers` admits: an item of a (non-full, if asked)
      bin going to another bin it fits in. */
  ghost predicate FeasibleTransfer(p: Packing, size: int, skipFull: bool, t: Transfer)
  {
    && 0 <= t.binFrom < |p| && 0 <= t.binTo < |p| && t.binFrom != t.binTo
    && !(skipFull && Full(size, p[t.binFrom]))
    && t.item in p[t.binFrom]
    && FitsValue(size, p[t.binTo], t.item)
  }

  lemma {:induction false} TransfersToMembers(p: Packing, size: int, f: int, item: int, n: nat)
    requires n <= |p|
    ensures forall t :: t in TransfersTo(p, size, f, item, n) <==>
      t.binFrom == f && t.item == item && 0 <= t.binTo < n && t.binTo != f && FitsValue(size, p[t.binTo], item)
  {
    if n > 0 {
      TransfersToMembers(p, size, f, item, n - 1);
    }
  }

  lemma {:induction false} TransfersOfItemsMembers(p: Packing, size: int, f: int, k: nat)
    requires 0 <= f < |p| && k <= |p[f]|
    ensures forall t :: t in TransfersOfItems(p, size, f, k) <==>
      t.binFrom == f && t.item in p[f][..k] && 0 <= t.binTo < |p| && t.binTo != f && FitsValue(size, p[t.binTo], t.item)
  {
    if k > 0 {
      TransfersOfItemsMembers(p, size, f, k - 1);
      TransfersToMembers(p, size, f, p[f][k - 1], |p|);
      assert p[f][..k] == p[f][..k - 1] + [p[f][k - 1]];
    }
  }

  lemma {:induction false} TransfersFromMembers(p: Packing, size: int, skipFull: bool, n: nat)
    requires n <= |p|
    ensures forall t :: t in TransfersFrom(p, size, skipFull, n) <==>
      FeasibleTransfer(p, size, skipFull, t) && t.binFrom < n
  {
    if n > 0 {
      TransfersFromMembers(p, size, skipFull, n - 1);
      TransfersOfItemsMembers(p, size, n - 1, |p[n - 1]|);
      assert p[n - 1][..|p[n - 1]|] == p[n - 1];
    }
  }

  /** `possible_transfers` lists exactly the feasible transfers: every one it
      returns is feasible, and every feasible one is returned. */
  lemma TransferCandidatesExact(p: Packing, size: int, skipFull: bool, t: Transfer)
    ensures t in TransferCandidates(p, size, skipFull) <==> FeasibleTransfer(p, size, skipFull, t)
  {
    TransfersFromMembers(p, size, skipFull, |p|);
  }

  /** The arguments of `Move.from_swap`. */
  datatype Swap = Swap(binFirst: int, itemFirst: int, binSecond: int, itemSecond: int)

  /** The net change `fits` must accept in both bins. */
  predicate SwapFits(size: int, first: seq<int>, second: seq<int>, itemFirst: int, itemSecond: int)
  {
    && itemFirst != itemSecond
    && FitsValue(size, second, itemFirst - itemSecond)
    && FitsValue(size, first, itemSecond - itemFirst)
  }

  /** The innermost loop of `possible_swaps`: the first `k` items of bin `b2`
      against item `i1` of bin `b1`. */
  function SwapsWithItems(p: Packing, size: int, b1: int, i1: int, b2: int, k: nat): seq<Swap>
    requires 0 <= b1 < |p| && 0 <= b2 < |p| && k <= |p[b2]|
  {
    if k == 0 then []
    else
      SwapsWithItems(p, size, b1, i1, b2, k - 1)
      + (if SwapFits(size, p[b1], p[b2], i1, p[b2][k - 1]) then [Swap(b1, i1, b2, p[b2][k - 1])] else [])
  }

  /** The loop over the first `n` second bins: only those after `b1`, and
      only non-full ones when asked to. */
  function SwapsWithBins(p: Packing, size: int, skipFull: bool, b1: int, i1: int, n: nat): seq<Swap>
    requires 0 <= b1 < |p| && n <= |p|
  {
    if n == 0 then []
    else
      SwapsWithBins(p, size, skipFull, b1, i1, n - 1)
      + (if b1 < n - 1 && !(skipFull && Full(size, p[n - 1]))
         then SwapsWithItems(p, size, b1, i1, n - 1, |p[n - 1]|) else [])
  }

  /** The loop over the first `k` items of bin `b1`. */
  function SwapsOfItems(p: Packing, size: int, skipFull: bool, b1: int, k: nat): seq<Swap>
    requires 0 <= b1 < |p| && k <= |p[b1]|
  {
    if k == 0 then []
    else SwapsOfItems(p, size, skipFull, b1, k - 1) + SwapsWithBins(p, size, skipFull, b1, p[b1][k - 1], |p|)
  }

  /** The outer loop over the first `n` first bins. */
  function SwapsFrom(p: Packing, size: int, skipFull: bool, n: nat): seq<Swap>
    requires n <= |p|
  {
    if n == 0 then []
    else
      SwapsFrom(p, size, skipFull, n - 1)
      + (if skipFull && Full(size, p[n - 1]) then [] else SwapsOfItems(p, size, skipFull, n - 1, |p[n - 1]|))
  }

  /** The swaps `possible_swaps` returns, in its order. */
  function SwapCandidates(p: Packing, size: int, skipFull: bool): seq<Swap>
  {
    SwapsFrom(p, size, skipFull, |p|)
  }

  /** What `possible_swaps` admits: two different items of two bins (the
      first with the lower index, neither full if asked) whose exchange
      both bins can take. */
  ghost predicate FeasibleSwap(p: Packing, size: int, skipFull: bool, s: Swap)
  {
    && 0 <= s.binFirst < s.binSecond < |p|
    && !(skipFull && Full(size, p[s.binFirst]))
    && !(skipFull && Full(size, p[s.binSecond]))
    && s.itemFirst in p[s.binFirst] && s.itemSecond in p[s.binSecond]
    && SwapFits(size, p[s.binFirst], p[s.binSecond], s.itemFirst, s.itemSecond)
  }

  lemma {:induction false} SwapsWithItemsMembers(p: Packing, size: int, b1: int, i1: int, b2: int, k: nat)
    requires 0 <= b1 < |p| && 0 <= b2 < |p| && k <= |p[b2]|
    ensures forall s :: s in SwapsWithItems(p, size, b1, i1, b2, k) <==>
      s.binFirst == b1 && s.itemFirst == i1 && s.binSecond == b2 && s.itemSecond in p[b2][..k]
      && SwapFits(size, p[b1], p[b2], i1, s.itemSecond)
  {
    if k > 0 {
      SwapsWithItemsMembers(p, size, b1, i1, b2, k - 1);
      assert p[b2][..k] == p[b2][..k - 1] + [p[b2][k - 1]];
    }
  }

  lemma {:induction false} SwapsWithBinsMembers(p: Packing, size: int, skipFull: bool, b1: int, i1: int, n: nat)
    requires 0 <= b1 < |p| && n <= |p|
    ensures forall s :: s in SwapsWithBins(p, size, skipFull, b1, i1, n) <==>
      s.binFirst == b1 && s.itemFirst == i1 && b1 < s.binSecond < n
      && !(skipFull && Full(size, p[s.binSecond])) && s.itemSecond in p[s.binSecond]
      && SwapFits(size, p[b1], p[s.binSecond], i1, s.itemSecond)
  {
    if n > 0 {
      SwapsWithBinsMembers(p, size, skipFull, b1, i1, n - 1);
      var prev := SwapsWithBins(p, size, skipFull, b1, i1, n - 1);
      if b1 < n - 1 && !(skipFull && Full(size, p[n - 1])) {
        SwapsWithItemsMembers(p, size, b1, i1, n - 1, |p[n - 1]|);
        assert p[n - 1][..|p[n - 1]|] == p[n - 1];
        assert SwapsWithBins(p, size, skipFull, b1, i1, n) == prev + SwapsWithItems(p, size, b1, i1, n - 1, |p[n - 1]|);
      } else {
        assert SwapsWithBins(p, size, skipFull, b1, i1, n) == prev + [];
      }
    }
  }

  lemma {:induction false} SwapsOfItemsMembers(p: Packing, size: int, skipFull: bool, b1: int, k: nat)
    requires 0 <= b1 < |p| && k <= |p[b1]|
    ensures forall s :: s in SwapsOfItems(p, size, skipFull, b1, k) <==>
      s.binFirst == b1 && s.itemFirst in p[b1][..k] && b1 < s.binSecond < |p|
      && !(skipFull && Full(size, p[s.binSecond])) && s.itemSecond in p[s.binSecond]
      && SwapFits(size, p[b1], p[s.binSecond], s.itemFirst, s.itemSecond)
  {
    if k > 0 {
      SwapsOfItemsMembers(p, size, skipFull, b1, k - 1);
      SwapsWithBinsMembers(p, size, skipFull, b1, p[b1][k - 1], |p|);
      assert p[b1][..k] == p[b1][..k - 1] + [p[b1][k - 1]];
    }
  }

  lemma {:induction false} SwapsFromMembers(p: Packing, size: int, skipFull: bool, n: nat)
    requires n <= |p|
    ensures forall s :: s in SwapsFrom(p, size, skipFull, n) <==>
      FeasibleSwap(p, size, skipFull, s) && s.binFirst < n
  {
    if n > 0 {
      SwapsFromMembers(p, size, skipFull, n - 1);
      SwapsOfItemsMembers(p, size, skipFull, n - 1, |p[n - 1]|);
      assert p[n - 1][..|p[n - 1]|] == p[n - 1];
    }
  }

  /** `possible_swaps` lists exactly the feasible swaps. */
  lemma SwapCandidatesExact(p: Packing, size: int, skipFull: bool, s: Swap)
    ensures s in SwapCandidates(p, size, skipFull) <==> FeasibleSwap(p, size, skipFull, s)
  {
    SwapsFromMembers(p, size, skipFull, |p|);
  }

  /* ---------------------------------------------------------------------
     possible_moves
     --------------------------------------------------------------------- */

  /** The moves built from a list of transfers, in order. */
  function TransferMoves(ts: seq<Transfer>): seq<Move>
  {
    seq(|ts|, j requires 0 <= j < |ts| => FromTransfer(ts[j].binFrom, ts[j].item, ts[j].binTo))
  }

  /** The moves built from a list of swaps, in order. */
  function SwapMoves(ss: seq<Swap>): seq<Move>
  {
    seq(|ss|, j requires 0 <= j < |ss| =>
      FromSwap(ss[j].binFirst, ss[j].itemFirst, ss[j].binSecond, ss[j].itemSecond))
  }

  /** `possible_moves`: the transfers, then the swaps. */
  function MoveCandidates(p: Packing, size: int, skipFull: bool): seq<Move>
  {
    TransferMoves(TransferCandidates(p, size, skipFull)) + SwapMoves(SwapCandidates(p, size, skipFull))
  }

  /** The `j`-th move of `possible_moves` is the `j`-th transfer or, past
      the transfers, a swap. */
  lemma CandidateAt(p: Packing, size: int, skipFull: bool, m: Move) returns (j: int)
    requires m in MoveCandidates(p, size, skipFull)
    ensures 0 <= j < |MoveCandidates(p, size, skipFull)|
    ensures var ts := TransferCandidates(p, size, skipFull);
      j < |ts| ==> m == TransferMoves(ts)[j]
    ensures var ts := TransferCandidates(p, size, skipFull);
      j >= |ts| ==> m == SwapMoves(SwapCandidates(p, size, skipFull))[j - |ts|]
  {
    var a := TransferMoves(TransferCandidates(p, size, skipFull));
    var b := SwapMoves(SwapCandidates(p, size, skipFull));
    assert MoveCandidates(p, size, skipFull) == a + b;
    j :| 0 <= j < |a + b| && (a + b)[j] == m;
    if j < |a| {
      assert (a + b)[j] == a[j];
    } else {
      assert (a + b)[j] == b[j - |a|];
    }
  }

  /** The `j`-th transfer candidate, as a move. */
  lemma TransferCandidateMove(p: Packing, size: int, skipFull: bool, j: int) returns (t: Transfer)
    requires 0 <= j < |TransferCandidates(p, size, skipFull)|
    ensures FeasibleTransfer(p, size, skipFull, t)
    ensures TransferMoves(TransferCandidates(p, size, skipFull))[j] == FromTransfer(t.binFrom, t.item, t.binTo)
  {
    t := TransferCandidates(p, size, skipFull)[j];
    TransferCandidatesExact(p, size, skipFull, t);
  }

  /** The `j`-th swap candidate, as a move. */
  lemma SwapCandidateMove(p: Packing, size: int, skipFull: bool, j: int) returns (sw: Swap)
    requires 0 <= j < |SwapCandidates(p, size, skipFull)|
    ensures FeasibleSwap(p, size, skipFull, sw)
    ensures SwapMoves(SwapCandidates(p, size, skipFull))[j]
         == FromSwap(sw.binFirst, sw.itemFirst, sw.binSecond, sw.itemSecond)
  {
    sw := SwapCandidates(p, size, skipFull)[j];
    SwapCandidatesExact(p, size, skipFull, sw);
  }

  /** Every candidate move can be evaluated by `delta_fitness_from_move`. */
  lemma CandidateEvaluable(p: Packing, size: int, skipFull: bool, m: Move)
    requires m in MoveCandidates(p, size, skipFull)
    ensures DeltaFitness(p, m).Some?
  {
    var ts := TransferCandidates(p, size, skipFull);
    var j := CandidateAt(p, size, skipFull, m);
    if j < |ts| {
      var t := TransferCandidateMove(p, size, skipFull, j);
      assert m.transfers == {t};
    } else {
      var sw := SwapCandidateMove(p, size, skipFull, j - |ts|);
      assert m.transfers == {Transfer(sw.binFirst, sw.itemFirst, sw.binSecond), Transfer(sw.binSecond, sw.itemSecond, sw.binFirst)};
    }
  }

  /** What `do_move` of any move `possible_moves` offers leaves behind: it
      succeeds, loses no item, leaves no empty bin and no bin over capacity,
      and changes the fitness by exactly `delta_fitness_from_move`. */
  lemma CandidateStep(p: Packing, size: int, skipFull: bool, m: Move, q: Packing, ok: bool)
    requires AllPositive(p)
    requires m in MoveCandidates(p, size, skipFull)
    requires DoMoveStep(p, m, q, ok)
    ensures ok
    ensures DeltaFitness(p, m) == Some(Fitness(q) - Fitness(p))
    ensures multiset(Flatten(q)) == multiset(Flatten(p)) && AllPositive(q)
    ensures forall k :: 0 <= k < |q| ==> Sum(q[k]) != 0
    ensures WithinCapacity(p, size) ==> WithinCapacity(q, size)
  {
    var j := CandidateAt(p, size, skipFull, m);
    if j < |TransferCandidates(p, size, skipFull)| {
      TransferCandidateStep(p, size, skipFull, j, m, q, ok);
    } else {
      SwapCandidateStep(p, size, skipFull, j - |TransferCandidates(p, size, skipFull)|, m, q, ok);
    }
  }

  lemma TransferCandidateStep(p: Packing, size: int, skipFull: bool, j: int, m: Move, q: Packing, ok: bool)
    requires AllPositive(p)
    requires 0 <= j < |TransferCandidates(p, size, skipFull)|
    requires m == TransferMoves(TransferCandidates(p, size, skipFull))[j]
    requires DoMoveStep(p, m, q, ok)
    ensures ok
    ensures DeltaFitness(p, m) == Some(Fitness(q) - Fitness(p))
    ensures multiset(Flatten(q)) == multiset(Flatten(p)) && AllPositive(q)
    ensures forall k :: 0 <= k < |q| ==> Sum(q[k]) != 0
    ensures WithinCapacity(p, size) ==> WithinCapacity(q, size)
  {
    var t := TransferCandidateMove(p, size, skipFull, j);
    TransferStep(p, size, t.binFrom, t.item, t.binTo, m, q, ok);
  }

  lemma SwapCandidateStep(p: Packing, size: int, skipFull: bool, j: int, m: Move, q: Packing, ok: bool)
    requires AllPositive(p)
    requires 0 <= j < |SwapCandidates(p, size, skipFull)|
    requires m == SwapMoves(SwapCandidates(p, size, skipFull))[j]
    requires DoMoveStep(p, m, q, ok)
    ensures ok
    ensures DeltaFitness(p, m) == Some(Fitness(q) - Fitness(p))
    ensures multiset(Flatten(q)) == multiset(Flatten(p)) && AllPositive(q)
    ensures forall k :: 0 <= k < |q| ==> Sum(q[k]) != 0
    ensures WithinCapacity(p, size) ==> WithinCapacity(q, size)
  {
    var sw := SwapCandidateMove(p, size, skipFull, j);
    SwapStep(p, size, sw.binFirst, sw.itemFirst, sw.binSecond, sw.itemSecond, m, q, ok);
  }

  /* ---------------------------------------------------------------------
     shake and improve
     --------------------------------------------------------------------- */

  /** The list comprehension of `shake`: the moves not in `forbidden`, in
      their order. */
  function Allowed(ms: seq<Move>, forbidden: set<Move>): (r: seq<Move>)
    ensures forall m :: m in r <==> m in ms && m !in forbidden
    ensures |r| <= |ms|
  {
    if ms == [] then []
    else
      var last := ms[|ms| - 1];
      assert ms == ms[..|ms| - 1] + [last];
      Allowed(ms[..|ms| - 1], forbidden) + (if last in forbidden then [] else [last])
  }

  /** `moves_applied_reversed` after the moves `applied`. */
  function ReversedSet(applied: seq<Move>): set<Move>
  {
    set j | 0 <= j < |applied| :: Reversed(applied[j])
  }

  /** One run of `shake` as a trace: `states[j]` is the solution before the
      `j`-th move; each move is the one the caller's number picks among the
      candidates that do not undo an earlier move, and `do_move` takes each
      state to the next. */
  ghost predicate ShakeTrace(p0: Packing, size: int, choices: seq<nat>, applied: seq<Move>, states: seq<Packing>)
  {
    && |states| == |applied| + 1 && |applied| <= |choices|
    && states[0] == p0
    && forall j :: 0 <= j < |applied| ==>
      && Picked(states[j], size, choices[j], ReversedSet(applied[..j]), applied[j])
      && DoMoveStep(states[j], applied[j], states[j + 1], true)
  }

  /** `random.choice` over the allowed candidates of `p`, driven by the
      caller's number `choice`. */
  ghost predicate Picked(p: Packing, size: int, choice: nat, forbidden: set<Move>, m: Move)
  {
    var allowed := Allowed(MoveCandidates(p, size, false), forbidden);
    |allowed| > 0 && m == allowed[choice % |allowed|]
  }

  /** A shake never applies a move that undoes one it applied before, and
      every move it applies was offered by `possible_moves` at that point. */
  lemma ShakeNeverUndoes(p0: Packing, size: int, choices: seq<nat>, applied: seq<Move>, states: seq<Packing>)
    requires ShakeTrace(p0, size, choices, applied, states)
    ensures forall j, l :: 0 <= l < j < |applied| ==> applied[j] != Reversed(applied[l])
    ensures forall j :: 0 <= j < |applied| ==> applied[j] in MoveCandidates(states[j], size, false)
  {
    forall j, l | 0 <= l < j < |applied| ensures applied[j] != Reversed(applied[l]) {
      assert Picked(states[j], size, choices[j], ReversedSet(applied[..j]), applied[j]);
      assert applied[..j][l] == applied[l];
      assert Reversed(applied[l]) in ReversedSet(applied[..j]);
    }
    forall j | 0 <= j < |applied| ensures applied[j] in MoveCandidates(states[j], size, false) {
      assert Picked(states[j], size, choices[j], ReversedSet(applied[..j]), applied[j]);
    }
  }

  /** Where `shake` stands: the trace so far, the contents `c` it reached,
      its `moves_applied_reversed`, and the items and capacity kept. */
  ghost predicate ShakeState(p0: Packing, size: int, choices: seq<nat>, applied: seq<Move>, states: seq<Packing>,
                             forbidden: set<Move>, c: Packing)
  {
    && ShakeTrace(p0, size, choices, applied, states)
    && states[|applied|] == c
    && forbidden == ReversedSet(applied)
    && multiset(Flatten(c)) == multiset(Flatten(p0))
    && (WithinCapacity(p0, size) ==> WithinCapacity(c, size))
  }

  /** A further picked-and-applied move that keeps the items and the
      capacity extends the state of `shake`. */
  lemma ShakeStateSnoc(p0: Packing, size: int, choices: seq<nat>, applied: seq<Move>, states: seq<Packing>,
                       forbidden: set<Move>, c: Packing, m: Move, q: Packing)
    requires ShakeState(p0, size, choices, applied, states, forbidden, c) && |applied| < |choices|
    requires Picked(c, size, choices[|applied|], forbidden, m)
    requires DoMoveStep(c, m, q, true)
    requires multiset(Flatten(q)) == multiset(Flatten(c))
    requires WithinCapacity(c, size) ==> WithinCapacity(q, size)
    ensures ShakeState(p0, size, choices, applied + [m], states + [q], forbidden + {Reversed(m)}, q)
  {
    ShakeTraceSnoc(p0, size, choices, applied, states, m, q);
    ReversedSetSnoc(applied, m);
    assert (states + [q])[|applied + [m]|] == q;
  }

  /** The sum of squares of non-negative numbers is at most the square of
      their sum. */
  lemma SqOfSum(a: int, b: int)
    requires a >= 0 && b >= 0
    ensures Sq(a) + Sq(b) <= Sq(a + b)
  {
    assert (a + b) * (a + b) == a * a + 2 * (a * b) + b * b;
    assert a * b >= 0;
  }

  /** With positive items the fitness is bounded by the square of the total
      weight: what makes `improve` terminate. */
  lemma {:induction false} FitnessAtMostSquare(p: Packing)
    requires AllPositive(p)
    ensures 0 <= Fitness(p) <= Sq(Sum(Flatten(p)))
  {
    if p != [] {
      assert AllPositive(p[1..]) by {
        forall k | 0 <= k < |p[1..]| ensures Positive(p[1..][k]) { assert p[1..][k] == p[k + 1]; }
      }
      FitnessAtMostSquare(p[1..]);
      SumConcat(p[0], Flatten(p[1..]));
      if p[0] != [] {
        SumPositive(p[0]);
      }
      FlattenNonNegative(p[1..]);
      SqOfSum(Sum(p[0]), Sum(Flatten(p[1..])));
      assert Sq(Sum(p[0])) >= 0 by { SqNonNegative(Sum(p[0])); }
    }
  }

  lemma SqNonNegative(x: int)
    ensures Sq(x) >= 0
  {
    if x < 0 {
      assert x * x == (-x) * (-x);
    }
  }

  lemma {:induction false} FlattenNonNegative(p: Packing)
    requires AllPositive(p)
    ensures Sum(Flatten(p)) >= 0
  {
    if p != [] {
      assert AllPositive(p[1..]) by {
        forall k | 0 <= k < |p[1..]| ensures Positive(p[1..][k]) { assert p[1..][k] == p[k + 1]; }
      }
      FlattenNonNegative(p[1..]);
      SumConcat(p[0], Flatten(p[1..]));
      if p[0] != [] {
        SumPositive(p[0]);
      }
    }
  }

  /* ---------------------------------------------------------------------
     Facts the explorer's loops rely on
     --------------------------------------------------------------------- */

  lemma TransferMovesSnoc(ts: seq<Transfer>, t: Transfer)
    ensures TransferMoves(ts + [t]) == TransferMoves(ts) + [FromTransfer(t.binFrom, t.item, t.binTo)]
  {
    assert (ts + [t])[|ts|] == t;
  }

  lemma SwapMovesSnoc(ss: seq<Swap>, s: Swap)
    ensures SwapMoves(ss + [s]) == SwapMoves(ss) + [FromSwap(s.binFirst, s.itemFirst, s.binSecond, s.itemSecond)]
  {
    assert (ss + [s])[|ss|] == s;
  }

  /** Where the transfer loop of `do_move` stands: the transfers `order`
      are done, in that order and successfully, with contents `c`; the
      others, `remaining`, are still to do. */
  ghost predicate DoMoveProgress(p: Packing, s: set<Transfer>, order: seq<Transfer>, remaining: set<Transfer>, c: Packing)
  {
    && remaining <= s && |order| + |remaining| == |s|
    && (forall j :: 0 <= j < |order| ==> order[j] in s && order[j] !in remaining)
    && (forall j, l :: 0 <= j < l < |order| ==> order[j] != order[l])
    && (forall j :: 0 <= j < |order| ==> InRange(|p|, order[j]))
    && ApplyInOrder(p, order) == (c, true)
  }

  /** One more `move_item`: it either extends the progress or, when the item
      is missing, ends `do_move` with `ok == false`. */
  lemma DoMoveProgressStep(p: Packing, m: Move, order: seq<Transfer>, remaining: set<Transfer>, c: Packing,
                           t: Transfer, c1: Packing, ok: bool)
    requires forall u :: u in m.transfers ==> InRange(|p|, u)
    requires DoMoveProgress(p, m.transfers, order, remaining, c) && t in remaining && |c| == |p|
    requires InRange(|p|, t)
    requires ok <==> t.item in c[t.binFrom]
    requires c1 == if ok then MoveItemValue(c, t.binFrom, t.item, t.binTo) else c
    ensures |remaining - {t}| < |remaining|
    ensures ok ==> DoMoveProgress(p, m.transfers, order + [t], remaining - {t}, c1)
    ensures !ok ==> DoMoveStep(p, m, c1, false)
  {
    ApplyInOrderSnoc(p, order, t);
    var order1 := order + [t];
    var rest := remaining - {t};
    assert |rest| == |remaining| - 1;
    forall j | 0 <= j < |order1| ensures order1[j] in m.transfers && order1[j] !in rest {
      if j < |order| { assert order1[j] == order[j]; }
    }
    if !ok {
      var tail := Enumeration(rest);
      ApplyInOrderStops(p, order1, tail);
      EnumeratesConcat(order1, tail, m.transfers, rest);
      assert DoMoveResult(p, order1 + tail) == (c1, false);
    }
  }

  /** With no transfer left, `remove_empty_bins` completes `do_move`. */
  lemma DoMoveProgressDone(p: Packing, m: Move, order: seq<Transfer>, c: Packing)
    requires DoMoveProgress(p, m.transfers, order, {}, c)
    ensures DoMoveStep(p, m, RemoveEmpty(c), true)
  {
    assert Enumerates(order, m.transfers);
    assert DoMoveResult(p, order) == (RemoveEmpty(c), true);
  }

  /** An enumeration of the transfers done, followed by one of those not yet
      done, enumerates the whole move. */
  lemma EnumeratesConcat(a: seq<Transfer>, b: seq<Transfer>, s: set<Transfer>, rest: set<Transfer>)
    requires rest <= s && |a| + |rest| == |s|
    requires forall j :: 0 <= j < |a| ==> a[j] in s && a[j] !in rest
    requires forall j, l :: 0 <= j < l < |a| ==> a[j] != a[l]
    requires Enumerates(b, rest)
    ensures Enumerates(a + b, s)
  {
    var ab := a + b;
    forall j, l | 0 <= j < l < |ab| ensures ab[j] != ab[l] {
      if l < |a| {
      } else if j < |a| {
        assert ab[l] == b[l - |a|] && ab[l] in rest;
      } else {
        assert ab[j] == b[j - |a|] && ab[l] == b[l - |a|];
      }
    }
  }

  lemma TransferMovesConcat(a: seq<Transfer>, b: seq<Transfer>)
    ensures TransferMoves(a + b) == TransferMoves(a) + TransferMoves(b)
  {
    var l := TransferMoves(a + b);
    var r := TransferMoves(a) + TransferMoves(b);
    forall j | 0 <= j < |l| ensures l[j] == r[j] {
      if j < |a| { assert (a + b)[j] == a[j]; } else { assert (a + b)[j] == b[j - |a|]; }
    }
  }

  lemma SwapMovesConcat(a: seq<Swap>, b: seq<Swap>)
    ensures SwapMoves(a + b) == SwapMoves(a) + SwapMoves(b)
  {
    var l := SwapMoves(a + b);
    var r := SwapMoves(a) + SwapMoves(b);
    forall j | 0 <= j < |l| ensures l[j] == r[j] {
      if j < |a| { assert (a + b)[j] == a[j]; } else { assert (a + b)[j] == b[j - |a|]; }
    }
  }

  /** One more item in the loops over a bin's items. */
  lemma TransfersOfItemsStep(p: Packing, size: int, f: int, k: nat, ms: seq<Move>, more: seq<Move>)
    requires 0 <= f < |p| && k < |p[f]|
    requires ms == TransferMoves(TransfersOfItems(p, size, f, k))
    requires more == TransferMoves(TransfersTo(p, size, f, p[f][k], |p|))
    ensures ms + more == TransferMoves(TransfersOfItems(p, size, f, k + 1))
  {
    TransferMovesConcat(TransfersOfItems(p, size, f, k), TransfersTo(p, size, f, p[f][k], |p|));
  }

  lemma SwapsOfItemsStep(p: Packing, size: int, skipFull: bool, f: int, k: nat, ms: seq<Move>, more: seq<Move>)
    requires 0 <= f < |p| && k < |p[f]|
    requires ms == SwapMoves(SwapsOfItems(p, size, skipFull, f, k))
    requires more == SwapMoves(SwapsWithBins(p, size, skipFull, f, p[f][k], |p|))
    ensures ms + more == SwapMoves(SwapsOfItems(p, size, skipFull, f, k + 1))
  {
    SwapMovesConcat(SwapsOfItems(p, size, skipFull, f, k), SwapsWithBins(p, size, skipFull, f, p[f][k], |p|));
  }

  /** One more bin in the outer loops. */
  lemma TransfersFromStep(p: Packing, size: int, skipFull: bool, f: nat, ms: seq<Move>, more: seq<Move>)
    requires f < |p| && !(skipFull && Full(size, p[f]))
    requires ms == TransferMoves(TransfersFrom(p, size, skipFull, f))
    requires more == TransferMoves(TransfersOfItems(p, size, f, |p[f]|))
    ensures ms + more == TransferMoves(TransfersFrom(p, size, skipFull, f + 1))
  {
    TransferMovesConcat(TransfersFrom(p, size, skipFull, f), TransfersOfItems(p, size, f, |p[f]|));
  }

  lemma SwapsFromStep(p: Packing, size: int, skipFull: bool, f: nat, ms: seq<Move>, more: seq<Move>)
    requires f < |p| && !(skipFull && Full(size, p[f]))
    requires ms == SwapMoves(SwapsFrom(p, size, skipFull, f))
    requires more == SwapMoves(SwapsOfItems(p, size, skipFull, f, |p[f]|))
    ensures ms + more == SwapMoves(SwapsFrom(p, size, skipFull, f + 1))
  {
    SwapMovesConcat(SwapsFrom(p, size, skipFull, f), SwapsOfItems(p, size, skipFull, f, |p[f]|));
  }

  /** A full first bin that is skipped adds no swaps. */
  lemma SwapsFromSkip(p: Packing, size: int, skipFull: bool, f: nat)
    requires f < |p| && skipFull && Full(size, p[f])
    ensures SwapsFrom(p, size, skipFull, f + 1) == SwapsFrom(p, size, skipFull, f)
  {
    assert SwapsFrom(p, size, skipFull, f + 1) == SwapsFrom(p, size, skipFull, f) + [];
  }

  /** One more second bin for a first item. */
  lemma SwapsWithBinsStep(p: Packing, size: int, skipFull: bool, f: int, itemFirst: int, s: nat, ms: seq<Move>, more: seq<Move>)
    requires 0 <= f < s < |p| && !(skipFull && Full(size, p[s]))
    requires ms == SwapMoves(SwapsWithBins(p, size, skipFull, f, itemFirst, s))
    requires more == SwapMoves(SwapsWithItems(p, size, f, itemFirst, s, |p[s]|))
    ensures ms + more == SwapMoves(SwapsWithBins(p, size, skipFull, f, itemFirst, s + 1))
  {
    SwapMovesConcat(SwapsWithBins(p, size, skipFull, f, itemFirst, s), SwapsWithItems(p, size, f, itemFirst, s, |p[s]|));
  }

  /** The keys `improve` sorts its moves by. */
  function Deltas(p: Packing, moves: seq<Move>): (ds: seq<int>)
    requires forall m :: m in moves ==> DeltaFitness(p, m).Some?
    ensures |ds| == |moves|
    ensures forall j :: 0 <= j < |moves| ==> Some(ds[j]) == DeltaFitness(p, moves[j])
  {
    seq(|moves|, j requires 0 <= j < |moves| => DeltaFitness(p, moves[j]).value)
  }

  /** `moves.sort(key=..., reverse=True)[0]`: Python's sort is stable, also
      when reversed, so the move it puts first is the first one of largest
      key. */
  function FirstMax(ds: seq<int>): (b: nat)
    requires |ds| > 0
    ensures b < |ds|
    ensures forall j :: 0 <= j < |ds| ==> ds[j] <= ds[b]
    ensures forall j :: 0 <= j < b ==> ds[j] < ds[b]
  {
    if |ds| == 1 then 0
    else
      var b0 := FirstMax(ds[..|ds| - 1]);
      if ds[|ds| - 1] > ds[b0] then |ds| - 1 else b0
  }

  /** The index in `possible_moves(skip_full_bins=True)` of the move one pass
      of `improve` considers: the first of largest delta, which the stable
      descending sort puts at `moves[0]`; `None` when there is no candidate. */
  function BestIndex(p: Packing, size: int): (r: Option<nat>)
    ensures var ms := MoveCandidates(p, size, true);
      && (r.None? <==> |ms| == 0)
      && (r.Some? ==>
        && r.value < |ms|
        && DeltaFitness(p, ms[r.value]).Some?
        && (forall j :: 0 <= j < |ms| ==>
              DeltaFitness(p, ms[j]).Some? && DeltaFitness(p, ms[j]).value <= DeltaFitness(p, ms[r.value]).value)
        && (forall j :: 0 <= j < r.value ==>
              DeltaFitness(p, ms[j]).value < DeltaFitness(p, ms[r.value]).value))
  {
    var ms := MoveCandidates(p, size, true);
    CandidatesEvaluable(p, size, true);
    if |ms| == 0 then None
    else
      var ds := Deltas(p, ms);
      Some(FirstMax(ds))
  }

  /** `BestIndex` is the index the loop of `improve` computes. */
  lemma BestIndexIs(p: Packing, size: int, ms: seq<Move>, ds: seq<int>, b: nat)
    requires ms == MoveCandidates(p, size, true) && |ms| > 0
    requires forall m :: m in ms ==> DeltaFitness(p, m).Some?
    requires ds == Deltas(p, ms) && |ds| > 0 && b == FirstMax(ds)
    ensures BestIndex(p, size) == Some(b)
    ensures b < |ms| && DeltaFitness(p, ms[b]) == Some(ds[b])
  {
  }

  /** One pass of the loop of `improve` takes `p` to `q`: when the move at
      `BestIndex` has a positive delta it is applied by `do_move` and the
      pass reports an improvement; otherwise the loop breaks with `p`
      unchanged. */
  ghost predicate ImprovePass(p: Packing, size: int, q: Packing, improved: bool)
  {
    var r := BestIndex(p, size);
    var ms := MoveCandidates(p, size, true);
    if r.Some? && DeltaFitness(p, ms[r.value]).value > 0 then
      improved && DoMoveStep(p, ms[r.value], q, true)
    else
      !improved && q == p
  }

  /** A run of `improve` from `p0`: each state is the previous one after an
      improving pass. */
  ghost predicate ImproveTrace(p0: Packing, size: int, states: seq<Packing>)
  {
    && |states| > 0 && states[0] == p0
    && forall j :: 0 <= j < |states| - 1 ==> ImprovePass(states[j], size, states[j + 1], true)
  }

  lemma ImproveTraceSnoc(p0: Packing, size: int, states: seq<Packing>, q: Packing)
    requires ImproveTrace(p0, size, states)
    requires ImprovePass(states[|states| - 1], size, q, true)
    ensures ImproveTrace(p0, size, states + [q])
  {
    var s := states + [q];
    forall j | 0 <= j < |s| - 1 ensures ImprovePass(s[j], size, s[j + 1], true) {
      if j < |states| - 1 {
        assert s[j] == states[j] && s[j + 1] == states[j + 1];
      } else {
        assert s[j] == states[|states| - 1] && s[j + 1] == q;
      }
    }
  }

  /** What one pass of `improve` promises: it is the pass `ImprovePass`
      describes; when it improves, the fitness rises, the items stay and no
      bin within capacity overflows; when it does not, nothing changes and
      no candidate has a positive delta. */
  ghost predicate ImproveOutcome(p: Packing, size: int, q: Packing, improved: bool)
  {
    && ImprovePass(p, size, q, improved)
    && (improved ==>
      && Fitness(q) > Fitness(p)
      && multiset(Flatten(q)) == multiset(Flatten(p))
      && (WithinCapacity(p, size) ==> WithinCapacity(q, size)))
    && (!improved ==>
      && q == p
      && forall m :: m in MoveCandidates(p, size, true) ==>
        DeltaFitness(p, m).Some? && DeltaFitness(p, m).value <= 0)
  }

  /** The move one pass of `improve` applies: after the sort, the first of
      largest delta among `moves`, when that delta is positive; `None` when
      there are no moves or the best delta is not positive and the loop
      breaks. */
  function ImprovingMove(p: Packing, size: int, moves: seq<Move>): (r: Option<Move>)
    requires moves == MoveCandidates(p, size, true)
    ensures r.None? <==> ImprovePass(p, size, p, false)
    ensures r.None? ==> ImproveOutcome(p, size, p, false)
    ensures r.Some? ==>
      && BestIndex(p, size).Some? && r.value == moves[BestIndex(p, size).value]
      && DeltaFitness(p, r.value).Some? && DeltaFitness(p, r.value).value > 0
      && forall t :: t in r.value.transfers ==> InRange(|p|, t)
  {
    CandidatesEvaluable(p, size, true);
    if |moves| == 0 then None
    else
      var ds := Deltas(p, moves);
      var b := FirstMax(ds);
      BestIndexIs(p, size, moves, ds, b);
      if ds[b] > 0 then
        assert moves[b] in moves;
        Some(moves[b])
      else
        BestMoveNotImproving(p, size, moves, ds, b);
        None
  }

  /** Applying the move `ImprovingMove` picks is an improving pass: `do_move`
      succeeds, the fitness rises, the items stay and no bin within capacity
      overflows. */
  lemma ImprovingMoveApplied(p: Packing, size: int, moves: seq<Move>, q: Packing, ok: bool)
    requires AllPositive(p) && moves == MoveCandidates(p, size, true)
    requires ImprovingMove(p, size, moves).Some?
    requires DoMoveStep(p, ImprovingMove(p, size, moves).value, q, ok)
    ensures ok && ImproveOutcome(p, size, q, true) && AllPositive(q)
  {
    var m := ImprovingMove(p, size, moves).value;
    assert m in moves;
    CandidateStep(p, size, true, m, q, ok);
  }

  /** The branch where `improve` breaks: the first move of largest delta has
      none above zero, so no candidate has. */
  lemma BestMoveNotImproving(p: Packing, size: int, ms: seq<Move>, ds: seq<int>, b: nat)
    requires ms == MoveCandidates(p, size, true) && |ms| > 0
    requires forall m :: m in ms ==> DeltaFitness(p, m).Some?
    requires ds == Deltas(p, ms) && |ds| > 0 && b == FirstMax(ds) && ds[b] <= 0
    ensures ImproveOutcome(p, size, p, false)
  {
    BestIndexIs(p, size, ms, ds, b);
    forall m | m in ms ensures DeltaFitness(p, m).Some? && DeltaFitness(p, m).value <= 0 {
      var j :| 0 <= j < |ms| && ms[j] == m;
      assert Some(ds[j]) == DeltaFitness(p, ms[j]);
    }
  }

  /** Where `improve` stands: the run so far ends in `c`, which holds the
      items of `p0`, keeps its capacity, and whose fitness lies between that
      of `p0` and the bound `Sq(w)` on the total weight `w`. */
  ghost predicate ImproveState(p0: Packing, size: int, w: int, states: seq<Packing>, c: Packing)
  {
    && ImproveTrace(p0, size, states) && states[|states| - 1] == c
    && multiset(Flatten(c)) == multiset(Flatten(p0))
    && (WithinCapacity(p0, size) ==> WithinCapacity(c, size))
    && Fitness(p0) <= Fitness(c) <= Sq(w)
  }

  /** An improving pass that keeps the items, the positivity and the
      capacity extends the state of `improve`. */
  lemma ImproveStateSnoc(p0: Packing, size: int, w: int, states: seq<Packing>, c: Packing, q: Packing)
    requires ImproveState(p0, size, w, states, c) && w == Sum(Flatten(p0))
    requires AllPositive(c) && AllPositive(q)
    requires ImprovePass(c, size, q, true)
    requires multiset(Flatten(q)) == multiset(Flatten(c))
    requires WithinCapacity(c, size) ==> WithinCapacity(q, size)
    ensures ImproveState(p0, size, w, states + [q], q)
  {
    ImproveTraceSnoc(p0, size, states, q);
    ImprovePassFitness(c, size, q, true);
    FitnessAtMostSquare(q);
    SumPermutation(Flatten(q), Flatten(p0));
    assert (states + [q])[|states + [q]| - 1] == q;
  }

  /** A pass that improves raises the fitness by exactly the chosen move's
      positive delta, and one that does not leaves no candidate with a
      positive delta: the end of `improve` is a local optimum. */
  lemma ImprovePassFitness(p: Packing, size: int, q: Packing, improved: bool)
    requires AllPositive(p)
    requires ImprovePass(p, size, q, improved)
    ensures improved ==> Fitness(q) > Fitness(p)
    ensures !improved ==> forall m :: m in MoveCandidates(p, size, true) ==>
      DeltaFitness(p, m).Some? && DeltaFitness(p, m).value <= 0
  {
    var r := BestIndex(p, size);
    var ms := MoveCandidates(p, size, true);
    if improved {
      var m := ms[r.value];
      CandidateStep(p, size, true, m, q, true);
    } else {
      forall m | m in ms ensures DeltaFitness(p, m).Some? && DeltaFitness(p, m).value <= 0 {
        var j :| 0 <= j < |ms| && ms[j] == m;
        assert DeltaFitness(p, ms[j]).Some?;
      }
    }
  }

  /** Every candidate of `possible_moves` can be evaluated, and names only
      bins that exist. */
  lemma CandidatesEvaluable(p: Packing, size: int, skipFull: bool)
    ensures forall m :: m in MoveCandidates(p, size, skipFull) ==>
      DeltaFitness(p, m).Some? && forall t :: t in m.transfers ==> InRange(|p|, t)
  {
    forall m | m in MoveCandidates(p, size, skipFull)
      ensures DeltaFitness(p, m).Some? && forall t :: t in m.transfers ==> InRange(|p|, t)
    {
      CandidateEvaluable(p, size, skipFull, m);
      CandidateInRange(p, size, skipFull, m);
    }
  }

  lemma CandidateInRange(p: Packing, size: int, skipFull: bool, m: Move)
    requires m in MoveCandidates(p, size, skipFull)
    ensures forall t :: t in m.transfers ==> InRange(|p|, t)
  {
    var ts := TransferCandidates(p, size, skipFull);
    var j := CandidateAt(p, size, skipFull, m);
    if j < |ts| {
      var t := TransferCandidateMove(p, size, skipFull, j);
      assert m.transfers == {t};
    } else {
      var sw := SwapCandidateMove(p, size, skipFull, j - |ts|);
      assert m.transfers == {Transfer(sw.binFirst, sw.itemFirst, sw.binSecond), Transfer(sw.binSecond, sw.itemSecond, sw.binFirst)};
    }
  }

  lemma ReversedSetSnoc(applied: seq<Move>, m: Move)
    ensures ReversedSet(applied + [m]) == ReversedSet(applied) + {Reversed(m)}
  {
    var a := applied + [m];
    assert a[|applied|] == m;
    forall j | 0 <= j < |applied| ensures a[j] == applied[j] { }
  }

  /** A further picked-and-applied move extends a shake trace. */
  lemma ShakeTraceSnoc(p0: Packing, size: int, choices: seq<nat>, applied: seq<Move>, states: seq<Packing>, m: Move, q: Packing)
    requires ShakeTrace(p0, size, choices, applied, states)
    requires |applied| < |choices|
    requires Picked(states[|applied|], size, choices[|applied|], ReversedSet(applied), m)
    requires DoMoveStep(states[|applied|], m, q, true)
    ensures ShakeTrace(p0, size, choices, applied + [m], states + [q])
  {
    var a := applied + [m];
    var s := states + [q];
    assert a[..|applied|] == applied;
    forall j | 0 <= j < |a|
      ensures Picked(s[j], size, choices[j], ReversedSet(a[..j]), a[j])
      ensures DoMoveStep(s[j], a[j], s[j + 1], true)
    {
      if j < |applied| {
        assert a[..j] == applied[..j];
        assert Picked(states[j], size, choices[j], ReversedSet(applied[..j]), applied[j]);
        assert DoMoveStep(states[j], applied[j], states[j + 1], true);
      }
    }
  }
}
