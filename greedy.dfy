/** The greedy constructors on values: how Null (Worst), Next-Fit and
    First-Fit extend a packing item by item, and what each one guarantees.

    The same three placement rules appear in `approximation.py`,
    `aproximation.py` and the older `main.py`; they differ only in how a new
    bin is opened, which `NewBinRule` selects. */
module Greedy {
  import opened Bpp

  /** Where an item goes. */
  datatype Rule = Null | NextFit | FirstFit

  /** How `pack_in_new_bin` opens a bin: `bpp.py` reuses an empty last bin,
      `main.py` always appends a new one. */
  datatype NewBinRule = ReuseEmptyLast | AlwaysAppend

  /** `pack_in_new_bin` on values, for either version. */
  function NewBin(nb: NewBinRule, p: Packing, w: int): (r: Packing)
    requires |p| > 0
    ensures |r| >= |p|
  {
    match nb
    case ReuseEmptyLast => PackInNewBinValue(p, w)
    case AlwaysAppend => p + [[w]]
  }

  /** The index of the first bin `w` fits in, or `|p|` when none does. */
  function FirstFitIndex(size: int, p: Packing, w: int): (k: nat)
    ensures k <= |p|
    ensures k < |p| ==> FitsValue(size, p[k], w)
    ensures forall j :: 0 <= j < k ==> !FitsValue(size, p[j], w)
  {
    if p == [] then 0
    else if FitsValue(size, p[0], w) then 0
    else 1 + FirstFitIndex(size, p[1..], w)
  }

  /** One iteration of a `solve` loop: place weight `w`. */
  function Step(rule: Rule, nb: NewBinRule, size: int, p: Packing, w: int): (r: Packing)
    requires |p| > 0
    ensures |r| >= |p|
  {
    match rule
    case Null => NewBin(nb, p, w)
    case NextFit =>
      var last := |p| - 1;
      if FitsValue(size, p[last], w) then p[last := p[last] + [w]] else NewBin(nb, p, w)
    case FirstFit =>
      var k := FirstFitIndex(size, p, w);
      if k < |p| then p[k := p[k] + [w]] else NewBin(nb, p, w)
  }

  /** The packing a `solve` loop leaves after placing `items` in order,
      starting from `p`. */
  function Pack(rule: Rule, nb: NewBinRule, size: int, p: Packing, items: seq<int>): (r: Packing)
    requires |p| > 0
    ensures |r| >= |p|
    decreases |items|
  {
    if items == [] then p
    else Step(rule, nb, size, Pack(rule, nb, size, p, items[..|items| - 1]), items[|items| - 1])
  }

  /** The length of the longest all-positive prefix: where `Bin.append`
      raises and the loop stops. */
  function PositivePrefix(items: seq<int>): (k: nat)
    ensures k <= |items|
    ensures forall i :: 0 <= i < k ==> items[i] > 0
    ensures k < |items| ==> items[k] <= 0
  {
    if items == [] then 0
    else if items[0] <= 0 then 0
    else 1 + PositivePrefix(items[1..])
  }

  /** A loop at index `i` inside the positive prefix either places
      `items[i]` and stays inside it, or has reached its end. */
  lemma PositivePrefixAt(items: seq<int>, i: int)
    requires 0 <= i < |items| && i <= PositivePrefix(items)
    ensures items[i] > 0 ==> i < PositivePrefix(items)
    ensures items[i] <= 0 ==> i == PositivePrefix(items)
  {
  }

  /* ---------------------------------------------------------------------
     Conservation
     --------------------------------------------------------------------- */

  lemma NewBinConserves(nb: NewBinRule, p: Packing, w: int)
    requires |p| > 0
    ensures multiset(Flatten(NewBin(nb, p, w))) == multiset(Flatten(p)) + multiset{w}
  {
    match nb
    case ReuseEmptyLast => PackInNewBinShape(p, w);
    case AlwaysAppend => FlattenAppendBin(p, [w]);
  }

  /** Every rule places the item exactly once and moves nothing else. */
  lemma StepConserves(rule: Rule, nb: NewBinRule, size: int, p: Packing, w: int)
    requires |p| > 0
    ensures multiset(Flatten(Step(rule, nb, size, p, w))) == multiset(Flatten(p)) + multiset{w}
  {
    var r := Step(rule, nb, size, p, w);
    var k := if rule == Null then |p|
             else if rule == NextFit then (if FitsValue(size, p[|p| - 1], w) then |p| - 1 else |p|)
             else FirstFitIndex(size, p, w);
    if k < |p| {
      assert r == p[k := p[k] + [w]];
      AppendToBin(p, k, w);
    } else {
      assert r == NewBin(nb, p, w);
      NewBinConserves(nb, p, w);
    }
  }

  /** A `solve` loop ends holding exactly the items it started with plus the
      instance's items, whatever their weights. */
  lemma {:induction false} PackConserves(rule: Rule, nb: NewBinRule, size: int, p: Packing, items: seq<int>)
    requires |p| > 0
    ensures multiset(Flatten(Pack(rule, nb, size, p, items))) == multiset(Flatten(p)) + multiset(items)
    decreases |items|
  {
    if items != [] {
      var init := items[..|items| - 1];
      var w := items[|items| - 1];
      var q := Pack(rule, nb, size, p, init);
      assert Pack(rule, nb, size, p, items) == Step(rule, nb, size, q, w);
      PackConserves(rule, nb, size, p, init);
      StepConserves(rule, nb, size, q, w);
      MultisetSplitLast(items);
    }
  }

  lemma MultisetSplitLast(s: seq<int>)
    requires s != []
    ensures multiset(s) == multiset(s[..|s| - 1]) + multiset{s[|s| - 1]}
  {
    assert s == s[..|s| - 1] + [s[|s| - 1]];
  }

  /* ---------------------------------------------------------------------
     Capacity
     --------------------------------------------------------------------- */

  lemma UpdateWithinCapacity(p: Packing, size: int, i: int, b: seq<int>)
    requires WithinCapacity(p, size) && 0 <= i < |p| && Sum(b) <= size
    ensures WithinCapacity(p[i := b], size)
  {
  }

  lemma NewBinWithinCapacity(nb: NewBinRule, size: int, p: Packing, w: int)
    requires |p| > 0 && WithinCapacity(p, size) && w <= size
    ensures WithinCapacity(NewBin(nb, p, w), size)
  {
    var last := |p| - 1;
    assert Sum([w]) == w;
    match nb
    case ReuseEmptyLast =>
      if Sum(p[last]) == 0 {
        SumAppend(p[last], w);
        UpdateWithinCapacity(p, size, last, p[last] + [w]);
      }
    case AlwaysAppend =>
  }

  lemma StepWithinCapacity(rule: Rule, nb: NewBinRule, size: int, p: Packing, w: int)
    requires |p| > 0 && WithinCapacity(p, size) && w <= size
    ensures WithinCapacity(Step(rule, nb, size, p, w), size)
  {
    match rule
    case Null => NewBinWithinCapacity(nb, size, p, w);
    case NextFit =>
      var last := |p| - 1;
      if FitsValue(size, p[last], w) {
        SumAppend(p[last], w);
        UpdateWithinCapacity(p, size, last, p[last] + [w]);
      } else {
        NewBinWithinCapacity(nb, size, p, w);
      }
    case FirstFit =>
      var k := FirstFitIndex(size, p, w);
      if k < |p| {
        SumAppend(p[k], w);
        UpdateWithinCapacity(p, size, k, p[k] + [w]);
      } else {
        NewBinWithinCapacity(nb, size, p, w);
      }
  }

  /** Next-Fit and First-Fit never overfill a bin when no single weight
      exceeds the capacity. Null keeps the bound as well: each bin holds one
      weight. */
  lemma {:induction false} PackWithinCapacity(rule: Rule, nb: NewBinRule, size: int, p: Packing, items: seq<int>)
    requires |p| > 0 && WithinCapacity(p, size)
    requires forall i :: 0 <= i < |items| ==> items[i] <= size
    ensures WithinCapacity(Pack(rule, nb, size, p, items), size)
    decreases |items|
  {
    if items != [] {
      var init := items[..|items| - 1];
      PackWithinCapacity(rule, nb, size, p, init);
      StepWithinCapacity(rule, nb, size, Pack(rule, nb, size, p, init), items[|items| - 1]);
    }
  }

  /** Started from the fresh solution `[[]]` and fed weights `0 <= w <= size`
      (the assumption the algorithms rely on), every rule, under either new-bin
      version, returns a packing of exactly the instance's items within
      capacity, so it uses at least `lower_bound` bins. */
  lemma PackIsValidPacking(rule: Rule, nb: NewBinRule, inst: Instance)
    requires inst.binSize > 0
    requires forall i :: 0 <= i < |inst.items| ==> inst.items[i] <= inst.binSize
    ensures multiset(Flatten(Pack(rule, nb, inst.binSize, [[]], inst.items))) == multiset(inst.items)
    ensures WithinCapacity(Pack(rule, nb, inst.binSize, [[]], inst.items), inst.binSize)
    ensures |Pack(rule, nb, inst.binSize, [[]], inst.items)| >= inst.LowerBound()
  {
    var r := Pack(rule, nb, inst.binSize, [[]], inst.items);
    PackConserves(rule, nb, inst.binSize, [[]], inst.items);
    assert Flatten([[]]) == [];
    assert WithinCapacity([[]], inst.binSize);
    PackWithinCapacity(rule, nb, inst.binSize, [[]], inst.items);
    LowerBoundIsLower(inst, r);
  }

  /* ---------------------------------------------------------------------
     Placement rules
     --------------------------------------------------------------------- */

  /** Null (Worst) on positive weights from the fresh solution: one bin per
      item, in item order, each holding exactly that item; the fresh empty
      bin is reused by the first item. */
  lemma {:induction false} NullOneBinPerItem(size: int, items: seq<int>)
    requires Positive(items) && items != []
    ensures |Pack(Null, ReuseEmptyLast, size, [[]], items)| == |items|
    ensures forall i :: 0 <= i < |items| ==> Pack(Null, ReuseEmptyLast, size, [[]], items)[i] == [items[i]]
    decreases |items|
  {
    var init := items[..|items| - 1];
    var w := items[|items| - 1];
    if init == [] {
      assert Pack(Null, ReuseEmptyLast, size, [[]], init) == [[]];
      assert Sum([]) == 0;
    } else {
      NullOneBinPerItem(size, init);
      var p := Pack(Null, ReuseEmptyLast, size, [[]], init);
      assert p[|p| - 1] == [init[|init| - 1]];
      assert Sum(p[|p| - 1]) == init[|init| - 1] + Sum([]);
    }
  }

  /** Next-Fit touches only the last bin. It opens a new bin only when the
      item does not fit the last one (and, in `bpp.py`, the last bin is not
      empty); otherwise the item joins the last bin. */
  lemma NextFitStepRule(nb: NewBinRule, size: int, p: Packing, w: int)
    requires |p| > 0
    ensures var r := Step(NextFit, nb, size, p, w);
      && r[..|p| - 1] == p[..|p| - 1]
      && (FitsValue(size, p[|p| - 1], w) ==> r == p[|p| - 1 := p[|p| - 1] + [w]])
      && (|r| > |p| <==> !FitsValue(size, p[|p| - 1], w) && (nb == AlwaysAppend || Sum(p[|p| - 1]) != 0))
      && (|r| > |p| ==> r == p + [[w]])
  {
    if !FitsValue(size, p[|p| - 1], w) && nb == ReuseEmptyLast {
      PackInNewBinShape(p, w);
    }
  }

  /** First-Fit puts the item in the lowest-index bin it fits in; only when
      no bin fits does it call `pack_in_new_bin`. */
  lemma FirstFitStepRule(nb: NewBinRule, size: int, p: Packing, w: int, j: int)
    requires |p| > 0 && 0 <= j < |p|
    requires FitsValue(size, p[j], w)
    requires forall l :: 0 <= l < j ==> !FitsValue(size, p[l], w)
    ensures Step(FirstFit, nb, size, p, w) == p[j := p[j] + [w]]
  {
    var k := FirstFitIndex(size, p, w);
    assert !(k < j) && !(j < k);
  }

  lemma FirstFitStepNoFit(nb: NewBinRule, size: int, p: Packing, w: int)
    requires |p| > 0
    requires forall l :: 0 <= l < |p| ==> !FitsValue(size, p[l], w)
    ensures Step(FirstFit, nb, size, p, w) == NewBin(nb, p, w)
  {
  }

  /** Placing one more item of the list is one more step. */
  lemma PackPrefixStep(rule: Rule, nb: NewBinRule, size: int, p: Packing, items: seq<int>, i: int)
    requires |p| > 0 && 0 <= i < |items|
    ensures Pack(rule, nb, size, p, items[..i + 1]) == Step(rule, nb, size, Pack(rule, nb, size, p, items[..i]), items[i])
  {
    assert items[..i + 1][..i] == items[..i];
  }
}
