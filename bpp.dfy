/** The bin-packing model: an instance, bins holding item weights and a
    solution that is an ordered list of bins.

    Weights and capacities are integers, so every comparison the program
    makes (in particular the exact equality behind "full") is exact. */
module Bpp {

  /* ---------------------------------------------------------------------
     Value-level vocabulary used by every other module
     --------------------------------------------------------------------- */

  /** A packing seen as values: the item list of every bin, in bin order. */
  type Packing = seq<seq<int>>

  /** Python's `sum` over a list of weights. */
  function Sum(s: seq<int>): int
  {
    if s == [] then 0 else s[0] + Sum(s[1..])
  }

  /** Every weight of the list is strictly positive. */
  ghost predicate Positive(s: seq<int>)
  {
    forall i :: 0 <= i < |s| ==> s[i] > 0
  }

  /** Every bin of the packing holds only strictly positive weights. */
  ghost predicate AllPositive(p: Packing)
  {
    forall i :: 0 <= i < |p| ==> Positive(p[i])
  }

  /** No bin of the packing holds more than `size`. */
  ghost predicate WithinCapacity(p: Packing, size: int)
  {
    forall i :: 0 <= i < |p| ==> Sum(p[i]) <= size
  }

  /** All the items of all the bins, bin after bin. */
  function Flatten(p: Packing): seq<int>
  {
    if p == [] then [] else p[0] + Flatten(p[1..])
  }

  /** `list.remove(x)`: drop the first occurrence of `x` (nothing if absent). */
  function RemoveFirst(s: seq<int>, x: int): (r: seq<int>)
    ensures x in s ==> multiset(r) + multiset{x} == multiset(s) && |r| == |s| - 1
    ensures x !in s ==> r == s
  {
    if s == [] then []
    else if s[0] == x then
      assert s == [s[0]] + s[1..];
      s[1..]
    else
      assert s == [s[0]] + s[1..];
      [s[0]] + RemoveFirst(s[1..], x)
  }

  /** `Bin.fits`: the weight (possibly a negative net change) is at most the gap. */
  predicate FitsValue(size: int, bin: seq<int>, w: int)
  {
    w <= size - Sum(bin)
  }

  /** The bins whose content is not zero, in their original order. */
  function RemoveEmpty(p: Packing): (r: Packing)
    ensures |r| <= |p|
  {
    if p == [] then []
    else if Sum(p[0]) == 0 then RemoveEmpty(p[1..])
    else [p[0]] + RemoveEmpty(p[1..])
  }

  /** The effect of `move_item` on the item lists: first occurrence of `item`
      leaves bin `from`, then `item` is appended to bin `to`. */
  function MoveItemValue(p: Packing, from: int, item: int, to: int): (r: Packing)
    requires 0 <= from < |p| && 0 <= to < |p|
  {
    var p1 := p[from := RemoveFirst(p[from], item)];
    p1[to := p1[to] + [item]]
  }

  /* ---------------------------------------------------------------------
     Lemmas about sums and flattening
     --------------------------------------------------------------------- */

  lemma {:induction false} SumConcat(a: seq<int>, b: seq<int>)
    ensures Sum(a + b) == Sum(a) + Sum(b)
  {
    if a == [] {
      assert a + b == b;
    } else {
      assert (a + b)[1..] == a[1..] + b;
      SumConcat(a[1..], b);
    }
  }

  lemma SumAppend(a: seq<int>, x: int)
    ensures Sum(a + [x]) == Sum(a) + x
  {
    SumConcat(a, [x]);
  }

  lemma {:induction false} SumRemoveFirst(s: seq<int>, x: int)
    requires x in s
    ensures Sum(RemoveFirst(s, x)) == Sum(s) - x
  {
    if s[0] != x {
      SumRemoveFirst(s[1..], x);
      assert Sum([s[0]] + RemoveFirst(s[1..], x)) == s[0] + Sum(RemoveFirst(s[1..], x)) by {
        SumConcat([s[0]], RemoveFirst(s[1..], x));
      }
    }
  }

  /** A sum does not depend on the order of the weights. */
  lemma {:induction false} SumPermutation(a: seq<int>, b: seq<int>)
    requires multiset(a) == multiset(b)
    ensures Sum(a) == Sum(b)
  {
    if a != [] {
      var x := a[0];
      assert x in multiset(b);
      assert a == [x] + a[1..];
      assert multiset(a[1..]) == multiset(a) - multiset{x};
      SumPermutation(a[1..], RemoveFirst(b, x));
      SumRemoveFirst(b, x);
    } else {
      assert |b| == |multiset(b)| == 0;
    }
  }

  lemma {:induction false} SumPositive(s: seq<int>)
    requires Positive(s) && s != []
    ensures Sum(s) > 0
  {
    if s[1..] != [] {
      SumPositive(s[1..]);
    }
  }

  lemma SumEmptyIff(s: seq<int>)
    ensures Positive(s) ==> (Sum(s) == 0 <==> s == [])
  {
    if s != [] && Positive(s) { SumPositive(s); }
  }

  lemma PositiveRemoveFirst(s: seq<int>, x: int)
    requires Positive(s)
    ensures Positive(RemoveFirst(s, x))
  {
    var r := RemoveFirst(s, x);
    forall k | 0 <= k < |r| ensures r[k] > 0 {
      if x in s {
        assert r[k] in multiset(r) + multiset{x};
      }
      assert r[k] in multiset(s);
    }
  }

  lemma MultisetCancel(a: multiset<int>, b: multiset<int>, c: multiset<int>)
    requires a + c == b + c || c + a == c + b
    ensures a == b
  {
    forall x ensures a[x] == b[x] {
      assert (a + c)[x] == (b + c)[x] || (c + a)[x] == (c + b)[x];
    }
  }

  lemma {:induction false} FlattenConcat(p: Packing, q: Packing)
    ensures Flatten(p + q) == Flatten(p) + Flatten(q)
  {
    if p == [] {
      assert p + q == q;
    } else {
      assert (p + q)[1..] == p[1..] + q;
      FlattenConcat(p[1..], q);
    }
  }

  /** Replacing one bin changes the flattened multiset by exactly that bin. */
  lemma {:induction false} FlattenUpdate(p: Packing, i: int, b: seq<int>)
    requires 0 <= i < |p|
    ensures multiset(Flatten(p[i := b])) + multiset(p[i]) == multiset(Flatten(p)) + multiset(b)
    ensures Sum(Flatten(p[i := b])) == Sum(Flatten(p)) - Sum(p[i]) + Sum(b)
  {
    var q := p[i := b];
    var restP := Flatten(p[1..]);
    var restQ := Flatten(q[1..]);
    assert Flatten(p) == p[0] + restP;
    assert Flatten(q) == q[0] + restQ;
    assert multiset(Flatten(p)) == multiset(p[0]) + multiset(restP);
    assert multiset(Flatten(q)) == multiset(q[0]) + multiset(restQ);
    SumConcat(p[0], restP);
    SumConcat(q[0], restQ);
    if i == 0 {
      assert q[1..] == p[1..];
    } else {
      assert q[0] == p[0];
      assert q[1..] == p[1..][i - 1 := b];
      assert p[1..][i - 1] == p[i];
      FlattenUpdate(p[1..], i - 1, b);
      assert multiset(restQ) + multiset(p[i]) == multiset(restP) + multiset(b);
      calc {
        multiset(Flatten(q)) + multiset(p[i]);
        multiset(p[0]) + (multiset(restQ) + multiset(p[i]));
        multiset(p[0]) + (multiset(restP) + multiset(b));
        multiset(Flatten(p)) + multiset(b);
      }
    }
  }

  /** The total capacity of `n` bins of capacity `size`. */
  function Capacity(n: nat, size: int): int
  {
    if n == 0 then 0 else Capacity(n - 1, size) + size
  }

  lemma {:induction false} CapacityIsProduct(n: nat, size: int)
    ensures Capacity(n, size) == n * size
  {
    if n > 0 {
      CapacityIsProduct(n - 1, size);
      assert (n - 1) * size + size == n * size;
    }
  }

  lemma {:induction false} CapacityMonotone(m: nat, n: nat, size: int)
    requires m <= n && size >= 0
    ensures Capacity(m, size) <= Capacity(n, size)
  {
    if m < n {
      CapacityMonotone(m, n - 1, size);
    }
  }

  /** Total weight is the sum of the bin contents, and each bin is at most
      `size` when the packing is within capacity. */
  lemma {:induction false} FlattenSumBound(p: Packing, size: int)
    requires WithinCapacity(p, size)
    ensures Sum(Flatten(p)) <= Capacity(|p|, size)
  {
    if p != [] {
      var rest := Flatten(p[1..]);
      assert Flatten(p) == p[0] + rest;
      assert WithinCapacity(p[1..], size) by {
        forall i | 0 <= i < |p[1..]| ensures Sum(p[1..][i]) <= size { assert p[1..][i] == p[i + 1]; }
      }
      FlattenSumBound(p[1..], size);
      SumConcat(p[0], rest);
      assert Sum(p[0]) <= size;
    }
  }

  lemma {:induction false} FlattenAppendBin(p: Packing, b: seq<int>)
    ensures multiset(Flatten(p + [b])) == multiset(Flatten(p)) + multiset(b)
    ensures Sum(Flatten(p + [b])) == Sum(Flatten(p)) + Sum(b)
  {
    FlattenConcat(p, [b]);
    assert Flatten([b]) == b + Flatten([]);
    assert Flatten([b]) == b;
    SumConcat(Flatten(p), b);
  }

  /* ---------------------------------------------------------------------
     Properties of move_item and remove_empty_bins on values
     --------------------------------------------------------------------- */

  /** Taking the first occurrence of `item` out of bin `from` removes exactly
      one `item` from the whole packing. */
  lemma RemoveFromBin(p: Packing, from: int, item: int)
    requires 0 <= from < |p| && item in p[from]
    ensures multiset(Flatten(p[from := RemoveFirst(p[from], item)])) + multiset{item} == multiset(Flatten(p))
    ensures Sum(Flatten(p[from := RemoveFirst(p[from], item)])) == Sum(Flatten(p)) - item
  {
    var r1 := RemoveFirst(p[from], item);
    var p1 := p[from := r1];
    FlattenUpdate(p, from, r1);
    SumRemoveFirst(p[from], item);
    assert multiset(Flatten(p1)) + multiset(r1) + multiset{item} == multiset(Flatten(p)) + multiset(r1);
    MultisetCancel(multiset(Flatten(p1)) + multiset{item}, multiset(Flatten(p)), multiset(r1));
  }

  /** Appending `item` to bin `to` adds exactly one `item` to the packing. */
  lemma AppendToBin(p: Packing, to: int, item: int)
    requires 0 <= to < |p|
    ensures multiset(Flatten(p[to := p[to] + [item]])) == multiset(Flatten(p)) + multiset{item}
    ensures Sum(Flatten(p[to := p[to] + [item]])) == Sum(Flatten(p)) + item
  {
    var p2 := p[to := p[to] + [item]];
    FlattenUpdate(p, to, p[to] + [item]);
    SumAppend(p[to], item);
    assert multiset(p[to] + [item]) == multiset(p[to]) + multiset{item};
    assert multiset(Flatten(p2)) + multiset(p[to]) == multiset(Flatten(p)) + multiset{item} + multiset(p[to]);
    MultisetCancel(multiset(Flatten(p2)), multiset(Flatten(p)) + multiset{item}, multiset(p[to]));
  }

  /** `move_item` keeps the multiset of all items and the total weight, and
      touches no bin but the two it names. */
  lemma MoveItemConserves(p: Packing, from: int, item: int, to: int)
    requires 0 <= from < |p| && 0 <= to < |p| && item in p[from]
    ensures multiset(Flatten(MoveItemValue(p, from, item, to))) == multiset(Flatten(p))
    ensures Sum(Flatten(MoveItemValue(p, from, item, to))) == Sum(Flatten(p))
    ensures |MoveItemValue(p, from, item, to)| == |p|
    ensures forall i :: 0 <= i < |p| && i != from && i != to ==> MoveItemValue(p, from, item, to)[i] == p[i]
  {
    var p1 := p[from := RemoveFirst(p[from], item)];
    RemoveFromBin(p, from, item);
    AppendToBin(p1, to, item);
  }

  /** Only bins with zero content are dropped and the survivors keep their order:
      the result is exactly the non-empty bins of `p`. */
  lemma {:induction false} RemoveEmptyKeepsNonEmpty(p: Packing)
    ensures forall i :: 0 <= i < |RemoveEmpty(p)| ==> Sum(RemoveEmpty(p)[i]) != 0
    ensures forall b :: b in p && Sum(b) != 0 ==> b in RemoveEmpty(p)
    ensures forall b :: b in RemoveEmpty(p) ==> b in p
  {
    if p != [] {
      RemoveEmptyKeepsNonEmpty(p[1..]);
    }
  }

  /** The filter over one more bin. */
  lemma RemoveEmptySnoc(p: Packing, i: int)
    requires 0 <= i < |p|
    ensures RemoveEmpty(p[..i + 1]) == RemoveEmpty(p[..i]) + (if Sum(p[i]) == 0 then [] else [p[i]])
  {
    assert p[..i + 1] == p[..i] + [p[i]];
    RemoveEmptyConcat(p[..i], [p[i]]);
    assert [p[i]][1..] == [];
  }

  lemma {:induction false} RemoveEmptyConcat(p: Packing, q: Packing)
    ensures RemoveEmpty(p + q) == RemoveEmpty(p) + RemoveEmpty(q)
  {
    if p != [] {
      assert (p + q)[1..] == p[1..] + q;
      RemoveEmptyConcat(p[1..], q);
    } else {
      assert p + q == q;
    }
  }

  /** remove_empty_bins applied twice is remove_empty_bins applied once. */
  lemma {:induction false} RemoveEmptyIdempotent(p: Packing)
    ensures RemoveEmpty(RemoveEmpty(p)) == RemoveEmpty(p)
  {
    if p != [] {
      RemoveEmptyIdempotent(p[1..]);
      if Sum(p[0]) != 0 {
        var r := [p[0]] + RemoveEmpty(p[1..]);
        assert r[1..] == RemoveEmpty(p[1..]);
      }
    }
  }

  /** Dropping empty bins loses no item and no weight when items are positive. */
  lemma {:induction false} RemoveEmptyConserves(p: Packing)
    requires AllPositive(p)
    ensures Flatten(RemoveEmpty(p)) == Flatten(p)
    ensures AllPositive(RemoveEmpty(p))
  {
    if p != [] {
      assert AllPositive(p[1..]) by {
        forall i | 0 <= i < |p[1..]| ensures Positive(p[1..][i]) { assert p[1..][i] == p[i + 1]; }
      }
      RemoveEmptyConserves(p[1..]);
      if Sum(p[0]) == 0 {
        SumEmptyIff(p[0]);
        assert p[0] + Flatten(p[1..]) == Flatten(p[1..]);
      } else {
        var r := [p[0]] + RemoveEmpty(p[1..]);
        assert r[1..] == RemoveEmpty(p[1..]);
      }
    }
  }

  lemma {:induction false} RemoveEmptyWithinCapacity(p: Packing, size: int)
    requires WithinCapacity(p, size)
    ensures WithinCapacity(RemoveEmpty(p), size)
  {
    RemoveEmptyKeepsNonEmpty(p);
    forall i | 0 <= i < |RemoveEmpty(p)| ensures Sum(RemoveEmpty(p)[i]) <= size {
      assert RemoveEmpty(p)[i] in p;
    }
  }

  /* ---------------------------------------------------------------------
     sort_decreasing on values
     --------------------------------------------------------------------- */

  ghost predicate NonIncreasing(s: seq<int>)
  {
    forall i, j :: 0 <= i < j < |s| ==> s[i] >= s[j]
  }

  /** Insert `x` into a non-increasing list, keeping it non-increasing. */
  function InsertDecreasing(s: seq<int>, x: int): (r: seq<int>)
    requires NonIncreasing(s)
    ensures NonIncreasing(r)
    ensures multiset(r) == multiset(s) + multiset{x}
    ensures |r| == |s| + 1
    ensures forall i :: 0 <= i < |r| ==> r[i] == x || r[i] in s
  {
    if s == [] || s[0] <= x then [x] + s
    else
      assert s == [s[0]] + s[1..];
      [s[0]] + InsertDecreasing(s[1..], x)
  }

  /** `sorted(items, reverse=True)`. */
  function SortedDecreasing(s: seq<int>): (r: seq<int>)
    ensures NonIncreasing(r)
    ensures multiset(r) == multiset(s)
  {
    if s == [] then []
    else
      assert s == [s[0]] + s[1..];
      InsertDecreasing(SortedDecreasing(s[1..]), s[0])
  }

  /** A non-increasing ordering of a multiset is unique: any non-increasing
      permutation of the items is the one `sorted(..., reverse=True)` gives. */
  lemma {:induction false} NonIncreasingUnique(a: seq<int>, b: seq<int>)
    requires NonIncreasing(a) && NonIncreasing(b) && multiset(a) == multiset(b)
    ensures a == b
  {
    assert |a| == |multiset(a)| == |multiset(b)| == |b|;
    if a != [] {
      assert a[0] in multiset(b) && b[0] in multiset(a);
      assert a[0] in b && b[0] in a;
      var i :| 0 <= i < |b| && b[i] == a[0];
      var j :| 0 <= j < |a| && a[j] == b[0];
      assert b[0] >= b[i] && a[0] >= a[j];
      assert a == [a[0]] + a[1..] && b == [b[0]] + b[1..];
      assert multiset(a) == multiset{a[0]} + multiset(a[1..]);
      assert multiset(b) == multiset{b[0]} + multiset(b[1..]);
      assert a[0] == b[0];
      assert multiset{a[0]} + multiset(a[1..]) == multiset{a[0]} + multiset(b[1..]);
      MultisetCancel(multiset(a[1..]), multiset(b[1..]), multiset{a[0]});
      NonIncreasingUnique(a[1..], b[1..]);
    }
  }

  /* ---------------------------------------------------------------------
     BPInstance
     --------------------------------------------------------------------- */

  /** A problem: the capacity of every bin and the item weights, in order. */
  datatype Instance = Instance(binSize: int, items: seq<int>)
  {
    /** A new instance with the same capacity and the items in non-increasing
        order. */
    function SortDecreasing(): (r: Instance)
      ensures r.binSize == binSize
      ensures multiset(r.items) == multiset(items)
      ensures NonIncreasing(r.items)
    {
      Instance(binSize, SortedDecreasing(items))
    }

    /** `ceil(sum(items) / bin_size)`: the least bin count whose total capacity
        covers the total weight. */
    function LowerBound(): (r: int)
      requires binSize > 0
      ensures (r - 1) * binSize < Sum(items) <= r * binSize
    {
      CeilDiv(Sum(items), binSize)
    }
  }

  /** The least `q` with `a <= q * b`. */
  function CeilDiv(a: int, b: int): (q: int)
    requires b > 0
    ensures (q - 1) * b < a <= q * b
  {
    var q := (a + b - 1) / b;
    assert (a + b - 1) == q * b + (a + b - 1) % b;
    q
  }

  /** No packing of an instance's items into bins of its capacity uses fewer
      than `lower_bound` bins. */
  lemma LowerBoundIsLower(inst: Instance, p: Packing)
    requires inst.binSize > 0
    requires WithinCapacity(p, inst.binSize)
    requires multiset(Flatten(p)) == multiset(inst.items)
    ensures |p| >= inst.LowerBound()
  {
    PackedWeight(inst.items, p, inst.binSize);
    BinsNeeded(|p|, inst.binSize, Sum(inst.items));
  }

  /** `n` bins of capacity `b` that hold weight `w` are at least
      `ceil(w / b)`. */
  lemma BinsNeeded(n: nat, b: int, w: int)
    requires b > 0 && w <= Capacity(n, b)
    ensures n >= CeilDiv(w, b)
  {
    var r := CeilDiv(w, b);
    if n < r {
      CapacityMonotone(n, r - 1, b);
      CapacityIsProduct(r - 1, b);
    }
  }

  /** A packing of `items` into bins of capacity `size` carries their whole
      weight, and at most `size` per bin. */
  lemma PackedWeight(items: seq<int>, p: Packing, size: int)
    requires WithinCapacity(p, size)
    requires multiset(Flatten(p)) == multiset(items)
    ensures Sum(items) <= Capacity(|p|, size)
  {
    SumPermutation(Flatten(p), items);
    FlattenSumBound(p, size);
  }

  /* ---------------------------------------------------------------------
     Bin
     --------------------------------------------------------------------- */

  /** A bin: its capacity, the weights it holds in insertion order and the
      advisory `closed` flag set by Next-Fit. */
  class Bin {
    const size: int
    var items: seq<int>
    var closed: bool

    constructor (size: int)
      ensures this.size == size && items == [] && !closed
    {
      this.size := size;
      items := [];
      closed := false;
    }

    function Content(): int
      reads this
    {
      Sum(items)
    }

    /** `fits`: the weight is at most the remaining gap. A bin that is not
        over capacity takes every non-positive weight. */
    predicate Fits(item: int): (r: bool)
      reads this
      ensures r <==> Content() + item <= size
      ensures Content() <= size && item <= 0 ==> r
    {
      FitsValue(size, items, item)
    }

    /** `is_empty`: content is zero; for positive weights, no item at all. */
    predicate IsEmpty(): (r: bool)
      reads this
      ensures Positive(items) ==> (r <==> items == [])
    {
      SumEmptyIff(items);
      Content() == 0
    }

    /** `is_full`: content equals capacity, so no positive weight fits. */
    predicate IsFull(): (r: bool)
      reads this
      ensures r ==> forall w :: w > 0 ==> !Fits(w)
      ensures r ==> Fits(0)
    {
      Content() == size
    }

    /** `append`: a non-positive weight is refused with an error and nothing
        changes; otherwise the weight goes at the end of the list. */
    method Append(item: int) returns (ok: bool)
      modifies this
      ensures ok <==> item > 0
      ensures items == if ok then old(items) + [item] else old(items)
      ensures closed == old(closed)
    {
      if item <= 0 {
        return false;
      }
      items := items + [item];
      return true;
    }

    /** `pop(index)`: Python indexing, so a negative index counts from the end;
        an index outside the list is an error and nothing changes. */
    method Pop(index: int) returns (ok: bool, item: int)
      modifies this
      ensures ok <==> -|old(items)| <= index < |old(items)|
      ensures ok ==> var k := if index < 0 then index + |old(items)| else index;
                     item == old(items)[k] && items == old(items)[..k] + old(items)[k + 1..]
      ensures !ok ==> items == old(items)
      ensures closed == old(closed)
    {
      if index < -|items| || index >= |items| {
        return false, 0;
      }
      var k := if index < 0 then index + |items| else index;
      item := items[k];
      items := items[..k] + items[k + 1..];
      ok := true;
    }

    /** `remove(item)`: drops the first occurrence; an absent item is an
        error and nothing changes. */
    method Remove(item: int) returns (ok: bool)
      modifies this
      ensures ok <==> item in old(items)
      ensures items == RemoveFirst(old(items), item)
      ensures closed == old(closed)
    {
      if item !in items {
        return false;
      }
      items := RemoveFirst(items, item);
      return true;
    }
  }

  /* ---------------------------------------------------------------------
     BPSolution
     --------------------------------------------------------------------- */

  /** `pack_in_new_bin` on values: an empty last bin takes the item, otherwise
      a new bin `[item]` is added at the end. */
  function PackInNewBinValue(p: Packing, item: int): (r: Packing)
    requires |p| > 0
  {
    if Sum(p[|p| - 1]) == 0 then p[|p| - 1 := p[|p| - 1] + [item]]
    else p + [[item]]
  }

  /** The three cases `pack_in_new_bin` promises: an empty last bin is
      filled, a non-empty one gets a new bin `[item]` after it, and no earlier
      bin is touched. The item is added exactly once. */
  lemma PackInNewBinShape(p: Packing, item: int)
    requires |p| > 0
    ensures Sum(p[|p| - 1]) == 0 ==>
      |PackInNewBinValue(p, item)| == |p| && PackInNewBinValue(p, item)[|p| - 1] == p[|p| - 1] + [item]
    ensures Sum(p[|p| - 1]) != 0 ==>
      |PackInNewBinValue(p, item)| == |p| + 1 && PackInNewBinValue(p, item)[|p|] == [item]
    ensures PackInNewBinValue(p, item)[..|p| - 1] == p[..|p| - 1]
    ensures multiset(Flatten(PackInNewBinValue(p, item))) == multiset(Flatten(p)) + multiset{item}
  {
    if Sum(p[|p| - 1]) == 0 {
      AppendToBin(p, |p| - 1, item);
    } else {
      FlattenAppendBin(p, [item]);
    }
  }

  /** `new_bin = Bin(size); new_bin.append(item)`, before the bin joins
      any solution. */
  method NewBinHolding(size: int, item: int) returns (ok: bool, b: Bin)
    ensures fresh(b) && b.size == size && !b.closed
    ensures ok <==> item > 0
    ensures b.items == if ok then [item] else []
  {
    b := new Bin(size);
    ok := b.Append(item);
  }

  /** A solution: the shared capacity and the ordered list of bins. */
  class Solution {
    const binSize: int
    var bins: seq<Bin>

    /** The bins are distinct objects of the solution's capacity holding
        positive weights (the only weights `Bin.append` lets in). */
    ghost predicate Valid()
      reads this, bins
    {
      && (forall i, j :: 0 <= i < j < |bins| ==> bins[i] != bins[j])
      && (forall i :: 0 <= i < |bins| ==> bins[i].size == binSize)
      && (forall i :: 0 <= i < |bins| ==> Positive(bins[i].items))
    }

    /** The item lists of the bins, in order. */
    function Contents(): (c: Packing)
      reads this, bins
      ensures |c| == |bins|
      ensures forall i :: 0 <= i < |bins| ==> c[i] == bins[i].items
    {
      seq(|bins|, i reads this, bins requires 0 <= i < |bins| => bins[i].items)
    }

    /** `__post_init__`: a new solution holds exactly one bin, and it is empty. */
    constructor (binSize: int)
      ensures this.binSize == binSize
      ensures Valid() && Contents() == [[]]
      ensures fresh(bins[0]) && !bins[0].closed
    {
      this.binSize := binSize;
      bins := [];
      new;
      AddEmptyBin();
    }

    /** `add_empty_bin`: one more empty, open bin at the end. */
    method AddEmptyBin()
      requires Valid()
      modifies this
      ensures Valid()
      ensures Contents() == old(Contents()) + [[]]
      ensures |bins| == |old(bins)| + 1 && bins[..|old(bins)|] == old(bins)
      ensures fresh(bins[|bins| - 1]) && !bins[|bins| - 1].closed
    {
      var b := new Bin(binSize);
      AppendBin(b);
    }

    /** `self.bins.append(b)` for a bin object not yet in the list. */
    method AppendBin(b: Bin)
      requires Valid() && b !in bins && b.size == binSize && Positive(b.items)
      modifies this
      ensures Valid() && bins == old(bins) + [b]
      ensures Contents() == old(Contents()) + [b.items]
    {
      bins := bins + [b];
      assert Contents() == old(Contents()) + [b.items];
    }

    /** `pack_in_new_bin`. Indexing the last bin of an empty list and
        appending a non-positive weight are errors that change nothing. */
    method PackInNewBin(item: int) returns (ok: bool)
      requires Valid()
      modifies this, bins
      ensures Valid()
      ensures ok <==> |old(bins)| > 0 && item > 0
      ensures ok ==> Contents() == PackInNewBinValue(old(Contents()), item)
      ensures !ok ==> Contents() == old(Contents())
      ensures |bins| >= |old(bins)| && bins[..|old(bins)|] == old(bins)
      ensures forall i :: 0 <= i < |old(bins)| ==> bins[i].closed == old(bins[i].closed)
      ensures forall i :: |old(bins)| <= i < |bins| ==> fresh(bins[i]) && !bins[i].closed
    {
      if |bins| == 0 {
        return false;
      }
      if bins[|bins| - 1].IsEmpty() {
        ok := AppendTo(|bins| - 1, item);
      } else {
        ok := OpenBinWith(item);
      }
    }

    /** The branch of `pack_in_new_bin` where the last bin is not empty. */
    method OpenBinWith(item: int) returns (ok: bool)
      requires Valid() && |bins| > 0 && Sum(bins[|bins| - 1].items) != 0
      modifies this
      ensures Valid()
      ensures ok <==> item > 0
      ensures ok ==> Contents() == PackInNewBinValue(old(Contents()), item)
      ensures !ok ==> bins == old(bins)
      ensures ok ==> |bins| == |old(bins)| + 1 && bins[..|old(bins)|] == old(bins)
      ensures ok ==> fresh(bins[|old(bins)|]) && !bins[|old(bins)|].closed
    {
      var b;
      ok, b := NewBinHolding(binSize, item);
      if ok {
        AppendBin(b);
      }
    }

    /** `self[j].append(item)`: a bin of the solution takes a weight. */
    method AppendTo(j: int, item: int) returns (ok: bool)
      requires Valid() && 0 <= j < |bins|
      modifies bins[j]
      ensures Valid() && bins == old(bins)
      ensures ok <==> item > 0
      ensures ok ==> Contents() == old(Contents())[j := old(Contents())[j] + [item]]
      ensures !ok ==> Contents() == old(Contents())
      ensures forall i :: 0 <= i < |bins| ==> bins[i].closed == old(bins[i].closed)
    {
      ghost var c := Contents();
      ok := bins[j].Append(item);
      if ok {
        assert Positive(bins[j].items) by {
          assert bins[j].items == c[j] + [item];
        }
        assert Contents() == c[j := c[j] + [item]];
      } else {
        assert Contents() == c;
      }
    }

    /** `self[j].closed = True`. */
    method Close(j: int)
      requires Valid() && 0 <= j < |bins|
      modifies bins[j]
      ensures Valid() && bins == old(bins)
      ensures Contents() == old(Contents())
      ensures forall i :: 0 <= i < |bins| ==> bins[i].closed == (i == j || old(bins[i].closed))
    {
      ghost var c := Contents();
      bins[j].closed := true;
      assert Contents() == c;
    }

    /** `move_item`: removes the first occurrence of `item` from bin `from` and
        appends it to bin `to`. An item missing from bin `from` is an error
        and nothing changes. */
    method MoveItem(from: int, item: int, to: int) returns (ok: bool)
      requires Valid() && 0 <= from < |bins| && 0 <= to < |bins|
      modifies bins[from], bins[to]
      ensures Valid() && bins == old(bins)
      ensures ok <==> item in old(Contents())[from]
      ensures ok ==> Contents() == MoveItemValue(old(Contents()), from, item, to)
      ensures !ok ==> Contents() == old(Contents())
      ensures forall i :: 0 <= i < |bins| ==> bins[i].closed == old(bins[i].closed)
    {
      ghost var c := Contents();
      ok := RemoveFrom(from, item);
      if ok {
        PositiveRemoveFirst(c[from], item);
        var appended := AppendTo(to, item);
      }
    }

    /** `self[j].remove(item)`: a bin of the solution gives up the first
        occurrence of a weight. */
    method RemoveFrom(j: int, item: int) returns (ok: bool)
      requires Valid() && 0 <= j < |bins|
      modifies bins[j]
      ensures Valid() && bins == old(bins)
      ensures ok <==> item in old(Contents())[j]
      ensures Contents() == old(Contents())[j := RemoveFirst(old(Contents())[j], item)]
      ensures forall i :: 0 <= i < |bins| ==> bins[i].closed == old(bins[i].closed)
    {
      ghost var c := Contents();
      ok := bins[j].Remove(item);
      PositiveRemoveFirst(c[j], item);
      assert Contents() == c[j := RemoveFirst(c[j], item)];
    }

    /** `remove_empty_bins`: keeps exactly the bins whose content is not zero,
        in their order; the kept bins are the same objects. */
    method RemoveEmptyBins()
      requires Valid()
      modifies this
      ensures Valid()
      ensures Contents() == RemoveEmpty(old(Contents()))
      ensures forall i :: 0 <= i < |bins| ==> bins[i] in old(bins)
    {
      ghost var c := Contents();
      var bs := bins;
      var kept: seq<Bin> := [];
      ghost var keptItems: Packing := [];
      var i := 0;
      while i < |bs|
        invariant 0 <= i <= |bs|
        invariant forall k :: 0 <= k < |kept| ==> kept[k] in bs[..i]
        invariant forall k, l :: 0 <= k < l < |kept| ==> kept[k] != kept[l]
        invariant |keptItems| == |kept|
        invariant forall k :: 0 <= k < |kept| ==> kept[k].items == keptItems[k]
        invariant keptItems == RemoveEmpty(c[..i])
      {
        RemoveEmptySnoc(c, i);
        if !bs[i].IsEmpty() {
          kept := kept + [bs[i]];
          keptItems := keptItems + [c[i]];
        }
        i := i + 1;
      }
      assert c[..i] == c;
      bins := kept;
      assert Contents() == keptItems;
    }

    /** `copy` (a deep copy): a fresh solution with fresh bins holding the
        same items and flags. */
    method Copy() returns (s: Solution)
      requires Valid()
      ensures fresh(s) && s.Valid() && s.binSize == binSize
      ensures s.Contents() == Contents()
      ensures forall i :: 0 <= i < |s.bins| ==> fresh(s.bins[i]) && s.bins[i].closed == bins[i].closed
    {
      s := new Solution(binSize);
      var copies: seq<Bin> := [];
      var i := 0;
      while i < |bins|
        invariant 0 <= i <= |bins|
        invariant |copies| == i
        invariant forall k :: 0 <= k < i ==> fresh(copies[k])
        invariant forall k, l :: 0 <= k < l < i ==> copies[k] != copies[l]
        invariant forall k :: 0 <= k < i ==> copies[k].items == bins[k].items && copies[k].closed == bins[k].closed
        invariant forall k :: 0 <= k < i ==> copies[k].size == binSize
        invariant fresh(s) && s.binSize == binSize
      {
        var b := new Bin(binSize);
        b.items := bins[i].items;
        b.closed := bins[i].closed;
        copies := copies + [b];
        i := i + 1;
      }
      s.bins := copies;
    }
  }
}
