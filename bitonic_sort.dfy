/** The bitonic engine (Bitonic_Sort/bitonic_sort.cpp): `compare_exchange` on
    two arrays, the in-place `bitonic_sort_local`, and `mpi_bitonic_sort`, in
    which every rank, at stage `k` and step `j`, swaps its whole slice with
    rank `rank ^ (1 << j)` and keeps one side of an element-wise comparison.
    The ranks' slices are a sequence indexed by rank; `MPI_Sendrecv` is the
    simultaneous read of the partner's slice. */
module BitonicSort {
  import opened Seqs
  import opened Arith
  import opened BitonicNetwork
  import opened RankBags

  // ----------------------------------------------------- compare_exchange

  /** `data1` after `compare_exchange(data1, data2, count, dir)`. */
  function ExchangeFirst(a: seq<int>, b: seq<int>, count: int, dir: int): (r: seq<int>)
    requires count <= |a| && count <= |b|
    ensures |r| == |a|
  {
    seq(|a|, i requires 0 <= i < |a| => if i < count then Lo(a[i], b[i], dir) else a[i])
  }

  /** `data2` after `compare_exchange(data1, data2, count, dir)`. */
  function ExchangeSecond(a: seq<int>, b: seq<int>, count: int, dir: int): (r: seq<int>)
    requires count <= |a| && count <= |b|
    ensures |r| == |b|
  {
    seq(|b|, i requires 0 <= i < |b| => if i < count then Hi(a[i], b[i], dir) else b[i])
  }

  /** What `compare_exchange` promises: below `count` the pair at every index
      is ordered for the direction and is the pair it was, and nothing at or
      above `count` changes. */
  lemma ExchangeOrders(a: seq<int>, b: seq<int>, count: int, dir: int)
    requires count <= |a| && count <= |b|
    ensures forall i :: 0 <= i < count ==>
      (dir == 1 ==> ExchangeFirst(a, b, count, dir)[i] <= ExchangeSecond(a, b, count, dir)[i]) &&
      (dir == 0 ==> ExchangeFirst(a, b, count, dir)[i] >= ExchangeSecond(a, b, count, dir)[i])
    ensures forall i :: 0 <= i < count ==>
      multiset{ExchangeFirst(a, b, count, dir)[i], ExchangeSecond(a, b, count, dir)[i]} == multiset{a[i], b[i]}
    ensures forall i :: count <= i < |a| && 0 <= i ==> ExchangeFirst(a, b, count, dir)[i] == a[i]
    ensures forall i :: count <= i < |b| && 0 <= i ==> ExchangeSecond(a, b, count, dir)[i] == b[i]
  {
    var first, second := ExchangeFirst(a, b, count, dir), ExchangeSecond(a, b, count, dir);
    forall i | 0 <= i < count
      ensures (dir == 1 ==> first[i] <= second[i]) && (dir == 0 ==> first[i] >= second[i])
      ensures multiset{first[i], second[i]} == multiset{a[i], b[i]}
    {
      assert first[i] == Lo(a[i], b[i], dir) && second[i] == Hi(a[i], b[i], dir);
      ComparedPair(a[i], b[i], dir);
    }
  }

  /** One compared pair is ordered for the direction and is the pair it was. */
  lemma ComparedPair(x: int, y: int, dir: int)
    ensures dir == 1 ==> Lo(x, y, dir) <= Hi(x, y, dir)
    ensures dir == 0 ==> Lo(x, y, dir) >= Hi(x, y, dir)
    ensures multiset{Lo(x, y, dir), Hi(x, y, dir)} == multiset{x, y}
  {
  }

  /** `compare_exchange`: one pass over the first `count` indices, swapping
      `data1[i]` and `data2[i]` when they are out of order for `dir`. */
  method CompareExchange(data1: array<int>, data2: array<int>, count: int, dir: int)
    requires data1 != data2 && count <= data1.Length && count <= data2.Length
    modifies data1, data2
    ensures data1[..] == ExchangeFirst(old(data1[..]), old(data2[..]), count, dir)
    ensures data2[..] == ExchangeSecond(old(data1[..]), old(data2[..]), count, dir)
  {
    ghost var a, b := data1[..], data2[..];
    var i := 0;
    while i < count
      invariant 0 <= i <= if count < 0 then 0 else count
      invariant |a| == data1.Length && |b| == data2.Length && i <= data1.Length && i <= data2.Length
      invariant forall q :: 0 <= q < data1.Length ==> data1[q] == if q < i then Lo(a[q], b[q], dir) else a[q]
      invariant forall q :: 0 <= q < data2.Length ==> data2[q] == if q < i then Hi(a[q], b[q], dir) else b[q]
    {
      if (dir == 1 && data1[i] > data2[i]) || (dir == 0 && data1[i] < data2[i]) {
        var temp := data1[i];
        data1[i] := data2[i];
        data2[i] := temp;
      }
      i := i + 1;
    }
    assert i == if count < 0 then 0 else count;
    assert forall q :: 0 <= q < data1.Length ==> data1[..][q] == ExchangeFirst(a, b, count, dir)[q];
    assert forall q :: 0 <= q < data2.Length ==> data2[..][q] == ExchangeSecond(a, b, count, dir)[q];
  }

  // --------------------------------------------------- bitonic_sort_local

  /** One iteration of the merge's `for` loop, at index `i` of the range
      `[start, start+length)`: a pair in the lower half of its `2*step` block
      is swapped when out of order for `dir`; nothing else changes. */
  method CompareAt(data: array<int>, start: int, length: int, step: int, dir: int, i: int)
    requires 0 <= start <= i && 1 <= step && i + step < start + length <= data.Length
    modifies data
    ensures var c, p := old(data[start..start + length]), i - start;
      data[start..start + length] ==
        if p % (2 * step) < step && Swaps(c[p], c[p + step], dir) then c[p := c[p + step]][p + step := c[p]] else c
    ensures data[..start] == old(data[..start]) && data[start + length..] == old(data[start + length..])
  {
    if (i - start) % (2 * step) < step {
      if (dir == 1 && data[i] > data[i + step]) || (dir == 0 && data[i] < data[i + step]) {
        ghost var w := data[..];
        var temp := data[i];
        data[i] := data[i + step];
        data[i + step] := temp;
        assert data[..] == w[i := w[i + step]][i + step := w[i]];
        SwapInRange(w, start, length, i, i + step);
      }
    }
  }

  /** One `for` loop of the merge: the range `[start, start+length)` becomes
      `Pass` of what it held at distance `step`, and nothing outside it
      changes. */
  method PassRange(data: array<int>, start: int, length: int, step: int, dir: int)
    requires 0 <= start && 1 <= step <= length && start + length <= data.Length
    modifies data
    ensures data[start..start + length] == Pass(old(data[start..start + length]), step, dir)
    ensures data[..start] == old(data[..start]) && data[start + length..] == old(data[start + length..])
  {
    ghost var cur := data[start..start + length];
    PartialStart(cur, step, dir);
    for i := start to start + length - step
      invariant data[start..start + length] == Partial(cur, step, dir, i - start)
      invariant data[..start] == old(data[..start]) && data[start + length..] == old(data[start + length..])
    {
      ghost var before := data[start..start + length];
      CompareAt(data, start, length, step, dir, i);
      PassAdvance(cur, before, data[start..start + length], step, dir, i - start);
    }
    PartialDone(cur, step, dir, length - step);
  }

  /** One compare at offset `p` carries a pass's prefix to offset `p + 1`. */
  lemma PassAdvance(cur: seq<int>, before: seq<int>, after: seq<int>, step: nat, dir: int, p: int)
    requires step >= 1 && 0 <= p && p + step < |cur| && before == Partial(cur, step, dir, p)
    requires after ==
      if p % (2 * step) < step && Swaps(before[p], before[p + step], dir)
      then before[p := before[p + step]][p + step := before[p]] else before
    ensures after == Partial(cur, step, dir, p + 1)
  {
    PartialStep(cur, step, dir, p);
  }

  /** Swapping two entries inside `[start, start+length)` swaps them in that
      slice and leaves the rest alone. */
  lemma SwapInRange(w: seq<int>, start: int, length: int, i: int, j: int)
    requires 0 <= start <= i < j < start + length <= |w|
    ensures var w', c := w[i := w[j]][j := w[i]], w[start..start + length];
      w'[start..start + length] == c[i - start := c[j - start]][j - start := c[i - start]] &&
      w'[..start] == w[..start] && w'[start + length..] == w[start + length..]
  {
  }

  /** `bitonic_sort_local(data, start, length, dir)`: the range
      `[start, start+length)` becomes `BitonicLocal` of what it held, and
      nothing outside it changes. */
  method BitonicSortLocal(data: array<int>, start: int, length: int, dir: int)
    requires 0 <= start && 0 <= length && start + length <= data.Length
    modifies data
    ensures data[start..start + length] == BitonicLocal(old(data[start..start + length]), dir)
    ensures data[..start] == old(data[..start]) && data[start + length..] == old(data[start + length..])
    decreases length, 1
  {
    if length > 1 {
      ghost var s := data[start..start + length];
      var k := length / 2;
      SortHalves(data, start, length);
      ghost var halves := data[start..start + length];
      BitonicLocalUnfold(s, dir, k, halves);
      MergeRange(data, start, length, k, dir);
      assert data[start..start + length] == Merge(halves, k, dir);
    } else {
      assert BitonicLocal(data[start..start + length], dir) == data[start..start + length];
    }
  }

  /** The two recursive calls of `bitonic_sort_local`: the first half of the
      range sorted ascending, then the next half descending; an odd last cell
      and everything outside the range stay as they were. */
  method SortHalves(data: array<int>, start: int, length: int)
    requires 0 <= start && 1 < length && start + length <= data.Length
    modifies data
    ensures var s, k := old(data[start..start + length]), length / 2;
      data[start..start + length] == BitonicLocal(s[..k], 1) + BitonicLocal(s[k..2 * k], 0) + s[2 * k..]
    ensures data[..start] == old(data[..start]) && data[start + length..] == old(data[start + length..])
    decreases length, 0
  {
    ghost var orig := data[..];
    var k := length / 2;
    var half := start + k;
    ghost var first := data[start..half];
    BitonicSortLocal(data, start, k, 1);
    ghost var mid := data[..];
    ghost var lower := BitonicLocal(first, 1);
    assert mid[start..half] == lower;
    assert mid[..start] == orig[..start] && mid[half..] == orig[half..];
    ghost var second := data[half..half + k];
    BitonicSortLocal(data, half, k, 0);
    ghost var upper := data[half..half + k];
    assert upper == BitonicLocal(second, 0);
    assert data[..half] == mid[..half] && data[half + k..] == mid[half + k..];
    HalvesInPlace(orig, mid, data[..], start, k, half, length, first, second, lower, upper);
  }

  /** The bitonic merge of `bitonic_sort_local`: passes at `step, step/2, ...,
      1` over `[start, start+length)`; nothing outside the range changes. */
  method MergeRange(data: array<int>, start: int, length: int, firstStep: int, dir: int)
    requires 0 <= start && 0 <= firstStep <= length && start + length <= data.Length
    modifies data
    ensures data[start..start + length] == Merge(old(data[start..start + length]), firstStep, dir)
    ensures data[..start] == old(data[..start]) && data[start + length..] == old(data[start + length..])
  {
    ghost var s := data[start..start + length];
    var step := firstStep;
    while step > 0
      invariant 0 <= step <= length
      invariant Merge(data[start..start + length], step, dir) == Merge(s, firstStep, dir)
      invariant data[..start] == old(data[..start]) && data[start + length..] == old(data[start + length..])
    {
      PassRange(data, start, length, step, dir);
      step := step / 2;
    }
  }

  // ----------------------------------------------------- the hypercube

  /** `rank ^ (1 << j)`: the rank that differs from `rank` in bit `j` only
      (`Arith.XorPow2`, `PartnerFacts`). */
  function Partner(rank: nat, j: nat): (q: nat) {
    Xor(rank, Pow2(j))
  }

  /** `((rank >> (k + 1)) & 1) == 0 ? 1 : 0`: ascending exactly when bit
      `k + 1` of `rank` is clear. */
  function Direction(rank: nat, k: nat): (dir: int)
    ensures dir == 0 || dir == 1
    ensures dir == 1 <==> Bit(rank, k + 1) == 0
  {
    BitAndOne(Shr(rank, k + 1));
    if BitAnd(Shr(rank, k + 1), 1) == 0 then 1 else 0
  }

  /** A rank whose bit `j` is clear pairs with the rank `2^j` above it, which
      still exists among `2^logp` ranks, and whose bit `j` is set. */
  lemma PartnerUp(rank: nat, j: nat, logp: nat)
    requires rank < Pow2(logp) && j < logp && Bit(rank, j) == 0
    ensures Partner(rank, j) == rank + Pow2(j) < Pow2(logp) && Bit(rank + Pow2(j), j) == 1
  {
    XorPow2(rank, j);
    BitSet(rank, Pow2(j));
    PartnerBelow(rank, j, logp);
  }

  lemma BitSet(rank: nat, p: nat)
    requires p >= 1 && (rank / p) % 2 == 0
    ensures ((rank + p) / p) % 2 == 1
  {
    ModShift(rank, p);
  }

  lemma PartnerBelow(rank: nat, j: nat, logp: nat)
    requires rank < Pow2(logp) && j < logp && Bit(rank, j) == 0
    ensures rank + Pow2(j) < Pow2(logp)
  {
    var p, h := BlockSplit(logp, j);
    BlockBelow(rank, p, h);
  }

  /** A rank whose bit `j` is set pairs with the rank `2^j` below it, whose
      bit `j` is clear. */
  lemma PartnerDown(rank: nat, j: nat)
    requires Bit(rank, j) == 1
    ensures rank >= Pow2(j) && Partner(rank, j) == rank - Pow2(j) && Bit(rank - Pow2(j), j) == 0
  {
    XorPow2(rank, j);
    var p := Pow2(j);
    if rank < p {
      ModSmall(rank, p);
      assert false;
    }
    BitClear(rank - p, p);
  }

  lemma BitClear(rank: nat, p: nat)
    requires p >= 1 && ((rank + p) / p) % 2 == 1
    ensures (rank / p) % 2 == 0
  {
    ModShift(rank, p);
  }

  /** On `2^logp` ranks and `j < logp`, the partner is another rank, and
      partnering is an involution: it flips bit `j`. */
  lemma PartnerFacts(rank: nat, j: nat, logp: nat)
    requires rank < Pow2(logp) && j < logp
    ensures Partner(rank, j) < Pow2(logp) && Partner(rank, j) != rank
    ensures Partner(Partner(rank, j), j) == rank
    ensures Partner(rank, j) == if Bit(rank, j) == 0 then rank + Pow2(j) else rank - Pow2(j)
  {
    if Bit(rank, j) == 0 {
      PartnerUp(rank, j, logp);
      PartnerDown(rank + Pow2(j), j);
    } else {
      PartnerDown(rank, j);
      PartnerUp(rank - Pow2(j), j, logp);
    }
  }

  /** All slices hold `n` elements. */
  predicate Uniform(slices: seq<seq<int>>, n: nat) {
    forall r :: 0 <= r < |slices| ==> |slices[r]| == n
  }

  /** The slice a rank keeps after one step, from its own slice `mine` and
      the `theirs` it received from its partner: the lower rank of a pair calls
      `compare_exchange(local, recv)` for `dir == 1` and
      `compare_exchange(recv, local)` otherwise, the higher rank the reverse. */
  function Exchanged(mine: seq<int>, theirs: seq<int>, lower: bool, dir: int): (r: seq<int>)
    requires |mine| == |theirs|
    ensures |r| == |mine|
    ensures forall i :: 0 <= i < |r| ==> r[i] == mine[i] || r[i] == theirs[i]
  {
    var n := |mine|;
    if lower then
      if dir == 1 then ExchangeFirst(mine, theirs, n, dir) else ExchangeSecond(theirs, mine, n, dir)
    else
      if dir == 1 then ExchangeSecond(theirs, mine, n, dir) else ExchangeFirst(mine, theirs, n, dir)
  }

  function ElementMin(a: seq<int>, b: seq<int>): (r: seq<int>)
    requires |a| == |b|
    ensures |r| == |a|
  {
    seq(|a|, i requires 0 <= i < |a| => if a[i] <= b[i] then a[i] else b[i])
  }

  function ElementMax(a: seq<int>, b: seq<int>): (r: seq<int>)
    requires |a| == |b|
    ensures |r| == |a|
  {
    seq(|a|, i requires 0 <= i < |a| => if a[i] <= b[i] then b[i] else a[i])
  }

  /** The direction bit decides nothing: for either direction the lower rank
      keeps the element-wise minimum and the higher rank the element-wise
      maximum. The "keep higher elements" branches keep the lower ones. */
  lemma DirectionIrrelevant(mine: seq<int>, theirs: seq<int>, dir: int)
    requires |mine| == |theirs| && (dir == 0 || dir == 1)
    ensures Exchanged(mine, theirs, true, dir) == ElementMin(mine, theirs)
    ensures Exchanged(mine, theirs, false, dir) == ElementMax(mine, theirs)
  {
  }

  /** An element-wise minimum and maximum hold the two slices' elements
      between them. */
  lemma {:induction false} MinMaxBag(a: seq<int>, b: seq<int>)
    requires |a| == |b|
    ensures multiset(ElementMin(a, b)) + multiset(ElementMax(a, b)) == multiset(a) + multiset(b)
    decreases |a|
  {
    if a != [] {
      MinMaxBag(a[1..], b[1..]);
      MinMaxBagStep(a, b);
    }
  }

  /** The step of `MinMaxBag`: the first minimum and maximum are the first
      pair, and the rest keeps the rest. */
  lemma MinMaxBagStep(a: seq<int>, b: seq<int>)
    requires |a| == |b| && a != []
    requires multiset(ElementMin(a[1..], b[1..])) + multiset(ElementMax(a[1..], b[1..])) ==
      multiset(a[1..]) + multiset(b[1..])
    ensures multiset(ElementMin(a, b)) + multiset(ElementMax(a, b)) == multiset(a) + multiset(b)
  {
    var mn, mx := ElementMin(a, b), ElementMax(a, b);
    assert mn[1..] == ElementMin(a[1..], b[1..]);
    assert mx[1..] == ElementMax(a[1..], b[1..]);
    HeadTail(mn);
    HeadTail(mx);
    HeadTail(a);
    HeadTail(b);
    assert multiset{mn[0]} + multiset{mx[0]} == multiset{a[0]} + multiset{b[0]} by {
      if a[0] <= b[0] {
        assert mn[0] == a[0] && mx[0] == b[0];
      } else {
        assert mn[0] == b[0] && mx[0] == a[0];
      }
    }
    Regroup(multiset{mn[0]}, multiset{mx[0]}, multiset(mn[1..]), multiset(mx[1..]),
            multiset{a[0]}, multiset{b[0]}, multiset(a[1..]), multiset(b[1..]));
  }

  /** The element-wise minimum and maximum of two ascending slices are
      ascending. */
  lemma MinMaxSorted(a: seq<int>, b: seq<int>)
    requires |a| == |b| && Sorted(a) && Sorted(b)
    ensures Sorted(ElementMin(a, b)) && Sorted(ElementMax(a, b))
  {
  }

  /** The maximum does not depend on which slice comes first. */
  lemma MaxSymmetric(a: seq<int>, b: seq<int>)
    requires |a| == |b|
    ensures ElementMax(a, b) == ElementMax(b, a)
  {
  }

  /** What rank `r` holds after stage `k`, step `j`. */
  function RankStep(slices: seq<seq<int>>, n: nat, logp: nat, k: nat, j: nat, r: nat): (next: seq<int>)
    requires |slices| == Pow2(logp) && Uniform(slices, n) && j < logp && r < |slices|
    ensures |next| == n
  {
    PartnerFacts(r, j, logp);
    var partner := Partner(r, j);
    Exchanged(slices[r], slices[partner], r < partner, Direction(r, k))
  }

  /** Stage `k`, step `j` on all ranks at once. */
  function ExchangeStep(slices: seq<seq<int>>, n: nat, logp: nat, k: nat, j: nat): (next: seq<seq<int>>)
    requires |slices| == Pow2(logp) && Uniform(slices, n) && j < logp
    ensures |next| == |slices| && Uniform(next, n)
  {
    seq(|slices|, r requires 0 <= r < |slices| => RankStep(slices, n, logp, k, j, r))
  }

  /** The steps `j-1, ..., 0` of stage `k`. */
  function StageSteps(slices: seq<seq<int>>, n: nat, logp: nat, k: nat, j: nat): (next: seq<seq<int>>)
    requires |slices| == Pow2(logp) && Uniform(slices, n) && j <= logp
    ensures |next| == |slices| && Uniform(next, n)
    decreases j
  {
    if j == 0 then slices else StageSteps(ExchangeStep(slices, n, logp, k, j - 1), n, logp, k, j - 1)
  }

  /** The stages `k, ..., logp-1`, stage `k` running steps `k` down to 0. */
  function Stages(slices: seq<seq<int>>, n: nat, logp: nat, k: nat): (next: seq<seq<int>>)
    requires |slices| == Pow2(logp) && Uniform(slices, n) && k <= logp
    ensures |next| == |slices| && Uniform(next, n)
    decreases logp - k
  {
    if k == logp then slices else Stages(StageSteps(slices, n, logp, k, k + 1), n, logp, k + 1)
  }

  /** What a rank keeps after a step: its partner is another rank, whose
      partner it is; the lower of the two keeps the element-wise minimum of
      their slices and the higher the element-wise maximum. */
  lemma RankStepMinMax(slices: seq<seq<int>>, n: nat, logp: nat, k: nat, j: nat, r: nat)
    requires |slices| == Pow2(logp) && Uniform(slices, n) && j < logp && r < |slices|
    ensures Partner(r, j) < |slices| && Partner(r, j) != r && Partner(Partner(r, j), j) == r
    ensures var p := Partner(r, j);
      RankStep(slices, n, logp, k, j, r) ==
        if r < p then ElementMin(slices[r], slices[p]) else ElementMax(slices[p], slices[r])
  {
    PartnerFacts(r, j, logp);
    var p := Partner(r, j);
    DirectionIrrelevant(slices[r], slices[p], Direction(r, k));
    MaxSymmetric(slices[r], slices[p]);
  }

  /** One step on the pair of a rank `r` whose bit `j` is clear and the rank
      `r + 2^j`: the pair keeps its elements, and ascending slices stay
      ascending. */
  lemma ExchangeStepPair(slices: seq<seq<int>>, n: nat, logp: nat, k: nat, j: nat, r: nat)
    requires |slices| == Pow2(logp) && Uniform(slices, n) && j < logp && r < |slices| && Bit(r, j) == 0
    ensures r + Pow2(j) < |slices|
    ensures var p, next := r + Pow2(j), ExchangeStep(slices, n, logp, k, j);
      next[r] == ElementMin(slices[r], slices[p]) && next[p] == ElementMax(slices[r], slices[p]) &&
      multiset(next[r]) + multiset(next[p]) == multiset(slices[r]) + multiset(slices[p])
  {
    PartnerFacts(r, j, logp);
    var p := r + Pow2(j);
    RankStepMinMax(slices, n, logp, k, j, r);
    RankStepMinMax(slices, n, logp, k, j, p);
    MinMaxBag(slices[r], slices[p]);
  }

  // ------------------------------------------- what the whole network keeps

  /** A step keeps all the elements: the ranks together hold the same
      multiset after it as before. */
  lemma ExchangeStepPermutes(slices: seq<seq<int>>, n: nat, logp: nat, k: nat, j: nat)
    requires |slices| == Pow2(logp) && Uniform(slices, n) && j < logp
    ensures Bag(ExchangeStep(slices, n, logp, k, j), 0, |slices|) == Bag(slices, 0, |slices|)
  {
    var next := ExchangeStep(slices, n, logp, k, j);
    var d, nb := BlockSplit(logp, j);
    forall r | 0 <= r < |slices| && r % (2 * d) < d && r + d < |slices|
      ensures multiset(next[r]) + multiset(next[r + d]) == multiset(slices[r]) + multiset(slices[r + d])
    {
      LowerHalfBit(r, j);
      ExchangeStepPair(slices, n, logp, k, j, r);
    }
    BagBlocks(slices, next, d, nb);
  }

  /** Every slice ascending. */
  predicate AllSorted(slices: seq<seq<int>>) {
    forall r :: 0 <= r < |slices| ==> Sorted(slices[r])
  }

  /** A step keeps every slice ascending. */
  lemma ExchangeStepKeepsSorted(slices: seq<seq<int>>, n: nat, logp: nat, k: nat, j: nat)
    requires |slices| == Pow2(logp) && Uniform(slices, n) && j < logp && AllSorted(slices)
    ensures AllSorted(ExchangeStep(slices, n, logp, k, j))
  {
    forall r | 0 <= r < |slices| ensures Sorted(ExchangeStep(slices, n, logp, k, j)[r]) {
      RankStepMinMax(slices, n, logp, k, j, r);
      var p := Partner(r, j);
      MinMaxSorted(slices[r], slices[p]);
      MinMaxSorted(slices[p], slices[r]);
    }
  }

  lemma {:induction false} StageStepsPermute(slices: seq<seq<int>>, n: nat, logp: nat, k: nat, j: nat)
    requires |slices| == Pow2(logp) && Uniform(slices, n) && j <= logp
    ensures Bag(StageSteps(slices, n, logp, k, j), 0, |slices|) == Bag(slices, 0, |slices|)
    decreases j
  {
    if j > 0 {
      var i := j - 1;
      StageStepsPermute(ExchangeStep(slices, n, logp, k, i), n, logp, k, i);
      StageStepsChain(slices, n, logp, k, i, j);
    }
  }

  /** If the steps from `i` keep the multiset after step `i`, the steps from
      `j = i + 1` keep it. */
  lemma StageStepsChain(slices: seq<seq<int>>, n: nat, logp: nat, k: nat, i: nat, j: nat)
    requires |slices| == Pow2(logp) && Uniform(slices, n) && j == i + 1 && j <= logp
    requires var next := ExchangeStep(slices, n, logp, k, i);
      Bag(StageSteps(next, n, logp, k, i), 0, |slices|) == Bag(next, 0, |slices|)
    ensures Bag(StageSteps(slices, n, logp, k, j), 0, |slices|) == Bag(slices, 0, |slices|)
  {
    var next := ExchangeStep(slices, n, logp, k, i);
    ExchangeStepPermutes(slices, n, logp, k, i);
    assert StageSteps(slices, n, logp, k, j) == StageSteps(next, n, logp, k, i);
  }

  lemma {:induction false} StageStepsKeepSorted(slices: seq<seq<int>>, n: nat, logp: nat, k: nat, j: nat)
    requires |slices| == Pow2(logp) && Uniform(slices, n) && j <= logp && AllSorted(slices)
    ensures AllSorted(StageSteps(slices, n, logp, k, j))
    decreases j
  {
    if j > 0 {
      ExchangeStepKeepsSorted(slices, n, logp, k, j - 1);
      StageStepsKeepSorted(ExchangeStep(slices, n, logp, k, j - 1), n, logp, k, j - 1);
    }
  }

  /** The stages keep all the elements. */
  lemma StagesPermute(slices: seq<seq<int>>, n: nat, logp: nat, k: nat)
    requires |slices| == Pow2(logp) && Uniform(slices, n) && k <= logp
    ensures multiset(Concat(Stages(slices, n, logp, k))) == multiset(Concat(slices))
  {
    var result := Stages(slices, n, logp, k);
    StagesBag(slices, n, logp, k);
    BagConcat(slices, 0);
    BagConcat(result, 0);
    assert slices[0..] == slices && result[0..] == result;
  }

  lemma {:induction false} StagesBag(slices: seq<seq<int>>, n: nat, logp: nat, k: nat)
    requires |slices| == Pow2(logp) && Uniform(slices, n) && k <= logp
    ensures Bag(Stages(slices, n, logp, k), 0, |slices|) == Bag(slices, 0, |slices|)
    decreases logp - k
  {
    if k < logp {
      StageStepsPermute(slices, n, logp, k, k + 1);
      StagesBag(StageSteps(slices, n, logp, k, k + 1), n, logp, k + 1);
    }
  }

  /** The stages keep every slice ascending. */
  lemma {:induction false} StagesKeepSorted(slices: seq<seq<int>>, n: nat, logp: nat, k: nat)
    requires |slices| == Pow2(logp) && Uniform(slices, n) && k <= logp && AllSorted(slices)
    ensures AllSorted(Stages(slices, n, logp, k))
    decreases logp - k
  {
    if k < logp {
      StageStepsKeepSorted(slices, n, logp, k, k + 1);
      StagesKeepSorted(StageSteps(slices, n, logp, k, k + 1), n, logp, k + 1);
    }
  }

  /** `mpi_bitonic_sort` on all ranks: stages `k = 0 .. logp-1`, steps
      `j = k .. 0`, `logp*(logp+1)/2` exchange steps in all. Every slice
      keeps its length, the rank-order concatenation stays a permutation of
      the input, and slices that were ascending stay ascending. */
  method MpiBitonicSort(slices: seq<seq<int>>, localN: nat) returns (result: seq<seq<int>>, ghost steps: nat)
    requires IsPow2(|slices|) && Uniform(slices, localN)
    ensures |result| == |slices| && Uniform(result, localN)
    ensures Pow2(Log2(|slices|)) == |slices| && result == Stages(slices, localN, Log2(|slices|), 0)
    ensures multiset(Concat(result)) == multiset(Concat(slices))
    ensures AllSorted(slices) ==> AllSorted(result)
    ensures steps == Log2(|slices|) * (Log2(|slices|) + 1) / 2
  {
    var size := |slices|;
    var logp := Log2(size);
    Log2OfPow2(size);
    result := slices;
    steps := 0;
    for k := 0 to logp
      invariant |result| == size && Uniform(result, localN)
      invariant Stages(result, localN, logp, k) == Stages(slices, localN, logp, 0)
      invariant 2 * steps == k * (k + 1)
    {
      ghost var stageSteps;
      result, stageSteps := Stage(result, localN, logp, k);
      steps := steps + stageSteps;
      assert (k + 1) * (k + 2) == k * (k + 1) + 2 * (k + 1);
    }
    StagesPermute(slices, localN, logp, 0);
    if AllSorted(slices) {
      StagesKeepSorted(slices, localN, logp, 0);
    }
    DivModUnique(logp * (logp + 1), 2, steps, 0);
  }

  /** Stage `k` of `mpi_bitonic_sort`: steps `j = k` down to 0, one exchange
      step each; the ranks end as `StageSteps` says. */
  method Stage(slices: seq<seq<int>>, localN: nat, logp: nat, k: nat) returns (result: seq<seq<int>>, ghost steps: nat)
    requires |slices| == Pow2(logp) && Uniform(slices, localN) && k < logp
    ensures |result| == |slices| && Uniform(result, localN)
    ensures result == StageSteps(slices, localN, logp, k, k + 1) && steps == k + 1
  {
    result := slices;
    steps := 0;
    var j: int := k;
    while j >= 0
      invariant -1 <= j <= k && |result| == |slices| && Uniform(result, localN)
      invariant StageSteps(result, localN, logp, k, j + 1) == StageSteps(slices, localN, logp, k, k + 1)
      invariant steps == k - j
    {
      result := ExchangeStep(result, localN, logp, k, j);
      steps := steps + 1;
      j := j - 1;
    }
  }

  /** On two ranks the whole schedule is one exchange: rank 0 ends with the
      element-wise minimum of the two slices and rank 1 with the maximum. */
  lemma TwoRanks(s: seq<seq<int>>, n: nat)
    requires |s| == 2 && Uniform(s, n)
    ensures Pow2(1) == 2
    ensures Stages(s, n, 1, 0) == [ElementMin(s[0], s[1]), ElementMax(s[0], s[1])]
  {
    assert Pow2(1) == 2 * Pow2(0);
    assert Bit(0, 0) == 0;
    var next := ExchangeStep(s, n, 1, 0, 0);
    ExchangeStepPair(s, n, 1, 0, 0, 0);
    assert next == [ElementMin(s[0], s[1]), ElementMax(s[0], s[1])];
    assert StageSteps(s, n, 1, 0, 1) == StageSteps(next, n, 1, 0, 0) == next;
    assert Stages(s, n, 1, 0) == Stages(next, n, 1, 1);
  }

  /** The schedule does not order the ranks among each other: on two ranks,
      `[1, 10]` and `[2, 3]` become `[1, 3]` and `[2, 10]`. */
  lemma NotGloballySorted()
    ensures Pow2(1) == 2
    ensures Stages([[1, 10], [2, 3]], 2, 1, 0) == [[1, 3], [2, 10]]
    ensures !Sorted(Concat([[1, 3], [2, 10]]))
  {
    TwoRanks([[1, 10], [2, 3]], 2);
    assert ElementMin([1, 10], [2, 3]) == [1, 3];
    assert ElementMax([1, 10], [2, 3]) == [2, 10];
    var c := Concat([[1, 3], [2, 10]]);
    assert c == [1, 3] + ([2, 10] + []);
    assert c[1] > c[2];
  }

  // ------------------------------------------------------------- main

  /** `main`'s guards: `(numtasks & (numtasks - 1)) == 0` and
      `n % numtasks == 0`; `local_n` when both pass. */
  function AcceptRun(n: nat, numtasks: nat): (localN: Option<nat>)
    requires numtasks >= 1
    ensures localN.Some? <==> IsPow2(numtasks) && n % numtasks == 0
    ensures localN.Some? ==> localN.value * numtasks == n
  {
    PowerOfTwoTest(numtasks);
    if BitAnd(numtasks, numtasks - 1) != 0 then None else EvenShare(n, numtasks)
  }

  /** The guards of `main` with the check the local sort needs: besides a
      power-of-two process count dividing `n`, `local_n` must be a power of
      two (or zero), since `bitonic_sort_local` sorts only such ranges. */
  function AcceptRunChecked(n: nat, numtasks: nat): (localN: Option<nat>)
    requires numtasks >= 1
    ensures localN.Some? <==> IsPow2(numtasks) && n % numtasks == 0 && (n / numtasks == 0 || IsPow2(n / numtasks))
    ensures localN.Some? ==> localN.value * numtasks == n && localN.value == n / numtasks
  {
    var accepted := AcceptRun(n, numtasks);
    if accepted.Some? then
      DivModUnique(n, numtasks, accepted.value, 0);
      if accepted.value == 0 || IsPow2(accepted.value) then accepted else None
    else None
  }

  /** The guards of `main` let through a block size the local sort cannot
      handle: with 4 ranks and `n = 12`, `local_n = 3`, and
      `bitonic_sort_local` turns `[3, 2, 1]` into `[2, 3, 1]`. */
  lemma LocalSortNeedsPowerOfTwo()
    ensures AcceptRun(12, 4) == Some(3) && AcceptRunChecked(12, 4) == None
    ensures BitonicLocal([3, 2, 1], 1) == [2, 3, 1] && !Sorted([2, 3, 1])
  {
    assert IsPow2(4) by {
      assert IsPow2(2);
    }
    assert !IsPow2(3);
    ThreeHalves();
    ThreeMerge();
    var out: seq<int> := [2, 3, 1];
    assert out[1] > out[2];
  }

  /** On `[3, 2, 1]` the halves `[3]` and `[2]` are single cells, so the
      local sort is the merge of the input itself. */
  lemma ThreeHalves()
    ensures BitonicLocal([3, 2, 1], 1) == Merge([3, 2, 1], 1, 1)
  {
    var s: seq<int> := [3, 2, 1];
    assert s[..1] == [3] && s[1..2] == [2] && s[2..] == [1];
    assert BitonicLocal([3], 1) == [3];
    assert BitonicLocal([2], 0) == [2];
  }

  /** The merge from `step = 1` swaps the first pair only. */
  lemma ThreeMerge()
    ensures Merge([3, 2, 1], 1, 1) == [2, 3, 1]
  {
    var passed := Pass([3, 2, 1], 1, 1);
    assert passed[0] == Cell([3, 2, 1], 1, 1, 3, 0) == 2;
    assert passed[1] == Cell([3, 2, 1], 1, 1, 3, 1) == 3;
    assert passed[2] == Cell([3, 2, 1], 1, 1, 3, 2) == 1 by {
      assert !PairLow(2, 1, 3) && !PairHigh(2, 1);
    }
    assert passed == [2, 3, 1];
  }

  /** `MPI_Gather(MPI_IN_PLACE, ...)` at rank 0 leaves rank 0's part of `data`
      as the input had it, not as rank 0's final slice: `[2, 1]` on two ranks
      ends with slices `[1]` and `[2]`, and the gathered array is `[2, 2]`. */
  lemma GatherDropsRootSlice()
    ensures Pow2(1) == 2 && AcceptRunChecked(2, 2) == Some(1)
    ensures Stages([[2], [1]], 1, 1, 0) == [[1], [2]]
    ensures GatherInPlace([2, 1], [[1], [2]], 1) == [2, 2] && multiset([2, 2]) != multiset([2, 1])
  {
    assert IsPow2(2) && IsPow2(1);
    TwoRanks([[2], [1]], 1);
    assert ElementMin([2], [1]) == [1] && ElementMax([2], [1]) == [2];
    assert [[1], [2]][1..] == [[2]];
    assert Concat([[2]]) == [2] + Concat([]);
    assert multiset([2, 2])[1] == 0;
  }

  /** The program after its guards, with the block-size check added and every
      rank's final slice gathered: scatter into `numtasks` blocks, the
      ascending local sort on every rank, `mpi_bitonic_sort`, and the gather.
      The gathered array is a permutation of the input, made of `numtasks`
      ascending blocks of `n / numtasks`. */
  method BitonicRun(data: seq<int>, numtasks: nat) returns (gathered: Option<seq<int>>, ghost blocks: seq<seq<int>>)
    requires numtasks >= 1
    ensures gathered.Some? <==> AcceptRunChecked(|data|, numtasks).Some?
    ensures gathered.Some? ==> multiset(gathered.value) == multiset(data)
    ensures gathered.Some? ==> |blocks| == numtasks && Uniform(blocks, |data| / numtasks) && gathered.value == Concat(blocks)
    ensures gathered.Some? ==> AllSorted(blocks)
  {
    var accepted := AcceptRunChecked(|data|, numtasks);
    if accepted.None? {
      return None, [];
    }
    var localN := accepted.value;
    var local := Split(data, numtasks, localN);
    var sortedLocal := LocalSorts(local, localN);
    ConcatSplit(data, numtasks, localN);
    ConcatPermutes(sortedLocal, local);
    var result;
    ghost var steps;
    result, steps := MpiBitonicSort(sortedLocal, localN);
    blocks := result;
    gathered := Some(Concat(result));
  }

  /** Every rank's `bitonic_sort_local(local_data, 0, local_n, 1)`. */
  method LocalSorts(local: seq<seq<int>>, localN: nat) returns (sortedLocal: seq<seq<int>>)
    requires Uniform(local, localN)
    ensures |sortedLocal| == |local| && Uniform(sortedLocal, localN)
    ensures forall r :: 0 <= r < |local| ==> multiset(sortedLocal[r]) == multiset(local[r])
    ensures localN == 0 || IsPow2(localN) ==> AllSorted(sortedLocal)
  {
    sortedLocal := [];
    for r := 0 to |local|
      invariant |sortedLocal| == r
      invariant forall q :: 0 <= q < r ==> sortedLocal[q] == BitonicLocal(local[q], 1)
    {
      var piece := SortSlice(local[r]);
      sortedLocal := sortedLocal + [piece];
    }
    forall r | 0 <= r < |local|
      ensures multiset(sortedLocal[r]) == multiset(local[r])
      ensures localN == 0 || IsPow2(localN) ==> Sorted(sortedLocal[r])
    {
      LocalSortOf(local[r]);
    }
  }

  /** One rank's local sort: its slice copied into a buffer, sorted in place
      ascending over the whole buffer. */
  method SortSlice(slice: seq<int>) returns (sorted: seq<int>)
    ensures sorted == BitonicLocal(slice, 1)
  {
    var n := |slice|;
    var buffer := new int[n](i requires 0 <= i < n reads {} => slice[i]);
    assert buffer[..] == slice && buffer[0..n] == buffer[..];
    BitonicSortLocal(buffer, 0, n, 1);
    assert buffer[0..n] == buffer[..];
    sorted := buffer[..];
  }

  /** The ascending local sort keeps a slice's elements, and sorts it when
      its length is a power of two (or zero). */
  lemma LocalSortOf(s: seq<int>)
    ensures multiset(BitonicLocal(s, 1)) == multiset(s)
    ensures |s| == 0 || IsPow2(|s|) ==> Sorted(BitonicLocal(s, 1))
  {
    BitonicLocalBag(s, 1);
    if IsPow2(|s|) {
      Log2OfPow2(|s|);
      BitonicLocalSorts(s, 1, Log2(|s|));
    }
  }
}
