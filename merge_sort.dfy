/** The merge-sort engine (Merge_Sort/merge_sort.cpp): the root splits the
    input into near-equal blocks, every rank sorts its block, and a binomial
    tree of merges collects the sorted whole at rank 0, which then scans it
    for an adjacent pair out of order. */
module MergeSort {
  import opened Seqs
  import opened Arith

  // -------------------------------------------------------- distribution

  /** The counts and displacements the root computes before `MPI_Scatterv`:
      `inputSize / size` elements per rank, one more for the first
      `inputSize % size` ranks, each block starting where the previous ended. */
  method BlockDistribution(inputSize: nat, size: nat) returns (sendCounts: seq<int>, displacements: seq<int>)
    requires size >= 1
    ensures |sendCounts| == size && |displacements| == size
    ensures NonNegatives(sendCounts) && Sum(sendCounts) == inputSize
    ensures forall i, j :: 0 <= i < j < size ==> sendCounts[j] <= sendCounts[i] <= sendCounts[j] + 1
    ensures forall i :: 0 <= i < size ==> (sendCounts[i] > inputSize / size <==> i < inputSize % size)
    ensures displacements == ExclusiveScan(sendCounts)
  {
    var avgSize := inputSize / size;
    var remainder := inputSize % size;
    var offset := 0;
    sendCounts, displacements := [], [];
    for i := 0 to size
      invariant |sendCounts| == i && |displacements| == i
      invariant forall j :: 0 <= j < i ==> sendCounts[j] == avgSize + (if j < remainder then 1 else 0)
      invariant offset == Sum(sendCounts) == i * avgSize + (if i < remainder then i else remainder)
      invariant displacements == ExclusiveScan(sendCounts)
    {
      var count := avgSize + (if i < remainder then 1 else 0);
      ExclusiveScanSnoc(sendCounts, count);
      SumAppend(sendCounts, [count]);
      assert (i + 1) * avgSize == i * avgSize + avgSize;
      sendCounts := sendCounts + [count];
      displacements := displacements + [offset];
      offset := offset + count;
    }
    BlockCounts(sendCounts, inputSize, size, avgSize, remainder);
  }

  /** Counts of `inputSize / size`, one more below `inputSize % size`, are
      non-negative, add up to the input, and differ by at most one. */
  lemma BlockCounts(counts: seq<int>, inputSize: nat, size: nat, avgSize: int, remainder: int)
    requires size >= 1 && |counts| == size
    requires avgSize == inputSize / size && remainder == inputSize % size
    requires forall j :: 0 <= j < size ==> counts[j] == avgSize + (if j < remainder then 1 else 0)
    requires Sum(counts) == size * avgSize + (if size < remainder then size else remainder)
    ensures NonNegatives(counts) && Sum(counts) == inputSize
    ensures forall i, j :: 0 <= i < j < size ==> counts[j] <= counts[i] <= counts[j] + 1
    ensures forall i :: 0 <= i < size ==> (counts[i] > inputSize / size <==> i < inputSize % size)
  {
    assert inputSize == avgSize * size + remainder;
    assert forall i :: 0 <= i < size ==> counts[i] >= 0;
  }

  /** `MPI_Scatterv`: rank `r` receives `counts[r]` elements from `displs[r]` on. */
  function Scatterv(data: seq<int>, counts: seq<int>, displs: seq<int>): (local: seq<seq<int>>)
    requires |counts| == |displs|
    requires forall r :: 0 <= r < |counts| ==> 0 <= displs[r] && 0 <= counts[r] && displs[r] + counts[r] <= |data|
    ensures |local| == |counts| && forall r :: 0 <= r < |local| ==> |local[r]| == counts[r]
  {
    seq(|counts|, r requires 0 <= r < |counts| => data[displs[r]..displs[r] + counts[r]])
  }

  /** Cuts at the running totals of non-negative counts that add up to `len`
      stay inside `len` elements. */
  predicate CutsFit(counts: seq<int>, len: int) {
    forall r :: 0 <= r < |counts| ==>
      0 <= ExclusiveScan(counts)[r] && ExclusiveScan(counts)[r] + counts[r] <= len
  }

  /** Blocks cut at the running totals of counts that add up to the input
      length are in range and, gathered in rank order, give back the input. */
  lemma ScattervTiles(data: seq<int>, counts: seq<int>)
    requires NonNegatives(counts) && Sum(counts) == |data|
    ensures CutsFit(counts, |data|)
    ensures Concat(Scatterv(data, counts, ExclusiveScan(counts))) == data
  {
    ExclusiveScanTiles(counts);
    ScattervSuffix(data, counts, 0);
    assert counts[..0] == [];
    assert Scatterv(data, counts, ExclusiveScan(counts))[0..] == Scatterv(data, counts, ExclusiveScan(counts));
  }

  /** The blocks of ranks `lo` onwards, gathered, are the input from the
      running total at `lo` on. */
  lemma {:induction false} ScattervSuffix(data: seq<int>, counts: seq<int>, lo: nat)
    requires NonNegatives(counts) && Sum(counts) == |data| && CutsFit(counts, |data|) && lo <= |counts|
    ensures 0 <= Sum(counts[..lo]) <= |data|
    ensures Concat(Scatterv(data, counts, ExclusiveScan(counts))[lo..]) == data[Sum(counts[..lo])..]
    decreases |counts| - lo
  {
    if lo == |counts| {
      assert counts[..lo] == counts;
      assert Scatterv(data, counts, ExclusiveScan(counts))[lo..] == [];
    } else {
      ScattervSuffix(data, counts, lo + 1);
      ScattervSuffixStep(data, counts, lo);
    }
  }

  /** The step of `ScattervSuffix`: block `lo` in front of the blocks after it. */
  lemma ScattervSuffixStep(data: seq<int>, counts: seq<int>, lo: nat)
    requires NonNegatives(counts) && Sum(counts) == |data| && CutsFit(counts, |data|) && lo < |counts|
    requires 0 <= Sum(counts[..lo + 1]) <= |data|
    requires Concat(Scatterv(data, counts, ExclusiveScan(counts))[lo + 1..]) == data[Sum(counts[..lo + 1])..]
    ensures 0 <= Sum(counts[..lo]) <= |data|
    ensures Concat(Scatterv(data, counts, ExclusiveScan(counts))[lo..]) == data[Sum(counts[..lo])..]
  {
    var local := Scatterv(data, counts, ExclusiveScan(counts));
    SumSnoc(counts, lo);
    var a, b := Sum(counts[..lo]), Sum(counts[..lo + 1]);
    ScattervAt(data, counts, lo);
    ConcatFrom(local, lo);
    SuffixSplit(data, a, b);
  }

  /** Rank `r`'s block starts at the running total of the counts before it. */
  lemma ScattervAt(data: seq<int>, counts: seq<int>, r: nat)
    requires NonNegatives(counts) && CutsFit(counts, |data|) && r < |counts|
    ensures 0 <= Sum(counts[..r]) <= Sum(counts[..r]) + counts[r] <= |data|
    ensures Scatterv(data, counts, ExclusiveScan(counts))[r] == data[Sum(counts[..r])..Sum(counts[..r]) + counts[r]]
  {
    assert ExclusiveScan(counts)[r] == Sum(counts[..r]);
  }

  // --------------------------------------------------------------- merge

  /** `std::merge`: repeatedly take the smaller head, the first range's on ties. */
  function Merge(a: seq<int>, b: seq<int>): (m: seq<int>)
    ensures multiset(m) == multiset(a) + multiset(b) && |m| == |a| + |b|
    decreases |a| + |b|
  {
    if a == [] then b
    else if b == [] then a
    else if b[0] < a[0] then
      assert b == [b[0]] + b[1..];
      [b[0]] + Merge(a, b[1..])
    else
      assert a == [a[0]] + a[1..];
      [a[0]] + Merge(a[1..], b)
  }

  /** A lower bound of both ranges bounds their merge. */
  lemma MergeLowerBound(a: seq<int>, b: seq<int>, x: int)
    requires forall i :: 0 <= i < |a| ==> x <= a[i]
    requires forall i :: 0 <= i < |b| ==> x <= b[i]
    ensures forall k :: 0 <= k < |Merge(a, b)| ==> x <= Merge(a, b)[k]
  {
    var m := Merge(a, b);
    forall k | 0 <= k < |m| ensures x <= m[k] {
      assert m[k] in multiset(m);
    }
  }

  lemma {:induction false} MergeSorted(a: seq<int>, b: seq<int>)
    requires Sorted(a) && Sorted(b)
    ensures Sorted(Merge(a, b))
    decreases |a| + |b|
  {
    if a != [] && b != [] {
      if b[0] < a[0] {
        MergeSorted(a, b[1..]);
        MergeLowerBound(a, b[1..], b[0]);
        assert Merge(a, b) == [b[0]] + Merge(a, b[1..]);
      } else {
        MergeSorted(a[1..], b);
        MergeLowerBound(a[1..], b, a[0]);
        assert Merge(a, b) == [a[0]] + Merge(a[1..], b);
      }
    }
  }

  /** Merging two sorted ranges is sorting their union. */
  lemma MergeIsSort(a: seq<int>, b: seq<int>)
    requires Sorted(a) && Sorted(b)
    ensures Merge(a, b) == Sort(a + b)
  {
    MergeSorted(a, b);
    SortedUnique(Merge(a, b), Sort(a + b));
  }

  // ---------------------------------------------------------- merge tree

  /** What a rank holds after the local sort: the sorted block it received. */
  function LocalSort(local: seq<seq<int>>): (sorted: seq<seq<int>>)
    ensures |sorted| == |local|
    ensures forall r :: 0 <= r < |local| ==> Sorted(sorted[r]) && multiset(sorted[r]) == multiset(local[r])
  {
    seq(|local|, r requires 0 <= r < |local| => Sort(local[r]))
  }

  function Min(a: int, b: int): (m: int) {
    if a <= b then a else b
  }

  /** The blocks of ranks `r .. r+w-1` (those that exist), in rank order. */
  function Span(init: seq<seq<int>>, r: nat, w: nat): (span: seq<int>)
    requires r <= |init|
  {
    Concat(init[r..Min(r + w, |init|)])
  }

  /** The data each rank holds after the round with `step`: an active rank at
      a multiple of `2*step` whose partner `rank+step` exists merges in the
      partner's data; everything else keeps its data. */
  function MergeData(data: seq<seq<int>>, active: seq<bool>, step: nat): (next: seq<seq<int>>)
    requires |active| == |data| && step >= 1
    ensures |next| == |data|
  {
    seq(|data|, r requires 0 <= r < |data| =>
      if active[r] && r % (2 * step) == 0 && r + step < |data| then Merge(data[r], data[r + step]) else data[r])
  }

  /** Who is still active after the round with `step`: an active rank at an
      odd multiple of `step` sends and goes inactive. */
  function NextActive(active: seq<bool>, step: nat): (next: seq<bool>)
    requires step >= 1
    ensures |next| == |active|
    ensures forall r :: 0 <= r < |next| && next[r] ==> active[r]
  {
    seq(|active|, r requires 0 <= r < |active| => active[r] && r % (2 * step) != step)
  }

  /** The state of the tree before the round with `step`: exactly the
      multiples of `step` are active, and each holds its span of `step`
      blocks, sorted. */
  predicate TreeState(init: seq<seq<int>>, data: seq<seq<int>>, active: seq<bool>, step: nat)
  {
    |data| == |init| && |active| == |init| && step >= 1 &&
    (forall r :: 0 <= r < |init| ==> (active[r] <==> r % step == 0)) &&
    forall r :: 0 <= r < |init| && active[r] ==>
      Sorted(data[r]) && multiset(data[r]) == multiset(Span(init, r, step))
  }

  /** A remainder modulo `2*s` is the remainder modulo `s`, or that plus `s`. */
  lemma ModDouble(r: nat, s: nat)
    requires s >= 1
    ensures r % (2 * s) == r % s || r % (2 * s) == r % s + s
  {
    var q, t := r / (2 * s), r % (2 * s);
    assert r == q * (2 * s) + t;
    assert q * (2 * s) == (2 * q) * s;
    if t < s {
      DivModUnique(r, s, 2 * q, t);
    } else {
      assert r == (2 * q + 1) * s + (t - s);
      DivModUnique(r, s, 2 * q + 1, t - s);
    }
  }

  lemma SpanJoin(init: seq<seq<int>>, r: nat, s: nat)
    requires r + s <= |init|
    ensures Span(init, r, 2 * s) == Span(init, r, s) + Span(init, r + s, s)
  {
    var hi := Min(r + 2 * s, |init|);
    assert init[r..hi] == init[r..r + s] + init[r + s..hi];
    ConcatAppend(init[r..r + s], init[r + s..hi]);
  }

  /** Who takes part in a round: a receiver's partner `rank+step` is active,
      and it is a sender of the same round. */
  lemma RoundPartners(init: seq<seq<int>>, data: seq<seq<int>>, active: seq<bool>, step: nat, r: nat)
    requires TreeState(init, data, active, step) && r < |init|
    requires active[r] && r % (2 * step) == 0 && r + step < |init|
    ensures active[r + step] && (r + step) % (2 * step) == step
    ensures !NextActive(active, step)[r + step]
  {
    DivModUnique(r + step, 2 * step, r / (2 * step), step);
    ModDouble(r + step, step);
  }

  /** One round turns the state for `step` into the state for `2*step`. */
  lemma RoundKeepsState(init: seq<seq<int>>, data: seq<seq<int>>, active: seq<bool>, step: nat)
    requires TreeState(init, data, active, step)
    ensures TreeState(init, MergeData(data, active, step), NextActive(active, step), 2 * step)
  {
    var data', active' := MergeData(data, active, step), NextActive(active, step);
    forall r | 0 <= r < |init| ensures active'[r] <==> r % (2 * step) == 0 {
      RoundActive(init, data, active, step, r);
    }
    forall r | 0 <= r < |init| && active'[r]
      ensures Sorted(data'[r]) && multiset(data'[r]) == multiset(Span(init, r, 2 * step))
    {
      RoundActive(init, data, active, step, r);
      RoundMerged(init, data, active, step, r);
    }
  }

  /** After the round exactly the multiples of `2*step` are active. */
  lemma RoundActive(init: seq<seq<int>>, data: seq<seq<int>>, active: seq<bool>, step: nat, r: nat)
    requires TreeState(init, data, active, step) && r < |init|
    ensures NextActive(active, step)[r] <==> r % (2 * step) == 0
  {
    ModDouble(r, step);
  }

  /** A rank at a multiple of `2*step` ends the round holding its span of
      `2*step` blocks, sorted: merged with its partner's, or its own when the
      partner does not exist. */
  lemma RoundMerged(init: seq<seq<int>>, data: seq<seq<int>>, active: seq<bool>, step: nat, r: nat)
    requires TreeState(init, data, active, step) && r < |init| && r % (2 * step) == 0
    ensures var next := MergeData(data, active, step)[r];
      Sorted(next) && multiset(next) == multiset(Span(init, r, 2 * step))
  {
    ModDouble(r, step);
    if r + step < |init| {
      RoundPartners(init, data, active, step, r);
      MergedPair(init, data, active, step, r);
    } else {
      assert active[r];
      assert Min(r + step, |init|) == Min(r + 2 * step, |init|);
    }
  }

  /** A receiver merges its span with its partner's, the span that follows. */
  lemma MergedPair(init: seq<seq<int>>, data: seq<seq<int>>, active: seq<bool>, step: nat, r: nat)
    requires TreeState(init, data, active, step) && r + step < |init|
    requires active[r] && active[r + step] && r % (2 * step) == 0
    ensures var next := MergeData(data, active, step)[r];
      Sorted(next) && multiset(next) == multiset(Span(init, r, 2 * step))
  {
    var a, b := data[r], data[r + step];
    assert MergeData(data, active, step)[r] == Merge(a, b);
    MergeSorted(a, b);
    SpanJoin(init, r, step);
    var sa, sb := Span(init, r, step), Span(init, r + step, step);
    assert multiset(a) == multiset(sa) && multiset(b) == multiset(sb);
    assert multiset(Merge(a, b)) == multiset(a) + multiset(b);
    assert multiset(Span(init, r, 2 * step)) == multiset(sa) + multiset(sb);
  }

  /** The multiset of everything the active ranks from `from` upwards hold. */
  function ActiveBag(data: seq<seq<int>>, active: seq<bool>, from: nat): (bag: multiset<int>)
    requires |active| == |data|
    decreases |data| - from
  {
    if from >= |data| then multiset{}
    else (if active[from] then multiset(data[from]) else multiset{}) + ActiveBag(data, active, from + 1)
  }

  /** How many elements the active ranks from `from` upwards hold. */
  function ActiveTotal(data: seq<seq<int>>, active: seq<bool>, from: nat): (total: nat)
    requires |active| == |data|
    decreases |data| - from
  {
    if from >= |data| then 0
    else (if active[from] then |data[from]| else 0) + ActiveTotal(data, active, from + 1)
  }

  lemma {:induction false} ActiveTotalIsBagSize(data: seq<seq<int>>, active: seq<bool>, from: nat)
    requires |active| == |data|
    ensures ActiveTotal(data, active, from) == |ActiveBag(data, active, from)|
    decreases |data| - from
  {
    if from < |data| {
      ActiveTotalIsBagSize(data, active, from + 1);
    }
  }

  /** Inactive ranks add nothing. */
  lemma {:induction false} ActiveBagSkip(data: seq<seq<int>>, active: seq<bool>, lo: nat, hi: nat)
    requires |active| == |data| && lo <= hi <= |data|
    requires forall r :: lo <= r < hi ==> !active[r]
    ensures ActiveBag(data, active, lo) == ActiveBag(data, active, hi)
    decreases hi - lo
  {
    if lo < hi {
      ActiveBagSkip(data, active, lo + 1, hi);
      assert !active[lo];
    }
  }

  lemma {:induction false} ActiveBagFrom(init: seq<seq<int>>, data: seq<seq<int>>, active: seq<bool>, step: nat, from: nat)
    requires TreeState(init, data, active, step) && from <= |init| && (from % step == 0 || from == |init|)
    ensures ActiveBag(data, active, from) == multiset(Concat(init[from..]))
    decreases |init| - from
  {
    if from < |init| {
      var next := Min(from + step, |init|);
      NextBlock(from, step, |init|);
      ActiveBagFrom(init, data, active, step, next);
      ActiveBagStep(init, data, active, step, from);
    }
  }

  /** What the active ranks from the next block boundary hold extends to
      what those from `from` hold. */
  lemma ActiveBagStep(init: seq<seq<int>>, data: seq<seq<int>>, active: seq<bool>, step: nat, from: nat)
    requires TreeState(init, data, active, step) && from < |init| && from % step == 0
    requires var next := Min(from + step, |init|);
      ActiveBag(data, active, next) == multiset(Concat(init[next..]))
    ensures ActiveBag(data, active, from) == multiset(Concat(init[from..]))
  {
    var next := Min(from + step, |init|);
    InactiveBetween(active, step, from);
    ActiveBagSkip(data, active, from + 1, next);
    ActiveBagJoin(init, data, active, step, from);
  }

  /** With the multiples of `step` the only active ranks, none is active
      strictly between `from` and the next block boundary. */
  lemma InactiveBetween(active: seq<bool>, step: nat, from: nat)
    requires step >= 1 && from < |active| && from % step == 0
    requires forall r :: 0 <= r < |active| ==> (active[r] <==> r % step == 0)
    ensures from + 1 <= Min(from + step, |active|) <= |active|
    ensures forall r :: from + 1 <= r < Min(from + step, |active|) ==> !active[r]
  {
    NextBlock(from, step, |active|);
  }

  /** The ranks strictly between a multiple `from` of `step` and the next
      block boundary are not multiples of `step`; the boundary is one, or the end. */
  lemma NextBlock(from: nat, step: nat, n: nat)
    requires step >= 1 && from % step == 0 && from < n
    ensures forall r :: from + 1 <= r < Min(from + step, n) ==> r % step != 0
    ensures Min(from + step, n) % step == 0 || Min(from + step, n) == n
  {
    var next := Min(from + step, n);
    forall r | from + 1 <= r < next ensures r % step != 0 {
      ModAfterMultiple(from, step, r - from);
    }
    if next < n {
      ModShift(from, step);
    }
  }

  /** The active rank `from` holds its span of blocks; with the ranks up to
      the next boundary inactive, that span joins what the active ranks from
      the boundary hold. */
  lemma ActiveBagJoin(init: seq<seq<int>>, data: seq<seq<int>>, active: seq<bool>, step: nat, from: nat)
    requires TreeState(init, data, active, step) && from < |init| && from % step == 0
    requires var next := Min(from + step, |init|);
      ActiveBag(data, active, from + 1) == ActiveBag(data, active, next) &&
      ActiveBag(data, active, next) == multiset(Concat(init[next..]))
    ensures ActiveBag(data, active, from) == multiset(Concat(init[from..]))
  {
    var next := Min(from + step, |init|);
    ActiveHoldsSpan(init, data, active, step, from);
    ConcatSplitBag(init, from, next);
    var mine, rest := multiset(data[from]), ActiveBag(data, active, from + 1);
    var a, b := multiset(Concat(init[from..next])), multiset(Concat(init[next..]));
    assert ActiveBag(data, active, from) == mine + rest;
    assert mine == a && rest == b;
    assert multiset(Concat(init[from..])) == a + b;
  }

  /** An active rank at a multiple of `step` holds its span of `step` blocks. */
  lemma ActiveHoldsSpan(init: seq<seq<int>>, data: seq<seq<int>>, active: seq<bool>, step: nat, from: nat)
    requires TreeState(init, data, active, step) && from < |init| && from % step == 0
    ensures active[from]
    ensures multiset(data[from]) == multiset(Concat(init[from..Min(from + step, |init|)]))
  {
  }

  /** The blocks from `from` are those before `next` followed by those after. */
  lemma ConcatSplitBag(init: seq<seq<int>>, from: nat, next: nat)
    requires from <= next <= |init|
    ensures multiset(Concat(init[from..])) == multiset(Concat(init[from..next])) + multiset(Concat(init[next..]))
  {
    assert init[from..] == init[from..next] + init[next..];
    ConcatAppend(init[from..next], init[next..]);
  }

  /** Conservation: in every state of the tree the active ranks together hold
      exactly the scattered input, and as many elements. */
  lemma Conservation(init: seq<seq<int>>, data: seq<seq<int>>, active: seq<bool>, step: nat)
    requires TreeState(init, data, active, step)
    ensures ActiveBag(data, active, 0) == multiset(Concat(init))
    ensures ActiveTotal(data, active, 0) == |Concat(init)|
  {
    assert init[0..] == init;
    ActiveBagFrom(init, data, active, step, 0);
    ActiveTotalIsBagSize(data, active, 0);
  }

  /** The merging phase: rounds with `step = 1, 2, 4, ...` while `step < size`.
      Rank 0 ends with a sorted permutation of all the ranks' sorted blocks,
      after `ceil(log2 size)` rounds. */
  method MergeTree(local: seq<seq<int>>) returns (root: seq<int>, ghost rounds: nat)
    requires |local| >= 1
    requires forall r :: 0 <= r < |local| ==> Sorted(local[r])
    ensures Sorted(root) && multiset(root) == multiset(Concat(local))
    ensures Pow2(rounds) >= |local| && (rounds == 0 || Pow2(rounds - 1) < |local|)
  {
    var size := |local|;
    var data := local;
    var active := seq(size, r requires 0 <= r < size => true);
    var step := 1;
    rounds := 0;
    InitialState(local);
    while step < size
      invariant TreeState(local, data, active, step)
      invariant step == Pow2(rounds) && (rounds == 0 || Pow2(rounds - 1) < size)
      decreases size - step
    {
      RoundKeepsState(local, data, active, step);
      data, active := MergeData(data, active, step), NextActive(active, step);
      step := 2 * step;
      rounds := rounds + 1;
    }
    root := data[0];
    FinalState(local, data, active, step);
  }

  /** Before the first round every rank is active and holds its own sorted block. */
  lemma InitialState(init: seq<seq<int>>)
    requires forall r :: 0 <= r < |init| ==> Sorted(init[r])
    ensures TreeState(init, init, seq(|init|, r requires 0 <= r < |init| => true), 1)
  {
    forall r | 0 <= r < |init| ensures Span(init, r, 1) == init[r] {
      assert init[r..Min(r + 1, |init|)] == [init[r]];
      ConcatOne(init[r]);
    }
  }

  /** Once `step` reaches the number of ranks, rank 0 holds everything, sorted. */
  lemma FinalState(init: seq<seq<int>>, data: seq<seq<int>>, active: seq<bool>, step: nat)
    requires TreeState(init, data, active, step) && step >= |init| >= 1
    ensures Sorted(data[0]) && multiset(data[0]) == multiset(Concat(init))
  {
    assert 0 % step == 0;
    assert active[0];
    assert Min(0 + step, |init|) == |init|;
    assert init[0..|init|] == init;
    assert Span(init, 0, step) == Concat(init);
  }

  // ------------------------------------------------------ correctness scan

  /** The root's final scan: correct unless some adjacent pair is out of order. */
  method CheckSorted(localData: seq<int>) returns (isCorrect: bool)
    ensures isCorrect <==> Sorted(localData)
  {
    isCorrect := true;
    var i := 1;
    while i < |localData|
      invariant 1 <= i
      invariant isCorrect ==> forall j :: 1 <= j < i && j < |localData| ==> localData[j - 1] <= localData[j]
      invariant !isCorrect ==> !NoDescent(localData)
    {
      if localData[i - 1] > localData[i] {
        isCorrect := false;
        break;
      }
      i := i + 1;
    }
    NoDescentIsSorted(localData);
  }

  /** The whole program on `size` ranks: distribution, local sorts, the merge
      tree and the scan. */
  method MergeSortRun(data: seq<int>, size: nat) returns (sorted: seq<int>, isCorrect: bool)
    requires size >= 1
    ensures Sorted(sorted) && multiset(sorted) == multiset(data)
    ensures isCorrect
  {
    var sendCounts, displacements := BlockDistribution(|data|, size);
    ScattervTiles(data, sendCounts);
    var localData := Scatterv(data, sendCounts, displacements);
    var sortedLocal := LocalSort(localData);
    ConcatPermutes(sortedLocal, localData);
    ghost var rounds;
    sorted, rounds := MergeTree(sortedLocal);
    isCorrect := CheckSorted(sorted);
  }
}
