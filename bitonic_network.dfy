/** The comparator network of `bitonic_sort_local`
    (Bitonic_Sort/bitonic_sort.cpp) as functions on sequences: the
    compare-and-swap of one pair, the merge pass at distance `step`, the
    halving merge loop and the recursive local sort; and the proof, by the
    0-1 principle, that on a power-of-two length the local sort leaves its
    range ascending for `dir == 1` and descending for `dir == 0`. */
module BitonicNetwork {
  import opened Seqs
  import opened Arith

  // -------------------------------------------------------- one comparator

  /** The test both `compare_exchange` and the merge loop apply to a pair:
      swap when out of order for the direction (1 ascending, 0 descending). */
  predicate Swaps(x: int, y: int, dir: int) {
    (dir == 1 && x > y) || (dir == 0 && x < y)
  }

  /** What the first cell of a compared pair ends up holding. */
  function Lo(x: int, y: int, dir: int): (lo: int) {
    if Swaps(x, y, dir) then y else x
  }

  /** What the second cell of a compared pair ends up holding. */
  function Hi(x: int, y: int, dir: int): (hi: int) {
    if Swaps(x, y, dir) then x else y
  }

  // ------------------------------------------------------ one merge pass

  /** Cell `p` of a range of `n` cells is the first of a pair the pass at
      distance `step` compares: `p % (2*step) < step` with the partner in range. */
  predicate PairLow(p: int, step: nat, n: int)
    requires step >= 1
  {
    p % (2 * step) < step && p + step < n
  }

  /** Cell `p` is the second of a compared pair, the first being `p - step`. */
  predicate PairHigh(p: int, step: nat)
    requires step >= 1
  {
    p % (2 * step) >= step
  }

  /** Cell `p` once the pass at distance `step` has handled the pairs whose
      first cell lies below `i`. */
  function Cell(s: seq<int>, step: nat, dir: int, i: int, p: nat): (v: int)
    requires step >= 1 && p < |s|
  {
    if PairLow(p, step, |s|) && p < i then Lo(s[p], s[p + step], dir)
    else if PairHigh(p, step) && p - step < i then
      ModBelow(p, 2 * step);
      Hi(s[p - step], s[p], dir)
    else s[p]
  }

  /** The range after the merge loop's `for` has run up to (not including) `i`. */
  function Partial(s: seq<int>, step: nat, dir: int, i: int): (r: seq<int>)
    requires step >= 1
    ensures |r| == |s|
  {
    seq(|s|, p requires 0 <= p < |s| => Cell(s, step, dir, i, p))
  }

  /** One whole pass at distance `step`. */
  function Pass(s: seq<int>, step: nat, dir: int): (r: seq<int>)
    requires step >= 1
    ensures |r| == |s|
  {
    Partial(s, step, dir, |s|)
  }

  /** The merge loop: passes at `step, step/2, ..., 1`. */
  function Merge(s: seq<int>, step: nat, dir: int): (r: seq<int>)
    ensures |r| == |s|
    decreases step
  {
    if step == 0 then s else Merge(Pass(s, step, dir), step / 2, dir)
  }

  /** `bitonic_sort_local` on a range holding `s`: the first half sorted
      ascending, the next half descending (an odd last cell left as it is),
      then the merge loop from `step = length/2` in direction `dir`. */
  function BitonicLocal(s: seq<int>, dir: int): (r: seq<int>)
    ensures |r| == |s|
    decreases |s|
  {
    if |s| <= 1 then s
    else
      var k := |s| / 2;
      Merge(BitonicLocal(s[..k], 1) + BitonicLocal(s[k..2 * k], 0) + s[2 * k..], k, dir)
  }

  // ---------------------------------------------------- the loop, stepwise

  /** The loop's `for` at `i` swaps cells `i` and `i+step` when `i` is the
      first of a pair and the pair is out of order, and does nothing else. */
  lemma PartialStep(s: seq<int>, step: nat, dir: int, i: int)
    requires step >= 1 && 0 <= i && i + step < |s|
    ensures var c := Partial(s, step, dir, i);
      Partial(s, step, dir, i + 1) ==
        if i % (2 * step) < step && Swaps(c[i], c[i + step], dir)
        then c[i := c[i + step]][i + step := c[i]]
        else c
  {
    var c, c' := Partial(s, step, dir, i), Partial(s, step, dir, i + 1);
    ModHalf(i, step);
    if i % (2 * step) < step {
      assert c[i] == s[i] && c[i + step] == s[i + step];
      assert PairHigh(i + step, step);
    } else {
      assert !PairHigh(i + step, step);
      assert c' == c;
    }
  }

  lemma PartialStart(s: seq<int>, step: nat, dir: int)
    requires step >= 1
    ensures Partial(s, step, dir, 0) == s
  {
    forall p | 0 <= p < |s| ensures Partial(s, step, dir, 0)[p] == s[p] {
      if PairHigh(p, step) {
        ModBelow(p, 2 * step);
      }
    }
  }

  /** Once `i` reaches `length - step` the pass is complete. */
  lemma PartialDone(s: seq<int>, step: nat, dir: int, i: int)
    requires step >= 1 && i >= |s| - step
    ensures Partial(s, step, dir, i) == Pass(s, step, dir)
  {
  }

  lemma SwapBag(c: seq<int>, i: int, j: int)
    requires 0 <= i < j < |c|
    ensures multiset(c[i := c[j]][j := c[i]]) == multiset(c)
  {
    var d := c[i := c[j]];
    assert multiset(d) == multiset(c) - multiset{c[i]} + multiset{c[j]};
    assert multiset(d[j := c[i]]) == multiset(d) - multiset{d[j]} + multiset{c[i]};
  }

  lemma {:induction false} PartialBag(s: seq<int>, step: nat, dir: int, i: nat)
    requires step >= 1 && i + step <= |s|
    ensures multiset(Partial(s, step, dir, i)) == multiset(s)
    decreases i
  {
    if i == 0 {
      PartialStart(s, step, dir);
    } else {
      var j := i - 1;
      PartialBag(s, step, dir, j);
      PartialBagStep(s, step, dir, j, i);
    }
  }

  /** The compare at `j` keeps what the pass has made of the range so far. */
  lemma PartialBagStep(s: seq<int>, step: nat, dir: int, j: nat, i: nat)
    requires step >= 1 && i == j + 1 && i + step <= |s|
    requires multiset(Partial(s, step, dir, j)) == multiset(s)
    ensures multiset(Partial(s, step, dir, i)) == multiset(s)
  {
    var c, c' := Partial(s, step, dir, j), Partial(s, step, dir, i);
    var h := j + step;
    PartialStep(s, step, dir, j);
    if j % (2 * step) < step && Swaps(c[j], c[h], dir) {
      assert c' == c[j := c[h]][h := c[j]];
      SwapBag(c, j, h);
    } else {
      assert c' == c;
    }
  }

  /** A pass only swaps cells: it permutes the range. */
  lemma PassBag(s: seq<int>, step: nat, dir: int)
    requires step >= 1
    ensures multiset(Pass(s, step, dir)) == multiset(s)
  {
    if |s| >= step {
      PartialBag(s, step, dir, |s| - step);
      PartialDone(s, step, dir, |s| - step);
    } else {
      PartialStart(s, step, dir);
      PartialDone(s, step, dir, 0);
    }
  }

  lemma {:induction false} MergeBag(s: seq<int>, step: nat, dir: int)
    ensures multiset(Merge(s, step, dir)) == multiset(s)
    decreases step
  {
    if step > 0 {
      PassBag(s, step, dir);
      MergeBag(Pass(s, step, dir), step / 2, dir);
    }
  }

  /** `bitonic_sort_local` permutes its range. */
  lemma {:induction false} BitonicLocalBag(s: seq<int>, dir: int)
    ensures multiset(BitonicLocal(s, dir)) == multiset(s)
    decreases |s|
  {
    if |s| > 1 {
      var k := |s| / 2;
      var first, second, rest := s[..k], s[k..2 * k], s[2 * k..];
      BitonicLocalBag(first, 1);
      BitonicLocalBag(second, 0);
      var halves := BitonicLocal(first, 1) + BitonicLocal(second, 0) + rest;
      BitonicLocalUnfold(s, dir, k, halves);
      MergeBag(halves, k, dir);
      ThreeParts(s, k, 2 * k);
    }
  }

  /** `BitonicLocal` once unfolded, with the two sorted halves given. */
  lemma BitonicLocalUnfold(s: seq<int>, dir: int, k: int, halves: seq<int>)
    requires |s| > 1 && k == |s| / 2
    requires halves == BitonicLocal(s[..k], 1) + BitonicLocal(s[k..2 * k], 0) + s[2 * k..]
    ensures BitonicLocal(s, dir) == Merge(halves, k, dir)
  {
  }

  // ----------------------------------------------------------- thresholds

  /** The 0-1 image of `s` under the threshold `t`: 1 where `s[p] >= t`. */
  function Thr(s: seq<int>, t: int): (z: seq<int>)
    ensures |z| == |s|
  {
    seq(|s|, p requires 0 <= p < |s| => if s[p] >= t then 1 else 0)
  }

  /** Comparators commute with a threshold, as with every monotone map. */
  lemma PassThr(s: seq<int>, step: nat, dir: int, t: int)
    requires step >= 1
    ensures Thr(Pass(s, step, dir), t) == Pass(Thr(s, t), step, dir)
  {
    var z := Thr(s, t);
    forall p | 0 <= p < |s| ensures Thr(Pass(s, step, dir), t)[p] == Pass(z, step, dir)[p] {
      if PairHigh(p, step) {
        ModBelow(p, 2 * step);
      }
    }
  }

  lemma {:induction false} MergeThr(s: seq<int>, step: nat, dir: int, t: int)
    ensures Thr(Merge(s, step, dir), t) == Merge(Thr(s, t), step, dir)
    decreases step
  {
    if step > 0 {
      PassThr(s, step, dir, t);
      MergeThr(Pass(s, step, dir), step / 2, dir, t);
    }
  }

  lemma ThrSorted(s: seq<int>, t: int)
    ensures Sorted(s) ==> Sorted(Thr(s, t))
    ensures SortedDesc(s) ==> SortedDesc(Thr(s, t))
  {
  }

  /** The 0-1 principle, ascending: sorted under every threshold is sorted. */
  lemma SortedByThresholds(s: seq<int>)
    requires forall t :: Sorted(Thr(s, t))
    ensures Sorted(s)
  {
    forall i, j | 0 <= i < j < |s| ensures s[i] <= s[j] {
      var z := Thr(s, s[i]);
      assert Sorted(z);
      assert z[i] == 1 && z[j] == (if s[j] >= s[i] then 1 else 0);
      assert z[i] <= z[j];
    }
  }

  /** The 0-1 principle, descending. */
  lemma SortedDescByThresholds(s: seq<int>)
    requires forall t :: SortedDesc(Thr(s, t))
    ensures SortedDesc(s)
  {
    forall i, j | 0 <= i < j < |s| ensures s[i] >= s[j] {
      var z := Thr(s, s[j]);
      assert SortedDesc(z);
      assert z[j] == 1 && z[i] == (if s[i] >= s[j] then 1 else 0);
      assert z[i] >= z[j];
    }
  }

  // ------------------------------------------------------ 0-1 sequences

  predicate Binary(z: seq<int>) {
    forall p :: 0 <= p < |z| ==> z[p] == 0 || z[p] == 1
  }

  predicate Const(z: seq<int>, v: int) {
    forall p :: 0 <= p < |z| ==> z[p] == v
  }

  /** The ones of `z` fill the `m` consecutive cells from `lo` on, read
      around the ring of its `|z|` cells: a 0-1 bitonic sequence. */
  predicate RingOnes(z: seq<int>, lo: int, m: int) {
    0 <= m <= |z| && forall p :: 0 <= p < |z| ==> z[p] == if (p - lo) % |z| < m then 1 else 0
  }

  /** One pass at half the length compares cell `p` with cell `p + h`. */
  lemma PassHalves(s: seq<int>, h: nat, dir: int)
    requires h >= 1 && |s| == 2 * h
    ensures forall p :: 0 <= p < h ==>
      Pass(s, h, dir)[p] == Lo(s[p], s[p + h], dir) && Pass(s, h, dir)[p + h] == Hi(s[p], s[p + h], dir)
  {
    forall p | 0 <= p < h
      ensures Pass(s, h, dir)[p] == Lo(s[p], s[p + h], dir) && Pass(s, h, dir)[p + h] == Hi(s[p], s[p + h], dir)
    {
      ModSmall(p, 2 * h);
      ModSmall(p + h, 2 * h);
    }
  }

  /** The half-cleaner: an ascending pass at half the length of a 0-1
      bitonic sequence leaves one half constant and the other 0-1 bitonic,
      the zeros before the ones. */
  lemma HalfClean(z: seq<int>, h: nat, lo: int, m: int)
    requires h >= 1 && |z| == 2 * h && RingOnes(z, lo, m)
    ensures m <= h ==> Const(Pass(z, h, 1)[..h], 0) && RingOnes(Pass(z, h, 1)[h..], lo, m)
    ensures m > h ==> RingOnes(Pass(z, h, 1)[..h], lo, m - h) && Const(Pass(z, h, 1)[h..], 1)
  {
    var c := Pass(z, h, 1);
    var l, u := c[..h], c[h..];
    PassHalves(z, h, 1);
    if m <= h {
      forall p | 0 <= p < h ensures l[p] == 0 && u[p] == if (p - lo) % |u| < m then 1 else 0 {
        HalfCleanCell(z, h, lo, m, p);
        assert l[p] == c[p] && u[p] == c[p + h];
      }
    } else {
      forall p | 0 <= p < h ensures l[p] == (if (p - lo) % |l| < m - h then 1 else 0) && u[p] == 1 {
        HalfCleanCell(z, h, lo, m, p);
        assert l[p] == c[p] && u[p] == c[p + h];
      }
    }
  }

  /** The half-cleaner at one pair: cells `p` and `p + h` hold a one at
      ring offsets `x` and `x + h` (mod `2*h`); the smaller and the larger of
      the two are read off the offset folded modulo `h`. */
  lemma HalfCleanCell(z: seq<int>, h: nat, lo: int, m: int, p: int)
    requires h >= 1 && |z| == 2 * h && RingOnes(z, lo, m) && 0 <= p < h
    ensures var a, b := z[p], z[p + h];
      (m <= h ==> Lo(a, b, 1) == 0 && Hi(a, b, 1) == (if (p - lo) % h < m then 1 else 0)) &&
      (m > h ==> Lo(a, b, 1) == (if (p - lo) % h < m - h then 1 else 0) && Hi(a, b, 1) == 1)
  {
    var x := (p - lo) % (2 * h);
    ModHalf(p - lo, h);
    assert p + h - lo == (p - lo) + h;
    assert z[p] == if x < m then 1 else 0;
    assert z[p + h] == if (p + h - lo) % (2 * h) < m then 1 else 0;
  }

  /** Every pass acts on whole blocks of `2*step` cells separately. */
  lemma PassBlocks(a: seq<int>, b: seq<int>, step: nat, dir: int)
    requires step >= 1 && |a| % (2 * step) == 0
    ensures Pass(a + b, step, dir) == Pass(a, step, dir) + Pass(b, step, dir)
  {
    var s := a + b;
    forall p | 0 <= p < |s| ensures Pass(s, step, dir)[p] == (Pass(a, step, dir) + Pass(b, step, dir))[p] {
      if p < |a| {
        PassBlocksFirst(a, b, step, dir, p);
      } else {
        PassBlocksSecond(a, b, step, dir, p - |a|);
      }
    }
  }

  /** A cell of the first block sees only the first block. */
  lemma PassBlocksFirst(a: seq<int>, b: seq<int>, step: nat, dir: int, p: int)
    requires step >= 1 && |a| % (2 * step) == 0 && 0 <= p < |a|
    ensures Pass(a + b, step, dir)[p] == Pass(a, step, dir)[p]
  {
    var s := a + b;
    assert s[p] == a[p];
    if p % (2 * step) < step {
      PairFits(p, step, |a|);
      assert s[p + step] == a[p + step];
    }
    if PairHigh(p, step) {
      ModBelow(p, 2 * step);
      assert s[p - step] == a[p - step];
    }
  }

  /** A cell of the second block sees only the second block. */
  lemma PassBlocksSecond(a: seq<int>, b: seq<int>, step: nat, dir: int, q: int)
    requires step >= 1 && |a| % (2 * step) == 0 && 0 <= q < |b|
    ensures Pass(a + b, step, dir)[|a| + q] == Pass(b, step, dir)[q]
  {
    var s, p := a + b, |a| + q;
    var n := |a| / (2 * step);
    assert |a| == n * (2 * step);
    ModMinusMultiple(p, n, 2 * step);
    assert q % (2 * step) == p % (2 * step);
    assert s[p] == b[q];
    if PairLow(q, step, |b|) {
      assert s[p + step] == b[q + step];
    }
    if PairHigh(q, step) {
      ModBelow(q, 2 * step);
      assert s[p - step] == b[q - step];
    }
  }

  /** The merge loop from a power of two acts on whole blocks separately. */
  lemma {:induction false} MergeBlocks(a: seq<int>, b: seq<int>, step: nat, e: nat, dir: int)
    requires step == Pow2(e) && |a| % (2 * step) == 0
    ensures Merge(a + b, step, dir) == Merge(a, step, dir) + Merge(b, step, dir)
    decreases e
  {
    PassBlocks(a, b, step, dir);
    if e > 0 {
      assert step == 2 * Pow2(e - 1);
      ModHalvePeriod(|a|, step);
      MergeBlocks(Pass(a, step, dir), Pass(b, step, dir), step / 2, e - 1, dir);
    }
  }

  lemma {:induction false} MergeConst(z: seq<int>, step: nat, dir: int, v: int)
    requires Const(z, v)
    ensures Merge(z, step, dir) == z
    decreases step
  {
    if step > 0 {
      assert Pass(z, step, dir) == z by {
        forall p | 0 <= p < |z| ensures Pass(z, step, dir)[p] == z[p] {
          if PairHigh(p, step) {
            ModBelow(p, 2 * step);
          }
        }
      }
      MergeConst(z, step / 2, dir, v);
    }
  }

  lemma {:induction false} MergeBinary(z: seq<int>, step: nat, dir: int)
    requires Binary(z)
    ensures Binary(Merge(z, step, dir))
    decreases step
  {
    if step > 0 {
      assert Binary(Pass(z, step, dir)) by {
        forall p | 0 <= p < |z| ensures Pass(z, step, dir)[p] == 0 || Pass(z, step, dir)[p] == 1 {
          if PairHigh(p, step) {
            ModBelow(p, 2 * step);
          }
        }
      }
      MergeBinary(Pass(z, step, dir), step / 2, dir);
    }
  }

  /** The ascending merge loop sorts every 0-1 bitonic sequence of length
      `2*w`, `w` a power of two. */
  lemma {:induction false} MergeSorts01(z: seq<int>, w: nat, e: nat, lo: int, m: int)
    requires w == Pow2(e) && |z| == 2 * w && RingOnes(z, lo, m)
    ensures Sorted(Merge(z, w, 1))
    decreases e
  {
    var c := Pass(z, w, 1);
    HalfClean(z, w, lo, m);
    var l, u := c[..w], c[w..];
    assert c == l + u;
    if e == 0 {
      assert Merge(z, w, 1) == c;
      assert Binary(l) && Binary(u);
    } else {
      var w' := w / 2;
      assert w == 2 * w' && w' == Pow2(e - 1);
      ModSmall(0, 2 * w');
      assert |l| % (2 * w') == 0;
      MergeBlocks(l, u, w', e - 1, 1);
      assert Merge(z, w, 1) == Merge(l, w', 1) + Merge(u, w', 1);
      if m <= w {
        MergeSorts01(u, w', e - 1, lo, m);
        MergeConst(l, w', 1, 0);
        MergeBinary(u, w', 1);
      } else {
        MergeSorts01(l, w', e - 1, lo, m - w);
        MergeConst(u, w', 1, 1);
        MergeBinary(l, w', 1);
      }
      SortedAppend(Merge(l, w', 1), Merge(u, w', 1));
    }
  }

  /** Exchanging zeros and ones. */
  function Flip(z: seq<int>): (r: seq<int>)
    ensures |r| == |z|
  {
    seq(|z|, p requires 0 <= p < |z| => 1 - z[p])
  }

  /** A descending merge is an ascending one with zeros and ones exchanged. */
  lemma {:induction false} MergeFlip(z: seq<int>, step: nat)
    ensures Flip(Merge(z, step, 0)) == Merge(Flip(z), step, 1)
    decreases step
  {
    if step > 0 {
      assert Flip(Pass(z, step, 0)) == Pass(Flip(z), step, 1) by {
        forall p | 0 <= p < |z| ensures Flip(Pass(z, step, 0))[p] == Pass(Flip(z), step, 1)[p] {
          if PairHigh(p, step) {
            ModBelow(p, 2 * step);
          }
        }
      }
      MergeFlip(Pass(z, step, 0), step / 2);
    }
  }

  lemma RingOnesFlip(z: seq<int>, lo: int, m: int)
    requires |z| >= 1 && RingOnes(z, lo, m)
    ensures RingOnes(Flip(z), lo + m, |z| - m)
  {
    forall p | 0 <= p < |z| ensures Flip(z)[p] == if (p - (lo + m)) % |z| < |z| - m then 1 else 0 {
      ModBack(p - lo, m, |z|);
      assert p - (lo + m) == (p - lo) - m;
    }
  }

  /** The descending merge loop sorts every 0-1 bitonic sequence of length
      `2*w` into descending order. */
  lemma MergeSortsDesc01(z: seq<int>, w: nat, e: nat, lo: int, m: int)
    requires w == Pow2(e) && |z| == 2 * w && RingOnes(z, lo, m)
    ensures SortedDesc(Merge(z, w, 0))
  {
    RingOnesFlip(z, lo, m);
    MergeSorts01(Flip(z), w, e, lo + m, |z| - m);
    MergeFlip(z, w);
    var r := Merge(z, w, 0);
    forall i, j | 0 <= i < j < |r| ensures r[i] >= r[j] {
      assert Flip(r)[i] <= Flip(r)[j];
    }
  }

  /** Where the ones of an ascending 0-1 sequence begin. */
  function FirstOne(z: seq<int>): (a: nat)
    ensures a <= |z|
  {
    if z == [] || z[0] == 1 then 0 else 1 + FirstOne(z[1..])
  }

  /** Where the zeros of a descending 0-1 sequence begin. */
  function FirstZero(z: seq<int>): (a: nat)
    ensures a <= |z|
  {
    if z == [] || z[0] == 0 then 0 else 1 + FirstZero(z[1..])
  }

  lemma {:induction false} AscendingShape(z: seq<int>)
    requires Binary(z) && Sorted(z)
    ensures forall p :: 0 <= p < |z| ==> z[p] == if p < FirstOne(z) then 0 else 1
    decreases |z|
  {
    if z != [] && z[0] != 1 {
      AscendingShape(z[1..]);
      forall p | 1 <= p < |z| ensures z[p] == z[1..][p - 1] {
      }
    }
  }

  lemma {:induction false} DescendingShape(z: seq<int>)
    requires Binary(z) && SortedDesc(z)
    ensures forall p :: 0 <= p < |z| ==> z[p] == if p < FirstZero(z) then 1 else 0
    decreases |z|
  {
    if z != [] && z[0] != 0 {
      DescendingShape(z[1..]);
      forall p | 1 <= p < |z| ensures z[p] == z[1..][p - 1] {
      }
    }
  }

  /** An ascending 0-1 half followed by a descending one is 0-1 bitonic:
      its ones fill the cells from the first one of the first half to the
      last one of the second. */
  lemma AscDescRing(x: seq<int>, y: seq<int>)
    requires |x| == |y| >= 1 && Binary(x) && Binary(y) && Sorted(x) && SortedDesc(y)
    ensures RingOnes(x + y, FirstOne(x), |x| - FirstOne(x) + FirstZero(y))
  {
    forall p | 0 <= p < |x + y|
      ensures (x + y)[p] == if (p - FirstOne(x)) % |x + y| < |x| - FirstOne(x) + FirstZero(y) then 1 else 0
    {
      AscDescCell(x, y, p);
    }
  }

  /** Cell `p` of an ascending 0-1 half followed by a descending one. */
  lemma AscDescCell(x: seq<int>, y: seq<int>, p: int)
    requires |x| == |y| >= 1 && Binary(x) && Binary(y) && Sorted(x) && SortedDesc(y)
    requires 0 <= p < |x + y|
    ensures (x + y)[p] == if (p - FirstOne(x)) % |x + y| < |x| - FirstOne(x) + FirstZero(y) then 1 else 0
  {
    var k, a := |x|, FirstOne(x);
    AscendingShape(x);
    DescendingShape(y);
    assert |x + y| == 2 * k;
    RingOffset(p, a, k);
    if p < k {
      assert (x + y)[p] == x[p];
    } else {
      assert (x + y)[p] == y[p - k];
    }
  }

  /** The ring offset of cell `p` from `a` within `2*k` cells. */
  lemma RingOffset(p: int, a: int, k: int)
    requires 0 <= p < 2 * k && 0 <= a <= k
    ensures (p - a) % (2 * k) == if p >= a then p - a else p - a + 2 * k
  {
    if p >= a {
      ModSmall(p - a, 2 * k);
    } else {
      ModSmall(p - a + 2 * k, 2 * k);
      ModShift(p - a, 2 * k);
    }
  }

  /** On a power-of-two length, `bitonic_sort_local` sorts its range:
      ascending for `dir == 1`, descending for `dir == 0`. */
  lemma {:induction false} BitonicLocalSorts(s: seq<int>, dir: int, e: nat)
    requires |s| == Pow2(e) && (dir == 0 || dir == 1)
    ensures dir == 1 ==> Sorted(BitonicLocal(s, dir))
    ensures dir == 0 ==> SortedDesc(BitonicLocal(s, dir))
    decreases e
  {
    if e > 0 {
      var k := |s| / 2;
      assert k == Pow2(e - 1) && |s| == 2 * k;
      BitonicLocalSorts(s[..k], 1, e - 1);
      BitonicLocalSorts(s[k..2 * k], 0, e - 1);
      var x, y := BitonicLocal(s[..k], 1), BitonicLocal(s[k..2 * k], 0);
      assert s[2 * k..] == [];
      var mid := x + y + s[2 * k..];
      assert mid == x + y;
      assert BitonicLocal(s, dir) == Merge(x + y, k, dir);
      MergeOfBitonicSorts(x, y, e - 1, dir);
    }
  }

  /** Merging an ascending half followed by a descending half, `2^e` elements
      each, sorts the whole in direction `dir`. */
  lemma MergeOfBitonicSorts(x: seq<int>, y: seq<int>, e: nat, dir: int)
    requires |x| == |y| == Pow2(e) && (dir == 0 || dir == 1) && Sorted(x) && SortedDesc(y)
    ensures dir == 1 ==> Sorted(Merge(x + y, Pow2(e), dir))
    ensures dir == 0 ==> SortedDesc(Merge(x + y, Pow2(e), dir))
  {
    var r := Merge(x + y, Pow2(e), dir);
    forall t
      ensures dir == 1 ==> Sorted(Thr(r, t))
      ensures dir == 0 ==> SortedDesc(Thr(r, t))
    {
      MergeThresholdSorts(x, y, e, dir, t);
    }
    if dir == 1 {
      SortedByThresholds(r);
    } else {
      SortedDescByThresholds(r);
    }
  }

  /** The same under one threshold `t`: the two halves become a ring of ones,
      which the merge sorts. */
  lemma MergeThresholdSorts(x: seq<int>, y: seq<int>, e: nat, dir: int, t: int)
    requires |x| == |y| == Pow2(e) && (dir == 0 || dir == 1) && Sorted(x) && SortedDesc(y)
    ensures dir == 1 ==> Sorted(Thr(Merge(x + y, Pow2(e), dir), t))
    ensures dir == 0 ==> SortedDesc(Thr(Merge(x + y, Pow2(e), dir), t))
  {
    var k := Pow2(e);
    MergeThr(x + y, k, dir, t);
    ThrSorted(x, t);
    ThrSorted(y, t);
    var zx, zy := Thr(x, t), Thr(y, t);
    assert Thr(x + y, t) == zx + zy;
    AscDescRing(zx, zy);
    var lo, m := FirstOne(zx), k - FirstOne(zx) + FirstZero(zy);
    if dir == 1 {
      MergeSorts01(zx + zy, k, e, lo, m);
    } else {
      MergeSortsDesc01(zx + zy, k, e, lo, m);
    }
  }
}
