/** The sample-sort engine (Sample_Sort/sample_sort.cpp): every rank sorts its
    `nlocal` elements and picks `npes-1` equally spaced samples; all samples
    are gathered everywhere and sorted, and `npes-1` splitters are chosen from
    them, closed by an `INT_MAX` sentinel; every rank cuts its sorted elements
    into `npes` buckets by the splitters, bucket `r` goes to rank `r` in an
    all-to-all exchange, and every rank sorts what it received. */
module SampleSort {
  import opened Seqs
  import opened Arith
  import opened Buckets

  // ------------------------------------------------------------- samples

  /** Where sample `i` (`1 <= i < npes`) is read: `i*nlocal/npes`, inside the
      local array whenever it is not empty. */
  function SampleIndex(i: nat, nlocal: nat, npes: nat): (k: nat)
    requires 1 <= i < npes && nlocal >= 1
    ensures k < nlocal
  {
    MulDivLess(i, npes, nlocal);
    i * nlocal / npes
  }

  /** Later samples are read further right. */
  lemma SampleIndexMono(i: nat, j: nat, nlocal: nat, npes: nat)
    requires 1 <= i <= j < npes && nlocal >= 1
    ensures SampleIndex(i, nlocal, npes) <= SampleIndex(j, nlocal, npes)
  {
    MulMono(i, j, nlocal);
    MulNonneg(i, nlocal);
    DivMono(i * nlocal, j * nlocal, npes);
  }

  /** The `npes-1` local samples of a rank's elements. */
  function Samples(elmnts: seq<int>, npes: nat): (samples: seq<int>)
    requires npes >= 1 && (npes == 1 || |elmnts| >= 1)
    ensures |samples| == npes - 1
    ensures forall i :: 0 <= i < npes - 1 ==> samples[i] in elmnts
  {
    seq(npes - 1, i requires 0 <= i < npes - 1 => elmnts[SampleIndex(i + 1, |elmnts|, npes)])
  }

  /** Samples of a sorted array come out sorted. */
  lemma SamplesSorted(elmnts: seq<int>, npes: nat)
    requires npes >= 1 && (npes == 1 || |elmnts| >= 1)
    requires Sorted(elmnts)
    ensures Sorted(Samples(elmnts, npes))
  {
    var samples := Samples(elmnts, npes);
    forall i, j | 0 <= i < j < |samples| ensures samples[i] <= samples[j] {
      SampleIndexMono(i + 1, j + 1, |elmnts|, npes);
    }
  }

  /** The sampling loop: `splitters[i-1] = elmnts[i*nlocal/npes]` for `i = 1 .. npes-1`. */
  method LocalSamples(elmnts: seq<int>, npes: nat) returns (samples: seq<int>)
    requires npes >= 1 && (npes == 1 || |elmnts| >= 1)
    ensures samples == Samples(elmnts, npes)
  {
    samples := [];
    for i := 1 to npes
      invariant |samples| == i - 1
      invariant forall q :: 0 <= q < i - 1 ==> samples[q] == Samples(elmnts, npes)[q]
    {
      samples := samples + [elmnts[i * |elmnts| / npes]];
    }
  }

  // ----------------------------------------------------------- splitters

  /** The index the splitter loop reads as written: `allpicks[i*npes]`. */
  function ReadIndex(i: nat, npes: nat): (idx: nat) {
    i * npes
  }

  /** The splitter choice as written: `npes-1` reads at `i*npes`, then the
      sentinel. `None` when some read falls outside `allpicks`. */
  function SplittersAsWritten(allpicks: seq<int>, npes: nat): (spl: Option<seq<int>>)
    requires npes >= 1
    ensures spl.Some? <==> forall i :: 1 <= i < npes ==> ReadIndex(i, npes) < |allpicks|
    ensures spl.Some? ==> |spl.value| == npes && spl.value[npes - 1] == IntMax
  {
    if forall i :: 1 <= i < npes ==> ReadIndex(i, npes) < |allpicks| then
      Some(seq(npes, i requires 0 <= i < npes =>
        if i < npes - 1 then allpicks[ReadIndex(i + 1, npes)] else IntMax))
    else
      None
  }

  /** With `npes*(npes-1)` gathered samples, the last read of the loop as
      written, at `(npes-1)*npes`, is one past the end for every `npes >= 2`. */
  lemma SplittersAsWrittenReadPastEnd(allpicks: seq<int>, npes: nat)
    requires npes >= 2 && |allpicks| == npes * (npes - 1)
    ensures ReadIndex(npes - 1, npes) == |allpicks|
    ensures SplittersAsWritten(allpicks, npes).None?
  {
    assert ReadIndex(npes - 1, npes) == (npes - 1) * npes;
  }

  /** The corrected read: `allpicks[i*npes - 1]`, the last of every `npes` samples. */
  function SplitterIndex(i: nat, npes: nat): (k: nat)
    requires 1 <= i < npes
    ensures k < npes * (npes - 1)
  {
    MulMono(1, i, npes);
    MulMono(i, npes - 1, npes);
    i * npes - 1
  }

  /** The splitters: `npes-1` picks from the sorted samples, then the sentinel `INT_MAX`. */
  function Splitters(allpicks: seq<int>, npes: nat): (spl: seq<int>)
    requires npes >= 1 && |allpicks| == npes * (npes - 1)
    ensures |spl| == npes && spl[npes - 1] == IntMax
    ensures forall i :: 0 <= i < npes - 1 ==> spl[i] in allpicks
  {
    seq(npes, i requires 0 <= i < npes =>
      if i < npes - 1 then allpicks[SplitterIndex(i + 1, npes)] else IntMax)
  }

  /** Picks from sorted 32-bit samples, closed by `INT_MAX`, are nondecreasing. */
  lemma SplittersSorted(allpicks: seq<int>, npes: nat)
    requires npes >= 1 && |allpicks| == npes * (npes - 1)
    requires Sorted(allpicks) && AllInt32(allpicks)
    ensures Sorted(Splitters(allpicks, npes))
  {
    var spl := Splitters(allpicks, npes);
    forall i, j | 0 <= i < j < npes ensures spl[i] <= spl[j] {
      if j < npes - 1 {
        MulMono(i + 1, j + 1, npes);
      } else {
        assert spl[i] in allpicks;
      }
    }
  }

  /** The splitter loop, corrected. */
  method PickSplitters(allpicks: seq<int>, npes: nat) returns (splitters: seq<int>)
    requires npes >= 1 && |allpicks| == npes * (npes - 1)
    ensures splitters == Splitters(allpicks, npes)
  {
    splitters := [];
    for i := 1 to npes
      invariant |splitters| == i - 1
      invariant forall q :: 0 <= q < i - 1 ==> splitters[q] == Splitters(allpicks, npes)[q]
    {
      MulMono(1, i, npes);
      MulMono(i, npes - 1, npes);
      splitters := splitters + [allpicks[i * npes - 1]];
    }
    splitters := splitters + [IntMax];
  }

  // -------------------------------------------------------- bucket scan

  /** What the scan finds for `x` starting at splitter `j`: every splitter
      passed over is at most `x`, and `x` is below the one it stops at unless
      that is the last bucket. */
  lemma {:induction false} BucketFromBounds(x: int, spl: seq<int>, j: nat)
    requires j < |spl|
    ensures forall q :: j <= q < BucketFrom(x, spl, j) ==> spl[q] <= x
    ensures BucketFrom(x, spl, j) < |spl| - 1 ==> x < spl[BucketFrom(x, spl, j)]
    decreases |spl| - j
  {
    if !(j == |spl| - 1 || x < spl[j]) {
      BucketFromBounds(x, spl, j + 1);
    }
  }

  /** Resuming the scan for a larger element where the previous one stopped
      gives the same bucket as scanning from the start: this is why `j` need
      never be reset. */
  lemma {:induction false} BucketFromResume(x: int, y: int, spl: seq<int>, j: nat)
    requires j < |spl| && x <= y
    ensures BucketFrom(x, spl, j) <= BucketFrom(y, spl, j)
    ensures BucketFrom(y, spl, BucketFrom(x, spl, j)) == BucketFrom(y, spl, j)
    decreases |spl| - j
  {
    if !(j == |spl| - 1 || x < spl[j]) {
      BucketFromResume(x, y, spl, j + 1);
    }
  }

  /** Elements in different buckets are strictly ordered like their buckets. */
  lemma BucketsOrdered(x: int, y: int, spl: seq<int>)
    requires |spl| >= 1
    requires BucketFrom(x, spl, 0) < BucketFrom(y, spl, 0)
    ensures x < y
  {
    BucketFromBounds(x, spl, 0);
    BucketFromBounds(y, spl, 0);
  }

  /** The bucket scan: one left-to-right pass over the sorted elements with a
      bucket index `j` that only moves forward, counting each element in the
      first bucket whose splitter exceeds it (the last bucket otherwise). */
  method BucketCounts(elmnts: seq<int>, splitters: seq<int>) returns (scounts: seq<int>)
    requires |splitters| >= 1 && Sorted(elmnts)
    ensures scounts == Histogram(elmnts, SplitterBucket(splitters))
  {
    var npes := |splitters|;
    ghost var k := SplitterBucket(splitters);
    scounts := seq(npes, _ => 0);
    HistogramEmpty(k);
    var j := 0;
    for i := 0 to |elmnts|
      invariant 0 <= j < npes
      invariant i == 0 ==> j == 0
      invariant i > 0 ==> j == BucketFrom(elmnts[i - 1], splitters, 0)
      invariant scounts == Histogram(elmnts[..i], k)
    {
      var x := elmnts[i];
      if i > 0 {
        BucketFromResume(elmnts[i - 1], x, splitters, 0);
      }
      ghost var j0 := j;
      while j < npes - 1 && x >= splitters[j]
        invariant j0 <= j < npes
        invariant BucketFrom(x, splitters, j) == BucketFrom(x, splitters, 0)
      {
        j := j + 1;
      }
      HistogramSnoc(elmnts[..i], x, k);
      assert elmnts[..i + 1] == elmnts[..i] + [x];
      scounts := scounts[j := scounts[j] + 1];
    }
    assert elmnts[..|elmnts|] == elmnts;
  }

  /** On sorted elements the buckets ascend, so the bucket layout is the
      elements themselves and bucket `r` is the range starting at the exclusive
      prefix sum of the counts: the ranges `sdispls`/`scounts` describe. */
  lemma BucketRanges(elmnts: seq<int>, splitters: seq<int>, r: nat)
    requires |splitters| >= 1 && Sorted(elmnts) && r < |splitters|
    ensures |ExclusiveScan(Histogram(elmnts, SplitterBucket(splitters)))| == |splitters|
    ensures 0 <= ExclusiveScan(Histogram(elmnts, SplitterBucket(splitters)))[r]
    ensures ExclusiveScan(Histogram(elmnts, SplitterBucket(splitters)))[r] + Histogram(elmnts, SplitterBucket(splitters))[r] <= |elmnts|
    ensures elmnts[ExclusiveScan(Histogram(elmnts, SplitterBucket(splitters)))[r]
              .. ExclusiveScan(Histogram(elmnts, SplitterBucket(splitters)))[r] + Histogram(elmnts, SplitterBucket(splitters))[r]]
            == Select(elmnts, SplitterBucket(splitters), r)
  {
    var k := SplitterBucket(splitters);
    var ss := Selects(elmnts, k);
    forall i, j | 0 <= i < j < |elmnts| ensures KeyOf(k, elmnts[i]) <= KeyOf(k, elmnts[j]) {
      BucketFromResume(elmnts[i], elmnts[j], splitters, 0);
    }
    PartitionOfKeyOrdered(elmnts, k);
    ConcatSlice(ss, r);
    assert Lengths(ss) == Histogram(elmnts, k);
  }

  // ------------------------------------------------------- displacements

  /** `displs[0] = 0; displs[i] = displs[i-1] + counts[i-1]`: the loop behind
      both `sdispls` and `rdispls`. */
  method Displacements(counts: seq<int>) returns (displs: seq<int>)
    requires |counts| >= 1
    ensures displs == ExclusiveScan(counts)
  {
    displs := [0];
    for i := 1 to |counts|
      invariant displs == ExclusiveScan(counts)[..i]
    {
      SumSnoc(counts, i - 1);
      displs := displs + [displs[i - 1] + counts[i - 1]];
    }
  }

  /** The last displacement plus the last count is the total: `*nsorted`. */
  lemma ScanTotal(counts: seq<int>)
    requires |counts| >= 1
    ensures ExclusiveScan(counts)[|counts| - 1] + counts[|counts| - 1] == Sum(counts)
  {
    SumSnoc(counts, |counts| - 1);
    assert counts[..|counts|] == counts;
  }

  // ------------------------------------------------------- the exchange

  /** A square matrix: one row per rank, one entry per rank. */
  predicate Square(m: seq<seq<int>>) {
    forall s :: 0 <= s < |m| ==> |m[s]| == |m|
  }

  /** `MPI_Alltoall` of one count per pair: rank `r` receives entry `r` of every row. */
  function Alltoall(m: seq<seq<int>>): (t: seq<seq<int>>)
    requires Square(m)
    ensures |t| == |m| && Square(t)
  {
    seq(|m|, r requires 0 <= r < |m| => seq(|m|, s requires 0 <= s < |m| => m[s][r]))
  }

  /** Exchanging twice brings every count back to its sender. */
  lemma AlltoallInvolution(m: seq<seq<int>>)
    requires Square(m)
    ensures Alltoall(Alltoall(m)) == m
  {
    var t := Alltoall(Alltoall(m));
    forall s | 0 <= s < |m| ensures t[s] == m[s] {
    }
  }

  /** The counts, displacements and slices of an `MPI_Alltoallv` fit together:
      every piece lies inside its sender's slice. */
  predicate ValidExchange(send: seq<seq<int>>, scounts: seq<seq<int>>, sdispls: seq<seq<int>>) {
    |scounts| == |send| && |sdispls| == |send| && Square(scounts) && Square(sdispls) &&
    forall s, r :: 0 <= s < |send| && 0 <= r < |send| ==>
      0 <= sdispls[s][r] && 0 <= scounts[s][r] && sdispls[s][r] + scounts[s][r] <= |send[s]|
  }

  /** What rank `r` receives from each sender, in sender order. */
  function Pieces(send: seq<seq<int>>, scounts: seq<seq<int>>, sdispls: seq<seq<int>>, r: nat): (ps: seq<seq<int>>)
    requires ValidExchange(send, scounts, sdispls) && r < |send|
    ensures |ps| == |send|
  {
    seq(|send|, s requires 0 <= s < |send| => send[s][sdispls[s][r]..sdispls[s][r] + scounts[s][r]])
  }

  /** `MPI_Alltoallv`: rank `r` receives piece `r` of every sender, stored
      one after the other in sender order (at `rdispls`). */
  function Alltoallv(send: seq<seq<int>>, scounts: seq<seq<int>>, sdispls: seq<seq<int>>): (recv: seq<seq<int>>)
    requires ValidExchange(send, scounts, sdispls)
    ensures |recv| == |send|
  {
    seq(|send|, r requires 0 <= r < |send| => Concat(Pieces(send, scounts, sdispls, r)))
  }

  /** Rank `r` receives as many elements as column `r` of the send counts says:
      the `rcounts` the count exchange delivered. */
  lemma AlltoallvCounts(send: seq<seq<int>>, scounts: seq<seq<int>>, sdispls: seq<seq<int>>, r: nat)
    requires ValidExchange(send, scounts, sdispls) && r < |send|
    ensures |Alltoallv(send, scounts, sdispls)[r]| == Sum(Alltoall(scounts)[r])
  {
    var ps := Pieces(send, scounts, sdispls, r);
    assert Lengths(ps) == Alltoall(scounts)[r];
    ConcatLength(ps);
  }

  /** Counts from the bucket scan and displacements from their prefix sums
      describe pieces inside every sender's slice. */
  lemma ExchangeValid(local: seq<seq<int>>, splitters: seq<int>, scounts: seq<seq<int>>, sdispls: seq<seq<int>>)
    requires |splitters| == |local|
    requires forall s :: 0 <= s < |local| ==> Sorted(local[s])
    requires |scounts| == |local| && |sdispls| == |local|
    requires forall s :: 0 <= s < |local| ==>
      scounts[s] == Histogram(local[s], SplitterBucket(splitters)) && sdispls[s] == ExclusiveScan(scounts[s])
    ensures ValidExchange(local, scounts, sdispls)
  {
    forall s, q | 0 <= s < |local| && 0 <= q < |local|
      ensures |scounts[s]| == |local| && |sdispls[s]| == |local|
      ensures 0 <= sdispls[s][q] && 0 <= scounts[s][q] && sdispls[s][q] + scounts[s][q] <= |local[s]|
    {
      BucketRanges(local[s], splitters, q);
    }
  }

  /** With counts from the bucket scan and displacements from their prefix
      sums, rank `r` receives exactly bucket `r` of the gathered elements, in
      rank order. */
  lemma ExchangeDeliversBuckets(local: seq<seq<int>>, splitters: seq<int>,
                                scounts: seq<seq<int>>, sdispls: seq<seq<int>>, r: nat)
    requires |splitters| == |local| && r < |local|
    requires forall s :: 0 <= s < |local| ==> Sorted(local[s])
    requires |scounts| == |local| && |sdispls| == |local|
    requires forall s :: 0 <= s < |local| ==>
      scounts[s] == Histogram(local[s], SplitterBucket(splitters)) && sdispls[s] == ExclusiveScan(scounts[s])
    ensures ValidExchange(local, scounts, sdispls)
    ensures Alltoallv(local, scounts, sdispls)[r] == Select(Concat(local), SplitterBucket(splitters), r)
  {
    var k := SplitterBucket(splitters);
    ExchangeValid(local, splitters, scounts, sdispls);
    forall s | 0 <= s < |local|
      ensures local[s][sdispls[s][r]..sdispls[s][r] + scounts[s][r]] == Select(local[s], k, r)
    {
      BucketRanges(local[s], splitters, r);
    }
    assert Pieces(local, scounts, sdispls, r) == seq(|local|, i requires 0 <= i < |local| => Select(local[i], k, r));
    SelectConcat(local, k, r);
  }

  /** Rank `r`'s received elements all fall in splitter range `r`. */
  lemma ReceivedInRange(all: seq<int>, splitters: seq<int>, r: nat, x: int)
    requires r < |splitters| && x in Select(all, SplitterBucket(splitters), r)
    ensures forall q :: 0 <= q < r ==> splitters[q] <= x
    ensures r < |splitters| - 1 ==> x < splitters[r]
  {
    SelectMembers(all, SplitterBucket(splitters), r);
    BucketFromBounds(x, splitters, 0);
  }

  // ------------------------------------------------------------- driver

  /** `SampleSort` on `npes` ranks, rank `r` holding `elmnts[r]` of length
      `n / npes`; `vsorted[r]` is what rank `r` returns and `nsorted[r]` its
      length. Reading the samples needs a non-empty local array when there is
      more than one rank. */
  method SampleSortRun(elmnts: seq<seq<int>>, n: nat) returns (vsorted: seq<seq<int>>, nsorted: seq<int>, splitters: seq<int>)
    requires |elmnts| >= 1
    requires forall r :: 0 <= r < |elmnts| ==> |elmnts[r]| == n / |elmnts|
    requires |elmnts| == 1 || n / |elmnts| >= 1
    ensures |vsorted| == |elmnts| && |nsorted| == |elmnts| && |splitters| == |elmnts|
    ensures forall r :: 0 <= r < |vsorted| ==> Sorted(vsorted[r]) && nsorted[r] == |vsorted[r]|
    ensures forall r, x :: 0 <= r < |vsorted| && x in vsorted[r] ==> InSplitterRange(x, splitters, r)
    ensures Sorted(Concat(vsorted)) && multiset(Concat(vsorted)) == multiset(Concat(elmnts))
    ensures Sum(nsorted) == |elmnts| * (n / |elmnts|)
  {
    var npes := |elmnts|;
    var nlocal := n / npes;

    var local, picks := SortAndSample(elmnts, nlocal);
    splitters := GatherSplitters(picks, npes);
    forall q | 0 <= q < npes ensures Sorted(local[q]) && multiset(local[q]) == multiset(elmnts[q]) {
    }
    vsorted, nsorted := Redistribute(local, splitters);
    assert multiset(Concat(local)) == multiset(Concat(elmnts)) by {
      ConcatPermutes(local, elmnts);
    }
    assert |Concat(local)| == npes * nlocal by {
      ConcatUniformLength(local, nlocal);
    }
  }

  /** `MPI_Allgather` of every rank's samples, the sort of all of them, and
      the choice of the splitters from the sorted samples. */
  method GatherSplitters(picks: seq<seq<int>>, npes: nat) returns (splitters: seq<int>)
    requires npes >= 1 && |picks| == npes
    requires forall q :: 0 <= q < npes ==> |picks[q]| == npes - 1
    ensures |Concat(picks)| == npes * (npes - 1)
    ensures splitters == Splitters(Sort(Concat(picks)), npes)
  {
    ConcatUniformLength(picks, npes - 1);
    var allpicks := Sort(Concat(picks));
    splitters := PickSplitters(allpicks, npes);
  }

  /** From the splitters on: every rank counts its buckets and their
      displacements, the counts and then the buckets are exchanged, and every
      rank sorts what it received. */
  method Redistribute(local: seq<seq<int>>, splitters: seq<int>) returns (vsorted: seq<seq<int>>, nsorted: seq<int>)
    requires |splitters| == |local| >= 1
    requires forall q :: 0 <= q < |local| ==> Sorted(local[q])
    ensures |vsorted| == |local| && |nsorted| == |local|
    ensures forall r :: 0 <= r < |vsorted| ==> Sorted(vsorted[r]) && nsorted[r] == |vsorted[r]|
    ensures forall r, x :: 0 <= r < |vsorted| && x in vsorted[r] ==> InSplitterRange(x, splitters, r)
    ensures Sorted(Concat(vsorted)) && multiset(Concat(vsorted)) == multiset(Concat(local))
    ensures Sum(nsorted) == |Concat(local)|
  {
    var scounts, sdispls := CountBuckets(local, splitters);
    var rcounts := Alltoall(scounts);
    nsorted := ReceiveTotals(rcounts);
    ExchangeValid(local, splitters, scounts, sdispls);
    var recv := Alltoallv(local, scounts, sdispls);
    ExchangeDeliversAll(local, splitters, scounts, sdispls);
    vsorted := FinalSort(recv);
    FinalOutcome(Concat(local), splitters, recv, vsorted, nsorted);
  }

  /** Every rank sorts what it received. */
  method FinalSort(recv: seq<seq<int>>) returns (vsorted: seq<seq<int>>)
    ensures |vsorted| == |recv| && forall r :: 0 <= r < |recv| ==> IsSortOf(vsorted[r], recv[r])
  {
    vsorted := [];
    for r := 0 to |recv|
      invariant |vsorted| == r && forall q :: 0 <= q < r ==> IsSortOf(vsorted[q], recv[q])
    {
      vsorted := vsorted + [Sort(recv[r])];
    }
  }

  /** Every rank sorts its elements and takes its samples. */
  method SortAndSample(elmnts: seq<seq<int>>, nlocal: nat) returns (local: seq<seq<int>>, picks: seq<seq<int>>)
    requires |elmnts| >= 1 && (|elmnts| == 1 || nlocal >= 1)
    requires forall r :: 0 <= r < |elmnts| ==> |elmnts[r]| == nlocal
    ensures |local| == |elmnts| && |picks| == |elmnts|
    ensures forall q :: 0 <= q < |elmnts| ==> IsSortOf(local[q], elmnts[q]) && |local[q]| == nlocal
    ensures forall q :: 0 <= q < |elmnts| ==> picks[q] == Samples(local[q], |elmnts|)
  {
    var npes := |elmnts|;
    local, picks := [], [];
    for r := 0 to npes
      invariant |local| == r && |picks| == r
      invariant forall q :: 0 <= q < r ==> RankSampled(elmnts[q], local[q], picks[q], npes)
    {
      var sortedRank := Sort(elmnts[r]);
      var samples := LocalSamples(sortedRank, npes);
      assert RankSampled(elmnts[r], sortedRank, samples, npes);
      local := local + [sortedRank];
      picks := picks + [samples];
    }
  }

  /** What one rank holds after its local sort and sampling. */
  predicate RankSampled(e: seq<int>, sorted: seq<int>, samples: seq<int>, npes: nat) {
    npes >= 1 && (npes == 1 || |e| >= 1) &&
    IsSortOf(sorted, e) && |sorted| == |e| && samples == Samples(sorted, npes)
  }

  /** Every rank runs the bucket scan and the send displacements over its sorted elements. */
  method CountBuckets(local: seq<seq<int>>, splitters: seq<int>) returns (scounts: seq<seq<int>>, sdispls: seq<seq<int>>)
    requires |splitters| == |local| >= 1
    requires forall q :: 0 <= q < |local| ==> Sorted(local[q])
    ensures |scounts| == |local| && |sdispls| == |local| && Square(scounts)
    ensures forall q :: 0 <= q < |local| ==>
      scounts[q] == Histogram(local[q], SplitterBucket(splitters)) && sdispls[q] == ExclusiveScan(scounts[q])
  {
    var npes := |local|;
    ghost var k := SplitterBucket(splitters);
    scounts, sdispls := [], [];
    for r := 0 to npes
      invariant |scounts| == r && |sdispls| == r
      invariant forall q :: 0 <= q < r ==>
        scounts[q] == Histogram(local[q], k) && sdispls[q] == ExclusiveScan(scounts[q]) && |scounts[q]| == npes
    {
      var c := BucketCounts(local[r], splitters);
      var d := Displacements(c);
      scounts := scounts + [c];
      sdispls := sdispls + [d];
    }
  }

  /** Every rank turns its received counts into `rdispls` and `*nsorted`. */
  method ReceiveTotals(rcounts: seq<seq<int>>) returns (nsorted: seq<int>)
    requires |rcounts| >= 1 && Square(rcounts)
    ensures |nsorted| == |rcounts| && forall q :: 0 <= q < |rcounts| ==> nsorted[q] == Sum(rcounts[q])
  {
    var npes := |rcounts|;
    nsorted := [];
    for r := 0 to npes
      invariant |nsorted| == r
      invariant forall q :: 0 <= q < r ==> nsorted[q] == Sum(rcounts[q])
    {
      var rdispls := Displacements(rcounts[r]);
      ScanTotal(rcounts[r]);
      nsorted := nsorted + [rdispls[npes - 1] + rcounts[r][npes - 1]];
    }
  }

  /** Everything the exchange delivers: rank `r` receives bucket `r` of all
      elements, and as many elements as its received counts say. */
  lemma ExchangeDeliversAll(local: seq<seq<int>>, splitters: seq<int>, scounts: seq<seq<int>>, sdispls: seq<seq<int>>)
    requires |splitters| == |local| >= 1
    requires forall s :: 0 <= s < |local| ==> Sorted(local[s])
    requires |scounts| == |local| && |sdispls| == |local|
    requires forall s :: 0 <= s < |local| ==>
      scounts[s] == Histogram(local[s], SplitterBucket(splitters)) && sdispls[s] == ExclusiveScan(scounts[s])
    ensures ValidExchange(local, scounts, sdispls)
    ensures Alltoallv(local, scounts, sdispls) == Selects(Concat(local), SplitterBucket(splitters))
    ensures forall r :: 0 <= r < |local| ==> |Alltoallv(local, scounts, sdispls)[r]| == Sum(Alltoall(scounts)[r])
  {
    ExchangeValid(local, splitters, scounts, sdispls);
    forall r | 0 <= r < |local|
      ensures Alltoallv(local, scounts, sdispls)[r] == Selects(Concat(local), SplitterBucket(splitters))[r]
      ensures |Alltoallv(local, scounts, sdispls)[r]| == Sum(Alltoall(scounts)[r])
    {
      ExchangeDeliversBuckets(local, splitters, scounts, sdispls, r);
      AlltoallvCounts(local, scounts, sdispls, r);
    }
  }

  /** The facts `Redistribute` promises, from what rank `r` received (bucket
      `r`), what it returns (that, sorted) and the counts it reports. */
  lemma FinalOutcome(all: seq<int>, splitters: seq<int>, recv: seq<seq<int>>, vsorted: seq<seq<int>>, nsorted: seq<int>)
    requires |splitters| >= 1 && recv == Selects(all, SplitterBucket(splitters))
    requires |vsorted| == |recv| && forall r :: 0 <= r < |recv| ==> IsSortOf(vsorted[r], recv[r])
    requires |nsorted| == |recv| && forall r :: 0 <= r < |recv| ==> nsorted[r] == |recv[r]|
    ensures forall r :: 0 <= r < |vsorted| ==> Sorted(vsorted[r]) && nsorted[r] == |vsorted[r]|
    ensures forall r, x :: 0 <= r < |vsorted| && x in vsorted[r] ==> InSplitterRange(x, splitters, r)
    ensures Sorted(Concat(vsorted)) && multiset(Concat(vsorted)) == multiset(all)
    ensures Sum(nsorted) == |all|
  {
    SortedBuckets(all, splitters, vsorted);
    assert Lengths(vsorted) == nsorted by {
      forall r | 0 <= r < |recv| ensures nsorted[r] == |vsorted[r]| {
        assert |vsorted[r]| == |multiset(vsorted[r])| == |multiset(recv[r])| == |recv[r]|;
      }
    }
    ConcatLength(vsorted);
  }

  /** `x` lies in splitter range `r`: at least every splitter before `r`,
      and below splitter `r` unless `r` is the last bucket. */
  predicate InSplitterRange(x: int, splitters: seq<int>, r: nat) {
    r < |splitters| &&
    (forall q :: 0 <= q < r ==> splitters[q] <= x) &&
    (r < |splitters| - 1 ==> x < splitters[r])
  }

  /** A member of bucket `r` is routed to `r` and lies in range `r`. */
  lemma BucketMember(all: seq<int>, splitters: seq<int>, r: nat, x: int)
    requires r < |splitters| && x in Select(all, SplitterBucket(splitters), r)
    ensures BucketFrom(x, splitters, 0) == r && InSplitterRange(x, splitters, r)
  {
    SelectMembers(all, SplitterBucket(splitters), r);
    ReceivedInRange(all, splitters, r, x);
  }

  /** Rank `r` ends with bucket `r` of all elements, sorted: each final slice
      lies in its splitter range, so the slices in rank order form one sorted
      permutation of all elements. */
  lemma SortedBuckets(all: seq<int>, splitters: seq<int>, vsorted: seq<seq<int>>)
    requires |splitters| >= 1 && |vsorted| == |splitters|
    requires forall r :: 0 <= r < |vsorted| ==> IsSortOf(vsorted[r], Select(all, SplitterBucket(splitters), r))
    ensures forall r, x :: 0 <= r < |vsorted| && x in vsorted[r] ==> InSplitterRange(x, splitters, r)
    ensures Sorted(Concat(vsorted)) && multiset(Concat(vsorted)) == multiset(all)
    ensures |Concat(vsorted)| == |all|
  {
    var npes := |vsorted|;
    forall r, x | 0 <= r < npes && x in vsorted[r] ensures InSplitterRange(x, splitters, r) {
      assert x in multiset(vsorted[r]);
      BucketMember(all, splitters, r, x);
    }
    SortedBucketsOrdered(all, splitters, vsorted);
    SortedBucketsPermute(all, splitters, vsorted);
  }

  lemma SortedBucketsOrdered(all: seq<int>, splitters: seq<int>, vsorted: seq<seq<int>>)
    requires |splitters| >= 1 && |vsorted| == |splitters|
    requires forall r :: 0 <= r < |vsorted| ==> IsSortOf(vsorted[r], Select(all, SplitterBucket(splitters), r))
    ensures Sorted(Concat(vsorted))
  {
    var npes := |vsorted|;
    forall i, j, x, y | 0 <= i < j < npes && x in vsorted[i] && y in vsorted[j] ensures x <= y {
      assert x in multiset(vsorted[i]) && y in multiset(vsorted[j]);
      BucketMember(all, splitters, i, x);
      BucketMember(all, splitters, j, y);
      BucketsOrdered(x, y, splitters);
    }
    SortedConcat(vsorted);
  }

  lemma SortedBucketsPermute(all: seq<int>, splitters: seq<int>, vsorted: seq<seq<int>>)
    requires |splitters| >= 1 && |vsorted| == |splitters|
    requires forall r :: 0 <= r < |vsorted| ==> IsSortOf(vsorted[r], Select(all, SplitterBucket(splitters), r))
    ensures multiset(Concat(vsorted)) == multiset(all)
    ensures |Concat(vsorted)| == |all|
  {
    var k := SplitterBucket(splitters);
    var buckets := Selects(all, k);
    forall r | 0 <= r < |vsorted| ensures multiset(vsorted[r]) == multiset(buckets[r]) {
    }
    ConcatPermutes(vsorted, buckets);
    SelectsPermute(all, k);
    assert |Concat(vsorted)| == |multiset(Concat(vsorted))|;
  }

  /** `main`'s report: the sum of all ranks' `nsorted` equals `n` exactly
      when the ranks divide `n`; otherwise `n % npes` elements were never
      generated. */
  lemma TotalMatchesInput(n: nat, npes: nat)
    requires npes >= 1
    ensures npes * (n / npes) == n <==> n % npes == 0
  {
    assert n == npes * (n / npes) + n % npes;
  }

  /** `main`'s loop adding up the gathered `nsorted` values at the root. */
  method TotalSorted(totalCounts: seq<int>) returns (total: int)
    requires |totalCounts| >= 1
    ensures total == Sum(totalCounts)
  {
    total := totalCounts[0];
    assert totalCounts[..1] == [totalCounts[0]];
    for i := 1 to |totalCounts|
      invariant total == Sum(totalCounts[..i])
    {
      SumSnoc(totalCounts, i);
      total := total + totalCounts[i];
    }
    assert totalCounts[..|totalCounts|] == totalCounts;
  }
}
