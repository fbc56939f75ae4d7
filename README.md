# Four distributed integer sorts, modelled in Dafny

The repository benchmarks four MPI sorting programs over `int` arrays:

- **merge sort** (`Merge_Sort/merge_sort.cpp`): near-equal block distribution, local sort, and a binomial tree of pairwise merges that ends at rank 0, followed by a sortedness scan;
- **sample sort** (`Sample_Sort/sample_sort.cpp`): local sort, equally spaced samples, splitters picked from all gathered samples, bucket counting, an all-to-all exchange and a final local sort;
- **bitonic sort** (`Bitonic_Sort/bitonic_sort.cpp`): an in-place recursive bitonic network on each rank, then a hypercube schedule of element-wise compare-exchanges between partner ranks;
- **radix sort** (`Radix_Sort/radixSort.cpp`): a stable counting sort on one decimal digit, the local LSD radix loop, and a distributed loop that re-sorts the gathered array at the root for every digit.

The ranks' memories are a sequence of slices indexed by rank, `seq<seq<int>>`. Collective operations become pure functions on that sequence:

- scatter is `Seqs.Split`;
- gather is `Seqs.Concat`;
- `MPI_Alltoall` is a transpose (`SampleSort.Alltoall`);
- `MPI_Alltoallv` cuts every sender's buffer by counts and displacements (`SampleSort.Alltoallv`);
- `MPI_Sendrecv` is a simultaneous read of the partner's slice;
- `MPI_Allreduce(MPI_MAX)` is the maximum of the local maxima.

Code that updates arrays in place stays imperative. `compare_exchange`, `bitonic_sort_local`, `counting_sort` and `get_max` are methods over `array<int>` with loop invariants. Each is proved against a function on sequences, and the lemmas are proved about those functions:

- the comparator network is `BitonicNetwork.Merge` / `BitonicNetwork.BitonicLocal`;
- the stable bucket layout is `Buckets.Partition`;
- the reference sort is `Seqs.Sort`.

The loops of `main` and of the distributed routines are methods over sequences. Their invariants tie each round to a specification function: `MergeSort.TreeState`, `RadixSort.Lsd` and `BitonicSort.Stages`.

Files:

- `seqs.dfy` (`Seqs`): order, sums, exclusive prefix sums, split/concatenate, the in-place gather, and the library sort.
- `arith.dfy` (`Arith`): division facts, powers of two and ten, bitwise `^` and `&` on naturals, and integer `log2`.
- `buckets.dfy` (`Buckets`): stable routing of elements to numbered buckets, by decimal digit or by splitter range.
- `merge_sort.dfy` (`MergeSort`), `sample_sort.dfy` (`SampleSort`), `radix_sort.dfy` (`RadixSort`): one module per engine.
- `rank_bags.dfy` (`RankBags`): multisets of the elements held by a range of ranks, and how pairwise exchanges between blocks of ranks keep them.
- `bitonic_network.dfy` (`BitonicNetwork`): the local comparator network and its 0-1 principle proof.
- `bitonic_sort.dfy` (`BitonicSort`): the array methods, the hypercube schedule and `main`'s guards.

Three behaviours of the code worth knowing:

- `sample_sort.cpp`'s `main` does not reject `n % npes != 0`. Every rank sorts `n / npes` elements, and `SampleSort.TotalMatchesInput` shows that the reported total equals `n` exactly when the ranks divide `n`.
- `merge_sort.cpp` does not require divisibility. It hands the first `inputSize % size` ranks one extra element (`MergeSort.BlockDistribution`).
- The comment "Keep higher elements" in `mpi_bitonic_sort` does not describe the code. The lower rank keeps the minima and the higher rank keeps the maxima whatever `dir` is (`BitonicSort.DirectionIrrelevant`).

## Model

| member | source | states |
|---|---|---|
| Seqs.Sort | Merge_Sort/merge_sort.cpp:169 | the library sort used by every engine returns a sorted permutation of its input, of the same length |
| Seqs.SortIdempotent | Sample_Sort/sample_sort.cpp:120 | sorting an already sorted sequence changes nothing, and sorting twice equals sorting once |
| Seqs.ExclusiveScanTiles | Merge_Sort/merge_sort.cpp:140-145 | displacements computed as an exclusive prefix sum of non-negative counts start at 0; each block ends where the next begins; every block lies inside `[0, total)` |
| Seqs.ExclusiveScan | Merge_Sort/merge_sort.cpp:140-145 | the displacements have one entry per count, and the first is 0 |
| Seqs.EvenShare | Radix_Sort/radixSort.cpp:132-139 | the divisibility check accepts exactly when `n % p == 0`, and then `local_n * p == n` |
| Seqs.Split | Radix_Sort/radixSort.cpp:91 | `MPI_Scatter` of `p * local_n` elements hands each of the `p` ranks exactly `local_n` of them |
| Seqs.ConcatSplit | Radix_Sort/radixSort.cpp:176 | scattering an array into `p` blocks of `local_n` and gathering them back in rank order returns the array |
| Seqs.SplitConcat | Radix_Sort/radixSort.cpp:84-91 | gathering `p` uniform slices and scattering the result back returns the same slices |
| Seqs.GatherInPlace | Bitonic_Sort/bitonic_sort.cpp:239-250 | `MPI_Gather` with `MPI_IN_PLACE` at the root keeps the root's first `local_n` cells as they were and appends the other ranks' slices |
| Seqs.GatherInPlaceExact | Radix_Sort/radixSort.cpp:193-198 | the in-place gather is a permutation of all final slices if and only if the root's untouched prefix is a permutation of the root's own final slice |
| Arith.PowerOfTwoTest | Bitonic_Sort/bitonic_sort.cpp:151 | for `n >= 1`, `(n & (n-1)) == 0` holds exactly when `n` is a power of two |
| Arith.XorPow2 | Bitonic_Sort/bitonic_sort.cpp:78-79 | `rank ^ (1 << j)` is `rank + 2^j` when bit `j` of `rank` is clear and `rank - 2^j` when it is set |
| Arith.Log2OfPow2 | Bitonic_Sort/bitonic_sort.cpp:72 | for a power-of-two size, `2^log2(size) == size` |
| Buckets.KeyInRange | Radix_Sort/radixSort.cpp:35 | for a non-negative element, C++'s truncating `(x / exp) % 10` equals the model's digit and indexes `count[10]`; a splitter bucket is in `[0, npes)` |
| Buckets.NegativeDigitIndex | Radix_Sort/radixSort.cpp:35 | for `x = -1` and `exp = 1` the C++ digit is `-1`, an index before `count[0]` |
| Buckets.TruncatedDigit | Radix_Sort/radixSort.cpp:35 | C++'s `(x / exp) % 10` with truncating `/` and `%` lies strictly between `-10` and `10` |
| Buckets.KeyOf | Radix_Sort/radixSort.cpp:35 | the bucket of an element, its decimal digit or its splitter bucket, is an index in `[0, Width)` |
| Buckets.BucketFrom | Sample_Sort/sample_sort.cpp:77-79 | the scan from `j` stops at a bucket in `[j, npes)` |
| Buckets.Histogram | Radix_Sort/radixSort.cpp:34-36 | one counter per bucket, each between 0 and the number of elements |
| Buckets.HistogramTotal | Radix_Sort/radixSort.cpp:34-40 | the histogram has one counter per bucket and its counters sum to the number of elements |
| Buckets.HistogramSnoc | Radix_Sort/radixSort.cpp:35 | counting one more element raises exactly the counter of its bucket by one and leaves the others as they were |
| Buckets.Partition | Radix_Sort/radixSort.cpp:42-48 | the bucket layout has as many elements as the input |
| Buckets.PartitionPermutes | Radix_Sort/radixSort.cpp:30-52 | laying the buckets out one after another is a permutation of the input |
| Buckets.PartitionKeyOrdered | Radix_Sort/radixSort.cpp:42-48 | along the bucket layout the keys never decrease: the digits `(x / exp) % 10` after a counting pass are nondecreasing |
| Buckets.PartitionStable | Radix_Sort/radixSort.cpp:42-45 | within every bucket the layout keeps the input's relative order (stability) |
| Buckets.PartitionBucketKeys | Radix_Sort/radixSort.cpp:43 | every element placed in bucket `b` comes from the input and has key `b` |
| Buckets.PartitionOfKeyOrdered | Radix_Sort/radixSort.cpp:42-48 | a sequence already ordered by key is left unchanged by the bucket layout |
| MergeSort.BlockDistribution | Merge_Sort/merge_sort.cpp:137-145 | the counts are non-negative and sum to `inputSize`; any two differ by at most one, larger for lower ranks; rank `i` gets `avgSize+1` exactly when `i < remainder`; the displacements are the exclusive prefix sum of the counts |
| MergeSort.BlockCounts | Merge_Sort/merge_sort.cpp:138-145 | counts of `avgSize + (i < remainder ? 1 : 0)` are non-negative, sum to `inputSize`, differ by at most one with the larger ones first, and exceed `inputSize / size` exactly for the first `inputSize % size` ranks |
| MergeSort.Scatterv | Merge_Sort/merge_sort.cpp:163-164 | every rank receives exactly `sendCounts[rank]` elements |
| MergeSort.ScattervTiles | Merge_Sort/merge_sort.cpp:163-164 | with prefix-sum displacements, the scattered blocks fit in the input and concatenate back to it |
| MergeSort.LocalSort | Merge_Sort/merge_sort.cpp:169 | every rank's block ends sorted and a permutation of what it received |
| MergeSort.Merge | Merge_Sort/merge_sort.cpp:193-196 | the merged vector holds the union of both inputs, of length `localSize + recvSize` |
| MergeSort.MergeSorted | Merge_Sort/merge_sort.cpp:193-196 | merging two sorted vectors yields a sorted vector |
| MergeSort.MergeIsSort | Merge_Sort/merge_sort.cpp:193-196 | merging two sorted vectors equals sorting their concatenation |
| MergeSort.RoundPartners | Merge_Sort/merge_sort.cpp:177-210 | a receiver's partner `rank + step` is active, is a sender of the same round (`rank % (2*step) == step`), and is inactive afterwards |
| MergeSort.MergeData | Merge_Sort/merge_sort.cpp:176-198 | a round leaves one data vector per rank |
| MergeSort.NextActive | Merge_Sort/merge_sort.cpp:199-210 | a round keeps one flag per rank, and no inactive rank becomes active again |
| MergeSort.RoundKeepsState | Merge_Sort/merge_sort.cpp:176-213 | a round turns "exactly the multiples of `step` are active, each holding its sorted span of `step` blocks" into the same statement for `2*step` |
| MergeSort.InitialState | Merge_Sort/merge_sort.cpp:169-174 | after the local sorts, with `step = 1` and every rank active, each rank holds its own sorted block |
| MergeSort.FinalState | Merge_Sort/merge_sort.cpp:175-214 | once `step >= size`, rank 0 holds a sorted permutation of all blocks |
| MergeSort.Conservation | Merge_Sort/merge_sort.cpp:186-209 | in every round the active ranks' data together is a permutation of the whole input, and their lengths sum to `inputSize` |
| MergeSort.MergeTree | Merge_Sort/merge_sort.cpp:173-214 | rank 0 ends with a sorted permutation of all blocks after `ceil(log2 size)` rounds |
| MergeSort.CheckSorted | Merge_Sort/merge_sort.cpp:217-224 | `isCorrect` is true exactly when no adjacent pair is out of order, i.e. when the data is sorted |
| MergeSort.MergeSortRun | Merge_Sort/merge_sort.cpp:137-224 | distribution, local sorts, the merge tree and the scan leave rank 0 with a sorted permutation of the input, and the scan reports it correct |
| SampleSort.SampleIndex | Sample_Sort/sample_sort.cpp:49 | for `1 <= i < npes` and `nlocal >= 1` the sample index `i*nlocal/npes` lies in `[0, nlocal)` |
| SampleSort.SampleIndexMono | Sample_Sort/sample_sort.cpp:48-49 | the sample indices never decrease with `i` |
| SampleSort.Samples | Sample_Sort/sample_sort.cpp:48-49 | there are `npes-1` samples, each an element of the local array |
| SampleSort.SamplesSorted | Sample_Sort/sample_sort.cpp:43-49 | samples taken from the sorted local array are nondecreasing |
| SampleSort.LocalSamples | Sample_Sort/sample_sort.cpp:48-49 | the sampling loop fills exactly the samples above |
| SampleSort.SortAndSample | Sample_Sort/sample_sort.cpp:43-49 | every rank sorts its `nlocal` elements and takes its samples from the sorted array |
| SampleSort.SplittersAsWritten | Sample_Sort/sample_sort.cpp:66-68 | the splitter loop as written defines splitters exactly when every read `allpicks[i*npes]` is inside `allpicks`; then there are `npes` splitters, the last being `INT_MAX` |
| SampleSort.SplittersAsWrittenReadPastEnd | Sample_Sort/sample_sort.cpp:67 | with `npes*(npes-1)` gathered samples and `npes >= 2`, the last read is at index `npes*(npes-1)`, one past the end |
| SampleSort.SplitterIndex | Sample_Sort/sample_sort.cpp:67 | the corrected index `i*npes - 1` is inside `allpicks` for every `1 <= i < npes` |
| SampleSort.Splitters | Sample_Sort/sample_sort.cpp:66-68 | the corrected choice yields `npes` splitters, each of the first `npes-1` taken from the samples, and the last is `INT_MAX` |
| SampleSort.SplittersSorted | Sample_Sort/sample_sort.cpp:60-68 | splitters picked from sorted 32-bit samples and closed by `INT_MAX` are nondecreasing |
| SampleSort.PickSplitters | Sample_Sort/sample_sort.cpp:66-68 | the corrected splitter loop computes exactly these splitters |
| SampleSort.GatherSplitters | Sample_Sort/sample_sort.cpp:53-68 | the all-gather collects `npes*(npes-1)` samples, and the splitters are picked from their sorted sequence |
| SampleSort.BucketFromBounds | Sample_Sort/sample_sort.cpp:76-81 | the scan from `j` stops at the first bucket whose splitter exceeds the element, or at the last bucket; every splitter it passes is `<=` the element |
| SampleSort.BucketFromResume | Sample_Sort/sample_sort.cpp:76-81 | for nondecreasing elements the bucket index never decreases, and resuming the scan where the previous element stopped gives the same bucket as scanning from `j` |
| SampleSort.BucketsOrdered | Sample_Sort/sample_sort.cpp:76-81 | an element in a lower bucket is strictly smaller than one in a higher bucket |
| SampleSort.BucketCounts | Sample_Sort/sample_sort.cpp:75-81 | the counting loop over sorted elements computes the histogram of the elements by splitter bucket |
| SampleSort.BucketRanges | Sample_Sort/sample_sort.cpp:89-91 | with `sdispls` the exclusive prefix sum of `scounts`, bucket `r` is the consecutive range `[sdispls[r], sdispls[r]+scounts[r])` of the sorted elements, inside the array |
| SampleSort.ExchangeValid | Sample_Sort/sample_sort.cpp:75-112 | counts and displacements computed from sorted local arrays describe, for every sender, consecutive in-bounds pieces covering its whole array, as `MPI_Alltoallv` needs |
| SampleSort.Displacements | Sample_Sort/sample_sort.cpp:104-106 | the displacement loop computes the exclusive prefix sum of the counts |
| SampleSort.ScanTotal | Sample_Sort/sample_sort.cpp:107 | `rdispls[npes-1] + rcounts[npes-1]` is the total of `rcounts` |
| SampleSort.Alltoall | Sample_Sort/sample_sort.cpp:97 | the count exchange keeps a square matrix of one count per sender and receiver |
| SampleSort.AlltoallInvolution | Sample_Sort/sample_sort.cpp:97 | entry `[r][s]` after the exchange is what rank `s` sent to `r`: exchanging twice returns the original counts |
| SampleSort.Alltoallv | Sample_Sort/sample_sort.cpp:112 | the exchange delivers one receive buffer per rank |
| SampleSort.AlltoallvCounts | Sample_Sort/sample_sort.cpp:97-112 | rank `r` receives exactly the sum of column `r` of all senders' counts |
| SampleSort.ExchangeDeliversBuckets | Sample_Sort/sample_sort.cpp:76-112 | rank `r` receives exactly bucket `r` of the ranks' concatenated elements, in rank order |
| SampleSort.ExchangeDeliversAll | Sample_Sort/sample_sort.cpp:76-112 | the exchange is valid for the computed counts and displacements and hands every rank its bucket |
| SampleSort.ReceivedInRange | Sample_Sort/sample_sort.cpp:76-81 | every element rank `r` receives is `>=` every splitter before `r` and, unless `r` is last, `<` splitter `r` |
| SampleSort.CountBuckets | Sample_Sort/sample_sort.cpp:75-91 | every rank's `scounts` is its bucket histogram and its `sdispls` the prefix sum |
| SampleSort.ReceiveTotals | Sample_Sort/sample_sort.cpp:104-107 | every rank's `*nsorted` is the sum of what it receives |
| SampleSort.FinalSort | Sample_Sort/sample_sort.cpp:120 | each rank's received elements end sorted and a permutation of what arrived |
| SampleSort.SortedBuckets | Sample_Sort/sample_sort.cpp:112-120 | if every rank sorts its bucket, the rank-order concatenation is sorted and is a permutation of all elements |
| SampleSort.FinalOutcome | Sample_Sort/sample_sort.cpp:107-120 | each rank's output is sorted, within its splitter range, and of length `nsorted`; the concatenation is a sorted permutation of the input; the `nsorted` values sum to the total |
| SampleSort.Redistribute | Sample_Sort/sample_sort.cpp:75-120 | from counting to the final sort: every rank ends sorted and inside its splitter range; the concatenation is a sorted permutation; the totals add up |
| SampleSort.SampleSortRun | Sample_Sort/sample_sort.cpp:18-133 | the whole `SampleSort` on all ranks: the rank-order concatenation is a sorted permutation of the input; the `nsorted` values sum to `npes * (n / npes)` |
| SampleSort.TotalMatchesInput | Sample_Sort/sample_sort.cpp:216-221 | the reported total equals `n` if and only if `n % npes == 0` |
| SampleSort.TotalSorted | Sample_Sort/sample_sort.cpp:216-219 | the root's summing loop computes the sum of the gathered counts |
| RadixSort.Max | Radix_Sort/radixSort.cpp:19-27 | the maximum of a non-empty sequence is one of its elements and `>=` every element |
| RadixSort.GetMax | Radix_Sort/radixSort.cpp:19-27 | `get_max` returns an element of `data[0..n)` that is `>=` every element of that range |
| RadixSort.CountDigits | Radix_Sort/radixSort.cpp:32-36 | after the counting loop, `count[d]` is the number of elements whose digit is `d` |
| RadixSort.RunningEnds | Radix_Sort/radixSort.cpp:38-40 | the running-sum loop turns the digit counts into the end position of every digit's bucket in the output |
| RadixSort.DigitEnds | Radix_Sort/radixSort.cpp:32-40 | the first two loops leave `count[d]` equal to the end position of bucket `d` |
| RadixSort.OffsetIsLayoutPrefix | Radix_Sort/radixSort.cpp:38-40 | after the prefix pass, the count for digit `d` is the number of elements with a digit below `d`, i.e. where bucket `d` starts in the output |
| RadixSort.OffsetTotal | Radix_Sort/radixSort.cpp:38-40 | the last running count is `n` |
| RadixSort.PlaceOne | Radix_Sort/radixSort.cpp:43-44 | each write index `count[d] - 1` of the backward scan lies inside bucket `d`'s range and inside `[0, n)` |
| RadixSort.PlacedFinally | Radix_Sort/radixSort.cpp:42-48 | when the backward scan is done, `output` is the stable layout of the digit buckets |
| RadixSort.PlaceBackward | Radix_Sort/radixSort.cpp:42-45 | given the bucket ends, the backward scan fills `output` with the stable digit-bucket layout of `data` |
| RadixSort.CountingSort | Radix_Sort/radixSort.cpp:30-52 | `counting_sort` leaves `data` equal to the stable digit-bucket layout of its input (a permutation with equal digits in input order), and its digits nondecreasing |
| RadixSort.PartitionKeepsRange | Radix_Sort/radixSort.cpp:30-52 | a pass keeps every element within `[0, max]`, so later passes still see non-negative data bounded by the maximum |
| RadixSort.DigitPassSortsMod | Radix_Sort/radixSort.cpp:34-48 | a pass on digit `exp` over data already ordered by `x % exp` leaves it ordered by `x % (10*exp)` |
| RadixSort.PassesAreDigits | Radix_Sort/radixSort.cpp:58 | the loop `exp = 1, 10, ...` while `max / exp > 0` runs once per decimal digit of the maximum |
| RadixSort.DigitPasses | Radix_Sort/radixSort.cpp:58-60 | the `exp` loop of `radix_sort_local` leaves `data` as the LSD passes from `exp = 1` on its old contents |
| RadixSort.LsdSorts | Radix_Sort/radixSort.cpp:55-61 | the remaining digit passes over non-negative data bounded by the maximum leave it sorted and a permutation |
| RadixSort.LsdSortsInput | Radix_Sort/radixSort.cpp:55-61 | all digit passes from `exp = 1` sort the input |
| RadixSort.RadixSortLocal | Radix_Sort/radixSort.cpp:55-61 | `radix_sort_local` leaves non-negative data sorted and a permutation of its input, after one pass per decimal digit of the maximum |
| RadixSort.AllreduceMaxIsGlobal | Radix_Sort/radixSort.cpp:68-71 | the maximum of the ranks' local maxima is the maximum of the whole array |
| RadixSort.AllreduceMax | Radix_Sort/radixSort.cpp:68-71 | the reduced maximum is `>=` every element of every rank |
| RadixSort.LocalPasses | Radix_Sort/radixSort.cpp:76 | each rank's local pass keeps the number of ranks and every slice's length |
| RadixSort.RadixRound | Radix_Sort/radixSort.cpp:74-96 | every round leaves each rank with exactly `local_n` elements |
| RadixSort.PartitionOfLocalPasses | Radix_Sort/radixSort.cpp:76-88 | the root's pass over the gathered, locally passed slices equals one pass over the plain concatenation |
| RadixSort.RadixRoundGlobal | Radix_Sort/radixSort.cpp:74-91 | a round acts on the rank-order concatenation as one stable pass on the current digit |
| RadixSort.RadixRounds | Radix_Sort/radixSort.cpp:74-96 | the round loop keeps `local_n` elements per rank and acts on the rank-order concatenation as the LSD passes from `exp = 1` |
| RadixSort.MpiRadixSort | Radix_Sort/radixSort.cpp:64-97 | every slice keeps `local_n` elements; the rank-order concatenation ends sorted and a permutation of the input; there is one round per decimal digit of the global maximum |
| RadixSort.RadixRun | Radix_Sort/radixSort.cpp:132-198 | the run is accepted if and only if `size` divides `n`; then the gathered final slices are the input, sorted |
| RadixSort.GatherKeepsUnsortedRoot | Radix_Sort/radixSort.cpp:193-198 | for input `[1, 0]` on two ranks, the only correct final slices are `[0]` and `[1]`, yet the in-place gather yields `[1, 1]`, which is not a permutation of the input |
| BitonicNetwork.PassBag | Bitonic_Sort/bitonic_sort.cpp:46-58 | one pass of the merge loop permutes its range |
| BitonicNetwork.Pass | Bitonic_Sort/bitonic_sort.cpp:46-58 | one pass of the merge loop keeps the range's length |
| BitonicNetwork.Merge | Bitonic_Sort/bitonic_sort.cpp:43-60 | the halving merge keeps the range's length |
| BitonicNetwork.BitonicLocal | Bitonic_Sort/bitonic_sort.cpp:34-62 | the recursive local sort keeps the range's length |
| BitonicNetwork.MergeBag | Bitonic_Sort/bitonic_sort.cpp:43-60 | the halving merge loop permutes its range |
| BitonicNetwork.BitonicLocalBag | Bitonic_Sort/bitonic_sort.cpp:34-62 | the local bitonic sort permutes its range |
| BitonicNetwork.MergeThr | Bitonic_Sort/bitonic_sort.cpp:43-60 | the merge commutes with thresholding at any value, the core of the 0-1 principle |
| BitonicNetwork.MergeSorts01 | Bitonic_Sort/bitonic_sort.cpp:43-60 | on a 0-1 sequence of power-of-two length whose ones form a cyclic run, the ascending merge sorts it |
| BitonicNetwork.MergeSortsDesc01 | Bitonic_Sort/bitonic_sort.cpp:43-60 | on the same sequences the descending merge leaves them in descending order |
| BitonicNetwork.BitonicLocalSorts | Bitonic_Sort/bitonic_sort.cpp:34-62 | for a power-of-two length the local sort leaves its range ascending when `dir == 1` and descending when `dir == 0` |
| BitonicSort.ExchangeOrders | Bitonic_Sort/bitonic_sort.cpp:20-31 | below `count`, `data1[i] <= data2[i]` for `dir == 1` and `>=` for `dir == 0`, and each index keeps its unordered pair; indices at or above `count` are unchanged |
| BitonicSort.ComparedPair | Bitonic_Sort/bitonic_sort.cpp:24-29 | one compare-exchange puts the smaller value first for `dir == 1` and the larger first for `dir == 0`, and keeps the pair's two values |
| BitonicSort.CompareExchange | Bitonic_Sort/bitonic_sort.cpp:20-31 | the in-place loop leaves both arrays as the element-wise exchange of their old contents |
| BitonicSort.CompareAt | Bitonic_Sort/bitonic_sort.cpp:48-56 | one iteration of the inner loop swaps the pair at distance `step` when it is out of `dir` order, and touches nothing outside the range |
| BitonicSort.PassRange | Bitonic_Sort/bitonic_sort.cpp:46-58 | the inner `for` loop performs one merge pass on the range and leaves the rest of the array unchanged |
| BitonicSort.MergeRange | Bitonic_Sort/bitonic_sort.cpp:43-60 | the `while (step > 0)` loop performs the halving merge on the range and leaves the rest unchanged |
| BitonicSort.SortHalves | Bitonic_Sort/bitonic_sort.cpp:38-40 | the two recursive calls leave the first half sorted by the ascending network, the next half by the descending network, and the odd last cell and everything outside the range unchanged |
| BitonicSort.BitonicSortLocal | Bitonic_Sort/bitonic_sort.cpp:34-62 | the range becomes the bitonic network's output on its old contents (hence a permutation, and sorted in `dir` order for power-of-two lengths); everything outside is unchanged |
| BitonicSort.PartnerFacts | Bitonic_Sort/bitonic_sort.cpp:78-79 | for `j < log2 size` the partner `rank ^ (1 << j)` is a rank, differs from `rank`, and is an involution |
| BitonicSort.Direction | Bitonic_Sort/bitonic_sort.cpp:82 | `dir` is 0 or 1, and 1 exactly when bit `k+1` of `rank` is clear |
| BitonicSort.Exchanged | Bitonic_Sort/bitonic_sort.cpp:91-114 | the four-way branch keeps the slice's length, and every cell ends with one of the two values compared there |
| BitonicSort.DirectionIrrelevant | Bitonic_Sort/bitonic_sort.cpp:82-114 | for either value of `dir`, the lower rank of a pair keeps the element-wise minima and the higher rank the element-wise maxima |
| BitonicSort.MinMaxBag | Bitonic_Sort/bitonic_sort.cpp:85-114 | the two slices after an exchange together hold the same multiset as before |
| BitonicSort.MinMaxSorted | Bitonic_Sort/bitonic_sort.cpp:85-114 | the element-wise minima and maxima of two ascending slices are ascending |
| BitonicSort.RankStepMinMax | Bitonic_Sort/bitonic_sort.cpp:78-114 | in every step each rank's partner is a distinct rank pairing back with it; the lower of the two ends with the minima and the higher with the maxima |
| BitonicSort.ExchangeStep | Bitonic_Sort/bitonic_sort.cpp:78-114 | one step on all ranks keeps the number of ranks and `local_n` elements on each |
| BitonicSort.ExchangeStepPermutes | Bitonic_Sort/bitonic_sort.cpp:85-114 | one exchange step over all ranks permutes the rank-order concatenation |
| BitonicSort.ExchangeStepKeepsSorted | Bitonic_Sort/bitonic_sort.cpp:85-114 | one exchange step keeps every slice ascending if every slice was |
| BitonicSort.StageStepsPermute | Bitonic_Sort/bitonic_sort.cpp:76-116 | the steps of one stage permute the rank-order concatenation |
| BitonicSort.StageSteps | Bitonic_Sort/bitonic_sort.cpp:76-116 | the steps of a stage keep the number of ranks and `local_n` elements on each |
| BitonicSort.Stage | Bitonic_Sort/bitonic_sort.cpp:76-116 | the step loop of stage `k` runs steps `j = k` down to 0, `k + 1` of them, and keeps `local_n` elements per rank |
| BitonicSort.StagesPermute | Bitonic_Sort/bitonic_sort.cpp:74-117 | the whole stage/step schedule permutes the rank-order concatenation |
| BitonicSort.Stages | Bitonic_Sort/bitonic_sort.cpp:74-117 | the whole schedule keeps the number of ranks and `local_n` elements on each |
| BitonicSort.StagesKeepSorted | Bitonic_Sort/bitonic_sort.cpp:74-117 | the whole schedule keeps every slice ascending |
| BitonicSort.MpiBitonicSort | Bitonic_Sort/bitonic_sort.cpp:65-122 | slices keep `local_n` elements; the result is the stage/step schedule on the input and permutes it; sorted slices stay sorted; there are `logp*(logp+1)/2` steps |
| BitonicSort.NotGloballySorted | Bitonic_Sort/bitonic_sort.cpp:65-122 | on two ranks holding `[1, 10]` and `[2, 3]` the schedule yields `[1, 3]` and `[2, 10]`, whose concatenation is not sorted |
| BitonicSort.TwoRanks | Bitonic_Sort/bitonic_sort.cpp:74-117 | on two ranks the whole schedule is one exchange: rank 0 ends with the element-wise minima and rank 1 with the maxima |
| BitonicSort.AcceptRun | Bitonic_Sort/bitonic_sort.cpp:151-169 | `main` goes on exactly when `numtasks` is a power of two and divides `n`, with `local_n * numtasks == n` |
| BitonicSort.AcceptRunChecked | Bitonic_Sort/bitonic_sort.cpp:151-169 | the corrected guard also demands that `local_n` be zero or a power of two |
| BitonicSort.LocalSortNeedsPowerOfTwo | Bitonic_Sort/bitonic_sort.cpp:161-169 | `n = 12` on 4 ranks passes the guards with `local_n = 3`, and the local sort turns `[3, 2, 1]` into the unsorted `[2, 3, 1]` |
| BitonicSort.SortSlice | Bitonic_Sort/bitonic_sort.cpp:222-224 | one rank's local sort over its whole slice yields the ascending network's output on the slice |
| BitonicSort.LocalSortOf | Bitonic_Sort/bitonic_sort.cpp:222-224 | the ascending local sort keeps a slice's elements, and sorts it when its length is zero or a power of two |
| BitonicSort.LocalSorts | Bitonic_Sort/bitonic_sort.cpp:220-224 | every rank's local sort permutes its slice and keeps its length, and sorts it when `local_n` is a power of two |
| BitonicSort.GatherDropsRootSlice | Bitonic_Sort/bitonic_sort.cpp:239-250 | for input `[2, 1]` on two ranks the final slices are `[1]` and `[2]`, yet the in-place gather yields `[2, 2]`, which is not a permutation of the input |
| BitonicSort.BitonicRun | Bitonic_Sort/bitonic_sort.cpp:151-250 | with the corrected guard and gather, a run is accepted exactly when the guard holds; the gathered array is then a permutation of the input, made of `numtasks` ascending blocks of `local_n` |

## Left out

- MPI transport semantics are not modelled: blocking, buffering, deadlock, message matching and tags. Collectives are pure functions on the per-rank slices. Not modelled, for instance: the size message a merge-sort receiver sends back to its sender through `MPI_Sendrecv` (Merge_Sort/merge_sort.cpp:181-183), which is never received.
- Caliper regions, Adiak metadata, `MPI_Wtime` timing and `MPI_Barrier` have no effect on the data and are left out.
- Input generation (`rand`, `srand`, `time`), argument parsing (`atoi`, `atoll`), input-type validation and all printing are left out. The input array is a parameter.
- Memory management (`malloc`, `free`, `new`, `delete`) is left out.
- Merge_Sort/Cali/find_missing_files.py is not part of this model. It only checks for files and prints.
- The floating-point `log2` of `mpi_bitonic_sort` is replaced by an integer `Arith.Log2`. It is exact for the power-of-two sizes that `main` admits.
- Integers are unbounded. The source's `int` arithmetic does not overflow in this model:
  - `exp *= 10` once the maximum reaches 10^9;
  - `i * nlocal` in the sample index;
  - 32-bit counts of a `long long` input size.
- MpiBitonicSort: global sortedness across ranks is not claimed, because it does not hold. `BitonicSort.NotGloballySorted` exhibits two ascending slices that the schedule leaves globally unsorted. What is proved is the permutation, per-slice sortedness and the step count.
- BitonicRun: states per-block sortedness, not a sorted gathered array, for the reason above. It uses the corrected guard and gather (see Findings).
- RadixRun: requires a non-empty input of non-negative elements. `get_max` reads `local_data[0]`, and for negative values the digit `(x / exp) % 10` is a negative index in C++.
- MpiRadixSort: requires `local_n >= 1` and non-negative elements, for the same two reasons.
- RadixSortLocal: requires a non-empty array of non-negative elements, for the same reasons.
- CountingSort: requires non-negative elements, because a negative digit would index `count` out of bounds. The digit `Buckets.KeyOf` uses Dafny's Euclidean `%`, which agrees with C++'s truncating `%` only on non-negative values (`Buckets.KeyInRange`, `Buckets.NegativeDigitIndex`), and every radix member requires those.
- SampleSortRun: requires `nlocal >= 1` when there is more than one rank, because the sampling loop reads `elmnts[i*nlocal/npes]`. It uses the corrected splitter index (see Findings).
- SplittersSorted: requires every sample to be a 32-bit value, so that `INT_MAX` bounds it.

## Findings

| source | as written | input that shows it | evidently intended | confidence | as-written member | corrected member |
|---|---|---|---|---|---|---|
| Sample_Sort/sample_sort.cpp:67 | `splitters[i-1] = allpicks[i*npes]` for `i = 1 .. npes-1` | any `npes >= 2`: at `i = npes-1` the read is `allpicks[npes*(npes-1)]`, one past the `npes*(npes-1)` allocation | `allpicks[i*npes - 1]`, the last of every `npes` sorted samples, always in bounds | high; not executed | SampleSort.SplittersAsWritten, SampleSort.SplittersAsWrittenReadPastEnd | SampleSort.Splitters, SampleSort.SplittersSorted, SampleSort.PickSplitters |
| Bitonic_Sort/bitonic_sort.cpp:241 | rank 0 gathers with `MPI_IN_PLACE` into `data`, but its sorted slice is in `local_data`, so `data[0..local_n)` keeps the unsorted input block | `[2, 1]` on two ranks: final slices `[1]` and `[2]`, gathered array `[2, 2]` | rank 0 passes `local_data` as its send buffer, so the gathered array is the concatenation of all final slices | high; not executed | Seqs.GatherInPlace, Seqs.GatherInPlaceExact, BitonicSort.GatherDropsRootSlice | BitonicSort.BitonicRun |
| Radix_Sort/radixSort.cpp:195 | the same in-place gather at rank 0 after `mpi_radix_sort` | `[1, 0]` on two ranks: final slices `[0]` and `[1]`, gathered array `[1, 1]` | the gathered array is the concatenation of all final slices, the sorted input | high; not executed | Seqs.GatherInPlace, RadixSort.GatherKeepsUnsortedRoot | RadixSort.RadixRun |
| Bitonic_Sort/bitonic_sort.cpp:161-169 | `main` checks that `numtasks` is a power of two and divides `n`, but not that `local_n = n / numtasks` is a power of two, which `bitonic_sort_local` needs | `n = 12` on 4 ranks: `local_n = 3`, and the local sort turns `[3, 2, 1]` into `[2, 3, 1]` | reject runs whose `local_n` is not a power of two | high; not executed | BitonicSort.AcceptRun, BitonicSort.LocalSortNeedsPowerOfTwo | BitonicSort.AcceptRunChecked, BitonicSort.LocalSorts, BitonicSort.BitonicRun |
