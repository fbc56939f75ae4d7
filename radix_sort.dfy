/** The radix engine (Radix_Sort/radixSort.cpp): a stable counting sort on one
    decimal digit, least-significant-digit radix sort of a local array, and the
    distributed loop that, per digit, sorts every rank's slice, gathers the
    slices at the root, sorts the gathered array by the same digit and
    scatters it back. Elements are non-negative `int`s. */
module RadixSort {
  import opened Seqs
  import opened Arith
  import opened Buckets

  /** Every element lies in `[0, m]`. */
  predicate InRange(s: seq<int>, m: int) {
    forall i :: 0 <= i < |s| ==> 0 <= s[i] <= m
  }

  // ------------------------------------------------------------- get_max

  /** The largest element. */
  function Max(s: seq<int>): (m: int)
    requires |s| >= 1
    ensures m in s && forall i :: 0 <= i < |s| ==> s[i] <= m
  {
    if |s| == 1 then s[0]
    else
      var m := Max(s[..|s| - 1]);
      assert m in s[..|s| - 1];
      if s[|s| - 1] > m then s[|s| - 1] else m
  }

  /** An element that bounds all the others is the maximum. */
  lemma MaxUnique(s: seq<int>, m: int)
    requires m in s && forall i :: 0 <= i < |s| ==> s[i] <= m
    ensures Max(s) == m
  {
    var i :| 0 <= i < |s| && s[i] == Max(s);
    var j :| 0 <= j < |s| && s[j] == m;
  }

  /** `get_max`: a left-to-right scan of `data[0..n)` keeping the largest value seen. */
  method GetMax(data: array<int>, n: int) returns (maxVal: int)
    requires 1 <= n <= data.Length
    ensures maxVal in data[..n] && forall i :: 0 <= i < n ==> data[i] <= maxVal
    ensures maxVal == Max(data[..n])
  {
    maxVal := data[0];
    var i := 1;
    while i < n
      invariant 1 <= i <= n
      invariant maxVal in data[..i] && forall j :: 0 <= j < i ==> data[j] <= maxVal
    {
      if data[i] > maxVal {
        maxVal := data[i];
      }
      assert data[..i + 1] == data[..i] + [data[i]];
      i := i + 1;
    }
    MaxUnique(data[..n], maxVal);
  }

  // -------------------------------------------------------- counting_sort

  /** Where bucket `d` of the digit at `exp` starts in the output: the number
      of elements whose digit is below `d`. */
  function Offset(s: seq<int>, exp: int, d: int): (o: nat)
    requires exp >= 1 && 0 <= d <= 10
  {
    if d == 0 then 0 else Offset(s, exp, d - 1) + |Select(s, DecimalDigit(exp), d - 1)|
  }

  /** Where bucket `d` ends: the number of elements whose digit is at most `d`. */
  function End(s: seq<int>, exp: int, d: int): (e: nat)
    requires exp >= 1 && 0 <= d < 10
  {
    Offset(s, exp, d + 1)
  }

  lemma {:induction false} OffsetMono(s: seq<int>, exp: int, a: int, b: int)
    requires exp >= 1 && 0 <= a <= b <= 10
    ensures Offset(s, exp, a) <= Offset(s, exp, b)
    decreases b - a
  {
    if a < b {
      OffsetMono(s, exp, a, b - 1);
    }
  }

  /** The running sums are the lengths of the bucket layout's prefixes. */
  lemma {:induction false} OffsetIsLayoutPrefix(s: seq<int>, exp: int, d: int)
    requires exp >= 1 && 0 <= d <= 10
    ensures Offset(s, exp, d) == |Concat(Selects(s, DecimalDigit(exp))[..d])|
    ensures Offset(s, exp, d) == Sum(Histogram(s, DecimalDigit(exp))[..d])
    decreases d
  {
    var ss := Selects(s, DecimalDigit(exp));
    if d == 0 {
      assert ss[..0] == [];
      assert Histogram(s, DecimalDigit(exp))[..0] == [];
    } else {
      OffsetIsLayoutPrefix(s, exp, d - 1);
      ConcatSlice(ss, d - 1);
      SumSnoc(Histogram(s, DecimalDigit(exp)), d - 1);
    }
  }

  /** After the prefix pass the counts below all ten digits total `n`: `count[9] == n`. */
  lemma OffsetTotal(s: seq<int>, exp: int)
    requires exp >= 1
    ensures Offset(s, exp, 10) == |s|
    ensures Offset(s, exp, 10) == Sum(Histogram(s, DecimalDigit(exp)))
  {
    var ss := Selects(s, DecimalDigit(exp));
    OffsetIsLayoutPrefix(s, exp, 10);
    assert ss[..10] == ss;
    assert Histogram(s, DecimalDigit(exp))[..10] == Histogram(s, DecimalDigit(exp));
    SelectsPermute(s, DecimalDigit(exp));
  }

  /** One more element counted by the histogram pass. */
  lemma CountStep(s: seq<int>, i: int, exp: int, d: int)
    requires exp >= 1 && 0 <= i < |s|
    ensures |Select(s[..i + 1], DecimalDigit(exp), d)|
         == |Select(s[..i], DecimalDigit(exp), d)| + if KeyOf(DecimalDigit(exp), s[i]) == d then 1 else 0
  {
    assert s[..i + 1] == s[..i] + [s[i]];
    SelectAppend(s[..i], [s[i]], DecimalDigit(exp), d);
  }

  /** Bucket `d` during the backward scan, once `s[i..]` has been placed:
      `cnt[d]` is the bucket's start plus the elements of digit `d` still to
      come, and the bucket's tail holds those of `s[i..]`, in input order. */
  predicate PlacedBucket(out: seq<int>, cnt: seq<int>, s: seq<int>, exp: int, i: int, d: int)
    requires exp >= 1 && |cnt| == 10 && 0 <= i <= |s| && 0 <= d < 10
  {
    cnt[d] == Offset(s, exp, d) + |Select(s[..i], DecimalDigit(exp), d)| &&
    cnt[d] <= End(s, exp, d) <= |out| &&
    out[cnt[d]..End(s, exp, d)] == Select(s[i..], DecimalDigit(exp), d)
  }

  predicate Placed(out: seq<int>, cnt: seq<int>, s: seq<int>, exp: int, i: int)
    requires exp >= 1
  {
    |cnt| == 10 && |out| == |s| && 0 <= i <= |s| &&
    forall d :: 0 <= d < 10 ==> PlacedBucket(out, cnt, s, exp, i, d)
  }

  lemma PlacedInitially(out: seq<int>, cnt: seq<int>, s: seq<int>, exp: int)
    requires exp >= 1 && |out| == |s| && |cnt| == 10
    requires forall d :: 0 <= d < 10 ==> cnt[d] == End(s, exp, d)
    ensures Placed(out, cnt, s, exp, |s|)
  {
    assert s[..|s|] == s;
    assert s[|s|..] == [];
    OffsetTotal(s, exp);
    forall d | 0 <= d < 10 ensures PlacedBucket(out, cnt, s, exp, |s|, d) {
      OffsetMono(s, exp, d + 1, 10);
    }
  }

  /** One step of the backward scan: the write index `count[d]-1` lies in the
      output, and placing `s[i-1]` there re-establishes the scan state. */
  lemma BackwardStep(out: seq<int>, cnt: seq<int>, s: seq<int>, exp: int, i: int)
    requires exp >= 1 && Placed(out, cnt, s, exp, i) && i >= 1
    ensures 0 <= KeyOf(DecimalDigit(exp), s[i - 1]) < 10
    ensures var d := KeyOf(DecimalDigit(exp), s[i - 1]);
      1 <= cnt[d] <= |out| &&
      Placed(out[cnt[d] - 1 := s[i - 1]], cnt[d := cnt[d] - 1], s, exp, i - 1)
  {
    var d := KeyOf(DecimalDigit(exp), s[i - 1]);
    assert PlacedBucket(out, cnt, s, exp, i, d);
    PlaceOne(out, cnt, s, exp, i, d);
    var out', cnt' := out[cnt[d] - 1 := s[i - 1]], cnt[d := cnt[d] - 1];
    var j := i - 1;
    forall e | 0 <= e < 10 ensures PlacedBucket(out', cnt', s, exp, j, e) {
      assert PlacedBucket(out, cnt, s, exp, i, e);
      PlaceOneOther(out, cnt, s, exp, i, d, e);
    }
    assert |cnt'| == 10 && |out'| == |s|;
    assert Placed(out', cnt', s, exp, j);
  }

  /** Moving the scan position from `i` to `i-1` moves `s[i-1]` from the
      prefix to the suffix of each bucket's selection. */
  lemma ScanSplit(s: seq<int>, i: int, k: Key, b: int)
    requires ValidKey(k) && 1 <= i <= |s|
    ensures Select(s[..i], k, b) == Select(s[..i - 1], k, b) + Keep(k, s[i - 1], b)
    ensures Select(s[i - 1..], k, b) == Keep(k, s[i - 1], b) + Select(s[i..], k, b)
  {
    var x := s[i - 1];
    assert s[..i] == s[..i - 1] + [x];
    SelectAppend(s[..i - 1], [x], k, b);
    assert [x][1..] == [];
    assert Select([x], k, b) == Keep(k, x, b) + Select([], k, b);
    assert (s[i - 1..])[1..] == s[i..];
  }

  /** Placing `x = s[i-1]` in its own bucket `d`. */
  lemma PlaceOne(out: seq<int>, cnt: seq<int>, s: seq<int>, exp: int, i: int, d: int)
    requires exp >= 1 && |cnt| == 10 && |out| == |s| && 1 <= i <= |s|
    requires d == KeyOf(DecimalDigit(exp), s[i - 1]) && 0 <= d < 10
    requires PlacedBucket(out, cnt, s, exp, i, d)
    ensures Offset(s, exp, d) + 1 <= cnt[d] <= |out|
    ensures PlacedBucket(out[cnt[d] - 1 := s[i - 1]], cnt[d := cnt[d] - 1], s, exp, i - 1, d)
  {
    var k := DecimalDigit(exp);
    var x := s[i - 1];
    ScanSplit(s, i, k, d);
    assert Keep(k, x, d) == [x];
    SliceAfterUpdate(out, cnt[d] - 1, x, cnt[d], End(s, exp, d));
  }

  /** Placing `x = s[i-1]` leaves every other bucket `e` as it was. */
  lemma PlaceOneOther(out: seq<int>, cnt: seq<int>, s: seq<int>, exp: int, i: int, d: int, e: int)
    requires exp >= 1 && |cnt| == 10 && |out| == |s| && 1 <= i <= |s|
    requires d == KeyOf(DecimalDigit(exp), s[i - 1]) && 0 <= d < 10 && 0 <= e < 10
    requires Offset(s, exp, d) + 1 <= cnt[d] <= End(s, exp, d) && End(s, exp, d) <= |out|
    requires PlacedBucket(out, cnt, s, exp, i, e)
    ensures PlacedBucket(out[cnt[d] - 1 := s[i - 1]], cnt[d := cnt[d] - 1], s, exp, i - 1, e) || e == d
  {
    if e != d {
      var k := DecimalDigit(exp);
      var x, p := s[i - 1], cnt[d] - 1;
      ScanSplit(s, i, k, e);
      assert Keep(k, x, e) == [];
      assert Select(s[..i - 1], k, e) == Select(s[..i], k, e);
      assert Select(s[i - 1..], k, e) == Select(s[i..], k, e);
      var lo, hi := cnt[e], End(s, exp, e);
      WriteOutsideBucket(s, exp, d, e, p, lo);
      SliceAfterUpdate(out, p, x, lo, hi);
      assert out[p := x][lo..hi] == out[lo..hi];
      assert cnt[d := p][e] == lo;
    }
  }

  /** The write position `p` of bucket `d` lies outside the remaining range
      `[lo, End(e))` of any other bucket `e`. */
  lemma WriteOutsideBucket(s: seq<int>, exp: int, d: int, e: int, p: int, lo: int)
    requires exp >= 1 && 0 <= d < 10 && 0 <= e < 10 && d != e
    requires Offset(s, exp, d) <= p < End(s, exp, d) && Offset(s, exp, e) <= lo
    ensures p < lo || End(s, exp, e) <= p
  {
    if e < d {
      OffsetMono(s, exp, e + 1, d);
    } else {
      OffsetMono(s, exp, d + 1, e);
    }
  }

  /** With the whole input placed, the output is the stable bucket layout. */
  lemma PlacedFinally(out: seq<int>, cnt: seq<int>, s: seq<int>, exp: int)
    requires exp >= 1 && Placed(out, cnt, s, exp, 0)
    ensures out == Partition(s, DecimalDigit(exp))
  {
    var ss := Selects(s, DecimalDigit(exp));
    OffsetTotal(s, exp);
    OffsetIsLayoutPrefix(s, exp, 10);
    assert ss[..10] == ss;
    forall d | 0 <= d < |ss|
      ensures |Concat(ss[..d])| + |ss[d]| <= |out|
      ensures out[|Concat(ss[..d])|..|Concat(ss[..d])| + |ss[d]|] == ss[d]
    {
      PlacedSlot(out, cnt, s, exp, d);
    }
    ConcatFromSlices(out, ss);
  }

  /** With the whole input placed, bucket `d` fills its slot of the layout. */
  lemma PlacedSlot(out: seq<int>, cnt: seq<int>, s: seq<int>, exp: int, d: int)
    requires exp >= 1 && Placed(out, cnt, s, exp, 0) && 0 <= d < 10
    ensures var ss := Selects(s, DecimalDigit(exp));
      |Concat(ss[..d])| + |ss[d]| <= |out| &&
      out[|Concat(ss[..d])|..|Concat(ss[..d])| + |ss[d]|] == ss[d]
  {
    var ss := Selects(s, DecimalDigit(exp));
    assert s[0..] == s && s[..0] == [];
    assert PlacedBucket(out, cnt, s, exp, 0, d);
    OffsetIsLayoutPrefix(s, exp, d);
  }

  /** `counting_sort(data, n, exp)`: histogram of the digit `(x/exp)%10`,
      running sums, a backward scan that places each element at the end of
      its digit's remaining range, and a copy back. The result is the stable
      layout of the digit buckets: a permutation of the input, with the
      digits nondecreasing and equal digits in input order. */
  method CountingSort(data: array<int>, exp: int)
    requires exp >= 1 && NonNegatives(data[..])
    modifies data
    ensures data[..] == Partition(old(data[..]), DecimalDigit(exp))
    ensures KeyOrdered(data[..], DecimalDigit(exp))
  {
    PartitionKeyOrdered(data[..], DecimalDigit(exp));
    var n := data.Length;
    var count := DigitEnds(data, exp);
    var output := PlaceBackward(data, exp, count);
    ghost var sorted := output[..];
    for j := 0 to n
      invariant output[..] == sorted && output.Length == n
      invariant data[..j] == output[..j]
    {
      data[j] := output[j];
    }
    assert data[..] == data[..n];
  }

  /** The first two loops of `counting_sort`: the histogram of the digit,
      then running sums, so that `count[d]` is where bucket `d` ends. */
  method DigitEnds(data: array<int>, exp: int) returns (count: array<int>)
    requires exp >= 1
    ensures fresh(count) && count.Length == 10
    ensures forall d :: 0 <= d < 10 ==> count[d] == End(data[..], exp, d)
  {
    count := CountDigits(data, exp);
    RunningEnds(count, data[..], exp);
  }

  /** The first loop of `counting_sort`: `count[d]` is how many elements
      have digit `d`. */
  method CountDigits(data: array<int>, exp: int) returns (count: array<int>)
    requires exp >= 1
    ensures fresh(count) && count.Length == 10
    ensures forall d :: 0 <= d < 10 ==> count[d] == |Select(data[..], DecimalDigit(exp), d)|
  {
    var n := data.Length;
    ghost var s := data[..];
    count := new int[10](d => 0);
    for i := 0 to n
      invariant forall d :: 0 <= d < 10 ==> count[d] == |Select(s[..i], DecimalDigit(exp), d)|
    {
      forall d | 0 <= d < 10 {
        CountStep(s, i, exp, d);
      }
      var d := (data[i] / exp) % 10;
      count[d] := count[d] + 1;
    }
    assert s[..n] == s;
  }

  /** The second loop of `counting_sort`: running sums turn bucket sizes
      into the positions where the buckets end. */
  method RunningEnds(count: array<int>, ghost s: seq<int>, exp: int)
    requires exp >= 1 && count.Length == 10
    requires forall d :: 0 <= d < 10 ==> count[d] == |Select(s, DecimalDigit(exp), d)|
    modifies count
    ensures forall d :: 0 <= d < 10 ==> count[d] == End(s, exp, d)
  {
    assert End(s, exp, 0) == Offset(s, exp, 0) + |Select(s, DecimalDigit(exp), 0)|;
    for i := 1 to 10
      invariant forall d :: 0 <= d < i ==> count[d] == End(s, exp, d)
      invariant forall d :: i <= d < 10 ==> count[d] == |Select(s, DecimalDigit(exp), d)|
    {
      count[i] := count[i] + count[i - 1];
    }
  }

  /** The backward scan of `counting_sort`: each element, last to first,
      goes to the end of its digit's remaining range in `output`. The result
      is the stable layout of the digit buckets. */
  method PlaceBackward(data: array<int>, exp: int, count: array<int>) returns (output: array<int>)
    requires exp >= 1 && count.Length == 10 && count != data
    requires forall d :: 0 <= d < 10 ==> count[d] == End(data[..], exp, d)
    modifies count
    ensures fresh(output) && output.Length == data.Length
    ensures output[..] == Partition(data[..], DecimalDigit(exp))
  {
    var n := data.Length;
    ghost var s := data[..];
    output := new int[n];
    PlacedInitially(output[..], count[..], s, exp);
    var i := n;
    while i > 0
      invariant 0 <= i <= n && data[..] == s
      invariant Placed(output[..], count[..], s, exp, i)
    {
      ghost var out0, cnt0 := output[..], count[..];
      BackwardStep(out0, cnt0, s, exp, i);
      var d := (data[i - 1] / exp) % 10;
      output[count[d] - 1] := data[i - 1];
      count[d] := count[d] - 1;
      assert output[..] == out0[cnt0[d] - 1 := s[i - 1]];
      assert count[..] == cnt0[d := cnt0[d] - 1];
      i := i - 1;
    }
    PlacedFinally(output[..], count[..], s, exp);
  }

  // ---------------------------------------------------------- LSD passes

  /** Nondecreasing in the remainder modulo `m`: sorted on the digits below `m`. */
  predicate SortedMod(s: seq<int>, m: int)
    requires m >= 1
  {
    forall i, j :: 0 <= i < j < |s| ==> s[i] % m <= s[j] % m
  }

  lemma {:induction false} SelectKeepsSortedMod(s: seq<int>, k: Key, d: int, m: int)
    requires ValidKey(k) && m >= 1 && SortedMod(s, m)
    ensures SortedMod(Select(s, k, d), m)
    decreases |s|
  {
    if s != [] {
      var rest := Select(s[1..], k, d);
      assert SortedMod(s[1..], m) by {
        forall i, j | 0 <= i < j < |s[1..]| ensures s[1..][i] % m <= s[1..][j] % m {
          assert s[1..][i] == s[i + 1] && s[1..][j] == s[j + 1];
        }
      }
      SelectKeepsSortedMod(s[1..], k, d, m);
      SelectMembers(s[1..], k, d);
      forall y | y in rest ensures s[0] % m <= y % m {
        var j :| 0 <= j < |s[1..]| && s[1..][j] == y;
        assert y == s[j + 1];
      }
      var r := Keep(k, s[0], d) + rest;
      forall i, j | 0 <= i < j < |r| ensures r[i] % m <= r[j] % m {
        if |Keep(k, s[0], d)| == 1 && i == 0 {
          assert r[j] == rest[j - 1] && rest[j - 1] in rest;
        }
      }
    }
  }

  /** Rank-order concatenation of slices each sorted modulo `m` and ordered
      modulo `m` among each other. */
  lemma {:induction false} SortedModConcat(ss: seq<seq<int>>, m: int)
    requires m >= 1
    requires forall i :: 0 <= i < |ss| ==> SortedMod(ss[i], m)
    requires forall i, j, x, y :: 0 <= i < j < |ss| && x in ss[i] && y in ss[j] ==> x % m <= y % m
    ensures SortedMod(Concat(ss), m)
    decreases |ss|
  {
    if ss != [] {
      SortedModConcat(ss[1..], m);
      var a, b := ss[0], Concat(ss[1..]);
      forall i, j | 0 <= i < j < |a + b| ensures (a + b)[i] % m <= (a + b)[j] % m {
        if i < |a| && j >= |a| {
          var y := b[j - |a|];
          InConcat(ss[1..], y);
          var q :| 0 <= q < |ss[1..]| && y in ss[1..][q];
          assert a[i] in ss[0] && y in ss[q + 1];
        }
      }
    }
  }

  /** Within bucket `b` of the digit at `e`, the remainder modulo `10*e` is
      `b*e` plus the remainder modulo `e`. */
  lemma BucketRemainder(s: seq<int>, e: int, b: int, x: int)
    requires e >= 1 && NonNegatives(s) && 0 <= b < 10 && x in Select(s, DecimalDigit(e), b)
    ensures x % (10 * e) == b * e + x % e
  {
    SelectMembers(s, DecimalDigit(e), b);
    var i :| 0 <= i < |s| && s[i] == x;
    ModTenSplit(x, e);
  }

  lemma BucketSortedMod(s: seq<int>, e: int, b: int)
    requires e >= 1 && NonNegatives(s) && SortedMod(s, e) && 0 <= b < 10
    ensures SortedMod(Select(s, DecimalDigit(e), b), 10 * e)
  {
    var t := Select(s, DecimalDigit(e), b);
    SelectKeepsSortedMod(s, DecimalDigit(e), b, e);
    forall i, j | 0 <= i < j < |t| ensures t[i] % (10 * e) <= t[j] % (10 * e) {
      BucketRemainder(s, e, b, t[i]);
      BucketRemainder(s, e, b, t[j]);
    }
  }

  lemma BucketsOrderedMod(s: seq<int>, e: int, a: int, b: int, x: int, y: int)
    requires e >= 1 && NonNegatives(s) && 0 <= a < b < 10
    requires x in Select(s, DecimalDigit(e), a) && y in Select(s, DecimalDigit(e), b)
    ensures x % (10 * e) <= y % (10 * e)
  {
    BucketRemainder(s, e, a, x);
    BucketRemainder(s, e, b, y);
    MulMono(a + 1, b, e);
    assert (a + 1) * e == a * e + e;
  }

  /** One digit pass extends the sorted suffix of digits: input sorted modulo
      `e` comes out sorted modulo `10*e`, because the pass orders by the digit
      at `e` and keeps ties in input order. */
  lemma DigitPassSortsMod(s: seq<int>, e: int)
    requires e >= 1 && NonNegatives(s) && SortedMod(s, e)
    ensures SortedMod(Partition(s, DecimalDigit(e)), 10 * e)
  {
    var ss := Selects(s, DecimalDigit(e));
    forall b | 0 <= b < |ss| ensures SortedMod(ss[b], 10 * e) {
      BucketSortedMod(s, e, b);
    }
    forall a, b, x, y | 0 <= a < b < |ss| && x in ss[a] && y in ss[b]
      ensures x % (10 * e) <= y % (10 * e)
    {
      BucketsOrderedMod(s, e, a, b, x, y);
    }
    SortedModConcat(ss, 10 * e);
  }

  lemma PartitionKeepsRange(s: seq<int>, k: Key, m: int)
    requires ValidKey(k) && InRange(s, m)
    ensures InRange(Partition(s, k), m)
  {
    PartitionPermutes(s, k);
    var p := Partition(s, k);
    forall i | 0 <= i < |p| ensures 0 <= p[i] <= m {
      assert p[i] in multiset(s);
      var j :| 0 <= j < |s| && s[j] == p[i];
    }
  }

  /** The digit passes `radix_sort_local` makes: one per `exp = 1, 10, 100, ...`
      while `maxVal / exp > 0`. */
  function Lsd(s: seq<int>, exp: int, maxVal: int): (r: seq<int>)
    requires exp >= 1
    decreases maxVal - exp
  {
    if maxVal / exp > 0 then Lsd(Partition(s, DecimalDigit(exp)), 10 * exp, maxVal) else s
  }


  /** How many passes that is. */
  function Passes(maxVal: int, exp: int): (count: nat)
    requires exp >= 1
    decreases maxVal - exp
  {
    if maxVal / exp > 0 then 1 + Passes(maxVal, 10 * exp) else 0
  }

  /** One more pass of the loop: the pass keeps the elements in range. */
  lemma LsdStep(s: seq<int>, exp: int, maxVal: int)
    requires exp >= 1 && InRange(s, maxVal) && maxVal / exp > 0
    ensures maxVal >= exp && NonNegatives(s) && InRange(Partition(s, DecimalDigit(exp)), maxVal)
    ensures Lsd(s, exp, maxVal) == Lsd(Partition(s, DecimalDigit(exp)), 10 * exp, maxVal)
    ensures Passes(maxVal, exp) == 1 + Passes(maxVal, 10 * exp)
  {
    PartitionKeepsRange(s, DecimalDigit(exp), maxVal);
    DivPositive(maxVal, exp);
  }

  lemma LsdStop(s: seq<int>, exp: int, maxVal: int)
    requires exp >= 1 && maxVal / exp <= 0
    ensures Lsd(s, exp, maxVal) == s && Passes(maxVal, exp) == 0
  {
  }

  /** The number of decimal digits of `m` (none for zero or less). */
  function DecimalDigits(m: int): (digits: nat)
    decreases m
  {
    if m <= 0 then 0 else 1 + DecimalDigits(m / 10)
  }

  /** `DecimalDigits` counts digits: `10^(d-1) <= m < 10^d`. */
  lemma {:induction false} DecimalDigitsBounds(m: nat)
    requires m >= 1
    ensures DecimalDigits(m) >= 1
    ensures Pow10(DecimalDigits(m) - 1) <= m < Pow10(DecimalDigits(m))
  {
    if m >= 10 {
      DecimalDigitsBounds(m / 10);
    }
  }

  /** The pass loop runs once per decimal digit of the maximum. */
  lemma {:induction false} PassesAreDigits(m: nat, j: nat)
    ensures Passes(m, Pow10(j)) == DecimalDigits(m / Pow10(j))
    decreases m / Pow10(j)
  {
    var p := Pow10(j);
    DivDiv(m, p, 10);
    assert Pow10(j + 1) == p * 10;
    if m / p > 0 {
      PassesAreDigits(m, j + 1);
    }
  }

  /** LSD radix sort: passes from digit `exp` upwards over input already sorted
      on the digits below `exp` leave it sorted, and permute it. */
  lemma {:induction false} LsdSorts(s: seq<int>, exp: int, maxVal: int)
    requires exp >= 1 && InRange(s, maxVal) && SortedMod(s, exp)
    ensures Sorted(Lsd(s, exp, maxVal))
    ensures multiset(Lsd(s, exp, maxVal)) == multiset(s) && |Lsd(s, exp, maxVal)| == |s|
    decreases maxVal - exp
  {
    if maxVal / exp > 0 {
      var k := DecimalDigit(exp);
      DigitPassSortsMod(s, exp);
      PartitionKeepsRange(s, k, maxVal);
      PartitionPermutes(s, k);
      LsdSorts(Partition(s, k), 10 * exp, maxVal);
    } else {
      forall i | 0 <= i < |s| ensures s[i] % exp == s[i] {
        ModSmall(s[i], exp);
      }
    }
  }

  /** The passes `radix_sort_local` makes over an input bounded by its maximum
      sort it and permute it. */
  lemma LsdSortsInput(s: seq<int>, maxVal: int)
    requires InRange(s, maxVal)
    ensures Sorted(Lsd(s, 1, maxVal)) && multiset(Lsd(s, 1, maxVal)) == multiset(s)
  {
    assert SortedMod(s, 1);
    LsdSorts(s, 1, maxVal);
  }

  /** `radix_sort_local`: the maximum, then one counting pass per digit. */
  method RadixSortLocal(data: array<int>) returns (ghost passes: nat)
    requires data.Length >= 1 && NonNegatives(data[..])
    modifies data
    ensures data[..] == Lsd(old(data[..]), 1, Max(old(data[..])))
    ensures Sorted(data[..]) && multiset(data[..]) == multiset(old(data[..]))
    ensures passes == DecimalDigits(Max(old(data[..])))
  {
    ghost var s := data[..];
    var maxVal := GetMax(data, data.Length);
    assert data[..data.Length] == s;
    assert InRange(s, maxVal) && 0 <= s[0] <= maxVal;
    passes := DigitPasses(data, maxVal);
    LsdSortsInput(s, maxVal);
    PassesAreDigits(maxVal, 0);
  }

  /** The `exp` loop of `radix_sort_local`: one `counting_sort` pass per
      `exp = 1, 10, 100, ...` while `maxVal / exp > 0`, which is `Lsd`. */
  method DigitPasses(data: array<int>, maxVal: int) returns (ghost passes: nat)
    requires InRange(data[..], maxVal)
    modifies data
    ensures data[..] == Lsd(old(data[..]), 1, maxVal)
    ensures passes == Passes(maxVal, 1)
  {
    ghost var s := data[..];
    var exp := 1;
    passes := 0;
    while maxVal / exp > 0
      invariant exp >= 1 && InRange(data[..], maxVal)
      invariant Lsd(data[..], exp, maxVal) == Lsd(s, 1, maxVal)
      invariant passes + Passes(maxVal, exp) == Passes(maxVal, 1)
      decreases maxVal - exp
    {
      ghost var before := data[..];
      CountingSort(data, exp);
      LsdAdvance(before, data[..], s, exp, maxVal, passes);
      exp := exp * 10;
      passes := passes + 1;
    }
    LsdStop(data[..], exp, maxVal);
  }

  /** One iteration of the `exp` loop of `radix_sort_local`: after the pass,
      the remaining passes from `10*exp` still lead to the same result, and
      one pass fewer remains. */
  lemma LsdAdvance(before: seq<int>, after: seq<int>, s: seq<int>, exp: int, maxVal: int, passes: nat)
    requires exp >= 1 && InRange(before, maxVal) && maxVal / exp > 0
    requires after == Partition(before, DecimalDigit(exp))
    requires Lsd(before, exp, maxVal) == Lsd(s, 1, maxVal)
    requires passes + Passes(maxVal, exp) == Passes(maxVal, 1)
    ensures 0 <= maxVal - exp && InRange(after, maxVal)
    ensures Lsd(after, 10 * exp, maxVal) == Lsd(s, 1, maxVal)
    ensures passes + 1 + Passes(maxVal, 10 * exp) == Passes(maxVal, 1)
  {
    LsdStep(before, exp, maxVal);
  }

  // ------------------------------------------------------- mpi_radix_sort

  /** `MPI_Allreduce` with `MPI_MAX` of every rank's `get_max`. */
  function AllreduceMax(slices: seq<seq<int>>): (globalMax: int)
    requires |slices| >= 1 && forall r :: 0 <= r < |slices| ==> |slices[r]| >= 1
    ensures forall r, i :: 0 <= r < |slices| && 0 <= i < |slices[r]| ==> slices[r][i] <= globalMax
  {
    var maxima := seq(|slices|, r requires 0 <= r < |slices| => Max(slices[r]));
    MaximaBound(slices, maxima);
    Max(maxima)
  }

  /** Every element is below its slice's maximum, hence below the largest one. */
  lemma MaximaBound(slices: seq<seq<int>>, maxima: seq<int>)
    requires |maxima| == |slices| >= 1
    requires forall r :: 0 <= r < |slices| ==> |slices[r]| >= 1 && maxima[r] == Max(slices[r])
    ensures forall r, i :: 0 <= r < |slices| && 0 <= i < |slices[r]| ==> slices[r][i] <= Max(maxima)
  {
    forall r, i | 0 <= r < |slices| && 0 <= i < |slices[r]| ensures slices[r][i] <= Max(maxima) {
      assert maxima[r] <= Max(maxima);
    }
  }

  /** The maximum of the local maxima is the maximum of the whole array. */
  lemma AllreduceMaxIsGlobal(slices: seq<seq<int>>)
    requires |slices| >= 1 && forall r :: 0 <= r < |slices| ==> |slices[r]| >= 1
    ensures |Concat(slices)| >= 1 && AllreduceMax(slices) == Max(Concat(slices))
  {
    var maxima := seq(|slices|, r requires 0 <= r < |slices| => Max(slices[r]));
    var m := AllreduceMax(slices);
    forall r, i | 0 <= r < |slices| && 0 <= i < |slices[r]| ensures slices[r][i] <= m {
      assert maxima[r] <= m;
    }
    ConcatBelow(slices, m);
    var r :| 0 <= r < |slices| && maxima[r] == m;
    ConcatHas(slices, r, m);
    MaxUnique(Concat(slices), m);
  }

  /** Every rank runs `counting_sort` on its own slice. */
  function LocalPasses(slices: seq<seq<int>>, exp: int): (next: seq<seq<int>>)
    requires exp >= 1
    ensures |next| == |slices|
    ensures forall r :: 0 <= r < |next| ==> |next[r]| == |slices[r]|
  {
    seq(|slices|, r requires 0 <= r < |slices| => Partition(slices[r], DecimalDigit(exp)))
  }

  lemma LocalPassesKeepLengths(slices: seq<seq<int>>, localN: nat, exp: int)
    requires exp >= 1 && forall r :: 0 <= r < |slices| ==> |slices[r]| == localN
    ensures forall r :: 0 <= r < |slices| ==> |LocalPasses(slices, exp)[r]| == localN
    ensures |Concat(LocalPasses(slices, exp))| == |slices| * localN
  {
    forall r | 0 <= r < |slices| ensures |LocalPasses(slices, exp)[r]| == localN {
    }
    ConcatUniformLength(LocalPasses(slices, exp), localN);
  }

  /** One iteration of the `exp` loop of `mpi_radix_sort`: local passes,
      `MPI_Gather` to the root, the root's pass over the gathered array, and
      `MPI_Scatter` back in blocks of `localN`. */
  function RadixRound(slices: seq<seq<int>>, localN: nat, exp: int): (next: seq<seq<int>>)
    requires exp >= 1 && forall r :: 0 <= r < |slices| ==> |slices[r]| == localN
    ensures |next| == |slices| && forall r :: 0 <= r < |next| ==> |next[r]| == localN
  {
    LocalPassesKeepLengths(slices, localN, exp);
    var gathered := Concat(LocalPasses(slices, exp));
    Split(Partition(gathered, DecimalDigit(exp)), |slices|, localN)
  }

  /** The root's pass over slices that were each already passed equals one pass
      over the plain concatenation: both passes are stable on the same digit. */
  lemma PartitionOfLocalPasses(slices: seq<seq<int>>, exp: int)
    requires exp >= 1
    ensures Partition(Concat(LocalPasses(slices, exp)), DecimalDigit(exp)) == Partition(Concat(slices), DecimalDigit(exp))
  {
    var k := DecimalDigit(exp);
    var local := LocalPasses(slices, exp);
    forall d | 0 <= d < 10
      ensures Select(Concat(local), k, d) == Select(Concat(slices), k, d)
    {
      SelectConcat(local, k, d);
      SelectConcat(slices, k, d);
      forall r | 0 <= r < |slices| ensures Select(local[r], k, d) == Select(slices[r], k, d) {
        PartitionStable(slices[r], k, d);
      }
      assert seq(|local|, i requires 0 <= i < |local| => Select(local[i], k, d))
          == seq(|slices|, i requires 0 <= i < |slices| => Select(slices[i], k, d));
    }
    assert Selects(Concat(local), k) == Selects(Concat(slices), k);
  }

  /** A round acts on the global array as one digit pass. */
  lemma RadixRoundGlobal(slices: seq<seq<int>>, localN: nat, exp: int)
    requires exp >= 1 && forall r :: 0 <= r < |slices| ==> |slices[r]| == localN
    ensures Concat(RadixRound(slices, localN, exp)) == Partition(Concat(slices), DecimalDigit(exp))
  {
    LocalPassesKeepLengths(slices, localN, exp);
    var gathered := Concat(LocalPasses(slices, exp));
    ConcatSplit(Partition(gathered, DecimalDigit(exp)), |slices|, localN);
    PartitionOfLocalPasses(slices, exp);
  }

  /** `mpi_radix_sort` over all ranks' slices: the global maximum, then one
      round per digit. The rank-order concatenation ends sorted and a
      permutation of the input, every slice keeps `localN` elements, and there
      is one round per decimal digit of the global maximum. */
  method MpiRadixSort(slices: seq<seq<int>>, localN: nat) returns (result: seq<seq<int>>, ghost rounds: nat)
    requires |slices| >= 1 && localN >= 1
    requires forall r :: 0 <= r < |slices| ==> |slices[r]| == localN
    requires NonNegatives(Concat(slices))
    ensures |result| == |slices| && forall r :: 0 <= r < |result| ==> |result[r]| == localN
    ensures Sorted(Concat(result)) && multiset(Concat(result)) == multiset(Concat(slices))
    ensures |Concat(slices)| >= 1 && rounds == DecimalDigits(Max(Concat(slices)))
  {
    var globalMax := AllreduceMax(slices);
    AllreduceMaxIsGlobal(slices);
    ghost var g := Concat(slices);
    assert InRange(g, globalMax) && 0 <= g[0] <= globalMax;
    result, rounds := RadixRounds(slices, localN, globalMax);
    LsdSortsInput(g, globalMax);
    PassesAreDigits(globalMax, 0);
  }

  /** The `exp` loop of `mpi_radix_sort`: one round per `exp = 1, 10, 100, ...`
      while `globalMax / exp > 0`. On the rank-order concatenation this is `Lsd`. */
  method RadixRounds(slices: seq<seq<int>>, localN: nat, globalMax: int) returns (result: seq<seq<int>>, ghost rounds: nat)
    requires forall r :: 0 <= r < |slices| ==> |slices[r]| == localN
    requires InRange(Concat(slices), globalMax)
    ensures |result| == |slices| && forall r :: 0 <= r < |result| ==> |result[r]| == localN
    ensures Concat(result) == Lsd(Concat(slices), 1, globalMax)
    ensures rounds == Passes(globalMax, 1)
  {
    var cur := slices;
    var exp := 1;
    rounds := 0;
    while globalMax / exp > 0
      invariant exp >= 1 && |cur| == |slices|
      invariant forall r :: 0 <= r < |cur| ==> |cur[r]| == localN
      invariant InRange(Concat(cur), globalMax)
      invariant Lsd(Concat(cur), exp, globalMax) == Lsd(Concat(slices), 1, globalMax)
      invariant rounds + Passes(globalMax, exp) == Passes(globalMax, 1)
      decreases globalMax - exp
    {
      DivPositive(globalMax, exp);
      RadixRoundStep(cur, localN, exp, globalMax);
      cur := RadixRound(cur, localN, exp);
      exp := exp * 10;
      rounds := rounds + 1;
    }
    LsdStop(Concat(cur), exp, globalMax);
    result := cur;
  }

  /** One iteration of the `exp` loop keeps the elements in range and leaves
      the remaining passes to do what the remaining digits demand. */
  lemma RadixRoundStep(cur: seq<seq<int>>, localN: nat, exp: int, maxVal: int)
    requires exp >= 1 && forall r :: 0 <= r < |cur| ==> |cur[r]| == localN
    requires InRange(Concat(cur), maxVal) && maxVal / exp > 0
    ensures var next := Concat(RadixRound(cur, localN, exp));
      InRange(next, maxVal) &&
      Lsd(next, 10 * exp, maxVal) == Lsd(Concat(cur), exp, maxVal) &&
      Passes(maxVal, exp) == 1 + Passes(maxVal, 10 * exp)
  {
    RadixRoundGlobal(cur, localN, exp);
    LsdStep(Concat(cur), exp, maxVal);
  }

  // ------------------------------------------------------------- main

  /** The program after `n % size == 0` has been checked: scatter into
      `size` blocks, `mpi_radix_sort`, and the gather of every rank's final
      slice. The result is the input, sorted. `main` reads `local_data[0]` in
      `get_max`, so an empty input is out of contract. */
  method RadixRun(data: seq<int>, size: nat) returns (gathered: Option<seq<int>>, blocks: seq<seq<int>>)
    requires size >= 1 && |data| >= 1 && NonNegatives(data)
    ensures gathered.Some? <==> |data| % size == 0
    ensures gathered.Some? ==> |blocks| == size && gathered.value == Concat(blocks)
    ensures gathered.Some? ==> Sorted(gathered.value) && multiset(gathered.value) == multiset(data)
  {
    var share := EvenShare(|data|, size);
    if share.None? {
      return None, [];
    }
    var localN := share.value;
    var slices := Split(data, size, localN);
    ConcatSplit(data, size, localN);
    ghost var rounds;
    blocks, rounds := MpiRadixSort(slices, localN);
    gathered := Some(Concat(blocks));
  }

  /** `main` gathers with `MPI_IN_PLACE` at rank 0, so rank 0's part of the
      result is the input's first block, not rank 0's sorted slice: for the
      input `[1, 0]` on two ranks every correct final state has rank 0 holding
      `[0]`, and the array gathered in place is `[1, 1]`. */
  lemma GatherKeepsUnsortedRoot(blocks: seq<seq<int>>)
    requires |blocks| == 2 && |blocks[0]| == 1 && |blocks[1]| == 1
    requires Sorted(Concat(blocks)) && multiset(Concat(blocks)) == multiset([1, 0])
    ensures blocks == [[0], [1]]
    ensures GatherInPlace([1, 0], blocks, 1) == [1, 1] && multiset([1, 1]) != multiset([1, 0])
  {
    SortedSingletons(blocks);
    assert blocks[1..] == [[1]];
    assert Concat([[1]]) == [1] + Concat([]);
    assert multiset([1, 1])[0] == 0;
  }

  /** Two one-element blocks that hold `1` and `0` between them in ascending
      order are `[0]` and `[1]`. */
  lemma SortedSingletons(blocks: seq<seq<int>>)
    requires |blocks| == 2 && |blocks[0]| == 1 && |blocks[1]| == 1
    requires Sorted(Concat(blocks)) && multiset(Concat(blocks)) == multiset([1, 0])
    ensures blocks == [[0], [1]]
  {
    var g := Concat(blocks);
    assert g == blocks[0] + (blocks[1] + Concat([]));
    assert g == [blocks[0][0], blocks[1][0]];
    assert g[0] in multiset([1, 0]) && g[1] in multiset([1, 0]);
    assert multiset(g)[1] == 1 && multiset(g)[0] == 1;
    assert blocks[0] == [g[0]] && blocks[1] == [g[1]];
  }
}
