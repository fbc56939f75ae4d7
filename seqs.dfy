/** Vocabulary shared by the four sorting engines: order, sums and prefix sums,
    flattening of per-rank slices, and the library sort (`std::sort`). */
module Seqs {

  datatype Option<T> = None | Some(value: T)

  /** The largest and smallest 32-bit `int` values. */
  const IntMax: int := 0x7fff_ffff
  const IntMin: int := -0x8000_0000

  predicate IsInt32(x: int) {
    IntMin <= x <= IntMax
  }

  predicate AllInt32(s: seq<int>) {
    forall i :: 0 <= i < |s| ==> IsInt32(s[i])
  }

  /** Nondecreasing order. */
  predicate Sorted(s: seq<int>) {
    forall i, j :: 0 <= i < j < |s| ==> s[i] <= s[j]
  }

  /** Nonincreasing order. */
  predicate SortedDesc(s: seq<int>) {
    forall i, j :: 0 <= i < j < |s| ==> s[i] >= s[j]
  }

  /** No adjacent pair out of order: what a driver's correctness scan looks for. */
  predicate NoDescent(s: seq<int>) {
    forall i :: 1 <= i < |s| ==> s[i - 1] <= s[i]
  }

  lemma {:induction false} NoDescentChain(s: seq<int>, i: int, j: int)
    requires NoDescent(s) && 0 <= i <= j < |s|
    ensures s[i] <= s[j]
    decreases j - i
  {
    if i < j {
      NoDescentChain(s, i, j - 1);
    }
  }

  /** The adjacent-pair scan decides sortedness. */
  lemma NoDescentIsSorted(s: seq<int>)
    ensures NoDescent(s) <==> Sorted(s)
  {
    if NoDescent(s) {
      forall i, j | 0 <= i < j < |s| ensures s[i] <= s[j] {
        NoDescentChain(s, i, j);
      }
    }
  }

  lemma SortedAppend(a: seq<int>, b: seq<int>)
    requires Sorted(a) && Sorted(b)
    requires forall x, y :: x in a && y in b ==> x <= y
    ensures Sorted(a + b)
  {
    forall i, j | 0 <= i < j < |a + b| ensures (a + b)[i] <= (a + b)[j] {
      if j >= |a| && i < |a| {
        assert a[i] in a && b[j - |a|] in b;
      }
    }
  }

  // ---------------------------------------------------------------- sums

  function Sum(s: seq<int>): (total: int) {
    if s == [] then 0 else s[0] + Sum(s[1..])
  }

  lemma {:induction false} SumAppend(a: seq<int>, b: seq<int>)
    ensures Sum(a + b) == Sum(a) + Sum(b)
    decreases |a|
  {
    if a == [] {
      assert a + b == b;
    } else {
      assert (a + b)[1..] == a[1..] + b;
      SumAppend(a[1..], b);
    }
  }

  /** One more step of a running (prefix) sum. */
  lemma SumSnoc(s: seq<int>, i: int)
    requires 0 <= i < |s|
    ensures Sum(s[..i + 1]) == Sum(s[..i]) + s[i]
  {
    assert s[..i + 1] == s[..i] + [s[i]];
    SumAppend(s[..i], [s[i]]);
  }

  /** The exclusive prefix sums of `counts`: where each block starts. */
  function ExclusiveScan(counts: seq<int>): (displs: seq<int>)
    ensures |displs| == |counts|
    ensures |counts| > 0 ==> displs[0] == 0
  {
    seq(|counts|, i requires 0 <= i < |counts| => Sum(counts[..i]))
  }

  lemma ExclusiveScanSnoc(counts: seq<int>, x: int)
    ensures ExclusiveScan(counts + [x]) == ExclusiveScan(counts) + [Sum(counts)]
  {
    var c := counts + [x];
    forall j | 0 <= j < |counts| ensures c[..j] == counts[..j] {
    }
    assert c[..|counts|] == counts;
  }

  predicate NonNegatives(s: seq<int>) {
    forall i :: 0 <= i < |s| ==> s[i] >= 0
  }

  lemma {:induction false} SumNonNeg(s: seq<int>)
    requires NonNegatives(s)
    ensures Sum(s) >= 0
    decreases |s|
  {
    if s != [] {
      SumNonNeg(s[1..]);
    }
  }

  /** Blocks placed at the exclusive prefix sums of non-negative counts are
      contiguous and disjoint, start at 0 and end at the total. */
  lemma ExclusiveScanTiles(counts: seq<int>)
    requires NonNegatives(counts)
    ensures |ExclusiveScan(counts)| == |counts|
    ensures |counts| > 0 ==> ExclusiveScan(counts)[0] == 0
    ensures forall i :: 0 <= i < |counts| ==> ExclusiveScan(counts)[i] + counts[i] == Sum(counts[..i + 1])
    ensures forall i :: 0 <= i < |counts| ==> 0 <= ExclusiveScan(counts)[i] && ExclusiveScan(counts)[i] + counts[i] <= Sum(counts)
    ensures |counts| > 0 ==> ExclusiveScan(counts)[|counts| - 1] + counts[|counts| - 1] == Sum(counts)
  {
    var e := ExclusiveScan(counts);
    if |counts| > 0 {
      assert counts[..0] == [];
    }
    forall i | 0 <= i < |counts|
      ensures Sum(counts[..i + 1]) == e[i] + counts[i]
      ensures 0 <= e[i] && e[i] + counts[i] <= Sum(counts)
    {
      SumSnoc(counts, i);
      assert counts == counts[..i + 1] + counts[i + 1..];
      SumAppend(counts[..i + 1], counts[i + 1..]);
      SumNonNeg(counts[..i]);
      SumNonNeg(counts[i + 1..]);
    }
    if |counts| > 0 {
      assert counts[..|counts|] == counts;
    }
  }

  /** Writing one cell leaves every slice that avoids it alone, and puts the
      written value in front of the slice that starts right after it. */
  lemma SliceAfterUpdate(s: seq<int>, p: int, x: int, a: int, b: int)
    requires 0 <= a <= b <= |s| && 0 <= p < |s|
    ensures p < a || b <= p ==> s[p := x][a..b] == s[a..b]
    ensures p + 1 == a ==> s[p := x][p..b] == [x] + s[a..b]
  {
  }

  /** The main programs' guard: `n` elements split evenly over `p` ranks, or a
      rejection when `p` does not divide `n`. */
  function EvenShare(n: nat, p: nat): (share: Option<nat>)
    requires p >= 1
    ensures share.Some? <==> n % p == 0
    ensures share.Some? ==> share.value * p == n
  {
    if n % p != 0 then None else Some(n / p)
  }

  // ------------------------------------------------ slices of all ranks

  function Lengths(ss: seq<seq<int>>): (lens: seq<int>) {
    seq(|ss|, i requires 0 <= i < |ss| => |ss[i]|)
  }

  /** Rank-order concatenation of per-rank slices (a gather). */
  function Concat(ss: seq<seq<int>>): (flat: seq<int>) {
    if ss == [] then [] else ss[0] + Concat(ss[1..])
  }

  /** A single slice concatenates to itself. */
  lemma HeadTail(s: seq<int>)
    requires s != []
    ensures multiset(s) == multiset{s[0]} + multiset(s[1..])
  {
    assert s == [s[0]] + s[1..];
  }

  /** The pieces from index `lo` on are piece `lo` followed by the rest. */
  lemma ConcatFrom(ss: seq<seq<int>>, lo: int)
    requires 0 <= lo < |ss|
    ensures Concat(ss[lo..]) == ss[lo] + Concat(ss[lo + 1..])
  {
    assert ss[lo..][1..] == ss[lo + 1..];
  }

  /** A suffix cut once more. */
  lemma SuffixSplit(s: seq<int>, a: int, b: int)
    requires 0 <= a <= b <= |s|
    ensures s[a..] == s[a..b] + s[b..]
  {
  }

  /** A sequence cut twice is its three pieces, in order. */
  lemma ThreeParts(s: seq<int>, i: int, j: int)
    requires 0 <= i <= j <= |s|
    ensures s == s[..i] + s[i..j] + s[j..]
    ensures multiset(s) == multiset(s[..i]) + multiset(s[i..j]) + multiset(s[j..])
  {
    assert s == s[..i] + s[i..j] + s[j..];
  }

  lemma AppendAssoc(a: seq<int>, b: seq<int>, c: seq<int>)
    ensures a + (b + c) == (a + b) + c
  {
  }

  lemma ConcatOne(x: seq<int>)
    ensures Concat([x]) == x
  {
    assert [x][1..] == [];
    assert Concat([x]) == x + Concat([]);
  }

  lemma {:induction false} ConcatAppend(a: seq<seq<int>>, b: seq<seq<int>>)
    ensures Concat(a + b) == Concat(a) + Concat(b)
    decreases |a|
  {
    if a == [] {
      assert a + b == b;
    } else {
      assert (a + b)[1..] == a[1..] + b;
      ConcatAppend(a[1..], b);
    }
  }

  lemma {:induction false} ConcatLength(ss: seq<seq<int>>)
    ensures |Concat(ss)| == Sum(Lengths(ss))
    decreases |ss|
  {
    if ss != [] {
      assert Lengths(ss)[1..] == Lengths(ss[1..]);
      ConcatLength(ss[1..]);
    }
  }

  /** Concatenating equal-length slices. */
  lemma {:induction false} ConcatUniformLength(ss: seq<seq<int>>, m: int)
    requires forall i :: 0 <= i < |ss| ==> |ss[i]| == m
    ensures |Concat(ss)| == |ss| * m
    decreases |ss|
  {
    if ss != [] {
      ConcatUniformLength(ss[1..], m);
    }
  }

  lemma {:induction false} InConcat(ss: seq<seq<int>>, x: int)
    requires x in Concat(ss)
    ensures exists i :: 0 <= i < |ss| && x in ss[i]
    decreases |ss|
  {
    if x !in ss[0] {
      InConcat(ss[1..], x);
      var i :| 0 <= i < |ss[1..]| && x in ss[1..][i];
      assert x in ss[i + 1];
    }
  }

  /** An element of one slice is an element of the concatenation. */
  lemma {:induction false} ConcatHas(ss: seq<seq<int>>, r: int, x: int)
    requires 0 <= r < |ss| && x in ss[r]
    ensures x in Concat(ss)
    decreases r
  {
    if r > 0 {
      assert ss[1..][r - 1] == ss[r];
      ConcatHas(ss[1..], r - 1, x);
    }
  }

  /** A bound on every slice's elements bounds the concatenation's. */
  lemma {:induction false} ConcatBelow(ss: seq<seq<int>>, m: int)
    requires forall r, i :: 0 <= r < |ss| && 0 <= i < |ss[r]| ==> ss[r][i] <= m
    ensures forall j :: 0 <= j < |Concat(ss)| ==> Concat(ss)[j] <= m
    decreases |ss|
  {
    if ss != [] {
      var rest := Concat(ss[1..]);
      assert forall r, i :: 0 <= r < |ss[1..]| && 0 <= i < |ss[1..][r]| ==> ss[1..][r][i] == ss[r + 1][i];
      ConcatBelow(ss[1..], m);
      forall j | 0 <= j < |Concat(ss)| ensures Concat(ss)[j] <= m {
        if j >= |ss[0]| {
          assert Concat(ss)[j] == rest[j - |ss[0]|];
        }
      }
    }
  }

  /** Slice `i` sits in the concatenation right after the slices before it,
      that is at the exclusive prefix sum of the lengths. */
  lemma ConcatSlice(ss: seq<seq<int>>, i: int)
    requires 0 <= i < |ss|
    ensures |Concat(ss[..i])| == Sum(Lengths(ss)[..i])
    ensures |Concat(ss[..i])| + |ss[i]| == |Concat(ss[..i + 1])| <= |Concat(ss)|
    ensures Concat(ss)[|Concat(ss[..i])|..|Concat(ss[..i + 1])|] == ss[i]
  {
    assert ss == ss[..i] + [ss[i]] + ss[i + 1..];
    assert ss[..i + 1] == ss[..i] + [ss[i]];
    ConcatAppend(ss[..i] + [ss[i]], ss[i + 1..]);
    ConcatAppend(ss[..i], [ss[i]]);
    assert Concat([ss[i]]) == ss[i];
    assert Lengths(ss)[..i] == Lengths(ss[..i]);
    ConcatLength(ss[..i]);
  }

  /** The converse: a sequence cut, at the running totals of the lengths, into
      the given slices is their concatenation. */
  lemma {:induction false} ConcatFromSlices(out: seq<int>, ss: seq<seq<int>>)
    requires |out| == |Concat(ss)|
    requires forall i :: 0 <= i < |ss| ==>
      |Concat(ss[..i])| + |ss[i]| <= |out| &&
      out[|Concat(ss[..i])|..|Concat(ss[..i])| + |ss[i]|] == ss[i]
    ensures out == Concat(ss)
    decreases |ss|
  {
    if ss != [] {
      var m := |ss[0]|;
      assert ss[..0] == [];
      assert out[..m] == ss[0];
      forall i | 0 <= i < |ss[1..]|
        ensures |Concat(ss[1..][..i])| + |ss[1..][i]| <= |out[m..]|
        ensures out[m..][|Concat(ss[1..][..i])|..|Concat(ss[1..][..i])| + |ss[1..][i]|] == ss[1..][i]
      {
        SliceAfterFirst(out, ss, i);
      }
      ConcatFromSlices(out[m..], ss[1..]);
      assert out == out[..m] + out[m..];
    }
  }

  /** Slice `i + 1` of `out` is slice `i` of what follows the first slice. */
  lemma SliceAfterFirst(out: seq<int>, ss: seq<seq<int>>, i: int)
    requires 0 <= i < |ss| - 1 && |ss[0]| <= |out|
    requires |Concat(ss[..i + 1])| + |ss[i + 1]| <= |out|
    requires out[|Concat(ss[..i + 1])|..|Concat(ss[..i + 1])| + |ss[i + 1]|] == ss[i + 1]
    ensures |Concat(ss[1..][..i])| + |ss[1..][i]| <= |out[|ss[0]|..]|
    ensures out[|ss[0]|..][|Concat(ss[1..][..i])|..|Concat(ss[1..][..i])| + |ss[1..][i]|] == ss[1..][i]
  {
    var m := |ss[0]|;
    assert ss[..i + 1] == [ss[0]] + ss[1..][..i];
    assert Concat(ss[..i + 1]) == ss[0] + Concat(ss[1..][..i]);
    var a, b := |Concat(ss[1..][..i])|, |ss[i + 1]|;
    assert |Concat(ss[..i + 1])| == m + a;
    assert out[m..][a..a + b] == out[m + a..m + a + b];
  }

  /** Scatter of `p` equal blocks of `m` elements: block `r` is `s[r*m..(r+1)*m]`. */
  function Split(s: seq<int>, p: nat, m: nat): (ss: seq<seq<int>>)
    requires |s| == p * m
    ensures |ss| == p && forall r :: 0 <= r < p ==> |ss[r]| == m
  {
    seq(p, r requires 0 <= r < p => Block(s, p, m, r))
  }

  function Block(s: seq<int>, p: nat, m: nat, r: nat): (b: seq<int>)
    requires |s| == p * m && r < p
    ensures |b| == m
  {
    assert (r + 1) * m <= p * m by {
      assert p * m - (r + 1) * m == (p - r - 1) * m;
      assert (p - r - 1) * m >= 0;
    }
    s[r * m..(r + 1) * m]
  }

  /** Gathering what was scattered gives back the array. */
  lemma ConcatSplit(s: seq<int>, p: nat, m: nat)
    requires |s| == p * m
    ensures Concat(Split(s, p, m)) == s
  {
    SplitSuffix(s, p, m, 0);
    assert Split(s, p, m)[0..] == Split(s, p, m);
  }

  /** The blocks from `lo` on, gathered, are the array from block `lo` on. */
  lemma {:induction false} SplitSuffix(s: seq<int>, p: nat, m: nat, lo: nat)
    requires |s| == p * m && lo <= p
    ensures lo * m <= |s| && Concat(Split(s, p, m)[lo..]) == s[lo * m..]
    decreases p - lo
  {
    if lo == p {
      assert Split(s, p, m)[lo..] == [];
    } else {
      SplitSuffix(s, p, m, lo + 1);
      SplitSuffixStep(s, p, m, lo);
    }
  }

  /** The step of `SplitSuffix`: block `lo` in front of the blocks after it. */
  lemma SplitSuffixStep(s: seq<int>, p: nat, m: nat, lo: nat)
    requires |s| == p * m && lo < p
    requires (lo + 1) * m <= |s| && Concat(Split(s, p, m)[lo + 1..]) == s[(lo + 1) * m..]
    ensures lo * m <= |s| && Concat(Split(s, p, m)[lo..]) == s[lo * m..]
  {
    var ss := Split(s, p, m);
    var a, b := lo * m, (lo + 1) * m;
    assert b == a + m;
    assert ss[lo] == s[a..b];
    ConcatFrom(ss, lo);
    SuffixSplit(s, a, b);
  }

  /** Scattering what was gathered from equal blocks gives back the blocks. */
  lemma SplitConcat(ss: seq<seq<int>>, m: nat)
    requires forall r :: 0 <= r < |ss| ==> |ss[r]| == m
    ensures |Concat(ss)| == |ss| * m
    ensures Split(Concat(ss), |ss|, m) == ss
  {
    ConcatUniformLength(ss, m);
    var s := Concat(ss);
    forall r | 0 <= r < |ss| ensures Split(s, |ss|, m)[r] == ss[r] {
      ConcatSlice(ss, r);
      ConcatUniformLength(ss[..r], m);
      ConcatUniformLength(ss[..r + 1], m);
      assert (r + 1) * m == r * m + m;
    }
  }

  /** Permuting every slice permutes the concatenation. */
  lemma {:induction false} ConcatPermutes(ss: seq<seq<int>>, tt: seq<seq<int>>)
    requires |ss| == |tt| && forall r :: 0 <= r < |ss| ==> multiset(ss[r]) == multiset(tt[r])
    ensures multiset(Concat(ss)) == multiset(Concat(tt))
    decreases |ss|
  {
    if ss != [] {
      ConcatPermutes(ss[1..], tt[1..]);
    }
  }

  /** Putting `x` in front of slice `b` puts it in the concatenation right
      after the slices before `b`. */
  lemma {:induction false} ConcatPrepend(ss: seq<seq<int>>, b: int, x: int)
    requires 0 <= b < |ss|
    ensures Concat(ss[b := [x] + ss[b]]) == Concat(ss[..b]) + [x] + Concat(ss[b..])
    decreases b
  {
    var ss' := ss[b := [x] + ss[b]];
    if b == 0 {
      assert ss'[1..] == ss[1..];
      assert ss[..0] == [];
      assert ss[0..] == ss;
      calc {
        Concat(ss');
        ([x] + ss[0]) + Concat(ss[1..]);
        [x] + (ss[0] + Concat(ss[1..]));
      }
    } else {
      var tail := ss[1..][b - 1 := [x] + ss[1..][b - 1]];
      assert ss'[1..] == tail;
      ConcatPrepend(ss[1..], b - 1, x);
      assert ss[1..][..b - 1] == ss[..b][1..];
      assert ss[1..][b - 1..] == ss[b..];
      calc {
        Concat(ss');
        ss[0] + Concat(tail);
        ss[0] + (Concat(ss[..b][1..]) + [x] + Concat(ss[b..]));
        (ss[0] + Concat(ss[..b][1..])) + [x] + Concat(ss[b..]);
      }
    }
  }

  lemma ConcatPrependMultiset(ss: seq<seq<int>>, b: int, x: int)
    requires 0 <= b < |ss|
    ensures multiset(Concat(ss[b := [x] + ss[b]])) == multiset(Concat(ss)) + multiset{x}
  {
    ConcatPrepend(ss, b, x);
    assert ss == ss[..b] + ss[b..];
    ConcatAppend(ss[..b], ss[b..]);
  }

  /** After the two recursive calls of an in-place sort, one on
      `[start, half)` (`half == start + k`) turning `first` into `lower` and
      one on `[half, half+k)` turning `second` into `upper`, the range holds
      `lower + upper` followed by its untouched tail; the two calls worked on
      the two halves of what the range held at the start, and nothing outside
      the range changed. `orig`, `mid` and `fin` are the whole array before,
      between and after the calls. */
  lemma HalvesInPlace(orig: seq<int>, mid: seq<int>, fin: seq<int>, start: int, k: int, half: int, length: int,
                      first: seq<int>, second: seq<int>, lower: seq<int>, upper: seq<int>)
    requires 0 <= start && 0 <= k && half == start + k && k + k <= length && start + length <= |orig| == |mid| == |fin|
    requires first == orig[start..half] && second == mid[half..half + k]
    requires mid[start..half] == lower && fin[half..half + k] == upper
    requires mid[..start] == orig[..start] && mid[half..] == orig[half..]
    requires fin[..half] == mid[..half] && fin[half + k..] == mid[half + k..]
    ensures var s := orig[start..start + length];
      first == s[..k] && second == s[k..2 * k] && fin[start..start + length] == lower + upper + s[2 * k..]
    ensures fin[..start] == orig[..start] && fin[start + length..] == orig[start + length..]
  {
    HalvesSecond(orig, mid, start, k, half, length, second);
    HalvesRange(orig, mid, fin, start, k, half, length, lower, upper);
    HalvesFrame(orig, mid, fin, start, k, half, length);
  }

  lemma HalvesSecond(orig: seq<int>, mid: seq<int>, start: int, k: int, half: int, length: int, second: seq<int>)
    requires 0 <= start && 0 <= k && half == start + k && k + k <= length && start + length <= |orig| == |mid|
    requires mid[half..] == orig[half..] && second == mid[half..half + k]
    ensures second == orig[start..start + length][k..2 * k]
  {
    forall q | 0 <= q < k ensures second[q] == orig[half + q] {
      assert mid[half + q] == mid[half..][q];
    }
  }

  lemma HalvesRange(orig: seq<int>, mid: seq<int>, fin: seq<int>, start: int, k: int, half: int, length: int,
                    lower: seq<int>, upper: seq<int>)
    requires 0 <= start && 0 <= k && half == start + k && k + k <= length && start + length <= |orig| == |mid| == |fin|
    requires mid[start..half] == lower && fin[half..half + k] == upper
    requires mid[half..] == orig[half..]
    requires fin[..half] == mid[..half] && fin[half + k..] == mid[half + k..]
    ensures fin[start..start + length] == lower + upper + orig[start..start + length][2 * k..]
  {
    var r, want := fin[start..start + length], lower + upper + orig[start..start + length][2 * k..];
    forall q | 0 <= q < length ensures r[q] == want[q] {
      if q < k {
        assert fin[start + q] == fin[..half][start + q] == mid[start + q];
        assert mid[start + q] == mid[start..half][q];
      } else if q < k + k {
        assert fin[start + q] == fin[half..half + k][q - k];
      } else {
        assert fin[start + q] == fin[half + k..][q - k - k] == mid[start + q];
        assert mid[start + q] == mid[half..][q - k] == orig[start + q];
      }
    }
  }

  lemma HalvesFrame(orig: seq<int>, mid: seq<int>, fin: seq<int>, start: int, k: int, half: int, length: int)
    requires 0 <= start && 0 <= k && half == start + k && k + k <= length && start + length <= |orig| == |mid| == |fin|
    requires mid[..start] == orig[..start] && mid[half..] == orig[half..]
    requires fin[..half] == mid[..half] && fin[half + k..] == mid[half + k..]
    ensures fin[..start] == orig[..start] && fin[start + length..] == orig[start + length..]
  {
    var before, before' := fin[..start], orig[..start];
    forall q | 0 <= q < start ensures before[q] == before'[q] {
      assert fin[q] == fin[..half][q];
      assert mid[q] == mid[..start][q];
    }
    var after, after' := fin[start + length..], orig[start + length..];
    forall q | 0 <= q < |fin| - start - length ensures after[q] == after'[q] {
      assert fin[start + length + q] == fin[half + k..][length - k - k + q];
      assert mid[start + length + q] == mid[half..][length - k + q];
    }
  }

  /** With every slice before `b` empty, `x` put in front of slice `b` leads
      the concatenation. */
  lemma ConcatLeading(ss: seq<seq<int>>, b: int, x: int)
    requires 0 <= b < |ss| && Concat(ss[..b]) == []
    ensures Concat(ss[b := [x] + ss[b]]) == [x] + Concat(ss)
  {
    ConcatPrepend(ss, b, x);
    assert ss == ss[..b] + ss[b..];
    ConcatAppend(ss[..b], ss[b..]);
  }

  /** Rank-order concatenation of slices that are each sorted and ordered among each other. */
  lemma {:induction false} SortedConcat(ss: seq<seq<int>>)
    requires forall i :: 0 <= i < |ss| ==> Sorted(ss[i])
    requires forall i, j, x, y :: 0 <= i < j < |ss| && x in ss[i] && y in ss[j] ==> x <= y
    ensures Sorted(Concat(ss))
    decreases |ss|
  {
    if ss != [] {
      SortedConcat(ss[1..]);
      forall x, y | x in ss[0] && y in Concat(ss[1..]) ensures x <= y {
        InConcat(ss[1..], y);
        var j :| 0 <= j < |ss[1..]| && y in ss[1..][j];
        assert y in ss[j + 1];
      }
      SortedAppend(ss[0], Concat(ss[1..]));
    }
  }

  /** `MPI_Gather(MPI_IN_PLACE, m, ..., data, m, ...)` at the root, the other
      ranks sending their final slices `ss[1..]`: the root sends nothing, so
      the first `m` cells keep what `data` already held there. */
  function GatherInPlace(data: seq<int>, ss: seq<seq<int>>, m: nat): (g: seq<int>)
    requires |ss| >= 1 && m <= |data|
    ensures |g| == m + |Concat(ss[1..])|
  {
    data[..m] + Concat(ss[1..])
  }

  /** The in-place gather returns a permutation of the ranks' slices exactly
      when the root's untouched block already held the root's final slice
      as a multiset. */
  lemma GatherInPlaceExact(data: seq<int>, ss: seq<seq<int>>, m: nat)
    requires |ss| >= 1 && m <= |data|
    ensures multiset(GatherInPlace(data, ss, m)) == multiset(Concat(ss)) <==> multiset(data[..m]) == multiset(ss[0])
  {
    var rest := multiset(Concat(ss[1..]));
    assert multiset(GatherInPlace(data, ss, m)) == multiset(data[..m]) + rest;
    assert multiset(Concat(ss)) == multiset(ss[0]) + rest;
    MultisetCancel(multiset(data[..m]), multiset(ss[0]), rest);
  }

  /** Adding the same multiset to two multisets keeps them equal or unequal. */
  lemma MultisetCancel(a: multiset<int>, b: multiset<int>, c: multiset<int>)
    ensures a + c == b + c <==> a == b
  {
    if a + c == b + c {
      forall x ensures a[x] == b[x] {
        assert (a + c)[x] == (b + c)[x];
      }
    }
  }

  // ------------------------------------------------------ library sort

  function Insert(x: int, s: seq<int>): (r: seq<int>)
    ensures multiset(r) == multiset(s) + multiset{x}
  {
    if s == [] then [x]
    else if x <= s[0] then [x] + s
    else
      assert s == [s[0]] + s[1..];
      [s[0]] + Insert(x, s[1..])
  }

  lemma {:induction false} InsertSorted(x: int, s: seq<int>)
    requires Sorted(s)
    ensures Sorted(Insert(x, s))
    decreases |s|
  {
    if s != [] && x > s[0] {
      InsertSorted(x, s[1..]);
      InsertBounded(x, s[1..], s[0]);
      assert Insert(x, s) == [s[0]] + Insert(x, s[1..]);
    }
  }

  /** A lower bound of `x` and of `s` bounds `Insert(x, s)`. */
  lemma InsertBounded(x: int, s: seq<int>, b: int)
    requires b <= x && forall i :: 0 <= i < |s| ==> b <= s[i]
    ensures forall k :: 0 <= k < |Insert(x, s)| ==> b <= Insert(x, s)[k]
  {
    var r := Insert(x, s);
    forall k | 0 <= k < |r| ensures b <= r[k] {
      assert r[k] in multiset(r);
      if r[k] != x {
        assert r[k] in multiset(s);
        var i :| 0 <= i < |s| && s[i] == r[k];
      }
    }
  }

  /** `std::sort`: a sorted permutation of its input. */
  function Sort(s: seq<int>): (r: seq<int>)
    ensures Sorted(r) && multiset(r) == multiset(s)
    ensures |r| == |s|
  {
    if s == [] then []
    else
      assert s == [s[0]] + s[1..];
      InsertSorted(s[0], Sort(s[1..]));
      var r := Insert(s[0], Sort(s[1..]));
      assert |r| == |multiset(r)| == |multiset(s)| == |s|;
      r
  }

  /** `r` is `s` sorted: all that `std::sort` promises about its result. */
  predicate IsSortOf(r: seq<int>, s: seq<int>) {
    Sorted(r) && multiset(r) == multiset(s)
  }

  /** A multiset has only one sorted arrangement. */
  lemma {:induction false} SortedUnique(a: seq<int>, b: seq<int>)
    requires Sorted(a) && Sorted(b) && multiset(a) == multiset(b)
    ensures a == b
    decreases |a|
  {
    assert |a| == |multiset(a)| == |multiset(b)| == |b|;
    if a != [] {
      assert a[0] in multiset(b);
      assert b[0] in multiset(a);
      assert a[0] == b[0];
      assert a == [a[0]] + a[1..];
      assert b == [b[0]] + b[1..];
      assert multiset(a[1..]) == multiset(a) - multiset{a[0]};
      assert multiset(b[1..]) == multiset(b) - multiset{b[0]};
      assert multiset(a[1..]) == multiset(b[1..]);
      SortedUnique(a[1..], b[1..]);
    }
  }

  /** Sorting an already sorted slice changes nothing; sorting twice is sorting once. */
  lemma SortIdempotent(s: seq<int>)
    ensures Sorted(s) ==> Sort(s) == s
    ensures Sort(Sort(s)) == Sort(s)
  {
    if Sorted(s) {
      SortedUnique(Sort(s), s);
    }
    SortedUnique(Sort(Sort(s)), Sort(s));
  }
}
