/** Routing elements to numbered buckets, the step two engines share: the
    radix engine buckets by one decimal digit, the sample-sort engine by the
    splitter range an element falls in. `Partition` lays the buckets out one
    after the other, each in input order: the stable bucket sort that a
    counting sort computes and that an all-to-all exchange cuts into pieces. */
module Buckets {
  import opened Seqs

  datatype Key =
    | DecimalDigit(exp: int)
    | SplitterBucket(splitters: seq<int>)

  predicate ValidKey(k: Key) {
    match k
    case DecimalDigit(e) => e >= 1
    case SplitterBucket(spl) => |spl| >= 1
  }

  /** How many buckets a key routes to. */
  function Width(k: Key): (w: nat)
    requires ValidKey(k)
  {
    match k
    case DecimalDigit(_) => 10
    case SplitterBucket(spl) => |spl|
  }

  /** The first splitter index `j' >= j` with `x < splitters[j']`, or the last
      bucket when there is none: the scan `while (j < npes-1 && x >= splitters[j]) j++`. */
  function BucketFrom(x: int, spl: seq<int>, j: nat): (b: nat)
    requires j < |spl|
    ensures j <= b < |spl|
    decreases |spl| - j
  {
    if j == |spl| - 1 || x < spl[j] then j else BucketFrom(x, spl, j + 1)
  }

  /** The bucket `x` is routed to: its digit `(x / exp) % 10`, or the
      splitter bucket the scan from 0 finds. Dafny's `/` and `%` are
      Euclidean, so the digit is a counter index for every `x`. */
  function KeyOf(k: Key, x: int): (key: int)
    requires ValidKey(k)
    ensures 0 <= key < Width(k)
  {
    match k
    case DecimalDigit(e) => (x / e) % 10
    case SplitterBucket(spl) => BucketFrom(x, spl, 0)
  }

  /** C++'s `(x / exp) % 10`, whose `/` and `%` truncate toward zero. */
  function TruncatedDigit(x: int, exp: int): (d: int)
    requires exp >= 1
    ensures -10 < d < 10
  {
    var q := if x >= 0 then x / exp else -((-x) / exp);
    if q >= 0 then q % 10 else -((-q) % 10)
  }

  /** On the non-negative elements the radix engine admits, the C++ digit is
      the bucket `KeyOf` computes, hence an index into `count[10]`. */
  lemma KeyInRange(k: Key, x: int)
    requires ValidKey(k) && (k.DecimalDigit? ==> x >= 0)
    ensures 0 <= KeyOf(k, x) < Width(k)
    ensures k.DecimalDigit? ==> TruncatedDigit(x, k.exp) == KeyOf(k, x) && 0 <= TruncatedDigit(x, k.exp) < 10
  {
  }

  /** On a negative element the C++ digit is a negative index: `-1` gives
      `count[-1]`, which is why the radix engine requires `x >= 0`. */
  lemma NegativeDigitIndex()
    ensures TruncatedDigit(-1, 1) == -1 && KeyOf(DecimalDigit(1), -1) == 9
  {
  }

  /** The elements of `s` routed to bucket `b`, in their order in `s`. */
  function Select(s: seq<int>, k: Key, b: int): (r: seq<int>)
    requires ValidKey(k)
    ensures |r| <= |s|
  {
    if s == [] then [] else Keep(k, s[0], b) + Select(s[1..], k, b)
  }

  function Keep(k: Key, x: int, b: int): (kept: seq<int>)
    requires ValidKey(k)
  {
    if KeyOf(k, x) == b then [x] else []
  }

  /** Selecting from `[x] + s` puts `x` in front of exactly one bucket. */
  lemma SelectsCons(x: int, s: seq<int>, k: Key)
    requires ValidKey(k)
    ensures 0 <= KeyOf(k, x) < Width(k)
    ensures Selects([x] + s, k) == Selects(s, k)[KeyOf(k, x) := [x] + Selects(s, k)[KeyOf(k, x)]]
  {
    assert ([x] + s)[1..] == s;
    var b := KeyOf(k, x);
    forall d | 0 <= d < Width(k)
      ensures Selects([x] + s, k)[d] == Selects(s, k)[b := [x] + Selects(s, k)[b]][d]
    {
    }
  }

  /** A bucket no element is routed to is empty. */
  lemma {:induction false} SelectNone(s: seq<int>, k: Key, d: int)
    requires ValidKey(k)
    requires forall j :: 0 <= j < |s| ==> KeyOf(k, s[j]) != d
    ensures Select(s, k, d) == []
    decreases |s|
  {
    if s != [] {
      SelectNone(s[1..], k, d);
    }
  }

  /** Every bucket, in bucket order. */
  function Selects(s: seq<int>, k: Key): (buckets: seq<seq<int>>)
    requires ValidKey(k)
    ensures |buckets| == Width(k)
  {
    seq(Width(k), b requires 0 <= b < Width(k) => Select(s, k, b))
  }

  /** Bucket sizes: the histogram a counting pass builds. */
  function Histogram(s: seq<int>, k: Key): (counts: seq<int>)
    requires ValidKey(k)
    ensures |counts| == Width(k)
    ensures forall b :: 0 <= b < |counts| ==> 0 <= counts[b] <= |s|
  {
    Lengths(Selects(s, k))
  }

  /** Buckets 0, 1, ... laid out one after the other, each in input order. */
  function Partition(s: seq<int>, k: Key): (r: seq<int>)
    requires ValidKey(k)
    ensures |r| == |s|
  {
    SelectsPermute(s, k);
    Concat(Selects(s, k))
  }

  // ---------------------------------------------------------------- Select

  lemma {:induction false} SelectAppend(a: seq<int>, c: seq<int>, k: Key, b: int)
    requires ValidKey(k)
    ensures Select(a + c, k, b) == Select(a, k, b) + Select(c, k, b)
    decreases |a|
  {
    if a == [] {
      assert a + c == c;
    } else {
      SelectAppend(a[1..], c, k, b);
      SelectAppendStep(a, c, k, b);
    }
  }

  lemma SelectFront(s: seq<int>, k: Key, b: int)
    requires ValidKey(k) && s != []
    ensures Select(s, k, b) == Keep(k, s[0], b) + Select(s[1..], k, b)
  {
  }

  /** The step of `SelectAppend`: the first element of `a` is kept or dropped
      the same way in front of `a + c` as in front of `a`. */
  lemma SelectAppendStep(a: seq<int>, c: seq<int>, k: Key, b: int)
    requires ValidKey(k) && a != []
    requires Select(a[1..] + c, k, b) == Select(a[1..], k, b) + Select(c, k, b)
    ensures Select(a + c, k, b) == Select(a, k, b) + Select(c, k, b)
  {
    assert (a + c)[1..] == a[1..] + c && (a + c)[0] == a[0];
    SelectFront(a + c, k, b);
    SelectFront(a, k, b);
    AppendAssoc(Keep(k, a[0], b), Select(a[1..], k, b), Select(c, k, b));
  }

  lemma {:induction false} SelectMembers(s: seq<int>, k: Key, b: int)
    requires ValidKey(k)
    ensures forall x :: x in Select(s, k, b) ==> x in s && KeyOf(k, x) == b
    decreases |s|
  {
    if s != [] {
      SelectMembers(s[1..], k, b);
    }
  }

  /** Selecting from a selection. */
  lemma {:induction false} SelectSelect(s: seq<int>, k: Key, b: int, d: int)
    requires ValidKey(k)
    ensures Select(Select(s, k, b), k, d) == if b == d then Select(s, k, b) else []
    decreases |s|
  {
    if s != [] {
      SelectSelect(s[1..], k, b, d);
      SelectAppend(Keep(k, s[0], b), Select(s[1..], k, b), k, d);
    }
  }

  /** Selection distributes over a concatenation of slices. */
  lemma {:induction false} SelectConcat(ss: seq<seq<int>>, k: Key, d: int)
    requires ValidKey(k)
    ensures Select(Concat(ss), k, d) == Concat(seq(|ss|, i requires 0 <= i < |ss| => Select(ss[i], k, d)))
    decreases |ss|
  {
    if ss != [] {
      SelectConcat(ss[1..], k, d);
      SelectAppend(ss[0], Concat(ss[1..]), k, d);
      assert seq(|ss|, i requires 0 <= i < |ss| => Select(ss[i], k, d))[1..]
          == seq(|ss[1..]|, i requires 0 <= i < |ss[1..]| => Select(ss[1..][i], k, d));
    }
  }

  lemma {:induction false} ConcatAllEmpty(ss: seq<seq<int>>)
    requires forall i :: 0 <= i < |ss| ==> ss[i] == []
    ensures Concat(ss) == []
    decreases |ss|
  {
    if ss != [] {
      ConcatAllEmpty(ss[1..]);
    }
  }

  /** A concatenation in which only slice `d` is non-empty is that slice. */
  lemma {:induction false} ConcatSingle(ss: seq<seq<int>>, d: int)
    requires 0 <= d < |ss|
    requires forall i :: 0 <= i < |ss| && i != d ==> ss[i] == []
    ensures Concat(ss) == ss[d]
    decreases d
  {
    var rest := ss[1..];
    assert forall i :: 0 <= i < |rest| ==> rest[i] == ss[i + 1];
    if d == 0 {
      ConcatAllEmpty(rest);
      assert Concat(ss) == ss[0] + [];
    } else {
      ConcatSingle(rest, d - 1);
      assert Concat(ss) == [] + rest[d - 1];
    }
  }

  // ------------------------------------------------------------ Partition

  /** Bucketing loses and invents nothing: the buckets laid out one after
      the other are a permutation of the input. */
  lemma {:induction false} SelectsPermute(s: seq<int>, k: Key)
    requires ValidKey(k)
    ensures multiset(Concat(Selects(s, k))) == multiset(s)
    ensures |Concat(Selects(s, k))| == |s|
    decreases |s|
  {
    if s == [] {
      ConcatAllEmpty(Selects(s, k));
    } else {
      var x, rest := s[0], s[1..];
      assert s == [x] + rest;
      SelectsPermute(rest, k);
      SelectsCons(x, rest, k);
      ConcatPrependMultiset(Selects(rest, k), KeyOf(k, x), x);
    }
    assert |multiset(Concat(Selects(s, k)))| == |Concat(Selects(s, k))|;
  }

  /** The layout is a permutation of the input. */
  lemma PartitionPermutes(s: seq<int>, k: Key)
    requires ValidKey(k)
    ensures multiset(Partition(s, k)) == multiset(s)
  {
    SelectsPermute(s, k);
  }

  /** Stability: within one bucket, the elements keep their input order. */
  lemma PartitionStable(s: seq<int>, k: Key, d: int)
    requires ValidKey(k) && 0 <= d < Width(k)
    ensures Select(Partition(s, k), k, d) == Select(s, k, d)
  {
    var ss := Selects(s, k);
    SelectConcat(ss, k, d);
    var inner := seq(|ss|, i requires 0 <= i < |ss| => Select(ss[i], k, d));
    forall i | 0 <= i < |ss| ensures inner[i] == if i == d then Select(s, k, d) else [] {
      SelectSelect(s, k, i, d);
    }
    ConcatSingle(inner, d);
  }

  /** Every element of bucket `b` of the layout is routed to `b`. */
  lemma PartitionBucketKeys(s: seq<int>, k: Key, b: int)
    requires ValidKey(k) && 0 <= b < Width(k)
    ensures forall x :: x in Selects(s, k)[b] ==> x in s && KeyOf(k, x) == b
  {
    SelectMembers(s, k, b);
  }

  /** Buckets below every key of `s` are empty. */
  lemma BucketsBelowEmpty(s: seq<int>, k: Key, b: int)
    requires ValidKey(k) && 0 <= b <= Width(k)
    requires forall j :: 0 <= j < |s| ==> KeyOf(k, s[j]) >= b
    ensures Concat(Selects(s, k)[..b]) == []
  {
    var ss := Selects(s, k);
    forall i | 0 <= i < b ensures ss[..b][i] == [] {
      SelectNone(s, k, i);
    }
    ConcatAllEmpty(ss[..b]);
  }

  /** The keys ascend along `s`. */
  predicate KeyOrdered(s: seq<int>, k: Key)
    requires ValidKey(k)
  {
    forall i, j :: 0 <= i < j < |s| ==> KeyOf(k, s[i]) <= KeyOf(k, s[j])
  }

  /** The layout is ordered by key: a counting pass leaves the digits (or
      splitter buckets) nondecreasing. */
  lemma PartitionKeyOrdered(s: seq<int>, k: Key)
    requires ValidKey(k)
    ensures forall i, j :: 0 <= i < j < |Partition(s, k)| ==>
      KeyOf(k, Partition(s, k)[i]) <= KeyOf(k, Partition(s, k)[j])
  {
    var ss := Selects(s, k);
    forall b | 0 <= b < |ss| ensures forall x :: x in ss[b] ==> KeyOf(k, x) == b {
      PartitionBucketKeys(s, k, b);
    }
    ConcatKeyOrdered(ss, k, 0);
    assert ss[0..] == ss;
  }

  /** Slices whose elements are all routed to their own index concatenate,
      from index `lo` on, to a key-ordered sequence of keys `>= lo`. */
  lemma {:induction false} ConcatKeyOrdered(ss: seq<seq<int>>, k: Key, lo: nat)
    requires ValidKey(k) && lo <= |ss|
    requires forall b :: 0 <= b < |ss| ==> forall x :: x in ss[b] ==> KeyOf(k, x) == b
    ensures KeyOrdered(Concat(ss[lo..]), k)
    ensures forall x :: x in Concat(ss[lo..]) ==> KeyOf(k, x) >= lo
    decreases |ss| - lo
  {
    if lo == |ss| {
      assert ss[lo..] == [];
    } else {
      ConcatKeyOrdered(ss, k, lo + 1);
      ConcatFrom(ss, lo);
      KeyOrderedPrepend(ss[lo], Concat(ss[lo + 1..]), k, lo);
    }
  }

  /** A run of key-`b` elements in front of key-ordered elements whose keys
      all exceed `b` is key-ordered. */
  lemma KeyOrderedPrepend(a: seq<int>, c: seq<int>, k: Key, b: int)
    requires ValidKey(k) && KeyOrdered(c, k)
    requires forall x :: x in a ==> KeyOf(k, x) == b
    requires forall x :: x in c ==> KeyOf(k, x) > b
    ensures KeyOrdered(a + c, k)
  {
    var s := a + c;
    forall i, j | 0 <= i < j < |s| ensures KeyOf(k, s[i]) <= KeyOf(k, s[j]) {
      if j < |a| {
        assert s[i] == a[i] && s[j] == a[j] && a[i] in a && a[j] in a;
      } else if i < |a| {
        assert s[i] == a[i] && a[i] in a && s[j] == c[j - |a|] && c[j - |a|] in c;
      } else {
        assert s[i] == c[i - |a|] && s[j] == c[j - |a|];
      }
    }
  }

  /** When the keys already ascend along `s`, the layout is `s` itself. */
  lemma {:induction false} PartitionOfKeyOrdered(s: seq<int>, k: Key)
    requires ValidKey(k)
    requires KeyOrdered(s, k)
    ensures Partition(s, k) == s
    decreases |s|
  {
    if s == [] {
      ConcatAllEmpty(Selects(s, k));
    } else {
      var x, rest := s[0], s[1..];
      assert s == [x] + rest;
      var b := KeyOf(k, x);
      forall i, j | 0 <= i < j < |rest| ensures KeyOf(k, rest[i]) <= KeyOf(k, rest[j]) {
        assert rest[i] == s[i + 1] && rest[j] == s[j + 1];
      }
      PartitionOfKeyOrdered(rest, k);
      forall j | 0 <= j < |rest| ensures KeyOf(k, rest[j]) >= b {
        assert rest[j] == s[j + 1];
      }
      BucketsBelowEmpty(rest, k, b);
      PartitionConsLeading(x, rest, k);
    }
  }

  /** An element whose bucket precedes every non-empty bucket leads the layout. */
  lemma PartitionConsLeading(x: int, rest: seq<int>, k: Key)
    requires ValidKey(k) && 0 <= KeyOf(k, x) < Width(k)
    requires Concat(Selects(rest, k)[..KeyOf(k, x)]) == []
    ensures Partition([x] + rest, k) == [x] + Partition(rest, k)
  {
    SelectsCons(x, rest, k);
    ConcatLeading(Selects(rest, k), KeyOf(k, x), x);
  }

  // ------------------------------------------------------------ Histogram

  /** Before any element is counted every bucket is empty. */
  lemma HistogramEmpty(k: Key)
    requires ValidKey(k)
    ensures Histogram([], k) == seq(Width(k), _ => 0)
  {
  }

  /** Counting one more element adds one to its bucket and nothing elsewhere. */
  lemma HistogramSnoc(s: seq<int>, x: int, k: Key)
    requires ValidKey(k)
    ensures 0 <= KeyOf(k, x) < Width(k)
    ensures Histogram(s + [x], k) == Histogram(s, k)[KeyOf(k, x) := Histogram(s, k)[KeyOf(k, x)] + 1]
  {
    forall d | 0 <= d < Width(k)
      ensures Histogram(s + [x], k)[d] == Histogram(s, k)[d] + (if d == KeyOf(k, x) then 1 else 0)
    {
      BucketSnoc(s, x, k, d);
    }
  }

  /** Appending `x` grows bucket `d` by one exactly when `x` is routed there. */
  lemma BucketSnoc(s: seq<int>, x: int, k: Key, d: int)
    requires ValidKey(k)
    ensures |Select(s + [x], k, d)| == |Select(s, k, d)| + (if d == KeyOf(k, x) then 1 else 0)
  {
    SelectAppend(s, [x], k, d);
    assert Select([x], k, d) == Keep(k, x, d) + Select([], k, d);
  }

  /** The bucket sizes add up to the number of elements. */
  lemma HistogramTotal(s: seq<int>, k: Key)
    requires ValidKey(k)
    ensures |Histogram(s, k)| == Width(k)
    ensures Sum(Histogram(s, k)) == |s|
  {
    ConcatLength(Selects(s, k));
    SelectsPermute(s, k);
  }
}
