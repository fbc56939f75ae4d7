/** The elements held by a range of ranks, when each rank's slice is one
    entry of a sequence indexed by rank. */
module RankBags {
  import opened Seqs
  import opened Arith

  /** The elements of the slices of ranks `lo .. hi-1`. */
  function Bag(ss: seq<seq<int>>, lo: nat, hi: nat): (bag: multiset<int>)
    requires lo <= hi <= |ss|
    decreases hi - lo
  {
    if lo == hi then multiset{} else multiset(ss[lo]) + Bag(ss, lo + 1, hi)
  }

  lemma {:induction false} BagConcat(ss: seq<seq<int>>, lo: nat)
    requires lo <= |ss|
    ensures Bag(ss, lo, |ss|) == multiset(Concat(ss[lo..]))
    decreases |ss| - lo
  {
    if lo < |ss| {
      BagConcat(ss, lo + 1);
      assert ss[lo..][1..] == ss[lo + 1..];
    }
  }

  lemma {:induction false} BagSplit(ss: seq<seq<int>>, lo: nat, mid: nat, hi: nat)
    requires lo <= mid <= hi <= |ss|
    ensures Bag(ss, lo, hi) == Bag(ss, lo, mid) + Bag(ss, mid, hi)
    decreases mid - lo
  {
    if lo < mid {
      BagSplit(ss, lo + 1, mid, hi);
    }
  }

  /** Ranks `lo .. hi-1` paired with the ranks `d` above them, which run
      from `lo'` to `hi'`: pairs that keep their elements keep those of both
      runs together. */
  lemma {:induction false} BagPaired(a: seq<seq<int>>, b: seq<seq<int>>, lo: nat, hi: nat, lo': nat, hi': nat, d: nat)
    requires |a| == |b| && lo <= hi && lo' == lo + d && hi' == hi + d && hi' <= |a|
    requires forall r :: lo <= r < hi ==> multiset(b[r]) + multiset(b[r + d]) == multiset(a[r]) + multiset(a[r + d])
    ensures Bag(b, lo, hi) + Bag(b, lo', hi') == Bag(a, lo, hi) + Bag(a, lo', hi')
    decreases hi - lo
  {
    if lo < hi {
      var n, n' := lo + 1, lo' + 1;
      BagPaired(a, b, n, hi, n', hi', d);
      var xb, yb, xa, ya := Bag(b, n, hi), Bag(b, n', hi'), Bag(a, n, hi), Bag(a, n', hi');
      Regroup(multiset(b[lo]), multiset(b[lo']), xb, yb, multiset(a[lo]), multiset(a[lo']), xa, ya);
      assert Bag(b, lo, hi) == multiset(b[lo]) + xb && Bag(b, lo', hi') == multiset(b[lo']) + yb;
      assert Bag(a, lo, hi) == multiset(a[lo]) + xa && Bag(a, lo', hi') == multiset(a[lo']) + ya;
    }
  }

  /** Two equal sums of pairs of bags, added crosswise. */
  lemma Regroup(p: multiset<int>, q: multiset<int>, x: multiset<int>, y: multiset<int>,
                p': multiset<int>, q': multiset<int>, x': multiset<int>, y': multiset<int>)
    requires p + q == p' + q' && x + y == x' + y'
    ensures (p + x) + (q + y) == (p' + x') + (q' + y')
  {
    calc {
      (p + x) + (q + y);
      (p + q) + (x + y);
      (p' + q') + (x' + y');
      (p' + x') + (q' + y');
    }
  }

  /** The first `nb` blocks of `2*d` ranks, each pairing its lower half with
      its upper half. */
  lemma {:induction false} BagBlocks(a: seq<seq<int>>, b: seq<seq<int>>, d: nat, nb: nat)
    requires |a| == |b| && d >= 1 && nb * (2 * d) <= |a|
    requires forall r :: 0 <= r < |a| && r % (2 * d) < d && r + d < |a| ==>
      multiset(b[r]) + multiset(b[r + d]) == multiset(a[r]) + multiset(a[r + d])
    ensures Bag(b, 0, nb * (2 * d)) == Bag(a, 0, nb * (2 * d))
    decreases nb
  {
    if nb > 0 {
      BagBlocks(a, b, d, nb - 1);
      var lo, mid, hi := BlockBounds(nb, d);
      BagBlockStep(a, b, d, nb - 1, lo, mid, hi);
    }
  }

  /** Equal bags below block `q` of `2*d` ranks, which runs from `lo` through
      `mid` to `hi`, extend to equal bags below its end. */
  lemma BagBlockStep(a: seq<seq<int>>, b: seq<seq<int>>, d: nat, q: nat, lo: nat, mid: nat, hi: nat)
    requires |a| == |b| && d >= 1 && lo == q * (2 * d) && mid == lo + d && hi == mid + d && hi <= |a|
    requires forall r :: 0 <= r < |a| && r % (2 * d) < d && r + d < |a| ==>
      multiset(b[r]) + multiset(b[r + d]) == multiset(a[r]) + multiset(a[r + d])
    requires Bag(b, 0, lo) == Bag(a, 0, lo)
    ensures Bag(b, 0, hi) == Bag(a, 0, hi)
  {
    BlockPairs(a, b, d, q, lo);
    BagPaired(a, b, lo, mid, mid, hi, d);
    BagJoin(a, b, lo, mid, hi);
  }

  /** Block `nb - 1` of `2*d` ranks runs from `lo` through `mid` to `hi`,
      where the first `nb` blocks end. */
  lemma BlockBounds(nb: nat, d: nat) returns (lo: nat, mid: nat, hi: nat)
    requires nb > 0
    ensures lo == (nb - 1) * (2 * d) && mid == lo + d && hi == mid + d && hi == nb * (2 * d)
  {
    var q, w := nb - 1, 2 * d;
    MulNonneg(q, w);
    lo := q * w;
    mid, hi := lo + d, lo + d + d;
    assert nb * w == (q + 1) * w == q * w + w;
  }

  /** In block `q` of `2*d` ranks, starting at `lo`, each rank of the lower
      half is in the lower half of its block, so it is paired with the rank
      `d` above it. */
  lemma BlockPairs(a: seq<seq<int>>, b: seq<seq<int>>, d: nat, q: nat, lo: nat)
    requires |a| == |b| && d >= 1 && lo == q * (2 * d) && lo + d + d <= |a|
    requires forall r :: 0 <= r < |a| && r % (2 * d) < d && r + d < |a| ==>
      multiset(b[r]) + multiset(b[r + d]) == multiset(a[r]) + multiset(a[r + d])
    ensures forall r :: lo <= r < lo + d ==> multiset(b[r]) + multiset(b[r + d]) == multiset(a[r]) + multiset(a[r + d])
  {
    forall r | lo <= r < lo + d
      ensures multiset(b[r]) + multiset(b[r + d]) == multiset(a[r]) + multiset(a[r + d])
    {
      DivModUnique(r, 2 * d, q, r - lo);
    }
  }

  /** Equal bags below `lo`, and equal bags over `[lo, mid)` and `[mid, hi)`
      together, give equal bags below `hi`. */
  lemma BagJoin(a: seq<seq<int>>, b: seq<seq<int>>, lo: nat, mid: nat, hi: nat)
    requires |a| == |b| && lo <= mid <= hi <= |a|
    requires Bag(b, 0, lo) == Bag(a, 0, lo)
    requires Bag(b, lo, mid) + Bag(b, mid, hi) == Bag(a, lo, mid) + Bag(a, mid, hi)
    ensures Bag(b, 0, hi) == Bag(a, 0, hi)
  {
    BagSplit(a, lo, mid, hi);
    BagSplit(b, lo, mid, hi);
    var block := Bag(a, lo, hi);
    assert Bag(b, lo, hi) == block;
    BagSplit(a, 0, lo, hi);
    BagSplit(b, 0, lo, hi);
    assert Bag(b, 0, hi) == Bag(a, 0, lo) + block;
  }
}
