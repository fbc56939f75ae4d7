/** Integer facts the index computations of the sorting engines rest on:
    Euclidean division, powers of two and of ten. All operands here are
    non-negative, where C's truncating `/` and `%` agree with Dafny's. */
module Arith {

  lemma MulNonneg(a: int, b: int)
    requires a >= 0 && b >= 0
    ensures a * b >= 0
  {
  }

  lemma DivModUnique(x: int, m: int, q: int, r: int)
    requires m > 0 && 0 <= r < m && x == q * m + r
    ensures x / m == q && x % m == r
  {
    var q0, r0 := x / m, x % m;
    assert x == q0 * m + r0;
    assert (q - q0) * m == r0 - r;
    if q > q0 {
      MulNonneg(q - q0 - 1, m);
      assert false;
    }
    if q < q0 {
      MulNonneg(q0 - q - 1, m);
      assert false;
    }
  }

  lemma ModSmall(x: int, m: int)
    requires 0 <= x < m
    ensures x % m == x && x / m == 0
  {
    DivModUnique(x, m, 0, x);
  }

  /** Shifting by a whole period leaves the remainder alone. */
  lemma ModShift(x: int, m: int)
    requires m > 0
    ensures (x + m) % m == x % m && (x + m) / m == x / m + 1
  {
    DivModUnique(x + m, m, x / m + 1, x % m);
  }

  /** Past a multiple of `m`, the remainder counts up from 0. */
  lemma ModAfterMultiple(x: int, m: int, t: int)
    requires m > 0 && x % m == 0 && 0 <= t < m
    ensures (x + t) % m == t
  {
    DivModUnique(x + t, m, x / m, t);
  }

  lemma DivMono(a: int, b: int, c: int)
    requires 0 <= a <= b && c > 0
    ensures a / c <= b / c
  {
    if a / c > b / c {
      assert a == (a / c) * c + a % c;
      assert b == (b / c) * c + b % c;
      MulNonneg(a / c - b / c - 1, c);
      assert false;
    }
  }

  /** `a * n / b < n` when `a < b`: an equally spaced sample index stays in range. */
  lemma MulDivLess(a: int, b: int, n: int)
    requires 0 <= a < b && n >= 1
    ensures 0 <= a * n / b < n
  {
    MulNonneg(a, n);
    MulNonneg(b - a - 1, n);
    assert a * n <= b * n - n by {
      assert b * n - n - a * n == (b - a - 1) * n;
    }
    if a * n / b >= n {
      var q := a * n / b;
      assert a * n == q * b + (a * n) % b;
      MulNonneg(q - n, b);
      assert false;
    }
  }

  lemma MulMono(a: int, b: int, n: int)
    requires a <= b && n >= 0
    ensures a * n <= b * n
  {
    MulNonneg(b - a, n);
    assert b * n - a * n == (b - a) * n;
  }

  /** A positive quotient means the dividend reaches the divisor. */
  lemma DivPositive(x: int, e: int)
    requires e >= 1 && x / e > 0
    ensures x >= e
  {
    assert x == (x / e) * e + x % e;
    MulMono(1, x / e, e);
  }

  /** Dividing twice is dividing by the product. */
  lemma DivDiv(x: int, a: int, b: int)
    requires x >= 0 && a > 0 && b > 0
    ensures x / a / b == x / (a * b)
  {
    var q1, r1 := x / a, x % a;
    var q2, r2 := q1 / b, q1 % b;
    assert x == q1 * a + r1;
    assert q1 == q2 * b + r2;
    MulExpand(q2, b, r2, a);
    RemainderBound(r1, r2, a, b);
    DivModUnique(x, a * b, q2, r2 * a + r1);
  }

  lemma MulExpand(q: int, b: int, r: int, a: int)
    ensures (q * b + r) * a == q * (a * b) + r * a
  {
  }

  /** A remainder modulo `b`, scaled by `a`, plus a remainder modulo `a` stays below `a * b`. */
  lemma RemainderBound(r1: int, r2: int, a: int, b: int)
    requires 0 <= r1 < a && 0 <= r2 < b
    ensures 0 <= r2 * a + r1 < a * b
  {
    MulMono(r2, b - 1, a);
    assert (b - 1) * a == a * b - a;
    MulNonneg(r2, a);
  }

  /** The remainder modulo `10 * e` splits into the decimal digit at `e` and the remainder modulo `e`. */
  lemma ModTenSplit(x: int, e: int)
    requires x >= 0 && e > 0
    ensures x % (10 * e) == ((x / e) % 10) * e + x % e
  {
    var q, r := x / e, x % e;
    var q2, d := q / 10, q % 10;
    assert x == q * e + r;
    assert q == q2 * 10 + d;
    MulExpand(q2, 10, d, e);
    assert x == q2 * (10 * e) + (d * e + r);
    MulMono(d, 9, e);
    MulNonneg(d, e);
    DivModUnique(x, 10 * e, q2, d * e + r);
  }

  // ---------------------------------------------------------- powers

  function Pow2(e: nat): (r: nat)
    ensures r >= 1
  {
    if e == 0 then 1 else 2 * Pow2(e - 1)
  }

  function Pow10(e: nat): (r: nat)
    ensures r >= 1
  {
    if e == 0 then 1 else 10 * Pow10(e - 1)
  }

  lemma {:induction false} Pow2Mono(a: nat, b: nat)
    requires a <= b
    ensures Pow2(a) <= Pow2(b)
    decreases b
  {
    if a < b {
      Pow2Mono(a, b - 1);
    }
  }

  lemma {:induction false} Pow2Add(a: nat, b: nat)
    ensures Pow2(a + b) == Pow2(a) * Pow2(b)
    decreases a
  {
    if a > 0 {
      Pow2Add(a - 1, b);
      assert Pow2(a + b) == 2 * Pow2(a - 1 + b);
    }
  }

  /** A remainder never exceeds a non-negative dividend. */
  lemma ModBelow(p: int, m: int)
    requires p >= 0 && m > 0
    ensures p % m <= p
  {
    if p < m {
      ModSmall(p, m);
    } else {
      MulMono(1, p / m, m);
    }
  }

  /** Adding half the period `h` to `a` moves its remainder modulo `2*h` by
      `h` either way, and the remainder modulo `h` is that remainder folded. */
  lemma ModHalf(a: int, h: int)
    requires h >= 1
    ensures var x := a % (2 * h);
      (a + h) % (2 * h) == (if x < h then x + h else x - h) &&
      a % h == (if x < h then x else x - h)
  {
    var q, x := a / (2 * h), a % (2 * h);
    assert a == q * (2 * h) + x;
    assert q * (2 * h) == (2 * q) * h;
    if x < h {
      DivModUnique(a + h, 2 * h, q, x + h);
      DivModUnique(a, h, 2 * q, x);
    } else {
      assert a + h == (q + 1) * (2 * h) + (x - h);
      DivModUnique(a + h, 2 * h, q + 1, x - h);
      assert a == (2 * q + 1) * h + (x - h);
      DivModUnique(a, h, 2 * q + 1, x - h);
    }
  }

  /** Stepping back by `m <= n` on a ring of `n` positions. */
  lemma ModBack(a: int, m: int, n: int)
    requires 0 <= m <= n && n >= 1
    ensures (a - m) % n == if a % n >= m then a % n - m else a % n - m + n
  {
    var q, x := a / n, a % n;
    assert a == q * n + x;
    if x >= m {
      DivModUnique(a - m, n, q, x - m);
    } else {
      assert a - m == (q - 1) * n + (x - m + n);
      DivModUnique(a - m, n, q - 1, x - m + n);
    }
  }

  /** Subtracting whole periods leaves the remainder alone. */
  lemma ModMinusMultiple(p: int, q: int, m: int)
    requires m > 0
    ensures (p - q * m) % m == p % m
  {
    assert p - q * m == (p / m - q) * m + p % m by {
      assert p == (p / m) * m + p % m;
      assert (p / m - q) * m == (p / m) * m - q * m;
    }
    DivModUnique(p - q * m, m, p / m - q, p % m);
  }

  /** In a range made of whole blocks of `2*s`, a cell in the first half of
      its block has its partner `s` cells further on inside the range. */
  lemma PairFits(p: int, s: int, n: int)
    requires s >= 1 && n % (2 * s) == 0 && 0 <= p < n && p % (2 * s) < s
    ensures p + s < n
  {
    var q, r := p / (2 * s), p % (2 * s);
    var Q := n / (2 * s);
    assert p == q * (2 * s) + r;
    assert n == Q * (2 * s);
    if q >= Q {
      MulMono(Q, q, 2 * s);
      assert false;
    }
    MulMono(q, Q - 1, 2 * s);
    assert (Q - 1) * (2 * s) == n - 2 * s;
  }

  /** A multiple of `2*m` is a multiple of `m`. */
  lemma ModHalvePeriod(n: int, m: int)
    requires m >= 1 && n % (2 * m) == 0
    ensures n % m == 0
  {
    var q := n / (2 * m);
    assert n == q * (2 * m);
    assert n == (2 * q) * m;
    DivModUnique(n, m, 2 * q, 0);
  }

  // ------------------------------------------------------------ bits

  /** Bit `j` of `a`, as `(a >> j) & 1` reads it. */
  function Bit(a: nat, j: nat): (b: nat) {
    (a / Pow2(j)) % 2
  }

  /** `a >> j` on a non-negative integer. */
  function Shr(a: nat, j: nat): (r: nat)
    ensures r * Pow2(j) <= a < (r + 1) * Pow2(j)
  {
    var p := Pow2(j);
    DivBounds(a, p);
    a / p
  }

  lemma DivBounds(a: nat, p: int)
    requires p >= 1
    ensures 0 <= a / p && (a / p) * p <= a < (a / p + 1) * p
  {
  }

  /** Among `h` blocks of `2 * p`, a number in the lower half of its block
      still has `p` above it inside the blocks. */
  lemma BlockBelow(rank: nat, p: nat, h: nat)
    requires p >= 1 && rank < h * (2 * p) && (rank / p) % 2 == 0
    ensures rank + p < h * (2 * p)
  {
    var w := 2 * p;
    var q, t := rank / p, rank % p;
    var b := q / 2;
    assert rank == b * w + t by {
      assert rank == q * p + t && q == 2 * b;
      assert q * p == b * w;
    }
    if b >= h {
      MulMono(h, b, w);
      assert false;
    }
    MulMono(b + 1, h, w);
    assert (b + 1) * w == b * w + w;
  }

  /** `2^logp` ranks split into `nb` blocks of `2 * 2^j`. */
  lemma BlockSplit(logp: nat, j: nat) returns (d: nat, nb: nat)
    requires j < logp
    ensures d == Pow2(j) && nb * (2 * d) == Pow2(logp)
  {
    d, nb := Pow2(j), Pow2(logp - j - 1);
    Pow2Add(logp - j - 1, j + 1);
    assert Pow2(j + 1) == 2 * d;
  }

  /** A number in the lower half of its block of `2^(j+1)` has bit `j` clear. */
  lemma LowerHalfBit(r: nat, j: nat)
    requires r % (2 * Pow2(j)) < Pow2(j)
    ensures Bit(r, j) == 0
  {
    var d := Pow2(j);
    var q, m := r / (2 * d), r % (2 * d);
    assert r == q * (2 * d) + m;
    assert q * (2 * d) == (2 * q) * d;
    DivModUnique(r, d, 2 * q, m);
    assert r / d == 2 * q;
  }

  /** `a ^ b` on non-negative integers, one bit at a time from the lowest. */
  function Xor(a: nat, b: nat): (x: nat)
    decreases a + b
  {
    if a == 0 && b == 0 then 0 else 2 * Xor(a / 2, b / 2) + (a % 2 + b % 2) % 2
  }

  /** `a & b` on non-negative integers, one bit at a time from the lowest. */
  function BitAnd(a: nat, b: nat): (c: nat)
    decreases a + b
  {
    if a == 0 || b == 0 then 0 else 2 * BitAnd(a / 2, b / 2) + (a % 2) * (b % 2)
  }

  lemma {:induction false} XorZero(a: nat)
    ensures Xor(a, 0) == a
    decreases a
  {
    if a != 0 {
      XorZero(a / 2);
    }
  }

  /** Exclusive or with the single bit `1 << j` flips bit `j`. */
  lemma {:induction false} XorPow2(a: nat, j: nat)
    ensures Xor(a, Pow2(j)) == if Bit(a, j) == 0 then a + Pow2(j) else a - Pow2(j)
    decreases j
  {
    var p := Pow2(j);
    if j == 0 {
      XorZero(a / 2);
      assert Xor(a, 1) == 2 * Xor(a / 2, 0) + (a % 2 + 1) % 2;
      assert a == 2 * (a / 2) + a % 2;
      assert Bit(a, 0) == a % 2;
    } else {
      var i := j - 1;
      XorPow2(a / 2, i);
      XorPow2Step(a, i, j);
    }
  }

  /** Bit `j` of `a` is bit `j - 1` of `a / 2`. */
  lemma BitShift(a: nat, i: nat, j: nat)
    requires j == i + 1
    ensures Bit(a / 2, i) == Bit(a, j)
  {
    Pow2Even(i, j);
    DivDiv(a, 2, Pow2(i));
  }

  /** `a ^ p` for an even `p >= 2`: the lowest bit of `a` passes through. */
  lemma XorUnfold(a: nat, p: nat, half: nat)
    requires p >= 2 && p % 2 == 0 && p / 2 == half
    ensures Xor(a, p) == 2 * Xor(a / 2, half) + a % 2
  {
    assert Xor(a, p) == 2 * Xor(a / 2, p / 2) + (a % 2 + p % 2) % 2;
  }

  lemma Pow2Even(i: nat, j: nat)
    requires j == i + 1
    ensures Pow2(j) == 2 * Pow2(i) && Pow2(j) / 2 == Pow2(i) && Pow2(j) % 2 == 0
  {
  }

  /** The step of `XorPow2`: bit `j` of `a` is bit `j - 1` of `a / 2`, and the
      lowest bit passes through. */
  lemma XorPow2Step(a: nat, i: nat, j: nat)
    requires j == i + 1
    requires Xor(a / 2, Pow2(i)) == if Bit(a / 2, i) == 0 then a / 2 + Pow2(i) else a / 2 - Pow2(i)
    ensures Xor(a, Pow2(j)) == if Bit(a, j) == 0 then a + Pow2(j) else a - Pow2(j)
  {
    var p, p' := Pow2(j), Pow2(i);
    Pow2Even(i, j);
    BitShift(a, i, j);
    XorUnfold(a, p, p');
    var x := Xor(a / 2, p');
    assert a == 2 * (a / 2) + a % 2;
    if Bit(a, j) == 0 {
      assert x == a / 2 + p';
    } else {
      assert x == a / 2 - p';
    }
  }

  /** `x & 1` is the lowest bit. */
  lemma BitAndOne(x: nat)
    ensures BitAnd(x, 1) == x % 2
  {
    if x != 0 {
      assert BitAnd(x / 2, 0) == 0;
    }
  }

  lemma {:induction false} BitAndSelf(a: nat)
    ensures BitAnd(a, a) == a
    decreases a
  {
    if a != 0 {
      BitAndSelf(a / 2);
    }
  }

  /** The powers of two, recognised by halving. */
  predicate IsPow2(n: nat)
    decreases n
  {
    n == 1 || (n >= 2 && n % 2 == 0 && IsPow2(n / 2))
  }

  /** `floor(log2 n)` for `n >= 1`. */
  function Log2(n: nat): (e: nat)
    decreases n
  {
    if n <= 1 then 0 else 1 + Log2(n / 2)
  }

  /** A power of two is two to its logarithm, and every `2^e` is a power of two. */
  lemma {:induction false} Log2OfPow2(n: nat)
    requires IsPow2(n)
    ensures Pow2(Log2(n)) == n
    decreases n
  {
    if n != 1 {
      Log2OfPow2(n / 2);
    }
  }

  lemma {:induction false} Pow2IsPow2(e: nat)
    ensures IsPow2(Pow2(e)) && Log2(Pow2(e)) == e
    decreases e
  {
    if e > 0 {
      Pow2IsPow2(e - 1);
      assert Pow2(e) / 2 == Pow2(e - 1);
    }
  }

  /** `(n & (n-1)) == 0` holds for `n >= 1` exactly when `n` is a power of two. */
  lemma {:induction false} PowerOfTwoTest(n: nat)
    requires n >= 1
    ensures BitAnd(n, n - 1) == 0 <==> IsPow2(n)
    decreases n
  {
    if n >= 2 {
      if n % 2 == 0 {
        PowerOfTwoTest(n / 2);
        assert (n - 1) / 2 == n / 2 - 1 && (n - 1) % 2 == 1;
      } else {
        BitAndSelf(n / 2);
        assert (n - 1) / 2 == n / 2 && (n - 1) % 2 == 0;
      }
    }
  }
}
