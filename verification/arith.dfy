/** Facts about natural-number division and multiplication that the offset proofs rely on. */
module Arith {

  lemma MulMonotone(a: nat, b: nat, p: nat)
    requires a <= b
    ensures a * p <= b * p
  {
  }

  /** Euclidean division is unique: if x = a*p + b with b < p, then a and b are x's quotient and remainder. */
  lemma DivModUnique(x: nat, a: nat, b: nat, p: nat)
    requires 0 <= b < p && x == a * p + b
    ensures x / p == a && x % p == b
  {
    var q, r := x / p, x % p;
    assert x == q * p + r;
    if q < a {
      MulMonotone(q + 1, a, p);
    } else if q > a {
      MulMonotone(a + 1, q, p);
    }
  }

  /** The quotient is below `a` when the dividend is below a*p. */
  lemma DivBelow(x: nat, a: nat, p: nat)
    requires p > 0 && x < a * p
    ensures 0 <= x / p < a
  {
    if x / p >= a {
      MulMonotone(a, x / p, p);
    }
  }

  /** The quotient reaches `a` when the dividend reaches a*p. */
  lemma DivAtLeast(x: nat, a: nat, p: nat)
    requires p > 0 && a * p <= x
    ensures x / p >= a
  {
    if x / p < a {
      MulMonotone(x / p + 1, a, p);
    }
  }

  lemma SubDivIsMod(x: nat, p: nat)
    requires p > 0
    ensures 0 <= x / p && (x / p) * p <= x && x - (x / p) * p == x % p
  {
  }

  /** Rounded-up quotient of f by s: how many steps of length s start inside [0, f). */
  lemma CeilDiv(f: nat, s: nat)
    requires f > 0 && s > 0
    ensures ((f + s - 1) / s) * s >= f
    ensures ((f + s - 1) / s - 1) * s < f
    ensures (f + s - 1) / s >= 1
  {
    var c := (f + s - 1) / s;
    assert f + s - 1 == c * s + (f + s - 1) % s;
    assert (c - 1) * s == c * s - s;
  }

  /** One more digit stays below the next place value: q*p + m < b*p when q < b and m < p. */
  lemma StepBelow(q: nat, m: nat, p: nat, b: nat)
    requires q < b && m < p
    ensures q * p + m < b * p
  {
    MulMonotone(q + 1, b, p);
  }

  lemma DivMod(x: nat, p: nat)
    requires p > 0
    ensures 0 <= x / p && x == (x / p) * p + x % p && x % p < p
  {
  }

  /** Division by a positive number is monotone, and equal quotients order the remainders. */
  lemma QuotientOrder(x: nat, y: nat, p: nat)
    requires x < y && p > 0
    ensures 0 <= x / p <= y / p && (x / p == y / p ==> x % p < y % p)
  {
    DivMod(x, p);
    DivMod(y, p);
    if x / p > y / p {
      StepBelow(y / p, y % p, p, x / p);
    }
  }

  /** Adding one to x = q*r + m (m < r) below b*r: either the remainder grows, or it wraps to
      zero and the quotient grows, staying below b*r exactly when the quotient stays below b. */
  lemma CarryArith(x: nat, r: nat, b: nat)
    requires r > 0 && x < b * r
    ensures x / r < b && x % r < r
    ensures b == 1 ==> x / r == 0
    ensures x % r + 1 < r ==> (x + 1) / r == x / r && (x + 1) % r == x % r + 1 && x + 1 < b * r
    ensures x % r + 1 == r ==> (x + 1) / r == x / r + 1 && (x + 1) % r == 0 && (x + 1 < b * r <==> x / r + 1 < b)
  {
    var q, m := x / r, x % r;
    DivMod(x, r);
    DivBelow(x, b, r);
    if m + 1 < r {
      DivModUnique(x + 1, q, m + 1, r);
      StepBelow(q, m + 1, r, b);
    } else if m + 1 == r {
      assert x + 1 == (q + 1) * r;
      DivModUnique(x + 1, q + 1, 0, r);
      if q + 1 < b {
        MulMonotone(q + 2, b, r);
      } else {
        MulMonotone(b, q + 1, r);
      }
    }
  }

  /** A last digit at its largest value carries: e*r + (r - 1) + 1 == (e + 1)*r. */
  lemma WrapArith(e: nat, d: nat, r: nat)
    requires d + 1 == r
    ensures e * r + d + 1 == (e + 1) * r
  {
  }

  /** Row-major offsets of a shifted two-dimensional coordinate split into the shift's offset
      plus the coordinate's own offset. */
  lemma ShiftOffset(s0: nat, s1: nat, i: nat, j: nat, n: nat)
    ensures (s0 + i) * n + (s1 + j) == (s0 * n + s1) + (i * n + j)
  {
    assert (s0 + i) * n == s0 * n + i * n;
  }

  /** (r, c) inside an m x n matrix has row-major index r*n + c below m*n, and division by
      n recovers r and c. */
  lemma MatrixIndex(r: nat, c: nat, m: nat, n: nat)
    requires r < m && c < n
    ensures r * n + c < m * n && (r * n + c) / n == r && (r * n + c) % n == c
  {
    StepBelow(r, c, n, m);
    DivModUnique(r * n + c, r, c, n);
  }

  /** A digit below the whole-tile count s / t gives a multiple of t whose tile of length t
      ends inside s; dividing the multiple by t recovers the digit. */
  lemma MultipleFits(dg: nat, t: nat, s: nat)
    requires t > 0 && dg < s / t
    ensures dg * t + t <= s && (dg * t) % t == 0 && (dg * t) / t == dg
  {
    DivModUnique(dg * t, dg, 0, t);
    MulMonotone(dg + 1, s / t, t);
    DivMod(s, t);
  }

  /** Multiplying a mixed-radix prefix by the next radix distributes over its two parts. */
  lemma ShiftPlace(i: nat, p: nat, e: nat, b: nat, c: nat)
    ensures (i * p + e) * b + c == i * (p * b) + (e * b + c)
  {
    assert (i * p + e) * b == i * p * b + e * b;
  }

  /** The block after i blocks of p starts at i*p and ends at (i+1)*p. */
  lemma NextBlock(i: nat, p: nat, a: nat)
    requires i < a
    ensures (i + 1) * p == i * p + p && (i + 1) * p <= a * p
  {
    MulMonotone(i + 1, a, p);
  }
}
