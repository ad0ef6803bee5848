/** The multi-dimensional counter shared by the tile iterator and the layout iterator.
    A counter `cur` advances by adding `step[d]` to its last dimension; a dimension that
    reaches its bound is reset to zero and the carry moves one dimension to the left; a
    wrap of dimension 0 signals the end.

    Abstractly the counter is a mixed-radix number: dimension d only ever holds the
    multiples 0, step[d], 2*step[d], ... below bound[d] (just 0 when the bound is 0), so it
    is a digit of radix `Radix(bound[d], step[d])`, and the k-th counter value is the
    mixed-radix expansion of k scaled by the steps. */
module Odometer {
  import opened Nested
  import opened Arith

  /* ---------- the concrete carry ---------- */

  /** The carry loop over dimensions d-1 down to 0: returns the new counter and whether
      dimension 0 wrapped. With d == 0 the counter is unchanged and nothing wraps. */
  function Carry(cur: seq<nat>, step: seq<nat>, bound: seq<nat>, d: nat): (r: (seq<nat>, bool))
    requires d <= |cur| <= |step| && |cur| <= |bound|
    ensures |r.0| == |cur| && r.0[d..] == cur[d..]
    decreases d
  {
    if d == 0 then (cur, false)
    else
      var i := d - 1;
      var v := cur[i] + step[i];
      if v < bound[i] then (cur[i := v], false)
      else if i == 0 then (cur[i := 0], true)
      else
        var r := Carry(cur[i := 0], step, bound, i);
        assert cur[i := 0][i..][1..] == cur[d..];
        assert r.0[i..][1..] == r.0[d..];
        r
  }

  /* ---------- the abstract counter ---------- */

  /** How many positions one dimension takes: the multiples of `step` below `bound`, and a
      single position 0 when the bound is 0. */
  function Radix(bound: nat, step: nat): (r: nat)
    requires step > 0
    ensures r >= 1
  {
    if bound == 0 then 1
    else
      CeilDiv(bound, step);
      (bound + step - 1) / step
  }

  predicate Positive(s: seq<nat>)
  {
    forall k :: 0 <= k < |s| ==> s[k] > 0
  }

  /** The radices of the first n dimensions. */
  function Radii(bound: seq<nat>, step: seq<nat>, n: nat): (r: seq<nat>)
    requires n <= |bound| && n <= |step| && Positive(step)
    ensures |r| == n && Positive(r)
  {
    seq(n, k requires 0 <= k < n => Radix(bound[k], step[k]))
  }

  /** Mixed-radix digits of j, the last dimension least significant (j taken modulo the
      product of the radices). */
  function Digits(r: seq<nat>, j: nat): (ds: seq<nat>)
    requires Positive(r)
    ensures |ds| == |r|
  {
    if r == [] then []
    else
      var n := |r| - 1;
      Digits(r[..n], j / r[n]) + [j % r[n]]
  }

  /** Digits in range for their radices. */
  predicate InRange(r: seq<nat>, ds: seq<nat>)
  {
    |ds| == |r| && forall k :: 0 <= k < |r| ==> ds[k] < r[k]
  }

  /** The mixed-radix number whose digits are ds. */
  function Encode(r: seq<nat>, ds: seq<nat>): nat
    requires |ds| == |r|
  {
    if r == [] then 0
    else
      var n := |r| - 1;
      Encode(r[..n], ds[..n]) * r[n] + ds[n]
  }

  /* ---------- radix facts ---------- */

  /** A multiple x*step lies below a positive bound exactly when x is below the radix. */
  lemma RadixSpec(bound: nat, step: nat, x: nat)
    requires step > 0 && bound > 0
    ensures x < Radix(bound, step) <==> x * step < bound
  {
    var c := Radix(bound, step);
    CeilDiv(bound, step);
    if x < c {
      MulMonotone(x, c - 1, step);
    } else {
      MulMonotone(c, x, step);
    }
  }

  /** Every counter position lies inside the bound: below it, or 0 when the bound is 0. */
  lemma PosInBound(bound: nat, step: nat, x: nat)
    requires step > 0 && x < Radix(bound, step)
    ensures x * step <= bound && (bound > 0 ==> x * step < bound)
  {
    if bound > 0 {
      RadixSpec(bound, step, x);
    }
  }

  /* ---------- digits and encoding ---------- */

  lemma ProductLast(r: seq<nat>)
    requires r != []
    ensures Product(r) == Product(r[..|r| - 1]) * r[|r| - 1]
  {
    var n := |r| - 1;
    assert r == r[..n] + [r[n]];
    ProductAppend(r[..n], [r[n]]);
  }

  /** Every digit is below its radix. */
  lemma {:induction false} DigitsInRange(r: seq<nat>, j: nat)
    requires Positive(r)
    ensures InRange(r, Digits(r, j))
  {
    if r != [] {
      var n := |r| - 1;
      DigitsInRange(r[..n], j / r[n]);
      assert Digits(r, j)[..n] == Digits(r[..n], j / r[n]);
    }
  }

  /** Decoding undoes encoding: in-range digits encode below the product of the radices
      and decode back to themselves. */
  lemma {:induction false} DigitsEncode(r: seq<nat>, ds: seq<nat>)
    requires Positive(r) && |ds| == |r| && forall k :: 0 <= k < |r| ==> ds[k] < r[k]
    ensures Encode(r, ds) < Product(r) && Digits(r, Encode(r, ds)) == ds
  {
    if r != [] {
      var n := |r| - 1;
      var pre, dpre, rn, dn := r[..n], ds[..n], r[n], ds[n];
      DigitsEncode(pre, dpre);
      var e := Encode(pre, dpre);
      var x := e * rn + dn;
      assert Encode(r, ds) == x;
      DivModUnique(x, e, dn, rn);
      assert Digits(r, x) == Digits(pre, x / rn) + [x % rn];
      assert ds == dpre + [dn];
      ProductLast(r);
      StepBelow(e, dn, rn, Product(pre));
    }
  }

  /** Encoding undoes decoding below the product of the radices. */
  lemma {:induction false} EncodeDigits(r: seq<nat>, j: nat)
    requires Positive(r) && j < Product(r)
    ensures Encode(r, Digits(r, j)) == j
  {
    if r != [] {
      var n := |r| - 1;
      var pre, rn := r[..n], r[n];
      ProductLast(r);
      var q, m := j / rn, j % rn;
      DivMod(j, rn);
      assert q < Product(pre) by {
        DivBelow(j, Product(pre), rn);
      }
      var ds := Digits(r, j);
      assert ds == Digits(pre, q) + [m];
      assert ds[..n] == Digits(pre, q) && ds[n] == m;
      EncodeDigits(pre, q);
      assert Encode(r, ds) == Encode(pre, ds[..n]) * rn + ds[n];
    }
  }

  /** Distinct counts below the product give distinct digit lists. */
  lemma DigitsInjective(r: seq<nat>, j: nat, j': nat)
    requires Positive(r) && j < Product(r) && j' < Product(r)
    ensures Digits(r, j) == Digits(r, j') <==> j == j'
  {
    EncodeDigits(r, j);
    EncodeDigits(r, j');
  }

  /** Lexicographic order on equally long lists, first dimension most significant. */
  predicate LexLess(a: seq<nat>, b: seq<nat>)
    requires |a| == |b|
  {
    if a == [] then false
    else
      var n := |a| - 1;
      LexLess(a[..n], b[..n]) || (a[..n] == b[..n] && a[n] < b[n])
  }

  /** Counting up walks the digit lists in increasing lexicographic order. */
  lemma {:induction false} DigitsMonotone(r: seq<nat>, j: nat, j': nat)
    requires Positive(r) && j < j' < Product(r)
    ensures LexLess(Digits(r, j), Digits(r, j'))
  {
    assert r != [];
    var n := |r| - 1;
    var pre, rn := r[..n], r[n];
    var a, b := Digits(r, j), Digits(r, j');
    var q, q' := j / rn, j' / rn;
    DigitsSnoc(r, j);
    DigitsSnoc(r, j');
    QuotientOrder(j, j', rn);
    if q == q' {
      assert a[..n] == b[..n] && a[n] < b[n];
    } else {
      ProductLast(r);
      DivBelow(j', Product(pre), rn);
      DigitsMonotone(pre, q, q');
      assert LexLess(a[..n], b[..n]);
    }
  }

  /** The last digit of j is j modulo the last radix; the others are the digits of the
      quotient over the leading radices. */
  lemma DigitsSnoc(r: seq<nat>, j: nat)
    requires Positive(r) && r != []
    ensures var n := |r| - 1;
      Digits(r, j)[..n] == Digits(r[..n], j / r[n]) && Digits(r, j)[n] == j % r[n]
  {
    var n := |r| - 1;
    assert Digits(r, j) == Digits(r[..n], j / r[n]) + [j % r[n]];
  }

  /* ---------- the carry counts ---------- */

  /** One dimension's step: from position m*s, adding s stays below the bound exactly when
      the digit m + 1 is still below the radix. */
  lemma CarryDigit(m: nat, s: nat, bound: nat)
    requires s > 0 && m < Radix(bound, s)
    ensures (m + 1) * s == m * s + s
    ensures m * s + s < bound <==> m + 1 < Radix(bound, s)
  {
    if bound > 0 {
      RadixSpec(bound, s, m + 1);
    }
  }

  /** Digits multiplied by the steps, dimension by dimension. */
  function Scale(ds: seq<nat>, step: seq<nat>): (p: seq<nat>)
    requires |ds| <= |step|
    ensures |p| == |ds| && forall k :: 0 <= k < |ds| ==> p[k] == ds[k] * step[k]
  {
    seq(|ds|, k requires 0 <= k < |ds| => ds[k] * step[k])
  }

  /** Every digit at its largest value. */
  predicate AllMax(r: seq<nat>, ds: seq<nat>)
    requires |ds| == |r|
  {
    forall k :: 0 <= k < |r| ==> ds[k] + 1 == r[k]
  }

  /** Adds one to a mixed-radix digit list, last digit first, carrying leftwards; the largest
      value wraps to all zeros. */
  function Inc(r: seq<nat>, ds: seq<nat>): (e: seq<nat>)
    requires |ds| == |r|
    ensures |e| == |r|
  {
    if r == [] then []
    else
      var n := |r| - 1;
      if ds[n] + 1 < r[n] then ds[..n] + [ds[n] + 1]
      else Inc(r[..n], ds[..n]) + [0]
  }

  function Zeros(n: nat): (z: seq<nat>)
    ensures |z| == n && forall k :: 0 <= k < n ==> z[k] == 0
  {
    seq(n, k => 0)
  }

  /** The carry loop is Inc on the digits: from the counter whose first d dimensions are the
      scaled digits ds, processing dimensions d-1 down to 0 yields the scaled digits of
      Inc(ds), and signals the end exactly when every digit was at its largest value;
      dimensions from d on are untouched. */
  lemma {:induction false} CarryIsInc(cur: seq<nat>, step: seq<nat>, bound: seq<nat>, d: nat, ds: seq<nat>)
    requires 1 <= d <= |cur| <= |step| && |cur| <= |bound| && Positive(step)
    requires InRange(Radii(bound, step, d), ds) && cur[..d] == Scale(ds, step)
    ensures var c := Carry(cur, step, bound, d); var rs := Radii(bound, step, d);
      (c.1 <==> AllMax(rs, ds)) && c.0[..d] == Scale(Inc(rs, ds), step)
    decreases d
  {
    var i := d - 1;
    var rs := Radii(bound, step, d);
    var rs' := Radii(bound, step, i);
    assert rs[..i] == rs';
    var m := ds[i];
    assert cur[i] == m * step[i];
    CarryDigit(m, step[i], bound[i]);
    var c := Carry(cur, step, bound, d);
    var e := Inc(rs, ds);
    if m + 1 < rs[i] {
      assert e == ds[..i] + [m + 1];
      assert c.0 == cur[i := cur[i] + step[i]];
      assert c.0[..d] == Scale(e, step);
      assert !AllMax(rs, ds);
    } else if i == 0 {
      assert e == [0];
      assert c.0 == cur[0 := 0];
      assert c.0[..d] == Scale(e, step);
    } else {
      var cur' := cur[i := 0];
      assert cur'[..i] == cur[..i];
      assert cur[..i] == Scale(ds[..i], step);
      CarryIsInc(cur', step, bound, i, ds[..i]);
      var c' := Carry(cur', step, bound, i);
      assert c == c';
      assert c.0[i] == 0 by {
        assert c'.0[i..][0] == cur'[i..][0];
      }
      assert e == Inc(rs', ds[..i]) + [0];
      assert c.0[..d] == c.0[..i] + [c.0[i]];
      assert AllMax(rs, ds) <==> AllMax(rs', ds[..i]);
    }
  }

  /** Inc keeps every digit in range. */
  lemma {:induction false} IncInRange(r: seq<nat>, ds: seq<nat>)
    requires Positive(r) && InRange(r, ds)
    ensures InRange(r, Inc(r, ds))
  {
    if r != [] {
      var n := |r| - 1;
      if ds[n] + 1 >= r[n] {
        IncInRange(r[..n], ds[..n]);
      }
    }
  }

  /** Inc adds one to the encoded value, wrapping from the largest value to zero. */
  lemma {:induction false} EncodeInc(r: seq<nat>, ds: seq<nat>)
    requires Positive(r) && InRange(r, ds)
    ensures AllMax(r, ds) ==> Encode(r, ds) + 1 == Product(r) && Inc(r, ds) == Zeros(|r|)
    ensures !AllMax(r, ds) ==> Encode(r, Inc(r, ds)) == Encode(r, ds) + 1
  {
    if r != [] {
      var n := |r| - 1;
      var pre, dpre, rn, dn := r[..n], ds[..n], r[n], ds[n];
      var e := Inc(r, ds);
      var E := Encode(pre, dpre);
      assert Encode(r, ds) == E * rn + dn;
      if dn + 1 < rn {
        assert e == dpre + [dn + 1];
        assert e[..n] == dpre;
        assert !AllMax(r, ds);
      } else {
        EncodeInc(pre, dpre);
        assert e == Inc(pre, dpre) + [0];
        assert e[..n] == Inc(pre, dpre);
        assert AllMax(r, ds) <==> AllMax(pre, dpre);
        WrapArith(E, dn, rn);
        if AllMax(pre, dpre) {
          ProductLast(r);
          assert e == Zeros(|r|);
        } else {
          assert Encode(r, e) == Encode(pre, Inc(pre, dpre)) * rn;
        }
      }
    }
  }

  /** Zero digits encode zero. */
  lemma {:induction false} EncodeZeros(r: seq<nat>)
    ensures Encode(r, Zeros(|r|)) == 0
  {
    if r != [] {
      var n := |r| - 1;
      assert Zeros(|r|)[..n] == Zeros(n);
      EncodeZeros(r[..n]);
    }
  }

  /** A counter with positive radices has at least one position. */
  lemma ProductPositive(r: seq<nat>)
    requires Positive(r)
    ensures Product(r) >= 1
  {
    EncodeZeros(r);
    DigitsEncode(r, Zeros(|r|));
  }

  /** A list of naturals with a positive product has no zero entry. */
  lemma {:induction false} ProductMeansPositive(r: seq<nat>)
    requires Product(r) > 0
    ensures Positive(r)
  {
    if r != [] {
      assert Product(r) == r[0] * Product(r[1..]);
      ProductMeansPositive(r[1..]);
      assert r == [r[0]] + r[1..];
    }
  }

  /** Count 0 is the all-zero digit list. */
  lemma DigitsZero(r: seq<nat>)
    requires Positive(r)
    ensures Digits(r, 0) == Zeros(|r|)
  {
    EncodeZeros(r);
    DigitsEncode(r, Zeros(|r|));
  }

  /** The counter over n dimensions, at the scaled digits of count j, steps to the scaled
      digits of j + 1; after the last count it wraps to all zeros and signals the end. */
  lemma CounterStep(step: seq<nat>, bound: seq<nat>, n: nat, j: nat)
    requires 1 <= n <= |step| && n <= |bound| && Positive(step)
    requires j < Product(Radii(bound, step, n))
    ensures var rs := Radii(bound, step, n); var p := Product(rs);
      var c := Carry(Scale(Digits(rs, j), step), step, bound, n);
      (c.1 <==> j + 1 == p) &&
      c.0 == (if j + 1 < p then Scale(Digits(rs, j + 1), step) else Zeros(n))
  {
    var rs := Radii(bound, step, n);
    var ds := Digits(rs, j);
    var cur := Scale(ds, step);
    DigitsInRange(rs, j);
    assert cur[..n] == cur;
    CarryIsInc(cur, step, bound, n, ds);
    var c := Carry(cur, step, bound, n);
    assert c.0 == c.0[..n];
    NextDigits(rs, j);
    if AllMax(rs, ds) {
      assert c.0 == Scale(Zeros(n), step) == Zeros(n);
    } else {
      assert c.0 == Scale(Digits(rs, j + 1), step);
    }
  }

  /** The digits of j + 1 are Inc of the digits of j, except after the last count, where
      every digit is at its largest value and Inc wraps to zeros. */
  lemma NextDigits(r: seq<nat>, j: nat)
    requires Positive(r) && j < Product(r)
    ensures var ds := Digits(r, j);
      (AllMax(r, ds) <==> j + 1 == Product(r)) &&
      (AllMax(r, ds) ==> Inc(r, ds) == Zeros(|r|)) &&
      (!AllMax(r, ds) ==> Inc(r, ds) == Digits(r, j + 1))
  {
    var ds := Digits(r, j);
    DigitsInRange(r, j);
    EncodeDigits(r, j);
    EncodeInc(r, ds);
    if !AllMax(r, ds) {
      var e := Inc(r, ds);
      IncInRange(r, ds);
      assert Encode(r, e) == j + 1;
      DigitsEncode(r, e);
    }
  }

  /** With no dimensions the carry loop does nothing, so a counter over zero dimensions
      never signals the end. */
  lemma NoDimensionsNeverEnd(cur: seq<nat>, step: seq<nat>, bound: seq<nat>)
    requires |cur| <= |step| && |cur| <= |bound|
    ensures Carry(cur, step, bound, 0) == (cur, false)
  {
  }
}
