/**
 * The percentages the study screen shows: the progress bar (a plain ratio)
 * and the two scores (a ratio passed through Math.round). The source works
 * in floating point; here a ratio of naturals is computed exactly and
 * Math.round of a non-negative value x is floor(x + 1/2).
 */
module Percent {

  /**
   * `num` as a percentage of `den`, rounded half up; 0 when `den` is 0
   * (the `den > 0 ? Math.round(num / den * 100) : 0` pattern).
   */
  function RoundedPercent(num: nat, den: nat): (r: nat)
    ensures den == 0 ==> r == 0
    ensures num <= den ==> r <= 100
    ensures 0 < num == den ==> r == 100
  {
    if den == 0 then 0
    else
      var r := (200 * num + den) / (2 * den);
      assert num <= den ==> r <= 100 by {
        if num <= den {
          RoundingBounds(200 * num + den, 2 * den, r);
          assert r * (2 * den) == 2 * r * den;
          RoundedCap(num, den, r);
        }
      }
      assert num == den ==> r == 100 by {
        if num == den { DivExact(200 * num + den, 2 * den, 100, den); }
      }
      r
  }

  /**
   * The rounded percentage is the integer nearest to 100 num / den, ties
   * going up: twice its product with den is within den of 200 num.
   */
  lemma RoundedBounds(num: nat, den: nat)
    requires den > 0
    ensures var r := RoundedPercent(num, den);
      200 * num - den < 2 * r * den <= 200 * num + den
  {
    var r := (200 * num + den) / (2 * den);
    RoundingBounds(200 * num + den, 2 * den, r);
    assert r * (2 * den) == 2 * r * den;
  }

  /** With num <= den, a rounded percentage bounded as above is at most 100. */
  lemma RoundedCap(num: nat, den: nat, r: nat)
    requires den > 0 && num <= den && 2 * r * den <= 200 * num + den
    ensures r <= 100
  {
    assert (2 * r) * den < 202 * den;
    MulLess(2 * r, 202, den);
  }

  /**
   * The progress bar: `known` as a percentage of `total`, truncated to an
   * integer, and 0 when there are no cards.
   */
  function Progress(known: nat, total: nat): (r: nat)
    ensures total == 0 ==> r == 0
    ensures known <= total ==> r <= 100
    ensures known < total ==> r < 100
    ensures 0 < total == known ==> r == 100
  {
    if total == 0 then 0
    else
      var r := 100 * known / total;
      assert known < total ==> r < 100 by {
        if known < total {
          RoundingBounds(100 * known, total, r);
          assert r * total < 100 * total;
          MulLess(r, 100, total);
        }
      }
      assert known == total ==> r == 100 by {
        if known == total { DivExact(100 * known, total, 100, 0); }
      }
      r
  }

  /** The progress bar is 100 known / total rounded down. */
  lemma ProgressBounds(known: nat, total: nat)
    requires total > 0
    ensures var r := Progress(known, total);
      r * total <= 100 * known < (r + 1) * total
  {
    var r := 100 * known / total;
    RoundingBounds(100 * known, total, r);
    assert (r + 1) * total == r * total + total;
  }

  /** More known cards never shrink the progress bar. */
  lemma ProgressMonotonic(k1: nat, k2: nat, total: nat)
    requires k1 <= k2
    ensures Progress(k1, total) <= Progress(k2, total)
  {
    if total > 0 { DivMonotone(100 * k1, 100 * k2, total); }
  }

  /** Euclidean division of x by d > 0, written as bounds on the product. */
  lemma RoundingBounds(x: nat, d: nat, q: nat)
    requires d > 0 && q == x / d
    ensures q * d <= x < q * d + d
  {
  }

  /** A quotient is fixed by a product and a remainder below the divisor. */
  lemma DivExact(x: nat, d: nat, q: nat, m: nat)
    requires d > 0 && m < d && x == q * d + m
    ensures x / d == q
  {
    var q' := x / d;
    RoundingBounds(x, d, q');
    assert q' * d < (q + 1) * d;
    MulLess(q', q + 1, d);
    assert q * d < (q' + 1) * d;
    MulLess(q, q' + 1, d);
  }

  /** Multiplying by a positive factor keeps a strict order: it can be cancelled. */
  lemma MulLess(a: int, b: int, d: int)
    requires d > 0 && a * d < b * d
    ensures a < b
  {
    assert (b - a) * d == b * d - a * d;
  }

  /** Division by a positive constant is monotone. */
  lemma DivMonotone(x: nat, y: nat, d: nat)
    requires x <= y && d > 0
    ensures x / d <= y / d
  {
    var qx, qy := x / d, y / d;
    RoundingBounds(x, d, qx);
    RoundingBounds(y, d, qy);
    assert qx * d < (qy + 1) * d;
    MulLess(qx, qy + 1, d);
  }
}
