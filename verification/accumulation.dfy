/** Horizon decomposition and the accumulation factor of
    `TreasuryBillAnalytics`: how many whole rolls of a tenor fit in the
    horizon, what stub is left, and the growth of one unit rolled at a
    constant coupon-equivalent yield over those rolls plus the stub. Yields
    are exact reals here. */
module Accumulation {

  /** A horizon cut into whole rolls of one tenor and the days left over. */
  datatype Rolls = Rolls(full: int, stub: int)

  /** `_decompose_horizon_into_full_rolls_and_stub`: Python's `//` floors,
      which for a positive tenor is Dafny's `/`. */
  function Decompose(horizonDays: int, tenorDays: int): (d: Rolls)
    requires tenorDays > 0
    ensures d.full * tenorDays + d.stub == horizonDays
    ensures 0 <= d.stub < tenorDays
    ensures d.full >= 0 <==> horizonDays >= 0
    ensures horizonDays >= 0 ==> (d.full == 0 <==> tenorDays > horizonDays)
  {
    var full := horizonDays / tenorDays;
    Rolls(full, horizonDays - full * tenorDays)
  }

  /** Whole rolls and stub are the only such split: any other way of
      writing the horizon as rolls plus a stub shorter than one tenor is the
      decomposition. */
  lemma {:induction false} DecomposeUnique(horizonDays: int, tenorDays: int, full: int, stub: int)
    requires tenorDays > 0
    requires full * tenorDays + stub == horizonDays && 0 <= stub < tenorDays
    ensures Decompose(horizonDays, tenorDays) == Rolls(full, stub)
  {
    var d := Decompose(horizonDays, tenorDays);
    var diff := full - d.full;
    assert diff * tenorDays == d.stub - stub;
    MultipleBounds(diff, tenorDays);
  }

  lemma MultipleBounds(q: int, t: int)
    requires t > 0
    ensures q >= 1 ==> q * t >= t
    ensures q <= -1 ==> q * t <= -t
  {
  }

  function Pow(x: real, n: nat): real {
    if n == 0 then 1.0 else x * Pow(x, n - 1)
  }

  lemma {:induction false} PowOfOne(n: nat)
    ensures Pow(1.0, n) == 1.0
  {
    if n > 0 { PowOfOne(n - 1); }
  }

  lemma {:induction false} PowPositive(x: real, n: nat)
    requires x > 0.0
    ensures Pow(x, n) > 0.0
  {
    if n > 0 { PowPositive(x, n - 1); }
  }

  lemma {:induction false} PowAtLeastOne(x: real, n: nat)
    requires x >= 1.0
    ensures Pow(x, n) >= 1.0
  {
    if n > 0 {
      PowAtLeastOne(x, n - 1);
      var p := Pow(x, n - 1);
      assert x * p - p == (x - 1.0) * p >= 0.0;
    }
  }

  lemma {:induction false} PowStrictlyIncreasing(a: real, b: real, n: nat)
    requires 0.0 < a < b && n >= 1
    ensures 0.0 < Pow(a, n) < Pow(b, n)
  {
    if n == 1 {
      assert Pow(a, 1) == a * Pow(a, 0) == a;
      assert Pow(b, 1) == b * Pow(b, 0) == b;
    } else {
      PowStrictlyIncreasing(a, b, n - 1);
      var pa, pb := Pow(a, n - 1), Pow(b, n - 1);
      assert a * pa < b * pa;
      assert b * pa < b * pb;
    }
  }

  /** Growth over one period of `days` days at yield `y`: `1 + y * days / dc`. */
  function Growth(y: real, days: int, dc: int): real
    requires dc > 0
  {
    1.0 + y * (days as real) / (dc as real)
  }

  lemma QuotientPositive(a: real, b: real, c: real)
    requires a > 0.0 && b > 0.0 && c > 0.0
    ensures a * b / c > 0.0
  {
    assert a * b > 0.0;
  }

  lemma GrowthIncreasing(y1: real, y2: real, days: int, dc: int)
    requires dc > 0 && days >= 0 && y1 <= y2
    ensures Growth(y1, days, dc) <= Growth(y2, days, dc)
    ensures days > 0 && y1 < y2 ==> Growth(y1, days, dc) < Growth(y2, days, dc)
  {
    var dr, dcr := days as real, dc as real;
    assert (y2 - y1) * dr >= 0.0;
    assert y2 * dr / dcr - y1 * dr / dcr == (y2 - y1) * dr / dcr;
    if days > 0 && y1 < y2 {
      QuotientPositive(y2 - y1, dr, dcr);
    }
  }

  /** Positive growth over a period also holds over any shorter period, so
      positive growth over one roll makes the stub's growth positive too. */
  lemma StubGrowthPositive(y: real, tenorDays: int, stubDays: int, dc: int)
    requires dc > 0 && 0 <= stubDays <= tenorDays
    requires Growth(y, tenorDays, dc) > 0.0
    ensures Growth(y, stubDays, dc) > 0.0
  {
    if y < 0.0 {
      assert y * ((tenorDays - stubDays) as real) <= 0.0;
      assert y * (stubDays as real) >= y * (tenorDays as real);
      assert y * (stubDays as real) / (dc as real) >= y * (tenorDays as real) / (dc as real);
    } else {
      assert y * (stubDays as real) >= 0.0;
    }
  }

  /** Feasibility of a yield: positive growth over a full roll and over the stub. */
  predicate Feasible(y: real, tenorDays: int, stubDays: int, dc: int)
    requires dc > 0
  {
    Growth(y, tenorDays, dc) > 0.0 && Growth(y, stubDays, dc) > 0.0
  }

  /** `_sympy_accumulation_factor_constant_cey`:
      `(1 + y*m/dc)^k * (1 + y*r/dc)` with `(k, r)` the decomposition of the
      horizon by the tenor `m`. Without a stub the stub factor is 1. */
  function AccumulationFactor(y: real, tenorDays: int, horizonDays: int, dc: int): (a: real)
    requires tenorDays > 0 && horizonDays >= 0 && dc > 0
    ensures Decompose(horizonDays, tenorDays).stub == 0 ==>
              a == Pow(Growth(y, tenorDays, dc), Decompose(horizonDays, tenorDays).full)
  {
    var d := Decompose(horizonDays, tenorDays);
    Pow(Growth(y, tenorDays, dc), d.full) * Growth(y, d.stub, dc)
  }

  /** At a zero yield nothing accumulates. */
  lemma FactorAtZeroYield(tenorDays: int, horizonDays: int, dc: int)
    requires tenorDays > 0 && horizonDays >= 0 && dc > 0
    ensures AccumulationFactor(0.0, tenorDays, horizonDays, dc) == 1.0
  {
    PowOfOne(Decompose(horizonDays, tenorDays).full);
  }

  /** A non-negative yield never loses money. */
  lemma FactorAtLeastOne(y: real, tenorDays: int, horizonDays: int, dc: int)
    requires tenorDays > 0 && horizonDays >= 0 && dc > 0 && y >= 0.0
    ensures AccumulationFactor(y, tenorDays, horizonDays, dc) >= 1.0
  {
    var d := Decompose(horizonDays, tenorDays);
    GrowthIncreasing(0.0, y, tenorDays, dc);
    GrowthIncreasing(0.0, y, d.stub, dc);
    var g, s := Growth(y, tenorDays, dc), Growth(y, d.stub, dc);
    assert g >= 1.0 && s >= 1.0;
    PowAtLeastOne(g, d.full);
    var p := Pow(g, d.full);
    assert p * s - s == (p - 1.0) * s >= 0.0;
  }

  /** A feasible yield keeps the factor positive. */
  lemma FactorPositive(y: real, tenorDays: int, horizonDays: int, dc: int)
    requires tenorDays > 0 && horizonDays >= 0 && dc > 0
    requires Feasible(y, tenorDays, Decompose(horizonDays, tenorDays).stub, dc)
    ensures AccumulationFactor(y, tenorDays, horizonDays, dc) > 0.0
  {
    var d := Decompose(horizonDays, tenorDays);
    PowPositive(Growth(y, tenorDays, dc), d.full);
  }

  /** Over a non-empty horizon the factor is strictly increasing in the
      yield wherever the yield is feasible. */
  lemma {:induction false} FactorStrictlyIncreasing(y1: real, y2: real, tenorDays: int, horizonDays: int, dc: int)
    requires tenorDays > 0 && horizonDays > 0 && dc > 0 && y1 < y2
    requires Feasible(y1, tenorDays, Decompose(horizonDays, tenorDays).stub, dc)
    ensures Feasible(y2, tenorDays, Decompose(horizonDays, tenorDays).stub, dc)
    ensures AccumulationFactor(y1, tenorDays, horizonDays, dc) < AccumulationFactor(y2, tenorDays, horizonDays, dc)
  {
    var d := Decompose(horizonDays, tenorDays);
    GrowthIncreasing(y1, y2, tenorDays, dc);
    GrowthIncreasing(y1, y2, d.stub, dc);
    var g1, g2 := Growth(y1, tenorDays, dc), Growth(y2, tenorDays, dc);
    var s1, s2 := Growth(y1, d.stub, dc), Growth(y2, d.stub, dc);
    if d.full == 0 {
      assert d.stub == horizonDays && s1 < s2;
      assert AccumulationFactor(y1, tenorDays, horizonDays, dc) == Pow(g1, 0) * s1 == s1;
      assert AccumulationFactor(y2, tenorDays, horizonDays, dc) == Pow(g2, 0) * s2 == s2;
    } else {
      PowStrictlyIncreasing(g1, g2, d.full);
      var p1, p2 := Pow(g1, d.full), Pow(g2, d.full);
      assert 0.0 < p1 < p2 && 0.0 < s1 <= s2;
      ProductStrictlyIncreasing(p1, s1, p2, s2);
      assert AccumulationFactor(y1, tenorDays, horizonDays, dc) == p1 * s1;
      assert AccumulationFactor(y2, tenorDays, horizonDays, dc) == p2 * s2;
    }
  }

  lemma ProductStrictlyIncreasing(p1: real, s1: real, p2: real, s2: real)
    requires 0.0 < p1 < p2 && 0.0 < s1 <= s2
    ensures p1 * s1 < p2 * s2
  {
    var a, b, c := p1 * s1, p1 * s2, p2 * s2;
    assert b - a == p1 * (s2 - s1) >= 0.0;
    assert c - b == (p2 - p1) * s2 > 0.0;
  }

  /** Hence two feasible yields with the same accumulation are equal. */
  lemma FeasibleYieldUnique(y1: real, y2: real, tenorDays: int, horizonDays: int, dc: int)
    requires tenorDays > 0 && horizonDays > 0 && dc > 0
    requires Feasible(y1, tenorDays, Decompose(horizonDays, tenorDays).stub, dc)
    requires Feasible(y2, tenorDays, Decompose(horizonDays, tenorDays).stub, dc)
    requires AccumulationFactor(y1, tenorDays, horizonDays, dc) == AccumulationFactor(y2, tenorDays, horizonDays, dc)
    ensures y1 == y2
  {
    if y1 < y2 {
      FactorStrictlyIncreasing(y1, y2, tenorDays, horizonDays, dc);
    } else if y2 < y1 {
      FactorStrictlyIncreasing(y2, y1, tenorDays, horizonDays, dc);
    }
  }

  /** `_sympy_rhs_accumulation_from_long_leg`: the long leg's accumulation to
      the horizon is the same factor, taken at the long tenor's observed
      yield. */
  function LongLegTarget(yLong: real, longTenorDays: int, horizonDays: int, dc: int): (a: real)
    requires longTenorDays > 0 && horizonDays >= 0 && dc > 0
    ensures a == AccumulationFactor(yLong, longTenorDays, horizonDays, dc)
    ensures yLong >= 0.0 ==> a >= 1.0
  {
    assert yLong >= 0.0 ==> AccumulationFactor(yLong, longTenorDays, horizonDays, dc) >= 1.0 by {
      if yLong >= 0.0 {
        FactorAtLeastOne(yLong, longTenorDays, horizonDays, dc);
      }
    }
    AccumulationFactor(yLong, longTenorDays, horizonDays, dc)
  }
}
