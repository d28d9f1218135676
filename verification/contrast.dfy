/** The association test between two sample groups (prob1.c, chi2_test and
    the pieces of contrast2_aux that do not touch the engine's buffers). */
module Contrast {
  import opened RealSeq
  import opened Summary

  /** Contributions below this are dropped and end a scan. */
  const CONTRAST_TINY: real := 1.0e-30

  /** The product (a+b)(c+d)(b+d)(a+c) of the margins of the 2x2 table
      [[a, b], [c, d]]; chi2_test converts the first factor to double, so
      the product is taken in floating point, not in int. */
  function Margins(a: int, b: int, c: int, d: int): real
  {
    (a + b) as real * (c + d) as real * (b + d) as real * (a + c) as real
  }

  /** Half of Pearson's statistic (a+b+c+d)(ad-bc)^2 / margins. */
  function HalfChi2(a: int, b: int, c: int, d: int): real
    requires Margins(a, b, c, d) != 0.0
  {
    var z := (a * d - b * c) as real;
    0.5 * z * z * (a + b + c + d) as real / Margins(a, b, c, d)
  }

  /** chi2_test: 1 when a margin is empty, otherwise the upper incomplete
      gamma Q(1/2, chi2/2), i.e. the p-value of chi2 with one degree of
      freedom; `gammaq` stands for kf_gammaq. */
  function Chi2Test(a: int, b: int, c: int, d: int, gammaq: (real, real) -> real): (r: real)
    ensures Margins(a, b, c, d) == 0.0 ==> r == 1.0
    ensures UnitGammaq(gammaq) ==> 0.0 <= r <= 1.0
  {
    var x := Margins(a, b, c, d);
    if x == 0.0 then 1.0 else gammaq(0.5, HalfChi2(a, b, c, d))
  }

  lemma ProductOfFour(p: real, q: real, r: real, s: real)
    requires p >= 0.0 && q >= 0.0 && r >= 0.0 && s >= 0.0
    ensures p * q * r * s >= 0.0
  {
    assert p * q >= 0.0;
    assert p * q * r >= 0.0;
  }

  /** For a table of counts the statistic handed to kf_gammaq is never
      negative, and it is 0 exactly when the table is independent,
      ad == bc. */
  lemma HalfChi2Sign(a: int, b: int, c: int, d: int)
    requires a >= 0 && b >= 0 && c >= 0 && d >= 0
    requires Margins(a, b, c, d) != 0.0
    ensures HalfChi2(a, b, c, d) >= 0.0
    ensures HalfChi2(a, b, c, d) == 0.0 <==> a * d == b * c
  {
    if a * d == b * c {
      HalfChi2Zero(a, b, c, d);
    } else {
      HalfChi2Positive(a, b, c, d);
    }
  }

  lemma HalfChi2Zero(a: int, b: int, c: int, d: int)
    requires Margins(a, b, c, d) != 0.0 && a * d == b * c
    ensures HalfChi2(a, b, c, d) == 0.0
  {
  }

  lemma HalfChi2Positive(a: int, b: int, c: int, d: int)
    requires a >= 0 && b >= 0 && c >= 0 && d >= 0
    requires Margins(a, b, c, d) != 0.0 && a * d != b * c
    ensures HalfChi2(a, b, c, d) > 0.0
  {
    ProductOfFour((a + b) as real, (c + d) as real, (b + d) as real, (a + c) as real);
    var z := (a * d - b * c) as real;
    var n := (a + b + c + d) as real;
    assert n > 0.0;
    HalfSquarePositive(z, n);
    PositiveQuotient(0.5 * z * z * n, Margins(a, b, c, d));
  }

  lemma HalfSquarePositive(z: real, n: real)
    requires n > 0.0 && z != 0.0
    ensures 0.5 * z * z * n > 0.0
  {
    if z > 0.0 {
      assert z * z > 0.0;
    } else {
      assert (-z) * (-z) > 0.0;
    }
    assert 0.5 * z * z > 0.0;
  }

  lemma PositiveQuotient(y: real, x: real)
    requires y > 0.0 && x > 0.0
    ensures y / x > 0.0
  {
    assert y / x * x == y;
  }

  /** Swapping the two groups (the two columns of the table) leaves the
      statistic unchanged. */
  lemma HalfChi2SwapGroups(a: int, b: int, c: int, d: int)
    requires Margins(a, b, c, d) != 0.0
    ensures Margins(b, a, d, c) == Margins(a, b, c, d)
    ensures HalfChi2(b, a, d, c) == HalfChi2(a, b, c, d)
  {
    var p := (a + b) as real;
    var q := (c + d) as real;
    var r := (b + d) as real;
    var s := (a + c) as real;
    assert Margins(b, a, d, c) == p * q * s * r;
    assert p * q * s * r == p * q * r * s;
    assert (b * c - a * d) as real * (b * c - a * d) as real == (a * d - b * c) as real * (a * d - b * c) as real;
  }

  /** Which group carries the larger allele frequency for the split (k1, k2)
      of alternate alleles over groups of n1 and n2 diploid samples: 1 when
      the second group's is larger, 2 when the first's is, 0 on a tie. The
      comparison is on the real frequencies k1 / 2n1 and k2 / 2n2. */
  function Side(k1: int, k2: int, n1: int, n2: int): int
    requires n1 > 0 && n2 > 0
  {
    var f1 := 0.5 * k1 as real / n1 as real;
    var f2 := 0.5 * k2 as real / n2 as real;
    if f1 < f2 then 1 else if f1 > f2 then 2 else 0
  }

  /** The frequency comparison agrees with the exact integer comparison of
      the cross products k1 n2 and k2 n1. */
  lemma SideByCrossProduct(k1: int, k2: int, n1: int, n2: int)
    requires n1 > 0 && n2 > 0
    ensures Side(k1, k2, n1, n2) == 1 <==> k1 * n2 < k2 * n1
    ensures Side(k1, k2, n1, n2) == 2 <==> k1 * n2 > k2 * n1
    ensures Side(k1, k2, n1, n2) == 0 <==> k1 * n2 == k2 * n1
  {
    var a := 0.5 * k1 as real;
    var b := 0.5 * k2 as real;
    var x := n1 as real;
    var y := n2 as real;
    var f1 := a / x;
    var f2 := b / y;
    assert f1 * x == a && f2 * y == b;
    var xy := x * y;
    assert xy > 0.0;
    assert f1 * xy == a * y by {
      assert f1 * xy == (f1 * x) * y;
    }
    assert f2 * xy == b * x by {
      assert f2 * xy == (f2 * y) * x;
    }
    assert (k1 * n2) as real == 2.0 * (a * y);
    assert (k2 * n1) as real == 2.0 * (b * x);
    ScaledOrder(f1, f2, xy);
  }

  /** Multiplying by a positive factor keeps the order of two reals. */
  lemma ScaledOrder(u: real, v: real, c: real)
    requires c > 0.0
    ensures u < v <==> u * c < v * c
    ensures u == v <==> u * c == v * c
  {
    if u < v {
      assert (v - u) * c > 0.0;
    } else if u > v {
      assert (u - v) * c > 0.0;
    }
  }

  /** hg[k1][k2] of contrast2: the hypergeometric probability, written with
      lgamma, that k1 of the k1 + k2 alternate alleles fall in the first
      group of 2 n1 chromosomes out of M. */
  function HgEntry(lgamma: real -> real, exp: real -> real, n1: nat, n2: nat, m: nat,
                   k1: nat, k2: nat): real
  {
    var tmp := lgamma((2 * (n1 + n2) + 1) as real) - (lgamma((2 * n1 + 1) as real) + lgamma((2 * n2 + 1) as real));
    exp(lgamma((k1 + k2 + 1) as real) + lgamma((m - k1 - k2 + 1) as real)
        - (lgamma((k1 + 1) as real) + lgamma((k2 + 1) as real)
           + lgamma((2 * n1 - k1 + 1) as real) + lgamma((2 * n2 - k2 + 1) as real) + tmp))
  }

  /** The table contrast2 builds on first use: 2 n1 + 1 rows of 2 n2 + 1
      entries. */
  function HgTable(lgamma: real -> real, exp: real -> real, n1: nat, n2: nat, m: nat): (r: seq<seq<real>>)
    ensures |r| == 2 * n1 + 1
    ensures forall k1 :: 0 <= k1 < |r| ==> |r[k1]| == 2 * n2 + 1
  {
    seq(2 * n1 + 1, k1 requires 0 <= k1 < 2 * n1 + 1 =>
      seq(2 * n2 + 1, k2 requires 0 <= k2 < 2 * n2 + 1 => HgEntry(lgamma, exp, n1, n2, m, k1, k2)))
  }

  /** With an exp that is positive, as the real one is, every table entry
      is positive. */
  lemma HgPositive(lgamma: real -> real, exp: real -> real, n1: nat, n2: nat, m: nat)
    requires forall x :: exp(x) > 0.0
    ensures forall k1, k2 :: 0 <= k1 <= 2 * n1 && 0 <= k2 <= 2 * n2 ==>
      HgTable(lgamma, exp, n1, n2, m)[k1][k2] > 0.0
  {
  }

  /** What contrast2 reads: the prior phi, the two groups' distributions
      z1 and z2, the hypergeometric table, the normaliser sum of
      phi[k] z[k], and the two group sizes. */
  datatype Tables = Tables(phi: seq<real>, z1: seq<real>, z2: seq<real>, hg: seq<seq<real>>,
                           sum: real, n1: nat, n2: nat)

  /** Both groups are non-empty and every index contrast2 uses is in range. */
  predicate Shaped(g: Tables)
  {
    g.n1 > 0 && g.n2 > 0 && |g.phi| > 2 * (g.n1 + g.n2) && |g.z1| > 2 * g.n1 && |g.z2| > 2 * g.n2
    && |g.hg| == 2 * g.n1 + 1 && forall k1 :: 0 <= k1 < |g.hg| ==> |g.hg[k1]| == 2 * g.n2 + 1
  }

  /** The posterior mass of the split (k1, k2): phi[k1 + k2] z1[k1] z2[k2]
      / sum hg[k1][k2]. */
  function Mass(g: Tables, k1: int, k2: int): real
    requires Shaped(g) && 0 <= k1 <= 2 * g.n1 && 0 <= k2 <= 2 * g.n2
  {
    CDiv(g.phi[k1 + k2] * g.z1[k1] * g.z2[k2], g.sum) * g.hg[k1][k2]
  }

  /** What contrast2_aux adds to entry s of the running masses for the
      split (k1, k2): the mass when it reaches CONTRAST_TINY and the
      split falls on side s, otherwise nothing. */
  function Kept(g: Tables, k1: int, k2: int, s: int): (r: real)
    requires Shaped(g) && 0 <= k1 <= 2 * g.n1 && 0 <= k2 <= 2 * g.n2
    ensures r >= 0.0
  {
    if Mass(g, k1, k2) >= CONTRAST_TINY && Side(k1, k2, g.n1, g.n2) == s then Mass(g, k1, k2) else 0.0
  }

  /** The mass of the split when it reaches CONTRAST_TINY, whatever its side. */
  function KeptAll(g: Tables, k1: int, k2: int): (r: real)
    requires Shaped(g) && 0 <= k1 <= 2 * g.n1 && 0 <= k2 <= 2 * g.n2
    ensures r >= 0.0
  {
    if Mass(g, k1, k2) >= CONTRAST_TINY then Mass(g, k1, k2) else 0.0
  }

  /** The three sides split the kept mass of a cell. */
  lemma KeptBySide(g: Tables, k1: int, k2: int)
    requires Shaped(g) && 0 <= k1 <= 2 * g.n1 && 0 <= k2 <= 2 * g.n2
    ensures Kept(g, k1, k2, 0) + Kept(g, k1, k2, 1) + Kept(g, k1, k2, 2) == KeptAll(g, k1, k2)
  {
    var s := Side(k1, k2, g.n1, g.n2);
    assert s == 0 || s == 1 || s == 2;
  }

  /** Sum of the three running masses. */
  function Total3(x: seq<real>): real
    requires |x| == 3
  {
    x[0] + x[1] + x[2]
  }

  /** The result of contrast2_aux: y, and the running masses after it. */
  datatype Step = Step(y: real, x: seq<real>)

  /** contrast2_aux for the split (k1, k2): -1 when the mass is below
      CONTRAST_TINY (x unchanged); otherwise the mass goes to x[Side] and y
      is the mass times the split's chi2 p-value, a share of the mass when
      kf_gammaq is a probability. */
  function Aux(g: Tables, gammaq: (real, real) -> real, k1: int, k2: int, x: seq<real>): (r: Step)
    requires Shaped(g) && 0 <= k1 <= 2 * g.n1 && 0 <= k2 <= 2 * g.n2 && |x| == 3
    ensures |r.x| == 3
    ensures forall s :: 0 <= s < 3 ==> r.x[s] == x[s] + Kept(g, k1, k2, s)
    ensures Mass(g, k1, k2) < CONTRAST_TINY ==> r.y == -1.0
    ensures Mass(g, k1, k2) >= CONTRAST_TINY && UnitGammaq(gammaq) ==> 0.0 <= r.y <= Mass(g, k1, k2)
  {
    var p := Mass(g, k1, k2);
    if p < CONTRAST_TINY then Step(-1.0, x)
    else
      var s := Side(k1, k2, g.n1, g.n2);
      var c := Chi2Test(k1, k2, 2 * g.n1 - k1, 2 * g.n2 - k2, gammaq);
      Step(Share(p, c), x[s := x[s] + p])
  }

  /** A mass weighted by a p-value is a share of the mass. */
  function Share(p: real, c: real): (r: real)
    ensures p > 0.0 && 0.0 <= c <= 1.0 ==> 0.0 <= r <= p
  {
    assert p > 0.0 && 0.0 <= c <= 1.0 ==> p * c <= p * 1.0;
    p * c
  }

  /** The running masses grew from x0 to x, and (when kf_gammaq is a
      probability) z grew from z0 by at most what they gained. */
  ghost predicate Tallied(gammaq: (real, real) -> real, x0: seq<real>, z0: real, x: seq<real>, z: real)
  {
    |x0| == 3 && |x| == 3 && x0[0] <= x[0] && x0[1] <= x[1] && x0[2] <= x[2]
    && (UnitGammaq(gammaq) ==> z0 <= z && z - z0 <= Total3(x) - Total3(x0))
  }

  /** `for (k2 = k20; k2 >= 0; --k2)` of contrast2: stops at the first
      split aux rejects. */
  method ScanDown(g: Tables, gammaq: (real, real) -> real, k1: int, k20: int, x0: seq<real>, z0: real)
    returns (x: seq<real>, z: real)
    requires Shaped(g) && 0 <= k1 <= 2 * g.n1 && k20 <= 2 * g.n2 && |x0| == 3
    ensures Tallied(gammaq, x0, z0, x, z)
    ensures -1 <= k20 ==> forall s :: 0 <= s < 3 ==> x[s] - x0[s] <= RowMass(g, k1, k20 + 1, s)
  {
    x, z := x0, z0;
    var k2 := k20;
    while k2 >= 0
      invariant k2 <= k20
      invariant Tallied(gammaq, x0, z0, x, z)
      invariant -1 <= k20 ==> -1 <= k2 && forall s :: 0 <= s < 3 ==>
        x[s] == x0[s] + (RowMass(g, k1, k20 + 1, s) - RowMass(g, k1, k2 + 1, s))
      decreases k2 + 1
    {
      var r := Aux(g, gammaq, k1, k2, x);
      x := r.x;
      if r.y < 0.0 {
        forall s | 0 <= s < 3
          ensures x[s] - x0[s] <= RowMass(g, k1, k20 + 1, s)
        {
          RowMassNonNegative(g, k1, k2, s);
        }
        return;
      }
      z := z + r.y;
      k2 := k2 - 1;
    }
  }

  /** `for (k2 = k20 + 1; k2 <= 2 n2; ++k2)` of contrast2: stops at the
      first split aux rejects. */
  method ScanUp(g: Tables, gammaq: (real, real) -> real, k1: int, k20: int, x0: seq<real>, z0: real)
    returns (x: seq<real>, z: real)
    requires Shaped(g) && 0 <= k1 <= 2 * g.n1 && -1 <= k20 && |x0| == 3
    ensures Tallied(gammaq, x0, z0, x, z)
    ensures k20 <= 2 * g.n2 ==> forall s :: 0 <= s < 3 ==>
      x[s] - x0[s] <= RowMass(g, k1, 2 * g.n2 + 1, s) - RowMass(g, k1, k20 + 1, s)
  {
    x, z := x0, z0;
    var k2 := k20 + 1;
    while k2 <= 2 * g.n2
      invariant k2 >= 0
      invariant Tallied(gammaq, x0, z0, x, z)
      invariant k20 <= 2 * g.n2 ==> k20 + 1 <= k2 <= 2 * g.n2 + 1 && forall s :: 0 <= s < 3 ==>
        x[s] == x0[s] + (RowMass(g, k1, k2, s) - RowMass(g, k1, k20 + 1, s))
      decreases 2 * g.n2 - k2
    {
      var r := Aux(g, gammaq, k1, k2, x);
      x := r.x;
      if r.y < 0.0 {
        RowGain(g, k1, k20 + 1, k2 + 1, x0, x);
        return;
      }
      z := z + r.y;
      k2 := k2 + 1;
    }
    if k20 <= 2 * g.n2 {
      RowGain(g, k1, k20 + 1, k2, x0, x);
    }
  }

  /** Masses that grew by a row's side masses over the columns lo .. hi - 1
      grew by no more than that row's whole side masses past lo. */
  lemma RowGain(g: Tables, k1: int, lo: int, hi: int, x0: seq<real>, x: seq<real>)
    requires Shaped(g) && 0 <= k1 <= 2 * g.n1 && 0 <= lo <= hi <= 2 * g.n2 + 1 && |x0| == 3 && |x| == 3
    requires forall s :: 0 <= s < 3 ==> x[s] == x0[s] + (RowMass(g, k1, hi, s) - RowMass(g, k1, lo, s))
    ensures forall s :: 0 <= s < 3 ==> x[s] - x0[s] <= RowMass(g, k1, 2 * g.n2 + 1, s) - RowMass(g, k1, lo, s)
  {
    forall s | 0 <= s < 3
      ensures RowMass(g, k1, hi, s) <= RowMass(g, k1, 2 * g.n2 + 1, s)
    {
      RowMassGrows(g, k1, hi, 2 * g.n2 + 1, s);
    }
  }

  /** The fast sweep of contrast2 around the peak (k10, k20): the rows
      k10 down to 0, then the rows above k10, each row scanned down from
      k20 and up from k20 + 1. The masses of the two halves add up in
      ret; z, when kf_gammaq is a probability, is a share of their total. */
  method Sweep(g: Tables, gammaq: (real, real) -> real, k10: int, k20: int)
    returns (ret: seq<real>, z: real)
    requires Shaped(g) && -1 <= k10 <= 2 * g.n1 && -1 <= k20 <= 2 * g.n2
    ensures Tallied(gammaq, [0.0, 0.0, 0.0], 0.0, ret, z)
    ensures forall s :: 0 <= s < 3 ==> ret[s] <= GridMasses(g)[s]
  {
    var x := [0.0, 0.0, 0.0];
    z := 0.0;
    var k1 := k10;
    while k1 >= 0
      invariant -1 <= k1 <= k10
      invariant Tallied(gammaq, [0.0, 0.0, 0.0], 0.0, x, z)
      invariant forall s :: 0 <= s < 3 ==> x[s] <= GridMass(g, k10 + 1, s) - GridMass(g, k1 + 1, s)
      decreases k1 + 1
    {
      ghost var x0 := x;
      x, z := ScanDown(g, gammaq, k1, k20, x, z);
      x, z := ScanUp(g, gammaq, k1, k20, x, z);
      assert forall s :: 0 <= s < 3 ==> x[s] - x0[s] <= RowMass(g, k1, 2 * g.n2 + 1, s);
      k1 := k1 - 1;
    }
    ret := x;
    ghost var zHalf := z;
    x := [0.0, 0.0, 0.0];
    k1 := k10 + 1;
    while k1 <= 2 * g.n1
      invariant k10 + 1 <= k1 <= 2 * g.n1 + 1
      invariant Tallied(gammaq, [0.0, 0.0, 0.0], zHalf, x, z)
      invariant forall s :: 0 <= s < 3 ==> x[s] <= GridMass(g, k1, s) - GridMass(g, k10 + 1, s)
      decreases 2 * g.n1 - k1
    {
      ghost var x0 := x;
      x, z := ScanDown(g, gammaq, k1, k20, x, z);
      x, z := ScanUp(g, gammaq, k1, k20, x, z);
      assert forall s :: 0 <= s < 3 ==> x[s] - x0[s] <= RowMass(g, k1, 2 * g.n2 + 1, s);
      k1 := k1 + 1;
    }
    ret := [ret[0] + x[0], ret[1] + x[1], ret[2] + x[2]];
  }

  /** Side-s mass kept in row k1 over the columns below `cols`. */
  function RowMass(g: Tables, k1: int, cols: int, s: int): real
    requires Shaped(g) && 0 <= k1 <= 2 * g.n1 && 0 <= cols <= 2 * g.n2 + 1
    decreases cols
  {
    if cols == 0 then 0.0 else RowMass(g, k1, cols - 1, s) + Kept(g, k1, cols - 1, s)
  }

  /** Side-s mass kept in the rows below `rows`. */
  function GridMass(g: Tables, rows: int, s: int): real
    requires Shaped(g) && 0 <= rows <= 2 * g.n1 + 1
    decreases rows
  {
    if rows == 0 then 0.0 else GridMass(g, rows - 1, s) + RowMass(g, rows - 1, 2 * g.n2 + 1, s)
  }

  /** The kept mass, whatever the side, over the columns below `cols`. */
  function RowAll(g: Tables, k1: int, cols: int): real
    requires Shaped(g) && 0 <= k1 <= 2 * g.n1 && 0 <= cols <= 2 * g.n2 + 1
    decreases cols
  {
    if cols == 0 then 0.0 else RowAll(g, k1, cols - 1) + KeptAll(g, k1, cols - 1)
  }

  /** The kept mass, whatever the side, in the rows below `rows`. */
  function GridAll(g: Tables, rows: int): real
    requires Shaped(g) && 0 <= rows <= 2 * g.n1 + 1
    decreases rows
  {
    if rows == 0 then 0.0 else GridAll(g, rows - 1) + RowAll(g, rows - 1, 2 * g.n2 + 1)
  }

  /** The masses of the whole grid, by side. */
  function GridMasses(g: Tables): (r: seq<real>)
    requires Shaped(g)
    ensures |r| == 3
  {
    [GridMass(g, 2 * g.n1 + 1, 0), GridMass(g, 2 * g.n1 + 1, 1), GridMass(g, 2 * g.n1 + 1, 2)]
  }

  /** Each split falls on exactly one side: the three side masses of a row
      add up to the row's kept mass. */
  lemma {:induction false} RowBySide(g: Tables, k1: int, cols: int)
    requires Shaped(g) && 0 <= k1 <= 2 * g.n1 && 0 <= cols <= 2 * g.n2 + 1
    ensures RowMass(g, k1, cols, 0) + RowMass(g, k1, cols, 1) + RowMass(g, k1, cols, 2) == RowAll(g, k1, cols)
    decreases cols
  {
    if cols > 0 {
      RowBySide(g, k1, cols - 1);
      KeptBySide(g, k1, cols - 1);
    }
  }

  /** The three side masses of the grid add up to its kept mass. */
  lemma {:induction false} GridBySide(g: Tables, rows: int)
    requires Shaped(g) && 0 <= rows <= 2 * g.n1 + 1
    ensures GridMass(g, rows, 0) + GridMass(g, rows, 1) + GridMass(g, rows, 2) == GridAll(g, rows)
    decreases rows
  {
    if rows > 0 {
      GridBySide(g, rows - 1);
      RowBySide(g, rows - 1, 2 * g.n2 + 1);
    }
  }

  /** One row of the fallback pass: every split is tried, none stops the
      row, and only non-negative y count. */
  method FullRow(g: Tables, gammaq: (real, real) -> real, k1: int, x0: seq<real>, z0: real)
    returns (x: seq<real>, z: real)
    requires Shaped(g) && 0 <= k1 <= 2 * g.n1 && |x0| == 3
    ensures |x| == 3 && forall s :: 0 <= s < 3 ==> x[s] == x0[s] + RowMass(g, k1, 2 * g.n2 + 1, s)
    ensures UnitGammaq(gammaq) ==> z0 <= z && z - z0 <= Total3(x) - Total3(x0)
  {
    x, z := x0, z0;
    for k2 := 0 to 2 * g.n2 + 1
      invariant |x| == 3 && forall s :: 0 <= s < 3 ==> x[s] == x0[s] + RowMass(g, k1, k2, s)
      invariant UnitGammaq(gammaq) ==> z0 <= z && z - z0 <= Total3(x) - Total3(x0)
    {
      var r := Aux(g, gammaq, k1, k2, x);
      KeptBySide(g, k1, k2);
      x := r.x;
      if r.y >= 0.0 {
        z := z + r.y;
      }
    }
  }

  /** The fallback pass of contrast2 over the whole grid: ret becomes the
      kept mass on each side. */
  method FullPass(g: Tables, gammaq: (real, real) -> real) returns (ret: seq<real>, z: real)
    requires Shaped(g)
    ensures ret == GridMasses(g)
    ensures Total3(ret) == GridAll(g, 2 * g.n1 + 1)
    ensures UnitGammaq(gammaq) ==> 0.0 <= z <= Total3(ret)
  {
    ret, z := [0.0, 0.0, 0.0], 0.0;
    for k1 := 0 to 2 * g.n1 + 1
      invariant |ret| == 3 && forall s :: 0 <= s < 3 ==> ret[s] == GridMass(g, k1, s)
      invariant UnitGammaq(gammaq) ==> 0.0 <= z <= Total3(ret)
    {
      ret, z := FullRow(g, gammaq, k1, ret, z);
    }
    GridBySide(g, 2 * g.n1 + 1);
  }

  /** The masses contrast2 falls back to last: a third on each side. */
  const Thirds: seq<real> := [1.0 / 3.0, 1.0 / 3.0, 1.0 / 3.0]

  /** The computation of contrast2 once the table and the peak (k10, k20)
      are known: the fast sweep when its masses reach 0.95, else the full
      pass when its masses do, else a third on each side with z = 1. The
      masses returned always reach 0.95 and are never negative, and z is
      a share of them when kf_gammaq is a probability. */
  method Contrast2Core(g: Tables, gammaq: (real, real) -> real, k10: int, k20: int)
    returns (z: real, ret: seq<real>, ghost fast: seq<real>)
    requires Shaped(g) && -1 <= k10 <= 2 * g.n1 && -1 <= k20 <= 2 * g.n2
    ensures |ret| == 3 && NonNegative(ret) && Total3(ret) >= 0.95
    ensures UnitGammaq(gammaq) ==> 0.0 <= z <= Total3(ret)
    ensures Resolved(g, fast, z, ret)
    ensures GridAll(g, 2 * g.n1 + 1) < 0.95 ==> ret == Thirds && z == 1.0
  {
    ret, z := Sweep(g, gammaq, k10, k20);
    fast := ret;
    if Total3(ret) < 0.95 {
      ret, z := FullPass(g, gammaq);
      GridNonNegative(g);
      if Total3(ret) < 0.95 {
        z, ret := 1.0, Thirds;
      }
    }
    ResolvedOutcome(g, fast, z, ret);
  }

  /** How contrast2 settles once the fast sweep has collected `fast`, never
      more on a side than the whole grid holds: the sweep's masses when
      they reach 0.95, else the grid's when they do, else a third on each
      side with z = 1. */
  ghost predicate Resolved(g: Tables, fast: seq<real>, z: real, ret: seq<real>)
    requires Shaped(g)
  {
    |fast| == 3 && NonNegative(fast) && (forall s :: 0 <= s < 3 ==> fast[s] <= GridMasses(g)[s])
    && (Total3(fast) >= 0.95 ==> ret == fast)
    && (Total3(fast) < 0.95 && GridAll(g, 2 * g.n1 + 1) >= 0.95 ==> ret == GridMasses(g))
    && (Total3(fast) < 0.95 && GridAll(g, 2 * g.n1 + 1) < 0.95 ==> ret == Thirds && z == 1.0)
  }

  /** Whatever the sweep collected, a grid holding less than 0.95 in all
      forces the thirds with z = 1, and otherwise no side of the result
      exceeds the grid's mass on that side. */
  lemma ResolvedOutcome(g: Tables, fast: seq<real>, z: real, ret: seq<real>)
    requires Shaped(g) && Resolved(g, fast, z, ret)
    ensures GridAll(g, 2 * g.n1 + 1) < 0.95 ==> ret == Thirds && z == 1.0
    ensures GridAll(g, 2 * g.n1 + 1) >= 0.95 ==> |ret| == 3 && forall s :: 0 <= s < 3 ==> ret[s] <= GridMasses(g)[s]
  {
    GridBySide(g, 2 * g.n1 + 1);
  }

  /** Side masses are never negative. */
  lemma GridNonNegative(g: Tables)
    requires Shaped(g)
    ensures NonNegative(GridMasses(g))
  {
    forall s | 0 <= s < 3
      ensures GridMasses(g)[s] >= 0.0
    {
      GridMassNonNegative(g, 2 * g.n1 + 1, s);
    }
  }

  lemma {:induction false} GridMassNonNegative(g: Tables, rows: int, s: int)
    requires Shaped(g) && 0 <= rows <= 2 * g.n1 + 1
    ensures GridMass(g, rows, s) >= 0.0
    decreases rows
  {
    if rows > 0 {
      GridMassNonNegative(g, rows - 1, s);
      RowMassNonNegative(g, rows - 1, 2 * g.n2 + 1, s);
    }
  }

  /** Taking in more columns never lowers a row's side mass. */
  lemma {:induction false} RowMassGrows(g: Tables, k1: int, lo: int, hi: int, s: int)
    requires Shaped(g) && 0 <= k1 <= 2 * g.n1 && 0 <= lo <= hi <= 2 * g.n2 + 1
    ensures RowMass(g, k1, lo, s) <= RowMass(g, k1, hi, s)
    decreases hi
  {
    if lo < hi {
      RowMassGrows(g, k1, lo, hi - 1, s);
    }
  }

  lemma {:induction false} RowMassNonNegative(g: Tables, k1: int, cols: int, s: int)
    requires Shaped(g) && 0 <= k1 <= 2 * g.n1 && 0 <= cols <= 2 * g.n2 + 1
    ensures RowMass(g, k1, cols, s) >= 0.0
    decreases cols
  {
    if cols > 0 {
      RowMassNonNegative(g, k1, cols - 1, s);
    }
  }
}
