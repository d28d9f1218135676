/** Posterior summaries of mc_cal_afs and bcf_p1_cal (prob1.c): weighted
    sums over allele counts, the folded variant and reference probabilities,
    the first maximum of a buffer, and the index scans of the 95% equal-tail
    interval. */
module Summary {
  import opened RealSeq

  /** C's quotient where the model needs a value for a zero divisor (C
      yields NaN or an infinity there); 0 stands in for it. */
  function CDiv(a: real, b: real): (r: real)
    ensures b != 0.0 ==> r * b == a
  {
    if b == 0.0 then 0.0 else a / b
  }

  /** Elementwise products. */
  function Products(a: seq<real>, b: seq<real>): (r: seq<real>)
    requires |a| == |b|
    ensures |r| == |a|
    ensures forall i {:trigger r[i]} :: 0 <= i < |a| ==> r[i] == a[i] * b[i]
  {
    seq(|a|, i requires 0 <= i < |a| => a[i] * b[i])
  }

  /** Allele counts weighted by their probabilities: sum of k * s[k]. */
  function Moment(s: seq<real>): real
  {
    if |s| == 0 then 0.0 else Moment(s[..|s| - 1]) + (|s| - 1) as real * s[|s| - 1]
  }

  /** The folded prior: (phi[k] + phi[M - k]) / 2. */
  function Folded(phi: seq<real>): (r: seq<real>)
    ensures |r| == |phi|
    ensures forall k {:trigger r[k]} :: 0 <= k < |phi| ==> r[k] == (phi[k] + phi[|phi| - 1 - k]) / 2.0
  {
    seq(|phi|, k requires 0 <= k < |phi| => (phi[k] + phi[|phi| - 1 - k]) / 2.0)
  }

  /** The expected allele count of a distribution lies between 0 and the
      largest count. */
  lemma {:induction false} MomentBounds(s: seq<real>)
    requires |s| > 0 && NonNegative(s)
    ensures 0.0 <= Moment(s) <= (|s| - 1) as real * Sum(s)
  {
    var n := |s| - 1;
    if n > 0 {
      MomentBounds(s[..n]);
      SumNonNegative(s[..n]);
      var t := Sum(s[..n]);
      assert n as real * t == (n - 1) as real * t + t;
      assert n as real * Sum(s) == n as real * t + n as real * s[n];
      assert n as real * s[n] >= 0.0;
    }
  }

  /** The folded variant probability of mc_cal_afs: the mass of the folded
      prior times z strictly between 0 and M, over the whole. */
  function FoldedVar(phi: seq<real>, z: seq<real>): real
    requires |phi| == |z| >= 2
  {
    var m := |z| - 1;
    var f := Folded(phi);
    CDiv(Sum(Products(f[1..m], z[1..m])), Sum(Products(f, z)))
  }

  /** The folded reference probability of mc_cal_afs: the end weight of
      the folded prior times z at both ends, over the whole. */
  function FoldedRef(phi: seq<real>, z: seq<real>): real
    requires |phi| == |z| >= 2
  {
    var m := |z| - 1;
    var f := Folded(phi);
    CDiv(f[m] * (z[m] + z[0]), Sum(Products(f, z)))
  }

  /** Folding puts the same weight on the two ends, so the folded variant
      and reference probabilities add up to 1 whenever the folded total is
      not 0. */
  lemma FoldedComplement(phi: seq<real>, z: seq<real>)
    requires |phi| == |z| >= 2
    requires Sum(Products(Folded(phi), z)) != 0.0
    ensures FoldedRef(phi, z) + FoldedVar(phi, z) == 1.0
  {
    var f := Folded(phi);
    var m := |z| - 1;
    assert f[0] == f[m];
    EndsAndInner(f, z);
    Complement(f[m] * (z[m] + z[0]), Sum(Products(f[1..m], z[1..m])), Sum(Products(f, z)));
  }

  /** With equal end weights, a product sum splits into the end weight
      times both end values, plus the inner terms. */
  lemma EndsAndInner(f: seq<real>, z: seq<real>)
    requires |f| == |z| >= 2 && f[0] == f[|z| - 1]
    ensures Sum(Products(f, z))
         == f[|z| - 1] * (z[|z| - 1] + z[0]) + Sum(Products(f[1..|z| - 1], z[1..|z| - 1]))
  {
    var m := |z| - 1;
    var p := Products(f, z);
    SumFront(p);
    assert p[1..] == p[1..m] + [p[m]];
    SumAppend(p[1..m], [p[m]]);
    assert Sum([p[m]]) == p[m] by {
      assert [p[m]][..0] == [];
    }
    forall i | 0 <= i < m - 1
      ensures Products(f[1..m], z[1..m])[i] == p[1..m][i]
    {
    }
    assert Products(f[1..m], z[1..m]) == p[1..m];
    Distribute(f[m], z[m], z[0]);
  }

  lemma Distribute(c: real, x: real, y: real)
    ensures c * (x + y) == c * x + c * y
  {
  }

  /** Two parts of a non-zero whole, each over the whole, add up to 1. */
  lemma Complement(a: real, b: real, d: real)
    requires d == a + b && d != 0.0
    ensures CDiv(a, d) + CDiv(b, d) == 1.0
  {
    assert a / d + b / d == d / d;
  }

  /** sum of a[k] * b[k] for k in [0, m]. */
  method ProductSum(a: seq<real>, b: seq<real>, m: int) returns (s: real)
    requires 0 <= m < |a| && m < |b|
    ensures s == Sum(Products(a[..m + 1], b[..m + 1]))
  {
    ghost var p := Products(a[..m + 1], b[..m + 1]);
    s := 0.0;
    for k := 0 to m + 1
      invariant s == Sum(p[..k])
    {
      SumStep(p, k);
      s := s + a[k] * b[k];
    }
    assert p[..m + 1] == p;
  }

  /** The first folded sum of mc_cal_afs, over all k in [0, m]. */
  method FoldedSum(phi: seq<real>, z: seq<real>, m: int) returns (sum: real)
    requires 1 <= m < |phi| && m < |z|
    ensures sum == Sum(Products(Folded(phi[..m + 1]), z[..m + 1]))
  {
    ghost var f := Folded(phi[..m + 1]);
    ghost var p := Products(f, z[..m + 1]);
    sum := 0.0;
    for k := 0 to m + 1
      invariant sum == Sum(p[..k])
    {
      SumStep(p, k);
      var w := (phi[k] + phi[m - k]) / 2.0;
      assert f[k] == w;
      ghost var zs := z[..m + 1];
      assert p[k] == f[k] * zs[k];
      assert zs[k] == z[k];
      sum := sum + w * z[k];
    }
    assert p[..m + 1] == p;
  }

  /** The second folded sum of mc_cal_afs, over 0 < k < m. */
  method FoldedInnerSum(phi: seq<real>, z: seq<real>, m: int) returns (sum2: real)
    requires 1 <= m < |phi| && m < |z|
    ensures sum2 == Sum(Products(Folded(phi[..m + 1])[1..m], z[1..m]))
  {
    ghost var f := Folded(phi[..m + 1]);
    ghost var q := Products(f[1..m], z[1..m]);
    sum2 := 0.0;
    for k := 1 to m
      invariant sum2 == Sum(q[..k - 1])
    {
      SumStep(q, k - 1);
      var w := (phi[k] + phi[m - k]) / 2.0;
      assert f[k] == w;
      assert z[1..m][k - 1] == z[k] && f[1..m][k - 1] == f[k];
      assert q[k - 1] == f[k] * z[k];
      sum2 := sum2 + w * z[k];
    }
    assert q[..m - 1] == q;
  }

  /** sum of k * a[k] for k in [0, m]. */
  method MomentSum(a: seq<real>, m: int) returns (s: real)
    requires 0 <= m < |a|
    ensures s == Moment(a[..m + 1])
  {
    s := 0.0;
    for k := 0 to m + 1
      invariant s == Moment(a[..k])
    {
      assert a[..k + 1][..k] == a[..k];
      s := s + k as real * a[k];
    }
    assert a[..m + 1][..m + 1] == a[..m + 1];
  }

  /** The larger of `floor` and the largest element of `s`: the value the
      scan `max = floor; for each k: if (max < s[k]) max = s[k]` ends with. */
  function Peak(s: seq<real>, floor: real): real
  {
    if |s| == 0 then floor
    else
      var p := Peak(s[..|s| - 1], floor);
      if p < s[|s| - 1] then s[|s| - 1] else p
  }

  /** The peak bounds the floor and every element, and it is the floor or
      one of the elements. */
  lemma {:induction false} PeakIsMaximum(s: seq<real>, floor: real)
    ensures Peak(s, floor) >= floor
    ensures forall i :: 0 <= i < |s| ==> s[i] <= Peak(s, floor)
    ensures Peak(s, floor) == floor || exists i :: 0 <= i < |s| && s[i] == Peak(s, floor)
  {
    if |s| > 0 {
      var n := |s| - 1;
      PeakIsMaximum(s[..n], floor);
      assert forall i :: 0 <= i < n ==> s[..n][i] == s[i];
    }
  }

  /** The scan `for (k = 0, max = floor; k <= m; ++k) if (max < a[k]) ...`:
      the peak of a[0..m] and the first index where it is reached, or -1
      when no entry exceeds the floor. */
  method FirstMax(a: seq<real>, m: int, floor: real) returns (max: real, at: int)
    requires 0 <= m < |a|
    ensures max == Peak(a[..m + 1], floor)
    ensures -1 <= at <= m
    ensures at == -1 ==> max == floor && forall i :: 0 <= i <= m ==> a[i] <= floor
    ensures at >= 0 ==> max == a[at] > floor
    ensures at >= 0 ==> forall i :: 0 <= i <= m ==> a[i] <= a[at]
    ensures at >= 0 ==> forall i :: 0 <= i < at ==> a[i] < a[at]
  {
    max, at := floor, -1;
    for k := 0 to m + 1
      invariant max == Peak(a[..k], floor)
      invariant -1 <= at < k
      invariant at == -1 ==> max == floor && forall i :: 0 <= i < k ==> a[i] <= floor
      invariant at >= 0 ==> max == a[at] > floor
      invariant at >= 0 ==> forall i :: 0 <= i < k ==> a[i] <= a[at]
      invariant at >= 0 ==> forall i :: 0 <= i < at ==> a[i] < a[at]
    {
      assert a[..k + 1][..k] == a[..k];
      if max < a[k] {
        max, at := a[k], k;
      }
    }
  }

  /** p_ref and p_var of bcf_p1_cal: the posterior mass at k = M (no
      alternate allele) and the mass below it; they add up to 1 for a
      distribution. */
  method RefVarMass(afs1: seq<real>, m: nat) returns (pRef: real, pVar: real)
    requires |afs1| == m + 1
    ensures pVar == Sum(afs1[..m])
    ensures pRef + pVar == Sum(afs1)
  {
    pRef := afs1[m];
    pVar := 0.0;
    for k := 0 to m
      invariant pVar == Sum(afs1[..k])
    {
      SumStep(afs1, k);
      pVar := pVar + afs1[k];
    }
    SumStep(afs1, m);
    assert afs1[..m + 1] == afs1;
  }

  /** The allele count of bcf_p1_cal: M minus the first index where z peaks
      (z starts from -1), so M + 1 when no entry exceeds -1. For a
      non-negative z it lies in [0, M] and z reaches its peak first at
      M - ac. */
  method AlleleCount(z: seq<real>, m: nat) returns (ac: int)
    requires |z| == m + 1
    ensures ac == m + 1 <==> forall i :: 0 <= i <= m ==> z[i] <= -1.0
    ensures NonNegative(z) ==>
      0 <= ac <= m && z[m - ac] == Peak(z, -1.0) && forall i :: 0 <= i < m - ac ==> z[i] < z[m - ac]
  {
    var max, at := FirstMax(z, m, -1.0);
    assert z[..m + 1] == z;
    if NonNegative(z) {
      assert z[0] >= 0.0;
    }
    ac := m - at;
  }

  /** Entries divided by `c`, with C's division by 0 taken as 0. */
  function Quotients(s: seq<real>, c: real): (r: seq<real>)
    ensures |r| == |s|
    ensures forall i :: 0 <= i < |s| ==> r[i] == CDiv(s[i], c)
  {
    seq(|s|, i requires 0 <= i < |s| => CDiv(s[i], c))
  }

  /** Dividing every entry by `c` divides the moment by `c`. */
  lemma {:induction false} MomentQuotients(s: seq<real>, c: real)
    ensures Moment(Quotients(s, c)) == CDiv(Moment(s), c)
  {
    if |s| > 0 {
      var n := |s| - 1;
      assert Quotients(s, c)[..n] == Quotients(s[..n], c);
      MomentQuotients(s[..n], c);
      QuotientStep(Moment(s[..n]), n as real, s[n], c);
    }
  }

  lemma QuotientStep(a: real, k: real, x: real, c: real)
    ensures CDiv(a + k * x, c) == CDiv(a, c) + k * CDiv(x, c)
  {
    if c != 0.0 {
      assert (a + k * x) / c == a / c + k * (x / c);
    }
  }

  /** The sum of z[0..m], front to back. */
  method SumAll(z: seq<real>, m: nat) returns (sum: real)
    requires |z| == m + 1
    ensures sum == Sum(z)
  {
    sum := 0.0;
    for k := 0 to m + 1
      invariant sum == Sum(z[..k])
    {
      SumStep(z, k);
      sum := sum + z[k];
    }
    assert z[..m + 1] == z;
  }

  /** The sum of k z[k] / sum for k in [0, m], accumulated term by term. */
  method ScaledMoment(z: seq<real>, m: nat, sum: real) returns (mom: real)
    requires |z| == m + 1
    ensures mom == CDiv(Moment(z), sum)
  {
    ghost var q := Quotients(z, sum);
    mom := 0.0;
    for k := 0 to m + 1
      invariant mom == Moment(q[..k])
    {
      assert q[..k + 1][..k] == q[..k];
      mom := mom + k as real * CDiv(z[k], sum);
    }
    assert q[..m + 1] == q;
    MomentQuotients(z, sum);
  }

  /** f_flat of bcf_p1_cal: the expected allele frequency under a flat
      prior, sum of k z[k] / sum(z) over M. For a non-negative z with
      positive mass it lies in [0, 1]. */
  method FlatFrequency(z: seq<real>, m: nat) returns (fFlat: real)
    requires |z| == m + 1 && m >= 1
    ensures fFlat == CDiv(Moment(z), Sum(z)) / m as real
    ensures NonNegative(z) && Sum(z) > 0.0 ==> 0.0 <= fFlat <= 1.0
  {
    var sum := SumAll(z, m);
    var mom := ScaledMoment(z, m, sum);
    fFlat := mom / m as real;
    if NonNegative(z) && sum > 0.0 {
      FlatBounds(z, sum);
    }
  }

  /** A non-negative z with positive mass has its mean count in [0, M]. */
  lemma FlatBounds(z: seq<real>, sum: real)
    requires |z| >= 2 && NonNegative(z) && sum == Sum(z) && sum > 0.0
    ensures 0.0 <= CDiv(Moment(z), sum) / (|z| - 1) as real <= 1.0
  {
    MomentBounds(z);
    MeanBounds(Moment(z), sum, (|z| - 1) as real);
  }

  /** A weighted count between 0 and m times its mass, over the mass and
      over m, lies in [0, 1]. */
  lemma MeanBounds(mom: real, sum: real, m: real)
    requires sum > 0.0 && m > 0.0 && 0.0 <= mom <= m * sum
    ensures 0.0 <= mom / sum / m <= 1.0
  {
    QuotientOrder(0.0, mom, sum);
    QuotientOrder(mom, m * sum, sum);
    assert m * sum / sum == m;
    QuotientOrder(0.0, mom / sum, m);
    QuotientOrder(mom / sum, m, m);
  }

  /** Mass of s[0..i]. */
  function PrefixMass(s: seq<real>, i: int): real
    requires 0 <= i < |s|
  {
    Sum(s[..i + 1])
  }

  /** Mass of s[i..]. */
  function SuffixMass(s: seq<real>, i: int): real
    requires 0 <= i < |s|
  {
    Sum(s[i..])
  }

  /** Every prefix s[0..i] with i < l holds at most 2.5% of the mass. */
  predicate BelowLowerTail(s: seq<real>, l: int)
  {
    forall i :: 0 <= i < l && i < |s| ==> PrefixMass(s, i) <= 0.025
  }

  /** Every suffix s[i..] with i > h holds at most 2.5% of the mass. */
  predicate AboveUpperTail(s: seq<real>, h: int)
  {
    forall i :: h < i < |s| && 0 <= i ==> SuffixMass(s, i) <= 0.025
  }

  /** The lower index scan of the equal-tail interval: the first i whose
      prefix mass a[0..i] exceeds 0.025, or m + 1. */
  method LowerTail(a: seq<real>, m: int) returns (l: int)
    requires 0 <= m < |a|
    ensures 0 <= l <= m + 1
    ensures BelowLowerTail(a[..m + 1], l)
    ensures l <= m ==> PrefixMass(a[..m + 1], l) > 0.025
  {
    ghost var s := a[..m + 1];
    assert Sum(s[..0]) == 0.0;
    hide Sum;
    var p := 0.0;
    l := 0;
    while l <= m
      invariant 0 <= l <= m + 1
      invariant p == Sum(s[..l])
      invariant forall i :: 0 <= i < l ==> PrefixMass(s, i) <= 0.025
    {
      SumStep(s, l);
      if p + a[l] > 0.025 {
        return;
      }
      p := p + a[l];
      l := l + 1;
    }
  }

  /** The upper index scan: the last i whose suffix mass a[i..m] exceeds
      0.025, or -1. */
  method UpperTail(a: seq<real>, m: int) returns (h: int)
    requires 0 <= m < |a|
    ensures -1 <= h <= m
    ensures AboveUpperTail(a[..m + 1], h)
    ensures h >= 0 ==> SuffixMass(a[..m + 1], h) > 0.025
  {
    ghost var s := a[..m + 1];
    assert Sum(s[m + 1..]) == 0.0;
    hide Sum;
    var p := 0.0;
    h := m;
    while h >= 0
      invariant -1 <= h <= m
      invariant p == Sum(s[h + 1..])
      invariant forall i :: h < i <= m ==> SuffixMass(s, i) <= 0.025
    {
      SuffixStep(s, h);
      if p + a[h] > 0.025 {
        return;
      }
      p := p + a[h];
      h := h - 1;
    }
  }

  /** Extending a suffix by one element at its front adds that element. */
  lemma SuffixStep(s: seq<real>, h: nat)
    requires h < |s|
    ensures Sum(s[h..]) == s[h] + Sum(s[h + 1..])
  {
    SumFront(s[h..]);
    assert s[h..][1..] == s[h + 1..];
  }

  /** For any sequence of total mass 1 (a posterior over allele counts) the
      two scans meet in order: 0 <= l <= h <= m. */
  lemma TailsOrdered(s: seq<real>, l: int, h: int)
    requires |s| > 0 && Sum(s) == 1.0
    requires 0 <= l <= |s| && -1 <= h < |s|
    requires BelowLowerTail(s, l)
    requires AboveUpperTail(s, h)
    ensures 0 <= l <= h < |s|
  {
    var m := |s| - 1;
    assert s[..m + 1] == s;
    assert PrefixMass(s, m) == 1.0;
    assert s[0..] == s;
    assert SuffixMass(s, 0) == 1.0;
    if 0 <= h < m {
      assert s == s[..h + 1] + s[h + 1..];
      SumAppend(s[..h + 1], s[h + 1..]);
      assert PrefixMass(s, h) + SuffixMass(s, h + 1) == 1.0;
    }
  }

  /** The interval ends (M - h) / M and (M - l) / M are ordered fractions. */
  lemma IntervalBounds(m: int, l: int, h: int)
    requires 0 <= l <= h <= m && m > 0
    ensures 0.0 <= (m - h) as real / m as real <= (m - l) as real / m as real <= 1.0
  {
    var d := m as real;
    QuotientOrder(0.0, (m - h) as real, d);
    QuotientOrder((m - h) as real, (m - l) as real, d);
    QuotientOrder((m - l) as real, d, d);
  }

  /** l and h are where the lower and the upper scan of the equal-tail
      interval stop over s: l is the first index whose prefix mass passes
      0.025 (|s| when none does), h the last index whose suffix mass does
      (-1 when none does). */
  predicate TailEnds(s: seq<real>, l: int, h: int)
  {
    0 <= l <= |s| && BelowLowerTail(s, l) && (l < |s| ==> PrefixMass(s, l) > 0.025)
    && -1 <= h < |s| && AboveUpperTail(s, h) && (h >= 0 ==> SuffixMass(s, h) > 0.025)
  }

  /** The tail ends are determined by s. */
  lemma TailEndsUnique(s: seq<real>, l: int, h: int, l': int, h': int)
    requires TailEnds(s, l, h) && TailEnds(s, l', h')
    ensures l == l' && h == h'
  {
  }

  /** The 95% equal-tail interval of bcf_p1_cal: with l the lower and h
      the upper index scan over afs1, cil = (M - h) / M and
      cih = (M - l) / M; for a distribution they are ordered fractions. */
  method Interval(afs1: seq<real>, m: nat) returns (cil: real, cih: real, l: int, h: int)
    requires |afs1| == m + 1 && m >= 1
    ensures cil == (m - h) as real / m as real && cih == (m - l) as real / m as real
    ensures TailEnds(afs1, l, h)
    ensures Sum(afs1) == 1.0 ==> 0.0 <= cil <= cih <= 1.0
  {
    assert afs1[..m + 1] == afs1;
    l := LowerTail(afs1, m);
    h := UpperTail(afs1, m);
    cil := (m - h) as real / m as real;
    cih := (m - l) as real / m as real;
    if Sum(afs1) == 1.0 {
      TailsOrdered(afs1, l, h);
      IntervalBounds(m, l, h);
    }
  }

  /** kf_gammaq, the regularised upper incomplete gamma function, is a
      probability. */
  ghost predicate UnitGammaq(gammaq: (real, real) -> real)
  {
    forall s, x :: 0.0 <= gammaq(s, x) <= 1.0
  }

  /** The LRT p-value of bcf_p1_cal from the peaks of the cohort's (max0)
      and the two groups' (max1, max2) distributions: 1 when the log
      ratio log(max1 max2 / max0) is negative, otherwise Q(1/2, ratio). */
  function LrtPValue(log: real -> real, gammaq: (real, real) -> real,
                     max0: real, max1: real, max2: real): (r: real)
    ensures UnitGammaq(gammaq) ==> 0.0 <= r <= 1.0
  {
    var ratio := log(CDiv(max1 * max2, max0));
    if ratio < 0.0 then 1.0 else gammaq(0.5, ratio)
  }

  /** The LRT block of bcf_p1_cal for groups of n1 and M / 2 - n1 diploid
      samples: the peaks of z[0..M], z1[0..2 n1] and z2[0..M - 2 n1],
      each scan starting from -1. */
  method LikelihoodRatio(z: seq<real>, z1: seq<real>, z2: seq<real>, m: nat, n1: nat,
                         log: real -> real, gammaq: (real, real) -> real) returns (lrt: real)
    requires |z| == m + 1 && 2 * n1 <= m && |z1| == m + 1 && |z2| == m + 1
    ensures lrt == LrtPValue(log, gammaq, Peak(z, -1.0), Peak(z1[..2 * n1 + 1], -1.0),
                             Peak(z2[..m - 2 * n1 + 1], -1.0))
    ensures UnitGammaq(gammaq) ==> 0.0 <= lrt <= 1.0
  {
    var max0, unused0 := FirstMax(z, m, -1.0);
    var max1, unused1 := FirstMax(z1, 2 * n1, -1.0);
    var max2, unused2 := FirstMax(z2, m - 2 * n1, -1.0);
    assert z[..m + 1] == z;
    lrt := LrtPValue(log, gammaq, max0, max1, max2);
  }

  lemma QuotientOrder(x: real, y: real, d: real)
    requires x <= y && d > 0.0
    ensures x / d <= y / d
  {
    assert y / d - x / d == (y - x) / d;
  }
}
