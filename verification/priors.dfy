/** Priors over the allele count k in [0, M] (prob1.c, init_prior and
    bcf_p1_indel_prior). Index M is the all-reference end: FULL puts its
    residual mass there. */
module Priors {
  import opened RealSeq

  /** The three prior shapes. The C code selects COND2 and FLAT by code and
      treats every other code as FULL. */
  datatype PriorType = Cond2 | Flat | Full

  /** COND2: phi[i] = 2 (i+1) / (M+1) / (M+2). */
  function Cond2Prior(m: nat): (r: seq<real>)
    ensures |r| == m + 1
  {
    seq(m + 1, i => 2.0 * (i + 1) as real / (m + 1) as real / (m + 2) as real)
  }

  /** FLAT: phi[i] = 1 / (M+1). */
  function FlatPrior(m: nat): (r: seq<real>)
    ensures |r| == m + 1
  {
    seq(m + 1, i => 1.0 / (m + 1) as real)
  }

  /** FULL, the first M entries: phi[i] = theta / (M - i). */
  function FullHead(theta: real, m: nat): (r: seq<real>)
    ensures |r| == m
  {
    seq(m, i requires 0 <= i < m => theta / (m - i) as real)
  }

  /** FULL: the head followed by the residual 1 - sum(head) at index M. */
  function FullPrior(theta: real, m: nat): (r: seq<real>)
    ensures |r| == m + 1
  {
    FullHead(theta, m) + [1.0 - Sum(FullHead(theta, m))]
  }

  function Prior(ptype: PriorType, theta: real, m: nat): (r: seq<real>)
    ensures |r| == m + 1
  {
    match ptype
    case Cond2 => Cond2Prior(m)
    case Flat => FlatPrior(m)
    case Full => FullPrior(theta, m)
  }

  /** The indel prior derived from `phi` with indel rate `x`. */
  function IndelPrior(phi: seq<real>, x: real): (r: seq<real>)
    requires |phi| > 0
    ensures |r| == |phi|
  {
    var m := |phi| - 1;
    seq(m + 1, i requires 0 <= i <= m => if i < m then phi[i] * x else 1.0 - phi[m] * x)
  }

  /** init_prior: fills phi[0..M] with the chosen shape and leaves the rest of
      the buffer alone. */
  method InitPrior(ptype: PriorType, theta: real, m: nat, phi: array<real>)
    requires m < phi.Length
    modifies phi
    ensures phi[..m + 1] == Prior(ptype, theta, m)
    ensures phi[m + 1..] == old(phi[m + 1..])
  {
    match ptype {
      case Cond2 =>
        for i := 0 to m + 1
          invariant phi[..i] == Cond2Prior(m)[..i]
          invariant phi[m + 1..] == old(phi[m + 1..])
        {
          phi[i] := 2.0 * (i + 1) as real / (m + 1) as real / (m + 2) as real;
        }
        assert phi[..m + 1] == Cond2Prior(m)[..m + 1];
      case Flat =>
        for i := 0 to m + 1
          invariant phi[..i] == FlatPrior(m)[..i]
          invariant phi[m + 1..] == old(phi[m + 1..])
        {
          phi[i] := 1.0 / (m + 1) as real;
        }
        assert phi[..m + 1] == FlatPrior(m)[..m + 1];
      case Full =>
        var sum := 0.0;
        for i := 0 to m
          invariant phi[..i] == FullHead(theta, m)[..i]
          invariant sum == Sum(phi[..i])
          invariant phi[m + 1..] == old(phi[m + 1..])
        {
          phi[i] := theta / (m - i) as real;
          SumStep(phi[..], i);
          assert phi[..i + 1] == phi[..][..i + 1];
          sum := sum + phi[i];
        }
        assert phi[..m] == FullHead(theta, m);
        phi[m] := 1.0 - sum;
        assert phi[..m + 1] == phi[..m] + [phi[m]];
    }
  }

  /** bcf_p1_indel_prior: writes only `phiIndel`. */
  method InitIndelPrior(phi: array<real>, phiIndel: array<real>, m: nat, x: real)
    requires m < phi.Length && m < phiIndel.Length && phi != phiIndel
    modifies phiIndel
    ensures phiIndel[..m + 1] == IndelPrior(phi[..m + 1], x)
    ensures phiIndel[m + 1..] == old(phiIndel[m + 1..])
  {
    for i := 0 to m
      invariant forall k :: 0 <= k < i ==> phiIndel[k] == phi[k] * x
      invariant phiIndel[m..] == old(phiIndel[m..])
    {
      phiIndel[i] := phi[i] * x;
    }
    phiIndel[m] := 1.0 - phi[m] * x;
    assert phiIndel[m + 1..] == old(phiIndel[m..])[1..];
    forall k | 0 <= k <= m
      ensures phiIndel[k] == IndelPrior(phi[..m + 1], x)[k]
    {
    }
  }

  /** Sum of 1 + 2 + ... + m. */
  lemma {:induction false} SumOfCounts(m: nat)
    ensures Sum(seq(m, i => (i + 1) as real)) == (m * (m + 1)) as real / 2.0
  {
    if m > 0 {
      var s := seq(m, i => (i + 1) as real);
      assert s[..m - 1] == seq(m - 1, i => (i + 1) as real);
      SumOfCounts(m - 1);
      assert m * (m + 1) == (m - 1) * m + 2 * m;
    }
  }

  /** A COND2 entry is the count i+1 over half the normaliser (M+1)(M+2). */
  lemma Cond2Entry(m: nat, i: nat)
    requires i <= m
    ensures Cond2Prior(m)[i] == (i + 1) as real / (((m + 1) * (m + 2)) as real / 2.0)
  {
    var a := (i + 1) as real;
    var p := (m + 1) as real;
    var q := (m + 2) as real;
    assert p * q == ((m + 1) * (m + 2)) as real;
    assert 2.0 * a / p / q == a / (p * q / 2.0);
  }

  /** COND2 sums to 1. */
  lemma Cond2SumsToOne(m: nat)
    ensures Sum(Cond2Prior(m)) == 1.0
  {
    var c := ((m + 1) * (m + 2)) as real / 2.0;
    var counts := seq(m + 1, i => (i + 1) as real);
    forall i | 0 <= i <= m
      ensures Cond2Prior(m)[i] == Scaled(counts, c)[i]
    {
      Cond2Entry(m, i);
    }
    assert Cond2Prior(m) == Scaled(counts, c);
    SumScaled(counts, c);
    SumOfCounts(m + 1);
    assert Sum(counts) == c;
  }

  /** FLAT sums to 1. */
  lemma FlatSumsToOne(m: nat)
    ensures Sum(FlatPrior(m)) == 1.0
  {
    SumConstant(FlatPrior(m), 1.0 / (m + 1) as real);
  }

  /** FULL sums to 1: the residual at M absorbs whatever the head leaves. */
  lemma FullSumsToOne(theta: real, m: nat)
    ensures Sum(FullPrior(theta, m)) == 1.0
  {
    var h := FullHead(theta, m);
    assert FullPrior(theta, m)[..m] == h;
  }

  /** Every shape is a distribution: its entries sum to 1. */
  lemma PriorSumsToOne(ptype: PriorType, theta: real, m: nat)
    ensures Sum(Prior(ptype, theta, m)) == 1.0
  {
    match ptype
    case Cond2 => Cond2SumsToOne(m);
    case Flat => FlatSumsToOne(m);
    case Full => FullSumsToOne(theta, m);
  }

  /** COND2 weight grows strictly with the index, and every weight is positive. */
  lemma Cond2Increasing(m: nat, i: nat, j: nat)
    requires i < j <= m
    ensures 0.0 < Cond2Prior(m)[i] < Cond2Prior(m)[j]
  {
    var p := (m + 1) as real;
    var q := (m + 2) as real;
    assert 2.0 * (i + 1) as real < 2.0 * (j + 1) as real;
    assert 2.0 * (i + 1) as real / p < 2.0 * (j + 1) as real / p;
  }

  /** FULL with a positive theta gives every non-residual index positive mass,
      decreasing toward index 0, and the residual is 1 minus that mass. */
  lemma FullShape(theta: real, m: nat, i: nat, j: nat)
    requires theta > 0.0 && i < j < m
    ensures 0.0 < FullPrior(theta, m)[i] < FullPrior(theta, m)[j]
    ensures FullPrior(theta, m)[m] == 1.0 - Sum(FullPrior(theta, m)[..m])
  {
    var h := FullHead(theta, m);
    assert FullPrior(theta, m)[..m] == h;
    var a := (m - i) as real;
    var b := (m - j) as real;
    assert 0.0 < b < a;
    assert theta / a < theta / b by {
      assert theta / a * a == theta;
      assert theta / b * b == theta;
      assert theta / a * b < theta / a * a;
    }
  }

  /** The indel prior carries mass 1 + x - 2 x phi[M] when phi sums to 1: it is
      itself a distribution only when x == 0 or phi[M] == 1/2. */
  lemma IndelPriorMass(phi: seq<real>, x: real)
    requires |phi| > 0 && Sum(phi) == 1.0
    ensures Sum(IndelPrior(phi, x)) == 1.0 + x - 2.0 * x * phi[|phi| - 1]
    ensures Sum(IndelPrior(phi, x)) == 1.0 <==> (x == 0.0 || phi[|phi| - 1] == 0.5)
  {
    IndelPriorSum(phi, x);
    UnitMass(Sum(IndelPrior(phi, x)), x, phi[|phi| - 1]);
  }

  lemma UnitMass(s: real, x: real, p: real)
    requires s == 1.0 + x - 2.0 * x * p
    ensures s == 1.0 <==> (x == 0.0 || p == 0.5)
  {
    if x != 0.0 && p != 0.5 {
      var y := 1.0 - 2.0 * p;
      assert y != 0.0;
      assert x * y != 0.0;
      assert s == 1.0 + x * y;
    }
  }

  lemma IndelPriorSum(phi: seq<real>, x: real)
    requires |phi| > 0 && Sum(phi) == 1.0
    ensures Sum(IndelPrior(phi, x)) == 1.0 + x - 2.0 * x * phi[|phi| - 1]
  {
    assert Sum(phi[..|phi| - 1]) + phi[|phi| - 1] == 1.0;
    IndelSplit(phi, x);
  }

  /** The indel prior's mass is x times the SNP prior's first M entries
      plus its last entry 1 - x phi[M]. */
  lemma IndelSplit(phi: seq<real>, x: real)
    requires |phi| > 0 && Sum(phi[..|phi| - 1]) + phi[|phi| - 1] == 1.0
    ensures Sum(IndelPrior(phi, x)) == 1.0 + x - 2.0 * x * phi[|phi| - 1]
  {
    var h := IndelHead(phi, x);
    IndelArithmetic(Sum(IndelPrior(phi, x)), Sum(phi[..|phi| - 1]), phi[|phi| - 1], x);
  }

  /** The first M entries of the indel prior carry x times the SNP prior's. */
  lemma IndelHead(phi: seq<real>, x: real) returns (h: real)
    requires |phi| > 0
    ensures h == Sum(IndelPrior(phi, x)[..|phi| - 1])
    ensures h == Sum(phi[..|phi| - 1]) * x
  {
    h := Sum(IndelPrior(phi, x)[..|phi| - 1]);
    var m := |phi| - 1;
    var r := IndelPrior(phi, x);
    var t := Times(phi[..m], x);
    forall k | 0 <= k < m
      ensures r[..m][k] == t[k]
    {
    }
    assert r[..m] == t;
    SumTimes(phi[..m], x);
  }

  lemma IndelArithmetic(s: real, a: real, p: real, x: real)
    requires s == a * x + (1.0 - p * x) && a + p == 1.0
    ensures s == 1.0 + x - 2.0 * x * p
  {
    assert a * x == (1.0 - p) * x;
  }
}
