/** The allele-frequency engine of prob1.c: the per-site context
    bcf_p1aux_t as a class whose buffers are arrays allocated once by the
    constructor (bcf_p1_init), and the operations that fill them. */
module Prob1 {
  import opened RealSeq
  import opened Priors
  import opened Recursion
  import opened Passes
  import opened Summary
  import Ranking
  import Genotype
  import Contrast
  import opened Wrappers

  /** The C library functions the engine calls (log, exp, lgamma, pow and
      kf_gammaq, the regularised upper incomplete gamma function), passed
      in as values. */
  datatype Libm = Libm(log: real -> real, exp: real -> real, lgamma: real -> real,
                       pow: (real, real) -> real, gammaq: (real, real) -> real)

  /** pow(10, x) is positive, as it is for the real power function. */
  ghost predicate PowPositive(lib: Libm)
  {
    forall x: real :: lib.pow(10.0, x) > 0.0
  }

  /** q2p: the probability 10^(-q/10) of each Phred-scaled value q < 256. */
  function PhredTable(lib: Libm): (r: seq<real>)
    ensures |r| == 256
  {
    seq(256, q => lib.pow(10.0, -(q as real) / 10.0))
  }

  /** lf: lgamma(i + 1) = log(i!) for i in [0, M]. */
  function LogFactorials(lib: Libm, m: nat): (r: seq<real>)
    ensures |r| == m + 1
  {
    seq(m + 1, i => lib.lgamma((i + 1) as real))
  }

  /** Every entry is 0 (a calloc'ed buffer). */
  predicate Cleared(a: array<real>)
    reads a
  {
    forall i :: 0 <= i < a.Length ==> a[i] == 0.0
  }

  /** The indel rate bcf_p1_init_prior uses for the indel prior. */
  const DEF_INDEL: real := 0.15

  /** The sum, over samples 0 .. j-1, of the PL value at position `idx` of
      each sample's PL row (rows of `plLen` values, one after the other). */
  function ColumnSum(pl: seq<int>, plLen: nat, idx: nat, j: nat): int
    requires idx < plLen && j * plLen <= |pl|
  {
    if j == 0 then 0
    else
      RowBounds(j - 1, plLen);
      ColumnSum(pl, plLen, idx, j - 1) + pl[(j - 1) * plLen + idx]
  }

  lemma RowBounds(j: nat, plLen: nat)
    ensures (j + 1) * plLen == j * plLen + plLen
    ensures j * plLen >= 0
  {
  }

  /** Each allele's homozygous PL summed over the n samples. */
  function AlleleScores(pl: seq<int>, plLen: nat, n: nat, nAllele: nat): (r: seq<int>)
    requires nAllele >= 1 && Ranking.HomIndex(nAllele - 1) < plLen && n * plLen <= |pl|
    ensures |r| == nAllele
  {
    seq(nAllele, i requires 0 <= i < nAllele => AlleleScore(pl, plLen, nAllele, i, n))
  }

  /** Allele i's homozygous PL summed over samples 0 .. j-1. */
  function AlleleScore(pl: seq<int>, plLen: nat, nAllele: nat, i: nat, j: nat): int
    requires i < nAllele && Ranking.HomIndex(nAllele - 1) < plLen && j * plLen <= |pl|
  {
    HomIndexBelow(i, nAllele);
    ColumnSum(pl, plLen, Ranking.HomIndex(i) as nat, j)
  }

  /** Homozygous positions grow with the allele index. */
  lemma HomIndexBelow(i: nat, nAllele: nat)
    requires i < nAllele
    ensures 0 <= Ranking.HomIndex(i) <= Ranking.HomIndex(nAllele - 1)
  {
    Ranking.HomIndexIsDiagonal(i, i + 1);
    var a := (i + 1) * (i + 2);
    var b := nAllele * (nAllele + 1);
    Ranking.ProductMonotone(i + 1, i + 2, nAllele, nAllele + 1);
    assert a <= b;
    assert a / 2 <= b / 2;
  }

  /** P(D | g) of entry i of pdg: for sample j = i / 3 and g = i % 3 (the
      number of alternate alleles counted from the end), the PL value at
      position 2 - g of the sample's row, turned into a probability. */
  function Likelihood(q2p: seq<real>, pl: seq<int>, plLen: nat, n: nat, i: nat): (r: real)
    requires |q2p| == 256 && plLen >= 3 && i < 3 * n && n * plLen <= |pl|
    requires forall k :: 0 <= k < |pl| ==> 0 <= pl[k] < 256
    ensures Positive(q2p) ==> r > 0.0
  {
    SampleRow(i / 3, n, plLen);
    q2p[pl[(i / 3) * plLen + 2 - i % 3]]
  }

  /** Row j of n rows of plLen values lies inside the n * plLen values. */
  lemma SampleRow(j: nat, n: nat, plLen: nat)
    requires j < n
    ensures 0 <= j * plLen && j * plLen + plLen <= n * plLen
  {
    Ranking.ProductMonotone(j + 1, plLen, n, plLen);
  }

  /** Entry 3 j + g of pdg belongs to sample j, genotype g. */
  lemma EntryOfSample(j: nat, g: nat)
    requires g < 3
    ensures (3 * j + g) / 3 == j && (3 * j + g) % 3 == g
  {
  }


  /** The priors bcf_p1_init installs: FULL with theta = 0.001 over M
      chromosomes, and its indel counterpart with rate DEF_INDEL. */
  method DefaultPriors(m: nat) returns (phi: array<real>, phiIndel: array<real>)
    ensures fresh(phi) && fresh(phiIndel) && phi != phiIndel
    ensures phi[..] == Prior(Full, 0.001, m) && phiIndel[..] == IndelPrior(phi[..], DEF_INDEL)
  {
    phi := new real[m + 1];
    phiIndel := new real[m + 1];
    InitPrior(Full, 0.001, m, phi);
    InitIndelPrior(phi, phiIndel, m, DEF_INDEL);
    assert phi[..m + 1] == phi[..] && phiIndel[..m + 1] == phiIndel[..];
  }

  /** The calloc'ed buffers of bcf_p1_init: P(D|g) for n samples, and
      eight buffers of M + 1 entries, all distinct and all zero. */
  method CallocBuffers(n: nat, m: nat)
    returns (pdg: array<real>, phi1: array<real>, phi2: array<real>, z: array<real>, zswap: array<real>,
             z1: array<real>, z2: array<real>, afs: array<real>, afs1: array<real>)
    ensures fresh(pdg) && fresh(phi1) && fresh(phi2) && fresh(z) && fresh(zswap)
    ensures fresh(z1) && fresh(z2) && fresh(afs) && fresh(afs1)
    ensures pdg.Length == 3 * n
    ensures phi1.Length == phi2.Length == z.Length == zswap.Length == m + 1
    ensures z1.Length == z2.Length == afs.Length == afs1.Length == m + 1
    ensures phi1 != pdg
    ensures phi2 != pdg && phi2 != phi1
    ensures z != pdg && z != phi1 && z != phi2
    ensures zswap != pdg && zswap != phi1 && zswap != phi2 && zswap != z
    ensures z1 != pdg && z1 != phi1 && z1 != phi2 && z1 != z && z1 != zswap
    ensures z2 != pdg && z2 != phi1 && z2 != phi2 && z2 != z && z2 != zswap && z2 != z1
    ensures afs != pdg && afs != phi1 && afs != phi2 && afs != z && afs != zswap && afs != z1 && afs != z2
    ensures afs1 != pdg && afs1 != phi1 && afs1 != phi2 && afs1 != z && afs1 != zswap && afs1 != z1 && afs1 != z2 && afs1 != afs
    ensures Cleared(pdg) && Cleared(phi1) && Cleared(phi2) && Cleared(z) && Cleared(zswap)
    ensures Cleared(z1) && Cleared(z2) && Cleared(afs) && Cleared(afs1)
  {
    pdg := new real[3 * n](_ => 0.0);
    phi1 := new real[m + 1](_ => 0.0);
    phi2 := new real[m + 1](_ => 0.0);
    z := new real[m + 1](_ => 0.0);
    zswap := new real[m + 1](_ => 0.0);
    z1 := new real[m + 1](_ => 0.0);
    z2 := new real[m + 1](_ => 0.0);
    afs := new real[m + 1](_ => 0.0);
    afs1 := new real[m + 1](_ => 0.0);
  }

  /** Adds sample j's homozygous PL values to the running per-allele sums:
      p[i] += PL[(i + 1)(i + 2) / 2 - 1] of the sample's row. */
  method AddSample(p: array<int>, pl: seq<int>, plLen: nat, j: nat)
    requires p.Length >= 1 && Ranking.HomIndex(p.Length - 1) < plLen && (j + 1) * plLen <= |pl|
    requires forall k :: 0 <= k < p.Length ==> p[k] == AlleleScore(pl, plLen, p.Length, k, j)
    modifies p
    ensures forall k :: 0 <= k < p.Length ==> p[k] == AlleleScore(pl, plLen, p.Length, k, j + 1)
  {
    RowBounds(j, plLen);
    var base := j * plLen;
    for i := 0 to p.Length
      invariant forall k :: 0 <= k < i ==> p[k] == AlleleScore(pl, plLen, p.Length, k, j + 1)
      invariant forall k :: i <= k < p.Length ==> p[k] == AlleleScore(pl, plLen, p.Length, k, j)
    {
      HomIndexBelow(i, p.Length);
      p[i] := p[i] + pl[base + Ranking.HomIndex(i)];
    }
  }

  /** The P(D|g) entries of sample j: pdg[3 j + g] is the probability of
      the PL value at position 2 - g of the sample's row. */
  method FillSample(q2p: seq<real>, pl: seq<int>, plLen: nat, n: nat, pdg: array<real>, j: nat)
    requires |q2p| == 256 && pdg.Length == 3 * n && j < n && plLen >= 3 && n * plLen <= |pl|
    requires forall k :: 0 <= k < |pl| ==> 0 <= pl[k] < 256
    modifies pdg
    ensures forall i :: 3 * j <= i < 3 * j + 3 ==> pdg[i] == Likelihood(q2p, pl, plLen, n, i)
    ensures forall i :: 0 <= i < 3 * n && !(3 * j <= i < 3 * j + 3) ==> pdg[i] == old(pdg[i])
  {
    SampleRow(j, n, plLen);
    var base := j * plLen;
    pdg[3 * j] := q2p[pl[base + 2]];
    pdg[3 * j + 1] := q2p[pl[base + 1]];
    pdg[3 * j + 2] := q2p[pl[base]];
    EntryOfSample(j, 0);
    EntryOfSample(j, 1);
    EntryOfSample(j, 2);
  }

  /** The sample loop of cal_pdg: pdg from the PL values, and each
      allele's homozygous PL summed over the samples. */
  method FillPdg(q2p: seq<real>, pl: seq<int>, plLen: nat, n: nat, nAllele: nat, pdg: array<real>)
    returns (p: array<int>)
    requires |q2p| == 256 && pdg.Length == 3 * n && nAllele >= 1
    requires plLen >= 3 && Ranking.HomIndex(nAllele - 1) < plLen && n * plLen <= |pl|
    requires forall k :: 0 <= k < |pl| ==> 0 <= pl[k] < 256
    modifies pdg
    ensures fresh(p) && p[..] == AlleleScores(pl, plLen, n, nAllele)
    ensures forall i :: 0 <= i < 3 * n ==> pdg[i] == Likelihood(q2p, pl, plLen, n, i)
  {
    p := new int[nAllele](_ => 0);
    for j := 0 to n
      invariant forall i :: 0 <= i < 3 * j ==> pdg[i] == Likelihood(q2p, pl, plLen, n, i)
      invariant forall i :: 0 <= i < nAllele ==> p[i] == AlleleScore(pl, plLen, nAllele, i, j)
    {
      SampleRow(j, n, plLen);
      RowBounds(j, plLen);
      FillSample(q2p, pl, plLen, n, pdg, j);
      AddSample(p, pl, plLen, j);
    }
    assert p[..] == AlleleScores(pl, plLen, n, nAllele);
  }

  /** memset(a, 0, len): the first len entries become 0, the rest stay. */
  method ClearPrefix(a: array<real>, len: nat)
    requires len <= a.Length
    modifies a
    ensures forall i :: 0 <= i < len ==> a[i] == 0.0
    ensures a[len..] == old(a[len..])
  {
    for i := 0 to len
      invariant forall k :: 0 <= k < i ==> a[k] == 0.0
      invariant a[len..] == old(a[len..])
    {
      a[i] := 0.0;
    }
  }

  /** Multiplies every entry by x. */
  method Scale(a: array<real>, x: real)
    modifies a
    ensures a[..] == Times(old(a[..]), x)
  {
    ghost var before := a[..];
    for k := 0 to a.Length
      invariant forall i :: 0 <= i < k ==> a[i] == before[i] * x
      invariant forall i :: k <= i < a.Length ==> a[i] == before[i]
    {
      a[k] := a[k] * x;
    }
    assert forall i :: 0 <= i < a.Length ==> a[..][i] == Times(before, x)[i];
  }

  /** The spectrum part of mc_cal_afs, once z holds the likelihood of each
      allele count: with s = sum of phi[k] z[k], nothing happens and the
      result is -1 when s is 0 (where C meets 0 / 0); otherwise afs1 becomes
      the posterior phi[k] z[k] / s, which sums to 1, it is added to afs,
      the folded variant and reference probabilities are the inner and the
      end mass of the folded prior times z, and the result is the expected
      allele frequency sum of k afs1[k] / M. The prior and z are only read,
      so they come in as values. */
  method Afs(phi: seq<real>, z: seq<real>, afs: array<real>, afs1: array<real>, m: nat,
             prevRef: real, prevVar: real)
    returns (fExp: real, pRefFolded: real, pVarFolded: real)
    requires m >= 1 && |phi| == m + 1 && |z| == m + 1 && afs.Length == m + 1 && afs1.Length == m + 1
    requires afs != afs1
    modifies afs, afs1
    ensures Sum(Products(phi, z)) == 0.0 ==>
      fExp == -1.0 && pRefFolded == prevRef && pVarFolded == prevVar
      && afs[..] == old(afs[..]) && afs1[..] == old(afs1[..])
    ensures Sum(Products(phi, z)) != 0.0 ==>
      afs1[..] == Scaled(Products(phi, z), Sum(Products(phi, z))) && Sum(afs1[..]) == 1.0
    ensures Sum(Products(phi, z)) != 0.0 ==>
      forall k :: 0 <= k <= m ==> afs[k] == old(afs[k]) + afs1[k]
    ensures Sum(Products(phi, z)) != 0.0 ==> fExp == Moment(afs1[..]) / m as real
    ensures Sum(Products(phi, z)) > 0.0 && NonNegative(phi) && NonNegative(z) ==>
      NonNegative(afs1[..]) && 0.0 <= fExp <= 1.0
    ensures Sum(Products(phi, z)) != 0.0 ==>
      pVarFolded == FoldedVar(phi, z) && pRefFolded == FoldedRef(phi, z)
      && (Sum(Products(Folded(phi), z)) != 0.0 ==> pRefFolded + pVarFolded == 1.0)
  {
    var sum := ProductSum(phi, z, m);
    assert phi[..m + 1] == phi && z[..m + 1] == z;
    if sum == 0.0 {
      return -1.0, prevRef, prevVar;
    }
    fExp, pRefFolded, pVarFolded := Posterior(phi, z, afs, afs1, m, sum);
  }

  /** The non-zero case of Afs, given the total s of phi[k] z[k]. */
  method Posterior(phi: seq<real>, z: seq<real>, afs: array<real>, afs1: array<real>, m: nat, sum: real)
    returns (fExp: real, pRefFolded: real, pVarFolded: real)
    requires m >= 1 && |phi| == m + 1 && |z| == m + 1 && afs.Length == m + 1 && afs1.Length == m + 1
    requires afs != afs1 && sum == Sum(Products(phi, z)) && sum != 0.0
    modifies afs, afs1
    ensures afs1[..] == Scaled(Products(phi, z), sum) && Sum(afs1[..]) == 1.0
    ensures forall k :: 0 <= k <= m ==> afs[k] == old(afs[k]) + afs1[k]
    ensures fExp == Moment(afs1[..]) / m as real
    ensures sum > 0.0 && NonNegative(phi) && NonNegative(z) ==>
      NonNegative(afs1[..]) && 0.0 <= fExp <= 1.0
    ensures pVarFolded == FoldedVar(phi, z) && pRefFolded == FoldedRef(phi, z)
    ensures Sum(Products(Folded(phi), z)) != 0.0 ==> pRefFolded + pVarFolded == 1.0
  {
    NormaliseSpectrum(phi, z, afs1, sum);
    ScaledSumsToOne(Products(phi, z), sum);
    ghost var post := afs1[..];
    if sum > 0.0 && NonNegative(phi) && NonNegative(z) {
      ScaledNonNegative(Products(phi, z), sum);
    }
    pRefFolded, pVarFolded := FoldedProbabilities(phi, z, m);
    Accumulate(afs, afs1);
    assert afs1[..] == post;
    fExp := ExpectedFrequency(afs1, m);
  }

  /** afs1[k] = phi[k] z[k] / sum. */
  method NormaliseSpectrum(phi: seq<real>, z: seq<real>, afs1: array<real>, sum: real)
    requires |phi| == |z| == afs1.Length && sum != 0.0
    modifies afs1
    ensures afs1[..] == Scaled(Products(phi, z), sum)
  {
    ghost var p := Products(phi, z);
    for k := 0 to afs1.Length
      invariant forall i :: 0 <= i < k ==> afs1[i] == p[i] / sum
    {
      afs1[k] := phi[k] * z[k] / sum;
    }
    assert forall i :: 0 <= i < afs1.Length ==> afs1[..][i] == Scaled(p, sum)[i];
  }

  /** Dividing by the total makes a distribution. */
  lemma ScaledSumsToOne(p: seq<real>, s: real)
    requires s != 0.0 && s == Sum(p)
    ensures Sum(Scaled(p, s)) == 1.0
  {
    SumScaled(p, s);
    assert s / s == 1.0;
  }

  /** Dividing non-negative entries by a positive total keeps them
      non-negative. */
  lemma ScaledNonNegative(p: seq<real>, s: real)
    requires s > 0.0 && NonNegative(p)
    ensures NonNegative(Scaled(p, s))
  {
    forall i | 0 <= i < |p|
      ensures Scaled(p, s)[i] >= 0.0
    {
      assert p[i] >= 0.0;
    }
  }

  /** The folded variant probability (inner mass) and reference
      probability (end mass) of mc_cal_afs; they add up to 1 whenever the
      folded total is not 0. */
  method FoldedProbabilities(phi: seq<real>, z: seq<real>, m: nat)
    returns (pRefFolded: real, pVarFolded: real)
    requires m >= 1 && |phi| == m + 1 && |z| == m + 1
    ensures pVarFolded == FoldedVar(phi, z) && pRefFolded == FoldedRef(phi, z)
    ensures Sum(Products(Folded(phi), z)) != 0.0 ==> pRefFolded + pVarFolded == 1.0
  {
    hide Sum, Products;
    var sF := FoldedSum(phi, z, m);
    var s2 := FoldedInnerSum(phi, z, m);
    assert phi[..m + 1] == phi && z[..m + 1] == z;
    pVarFolded := CDiv(s2, sF);
    var end := (phi[m] + phi[0]) / 2.0;
    assert Folded(phi)[m] == end;
    pRefFolded := CDiv(end * (z[m] + z[0]), sF);
    if sF != 0.0 {
      FoldedComplement(phi, z);
    }
  }

  /** afs[k] += afs1[k]. */
  method Accumulate(afs: array<real>, afs1: array<real>)
    requires afs.Length == afs1.Length && afs != afs1
    modifies afs
    ensures forall k :: 0 <= k < afs.Length ==> afs[k] == old(afs[k]) + afs1[k]
  {
    for k := 0 to afs.Length
      invariant forall i :: 0 <= i < k ==> afs[i] == old(afs[i]) + afs1[i]
      invariant forall i :: k <= i < afs.Length ==> afs[i] == old(afs[i])
    {
      afs[k] := afs[k] + afs1[k];
    }
  }

  /** The expected allele frequency sum of k afs1[k] / M, which lies in
      [0, 1] when afs1 is a distribution. */
  method ExpectedFrequency(afs1: array<real>, m: nat) returns (fExp: real)
    requires m >= 1 && afs1.Length == m + 1
    ensures fExp == Moment(afs1[..]) / m as real
    ensures NonNegative(afs1[..]) && Sum(afs1[..]) == 1.0 ==> 0.0 <= fExp <= 1.0
  {
    var mom := MomentSum(afs1[..], m);
    assert afs1[..][..m + 1] == afs1[..];
    fExp := mom / m as real;
    if NonNegative(afs1[..]) && Sum(afs1[..]) == 1.0 {
      MomentBounds(afs1[..]);
      QuotientOrder(0.0, mom, m as real);
      QuotientOrder(mom, m as real, m as real);
    }
  }

  /** The spectrum fields of a result from prior times z: with a zero
      total, f_exp is -1 and the folded probabilities stay those of the
      previous site; otherwise afs1 is the normalised product, f_exp its
      mean frequency and the folded probabilities those of Afs. */
  ghost predicate FromSpectrum(prior: seq<real>, z: seq<real>, afs1: seq<real>, prev: Result, rst: Result)
    requires |prior| == |z| == |afs1| >= 2
  {
    (Sum(Products(prior, z)) == 0.0 ==>
       rst.fExp == -1.0 && rst.pRefFolded == prev.pRefFolded && rst.pVarFolded == prev.pVarFolded)
    && (Sum(Products(prior, z)) != 0.0 ==>
          afs1 == Scaled(Products(prior, z), Sum(Products(prior, z)))
          && rst.fExp == Moment(afs1) / (|z| - 1) as real
          && rst.pVarFolded == FoldedVar(prior, z) && rst.pRefFolded == FoldedRef(prior, z))
  }

  /** What bcf_p1_cal reads off the spectrum afs1 and the likelihoods z,
      z1 and z2 (z1 and z2 over the 2 n1 and M - 2 n1 chromosomes of the
      two groups): the reference and variant masses, the allele count of
      the first maximum, the flat-prior frequency, the interval and the
      likelihood-ratio p-value, which is -1 without groups. */
  ghost predicate SpectrumRead(afs1: seq<real>, z: seq<real>, z1: seq<real>, z2: seq<real>,
                               m: nat, n1: int, lib: Libm, rst: Result)
    requires m >= 1 && |afs1| == |z| == |z1| == |z2| == m + 1 && (n1 > 0 ==> 2 * n1 <= m)
  {
    rst.permRank == -1
    && rst.pVar == Sum(afs1[..m]) && rst.pRef + rst.pVar == Sum(afs1)
    && rst.fFlat == CDiv(Moment(z), Sum(z)) / m as real
    && (NonNegative(z) && Sum(z) > 0.0 ==> 0.0 <= rst.fFlat <= 1.0)
    && (rst.ac == m + 1 <==> forall i :: 0 <= i <= m ==> z[i] <= -1.0)
    && (NonNegative(z) ==>
          0 <= rst.ac <= m && z[m - rst.ac] == Peak(z, -1.0) && forall i :: 0 <= i < m - rst.ac ==> z[i] < z[m - rst.ac])
    && (exists l, h :: TailEnds(afs1, l, h)
          && rst.cil == (m - h) as real / m as real && rst.cih == (m - l) as real / m as real)
    && (Sum(afs1) == 1.0 ==> 0.0 <= rst.cil <= rst.cih <= 1.0)
    && (n1 > 0 ==> rst.lrt == LrtPValue(lib.log, lib.gammaq, Peak(z, -1.0),
                                        Peak(z1[..2 * n1 + 1], -1.0), Peak(z2[..m - 2 * n1 + 1], -1.0)))
    && (n1 <= 0 ==> rst.lrt == -1.0)
  }

  /** The contrast fields play no part in what is read off the spectrum. */
  lemma ContrastKeepsSpectrum(afs1: seq<real>, z: seq<real>, z1: seq<real>, z2: seq<real>,
                              m: nat, n1: int, lib: Libm, rst: Result, pChi2: real, cmp: seq<real>)
    requires m >= 1 && |afs1| == |z| == |z1| == |z2| == m + 1 && (n1 > 0 ==> 2 * n1 <= m)
    requires SpectrumRead(afs1, z, z1, z2, m, n1, lib, rst)
    ensures SpectrumRead(afs1, z, z1, z2, m, n1, lib, rst.(pChi2 := pChi2, cmp := cmp))
  {
  }

  /** The part of bcf_p1_cal after mc_cal_afs and before contrast2; the
      contrast fields are left at -1. */
  method ReadSpectrum(afs1: seq<real>, z: seq<real>, z1: seq<real>, z2: seq<real>,
                      m: nat, n1: int, lib: Libm,
                      rank0: int, fExp: real, pRefFolded: real, pVarFolded: real)
    returns (rst: Result)
    requires m >= 1 && |afs1| == |z| == |z1| == |z2| == m + 1 && (n1 > 0 ==> 2 * n1 <= m)
    ensures SpectrumRead(afs1, z, z1, z2, m, n1, lib, rst)
    ensures rst.rank0 == rank0 && rst.fExp == fExp
    ensures rst.pRefFolded == pRefFolded && rst.pVarFolded == pVarFolded
    ensures rst.cmp == [-1.0, -1.0, -1.0] && rst.pChi2 == -1.0
  {
    var pRef, pVar := RefVarMass(afs1, m);
    var ac := AlleleCount(z, m);
    var fFlat := FlatFrequency(z, m);
    var cil, cih, l, h := Interval(afs1, m);
    var lrt := -1.0;
    if n1 > 0 {
      lrt := LikelihoodRatio(z, z1, z2, m, n1, lib.log, lib.gammaq);
    }
    rst := Result(rank0, -1, fExp, fFlat, pRefFolded, pVarFolded, pRef, pVar,
                  ac, cil, cih, lrt, -1.0, [-1.0, -1.0, -1.0]);
  }

  /** The result record of bcf_p1_cal. */
  datatype Result = Result(rank0: int, permRank: int, fExp: real, fFlat: real,
                           pRefFolded: real, pVarFolded: real, pRef: real, pVar: real,
                           ac: int, cil: real, cih: real, lrt: real, pChi2: real, cmp: seq<real>)

  class P1Aux {
    /** Number of samples and number of chromosomes M. */
    const n: nat
    const m: nat
    /** Per-sample ploidy; None when M == 2n, in which case every sample is
        treated as diploid. */
    const ploidy: Option<seq<nat>>
    const lib: Libm
    /** PL -> probability table, P(D|g) of every sample, the SNP and indel
        priors, the two subpriors, the distribution buffers, the
        accumulated and the last allele-frequency spectra, and the
        log-factorials. */
    const q2p: seq<real>
    const pdg: array<real>
    const phi: array<real>
    const phiIndel: array<real>
    const phi1: array<real>
    const phi2: array<real>
    const z: array<real>
    const zswap: array<real>
    const z1: array<real>
    const z2: array<real>
    const afs: array<real>
    const afs1: array<real>
    const lf: seq<real>
    /** Size of the first group for the contrast, -1 when unset. */
    var n1: int
    var isIndel: bool
    /** Log of the normalisers of the whole cohort and of the two groups. */
    var t: real
    var t1: real
    var t2: real
    /** The hypergeometric table of contrast2, built on first use. */
    var hg: Option<seq<seq<real>>>
    /** The PL values of the current site and their number per sample. */
    var pl: seq<int>
    var plLen: nat

    /** The buffers have the sizes bcf_p1_init gives them and are distinct;
        M is 2n or the total of the kept ploidies; the first group is unset
        or a proper, non-empty part of a diploid cohort. */
    ghost predicate Valid()
      reads this`n1
    {
      |q2p| == 256 && Positive(q2p) && |lf| == m + 1 && pdg.Length == 3 * n
      && phi.Length == m + 1 && phiIndel.Length == m + 1 && phi1.Length == m + 1
      && phi2.Length == m + 1 && z.Length == m + 1 && zswap.Length == m + 1
      && z1.Length == m + 1 && z2.Length == m + 1 && afs.Length == m + 1
      && afs1.Length == m + 1
      && phi != pdg
      && phiIndel != pdg && phiIndel != phi
      && phi1 != pdg && phi1 != phi && phi1 != phiIndel
      && phi2 != pdg && phi2 != phi && phi2 != phiIndel && phi2 != phi1
      && z != pdg && z != phi && z != phiIndel && z != phi1 && z != phi2
      && zswap != pdg && zswap != phi && zswap != phiIndel && zswap != phi1 && zswap != phi2 && zswap != z
      && z1 != pdg && z1 != phi && z1 != phiIndel && z1 != phi1 && z1 != phi2 && z1 != z && z1 != zswap
      && z2 != pdg && z2 != phi && z2 != phiIndel && z2 != phi1 && z2 != phi2 && z2 != z && z2 != zswap && z2 != z1
      && afs != pdg && afs != phi && afs != phiIndel && afs != phi1 && afs != phi2 && afs != z && afs != zswap && afs != z1 && afs != z2
      && afs1 != pdg && afs1 != phi && afs1 != phiIndel && afs1 != phi1 && afs1 != phi2 && afs1 != z && afs1 != zswap && afs1 != z1 && afs1 != z2 && afs1 != afs
      && (ploidy.None? <==> m == 2 * n)
      && (ploidy.Some? ==> |ploidy.value| == n && Total(ploidy.value) == m)
      && (n1 == -1 || (n1 != 0 && n1 < n && m == 2 * n))
    }

    /** The hypergeometric table, once contrast2 has built it, is the one
        for the current groups. */
    ghost predicate TableFits()
      reads this`n1, this`hg
    {
      hg.Some? ==> 0 < n1 < n && hg.value == Contrast.HgTable(lib.lgamma, lib.exp, n1, n - n1, m)
    }

    /** bcf_p1_init: M is 2n, or the total of the given ploidies; the
        ploidies are dropped when they add up to 2n. Every buffer starts at
        0, q2p[i] = 10^(-i/10), lf[i] = lgamma(i + 1), and the priors are
        FULL with theta = 0.001 and its indel counterpart. */
    constructor (nSmpl: nat, ploidyIn: Option<seq<nat>>, lib: Libm)
      requires ploidyIn.Some? ==> |ploidyIn.value| == nSmpl
      requires PowPositive(lib)
      ensures Valid()
      ensures n == nSmpl && n1 == -1 && this.lib == lib
      ensures m == if ploidyIn.Some? then Total(ploidyIn.value) else 2 * nSmpl
      ensures ploidy == if ploidyIn.Some? && m != 2 * nSmpl then ploidyIn else None
      ensures q2p == PhredTable(lib) && lf == LogFactorials(lib, m)
      ensures phi[..] == Prior(Full, 0.001, m) && phiIndel[..] == IndelPrior(phi[..], DEF_INDEL)
      ensures Cleared(pdg) && Cleared(phi1) && Cleared(phi2)
      ensures Cleared(z) && Cleared(zswap) && Cleared(z1) && Cleared(z2)
      ensures Cleared(afs) && Cleared(afs1)
      ensures t == 0.0 && t1 == 0.0 && t2 == 0.0 && hg.None? && !isIndel
    {
      var mm := if ploidyIn.Some? then Total(ploidyIn.value) else 2 * nSmpl;
      n := nSmpl;
      m := mm;
      ploidy := if ploidyIn.Some? && mm != 2 * nSmpl then ploidyIn else None;
      this.lib := lib;
      n1 := -1;
      isIndel := false;
      t, t1, t2 := 0.0, 0.0, 0.0;
      hg := None;
      pl, plLen := [], 0;
      q2p := PhredTable(lib);
      lf := LogFactorials(lib, mm);
      var phi0, phiIndel0 := DefaultPriors(mm);
      phi, phiIndel := phi0, phiIndel0;
      var b0, b1, b2, b3, b4, b5, b6, b7, b8 := CallocBuffers(nSmpl, mm);
      pdg, phi1, phi2, z, zswap, z1, z2, afs, afs1 := b0, b1, b2, b3, b4, b5, b6, b7, b8;
    }

    /** bcf_p1_set_n1: accepted, with result 0, unless n1 is 0, n1 >= n, or
        some sample is not diploid (M != 2n); then -1 and nothing changes.
        A negative n1 is accepted and leaves the groups unset. */
    method SetN1(newN1: int) returns (r: int)
      requires Valid() && hg.None?
      modifies this`n1
      ensures Valid()
      ensures r == 0 <==> newN1 != 0 && newN1 < n && m == 2 * n
      ensures r == 0 || r == -1
      ensures n1 == if r == 0 then newN1 else old(n1)
    {
      if newN1 == 0 || newN1 >= n {
        return -1;
      }
      if m != 2 * n {
        return -1;
      }
      n1 := newN1;
      r := 0;
    }

    /** bcf_p1_init_prior: phi becomes the prior of the given shape and
        phi_indel its indel counterpart with rate DEF_INDEL. */
    method InitPriors(ptype: PriorType, theta: real)
      requires Valid()
      modifies phi, phiIndel
      ensures Valid()
      ensures phi[..] == Prior(ptype, theta, m)
      ensures phiIndel[..] == IndelPrior(phi[..], DEF_INDEL)
    {
      InitPrior(ptype, theta, m, phi);
      assert phi[..m + 1] == phi[..];
      SetIndelPrior(DEF_INDEL);
    }

    /** bcf_p1_indel_prior: phi_indel[i] = x phi[i] below M, and
        1 - x phi[M] at M. */
    method SetIndelPrior(x: real)
      requires Valid()
      modifies phiIndel
      ensures Valid()
      ensures phiIndel[..] == IndelPrior(phi[..], x)
    {
      InitIndelPrior(phi, phiIndel, m, x);
      assert phi[..m + 1] == phi[..] && phiIndel[..m + 1] == phiIndel[..];
    }

    /** bcf_p1_init_subprior: when the first group is set (0 < n1 < M), the
        two group priors over 2 n1 and 2 (n - n1) chromosomes; otherwise
        nothing. */
    method InitSubprior(ptype: PriorType, theta: real)
      requires Valid()
      modifies phi1, phi2
      ensures Valid()
      ensures n1 <= 0 || n1 >= m ==> phi1[..] == old(phi1[..]) && phi2[..] == old(phi2[..])
      ensures 0 < n1 < m ==>
        phi1[..2 * n1 + 1] == Prior(ptype, theta, 2 * n1)
        && phi1[2 * n1 + 1..] == old(phi1[2 * n1 + 1..])
        && phi2[..2 * (n - n1) + 1] == Prior(ptype, theta, 2 * (n - n1))
        && phi2[2 * (n - n1) + 1..] == old(phi2[2 * (n - n1) + 1..])
    {
      if n1 <= 0 || n1 >= m {
        return;
      }
      InitPrior(ptype, theta, 2 * n1, phi1);
      InitPrior(ptype, theta, 2 * (n - n1), phi2);
    }

    /** cal_pdg: for each sample, pdg gets the probabilities of its PL
        values at positions 2, 1, 0 (so that pdg index = number of
        alternate alleles counted from the hom-alt end), each allele's
        homozygous PL is summed over the samples, and the alleles are
        ranked. With at most 16 alleles the rank is the number of alleles
        whose summed PL is strictly below the reference allele's. */
    method CalPdg(nAllele: nat) returns (rank: int)
      requires Valid() && nAllele >= 1
      requires plLen >= 3 && Ranking.HomIndex(nAllele - 1) < plLen && n * plLen <= |pl|
      requires forall k :: 0 <= k < |pl| ==> 0 <= pl[k] < 256
      modifies pdg
      ensures Valid()
      ensures forall i :: 0 <= i < 3 * n ==> pdg[i] == Likelihood(q2p, pl, plLen, n, i)
      ensures Positive(pdg[..])
      ensures 0 <= rank < nAllele
      ensures nAllele <= 16 ==>
        rank == Ranking.CountBelow(AlleleScores(pl, plLen, n, nAllele), AlleleScores(pl, plLen, n, nAllele)[0])
    {
      var p := FillPdg(q2p, pl, plLen, n, nAllele, pdg);
      ColumnSumsNonNegative(pl, plLen, n, nAllele);
      assert forall i :: 0 <= i < 3 * n ==> pdg[..][i] > 0.0;
      rank := Ranking.RankAlleles(p);
    }

    /** bcf_p1_call_gt for sample k: the genotype call of the sample's
        P(D|g) under reference-allele frequency f0 and the sample's ploidy
        (2 when no ploidies are kept). */
    method CallGt(f0: real, k: nat, isVar: bool) returns (r: int)
      requires Valid() && k < n && 0.0 <= f0 <= 1.0
      requires pdg[3 * k] > 0.0 && pdg[3 * k + 1] > 0.0 && pdg[3 * k + 2] > 0.0
      ensures Sum(Genotype.Joint(pdg[3 * k..3 * k + 3], Genotype.GenotypeWeights(f0, SamplePloidy(k)))) > 0.0
      ensures 0 <= r % 4 <= 2 && r / 4 <= 99
      ensures isVar ==> Genotype.IsFirstArgMax(Genotype.Posterior(pdg[3 * k..3 * k + 3],
                          Genotype.GenotypeWeights(f0, SamplePloidy(k))), r % 4)
      ensures !isVar ==> r % 4 == 2
      ensures SamplePloidy(k) != 2 ==> r % 4 != 1
    {
      var g := pdg[3 * k..3 * k + 3];
      assert forall i :: 0 <= i < 3 ==> g[i] > 0.0;
      r := Genotype.CallGenotype(g, SamplePloidy(k), f0, isVar, lib.log);
      if SamplePloidy(k) != 2 {
        Genotype.HaploidNeverHet(g, SamplePloidy(k), f0, isVar, r);
      }
    }

    function SamplePloidy(k: nat): nat
      requires Valid() && k < n
      reads this`n1
    {
      if ploidy.Some? then ploidy.value[k] else 2
    }

    /** The likelihoods are positive, M fits in a C int, and every kept
        ploidy is 1 or 2: then each pass normalises its window to a
        distribution. */
    ghost predicate Regular()
      requires Valid()
      reads this`n1, pdg
    {
      Positive(pdg[..]) && m < 0x8000_0000 && (ploidy.Some? ==> OneOrTwo(ploidy.value))
    }

    /** What the passes need of the buffers. */
    lemma PassBuffers()
      requires Valid()
      ensures z != zswap && z1 != z && z1 != zswap && z2 != z && z2 != zswap && z2 != z1
      ensures pdg != z && pdg != zswap && pdg != z1 && pdg != z2
      ensures z.Length == m + 1 && zswap.Length == m + 1 && z1.Length == m + 1 && z2.Length == m + 1
      ensures pdg.Length == 3 * n
      ensures (ploidy.None? <==> m == 2 * n) && (ploidy.Some? ==> |ploidy.value| == n && Total(ploidy.value) == m)
      ensures n1 == -1 || (n1 != 0 && n1 < n && m == 2 * n)
    {
    }

    /** The pass from sample `beg` passes sample n1 - 1, where the first
        group's distribution is taken. */
    predicate Splits(beg: nat)
      reads this`n1
    {
      m == 2 * n && beg < n1
    }

    /** What mc_cal_y_core computes from sample `beg` on, on values: the
        all-diploid pass over samples beg .. n-1, or the mixed-ploidy pass
        over every sample. */
    ghost function CoreState(beg: nat): (p: Pass)
      requires Valid() && beg <= n && (beg == 0 || m == 2 * n)
      reads this`n1, pdg
      ensures |p.buf.cur| == |p.buf.nxt| == m + 1 && 0 <= p.buf.lo <= p.buf.hi <= m
    {
      if m == 2 * n then UniformState(pdg[..], n, beg, n)
      else
        assert ploidy.value[..n] == ploidy.value;
        MixedState(pdg[..], ploidy.value, n)
    }

    /** The all-diploid pass from sample `beg` when it has just passed
        sample n1 - 1. */
    ghost function SplitState(beg: nat): (p: Pass)
      requires Valid() && Splits(beg)
      reads this`n1, pdg
    {
      UniformState(pdg[..], n, beg, n1)
    }

    /** CoreState and SplitState spelled out. */
    lemma CoreStateIs(beg: nat)
      requires Valid() && beg <= n && (beg == 0 || m == 2 * n)
      ensures m == 2 * n ==> CoreState(beg) == UniformState(pdg[..], n, beg, n)
      ensures m != 2 * n ==> ploidy.Some? && CoreState(beg) == MixedState(pdg[..], ploidy.value, n)
      ensures Splits(beg) <==> m == 2 * n && beg < n1
      ensures Splits(beg) ==> SplitState(beg) == UniformState(pdg[..], n, beg, n1)
    {
    }

    /** Non-negative likelihoods keep the pass non-negative; regular ones
        make its window a distribution and its normalisers positive. */
    lemma CoreStateShape(beg: nat)
      requires Valid() && beg <= n && (beg == 0 || m == 2 * n)
      ensures NonNegative(pdg[..]) ==> NonNegative(CoreState(beg).buf.cur) && NonNegative(CoreState(beg).buf.nxt)
      ensures Regular() ==>
        Window(CoreState(beg).buf.cur, CoreState(beg).buf.lo, CoreState(beg).buf.hi) && Positive(CoreState(beg).norms)
      ensures Splits(beg) && NonNegative(pdg[..]) ==> NonNegative(SplitState(beg).buf.cur[..2 * n1 + 1])
      ensures Splits(beg) && Regular() ==>
        Window(SplitState(beg).buf.cur[..2 * n1 + 1], SplitState(beg).buf.lo, SplitState(beg).buf.hi)
    {
      hide UniformState, UniformAfter, UniformSample, MixedState, MixedAfter, MixedSample, DiploidNext, HaploidNext, PruneNext, Start, Appended;
      if Regular() {
        PositiveNonNegative(pdg[..]);
      }
      if !NonNegative(pdg[..]) {
        return;
      }
      if m == 2 * n {
        UniformStateSign(pdg[..], n, beg, n);
        if Regular() {
          UniformStateWindow(pdg[..], n, beg, n);
        }
        if Splits(beg) {
          var b := SplitState(beg).buf;
          UniformStateSign(pdg[..], n, beg, n1);
          assert NonNegative(b.cur[..2 * n1 + 1]) by {
            assert forall i :: 0 <= i < 2 * n1 + 1 ==> b.cur[..2 * n1 + 1][i] == b.cur[i];
          }
          if Regular() {
            UniformStateWindow(pdg[..], n, beg, n1);
            WindowPrefix(b.cur, b.lo, b.hi, 2 * n1 + 1);
          }
        }
      } else {
        assert ploidy.value[..n] == ploidy.value;
        MixedStateSign(pdg[..], ploidy.value, n);
        if Regular() {
          MixedStateWindow(pdg[..], ploidy.value, n);
        }
      }
    }

    /** The all-diploid branch of mc_cal_y_core: the pass from sample
        `beg`, the first group's values taken on the way, the result copied
        into z. */
    method UniformRun(beg: nat)
      requires Valid() && beg <= n && m == 2 * n
      modifies this`t, this`t1, z, zswap, z1
      ensures z[..] == UniformState(pdg[..], n, beg, n).buf.cur && t == LogSum(lib.log, UniformState(pdg[..], n, beg, n).norms)
      ensures zswap[..] == UniformState(pdg[..], n, beg, n).buf.cur || zswap[..] == UniformState(pdg[..], n, beg, n).buf.nxt
      ensures beg < n1 ==>
        t1 == LogSum(lib.log, UniformState(pdg[..], n, beg, n1).norms)
        && z1[..2 * n1 + 1] == UniformState(pdg[..], n, beg, n1).buf.cur[..2 * n1 + 1]
        && z1[2 * n1 + 1..] == old(z1[2 * n1 + 1..])
      ensures !(beg < n1) ==> t1 == old(t1) && z1[..] == old(z1[..])
    {
      hide *;
      PassBuffers();
      var cur, lo, hi, tt, hit, tt1 := UniformPass(z, zswap, z1, pdg, n, beg, n1, lib.log);
      t := tt;
      if hit {
        t1 := tt1;
      }
      if cur != z {
        ghost var before := cur[..];
        CopyPrefix(cur, z, m + 1);
        assert z[..] == z[..m + 1] && before == cur[..m + 1];
      }
    }

    /** The mixed-ploidy branch of mc_cal_y_core: the pass over every
        sample, the result copied into z. */
    method MixedRun()
      requires Valid() && m != 2 * n
      modifies this`t, z, zswap
      ensures ploidy.Some?
      ensures z[..] == MixedState(pdg[..], ploidy.value, n).buf.cur && t == LogSum(lib.log, MixedState(pdg[..], ploidy.value, n).norms)
      ensures zswap[..] == MixedState(pdg[..], ploidy.value, n).buf.cur || zswap[..] == MixedState(pdg[..], ploidy.value, n).buf.nxt
    {
      hide *;
      PassBuffers();
      var cur, lo, hi;
      cur, lo, hi, t := MixedPass(z, zswap, pdg, ploidy.value, lib.log);
      if cur != z {
        ghost var before := cur[..];
        CopyPrefix(cur, z, m + 1);
        assert z[..] == z[..m + 1] && before == cur[..m + 1];
      }
    }

    /** mc_cal_y_core: the pass from sample `beg` (see CoreState) ends up
        in z, and t is the sum of the logs of its normalisers. When the
        pass crosses sample n1 - 1, t1 and z1[0 .. 2 n1] take the running
        values there; the rest of z1 is left alone. */
    method CalYCore(beg: nat)
      requires Valid() && beg <= n && (beg == 0 || m == 2 * n)
      modifies this`t, this`t1, z, zswap, z1
      ensures Valid()
      ensures z[..] == CoreState(beg).buf.cur && t == LogSum(lib.log, CoreState(beg).norms)
      ensures zswap[..] == CoreState(beg).buf.cur || zswap[..] == CoreState(beg).buf.nxt
      ensures Splits(beg) ==>
        t1 == LogSum(lib.log, SplitState(beg).norms) && z1[..2 * n1 + 1] == SplitState(beg).buf.cur[..2 * n1 + 1]
      ensures !Splits(beg) ==> t1 == old(t1) && z1[..] == old(z1[..])
      ensures Splits(beg) ==> z1[2 * n1 + 1..] == old(z1[2 * n1 + 1..])
      ensures NonNegative(pdg[..]) ==> NonNegative(z[..]) && NonNegative(zswap[..])
      ensures Regular() ==> Window(z[..], CoreState(beg).buf.lo, CoreState(beg).buf.hi) && Positive(CoreState(beg).norms)
      ensures Splits(beg) && NonNegative(pdg[..]) ==> NonNegative(z1[..2 * n1 + 1])
      ensures Splits(beg) && Regular() ==> Window(z1[..2 * n1 + 1], SplitState(beg).buf.lo, SplitState(beg).buf.hi)
    {
      hide *;
      PassBuffers();
      CoreStateIs(beg);
      if m == 2 * n {
        UniformRun(beg);
      } else {
        MixedRun();
      }
      CoreStateShape(beg);
    }

    /** Both groups are set: 0 < n1 < n in an all-diploid cohort. */
    predicate GroupsSet()
      reads this`n1
    {
      n1 > 0
    }

    /** The second group's pass, over samples n1 .. n-1. */
    ghost function SecondState(): (p: Pass)
      requires Valid() && GroupsSet()
      reads this`n1, pdg
    {
      UniformState(pdg[..], n, n1, n)
    }

    /** What GroupsSet and SecondState stand for. */
    lemma GroupsIs()
      requires Valid()
      ensures GroupsSet() <==> n1 > 0
      ensures GroupsSet() ==> SecondState() == UniformState(pdg[..], n, n1, n)
    {
    }

    /** The first half of mc_cal_y with both groups set: the group buffers
        and logs are cleared, then the pass over samples n1 .. n-1 leaves
        the second group's distribution in z2[0 .. 2 (n - n1)] and its
        log-normaliser in t2. */
    method SecondGroup()
      requires Valid() && GroupsSet()
      modifies this`t, this`t1, this`t2, z, zswap, z1, z2
      ensures Valid()
      ensures t2 == LogSum(lib.log, SecondState().norms) && t1 == 0.0
      ensures z2[..2 * (n - n1) + 1] == SecondState().buf.cur[..2 * (n - n1) + 1]
      ensures z1[2 * n1 + 1..] == old(z1[2 * n1 + 1..]) && z2[2 * (n - n1) + 1..] == old(z2[2 * (n - n1) + 1..])
      ensures NonNegative(pdg[..]) ==> NonNegative(z2[..2 * (n - n1) + 1])
      ensures Regular() ==> Window(z2[..2 * (n - n1) + 1], SecondState().buf.lo, SecondState().buf.hi)
    {
      hide *;
      PassBuffers();
      GroupsIs();
      var len1, len2 := 2 * n1 + 1, 2 * (n - n1) + 1;
      ClearPrefix(z1, len1);
      ClearPrefix(z2, len2);
      t1, t2 := 0.0, 0.0;
      ghost var z1Old, z2Old := z1[..], z2[..];
      CoreStateIs(n1);
      CalYCore(n1);
      assert z1[len1..] == z1Old[len1..];
      t2 := t;
      KeepSecond();
    }

    /** The copy of the second group's distribution from z into z2. */
    method KeepSecond()
      requires Valid() && GroupsSet() && z[..] == SecondState().buf.cur
      modifies z2
      ensures z2[..2 * (n - n1) + 1] == SecondState().buf.cur[..2 * (n - n1) + 1]
      ensures z2[2 * (n - n1) + 1..] == old(z2[2 * (n - n1) + 1..])
      ensures NonNegative(z[..]) ==> NonNegative(z2[..2 * (n - n1) + 1])
      ensures Window(z[..], SecondState().buf.lo, SecondState().buf.hi) ==>
        Window(z2[..2 * (n - n1) + 1], SecondState().buf.lo, SecondState().buf.hi)
    {
      hide UniformState, UniformAfter, UniformSample, MixedState, MixedAfter, MixedSample, DiploidNext, HaploidNext, PruneNext, Start, Appended;
      var len2 := 2 * (n - n1) + 1;
      ghost var before := z2[..];
      CopyPrefix(z, z2, len2);
      assert z2[len2..] == before[len2..];
      PrefixShape(z[..], len2, SecondState().buf.lo, SecondState().buf.hi);
    }

    /** The distribution mc_cal_y leaves in z: the whole cohort's pass,
        scaled by exp(t - (t1 + t2)) when both groups are set. */
    ghost function CalYResult(): (r: seq<real>)
      requires Valid()
      reads this`n1, this`t, this`t1, this`t2, pdg
      ensures |r| == m + 1
    {
      if GroupsSet() then Times(CoreState(0).buf.cur, lib.exp(t - (t1 + t2))) else CoreState(0).buf.cur
    }

    /** mc_cal_y. With both groups set: z2 gets the distribution of the
        second group (samples n1 .. n-1) and t2 its log-normaliser, z1 and
        t1 those of the first group (samples 0 .. n1-1), z the whole
        cohort's distribution scaled by exp(t - (t1 + t2)). Otherwise z
        gets the cohort's distribution and the group buffers are left
        alone. */
    method CalY()
      modifies this`t, this`t1, this`t2, z, zswap, z1, z2
      requires Valid()
      ensures Valid()
      ensures z[..] == CalYResult() && t == LogSum(lib.log, CoreState(0).norms)
      ensures !GroupsSet() ==> t1 == old(t1) && t2 == old(t2) && z1[..] == old(z1[..]) && z2[..] == old(z2[..])
      ensures GroupsSet() ==> t1 == LogSum(lib.log, SplitState(0).norms) && t2 == LogSum(lib.log, SecondState().norms)
      ensures GroupsSet() ==>
        z1[..2 * n1 + 1] == SplitState(0).buf.cur[..2 * n1 + 1]
        && z2[..2 * (n - n1) + 1] == SecondState().buf.cur[..2 * (n - n1) + 1]
      ensures GroupsSet() ==>
        z1[2 * n1 + 1..] == old(z1[2 * n1 + 1..]) && z2[2 * (n - n1) + 1..] == old(z2[2 * (n - n1) + 1..])
      ensures GroupsSet() && NonNegative(pdg[..]) ==> NonNegative(z1[..2 * n1 + 1]) && NonNegative(z2[..2 * (n - n1) + 1])
      ensures GroupsSet() && Regular() ==>
        Window(z1[..2 * n1 + 1], SplitState(0).buf.lo, SplitState(0).buf.hi)
        && Window(z2[..2 * (n - n1) + 1], SecondState().buf.lo, SecondState().buf.hi)
    {
      hide UniformState, UniformAfter, UniformSample, MixedState, MixedAfter, MixedSample, DiploidNext, HaploidNext, PruneNext, Start, Appended;
      hide LogSum, Times, Regular, Window, NonNegative, Sum;
      if n1 > 0 && n1 < n && m == 2 * n {
        BothGroups();
      } else {
        ghost var z1Old := z1[..];
        CalYCore(0);
        assert z1[..] == z1Old;
      }
    }

    /** The branch of mc_cal_y with both groups set: the second group's
        pass, then the whole cohort's pass (which takes the first group's
        distribution on the way), then the rescaling of z. */
    method BothGroups()
      requires Valid() && GroupsSet()
      modifies this`t, this`t1, this`t2, z, zswap, z1, z2
      ensures Valid()
      ensures z[..] == Times(CoreState(0).buf.cur, lib.exp(t - (t1 + t2))) && t == LogSum(lib.log, CoreState(0).norms)
      ensures t1 == LogSum(lib.log, SplitState(0).norms) && t2 == LogSum(lib.log, SecondState().norms)
      ensures z1[..2 * n1 + 1] == SplitState(0).buf.cur[..2 * n1 + 1]
      ensures z2[..2 * (n - n1) + 1] == SecondState().buf.cur[..2 * (n - n1) + 1]
      ensures z1[2 * n1 + 1..] == old(z1[2 * n1 + 1..]) && z2[2 * (n - n1) + 1..] == old(z2[2 * (n - n1) + 1..])
      ensures NonNegative(pdg[..]) ==> NonNegative(z1[..2 * n1 + 1]) && NonNegative(z2[..2 * (n - n1) + 1])
      ensures Regular() ==>
        Window(z1[..2 * n1 + 1], SplitState(0).buf.lo, SplitState(0).buf.hi)
        && Window(z2[..2 * (n - n1) + 1], SecondState().buf.lo, SecondState().buf.hi)
    {
      hide UniformState, UniformAfter, UniformSample, MixedState, MixedAfter, MixedSample, DiploidNext, HaploidNext, PruneNext, Start, Appended;
      SecondGroup();
      ghost var z2Mid := z2[..];
      FirstGroup();
      assert z2[..] == z2Mid;
    }

    /** The second half of mc_cal_y with both groups set: the whole
        cohort's pass, which leaves the first group's distribution in
        z1[0 .. 2 n1] and its log-normaliser in t1 on the way, then z is
        rescaled by exp(t - (t1 + t2)). */
    method FirstGroup()
      requires Valid() && GroupsSet()
      modifies this`t, this`t1, z, zswap, z1
      ensures Valid()
      ensures z[..] == Times(CoreState(0).buf.cur, lib.exp(t - (t1 + t2))) && t == LogSum(lib.log, CoreState(0).norms)
      ensures t1 == LogSum(lib.log, SplitState(0).norms)
      ensures z1[..2 * n1 + 1] == SplitState(0).buf.cur[..2 * n1 + 1]
      ensures z1[2 * n1 + 1..] == old(z1[2 * n1 + 1..])
      ensures NonNegative(pdg[..]) ==> NonNegative(z1[..2 * n1 + 1])
      ensures Regular() ==> Window(z1[..2 * n1 + 1], SplitState(0).buf.lo, SplitState(0).buf.hi)
    {
      hide UniformState, UniformAfter, UniformSample, MixedState, MixedAfter, MixedSample, DiploidNext, HaploidNext, PruneNext, Start, Appended;
      ghost var z1Old := z1[..];
      CalYCore(0);
      assert z1[2 * n1 + 1..] == z1Old[2 * n1 + 1..];
      ghost var z1Mid := z1[..];
      Scale(z, lib.exp(t - (t1 + t2)));
      assert z1[..] == z1Mid;
    }

    /** The prior mc_cal_afs uses: the indel prior at an indel site. */
    function ActivePrior(): (r: seq<real>)
      requires Valid()
      reads this`n1, this`isIndel, phi, phiIndel
      ensures |r| == m + 1
    {
      if isIndel then phiIndel[..] else phi[..]
    }

    /** mc_cal_afs: afs1 is cleared, mc_cal_y fills z, and the spectrum is
        taken from the active prior and z (see Afs). */
    method CalAfs(prevRef: real, prevVar: real)
      returns (fExp: real, pRefFolded: real, pVarFolded: real, ghost prior: seq<real>, ghost zs: seq<real>)
      requires Valid() && m >= 1 && NonNegative(pdg[..])
      modifies this`t, this`t1, this`t2, z, zswap, z1, z2, afs, afs1
      ensures Valid() && prior == ActivePrior() && zs == z[..] && zs == CalYResult()
      ensures t == LogSum(lib.log, CoreState(0).norms)
      ensures !GroupsSet() ==> t1 == old(t1) && t2 == old(t2) && z1[..] == old(z1[..]) && z2[..] == old(z2[..])
      ensures GroupsSet() ==> t1 == LogSum(lib.log, SplitState(0).norms) && t2 == LogSum(lib.log, SecondState().norms)
      ensures GroupsSet() ==>
        z1[..2 * n1 + 1] == SplitState(0).buf.cur[..2 * n1 + 1]
        && z2[..2 * (n - n1) + 1] == SecondState().buf.cur[..2 * (n - n1) + 1]
      ensures GroupsSet() ==>
        z1[2 * n1 + 1..] == old(z1[2 * n1 + 1..]) && z2[2 * (n - n1) + 1..] == old(z2[2 * (n - n1) + 1..])
      ensures Sum(Products(prior, zs)) == 0.0 ==>
        fExp == -1.0 && pRefFolded == prevRef && pVarFolded == prevVar
        && afs[..] == old(afs[..]) && Cleared(afs1)
      ensures Sum(Products(prior, zs)) != 0.0 ==>
        afs1[..] == Scaled(Products(prior, zs), Sum(Products(prior, zs))) && Sum(afs1[..]) == 1.0
        && (forall k :: 0 <= k <= m ==> afs[k] == old(afs[k]) + afs1[k])
        && fExp == Moment(afs1[..]) / m as real
      ensures Sum(Products(prior, zs)) > 0.0 && NonNegative(prior) && NonNegative(zs) ==>
        NonNegative(afs1[..]) && 0.0 <= fExp <= 1.0
      ensures Sum(Products(prior, zs)) != 0.0 ==>
        pVarFolded == FoldedVar(prior, zs) && pRefFolded == FoldedRef(prior, zs)
        && (Sum(Products(Folded(prior), zs)) != 0.0 ==> pRefFolded + pVarFolded == 1.0)
    {
      hide UniformState, UniformAfter, UniformSample, MixedState, MixedAfter, MixedSample, DiploidNext, HaploidNext, PruneNext, Start, Appended;
      hide CalYResult, CoreState, LogSum, Times, SplitState, SecondState;
      hide Sum, Products, Scaled, Moment, FoldedVar, FoldedRef, Folded, Regular, Window;
      ClearPrefix(afs1, m + 1);
      assert afs1[m + 1..] == [];
      CalY();
      var p := if isIndel then phiIndel[..] else phi[..];
      prior, zs := p, z[..];
      ghost var cleared := afs1[..];
      fExp, pRefFolded, pVarFolded := Afs(p, z[..], afs, afs1, m, prevRef, prevVar);
      assert afs1[..] == cleared ==> Cleared(afs1);
    }

    /** contrast2: 0 and no change when a group is empty; otherwise the
        hypergeometric table is built on first use, the normaliser is the
        sum of phi[k] z[k] (the SNP prior, even at an indel site), the peak
        of each group's phi_i[k] z_i[k] (from 0, -1 when none is positive)
        seeds the sweep, and the rest is Contrast.Contrast2Core. */
    method Contrast2(cmp: seq<real>) returns (r: real, ret: seq<real>)
      requires Valid() && TableFits() && |cmp| == 3
      modifies this`hg
      ensures Valid() && TableFits()
      ensures n1 <= 0 ==> r == 0.0 && ret == cmp && hg == old(hg)
      ensures n1 > 0 ==> hg == Some(Contrast.HgTable(lib.lgamma, lib.exp, n1, n - n1, m))
      ensures n1 > 0 ==> |ret| == 3 && NonNegative(ret) && Contrast.Total3(ret) >= 0.95
      ensures n1 > 0 && UnitGammaq(lib.gammaq) ==> 0.0 <= r <= Contrast.Total3(ret)
      ensures n1 > 0 ==> exists fast :: Contrast.Resolved(ContrastTables(), fast, r, ret)
      ensures n1 > 0 && Contrast.GridAll(ContrastTables(), 2 * n1 + 1) < 0.95 ==> ret == Contrast.Thirds && r == 1.0
    {
      hide Sum, Products, ContrastTables, Contrast.HgTable, Contrast.GridAll, Contrast.GridMasses, Contrast.Resolved;
      if n1 <= 0 || n - n1 <= 0 {
        return 0.0, cmp;
      }
      if hg.None? {
        hg := Some(Contrast.HgTable(lib.lgamma, lib.exp, n1, n - n1, m));
      }
      r, ret := ContrastSweep(hg.value);
    }

    /** The compute part of contrast2 once the table hgv is built: the
        normaliser, the two group peaks and Contrast.Contrast2Core over the
        tables they give. */
    method ContrastSweep(hgv: seq<seq<real>>) returns (r: real, ret: seq<real>)
      requires Valid() && GroupsSet() && hgv == Contrast.HgTable(lib.lgamma, lib.exp, n1, n - n1, m)
      ensures |ret| == 3 && NonNegative(ret) && Contrast.Total3(ret) >= 0.95
      ensures UnitGammaq(lib.gammaq) ==> 0.0 <= r <= Contrast.Total3(ret)
      ensures exists fast :: Contrast.Resolved(ContrastTables(), fast, r, ret)
      ensures Contrast.GridAll(ContrastTables(), 2 * n1 + 1) < 0.95 ==> ret == Contrast.Thirds && r == 1.0
    {
      hide Sum, Products, ContrastTables, Contrast.HgTable, Contrast.GridAll, Contrast.GridMasses, Contrast.Resolved;
      var n2 := n - n1;
      var sum := ProductSum(phi[..], z[..], m);
      var max1, k10 := FirstMax(Products(phi1[..], z1[..]), 2 * n1, 0.0);
      var max2, k20 := FirstMax(Products(phi2[..], z2[..]), 2 * n2, 0.0);
      assert phi[..][..m + 1] == phi[..] && z[..][..m + 1] == z[..];
      var g := Contrast.Tables(phi[..], z1[..], z2[..], hgv, sum, n1, n2);
      TablesAre(hgv, sum);
      ghost var fast;
      r, ret, fast := Contrast.Contrast2Core(g, lib.gammaq, k10, k20);
      assert Contrast.Resolved(ContrastTables(), fast, r, ret);
    }

    /** ContrastTables spelled out, for proofs that hide it. */
    lemma TablesAre(hgv: seq<seq<real>>, sum: real)
      requires Valid() && GroupsSet()
      requires hgv == Contrast.HgTable(lib.lgamma, lib.exp, n1, n - n1, m) && sum == Sum(Products(phi[..], z[..]))
      ensures Contrast.Tables(phi[..], z1[..], z2[..], hgv, sum, n1, n - n1) == ContrastTables()
    {
    }

    /** The tables contrast2 works on for the current groups: phi, z1, z2,
        the hypergeometric table and the normaliser sum of phi[k] z[k]. */
    ghost function ContrastTables(): (g: Contrast.Tables)
      requires Valid() && GroupsSet()
      reads this`n1, phi, z, z1, z2
      ensures Contrast.Shaped(g) && g.n1 == n1 && g.n2 == n - n1
    {
      Contrast.Tables(phi[..], z1[..], z2[..], Contrast.HgTable(lib.lgamma, lib.exp, n1, n - n1, m),
                      Sum(Products(phi[..], z[..])), n1, n - n1)
    }

    /** What bcf_p1_cal reports from the spectrum afs1 and the distributions
        z, z1, z2 (see Summary): p_ref and p_var split the mass of afs1;
        the allele count, f_flat and the interval come from z and afs1;
        the LRT from the peaks of z, z1 and z2 when the groups are set, -1
        otherwise; the contrast when asked for and p_var > 1/2, otherwise
        cmp and p_chi2 stay -1. */
    ghost predicate Summarised(rst: Result, doContrast: bool)
      requires Valid() && m >= 1
      reads this`n1, afs1, phi, z, z1, z2
    {
      SpectrumSummarised(rst) && ContrastSummarised(rst, doContrast)
    }

    /** What bcf_p1_cal reads off the spectrum afs1 and the likelihoods z,
        z1 and z2: the reference and variant masses, the allele count of the
        first maximum, the flat-prior frequency, the interval and the
        likelihood-ratio p-value. */
    ghost predicate SpectrumSummarised(rst: Result)
      requires Valid() && m >= 1
      reads this`n1, afs1, z, z1, z2
    {
      SpectrumRead(afs1[..], z[..], z1[..], z2[..], m, n1, lib, rst)
    }

    /** The contrast fields: -1 when the contrast is not run, 0 with -1
        proportions when there is no second group, otherwise what
        contrast2 settles on over ContrastTables (see Contrast.Resolved):
        proportions with at least 0.95 total mass and a p-value below that
        total, a third each with p-value 1 when the grid holds less than
        0.95. */
    ghost predicate ContrastSummarised(rst: Result, doContrast: bool)
      requires Valid()
      reads this`n1, phi, z, z1, z2
    {
      (!(doContrast && rst.pVar > 0.5) ==> rst.cmp == [-1.0, -1.0, -1.0] && rst.pChi2 == -1.0)
      && (doContrast && rst.pVar > 0.5 && n1 <= 0 ==> rst.cmp == [-1.0, -1.0, -1.0] && rst.pChi2 == 0.0)
      && (doContrast && rst.pVar > 0.5 && n1 > 0 ==>
            |rst.cmp| == 3 && NonNegative(rst.cmp) && Contrast.Total3(rst.cmp) >= 0.95
            && (UnitGammaq(lib.gammaq) ==> 0.0 <= rst.pChi2 <= Contrast.Total3(rst.cmp))
            && (exists fast :: Contrast.Resolved(ContrastTables(), fast, rst.pChi2, rst.cmp))
            && (Contrast.GridAll(ContrastTables(), 2 * n1 + 1) < 0.95 ==>
                  rst.cmp == Contrast.Thirds && rst.pChi2 == 1.0))
    }

    /** The part of bcf_p1_cal after mc_cal_afs. */
    method Report(rank0: int, fExp: real, pRefFolded: real, pVarFolded: real, doContrast: bool)
      returns (rst: Result)
      requires Valid() && TableFits() && m >= 1
      modifies this`hg
      ensures Valid() && TableFits() && Summarised(rst, doContrast)
      ensures rst.rank0 == rank0 && rst.fExp == fExp
      ensures rst.pRefFolded == pRefFolded && rst.pVarFolded == pVarFolded
      ensures !(doContrast && rst.pVar > 0.5) ==> hg == old(hg)
    {
      hide SpectrumRead, ContrastTables, Contrast.Resolved, Contrast.GridAll, Contrast.GridMasses, Sum, Products;
      rst := ReadSpectrum(afs1[..], z[..], z1[..], z2[..], m, n1, lib, rank0, fExp, pRefFolded, pVarFolded);
      if doContrast && rst.pVar > 0.5 {
        var pChi2, cmp := Contrast2(rst.cmp);
        ContrastKeepsSpectrum(afs1[..], z[..], z1[..], z2[..], m, n1, lib, rst, pChi2, cmp);
        rst := rst.(pChi2 := pChi2, cmp := cmp);
      }
    }

    /** bcf_p1_cal: records the site kind and its PL rows (|pls| / n values
        per sample), and gives up with -1 below two alleles; otherwise
        evaluates the site (see Evaluate) and returns 0. The PL rows are
        those of the context's n samples: the record's sample count, which
        the C code divides by, is taken to be n. */
    method Cal(isSnp: bool, nAllele: nat, pls: seq<int>, doContrast: bool, prev: Result)
      returns (r: int, rst: Result)
      requires Valid() && TableFits() && m >= 1 && n >= 1
      requires nAllele >= 2 ==> Ranking.HomIndex(nAllele - 1) < |pls| / n
      requires forall k :: 0 <= k < |pls| ==> 0 <= pls[k] < 256
      modifies this`isIndel, this`pl, this`plLen, this`t, this`t1, this`t2, this`hg
      modifies pdg, z, zswap, z1, z2, afs, afs1
      ensures Valid() && TableFits()
      ensures isIndel == !isSnp && pl == pls && plLen == |pls| / n
      ensures nAllele < 2 ==> r == -1 && rst == prev.(permRank := -1)
      ensures nAllele < 2 ==> pdg[..] == old(pdg[..]) && afs[..] == old(afs[..]) && afs1[..] == old(afs1[..])
      ensures nAllele >= 2 ==> r == 0 && Evaluated(nAllele, doContrast, prev, rst)
      ensures nAllele >= 2 && Sum(Products(ActivePrior(), z[..])) == 0.0 ==> afs[..] == old(afs[..])
      ensures nAllele >= 2 && Sum(Products(ActivePrior(), z[..])) != 0.0 ==> forall k :: 0 <= k <= m ==> afs[k] == old(afs[k]) + afs1[k]
      ensures nAllele >= 2 && !GroupsSet() ==> t1 == old(t1) && t2 == old(t2) && z1[..] == old(z1[..]) && z2[..] == old(z2[..])
      ensures nAllele >= 2 && GroupsSet() ==>
        z1[2 * n1 + 1..] == old(z1[2 * n1 + 1..]) && z2[2 * (n - n1) + 1..] == old(z2[2 * (n - n1) + 1..])
      ensures nAllele < 2 ==>
        z[..] == old(z[..]) && z1[..] == old(z1[..]) && z2[..] == old(z2[..])
        && t == old(t) && t1 == old(t1) && t2 == old(t2) && hg == old(hg)
    {
      hide UniformState, UniformAfter, UniformSample, MixedState, MixedAfter, MixedSample, DiploidNext, HaploidNext, PruneNext, Start, Appended;
      hide Evaluated, Summarised, CalYResult, CoreState, FromSpectrum, Likelihood, LogSum, ActivePrior;
      isIndel := !isSnp;
      pl, plLen := pls, |pls| / n;
      if nAllele < 2 {
        return -1, prev.(permRank := -1);
      }
      PlRows(|pls|, n);
      HomIndexBelow(1, nAllele);
      rst := Evaluate(nAllele, doContrast, prev);
      r := 0;
    }

    /** What bcf_p1_cal leaves behind at a site with two or more alleles:
        the rank of the reference allele (for at most 16 alleles, the
        number of alleles whose summed PL is below its own), the
        likelihoods P(D|g) taken from the PL rows, z as mc_cal_y computes
        it from them (CalYResult), with groups set t1, z1 and t2, z2 from
        the passes over each group, the spectrum of the active prior times
        z with its folded probabilities, and the summaries. */
    ghost predicate Evaluated(nAllele: nat, doContrast: bool, prev: Result, rst: Result)
      requires Valid() && m >= 1 && plLen >= 3 && n * plLen <= |pl|
      requires forall k :: 0 <= k < |pl| ==> 0 <= pl[k] < 256
      reads this`n1, this`isIndel, this`pl, this`plLen, this`t, this`t1, this`t2, pdg, phi, phiIndel, afs1, z, z1, z2
    {
      0 <= rst.rank0 < nAllele && Summarised(rst, doContrast)
      && (1 <= nAllele <= 16 && Ranking.HomIndex(nAllele - 1) < plLen ==>
            rst.rank0 == Ranking.CountBelow(AlleleScores(pl, plLen, n, nAllele), AlleleScores(pl, plLen, n, nAllele)[0]))
      && (forall i :: 0 <= i < 3 * n ==> pdg[i] == Likelihood(q2p, pl, plLen, n, i))
      && z[..] == CalYResult() && t == LogSum(lib.log, CoreState(0).norms)
      && (GroupsSet() ==>
            t1 == LogSum(lib.log, SplitState(0).norms) && t2 == LogSum(lib.log, SecondState().norms)
            && z1[..2 * n1 + 1] == SplitState(0).buf.cur[..2 * n1 + 1]
            && z2[..2 * (n - n1) + 1] == SecondState().buf.cur[..2 * (n - n1) + 1])
      && FromSpectrum(ActivePrior(), z[..], afs1[..], prev, rst)
    }

    /** bcf_p1_cal after the allele-count check: cal_pdg, mc_cal_afs and
        Report. */
    method Evaluate(nAllele: nat, doContrast: bool, prev: Result) returns (rst: Result)
      requires Valid() && TableFits() && m >= 1 && nAllele >= 2
      requires plLen >= 3 && Ranking.HomIndex(nAllele - 1) < plLen && n * plLen <= |pl|
      requires forall k :: 0 <= k < |pl| ==> 0 <= pl[k] < 256
      modifies this`t, this`t1, this`t2, this`hg, pdg, z, zswap, z1, z2, afs, afs1
      ensures Valid() && TableFits() && Evaluated(nAllele, doContrast, prev, rst)
      ensures Sum(Products(ActivePrior(), z[..])) == 0.0 ==> afs[..] == old(afs[..])
      ensures Sum(Products(ActivePrior(), z[..])) != 0.0 ==> forall k :: 0 <= k <= m ==> afs[k] == old(afs[k]) + afs1[k]
      ensures !GroupsSet() ==> t1 == old(t1) && t2 == old(t2) && z1[..] == old(z1[..]) && z2[..] == old(z2[..])
      ensures GroupsSet() ==>
        z1[2 * n1 + 1..] == old(z1[2 * n1 + 1..]) && z2[2 * (n - n1) + 1..] == old(z2[2 * (n - n1) + 1..])
    {
      hide UniformState, UniformAfter, UniformSample, MixedState, MixedAfter, MixedSample, DiploidNext, HaploidNext, PruneNext, Start, Appended;
      hide Summarised, SpectrumSummarised, ContrastSummarised, CalYResult, CoreState, LogSum, Times, Likelihood, ActivePrior;
      hide Sum, Products, Scaled, Moment, FoldedVar, FoldedRef, Folded, Regular, SplitState, SecondState, AlleleScores, TableFits;
      var rank0 := CalPdg(nAllele);
      PositiveNonNegative(pdg[..]);
      var fExp, pRefFolded, pVarFolded, prior, zs := CalAfs(prev.pRefFolded, prev.pVarFolded);
      rst := Report(rank0, fExp, pRefFolded, pVarFolded, doContrast);
    }

    /** The afs reset of bcf_p1_dump_afs (the printing is not modelled). */
    method DumpAfs()
      requires Valid()
      modifies afs
      ensures Valid()
      ensures forall k :: 0 <= k < afs.Length ==> afs[k] == 0.0
    {
      for k := 0 to m + 1
        invariant forall i :: 0 <= i < k ==> afs[i] == 0.0
      {
        afs[k] := 0.0;
      }
    }
  }

  /** A prefix of a non-negative sequence is non-negative, and a prefix
      that holds a distribution window is one. */
  lemma PrefixShape(a: seq<real>, len: nat, lo: int, hi: int)
    requires len <= |a|
    ensures NonNegative(a) ==> NonNegative(a[..len])
    ensures Window(a, lo, hi) && hi < len ==> Window(a[..len], lo, hi)
  {
    if Window(a, lo, hi) && hi < len {
      WindowPrefix(a, lo, hi, len);
    }
    assert forall i :: 0 <= i < len ==> a[..len][i] == a[i];
  }

  /** `len / n` rows of `len / n` values each fit in `len` values. */
  lemma PlRows(len: nat, n: nat)
    requires n >= 1
    ensures n * (len / n) <= len
  {
  }


  lemma ColumnSumsNonNegative(pl: seq<int>, plLen: nat, n: nat, nAllele: nat)
    requires nAllele >= 1 && Ranking.HomIndex(nAllele - 1) < plLen && n * plLen <= |pl|
    requires forall k :: 0 <= k < |pl| ==> 0 <= pl[k] < 256
    ensures Ranking.NonNegativeScores(AlleleScores(pl, plLen, n, nAllele))
  {
    forall i | 0 <= i < nAllele
      ensures AlleleScores(pl, plLen, n, nAllele)[i] >= 0
    {
      HomIndexBelow(i, nAllele);
      ColumnSumNonNegative(pl, plLen, Ranking.HomIndex(i) as nat, n);
      assert AlleleScores(pl, plLen, n, nAllele)[i] == ColumnSum(pl, plLen, Ranking.HomIndex(i) as nat, n);
    }
  }

  lemma {:induction false} ColumnSumNonNegative(pl: seq<int>, plLen: nat, idx: nat, j: nat)
    requires idx < plLen && j * plLen <= |pl|
    requires forall k :: 0 <= k < |pl| ==> 0 <= pl[k] < 256
    ensures ColumnSum(pl, plLen, idx, j) >= 0
  {
    if j > 0 {
      RowBounds(j - 1, plLen);
      ColumnSumNonNegative(pl, plLen, idx, j - 1);
    }
  }
}
