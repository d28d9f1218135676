/** The genotype call of bcf_p1_call_gt (prob1.c): genotype weights from the
    reference-allele frequency, the sample's posterior over the genotypes
    0/0-like, het and hom-alt ordering of P(D|g), its first maximum, a
    Phred-scaled quality clamped at 99, and the packing `q << 2 | max_i`. */
module Genotype {
  import opened RealSeq

  /** The smallest value handed to the logarithm. */
  const LOG_FLOOR: real := 1.0e-308

  /** Genotype weights for reference-allele frequency f0. A diploid sample
      gets the Hardy-Weinberg proportions; a sample of any other ploidy gets
      (1 - f0, 0, f0). */
  function GenotypeWeights(f0: real, ploidy: nat): (r: seq<real>)
    ensures |r| == 3
  {
    if ploidy == 2 then [(1.0 - f0) * (1.0 - f0), 2.0 * f0 * (1.0 - f0), f0 * f0]
    else [1.0 - f0, 0.0, f0]
  }

  lemma JointEntry(pdg: seq<real>, w: seq<real>, i: int)
    requires |pdg| == 3 && |w| == 3 && 0 <= i < 3
    ensures Joint(pdg, w)[i] == pdg[i] * w[i]
  {
  }

  lemma SumOfThree(s: seq<real>)
    requires |s| == 3
    ensures Sum(s) == s[0] + s[1] + s[2]
  {
    assert Sum(s[..1]) == s[0] by {
      assert s[..1][..0] == [];
    }
    assert Sum(s[..2]) == s[0] + s[1] by {
      assert s[..2][..1] == s[..1];
    }
    assert s[..3] == s;
    assert s[..3][..2] == s[..2];
  }

  lemma MulNonNegative(a: real, b: real)
    requires a >= 0.0 && b >= 0.0
    ensures a * b >= 0.0
  {
  }

  /** The weights form a distribution for every frequency in [0, 1], and a
      sample that is not diploid puts no weight on the heterozygote. */
  lemma GenotypeWeightsDistribution(f0: real, ploidy: nat)
    requires 0.0 <= f0 <= 1.0
    ensures Sum(GenotypeWeights(f0, ploidy)) == 1.0
    ensures NonNegative(GenotypeWeights(f0, ploidy))
    ensures ploidy != 2 ==> GenotypeWeights(f0, ploidy)[1] == 0.0
  {
    var w := GenotypeWeights(f0, ploidy);
    SumOfThree(w);
    if ploidy == 2 {
      var a := f0;
      var b := 1.0 - f0;
      MulNonNegative(a, b);
      MulNonNegative(2.0 * a, b);
      MulNonNegative(a, a);
      MulNonNegative(b, b);
      assert b * b + 2.0 * a * b + a * a == (a + b) * (a + b);
    }
  }

  /** The products P(D|g) * weight(g), unnormalised. */
  function Joint(pdg: seq<real>, w: seq<real>): (r: seq<real>)
    requires |pdg| == 3 && |w| == 3
    ensures |r| == 3
  {
    [pdg[0] * w[0], pdg[1] * w[1], pdg[2] * w[2]]
  }

  /** With positive likelihoods and weights that form a distribution, the
      joint products are non-negative and their sum is positive. */
  lemma JointPositive(pdg: seq<real>, w: seq<real>)
    requires |pdg| == 3 && |w| == 3
    requires forall i :: 0 <= i < 3 ==> pdg[i] > 0.0
    requires NonNegative(w) && Sum(w) == 1.0
    ensures NonNegative(Joint(pdg, w)) && Sum(Joint(pdg, w)) > 0.0
  {
    var j := Joint(pdg, w);
    SumOfThree(w);
    SumOfThree(j);
    forall i | 0 <= i < 3
      ensures j[i] >= 0.0 && (w[i] > 0.0 ==> j[i] > 0.0)
    {
      ProductSigns(pdg[i], w[i]);
    }
    var k := if w[0] > 0.0 then 0 else if w[1] > 0.0 then 1 else 2;
    assert w[k] > 0.0;
  }

  lemma ProductSigns(a: real, b: real)
    requires a > 0.0 && b >= 0.0
    ensures a * b >= 0.0 && (b > 0.0 ==> a * b > 0.0)
  {
  }

  /** The posterior over the three genotypes. */
  function Posterior(pdg: seq<real>, w: seq<real>): (r: seq<real>)
    requires |pdg| == 3 && |w| == 3 && Sum(Joint(pdg, w)) != 0.0
    ensures |r| == 3
  {
    Scaled(Joint(pdg, w), Sum(Joint(pdg, w)))
  }

  /** The posterior is a distribution, and a sample that is not diploid has
      posterior 0 on the heterozygote. */
  lemma PosteriorDistribution(pdg: seq<real>, f0: real, ploidy: nat)
    requires |pdg| == 3 && forall i :: 0 <= i < 3 ==> pdg[i] > 0.0
    requires 0.0 <= f0 <= 1.0
    ensures Sum(Joint(pdg, GenotypeWeights(f0, ploidy))) > 0.0
    ensures Sum(Posterior(pdg, GenotypeWeights(f0, ploidy))) == 1.0
    ensures NonNegative(Posterior(pdg, GenotypeWeights(f0, ploidy)))
    ensures ploidy != 2 ==> Posterior(pdg, GenotypeWeights(f0, ploidy))[1] == 0.0
  {
    var w := GenotypeWeights(f0, ploidy);
    GenotypeWeightsDistribution(f0, ploidy);
    JointPositive(pdg, w);
    var j := Joint(pdg, w);
    var s := Sum(j);
    SumScaled(j, s);
    assert s / s == 1.0;
    forall i | 0 <= i < 3
      ensures Posterior(pdg, w)[i] >= 0.0
    {
      assert j[i] >= 0.0;
    }
  }

  /** `i` is the first index holding the maximum of `s`. */
  predicate IsFirstArgMax(s: seq<real>, i: int)
  {
    0 <= i < |s|
    && (forall j :: 0 <= j < |s| ==> s[j] <= s[i])
    && (forall j :: 0 <= j < i ==> s[j] < s[i])
  }

  /** C's (int) conversion of a double: truncation toward zero. */
  function TruncToInt(x: real): (r: int)
    ensures x >= 0.0 ==> r as real <= x < r as real + 1.0
    ensures x < 0.0 ==> r as real - 1.0 < x <= r as real
  {
    if x >= 0.0 then x.Floor else -((-x).Floor)
  }

  /** The quality of a call: the Phred-scaled error of the chosen genotype,
      its argument floored at LOG_FLOOR, rounded and clamped at 99. */
  function Quality(log: real -> real, err: real): (q: int)
    ensures q <= 99
  {
    var e := if err < LOG_FLOOR then LOG_FLOOR else err;
    var q := TruncToInt(-4.343 * log(e) + 0.499);
    if q > 99 then 99 else q
  }

  /** `q << 2 | i` for a two-bit i, in two's complement for every q. */
  function Pack(q: int, i: int): (r: int)
    requires 0 <= i < 4
  {
    4 * q + i
  }

  /** Packing is undone by Euclidean division by 4. */
  lemma PackRoundTrip(q: int, i: int)
    requires 0 <= i < 4
    ensures Pack(q, i) / 4 == q && Pack(q, i) % 4 == i
  {
  }

  /** bcf_p1_call_gt on one sample: `pdg` is its P(D|g) triple and `ploidy`
      its ploidy (2 when the engine has no ploidy array). When `isVar` is
      false genotype 2 is forced. */
  method CallGenotype(pdg: seq<real>, ploidy: nat, f0: real, isVar: bool, log: real -> real)
    returns (r: int)
    requires |pdg| == 3 && forall i :: 0 <= i < 3 ==> pdg[i] > 0.0
    requires 0.0 <= f0 <= 1.0
    ensures Sum(Joint(pdg, GenotypeWeights(f0, ploidy))) > 0.0
    ensures 0 <= r % 4 <= 2 && r / 4 <= 99
    ensures isVar ==> IsFirstArgMax(Posterior(pdg, GenotypeWeights(f0, ploidy)), r % 4)
    ensures !isVar ==> r % 4 == 2
    ensures r / 4 == Quality(log, 1.0 - Posterior(pdg, GenotypeWeights(f0, ploidy))[r % 4])
  {
    var f3 := GenotypeWeights(f0, ploidy);
    PosteriorDistribution(pdg, f0, ploidy);
    ghost var joint := Joint(pdg, f3);
    ghost var post := Posterior(pdg, f3);
    var g := [0.0, 0.0, 0.0];
    var sum := 0.0;
    for i := 0 to 3
      invariant |g| == 3
      invariant forall j :: 0 <= j < i ==> g[j] == joint[j]
      invariant sum == (if i == 0 then 0.0 else if i == 1 then joint[0]
                        else if i == 2 then joint[0] + joint[1] else joint[0] + joint[1] + joint[2])
    {
      g := g[i := pdg[i] * f3[i]];
      JointEntry(pdg, f3, i);
      sum := sum + g[i];
    }
    SumOfThree(joint);
    var max, maxI := -1.0, 0;
    for i := 0 to 3
      invariant |g| == 3
      invariant forall j :: 0 <= j < i ==> g[j] == post[j]
      invariant forall j :: i <= j < 3 ==> g[j] == joint[j]
      invariant i == 0 ==> max == -1.0 && maxI == 0
      invariant i > 0 ==> 0 <= maxI < i && max == post[maxI]
      invariant i > 0 ==> forall j :: 0 <= j < i ==> post[j] <= post[maxI]
      invariant i > 0 ==> forall j :: 0 <= j < maxI ==> post[j] < post[maxI]
    {
      g := g[i := g[i] / sum];
      if g[i] > max {
        max, maxI := g[i], i;
      }
    }
    if !isVar {
      maxI, max := 2, g[2];
    }
    max := 1.0 - max;
    if max < LOG_FLOOR {
      max := LOG_FLOOR;
    }
    var q := TruncToInt(-4.343 * log(max) + 0.499);
    if q > 99 {
      q := 99;
    }
    r := Pack(q, maxI);
    PackRoundTrip(q, maxI);
  }

  /** A sample that is not diploid is never called heterozygous. */
  lemma HaploidNeverHet(pdg: seq<real>, ploidy: nat, f0: real, isVar: bool, r: int)
    requires |pdg| == 3 && forall i :: 0 <= i < 3 ==> pdg[i] > 0.0
    requires 0.0 <= f0 <= 1.0 && ploidy != 2
    requires Sum(Joint(pdg, GenotypeWeights(f0, ploidy))) > 0.0
    requires 0 <= r % 4 <= 2
    requires isVar ==> IsFirstArgMax(Posterior(pdg, GenotypeWeights(f0, ploidy)), r % 4)
    requires !isVar ==> r % 4 == 2
    ensures r % 4 != 1
  {
    PosteriorDistribution(pdg, f0, ploidy);
    var post := Posterior(pdg, GenotypeWeights(f0, ploidy));
    SumOfThree(post);
    if isVar {
      var j := if post[0] > 0.0 then 0 else 2;
      assert post[j] > post[1];
    }
  }
}
