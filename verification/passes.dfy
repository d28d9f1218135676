/** The two passes of mc_cal_y_core (prob1.c) over the buffer pair z /
    zswap: the all-diploid pass, which may start at a later sample, and the
    mixed-ploidy pass. Each pass starts from the distribution that puts all
    mass on allele count 0 and adds the samples one by one. On values, the
    buffers after each sample and the normalisers so far are UniformState /
    MixedState; the methods are proved to compute exactly these, and the
    lemmas say what these are. */
module Passes {
  import opened RealSeq
  import opened Recursion

  /** Sum of log(x) over the normalisers, in order. */
  function LogSum(log: real -> real, norms: seq<real>): real
  {
    if |norms| == 0 then 0.0 else LogSum(log, norms[..|norms| - 1]) + log(norms[|norms| - 1])
  }

  predicate Positive(s: seq<real>)
  {
    forall i :: 0 <= i < |s| ==> s[i] > 0.0
  }

  /** Total number of chromosomes of a list of sample ploidies. */
  function Total(ploidy: seq<nat>): nat
  {
    if |ploidy| == 0 then 0 else Total(ploidy[..|ploidy| - 1]) + ploidy[|ploidy| - 1]
  }

  lemma TotalStep(ploidy: seq<nat>, j: nat)
    requires j < |ploidy|
    ensures Total(ploidy[..j + 1]) == Total(ploidy[..j]) + ploidy[j]
  {
    assert ploidy[..j + 1][..j] == ploidy[..j];
  }

  /** A prefix never has more chromosomes than the whole list. */
  lemma {:induction false} TotalPrefix(ploidy: seq<nat>, j: nat)
    requires j <= |ploidy|
    ensures Total(ploidy[..j]) <= Total(ploidy)
  {
    if j < |ploidy| {
      var n := |ploidy| - 1;
      assert ploidy[..n][..j] == ploidy[..j];
      assert ploidy[..n + 1] == ploidy;
      TotalPrefix(ploidy[..n], j);
    } else {
      assert ploidy[..j] == ploidy;
    }
  }

  lemma LogSumEmpty(log: real -> real)
    ensures LogSum(log, []) == 0.0
  {
  }

  lemma LogSumStep(log: real -> real, norms: seq<real>, x: real)
    ensures LogSum(log, norms + [x]) == LogSum(log, norms) + log(x)
  {
    assert (norms + [x])[..|norms|] == norms;
  }

  lemma PositiveNonNegative(s: seq<real>)
    requires Positive(s)
    ensures NonNegative(s)
  {
  }

  /** A window inside a prefix is a window of the prefix. */
  lemma WindowPrefix(a: seq<real>, lo: int, hi: int, len: int)
    requires Window(a, lo, hi) && hi < len <= |a|
    ensures Window(a[..len], lo, hi)
  {
    assert a[..len][lo..hi + 1] == a[lo..hi + 1];
  }

  /** The buffers after the memsets and z[0] = 1: all mass on allele count
      0, the window [0, 0]. */
  function Start(len: nat): (b: Buffers)
    requires len >= 1
    ensures |b.cur| == |b.nxt| == len && b.lo == 0 && b.hi == 0
  {
    Buffers(seq(len, i => if i == 0 then 1.0 else 0.0), seq(len, i => 0.0), 0, 0)
  }

  lemma StartWindow(len: nat)
    requires len >= 1
    ensures NonNegative(Start(len).cur) && NonNegative(Start(len).nxt) && Window(Start(len).cur, 0, 0)
  {
    var c := Start(len).cur;
    assert c[0..1] == [1.0];
    assert Sum([1.0]) == 1.0 by {
      assert [1.0][..0] == [];
    }
  }

  /** The divisor of a sample's window sum in its normaliser, with mm
      chromosomes seen including the sample's: M after a haploid sample,
      M (M - 1) after a diploid one. */
  function Denominator(ploidy: nat, mm: int): (d: real)
    requires 1 <= ploidy <= 2 && mm >= ploidy
    ensures d > 0.0
  {
    if ploidy == 1 then mm as real
    else
      ProductOfPositives(mm as real, mm as real - 1.0, 1.0);
      mm as real * (mm as real - 1.0)
  }

  /** A positive window sum gives a positive normaliser. */
  lemma NormaliserPositive(sum: real, ploidy: nat, mm: int)
    requires sum > 0.0 && 1 <= ploidy <= 2 && mm >= ploidy
    ensures sum / Denominator(ploidy, mm) > 0.0
  {
    var d := Denominator(ploidy, mm);
    assert sum / d > 0.0;
  }

  lemma PositiveAppend(s: seq<real>, x: real)
    requires Positive(s) && x > 0.0
    ensures Positive(s + [x])
  {
  }

  /** Sample j of the all-diploid pass from sample beg, on values: 2 (j -
      beg) alleles seen, the likelihoods (pdg[3j], 2 pdg[3j+1], pdg[3j+2]),
      and two slots cleared above the window unless j - beg is the last
      index of a pass over n samples. */
  function UniformSample(pdg: seq<real>, n: nat, beg: nat, j: nat, b: Buffers): (u: Update)
    requires |pdg| == 3 * n && beg <= j < n
    requires |b.cur| == |b.nxt| == 2 * n + 1 && 0 <= b.lo <= b.hi <= 2 * (j - beg)
    ensures |u.next.cur| == |u.next.nxt| == 2 * n + 1 && b.lo <= u.next.lo <= u.next.hi <= 2 * (j + 1 - beg)
  {
    DiploidNext(b, 2 * (j - beg), pdg[3 * j], 2.0 * pdg[3 * j + 1], pdg[3 * j + 2],
                if j - beg < n - 1 then 2 else 0)
  }

  /** A pass after some of its samples: the buffers and the normalisers
      so far. */
  datatype Pass = Pass(buf: Buffers, norms: seq<real>)

  /** The all-diploid pass after samples beg .. j-1: each sample's
      normaliser is its window sum over M (M - 1), M = 2 (j - beg) being
      the alleles counted after it. */
  function UniformState(pdg: seq<real>, n: nat, beg: nat, j: nat): (p: Pass)
    requires |pdg| == 3 * n && beg <= j <= n
    ensures |p.buf.cur| == |p.buf.nxt| == 2 * n + 1 && 0 <= p.buf.lo <= p.buf.hi <= 2 * (j - beg)
    ensures |p.norms| == j - beg
    decreases j, 0
  {
    if j == beg then Pass(Start(2 * n + 1), [])
    else
      var u := UniformAfter(pdg, n, beg, j - 1);
      Pass(u.next, UniformState(pdg, n, beg, j - 1).norms + [u.sum / Denominator(2, 2 * (j - beg))])
  }

  /** What sample j of the all-diploid pass does to the buffers of
      UniformState(j). */
  function UniformAfter(pdg: seq<real>, n: nat, beg: nat, j: nat): (u: Update)
    requires |pdg| == 3 * n && beg <= j < n
    ensures |u.next.cur| == |u.next.nxt| == 2 * n + 1 && 0 <= u.next.lo <= u.next.hi <= 2 * (j + 1 - beg)
    decreases j, 1
  {
    UniformSample(pdg, n, beg, j, UniformState(pdg, n, beg, j).buf)
  }

  /** A sample of the all-diploid pass keeps both buffers non-negative
      when the likelihoods are. */
  lemma UniformSampleSign(pdg: seq<real>, n: nat, beg: nat, j: nat, b: Buffers)
    requires |pdg| == 3 * n && beg <= j < n && NonNegative(pdg)
    requires |b.cur| == |b.nxt| == 2 * n + 1 && 0 <= b.lo <= b.hi <= 2 * (j - beg)
    requires NonNegative(b.cur) && NonNegative(b.nxt)
    ensures NonNegative(UniformSample(pdg, n, beg, j, b).next.cur)
    ensures NonNegative(UniformSample(pdg, n, beg, j, b).next.nxt)
  {
    hide DiploidNext;
    assert pdg[3 * j] >= 0.0 && pdg[3 * j + 1] >= 0.0 && pdg[3 * j + 2] >= 0.0;
    DiploidNextSign(b, 2 * (j - beg), pdg[3 * j], 2.0 * pdg[3 * j + 1], pdg[3 * j + 2],
                    if j - beg < n - 1 then 2 else 0);
  }

  /** A sample of the all-diploid pass with positive likelihoods turns a
      distribution into one and has a positive window sum, when M is below
      2^31. */
  lemma UniformSampleWindow(pdg: seq<real>, n: nat, beg: nat, j: nat, b: Buffers)
    requires |pdg| == 3 * n && beg <= j < n && Positive(pdg) && 2 * n < 0x8000_0000
    requires |b.cur| == |b.nxt| == 2 * n + 1 && 0 <= b.lo <= b.hi <= 2 * (j - beg)
    requires NonNegative(b.nxt) && Window(b.cur, b.lo, b.hi)
    ensures var u := UniformSample(pdg, n, beg, j, b); u.sum > 0.0 && Window(u.next.cur, u.next.lo, u.next.hi)
  {
    hide DiploidNext;
    assert pdg[3 * j] > 0.0 && pdg[3 * j + 1] > 0.0 && pdg[3 * j + 2] > 0.0;
    DiploidNextWindow(b, 2 * (j - beg), pdg[3 * j], 2.0 * pdg[3 * j + 1], pdg[3 * j + 2],
                      if j - beg < n - 1 then 2 else 0);
  }

  /** One sample of the all-diploid pass keeps both buffers non-negative
      when the likelihoods are. */
  lemma UniformStepSign(pdg: seq<real>, n: nat, beg: nat, j: nat)
    requires |pdg| == 3 * n && beg < j <= n && NonNegative(pdg)
    requires NonNegative(UniformState(pdg, n, beg, j - 1).buf.cur) && NonNegative(UniformState(pdg, n, beg, j - 1).buf.nxt)
    ensures NonNegative(UniformState(pdg, n, beg, j).buf.cur) && NonNegative(UniformState(pdg, n, beg, j).buf.nxt)
  {
    hide DiploidNext;
    UniformSampleSign(pdg, n, beg, j - 1, UniformState(pdg, n, beg, j - 1).buf);
  }

  /** Non-negative likelihoods keep both buffers of the all-diploid pass
      non-negative. */
  lemma {:induction false} UniformStateSign(pdg: seq<real>, n: nat, beg: nat, j: nat)
    requires |pdg| == 3 * n && beg <= j <= n && NonNegative(pdg)
    ensures NonNegative(UniformState(pdg, n, beg, j).buf.cur) && NonNegative(UniformState(pdg, n, beg, j).buf.nxt)
  {
    hide DiploidNext;
    if j == beg {
      StartWindow(2 * n + 1);
    } else {
      UniformStateSign(pdg, n, beg, j - 1);
      UniformStepSign(pdg, n, beg, j);
    }
  }

  /** One sample of the all-diploid pass with positive likelihoods, from a
      distribution, leaves a distribution and appends a positive
      normaliser, when M is below 2^31. */
  lemma UniformStepWindow(pdg: seq<real>, n: nat, beg: nat, j: nat)
    requires |pdg| == 3 * n && beg < j <= n && Positive(pdg) && 2 * n < 0x8000_0000
    requires NonNegative(UniformState(pdg, n, beg, j - 1).buf.nxt)
    requires Window(UniformState(pdg, n, beg, j - 1).buf.cur, UniformState(pdg, n, beg, j - 1).buf.lo, UniformState(pdg, n, beg, j - 1).buf.hi)
    ensures Window(UniformState(pdg, n, beg, j).buf.cur, UniformState(pdg, n, beg, j).buf.lo, UniformState(pdg, n, beg, j).buf.hi)
    ensures UniformState(pdg, n, beg, j).norms == UniformState(pdg, n, beg, j - 1).norms + [UniformState(pdg, n, beg, j).norms[j - 1 - beg]]
    ensures UniformState(pdg, n, beg, j).norms[j - 1 - beg] > 0.0
  {
    hide DiploidNext;
    var u := UniformSample(pdg, n, beg, j - 1, UniformState(pdg, n, beg, j - 1).buf);
    UniformSampleWindow(pdg, n, beg, j - 1, UniformState(pdg, n, beg, j - 1).buf);
    NormaliserPositive(u.sum, 2, 2 * (j - beg));
  }

  /** With positive likelihoods and M below 2^31, the window of the
      all-diploid pass is a distribution after every sample and every
      normaliser is positive. */
  lemma {:induction false} UniformStateWindow(pdg: seq<real>, n: nat, beg: nat, j: nat)
    requires |pdg| == 3 * n && beg <= j <= n && Positive(pdg) && 2 * n < 0x8000_0000
    ensures Window(UniformState(pdg, n, beg, j).buf.cur, UniformState(pdg, n, beg, j).buf.lo, UniformState(pdg, n, beg, j).buf.hi)
    ensures Positive(UniformState(pdg, n, beg, j).norms)
  {
    hide DiploidNext;
    if j == beg {
      StartWindow(2 * n + 1);
    } else {
      UniformStateWindow(pdg, n, beg, j - 1);
      PositiveNonNegative(pdg);
      UniformStateSign(pdg, n, beg, j - 1);
      UniformStepWindow(pdg, n, beg, j);
      PositiveAppend(UniformState(pdg, n, beg, j - 1).norms, UniformState(pdg, n, beg, j).norms[j - 1 - beg]);
    }
  }

  /** Each sample of the all-diploid pass appends its normaliser. */
  lemma UniformNormsStep(pdg: seq<real>, n: nat, beg: nat, j: nat)
    requires |pdg| == 3 * n && beg < j <= n
    ensures UniformState(pdg, n, beg, j).norms
         == UniformState(pdg, n, beg, j - 1).norms + [UniformState(pdg, n, beg, j).norms[j - 1 - beg]]
  {
  }

  /** Sample j of the all-diploid pass spelled out. */
  lemma UniformAfterIs(pdg: seq<real>, n: nat, beg: nat, j: nat, b: Buffers)
    requires |pdg| == 3 * n && beg <= j < n && b == UniformState(pdg, n, beg, j).buf
    ensures UniformAfter(pdg, n, beg, j)
         == DiploidNext(b, 2 * (j - beg), pdg[3 * j], 2.0 * pdg[3 * j + 1], pdg[3 * j + 2], if j - beg < n - 1 then 2 else 0)
  {
  }

  /** The all-diploid pass after sample j, in terms of what sample j does. */
  lemma UniformStateNext(pdg: seq<real>, n: nat, beg: nat, j: nat)
    requires |pdg| == 3 * n && beg <= j < n
    ensures UniformState(pdg, n, beg, j + 1)
         == Pass(UniformAfter(pdg, n, beg, j).next,
                 UniformState(pdg, n, beg, j).norms + [UniformAfter(pdg, n, beg, j).sum / Denominator(2, 2 * (j + 1 - beg))])
  {
  }

  /** Every sample is haploid or diploid. */
  predicate OneOrTwo(ploidy: seq<nat>)
  {
    forall j :: 0 <= j < |ploidy| ==> ploidy[j] == 1 || ploidy[j] == 2
  }

  /** Sample j of the mixed-ploidy pass, on values, Total(ploidy[..j])
      chromosomes seen: a haploid sample with the likelihoods (pdg[3j],
      pdg[3j+2]) and one slot cleared above the window, a diploid one as in
      the all-diploid pass, both clearing nothing above the window at the
      last sample; any other ploidy only prunes. */
  function MixedSample(pdg: seq<real>, ploidy: seq<nat>, j: nat, b: Buffers): (u: Update)
    requires |pdg| == 3 * |ploidy| && j < |ploidy|
    requires |b.cur| == |b.nxt| == Total(ploidy) + 1 && 0 <= b.lo <= b.hi <= Total(ploidy[..j])
    ensures |u.next.cur| == |u.next.nxt| == |b.cur|
    ensures b.lo <= u.next.lo <= u.next.hi <= Total(ploidy[..j + 1])
  {
    TotalStep(ploidy, j);
    TotalPrefix(ploidy, j + 1);
    var m0 := Total(ploidy[..j]);
    if ploidy[j] == 1 then
      HaploidNext(b, m0, pdg[3 * j], pdg[3 * j + 2], if j == |ploidy| - 1 then 0 else 1)
    else if ploidy[j] == 2 then
      DiploidNext(b, m0, pdg[3 * j], 2.0 * pdg[3 * j + 1], pdg[3 * j + 2], if j == |ploidy| - 1 then 0 else 2)
    else
      PruneNext(b)
  }

  /** The normaliser a haploid or diploid sample appends: its window sum
      over M or M (M - 1), M counting the sample's chromosomes; a sample
      of any other ploidy appends none. */
  function Appended(k: nat, sum: real, mm: int): (r: seq<real>)
    requires mm >= k
    ensures |r| <= 1 && (|r| == 1 <==> k == 1 || k == 2)
  {
    if k == 1 || k == 2 then [sum / Denominator(k, mm)] else []
  }

  /** The mixed-ploidy pass after samples 0 .. j-1. */
  function MixedState(pdg: seq<real>, ploidy: seq<nat>, j: nat): (p: Pass)
    requires |pdg| == 3 * |ploidy| && j <= |ploidy|
    ensures |p.buf.cur| == |p.buf.nxt| == Total(ploidy) + 1 && 0 <= p.buf.lo <= p.buf.hi <= Total(ploidy[..j])
    ensures |p.norms| <= j
    decreases j, 0
  {
    if j == 0 then
      assert ploidy[..0] == [];
      Pass(Start(Total(ploidy) + 1), [])
    else
      var u := MixedAfter(pdg, ploidy, j - 1);
      TotalStep(ploidy, j - 1);
      Pass(u.next, MixedState(pdg, ploidy, j - 1).norms + Appended(ploidy[j - 1], u.sum, Total(ploidy[..j])))
  }

  /** What sample j of the mixed-ploidy pass does to the buffers of
      MixedState(j). */
  function MixedAfter(pdg: seq<real>, ploidy: seq<nat>, j: nat): (u: Update)
    requires |pdg| == 3 * |ploidy| && j < |ploidy|
    ensures |u.next.cur| == |u.next.nxt| == Total(ploidy) + 1 && 0 <= u.next.lo <= u.next.hi <= Total(ploidy[..j + 1])
    decreases j, 1
  {
    MixedSample(pdg, ploidy, j, MixedState(pdg, ploidy, j).buf)
  }

  /** MixedAfter spelled out, for proofs that hide it. */
  lemma MixedAfterDef(pdg: seq<real>, ploidy: seq<nat>, j: nat)
    requires |pdg| == 3 * |ploidy| && j < |ploidy|
    ensures MixedAfter(pdg, ploidy, j) == MixedSample(pdg, ploidy, j, MixedState(pdg, ploidy, j).buf)
  {
  }

  /** A sample of the mixed-ploidy pass keeps both buffers non-negative
      when the likelihoods are, whatever its ploidy. */
  lemma MixedSampleSign(pdg: seq<real>, ploidy: seq<nat>, j: nat, b: Buffers)
    requires |pdg| == 3 * |ploidy| && j < |ploidy| && NonNegative(pdg)
    requires |b.cur| == |b.nxt| == Total(ploidy) + 1 && 0 <= b.lo <= b.hi <= Total(ploidy[..j])
    requires NonNegative(b.cur) && NonNegative(b.nxt)
    ensures NonNegative(MixedSample(pdg, ploidy, j, b).next.cur)
    ensures NonNegative(MixedSample(pdg, ploidy, j, b).next.nxt)
  {
    hide DiploidNext, HaploidNext, PruneNext;
    TotalStep(ploidy, j);
    TotalPrefix(ploidy, j + 1);
    var m0 := Total(ploidy[..j]);
    assert pdg[3 * j] >= 0.0 && pdg[3 * j + 1] >= 0.0 && pdg[3 * j + 2] >= 0.0;
    if ploidy[j] == 1 {
      HaploidNextSign(b, m0, pdg[3 * j], pdg[3 * j + 2], if j == |ploidy| - 1 then 0 else 1);
    } else if ploidy[j] == 2 {
      DiploidNextSign(b, m0, pdg[3 * j], 2.0 * pdg[3 * j + 1], pdg[3 * j + 2], if j == |ploidy| - 1 then 0 else 2);
    } else {
      PruneNextSign(b);
    }
  }

  /** A haploid or diploid sample of the mixed-ploidy pass with positive
      likelihoods turns a distribution into one and has a positive window
      sum, when M is below 2^31. */
  lemma MixedSampleWindow(pdg: seq<real>, ploidy: seq<nat>, j: nat, b: Buffers)
    requires |pdg| == 3 * |ploidy| && j < |ploidy| && Positive(pdg)
    requires ploidy[j] == 1 || ploidy[j] == 2
    requires Total(ploidy) < 0x8000_0000
    requires |b.cur| == |b.nxt| == Total(ploidy) + 1 && 0 <= b.lo <= b.hi <= Total(ploidy[..j])
    requires NonNegative(b.nxt) && Window(b.cur, b.lo, b.hi)
    ensures var u := MixedSample(pdg, ploidy, j, b); u.sum > 0.0 && Window(u.next.cur, u.next.lo, u.next.hi)
  {
    hide DiploidNext, HaploidNext, PruneNext;
    TotalStep(ploidy, j);
    TotalPrefix(ploidy, j + 1);
    var m0 := Total(ploidy[..j]);
    assert pdg[3 * j] > 0.0 && pdg[3 * j + 1] > 0.0 && pdg[3 * j + 2] > 0.0;
    if ploidy[j] == 1 {
      HaploidNextWindow(b, m0, pdg[3 * j], pdg[3 * j + 2], if j == |ploidy| - 1 then 0 else 1);
    } else {
      DiploidNextWindow(b, m0, pdg[3 * j], 2.0 * pdg[3 * j + 1], pdg[3 * j + 2], if j == |ploidy| - 1 then 0 else 2);
    }
  }

  /** One sample of the mixed-ploidy pass keeps both buffers non-negative
      when the likelihoods are. */
  lemma MixedStepSign(pdg: seq<real>, ploidy: seq<nat>, j: nat)
    requires |pdg| == 3 * |ploidy| && 0 < j <= |ploidy| && NonNegative(pdg)
    requires NonNegative(MixedState(pdg, ploidy, j - 1).buf.cur) && NonNegative(MixedState(pdg, ploidy, j - 1).buf.nxt)
    ensures NonNegative(MixedState(pdg, ploidy, j).buf.cur) && NonNegative(MixedState(pdg, ploidy, j).buf.nxt)
  {
    hide *;
    MixedAfterDef(pdg, ploidy, j - 1);
    MixedStateNext(pdg, ploidy, j - 1, Total(ploidy[..j]));
    MixedSampleSign(pdg, ploidy, j - 1, MixedState(pdg, ploidy, j - 1).buf);
  }

  /** Non-negative likelihoods keep both buffers of the mixed-ploidy pass
      non-negative, whatever the ploidies. */
  lemma {:induction false} MixedStateSign(pdg: seq<real>, ploidy: seq<nat>, j: nat)
    requires |pdg| == 3 * |ploidy| && j <= |ploidy| && NonNegative(pdg)
    ensures NonNegative(MixedState(pdg, ploidy, j).buf.cur) && NonNegative(MixedState(pdg, ploidy, j).buf.nxt)
  {
    hide DiploidNext, HaploidNext, PruneNext, MixedSample;
    if j == 0 {
      StartWindow(Total(ploidy) + 1);
    } else {
      MixedStateSign(pdg, ploidy, j - 1);
      MixedStepSign(pdg, ploidy, j);
    }
  }

  /** One haploid or diploid sample of the mixed-ploidy pass with positive
      likelihoods, from a distribution, leaves a distribution and appends a
      positive normaliser, when M is below 2^31. */
  lemma MixedStepWindow(pdg: seq<real>, ploidy: seq<nat>, j: nat)
    requires |pdg| == 3 * |ploidy| && 0 < j <= |ploidy| && Positive(pdg)
    requires ploidy[j - 1] == 1 || ploidy[j - 1] == 2
    requires Total(ploidy) < 0x8000_0000
    requires NonNegative(MixedState(pdg, ploidy, j - 1).buf.nxt)
    requires Window(MixedState(pdg, ploidy, j - 1).buf.cur, MixedState(pdg, ploidy, j - 1).buf.lo, MixedState(pdg, ploidy, j - 1).buf.hi)
    ensures Window(MixedState(pdg, ploidy, j).buf.cur, MixedState(pdg, ploidy, j).buf.lo, MixedState(pdg, ploidy, j).buf.hi)
    ensures var k := |MixedState(pdg, ploidy, j - 1).norms|;
      k < |MixedState(pdg, ploidy, j).norms|
      && MixedState(pdg, ploidy, j).norms == MixedState(pdg, ploidy, j - 1).norms + [MixedState(pdg, ploidy, j).norms[k]]
      && MixedState(pdg, ploidy, j).norms[k] > 0.0
  {
    hide DiploidNext, HaploidNext, PruneNext, MixedSample;
    var u := MixedAfter(pdg, ploidy, j - 1);
    MixedSampleWindow(pdg, ploidy, j - 1, MixedState(pdg, ploidy, j - 1).buf);
    TotalStep(ploidy, j - 1);
    NormaliserPositive(u.sum, ploidy[j - 1], Total(ploidy[..j]));
  }

  /** When every sample is haploid or diploid, the likelihoods are positive
      and M is below 2^31, every normaliser of the mixed-ploidy pass is
      positive and its window is a distribution. */
  lemma {:induction false} MixedStateWindow(pdg: seq<real>, ploidy: seq<nat>, j: nat)
    requires |pdg| == 3 * |ploidy| && j <= |ploidy| && Positive(pdg)
    requires OneOrTwo(ploidy) && Total(ploidy) < 0x8000_0000
    ensures Window(MixedState(pdg, ploidy, j).buf.cur, MixedState(pdg, ploidy, j).buf.lo, MixedState(pdg, ploidy, j).buf.hi)
    ensures Positive(MixedState(pdg, ploidy, j).norms)
  {
    hide DiploidNext, HaploidNext, PruneNext, MixedSample;
    if j == 0 {
      StartWindow(Total(ploidy) + 1);
    } else {
      MixedStateWindow(pdg, ploidy, j - 1);
      PositiveNonNegative(pdg);
      MixedStateSign(pdg, ploidy, j - 1);
      assert ploidy[j - 1] == 1 || ploidy[j - 1] == 2;
      MixedStepWindow(pdg, ploidy, j);
      var k := |MixedState(pdg, ploidy, j - 1).norms|;
      PositiveAppend(MixedState(pdg, ploidy, j - 1).norms, MixedState(pdg, ploidy, j).norms[k]);
    }
  }

  /** The mixed-ploidy pass starts from the initial buffers and no
      normalisers. */
  lemma MixedStateStart(pdg: seq<real>, ploidy: seq<nat>)
    requires |pdg| == 3 * |ploidy|
    ensures MixedState(pdg, ploidy, 0) == Pass(Start(Total(ploidy) + 1), [])
  {
  }

  /** Sample j of the mixed-ploidy pass spelled out, m0 chromosomes having
      been seen. */
  lemma MixedAfterIs(pdg: seq<real>, ploidy: seq<nat>, j: nat, m0: nat, b: Buffers)
    requires |pdg| == 3 * |ploidy| && j < |ploidy| && b == MixedState(pdg, ploidy, j).buf
    requires m0 == Total(ploidy[..j]) && m0 + ploidy[j] <= Total(ploidy)
    ensures ploidy[j] == 1 ==>
      (MixedAfter(pdg, ploidy, j) == HaploidNext(b, m0, pdg[3 * j], pdg[3 * j + 2], if j == |ploidy| - 1 then 0 else 1))
    ensures ploidy[j] == 2 ==>
      (MixedAfter(pdg, ploidy, j)
       == DiploidNext(b, m0, pdg[3 * j], 2.0 * pdg[3 * j + 1], pdg[3 * j + 2], if j == |ploidy| - 1 then 0 else 2))
    ensures ploidy[j] != 1 && ploidy[j] != 2 ==> MixedAfter(pdg, ploidy, j) == PruneNext(b)
  {
  }

  /** The mixed-ploidy pass after sample j, in terms of what sample j
      does, m0 + ploidy[j] chromosomes having been seen after it. */
  lemma MixedStateNext(pdg: seq<real>, ploidy: seq<nat>, j: nat, mm: nat)
    requires |pdg| == 3 * |ploidy| && j < |ploidy| && mm == Total(ploidy[..j + 1])
    ensures MixedState(pdg, ploidy, j + 1)
         == Pass(MixedAfter(pdg, ploidy, j).next,
                 MixedState(pdg, ploidy, j).norms + Appended(ploidy[j], MixedAfter(pdg, ploidy, j).sum, mm))
  {
  }

  /** As written, the mixed-ploidy pass clears TailSlots(ploidy[j], _max)
      after every sample j but the last. With the ploidies (2, 1) the
      buffers hold M + 1 = 4 entries; the first sample, from the window
      [0, 0], widens it to [0, 2], and the second slot it would clear is
      M + 1, one past the end of the buffer. */
  lemma TailSlotsOverrun(pdg: seq<real>)
    requires |pdg| == 6
    ensures var b := MixedState(pdg, [2, 1], 1).buf;
      b.hi == 2 && TailSlots(2, b.hi)[1] == Total([2, 1]) + 1 == |b.cur|
  {
    var ploidy: seq<nat> := [2, 1];
    assert ploidy[..0] == [] && ploidy[..1] == [2] && [2][..0] == [] && ploidy[..2] == ploidy;
    assert Total(ploidy) == 3;
    var b0 := MixedState(pdg, ploidy, 0).buf;
    assert b0 == Start(4);
    assert MixedState(pdg, ploidy, 1).buf == MixedAfter(pdg, ploidy, 0).next;
    assert MixedAfter(pdg, ploidy, 0) == DiploidNext(b0, 0, pdg[0], 2.0 * pdg[1], pdg[2], 2);
  }

  /** memset both buffers to 0, then put all mass on allele count 0. */
  method Reset(cur: array<real>, nxt: array<real>)
    requires cur != nxt && cur.Length == nxt.Length && cur.Length >= 1
    modifies cur, nxt
    ensures Buffers(cur[..], nxt[..], 0, 0) == Start(cur.Length)
  {
    for i := 0 to cur.Length
      invariant forall k :: 0 <= k < i ==> cur[k] == 0.0
    {
      cur[i] := 0.0;
    }
    for i := 0 to nxt.Length
      invariant forall k :: 0 <= k < i ==> nxt[k] == 0.0
      invariant forall k :: 0 <= k < cur.Length ==> cur[k] == 0.0
    {
      nxt[i] := 0.0;
    }
    cur[0] := 1.0;
    assert cur[..] == Start(cur.Length).cur;
    assert nxt[..] == Start(cur.Length).nxt;
  }

  /** memcpy(dst, src, len): the first len entries of dst become those of
      src, the rest stay. */
  method CopyPrefix(src: array<real>, dst: array<real>, len: int)
    requires src != dst && 0 <= len <= src.Length && len <= dst.Length
    modifies dst
    ensures dst[..len] == src[..len]
    ensures dst[len..] == old(dst[len..])
  {
    for i := 0 to len
      invariant dst[..i] == src[..i]
      invariant dst[i..] == old(dst[i..])
    {
      dst[i] := src[i];
    }
  }

  /** One diploid sample including the clearing of `clear` slots above the
      new window; after the swap, the buffers, the window and the window sum
      are those of DiploidNext. */
  method DiploidSample(cur: array<real>, nxt: array<real>, lastMin: int, lastMax: int,
                       m0: int, p0: real, p1: real, p2: real, clear: nat)
    returns (mn: int, mx: int, sum: real)
    requires cur != nxt && cur.Length == nxt.Length
    requires 0 <= lastMin <= lastMax <= m0 && m0 + 2 < cur.Length
    modifies cur, nxt
    ensures Update(Buffers(nxt[..], cur[..], mn, mx), sum)
         == DiploidNext(Buffers(old(cur[..]), old(nxt[..]), lastMin, lastMax), m0, p0, p1, p2, clear)
  {
    ghost var b := Buffers(cur[..], nxt[..], lastMin, lastMax);
    mn, mx, sum := DiploidUpdate(cur, nxt, lastMin, lastMax, m0, p0, p1, p2);
    ClearTail(nxt, mx, clear);
    assert DiploidNext(b, m0, p0, p1, p2, clear)
        == Advance(b, mn, mx - 2, DiploidTerms(cur[..], m0, p0, p1, p2, mn, mx), 2, clear);
  }

  /** One haploid sample including the clearing of `clear` slots above the
      new window; after the swap, the buffers, the window and the window sum
      are those of HaploidNext. */
  method HaploidSample(cur: array<real>, nxt: array<real>, lastMin: int, lastMax: int,
                       m0: int, p0: real, p1: real, clear: nat)
    returns (mn: int, mx: int, sum: real)
    requires cur != nxt && cur.Length == nxt.Length
    requires 0 <= lastMin <= lastMax <= m0 && m0 + 1 < cur.Length
    modifies cur, nxt
    ensures Update(Buffers(nxt[..], cur[..], mn, mx), sum)
         == HaploidNext(Buffers(old(cur[..]), old(nxt[..]), lastMin, lastMax), m0, p0, p1, clear)
  {
    ghost var b := Buffers(cur[..], nxt[..], lastMin, lastMax);
    mn, mx, sum := HaploidUpdate(cur, nxt, lastMin, lastMax, m0, p0, p1);
    ClearTail(nxt, mx, clear);
    assert HaploidNext(b, m0, p0, p1, clear)
        == Advance(b, mn, mx - 1, HaploidTerms(cur[..], m0, p0, p1, mn, mx), 1, clear);
  }

  /** Sample j of the all-diploid pass: from the buffers and window of
      UniformState(j) it computes those of UniformState(j + 1) (swapped)
      and the normaliser it appends. */
  method UniformStep(cur: array<real>, nxt: array<real>, pdg: array<real>,
                     n: nat, beg: nat, j: nat, lo: int, hi: int)
    returns (mn: int, mx: int, norm: real)
    requires cur != nxt && pdg != cur && pdg != nxt
    requires cur.Length == 2 * n + 1 && nxt.Length == 2 * n + 1
    requires pdg.Length == 3 * n && beg <= j < n
    requires Buffers(cur[..], nxt[..], lo, hi) == UniformState(pdg[..], n, beg, j).buf
    modifies cur, nxt
    ensures Buffers(nxt[..], cur[..], mn, mx) == UniformState(pdg[..], n, beg, j + 1).buf
    ensures norm == UniformState(pdg[..], n, beg, j + 1).norms[j - beg]
  {
    hide DiploidNext;
    ghost var p := pdg[..];
    UniformAfterIs(p, n, beg, j, Buffers(cur[..], nxt[..], lo, hi));
    UniformStateNext(p, n, beg, j);
    var p0, p1, p2 := pdg[3 * j], 2.0 * pdg[3 * j + 1], pdg[3 * j + 2];
    assert p0 == p[3 * j] && p1 == 2.0 * p[3 * j + 1] && p2 == p[3 * j + 2];
    var sum;
    mn, mx, sum := DiploidSample(cur, nxt, lo, hi, 2 * (j - beg), p0, p1, p2, if j - beg < n - 1 then 2 else 0);
    norm := sum / Denominator(2, 2 * (j + 1 - beg));
  }

  /** The pass starts from the initial buffers and no normalisers. */
  lemma UniformStateStart(pdg: seq<real>, n: nat, beg: nat)
    requires |pdg| == 3 * n && beg <= n
    ensures UniformState(pdg, n, beg, beg) == Pass(Start(2 * n + 1), [])
  {
  }

  /** The all-diploid pass of mc_cal_y_core over samples beg .. n-1 (the
      buffers hold 2n + 1 entries): the buffer returned holds UniformState
      after sample n - 1, the other buffer its second buffer, and t is the
      log sum of its normalisers. When the pass reaches sample n1 - 1
      (exactly when beg < n1), t1 is the log sum of the normalisers up to
      it and z1[0 .. 2 n1] the distribution after it; the rest of z1 is
      untouched. */
  method UniformPass(z: array<real>, zswap: array<real>, z1: array<real>, pdg: array<real>,
                     n: nat, beg: nat, n1: int, log: real -> real)
    returns (cur: array<real>, lo: int, hi: int, t: real, hit: bool, t1: real)
    requires z != zswap && z1 != z && z1 != zswap
    requires z.Length == 2 * n + 1 && zswap.Length == 2 * n + 1 && z1.Length == 2 * n + 1
    requires pdg != z && pdg != zswap && pdg != z1
    requires pdg.Length == 3 * n && beg <= n && n1 < n
    modifies z, zswap, z1
    ensures cur == z || cur == zswap
    ensures var b := UniformState(pdg[..], n, beg, n).buf; cur[..] == b.cur && lo == b.lo && hi == b.hi
    ensures (if cur == z then zswap else z)[..] == UniformState(pdg[..], n, beg, n).buf.nxt
    ensures t == LogSum(log, UniformState(pdg[..], n, beg, n).norms)
    ensures hit <==> beg < n1
    ensures hit ==> t1 == LogSum(log, UniformState(pdg[..], n, beg, n1).norms)
    ensures hit ==> z1[..2 * n1 + 1] == UniformState(pdg[..], n, beg, n1).buf.cur[..2 * n1 + 1]
    ensures !hit ==> z1[..] == old(z1[..])
    ensures hit ==> z1[2 * n1 + 1..] == old(z1[2 * n1 + 1..])
  {
    hide *;
    var nxt := zswap;
    cur := z;
    Reset(cur, nxt);
    UniformStateStart(pdg[..], n, beg);
    LogSumEmpty(log);
    lo, hi, t, hit, t1 := 0, 0, 0.0, false, 0.0;
    ghost var p, z1Old := pdg[..], z1[..];
    var j := beg;
    while j < n
      invariant beg <= j <= n
      invariant (cur == z && nxt == zswap) || (cur == zswap && nxt == z)
      invariant Buffers(cur[..], nxt[..], lo, hi) == UniformState(p, n, beg, j).buf
      invariant t == LogSum(log, UniformState(p, n, beg, j).norms)
      invariant hit <==> beg < n1 <= j
      invariant hit ==> t1 == LogSum(log, UniformState(p, n, beg, n1).norms)
      invariant hit ==> z1[..2 * n1 + 1] == UniformState(p, n, beg, n1).buf.cur[..2 * n1 + 1]
      invariant !hit ==> z1[..] == z1Old
      invariant hit ==> z1[2 * n1 + 1..] == z1Old[2 * n1 + 1..]
    {
      ghost var z1Before := z1[..];
      var mn, mx, norm := UniformStep(cur, nxt, pdg, n, beg, j, lo, hi);
      assert z1[..] == z1Before;
      UniformNormsStep(p, n, beg, j + 1);
      LogSumStep(log, UniformState(p, n, beg, j).norms, norm);
      t := t + log(norm);
      if j == n1 - 1 {
        CopyPrefix(nxt, z1, 2 * n1 + 1);
        t1 := t;
        hit := true;
      }
      cur, nxt := nxt, cur;
      lo, hi := mn, mx;
      j := j + 1;
    }
  }

  /** Sample j of the mixed-ploidy pass, m0 = Total(ploidy[..j])
      chromosomes having been seen: from the buffers and window of
      MixedState(j) it computes those of MixedState(j + 1) (swapped); a
      haploid or diploid sample also yields the normaliser it appends. */
  method MixedStep(cur: array<real>, nxt: array<real>, pdg: array<real>, ploidy: seq<nat>,
                   j: nat, m0: nat, lo: int, hi: int)
    returns (mn: int, mx: int, norm: real, updated: bool)
    requires cur != nxt && pdg != cur && pdg != nxt
    requires cur.Length == Total(ploidy) + 1 && nxt.Length == Total(ploidy) + 1
    requires j < |ploidy| && m0 == Total(ploidy[..j]) && pdg.Length == 3 * |ploidy|
    requires Buffers(cur[..], nxt[..], lo, hi) == MixedState(pdg[..], ploidy, j).buf
    modifies cur, nxt
    ensures Buffers(nxt[..], cur[..], mn, mx) == MixedState(pdg[..], ploidy, j + 1).buf
    ensures updated <==> ploidy[j] == 1 || ploidy[j] == 2
    ensures MixedState(pdg[..], ploidy, j + 1).norms
         == MixedState(pdg[..], ploidy, j).norms + (if updated then [norm] else [])
  {
    hide MixedState, MixedAfter, MixedSample, DiploidNext, HaploidNext;
    ghost var p := pdg[..];
    TotalStep(ploidy, j);
    TotalPrefix(ploidy, j + 1);
    var mm := m0 + ploidy[j];
    MixedAfterIs(p, ploidy, j, m0, Buffers(cur[..], nxt[..], lo, hi));
    MixedStateNext(p, ploidy, j, mm);
    norm := 0.0;
    if ploidy[j] == 1 {
      var p0, p1 := pdg[3 * j], pdg[3 * j + 2];
      assert p0 == p[3 * j] && p1 == p[3 * j + 2];
      var sum;
      mn, mx, sum := HaploidSample(cur, nxt, lo, hi, m0, p0, p1, if j == |ploidy| - 1 then 0 else 1);
      norm := sum / Denominator(1, mm);
      updated := true;
    } else if ploidy[j] == 2 {
      var p0, p1, p2 := pdg[3 * j], 2.0 * pdg[3 * j + 1], pdg[3 * j + 2];
      assert p0 == p[3 * j] && p1 == 2.0 * p[3 * j + 1] && p2 == p[3 * j + 2];
      var sum;
      mn, mx, sum := DiploidSample(cur, nxt, lo, hi, m0, p0, p1, p2, if j == |ploidy| - 1 then 0 else 2);
      norm := sum / Denominator(2, mm);
      updated := true;
    } else {
      mn, mx := Prune(cur, nxt, lo, hi);
      updated := false;
    }
  }

  /** The mixed-ploidy pass of mc_cal_y_core (the buffers hold M + 1
      entries, M the total of the ploidies): the buffer returned holds
      MixedState after the last sample, and t is the log sum of its
      normalisers. A sample of a ploidy other than 1 or 2 only prunes the
      window, yet the buffers are swapped after it as after the others. */
  method MixedPass(z: array<real>, zswap: array<real>, pdg: array<real>, ploidy: seq<nat>, log: real -> real)
    returns (cur: array<real>, lo: int, hi: int, t: real)
    requires z != zswap && pdg != z && pdg != zswap
    requires z.Length == Total(ploidy) + 1 && zswap.Length == Total(ploidy) + 1
    requires pdg.Length == 3 * |ploidy|
    modifies z, zswap
    ensures cur == z || cur == zswap
    ensures var b := MixedState(pdg[..], ploidy, |ploidy|).buf; cur[..] == b.cur && lo == b.lo && hi == b.hi
    ensures (if cur == z then zswap else z)[..] == MixedState(pdg[..], ploidy, |ploidy|).buf.nxt
    ensures t == LogSum(log, MixedState(pdg[..], ploidy, |ploidy|).norms)
  {
    hide MixedState, MixedAfter, MixedSample, DiploidNext, HaploidNext, PruneNext, Start, LogSum;
    var n := |ploidy|;
    var nxt := zswap;
    cur := z;
    Reset(cur, nxt);
    MixedStateStart(pdg[..], ploidy);
    LogSumEmpty(log);
    lo, hi, t := 0, 0, 0.0;
    ghost var p := pdg[..];
    var m := 0;
    var j := 0;
    assert ploidy[..0] == [];
    while j < n
      invariant 0 <= j <= n && m == Total(ploidy[..j])
      invariant (cur == z && nxt == zswap) || (cur == zswap && nxt == z)
      invariant Buffers(cur[..], nxt[..], lo, hi) == MixedState(p, ploidy, j).buf
      invariant t == LogSum(log, MixedState(p, ploidy, j).norms)
    {
      TotalStep(ploidy, j);
      var mn, mx, norm, updated := MixedStep(cur, nxt, pdg, ploidy, j, m, lo, hi);
      if updated {
        LogSumStep(log, MixedState(p, ploidy, j).norms, norm);
        t := t + log(norm);
      } else {
        assert MixedState(p, ploidy, j).norms + [] == MixedState(p, ploidy, j).norms;
      }
      cur, nxt := nxt, cur;
      lo, hi := mn, mx;
      m := m + ploidy[j];
      j := j + 1;
    }
  }
}
