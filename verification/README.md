# bcftools allele-frequency engine and query options, modelled in Dafny

This project models two parts of bcftools as vendored by pysam.

The first is the per-site allele-frequency engine of `prob1.c`. It keeps a
context (`bcf_p1aux_t`) with:

- the cohort size n and the total number of chromosomes M;
- the SNP, indel and group priors over the allele count k = 0 .. M;
- the genotype likelihoods P(D|g) of each sample;
- the distributions z, z1 and z2 of the whole cohort and of its two groups;
- the accumulated and the last allele-frequency spectra (afs, afs1).

For each site it does the following:

- turns PL values into P(D|g);
- ranks the reference allele;
- runs the pruned dynamic programme of `mc_cal_y_core` over samples;
- takes the spectrum posterior to the active prior;
- reads off:
  - the variant and reference probabilities;
  - the allele count and the flat-prior frequency;
  - the 95% equal-tail interval;
  - the likelihood-ratio test between the two groups;
  - optionally, the two-group contrast with its chi-square p-values.

`bcf_p1_call_gt` calls a genotype for one sample from a reference-allele
frequency.

The second is the option and filter logic of `bcftools query`
(`vcfquery.c`):

- the header comparison;
- the format string that `-a` builds;
- the rule that allows at most one `-i`/`-e` expression;
- the per-site include/exclude logic over the sample mask.

Notes on the model:

- The context is the class `Prob1.P1Aux`. The buffers the C code
  allocates once (pdg, phi, phi_indel, phi1, phi2, z, zswap, z1, z2, afs,
  afs1) are `array<real>` constants of the object, and the scalars it
  updates are fields.
- The passes of the dynamic programme work on those arrays in place
  (modules `Recursion` and `Passes`). The buffers and normalisers after
  each sample are also defined on values (`Passes.UniformState`,
  `Passes.MixedState`). The methods are proved to compute exactly these,
  and lemmas state what they are: non-negative, and a distribution on the
  window with positive normalisers when the likelihoods are positive.
- The read-only computations over a finished buffer take its contents as
  a `seq` (modules `Summary`, `Contrast` and `Genotype`).
- Values are exact reals.
- `log`, `exp`, `lgamma`, `pow` and `kf_gammaq` are parameters (the `Libm`
  record, or arrow-typed arguments). The properties that need something of
  them say so in their premises, e.g. `UnitGammaq` for "kf_gammaq returns a
  probability".

Where this model departs from the usual description of the code, it
follows the code:

- The indel prior of `bcf_p1_indel_prior` is not a distribution. Its mass
  is 1 + x - 2 x phi[M], which is 1 only when x = 0 or phi[M] = 1/2
  (`Priors.IndelPriorMass`).
- `contrast2` normalises by the SNP prior `phi` even at an indel site.
- `bcf_p1_set_n1` accepts a negative n1.

## Model

| member | source | states |
|---|---|---|
| Priors.InitPrior | bcftools/prob1.c.pysam.c:56-71 | phi[0..M] becomes the chosen shape: COND2 2(i+1)/(M+1)/(M+2), FLAT 1/(M+1), or FULL theta/(M-i) with the residual 1 - sum at M; the rest of the buffer is untouched |
| Priors.InitIndelPrior | bcftools/prob1.c.pysam.c:48-54 | phi_indel[i] = x phi[i] below M and 1 - x phi[M] at M; only phi_indel is written |
| Priors.PriorSumsToOne | bcftools/prob1.c.pysam.c:56-71 | every prior shape sums to 1 |
| Priors.Cond2SumsToOne | bcftools/prob1.c.pysam.c:59-61 | the COND2 weights sum to 1 |
| Priors.FlatSumsToOne | bcftools/prob1.c.pysam.c:62-64 | the FLAT weights sum to 1 |
| Priors.FullSumsToOne | bcftools/prob1.c.pysam.c:65-70 | the FULL weights sum to 1, the residual absorbing the head |
| Priors.Cond2Increasing | bcftools/prob1.c.pysam.c:59-61 | COND2 weights are positive and strictly increase with the index |
| Priors.FullShape | bcftools/prob1.c.pysam.c:65-70 | with theta > 0 the FULL head is positive and increases toward M; the entry at M is 1 minus the head |
| Priors.IndelPriorMass | bcftools/prob1.c.pysam.c:48-54 | for a prior summing to 1 the indel prior has mass 1 + x - 2 x phi[M], and it is 1 exactly when x = 0 or phi[M] = 1/2 |
| Prob1.DefaultPriors | bcftools/prob1.c.pysam.c:121 | the priors installed at init are FULL with theta 0.001 and its indel prior at rate 0.15, in two fresh distinct arrays |
| Prob1.CallocBuffers | bcftools/prob1.c.pysam.c:103-114 | pdg has 3n entries and the other eight buffers M+1; all are fresh, pairwise distinct and zero |
| Prob1.P1Aux.constructor | bcftools/prob1.c.pysam.c:88-123 | n1 = -1; M = 2n or the ploidy total; ploidies dropped when they total 2n; q2p[i] = 10^(-i/10); lf[i] = lgamma(i+1); default priors; every other buffer zero; t, t1, t2 zero; no hypergeometric table |
| Prob1.P1Aux.SetN1 | bcftools/prob1.c.pysam.c:127-136 | returns 0 and sets n1 exactly when n1 != 0, n1 < n and M = 2n; otherwise returns -1 and n1 is unchanged |
| Prob1.P1Aux.InitPriors | bcftools/prob1.c.pysam.c:73-77 | phi becomes the chosen shape over M and phi_indel its indel prior at rate 0.15 |
| Prob1.P1Aux.SetIndelPrior | bcftools/prob1.c.pysam.c:48-54 | phi_indel becomes the indel prior of phi at rate x |
| Prob1.P1Aux.InitSubprior | bcftools/prob1.c.pysam.c:79-84 | nothing changes unless 0 < n1 < M; otherwise phi1 gets the shape over 2 n1 and phi2 over 2 (n - n1) |
| Prob1.Likelihood | bcftools/prob1.c.pysam.c:172 | P(D|g) of genotype g for sample j is q2p of PL[j][2 - g], positive when q2p is |
| Prob1.AddSample | bcftools/prob1.c.pysam.c:173-174 | after sample j the allele scores are the column sums of the homozygous PL entries over samples 0..j |
| Prob1.FillSample | bcftools/prob1.c.pysam.c:168-176 | the three P(D|g) entries of sample j are set from its PL row, and no other entry changes |
| Prob1.FillPdg | bcftools/prob1.c.pysam.c:165-176 | every P(D|g) entry equals its Likelihood, and the allele scores are the homozygous PL column sums |
| Prob1.P1Aux.CalPdg | bcftools/prob1.c.pysam.c:159-186 | pdg holds the likelihoods of every sample and is positive; the rank is an allele index; with at most 16 alleles it is the number of alleles scoring below the reference |
| Ranking.HomIndexIsDiagonal | bcftools/prob1.c.pysam.c:174 | (i+1)(i+2)/2 - 1 is the index of genotype i/i in the triangular PL layout, inside the n(n+1)/2 genotypes |
| Ranking.KeySmallIndex | bcftools/prob1.c.pysam.c:177 | the key score<<4 or i, for i < 16, is 16 score + i and keeps i in its low nibble |
| Ranking.MakeKeys | bcftools/prob1.c.pysam.c:177 | every score is replaced by its key |
| Ranking.Swap | bcftools/prob1.c.pysam.c:179-180 | the two neighbours change places and nothing else moves |
| Ranking.InsertionSort | bcftools/prob1.c.pysam.c:178-180 | the keys end up sorted and a permutation of the input |
| Ranking.LastZeroNibble | bcftools/prob1.c.pysam.c:181-182 | the last position whose low nibble is 0 |
| Ranking.RankAlleles | bcftools/prob1.c.pysam.c:177-185 | the keys are sorted and permuted; the rank is the last zero-nibble position; with at most 16 alleles it is the number of alleles scoring below the reference |
| Ranking.KeysOfFewAlleles | bcftools/prob1.c.pysam.c:177 | with at most 16 alleles the reference's key occurs once and every key's low nibble is its allele |
| Ranking.KeyOrderMatchesScore | bcftools/prob1.c.pysam.c:177-185 | keys below the reference's key are exactly the alleles scoring below the reference |
| Ranking.SortedRankCounts | bcftools/prob1.c.pysam.c:178-185 | in the sorted permutation of the keys, the last zero-nibble position counts the alleles scoring below the reference |
| Ranking.CountBelowPermutation | bcftools/prob1.c.pysam.c:178-180 | sorting does not change how many keys lie below a value |
| Genotype.GenotypeWeightsDistribution | bcftools/prob1.c.pysam.c:196-203 | the genotype weights (HWE for diploids, 1-f0/0/f0 otherwise) are non-negative and sum to 1 for f0 in [0, 1]; non-diploids give the heterozygote weight 0 |
| Genotype.JointPositive | bcftools/prob1.c.pysam.c:204-205 | the joint P(D|g) w[g] is non-negative with a positive total |
| Genotype.PosteriorDistribution | bcftools/prob1.c.pysam.c:204-210 | the normalised genotype posterior is a distribution, with no heterozygote mass for non-diploids |
| Genotype.TruncToInt | bcftools/prob1.c.pysam.c:214 | the C cast to int truncates toward zero |
| Genotype.Quality | bcftools/prob1.c.pysam.c:212-215 | the phred quality is capped at 99 |
| Genotype.PackRoundTrip | bcftools/prob1.c.pysam.c:216 | q<<2 or i unpacks back to q and i for i < 4 |
| Genotype.CallGenotype | bcftools/prob1.c.pysam.c:190-217 | the call is the first most probable genotype (forced to 2 at a non-variant site) and its quality is from 1 minus that genotype's posterior, at most 99 |
| Genotype.HaploidNeverHet | bcftools/prob1.c.pysam.c:200-203 | a non-diploid sample is never called heterozygous at a variant site |
| Prob1.P1Aux.CallGt | bcftools/prob1.c.pysam.c:190-217 | the same call for sample k of the context, with its ploidy (2 when none is kept) |
| Passes.Reset | bcftools/prob1.c.pysam.c:229-233 | z = (1, 0, ...), zswap all zero, the window is [0, 0] (the pass start Start) |
| Passes.StartWindow | bcftools/prob1.c.pysam.c:229-232 | the starting buffers are non-negative and z holds a distribution on the window [0, 0] |
| Recursion.Prune | bcftools/prob1.c.pysam.c:243-244 | mn and mx are where the two scans over the old z stop, and both buffers have exactly the skipped entries zeroed |
| Recursion.PruneMinStops | bcftools/prob1.c.pysam.c:243 | the lower scan stops at the upper end or at an entry of at least TINY, and every entry it passes is below TINY |
| Recursion.PruneMaxStops | bcftools/prob1.c.pysam.c:244 | the upper scan stops at the lower end or at an entry of at least TINY, and every entry it passes is below TINY |
| Recursion.PrunedSign | bcftools/prob1.c.pysam.c:243-244 | pruning keeps a non-negative buffer non-negative and leaves the entry at the new lower end as it was |
| Recursion.PrunedWindowKeepsMass | bcftools/prob1.c.pysam.c:243-244 | after pruning a unit window the lower end holds at least TINY |
| Recursion.DiploidStep | bcftools/prob1.c.pysam.c:246-249 | every slot of the new window holds the diploid recurrence term and no other slot changes |
| Recursion.DiploidTermSign | bcftools/prob1.c.pysam.c:246-249 | the diploid term is non-negative, positive when p0 and z[k] are and k <= M0 |
| Recursion.DiploidTermsSign | bcftools/prob1.c.pysam.c:246-249 | the diploid terms of a window are non-negative; their sum is positive when p0 and z at the lower end are positive and that end is at most M0 |
| Recursion.HaploidStep | bcftools/prob1.c.pysam.c:280-282 | every slot of the new window holds the haploid recurrence term and no other slot changes |
| Recursion.HaploidTermSign | bcftools/prob1.c.pysam.c:280-282 | the haploid term is non-negative, positive when p0 and z[k] are and k <= M0 |
| Recursion.HaploidTermsSign | bcftools/prob1.c.pysam.c:280-282 | the haploid terms of a window are non-negative; their sum is positive when p0 and z at the lower end are positive and that end is at most M0 |
| Recursion.WindowSum | bcftools/prob1.c.pysam.c:250 | the sum of the window |
| Recursion.Normalise | bcftools/prob1.c.pysam.c:252 | the window is divided by its sum; nothing else changes |
| Recursion.SumAndNormalise | bcftools/prob1.c.pysam.c:250-254 | the sum is that of the terms written over the window, and the buffer becomes the normalised terms with the one or two slots below cleared |
| Recursion.NormaliseAndClear | bcftools/prob1.c.pysam.c:252-254 | the window becomes its old entries divided by the sum, the one or two slots below it become zero, and nothing else changes |
| Recursion.NormalisedSign | bcftools/prob1.c.pysam.c:250-252 | dividing non-negative terms by their sum keeps them non-negative, and a positive sum leaves total mass 1 |
| Recursion.SettledWindow | bcftools/prob1.c.pysam.c:246-254 | the window written into a buffer reads back as written |
| Recursion.SettledTwice | bcftools/prob1.c.pysam.c:246-252 | writing the terms and then their normalised values over the same window is the same as writing only the normalised values |
| Recursion.SettledSign | bcftools/prob1.c.pysam.c:246-254 | writing non-negative values into a non-negative buffer keeps it non-negative |
| Recursion.DiploidFill | bcftools/prob1.c.pysam.c:243-249 | the window is pruned as by Prune and moves up by two, and the new buffer holds the diploid terms over it |
| Recursion.DiploidUpdate | bcftools/prob1.c.pysam.c:243-254 | one diploid sample before the tail clearing: the pruned window, the sum of its terms, the terms divided by that sum, and the two slots below zeroed |
| Recursion.HaploidFill | bcftools/prob1.c.pysam.c:273-282 | the window is pruned as by Prune and moves up by one, and the new buffer holds the haploid terms over it |
| Recursion.HaploidUpdate | bcftools/prob1.c.pysam.c:273-286 | one haploid sample before the tail clearing: the pruned window, the sum of its terms, the terms divided by that sum, and the slot below zeroed |
| Recursion.ClearTail | bcftools/prob1.c.pysam.c:256 | the slots mx+1 .. mx+count that lie inside the buffer become zero and nothing else changes |
| Recursion.ClearedTailKeeps | bcftools/prob1.c.pysam.c:256 | clearing above mx leaves the window [lo, mx] as it was and keeps a non-negative buffer non-negative |
| Recursion.WrittenWindow | bcftools/prob1.c.pysam.c:250-256 | writing the normalised non-negative terms and clearing the tail leaves a non-negative buffer, holding a distribution on the window when the sum is positive |
| Recursion.AdvanceSign | bcftools/prob1.c.pysam.c:243-256 | one sample (prune, write, normalise, clear) keeps both buffers non-negative, gives a non-negative sum, and leaves a distribution on the window whenever the sum is positive |
| Recursion.DiploidNext | bcftools/prob1.c.pysam.c:243-256 | one diploid sample on values: the new window starts inside the old one and spans at least three slots, ending at most two past it; a one-slot window at lo becomes [lo, lo + 2] |
| Recursion.DiploidNextSign | bcftools/prob1.c.pysam.c:243-256 | with non-negative likelihoods and buffers, a diploid sample keeps both buffers non-negative and its sum non-negative |
| Recursion.DiploidNextWindow | bcftools/prob1.c.pysam.c:243-256 | with p0 > 0, a diploid sample turns a distribution on the window into one on the new window, with a positive sum |
| Recursion.HaploidNext | bcftools/prob1.c.pysam.c:273-288 | one haploid sample on values: the new window starts inside the old one and spans at least two slots, ending at most one past it; a one-slot window at lo becomes [lo, lo + 1] |
| Recursion.HaploidNextSign | bcftools/prob1.c.pysam.c:273-288 | with non-negative likelihoods and buffers, a haploid sample keeps both buffers non-negative and its sum non-negative |
| Recursion.HaploidNextWindow | bcftools/prob1.c.pysam.c:273-288 | with p0 > 0, a haploid sample turns a distribution on the window into one on the new window, with a positive sum |
| Recursion.PruneNext | bcftools/prob1.c.pysam.c:273-274 | a sample of another ploidy only prunes: the window shrinks inside the old one |
| Recursion.PruneNextSign | bcftools/prob1.c.pysam.c:273-274 | pruning alone keeps both buffers non-negative |
| Passes.TailSlotsOverrun | bcftools/prob1.c.pysam.c:302 | with ploidies (2, 1), after the first sample of the mixed pass the window ends at 2, so the second slot the C code clears is 4, one past the last entry of the (M + 1)-entry buffers |
| Recursion.TailSlotsInside | bcftools/prob1.c.pysam.c:288 | the slots cleared above a window end mx stay within M exactly when mx plus the ploidy does not pass M |
| Passes.CopyPrefix | bcftools/prob1.c.pysam.c:259 | the first len entries are copied and the rest of the destination is untouched |
| Passes.LogSumStep | bcftools/prob1.c.pysam.c:251 | t accumulates the log of each sample's normaliser |
| Passes.TotalPrefix | bcftools/prob1.c.pysam.c:275-276 | the samples before j never count more chromosomes than the whole cohort |
| Passes.Denominator | bcftools/prob1.c.pysam.c:284-297 | the divisor of a sample's normaliser, M (M - 1) for a diploid and M for a haploid, is positive |
| Passes.NormaliserPositive | bcftools/prob1.c.pysam.c:251 | a positive window sum gives a positive normaliser |
| Passes.DiploidSample | bcftools/prob1.c.pysam.c:243-256 | one diploid sample on the arrays, including the tail clearing, is DiploidNext on their contents with the roles of the buffers swapped |
| Passes.HaploidSample | bcftools/prob1.c.pysam.c:277-288 | one haploid sample on the arrays, including the tail clearing, is HaploidNext on their contents with the roles of the buffers swapped |
| Passes.UniformSample | bcftools/prob1.c.pysam.c:236-262 | one all-diploid sample on values: the window starts no lower and stays within [0, 2 (j + 1 - beg)] |
| Passes.UniformState | bcftools/prob1.c.pysam.c:234-263 | the all-diploid pass after samples beg .. j-1: buffers of 2n + 1 entries, the window within [0, 2 (j - beg)], one normaliser per sample |
| Passes.UniformAfterIs | bcftools/prob1.c.pysam.c:241-256 | sample j of the pass is the diploid update with p = (pdg0, 2 pdg1, pdg2) and M0 = 2 (j - beg), clearing the tail except after the last sample |
| Passes.UniformStateNext | bcftools/prob1.c.pysam.c:236-262 | the state after sample j is that update's buffers, with its sum over M (M - 1) appended to the normalisers |
| Passes.UniformStateStart | bcftools/prob1.c.pysam.c:229-233 | the pass starts from the starting buffers with no normalisers |
| Passes.UniformNormsStep | bcftools/prob1.c.pysam.c:251 | each sample appends exactly one normaliser |
| Passes.UniformSampleSign | bcftools/prob1.c.pysam.c:242-256 | with non-negative likelihoods and buffers, both buffers stay non-negative after one all-diploid sample |
| Passes.UniformSampleWindow | bcftools/prob1.c.pysam.c:242-256 | with positive likelihoods and M < 2^31, a distribution on the window stays one after a sample, whose sum is positive |
| Passes.UniformStepSign | bcftools/prob1.c.pysam.c:236-263 | non-negativity of both buffers carries from one sample of the pass to the next |
| Passes.UniformStateSign | bcftools/prob1.c.pysam.c:234-263 | with non-negative likelihoods both buffers are non-negative after every prefix of the all-diploid pass |
| Passes.UniformStepWindow | bcftools/prob1.c.pysam.c:236-263 | a distribution on the window carries to the next sample, which appends one positive normaliser |
| Passes.UniformStateWindow | bcftools/prob1.c.pysam.c:234-263 | with positive likelihoods and M < 2^31, after every prefix of the all-diploid pass the window holds a distribution and every normaliser is positive |
| Passes.UniformStep | bcftools/prob1.c.pysam.c:237-262 | one sample on the arrays: the buffers, swapped, become UniformState after sample j, and norm is that sample's normaliser |
| Passes.UniformPass | bcftools/prob1.c.pysam.c:229-265 | the buffer returned and the other one are UniformState's buffers after sample n - 1, and t is the log sum of its normalisers; exactly when beg < n1, t1 is the log sum up to sample n1 - 1 and z1[0 .. 2 n1] the distribution there, the rest of z1 untouched |
| Passes.MixedSample | bcftools/prob1.c.pysam.c:268-305 | one mixed-ploidy sample on values: the window starts no lower and stays within the chromosomes counted so far |
| Passes.Appended | bcftools/prob1.c.pysam.c:284-297 | a sample adds a normaliser exactly when its ploidy is 1 or 2 |
| Passes.MixedState | bcftools/prob1.c.pysam.c:266-306 | the mixed-ploidy pass after samples 0 .. j-1: buffers of M + 1 entries, the window within the chromosomes of those samples, at most one normaliser per sample |
| Passes.MixedAfterIs | bcftools/prob1.c.pysam.c:272-303 | sample j is the haploid update with (pdg0, pdg2) at ploidy 1 and the diploid update with (pdg0, 2 pdg1, pdg2) at ploidy 2, clearing the tail except after the last sample; any other ploidy only prunes |
| Passes.MixedStateNext | bcftools/prob1.c.pysam.c:268-305 | the state after sample j is that update's buffers, with its sum over the divisor appended when the ploidy is 1 or 2 |
| Passes.MixedStateStart | bcftools/prob1.c.pysam.c:229-233 | the pass starts from the starting buffers with no normalisers |
| Passes.MixedSampleSign | bcftools/prob1.c.pysam.c:273-303 | whatever the ploidy, non-negative likelihoods and buffers stay non-negative after a sample |
| Passes.MixedSampleWindow | bcftools/prob1.c.pysam.c:277-302 | for ploidy 1 or 2 with positive likelihoods, a distribution on the window stays one after the sample, whose sum is positive |
| Passes.MixedStepSign | bcftools/prob1.c.pysam.c:268-306 | non-negativity of both buffers carries from one sample of the mixed pass to the next |
| Passes.MixedStateSign | bcftools/prob1.c.pysam.c:266-306 | with non-negative likelihoods both buffers are non-negative after every prefix of the mixed-ploidy pass |
| Passes.MixedStepWindow | bcftools/prob1.c.pysam.c:268-306 | a sample of ploidy 1 or 2 carries a distribution on the window to the next and appends one positive normaliser |
| Passes.MixedStateWindow | bcftools/prob1.c.pysam.c:266-306 | when every ploidy is 1 or 2, the likelihoods are positive and M < 2^31, after every prefix of the pass the window holds a distribution and every normaliser is positive |
| Passes.MixedStep | bcftools/prob1.c.pysam.c:269-305 | one sample on the arrays: the buffers, swapped, become MixedState after sample j; a normaliser is returned and appended exactly for ploidy 1 or 2 |
| Passes.MixedPass | bcftools/prob1.c.pysam.c:229-307 | the buffer returned and the other one are MixedState's buffers after the last sample, and t is the log sum of its normalisers |
| Prob1.P1Aux.CoreState | bcftools/prob1.c.pysam.c:221-307 | what mc_cal_y_core computes on values: buffers of M + 1 entries with the window inside [0, M] |
| Prob1.P1Aux.CoreStateShape | bcftools/prob1.c.pysam.c:221-307 | non-negative likelihoods give non-negative buffers; regular ones (positive, M < 2^31, ploidies 1 or 2) give a distribution on the window and positive normalisers; the same for the first group's prefix |
| Prob1.P1Aux.UniformRun | bcftools/prob1.c.pysam.c:234-308 | the all-diploid branch: z ends holding UniformState's distribution and t the log sum of its normalisers; z1 and t1 take the values after sample n1 - 1 exactly when beg < n1 |
| Prob1.P1Aux.MixedRun | bcftools/prob1.c.pysam.c:266-308 | the mixed-ploidy branch: z ends holding MixedState's distribution after every sample and t the log sum of its normalisers |
| Prob1.P1Aux.CalYCore | bcftools/prob1.c.pysam.c:221-311 | z holds CoreState's distribution and t the log sum of its normalisers; when the pass crosses sample n1 - 1, t1 and z1[0 .. 2 n1] take the values there, otherwise they are untouched; with the sign and distribution facts of CoreStateShape |
| Prob1.P1Aux.SecondGroup | bcftools/prob1.c.pysam.c:317-323 | t1 = 0, t2 is the log sum of the normalisers of the pass over samples n1 .. n-1, and z2[0 .. 2 (n - n1)] its distribution; the rest of z1 and z2 is untouched |
| Prob1.P1Aux.KeepSecond | bcftools/prob1.c.pysam.c:323 | z2[0 .. 2 (n - n1)] becomes the second group's distribution, with its non-negativity and window; the rest of z2 is untouched |
| Prob1.P1Aux.FirstGroup | bcftools/prob1.c.pysam.c:324-327 | the pass over every sample leaves t and z as in CalYCore, t1 and z1[0 .. 2 n1] as after sample n1 - 1, and z is then scaled by exp(t - (t1 + t2)) |
| Prob1.P1Aux.BothGroups | bcftools/prob1.c.pysam.c:315-327 | z1, t1 are the first group's pass, z2, t2 the second group's, and z the whole cohort's distribution times exp(t - (t1 + t2)) |
| Prob1.P1Aux.CalY | bcftools/prob1.c.pysam.c:313-329 | z is CalYResult: the whole cohort's distribution, times exp(t - (t1 + t2)) when both groups are set, which then also fixes z1, t1, z2 and t2; otherwise the group state is untouched |
| Prob1.PrefixShape | bcftools/prob1.c.pysam.c:323 | a prefix of a non-negative buffer is non-negative, and a prefix that contains the window keeps its distribution |
| Prob1.ClearPrefix | bcftools/prob1.c.pysam.c:318-319 | the first len entries become zero and the rest is untouched |
| Prob1.Scale | bcftools/prob1.c.pysam.c:325-327 | every entry is multiplied by x |
| Contrast.Chi2Test | bcftools/prob1.c.pysam.c:335-342 | 1 when a margin is zero; a probability when kf_gammaq is one |
| Contrast.HalfChi2Sign | bcftools/prob1.c.pysam.c:339-341 | the chi-square statistic is non-negative and zero exactly when ad = bc |
| Contrast.HalfChi2SwapGroups | bcftools/prob1.c.pysam.c:335-342 | swapping the two groups leaves the margins and the statistic unchanged |
| Contrast.SideByCrossProduct | bcftools/prob1.c.pysam.c:349-351 | the side of a split compares k1/n1 with k2/n2 by cross products |
| Contrast.HgPositive | bcftools/prob1.c.pysam.c:368-374 | every hypergeometric entry is positive when exp is |
| Contrast.KeptBySide | bcftools/prob1.c.pysam.c:348-352 | the three sides split a kept cell's mass |
| Contrast.Aux | bcftools/prob1.c.pysam.c:345-354 | -1 below CONTRAST_TINY with x unchanged; otherwise the mass goes to its side and y is a share of it |
| Contrast.ScanDown | bcftools/prob1.c.pysam.c:400-403 | the masses only grow, z grows by at most what they gain, and no side grows by more than the row's kept mass on that side over columns 0..k20 |
| Contrast.ScanUp | bcftools/prob1.c.pysam.c:404-407 | the same for the upward scan, bounded by the row's kept mass over columns k20+1..2 n2 |
| Contrast.RowMassGrows | bcftools/prob1.c.pysam.c:404-407 | taking in more columns never lowers a row's side mass |
| Contrast.RowGain | bcftools/prob1.c.pysam.c:404-407 | masses that grew by a row's side masses over a run of columns grew by no more than the row's side masses from the run's start to the end of the row |
| Contrast.Sweep | bcftools/prob1.c.pysam.c:395-421 | the fast sweep: masses non-negative, no side above the whole grid's kept mass on that side (each cell is visited at most once), and z a share of their total |
| Contrast.FullRow | bcftools/prob1.c.pysam.c:425-426 | one row of the full pass adds exactly its kept masses by side |
| Contrast.FullPass | bcftools/prob1.c.pysam.c:422-426 | the full pass returns exactly the grid masses by side, and z is a share of their total |
| Contrast.GridBySide | bcftools/prob1.c.pysam.c:424-426 | the three side masses of the grid add up to its whole kept mass |
| Contrast.GridNonNegative | bcftools/prob1.c.pysam.c:424-426 | the grid masses are non-negative |
| Contrast.Contrast2Core | bcftools/prob1.c.pysam.c:395-430 | Resolved: the fast sweep's masses, never above the grid's on any side, are returned if they reach 0.95, else the full pass's grid masses if those do, else thirds with z = 1; so a grid holding less than 0.95 always gives thirds with z = 1; the result always reaches 0.95 and z is a share of it |
| Contrast.ResolvedOutcome | bcftools/prob1.c.pysam.c:421-429 | whatever the sweep collected, a grid holding less than 0.95 in all forces thirds with z = 1, and otherwise no side of the result exceeds the grid's |
| Prob1.P1Aux.Contrast2 | bcftools/prob1.c.pysam.c:356-432 | 0 and nothing changes when a group is empty; otherwise the table is the hypergeometric one for the groups (built on first use), and p_chi2 and the proportions are what Contrast2Core settles on over ContrastTables: they reach 0.95 with the p-value below their total, and are thirds with p-value 1 when the grid holds less than 0.95 |
| Prob1.P1Aux.ContrastTables | bcftools/prob1.c.pysam.c:376-380 | the tables contrast2 works on: phi, z1, z2, the hypergeometric table of the groups and the normaliser sum of phi[k] z[k], shaped for both groups |
| Prob1.P1Aux.ContrastSweep | bcftools/prob1.c.pysam.c:376-430 | with the table built, the normaliser and the two group peaks (first maxima of phi_i z_i from 0) seed Contrast2Core, and the result is Resolved over ContrastTables |
| Summary.ProductSum | bcftools/prob1.c.pysam.c:443-444 | the sum of phi[k] z[k] |
| Summary.FoldedSum | bcftools/prob1.c.pysam.c:450-451 | the sum of the folded prior times z |
| Summary.FoldedInnerSum | bcftools/prob1.c.pysam.c:452-453 | the same sum over 1 .. M-1 |
| Summary.FoldedComplement | bcftools/prob1.c.pysam.c:450-455 | the folded reference and variant probabilities add up to 1 |
| Summary.MomentBounds | bcftools/prob1.c.pysam.c:457-461 | 0 <= sum k a[k] <= M sum a for non-negative a |
| Prob1.NormaliseSpectrum | bcftools/prob1.c.pysam.c:445-446 | afs1[k] = phi[k] z[k] / sum |
| Prob1.ScaledSumsToOne | bcftools/prob1.c.pysam.c:445-446 | afs1 sums to 1 |
| Prob1.FoldedProbabilities | bcftools/prob1.c.pysam.c:450-455 | the folded variant and reference probabilities, which add up to 1 |
| Prob1.Accumulate | bcftools/prob1.c.pysam.c:457-459 | afs[k] grows by afs1[k] |
| Prob1.ExpectedFrequency | bcftools/prob1.c.pysam.c:457-461 | sum k afs1[k] / M, in [0, 1] for a distribution |
| Prob1.Posterior | bcftools/prob1.c.pysam.c:445-461 | afs1 is the posterior and sums to 1; afs accumulates it; the folded probabilities and the expected frequency |
| Prob1.Afs | bcftools/prob1.c.pysam.c:441-461 | -1 with nothing changed when phi times z sums to 0; otherwise the Posterior facts |
| Prob1.P1Aux.CalAfs | bcftools/prob1.c.pysam.c:434-462 | afs1 is cleared and z, t, t1, z1, t2 and z2 computed as CalY does (z = CalYResult, the group buffers from SplitState and SecondState when groups are set, unchanged otherwise); then the spectrum of the active prior (indel or SNP) times z, added into afs, as in Afs |
| Summary.RefVarMass | bcftools/prob1.c.pysam.c:477-480 | p_var is the mass of afs1 below M and p_ref + p_var its whole mass |
| Summary.FirstMax | bcftools/prob1.c.pysam.c:384-393 | the first strict maximum above the floor, or -1 when none passes it |
| Summary.PeakIsMaximum | bcftools/prob1.c.pysam.c:511-516 | the peak is at least the floor and every entry, and is the floor or an entry |
| Summary.AlleleCount | bcftools/prob1.c.pysam.c:481-487 | M minus the first maximum of z; M+1 exactly when no entry exceeds -1 |
| Summary.MomentQuotients | bcftools/prob1.c.pysam.c:492-495 | dividing each term by the sum divides the moment by it |
| Summary.SumAll | bcftools/prob1.c.pysam.c:489-490 | the sum of z |
| Summary.ScaledMoment | bcftools/prob1.c.pysam.c:492-495 | sum k z[k]/sum |
| Summary.FlatFrequency | bcftools/prob1.c.pysam.c:489-496 | f_flat is the moment of z over its sum over M, in [0, 1] for non-negative z with a positive sum |
| Summary.LowerTail | bcftools/prob1.c.pysam.c:499-502 | l is the first index whose prefix mass passes 0.025 (M+1 if none) |
| Summary.UpperTail | bcftools/prob1.c.pysam.c:503-506 | h is the last index whose suffix mass passes 0.025 (-1 if none) |
| Summary.TailsOrdered | bcftools/prob1.c.pysam.c:497-507 | for a distribution the two tails leave 0 <= l <= h <= M |
| Summary.Interval | bcftools/prob1.c.pysam.c:497-509 | l and h are the tail ends of afs1 (TailEnds: first index whose prefix mass passes 0.025, else M+1; last index whose suffix mass does, else -1), cil = (M-h)/M, cih = (M-l)/M, and 0 <= cil <= cih <= 1 for a distribution |
| Summary.TailEndsUnique | bcftools/prob1.c.pysam.c:497-507 | the tail ends are determined by the spectrum, so cil and cih are too |
| Summary.LrtPValue | bcftools/prob1.c.pysam.c:517-518 | 1 when log(max1 max2 / max0) < 0, else kf_gammaq(.5, lrt); a probability when kf_gammaq is one |
| Summary.LikelihoodRatio | bcftools/prob1.c.pysam.c:510-520 | the LRT from the peaks of z, z1 and z2 |
| Prob1.ReadSpectrum | bcftools/prob1.c.pysam.c:476-521 | SpectrumRead: p_var is afs1's mass below M and p_ref + p_var its whole mass; ac is M minus the first maximum of z (M+1 exactly when no entry exceeds -1); f_flat the flat-prior frequency; cil = (M-h)/M and cih = (M-l)/M for the tail ends l, h of afs1; the LRT from the peaks of z, z1 and z2 with groups set, -1 otherwise; the contrast fields -1 |
| Prob1.ContrastKeepsSpectrum | bcftools/prob1.c.pysam.c:522-523 | the contrast changes only the contrast fields |
| Prob1.P1Aux.Report | bcftools/prob1.c.pysam.c:476-523 | the spectrum summaries of SpectrumRead, and, exactly when asked for and p_var > 1/2, the contrast as Contrast2 settles it over ContrastTables |
| Prob1.P1Aux.Evaluate | bcftools/prob1.c.pysam.c:475-523 | the reference rank (below nAllele; for at most 16 alleles the number of alleles whose summed PL is below the reference's, as CalPdg proves), the likelihoods P(D\|g) of the PL rows, z = CalYResult of them, with groups set t1, z1 and t2, z2 from the passes over each group (otherwise unchanged), the spectrum of the active prior times z added into afs (afs unchanged when it sums to 0), and the summaries |
| Prob1.P1Aux.Cal | bcftools/prob1.c.pysam.c:464-525 | records the site kind and the PL rows; -1 with perm_rank -1 and no buffer, log-normaliser or table changed below two alleles; otherwise 0 and the site evaluated as Evaluate states, reference-rank count, afs accumulation and group buffers included |
| Prob1.P1Aux.DumpAfs | bcftools/prob1.c.pysam.c:534 | the accumulated spectrum is reset to zero |
| VcfQuery.CompareHeader | bcftools/vcfquery.c.pysam.c:209-216 | na - nb when the counts differ; otherwise 0 exactly when the names match, else 1 |
| VcfQuery.BuildAnnotsFormat | bcftools/vcfquery.c.pysam.c:285-301 | the fixed prefix, the argument with each comma turned into a tab and %, and a newline; no comma left and length 30 + the argument + its commas |
| VcfQuery.FormatHasNoComma | bcftools/vcfquery.c.pysam.c:290-298 | the built format has no comma |
| VcfQuery.FormatLength | bcftools/vcfquery.c.pysam.c:287-298 | the built format's length is 30 + the argument + its commas |
| VcfQuery.TabbedRoundTrip | bcftools/vcfquery.c.pysam.c:290-297 | for an argument with no tab, turning each tab-% back into a comma recovers it |
| VcfQuery.ParseFilter | bcftools/vcfquery.c.pysam.c:302-307 | an error exactly when two or more -i/-e options appear; otherwise the one expression with FLT_INCLUDE or FLT_EXCLUDE, or no filter |
| VcfQuery.ExcludeBitOfExclude | bcftools/vcfquery.c.pysam.c:302-307 | the exclude bit is set exactly for -e |
| VcfQuery.FlipMask | bcftools/vcfquery.c.pysam.c:157-162 | every sample flag flips and the site passes exactly when some sample did not pass |
| VcfQuery.FlipMaskTwice | bcftools/vcfquery.c.pysam.c:157-162 | on a 0/1 mask the flip gives a 0/1 mask, flipping twice restores it, and some flag is 0 after the flip exactly when some sample had passed |
| VcfQuery.FlippedSelection | bcftools/vcfquery.c.pysam.c:157-163 | after the flip a sample is selected exactly when it failed, and some sample is selected exactly when some failed |
| VcfQuery.PassAll | bcftools/vcfquery.c.pysam.c:165-166 | every sample flag becomes 1 |
| VcfQuery.FilterSite | bcftools/vcfquery.c.pysam.c:143-168 | no filter shows the site; include shows it when it passes; exclude hides a passing site unless some sample failed (then the mask is flipped) and shows a failing one with every sample selected |

## Left out

- Floating point. Values are exact reals, so rounding, the `long double`
  accumulators, NaN and infinity are not modelled. Division by zero in an
  unguarded place is `Summary.CDiv`, which returns 0, and
  `Recursion.Normalised`, which leaves the terms of a window whose sum is 0
  as they are.
- Prob1.Afs: when phi times z sums to 0, the C code stores NaN in afs1[0]
  before returning -1. The model leaves afs1 cleared instead.
- Integer widths: the C `int` products of the recurrences and of the
  hypergeometric table are unbounded here. A ploidy is a `nat`, not a
  `uint8_t`.
- libm and `kf_gammaq` are parameters. Nothing is assumed of them beyond
  what each property names as a premise.
- Output:
  - the `gzwrite` of z to `bcf_p1_fp_lk`;
  - the stderr messages of `bcf_p1_set_n1` and `bcf_p1_dump_afs`;
  - the printing of the spectrum.
- Memory management: `bcf_p1_destroy`, the malloc/free of the score
  buffer above 16 alleles. `lf` is computed but used by no modelled
  operation.
- Prob1.P1Aux.SetN1 requires that no hypergeometric table has been
  built. The C code keeps a stale table when n1 changes after
  `contrast2`; the model does not follow that path.
- M = 0 and n = 0: `Cal`, `CalAfs` and `Afs` require M >= 1, and `Cal`
  requires n >= 1, because the C code divides by both.
- Prob1.P1Aux.Cal requires PL values in 0..255, the range of the q2p table.
- Prob1.P1Aux.Cal splits the PL values into rows by the context's sample
  count n. The C code divides by the record's sample count, and the model
  takes the two to be equal.
- Contrast.Sweep does not state which cells the early breaks visit: its
  masses are bounded by the grid's side masses, not equated with the
  masses of the cells it reaches.
- Prob1.P1Aux.CalPdg and Ranking.RankAlleles: the reference rank is
  characterised as a count only for at most 16 alleles. Above that, the
  4-bit index field overflows into the score, as in the C code.
- Passes.MixedState, and so Passes.MixedPass, uses the corrected tail
  clearing (see Findings): slots past the buffer are not written.
- Passes.MixedStateWindow proves a distribution on the window only when
  every ploidy is 1 or 2. A sample of another ploidy only prunes, and the
  mass it zeroes is not renormalised.
- Passes.UniformStateWindow and Passes.MixedStateWindow assume M < 2^31.
  Below that bound a distribution cannot lie wholly below TINY = 1e-20,
  so the window left by pruning keeps a positive sum.
- The likelihood file, `bcf_p1_get_M` and the other accessors of
  `prob1.c` are not part of this model.
- In `vcfquery.c`, these are not part of this model:
  - `filter_test`, which appears as the site verdict `pass` and the
    sample mask;
  - the format conversion;
  - reading and writing records.
- VcfQuery.ParseFilter covers only the `-i`/`-e` options. The process
  exit of `error()` is the `Failure` result.

## Findings

| source | as written | input that shows it | evidently intended | confidence | as-written member | corrected member |
|---|---|---|---|---|---|---|
| bcftools/prob1.c.pysam.c:302 | after every diploid sample except the last, the mixed-ploidy pass zeroes z[_max+1] and z[_max+2] | ploidies (2, 1), so M = 3: after the first sample _max = 2, and z[4] is written past the M+1 = 4 entries of zswap | clear only the slots inside the buffer (slot 3) | not executed | Passes.TailSlotsOverrun | Recursion.ClearTail |
