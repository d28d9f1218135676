/** Allele ranking of cal_pdg (prob1.c): each allele's summed homozygous PL
    is packed as `score << 4 | i`, the keys are insertion-sorted ascending,
    and the last position holding a key whose low nibble is 0 is returned. */
module Ranking {

  /** Index of the genotype a/b (a <= b) in a PL array, in the genotype
      ordering of section 1.6.2 of the VCF 4.3 specification. */
  function GenotypeIndex(a: nat, b: nat): nat
    requires a <= b
  {
    b * (b + 1) / 2 + a
  }

  /** The position cal_pdg reads for allele i's homozygous likelihood. */
  function HomIndex(i: nat): (r: int)
  {
    (i + 1) * (i + 2) / 2 - 1
  }

  /** HomIndex reads exactly the homozygous genotype i/i, and stays inside a
      PL array of n(n+1)/2 entries for every allele i < n. */
  lemma HomIndexIsDiagonal(i: nat, n: nat)
    requires i < n
    ensures HomIndex(i) == GenotypeIndex(i, i)
    ensures 0 <= HomIndex(i) < n * (n + 1) / 2
  {
    var a := i * (i + 1);
    var b := (i + 1) * (i + 2);
    var c := n * (n + 1);
    assert b == a + 2 * (i + 1);
    ProductOfConsecutiveIsEven(i);
    HalfOfEvenPlus(a, i + 1);
    ProductMonotone(i + 1, i + 2, n, n + 1);
    assert b / 2 <= c / 2;
  }

  lemma {:induction false} ProductOfConsecutiveIsEven(i: nat)
    ensures i * (i + 1) % 2 == 0
  {
    if i > 0 {
      ProductOfConsecutiveIsEven(i - 1);
      assert i * (i + 1) == (i - 1) * i + 2 * i;
    }
  }

  lemma HalfOfEvenPlus(a: int, b: int)
    requires a % 2 == 0
    ensures (a + 2 * b) / 2 == a / 2 + b
  {
  }

  lemma ProductMonotone(a: nat, b: nat, c: nat, d: nat)
    requires a <= c && b <= d
    ensures a * b <= c * d
  {
    assert a * b <= c * b;
    assert c * b <= c * d;
  }

  /** Bitwise OR of two non-negative integers. */
  function BitOr(a: nat, b: nat): (r: nat)
    decreases a + b
  {
    if a == 0 then b
    else if b == 0 then a
    else 2 * BitOr(a / 2, b / 2) + (if a % 2 == 1 || b % 2 == 1 then 1 else 0)
  }

  lemma BitOrZero(a: nat)
    ensures BitOr(a, 0) == a
  {
  }

  /** `score << 4 | i` for a non-negative score. */
  function Key(score: nat, i: nat): nat
  {
    16 * BitOr(score, i / 16) + i % 16
  }

  /** Below 16 alleles the key is score * 16 + i: the low nibble is the index
      and the keys order by score first, then by index. */
  lemma KeySmallIndex(score: nat, i: nat)
    requires i < 16
    ensures Key(score, i) == 16 * score + i
    ensures Key(score, i) % 16 == i
  {
    BitOrZero(score);
  }

  predicate NonNegativeScores(s: seq<int>)
  {
    forall i :: 0 <= i < |s| ==> s[i] >= 0
  }

  function Keys(scores: seq<int>): (r: seq<int>)
    requires NonNegativeScores(scores)
    ensures |r| == |scores|
  {
    seq(|scores|, i requires 0 <= i < |scores| => Key(scores[i], i))
  }

  predicate Sorted(s: seq<int>)
  {
    forall p, q :: 0 <= p < q < |s| ==> s[p] <= s[q]
  }

  /** Number of elements of `s` strictly below `x`. */
  function CountBelow(s: seq<int>, x: int): nat
  {
    if |s| == 0 then 0
    else CountBelow(s[..|s| - 1], x) + (if s[|s| - 1] < x then 1 else 0)
  }

  lemma {:induction false} CountBelowAppend(a: seq<int>, b: seq<int>, x: int)
    ensures CountBelow(a + b, x) == CountBelow(a, x) + CountBelow(b, x)
  {
    if |b| == 0 {
      assert a + b == a;
    } else {
      assert (a + b)[..|a + b| - 1] == a + b[..|b| - 1];
      CountBelowAppend(a, b[..|b| - 1], x);
    }
  }

  /** Counting is insensitive to order: a permutation has the same count. */
  lemma {:induction false} CountBelowPermutation(s: seq<int>, t: seq<int>, x: int)
    requires multiset(s) == multiset(t)
    ensures CountBelow(s, x) == CountBelow(t, x)
  {
    if |s| == 0 {
      assert |t| == |multiset(t)| == 0;
    } else {
      var n := |s| - 1;
      var v := s[n];
      assert s == s[..n] + [v];
      assert v in multiset(t);
      var j :| 0 <= j < |t| && t[j] == v;
      var t' := t[..j] + t[j + 1..];
      assert t == t[..j] + [v] + t[j + 1..];
      assert multiset(t') == multiset(t) - multiset{v};
      assert multiset(s[..n]) == multiset(s) - multiset{v};
      CountBelowPermutation(s[..n], t', x);
      CountBelowAppend(t[..j] + [v], t[j + 1..], x);
      CountBelowAppend(t[..j], [v], x);
      CountBelowAppend(t[..j], t[j + 1..], x);
      assert CountBelow([v], x) == (if v < x then 1 else 0) by {
        assert [v][..0] == [];
      }
    }
  }

  /** Two sequences that agree elementwise on "below the threshold" have the
      same count. */
  lemma {:induction false} CountBelowMatch(s: seq<int>, x: int, t: seq<int>, y: int)
    requires |s| == |t|
    requires forall i :: 0 <= i < |s| ==> (s[i] < x <==> t[i] < y)
    ensures CountBelow(s, x) == CountBelow(t, y)
  {
    if |s| > 0 {
      CountBelowMatch(s[..|s| - 1], x, t[..|t| - 1], y);
    }
  }

  /** In a sequence split at r into "below x" and "not below x", the count
      is r. */
  lemma {:induction false} CountBelowSplit(t: seq<int>, x: int, r: nat)
    requires r <= |t|
    requires forall j :: 0 <= j < r ==> t[j] < x
    requires forall j :: r <= j < |t| ==> t[j] >= x
    ensures CountBelow(t, x) == r
  {
    if |t| > 0 {
      var n := |t| - 1;
      if r <= n {
        CountBelowSplit(t[..n], x, r);
      } else {
        CountBelowSplit(t[..n], x, n);
      }
    }
  }

  /** A value present at two distinct positions occurs at least twice. */
  lemma TwoPositions(t: seq<int>, i: nat, j: nat)
    requires i < j < |t| && t[i] == t[j]
    ensures multiset(t)[t[i]] >= 2
  {
    assert t == t[..i] + [t[i]] + t[i + 1..j] + [t[j]] + t[j + 1..];
  }

  /** With at most 16 alleles, allele 0's key occurs exactly once among the
      keys, and it is the only key whose low nibble is 0. */
  lemma KeysOfFewAlleles(scores: seq<int>)
    requires 1 <= |scores| <= 16 && NonNegativeScores(scores)
    ensures multiset(Keys(scores))[Keys(scores)[0]] == 1
    ensures forall i :: 0 <= i < |scores| ==> Keys(scores)[i] % 16 == i
  {
    var k := Keys(scores);
    forall i | 0 <= i < |scores|
      ensures k[i] == 16 * scores[i] + i && k[i] % 16 == i
    {
      KeySmallIndex(scores[i], i);
    }
    assert k == [k[0]] + k[1..];
    assert k[0] !in multiset(k[1..]) by {
      forall i | 0 <= i < |k[1..]|
        ensures k[1..][i] != k[0]
      {
        assert k[1..][i] % 16 == i + 1;
      }
    }
  }

  /** Keys compare like scores against allele 0 when there are at most 16
      alleles: an allele's key is below allele 0's exactly when its summed PL
      is strictly below allele 0's. */
  lemma KeyOrderMatchesScore(scores: seq<int>)
    requires 1 <= |scores| <= 16 && NonNegativeScores(scores)
    ensures CountBelow(Keys(scores), Keys(scores)[0]) == CountBelow(scores, scores[0])
  {
    var k := Keys(scores);
    forall i | 0 <= i < |scores|
      ensures k[i] < k[0] <==> scores[i] < scores[0]
    {
      KeySmallIndex(scores[i], i);
      KeySmallIndex(scores[0], 0);
    }
    CountBelowMatch(k, k[0], scores, scores[0]);
  }

  /** In a sorted permutation of the keys of at most 16 alleles, a position
      holding a zero-nibble key sits after exactly the alleles whose summed PL
      is below allele 0's. */
  lemma SortedRankCounts(t: seq<int>, scores: seq<int>, rank: nat)
    requires 1 <= |scores| <= 16 && NonNegativeScores(scores)
    requires Sorted(t) && multiset(t) == multiset(Keys(scores))
    requires rank < |t| && t[rank] % 16 == 0
    ensures rank == CountBelow(scores, scores[0])
  {
    var k := Keys(scores);
    KeysOfFewAlleles(scores);
    ZeroNibbleKey(t, scores, rank);
    BelowUniqueKey(t, k[0], rank);
    CountBelowSplit(t, k[0], rank);
    CountBelowPermutation(t, k, k[0]);
    KeyOrderMatchesScore(scores);
  }

  /** The only key with a zero low nibble is allele 0's. */
  lemma ZeroNibbleKey(t: seq<int>, scores: seq<int>, rank: nat)
    requires 1 <= |scores| && NonNegativeScores(scores) && multiset(t) == multiset(Keys(scores))
    requires forall i :: 0 <= i < |scores| ==> Keys(scores)[i] % 16 == i
    requires rank < |t| && t[rank] % 16 == 0
    ensures t[rank] == Keys(scores)[0]
  {
    var k := Keys(scores);
    assert t[rank] in multiset(k);
    var i :| 0 <= i < |k| && k[i] == t[rank];
  }

  /** In a sorted sequence, everything before the one occurrence of x is
      below x. */
  lemma BelowUniqueKey(t: seq<int>, x: int, rank: nat)
    requires Sorted(t) && rank < |t| && t[rank] == x && multiset(t)[x] == 1
    ensures forall j :: 0 <= j < rank ==> t[j] < x
    ensures forall j :: rank <= j < |t| ==> t[j] >= x
  {
    forall j | 0 <= j < rank
      ensures t[j] < x
    {
      if t[j] == x {
        TwoPositions(t, j, rank);
      }
    }
  }

  method Swap(a: array<int>, j: int)
    requires 0 < j < a.Length
    modifies a
    ensures a[j - 1] == old(a[j]) && a[j] == old(a[j - 1])
    ensures forall m :: 0 <= m < a.Length && m != j && m != j - 1 ==> a[m] == old(a[m])
    ensures multiset(a[..]) == old(multiset(a[..]))
  {
    a[j - 1], a[j] := a[j], a[j - 1];
  }

  /** The insertion sort of cal_pdg: ascending, a permutation of the input. */
  method InsertionSort(a: array<int>)
    modifies a
    ensures Sorted(a[..])
    ensures multiset(a[..]) == old(multiset(a[..]))
  {
    var i := 1;
    while i < a.Length
      invariant 1 <= i && (i <= a.Length || a.Length == 0)
      invariant forall p, q :: 0 <= p < q < i && q < a.Length ==> a[p] <= a[q]
      invariant multiset(a[..]) == old(multiset(a[..]))
    {
      var j := i;
      while j > 0 && a[j] < a[j - 1]
        invariant 0 <= j <= i < a.Length
        invariant forall p, q :: 0 <= p < q <= i && p != j && q != j ==> a[p] <= a[q]
        invariant forall q :: j < q <= i ==> a[j] <= a[q]
        invariant 0 < j < i ==> a[j - 1] <= a[j + 1]
        invariant multiset(a[..]) == old(multiset(a[..]))
      {
        Swap(a, j);
        j := j - 1;
      }
      i := i + 1;
    }
  }

  /** p[i] becomes the key of allele i. */
  method MakeKeys(p: array<int>)
    requires NonNegativeScores(p[..])
    modifies p
    ensures p[..] == Keys(old(p[..]))
  {
    ghost var scores := p[..];
    for i := 0 to p.Length
      invariant p[i..] == scores[i..]
      invariant p[..i] == Keys(scores)[..i]
    {
      p[i] := Key(p[i], i);
    }
    assert p[..] == Keys(scores);
  }

  /** The last position whose value has a zero low nibble, given that one
      such value is present. */
  method LastZeroNibble(p: array<int>) returns (rank: int)
    requires exists i :: 0 <= i < p.Length && p[i] % 16 == 0
    ensures 0 <= rank < p.Length && p[rank] % 16 == 0
    ensures forall j :: rank < j < p.Length ==> p[j] % 16 != 0
  {
    rank := p.Length - 1;
    while rank >= 0 && p[rank] % 16 != 0
      invariant -1 <= rank < p.Length
      invariant forall j :: rank < j < p.Length ==> p[j] % 16 != 0
    {
      rank := rank - 1;
    }
    if rank < 0 {
      assert false;
    }
  }

  /** cal_pdg's ranking on the per-allele summed PLs `p` (in place): keys,
      sort, then the last position whose key has a zero low nibble. With at
      most 16 alleles that position holds allele 0, and it equals the number
      of alleles whose summed PL is strictly below allele 0's. */
  method RankAlleles(p: array<int>) returns (rank: int)
    requires p.Length >= 1 && NonNegativeScores(p[..])
    modifies p
    ensures Sorted(p[..]) && multiset(p[..]) == multiset(Keys(old(p[..])))
    ensures 0 <= rank < p.Length && p[rank] % 16 == 0
    ensures forall j :: rank < j < p.Length ==> p[j] % 16 != 0
    ensures p.Length <= 16 ==> rank == CountBelow(old(p[..]), old(p[0]))
  {
    ghost var scores := p[..];
    MakeKeys(p);
    InsertionSort(p);
    ghost var k0 := Keys(scores)[0];
    assert k0 % 16 == 0 && k0 in multiset(p[..]);
    assert k0 in p[..];
    rank := LastZeroNibble(p);
    if p.Length <= 16 {
      SortedRankCounts(p[..], scores, rank);
    }
  }
}
