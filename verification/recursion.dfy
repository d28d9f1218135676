/** The per-sample steps of mc_cal_y_core (prob1.c): window pruning, the
    haploid and diploid updates of the allele-count distribution, the window
    sum and the normalisation. Two buffers are involved: `cur` holds the
    distribution over the samples seen so far and `nxt` receives the next
    one. */
module Recursion {
  import opened RealSeq

  /** Entries below this are squashed to 0 when the window is pruned. */
  const TINY: real := 1.0e-20

  /** A distribution window: in bounds, non-negative everywhere, summing to 1
      over [lo, hi]. */
  predicate Window(a: seq<real>, lo: int, hi: int)
  {
    0 <= lo <= hi < |a| && NonNegative(a) && Sum(a[lo..hi + 1]) == 1.0
  }

  /** The diploid recurrence for allele count k >= 2, from the current
      weights at k, k-1 and k-2 and the likelihoods (p0, p1, p2) of the
      sample's three genotypes, `m0` alleles having been seen before. */
  function DiploidCell(m0: int, k: int, p0: real, p1: real, p2: real, zk: real, zk1: real, zk2: real): real
  {
    Combine3((m0 - k + 1) * (m0 - k + 2), k * (m0 - k + 2), k * (k - 1), p0, p1, p2, zk, zk1, zk2)
  }

  /** c0 p0 x0 + c1 p1 x1 + c2 p2 x2, with integer coefficients. */
  function Combine3(c0: int, c1: int, c2: int, p0: real, p1: real, p2: real, x0: real, x1: real, x2: real): real
  {
    c0 as real * p0 * x0 + c1 as real * p1 * x1 + c2 as real * p2 * x2
  }

  /** New weight of allele count k after a diploid sample. The k = 0 and
      k = 1 forms drop the terms that would read below index 0. */
  function DiploidTerm(z: seq<real>, m0: int, p0: real, p1: real, p2: real, k: nat): real
    requires k < |z|
  {
    if k == 0 then ((m0 + 1) * (m0 + 2)) as real * p0 * z[0]
    else if k == 1 then (m0 * (m0 + 1)) as real * p0 * z[1] + (m0 + 1) as real * p1 * z[0]
    else DiploidCell(m0, k, p0, p1, p2, z[k], z[k - 1], z[k - 2])
  }

  /** New weight of allele count k after a haploid sample. */
  function HaploidCell(m0: int, k: int, p0: real, p1: real, zk: real, zk1: real): real
  {
    (m0 + 1 - k) as real * p0 * zk + k as real * p1 * zk1
  }
  function HaploidTerm(z: seq<real>, m0: int, p0: real, p1: real, k: nat): real
    requires k < |z|
  {
    if k == 0 then (m0 + 1) as real * p0 * z[0]
    else HaploidCell(m0, k, p0, p1, z[k], z[k - 1])
  }

  lemma ProductOfNonNegatives(a: real, b: real, c: real)
    requires a >= 0.0 && b >= 0.0 && c >= 0.0
    ensures a * b * c >= 0.0
  {
    assert a * b >= 0.0;
  }

  lemma ProductOfPositives(a: real, b: real, c: real)
    requires a > 0.0 && b > 0.0 && c > 0.0
    ensures a * b * c > 0.0
  {
    assert a * b > 0.0;
  }

  /** The integer coefficients of the diploid update are non-negative for
      every k up to m0 + 2, and the first is positive up to m0. */
  lemma DiploidCoefficients(m0: int, k: nat)
    requires k <= m0 + 2
    ensures (m0 - k + 1) * (m0 - k + 2) >= 0
    ensures k <= m0 ==> (m0 - k + 1) * (m0 - k + 2) > 0
    ensures k * (m0 - k + 2) >= 0 && k * (k - 1) >= 0
  {
    var a := m0 - k + 1;
    if a == -1 {
      assert (m0 - k + 1) * (m0 - k + 2) == 0;
    } else {
      ProductSign(a, a + 1);
    }
    ProductSign(k, m0 - k + 2);
    if k >= 1 {
      ProductSign(k, k - 1);
    }
  }

  lemma ProductSign(x: int, y: int)
    requires x >= 0 && y >= 0
    ensures x * y >= 0
    ensures x > 0 && y > 0 ==> x * y > 0
  {
  }

  /** A diploid term is non-negative, and positive at a k <= m0 whose
      current weight is positive, when the likelihoods are non-negative and
      p0 is positive. */
  lemma DiploidTermSign(z: seq<real>, m0: int, p0: real, p1: real, p2: real, k: nat)
    requires k < |z| && k <= m0 + 2 && NonNegative(z)
    requires p0 >= 0.0 && p1 >= 0.0 && p2 >= 0.0
    ensures DiploidTerm(z, m0, p0, p1, p2, k) >= 0.0
    ensures p0 > 0.0 && k <= m0 && z[k] > 0.0 ==> DiploidTerm(z, m0, p0, p1, p2, k) > 0.0
  {
    if k == 0 {
      DiploidFirstSign(m0, p0, z[0]);
    } else if k == 1 {
      DiploidSecondSign(m0, p0, p1, z[1], z[0]);
    } else {
      DiploidCellSign(m0, k, p0, p1, p2, z[k], z[k - 1], z[k - 2]);
    }
  }

  lemma DiploidFirstSign(m0: int, p0: real, z0: real)
    requires 0 <= m0 + 2 && p0 >= 0.0 && z0 >= 0.0
    ensures ((m0 + 1) * (m0 + 2)) as real * p0 * z0 >= 0.0
    ensures p0 > 0.0 && 0 <= m0 && z0 > 0.0 ==> ((m0 + 1) * (m0 + 2)) as real * p0 * z0 > 0.0
  {
    DiploidCoefficients(m0, 0);
    ProductOfNonNegatives(((m0 + 1) * (m0 + 2)) as real, p0, z0);
    if p0 > 0.0 && 0 <= m0 && z0 > 0.0 {
      ProductOfPositives(((m0 + 1) * (m0 + 2)) as real, p0, z0);
    }
  }

  lemma DiploidSecondSign(m0: int, p0: real, p1: real, z1: real, z0: real)
    requires 1 <= m0 + 2 && p0 >= 0.0 && p1 >= 0.0 && z1 >= 0.0 && z0 >= 0.0
    ensures (m0 * (m0 + 1)) as real * p0 * z1 + (m0 + 1) as real * p1 * z0 >= 0.0
    ensures p0 > 0.0 && 1 <= m0 && z1 > 0.0 ==>
      (m0 * (m0 + 1)) as real * p0 * z1 + (m0 + 1) as real * p1 * z0 > 0.0
  {
    DiploidCoefficients(m0, 1);
    assert (m0 - 1 + 1) * (m0 - 1 + 2) == m0 * (m0 + 1);
    ProductOfNonNegatives((m0 * (m0 + 1)) as real, p0, z1);
    ProductOfNonNegatives((m0 + 1) as real, p1, z0);
    if p0 > 0.0 && 1 <= m0 && z1 > 0.0 {
      ProductOfPositives((m0 * (m0 + 1)) as real, p0, z1);
    }
  }

  lemma DiploidCellSign(m0: int, k: int, p0: real, p1: real, p2: real, zk: real, zk1: real, zk2: real)
    requires 2 <= k <= m0 + 2
    requires p0 >= 0.0 && p1 >= 0.0 && p2 >= 0.0 && zk >= 0.0 && zk1 >= 0.0 && zk2 >= 0.0
    ensures DiploidCell(m0, k, p0, p1, p2, zk, zk1, zk2) >= 0.0
    ensures p0 > 0.0 && k <= m0 && zk > 0.0 ==> DiploidCell(m0, k, p0, p1, p2, zk, zk1, zk2) > 0.0
  {
    DiploidCoefficients(m0, k);
    ThreeTerms((m0 - k + 1) * (m0 - k + 2), k * (m0 - k + 2), k * (k - 1), p0, p1, p2, zk, zk1, zk2);
  }

  /** Sign of a sum of three products with non-negative factors. */
  lemma ThreeTerms(c0: int, c1: int, c2: int, p0: real, p1: real, p2: real, x0: real, x1: real, x2: real)
    requires c0 >= 0 && c1 >= 0 && c2 >= 0
    requires p0 >= 0.0 && p1 >= 0.0 && p2 >= 0.0 && x0 >= 0.0 && x1 >= 0.0 && x2 >= 0.0
    ensures Combine3(c0, c1, c2, p0, p1, p2, x0, x1, x2) >= 0.0
    ensures c0 > 0 && p0 > 0.0 && x0 > 0.0 ==> Combine3(c0, c1, c2, p0, p1, p2, x0, x1, x2) > 0.0
  {
    ProductOfNonNegatives(c0 as real, p0, x0);
    ProductOfNonNegatives(c1 as real, p1, x1);
    ProductOfNonNegatives(c2 as real, p2, x2);
    if c0 > 0 && p0 > 0.0 && x0 > 0.0 {
      ProductOfPositives(c0 as real, p0, x0);
    }
  }

  /** The haploid counterpart of DiploidTermSign, for k up to m0 + 1. */
  lemma HaploidTermSign(z: seq<real>, m0: int, p0: real, p1: real, k: nat)
    requires k < |z| && k <= m0 + 1 && NonNegative(z)
    requires p0 >= 0.0 && p1 >= 0.0
    ensures HaploidTerm(z, m0, p0, p1, k) >= 0.0
    ensures p0 > 0.0 && k <= m0 && z[k] > 0.0 ==> HaploidTerm(z, m0, p0, p1, k) > 0.0
  {
    ProductOfNonNegatives((m0 + 1 - k) as real, p0, z[k]);
    if k >= 1 {
      ProductOfNonNegatives(k as real, p1, z[k - 1]);
    }
    if p0 > 0.0 && k <= m0 && z[k] > 0.0 {
      ProductOfPositives((m0 + 1 - k) as real, p0, z[k]);
    }
  }

  /** The two buffers between samples: `cur` holds the distribution over
      the samples seen so far, with window [lo, hi], and `nxt` the one the
      next sample overwrites. */
  datatype Buffers = Buffers(cur: seq<real>, nxt: seq<real>, lo: int, hi: int)

  /** The buffers after one sample, already swapped, and the window sum the
      sample's normaliser is taken from. */
  datatype Update = Update(next: Buffers, sum: real)

  /** Where the first pruning loop stops: the first index of [lo, hi) whose
      weight is at least TINY, or hi. */
  function PruneMin(c: seq<real>, lo: int, hi: int): (mn: int)
    requires 0 <= lo <= hi < |c|
    ensures lo <= mn <= hi
    decreases hi - lo
  {
    if lo < hi && c[lo] < TINY then PruneMin(c, lo + 1, hi) else lo
  }

  /** Where the second pruning loop stops: the last index of (mn, hi] whose
      weight is at least TINY, or mn. */
  function PruneMax(c: seq<real>, mn: int, hi: int): (mx: int)
    requires 0 <= mn <= hi < |c|
    ensures mn <= mx <= hi
    decreases hi - mn
  {
    if mn < hi && c[hi] < TINY then PruneMax(c, mn, hi - 1) else hi
  }

  /** A buffer whose window [lo, hi] was pruned down to [mn, mx]. */
  function Pruned(a: seq<real>, lo: int, hi: int, mn: int, mx: int): (r: seq<real>)
    ensures |r| == |a|
  {
    seq(|a|, i requires 0 <= i < |a| => if lo <= i < mn || mx < i <= hi then 0.0 else a[i])
  }

  /** The window's terms divided by their sum; left as they are when the
      sum is 0. */
  function Normalised(terms: seq<real>, sum: real): (r: seq<real>)
    ensures |r| == |terms|
  {
    if sum != 0.0 then Scaled(terms, sum) else terms
  }

  /** `x` with `w` written from index mn on and the `below` slots under it
      set to 0. */
  function Settled(x: seq<real>, mn: int, w: seq<real>, below: nat): (r: seq<real>)
    requires 0 <= mn && mn + |w| <= |x|
    ensures |r| == |x|
  {
    seq(|x|, i requires 0 <= i < |x| =>
      if mn <= i < mn + |w| then w[i - mn] else if mn - below <= i < mn then 0.0 else x[i])
  }

  /** `a` with those of the slots mx+1 .. mx+count that lie inside it set
      to 0. */
  function ClearedTail(a: seq<real>, mx: int, count: nat): (r: seq<real>)
    ensures |r| == |a|
  {
    seq(|a|, i requires 0 <= i < |a| => if mx < i <= mx + count then 0.0 else a[i])
  }

  /** What every sample does once the window is pruned to [mn, pmx] and
      the new window's terms are known: the pruned slots are zeroed in both
      buffers, the terms divided by their sum (unless it is 0) are written
      into `nxt` from mn on, the `below` slots under them and `clear` slots
      above them are zeroed, and the buffers are swapped. */
  function Advance(b: Buffers, mn: int, pmx: int, terms: seq<real>, below: nat, clear: nat): (u: Update)
    requires |b.cur| == |b.nxt| && 0 <= b.lo <= mn <= pmx <= b.hi
    requires 1 <= |terms| && mn + |terms| <= |b.cur|
    ensures |u.next.cur| == |u.next.nxt| == |b.cur|
    ensures u.next.lo == mn && u.next.hi == mn + |terms| - 1 && u.sum == Sum(terms)
  {
    var settled := Settled(Pruned(b.nxt, b.lo, b.hi, mn, pmx), mn, Normalised(terms, Sum(terms)), below);
    Update(Buffers(ClearedTail(settled, mn + |terms| - 1, clear), Pruned(b.cur, b.lo, b.hi, mn, pmx),
                   mn, mn + |terms| - 1), Sum(terms))
  }

  /** One diploid sample on values: prune the window of `cur`, widen it by
      2 and advance with the diploid terms of the pruned `cur`, two slots
      cleared below the new window. */
  function DiploidNext(b: Buffers, m0: int, p0: real, p1: real, p2: real, clear: nat): (u: Update)
    requires |b.cur| == |b.nxt| && 0 <= b.lo <= b.hi <= m0 && m0 + 2 < |b.cur|
    ensures |u.next.cur| == |u.next.nxt| == |b.cur|
    ensures b.lo <= u.next.lo <= b.hi && u.next.lo + 2 <= u.next.hi <= b.hi + 2
    ensures b.lo == b.hi ==> u.next.lo == b.lo && u.next.hi == b.hi + 2
  {
    var mn := PruneMin(b.cur, b.lo, b.hi);
    var pmx := PruneMax(b.cur, mn, b.hi);
    Advance(b, mn, pmx, DiploidTerms(Pruned(b.cur, b.lo, b.hi, mn, pmx), m0, p0, p1, p2, mn, pmx + 2), 2, clear)
  }

  /** One haploid sample on values: as DiploidNext with the window widened
      by 1 and one slot cleared below it. */
  function HaploidNext(b: Buffers, m0: int, p0: real, p1: real, clear: nat): (u: Update)
    requires |b.cur| == |b.nxt| && 0 <= b.lo <= b.hi <= m0 && m0 + 1 < |b.cur|
    ensures |u.next.cur| == |u.next.nxt| == |b.cur|
    ensures b.lo <= u.next.lo <= b.hi && u.next.lo + 1 <= u.next.hi <= b.hi + 1
    ensures b.lo == b.hi ==> u.next.lo == b.lo && u.next.hi == b.hi + 1
  {
    var mn := PruneMin(b.cur, b.lo, b.hi);
    var pmx := PruneMax(b.cur, mn, b.hi);
    Advance(b, mn, pmx, HaploidTerms(Pruned(b.cur, b.lo, b.hi, mn, pmx), m0, p0, p1, mn, pmx + 1), 1, clear)
  }

  /** A sample of any other ploidy: the pruning alone, then the swap, so
      that `cur` becomes the older buffer. No sum is taken (0 here). */
  function PruneNext(b: Buffers): (u: Update)
    requires |b.cur| == |b.nxt| && 0 <= b.lo <= b.hi < |b.cur|
    ensures |u.next.cur| == |u.next.nxt| == |b.cur|
    ensures b.lo <= u.next.lo <= u.next.hi <= b.hi
  {
    var mn := PruneMin(b.cur, b.lo, b.hi);
    var pmx := PruneMax(b.cur, mn, b.hi);
    Update(Buffers(Pruned(b.nxt, b.lo, b.hi, mn, pmx), Pruned(b.cur, b.lo, b.hi, mn, pmx), mn, pmx), 0.0)
  }

  /** The window written is the window read back. */
  lemma SettledWindow(x: seq<real>, mn: int, w: seq<real>, below: nat)
    requires 0 <= mn && mn + |w| <= |x|
    ensures Settled(x, mn, w, below)[mn..mn + |w|] == w
  {
    assert forall i :: 0 <= i < |w| ==> Settled(x, mn, w, below)[mn..mn + |w|][i] == w[i];
  }

  /** Writing a window and then overwriting it with one of the same length
      is the same as writing the second one alone. */
  lemma SettledTwice(x: seq<real>, mn: int, t: seq<real>, w: seq<real>, below: nat)
    requires 0 <= mn && mn + |t| <= |x| && |w| == |t|
    ensures Settled(x, mn, t, 0)[mn..mn + |t|] == t
    ensures Settled(Settled(x, mn, t, 0), mn, w, below) == Settled(x, mn, w, below)
  {
    var once := Settled(x, mn, t, 0);
    SettledWindow(x, mn, t, 0);
    assert forall i :: 0 <= i < |x| ==> Settled(once, mn, w, below)[i] == Settled(x, mn, w, below)[i];
  }

  /** The two pruning loops: raise `mn` from `lo` and lower `mx` from `hi`
      past entries of `cur` below TINY, zeroing each passed entry in both
      buffers. */
  method Prune(cur: array<real>, nxt: array<real>, lo: int, hi: int) returns (mn: int, mx: int)
    requires cur != nxt && 0 <= lo <= hi < cur.Length && hi < nxt.Length
    modifies cur, nxt
    ensures mn == PruneMin(old(cur[..]), lo, hi) && mx == PruneMax(old(cur[..]), mn, hi)
    ensures cur[..] == Pruned(old(cur[..]), lo, hi, mn, mx) && nxt[..] == Pruned(old(nxt[..]), lo, hi, mn, mx)
  {
    ghost var c0 := cur[..];
    mn, mx := lo, hi;
    while mn < mx && cur[mn] < TINY
      invariant lo <= mn <= mx == hi
      invariant PruneMin(c0, mn, hi) == PruneMin(c0, lo, hi)
      invariant forall i :: 0 <= i < cur.Length ==>
        cur[i] == if lo <= i < mn then 0.0 else old(cur[i])
      invariant forall i :: 0 <= i < nxt.Length ==>
        nxt[i] == if lo <= i < mn then 0.0 else old(nxt[i])
    {
      cur[mn], nxt[mn] := 0.0, 0.0;
      mn := mn + 1;
    }
    while mx > mn && cur[mx] < TINY
      invariant lo <= mn <= mx <= hi
      invariant mn == PruneMin(c0, lo, hi) && PruneMax(c0, mn, mx) == PruneMax(c0, mn, hi)
      invariant forall i :: 0 <= i < cur.Length ==>
        cur[i] == if lo <= i < mn || mx < i <= hi then 0.0 else old(cur[i])
      invariant forall i :: 0 <= i < nxt.Length ==>
        nxt[i] == if lo <= i < mn || mx < i <= hi then 0.0 else old(nxt[i])
    {
      cur[mx], nxt[mx] := 0.0, 0.0;
      mx := mx - 1;
    }
    assert forall i :: 0 <= i < cur.Length ==> cur[..][i] == Pruned(c0, lo, hi, mn, mx)[i];
    assert forall i :: 0 <= i < nxt.Length ==> nxt[..][i] == Pruned(old(nxt[..]), lo, hi, mn, mx)[i];
  }

  /** The diploid update loops: nxt[k] for k in [mn, mx]. */
  method DiploidStep(cur: array<real>, nxt: array<real>, m0: int, p0: real, p1: real, p2: real, mn: int, mx: int)
    requires cur != nxt && 0 <= mn && mn + 2 <= mx < cur.Length && mx < nxt.Length
    modifies nxt
    ensures nxt[..] == Settled(old(nxt[..]), mn, DiploidTerms(cur[..], m0, p0, p1, p2, mn, mx), 0)
  {
    ghost var c := cur[..];
    if mn == 0 {
      nxt[0] := ((m0 + 1) * (m0 + 2)) as real * p0 * cur[0];
    }
    if mn <= 1 {
      nxt[1] := (m0 * (m0 + 1)) as real * p0 * cur[1] + (m0 + 1) as real * p1 * cur[0];
    }
    var start := if mn < 2 then 2 else mn;
    for k := start to mx + 1
      invariant forall i :: mn <= i < k ==> nxt[i] == DiploidTerm(c, m0, p0, p1, p2, i)
      invariant forall i :: 0 <= i < nxt.Length && !(mn <= i <= mx) ==> nxt[i] == old(nxt[i])
    {
      nxt[k] := DiploidCell(m0, k, p0, p1, p2, cur[k], cur[k - 1], cur[k - 2]);
    }
    assert forall i :: 0 <= i < nxt.Length ==>
      nxt[..][i] == Settled(old(nxt[..]), mn, DiploidTerms(c, m0, p0, p1, p2, mn, mx), 0)[i];
  }

  /** The haploid update loops: nxt[k] for k in [mn, mx]. */
  method HaploidStep(cur: array<real>, nxt: array<real>, m0: int, p0: real, p1: real, mn: int, mx: int)
    requires cur != nxt && 0 <= mn && mn + 1 <= mx < cur.Length && mx < nxt.Length
    modifies nxt
    ensures nxt[..] == Settled(old(nxt[..]), mn, HaploidTerms(cur[..], m0, p0, p1, mn, mx), 0)
  {
    ghost var c := cur[..];
    if mn == 0 {
      nxt[0] := (m0 + 1) as real * p0 * cur[0];
      assert nxt[0] == HaploidTerm(c, m0, p0, p1, 0);
    }
    var start := if mn < 1 then 1 else mn;
    for k := start to mx + 1
      invariant forall i :: mn <= i < k ==> nxt[i] == HaploidTerm(c, m0, p0, p1, i)
      invariant forall i :: 0 <= i < nxt.Length && !(mn <= i <= mx) ==> nxt[i] == old(nxt[i])
    {
      nxt[k] := HaploidCell(m0, k, p0, p1, cur[k], cur[k - 1]);
    }
    assert forall i :: 0 <= i < nxt.Length ==>
      nxt[..][i] == Settled(old(nxt[..]), mn, HaploidTerms(c, m0, p0, p1, mn, mx), 0)[i];
  }

  /** Sum of a[lo..hi], accumulated upward. */
  method WindowSum(a: array<real>, lo: int, hi: int) returns (s: real)
    requires 0 <= lo <= hi < a.Length
    ensures s == Sum(a[lo..hi + 1])
  {
    s := 0.0;
    for k := lo to hi + 1
      invariant s == Sum(a[lo..k])
    {
      SumStep(a[lo..hi + 1], k - lo);
      assert a[lo..hi + 1][..k - lo + 1] == a[lo..k + 1];
      assert a[lo..hi + 1][..k - lo] == a[lo..k];
      s := s + a[k];
    }
  }

  /** Divides a[lo..hi] by s, leaving the rest alone. */
  method Normalise(a: array<real>, lo: int, hi: int, s: real)
    requires 0 <= lo <= hi < a.Length && s != 0.0
    modifies a
    ensures forall k :: lo <= k <= hi ==> a[k] == old(a[k]) / s
    ensures forall k :: 0 <= k < a.Length && !(lo <= k <= hi) ==> a[k] == old(a[k])
  {
    for k := lo to hi + 1
      invariant forall i :: lo <= i < k ==> a[i] == old(a[i]) / s
      invariant forall i :: 0 <= i < a.Length && !(lo <= i < k) ==> a[i] == old(a[i])
    {
      a[k] := a[k] / s;
    }
  }

  /** The diploid terms of the window [lo, hi]. */
  function DiploidTerms(z: seq<real>, m0: int, p0: real, p1: real, p2: real, lo: nat, hi: int): (r: seq<real>)
    requires lo <= hi + 1 && hi < |z|
    ensures |r| == hi + 1 - lo
  {
    seq(hi + 1 - lo, i requires 0 <= i < hi + 1 - lo => DiploidTerm(z, m0, p0, p1, p2, lo + i))
  }

  /** The haploid terms of the window [lo, hi]. */
  function HaploidTerms(z: seq<real>, m0: int, p0: real, p1: real, lo: nat, hi: int): (r: seq<real>)
    requires lo <= hi + 1 && hi < |z|
    ensures |r| == hi + 1 - lo
  {
    seq(hi + 1 - lo, i requires 0 <= i < hi + 1 - lo => HaploidTerm(z, m0, p0, p1, lo + i))
  }

  /** The tail of a sample's update: divide the window [mn, mx] by `sum`
      unless it is 0 (C divides by it and gets NaN), then zero the `below`
      slots just under the window (two for a diploid sample, one for a
      haploid one). */
  method NormaliseAndClear(a: array<real>, mn: int, mx: int, sum: real, below: nat)
    requires 0 <= mn <= mx < a.Length && below <= 2
    modifies a
    ensures a[..] == Settled(old(a[..]), mn, Normalised(old(a[mn..mx + 1]), sum), below)
  {
    ghost var before := a[..];
    if sum != 0.0 {
      Normalise(a, mn, mx, sum);
    }
    if below >= 1 && mn >= 1 { a[mn - 1] := 0.0; }
    if below >= 2 && mn >= 2 { a[mn - 2] := 0.0; }
    ghost var w := Normalised(before[mn..mx + 1], sum);
    forall i | 0 <= i < a.Length
      ensures a[..][i] == Settled(before, mn, w, below)[i]
    {
      if mn <= i <= mx && sum != 0.0 {
        assert w[i - mn] == before[mn..mx + 1][i - mn] / sum;
      }
    }
  }

  /** Sum the window [mn, mx] of `a`, which holds `terms` written over `x`,
      then normalise it and clear the `below` slots under it. */
  method SumAndNormalise(a: array<real>, mn: int, mx: int, below: nat, ghost x: seq<real>, ghost terms: seq<real>)
    returns (sum: real)
    requires 0 <= mn <= mx < a.Length && below <= 2 && |terms| == mx + 1 - mn && |x| == a.Length
    requires a[..] == Settled(x, mn, terms, 0)
    modifies a
    ensures sum == Sum(terms)
    ensures a[..] == Settled(x, mn, Normalised(terms, sum), below)
  {
    SettledWindow(x, mn, terms, 0);
    sum := WindowSum(a, mn, mx);
    NormaliseAndClear(a, mn, mx, sum, below);
    SettledTwice(x, mn, terms, Normalised(terms, sum), below);
  }

  /** The first half of a diploid sample: prune the window of `cur`, widen
      it by 2 and write the diploid terms into `nxt`. */
  method DiploidFill(cur: array<real>, nxt: array<real>, lastMin: int, lastMax: int,
                     m0: int, p0: real, p1: real, p2: real) returns (mn: int, mx: int, ghost pmx: int)
    requires cur != nxt && cur.Length == nxt.Length
    requires 0 <= lastMin <= lastMax <= m0 && m0 + 2 < cur.Length
    modifies cur, nxt
    ensures mn == PruneMin(old(cur[..]), lastMin, lastMax) && pmx == PruneMax(old(cur[..]), mn, lastMax)
    ensures mx == pmx + 2
    ensures cur[..] == Pruned(old(cur[..]), lastMin, lastMax, mn, pmx)
    ensures nxt[..] == Settled(Pruned(old(nxt[..]), lastMin, lastMax, mn, pmx), mn,
                               DiploidTerms(cur[..], m0, p0, p1, p2, mn, mx), 0)
  {
    mn, mx := Prune(cur, nxt, lastMin, lastMax);
    pmx := mx;
    mx := mx + 2;
    DiploidStep(cur, nxt, m0, p0, p1, p2, mn, mx);
  }

  /** One diploid sample of mc_cal_y_core up to the clearing above the
      window: prune [lastMin, lastMax] of `cur`, widen the window by 2,
      write the terms into `nxt`, sum them, normalise them and zero the two
      slots below the window. */
  method DiploidUpdate(cur: array<real>, nxt: array<real>, lastMin: int, lastMax: int,
                       m0: int, p0: real, p1: real, p2: real) returns (mn: int, mx: int, sum: real)
    requires cur != nxt && cur.Length == nxt.Length
    requires 0 <= lastMin <= lastMax <= m0 && m0 + 2 < cur.Length
    modifies cur, nxt
    ensures mn == PruneMin(old(cur[..]), lastMin, lastMax) && mx - 2 == PruneMax(old(cur[..]), mn, lastMax)
    ensures cur[..] == Pruned(old(cur[..]), lastMin, lastMax, mn, mx - 2)
    ensures sum == Sum(DiploidTerms(cur[..], m0, p0, p1, p2, mn, mx))
    ensures nxt[..] == Settled(Pruned(old(nxt[..]), lastMin, lastMax, mn, mx - 2), mn,
                               Normalised(DiploidTerms(cur[..], m0, p0, p1, p2, mn, mx), sum), 2)
  {
    ghost var pmx;
    mn, mx, pmx := DiploidFill(cur, nxt, lastMin, lastMax, m0, p0, p1, p2);
    sum := SumAndNormalise(nxt, mn, mx, 2, Pruned(old(nxt[..]), lastMin, lastMax, mn, pmx),
                           DiploidTerms(cur[..], m0, p0, p1, p2, mn, mx));
  }

  /** The first half of a haploid sample: prune the window of `cur`, widen
      it by 1 and write the haploid terms into `nxt`. */
  method HaploidFill(cur: array<real>, nxt: array<real>, lastMin: int, lastMax: int,
                     m0: int, p0: real, p1: real) returns (mn: int, mx: int, ghost pmx: int)
    requires cur != nxt && cur.Length == nxt.Length
    requires 0 <= lastMin <= lastMax <= m0 && m0 + 1 < cur.Length
    modifies cur, nxt
    ensures mn == PruneMin(old(cur[..]), lastMin, lastMax) && pmx == PruneMax(old(cur[..]), mn, lastMax)
    ensures mx == pmx + 1
    ensures cur[..] == Pruned(old(cur[..]), lastMin, lastMax, mn, pmx)
    ensures nxt[..] == Settled(Pruned(old(nxt[..]), lastMin, lastMax, mn, pmx), mn,
                               HaploidTerms(cur[..], m0, p0, p1, mn, mx), 0)
  {
    mn, mx := Prune(cur, nxt, lastMin, lastMax);
    pmx := mx;
    mx := mx + 1;
    HaploidStep(cur, nxt, m0, p0, p1, mn, mx);
  }

  /** One haploid sample of mc_cal_y_core's mixed-ploidy loop up to the
      clearing above the window; as DiploidUpdate with the window widened
      by 1 and one slot cleared below it. */
  method HaploidUpdate(cur: array<real>, nxt: array<real>, lastMin: int, lastMax: int,
                       m0: int, p0: real, p1: real) returns (mn: int, mx: int, sum: real)
    requires cur != nxt && cur.Length == nxt.Length
    requires 0 <= lastMin <= lastMax <= m0 && m0 + 1 < cur.Length
    modifies cur, nxt
    ensures mn == PruneMin(old(cur[..]), lastMin, lastMax) && mx - 1 == PruneMax(old(cur[..]), mn, lastMax)
    ensures cur[..] == Pruned(old(cur[..]), lastMin, lastMax, mn, mx - 1)
    ensures sum == Sum(HaploidTerms(cur[..], m0, p0, p1, mn, mx))
    ensures nxt[..] == Settled(Pruned(old(nxt[..]), lastMin, lastMax, mn, mx - 1), mn,
                               Normalised(HaploidTerms(cur[..], m0, p0, p1, mn, mx), sum), 1)
  {
    ghost var pmx;
    mn, mx, pmx := HaploidFill(cur, nxt, lastMin, lastMax, m0, p0, p1);
    sum := SumAndNormalise(nxt, mn, mx, 1, Pruned(old(nxt[..]), lastMin, lastMax, mn, pmx),
                           HaploidTerms(cur[..], m0, p0, p1, mn, mx));
  }

  /** The corrected tail clearing: zero the slots mx+1 .. mx+count that lie
      inside the buffer, and nothing else. */
  method ClearTail(a: array<real>, mx: int, count: nat)
    requires 0 <= mx
    modifies a
    ensures a[..] == ClearedTail(old(a[..]), mx, count)
  {
    for d := 1 to count + 1
      invariant forall i :: 0 <= i < a.Length ==>
        a[i] == if mx < i < mx + d then 0.0 else old(a[i])
    {
      if mx + d < a.Length {
        a[mx + d] := 0.0;
      }
    }
    assert forall i :: 0 <= i < a.Length ==> a[..][i] == ClearedTail(old(a[..]), mx, count)[i];
  }

  /* ---------------------------------------------------------------- */
  /* What one sample does to a distribution                           */
  /* ---------------------------------------------------------------- */

  /** PruneMin stops at an entry of at least TINY unless it reached hi, and
      every entry it passed is below TINY. */
  lemma {:induction false} PruneMinStops(c: seq<real>, lo: int, hi: int)
    requires 0 <= lo <= hi < |c|
    ensures PruneMin(c, lo, hi) == hi || c[PruneMin(c, lo, hi)] >= TINY
    ensures forall i :: lo <= i < PruneMin(c, lo, hi) ==> c[i] < TINY
    decreases hi - lo
  {
    if lo < hi && c[lo] < TINY {
      PruneMinStops(c, lo + 1, hi);
    }
  }

  /** PruneMax stops at an entry of at least TINY unless it reached mn, and
      every entry it passed is below TINY. */
  lemma {:induction false} PruneMaxStops(c: seq<real>, mn: int, hi: int)
    requires 0 <= mn <= hi < |c|
    ensures PruneMax(c, mn, hi) == mn || c[PruneMax(c, mn, hi)] >= TINY
    ensures forall i :: PruneMax(c, mn, hi) < i <= hi ==> c[i] < TINY
    decreases hi - mn
  {
    if mn < hi && c[hi] < TINY {
      PruneMaxStops(c, mn, hi - 1);
    }
  }

  /** When the window [lo, hi] held a distribution of fewer than 1/TINY
      entries, pruning stops at an entry of at least TINY. */
  lemma PrunedWindowKeepsMass(c: seq<real>, lo: int, hi: int)
    requires Window(c, lo, hi) && (hi - lo + 1) as real * TINY <= 1.0
    ensures c[PruneMin(c, lo, hi)] >= TINY
  {
    PruneMinStops(c, lo, hi);
    var mn := PruneMin(c, lo, hi);
    PruneMaxStops(c, mn, hi);
    var w := c[lo..hi + 1];
    var e := SomeElementAtLeast(w, TINY);
    assert c[lo + e] >= TINY;
  }

  lemma QuotientNonNegative(a: real, s: real)
    requires a >= 0.0 && s > 0.0
    ensures a / s >= 0.0
  {
  }

  /** Non-negative terms divided by their sum stay non-negative, and sum to
      1 when that sum is positive. */
  lemma NormalisedSign(terms: seq<real>)
    requires NonNegative(terms)
    ensures Sum(terms) >= 0.0 && NonNegative(Normalised(terms, Sum(terms)))
    ensures Sum(terms) > 0.0 ==> Sum(Normalised(terms, Sum(terms))) == 1.0
  {
    var s := Sum(terms);
    SumNonNegative(terms);
    if s > 0.0 {
      forall i | 0 <= i < |terms|
        ensures Scaled(terms, s)[i] >= 0.0
      {
        QuotientNonNegative(terms[i], s);
      }
      SumScaled(terms, s);
      assert s / s == 1.0;
    }
  }

  /** Writing a non-negative window into a non-negative buffer, clearing
      slots below it, keeps the buffer non-negative. */
  lemma SettledSign(x: seq<real>, mn: int, w: seq<real>, below: nat)
    requires 0 <= mn && mn + |w| <= |x| && NonNegative(x) && NonNegative(w)
    ensures NonNegative(Settled(x, mn, w, below))
  {
    var r := Settled(x, mn, w, below);
    forall i | 0 <= i < |r|
      ensures r[i] >= 0.0
    {
      if mn <= i < mn + |w| {
        assert r[i] == w[i - mn];
      }
    }
  }

  /** Clearing slots above a window keeps a buffer non-negative and leaves
      the window as it was. */
  lemma ClearedTailKeeps(a: seq<real>, lo: int, mx: int, count: nat)
    requires 0 <= lo <= mx < |a|
    ensures ClearedTail(a, mx, count)[lo..mx + 1] == a[lo..mx + 1]
    ensures NonNegative(a) ==> NonNegative(ClearedTail(a, mx, count))
  {
    var r := ClearedTail(a, mx, count);
    assert forall i :: lo <= i <= mx ==> r[i] == a[i];
    assert forall i :: 0 <= i < |r| ==> r[i] == 0.0 || r[i] == a[i];
  }

  /** Writing non-negative terms divided by their sum into a non-negative
      buffer, and clearing slots around them, keeps the buffer
      non-negative; when the sum is positive the written window is a
      distribution. */
  lemma WrittenWindow(x: seq<real>, mn: int, mx: int, terms: seq<real>, below: nat, clear: nat)
    requires 0 <= mn <= mx < |x| && |terms| == mx + 1 - mn
    requires NonNegative(x) && NonNegative(terms)
    ensures Sum(terms) >= 0.0
    ensures NonNegative(ClearedTail(Settled(x, mn, Normalised(terms, Sum(terms)), below), mx, clear))
    ensures Sum(terms) > 0.0 ==>
      Window(ClearedTail(Settled(x, mn, Normalised(terms, Sum(terms)), below), mx, clear), mn, mx)
  {
    var w := Normalised(terms, Sum(terms));
    NormalisedSign(terms);
    SettledSign(x, mn, w, below);
    SettledWindow(x, mn, w, below);
    ClearedTailKeeps(Settled(x, mn, w, below), mn, mx, clear);
  }

  /** A pruned non-negative buffer is non-negative, and keeps the entry at
      the bottom of the new window. */
  lemma PrunedSign(a: seq<real>, lo: int, hi: int, mn: int, mx: int)
    requires NonNegative(a) && lo <= mn <= mx
    ensures NonNegative(Pruned(a, lo, hi, mn, mx))
    ensures 0 <= mn < |a| ==> Pruned(a, lo, hi, mn, mx)[mn] == a[mn]
  {
    assert forall i :: 0 <= i < |a| ==> Pruned(a, lo, hi, mn, mx)[i] == 0.0 || Pruned(a, lo, hi, mn, mx)[i] == a[i];
  }

  /** The diploid terms of a window up to m0 + 2 are non-negative, and the
      first is positive when its weight is and it lies at or below m0. */
  lemma DiploidTermsSign(z: seq<real>, m0: int, p0: real, p1: real, p2: real, lo: nat, hi: int)
    requires lo <= hi < |z| && hi <= m0 + 2 && NonNegative(z)
    requires p0 >= 0.0 && p1 >= 0.0 && p2 >= 0.0
    ensures NonNegative(DiploidTerms(z, m0, p0, p1, p2, lo, hi))
    ensures p0 > 0.0 && lo <= m0 && z[lo] > 0.0 ==> Sum(DiploidTerms(z, m0, p0, p1, p2, lo, hi)) > 0.0
  {
    var terms := DiploidTerms(z, m0, p0, p1, p2, lo, hi);
    forall i | 0 <= i < |terms|
      ensures terms[i] >= 0.0
    {
      DiploidTermSign(z, m0, p0, p1, p2, lo + i);
    }
    if p0 > 0.0 && lo <= m0 && z[lo] > 0.0 {
      DiploidTermSign(z, m0, p0, p1, p2, lo);
      SumAtLeastElement(terms, 0);
    }
  }

  /** The haploid counterpart of DiploidTermsSign, up to m0 + 1. */
  lemma HaploidTermsSign(z: seq<real>, m0: int, p0: real, p1: real, lo: nat, hi: int)
    requires lo <= hi < |z| && hi <= m0 + 1 && NonNegative(z)
    requires p0 >= 0.0 && p1 >= 0.0
    ensures NonNegative(HaploidTerms(z, m0, p0, p1, lo, hi))
    ensures p0 > 0.0 && lo <= m0 && z[lo] > 0.0 ==> Sum(HaploidTerms(z, m0, p0, p1, lo, hi)) > 0.0
  {
    var terms := HaploidTerms(z, m0, p0, p1, lo, hi);
    forall i | 0 <= i < |terms|
      ensures terms[i] >= 0.0
    {
      HaploidTermSign(z, m0, p0, p1, lo + i);
    }
    if p0 > 0.0 && lo <= m0 && z[lo] > 0.0 {
      HaploidTermSign(z, m0, p0, p1, lo);
      SumAtLeastElement(terms, 0);
    }
  }

  /** Advancing from non-negative buffers with non-negative terms keeps
      both buffers non-negative; when the terms have a positive sum the new
      window is a distribution. */
  lemma AdvanceSign(b: Buffers, mn: int, pmx: int, terms: seq<real>, below: nat, clear: nat)
    requires |b.cur| == |b.nxt| && 0 <= b.lo <= mn <= pmx <= b.hi
    requires 1 <= |terms| && mn + |terms| <= |b.cur|
    requires NonNegative(b.cur) && NonNegative(b.nxt) && NonNegative(terms)
    ensures var u := Advance(b, mn, pmx, terms, below, clear);
      u.sum >= 0.0 && NonNegative(u.next.cur) && NonNegative(u.next.nxt)
      && (u.sum > 0.0 ==> Window(u.next.cur, u.next.lo, u.next.hi))
  {
    PrunedSign(b.cur, b.lo, b.hi, mn, pmx);
    PrunedSign(b.nxt, b.lo, b.hi, mn, pmx);
    WrittenWindow(Pruned(b.nxt, b.lo, b.hi, mn, pmx), mn, mn + |terms| - 1, terms, below, clear);
  }

  /** A diploid sample keeps both buffers non-negative when the
      likelihoods are. */
  lemma DiploidNextSign(b: Buffers, m0: int, p0: real, p1: real, p2: real, clear: nat)
    requires |b.cur| == |b.nxt| && 0 <= b.lo <= b.hi <= m0 && m0 + 2 < |b.cur|
    requires NonNegative(b.cur) && NonNegative(b.nxt) && p0 >= 0.0 && p1 >= 0.0 && p2 >= 0.0
    ensures var u := DiploidNext(b, m0, p0, p1, p2, clear);
      u.sum >= 0.0 && NonNegative(u.next.cur) && NonNegative(u.next.nxt)
  {
    var mn := PruneMin(b.cur, b.lo, b.hi);
    var pmx := PruneMax(b.cur, mn, b.hi);
    var pruned := Pruned(b.cur, b.lo, b.hi, mn, pmx);
    PrunedSign(b.cur, b.lo, b.hi, mn, pmx);
    var terms := DiploidTerms(pruned, m0, p0, p1, p2, mn, pmx + 2);
    assert DiploidNext(b, m0, p0, p1, p2, clear) == Advance(b, mn, pmx, terms, 2, clear);
    DiploidTermsSign(pruned, m0, p0, p1, p2, mn, pmx + 2);
    AdvanceSign(b, mn, pmx, terms, 2, clear);
  }

  /** When `cur` held a distribution on a window of fewer than 1/TINY
      entries and p0 > 0, the diploid window sum is positive and the new
      window is again a distribution. */
  lemma DiploidNextWindow(b: Buffers, m0: int, p0: real, p1: real, p2: real, clear: nat)
    requires |b.cur| == |b.nxt| && 0 <= b.lo <= b.hi <= m0 && m0 + 2 < |b.cur|
    requires NonNegative(b.cur) && NonNegative(b.nxt) && p0 >= 0.0 && p1 >= 0.0 && p2 >= 0.0
    requires Window(b.cur, b.lo, b.hi) && p0 > 0.0 && |b.cur| <= 0x8000_0000
    ensures var u := DiploidNext(b, m0, p0, p1, p2, clear);
      u.sum > 0.0 && Window(u.next.cur, u.next.lo, u.next.hi)
  {
    var mn := PruneMin(b.cur, b.lo, b.hi);
    var pmx := PruneMax(b.cur, mn, b.hi);
    var pruned := Pruned(b.cur, b.lo, b.hi, mn, pmx);
    PrunedSign(b.cur, b.lo, b.hi, mn, pmx);
    PrunedWindowKeepsMass(b.cur, b.lo, b.hi);
    var terms := DiploidTerms(pruned, m0, p0, p1, p2, mn, pmx + 2);
    assert DiploidNext(b, m0, p0, p1, p2, clear) == Advance(b, mn, pmx, terms, 2, clear);
    DiploidTermsSign(pruned, m0, p0, p1, p2, mn, pmx + 2);
    AdvanceSign(b, mn, pmx, terms, 2, clear);
  }

  /** The haploid counterpart of DiploidNextSign. */
  lemma HaploidNextSign(b: Buffers, m0: int, p0: real, p1: real, clear: nat)
    requires |b.cur| == |b.nxt| && 0 <= b.lo <= b.hi <= m0 && m0 + 1 < |b.cur|
    requires NonNegative(b.cur) && NonNegative(b.nxt) && p0 >= 0.0 && p1 >= 0.0
    ensures var u := HaploidNext(b, m0, p0, p1, clear);
      u.sum >= 0.0 && NonNegative(u.next.cur) && NonNegative(u.next.nxt)
  {
    var mn := PruneMin(b.cur, b.lo, b.hi);
    var pmx := PruneMax(b.cur, mn, b.hi);
    var pruned := Pruned(b.cur, b.lo, b.hi, mn, pmx);
    PrunedSign(b.cur, b.lo, b.hi, mn, pmx);
    var terms := HaploidTerms(pruned, m0, p0, p1, mn, pmx + 1);
    assert HaploidNext(b, m0, p0, p1, clear) == Advance(b, mn, pmx, terms, 1, clear);
    HaploidTermsSign(pruned, m0, p0, p1, mn, pmx + 1);
    AdvanceSign(b, mn, pmx, terms, 1, clear);
  }

  /** The haploid counterpart of DiploidNextWindow. */
  lemma HaploidNextWindow(b: Buffers, m0: int, p0: real, p1: real, clear: nat)
    requires |b.cur| == |b.nxt| && 0 <= b.lo <= b.hi <= m0 && m0 + 1 < |b.cur|
    requires NonNegative(b.cur) && NonNegative(b.nxt) && p0 >= 0.0 && p1 >= 0.0
    requires Window(b.cur, b.lo, b.hi) && p0 > 0.0 && |b.cur| <= 0x8000_0000
    ensures var u := HaploidNext(b, m0, p0, p1, clear);
      u.sum > 0.0 && Window(u.next.cur, u.next.lo, u.next.hi)
  {
    var mn := PruneMin(b.cur, b.lo, b.hi);
    var pmx := PruneMax(b.cur, mn, b.hi);
    var pruned := Pruned(b.cur, b.lo, b.hi, mn, pmx);
    PrunedSign(b.cur, b.lo, b.hi, mn, pmx);
    PrunedWindowKeepsMass(b.cur, b.lo, b.hi);
    var terms := HaploidTerms(pruned, m0, p0, p1, mn, pmx + 1);
    assert HaploidNext(b, m0, p0, p1, clear) == Advance(b, mn, pmx, terms, 1, clear);
    HaploidTermsSign(pruned, m0, p0, p1, mn, pmx + 1);
    AdvanceSign(b, mn, pmx, terms, 1, clear);
  }

  /** Pruning alone keeps both buffers non-negative. */
  lemma PruneNextSign(b: Buffers)
    requires |b.cur| == |b.nxt| && 0 <= b.lo <= b.hi < |b.cur|
    requires NonNegative(b.cur) && NonNegative(b.nxt)
    ensures NonNegative(PruneNext(b).next.cur) && NonNegative(PruneNext(b).next.nxt)
  {
    var mn := PruneMin(b.cur, b.lo, b.hi);
    var pmx := PruneMax(b.cur, mn, b.hi);
    PrunedSign(b.cur, b.lo, b.hi, mn, pmx);
    PrunedSign(b.nxt, b.lo, b.hi, mn, pmx);
  }

  /** The slots that the code clears above a window ending at `mx` after a
      sample that is not the last: mx+1 after a haploid sample, mx+1 and
      mx+2 after a diploid one, none after a sample of any other ploidy. */
  function TailSlots(ploidy: nat, mx: int): (r: seq<int>)
    ensures |r| == (if ploidy == 1 then 1 else if ploidy == 2 then 2 else 0)
    ensures forall i :: 0 <= i < |r| ==> r[i] == mx + 1 + i
  {
    if ploidy == 1 then [mx + 1]
    else if ploidy == 2 then [mx + 1, mx + 2]
    else []
  }

  /** The tail slots stay inside a buffer of m + 1 entries exactly when the
      window end plus the sample's ploidy does not pass m. */
  lemma TailSlotsInside(ploidy: nat, mx: int, m: int)
    requires 1 <= ploidy <= 2
    ensures (forall i :: 0 <= i < |TailSlots(ploidy, mx)| ==> TailSlots(ploidy, mx)[i] <= m)
        <==> mx + ploidy <= m
  {
    var r := TailSlots(ploidy, mx);
    if mx + ploidy > m {
      assert r[|r| - 1] == mx + ploidy;
    }
  }
}
