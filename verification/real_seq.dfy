/** Sums over sequences of exact reals, accumulated front to back the way
    the engine's `for (k = lo, sum = 0.; k <= hi; ++k) sum += a[k]` loops do. */
module RealSeq {

  /** Sum of the elements of `s`, adding the last element last. */
  function Sum(s: seq<real>): real
  {
    if |s| == 0 then 0.0 else Sum(s[..|s| - 1]) + s[|s| - 1]
  }

  /** Every element of `s` divided by `c`. */
  function Scaled(s: seq<real>, c: real): (r: seq<real>)
    requires c != 0.0
    ensures |r| == |s|
    ensures forall i :: 0 <= i < |s| ==> r[i] == s[i] / c
  {
    seq(|s|, i requires 0 <= i < |s| => s[i] / c)
  }

  /** Every element of `s` multiplied by `c`. */
  function Times(s: seq<real>, c: real): (r: seq<real>)
    ensures |r| == |s|
    ensures forall i :: 0 <= i < |s| ==> r[i] == s[i] * c
  {
    seq(|s|, i requires 0 <= i < |s| => s[i] * c)
  }

  predicate NonNegative(s: seq<real>)
  {
    forall i :: 0 <= i < |s| ==> s[i] >= 0.0
  }

  /** Extending a prefix by one element adds that element to the sum. */
  lemma SumStep(s: seq<real>, k: nat)
    requires k < |s|
    ensures Sum(s[..k + 1]) == Sum(s[..k]) + s[k]
  {
    assert s[..k + 1][..k] == s[..k];
  }

  /** The sum of a concatenation is the sum of the sums. */
  lemma {:induction false} SumAppend(a: seq<real>, b: seq<real>)
    ensures Sum(a + b) == Sum(a) + Sum(b)
  {
    if |b| == 0 {
      assert a + b == a;
    } else {
      var b' := b[..|b| - 1];
      assert (a + b)[..|a + b| - 1] == a + b';
      SumAppend(a, b');
    }
  }

  /** Adding the first element first gives the same sum. */
  lemma {:induction false} SumFront(s: seq<real>)
    requires |s| > 0
    ensures Sum(s) == s[0] + Sum(s[1..])
  {
    if |s| > 1 {
      var n := |s| - 1;
      SumFront(s[..n]);
      assert s[..n][1..] == s[1..][..n - 1];
    }
  }

  /** Dividing every element by `c` divides the sum by `c`. */
  lemma {:induction false} SumScaled(s: seq<real>, c: real)
    requires c != 0.0
    ensures Sum(Scaled(s, c)) == Sum(s) / c
  {
    if |s| > 0 {
      var n := |s| - 1;
      assert Scaled(s, c)[..n] == Scaled(s[..n], c);
      SumScaled(s[..n], c);
    }
  }

  /** Multiplying every element by `c` multiplies the sum by `c`. */
  lemma {:induction false} SumTimes(s: seq<real>, c: real)
    ensures Sum(Times(s, c)) == Sum(s) * c
  {
    if |s| > 0 {
      var n := |s| - 1;
      forall i | 0 <= i < n ensures Times(s, c)[..n][i] == Times(s[..n], c)[i] { }
      assert Times(s, c)[..n] == Times(s[..n], c);
      SumTimes(s[..n], c);
    }
  }

  /** A sum of non-negative reals is non-negative. */
  lemma {:induction false} SumNonNegative(s: seq<real>)
    requires NonNegative(s)
    ensures Sum(s) >= 0.0
  {
    if |s| > 0 {
      SumNonNegative(s[..|s| - 1]);
    }
  }

  /** A sum of non-negative reals is at least each of its elements. */
  lemma {:induction false} SumAtLeastElement(s: seq<real>, k: nat)
    requires NonNegative(s) && k < |s|
    ensures Sum(s) >= s[k]
  {
    var n := |s| - 1;
    SumNonNegative(s[..n]);
    if k < n {
      SumAtLeastElement(s[..n], k);
    }
  }

  /** If every element is below `c`, the sum is below `|s| * c`. */
  lemma {:induction false} SumBelowBound(s: seq<real>, c: real)
    requires |s| > 0
    requires forall i :: 0 <= i < |s| ==> s[i] < c
    ensures Sum(s) < |s| as real * c
  {
    var n := |s| - 1;
    if n > 0 {
      SumBelowBound(s[..n], c);
    }
  }

  /** Pigeonhole: a stretch that sums to 1 and is shorter than `1 / c`
      holds an element of at least `c`. */
  lemma SomeElementAtLeast(s: seq<real>, c: real) returns (e: nat)
    requires |s| > 0 && c > 0.0
    requires Sum(s) == 1.0 && |s| as real * c <= 1.0
    ensures e < |s| && s[e] >= c
  {
    if forall i :: 0 <= i < |s| ==> s[i] < c {
      SumBelowBound(s, c);
      assert false;
    }
    e :| 0 <= e < |s| && s[e] >= c;
  }

  /** Sum of a constant sequence. */
  lemma {:induction false} SumConstant(s: seq<real>, c: real)
    requires forall i :: 0 <= i < |s| ==> s[i] == c
    ensures Sum(s) == |s| as real * c
  {
    if |s| > 0 {
      SumConstant(s[..|s| - 1], c);
    }
  }
}
