/**
 * Exact sums over index ranges and over sequences of partial sums.
 *
 * The integrator splits the sub-interval indices [0, n) into equal chunks,
 * sums each chunk on its own, and folds the chunk sums left to right.  Over
 * exact arithmetic that is the same as summing the whole range at once, which
 * is what the lemmas of this module establish for any per-index term g.
 */
module Sums {

  /**
   * The product x * h.  Products of two computed reals are written through
   * this function so that the verifier can compare them as single terms.
   */
  function Times(x: real, h: real): real
  {
    x * h
  }

  /** g(lo) + ... + g(hi - 1), accumulated left to right; 0 for an empty range. */
  function SumRange(g: int -> real, lo: int, hi: int): real
    decreases hi - lo
  {
    if hi <= lo then 0.0 else SumRange(g, lo, hi - 1) + g(hi - 1)
  }

  /** s[0] + ... + s[|s| - 1], folded from the left starting at 0 (std::accumulate). */
  function SumSeq(s: seq<real>): real
  {
    if s == [] then 0.0 else SumSeq(s[..|s| - 1]) + s[|s| - 1]
  }

  /** The chunk sums of k workers with chunk size c: slot t holds the sum over [c*t, c*t + c). */
  function ChunkSums(g: int -> real, c: nat, k: nat): seq<real>
  {
    seq(k, t => SumRange(g, c * t, c * t + c))
  }

  /** A range sum splits at any point inside the range. */
  lemma {:induction false} SumRangeSplit(g: int -> real, lo: int, mid: int, hi: int)
    requires lo <= mid <= hi
    ensures SumRange(g, lo, hi) == SumRange(g, lo, mid) + SumRange(g, mid, hi)
    decreases hi - mid
  {
    if mid < hi {
      SumRangeSplit(g, lo, mid, hi - 1);
    }
  }

  /** A sum of differences F(i + 1) - F(i) collapses to F(hi) - F(lo). */
  lemma {:induction false} Telescope(g: int -> real, F: int -> real, lo: int, hi: int)
    requires lo <= hi
    requires forall i :: lo <= i < hi ==> g(i) == F(i + 1) - F(i)
    ensures SumRange(g, lo, hi) == F(hi) - F(lo)
    decreases hi - lo
  {
    if lo < hi {
      Telescope(g, F, lo, hi - 1);
    }
  }

  /**
   * Summing the averages (v(i) + v(i+1)) / 2 over [0, k) counts the two end
   * values v(0) and v(k) with weight one half and every value in between with
   * weight one.
   */
  lemma {:induction false} EndpointWeights(m: int -> real, v: int -> real, k: int)
    requires k > 0
    requires forall i :: 0 <= i < k ==> m(i) == (v(i) + v(i + 1)) / 2.0
    ensures SumRange(m, 0, k) == (v(0) + v(k)) / 2.0 + SumRange(v, 1, k)
  {
    if k > 1 {
      EndpointWeights(m, v, k - 1);
    }
  }

  /** A common factor h of every term can be taken out of the sum. */
  lemma {:induction false} FactorOut(g: int -> real, m: int -> real, h: real, lo: int, hi: int)
    requires forall i :: lo <= i < hi ==> g(i) == Times(m(i), h)
    ensures SumRange(g, lo, hi) == Times(SumRange(m, lo, hi), h)
    decreases hi - lo
  {
    if lo < hi {
      FactorOut(g, m, h, lo, hi - 1);
      Distribute(SumRange(m, lo, hi - 1), m(hi - 1), h);
    }
  }

  /** Multiplication distributes over addition. */
  lemma Distribute(x: real, y: real, h: real)
    ensures Times(x, h) + Times(y, h) == Times(x + y, h)
  {
  }

  /** Folding the chunk sums of k chunks of size c gives the sum over [0, c*k). */
  lemma {:induction false} ChunkedSum(g: int -> real, c: nat, k: nat)
    ensures SumSeq(ChunkSums(g, c, k)) == SumRange(g, 0, c * k)
  {
    if k > 0 {
      var s, s' := ChunkSums(g, c, k), ChunkSums(g, c, k - 1);
      assert s[..k - 1] == s' by {
        forall t | 0 <= t < k - 1
          ensures s[t] == s'[t]
        {
        }
      }
      ChunkedSum(g, c, k - 1);
      var m := c * (k - 1);
      assert m + c == c * k;
      SumRangeSplit(g, 0, m, m + c);
    }
  }

  /**
   * When both worker counts divide n, the folded chunk sums agree: the total
   * does not depend on how many workers share the range [0, n).
   */
  lemma ChunkingInvariant(g: int -> real, n: nat, tn1: nat, tn2: nat)
    requires tn1 > 0 && tn2 > 0
    requires n % tn1 == 0 && n % tn2 == 0
    ensures SumSeq(ChunkSums(g, n / tn1, tn1)) == SumSeq(ChunkSums(g, n / tn2, tn2))
    ensures SumSeq(ChunkSums(g, n / tn1, tn1)) == SumRange(g, 0, n)
  {
    ChunkedSum(g, n / tn1, tn1);
    ChunkedSum(g, n / tn2, tn2);
    ExactQuotient(n, tn1);
    ExactQuotient(n, tn2);
  }

  /** A divisor that leaves no remainder multiplies back to the dividend. */
  lemma ExactQuotient(n: nat, d: nat)
    requires d > 0 && n % d == 0
    ensures (n / d) * d == n
  {
  }
}
