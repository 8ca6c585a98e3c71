/**
 * The parallel trapezoidal integrator (trapezoidalIntegral in tasks/task6/main.cpp).
 *
 * The sub-interval indices [0, n) are cut into tn chunks of n / tn indices;
 * worker t sums the trapezoid areas of its chunk into slot t of a pre-sized
 * vector of partial sums; after all workers are joined the slots are folded
 * and the total is multiplied by the step h once more.  The workers own
 * disjoint slots and are only read after the join, so they are modelled as a
 * sequential loop over t.  Doubles are modelled as exact reals and the
 * integrand f is left uninterpreted.
 */
module Integrator {
  import opened Sums

  // ---------------------------------------------------------------------------
  // Work partitioning
  // ---------------------------------------------------------------------------

  /** Number of sub-interval indices given to each worker (C++ int division; both operands are positive). */
  function ChunkSize(n: int, tn: int): int
    requires n > 0 && tn > 0
  {
    n / tn
  }

  /** First index of worker t's range. */
  function StartIdx(n: int, tn: int, t: int): int
    requires n > 0 && tn > 0
  {
    t * ChunkSize(n, tn)
  }

  /** One past the last index of worker t's range. */
  function EndIdx(n: int, tn: int, t: int): int
    requires n > 0 && tn > 0
  {
    StartIdx(n, tn, t) + ChunkSize(n, tn)
  }

  /** Worker t exists and sub-interval i lies in its half-open range. */
  predicate Owns(n: int, tn: int, t: int, i: int)
    requires n > 0 && tn > 0
  {
    0 <= t < tn && StartIdx(n, tn, t) <= i < EndIdx(n, tn, t)
  }

  /** Multiplying by a non-negative factor keeps the order. */
  lemma MulMonotone(x: int, y: int, c: int)
    requires x <= y && c >= 0
    ensures x * c <= y * c
  {
  }

  /**
   * Every worker range lies inside [0, (n/tn)*tn), which lies inside [0, n);
   * with n % tn == 0 the chunks add up to exactly n.  Consequently every index
   * and every endIdx fits in an int whenever n does.
   */
  lemma RangeBounds(n: int, tn: int, t: int)
    requires n > 0 && tn > 0 && 0 <= t < tn
    ensures 0 <= StartIdx(n, tn, t) <= EndIdx(n, tn, t) <= ChunkSize(n, tn) * tn <= n
    ensures n % tn == 0 ==> ChunkSize(n, tn) * tn == n
  {
    var c := ChunkSize(n, tn);
    MulMonotone(0, t, c);
    MulMonotone(t + 1, tn, c);
    assert n == tn * c + n % tn;
  }

  /** With a positive chunk size c, i lies in [t*c, t*c + c) exactly when i / c is t. */
  lemma ChunkOfIndex(c: int, t: int, i: int)
    requires c > 0
    ensures t * c <= i < t * c + c <==> i / c == t
  {
    var q, r := i / c, i % c;
    assert i == q * c + r && 0 <= r < c;
    if t < q {
      MulMonotone(t + 1, q, c);
    } else if t > q {
      MulMonotone(q + 1, t, c);
    }
  }

  /** With a positive chunk size c, i / c lies in [0, tn) exactly when i lies in [0, c*tn). */
  lemma ChunkInRange(c: int, tn: int, i: int)
    requires c > 0 && tn > 0
    ensures 0 <= i < c * tn <==> 0 <= i / c < tn
  {
    var q, r := i / c, i % c;
    assert i == q * c + r && 0 <= r < c;
    if q < 0 {
      MulMonotone(q, -1, c);
    } else if q >= tn {
      MulMonotone(tn, q, c);
    } else {
      MulMonotone(q + 1, tn, c);
    }
  }

  /**
   * Sub-interval i is owned by worker t exactly when i is one of the covered
   * indices [0, (n/tn)*tn) and t is i / (n/tn): no two workers share an index,
   * and no covered index is left out.
   */
  lemma OwnerIsUnique(n: int, tn: int, t: int, i: int)
    requires n > 0 && tn > 0
    ensures Owns(n, tn, t, i) <==>
            (0 <= i < ChunkSize(n, tn) * tn && t == i / ChunkSize(n, tn))
  {
    var c := ChunkSize(n, tn);
    if c > 0 {
      ChunkOfIndex(c, t, i);
      ChunkInRange(c, tn, i);
    }
  }

  /**
   * A worker adds the trapezoid of sub-interval i from the grid points i and
   * i + 1; for every index it owns both lie in [0, n].
   */
  lemma WorkerGridIndices(n: int, tn: int, t: int, i: int)
    requires n > 0 && tn > 0 && Owns(n, tn, t, i)
    ensures 0 <= i && i + 1 <= n
  {
    RangeBounds(n, tn, t);
  }

  /** Distinct workers own disjoint ranges. */
  lemma RangesDisjoint(n: int, tn: int, t1: int, t2: int, i: int)
    requires n > 0 && tn > 0 && t1 != t2
    ensures !(Owns(n, tn, t1, i) && Owns(n, tn, t2, i))
  {
    OwnerIsUnique(n, tn, t1, i);
    OwnerIsUnique(n, tn, t2, i);
  }

  /**
   * The worker ranges cover exactly [0, (n/tn)*tn); when tn divides n that is
   * all of [0, n), and otherwise the last n % tn indices belong to no worker.
   */
  lemma RangesCover(n: int, tn: int, i: int)
    requires n > 0 && tn > 0
    ensures (exists t :: Owns(n, tn, t, i)) <==> 0 <= i < ChunkSize(n, tn) * tn
    ensures n % tn == 0 ==> ((exists t :: Owns(n, tn, t, i)) <==> 0 <= i < n)
  {
    var c := ChunkSize(n, tn);
    if 0 <= i < c * tn {
      OwnerIsUnique(n, tn, i / c, i);
    }
    forall t | Owns(n, tn, t, i)
      ensures 0 <= i < c * tn
    {
      OwnerIsUnique(n, tn, t, i);
    }
    RangeBounds(n, tn, 0);
  }

  // ---------------------------------------------------------------------------
  // Trapezoid terms
  // ---------------------------------------------------------------------------

  /** The step h = (b - a) / n. */
  function Step(a: real, b: real, n: int): real
    requires n > 0
  {
    (b - a) / (n as real)
  }

  /** The grid point x_i = a + i*h. */
  function Grid(a: real, h: real, i: int): real
  {
    a + (i as real) * h
  }

  /** The mean height (f(x_i) + f(x_{i+1})) / 2 of trapezoid i. */
  function Mean(f: real -> real, a: real, h: real, i: int): real
  {
    (f(Grid(a, h, i)) + f(Grid(a, h, i + 1))) / 2.0
  }

  /** The area of trapezoid i as the worker adds it: ((f(x_i) + f(x_{i+1})) / 2) * h. */
  function Term(f: real -> real, a: real, h: real, i: int): real
  {
    Times(Mean(f, a, h, i), h)
  }

  /** The mean heights as a function of the sub-interval index. */
  function Heights(f: real -> real, a: real, h: real): int -> real
  {
    i => Mean(f, a, h, i)
  }

  /** The integrand's values at the grid points, as a function of the grid index. */
  function GridValues(f: real -> real, a: real, h: real): int -> real
  {
    i => f(Grid(a, h, i))
  }

  /** The trapezoid areas as a function of the sub-interval index. */
  function Trapezoids(f: real -> real, a: real, h: real): int -> real
  {
    i => Term(f, a, h, i)
  }

  /**
   * What trapezoidalIntegral returns over exact arithmetic: the chunk sums of
   * the tn workers, folded, times h.  Every trapezoid area already carries a
   * factor h, so the step enters twice.
   */
  function Integral(f: real -> real, a: real, b: real, n: int, tn: int): real
    requires n > 0 && tn > 0
  {
    Times(SumSeq(ChunkSums(Trapezoids(f, a, Step(a, b, n)), ChunkSize(n, tn), tn)), Step(a, b, n))
  }

  /**
   * The returned value is h times the sum of the trapezoid areas over the
   * covered indices [0, (n/tn)*tn); when tn divides n this is the sum over all
   * of [0, n), whatever tn is.
   */
  lemma IntegralCoversChunks(f: real -> real, a: real, b: real, n: int, tn: int)
    requires n > 0 && tn > 0
    ensures Integral(f, a, b, n, tn) ==
            Times(SumRange(Trapezoids(f, a, Step(a, b, n)), 0, ChunkSize(n, tn) * tn), Step(a, b, n))
    ensures n % tn == 0 ==>
            Integral(f, a, b, n, tn) == Times(SumRange(Trapezoids(f, a, Step(a, b, n)), 0, n), Step(a, b, n))
  {
    var g := Trapezoids(f, a, Step(a, b, n));
    ChunkedSum(g, ChunkSize(n, tn), tn);
    if n % tn == 0 {
      ExactQuotient(n, tn);
    }
  }

  /** Any two worker counts that divide n give the same result. */
  lemma IntegralIndependentOfWorkers(f: real -> real, a: real, b: real, n: int, tn1: int, tn2: int)
    requires n > 0 && tn1 > 0 && tn2 > 0
    requires n % tn1 == 0 && n % tn2 == 0
    ensures Integral(f, a, b, n, tn1) == Integral(f, a, b, n, tn2)
  {
    ChunkingInvariant(Trapezoids(f, a, Step(a, b, n)), n, tn1, tn2);
  }

  /**
   * Slot t of the chunk sums in Integral is the sum over worker t's range
   * [StartIdx, EndIdx), the range the partition lemmas above are about.
   */
  lemma SlotIsWorkerRange(g: int -> real, n: int, tn: int, t: int)
    requires n > 0 && tn > 0 && 0 <= t < tn
    ensures ChunkSums(g, ChunkSize(n, tn), tn)[t] == SumRange(g, StartIdx(n, tn, t), EndIdx(n, tn, t))
  {
    assert ChunkSize(n, tn) * t == StartIdx(n, tn, t);
  }

  // ---------------------------------------------------------------------------
  // The computation
  // ---------------------------------------------------------------------------

  /**
   * The body of worker t: sum the trapezoid areas of [startIdx, endIdx) into a
   * local accumulator and store it in slot t, leaving every other slot as it was.
   */
  method Worker(partialSums: array<real>, t: int, startIdx: int, endIdx: int,
                f: real -> real, a: real, h: real)
    requires 0 <= t < partialSums.Length && startIdx <= endIdx
    modifies partialSums
    ensures partialSums[..] == old(partialSums[..])[t := SumRange(Trapezoids(f, a, h), startIdx, endIdx)]
  {
    var localSum := 0.0;
    var i := startIdx;
    while i < endIdx
      invariant startIdx <= i <= endIdx
      invariant localSum == SumRange(Trapezoids(f, a, h), startIdx, i)
    {
      var x0 := a + (i as real) * h;
      var x1 := a + ((i + 1) as real) * h;
      assert Mean(f, a, h, i) == (f(x0) + f(x1)) / 2.0;
      assert Trapezoids(f, a, h)(i) == ((f(x0) + f(x1)) / 2.0) * h;
      localSum := localSum + ((f(x0) + f(x1)) / 2.0) * h;
      i := i + 1;
    }
    partialSums[t] := localSum;
  }

  /** Fold the partial sums from the left, starting at 0 (std::accumulate). */
  method Accumulate(partialSums: array<real>) returns (total: real)
    ensures total == SumSeq(partialSums[..])
  {
    total := 0.0;
    for k := 0 to partialSums.Length
      invariant total == SumSeq(partialSums[..k])
    {
      assert partialSums[..k + 1][..k] == partialSums[..k];
      total := total + partialSums[k];
    }
    assert partialSums[..partialSums.Length] == partialSums[..];
  }

  /**
   * Spawn and join the workers: worker t sums the chunk [t*c, t*c + c) into
   * slot t.  Each slot is written once, by its own worker.
   */
  method RunWorkers(partialSums: array<real>, chunkSize: nat, f: real -> real, a: real, h: real)
    modifies partialSums
    ensures partialSums[..] == ChunkSums(Trapezoids(f, a, h), chunkSize, partialSums.Length)
  {
    ghost var sums := ChunkSums(Trapezoids(f, a, h), chunkSize, partialSums.Length);
    for t := 0 to partialSums.Length
      invariant forall j :: 0 <= j < t ==> partialSums[j] == sums[j]
    {
      var startIdx := t * chunkSize;
      var endIdx := startIdx + chunkSize;
      assert startIdx == chunkSize * t && endIdx == chunkSize * t + chunkSize;
      assert sums[t] == SumRange(Trapezoids(f, a, h), startIdx, endIdx);
      Worker(partialSums, t, startIdx, endIdx, f, a, h);
      assert partialSums[t] == sums[t];
    }
    assert partialSums[..] == sums;
  }

  /**
   * trapezoidalIntegral: spawn tn workers over chunks of n / tn indices, join
   * them, fold their slots and multiply by h.  IntegralCoversChunks and
   * IntegralIndependentOfWorkers say what the result is.
   */
  method TrapezoidalIntegral(a: real, b: real, n: int, tn: int, f: real -> real)
    returns (result: real)
    requires n > 0 && tn > 0
    ensures result == Integral(f, a, b, n, tn)
  {
    var h := Step(a, b, n);
    var partialSums := new real[tn](_ => 0.0);
    var chunkSize := n / tn;
    RunWorkers(partialSums, chunkSize, f, a, h);
    var totalSum := Accumulate(partialSums);
    result := Times(totalSum, h);
    assert chunkSize == ChunkSize(n, tn) && partialSums.Length == tn;
  }

  // ---------------------------------------------------------------------------
  // The composite trapezoidal rule with the step applied once
  // ---------------------------------------------------------------------------

  /** The sum of the n trapezoid areas over [a, b]: the composite trapezoidal rule. */
  function TrapezoidRule(f: real -> real, a: real, b: real, n: int): real
    requires n > 0
  {
    SumRange(Trapezoids(f, a, Step(a, b, n)), 0, n)
  }

  /** The interior-point form ((f(a) + f(b)) / 2 + f(x_1) + ... + f(x_{n-1})) * h. */
  function InteriorPointRule(f: real -> real, a: real, b: real, n: int): real
    requires n > 0
  {
    var h := Step(a, b, n);
    Times((f(a) + f(b)) / 2.0 + SumRange(GridValues(f, a, h), 1, n), h)
  }

  /** The last grid point x_n is b and the first x_0 is a. */
  lemma GridEnds(a: real, b: real, n: int)
    requires n > 0
    ensures Grid(a, Step(a, b, n), 0) == a
    ensures Grid(a, Step(a, b, n), n) == b
  {
  }

  /**
   * The per-trapezoid form used by the workers, which evaluates f twice at
   * every interior grid point, equals the interior-point form over exact
   * arithmetic.
   */
  lemma PerTrapezoidIsInteriorPointForm(f: real -> real, a: real, b: real, n: int)
    requires n > 0
    ensures TrapezoidRule(f, a, b, n) == InteriorPointRule(f, a, b, n)
  {
    HeightsFactorOut(f, a, b, n);
    HeightsSum(f, a, b, n);
  }

  /** The step h is a common factor of all trapezoid areas. */
  lemma HeightsFactorOut(f: real -> real, a: real, b: real, n: int)
    requires n > 0
    ensures TrapezoidRule(f, a, b, n) == Times(SumRange(Heights(f, a, Step(a, b, n)), 0, n), Step(a, b, n))
  {
    var h := Step(a, b, n);
    FactorOut(Trapezoids(f, a, h), Heights(f, a, h), h, 0, n);
  }

  /** The mean heights add up to half of each end value plus every interior value. */
  lemma HeightsSum(f: real -> real, a: real, b: real, n: int)
    requires n > 0
    ensures SumRange(Heights(f, a, Step(a, b, n)), 0, n) ==
            (f(a) + f(b)) / 2.0 + SumRange(GridValues(f, a, Step(a, b, n)), 1, n)
  {
    var h := Step(a, b, n);
    var v := GridValues(f, a, h);
    EndpointWeights(Heights(f, a, h), v, n);
    GridEnds(a, b, n);
    assert v(0) == f(a) && v(n) == f(b);
  }

  /** The affine integrand x => p*x + q. */
  function Affine(p: real, q: real): real -> real
  {
    x => p * x + q
  }

  /** An antiderivative of Affine(p, q). */
  function AffinePrimitive(p: real, q: real, x: real): real
  {
    p * x * x / 2.0 + q * x
  }

  /** One trapezoid of an affine integrand has exactly the area under it. */
  lemma AffineTrapezoid(p: real, q: real, a: real, h: real, i: int)
    ensures Term(Affine(p, q), a, h, i) ==
            AffinePrimitive(p, q, Grid(a, h, i + 1)) - AffinePrimitive(p, q, Grid(a, h, i))
  {
    var x0 := Grid(a, h, i);
    assert Grid(a, h, i + 1) == x0 + h;
    calc {
      AffinePrimitive(p, q, x0 + h) - AffinePrimitive(p, q, x0);
      p * (x0 + h) * (x0 + h) / 2.0 - p * x0 * x0 / 2.0 + q * h;
      p * (2.0 * x0 * h + h * h) / 2.0 + q * h;
      ((p * x0 + q + p * (x0 + h) + q) / 2.0) * h;
    }
  }

  /**
   * The trapezoidal rule is exact for affine integrands: it returns the
   * integral of p*x + q over [a, b].
   */
  lemma TrapezoidRuleExactForAffine(p: real, q: real, a: real, b: real, n: int)
    requires n > 0
    ensures TrapezoidRule(Affine(p, q), a, b, n) == AffinePrimitive(p, q, b) - AffinePrimitive(p, q, a)
  {
    var h := Step(a, b, n);
    var F := i => AffinePrimitive(p, q, Grid(a, h, i));
    forall i | 0 <= i < n
      ensures Trapezoids(Affine(p, q), a, h)(i) == F(i + 1) - F(i)
    {
      AffineTrapezoid(p, q, a, h, i);
    }
    Telescope(Trapezoids(Affine(p, q), a, h), F, 0, n);
    GridEnds(a, b, n);
  }

  /**
   * What trapezoidalIntegral returns when tn divides n is the trapezoidal rule
   * multiplied by h a second time.
   */
  lemma IntegralIsStepTimesRule(f: real -> real, a: real, b: real, n: int, tn: int)
    requires n > 0 && tn > 0 && n % tn == 0
    ensures Integral(f, a, b, n, tn) == Times(TrapezoidRule(f, a, b, n), Step(a, b, n))
  {
    IntegralCoversChunks(f, a, b, n, tn);
    assert TrapezoidRule(f, a, b, n) == SumRange(Trapezoids(f, a, Step(a, b, n)), 0, n);
  }

  /**
   * The constant integrand 1 over [0, 2] with n = 4 and tn = 2: the area is 2,
   * the trapezoidal rule gives 2, but trapezoidalIntegral returns 1.
   */
  lemma DoubleStepCounterexample()
    ensures TrapezoidRule(Affine(0.0, 1.0), 0.0, 2.0, 4) == 2.0
    ensures Integral(Affine(0.0, 1.0), 0.0, 2.0, 4, 2) == 1.0
  {
    TrapezoidRuleExactForAffine(0.0, 1.0, 0.0, 2.0, 4);
    IntegralIsStepTimesRule(Affine(0.0, 1.0), 0.0, 2.0, 4, 2);
  }
}
