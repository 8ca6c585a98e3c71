/**
 * The command line of the integrator (main in tasks/task6/main.cpp).
 *
 * main expects exactly four user arguments a, b, n, tn.  It converts them
 * with std::stoi, checks that [a, b] is an interval inside [0, 50] and that
 * the tn workers can share the n sub-intervals evenly, runs the integrator
 * on the fixed integrand, and prints the result; any failure is reported on
 * the error stream with exit status 1.
 */
module Cli {
  import opened Integrator

  const IntMin: int := -0x8000_0000
  const IntMax: int := 0x7fff_ffff

  /**
   * One command-line argument as std::stoi reads it: the integer its leading
   * digits denote, or no integer at all.
   */
  datatype Arg = Numeral(value: int) | NotANumber

  /** Why main rejects its arguments; each ends the program with status 1. */
  datatype Error =
    | ArgumentCount   // not exactly four user arguments
    | Conversion      // std::stoi threw: no digits, or outside the range of int
    | Bounds          // [a, b] is not an interval inside [0, 50]
    | Partition       // n or tn is not positive, or tn does not divide n

  /** The four validated parameters. */
  datatype Params = Params(a: int, b: int, n: int, tn: int)

  datatype Result<T> = Ok(value: T) | Err(error: Error)

  /** What one run of the program leaves behind: printed values, reported errors, exit status. */
  datatype Output = Output(stdout: seq<real>, stderr: seq<Error>, exitCode: int)

  /** std::stoi succeeds exactly on a numeral that fits in an int. */
  predicate Converts(arg: Arg)
  {
    arg.Numeral? && IntMin <= arg.value <= IntMax
  }

  /** The parameters main accepts: 0 <= a < b <= 50, n > 0, tn > 0 and tn divides n. */
  predicate Acceptable(p: Params)
  {
    0 <= p.a < p.b <= 50 && p.n > 0 && p.tn > 0 && p.n % p.tn == 0
  }

  /**
   * The checks of main, in the order main makes them: the argument count,
   * then the four conversions, then the interval, then the partition.
   */
  function Validate(args: seq<Arg>): (r: Result<Params>)
    ensures r == Err(ArgumentCount) <==> |args| != 4
    ensures r == Err(Conversion) <==> |args| == 4 && exists k :: 0 <= k < 4 && !Converts(args[k])
    ensures r.Ok? || r == Err(Bounds) || r == Err(Partition) <==>
              |args| == 4 && forall k :: 0 <= k < 4 ==> Converts(args[k])
    ensures r == Err(Bounds) ==> !(0 <= args[0].value < args[1].value <= 50)
    ensures r == Err(Partition) ==> 0 <= args[0].value < args[1].value <= 50
    ensures r.Ok? <==>
              |args| == 4 && (forall k :: 0 <= k < 4 ==> Converts(args[k])) &&
              Acceptable(Params(args[0].value, args[1].value, args[2].value, args[3].value))
    ensures r.Ok? ==> r.value == Params(args[0].value, args[1].value, args[2].value, args[3].value)
  {
    if |args| != 4 then
      Err(ArgumentCount)
    else if !Converts(args[0]) || !Converts(args[1]) || !Converts(args[2]) || !Converts(args[3]) then
      Err(Conversion)
    else
      var a, b, n, tn := args[0].value, args[1].value, args[2].value, args[3].value;
      if a < 0 || b < 0 || a > 50 || b > 50 || a >= b then
        Err(Bounds)
      else if n <= 0 || tn <= 0 || n % tn != 0 then
        Err(Partition)
      else
        Ok(Params(a, b, n, tn))
  }

  /**
   * main: validate the arguments; on success print the integral of f over
   * [a, b] and exit with 0, otherwise report the error and exit with 1
   * without printing a result.
   */
  method Run(args: seq<Arg>, f: real -> real) returns (out: Output)
    ensures out.exitCode == 0 || out.exitCode == 1
    ensures out.exitCode == 0 <==> Validate(args).Ok?
    ensures |args| != 4 ==> out == Output([], [ArgumentCount], 1)
    ensures Validate(args).Err? ==> out == Output([], [Validate(args).error], 1)
    ensures Validate(args).Ok? ==>
              var p := Validate(args).value;
              out == Output([Integral(f, p.a as real, p.b as real, p.n, p.tn)], [], 0)
  {
    var r := Validate(args);
    if r.Err? {
      return Output([], [r.error], 1);
    }
    var p := r.value;
    var result := TrapezoidalIntegral(p.a as real, p.b as real, p.n, p.tn, f);
    out := Output([result], [], 0);
  }

  /**
   * For accepted arguments every worker range lies inside [0, n), so the
   * index arithmetic of the workers (startIdx, endIdx and i + 1) stays within
   * the range of int, and the workers together cover every sub-interval.
   */
  lemma AcceptedWorkersStayInRange(args: seq<Arg>, t: int)
    requires Validate(args).Ok? && 0 <= t < Validate(args).value.tn
    ensures var p := Validate(args).value;
            0 <= StartIdx(p.n, p.tn, t) <= EndIdx(p.n, p.tn, t) <= p.n <= IntMax
    ensures var p := Validate(args).value;
            ChunkSize(p.n, p.tn) * p.tn == p.n
  {
    var p := Validate(args).value;
    RangeBounds(p.n, p.tn, t);
  }

  /**
   * For accepted arguments the printed value does not depend on the number
   * of workers: running with a single worker prints the same number.
   */
  lemma AcceptedResultIndependentOfWorkers(args: seq<Arg>, f: real -> real)
    requires Validate(args).Ok?
    ensures var p := Validate(args).value;
            var single := Validate([args[0], args[1], args[2], Numeral(1)]);
            single.Ok? && single.value == p.(tn := 1) &&
            Integral(f, p.a as real, p.b as real, p.n, p.tn) == Integral(f, p.a as real, p.b as real, p.n, 1)
  {
    var p := Validate(args).value;
    IntegralIndependentOfWorkers(f, p.a as real, p.b as real, p.n, p.tn, 1);
  }
}
