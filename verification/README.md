# Parallel trapezoidal integrator — a Dafny model

The program is meant to compute the integral of `sqrt(1 + e^x)` over `[a, b]`
with the composite trapezoidal rule. As written, it returns `h` times that rule
(see Findings). It shares the `n` sub-intervals among `tn` threads.
`main` reads four integers `a b n tn` from the command line and checks them.
Then it calls `trapezoidalIntegral`, which does three things:

- it cuts the sub-interval indices `[0, n)` into `tn` chunks of `n / tn` indices;
- worker `t` sums the trapezoid areas `((f(x_i) + f(x_{i+1})) / 2) * h` of its
  chunk and writes the sum into slot `t` of a pre-sized vector;
- after every worker has been joined, it folds the slots and multiplies the
  total by `h`.

The model has three modules:

- `Sums` (`sums.dfy`): exact sums over index ranges and over sequences, and
  the fact that chunked sums add up to the sum over the whole range. The
  sums are generic in the per-index term.
- `Integrator` (`integrator.dfy`): the worker ranges and the proofs that they
  tile `[0, n)`. It also holds the worker, the fork/join loop, the fold,
  `trapezoidalIntegral` itself, and the specification `Integral` of what that
  function returns. Beside them is the trapezoidal rule with the step applied
  once, with its properties.
- `Cli` (`cli.dfy`): the argument checks of `main` as a function, and `main`'s
  output and exit-status behaviour as a method.

Modelling choices:

- Threads become a sequential loop over `t`. This is sound because each worker
  writes only its own slot and the slots are read only after every join.
  `Worker` states that it changes slot `t` and nothing else.
- `double` becomes `real`. Every equation here is exact; none holds bit-for-bit
  for IEEE doubles.
- The integrand is an uninterpreted `f: real -> real` parameter. The program's
  `targetFunction` is not part of this model.
- An argument is what `std::stoi` reads from it: `Numeral(v)` or
  `NotANumber`. A conversion succeeds only when `v` fits in an `int`.
- `trapezoidalIntegral` does not require `tn` to divide `n`; only `main`
  checks that. So the integrator is modelled for any positive `n` and `tn`.
  Its result covers the indices `[0, (n/tn)*tn)`. When `tn` does not divide
  `n`, the last `n % tn` trapezoids are dropped.
- `Times(x, h)` is plain `x * h`. It exists so that the verifier can treat a
  product of two computed reals as a single term.

The textbook interior-point form of the rule sums the interior grid points
once and adds the two end values with weight one half. The code instead
evaluates both end points of every trapezoid (lines 49-51). It also multiplies
by `h` twice (lines 51 and 62). `PerTrapezoidIsInteriorPointForm` proves that,
over exact arithmetic, the two summation forms agree. The second factor `h` is
reported under Findings.

## Model

| member | source | states |
|---|---|---|
| `Cli.Validate` | tasks/task6/main.cpp:70-85 | Exactly four arguments are required; any other count gives `ArgumentCount` before any argument is converted. A failed conversion gives `Conversion`. The bounds check comes before the partition check. The arguments are accepted iff all four convert and `0 <= a < b <= 50`, `n > 0`, `tn > 0`, `n % tn == 0`; on acceptance the parameters are the converted values |
| `Cli.Run` | tasks/task6/main.cpp:68-96 | The exit status is 0 or 1, and 0 exactly when the arguments are accepted. On rejection nothing is printed on stdout and one error is reported. On acceptance exactly one value is printed, the integrator's result for `(a, b, n, tn)`, and nothing goes to stderr |
| `Cli.AcceptedWorkersStayInRange` | tasks/task6/main.cpp:40-48 | For accepted arguments every worker range satisfies `0 <= startIdx <= endIdx <= n <= INT_MAX`, so no index computation overflows. `chunkSize * tn == n` |
| `Cli.AcceptedResultIndependentOfWorkers` | tasks/task6/main.cpp:83-88 | If arguments are accepted, the same arguments with `tn = 1` are also accepted, and the printed value is the same |
| `Integrator.RangeBounds` | tasks/task6/main.cpp:40-44 | Each worker range lies in `[0, (n/tn)*tn)`, which lies in `[0, n]`. When `tn` divides `n`, the chunks add up to exactly `n` |
| `Integrator.OwnerIsUnique` | tasks/task6/main.cpp:40-48 | Worker `t` owns index `i` iff `i` is in `[0, (n/tn)*tn)` and `t == i / (n/tn)` |
| `Integrator.RangesDisjoint` | tasks/task6/main.cpp:42-48 | No index is owned by two distinct workers |
| `Integrator.RangesCover` | tasks/task6/main.cpp:40-48 | The indices owned by some worker are exactly `[0, (n/tn)*tn)`. When `tn` divides `n`, these are exactly `[0, n)` |
| `Integrator.WorkerGridIndices` | tasks/task6/main.cpp:48-51 | For every index `i` a worker owns, the grid indices `i` and `i + 1` both lie in `[0, n]` |
| `Integrator.SlotIsWorkerRange` | tasks/task6/main.cpp:43-53 | Slot `t` of the chunk sums in `Integral` is the sum over exactly `[startIdx, endIdx)` of worker `t`, so the partition lemmas are about the ranges the workers sum |
| `Integrator.Worker` | tasks/task6/main.cpp:46-54 | Slot `t` receives the sum of the trapezoid areas over `[startIdx, endIdx)`. Every other slot is unchanged |
| `Integrator.RunWorkers` | tasks/task6/main.cpp:42-59 | After the loop over `t` (spawn and join), slot `t` of every worker holds the sum over `[t*c, t*c + c)` |
| `Integrator.Accumulate` | tasks/task6/main.cpp:61 | The result is the left fold, starting at 0, of all slots |
| `Integrator.TrapezoidalIntegral` | tasks/task6/main.cpp:35-63 | Returns `Integral(f, a, b, n, tn)`: the folded chunk sums of the `tn` workers, times `h` |
| `Integrator.IntegralCoversChunks` | tasks/task6/main.cpp:40-62 | The result is `h` times the sum of the trapezoid areas over `[0, (n/tn)*tn)`. When `tn` divides `n`, it is `h` times the sum over all of `[0, n)` |
| `Integrator.IntegralIndependentOfWorkers` | tasks/task6/main.cpp:40-62 | Any two worker counts that divide `n` give the same result |
| `Integrator.PerTrapezoidIsInteriorPointForm` | tasks/task6/main.cpp:48-51 | Summing `((f(x_i) + f(x_{i+1})) / 2) * h` over `[0, n)` equals `((f(a) + f(b)) / 2 + f(x_1) + ... + f(x_{n-1})) * h` |
| `Integrator.TrapezoidRuleExactForAffine` | tasks/task6/main.cpp:48-51 | The sum of the trapezoid areas is exact for `f(x) = p*x + q`: it equals `F(b) - F(a)`, where `F` is an antiderivative |
| `Integrator.IntegralIsStepTimesRule` | tasks/task6/main.cpp:51-62 | When `tn` divides `n`, the returned value is the trapezoidal rule multiplied by `h` a second time |
| `Integrator.DoubleStepCounterexample` | tasks/task6/main.cpp:51-62 | For `f = 1` on `[0, 2]` with `n = 4` and `tn = 2`, the trapezoidal rule gives 2 and the program returns 1 |
| `Sums.ChunkedSum` | tasks/task6/main.cpp:42-61 | Folding the sums of `k` chunks of size `c` gives the sum over `[0, c*k)` |
| `Sums.ChunkingInvariant` | tasks/task6/main.cpp:40-61 | For any per-index term, two worker counts that divide `n` give the same folded total, namely the sum over `[0, n)` |
| `Sums.EndpointWeights` | tasks/task6/main.cpp:48-51 | Summing the averages of neighbouring values counts the two end values with weight one half and every interior value with weight one |

## Findings

| source | as written | input that shows it | evidently intended | confidence | as-written member | corrected member |
|---|---|---|---|---|---|---|
| tasks/task6/main.cpp:51-62 | Each trapezoid area is already multiplied by `h` (line 51), and the total is multiplied by `h` again (line 62), so the result is `h` times the trapezoidal rule | `a=0 b=2 n=4 tn=2` with `f(x) = 1`: the area is 2, the program returns 1 | Return the sum of the trapezoid areas, with `h` applied once | not executed; proved over exact reals | `Integrator.DoubleStepCounterexample` | `Integrator.TrapezoidRule` (exactness: `Integrator.TrapezoidRuleExactForAffine`) |

`Integrator.Integral` and `Cli.Run` keep the program's behaviour as written,
because that is the value the program prints.

## Left out

- Threads (`std::thread`, `join`): replaced by a sequential loop over `t`,
  which is sound because slot ownership is disjoint.
- Floating point: `h`, the grid points, the local sums and `std::accumulate`
  are exact reals. Rounding, and the worker-count independence failing for
  doubles, are not modelled.
- `targetFunction` (`sqrt(1 + e^x)`): `f` is an uninterpreted parameter.
- `std::stoi` on strings: leading whitespace, signs, trailing characters and
  the exception types are abstracted into `Numeral` / `NotANumber`.
- Output formatting (`std::fixed`, `std::setprecision(4)`) and the text of
  the error messages. Stdout holds the real value; stderr holds the error
  kind.
- Resource failures are not modelled, and `Cli.Run`'s exit status 0 or 1
  does not cover them:
  - If allocating `partialSums` (line 37) or starting thread 0 fails, `main`
    catches the exception and returns 1.
  - If starting any later thread fails, `std::system_error` leaves
    `trapezoidalIntegral` while earlier threads are still joinable in
    `threads`. Destroying them calls `std::terminate`, so the process aborts
    with an exit status that is neither 0 nor 1.
- Accuracy and convergence of the trapezoidal rule for non-affine integrands.
