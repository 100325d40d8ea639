# qtimeit in Dafny

A model of the core of `timeit.js` from qtimeit, a high-resolution timer for
JavaScript functions, with proofs of what it promises.

- **Format** models `formatFloat(value, decimals)`. The sign is split off and
  `10^decimals` is built in a loop. The magnitude is scaled and rounded half
  up, and its numeral is left-padded with zeros until it is longer than
  `decimals`. Then a `.` goes `decimals` characters from the end. The method
  `FormatFloat` keeps the source's two loops. It is proved equal to the
  specification function `FormatFloatOf`, and the shape, sign and accuracy
  of that function are proved as lemmas.
- **Timing** models `timeit(nloops, f, msg, callback)`, the measurement engine:
  - the argument shuffle (a function in the `msg` slot becomes the callback);
  - the guard for counts at or below zero;
  - the one-shot calibration trigger on the module's overhead state (class `Engine`);
  - the synchronous counted loop;
  - the asynchronous `__launchNext` chain, which defers to the event loop
    whenever its depth counter passes 500;
  - the overhead-corrected duration;
  - the silent label `/* NOOUTPUT */`.

  The test function `f` is observed, not run. A run yields a trace of events:
  calls of `f`, completions, deferrals, the report line and the callback.
  Clock readings and the calibrated overheads are parameters.
- **Harness** models `runit`, the repeat-and-aggregate loop. The per-run
  values that timeit hands its callback are the input, together with the wall
  clock readings around each run. The model keeps the running minimum and
  maximum elapsed time and the sums, and derives the three item rates.
- **Wrappers** holds the `Option` type. `None` stands for JavaScript's
  `undefined`, and for a division whose result is not a finite number.

Two facts about the code that its callers might not expect:
- `timeit` returns `undefined`. It hands its results only to the callback and
  to the printed report. It does not return a sample object.
- `runit`'s `min` and `max` are the least and greatest per-run elapsed times
  (timeit.js:209-210). They are not throughputs. `rateMin` is computed from
  `max` and `rateMax` from `min`.

## Model

| member | source | states |
|---|---|---|
| Format.PowerOfTen | timeit.js:39 | The power loop ends with `power` equal to 10^decimals. |
| Format.Decimal | timeit.js:40 | The numeral written for a non-negative integer is non-empty, all decimal digits, and has no leading zero. |
| Format.DecimalRoundTrip | timeit.js:40 | Reading the numeral of n back as a decimal number gives n. |
| Format.PaddedProperties | timeit.js:42 | Zero-padding makes the digit string longer than `decimals`, keeps it all digits and does not change the number it denotes. |
| Format.PadDigits | timeit.js:42 | The padding loop prepends exactly the zeros that bring the string past `decimals` characters, and nothing when it is already longer. |
| Format.FormatFloat | timeit.js:34-44 | The method (sign split, power loop, rounding, numeral, padding loop, two slices) returns exactly the specification string `FormatFloatOf(value, decimals)`. |
| Format.FormattedShape | timeit.js:39-43 | For decimals >= 1, after the optional '-' come at least one digit, a single '.', and exactly `decimals` digits. The digits on both sides together denote the rounded scaled magnitude. |
| Format.FormattedSign | timeit.js:35-43 | The result is non-empty and starts with '-' if and only if the value is negative. |
| Format.FormatNegation | timeit.js:35-43 | For v > 0, formatting -v gives "-" followed by the formatting of v. |
| Format.FormatNoDecimals | timeit.js:43 | With 0 decimals the part before the point is empty and the part after it is the whole numeral: the result is the sign, a '.', and every digit of the rounded value. |
| Format.RoundingAccuracy | timeit.js:40 | The digits written, read as rounded / 10^decimals, lie within half a unit in the last place of the magnitude (strictly above, at most equal below the upper bound). |
| Timing.Normalize | timeit.js:112 | A function in the msg slot becomes the callback and msg becomes absent. Otherwise both arguments are kept. The result never has a function as msg. |
| Timing.ToInt32 | timeit.js:120 | The bitwise OR with 0 yields a 32-bit two's-complement integer congruent to the truncation of x modulo 2^32. |
| Timing.ModeOfNumber | timeit.js:114-126 | A number runs as a counted loop if and only if it is a positive whole number, with that number as the count. The guard fires if and only if the number is at or below zero. |
| Timing.ModeAsWrittenNumber | timeit.js:114-126 | As written, a number runs as a counted loop if and only if it is a whole number from 1 to 2^31 - 1, with that number as the count. The guard fires if and only if the number is at or below zero. |
| Timing.ModeAsWrittenBelowLimit | timeit.js:120 | Below 2^31 the count test as written agrees with the whole-number test. |
| Timing.LargeCountMisread | timeit.js:120 | 2^31 is a whole number, yet the test as written sends it to duration mode while the whole-number test counts it. |
| Timing.CorrectedDuration | timeit.js:151 | The duration plus the timer overhead and the per-call loop overhead is exactly the wall time t2 - t1. It is zero if and only if the overheads account for all of it, and with non-negative overheads it is at most the wall time. |
| Timing.ReportEvents | timeit.js:152 | One report line with the label (`msg` or ""), the count and the duration, if and only if msg is not the silent label. |
| Timing.CountedLoop | timeit.js:145-148 | `callCount` ends equal to `nloops`, and the trace holds one call-and-return of f per turn. |
| Timing.CallsAndReturnsCounts | timeit.js:145-148 | The counted loop calls f exactly n times, each call completing before the next, and reports, defers or calls back nothing. |
| Timing.LaunchChain | timeit.js:160-180 | The chain loop keeps `callCount + nleft == nloops` and `depth <= 500` between steps. It ends with `callCount == nloops` and exactly the chain's specified trace. |
| Timing.ChainCounts | timeit.js:163-173 | From any state, the chain calls f once per remaining count and f completes as many times, with no two calls overlapping. |
| Timing.ChainSilent | timeit.js:163-173 | The chain by itself prints no report and fires no callback. |
| Timing.ChainDepthBound | timeit.js:166-171 | From a depth of at most 500, no call of f in the chain happens at a depth outside 1..501. |
| Timing.ChainDeferrals | timeit.js:170 | The chain defers through setImmediate (depth + nleft) / 501 times: once per 501 calls. |
| Timing.TimeSync | timeit.js:139-153 | The synchronous path produces one untimed call, the counted loop, then the report with the count and the duration corrected by the plain loop overhead. |
| Timing.TimeAsync | timeit.js:154-183 | The asynchronous path produces two chained untimed calls, the chain, the report, then the callback with the count and the duration corrected by the callback-loop overhead. |
| Timing.GuardSkipsCalls | timeit.js:114-117 | A number at or below zero never calls f and prints nothing. The callback, from either argument slot, fires exactly once with (0, 0), and nothing else happens. |
| Timing.SyncCallCount | timeit.js:139-153 | For a count that the test as written runs as a counted loop and no callback, f is called nloops + 1 times, one call at a time. No callback fires, and the report carries nloops and the corrected duration. |
| Timing.AsyncCallCount | timeit.js:154-183 | For a count that the test as written runs as a counted loop and a callback, f is called nloops + 2 times, never overlapping and never deeper than 501. The callback fires exactly once, last, with nloops and the corrected duration. |
| Timing.SyncReports | timeit.js:152 | The synchronous path prints exactly one report, or none when msg is the silent label. |
| Timing.AsyncReports | timeit.js:177 | The asynchronous path prints exactly one report, or none when msg is the silent label. |
| Timing.SilentSentinel | timeit.js:139-183 | A counted run, as the test as written selects it, prints a report if and only if msg is not `/* NOOUTPUT */`, and then exactly one, on either path. |
| Timing.Engine.constructor | timeit.js:56-58 | The overhead globals start undefined. |
| Timing.Engine.EnsureCalibrated | timeit.js:132-137 | The overheads are measured only when still undefined. Once set they never change. |
| Timing.Engine.Timeit | timeit.js:108-184 | For any count the test as written does not send to duration mode, a call of timeit produces exactly the specified trace, using the overheads as they were or as just measured. A run past the guard leaves the overheads defined, and the guard leaves them untouched. |
| Harness.MinMaxBounds | timeit.js:209-210 | The running minimum and maximum are defined if and only if some run happened. They bound every run's elapsed time, and each equals some run's elapsed time. |
| Harness.TotalBetweenBounds | timeit.js:212 | The summed run time lies between the run count times any lower bound and the run count times any upper bound of the elapsed times. |
| Harness.ItemRate | timeit.js:218-220 | A rate is a finite number if and only if some call was counted, repeats is non-zero, and its run time is defined and non-zero. |
| Harness.Runit | timeit.js:186-227 | The accumulating loop yields the specified digest: sums of calls, run times and wall times, running min and max, and the three rates. min is defined if and only if repeats > 0, and min <= every elapsed <= max. |
| Harness.MeanBetweenBounds | timeit.js:220 | The mean run time lies between the least and the greatest elapsed time. |
| Harness.RateAntitone | timeit.js:218-219 | For a non-negative item count, a longer run time never gives a higher rate. |
| Harness.RateOrder | timeit.js:218-220 | When every run took positive time, some call was counted and the item count is not negative, all three rates are defined and rateMin <= rateAvg <= rateMax. |

## Left out

- `fptime` and `process.hrtime` (timeit.js:26-31) are a foreign clock. Clock readings are parameters (`t1`, `t2`, `started`, `finished`).
- `calibrate` (timeit.js:60-98) measures real elapsed time, so it has no functional result. Its outputs are the `measured` parameter. Only the one-shot trigger is modelled.
- Duration mode (timeit.js:119-126) is left out. As written it covers null and every number that is not a 32-bit integer, including whole counts of 2^31 and more. It sets the count to infinity and starts a timer whose callback ends the run by mutating closure state. That timer can only end an asynchronous run: a synchronous run never yields to the event loop inside its loop, so it never ends.
- Timing.Engine.Timeit: requires a count that the test as written does not send to duration mode, because duration mode is not modelled.
- `reportit` and all console output (timeit.js:47-54, 187, 221-222) are left out. A report is an event carrying its label, count and duration, and the printed text is not modelled.
- `makeFunction` (timeit.js:101-103) is dynamic code evaluation. `f` is an opaque handle whose calls are events.
- The `setImmediate` polyfill and event-loop scheduling (timeit.js:24, 170, 195) are left out. A deferral is a `Defer` event, after which the chain goes on.
- An asynchronous `f` is taken to call its continuation exactly once and at once. `f` that never calls back, or calls back twice, is not modelled.
- Exceptions thrown by `f`, and the empty `try {} catch {}` blocks (timeit.js:88, 130), are left out.
- Format.FormatFloat: works on exact reals. The floating-point error of `value * power + 0.5` is not modelled, nor is the exponent notation JavaScript's `toString` uses at 1e21 and above.
- Format.FormatFloat: `decimals` is a natural number. Negative or fractional decimal counts are not modelled.
- Harness.Runit: `repeats` is an integer, so fractional repeat counts are not modelled. The per-run results are an input sequence of exactly as many runs as the repeat test admits.
- Harness.Runit: the error path of `repeatWhile` (timeit.js:194, 223) is not modelled, because timeit never passes an error to its callback.
- Arithmetic is exact. Non-finite JavaScript results (a division by zero) are `None`, and `Infinity`/`NaN` are not represented otherwise.
- The test file test-timeit.js is not part of this model. Its expectations (at least nloops calls on both paths) follow from `Timing.SyncCallCount` and `Timing.AsyncCallCount`.

## Findings

| source | as written | input that shows it | evidently intended | confidence | as-written member | corrected member |
|---|---|---|---|---|---|---|
| timeit.js:120 | the count test compares nloops with its bitwise OR with 0, so every count that is not a 32-bit integer is taken as a duration in seconds | `timeit(2147483648, f)` enters duration mode instead of making 2^31 calls; without a callback it never ends | a loop count is any positive whole number | not executed | Timing.LargeCountMisread | Timing.ModeOfNumber |

The engine (`Timing.Engine.Timeit`, `Timing.TimeitEvents` and the lemmas about them) follows the code as written and dispatches on `Timing.ModeAsWritten`. The corrected whole-number test `Timing.ModeOf` is stated beside it, and `Timing.ModeAsWrittenBelowLimit` shows the two agree on every count below 2^31.
