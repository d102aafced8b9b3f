# Fault-injection decisions of the dynatrace-app `ApiController`

The controller serves four simulated endpoints (`/api/payments`, `/api/cashout`,
`/api/credit-analysis`, `/api/loan-request`). Each handler first waits a random delay
(`simulateLatency`), then answers, possibly with a deliberately injected failure. This project
models that decision logic as pure Dafny functions and proves what each endpoint can answer.

The randomness and the sleep are inputs:

- `draw` is the value `ThreadLocalRandom.nextInt(origin, bound)` returns. Its precondition
  `IsDrawFrom` is that generator's contract: the value lies in `[origin, bound)` whenever that
  window is non-empty.
- `r` is the value of `Random.nextInt(100)`, so `0 <= r < 100`.
- `wake` says whether `Thread.sleep` ran to completion or was interrupted. An interruption
  carries the exception's message, a `JString` that may be Java `null`. Java's `+` renders a
  null message as `null`.

Module layout:

- `java_lang.dfy`: the Java pieces the answers depend on (nullable strings, concatenation, the
  three exception kinds, status codes).
- `latency.dfy`: `simulateLatency`, its range validation and the delays it can produce.
- `api_controller.dfy`: the configuration with its defaults and the four handlers. Each handler
  is its `try` block followed by its `catch` clauses.
- `api_controller_facts.dfy`: the endpoint-level properties.

The validation in `simulateLatency` rejects `minMs <= 0`, `maxMs <= 0` and `minMs > maxMs`, but
it lets `minMs == maxMs > 0` through. `nextInt(minMs, maxMs)` then has an empty range and throws
`IllegalArgumentException` before any sleep starts. The model keeps this as an error outcome:

- payments, cashout and credit-analysis catch only `InterruptedException`, so the exception
  leaves the handler (`HandlerResult.Threw`);
- loan-request catches every `RuntimeException`, so it answers its fixed 500 body.

The injected failures are fixed by the code:

- cashout fails only with 503.
- loan-request fails only by throwing a `RuntimeException` that its own `catch` turns into the
  fixed 500 body.

## Model

| member | source | states |
|---|---|---|
| Latency.EffectiveRange | src/main/java/com/example/dynatraceapp/controller/ApiController.java:49-54 | rejected bounds give the fixed window [50, 150) and accepted bounds give [minMs, maxMs); the window always has a positive lower bound, and it is empty exactly when the bounds are equal and positive |
| Latency.SimulateLatency | src/main/java/com/example/dynatraceapp/controller/ApiController.java:49-55 | it throws `IllegalArgumentException` exactly when the bounds are equal and positive; it returns normally exactly when the sleep completes and the bounds are not equal and positive, and then the delay slept is the draw, a positive time inside the effective window; it throws `InterruptedException`, carrying the interruption's message, exactly when the sleep is interrupted and the window is non-empty |
| Latency.InvalidRangeFallsBack | src/main/java/com/example/dynatraceapp/controller/ApiController.java:50-52 | for rejected bounds, the delays that can occur are exactly those in [50, 150), whatever was configured |
| Latency.ValidRangeIsHalfOpen | src/main/java/com/example/dynatraceapp/controller/ApiController.java:54 | for accepted bounds with minMs < maxMs, the delays that can occur are exactly those in [minMs, maxMs), and maxMs itself never occurs |
| Latency.EqualBoundsGap | src/main/java/com/example/dynatraceapp/controller/ApiController.java:50-54 | no delay at all can occur exactly when minMs == maxMs > 0: the validation admits that case and the draw then fails |
| ApiController.CatchInterrupted | src/main/java/com/example/dynatraceapp/controller/ApiController.java:62-64 | an `InterruptedException` becomes a 500 whose body is the endpoint's prefix followed by the exception's message, and re-sets the interrupt flag; a normal answer passes through unchanged with the flag not re-set; a runtime exception is not caught |
| ApiController.ProcessPayment | src/main/java/com/example/dynatraceapp/controller/ApiController.java:57-66 | it throws exactly on equal positive bounds; otherwise the status is 200 or 500; it is 200 exactly when not interrupted; the interrupt flag is re-set exactly when interrupted |
| ApiController.RequestCashout | src/main/java/com/example/dynatraceapp/controller/ApiController.java:68-81 | it throws exactly on equal positive bounds; otherwise the status is one of 200, 503 and 500; when not interrupted it is 503 exactly when r is below the failure percentage; it is 200 exactly when not interrupted and r is at least the percentage; the interrupt flag is re-set exactly when interrupted |
| ApiController.PerformCreditAnalysis | src/main/java/com/example/dynatraceapp/controller/ApiController.java:83-92 | it throws exactly on equal positive bounds; otherwise the status is 200 or 500; it is 200 exactly when not interrupted; the interrupt flag is re-set exactly when interrupted |
| ApiController.LoanRequestAttempt | src/main/java/com/example/dynatraceapp/controller/ApiController.java:96-102 | the `try` block returns normally, with the 200 success answer, exactly when the sleep completes in a usable window and r is at least the failure percentage; otherwise it throws |
| ApiController.CatchLoanRequest | src/main/java/com/example/dynatraceapp/controller/ApiController.java:103-108 | every exception is caught; a normal answer passes through unchanged with the flag not re-set; an interruption gives 500 with "Interrupted error during loan request: " followed by the exception's message and re-sets the flag; every runtime exception gives the 500 with the fixed internal-error body |
| ApiController.SubmitLoanRequest | src/main/java/com/example/dynatraceapp/controller/ApiController.java:94-110 | it never throws; the status is 200 or 500; it is 200 exactly when not interrupted, the window is usable and r is at least the failure percentage; the interrupt flag is re-set exactly on an interruption during the sleep |
| ApiControllerFacts.PaymentsNeverFail | src/main/java/com/example/dynatraceapp/controller/ApiController.java:60-61 | when not interrupted and the window is usable, payments answers 200 "Payment processed successfully." for every configuration |
| ApiControllerFacts.CreditAnalysisNeverFails | src/main/java/com/example/dynatraceapp/controller/ApiController.java:86-87 | when not interrupted and the window is usable, credit analysis answers 200 "Credit analysis completed." for every configuration |
| ApiControllerFacts.CashoutThreshold | src/main/java/com/example/dynatraceapp/controller/ApiController.java:73-76 | when not interrupted, cashout answers 503 with the "temporarily unavailable" body if r < percentage, and 200 "Cashout request successful." otherwise |
| ApiControllerFacts.CashoutFailureExtremes | src/main/java/com/example/dynatraceapp/controller/ApiController.java:73 | some draw gives 503 exactly when the percentage is positive (so 0 never fails); every draw gives 503 exactly when it is at least 100 |
| ApiControllerFacts.CashoutFailureShare | src/main/java/com/example/dynatraceapp/controller/ApiController.java:73-74 | of the 100 possible failure draws, exactly the percentage clamped to [0, 100] give 503, or none when the bounds are equal |
| ApiControllerFacts.CashoutDefaultStatuses | src/main/java/com/example/dynatraceapp/controller/ApiController.java:27-32 | with the default configuration cashout always answers, with 200, 503 or 500 |
| ApiControllerFacts.LoanThreshold | src/main/java/com/example/dynatraceapp/controller/ApiController.java:99-108 | when not interrupted, loan request answers 500 with the fixed internal-error body if r < percentage, and 200 "Loan request submitted successfully." otherwise; the failure is the thrown `RuntimeException`, and its message is not the body |
| ApiControllerFacts.LoanDefaultsAlwaysFail | src/main/java/com/example/dynatraceapp/controller/ApiController.java:41-46 | with the default configuration (100 percent), every call that is not interrupted answers the fixed 500 |
| ApiControllerFacts.LoanSuccessReachable | src/main/java/com/example/dynatraceapp/controller/ApiController.java:99-102 | some draw lets loan request answer 200 exactly when the window is usable and the percentage is below 100 |
| ApiControllerFacts.LoanFailureShare | src/main/java/com/example/dynatraceapp/controller/ApiController.java:99-108 | of the 100 possible failure draws, exactly the percentage clamped to [0, 100] give the fixed 500, or all 100 when the bounds are equal |
| ApiControllerFacts.LoanEqualBoundsCaught | src/main/java/com/example/dynatraceapp/controller/ApiController.java:106-108 | with equal positive bounds, loan request catches the generator's `IllegalArgumentException` and answers the fixed 500, whatever the draws and the interruption |
| ApiControllerFacts.EqualBoundsEscape | src/main/java/com/example/dynatraceapp/controller/ApiController.java:54 | each of payments, cashout and credit analysis throws `IllegalArgumentException` out of the handler whenever its own bounds are equal and positive, whatever the draws, the interruption and the other handlers' bounds |
| ApiControllerFacts.PaymentsInterrupted | src/main/java/com/example/dynatraceapp/controller/ApiController.java:62-64 | an interrupted payment answers 500 "Error during payment processing: " followed by the exception's message, with the interrupt flag re-set |
| ApiControllerFacts.CashoutInterrupted | src/main/java/com/example/dynatraceapp/controller/ApiController.java:77-79 | an interrupted cashout answers 500 "Error during cashout request: " followed by the message, re-sets the flag, and does not depend on the failure draw |
| ApiControllerFacts.CreditAnalysisInterrupted | src/main/java/com/example/dynatraceapp/controller/ApiController.java:88-90 | an interrupted credit analysis answers 500 "Error during credit analysis: " followed by the message, with the flag re-set |
| ApiControllerFacts.LoanInterrupted | src/main/java/com/example/dynatraceapp/controller/ApiController.java:103-105 | an interrupted loan request answers 500 "Interrupted error during loan request: " followed by the message, not the fixed body; it re-sets the flag and does not depend on the failure draw |

## Left out

- Spring routing, the `@RestController`/`@GetMapping` annotations and `ResponseEntity` beyond a (status, body) pair. What Spring answers when `IllegalArgumentException` leaves a handler is also left out: the model stops at the thrown exception.
- Loading the settings through `@Value`. The property defaults are the constant `ApiController.Defaults`, and any other configuration is a `Config` value.
- The wall-clock suspension of `Thread.sleep` and the thread-interrupt machinery. What remains is the `wake` input and the `interruptRestored` output.
- The internals of `java.util.Random` and `ThreadLocalRandom`, and any statistical or uniformity claim. Draws are inputs bounded by each generator's contract. `CashoutFailureShare` and `LoanFailureShare` count draw values; they say nothing about how often the generator produces them.
- The `System.err.println` log line in the loan-request `catch` clause.
- Concurrency, including the `Random` field shared by the request threads.
- The 32-bit width of the Java `int` settings. The code only compares them and never does arithmetic on them, so unbounded integers behave the same.
