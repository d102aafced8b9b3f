/** The four simulated endpoints of the controller: each waits a configured delay, then answers,
    possibly with a deliberately injected failure. The failure draw of `Random.nextInt(100)`, the
    latency draw and the interruption of the sleep are inputs of every handler. */
module ApiController {
  import opened JavaLang
  import opened Latency

  /** The controller's configuration: latency bounds in milliseconds and failure percentages.
      They are set once, when the controller is built, and never written again. */
  datatype Config = Config(
    paymentsLatencyMinMs: int,
    paymentsLatencyMaxMs: int,
    cashoutFailurePercentage: int,
    cashoutLatencyMinMs: int,
    cashoutLatencyMaxMs: int,
    creditAnalysisLatencyMinMs: int,
    creditAnalysisLatencyMaxMs: int,
    loanRequestFailurePercentage: int,
    loanRequestLatencyMinMs: int,
    loanRequestLatencyMaxMs: int)

  /** The values used when no property overrides them. */
  const Defaults: Config := Config(50, 200, 20, 100, 300, 1500, 3000, 100, 50, 150)

  /** An HTTP answer: status code and plain-text body. */
  datatype Response = Response(status: int, body: string)

  /** How a handler's `try` block ends: it returns a response or throws. */
  datatype Attempt = Normal(response: Response) | Throw(exception: JavaException)

  /** How a handler ends, as its caller sees it: a response, together with whether the thread's
      interrupt flag was set again before returning; or an exception no `catch` clause took. */
  datatype HandlerResult =
    | Returned(response: Response, interruptRestored: bool)
    | Threw(exception: JavaException)

  /** The contract of `Random.nextInt(100)`. */
  predicate IsFailureDraw(r: int) {
    0 <= r < 100
  }

  /** The configured latency bounds are equal and positive: `simulateLatency` then throws. */
  predicate IsGap(minMs: int, maxMs: int) {
    0 < minMs == maxMs
  }

  const PaymentSuccess: string := "Payment processed successfully."
  const PaymentInterruptedPrefix: string := "Error during payment processing: "
  const CashoutSuccess: string := "Cashout request successful."
  const CashoutUnavailable: string := "Cashout service temporarily unavailable (simulated error)."
  const CashoutInterruptedPrefix: string := "Error during cashout request: "
  const CreditAnalysisSuccess: string := "Credit analysis completed."
  const CreditAnalysisInterruptedPrefix: string := "Error during credit analysis: "
  const LoanSuccess: string := "Loan request submitted successfully."
  const LoanFailureMessage: string := "Internal system error processing loan request (simulated error)."
  const LoanInterruptedPrefix: string := "Interrupted error during loan request: "
  const LoanInternalError: string := "Failed to process loan request due to an internal error (simulated)."

  /** The `try` block of every handler starts with the delay; an exception it raises skips the rest. */
  function AfterLatency(o: LatencyOutcome, rest: Attempt): (a: Attempt)
    ensures a.Throw? <==> o.Raised? || rest.Throw?
    ensures o.Raised? ==> a == Throw(o.exception)
    ensures o.Slept? ==> a == rest
  {
    match o
    case Raised(e) => Throw(e)
    case Slept(_) => rest
  }

  /** `catch (InterruptedException e)`: set the interrupt flag again and answer 500 with the
      endpoint's prefix and the exception's message. Other exceptions are not caught. */
  function CatchInterrupted(a: Attempt, prefix: string): (res: HandlerResult)
    ensures res.Returned? && res.interruptRestored <==> a.Throw? && a.exception.InterruptedException?
    ensures res.Threw? <==> a.Throw? && IsRuntimeException(a.exception)
    ensures res.Threw? ==> res.exception == a.exception
    ensures a.Normal? ==> res == Returned(a.response, false)
    ensures a.Throw? && a.exception.InterruptedException? ==>
      res == Returned(Response(InternalServerError, Concat(prefix, a.exception.message)), true)
  {
    match a
    case Normal(response) => Returned(response, false)
    case Throw(InterruptedException(m)) => Returned(Response(InternalServerError, Concat(prefix, m)), true)
    case Throw(e) => Threw(e)
  }

  /** `GET /api/payments`: the delay, then 200. It never draws a failure. */
  function ProcessPayment(c: Config, draw: int, wake: Wake): (res: HandlerResult)
    requires IsDrawFrom(EffectiveRange(c.paymentsLatencyMinMs, c.paymentsLatencyMaxMs), draw)
    ensures res.Threw? <==> IsGap(c.paymentsLatencyMinMs, c.paymentsLatencyMaxMs)
    ensures res.Threw? ==> res.exception == IllegalArgumentException
    ensures res.Returned? ==> res.response.status in {Ok, InternalServerError}
    ensures res.Returned? ==> (res.interruptRestored <==> wake.Interrupted?)
    ensures res.Returned? ==> (res.response.status == Ok <==> wake == Completed)
  {
    var a := AfterLatency(
      SimulateLatency(c.paymentsLatencyMinMs, c.paymentsLatencyMaxMs, draw, wake),
      Normal(Response(Ok, PaymentSuccess)));
    CatchInterrupted(a, PaymentInterruptedPrefix)
  }

  /** `GET /api/cashout`: the delay, then 503 when the failure draw falls below the configured
      percentage, 200 otherwise. */
  function RequestCashout(c: Config, draw: int, wake: Wake, r: int): (res: HandlerResult)
    requires IsDrawFrom(EffectiveRange(c.cashoutLatencyMinMs, c.cashoutLatencyMaxMs), draw)
    requires IsFailureDraw(r)
    ensures res.Threw? <==> IsGap(c.cashoutLatencyMinMs, c.cashoutLatencyMaxMs)
    ensures res.Threw? ==> res.exception == IllegalArgumentException
    ensures res.Returned? ==> res.response.status in {Ok, ServiceUnavailable, InternalServerError}
    ensures res.Returned? ==> (res.interruptRestored <==> wake.Interrupted?)
    ensures res.Returned? && wake == Completed ==>
      (res.response.status == ServiceUnavailable <==> r < c.cashoutFailurePercentage)
    ensures res.Returned? ==> (res.response.status == Ok <==> wake == Completed && r >= c.cashoutFailurePercentage)
  {
    var a := AfterLatency(
      SimulateLatency(c.cashoutLatencyMinMs, c.cashoutLatencyMaxMs, draw, wake),
      if r < c.cashoutFailurePercentage
      then Normal(Response(ServiceUnavailable, CashoutUnavailable))
      else Normal(Response(Ok, CashoutSuccess)));
    CatchInterrupted(a, CashoutInterruptedPrefix)
  }

  /** `GET /api/credit-analysis`: the (long) delay, then 200. It never draws a failure. */
  function PerformCreditAnalysis(c: Config, draw: int, wake: Wake): (res: HandlerResult)
    requires IsDrawFrom(EffectiveRange(c.creditAnalysisLatencyMinMs, c.creditAnalysisLatencyMaxMs), draw)
    ensures res.Threw? <==> IsGap(c.creditAnalysisLatencyMinMs, c.creditAnalysisLatencyMaxMs)
    ensures res.Threw? ==> res.exception == IllegalArgumentException
    ensures res.Returned? ==> res.response.status in {Ok, InternalServerError}
    ensures res.Returned? ==> (res.interruptRestored <==> wake.Interrupted?)
    ensures res.Returned? ==> (res.response.status == Ok <==> wake == Completed)
  {
    var a := AfterLatency(
      SimulateLatency(c.creditAnalysisLatencyMinMs, c.creditAnalysisLatencyMaxMs, draw, wake),
      Normal(Response(Ok, CreditAnalysisSuccess)));
    CatchInterrupted(a, CreditAnalysisInterruptedPrefix)
  }

  /** The `try` block of `GET /api/loan-request`: the delay, then a thrown `RuntimeException` when
      the failure draw falls below the configured percentage, 200 otherwise. */
  function LoanRequestAttempt(c: Config, draw: int, wake: Wake, r: int): (a: Attempt)
    requires IsDrawFrom(EffectiveRange(c.loanRequestLatencyMinMs, c.loanRequestLatencyMaxMs), draw)
    requires IsFailureDraw(r)
    ensures a.Normal? ==> a.response == Response(Ok, LoanSuccess)
    ensures a.Normal? <==> wake == Completed && !IsGap(c.loanRequestLatencyMinMs, c.loanRequestLatencyMaxMs)
                           && r >= c.loanRequestFailurePercentage
  {
    AfterLatency(
      SimulateLatency(c.loanRequestLatencyMinMs, c.loanRequestLatencyMaxMs, draw, wake),
      if r < c.loanRequestFailurePercentage
      then Throw(RuntimeException(Str(LoanFailureMessage)))
      else Normal(Response(Ok, LoanSuccess)))
  }

  /** The two `catch` clauses of `GET /api/loan-request`: an interruption as in the other handlers;
      any `RuntimeException` (the simulated failure, or the generator's `IllegalArgumentException`)
      becomes a 500 with a fixed body that does not repeat the exception's message. */
  function CatchLoanRequest(a: Attempt): (res: HandlerResult)
    ensures res.Returned?
    ensures res.interruptRestored <==> a.Throw? && a.exception.InterruptedException?
    ensures a.Throw? && IsRuntimeException(a.exception) ==>
      res.response == Response(InternalServerError, LoanInternalError)
    ensures a.Normal? ==> res == Returned(a.response, false)
    ensures a.Throw? && a.exception.InterruptedException? ==>
      res == Returned(Response(InternalServerError, Concat(LoanInterruptedPrefix, a.exception.message)), true)
  {
    match a
    case Normal(response) => Returned(response, false)
    case Throw(InterruptedException(m)) => Returned(Response(InternalServerError, Concat(LoanInterruptedPrefix, m)), true)
    case Throw(_) => Returned(Response(InternalServerError, LoanInternalError), false)
  }

  /** `GET /api/loan-request`. It always answers: every exception its `try` block can raise is caught. */
  function SubmitLoanRequest(c: Config, draw: int, wake: Wake, r: int): (res: HandlerResult)
    requires IsDrawFrom(EffectiveRange(c.loanRequestLatencyMinMs, c.loanRequestLatencyMaxMs), draw)
    requires IsFailureDraw(r)
    ensures res.Returned?
    ensures res.response.status in {Ok, InternalServerError}
    ensures res.interruptRestored <==>
      wake.Interrupted? && !IsGap(c.loanRequestLatencyMinMs, c.loanRequestLatencyMaxMs)
    ensures res.response.status == Ok <==>
      wake == Completed && !IsGap(c.loanRequestLatencyMinMs, c.loanRequestLatencyMaxMs)
      && r >= c.loanRequestFailurePercentage
  {
    CatchLoanRequest(LoanRequestAttempt(c, draw, wake, r))
  }
}
