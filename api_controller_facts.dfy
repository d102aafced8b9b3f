/** What the four endpoints promise, stated against the literal texts of their answers. */
module ApiControllerFacts {
  import opened JavaLang
  import opened Latency
  import opened ApiController

  /** The number of draws r in [0, 100) with r < pct. */
  function Clamp(pct: int): (k: nat)
    ensures k <= 100
  {
    if pct <= 0 then 0 else if pct >= 100 then 100 else pct
  }

  /** The draws 0, 1, ..., n - 1: n distinct values. */
  function DrawsBelow(n: nat): (s: set<int>)
    ensures forall r :: r in s <==> 0 <= r < n
    ensures |s| == n
  {
    if n == 0 then {} else DrawsBelow(n - 1) + {n - 1}
  }

  /** With a usable latency window and no interruption, payments always answers 200. */
  lemma PaymentsNeverFail(c: Config, draw: int)
    requires IsDrawFrom(EffectiveRange(c.paymentsLatencyMinMs, c.paymentsLatencyMaxMs), draw)
    requires !IsGap(c.paymentsLatencyMinMs, c.paymentsLatencyMaxMs)
    ensures ProcessPayment(c, draw, Completed) == Returned(Response(200, "Payment processed successfully."), false)
  {
  }

  /** With a usable latency window and no interruption, credit analysis always answers 200. */
  lemma CreditAnalysisNeverFails(c: Config, draw: int)
    requires IsDrawFrom(EffectiveRange(c.creditAnalysisLatencyMinMs, c.creditAnalysisLatencyMaxMs), draw)
    requires !IsGap(c.creditAnalysisLatencyMinMs, c.creditAnalysisLatencyMaxMs)
    ensures PerformCreditAnalysis(c, draw, Completed) == Returned(Response(200, "Credit analysis completed."), false)
  {
  }

  /** Without interruption, cashout answers 503 exactly when the failure draw falls below the
      configured percentage, and 200 otherwise. */
  lemma CashoutThreshold(c: Config, draw: int, r: int)
    requires IsDrawFrom(EffectiveRange(c.cashoutLatencyMinMs, c.cashoutLatencyMaxMs), draw)
    requires IsFailureDraw(r)
    requires !IsGap(c.cashoutLatencyMinMs, c.cashoutLatencyMaxMs)
    ensures RequestCashout(c, draw, Completed, r) ==
      if r < c.cashoutFailurePercentage
      then Returned(Response(503, "Cashout service temporarily unavailable (simulated error)."), false)
      else Returned(Response(200, "Cashout request successful."), false)
  {
  }

  /** Some draw makes cashout fail exactly when the percentage is positive; every draw does
      exactly when it is at least 100. */
  lemma CashoutFailureExtremes(c: Config, draw: int)
    requires IsDrawFrom(EffectiveRange(c.cashoutLatencyMinMs, c.cashoutLatencyMaxMs), draw)
    requires !IsGap(c.cashoutLatencyMinMs, c.cashoutLatencyMaxMs)
    ensures (exists r :: IsFailureDraw(r) && RequestCashout(c, draw, Completed, r).response.status == 503)
            <==> c.cashoutFailurePercentage > 0
    ensures (forall r :: IsFailureDraw(r) ==> RequestCashout(c, draw, Completed, r).response.status == 503)
            <==> c.cashoutFailurePercentage >= 100
  {
    if c.cashoutFailurePercentage > 0 {
      assert RequestCashout(c, draw, Completed, 0).response.status == 503;
    }
    if c.cashoutFailurePercentage < 100 {
      assert RequestCashout(c, draw, Completed, 99).response.status != 503;
    }
  }

  /** The failure draws on which cashout answers 503. */
  ghost function CashoutFailingDraws(c: Config, draw: int): (s: set<int>)
    requires IsDrawFrom(EffectiveRange(c.cashoutLatencyMinMs, c.cashoutLatencyMaxMs), draw)
  {
    set r: int | 0 <= r < 100 && RequestCashout(c, draw, Completed, r).Returned?
                 && RequestCashout(c, draw, Completed, r).response.status == 503
  }

  /** The configured percentage is a percentage: of the hundred possible failure draws, exactly
      that many (clamped to [0, 100]) make cashout answer 503. */
  lemma CashoutFailureShare(c: Config, draw: int)
    requires IsDrawFrom(EffectiveRange(c.cashoutLatencyMinMs, c.cashoutLatencyMaxMs), draw)
    ensures |CashoutFailingDraws(c, draw)| ==
      if IsGap(c.cashoutLatencyMinMs, c.cashoutLatencyMaxMs) then 0 else Clamp(c.cashoutFailurePercentage)
  {
    var k := if IsGap(c.cashoutLatencyMinMs, c.cashoutLatencyMaxMs) then 0 else Clamp(c.cashoutFailurePercentage);
    assert CashoutFailingDraws(c, draw) == DrawsBelow(k);
  }

  /** With the default configuration, cashout always answers, with 200, 503 or 500. */
  lemma CashoutDefaultStatuses(draw: int, wake: Wake, r: int)
    requires IsDrawFrom(EffectiveRange(Defaults.cashoutLatencyMinMs, Defaults.cashoutLatencyMaxMs), draw)
    requires IsFailureDraw(r)
    ensures RequestCashout(Defaults, draw, wake, r).Returned?
    ensures RequestCashout(Defaults, draw, wake, r).response.status in {200, 503, 500}
  {
  }

  /** Without interruption, loan request answers 500 with its fixed internal-error body exactly
      when the failure draw falls below the configured percentage; the body is not the message
      of the exception thrown to produce it. */
  lemma LoanThreshold(c: Config, draw: int, r: int)
    requires IsDrawFrom(EffectiveRange(c.loanRequestLatencyMinMs, c.loanRequestLatencyMaxMs), draw)
    requires IsFailureDraw(r)
    requires !IsGap(c.loanRequestLatencyMinMs, c.loanRequestLatencyMaxMs)
    ensures SubmitLoanRequest(c, draw, Completed, r) ==
      if r < c.loanRequestFailurePercentage
      then Returned(Response(500, "Failed to process loan request due to an internal error (simulated)."), false)
      else Returned(Response(200, "Loan request submitted successfully."), false)
    ensures r < c.loanRequestFailurePercentage ==>
      LoanRequestAttempt(c, draw, Completed, r) == Throw(RuntimeException(Str(LoanFailureMessage)))
      && SubmitLoanRequest(c, draw, Completed, r).response.body != LoanFailureMessage
  {
  }

  /** With the default configuration every call that is not interrupted answers the fixed 500. */
  lemma LoanDefaultsAlwaysFail(draw: int, r: int)
    requires IsDrawFrom(EffectiveRange(Defaults.loanRequestLatencyMinMs, Defaults.loanRequestLatencyMaxMs), draw)
    requires IsFailureDraw(r)
    ensures SubmitLoanRequest(Defaults, draw, Completed, r) ==
      Returned(Response(500, "Failed to process loan request due to an internal error (simulated)."), false)
  {
  }

  /** Some draw lets loan request succeed exactly when its window is usable and the percentage
      is below 100. */
  lemma LoanSuccessReachable(c: Config, draw: int)
    requires IsDrawFrom(EffectiveRange(c.loanRequestLatencyMinMs, c.loanRequestLatencyMaxMs), draw)
    ensures (exists r :: IsFailureDraw(r) && SubmitLoanRequest(c, draw, Completed, r).response.status == 200)
            <==> !IsGap(c.loanRequestLatencyMinMs, c.loanRequestLatencyMaxMs) && c.loanRequestFailurePercentage < 100
  {
    if !IsGap(c.loanRequestLatencyMinMs, c.loanRequestLatencyMaxMs) && c.loanRequestFailurePercentage < 100 {
      assert SubmitLoanRequest(c, draw, Completed, 99).response.status == 200;
    }
  }

  /** The failure draws on which loan request answers its fixed 500 without being interrupted. */
  ghost function LoanFailingDraws(c: Config, draw: int): (s: set<int>)
    requires IsDrawFrom(EffectiveRange(c.loanRequestLatencyMinMs, c.loanRequestLatencyMaxMs), draw)
  {
    set r: int | 0 <= r < 100 && SubmitLoanRequest(c, draw, Completed, r).response.status == 500
  }

  /** Of the hundred possible failure draws, exactly the configured percentage (clamped to
      [0, 100]) make loan request fail; all of them do when the latency bounds are equal. */
  lemma LoanFailureShare(c: Config, draw: int)
    requires IsDrawFrom(EffectiveRange(c.loanRequestLatencyMinMs, c.loanRequestLatencyMaxMs), draw)
    ensures |LoanFailingDraws(c, draw)| ==
      if IsGap(c.loanRequestLatencyMinMs, c.loanRequestLatencyMaxMs) then 100 else Clamp(c.loanRequestFailurePercentage)
  {
    var k := if IsGap(c.loanRequestLatencyMinMs, c.loanRequestLatencyMaxMs) then 100 else Clamp(c.loanRequestFailurePercentage);
    assert LoanFailingDraws(c, draw) == DrawsBelow(k);
  }

  /** Equal positive latency bounds make `simulateLatency` throw before sleeping. Loan request
      catches that as a `RuntimeException` and answers its fixed 500 whatever the draws. */
  lemma LoanEqualBoundsCaught(c: Config, draw: int, wake: Wake, r: int)
    requires IsGap(c.loanRequestLatencyMinMs, c.loanRequestLatencyMaxMs)
    requires IsFailureDraw(r)
    ensures SubmitLoanRequest(c, draw, wake, r) ==
      Returned(Response(500, "Failed to process loan request due to an internal error (simulated)."), false)
  {
  }

  /** Equal positive latency bounds make the three other handlers throw `IllegalArgumentException`
      out of the handler, whatever the draws; each handler depends on its own bounds only. */
  lemma EqualBoundsEscape(c: Config, draw: int, wake: Wake, r: int)
    requires IsFailureDraw(r)
    ensures IsGap(c.paymentsLatencyMinMs, c.paymentsLatencyMaxMs) ==>
      ProcessPayment(c, draw, wake) == Threw(IllegalArgumentException)
    ensures IsGap(c.cashoutLatencyMinMs, c.cashoutLatencyMaxMs) ==>
      RequestCashout(c, draw, wake, r) == Threw(IllegalArgumentException)
    ensures IsGap(c.creditAnalysisLatencyMinMs, c.creditAnalysisLatencyMaxMs) ==>
      PerformCreditAnalysis(c, draw, wake) == Threw(IllegalArgumentException)
  {
  }

  /** An interrupted payment answers 500 with its prefix and the exception's message, and sets
      the interrupt flag again. */
  lemma PaymentsInterrupted(c: Config, draw: int, m: JString)
    requires IsDrawFrom(EffectiveRange(c.paymentsLatencyMinMs, c.paymentsLatencyMaxMs), draw)
    requires !IsGap(c.paymentsLatencyMinMs, c.paymentsLatencyMaxMs)
    ensures ProcessPayment(c, draw, Interrupted(m)) ==
      Returned(Response(500, Concat("Error during payment processing: ", m)), true)
  {
  }

  /** An interrupted cashout answers 500 with its prefix and the exception's message, sets the
      interrupt flag again, and never gets to the failure draw. */
  lemma CashoutInterrupted(c: Config, draw: int, m: JString, r1: int, r2: int)
    requires IsDrawFrom(EffectiveRange(c.cashoutLatencyMinMs, c.cashoutLatencyMaxMs), draw)
    requires !IsGap(c.cashoutLatencyMinMs, c.cashoutLatencyMaxMs)
    requires IsFailureDraw(r1) && IsFailureDraw(r2)
    ensures RequestCashout(c, draw, Interrupted(m), r1) ==
      Returned(Response(500, Concat("Error during cashout request: ", m)), true)
    ensures RequestCashout(c, draw, Interrupted(m), r1) == RequestCashout(c, draw, Interrupted(m), r2)
  {
  }

  /** An interrupted credit analysis answers 500 with its prefix and the exception's message, and
      sets the interrupt flag again. */
  lemma CreditAnalysisInterrupted(c: Config, draw: int, m: JString)
    requires IsDrawFrom(EffectiveRange(c.creditAnalysisLatencyMinMs, c.creditAnalysisLatencyMaxMs), draw)
    requires !IsGap(c.creditAnalysisLatencyMinMs, c.creditAnalysisLatencyMaxMs)
    ensures PerformCreditAnalysis(c, draw, Interrupted(m)) ==
      Returned(Response(500, Concat("Error during credit analysis: ", m)), true)
  {
  }

  /** An interrupted loan request answers 500 with its own prefix and the exception's message (not
      the fixed internal-error body), sets the interrupt flag again, and never gets to the failure draw. */
  lemma LoanInterrupted(c: Config, draw: int, m: JString, r1: int, r2: int)
    requires IsDrawFrom(EffectiveRange(c.loanRequestLatencyMinMs, c.loanRequestLatencyMaxMs), draw)
    requires !IsGap(c.loanRequestLatencyMinMs, c.loanRequestLatencyMaxMs)
    requires IsFailureDraw(r1) && IsFailureDraw(r2)
    ensures SubmitLoanRequest(c, draw, Interrupted(m), r1) ==
      Returned(Response(500, Concat("Interrupted error during loan request: ", m)), true)
    ensures SubmitLoanRequest(c, draw, Interrupted(m), r1) == SubmitLoanRequest(c, draw, Interrupted(m), r2)
  {
  }
}
