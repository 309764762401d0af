/** What the application may do after a reconciliation result: decisions only, nothing is applied here. */
module Policy {
  import opened Wrappers
  import opened Snapshots
  import opened Compare

  datatype PolicyReason =
    | PaidWithRefunds
    | PaidWithCaptureMismatch
    | FailedWithMovedFunds
    | OpenProviderMoney
    | UnaccountedTotals
    | Ambiguous
    | PaymentNotFound
    | Review(reason: ReviewReason)

  datatype Decision =
    | UpdateLocalToPaid(provider: Provider)
    | UpdateLocalToFailed(provider: Provider)
    | MarkConsistent(provider: Provider)
    | SendToReview(why: PolicyReason)
    | RetryLater(retryAfterMs: Option<int>)
    | DoNotCreateReplacement(why: PolicyReason)
    | ApplyDriftReview(differences: seq<Difference>, provider: Provider)

  predicate IsPaidLike(s: Status) {
    s == Paid
  }

  predicate IsDefinitiveFailure(s: Status) {
    s == Failed || s == Cancelled || s == Canceled
  }

  predicate IsOpenIncomplete(s: Status) {
    s in {Authorized, Approved, PartiallyCaptured, Processing, Pending, PartiallyRefunded, Refunded, RefundPending,
          RefundFailed, RefundCompleted, SetupCompleted, Reversed}
  }

  predicate IsOpenMoney(s: Status) {
    IsOpenIncomplete(s) || s == Paid
  }

  function StatusOf(local: Option<Local>): Option<Status> {
    if local.Some? then local.value.status else None
  }

  predicate IsIndeterminate(local: Option<Local>) {
    StatusOf(local).None? || IsSettling(StatusOf(local).value)
  }

  predicate IsAuthHoldLocal(local: Option<Local>) {
    StatusOf(local) in {Some(Authorized), Some(Approved), Some(PartiallyCaptured)}
  }

  predicate IsOpenMoneyLocal(local: Option<Local>) {
    StatusOf(local).None? || IsOpenMoney(StatusOf(local).value)
  }

  function ExpectedId(target: Target): Option<string> {
    if target.expected.Some? then target.expected.value.gatewayPaymentId else None
  }

  predicate IdentityBound(target: Target, p: Provider) {
    && (Known(target.gatewayPaymentId) ==> target.gatewayPaymentId.value == p.gatewayPaymentId)
    && (Known(ExpectedId(target)) ==> ExpectedId(target).value == p.gatewayPaymentId)
  }

  predicate MovedFundsOnFailure(p: Provider) {
    IsDefinitiveFailure(p.status) && (NonZero(p.capturedAmount) || NonZero(p.refundedAmount))
  }

  predicate RefundsOnPaid(p: Provider) {
    IsPaidLike(p.status) && NonZero(p.refundedAmount)
  }

  predicate CaptureMismatchOnPaid(p: Provider) {
    && IsPaidLike(p.status) && p.capturedAmount.Some?
    && ((NonZero(Some(p.amount)) && !NonZero(p.capturedAmount)) || !MoneyEquals(p.capturedAmount.value, p.amount))
  }

  /** Money the provider moved that a local authorization or partial status does not account for. */
  predicate Unaccounted(local: Option<Local>, p: Provider) {
    if local.None? || local.value.status.None? then false
    else
      var l := local.value;
      var refund := l.refundedAmount.None? && NonZero(p.refundedAmount);
      var capture := l.capturedAmount.None? && NonZero(p.capturedAmount);
      match l.status.value
      case Authorized => capture || refund
      case Approved => capture || refund
      case PartiallyCaptured => l.capturedAmount.None? || refund
      case PartiallyRefunded => l.refundedAmount.None? || capture || refund
      case _ => false
  }

  predicate MaySafeUpgradeToPaid(target: Target, p: Provider) {
    !IsAuthHoldLocal(target.expected) && IdentityBound(target, p) && !RefundsOnPaid(p) && !CaptureMismatchOnPaid(p)
  }

  predicate MaySafeUpdateToFailed(target: Target, p: Provider) {
    IdentityBound(target, p) && !MovedFundsOnFailure(p)
  }

  /** A difference that an unfinished settlement explains: a status still in flight, or nothing captured yet. */
  predicate SettlingDifference(d: Difference, p: Provider) {
    match d
    case StatusDiffers(l, r) => IsSettling(l) && IsSettling(r)
    case CapturedDiffers(_, money) =>
      (money.Some? && ProvenZero(money.value))
      || (money.None? && p.capturedAmount.Some? && ProvenZero(p.capturedAmount.value))
    case _ => false
  }

  predicate InFlightZeroCaptureOnly(local: Option<Local>, p: Provider, differences: seq<Difference>) {
    && IsIndeterminate(local)
    && (local.Some? ==> local.value.capturedAmount.None?)
    && IsSettling(p.status)
    && (forall d :: d in differences ==> SettlingDifference(d, p))
    && (exists d :: d in differences && d.CapturedDiffers?)
  }

  /** The scan over the differences, as the policy runs it. */
  method ScanInFlightDrift(local: Option<Local>, p: Provider, differences: seq<Difference>) returns (only: bool)
    ensures only == InFlightZeroCaptureOnly(local, p, differences)
  {
    if !IsIndeterminate(local) || (local.Some? && local.value.capturedAmount.Some?) || !IsSettling(p.status) {
      return false;
    }
    var sawCaptureZero := false;
    for i := 0 to |differences|
      invariant forall j :: 0 <= j < i ==> SettlingDifference(differences[j], p)
      invariant sawCaptureZero <==> exists j :: 0 <= j < i && differences[j].CapturedDiffers?
    {
      assert differences[i] in differences;
      match differences[i] {
        case StatusDiffers(l, r) =>
          if !IsSettling(l) || !IsSettling(r) {
            return false;
          }
        case CapturedDiffers(_, money) =>
          var providerMoney := if money.Some? then money else p.capturedAmount;
          if providerMoney.None? || !ProvenZero(providerMoney.value) {
            return false;
          }
          sawCaptureZero := true;
        case _ => return false;
      }
    }
    return sawCaptureZero;
  }

  function DecideConsistent(p: Provider, target: Target): Decision {
    var local := target.expected;
    var open := IsIndeterminate(local);
    if open && IsPaidLike(p.status) && MaySafeUpgradeToPaid(target, p) then UpdateLocalToPaid(p)
    else if open && RefundsOnPaid(p) && IdentityBound(target, p) then SendToReview(PaidWithRefunds)
    else if open && CaptureMismatchOnPaid(p) && IdentityBound(target, p) then SendToReview(PaidWithCaptureMismatch)
    else if open && IsDefinitiveFailure(p.status) && MaySafeUpdateToFailed(target, p) then UpdateLocalToFailed(p)
    else if open && MovedFundsOnFailure(p) && IdentityBound(target, p) then SendToReview(FailedWithMovedFunds)
    else if open && IsSettling(p.status) then RetryLater(None)
    else if open && IsOpenIncomplete(p.status) then SendToReview(OpenProviderMoney)
    else if RefundsOnPaid(p) then SendToReview(PaidWithRefunds)
    else if CaptureMismatchOnPaid(p) then SendToReview(PaidWithCaptureMismatch)
    else if Unaccounted(local, p) then SendToReview(UnaccountedTotals)
    else MarkConsistent(p)
  }

  function DecideDrift(p: Provider, differences: seq<Difference>, target: Target): Decision {
    var local := target.expected;
    var onlyStatus := |differences| == 1 && differences[0].StatusDiffers?;
    var open := onlyStatus && IsIndeterminate(local);
    if open && IsPaidLike(p.status) && MaySafeUpgradeToPaid(target, p) then UpdateLocalToPaid(p)
    else if open && RefundsOnPaid(p) && IdentityBound(target, p) then ApplyDriftReview(differences, p)
    else if open && CaptureMismatchOnPaid(p) && IdentityBound(target, p) then ApplyDriftReview(differences, p)
    else if open && IsDefinitiveFailure(p.status) && MaySafeUpdateToFailed(target, p) then UpdateLocalToFailed(p)
    else if open && MovedFundsOnFailure(p) then ApplyDriftReview(differences, p)
    else if InFlightZeroCaptureOnly(local, p, differences) then RetryLater(None)
    else ApplyDriftReview(differences, p)
  }

  function Decide(result: Result, target: Target): Decision {
    match result
    case Consistent(p) => DecideConsistent(p, target)
    case DriftDetected(p, differences) => DecideDrift(p, differences, target)
    case AmbiguousMatch(_) => SendToReview(Ambiguous)
    case TemporarilyUnavailable(retryAfterMs) => RetryLater(retryAfterMs)
    case ProviderNotFound(retryable) =>
      if retryable then DoNotCreateReplacement(PaymentNotFound) else SendToReview(PaymentNotFound)
    case ManualReviewRequired(reason) =>
      if IsIndeterminate(target.expected) then DoNotCreateReplacement(Review(reason)) else SendToReview(Review(reason))
  }

  function ShouldForbidReplacementCharge(result: Result, target: Target): bool {
    match result
    case AmbiguousMatch(_) => true
    case ProviderNotFound(_) => true
    case TemporarilyUnavailable(_) => true
    case ManualReviewRequired(_) => true
    case _ =>
      || IsOpenMoneyLocal(target.expected)
      || IsPaidLike(result.provider.status)
      || IsOpenIncomplete(result.provider.status)
      || MovedFundsOnFailure(result.provider)
  }
}

/** What the lookup, the comparison and the policy guarantee together. */
module Reconciliation {
  import opened Wrappers
  import opened Snapshots
  import opened Compare
  import opened Lookup
  import opened Policy

  /** What is decided for a target under a lookup. */
  ghost function Decision(target: Target, port: Port): Policy.Decision {
    Decide(Resolved(target, port), target)
  }

  /** The local status is absent or has not settled. */
  predicate StillOpen(expected: Option<Local>) {
    expected.None? || expected.value.status in {None, Some(Pending), Some(Processing)}
  }

  predicate HasFailed(s: Status) {
    s in {Failed, Cancelled, Canceled}
  }

  /** Statuses short of a payment that has failed, under which money is or may be held. */
  predicate Unfinished(s: Status) {
    s in {Pending, Processing, Authorized, Approved, PartiallyCaptured, PartiallyRefunded, Refunded, RefundPending,
          RefundFailed, RefundCompleted, SetupCompleted, Reversed}
  }

  predicate Moved(total: Option<Money>) {
    total.Some? && total.value.amount != Minor(0)
  }

  /** The captured total is shown and is not the whole amount. */
  predicate CaptureIsOff(p: Provider) {
    p.capturedAmount.Some? && p.capturedAmount.value != p.amount
  }

  /** Money that the provider moved and the record of a hold or a partial payment leaves out. */
  predicate LeavesOut(l: Local, p: Provider) {
    || (l.capturedAmount.None? && l.status == Some(PartiallyCaptured))
    || (l.capturedAmount.None? && l.status in {Some(Authorized), Some(Approved), Some(PartiallyRefunded)}
        && Moved(p.capturedAmount))
    || (l.refundedAmount.None? && l.status == Some(PartiallyRefunded))
    || (l.refundedAmount.None? && l.status in {Some(Authorized), Some(Approved), Some(PartiallyCaptured)}
        && Moved(p.refundedAmount))
  }

  /** The provider's totals show no refund and, if they show a capture, one for the whole amount. */
  predicate CleanlyPaid(p: Provider) {
    p.status == Paid && !Moved(p.refundedAmount) && !CaptureIsOff(p)
  }

  /** The provider reports a definitive failure and no captured or refunded money. */
  predicate CleanlyFailed(p: Provider) {
    HasFailed(p.status) && !Moved(p.capturedAmount) && !Moved(p.refundedAmount)
  }

  /** The payment is the one the target means, as far as the target knows. */
  predicate SamePayment(target: Target, p: Provider) {
    && (Known(target.gatewayPaymentId) ==> target.gatewayPaymentId.value == p.gatewayPaymentId)
    && (ExpectedId(target).Some? ==> ExpectedId(target).value == p.gatewayPaymentId)
  }

  /** The first decisive lookup step found `p` and nothing else. */
  ghost predicate SoleMatch(target: Target, port: Port, p: Provider) {
    var steps := Runnable(target, port);
    var i := FirstDecisive(steps);
    i < |steps| && steps[i].answer == Found([p])
  }

  lemma ExposedResult(target: Target, port: Port, p: Provider)
    requires SoleMatch(target, port, p) && !Foreign(target, p)
    ensures Resolved(target, port) == FinalizeWithExpected(target, p)
  {
    RunnableNeedsAKey(target, port);
  }

  lemma ActsOnTheExposedProvider(result: Result, target: Target)
    ensures var d := Decide(result, target);
      d.UpdateLocalToPaid? || d.UpdateLocalToFailed? || d.MarkConsistent? ==>
        Exposes(result) && d.provider == result.provider
  {
  }

  lemma OnlyExposedPaymentsAreActedOn(target: Target, port: Port)
    requires var d := Decision(target, port); d.UpdateLocalToPaid? || d.UpdateLocalToFailed? || d.MarkConsistent?
    ensures var p := Decision(target, port).provider; SoleMatch(target, port, p) && !Foreign(target, p)
  {
    var result := Resolved(target, port);
    ActsOnTheExposedProvider(result, target);
    ExposesOnlyTheSoleMatch(target, port, result.provider);
  }

  /**
   * When the application is told to mark a payment paid, over every target and every lookup behaviour: exactly when the
   * lookup found one payment, it is the target's, the local status is absent or still settling, the provider is
   * cleanly paid, and every expected money field agrees.
   */
  lemma PaidIsDecidedExactly(target: Target, port: Port, p: Provider)
    ensures Decision(target, port) == UpdateLocalToPaid(p) <==>
      && SoleMatch(target, port, p) && SamePayment(target, p)
      && StillOpen(target.expected) && CleanlyPaid(p) && MoneyAndIdAgree(target.expected, p)
  {
    if SoleMatch(target, port, p) && !Foreign(target, p) {
      ExposedResult(target, port, p);
      ComparisonIsExact(target.expected, p);
    } else if Decision(target, port) == UpdateLocalToPaid(p) {
      OnlyExposedPaymentsAreActedOn(target, port);
    }
  }

  /** When it is told to mark a payment failed: likewise, with no captured or refunded money shown. */
  lemma FailedIsDecidedExactly(target: Target, port: Port, p: Provider)
    ensures Decision(target, port) == UpdateLocalToFailed(p) <==>
      && SoleMatch(target, port, p) && SamePayment(target, p)
      && StillOpen(target.expected) && CleanlyFailed(p) && MoneyAndIdAgree(target.expected, p)
  {
    if SoleMatch(target, port, p) && !Foreign(target, p) {
      ExposedResult(target, port, p);
      ComparisonIsExact(target.expected, p);
    } else if Decision(target, port) == UpdateLocalToFailed(p) {
      OnlyExposedPaymentsAreActedOn(target, port);
    }
  }

  /**
   * When nothing is to be done: the sole match is the target's payment and every known field agrees; an open local
   * status additionally needs a provider status that is neither paid, failed nor open, and a settled one needs clean
   * paid totals and no money movement its own totals leave out.
   */
  lemma ConsistencyIsDecidedExactly(target: Target, port: Port, p: Provider)
    ensures Decision(target, port) == MarkConsistent(p) <==>
      && SoleMatch(target, port, p) && SamePayment(target, p)
      && StatusAgrees(target.expected, p) && MoneyAndIdAgree(target.expected, p)
      && if StillOpen(target.expected) then p.status != Paid && !Unfinished(p.status) && !HasFailed(p.status)
         else (p.status == Paid ==> CleanlyPaid(p)) && !LeavesOut(target.expected.value, p)
  {
    if SoleMatch(target, port, p) && !Foreign(target, p) {
      ExposedResult(target, port, p);
      ComparisonIsExact(target.expected, p);
    } else if Decision(target, port) == MarkConsistent(p) {
      OnlyExposedPaymentsAreActedOn(target, port);
    }
  }

  /**
   * The comparison never reports a zero capture on a settling payment, so the policy's branch for it cannot be reached.
   */
  lemma SettlingZeroCaptureNeverDrifts(local: Option<Local>, p: Provider)
    ensures !InFlightZeroCaptureOnly(local, p, CompareSnapshots(local, p))
  {
    if local.Some? && IsIndeterminate(local) && local.value.capturedAmount.None? && IsSettling(p.status) {
      var l := local.value;
      var d := CompareSnapshots(local, p);
      forall i | 0 <= i < |d| && d[i].CapturedDiffers? ensures !SettlingDifference(d[i], p) {
        assert d[i] in CapturedPart(l, p);
      }
    }
  }

  lemma StillOpenMeansIndeterminate(expected: Option<Local>)
    ensures StillOpen(expected) <==> IsIndeterminate(expected)
  {
  }

  lemma AgreementWaitsIff(p: Provider, target: Target)
    ensures DecideConsistent(p, target).RetryLater? <==>
      StillOpen(target.expected) && p.status in {Pending, Processing}
  {
    StillOpenMeansIndeterminate(target.expected);
    if p.status in {Pending, Processing} {
      assert IsSettling(p.status) && !IsPaidLike(p.status) && !IsDefinitiveFailure(p.status);
    } else {
      assert !IsSettling(p.status);
    }
  }

  lemma DriftWaitsNever(p: Provider, differences: seq<Difference>, target: Target)
    requires !InFlightZeroCaptureOnly(target.expected, p, differences)
    ensures var d := DecideDrift(p, differences, target);
      d.UpdateLocalToPaid? || d.UpdateLocalToFailed? || d == ApplyDriftReview(differences, p)
  {
  }

  lemma WaitingByResult(result: Result, target: Target)
    requires result.DriftDetected? ==> !InFlightZeroCaptureOnly(target.expected, result.provider, result.differences)
    ensures Decide(result, target).RetryLater? <==>
      || result.TemporarilyUnavailable?
      || (result.Consistent? && StillOpen(target.expected) && result.provider.status in {Pending, Processing})
    ensures result.DriftDetected? ==>
      var d := Decide(result, target);
      d.UpdateLocalToPaid? || d.UpdateLocalToFailed? || d == ApplyDriftReview(result.differences, result.provider)
  {
    if result.Consistent? {
      AgreementWaitsIff(result.provider, target);
    } else if result.DriftDetected? {
      DriftWaitsNever(result.provider, result.differences, target);
    }
  }

  /**
   * Waiting is decided exactly when the provider could not be asked, or agrees with an open local status while still
   * settling; any drift that is not a safe update goes to review with the whole comparison.
   */
  lemma WaitingIsDecidedExactly(target: Target, port: Port)
    ensures
      var result := Resolved(target, port);
      && (Decision(target, port).RetryLater? <==>
            || result.TemporarilyUnavailable?
            || (result.Consistent? && StillOpen(target.expected) && result.provider.status in {Pending, Processing}))
      && (result.DriftDetected? ==>
            var d := Decision(target, port);
            || d.UpdateLocalToPaid? || d.UpdateLocalToFailed?
            || d == ApplyDriftReview(CompareSnapshots(target.expected, result.provider), result.provider))
  {
    var result := Resolved(target, port);
    if Exposes(result) {
      ExposesOnlyTheSoleMatch(target, port, result.provider);
      ExposedResult(target, port, result.provider);
      SettlingZeroCaptureNeverDrifts(target.expected, result.provider);
    }
    WaitingByResult(result, target);
  }

  /** A settled local status is never turned into another one. */
  lemma DeterminateLocalsAreNeverUpdated(result: Result, target: Target)
    requires !StillOpen(target.expected)
    ensures !Decide(result, target).UpdateLocalToPaid? && !Decide(result, target).UpdateLocalToFailed?
  {
  }

  // ---------------------------------------------------------------- every decision

  /** What is decided when every known field agrees. */
  function AgreedDecision(target: Target, p: Provider): Policy.Decision {
    var open := StillOpen(target.expected);
    if p.status == Paid then
      if Moved(p.refundedAmount) then SendToReview(PaidWithRefunds)
      else if CaptureIsOff(p) then SendToReview(PaidWithCaptureMismatch)
      else if open then UpdateLocalToPaid(p)
      else if LeavesOut(target.expected.value, p) then SendToReview(UnaccountedTotals)
      else MarkConsistent(p)
    else if open then
      if HasFailed(p.status) then
        if Moved(p.capturedAmount) || Moved(p.refundedAmount) then SendToReview(FailedWithMovedFunds)
        else UpdateLocalToFailed(p)
      else if p.status in {Pending, Processing} then RetryLater(None)
      else if Unfinished(p.status) then SendToReview(OpenProviderMoney)
      else MarkConsistent(p)
    else if LeavesOut(target.expected.value, p) then SendToReview(UnaccountedTotals)
    else MarkConsistent(p)
  }

  /** What is decided when something differs: only a lone difference in status can be acted on. */
  function DriftDecision(target: Target, p: Provider, differences: seq<Difference>): Policy.Decision {
    if |differences| != 1 || !differences[0].StatusDiffers? || !StillOpen(target.expected) then
      ApplyDriftReview(differences, p)
    else if CleanlyPaid(p) then UpdateLocalToPaid(p)
    else if CleanlyFailed(p) then UpdateLocalToFailed(p)
    else ApplyDriftReview(differences, p)
  }

  /** What is decided for each result of a lookup. */
  function DecisionFor(target: Target, result: Result): Policy.Decision {
    match result
    case Consistent(p) => AgreedDecision(target, p)
    case DriftDetected(p, differences) => DriftDecision(target, p, differences)
    case ProviderNotFound(_) => DoNotCreateReplacement(PaymentNotFound)
    case TemporarilyUnavailable(retryAfterMs) => RetryLater(retryAfterMs)
    case AmbiguousMatch(_) => SendToReview(Ambiguous)
    case ManualReviewRequired(reason) =>
      if StillOpen(target.expected) then DoNotCreateReplacement(Review(reason)) else SendToReview(Review(reason))
  }

  lemma AgreementMeans(target: Target, p: Provider)
    requires FinalizeWithExpected(target, p) == Consistent(p)
    ensures StatusAgrees(target.expected, p) && MoneyAndIdAgree(target.expected, p) && IdentityBound(target, p)
  {
    ComparisonIsExact(target.expected, p);
  }

  lemma OpenAgreementIsDecided(target: Target, p: Provider)
    requires StillOpen(target.expected)
    requires StatusAgrees(target.expected, p) && MoneyAndIdAgree(target.expected, p) && IdentityBound(target, p)
    ensures DecideConsistent(p, target) == AgreedDecision(target, p)
  {
  }

  lemma SettledAgreementIsDecided(target: Target, p: Provider)
    requires !StillOpen(target.expected)
    requires StatusAgrees(target.expected, p) && MoneyAndIdAgree(target.expected, p) && IdentityBound(target, p)
    ensures DecideConsistent(p, target) == AgreedDecision(target, p)
  {
  }

  lemma AgreedIsDecided(target: Target, p: Provider)
    requires FinalizeWithExpected(target, p) == Consistent(p)
    ensures DecideConsistent(p, target) == AgreedDecision(target, p)
  {
    AgreementMeans(target, p);
    if StillOpen(target.expected) {
      OpenAgreementIsDecided(target, p);
    } else {
      SettledAgreementIsDecided(target, p);
    }
  }

  lemma DriftIsDecided(target: Target, p: Provider, differences: seq<Difference>)
    requires FinalizeWithExpected(target, p) == DriftDetected(p, differences)
    ensures DecideDrift(p, differences, target) == DriftDecision(target, p, differences)
  {
    ComparisonIsExact(target.expected, p);
    SettlingZeroCaptureNeverDrifts(target.expected, p);
  }

  lemma ExposedIsDecided(target: Target, result: Result)
    requires Exposes(result) && result == FinalizeWithExpected(target, result.provider)
    ensures Decide(result, target) == DecisionFor(target, result)
  {
    if result.Consistent? {
      AgreedIsDecided(target, result.provider);
    } else {
      DriftIsDecided(target, result.provider, result.differences);
    }
  }

  lemma OthersAreDecided(target: Target, result: Result)
    requires !Exposes(result) && (result.ProviderNotFound? ==> result.retryable)
    ensures Decide(result, target) == DecisionFor(target, result)
  {
  }

  /** Every decision, for every target and every behaviour of the lookup. */
  lemma EveryDecision(target: Target, port: Port)
    ensures Decision(target, port) == DecisionFor(target, Resolved(target, port))
  {
    var result := Resolved(target, port);
    if Exposes(result) {
      ExposesOnlyTheSoleMatch(target, port, result.provider);
      ExposedResult(target, port, result.provider);
      ExposedIsDecided(target, result);
    } else {
      OthersAreDecided(target, result);
    }
  }

  // ---------------------------------------------------------------- convergence

  /** The target after the application copied the provider's status. */
  function WithStatus(target: Target, status: Status): Target {
    var l := if target.expected.Some? then target.expected.value else Local(None, None, None, None, None);
    target.(expected := Some(l.(status := Some(status))))
  }

  /** After a paid update, reconciling the same snapshot again finds nothing left to do. */
  lemma PaidUpdateConverges(target: Target, port: Port)
    requires Decision(target, port).UpdateLocalToPaid?
    ensures
      var p := Decision(target, port).provider;
      var next := WithStatus(target, p.status);
      Decide(FinalizeWithExpected(next, p), next) == MarkConsistent(p)
  {
    var p := Decision(target, port).provider;
    PaidIsDecidedExactly(target, port, p);
    ComparisonIsExact(WithStatus(target, p.status).expected, p);
  }

  /**
   * A raw hold status hid a capture total that the expected charge does not match: without a local status the
   * comparison took it for an authorization hold.
   */
  predicate HoldHidesCapture(target: Target, p: Provider) {
    && target.expected.Some?
    && var l := target.expected.value;
      && l.status.None? && p.providerStatus in {Authorized, Approved, RequiresCapture}
      && l.capturedAmount.None? && l.amount.Some? && p.capturedAmount.Some?
      && l.amount.value != p.capturedAmount.value
  }

  lemma RecordedFailureAgreesIff(target: Target, p: Provider)
    requires StillOpen(target.expected) && CleanlyFailed(p) && MoneyAndIdAgree(target.expected, p)
    ensures MoneyAndIdAgree(WithStatus(target, p.status).expected, p) <==> !HoldHidesCapture(target, p)
  {
  }

  lemma RecordedFailureIsConsistentIff(next: Target, p: Provider)
    requires CleanlyFailed(p) && !Foreign(next, p)
    requires next.expected.Some? && next.expected.value.status == Some(p.status)
    ensures Decide(FinalizeWithExpected(next, p), next) == MarkConsistent(p) <==> MoneyAndIdAgree(next.expected, p)
  {
    ComparisonIsExact(next.expected, p);
  }

  /** A failed update converges in one step exactly when no raw hold status hid a capture total. */
  lemma FailedUpdateConvergesIff(target: Target, port: Port)
    requires Decision(target, port).UpdateLocalToFailed?
    ensures
      var p := Decision(target, port).provider;
      var next := WithStatus(target, p.status);
      Decide(FinalizeWithExpected(next, p), next) == MarkConsistent(p) <==> !HoldHidesCapture(target, p)
  {
    var p := Decision(target, port).provider;
    FailedIsDecidedExactly(target, port, p);
    RecordedFailureAgreesIff(target, p);
    RecordedFailureIsConsistentIff(WithStatus(target, p.status), p);
  }

  /** A failed payment still carrying a raw authorization status is reported as drift once its failure is recorded. */
  lemma FailedUpdateNeedNotConverge() returns (target: Target, port: Port)
    ensures Decision(target, port).UpdateLocalToFailed?
    ensures
      var p := Decision(target, port).provider;
      var next := WithStatus(target, p.status);
      Decide(FinalizeWithExpected(next, p), next).ApplyDriftReview?
  {
    var tenDollars, nothing := Money(Minor(1000), "USD"), Money(Minor(0), "USD");
    var p := Provider("pi_1", Failed, tenDollars, Some(nothing), None, RequiresCapture);
    target := Target(Some("pi_1"), None, None, None, Some(Local(None, Some(tenDollars), None, None, None)));
    port := Port(Some(Found([p])), None, None, None);
    assert Runnable(target, port) == [LookupStep(true, Found([p]))];
    assert FirstDecisive(Runnable(target, port)) == 0;
    FailedIsDecidedExactly(target, port, p);
    FailedUpdateConvergesIff(target, port);
    var next := WithStatus(target, p.status);
    ComparisonIsExact(next.expected, p);
  }

  // ---------------------------------------------------------------- replacement charges

  /**
   * The replacement guard agrees with the decision: it forbids a second charge under every decision that changes or
   * waits for the payment, and lets one through only against a settled local status and a provider that holds nothing.
   */
  lemma ReplacementGuardFollowsTheDecision(result: Result, target: Target)
    ensures
      var d := Decide(result, target);
      d.UpdateLocalToPaid? || d.UpdateLocalToFailed? || d.RetryLater? || d.DoNotCreateReplacement? ==>
        ShouldForbidReplacementCharge(result, target)
    ensures !ShouldForbidReplacementCharge(result, target) ==>
      && Exposes(result) && result.provider.status != Paid && !Unfinished(result.provider.status)
      && (HasFailed(result.provider.status) ==> CleanlyFailed(result.provider))
      && target.expected.Some? && target.expected.value.status.Some?
      && target.expected.value.status.value != Paid && !Unfinished(target.expected.value.status.value)
      && (Decide(result, target).MarkConsistent? || Decide(result, target).ApplyDriftReview?)
  {
  }

  /** A second charge is let through exactly when a payment was found and neither side holds or may hold money. */
  lemma ReplacementAllowedIff(result: Result, target: Target)
    ensures !ShouldForbidReplacementCharge(result, target) <==>
      && Exposes(result) && result.provider.status != Paid && !Unfinished(result.provider.status)
      && (HasFailed(result.provider.status) ==> !Moved(result.provider.capturedAmount))
      && (HasFailed(result.provider.status) ==> !Moved(result.provider.refundedAmount))
      && target.expected.Some? && target.expected.value.status.Some?
      && target.expected.value.status.value != Paid && !Unfinished(target.expected.value.status.value)
  {
  }

  lemma CleanFailureAllowsReplacement(result: Result, target: Target)
    requires Exposes(result) && CleanlyFailed(result.provider)
    requires target.expected.Some? && target.expected.value.status == Some(result.provider.status)
    ensures !ShouldForbidReplacementCharge(result, target)
  {
  }

  /**
   * A second charge is forbidden before a decided update is recorded.  Once it is, the same snapshot allows one exactly
   * after a failure, and after a payment no later result ever does.
   */
  lemma RecordedOutcomeSettlesReplacement(target: Target, port: Port)
    requires Decision(target, port).UpdateLocalToFailed? || Decision(target, port).UpdateLocalToPaid?
    ensures
      var p := Decision(target, port).provider;
      var next := WithStatus(target, p.status);
      && ShouldForbidReplacementCharge(Resolved(target, port), target)
      && (ShouldForbidReplacementCharge(FinalizeWithExpected(next, p), next) <==>
            Decision(target, port).UpdateLocalToPaid?)
      && (Decision(target, port).UpdateLocalToPaid? ==>
            forall result :: ShouldForbidReplacementCharge(result, next))
  {
    var p := Decision(target, port).provider;
    var next := WithStatus(target, p.status);
    ReplacementGuardFollowsTheDecision(Resolved(target, port), target);
    if Decision(target, port).UpdateLocalToFailed? {
      FailedIsDecidedExactly(target, port, p);
      CleanFailureAllowsReplacement(FinalizeWithExpected(next, p), next);
    } else {
      PaidIsDecidedExactly(target, port, p);
    }
  }
}
