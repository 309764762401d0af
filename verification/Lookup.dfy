/**
 * Safe ordered lookup: try the target's keys in order, never pick among several matches, never expose a foreign
 * payment.
 */
module Lookup {
  import opened Wrappers
  import opened Snapshots
  import opened Compare

  datatype LookupOutcome =
    | Found(snapshots: seq<Provider>)
    | NotFound
    | Unavailable(retryAfterMs: Option<int>)
    | Error(retryable: bool)
    | Throws

  /** What each lookup method would answer for the target's key; `None` means the method is not implemented. */
  datatype Port = Port(
    byPaymentId: Option<LookupOutcome>,
    byIdempotencyKey: Option<LookupOutcome>,
    byLocalReference: Option<LookupOutcome>,
    byProviderRequestId: Option<LookupOutcome>)

  /** A runnable step: its key is present and its method exists.  `primary` marks the payment-id step. */
  datatype LookupStep = LookupStep(primary: bool, answer: LookupOutcome)

  function StepFor(key: Option<string>, answer: Option<LookupOutcome>, primary: bool): seq<LookupStep> {
    if Known(key) && answer.Some? then [LookupStep(primary, answer.value)] else []
  }

  predicate AnyKey(target: Target) {
    Known(target.gatewayPaymentId) || Known(target.idempotencyKey) || Known(target.localReference)
    || Known(target.providerRequestId)
  }

  function Runnable(target: Target, port: Port): seq<LookupStep> {
    StepFor(target.gatewayPaymentId, port.byPaymentId, true)
    + StepFor(target.idempotencyKey, port.byIdempotencyKey, false)
    + StepFor(target.localReference, port.byLocalReference, false)
    + StepFor(target.providerRequestId, port.byProviderRequestId, false)
  }

  predicate Foreign(target: Target, provider: Provider) {
    Known(target.gatewayPaymentId) && target.gatewayPaymentId.value != provider.gatewayPaymentId
  }

  function FinalizeWithExpected(target: Target, provider: Provider): Result {
    var differences := CompareSnapshots(target.expected, provider);
    if Foreign(target, provider) then ManualReviewRequired(ForeignPayment)
    else if differences == [] then Consistent(provider)
    else DriftDetected(provider, differences)
  }

  // ---------------------------------------------------------------- what a lookup should return

  /** The step found nothing, so the next one is tried. */
  predicate Misses(step: LookupStep) {
    || step.answer.NotFound?
    || (step.answer.Found? && step.answer.snapshots == [])
    || (step.answer.Error? && !step.answer.retryable)
  }

  /** A definite miss of the payment id itself, as opposed to a key the method could not parse. */
  predicate PrimaryMiss(step: LookupStep) {
    step.primary && (step.answer.NotFound? || (step.answer.Found? && step.answer.snapshots == []))
  }

  /** The first step that does not miss. */
  function FirstDecisive(steps: seq<LookupStep>): (i: nat)
    ensures i <= |steps|
    ensures forall j :: 0 <= j < i ==> Misses(steps[j])
    ensures i < |steps| ==> !Misses(steps[i])
  {
    if steps == [] || !Misses(steps[0]) then 0 else 1 + FirstDecisive(steps[1..])
  }

  /** The verdict of the first decisive step. */
  function Verdict(target: Target, step: LookupStep, primaryMissed: bool): Result
    requires !Misses(step)
  {
    match step.answer
    case Found(snapshots) =>
      if |snapshots| > 1 then AmbiguousMatch(snapshots)
      else if primaryMissed && Foreign(target, snapshots[0]) then ManualReviewRequired(ForeignAfterPrimaryMiss)
      else FinalizeWithExpected(target, snapshots[0])
    case Unavailable(retryAfterMs) => TemporarilyUnavailable(retryAfterMs)
    case Error(_) => TemporarilyUnavailable(None)
    case Throws => TemporarilyUnavailable(None)
    case NotFound => ProviderNotFound(true)
  }

  ghost predicate PrimaryMissedBefore(steps: seq<LookupStep>, i: nat)
    requires i <= |steps|
  {
    exists j :: 0 <= j < i && PrimaryMiss(steps[j])
  }

  ghost function Resolved(target: Target, port: Port): Result {
    var steps := Runnable(target, port);
    var i := FirstDecisive(steps);
    if !AnyKey(target) then ManualReviewRequired(NoKeys)
    else if steps == [] then ManualReviewRequired(NoMethods)
    else if i == |steps| then ProviderNotFound(true)
    else Verdict(target, steps[i], PrimaryMissedBefore(steps, i))
  }

  /** The lookup loop: one pass over the runnable steps, remembering a definite miss of the payment id. */
  method ResolveProviderSnapshot(target: Target, port: Port) returns (result: Result)
    ensures result == Resolved(target, port)
  {
    if !AnyKey(target) {
      return ManualReviewRequired(NoKeys);
    }
    var runnable := Runnable(target, port);
    if |runnable| == 0 {
      return ManualReviewRequired(NoMethods);
    }
    var primaryPaymentIdNotFound := false;
    for i := 0 to |runnable|
      invariant forall j :: 0 <= j < i ==> Misses(runnable[j])
      invariant primaryPaymentIdNotFound <==> PrimaryMissedBefore(runnable, i)
    {
      var step := runnable[i];
      assert !Misses(step) ==> FirstDecisive(runnable) == i;
      match step.answer {
        case Throws => return TemporarilyUnavailable(None);
        case Found(snapshots) =>
          if |snapshots| == 0 {
            if step.primary {
              primaryPaymentIdNotFound := true;
            }
          } else if |snapshots| > 1 {
            return AmbiguousMatch(snapshots);
          } else {
            var provider := snapshots[0];
            if primaryPaymentIdNotFound && Foreign(target, provider) {
              return ManualReviewRequired(ForeignAfterPrimaryMiss);
            }
            return FinalizeWithExpected(target, provider);
          }
        case NotFound =>
          if step.primary {
            primaryPaymentIdNotFound := true;
          }
        case Unavailable(retryAfterMs) => return TemporarilyUnavailable(retryAfterMs);
        case Error(retryable) =>
          if retryable {
            return TemporarilyUnavailable(None);
          }
      }
    }
    return ProviderNotFound(true);
  }

  // ---------------------------------------------------------------- safety of the lookup

  /** A snapshot exposed to the application. */
  predicate Exposes(result: Result) {
    result.Consistent? || result.DriftDetected?
  }

  /**
   * A lookup exposes a payment exactly when the first step that did not miss found that payment alone and it is not
   * known to be another one.
   */
  lemma ExposesOnlyTheSoleMatch(target: Target, port: Port, p: Provider)
    ensures
      var steps := Runnable(target, port);
      var i := FirstDecisive(steps);
      Exposes(Resolved(target, port)) && Resolved(target, port).provider == p <==>
        i < |steps| && steps[i].answer == Found([p]) && !Foreign(target, p)
  {
    RunnableNeedsAKey(target, port);
    var steps := Runnable(target, port);
    var i := FirstDecisive(steps);
    if i < |steps| && steps[i].answer.Found? && |steps[i].answer.snapshots| == 1 {
      assert steps[i].answer.snapshots == [steps[i].answer.snapshots[0]];
    }
  }

  lemma RunnableNeedsAKey(target: Target, port: Port)
    ensures Runnable(target, port) != [] ==> AnyKey(target)
  {
  }

  /** A payment is never exposed under a payment id the target does not have. */
  lemma NeverExposesAForeignPayment(target: Target, port: Port)
    requires Exposes(Resolved(target, port)) && Known(target.gatewayPaymentId)
    ensures Resolved(target, port).provider.gatewayPaymentId == target.gatewayPaymentId.value
  {
    ExposesOnlyTheSoleMatch(target, port, Resolved(target, port).provider);
  }

  /** Several matches are reported whole. */
  lemma SeveralMatchesStayAmbiguous(target: Target, port: Port)
    ensures
      var steps := Runnable(target, port);
      var i := FirstDecisive(steps);
      Resolved(target, port).AmbiguousMatch? <==>
        i < |steps| && steps[i].answer.Found? && |steps[i].answer.snapshots| > 1
    ensures Resolved(target, port).AmbiguousMatch? ==>
      var steps := Runnable(target, port);
      steps[FirstDecisive(steps)].answer.snapshots == Resolved(target, port).matches
  {
    RunnableNeedsAKey(target, port);
  }

  /** "Not found" means that every method that could be asked found nothing or could not use its key. */
  lemma NotFoundMeansEveryStepMissed(target: Target, port: Port)
    ensures
      var steps := Runnable(target, port);
      Resolved(target, port).ProviderNotFound? <==> steps != [] && forall i :: 0 <= i < |steps| ==> Misses(steps[i])
  {
    RunnableNeedsAKey(target, port);
  }

  /**
   * The provider counts as unavailable exactly when the first step that did not miss failed, threw or was unavailable.
   */
  lemma UnavailableMeansTheDecisiveStepFailed(target: Target, port: Port)
    ensures
      var steps := Runnable(target, port);
      var i := FirstDecisive(steps);
      Resolved(target, port).TemporarilyUnavailable? <==>
        i < |steps| && (steps[i].answer.Unavailable? || steps[i].answer.Throws? || steps[i].answer.Error?)
  {
    RunnableNeedsAKey(target, port);
  }

  // ---------------------------------------------------------------- the order of the lookup

  /** The method for this key was asked: the key is there and not empty, and the method exists. */
  predicate Asked(key: Option<string>, answer: Option<LookupOutcome>) {
    key.Some? && key.value != "" && answer.Some?
  }

  /** The answer ends the lookup. */
  predicate Decisive(answer: LookupOutcome) {
    match answer
    case Found(snapshots) => |snapshots| > 0
    case NotFound => false
    case Unavailable(_) => true
    case Error(retryable) => retryable
    case Throws => true
  }

  predicate Settles(key: Option<string>, answer: Option<LookupOutcome>) {
    Asked(key, answer) && Decisive(answer.value)
  }

  /** The payment id was asked for, and the provider does not have it. */
  predicate IdIsUnknown(target: Target, port: Port) {
    Asked(target.gatewayPaymentId, port.byPaymentId) && port.byPaymentId.value in {NotFound, Found([])}
  }

  /** What is reported for one found payment. */
  predicate ReportsPayment(target: Target, p: Provider, idUnknown: bool, result: Result) {
    if target.gatewayPaymentId.Some? && target.gatewayPaymentId.value != ""
      && target.gatewayPaymentId.value != p.gatewayPaymentId
    then result == ManualReviewRequired(if idUnknown then ForeignAfterPrimaryMiss else ForeignPayment)
    else if CompareSnapshots(target.expected, p) == [] then result == Consistent(p)
    else result == DriftDetected(p, CompareSnapshots(target.expected, p))
  }

  /** What is reported for the answer that ended the lookup. */
  predicate Reports(target: Target, answer: LookupOutcome, idUnknown: bool, result: Result) {
    match answer
    case Found(snapshots) =>
      if |snapshots| == 1 then ReportsPayment(target, snapshots[0], idUnknown, result)
      else result == AmbiguousMatch(snapshots)
    case Unavailable(retryAfterMs) => result == TemporarilyUnavailable(retryAfterMs)
    case _ => result == TemporarilyUnavailable(None)
  }

  predicate NoKey(target: Target) {
    target.gatewayPaymentId in {None, Some("")} && target.idempotencyKey in {None, Some("")}
    && target.localReference in {None, Some("")} && target.providerRequestId in {None, Some("")}
  }

  predicate NothingAsked(target: Target, port: Port) {
    !Asked(target.gatewayPaymentId, port.byPaymentId) && !Asked(target.idempotencyKey, port.byIdempotencyKey)
    && !Asked(target.localReference, port.byLocalReference)
    && !Asked(target.providerRequestId, port.byProviderRequestId)
  }

  /** The payment id first, then the idempotency key, the local reference and the provider's request id. */
  predicate InOrder(target: Target, port: Port, result: Result) {
    var unknown := IdIsUnknown(target, port);
    if Settles(target.gatewayPaymentId, port.byPaymentId) then
      Reports(target, port.byPaymentId.value, false, result)
    else if Settles(target.idempotencyKey, port.byIdempotencyKey) then
      Reports(target, port.byIdempotencyKey.value, unknown, result)
    else if Settles(target.localReference, port.byLocalReference) then
      Reports(target, port.byLocalReference.value, unknown, result)
    else if Settles(target.providerRequestId, port.byProviderRequestId) then
      Reports(target, port.byProviderRequestId.value, unknown, result)
    else if NoKey(target) then result == ManualReviewRequired(NoKeys)
    else if NothingAsked(target, port) then result == ManualReviewRequired(NoMethods)
    else result == ProviderNotFound(true)
  }

  lemma {:induction false} FirstDecisiveInRest(first: seq<LookupStep>, rest: seq<LookupStep>)
    requires forall i :: 0 <= i < |first| ==> Misses(first[i])
    ensures FirstDecisive(first + rest) == |first| + FirstDecisive(rest)
    decreases |first|
  {
    if first == [] {
      assert first + rest == rest;
    } else {
      FirstDecisiveInRest(first[1..], rest);
      assert (first + rest)[1..] == first[1..] + rest && (first + rest)[0] == first[0];
    }
  }

  /** One key's place in the order: it settles the lookup, or the rest decides. */
  lemma StepSettlesOrPasses(key: Option<string>, answer: Option<LookupOutcome>, primary: bool, rest: seq<LookupStep>)
    ensures var step := StepFor(key, answer, primary);
      && (Settles(key, answer) ==> FirstDecisive(step + rest) == 0 && (step + rest)[0].answer == answer.value)
      && (!Settles(key, answer) ==> FirstDecisive(step + rest) == |step| + FirstDecisive(rest))
  {
    var step := StepFor(key, answer, primary);
    if !Settles(key, answer) {
      FirstDecisiveInRest(step, rest);
    }
  }

  lemma VerdictReports(target: Target, step: LookupStep, missed: bool)
    requires !Misses(step)
    ensures Reports(target, step.answer, missed, Verdict(target, step, missed))
  {
  }

  /** Only the payment-id step, if there is one, can have missed as such. */
  lemma OnlyTheFirstIsPrimary(first: seq<LookupStep>, rest: seq<LookupStep>, i: nat)
    requires |first| <= i <= |first| + |rest| && |first| <= 1
    requires forall j :: 0 <= j < |rest| ==> !rest[j].primary
    ensures PrimaryMissedBefore(first + rest, i) <==> |first| == 1 && PrimaryMiss(first[0])
  {
    if |first| == 1 && PrimaryMiss(first[0]) {
      assert PrimaryMiss((first + rest)[0]);
    }
  }

  /** The first decisive step gives this answer, or there is none. */
  ghost predicate LeadsTo(steps: seq<LookupStep>, answer: Option<LookupOutcome>) {
    var i := FirstDecisive(steps);
    if answer.None? then i == |steps| else i < |steps| && steps[i].answer == answer.value
  }

  lemma KeyBefore(
    key: Option<string>, answer: Option<LookupOutcome>, primary: bool, rest: seq<LookupStep>,
    otherwise: Option<LookupOutcome>)
    requires LeadsTo(rest, otherwise)
    ensures LeadsTo(StepFor(key, answer, primary) + rest, if Settles(key, answer) then answer else otherwise)
  {
    StepSettlesOrPasses(key, answer, primary, rest);
  }

  /** The answer that ends the lookup. */
  function EndingAnswer(target: Target, port: Port): Option<LookupOutcome> {
    if Settles(target.gatewayPaymentId, port.byPaymentId) then port.byPaymentId
    else if Settles(target.idempotencyKey, port.byIdempotencyKey) then port.byIdempotencyKey
    else if Settles(target.localReference, port.byLocalReference) then port.byLocalReference
    else if Settles(target.providerRequestId, port.byProviderRequestId) then port.byProviderRequestId
    else None
  }

  lemma RunnableLeadsTo(target: Target, port: Port, steps: seq<LookupStep>)
    requires steps == Runnable(target, port)
    ensures LeadsTo(steps, EndingAnswer(target, port))
  {
    var a := StepFor(target.gatewayPaymentId, port.byPaymentId, true);
    var b := StepFor(target.idempotencyKey, port.byIdempotencyKey, false);
    var c := StepFor(target.localReference, port.byLocalReference, false);
    var d := StepFor(target.providerRequestId, port.byProviderRequestId, false);
    assert d + [] == d && steps == a + (b + (c + d));
    KeyBefore(target.providerRequestId, port.byProviderRequestId, false, [], None);
    KeyBefore(target.localReference, port.byLocalReference, false, d,
      if Settles(target.providerRequestId, port.byProviderRequestId) then port.byProviderRequestId else None);
    KeyBefore(target.idempotencyKey, port.byIdempotencyKey, false, c + d,
      if Settles(target.localReference, port.byLocalReference) then port.byLocalReference
      else if Settles(target.providerRequestId, port.byProviderRequestId) then port.byProviderRequestId
      else None);
    KeyBefore(target.gatewayPaymentId, port.byPaymentId, true, b + (c + d),
      if Settles(target.idempotencyKey, port.byIdempotencyKey) then port.byIdempotencyKey
      else if Settles(target.localReference, port.byLocalReference) then port.byLocalReference
      else if Settles(target.providerRequestId, port.byProviderRequestId) then port.byProviderRequestId
      else None);
  }

  lemma PrimaryMissedIff(target: Target, port: Port, steps: seq<LookupStep>, i: nat)
    requires steps == Runnable(target, port) && i == FirstDecisive(steps)
    ensures PrimaryMissedBefore(steps, i) <==>
      IdIsUnknown(target, port) && !Settles(target.gatewayPaymentId, port.byPaymentId)
  {
    var a := StepFor(target.gatewayPaymentId, port.byPaymentId, true);
    var b := StepFor(target.idempotencyKey, port.byIdempotencyKey, false);
    var c := StepFor(target.localReference, port.byLocalReference, false);
    var d := StepFor(target.providerRequestId, port.byProviderRequestId, false);
    var rest := b + c + d;
    assert steps == a + rest && forall j :: 0 <= j < |rest| ==> !rest[j].primary;
    StepSettlesOrPasses(target.gatewayPaymentId, port.byPaymentId, true, rest);
    if !Settles(target.gatewayPaymentId, port.byPaymentId) {
      OnlyTheFirstIsPrimary(a, rest, i);
    }
  }

  lemma NothingToAsk(target: Target, port: Port)
    ensures !AnyKey(target) <==> NoKey(target)
    ensures Runnable(target, port) == [] <==> NothingAsked(target, port)
    ensures NoKey(target) ==> NothingAsked(target, port)
    ensures NothingAsked(target, port) ==> EndingAnswer(target, port).None?
  {
  }

  /** The order of the lookup, read off the target's keys and the methods' answers alone. */
  lemma KeysAreAskedInOrder(target: Target, port: Port)
    ensures InOrder(target, port, Resolved(target, port))
  {
    var steps := Runnable(target, port);
    var i := FirstDecisive(steps);
    var answer := EndingAnswer(target, port);
    RunnableLeadsTo(target, port, steps);
    NothingToAsk(target, port);
    if answer.Some? {
      var missed := PrimaryMissedBefore(steps, i);
      PrimaryMissedIff(target, port, steps, i);
      VerdictReports(target, steps[i], missed);
      assert Reports(target, answer.value, missed, Resolved(target, port));
    }
  }

  /** One target is reconciled by looking it up; what the port throws has become an answer by then. */
  method Reconcile(target: Target, port: Port) returns (result: Result)
    ensures result == Resolved(target, port) && InOrder(target, port, result)
  {
    result := ResolveProviderSnapshot(target, port);
    KeysAreAskedInOrder(target, port);
  }
}
