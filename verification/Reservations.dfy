/**
 * How one money-moving POST ends, as each gateway reports it to the reservation around it.
 * The submitted flag is set before the request leaves, no request is retried after a transport failure, and every
 * failure after that point is classified as either a definite answer, an indeterminate one, or a thrown error.
 */
module ProviderPost {
  datatype Gateway = Hesabe | MyFatoorah

  /** A provider answer that settles the operation.  `cacheable`: the store gives it back as this gateway's result. */
  datatype Result = Result(id: int, cacheable: bool)

  datatype Outcome = Definite(result: Result) | Indeterminate

  datatype GatewayError =
    | Network(afterProviderSubmit: bool)
    | RateLimit
    | Authentication
    | ResourceNotFound
    | InvalidRequest
    | GatewayApi
    | Aborted

  /**
   * What became of the body of an answer.  A refusal may list validation errors, and may say that the idempotency
   * header is not supported.  In an answer that is not 2xx, `Parsed` stands for any body that claims success.
   */
  datatype BodyFate = Unusable | Refused(validation: bool, headerUnsupported: bool) | Parsed(outcome: Outcome)

  /** What became of the request once it was on its way. */
  datatype PostFate = TransportFailed | BodyFailed | Answered(status: int, body: BodyFate)

  datatype Executed = Returned(outcome: Outcome) | Threw(error: GatewayError)

  function HesabeHttpFailure(status: int): GatewayError {
    if status == 429 then RateLimit
    else if status >= 500 then Network(true)
    else if status == 401 || status == 403 then Authentication
    else if status == 404 then ResourceNotFound
    else if 400 <= status < 500 then InvalidRequest
    else GatewayApi
  }

  /** Here a listed validation error makes the request invalid whatever the status, and a claimed success never does. */
  function MyFatoorahHttpFailure(status: int, body: BodyFate): GatewayError {
    if status == 429 then RateLimit
    else if status >= 500 then Network(true)
    else if status == 401 || status == 403 then Authentication
    else if status == 404 then ResourceNotFound
    else if body.Refused? && body.validation then InvalidRequest
    else if !body.Parsed? && 400 <= status < 500 then InvalidRequest
    else GatewayApi
  }

  function Post(gateway: Gateway, fate: PostFate): Executed {
    match fate
    case TransportFailed => Threw(Network(true))
    case BodyFailed => Threw(Network(true))
    case Answered(status, body) =>
      if !(200 <= status <= 299) then
        Threw(if gateway.Hesabe? then HesabeHttpFailure(status) else MyFatoorahHttpFailure(status, body))
      else match body
        case Unusable => Threw(Network(true))
        case Refused(_, _) => Threw(InvalidRequest)
        case Parsed(outcome) => Returned(outcome)
  }

  /** Hesabe turns an ambiguous failure into an indeterminate outcome; MyFatoorah's create lets it escape. */
  function Execute(gateway: Gateway, fate: PostFate): Executed {
    var r := Post(gateway, fate);
    if gateway.Hesabe? && r == Threw(Network(true)) then Returned(Indeterminate) else r
  }

  /**
   * MyFatoorah sends a request once more when the provider refused it with a complaint that the idempotency header is
   * not supported.  Behind the reservation no request carries that header: the complaint is about one it did not get.
   */
  predicate AsksForAnother(gateway: Gateway, fate: PostFate) {
    && gateway.MyFatoorah? && fate.Answered? && fate.body.Refused? && fate.body.headerUnsupported
    && Post(gateway, fate) == Threw(InvalidRequest)
  }

  // ---------------------------------------------------------------- what each answer means

  /** A 2xx answer that can be read. */
  predicate ReadableAs(fate: PostFate, outcome: Outcome) {
    fate.Answered? && 200 <= fate.status <= 299 && fate.body == Parsed(outcome)
  }

  /** The request may have been carried out: no answer, a server error, or a 2xx answer that cannot be read. */
  predicate Ambiguous(fate: PostFate) {
    match fate
    case TransportFailed => true
    case BodyFailed => true
    case Answered(status, body) => status >= 500 || (200 <= status <= 299 && body.Unusable?)
  }

  /** The provider turned the request down as invalid. */
  predicate Invalid(gateway: Gateway, fate: PostFate) {
    && fate.Answered?
    && if 200 <= fate.status <= 299 then fate.body.Refused?
       else
         && fate.status < 500 && fate.status !in {401, 403, 404, 429}
         && if gateway.Hesabe? then fate.status >= 400
            else (fate.body.Refused? && fate.body.validation) || (fate.status >= 400 && !fate.body.Parsed?)
  }

  predicate RefusedWith(gateway: Gateway, fate: PostFate, error: GatewayError) {
    && fate.Answered?
    && match error
       case RateLimit => fate.status == 429
       case Authentication => fate.status == 401 || fate.status == 403
       case ResourceNotFound => fate.status == 404
       case InvalidRequest => Invalid(gateway, fate)
       case GatewayApi =>
         && fate.status < 500 && !(200 <= fate.status <= 299) && fate.status !in {401, 403, 404, 429}
         && !Invalid(gateway, fate)
       case _ => false
  }

  /** Every fate of a request is readable, ambiguous or a refusal, and each is reported in its own way. */
  lemma FatesAreReportedExactly(gateway: Gateway, fate: PostFate)
    ensures forall outcome :: Execute(gateway, fate) == Returned(outcome) <==>
      ReadableAs(fate, outcome) || (gateway.Hesabe? && Ambiguous(fate) && outcome == Indeterminate)
    ensures forall error :: Execute(gateway, fate) == Threw(error) <==>
      RefusedWith(gateway, fate, error) || (gateway.MyFatoorah? && Ambiguous(fate) && error == Network(true))
    ensures AsksForAnother(gateway, fate) <==>
      gateway.MyFatoorah? && Invalid(gateway, fate) && fate.body.Refused? && fate.body.headerUnsupported
  {
  }
}

/**
 * The idempotency reservation protocol on one key: any number of callers, interleaved step by step, with crashes and
 * store failures anywhere.  The store's `reserve` is an atomic insert-if-absent; a store call that reports an error
 * has taken effect, never will, or takes effect at any later time.
 */
module Reservations {
  import opened Wrappers
  import opened ProviderPost

  type Fingerprint = string

  datatype RecordStatus = InProgress | Completed(result: Result) | Unknown
  datatype IdempotencyRecord = IdempotencyRecord(status: RecordStatus, fingerprint: Fingerprint)

  datatype Refusal = DifferentParams | NotCached | StillIndeterminate | AlreadyInProgress

  /** What a caller finally gets. */
  datatype Answer =
    | Settled(result: Result)
    | Uncertain
    | Rejected(refusal: Refusal)
    | StoreError
    | ExecuteError(error: GatewayError)

  /** What a store call that reported an error may still do. */
  datatype Late = LateInsert | LateDelete | LateSet(status: RecordStatus, submitted: bool)

  datatype Phase =
    | Idle
    | Working                                          // holds the reservation; nothing submitted
    | Marked(again: bool)                              // submitted flag set, a request about to be sent
    | Sent(again: bool)                                // the request has left
    | Releasing(answer: Answer)                        // never submitted; about to delete the record
    | Persisting(outcome: Outcome, submitted: bool)
    | Lingering(late: Late, answer: Answer)            // answered, but its last store call may still take effect
    | Done(answer: Answer)
    | Crashed

  datatype Caller = Caller(fingerprint: Fingerprint, phase: Phase)

  /**
   * The key's record and everybody using it.  As history: the requests sent, how many of them the provider refused
   * with a complaint about the idempotency header, and who set the submitted flag.
   */
  datatype System = System(
    gateway: Gateway,
    record: Option<IdempotencyRecord>,
    callers: seq<Caller>,
    posts: nat,
    refused: nat,
    submitter: Option<nat>)

  datatype StoreFault = NoFault | FailedBefore | FailedAfter | FailedLater

  datatype Step =
    | Reserve(c: nat, fault: StoreFault)
    | FailUnsubmitted(c: nat, error: GatewayError)
    | ReturnUnsubmitted(c: nat, outcome: Outcome)
    | Mark(c: nat)
    | Send(c: nat)
    | GiveUp(c: nat)
    | Respond(c: nat, fate: PostFate)
    | Release(c: nat, fault: StoreFault)
    | Persist(c: nat, fault: StoreFault)
    | TakeEffect(c: nat)
    | Crash(c: nat)

  function At(s: System, c: nat, phase: Phase): System
    requires c < |s.callers|
  {
    s.(callers := s.callers[c := s.callers[c].(phase := phase)])
  }

  /** The answer to a caller whose key is already reserved. */
  function ReplayAnswer(existing: IdempotencyRecord, fingerprint: Fingerprint): Answer {
    if existing.fingerprint != fingerprint then Rejected(DifferentParams)
    else match existing.status
      case Completed(result) => if result.cacheable then Settled(result) else Rejected(NotCached)
      case Unknown => Rejected(StillIndeterminate)
      case InProgress => Rejected(AlreadyInProgress)
  }

  predicate HappensNow(fault: StoreFault) {
    fault.NoFault? || fault.FailedAfter?
  }

  /** The phase after a failed store call. */
  function Failed(fault: StoreFault, late: Late, answer: Answer): Phase {
    if fault.FailedLater? then Lingering(late, answer) else Done(answer)
  }

  function Inserted(record: Option<IdempotencyRecord>, fingerprint: Fingerprint): Option<IdempotencyRecord> {
    if record.None? then Some(IdempotencyRecord(InProgress, fingerprint)) else record
  }

  function DoReserve(s: System, c: nat, fault: StoreFault): System
    requires c < |s.callers|
  {
    var fingerprint := s.callers[c].fingerprint;
    var t := if HappensNow(fault) then s.(record := Inserted(s.record, fingerprint)) else s;
    if !fault.NoFault? then At(t, c, Failed(fault, LateInsert, StoreError))
    else if s.record.Some? then At(t, c, Done(ReplayAnswer(s.record.value, fingerprint)))
    else At(t, c, Working)
  }

  /** An outcome that was never submitted is released when indeterminate and persisted otherwise. */
  function AfterExecute(outcome: Outcome, submitted: bool): Phase {
    if outcome.Indeterminate? && !submitted then Releasing(Uncertain) else Persisting(outcome, submitted)
  }

  function DoRespond(s: System, c: nat, again: bool, fate: PostFate): System
    requires c < |s.callers|
  {
    if !again && AsksForAnother(s.gateway, fate) then At(s, c, Marked(true)).(refused := s.refused + 1)
    else
      var r := Execute(s.gateway, fate);
      At(s, c, if r.Threw? then Done(ExecuteError(r.error)) else AfterExecute(r.outcome, true))
  }

  function DoRelease(s: System, c: nat, answer: Answer, fault: StoreFault): System
    requires c < |s.callers|
  {
    var t := if HappensNow(fault) then s.(record := None) else s;
    At(t, c, if fault.NoFault? then Done(answer) else Failed(fault, LateDelete, StoreError))
  }

  function Persisted(outcome: Outcome): RecordStatus {
    if outcome.Definite? then Completed(outcome.result) else Unknown
  }

  function AnswerOf(outcome: Outcome): Answer {
    if outcome.Definite? then Settled(outcome.result) else Uncertain
  }

  /** When the outcome cannot be stored, only Hesabe answers, and only after submission. */
  function UnstoredAnswer(gateway: Gateway, submitted: bool): Answer {
    if !submitted || gateway.MyFatoorah? then StoreError else Uncertain
  }

  function DoPersist(s: System, c: nat, outcome: Outcome, submitted: bool, fault: StoreFault): System
    requires c < |s.callers|
  {
    var status := Persisted(outcome);
    var t := if HappensNow(fault) then s.(record := Some(IdempotencyRecord(status, s.callers[c].fingerprint))) else s;
    At(t, c,
       if fault.NoFault? then Done(AnswerOf(outcome))
       else Failed(fault, LateSet(status, submitted), UnstoredAnswer(s.gateway, submitted)))
  }

  function DoTakeEffect(s: System, c: nat, late: Late, answer: Answer): System
    requires c < |s.callers|
  {
    var fingerprint := s.callers[c].fingerprint;
    var record := match late
      case LateInsert => Inserted(s.record, fingerprint)
      case LateDelete => None
      case LateSet(status, _) => Some(IdempotencyRecord(status, fingerprint));
    At(s.(record := record), c, Done(answer))
  }

  /** One atomic step; a step that is not enabled does nothing. */
  function Apply(s: System, step: Step): System {
    if step.c >= |s.callers| then s
    else
      var c := step.c;
      var phase := s.callers[c].phase;
      match step
      case Reserve(_, fault) => if phase.Idle? then DoReserve(s, c, fault) else s
      case FailUnsubmitted(_, error) => if phase.Working? then At(s, c, Releasing(ExecuteError(error))) else s
      case ReturnUnsubmitted(_, outcome) => if phase.Working? then At(s, c, AfterExecute(outcome, false)) else s
      case Mark(_) => if phase.Working? then At(s, c, Marked(false)).(submitter := Some(c)) else s
      case Send(_) => if phase.Marked? then At(s, c, Sent(phase.again)).(posts := s.posts + 1) else s
      case GiveUp(_) => if phase.Marked? && s.gateway.MyFatoorah? then At(s, c, Done(ExecuteError(Aborted))) else s
      case Respond(_, fate) => if phase.Sent? then DoRespond(s, c, phase.again, fate) else s
      case Release(_, fault) => if phase.Releasing? then DoRelease(s, c, phase.answer, fault) else s
      case Persist(_, fault) =>
        if phase.Persisting? then DoPersist(s, c, phase.outcome, phase.submitted, fault) else s
      case TakeEffect(_) => if phase.Lingering? then DoTakeEffect(s, c, phase.late, phase.answer) else s
      case Crash(_) => if phase.Done? || phase.Lingering? then s else At(s, c, Crashed)
  }

  // ---------------------------------------------------------------- what a store call writes

  /** The call goes to the store with this fault, made by a caller that is about to make it. */
  ghost predicate StoreCall(s: System, step: Step, fault: StoreFault) {
    && step.c < |s.callers|
    && match step
       case Reserve(c, f) => f == fault && s.callers[c].phase.Idle?
       case Release(c, f) => f == fault && s.callers[c].phase.Releasing?
       case Persist(c, f) => f == fault && s.callers[c].phase.Persisting?
       case _ => false
  }

  /** What the call makes of the record it finds: insert if absent, delete, or overwrite. */
  ghost function Written(caller: Caller, step: Step, found: Option<IdempotencyRecord>): Option<IdempotencyRecord>
    requires step.Persist? ==> caller.phase.Persisting?
  {
    match step
    case Reserve(_, _) => if found.Some? then found else Some(IdempotencyRecord(InProgress, caller.fingerprint))
    case Persist(_, _) =>
      (match caller.phase.outcome
       case Definite(result) => Some(IdempotencyRecord(Completed(result), caller.fingerprint))
       case Indeterminate => Some(IdempotencyRecord(Unknown, caller.fingerprint)))
    case _ => None
  }

  /**
   * A store call writes at once if it succeeds or fails after the write, never if it fails before; one that is still
   * under way when its error is reported writes later, over the record it then finds.
   */
  lemma StoreCallsWrite(s: System, step: Step, fault: StoreFault, later: System)
    requires StoreCall(s, step, fault)
    requires step.c < |later.callers| && later.callers[step.c] == Apply(s, step).callers[step.c]
    ensures fault in {NoFault, FailedAfter} ==> Apply(s, step).record == Written(s.callers[step.c], step, s.record)
    ensures fault in {FailedBefore, FailedLater} ==> Apply(s, step).record == s.record
    ensures
      var t := Apply(later, TakeEffect(step.c));
      if fault == FailedLater then
        && t.record == Written(s.callers[step.c], step, later.record)
        && t.callers[step.c].phase.Done? && t.posts == later.posts
      else t == later
  {
  }

  // ---------------------------------------------------------------- invariant

  /** A pending delete or write still owns the record, because the record it is about still stands. */
  predicate Owns(phase: Phase) {
    || phase.Working? || phase.Marked? || phase.Sent? || phase.Releasing? || phase.Persisting?
    || (phase.Lingering? && !phase.late.LateInsert?)
  }

  predicate Unsubmitted(phase: Phase) {
    || phase.Working? || phase.Releasing? || (phase.Persisting? && !phase.submitted)
    || (phase.Lingering? && (phase.late.LateDelete? || (phase.late.LateSet? && !phase.late.submitted)))
  }

  /** How many requests have gone out, and how many were refused, while a caller is about to send or has sent. */
  predicate SendsInOrder(s: System, phase: Phase) {
    && (phase.Marked? ==> s.posts == s.refused == (if phase.again then 1 else 0))
    && (phase.Sent? ==> s.posts == s.refused + 1 && s.refused == (if phase.again then 1 else 0))
    && ((phase.Marked? || phase.Sent?) && phase.again ==> s.gateway.MyFatoorah?)
  }

  /** What the phase of one caller says about the whole system. */
  ghost predicate CallerFits(s: System, c: nat)
    requires c < |s.callers|
  {
    var phase := s.callers[c].phase;
    && (Owns(phase) ==> s.record == Some(IdempotencyRecord(InProgress, s.callers[c].fingerprint)))
    && (Owns(phase) ==> s.submitter == if Unsubmitted(phase) then None else Some(c))
    && SendsInOrder(s, phase)
    && (phase.Releasing? || phase.Lingering? ==> !phase.answer.Settled?)
    && (phase.Done? && phase.answer.Settled? ==>
          s.record == Some(IdempotencyRecord(Completed(phase.answer.result), s.callers[c].fingerprint)))
  }

  ghost predicate SoleOwner(s: System) {
    forall c, d ::
      0 <= c < |s.callers| && 0 <= d < |s.callers| && Owns(s.callers[c].phase) && Owns(s.callers[d].phase) ==> c == d
  }

  ghost predicate Counted(s: System) {
    && s.posts <= s.refused + 1 && s.refused <= 1
    && (s.gateway.Hesabe? ==> s.refused == 0)
    && (s.submitter.None? ==> s.posts == 0 && s.refused == 0)
    && (s.submitter.Some? ==> s.record.Some?)
  }

  ghost predicate Safe(s: System) {
    && SoleOwner(s)
    && (forall c {:trigger CallerFits(s, c)} :: 0 <= c < |s.callers| ==> CallerFits(s, c))
    && Counted(s)
  }

  ghost predicate Initial(s: System) {
    && s.record.None? && s.posts == 0 && s.refused == 0 && s.submitter.None?
    && forall c :: 0 <= c < |s.callers| ==> s.callers[c].phase.Idle?
  }

  /**
   * The frame of every step: one caller moves, and it touches the shared state only while it owns the key or while
   * nobody has reserved it.
   */
  lemma OneCallerMoves(s: System, t: System, c: nat)
    requires Safe(s) && Counted(t) && c < |s.callers| == |t.callers|
    requires forall d :: 0 <= d < |s.callers| && d != c ==> t.callers[d] == s.callers[d]
    requires CallerFits(t, c)
    requires var owned := Owns(s.callers[c].phase);
      && (Owns(t.callers[c].phase) ==> owned || s.record.None?)
      && (owned || s.record.None? || t.record == s.record)
      && (owned || (t.submitter == s.submitter && t.posts == s.posts && t.refused == s.refused))
      && t.gateway == s.gateway
    ensures Safe(t)
  {
    assert CallerFits(s, c);
    forall d | 0 <= d < |t.callers| ensures CallerFits(t, d) {
      assert CallerFits(s, d);
    }
    forall d, e | 0 <= d < |t.callers| && 0 <= e < |t.callers| && Owns(t.callers[d].phase) && Owns(t.callers[e].phase)
      ensures d == e
    {
      assert CallerFits(s, d) && CallerFits(s, e);
    }
  }

  lemma ReserveOrLateEffectKeepsSafe(s: System, step: Step)
    requires Safe(s) && (step.Reserve? || step.TakeEffect?) && step.c < |s.callers|
    ensures Safe(Apply(s, step))
  {
    var t := Apply(s, step);
    assert CallerFits(s, step.c);
    if t != s {
      OneCallerMoves(s, t, step.c);
    }
  }

  lemma StoreWriteKeepsSafe(s: System, step: Step)
    requires Safe(s) && (step.Release? || step.Persist?) && step.c < |s.callers|
    ensures Safe(Apply(s, step))
  {
    var t := Apply(s, step);
    assert CallerFits(s, step.c);
    if t != s {
      OneCallerMoves(s, t, step.c);
    }
  }

  lemma OwnStepKeepsSafe(s: System, step: Step)
    requires Safe(s) && !step.Reserve? && !step.TakeEffect? && !step.Release? && !step.Persist? && step.c < |s.callers|
    ensures Safe(Apply(s, step))
  {
    var t := Apply(s, step);
    assert CallerFits(s, step.c);
    if t != s {
      OneCallerMoves(s, t, step.c);
    }
  }

  lemma ApplyKeepsSafe(s: System, step: Step)
    requires Safe(s)
    ensures Safe(Apply(s, step))
  {
    if step.c < |s.callers| {
      if step.Reserve? || step.TakeEffect? {
        ReserveOrLateEffectKeepsSafe(s, step);
      } else if step.Release? || step.Persist? {
        StoreWriteKeepsSafe(s, step);
      } else {
        OwnStepKeepsSafe(s, step);
      }
    }
  }

  // ---------------------------------------------------------------- runs

  function After(s: System, steps: seq<Step>, n: nat): System
    requires n <= |steps|
  {
    if n == 0 then s else Apply(After(s, steps, n - 1), steps[n - 1])
  }

  lemma {:induction false} RunsAreSafe(s: System, steps: seq<Step>, n: nat)
    requires Initial(s) && n <= |steps|
    ensures Safe(After(s, steps, n))
  {
    if n == 0 {
    } else {
      RunsAreSafe(s, steps, n - 1);
      ApplyKeepsSafe(After(s, steps, n - 1), steps[n - 1]);
    }
  }

  /**
   * In every interleaving, with any crashes and store failures, every request sent for the key but one was refused by
   * the provider with a complaint about the idempotency header: Hesabe sends at most one, MyFatoorah at most two.
   */
  lemma AtMostOnePost(s: System, steps: seq<Step>, n: nat)
    requires Initial(s) && n <= |steps|
    ensures var t := After(s, steps, n);
      t.posts <= t.refused + 1 && t.posts <= (if t.gateway.Hesabe? then 1 else 2)
  {
    RunsAreSafe(s, steps, n);
  }

  /** The key is taken for good by this submitter, under these parameters. */
  ghost predicate Fenced(s: System, submitter: nat, fingerprint: Fingerprint) {
    s.submitter == Some(submitter) && s.record.Some? && s.record.value.fingerprint == fingerprint
  }

  lemma SubmittedStep(s: System, step: Step, submitter: nat, fingerprint: Fingerprint)
    requires Safe(s) && Fenced(s, submitter, fingerprint)
    ensures Fenced(Apply(s, step), submitter, fingerprint)
  {
    if step.c < |s.callers| {
      assert CallerFits(s, step.c);
    }
  }

  lemma {:induction false} FenceStays(
    s: System, steps: seq<Step>, i: nat, n: nat, submitter: nat, fingerprint: Fingerprint)
    requires Initial(s) && i <= n <= |steps| && Fenced(After(s, steps, i), submitter, fingerprint)
    ensures Fenced(After(s, steps, n), submitter, fingerprint)
    decreases n
  {
    if i == n {
    } else {
      FenceStays(s, steps, i, n - 1, submitter, fingerprint);
      RunsAreSafe(s, steps, n - 1);
      SubmittedStep(After(s, steps, n - 1), steps[n - 1], submitter, fingerprint);
    }
  }

  /** From submission on the record stands, so nobody can reserve the key again. */
  lemma SubmissionKeepsTheFence(s: System, steps: seq<Step>, i: nat, n: nat)
    requires Initial(s) && i <= n <= |steps| && After(s, steps, i).submitter.Some?
    ensures var t := After(s, steps, i);
      t.record.Some? && Fenced(After(s, steps, n), t.submitter.value, t.record.value.fingerprint)
  {
    RunsAreSafe(s, steps, i);
    var t := After(s, steps, i);
    FenceStays(s, steps, i, n, t.submitter.value, t.record.value.fingerprint);
  }

  /** The record goes away in one way only: its holder, having submitted nothing, deletes it, at once or later. */
  lemma OnlyAnUnsubmittedHolderReleases(s: System, step: Step)
    requires Safe(s) && s.record.Some?
    ensures Apply(s, step).record.None? <==>
      && step.c < |s.callers|
      && var phase := s.callers[step.c].phase;
      || (step.Release? && HappensNow(step.fault) && phase.Releasing?)
      || (step.TakeEffect? && phase.Lingering? && phase.late.LateDelete?)
    ensures Apply(s, step).record.None? ==> s.submitter.None? && s.posts == 0 && s.record.value.status.InProgress?
  {
    if step.c < |s.callers| {
      assert CallerFits(s, step.c);
    }
  }

  lemma CompletedStep(s: System, step: Step)
    requires Safe(s) && s.record.Some? && s.record.value.status.Completed?
    ensures Apply(s, step).record == s.record
  {
    if step.c < |s.callers| {
      assert CallerFits(s, step.c);
    }
  }

  /** A completed record is never overwritten or removed. */
  lemma {:induction false} CompletedRecordsStand(s: System, steps: seq<Step>, i: nat, n: nat)
    requires Initial(s) && i <= n <= |steps|
    requires After(s, steps, i).record.Some? && After(s, steps, i).record.value.status.Completed?
    ensures After(s, steps, n).record == After(s, steps, i).record
    decreases n
  {
    if i == n {
    } else {
      CompletedRecordsStand(s, steps, i, n - 1);
      RunsAreSafe(s, steps, n - 1);
      CompletedStep(After(s, steps, n - 1), steps[n - 1]);
    }
  }

  /**
   * All settled answers ever given on the key agree with each other and with the record, and go only to callers whose
   * parameters are the record's.
   */
  lemma SettledAnswersAgree(s: System, steps: seq<Step>, n: nat, c: nat, d: nat)
    requires Initial(s) && n <= |steps|
    requires var t := After(s, steps, n);
      && c < |t.callers| && t.callers[c].phase.Done? && t.callers[c].phase.answer.Settled?
      && d < |t.callers| && t.callers[d].phase.Done? && t.callers[d].phase.answer.Settled?
    ensures var t := After(s, steps, n);
      && t.callers[c].phase.answer == t.callers[d].phase.answer && t.callers[c].fingerprint == t.callers[d].fingerprint
      && t.record ==
         Some(IdempotencyRecord(Completed(t.callers[c].phase.answer.result), t.callers[c].fingerprint))
  {
    RunsAreSafe(s, steps, n);
    var t := After(s, steps, n);
    assert CallerFits(t, c) && CallerFits(t, d);
  }

  // ---------------------------------------------------------------- where results come from

  /** A step by which a caller learns this result: the answer to its request, or an outcome it found unsubmitted. */
  predicate Gives(s: System, step: Step, result: Result) {
    && step.c < |s.callers|
    && var phase := s.callers[step.c].phase;
      || (step.ReturnUnsubmitted? && phase.Working? && step.outcome == Definite(result))
      || (step.Respond? && phase.Sent? && step.fate.Answered? && 200 <= step.fate.status <= 299
          && step.fate.body == Parsed(Definite(result)))
  }

  predicate Carries(phase: Phase, result: Result) {
    || (phase.Persisting? && phase.outcome == Definite(result))
    || (phase.Lingering? && phase.late.LateSet? && phase.late.status == Completed(result))
    || ((phase.Releasing? || phase.Lingering? || phase.Done?) && phase.answer == Settled(result))
  }

  /** The result is stored, or on its way to the store or to a caller. */
  ghost predicate Knows(s: System, result: Result) {
    || (s.record.Some? && s.record.value.status == Completed(result))
    || exists c :: 0 <= c < |s.callers| && Carries(s.callers[c].phase, result)
  }

  lemma RespondGives(s: System, step: Step, result: Result)
    requires step.Respond? && step.c < |s.callers| && s.callers[step.c].phase.Sent?
    requires Carries(Apply(s, step).callers[step.c].phase, result)
    ensures Gives(s, step, result)
  {
    FatesAreReportedExactly(s.gateway, step.fate);
  }

  lemma NewKnowledgeIsGiven(s: System, step: Step, result: Result)
    requires Knows(Apply(s, step), result)
    ensures Knows(s, result) || Gives(s, step, result)
  {
    var t := Apply(s, step);
    if step.c < |s.callers| && t != s {
      if c :| 0 <= c < |t.callers| && Carries(t.callers[c].phase, result) {
        if c != step.c {
          assert Carries(s.callers[c].phase, result);
        } else if step.Respond? {
          RespondGives(s, step, result);
        } else if step.Reserve? {
          ReserveCarries(s, step, result);
        } else {
          OwnStepCarries(s, step, result);
        }
      } else {
        RecordStepCarries(s, step, result);
      }
    }
  }

  lemma ReserveCarries(s: System, step: Step, result: Result)
    requires step.c < |s.callers| && step.Reserve? && Carries(Apply(s, step).callers[step.c].phase, result)
    ensures Carries(s.callers[step.c].phase, result) || (s.record.Some? && s.record.value.status == Completed(result))
  {
  }

  lemma OwnStepCarries(s: System, step: Step, result: Result)
    requires step.c < |s.callers| && !step.Respond? && !step.Reserve?
    requires Carries(Apply(s, step).callers[step.c].phase, result)
    ensures Carries(s.callers[step.c].phase, result) || Gives(s, step, result)
  {
  }

  lemma RecordStepCarries(s: System, step: Step, result: Result)
    requires step.c < |s.callers|
    requires var t := Apply(s, step); t.record.Some? && t.record.value.status == Completed(result)
    ensures Carries(s.callers[step.c].phase, result) || (s.record.Some? && s.record.value.status == Completed(result))
  {
  }

  predicate GivesAt(s: System, steps: seq<Step>, m: nat, result: Result)
    requires m < |steps|
  {
    Gives(After(s, steps, m), steps[m], result)
  }

  lemma {:induction false} KnowledgeIsGiven(s: System, steps: seq<Step>, n: nat, result: Result)
    requires Initial(s) && n <= |steps| && Knows(After(s, steps, n), result)
    ensures exists m :: 0 <= m < n && GivesAt(s, steps, m, result)
  {
    if n == 0 {
      assert false;
    } else {
      var last := n - 1;
      NewKnowledgeIsGiven(After(s, steps, last), steps[last], result);
      if GivesAt(s, steps, last, result) {
      } else {
        KnowledgeIsGiven(s, steps, last, result);
      }
    }
  }

  /** No result is made up: one that was settled or stored came from an answer that some caller got earlier. */
  lemma ResultsComeFromTheProvider(s: System, steps: seq<Step>, n: nat, c: nat, result: Result)
    requires Initial(s) && n <= |steps|
    requires var t := After(s, steps, n);
      || (c < |t.callers| && t.callers[c].phase == Done(Settled(result)))
      || (t.record.Some? && t.record.value.status == Completed(result))
    ensures exists m :: 0 <= m < n && GivesAt(s, steps, m, result)
  {
    KnowledgeIsGiven(s, steps, n, result);
  }

  // ---------------------------------------------------------------- who is settled, and when

  ghost predicate HasSettled(s: System, c: nat, result: Result) {
    c < |s.callers| && s.callers[c].phase == Done(Settled(result))
  }

  /** The caller stores the result it got, or finds it stored under its own parameters. */
  predicate Settles(s: System, step: Step, c: nat, result: Result) {
    && step.c == c < |s.callers|
    && var phase := s.callers[c].phase;
      || (step == Persist(c, NoFault) && phase.Persisting? && phase.outcome == Definite(result))
      || (step == Reserve(c, NoFault) && phase.Idle? && result.cacheable
          && s.record == Some(IdempotencyRecord(Completed(result), s.callers[c].fingerprint)))
  }

  predicate SettlesAt(s: System, steps: seq<Step>, m: nat, c: nat, result: Result)
    requires m < |steps|
  {
    Settles(After(s, steps, m), steps[m], c, result)
  }

  lemma OthersStepsSettleNothing(s: System, step: Step, c: nat, result: Result)
    requires step.c != c
    ensures HasSettled(Apply(s, step), c, result) <==> HasSettled(s, c, result)
  {
  }

  lemma OwnStepSettlesIff(s: System, step: Step, result: Result)
    requires Safe(s) && step.c < |s.callers|
    ensures HasSettled(Apply(s, step), step.c, result) <==>
      HasSettled(s, step.c, result) || Settles(s, step, step.c, result)
  {
    assert CallerFits(s, step.c);
    if step.Respond? && s.callers[step.c].phase.Sent? {
      assert !HasSettled(Apply(s, step), step.c, result);
    }
  }

  lemma StepSettlesIff(s: System, step: Step, c: nat, result: Result)
    requires Safe(s)
    ensures HasSettled(Apply(s, step), c, result) <==> HasSettled(s, c, result) || Settles(s, step, c, result)
  {
    if step.c != c {
      OthersStepsSettleNothing(s, step, c, result);
    } else if c < |s.callers| {
      OwnStepSettlesIff(s, step, result);
    }
  }

  ghost predicate SettledAt(s: System, steps: seq<Step>, n: nat, c: nat, result: Result)
    requires n <= |steps|
  {
    HasSettled(After(s, steps, n), c, result)
  }

  lemma NextSettles(s: System, steps: seq<Step>, last: nat, n: nat, c: nat, result: Result)
    requires Initial(s) && n == last + 1 <= |steps|
    ensures SettledAt(s, steps, n, c, result) <==>
      SettledAt(s, steps, last, c, result) || SettlesAt(s, steps, last, c, result)
  {
    RunsAreSafe(s, steps, last);
    StepSettlesIff(After(s, steps, last), steps[last], c, result);
  }

  lemma {:induction false} SettledOnce(s: System, steps: seq<Step>, n: nat, c: nat, result: Result) returns (m: nat)
    requires Initial(s) && n <= |steps| && SettledAt(s, steps, n, c, result)
    ensures m < n && SettlesAt(s, steps, m, c, result)
  {
    if n == 0 {
      assert false;
    } else {
      m := n - 1;
      NextSettles(s, steps, m, n, c, result);
      if !SettlesAt(s, steps, m, c, result) {
        m := SettledOnce(s, steps, m, c, result);
      }
    }
  }

  lemma {:induction false} SettledForGood(s: System, steps: seq<Step>, m: nat, n: nat, c: nat, result: Result)
    requires Initial(s) && m < n <= |steps| && SettlesAt(s, steps, m, c, result)
    ensures SettledAt(s, steps, n, c, result)
    decreases n
  {
    var last := n - 1;
    NextSettles(s, steps, last, n, c, result);
    if m == last {
    } else {
      SettledForGood(s, steps, m, last, c, result);
    }
  }

  /**
   * Over any run a caller is answered with a result exactly when it stored that result, or found it stored under its
   * own parameters in a form it can read.
   */
  lemma SettledIff(s: System, steps: seq<Step>, n: nat, c: nat, result: Result)
    requires Initial(s) && n <= |steps|
    ensures SettledAt(s, steps, n, c, result) <==> exists m :: 0 <= m < n && SettlesAt(s, steps, m, c, result)
  {
    if SettledAt(s, steps, n, c, result) {
      var m := SettledOnce(s, steps, n, c, result);
    }
    if m :| 0 <= m < n && SettlesAt(s, steps, m, c, result) {
      SettledForGood(s, steps, m, n, c, result);
    }
  }

  ghost predicate HasIt(s: System, c: nat, result: Result) {
    && c < |s.callers| && s.callers[c].phase.Persisting? && s.callers[c].phase.outcome == Definite(result)
  }

  lemma StepKeepsIt(s: System, step: Step, c: nat, result: Result)
    requires HasIt(s, c, result) && !(step.c == c && (step.Persist? || step.Crash?))
    ensures HasIt(Apply(s, step), c, result)
  {
  }

  lemma {:induction false} ItIsKept(s: System, steps: seq<Step>, m: nat, p: nat, c: nat, result: Result)
    requires m <= p <= |steps| && HasIt(After(s, steps, m), c, result)
    requires forall k :: m <= k < p ==> !(steps[k].c == c && (steps[k].Persist? || steps[k].Crash?))
    ensures HasIt(After(s, steps, p), c, result)
    decreases p
  {
    if m == p {
    } else {
      ItIsKept(s, steps, m, p - 1, c, result);
      StepKeepsIt(After(s, steps, p - 1), steps[p - 1], c, result);
    }
  }

  lemma GivenIsHeld(s: System, step: Step, result: Result)
    requires Gives(s, step, result)
    ensures HasIt(Apply(s, step), step.c, result)
  {
    if step.Respond? {
      FatesAreReportedExactly(s.gateway, step.fate);
    }
  }

  lemma StoringSettles(s: System, c: nat, result: Result)
    requires HasIt(s, c, result)
    ensures var t := Apply(s, Persist(c, NoFault));
      && HasSettled(t, c, result)
      && t.record == Some(IdempotencyRecord(Completed(result), t.callers[c].fingerprint))
  {
  }

  lemma GivenIsHeldNext(s: System, steps: seq<Step>, m: nat, next: nat, result: Result)
    requires next == m + 1 <= |steps| && GivesAt(s, steps, m, result)
    ensures HasIt(After(s, steps, next), steps[m].c, result)
  {
    GivenIsHeld(After(s, steps, m), steps[m], result);
  }

  /** The result is stored under the caller's parameters, and it is the caller's answer. */
  ghost predicate AnsweredAndStored(s: System, c: nat, result: Result) {
    && HasSettled(s, c, result)
    && s.record == Some(IdempotencyRecord(Completed(result), s.callers[c].fingerprint))
  }

  lemma StoredNext(s: System, steps: seq<Step>, p: nat, next: nat, c: nat, result: Result)
    requires next == p + 1 <= |steps| && steps[p] == Persist(c, NoFault) && HasIt(After(s, steps, p), c, result)
    ensures AnsweredAndStored(After(s, steps, next), c, result)
  {
    StoringSettles(After(s, steps, p), c, result);
  }

  /** A caller that gets a result and stores it, without crashing in between, is answered with it, and it is stored. */
  lemma ResultsAreAnsweredAndStored(s: System, steps: seq<Step>, m: nat, p: nat, result: Result)
    requires m < p < |steps| && GivesAt(s, steps, m, result) && steps[p] == Persist(steps[m].c, NoFault)
    requires forall k :: m < k < p ==> !(steps[k].c == steps[m].c && (steps[k].Persist? || steps[k].Crash?))
    ensures AnsweredAndStored(After(s, steps, p + 1), steps[m].c, result)
  {
    var c, got, stored := steps[m].c, m + 1, p + 1;
    GivenIsHeldNext(s, steps, m, got, result);
    ItIsKept(s, steps, got, p, c, result);
    StoredNext(s, steps, p, stored, c, result);
  }

  /** The answer to a caller whose key is taken says which of the four cases it is. */
  lemma TakenKeysAnswer(s: System, c: nat)
    requires c < |s.callers| && s.callers[c].phase.Idle? && s.record.Some?
    ensures
      var t, rec, mine := Apply(s, Reserve(c, NoFault)), s.record.value, s.callers[c].fingerprint;
      var phase := t.callers[c].phase;
      && t.record == s.record && phase.Done?
      && (phase.answer == Rejected(DifferentParams) <==> rec.fingerprint != mine)
      && (phase.answer == Rejected(StillIndeterminate) <==> rec.fingerprint == mine && rec.status.Unknown?)
      && (phase.answer == Rejected(AlreadyInProgress) <==> rec.fingerprint == mine && rec.status.InProgress?)
      && (phase.answer == Rejected(NotCached) <==>
            rec.fingerprint == mine && rec.status.Completed? && !rec.status.result.cacheable)
      && (phase.answer.Settled? <==> rec.fingerprint == mine && rec.status.Completed? && rec.status.result.cacheable)
      && (phase.answer.Settled? ==> rec.status == Completed(phase.answer.result))
  {
  }

  /**
   * After an ambiguous failure Hesabe stores `unknown` and answers so; MyFatoorah throws and the record stays in
   * progress.
   */
  lemma AmbiguousFailuresKeepTheRecord(s: System, c: nat, fate: PostFate)
    requires Safe(s) && c < |s.callers| && s.callers[c].phase.Sent? && Ambiguous(fate)
    ensures
      var t, mine := Apply(s, Respond(c, fate)), s.callers[c].fingerprint;
      var u := Apply(t, Persist(c, NoFault));
      && t.record == Some(IdempotencyRecord(InProgress, mine))
      && (s.gateway.Hesabe? ==>
            u.record == Some(IdempotencyRecord(Unknown, mine)) && u.callers[c].phase == Done(Uncertain))
      && (s.gateway.MyFatoorah? ==> t.callers[c].phase == Done(ExecuteError(Network(true))) && u == t)
  {
    assert CallerFits(s, c);
    FatesAreReportedExactly(s.gateway, fate);
  }

  // ---------------------------------------------------------------- the second request

  /** The provider refuses a caller's first request with a complaint about the idempotency header. */
  predicate Complains(s: System, step: Step) {
    && step.Respond? && step.c < |s.callers| && s.callers[step.c].phase == Sent(false)
    && AsksForAnother(s.gateway, step.fate)
  }

  /** A caller that got such a complaint sends again. */
  predicate Resends(s: System, step: Step) {
    step.Send? && step.c < |s.callers| && s.callers[step.c].phase == Marked(true)
  }

  predicate ComplainsAt(s: System, steps: seq<Step>, m: nat)
    requires m < |steps|
  {
    Complains(After(s, steps, m), steps[m])
  }

  predicate ResendsAt(s: System, steps: seq<Step>, i: nat)
    requires i < |steps|
  {
    Resends(After(s, steps, i), steps[i])
  }

  lemma SecondPostIsAResend(s: System, step: Step)
    requires Safe(s)
    ensures Apply(s, step).posts == 2 <==> s.posts == 2 || Resends(s, step)
  {
    if step.c < |s.callers| {
      assert CallerFits(s, step.c);
    }
    ApplyKeepsSafe(s, step);
  }

  predicate TwoPosts(s: System, steps: seq<Step>, n: nat)
    requires n <= |steps|
  {
    After(s, steps, n).posts == 2
  }

  lemma NextPost(s: System, steps: seq<Step>, last: nat, n: nat)
    requires Initial(s) && n == last + 1 <= |steps|
    ensures TwoPosts(s, steps, n) <==> TwoPosts(s, steps, last) || ResendsAt(s, steps, last)
  {
    RunsAreSafe(s, steps, last);
    SecondPostIsAResend(After(s, steps, last), steps[last]);
  }

  lemma {:induction false} SecondPostWasResent(s: System, steps: seq<Step>, n: nat) returns (i: nat)
    requires Initial(s) && n <= |steps| && TwoPosts(s, steps, n)
    ensures i < n && ResendsAt(s, steps, i)
  {
    if n == 0 {
      assert false;
    } else {
      i := n - 1;
      NextPost(s, steps, i, n);
      if !ResendsAt(s, steps, i) {
        i := SecondPostWasResent(s, steps, i);
      }
    }
  }

  lemma {:induction false} ResentStaysSent(s: System, steps: seq<Step>, i: nat, n: nat)
    requires Initial(s) && i < n <= |steps| && ResendsAt(s, steps, i)
    ensures TwoPosts(s, steps, n)
    decreases n
  {
    var last := n - 1;
    NextPost(s, steps, last, n);
    if i == last {
    } else {
      ResentStaysSent(s, steps, i, last);
    }
  }

  lemma MarkedAgainByAComplaint(s: System, step: Step, c: nat)
    requires c < |s.callers| && Apply(s, step).callers[c].phase == Marked(true)
    ensures s.callers[c].phase == Marked(true) || (step.c == c && Complains(s, step))
  {
  }

  ghost predicate MarkedAgain(s: System, c: nat) {
    c < |s.callers| && s.callers[c].phase == Marked(true)
  }

  lemma {:induction false} MarkedAgainMeansAComplaint(s: System, steps: seq<Step>, n: nat, c: nat)
    requires Initial(s) && n <= |steps| && MarkedAgain(After(s, steps, n), c)
    ensures exists m :: 0 <= m < n && steps[m].c == c && ComplainsAt(s, steps, m)
  {
    if n == 0 {
      assert false;
    } else {
      var last := n - 1;
      MarkedAgainByAComplaint(After(s, steps, last), steps[last], c);
      if steps[last].c == c && ComplainsAt(s, steps, last) {
      } else {
        MarkedAgainMeansAComplaint(s, steps, last, c);
      }
    }
  }

  /**
   * A second request goes out exactly when a caller whose first one was refused with a complaint about the idempotency
   * header sends again: neither a crash nor any other caller ever causes one.
   */
  lemma SecondRequestIff(s: System, steps: seq<Step>, n: nat)
    requires Initial(s) && n <= |steps|
    ensures TwoPosts(s, steps, n) <==>
      exists m, i :: 0 <= m < i < n && ComplainsAt(s, steps, m) && ResendsAt(s, steps, i) && steps[i].c == steps[m].c
  {
    if TwoPosts(s, steps, n) {
      var i := SecondPostWasResent(s, steps, n);
      MarkedAgainMeansAComplaint(s, steps, i, steps[i].c);
    }
    if m, i :| 0 <= m < i < n && ComplainsAt(s, steps, m) && ResendsAt(s, steps, i) && steps[i].c == steps[m].c {
      ResentStaysSent(s, steps, i, n);
    }
  }

  /** A run that sends two requests: the first one is refused with a complaint about the header it did not carry. */
  lemma SecondRequestHappens(fingerprint: Fingerprint, status: int) returns (s: System, steps: seq<Step>)
    requires 400 <= status < 500 && status !in {401, 403, 404, 429}
    ensures Initial(s) && s.gateway.MyFatoorah? && TwoPosts(s, steps, |steps|)
  {
    var fate := Answered(status, Refused(true, true));
    s := System(MyFatoorah, None, [Caller(fingerprint, Idle)], 0, 0, None);
    steps := [Reserve(0, NoFault), Mark(0), Send(0), Respond(0, fate), Send(0)];
    var mine := Some(IdempotencyRecord(InProgress, fingerprint));
    var working := System(MyFatoorah, mine, [Caller(fingerprint, Working)], 0, 0, None);
    assert After(s, steps, 0) == s;
    assert After(s, steps, 1) == working;
    assert After(s, steps, 2) == At(working, 0, Marked(false)).(submitter := Some(0));
    assert After(s, steps, 3) == At(working, 0, Sent(false)).(submitter := Some(0), posts := 1);
    assert After(s, steps, 4) == At(working, 0, Marked(true)).(submitter := Some(0), posts := 1, refused := 1);
    assert After(s, steps, 5).posts == 2;
  }

  // ---------------------------------------------------------------- the sequential code

  /** The store's entry for the key, and what a failed call may still do to it. */
  class StoreEntry {
    var record: Option<IdempotencyRecord>
    ghost var late: Option<Late>

    constructor ()
      ensures record.None? && late.None?
    {
      record, late := None, None;
    }

    method ReserveKey(fingerprint: Fingerprint, fault: StoreFault)
      returns (existing: Option<IdempotencyRecord>, ok: bool)
      modifies this
      ensures ok == fault.NoFault? && (ok ==> existing == old(record))
      ensures record == if HappensNow(fault) then Inserted(old(record), fingerprint) else old(record)
      ensures late == if fault.FailedLater? then Some(LateInsert) else None
    {
      ok, existing := fault.NoFault?, record;
      if HappensNow(fault) && record.None? {
        record := Some(IdempotencyRecord(InProgress, fingerprint));
      }
      late := if fault.FailedLater? then Some(LateInsert) else None;
    }

    method Delete(fault: StoreFault) returns (ok: bool)
      modifies this
      ensures ok == fault.NoFault? && record == if HappensNow(fault) then None else old(record)
      ensures late == if fault.FailedLater? then Some(LateDelete) else None
    {
      ok := fault.NoFault?;
      if HappensNow(fault) {
        record := None;
      }
      late := if fault.FailedLater? then Some(LateDelete) else None;
    }

    method Set(r: IdempotencyRecord, fault: StoreFault, ghost submitted: bool) returns (ok: bool)
      modifies this
      ensures ok == fault.NoFault? && record == if HappensNow(fault) then Some(r) else old(record)
      ensures late == if fault.FailedLater? then Some(LateSet(r.status, submitted)) else None
    {
      ok := fault.NoFault?;
      if HappensNow(fault) {
        record := Some(r);
      }
      late := if fault.FailedLater? then Some(LateSet(r.status, submitted)) else None;
    }
  }

  /**
   * What the guarded operation does, chosen by the environment.  `second` is the fate of another request, if the first
   * one is refused with a complaint about the idempotency header and no abort comes between them.
   */
  datatype Execution =
    | FailsUnsubmitted(error: GatewayError)
    | ReturnsUnsubmitted(outcome: Outcome)
    | Submits(first: PostFate, second: Option<PostFate>)

  /** One caller on its own: the steps its call takes, in order; those that do not apply do nothing. */
  function StepsOf(execution: Execution, reserveFault: StoreFault, endFault: StoreFault): (steps: seq<Step>)
    ensures forall i :: 0 <= i < |steps| ==> !steps[i].TakeEffect? && !steps[i].Crash?
  {
    [ Reserve(0, reserveFault),
      match execution
      case FailsUnsubmitted(error) => FailUnsubmitted(0, error)
      case ReturnsUnsubmitted(outcome) => ReturnUnsubmitted(0, outcome)
      case Submits(_, _) => Mark(0)]
    + (if execution.Submits? then
         [Send(0), Respond(0, execution.first)]
         + (if execution.second.Some? then [Send(0), Respond(0, execution.second.value)] else [GiveUp(0)])
       else [])
    + [Release(0, endFault), Persist(0, endFault)]
  }

  /** A lone caller that has sent nothing. */
  function Lone(
    gateway: Gateway, record: Option<IdempotencyRecord>, fingerprint: Fingerprint, phase: Phase): System
  {
    System(gateway, record, [Caller(fingerprint, phase)], 0, 0, None)
  }

  ghost predicate Reaches(s: System, steps: seq<Step>, k: nat, t: System) {
    k <= |steps| && After(s, steps, k) == t
  }

  lemma OneMore(s: System, steps: seq<Step>, k: nat, t: System)
    requires Reaches(s, steps, k, t) && k < |steps|
    ensures Reaches(s, steps, k + 1, Apply(t, steps[k]))
  {
  }

  /** Where a lone call ends: its answer is out, and a failed store call may still be under way. */
  ghost predicate EndsAs(s: System, answer: Answer, record: Option<IdempotencyRecord>, late: Option<Late>, posts: nat) {
    && |s.callers| == 1 && s.record == record && s.posts == posts
    && s.callers[0].phase == if late.Some? then Lingering(late.value, answer) else Done(answer)
  }

  /** Once the answer is out the remaining steps do nothing. */
  lemma {:induction false} TheRestDoesNothing(s: System, steps: seq<Step>, k: nat, t: System)
    requires Reaches(s, steps, k, t) && |t.callers| == 1 && (t.callers[0].phase.Done? || t.callers[0].phase.Lingering?)
    requires forall i :: 0 <= i < |steps| ==> !steps[i].TakeEffect?
    ensures Reaches(s, steps, |steps|, t)
    decreases |steps| - k
  {
    if k == |steps| {
    } else {
      OneMore(s, steps, k, t);
      assert Apply(t, steps[k]) == t;
      TheRestDoesNothing(s, steps, k + 1, t);
    }
  }

  /** A caller that is about to release or write the record does so in the last two steps. */
  lemma EndOfCall(s: System, steps: seq<Step>, t: System, endFault: StoreFault)
    requires |steps| >= 2 && Reaches(s, steps, |steps| - 2, t) && |t.callers| == 1
    requires steps[|steps| - 2] == Release(0, endFault) && steps[|steps| - 1] == Persist(0, endFault)
    ensures var phase := t.callers[0].phase;
      && (phase.Releasing? ==> Reaches(s, steps, |steps|, DoRelease(t, 0, phase.answer, endFault)))
      && (phase.Persisting? ==>
            Reaches(s, steps, |steps|, DoPersist(t, 0, phase.outcome, phase.submitted, endFault)))
      && (phase.Done? ==> Reaches(s, steps, |steps|, t))
  {
    OneMore(s, steps, |steps| - 2, t);
    var phase := t.callers[0].phase;
    if phase.Releasing? {
      OneMore(s, steps, |steps| - 1, DoRelease(t, 0, phase.answer, endFault));
    } else {
      OneMore(s, steps, |steps| - 1, t);
    }
  }

  /** What the guarded operation comes to once it has been submitted, and how many requests it takes. */
  function Submission(gateway: Gateway, first: PostFate, second: Option<PostFate>): Executed {
    if !AsksForAnother(gateway, first) then Execute(gateway, first)
    else if second.None? then Threw(Aborted)
    else Execute(gateway, second.value)
  }

  function Requests(gateway: Gateway, first: PostFate, second: Option<PostFate>): nat {
    if AsksForAnother(gateway, first) && second.Some? then 2 else 1
  }

  function PhaseAfter(executed: Executed, submitted: bool): Phase {
    if executed.Returned? then AfterExecute(executed.outcome, submitted)
    else if submitted then Done(ExecuteError(executed.error))
    else Releasing(ExecuteError(executed.error))
  }

  lemma OneRequestReaches(s: System, steps: seq<Step>, t: System, first: PostFate, second: Option<PostFate>)
    requires |steps| > 5 && Reaches(s, steps, 3, t) && |t.callers| == 1 && t.callers[0].phase == Sent(false)
    requires steps[3] == Respond(0, first) && !AsksForAnother(t.gateway, first)
    requires if second.Some? then |steps| == 8 && steps[4] == Send(0) && steps[5] == Respond(0, second.value)
             else |steps| == 7 && steps[4] == GiveUp(0)
    ensures Reaches(s, steps, |steps| - 2, At(t, 0, PhaseAfter(Execute(t.gateway, first), true)))
  {
    var end := At(t, 0, PhaseAfter(Execute(t.gateway, first), true));
    OneMore(s, steps, 3, t);
    OneMore(s, steps, 4, end);
    assert Apply(end, steps[4]) == end;
    if second.Some? {
      OneMore(s, steps, 5, end);
      assert Apply(end, steps[5]) == end;
    }
  }

  lemma TwoRequestsReach(s: System, steps: seq<Step>, t: System, first: PostFate, second: Option<PostFate>)
    requires |steps| > 5 && Reaches(s, steps, 3, t) && |t.callers| == 1 && t.callers[0].phase == Sent(false)
    requires steps[3] == Respond(0, first) && AsksForAnother(t.gateway, first)
    requires if second.Some? then |steps| == 8 && steps[4] == Send(0) && steps[5] == Respond(0, second.value)
             else |steps| == 7 && steps[4] == GiveUp(0)
    ensures Reaches(s, steps, |steps| - 2,
      At(t, 0, PhaseAfter(Submission(t.gateway, first, second), true))
        .(refused := t.refused + 1, posts := t.posts + if second.Some? then 1 else 0))
  {
    var asked := At(t, 0, Marked(true)).(refused := t.refused + 1);
    OneMore(s, steps, 3, t);
    OneMore(s, steps, 4, asked);
    if second.Some? {
      OneMore(s, steps, 5, At(asked, 0, Sent(true)).(posts := t.posts + 1));
    }
  }

  /** The steps of a submitted operation, from holding the reservation to its outcome. */
  lemma SubmissionReaches(
    s: System, steps: seq<Step>, holding: System, first: PostFate, second: Option<PostFate>, reserveFault: StoreFault,
    endFault: StoreFault)
    returns (end: System)
    requires steps == StepsOf(Submits(first, second), reserveFault, endFault)
    requires Reaches(s, steps, 1, holding) && |holding.callers| == 1 && holding.callers[0].phase.Working?
    requires holding.posts == 0
    ensures Reaches(s, steps, |steps| - 2, end) && end.record == holding.record && end.gateway == holding.gateway
    ensures end.callers == [holding.callers[0].(phase := PhaseAfter(Submission(holding.gateway, first, second), true))]
    ensures end.posts == Requests(holding.gateway, first, second)
  {
    var marked := At(holding, 0, Marked(false)).(submitter := Some(0));
    var sent := At(marked, 0, Sent(false)).(posts := 1);
    OneMore(s, steps, 1, holding);
    OneMore(s, steps, 2, marked);
    if AsksForAnother(holding.gateway, first) {
      TwoRequestsReach(s, steps, sent, first, second);
    } else {
      OneRequestReaches(s, steps, sent, first, second);
    }
    end := After(s, steps, |steps| - 2);
  }

  /** Sending: once, or once more when the provider complained about the idempotency header. */
  method Submit(gateway: Gateway, first: PostFate, second: Option<PostFate>) returns (executed: Executed, posts: nat)
    ensures executed == Submission(gateway, first, second) && posts == Requests(gateway, first, second)
  {
    posts := 1;
    executed := Execute(gateway, first);
    if AsksForAnother(gateway, first) {
      if second.None? {
        return Threw(Aborted), posts;
      }
      posts := posts + 1;
      executed := Execute(gateway, second.value);
    }
  }

  /** Where the protocol takes a lone caller that has its outcome. */
  ghost predicate Concludes(
    t: System, endFault: StoreFault, answer: Answer, record: Option<IdempotencyRecord>, late: Option<Late>)
    requires |t.callers| == 1
  {
    var phase := t.callers[0].phase;
    && (phase.Releasing? ==> EndsAs(DoRelease(t, 0, phase.answer, endFault), answer, record, late, t.posts))
    && (phase.Persisting? ==>
          EndsAs(DoPersist(t, 0, phase.outcome, phase.submitted, endFault), answer, record, late, t.posts))
    && (phase.Done? ==> EndsAs(t, answer, record, late, t.posts))
  }

  // ---------------------------------------------------------------- what a whole call comes to

  predicate Took(fault: StoreFault) {
    fault in {NoFault, FailedAfter}
  }

  function Mine(fingerprint: Fingerprint): Option<IdempotencyRecord> {
    Some(IdempotencyRecord(InProgress, fingerprint))
  }

  /** The record is deleted, or the failure to do so is reported. */
  predicate EndsReleased(
    fingerprint: Fingerprint, fault: StoreFault, onSuccess: Answer, answer: Answer, record: Option<IdempotencyRecord>)
  {
    && answer == (if fault.NoFault? then onSuccess else StoreError)
    && record == (if Took(fault) then None else Mine(fingerprint))
  }

  /** The record is written; if that fails, it stays in progress or is written all the same. */
  predicate EndsStored(
    fingerprint: Fingerprint, fault: StoreFault, status: RecordStatus, onSuccess: Answer, onFailure: Answer,
    answer: Answer, record: Option<IdempotencyRecord>)
  {
    && answer == (if fault.NoFault? then onSuccess else onFailure)
    && record == (if Took(fault) then Some(IdempotencyRecord(status, fingerprint)) else Mine(fingerprint))
  }

  /** How a call ends that got `fate` as the last word on its request. */
  predicate EndsSubmitted(
    gateway: Gateway, fingerprint: Fingerprint, fate: PostFate, fault: StoreFault, answer: Answer,
    record: Option<IdempotencyRecord>)
  {
    var lost := if gateway.Hesabe? then Uncertain else StoreError;
    if fate.Answered? && 200 <= fate.status <= 299 && fate.body.Parsed? && fate.body.outcome.Definite? then
      var result := fate.body.outcome.result;
      EndsStored(fingerprint, fault, Completed(result), Settled(result), lost, answer, record)
    else if ReadableAs(fate, Indeterminate) || (gateway.Hesabe? && Ambiguous(fate)) then
      EndsStored(fingerprint, fault, Unknown, Uncertain, lost, answer, record)
    else
      && record == Mine(fingerprint) && answer.ExecuteError?
      && if Ambiguous(fate) then answer.error == Network(true) else RefusedWith(gateway, fate, answer.error)
  }

  predicate AnswersTaken(rec: IdempotencyRecord, fingerprint: Fingerprint, answer: Answer) {
    if rec.fingerprint != fingerprint then answer == Rejected(DifferentParams)
    else if rec.status.InProgress? then answer == Rejected(AlreadyInProgress)
    else if rec.status.Unknown? then answer == Rejected(StillIndeterminate)
    else if rec.status.result.cacheable then answer == Settled(rec.status.result)
    else answer == Rejected(NotCached)
  }

  predicate Complained(gateway: Gateway, fate: PostFate) {
    gateway.MyFatoorah? && Invalid(gateway, fate) && fate.body.Refused? && fate.body.headerUnsupported
  }

  /** What a call to the reservation function comes to, from the record it found and what happened to it. */
  predicate CallEnds(
    gateway: Gateway, fingerprint: Fingerprint, before: Option<IdempotencyRecord>, execution: Execution,
    reserveFault: StoreFault, endFault: StoreFault, answer: Answer, record: Option<IdempotencyRecord>, posts: nat)
  {
    if reserveFault != NoFault then
      && answer == StoreError && posts == 0
      && record == (if before.None? && Took(reserveFault) then Mine(fingerprint) else before)
    else if before.Some? then posts == 0 && record == before && AnswersTaken(before.value, fingerprint, answer)
    else match execution
      case FailsUnsubmitted(error) =>
        posts == 0 && EndsReleased(fingerprint, endFault, ExecuteError(error), answer, record)
      case ReturnsUnsubmitted(Indeterminate) =>
        posts == 0 && EndsReleased(fingerprint, endFault, Uncertain, answer, record)
      case ReturnsUnsubmitted(Definite(result)) =>
        && posts == 0
        && EndsStored(fingerprint, endFault, Completed(result), Settled(result), StoreError, answer, record)
      case Submits(first, second) =>
        if !Complained(gateway, first) then
          posts == 1 && EndsSubmitted(gateway, fingerprint, first, endFault, answer, record)
        else if second.Some? then
          posts == 2 && EndsSubmitted(gateway, fingerprint, second.value, endFault, answer, record)
        else
          posts == 1 && record == Mine(fingerprint) && answer == ExecuteError(Aborted)
  }

  /** The end of a call, from what the guarded operation came to. */
  predicate EndsAfter(
    gateway: Gateway, fingerprint: Fingerprint, executed: Executed, submitted: bool, fault: StoreFault, answer: Answer,
    record: Option<IdempotencyRecord>)
  {
    match executed
    case Threw(error) =>
      if submitted then answer == ExecuteError(error) && record == Mine(fingerprint)
      else EndsReleased(fingerprint, fault, ExecuteError(error), answer, record)
    case Returned(Definite(result)) =>
      EndsStored(fingerprint, fault, Completed(result), Settled(result),
                 if submitted && gateway.Hesabe? then Uncertain else StoreError, answer, record)
    case Returned(Indeterminate) =>
      if submitted then
        EndsStored(fingerprint, fault, Unknown, Uncertain, if gateway.Hesabe? then Uncertain else StoreError, answer,
                   record)
      else EndsReleased(fingerprint, fault, Uncertain, answer, record)
  }

  lemma SubmissionEnds(
    gateway: Gateway, fingerprint: Fingerprint, first: PostFate, second: Option<PostFate>, fault: StoreFault,
    answer: Answer, record: Option<IdempotencyRecord>, posts: nat)
    requires posts == Requests(gateway, first, second)
    requires EndsAfter(gateway, fingerprint, Submission(gateway, first, second), true, fault, answer, record)
    ensures
      if !Complained(gateway, first) then
        posts == 1 && EndsSubmitted(gateway, fingerprint, first, fault, answer, record)
      else if second.Some? then
        posts == 2 && EndsSubmitted(gateway, fingerprint, second.value, fault, answer, record)
      else
        posts == 1 && record == Mine(fingerprint) && answer == ExecuteError(Aborted)
  {
    FatesAreReportedExactly(gateway, first);
    if second.Some? {
      FatesAreReportedExactly(gateway, second.value);
    }
  }

  /** The end of the reservation function: nothing after a submitted failure, else release or persist. */
  method Conclude(
      entry: StoreEntry, ghost t: System, executed: Executed, submitted: bool, gateway: Gateway,
      fingerprint: Fingerprint, endFault: StoreFault)
    returns (answer: Answer)
    requires t.gateway == gateway && t.callers == [Caller(fingerprint, PhaseAfter(executed, submitted))]
    requires t.record == entry.record == Mine(fingerprint) && entry.late.None?
    modifies entry
    ensures Concludes(t, endFault, answer, entry.record, entry.late)
    ensures EndsAfter(gateway, fingerprint, executed, submitted, endFault, answer, entry.record)
  {
    if executed.Threw? {
      if !submitted {
        var deleted := entry.Delete(endFault);
        if !deleted {
          return StoreError;
        }
      }
      return ExecuteError(executed.error);
    }
    var outcome := executed.outcome;
    if outcome.Indeterminate? && !submitted {
      var deleted := entry.Delete(endFault);
      return if deleted then Uncertain else StoreError;
    }
    var saved := entry.Set(IdempotencyRecord(Persisted(outcome), fingerprint), endFault, submitted);
    if !saved {
      return UnstoredAnswer(gateway, submitted);
    }
    return AnswerOf(outcome);
  }

  /**
   * The reservation function of either gateway, run to its end without a crash: reserve, execute with the submitted
   * flag, then release or persist.  It makes exactly the protocol's steps and sends exactly the requests the protocol
   * sends.
   */
  method WithReservation(
      entry: StoreEntry, fingerprint: Fingerprint, gateway: Gateway, execution: Execution, reserveFault: StoreFault,
      endFault: StoreFault)
    returns (answer: Answer, posts: nat)
    modifies entry
    ensures
      var steps := StepsOf(execution, reserveFault, endFault);
      var end := After(Lone(gateway, old(entry.record), fingerprint, Idle), steps, |steps|);
      EndsAs(end, answer, entry.record, entry.late, posts)
    ensures
      CallEnds(gateway, fingerprint, old(entry.record), execution, reserveFault, endFault, answer, entry.record, posts)
  {
    ghost var steps := StepsOf(execution, reserveFault, endFault);
    ghost var start := Lone(gateway, entry.record, fingerprint, Idle);
    posts := 0;
    var existing, reserved := entry.ReserveKey(fingerprint, reserveFault);
    assert Reaches(start, steps, 0, start);
    OneMore(start, steps, 0, start);
    if !reserved {
      TheRestDoesNothing(start, steps, 1, Apply(start, steps[0]));
      return StoreError, posts;
    }
    if existing.Some? {
      TheRestDoesNothing(start, steps, 1, Apply(start, steps[0]));
      return ReplayAnswer(existing.value, fingerprint), posts;
    }
    ghost var holding := Lone(gateway, entry.record, fingerprint, Working);
    assert Reaches(start, steps, 1, holding);
    var submitted := false;
    var executed: Executed;
    match execution {
      case FailsUnsubmitted(error) =>
        executed := Threw(error);
        OneMore(start, steps, 1, holding);
      case ReturnsUnsubmitted(outcome) =>
        executed := Returned(outcome);
        OneMore(start, steps, 1, holding);
      case Submits(first, second) =>
        submitted := true;
        executed, posts := Submit(gateway, first, second);
        ghost var end := SubmissionReaches(start, steps, holding, first, second, reserveFault, endFault);
    }
    ghost var before := After(start, steps, |steps| - 2);
    EndOfCall(start, steps, before, endFault);
    answer := Conclude(entry, before, executed, submitted, gateway, fingerprint, endFault);
    if execution.Submits? {
      SubmissionEnds(
        gateway, fingerprint, execution.first, execution.second, endFault, answer, entry.record, posts);
    }
  }
}
