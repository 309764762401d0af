/** The values the reconciliation core works on: statuses, money, snapshots, differences and results. */
module Snapshots {
  import opened Wrappers

  /**
   * Payment statuses.  `RequiresCapture` occurs as a raw provider status only; `Other` stands for any further status,
   * none of whose spellings is one of the named ones.
   */
  datatype Status =
    | Pending | Processing | Authorized | Approved | Paid | PartiallyCaptured | Failed | Cancelled | Canceled
    | Reversed | Refunded | PartiallyRefunded | RefundPending | RefundFailed | RefundCompleted | SetupCompleted
    | RequiresCapture | Other(name: string)

  /** An amount in the currency's minor units, or text that does not parse at the currency's precision. */
  datatype Amount = Minor(units: int) | Unparseable(text: string)

  /** The currency code is kept in its normalized form. */
  datatype Money = Money(amount: Amount, currency: string)

  /** Equal currencies and equal minor units; unparseable text equals only itself. */
  predicate MoneyEquals(a: Money, b: Money) {
    a.currency == b.currency && a.amount == b.amount
  }

  predicate ProvenZero(m: Money) {
    m.amount == Minor(0)
  }

  /** A missing total proves nothing; a present one that does not parse counts as money moved. */
  predicate NonZero(m: Option<Money>) {
    m.Some? && !ProvenZero(m.value)
  }

  datatype Local = Local(
    status: Option<Status>,
    amount: Option<Money>,
    capturedAmount: Option<Money>,
    refundedAmount: Option<Money>,
    gatewayPaymentId: Option<string>)

  /** `providerStatus` is the raw provider status, trimmed and in lower case. */
  datatype Provider = Provider(
    gatewayPaymentId: string,
    status: Status,
    amount: Money,
    capturedAmount: Option<Money>,
    refundedAmount: Option<Money>,
    providerStatus: Status)

  datatype Target = Target(
    gatewayPaymentId: Option<string>,
    idempotencyKey: Option<string>,
    localReference: Option<string>,
    providerRequestId: Option<string>,
    expected: Option<Local>)

  datatype Difference =
    | StatusDiffers(localStatus: Status, providerStatus: Status)
    | AmountDiffers(localMoney: Money, providerAmount: Money)
    | CapturedDiffers(localMoney: Money, providerMoney: Option<Money>)
    | RefundedDiffers(localMoney: Money, providerMoney: Option<Money>)
    | IdDiffers(localId: string, providerId: string)

  datatype ReviewReason = NoKeys | NoMethods | ForeignAfterPrimaryMiss | ForeignPayment

  datatype Result =
    | Consistent(provider: Provider)
    | DriftDetected(provider: Provider, differences: seq<Difference>)
    | ProviderNotFound(retryable: bool)
    | TemporarilyUnavailable(retryAfterMs: Option<int>)
    | AmbiguousMatch(matches: seq<Provider>)
    | ManualReviewRequired(reason: ReviewReason)

  /** A known, non-empty identifier. */
  predicate Known(id: Option<string>) {
    id.Some? && id.value != ""
  }
}

/** Field-by-field comparison of what the application expects with what the provider reports. */
module Compare {
  import opened Wrappers
  import opened Snapshots

  predicate IsAuthHold(s: Status) {
    s == Authorized || s == Approved || s == RequiresCapture
  }

  predicate IsSettling(s: Status) {
    s == Pending || s == Processing
  }

  /** A pre-capture hold on the provider's side that the local status does not contradict. */
  predicate IsAuthHoldPair(local: Local, provider: Provider) {
    && (local.status.None? || IsAuthHold(local.status.value))
    && (IsAuthHold(provider.status) || IsAuthHold(provider.providerStatus))
  }

  function StatusPart(local: Local, provider: Provider): seq<Difference> {
    if local.status.Some? && local.status.value != provider.status then
      [StatusDiffers(local.status.value, provider.status)]
    else []
  }

  function AmountPart(local: Local, provider: Provider): seq<Difference> {
    if local.amount.Some? && !MoneyEquals(local.amount.value, provider.amount) then
      [AmountDiffers(local.amount.value, provider.amount)]
    else []
  }

  /** Without a local captured amount, the expected charge stands in for it, except on a hold or while settling. */
  function CapturedPart(local: Local, provider: Provider): seq<Difference> {
    if local.capturedAmount.Some? then
      if provider.capturedAmount.None? || !MoneyEquals(local.capturedAmount.value, provider.capturedAmount.value) then
        [CapturedDiffers(local.capturedAmount.value, provider.capturedAmount)]
      else []
    else if local.amount.Some? && provider.capturedAmount.Some? then
      var captured := provider.capturedAmount.value;
      var hold := IsAuthHoldPair(local, provider);
      if (hold || IsSettling(provider.status)) && ProvenZero(captured) then []
      else if hold then [CapturedDiffers(Money(Minor(0), captured.currency), Some(captured))]
      else if !MoneyEquals(local.amount.value, captured) then
        [CapturedDiffers(local.amount.value, Some(captured))]
      else []
    else []
  }

  function RefundedPart(local: Local, provider: Provider): seq<Difference> {
    if local.refundedAmount.Some?
      && (provider.refundedAmount.None? || !MoneyEquals(local.refundedAmount.value, provider.refundedAmount.value))
    then [RefundedDiffers(local.refundedAmount.value, provider.refundedAmount)]
    else []
  }

  function IdPart(local: Local, provider: Provider): seq<Difference> {
    if local.gatewayPaymentId.Some? && local.gatewayPaymentId.value != provider.gatewayPaymentId then
      [IdDiffers(local.gatewayPaymentId.value, provider.gatewayPaymentId)]
    else []
  }

  function CompareSnapshots(local: Option<Local>, provider: Provider): seq<Difference> {
    if local.None? then []
    else
      var l := local.value;
      StatusPart(l, provider) + AmountPart(l, provider) + CapturedPart(l, provider) + RefundedPart(l, provider)
      + IdPart(l, provider)
  }

  /** Everything but the status agrees. */
  predicate MoneyAndIdAgree(local: Option<Local>, provider: Provider) {
    local.Some? ==>
      var l := local.value;
      && (l.amount.Some? ==> MoneyEquals(l.amount.value, provider.amount))
      && CapturedAgrees(l, provider)
      && (l.refundedAmount.Some? ==>
            provider.refundedAmount.Some? && MoneyEquals(l.refundedAmount.value, provider.refundedAmount.value))
      && (l.gatewayPaymentId.Some? ==> l.gatewayPaymentId.value == provider.gatewayPaymentId)
  }

  predicate CapturedAgrees(l: Local, provider: Provider) {
    && (l.capturedAmount.Some? ==>
          provider.capturedAmount.Some? && MoneyEquals(l.capturedAmount.value, provider.capturedAmount.value))
    && (l.capturedAmount.None? && l.amount.Some? && provider.capturedAmount.Some? ==>
          var captured := provider.capturedAmount.value;
          if IsAuthHoldPair(l, provider) then ProvenZero(captured)
          else MoneyEquals(l.amount.value, captured) || (IsSettling(provider.status) && ProvenZero(captured)))
  }

  predicate StatusAgrees(local: Option<Local>, provider: Provider) {
    local.Some? && local.value.status.Some? ==> local.value.status.value == provider.status
  }

  lemma StatusThenRest(status: seq<Difference>, rest: seq<Difference>)
    requires |status| <= 1 && (forall i :: 0 <= i < |status| ==> status[i].StatusDiffers?)
    requires forall i :: 0 <= i < |rest| ==> !rest[i].StatusDiffers?
    ensures
      var d := status + rest;
      && (d == [] <==> status == [] && rest == [])
      && (|d| == 1 && d[0].StatusDiffers? <==> status != [] && rest == [])
  {
    if status == [] {
      assert status + rest == rest;
    }
  }

  /**
   * The comparison is empty exactly when every known field agrees, and is the status alone exactly when only it
   * differs.
   */
  lemma ComparisonIsExact(local: Option<Local>, provider: Provider)
    ensures CompareSnapshots(local, provider) == [] <==>
      StatusAgrees(local, provider) && MoneyAndIdAgree(local, provider)
    ensures
      var d := CompareSnapshots(local, provider);
      |d| == 1 && d[0].StatusDiffers? <==> !StatusAgrees(local, provider) && MoneyAndIdAgree(local, provider)
  {
    if local.Some? {
      PartsAreExact(local.value, provider);
      var l := local.value;
      var rest := AmountPart(l, provider) + CapturedPart(l, provider) + RefundedPart(l, provider) + IdPart(l, provider);
      StatusThenRest(StatusPart(l, provider), rest);
      assert CompareSnapshots(local, provider) == StatusPart(l, provider) + rest;
    }
  }

  lemma PartsAreExact(l: Local, provider: Provider)
    ensures StatusPart(l, provider) == [] <==> StatusAgrees(Some(l), provider)
    ensures |StatusPart(l, provider)| <= 1
    ensures
      var rest := AmountPart(l, provider) + CapturedPart(l, provider) + RefundedPart(l, provider) + IdPart(l, provider);
      && (rest == [] <==> MoneyAndIdAgree(Some(l), provider))
      && forall i :: 0 <= i < |rest| ==> !rest[i].StatusDiffers?
  {
    var rest := AmountPart(l, provider) + CapturedPart(l, provider) + RefundedPart(l, provider) + IdPart(l, provider);
    assert |rest| ==
      |AmountPart(l, provider)| + |CapturedPart(l, provider)| + |RefundedPart(l, provider)| + |IdPart(l, provider)|;
  }

  // ---------------------------------------------------------------- the differences themselves

  /** A hold before capture: the provider shows one, and the local status is absent or shows one too. */
  predicate OnHold(l: Local, p: Provider) {
    && (l.status.None? || l.status.value in {Authorized, Approved, RequiresCapture})
    && (p.status in {Authorized, Approved, RequiresCapture}
        || p.providerStatus in {Authorized, Approved, RequiresCapture})
  }

  /** The captured total differs: from the local one, from nothing on a hold, or else from the expected charge. */
  predicate CaptureDiffers(l: Local, p: Provider, mine: Money, theirs: Option<Money>) {
    && theirs == p.capturedAmount
    && if l.capturedAmount.Some? then mine == l.capturedAmount.value && theirs != Some(mine)
       else if l.amount.None? || theirs.None? then false
       else if OnHold(l, p) then
         mine == Money(Minor(0), theirs.value.currency) && theirs.value.amount != Minor(0)
       else
         && mine == l.amount.value && theirs.value != mine
         && (p.status in {Pending, Processing} ==> theirs.value.amount != Minor(0))
  }

  /** Exactly the differences there are, each with both sides. */
  predicate Differs(l: Local, p: Provider, d: Difference) {
    match d
    case StatusDiffers(mine, theirs) => l.status == Some(mine) && theirs == p.status && mine != theirs
    case AmountDiffers(mine, theirs) => l.amount == Some(mine) && theirs == p.amount && mine != theirs
    case CapturedDiffers(mine, theirs) => CaptureDiffers(l, p, mine, theirs)
    case RefundedDiffers(mine, theirs) =>
      l.refundedAmount == Some(mine) && theirs == p.refundedAmount && theirs != Some(mine)
    case IdDiffers(mine, theirs) =>
      l.gatewayPaymentId == Some(mine) && theirs == p.gatewayPaymentId && mine != theirs
  }

  /** The fields in the order in which differences are listed. */
  function FieldOf(d: Difference): nat {
    match d
    case StatusDiffers(_, _) => 0
    case AmountDiffers(_, _) => 1
    case CapturedDiffers(_, _) => 2
    case RefundedDiffers(_, _) => 3
    case IdDiffers(_, _) => 4
  }

  predicate Only(part: seq<Difference>, l: Local, p: Provider, field: nat) {
    && |part| <= 1
    && (forall i :: 0 <= i < |part| ==> FieldOf(part[i]) == field && Differs(l, p, part[i]))
  }

  lemma PartsAreExactByField(l: Local, p: Provider)
    ensures Only(StatusPart(l, p), l, p, 0) && Only(AmountPart(l, p), l, p, 1) && Only(CapturedPart(l, p), l, p, 2)
    ensures Only(RefundedPart(l, p), l, p, 3) && Only(IdPart(l, p), l, p, 4)
  {
  }

  lemma EveryDifferenceHasItsPart(l: Local, p: Provider, d: Difference)
    requires Differs(l, p, d)
    ensures
      match FieldOf(d)
      case 0 => d in StatusPart(l, p)
      case 1 => d in AmountPart(l, p)
      case 2 => d in CapturedPart(l, p)
      case 3 => d in RefundedPart(l, p)
      case _ => d in IdPart(l, p)
  {
  }

  lemma AppendInOrder(a: seq<Difference>, b: seq<Difference>, l: Local, p: Provider, field: nat)
    requires (forall i, j :: 0 <= i < j < |a| ==> FieldOf(a[i]) < FieldOf(a[j]))
    requires (forall i :: 0 <= i < |a| ==> FieldOf(a[i]) < field && Differs(l, p, a[i])) && Only(b, l, p, field)
    ensures forall i, j :: 0 <= i < j < |a + b| ==> FieldOf((a + b)[i]) < FieldOf((a + b)[j])
    ensures forall i :: 0 <= i < |a + b| ==> FieldOf((a + b)[i]) < field + 1 && Differs(l, p, (a + b)[i])
  {
  }

  /** The comparison lists exactly the differences, field by field and in the order of the fields. */
  lemma ComparisonListsTheDifferences(l: Local, p: Provider, d: Difference)
    ensures var all := CompareSnapshots(Some(l), p);
      && (d in all <==> Differs(l, p, d))
      && (forall i, j :: 0 <= i < j < |all| ==> FieldOf(all[i]) < FieldOf(all[j]))
  {
    PartsAreExactByField(l, p);
    var s, a, c, r := StatusPart(l, p), AmountPart(l, p), CapturedPart(l, p), RefundedPart(l, p);
    AppendInOrder(s, a, l, p, 1);
    AppendInOrder(s + a, c, l, p, 2);
    AppendInOrder(s + a + c, r, l, p, 3);
    AppendInOrder(s + a + c + r, IdPart(l, p), l, p, 4);
    if Differs(l, p, d) {
      EveryDifferenceHasItsPart(l, p, d);
    }
  }
}
