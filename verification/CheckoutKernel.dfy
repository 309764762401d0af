/**
 * The checkout kernel's order book: orders are created around a provider call, paid by webhooks or by reconciliation,
 * and fulfilled when they are paid.  Orders are shared objects: one may be reachable by its order id, by several
 * gateway payment ids, or, after a failed creation, by neither.
 */
module CheckoutKernel {
  import opened Wrappers
  import opened Snapshots
  import opened Lookup
  import opened Policy
  import Reconciliation

  datatype OrderStatus = Unpaid | PaidOrder | FailedOrder

  class CheckoutOrder {
    const orderId: string
    const amount: Money
    var status: OrderStatus
    var fulfillCount: nat
    var gatewayPaymentId: Option<string>

    constructor (orderId: string, amount: Money)
      ensures this.orderId == orderId && this.amount == amount
      ensures status == Unpaid && fulfillCount == 0 && gatewayPaymentId == None
    {
      this.orderId, this.amount := orderId, amount;
      status, fulfillCount, gatewayPaymentId := Unpaid, 0, None;
    }

    /** An order has been fulfilled exactly when it is paid, and then once. */
    ghost predicate FulfilledOnce()
      reads this
    {
      fulfillCount == if status == PaidOrder then 1 else 0
    }

    /** What reconciliation is asked to compare this order with. */
    function RebuildTarget(): Target
      reads this
    {
      var expected := Local(
        Some(match status case PaidOrder => Paid case FailedOrder => Status.Failed case Unpaid => Processing),
        Some(amount), None, None, gatewayPaymentId);
      Target(gatewayPaymentId, Some(orderId), Some(orderId), None, Some(expected))
    }
  }

  /** How the provider call inside a creation ended. */
  datatype CreateOutcome = NetworkTrouble | OtherTrouble | Created(gatewayId: Option<string>)

  /** A webhook as the handler reads it: whether it reports a settled payment, and the identifiers it carries. */
  datatype WebhookEvent = WebhookEvent(
    settled: bool, gatewayPaymentId: Option<string>, internalReference: Option<string>)

  datatype Disposition =
    | Complete
    | RetryLaterDisposition(after: Option<int>)
    | Retry
    | ManualReviewDisposition
    | HandlerThrew

  /** The target a job is reconciled as: the order under its payment id, if it has one, and twice under its own id. */
  function JobTarget(orderId: string, amount: Money, status: OrderStatus, gatewayPaymentId: Option<string>): Target {
    Target(gatewayPaymentId, Some(orderId), Some(orderId), None,
           Some(Local(
             Some(match status case PaidOrder => Paid case FailedOrder => Status.Failed case Unpaid => Processing),
             Some(amount), None, None, gatewayPaymentId)))
  }

  /** The lookup ends with `p` alone: by payment id, or else by the order id as idempotency key or local reference. */
  predicate FoundAlone(port: Port, orderId: string, gatewayPaymentId: Option<string>, p: Provider) {
    var byId := Settles(gatewayPaymentId, port.byPaymentId);
    var byKey := Settles(Some(orderId), port.byIdempotencyKey);
    && (gatewayPaymentId.Some? ==> gatewayPaymentId.value == p.gatewayPaymentId)
    && if byId then port.byPaymentId == Some(Found([p]))
       else if byKey then port.byIdempotencyKey == Some(Found([p]))
       else orderId != "" && port.byLocalReference == Some(Found([p]))
  }

  /** The payment is the order's, for its amount, paid, and without refunds or another captured total. */
  predicate PaidBy(port: Port, orderId: string, amount: Money, gatewayPaymentId: Option<string>, p: Provider) {
    && FoundAlone(port, orderId, gatewayPaymentId, p) && p.status == Paid && p.amount == amount
    && p.capturedAmount in {None, Some(amount)}
    && (p.refundedAmount.Some? ==> p.refundedAmount.value.amount == Minor(0))
  }

  /** The payment is the order's, for its amount, failed, and shows no money moved. */
  predicate FailedBy(port: Port, orderId: string, amount: Money, gatewayPaymentId: Option<string>, p: Provider) {
    && FoundAlone(port, orderId, gatewayPaymentId, p) && p.status in {Status.Failed, Cancelled, Canceled}
    && p.amount == amount
    && (p.capturedAmount.Some? ==> p.capturedAmount.value == amount && amount.amount == Minor(0))
    && (p.refundedAmount.Some? ==> p.refundedAmount.value.amount == Minor(0))
  }

  function DispositionOf(decision: Policy.Decision, fulfillThrows: bool): Disposition {
    match decision
    case MarkConsistent(_) => Complete
    case UpdateLocalToPaid(_) => if fulfillThrows then HandlerThrew else Complete
    case UpdateLocalToFailed(_) => Complete
    case RetryLater(after) => RetryLaterDisposition(after)
    case DoNotCreateReplacement(_) => Retry
    case SendToReview(_) => ManualReviewDisposition
    case ApplyDriftReview(_, _) => ManualReviewDisposition
  }

  lemma SoleMatchIsFoundAlone(t: Target, orderId: string, port: Port, p: Provider)
    requires t.idempotencyKey == t.localReference == Some(orderId) && t.providerRequestId.None?
    requires t.gatewayPaymentId.Some? ==> t.gatewayPaymentId.value == p.gatewayPaymentId
    ensures Reconciliation.SoleMatch(t, port, p) <==> FoundAlone(port, orderId, t.gatewayPaymentId, p)
  {
    RunnableLeadsTo(t, port, Runnable(t, port));
  }

  lemma PaidByIff(orderId: string, amount: Money, status: OrderStatus, id: Option<string>, port: Port, p: Provider)
    ensures Reconciliation.Decision(JobTarget(orderId, amount, status, id), port) == UpdateLocalToPaid(p) <==>
      status == Unpaid && PaidBy(port, orderId, amount, id, p)
  {
    var t := JobTarget(orderId, amount, status, id);
    Reconciliation.PaidIsDecidedExactly(t, port, p);
    if id.Some? ==> id.value == p.gatewayPaymentId {
      SoleMatchIsFoundAlone(t, orderId, port, p);
    }
  }

  lemma FailedByIff(orderId: string, amount: Money, status: OrderStatus, id: Option<string>, port: Port, p: Provider)
    ensures Reconciliation.Decision(JobTarget(orderId, amount, status, id), port) == UpdateLocalToFailed(p) <==>
      status == Unpaid && FailedBy(port, orderId, amount, id, p)
  {
    var t := JobTarget(orderId, amount, status, id);
    Reconciliation.FailedIsDecidedExactly(t, port, p);
    if id.Some? ==> id.value == p.gatewayPaymentId {
      SoleMatchIsFoundAlone(t, orderId, port, p);
    }
  }

  lemma JobMovesExactly(orderId: string, amount: Money, status: OrderStatus, id: Option<string>, port: Port)
    ensures var d := Reconciliation.Decision(JobTarget(orderId, amount, status, id), port);
      && (d.UpdateLocalToPaid? <==> status == Unpaid && exists p :: PaidBy(port, orderId, amount, id, p))
      && (d.UpdateLocalToFailed? <==> status == Unpaid && exists p :: FailedBy(port, orderId, amount, id, p))
  {
    var d := Reconciliation.Decision(JobTarget(orderId, amount, status, id), port);
    forall p
      ensures (d == UpdateLocalToPaid(p) <==> status == Unpaid && PaidBy(port, orderId, amount, id, p))
      ensures (d == UpdateLocalToFailed(p) <==> status == Unpaid && FailedBy(port, orderId, amount, id, p))
    {
      PaidByIff(orderId, amount, status, id, port, p);
      FailedByIff(orderId, amount, status, id, port, p);
    }
    if d.UpdateLocalToPaid? {
      assert d == UpdateLocalToPaid(d.provider);
    }
    if d.UpdateLocalToFailed? {
      assert d == UpdateLocalToFailed(d.provider);
    }
  }

  class Kernel {
    const fulfillThrows: bool
    const catalogAmount: Money
    var orders: map<string, CheckoutOrder>
    var byGatewayPaymentId: map<string, CheckoutOrder>
    ghost var created: set<CheckoutOrder>

    constructor (fulfillThrows: bool, catalogAmount: Money)
      ensures Valid() && created == {}
    {
      this.fulfillThrows, this.catalogAmount := fulfillThrows, catalogAmount;
      orders, byGatewayPaymentId, created := map[], map[], {};
    }

    ghost predicate Valid()
      reads this, created
    {
      && (forall k :: k in orders ==> orders[k] in created)
      && (forall k :: k in byGatewayPaymentId ==> byGatewayPaymentId[k] in created)
      && (forall o :: o in created ==> o.FulfilledOnce())
    }

    /** Between two states: orders are only added, and a paid order stays paid and is not fulfilled again. */
    twostate predicate PaidStaysPaid()
      reads this, created
    {
      && old(created) <= created
      && forall o :: o in old(created) && old(o.status) == PaidOrder ==>
        o.status == PaidOrder && o.fulfillCount == old(o.fulfillCount)
    }

    method RememberGatewayPaymentId(order: CheckoutOrder, id: string)
      requires Valid() && order in created
      modifies this`byGatewayPaymentId, order`gatewayPaymentId
      ensures Valid() && order.gatewayPaymentId == Some(id)
      ensures byGatewayPaymentId == old(byGatewayPaymentId)[id := order]
    {
      order.gatewayPaymentId := Some(id);
      byGatewayPaymentId := byGatewayPaymentId[id := order];
    }

    /** Pay and fulfil an order once; an identifier that contradicts the order's own is ignored. */
    method Fulfill(order: CheckoutOrder, id: Option<string>) returns (threw: bool)
      requires Valid() && order in created
      modifies this`byGatewayPaymentId, order
      ensures Valid() && threw == fulfillThrows
      ensures
        var matches := id in {None, Some("")} || old(order.gatewayPaymentId) in {None, id};
        var binds := !threw && id !in {None, Some("")} && old(order.gatewayPaymentId).None?;
        && order.status == (if !threw && matches then PaidOrder else old(order.status))
        && order.gatewayPaymentId == (if binds then id else old(order.gatewayPaymentId))
        && byGatewayPaymentId ==
           (if binds then old(byGatewayPaymentId)[id.value := order] else old(byGatewayPaymentId))
    {
      if fulfillThrows {
        return true;
      }
      if id.Some? && |id.value| > 0 {
        if order.gatewayPaymentId.None? {
          RememberGatewayPaymentId(order, id.value);
        } else if order.gatewayPaymentId.value != id.value {
          return false;
        }
      }
      if order.status == PaidOrder {
        return false;
      }
      order.status := PaidOrder;
      order.fulfillCount := order.fulfillCount + 1;
      return false;
    }

    /** The first half of a creation: refuse a known id, record the order, then wait for the provider. */
    method BeginCreate(orderId: string) returns (order: CheckoutOrder?)
      requires Valid()
      modifies this
      ensures Valid() && PaidStaysPaid() && byGatewayPaymentId == old(byGatewayPaymentId)
      ensures order == null <==> orderId in old(orders)
      ensures order == null ==> orders == old(orders) && created == old(created)
      ensures order != null ==>
        && fresh(order) && created == old(created) + {order} && orders == old(orders)[orderId := order]
        && order.orderId == orderId && order.amount == catalogAmount && order.status == Unpaid
        && order.fulfillCount == 0 && order.gatewayPaymentId.None?
    {
      if orderId in orders {
        return null;
      }
      var o := new CheckoutOrder(orderId, catalogAmount);
      orders := orders[orderId := o];
      created := created + {o};
      return o;
    }

    /** The second half: bind the payment id, or forget the order if the provider certainly did nothing. */
    method FinishCreate(order: CheckoutOrder, outcome: CreateOutcome)
      requires Valid() && order in created
      modifies this, order`gatewayPaymentId
      ensures Valid() && PaidStaysPaid() && created == old(created)
      ensures orders == if outcome.OtherTrouble? then old(orders) - {order.orderId} else old(orders)
      ensures
        if outcome.Created? && outcome.gatewayId.Some? && outcome.gatewayId.value != "" then
          && order.gatewayPaymentId == outcome.gatewayId
          && byGatewayPaymentId == old(byGatewayPaymentId)[outcome.gatewayId.value := order]
        else
          && order.gatewayPaymentId == old(order.gatewayPaymentId)
          && byGatewayPaymentId == old(byGatewayPaymentId)
    {
      match outcome {
        case NetworkTrouble =>
        case OtherTrouble => orders := orders - {order.orderId};
        case Created(gatewayId) =>
          if gatewayId.Some? && gatewayId.value != "" {
            RememberGatewayPaymentId(order, gatewayId.value);
          }
      }
    }

    /** The order a webhook is about: by payment id first, then by its order reference. */
    function OrderOf(event: WebhookEvent): (o: CheckoutOrder?)
      reads this
    {
      if event.gatewayPaymentId.Some? && event.gatewayPaymentId.value in byGatewayPaymentId then
        byGatewayPaymentId[event.gatewayPaymentId.value]
      else if event.internalReference !in {None, Some("")} && event.internalReference.value in orders then
        orders[event.internalReference.value]
      else null
    }

    /**
     * A settled webhook pays the order it is about, provided the order is not bound to another payment, and touches no
     * other order; one that is about no order is an error, so that it is delivered again.
     */
    method HandleWebhook(event: WebhookEvent) returns (threw: bool)
      requires Valid()
      modifies this`byGatewayPaymentId, created
      ensures Valid() && PaidStaysPaid() && created == old(created)
      ensures
        var relevant := event.settled && event.gatewayPaymentId !in {None, Some("")};
        var order := old(OrderOf(event));
        && threw == (fulfillThrows || (relevant && order == null))
        && (order != null && relevant && !threw ==>
              if old(order.gatewayPaymentId) in {None, event.gatewayPaymentId}
              then order.status == PaidOrder && order.gatewayPaymentId == event.gatewayPaymentId
              else order.status == old(order.status) && order.gatewayPaymentId == old(order.gatewayPaymentId))
        && (forall o :: o in created && (o != order || !relevant || threw) ==>
              o.status == old(o.status) && o.gatewayPaymentId == old(o.gatewayPaymentId))
        && byGatewayPaymentId ==
           (if order != null && relevant && !threw && old(order.gatewayPaymentId).None?
            then old(byGatewayPaymentId)[event.gatewayPaymentId.value := order] else old(byGatewayPaymentId))
    {
      if fulfillThrows {
        return true;
      }
      if !event.settled || !Known(event.gatewayPaymentId) {
        return false;
      }
      var id := event.gatewayPaymentId.value;
      if id in byGatewayPaymentId {
        threw := Fulfill(byGatewayPaymentId[id], Some(id));
        return;
      }
      if Known(event.internalReference) && event.internalReference.value in orders {
        var candidate := orders[event.internalReference.value];
        if candidate.gatewayPaymentId.None? {
          threw := Fulfill(candidate, Some(id));
        } else if candidate.gatewayPaymentId.value == id {
          threw := Fulfill(candidate, None);
        } else {
          threw := false;
        }
        return;
      }
      return true;
    }

    /** The order a reconciliation job is about. */
    function OrderFromSubject(subjectId: string): CheckoutOrder?
      reads this
    {
      if subjectId in byGatewayPaymentId then byGatewayPaymentId[subjectId]
      else if subjectId in orders then orders[subjectId]
      else null
    }

    /** Carry out what was decided for one order. */
    method CarryOut(order: CheckoutOrder, decision: Policy.Decision) returns (disposition: Disposition)
      requires Valid() && order in created
      requires decision.UpdateLocalToPaid? || decision.UpdateLocalToFailed? ==> order.status == Unpaid
      modifies this`byGatewayPaymentId, order
      ensures Valid() && byGatewayPaymentId == old(byGatewayPaymentId)
      ensures order.gatewayPaymentId == old(order.gatewayPaymentId)
      ensures order.status ==
        if decision.UpdateLocalToPaid? && !fulfillThrows then PaidOrder
        else if decision.UpdateLocalToFailed? then FailedOrder
        else old(order.status)
      ensures old(order.status) == PaidOrder ==> order.fulfillCount == old(order.fulfillCount)
      ensures disposition == DispositionOf(decision, fulfillThrows)
    {
      match decision {
        case MarkConsistent(_) => return Complete;
        case UpdateLocalToPaid(_) =>
          var threw := Fulfill(order, None);
          return if threw then HandlerThrew else Complete;
        case UpdateLocalToFailed(_) =>
          order.status := FailedOrder;
          return Complete;
        case RetryLater(after) => return RetryLaterDisposition(after);
        case DoNotCreateReplacement(_) => return Retry;
        case _ => return ManualReviewDisposition;
      }
    }

    /**
     * One reconciliation job, run without interruption, under any behaviour of the provider lookup.  It moves an order
     * only out of `Unpaid`: to paid exactly when the lookup ends with one payment that is this order's and cleanly paid
     * for its amount, and to failed exactly when that payment failed without moving money.
     */
    method Reconcile(subjectId: string, port: Port) returns (disposition: Disposition)
      requires Valid()
      modifies this`byGatewayPaymentId, created
      ensures Valid() && PaidStaysPaid() && created == old(created) && byGatewayPaymentId == old(byGatewayPaymentId)
      ensures forall o :: o in created ==> o.gatewayPaymentId == old(o.gatewayPaymentId)
      ensures
        var order :=
          if subjectId in byGatewayPaymentId then byGatewayPaymentId[subjectId]
          else if subjectId in orders then orders[subjectId]
          else null;
        && (forall o :: o in created && o != order ==> o.status == old(o.status))
        && (order == null ==> disposition == ManualReviewDisposition)
        && (order != null ==>
              var s, id := old(order.status), order.gatewayPaymentId;
              && (order.status == PaidOrder <==>
                    s == PaidOrder
                    || (s == Unpaid && !fulfillThrows && exists p :: PaidBy(port, order.orderId, order.amount, id, p)))
              && (order.status == FailedOrder <==>
                    s == FailedOrder || (s == Unpaid && exists p :: FailedBy(port, order.orderId, order.amount, id, p)))
              && disposition == DispositionOf(
                   Reconciliation.Decision(JobTarget(order.orderId, order.amount, s, id), port), fulfillThrows))
    {
      var order := OrderFromSubject(subjectId);
      if order == null {
        return ManualReviewDisposition;
      }
      var target := order.RebuildTarget();
      var result := ResolveProviderSnapshot(target, port);
      var decision := Decide(result, target);
      JobMovesExactly(order.orderId, order.amount, order.status, order.gatewayPaymentId, port);
      disposition := CarryOut(order, decision);
    }
  }

  /** The outside world: creations start and finish, webhooks arrive, reconciliation jobs run, in any order. */
  datatype Event =
    | Begin(orderId: string)
    | Finish(i: nat, outcome: CreateOutcome)
    | Webhook(event: WebhookEvent)
    | ReconcileJob(subjectId: string, port: Port)

  /**
   * Fulfil once, over any run: every order ever created has been fulfilled at most once, exactly when it is paid, and
   * an order that was paid at any point stays paid.
   */
  method Run(kernel: Kernel, events: seq<Event>) returns (orders: seq<CheckoutOrder>)
    requires kernel.Valid()
    modifies kernel, kernel.created
    ensures kernel.Valid() && old(kernel.created) <= kernel.created
    ensures forall o :: o in kernel.created ==> o.fulfillCount <= 1 && (o.fulfillCount == 1 <==> o.status == PaidOrder)
    ensures forall o :: o in old(kernel.created) && old(o.status) == PaidOrder ==> o.status == PaidOrder
    ensures forall o :: o in orders ==> o in kernel.created
  {
    orders := [];
    for n := 0 to |events|
      invariant kernel.Valid() && old(kernel.created) <= kernel.created
      invariant fresh(kernel.created - old(kernel.created))
      invariant forall o :: o in old(kernel.created) && old(o.status) == PaidOrder ==> o.status == PaidOrder
      invariant forall o :: o in orders ==> o in kernel.created
    {
      match events[n] {
        case Begin(orderId) =>
          var order := kernel.BeginCreate(orderId);
          if order != null {
            orders := orders + [order];
          }
        case Finish(i, outcome) =>
          if i < |orders| {
            kernel.FinishCreate(orders[i], outcome);
          }
        case Webhook(event) =>
          var _ := kernel.HandleWebhook(event);
        case ReconcileJob(subjectId, port) =>
          var _ := kernel.Reconcile(subjectId, port);
      }
    }
  }
}
