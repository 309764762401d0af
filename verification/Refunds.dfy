/**
 * MyFatoorah refunds: look for an earlier refund under the caller's key, work out what is still refundable, then post.
 * Amounts are minor units.
 */
module Refunds {
  import opened Wrappers

  /** `Void` covers every status that does not hold money: cancelled, failed, rejected or unknown. */
  datatype RefundStatus = Refunded | Pending | Void(name: string)

  /** One entry of the provider's refund list; a missing amount does not parse. */
  datatype Item =
    | Malformed
    | Entry(externalIdentifier: Option<string>, refundId: Option<string>, status: RefundStatus, amount: Option<nat>)

  datatype RefundError =
    | InvoiceAmountMissing
    | UnparseableRefund
    | RemainingInvalid
    | AlreadyFullyRefunded
    | AmountNotPositive
    | ExceedsRemaining
    | RefundIdMissing

  datatype Remaining = Left(units: nat) | Unavailable(error: RefundError)

  predicate Holds(status: RefundStatus) {
    status.Refunded? || status.Pending?
  }

  /** The units refunded or about to be, or `None` if the list cannot be read. */
  function Counted(items: seq<Item>): Option<nat> {
    if items == [] then Some(0)
    else
      var before, last := Counted(items[..|items| - 1]), items[|items| - 1];
      if before.None? || last.Malformed? then None
      else if !Holds(last.status) then before
      else if last.amount.None? then None
      else Some(before.value + last.amount.value)
  }

  function RemainingOf(invoice: Option<nat>, items: seq<Item>): Remaining {
    if invoice.None? then Unavailable(InvoiceAmountMissing)
    else
      match Counted(items)
      case None => Unavailable(UnparseableRefund)
      case Some(counted) =>
        if counted > invoice.value then Unavailable(RemainingInvalid) else Left(invoice.value - counted)
  }

  lemma {:induction false} UnreadablePrefix(items: seq<Item>, n: nat)
    requires n <= |items| && Counted(items[..n]).None?
    ensures Counted(items).None?
    decreases |items| - n
  {
    if n == |items| {
      assert items[..n] == items;
    } else {
      assert items[..n + 1][..n] == items[..n];
      UnreadablePrefix(items, n + 1);
    }
  }

  /** The accumulation over the list, stopping at the first entry it cannot read. */
  method RemainingRefund(invoice: Option<nat>, refunds: Option<seq<Item>>) returns (remaining: Remaining)
    ensures remaining == RemainingOf(invoice, if refunds.Some? then refunds.value else [])
  {
    if invoice.None? {
      return Unavailable(InvoiceAmountMissing);
    }
    if refunds.None? || refunds.value == [] {
      return Left(invoice.value);
    }
    var items := refunds.value;
    var refunded: nat := 0;
    for i := 0 to |items|
      invariant Counted(items[..i]) == Some(refunded)
    {
      assert items[..i + 1][..i] == items[..i];
      var item := items[i];
      if item.Malformed? {
        UnreadablePrefix(items, i + 1);
        return Unavailable(UnparseableRefund);
      }
      if Holds(item.status) {
        if item.amount.None? {
          UnreadablePrefix(items, i + 1);
          return Unavailable(UnparseableRefund);
        }
        refunded := refunded + item.amount.value;
      }
    }
    assert items[..|items|] == items;
    if refunded > invoice.value {
      return Unavailable(RemainingInvalid);
    }
    return Left(invoice.value - refunded);
  }

  /** The last entry carrying the key, if any. */
  function MatchingRefund(items: seq<Item>, key: string): (m: Option<Item>)
    ensures m.Some? <==> exists i :: 0 <= i < |items| && Carries(items[i], key)
    ensures m.Some? ==>
      Carries(m.value, key) && exists i :: 0 <= i < |items| && items[i] == m.value && NoneAfter(items, i, key)
  {
    if items == [] then None
    else
      var last := items[|items| - 1];
      if Carries(last, key) then Some(last)
      else
        MatchingRefund(items[..|items| - 1], key)
  }

  predicate NoneAfter(items: seq<Item>, i: nat, key: string) {
    forall j :: i < j < |items| ==> !Carries(items[j], key)
  }

  predicate Carries(item: Item, key: string) {
    item.Entry? && item.externalIdentifier == Some(key)
  }

  /** What a refund call does after reading the refund list and the invoice. */
  datatype Verdict = Replay(refundId: string) | Refuse(error: RefundError) | PostRefund(amount: nat)

  function Decide(invoice: Option<nat>, items: seq<Item>, key: string, requested: Option<int>): Verdict {
    var existing := MatchingRefund(items, key);
    if existing.Some? then
      if existing.value.refundId.Some? then Replay(existing.value.refundId.value) else Refuse(RefundIdMissing)
    else
      match RemainingOf(invoice, items)
      case Unavailable(error) => Refuse(error)
      case Left(units) =>
        if units == 0 then Refuse(AlreadyFullyRefunded)
        else if requested.None? then PostRefund(units)
        else if requested.value <= 0 then Refuse(AmountNotPositive)
        else if requested.value > units then Refuse(ExceedsRemaining)
        else PostRefund(requested.value)
  }

  // ---------------------------------------------------------------- what is decided

  /** Nothing in the list keeps the total from being worked out. */
  predicate Readable(items: seq<Item>) {
    forall i :: 0 <= i < |items| ==>
      items[i].Entry? && (items[i].status in {Refunded, Pending} ==> items[i].amount.Some?)
  }

  /** What the entries that are refunded or pending come to. */
  function HeldIn(items: seq<Item>): nat {
    if items == [] then 0
    else
      var last := items[|items| - 1];
      HeldIn(items[..|items| - 1])
      + if last.Entry? && last.status in {Refunded, Pending} && last.amount.Some? then last.amount.value else 0
  }

  /** No entry was made under this key. */
  predicate NewKey(items: seq<Item>, key: string) {
    forall i :: 0 <= i < |items| && items[i].Entry? ==> items[i].externalIdentifier != Some(key)
  }

  lemma {:induction false} CountedIsHeld(items: seq<Item>)
    ensures Counted(items) == if Readable(items) then Some(HeldIn(items)) else None
  {
    if items == [] {
    } else {
      var n := |items| - 1;
      CountedIsHeld(items[..n]);
      if Readable(items) {
        assert Readable(items[..n]);
      } else if Readable(items[..n]) {
        assert forall i :: 0 <= i < n ==> items[..n][i] == items[i];
      }
    }
  }

  lemma NewKeyMatchesNothing(items: seq<Item>, key: string)
    ensures MatchingRefund(items, key).None? <==> NewKey(items, key)
  {
    if !NewKey(items, key) {
      var i :| 0 <= i < |items| && items[i].Entry? && items[i].externalIdentifier == Some(key);
      assert Carries(items[i], key);
    } else {
      forall i | 0 <= i < |items| ensures !Carries(items[i], key) {
      }
    }
  }

  /** A new key on a readable list: what there is left is refunded, as far as asked for. */
  predicate NewRefund(left: int, requested: Option<int>, v: Verdict) {
    if left < 0 then v == Refuse(RemainingInvalid)
    else if left == 0 then v == Refuse(AlreadyFullyRefunded)
    else match requested
      case None => v == PostRefund(left)
      case Some(amount) =>
        if amount > left then v == Refuse(ExceedsRemaining)
        else if amount > 0 then v == PostRefund(amount)
        else v == Refuse(AmountNotPositive)
  }

  /** Every answer to a refund call, read off the invoice and the list. */
  lemma RefundIsDecidedExactly(invoice: Option<nat>, items: seq<Item>, key: string, requested: Option<int>)
    ensures var v := Decide(invoice, items, key, requested);
      && (v.Replay? || v == Refuse(RefundIdMissing) <==> !NewKey(items, key))
      && (v == Refuse(InvoiceAmountMissing) <==> NewKey(items, key) && invoice.None?)
      && (v == Refuse(UnparseableRefund) <==> NewKey(items, key) && invoice.Some? && !Readable(items))
      && (NewKey(items, key) && invoice.Some? && Readable(items) ==>
            NewRefund(invoice.value - HeldIn(items), requested, v))
  {
    NewKeyMatchesNothing(items, key);
    CountedIsHeld(items);
  }

  /** A key that was used is answered with the id of the last entry made under it, or an error if that has none. */
  lemma UsedKeysReplayTheLast(invoice: Option<nat>, items: seq<Item>, key: string, requested: Option<int>, i: nat)
    requires i < |items| && items[i].Entry? && items[i].externalIdentifier == Some(key) && NewKey(items[i + 1..], key)
    ensures Decide(invoice, items, key, requested) ==
      if items[i].refundId.Some? then Replay(items[i].refundId.value) else Refuse(RefundIdMissing)
  {
    assert Carries(items[i], key);
    assert forall m :: i < m < |items| ==> items[m] == items[i + 1..][m - i - 1];
  }

  // ---------------------------------------------------------------- the provider

  datatype Refund = Refund(key: string, id: string, amount: nat, status: RefundStatus)

  /** The provider's books for one invoice. */
  datatype Books = Books(invoice: nat, refunds: seq<Refund>)

  function ItemOf(r: Refund): Item {
    Entry(Some(r.key), Some(r.id), r.status, Some(r.amount))
  }

  function Listing(refunds: seq<Refund>): (items: seq<Item>)
    ensures |items| == |refunds| && forall i :: 0 <= i < |items| ==> items[i] == ItemOf(refunds[i])
  {
    seq(|refunds|, i requires 0 <= i < |refunds| => ItemOf(refunds[i]))
  }

  function Total(refunds: seq<Refund>): nat {
    if refunds == [] then 0
    else
      Total(refunds[..|refunds| - 1]) + Held(refunds[|refunds| - 1])
  }

  function Held(r: Refund): nat {
    match r.status
    case Refunded => r.amount
    case Pending => r.amount
    case Void(_) => 0
  }

  /**
   * A refund call, whose request the provider records as pending or does not record at all, whether or not the answer
   * reaches the caller; or a change of one refund's status on the provider's side.
   */
  datatype Event =
    | Call(key: string, requested: Option<int>, newId: string, recorded: bool)
    | StatusChange(i: nat, status: RefundStatus)

  /** The provider brings money back into a refund that had let go of it. */
  predicate Revives(b: Books, e: Event) {
    e.StatusChange? && e.i < |b.refunds| && !Holds(b.refunds[e.i].status) && Holds(e.status)
  }

  /** What comes back with a revival is still covered by the invoice. */
  predicate Fits(b: Books, e: Event) {
    Revives(b, e) ==> b.refunds[e.i].amount <= b.invoice - Total(b.refunds)
  }

  function VerdictOn(b: Books, e: Event): Verdict
    requires e.Call?
  {
    Decide(Some(b.invoice), Listing(b.refunds), e.key, e.requested)
  }

  function Apply(b: Books, e: Event): Books {
    match e
    case Call(key, _, newId, recorded) =>
      var v := VerdictOn(b, e);
      if v.PostRefund? && recorded then b.(refunds := b.refunds + [Refund(key, newId, v.amount, Pending)]) else b
    case StatusChange(i, status) =>
      if i < |b.refunds| then b.(refunds := b.refunds[i := b.refunds[i].(status := status)]) else b
  }

  // ---------------------------------------------------------------- invariants

  ghost predicate KeysDistinct(b: Books) {
    forall i, j :: 0 <= i < j < |b.refunds| ==> b.refunds[i].key != b.refunds[j].key
  }

  predicate WithinInvoice(b: Books) {
    Total(b.refunds) <= b.invoice
  }

  /** The refunds that hold money never exceed the invoice, and no key has two refunds. */
  ghost predicate Sound(b: Books) {
    WithinInvoice(b) && KeysDistinct(b)
  }

  lemma {:induction false} CountedIsTotal(refunds: seq<Refund>)
    ensures Counted(Listing(refunds)) == Some(Total(refunds))
  {
    if refunds == [] {
    } else {
      var n := |refunds| - 1;
      CountedIsTotal(refunds[..n]);
      assert Listing(refunds)[..n] == Listing(refunds[..n]);
    }
  }

  /**
   * The amount a new call may still refund is exactly the invoice less what is held: nothing is lost or counted twice.
   * Once more is held than was invoiced, every call that is not a replay fails.
   */
  lemma RemainingIsConserved(b: Books)
    ensures RemainingOf(Some(b.invoice), Listing(b.refunds)) ==
      if WithinInvoice(b) then Left(b.invoice - Total(b.refunds)) else Unavailable(RemainingInvalid)
  {
    CountedIsTotal(b.refunds);
  }

  lemma TotalOfAppend(refunds: seq<Refund>, r: Refund)
    ensures Total(refunds + [r]) == Total(refunds) + Held(r)
  {
    var more := refunds + [r];
    assert more[..|more| - 1] == refunds;
  }

  /** A status change moves the total by what the one refund holds before and after. */
  lemma {:induction false} TotalAfterChange(refunds: seq<Refund>, i: nat, changed: Refund)
    requires i < |refunds|
    ensures Total(refunds[i := changed]) + Held(refunds[i]) == Total(refunds) + Held(changed)
    decreases |refunds|
  {
    var n := |refunds| - 1;
    var after := refunds[i := changed];
    if i == n {
      assert after[..n] == refunds[..n];
    } else {
      TotalAfterChange(refunds[..n], i, changed);
      assert after[..n] == refunds[..n][i := changed];
    }
  }

  /** A new call posts no more than what is left; so a step leaves the bound exactly when a revival does not fit. */
  lemma BoundIsKeptIff(b: Books, e: Event)
    requires WithinInvoice(b)
    ensures WithinInvoice(Apply(b, e)) <==> Fits(b, e)
  {
    match e
    case Call(key, _, newId, recorded) =>
      var v := VerdictOn(b, e);
      if v.PostRefund? && recorded {
        RemainingIsConserved(b);
        TotalOfAppend(b.refunds, Refund(key, newId, v.amount, Pending));
      }
    case StatusChange(i, status) =>
      if i < |b.refunds| {
        TotalAfterChange(b.refunds, i, b.refunds[i].(status := status));
      }
  }

  lemma UnmatchedKeyIsNew(refunds: seq<Refund>, key: string)
    requires MatchingRefund(Listing(refunds), key).None?
    ensures forall i :: 0 <= i < |refunds| ==> refunds[i].key != key
  {
    var items := Listing(refunds);
    forall i | 0 <= i < |refunds| ensures refunds[i].key != key {
      assert items[i] == ItemOf(refunds[i]) && !Carries(items[i], key);
    }
  }

  lemma ApplyKeepsKeysDistinct(b: Books, e: Event)
    requires KeysDistinct(b)
    ensures KeysDistinct(Apply(b, e))
  {
    var after := Apply(b, e).refunds;
    if e.Call? && VerdictOn(b, e).PostRefund? && e.recorded {
      UnmatchedKeyIsNew(b.refunds, e.key);
      forall i, j | 0 <= i < j < |after| ensures after[i].key != after[j].key {
        if j == |b.refunds| {
          assert after[i] == b.refunds[i];
        } else {
          assert after[i] == b.refunds[i] && after[j] == b.refunds[j];
        }
      }
    }
  }

  /** No refund was made under this key. */
  predicate Unused(b: Books, key: string) {
    forall i :: 0 <= i < |b.refunds| ==> b.refunds[i].key != key
  }

  lemma {:induction false} HeldInListing(refunds: seq<Refund>)
    ensures HeldIn(Listing(refunds)) == Total(refunds) && Readable(Listing(refunds))
  {
    if refunds == [] {
    } else {
      var n := |refunds| - 1;
      HeldInListing(refunds[..n]);
      assert Listing(refunds)[..n] == Listing(refunds[..n]);
    }
  }

  lemma UnusedIsNew(b: Books, key: string)
    ensures Unused(b, key) <==> NewKey(Listing(b.refunds), key)
  {
    var items := Listing(b.refunds);
    forall i | 0 <= i < |b.refunds|
      ensures items[i].externalIdentifier == Some(b.refunds[i].key) && items[i].Entry?
    {
      assert items[i] == ItemOf(b.refunds[i]);
    }
  }

  /**
   * On the provider's books: a refund is posted exactly under an unused key, for the requested amount if that is
   * positive and left, or for all that is left; and each refusal has its own condition.
   */
  lemma CallsAreAnsweredExactly(b: Books, e: Event)
    requires e.Call?
    ensures var v, left := VerdictOn(b, e), b.invoice - Total(b.refunds);
      && (v.Replay? <==> !Unused(b, e.key))
      && (forall a: nat :: v == PostRefund(a) <==>
            Unused(b, e.key) && 0 < a <= left && a == (if e.requested.Some? then e.requested.value else left))
      && (v == Refuse(AlreadyFullyRefunded) <==> Unused(b, e.key) && left == 0)
      && (v == Refuse(AmountNotPositive) <==>
            Unused(b, e.key) && left > 0 && e.requested.Some? && e.requested.value <= 0)
      && (v == Refuse(ExceedsRemaining) <==>
            Unused(b, e.key) && left > 0 && e.requested.Some? && e.requested.value > left)
      && (v == Refuse(RemainingInvalid) <==> Unused(b, e.key) && left < 0)
  {
    var items := Listing(b.refunds);
    HeldInListing(b.refunds);
    UnusedIsNew(b, e.key);
    RefundIsDecidedExactly(Some(b.invoice), items, e.key, e.requested);
    NewKeyMatchesNothing(items, e.key);
    if !Unused(b, e.key) {
      UsedKeyHasAnId(b.refunds, e.key);
    }
  }

  lemma UsedKeyHasAnId(refunds: seq<Refund>, key: string)
    requires MatchingRefund(Listing(refunds), key).Some?
    ensures MatchingRefund(Listing(refunds), key).value.refundId.Some?
  {
    var items := Listing(refunds);
    var m := MatchingRefund(items, key).value;
    var i :| 0 <= i < |items| && items[i] == m;
    assert items[i] == ItemOf(refunds[i]);
  }

  // ---------------------------------------------------------------- runs

  function After(b: Books, es: seq<Event>, n: nat): (after: Books)
    requires n <= |es|
    ensures after.invoice == b.invoice
  {
    if n == 0 then b else Apply(After(b, es, n - 1), es[n - 1])
  }

  predicate WithinAt(b: Books, es: seq<Event>, n: nat)
    requires n <= |es|
  {
    WithinInvoice(After(b, es, n))
  }

  /** The books stay within the invoice up to and including step `n`. */
  ghost predicate StaysWithin(b: Books, es: seq<Event>, n: nat)
    requires n <= |es|
  {
    forall i {:trigger WithinAt(b, es, i)} :: 0 <= i <= n ==> WithinAt(b, es, i)
  }

  predicate FitsAt(b: Books, es: seq<Event>, n: nat)
    requires n < |es|
  {
    Fits(After(b, es, n), es[n])
  }

  /** Whatever the provider revives within the first `n` steps still fits when it does. */
  ghost predicate RevivalsFit(b: Books, es: seq<Event>, n: nat)
    requires n <= |es|
  {
    forall i {:trigger FitsAt(b, es, i)} :: 0 <= i < n ==> FitsAt(b, es, i)
  }

  lemma StepKeepsBoundIff(b: Books, es: seq<Event>, i: nat, next: nat)
    requires next == i + 1 <= |es| && WithinAt(b, es, i)
    ensures WithinAt(b, es, next) <==> FitsAt(b, es, i)
  {
    BoundIsKeptIff(After(b, es, i), es[i]);
  }

  lemma {:induction false} FittingRevivalsKeepTheBound(b: Books, es: seq<Event>, n: nat)
    requires WithinInvoice(b) && n <= |es| && RevivalsFit(b, es, n)
    ensures WithinAt(b, es, n)
  {
    if n == 0 {
    } else {
      FittingRevivalsKeepTheBound(b, es, n - 1);
      assert FitsAt(b, es, n - 1);
      StepKeepsBoundIff(b, es, n - 1, n);
    }
  }

  lemma BoundedRunsReviveWhatFits(b: Books, es: seq<Event>, n: nat)
    requires n <= |es| && StaysWithin(b, es, n)
    ensures RevivalsFit(b, es, n)
  {
    forall i | 0 <= i < n ensures FitsAt(b, es, i) {
      var next := i + 1;
      assert WithinAt(b, es, i) && WithinAt(b, es, next);
      StepKeepsBoundIff(b, es, i, next);
    }
  }

  /**
   * Over any run, what is refunded or pending stays within the invoice exactly when every revived refund still fits at
   * the moment it comes back.
   */
  lemma BoundHoldsIffRevivalsFit(b: Books, es: seq<Event>, n: nat)
    requires WithinInvoice(b) && n <= |es|
    ensures StaysWithin(b, es, n) <==> RevivalsFit(b, es, n)
  {
    if StaysWithin(b, es, n) {
      BoundedRunsReviveWhatFits(b, es, n);
    } else if RevivalsFit(b, es, n) {
      forall i | 0 <= i <= n ensures WithinAt(b, es, i) {
        FittingRevivalsKeepTheBound(b, es, i);
      }
    }
  }

  /** Over any run, whatever the provider does to the statuses, no key ever has two refunds. */
  lemma {:induction false} KeysStayDistinct(b: Books, es: seq<Event>, n: nat)
    requires KeysDistinct(b) && n <= |es|
    ensures KeysDistinct(After(b, es, n))
  {
    if n == 0 {
    } else {
      KeysStayDistinct(b, es, n - 1);
      ApplyKeepsKeysDistinct(After(b, es, n - 1), es[n - 1]);
    }
  }

  /** Sound books stay sound over any run whose revivals fit, so in particular over any run without revivals. */
  lemma RunsAreSound(b: Books, es: seq<Event>, n: nat)
    requires Sound(b) && n <= |es| && RevivalsFit(b, es, n)
    ensures Sound(After(b, es, n))
  {
    FittingRevivalsKeepTheBound(b, es, n);
    KeysStayDistinct(b, es, n);
  }

  /**
   * The "unparseable" error cannot occur in a run, a posted amount is positive and covered, and "remaining is invalid"
   * is the answer exactly to a new key while the total is above the invoice: never, unless an earlier revival did not
   * fit.
   */
  lemma ErrorsOccurIff(b: Books, es: seq<Event>, n: nat)
    requires n < |es| && es[n].Call?
    ensures
      var before := After(b, es, n);
      var v := VerdictOn(before, es[n]);
      && v != Refuse(UnparseableRefund) && v != Refuse(InvoiceAmountMissing)
      && (v == Refuse(RemainingInvalid) <==>
          !WithinInvoice(before) && MatchingRefund(Listing(before.refunds), es[n].key).None?)
      && (v.PostRefund? ==> 0 < v.amount <= b.invoice - Total(before.refunds))
      && (v == Refuse(RemainingInvalid) && WithinInvoice(b) ==> !RevivalsFit(b, es, n))
  {
    RemainingIsConserved(After(b, es, n));
    if WithinInvoice(b) && RevivalsFit(b, es, n) {
      FittingRevivalsKeepTheBound(b, es, n);
    }
  }

  /** The refund with this key and id sits in this slot of the books. */
  ghost predicate Recorded(b: Books, slot: nat, key: string, id: string) {
    slot < |b.refunds| && b.refunds[slot].key == key && b.refunds[slot].id == id
  }

  lemma ApplyKeepsRecords(b: Books, e: Event, slot: nat, key: string, id: string)
    requires Recorded(b, slot, key, id)
    ensures Recorded(Apply(b, e), slot, key, id)
  {
  }

  lemma {:induction false} RecordsStay(b: Books, es: seq<Event>, i: nat, n: nat, slot: nat, key: string, id: string)
    requires i <= n <= |es| && Recorded(After(b, es, i), slot, key, id)
    ensures Recorded(After(b, es, n), slot, key, id)
    decreases n
  {
    if i == n {
    } else {
      RecordsStay(b, es, i, n - 1, slot, key, id);
      ApplyKeepsRecords(After(b, es, n - 1), es[n - 1], slot, key, id);
    }
  }

  /** A key that has a refund, in whatever status, only ever replays that refund. */
  lemma KeysReplayForever(b: Books, es: seq<Event>, i: nat, n: nat, slot: nat, key: string, id: string)
    requires KeysDistinct(b) && i <= n < |es|
    requires Recorded(After(b, es, i), slot, key, id) && es[n].Call? && es[n].key == key
    ensures VerdictOn(After(b, es, n), es[n]) == Replay(id)
  {
    RecordsStay(b, es, i, n, slot, key, id);
    KeysStayDistinct(b, es, n);
    OnlyOneMatches(After(b, es, n), slot);
  }

  lemma OnlyOneMatches(b: Books, slot: nat)
    requires KeysDistinct(b) && slot < |b.refunds|
    ensures MatchingRefund(Listing(b.refunds), b.refunds[slot].key) == Some(ItemOf(b.refunds[slot]))
  {
    var items := Listing(b.refunds);
    assert Carries(items[slot], b.refunds[slot].key);
    var m := MatchingRefund(items, b.refunds[slot].key).value;
    var i :| 0 <= i < |items| && items[i] == m;
    assert b.refunds[i].key == b.refunds[slot].key;
    assert i == slot;
  }

  /** Refunding "the rest" leaves nothing: the next new key is refused. */
  lemma FullRefundLeavesNothing(b: Books, e: Event, next: Event)
    requires e.Call? && e.requested.None? && e.recorded && VerdictOn(b, e).PostRefund?
    requires next.Call? && MatchingRefund(Listing(Apply(b, e).refunds), next.key).None?
    ensures VerdictOn(Apply(b, e), next) == Refuse(AlreadyFullyRefunded)
  {
    RemainingIsConserved(b);
    RemainingIsConserved(Apply(b, e));
    TotalOfAppend(b.refunds, Refund(e.key, e.newId, VerdictOn(b, e).amount, Pending));
  }

  lemma NewKeyRefundsTheRest(b: Books, e: Event)
    requires e.Call? && e.requested.None? && e.recorded && WithinInvoice(b) && Total(b.refunds) < b.invoice
    requires forall i :: 0 <= i < |b.refunds| ==> b.refunds[i].key != e.key
    ensures Apply(b, e) ==
      b.(refunds := b.refunds + [Refund(e.key, e.newId, b.invoice - Total(b.refunds), Pending)])
  {
    RemainingIsConserved(b);
    var items := Listing(b.refunds);
    assert forall i :: 0 <= i < |items| ==> !Carries(items[i], e.key);
  }

  lemma TotalOfTwo(r: Refund, s: Refund)
    ensures Total([r]) == Held(r) && Total([r, s]) == Held(r) + Held(s)
  {
    TotalOfAppend([], r);
    TotalOfAppend([r], s);
    assert [] + [r] == [r] && [r] + [s] == [r, s];
  }

  lemma RunOfFour(b: Books, es: seq<Event>, b1: Books, b2: Books, b3: Books, b4: Books)
    requires |es| == 4 && b1 == Apply(b, es[0]) && b2 == Apply(b1, es[1])
    requires b3 == Apply(b2, es[2]) && b4 == Apply(b3, es[3])
    ensures After(b, es, 1) == b1 && After(b, es, 2) == b2 && After(b, es, 3) == b3 && After(b, es, 4) == b4
  {
    assert After(b, es, 0) == b;
    assert After(b, es, 1) == b1;
    assert After(b, es, 2) == b2;
    assert After(b, es, 3) == b3;
  }

  /** Refund everything, lose that refund, refund everything again under another key, and get the first one back. */
  function RevivingRun(key: string, other: string, gone: RefundStatus): seq<Event> {
    [Call(key, None, "1", true), StatusChange(0, gone), Call(other, None, "2", true), StatusChange(0, Pending)]
  }

  lemma RefundAndLose(invoice: nat, key: string, gone: RefundStatus, b1: Books, b2: Books)
    requires invoice > 0 && !Holds(gone)
    requires b1 == Apply(Books(invoice, []), Call(key, None, "1", true)) && b2 == Apply(b1, StatusChange(0, gone))
    ensures b2 == Books(invoice, [Refund(key, "1", invoice, gone)])
  {
    NewKeyRefundsTheRest(Books(invoice, []), Call(key, None, "1", true));
    assert b1.refunds == [Refund(key, "1", invoice, Pending)];
    assert b2.refunds == [Refund(key, "1", invoice, gone)];
  }

  lemma RefundAgain(b2: Books, lost: Refund, other: string, b3: Books)
    requires b2.refunds == [lost] && !Holds(lost.status) && lost.key != other && b2.invoice > 0
    requires b3 == Apply(b2, Call(other, None, "2", true))
    ensures b3 == Books(b2.invoice, [lost, Refund(other, "2", b2.invoice, Pending)]) && Total(b3.refunds) == b2.invoice
  {
    var second := Refund(other, "2", b2.invoice, Pending);
    TotalOfTwo(lost, second);
    NewKeyRefundsTheRest(b2, Call(other, None, "2", true));
    assert b3.refunds == [lost, second];
  }

  lemma ReviveTheLost(b3: Books, b4: Books)
    requires |b3.refunds| == 2 && Total(b3.refunds) == b3.invoice > 0
    requires !Holds(b3.refunds[0].status) && b3.refunds[0].amount == b3.invoice
    requires b4 == Apply(b3, StatusChange(0, Pending))
    ensures !Fits(b3, StatusChange(0, Pending)) && Total(b4.refunds) == 2 * b3.invoice && b4.invoice == b3.invoice
  {
    TotalAfterChange(b3.refunds, 0, b3.refunds[0].(status := Pending));
  }

  /**
   * From empty books, for any invoice, any two keys and any status that lets go of the money, reviving breaks the
   * bound: the books are within the invoice up to the revival, and twice the invoice is held after it.
   */
  lemma RevivalBreaksTheBound(invoice: nat, key: string, other: string, gone: RefundStatus)
    returns (before: Books, after: Books)
    requires invoice > 0 && key != other && !Holds(gone)
    ensures var b, es := Books(invoice, []), RevivingRun(key, other, gone);
      before == After(b, es, 3) && after == After(b, es, 4) && !Fits(before, es[3])
    ensures WithinInvoice(before) && Total(after.refunds) == 2 * invoice
    ensures RemainingOf(Some(invoice), Listing(after.refunds)) == Unavailable(RemainingInvalid)
  {
    var b, es := Books(invoice, []), RevivingRun(key, other, gone);
    var b1 := Apply(b, es[0]);
    var b2 := Apply(b1, es[1]);
    before := Apply(b2, es[2]);
    after := Apply(before, es[3]);
    RunOfFour(b, es, b1, b2, before, after);
    RefundAndLose(invoice, key, gone, b1, b2);
    RefundAgain(b2, b2.refunds[0], other, before);
    ReviveTheLost(before, after);
    RemainingIsConserved(after);
  }

  // ---------------------------------------------------------------- the call

  /** The refund call up to its decision: replay first, then the remainder, then the requested amount. */
  method RefundPayment(invoice: Option<nat>, refunds: Option<seq<Item>>, key: string, requested: Option<int>)
    returns (v: Verdict)
    ensures
      var items := if refunds.Some? then refunds.value else [];
      && v == Decide(invoice, items, key, requested)
      && (NewKey(items, key) && invoice.Some? && Readable(items) ==>
            NewRefund(invoice.value - HeldIn(items), requested, v))
  {
    RefundIsDecidedExactly(invoice, if refunds.Some? then refunds.value else [], key, requested);
    var existing := MatchingRefund(if refunds.Some? then refunds.value else [], key);
    if existing.Some? {
      if existing.value.refundId.None? {
        return Refuse(RefundIdMissing);
      }
      return Replay(existing.value.refundId.value);
    }
    var remaining := RemainingRefund(invoice, refunds);
    if remaining.Unavailable? {
      return Refuse(remaining.error);
    }
    if remaining.units == 0 {
      return Refuse(AlreadyFullyRefunded);
    }
    if requested.None? {
      return PostRefund(remaining.units);
    }
    if requested.value <= 0 {
      return Refuse(AmountNotPositive);
    }
    if requested.value > remaining.units {
      return Refuse(ExceedsRemaining);
    }
    return PostRefund(requested.value);
  }
}
