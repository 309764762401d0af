/**
 * Whole runs of the job store: any number of workers, any order of calls, a clock that never goes back.
 *
 * `RowMoves` says what one call can do to one row, whatever the call was aimed at; everything else here is
 * an induction over runs that looks at the store through that relation only.
 */
module LeaseRuns {
  import opened Wrappers
  import opened LeaseStore

  datatype Event = Event(now: int, op: Op)

  function KeyOf(op: Op): Option<Key> {
    if op.ListDue? || op.ListTerminal? || op.DeleteExpired? || op.SimulateCrash? then None else Some(op.key)
  }

  /** What a call meant for the row `k`, judged by its reply. */
  datatype Effect = Opening | Granting | Renewing | Ending | Quiet

  function EffectOn(k: Key, op: Op, reply: Reply): Effect {
    if KeyOf(op) != Some(k) then Quiet
    else if op.Schedule? && reply.Opened? then Opening
    else if op.Claim? && reply.Acquired? then Granting
    else if op.Renew? && reply.Renewed? then Renewing
    else if (op.Complete? || op.Fail? || op.MarkManualReview?) && reply.Accepted? then Ending
    else Quiet
  }

  function EndStatus(op: Op): Status
    requires op.Complete? || op.Fail? || op.MarkManualReview?
  {
    if op.Complete? then Completed
    else if op.MarkManualReview? then ManualReview
    else if op.retryAt.Some? then Scheduled
    else Failed
  }

  predicate SameJob(r: Record, subjectId: string, reason: string) {
    r.subjectId == subjectId && r.reason == reason
  }

  predicate Unleased(r: Record) {
    r.leaseOwner.None? && r.leaseToken.None? && r.leaseExpiresAt.None?
  }

  /** A lease has run out: the row is back in the queue and has got its attempt back. */
  predicate Requeued(before: Record, after: Record, now: int) {
    && before.status == Claimed && before.leaseExpiresAt.Some? && before.leaseExpiresAt.value <= now
    && after == before.(status := Scheduled, attempts := Max(0, before.attempts - 1), updatedAt := now,
                        leaseOwner := None, leaseToken := None, leaseExpiresAt := None)
  }

  /** The row is claimed under a lease that is still running. */
  predicate Running(r: Record, now: int) {
    r.status == Claimed && r.leaseExpiresAt.Some? && now < r.leaseExpiresAt.value
  }

  ghost predicate RowMoves(k: Key, before: Option<Record>, after: Option<Record>, now: int, op: Op, reply: Reply) {
    match EffectOn(k, op, reply)
    case Quiet =>
      || after == before
      || (before.Some? && after.Some? && Requeued(before.value, after.value, now))
      || (before.Some? && after.None? && !Running(before.value, now))
    case Opening =>
      && after == Some(reply.record) && SameJob(after.value, op.subjectId, op.reason) && after.value.dueAt == op.dueAt
      && after.value.key == k && after.value.status == Scheduled && after.value.attempts == 0 && Unleased(after.value)
      && after.value.lastError == None && after.value.updatedAt == now
      && (before.None? ==> after.value.generation == 0 && after.value.createdAt == now)
      && (before.Some? ==> after.value.createdAt == before.value.createdAt)
      && (before.Some? ==> before.value.status in {Completed, Failed, ManualReview})
      && (before.Some? ==> after.value.generation == before.value.generation)
    case Granting =>
      && before.Some? && after == Some(reply.record) && reply.token == Token(now, before.value.generation + 1, op.nonce)
      && !Running(before.value, now) && before.value.status in {Scheduled, Claimed} && before.value.dueAt <= now
      && after.value == before.value.(
           status := Claimed, leaseOwner := Some(op.owner), leaseToken := Some(reply.token),
           leaseExpiresAt := Some(now + op.leaseMs), generation := before.value.generation + 1, updatedAt := now,
           attempts := after.value.attempts)
      && (before.value.status == Scheduled ==> after.value.attempts == before.value.attempts + 1)
      && (before.value.status == Claimed && before.value.leaseExpiresAt.Some? ==>
            after.value.attempts == Max(0, before.value.attempts - 1) + 1)
    case Renewing =>
      && before.Some? && after == Some(reply.record) && reply.token == Token(now, before.value.generation + 1, op.nonce)
      && Running(before.value, now) && before.value.leaseToken == Some(op.token)
      && after.value == before.value.(
           leaseToken := Some(reply.token), leaseExpiresAt := Some(now + op.leaseMs),
           generation := before.value.generation + 1, updatedAt := now)
    case Ending =>
      && before.Some? && after.Some? && before.value.status == Claimed && before.value.leaseToken == Some(op.token)
      && (op.Fail? || Running(before.value, now))
      && after.value == before.value.(
           status := EndStatus(op), leaseOwner := None, leaseToken := None, leaseExpiresAt := None, updatedAt := now,
           dueAt := if op.Fail? && op.retryAt.Some? then op.retryAt.value else before.value.dueAt,
           lastError :=
             if op.Fail? then Some(op.error)
             else if op.MarkManualReview? && op.note.Some? then op.note
             else before.value.lastError)
  }

  lemma ScheduleMoves(s: Store, now: int, op: Op, k: Key)
    requires WellFormed(s) && op.Schedule?
    ensures var (s', reply) := Perform(s, now, op); RowMoves(k, Row(s, k), Row(s', k), now, op, reply)
  {
    if op.key !in s.rows {
      var (room, ok) := EnforceCap(s, op.key, now);
      assert k in s.rows && k !in room.rows ==> !Live(s.rows[k], now);
    }
  }

  lemma ListDueMoves(s: Store, now: int, op: Op, k: Key)
    requires WellFormed(s) && op.ListDue?
    ensures var (s', reply) := Perform(s, now, op); RowMoves(k, Row(s, k), Row(s', k), now, op, reply)
  {
    ListFromRows(s.order, s.rows, now, if op.dueBy.Some? then op.dueBy.value else now, op.limit, []);
  }

  lemma DeleteExpiredMoves(s: Store, now: int, op: Op, k: Key)
    requires WellFormed(s) && op.DeleteExpired?
    ensures var (s', reply) := Perform(s, now, op); RowMoves(k, Row(s, k), Row(s', k), now, op, reply)
  {
    DeleteFromDrops(s.order, s, op.before, op.atMost, 0);
  }

  lemma ReleaseKeepsTheJob(r: Record, now: int)
    ensures var released := Released(r, now);
      && released.generation == r.generation && released.dueAt == r.dueAt && (Live(released, now) <==> Live(r, now))
      && (IsTerminal(released.status) <==> IsTerminal(r.status))
  {
  }

  lemma ClaimLeavesOthers(s: Store, now: int, op: Op, k: Key)
    requires WellFormed(s) && op.Claim? && (k != op.key || k !in s.rows)
    ensures var (s', reply) := DoClaim(s, now, op.key, op.owner, op.leaseMs, op.nonce);
      EffectOn(k, op, reply).Quiet? && Row(s', k) == Row(s, k)
  {
  }

  lemma ClaimMovesItsRow(s: Store, now: int, op: Op)
    requires WellFormed(s) && op.Claim? && op.key in s.rows
    ensures var (s', reply) := DoClaim(s, now, op.key, op.owner, op.leaseMs, op.nonce);
      RowMoves(op.key, Row(s, op.key), Row(s', op.key), now, op, reply)
  {
    var (s', reply) := DoClaim(s, now, op.key, op.owner, op.leaseMs, op.nonce);
    ReleaseKeepsTheJob(s.rows[op.key], now);
    if !reply.Acquired? {
      assert Row(s', op.key) == Some(Released(s.rows[op.key], now));
    }
  }

  lemma ClaimMoves(s: Store, now: int, op: Op, k: Key)
    requires WellFormed(s) && op.Claim?
    ensures var (s', reply) := Perform(s, now, op); RowMoves(k, Row(s, k), Row(s', k), now, op, reply)
  {
    if k != op.key || k !in s.rows {
      ClaimLeavesOthers(s, now, op, k);
    } else {
      ClaimMovesItsRow(s, now, op);
    }
  }

  lemma RenewMoves(s: Store, now: int, op: Op, k: Key)
    requires WellFormed(s) && op.Renew?
    ensures var (s', reply) := Perform(s, now, op); RowMoves(k, Row(s, k), Row(s', k), now, op, reply)
  {
  }

  lemma CompleteMoves(s: Store, now: int, op: Op, k: Key)
    requires WellFormed(s) && op.Complete?
    ensures var (s', reply) := Perform(s, now, op); RowMoves(k, Row(s, k), Row(s', k), now, op, reply)
  {
  }

  lemma FailMoves(s: Store, now: int, op: Op, k: Key)
    requires WellFormed(s) && op.Fail?
    ensures var (s', reply) := Perform(s, now, op); RowMoves(k, Row(s, k), Row(s', k), now, op, reply)
  {
  }

  lemma ReviewMoves(s: Store, now: int, op: Op, k: Key)
    requires WellFormed(s) && op.MarkManualReview?
    ensures var (s', reply) := Perform(s, now, op); RowMoves(k, Row(s, k), Row(s', k), now, op, reply)
  {
  }

  /** Every call, whatever it is and whichever key it names, moves every row in one of the listed ways. */
  lemma EveryStepMovesRows(s: Store, now: int, op: Op, k: Key)
    requires WellFormed(s)
    ensures var (s', reply) := Step(s, now, op); RowMoves(k, Row(s, k), Row(s', k), now, op, reply)
  {
    if !(Guarded(op) && s.failNextMutation) {
      match op
      case Schedule(_, _, _, _) => ScheduleMoves(s, now, op, k);
      case ListDue(_, _) => ListDueMoves(s, now, op, k);
      case DeleteExpired(_, _) => DeleteExpiredMoves(s, now, op, k);
      case Claim(_, _, _, _) => ClaimMoves(s, now, op, k);
      case Get(_) =>
      case ListTerminal(_) =>
      case SimulateCrash(_) =>
      case Renew(_, _, _, _) => RenewMoves(s, now, op, k);
      case Complete(_, _) => CompleteMoves(s, now, op, k);
      case Fail(_, _, _, _) => FailMoves(s, now, op, k);
      case MarkManualReview(_, _, _) => ReviewMoves(s, now, op, k);
    }
  }

  /** A refused fenced call, or one that met the crash boundary, leaves every row and their order as they were. */
  lemma RefusedCallsChangeNothing(s: Store, now: int, op: Op)
    requires WellFormed(s)
    requires op.Complete? || op.Fail? || op.MarkManualReview? || op.Renew?
    requires var reply := Step(s, now, op).1; !reply.Accepted? && !reply.Renewed?
    ensures var s' := Step(s, now, op).0; s'.rows == s.rows && s'.order == s.order
  {
  }

  // ---------------------------------------------------------------- runs

  /** A run: the calls, their replies, and the store before the first call and after each one. */
  datatype Run = Run(events: seq<Event>, replies: seq<Reply>, states: seq<Store>)

  ghost predicate Shaped(r: Run) {
    |r.replies| == |r.events| && |r.states| == |r.events| + 1
  }

  ghost predicate Stepped(r: Run, i: nat)
    requires Shaped(r) && i < |r.events|
  {
    && WellFormed(r.states[i])
    && Step(r.states[i], r.events[i].now, r.events[i].op) == (r.states[i + 1], r.replies[i])
  }

  ghost predicate IsRun(r: Run) {
    && Shaped(r)
    && r.states[0] == Empty(r.states[0].maxEntries)
    && forall i {:trigger Stepped(r, i)} :: 0 <= i < |r.events| ==> Stepped(r, i)
  }

  /** Every sequence of calls is the call sequence of a run. */
  lemma {:induction false} EveryCallSequenceRuns(events: seq<Event>, maxEntries: Option<int>) returns (r: Run)
    ensures IsRun(r) && r.states[0].maxEntries == maxEntries && r.events == events && WellFormed(r.states[|events|])
  {
    if events == [] {
      r := Run([], [], [Empty(maxEntries)]);
    } else {
      var n := |events| - 1;
      var r0 := EveryCallSequenceRuns(events[..n], maxEntries);
      var e := events[n];
      StepWellFormed(r0.states[n], e.now, e.op);
      var (s, reply) := Step(r0.states[n], e.now, e.op);
      r := Run(events, r0.replies + [reply], r0.states + [s]);
      forall i | 0 <= i < |r.events| ensures Stepped(r, i) {
        assert i < n ==> Stepped(r0, i);
      }
    }
  }

  function RowAt(r: Run, i: nat, k: Key): Option<Record>
    requires Shaped(r) && i <= |r.events|
  {
    Row(r.states[i], k)
  }

  function EffectAt(r: Run, i: nat, k: Key): Effect
    requires Shaped(r) && i < |r.events|
  {
    EffectOn(k, r.events[i].op, r.replies[i])
  }

  ghost predicate MonotoneClock(r: Run) {
    forall i, j :: 0 <= i <= j < |r.events| ==> r.events[i].now <= r.events[j].now
  }

  /** Event `i` handed out a lease on `k`. */
  predicate Grants(r: Run, i: nat, k: Key)
    requires Shaped(r) && i < |r.events|
  {
    EffectAt(r, i, k).Granting? || EffectAt(r, i, k).Renewing?
  }

  function GrantedToken(r: Run, i: nat, k: Key): Token
    requires Shaped(r) && i < |r.events| && Grants(r, i, k)
  {
    r.replies[i].token
  }

  function GrantedUntil(r: Run, i: nat, k: Key): int
    requires Shaped(r) && i < |r.events| && Grants(r, i, k)
  {
    r.events[i].now + r.events[i].op.leaseMs
  }

  /** Event `i` used `token` on `k` and was let through. */
  predicate Uses(r: Run, i: nat, k: Key, token: Token)
    requires Shaped(r) && i < |r.events|
  {
    (EffectAt(r, i, k).Ending? || EffectAt(r, i, k).Renewing?) && r.events[i].op.token == token
  }

  lemma RowMovesAt(r: Run, i: nat, k: Key)
    requires IsRun(r) && i < |r.events|
    ensures RowMoves(k, RowAt(r, i, k), RowAt(r, i + 1, k), r.events[i].now, r.events[i].op, r.replies[i])
  {
    assert Stepped(r, i);
    EveryStepMovesRows(r.states[i], r.events[i].now, r.events[i].op, k);
  }

  // ---------------------------------------------------------------- exclusivity

  predicate Held(row: Option<Record>, token: Token, until: int) {
    row.Some? && row.value.status == Claimed && row.value.leaseToken == Some(token)
    && row.value.leaseExpiresAt == Some(until)
  }

  /** A lease stays on its row until it expires or its own token is used. */
  lemma {:induction false} LeaseHolds(r: Run, i: nat, n: nat, k: Key)
    requires IsRun(r) && MonotoneClock(r) && i < n <= |r.events| && Grants(r, i, k)
    requires n - 1 == i || r.events[n - 1].now < GrantedUntil(r, i, k)
    requires forall m :: i < m < n ==> !Uses(r, m, k, GrantedToken(r, i, k))
    ensures Held(RowAt(r, n, k), GrantedToken(r, i, k), GrantedUntil(r, i, k))
    decreases n
  {
    RowMovesAt(r, n - 1, k);
    if n - 1 == i {
    } else {
      assert !Uses(r, n - 1, k, GrantedToken(r, i, k));
      LeaseHolds(r, i, n - 1, k);
    }
  }

  /**
   * Mutual exclusion over runs.  Within the lease that event `i` handed out on `k`, any later claim on `k` is
   * turned away (or hits the simulated crash), unless the lease's own token was used in between.
   */
  lemma NoSecondHolderWithinALease(r: Run, i: nat, j: nat, k: Key)
    requires IsRun(r) && MonotoneClock(r) && i < j < |r.events| && Grants(r, i, k)
    requires r.events[j].op.Claim? && r.events[j].op.key == k && r.events[j].now < GrantedUntil(r, i, k)
    ensures r.replies[j].InProgress? || r.replies[j].Crashed?
      || exists m :: i < m < j && Uses(r, m, k, GrantedToken(r, i, k))
  {
    if forall m :: i < m < j ==> !Uses(r, m, k, GrantedToken(r, i, k)) {
      LeaseHolds(r, i, j, k);
      assert Stepped(r, j);
    }
  }

  /** A claim gets the row exactly when the row is there, open, due, and not under a running lease. */
  lemma ClaimAcquiresIff(r: Run, i: nat, k: Key)
    requires IsRun(r) && i < |r.events| && r.events[i].op.Claim? && r.events[i].op.key == k
    requires !r.states[i].failNextMutation
    ensures r.replies[i].Acquired? <==>
      var row, now := RowAt(r, i, k), r.events[i].now;
      row.Some? && !IsTerminal(row.value.status) && !Live(row.value, now) && row.value.dueAt <= now
  {
    assert Stepped(r, i);
  }

  // ---------------------------------------------------------------- fencing

  /** The last event before `n` that handed out a lease on `k`. */
  function LastGrant(r: Run, n: nat, k: Key): (g: Option<nat>)
    requires Shaped(r) && n <= |r.events|
    ensures g.Some? ==> g.value < n && Grants(r, g.value, k)
    ensures g.Some? ==> forall m :: g.value < m < n ==> !Grants(r, m, k)
    ensures g.None? ==> forall m :: 0 <= m < n ==> !Grants(r, m, k)
  {
    if n == 0 then None
    else if Grants(r, n - 1, k) then Some(n - 1)
    else LastGrant(r, n - 1, k)
  }

  /** A claimed row carries the token and the deadline of the latest grant on it. */
  lemma {:induction false} ClaimedRowHoldsLatestGrant(r: Run, n: nat, k: Key)
    requires IsRun(r) && n <= |r.events| && RowAt(r, n, k).Some? && RowAt(r, n, k).value.status == Claimed
    ensures var g := LastGrant(r, n, k);
      g.Some? && Held(RowAt(r, n, k), GrantedToken(r, g.value, k), GrantedUntil(r, g.value, k))
  {
    assert n > 0;
    RowMovesAt(r, n - 1, k);
    if Grants(r, n - 1, k) {
    } else {
      ClaimedRowHoldsLatestGrant(r, n - 1, k);
    }
  }

  /**
   * Fencing.  Every accepted complete, manual review, failure or renewal presents the token of the latest grant
   * on its key, and all but a failure arrive before that grant's deadline.
   */
  lemma AcceptedCallsHoldTheLatestLease(r: Run, i: nat, k: Key, token: Token)
    requires IsRun(r) && i < |r.events| && Uses(r, i, k, token)
    ensures var g := LastGrant(r, i, k);
      && g.Some? && GrantedToken(r, g.value, k) == token
      && (r.events[i].op.Fail? || r.events[i].now < GrantedUntil(r, g.value, k))
  {
    RowMovesAt(r, i, k);
    ClaimedRowHoldsLatestGrant(r, i, k);
  }

  predicate Draws(e: Event, nonce: nat) {
    (e.op.Claim? || e.op.Renew?) && e.op.nonce == nonce
  }

  /** The random part of a token never repeats. */
  ghost predicate FreshNonces(r: Run) {
    forall i, j, nonce :: 0 <= i < j < |r.events| && Draws(r.events[i], nonce) ==> !Draws(r.events[j], nonce)
  }

  lemma GrantDrawsItsNonce(r: Run, i: nat, k: Key)
    requires IsRun(r) && i < |r.events| && Grants(r, i, k)
    ensures Draws(r.events[i], GrantedToken(r, i, k).nonce)
  {
    RowMovesAt(r, i, k);
  }

  /** With fresh nonces the token in use on a row has not been used since it was handed out. */
  lemma {:induction false} ClaimedRowTokenIsUnused(r: Run, n: nat, k: Key, m: nat, k': Key)
    requires IsRun(r) && FreshNonces(r) && m < n <= |r.events|
    requires RowAt(r, n, k).Some? && RowAt(r, n, k).value.status == Claimed
    requires RowAt(r, n, k).value.leaseToken.Some?
    ensures !Uses(r, m, k', RowAt(r, n, k).value.leaseToken.value)
    decreases n
  {
    var token := RowAt(r, n, k).value.leaseToken.value;
    RowMovesAt(r, n - 1, k);
    if Uses(r, m, k', token) {
      // The use at `m` saw the token on row k', so it was granted before `m`.
      AcceptedCallsHoldTheLatestLease(r, m, k', token);
      var g := LastGrant(r, m, k').value;
      GrantDrawsItsNonce(r, g, k');
      ClaimedRowHoldsLatestGrant(r, n, k);
      var g' := LastGrant(r, n, k).value;
      GrantDrawsItsNonce(r, g', k);
      assert g' == g;
      SameGrantSameKey(r, g, k, k');
      // From the grant on, the row kept this token; the use at `m` took it away.
      TokenGoneAfterUse(r, m, n, k, token);
      assert false;
    }
  }

  lemma SameGrantSameKey(r: Run, i: nat, k: Key, k': Key)
    requires IsRun(r) && i < |r.events| && Grants(r, i, k) && Grants(r, i, k')
    ensures k == k'
  {
  }

  /** Once used, a token is off its row for good: no later grant can bring it back. */
  lemma {:induction false} TokenGoneAfterUse(r: Run, m: nat, n: nat, k: Key, token: Token)
    requires IsRun(r) && FreshNonces(r) && m < n <= |r.events| && Uses(r, m, k, token)
    ensures RowAt(r, n, k).Some? ==> RowAt(r, n, k).value.leaseToken != Some(token)
    decreases n
  {
    RowMovesAt(r, n - 1, k);
    AcceptedCallsHoldTheLatestLease(r, m, k, token);
    var g := LastGrant(r, m, k).value;
    GrantDrawsItsNonce(r, g, k);
    if n - 1 == m {
    } else {
      TokenGoneAfterUse(r, m, n - 1, k, token);
    }
    if Grants(r, n - 1, k) {
      GrantDrawsItsNonce(r, n - 1, k);
    }
  }

  /** With fresh nonces every token is let through at most once in a whole run, on whatever key it is presented. */
  lemma TokenIsUsedAtMostOnce(r: Run, i: nat, j: nat, k: Key, k': Key, token: Token)
    requires IsRun(r) && FreshNonces(r) && i < j < |r.events| && Uses(r, i, k, token)
    ensures !Uses(r, j, k', token)
  {
    if Uses(r, j, k', token) {
      RowMovesAt(r, j, k');
      ClaimedRowTokenIsUnused(r, j, k', i, k);
      assert false;
    }
  }

  // ---------------------------------------------------------------- attempts

  /** Accepted failures on `k` since its row was last opened. */
  function FailuresSinceOpen(r: Run, n: nat, k: Key): nat
    requires Shaped(r) && n <= |r.events|
  {
    if n == 0 || EffectAt(r, n - 1, k).Opening? then 0
    else
      FailuresSinceOpen(r, n - 1, k) + (if EffectAt(r, n - 1, k).Ending? && r.events[n - 1].op.Fail? then 1 else 0)
  }

  /** Statuses under which the current claim's own attempt is still on the count. */
  predicate AttemptPending(s: Status) {
    s == Claimed || s == Completed || s == ManualReview
  }

  /**
   * Attempt accounting.  A row's count is exactly its accepted failures since it was opened, plus one while a claim
   * is under way or has ended without failing: lapsed claims cost nothing, and the count is never clamped.
   */
  lemma {:induction false} AttemptsAreAccounted(r: Run, n: nat, k: Key)
    requires IsRun(r) && n <= |r.events| && RowAt(r, n, k).Some?
    ensures var row := RowAt(r, n, k).value;
      && row.attempts == FailuresSinceOpen(r, n, k) + (if AttemptPending(row.status) then 1 else 0)
      && (row.status == Claimed ==> row.attempts - 1 >= 0)
  {
    assert n > 0;
    RowMovesAt(r, n - 1, k);
    if RowAt(r, n - 1, k).None? {
    } else {
      AttemptsAreAccounted(r, n - 1, k);
      if RowAt(r, n - 1, k).value.status == Claimed {
        ClaimedRowHoldsLatestGrant(r, n - 1, k);
      }
    }
  }

  // ---------------------------------------------------------------- the job on a row

  /** The last schedule before `n` that opened `k`. */
  function LastOpening(r: Run, n: nat, k: Key): (o: Option<nat>)
    requires Shaped(r) && n <= |r.events|
    ensures o.Some? ==> o.value < n && EffectAt(r, o.value, k).Opening?
    ensures o.Some? ==> forall m :: o.value < m < n ==> !EffectAt(r, m, k).Opening?
  {
    if n == 0 then None
    else if EffectAt(r, n - 1, k).Opening? then Some(n - 1)
    else LastOpening(r, n - 1, k)
  }

  /** The due time set by the last opening or by a retry since. */
  function LatestDue(r: Run, n: nat, k: Key): int
    requires Shaped(r) && n <= |r.events|
  {
    if n == 0 then 0
    else
      var op := r.events[n - 1].op;
      if EffectAt(r, n - 1, k).Opening? then op.dueAt
      else if EffectAt(r, n - 1, k).Ending? && op.Fail? && op.retryAt.Some? then op.retryAt.value
      else LatestDue(r, n - 1, k)
  }

  /** The error or note left by the last accepted failure or review since the last opening. */
  function LatestError(r: Run, n: nat, k: Key): Option<string>
    requires Shaped(r) && n <= |r.events|
  {
    if n == 0 || EffectAt(r, n - 1, k).Opening? then None
    else
      var op := r.events[n - 1].op;
      if EffectAt(r, n - 1, k).Ending? && op.Fail? then Some(op.error)
      else if EffectAt(r, n - 1, k).Ending? && op.MarkManualReview? && op.note.Some? then op.note
      else LatestError(r, n - 1, k)
  }

  /** The worker whose claim was the last to be granted. */
  function LatestClaimant(r: Run, n: nat, k: Key): Option<string>
    requires Shaped(r) && n <= |r.events|
  {
    if n == 0 then None
    else if EffectAt(r, n - 1, k).Granting? then Some(r.events[n - 1].op.owner)
    else LatestClaimant(r, n - 1, k)
  }

  /** Whatever workers did to it, a row still describes the job it was opened for, and who holds it. */
  lemma {:induction false} RowsKeepTheirJob(r: Run, n: nat, k: Key)
    requires IsRun(r) && n <= |r.events| && RowAt(r, n, k).Some?
    ensures var row, o := RowAt(r, n, k).value, LastOpening(r, n, k);
      && o.Some? && SameJob(row, r.events[o.value].op.subjectId, r.events[o.value].op.reason)
      && row.dueAt == LatestDue(r, n, k) && row.lastError == LatestError(r, n, k)
      && (row.status == Claimed ==> row.leaseOwner == LatestClaimant(r, n, k))
  {
    assert n > 0;
    RowMovesAt(r, n - 1, k);
    if RowAt(r, n - 1, k).None? {
    } else {
      RowsKeepTheirJob(r, n - 1, k);
    }
  }

  // ---------------------------------------------------------------- generations

  ghost predicate Survives(r: Run, i: nat, j: nat, k: Key)
    requires Shaped(r) && j <= |r.events|
  {
    forall m :: i <= m <= j ==> RowAt(r, m, k).Some?
  }

  /** While a row survives its generation never falls, and every grant in between raises it. */
  lemma {:induction false} GenerationNeverFalls(r: Run, i: nat, j: nat, k: Key)
    requires IsRun(r) && i <= j <= |r.events| && Survives(r, i, j, k)
    ensures RowAt(r, i, k).value.generation <= RowAt(r, j, k).value.generation
    ensures (exists m :: i <= m < j && Grants(r, m, k)) ==>
      RowAt(r, i, k).value.generation < RowAt(r, j, k).value.generation
    decreases j
  {
    if i == j {
    } else {
      RowMovesAt(r, j - 1, k);
      GenerationNeverFalls(r, i, j - 1, k);
    }
  }

  // ---------------------------------------------------------------- capacity

  predicate WithinCap(s: Store) {
    s.maxEntries.Some? ==> |s.order| <= Max(0, s.maxEntries.value)
  }

  lemma {:induction false} CleanupShrinks(keys: seq<Key>, s: Store, before: int, limit: Option<int>, deleted: nat)
    requires WellFormed(s) && Distinct(keys) && forall k :: k in keys ==> k in s.rows
    ensures |DeleteFrom(keys, s, before, limit, deleted).0.order| <= |s.order|
    decreases |keys|
  {
    if keys == [] || (limit.Some? && deleted >= limit.value) {
    } else {
      assert keys[0] !in keys[1..];
      if Disposable(s.rows[keys[0]], before) {
        DropOne(s, keys[0]);
        CleanupShrinks(keys[1..], Drop(s, keys[0]), before, limit, deleted + 1);
      } else {
        CleanupShrinks(keys[1..], s, before, limit, deleted);
      }
    }
  }

  lemma StepStaysWithinCap(s: Store, now: int, op: Op)
    requires WellFormed(s) && WithinCap(s)
    ensures WithinCap(Step(s, now, op).0) && Step(s, now, op).0.maxEntries == s.maxEntries
  {
    match op
    case DeleteExpired(before, limit) =>
      CleanupShrinks(s.order, s, before, limit, 0);
      DeleteFromDrops(s.order, s, before, limit, 0);
    case _ =>
  }

  lemma {:induction false} RunStaysWithinCap(r: Run, n: nat)
    requires IsRun(r) && n <= |r.events|
    ensures WithinCap(r.states[n]) && r.states[n].maxEntries == r.states[0].maxEntries
  {
    if n == 0 {
    } else {
      RunStaysWithinCap(r, n - 1);
      assert Stepped(r, n - 1);
      StepStaysWithinCap(r.states[n - 1], r.events[n - 1].now, r.events[n - 1].op);
    }
  }

  /** A schedule refused for lack of room has evicted nothing: every row was a live claim. */
  lemma CapacityRefusalEvictsNothing(r: Run, i: nat)
    requires IsRun(r) && i < |r.events| && r.replies[i].AtCapacity?
    ensures r.states[i + 1] == r.states[i]
    ensures forall k :: k in r.states[i].rows ==> Live(r.states[i].rows[k], r.events[i].now)
  {
    assert Stepped(r, i);
    RunStaysWithinCap(r, i);
    RefusedAtCapacity(r.states[i], r.events[i].now, r.events[i].op);
  }

  lemma NoRoomAmongLiveClaims(s: Store, cap: int, now: int)
    requires WellFormed(s) && |s.order| <= Max(0, cap) && !MakeRoom(s, cap, now).1
    ensures MakeRoom(s, cap, now).0 == s && FirstVictim(s.order, s.rows, now).None?
  {
  }

  lemma RefusedAtCapacity(s: Store, now: int, op: Op)
    requires WellFormed(s) && WithinCap(s) && Step(s, now, op).1.AtCapacity?
    ensures Step(s, now, op).0 == s && forall k :: k in s.rows ==> Live(s.rows[k], now)
  {
    assert op.Schedule? && s.maxEntries.Some?;
    NoRoomAmongLiveClaims(s, s.maxEntries.value, now);
  }
}
