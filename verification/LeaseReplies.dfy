/**
 * What the job store answers: over every run each reply is given by the row as it stood and by what was granted
 * before, in both directions.
 */
module LeaseReplies {
  import opened Wrappers
  import opened LeaseStore
  import opened LeaseRuns

  // ---------------------------------------------------------------- the simulated crash

  /** The calls that a simulated crash can hit. */
  predicate Mutates(op: Op) {
    op.Schedule? || op.Claim? || op.Renew? || op.Complete? || op.Fail? || op.MarkManualReview? || op.DeleteExpired?
  }

  /** Whether a crash is armed before event `n`, and whether it stays armed. */
  function Armed(r: Run, n: nat): Option<bool>
    requires Shaped(r) && n <= |r.events|
  {
    if n == 0 then None
    else
      var op := r.events[n - 1].op;
      if op.SimulateCrash? then Some(op.stay)
      else if Mutates(op) && Armed(r, n - 1) != Some(true) then None
      else Armed(r, n - 1)
  }

  lemma {:induction false} FlagsFollowTheCalls(r: Run, n: nat)
    requires IsRun(r) && n <= |r.events|
    ensures r.states[n].failNextMutation <==> Armed(r, n).Some?
    ensures Armed(r, n).Some? ==> r.states[n].sticky == Armed(r, n).value
  {
    if n == 0 {
    } else {
      FlagsFollowTheCalls(r, n - 1);
      assert Stepped(r, n - 1);
      StepMovesFlags(r.states[n - 1], r.events[n - 1].now, r.events[n - 1].op);
    }
  }

  lemma StepMovesFlags(s: Store, now: int, op: Op)
    requires WellFormed(s)
    ensures var t := Step(s, now, op).0;
      && (op.SimulateCrash? ==> t.failNextMutation && t.sticky == op.stay)
      && (!op.SimulateCrash? ==> t.sticky == s.sticky)
      && (!op.SimulateCrash? ==> t.failNextMutation == (s.failNextMutation && (!Mutates(op) || s.sticky)))
  {
    if op.DeleteExpired? && !s.failNextMutation {
      DeleteFromDrops(s.order, s, op.before, op.atMost, 0);
    }
  }

  /** A call crashes exactly when it mutates and a crash is armed, and then no row changes. */
  lemma CrashesExactlyWhenArmed(r: Run, i: nat)
    requires IsRun(r) && i < |r.events|
    ensures r.replies[i].Crashed? <==> Mutates(r.events[i].op) && Armed(r, i).Some?
    ensures r.replies[i].Crashed? ==>
      r.states[i + 1].rows == r.states[i].rows && r.states[i + 1].order == r.states[i].order
  {
    FlagsFollowTheCalls(r, i);
    assert Stepped(r, i);
  }

  // ---------------------------------------------------------------- fenced calls

  predicate Fenced(op: Op) {
    op.Complete? || op.Fail? || op.MarkManualReview? || op.Renew?
  }

  predicate LetThrough(r: Run, i: nat)
    requires Shaped(r) && i < |r.events|
  {
    if r.events[i].op.Renew? then r.replies[i].Renewed? else r.replies[i].Accepted?
  }

  predicate TurnedAway(r: Run, i: nat)
    requires Shaped(r) && i < |r.events|
  {
    if r.events[i].op.Renew? then r.replies[i].RenewRefused? else r.replies[i].Rejected?
  }

  /** The row is claimed, under a lease that this token holds, and in time unless it reports a failure. */
  predicate Rightful(row: Option<Record>, e: Event)
    requires Fenced(e.op)
  {
    && row.Some? && row.value.status == Claimed && row.value.leaseToken == Some(e.op.token)
    && (e.op.Fail? || (row.value.leaseExpiresAt.Some? && e.now < row.value.leaseExpiresAt.value))
  }

  lemma FencedReply(r: Run, i: nat, k: Key)
    requires IsRun(r) && i < |r.events| && Fenced(r.events[i].op) && r.events[i].op.key == k && !r.replies[i].Crashed?
    ensures LetThrough(r, i) <==> Rightful(RowAt(r, i, k), r.events[i])
    ensures TurnedAway(r, i) <==> !LetThrough(r, i)
  {
    assert Stepped(r, i);
  }

  /**
   * A complete, failure, manual review or renewal is let through exactly when its row is still claimed, it presents the
   * token of the latest grant, and, unless it is a failure, that grant has not run out.
   */
  lemma FencedCallsAcceptedIff(r: Run, i: nat, k: Key)
    requires IsRun(r) && i < |r.events| && Fenced(r.events[i].op) && r.events[i].op.key == k && !r.replies[i].Crashed?
    ensures LetThrough(r, i) <==>
      && RowAt(r, i, k).Some? && RowAt(r, i, k).value.status == Claimed
      && var g := LastGrant(r, i, k);
        && g.Some? && GrantedToken(r, g.value, k) == r.events[i].op.token
        && (r.events[i].op.Fail? || r.events[i].now < GrantedUntil(r, g.value, k))
    ensures TurnedAway(r, i) <==> !LetThrough(r, i)
  {
    FencedReply(r, i, k);
    if RowAt(r, i, k).Some? && RowAt(r, i, k).value.status == Claimed {
      ClaimedRowHoldsLatestGrant(r, i, k);
    }
  }

  /** Event `g` granted this token on `k`, its lease has not run out at event `i`, and the token has not been used. */
  predicate HoldsLease(r: Run, g: nat, i: nat, k: Key, token: Token)
    requires Shaped(r) && g < i < |r.events|
  {
    && Grants(r, g, k) && GrantedToken(r, g, k) == token && r.events[i].now < GrantedUntil(r, g, k)
    && forall m :: g < m < i ==> !Uses(r, m, k, token)
  }

  /**
   * The same from the worker's side, with no word about rows: with a clock that does not go back and tokens that do not
   * repeat, a complete, manual review or renewal is let through exactly when its token was granted on that key, the
   * lease is still running, and the token has not been used.
   */
  lemma WorkersInTimeAreAccepted(r: Run, i: nat, k: Key)
    requires IsRun(r) && MonotoneClock(r) && FreshNonces(r) && i < |r.events| && !r.replies[i].Crashed?
    requires Fenced(r.events[i].op) && !r.events[i].op.Fail? && r.events[i].op.key == k
    ensures LetThrough(r, i) <==> exists g :: 0 <= g < i && HoldsLease(r, g, i, k, r.events[i].op.token)
  {
    var token := r.events[i].op.token;
    FencedCallsAcceptedIff(r, i, k);
    if LetThrough(r, i) {
      var g := LastGrant(r, i, k).value;
      forall m | g < m < i ensures !Uses(r, m, k, token) {
        ClaimedRowHoldsLatestGrant(r, i, k);
        ClaimedRowTokenIsUnused(r, i, k, m, k);
      }
      assert HoldsLease(r, g, i, k, token);
    }
    if g :| 0 <= g < i && HoldsLease(r, g, i, k, token) {
      LeaseHolds(r, g, i, k);
      FencedReply(r, i, k);
    }
  }

  /** A renewal that is refused says why. */
  lemma RenewalRefusals(r: Run, i: nat, k: Key)
    requires IsRun(r) && i < |r.events| && r.events[i].op.Renew? && r.events[i].op.key == k && !r.replies[i].Crashed?
    ensures r.replies[i] == RenewRefused(RowMissing) <==> RowAt(r, i, k).None?
    ensures r.replies[i] == RenewRefused(WrongStatus) <==>
      RowAt(r, i, k).Some? && RowAt(r, i, k).value.status != Claimed
    ensures r.replies[i] == RenewRefused(LeaseLost) <==>
      && RowAt(r, i, k).Some? && RowAt(r, i, k).value.status == Claimed && !Rightful(RowAt(r, i, k), r.events[i])
  {
    assert Stepped(r, i);
  }

  // ---------------------------------------------------------------- claims

  predicate RanOut(row: Record, now: int) {
    row.status == Claimed && row.leaseExpiresAt.Some? && row.leaseExpiresAt.value <= now
  }

  lemma ClaimReply(s: Store, now: int, op: Op, reply: Reply, t: Store)
    requires WellFormed(s) && op.Claim? && (t, reply) == Perform(s, now, op)
    ensures reply.NotFound? <==> Row(s, op.key).None?
    ensures Row(s, op.key).Some? ==>
      var row := Row(s, op.key).value;
      && (reply.AlreadyTerminal? <==> row.status in {Completed, Failed, ManualReview})
      && (reply.InProgress? <==> Running(row, now))
      && (reply.NotDue? <==> row.status in {Scheduled, Claimed} && !Running(row, now) && now < row.dueAt)
      && (reply.Acquired? <==> row.status in {Scheduled, Claimed} && !Running(row, now) && row.dueAt <= now)
      && Row(t, op.key) == Some(reply.record) && (reply.Acquired? || !RanOut(reply.record, now))
  {
    if op.key in s.rows {
      ReleaseKeepsTheJob(s.rows[op.key], now);
    }
  }

  /** Every answer to a claim is given by the row as it stood, and shows the row as it stands afterwards. */
  lemma ClaimReplies(r: Run, i: nat, k: Key)
    requires IsRun(r) && i < |r.events| && r.events[i].op.Claim? && r.events[i].op.key == k && !r.replies[i].Crashed?
    ensures r.replies[i].NotFound? <==> RowAt(r, i, k).None?
    ensures RowAt(r, i, k).Some? ==>
      var row, now, reply := RowAt(r, i, k).value, r.events[i].now, r.replies[i];
      && (reply.AlreadyTerminal? <==> row.status in {Completed, Failed, ManualReview})
      && (reply.InProgress? <==> Running(row, now))
      && (reply.NotDue? <==> row.status in {Scheduled, Claimed} && !Running(row, now) && now < row.dueAt)
      && (reply.Acquired? <==> row.status in {Scheduled, Claimed} && !Running(row, now) && row.dueAt <= now)
      && RowAt(r, i + 1, k) == Some(reply.record) && (reply.Acquired? || !RanOut(reply.record, now))
  {
    assert Stepped(r, i);
    ClaimReply(r.states[i], r.events[i].now, r.events[i].op, r.replies[i], r.states[i + 1]);
  }

  /** A row that changes and stays is stamped with the time of the call that changed it. */
  lemma ChangesAreStamped(r: Run, i: nat, k: Key)
    requires IsRun(r) && i < |r.events| && RowAt(r, i + 1, k).Some? && RowAt(r, i + 1, k) != RowAt(r, i, k)
    ensures RowAt(r, i + 1, k).value.updatedAt == r.events[i].now
  {
    RowMovesAt(r, i, k);
  }

  // ---------------------------------------------------------------- scheduling

  predicate Full(s: Store) {
    s.maxEntries.Some? && |s.order| >= s.maxEntries.value
  }

  ghost predicate AllRunning(s: Store, now: int) {
    forall k :: k in s.rows ==> Running(s.rows[k], now)
  }

  /** The oldest row whose lease is not running made place for `k`, and nothing else changed. */
  ghost predicate OldestMadeRoom(s: Store, t: Store, k: Key, now: int, j: nat) {
    && Oldest(s, now, j) && t.order == s.order[..j] + s.order[j + 1..] + [k]
    && forall x :: x != k ==> (x in t.rows <==> x in s.rows && x != s.order[j])
  }

  /** There was room: `k` was added at the end, and no other row went. */
  ghost predicate Appended(s: Store, t: Store, k: Key) {
    t.order == s.order + [k] && forall x :: x != k ==> (x in t.rows <==> x in s.rows)
  }

  lemma {:induction false} WithoutIsOneOut(order: seq<Key>, j: nat)
    requires Distinct(order) && j < |order|
    ensures Without(order, order[j]) == order[..j] + order[j + 1..]
  {
    var rest := order[1..];
    if j == 0 {
      NothingOut(rest, order[0]);
    } else {
      WithoutIsOneOut(rest, j - 1);
      assert order[0] != order[j] && rest[j - 1] == order[j];
      assert order[..j] == [order[0]] + rest[..j - 1] && rest[j..] == order[j + 1..];
    }
  }

  lemma {:induction false} NothingOut(order: seq<Key>, k: Key)
    requires k !in order
    ensures Without(order, k) == order
  {
    if order == [] {
    } else {
      NothingOut(order[1..], k);
      assert order == [order[0]] + order[1..];
    }
  }

  /** The oldest row whose lease is not running. */
  ghost predicate Oldest(s: Store, now: int, j: nat) {
    && j < |s.order| && s.order[j] in s.rows && !Running(s.rows[s.order[j]], now)
    && forall i :: 0 <= i < j ==> s.order[i] in s.rows && Running(s.rows[s.order[i]], now)
  }

  lemma OldestIsTheVictim(s: Store, now: int, v: Key) returns (j: nat)
    requires WellFormed(s) && FirstVictim(s.order, s.rows, now) == Some(v)
    ensures Oldest(s, now, j) && s.order[j] == v
  {
    j :| 0 <= j < |s.order| && s.order[j] == v && forall i :: 0 <= i < j ==> Live(s.rows[s.order[i]], now);
  }

  lemma NoVictimMeansAllRunning(s: Store, now: int)
    requires WellFormed(s)
    ensures FirstVictim(s.order, s.rows, now).None? <==> AllRunning(s, now)
  {
    var v := FirstVictim(s.order, s.rows, now);
    if v.Some? {
      assert !Running(s.rows[v.value], now);
    } else {
      forall k | k in s.rows ensures Running(s.rows[k], now) {
        assert k in s.order && Live(s.rows[k], now);
      }
    }
  }

  lemma RoomForOne(s: Store, cap: int, now: int, room: Store, ok: bool) returns (j: nat)
    requires WellFormed(s) && |s.order| <= Max(0, cap) && (room, ok) == MakeRoom(s, cap, now)
    ensures ok <==> |s.order| < cap || !AllRunning(s, now)
    ensures ok && |s.order| < cap ==> room == s
    ensures ok && |s.order| >= cap ==> Oldest(s, now, j) && room == Drop(s, s.order[j])
  {
    NoVictimMeansAllRunning(s, now);
    j := 0;
    if |s.order| >= cap {
      var victim := FirstVictim(s.order, s.rows, now);
      if victim.Some? {
        j := OldestIsTheVictim(s, now, victim.value);
        DropOne(s, victim.value);
      }
    }
  }

  lemma OldestMakesRoom(s: Store, t: Store, k: Key, now: int, j: nat, r: Record)
    requires WellFormed(s) && k !in s.rows && Oldest(s, now, j) && t == Put(Drop(s, s.order[j]), k, r)
    ensures OldestMadeRoom(s, t, k, now, j)
  {
    WithoutIsOneOut(s.order, j);
  }

  lemma ScheduleExisting(s: Store, now: int, op: Op, reply: Reply, t: Store)
    requires WellFormed(s) && op.Schedule? && op.key in s.rows && (t, reply) == Perform(s, now, op)
    ensures var row := s.rows[op.key];
      && (reply.Opened? <==> row.status in {Completed, Failed, ManualReview})
      && (reply == AlreadyExists(row) <==> row.status in {Scheduled, Claimed})
      && t.order == s.order && forall x :: x != op.key ==> Row(t, x) == Row(s, x)
  {
  }

  lemma ScheduleNew(s: Store, now: int, op: Op, reply: Reply, t: Store)
    requires WellFormed(s) && WithinCap(s) && op.Schedule? && op.key !in s.rows && (t, reply) == Perform(s, now, op)
    ensures reply.AtCapacity? <==> Full(s) && AllRunning(s, now)
    ensures reply.Opened? <==> !reply.AtCapacity?
    ensures reply.Opened? && !Full(s) ==> Appended(s, t, op.key)
    ensures reply.Opened? && Full(s) ==> exists j: nat :: OldestMadeRoom(s, t, op.key, now, j)
  {
    var r := NewRecord(op.key, op.subjectId, op.reason, op.dueAt, now, 0, now);
    if s.maxEntries.Some? {
      var (room, ok) := MakeRoom(s, s.maxEntries.value, now);
      var j := RoomForOne(s, s.maxEntries.value, now, room, ok);
      if ok && Full(s) {
        OldestMakesRoom(s, t, op.key, now, j, r);
      }
    }
  }

  /**
   * A schedule opens a new row, or reopens one that has ended; it leaves an open one alone, and is refused exactly
   * when the store is full of running leases.  When it is full otherwise, the oldest row without a running lease goes.
   */
  lemma ScheduleReplies(r: Run, i: nat, k: Key)
    requires IsRun(r) && i < |r.events| && r.events[i].op.Schedule? && r.events[i].op.key == k && !r.replies[i].Crashed?
    ensures RowAt(r, i, k).Some? ==>
      var row := RowAt(r, i, k).value;
      && (r.replies[i].Opened? <==> row.status in {Completed, Failed, ManualReview})
      && (r.replies[i] == AlreadyExists(row) <==> row.status in {Scheduled, Claimed})
      && r.states[i + 1].order == r.states[i].order && forall x :: x != k ==> RowAt(r, i + 1, x) == RowAt(r, i, x)
    ensures RowAt(r, i, k).None? ==>
      var s, t, now := r.states[i], r.states[i + 1], r.events[i].now;
      && (r.replies[i].AtCapacity? <==> Full(s) && AllRunning(s, now))
      && (r.replies[i].Opened? <==> !r.replies[i].AtCapacity?)
      && (r.replies[i].Opened? && !Full(s) ==> Appended(s, t, k))
      && (r.replies[i].Opened? && Full(s) ==> exists j: nat :: OldestMadeRoom(s, t, k, now, j))
  {
    assert Stepped(r, i);
    RunStaysWithinCap(r, i);
    if k in r.states[i].rows {
      ScheduleExisting(r.states[i], r.events[i].now, r.events[i].op, r.replies[i], r.states[i + 1]);
    } else {
      ScheduleNew(r.states[i], r.events[i].now, r.events[i].op, r.replies[i], r.states[i + 1]);
    }
  }

  // ---------------------------------------------------------------- reading, listing and cleaning up

  /** Reading shows the row as it is, a lapsed lease included, and changes nothing. */
  lemma ReadReplies(r: Run, i: nat, k: Key)
    requires IsRun(r) && i < |r.events| && r.events[i].op == Get(k)
    ensures r.replies[i] == Found(RowAt(r, i, k)) && r.states[i + 1] == r.states[i]
  {
    assert Stepped(r, i);
  }

  lemma TerminalListReply(s: Store, now: int, op: Op, reply: Reply, t: Store)
    requires WellFormed(s) && op.ListTerminal? && (t, reply) == Perform(s, now, op)
    ensures t == s && reply == Listed(Take(DeadLetters(s.order, s.rows), Max(1, op.limit)))
  {
    TerminalListingReturnsTheOldest(s.order, s.rows, op.limit, []);
  }

  /** The dead-letter listing. */
  lemma TerminalListReplies(r: Run, i: nat)
    requires IsRun(r) && i < |r.events| && r.events[i].op.ListTerminal?
    ensures Stepped(r, i) && r.states[i + 1] == r.states[i]
    ensures r.replies[i] ==
      Listed(Take(DeadLetters(r.states[i].order, r.states[i].rows), Max(1, r.events[i].op.limit)))
  {
    assert Stepped(r, i);
    TerminalListReply(r.states[i], r.events[i].now, r.events[i].op, r.replies[i], r.states[i + 1]);
  }

  /** A row the listing looked at: requeued if its lease had run out, and otherwise as it was. */
  predicate LookedAt(before: Record, after: Record, now: int) {
    if RanOut(before, now) then Requeued(before, after, now) else after == before
  }

  /** A listing looks at the rows in order up to some place and leaves the others alone. */
  ghost predicate LooksAtFirst(
    keys: seq<Key>, rows: map<Key, Record>, rows': map<Key, Record>, now: int, j: nat)
  {
    && j <= |keys| && rows'.Keys == rows.Keys && (forall k :: k in keys ==> k in rows)
    && (forall i :: 0 <= i < j ==> LookedAt(rows[keys[i]], rows'[keys[i]], now))
    && (forall k :: k in rows && k !in keys[..j] ==> rows'[k] == rows[k])
  }

  lemma LooksAtOneMore(
    keys: seq<Key>, rows: map<Key, Record>, r0: Record, rows': map<Key, Record>, now: int, j: nat)
    requires keys != [] && Distinct(keys) && forall k :: k in keys ==> k in rows
    requires LookedAt(rows[keys[0]], r0, now)
    requires LooksAtFirst(keys[1..], rows[keys[0] := r0], rows', now, j)
    ensures LooksAtFirst(keys, rows, rows', now, j + 1)
  {
    var rest := keys[1..];
    assert keys[0] !in rest;
    assert keys[..j + 1] == [keys[0]] + rest[..j];
    forall i | 0 <= i < j + 1 ensures LookedAt(rows[keys[i]], rows'[keys[i]], now) {
      if i > 0 {
        assert keys[i] == rest[i - 1];
      } else {
        assert keys[0] !in rest[..j];
      }
    }
  }

  /** How far a listing looked, given what it returned: to the row that fills it, or over all of them. */
  ghost predicate LooksUntilFull(
    keys: seq<Key>, rows: map<Key, Record>, result: (map<Key, Record>, seq<Record>), now: int, size: int, j: nat)
  {
    && LooksAtFirst(keys, rows, result.0, now, j)
    && (|result.1| < size ==> j == |keys|)
    && (|result.1| >= size && result.1 != [] ==> j > 0 && result.1[|result.1| - 1] == result.0[keys[j - 1]])
  }

  lemma {:induction false} ListingLooks(
    keys: seq<Key>, rows: map<Key, Record>, now: int, dueBy: int, limit: int, out: seq<Record>,
    result: (map<Key, Record>, seq<Record>))
    returns (j: nat)
    requires Distinct(keys) && forall k :: k in keys ==> k in rows
    requires |out| < Max(1, limit) && result == ListFrom(keys, rows, now, dueBy, limit, out)
    ensures LooksUntilFull(keys, rows, result, now, Max(1, limit), j)
    decreases |keys|
  {
    if keys == [] {
      j := 0;
    } else {
      var r0 := Released(rows[keys[0]], now);
      var rest, next := keys[1..], rows[keys[0] := r0];
      assert keys[0] !in rest;
      if r0.status != Scheduled || r0.dueAt > dueBy {
        j := ListingLooks(rest, next, now, dueBy, limit, out, result);
        LooksAtOneMore(keys, rows, r0, result.0, now, j);
        j := j + 1;
      } else if |out| + 1 >= limit {
        j := 1;
        assert keys[..1] == [keys[0]];
      } else {
        j := ListingLooks(rest, next, now, dueBy, limit, out + [r0], result);
        LooksAtOneMore(keys, rows, r0, result.0, now, j);
        j := j + 1;
      }
    }
  }

  lemma DueListRecords(s: Store, now: int, op: Op, dueBy: int, result: (map<Key, Record>, seq<Record>))
    requires WellFormed(s) && op.ListDue? && result == ListFrom(s.order, s.rows, now, dueBy, op.limit, [])
    ensures result.1 == Take(DueRows(s.order, s.rows, now, dueBy), Max(1, op.limit))
  {
    ListingReturnsTheOldestDue(s.order, s.rows, now, dueBy, op.limit, []);
  }

  lemma DueListReply(s: Store, now: int, op: Op, reply: Reply, t: Store, dueBy: int) returns (j: nat)
    requires WellFormed(s) && op.ListDue? && (t, reply) == DoListDue(s, now, op.dueBy, op.limit)
    requires dueBy == if op.dueBy.Some? then op.dueBy.value else now
    ensures reply == Listed(Take(DueRows(s.order, s.rows, now, dueBy), Max(1, op.limit))) && t.order == s.order
    ensures LooksUntilFull(s.order, s.rows, (t.rows, reply.records), now, Max(1, op.limit), j)
  {
    var result := ListFrom(s.order, s.rows, now, dueBy, op.limit, []);
    assert t.rows == result.0 && reply == Listed(result.1);
    j := ListingLooks(s.order, s.rows, now, dueBy, op.limit, [], result);
    DueListRecords(s, now, op, dueBy, result);
  }

  /**
   * A due listing answers with the oldest due rows, by the caller's time or else the store's, and requeues every lapsed
   * lease up to the row that fills it.
   */
  lemma DueListReplies(r: Run, i: nat) returns (j: nat)
    requires IsRun(r) && i < |r.events| && r.events[i].op.ListDue?
    ensures Stepped(r, i) && r.states[i + 1].order == r.states[i].order && r.replies[i].Listed?
    ensures
      var op, now, s, t := r.events[i].op, r.events[i].now, r.states[i], r.states[i + 1];
      && r.replies[i].records ==
         Take(DueRows(s.order, s.rows, now, if op.dueBy.Some? then op.dueBy.value else now), Max(1, op.limit))
      && LooksUntilFull(s.order, s.rows, (t.rows, r.replies[i].records), now, Max(1, op.limit), j)
  {
    assert Stepped(r, i);
    var op, now := r.events[i].op, r.events[i].now;
    j := DueListReply(
      r.states[i], now, op, r.replies[i], r.states[i + 1], if op.dueBy.Some? then op.dueBy.value else now);
  }

  lemma CleanupReply(s: Store, now: int, op: Op, reply: Reply, t: Store)
    requires WellFormed(s) && op.DeleteExpired? && (t, reply) == Perform(s, now, op)
    ensures reply.Deleted?
    ensures Removed(s.rows, (t, reply.count), Removable(s.order, s.rows, op.before, op.atMost, 0), 0)
    ensures forall k :: k in t.rows ==> k in s.rows && t.rows[k] == s.rows[k]
  {
    var removable := Removable(s.order, s.rows, op.before, op.atMost, 0);
    CleanupRemovesTheOldest(s.order, s, op.before, op.atMost, 0, (t, reply.count), removable);
    DeleteFromDrops(s.order, s, op.before, op.atMost, 0);
  }

  /** A cleanup answers with the number of rows it took out: the oldest that had ended by then, up to its limit. */
  lemma CleanupReplies(r: Run, i: nat)
    requires IsRun(r) && i < |r.events| && r.events[i].op.DeleteExpired? && !r.replies[i].Crashed?
    ensures Stepped(r, i) && r.replies[i].Deleted?
    ensures
      var op, s, t := r.events[i].op, r.states[i], r.states[i + 1];
      Removed(s.rows, (t, r.replies[i].count), Removable(s.order, s.rows, op.before, op.atMost, 0), 0)
      && forall k :: k in t.rows ==> k in s.rows && t.rows[k] == s.rows[k]
  {
    assert Stepped(r, i);
    CleanupReply(r.states[i], r.events[i].now, r.events[i].op, r.replies[i], r.states[i + 1]);
  }

  // ---------------------------------------------------------------- order

  /** The keys that still have rows, in their old order. */
  function Surviving(order: seq<Key>, rows: map<Key, Record>): seq<Key> {
    if order == [] then []
    else (if order[0] in rows then [order[0]] else []) + Surviving(order[1..], rows)
  }

  lemma {:induction false} AllSurvive(order: seq<Key>, rows: map<Key, Record>)
    requires forall k :: k in order ==> k in rows
    ensures Surviving(order, rows) == order
  {
    if order == [] {
    } else {
      AllSurvive(order[1..], rows);
    }
  }

  lemma {:induction false} SurvivingADrop(order: seq<Key>, k: Key, rows: map<Key, Record>)
    requires k !in rows
    ensures Surviving(Without(order, k), rows) == Surviving(order, rows)
  {
    if order == [] {
    } else {
      SurvivingADrop(order[1..], k, rows);
      var rest := Without(order[1..], k);
      if order[0] == k {
      } else {
        assert Without(order, k)[1..] == rest;
      }
    }
  }

  lemma {:induction false} CleanupKeepsTheOrder(
    keys: seq<Key>, s: Store, before: int, limit: Option<int>, deleted: nat, t: Store)
    requires WellFormed(s) && Distinct(keys) && (forall k :: k in keys ==> k in s.rows)
    requires t == DeleteFrom(keys, s, before, limit, deleted).0
    ensures t.order == Surviving(s.order, t.rows)
    decreases |keys|
  {
    if keys == [] || (limit.Some? && deleted >= limit.value) {
      AllSurvive(s.order, s.rows);
    } else {
      var k, rest := keys[0], keys[1..];
      assert k !in rest;
      if Disposable(s.rows[k], before) {
        DropOne(s, k);
        CleanupKeepsTheOrder(rest, Drop(s, k), before, limit, deleted + 1, t);
        DeleteFromDrops(rest, Drop(s, k), before, limit, deleted + 1);
        assert k !in t.rows;
        SurvivingADrop(s.order, k, t.rows);
      } else {
        CleanupKeepsTheOrder(rest, s, before, limit, deleted, t);
      }
    }
  }

  /** No call but a schedule changes the places of the rows: those that stay keep their order. */
  lemma RowsKeepTheirPlaces(r: Run, i: nat)
    requires IsRun(r) && i < |r.events| && !r.events[i].op.Schedule?
    ensures r.states[i + 1].order == Surviving(r.states[i].order, r.states[i + 1].rows)
    ensures !r.events[i].op.DeleteExpired? ==> r.states[i + 1].order == r.states[i].order
  {
    assert Stepped(r, i);
    var s, t, op := r.states[i], r.states[i + 1], r.events[i].op;
    if op.DeleteExpired? && !s.failNextMutation {
      CleanupKeepsTheOrder(s.order, s, op.before, op.atMost, 0, t);
    } else {
      SameRowsSameOrder(s, r.events[i].now, op);
      AllSurvive(s.order, t.rows);
    }
  }

  lemma SameRowsSameOrder(s: Store, now: int, op: Op)
    requires WellFormed(s) && !op.Schedule? && (!op.DeleteExpired? || s.failNextMutation)
    ensures Step(s, now, op).0.order == s.order && Step(s, now, op).0.rows.Keys == s.rows.Keys
  {
  }
}
