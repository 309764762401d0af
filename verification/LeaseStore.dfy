/**
 * The in-memory reconciliation job store: rows that workers schedule, claim, renew, end, list
 * and clean up under expiring leases.
 *
 * Every operation has a specification on values (`Do...`, gathered by `Step`), and the class
 * `MemoryReconciliationStore` implements them over mutable fields.  The clock reading and the random
 * part of a lease token are parameters.
 */
module LeaseStore {
  import opened Wrappers

  type Key = string

  datatype Status = Scheduled | Claimed | Completed | Failed | ManualReview

  /** A lease token is built from the clock, the generation and a random part. */
  datatype Token = Token(issuedAt: int, generation: nat, nonce: nat)

  datatype Record = Record(
    key: Key,
    status: Status,
    subjectId: string,
    reason: string,
    attempts: int,
    dueAt: int,
    createdAt: int,
    updatedAt: int,
    generation: nat,
    leaseOwner: Option<string>,
    leaseToken: Option<Token>,
    leaseExpiresAt: Option<int>,
    lastError: Option<string>)

  /** `order` is the insertion order of the rows, which eviction, listing and cleanup follow. */
  datatype Store = Store(
    maxEntries: Option<int>,
    order: seq<Key>,
    rows: map<Key, Record>,
    failNextMutation: bool,
    sticky: bool)

  datatype Op =
    | Schedule(key: Key, subjectId: string, reason: string, dueAt: int)
    | Claim(key: Key, owner: string, leaseMs: int, nonce: nat)
    | Renew(key: Key, token: Token, leaseMs: int, nonce: nat)
    | Complete(key: Key, token: Token)
    | Fail(key: Key, token: Token, error: string, retryAt: Option<int>)
    | MarkManualReview(key: Key, token: Token, note: Option<string>)
    | Get(key: Key)
    | ListDue(dueBy: Option<int>, limit: int)
    | ListTerminal(limit: int)
    | DeleteExpired(before: int, atMost: Option<int>)
    | SimulateCrash(stay: bool)

  datatype RenewRefusal = RowMissing | WrongStatus | LeaseLost

  datatype Reply =
    | Opened(record: Record)
    | AlreadyExists(record: Record)
    | AtCapacity
    | Acquired(record: Record, token: Token)
    | NotDue(record: Record)
    | InProgress(record: Record)
    | AlreadyTerminal(record: Record)
    | NotFound
    | Renewed(record: Record, token: Token)
    | RenewRefused(reason: RenewRefusal)
    | Accepted
    | Rejected
    | Found(row: Option<Record>)
    | Listed(records: seq<Record>)
    | Deleted(count: nat)
    | Crashed
    | CrashArmed

  // ---------------------------------------------------------------- rows

  predicate IsTerminal(s: Status) {
    s == Completed || s == Failed || s == ManualReview
  }

  predicate LeaseActive(r: Record, now: int) {
    r.leaseExpiresAt.Some? && r.leaseExpiresAt.value > now
  }

  /** A claimed row whose lease is still running: nobody else may take or evict it. */
  predicate Live(r: Record, now: int) {
    r.status == Claimed && LeaseActive(r, now)
  }

  predicate Lapsed(r: Record, now: int) {
    r.status == Claimed && r.leaseExpiresAt.Some? && r.leaseExpiresAt.value <= now
  }

  function Max(a: int, b: int): int {
    if a < b then b else a
  }

  function WithoutLease(r: Record, status: Status, now: int): Record {
    r.(status := status, leaseToken := None, leaseOwner := None, leaseExpiresAt := None, updatedAt := now)
  }

  /** The soft release: a lapsed claim goes back to the queue and gives its attempt back. */
  function Released(r: Record, now: int): Record {
    if Lapsed(r, now) then WithoutLease(r, Scheduled, now).(attempts := Max(0, r.attempts - 1)) else r
  }

  function WithLease(r: Record, owner: Option<string>, token: Token, leaseMs: int, now: int): Record {
    r.(status := Claimed, leaseOwner := owner, leaseToken := Some(token), leaseExpiresAt := Some(now + leaseMs),
    generation := token.generation, updatedAt := now)
  }

  /** A claim on a queued row takes one attempt. */
  function ClaimedRow(r: Record, owner: string, token: Token, leaseMs: int, now: int): Record {
    var attempts := if r.status == Scheduled then r.attempts + 1 else r.attempts;
    WithLease(r, Some(owner), token, leaseMs, now).(attempts := attempts)
  }

  // ---------------------------------------------------------------- the insertion-ordered map

  ghost predicate Distinct<T(!new)>(s: seq<T>) {
    forall i, j :: 0 <= i < j < |s| ==> s[i] != s[j]
  }

  ghost predicate WellFormed(s: Store) {
    && Distinct(s.order)
    && (forall k :: k in s.order <==> k in s.rows)
    && (forall k :: k in s.rows ==> s.rows[k].key == k)
  }

  function Row(s: Store, k: Key): Option<Record> {
    if k in s.rows then Some(s.rows[k]) else None
  }

  /** Setting a key keeps its place if it is present and appends it otherwise. */
  function Put(s: Store, k: Key, r: Record): Store {
    s.(rows := s.rows[k := r], order := if k in s.rows then s.order else s.order + [k])
  }

  function Without(order: seq<Key>, k: Key): (r: seq<Key>)
    ensures forall x :: x in r <==> x in order && x != k
    ensures Distinct(order) ==> Distinct(r)
    ensures |r| <= |order|
    ensures k in order ==> |r| < |order|
  {
    if order == [] then []
    else
      var rest := Without(order[1..], k);
      if order[0] == k then rest
      else
        assert Distinct(order) ==> order[0] !in rest && Distinct(rest) by {
          if Distinct(order) {
            assert forall i :: 0 < i < |order| ==> order[1..][i - 1] == order[i];
          }
        }
        [order[0]] + rest
  }

  function Drop(s: Store, k: Key): Store {
    s.(rows := s.rows - {k}, order := Without(s.order, k))
  }

  // ---------------------------------------------------------------- capacity

  /** The oldest row that is not a live claim. */
  function FirstVictim(order: seq<Key>, rows: map<Key, Record>, now: int): (v: Option<Key>)
    requires forall k :: k in order ==> k in rows
    ensures v.Some? ==> v.value in order && !Live(rows[v.value], now)
    ensures v.Some? ==>
      exists i :: 0 <= i < |order| && order[i] == v.value && forall j :: 0 <= j < i ==> Live(rows[order[j]], now)
    ensures v.None? ==> forall k :: k in order ==> Live(rows[k], now)
  {
    if order == [] then None
    else if Live(rows[order[0]], now) then FirstVictim(order[1..], rows, now)
    else Some(order[0])
  }

  /** Looking for the victim from one place on. */
  lemma VictimFrom(order: seq<Key>, rows: map<Key, Record>, now: int, i: nat)
    requires i < |order| && forall k :: k in order ==> k in rows
    ensures FirstVictim(order[i..], rows, now) ==
      if Live(rows[order[i]], now) then FirstVictim(order[i + 1..], rows, now) else Some(order[i])
  {
    assert order[i..][1..] == order[i + 1..];
  }

  /** Evict until there is room; `false` means only live claims were left to evict. */
  function MakeRoom(s: Store, cap: int, now: int): (r: (Store, bool))
    requires WellFormed(s)
    ensures WellFormed(r.0)
    ensures r.1 ==> |r.0.order| < cap
    ensures r.0 == s.(order := r.0.order, rows := r.0.rows)
    ensures forall k :: k in r.0.rows ==> k in s.rows && r.0.rows[k] == s.rows[k]
    ensures forall k :: k in s.rows && k !in r.0.rows ==> !Live(s.rows[k], now)
    ensures !r.1 ==> forall k :: k in r.0.rows ==> Live(r.0.rows[k], now)
    ensures |r.0.order| <= |s.order|
    decreases |s.order|
  {
    if |s.order| < cap then (s, true)
    else
      match FirstVictim(s.order, s.rows, now)
      case None => (s, false)
      case Some(v) => MakeRoom(Drop(s, v), cap, now)
  }

  function EnforceCap(s: Store, newKey: Key, now: int): (r: (Store, bool))
    requires WellFormed(s)
  {
    if s.maxEntries.None? || newKey in s.rows then (s, true)
    else MakeRoom(s, s.maxEntries.value, now)
  }

  // ---------------------------------------------------------------- operations

  function NewRecord(k: Key, subjectId: string, reason: string, dueAt: int, createdAt: int, generation: nat, now: int)
    : Record
  {
    Record(k, Scheduled, subjectId, reason, 0, dueAt, createdAt, now, generation, None, None, None, None)
  }

  function DoSchedule(s: Store, now: int, k: Key, subjectId: string, reason: string, dueAt: int): (Store, Reply)
    requires WellFormed(s)
  {
    if k in s.rows then
      if IsTerminal(s.rows[k].status) then
        var r := NewRecord(k, subjectId, reason, dueAt, s.rows[k].createdAt, s.rows[k].generation, now);
        (Put(s, k, r), Opened(r))
      else
        (s, AlreadyExists(s.rows[k]))
    else
      var (room, ok) := EnforceCap(s, k, now);
      if ok then
        var r := NewRecord(k, subjectId, reason, dueAt, now, 0, now);
        (Put(room, k, r), Opened(r))
      else
        (room, AtCapacity)
  }

  function DoClaim(s: Store, now: int, k: Key, owner: string, leaseMs: int, nonce: nat): (Store, Reply) {
    if k !in s.rows then (s, NotFound)
    else
      var r := Released(s.rows[k], now);
      var s1 := Put(s, k, r);
      if IsTerminal(r.status) then (s1, AlreadyTerminal(r))
      else if Live(r, now) then (s1, InProgress(r))
      else if r.dueAt > now then (s1, NotDue(r))
      else
        var token := Token(now, r.generation + 1, nonce);
        var c := ClaimedRow(r, owner, token, leaseMs, now);
        (Put(s1, k, c), Acquired(c, token))
  }

  function DoRenew(s: Store, now: int, k: Key, token: Token, leaseMs: int, nonce: nat): (Store, Reply) {
    if k !in s.rows then (s, RenewRefused(RowMissing))
    else
      var r := s.rows[k];
      if r.status != Claimed then (s, RenewRefused(WrongStatus))
      else if r.leaseToken != Some(token) || !LeaseActive(r, now) then (s, RenewRefused(LeaseLost))
      else
        var next := Token(now, r.generation + 1, nonce);
        var c := WithLease(r, r.leaseOwner, next, leaseMs, now);
        (Put(s, k, c), Renewed(c, next))
  }

  predicate HoldsToken(s: Store, k: Key, token: Token) {
    k in s.rows && s.rows[k].status == Claimed && s.rows[k].leaseToken == Some(token)
  }

  function DoComplete(s: Store, now: int, k: Key, token: Token): (Store, Reply) {
    if !HoldsToken(s, k, token) || !LeaseActive(s.rows[k], now) then (s, Rejected)
    else (Put(s, k, WithoutLease(s.rows[k], Completed, now)), Accepted)
  }

  /** Unlike the other fenced calls, a failure may be reported after the lease ran out. */
  function DoFail(s: Store, now: int, k: Key, token: Token, error: string, retryAt: Option<int>): (Store, Reply) {
    if !HoldsToken(s, k, token) then (s, Rejected)
    else
      var r := s.rows[k].(lastError := Some(error));
      var ended :=
        if retryAt.Some? then WithoutLease(r, Scheduled, now).(dueAt := retryAt.value)
        else WithoutLease(r, Failed, now);
      (Put(s, k, ended), Accepted)
  }

  function DoMarkManualReview(s: Store, now: int, k: Key, token: Token, note: Option<string>): (Store, Reply) {
    if !HoldsToken(s, k, token) || !LeaseActive(s.rows[k], now) then (s, Rejected)
    else
      var r := WithoutLease(s.rows[k], ManualReview, now);
      (Put(s, k, if note.Some? then r.(lastError := note) else r), Accepted)
  }

  /** One pass over the keys in insertion order; stops once `limit` rows have been collected. */
  function ListFrom(keys: seq<Key>, rows: map<Key, Record>, now: int, dueBy: int, limit: int, out: seq<Record>)
    : (r: (map<Key, Record>, seq<Record>))
    requires forall k :: k in keys ==> k in rows
    ensures r.0.Keys == rows.Keys
  {
    if keys == [] then (rows, out)
    else
      var r := Released(rows[keys[0]], now);
      var rows' := rows[keys[0] := r];
      if r.status != Scheduled || r.dueAt > dueBy then ListFrom(keys[1..], rows', now, dueBy, limit, out)
      else if |out| + 1 >= limit then (rows', out + [r])
      else ListFrom(keys[1..], rows', now, dueBy, limit, out + [r])
  }

  function DoListDue(s: Store, now: int, dueBy: Option<int>, limit: int): (Store, Reply)
    requires WellFormed(s)
  {
    var (rows, out) := ListFrom(s.order, s.rows, now, if dueBy.Some? then dueBy.value else now, limit, []);
    (s.(rows := rows), Listed(out))
  }

  function TerminalFrom(keys: seq<Key>, rows: map<Key, Record>, limit: int, out: seq<Record>): seq<Record>
    requires forall k :: k in keys ==> k in rows
  {
    if keys == [] then out
    else if rows[keys[0]].status != ManualReview && rows[keys[0]].status != Failed then
      TerminalFrom(keys[1..], rows, limit, out)
    else if |out| + 1 >= limit then out + [rows[keys[0]]]
    else TerminalFrom(keys[1..], rows, limit, out + [rows[keys[0]]])
  }

  predicate Disposable(r: Record, before: int) {
    r.updatedAt <= before && IsTerminal(r.status)
  }

  function DeleteFrom(keys: seq<Key>, s: Store, before: int, limit: Option<int>, deleted: nat): (Store, nat)
    requires Distinct(keys) && forall k :: k in keys ==> k in s.rows
  {
    if keys == [] || (limit.Some? && deleted >= limit.value) then (s, deleted)
    else if Disposable(s.rows[keys[0]], before) then
      DeleteFrom(keys[1..], Drop(s, keys[0]), before, limit, deleted + 1)
    else DeleteFrom(keys[1..], s, before, limit, deleted)
  }

  function DoDeleteExpired(s: Store, before: int, limit: Option<int>): (Store, Reply)
    requires WellFormed(s)
  {
    var (s', n) := DeleteFrom(s.order, s, before, limit, 0);
    (s', Deleted(n))
  }

  /** The operations that pass the simulated crash boundary before they touch a row. */
  predicate Guarded(op: Op) {
    !(op.Get? || op.ListDue? || op.ListTerminal? || op.SimulateCrash?)
  }

  function Perform(s: Store, now: int, op: Op): (Store, Reply)
    requires WellFormed(s)
  {
    match op
    case Schedule(k, subjectId, reason, dueAt) => DoSchedule(s, now, k, subjectId, reason, dueAt)
    case Claim(k, owner, leaseMs, nonce) => DoClaim(s, now, k, owner, leaseMs, nonce)
    case Renew(k, token, leaseMs, nonce) => DoRenew(s, now, k, token, leaseMs, nonce)
    case Complete(k, token) => DoComplete(s, now, k, token)
    case Fail(k, token, error, retryAt) => DoFail(s, now, k, token, error, retryAt)
    case MarkManualReview(k, token, note) => DoMarkManualReview(s, now, k, token, note)
    case Get(k) => (s, Found(Row(s, k)))
    case ListDue(dueBy, limit) => DoListDue(s, now, dueBy, limit)
    case ListTerminal(limit) => (s, Listed(TerminalFrom(s.order, s.rows, limit, [])))
    case DeleteExpired(before, limit) => DoDeleteExpired(s, before, limit)
    case SimulateCrash(stay) => (s.(failNextMutation := true, sticky := stay), CrashArmed)
  }

  function Step(s: Store, now: int, op: Op): (Store, Reply)
    requires WellFormed(s)
  {
    if Guarded(op) && s.failNextMutation then (s.(failNextMutation := s.sticky), Crashed)
    else Perform(s, now, op)
  }

  function Empty(maxEntries: Option<int>): Store {
    Store(maxEntries, [], map[], false, false)
  }

  // ---------------------------------------------------------------- what the loops do to a row

  lemma {:induction false} ListFromRows(
    keys: seq<Key>, rows: map<Key, Record>, now: int, dueBy: int, limit: int, out: seq<Record>)
    requires Distinct(keys) && forall k :: k in keys ==> k in rows
    ensures forall k :: k in rows ==>
      var after := ListFrom(keys, rows, now, dueBy, limit, out).0[k];
      after == rows[k] || (k in keys && after == Released(rows[k], now))
    decreases |keys|
  {
    if keys == [] {
    } else {
      var r := Released(rows[keys[0]], now);
      var rows' := rows[keys[0] := r];
      if r.status != Scheduled || r.dueAt > dueBy {
        ListFromRows(keys[1..], rows', now, dueBy, limit, out);
      } else if |out| + 1 < limit {
        ListFromRows(keys[1..], rows', now, dueBy, limit, out + [r]);
      }
    }
  }

  function Take<T>(s: seq<T>, n: int): seq<T> {
    if n <= 0 then [] else if n >= |s| then s else s[..n]
  }

  lemma TakeOne<T>(out: seq<T>, x: T, others: seq<T>, n: int)
    requires n >= 1
    ensures out + Take([x] + others, n) == (out + [x]) + Take(others, n - 1)
  {
  }

  predicate Due(r: Record, dueBy: int) {
    r.status == Scheduled && r.dueAt <= dueBy
  }

  /** Every row a listing could return, in insertion order, as it stands after the soft release. */
  function DueRows(keys: seq<Key>, rows: map<Key, Record>, now: int, dueBy: int): seq<Record>
    requires forall k :: k in keys ==> k in rows
  {
    if keys == [] then []
    else
      var r := Released(rows[keys[0]], now);
      (if Due(r, dueBy) then [r] else []) + DueRows(keys[1..], rows, now, dueBy)
  }

  lemma {:induction false} DueRowsFrame(keys: seq<Key>, rows: map<Key, Record>, k: Key, r: Record, now: int, dueBy: int)
    requires (forall x :: x in keys ==> x in rows) && k !in keys
    ensures DueRows(keys, rows[k := r], now, dueBy) == DueRows(keys, rows, now, dueBy)
  {
    if keys == [] {
    } else {
      DueRowsFrame(keys[1..], rows, k, r, now, dueBy);
    }
  }

  /** A listing returns the oldest due rows, `limit` of them but always at least one if there is one. */
  lemma {:induction false} ListingReturnsTheOldestDue(
    keys: seq<Key>, rows: map<Key, Record>, now: int, dueBy: int, limit: int, out: seq<Record>)
    requires Distinct(keys) && forall k :: k in keys ==> k in rows
    requires |out| < Max(1, limit)
    ensures ListFrom(keys, rows, now, dueBy, limit, out).1 ==
      out + Take(DueRows(keys, rows, now, dueBy), Max(1, limit) - |out|)
    decreases |keys|
  {
    if keys == [] {
    } else {
      var r := Released(rows[keys[0]], now);
      var rest, rows' := keys[1..], rows[keys[0] := r];
      assert keys[0] !in rest;
      DueRowsFrame(rest, rows, keys[0], r, now, dueBy);
      var others, n := DueRows(rest, rows, now, dueBy), Max(1, limit) - |out|;
      if !Due(r, dueBy) {
        assert DueRows(keys, rows, now, dueBy) == others;
        ListingReturnsTheOldestDue(rest, rows', now, dueBy, limit, out);
      } else {
        assert DueRows(keys, rows, now, dueBy) == [r] + others;
        TakeOne(out, r, others, n);
        if |out| + 1 < limit {
          ListingReturnsTheOldestDue(rest, rows', now, dueBy, limit, out + [r]);
        }
      }
    }
  }

  /** Every dead-letter row, in insertion order. */
  function DeadLetters(keys: seq<Key>, rows: map<Key, Record>): seq<Record>
    requires forall k :: k in keys ==> k in rows
  {
    if keys == [] then []
    else
      var r := rows[keys[0]];
      (if r.status == ManualReview || r.status == Failed then [r] else []) + DeadLetters(keys[1..], rows)
  }

  lemma {:induction false} TerminalListingReturnsTheOldest(
    keys: seq<Key>, rows: map<Key, Record>, limit: int, out: seq<Record>)
    requires forall k :: k in keys ==> k in rows
    requires |out| < Max(1, limit)
    ensures TerminalFrom(keys, rows, limit, out) == out + Take(DeadLetters(keys, rows), Max(1, limit) - |out|)
    decreases |keys|
  {
    if keys == [] {
    } else {
      var r, others := rows[keys[0]], DeadLetters(keys[1..], rows);
      if r.status != ManualReview && r.status != Failed {
        assert DeadLetters(keys, rows) == others;
        TerminalListingReturnsTheOldest(keys[1..], rows, limit, out);
      } else {
        assert DeadLetters(keys, rows) == [r] + others;
        TakeOne(out, r, others, Max(1, limit) - |out|);
        if |out| + 1 < limit {
          TerminalListingReturnsTheOldest(keys[1..], rows, limit, out + [r]);
        }
      }
    }
  }

  /** `after` is `before` with some rows taken out and nothing else changed. */
  ghost predicate OnlyDropped(s: Store, after: Store) {
    && after == s.(order := after.order, rows := after.rows)
    && forall k :: k in after.rows ==> k in s.rows && after.rows[k] == s.rows[k]
  }

  lemma DropOne(s: Store, k: Key)
    requires WellFormed(s) && k in s.rows
    ensures WellFormed(Drop(s, k)) && OnlyDropped(s, Drop(s, k))
    ensures |Drop(s, k).rows| == |s.rows| - 1
  {
    var s' := Drop(s, k);
    assert s.rows.Keys == s'.rows.Keys + {k};
    assert |s.rows.Keys| == |s.rows| && |s'.rows.Keys| == |s'.rows|;
  }

  /** `after` is `s` without some rows that a cleanup may take out. */
  ghost predicate CleanedUp(s: Store, after: Store, before: int) {
    && WellFormed(after) && OnlyDropped(s, after)
    && forall k :: k in s.rows && k !in after.rows ==> Disposable(s.rows[k], before)
  }

  lemma CleanedUpOneMore(s: Store, k: Key, after: Store, before: int)
    requires WellFormed(s) && k in s.rows && Disposable(s.rows[k], before) && CleanedUp(Drop(s, k), after, before)
    ensures CleanedUp(s, after, before)
  {
    DropOne(s, k);
  }

  /** Cleanup takes out terminal rows that are old enough and leaves every other row alone. */
  lemma {:induction false} DeleteFromDrops(keys: seq<Key>, s: Store, before: int, limit: Option<int>, deleted: nat)
    requires WellFormed(s) && Distinct(keys) && forall k :: k in keys ==> k in s.rows
    ensures CleanedUp(s, DeleteFrom(keys, s, before, limit, deleted).0, before)
    decreases |keys|
  {
    if keys == [] || (limit.Some? && deleted >= limit.value) {
    } else {
      var k, rest := keys[0], keys[1..];
      assert k !in rest;
      if Disposable(s.rows[k], before) {
        DropOne(s, k);
        DeleteFromDrops(rest, Drop(s, k), before, limit, deleted + 1);
        CleanedUpOneMore(s, k, DeleteFrom(rest, Drop(s, k), before, limit, deleted + 1).0, before);
      } else {
        DeleteFromDrops(rest, s, before, limit, deleted);
      }
    }
  }

  /** The keys a cleanup may take out, in insertion order. */
  function DisposableKeys(keys: seq<Key>, rows: map<Key, Record>, before: int): seq<Key>
    requires forall k :: k in keys ==> k in rows
  {
    if keys == [] then []
    else
      var r := rows[keys[0]];
      (if r.status in {Completed, Failed, ManualReview} && r.updatedAt <= before then [keys[0]] else [])
      + DisposableKeys(keys[1..], rows, before)
  }

  lemma {:induction false} DisposableKeysFrame(keys: seq<Key>, rows: map<Key, Record>, k: Key, before: int)
    requires (forall x :: x in keys ==> x in rows) && k !in keys
    ensures DisposableKeys(keys, rows - {k}, before) == DisposableKeys(keys, rows, before)
  {
    if keys == [] {
    } else {
      DisposableKeysFrame(keys[1..], rows, k, before);
    }
  }

  /** How many rows a cleanup may still take out of `available`. */
  function Room(limit: Option<int>, deleted: nat, available: nat): int {
    if limit.None? then available else limit.value - deleted
  }

  /** Of `rows`, exactly those in `gone` are out of the resulting store, and they have been counted. */
  ghost predicate Removed(rows: map<Key, Record>, result: (Store, nat), gone: seq<Key>, deleted: nat) {
    && result.1 == deleted + |gone|
    && forall x :: x in rows ==> (x in result.0.rows <==> x !in gone)
  }

  lemma OneMoreGone(
    rows: map<Key, Record>, result: (Store, nat), k: Key, others: seq<Key>, limit: Option<int>, deleted: nat)
    requires limit.None? || deleted < limit.value
    requires Removed(rows - {k}, result, Take(others, Room(limit, deleted + 1, |others|)), deleted + 1)
    requires k !in result.0.rows
    ensures Removed(rows, result, Take([k] + others, Room(limit, deleted, |others| + 1)), deleted)
  {
    var rest := Take(others, Room(limit, deleted + 1, |others|));
    assert Take([k] + others, Room(limit, deleted, |others| + 1)) == [k] + rest;
  }

  /** What a cleanup may take out of the keys still ahead of it. */
  function Removable(keys: seq<Key>, rows: map<Key, Record>, before: int, limit: Option<int>, deleted: nat): seq<Key>
    requires forall k :: k in keys ==> k in rows
  {
    var disposable := DisposableKeys(keys, rows, before);
    Take(disposable, Room(limit, deleted, |disposable|))
  }

  /** Nothing more is taken out: the keys or the room ran out. */
  lemma CleanupStops(
    keys: seq<Key>, s: Store, before: int, limit: Option<int>, deleted: nat, result: (Store, nat), gone: seq<Key>)
    requires Distinct(keys) && (forall k :: k in keys ==> k in s.rows)
    requires keys == [] || (limit.Some? && deleted >= limit.value)
    requires result == DeleteFrom(keys, s, before, limit, deleted)
    requires gone == Removable(keys, s.rows, before, limit, deleted)
    ensures Removed(s.rows, result, gone, deleted)
  {
    assert gone == [];
  }

  lemma CleanupSkips(keys: seq<Key>, s: Store, before: int, limit: Option<int>, deleted: nat)
    requires Distinct(keys) && (forall k :: k in keys ==> k in s.rows)
    requires keys != [] && !(limit.Some? && deleted >= limit.value) && !Disposable(s.rows[keys[0]], before)
    ensures DeleteFrom(keys, s, before, limit, deleted) == DeleteFrom(keys[1..], s, before, limit, deleted)
    ensures Removable(keys, s.rows, before, limit, deleted) == Removable(keys[1..], s.rows, before, limit, deleted)
  {
    assert DisposableKeys(keys, s.rows, before) == DisposableKeys(keys[1..], s.rows, before);
  }

  /** A cleanup takes out the oldest disposable rows, as many as its limit allows, and its reply counts them. */
  lemma {:induction false} CleanupRemovesTheOldest(
    keys: seq<Key>, s: Store, before: int, limit: Option<int>, deleted: nat, result: (Store, nat), gone: seq<Key>)
    requires WellFormed(s) && Distinct(keys) && forall k :: k in keys ==> k in s.rows
    requires result == DeleteFrom(keys, s, before, limit, deleted)
    requires gone == Removable(keys, s.rows, before, limit, deleted)
    ensures Removed(s.rows, result, gone, deleted)
    decreases |keys|, 1
  {
    if keys == [] || (limit.Some? && deleted >= limit.value) {
      CleanupStops(keys, s, before, limit, deleted, result, gone);
    } else if Disposable(s.rows[keys[0]], before) {
      CleanupTakes(keys, s, before, limit, deleted, result, gone);
    } else {
      CleanupSkips(keys, s, before, limit, deleted);
      CleanupRemovesTheOldest(keys[1..], s, before, limit, deleted, result, gone);
    }
  }

  lemma {:induction false} CleanupTakes(
    keys: seq<Key>, s: Store, before: int, limit: Option<int>, deleted: nat, result: (Store, nat), gone: seq<Key>)
    requires WellFormed(s) && Distinct(keys) && (forall k :: k in keys ==> k in s.rows)
    requires keys != [] && !(limit.Some? && deleted >= limit.value) && Disposable(s.rows[keys[0]], before)
    requires result == DeleteFrom(keys, s, before, limit, deleted)
    requires gone == Removable(keys, s.rows, before, limit, deleted)
    ensures Removed(s.rows, result, gone, deleted)
    decreases |keys|, 0
  {
    var k, rest := keys[0], keys[1..];
    assert k !in rest;
    var others, s1 := DisposableKeys(rest, s.rows, before), Drop(s, k);
    DropOne(s, k);
    DisposableKeysFrame(rest, s.rows, k, before);
    CleanupRemovesTheOldest(
      rest, s1, before, limit, deleted + 1, result, Take(others, Room(limit, deleted + 1, |others|)));
    DeleteFromDrops(rest, s1, before, limit, deleted + 1);
    OneMoreGone(s.rows, result, k, others, limit, deleted);
  }

  lemma PutWellFormed(s: Store, k: Key, r: Record)
    requires WellFormed(s) && r.key == k
    ensures WellFormed(Put(s, k, r))
  {
    if k !in s.rows {
      assert k !in s.order;
    }
  }

  lemma ClaimWellFormed(s: Store, now: int, k: Key, owner: string, leaseMs: int, nonce: nat)
    requires WellFormed(s)
    ensures WellFormed(DoClaim(s, now, k, owner, leaseMs, nonce).0)
  {
    if k in s.rows {
      PutWellFormed(s, k, Released(s.rows[k], now));
    }
  }

  lemma ScheduleWellFormed(s: Store, now: int, k: Key, subjectId: string, reason: string, dueAt: int)
    requires WellFormed(s)
    ensures WellFormed(DoSchedule(s, now, k, subjectId, reason, dueAt).0)
  {
    if k !in s.rows {
      var (room, ok) := EnforceCap(s, k, now);
      PutWellFormed(room, k, NewRecord(k, subjectId, reason, dueAt, now, 0, now));
    }
  }

  lemma ListDueWellFormed(s: Store, now: int, dueBy: Option<int>, limit: int)
    requires WellFormed(s)
    ensures WellFormed(DoListDue(s, now, dueBy, limit).0)
  {
    ListFromRows(s.order, s.rows, now, if dueBy.Some? then dueBy.value else now, limit, []);
  }

  lemma DeleteExpiredWellFormed(s: Store, before: int, limit: Option<int>)
    requires WellFormed(s)
    ensures WellFormed(DoDeleteExpired(s, before, limit).0)
  {
    DeleteFromDrops(s.order, s, before, limit, 0);
  }

  lemma RenewWellFormed(s: Store, now: int, k: Key, token: Token, leaseMs: int, nonce: nat)
    requires WellFormed(s)
    ensures WellFormed(DoRenew(s, now, k, token, leaseMs, nonce).0)
  {
    if k in s.rows {
      var r := s.rows[k];
      PutWellFormed(s, k, WithLease(r, r.leaseOwner, Token(now, r.generation + 1, nonce), leaseMs, now));
    }
  }

  lemma EndingsWellFormed(s: Store, now: int, op: Op)
    requires WellFormed(s) && (op.Complete? || op.Fail? || op.MarkManualReview?)
    ensures WellFormed(Perform(s, now, op).0)
  {
    var s' := Perform(s, now, op).0;
    if s' != s {
      PutWellFormed(s, op.key, s'.rows[op.key]);
    }
  }

  lemma PerformWellFormed(s: Store, now: int, op: Op)
    requires WellFormed(s)
    ensures WellFormed(Perform(s, now, op).0)
  {
    match op
    case DeleteExpired(before, limit) => DeleteExpiredWellFormed(s, before, limit);
    case ListDue(dueBy, limit) => ListDueWellFormed(s, now, dueBy, limit);
    case Schedule(k, subjectId, reason, dueAt) => ScheduleWellFormed(s, now, k, subjectId, reason, dueAt);
    case Claim(k, owner, leaseMs, nonce) => ClaimWellFormed(s, now, k, owner, leaseMs, nonce);
    case Renew(k, token, leaseMs, nonce) => RenewWellFormed(s, now, k, token, leaseMs, nonce);
    case Complete(_, _) => EndingsWellFormed(s, now, op);
    case Fail(_, _, _, _) => EndingsWellFormed(s, now, op);
    case MarkManualReview(_, _, _) => EndingsWellFormed(s, now, op);
    case _ =>
  }

  lemma StepWellFormed(s: Store, now: int, op: Op)
    requires WellFormed(s)
    ensures WellFormed(Step(s, now, op).0)
  {
    if !(Guarded(op) && s.failNextMutation) {
      PerformWellFormed(s, now, op);
    }
  }
}
