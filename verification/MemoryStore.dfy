/**
 * The store itself: mutable rows behind the operations of the reconciliation store contract.
 * Every method is proved to do exactly what `LeaseStore.Step` says.
 */
module MemoryStore {
  import opened Wrappers
  import opened LeaseStore

  class MemoryReconciliationStore {
    const maxEntries: Option<int>
    var order: seq<Key>
    var entries: map<Key, Record>
    var failNextMutation: bool
    var sticky: bool

    ghost function Contents(): Store
      reads this
    {
      Store(maxEntries, order, entries, failNextMutation, sticky)
    }

    ghost predicate Valid()
      reads this
    {
      WellFormed(Contents())
    }

    constructor (maxEntries: Option<int>)
      ensures Valid() && Contents() == Empty(maxEntries)
    {
      this.maxEntries := maxEntries;
      order, entries, failNextMutation, sticky := [], map[], false, false;
    }

    // ------------------------------------------------------------ the insertion-ordered map

    method SetEntry(key: Key, r: Record)
      requires Valid() && r.key == key
      modifies this`order, this`entries
      ensures Valid() && Contents() == Put(old(Contents()), key, r)
    {
      PutWellFormed(Contents(), key, r);
      if key !in entries {
        order := order + [key];
      }
      entries := entries[key := r];
    }

    method DeleteEntry(key: Key)
      requires Valid() && key in entries
      modifies this`order, this`entries
      ensures Valid() && Contents() == Drop(old(Contents()), key)
    {
      DropOne(Contents(), key);
      order := Without(order, key);
      entries := entries - {key};
    }

    method MaybeCrash() returns (crashed: bool)
      requires Valid()
      modifies this`failNextMutation
      ensures Valid() && crashed == old(failNextMutation)
      ensures Contents() == old(Contents()).(failNextMutation := crashed && sticky)
    {
      crashed := failNextMutation;
      if failNextMutation && !sticky {
        failNextMutation := false;
      }
    }

    /** Soft release of a lapsed claim; used by claims and listings only. */
    method ReleaseExpiredLease(key: Key, r: Record, now: int) returns (released: Record)
      requires Valid() && key in entries && entries[key] == r
      modifies this`order, this`entries
      ensures Valid() && released == Released(r, now)
      ensures Contents() == old(Contents()).(rows := old(entries)[key := released])
    {
      released := r;
      if r.status == Claimed && r.leaseExpiresAt.Some? && r.leaseExpiresAt.value <= now {
        released := WithoutLease(r, Scheduled, now).(attempts := Max(0, r.attempts - 1));
        SetEntry(key, released);
      }
    }

    method FindVictim(now: int) returns (victim: Option<Key>)
      requires Valid()
      ensures victim == FirstVictim(order, entries, now)
    {
      for i := 0 to |order|
        invariant FirstVictim(order, entries, now) == FirstVictim(order[i..], entries, now)
      {
        VictimFrom(order, entries, now, i);
        if !Live(entries[order[i]], now) {
          return Some(order[i]);
        }
      }
      return None;
    }

    /** Evict non-live rows, oldest first, until the new key fits; refuse if only live claims are left. */
    method EnforceCapacity(newKey: Key, now: int) returns (ok: bool)
      requires Valid()
      modifies this`order, this`entries
      ensures Valid() && (Contents(), ok) == EnforceCap(old(Contents()), newKey, now)
    {
      if maxEntries.None? || newKey in entries {
        return true;
      }
      ok := true;
      while |order| >= maxEntries.value && ok
        invariant Valid()
        invariant ok ==> MakeRoom(old(Contents()), maxEntries.value, now) == MakeRoom(Contents(), maxEntries.value, now)
        invariant !ok ==> (Contents(), false) == MakeRoom(old(Contents()), maxEntries.value, now)
        decreases |order|, ok
      {
        var victim := FindVictim(now);
        if victim.None? {
          ok := false;
        } else {
          DeleteEntry(victim.value);
        }
      }
    }

    // ------------------------------------------------------------ the store contract

    method ScheduleJob(key: Key, subjectId: string, reason: string, dueAt: int, now: int) returns (reply: Reply)
      requires Valid()
      modifies this
      ensures Valid() && (Contents(), reply) == Step(old(Contents()), now, Schedule(key, subjectId, reason, dueAt))
    {
      var crashed := MaybeCrash();
      if crashed {
        return Crashed;
      }
      if key in entries {
        var existing := entries[key];
        if IsTerminal(existing.status) {
          var r := NewRecord(key, subjectId, reason, dueAt, existing.createdAt, existing.generation, now);
          SetEntry(key, r);
          return Opened(r);
        }
        return AlreadyExists(existing);
      }
      var ok := EnforceCapacity(key, now);
      if !ok {
        return AtCapacity;
      }
      var r := NewRecord(key, subjectId, reason, dueAt, now, 0, now);
      SetEntry(key, r);
      return Opened(r);
    }

    method ClaimJob(key: Key, owner: string, leaseMs: int, nonce: nat, now: int) returns (reply: Reply)
      requires Valid()
      modifies this
      ensures Valid() && (Contents(), reply) == Step(old(Contents()), now, Claim(key, owner, leaseMs, nonce))
    {
      var crashed := MaybeCrash();
      if crashed {
        return Crashed;
      }
      reply := TakeRow(key, owner, leaseMs, nonce, now);
    }

    method TakeRow(key: Key, owner: string, leaseMs: int, nonce: nat, now: int) returns (reply: Reply)
      requires Valid()
      modifies this`order, this`entries
      ensures Valid() && (Contents(), reply) == DoClaim(old(Contents()), now, key, owner, leaseMs, nonce)
    {
      if key !in entries {
        return NotFound;
      }
      var r := ReleaseExpiredLease(key, entries[key], now);
      assert Contents() == Put(old(Contents()), key, r);
      if IsTerminal(r.status) {
        return AlreadyTerminal(r);
      }
      if Live(r, now) {
        return InProgress(r);
      }
      if r.dueAt > now {
        return NotDue(r);
      }
      var token := Token(now, r.generation + 1, nonce);
      var updated := ClaimedRow(r, owner, token, leaseMs, now);
      SetEntry(key, updated);
      return Acquired(updated, token);
    }

    method RenewLease(key: Key, token: Token, leaseMs: int, nonce: nat, now: int) returns (reply: Reply)
      requires Valid()
      modifies this
      ensures Valid() && (Contents(), reply) == Step(old(Contents()), now, Renew(key, token, leaseMs, nonce))
    {
      var crashed := MaybeCrash();
      if crashed {
        return Crashed;
      }
      if key !in entries {
        return RenewRefused(RowMissing);
      }
      var r := entries[key];
      if r.status != Claimed {
        return RenewRefused(WrongStatus);
      }
      if r.leaseToken != Some(token) || !LeaseActive(r, now) {
        return RenewRefused(LeaseLost);
      }
      var next := Token(now, r.generation + 1, nonce);
      var updated := WithLease(r, r.leaseOwner, next, leaseMs, now);
      SetEntry(key, updated);
      return Renewed(updated, next);
    }

    method CompleteJob(key: Key, token: Token, now: int) returns (reply: Reply)
      requires Valid()
      modifies this
      ensures Valid() && (Contents(), reply) == Step(old(Contents()), now, Complete(key, token))
    {
      var crashed := MaybeCrash();
      if crashed {
        return Crashed;
      }
      if key !in entries || entries[key].status != Claimed || entries[key].leaseToken != Some(token) {
        return Rejected;
      }
      if !LeaseActive(entries[key], now) {
        return Rejected;
      }
      SetEntry(key, WithoutLease(entries[key], Completed, now));
      return Accepted;
    }

    method FailJob(key: Key, token: Token, error: string, retryAt: Option<int>, now: int) returns (reply: Reply)
      requires Valid()
      modifies this
      ensures Valid() && (Contents(), reply) == Step(old(Contents()), now, Fail(key, token, error, retryAt))
    {
      var crashed := MaybeCrash();
      if crashed {
        return Crashed;
      }
      if key !in entries || entries[key].status != Claimed || entries[key].leaseToken != Some(token) {
        return Rejected;
      }
      var r := entries[key].(lastError := Some(error));
      if retryAt.Some? {
        SetEntry(key, WithoutLease(r, Scheduled, now).(dueAt := retryAt.value));
        return Accepted;
      }
      SetEntry(key, WithoutLease(r, Failed, now));
      return Accepted;
    }

    method SendToManualReview(key: Key, token: Token, note: Option<string>, now: int) returns (reply: Reply)
      requires Valid()
      modifies this
      ensures Valid() && (Contents(), reply) == Step(old(Contents()), now, MarkManualReview(key, token, note))
    {
      var crashed := MaybeCrash();
      if crashed {
        return Crashed;
      }
      if key !in entries || entries[key].status != Claimed || entries[key].leaseToken != Some(token) {
        return Rejected;
      }
      if !LeaseActive(entries[key], now) {
        return Rejected;
      }
      var r := WithoutLease(entries[key], ManualReview, now);
      if note.Some? {
        r := r.(lastError := note);
      }
      SetEntry(key, r);
      return Accepted;
    }

    /** Reading a row never releases its lease. */
    method GetJob(key: Key) returns (reply: Reply)
      requires Valid()
      ensures forall now :: (Contents(), reply) == Step(Contents(), now, Get(key))
    {
      return Found(if key in entries then Some(entries[key]) else None);
    }

    /** The listing loop: release what has lapsed, collect what is due, stop at the limit. */
    method CollectDue(due: int, limit: int, now: int) returns (out: seq<Record>)
      requires Valid()
      modifies this`order, this`entries
      ensures Valid() && order == old(order)
      ensures (entries, out) == ListFrom(order, old(entries), now, due, limit, [])
    {
      out := [];
      var rest := order;
      ghost var result := ListFrom(rest, entries, now, due, limit, []);
      while rest != []
        invariant Valid() && order == old(order) && forall k :: k in rest ==> k in entries
        invariant result == ListFrom(rest, entries, now, due, limit, out)
      {
        var key := rest[0];
        rest := rest[1..];
        var r := ReleaseExpiredLease(key, entries[key], now);
        if r.status == Scheduled && r.dueAt <= due {
          out := out + [r];
          if |out| >= limit {
            break;
          }
        }
      }
    }

    method ListDueJobs(dueBy: Option<int>, limit: int, now: int) returns (reply: Reply)
      requires Valid()
      modifies this
      ensures Valid() && (Contents(), reply) == Step(old(Contents()), now, ListDue(dueBy, limit))
    {
      var out := CollectDue(if dueBy.Some? then dueBy.value else now, limit, now);
      return Listed(out);
    }

    method ListTerminalJobs(limit: int) returns (reply: Reply)
      requires Valid()
      ensures forall now :: (Contents(), reply) == Step(Contents(), now, ListTerminal(limit))
    {
      var out := [];
      for i := 0 to |order|
        invariant TerminalFrom(order, entries, limit, []) == TerminalFrom(order[i..], entries, limit, out)
      {
        assert order[i..][1..] == order[i + 1..];
        var r := entries[order[i]];
        if r.status == ManualReview || r.status == Failed {
          out := out + [r];
          if |out| >= limit {
            break;
          }
        }
      }
      return Listed(out);
    }

    /** The cleanup loop. */
    method RemoveDisposable(before: int, atMost: Option<int>) returns (deleted: nat)
      requires Valid()
      modifies this`order, this`entries
      ensures Valid() && (Contents(), deleted) == DeleteFrom(old(order), old(Contents()), before, atMost, 0)
    {
      var rest := order;
      deleted := 0;
      ghost var result := DeleteFrom(rest, Contents(), before, atMost, 0);
      while rest != [] && !(atMost.Some? && deleted >= atMost.value)
        invariant Valid() && Distinct(rest) && forall k :: k in rest ==> k in entries
        invariant result == DeleteFrom(rest, Contents(), before, atMost, deleted)
      {
        var key := rest[0];
        rest := rest[1..];
        assert key !in rest;
        if Disposable(entries[key], before) {
          DeleteEntry(key);
          deleted := deleted + 1;
        }
      }
    }

    method DeleteExpiredJobs(before: int, atMost: Option<int>, now: int) returns (reply: Reply)
      requires Valid()
      modifies this
      ensures Valid() && (Contents(), reply) == Step(old(Contents()), now, DeleteExpired(before, atMost))
    {
      var crashed := MaybeCrash();
      if crashed {
        return Crashed;
      }
      var deleted := RemoveDisposable(before, atMost);
      return Deleted(deleted);
    }

    method ArmCrash(stay: bool) returns (reply: Reply)
      requires Valid()
      modifies this
      ensures Valid() && forall now :: (Contents(), reply) == Step(old(Contents()), now, SimulateCrash(stay))
    {
      failNextMutation, sticky := true, stay;
      return CrashArmed;
    }
  }
}
