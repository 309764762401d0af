/**
 * The bounded-concurrency pool behind batch reconciliation: tasks start in input order, finish in any order, and each
 * result is yielded as its task finishes.
 */
module MapPool {
  /** A started task: the input it works on and the value it will resolve to. */
  datatype Task<R> = Task(index: nat, value: R)

  function Min(a: int, b: int): int {
    if a < b then a else b
  }

  ghost predicate Distinct(s: seq<nat>) {
    forall i, j :: 0 <= i < j < |s| ==> s[i] != s[j]
  }

  /** `order` names every index below `n` exactly once. */
  ghost predicate Permutation(order: seq<nat>, n: nat) {
    Distinct(order) && forall i: nat :: i in order <==> i < n
  }

  /** Each value is the one of the index yielded with it. */
  ghost predicate OwnValues<T, R>(items: seq<T>, fn: (T, nat) -> R, values: seq<R>, order: seq<nat>) {
    && |values| == |order|
    && forall j :: 0 <= j < |order| ==> order[j] < |items| && values[j] == fn(items[order[j]], order[j])
  }

  /** The pool starts its tasks in order and is as full as it can be whenever a result comes. */
  ghost predicate KeptFull(running: seq<nat>, order: seq<nat>, room: nat, n: nat) {
    && |running| == |order| <= n
    && forall j :: 0 <= j < |order| ==> running[j] == Min(room, n - j) && order[j] < Min(room + j, n)
  }

  lemma OneMoreKeptFull(running: seq<nat>, order: seq<nat>, room: nat, n: nat, count: nat, index: nat)
    requires KeptFull(running, order, room, n) && |order| < n
    requires count == Min(room, n - |order|) && index < Min(room + |order|, n)
    ensures KeptFull(running + [count], order + [index], room, n)
  {
  }

  lemma OneMoreValue<T, R>(
    items: seq<T>, fn: (T, nat) -> R, values: seq<R>, order: seq<nat>, value: R, index: nat)
    requires OwnValues(items, fn, values, order) && index < |items| && value == fn(items[index], index)
    ensures OwnValues(items, fn, values + [value], order + [index])
  {
  }

  class Pool<T, R> {
    const items: seq<T>
    const fn: (T, nat) -> R
    const limit: int
    var nextIndex: nat
    var slotCounter: nat
    var pending: map<nat, Task<R>>
    ghost var yielded: seq<nat>
    ghost var highWater: nat     // the most tasks ever pending
    ghost var running: seq<nat>  // for each result, how many tasks were pending when it came

    constructor (items: seq<T>, concurrency: int, fn: (T, nat) -> R)
      ensures Valid() && this.items == items && this.fn == fn && limit == Min(concurrency, |items|)
      ensures nextIndex == 0 && pending == map[] && yielded == [] && running == [] && highWater == 0
    {
      this.items, this.fn, limit := items, fn, Min(concurrency, |items|);
      nextIndex, slotCounter, pending, yielded, running, highWater := 0, 0, map[], [], [], 0;
    }

    /** Every started task is either still pending, under the slot of its own index, or has been yielded, never both. */
    ghost predicate Valid()
      reads this
    {
      && nextIndex <= |items| && slotCounter == nextIndex && Distinct(yielded) && |pending| <= highWater
      && (forall x: nat :: x < nextIndex <==> x in yielded || x in pending)
      && (forall x: nat :: x in pending ==> x !in yielded)
      && (forall x: nat :: x in pending && x < |items| ==> pending[x] == Task(x, fn(items[x], x)))
    }

    method StartOne()
      requires Valid()
      modifies this`nextIndex, this`slotCounter, this`pending, this`highWater
      ensures Valid() && highWater == if |pending| > old(highWater) then |pending| else old(highWater)
      ensures nextIndex == Min(old(nextIndex) + 1, |items|)
      ensures |pending| == |old(pending)| + (if old(nextIndex) < |items| then 1 else 0)
    {
      if nextIndex >= |items| {
        return;
      }
      var index, slot := nextIndex, slotCounter;
      nextIndex, slotCounter := nextIndex + 1, slotCounter + 1;
      assert slot !in pending;
      pending := pending[slot := Task(index, fn(items[index], index))];
      if |pending| > highWater {
        highWater := |pending|;
      }
    }

    /** Start the first tasks, as many as may run together. */
    method Fill() returns (started: nat)
      requires Valid() && nextIndex == 0 && pending == map[] && highWater == 0 && limit <= |items|
      modifies this`nextIndex, this`slotCounter, this`pending, this`highWater
      ensures Valid() && started == nextIndex == highWater == |pending| == if limit < 0 then 0 else limit
    {
      started := if limit < 0 then 0 else limit;
      for i := 0 to started
        invariant Valid() && nextIndex == i == |pending| == highWater
      {
        StartOne();
      }
    }

    /** Whichever pending task finishes first gives its value; the choice is the environment's. */
    method TakeFinished() returns (value: R, index: nat)
      requires Valid() && pending != map[]
      modifies this`pending, this`yielded, this`running
      ensures Valid() && |pending| == |old(pending)| - 1 && yielded == old(yielded) + [index]
      ensures running == old(running) + [|old(pending)|]
      ensures index < nextIndex && value == fn(items[index], index)
    {
      running := running + [|pending|];
      var slot :| slot in pending;
      value, index := pending[slot].value, pending[slot].index;
      OneFewer(pending, slot);
      pending := pending - {slot};
      AppendDistinct(yielded, index);
      yielded := yielded + [index];
    }

    /** Yield each result as its task finishes, starting the next task in its place. */
    method Drain(room: nat) returns (values: seq<R>, order: seq<nat>)
      requires Valid() && yielded == [] && running == [] && nextIndex == |pending| == room == highWater
      requires nextIndex < |items| ==> room > 0
      modifies this`nextIndex, this`slotCounter, this`pending, this`yielded, this`running, this`highWater
      ensures Valid() && highWater == room && pending == map[] && nextIndex == |items|
      ensures order == yielded && OwnValues(items, fn, values, order) && KeptFull(running, order, room, |items|)
    {
      values, order := [], [];
      while |pending| > 0
        invariant Valid() && highWater == room && yielded == order && OwnValues(items, fn, values, order)
        invariant nextIndex == |order| + |pending| && |pending| == Min(room, |items| - |order|)
        invariant KeptFull(running, order, room, |items|)
        decreases |items| - |order|
      {
        ghost var count, counts := |pending|, running;
        var value, index := TakeFinished();
        OneMoreKeptFull(counts, order, room, |items|, count, index);
        OneMoreValue(items, fn, values, order, value, index);
        values, order := values + [value], order + [index];
        StartOne();
      }
    }
  }

  lemma OneFewer<R>(pending: map<nat, Task<R>>, slot: nat)
    requires slot in pending
    ensures |pending - {slot}| == |pending| - 1
  {
    assert pending.Keys == (pending - {slot}).Keys + {slot};
  }

  lemma AppendDistinct(order: seq<nat>, x: nat)
    requires Distinct(order) && x !in order
    ensures Distinct(order + [x])
  {
  }

  /**
   * Run `fn` over the items with at most `concurrency` tasks pending.  With room for at least one task, every index is
   * yielded exactly once with its own value, whatever order the tasks finish in; `peak` is the most tasks ever pending,
   * and `running` how many were pending as each result came.  Without room nothing runs.
   */
  method MapPool<T, R>(items: seq<T>, concurrency: int, fn: (T, nat) -> R)
    returns (values: seq<R>, order: seq<nat>, ghost peak: nat, ghost running: seq<nat>)
    ensures OwnValues(items, fn, values, order)
    ensures concurrency >= 1 ==> Permutation(order, |items|) && KeptFull(running, order, concurrency, |items|)
    ensures concurrency < 1 ==> order == []
    ensures peak == Min(if concurrency < 0 then 0 else concurrency, |items|)
  {
    var pool := new Pool(items, concurrency, fn);
    var started := pool.Fill();
    values, order := [], [];
    if started > 0 {
      values, order := pool.Drain(started);
    }
    peak, running := pool.highWater, pool.running;
  }

  /** Batch reconciliation clamps the concurrency to at least one, so it always covers the whole batch. */
  method ReconcileMany<T, R>(targets: seq<T>, concurrency: int, reconcile: (T, nat) -> R)
    returns (values: seq<R>, order: seq<nat>, ghost peak: nat, ghost running: seq<nat>)
    ensures Permutation(order, |targets|) && OwnValues(targets, reconcile, values, order)
    ensures var room := if concurrency < 1 then 1 else concurrency;
      peak == Min(room, |targets|) && KeptFull(running, order, room, |targets|)
  {
    if |targets| == 0 {
      return [], [], 0, [];
    }
    values, order, peak, running := MapPool(targets, if concurrency < 1 then 1 else concurrency, reconcile);
  }
}
