/** The work balancer: round-robin dispatch of tasks to worker inboxes of
    bounded capacity, with one more worker added whenever the chosen inbox
    is full. */
module Balancing {
  import opened Common

  /** A submitted `func()`; the model only needs its identity. */
  datatype Task = Task(id: nat)

  /** The capacity of every worker's inbox channel. */
  const InboxCapacity: nat := 1024

  /** The factor `expandWorkers` caps its (unused) target size at, per CPU. */
  const GrowthCapPerCPU: nat := 10

  /** The range of a Go `uint64`. */
  const Word: nat := 0x1_0000_0000_0000_0000

  /** `atomic.AddUint64(&index, 1)`: the counter's next value, wrapping to 0
      past the top of the 64-bit range. */
  function Bump(index: nat): (r: nat)
    ensures r < Word
    ensures index + 1 < Word ==> r == index + 1
    ensures index + 1 == Word ==> r == 0
  {
    (index + 1) % Word
  }

  /** The worker a submission goes to: the incremented counter modulo the
      number of workers. */
  function Target(index: nat, workers: nat): (w: nat)
    requires workers > 0
    ensures w < workers
  {
    Bump(index) % workers
  }

  /** Round robin: away from the wrap-around of the counter, consecutive
      submissions go to consecutive workers, the last one followed by the
      first. */
  lemma RoundRobin(index: nat, workers: nat)
    requires workers > 0
    requires index + 2 < Word
    ensures Target(Bump(index), workers) == (Target(index, workers) + 1) % workers
  {
    SuccMod(index + 1, workers);
  }

  /** Counting one further moves the remainder one further, wrapping to 0. */
  lemma SuccMod(a: nat, n: nat)
    requires n > 0
    ensures (a + 1) % n == (a % n + 1) % n
  {
    var q, r := a / n, a % n;
    assert a == q * n + r;
    if r + 1 < n {
      DivModUnique(a + 1, n, q, r + 1);
      DivModUnique(r + 1, n, 0, r + 1);
    } else {
      assert a + 1 == (q + 1) * n + 0;
      DivModUnique(a + 1, n, q + 1, 0);
      DivModUnique(r + 1, n, 1, 0);
    }
  }

  /** The number of tasks waiting in all inboxes. */
  function Total(inboxes: seq<seq<Task>>): nat
    decreases |inboxes|
  {
    if inboxes == [] then 0 else Total(inboxes[..|inboxes| - 1]) + |inboxes[|inboxes| - 1]|
  }

  /** Adding one task to one inbox adds one to the total. */
  lemma {:induction false} TotalPush(inboxes: seq<seq<Task>>, w: nat, t: Task)
    requires w < |inboxes|
    ensures Total(inboxes[w := inboxes[w] + [t]]) == Total(inboxes) + 1
    decreases |inboxes|
  {
    var n := |inboxes| - 1;
    var updated := inboxes[w := inboxes[w] + [t]];
    assert updated[..n] == (if w < n then inboxes[..n][w := inboxes[w] + [t]] else inboxes[..n]);
    if w < n {
      TotalPush(inboxes[..n], w, t);
    }
  }

  /** Taking the first task out of a non-empty inbox removes one from the
      total. */
  lemma {:induction false} TotalPop(inboxes: seq<seq<Task>>, w: nat)
    requires w < |inboxes| && inboxes[w] != []
    ensures Total(inboxes[w := inboxes[w][1..]]) + 1 == Total(inboxes)
    decreases |inboxes|
  {
    var n := |inboxes| - 1;
    var updated := inboxes[w := inboxes[w][1..]];
    assert updated[..n] == (if w < n then inboxes[..n][w := inboxes[w][1..]] else inboxes[..n]);
    if w < n {
      TotalPop(inboxes[..n], w);
    }
  }

  /** Appending an inbox adds its tasks to the total. */
  lemma TotalAppend(inboxes: seq<seq<Task>>, inbox: seq<Task>)
    ensures Total(inboxes + [inbox]) == Total(inboxes) + |inbox|
  {
    assert (inboxes + [inbox])[..|inboxes|] == inboxes;
  }

  /** `Balancer`: one inbox per worker, in worker order, each the tasks
      queued and not yet taken, oldest first; and the submission counter.
      The workers' goroutines and contexts are not modelled. */
  class Balancer {
    var inboxes: seq<seq<Task>>
    var index: nat
    const numCPU: nat

    /** There is at least one worker and no inbox holds more than its
        capacity. */
    ghost predicate Valid()
      reads this
    {
      && |inboxes| >= 1
      && index < Word
      && forall i :: 0 <= i < |inboxes| ==> |inboxes[i]| <= InboxCapacity
    }

    /** `NewBalancer`: one worker per CPU, each with an empty inbox, and the
        counter at 0. */
    constructor (numCPU: nat)
      requires numCPU >= 1
      ensures Valid() && this.numCPU == numCPU && index == 0
      ensures |inboxes| == numCPU && forall i :: 0 <= i < numCPU ==> inboxes[i] == []
      ensures Total(inboxes) == 0
    {
      this.numCPU := numCPU;
      index := 0;
      var ws: seq<seq<Task>> := [];
      while |ws| < numCPU
        invariant |ws| <= numCPU
        invariant forall i :: 0 <= i < |ws| ==> ws[i] == []
        invariant Total(ws) == 0
      {
        TotalAppend(ws, []);
        ws := ws + [[]];
      }
      inboxes := ws;
    }

    /** `expandWorkers`: the growth target (10% more workers, capped at ten
        per CPU) is computed and then not used; exactly one worker, with an
        empty inbox, is appended, and its number is returned. */
    method ExpandWorkers() returns (w: nat)
      requires Valid()
      modifies this
      ensures Valid()
      ensures inboxes == old(inboxes) + [[]] && index == old(index)
      ensures w == |old(inboxes)| && w < |inboxes|
      ensures Total(inboxes) == Total(old(inboxes))
    {
      var newSize := |inboxes| + |inboxes| / 10;
      if newSize > numCPU * GrowthCapPerCPU {
        newSize := numCPU * GrowthCapPerCPU;
      }
      TotalAppend(inboxes, []);
      inboxes := inboxes + [[]];
      w := |inboxes| - 1;
    }

    /** `Submit`: a nil task is ignored and nothing changes, not even the
        counter. Otherwise the counter is incremented and the task goes to
        the inbox of the targeted worker when it has room, and to a new
        worker, as the only task of its inbox, when it is full. No other
        inbox changes, no worker is removed, and exactly one task is added
        in all. */
    method Submit(task: Option<Task>) returns (target: Option<nat>)
      requires Valid()
      modifies this
      ensures Valid()
      ensures task.None? ==> target == None && inboxes == old(inboxes) && index == old(index)
      ensures task.Some? ==>
        var idx := Target(old(index), |old(inboxes)|);
        && index == Bump(old(index))
        && (|old(inboxes)[idx]| < InboxCapacity ==>
              target == Some(idx) && inboxes == old(inboxes)[idx := old(inboxes)[idx] + [task.value]])
        && (|old(inboxes)[idx]| >= InboxCapacity ==>
              target == Some(|old(inboxes)|) && inboxes == old(inboxes) + [[task.value]])
        && Total(inboxes) == Total(old(inboxes)) + 1
    {
      if task.None? {
        return None;
      }
      index := (index + 1) % Word;
      var idx := index % |inboxes|;
      if |inboxes[idx]| < InboxCapacity {
        TotalPush(inboxes, idx, task.value);
        inboxes := inboxes[idx := inboxes[idx] + [task.value]];
        return Some(idx);
      }
      var w := ExpandWorkers();
      TotalPush(inboxes, w, task.value);
      assert inboxes[w] + [task.value] == [task.value];
      inboxes := inboxes[w := inboxes[w] + [task.value]];
      target := Some(w);
    }

    /** One turn of worker `w`'s `run` loop: it takes the oldest task of its
        inbox, if any, to run it. */
    method RunNext(w: nat) returns (task: Option<Task>)
      requires Valid() && w < |inboxes|
      modifies this
      ensures Valid() && index == old(index)
      ensures old(inboxes)[w] == [] ==> task == None && inboxes == old(inboxes)
      ensures old(inboxes)[w] != [] ==>
        && task == Some(old(inboxes)[w][0])
        && inboxes == old(inboxes)[w := old(inboxes)[w][1..]]
        && Total(inboxes) + 1 == Total(old(inboxes))
    {
      if inboxes[w] == [] {
        return None;
      }
      task := Some(inboxes[w][0]);
      TotalPop(inboxes, w);
      inboxes := inboxes[w := inboxes[w][1..]];
    }
  }

  /** A worker runs its tasks in the order they were submitted to it:
      draining worker `w`'s inbox takes exactly the tasks queued there,
      oldest first, and leaves every other inbox as it was. */
  method FifoPerWorker(b: Balancer, w: nat, given: seq<Task>) returns (ran: seq<Task>)
    requires b.Valid() && w < |b.inboxes| && b.inboxes[w] == given
    modifies b
    ensures ran == given
    ensures b.Valid() && b.inboxes == old(b.inboxes)[w := []]
  {
    ran := [];
    while b.inboxes[w] != []
      invariant b.Valid() && |b.inboxes| == |old(b.inboxes)| && w < |b.inboxes|
      invariant ran + b.inboxes[w] == given
      invariant b.inboxes == old(b.inboxes)[w := b.inboxes[w]]
      decreases |b.inboxes[w]|
    {
      var t := b.RunNext(w);
      ran := ran + [t.value];
    }
  }
}
