/** The actor mailbox: the ring-buffer message queue, the batch-flush rule of
    the processing loop and the handler lookup of a batch. */
module Mailbox {
  import opened Common

  // ---------------------------------------------------------------------
  // The ring-buffer queue as written
  // ---------------------------------------------------------------------

  /** The mask `NewMessageQueue` computes: `(size - 1) & ^1`, in 64-bit
      unsigned arithmetic. It always has bit 0 cleared. */
  function MaskOf(size: bv64): (mask: bv64)
    ensures mask & 1 == 0
  {
    (size - 1) & !1
  }

  /** `MessageQueue`, with its cursors and mask as 64-bit words. The buffer
      has `size` entries (the source allocates an empty slice of capacity
      `size`, which would make every store and load go out of range). The
      atomics are plain reads and writes here. */
  class MessageQueue<T(0)> {
    var head: bv64
    var tail: bv64
    const buffer: array<T>
    const modMask: bv64

    /** `NewMessageQueue`. */
    constructor (size: bv64)
      ensures head == 0 && tail == 0
      ensures modMask == MaskOf(size) && modMask & 1 == 0
      ensures fresh(buffer) && buffer.Length == size as int
    {
      head, tail := 0, 0;
      modMask := MaskOf(size);
      buffer := new T[size as int];
    }

    /** `Enqueue`: refused, with nothing changed, when the masked next tail
        equals the unmasked head; otherwise stores at the masked tail and
        advances the tail. */
    method Enqueue(msg: T) returns (ok: bool)
      requires ((tail + 1) & modMask) != head ==> (tail & modMask) as int < buffer.Length
      modifies this, buffer
      ensures head == old(head)
      ensures ok == (((old(tail) + 1) & modMask) != old(head))
      ensures !ok ==> tail == old(tail) && buffer[..] == old(buffer[..])
      ensures ok ==> tail == old(tail) + 1 && buffer[..] == old(buffer[..])[(old(tail) & modMask) as int := msg]
    {
      var next := tail + 1;
      if (next & modMask) == head {
        return false;
      }
      buffer[tail & modMask] := msg;
      tail := next;
      ok := true;
    }

    /** `Dequeue`: refused, with nothing changed, when `head == tail`;
        otherwise returns the entry at the masked head and advances the
        head. The buffer and the tail are never changed. */
    method Dequeue() returns (msg: Option<T>)
      requires head != tail ==> (head & modMask) as int < buffer.Length
      ensures tail == old(tail)
      modifies this
      ensures old(head) == tail ==> msg == None && head == old(head)
      ensures old(head) != tail ==> msg == Some(buffer[(old(head) & modMask) as int]) && head == old(head) + 1
    {
      if head == tail {
        return None;
      }
      msg := Some(buffer[head & modMask]);
      head := head + 1;
    }
  }

  /** The queue as written accepts nothing: on a queue made by
      `NewMessageQueue`, whatever mix of `Enqueue` (`Some(m)`) and `Dequeue`
      (`None`) calls is made, every call is refused (`results[i]` is false),
      because the masked next tail `1 & mask` is 0, which is the head. */
  method NewQueueAcceptsNothing<T(0)>(size: bv64, calls: seq<Option<T>>) returns (results: seq<bool>)
    ensures |results| == |calls|
    ensures forall i :: 0 <= i < |calls| ==> !results[i]
  {
    var q := new MessageQueue<T>(size);
    results := [];
    var i := 0;
    while i < |calls|
      invariant 0 <= i <= |calls| && |results| == i
      invariant q.head == 0 && q.tail == 0 && q.modMask & 1 == 0
      invariant forall j :: 0 <= j < i ==> !results[j]
    {
      var ok: bool;
      match calls[i] {
        case Some(m) =>
          ok := q.Enqueue(m);
        case None =>
          var r := q.Dequeue();
          ok := r.Some?;
      }
      results := results + [ok];
      i := i + 1;
    }
  }

  // ---------------------------------------------------------------------
  // The ring-buffer queue as intended
  // ---------------------------------------------------------------------

  /** `a % n` and `(a + d) % n` differ when `0 < d < n`. */
  lemma ModDiffers(a: nat, d: nat, n: nat)
    requires 0 < d < n
    ensures a % n != (a + d) % n
  {
    var q, r := a / n, a % n;
    assert a == q * n + r;
    if r + d < n {
      assert a + d == q * n + (r + d);
      DivModUnique(a + d, n, q, r + d);
    } else {
      assert a + d == (q + 1) * n + (r + d - n);
      DivModUnique(a + d, n, q + 1, r + d - n);
    }
  }

  /** The `count` entries of a circular buffer from cursor `start` on. */
  ghost function Window<T>(buf: seq<T>, start: nat, count: nat): seq<T>
    requires |buf| > 0
  {
    seq(count, k requires 0 <= k < count => buf[(start + k) % |buf|])
  }

  /** Storing at the cursor just past a window that is not full extends the
      window by that one entry and leaves the rest of it as it was. */
  lemma WindowPush<T>(buf: seq<T>, start: nat, count: nat, x: T)
    requires 0 < |buf| && count < |buf|
    ensures Window(buf[(start + count) % |buf| := x], start, count + 1) == Window(buf, start, count) + [x]
  {
    var buf' := buf[(start + count) % |buf| := x];
    forall k | 0 <= k < count
      ensures Window(buf', start, count + 1)[k] == Window(buf, start, count)[k]
    {
      ModDiffers(start + k, count - k, |buf|);
      assert start + k + (count - k) == start + count;
    }
  }

  /** The mailbox queue as the source evidently meant it: a capacity of `size` entries, unmasked cursors, the mask
      `size - 1` (for a power of two, the same as taking the remainder by
      `size`), full when `tail - head == size`, empty when `head == tail`. */
  class RingQueue<T(0)> {
    var head: nat
    var tail: nat
    const buffer: array<T>
    ghost var Contents: seq<T>

    ghost predicate Valid()
      reads this, buffer
    {
      && buffer.Length > 0
      && head <= tail && tail - head <= buffer.Length
      && Contents == Window(buffer[..], head, tail - head)
    }

    constructor (size: nat)
      requires size > 0
      ensures Valid() && fresh(buffer)
      ensures Contents == [] && buffer.Length == size
    {
      head, tail := 0, 0;
      buffer := new T[size];
      Contents := [];
    }

    /** Accepts a message exactly when fewer than `size` are queued, and
        then queues it last. */
    method Enqueue(msg: T) returns (ok: bool)
      requires Valid()
      modifies this, buffer
      ensures Valid()
      ensures ok == (|old(Contents)| < buffer.Length)
      ensures ok ==> Contents == old(Contents) + [msg]
      ensures !ok ==> Contents == old(Contents)
    {
      if tail - head == buffer.Length {
        return false;
      }
      WindowPush(buffer[..], head, tail - head, msg);
      assert head + (tail - head) == tail;
      buffer[tail % buffer.Length] := msg;
      Contents := Contents + [msg];
      tail := tail + 1;
      ok := true;
    }

    /** Hands out the oldest queued message, or refuses when none is
        queued. */
    method Dequeue() returns (msg: Option<T>)
      requires Valid()
      modifies this
      ensures Valid()
      ensures old(Contents) == [] ==> msg == None && Contents == []
      ensures old(Contents) != [] ==> msg == Some(old(Contents)[0]) && Contents == old(Contents)[1..]
    {
      if head == tail {
        return None;
      }
      msg := Some(buffer[head % buffer.Length]);
      head := head + 1;
      Contents := Contents[1..];
    }
  }

  /** The intended queue takes exactly `size` messages and refuses the next
      one, then hands the first of them back first. */
  method FillRingQueue<T(0)>(size: nat, msgs: seq<T>, extra: T) returns (accepted: nat, overflow: bool, first: Option<T>)
    requires size > 0 && |msgs| == size
    ensures accepted == size
    ensures !overflow
    ensures first == Some(msgs[0])
  {
    var q := new RingQueue<T>(size);
    accepted := 0;
    var i := 0;
    while i < |msgs|
      invariant 0 <= i <= |msgs|
      invariant q.Valid() && q.buffer.Length == size
      invariant q.Contents == msgs[..i] && accepted == i
    {
      var ok := q.Enqueue(msgs[i]);
      assert ok;
      accepted := accepted + 1;
      i := i + 1;
    }
    overflow := q.Enqueue(extra);
    first := q.Dequeue();
  }

  // ---------------------------------------------------------------------
  // The batch-flush rule of processMessages
  // ---------------------------------------------------------------------

  /** A message, with the key its handler is registered under (the source
      keys handlers by the message's dynamic type name). */
  datatype Message = Message(kind: string, payload: nat)

  /** What one turn of the processing loop's `select` sees: a message from
      the mailbox, an empty mailbox, or the cancelled context. */
  datatype Event = Arrive(msg: Message) | Empty | Done

  /** The batch size of `processMessages`. */
  const BatchSize: nat := 64

  /** The loop's state: the batches handed to `batchHandle` so far, the
      batch being collected, and whether the loop has returned. */
  datatype Loop = Loop(flushed: seq<seq<Message>>, msgs: seq<Message>, stopped: bool)

  /** One turn of the loop. */
  function Step(st: Loop, e: Event): Loop {
    if st.stopped then st
    else match e
      case Arrive(m) =>
        var batch := st.msgs + [m];
        if |batch| >= BatchSize then Loop(st.flushed + [batch], [], false)
        else Loop(st.flushed, batch, false)
      case Done => Loop(st.flushed + [st.msgs], st.msgs, true)
      case Empty =>
        if |st.msgs| > 0 then Loop(st.flushed + [st.msgs], [], false) else st
  }

  /** The loop's state after it has seen `events`, from an empty batch. */
  function Run(events: seq<Event>): Loop
    decreases |events|
  {
    if events == [] then Loop([], [], false)
    else Step(Run(events[..|events| - 1]), events[|events| - 1])
  }

  /** The messages received before the context was cancelled, in order. */
  function Received(events: seq<Event>): seq<Message>
    decreases |events|
  {
    if events == [] then []
    else
      var prefix := events[..|events| - 1];
      var last := events[|events| - 1];
      if Done in prefix || !last.Arrive? then Received(prefix) else Received(prefix) + [last.msg]
  }

  /** The batches laid end to end. */
  function Flatten(batches: seq<seq<Message>>): seq<Message>
    decreases |batches|
  {
    if batches == [] then [] else Flatten(batches[..|batches| - 1]) + batches[|batches| - 1]
  }

  /** Flattening after appending a batch appends its messages. */
  lemma FlattenSnoc(batches: seq<seq<Message>>, batch: seq<Message>)
    ensures Flatten(batches + [batch]) == Flatten(batches) + batch
  {
    assert (batches + [batch])[..|batches|] == batches;
  }

  /** The flush rule's invariant for a loop state that has received
      `received`: the batches, followed by the batch being collected
      unless the loop has returned, are the messages received; the batch
      being collected is shorter than 64; flushed batches have at most 64
      messages, and only one flushed on cancellation, the last, is empty. */
  ghost predicate Flushing(st: Loop, received: seq<Message>) {
    && (!st.stopped ==> Flatten(st.flushed) + st.msgs == received)
    && (st.stopped ==> Flatten(st.flushed) == received)
    && |st.msgs| < BatchSize
    && (forall i :: 0 <= i < |st.flushed| ==> |st.flushed[i]| <= BatchSize)
    && (forall i :: 0 <= i < |st.flushed| ==> |st.flushed[i]| > 0 || (st.stopped && i == |st.flushed| - 1))
  }

  /** One turn of the loop keeps the invariant, receiving the message of an
      `Arrive` unless the loop has returned; the loop returns on `Done`
      and stays returned. */
  lemma StepFlushing(st: Loop, e: Event, received: seq<Message>)
    requires Flushing(st, received)
    ensures Step(st, e).stopped <==> st.stopped || e == Done
    ensures Flushing(Step(st, e), if st.stopped || !e.Arrive? then received else received + [e.msg])
  {
    if !st.stopped {
      match e {
        case Arrive(m) =>
          FlattenSnoc(st.flushed, st.msgs + [m]);
        case Done =>
          FlattenSnoc(st.flushed, st.msgs);
        case Empty =>
          FlattenSnoc(st.flushed, st.msgs);
      }
    }
  }

  /** What the flush rule guarantees after any sequence of events: the
      invariant `Flushing` holds for the messages received, in arrival
      order; the loop stops exactly when it sees the cancellation, and
      then nothing received is left unflushed; and a turn that finds the
      mailbox empty leaves no message held back in the batch. */
  lemma {:induction false} FlushRule(events: seq<Event>)
    ensures Run(events).stopped <==> Done in events
    ensures Flushing(Run(events), Received(events))
    ensures events != [] && events[|events| - 1] == Empty && !Run(events).stopped ==> Run(events).msgs == []
    decreases |events|
  {
    if events != [] {
      var prefix := events[..|events| - 1];
      var e := events[|events| - 1];
      assert events == prefix + [e];
      FlushRule(prefix);
      StepFlushing(Run(prefix), e, Received(prefix));
    }
  }

  /** Once the loop has returned, later events change nothing. */
  lemma {:induction false} StoppedStaysStopped(events: seq<Event>, i: nat)
    requires i <= |events| && Run(events[..i]).stopped
    ensures Run(events) == Run(events[..i])
    decreases |events| - i
  {
    if i < |events| {
      assert events[..i + 1][..i] == events[..i];
      StoppedStaysStopped(events, i + 1);
    } else {
      assert events[..i] == events;
    }
  }

  /** `processMessages`: the `for`/`select` loop over the events it sees,
      collecting messages in `msgs` and truncating it after each flush. The
      result is the list of batches handed to `batchHandle`, the batch left
      over, and whether the loop returned. */
  method ProcessMessages(events: seq<Event>) returns (flushed: seq<seq<Message>>, msgs: seq<Message>, stopped: bool)
    ensures Loop(flushed, msgs, stopped) == Run(events)
  {
    flushed, msgs, stopped := [], [], false;
    var i := 0;
    while i < |events| && !stopped
      invariant 0 <= i <= |events|
      invariant Loop(flushed, msgs, stopped) == Run(events[..i])
    {
      assert events[..i + 1][..i] == events[..i];
      match events[i] {
        case Arrive(m) =>
          msgs := msgs + [m];
          if |msgs| >= BatchSize {
            flushed := flushed + [msgs];
            msgs := [];
          }
        case Done =>
          flushed := flushed + [msgs];
          stopped := true;
        case Empty =>
          if |msgs| > 0 {
            flushed := flushed + [msgs];
            msgs := [];
          }
      }
      i := i + 1;
    }
    if stopped {
      StoppedStaysStopped(events, i);
    } else {
      assert events[..i] == events;
    }
  }

  /** A registered message handler; the model only needs its identity. */
  datatype Handler = Handler(name: nat)

  /** `batchHandle`: every message of the batch is handled by the handler
      registered under its kind, and skipped when there is none;
      `handled[i]` is the handler run for `msgs[i]`. The source runs the
      handlers concurrently and waits for all of them; this model runs them
      one after the other in batch order. */
  method BatchHandle(handlers: map<string, Handler>, msgs: seq<Message>) returns (handled: seq<Option<Handler>>)
    ensures |handled| == |msgs|
    ensures forall i :: 0 <= i < |msgs| ==> (handled[i].Some? <==> msgs[i].kind in handlers)
    ensures forall i :: 0 <= i < |msgs| && msgs[i].kind in handlers ==> handled[i] == Some(handlers[msgs[i].kind])
  {
    handled := [];
    for i := 0 to |msgs|
      invariant |handled| == i
      invariant forall j :: 0 <= j < i ==> (handled[j].Some? <==> msgs[j].kind in handlers)
      invariant forall j :: 0 <= j < i && msgs[j].kind in handlers ==> handled[j] == Some(handlers[msgs[j].kind])
    {
      var m := msgs[i];
      if m.kind in handlers {
        handled := handled + [Some(handlers[m.kind])];
      } else {
        handled := handled + [None];
      }
    }
  }
}
