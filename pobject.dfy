/** The pooled-object wrapper: a single slot holding one value, a flag that
    says whether it is checked out, and the two callbacks of the current
    checkout. */
module PooledObjects {
  import opened Common

  /** A caller-supplied `func(T)`; the model only needs its identity. */
  datatype Callback = Callback(name: nat)

  /** One invocation of a callback on a value. */
  datatype Call<T> = Call(fn: Callback, arg: T)

  /** The observable state of a slot: the stored value (`date` in the
      source), the in-use flag and the two callbacks. */
  datatype Slot<T> = Slot(date: T, isUsing: bool, init: Option<Callback>, callback: Option<Callback>)

  /** What a slot looks like when it is made: free and without callbacks. */
  function FreshSlot<T>(date: T): Slot<T> {
    Slot(date, false, None, None)
  }

  /** A free slot holds no callbacks; a checkout installs them and a return
      clears them. */
  ghost predicate Tidy<T>(s: Slot<T>) {
    !s.isUsing ==> s.init == None && s.callback == None
  }

  /** The invocations made by calling an optional callback on `arg`. */
  function Invoke<T>(fn: Option<Callback>, arg: T): seq<Call<T>> {
    if fn.Some? then [Call(fn.value, arg)] else []
  }

  /** The outcome of a checkout: the new slot, the value handed out (`None`
      for the zero value of a failed checkout) and the callbacks run. */
  datatype Checkout<T> = Checkout(slot: Slot<T>, obj: Option<T>, calls: seq<Call<T>>)

  /** The outcome of a return: the new slot, the success flag and the
      callbacks run. */
  datatype Return<T> = Return(slot: Slot<T>, ok: bool, calls: seq<Call<T>>)

  /** Checkout of a slot (`PObject.GetObj`). */
  function Acquire<T>(s: Slot<T>, init: Option<Callback>, callback: Option<Callback>): Checkout<T> {
    if s.isUsing then Checkout(s, None, [])
    else Checkout(s.(isUsing := true, init := init, callback := callback), Some(s.date), Invoke(init, s.date))
  }

  /** Return of a value to a slot (`PObject.ReleaseObj`). The argument is
      never compared with the stored value. */
  function Release<T>(s: Slot<T>, obj: T): Return<T> {
    if !s.isUsing then Return(s, false, [])
    else Return(s.(isUsing := false, init := None, callback := None), true, Invoke(s.callback, obj))
  }

  /** A call a client makes on a slot. */
  datatype Op<T> = Get(init: Option<Callback>, callback: Option<Callback>) | Put(obj: T)

  function Apply<T>(s: Slot<T>, op: Op<T>): Slot<T> {
    match op
    case Get(i, c) => Acquire(s, i, c).slot
    case Put(o) => Release(s, o).slot
  }

  predicate Succeeds<T>(s: Slot<T>, op: Op<T>) {
    match op
    case Get(i, c) => Acquire(s, i, c).obj.Some?
    case Put(o) => Release(s, o).ok
  }

  /** The slot after a whole sequence of calls. */
  function Run<T>(s: Slot<T>, ops: seq<Op<T>>): Slot<T>
    decreases |ops|
  {
    if ops == [] then s else Run(Apply(s, ops[0]), ops[1..])
  }

  /** The calls of `ops` that succeed, in order: `true` for a checkout,
      `false` for a return. */
  function Successes<T>(s: Slot<T>, ops: seq<Op<T>>): seq<bool>
    decreases |ops|
  {
    if ops == [] then []
    else (if Succeeds(s, ops[0]) then [ops[0].Get?] else []) + Successes(Apply(s, ops[0]), ops[1..])
  }

  /** `q` starts with `first` and then alternates. */
  ghost predicate Alternating(q: seq<bool>, first: bool)
    decreases |q|
  {
    q == [] || (q[0] == first && Alternating(q[1..], !first))
  }

  /** Whatever the calls, successful checkouts and returns alternate
      strictly, starting with a checkout on a free slot and with a return
      on a slot in use: two checkouts without a successful return between
      them cannot both succeed, and neither can two returns. */
  lemma {:induction false} StrictAlternation<T>(s: Slot<T>, ops: seq<Op<T>>)
    ensures Alternating(Successes(s, ops), !s.isUsing)
    decreases |ops|
  {
    if ops != [] {
      var s' := Apply(s, ops[0]);
      StrictAlternation(s', ops[1..]);
      if Succeeds(s, ops[0]) {
        assert s'.isUsing == ops[0].Get?;
        assert ops[0].Get? == !s.isUsing;
        var q := [ops[0].Get?] + Successes(s', ops[1..]);
        assert q[1..] == Successes(s', ops[1..]);
      } else {
        assert s' == s;
        assert Successes(s, ops) == [] + Successes(s', ops[1..]);
        assert Successes(s, ops) == Successes(s', ops[1..]);
      }
    }
  }

  /** No sequence of calls changes the stored value, and every sequence
      keeps a tidy slot tidy. */
  lemma {:induction false} RunKeepsValue<T>(s: Slot<T>, ops: seq<Op<T>>)
    ensures Run(s, ops).date == s.date
    ensures Tidy(s) ==> Tidy(Run(s, ops))
    decreases |ops|
  {
    if ops != [] {
      RunKeepsValue(Apply(s, ops[0]), ops[1..]);
    }
  }

  /** The pooled-object wrapper (`PObject[T]`). The mutex is not modelled. */
  class PObject<T> {
    var date: T
    var isUsing: bool
    var init: Option<Callback>
    var callback: Option<Callback>

    /** The slot this object currently represents. */
    function View(): Slot<T>
      reads this
    {
      Slot(date, isUsing, init, callback)
    }

    ghost predicate Valid()
      reads this
    {
      Tidy(View())
    }

    /** `NewPObject`: holds the value, is free and has no callbacks. */
    constructor (date: T)
      ensures View() == FreshSlot(date)
      ensures Valid()
    {
      this.date := date;
      isUsing := false;
      init := None;
      callback := None;
    }

    /** `GetObj`: a slot in use refuses the checkout and changes nothing; a
        free slot becomes in use, keeps both callbacks, runs `init` once on
        the stored value when there is one, and hands the value out. */
    method GetObj(init: Option<Callback>, callback: Option<Callback>) returns (obj: Option<T>, calls: seq<Call<T>>)
      requires Valid()
      modifies this
      ensures Valid()
      ensures Checkout(View(), obj, calls) == Acquire(old(View()), init, callback)
      ensures date == old(date)
      ensures old(isUsing) ==> obj == None && calls == [] && View() == old(View())
      ensures !old(isUsing) ==>
        && isUsing && this.init == init && this.callback == callback
        && obj == Some(date)
        && calls == (if init.Some? then [Call(init.value, date)] else [])
    {
      if isUsing {
        return None, [];
      }
      isUsing := true;
      this.init := init;
      this.callback := callback;
      calls := [];
      if this.init.Some? {
        calls := [Call(this.init.value, date)];
      }
      obj := Some(date);
    }

    /** `ReleaseObj`: a free slot refuses the return (a double release) and
        changes nothing; a slot in use becomes free, runs the stored
        `callback` once on the argument when there is one, and forgets both
        callbacks. The argument is not compared with the stored value. */
    method ReleaseObj(obj: T) returns (ok: bool, calls: seq<Call<T>>)
      requires Valid()
      modifies this
      ensures Valid()
      ensures Return(View(), ok, calls) == Release(old(View()), obj)
      ensures date == old(date)
      ensures ok == old(isUsing)
      ensures !ok ==> calls == [] && View() == old(View())
      ensures ok ==>
        && !isUsing && init == None && callback == None
        && calls == (if old(callback).Some? then [Call(old(callback).value, obj)] else [])
    {
      if !isUsing {
        return false, [];
      }
      isUsing := false;
      calls := [];
      if callback.Some? {
        calls := [Call(callback.value, obj)];
      }
      init := None;
      callback := None;
      ok := true;
    }
  }

  /** Get then Get on a new slot: the first checkout succeeds and the
      second fails; after a Release the next Get succeeds again. */
  method GetGetAndGetReleaseGet<T>(v: T, w: T, i: Option<Callback>, c: Option<Callback>)
    returns (first: Option<T>, second: Option<T>, released: bool, third: Option<T>)
    ensures first == Some(v) && second == None
    ensures released && third == Some(v)
  {
    var p := new PObject(v);
    var calls;
    first, calls := p.GetObj(i, c);
    second, calls := p.GetObj(i, c);
    released, calls := p.ReleaseObj(w);
    third, calls := p.GetObj(i, c);
  }
}
