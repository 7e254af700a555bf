/** The slot pool: an append-only list of pooled-object slots and a FIFO
    list of slots to hand out next. */
module ObjectPools {
  import opened Common
  import opened PooledObjects

  /** The position of the first `true` in `flags`, if there is one. */
  function FirstInUse(flags: seq<bool>): (r: Option<nat>)
    ensures r.Some? ==> r.value < |flags| && flags[r.value]
    ensures r.Some? ==> forall j :: 0 <= j < r.value ==> !flags[j]
    ensures r.None? <==> forall j :: 0 <= j < |flags| ==> !flags[j]
  {
    if flags == [] then None
    else if flags[0] then Some(0)
    else match FirstInUse(flags[1..])
         case None => None
         case Some(k) => Some(k + 1)
  }

  /** The first `true` is at `i` when `i` holds one and nothing before it
      does. */
  lemma FirstInUseAt(flags: seq<bool>, i: nat)
    requires i < |flags| && flags[i]
    requires forall j :: 0 <= j < i ==> !flags[j]
    ensures FirstInUse(flags) == Some(i)
  {
  }

  /** `ObjectPool[T]`. The mutex is not modelled. */
  class ObjectPool<T> {
    var pool: seq<PObject<T>>
    var freeList: seq<PObject<T>>

    /** Every slot appears once in `pool`, the free list names only slots of
        the pool, and every slot is tidy. The free list may name a slot twice
        and may name a slot that is in use. */
    ghost predicate Valid()
      reads this, pool
    {
      && Distinct(pool)
      && (forall p :: p in freeList ==> p in pool)
      && (forall p :: p in pool ==> p.Valid())
    }

    /** The in-use flags of the slots, in pool order. */
    ghost function Flags(): seq<bool>
      reads this, pool
    {
      seq(|pool|, i reads this, pool requires 0 <= i < |pool| => pool[i].isUsing)
    }

    /** What a careful pool keeps: the free list names each slot at most once,
        and names exactly the slots that are not in use. */
    ghost predicate FreeListExact()
      reads this, pool
    {
      && Distinct(freeList)
      && (forall p :: p in pool ==> (p in freeList <==> !p.isUsing))
    }

    /** `NewObjectPool`: no slots, empty free list. */
    constructor ()
      ensures pool == [] && freeList == []
      ensures Valid() && FreeListExact()
    {
      pool := [];
      freeList := [];
    }

    /** `AddObj`: wraps the factory's value `made` in a new free slot and
        appends that same slot to both lists. */
    method AddObj(made: T) returns (p: PObject<T>)
      requires Valid()
      modifies this
      ensures Valid()
      ensures fresh(p) && p.View() == FreshSlot(made)
      ensures pool == old(pool) + [p] && freeList == old(freeList) + [p]
      ensures old(FreeListExact()) ==> FreeListExact()
    {
      p := new PObject(made);
      pool := pool + [p];
      freeList := freeList + [p];
    }

    /** `GetObj`. With a non-empty free list the front entry is removed and
        checked out, and the pool is unchanged; the ok flag of the slot is
        dropped, so a slot already in use yields the zero value (`None`).
        With an empty free list the factory's value `made` is added through
        `AddObj` and checked out, and its slot stays in the free list. */
    method GetObj(init: Option<Callback>, callback: Option<Callback>, made: T) returns (obj: Option<T>, calls: seq<Call<T>>)
      requires Valid()
      modifies this, pool
      ensures Valid()
      ensures old(freeList) != [] ==>
        && pool == old(pool)
        && freeList == old(freeList)[1..]
        && Checkout(old(freeList)[0].View(), obj, calls) == Acquire(old(freeList[0].View()), init, callback)
        && (obj == None <==> old(freeList[0].isUsing))
        && (forall q :: q in pool && q != old(freeList)[0] ==> q.View() == old(q.View()))
      ensures old(freeList) == [] ==>
        && |pool| == |old(pool)| + 1
        && pool[..|old(pool)|] == old(pool)
        && fresh(pool[|old(pool)|])
        && freeList == [pool[|old(pool)|]]
        && pool[|old(pool)|].View() == Slot(made, true, init, callback)
        && obj == Some(made) && calls == Invoke(init, made)
        && (forall q :: q in old(pool) ==> q.View() == old(q.View()))
    {
      if |freeList| > 0 {
        var p := freeList[0];
        assert p in freeList;
        freeList := freeList[1..];
        obj, calls := p.GetObj(init, callback);
        return;
      }
      var p := AddObj(made);
      obj, calls := p.GetObj(init, callback);
    }

    /** `GetObj` as evidently intended: after `AddObj` the new slot is taken
        off the free list like any other. A pool whose free list is exact
        stays exact, and every checkout succeeds. */
    method CorrectedGetObj(init: Option<Callback>, callback: Option<Callback>, made: T) returns (obj: Option<T>, calls: seq<Call<T>>)
      requires Valid() && FreeListExact()
      modifies this, pool
      ensures Valid() && FreeListExact()
      ensures obj.Some?
      ensures old(freeList) != [] ==>
        && pool == old(pool)
        && freeList == old(freeList)[1..]
        && obj == Some(old(freeList[0].date))
      ensures old(freeList) == [] ==>
        && |pool| == |old(pool)| + 1 && pool[..|old(pool)|] == old(pool)
        && fresh(pool[|old(pool)|]) && freeList == []
        && obj == Some(made)
    {
      if |freeList| == 0 {
        var _ := AddObj(made);
      }
      var p := freeList[0];
      assert p in freeList && p in pool;
      assert p in old(pool) || fresh(p);
      freeList := freeList[1..];
      obj, calls := p.GetObj(init, callback);
    }

    /** `ReleaseObj`: returns `obj` to the first slot in use, in pool order,
        and appends that slot to the free list; later slots are untouched.
        With no slot in use it reports an error and changes nothing. The
        argument is not compared with any stored value. */
    method ReleaseObj(obj: T) returns (err: Option<Error>, calls: seq<Call<T>>)
      requires Valid()
      modifies this, pool
      ensures Valid() && pool == old(pool)
      ensures old(FreeListExact()) ==> FreeListExact()
      ensures FirstInUse(old(Flags())).None? ==>
        && err == Some(ObjectNotFound) && calls == []
        && freeList == old(freeList)
        && (forall q :: q in pool ==> q.View() == old(q.View()))
      ensures FirstInUse(old(Flags())).Some? ==>
        var k := FirstInUse(old(Flags())).value;
        && err == None
        && freeList == old(freeList) + [pool[k]]
        && Return(pool[k].View(), true, calls) == Release(old(pool[k].View()), obj)
        && (forall j :: 0 <= j < |pool| && j != k ==> pool[j].View() == old(pool[j].View()))
    {
      ghost var exact := FreeListExact();
      ghost var flags := Flags();
      var i := 0;
      while i < |pool|
        invariant 0 <= i <= |pool|
        invariant pool == old(pool) && freeList == old(freeList)
        invariant forall j :: 0 <= j < i ==> !flags[j]
        invariant forall q :: q in pool ==> q.View() == old(q.View())
      {
        var ok, c := pool[i].ReleaseObj(obj);
        if ok {
          assert flags[i];
          FirstInUseAt(flags, i);
          AppendReleased(i, exact);
          return None, c;
        }
        i := i + 1;
      }
      return Some(ObjectNotFound), [];
    }

    /** The slots other than the `i`th are exactly free when listed, the
        free list has no repetition, and the `i`th is free and not listed:
        the state just after the `i`th slot has been released. */
    ghost predicate ExactBut(i: nat)
      requires i < |pool|
      reads this, pool
    {
      && (forall a, b :: 0 <= a < b < |freeList| ==> freeList[a] != freeList[b])
      && (forall p :: p in pool && p != pool[i] ==> (p in freeList <==> !p.isUsing))
      && pool[i] !in freeList && !pool[i].isUsing
    }

    /** The append after a successful release: the released slot joins the
        free list, which is then exact if it was exact but for that slot. */
    method AppendReleased(i: nat, ghost exact: bool)
      requires Valid() && i < |pool|
      requires exact ==> ExactBut(i)
      modifies this
      ensures Valid()
      ensures pool == old(pool) && freeList == old(freeList) + [pool[i]]
      ensures exact ==> FreeListExact()
    {
      freeList := freeList + [pool[i]];
    }

    /** `ReleaseObjAdapter`: a value of another type is refused before any
        slot is looked at; a `T` goes to `ReleaseObj`, with its outcome and
        its new state. */
    method ReleaseObjAdapter(obj: Base<T>) returns (err: Option<Error>, calls: seq<Call<T>>)
      requires Valid()
      modifies this, pool
      ensures Valid() && pool == old(pool)
      ensures obj.Foreign? ==>
        err == Some(InvalidObjectType) && calls == [] && freeList == old(freeList)
        && (forall q :: q in pool ==> q.View() == old(q.View()))
      ensures obj.OfT? ==> (err == None <==> FirstInUse(old(Flags())).Some?)
      ensures old(FreeListExact()) ==> FreeListExact()
      ensures obj.OfT? && FirstInUse(old(Flags())).None? ==>
        && err == Some(ObjectNotFound) && calls == []
        && freeList == old(freeList)
        && (forall q :: q in pool ==> q.View() == old(q.View()))
      ensures obj.OfT? && FirstInUse(old(Flags())).Some? ==>
        var k := FirstInUse(old(Flags())).value;
        && err == None
        && freeList == old(freeList) + [pool[k]]
        && Return(pool[k].View(), true, calls) == Release(old(pool[k].View()), obj.value)
        && (forall j :: 0 <= j < |pool| && j != k ==> pool[j].View() == old(pool[j].View()))
    {
      if obj.Foreign? {
        return Some(InvalidObjectType), [];
      }
      err, calls := ReleaseObj(obj.value);
    }
  }

  /** The pool as written: on a new pool the first checkout makes a slot
      that stays in the free list, so the second checkout picks that same
      slot, finds it in use and hands out the zero value. */
  method SecondGetOnNewPool<T>(a: T, b: T) returns (first: Option<T>, second: Option<T>)
    ensures first == Some(a) && second == None
  {
    var op := new ObjectPool<T>();
    var calls;
    first, calls := op.GetObj(None, None, a);
    second, calls := op.GetObj(None, None, b);
  }

  /** The corrected checkout on a new pool: both checkouts succeed, each on a
      slot of its own. */
  method SecondCorrectedGetOnNewPool<T>(a: T, b: T) returns (first: Option<T>, second: Option<T>)
    ensures first == Some(a) && second == Some(b)
  {
    var op := new ObjectPool<T>();
    var calls;
    first, calls := op.CorrectedGetObj(None, None, a);
    second, calls := op.CorrectedGetObj(None, None, b);
  }
}
