/** The pool registry and the generic pool that it usually holds. */
module PoolManager {
  import opened Common
  import opened PooledObjects

  /** The registry (`Manager`): pool name to pool. `P` stands for the `Pool`
      interface; the registry never looks inside a pool. The mutex is not
      modelled. */
  class Manager<P> {
    var pools: map<string, P>

    /** `NewManager`: an empty registry. */
    constructor ()
      ensures pools == map[]
    {
      pools := map[];
    }

    /** `RegisterPool`: a taken name is refused and the registry is left as
        it is; a new name is bound to the pool. No other name is touched,
        and nothing is ever removed. */
    method RegisterPool(name: string, pool: P) returns (err: Option<Error>)
      modifies this
      ensures name in old(pools) ==> err == Some(PoolAlreadyRegistered) && pools == old(pools)
      ensures name !in old(pools) ==> err == None && pools == old(pools)[name := pool]
      ensures old(pools).Keys <= pools.Keys
      ensures forall n :: n in old(pools) ==> pools[n] == old(pools)[n]
    {
      if name in pools {
        return Some(PoolAlreadyRegistered);
      }
      pools := pools[name := pool];
      err := None;
    }

    /** `GetPool`: the pool bound to the name, or `PoolNotFound`. */
    method GetPool(name: string) returns (pool: Option<P>, err: Option<Error>)
      ensures name in pools ==> pool == Some(pools[name]) && err == None
      ensures name !in pools ==> pool == None && err == Some(PoolNotFound)
    {
      if name !in pools {
        return None, Some(PoolNotFound);
      }
      return Some(pools[name]), None;
    }
  }

  /** Registering one name twice and looking names up: the first
      registration succeeds, the second is refused, the name keeps the
      first pool, and a name never registered is not found. */
  method RegisterTwiceThenLookUp<P>(name: string, other: string, p: P, q: P)
    returns (first: Option<Error>, second: Option<Error>, found: Option<P>, missing: Option<Error>)
    requires name != other
    ensures first == None && second == Some(PoolAlreadyRegistered)
    ensures found == Some(p)
    ensures missing == Some(PoolNotFound)
  {
    var m := new Manager<P>();
    first := m.RegisterPool(name, p);
    second := m.RegisterPool(name, q);
    var e;
    found, e := m.GetPool(name);
    var none;
    none, missing := m.GetPool(other);
  }

  /** A call of an `ObjectBase` hook on a pooled value. */
  datatype Hook<T> = OnGet(obj: T) | OnRelease(obj: T)

  /** `GenericObjectPool[T]`: a `sync.Pool` of `T`s. The store is modelled as
      the list of values put back and not yet taken again; a checkout takes
      the most recently returned one, or the construction-time factory's
      product when there is none. */
  class GenericObjectPool<T> {
    var idle: seq<T>

    /** `NewGenericObjectPool`: nothing stored yet. */
    constructor ()
      ensures idle == []
    {
      idle := [];
    }

    /** `GetObj`: takes a value from the store, or the factory's product
        `made` when the store is empty, and calls `OnGet` on it. The `init`
        and `callback` arguments are ignored, and so is the factory argument
        of the source (which is why it does not appear here). */
    method GetObj(init: Option<Callback>, callback: Option<Callback>, made: T) returns (obj: T, hooks: seq<Hook<T>>)
      modifies this
      ensures hooks == [OnGet(obj)]
      ensures old(idle) == [] ==> obj == made && idle == []
      ensures old(idle) != [] ==> obj == old(idle)[|old(idle)| - 1] && idle == old(idle)[..|old(idle)| - 1]
    {
      if idle == [] {
        obj := made;
      } else {
        obj := idle[|idle| - 1];
        idle := idle[..|idle| - 1];
      }
      hooks := [OnGet(obj)];
    }

    /** `ReleaseObj`: a value of another type is refused without calling
        `OnRelease`; a `T` has `OnRelease` called on it and is then put back
        into the store. */
    method ReleaseObj(obj: Base<T>) returns (err: Option<Error>, hooks: seq<Hook<T>>)
      modifies this
      ensures obj.Foreign? ==> err == Some(ObjectIsNotT) && hooks == [] && idle == old(idle)
      ensures obj.OfT? ==> err == None && hooks == [OnRelease(obj.value)] && idle == old(idle) + [obj.value]
    {
      if obj.Foreign? {
        return Some(ObjectIsNotT), [];
      }
      hooks := [OnRelease(obj.value)];
      idle := idle + [obj.value];
      err := None;
    }
  }

  /** A value released into a generic pool is the next one handed out, and
      both hooks run on it: `OnRelease` on the way in, `OnGet` on the way
      out. */
  method ReleaseThenGet<T>(v: T, made: T) returns (released: seq<Hook<T>>, got: T, gotHooks: seq<Hook<T>>)
    ensures released == [OnRelease(v)]
    ensures got == v && gotHooks == [OnGet(v)]
  {
    var gp := new GenericObjectPool<T>();
    var err;
    err, released := gp.ReleaseObj(OfT(v));
    got, gotHooks := gp.GetObj(None, None, made);
  }
}
