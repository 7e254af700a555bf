/** Keyframes: a point on a timeline with an action that fires once, and
    the shared pool keyframes are taken from and returned to. */
module KeyFrames {
  import opened Common
  import opened PooledObjects
  import opened PoolManager

  /** A keyframe's `func()`; the model only needs its identity. */
  datatype Action = Action(id: nat)

  /** The name the keyframe pool is registered under. */
  const PoolName: string := "keyframe_pool"

  /** The time the pool's factory gives a keyframe it makes. */
  const DefaultTime: real := 0.1

  /** `KeyFrame`. Times are `float32` in the source and reals here; the
      mutex is not modelled. */
  class KeyFrame {
    var time: real
    var action: Option<Action>
    var isTrigger: bool

    /** `&KeyFrame{Time: t}`: no action, not triggered. */
    constructor (t: real)
      ensures time == t && action == None && !isTrigger
    {
      time := t;
      action := None;
      isTrigger := false;
    }

    /** `OnGet`: clears the trigger flag; time and action are kept. */
    method OnGet()
      modifies this
      ensures !isTrigger && time == old(time) && action == old(action)
    {
      isTrigger := false;
    }

    /** `OnRelease`: forgets the time and the action and clears the trigger
        flag. */
    method OnRelease()
      modifies this
      ensures time == 0.0 && action == None && !isTrigger
    {
      time := 0.0;
      action := None;
      isTrigger := false;
    }

    /** `Validate`: a keyframe is valid exactly when its time is positive
        and it has an action; the time is checked first. */
    function Validate(): (r: Option<Error>)
      reads this
      ensures r == None <==> time > 0.0 && action.Some?
      ensures r == Some(InvalidKeyFrameTime) <==> time <= 0.0
      ensures r == Some(NilKeyFrameAction) <==> time > 0.0 && action.None?
    {
      if time <= 0.0 then Some(InvalidKeyFrameTime)
      else if action.None? then Some(NilKeyFrameAction)
      else None
    }

    /** `Set`: refuses a time that is not positive, then a missing action,
        changing nothing; otherwise stores both and clears the trigger
        flag. */
    method Set(t: real, a: Option<Action>) returns (err: Option<Error>)
      modifies this
      ensures t <= 0.0 ==> err == Some(NonPositiveSetTime) && unchanged(this)
      ensures t > 0.0 && a.None? ==> err == Some(NilKeyFrameAction) && unchanged(this)
      ensures t > 0.0 && a.Some? ==> err == None && time == t && action == a && !isTrigger
    {
      if t <= 0.0 {
        return Some(NonPositiveSetTime);
      }
      if a.None? {
        return Some(NilKeyFrameAction);
      }
      time := t;
      action := a;
      isTrigger := false;
      err := None;
    }

    /** `IsTriggered`. */
    method IsTriggered() returns (r: bool)
      ensures r == isTrigger
    {
      r := isTrigger;
    }

    /** `Trigger`: does nothing when already triggered or without an
        action; otherwise schedules the action (returned as `scheduled`) and
        marks the keyframe triggered. */
    method Trigger() returns (scheduled: Option<Action>)
      modifies this
      ensures time == old(time) && action == old(action)
      ensures old(isTrigger) || old(action).None? ==> scheduled == None && isTrigger == old(isTrigger)
      ensures !old(isTrigger) && old(action).Some? ==> scheduled == old(action) && isTrigger
    {
      if isTrigger || action.None? {
        return None;
      }
      scheduled := action;
      isTrigger := true;
    }

    /** `Reset`: clears only the trigger flag. */
    method Reset()
      modifies this
      ensures !isTrigger && time == old(time) && action == old(action)
    {
      isTrigger := false;
    }
  }

  /** A keyframe fires at most once until it is reset: a second `Trigger`
      schedules nothing; after `Reset` it fires again. */
  method TriggerTwiceThenReset(kf: KeyFrame) returns (first: Option<Action>, second: Option<Action>, third: Option<Action>)
    requires kf.action.Some? && !kf.isTrigger
    modifies kf
    ensures first == kf.action && second == None && third == kf.action
    ensures kf.isTrigger
  {
    first := kf.Trigger();
    second := kf.Trigger();
    kf.Reset();
    third := kf.Trigger();
  }

  /** The generic pool of keyframes. */
  type KeyFramePool = GenericObjectPool<KeyFrame>

  /** The globals the keyframe functions share: the pool registry
      (`ObjectPoolManager`, null until `InitKeyFramePool` runs) and, as
      ghost state, the pool registered in it under `PoolName`. */
  class KeyFrameRegistry {
    var manager: Manager?<KeyFramePool>
    ghost var pool: GenericObjectPool?<KeyFrame>

    /** Before initialisation there is neither registry nor pool; after it,
        the registry holds the pool under `PoolName`. */
    ghost predicate Valid()
      reads this, manager
    {
      && (manager == null <==> pool == null)
      && (manager != null ==> PoolName in manager.pools && manager.pools[PoolName] == pool)
    }

    ghost predicate Initialised()
      reads this
    {
      manager != null && pool != null
    }

    /** The keyframes the pool holds, most recently returned last. */
    ghost function Idle(): seq<KeyFrame>
      reads this, pool
    {
      if pool == null then [] else pool.idle
    }

    /** Everything the keyframe functions may change: the registry, the
        pool and the keyframes stored in it. */
    ghost function Footprint(): set<object>
      reads this, pool
    {
      if manager == null || pool == null then {}
      else {manager as object, pool as object} + set k | k in pool.idle :: k as object
    }

    /** Nothing initialised yet. */
    constructor ()
      ensures Valid() && manager == null && pool == null
    {
      manager := null;
      pool := null;
    }

    /** `InitKeyFramePool`: the first call makes the registry and an empty
        pool and registers the pool under `PoolName` (registration cannot
        fail on a new registry); later calls change nothing. */
    method InitKeyFramePool() returns (err: Option<Error>)
      requires Valid()
      modifies this
      ensures Valid() && Initialised() && err == None
      ensures old(Initialised()) ==> manager == old(manager) && pool == old(pool)
      ensures !old(Initialised()) ==>
        fresh(manager) && fresh(pool) && pool.idle == [] && manager.pools == map[PoolName := pool]
    {
      if manager == null {
        var m := new Manager<KeyFramePool>();
        var p := new GenericObjectPool<KeyFrame>();
        var e := m.RegisterPool(PoolName, p);
        assert e == None;
        manager := m;
        pool := p;
      }
      err := None;
    }

    /** `GetKeyFrame`. A time that is not positive, then a missing action,
        is refused before any pool is touched. Otherwise the pool is
        initialised if need be and a keyframe is taken from it (the most
        recently returned one, or a new one with the default time), `OnGet`
        runs on it, and its time and action are set; it then always passes
        `Validate`. No pooled keyframe other than the one handed out
        changes. */
    method GetKeyFrame(t: real, a: Option<Action>) returns (kf: KeyFrame?, err: Option<Error>)
      requires Valid()
      modifies this, Footprint()
      ensures Valid()
      ensures t <= 0.0 ==>
        kf == null && err == Some(InvalidKeyFrameTime) && unchanged(this) && Idle() == old(Idle())
      ensures t > 0.0 && a.None? ==>
        kf == null && err == Some(NilKeyFrameAction) && unchanged(this) && Idle() == old(Idle())
      ensures t > 0.0 && a.Some? ==>
        && err == None && kf != null && Initialised()
        && kf.time == t && kf.action == a && !kf.isTrigger && kf.Validate() == None
        && (old(Initialised()) ==> manager == old(manager) && pool == old(pool))
        && (old(Idle()) != [] ==>
              kf == old(Idle())[|old(Idle())| - 1] && Idle() == old(Idle())[..|old(Idle())| - 1])
        && (old(Idle()) == [] ==> fresh(kf) && Idle() == [])
      ensures kf != null ==> kf in old(Footprint()) || fresh(kf)
      ensures forall o :: o in Footprint() ==> o in old(Footprint()) || fresh(o)
      ensures forall k :: k in old(Idle()) && k != kf ==> unchanged(k)
    {
      if t <= 0.0 {
        return null, Some(InvalidKeyFrameTime);
      }
      if a.None? {
        return null, Some(NilKeyFrameAction);
      }
      var _ := InitKeyFramePool();
      assert Idle() == old(Idle());
      var found, e := manager.GetPool(PoolName);
      var p := found.value;
      var made := new KeyFrame(DefaultTime);
      var obj, hooks := p.GetObj(None, None, made);
      assert obj == made || obj in old(Idle());
      obj.OnGet();
      kf := obj;
      kf.time := t;
      kf.action := a;
      assert kf.Validate() == None;
      err := None;
      assert forall k :: k in Idle() ==> k in old(Idle());
    }

    /** `ReleaseKeyFrame`. A nil keyframe is refused, and so is one whose
        time is 0, which marks a keyframe already released. Otherwise
        `OnRelease` runs on it, it is returned to the pool, and its time and
        action end up cleared. */
    method ReleaseKeyFrame(kf: KeyFrame?) returns (err: Option<Error>)
      requires Valid()
      requires kf != null && kf.time != 0.0 ==> Initialised()
      modifies pool, kf
      ensures Valid() && manager == old(manager) && pool == old(pool)
      ensures kf == null ==> err == Some(NilKeyFrame) && Idle() == old(Idle())
      ensures kf != null && old(kf.time) == 0.0 ==>
        err == Some(KeyFrameDoubleRelease) && Idle() == old(Idle()) && unchanged(kf)
      ensures kf != null && old(kf.time) != 0.0 ==>
        && err == None && Idle() == old(Idle()) + [kf]
        && kf.time == 0.0 && kf.action == None && !kf.isTrigger
    {
      if kf == null {
        return Some(NilKeyFrame);
      }
      if kf.time == 0.0 {
        return Some(KeyFrameDoubleRelease);
      }
      var found, e := manager.GetPool(PoolName);
      var p := found.value;
      var e2, hooks := p.ReleaseObj(OfT(kf));
      kf.OnRelease();
      kf.time := 0.0;
      kf.action := None;
      err := None;
    }
  }

  /** A keyframe handed out by `GetKeyFrame` can be released once; an
      immediate second release is refused as a double release. */
  method GetReleaseRelease(r: KeyFrameRegistry, t: real, a: Action)
    returns (got: Option<Error>, first: Option<Error>, second: Option<Error>)
    requires r.Valid() && t > 0.0
    modifies r, r.Footprint()
    ensures got == None && first == None && second == Some(KeyFrameDoubleRelease)
  {
    var kf;
    kf, got := r.GetKeyFrame(t, Some(a));
    first := r.ReleaseKeyFrame(kf);
    second := r.ReleaseKeyFrame(kf);
  }
}
