/** The timer: a list of keyframes laid on a timeline that an actor's
    updates advance, firing each keyframe once when its time comes and
    either looping or stopping at the end. */
module Timers {
  import opened Common
  import opened KeyFrames

  /** The running maximum `Start` computes: it starts from 0 and takes
      every larger time. The result is at least 0, at least every time, and
      either 0 or one of the times. */
  function MaxTime(ts: seq<real>): (m: real)
    ensures m >= 0.0
    ensures forall i :: 0 <= i < |ts| ==> ts[i] <= m
    ensures m == 0.0 || exists i :: 0 <= i < |ts| && ts[i] == m
    decreases |ts|
  {
    if ts == [] then 0.0
    else
      var m0 := MaxTime(ts[..|ts| - 1]);
      if ts[|ts| - 1] > m0 then ts[|ts| - 1] else m0
  }

  /** The times of a list of keyframes, in list order. */
  ghost function Times(kfs: seq<KeyFrame>): seq<real>
    reads set k | k in kfs
  {
    seq(|kfs|, i reads set k | k in kfs requires 0 <= i < |kfs| => kfs[i].time)
  }

  /** A list of keyframes every one of which `ReleaseKeyFrame` accepts when
      they are released in order: none is listed twice, and none has time
      0 already. */
  ghost predicate Releasable(kfs: seq<KeyFrame>)
    reads set k | k in kfs
  {
    Distinct(kfs) && forall i :: 0 <= i < |kfs| ==> kfs[i].time != 0.0
  }

  /** What the release loop of `releaseResources` keeps after releasing
      the first `i` keyframes of `kfs`, which had times `times` and left
      the pool holding `idle0`: `done` holds exactly those keyframes, `ok`
      says whether every release so far succeeded, which is whether those
      keyframes are releasable; released keyframes have time 0 and the
      others their old time; and the pool holds `idle0` plus released
      keyframes, exactly those in order when all succeeded. */
  ghost predicate Releasing(r: KeyFrameRegistry, kfs: seq<KeyFrame>, times: seq<real>, idle0: seq<KeyFrame>,
                            i: nat, done: set<KeyFrame>, ok: bool)
    requires i <= |kfs| && |times| == |kfs|
    reads r, r.manager, r.pool, set k | k in kfs
  {
    && r.Valid()
    && (forall k :: k in done ==> k in kfs[..i])
    && (forall j :: 0 <= j < i ==> kfs[j] in done)
    && (ok <==> ReleasableUpTo(kfs, times, i))
    && (forall k :: k in done ==> k.time == 0.0)
    && (forall j :: 0 <= j < |kfs| && kfs[j] !in done ==> kfs[j].time == times[j])
    && (ok ==> r.Idle() == idle0 + kfs[..i])
    && (forall k :: k in r.Idle() ==> k in idle0 || k in done)
  }

  /** One turn of the release loop: `ReleaseKeyFrame` on the next keyframe. */
  method ReleaseNext(r: KeyFrameRegistry, kfs: seq<KeyFrame>, ghost times: seq<real>, ghost idle0: seq<KeyFrame>,
                     i: nat, ghost done: set<KeyFrame>, ok: bool) returns (ok': bool)
    requires i < |kfs| && |times| == |kfs|
    requires kfs == [] || r.Initialised()
    requires Releasing(r, kfs, times, idle0, i, done, ok)
    modifies kfs[i], r.pool
    ensures r.manager == old(r.manager) && r.pool == old(r.pool)
    ensures Releasing(r, kfs, times, idle0, i + 1, done + {kfs[i]}, ok')
  {
    var kf := kfs[i];
    PrefixSnoc(kfs, i);
    ReleasableStep(kfs, times, i);
    if kf !in done {
      assert kf.time == times[i];
    }
    var e := r.ReleaseKeyFrame(kf);
    ok' := ok && e.None?;
    DoneStep(kfs, i, done);
  }

  /** The release loop of `releaseResources`: every keyframe of the list is
      handed to `ReleaseKeyFrame` in list order. All releases succeed
      exactly when the list is releasable, and then the pool gains the list
      in order; whatever happens, every listed keyframe ends with time 0. */
  method ReleaseAll(r: KeyFrameRegistry, kfs: seq<KeyFrame>) returns (ok: bool)
    requires r.Valid() && (kfs == [] || r.Initialised())
    modifies kfs, r.pool
    ensures r.Valid() && r.manager == old(r.manager) && r.pool == old(r.pool)
    ensures ok <==> old(Releasable(kfs))
    ensures forall k :: k in kfs ==> k.time == 0.0
    ensures ok ==> r.Idle() == old(r.Idle()) + kfs
    ensures forall k :: k in r.Idle() ==> k in old(r.Idle()) || k in kfs
  {
    ghost var times := TimesNow(kfs);
    ghost var idle0 := r.Idle();
    ghost var releasable := Releasable(kfs);
    ghost var done: set<KeyFrame> := {};
    ok := true;
    StartReleasing(r, kfs, times, idle0);
    for i := 0 to |kfs|
      invariant r.manager == old(r.manager) && r.pool == old(r.pool)
      invariant Releasing(r, kfs, times, idle0, i, done, ok)
    {
      ok := ReleaseNext(r, kfs, times, idle0, i, done, ok);
      done := done + {kfs[i]};
    }
    Released(r, kfs, times, idle0, done, ok);
    assert ok <==> releasable;
  }

  /** Before the release loop the invariant holds with nothing released,
      and releasability of the whole list is that of the list as it is. */
  lemma StartReleasing(r: KeyFrameRegistry, kfs: seq<KeyFrame>, times: seq<real>, idle0: seq<KeyFrame>)
    requires r.Valid() && idle0 == r.Idle()
    requires |times| == |kfs| && forall j :: 0 <= j < |kfs| ==> times[j] == kfs[j].time
    ensures Releasing(r, kfs, times, idle0, 0, {}, true)
    ensures ReleasableUpTo(kfs, times, |kfs|) <==> Releasable(kfs)
  {
    assert kfs[..|kfs|] == kfs;
  }

  /** The keyframes' times, as `Times` gives them, position by position. */
  lemma TimesNow(kfs: seq<KeyFrame>) returns (ts: seq<real>)
    ensures |ts| == |kfs| && forall j :: 0 <= j < |kfs| ==> ts[j] == kfs[j].time
  {
    ts := Times(kfs);
  }

  /** Once every keyframe has been handed over, the loop's invariant says
      what `releaseResources` promises about the whole list. */
  lemma Released(r: KeyFrameRegistry, kfs: seq<KeyFrame>, times: seq<real>, idle0: seq<KeyFrame>,
                 done: set<KeyFrame>, ok: bool)
    requires |times| == |kfs| && Releasing(r, kfs, times, idle0, |kfs|, done, ok)
    ensures r.Valid()
    ensures ok <==> ReleasableUpTo(kfs, times, |kfs|)
    ensures forall k :: k in kfs ==> k.time == 0.0
    ensures ok ==> r.Idle() == idle0 + kfs
    ensures forall k :: k in r.Idle() ==> k in idle0 || k in kfs
  {
    assert kfs[..|kfs|] == kfs;
  }

  /** A prefix one longer is the prefix followed by the next element. */
  lemma PrefixSnoc<T>(s: seq<T>, i: nat)
    requires i < |s|
    ensures s[..i + 1] == s[..i] + [s[i]]
  {
  }

  /** Adding the next element to the set of a prefix's elements gives the
      set of the longer prefix's elements. */
  lemma DoneStep<T>(s: seq<T>, i: nat, done: set<T>)
    requires i < |s|
    requires forall k :: k in done ==> k in s[..i]
    requires forall j :: 0 <= j < i ==> s[j] in done
    ensures forall k :: k in done + {s[i]} ==> k in s[..i + 1]
    ensures forall j :: 0 <= j < i + 1 ==> s[j] in done + {s[i]}
  {
    PrefixSnoc(s, i);
  }

  /** The first `i` keyframes, with the times they had at the start, are
      releasable. */
  ghost predicate ReleasableUpTo(kfs: seq<KeyFrame>, times: seq<real>, i: nat)
    requires i <= |kfs| && |times| == |kfs|
  {
    Distinct(kfs[..i]) && forall j :: 0 <= j < i ==> times[j] != 0.0
  }

  lemma ReleasableStep(kfs: seq<KeyFrame>, times: seq<real>, i: nat)
    requires i < |kfs| && |times| == |kfs|
    ensures ReleasableUpTo(kfs, times, i + 1) <==>
      ReleasableUpTo(kfs, times, i) && kfs[i] !in kfs[..i] && times[i] != 0.0
  {
    assert kfs[..i + 1] == kfs[..i] + [kfs[i]];
    DistinctSnoc(kfs[..i], kfs[i]);
  }

  /** One keyframe that has not been released is releasable. */
  lemma SingleReleasable(k: KeyFrame)
    requires k.time != 0.0
    ensures Releasable([k])
  {
  }

  /** `ZTimer`. The logger, the overrun callback and the timer id are not
      modelled; `stopPending` says whether the one-slot stop channel holds
      a stop request. */
  class ZTimer {
    var keyFrames: seq<KeyFrame>
    var maxTimer: real
    var isLoop: bool
    var isRun: bool
    var currentTimer: real
    const offsetTime: real
    var stopPending: bool
    var actor: Option<ActorRef>

    /** A timer's keyframes all come from `GetKeyFrame`, so a timer that has
        keyframes has an initialised keyframe registry. */
    ghost predicate Backed(r: KeyFrameRegistry)
      reads this, r
    {
      keyFrames == [] || r.Initialised()
    }

    /** The timer `NewZTimer` builds once its argument has been checked. */
    constructor (offset: real)
      ensures offsetTime == offset && keyFrames == [] && actor == None
      ensures !isRun && !isLoop && !stopPending && currentTimer == 0.0 && maxTimer == 0.0
    {
      offsetTime := offset;
      keyFrames := [];
      actor := None;
      isRun, isLoop, stopPending := false, false, false;
      currentTimer, maxTimer := 0.0, 0.0;
    }

    /** `AddKeyFrame`: refused while running, then for a time that is not
        positive, then for a missing action, with the list unchanged;
        otherwise a keyframe with that time and action, not triggered, is
        taken from the pool and appended. No other pooled keyframe
        changes. */
    method AddKeyFrame(r: KeyFrameRegistry, t: real, a: Option<Action>) returns (err: Option<Error>)
      requires r.Valid() && Backed(r)
      modifies this, r, r.Footprint()
      ensures r.Valid() && Backed(r)
      ensures isRun == old(isRun) && isLoop == old(isLoop) && stopPending == old(stopPending)
      ensures currentTimer == old(currentTimer) && maxTimer == old(maxTimer) && actor == old(actor)
      ensures old(isRun) ==> err == Some(TimerAlreadyRunning) && keyFrames == old(keyFrames)
      ensures !old(isRun) && t <= 0.0 ==> err == Some(InvalidTimerParameters) && keyFrames == old(keyFrames)
      ensures !old(isRun) && t > 0.0 && a.None? ==> err == Some(InvalidTimerParameters) && keyFrames == old(keyFrames)
      ensures !old(isRun) && t > 0.0 && a.Some? ==>
        && err == None
        && |keyFrames| == |old(keyFrames)| + 1 && keyFrames[..|old(keyFrames)|] == old(keyFrames)
        && keyFrames[|old(keyFrames)|].time == t && keyFrames[|old(keyFrames)|].action == a
        && !keyFrames[|old(keyFrames)|].isTrigger
      ensures forall o :: o in r.Footprint() ==> o in old(r.Footprint()) || fresh(o)
      ensures forall k :: k in keyFrames ==> k in old(keyFrames) || k in old(r.Footprint()) || fresh(k)
      ensures forall k :: k in old(r.Idle()) && !(|keyFrames| > |old(keyFrames)| && k == keyFrames[|keyFrames| - 1]) ==>
        unchanged(k)
    {
      if isRun {
        return Some(TimerAlreadyRunning);
      }
      if t <= 0.0 {
        return Some(InvalidTimerParameters);
      }
      if a.None? {
        return Some(InvalidTimerParameters);
      }
      var kf, e := r.GetKeyFrame(t, a);
      assert kf != null && e == None;
      var e2 := kf.Set(t, a);
      keyFrames := keyFrames + [kf];
      err := None;
    }

    /** `StartTimer`: fails exactly when no actor is set. */
    method StartTimer() returns (err: Option<Error>)
      ensures err == None <==> actor.Some?
      ensures err != None ==> err == Some(ActorBaseNotInitialized)
    {
      if actor.None? {
        return Some(ActorBaseNotInitialized);
      }
      err := None;
    }

    /** `Start`: refused when already running, then without an actor, then
        without keyframes, changing nothing; otherwise the timer runs from
        0 with `maxTimer` the largest keyframe time (see `MaxTime`), and the
        call to `StartTimer` cannot fail, because the actor has just been
        set. */
    method Start(a: Option<ActorRef>) returns (err: Option<Error>)
      modifies this
      ensures keyFrames == old(keyFrames) && isLoop == old(isLoop) && stopPending == old(stopPending)
      ensures old(isRun) ==> err == Some(TimerAlreadyRunning) && unchanged(this)
      ensures !old(isRun) && a.None? ==> err == Some(ActorNotSet) && unchanged(this)
      ensures !old(isRun) && a.Some? && old(keyFrames) == [] ==> err == Some(NoKeyFrames) && unchanged(this)
      ensures !old(isRun) && a.Some? && old(keyFrames) != [] ==>
        && err == None && isRun && actor == a && currentTimer == 0.0
        && maxTimer == MaxTime(Times(keyFrames))
    {
      if isRun {
        return Some(TimerAlreadyRunning);
      }
      if a.None? {
        return Some(ActorNotSet);
      }
      if |keyFrames| == 0 {
        return Some(NoKeyFrames);
      }
      actor := a;
      currentTimer := 0.0;
      isRun := true;
      maxTimer := MaxKeyFrameTime();
      var e := StartTimer();
      assert e == None;
      err := None;
    }

    /** The maximum-finding loop of `Start`: from 0, every keyframe time
        larger than the maximum so far becomes the maximum. */
    method MaxKeyFrameTime() returns (m: real)
      ensures m == MaxTime(Times(keyFrames))
    {
      ghost var ts := Times(keyFrames);
      m := 0.0;
      var i := 0;
      while i < |keyFrames|
        invariant 0 <= i <= |keyFrames| == |ts|
        invariant m == MaxTime(ts[..i])
      {
        assert ts[..i + 1][..i] == ts[..i];
        assert ts[i] == keyFrames[i].time;
        if keyFrames[i].time > m {
          m := keyFrames[i].time;
        }
        i := i + 1;
      }
      assert ts[..i] == ts;
    }

    /** The trigger loop of `Update`: every keyframe not yet triggered whose
        time, less the offset, has been reached fires, exactly once, when it
        has an action. `fired` lists the keyframes whose action was
        scheduled. Times and actions are unchanged. */
    method TriggerDue() returns (fired: seq<KeyFrame>)
      modifies keyFrames
      ensures forall k :: k in keyFrames ==> k.time == old(k.time) && k.action == old(k.action)
      ensures forall k :: k in keyFrames ==>
        k.isTrigger == (old(k.isTrigger) || (old(k.action).Some? && currentTimer >= old(k.time) - offsetTime))
      ensures Distinct(fired)
      ensures forall k :: k in fired <==>
        k in keyFrames && !old(k.isTrigger) && old(k.action).Some? && currentTimer >= old(k.time) - offsetTime
    {
      fired := [];
      for i := 0 to |keyFrames|
        invariant forall k :: k in keyFrames ==> k.time == old(k.time) && k.action == old(k.action)
        invariant forall k :: k in keyFrames[..i] ==>
          k.isTrigger == (old(k.isTrigger) || (old(k.action).Some? && currentTimer >= old(k.time) - offsetTime))
        invariant forall k :: k in keyFrames && k !in keyFrames[..i] ==> k.isTrigger == old(k.isTrigger)
        invariant Distinct(fired)
        invariant forall k :: k in fired <==>
          k in keyFrames[..i] && !old(k.isTrigger) && old(k.action).Some? && currentTimer >= old(k.time) - offsetTime
      {
        var kf := keyFrames[i];
        assert keyFrames[..i + 1] == keyFrames[..i] + [kf];
        var triggered := kf.IsTriggered();
        if !triggered && currentTimer >= kf.time - offsetTime {
          var scheduled := kf.Trigger();
          if scheduled.Some? {
            fired := fired + [kf];
          }
        }
      }
      assert keyFrames[..|keyFrames|] == keyFrames;
    }

    /** `resetKeyFrames`: every keyframe is untriggered; times and actions
        are kept. */
    method ResetKeyFrames()
      modifies keyFrames
      ensures forall k :: k in keyFrames ==> !k.isTrigger && k.time == old(k.time) && k.action == old(k.action)
    {
      for i := 0 to |keyFrames|
        invariant forall k :: k in keyFrames ==> k.time == old(k.time) && k.action == old(k.action)
        invariant forall k :: k in keyFrames[..i] ==> !k.isTrigger
      {
        assert keyFrames[..i + 1] == keyFrames[..i] + [keyFrames[i]];
        keyFrames[i].Reset();
      }
      assert keyFrames[..|keyFrames|] == keyFrames;
    }

    /** `safeStop`: puts a stop request in the one-slot stop channel, or
        drops it when the channel already holds one. */
    method SafeStop()
      modifies this
      ensures stopPending
      ensures keyFrames == old(keyFrames) && isRun == old(isRun) && isLoop == old(isLoop)
      ensures currentTimer == old(currentTimer) && maxTimer == old(maxTimer) && actor == old(actor)
    {
      if !stopPending {
        stopPending := true;
      }
    }

    /** `releaseResources`: releases every keyframe in list order and then
        empties the list. It reports an error exactly when some release was
        refused, which happens exactly when the list was not releasable; in
        any case every listed keyframe ends with time 0. */
    method ReleaseResources(r: KeyFrameRegistry) returns (err: Option<Error>)
      requires r.Valid() && Backed(r)
      modifies this, keyFrames, r.pool
      ensures r.Valid() && r.manager == old(r.manager) && r.pool == old(r.pool)
      ensures keyFrames == []
      ensures isRun == old(isRun) && isLoop == old(isLoop) && stopPending == old(stopPending)
      ensures currentTimer == old(currentTimer) && maxTimer == old(maxTimer) && actor == old(actor)
      ensures err == None <==> old(Releasable(keyFrames))
      ensures err != None ==> err == Some(ResourceCleanup)
      ensures forall k :: k in old(keyFrames) ==> k.time == 0.0
      ensures old(Releasable(keyFrames)) ==> r.Idle() == old(r.Idle()) + old(keyFrames)
      ensures forall k :: k in r.Idle() ==> k in old(r.Idle()) || k in old(keyFrames)
    {
      var ok := ReleaseAll(r, keyFrames);
      keyFrames := [];
      if !ok {
        return Some(ResourceCleanup);
      }
      err := None;
    }

    /** `StopTimer`: does nothing when not running. Otherwise it puts a stop
        request in the stop channel, releases the keyframes as
        `ReleaseResources` does (each ends with time 0, and a releasable list
        is appended to the pool), and stops the timer when every release
        succeeded; the stop request stays in the channel. */
    method StopTimer(r: KeyFrameRegistry) returns (err: Option<Error>)
      requires r.Valid() && Backed(r)
      modifies this, keyFrames, r.pool
      ensures r.Valid() && Backed(r) && r.manager == old(r.manager) && r.pool == old(r.pool)
      ensures isLoop == old(isLoop) && currentTimer == old(currentTimer) && maxTimer == old(maxTimer) && actor == old(actor)
      ensures !old(isRun) ==> err == None && unchanged(this) && r.Idle() == old(r.Idle())
      ensures old(isRun) ==>
        && stopPending && keyFrames == []
        && (err == None <==> old(Releasable(keyFrames)))
        && (isRun <==> err != None)
        && (forall k :: k in old(keyFrames) ==> k.time == 0.0)
        && (old(Releasable(keyFrames)) ==> r.Idle() == old(r.Idle()) + old(keyFrames))
      ensures forall k :: k in r.Idle() ==> k in old(r.Idle()) || k in old(keyFrames)
    {
      if !isRun {
        return None;
      }
      SafeStop();
      var e := ReleaseResources(r);
      if e.Some? {
        return Some(ResourceCleanup);
      }
      isRun := false;
      err := None;
    }

    /** `StopTimer` as evidently intended: the same, except that a stop that
        succeeds leaves no stop request behind for a later run of the timer
        to find. */
    method CorrectedStopTimer(r: KeyFrameRegistry) returns (err: Option<Error>)
      requires r.Valid() && Backed(r)
      modifies this, keyFrames, r.pool
      ensures r.Valid() && Backed(r) && r.manager == old(r.manager) && r.pool == old(r.pool)
      ensures isLoop == old(isLoop) && currentTimer == old(currentTimer) && maxTimer == old(maxTimer) && actor == old(actor)
      ensures !old(isRun) ==> err == None && unchanged(this) && r.Idle() == old(r.Idle())
      ensures old(isRun) ==>
        && keyFrames == []
        && (err == None <==> old(Releasable(keyFrames)))
        && (isRun <==> err != None)
        && (err == None ==> !stopPending)
        && (forall k :: k in old(keyFrames) ==> k.time == 0.0)
        && (old(Releasable(keyFrames)) ==> r.Idle() == old(r.Idle()) + old(keyFrames))
      ensures forall k :: k in r.Idle() ==> k in old(r.Idle()) || k in old(keyFrames)
    {
      var wasRunning := isRun;
      err := StopTimer(r);
      if wasRunning && err == None {
        stopPending := false;
      }
    }

    /** `Update`. Nothing happens when the timer is not running or the step
        is not positive. A pending stop request is taken, the keyframes are
        released as by `StopTimer`, and nothing fires; the timer is stopped
        when every release succeeds. Otherwise the clock advances by the
        step; past the end (the largest keyframe time plus the offset) a
        looping timer moves back by the largest keyframe time and untriggers
        every keyframe, and any other timer requests a stop, and nothing
        fires in either case; before the end, the due keyframes fire (see
        `TriggerDue`). */
    method Update(r: KeyFrameRegistry, delta: real) returns (fired: seq<KeyFrame>)
      requires r.Valid() && Backed(r)
      modifies this, keyFrames, r.pool
      ensures r.Valid() && Backed(r)
      ensures isLoop == old(isLoop) && maxTimer == old(maxTimer) && actor == old(actor)
      ensures !old(isRun) || delta <= 0.0 ==> fired == [] && unchanged(this) && unchanged(keyFrames)
      ensures old(isRun) && delta > 0.0 && old(stopPending) ==>
        && fired == [] && keyFrames == [] && stopPending && currentTimer == old(currentTimer)
        && (isRun <==> !old(Releasable(keyFrames)))
        && (forall k :: k in old(keyFrames) ==> k.time == 0.0)
        && (old(Releasable(keyFrames)) ==> r.Idle() == old(r.Idle()) + old(keyFrames))
      ensures !(old(isRun) && delta > 0.0 && old(stopPending)) ==> r.Idle() == old(r.Idle())
      ensures old(isRun) && delta > 0.0 && !old(stopPending) ==>
        var cur := old(currentTimer) + delta;
        && isRun && keyFrames == old(keyFrames)
        && (cur > maxTimer + offsetTime && isLoop ==>
              && fired == [] && currentTimer == cur - maxTimer && !stopPending
              && forall k :: k in keyFrames ==> !k.isTrigger && k.time == old(k.time) && k.action == old(k.action))
        && (cur > maxTimer + offsetTime && !isLoop ==>
              fired == [] && currentTimer == cur && stopPending && unchanged(keyFrames))
        && (cur <= maxTimer + offsetTime ==>
              && currentTimer == cur && !stopPending
              && (forall k :: k in keyFrames ==> k.time == old(k.time) && k.action == old(k.action))
              && (forall k :: k in keyFrames ==>
                    k.isTrigger == (old(k.isTrigger) || (old(k.action).Some? && cur >= old(k.time) - offsetTime)))
              && Distinct(fired)
              && (forall k :: k in fired <==>
                    k in keyFrames && !old(k.isTrigger) && old(k.action).Some? && cur >= old(k.time) - offsetTime))
    {
      if !isRun || delta <= 0.0 {
        return [];
      }
      if stopPending {
        stopPending := false;
        var _ := StopTimer(r);
        return [];
      }
      currentTimer := currentTimer + delta;
      if currentTimer > maxTimer + offsetTime {
        if isLoop {
          currentTimer := currentTimer - maxTimer;
          ResetKeyFrames();
        } else {
          SafeStop();
        }
        return [];
      }
      fired := TriggerDue();
    }

    /** `IsRunning`. */
    method IsRunning() returns (running: bool)
      ensures running == isRun
    {
      running := isRun;
    }

    /** `CurrentProgress`: the elapsed share of the timeline, the clock over
        the largest keyframe time, and 0 when that is 0. */
    function CurrentProgress(): (p: real)
      reads this
      ensures maxTimer == 0.0 ==> p == 0.0
      ensures maxTimer != 0.0 ==> p * maxTimer == currentTimer
    {
      if maxTimer == 0.0 then 0.0 else currentTimer / maxTimer
    }
  }

  /** `NewZTimer`: refuses an offset that is not positive; otherwise a timer
      that is not running, has no keyframes and keeps the offset. */
  method NewZTimer(offset: real) returns (zt: ZTimer?, err: Option<Error>)
    ensures offset <= 0.0 ==> zt == null && err == Some(InvalidTimerParameters)
    ensures offset > 0.0 ==>
      && err == None && zt != null && fresh(zt)
      && zt.offsetTime == offset && zt.keyFrames == [] && !zt.isRun && !zt.stopPending && !zt.isLoop
  {
    if offset <= 0.0 {
      return null, Some(InvalidTimerParameters);
    }
    zt := new ZTimer(offset);
    err := None;
  }

  /** Gives a stopped timer without keyframes one keyframe at 0.5 with
      action `a` and starts it for `owner`. */
  method StartWithOneKeyFrame(r: KeyFrameRegistry, zt: ZTimer, a: Action, owner: ActorRef)
    requires r.Valid() && zt.Backed(r) && !zt.isRun && zt.keyFrames == []
    modifies zt, r, r.Footprint()
    ensures r.Valid() && zt.Backed(r)
    ensures zt.isRun && zt.stopPending == old(zt.stopPending) && zt.isLoop == old(zt.isLoop)
    ensures zt.currentTimer == 0.0 && zt.maxTimer == 0.5
    ensures |zt.keyFrames| == 1 && zt.keyFrames[0].time == 0.5
    ensures zt.keyFrames[0].action == Some(a) && !zt.keyFrames[0].isTrigger
    ensures zt.keyFrames[0] in old(r.Footprint()) || fresh(zt.keyFrames[0])
    ensures forall o :: o in r.Footprint() ==> o in old(r.Footprint()) || fresh(o)
  {
    var added := zt.AddKeyFrame(r, 0.5, Some(a));
    assert added == None;
    assert Times(zt.keyFrames) == [0.5];
    var started := zt.Start(Some(owner));
    assert started == None;
  }

  /** Stops a running timer that has one keyframe at 0.5, with
      `CorrectedStopTimer` when `corrected` holds and with `StopTimer`
      otherwise, and starts it again with a new keyframe at 0.5. A stop
      request is left behind exactly when `StopTimer` was used. */
  method StopThenRestart(r: KeyFrameRegistry, zt: ZTimer, a: Action, owner: ActorRef, corrected: bool)
    requires r.Valid() && zt.Backed(r) && zt.isRun
    requires |zt.keyFrames| == 1 && zt.keyFrames[0].time == 0.5
    modifies zt, zt.keyFrames, r, r.Footprint()
    ensures r.Valid() && zt.Backed(r)
    ensures zt.isRun && zt.stopPending == !corrected && zt.isLoop == old(zt.isLoop)
    ensures zt.currentTimer == 0.0 && zt.maxTimer == 0.5
    ensures |zt.keyFrames| == 1 && zt.keyFrames[0].time == 0.5
    ensures zt.keyFrames[0].action == Some(a) && !zt.keyFrames[0].isTrigger
    ensures zt.keyFrames[0] in old(r.Footprint()) || zt.keyFrames[0] in old(zt.keyFrames) || fresh(zt.keyFrames[0])
    ensures forall o :: o in r.Footprint() ==> o in old(r.Footprint()) || o in old(zt.keyFrames) || fresh(o)
  {
    ghost var held := zt.keyFrames[0];
    assert zt.keyFrames == [held];
    SingleReleasable(held);
    ghost var before := r.Footprint();
    var stopped;
    if corrected {
      stopped := zt.CorrectedStopTimer(r);
    } else {
      stopped := zt.StopTimer(r);
    }
    assert stopped == None && !zt.isRun && zt.keyFrames == [];
    forall o | o in r.Footprint()
      ensures o in before || o == held
    {
      if o != r.manager && o != r.pool {
        var k: KeyFrame :| k in r.Idle() && o == k;
      }
    }
    StartWithOneKeyFrame(r, zt, a, owner);
  }

  /** A timer stopped with `StopTimer` and started again stops at its
      first update: the stop request `StopTimer` left in the channel is
      taken by that update, which stops the timer instead of firing the
      keyframe that is due. */
  method RestartAfterStop(r: KeyFrameRegistry, a: Action, owner: ActorRef)
    returns (running: bool, fired: seq<KeyFrame>)
    requires r.Valid()
    modifies r, r.Footprint()
    ensures !running && fired == []
  {
    var zt, _ := NewZTimer(1.0);
    StartWithOneKeyFrame(r, zt, a, owner);
    StopThenRestart(r, zt, a, owner, false);
    assert zt.keyFrames == [zt.keyFrames[0]];
    SingleReleasable(zt.keyFrames[0]);
    fired := zt.Update(r, 0.25);
    running := zt.IsRunning();
  }

  /** The same sequence with `CorrectedStopTimer`: the restarted timer keeps
      running and its update fires the keyframe that is due. */
  method RestartAfterCorrectedStop(r: KeyFrameRegistry, a: Action, owner: ActorRef)
    returns (running: bool, fired: seq<KeyFrame>, kf: KeyFrame)
    requires r.Valid()
    modifies r, r.Footprint()
    ensures running && kf.action == Some(a) && kf.isTrigger
    ensures kf in fired && Distinct(fired) && forall k :: k in fired ==> k == kf
  {
    var zt, _ := NewZTimer(1.0);
    StartWithOneKeyFrame(r, zt, a, owner);
    StopThenRestart(r, zt, a, owner, true);
    kf := zt.keyFrames[0];
    assert zt.keyFrames == [kf];
    fired := zt.Update(r, 0.25);
    running := zt.IsRunning();
  }
}
