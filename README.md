# zdopt runtime core in Dafny

This project models the sequential core of the zdopt game-server runtime (Go),
and proves properties of it. It covers three packages:

- **ObjectPool**
  - `PObject`: a slot holding one value, an in-use flag and two callbacks.
  - `ObjectPool`: an append-only list of slots plus a FIFO free list.
  - `Manager`: the name-to-pool registry.
  - `GenericObjectPool`: a `sync.Pool` wrapper that runs the `OnGet`/`OnRelease` hooks.
- **Actor**
  - The ring-buffer `MessageQueue`.
  - The batch-flush rule of the mailbox loop `processMessages` and the handler lookup of `batchHandle`.
  - The round-robin `Balancer`, which adds one worker whenever the chosen inbox is full.
  - Actor `Group`s, and the `System` that creates groups on demand and stops every actor.
- **Timer**
  - `KeyFrame`: set, trigger once, reset, validate.
  - The shared keyframe pool: get, and release with double-release detection.
  - `ZTimer`: adds keyframes, starts, advances its clock by `Update`, fires due keyframes, loops or stops, and releases its keyframes.

How the model treats the Go runtime:

- Every mutex is a no-op.
- Goroutines run synchronously, one step at a time.
- A channel becomes a bounded FIFO, or a flag for the one-slot stop channel.
- Go's `nil` or zero value becomes `None`.
- A factory becomes a value the caller supplies (`made`).
- Callbacks, hooks and actions are opaque identities. Their invocations are returned as logs that the contracts describe.
- Objects whose fields the Go code updates in place are Dafny classes with `modifies` frames. Loops are `while`/`for` loops with invariants.

Files, one module per Go file:

| file | module | Go file |
|---|---|---|
| `common.dfy` | `Common` | error values, `Option`, actor identities |
| `pobject.dfy` | `PooledObjects` | `ObjectPool/pobject.go` |
| `object_pool.dfy` | `ObjectPools` | `ObjectPool/object_pool.go` |
| `object_pool_manager.dfy` | `PoolManager` | `ObjectPool/object_pool_manager.go` |
| `base.dfy` | `Mailbox` | `Actor/base.go` |
| `balancer.dfy` | `Balancing` | `Actor/balancer.go` |
| `group.dfy` | `Groups` | `Actor/group.go` |
| `system.dfy` | `Systems` | `Actor/system.go` |
| `keyframe.dfy` | `KeyFrames` | `Timer/KeyFrame.go`, `Timer/safe.go` |
| `ztimer.dfy` | `Timers` | `Timer/ztimer.go` |

Where an error path of the Go code is reachable, it is modelled as a result (`Option<Error>`) and not excluded by a precondition.

## Model

| member | source | states |
|---|---|---|
| `PooledObjects.PObject.constructor` | ZdoptServer/ObjectPool/pobject.go:17-22 | a new slot holds the given value, is free and has no callbacks |
| `PooledObjects.PObject.GetObj` | ZdoptServer/ObjectPool/pobject.go:25-42 | a slot in use refuses the checkout (zero value) and changes nothing; a free slot becomes in use, stores both callbacks, runs `init` once on the stored value when it is set, and hands that value out; the stored value never changes; the outcome is `Acquire` of the old slot |
| `PooledObjects.PObject.ReleaseObj` | ZdoptServer/ObjectPool/pobject.go:45-62 | it succeeds exactly when the slot was in use, whatever the argument; success frees the slot, runs the stored `callback` once on the argument when it is set, and clears both callbacks; on a free slot it is refused and changes nothing (a double release); the outcome is `Release` of the old slot |
| `PooledObjects.StrictAlternation` | ZdoptServer/ObjectPool/pobject.go:25-62 | over any sequence of calls, the successful checkouts and returns alternate strictly, starting with a checkout on a free slot and with a return on a slot in use |
| `PooledObjects.RunKeepsValue` | ZdoptServer/ObjectPool/pobject.go:25-62 | no sequence of calls changes the stored value, and a free slot never keeps callbacks |
| `PooledObjects.GetGetAndGetReleaseGet` | ZdoptServer/ObjectPool/pobject.go:29-53 | on a new slot, Get then Get fails the second time; Release then Get succeeds again with the same value |
| `ObjectPools.FirstInUse` | ZdoptServer/ObjectPool/object_pool.go:59-65 | the slot the release scan stops at: the first in-use position, with no in-use slot before it; none exactly when no slot is in use |
| `ObjectPools.ObjectPool.constructor` | ZdoptServer/ObjectPool/object_pool.go:17-22 | a new pool has no slots and an empty free list |
| `ObjectPools.ObjectPool.AddObj` | ZdoptServer/ObjectPool/object_pool.go:25-34 | the factory's value is wrapped in a new free slot, and that same slot is appended to the slot list and to the free list; a free list that names exactly the free slots keeps doing so |
| `ObjectPools.ObjectPool.GetObj` | ZdoptServer/ObjectPool/object_pool.go:37-51 | with a non-empty free list, exactly its front entry is removed and checked out, the slot list is unchanged, and the zero value comes back exactly when that slot was already in use; with an empty free list, exactly one new slot holding the factory's value is added and checked out, and it stays in the free list; no other slot changes |
| `ObjectPools.ObjectPool.ReleaseObj` | ZdoptServer/ObjectPool/object_pool.go:54-71 | the first in-use slot in pool order (`FirstInUse`) is released and appended to the free list, and every other slot is untouched; with no slot in use the result is an error and nothing changes; the slot list never changes |
| `ObjectPools.ObjectPool.ReleaseObjAdapter` | ZdoptServer/ObjectPool/object_pool.go:96-107 | a value of another type is refused before any slot is looked at; a `T` succeeds exactly when some slot is in use, and then has `ReleaseObj`'s effect: the first in-use slot is released with its callback run on the argument and appended to the free list, and every other slot is untouched; with no slot in use it reports `ObjectNotFound` and changes nothing |
| `ObjectPools.SecondGetOnNewPool` | ZdoptServer/ObjectPool/object_pool.go:47-50 | on a new pool, the second checkout returns the zero value (see Findings) |
| `ObjectPools.ObjectPool.CorrectedGetObj` | ZdoptServer/ObjectPool/object_pool.go:37-51 | the intended checkout: a free list that names exactly the free slots, once each, stays so, and every checkout hands out a value |
| `ObjectPools.SecondCorrectedGetOnNewPool` | ZdoptServer/ObjectPool/object_pool.go:37-51 | with the corrected checkout, two checkouts on a new pool hand out the two values |
| `PoolManager.Manager.constructor` | ZdoptServer/ObjectPool/object_pool_manager.go:24-28 | a new registry is empty |
| `PoolManager.Manager.RegisterPool` | ZdoptServer/ObjectPool/object_pool_manager.go:68-77 | a taken name is refused with `ErrPoolAlreadyRegistered` and the map is unchanged; a new name is bound to the pool; no other entry changes and none is removed |
| `PoolManager.Manager.GetPool` | ZdoptServer/ObjectPool/object_pool_manager.go:79-88 | the pool bound to the name, or `ErrPoolNotFound` when there is none |
| `PoolManager.RegisterTwiceThenLookUp` | ZdoptServer/ObjectPool/object_pool_manager.go:68-88 | after a successful registration a second one under that name is refused, the lookup returns the first pool, and an unregistered name is not found |
| `PoolManager.GenericObjectPool.constructor` | ZdoptServer/ObjectPool/object_pool_manager.go:36-44 | a new generic pool stores nothing |
| `PoolManager.GenericObjectPool.GetObj` | ZdoptServer/ObjectPool/object_pool_manager.go:47-55 | returns a stored value (the most recently put) or else the factory's, and calls `OnGet` on exactly the returned value; `init` and `callback` are ignored |
| `PoolManager.GenericObjectPool.ReleaseObj` | ZdoptServer/ObjectPool/object_pool_manager.go:57-65 | a non-`T` value is refused without calling `OnRelease`; a `T` gets `OnRelease` and is then stored |
| `PoolManager.ReleaseThenGet` | ZdoptServer/ObjectPool/object_pool_manager.go:47-65 | a value released into a generic pool is the next one handed out, with `OnRelease` run on the way in and `OnGet` on the way out |
| `Mailbox.MaskOf` | ZdoptServer/Actor/base.go:100-105 | the queue mask `(size-1) &^ 1` always has bit 0 cleared |
| `Mailbox.MessageQueue.constructor` | ZdoptServer/Actor/base.go:100-105 | both cursors are 0 and the mask is `MaskOf(size)` |
| `Mailbox.MessageQueue.Enqueue` | ZdoptServer/Actor/base.go:107-116 | it succeeds exactly when the masked next tail differs from the head; a refusal changes nothing; success stores at the masked tail, advances the tail by one and leaves the head alone |
| `Mailbox.MessageQueue.Dequeue` | ZdoptServer/Actor/base.go:118-127 | with `head == tail` it returns nothing and changes nothing; otherwise it returns the entry at the masked head and advances the head; the tail and the buffer never change |
| `Mailbox.NewQueueAcceptsNothing` | ZdoptServer/Actor/base.go:100-127 | on a new queue, every call of any sequence of enqueues and dequeues is refused (see Findings) |
| `Mailbox.RingQueue.Enqueue` | ZdoptServer/Actor/base.go:107-116 | the intended queue accepts a message exactly when fewer than `size` are queued, and then queues it last |
| `Mailbox.RingQueue.Dequeue` | ZdoptServer/Actor/base.go:118-127 | the intended queue hands out the oldest queued message, or nothing when empty |
| `Mailbox.FillRingQueue` | ZdoptServer/Actor/base.go:100-127 | the intended queue takes exactly `size` messages, refuses the next, and hands back the first one first |
| `Mailbox.FlushRule` | ZdoptServer/Actor/base.go:54-78 | after any events: the flushed batches, followed by the batch being collected, are exactly the messages received, in arrival order; the collected batch stays under 64, flushed batches hold at most 64, and only the one flushed on cancellation may be empty; the loop stops exactly when it sees the cancellation, and nothing received is then left unflushed; a turn that finds the mailbox empty leaves no message in the batch |
| `Mailbox.StepFlushing` | ZdoptServer/Actor/base.go:59-77 | one turn of the loop keeps the flush invariant and receives exactly the message of an arrival |
| `Mailbox.StoppedStaysStopped` | ZdoptServer/Actor/base.go:67-69 | once the loop has returned, later events change nothing |
| `Mailbox.ProcessMessages` | ZdoptServer/Actor/base.go:54-78 | the loop's batches, leftover batch and stop flag are those of the step function `Run`, about which `FlushRule` is proved |
| `Mailbox.BatchHandle` | ZdoptServer/Actor/base.go:81-93 | each message of the batch is handled by the handler registered under its kind, exactly when there is one, and skipped otherwise |
| `Balancing.Bump` | ZdoptServer/Actor/balancer.go:49 | the counter's `atomic.AddUint64` increment, which wraps to 0 past the 64-bit range |
| `Balancing.Target` | ZdoptServer/Actor/balancer.go:49 | the target worker is a valid worker number |
| `Balancing.RoundRobin` | ZdoptServer/Actor/balancer.go:49 | away from the counter's wrap-around, consecutive submissions go to consecutive workers, cyclically |
| `Balancing.Balancer.constructor` | ZdoptServer/Actor/balancer.go:24-40 | one worker per CPU, each with an empty inbox; the counter at 0 |
| `Balancing.Balancer.ExpandWorkers` | ZdoptServer/Actor/balancer.go:60-74 | exactly one worker with an empty inbox is appended, whatever the computed growth target; the counter and the other inboxes are unchanged |
| `Balancing.Balancer.Submit` | ZdoptServer/Actor/balancer.go:43-57 | a nil task changes nothing, not even the counter; otherwise the counter is bumped and the task goes last into the target's inbox when it has room (under 1024), or alone into the inbox of one new worker when it is full; no other inbox changes and the total grows by exactly one |
| `Balancing.Balancer.RunNext` | ZdoptServer/Actor/balancer.go:77-87 | a worker takes the oldest task of its inbox, if any |
| `Balancing.FifoPerWorker` | ZdoptServer/Actor/balancer.go:77-87 | a worker runs exactly the tasks it was given, in submission order |
| `Groups.Group.constructor` | ZdoptServer/Actor/group.go:18-24 | the given id and tick length, and no actors |
| `Groups.Group.AddActor` | ZdoptServer/Actor/group.go:27-31 | exactly one actor is appended, and the earlier ones keep their order |
| `Groups.Group.Tick` | ZdoptServer/Actor/group.go:37-43 | one tick issues `Update(deltaTime)` for each actor of the list, in list order, and does not change the list |
| `Groups.OneUpdatePerPlace` | ZdoptServer/Actor/group.go:37-43 | a tick gives each actor exactly as many updates as it has places in the group |
| `Systems.System.constructor` | ZdoptServer/Actor/system.go:18-25 | no groups, and a live context |
| `Systems.System.GetOrCreateGroup` | ZdoptServer/Actor/system.go:41-57 | an existing id yields its group and leaves the map unchanged; a new id gets a new empty group with that id and a 33 ms tick; no other entry changes |
| `Systems.GetOrCreateTwice` | ZdoptServer/Actor/system.go:41-57 | a second call with the same id returns the same group and adds nothing |
| `Systems.System.AddGroupActors` | ZdoptServer/Actor/system.go:28-38 | the target group grows by exactly the created actors, in creator order, each `Init`ed; other groups keep their actors |
| `Systems.System.Stop` | ZdoptServer/Actor/system.go:60-71 | the context is cancelled, every group is visited exactly once, and the actors stopped are the groups' members, in list order, group by group |
| `Systems.InConcat` | ZdoptServer/Actor/system.go:64-70 | an actor is in the stop list exactly when it is a member of a visited group |
| `Systems.StopReachesEveryActor` | ZdoptServer/Actor/system.go:60-71 | `Stop` reaches an actor exactly when some group has it |
| `KeyFrames.KeyFrame.OnGet` | ZdoptServer/Timer/KeyFrame.go:28-32 | only the trigger flag is cleared |
| `KeyFrames.KeyFrame.OnRelease` | ZdoptServer/Timer/KeyFrame.go:35-41 | the time becomes 0, the action nil and the trigger flag false |
| `KeyFrames.KeyFrame.Validate` | ZdoptServer/Timer/KeyFrame.go:44-52 | valid exactly when the time is positive and there is an action; a time that is not positive is reported first, then a missing action |
| `KeyFrames.KeyFrame.Set` | ZdoptServer/Timer/safe.go:10-24 | refuses a time that is not positive, then a missing action, changing nothing; otherwise stores both and clears the trigger flag |
| `KeyFrames.KeyFrame.IsTriggered` | ZdoptServer/Timer/safe.go:27-31 | returns the trigger flag and changes nothing |
| `KeyFrames.KeyFrame.Trigger` | ZdoptServer/Timer/safe.go:34-52 | does nothing when already triggered or without an action; otherwise schedules the action once and sets the flag |
| `KeyFrames.KeyFrame.Reset` | ZdoptServer/Timer/safe.go:55-59 | clears only the trigger flag |
| `KeyFrames.TriggerTwiceThenReset` | ZdoptServer/Timer/safe.go:34-59 | a second trigger schedules nothing; after a reset the action is scheduled again |
| `KeyFrames.KeyFrameRegistry.InitKeyFramePool` | ZdoptServer/Timer/KeyFrame.go:55-76 | the first call creates the registry and an empty keyframe pool registered under `keyframe_pool`; later calls change nothing |
| `KeyFrames.KeyFrameRegistry.GetKeyFrame` | ZdoptServer/Timer/KeyFrame.go:79-122 | a time that is not positive, then a missing action, is refused before any pool is touched; otherwise the returned keyframe (the most recently released, or a new one) has the given time and action, is not triggered and passes `Validate`; no other pooled keyframe changes |
| `KeyFrames.KeyFrameRegistry.ReleaseKeyFrame` | ZdoptServer/Timer/KeyFrame.go:125-153 | nil is refused; a keyframe with time 0 is refused as a double release and is not changed; otherwise it is put back into the pool with time 0, no action and the flag cleared |
| `KeyFrames.GetReleaseRelease` | ZdoptServer/Timer/KeyFrame.go:125-153 | a keyframe just obtained is released once, and the immediate second release is a double release |
| `Timers.MaxTime` | ZdoptServer/Timer/ztimer.go:107-112 | the running maximum from 0 is at least 0 and at least every time, and is 0 or one of the times |
| `Timers.ZTimer.MaxKeyFrameTime` | ZdoptServer/Timer/ztimer.go:107-112 | the maximum loop computes `MaxTime` of the keyframe times |
| `Timers.NewZTimer` | ZdoptServer/Timer/ztimer.go:36-53 | an offset that is not positive is refused; otherwise a timer that is not running, has no keyframes and stores the offset |
| `Timers.ZTimer.constructor` | ZdoptServer/Timer/ztimer.go:47-52 | a stopped timer with no keyframes, no actor, no stop request and the given offset |
| `Timers.ZTimer.AddKeyFrame` | ZdoptServer/Timer/ztimer.go:56-82 | refused while running, then for a time that is not positive, then for a missing action, with the list unchanged; otherwise exactly one keyframe, with the given time and action and not triggered, is appended; no other pooled keyframe changes |
| `Timers.ZTimer.StartTimer` | ZdoptServer/Timer/ztimer.go:165-176 | fails exactly when no actor is set |
| `Timers.ZTimer.Start` | ZdoptServer/Timer/ztimer.go:85-122 | refused when running, then without an actor, then without keyframes, changing nothing; otherwise the timer runs from 0 with `maxTimer` the largest keyframe time, and `StartTimer` cannot fail |
| `Timers.ZTimer.TriggerDue` | ZdoptServer/Timer/ztimer.go:156-161 | exactly the untriggered keyframes with an action whose time less the offset has been reached fire, each once; a keyframe ends triggered exactly when it was or has just fired; times and actions are unchanged |
| `Timers.ZTimer.ResetKeyFrames` | ZdoptServer/Timer/ztimer.go:218-226 | every keyframe ends untriggered with its time and action kept |
| `Timers.ZTimer.SafeStop` | ZdoptServer/Timer/ztimer.go:205-215 | afterwards a stop request is pending; nothing else changes |
| `Timers.ReleaseAll` | ZdoptServer/Timer/ztimer.go:234-238 | the release loop succeeds exactly when the keyframes are `Releasable` (none listed twice, none with time 0); every keyframe ends with time 0; on success the pool gains exactly the keyframes, in order |
| `Timers.ZTimer.ReleaseResources` | ZdoptServer/Timer/ztimer.go:229-246 | every keyframe is released and the list emptied; the result is an error exactly when the list was not releasable |
| `Timers.ZTimer.StopTimer` | ZdoptServer/Timer/ztimer.go:179-199 | a stopped timer is unchanged; a running one gets a stop request, loses its keyframes, and stops exactly when every release succeeded; every released keyframe ends with time 0, a releasable list is appended to the pool in order, and the pool gains nothing else; the actor and the clock are kept |
| `Timers.ZTimer.Update` | ZdoptServer/Timer/ztimer.go:126-162 | nothing happens when stopped or for a step that is not positive; a pending stop request is taken, the keyframes are released as by `StopTimer` (time 0, appended to the pool when releasable) and nothing fires, and the timer is stopped when every release succeeds; past the end a looping timer moves back by `maxTimer` and untriggers every keyframe, another timer requests a stop, and nothing fires; otherwise the clock advances and exactly the due keyframes fire; outside the stop branch the pool is untouched; the actor is kept |
| `Timers.ZTimer.IsRunning` | ZdoptServer/Timer/ztimer.go:251-255 | reports whether the timer runs |
| `Timers.ZTimer.CurrentProgress` | ZdoptServer/Timer/ztimer.go:257-264 | 0 when `maxTimer` is 0, otherwise the share of `maxTimer` that `currentTimer` is |
| `Timers.StartWithOneKeyFrame` | ZdoptServer/Timer/ztimer.go:56-122 | a stopped timer given one keyframe at 0.5 and started runs from 0 with `maxTimer` 0.5 |
| `Timers.StopThenRestart` | ZdoptServer/Timer/ztimer.go:179-199 | after a stop and a restart, a stop request is pending exactly when `StopTimer` was used and not the corrected stop |
| `Timers.RestartAfterStop` | ZdoptServer/Timer/ztimer.go:134-137 | a timer stopped with `StopTimer` and restarted is stopped by its first update, which fires nothing (see Findings) |
| `Timers.ZTimer.CorrectedStopTimer` | ZdoptServer/Timer/ztimer.go:179-199 | the intended stop: as `StopTimer`, including the released keyframes' time 0 and the pool's new contents, and a successful stop leaves no stop request behind |
| `Timers.RestartAfterCorrectedStop` | ZdoptServer/Timer/ztimer.go:126-162 | with the corrected stop, the restarted timer keeps running and its first update fires the due keyframe, and only it |

## Left out

- Logging (`Logs`), the monitor, the KCP network layer and the protobuf helpers: this is I/O outside the core.
- Goroutines, `select`, `WaitGroup`, `runtime.Gosched`, tickers, context propagation and atomic memory ordering: these are concurrency.
  - Every operation runs synchronously, one step at a time.
  - `batchHandle` runs its handlers in batch order.
  - `go safeStop()` in `Update` runs at once.
  - `Trigger` returns the action it would start in a goroutine.
- Mutexes are no-ops. Several Go paths lock a mutex again that they already hold, for example `StopTimer` calling `safeStop` and `releaseResources`, and would deadlock. The model states each call's sequential effect and does not model the deadlocks.
- `float32` times are reals. Rounding is not modelled, and `CurrentProgress` is real division.
- `getMessageType` uses reflection. A message carries an explicit kind key instead.
- `sync.Pool` may drop stored values, and its order is unspecified. `GenericObjectPool` keeps every value put back and hands out the most recently put one.
- `PoolManager.GenericObjectPool.GetObj`: the source returns whatever `sync.Pool.Get` gives. The contract fixes the last-in-first-out stand-in above, no more.
- `NewMessageQueue` allocates a zero-length buffer, so every store and load of a real queue would be out of range.
  - The model gives the buffer `size` entries.
  - `Mailbox.MessageQueue.Enqueue` and `Mailbox.MessageQueue.Dequeue` require the masked index to be in range, which the source does not check.
- `GetObjAdapter` of `ObjectPool` only converts the types of the callbacks and the factory. It is not modelled apart from `GetObj`.
- The source has signature mismatches that would not compile, and the model follows the evident behaviour:
  - `Pool.GetObj` and `GenericObjectPool.GetObj` differ in arity.
  - `NewGenericObjectPool` is called with a second argument, `100`, which the model does not use.
- Worker contexts, their cancellation and the `run` loop's exit are not modelled. Only a worker taking its next task is (`RunNext`).
- The `sync.Once`-style behaviour of `InitKeyFramePool` is modelled as "registers once". The registration error it cannot meet on a fresh registry is asserted away.
- `NewZTimer` can fail to create its logger. That is logging I/O and is not modelled.
- `overCallback`, `TimerId` and `MyActorBase` are not modelled beyond an actor identity.
- `AddGroupActors` receives the actors its creators would make, not the creator functions. `Init` is recorded as the list of actors initialised.
- The growth target `newSize` that `expandWorkers` computes is not used by the source. The model computes it and discards it.
- The `index` field of `Group` and the `actors` map of `System` are declared and never used by the core.
- `KeyFrames.KeyFrameRegistry.ReleaseKeyFrame`: the model requires the keyframe pool to be initialised before a keyframe whose time is not 0 is released. In the source the registry `ObjectPoolManager` stays nil until `InitKeyFramePool` runs (ZdoptServer/Timer/KeyFrame.go:14, ZdoptServer/Timer/KeyFrame.go:58). So such a release made before any `GetKeyFrame` passes nil to `GetPool`, which panics on locking the nil registry's mutex (ZdoptServer/ObjectPool/object_pool_manager.go:80) instead of returning an error. Every keyframe in the model comes from `GetKeyFrame`, which initialises the pool, so this panic is not modelled.
- `KeyFrames.KeyFrameRegistry.GetKeyFrame`: the source assigns `Time` and `Action` directly, then checks `Validate` a second time and releases the keyframe when that check fails. The two checks at its start make that branch unreachable, and the model proves so. The failing `*KeyFrame` type assertion is unreachable too, because the keyframe pool holds only keyframes, and it is not modelled.

## Findings

| source | as written | input that shows it | evidently intended | confidence | as-written member | corrected member |
|---|---|---|---|---|---|---|
| ZdoptServer/Actor/base.go:103 | the mask is `(size-1) & ^1`, which clears bit 0, so on a new queue the masked next tail `1 & mask` is 0, equal to `head`; since `Enqueue` compares the masked next tail with the unmasked head, the very first `Enqueue` is refused, and so is every later call | `NewMessageQueue(1024)` then `Enqueue(m)`: refused | a ring of `size` entries (mask `size-1` for a power of two) that is full when `size` messages are queued and empty when none is | not executed | `Mailbox.NewQueueAcceptsNothing` | `Mailbox.RingQueue.Enqueue` (with `Mailbox.FillRingQueue`) |
| ZdoptServer/ObjectPool/object_pool.go:47-50 | when the free list is empty, `GetObj` adds a slot through `AddObj`, which also appends it to the free list, and checks it out without removing it; the next `GetObj` pops that same in-use slot, whose refusal is ignored, and returns the zero value | a new pool, `GetObj` twice: the second returns the zero value | the new slot is taken off the free list, so that the free list names exactly the free slots and every checkout hands out a value | not executed | `ObjectPools.SecondGetOnNewPool` | `ObjectPools.ObjectPool.CorrectedGetObj` (with `ObjectPools.SecondCorrectedGetOnNewPool`) |
| ZdoptServer/Timer/ztimer.go:189 | `StopTimer` puts a stop request into the one-slot stop channel and nothing takes it out on a stop that succeeds; after the timer is started again, its first `Update` takes that stale request and stops the timer instead of firing the keyframe that is due | a running timer with one keyframe at 0.5 and offset 1.0: `StopTimer`, add that keyframe again, `Start`, `Update(0.25)`: the timer stops and nothing fires | a successful stop leaves no request for a later run of the timer | not executed; read with mutexes as no-ops, since in Go `StopTimer` and `Update` would first deadlock on re-locking `zt.mu` | `Timers.RestartAfterStop` | `Timers.ZTimer.CorrectedStopTimer` (with `Timers.RestartAfterCorrectedStop`) |
