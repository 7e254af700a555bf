/** Values shared by every component: optional values, the runtime's error
    values, the identities of things the model does not look inside, and
    two facts of integer division that the cursor arithmetic relies on. */
module Common {

  /** An optional value. `None` also stands for Go's `nil` and for the zero
      value `var zero T` that a failed lookup returns. */
  datatype Option<T> = None | Some(value: T)

  /** The error values the core returns. The names follow Error/error.go and
      the package-level `Err…` variables beside the code that returns them;
      errors built on the spot with `errors.New` get a name of their own. */
  datatype Error =
    | PoolAlreadyRegistered          // pool name already taken
    | PoolNotFound                   // no pool under that name
    | ObjectNotFound                 // ObjectPool.ReleaseObj found no slot in use
    | InvalidObjectType              // ObjectPool.ReleaseObjAdapter: value is not a T
    | ObjectIsNotT                   // GenericObjectPool.ReleaseObj: value is not a T
    | TimerAlreadyRunning
    | NoKeyFrames
    | InvalidTimerParameters
    | ActorNotSet
    | ActorBaseNotInitialized        // ZTimer.StartTimer without an actor
    | InvalidKeyFrameTime
    | NilKeyFrameAction
    | KeyFrameDoubleRelease
    | NilKeyFrame                    // ReleaseKeyFrame(nil)
    | NonPositiveSetTime             // KeyFrame.Set with time <= 0
    | ResourceCleanup                // ZTimer.releaseResources collected errors

  /** A value of the `ObjectBase` interface as seen by a pool of `T`: either
      a `T`, or a value of some other dynamic type, which a type assertion
      `obj.(T)` rejects. */
  datatype Base<T> = OfT(value: T) | Foreign

  /** An actor value (the `Actor` interface, or a `*BaseActor`); the model
      only needs its identity. */
  datatype ActorRef = ActorRef(id: nat)

  /** The remainder is the unique `r` in `[0, n)` with `x == q * n + r`. */
  lemma DivModUnique(x: int, n: int, q: int, r: int)
    requires n > 0 && 0 <= r < n && x == q * n + r
    ensures x % n == r
  {
    var q', r' := x / n, x % n;
    assert x == q' * n + r';
    assert (q - q') * n == r' - r;
    if q > q' {
      MulAtLeast(q - q', n);
    } else if q < q' {
      MulAtLeast(q' - q, n);
    }
  }

  /** A positive multiple of a positive `n` is at least `n`. */
  lemma {:induction false} MulAtLeast(k: int, n: int)
    requires k >= 1 && n > 0
    ensures k * n >= n
    decreases k
  {
    if k > 1 {
      MulAtLeast(k - 1, n);
      assert k * n == (k - 1) * n + n;
    }
  }

  /** No element of the list occurs twice. */
  ghost predicate Distinct<T>(s: seq<T>) {
    forall i, j :: 0 <= i < j < |s| ==> s[i] != s[j]
  }

  /** A list stays free of repetitions when an element it lacks is
      appended, and only then. */
  lemma DistinctSnoc<T>(s: seq<T>, x: T)
    ensures Distinct(s + [x]) <==> Distinct(s) && x !in s
  {
    var t := s + [x];
    assert forall i :: 0 <= i < |s| ==> t[i] == s[i];
    if x in s {
      var i :| 0 <= i < |s| && s[i] == x;
      assert t[i] == t[|s|];
    }
  }
}
