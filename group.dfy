/** An actor group: a list of actors updated together, once per tick. */
module Groups {
  import opened Common

  /** A call `actor.Update(delta)`; `delta` is in nanoseconds. */
  datatype Update = Update(actor: ActorRef, delta: int)

  /** `Group`. The mutex is not modelled; `index` is kept because the
      source declares it, but no operation reads or writes it. */
  class Group {
    const id: int
    const deltaTime: int
    var actors: seq<ActorRef>
    var index: nat

    /** `NewGroup`: the given id and tick length, and no actors. */
    constructor (id: int, delta: int)
      ensures this.id == id && deltaTime == delta
      ensures actors == [] && index == 0
    {
      this.id := id;
      deltaTime := delta;
      actors := [];
      index := 0;
    }

    /** `AddActor`: appends the actor; the earlier ones keep their places. */
    method AddActor(actor: ActorRef)
      modifies this
      ensures actors == old(actors) + [actor]
      ensures |actors| == |old(actors)| + 1 && actors[..|old(actors)|] == old(actors)
      ensures index == old(index)
    {
      actors := actors + [actor];
    }

    /** One tick of `StartUpdate`: every actor of the current list, in list
        order, gets `Update(deltaTime)` exactly once; the list is not
        changed. */
    method Tick() returns (updates: seq<Update>)
      ensures |updates| == |actors|
      ensures forall i :: 0 <= i < |actors| ==> updates[i] == Update(actors[i], deltaTime)
    {
      updates := [];
      for i := 0 to |actors|
        invariant |updates| == i
        invariant forall j :: 0 <= j < i ==> updates[j] == Update(actors[j], deltaTime)
      {
        updates := updates + [Update(actors[i], deltaTime)];
      }
    }
  }

  /** The number of times actor `a` occurs in `xs`. */
  function Occurrences(xs: seq<ActorRef>, a: ActorRef): nat
    decreases |xs|
  {
    if xs == [] then 0 else Occurrences(xs[..|xs| - 1], a) + (if xs[|xs| - 1] == a then 1 else 0)
  }

  /** The number of updates addressed to `a` in `us`. */
  function UpdatesFor(us: seq<Update>, a: ActorRef): nat
    decreases |us|
  {
    if us == [] then 0 else UpdatesFor(us[..|us| - 1], a) + (if us[|us| - 1].actor == a then 1 else 0)
  }

  /** A tick gives each actor as many updates as it has places in the
      group: one for an actor added once, none for one never added. */
  lemma {:induction false} OneUpdatePerPlace(actors: seq<ActorRef>, updates: seq<Update>, delta: int, a: ActorRef)
    requires |updates| == |actors|
    requires forall i :: 0 <= i < |actors| ==> updates[i] == Update(actors[i], delta)
    ensures UpdatesFor(updates, a) == Occurrences(actors, a)
    decreases |actors|
  {
    if actors != [] {
      var n := |actors| - 1;
      OneUpdatePerPlace(actors[..n], updates[..n], delta, a);
    }
  }
}
