/** The actor system: actor groups by id, created on first use, and the
    shutdown that stops every actor. */
module Systems {
  import opened Common
  import opened Groups

  /** The tick length of every group the system creates: 33 ms, in
      nanoseconds. */
  const FrameDelta: int := 33_000_000

  /** The actor lists laid end to end, in the order of `order`. */
  function Concat(order: seq<int>, members: map<int, seq<ActorRef>>): seq<ActorRef>
    requires forall i :: 0 <= i < |order| ==> order[i] in members
    decreases |order|
  {
    if order == [] then []
    else Concat(order[..|order| - 1], members) + members[order[|order| - 1]]
  }

  /** An actor is in the concatenation exactly when it is a member of one
      of the listed groups. */
  lemma {:induction false} InConcat(order: seq<int>, members: map<int, seq<ActorRef>>, a: ActorRef)
    requires forall i :: 0 <= i < |order| ==> order[i] in members
    ensures a in Concat(order, members) <==> exists k :: k in order && a in members[k]
    decreases |order|
  {
    if order != [] {
      var n := |order| - 1;
      InConcat(order[..n], members, a);
      if a in members[order[n]] {
        assert order[n] in order;
      }
      if exists k :: k in order && a in members[k] {
        var k :| k in order && a in members[k];
        if k != order[n] {
          assert k in order[..n];
        }
      }
    }
  }

  /** A non-empty set of ids has an element. */
  lemma HasElement(ids: set<int>)
    requires |ids| > 0
    ensures exists k :: k in ids
  {
    if forall k :: k !in ids {
      assert false;
    }
  }

  /** `System`. The `actors` sync.Map is never used by the core and is not
      modelled; the context is an identity, and `cancelled` records that
      `cancel` was called. */
  class System {
    var groups: map<int, Group>
    const ctx: nat
    var cancelled: bool

    /** Each group sits under its own id and ticks every 33 ms. Distinct ids
        therefore name distinct groups. */
    ghost predicate Valid()
      reads this
    {
      forall k :: k in groups ==> groups[k].id == k && groups[k].deltaTime == FrameDelta
    }

    /** The actors of every group, by group id. */
    ghost function Members(): map<int, seq<ActorRef>>
      reads this, groups.Values
    {
      map k | k in groups :: groups[k].actors
    }

    /** `NewSystem`: no groups, and a live context. */
    constructor (ctx: nat)
      ensures Valid() && groups == map[] && this.ctx == ctx && !cancelled
    {
      groups := map[];
      this.ctx := ctx;
      cancelled := false;
    }

    /** `getOrCreateGroup`: an existing id yields its group and the map is
        left as it is; a new id gets a new, empty group with that id and a
        33 ms tick, and no other entry changes. */
    method GetOrCreateGroup(id: int) returns (g: Group)
      requires Valid()
      modifies this
      ensures Valid() && cancelled == old(cancelled)
      ensures id in groups && g == groups[id]
      ensures id in old(groups) ==> g == old(groups)[id] && groups == old(groups)
      ensures id !in old(groups) ==>
        && fresh(g) && g.actors == [] && g.id == id && g.deltaTime == FrameDelta
        && groups == old(groups)[id := g]
    {
      if id in groups {
        return groups[id];
      }
      g := new Group(id, FrameDelta);
      groups := groups[id := g];
    }

    /** `AddGroupActors`: each creator's actor is made, `Init`ed with the
        system's context and appended to the group of `groupID` (created if
        need be), in creator order. `inits` lists the actors `Init`ed.
        Groups with other ids keep their actors. */
    method AddGroupActors(groupID: int, creators: seq<ActorRef>) returns (inits: seq<ActorRef>)
      requires Valid()
      modifies this, groups.Values
      ensures Valid() && cancelled == old(cancelled)
      ensures groups.Keys == old(groups).Keys + {groupID}
      ensures groupID in old(groups) ==> groups[groupID] == old(groups)[groupID]
      ensures groups[groupID].actors ==
        (if groupID in old(groups) then old(groups[groupID].actors) else []) + creators
      ensures inits == creators
      ensures forall k :: k in old(groups) && k != groupID ==>
        groups[k] == old(groups)[k] && groups[k].actors == old(groups[k].actors)
    {
      var g := GetOrCreateGroup(groupID);
      ghost var start := g.actors;
      assert start == (if groupID in old(groups) then old(groups[groupID].actors) else []);
      inits := [];
      for i := 0 to |creators|
        invariant groups == old(groups)[groupID := g] && g.id == groupID && cancelled == old(cancelled)
        invariant g.actors == start + creators[..i]
        invariant inits == creators[..i]
        invariant forall k :: k in old(groups) && k != groupID ==> groups[k].actors == old(groups[k].actors)
      {
        var actor := creators[i];
        inits := inits + [actor];
        g.AddActor(actor);
      }
      assert creators[..|creators|] == creators;
    }

    /** `Stop`: cancels the context, then visits every group once, in some
        order (Go's map order is unspecified), and stops each of its actors
        in list order. `order` is the order the groups were visited in and
        `stops` the actors stopped. Nothing else changes. */
    method Stop() returns (order: seq<int>, stops: seq<ActorRef>)
      requires Valid()
      modifies this
      ensures Valid() && cancelled && groups == old(groups)
      ensures Distinct(order)
      ensures forall k :: k in order <==> k in groups
      ensures forall i :: 0 <= i < |order| ==> order[i] in groups
      ensures stops == Concat(order, Members())
    {
      cancelled := true;
      var remaining := groups.Keys;
      order, stops := [], [];
      while |remaining| > 0
        invariant remaining <= groups.Keys && groups == old(groups) && cancelled
        invariant forall k :: k in order <==> k in groups && k !in remaining
        invariant Distinct(order)
        invariant forall i :: 0 <= i < |order| ==> order[i] in groups
        invariant stops == Concat(order, Members())
        decreases remaining
      {
        HasElement(remaining);
        var k: int :| k in remaining;
        var g := groups[k];
        var j := 0;
        while j < |g.actors|
          invariant 0 <= j <= |g.actors|
          invariant stops == Concat(order, Members()) + g.actors[..j]
        {
          stops := stops + [g.actors[j]];
          j := j + 1;
        }
        assert g.actors[..j] == Members()[k];
        assert (order + [k])[..|order|] == order;
        order := order + [k];
        remaining := remaining - {k};
      }
    }
  }

  /** Stopping the system stops every actor of every group: an actor is in
      the stop list exactly when some group had it as a member. */
  method StopReachesEveryActor(s: System, a: ActorRef) returns (stopped: bool)
    requires s.Valid()
    modifies s
    ensures stopped <==> exists k :: k in s.groups && a in s.groups[k].actors
  {
    var order, stops := s.Stop();
    InConcat(order, s.Members(), a);
    stopped := a in stops;
  }

  /** `getOrCreateGroup` twice with the same id yields the same group, and
      the second call adds nothing. */
  method GetOrCreateTwice(s: System, id: int) returns (first: Group, second: Group)
    requires s.Valid()
    modifies s
    ensures first == second
    ensures s.groups.Keys == old(s.groups).Keys + {id}
  {
    first := s.GetOrCreateGroup(id);
    second := s.GetOrCreateGroup(id);
  }
}
