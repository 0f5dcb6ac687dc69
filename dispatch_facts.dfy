/** The registry invariant survives any callbacks and the whole walk of
    `dispatchEvent`; a `once` node is unlinked before its callback runs. */
module DispatchFacts {
  import opened Values
  import opened Chains
  import opened Registry
  import opened UnlinkFacts
  import opened RegistryFacts
  import opened Dispatch

  // ---------------------------------------------------------------------
  // The invariant across callbacks and the walk

  /** A callback keeps the invariant whatever its script does. */
  lemma {:induction false} RunScriptValid(t: Target, e: Event, script: seq<Effect>)
    requires Valid(t)
    ensures Valid(RunScript(t, e, script).0)
    ensures Evolves(t, RunScript(t, e, script).0)
    decreases |script|, 0
  {
    if script == [] {
      EvolvesReflexive(t);
    } else {
      var rest := script[1..];
      match script[0]
      case CallPreventDefault =>
        RunScriptValid(t, PreventDefault(e), rest);
      case CallStopImmediatePropagation =>
        RunScriptValid(t, StopImmediatePropagation(e), rest);
      case CallAddEventListener(ty, l, o) =>
        var (t1, status) := AddEventListener(t, ty, l, o);
        if status.Threw? {
          EvolvesReflexive(t);
        } else {
          AddCompletedValid(t, ty, l, o);
          RunScriptAfter(t, t1, e, rest);

        }
      case CallRemoveEventListener(ty, l, o) =>
        var (t1, status) := RemoveEventListener(t, ty, l, o);
        if status.Threw? {
          EvolvesReflexive(t);
        } else {
          RemoveCompletedValid(t, ty, l, o);
          RunScriptAfter(t, t1, e, rest);

        }
      case CallRemoveAllEventListeners(ty) =>
        RemoveAllValid(t, ty);
        RunScriptAfter(t, RemoveAllEventListeners(t, ty), e, rest);
      case Throw =>
        EvolvesReflexive(t);
    }
  }

  /** An `addEventListener` call that does not throw keeps the invariant. */
  lemma AddCompletedValid(t: Target, eventType: EventType, listener: Option<ListenerValue>, options: Option<ListenerOptions>)
    requires Valid(t) && AddEventListener(t, eventType, listener, options).1 == Completed
    ensures Valid(AddEventListener(t, eventType, listener, options).0)
    ensures Evolves(t, AddEventListener(t, eventType, listener, options).0)
  {
    var t1 := AddEventListener(t, eventType, listener, options).0;
    if ShouldAddListener(listener.value) == Ok(true) {
      AddEventListenerValid(t, eventType, listener.value, options, t1);
    } else {
      EvolvesReflexive(t);
    }
  }

  /** A `removeEventListener` call that does not throw keeps the invariant. */
  lemma RemoveCompletedValid(t: Target, eventType: EventType, listener: ListenerValue, options: Option<ListenerOptions>)
    requires Valid(t) && RemoveEventListener(t, eventType, listener, options).1 == Completed
    ensures Valid(RemoveEventListener(t, eventType, listener, options).0)
    ensures Evolves(t, RemoveEventListener(t, eventType, listener, options).0)
  {
    var t1 := RemoveEventListener(t, eventType, listener, options).0;
    if ShouldAddListener(listener) == Ok(true) {
      RemoveEventListenerValid(t, eventType, listener, options, t1);
    } else {
      EvolvesReflexive(t);
    }
  }

  /** The rest of a script, run after a step from `t` to `t1` that kept the
      invariant. */
  lemma {:induction false} RunScriptAfter(t: Target, t1: Target, e: Event, rest: seq<Effect>)
    requires Valid(t) && Valid(t1) && Evolves(t, t1)
    ensures Valid(RunScript(t1, e, rest).0)
    ensures Evolves(t, RunScript(t1, e, rest).0)
    decreases |rest|, 1
  {
    RunScriptValid(t1, e, rest);
    EvolvesTransitive(t, t1, RunScript(t1, e, rest).0);
  }

  /** A node that is not unlinked and belongs to chain `r` sits at some
      position of that chain; unlinking it there keeps the invariant. */
  lemma UnlinkLiveValid(t: Target, r: nat, h: nat)
    requires Valid(t) && r < |t.roots| && h < |t.nodes|
    requires !t.nodes[h].removed && Owner(t.nodes, h) == r
    ensures Valid(Unlink(t, h, r)) && Evolves(t, Unlink(t, h, r))
    ensures Unlink(t, h, r).nodes[h].removed
  {
    assert h in RootChain(t, r);
    var k :| 0 <= k < |RootChain(t, r)| && RootChain(t, r)[k] == h;
    UnlinkValid(t, r, k);
  }

  /** Following `next` from a node of chain `r` stays in chain `r`, also
      in any later state. */
  lemma NextOwned(t: Target, t': Target, h: nat)
    requires Valid(t) && Indexed(t') && Evolves(t, t') && h < |t.nodes|
    ensures t.nodes[h].next.Some? ==> Owner(t'.nodes, t.nodes[h].next.value) == Owner(t.nodes, h)
  {
    if t.nodes[h].next.Some? {
      assert Owner(t.nodes, t.nodes[h].next.value) == Owner(t.nodes, h);
    }
  }

  /** Visiting a live node of chain `r` keeps the invariant, and the cached
      `next` is still a node of chain `r` afterwards. */
  lemma VisitValid(t: Target, e: Event, r: nat, h: nat, behaviour: Behaviour)
    requires Valid(t) && r < |t.roots| && h < |t.nodes|
    requires !t.nodes[h].removed && Owner(t.nodes, h) == r
    ensures Valid(Visit(t, e, r, h, behaviour).0) && Evolves(t, Visit(t, e, r, h, behaviour).0)
    ensures t.nodes[h].next.Some? ==> Owner(Visit(t, e, r, h, behaviour).0.nodes, t.nodes[h].next.value) == r
    ensures t.nodes[h].once ==> Visit(t, e, r, h, behaviour).0.nodes[h].removed
  {
    var t1 := if t.nodes[h].once then Unlink(t, h, r) else t;
    if t.nodes[h].once {
      UnlinkLiveValid(t, r, h);
    } else {
      EvolvesReflexive(t);
    }
    RunScriptValid(t1, e, behaviour(t.nodes[h].listener));
    EvolvesTransitive(t, t1, Visit(t, e, r, h, behaviour).0);
    NextOwned(t, Visit(t, e, r, h, behaviour).0, h);
  }

  /** The walk keeps the invariant, whatever the callbacks do, as long as it
      starts from a node of chain `r`. */
  lemma {:induction false} DeliverValid(t: Target, e: Event, r: nat, handler: Option<nat>, behaviour: Behaviour, fuel: nat, w: Walked)
    requires Valid(t) && r < |t.roots|
    requires handler.Some? ==> handler.value < |t.nodes| && Owner(t.nodes, handler.value) == r
    requires Deliver(t, e, r, handler, behaviour, fuel) == Some(w)
    ensures Valid(w.t) && Evolves(t, w.t)
    decreases fuel, 2
  {
    if !Continues(t, e, handler) {
      EvolvesReflexive(t);
    } else if t.nodes[handler.value].removed {
      DeliverSkipValid(t, e, r, handler.value, behaviour, fuel, w);
    } else {
      DeliverVisitValid(t, e, r, handler.value, behaviour, fuel, w);
    }
  }

  lemma {:induction false} DeliverSkipValid(t: Target, e: Event, r: nat, h: nat, behaviour: Behaviour, fuel: nat, w: Walked)
    requires Valid(t) && r < |t.roots| && h < |t.nodes| && Owner(t.nodes, h) == r
    requires Continues(t, e, Some(h)) && t.nodes[h].removed
    requires Deliver(t, e, r, Some(h), behaviour, fuel) == Some(w)
    ensures Valid(w.t) && Evolves(t, w.t)
    decreases fuel, 0
  {
    EvolvesReflexive(t);
    NextOwned(t, t, h);
    DeliverValid(t, e, r, t.nodes[h].next, behaviour, fuel - 1, w);
  }

  /** Unfolds one visiting step of the walk: what follows the callback is
      the walk from the cached `next` in the state the callback left. */
  lemma DeliverVisitStep(t: Target, e: Event, r: nat, h: nat, behaviour: Behaviour, fuel: nat, w: Walked)
    requires Indexed(t) && r < |t.roots| && h < |t.nodes|
    requires Continues(t, e, Some(h)) && !t.nodes[h].removed
    requires Deliver(t, e, r, Some(h), behaviour, fuel) == Some(w)
    ensures fuel > 0 && (t.nodes[h].next.Some? ==> t.nodes[h].next.value < |Visit(t, e, r, h, behaviour).0.nodes|)
    ensures Deliver(Visit(t, e, r, h, behaviour).0, Visit(t, e, r, h, behaviour).1, r, t.nodes[h].next, behaviour, fuel - 1)
            == Some(w.(fired := w.fired[1..]))
    ensures w.fired != [] && w.fired[0] == h
  {
  }

  /** The converse unfolding: a visiting step continues with the walk from
      the cached `next` in the state the callback left. */
  lemma DeliverVisitUnfold(t: Target, e: Event, r: nat, h: nat, behaviour: Behaviour, fuel: nat)
    requires Indexed(t) && r < |t.roots| && h < |t.nodes| && fuel > 0
    requires Continues(t, e, Some(h)) && !t.nodes[h].removed
    ensures t.nodes[h].next.Some? ==> t.nodes[h].next.value < |Visit(t, e, r, h, behaviour).0.nodes|
    ensures Deliver(t, e, r, Some(h), behaviour, fuel)
      == match Deliver(Visit(t, e, r, h, behaviour).0, Visit(t, e, r, h, behaviour).1, r, t.nodes[h].next, behaviour, fuel - 1)
         case None => None
         case Some(rest) => Some(rest.(fired := [h] + rest.fired))
  {
  }

  lemma {:induction false} DeliverVisitValid(t: Target, e: Event, r: nat, h: nat, behaviour: Behaviour, fuel: nat, w: Walked)
    requires Valid(t) && r < |t.roots| && h < |t.nodes| && Owner(t.nodes, h) == r
    requires Continues(t, e, Some(h)) && !t.nodes[h].removed
    requires Deliver(t, e, r, Some(h), behaviour, fuel) == Some(w)
    ensures Valid(w.t) && Evolves(t, w.t)
    decreases fuel, 1
  {
    DeliverVisitStep(t, e, r, h, behaviour, fuel, w);
    VisitValid(t, e, r, h, behaviour);
    DeliverAfterVisit(t, Visit(t, e, r, h, behaviour), r, t.nodes[h].next, behaviour, fuel, w.(fired := w.fired[1..]));
  }

  /** The rest of the walk, after a visit from `t` to `s.0` that kept the
      invariant. */
  lemma {:induction false} DeliverAfterVisit(t: Target, s: (Target, Event), r: nat, next: Option<nat>, behaviour: Behaviour, fuel: nat, w: Walked)
    requires Valid(t) && Valid(s.0) && Evolves(t, s.0) && r < |s.0.roots| && fuel > 0
    requires next.Some? ==> next.value < |s.0.nodes| && Owner(s.0.nodes, next.value) == r
    requires Deliver(s.0, s.1, r, next, behaviour, fuel - 1) == Some(w)
    ensures Valid(w.t) && Evolves(t, w.t)
    decreases fuel, 0
  {
    DeliverValid(s.0, s.1, r, next, behaviour, fuel - 1, w);
    EvolvesTransitive(t, s.0, w.t);
  }
}
