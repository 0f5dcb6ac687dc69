/** What every walk of `dispatchEvent` guarantees, whatever the callbacks do:
    each callback runs at most once, in arena order; a node unlinked before
    the walk reaches it is skipped; once the event is stopped only passive
    nodes run; and a `once` registration that ran is unlinked afterwards. */
module DispatchOrder {
  import opened Values
  import opened Chains
  import opened Registry
  import opened Dispatch
  import opened DispatchFacts

  /** The nodes of `fired` are at or after `from`, in strictly increasing
      order, and in the arena. */
  ghost predicate OrderedFrom(fired: seq<nat>, from: Option<nat>, size: nat) {
    && (forall k | 0 <= k < |fired| :: from.Some? && from.value <= fired[k] < size)
    && Increasing(fired)
  }

  lemma OrderedCons(fired: seq<nat>, h: nat, next: Option<nat>, size: nat)
    requires fired != [] && fired[0] == h && h < size
    requires next.Some? ==> h < next.value
    requires OrderedFrom(fired[1..], next, size)
    ensures OrderedFrom(fired, Some(h), size)
  {
    assert forall k | 1 <= k < |fired| :: fired[k] == fired[1..][k - 1];
  }

  /** The walk delivers to nodes at or after its start, in strictly
      increasing arena order: new nodes are only linked after the tail, so
      no node is reached twice in one dispatch. */
  lemma {:induction false} FiredIncreasing(t: Target, e: Event, r: nat, handler: Option<nat>, behaviour: Behaviour, fuel: nat, w: Walked)
    requires Indexed(t) && r < |t.roots| && (handler.Some? ==> handler.value < |t.nodes|)
    requires Deliver(t, e, r, handler, behaviour, fuel) == Some(w)
    ensures OrderedFrom(w.fired, handler, |w.t.nodes|)
    decreases fuel
  {
    if Continues(t, e, handler) {
      var h := handler.value;
      var next := t.nodes[h].next;
      if t.nodes[h].removed {
        FiredIncreasing(t, e, r, next, behaviour, fuel - 1, w);
      } else {
        DeliverVisitStep(t, e, r, h, behaviour, fuel, w);
        var s := Visit(t, e, r, h, behaviour);
        FiredIncreasing(s.0, s.1, r, next, behaviour, fuel - 1, w.(fired := w.fired[1..]));
        OrderedCons(w.fired, h, next, |w.t.nodes|);
      }
    }
  }

  /** Every `once` node of `fired` is unlinked in `w.t`. */
  ghost predicate OnceUnlinked(w: Walked) {
    forall k | 0 <= k < |w.fired| :: w.fired[k] < |w.t.nodes| && (w.t.nodes[w.fired[k]].once ==> w.t.nodes[w.fired[k]].removed)
  }

  lemma OnceUnlinkedCons(w: Walked, h: nat)
    requires w.fired != [] && w.fired[0] == h
    requires h < |w.t.nodes| && (w.t.nodes[h].once ==> w.t.nodes[h].removed)
    requires OnceUnlinked(w.(fired := w.fired[1..]))
    ensures OnceUnlinked(w)
  {
    assert forall k | 1 <= k < |w.fired| :: w.fired[k] == w.fired[1..][k - 1];
  }

  /** Every `once` node the walk delivered to is unlinked when the walk ends,
      including when its callback threw. */
  lemma {:induction false} FiredOnceUnlinked(t: Target, e: Event, r: nat, handler: Option<nat>, behaviour: Behaviour, fuel: nat, w: Walked)
    requires Valid(t) && r < |t.roots|
    requires handler.Some? ==> handler.value < |t.nodes| && Owner(t.nodes, handler.value) == r
    requires Deliver(t, e, r, handler, behaviour, fuel) == Some(w)
    ensures OnceUnlinked(w)
    decreases fuel, 2
  {
    if Continues(t, e, handler) {
      var h := handler.value;
      if t.nodes[h].removed {
        EvolvesReflexive(t);
        NextOwned(t, t, h);
        FiredOnceUnlinked(t, e, r, t.nodes[h].next, behaviour, fuel - 1, w);
      } else {
        FiredOnceVisit(t, e, r, h, behaviour, fuel, w);
      }
    }
  }

  lemma {:induction false} FiredOnceVisit(t: Target, e: Event, r: nat, h: nat, behaviour: Behaviour, fuel: nat, w: Walked)
    requires Valid(t) && r < |t.roots| && h < |t.nodes| && Owner(t.nodes, h) == r
    requires Continues(t, e, Some(h)) && !t.nodes[h].removed
    requires Deliver(t, e, r, Some(h), behaviour, fuel) == Some(w)
    ensures OnceUnlinked(w)
    decreases fuel, 1
  {
    DeliverVisitStep(t, e, r, h, behaviour, fuel, w);
    VisitValid(t, e, r, h, behaviour);
    assert RegistrationOf(Visit(t, e, r, h, behaviour).0.nodes[h]) == RegistrationOf(t.nodes[h]);
    FiredOnceAfterVisit(Visit(t, e, r, h, behaviour), r, h, t.nodes[h].next, behaviour, fuel, w.(fired := w.fired[1..]));
    OnceUnlinkedCons(w, h);
  }

  /** The rest of the walk after visiting `h`, which left `s`. */
  lemma {:induction false} FiredOnceAfterVisit(s: (Target, Event), r: nat, h: nat, next: Option<nat>, behaviour: Behaviour, fuel: nat, w: Walked)
    requires Valid(s.0) && r < |s.0.roots| && h < |s.0.nodes| && fuel > 0
    requires s.0.nodes[h].once ==> s.0.nodes[h].removed
    requires next.Some? ==> next.value < |s.0.nodes| && Owner(s.0.nodes, next.value) == r
    requires Deliver(s.0, s.1, r, next, behaviour, fuel - 1) == Some(w)
    ensures h < |w.t.nodes| && (w.t.nodes[h].once ==> w.t.nodes[h].removed)
    ensures OnceUnlinked(w)
    decreases fuel, 0
  {
    assert OnceUnlinked(w) by {
      FiredOnceUnlinked(s.0, s.1, r, next, behaviour, fuel - 1, w);
    }
    assert h < |w.t.nodes| && (w.t.nodes[h].once ==> w.t.nodes[h].removed) by {
      DeliverValid(s.0, s.1, r, next, behaviour, fuel - 1, w);
      EvolvesOnceRemoved(s.0, w.t, h);
    }
  }

  /** A `once` node that is unlinked stays so as the state evolves. */
  lemma EvolvesOnceRemoved(t: Target, t': Target, h: nat)
    requires Indexed(t) && Indexed(t') && Evolves(t, t')
    requires h < |t.nodes| && (t.nodes[h].once ==> t.nodes[h].removed)
    ensures h < |t'.nodes| && (t'.nodes[h].once ==> t'.nodes[h].removed)
  {
    assert RegistrationOf(t'.nodes[h]) == RegistrationOf(t.nodes[h]);
  }

  // ---------------------------------------------------------------------
  // Skipping unlinked nodes

  /** A node already unlinked where the walk starts never runs. Since every
      suffix of the walk is itself a walk from the state the previous
      callback left, this holds at every step (see `UnlinkedByCallbackSkipped`). */
  lemma {:induction false} FiredSkipsRemoved(t: Target, e: Event, r: nat, handler: Option<nat>, behaviour: Behaviour, fuel: nat, w: Walked)
    requires Valid(t) && r < |t.roots|
    requires handler.Some? ==> handler.value < |t.nodes| && Owner(t.nodes, handler.value) == r
    requires Deliver(t, e, r, handler, behaviour, fuel) == Some(w)
    ensures forall k | 0 <= k < |w.fired| :: w.fired[k] < |t.nodes| ==> !t.nodes[w.fired[k]].removed
    decreases fuel, 3
  {
    if Continues(t, e, handler) {
      var h := handler.value;
      if t.nodes[h].removed {
        EvolvesReflexive(t);
        NextOwned(t, t, h);
        FiredSkipsRemoved(t, e, r, t.nodes[h].next, behaviour, fuel - 1, w);
      } else {
        SkipsRemovedVisit(t, e, r, h, behaviour, fuel, w);
      }
    }
  }

  /** The walk from a live node: that node runs, and no node unlinked in
      `t` runs after it, because unlinking is never undone. */
  lemma {:induction false} SkipsRemovedVisit(t: Target, e: Event, r: nat, h: nat, behaviour: Behaviour, fuel: nat, w: Walked)
    requires Valid(t) && r < |t.roots| && h < |t.nodes| && Owner(t.nodes, h) == r
    requires Continues(t, e, Some(h)) && !t.nodes[h].removed
    requires Deliver(t, e, r, Some(h), behaviour, fuel) == Some(w)
    ensures forall k | 0 <= k < |w.fired| :: w.fired[k] < |t.nodes| ==> !t.nodes[w.fired[k]].removed
    decreases fuel, 2
  {
    UnlinkedByCallbackSkipped(t, e, r, h, behaviour, fuel, w);
    VisitValid(t, e, r, h, behaviour);
    var s := Visit(t, e, r, h, behaviour).0;
    forall k | 1 <= k < |w.fired| && w.fired[k] < |t.nodes|
      ensures !t.nodes[w.fired[k]].removed
    {
      assert w.fired[k] < |s.nodes| && !s.nodes[w.fired[k]].removed;
    }
  }

  /** Once node `h` has run, a node its callback unlinked is skipped by the
      rest of the walk, even though the walk had already cached a link to
      it. */
  lemma {:induction false} UnlinkedByCallbackSkipped(t: Target, e: Event, r: nat, h: nat, behaviour: Behaviour, fuel: nat, w: Walked)
    requires Valid(t) && r < |t.roots| && h < |t.nodes| && Owner(t.nodes, h) == r
    requires Continues(t, e, Some(h)) && !t.nodes[h].removed
    requires Deliver(t, e, r, Some(h), behaviour, fuel) == Some(w)
    ensures w.fired != [] && w.fired[0] == h
    ensures var s := Visit(t, e, r, h, behaviour).0;
      forall k | 1 <= k < |w.fired| :: w.fired[k] < |s.nodes| ==> !s.nodes[w.fired[k]].removed
    decreases fuel, 1
  {
    DeliverVisitStep(t, e, r, h, behaviour, fuel, w);
    VisitValid(t, e, r, h, behaviour);
    SkipsAfterVisit(Visit(t, e, r, h, behaviour), r, t.nodes[h].next, behaviour, fuel, w);
  }

  /** The rest of the walk after a visit that left `s`. */
  lemma {:induction false} SkipsAfterVisit(s: (Target, Event), r: nat, next: Option<nat>, behaviour: Behaviour, fuel: nat, w: Walked)
    requires Valid(s.0) && r < |s.0.roots| && fuel > 0 && w.fired != []
    requires next.Some? ==> next.value < |s.0.nodes| && Owner(s.0.nodes, next.value) == r
    requires Deliver(s.0, s.1, r, next, behaviour, fuel - 1) == Some(w.(fired := w.fired[1..]))
    ensures forall k | 1 <= k < |w.fired| :: w.fired[k] < |s.0.nodes| ==> !s.0.nodes[w.fired[k]].removed
    decreases fuel, 0
  {
    var rest := w.(fired := w.fired[1..]);
    FiredSkipsRemoved(s.0, s.1, r, next, behaviour, fuel - 1, rest);
    assert forall k | 1 <= k < |w.fired| :: w.fired[k] == rest.fired[k - 1];
  }

  // ---------------------------------------------------------------------
  // Stopping

  /** Once the event is stopped, only passive nodes run: a walk that starts
      with `stop` set delivers to passive nodes alone. */
  lemma {:induction false} StoppedFiresPassive(t: Target, e: Event, r: nat, handler: Option<nat>, behaviour: Behaviour, fuel: nat, w: Walked)
    requires Valid(t) && r < |t.roots| && e.stop
    requires handler.Some? ==> handler.value < |t.nodes| && Owner(t.nodes, handler.value) == r
    requires Deliver(t, e, r, handler, behaviour, fuel) == Some(w)
    ensures forall k | 0 <= k < |w.fired| :: w.fired[k] < |w.t.nodes| && w.t.nodes[w.fired[k]].passive
    decreases fuel, 3
  {
    if Continues(t, e, handler) {
      var h := handler.value;
      if t.nodes[h].removed {
        EvolvesReflexive(t);
        NextOwned(t, t, h);
        StoppedFiresPassive(t, e, r, t.nodes[h].next, behaviour, fuel - 1, w);
      } else {
        StoppedVisit(t, e, r, h, behaviour, fuel, w);
      }
    }
  }

  /** The walk from a live node while stopped: the node runs only because it
      is passive, and its registration is kept to the end of the walk. */
  lemma {:induction false} StoppedVisit(t: Target, e: Event, r: nat, h: nat, behaviour: Behaviour, fuel: nat, w: Walked)
    requires Valid(t) && r < |t.roots| && h < |t.nodes| && Owner(t.nodes, h) == r && e.stop
    requires Continues(t, e, Some(h)) && !t.nodes[h].removed
    requires Deliver(t, e, r, Some(h), behaviour, fuel) == Some(w)
    ensures forall k | 0 <= k < |w.fired| :: w.fired[k] < |w.t.nodes| && w.t.nodes[w.fired[k]].passive
    decreases fuel, 2
  {
    StopLeavesPassive(t, e, r, h, behaviour, fuel, w);
    DeliverValid(t, e, r, Some(h), behaviour, fuel, w);
    assert RegistrationOf(w.t.nodes[h]) == RegistrationOf(t.nodes[h]);
  }

  /** A callback that stops the event ends the walk at the next node that
      is not passive: every node after it that runs is passive. */
  lemma {:induction false} StopLeavesPassive(t: Target, e: Event, r: nat, h: nat, behaviour: Behaviour, fuel: nat, w: Walked)
    requires Valid(t) && r < |t.roots| && h < |t.nodes| && Owner(t.nodes, h) == r
    requires Continues(t, e, Some(h)) && !t.nodes[h].removed
    requires Deliver(t, e, r, Some(h), behaviour, fuel) == Some(w)
    ensures w.fired != [] && w.fired[0] == h
    ensures Visit(t, e, r, h, behaviour).1.stop ==>
      forall k | 1 <= k < |w.fired| :: w.fired[k] < |w.t.nodes| && w.t.nodes[w.fired[k]].passive
    decreases fuel, 1
  {
    DeliverVisitStep(t, e, r, h, behaviour, fuel, w);
    var s := Visit(t, e, r, h, behaviour);
    if s.1.stop {
      VisitValid(t, e, r, h, behaviour);
      StoppedAfterVisit(s, r, t.nodes[h].next, behaviour, fuel, w);
    }
  }

  /** The rest of the walk after a visit that left the event stopped. */
  lemma {:induction false} StoppedAfterVisit(s: (Target, Event), r: nat, next: Option<nat>, behaviour: Behaviour, fuel: nat, w: Walked)
    requires Valid(s.0) && r < |s.0.roots| && s.1.stop && fuel > 0 && w.fired != []
    requires next.Some? ==> next.value < |s.0.nodes| && Owner(s.0.nodes, next.value) == r
    requires Deliver(s.0, s.1, r, next, behaviour, fuel - 1) == Some(w.(fired := w.fired[1..]))
    ensures forall k | 1 <= k < |w.fired| :: w.fired[k] < |w.t.nodes| && w.t.nodes[w.fired[k]].passive
    decreases fuel, 0
  {
    var rest := w.(fired := w.fired[1..]);
    StoppedFiresPassive(s.0, s.1, r, next, behaviour, fuel - 1, rest);
    assert forall k | 1 <= k < |w.fired| :: w.fired[k] == rest.fired[k - 1];
  }

  /** `dispatchEvent`, whatever the callbacks do: when it returns, the
      invariant holds, no callback ran twice, and every `once` registration
      that ran is gone; with no chain for the type nothing ran, the
      target is unchanged and the result is `true`. */
  lemma DispatchEventOrder(t: Target, ev: Event, behaviour: Behaviour, fuel: nat)
    requires Valid(t)
    ensures var o := DispatchEvent(t, Some(ev), behaviour, fuel);
      o.Returned? ==> Valid(o.t) && Increasing(o.fired) && OnceUnlinked(Walked(o.t, o.e, o.fired))
    ensures var o := DispatchEvent(t, Some(ev), behaviour, fuel);
      Chain(t, ev.eventType) == [] ==> o == Returned(t, ev.(target := ThisTarget), [], true)
  {
    var e := ev.(target := ThisTarget);
    var ty := e.eventType;
    if !(ty !in t.events || t.roots[t.events[ty]].next.None?) {
      var r := t.events[ty];
      var head := t.roots[r].next;
      var w := Deliver(t, e, r, head, behaviour, fuel);
      if w.Some? {
        DeliverValid(t, e, r, head, behaviour, fuel, w.value);
        FiredIncreasing(t, e, r, head, behaviour, fuel, w.value);
        FiredOnceUnlinked(t, e, r, head, behaviour, fuel, w.value);
      }
    }
  }

  /** `dispatchEvent`, whatever the callbacks do: no callback runs for a
      node that was already unlinked when the call began, and an event that
      arrives stopped reaches passive listeners only. */
  lemma DispatchEventSkipsAndStops(t: Target, ev: Event, behaviour: Behaviour, fuel: nat)
    requires Valid(t)
    ensures var o := DispatchEvent(t, Some(ev), behaviour, fuel);
      o.Returned? ==> forall k | 0 <= k < |o.fired| :: o.fired[k] < |t.nodes| ==> !t.nodes[o.fired[k]].removed
    ensures var o := DispatchEvent(t, Some(ev), behaviour, fuel);
      o.Returned? && ev.stop ==> forall k | 0 <= k < |o.fired| :: o.fired[k] < |o.t.nodes| && o.t.nodes[o.fired[k]].passive
  {
    var e := ev.(target := ThisTarget);
    var ty := e.eventType;
    if !(ty !in t.events || t.roots[t.events[ty]].next.None?) {
      var r := t.events[ty];
      var head := t.roots[r].next;
      var w := Deliver(t, e, r, head, behaviour, fuel);
      if w.Some? {
        FiredSkipsRemoved(t, e, r, head, behaviour, fuel, w.value);
        if ev.stop {
          StoppedFiresPassive(t, e, r, head, behaviour, fuel, w.value);
        }
      }
    }
  }
}
