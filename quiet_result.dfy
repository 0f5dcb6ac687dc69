/** `dispatchEvent` as a whole when every callback only touches the event:
    which registrations receive it, how it ends, and what stays registered. */
module QuietResult {
  import opened Values
  import opened Chains
  import opened Registry
  import opened RegistryFacts
  import opened Dispatch
  import opened DispatchFacts
  import opened QuietDispatch

  /** The registrations of `regs` that are not `once`, in order. */
  function DropOnce(regs: seq<Registration>): (left: seq<Registration>)
    ensures |left| <= |regs|
    ensures forall x :: x in left <==> x in regs && !x.once
  {
    if regs == [] then []
    else
      assert regs == [regs[0]] + regs[1..];
      (if regs[0].once then [] else [regs[0]]) + DropOnce(regs[1..])
  }

  lemma RegistrationsConcat(nodes: seq<Node>, a: seq<nat>, b: seq<nat>)
    requires forall k | 0 <= k < |a| :: a[k] < |nodes|
    requires forall k | 0 <= k < |b| :: b[k] < |nodes|
    ensures RegistrationsAt(nodes, a + b) == RegistrationsAt(nodes, a) + RegistrationsAt(nodes, b)
  {
    assert forall k | 0 <= k < |a + b| :: (a + b)[k] == if k < |a| then a[k] else b[k - |a|];
  }

  lemma RegistrationsTake(nodes: seq<Node>, w: seq<nat>, n: nat)
    requires forall k | 0 <= k < |w| :: w[k] < |nodes|
    requires n <= |w|
    ensures RegistrationsAt(nodes, w[..n]) == RegistrationsAt(nodes, w)[..n]
    ensures RegistrationsAt(nodes, w[n..]) == RegistrationsAt(nodes, w)[n..]
  {
  }

  /** The registrations of the nodes `Kept` keeps are those `DropOnce`
      keeps. */
  lemma {:induction false} KeptRegistrations(nodes: seq<Node>, w: seq<nat>)
    requires forall k | 0 <= k < |w| :: w[k] < |nodes|
    ensures forall k | 0 <= k < |Kept(nodes, w)| :: Kept(nodes, w)[k] < |nodes|
    ensures RegistrationsAt(nodes, Kept(nodes, w)) == DropOnce(RegistrationsAt(nodes, w))
    decreases |w|
  {
    KeptMembers(nodes, w);
    if w != [] {
      var x := if OnceNode(nodes, w[0]) then [] else [w[0]];
      KeptRegistrations(nodes, w[1..]);
      RegistrationsConcat(nodes, x, Kept(nodes, w[1..]));
      var regs := RegistrationsAt(nodes, w);
      assert RegistrationsAt(nodes, w[1..]) == regs[1..];
      assert RegistrationsAt(nodes, x) == if regs[0].once then [] else [regs[0]];
    }
  }

  /** What a walk that delivered to the first `n` nodes of `rest` leaves
      registered on it. */
  lemma KeptLeft(nodes: seq<Node>, rest: seq<nat>, n: nat)
    requires n <= |rest|
    requires forall k | 0 <= k < |rest| :: rest[k] < |nodes|
    ensures forall k | 0 <= k < |Kept(nodes, rest[..n]) + rest[n..]| :: (Kept(nodes, rest[..n]) + rest[n..])[k] < |nodes|
    ensures RegistrationsAt(nodes, Kept(nodes, rest[..n]) + rest[n..])
      == DropOnce(RegistrationsAt(nodes, rest)[..n]) + RegistrationsAt(nodes, rest)[n..]
  {
    var kept := Kept(nodes, rest[..n]);
    KeptRegistrations(nodes, rest[..n]);
    RegistrationsConcat(nodes, kept, rest[n..]);
    RegistrationsTake(nodes, rest, n);
  }

  /** A chain other than the walked one is untouched, and so are the
      registrations of its type. */
  lemma QuietOthers(t: Target, t': Target, r: nat, eventType: EventType)
    requires Indexed(t) && Indexed(t') && KeysOk(t) && |t.nodes| <= |t'.nodes| && |t.roots| == |t'.roots|
    requires forall i | 0 <= i < |t.nodes| :: RegistrationOf(t'.nodes[i]) == RegistrationOf(t.nodes[i])
    requires t'.events == t.events && r < |t.roots|
    requires forall q | 0 <= q < |t.roots| && q != r :: RootChain(t', q) == RootChain(t, q)
    requires eventType !in t.events || t.events[eventType] != r
    ensures Registrations(t', eventType) == Registrations(t, eventType)
  {
    if eventType in t.events {
      RegistrationsFrame(t.nodes, t'.nodes, Chain(t, eventType));
    }
  }

  /** Dispatch with callbacks that only touch the event: it returns, having
      delivered to the prefix of the type's chain that `Deliveries` picks,
      in registration order; the event ends with the flags `Deliveries`
      computes and its target cleared (left set when the type has no
      listener); the `once` registrations of that prefix are gone, every
      other registration of every type stays, and the map is unchanged, so
      `eventNames()` still lists the type when its last listener was a
      `once` one. */
  lemma QuietDispatchEvent(t: Target, ev: Event, behaviour: Behaviour, fuel: nat)
    requires Valid(t) && Quiet(behaviour) && |Chain(t, ev.eventType)| <= fuel
    ensures var o := DispatchEvent(t, Some(ev), behaviour, fuel);
      var regs := Registrations(t, ev.eventType);
      var d := Deliveries(regs, ev.(target := ThisTarget), behaviour);
      && o.Returned? && Valid(o.t)
      && o.fired == Chain(t, ev.eventType)[..d.1]
      && o.e == d.0.(target := if Chain(t, ev.eventType) == [] then ThisTarget else Cleared)
      && (o.result <==> Chain(t, ev.eventType) == [] || !DefaultPrevented(d.0))
      && Registrations(o.t, ev.eventType) == DropOnce(regs[..d.1]) + regs[d.1..]
      && (forall ty | ty != ev.eventType :: Registrations(o.t, ty) == Registrations(t, ty))
      && o.t.events == t.events && EventNames(o.t) == EventNames(t)
  {
    var e := ev.(target := ThisTarget);
    var ty := e.eventType;
    if !(ty !in t.events || t.roots[t.events[ty]].next.None?) {
      var r := t.events[ty];
      var w := QuietFromHead(t, e, r, fuel, behaviour);
      assert Valid(w.t) && forall i | 0 <= i < |t.nodes| :: RegistrationOf(w.t.nodes[i]) == RegistrationOf(t.nodes[i]) by {
        DeliverValid(t, e, r, t.roots[r].next, behaviour, fuel, w);
      }
      QuietRegistrations(t, e, r, behaviour, w);
      forall ty' | ty' != ty
        ensures Registrations(w.t, ty') == Registrations(t, ty')
      {
        QuietOthers(t, w.t, r, ty');
      }
    }
  }

  /** `QuietWalk` from the head of chain `r`. */
  lemma QuietFromHead(t: Target, e: Event, r: nat, fuel: nat, behaviour: Behaviour) returns (w: Walked)
    requires Valid(t) && Quiet(behaviour) && r < |t.roots|
    requires |RootChain(t, r)| <= fuel
    ensures Deliver(t, e, r, t.roots[r].next, behaviour, fuel) == Some(w)
    ensures QuietOutcome(t, e, r, [], RootChain(t, r), behaviour, w)
  {
    assert RootChain(t, r) == [] + Walk(t.nodes, t.roots[r].next);
    QuietWalk(t, e, r, [], t.roots[r].next, behaviour, fuel);
    w := Deliver(t, e, r, t.roots[r].next, behaviour, fuel).value;
  }

  /** The registrations a quiet walk over the whole chain of a type leaves. */
  lemma QuietRegistrations(t: Target, e: Event, r: nat, behaviour: Behaviour, w: Walked)
    requires Indexed(t) && Quiet(behaviour) && e.eventType in t.events && t.events[e.eventType] == r
    requires QuietOutcome(t, e, r, [], RootChain(t, r), behaviour, w)
    requires forall i | 0 <= i < |t.nodes| :: RegistrationOf(w.t.nodes[i]) == RegistrationOf(t.nodes[i])
    ensures var regs := Registrations(t, e.eventType);
      var d := Deliveries(regs, e, behaviour);
      Registrations(w.t, e.eventType) == DropOnce(regs[..d.1]) + regs[d.1..]
  {
    var rest := RootChain(t, r);
    var d := Deliveries(RegistrationsAt(t.nodes, rest), e, behaviour);
    assert RootChain(w.t, r) == Kept(t.nodes, rest[..d.1]) + rest[d.1..];
    KeptLeft(t.nodes, rest, d.1);
    RegistrationsFrame(t.nodes, w.t.nodes, RootChain(w.t, r));
  }
}
