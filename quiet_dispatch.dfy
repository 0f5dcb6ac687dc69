/** Dispatch with callbacks that touch only the event (`preventDefault`,
    `stopImmediatePropagation`, or a throw): the walk then delivers to a
    prefix of the type's registrations in registration order, the prefix is
    fixed by the `stop` flag and the `passive` flags alone, and the only
    change to the target is that the `once` registrations of that prefix are
    unlinked. */
module QuietDispatch {
  import opened Values
  import opened Chains
  import opened Registry
  import opened UnlinkFacts
  import opened RegistryFacts
  import opened Dispatch
  import opened DispatchFacts

  // ---------------------------------------------------------------------
  // Callbacks that only touch the event

  predicate QuietEffect(f: Effect) {
    f.CallPreventDefault? || f.CallStopImmediatePropagation? || f.Throw?
  }

  predicate QuietScript(script: seq<Effect>) {
    forall k | 0 <= k < |script| :: QuietEffect(script[k])
  }

  ghost predicate Quiet(behaviour: Behaviour) {
    forall l :: QuietScript(behaviour(l))
  }

  /** The effects a callback performs: those before its first throw. */
  function Performed(script: seq<Effect>): (done: seq<Effect>)
    ensures |done| <= |script| && done == script[..|done|]
    ensures Throw !in done
    ensures |done| < |script| ==> script[|done|] == Throw
  {
    if script == [] || script[0].Throw? then []
    else [script[0]] + Performed(script[1..])
  }

  /** A callback that only touches the event, applied to the event: each
      flag ends up set exactly when it was set or the callback called its
      setter before throwing. */
  function RunEffects(e: Event, script: seq<Effect>): (e': Event)
    requires QuietScript(script)
    ensures e' == e.(prevented := e'.prevented, stop := e'.stop)
    ensures e'.prevented <==> e.prevented || CallPreventDefault in Performed(script)
    ensures e'.stop <==> e.stop || CallStopImmediatePropagation in Performed(script)
    decreases |script|
  {
    if script == [] then e
    else if script[0].CallPreventDefault? then RunEffects(PreventDefault(e), script[1..])
    else if script[0].CallStopImmediatePropagation? then RunEffects(StopImmediatePropagation(e), script[1..])
    else e
  }

  /** Such a callback leaves the target as it was. */
  lemma {:induction false} RunScriptQuiet(t: Target, e: Event, script: seq<Effect>)
    requires Indexed(t) && QuietScript(script)
    ensures RunScript(t, e, script) == (t, RunEffects(e, script))
    decreases |script|
  {
    if script != [] {
      if script[0].CallPreventDefault? {
        RunScriptQuiet(t, PreventDefault(e), script[1..]);
      } else if script[0].CallStopImmediatePropagation? {
        RunScriptQuiet(t, StopImmediatePropagation(e), script[1..]);
      }
    }
  }

  // ---------------------------------------------------------------------
  // The reference definition of a walk

  /** Delivery of `e` to `regs` in order: the walk stops before the first
      registration that is not passive once the event is stopped. Returns
      the event afterwards and how many registrations received it. */
  function Deliveries(regs: seq<Registration>, e: Event, behaviour: Behaviour): (d: (Event, nat))
    requires Quiet(behaviour)
    ensures d.1 <= |regs|
    ensures d.0 == e.(prevented := d.0.prevented, stop := d.0.stop)
    ensures e.prevented ==> d.0.prevented
    ensures e.stop ==> d.0.stop
    ensures d.1 < |regs| ==> d.0.stop && !regs[d.1].passive
    ensures e.stop ==> forall k | 0 <= k < d.1 :: regs[k].passive
    decreases |regs|
  {
    if regs == [] || (!regs[0].passive && e.stop) then (e, 0)
    else
      var d := Deliveries(regs[1..], RunEffects(e, behaviour(regs[0].listener)), behaviour);
      (d.0, d.1 + 1)
  }

  /** The event is stopped after a walk exactly when it was stopped before,
      or a registration that received it called `stopImmediatePropagation`;
      likewise for `preventDefault`. */
  lemma {:induction false} DeliveriesFlags(regs: seq<Registration>, e: Event, behaviour: Behaviour)
    requires Quiet(behaviour)
    ensures var d := Deliveries(regs, e, behaviour);
      (d.0.stop <==> e.stop || exists k | 0 <= k < d.1 :: CallStopImmediatePropagation in Performed(behaviour(regs[k].listener)))
      && (d.0.prevented <==> e.prevented || exists k | 0 <= k < d.1 :: CallPreventDefault in Performed(behaviour(regs[k].listener)))
    decreases |regs|
  {
    if !(regs == [] || (!regs[0].passive && e.stop)) {
      var e1 := RunEffects(e, behaviour(regs[0].listener));
      DeliveriesFlags(regs[1..], e1, behaviour);
      var d := Deliveries(regs, e, behaviour);
      forall k | 1 <= k < d.1
        ensures regs[1..][k - 1] == regs[k]
      {
      }
      if CallStopImmediatePropagation in Performed(behaviour(regs[0].listener)) {
        assert exists k | 0 <= k < d.1 :: CallStopImmediatePropagation in Performed(behaviour(regs[k].listener));
      }
      if CallPreventDefault in Performed(behaviour(regs[0].listener)) {
        assert exists k | 0 <= k < d.1 :: CallPreventDefault in Performed(behaviour(regs[k].listener));
      }
    }
  }

  /** No callback stops the event: every registration receives it. */
  lemma NeverStoppedDeliversAll(regs: seq<Registration>, e: Event, behaviour: Behaviour)
    requires Quiet(behaviour) && !e.stop
    requires forall l :: CallStopImmediatePropagation !in behaviour(l)
    ensures Deliveries(regs, e, behaviour).1 == |regs|
  {
    DeliveriesFlags(regs, e, behaviour);
  }

  /** A stopped event reaches exactly the leading passive registrations. */
  lemma StoppedDeliversLeadingPassive(regs: seq<Registration>, e: Event, behaviour: Behaviour, n: nat)
    requires Quiet(behaviour) && e.stop
    requires n <= |regs| && (forall k | 0 <= k < n :: regs[k].passive) && (n < |regs| ==> !regs[n].passive)
    ensures Deliveries(regs, e, behaviour).1 == n
  {
  }

  // ---------------------------------------------------------------------
  // The nodes left linked

  /** Node `x` is a `once` node of the arena. */
  predicate OnceNode(nodes: seq<Node>, x: nat) {
    x < |nodes| && nodes[x].once
  }

  /** The nodes of `w` that are not `once`, in order. */
  function Kept(nodes: seq<Node>, w: seq<nat>): (kept: seq<nat>)
    ensures |kept| <= |w|
  {
    if w == [] then []
    else (if OnceNode(nodes, w[0]) then [] else [w[0]]) + Kept(nodes, w[1..])
  }

  /** `Kept` keeps exactly the nodes of `w` that are not `once`. */
  lemma {:induction false} KeptMembers(nodes: seq<Node>, w: seq<nat>)
    ensures forall x | x in Kept(nodes, w) :: x in w && !OnceNode(nodes, x)
    ensures forall x | x in w && !OnceNode(nodes, x) :: x in Kept(nodes, w)
    decreases |w|
  {
    if w != [] {
      KeptMembers(nodes, w[1..]);
      assert w == [w[0]] + w[1..];
    }
  }

  /** `Kept` distributes over concatenation. */
  lemma {:induction false} KeptAppend(nodes: seq<Node>, a: seq<nat>, b: seq<nat>)
    ensures Kept(nodes, a + b) == Kept(nodes, a) + Kept(nodes, b)
    decreases |a|
  {
    if a == [] {
      assert a + b == b;
    } else {
      assert (a + b)[1..] == a[1..] + b;
      KeptAppend(nodes, a[1..], b);
    }
  }

  /** `Kept` reads only the `once` flags. */
  lemma {:induction false} KeptFrame(nodes: seq<Node>, nodes': seq<Node>, w: seq<nat>)
    requires forall k | 0 <= k < |w| :: OnceNode(nodes', w[k]) == OnceNode(nodes, w[k])
    ensures Kept(nodes', w) == Kept(nodes, w)
    decreases |w|
  {
    if w != [] {
      KeptFrame(nodes, nodes', w[1..]);
    }
  }

  // ---------------------------------------------------------------------
  // One visit

  /** The node the walk stands on is linked in chain `r` after `pre`: it is
      live, and the walk from its `next` is the rest of the chain. */
  lemma OnChain(t: Target, r: nat, pre: seq<nat>, h: nat)
    requires Valid(t) && r < |t.roots| && h < |t.nodes|
    requires RootChain(t, r) == pre + Walk(t.nodes, Some(h))
    ensures !t.nodes[h].removed
    ensures Walk(t.nodes, t.nodes[h].next) == Walk(t.nodes, Some(h))[1..]
    ensures RootChain(t, r)[|pre|] == h
  {
    var w := RootChain(t, r);
    assert w[|pre|] == h;
    assert ChainLinks(t, r);
    assert !t.nodes[w[|pre|]].removed;
  }

  /** The `once` path on a node of chain `r`: the node leaves the chain, the
      walk from its cached `next` is unchanged, and nothing outside chain
      `r` changes. */
  lemma QuietUnlink(t: Target, r: nat, pre: seq<nat>, h: nat)
    requires Valid(t) && r < |t.roots| && h < |t.nodes|
    requires RootChain(t, r) == pre + Walk(t.nodes, Some(h))
    ensures Valid(Unlink(t, h, r)) && Evolves(t, Unlink(t, h, r)) && Unlink(t, h, r).nodes[h].removed
    ensures t.nodes[h].next.Some? ==> t.nodes[h].next.value < |t.nodes|
    ensures Walk(Unlink(t, h, r).nodes, t.nodes[h].next) == Walk(t.nodes, Some(h))[1..]
    ensures RootChain(Unlink(t, h, r), r) == pre + Walk(t.nodes, Some(h))[1..]
    ensures forall q | 0 <= q < |t.roots| && q != r :: RootChain(Unlink(t, h, r), q) == RootChain(t, q)
    ensures Unlink(t, h, r) == t.(roots := Unlink(t, h, r).roots, nodes := Unlink(t, h, r).nodes)
  {
    OnChain(t, r, pre, h);
    UnlinkValid(t, r, |pre|);
    UnlinkOwn(t, r, pre, h);
    UnlinkNextWalk(t, r, h);
    UnlinkOthers(t, r, |pre|);
    UnlinkRoots(t, h, r);
  }

  lemma UnlinkOwn(t: Target, r: nat, pre: seq<nat>, h: nat)
    requires Indexed(t) && r < |t.roots| && h < |t.nodes| && ChainOk(t, r)
    requires RootChain(t, r) == pre + Walk(t.nodes, Some(h))
    ensures RootChain(Unlink(t, h, r), r) == pre + Walk(t.nodes, Some(h))[1..]
  {
    var w := RootChain(t, r);
    var k := |pre|;
    assert w[k] == h;
    UnlinkOwnChain(t, r, k);
    assert w[..k] == pre;
    assert w[k + 1..] == Walk(t.nodes, Some(h))[1..];
  }

  /** Unlinking `h` leaves the walk from its `next` alone: only the node
      before `h` is rewired. */
  lemma UnlinkNextWalk(t: Target, r: nat, h: nat)
    requires Indexed(t) && r < |t.roots| && h < |t.nodes|
    ensures Walk(Unlink(t, h, r).nodes, t.nodes[h].next) == Walk(t.nodes, t.nodes[h].next)
  {
    var t1 := Unlink(t, h, r);
    UnlinkNodes(t, h, r);
    var next := t.nodes[h].next;
    forall x | x in Walk(t.nodes, next)
      ensures t1.nodes[x].next == t.nodes[x].next
    {
      assert h < x;
    }
    WalkFrame(t.nodes, t1.nodes, next);
  }

  lemma UnlinkOthers(t: Target, r: nat, k: nat)
    requires Valid(t) && r < |t.roots| && k < |RootChain(t, r)|
    ensures forall q | 0 <= q < |t.roots| && q != r :: RootChain(Unlink(t, RootChain(t, r)[k], r), q) == RootChain(t, q)
  {
    assert ChainOk(t, r);
    forall q | 0 <= q < |t.roots| && q != r
      ensures RootChain(Unlink(t, RootChain(t, r)[k], r), q) == RootChain(t, q)
    {
      UnlinkOtherChain(t, r, k, q);
    }
  }

  /** What visiting node `h` of chain `r`, found after `pre`, does when the
      callback only touches the event: the event gets the callback's
      effects; the target keeps the invariant and its map; chain `r` loses
      `h` if it is `once`; the walk from the cached `next` is the rest of
      the chain; every other chain is unchanged. */
  ghost predicate VisitedQuietly(t: Target, e: Event, r: nat, pre: seq<nat>, h: nat, behaviour: Behaviour, s: (Target, Event))
    requires Indexed(t) && r < |t.roots| && h < |t.nodes| && Quiet(behaviour)
  {
    && s.1 == RunEffects(e, behaviour(t.nodes[h].listener))
    && Indexed(s.0)
    && |s.0.roots| == |t.roots| && |s.0.nodes| == |t.nodes|
    && (forall i | 0 <= i < |t.nodes| :: RegistrationOf(s.0.nodes[i]) == RegistrationOf(t.nodes[i]))
    && s.0.events == t.events && s.0.keys == t.keys
    && s.0.maxListeners == t.maxListeners && s.0.maxListenersWarned == t.maxListenersWarned
    && (t.nodes[h].next.Some? ==> t.nodes[h].next.value < |s.0.nodes|)
    && Walk(s.0.nodes, t.nodes[h].next) == Walk(t.nodes, Some(h))[1..]
    && RootChain(s.0, r) == (pre + (if t.nodes[h].once then [] else [h])) + Walk(t.nodes, Some(h))[1..]
    && (forall q | 0 <= q < |t.roots| && q != r :: RootChain(s.0, q) == RootChain(t, q))
    && (t.nodes[h].once ==> s.0.nodes[h].removed)
  }

  /** Visiting a node of chain `r` with a callback that only touches the
      event. */
  lemma QuietVisit(t: Target, e: Event, r: nat, pre: seq<nat>, h: nat, behaviour: Behaviour)
    requires Valid(t) && r < |t.roots| && h < |t.nodes| && Quiet(behaviour)
    requires RootChain(t, r) == pre + Walk(t.nodes, Some(h))
    ensures !t.nodes[h].removed
    ensures Valid(Visit(t, e, r, h, behaviour).0)
    ensures VisitedQuietly(t, e, r, pre, h, behaviour, Visit(t, e, r, h, behaviour))
  {
    OnChain(t, r, pre, h);
    if t.nodes[h].once {
      QuietVisitOnce(t, e, r, pre, h, behaviour);
    } else {
      QuietVisitKept(t, e, r, pre, h, behaviour);
    }
  }

  lemma QuietVisitOnce(t: Target, e: Event, r: nat, pre: seq<nat>, h: nat, behaviour: Behaviour)
    requires Valid(t) && r < |t.roots| && h < |t.nodes| && Quiet(behaviour)
    requires RootChain(t, r) == pre + Walk(t.nodes, Some(h)) && t.nodes[h].once
    ensures Valid(Visit(t, e, r, h, behaviour).0)
    ensures VisitedQuietly(t, e, r, pre, h, behaviour, Visit(t, e, r, h, behaviour))
  {
    var t1 := Unlink(t, h, r);
    RunScriptQuiet(t1, e, behaviour(t.nodes[h].listener));
    assert Visit(t, e, r, h, behaviour) == (t1, RunEffects(e, behaviour(t.nodes[h].listener)));
    QuietUnlink(t, r, pre, h);
    assert pre + [] == pre;
  }

  lemma QuietVisitKept(t: Target, e: Event, r: nat, pre: seq<nat>, h: nat, behaviour: Behaviour)
    requires Valid(t) && r < |t.roots| && h < |t.nodes| && Quiet(behaviour)
    requires RootChain(t, r) == pre + Walk(t.nodes, Some(h)) && !t.nodes[h].once
    ensures Valid(Visit(t, e, r, h, behaviour).0)
    ensures VisitedQuietly(t, e, r, pre, h, behaviour, Visit(t, e, r, h, behaviour))
  {
    OnChain(t, r, pre, h);
    RunScriptQuiet(t, e, behaviour(t.nodes[h].listener));
    assert Visit(t, e, r, h, behaviour) == (t, RunEffects(e, behaviour(t.nodes[h].listener)));
    EvolvesReflexive(t);
    assert RootChain(t, r) == (pre + [h]) + Walk(t.nodes, Some(h))[1..];
  }

  // ---------------------------------------------------------------------
  // The walk

  /** What a walk over `rest`, the part of chain `r` after `pre`, does when
      every callback only touches the event: it delivers to the prefix of
      `rest` that the reference definition picks, in order; the event ends
      as the reference definition says; the `once` nodes of that prefix
      leave the chain and nothing else changes. */
  ghost predicate QuietOutcome(t: Target, e: Event, r: nat, pre: seq<nat>, rest: seq<nat>, behaviour: Behaviour, w: Walked)
    requires Indexed(t) && r < |t.roots| && Quiet(behaviour)
    requires forall k | 0 <= k < |rest| :: rest[k] < |t.nodes|
  {
    var d := Deliveries(RegistrationsAt(t.nodes, rest), e, behaviour);
    && Indexed(w.t)
    && w.t.events == t.events && w.t.keys == t.keys
    && w.t.maxListeners == t.maxListeners && w.t.maxListenersWarned == t.maxListenersWarned
    && |w.t.roots| == |t.roots| && |w.t.nodes| == |t.nodes|
    && w.e == d.0
    && w.fired == rest[..d.1]
    && RootChain(w.t, r) == pre + Kept(t.nodes, rest[..d.1]) + rest[d.1..]
    && (forall q | 0 <= q < |t.roots| && q != r :: RootChain(w.t, q) == RootChain(t, q))
  }

  /** The walk from any node of chain `r`, with enough fuel, agrees with the
      reference definition. */
  lemma {:induction false} QuietWalk(t: Target, e: Event, r: nat, pre: seq<nat>, handler: Option<nat>, behaviour: Behaviour, fuel: nat)
    requires Valid(t) && r < |t.roots| && Quiet(behaviour)
    requires handler.Some? ==> handler.value < |t.nodes|
    requires RootChain(t, r) == pre + Walk(t.nodes, handler)
    requires |Walk(t.nodes, handler)| <= fuel
    ensures Deliver(t, e, r, handler, behaviour, fuel).Some?
    ensures QuietOutcome(t, e, r, pre, Walk(t.nodes, handler), behaviour, Deliver(t, e, r, handler, behaviour, fuel).value)
    decreases fuel, 2
  {
    var rest := Walk(t.nodes, handler);
    if !Continues(t, e, handler) {
      assert rest[..0] == [] && rest[0..] == rest && pre + [] == pre;
    } else {
      QuietWalkStep(t, e, r, pre, handler.value, behaviour, fuel);
    }
  }

  lemma {:induction false} QuietWalkStep(t: Target, e: Event, r: nat, pre: seq<nat>, h: nat, behaviour: Behaviour, fuel: nat)
    requires Valid(t) && r < |t.roots| && Quiet(behaviour) && h < |t.nodes|
    requires RootChain(t, r) == pre + Walk(t.nodes, Some(h))
    requires |Walk(t.nodes, Some(h))| <= fuel && Continues(t, e, Some(h))
    ensures Deliver(t, e, r, Some(h), behaviour, fuel).Some?
    ensures QuietOutcome(t, e, r, pre, Walk(t.nodes, Some(h)), behaviour, Deliver(t, e, r, Some(h), behaviour, fuel).value)
    decreases fuel, 1
  {
    QuietVisit(t, e, r, pre, h, behaviour);
    var w' := QuietAfterVisit(t, e, r, pre, h, behaviour, fuel, Visit(t, e, r, h, behaviour));
    DeliverVisitUnfold(t, e, r, h, behaviour, fuel);
  }

  /** The walk from the cached `next`, after a visit that left `s`. */
  lemma {:induction false} QuietAfterVisit(t: Target, e: Event, r: nat, pre: seq<nat>, h: nat, behaviour: Behaviour, fuel: nat, s: (Target, Event))
    returns (w': Walked)
    requires Indexed(t) && r < |t.roots| && Quiet(behaviour) && h < |t.nodes|
    requires RootChain(t, r) == pre + Walk(t.nodes, Some(h))
    requires |Walk(t.nodes, Some(h))| <= fuel && Continues(t, e, Some(h))
    requires Valid(s.0) && VisitedQuietly(t, e, r, pre, h, behaviour, s)
    ensures fuel > 0 && (t.nodes[h].next.Some? ==> t.nodes[h].next.value < |s.0.nodes|)
    ensures Deliver(s.0, s.1, r, t.nodes[h].next, behaviour, fuel - 1) == Some(w')
    ensures QuietOutcome(t, e, r, pre, Walk(t.nodes, Some(h)), behaviour, w'.(fired := [h] + w'.fired))
    decreases fuel, 0
  {
    var next := t.nodes[h].next;
    QuietWalk(s.0, s.1, r, pre + (if t.nodes[h].once then [] else [h]), next, behaviour, fuel - 1);
    w' := Deliver(s.0, s.1, r, next, behaviour, fuel - 1).value;
    QuietCompose(t, e, r, pre, h, behaviour, s, w');
  }

  /** One visit followed by the walk from the cached `next` is a walk from
      the visited node. */
  lemma QuietCompose(t: Target, e: Event, r: nat, pre: seq<nat>, h: nat, behaviour: Behaviour, s: (Target, Event), w': Walked)
    requires Indexed(t) && r < |t.roots| && Quiet(behaviour) && h < |t.nodes|
    requires RootChain(t, r) == pre + Walk(t.nodes, Some(h)) && Continues(t, e, Some(h))
    requires VisitedQuietly(t, e, r, pre, h, behaviour, s)
    requires QuietOutcome(s.0, s.1, r, pre + (if t.nodes[h].once then [] else [h]), Walk(s.0.nodes, t.nodes[h].next), behaviour, w')
    ensures QuietOutcome(t, e, r, pre, Walk(t.nodes, Some(h)), behaviour, w'.(fired := [h] + w'.fired))
  {
    var n := QuietComposeEvent(t, e, h, behaviour, s, Walk(t.nodes, Some(h)));
    OnceFrame(t.nodes, s.0.nodes, Walk(t.nodes, Some(h)));
    KeptStep(t.nodes, s.0.nodes, pre, Walk(t.nodes, Some(h)), n);
  }

  /** Nodes whose registrations agree agree on being `once`. */
  lemma OnceFrame(nodes: seq<Node>, nodes': seq<Node>, w: seq<nat>)
    requires |nodes| <= |nodes'|
    requires forall i | 0 <= i < |nodes| :: RegistrationOf(nodes'[i]) == RegistrationOf(nodes[i])
    requires forall k | 0 <= k < |w| :: w[k] < |nodes|
    ensures forall x | x in w :: OnceNode(nodes', x) == OnceNode(nodes, x)
  {
  }

  /** The event half of `QuietCompose`: the reference definition takes the
      same step as the visit. */
  lemma QuietComposeEvent(t: Target, e: Event, h: nat, behaviour: Behaviour, s: (Target, Event), rest: seq<nat>) returns (n: nat)
    requires Indexed(t) && Indexed(s.0) && Quiet(behaviour) && h < |t.nodes| <= |s.0.nodes|
    requires rest == Walk(t.nodes, Some(h)) && Continues(t, e, Some(h))
    requires s.1 == RunEffects(e, behaviour(t.nodes[h].listener))
    requires forall i | 0 <= i < |t.nodes| :: RegistrationOf(s.0.nodes[i]) == RegistrationOf(t.nodes[i])
    ensures RegistrationsAt(s.0.nodes, rest[1..]) == RegistrationsAt(t.nodes, rest)[1..]
    ensures n == Deliveries(RegistrationsAt(s.0.nodes, rest[1..]), s.1, behaviour).1
    ensures Deliveries(RegistrationsAt(t.nodes, rest), e, behaviour)
      == (Deliveries(RegistrationsAt(s.0.nodes, rest[1..]), s.1, behaviour).0, n + 1)
  {
    n := Deliveries(RegistrationsAt(s.0.nodes, rest[1..]), s.1, behaviour).1;
    var regs := RegistrationsAt(t.nodes, rest);
    RegistrationsFrame(t.nodes, s.0.nodes, rest[1..]);
    assert RegistrationsAt(t.nodes, rest[1..]) == regs[1..];
    assert regs[0] == RegistrationOf(t.nodes[h]);
  }

  /** The chain half of `QuietCompose`: the visited node, kept or not,
      followed by what the rest of the walk keeps. */
  lemma KeptStep(nodes: seq<Node>, nodes': seq<Node>, pre: seq<nat>, rest: seq<nat>, n: nat)
    requires n < |rest|
    requires forall x | x in rest :: OnceNode(nodes', x) == OnceNode(nodes, x)
    ensures (pre + (if OnceNode(nodes, rest[0]) then [] else [rest[0]])) + Kept(nodes', rest[1..][..n]) + rest[1..][n..]
      == pre + Kept(nodes, rest[..n + 1]) + rest[n + 1..]
    ensures [rest[0]] + rest[1..][..n] == rest[..n + 1]
  {
    var x := if OnceNode(nodes, rest[0]) then [] else [rest[0]];
    var q := rest[1..][..n];
    assert Kept(nodes, rest[..n + 1]) == x + Kept(nodes', q) by {
      assert rest[..n + 1] == [rest[0]] + q;
      KeptAppend(nodes, [rest[0]], q);
      assert Kept(nodes, [rest[0]]) == x + Kept(nodes, []);
      forall k | 0 <= k < |q|
        ensures OnceNode(nodes', q[k]) == OnceNode(nodes, q[k])
      {
        assert q[k] in rest;
      }
      KeptFrame(nodes, nodes', q);
    }
    assert rest[1..][n..] == rest[n + 1..];
  }

}
