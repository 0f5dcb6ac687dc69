/** What the public operations of the registry promise, stated over the
    registrations each event type holds: the invariant is kept, adding
    appends a new registration and ignores a duplicate, removing drops the
    first matching one, and the event names follow the map. */
module RegistryFacts {
  import opened Values
  import opened Chains
  import opened Registry
  import opened UnlinkFacts
  import opened AppendFacts

  // ---------------------------------------------------------------------
  // Reference definitions over registrations

  /** `regs` holds a registration of `listener` with `capture`. */
  predicate Registered(regs: seq<Registration>, listener: ListenerValue, capture: bool) {
    exists k | 0 <= k < |regs| :: regs[k].listener == listener && regs[k].capture == capture
  }

  /** `regs` without its first registration of `listener` with `capture`. */
  function RemoveFirst(regs: seq<Registration>, listener: ListenerValue, capture: bool): (out: seq<Registration>)
    ensures Registered(regs, listener, capture) ==> |out| == |regs| - 1
    ensures !Registered(regs, listener, capture) ==> out == regs
  {
    if regs == [] then []
    else if regs[0].listener == listener && regs[0].capture == capture then regs[1..]
    else
      assert Registered(regs, listener, capture) <==> Registered(regs[1..], listener, capture) by {
        if Registered(regs, listener, capture) {
          var k :| 0 <= k < |regs| && regs[k].listener == listener && regs[k].capture == capture;
          assert regs[1..][k - 1] == regs[k];
        }
        if Registered(regs[1..], listener, capture) {
          var k :| 0 <= k < |regs[1..]| && regs[1..][k].listener == listener && regs[1..][k].capture == capture;
          assert regs[k + 1] == regs[1..][k];
        }
      }
      [regs[0]] + RemoveFirst(regs[1..], listener, capture)
  }

  /** When the first match is at position `k`, removing the first match
      drops exactly position `k`. */
  lemma {:induction false} RemoveFirstAt(regs: seq<Registration>, listener: ListenerValue, capture: bool, k: nat)
    requires k < |regs| && regs[k].listener == listener && regs[k].capture == capture
    requires forall j | 0 <= j < k :: !(regs[j].listener == listener && regs[j].capture == capture)
    ensures RemoveFirst(regs, listener, capture) == regs[..k] + regs[k + 1..]
    decreases k
  {
    if k > 0 {
      RemoveFirstAt(regs[1..], listener, capture, k - 1);
      assert regs[1..][..k - 1] + regs[1..][k..] == regs[1..k] + regs[k + 1..];
      assert [regs[0]] + regs[1..k] == regs[..k];
    }
  }

  // ---------------------------------------------------------------------
  // Registrations of node sequences

  /** Registrations depend only on what each node registers. */
  lemma RegistrationsFrame(nodes: seq<Node>, nodes': seq<Node>, w: seq<nat>)
    requires |nodes| <= |nodes'|
    requires forall j | 0 <= j < |w| :: w[j] < |nodes|
    requires forall i | 0 <= i < |nodes| :: RegistrationOf(nodes'[i]) == RegistrationOf(nodes[i])
    ensures RegistrationsAt(nodes', w) == RegistrationsAt(nodes, w)
  {
  }

  lemma RegistrationsAppend(nodes: seq<Node>, w: seq<nat>, n: nat)
    requires forall j | 0 <= j < |w| :: w[j] < |nodes|
    requires n < |nodes|
    ensures RegistrationsAt(nodes, w + [n]) == RegistrationsAt(nodes, w) + [RegistrationOf(nodes[n])]
  {
    assert forall j | 0 <= j < |w| :: (w + [n])[j] == w[j];
  }

  lemma RegistrationsRemove(nodes: seq<Node>, w: seq<nat>, k: nat)
    requires forall j | 0 <= j < |w| :: w[j] < |nodes|
    requires k < |w|
    ensures RegistrationsAt(nodes, w[..k] + w[k + 1..]) == RegistrationsAt(nodes, w)[..k] + RegistrationsAt(nodes, w)[k + 1..]
  {
    var w' := w[..k] + w[k + 1..];
    assert forall j | 0 <= j < |w'| :: w'[j] == if j < k then w[j] else w[j + 1];
  }

  /** A listener and capture flag are among the identities of a walk exactly
      when they are registered on it. */
  lemma IdentitiesRegistered(nodes: seq<Node>, w: seq<nat>, listener: ListenerValue, capture: bool)
    requires forall j | 0 <= j < |w| :: w[j] < |nodes|
    ensures (listener, capture) in IdentitiesAt(nodes, w) <==> Registered(RegistrationsAt(nodes, w), listener, capture)
  {
    var ids := IdentitiesAt(nodes, w);
    var regs := RegistrationsAt(nodes, w);
    if (listener, capture) in ids {
      var k :| 0 <= k < |ids| && ids[k] == (listener, capture);
      assert regs[k].listener == listener && regs[k].capture == capture;
    }
    if Registered(regs, listener, capture) {
      var k :| 0 <= k < |regs| && regs[k].listener == listener && regs[k].capture == capture;
      assert ids[k] == (listener, capture);
    }
  }

  /** The walk loops of `addEventListener` and `removeEventListener` find a
      node exactly when the listener is registered. */
  lemma FirstMatchRegistered(nodes: seq<Node>, w: seq<nat>, listener: ListenerValue, capture: bool)
    requires forall j | 0 <= j < |w| :: w[j] < |nodes|
    ensures FirstMatch(nodes, w, listener, capture).Some? <==> Registered(RegistrationsAt(nodes, w), listener, capture)
  {
    var regs := RegistrationsAt(nodes, w);
    var k := FirstMatch(nodes, w, listener, capture);
    if k.Some? {
      assert regs[k.value].listener == listener && regs[k.value].capture == capture;
    }
    if Registered(regs, listener, capture) {
      var j :| 0 <= j < |regs| && regs[j].listener == listener && regs[j].capture == capture;
      assert Same(nodes[w[j]], listener, capture);
    }
  }

  /** The first match in the walk is the first match among the registrations,
      so removing the node removes the first matching registration. */
  lemma FirstMatchRemoveFirst(nodes: seq<Node>, w: seq<nat>, listener: ListenerValue, capture: bool)
    requires forall j | 0 <= j < |w| :: w[j] < |nodes|
    requires FirstMatch(nodes, w, listener, capture).Some?
    ensures RegistrationsAt(nodes, w[..FirstMatch(nodes, w, listener, capture).value] + w[FirstMatch(nodes, w, listener, capture).value + 1..])
      == RemoveFirst(RegistrationsAt(nodes, w), listener, capture)
  {
    var k := FirstMatch(nodes, w, listener, capture).value;
    var regs := RegistrationsAt(nodes, w);
    forall j | 0 <= j < k
      ensures !(regs[j].listener == listener && regs[j].capture == capture)
    {
      assert !Same(nodes[w[j]], listener, capture);
    }
    RemoveFirstAt(regs, listener, capture, k);
    RegistrationsRemove(nodes, w, k);
  }

  // ---------------------------------------------------------------------
  // Changes that leave the arenas alone

  /** A state with the same arenas has the same chains and is wired and
      counted exactly when the original is. */
  lemma SameArenas(t: Target, t': Target)
    requires Indexed(t) && t'.roots == t.roots && t'.nodes == t.nodes
    requires forall ty | ty in t'.events :: t'.events[ty] < |t.roots|
    requires t.maxListenersWarned ==> t'.maxListenersWarned
    ensures Indexed(t')
    ensures forall r | 0 <= r < |t.roots| :: RootChain(t', r) == RootChain(t, r)
    ensures Wired(t) ==> Wired(t')
    ensures Counted(t) ==> Counted(t')
    ensures Evolves(t, t')
  {
    if Wired(t) {
      forall r | 0 <= r < |t.roots|
        ensures ChainLinks(t', r)
      {
        assert ChainLinks(t, r);
      }
    }
  }

  /** A fresh target holds the invariant. */
  lemma EmptyValid(defaultMaxListeners: int)
    ensures Valid(Empty(defaultMaxListeners))
    ensures forall ty :: Registrations(Empty(defaultMaxListeners), ty) == []
    ensures EventNames(Empty(defaultMaxListeners)) == []
    ensures GetMaxListeners(Empty(defaultMaxListeners)) == defaultMaxListeners && !Empty(defaultMaxListeners).maxListenersWarned
  {
  }

  /** `kNewListener` changes only the warning flag. */
  lemma NewListenerKeeps(t: Target, size: int)
    requires Indexed(t)
    ensures Indexed(NewListener(t, size))
    ensures Valid(t) ==> Valid(NewListener(t, size))
    ensures Evolves(t, NewListener(t, size))
    ensures forall ty :: Registrations(NewListener(t, size), ty) == Registrations(t, ty)
    ensures forall ty :: ListenerCount(NewListener(t, size), ty) == ListenerCount(t, ty)
    ensures EventNames(NewListener(t, size)) == EventNames(t)
  {
    SameArenas(t, NewListener(t, size));
  }

  /** `events.set(type, root)` for a new type and an unused root keeps the
      invariant. */
  lemma RegisterValid(t: Target, eventType: EventType, r: nat)
    requires Valid(t) && eventType !in t.events && r < |t.roots|
    requires forall ty | ty in t.events :: t.events[ty] != r
    ensures Valid(Register(t, eventType, r))
    ensures Evolves(t, Register(t, eventType, r))
  {
    var t' := Register(t, eventType, r);
    SameArenas(t, t');
    NoDuplicatesAppend(t.keys, eventType);
  }

  /** `events.delete(type)` keeps the invariant. */
  lemma UnregisterValid(t: Target, eventType: EventType)
    requires Valid(t)
    ensures Valid(Unregister(t, eventType))
    ensures Evolves(t, Unregister(t, eventType))
  {
    SameArenas(t, Unregister(t, eventType));
  }

  /** `setMaxListeners` keeps the invariant, and `getMaxListeners` reads back
      what was set. */
  lemma SetMaxListenersValid(t: Target, n: int)
    requires Valid(t)
    ensures Valid(SetMaxListeners(t, n))
    ensures Evolves(t, SetMaxListeners(t, n))
    ensures GetMaxListeners(SetMaxListeners(t, n)) == n
  {
    SameArenas(t, SetMaxListeners(t, n));
  }

  /** The event names are the types of the map, each listed once. */
  lemma EventNamesAreTypes(t: Target)
    requires Valid(t)
    ensures forall ty :: ty in EventNames(t) <==> ty in t.events
    ensures NoDuplicates(EventNames(t))
  {
  }

  /** `listenerCount(type)` is the number of registrations for `type`. */
  lemma ListenerCountIsLength(t: Target, eventType: EventType)
    requires Valid(t)
    ensures ListenerCount(t, eventType) == |Registrations(t, eventType)|
  {
  }

  // ---------------------------------------------------------------------
  // addEventListener

  /** A new registration of an already mapped type goes last in its list
      and leaves every other type alone. */
  lemma AppendRegistrations(t: Target, eventType: EventType, listener: ListenerValue, once: bool, capture: bool, passive: bool)
    requires Valid(t) && eventType in t.events
    requires !Registered(Registrations(t, eventType), listener, capture)
    ensures Indexed(AddSize(LinkTail(t, t.events[eventType], listener, once, capture, passive), t.events[eventType], 1))
    ensures Registrations(AddSize(LinkTail(t, t.events[eventType], listener, once, capture, passive), t.events[eventType], 1), eventType)
      == Registrations(t, eventType) + [Registration(listener, once, capture, passive)]
    ensures forall ty | ty != eventType ::
      Registrations(AddSize(LinkTail(t, t.events[eventType], listener, once, capture, passive), t.events[eventType], 1), ty) == Registrations(t, ty)
  {
    var r := t.events[eventType];
    var w := RootChain(t, r);
    var t1 := LinkTail(t, r, listener, once, capture, passive);
    var t2 := AddSize(t1, r, 1);
    LinkTailEvolves(t, r, listener, once, capture, passive);
    LinkTailChain(t, r, listener, once, capture, passive);
    LinkTailEffect(t, r, listener, once, capture, passive);
    AddSizeKeeps(t1, r, 1);
    RegistrationsFrame(t.nodes, t1.nodes, w);
    RegistrationsAppend(t1.nodes, w, |t.nodes|);
    forall ty | ty != eventType
      ensures Registrations(t2, ty) == Registrations(t, ty)
    {
      if ty in t.events {
        var q := t.events[ty];
        LinkTailOther(t, r, q, listener, once, capture, passive);
        RegistrationsFrame(t.nodes, t1.nodes, RootChain(t, q));
      }
    }
  }

  /** Adding a further listener for a mapped type keeps the invariant. */
  lemma AddLastValid(t: Target, eventType: EventType, listener: ListenerValue, once: bool, capture: bool, passive: bool)
    requires Valid(t) && eventType in t.events
    requires !Registered(Registrations(t, eventType), listener, capture)
    ensures Valid(AddLast(t, t.events[eventType], listener, once, capture, passive))
    ensures Evolves(t, AddLast(t, t.events[eventType], listener, once, capture, passive))
  {
    var r := t.events[eventType];
    var t2 := AddSize(LinkTail(t, r, listener, once, capture, passive), r, 1);
    IdentitiesRegistered(t.nodes, RootChain(t, r), listener, capture);
    AppendValid(t, r, listener, once, capture, passive);
    NewListenerKeeps(t2, t2.roots[r].size);
    EvolvesTransitive(t, t2, AddLast(t, r, listener, once, capture, passive));
  }

  /** Adding a further listener for a mapped type puts it last in the list,
      leaves other types and the event names alone, and raises the leak
      warning when the new count exceeds a positive maximum. */
  lemma AddLastRegistrations(t: Target, eventType: EventType, listener: ListenerValue, once: bool, capture: bool, passive: bool)
    requires Valid(t) && eventType in t.events
    requires !Registered(Registrations(t, eventType), listener, capture)
    ensures Indexed(AddLast(t, t.events[eventType], listener, once, capture, passive))
    ensures Registrations(AddLast(t, t.events[eventType], listener, once, capture, passive), eventType)
      == Registrations(t, eventType) + [Registration(listener, once, capture, passive)]
    ensures forall ty | ty != eventType ::
      Registrations(AddLast(t, t.events[eventType], listener, once, capture, passive), ty) == Registrations(t, ty)
    ensures EventNames(AddLast(t, t.events[eventType], listener, once, capture, passive)) == EventNames(t)
    ensures AddLast(t, t.events[eventType], listener, once, capture, passive).maxListenersWarned <==>
      (t.maxListenersWarned || (t.maxListeners > 0 && |Registrations(t, eventType)| + 1 > t.maxListeners))
  {
    var r := t.events[eventType];
    var t2 := AddSize(LinkTail(t, r, listener, once, capture, passive), r, 1);
    AppendRegistrations(t, eventType, listener, once, capture, passive);
    LinkTailEffect(t, r, listener, once, capture, passive);
    NewListenerKeeps(t2, t2.roots[r].size);
    assert ListenerCount(t, eventType) == |Registrations(t, eventType)|;
  }

  /** `events.set(type, root)` maps `type` to the chain of `root` and leaves
      every other type's registrations alone. */
  lemma RegisterKeeps(t: Target, eventType: EventType, r: nat)
    requires Indexed(t) && r < |t.roots|
    ensures Indexed(Register(t, eventType, r))
    ensures Registrations(Register(t, eventType, r), eventType) == RegistrationsAt(t.nodes, RootChain(t, r))
    ensures forall ty | ty != eventType :: Registrations(Register(t, eventType, r), ty) == Registrations(t, ty)
  {
    SameArenas(t, Register(t, eventType, r));
  }

  /** Linking the first node under a new root, before the type is mapped,
      leaves the registrations of every type alone. */
  lemma NewRootOthers(t: Target, listener: ListenerValue, once: bool, capture: bool, passive: bool)
    requires Valid(t)
    ensures forall ty :: Registrations(LinkTail(AddRoot(t), |t.roots|, listener, once, capture, passive), ty) == Registrations(t, ty)
  {
    var r := |t.roots|;
    var t1 := AddRoot(t);
    var t2 := LinkTail(t1, r, listener, once, capture, passive);
    AddRootWired(t);
    NewRootValid(t, listener, once, capture, passive);
    LinkTailEffect(t1, r, listener, once, capture, passive);
    forall ty | ty in t.events
      ensures Registrations(t2, ty) == Registrations(t, ty)
    {
      var q := t.events[ty];
      LinkTailOther(t1, r, q, listener, once, capture, passive);
      RegistrationsFrame(t.nodes, t2.nodes, RootChain(t, q));
    }
  }

  /** The first listener of an unmapped type keeps the invariant. */
  lemma AddFirstValid(t: Target, eventType: EventType, listener: ListenerValue, once: bool, capture: bool, passive: bool)
    requires Valid(t) && eventType !in t.events
    ensures Valid(AddFirst(t, eventType, listener, once, capture, passive))
    ensures Evolves(t, AddFirst(t, eventType, listener, once, capture, passive))
  {
    var r := |t.roots|;
    var t2 := LinkTail(AddRoot(t), r, listener, once, capture, passive);
    var t3 := NewListener(t2, 1);
    var t4 := Register(t3, eventType, r);
    NewRootValid(t, listener, once, capture, passive);
    NewListenerKeeps(t2, 1);
    RegisterValid(t3, eventType, r);
    EvolvesTransitive(t, t2, t3);
    EvolvesTransitive(t, t3, t4);
  }

  /** The first listener of an unmapped type is its only registration, the
      type goes last in the event names, every other type keeps its
      registrations, and the leak warning is raised only by a maximum below
      one. */
  lemma AddFirstRegistrations(t: Target, eventType: EventType, listener: ListenerValue, once: bool, capture: bool, passive: bool)
    requires Valid(t) && eventType !in t.events
    ensures Indexed(AddFirst(t, eventType, listener, once, capture, passive))
    ensures Registrations(AddFirst(t, eventType, listener, once, capture, passive), eventType) == [Registration(listener, once, capture, passive)]
    ensures forall ty | ty != eventType :: Registrations(AddFirst(t, eventType, listener, once, capture, passive), ty) == Registrations(t, ty)
    ensures EventNames(AddFirst(t, eventType, listener, once, capture, passive)) == EventNames(t) + [eventType]
    ensures AddFirst(t, eventType, listener, once, capture, passive).maxListenersWarned <==>
      (t.maxListenersWarned || (t.maxListeners > 0 && 1 > t.maxListeners))
  {
    var r := |t.roots|;
    var t1 := AddRoot(t);
    var t2 := LinkTail(t1, r, listener, once, capture, passive);
    var t3 := NewListener(t2, 1);
    assert RootChain(t1, r) == [];
    LinkTailChain(t1, r, listener, once, capture, passive);
    LinkTailEffect(t1, r, listener, once, capture, passive);
    NewListenerKeeps(t2, 1);
    RegisterKeeps(t3, eventType, r);
    NewRootOthers(t, listener, once, capture, passive);
    assert RegistrationsAt(t3.nodes, [|t.nodes|]) == [Registration(listener, once, capture, passive)];
  }

  /** `addEventListener` with an accepted listener keeps the invariant. */
  lemma AddEventListenerValid(t: Target, eventType: EventType, listener: ListenerValue, options: Option<ListenerOptions>, t': Target)
    requires Valid(t) && ShouldAddListener(listener) == Ok(true)
    requires AddEventListener(t, eventType, Some(listener), options) == (t', Completed)
    ensures Valid(t') && Evolves(t, t')
  {
    var once, capture, passive := AddOnce(options), AddCapture(options), AddPassive(options);
    if eventType !in t.events {
      AddFirstValid(t, eventType, listener, once, capture, passive);
    } else {
      var r := t.events[eventType];
      FirstMatchRegistered(t.nodes, RootChain(t, r), listener, capture);
      if Registered(Registrations(t, eventType), listener, capture) {
        EvolvesReflexive(t);
      } else {
        AddLastValid(t, eventType, listener, once, capture, passive);
      }
    }
  }

  /** `addEventListener` with an accepted listener: a registration not yet
      present for `type` goes last in its list, a duplicate is ignored, and
      other types are untouched. */
  lemma AddEventListenerAccepted(t: Target, eventType: EventType, listener: ListenerValue, options: Option<ListenerOptions>, t': Target)
    requires Valid(t) && ShouldAddListener(listener) == Ok(true)
    requires AddEventListener(t, eventType, Some(listener), options) == (t', Completed)
    ensures Indexed(t')
    ensures Registrations(t', eventType) ==
      if Registered(Registrations(t, eventType), listener, AddCapture(options)) then Registrations(t, eventType)
      else Registrations(t, eventType) + [Registration(listener, AddOnce(options), AddCapture(options), AddPassive(options))]
    ensures forall ty | ty != eventType :: Registrations(t', ty) == Registrations(t, ty)
  {
    if eventType !in t.events {
      AddAcceptedNew(t, eventType, listener, options, t');
    } else {
      AddAcceptedKnown(t, eventType, listener, options, t');
    }
  }

  /** `AddEventListenerAccepted` for a type not yet in the map. */
  lemma AddAcceptedNew(t: Target, eventType: EventType, listener: ListenerValue, options: Option<ListenerOptions>, t': Target)
    requires Valid(t) && ShouldAddListener(listener) == Ok(true) && eventType !in t.events
    requires AddEventListener(t, eventType, Some(listener), options) == (t', Completed)
    ensures Indexed(t')
    ensures Registrations(t', eventType) == [Registration(listener, AddOnce(options), AddCapture(options), AddPassive(options))]
    ensures forall ty | ty != eventType :: Registrations(t', ty) == Registrations(t, ty)
  {
    var once, capture, passive := AddOnce(options), AddCapture(options), AddPassive(options);
    assert t' == AddFirst(t, eventType, listener, once, capture, passive);
    AddFirstRegistrations(t, eventType, listener, once, capture, passive);
  }

  /** `AddEventListenerAccepted` for a type already in the map. */
  lemma AddAcceptedKnown(t: Target, eventType: EventType, listener: ListenerValue, options: Option<ListenerOptions>, t': Target)
    requires Valid(t) && ShouldAddListener(listener) == Ok(true) && eventType in t.events
    requires AddEventListener(t, eventType, Some(listener), options) == (t', Completed)
    ensures Indexed(t')
    ensures Registrations(t', eventType) ==
      if Registered(Registrations(t, eventType), listener, AddCapture(options)) then Registrations(t, eventType)
      else Registrations(t, eventType) + [Registration(listener, AddOnce(options), AddCapture(options), AddPassive(options))]
    ensures forall ty | ty != eventType :: Registrations(t', ty) == Registrations(t, ty)
  {
    var once, capture, passive := AddOnce(options), AddCapture(options), AddPassive(options);
    var r := t.events[eventType];
    FirstMatchRegistered(t.nodes, RootChain(t, r), listener, capture);
    if !Registered(Registrations(t, eventType), listener, capture) {
      assert t' == AddLast(t, r, listener, once, capture, passive);
      AddLastRegistrations(t, eventType, listener, once, capture, passive);
    }
  }

  /** `addEventListener` with an accepted listener puts a new type last in
      the event names, and raises the leak warning once a new registration
      makes the count of its type exceed a positive maximum. */
  lemma AddEventListenerNames(t: Target, eventType: EventType, listener: ListenerValue, options: Option<ListenerOptions>, t': Target)
    requires Valid(t) && ShouldAddListener(listener) == Ok(true)
    requires AddEventListener(t, eventType, Some(listener), options) == (t', Completed)
    ensures EventNames(t') == if eventType in t.events then EventNames(t) else EventNames(t) + [eventType]
    ensures t'.maxListenersWarned <==> (t.maxListenersWarned ||
      (!Registered(Registrations(t, eventType), listener, AddCapture(options)) && t.maxListeners > 0 && |Registrations(t, eventType)| + 1 > t.maxListeners))
  {
    var once, capture, passive := AddOnce(options), AddCapture(options), AddPassive(options);
    if eventType !in t.events {
      assert t' == AddFirst(t, eventType, listener, once, capture, passive);
      AddFirstRegistrations(t, eventType, listener, once, capture, passive);
    } else {
      var r := t.events[eventType];
      FirstMatchRegistered(t.nodes, RootChain(t, r), listener, capture);
      if !Registered(Registrations(t, eventType), listener, capture) {
        assert t' == AddLast(t, r, listener, once, capture, passive);
        AddLastRegistrations(t, eventType, listener, once, capture, passive);
      }
    }
  }

  /** Adding a listener already registered with the same capture flag leaves
      the whole target as it was: no node, no count change, and the existing
      node keeps its own `once` and `passive`. */
  lemma AddDuplicateUnchanged(t: Target, eventType: EventType, listener: ListenerValue, options: Option<ListenerOptions>)
    requires Indexed(t) && ShouldAddListener(listener) == Ok(true)
    requires Registered(Registrations(t, eventType), listener, AddCapture(options))
    ensures AddEventListener(t, eventType, Some(listener), options) == (t, Completed)
  {
    if eventType in t.events {
      FirstMatchRegistered(t.nodes, RootChain(t, t.events[eventType]), listener, AddCapture(options));
    }
  }

  // ---------------------------------------------------------------------
  // removeEventListener

  /** Unlinking the node at position `k` of chain `r` drops the registration
      at position `k` and leaves every other chain alone. */
  lemma UnlinkRegistrations(t: Target, r: nat, k: nat)
    requires Valid(t) && r < |t.roots| && k < |RootChain(t, r)|
    ensures RegistrationsAt(Unlink(t, RootChain(t, r)[k], r).nodes, RootChain(Unlink(t, RootChain(t, r)[k], r), r))
      == RegistrationsAt(t.nodes, RootChain(t, r))[..k] + RegistrationsAt(t.nodes, RootChain(t, r))[k + 1..]
    ensures forall q | 0 <= q < |t.roots| && q != r ::
      RegistrationsAt(Unlink(t, RootChain(t, r)[k], r).nodes, RootChain(Unlink(t, RootChain(t, r)[k], r), q))
        == RegistrationsAt(t.nodes, RootChain(t, q))
  {
    var w := RootChain(t, r);
    var t' := Unlink(t, w[k], r);
    assert ChainOk(t, r);
    UnlinkOwnChain(t, r, k);
    UnlinkEvolves(t, r, k);
    RegistrationsRemove(t.nodes, w, k);
    RegistrationsFrame(t.nodes, t'.nodes, w[..k] + w[k + 1..]);
    forall q | 0 <= q < |t.roots| && q != r
      ensures RegistrationsAt(t'.nodes, RootChain(t', q)) == RegistrationsAt(t.nodes, RootChain(t, q))
    {
      UnlinkOtherChain(t, r, k, q);
      RegistrationsFrame(t.nodes, t'.nodes, RootChain(t, q));
    }
  }

  /** Removing a registered node keeps the invariant. */
  lemma RemoveNodeValid(t: Target, eventType: EventType, k: nat)
    requires Valid(t) && eventType in t.events && k < |Chain(t, eventType)|
    ensures Valid(RemoveNode(t, eventType, t.events[eventType], Chain(t, eventType)[k]))
    ensures Evolves(t, RemoveNode(t, eventType, t.events[eventType], Chain(t, eventType)[k]))
  {
    var r := t.events[eventType];
    var t1 := Unlink(t, RootChain(t, r)[k], r);
    UnlinkValid(t, r, k);
    if t1.roots[r].size == 0 {
      UnregisterValid(t1, eventType);
      EvolvesTransitive(t, t1, Unregister(t1, eventType));
    }
  }

  /** Unlinking keeps the count of the chain equal to its length. */
  lemma UnlinkCount(t: Target, r: nat, k: nat)
    requires Indexed(t) && r < |t.roots| && k < |RootChain(t, r)| && ChainOk(t, r)
    ensures Unlink(t, RootChain(t, r)[k], r).roots[r].size == |RootChain(Unlink(t, RootChain(t, r)[k], r), r)|
    ensures |RootChain(Unlink(t, RootChain(t, r)[k], r), r)| == |RootChain(t, r)| - 1
  {
    UnlinkOwnChain(t, r, k);
    UnlinkRoots(t, RootChain(t, r)[k], r);
  }

  /** Removing the node at position `k` of a type's list drops the
      registration at position `k`. */
  lemma RemoveNodeRegistrations(t: Target, eventType: EventType, k: nat)
    requires Valid(t) && eventType in t.events && k < |Chain(t, eventType)|
    ensures Indexed(RemoveNode(t, eventType, t.events[eventType], Chain(t, eventType)[k]))
    ensures Registrations(RemoveNode(t, eventType, t.events[eventType], Chain(t, eventType)[k]), eventType)
      == Registrations(t, eventType)[..k] + Registrations(t, eventType)[k + 1..]
  {
    var r := t.events[eventType];
    var t1 := Unlink(t, RootChain(t, r)[k], r);
    assert ChainOk(t, r);
    UnlinkCount(t, r, k);
    UnlinkRoots(t, RootChain(t, r)[k], r);
    UnlinkRegistrations(t, r, k);
  }

  /** Removing a node of one type leaves every other type alone. */
  lemma RemoveNodeOthers(t: Target, eventType: EventType, k: nat)
    requires Valid(t) && eventType in t.events && k < |Chain(t, eventType)|
    ensures Indexed(RemoveNode(t, eventType, t.events[eventType], Chain(t, eventType)[k]))
    ensures forall ty | ty != eventType ::
      Registrations(RemoveNode(t, eventType, t.events[eventType], Chain(t, eventType)[k]), ty) == Registrations(t, ty)
  {
    forall ty | ty != eventType
      ensures Registrations(RemoveNode(t, eventType, t.events[eventType], Chain(t, eventType)[k]), ty) == Registrations(t, ty)
    {
      RemoveNodeOther(t, eventType, k, ty);
    }
  }

  lemma RemoveNodeOther(t: Target, eventType: EventType, k: nat, ty: EventType)
    requires Valid(t) && eventType in t.events && k < |Chain(t, eventType)| && ty != eventType
    ensures Indexed(RemoveNode(t, eventType, t.events[eventType], Chain(t, eventType)[k]))
    ensures Registrations(RemoveNode(t, eventType, t.events[eventType], Chain(t, eventType)[k]), ty) == Registrations(t, ty)
  {
    var r := t.events[eventType];
    var t1 := Unlink(t, RootChain(t, r)[k], r);
    UnlinkRoots(t, RootChain(t, r)[k], r);
    UnlinkRegistrations(t, r, k);
    var t' := RemoveNode(t, eventType, r, RootChain(t, r)[k]);
    SameArenas(t1, t');
    if ty in t.events {
      assert t.events[ty] != r;
    }
  }

  /** Removing the last registration of a type drops the type from the
      event names; removing another leaves them alone. */
  lemma RemoveNodeNames(t: Target, eventType: EventType, k: nat)
    requires Valid(t) && eventType in t.events && k < |Chain(t, eventType)|
    ensures EventNames(RemoveNode(t, eventType, t.events[eventType], Chain(t, eventType)[k]))
      == if |Registrations(t, eventType)| == 1 then Without(EventNames(t), eventType) else EventNames(t)
  {
    var r := t.events[eventType];
    assert ChainOk(t, r);
    UnlinkCount(t, r, k);
  }

  /** `removeEventListener` with an accepted listener keeps the invariant. */
  lemma RemoveEventListenerValid(t: Target, eventType: EventType, listener: ListenerValue, options: Option<ListenerOptions>, t': Target)
    requires Valid(t) && ShouldAddListener(listener) == Ok(true)
    requires RemoveEventListener(t, eventType, listener, options) == (t', Completed)
    ensures Valid(t') && Evolves(t, t')
  {
    var capture := RemoveCapture(options);
    if eventType !in t.events || t.roots[t.events[eventType]].next.None? {
      EvolvesReflexive(t);
    } else {
      var r := t.events[eventType];
      match FirstMatch(t.nodes, RootChain(t, r), listener, capture)
      case None => EvolvesReflexive(t);
      case Some(k) => RemoveNodeValid(t, eventType, k);
    }
  }

  /** `removeEventListener` with an accepted listener drops the first
      registration of `listener` with the given capture flag from the list
      of `type`, and leaves every other type alone. */
  lemma RemoveEventListenerRemoves(t: Target, eventType: EventType, listener: ListenerValue, options: Option<ListenerOptions>, t': Target)
    requires Valid(t) && ShouldAddListener(listener) == Ok(true)
    requires RemoveEventListener(t, eventType, listener, options) == (t', Completed)
    ensures Indexed(t')
    ensures Registrations(t', eventType) == RemoveFirst(Registrations(t, eventType), listener, RemoveCapture(options))
    ensures forall ty | ty != eventType :: Registrations(t', ty) == Registrations(t, ty)
  {
    var capture := RemoveCapture(options);
    var w := Chain(t, eventType);
    var regs := Registrations(t, eventType);
    FirstMatchRegistered(t.nodes, w, listener, capture);
    if eventType in t.events && t.roots[t.events[eventType]].next.Some? {
      var r := t.events[eventType];
      assert w == RootChain(t, r);
      match FirstMatch(t.nodes, w, listener, capture)
      case None =>
        assert t' == t;
      case Some(k) =>
        assert t' == RemoveNode(t, eventType, r, w[k]);
        RemoveFirstMatch(t, eventType, listener, capture);
    } else {
      assert t' == t;
    }
  }

  /** Removing the first match of a type takes its registration out of that
      type's list and leaves every other type's list alone. */
  lemma RemoveFirstMatch(t: Target, eventType: EventType, listener: ListenerValue, capture: bool)
    requires Valid(t) && eventType in t.events
    requires FirstMatch(t.nodes, Chain(t, eventType), listener, capture).Some?
    ensures var w := Chain(t, eventType);
      var t' := RemoveNode(t, eventType, t.events[eventType], w[FirstMatch(t.nodes, w, listener, capture).value]);
      && Indexed(t')
      && Registrations(t', eventType) == RemoveFirst(Registrations(t, eventType), listener, capture)
      && forall ty | ty != eventType :: Registrations(t', ty) == Registrations(t, ty)
  {
    var w := Chain(t, eventType);
    var k := FirstMatch(t.nodes, w, listener, capture).value;
    RemoveNodeRegistrations(t, eventType, k);
    RemoveNodeOthers(t, eventType, k);
    FirstMatchRemoveFirst(t.nodes, w, listener, capture);
    RegistrationsRemove(t.nodes, w, k);
  }

  /** `removeEventListener` drops `type` from the event names exactly when
      it removes the last registration of that type. */
  lemma RemoveEventListenerNames(t: Target, eventType: EventType, listener: ListenerValue, options: Option<ListenerOptions>, t': Target)
    requires Valid(t) && ShouldAddListener(listener) == Ok(true)
    requires RemoveEventListener(t, eventType, listener, options) == (t', Completed)
    ensures EventNames(t') ==
      if Registered(Registrations(t, eventType), listener, RemoveCapture(options)) && |Registrations(t, eventType)| == 1
      then Without(EventNames(t), eventType)
      else EventNames(t)
  {
    var capture := RemoveCapture(options);
    var w := Chain(t, eventType);
    FirstMatchRegistered(t.nodes, w, listener, capture);
    if eventType in t.events && t.roots[t.events[eventType]].next.Some? {
      match FirstMatch(t.nodes, w, listener, capture)
      case None =>
      case Some(k) => RemoveNodeNames(t, eventType, k);
    }
  }

  // ---------------------------------------------------------------------
  // removeAllEventListeners

  /** `removeAllEventListeners` keeps the invariant. */
  lemma RemoveAllValid(t: Target, eventType: Option<EventType>)
    requires Valid(t)
    ensures Valid(RemoveAllEventListeners(t, eventType))
    ensures Evolves(t, RemoveAllEventListeners(t, eventType))
  {
    match eventType
    case Some(ty) => UnregisterValid(t, ty);
    case None => SameArenas(t, RemoveAllEventListeners(t, eventType));
  }

  /** `removeAllEventListeners(type)` empties the list of `type` and drops it
      from the event names; without a type it empties every list and the
      names. Other types keep their lists. */
  lemma RemoveAllRegistrations(t: Target, eventType: Option<EventType>)
    requires Valid(t)
    ensures Indexed(RemoveAllEventListeners(t, eventType))
    ensures forall ty | eventType.None? || ty == eventType.value :: Registrations(RemoveAllEventListeners(t, eventType), ty) == []
    ensures forall ty | eventType.Some? && ty != eventType.value ::
      Registrations(RemoveAllEventListeners(t, eventType), ty) == Registrations(t, ty)
    ensures EventNames(RemoveAllEventListeners(t, eventType)) == if eventType.Some? then Without(EventNames(t), eventType.value) else []
  {
    SameArenas(t, RemoveAllEventListeners(t, eventType));
  }

  // ---------------------------------------------------------------------
  // Adding then removing

  /** Dropping a type that is not listed from a list that ends with it gives
      back the list. */
  lemma {:induction false} WithoutAppended(keys: seq<EventType>, eventType: EventType)
    requires eventType !in keys
    ensures Without(keys + [eventType], eventType) == keys
  {
    if keys != [] {
      assert (keys + [eventType])[1..] == keys[1..] + [eventType];
      WithoutAppended(keys[1..], eventType);
    }
  }

  /** Dropping a type that is not listed changes nothing. */
  lemma {:induction false} WithoutAbsent(keys: seq<EventType>, eventType: EventType)
    requires eventType !in keys
    ensures Without(keys, eventType) == keys
  {
    if keys != [] {
      WithoutAbsent(keys[1..], eventType);
      assert [keys[0]] + keys[1..] == keys;
    }
  }

  /** Removing the first match from a list whose only match is the last
      element drops that element. */
  lemma RemoveFirstAppended(regs: seq<Registration>, reg: Registration)
    requires !Registered(regs, reg.listener, reg.capture)
    ensures RemoveFirst(regs + [reg], reg.listener, reg.capture) == regs
  {
    var s := regs + [reg];
    forall j | 0 <= j < |regs|
      ensures !(s[j].listener == reg.listener && s[j].capture == reg.capture)
    {
      assert s[j] == regs[j];
    }
    RemoveFirstAt(s, reg.listener, reg.capture, |regs|);
    assert s[..|regs|] == regs;
  }

  /** Adding a listener not yet registered for `type` and then removing it
      with the same options gives back every list of registrations. */
  lemma AddThenRemove(t: Target, eventType: EventType, listener: ListenerValue, options: Option<ListenerOptions>, t1: Target, t2: Target)
    requires Valid(t) && ShouldAddListener(listener) == Ok(true)
    requires !Registered(Registrations(t, eventType), listener, AddCapture(options))
    requires AddEventListener(t, eventType, Some(listener), options) == (t1, Completed)
    requires RemoveEventListener(t1, eventType, listener, options) == (t2, Completed)
    ensures Valid(t2)
    ensures forall ty :: Registrations(t2, ty) == Registrations(t, ty)
  {
    assert Valid(t1) by {
      AddEventListenerValid(t, eventType, listener, options, t1);
    }
    RemoveEventListenerValid(t1, eventType, listener, options, t2);
    AddThenRemoveRegistrations(t, eventType, listener, options, t1, t2);
  }

  lemma AddThenRemoveRegistrations(t: Target, eventType: EventType, listener: ListenerValue, options: Option<ListenerOptions>, t1: Target, t2: Target)
    requires Valid(t) && Valid(t1) && ShouldAddListener(listener) == Ok(true)
    requires !Registered(Registrations(t, eventType), listener, AddCapture(options))
    requires AddEventListener(t, eventType, Some(listener), options) == (t1, Completed)
    requires RemoveEventListener(t1, eventType, listener, options) == (t2, Completed)
    ensures Indexed(t2)
    ensures forall ty :: Registrations(t2, ty) == Registrations(t, ty)
  {
    var regs := Registrations(t, eventType);
    var reg := Registration(listener, AddOnce(options), AddCapture(options), AddPassive(options));
    AddEventListenerAccepted(t, eventType, listener, options, t1);
    CaptureReadsAgree(options);
    RemoveEventListenerRemoves(t1, eventType, listener, options, t2);
    RemoveFirstAppended(regs, reg);
  }

  /** Adding a listener not yet registered for `type` and then removing it
      with the same options gives back the event names, except that a type
      left mapped with no registrations (a `once` listener having fired) is
      dropped: the removal brings its count back to 0. */
  lemma AddThenRemoveNames(t: Target, eventType: EventType, listener: ListenerValue, options: Option<ListenerOptions>, t1: Target, t2: Target)
    requires Valid(t) && ShouldAddListener(listener) == Ok(true)
    requires !Registered(Registrations(t, eventType), listener, AddCapture(options))
    requires AddEventListener(t, eventType, Some(listener), options) == (t1, Completed)
    requires RemoveEventListener(t1, eventType, listener, options) == (t2, Completed)
    ensures EventNames(t2) == if Registrations(t, eventType) == [] then Without(EventNames(t), eventType) else EventNames(t)
  {
    var regs := Registrations(t, eventType);
    var reg := Registration(listener, AddOnce(options), AddCapture(options), AddPassive(options));
    AddEventListenerValid(t, eventType, listener, options, t1);
    AddEventListenerAccepted(t, eventType, listener, options, t1);
    AddEventListenerNames(t, eventType, listener, options, t1);
    CaptureReadsAgree(options);
    RemoveEventListenerNames(t1, eventType, listener, options, t2);
    assert Registrations(t1, eventType) == regs + [reg];
    assert Registered(regs + [reg], listener, AddCapture(options)) by {
      assert (regs + [reg])[|regs|] == reg;
    }
    if eventType !in t.events {
      assert regs == [];
      EventNamesAreTypes(t);
      WithoutAppended(EventNames(t), eventType);
      WithoutAbsent(EventNames(t), eventType);
    }
  }
}
