/** `EventTarget` as an object. Its fields hold the registry state; the
    methods walk and rewire the chains step by step as the loops of
    `addEventListener`, `removeEventListener` and `dispatchEvent` do, and each
    is proved to leave exactly the state the registry functions describe. */
module EventTargets {
  import opened Values
  import opened Chains
  import R = Registry
  import D = Dispatch
  import opened Events

  /** What `dispatchEvent` ends with: it throws, it runs past the fuel bound,
      or it returns, having run the callbacks of `fired` in that order. */
  datatype Dispatched = Rejected(error: Error) | Exhausted | Returned(result: bool, fired: seq<nat>)

  /** `fired` in front of what the rest of a walk delivers. */
  function Prepend(fired: seq<nat>, w: Option<D.Walked>): Option<D.Walked> {
    match w
    case None => None
    case Some(x) => Some(x.(fired := fired + x.fired))
  }

  lemma PrependEmpty(w: Option<D.Walked>)
    ensures Prepend([], w) == w
  {
    if w.Some? {
      assert [] + w.value.fired == w.value.fired;
    }
  }

  /** Once the walk stops, what it delivered is what it fired so far. */
  lemma StopStep(t: R.Target, e: D.Event, r: nat, handler: Option<nat>, behaviour: D.Behaviour, fuel: nat, fired: seq<nat>)
    requires R.Indexed(t) && r < |t.roots| && (handler.Some? ==> handler.value < |t.nodes|)
    requires !D.Continues(t, e, handler)
    ensures Prepend(fired, D.Deliver(t, e, r, handler, behaviour, fuel)) == Some(D.Walked(t, e, fired))
  {
    assert fired + [] == fired;
  }

  /** A flagged node is skipped: nothing fires and nothing changes. */
  lemma SkipStep(t: R.Target, e: D.Event, r: nat, h: nat, behaviour: D.Behaviour, fuel: nat, fired: seq<nat>)
    requires R.Indexed(t) && r < |t.roots| && h < |t.nodes|
    requires D.Continues(t, e, Some(h)) && fuel > 0 && t.nodes[h].removed
    ensures Prepend(fired, D.Deliver(t, e, r, Some(h), behaviour, fuel))
      == Prepend(fired, D.Deliver(t, e, r, t.nodes[h].next, behaviour, fuel - 1))
  {
  }

  /** Visiting a live node `h` and then walking on from its cached `next`
      is firing `h` after `fired`. */
  lemma FireStep(t: R.Target, e: D.Event, r: nat, h: nat, behaviour: D.Behaviour, fuel: nat, fired: seq<nat>)
    requires R.Indexed(t) && r < |t.roots| && h < |t.nodes|
    requires D.Continues(t, e, Some(h)) && fuel > 0 && !t.nodes[h].removed
    ensures var s := D.Visit(t, e, r, h, behaviour);
      && (t.nodes[h].next.Some? ==> t.nodes[h].next.value < |s.0.nodes|)
      && Prepend(fired, D.Deliver(t, e, r, Some(h), behaviour, fuel))
        == Prepend(fired + [h], D.Deliver(s.0, s.1, r, t.nodes[h].next, behaviour, fuel - 1))
  {
    var s := D.Visit(t, e, r, h, behaviour);
    var w := D.Deliver(s.0, s.1, r, t.nodes[h].next, behaviour, fuel - 1);
    if w.Some? {
      assert fired + ([h] + w.value.fired) == fired + [h] + w.value.fired;
    }
  }

  /** The walk loop of `addEventListener` over the chain that starts at
      `head` under the link `root`: whether it holds a node with this
      listener and capture and, when it does not, the link the walk ended
      on, the chain's last node, or `root` when the chain is empty. */
  method FindTail(nodes: seq<Node>, head: Option<nat>, root: Link, listener: ListenerValue, capture: bool) returns (found: bool, previous: Link)
    requires Linked(nodes) && (head.Some? ==> head.value < |nodes|)
    ensures var w := Walk(nodes, head);
      && (found <==> R.FirstMatch(nodes, w, listener, capture).Some?)
      && (!found ==> previous == if w == [] then root else NodeLink(w[|w| - 1]))
  {
    var handler := head;
    previous := root;
    ghost var w := Walk(nodes, head);
    ghost var k := 0;
    while handler.Some? && !Same(nodes[handler.value], listener, capture)
      invariant 0 <= k <= |w|
      invariant handler.Some? ==> handler.value < |nodes|
      invariant handler == if k < |w| then Some(w[k]) else None
      invariant forall j | 0 <= j < k :: !Same(nodes[w[j]], listener, capture)
      invariant previous == if k == 0 then root else NodeLink(w[k - 1])
      decreases |w| - k
    {
      WalkNext(nodes, head, k);
      previous := NodeLink(handler.value);
      handler := nodes[handler.value].next;
      k := k + 1;
    }
    found := handler.Some?;
    if found {
      assert Same(nodes[w[k]], listener, capture);
    }
  }

  /** The walk loop of `removeEventListener` over the chain that starts at
      `head`: its first node with this listener and capture, if any. */
  method Find(nodes: seq<Node>, head: Option<nat>, listener: ListenerValue, capture: bool) returns (handler: Option<nat>)
    requires Linked(nodes) && (head.Some? ==> head.value < |nodes|)
    ensures var w := Walk(nodes, head);
      match R.FirstMatch(nodes, w, listener, capture)
      case None => handler.None?
      case Some(k) => handler == Some(w[k])
  {
    handler := head;
    ghost var w := Walk(nodes, head);
    ghost var k := 0;
    while handler.Some?
      invariant 0 <= k <= |w|
      invariant handler.Some? ==> handler.value < |nodes|
      invariant handler == if k < |w| then Some(w[k]) else None
      invariant forall j | 0 <= j < k :: !Same(nodes[w[j]], listener, capture)
      decreases |w| - k
    {
      WalkNext(nodes, head, k);
      if Same(nodes[handler.value], listener, capture) {
        FirstMatchAt(nodes, w, k, listener, capture);
        return;
      }
      handler := nodes[handler.value].next;
      k := k + 1;
    }
  }

  /** The first matching position is the one before which nothing
      matches. */
  lemma FirstMatchAt(nodes: seq<Node>, w: seq<nat>, k: nat, listener: ListenerValue, capture: bool)
    requires forall j | 0 <= j < |w| :: w[j] < |nodes|
    requires k < |w| && Same(nodes[w[k]], listener, capture)
    requires forall j | 0 <= j < k :: !Same(nodes[w[j]], listener, capture)
    ensures R.FirstMatch(nodes, w, listener, capture) == Some(k)
  {
    assert R.FirstMatch(nodes, w, listener, capture).Some?;
  }

  class EventTarget {
    var roots: seq<Root>
    var nodes: seq<Node>
    var events: map<EventType, nat>
    var keys: seq<EventType>
    var maxListeners: int
    var maxListenersWarned: bool

    /** The fields as a value. */
    function Model(): R.Target
      reads this
    {
      R.Target(roots, nodes, events, keys, maxListeners, maxListenersWarned)
    }

    ghost predicate Indexed()
      reads this
    {
      R.Indexed(Model())
    }

    ghost predicate Valid()
      reads this
    {
      R.Valid(Model())
    }

    /** `new EventTarget()`: an empty map, not warned, and the maximum read
        from the static `defaultMaxListeners`, passed in here. */
    constructor (defaultMaxListeners: int)
      ensures Model() == R.Empty(defaultMaxListeners)
      ensures Valid()
    {
      roots := [];
      nodes := [];
      events := map[];
      keys := [];
      maxListeners := defaultMaxListeners;
      maxListenersWarned := false;
    }

    // -------------------------------------------------------------------
    // ListenerNode

    /** `previous.next = next`, where `previous` is a root or a node. */
    method SetNext(previous: Link, next: Option<nat>)
      modifies this
      requires R.LinkIn(Model(), previous)
      ensures Model() == R.SetNext(old(Model()), previous, next)
    {
      match previous
      case RootLink(r) =>
        roots := roots[r := roots[r].(next := next)];
      case NodeLink(p) =>
        nodes := nodes[p := nodes[p].(next := next)];
    }

    /** `new ListenerNode(previous, listener, once, capture, passive)`. */
    method NewNode(previous: Link, listener: ListenerValue, once: bool, capture: bool, passive: bool)
      modifies this
      requires Indexed() && R.LinkIn(Model(), previous)
      ensures Model() == R.LinkNode(old(Model()), previous, listener, once, capture, passive)
    {
      var i := |nodes|;
      nodes := nodes + [Node(listener, once, capture, passive, None, previous, false)];
      SetNext(previous, Some(i));
    }

    /** `ListenerNode.remove()`. */
    method Remove(h: nat)
      modifies this
      requires Indexed() && h < |nodes|
      ensures Model() == R.Splice(old(Model()), h)
    {
      var n := nodes[h];
      SetNext(n.previous, n.next);
      if n.next.Some? {
        nodes := nodes[n.next.value := nodes[n.next.value].(previous := n.previous)];
      }
      nodes := nodes[h := nodes[h].(removed := true)];
    }

    /** `handler.remove(); root.size--`. */
    method Unlink(h: nat, r: nat)
      modifies this
      requires Indexed() && h < |nodes| && r < |roots|
      ensures Model() == R.Unlink(old(Model()), h, r)
    {
      Remove(h);
      roots := roots[r := roots[r].(size := roots[r].size - 1)];
    }

    // -------------------------------------------------------------------
    // EventTarget

    /** `[kNewListener](size, type)`. */
    method NewListener(size: int)
      modifies this
      ensures Model() == R.NewListener(old(Model()), size)
    {
      if maxListeners > 0 && size > maxListeners && !maxListenersWarned {
        maxListenersWarned := true;
      }
    }

    /** `addEventListener(type, listener, options)`; `listener` is `None`
        when the call has fewer than two arguments. */
    method AddEventListener(eventType: EventType, listener: Option<ListenerValue>, options: Option<ListenerOptions>) returns (status: R.Status)
      modifies this
      requires Indexed()
      ensures (Model(), status) == R.AddEventListener(old(Model()), eventType, listener, options)
    {
      if listener.None? {
        return R.Threw(InvalidAddEventListener);
      }
      var l := listener.value;
      var once, capture, passive := AddOnce(options), AddCapture(options), AddPassive(options);
      var accepted := ShouldAddListener(l);
      if accepted.Err? {
        return R.Threw(accepted.error);
      }
      if !accepted.value {
        return R.Completed;
      }
      if eventType !in events {
        AddFirst(eventType, l, once, capture, passive);
        return R.Completed;
      }
      var r := events[eventType];
      var found, previous := FindTail(nodes, roots[r].next, RootLink(r), l, capture);
      if found {
        return R.Completed;
      }
      AddLast(r, previous, l, once, capture, passive);
      return R.Completed;
    }

    /** The first listener of a type: a root `{ size: 1 }` with one node,
        the leak check at size 1, then `events.set(type, root)`. */
    method AddFirst(eventType: EventType, listener: ListenerValue, once: bool, capture: bool, passive: bool)
      modifies this
      requires Indexed()
      ensures Model() == R.AddFirst(old(Model()), eventType, listener, once, capture, passive)
    {
      var r := |roots|;
      roots := roots + [Root(1, None)];
      assert R.TailLink(Model(), r) == RootLink(r);
      NewNode(RootLink(r), listener, once, capture, passive);
      NewListener(roots[r].size);
      events := events[eventType := r];
      keys := keys + [eventType];
    }

    /** A further listener, linked after `previous`, the link the walk ended
        on; then `root.size++` and the leak check at the new size. */
    method AddLast(r: nat, previous: Link, listener: ListenerValue, once: bool, capture: bool, passive: bool)
      modifies this
      requires Indexed() && r < |roots| && previous == R.TailLink(Model(), r)
      ensures Model() == R.AddLast(old(Model()), r, listener, once, capture, passive)
    {
      NewNode(previous, listener, once, capture, passive);
      roots := roots[r := roots[r].(size := roots[r].size + 1)];
      NewListener(roots[r].size);
    }

    /** `removeEventListener(type, listener, options)`; a missing listener
        is `Undefined`. */
    method RemoveEventListener(eventType: EventType, listener: ListenerValue, options: Option<ListenerOptions>) returns (status: R.Status)
      modifies this
      requires Indexed()
      ensures (Model(), status) == R.RemoveEventListener(old(Model()), eventType, listener, options)
    {
      var accepted := ShouldAddListener(listener);
      if accepted.Err? {
        return R.Threw(accepted.error);
      }
      if !accepted.value {
        return R.Completed;
      }
      var capture := RemoveCapture(options);
      if eventType !in events || roots[events[eventType]].next.None? {
        return R.Completed;
      }
      var r := events[eventType];
      var handler := Find(nodes, roots[r].next, listener, capture);
      if handler.Some? {
        Unlink(handler.value, r);
        if roots[r].size == 0 {
          events := events - {eventType};
          keys := R.Without(keys, eventType);
        }
      }
      return R.Completed;
    }

    /** Runs a callback: the effects of its script, in order, on this target
        and `event`, up to the first one that throws. */
    method RunCallback(event: Event, script: seq<D.Effect>)
      modifies this, event
      requires Indexed()
      ensures Indexed()
      ensures (Model(), event.State()) == D.RunScript(old(Model()), old(event.State()), script)
    {
      var i := 0;
      while i < |script|
        invariant 0 <= i <= |script| && Indexed()
        invariant D.RunScript(old(Model()), old(event.State()), script) == D.RunScript(Model(), event.State(), script[i..])
      {
        assert script[i..][0] == script[i] && script[i..][1..] == script[i + 1..];
        match script[i] {
          case CallPreventDefault =>
            event.PreventDefault();
          case CallStopImmediatePropagation =>
            event.StopImmediatePropagation();
          case CallAddEventListener(ty, l, o) =>
            var status := AddEventListener(ty, l, o);
            if status.Threw? {
              return;
            }
          case CallRemoveEventListener(ty, l, o) =>
            var status := RemoveEventListener(ty, l, o);
            if status.Threw? {
              return;
            }
          case CallRemoveAllEventListeners(ty) =>
            RemoveAllEventListeners(ty);
          case Throw =>
            return;
        }
        i := i + 1;
      }
    }

    /** `dispatchEvent(event)`; `event` is `null` for an argument that is
        not an `Event`. Each callback is the script `behaviour` gives its
        listener; `fuel` bounds the number of iterations. */
    method DispatchEvent(event: Event?, behaviour: D.Behaviour, fuel: nat) returns (d: Dispatched)
      modifies this, event
      requires Indexed()
      ensures Indexed()
      ensures event == null ==> d == Rejected(InvalidEvent) && Model() == old(Model())
      ensures event != null ==>
        match D.DispatchEvent(old(Model()), Some(old(event.State())), behaviour, fuel)
        case Rejected(_) => false
        case OutOfFuel => d == Exhausted
        case Returned(t, e, fired, result) => d == Returned(result, fired) && Model() == t && event.State() == e
    {
      if event == null {
        return Rejected(InvalidEvent);
      }
      event.target := D.ThisTarget;
      var ty := event.eventType;
      if ty !in events || roots[events[ty]].next.None? {
        return Returned(true, []);
      }
      var r := events[ty];
      var fired := Deliver(event, r, behaviour, fuel);
      if fired.None? {
        return Exhausted;
      }
      event.target := D.Cleared;
      return Returned(!event.DefaultPrevented(), fired.value);
    }

    /** The loop of `dispatchEvent` over chain `r`: the next node is read
        before the callback runs, flagged nodes are skipped, and the walk
        stops at the end of the chain or at a non-passive node once the
        event is stopped. `None` when `fuel` iterations do not suffice. */
    method Deliver(event: Event, r: nat, behaviour: D.Behaviour, fuel: nat) returns (fired: Option<seq<nat>>)
      modifies this, event
      requires Indexed() && r < |roots|
      ensures Indexed()
      ensures match D.Deliver(old(Model()), old(event.State()), r, old(roots[r].next), behaviour, fuel)
        case None => fired.None?
        case Some(w) => fired == Some(w.fired) && Model() == w.t && event.State() == w.e
    {
      var handler := roots[r].next;
      ghost var t0, e0 := Model(), event.State();
      var done: seq<nat> := [];
      PrependEmpty(D.Deliver(t0, e0, r, handler, behaviour, fuel));
      var left := fuel;
      while handler.Some? && (nodes[handler.value].passive || !event.stop)
        invariant Indexed() && r < |roots|
        invariant handler.Some? ==> handler.value < |nodes|
        invariant D.Deliver(t0, e0, r, t0.roots[r].next, behaviour, fuel)
          == Prepend(done, D.Deliver(Model(), event.State(), r, handler, behaviour, left))
        decreases left
      {
        if left == 0 {
          return None;
        }
        var h := handler.value;
        var next := nodes[h].next;
        if nodes[h].removed {
          SkipStep(Model(), event.State(), r, h, behaviour, left, done);
          handler := next;
          left := left - 1;
          continue;
        }
        ghost var m, ev := Model(), event.State();
        FireStep(m, ev, r, h, behaviour, left, done);
        Visit(event, r, h, behaviour);
        done := done + [h];
        handler := next;
        left := left - 1;
      }
      StopStep(Model(), event.State(), r, handler, behaviour, left, done);
      return Some(done);
    }

    /** One iteration of the dispatch loop on a node that is not flagged:
        a `once` node is unlinked first, then its callback runs. */
    method Visit(event: Event, r: nat, h: nat, behaviour: D.Behaviour)
      modifies this, event
      requires Indexed() && r < |roots| && h < |nodes|
      ensures Indexed()
      ensures (Model(), event.State()) == D.Visit(old(Model()), old(event.State()), r, h, behaviour)
    {
      var listener := nodes[h].listener;
      if nodes[h].once {
        Unlink(h, r);
      }
      RunCallback(event, behaviour(listener));
    }

    /** `setMaxListeners(n)`. */
    method SetMaxListeners(n: int)
      modifies this
      ensures Model() == R.SetMaxListeners(old(Model()), n)
    {
      maxListeners := n;
    }

    /** `getMaxListeners()`. */
    function GetMaxListeners(): (n: int)
      reads this
      ensures n == R.GetMaxListeners(Model())
    {
      maxListeners
    }

    /** `eventNames()`. */
    function EventNames(): (names: seq<EventType>)
      reads this
      ensures names == R.EventNames(Model())
    {
      keys
    }

    /** `listenerCount(type)`. */
    function ListenerCount(eventType: EventType): (n: int)
      reads this
      requires Indexed()
      ensures n == R.ListenerCount(Model(), eventType)
    {
      if eventType in events then roots[events[eventType]].size else 0
    }

    /** `removeAllEventListeners(type)`; `None` is an undefined type. */
    method RemoveAllEventListeners(eventType: Option<EventType>)
      modifies this
      ensures Model() == R.RemoveAllEventListeners(old(Model()), eventType)
    {
      if eventType.Some? {
        events := events - {eventType.value};
        keys := R.Without(keys, eventType.value);
      } else {
        events := map[];
        keys := [];
      }
    }
  }
}
