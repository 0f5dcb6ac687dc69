/** `Event`'s flag state and `dispatchEvent` as functions of the target and
    the event. A listener's callback is a script of effects on the event
    and the target; the walk over the chain follows the node links of the
    arena exactly as the loop does, including nodes unlinked under it. */
module Dispatch {
  import opened Values
  import opened Chains
  import opened Registry

  /** What `event[kTarget]` holds: `null` from the constructor, the target
      during dispatch, `undefined` once a walk has finished. */
  datatype TargetRef = NullTarget | ThisTarget | Cleared

  /** The flags of an `Event` that dispatch reads and writes. `prevented` is
      the raw `kDefaultPrevented` flag; `stop` is `kStop`. */
  datatype Event = Event(eventType: EventType, cancelable: bool, prevented: bool, stop: bool, target: TargetRef)

  /** `new Event(type, options)`; `eventType` is `None` when the constructor
      gets no argument at all. */
  function NewEvent(eventType: Option<EventType>, options: Option<EventOptions>): (r: Result<Event>)
    ensures eventType.None? <==> r == Err(InvalidEvent)
    ensures r.Ok? ==> r.value.eventType == eventType.value && !r.value.prevented && !r.value.stop && r.value.target == NullTarget
    ensures r.Ok? ==> (r.value.cancelable <==> options.None? || options.value.cancelable != Some(false))
  {
    match eventType
    case None => Err(InvalidEvent)
    case Some(ty) => Ok(Event(ty, CancelableOf(options), false, false, NullTarget))
  }

  function StopImmediatePropagation(e: Event): (e': Event)
    ensures e'.stop && e' == e.(stop := e'.stop)
  {
    e.(stop := true)
  }

  function PreventDefault(e: Event): (e': Event)
    ensures e'.prevented && e' == e.(prevented := e'.prevented)
  {
    e.(prevented := true)
  }

  /** The `defaultPrevented` getter: only a cancelable event can be
      prevented. */
  function DefaultPrevented(e: Event): (b: bool)
    ensures b ==> e.cancelable && e.prevented
  {
    e.cancelable && e.prevented
  }

  /** What a callback may do: the calls a listener makes on the event or on
      the target it runs against, or throwing. */
  datatype Effect =
    | CallPreventDefault
    | CallStopImmediatePropagation
    | CallAddEventListener(addType: EventType, added: Option<ListenerValue>, addOptions: Option<ListenerOptions>)
    | CallRemoveEventListener(removeType: EventType, removed: ListenerValue, removeOptions: Option<ListenerOptions>)
    | CallRemoveAllEventListeners(allOf: Option<EventType>)
    | Throw

  /** The script a listener's callback runs; the callback of a node is fixed
      by its listener. */
  type Behaviour = ListenerValue -> seq<Effect>

  /** Runs one callback. An effect that throws (an explicit `Throw`, or an
      add or remove call that throws) ends the callback; what it did before
      stays, and the error is caught by dispatch. */
  function RunScript(t: Target, e: Event, script: seq<Effect>): (r: (Target, Event))
    requires Indexed(t)
    ensures Indexed(r.0) && |t.roots| <= |r.0.roots| && |t.nodes| <= |r.0.nodes|
    ensures r.1.eventType == e.eventType && r.1.cancelable == e.cancelable && r.1.target == e.target
    ensures e.prevented ==> r.1.prevented
    ensures e.stop ==> r.1.stop
    decreases |script|
  {
    if script == [] then (t, e)
    else
      match script[0]
      case CallPreventDefault => RunScript(t, PreventDefault(e), script[1..])
      case CallStopImmediatePropagation => RunScript(t, StopImmediatePropagation(e), script[1..])
      case CallAddEventListener(ty, l, o) =>
        var (t1, status) := AddEventListener(t, ty, l, o);
        if status.Threw? then (t, e) else RunScript(t1, e, script[1..])
      case CallRemoveEventListener(ty, l, o) =>
        var (t1, status) := RemoveEventListener(t, ty, l, o);
        if status.Threw? then (t, e) else RunScript(t1, e, script[1..])
      case CallRemoveAllEventListeners(ty) =>
        var t1 := RemoveAllEventListeners(t, ty);
        assert Indexed(t1);
        RunScript(t1, e, script[1..])
      case Throw => (t, e)
  }

  /** The walk goes on while there is a handler and it is passive or the
      event has not been stopped. */
  predicate Continues(t: Target, e: Event, handler: Option<nat>)
    requires handler.Some? ==> handler.value < |t.nodes|
  {
    handler.Some? && (t.nodes[handler.value].passive || !e.stop)
  }

  datatype Walked = Walked(t: Target, e: Event, fired: seq<nat>)

  /** The loop of `dispatchEvent` from `handler`, over the chain of root `r`,
      with at most `fuel` iterations; `None` when the fuel runs out.
      `fired` lists the nodes whose callback ran, in order. */
  function Deliver(t: Target, e: Event, r: nat, handler: Option<nat>, behaviour: Behaviour, fuel: nat): (w: Option<Walked>)
    requires Indexed(t) && r < |t.roots| && (handler.Some? ==> handler.value < |t.nodes|)
    ensures w.Some? ==> Indexed(w.value.t) && |t.roots| <= |w.value.t.roots| && |t.nodes| <= |w.value.t.nodes|
    ensures w.Some? ==> w.value.e.eventType == e.eventType && w.value.e.cancelable == e.cancelable && w.value.e.target == e.target
    ensures w.Some? && e.prevented ==> w.value.e.prevented
    ensures w.Some? && e.stop ==> w.value.e.stop
    decreases fuel
  {
    if !Continues(t, e, handler) then Some(Walked(t, e, []))
    else if fuel == 0 then None
    else
      var h := handler.value;
      var next := t.nodes[h].next;
      if t.nodes[h].removed then Deliver(t, e, r, next, behaviour, fuel - 1)
      else
        var (t2, e2) := Visit(t, e, r, h, behaviour);
        match Deliver(t2, e2, r, next, behaviour, fuel - 1)
        case None => None
        case Some(rest) => Some(rest.(fired := [h] + rest.fired))
  }

  /** One iteration on a node that is not flagged: a `once` node is unlinked
      (its count decremented, the map left alone), then its callback runs. */
  function Visit(t: Target, e: Event, r: nat, h: nat, behaviour: Behaviour): (s: (Target, Event))
    requires Indexed(t) && r < |t.roots| && h < |t.nodes|
    ensures Indexed(s.0) && |t.roots| <= |s.0.roots| && |t.nodes| <= |s.0.nodes|
    ensures s.1.eventType == e.eventType && s.1.cancelable == e.cancelable && s.1.target == e.target
    ensures e.prevented ==> s.1.prevented
    ensures e.stop ==> s.1.stop
  {
    var t1 := if t.nodes[h].once then Unlink(t, h, r) else t;
    RunScript(t1, e, behaviour(t.nodes[h].listener))
  }

  datatype Outcome =
    | Rejected(error: Error)
    | OutOfFuel
    | Returned(t: Target, e: Event, fired: seq<nat>, result: bool)

  /** `dispatchEvent(event)`; `event` is `None` for an argument that is not
      an `Event`. The target is set on the event; when the type has no
      chain, or an empty one, the call returns `true` at once, whatever the
      event's flags, and leaves the target set. After a walk the result is
      `!defaultPrevented`. */
  function DispatchEvent(t: Target, event: Option<Event>, behaviour: Behaviour, fuel: nat): (o: Outcome)
    requires Indexed(t)
    ensures event.None? <==> o == Rejected(InvalidEvent)
    ensures o.Returned? ==> Indexed(o.t) && o.e.eventType == event.value.eventType && o.e.cancelable == event.value.cancelable
    ensures o.Returned? && event.value.prevented ==> o.e.prevented
    ensures o.Returned? && event.value.stop ==> o.e.stop
    ensures o.Returned? && Chain(t, event.value.eventType) != [] ==> (o.result <==> !DefaultPrevented(o.e))
    ensures event.Some? && Chain(t, event.value.eventType) == [] ==> o == Returned(t, event.value.(target := ThisTarget), [], true)
  {
    match event
    case None => Rejected(InvalidEvent)
    case Some(ev) =>
      var e := ev.(target := ThisTarget);
      if e.eventType !in t.events || t.roots[t.events[e.eventType]].next.None? then Returned(t, e, [], true)
      else
        var r := t.events[e.eventType];
        match Deliver(t, e, r, t.roots[r].next, behaviour, fuel)
        case None => OutOfFuel
        case Some(w) =>
          var e' := w.e.(target := Cleared);
          Returned(w.t, e', w.fired, !DefaultPrevented(e'))
  }
}
