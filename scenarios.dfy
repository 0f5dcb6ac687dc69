/** The `works for preventDefault` test of the repository, stated over the
    model: the listeners it adds, the callbacks they run, and what each
    dispatch delivers and returns. */
module Scenarios {
  import opened Values
  import opened Registry
  import opened RegistryFacts
  import opened Dispatch
  import opened QuietDispatch
  import opened QuietResult

  /** A registration made with no options. */
  function Plain(l: ListenerValue): Registration {
    Registration(l, false, false, false)
  }

  /** The callbacks of the test: `Function(1)` calls `preventDefault()`,
      `Function(5)` calls `stopImmediatePropagation()`, the others only
      record that they ran. */
  function Callbacks(l: ListenerValue): seq<Effect> {
    if l == Function(1) then [CallPreventDefault]
    else if l == Function(5) then [CallStopImmediatePropagation]
    else []
  }

  lemma CallbacksQuiet()
    ensures Quiet(Callbacks)
  {
    forall l ensures QuietScript(Callbacks(l)) {
    }
  }

  /** `target.addEventListener(type, listener)` of a listener not yet
      registered for `type`: it is appended, the registrations of `other`
      are kept, and the target stays valid. */
  lemma AddPlain(t: Target, eventType: EventType, other: EventType, id: nat) returns (t': Target)
    requires Valid(t) && !Registered(Registrations(t, eventType), Function(id), false) && other != eventType
    ensures t' == AddEventListener(t, eventType, Some(Function(id)), None).0
    ensures Valid(t')
    ensures Registrations(t', eventType) == Registrations(t, eventType) + [Plain(Function(id))]
    ensures Registrations(t', other) == Registrations(t, other)
    ensures EventNames(t') == if eventType in EventNames(t) then EventNames(t) else EventNames(t) + [eventType]
  {
    t' := AddEventListener(t, eventType, Some(Function(id)), None).0;
    AddEventListenerValid(t, eventType, Function(id), None, t');
    AddEventListenerAccepted(t, eventType, Function(id), None, t');
    AddEventListenerNames(t, eventType, Function(id), None, t');
    EventNamesAreTypes(t);
  }

  /** What the test observes of a target: the invariant, the registrations
      of its two types, and `eventNames()`. */
  ghost predicate Observed(t: Target, my: seq<Registration>, my2: seq<Registration>, names: seq<EventType>) {
    Valid(t) && Registrations(t, "my") == my && Registrations(t, "my2") == my2 && EventNames(t) == names
  }

  /** A dispatch with the test's callbacks on a chain of registrations none
      of which is `once`: `QuietDispatchEvent`, with every registration
      kept. */
  lemma DispatchPlain(t: Target, ev: Event, fuel: nat) returns (o: Outcome)
    requires Valid(t) && |Chain(t, ev.eventType)| <= fuel
    requires forall k | 0 <= k < |Registrations(t, ev.eventType)| :: !Registrations(t, ev.eventType)[k].once
    ensures o == DispatchEvent(t, Some(ev), Callbacks, fuel)
    ensures var d := Deliveries(Registrations(t, ev.eventType), ev.(target := ThisTarget), Callbacks);
      && o.Returned? && o.fired == Chain(t, ev.eventType)[..d.1]
      && o.e == d.0.(target := if Chain(t, ev.eventType) == [] then ThisTarget else Cleared)
    ensures o.Returned? && Valid(o.t)
    ensures forall ty :: Registrations(o.t, ty) == Registrations(t, ty)
    ensures EventNames(o.t) == EventNames(t)
  {
    CallbacksQuiet();
    QuietDispatchEvent(t, ev, Callbacks, fuel);
    o := DispatchEvent(t, Some(ev), Callbacks, fuel);
    var regs := Registrations(t, ev.eventType);
    NoOnceKept(regs, Deliveries(regs, ev.(target := ThisTarget), Callbacks).1);
  }

  lemma NoOnceKept(regs: seq<Registration>, n: nat)
    requires n <= |regs| && forall k | 0 <= k < |regs| :: !regs[k].once
    ensures DropOnce(regs[..n]) + regs[n..] == regs
  {
    NoOnceDropped(regs[..n]);
    assert regs[..n] + regs[n..] == regs;
  }

  lemma {:induction false} NoOnceDropped(regs: seq<Registration>)
    requires forall k | 0 <= k < |regs| :: !regs[k].once
    ensures DropOnce(regs) == regs
    decreases |regs|
  {
    if regs != [] {
      NoOnceDropped(regs[1..]);
      assert regs == [regs[0]] + regs[1..];
    }
  }

  lemma NotRegistered(regs: seq<Registration>, id: nat)
    requires forall k | 0 <= k < |regs| :: regs[k].listener != Function(id)
    ensures !Registered(regs, Function(id), false)
  {
  }

  /** The first block adds `f1` and `f2` to `my`, then a listener of its
      own to `my2`. */
  lemma SetUp() returns (t: Target)
    ensures Observed(t, [Plain(Function(1)), Plain(Function(2))], [Plain(Function(3))], ["my", "my2"])
  {
    var p1, p2, p3 := Plain(Function(1)), Plain(Function(2)), Plain(Function(3));
    assert "my" in ["my"] && "my2" !in ["my"];
    assert [p1] + [p2] == [p1, p2] && [] + [p3] == [p3];
    assert ["my"] + ["my2"] == ["my", "my2"];
    var t1 := AddFirstToNew();
    var t2 := AddToMy(t1, [p1], [], ["my"], 2);
    t := AddToMy2(t2, [p1, p2], [], ["my"], 3);
  }

  /** `addEventListener('my', f1)` on a new target. */
  lemma AddFirstToNew() returns (t: Target)
    ensures Observed(t, [Plain(Function(1))], [], ["my"])
  {
    assert [] + [Plain(Function(1))] == [Plain(Function(1))];
    assert [] + ["my"] == ["my"];
    EmptyValid(DefaultMaxListeners);
    t := AddToMy(Empty(DefaultMaxListeners), [], [], [], 1);
  }

  /** `addEventListener('my', f)` of a new plain listener `f`. */
  lemma AddToMy(t: Target, my: seq<Registration>, my2: seq<Registration>, names: seq<EventType>, id: nat) returns (t': Target)
    requires Observed(t, my, my2, names) && forall k | 0 <= k < |my| :: my[k].listener != Function(id)
    ensures t' == AddEventListener(t, "my", Some(Function(id)), None).0
    ensures Observed(t', my + [Plain(Function(id))], my2, if "my" in names then names else names + ["my"])
  {
    t' := AddPlain(t, "my", "my2", id);
  }

  /** `addEventListener('my2', f)` of a new plain listener `f`. */
  lemma AddToMy2(t: Target, my: seq<Registration>, my2: seq<Registration>, names: seq<EventType>, id: nat) returns (t': Target)
    requires Observed(t, my, my2, names) && forall k | 0 <= k < |my2| :: my2[k].listener != Function(id)
    ensures t' == AddEventListener(t, "my2", Some(Function(id)), None).0
    ensures Observed(t', my, my2 + [Plain(Function(id))], if "my2" in names then names else names + ["my2"])
  {
    t' := AddPlain(t, "my2", "my", id);
  }

  /** With the test's callbacks, `f1` and `f2` both receive a `my` event that
      is not stopped, which ends prevented. */
  lemma DeliveriesPrevented(e: Event)
    requires !e.stop
    ensures Quiet(Callbacks)
    ensures Deliveries([Plain(Function(1)), Plain(Function(2))], e, Callbacks) == (e.(prevented := true), 2)
    ensures Deliveries([Plain(Function(2))], e, Callbacks) == (e, 1)
  {
    CallbacksQuiet();
    var e1 := RunEffects(e, Callbacks(Function(1)));
    assert e1 == e.(prevented := true);
    assert RunEffects(e1, Callbacks(Function(2))) == e1;
    assert RunEffects(e, Callbacks(Function(2))) == e;
  }

  /** The first dispatch of a new `my` event runs `f1` and then `f2` and
      returns false; the target keeps its registrations. */
  lemma FirstDispatch(t: Target, fuel: nat) returns (o: Outcome)
    requires Observed(t, [Plain(Function(1)), Plain(Function(2))], [Plain(Function(3))], ["my", "my2"])
    requires 2 <= fuel
    ensures o == DispatchEvent(t, Some(NewEvent(Some("my"), None).value), Callbacks, fuel)
    ensures o.Returned? && o.fired == Chain(t, "my") && !o.result
    ensures o.e == Event("my", true, true, false, Cleared)
    ensures Observed(o.t, [Plain(Function(1)), Plain(Function(2))], [Plain(Function(3))], ["my", "my2"])
  {
    var ev := NewEvent(Some("my"), None).value;
    DeliveriesPrevented(ev.(target := ThisTarget));
    o := DispatchPlain(t, ev, fuel);
  }

  /** `removeEventListener('my', f1)`: `f2` is left, and `my` stays listed. */
  lemma RemoveFirst(t: Target, my2: seq<Registration>, names: seq<EventType>) returns (t': Target)
    requires Observed(t, [Plain(Function(1)), Plain(Function(2))], my2, names)
    ensures t' == RemoveEventListener(t, "my", Function(1), None).0
    ensures Observed(t', [Plain(Function(2))], my2, names)
  {
    t' := RemoveEventListener(t, "my", Function(1), None).0;
    RemoveEventListenerValid(t, "my", Function(1), None, t');
    RemoveEventListenerRemoves(t, "my", Function(1), None, t');
    RemoveEventListenerNames(t, "my", Function(1), None, t');
    assert Registered(Registrations(t, "my"), Function(1), false) by {
      assert Registrations(t, "my")[0].listener == Function(1);
    }
  }

  /** Dispatching the same event again runs `f2` alone and still returns
      false: the prevented flag is never reset. */
  lemma SecondDispatch(t: Target, e: Event, fuel: nat) returns (o: Outcome)
    requires Observed(t, [Plain(Function(2))], [Plain(Function(3))], ["my", "my2"])
    requires e == Event("my", true, true, false, Cleared) && 1 <= fuel
    ensures o == DispatchEvent(t, Some(e), Callbacks, fuel)
    ensures o.Returned? && o.fired == Chain(t, "my") && !o.result
    ensures Observed(o.t, [Plain(Function(2))], [Plain(Function(3))], ["my", "my2"])
  {
    DeliveriesPrevented(e.(target := ThisTarget));
    o := DispatchPlain(t, e, fuel);
  }

  /** The second block adds three more listeners to `my2`; the middle one
      stops propagation. */
  lemma AddThree(t: Target) returns (t1: Target, t2: Target, t3: Target)
    requires Observed(t, [Plain(Function(2))], [Plain(Function(3))], ["my", "my2"])
    ensures t1 == AddEventListener(t, "my2", Some(Function(4)), None).0
    ensures t2 == AddEventListener(t1, "my2", Some(Function(5)), None).0
    ensures t3 == AddEventListener(t2, "my2", Some(Function(6)), None).0
    ensures Observed(t3, [Plain(Function(2))], [Plain(Function(3)), Plain(Function(4)), Plain(Function(5)), Plain(Function(6))], ["my", "my2"])
  {
    var p3, p4, p5, p6 := Plain(Function(3)), Plain(Function(4)), Plain(Function(5)), Plain(Function(6));
    assert "my2" in ["my", "my2"];
    assert [p3] + [p4] == [p3, p4];
    assert [p3, p4] + [p5] == [p3, p4, p5];
    assert [p3, p4, p5] + [p6] == [p3, p4, p5, p6];
    t1 := AddToMy2(t, [Plain(Function(2))], [p3], ["my", "my2"], 4);
    t2 := AddToMy2(t1, [Plain(Function(2))], [p3, p4], ["my", "my2"], 5);
    t3 := AddToMy2(t2, [Plain(Function(2))], [p3, p4, p5], ["my", "my2"], 6);
  }

  /** With the test's callbacks, a `my2` event that is not stopped reaches
      the first three listeners and is stopped before the fourth. */
  lemma DeliveriesStopped(e: Event)
    requires !e.stop
    ensures Quiet(Callbacks)
    ensures Deliveries([Plain(Function(3)), Plain(Function(4)), Plain(Function(5)), Plain(Function(6))], e, Callbacks)
      == (e.(stop := true), 3)
  {
    CallbacksQuiet();
    assert RunEffects(e, Callbacks(Function(3))) == e;
    assert RunEffects(e, Callbacks(Function(4))) == e;
    DeliveriesStopAt(e);
  }

  /** `Function(5)` stops the event, and `Function(6)` is then not reached. */
  lemma DeliveriesStopAt(e: Event)
    requires !e.stop && Quiet(Callbacks)
    ensures Deliveries([Plain(Function(5)), Plain(Function(6))], e, Callbacks) == (e.(stop := true), 1)
  {
    assert RunEffects(e, Callbacks(Function(5))) == e.(stop := true);
    assert Deliveries([Plain(Function(6))], e.(stop := true), Callbacks) == (e.(stop := true), 0);
  }

  /** A new `my2` event reaches the first three listeners only, and the call
      returns true since nothing prevented it. */
  lemma ThirdDispatch(t: Target, fuel: nat) returns (o: Outcome)
    requires Observed(t, [Plain(Function(2))], [Plain(Function(3)), Plain(Function(4)), Plain(Function(5)), Plain(Function(6))], ["my", "my2"])
    requires 4 <= fuel
    ensures o == DispatchEvent(t, Some(NewEvent(Some("my2"), None).value), Callbacks, fuel)
    ensures o.Returned? && o.fired == Chain(t, "my2")[..3] && o.result
    ensures o.e == Event("my2", true, false, true, Cleared)
    ensures Observed(o.t, [Plain(Function(2))], [Plain(Function(3)), Plain(Function(4)), Plain(Function(5)), Plain(Function(6))], ["my", "my2"])
  {
    var ev := NewEvent(Some("my2"), None).value;
    DeliveriesStopped(ev.(target := ThisTarget));
    o := DispatchPlain(t, ev, fuel);
  }

  /** `removeAllEventListeners('my2')` drops the type, so `eventNames()` is
      `['my']`. */
  lemma RemoveAllSecond(t: Target, my2: seq<Registration>) returns (t': Target)
    requires Observed(t, [Plain(Function(2))], my2, ["my", "my2"])
    ensures t' == RemoveAllEventListeners(t, Some("my2"))
    ensures Observed(t', [Plain(Function(2))], [], ["my"])
  {
    t' := RemoveAllEventListeners(t, Some("my2"));
    RemoveAllValid(t, Some("my2"));
    RemoveAllRegistrations(t, Some("my2"));
    assert Without(["my", "my2"], "my2") == ["my"];
  }

  /** Dispatching again on `my2` runs nothing and returns true, whatever
      the event's flags; with no chain to walk, the event is left targeted
      at the target, and `eventNames()` is still `['my']`. */
  lemma FourthDispatch(t: Target, e: Event, fuel: nat) returns (o: Outcome)
    requires Observed(t, [Plain(Function(2))], [], ["my"])
    requires e.eventType == "my2"
    ensures o == DispatchEvent(t, Some(e), Callbacks, fuel)
    ensures o.Returned? && o.fired == [] && o.result && o.e == e.(target := ThisTarget)
    ensures o.t == t && EventNames(o.t) == ["my"]
  {
    o := DispatchPlain(t, e, fuel);
  }
}
