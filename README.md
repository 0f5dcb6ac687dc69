# ts-event-target: listener registry and dispatch, in Dafny

This project models the core of `ts-event-target`, a DOM-style `EventTarget`:

- the per-type registry of listeners: a map from event type to a root `{ size, next }` heading a doubly linked chain of `ListenerNode`s;
- `addEventListener` and `removeEventListener`, with duplicate suppression on the pair (listener, capture);
- `dispatchEvent`'s walk over a chain while callbacks mutate it;
- the `Event` flags that dispatch reads and writes: `cancelable`, the raw prevented flag, the immediate-stop flag and the target;
- the smaller operations: the leak check `kNewListener`, `setMaxListeners`/`getMaxListeners`, `eventNames`, `listenerCount` and `removeAllEventListeners`.

The chains live in an arena.

- `Registry.Target` holds a sequence of roots and a sequence of nodes.
- Each node keeps `next`, `previous` (a root or a node), `once`, `capture`, `passive` and `removed`. These mirror the object fields one for one.
- A removed node keeps its own `next`, as `remove()` does. The walk in `Dispatch.Deliver` follows such stale links exactly as the loop at `src/index.ts:293-318` does.
- The insertion-ordered keys of the `Map` are the sequence `keys`.

A listener's callback is a script of effects (`Dispatch.Effect`):

- `preventDefault`;
- `stopImmediatePropagation`;
- a nested `addEventListener`, `removeEventListener` or `removeAllEventListeners` on the same target;
- a throw, which the walk catches.

`Dispatch.Behaviour` maps each listener to its script.

The code is modelled in two layers.

- Pure functions state each operation on values, in modules `Values`, `Chains`, `Registry` and `Dispatch`. The lemma modules `UnlinkFacts`, `AppendFacts`, `RegistryFacts`, `DispatchFacts`, `QuietDispatch`, `QuietResult` and `DispatchOrder` prove what the source promises about those functions.
- The classes `Events.Event` and `EventTargets.EventTarget` are imperative. Their fields are updated in place, and their loops are proved equal to the pure functions: the walk in `addEventListener`, the search in `removeEventListener` and the dispatch loop.
- `Scenarios` replays the repository's `works for preventDefault` test over the model.

The invariant `Registry.Valid` holds of every reachable state. It says:

- every root's `size` is the length of its chain;
- every chain is properly double-linked;
- no chain holds two nodes with the same listener and capture flag;
- every live node is on its owner's chain;
- the map's keys are listed once each.

Four places where the code does something easy to misread; the model follows the code:

- The `once` path of dispatch decrements `size` but never deletes the map entry. A type whose last listener was a `once` listener therefore stays in `eventNames()` with count 0 (`src/index.ts:305-308` against `273-275`). `QuietResult.QuietDispatchEvent` and `RegistryFacts.AddThenRemoveNames` state this.
- `removeAllEventListeners` only deletes map entries. The dropped nodes are neither unlinked nor flagged `removed` (`src/index.ts:344-349`), so `Registry.RemoveAllEventListeners` leaves both arenas untouched.
- The early return of `dispatchEvent` for a type with no chain leaves the event's target set. It is cleared only after a real walk (`src/index.ts:288` against `320`).
- That early return yields the literal `true`, even for an event whose default was already prevented. Only a call that walks a chain reports `!defaultPrevented` (`src/index.ts:288` against `322`).

## Model

| member | source | states |
|---|---|---|
| Values.ShouldAddListener | src/index.ts:357-368 | A function, or an object whose `handleEvent` is callable, is accepted. `null`/`undefined` is ignored. Every other value throws `InvalidListener`. Each case is an if-and-only-if. |
| Values.RemoveCapture | src/index.ts:263 | `removeEventListener`'s capture flag is true exactly when options are given and `options.capture === true`. |
| Values.CaptureReadsAgree | src/index.ts:209-213 | The destructured default of `addEventListener` and the `=== true` test of `removeEventListener` read the same capture flag from any options. |
| Values.CancelableOf | src/index.ts:49-50 | An event is not cancelable only when `options.cancelable` is `false`. |
| Chains.Walk | src/index.ts:268-279 | Following `next` from a head gives the empty walk exactly when there is no head. Otherwise the walk starts at the head and stays inside the arena. |
| Chains.WalkIncreasing | src/index.ts:139-141 | A walk visits strictly increasing arena positions: a node is only linked after the tail and is always the newest. So every walk is finite and visits no node twice. |
| Registry.FirstMatch | src/index.ts:154-156 | The position found holds a node `same` as (listener, capture), and no earlier node is. `None` means that no node of the walk is. |
| Registry.NewListener | src/index.ts:186-202 | The leak check sets the warned flag exactly when it was already set, or when the maximum is positive and the size exceeds it. Nothing else changes. |
| Registry.AddEventListener | src/index.ts:204-255 | It throws exactly when the listener argument is missing or invalid, with the matching error and no change. A nullish listener changes nothing. The arenas only grow. |
| Registry.RemoveEventListener | src/index.ts:257-280 | It throws exactly for an invalid listener, with no change. A nullish listener changes nothing. |
| Registry.RemoveAllEventListeners | src/index.ts:344-352 | The arenas are untouched. The types left are the old ones minus the given type, or none when no type is given. |
| RegistryFacts.EmptyValid | src/index.ts:179-184 | A new target is valid, has no registrations and no event names, is not warned, and its maximum is the `defaultMaxListeners` value read at construction. |
| RegistryFacts.NewListenerKeeps | src/index.ts:186-202 | The leak check keeps the invariant, every type's registrations and counts, and `eventNames()`. |
| RegistryFacts.SetMaxListenersValid | src/index.ts:325-332 | After `setMaxListeners(n)`, `getMaxListeners()` is `n`, and the invariant is kept. |
| RegistryFacts.EventNamesAreTypes | src/index.ts:334-336 | `eventNames()` lists exactly the types in the map, each once. |
| RegistryFacts.ListenerCountIsLength | src/index.ts:338-341 | `listenerCount(type)` is the number of registrations on the type's chain, and 0 for an absent type. |
| RegistryFacts.AddEventListenerValid | src/index.ts:228-254 | An accepted add keeps the invariant (sizes, links, no duplicate pair), and the state only evolves. |
| RegistryFacts.AddEventListenerAccepted | src/index.ts:228-254 | The type's registrations gain (listener, once, capture, passive) at the end, unless the pair (listener, capture) is already registered: then they are unchanged. Other types are unchanged. |
| RegistryFacts.AddDuplicateUnchanged | src/index.ts:239-250 | Adding a pair that is already registered leaves the whole target as it was: no node, no size change, and the existing node keeps its `once` and `passive`. |
| RegistryFacts.AddEventListenerNames | src/index.ts:186-190 | `eventNames()` gains the type at the end only when the type was new. The warned flag is set exactly when it was set before, or a new registration takes the size past a positive maximum. |
| RegistryFacts.RemoveEventListenerValid | src/index.ts:265-279 | A remove keeps the invariant, and the state only evolves. |
| RegistryFacts.RemoveEventListenerRemoves | src/index.ts:263-279 | The type loses exactly its first registration with that listener and `removeEventListener`'s capture flag, and nothing when there is none. Other types are unchanged. |
| RegistryFacts.RemoveEventListenerNames | src/index.ts:272-275 | The type leaves `eventNames()` exactly when the registration removed was its last one. |
| RegistryFacts.RemoveAllValid | src/index.ts:344-352 | `removeAllEventListeners` keeps the invariant, and the state only evolves. |
| RegistryFacts.RemoveAllRegistrations | src/index.ts:344-352 | The type dropped, or every type, has no registrations left. Every other type keeps its registrations. `eventNames()` loses that type, or becomes empty. |
| RegistryFacts.AddThenRemove | src/index.ts:204-280 | Adding a new listener and then removing it with the same options restores every type's registrations, and the invariant holds. |
| RegistryFacts.AddThenRemoveNames | src/index.ts:230-275 | After that round trip `eventNames()` is restored, except that a type mapped with no listeners is dropped. Such a type is one left behind by a `once` dispatch. |
| UnlinkFacts.UnlinkEffect | src/index.ts:158-162 | `remove(); root.size--` rewires only the predecessor's `next` and the successor's `previous`. It flags the node, keeps the node's own `next`, and decrements its root's size. |
| UnlinkFacts.UnlinkOwnChain | src/index.ts:158-162 | The chain loses exactly the node unlinked, and keeps the others in order. |
| UnlinkFacts.UnlinkValid | src/index.ts:271-272 | Unlinking a node of a chain keeps the invariant, the state only evolves, and the node is flagged `removed`. |
| AppendFacts.LinkTailChain | src/index.ts:252 | A node constructed after the chain's last node becomes the last node of the chain. |
| AppendFacts.AppendValid | src/index.ts:252-253 | Appending a pair that is not yet registered and incrementing `size` keeps the invariant. |
| AppendFacts.NewRootValid | src/index.ts:230-233 | A new root of size 1 with its first node keeps the invariant. The new chain is exactly that node. |
| Dispatch.NewEvent | src/index.ts:45-58 | Construction fails exactly when there is no argument. Otherwise the event has the given type, no flag set, a null target, and is cancelable unless `cancelable` is `false`. |
| Dispatch.StopImmediatePropagation | src/index.ts:60-62 | Sets the stop flag and nothing else. |
| Dispatch.PreventDefault | src/index.ts:64-66 | Sets the raw prevented flag, cancelable or not, and nothing else. |
| Dispatch.DefaultPrevented | src/index.ts:80-82 | `defaultPrevented` is true only for a cancelable event whose flag is set. |
| Dispatch.RunScript | src/index.ts:310-315 | A callback never changes the event's type, `cancelable` or target, and never clears a flag. The arenas only grow. |
| Dispatch.Deliver | src/index.ts:293-318 | The walk keeps the event's type, `cancelable` and target, and never clears a flag. The skip and stop rules of the loop are proved for any callbacks by `DispatchOrder.FiredSkipsRemoved` and `DispatchOrder.StoppedFiresPassive`. |
| Dispatch.Visit | src/index.ts:305-315 | One iteration keeps the event's type, `cancelable` and target, and never clears a flag. |
| Dispatch.DispatchEvent | src/index.ts:282-323 | A non-`Event` is rejected, and only then. When the type has no chain, or an empty one, the call returns `true` at once, whatever the event's flags. It runs nothing, changes no state, and leaves the target set. After a walk the result is `!defaultPrevented` of the final event. Flags set before the call stay set. |
| DispatchFacts.RunScriptValid | src/index.ts:310-315 | Whatever a callback adds or removes, the invariant holds afterwards and the state only evolves. |
| DispatchFacts.VisitValid | src/index.ts:305-315 | Visiting a live node keeps the invariant. A `once` node is flagged `removed` before its callback runs. The cached `next` stays on the same chain. |
| DispatchFacts.DeliverValid | src/index.ts:293-318 | The whole walk keeps the invariant, whatever the callbacks do. |
| QuietDispatch.RunEffects | src/index.ts:60-66 | For a callback that only touches the event: each flag ends set exactly when it was already set, or the callback called its setter before any throw. |
| QuietDispatch.RunScriptQuiet | src/index.ts:310-315 | Such a callback leaves the target unchanged. |
| QuietDispatch.Deliveries | src/index.ts:293-294 | Reference delivery over registrations. The walk stops only at a non-passive registration once the event is stopped. When the event starts stopped, every registration reached is passive. |
| QuietDispatch.DeliveriesFlags | src/index.ts:293-294 | After the walk the event is stopped exactly when it already was, or a listener that received it called `stopImmediatePropagation`. The same holds for `preventDefault`. |
| QuietDispatch.NeverStoppedDeliversAll | src/index.ts:293-294 | When no callback stops the event, every registration receives it. |
| QuietDispatch.StoppedDeliversLeadingPassive | src/index.ts:293-294 | An event already stopped reaches exactly the leading passive registrations. |
| QuietResult.DropOnce | src/index.ts:305-308 | Keeps exactly the registrations that are not `once`, in order. |
| QuietResult.QuietDispatchEvent | src/index.ts:282-323 | With callbacks that only touch the event, dispatch returns, in registration order, to the prefix that `Deliveries` picks. The event ends with the flags `Deliveries` computes and its target cleared, or left set when there is no chain. The result is `true` when there is no chain, and otherwise `!defaultPrevented` of those flags. Only the delivered `once` registrations are gone, and other types are untouched. The map is unchanged, so `eventNames()` still lists the type. |
| DispatchOrder.FiredIncreasing | src/index.ts:290-318 | The walk delivers to nodes at or after its start, in strictly increasing order, so no callback runs twice in one dispatch. Nodes appended during the walk may still be reached. |
| DispatchOrder.FiredOnceUnlinked | src/index.ts:305-315 | Every `once` node that received the event is unlinked when the walk ends, even if its callback threw. |
| DispatchOrder.DispatchEventOrder | src/index.ts:282-323 | A returned dispatch keeps the invariant, delivers in increasing node order, and unlinks every `once` node it delivered to. With no chain, it returns `true` at once, runs nothing and changes nothing but the event's target. |
| DispatchOrder.FiredSkipsRemoved | src/index.ts:296-303 | Whatever the callbacks do, a node already unlinked when the walk reaches it never runs. This holds from any state the walk passes through. |
| DispatchOrder.UnlinkedByCallbackSkipped | src/index.ts:296-303 | A node that a callback unlinks is skipped by the rest of the walk, even though the walk may already hold a cached link to it. |
| DispatchOrder.StoppedFiresPassive | src/index.ts:293-294 | Whatever the callbacks do, a walk that starts with the event stopped runs passive nodes only. |
| DispatchOrder.StopLeavesPassive | src/index.ts:293-294 | Once a callback stops the event, every node that runs after it in the same walk is passive. |
| DispatchOrder.DispatchEventSkipsAndStops | src/index.ts:282-318 | A returned dispatch never runs a node unlinked before the call. An event dispatched already stopped reaches passive listeners only. |
| Events.Event.constructor | src/index.ts:45-58 | The new object's fields are the event `Dispatch.NewEvent` builds. |
| Events.Event.Create | src/index.ts:45-48 | Throws exactly when there is no argument. Otherwise it gives a fresh `Event` whose state is `Dispatch.NewEvent`'s. |
| Events.Event.StopImmediatePropagation | src/index.ts:60-62 | The new state is `Dispatch.StopImmediatePropagation` of the old one. |
| Events.Event.PreventDefault | src/index.ts:64-66 | The new state is `Dispatch.PreventDefault` of the old one. |
| Events.Event.DefaultPrevented | src/index.ts:80-82 | The getter agrees with `Dispatch.DefaultPrevented` of the state. |
| EventTargets.FindTail | src/index.ts:239-250 | The search loop finds a match exactly when some node of the chain is `same`. When there is none, `previous` is the chain's last node, or the root for an empty chain. |
| EventTargets.Find | src/index.ts:268-279 | The loop stops on the first `same` node of the chain, or on none when there is no match. |
| EventTargets.EventTarget.constructor | src/index.ts:170-184 | A new target is `Registry.Empty` of the static `defaultMaxListeners` it reads, which is 0 unless reassigned. It has no listeners, is not warned, and is valid. |
| EventTargets.EventTarget.SetNext | src/index.ts:141 | `previous.next = node` on a root or a node, as `Registry.SetNext`. |
| EventTargets.EventTarget.NewNode | src/index.ts:139-146 | `new ListenerNode(previous, …)` in place, as `Registry.LinkNode`. |
| EventTargets.EventTarget.Remove | src/index.ts:158-162 | `remove()` in place, as `Registry.Splice`. |
| EventTargets.EventTarget.Unlink | src/index.ts:271-272 | `handler.remove(); root.size--`, as `Registry.Unlink`. |
| EventTargets.EventTarget.NewListener | src/index.ts:186-202 | The leak check in place, as `Registry.NewListener`. |
| EventTargets.EventTarget.AddEventListener | src/index.ts:204-255 | The new state and the outcome are those of `Registry.AddEventListener`. |
| EventTargets.EventTarget.AddFirst | src/index.ts:230-236 | The first registration of a type, as `Registry.AddFirst`. |
| EventTargets.EventTarget.AddLast | src/index.ts:252-254 | Append after the node the walk ended on, as `Registry.AddLast`. |
| EventTargets.EventTarget.RemoveEventListener | src/index.ts:257-280 | The new state and the outcome are those of `Registry.RemoveEventListener`. |
| EventTargets.EventTarget.RunCallback | src/index.ts:310-315 | Running one callback's script changes the target and the event as `Dispatch.RunScript`. |
| EventTargets.EventTarget.DispatchEvent | src/index.ts:282-323 | `null` is rejected with no change. Otherwise the result, the target and the event are those of `Dispatch.DispatchEvent`. |
| EventTargets.EventTarget.Deliver | src/index.ts:290-318 | The loop with cached `next` delivers to the nodes `Dispatch.Deliver` lists and ends in its state. |
| EventTargets.EventTarget.Visit | src/index.ts:305-315 | One iteration on a live node, as `Dispatch.Visit`. |
| EventTargets.EventTarget.SetMaxListeners | src/index.ts:325-328 | Sets the maximum and nothing else. |
| EventTargets.EventTarget.GetMaxListeners | src/index.ts:330-332 | Reads the maximum. |
| EventTargets.EventTarget.EventNames | src/index.ts:334-336 | The map's keys in insertion order. |
| EventTargets.EventTarget.ListenerCount | src/index.ts:338-341 | The root's size, or 0 for an absent type. |
| EventTargets.EventTarget.RemoveAllEventListeners | src/index.ts:344-352 | Deletes one entry, or clears the map, as `Registry.RemoveAllEventListeners`. |
| Scenarios.SetUp | src/__tests__/EventTarget.test.ts:19-38 | After the first block's three adds, `my` holds `f1` then `f2`, `my2` holds one listener, and `eventNames()` is `['my', 'my2']`. |
| Scenarios.FirstDispatch | src/__tests__/EventTarget.test.ts:39-41 | Dispatching a new `my` event runs `f1` then `f2` and returns false. Every registration stays. |
| Scenarios.RemoveFirst | src/__tests__/EventTarget.test.ts:42 | `removeEventListener('my', f1)` leaves `f2` alone on `my`. |
| Scenarios.SecondDispatch | src/__tests__/EventTarget.test.ts:43-46 | Dispatching the same event again runs only `f2`, and still returns false. |
| Scenarios.AddThree | src/__tests__/EventTarget.test.ts:52-62 | Three more listeners are appended to `my2` in call order. |
| Scenarios.ThirdDispatch | src/__tests__/EventTarget.test.ts:63-65 | A new `my2` event reaches the first three listeners of `my2` but not the fourth, and the call returns true. |
| Scenarios.RemoveAllSecond | src/__tests__/EventTarget.test.ts:67 | `removeAllEventListeners('my2')` empties `my2` and leaves `eventNames()` as `['my']`. |
| Scenarios.FourthDispatch | src/__tests__/EventTarget.test.ts:68-73 | Dispatching again on `my2` runs nothing and returns true, whatever the event's flags. The event stays targeted, and `eventNames()` is still `['my']`. |

## Left out

- Dispatch.Deliver, Dispatch.DispatchEvent: both take a `fuel` bound on the number of iterations and return `OutOfFuel` when it runs out. Callbacks that keep appending fresh listeners can make the source loop run without end. The model does not state what happens past the bound.
- EventTargets.EventTarget.DispatchEvent: returns `Exhausted` in the same case.
- QuietResult.QuietDispatchEvent: the exact delivered set is stated only for callbacks that touch nothing but the event. For callbacks that add or remove listeners, the model proves the invariant, the increasing order, the skip rule, the stop rule and the `once` property, but gives no closed form of the delivered set.
- Dispatch.DefaultPrevented: its own contract gives one direction only. The exact value is tied to the state by `Events.Event.DefaultPrevented` and to the result by `Dispatch.DispatchEvent`.
- EventTargets.EventTarget methods require only `Indexed()`, that is, every stored index in range. That the full invariant is kept follows from the `RegistryFacts` and `DispatchFacts` lemmas about the functions they are proved equal to.
- A callback's effects are a fixed script per listener identity. Callbacks with their own state, and the value a callback returns, are not modelled. Neither is promise rejection handling (`addCatch`), which is asynchronous and calls a foreign `then`.
- A nested `dispatchEvent` from inside a callback is not modelled: it would need a recursive effect interpreter.
- `console.warn` and `console.error` are not modelled. Only the warned flag's transition is kept, and a thrown error is caught.
- The `Date.now()` timestamp and the DOM accessors with no role in dispatch are not modelled: `bubbles`, `composed`, `eventPhase`, `composedPath`, `cancelBubble`/`stopPropagation`, `isTrusted`, `srcElement`, `returnValue` and the phase constants.
- Callback binding (`handleEvent.bind`) is not modelled: a listener is an opaque identity, and two listeners are the same when their values are equal.
- The maximum number of listeners is an integer. JavaScript stores any `number` passed to `setMaxListeners` or assigned to `defaultMaxListeners`, and a fractional value or `NaN` changes the comparisons of the leak check. Floating point is not modelled.
- Option values are absent or boolean. JavaScript would store a non-boolean `once`/`capture`/`passive` as is and compare it with `===`. A `null` options object, which makes `addEventListener`'s destructuring throw a `TypeError`, is not modelled.
- Type keys are strings. The TypeScript generic plumbing (`ExtractEventType`, `Unpacked`) is compile-time only and not modelled.
- `setMaxListeners` and `removeAllEventListeners` return `this` for chaining; the model returns nothing.
