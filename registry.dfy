/** The listener registry of one `EventTarget`: the chains, the map from
    event type to chain root (with its key order), and the leak-warning
    state, with `addEventListener`, `removeEventListener`,
    `removeAllEventListeners` and the queries as functions of that state. */
module Registry {
  import opened Values
  import opened Chains

  /** The state of an `EventTarget`. `roots` and `nodes` are arenas that only
      grow: a root dropped from `events` (by `removeAllEventListeners` or when
      its count reaches 0) stays, because a dispatch in progress may still
      hold it. `keys` lists the map's keys in insertion order. */
  datatype Target = Target(
    roots: seq<Root>,
    nodes: seq<Node>,
    events: map<EventType, nat>,
    keys: seq<EventType>,
    maxListeners: int,
    maxListenersWarned: bool)

  datatype Status = Completed | Threw(error: Error)

  /** The initial value of the static `EventTarget.defaultMaxListeners`. */
  const DefaultMaxListeners := 0

  /** A freshly constructed target: no listeners, not warned, and the
      maximum read from `defaultMaxListeners`, which callers may reassign
      before constructing. */
  function Empty(defaultMaxListeners: int): Target {
    Target([], [], map[], [], defaultMaxListeners, false)
  }

  /** Every index stored in the state is in range. */
  ghost predicate Indexed(t: Target) {
    && Linked(t.nodes)
    && BackLinked(t.nodes)
    && (forall i | 0 <= i < |t.nodes| :: t.nodes[i].previous.RootLink? ==> t.nodes[i].previous.root < |t.roots|)
    && (forall r | 0 <= r < |t.roots| :: t.roots[r].next.Some? ==> t.roots[r].next.value < |t.nodes|)
    && (forall ty | ty in t.events :: t.events[ty] < |t.roots|)
  }

  /** The nodes reachable from root `r`, in order. */
  function RootChain(t: Target, r: nat): (w: seq<nat>)
    requires Indexed(t) && r < |t.roots|
  {
    Walk(t.nodes, t.roots[r].next)
  }

  /** The nodes reachable from the root registered for `type`. */
  function Chain(t: Target, eventType: EventType): seq<nat>
    requires Indexed(t)
  {
    if eventType in t.events then RootChain(t, t.events[eventType]) else []
  }

  /** What one registration records, seen from outside. */
  datatype Registration = Registration(listener: ListenerValue, once: bool, capture: bool, passive: bool)

  function RegistrationOf(n: Node): Registration {
    Registration(n.listener, n.once, n.capture, n.passive)
  }

  function RegistrationsAt(nodes: seq<Node>, w: seq<nat>): (regs: seq<Registration>)
    requires forall k | 0 <= k < |w| :: w[k] < |nodes|
    ensures |regs| == |w|
    ensures forall k {:trigger regs[k]} | 0 <= k < |w| :: regs[k] == RegistrationOf(nodes[w[k]])
  {
    seq(|w|, k requires 0 <= k < |w| => RegistrationOf(nodes[w[k]]))
  }

  /** The registrations for `type`, in delivery order. */
  function Registrations(t: Target, eventType: EventType): seq<Registration>
    requires Indexed(t)
  {
    RegistrationsAt(t.nodes, Chain(t, eventType))
  }

  /** What `ListenerNode.same` compares: the listener and the capture flag. */
  function IdentitiesAt(nodes: seq<Node>, w: seq<nat>): (ids: seq<(ListenerValue, bool)>)
    requires forall k | 0 <= k < |w| :: w[k] < |nodes|
    ensures |ids| == |w|
    ensures forall k {:trigger ids[k]} | 0 <= k < |w| :: ids[k] == (nodes[w[k]].listener, nodes[w[k]].capture)
  {
    seq(|w|, k requires 0 <= k < |w| => (nodes[w[k]].listener, nodes[w[k]].capture))
  }

  /** Dropping position `k` of the walk drops position `k` of its identities. */
  lemma IdentitiesRemove(nodes: seq<Node>, w: seq<nat>, k: nat)
    requires forall j | 0 <= j < |w| :: w[j] < |nodes|
    requires k < |w|
    ensures IdentitiesAt(nodes, w[..k] + w[k + 1..]) == IdentitiesAt(nodes, w)[..k] + IdentitiesAt(nodes, w)[k + 1..]
  {
    var w' := w[..k] + w[k + 1..];
    var ids := IdentitiesAt(nodes, w);
    assert forall j | 0 <= j < |w'| :: w'[j] == if j < k then w[j] else w[j + 1];
  }

  /** Identities depend only on the listener and capture flag of each node. */
  lemma IdentitiesFrame(nodes: seq<Node>, nodes': seq<Node>, w: seq<nat>)
    requires |nodes| <= |nodes'|
    requires forall j | 0 <= j < |w| :: w[j] < |nodes|
    requires forall i | 0 <= i < |nodes| :: Same(nodes'[i], nodes[i].listener, nodes[i].capture)
    ensures IdentitiesAt(nodes', w) == IdentitiesAt(nodes, w)
  {
  }

  ghost predicate NoDuplicates<T>(s: seq<T>) {
    forall j, k | 0 <= j < k < |s| :: s[j] != s[k]
  }

  lemma NoDuplicatesRemove<T>(s: seq<T>, k: nat)
    requires NoDuplicates(s) && k < |s|
    ensures NoDuplicates(s[..k] + s[k + 1..])
  {
    var s' := s[..k] + s[k + 1..];
    forall i, j | 0 <= i < j < |s'|
      ensures s'[i] != s'[j]
    {
      var i0 := if i < k then i else i + 1;
      var j0 := if j < k then j else j + 1;
      assert s'[i] == s[i0] && s'[j] == s[j0];
    }
  }

  lemma NoDuplicatesAppend<T>(s: seq<T>, x: T)
    requires NoDuplicates(s) && x !in s
    ensures NoDuplicates(s + [x])
  {
  }

  /** The chain under root `r` is well formed: its count is its length, and
      its links are consistent. */
  ghost predicate ChainOk(t: Target, r: nat)
    requires Indexed(t) && r < |t.roots|
  {
    t.roots[r].size == |RootChain(t, r)| && ChainLinks(t, r)
  }

  /** The nodes of the chain under root `r` are live, each node's `previous`
      is its predecessor, and no two nodes share a listener and capture flag. */
  ghost predicate ChainLinks(t: Target, r: nat)
    requires Indexed(t) && r < |t.roots|
  {
    var w := RootChain(t, r);
    && (forall k {:trigger t.nodes[w[k]]} | 0 <= k < |w| :: !t.nodes[w[k]].removed)
    && (forall k {:trigger t.nodes[w[k]]} | 0 <= k < |w| :: t.nodes[w[k]].previous == if k == 0 then RootLink(r) else NodeLink(w[k - 1]))
    && NoDuplicates(IdentitiesAt(t.nodes, w))
  }

  ghost predicate HeadsOwned(t: Target)
    requires Indexed(t)
  {
    forall r {:trigger Owner(t.nodes, t.roots[r].next.value)} | 0 <= r < |t.roots| ::
      t.roots[r].next.Some? ==> Owner(t.nodes, t.roots[r].next.value) == r
  }

  /** A node that was never unlinked is still in its owner's chain. */
  ghost predicate LiveNodesLinked(t: Target)
    requires Indexed(t)
  {
    forall i {:trigger Owner(t.nodes, i)} | 0 <= i < |t.nodes| :: !t.nodes[i].removed ==> i in RootChain(t, Owner(t.nodes, i))
  }

  /** The map's keys, listed once each in `keys`, and distinct types have
      distinct roots. */
  ghost predicate KeysOk(t: Target) {
    && NoDuplicates(t.keys)
    && (forall ty :: ty in t.keys <==> ty in t.events)
    && (forall a, b | a in t.events && b in t.events && a != b :: t.events[a] != t.events[b])
  }

  /** The shape of the arenas: every chain is well linked, and every node
      stays with the root it was linked under. */
  ghost predicate Wired(t: Target) {
    && Indexed(t)
    && (forall r | 0 <= r < |t.roots| :: ChainLinks(t, r))
    && HeadsOwned(t)
    && NextKeepsOwner(t.nodes)
    && LiveNodesLinked(t)
  }

  /** Every root's count is the length of its chain. */
  ghost predicate Counted(t: Target)
    requires Indexed(t)
  {
    forall r | 0 <= r < |t.roots| :: t.roots[r].size == |RootChain(t, r)|
  }

  /** The invariant every reachable state keeps. */
  ghost predicate Valid(t: Target) {
    Wired(t) && Counted(t) && KeysOk(t)
  }

  /** The state evolves only by growth of the arenas, never re-assigns a
      node to another chain, never changes what a node registers, never
      revives an unlinked node, and never clears the leak-warning flag. */
  ghost predicate Evolves(t: Target, t': Target)
    requires Indexed(t) && Indexed(t')
  {
    && |t.roots| <= |t'.roots|
    && |t.nodes| <= |t'.nodes|
    && (forall i {:trigger Owner(t'.nodes, i)} | 0 <= i < |t.nodes| :: Owner(t'.nodes, i) == Owner(t.nodes, i))
    && (forall i | 0 <= i < |t.nodes| :: RegistrationOf(t'.nodes[i]) == RegistrationOf(t.nodes[i]))
    && (forall i | 0 <= i < |t.nodes| :: t.nodes[i].removed ==> t'.nodes[i].removed)
    && (t.maxListenersWarned ==> t'.maxListenersWarned)
  }

  lemma EvolvesTransitive(t1: Target, t2: Target, t3: Target)
    requires Indexed(t1) && Indexed(t2) && Indexed(t3)
    requires Evolves(t1, t2) && Evolves(t2, t3)
    ensures Evolves(t1, t3)
  {
  }

  lemma EvolvesReflexive(t: Target)
    requires Indexed(t)
    ensures Evolves(t, t)
  {
  }

  // ---------------------------------------------------------------------
  // ListenerNode: constructor and remove()

  /** `previous` names a root or a node of the state. */
  ghost predicate LinkIn(t: Target, previous: Link) {
    match previous
    case RootLink(r) => r < |t.roots|
    case NodeLink(p) => p < |t.nodes|
  }

  /** `previous.next = next`, where `previous` is a root or a node. */
  function SetNext(t: Target, previous: Link, next: Option<nat>): (t': Target)
    requires LinkIn(t, previous)
    ensures |t'.nodes| == |t.nodes| && |t'.roots| == |t.roots|
  {
    match previous
    case RootLink(r) => t.(roots := t.roots[r := t.roots[r].(next := next)])
    case NodeLink(p) => t.(nodes := t.nodes[p := t.nodes[p].(next := next)])
  }

  /** `node.previous = previous`. */
  function SetPrevious(t: Target, i: nat, previous: Link): (t': Target)
    requires i < |t.nodes|
    ensures |t'.nodes| == |t.nodes| && |t'.roots| == |t.roots|
  {
    t.(nodes := t.nodes[i := t.nodes[i].(previous := previous)])
  }

  /** `node.removed = true`. */
  function SetRemoved(t: Target, i: nat): (t': Target)
    requires i < |t.nodes|
    ensures |t'.nodes| == |t.nodes| && |t'.roots| == |t.roots|
  {
    t.(nodes := t.nodes[i := t.nodes[i].(removed := true)])
  }

  /** `new ListenerNode(previous, …)`: a new node at the end of the arena,
      made the `next` of `previous`. */
  function LinkNode(t: Target, previous: Link, listener: ListenerValue, once: bool, capture: bool, passive: bool): (t': Target)
    requires Indexed(t) && LinkIn(t, previous)
    ensures Indexed(t')
    ensures |t'.nodes| == |t.nodes| + 1 && |t'.roots| == |t.roots|
  {
    var t1 := t.(nodes := t.nodes + [Node(listener, once, capture, passive, None, previous, false)]);
    assert Indexed(t1);
    SetNextIndexed(t1, previous, Some(|t.nodes|));
    SetNext(t1, previous, Some(|t.nodes|))
  }

  lemma SetNextIndexed(t: Target, previous: Link, next: Option<nat>)
    requires Indexed(t) && LinkIn(t, previous)
    requires next.Some? ==> next.value < |t.nodes| && (previous.NodeLink? ==> previous.node < next.value)
    ensures Indexed(SetNext(t, previous, next))
  {
  }

  /** `ListenerNode.remove()`: the predecessor skips the node, the successor
      points back to the predecessor, and the node is flagged. The node's own
      `next` is left as it was. */
  function Splice(t: Target, h: nat): (t': Target)
    requires Indexed(t) && h < |t.nodes|
    ensures |t'.nodes| == |t.nodes| && |t'.roots| == |t.roots|
  {
    var n := t.nodes[h];
    var t1 := SetNext(t, n.previous, n.next);
    var t2 := if n.next.Some? then SetPrevious(t1, n.next.value, n.previous) else t1;
    SetRemoved(t2, h)
  }

  /** A new root `{ size: 1, next: undefined }`. */
  function AddRoot(t: Target): (t': Target) {
    t.(roots := t.roots + [Root(1, None)])
  }

  /** `root.size++` / `root.size--`. */
  function AddSize(t: Target, r: nat, delta: int): (t': Target)
    requires r < |t.roots|
    ensures |t'.nodes| == |t.nodes| && |t'.roots| == |t.roots|
  {
    t.(roots := t.roots[r := t.roots[r].(size := t.roots[r].size + delta)])
  }

  /** `events.set(type, root)` for a type not yet in the map: the key goes
      last in insertion order. */
  function Register(t: Target, eventType: EventType, r: nat): (t': Target) {
    t.(events := t.events[eventType := r], keys := t.keys + [eventType])
  }

  /** `handler.remove(); root.size--`, shared by `removeEventListener` and the
      `once` path of dispatch. */
  function Unlink(t: Target, h: nat, r: nat): (t': Target)
    requires Indexed(t) && h < |t.nodes| && r < |t.roots|
    ensures Indexed(t')
    ensures |t'.nodes| == |t.nodes| && |t'.roots| == |t.roots|
  {
    SpliceIndexed(t, h);
    AddSize(Splice(t, h), r, -1)
  }

  /** Splicing a node out keeps every stored index in range. */
  lemma SpliceIndexed(t: Target, h: nat)
    requires Indexed(t) && h < |t.nodes|
    ensures Indexed(Splice(t, h))
  {
    var n := t.nodes[h];
    SetNextIndexed(t, n.previous, n.next);
    var t1 := SetNext(t, n.previous, n.next);
    if n.next.Some? {
      SetPreviousIndexed(t1, n.next.value, n.previous);
    }
  }

  lemma SetPreviousIndexed(t: Target, i: nat, previous: Link)
    requires Indexed(t) && i < |t.nodes| && LinkIn(t, previous)
    requires previous.NodeLink? ==> previous.node < i
    ensures Indexed(SetPrevious(t, i, previous))
  {
  }

  /** What the walk loop of `addEventListener` ends on: the last node of the
      chain, or the root when the chain is empty. */
  function TailLink(t: Target, r: nat): (l: Link)
    requires Indexed(t) && r < |t.roots|
    ensures LinkIn(t, l)
  {
    var w := RootChain(t, r);
    if w == [] then RootLink(r) else NodeLink(w[|w| - 1])
  }

  /** `new ListenerNode(previous, …)` after the walk: the new node goes last
      in chain `r` (right after the root when the chain is empty). */
  function LinkTail(t: Target, r: nat, listener: ListenerValue, once: bool, capture: bool, passive: bool): (t': Target)
    requires Indexed(t) && r < |t.roots|
    ensures Indexed(t')
    ensures |t'.nodes| == |t.nodes| + 1 && |t'.roots| == |t.roots|
  {
    LinkNode(t, TailLink(t, r), listener, once, capture, passive)
  }

  /** `events.delete(type)`: the key leaves the map and its place in the
      insertion order; the root itself is left alone. */
  function Unregister(t: Target, eventType: EventType): (t': Target) {
    t.(events := t.events - {eventType}, keys := Without(t.keys, eventType))
  }

  // ---------------------------------------------------------------------
  // The leak warning

  /** `kNewListener`: the first time a chain grows past a positive maximum,
      the target is flagged as warned; nothing else changes. */
  function NewListener(t: Target, size: int): (t': Target)
    ensures t' == t.(maxListenersWarned := t'.maxListenersWarned)
    ensures Indexed(t) ==> Indexed(t')
    ensures t'.maxListenersWarned <==> t.maxListenersWarned || (t.maxListeners > 0 && size > t.maxListeners)
  {
    if t.maxListeners > 0 && size > t.maxListeners && !t.maxListenersWarned then
      t.(maxListenersWarned := true)
    else
      t
  }

  // ---------------------------------------------------------------------
  // Lookups

  /** The position in `w` of the first node registered with `listener` and
      `capture`. */
  function FirstMatch(nodes: seq<Node>, w: seq<nat>, listener: ListenerValue, capture: bool): (k: Option<nat>)
    requires forall j | 0 <= j < |w| :: w[j] < |nodes|
    ensures k.Some? ==> k.value < |w| && Same(nodes[w[k.value]], listener, capture)
    ensures k.Some? ==> forall j {:trigger nodes[w[j]]} | 0 <= j < k.value :: !Same(nodes[w[j]], listener, capture)
    ensures k.None? ==> forall j {:trigger nodes[w[j]]} | 0 <= j < |w| :: !Same(nodes[w[j]], listener, capture)
  {
    if w == [] then None
    else if Same(nodes[w[0]], listener, capture) then Some(0)
    else match FirstMatch(nodes, w[1..], listener, capture)
      case None => None
      case Some(k) => Some(k + 1)
  }

  function Without(keys: seq<EventType>, eventType: EventType): (keys': seq<EventType>)
    ensures forall ty :: ty in keys' <==> ty in keys && ty != eventType
    ensures NoDuplicates(keys) ==> NoDuplicates(keys')
  {
    if keys == [] then []
    else if keys[0] == eventType then Without(keys[1..], eventType)
    else
      var rest := Without(keys[1..], eventType);
      assert NoDuplicates(keys) ==> keys[0] !in keys[1..] && NoDuplicates(keys[1..]);
      [keys[0]] + rest
  }

  // ---------------------------------------------------------------------
  // The operations

  /** `addEventListener(type, listener, options)`. `listener` is `None` when
      the call has fewer than two arguments. */
  function AddEventListener(t: Target, eventType: EventType, listener: Option<ListenerValue>, options: Option<ListenerOptions>): (r: (Target, Status))
    requires Indexed(t)
    ensures Indexed(r.0) && |t.roots| <= |r.0.roots| && |t.nodes| <= |r.0.nodes|
    ensures r.1.Threw? <==> listener.None? || ShouldAddListener(listener.value).Err?
    ensures r.1.Threw? ==> r.0 == t && r.1.error == if listener.None? then InvalidAddEventListener else InvalidListener
    ensures listener.Some? && ShouldAddListener(listener.value) == Ok(false) ==> r == (t, Completed)
  {
    if listener.None? then (t, Threw(InvalidAddEventListener))
    else
      var once, capture, passive := AddOnce(options), AddCapture(options), AddPassive(options);
      match ShouldAddListener(listener.value)
      case Err(e) => (t, Threw(e))
      case Ok(accepted) =>
        if !accepted then (t, Completed)
        else if eventType !in t.events then (AddFirst(t, eventType, listener.value, once, capture, passive), Completed)
        else
          var r := t.events[eventType];
          if FirstMatch(t.nodes, RootChain(t, r), listener.value, capture).Some? then (t, Completed)
          else (AddLast(t, r, listener.value, once, capture, passive), Completed)
  }

  /** The first listener of a type: a root `{ size: 1 }` with one node, the
      leak check at size 1, then `events.set(type, root)`. */
  function AddFirst(t: Target, eventType: EventType, listener: ListenerValue, once: bool, capture: bool, passive: bool): (t': Target)
    requires Indexed(t)
    ensures Indexed(t') && |t'.roots| == |t.roots| + 1 && |t'.nodes| == |t.nodes| + 1
  {
    var r := |t.roots|;
    var t1 := AddRoot(t);
    var t2 := LinkTail(t1, r, listener, once, capture, passive);
    Register(NewListener(t2, 1), eventType, r)
  }

  /** A further listener: a node after the walk's last one, `root.size++`,
      then the leak check at the new size. */
  function AddLast(t: Target, r: nat, listener: ListenerValue, once: bool, capture: bool, passive: bool): (t': Target)
    requires Indexed(t) && r < |t.roots|
    ensures Indexed(t') && |t'.roots| == |t.roots| && |t'.nodes| == |t.nodes| + 1
  {
    var t1 := LinkTail(t, r, listener, once, capture, passive);
    var t2 := AddSize(t1, r, 1);
    NewListener(t2, t2.roots[r].size)
  }

  /** `removeEventListener(type, listener, options)`; a missing listener is
      `Undefined`. */
  function RemoveEventListener(t: Target, eventType: EventType, listener: ListenerValue, options: Option<ListenerOptions>): (r: (Target, Status))
    requires Indexed(t)
    ensures Indexed(r.0) && |r.0.roots| == |t.roots| && |r.0.nodes| == |t.nodes|
    ensures r.1.Threw? <==> ShouldAddListener(listener).Err?
    ensures r.1.Threw? ==> r.0 == t && r.1.error == InvalidListener
    ensures ShouldAddListener(listener) == Ok(false) ==> r == (t, Completed)
  {
    match ShouldAddListener(listener)
    case Err(e) => (t, Threw(e))
    case Ok(accepted) =>
      if !accepted then (t, Completed)
      else
        var capture := RemoveCapture(options);
        if eventType !in t.events || t.roots[t.events[eventType]].next.None? then (t, Completed)
        else
          var r := t.events[eventType];
          var w := RootChain(t, r);
          match FirstMatch(t.nodes, w, listener, capture)
          case None => (t, Completed)
          case Some(k) => (RemoveNode(t, eventType, r, w[k]), Completed)
  }

  /** `handler.remove(); root.size--`, and `events.delete(type)` when the
      count reaches 0. */
  function RemoveNode(t: Target, eventType: EventType, r: nat, h: nat): (t': Target)
    requires Indexed(t) && r < |t.roots| && h < |t.nodes|
    ensures Indexed(t') && |t'.roots| == |t.roots| && |t'.nodes| == |t.nodes|
  {
    var t1 := Unlink(t, h, r);
    if t1.roots[r].size == 0 then Unregister(t1, eventType) else t1
  }

  /** `removeAllEventListeners(type)`: drops one key, or every key when `type`
      is undefined. The dropped chains are left as they are (not flagged). */
  function RemoveAllEventListeners(t: Target, eventType: Option<EventType>): (t': Target)
    ensures t'.roots == t.roots && t'.nodes == t.nodes
    ensures forall ty :: ty in t'.events <==> ty in t.events && eventType.Some? && ty != eventType.value
  {
    match eventType
    case Some(ty) => Unregister(t, ty)
    case None => t.(events := map[], keys := [])
  }

  function SetMaxListeners(t: Target, n: int): Target {
    t.(maxListeners := n)
  }

  function GetMaxListeners(t: Target): int {
    t.maxListeners
  }

  /** `eventNames()`: the map's keys in insertion order. */
  function EventNames(t: Target): seq<EventType> {
    t.keys
  }

  /** `listenerCount(type)`: the root's count, 0 for an absent type. */
  function ListenerCount(t: Target, eventType: EventType): int
    requires Indexed(t)
  {
    if eventType in t.events then t.roots[t.events[eventType]].size else 0
  }
}
