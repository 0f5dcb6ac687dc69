/** The per-type listener chain. Nodes live in an arena (a sequence indexed
    by node number); `next` and `previous` are indices into it, and
    `previous` may instead name the chain's root record. */
module Chains {
  import opened Values

  /** What a node's `previous` points at: the root record of a chain, or
      another node. */
  datatype Link = RootLink(root: nat) | NodeLink(node: nat)

  /** `ListenerRoot`: the live count and the head of one chain. */
  datatype Root = Root(size: int, next: Option<nat>)

  /** `ListenerNode`: one registration. */
  datatype Node = Node(
    listener: ListenerValue,
    once: bool,
    capture: bool,
    passive: bool,
    next: Option<nat>,
    previous: Link,
    removed: bool)

  /** `ListenerNode.same`: registrations are identified by listener and capture. */
  predicate Same(node: Node, listener: ListenerValue, capture: bool) {
    node.listener == listener && node.capture == capture
  }

  /** Every `next` points forward, to a later node of the arena. Nodes are
      only ever linked after the chain's tail, and a new node is always the
      last one of the arena, so this holds of every reachable state. */
  ghost predicate Linked(nodes: seq<Node>) {
    forall i | 0 <= i < |nodes| :: nodes[i].next.Some? ==> i < nodes[i].next.value < |nodes|
  }

  /** Every `previous` that names a node points backwards. */
  ghost predicate BackLinked(nodes: seq<Node>) {
    forall i | 0 <= i < |nodes| :: nodes[i].previous.NodeLink? ==> nodes[i].previous.node < i
  }

  ghost predicate Increasing(w: seq<nat>) {
    forall j, k | 0 <= j < k < |w| :: w[j] < w[k]
  }

  /** The nodes met by following `next` from `from`, in order. */
  function Walk(nodes: seq<Node>, from: Option<nat>): (w: seq<nat>)
    requires Linked(nodes)
    requires from.Some? ==> from.value < |nodes|
    ensures from.None? <==> w == []
    ensures from.Some? ==> w[0] == from.value
    ensures forall k | 0 <= k < |w| :: from.value <= w[k] < |nodes|
    decreases if from.Some? then |nodes| - from.value else 0
  {
    match from
    case None => []
    case Some(i) => [i] + Walk(nodes, nodes[i].next)
  }

  /** The root a node was linked under, found by following `previous`.
      Splicing a node out only shortens these paths, so the owner of a node
      never changes. */
  function Owner(nodes: seq<Node>, i: nat): (r: nat)
    requires BackLinked(nodes)
    requires i < |nodes|
    ensures exists j | 0 <= j <= i :: nodes[j].previous == RootLink(r)
    decreases i
  {
    match nodes[i].previous
    case RootLink(r) => r
    case NodeLink(j) => Owner(nodes, j)
  }

  /** A walk is its first node followed by the walk from that node's `next`. */
  lemma {:induction false} WalkSuffix(nodes: seq<Node>, from: Option<nat>, k: nat)
    requires Linked(nodes)
    requires from.Some? ==> from.value < |nodes|
    requires k < |Walk(nodes, from)|
    ensures Walk(nodes, Some(Walk(nodes, from)[k])) == Walk(nodes, from)[k..]
    decreases k
  {
    if k > 0 {
      var i := from.value;
      WalkSuffix(nodes, nodes[i].next, k - 1);
    }
  }

  /** A walk visits nodes in increasing order. */
  lemma {:induction false} WalkIncreasing(nodes: seq<Node>, from: Option<nat>)
    requires Linked(nodes)
    requires from.Some? ==> from.value < |nodes|
    ensures Increasing(Walk(nodes, from))
    decreases if from.Some? then |nodes| - from.value else 0
  {
    if from.Some? {
      var i := from.value;
      WalkIncreasing(nodes, nodes[i].next);
      assert Walk(nodes, from) == [i] + Walk(nodes, nodes[i].next);
    }
  }

  /** The `next` of the walk's `k`-th node is the node after it in the walk,
      or `None` for the last one. */
  lemma {:induction false} WalkNext(nodes: seq<Node>, from: Option<nat>, k: nat)
    requires Linked(nodes)
    requires from.Some? ==> from.value < |nodes|
    requires k < |Walk(nodes, from)|
    ensures nodes[Walk(nodes, from)[k]].next == if k + 1 < |Walk(nodes, from)| then Some(Walk(nodes, from)[k + 1]) else None
  {
    var w := Walk(nodes, from);
    WalkSuffix(nodes, from, k);
    assert Walk(nodes, Some(w[k])) == [w[k]] + Walk(nodes, nodes[w[k]].next);
    assert Walk(nodes, nodes[w[k]].next) == w[k + 1..];
  }

  /** Changing nodes the walk does not meet (or growing the arena) leaves the
      walk unchanged. */
  lemma {:induction false} WalkFrame(nodes: seq<Node>, nodes': seq<Node>, from: Option<nat>)
    requires Linked(nodes) && Linked(nodes')
    requires |nodes| <= |nodes'|
    requires from.Some? ==> from.value < |nodes|
    requires forall i | i in Walk(nodes, from) :: nodes'[i].next == nodes[i].next
    ensures Walk(nodes', from) == Walk(nodes, from)
    decreases if from.Some? then |nodes| - from.value else 0
  {
    if from.Some? {
      var i := from.value;
      assert i in Walk(nodes, from);
      var w := Walk(nodes, from);
      forall x | x in Walk(nodes, nodes[i].next)
        ensures nodes'[x].next == nodes[x].next
      {
        assert x in w[1..];
      }
      WalkFrame(nodes, nodes', nodes[i].next);
    }
  }

  /** Redirecting the `next` of the walk's node at position `j` to `target`
      makes the walk its first `j + 1` nodes followed by the walk from
      `target`. */
  lemma {:induction false} WalkRedirect(nodes: seq<Node>, nodes': seq<Node>, from: Option<nat>, j: nat, target: Option<nat>)
    requires Linked(nodes) && Linked(nodes')
    requires |nodes| <= |nodes'|
    requires from.Some? ==> from.value < |nodes|
    requires j < |Walk(nodes, from)|
    requires nodes'[Walk(nodes, from)[j]].next == target
    requires forall i | 0 <= i < |nodes| && i != Walk(nodes, from)[j] :: nodes'[i].next == nodes[i].next
    ensures target.Some? ==> target.value < |nodes'|
    ensures Walk(nodes', from) == Walk(nodes, from)[..j + 1] + Walk(nodes', target)
    decreases j
  {
    var w := Walk(nodes, from);
    var i := from.value;
    if j == 0 {
      assert Walk(nodes', from) == [i] + Walk(nodes', target);
    } else {
      var rest := Walk(nodes, nodes[i].next);
      assert w == [i] + rest;
      assert nodes'[i].next == nodes[i].next by {
        assert w[0] < w[j];
      }
      WalkRedirect(nodes, nodes', nodes[i].next, j - 1, target);
      calc {
        Walk(nodes', from);
        [i] + Walk(nodes', nodes[i].next);
        [i] + (rest[..j] + Walk(nodes', target));
        { assert w[..j + 1] == [i] + rest[..j]; }
        w[..j + 1] + Walk(nodes', target);
      }
    }
  }

  /** The walk from the successor of the walk's `k`-th node is the rest of
      the walk, also in any arena that keeps the `next` of those nodes. */
  lemma {:induction false} WalkAfter(nodes: seq<Node>, nodes': seq<Node>, from: Option<nat>, k: nat)
    requires Linked(nodes) && Linked(nodes') && |nodes| <= |nodes'|
    requires from.Some? ==> from.value < |nodes|
    requires k < |Walk(nodes, from)|
    requires forall x | x in Walk(nodes, from)[k + 1..] :: nodes'[x].next == nodes[x].next
    ensures Walk(nodes', nodes[Walk(nodes, from)[k]].next) == Walk(nodes, from)[k + 1..]
  {
    var w := Walk(nodes, from);
    WalkSuffix(nodes, from, k);
    assert Walk(nodes, Some(w[k])) == [w[k]] + Walk(nodes, nodes[w[k]].next);
    assert Walk(nodes, nodes[w[k]].next) == w[k + 1..];
    WalkFrame(nodes, nodes', nodes[w[k]].next);
  }

  /** Making the `(k-1)`-th node of a walk skip the `k`-th one removes exactly
      that node from the walk. */
  lemma {:induction false} WalkSkip(nodes: seq<Node>, nodes': seq<Node>, from: Option<nat>, k: nat)
    requires Linked(nodes) && Linked(nodes') && |nodes| <= |nodes'|
    requires from.Some? ==> from.value < |nodes|
    requires 0 < k < |Walk(nodes, from)|
    requires nodes'[Walk(nodes, from)[k - 1]].next == nodes[Walk(nodes, from)[k]].next
    requires forall i | 0 <= i < |nodes| && i != Walk(nodes, from)[k - 1] :: nodes'[i].next == nodes[i].next
    ensures Walk(nodes', from) == Walk(nodes, from)[..k] + Walk(nodes, from)[k + 1..]
  {
    var w := Walk(nodes, from);
    WalkIncreasing(nodes, from);
    forall x | x in w[k + 1..]
      ensures nodes'[x].next == nodes[x].next
    {
      assert w[k - 1] < x;
    }
    WalkAfter(nodes, nodes', from, k);
    WalkRedirect(nodes, nodes', from, k - 1, nodes[w[k]].next);
  }

  /** Following `next` never leaves the chain a node was linked under. */
  ghost predicate NextKeepsOwner(nodes: seq<Node>)
    requires BackLinked(nodes) && Linked(nodes)
  {
    forall i {:trigger Owner(nodes, nodes[i].next.value)} | 0 <= i < |nodes| ::
      nodes[i].next.Some? ==> Owner(nodes, nodes[i].next.value) == Owner(nodes, i)
  }

  lemma {:induction false} WalkOwned(nodes: seq<Node>, from: Option<nat>, r: nat)
    requires Linked(nodes) && BackLinked(nodes) && NextKeepsOwner(nodes)
    requires from.Some? ==> from.value < |nodes| && Owner(nodes, from.value) == r
    ensures forall x {:trigger x in Walk(nodes, from)} | x in Walk(nodes, from) :: Owner(nodes, x) == r
    decreases if from.Some? then |nodes| - from.value else 0
  {
    if from.Some? {
      WalkOwned(nodes, nodes[from.value].next, r);
    }
  }

  /** The owner of a node survives any change of `previous` links that either
      keeps a link or replaces a link to a node by that node's own link (the
      rewiring `remove()` does), and any growth of the arena. */
  lemma {:induction false} OwnerPreserved(nodes: seq<Node>, nodes': seq<Node>, i: nat)
    requires BackLinked(nodes) && BackLinked(nodes')
    requires |nodes| <= |nodes'|
    requires i < |nodes|
    requires forall j | 0 <= j < |nodes| ::
      nodes'[j].previous == nodes[j].previous ||
      (nodes[j].previous.NodeLink? && nodes'[j].previous == nodes[nodes[j].previous.node].previous)
    ensures Owner(nodes', i) == Owner(nodes, i)
    decreases i
  {
    if nodes'[i].previous == nodes[i].previous {
      if nodes[i].previous.NodeLink? {
        OwnerPreserved(nodes, nodes', nodes[i].previous.node);
      }
    } else {
      var h := nodes[i].previous.node;
      if nodes[h].previous.NodeLink? {
        OwnerPreserved(nodes, nodes', nodes[h].previous.node);
      }
    }
  }
}
