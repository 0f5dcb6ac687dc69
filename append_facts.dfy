/** What `new ListenerNode(previous, …)` after the walk of
    `addEventListener` does to the chains, and that it keeps the registry
    invariant. */
module AppendFacts {
  import opened Values
  import opened Chains
  import opened Registry

  /** Node by node and root by root, what `LinkTail` changes: the tail (a
      node or the root) now points at the new node, which is added at the end
      of the arena; nothing else changes. */
  lemma LinkTailEffect(t: Target, r: nat, listener: ListenerValue, once: bool, capture: bool, passive: bool)
    requires Indexed(t) && r < |t.roots|
    ensures forall i {:trigger LinkTail(t, r, listener, once, capture, passive).nodes[i]} | 0 <= i < |t.nodes| ::
      LinkTail(t, r, listener, once, capture, passive).nodes[i] ==
        t.nodes[i].(next := if TailLink(t, r) == NodeLink(i) then Some(|t.nodes|) else t.nodes[i].next)
    ensures LinkTail(t, r, listener, once, capture, passive).nodes[|t.nodes|] ==
      Node(listener, once, capture, passive, None, TailLink(t, r), false)
    ensures forall q {:trigger LinkTail(t, r, listener, once, capture, passive).roots[q]} | 0 <= q < |t.roots| ::
      LinkTail(t, r, listener, once, capture, passive).roots[q] ==
        t.roots[q].(next := if TailLink(t, r) == RootLink(q) then Some(|t.nodes|) else t.roots[q].next)
    ensures LinkTail(t, r, listener, once, capture, passive) ==
      t.(roots := LinkTail(t, r, listener, once, capture, passive).roots, nodes := LinkTail(t, r, listener, once, capture, passive).nodes)
  {
    var previous := TailLink(t, r);
    var t1 := t.(nodes := t.nodes + [Node(listener, once, capture, passive, None, previous, false)]);
    assert LinkTail(t, r, listener, once, capture, passive) == SetNext(t1, previous, Some(|t.nodes|));
  }

  /** The new node becomes the last node of chain `r`. */
  lemma LinkTailChain(t: Target, r: nat, listener: ListenerValue, once: bool, capture: bool, passive: bool)
    requires Indexed(t) && r < |t.roots|
    ensures RootChain(LinkTail(t, r, listener, once, capture, passive), r) == RootChain(t, r) + [|t.nodes|]
  {
    var w := RootChain(t, r);
    var t' := LinkTail(t, r, listener, once, capture, passive);
    var n := |t.nodes|;
    LinkTailEffect(t, r, listener, once, capture, passive);
    assert Walk(t'.nodes, Some(n)) == [n];
    if w == [] {
      assert t'.roots[r].next == Some(n);
    } else {
      WalkRedirect(t.nodes, t'.nodes, t.roots[r].next, |w| - 1, Some(n));
      assert w[..|w|] == w;
    }
  }

  /** The tail of chain `r`, when it is a node, belongs to root `r`. */
  lemma TailOwned(t: Target, r: nat)
    requires Indexed(t) && r < |t.roots| && HeadsOwned(t) && NextKeepsOwner(t.nodes)
    ensures TailLink(t, r).NodeLink? ==> Owner(t.nodes, TailLink(t, r).node) == r
  {
    var w := RootChain(t, r);
    if w != [] {
      WalkOwned(t.nodes, t.roots[r].next, r);
      assert w[|w| - 1] in w;
    }
  }

  /** Every other chain, and every node in it, is unchanged: the tail
      belongs to root `r`. */
  lemma LinkTailOther(t: Target, r: nat, q: nat, listener: ListenerValue, once: bool, capture: bool, passive: bool)
    requires Indexed(t) && r < |t.roots| && HeadsOwned(t) && NextKeepsOwner(t.nodes)
    requires q < |t.roots| && q != r
    ensures RootChain(LinkTail(t, r, listener, once, capture, passive), q) == RootChain(t, q)
    ensures forall x | x in RootChain(t, q) :: LinkTail(t, r, listener, once, capture, passive).nodes[x] == t.nodes[x]
  {
    var t' := LinkTail(t, r, listener, once, capture, passive);
    TailOwned(t, r);
    WalkOwned(t.nodes, t.roots[q].next, q);
    LinkTailEffect(t, r, listener, once, capture, passive);
    forall x | x in RootChain(t, q)
      ensures t'.nodes[x] == t.nodes[x]
    {
      assert TailLink(t, r) != NodeLink(x);
    }
    WalkFrame(t.nodes, t'.nodes, t.roots[q].next);
  }

  /** No existing node changes owner, and the new node belongs to root `r`. */
  lemma LinkTailOwners(t: Target, r: nat, listener: ListenerValue, once: bool, capture: bool, passive: bool)
    requires Indexed(t) && r < |t.roots| && HeadsOwned(t) && NextKeepsOwner(t.nodes)
    ensures forall i | 0 <= i < |t.nodes| :: Owner(LinkTail(t, r, listener, once, capture, passive).nodes, i) == Owner(t.nodes, i)
    ensures Owner(LinkTail(t, r, listener, once, capture, passive).nodes, |t.nodes|) == r
  {
    var nodes' := LinkTail(t, r, listener, once, capture, passive).nodes;
    LinkTailEffect(t, r, listener, once, capture, passive);
    forall i | 0 <= i < |t.nodes|
      ensures Owner(nodes', i) == Owner(t.nodes, i)
    {
      OwnerPreserved(t.nodes, nodes', i);
    }
    TailOwned(t, r);
  }

  /** The chain that grew still has consistent links, provided the new
      registration was not already in it. */
  lemma LinkTailLinksOwn(t: Target, r: nat, listener: ListenerValue, once: bool, capture: bool, passive: bool)
    requires Indexed(t) && r < |t.roots| && ChainLinks(t, r)
    requires (listener, capture) !in IdentitiesAt(t.nodes, RootChain(t, r))
    ensures ChainLinks(LinkTail(t, r, listener, once, capture, passive), r)
  {
    var w := RootChain(t, r);
    var t' := LinkTail(t, r, listener, once, capture, passive);
    var n := |t.nodes|;
    LinkTailChain(t, r, listener, once, capture, passive);
    LinkTailEffect(t, r, listener, once, capture, passive);
    var w' := w + [n];
    forall m | 0 <= m < |w'|
      ensures !t'.nodes[w'[m]].removed
      ensures t'.nodes[w'[m]].previous == if m == 0 then RootLink(r) else NodeLink(w'[m - 1])
    {
      if m < |w| {
        assert w'[m] == w[m];
        if m > 0 {
          assert w'[m - 1] == w[m - 1];
        }
      }
    }
    var ids := IdentitiesAt(t.nodes, w);
    NoDuplicatesAppend(ids, (listener, capture));
    IdentitiesFrame(t.nodes, t'.nodes, w);
    assert IdentitiesAt(t'.nodes, w') == ids + [(listener, capture)];
  }

  /** Every other chain keeps its links. */
  lemma LinkTailLinksOther(t: Target, r: nat, q: nat, listener: ListenerValue, once: bool, capture: bool, passive: bool)
    requires Indexed(t) && r < |t.roots| && HeadsOwned(t) && NextKeepsOwner(t.nodes)
    requires q < |t.roots| && q != r && ChainLinks(t, q)
    ensures ChainLinks(LinkTail(t, r, listener, once, capture, passive), q)
    ensures LinkTail(t, r, listener, once, capture, passive).roots[q].size == t.roots[q].size
  {
    var t' := LinkTail(t, r, listener, once, capture, passive);
    var v := RootChain(t, q);
    LinkTailOther(t, r, q, listener, once, capture, passive);
    LinkTailEffect(t, r, listener, once, capture, passive);
    IdentitiesFrame(t.nodes, t'.nodes, v);
    assert forall m | 0 <= m < |v| :: v[m] in v;
  }

  /** Every root's head still belongs to it. */
  lemma LinkTailHeadsOwned(t: Target, r: nat, listener: ListenerValue, once: bool, capture: bool, passive: bool)
    requires Indexed(t) && r < |t.roots| && HeadsOwned(t) && NextKeepsOwner(t.nodes)
    ensures HeadsOwned(LinkTail(t, r, listener, once, capture, passive))
  {
    LinkTailOwners(t, r, listener, once, capture, passive);
    LinkTailEffect(t, r, listener, once, capture, passive);
  }

  /** Following `next` still never leaves a chain. */
  lemma LinkTailNextKeepsOwner(t: Target, r: nat, listener: ListenerValue, once: bool, capture: bool, passive: bool)
    requires Indexed(t) && r < |t.roots| && HeadsOwned(t) && NextKeepsOwner(t.nodes)
    ensures NextKeepsOwner(LinkTail(t, r, listener, once, capture, passive).nodes)
  {
    LinkTailOwners(t, r, listener, once, capture, passive);
    LinkTailEffect(t, r, listener, once, capture, passive);
    TailOwned(t, r);
  }

  /** A node that is not flagged is still in its owner's chain, and so is
      the new node. */
  lemma LinkTailLiveNodesLinked(t: Target, r: nat, listener: ListenerValue, once: bool, capture: bool, passive: bool)
    requires Indexed(t) && r < |t.roots| && HeadsOwned(t) && NextKeepsOwner(t.nodes) && LiveNodesLinked(t)
    ensures LiveNodesLinked(LinkTail(t, r, listener, once, capture, passive))
  {
    var t' := LinkTail(t, r, listener, once, capture, passive);
    LinkTailOwners(t, r, listener, once, capture, passive);
    LinkTailEffect(t, r, listener, once, capture, passive);
    LinkTailChain(t, r, listener, once, capture, passive);
    forall i | 0 <= i < |t'.nodes| && !t'.nodes[i].removed
      ensures i in RootChain(t', Owner(t'.nodes, i))
    {
      if i < |t.nodes| {
        var q := Owner(t.nodes, i);
        assert i in RootChain(t, q);
        if q != r {
          LinkTailOther(t, r, q, listener, once, capture, passive);
        }
      }
    }
  }

  /** Linking at the tail only lets the state evolve. */
  lemma LinkTailEvolves(t: Target, r: nat, listener: ListenerValue, once: bool, capture: bool, passive: bool)
    requires Indexed(t) && r < |t.roots| && HeadsOwned(t) && NextKeepsOwner(t.nodes)
    ensures Evolves(t, LinkTail(t, r, listener, once, capture, passive))
  {
    LinkTailOwners(t, r, listener, once, capture, passive);
    LinkTailEffect(t, r, listener, once, capture, passive);
  }

  /** Linking a registration not yet in chain `r` keeps the arenas wired. */
  lemma LinkTailWired(t: Target, r: nat, listener: ListenerValue, once: bool, capture: bool, passive: bool)
    requires Wired(t) && r < |t.roots|
    requires (listener, capture) !in IdentitiesAt(t.nodes, RootChain(t, r))
    ensures Wired(LinkTail(t, r, listener, once, capture, passive))
    ensures Evolves(t, LinkTail(t, r, listener, once, capture, passive))
  {
    var t' := LinkTail(t, r, listener, once, capture, passive);
    forall q | 0 <= q < |t'.roots|
      ensures ChainLinks(t', q)
    {
      if q == r {
        LinkTailLinksOwn(t, r, listener, once, capture, passive);
      } else {
        LinkTailLinksOther(t, r, q, listener, once, capture, passive);
      }
    }
    LinkTailHeadsOwned(t, r, listener, once, capture, passive);
    LinkTailNextKeepsOwner(t, r, listener, once, capture, passive);
    LinkTailLiveNodesLinked(t, r, listener, once, capture, passive);
    LinkTailEvolves(t, r, listener, once, capture, passive);
  }

  /** Only the size of root `r` changes; the chains stay as they are. */
  lemma AddSizeKeeps(t: Target, r: nat, delta: int)
    requires Indexed(t) && r < |t.roots|
    ensures Indexed(AddSize(t, r, delta))
    ensures forall q | 0 <= q < |t.roots| :: RootChain(AddSize(t, r, delta), q) == RootChain(t, q)
    ensures Wired(t) ==> Wired(AddSize(t, r, delta))
    ensures Evolves(t, AddSize(t, r, delta))
  {
    var t' := AddSize(t, r, delta);
    assert t'.nodes == t.nodes;
    assert forall q | 0 <= q < |t.roots| :: t'.roots[q].next == t.roots[q].next;
    assert forall q | 0 <= q < |t.roots| :: RootChain(t', q) == RootChain(t, q);
    if Wired(t) {
      forall q | 0 <= q < |t.roots|
        ensures ChainLinks(t', q)
      {
        assert ChainLinks(t, q);
      }
    }
  }

  /** Appending to an existing chain (`new ListenerNode(previous, …);
      root.size++`) keeps the invariant when the registration is new. */
  lemma AppendValid(t: Target, r: nat, listener: ListenerValue, once: bool, capture: bool, passive: bool)
    requires Valid(t) && r < |t.roots|
    requires (listener, capture) !in IdentitiesAt(t.nodes, RootChain(t, r))
    ensures Valid(AddSize(LinkTail(t, r, listener, once, capture, passive), r, 1))
    ensures Evolves(t, AddSize(LinkTail(t, r, listener, once, capture, passive), r, 1))
  {
    var t1 := LinkTail(t, r, listener, once, capture, passive);
    var t2 := AddSize(t1, r, 1);
    LinkTailWired(t, r, listener, once, capture, passive);
    AddSizeKeeps(t1, r, 1);
    forall q | 0 <= q < |t2.roots|
      ensures t2.roots[q].size == |RootChain(t2, q)|
    {
      if q == r {
        LinkTailChain(t, r, listener, once, capture, passive);
      } else {
        LinkTailOther(t, r, q, listener, once, capture, passive);
        LinkTailLinksOther(t, r, q, listener, once, capture, passive);
      }
    }
    assert KeysOk(t2);
  }

  /** A new root with no node yet leaves the arenas wired. */
  lemma AddRootWired(t: Target)
    requires Wired(t)
    ensures Wired(AddRoot(t))
    ensures RootChain(AddRoot(t), |t.roots|) == []
    ensures forall q | 0 <= q < |t.roots| :: RootChain(AddRoot(t), q) == RootChain(t, q)
    ensures Evolves(t, AddRoot(t))
  {
    var t' := AddRoot(t);
    assert forall q | 0 <= q < |t.roots| :: t'.roots[q] == t.roots[q];
    assert forall q | 0 <= q < |t.roots| :: RootChain(t', q) == RootChain(t, q);
    forall q | 0 <= q < |t'.roots|
      ensures ChainLinks(t', q)
    {
      if q < |t.roots| {
        assert ChainLinks(t, q);
      }
    }
  }

  /** The first registration of a type (a root `{ size: 1 }` and its first
      node) keeps the invariant, before the type is entered in the map. */
  lemma NewRootValid(t: Target, listener: ListenerValue, once: bool, capture: bool, passive: bool)
    requires Valid(t)
    ensures Valid(LinkTail(AddRoot(t), |t.roots|, listener, once, capture, passive))
    ensures Evolves(t, LinkTail(AddRoot(t), |t.roots|, listener, once, capture, passive))
    ensures RootChain(LinkTail(AddRoot(t), |t.roots|, listener, once, capture, passive), |t.roots|) == [|t.nodes|]
  {
    var r := |t.roots|;
    var t1 := AddRoot(t);
    var t2 := LinkTail(t1, r, listener, once, capture, passive);
    AddRootWired(t);
    LinkTailWired(t1, r, listener, once, capture, passive);
    LinkTailChain(t1, r, listener, once, capture, passive);
    forall q | 0 <= q < |t2.roots|
      ensures t2.roots[q].size == |RootChain(t2, q)|
    {
      if q != r {
        LinkTailOther(t1, r, q, listener, once, capture, passive);
        LinkTailLinksOther(t1, r, q, listener, once, capture, passive);
      }
    }
    assert KeysOk(t2);
  }
}
