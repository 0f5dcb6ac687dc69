/** What `remove(); root.size--` does to the chains, and that it keeps the
    registry invariant. */
module UnlinkFacts {
  import opened Values
  import opened Chains
  import opened Registry

  /** Node by node, what `Unlink(t, h, r)` changes: the neighbours of `h`
      are rewired around it, `h` is flagged, and nothing else changes. */
  lemma UnlinkNodes(t: Target, h: nat, r: nat)
    requires Indexed(t) && h < |t.nodes| && r < |t.roots|
    ensures forall i {:trigger Unlink(t, h, r).nodes[i]} | 0 <= i < |t.nodes| :: Unlink(t, h, r).nodes[i] == t.nodes[i].(
      next := if t.nodes[h].previous == NodeLink(i) then t.nodes[h].next else t.nodes[i].next,
      previous := if t.nodes[h].next == Some(i) then t.nodes[h].previous else t.nodes[i].previous,
      removed := i == h || t.nodes[i].removed)
  {
    var n := t.nodes[h];
    var t1 := SetNext(t, n.previous, n.next);
    var t2 := if n.next.Some? then SetPrevious(t1, n.next.value, n.previous) else t1;
    var t3 := SetRemoved(t2, h);
    assert Unlink(t, h, r).nodes == t3.nodes;
    forall i | 0 <= i < |t.nodes|
      ensures t3.nodes[i] == t.nodes[i].(
        next := if n.previous == NodeLink(i) then n.next else t.nodes[i].next,
        previous := if n.next == Some(i) then n.previous else t.nodes[i].previous,
        removed := i == h || t.nodes[i].removed)
    {
      assert t1.nodes[i] == if n.previous == NodeLink(i) then t.nodes[i].(next := n.next) else t.nodes[i];
      assert t2.nodes[i] == if n.next == Some(i) then t1.nodes[i].(previous := n.previous) else t1.nodes[i];
    }
  }

  /** Root by root, what `Unlink(t, h, r)` changes: a root whose head was `h`
      now starts at `h`'s successor, and the count of `r` drops by one. */
  lemma UnlinkRoots(t: Target, h: nat, r: nat)
    requires Indexed(t) && h < |t.nodes| && r < |t.roots|
    ensures forall q {:trigger Unlink(t, h, r).roots[q]} | 0 <= q < |t.roots| :: Unlink(t, h, r).roots[q] == t.roots[q].(
      next := if t.nodes[h].previous == RootLink(q) then t.nodes[h].next else t.roots[q].next,
      size := if q == r then t.roots[q].size - 1 else t.roots[q].size)
    ensures Unlink(t, h, r) == t.(roots := Unlink(t, h, r).roots, nodes := Unlink(t, h, r).nodes)
  {
    var n := t.nodes[h];
    var t1 := SetNext(t, n.previous, n.next);
    var t2 := if n.next.Some? then SetPrevious(t1, n.next.value, n.previous) else t1;
    var t3 := SetRemoved(t2, h);
    assert t3.roots == t1.roots;
    assert Unlink(t, h, r).roots == t1.roots[r := t1.roots[r].(size := t1.roots[r].size - 1)];
  }

  /** Both halves of the effect of `Unlink`. */
  lemma UnlinkEffect(t: Target, h: nat, r: nat)
    requires Indexed(t) && h < |t.nodes| && r < |t.roots|
    ensures forall i {:trigger Unlink(t, h, r).nodes[i]} | 0 <= i < |t.nodes| :: Unlink(t, h, r).nodes[i] == t.nodes[i].(
      next := if t.nodes[h].previous == NodeLink(i) then t.nodes[h].next else t.nodes[i].next,
      previous := if t.nodes[h].next == Some(i) then t.nodes[h].previous else t.nodes[i].previous,
      removed := i == h || t.nodes[i].removed)
    ensures forall q {:trigger Unlink(t, h, r).roots[q]} | 0 <= q < |t.roots| :: Unlink(t, h, r).roots[q] == t.roots[q].(
      next := if t.nodes[h].previous == RootLink(q) then t.nodes[h].next else t.roots[q].next,
      size := if q == r then t.roots[q].size - 1 else t.roots[q].size)
  {
    UnlinkNodes(t, h, r);
    UnlinkRoots(t, h, r);
  }

  /** Unlinking the head of chain `r` makes the root skip it. */
  lemma UnlinkHead(t: Target, r: nat)
    requires Indexed(t) && r < |t.roots| && 0 < |RootChain(t, r)|
    requires t.nodes[RootChain(t, r)[0]].previous == RootLink(r)
    ensures RootChain(Unlink(t, RootChain(t, r)[0], r), r) == RootChain(t, r)[1..]
  {
    var w := RootChain(t, r);
    var t' := Unlink(t, w[0], r);
    UnlinkNodes(t, w[0], r);
    UnlinkRoots(t, w[0], r);
    WalkAfter(t.nodes, t'.nodes, t.roots[r].next, 0);
  }

  /** Unlinking a later node of chain `r` makes its predecessor skip it. */
  lemma UnlinkInner(t: Target, r: nat, k: nat)
    requires Indexed(t) && r < |t.roots| && 0 < k < |RootChain(t, r)|
    requires t.nodes[RootChain(t, r)[k]].previous == NodeLink(RootChain(t, r)[k - 1])
    ensures RootChain(Unlink(t, RootChain(t, r)[k], r), r) == RootChain(t, r)[..k] + RootChain(t, r)[k + 1..]
  {
    var w := RootChain(t, r);
    var t' := Unlink(t, w[k], r);
    UnlinkNodes(t, w[k], r);
    UnlinkRoots(t, w[k], r);
    WalkSkip(t.nodes, t'.nodes, t.roots[r].next, k);
  }

  /** The chain being unlinked from loses exactly the node at position `k`. */
  lemma UnlinkOwnChain(t: Target, r: nat, k: nat)
    requires Indexed(t) && r < |t.roots| && k < |RootChain(t, r)|
    requires ChainOk(t, r)
    ensures RootChain(Unlink(t, RootChain(t, r)[k], r), r) == RootChain(t, r)[..k] + RootChain(t, r)[k + 1..]
  {
    var w := RootChain(t, r);
    if k == 0 {
      UnlinkHead(t, r);
      assert w[..0] + w[1..] == w[1..];
    } else {
      UnlinkInner(t, r, k);
    }
  }

  /** Every other chain is unchanged: its nodes belong to another root. */
  lemma UnlinkOtherChain(t: Target, r: nat, k: nat, q: nat)
    requires Indexed(t) && r < |t.roots| && k < |RootChain(t, r)|
    requires ChainOk(t, r) && HeadsOwned(t) && NextKeepsOwner(t.nodes)
    requires q < |t.roots| && q != r
    ensures RootChain(Unlink(t, RootChain(t, r)[k], r), q) == RootChain(t, q)
  {
    var w := RootChain(t, r);
    var h := w[k];
    var n := t.nodes[h];
    var t' := Unlink(t, h, r);
    assert n.previous == if k == 0 then RootLink(r) else NodeLink(w[k - 1]);
    WalkOwned(t.nodes, t.roots[r].next, r);
    WalkOwned(t.nodes, t.roots[q].next, q);
    UnlinkNodes(t, h, r);
    UnlinkRoots(t, h, r);
    forall x | x in RootChain(t, q)
      ensures t'.nodes[x].next == t.nodes[x].next
    {
      if k > 0 {
        assert w[k - 1] in w;
      }
    }
    WalkFrame(t.nodes, t'.nodes, t.roots[q].next);
  }

  /** Unlinking keeps every node's owner. */
  lemma UnlinkOwners(t: Target, r: nat, k: nat)
    requires Indexed(t) && r < |t.roots| && k < |RootChain(t, r)|
    requires ChainOk(t, r)
    ensures forall i | 0 <= i < |t.nodes| :: Owner(Unlink(t, RootChain(t, r)[k], r).nodes, i) == Owner(t.nodes, i)
  {
    var w := RootChain(t, r);
    var h := w[k];
    var n := t.nodes[h];
    var nodes' := Unlink(t, h, r).nodes;
    WalkNext(t.nodes, t.roots[r].next, k);
    assert n.next.Some? ==> t.nodes[n.next.value].previous == NodeLink(h) by {
      if n.next.Some? {
        assert n.next.value == w[k + 1];
      }
    }
    UnlinkNodes(t, h, r);
    assert forall j | 0 <= j < |t.nodes| ::
      nodes'[j].previous == t.nodes[j].previous ||
      (t.nodes[j].previous.NodeLink? && nodes'[j].previous == t.nodes[t.nodes[j].previous.node].previous);
    forall i | 0 <= i < |t.nodes|
      ensures Owner(nodes', i) == Owner(t.nodes, i)
    {
      OwnerPreserved(t.nodes, nodes', i);
    }
  }

  /** An element of a sequence of distinct numbers with position `k`
      dropped is another element of the sequence. */
  lemma InRemovedInverse(w: seq<nat>, k: nat, x: nat)
    requires Increasing(w) && k < |w| && x in w[..k] + w[k + 1..]
    ensures exists m :: 0 <= m < |w| && m != k && w[m] == x
  {
    var w' := w[..k] + w[k + 1..];
    var m :| 0 <= m < |w'| && w'[m] == x;
    if m < k {
      assert w'[m] == w[m];
    } else {
      assert w'[m] == w[m + 1];
    }
  }

  /** The nodes left in the chain that lost one are not flagged. */
  lemma UnlinkLiveOwn(t: Target, r: nat, k: nat)
    requires Indexed(t) && r < |t.roots| && k < |RootChain(t, r)|
    requires ChainOk(t, r)
    ensures forall x | x in RootChain(Unlink(t, RootChain(t, r)[k], r), r) :: !Unlink(t, RootChain(t, r)[k], r).nodes[x].removed
  {
    var w := RootChain(t, r);
    var h := w[k];
    UnlinkOwnChain(t, r, k);
    UnlinkNodes(t, h, r);
    WalkIncreasing(t.nodes, t.roots[r].next);
    forall x | x in w[..k] + w[k + 1..]
      ensures x != h && !t.nodes[x].removed
    {
      InRemovedInverse(w, k, x);
    }
  }

  /** The only node of the chain whose `previous` changes is the successor
      of the unlinked one, which takes over its `previous`. */
  lemma UnlinkPreviousAt(t: Target, r: nat, k: nat, m: nat)
    requires Indexed(t) && r < |t.roots| && k < |RootChain(t, r)|
    requires m < |RootChain(t, r)| && m != k
    ensures Unlink(t, RootChain(t, r)[k], r).nodes[RootChain(t, r)[m]].previous ==
      if m == k + 1 then t.nodes[RootChain(t, r)[k]].previous else t.nodes[RootChain(t, r)[m]].previous
  {
    var w := RootChain(t, r);
    WalkNext(t.nodes, t.roots[r].next, k);
    WalkIncreasing(t.nodes, t.roots[r].next);
    assert w[m] != w[k];
    UnlinkNodes(t, w[k], r);
  }

  /** The `previous` links of the chain that lost a node are consistent. */
  lemma UnlinkLinksOwn(t: Target, r: nat, k: nat)
    requires Indexed(t) && r < |t.roots| && k < |RootChain(t, r)|
    requires ChainOk(t, r)
    ensures var t' := Unlink(t, RootChain(t, r)[k], r);
      forall m {:trigger t'.nodes[RootChain(t', r)[m]]} | 0 <= m < |RootChain(t', r)| ::
        t'.nodes[RootChain(t', r)[m]].previous == if m == 0 then RootLink(r) else NodeLink(RootChain(t', r)[m - 1])
  {
    var w := RootChain(t, r);
    var w' := w[..k] + w[k + 1..];
    UnlinkOwnChain(t, r, k);
    forall m | 0 <= m < |w'|
      ensures Unlink(t, w[k], r).nodes[w'[m]].previous == if m == 0 then RootLink(r) else NodeLink(w'[m - 1])
    {
      UnlinkLinkAt(t, r, k, m);
    }
  }

  /** The `m`-th node of the shortened chain points back to its new
      predecessor. */
  lemma UnlinkLinkAt(t: Target, r: nat, k: nat, m: nat)
    requires Indexed(t) && r < |t.roots| && k < |RootChain(t, r)|
    requires ChainOk(t, r) && m + 1 < |RootChain(t, r)|
    ensures var w := RootChain(t, r);
      var w' := w[..k] + w[k + 1..];
      Unlink(t, w[k], r).nodes[w'[m]].previous == if m == 0 then RootLink(r) else NodeLink(w'[m - 1])
  {
    if m < k {
      UnlinkLinkBefore(t, r, k, m);
    } else {
      UnlinkLinkAfter(t, r, k, m);
    }
  }

  lemma UnlinkLinkBefore(t: Target, r: nat, k: nat, m: nat)
    requires Indexed(t) && r < |t.roots| && k < |RootChain(t, r)|
    requires ChainOk(t, r) && m < k
    ensures var w := RootChain(t, r);
      var w' := w[..k] + w[k + 1..];
      Unlink(t, w[k], r).nodes[w'[m]].previous == if m == 0 then RootLink(r) else NodeLink(w'[m - 1])
  {
    var w := RootChain(t, r);
    var w' := w[..k] + w[k + 1..];
    UnlinkPreviousAt(t, r, k, m);
    assert w'[m] == w[m];
    if m > 0 {
      assert w'[m - 1] == w[m - 1];
    }
  }

  lemma UnlinkLinkAfter(t: Target, r: nat, k: nat, m: nat)
    requires Indexed(t) && r < |t.roots| && k < |RootChain(t, r)|
    requires ChainOk(t, r) && k <= m && m + 1 < |RootChain(t, r)|
    ensures var w := RootChain(t, r);
      var w' := w[..k] + w[k + 1..];
      Unlink(t, w[k], r).nodes[w'[m]].previous == if m == 0 then RootLink(r) else NodeLink(w'[m - 1])
  {
    var w := RootChain(t, r);
    var w' := w[..k] + w[k + 1..];
    UnlinkPreviousAt(t, r, k, m + 1);
    assert w'[m] == w[m + 1];
    if m > 0 {
      assert w'[m - 1] == if m == k then w[k - 1] else w[m];
    }
  }

  /** The chain that lost a node still has no two equal registrations. */
  lemma UnlinkNoDuplicates(t: Target, r: nat, k: nat)
    requires Indexed(t) && r < |t.roots| && k < |RootChain(t, r)|
    requires ChainOk(t, r)
    ensures NoDuplicates(IdentitiesAt(Unlink(t, RootChain(t, r)[k], r).nodes, RootChain(Unlink(t, RootChain(t, r)[k], r), r)))
  {
    var w := RootChain(t, r);
    var t' := Unlink(t, w[k], r);
    var w' := w[..k] + w[k + 1..];
    UnlinkOwnChain(t, r, k);
    var ids := IdentitiesAt(t.nodes, w);
    NoDuplicatesRemove(ids, k);
    IdentitiesRemove(t.nodes, w, k);
    UnlinkNodes(t, w[k], r);
    IdentitiesFrame(t.nodes, t'.nodes, w');
  }

  /** The chain that lost a node is still well formed. */
  lemma UnlinkChainOkOwn(t: Target, r: nat, k: nat)
    requires Indexed(t) && r < |t.roots| && k < |RootChain(t, r)|
    requires ChainOk(t, r)
    ensures ChainOk(Unlink(t, RootChain(t, r)[k], r), r)
  {
    var w := RootChain(t, r);
    UnlinkOwnChain(t, r, k);
    UnlinkRoots(t, w[k], r);
    UnlinkLiveOwn(t, r, k);
    UnlinkLinksOwn(t, r, k);
    UnlinkNoDuplicates(t, r, k);
  }

  /** Every other chain stays well formed. */
  lemma UnlinkChainOkOther(t: Target, r: nat, k: nat, q: nat)
    requires Indexed(t) && r < |t.roots| && k < |RootChain(t, r)|
    requires ChainOk(t, r) && HeadsOwned(t) && NextKeepsOwner(t.nodes)
    requires q < |t.roots| && q != r && ChainOk(t, q)
    ensures ChainOk(Unlink(t, RootChain(t, r)[k], r), q)
  {
    var w := RootChain(t, r);
    var h := w[k];
    var n := t.nodes[h];
    var t' := Unlink(t, h, r);
    var v := RootChain(t, q);
    UnlinkOtherChain(t, r, k, q);
    assert n.previous == if k == 0 then RootLink(r) else NodeLink(w[k - 1]);
    UnlinkOthersKept(t, r, k, q);
    assert IdentitiesAt(t'.nodes, v) == IdentitiesAt(t.nodes, v);
    UnlinkRoots(t, h, r);
  }

  /** The node at position `k` of chain `r` and its neighbours all belong to
      root `r`. */
  lemma NeighboursOwned(t: Target, r: nat, k: nat)
    requires Indexed(t) && r < |t.roots| && k < |RootChain(t, r)|
    requires t.nodes[RootChain(t, r)[k]].previous == if k == 0 then RootLink(r) else NodeLink(RootChain(t, r)[k - 1])
    requires HeadsOwned(t) && NextKeepsOwner(t.nodes)
    ensures Owner(t.nodes, RootChain(t, r)[k]) == r
    ensures t.nodes[RootChain(t, r)[k]].previous.NodeLink? ==> Owner(t.nodes, t.nodes[RootChain(t, r)[k]].previous.node) == r
    ensures t.nodes[RootChain(t, r)[k]].next.Some? ==> Owner(t.nodes, t.nodes[RootChain(t, r)[k]].next.value) == r
  {
    var w := RootChain(t, r);
    WalkOwned(t.nodes, t.roots[r].next, r);
    assert w[k] in w;
    if k > 0 {
      assert w[k - 1] in w;
    }
  }

  /** The nodes of another chain keep their flag and their `previous`. */
  lemma UnlinkOthersKept(t: Target, r: nat, k: nat, q: nat)
    requires Indexed(t) && r < |t.roots| && k < |RootChain(t, r)|
    requires t.nodes[RootChain(t, r)[k]].previous == if k == 0 then RootLink(r) else NodeLink(RootChain(t, r)[k - 1])
    requires HeadsOwned(t) && NextKeepsOwner(t.nodes)
    requires q < |t.roots| && q != r
    ensures forall x | x in RootChain(t, q) ::
      Unlink(t, RootChain(t, r)[k], r).nodes[x] == t.nodes[x]
  {
    var h := RootChain(t, r)[k];
    NeighboursOwned(t, r, k);
    WalkOwned(t.nodes, t.roots[q].next, q);
    UnlinkNodes(t, h, r);
  }

  /** Every root's head still belongs to it. */
  lemma UnlinkHeadsOwned(t: Target, r: nat, k: nat)
    requires Indexed(t) && r < |t.roots| && k < |RootChain(t, r)|
    requires ChainOk(t, r) && HeadsOwned(t) && NextKeepsOwner(t.nodes)
    ensures HeadsOwned(Unlink(t, RootChain(t, r)[k], r))
  {
    var w := RootChain(t, r);
    var h := w[k];
    var n := t.nodes[h];
    var t' := Unlink(t, h, r);
    UnlinkOwners(t, r, k);
    UnlinkRoots(t, h, r);
    WalkOwned(t.nodes, t.roots[r].next, r);
    forall q | 0 <= q < |t'.roots| && t'.roots[q].next.Some?
      ensures Owner(t'.nodes, t'.roots[q].next.value) == q
    {
      if n.previous == RootLink(q) {
        assert k == 0;
        assert Owner(t.nodes, n.next.value) == Owner(t.nodes, h);
      }
    }
  }

  /** Following `next` still never leaves a chain. */
  lemma UnlinkNextKeepsOwner(t: Target, r: nat, k: nat)
    requires Indexed(t) && r < |t.roots| && k < |RootChain(t, r)|
    requires ChainOk(t, r) && NextKeepsOwner(t.nodes)
    ensures NextKeepsOwner(Unlink(t, RootChain(t, r)[k], r).nodes)
  {
    var w := RootChain(t, r);
    var h := w[k];
    var n := t.nodes[h];
    var t' := Unlink(t, h, r);
    UnlinkOwners(t, r, k);
    UnlinkNodes(t, h, r);
    forall i | 0 <= i < |t'.nodes| && t'.nodes[i].next.Some?
      ensures Owner(t'.nodes, t'.nodes[i].next.value) == Owner(t'.nodes, i)
    {
      if n.previous == NodeLink(i) {
        assert Owner(t.nodes, n.next.value) == Owner(t.nodes, h);
      }
    }
  }

  /** Dropping position `k` of a sequence keeps every other element. */
  lemma InRemoved(w: seq<nat>, k: nat, x: nat)
    requires k < |w| && x in w && x != w[k]
    ensures x in w[..k] + w[k + 1..]
  {
    var m :| 0 <= m < |w| && w[m] == x;
    if m < k {
      assert x in w[..k];
    } else {
      assert x in w[k + 1..];
    }
  }

  /** A node that is not flagged is still in its owner's chain. */
  lemma UnlinkLiveNodesLinked(t: Target, r: nat, k: nat)
    requires Indexed(t) && r < |t.roots| && k < |RootChain(t, r)|
    requires ChainOk(t, r) && HeadsOwned(t) && NextKeepsOwner(t.nodes) && LiveNodesLinked(t)
    ensures LiveNodesLinked(Unlink(t, RootChain(t, r)[k], r))
  {
    var w := RootChain(t, r);
    var h := w[k];
    var t' := Unlink(t, h, r);
    UnlinkOwners(t, r, k);
    UnlinkNodes(t, h, r);
    UnlinkOwnChain(t, r, k);
    forall i | 0 <= i < |t'.nodes| && !t'.nodes[i].removed
      ensures i in RootChain(t', Owner(t'.nodes, i))
    {
      var q := Owner(t.nodes, i);
      assert !t.nodes[i].removed;
      assert i in RootChain(t, q);
      if q == r {
        InRemoved(w, k, i);
      } else {
        UnlinkOtherChain(t, r, k, q);
      }
    }
  }

  /** Unlinking only lets the state evolve, and flags the node. */
  lemma UnlinkEvolves(t: Target, r: nat, k: nat)
    requires Indexed(t) && r < |t.roots| && k < |RootChain(t, r)|
    requires ChainOk(t, r)
    ensures Evolves(t, Unlink(t, RootChain(t, r)[k], r))
    ensures Unlink(t, RootChain(t, r)[k], r).nodes[RootChain(t, r)[k]].removed
  {
    UnlinkOwners(t, r, k);
    UnlinkNodes(t, RootChain(t, r)[k], r);
  }

  /** `remove(); root.size--` on a node of chain `r` keeps the invariant, the
      state only evolves, and the node is flagged. */
  lemma UnlinkValid(t: Target, r: nat, k: nat)
    requires Valid(t) && r < |t.roots| && k < |RootChain(t, r)|
    ensures Valid(Unlink(t, RootChain(t, r)[k], r))
    ensures Evolves(t, Unlink(t, RootChain(t, r)[k], r))
    ensures Unlink(t, RootChain(t, r)[k], r).nodes[RootChain(t, r)[k]].removed
  {
    var w := RootChain(t, r);
    var t' := Unlink(t, w[k], r);
    assert ChainOk(t, r);
    forall q | 0 <= q < |t'.roots|
      ensures ChainLinks(t', q) && t'.roots[q].size == |RootChain(t', q)|
    {
      if q == r {
        UnlinkChainOkOwn(t, r, k);
      } else {
        assert ChainOk(t, q);
        UnlinkChainOkOther(t, r, k, q);
      }
    }
    UnlinkHeadsOwned(t, r, k);
    UnlinkNextKeepsOwner(t, r, k);
    UnlinkLiveNodesLinked(t, r, k);
    UnlinkEvolves(t, r, k);
    assert Wired(t');
    assert Counted(t');
  }
}
