/** What one run of `postProcessNode` guarantees of the net it leaves behind: every
    Transition carrying the pass's flag meets at most one net arc on the side the pass
    normalises; the guarantee of the other pass survives; and the net stays fit for another
    pass (arcs in the arena with both ends set, ends among the net's nodes, every Place in the
    net). */
module PassProperties {
  import opened Wrappers
  import opened PetriNetModel
  import opened PostSplit
  import opened PostProcess

  /** The arcs `a` and `b` have the same relevant end, and it is a Transition with the pass's
      flag. */
  predicate SameFlaggedEnd(nodes: seq<Node>, arcs: seq<Arc>, a: ArcId, b: ArcId, processMerge: bool) {
    && a < |arcs| && b < |arcs|
    && End(arcs[a], processMerge).Some? && End(arcs[a], processMerge) == End(arcs[b], processMerge)
    && End(arcs[a], processMerge).value < |nodes| && Flagged(nodes[End(arcs[a], processMerge).value].kind, processMerge)
  }

  /** The form a pass establishes: every merge Transition has at most one incoming net arc
      (merge pass), or every decision Transition at most one outgoing net arc (decision pass). */
  predicate Normal(nodes: seq<Node>, arcs: seq<Arc>, netArcs: seq<ArcId>, processMerge: bool) {
    forall a, b :: a in netArcs && b in netArcs && SameFlaggedEnd(nodes, arcs, a, b, processMerge) ==> a == b
  }

  /** Every Place of the arena is one of the net's nodes. */
  predicate PlacesInNet(nodes: seq<Node>, netNodes: seq<NodeId>) {
    forall x :: 0 <= x < |nodes| && nodes[x].kind.Place? ==> x in netNodes
  }

  /** A net a pass can run on and whose result is again a net: a well-formed arena, net arcs
      in it with both ends set and among the net's nodes, every Place in the net. */
  predicate Normalisable(nodes: seq<Node>, arcs: seq<Arc>, netNodes: seq<NodeId>, netArcs: seq<ArcId>) {
    PassPre(nodes, arcs, netArcs) && Closed(arcs, netNodes, netArcs) && PlacesInNet(nodes, netNodes)
  }

  /** An arc of the net after a pass is an old net arc that is not doomed, or one the pass
      allocated. */
  lemma Survivor(arcs0: seq<Arc>, netArcs0: seq<ArcId>, processMerge: bool, split: set<NodeId>, arcs: seq<Arc>,
                 netArcs: seq<ArcId>, a: ArcId)
    requires forall i :: 0 <= i < |netArcs0| ==> netArcs0[i] < |arcs0|
    requires |arcs0| <= |arcs|
    requires netArcs == RemoveAll(netArcs0, RemovedArcs(arcs0, netArcs0, processMerge, split)) + Range(|arcs0|, |arcs|)
    requires a in netArcs
    ensures || (a in netArcs0 && a < |arcs0| && !Doomed(arcs0, netArcs0, processMerge, split, a))
            || |arcs0| <= a < |arcs|
  {
    var kept := RemoveAll(netArcs0, RemovedArcs(arcs0, netArcs0, processMerge, split));
    if a in kept {
      var i :| 0 <= i < |netArcs0| && netArcs0[i] == a;
    } else {
      var j :| 0 <= j < |Range(|arcs0|, |arcs|)| && Range(|arcs0|, |arcs|)[j] == a;
    }
  }

  /** An arc the pass allocated never has an old flagged Transition at its relevant end, so an
      arc that has one is old. */
  lemma OldWhenOriginalEnd(nodes: seq<Node>, arcs: seq<Arc>, arcs0: seq<Arc>, n0: nat, processMerge: bool, a: ArcId)
    requires NewArcsOk(nodes, arcs, |arcs0|, n0, processMerge) && a < |arcs|
    requires End(arcs[a], processMerge).Some? && End(arcs[a], processMerge).value < n0
    requires End(arcs[a], processMerge).value < |nodes| && Flagged(nodes[End(arcs[a], processMerge).value].kind, processMerge)
    ensures a < |arcs0|
  {
    var arc := arcs[a];
    assert |arcs0| <= a ==> NewArcOk(nodes, arc, n0, processMerge);
  }

  /** Two arcs whose relevant end is a clone the pass allocated are one arc: the clone lists a
      single arc on that side. */
  lemma CloneEndShared(nodes: seq<Node>, arcs: seq<Arc>, n0: nat, processMerge: bool, a: ArcId, b: ArcId)
    requires WellFormed(nodes, arcs) && NewNodesOk(nodes, n0, processMerge)
    requires SameFlaggedEnd(nodes, arcs, a, b, processMerge) && n0 <= End(arcs[a], processMerge).value
    ensures a == b
  {
    var x := End(arcs[a], processMerge).value;
    assert ArcOk(nodes, arcs, a) && ArcOk(nodes, arcs, b);
    assert a in NormList(nodes[x], processMerge) && b in NormList(nodes[x], processMerge);
  }

  /** Two old net arcs that survive a pass and share a flagged relevant end are one arc:
      otherwise both were grouped under that end, which was then split and both doomed. */
  lemma OriginalEndShared(nodes0: seq<Node>, arcs0: seq<Arc>, netArcs0: seq<ArcId>, processMerge: bool,
                          nodes: seq<Node>, arcs: seq<Arc>, a: ArcId, b: ArcId)
    requires InArena(nodes0, arcs0, netArcs0) && NodesGrown(nodes0, nodes)
    requires |arcs0| <= |arcs| && arcs[..|arcs0|] == arcs0
    requires a in netArcs0 && a < |arcs0| && b in netArcs0 && b < |arcs0|
    requires !Doomed(arcs0, netArcs0, processMerge, SplitKeys(Group(nodes0, arcs0, netArcs0, processMerge)), a)
    requires SameFlaggedEnd(nodes, arcs, a, b, processMerge)
    ensures a == b
  {
    var g := Group(nodes0, arcs0, netArcs0, processMerge);
    assert arcs[a] == arcs[..|arcs0|][a] && arcs[b] == arcs[..|arcs0|][b];
    var x := End(arcs0[a], processMerge).value;
    var i :| 0 <= i < |netArcs0| && netArcs0[i] == a;
    assert ArcInRange(nodes0, arcs0[a]);
    assert nodes[x].kind == nodes0[x].kind;
    GroupMembership(nodes0, arcs0, netArcs0, processMerge, x, a);
    GroupMembership(nodes0, arcs0, netArcs0, processMerge, x, b);
    assert |g[x]| > 1 || a == b;
  }

  /** Two arcs of the net after a pass that share a flagged relevant end are one arc. */
  lemma PassPair(nodes0: seq<Node>, arcs0: seq<Arc>, netArcs0: seq<ArcId>, netNodes0: seq<NodeId>, processMerge: bool,
                 nodes: seq<Node>, arcs: seq<Arc>, netArcs: seq<ArcId>, netNodes: seq<NodeId>, a: ArcId, b: ArcId)
    requires PassResult(nodes0, arcs0, netArcs0, netNodes0, processMerge, nodes, arcs, netArcs, netNodes)
    requires a in netArcs && b in netArcs && SameFlaggedEnd(nodes, arcs, a, b, processMerge)
    ensures a == b
  {
    var split := SplitKeys(Group(nodes0, arcs0, netArcs0, processMerge));
    var x := End(arcs[a], processMerge).value;
    if |nodes0| <= x {
      CloneEndShared(nodes, arcs, |nodes0|, processMerge, a, b);
    } else {
      OldWhenOriginalEnd(nodes, arcs, arcs0, |nodes0|, processMerge, a);
      OldWhenOriginalEnd(nodes, arcs, arcs0, |nodes0|, processMerge, b);
      Survivor(arcs0, netArcs0, processMerge, split, arcs, netArcs, a);
      Survivor(arcs0, netArcs0, processMerge, split, arcs, netArcs, b);
      OriginalEndShared(nodes0, arcs0, netArcs0, processMerge, nodes, arcs, a, b);
    }
  }

  /** A pass leaves the net in its normal form. */
  lemma PassNormal(nodes0: seq<Node>, arcs0: seq<Arc>, netArcs0: seq<ArcId>, netNodes0: seq<NodeId>, processMerge: bool,
                   nodes: seq<Node>, arcs: seq<Arc>, netArcs: seq<ArcId>, netNodes: seq<NodeId>)
    requires PassResult(nodes0, arcs0, netArcs0, netNodes0, processMerge, nodes, arcs, netArcs, netNodes)
    ensures Normal(nodes, arcs, netArcs, processMerge)
  {
    forall a, b | a in netArcs && b in netArcs && SameFlaggedEnd(nodes, arcs, a, b, processMerge) ensures a == b {
      PassPair(nodes0, arcs0, netArcs0, netNodes0, processMerge, nodes, arcs, netArcs, netNodes, a, b);
    }
  }

  /** An arc the pass allocated never has a Transition carrying the other pass's flag at its
      other end, so an arc that has one is old. */
  lemma OldWhenOtherFlagged(nodes: seq<Node>, arcs: seq<Arc>, arcs0: seq<Arc>, n0: nat, processMerge: bool,
                            other: bool, a: ArcId)
    requires NewArcsOk(nodes, arcs, |arcs0|, n0, processMerge) && other == !processMerge && a < |arcs|
    requires End(arcs[a], other).Some? && End(arcs[a], other).value < |nodes|
    requires Flagged(nodes[End(arcs[a], other).value].kind, other)
    ensures a < |arcs0|
  {
    var arc := arcs[a];
    assert |arcs0| <= a ==> NewArcOk(nodes, arc, n0, processMerge);
  }

  /** Old net arcs that share a flagged end after a pass shared it before: their ends and the
      kinds of the nodes there are unchanged. */
  lemma SameFlaggedEndBefore(nodes0: seq<Node>, arcs0: seq<Arc>, netArcs0: seq<ArcId>, nodes: seq<Node>, arcs: seq<Arc>,
                             a: ArcId, b: ArcId, side: bool)
    requires InArena(nodes0, arcs0, netArcs0) && NodesGrown(nodes0, nodes)
    requires |arcs0| <= |arcs| && arcs[..|arcs0|] == arcs0
    requires a in netArcs0 && a < |arcs0| && b < |arcs0|
    requires SameFlaggedEnd(nodes, arcs, a, b, side)
    ensures SameFlaggedEnd(nodes0, arcs0, a, b, side)
  {
    assert arcs[a] == arcs[..|arcs0|][a] && arcs[b] == arcs[..|arcs0|][b];
    var i :| 0 <= i < |netArcs0| && netArcs0[i] == a;
    assert ArcInRange(nodes0, arcs0[a]);
  }

  /** Two arcs of the net after a pass that share a flagged end of the other pass's kind are
      one arc, if the net was in that pass's normal form before. */
  lemma KeptPair(nodes0: seq<Node>, arcs0: seq<Arc>, netArcs0: seq<ArcId>, netNodes0: seq<NodeId>, processMerge: bool,
                 nodes: seq<Node>, arcs: seq<Arc>, netArcs: seq<ArcId>, netNodes: seq<NodeId>, other: bool,
                 a: ArcId, b: ArcId)
    requires PassResult(nodes0, arcs0, netArcs0, netNodes0, processMerge, nodes, arcs, netArcs, netNodes)
    requires other == !processMerge && Normal(nodes0, arcs0, netArcs0, other)
    requires a in netArcs && b in netArcs && SameFlaggedEnd(nodes, arcs, a, b, other)
    ensures a == b
  {
    var split := SplitKeys(Group(nodes0, arcs0, netArcs0, processMerge));
    OldWhenOtherFlagged(nodes, arcs, arcs0, |nodes0|, processMerge, other, a);
    OldWhenOtherFlagged(nodes, arcs, arcs0, |nodes0|, processMerge, other, b);
    Survivor(arcs0, netArcs0, processMerge, split, arcs, netArcs, a);
    Survivor(arcs0, netArcs0, processMerge, split, arcs, netArcs, b);
    SameFlaggedEndBefore(nodes0, arcs0, netArcs0, nodes, arcs, a, b, other);
  }

  /** A pass keeps the normal form of the other pass: the decision pass's guarantee survives
      the merge pass that follows it. */
  lemma PassKeepsNormal(nodes0: seq<Node>, arcs0: seq<Arc>, netArcs0: seq<ArcId>, netNodes0: seq<NodeId>, processMerge: bool,
                        nodes: seq<Node>, arcs: seq<Arc>, netArcs: seq<ArcId>, netNodes: seq<NodeId>, other: bool)
    requires PassResult(nodes0, arcs0, netArcs0, netNodes0, processMerge, nodes, arcs, netArcs, netNodes)
    requires other == !processMerge && Normal(nodes0, arcs0, netArcs0, other)
    ensures Normal(nodes, arcs, netArcs, other)
  {
    forall a, b | a in netArcs && b in netArcs && SameFlaggedEnd(nodes, arcs, a, b, other) ensures a == b {
      KeptPair(nodes0, arcs0, netArcs0, netNodes0, processMerge, nodes, arcs, netArcs, netNodes, other, a, b);
    }
  }

  /** A split Transition is a flagged Transition of the arena the pass started from. */
  lemma SplitIsTransition(nodes0: seq<Node>, arcs0: seq<Arc>, netArcs0: seq<ArcId>, processMerge: bool, x: NodeId)
    requires InArena(nodes0, arcs0, netArcs0)
    requires x in SplitKeys(Group(nodes0, arcs0, netArcs0, processMerge))
    ensures x < |nodes0| && nodes0[x].kind.Transition?
  {
    GroupMembership(nodes0, arcs0, netArcs0, processMerge, x, 0);
  }

  /** A node stays in the net after a pass when it was there and was not split, or when the
      pass allocated it. */
  lemma NodeKept(nodes0: seq<Node>, netNodes0: seq<NodeId>, split: set<NodeId>, nodes: seq<Node>, netNodes: seq<NodeId>,
                 x: NodeId)
    requires |nodes0| <= |nodes| && netNodes == RemoveAll(netNodes0, split) + Range(|nodes0|, |nodes|)
    requires (x in netNodes0 && x !in split) || |nodes0| <= x < |nodes|
    ensures x in netNodes
  {
    if |nodes0| <= x < |nodes| {
      assert Range(|nodes0|, |nodes|)[x - |nodes0|] == x;
    }
  }

  /** An end of an arc the pass allocated is in the net after the pass: it is a node the pass
      allocated, or an old Place, which was in the net and is never split. */
  lemma NewEndInNet(nodes0: seq<Node>, arcs0: seq<Arc>, netArcs0: seq<ArcId>, netNodes0: seq<NodeId>, processMerge: bool,
                    nodes: seq<Node>, netNodes: seq<NodeId>, x: NodeId)
    requires InArena(nodes0, arcs0, netArcs0) && PlacesInNet(nodes0, netNodes0) && NodesGrown(nodes0, nodes)
    requires netNodes == RemoveAll(netNodes0, SplitKeys(Group(nodes0, arcs0, netArcs0, processMerge))) + Range(|nodes0|, |nodes|)
    requires x < |nodes| && (|nodes0| <= x || nodes[x].kind.Place?)
    ensures x in netNodes
  {
    var split := SplitKeys(Group(nodes0, arcs0, netArcs0, processMerge));
    if x < |nodes0| {
      assert nodes0[x].kind == nodes[x].kind;
      assert x in split ==> nodes0[x].kind.Transition? by {
        if x in split {
          SplitIsTransition(nodes0, arcs0, netArcs0, processMerge, x);
        }
      }
    }
    NodeKept(nodes0, netNodes0, split, nodes, netNodes, x);
  }

  /** An old net arc that survives a pass has ends in the net before, neither of them split,
      so both are still in the net. */
  lemma OldEndsInNet(arcs0: seq<Arc>, netArcs0: seq<ArcId>, netNodes0: seq<NodeId>, processMerge: bool, split: set<NodeId>,
                     nodes0: seq<Node>, nodes: seq<Node>, netNodes: seq<NodeId>, a: ArcId)
    requires Closed(arcs0, netNodes0, netArcs0)
    requires |nodes0| <= |nodes| && netNodes == RemoveAll(netNodes0, split) + Range(|nodes0|, |nodes|)
    requires a in netArcs0 && a < |arcs0| && !Doomed(arcs0, netArcs0, processMerge, split, a)
    ensures arcs0[a].source.Some? && arcs0[a].source.value in netNodes
    ensures arcs0[a].target.Some? && arcs0[a].target.value in netNodes
  {
    var i :| 0 <= i < |netArcs0| && netArcs0[i] == a;
    assert arcs0[a].source.value !in split && arcs0[a].target.value !in split by {
      if processMerge {
        assert End(arcs0[a], true) == arcs0[a].target && End(arcs0[a], false) == arcs0[a].source;
      } else {
        assert End(arcs0[a], false) == arcs0[a].source && End(arcs0[a], true) == arcs0[a].target;
      }
    }
    NodeKept(nodes0, netNodes0, split, nodes, netNodes, arcs0[a].source.value);
    NodeKept(nodes0, netNodes0, split, nodes, netNodes, arcs0[a].target.value);
  }

  /** Every arc of the net after a pass is in the arena, has both ends set, and its ends are in
      the net. */
  lemma NetArcAfterPass(nodes0: seq<Node>, arcs0: seq<Arc>, netArcs0: seq<ArcId>, netNodes0: seq<NodeId>, processMerge: bool,
                        nodes: seq<Node>, arcs: seq<Arc>, netArcs: seq<ArcId>, netNodes: seq<NodeId>, a: ArcId)
    requires Normalisable(nodes0, arcs0, netNodes0, netArcs0)
    requires PassResult(nodes0, arcs0, netArcs0, netNodes0, processMerge, nodes, arcs, netArcs, netNodes)
    requires a in netArcs
    ensures a < |arcs| && ArcInRange(nodes, arcs[a])
    ensures arcs[a].source.Some? && arcs[a].source.value in netNodes
    ensures arcs[a].target.Some? && arcs[a].target.value in netNodes
  {
    var split := SplitKeys(Group(nodes0, arcs0, netArcs0, processMerge));
    Survivor(arcs0, netArcs0, processMerge, split, arcs, netArcs, a);
    assert ArcOk(nodes, arcs, a);
    if a < |arcs0| {
      assert arcs[a] == arcs[..|arcs0|][a];
      OldEndsInNet(arcs0, netArcs0, netNodes0, processMerge, split, nodes0, nodes, netNodes, a);
    } else {
      var arc := arcs[a];
      assert NewArcOk(nodes, arc, |nodes0|, processMerge);
      NewEndInNet(nodes0, arcs0, netArcs0, netNodes0, processMerge, nodes, netNodes, arc.source.value);
      NewEndInNet(nodes0, arcs0, netArcs0, netNodes0, processMerge, nodes, netNodes, arc.target.value);
    }
  }

  /** Every Place is still in the net after a pass: old Places are never split, new ones are
      in the allocation range the pass adds. */
  lemma PlacesInNetAfterPass(nodes0: seq<Node>, arcs0: seq<Arc>, netArcs0: seq<ArcId>, netNodes0: seq<NodeId>, processMerge: bool,
                             nodes: seq<Node>, arcs: seq<Arc>, netArcs: seq<ArcId>, netNodes: seq<NodeId>)
    requires Normalisable(nodes0, arcs0, netNodes0, netArcs0)
    requires PassResult(nodes0, arcs0, netArcs0, netNodes0, processMerge, nodes, arcs, netArcs, netNodes)
    ensures PlacesInNet(nodes, netNodes)
  {
    forall x | 0 <= x < |nodes| && nodes[x].kind.Place? ensures x in netNodes {
      NewEndInNet(nodes0, arcs0, netArcs0, netNodes0, processMerge, nodes, netNodes, x);
    }
  }

  /** A pass leaves a net another pass can run on. */
  lemma PassKeepsNormalisable(nodes0: seq<Node>, arcs0: seq<Arc>, netArcs0: seq<ArcId>, netNodes0: seq<NodeId>, processMerge: bool,
                              nodes: seq<Node>, arcs: seq<Arc>, netArcs: seq<ArcId>, netNodes: seq<NodeId>)
    requires Normalisable(nodes0, arcs0, netNodes0, netArcs0)
    requires PassResult(nodes0, arcs0, netArcs0, netNodes0, processMerge, nodes, arcs, netArcs, netNodes)
    ensures Normalisable(nodes, arcs, netNodes, netArcs)
  {
    forall i | 0 <= i < |netArcs|
      ensures netArcs[i] < |arcs| && ArcInRange(nodes, arcs[netArcs[i]])
      ensures arcs[netArcs[i]].source.Some? && arcs[netArcs[i]].source.value in netNodes
      ensures arcs[netArcs[i]].target.Some? && arcs[netArcs[i]].target.value in netNodes
    {
      NetArcAfterPass(nodes0, arcs0, netArcs0, netNodes0, processMerge, nodes, arcs, netArcs, netNodes, netArcs[i]);
    }
    PlacesInNetAfterPass(nodes0, arcs0, netArcs0, netNodes0, processMerge, nodes, arcs, netArcs, netNodes);
  }
}
