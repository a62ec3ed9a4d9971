/** The merge branch of `Transformer.postProcessNode`: a merge Transition with several
    incoming arcs gets one clone per incoming arc, fed by that arc's source, and the clones
    share the node's outgoing arcs through `sourceToClone`. */
module MergeSplit {
  import opened Wrappers
  import opened PetriNetModel
  import opened ArcIds
  import opened PostSplit

  /** The arcs from each source into its clone, the `k`-th clone being node `n1 + k` and
      named by generated id `k1 + k`. */
  function MergeInArcs(srcs: seq<NodeId>, n1: nat, k1: nat): (r: seq<Arc>)
    ensures |r| == |srcs|
    ensures forall k :: 0 <= k < |srcs| ==> r[k] == Arc(Some(GeneratedId(k1 + k)), 1, None, Some(srcs[k]), Some(n1 + k))
  {
    if |srcs| == 0 then []
    else MergeInArcs(srcs[..|srcs| - 1], n1, k1)
         + [Arc(Some(GeneratedId(k1 + |srcs| - 1)), 1, None, Some(srcs[|srcs| - 1]), Some(n1 + |srcs| - 1))]
  }

  /** The `count` nodes from `n1` on are merge clones named after `name` with counter values
      from `c0` on, each with the single incoming arc allocated for it from `a1` on. */
  predicate MergeClones(nodes: seq<Node>, n1: nat, count: nat, name: Option<string>, c0: nat, a1: nat) {
    && |nodes| == n1 + count
    && forall n :: n1 <= n < |nodes| ==>
         && nodes[n].name == Some(CloneName(name, c0 + (n - n1))) && nodes[n].kind == Transition(true, false)
         && nodes[n].incoming == [a1 + (n - n1)]
  }

  /** The state after cloning for the first `k` incoming arcs, whose sources are `srcs`. */
  predicate MergeState(nodes1: seq<Node>, arcs1: seq<Arc>, k1: nat, c0: nat, srcs: seq<NodeId>, name: Option<string>,
                       k: nat, nodes: seq<Node>, arcs: seq<Arc>, counter: int)
  {
    && k <= |srcs| && (forall i :: 0 <= i < |srcs| ==> srcs[i] < |nodes1| && nodes1[srcs[i]].kind.Place?)
    && WellFormed(nodes, arcs) && NodesGrown(nodes1, nodes) && TransitionsKept(nodes1, nodes, |nodes1|)
    && MergeClones(nodes, |nodes1|, k, name, c0, |arcs1|)
    && arcs == arcs1 + MergeInArcs(srcs[..k], |nodes1|, k1)
    && counter == k1 + k
  }

  lemma MergeInArcsSnoc(arcs1: seq<Arc>, arcs: seq<Arc>, srcs: seq<NodeId>, k: nat, n1: nat, k1: nat)
    requires k < |srcs| && arcs == arcs1 + MergeInArcs(srcs[..k], n1, k1)
    ensures arcs + [MergeInArc(srcs, k, n1, k1)] == arcs1 + MergeInArcs(srcs[..k + 1], n1, k1)
  {
    assert srcs[..k + 1][..k] == srcs[..k];
    assert MergeInArcs(srcs[..k + 1], n1, k1) == MergeInArcs(srcs[..k], n1, k1) + [MergeInArc(srcs, k, n1, k1)];
  }

  /** The clone of the `k`-th incoming arc, before it is linked. */
  function MergeClone(name: Option<string>, c: nat): Node {
    Node(Some(CloneName(name, c)), [], [], Transition(true, false))
  }

  /** The arc from the `k`-th source into its clone. */
  function MergeInArc(srcs: seq<NodeId>, k: nat, n1: nat, k1: nat): Arc
    requires k < |srcs|
  {
    Arc(Some(GeneratedId(k1 + k)), 1, None, Some(srcs[k]), Some(n1 + k))
  }

  /** Adding a clone and linking it to a Place of the original arena keeps the original
      nodes, and leaves its Transitions as they were. */
  lemma MergeCloneFrame(nodes1: seq<Node>, nodes: seq<Node>, clone: Node, a: ArcId, s: NodeId)
    requires NodesGrown(nodes1, nodes) && TransitionsKept(nodes1, nodes, |nodes1|)
    requires s < |nodes1| && nodes1[s].kind.Place?
    ensures NodesGrown(nodes1, LinkNodes(nodes + [clone], a, s, |nodes|))
    ensures TransitionsKept(nodes1, LinkNodes(nodes + [clone], a, s, |nodes|), |nodes1|)
  {
    var grown := nodes + [clone];
    assert NodesGrown(nodes, grown);
    NodesGrownTransitive(nodes1, nodes, grown);
    NodesGrownTransitive(nodes1, grown, LinkNodes(grown, a, s, |nodes|));
  }

  /** The new node is the next merge clone, and linking it to an original node keeps the
      earlier clones as they were named and flagged. */
  lemma MergeClonesStep(nodes: seq<Node>, n1: nat, k: nat, name: Option<string>, c0: nat, a1: nat, a: ArcId, s: NodeId)
    requires MergeClones(nodes, n1, k, name, c0, a1) && s < n1 && a == a1 + k
    ensures MergeClones(LinkNodes(nodes + [MergeClone(name, c0 + k)], a, s, |nodes|), n1, k + 1, name, c0, a1)
  {
    var grown := nodes + [MergeClone(name, c0 + k)];
    var r := LinkNodes(grown, a, s, |nodes|);
    forall n | n1 <= n < |r|
      ensures && r[n].name == Some(CloneName(name, c0 + (n - n1))) && r[n].kind == Transition(true, false)
              && r[n].incoming == [a1 + (n - n1)]
    {
      assert r[n].name == grown[n].name && r[n].kind == grown[n].kind;
      if n < |nodes| {
        assert r[n] == grown[n] == nodes[n];
      }
    }
  }

  /** Allocating the next clone and linking it to its source moves the state one step on. */
  lemma MergeStateStep(nodes1: seq<Node>, arcs1: seq<Arc>, k1: nat, c0: nat, srcs: seq<NodeId>, name: Option<string>,
                       k: nat, nodes: seq<Node>, arcs: seq<Arc>, counter: int)
    requires MergeState(nodes1, arcs1, k1, c0, srcs, name, k, nodes, arcs, counter) && k < |srcs|
    ensures MergeState(nodes1, arcs1, k1, c0, srcs, name, k + 1,
                       LinkNodes(nodes + [MergeClone(name, c0 + k)], |arcs|, srcs[k], |nodes|),
                       arcs + [MergeInArc(srcs, k, |nodes1|, k1)], counter + 1)
  {
    var grown := nodes + [MergeClone(name, c0 + k)];
    AllocNodePreservesWellFormed(nodes, arcs, MergeClone(name, c0 + k));
    AppendLinkedPreservesWellFormed(grown, arcs, MergeInArc(srcs, k, |nodes1|, k1));
    MergeCloneFrame(nodes1, nodes, MergeClone(name, c0 + k), |arcs|, srcs[k]);
    assert |arcs| == |arcs1| + k;
    MergeClonesStep(nodes, |nodes1|, k, name, c0, |arcs1|, |arcs|, srcs[k]);
    MergeInArcsSnoc(arcs1, arcs, srcs, k, |nodes1|, k1);
  }

  /** One turn of the loop over the incoming arcs: a clone named `name_cc`, flagged as merge,
      and an arc from the incoming arc's source into it, named by a new generated id. */
  method AddMergeClone(h: Heap, ids: IdGenerator, name: Option<string>, src: NodeId, cc: nat) returns (clone: NodeId)
    requires ids.Valid() && src < |h.nodes|
    modifies h, ids
    ensures ids.Valid() && ids.idCounter == old(ids.idCounter) + 1 && clone == |old(h.nodes)|
    ensures h.nodes == LinkNodes(old(h.nodes) + [MergeClone(name, cc)], |old(h.arcs)|, src, clone)
    ensures h.arcs == old(h.arcs) + [Arc(Some(GeneratedId(old(ids.idCounter))), 1, None, Some(src), Some(clone))]
  {
    clone := NewClone(h, CloneName(name, cc), true);
    var id := ids.GenerateXmlSafeId();
    var _ := LinkNewArc(h, src, clone, id);
  }

  /** `AddMergeClone` moves the loop's arena state one step on. */
  method MergeStep(h: Heap, ids: IdGenerator, name: Option<string>, src: NodeId, cc: nat,
                   ghost nodes1: seq<Node>, ghost arcs1: seq<Arc>, ghost k1: nat, ghost c0: nat,
                   ghost srcs: seq<NodeId>, ghost k: nat)
    returns (clone: NodeId)
    requires ids.Valid() && k < |srcs| && src == srcs[k] && cc == c0 + k
    requires MergeState(nodes1, arcs1, k1, c0, srcs, name, k, h.nodes, h.arcs, ids.idCounter)
    modifies h, ids
    ensures ids.Valid() && clone == |nodes1| + k
    ensures MergeState(nodes1, arcs1, k1, c0, srcs, name, k + 1, h.nodes, h.arcs, ids.idCounter)
  {
    ghost var nodes, arcs := h.nodes, h.arcs;
    MergeStateStep(nodes1, arcs1, k1, c0, srcs, name, k, nodes, arcs, ids.idCounter);
    assert |nodes| == |nodes1| + k && ids.idCounter == k1 + k;
    clone := AddMergeClone(h, ids, name, src, cc);
  }

  /** One turn of the loop over the incoming arcs, with its bookkeeping. */
  method CloneMergeTurn(h: Heap, ids: IdGenerator, name: Option<string>, relevant: seq<ArcId>, k: nat,
                        sourceToClone: map<NodeId, NodeId>, removed: seq<ArcId>, counter: nat,
                        ghost nodes1: seq<Node>, ghost arcs1: seq<Arc>, ghost k1: nat, ghost c0: nat, ghost srcs: seq<NodeId>)
    returns (sourceToClone': map<NodeId, NodeId>, removed': seq<ArcId>, counter': nat)
    requires ids.Valid() && k < |relevant|
    requires |srcs| == |relevant| && forall i :: 0 <= i < |relevant| ==> relevant[i] < |arcs1| && arcs1[relevant[i]].source == Some(srcs[i])
    requires CloneBooks(relevant, srcs, Range(|nodes1|, |nodes1| + |relevant|), c0, k, sourceToClone, removed, counter)
    requires MergeState(nodes1, arcs1, k1, c0, srcs, name, k, h.nodes, h.arcs, ids.idCounter)
    modifies h, ids
    ensures ids.Valid()
    ensures CloneBooks(relevant, srcs, Range(|nodes1|, |nodes1| + |relevant|), c0, k + 1, sourceToClone', removed', counter')
    ensures MergeState(nodes1, arcs1, k1, c0, srcs, name, k + 1, h.nodes, h.arcs, ids.idCounter)
  {
    assert h.arcs[relevant[k]] == (arcs1 + MergeInArcs(srcs[..k], |nodes1|, k1))[relevant[k]] == arcs1[relevant[k]];
    var src := h.arcs[relevant[k]].source.value;
    ghost var vals := Range(|nodes1|, |nodes1| + |relevant|);
    CloneBooksStep(relevant, srcs, vals, c0, k, sourceToClone, removed, counter);
    var clone := MergeStep(h, ids, name, src, counter, nodes1, arcs1, k1, c0, srcs, k);
    assert src == srcs[k] && clone == vals[k];
    sourceToClone', removed', counter' := sourceToClone[src := clone], removed + [relevant[k]], counter + 1;
  }

  /** The loop over the relevant (incoming) arcs of a merge node: one clone per arc, fed by
      the arc's source; `sourceToClone` maps each source to its last clone, and every incoming
      arc is collected for removal. */
  method CloneMergeInputs(h: Heap, ids: IdGenerator, t: NodeId, relevant: seq<ArcId>, cloneCounter: nat)
    returns (sourceToClone: map<NodeId, NodeId>, removed: seq<ArcId>, counter: nat)
    requires WellFormed(h.nodes, h.arcs) && ids.Valid() && t < |h.nodes| && h.nodes[t].kind.Transition?
    requires forall i :: 0 <= i < |relevant| ==>
               relevant[i] < |h.arcs| && h.arcs[relevant[i]].target == Some(t) && h.arcs[relevant[i]].source.Some?
    modifies h, ids
    ensures WellFormed(h.nodes, h.arcs) && NodesGrown(old(h.nodes), h.nodes)
    ensures TransitionsKept(old(h.nodes), h.nodes, |old(h.nodes)|)
    ensures MergeClones(h.nodes, |old(h.nodes)|, |relevant|, old(h.nodes)[t].name, cloneCounter, |old(h.arcs)|)
    ensures h.arcs == old(h.arcs) + MergeInArcs(Ends(old(h.arcs), relevant, false), |old(h.nodes)|, old(ids.idCounter))
    ensures ids.Valid() && ids.idCounter == old(ids.idCounter) + |relevant| && counter == cloneCounter + |relevant|
    ensures sourceToClone == LastWins(Ends(old(h.arcs), relevant, false), Range(|old(h.nodes)|, |h.nodes|))
    ensures removed == relevant
  {
    ghost var nodes1, arcs1, k1 := h.nodes, h.arcs, ids.idCounter;
    var name := h.nodes[t].name;
    ghost var srcs := CloneMergeInit(nodes1, arcs1, k1, t, relevant, cloneCounter);
    sourceToClone, removed, counter := map[], [], cloneCounter;
    for k := 0 to |relevant|
      invariant ids.Valid()
      invariant CloneBooks(relevant, srcs, Range(|nodes1|, |nodes1| + |relevant|), cloneCounter, k, sourceToClone, removed, counter)
      invariant MergeState(nodes1, arcs1, k1, cloneCounter, srcs, name, k, h.nodes, h.arcs, ids.idCounter)
    {
      sourceToClone, removed, counter :=
        CloneMergeTurn(h, ids, name, relevant, k, sourceToClone, removed, counter, nodes1, arcs1, k1, cloneCounter, srcs);
    }
    CloneMergeDone(relevant, srcs, nodes1, arcs1, k1, cloneCounter, name, h.nodes, h.arcs, ids.idCounter,
                   sourceToClone, removed, counter);
  }

  /** Before the first turn: the incoming arcs' sources, which are Places, and the empty state. */
  lemma CloneMergeInit(nodes: seq<Node>, arcs: seq<Arc>, k1: nat, t: NodeId, relevant: seq<ArcId>, c0: nat)
    returns (srcs: seq<NodeId>)
    requires WellFormed(nodes, arcs) && t < |nodes| && nodes[t].kind.Transition?
    requires forall i :: 0 <= i < |relevant| ==>
               relevant[i] < |arcs| && arcs[relevant[i]].target == Some(t) && arcs[relevant[i]].source.Some?
    ensures srcs == Ends(arcs, relevant, false)
    ensures forall i :: 0 <= i < |relevant| ==> relevant[i] < |arcs| && arcs[relevant[i]].source == Some(srcs[i])
    ensures CloneBooks(relevant, srcs, Range(|nodes|, |nodes| + |relevant|), c0, 0, map[], [], c0)
    ensures MergeState(nodes, arcs, k1, c0, srcs, nodes[t].name, 0, nodes, arcs, k1)
  {
    srcs := Ends(arcs, relevant, false);
    forall i | 0 <= i < |srcs| ensures srcs[i] < |nodes| && nodes[srcs[i]].kind.Place? {
      assert ArcOk(nodes, arcs, relevant[i]);
    }
    assert srcs[..0] == [] && arcs + MergeInArcs(srcs[..0], |nodes|, k1) == arcs;
  }

  /** After the last turn: the state covers all incoming arcs. */
  lemma CloneMergeDone(relevant: seq<ArcId>, srcs: seq<NodeId>, nodes1: seq<Node>, arcs1: seq<Arc>, k1: nat, c0: nat,
                       name: Option<string>, nodes: seq<Node>, arcs: seq<Arc>, idCounter: int,
                       sourceToClone: map<NodeId, NodeId>, removed: seq<ArcId>, counter: nat)
    requires CloneBooks(relevant, srcs, Range(|nodes1|, |nodes1| + |relevant|), c0, |relevant|, sourceToClone, removed, counter)
    requires MergeState(nodes1, arcs1, k1, c0, srcs, name, |relevant|, nodes, arcs, idCounter)
    ensures counter == c0 + |relevant| && removed == relevant
    ensures sourceToClone == LastWins(srcs, Range(|nodes1|, |nodes|))
    ensures WellFormed(nodes, arcs) && NodesGrown(nodes1, nodes) && TransitionsKept(nodes1, nodes, |nodes1|)
    ensures MergeClones(nodes, |nodes1|, |relevant|, name, c0, |arcs1|)
    ensures arcs == arcs1 + MergeInArcs(srcs, |nodes1|, k1) && idCounter == k1 + |relevant|
  {
    var vals := Range(|nodes1|, |nodes1| + |relevant|);
    assert |nodes| == |nodes1| + |relevant|;
    assert srcs[..|relevant|] == srcs && relevant[..|relevant|] == relevant && vals[..|relevant|] == vals;
  }

  /** A Transition's outgoing arcs lead to Places. */
  lemma OutgoingToPlaces(nodes: seq<Node>, arcs: seq<Arc>, t: NodeId)
    requires WellFormed(nodes, arcs) && t < |nodes| && nodes[t].kind.Transition?
    ensures forall i :: 0 <= i < |nodes[t].outgoing| ==>
              nodes[t].outgoing[i] < |arcs| && arcs[nodes[t].outgoing[i]].target.Some?
    ensures forall i :: 0 <= i < |nodes[t].outgoing| ==>
              var far := Ends(arcs, nodes[t].outgoing, true)[i]; far < |nodes| && nodes[far].kind.Place?
  {
    var out := nodes[t].outgoing;
    assert NodeOk(nodes, arcs, t);
    forall i | 0 <= i < |out| ensures out[i] < |arcs| && arcs[out[i]].target.Some? {
      assert out[i] in out;
    }
    var fars := Ends(arcs, out, true);
    forall i | 0 <= i < |out| ensures fars[i] < |nodes| && nodes[fars[i]].kind.Place? {
      assert ArcOk(nodes, arcs, out[i]);
    }
  }

  /** The values left in `sourceToClone` are among the clones made. */
  lemma SurvivorsAreClones(srcs: seq<NodeId>, nodes: seq<Node>, n1: nat, clones: seq<NodeId>)
    requires n1 + |srcs| == |nodes|
    requires forall n :: n1 <= n < |nodes| ==> nodes[n].kind.Transition?
    requires forall x :: x in clones <==> x in LastWins(srcs, Range(n1, |nodes|)).Values
    ensures forall i :: 0 <= i < |clones| ==> n1 <= clones[i] < |nodes| && nodes[clones[i]].kind.Transition?
  {
    forall i | 0 <= i < |clones| ensures n1 <= clones[i] < |nodes| {
      var m := LastWins(srcs, Range(n1, |nodes|));
      assert clones[i] in m.Values;
      var x :| x in m && m[x] == clones[i];
      assert m[x] in Range(n1, |nodes|);
    }
  }

  /** The fan leaves the clones as they were on their incoming side. */
  lemma MergeClonesFanned(nodes: seq<Node>, nodes': seq<Node>, n1: nat, count: nat, name: Option<string>, c0: nat, a1: nat)
    requires MergeClones(nodes, n1, count, name, c0, a1)
    requires FanFrame(nodes, nodes', n1) && CloneListsKept(nodes, nodes', n1, false)
    ensures MergeClones(nodes', n1, count, name, c0, a1)
  {
    forall n | n1 <= n < |nodes'| ensures nodes'[n].incoming == nodes[n].incoming {
      assert NormList(nodes'[n], true) == NormList(nodes[n], true);
    }
  }


  /** The arena after both halves of the merge branch, from the one after the first. */
  lemma MergeBranchDone(nodes1: seq<Node>, nodes2: seq<Node>, nodes3: seq<Node>, count: nat, name: Option<string>, c0: nat, a1: nat)
    requires NodesGrown(nodes1, nodes2) && TransitionsKept(nodes1, nodes2, |nodes1|)
    requires MergeClones(nodes2, |nodes1|, count, name, c0, a1)
    requires FanFrame(nodes2, nodes3, |nodes1|) && CloneListsKept(nodes2, nodes3, |nodes1|, false)
    ensures NodesGrown(nodes1, nodes3) && TransitionsKept(nodes1, nodes3, |nodes1|)
    ensures MergeClones(nodes3, |nodes1|, count, name, c0, a1)
  {
    MergeClonesFanned(nodes2, nodes3, |nodes1|, count, name, c0, a1);
    NodesGrownTransitive(nodes1, nodes2, nodes3);
    TransitionsKeptTransitive(nodes1, nodes2, nodes3, |nodes1|);
  }

  /** The outgoing half of the merge branch: a copy of every outgoing arc of `t` from every
      clone, on an arena grown from `nodes1` and `arcs1` by the clones and their in-arcs. */
  method FanMergeOutputs(h: Heap, ids: IdGenerator, t: NodeId, clones: seq<NodeId>, ghost nodes1: seq<Node>, ghost arcs1: seq<Arc>)
    returns (removed: seq<ArcId>)
    requires WellFormed(h.nodes, h.arcs) && ids.Valid()
    requires WellFormed(nodes1, arcs1) && t < |nodes1| && nodes1[t].kind.Transition?
    requires NodesGrown(nodes1, h.nodes) && h.nodes[t] == nodes1[t]
    requires |arcs1| <= |h.arcs| && h.arcs[..|arcs1|] == arcs1
    requires forall i :: 0 <= i < |clones| ==> |nodes1| <= clones[i] < |h.nodes| && h.nodes[clones[i]].kind.Transition?
    modifies h, ids
    ensures WellFormed(h.nodes, h.arcs) && FanFrame(old(h.nodes), h.nodes, |nodes1|)
    ensures CloneListsKept(old(h.nodes), h.nodes, |nodes1|, false)
    ensures forall i :: 0 <= i < |nodes1[t].outgoing| ==>
              nodes1[t].outgoing[i] < |arcs1| && arcs1[nodes1[t].outgoing[i]].target.Some?
    ensures ids.Valid() && ids.idCounter == old(ids.idCounter) + |nodes1[t].outgoing| * |clones|
    ensures h.arcs == old(h.arcs) + FanArcs(Ends(arcs1, nodes1[t].outgoing, true), clones, old(ids.idCounter), false)
    ensures removed == nodes1[t].outgoing
  {
    OutgoingToPlaces(nodes1, arcs1, t);
    EndsPrefix(arcs1, h.arcs, nodes1[t].outgoing, true);
    FanEndsGrown(nodes1, h.nodes, Ends(arcs1, nodes1[t].outgoing, true), clones);
    removed := Fan(h, ids, clones, h.nodes[t].outgoing, false, |nodes1|);
  }

  /** The merge branch for one node `t` with its relevant (incoming) arcs: the clones and their
      in-arcs, then a copy of every outgoing arc of `t` from every clone left in `sourceToClone`;
      the incoming and outgoing arcs of `t` are returned for removal. */
  method SplitMerge(h: Heap, ids: IdGenerator, t: NodeId, relevant: seq<ArcId>, cloneCounter: nat)
    returns (clones: seq<NodeId>, removed: seq<ArcId>, counter: nat)
    requires WellFormed(h.nodes, h.arcs) && ids.Valid() && t < |h.nodes| && h.nodes[t].kind.Transition?
    requires forall i :: 0 <= i < |relevant| ==>
               relevant[i] < |h.arcs| && h.arcs[relevant[i]].target == Some(t) && h.arcs[relevant[i]].source.Some?
    modifies h, ids
    ensures WellFormed(h.nodes, h.arcs) && NodesGrown(old(h.nodes), h.nodes)
    ensures TransitionsKept(old(h.nodes), h.nodes, |old(h.nodes)|)
    ensures h.nodes[t] == old(h.nodes)[t]
    ensures MergeClones(h.nodes, |old(h.nodes)|, |relevant|, old(h.nodes)[t].name, cloneCounter, |old(h.arcs)|)
    ensures forall x :: x in clones <==> x in LastWins(Ends(old(h.arcs), relevant, false), Range(|old(h.nodes)|, |h.nodes|)).Values
    ensures forall i, j :: 0 <= i < j < |clones| ==> clones[i] != clones[j]
    ensures forall i :: 0 <= i < |clones| ==> |old(h.nodes)| <= clones[i] < |h.nodes|
    ensures forall i :: 0 <= i < |old(h.nodes)[t].outgoing| ==>
              old(h.nodes)[t].outgoing[i] < |old(h.arcs)| && old(h.arcs)[old(h.nodes)[t].outgoing[i]].target.Some?
    ensures h.arcs == old(h.arcs) + MergeInArcs(Ends(old(h.arcs), relevant, false), |old(h.nodes)|, old(ids.idCounter))
                      + FanArcs(Ends(old(h.arcs), old(h.nodes)[t].outgoing, true), clones,
                                old(ids.idCounter) + |relevant|, false)
    ensures ids.Valid() && ids.idCounter == old(ids.idCounter) + |relevant| + |old(h.nodes)[t].outgoing| * |clones|
    ensures removed == relevant + old(h.nodes)[t].outgoing && counter == cloneCounter + |relevant|
  {
    ghost var nodes1, arcs1, k1 := h.nodes, h.arcs, ids.idCounter;
    ghost var srcs := Ends(arcs1, relevant, false);
    var sourceToClone, inRemoved;
    sourceToClone, inRemoved, counter := CloneMergeInputs(h, ids, t, relevant, cloneCounter);
    clones := Enumerate(sourceToClone.Values);
    ghost var nodes2, arcs2, k2 := h.nodes, h.arcs, ids.idCounter;
    assert h.nodes[t] == nodes1[t] && arcs2[..|arcs1|] == arcs1;
    SurvivorsAreClones(srcs, nodes2, |nodes1|, clones);
    var outRemoved := FanMergeOutputs(h, ids, t, clones, nodes1, arcs1);
    removed := inRemoved + outRemoved;
    MergeBranchDone(nodes1, nodes2, h.nodes, |relevant|, nodes1[t].name, cloneCounter, |arcs1|);
  }
}
