/** `Transformer.transform`: find the `start` member, build the nodes, then the arcs, check
    that `done` was registered, and normalise the net with a decision pass followed by a merge
    pass. */
module Transformer {
  import opened Wrappers
  import opened SysML
  import opened PetriNetModel
  import opened TransformSpec
  import opened ArcIds
  import opened TransformerBuild
  import opened TransformerArcs
  import opened PostProcess
  import opened PassProperties

  /** The outcome of `transform`: when the root namespace has no members, building is skipped
      and only the check for `done` remains, which then fails. */
  function TransformOutcome(rootHasMembers: bool, b: Behavior): Option<TransformError> {
    if rootHasMembers then ExpectedOutcome(b) else Some(NoDoneElement)
  }

  /** The net a successful transformation returns: a well-formed arena, a bipartite net whose
      arcs join net nodes, every Place in the net, every merge Transition with at most one
      incoming net arc and every decision Transition with at most one outgoing net arc. */
  predicate TransformedNet(nodes: seq<Node>, arcs: seq<Arc>, netNodes: seq<NodeId>, netArcs: seq<ArcId>) {
    && WellFormed(nodes, arcs) && Bipartite(nodes, arcs, netArcs) && Closed(arcs, netNodes, netArcs)
    && PlacesInNet(nodes, netNodes)
    && Normal(nodes, arcs, netArcs, false) && Normal(nodes, arcs, netArcs, true)
  }

  /** The names and kinds of the nodes the first loop makes from the node elements `ne`. */
  function NodeLabels(ne: seq<Element>): (r: seq<Label>)
    requires forall j :: 0 <= j < |ne| ==> NodeKindOf(ne[j]).Some?
    ensures |r| == |ne| && forall j :: 0 <= j < |ne| ==> r[j] == Label(Some(ne[j].name), NodeKindOf(ne[j]).value)
  {
    seq(|ne|, j requires 0 <= j < |ne| => Label(Some(ne[j].name), NodeKindOf(ne[j]).value))
  }

  /** What the two building loops make of `elements`, with the arc-name counter at `c`: the
      node elements' nodes in element order, each registered under its name, followed by the
      arc loop. The node elements come first, every arc joins a Place and a Transition, every
      arc is in the net, and each one took one generated id. */
  function BuiltSketch(elements: seq<Element>, c: nat): (r: Sketch)
    ensures NodeLabels(NodeElements(elements)) <= r.labels
    ensures NewArcsAlternate(r.labels, r.arcs, 0)
    ensures |r.arcs| == |r.netArcs| == r.c - c
    ensures forall i :: 0 <= i < |r.netArcs| ==> r.netArcs[i] < |r.arcs|
  {
    var ne := NodeElements(elements);
    BuildFold(Sketch(NodeLabels(ne), [], [], InitialMap(ne), c), elements)
  }

  /** The decision pass followed by the merge pass, from the first net to the last. */
  ghost predicate Normalised(nodes0: seq<Node>, arcs0: seq<Arc>, netNodes0: seq<NodeId>, netArcs0: seq<ArcId>,
                             nodes2: seq<Node>, arcs2: seq<Arc>, netNodes2: seq<NodeId>, netArcs2: seq<ArcId>)
  {
    exists nodes1, arcs1, netArcs1, netNodes1 ::
      && PassResult(nodes0, arcs0, netArcs0, netNodes0, false, nodes1, arcs1, netArcs1, netNodes1)
      && PassResult(nodes1, arcs1, netArcs1, netNodes1, true, nodes2, arcs2, netArcs2, netNodes2)
  }

  /** Nodes fresh from the first loop, with no arcs yet, make a well-formed arena. */
  lemma NodesBuiltWellFormed(ne: seq<Element>, nodes: seq<Node>, netNodes: seq<NodeId>, nodeMap: map<string, NodeId>)
    requires NodesBuilt(ne, nodes, netNodes, nodeMap)
    ensures WellFormed(nodes, [])
  {
    forall n | 0 <= n < |nodes| ensures NodeOk(nodes, [], n) {
      assert nodes[n] == NodeOf(ne[n]);
    }
  }

  /** The net the arc-building loop leaves is one a pass can run on: every node is in it, so
      every arc end and every Place is. */
  lemma BuiltNormalisable(nodes: seq<Node>, arcs: seq<Arc>, netNodes: seq<NodeId>, netArcs: seq<ArcId>,
                          m: map<string, NodeId>)
    requires BuildingState(nodes, arcs, netNodes, netArcs, m)
    ensures Normalisable(nodes, arcs, netNodes, netArcs)
  {
    forall i | 0 <= i < |netArcs|
      ensures ArcInRange(nodes, arcs[netArcs[i]])
      ensures arcs[netArcs[i]].source.value in netNodes && arcs[netArcs[i]].target.value in netNodes
    {
      var a := arcs[netArcs[i]];
      assert ArcOk(nodes, arcs, netArcs[i]);
      assert netNodes[a.source.value] == a.source.value && netNodes[a.target.value] == a.target.value;
    }
    forall x | 0 <= x < |nodes| && nodes[x].kind.Place? ensures x in netNodes {
      assert netNodes[x] == x;
    }
  }

  /** The decision pass followed by the merge pass leaves the net `transform` promises. */
  lemma TwoPasses(nodes0: seq<Node>, arcs0: seq<Arc>, netNodes0: seq<NodeId>, netArcs0: seq<ArcId>,
                  nodes1: seq<Node>, arcs1: seq<Arc>, netNodes1: seq<NodeId>, netArcs1: seq<ArcId>,
                  nodes2: seq<Node>, arcs2: seq<Arc>, netNodes2: seq<NodeId>, netArcs2: seq<ArcId>)
    requires Normalisable(nodes0, arcs0, netNodes0, netArcs0)
    requires PassResult(nodes0, arcs0, netArcs0, netNodes0, false, nodes1, arcs1, netArcs1, netNodes1)
    requires PassResult(nodes1, arcs1, netArcs1, netNodes1, true, nodes2, arcs2, netArcs2, netNodes2)
    ensures TransformedNet(nodes2, arcs2, netNodes2, netArcs2)
  {
    PassNormal(nodes0, arcs0, netArcs0, netNodes0, false, nodes1, arcs1, netArcs1, netNodes1);
    PassKeepsNormalisable(nodes0, arcs0, netArcs0, netNodes0, false, nodes1, arcs1, netArcs1, netNodes1);
    PassNormal(nodes1, arcs1, netArcs1, netNodes1, true, nodes2, arcs2, netArcs2, netNodes2);
    PassKeepsNormal(nodes1, arcs1, netArcs1, netNodes1, true, nodes2, arcs2, netArcs2, netNodes2, false);
    PassKeepsNormalisable(nodes1, arcs1, netArcs1, netNodes1, true, nodes2, arcs2, netArcs2, netNodes2);
    WellFormedBipartite(nodes2, arcs2, netArcs2);
  }

  /** The two building loops and the check for `done`, on a fresh arena and an empty net:
      the error is the one the reference definition predicts, and otherwise the net is one a
      pass can run on. */
  method BuildNet(elements: seq<Element>, h: Heap, net: PetriNet, ids: IdGenerator) returns (err: Option<TransformError>)
    requires h.nodes == [] && h.arcs == [] && net.nodes == [] && net.arcs == [] && ids.Valid()
    modifies h, net, ids
    ensures ids.Valid() && err == BuiltOutcome(elements)
    ensures err.None? ==> net.name == old(net.name) && Normalisable(h.nodes, h.arcs, net.nodes, net.arcs)
    ensures err.None? ==>
              var st := BuiltSketch(elements, old(ids.idCounter));
              && Labels(h.nodes) == st.labels && h.arcs == st.arcs && net.arcs == st.netArcs
              && net.nodes == AllIds(|h.nodes|) && ids.idCounter == st.c && "done" in st.m
  {
    var nodesBuilt := BuildNodes(elements, h, net);
    if nodesBuilt.Failure? {
      return Some(nodesBuilt.error);
    }
    NodesBuiltWellFormed(NodeElements(elements), h.nodes, net.nodes, nodesBuilt.value);
    NodesBuiltMap(NodeElements(elements), h.nodes, net.nodes, nodesBuilt.value);
    assert Labels(h.nodes) == NodeLabels(NodeElements(elements));
    var arcsBuilt := BuildArcs(elements, h, net, ids, nodesBuilt.value);
    if arcsBuilt.Failure? {
      return Some(arcsBuilt.error);
    }
    if "done" !in arcsBuilt.value {
      return Some(NoDoneElement);
    }
    BuiltNormalisable(h.nodes, h.arcs, net.nodes, net.arcs, arcsBuilt.value);
    err := None;
  }

  /** `postProcessNode(petriNet, false)` then `postProcessNode(petriNet, true)`. */
  method Normalise(h: Heap, net: PetriNet, ids: IdGenerator)
    requires Normalisable(h.nodes, h.arcs, net.nodes, net.arcs) && ids.Valid()
    modifies h, net, ids
    ensures ids.Valid() && net.name == old(net.name)
    ensures TransformedNet(h.nodes, h.arcs, net.nodes, net.arcs)
    ensures Normalised(old(h.nodes), old(h.arcs), old(net.nodes), old(net.arcs), h.nodes, h.arcs, net.nodes, net.arcs)
  {
    ghost var nodes0, arcs0, netNodes0, netArcs0 := h.nodes, h.arcs, net.nodes, net.arcs;
    PostProcessNode(h, net, ids, false);
    ghost var nodes1, arcs1, netNodes1, netArcs1 := h.nodes, h.arcs, net.nodes, net.arcs;
    PassKeepsNormalisable(nodes0, arcs0, netArcs0, netNodes0, false, nodes1, arcs1, netArcs1, netNodes1);
    PostProcessNode(h, net, ids, true);
    TwoPasses(nodes0, arcs0, netNodes0, netArcs0, nodes1, arcs1, netNodes1, netArcs1, h.nodes, h.arcs, net.nodes, net.arcs);
  }

  /** `transform()`: the error it throws is the one the reference definition predicts, and
      otherwise the net it returns, named after the behaviour, is in normal form. The static
      arc-name counter is `ids`. */
  method Transform(b: Behavior, rootHasMembers: bool, ids: IdGenerator) returns (h: Heap, net: PetriNet, err: Option<TransformError>)
    requires ids.Valid()
    modifies ids
    ensures fresh(h) && fresh(net) && ids.Valid()
    ensures err == TransformOutcome(rootHasMembers, b)
    ensures err.None? ==> net.name == Some(b.name) && TransformedNet(h.nodes, h.arcs, net.nodes, net.arcs)
    ensures err.None? ==>
              && FindStart(b.ownedMemberships).Some?
              && var st := BuiltSketch(StartedElements(b), old(ids.idCounter));
                 exists nodes0 ::
                   && Labels(nodes0) == st.labels && WellFormed(nodes0, st.arcs)
                   && Normalised(nodes0, st.arcs, AllIds(|nodes0|), st.netArcs, h.nodes, h.arcs, net.nodes, net.arcs)
  {
    h := new Heap();
    net := new PetriNet();
    if !rootHasMembers {
      return h, net, Some(NoDoneElement);
    }
    net.SetName(Some(b.name));
    var start := FindStart(b.ownedMemberships);
    if start.None? {
      return h, net, Some(NoStartElement);
    }
    var elements := b.ownedElements + [start.value];
    err := BuildNet(elements, h, net, ids);
    if err.None? {
      ghost var nodes0 := h.nodes;
      Normalise(h, net, ids);
      assert Labels(nodes0) == BuiltSketch(StartedElements(b), old(ids.idCounter)).labels;
    }
  }
}
