/** The second loop of `Transformer.transform`: one or two arcs per succession or transition
    usage, with a node interposed between two nodes of the same kind, and `done` created on
    first use as a target. */
module TransformerArcs {
  import opened Wrappers
  import opened SysML
  import opened PetriNetModel
  import opened TransformSpec
  import opened ArcIds
  import opened TransformerBuild

  /** The standing invariant of the arc-building loop, on the arena and the net's lists: a
      well-formed arena whose every node is in the net (in allocation order), a registry whose
      names are the names of the nodes they point to, and net arcs whose endpoints are set. */
  predicate BuildingState(nodes: seq<Node>, arcs: seq<Arc>, netNodes: seq<NodeId>, netArcs: seq<ArcId>, m: map<string, NodeId>) {
    && WellFormed(nodes, arcs)
    && MapInRange(nodes, m)
    && (forall k <- m :: nodes[m[k]].name == Some(k))
    && netNodes == AllIds(|nodes|)
    && (forall i :: 0 <= i < |netArcs| ==>
          netArcs[i] < |arcs| && arcs[netArcs[i]].source.Some? && arcs[netArcs[i]].target.Some?)
  }

  ghost predicate Building(h: Heap, net: PetriNet, ids: IdGenerator, m: map<string, NodeId>)
    reads h, net, ids
  {
    BuildingState(h.nodes, h.arcs, net.nodes, net.arcs, m) && ids.Valid()
  }

  /** A new node with empty lists, added to the net and registered under its own name. */
  lemma RegisterPreservesBuilding(nodes: seq<Node>, arcs: seq<Arc>, netNodes: seq<NodeId>, netArcs: seq<ArcId>,
                                  m: map<string, NodeId>, node: Node, k: string)
    requires BuildingState(nodes, arcs, netNodes, netArcs, m)
    requires node.outgoing == [] && node.incoming == [] && node.name == Some(k)
    ensures BuildingState(nodes + [node], arcs, netNodes + [|nodes|], netArcs, m[k := |nodes|])
    ensures Tags(nodes + [node], m[k := |nodes|]) == Tags(nodes, m)[k := node.kind.Place?]
  {
    AllocNodePreservesWellFormed(nodes, arcs, node);
    TagsSnoc(nodes, m, node, k);
    assert netNodes + [|nodes|] == AllIds(|nodes| + 1);
  }

  /** Linking a detached arc between nodes of different kinds. */
  lemma LinkPreservesBuilding(nodes: seq<Node>, arcs: seq<Arc>, netNodes: seq<NodeId>, netArcs: seq<ArcId>,
                              m: map<string, NodeId>, a: ArcId, s: NodeId, t: NodeId)
    requires BuildingState(nodes, arcs, netNodes, netArcs, m)
    requires a < |arcs| && arcs[a].source.None? && arcs[a].target.None?
    requires s < |nodes| && t < |nodes| && Alternates(nodes[s].kind, nodes[t].kind)
    ensures BuildingState(LinkNodes(nodes, a, s, t), arcs[a := arcs[a].(source := Some(s), target := Some(t))],
                          netNodes, netArcs, m)
    ensures Tags(LinkNodes(nodes, a, s, t), m) == Tags(nodes, m)
  {
    LinkPreservesWellFormed(nodes, arcs, a, s, t);
    TagsOfGrown(nodes, LinkNodes(nodes, a, s, t), m);
    var arcs' := arcs[a := arcs[a].(source := Some(s), target := Some(t))];
    forall i | 0 <= i < |netArcs|
      ensures netArcs[i] != a && arcs'[netArcs[i]] == arcs[netArcs[i]]
    {
    }
  }

  /** Adding to the net an arc whose ends are both set. */
  lemma AddArcPreservesBuilding(nodes: seq<Node>, arcs: seq<Arc>, netNodes: seq<NodeId>, netArcs: seq<ArcId>,
                                m: map<string, NodeId>, a: ArcId)
    requires BuildingState(nodes, arcs, netNodes, netArcs, m)
    requires a < |arcs| && arcs[a].source.Some? && arcs[a].target.Some?
    ensures BuildingState(nodes, arcs, netNodes, netArcs + [a], m)
  {
  }

  /** A detached arc appended to the arena, outside the net. */
  lemma AllocArcPreservesBuilding(nodes: seq<Node>, arcs: seq<Arc>, netNodes: seq<NodeId>, netArcs: seq<ArcId>,
                                  m: map<string, NodeId>, arc: Arc)
    requires BuildingState(nodes, arcs, netNodes, netArcs, m)
    requires arc.source.None? && arc.target.None?
    ensures BuildingState(nodes, arcs + [arc], netNodes, netArcs, m)
  {
    AllocArcPreservesWellFormed(nodes, arcs, arc);
  }

  /** Changing an arc's name, weight or guard. */
  lemma UpdateArcPreservesBuilding(nodes: seq<Node>, arcs: seq<Arc>, netNodes: seq<NodeId>, netArcs: seq<ArcId>,
                                   m: map<string, NodeId>, a: ArcId, arc: Arc)
    requires BuildingState(nodes, arcs, netNodes, netArcs, m)
    requires a < |arcs| && arc.source == arcs[a].source && arc.target == arcs[a].target
    ensures BuildingState(nodes, arcs[a := arc], netNodes, netArcs, m)
  {
    UpdateArcPreservesWellFormed(nodes, arcs, a, arc);
  }

  /** Only an arc leaving a DecisionNode in a transition usage carries a guard: the referent
      name of the usage's first `TransitionFeatureMembership`, when it has one. */
  function ExpectedGuard(e: Element, s: Endpoint): Option<string> {
    if s.isDecisionNode && e.kind.TransitionUsage? then e.kind.guard else None
  }

  /** The node a flow whose two endpoints have the same kind gets in between: a Transition
      between two Places, a Place with marking 0 between two Transitions. */
  function Interposed(sourceIsPlace: bool, name: string): Node {
    Node(Some(name), [], [], if sourceIsPlace then Transition(false, false) else Place(0))
  }

  /** The registry after the lazy creation of `done`. */
  function WithDone(nodeMap: map<string, NodeId>, t: Endpoint, doneId: NodeId): map<string, NodeId> {
    if t.name == "done" && "done" !in nodeMap then nodeMap["done" := doneId] else nodeMap
  }

  /** What one successful iteration for the flow `e` from `s` to `t` leaves behind, given the
      state before it (`nodes`, `arcs`, `netArcs`, `nodeMap`, counter `c`) and after it
      (primed): the `done` Place if it was missing, then either one arc `s`→`t`, or an arc
      `s`→interposed node and an arc interposed node→`t` (the latter added to the net first),
      named by the next one or two generated ids, weight 1, and the guard on the first arc. */
  ghost predicate FlowBuilt(e: Element, s: Endpoint, t: Endpoint,
                            nodes: seq<Node>, arcs: seq<Arc>, netArcs: seq<ArcId>, nodeMap: map<string, NodeId>, c: nat,
                            nodes': seq<Node>, arcs': seq<Arc>, netArcs': seq<ArcId>, nodeMap': map<string, NodeId>, c': nat)
  {
    var addDone := t.name == "done" && "done" !in nodeMap;
    var m1 := WithDone(nodeMap, t, |nodes|);
    var n1 := if addDone then |nodes| + 1 else |nodes|;
    var a := |arcs|;
    && |nodes'| >= n1
    && (addDone ==> nodes'[|nodes|].name == Some("done") && nodes'[|nodes|].kind == Place(0))
    && s.name in m1 && t.name in m1 && m1[s.name] < n1 && m1[t.name] < n1
    && FlowArcs(e, s, t, m1, n1, a, c, nodes', arcs, netArcs, arcs', netArcs', nodeMap', c')
  }

  /** The arcs of one flow, once its endpoints are known to be registered in `m1`; `n1` is the
      first free node id and `a` the first free arc id. */
  ghost predicate FlowArcs(e: Element, s: Endpoint, t: Endpoint, m1: map<string, NodeId>, n1: nat, a: nat, c: nat,
                           nodes': seq<Node>, arcs: seq<Arc>, netArcs: seq<ArcId>,
                           arcs': seq<Arc>, netArcs': seq<ArcId>, nodeMap': map<string, NodeId>, c': nat)
    requires s.name in m1 && t.name in m1 && m1[s.name] < n1 && m1[t.name] < n1 <= |nodes'|
  {
    var src, tgt := m1[s.name], m1[t.name];
    var sourceIsPlace := nodes'[src].kind.Place?;
    if sourceIsPlace == nodes'[tgt].kind.Place? then
      var mid := InterposedName(s.name, t.name);
      && |nodes'| == n1 + 1
      && nodes'[n1].name == Some(mid) && nodes'[n1].kind == Interposed(sourceIsPlace, mid).kind
      && arcs' == arcs + [Arc(Some(GeneratedId(c)), 1, ExpectedGuard(e, s), Some(src), Some(n1)),
                          Arc(Some(GeneratedId(c + 1)), 1, None, Some(n1), Some(tgt))]
      && netArcs' == netArcs + [a + 1, a]
      && nodeMap' == m1[mid := n1]
      && c' == c + 2
    else
      && |nodes'| == n1
      && arcs' == arcs + [Arc(Some(GeneratedId(c)), 1, ExpectedGuard(e, s), Some(src), Some(tgt))]
      && netArcs' == netArcs + [a]
      && nodeMap' == m1
      && c' == c + 1
  }

  /** A node without its arc lists: its name and kind. */
  datatype Label = Label(name: Option<string>, kind: NodeKind)

  function Labels(nodes: seq<Node>): (r: seq<Label>)
    ensures |r| == |nodes| && forall n :: 0 <= n < |nodes| ==> r[n] == Label(nodes[n].name, nodes[n].kind)
  {
    seq(|nodes|, n requires 0 <= n < |nodes| => Label(nodes[n].name, nodes[n].kind))
  }

  /** What the arc-building loop has built so far, without the nodes' arc lists (the setters
      keep those consistent with the arcs): each node's name and kind, the arena's arcs, the
      net's arc list, the name registry and the arc-name counter. */
  datatype Sketch = Sketch(labels: seq<Label>, arcs: seq<Arc>, netArcs: seq<ArcId>, m: map<string, NodeId>, c: nat)

  predicate SketchOk(st: Sketch) {
    forall k <- st.m :: st.m[k] < |st.labels|
  }

  function SketchOf(nodes: seq<Node>, arcs: seq<Arc>, netArcs: seq<ArcId>, m: map<string, NodeId>, c: nat): Sketch {
    Sketch(Labels(nodes), arcs, netArcs, m, c)
  }

  /** The arcs from `lo` on join two nodes of `labels`, a Place and a Transition. */
  predicate NewArcsAlternate(labels: seq<Label>, arcs: seq<Arc>, lo: nat) {
    forall i :: lo <= i < |arcs| ==>
      && arcs[i].source.Some? && arcs[i].source.value < |labels|
      && arcs[i].target.Some? && arcs[i].target.value < |labels|
      && Alternates(labels[arcs[i].source.value].kind, labels[arcs[i].target.value].kind)
  }

  /** The arcs of one flow on the sketch, once `done` is settled (`labels1`, `m1`) and both
      ends are registered: one arc from source to target, or, between two nodes of the same
      kind, an interposed node of the other kind with an arc into it (carrying the guard) and an
      arc out of it, the latter added to the net first; arcs are named by the next generated
      ids. */
  function JoinSketch(st: Sketch, labels1: seq<Label>, m1: map<string, NodeId>, e: Element, s: Endpoint, t: Endpoint): (r: Sketch)
    requires st.labels <= labels1 && forall k <- m1 :: m1[k] < |labels1|
    requires s.name in m1 && t.name in m1
    ensures SketchOk(r)
    ensures labels1 <= r.labels && st.arcs <= r.arcs && st.netArcs <= r.netArcs
    ensures |r.arcs| - |st.arcs| == |r.netArcs| - |st.netArcs| == r.c - st.c
    ensures forall i :: |st.netArcs| <= i < |r.netArcs| ==> |st.arcs| <= r.netArcs[i] < |r.arcs|
    ensures NewArcsAlternate(r.labels, r.arcs, |st.arcs|)
  {
    var src, tgt, n1, a, c := m1[s.name], m1[t.name], |labels1|, |st.arcs|, st.c;
    var sourceIsPlace := labels1[src].kind.Place?;
    if sourceIsPlace == labels1[tgt].kind.Place? then
      var mid := InterposedName(s.name, t.name);
      Sketch(labels1 + [Label(Some(mid), Interposed(sourceIsPlace, mid).kind)],
             st.arcs + [Arc(Some(GeneratedId(c)), 1, ExpectedGuard(e, s), Some(src), Some(n1)),
                        Arc(Some(GeneratedId(c + 1)), 1, None, Some(n1), Some(tgt))],
             st.netArcs + [a + 1, a], m1[mid := n1], c + 2)
    else
      Sketch(labels1, st.arcs + [Arc(Some(GeneratedId(c)), 1, ExpectedGuard(e, s), Some(src), Some(tgt))],
             st.netArcs + [a], m1, c + 1)
  }

  /** One iteration of the arc-building loop on everything it builds: the `done` Place if it
      is missing, then the arcs of the flow. An iteration that throws ends the loop (`ArcStep`
      says when); the sketch is then left as it was. */
  function BuildStep(st: Sketch, e: Element): (r: Sketch)
    requires SketchOk(st)
    ensures SketchOk(r)
    ensures st.labels <= r.labels && st.arcs <= r.arcs && st.netArcs <= r.netArcs
    ensures |r.arcs| - |st.arcs| == |r.netArcs| - |st.netArcs| == r.c - st.c
    ensures forall i :: |st.netArcs| <= i < |r.netArcs| ==> |st.arcs| <= r.netArcs[i] < |r.arcs|
    ensures NewArcsAlternate(r.labels, r.arcs, |st.arcs|)
  {
    match FlowEnds(e)
    case None => st
    case Some((s, t)) =>
      var labels1 := if t.name == "done" && "done" !in st.m then st.labels + [Label(Some("done"), Place(0))] else st.labels;
      var m1 := WithDone(st.m, t, |st.labels|);
      if s.name !in m1 || t.name !in m1 || (s.isDecisionNode && e.kind.SuccessionAsUsage?) then st
      else JoinSketch(st, labels1, m1, e, s, t)
  }

  /** The arc-building loop over all elements, on everything it builds. */
  function BuildFold(st: Sketch, es: seq<Element>): (r: Sketch)
    requires SketchOk(st)
    ensures SketchOk(r)
    ensures st.labels <= r.labels && st.arcs <= r.arcs && st.netArcs <= r.netArcs
    ensures |r.arcs| - |st.arcs| == |r.netArcs| - |st.netArcs| == r.c - st.c
    ensures forall i :: |st.netArcs| <= i < |r.netArcs| ==> |st.arcs| <= r.netArcs[i] < |r.arcs|
    ensures NewArcsAlternate(r.labels, r.arcs, |st.arcs|)
  {
    if |es| == 0 then st
    else
      var r0 := BuildFold(st, es[..|es| - 1]);
      var r := BuildStep(r0, es[|es| - 1]);
      assert NewArcsAlternate(r.labels, r.arcs, |st.arcs|) by {
        forall i | |st.arcs| <= i < |r0.arcs| ensures r.arcs[i] == r0.arcs[i] && r.labels[r0.arcs[i].source.value] == r0.labels[r0.arcs[i].source.value] && r.labels[r0.arcs[i].target.value] == r0.labels[r0.arcs[i].target.value] {
        }
      }
      r
  }

  /** Nodes that keep their names and kinds keep their labels. */
  lemma LabelsKept(nodes: seq<Node>, nodes': seq<Node>)
    requires NodesGrown(nodes, nodes')
    ensures Labels(nodes')[..|nodes|] == Labels(nodes)
  {
    forall n | 0 <= n < |nodes| ensures Labels(nodes')[n] == Labels(nodes)[n] {
      assert nodes'[n].name == nodes[n].name && nodes'[n].kind == nodes[n].kind;
    }
  }

  /** The `done` step followed by the rest of an iteration that does not fail the cast is
      `BuildStep` on the sketch of the state before it. */
  lemma FlowSketchFromParts(e: Element, s: Endpoint, t: Endpoint,
                            nodes: seq<Node>, arcs: seq<Arc>, netArcs: seq<ArcId>, nodeMap: map<string, NodeId>, c: nat,
                            nodes1: seq<Node>, m1: map<string, NodeId>,
                            nodes': seq<Node>, arcs': seq<Arc>, netArcs': seq<ArcId>, m': map<string, NodeId>, c': nat)
    requires FlowEnds(e) == Some((s, t)) && !(s.isDecisionNode && e.kind.SuccessionAsUsage?)
    requires MapInRange(nodes, nodeMap) && m1 == WithDone(nodeMap, t, |nodes|)
    requires nodes1 == if t.name == "done" && "done" !in nodeMap
                       then nodes + [Node(Some("done"), [], [], Place(0))] else nodes
    requires MapInRange(nodes1, m1) && NodesGrown(nodes1, nodes')
    requires s.name in m1 && t.name in m1
    requires FlowArcs(e, s, t, m1, |nodes1|, |arcs|, c, nodes', arcs, netArcs, arcs', netArcs', m', c')
    ensures SketchOk(SketchOf(nodes, arcs, netArcs, nodeMap, c))
    ensures BuildStep(SketchOf(nodes, arcs, netArcs, nodeMap, c), e) == SketchOf(nodes', arcs', netArcs', m', c')
  {
    assert Labels(nodes1) == if t.name == "done" && "done" !in nodeMap
                             then Labels(nodes) + [Label(Some("done"), Place(0))] else Labels(nodes);
    BuildStepJoins(SketchOf(nodes, arcs, netArcs, nodeMap, c), e, s, t, Labels(nodes1), m1);
    LabelsKept(nodes1, nodes');
    FlowArcsSketch(e, s, t, Labels(nodes), Labels(nodes1), nodeMap, m1, |nodes1|, c, nodes', arcs, netArcs, arcs', netArcs', m', c');
  }

  /** An iteration whose ends are registered once `done` is settled, and which does not fail
      the cast, joins them. */
  lemma BuildStepJoins(st: Sketch, e: Element, s: Endpoint, t: Endpoint, labels1: seq<Label>, m1: map<string, NodeId>)
    requires SketchOk(st) && FlowEnds(e) == Some((s, t)) && !(s.isDecisionNode && e.kind.SuccessionAsUsage?)
    requires labels1 == if t.name == "done" && "done" !in st.m then st.labels + [Label(Some("done"), Place(0))] else st.labels
    requires m1 == WithDone(st.m, t, |st.labels|) && s.name in m1 && t.name in m1
    ensures BuildStep(st, e) == JoinSketch(st, labels1, m1, e, s, t)
  {
  }

  /** The arcs `FlowArcs` describes are the ones `JoinSketch` adds. */
  lemma FlowArcsSketch(e: Element, s: Endpoint, t: Endpoint, labels0: seq<Label>, labels1: seq<Label>,
                       m0: map<string, NodeId>, m1: map<string, NodeId>, n1: nat, c: nat, nodes': seq<Node>, arcs: seq<Arc>, netArcs: seq<ArcId>,
                       arcs': seq<Arc>, netArcs': seq<ArcId>, m': map<string, NodeId>, c': nat)
    requires labels0 <= labels1 && n1 == |labels1| && forall k <- m1 :: m1[k] < n1
    requires s.name in m1 && t.name in m1 && n1 <= |nodes'| && Labels(nodes')[..n1] == labels1
    requires FlowArcs(e, s, t, m1, n1, |arcs|, c, nodes', arcs, netArcs, arcs', netArcs', m', c')
    ensures JoinSketch(Sketch(labels0, arcs, netArcs, m0, c), labels1, m1, e, s, t) == SketchOf(nodes', arcs', netArcs', m', c')
  {
    var src, tgt := m1[s.name], m1[t.name];
    assert labels1[src] == Labels(nodes')[src] && labels1[tgt] == Labels(nodes')[tgt];
    if nodes'[src].kind.Place? == nodes'[tgt].kind.Place? {
      assert Labels(nodes') == labels1 + [Labels(nodes')[n1]];
    } else {
      assert Labels(nodes') == Labels(nodes')[..n1];
    }
  }

  /** `new Arc()` followed by `arc.setName(generateXmlSafeId())`. */
  method NewNamedArc(h: Heap, net: PetriNet, ids: IdGenerator, m: map<string, NodeId>) returns (a: ArcId)
    requires Building(h, net, ids, m)
    modifies h, ids
    ensures a == |old(h.arcs)| && h.nodes == old(h.nodes)
    ensures h.arcs == old(h.arcs) + [FreshArc.(name := Some(GeneratedId(old(ids.idCounter))))]
    ensures ids.idCounter == old(ids.idCounter) + 1 && Building(h, net, ids, m)
  {
    AllocArcPreservesBuilding(h.nodes, h.arcs, net.nodes, net.arcs, m, FreshArc.(name := Some(GeneratedId(ids.idCounter))));
    a := h.NewArc();
    var id := ids.GenerateXmlSafeId();
    h.SetArcName(a, Some(id));
  }

  /** The lazy creation of `done`: a Place with marking 0, registered and added to the net,
      when the flow's target is called `done` and nothing is registered under that name. */
  method AddDoneIfMissing(h: Heap, net: PetriNet, ids: IdGenerator, nodeMap: map<string, NodeId>, t: Endpoint)
    returns (m: map<string, NodeId>)
    requires Building(h, net, ids, nodeMap)
    modifies h, net
    ensures m == WithDone(nodeMap, t, |old(h.nodes)|) && Building(h, net, ids, m)
    ensures h.arcs == old(h.arcs) && net.arcs == old(net.arcs) && net.name == old(net.name)
    ensures h.nodes == if t.name == "done" && "done" !in nodeMap
                       then old(h.nodes) + [Node(Some("done"), [], [], Place(0))] else old(h.nodes)
    ensures Tags(h.nodes, m) == if t.name == "done" && "done" !in nodeMap
                                then Tags(old(h.nodes), nodeMap)["done" := true] else Tags(old(h.nodes), nodeMap)
  {
    m := nodeMap;
    if t.name == "done" && "done" !in nodeMap {
      ghost var nodes0 := h.nodes;
      RegisterPreservesBuilding(h.nodes, h.arcs, net.nodes, net.arcs, m, Node(Some("done"), [], [], Place(0)), "done");
      var p := h.NewPlace();
      h.SetNodeName(p, Some(t.name));
      h.SetInitialMarking(p, 0);
      assert h.nodes == nodes0 + [Node(Some("done"), [], [], Place(0))];
      m := m["done" := p];
      net.AddNode(p);
    }
  }

  /** The node interposed between two nodes of the same kind: a Transition between Places, a
      Place between Transitions, named `source_to_target`, registered under that name (replacing
      any node of that name in the registry) and added to the net. */
  method AddInterposedNode(h: Heap, net: PetriNet, ids: IdGenerator, m: map<string, NodeId>, sourceIsPlace: bool, midName: string)
    returns (mid: NodeId, m': map<string, NodeId>)
    requires Building(h, net, ids, m)
    modifies h, net
    ensures mid == |old(h.nodes)| && h.nodes == old(h.nodes) + [Interposed(sourceIsPlace, midName)]
    ensures h.arcs == old(h.arcs) && net.arcs == old(net.arcs) && net.name == old(net.name)
    ensures m' == m[midName := mid] && Building(h, net, ids, m')
    ensures Tags(h.nodes, m') == Tags(old(h.nodes), m)[midName := !sourceIsPlace]
  {
    RegisterPreservesBuilding(h.nodes, h.arcs, net.nodes, net.arcs, m, Interposed(sourceIsPlace, midName), midName);
    if sourceIsPlace {
      mid := h.NewTransition();
    } else {
      mid := h.NewPlace();
    }
    h.SetNodeName(mid, Some(midName));
    m' := m[midName := mid];
    net.AddNode(mid);
  }

  /** `arc.setWeight(1); arc.setSource(src); arc.setTarget(tgt)` on a detached arc. */
  method LinkArc(h: Heap, net: PetriNet, ids: IdGenerator, m: map<string, NodeId>, a: ArcId, src: NodeId, tgt: NodeId)
    requires Building(h, net, ids, m)
    requires a < |h.arcs| && h.arcs[a].source.None? && h.arcs[a].target.None?
    requires src < |h.nodes| && tgt < |h.nodes| && Alternates(h.nodes[src].kind, h.nodes[tgt].kind)
    modifies h
    ensures h.arcs == old(h.arcs)[a := old(h.arcs)[a].(weight := 1, source := Some(src), target := Some(tgt))]
    ensures h.nodes == LinkNodes(old(h.nodes), a, src, tgt)
    ensures Building(h, net, ids, m) && Tags(h.nodes, m) == Tags(old(h.nodes), m)
  {
    UpdateArcPreservesBuilding(h.nodes, h.arcs, net.nodes, net.arcs, m, a, h.arcs[a].(weight := 1));
    h.SetWeight(a, 1);
    LinkPreservesBuilding(h.nodes, h.arcs, net.nodes, net.arcs, m, a, src, tgt);
    Connect(h, a, src, tgt);
  }

  lemma AppendTwo(xs: seq<ArcId>, p: ArcId, q: ArcId)
    ensures xs + [p] + [q] == xs + [p, q]
  {
  }

  /** The arena's arcs after the same-kind branch: the first arc updated in place, the second
      appended and then updated. */
  lemma SameKindArcs(arcs0: seq<Arc>, a: nat, fresh1: Arc, first: Arc, second: Arc)
    requires |arcs0| == a + 1
    ensures (arcs0 + [fresh1])[a := first][a + 1 := second] == arcs0[..a] + [first, second]
  {
    var r := (arcs0 + [fresh1])[a := first][a + 1 := second];
    assert |r| == a + 2 && r[a] == first && r[a + 1] == second;
    assert forall i :: 0 <= i < a ==> r[i] == arcs0[i];
  }

  /** Links the first arc `a` into the interposed node `mid` and the second arc `a1` out of it,
      then adds `a1` and `a` to the net, in that order. */
  method LinkThrough(h: Heap, net: PetriNet, ids: IdGenerator, m: map<string, NodeId>,
                     a: ArcId, a1: ArcId, src: NodeId, mid: NodeId, tgt: NodeId)
    requires Building(h, net, ids, m)
    requires a < a1 < |h.arcs| && h.arcs[a].source.None? && h.arcs[a].target.None?
    requires h.arcs[a1].source.None? && h.arcs[a1].target.None?
    requires src < |h.nodes| && mid < |h.nodes| && tgt < |h.nodes|
    requires Alternates(h.nodes[src].kind, h.nodes[mid].kind) && Alternates(h.nodes[mid].kind, h.nodes[tgt].kind)
    modifies h, net
    ensures Building(h, net, ids, m) && NodesGrown(old(h.nodes), h.nodes) && net.name == old(net.name)
    ensures |h.nodes| == |old(h.nodes)| && Tags(h.nodes, m) == Tags(old(h.nodes), m)
    ensures h.arcs == old(h.arcs)[a := old(h.arcs)[a].(weight := 1, source := Some(src), target := Some(mid))]
                                 [a1 := old(h.arcs)[a1].(weight := 1, source := Some(mid), target := Some(tgt))]
    ensures net.arcs == old(net.arcs) + [a1, a]
  {
    ghost var nodes0, netArcs0 := h.nodes, net.arcs;
    LinkArc(h, net, ids, m, a, src, mid);
    ghost var nodes1 := h.nodes;
    LinkArc(h, net, ids, m, a1, mid, tgt);
    NodesGrownTransitive(nodes0, nodes1, h.nodes);
    AddArcPreservesBuilding(h.nodes, h.arcs, net.nodes, net.arcs, m, a1);
    AddArcPreservesBuilding(h.nodes, h.arcs, net.nodes, net.arcs + [a1], m, a);
    net.AddArc(a1);
    net.AddArc(a);
    AppendTwo(netArcs0, a1, a);
  }

  /** The two same-kind branches, once the first arc `a` exists (named by id `c`, guard set,
      ends not yet set): a second named arc, the interposed node, the first arc into it and the
      second out of it; the second arc is added to the net before the first. */
  method JoinSameKind(e: Element, s: Endpoint, t: Endpoint, h: Heap, net: PetriNet, ids: IdGenerator,
                      m: map<string, NodeId>, a: ArcId, ghost c: nat)
    returns (m': map<string, NodeId>)
    requires Building(h, net, ids, m)
    requires s.name in m && t.name in m && h.nodes[m[s.name]].kind.Place? == h.nodes[m[t.name]].kind.Place?
    requires a == |h.arcs| - 1 && h.arcs[a] == Arc(Some(GeneratedId(c)), 1, ExpectedGuard(e, s), None, None)
    requires ids.idCounter == c + 1
    modifies h, net, ids
    ensures Building(h, net, ids, m') && NodesGrown(old(h.nodes), h.nodes) && net.name == old(net.name)
    ensures var n1, mid := |old(h.nodes)|, InterposedName(s.name, t.name);
            && |h.nodes| == n1 + 1
            && h.nodes[n1].name == Some(mid) && h.nodes[n1].kind == Interposed(old(h.nodes)[m[s.name]].kind.Place?, mid).kind
            && h.arcs == old(h.arcs)[..a] + [Arc(Some(GeneratedId(c)), 1, ExpectedGuard(e, s), Some(m[s.name]), Some(n1)),
                                             Arc(Some(GeneratedId(c + 1)), 1, None, Some(n1), Some(m[t.name]))]
            && net.arcs == old(net.arcs) + [a + 1, a]
            && m' == m[mid := n1] && ids.idCounter == c + 2
    ensures Tags(h.nodes, m') == Tags(old(h.nodes), m)[InterposedName(s.name, t.name) := !old(h.nodes)[m[s.name]].kind.Place?]
  {
    var src, tgt := m[s.name], m[t.name];
    ghost var arcs0 := h.arcs;
    var a1 := NewNamedArc(h, net, ids, m);
    ghost var fresh1 := h.arcs[a1];
    var mid;
    mid, m' := AddInterposedNode(h, net, ids, m, h.nodes[src].kind.Place?, InterposedName(s.name, t.name));
    LinkThrough(h, net, ids, m', a, a1, src, mid, tgt);
    SameKindArcs(arcs0, a, fresh1, Arc(Some(GeneratedId(c)), 1, ExpectedGuard(e, s), Some(src), Some(mid)),
                 Arc(Some(GeneratedId(c + 1)), 1, None, Some(mid), Some(tgt)));
  }

  /** The branch for ends of different kinds: the first arc joins them directly. */
  method JoinDirect(e: Element, s: Endpoint, t: Endpoint, h: Heap, net: PetriNet, ids: IdGenerator,
                    m: map<string, NodeId>, a: ArcId, ghost c: nat)
    requires Building(h, net, ids, m)
    requires s.name in m && t.name in m && h.nodes[m[s.name]].kind.Place? != h.nodes[m[t.name]].kind.Place?
    requires a == |h.arcs| - 1 && h.arcs[a] == Arc(Some(GeneratedId(c)), 1, ExpectedGuard(e, s), None, None)
    modifies h, net
    ensures Building(h, net, ids, m) && NodesGrown(old(h.nodes), h.nodes) && net.name == old(net.name)
    ensures |h.nodes| == |old(h.nodes)| && Tags(h.nodes, m) == Tags(old(h.nodes), m)
    ensures h.arcs == old(h.arcs)[..a] + [Arc(Some(GeneratedId(c)), 1, ExpectedGuard(e, s), Some(m[s.name]), Some(m[t.name]))]
    ensures net.arcs == old(net.arcs) + [a]
  {
    LinkArc(h, net, ids, m, a, m[s.name], m[t.name]);
    AddArcPreservesBuilding(h.nodes, h.arcs, net.nodes, net.arcs, m, a);
    net.AddArc(a);
  }

  /** The branch on the kinds of the two ends. */
  method JoinEnds(e: Element, s: Endpoint, t: Endpoint, h: Heap, net: PetriNet, ids: IdGenerator,
                  m: map<string, NodeId>, a: ArcId, ghost c: nat)
    returns (m': map<string, NodeId>)
    requires Building(h, net, ids, m)
    requires s.name in m && t.name in m
    requires a == |h.arcs| - 1 && h.arcs[a] == Arc(Some(GeneratedId(c)), 1, ExpectedGuard(e, s), None, None)
    requires ids.idCounter == c + 1
    modifies h, net, ids
    ensures Building(h, net, ids, m') && NodesGrown(old(h.nodes), h.nodes) && net.name == old(net.name)
    ensures FlowArcs(e, s, t, m, |old(h.nodes)|, a, c, h.nodes, old(h.arcs)[..a], old(net.arcs), h.arcs, net.arcs, m', ids.idCounter)
    ensures var reg := Tags(old(h.nodes), m);
            Tags(h.nodes, m') == if reg[s.name] == reg[t.name] then reg[InterposedName(s.name, t.name) := !reg[s.name]] else reg
  {
    if h.nodes[m[s.name]].kind.Place? == h.nodes[m[t.name]].kind.Place? {
      m' := JoinSameKind(e, s, t, h, net, ids, m, a, c);
    } else {
      JoinDirect(e, s, t, h, net, ids, m, a, c);
      m' := m;
    }
  }

  /** The part of one iteration after `done` is settled: look up both ends, name a new arc, take
      the guard (or fail the cast of a succession leaving a DecisionNode), and join the ends. */
  method ArcsFromRegistered(e: Element, s: Endpoint, t: Endpoint, h: Heap, net: PetriNet, ids: IdGenerator,
                            m: map<string, NodeId>)
    returns (r: Result<map<string, NodeId>, TransformError>)
    requires Building(h, net, ids, m) && FlowEnds(e) == Some((s, t))
    modifies h, net, ids
    ensures ids.Valid()
    ensures r.Failure? <==> s.name !in m || t.name !in m || (s.isDecisionNode && e.kind.SuccessionAsUsage?)
    ensures r.Failure? ==> r.error == if s.name !in m || t.name !in m then SourceOrTargetNotFound else ClassCastFailure
    ensures r.Success? ==> Building(h, net, ids, r.value) && NodesGrown(old(h.nodes), h.nodes) && net.name == old(net.name)
    ensures r.Success? ==> FlowArcs(e, s, t, m, |old(h.nodes)|, |old(h.arcs)|, old(ids.idCounter), h.nodes, old(h.arcs),
                                    old(net.arcs), h.arcs, net.arcs, r.value, ids.idCounter)
    ensures r.Success? ==> var reg := Tags(old(h.nodes), m);
                           Tags(h.nodes, r.value) ==
                             if reg[s.name] == reg[t.name] then reg[InterposedName(s.name, t.name) := !reg[s.name]] else reg
  {
    if s.name !in m || t.name !in m {
      return Failure(SourceOrTargetNotFound);
    }
    ghost var c := ids.idCounter;
    ghost var arcs0 := h.arcs;
    var a := NewNamedArc(h, net, ids, m);
    if s.isDecisionNode {
      if e.kind.SuccessionAsUsage? {
        return Failure(ClassCastFailure);
      }
      if e.kind.guard.Some? {
        UpdateArcPreservesBuilding(h.nodes, h.arcs, net.nodes, net.arcs, m, a, h.arcs[a].(guard := e.kind.guard));
        h.SetGuard(a, e.kind.guard);
      }
    }
    assert h.arcs[a] == Arc(Some(GeneratedId(c)), 1, ExpectedGuard(e, s), None, None);
    assert h.arcs[..a] == arcs0;
    var m' := JoinEnds(e, s, t, h, net, ids, m, a, c);
    r := Success(m');
  }

  /** `ArcStep` on a flow, split at the lazy creation of `done`. */
  lemma ArcStepUnfold(reg: Registry, e: Element, s: Endpoint, t: Endpoint)
    requires FlowEnds(e) == Some((s, t))
    ensures var reg1 := if t.name == "done" && "done" !in reg then reg["done" := true] else reg;
            ArcStep(reg, e) ==
              if s.name !in reg1 || t.name !in reg1 then Failure(SourceOrTargetNotFound)
              else if s.isDecisionNode && e.kind.SuccessionAsUsage? then Failure(ClassCastFailure)
              else if reg1[s.name] == reg1[t.name] then Success(reg1[InterposedName(s.name, t.name) := !reg1[s.name]])
              else Success(reg1)
  {
  }

  /** The `done` step followed by the rest of the iteration builds what `FlowBuilt` says. */
  lemma FlowBuiltFromParts(e: Element, s: Endpoint, t: Endpoint,
                           nodes: seq<Node>, arcs: seq<Arc>, netArcs: seq<ArcId>, nodeMap: map<string, NodeId>, c: nat,
                           nodes1: seq<Node>, m1: map<string, NodeId>,
                           nodes': seq<Node>, arcs': seq<Arc>, netArcs': seq<ArcId>, m': map<string, NodeId>, c': nat)
    requires m1 == WithDone(nodeMap, t, |nodes|)
    requires nodes1 == if t.name == "done" && "done" !in nodeMap
                       then nodes + [Node(Some("done"), [], [], Place(0))] else nodes
    requires MapInRange(nodes1, m1) && NodesGrown(nodes1, nodes')
    requires s.name in m1 && t.name in m1
    requires FlowArcs(e, s, t, m1, |nodes1|, |arcs|, c, nodes', arcs, netArcs, arcs', netArcs', m', c')
    ensures FlowBuilt(e, s, t, nodes, arcs, netArcs, nodeMap, c, nodes', arcs', netArcs', m', c')
  {
  }

  /** One iteration of the arc-building loop for the element `e`. A succession with an empty
      end list throws; otherwise only a succession or transition usage with both ends set does
      anything: it creates `done` if needed, looks both
      ends up ("Source or target node not found"), names a new arc, takes the guard from a
      transition usage leaving a DecisionNode (a succession leaving one fails the cast to
      `TransitionUsage`), and joins the ends directly or through an interposed node. Its outcome
      on the registry view is exactly `ArcStep`. */
  method ArcsForFlow(e: Element, h: Heap, net: PetriNet, ids: IdGenerator, nodeMap: map<string, NodeId>)
    returns (r: Result<map<string, NodeId>, TransformError>)
    requires Building(h, net, ids, nodeMap)
    modifies h, net, ids
    ensures ids.Valid()
    ensures var step := ArcStep(Tags(old(h.nodes), nodeMap), e);
            && (r.Failure? <==> step.Failure?)
            && (r.Failure? ==> r.error == step.error)
            && (r.Success? ==> Building(h, net, ids, r.value) && Tags(h.nodes, r.value) == step.value)
    ensures r.Success? ==> NodesGrown(old(h.nodes), h.nodes) && net.name == old(net.name)
    ensures r.Success? && FlowEnds(e).None? ==>
              h.nodes == old(h.nodes) && h.arcs == old(h.arcs) && net.arcs == old(net.arcs) &&
              r.value == nodeMap && ids.idCounter == old(ids.idCounter)
    ensures r.Success? && FlowEnds(e).Some? ==>
              !(FlowEnds(e).value.0.isDecisionNode && e.kind.SuccessionAsUsage?)
    ensures r.Success? ==>
              && MapInRange(old(h.nodes), nodeMap)
              && BuildStep(SketchOf(old(h.nodes), old(h.arcs), old(net.arcs), nodeMap, old(ids.idCounter)), e) ==
                 SketchOf(h.nodes, h.arcs, net.arcs, r.value, ids.idCounter)
    ensures r.Success? && FlowEnds(e).Some? ==>
              FlowBuilt(e, FlowEnds(e).value.0, FlowEnds(e).value.1,
                        old(h.nodes), old(h.arcs), old(net.arcs), nodeMap, old(ids.idCounter),
                        h.nodes, h.arcs, net.arcs, r.value, ids.idCounter)
  {
    if MissingEnd(e) {
      return Failure(MissingFlowEnd);
    }
    if FlowEnds(e).None? {
      return Success(nodeMap);
    }
    var (s, t) := FlowEnds(e).value;
    r := ArcsForEnds(e, s, t, h, net, ids, nodeMap);
  }

  /** The iteration for a flow whose ends `s` and `t` are both set: creating `done` if needed,
      then the lookup, the cast and the arcs. */
  method ArcsForEnds(e: Element, s: Endpoint, t: Endpoint, h: Heap, net: PetriNet, ids: IdGenerator,
                     nodeMap: map<string, NodeId>)
    returns (r: Result<map<string, NodeId>, TransformError>)
    requires Building(h, net, ids, nodeMap) && FlowEnds(e) == Some((s, t))
    modifies h, net, ids
    ensures ids.Valid()
    ensures var step := ArcStep(Tags(old(h.nodes), nodeMap), e);
            && (r.Failure? <==> step.Failure?)
            && (r.Failure? ==> r.error == step.error)
            && (r.Success? ==> Building(h, net, ids, r.value) && Tags(h.nodes, r.value) == step.value)
    ensures r.Success? ==> NodesGrown(old(h.nodes), h.nodes) && net.name == old(net.name)
    ensures r.Success? ==> !(s.isDecisionNode && e.kind.SuccessionAsUsage?)
    ensures r.Success? ==>
              && MapInRange(old(h.nodes), nodeMap)
              && BuildStep(SketchOf(old(h.nodes), old(h.arcs), old(net.arcs), nodeMap, old(ids.idCounter)), e) ==
                 SketchOf(h.nodes, h.arcs, net.arcs, r.value, ids.idCounter)
    ensures r.Success? ==>
              FlowBuilt(e, s, t, old(h.nodes), old(h.arcs), old(net.arcs), nodeMap, old(ids.idCounter),
                        h.nodes, h.arcs, net.arcs, r.value, ids.idCounter)
  {
    ghost var nodes0 := h.nodes;
    ghost var arcs0, netArcs0, c0 := h.arcs, net.arcs, ids.idCounter;
    var m := AddDoneIfMissing(h, net, ids, nodeMap, t);
    ghost var nodes1 := h.nodes;
    ArcStepUnfold(Tags(nodes0, nodeMap), e, s, t);
    r := ArcsFromRegistered(e, s, t, h, net, ids, m);
    if r.Success? {
      NodesGrownTransitive(nodes0, nodes1, h.nodes);
      FlowBuiltFromParts(e, s, t, nodes0, arcs0, netArcs0, nodeMap, c0, nodes1, m,
                         h.nodes, h.arcs, net.arcs, r.value, ids.idCounter);
      FlowSketchFromParts(e, s, t, nodes0, arcs0, netArcs0, nodeMap, c0, nodes1, m,
                          h.nodes, h.arcs, net.arcs, r.value, ids.idCounter);
    }
  }

  /** The arc-building loop over all elements, in order. Its outcome on the registry view is
      `ArcFold`: it fails exactly when the reference loop fails, with the same error, and
      otherwise leaves the registry the reference loop computes, with the arena well formed and
      every net arc joining two net nodes of different kinds. */
  method BuildArcs(elements: seq<Element>, h: Heap, net: PetriNet, ids: IdGenerator, nodeMap: map<string, NodeId>)
    returns (r: Result<map<string, NodeId>, TransformError>)
    requires Building(h, net, ids, nodeMap)
    modifies h, net, ids
    ensures ids.Valid()
    ensures var fold := ArcFold(Tags(old(h.nodes), nodeMap), elements);
            && (r.Failure? <==> fold.Failure?)
            && (r.Failure? ==> r.error == fold.error)
            && (r.Success? ==> Building(h, net, ids, r.value) && Tags(h.nodes, r.value) == fold.value)
    ensures r.Success? ==> NodesGrown(old(h.nodes), h.nodes) && net.name == old(net.name)
    ensures r.Success? ==>
              && MapInRange(h.nodes, r.value)
              && SketchOf(h.nodes, h.arcs, net.arcs, r.value, ids.idCounter) ==
                   BuildFold(SketchOf(old(h.nodes), old(h.arcs), old(net.arcs), nodeMap, old(ids.idCounter)), elements)
  {
    ghost var reg0 := Tags(h.nodes, nodeMap);
    ghost var nodes0 := h.nodes;
    ghost var st0 := SketchOf(h.nodes, h.arcs, net.arcs, nodeMap, ids.idCounter);
    var m := nodeMap;
    for i := 0 to |elements|
      invariant Building(h, net, ids, m) && NodesGrown(nodes0, h.nodes) && net.name == old(net.name)
      invariant ArcFold(reg0, elements[..i]).Success? && Tags(h.nodes, m) == ArcFold(reg0, elements[..i]).value
      invariant SketchOf(h.nodes, h.arcs, net.arcs, m, ids.idCounter) == BuildFold(st0, elements[..i])
    {
      assert elements[..i + 1][..i] == elements[..i];
      ghost var nodes1 := h.nodes;
      var step := ArcsForFlow(elements[i], h, net, ids, m);
      if step.Failure? {
        ArcFoldFailurePersists(reg0, elements, i + 1);
        return Failure(step.error);
      }
      NodesGrownTransitive(nodes0, nodes1, h.nodes);
      m := step.value;
    }
    assert elements[..|elements|] == elements;
    r := Success(m);
  }
}
