/** The first three stages of `Transformer.transform`: graph building (one node per element),
    arc building (one or two arcs per flow, with an interposed node between two nodes of the
    same kind) and the `done` check. */
module TransformerBuild {
  import opened Wrappers
  import opened SysML
  import opened PetriNetModel
  import opened TransformSpec
  import opened ArcIds

  /** The node record an element becomes in the first loop. */
  function NodeOf(e: Element): Node
    requires NodeKindOf(e).Some?
  {
    Node(Some(e.name), [], [], NodeKindOf(e).value)
  }

  predicate MapInRange(nodes: seq<Node>, nodeMap: map<string, NodeId>) {
    forall k <- nodeMap :: nodeMap[k] < |nodes|
  }

  /** The registry view of `nodeMap`: whether each registered node is a Place. */
  function Tags(nodes: seq<Node>, nodeMap: map<string, NodeId>): (reg: Registry)
    requires MapInRange(nodes, nodeMap)
    ensures reg.Keys == nodeMap.Keys
  {
    map k | k in nodeMap :: nodes[nodeMap[k]].kind.Place?
  }

  lemma TagsOfGrown(before: seq<Node>, after: seq<Node>, nodeMap: map<string, NodeId>)
    requires NodesGrown(before, after) && MapInRange(before, nodeMap)
    ensures MapInRange(after, nodeMap) && Tags(after, nodeMap) == Tags(before, nodeMap)
  {
  }

  lemma NodeElementsStep(elements: seq<Element>, i: nat)
    requires i < |elements|
    ensures NodeElements(elements[..i + 1]) ==
              NodeElements(elements[..i]) + (if NodeKindOf(elements[i]).Some? then [elements[i]] else [])
  {
    assert elements[..i + 1][..i] == elements[..i];
  }

  /** A node element at `i` is the next node element after those of `elements[..i]`, which
      keep their places. */
  lemma NodeElementsKept(elements: seq<Element>, i: nat, j: nat)
    requires i < |elements| && NodeKindOf(elements[i]).Some? && j < |NodeElements(elements[..i])|
    ensures var p, q := NodeElements(elements[..i + 1]), NodeElements(elements[..i]);
            && |p| == |q| + 1 && p[|q|] == elements[i] && p[j] == q[j]
  {
    NodeElementsStep(elements, i);
  }

  /** Registering a node appended to the arena under a name (new or not) updates the registry
      view at that name only. */
  lemma TagsSnoc(nodes: seq<Node>, nodeMap: map<string, NodeId>, n: Node, k: string)
    requires MapInRange(nodes, nodeMap)
    ensures MapInRange(nodes + [n], nodeMap[k := |nodes|])
    ensures Tags(nodes + [n], nodeMap[k := |nodes|]) == Tags(nodes, nodeMap)[k := n.kind.Place?]
  {
    var m' := nodeMap[k := |nodes|];
    assert MapInRange(nodes + [n], m');
    var t, u := Tags(nodes + [n], m'), Tags(nodes, nodeMap)[k := n.kind.Place?];
    assert t.Keys == u.Keys;
    forall x | x in t ensures t[x] == u[x] {
      if x != k {
        assert m'[x] == nodeMap[x] < |nodes|;
      }
    }
  }

  /** What the first loop has built after the node elements `ne`: their nodes in order, both
      in the arena and in the net, each registered under its own name, so that the registry
      view is the one the first loop of the reference definition builds. */
  predicate NodesBuilt(ne: seq<Element>, nodes: seq<Node>, netNodes: seq<NodeId>, nodeMap: map<string, NodeId>) {
    && (forall j :: 0 <= j < |ne| ==> NodeKindOf(ne[j]).Some?)
    && DistinctNames(ne)
    && |nodes| == |ne| && netNodes == AllIds(|ne|)
    && (forall j :: 0 <= j < |ne| ==> nodes[j] == NodeOf(ne[j]))
    && MapInRange(nodes, nodeMap)
    && (forall k <- nodeMap :: nodes[nodeMap[k]].name == Some(k))
    && Tags(nodes, nodeMap) == InitialRegistry(ne)
  }

  /** `nodeMap` after the first loop: each node element's name, mapped to its node, which sits
      at the element's position among the node elements. */
  function InitialMap(ne: seq<Element>): (r: map<string, NodeId>)
    ensures r.Keys == Names(ne)
    ensures forall k <- r :: r[k] < |ne| && ne[r[k]].name == k
  {
    if |ne| == 0 then map[]
    else InitialMap(ne[..|ne| - 1])[ne[|ne| - 1].name := |ne| - 1]
  }

  /** The element-to-node correspondence of the first loop survives appending an element and
      its node. */
  lemma NodesOfSnoc(ne: seq<Element>, nodes: seq<Node>, e: Element)
    requires |nodes| == |ne| && forall j :: 0 <= j < |ne| ==> NodeKindOf(ne[j]).Some?
    requires forall j :: 0 <= j < |ne| ==> nodes[j] == NodeOf(ne[j])
    requires NodeKindOf(e).Some?
    ensures forall j :: 0 <= j < |ne| + 1 ==> NodeKindOf((ne + [e])[j]).Some?
    ensures forall j :: 0 <= j < |ne| + 1 ==> (nodes + [NodeOf(e)])[j] == NodeOf((ne + [e])[j])
  {
  }

  /** Registering a node named `k` keeps every registered node named after its key. */
  lemma NamedSnoc(nodes: seq<Node>, nodeMap: map<string, NodeId>, n: Node, k: string)
    requires MapInRange(nodes, nodeMap) && forall x <- nodeMap :: nodes[nodeMap[x]].name == Some(x)
    requires n.name == Some(k)
    ensures MapInRange(nodes + [n], nodeMap[k := |nodes|])
    ensures var m' := nodeMap[k := |nodes|]; forall x <- m' :: (nodes + [n])[m'[x]].name == Some(x)
  {
  }

  lemma NodesBuiltStep(ne: seq<Element>, nodes: seq<Node>, netNodes: seq<NodeId>, nodeMap: map<string, NodeId>, e: Element)
    requires NodesBuilt(ne, nodes, netNodes, nodeMap)
    requires NodeKindOf(e).Some? && e.name !in nodeMap
    ensures NodesBuilt(ne + [e], nodes + [NodeOf(e)], netNodes + [|nodes|], nodeMap[e.name := |nodes|])
  {
    NodesOfSnoc(ne, nodes, e);
    assert Names(ne) == nodeMap.Keys;
    DistinctNamesSnoc(ne, e);
    assert netNodes + [|nodes|] == AllIds(|ne| + 1);
    NamedSnoc(nodes, nodeMap, NodeOf(e), e.name);
    TagsSnoc(nodes, nodeMap, NodeOf(e), e.name);
    InitialRegistrySnoc(ne, e);
  }

  /** With distinct names, the registry the first loop builds is `InitialMap`. */
  lemma NodesBuiltMap(ne: seq<Element>, nodes: seq<Node>, netNodes: seq<NodeId>, nodeMap: map<string, NodeId>)
    requires NodesBuilt(ne, nodes, netNodes, nodeMap)
    ensures nodeMap == InitialMap(ne)
  {
    assert nodeMap.Keys == Tags(nodes, nodeMap).Keys == InitialRegistry(ne).Keys;
    SameIndexMaps(ne, nodes, nodeMap, InitialMap(ne));
  }

  /** Two registries over the same names, each mapping a name to an element of that name, agree
      when the names are distinct. */
  lemma SameIndexMaps(ne: seq<Element>, nodes: seq<Node>, nodeMap: map<string, NodeId>, im: map<string, NodeId>)
    requires DistinctNames(ne) && |nodes| == |ne|
    requires forall j :: 0 <= j < |ne| ==> nodes[j].name == Some(ne[j].name)
    requires MapInRange(nodes, nodeMap) && forall k <- nodeMap :: nodes[nodeMap[k]].name == Some(k)
    requires im.Keys == nodeMap.Keys && forall k <- im :: im[k] < |ne| && ne[im[k]].name == k
    ensures nodeMap == im
  {
    forall k | k in nodeMap ensures nodeMap[k] == im[k] {
      var i, j := nodeMap[k], im[k];
      assert nodes[i].name == Some(ne[i].name);
      assert ne[i].name == ne[j].name;
    }
  }

  /** A registered name is the name of one of the node elements. */
  lemma RegisteredIndex(ne: seq<Element>, nodeMap: map<string, NodeId>, x: string) returns (j: nat)
    requires x in Names(ne)
    ensures j < |ne| && ne[j].name == x
  {
    NamesMember(ne, x);
    j :| 0 <= j < |ne| && ne[j].name == x;
  }

  /** Two node elements of a prefix of the elements that share a name make the node
      elements' names collide. */
  lemma PrefixCollision(elements: seq<Element>, k: nat, a: nat, b: nat)
    requires k <= |elements|
    requires a < b < |NodeElements(elements[..k])|
    requires NodeElements(elements[..k])[a].name == NodeElements(elements[..k])[b].name
    ensures !DistinctNames(NodeElements(elements))
  {
    NodeElementsPrefix(elements, k);
    SharedNameInPrefix(NodeElements(elements[..k]), NodeElements(elements), a, b);
  }

  /** An element whose name is already registered makes the node elements' names collide. */
  lemma DuplicateFound(elements: seq<Element>, i: nat, ne: seq<Element>, j: nat)
    requires i < |elements| && ne == NodeElements(elements[..i])
    requires NodeKindOf(elements[i]).Some?
    requires j < |ne| && ne[j].name == elements[i].name
    ensures !DistinctNames(NodeElements(elements))
  {
    NodeElementsKept(elements, i, j);
    PrefixCollision(elements, i + 1, j, |ne|);
  }

  /** Allocates the node an element becomes and sets its name, flags or marking. */
  method NewElementNode(h: Heap, e: Element) returns (n: NodeId)
    requires NodeKindOf(e).Some?
    modifies h
    ensures n == |old(h.nodes)| && h.nodes == old(h.nodes) + [NodeOf(e)] && h.arcs == old(h.arcs)
  {
    if e.kind.ForkNode? || e.kind.MergeNode? || e.kind.JoinNode? || e.kind.DecisionNode? {
      n := h.NewTransition();
      if e.kind.MergeNode? {
        h.SetIsMerge(n, true);
      } else if e.kind.DecisionNode? {
        h.SetIsDecision(n, true);
      }
      h.SetNodeName(n, Some(e.name));
    } else {
      n := h.NewPlace();
      h.SetNodeName(n, Some(e.name));
      if e.name == "start" {
        h.SetInitialMarking(n, 1);
      } else {
        h.SetInitialMarking(n, 0);
      }
    }
  }

  /** The first loop of `transform`: every Fork, Join, Merge and Decision element becomes a
      Transition with `isMerge` set only for Merge and `isDecision` only for Decision, every
      other action becomes a Place marked 1 exactly when it is called `start`; nodes are
      registered by name and appended in element order. A name met twice ends the loop with
      "Duplicate node name found!". */
  method BuildNodes(elements: seq<Element>, h: Heap, net: PetriNet) returns (r: Result<map<string, NodeId>, TransformError>)
    requires h.nodes == [] && h.arcs == [] && net.nodes == [] && net.arcs == []
    modifies h, net
    ensures net.name == old(net.name)
    ensures r.Failure? <==> !DistinctNames(NodeElements(elements))
    ensures r.Failure? ==> r.error == DuplicateNodeName
    ensures r.Success? ==> h.arcs == [] && net.arcs == [] && NodesBuilt(NodeElements(elements), h.nodes, net.nodes, r.value)
  {
    var nodeMap: map<string, NodeId> := map[];
    for i := 0 to |elements|
      invariant h.arcs == [] && net.arcs == [] && net.name == old(net.name)
      invariant NodesBuilt(NodeElements(elements[..i]), h.nodes, net.nodes, nodeMap)
    {
      var e := elements[i];
      ghost var ne := NodeElements(elements[..i]);
      NodeElementsStep(elements, i);
      if NodeKindOf(e).Some? {
        ghost var before, netBefore := h.nodes, net.nodes;
        var n := NewElementNode(h, e);
        if e.name in nodeMap {
          var j := RegisteredIndex(ne, nodeMap, e.name);
          DuplicateFound(elements, i, ne, j);
          return Failure(DuplicateNodeName);
        }
        NodesBuiltStep(ne, before, netBefore, nodeMap, e);
        nodeMap := nodeMap[e.name := n];
        net.AddNode(n);
        assert NodeElements(elements[..i + 1]) == ne + [e];
      } else {
        assert NodeElements(elements[..i + 1]) == ne;
      }
    }
    assert elements[..|elements|] == elements;
    r := Success(nodeMap);
  }
}
