/** The in-memory Petri net of the transformation: `Node`, `Place`, `Transition`, `Arc` and
    `PetriNet`. Java objects live in an arena, the class `Heap`: a node or an arc is
    identified by its index there, so two references are aliases exactly when their indices
    are equal. `PetriNet` holds the net's own node and arc lists as indices into the arena. */
module PetriNetModel {
  import opened Wrappers

  type NodeId = nat
  type ArcId = nat

  /** The two subclasses of the abstract `Node`, with their own fields. */
  datatype NodeKind = Place(initialMarking: int) | Transition(isMerge: bool, isDecision: bool)

  /** A node: its name (None while unset) and its live outgoing and incoming arc lists. */
  datatype Node = Node(name: Option<string>, outgoing: seq<ArcId>, incoming: seq<ArcId>, kind: NodeKind)

  /** An arc: name, weight, optional guard label, and its (nullable) endpoints. */
  datatype Arc = Arc(name: Option<string>, weight: int, guard: Option<string>,
                     source: Option<NodeId>, target: Option<NodeId>)

  /** A possibly null name as Java string concatenation writes it. */
  function NameText(name: Option<string>): (s: string)
    ensures name.Some? ==> s == name.value
    ensures name.None? ==> s == "null"
  {
    if name.Some? then name.value else "null"
  }

  /** `new Place()`: no name, empty lists, marking 0 (the default of an `int` field). */
  const FreshPlace := Node(None, [], [], Place(0))
  /** `new Transition()`: no name, empty lists, both flags false. */
  const FreshTransition := Node(None, [], [], Transition(false, false))
  /** `new Arc()`: weight 1, everything else unset. */
  const FreshArc := Arc(None, 1, None, None, None)

  /** One endpoint is a Place and the other a Transition. */
  predicate Alternates(s: NodeKind, t: NodeKind) {
    s.Place? != t.Place?
  }

  /** `n.getOutgoingArcs().add(a)`. */
  function AppendOutgoing(nodes: seq<Node>, n: NodeId, a: ArcId): (r: seq<Node>)
    requires n < |nodes|
    ensures |r| == |nodes|
    ensures r[n].outgoing == nodes[n].outgoing + [a]
    ensures r[n].incoming == nodes[n].incoming && r[n].name == nodes[n].name && r[n].kind == nodes[n].kind
    ensures forall m :: 0 <= m < |nodes| && m != n ==> r[m] == nodes[m]
  {
    nodes[n := nodes[n].(outgoing := nodes[n].outgoing + [a])]
  }

  /** `n.getIncomingArcs().add(a)`. */
  function AppendIncoming(nodes: seq<Node>, n: NodeId, a: ArcId): (r: seq<Node>)
    requires n < |nodes|
    ensures |r| == |nodes|
    ensures r[n].incoming == nodes[n].incoming + [a]
    ensures r[n].outgoing == nodes[n].outgoing && r[n].name == nodes[n].name && r[n].kind == nodes[n].kind
    ensures forall m :: 0 <= m < |nodes| && m != n ==> r[m] == nodes[m]
  {
    nodes[n := nodes[n].(incoming := nodes[n].incoming + [a])]
  }

  /** `a.setSource(s); a.setTarget(t)` on the node lists. */
  function LinkNodes(nodes: seq<Node>, a: ArcId, s: NodeId, t: NodeId): (r: seq<Node>)
    requires s < |nodes| && t < |nodes|
    ensures |r| == |nodes| && NodesGrown(nodes, r)
    ensures r[s].outgoing == nodes[s].outgoing + [a] && r[t].incoming == nodes[t].incoming + [a]
    ensures s != t ==> r[s].incoming == nodes[s].incoming && r[t].outgoing == nodes[t].outgoing
    ensures forall n :: 0 <= n < |nodes| && n != s && n != t ==> r[n] == nodes[n]
  {
    AppendIncoming(AppendOutgoing(nodes, s, a), t, a)
  }

  /** The nodes of `before` are still there in `after`, with the same name and kind, and with
      their arc lists only extended at the end. */
  predicate NodesGrown(before: seq<Node>, after: seq<Node>) {
    && |before| <= |after|
    && forall n :: 0 <= n < |before| ==>
         && after[n].name == before[n].name && after[n].kind == before[n].kind
         && before[n].outgoing <= after[n].outgoing && before[n].incoming <= after[n].incoming
  }

  lemma NodesGrownTransitive(a: seq<Node>, b: seq<Node>, c: seq<Node>)
    requires NodesGrown(a, b) && NodesGrown(b, c)
    ensures NodesGrown(a, c)
  {
  }

  /** Every index an arc or a list holds points into the arena. */
  predicate ArcInRange(nodes: seq<Node>, a: Arc) {
    (a.source.Some? ==> a.source.value < |nodes|) && (a.target.Some? ==> a.target.value < |nodes|)
  }

  /** The arc at `i` is listed by its endpoints, and alternates once both are set. */
  predicate ArcOk(nodes: seq<Node>, arcs: seq<Arc>, i: ArcId)
    requires i < |arcs|
  {
    var a := arcs[i];
    && ArcInRange(nodes, a)
    && (a.source.Some? ==> i in nodes[a.source.value].outgoing)
    && (a.target.Some? ==> i in nodes[a.target.value].incoming)
    && (a.source.Some? && a.target.Some? ==> Alternates(nodes[a.source.value].kind, nodes[a.target.value].kind))
  }

  /** The node at `n` lists only arcs that name it as source (outgoing) or target (incoming)
      and whose other endpoint is set. */
  predicate NodeOk(nodes: seq<Node>, arcs: seq<Arc>, n: NodeId)
    requires n < |nodes|
  {
    && (forall a <- nodes[n].outgoing :: a < |arcs| && arcs[a].source == Some(n) && arcs[a].target.Some?)
    && (forall a <- nodes[n].incoming :: a < |arcs| && arcs[a].target == Some(n) && arcs[a].source.Some?)
  }

  /** The standing invariant of the arena between two steps of the transformation: arcs and
      node lists agree, and every arc whose endpoints are set joins a Place and a Transition. */
  predicate WellFormed(nodes: seq<Node>, arcs: seq<Arc>) {
    && (forall i :: 0 <= i < |arcs| ==> ArcOk(nodes, arcs, i))
    && (forall n :: 0 <= n < |nodes| ==> NodeOk(nodes, arcs, n))
  }

  /** The ids `lo .. hi - 1` in order: the objects allocated between two points of a run. */
  function Range(lo: nat, hi: nat): (r: seq<nat>)
    requires lo <= hi
    ensures |r| == hi - lo && forall j :: 0 <= j < |r| ==> r[j] == lo + j
  {
    seq(hi - lo, j => lo + j)
  }

  /** The node ids `0 .. n - 1` in order: the net's node list when it holds every node of the
      arena in allocation order. */
  function AllIds(n: nat): (r: seq<NodeId>)
    ensures |r| == n && forall j :: 0 <= j < n ==> r[j] == j
  {
    if n == 0 then [] else AllIds(n - 1) + [n - 1]
  }

  /** The net's arcs join a Place and a Transition: the constraint the metamodel's validator
      checks on every arc. */
  predicate Bipartite(nodes: seq<Node>, arcs: seq<Arc>, netArcs: seq<ArcId>) {
    forall i :: 0 <= i < |netArcs| ==>
      && netArcs[i] < |arcs|
      && arcs[netArcs[i]].source.Some? && arcs[netArcs[i]].target.Some?
      && arcs[netArcs[i]].source.value < |nodes| && arcs[netArcs[i]].target.value < |nodes|
      && Alternates(nodes[arcs[netArcs[i]].source.value].kind, nodes[arcs[netArcs[i]].target.value].kind)
  }

  /** Every endpoint of a net arc is one of the net's nodes. */
  predicate Closed(arcs: seq<Arc>, netNodes: seq<NodeId>, netArcs: seq<ArcId>) {
    forall i :: 0 <= i < |netArcs| ==>
      && netArcs[i] < |arcs|
      && arcs[netArcs[i]].source.Some? && arcs[netArcs[i]].source.value in netNodes
      && arcs[netArcs[i]].target.Some? && arcs[netArcs[i]].target.value in netNodes
  }

  /** In a well-formed arena, a net whose arcs all have both endpoints set is bipartite. */
  lemma WellFormedBipartite(nodes: seq<Node>, arcs: seq<Arc>, netArcs: seq<ArcId>)
    requires WellFormed(nodes, arcs)
    requires forall i :: 0 <= i < |netArcs| ==>
               netArcs[i] < |arcs| && arcs[netArcs[i]].source.Some? && arcs[netArcs[i]].target.Some?
    ensures Bipartite(nodes, arcs, netArcs)
  {
    forall i | 0 <= i < |netArcs|
      ensures ArcOk(nodes, arcs, netArcs[i])
    {
    }
  }

  /** Allocating a node keeps the arena well-formed. */
  lemma AllocNodePreservesWellFormed(nodes: seq<Node>, arcs: seq<Arc>, node: Node)
    requires WellFormed(nodes, arcs)
    requires node.outgoing == [] && node.incoming == []
    ensures WellFormed(nodes + [node], arcs)
  {
    var nodes' := nodes + [node];
    forall i | 0 <= i < |arcs| ensures ArcOk(nodes', arcs, i) {
      assert ArcOk(nodes, arcs, i);
    }
    forall n | 0 <= n < |nodes'| ensures NodeOk(nodes', arcs, n) {
      if n < |nodes| { assert NodeOk(nodes, arcs, n); }
    }
  }

  /** Allocating an arc with no endpoints keeps the arena well-formed. */
  lemma AllocArcPreservesWellFormed(nodes: seq<Node>, arcs: seq<Arc>, arc: Arc)
    requires WellFormed(nodes, arcs)
    requires arc.source.None? && arc.target.None?
    ensures WellFormed(nodes, arcs + [arc])
  {
    var arcs' := arcs + [arc];
    forall i | 0 <= i < |arcs'| ensures ArcOk(nodes, arcs', i) {
      if i < |arcs| { assert ArcOk(nodes, arcs, i); }
    }
    forall n | 0 <= n < |nodes| ensures NodeOk(nodes, arcs', n) {
      assert NodeOk(nodes, arcs, n);
    }
  }

  /** A setter that leaves the lists and the Place/Transition variant of a node alone keeps
      the arena well-formed. */
  lemma UpdateNodePreservesWellFormed(nodes: seq<Node>, arcs: seq<Arc>, n: NodeId, node: Node)
    requires WellFormed(nodes, arcs)
    requires n < |nodes|
    requires node.outgoing == nodes[n].outgoing && node.incoming == nodes[n].incoming
    requires node.kind.Place? == nodes[n].kind.Place?
    ensures WellFormed(nodes[n := node], arcs)
  {
    var nodes' := nodes[n := node];
    forall i | 0 <= i < |arcs| ensures ArcOk(nodes', arcs, i) {
      assert ArcOk(nodes, arcs, i);
    }
    forall m | 0 <= m < |nodes'| ensures NodeOk(nodes', arcs, m) {
      assert NodeOk(nodes, arcs, m);
    }
  }

  /** A setter that leaves the endpoints of an arc alone keeps the arena well-formed. */
  lemma UpdateArcPreservesWellFormed(nodes: seq<Node>, arcs: seq<Arc>, i: ArcId, arc: Arc)
    requires WellFormed(nodes, arcs)
    requires i < |arcs|
    requires arc.source == arcs[i].source && arc.target == arcs[i].target
    ensures WellFormed(nodes, arcs[i := arc])
  {
    var arcs' := arcs[i := arc];
    forall j | 0 <= j < |arcs'| ensures ArcOk(nodes, arcs', j) {
      assert ArcOk(nodes, arcs, j);
    }
    forall m | 0 <= m < |nodes| ensures NodeOk(nodes, arcs', m) {
      assert NodeOk(nodes, arcs, m);
    }
  }

  /** `a.setSource(s); a.setTarget(t)` on an arc with no endpoints yet, between a Place and a
      Transition, keeps the arena well-formed. */
  lemma {:induction false} LinkPreservesWellFormed(nodes: seq<Node>, arcs: seq<Arc>, a: ArcId, s: NodeId, t: NodeId)
    requires WellFormed(nodes, arcs)
    requires a < |arcs| && arcs[a].source.None? && arcs[a].target.None?
    requires s < |nodes| && t < |nodes| && Alternates(nodes[s].kind, nodes[t].kind)
    ensures WellFormed(LinkNodes(nodes, a, s, t), arcs[a := arcs[a].(source := Some(s), target := Some(t))])
  {
    var nodes' := LinkNodes(nodes, a, s, t);
    var arcs' := arcs[a := arcs[a].(source := Some(s), target := Some(t))];
    assert s != t;
    forall i | 0 <= i < |arcs'| ensures ArcOk(nodes', arcs', i) {
      if i != a {
        assert ArcOk(nodes, arcs, i);
        var x := arcs[i];
        if x.source.Some? {
          assert i in nodes[x.source.value].outgoing;
        }
        if x.target.Some? {
          assert i in nodes[x.target.value].incoming;
        }
      }
    }
    forall m | 0 <= m < |nodes'| ensures NodeOk(nodes', arcs', m) {
      assert NodeOk(nodes, arcs, m);
    }
  }

  /** `list.removeAll(r)`: the elements of `s` not in `r`, in their order. */
  function RemoveAll<T(!new)>(s: seq<T>, r: set<T>): (t: seq<T>)
    ensures |t| <= |s|
    ensures forall x :: x in t <==> x in s && x !in r
  {
    if |s| == 0 then []
    else RemoveAll(s[..|s| - 1], r) + (if s[|s| - 1] in r then [] else [s[|s| - 1]])
  }

  /** Removal distributes over concatenation, so the survivors keep their relative order. */
  lemma {:induction false} RemoveAllAppend<T(!new)>(a: seq<T>, b: seq<T>, r: set<T>)
    ensures RemoveAll(a + b, r) == RemoveAll(a, r) + RemoveAll(b, r)
    decreases |b|
  {
    if |b| == 0 {
      assert a + b == a;
    } else {
      var b' := b[..|b| - 1];
      assert (a + b)[..|a + b| - 1] == a + b';
      RemoveAllAppend(a, b', r);
    }
  }

  /** The arena: every Node and Arc object the transformation allocates, with the setters of
      `Node`, `Place`, `Transition` and `Arc` as in-place updates. */
  class Heap {
    var nodes: seq<Node>
    var arcs: seq<Arc>

    constructor()
      ensures nodes == [] && arcs == []
    {
      nodes, arcs := [], [];
    }

    method NewPlace() returns (n: NodeId)
      modifies this
      ensures n == |old(nodes)| && nodes == old(nodes) + [FreshPlace] && arcs == old(arcs)
      ensures WellFormed(old(nodes), old(arcs)) ==> WellFormed(nodes, arcs)
    {
      if WellFormed(nodes, arcs) {
        AllocNodePreservesWellFormed(nodes, arcs, FreshPlace);
      }
      n := |nodes|;
      nodes := nodes + [FreshPlace];
    }

    method NewTransition() returns (n: NodeId)
      modifies this
      ensures n == |old(nodes)| && nodes == old(nodes) + [FreshTransition] && arcs == old(arcs)
      ensures WellFormed(old(nodes), old(arcs)) ==> WellFormed(nodes, arcs)
    {
      if WellFormed(nodes, arcs) {
        AllocNodePreservesWellFormed(nodes, arcs, FreshTransition);
      }
      n := |nodes|;
      nodes := nodes + [FreshTransition];
    }

    method NewArc() returns (a: ArcId)
      modifies this
      ensures a == |old(arcs)| && arcs == old(arcs) + [FreshArc] && nodes == old(nodes)
      ensures WellFormed(old(nodes), old(arcs)) ==> WellFormed(nodes, arcs)
    {
      if WellFormed(nodes, arcs) {
        AllocArcPreservesWellFormed(nodes, arcs, FreshArc);
      }
      a := |arcs|;
      arcs := arcs + [FreshArc];
    }

    /** `Node.setName`. */
    method SetNodeName(n: NodeId, name: Option<string>)
      requires n < |nodes|
      modifies this
      ensures nodes == old(nodes)[n := old(nodes)[n].(name := name)] && arcs == old(arcs)
      ensures WellFormed(old(nodes), old(arcs)) ==> WellFormed(nodes, arcs)
    {
      if WellFormed(nodes, arcs) {
        UpdateNodePreservesWellFormed(nodes, arcs, n, nodes[n].(name := name));
      }
      nodes := nodes[n := nodes[n].(name := name)];
    }

    /** `Place.setInitialMarking`. */
    method SetInitialMarking(n: NodeId, marking: int)
      requires n < |nodes| && nodes[n].kind.Place?
      modifies this
      ensures nodes == old(nodes)[n := old(nodes)[n].(kind := Place(marking))] && arcs == old(arcs)
      ensures WellFormed(old(nodes), old(arcs)) ==> WellFormed(nodes, arcs)
    {
      if WellFormed(nodes, arcs) {
        UpdateNodePreservesWellFormed(nodes, arcs, n, nodes[n].(kind := Place(marking)));
      }
      nodes := nodes[n := nodes[n].(kind := Place(marking))];
    }

    /** `Transition.setIsMerge`: only `isMerge` changes. */
    method SetIsMerge(n: NodeId, b: bool)
      requires n < |nodes| && nodes[n].kind.Transition?
      modifies this
      ensures nodes == old(nodes)[n := old(nodes)[n].(kind := old(nodes)[n].kind.(isMerge := b))]
      ensures arcs == old(arcs)
      ensures WellFormed(old(nodes), old(arcs)) ==> WellFormed(nodes, arcs)
    {
      if WellFormed(nodes, arcs) {
        UpdateNodePreservesWellFormed(nodes, arcs, n, nodes[n].(kind := nodes[n].kind.(isMerge := b)));
      }
      nodes := nodes[n := nodes[n].(kind := nodes[n].kind.(isMerge := b))];
    }

    /** `Transition.setIsDecision`: only `isDecision` changes. */
    method SetIsDecision(n: NodeId, b: bool)
      requires n < |nodes| && nodes[n].kind.Transition?
      modifies this
      ensures nodes == old(nodes)[n := old(nodes)[n].(kind := old(nodes)[n].kind.(isDecision := b))]
      ensures arcs == old(arcs)
      ensures WellFormed(old(nodes), old(arcs)) ==> WellFormed(nodes, arcs)
    {
      if WellFormed(nodes, arcs) {
        UpdateNodePreservesWellFormed(nodes, arcs, n, nodes[n].(kind := nodes[n].kind.(isDecision := b)));
      }
      nodes := nodes[n := nodes[n].(kind := nodes[n].kind.(isDecision := b))];
    }

    /** `Arc.setName`. */
    method SetArcName(a: ArcId, name: Option<string>)
      requires a < |arcs|
      modifies this
      ensures arcs == old(arcs)[a := old(arcs)[a].(name := name)] && nodes == old(nodes)
      ensures WellFormed(old(nodes), old(arcs)) ==> WellFormed(nodes, arcs)
    {
      if WellFormed(nodes, arcs) {
        UpdateArcPreservesWellFormed(nodes, arcs, a, arcs[a].(name := name));
      }
      arcs := arcs[a := arcs[a].(name := name)];
    }

    /** `Arc.setWeight`. */
    method SetWeight(a: ArcId, weight: int)
      requires a < |arcs|
      modifies this
      ensures arcs == old(arcs)[a := old(arcs)[a].(weight := weight)] && nodes == old(nodes)
      ensures WellFormed(old(nodes), old(arcs)) ==> WellFormed(nodes, arcs)
    {
      if WellFormed(nodes, arcs) {
        UpdateArcPreservesWellFormed(nodes, arcs, a, arcs[a].(weight := weight));
      }
      arcs := arcs[a := arcs[a].(weight := weight)];
    }

    /** `Arc.setGuard`. */
    method SetGuard(a: ArcId, guard: Option<string>)
      requires a < |arcs|
      modifies this
      ensures arcs == old(arcs)[a := old(arcs)[a].(guard := guard)] && nodes == old(nodes)
      ensures WellFormed(old(nodes), old(arcs)) ==> WellFormed(nodes, arcs)
    {
      if WellFormed(nodes, arcs) {
        UpdateArcPreservesWellFormed(nodes, arcs, a, arcs[a].(guard := guard));
      }
      arcs := arcs[a := arcs[a].(guard := guard)];
    }

    /** `Arc.setSource`: sets the field and, for a non-null node, appends the arc to the end
        of that node's outgoing list. The previous source's list is not touched. */
    method SetSource(a: ArcId, n: Option<NodeId>)
      requires a < |arcs| && (n.Some? ==> n.value < |nodes|)
      modifies this
      ensures arcs == old(arcs)[a := old(arcs)[a].(source := n)]
      ensures nodes == if n.Some? then AppendOutgoing(old(nodes), n.value, a) else old(nodes)
    {
      arcs := arcs[a := arcs[a].(source := n)];
      if n.Some? {
        nodes := AppendOutgoing(nodes, n.value, a);
      }
    }

    /** `Arc.setTarget`: sets the field and, for a non-null node, appends the arc to the end
        of that node's incoming list. */
    method SetTarget(a: ArcId, n: Option<NodeId>)
      requires a < |arcs| && (n.Some? ==> n.value < |nodes|)
      modifies this
      ensures arcs == old(arcs)[a := old(arcs)[a].(target := n)]
      ensures nodes == if n.Some? then AppendIncoming(old(nodes), n.value, a) else old(nodes)
    {
      arcs := arcs[a := arcs[a].(target := n)];
      if n.Some? {
        nodes := AppendIncoming(nodes, n.value, a);
      }
    }
  }

  /** The pair of calls `a.setSource(s); a.setTarget(t)` on a new arc: both endpoints are set
      and the arc is appended to `s`'s outgoing and `t`'s incoming list. */
  method Connect(h: Heap, a: ArcId, s: NodeId, t: NodeId)
    requires a < |h.arcs| && s < |h.nodes| && t < |h.nodes|
    requires h.arcs[a].source.None? && h.arcs[a].target.None?
    modifies h
    ensures h.nodes == LinkNodes(old(h.nodes), a, s, t)
    ensures h.arcs == old(h.arcs)[a := old(h.arcs)[a].(source := Some(s), target := Some(t))]
    ensures WellFormed(old(h.nodes), old(h.arcs)) && Alternates(old(h.nodes)[s].kind, old(h.nodes)[t].kind)
            ==> WellFormed(h.nodes, h.arcs)
  {
    if WellFormed(h.nodes, h.arcs) && Alternates(h.nodes[s].kind, h.nodes[t].kind) {
      LinkPreservesWellFormed(h.nodes, h.arcs, a, s, t);
    }
    h.SetSource(a, Some(s));
    h.SetTarget(a, Some(t));
  }

  /** `PetriNet`: a name and the net's own node and arc lists. The Transformer edits the lists
      in place through `getNodes()`/`getArcs()`, which here means assigning the fields. */
  class PetriNet {
    var name: Option<string>
    var nodes: seq<NodeId>
    var arcs: seq<ArcId>

    constructor()
      ensures name == None && nodes == [] && arcs == []
    {
      name, nodes, arcs := None, [], [];
    }

    method SetName(name': Option<string>)
      modifies this
      ensures name == name' && nodes == old(nodes) && arcs == old(arcs)
    {
      name := name';
    }

    /** Appends without a membership or duplicate check. */
    method AddNode(n: NodeId)
      modifies this
      ensures nodes == old(nodes) + [n] && arcs == old(arcs) && name == old(name)
    {
      nodes := nodes + [n];
    }

    /** Appends without a membership or duplicate check. */
    method AddArc(a: ArcId)
      modifies this
      ensures arcs == old(arcs) + [a] && nodes == old(nodes) && name == old(name)
    {
      arcs := arcs + [a];
    }

    /** `getNodes().removeAll(r)` on the live list. */
    method RemoveNodes(r: set<NodeId>)
      modifies this
      ensures nodes == RemoveAll(old(nodes), r) && arcs == old(arcs) && name == old(name)
    {
      nodes := RemoveAll(nodes, r);
    }

    /** `getNodes().addAll(xs)` on the live list. */
    method AddNodes(xs: seq<NodeId>)
      modifies this
      ensures nodes == old(nodes) + xs && arcs == old(arcs) && name == old(name)
    {
      nodes := nodes + xs;
    }

    /** `getArcs().removeAll(r)` on the live list. */
    method RemoveArcs(r: set<ArcId>)
      modifies this
      ensures arcs == RemoveAll(old(arcs), r) && nodes == old(nodes) && name == old(name)
    {
      arcs := RemoveAll(arcs, r);
    }

    /** `getArcs().addAll(xs)` on the live list. */
    method AddArcs(xs: seq<ArcId>)
      modifies this
      ensures arcs == old(arcs) + xs && nodes == old(nodes) && name == old(name)
    {
      arcs := arcs + xs;
    }
  }
}
