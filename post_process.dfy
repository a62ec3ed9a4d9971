/** `Transformer.postProcessNode`: one pass over the net that splits every merge Transition
    (merge pass) or every decision Transition (decision pass) with more than one relevant arc.
    The splits only allocate; the net's arc and node lists are edited once, at the end. */
module PostProcess {
  import opened Wrappers
  import opened PetriNetModel
  import opened ArcIds
  import opened PostSplit
  import opened MergeSplit
  import opened DecisionSplit

  /** The net's arcs are in the arena, and so are their set ends. */
  predicate InArena(nodes: seq<Node>, arcs: seq<Arc>, netArcs: seq<ArcId>) {
    forall i :: 0 <= i < |netArcs| ==> netArcs[i] < |arcs| && ArcInRange(nodes, arcs[netArcs[i]])
  }

  /** What a pass needs of the net it starts from: a well-formed arena, and net arcs in it
      with both ends set. */
  predicate PassPre(nodes: seq<Node>, arcs: seq<Arc>, netArcs: seq<ArcId>) {
    && WellFormed(nodes, arcs) && InArena(nodes, arcs, netArcs)
    && forall i :: 0 <= i < |netArcs| ==> arcs[netArcs[i]].source.Some? && arcs[netArcs[i]].target.Some?
  }

  /** The relevant end of the arc is `x`, a Transition with the flag the pass looks for. */
  predicate RelevantTo(nodes: seq<Node>, arc: Arc, x: NodeId, processMerge: bool) {
    End(arc, processMerge) == Some(x) && x < |nodes| && Flagged(nodes[x].kind, processMerge)
  }

  lemma InArenaPrefix(nodes: seq<Node>, arcs: seq<Arc>, netArcs: seq<ArcId>, k: nat)
    requires InArena(nodes, arcs, netArcs) && k <= |netArcs|
    ensures InArena(nodes, arcs, netArcs[..k])
  {
    forall i | 0 <= i < k ensures netArcs[..k][i] < |arcs| && ArcInRange(nodes, arcs[netArcs[..k][i]]) {
      assert netArcs[..k][i] == netArcs[i];
    }
  }

  /** `nodeToRelevantArcs` after the grouping loop: every flagged Transition that is the
      relevant end of a net arc, mapped to those arcs in net order. */
  function Group(nodes: seq<Node>, arcs: seq<Arc>, netArcs: seq<ArcId>, processMerge: bool): map<NodeId, seq<ArcId>>
    requires InArena(nodes, arcs, netArcs)
  {
    if |netArcs| == 0 then map[]
    else
      InArenaPrefix(nodes, arcs, netArcs, |netArcs| - 1);
      var g := Group(nodes, arcs, netArcs[..|netArcs| - 1], processMerge);
      var a := netArcs[|netArcs| - 1];
      var e := End(arcs[a], processMerge);
      if e.Some? && Flagged(nodes[e.value].kind, processMerge) then g[e.value := (if e.value in g then g[e.value] else []) + [a]]
      else g
  }

  /** An arc is grouped under `x` exactly when it is a net arc whose relevant end is the
      flagged Transition `x`; every key is such a Transition and has an arc. */
  lemma {:induction false} GroupMembership(nodes: seq<Node>, arcs: seq<Arc>, netArcs: seq<ArcId>, processMerge: bool,
                                           x: NodeId, a: ArcId)
    requires InArena(nodes, arcs, netArcs)
    ensures var g := Group(nodes, arcs, netArcs, processMerge);
            x in g ==> x < |nodes| && Flagged(nodes[x].kind, processMerge) && |g[x]| > 0
    ensures var g := Group(nodes, arcs, netArcs, processMerge);
            (x in g && a in g[x]) <==> (a in netArcs && a < |arcs| && RelevantTo(nodes, arcs[a], x, processMerge))
    decreases |netArcs|
  {
    if |netArcs| > 0 {
      var init := netArcs[..|netArcs| - 1];
      var last := netArcs[|netArcs| - 1];
      assert netArcs == init + [last];
      InArenaPrefix(nodes, arcs, netArcs, |netArcs| - 1);
      GroupMembership(nodes, arcs, init, processMerge, x, a);
    }
  }

  /** The grouping loop over `originalArcs`, the copy of the net's arc list: `putIfAbsent`
      of an empty list, then `add`, for each arc whose relevant end is flagged. */
  method GroupRelevantArcs(h: Heap, originalArcs: seq<ArcId>, processMerge: bool) returns (g: map<NodeId, seq<ArcId>>)
    requires InArena(h.nodes, h.arcs, originalArcs)
    ensures g == Group(h.nodes, h.arcs, originalArcs, processMerge)
  {
    g := map[];
    for i := 0 to |originalArcs|
      invariant InArena(h.nodes, h.arcs, originalArcs[..i])
      invariant g == Group(h.nodes, h.arcs, originalArcs[..i], processMerge)
    {
      InArenaPrefix(h.nodes, h.arcs, originalArcs, i + 1);
      assert originalArcs[..i + 1][..i] == originalArcs[..i];
      var arc := h.arcs[originalArcs[i]];
      var e := End(arc, processMerge);
      if e.Some? && Flagged(h.nodes[e.value].kind, processMerge) {
        if e.value !in g {
          g := g[e.value := []];
        }
        g := g[e.value := g[e.value] + [originalArcs[i]]];
      }
    }
    assert originalArcs[..|originalArcs|] == originalArcs;
  }

  /** The Transitions a pass splits: those grouped with more than one relevant arc. */
  function SplitKeys(g: map<NodeId, seq<ArcId>>): set<NodeId> {
    set x | x in g && |g[x]| > 1
  }

  /** The Transitions split among the keys `ks` visited so far. */
  function SplitAmong(g: map<NodeId, seq<ArcId>>, ks: seq<NodeId>): set<NodeId> {
    set x | x in ks && x in g && |g[x]| > 1
  }

  /** The arc is collected for removal once the Transitions `split` are split: it is a net arc
      grouped under one of them, or an arc on the other side of one of them. */
  predicate Doomed(arcs0: seq<Arc>, netArcs0: seq<ArcId>, processMerge: bool, split: set<NodeId>, a: ArcId)
    requires a < |arcs0|
  {
    || (a in netArcs0 && End(arcs0[a], processMerge).Some? && End(arcs0[a], processMerge).value in split)
    || (End(arcs0[a], !processMerge).Some? && End(arcs0[a], !processMerge).value in split)
  }

  /** The contents of `arcsToRemove` at the end of a pass. */
  function RemovedArcs(arcs0: seq<Arc>, netArcs0: seq<ArcId>, processMerge: bool, split: set<NodeId>): set<ArcId> {
    set a | 0 <= a < |arcs0| && Doomed(arcs0, netArcs0, processMerge, split, a)
  }

  /** The arena during a pass that started from `nodes0` and `arcs0`: well formed, nothing
      allocated before changed but for appends to node lists, no Transition touched, and the
      new nodes and arcs as the splits make them. */
  predicate ArenaGrown(nodes0: seq<Node>, arcs0: seq<Arc>, processMerge: bool, nodes: seq<Node>, arcs: seq<Arc>) {
    && WellFormed(nodes, arcs) && NodesGrown(nodes0, nodes) && TransitionsKept(nodes0, nodes, |nodes0|)
    && |arcs0| <= |arcs| && arcs[..|arcs0|] == arcs0
    && NewNodesOk(nodes, |nodes0|, processMerge) && NewArcsOk(nodes, arcs, |arcs0|, |nodes0|, processMerge)
  }

  /** The state of a pass once the Transitions `split` are split: the arena, and the removal
      lists holding the doomed arcs and the split Transitions. */
  ghost predicate PassState(nodes0: seq<Node>, arcs0: seq<Arc>, netArcs0: seq<ArcId>, processMerge: bool, split: set<NodeId>,
                      nodes: seq<Node>, arcs: seq<Arc>, arcsToRemove: seq<ArcId>, nodesToRemove: seq<NodeId>)
  {
    && ArenaGrown(nodes0, arcs0, processMerge, nodes, arcs)
    && (forall a: ArcId :: a in arcsToRemove <==> a < |arcs0| && Doomed(arcs0, netArcs0, processMerge, split, a))
    && (forall x: NodeId :: x in nodesToRemove <==> x in split)
  }

  lemma NewArcOkGrown(nodes: seq<Node>, nodes': seq<Node>, arc: Arc, n0: nat, processMerge: bool)
    requires NewArcOk(nodes, arc, n0, processMerge) && NodesGrown(nodes, nodes')
    ensures NewArcOk(nodes', arc, n0, processMerge)
  {
  }

  /** A split extends the arena state. */
  lemma ArenaStep(nodes0: seq<Node>, arcs0: seq<Arc>, processMerge: bool, nodes1: seq<Node>, arcs1: seq<Arc>,
                  nodes: seq<Node>, arcs: seq<Arc>)
    requires ArenaGrown(nodes0, arcs0, processMerge, nodes1, arcs1)
    requires WellFormed(nodes, arcs) && NodesGrown(nodes1, nodes) && TransitionsKept(nodes1, nodes, |nodes1|)
    requires |arcs1| <= |arcs| && arcs[..|arcs1|] == arcs1
    requires NewNodesOk(nodes, |nodes1|, processMerge) && NewArcsOk(nodes, arcs, |arcs1|, |nodes0|, processMerge)
    ensures ArenaGrown(nodes0, arcs0, processMerge, nodes, arcs)
  {
    NodesGrownTransitive(nodes0, nodes1, nodes);
    assert arcs[..|arcs0|] == arcs[..|arcs1|][..|arcs0|];
    forall n | |nodes0| <= n < |nodes|
      ensures || (nodes[n].kind == Transition(processMerge, !processMerge) && |NormList(nodes[n], processMerge)| == 1)
              || (!processMerge && nodes[n].kind == Place(0))
    {
      if n < |nodes1| && nodes1[n].kind.Transition? {
        assert nodes[n] == nodes1[n];
      }
    }
    forall a | |arcs0| <= a < |arcs| ensures NewArcOk(nodes, arcs[a], |nodes0|, processMerge) {
      if a < |arcs1| {
        assert arcs[a] == arcs[..|arcs1|][a];
        NewArcOkGrown(nodes1, nodes, arcs1[a], |nodes0|, processMerge);
      }
    }
  }

  /** Splitting `x` adds its relevant arcs and the arcs on its other side to the doomed arcs. */
  lemma RemoveStep(nodes0: seq<Node>, arcs0: seq<Arc>, netArcs0: seq<ArcId>, processMerge: bool, split: set<NodeId>,
                   x: NodeId, arcsToRemove: seq<ArcId>, removed: seq<ArcId>)
    requires WellFormed(nodes0, arcs0) && InArena(nodes0, arcs0, netArcs0)
    requires x in Group(nodes0, arcs0, netArcs0, processMerge) && x < |nodes0|
    requires forall a: ArcId :: a in arcsToRemove <==> a < |arcs0| && Doomed(arcs0, netArcs0, processMerge, split, a)
    requires removed == Group(nodes0, arcs0, netArcs0, processMerge)[x] + NormList(nodes0[x], !processMerge)
    ensures forall a: ArcId :: a in arcsToRemove + removed <==> a < |arcs0| && Doomed(arcs0, netArcs0, processMerge, split + {x}, a)
  {
    var g := Group(nodes0, arcs0, netArcs0, processMerge);
    assert NodeOk(nodes0, arcs0, x);
    forall a: ArcId ensures a in arcsToRemove + removed <==> a < |arcs0| && Doomed(arcs0, netArcs0, processMerge, split + {x}, a) {
      GroupMembership(nodes0, arcs0, netArcs0, processMerge, x, a);
      if a < |arcs0| && End(arcs0[a], !processMerge) == Some(x) {
        assert ArcOk(nodes0, arcs0, a);
      }
    }
  }

  /** The relevant arcs of a grouped Transition, in the current arena: they have `x` as
      relevant end and their other end set; `x` is untouched so far. */
  lemma RelevantArcsReady(nodes0: seq<Node>, arcs0: seq<Arc>, netArcs0: seq<ArcId>, processMerge: bool,
                          nodes: seq<Node>, arcs: seq<Arc>, x: NodeId)
    requires PassPre(nodes0, arcs0, netArcs0) && ArenaGrown(nodes0, arcs0, processMerge, nodes, arcs)
    requires x in Group(nodes0, arcs0, netArcs0, processMerge)
    ensures x < |nodes0| && nodes0[x].kind.Transition? && nodes[x] == nodes0[x]
    ensures var relevant := Group(nodes0, arcs0, netArcs0, processMerge)[x];
            forall i :: 0 <= i < |relevant| ==>
              relevant[i] < |arcs| && End(arcs[relevant[i]], processMerge) == Some(x) && End(arcs[relevant[i]], !processMerge).Some?
  {
    var relevant := Group(nodes0, arcs0, netArcs0, processMerge)[x];
    GroupMembership(nodes0, arcs0, netArcs0, processMerge, x, 0);
    forall i | 0 <= i < |relevant|
      ensures relevant[i] < |arcs| && End(arcs[relevant[i]], processMerge) == Some(x) && End(arcs[relevant[i]], !processMerge).Some?
    {
      var a := relevant[i];
      GroupMembership(nodes0, arcs0, netArcs0, processMerge, x, a);
      var j :| 0 <= j < |netArcs0| && netArcs0[j] == a;
      assert arcs[a] == arcs[..|arcs0|][a] == arcs0[a];
    }
  }

  /** The copies a fan makes join a Place and a clone of this pass: they are new arcs as a
      pass makes them. */
  lemma FanArcsOk(nodes: seq<Node>, fars: seq<NodeId>, clones: seq<NodeId>, k: nat, n0: nat, processMerge: bool,
                  intoClones: bool)
    requires intoClones == !processMerge
    requires forall i :: 0 <= i < |fars| ==> fars[i] < |nodes| && nodes[fars[i]].kind.Place?
    requires forall i :: 0 <= i < |clones| ==>
               n0 <= clones[i] < |nodes| && nodes[clones[i]].kind == Transition(processMerge, !processMerge)
    ensures forall a :: 0 <= a < |fars| * |clones| ==>
              NewArcOk(nodes, FanArcs(fars, clones, k, intoClones)[a], n0, processMerge)
  {
    var r := FanArcs(fars, clones, k, intoClones);
    FanBetween(fars, clones, k, intoClones);
    forall a | 0 <= a < |r| ensures NewArcOk(nodes, r[a], n0, processMerge) {
      assert Between(r[a], fars, clones, intoClones);
      var f := if processMerge then r[a].target.value else r[a].source.value;
      var c := if processMerge then r[a].source.value else r[a].target.value;
      var i :| 0 <= i < |fars| && fars[i] == f;
      var j :| 0 <= j < |clones| && clones[j] == c;
    }
  }

  /** Appending two segments of new arcs. */
  lemma SegmentsOk(nodes: seq<Node>, arcs1: seq<Arc>, s1: seq<Arc>, s2: seq<Arc>, n0: nat, processMerge: bool)
    requires forall a :: 0 <= a < |s1| ==> NewArcOk(nodes, s1[a], n0, processMerge)
    requires forall a :: 0 <= a < |s2| ==> NewArcOk(nodes, s2[a], n0, processMerge)
    ensures NewArcsOk(nodes, arcs1 + s1 + s2, |arcs1|, n0, processMerge) && (arcs1 + s1 + s2)[..|arcs1|] == arcs1
  {
    var arcs := arcs1 + s1 + s2;
    assert arcs[..|arcs1|] == arcs1;
    forall a | |arcs1| <= a < |arcs| ensures NewArcOk(nodes, arcs[a], n0, processMerge) {
      if a < |arcs1| + |s1| {
        assert arcs[a] == s1[a - |arcs1|];
      } else {
        assert arcs[a] == s2[a - |arcs1| - |s1|];
      }
    }
  }

  /** The arcs whose `near` end is the Transition `x` have a Place at their `far` end, and
      that Place is still one in a grown arena. */
  lemma FarEndsArePlaces(nodes1: seq<Node>, arcs1: seq<Arc>, nodes: seq<Node>, x: NodeId, xs: seq<ArcId>,
                         near: bool, far: bool, ps: seq<NodeId>)
    requires WellFormed(nodes1, arcs1) && NodesGrown(nodes1, nodes) && x < |nodes1| && nodes1[x].kind.Transition?
    requires far == !near
    requires forall i :: 0 <= i < |xs| ==>
               xs[i] < |arcs1| && End(arcs1[xs[i]], near) == Some(x) && End(arcs1[xs[i]], far).Some?
    requires ps == Ends(arcs1, xs, far)
    ensures forall i :: 0 <= i < |ps| ==> ps[i] < |nodes| && nodes[ps[i]].kind.Place?
  {
    forall i | 0 <= i < |ps| ensures ps[i] < |nodes| && nodes[ps[i]].kind.Place? {
      assert ArcOk(nodes1, arcs1, xs[i]);
      assert nodes[ps[i]].kind == nodes1[ps[i]].kind;
    }
  }

  /** The arcs listed on the `outgoing` (or else incoming) side of the Transition `x` have a
      Place at their far end, and that Place is still one in a grown arena. */
  lemma ListedEndsArePlaces(nodes1: seq<Node>, arcs1: seq<Arc>, nodes: seq<Node>, x: NodeId, xs: seq<ArcId>,
                            outgoing: bool, ps: seq<NodeId>)
    requires WellFormed(nodes1, arcs1) && NodesGrown(nodes1, nodes) && x < |nodes1| && nodes1[x].kind.Transition?
    requires xs == if outgoing then nodes1[x].outgoing else nodes1[x].incoming
    requires forall i :: 0 <= i < |xs| ==> xs[i] < |arcs1| && End(arcs1[xs[i]], outgoing).Some?
    requires ps == Ends(arcs1, xs, outgoing)
    ensures forall i :: 0 <= i < |ps| ==> ps[i] < |nodes| && nodes[ps[i]].kind.Place?
  {
    assert NodeOk(nodes1, arcs1, x);
    forall i | 0 <= i < |xs| ensures End(arcs1[xs[i]], !outgoing) == Some(x) {
      assert xs[i] in xs;
    }
    FarEndsArePlaces(nodes1, arcs1, nodes, x, xs, !outgoing, outgoing, ps);
  }

  /** The arcs of a merge split into its clones come from Places. */
  lemma MergeInArcsOk(n1: nat, srcs: seq<NodeId>, nodes: seq<Node>, n0: nat, k1: nat, name: Option<string>, c0: nat, a1: nat)
    requires n0 <= n1
    requires forall i :: 0 <= i < |srcs| ==> srcs[i] < |nodes| && nodes[srcs[i]].kind.Place?
    requires MergeClones(nodes, n1, |srcs|, name, c0, a1)
    ensures var ins := MergeInArcs(srcs, n1, k1);
            forall a :: 0 <= a < |ins| ==> NewArcOk(nodes, ins[a], n0, true)
  {
    var ins := MergeInArcs(srcs, n1, k1);
    forall a | 0 <= a < |ins| ensures NewArcOk(nodes, ins[a], n0, true) {
      assert nodes[n1 + a].kind == Transition(true, false);
    }
  }

  /** A merge split allocates new nodes and arcs as a merge pass makes them. */
  lemma MergeSegmentOk(n1: nat, arcs1: seq<Arc>, srcs: seq<NodeId>, fars: seq<NodeId>, clones: seq<NodeId>,
                       nodes: seq<Node>, arcs: seq<Arc>, n0: nat, k1: nat, k2: nat, name: Option<string>, c0: nat, a1: nat,
                       count: nat)
    requires n0 <= n1
    requires forall i :: 0 <= i < |srcs| ==> srcs[i] < |nodes| && nodes[srcs[i]].kind.Place?
    requires forall i :: 0 <= i < |fars| ==> fars[i] < |nodes| && nodes[fars[i]].kind.Place?
    requires |srcs| == count && MergeClones(nodes, n1, count, name, c0, a1)
    requires forall i :: 0 <= i < |clones| ==> n1 <= clones[i] < |nodes|
    requires arcs == arcs1 + MergeInArcs(srcs, n1, k1) + FanArcs(fars, clones, k2, false)
    ensures NewNodesOk(nodes, n1, true) && NewArcsOk(nodes, arcs, |arcs1|, n0, true) && arcs[..|arcs1|] == arcs1
  {
    forall i | 0 <= i < |clones| ensures nodes[clones[i]].kind == Transition(true, false) {
    }
    FanArcsOk(nodes, fars, clones, k2, n0, true, false);
    MergeInArcsOk(n1, srcs, nodes, n0, k1, name, c0, a1);
    SegmentsOk(nodes, arcs1, MergeInArcs(srcs, n1, k1), FanArcs(fars, clones, k2, false), n0, true);
  }

  /** The guard arc and the branch arc of the `j`-th outgoing arc of a decision split join its
      clone with its guard Place and with its original target. */
  lemma DecisionArcOk(n1: nat, tgts: seq<NodeId>, guards: seq<Option<string>>, nodes: seq<Node>, n0: nat, k1: nat,
                      name: Option<string>, c0: nat, a1: nat, j: nat)
    requires n0 <= n1 && |tgts| == |guards|
    requires forall i :: 0 <= i < |tgts| ==> tgts[i] < |nodes| && nodes[tgts[i]].kind.Place?
    requires DecisionClones(nodes, n1, |tgts|, guards, name, c0, a1)
    requires j < |tgts|
    ensures NewArcOk(nodes, DecisionArcs(tgts, guards, n1, k1)[2 * j], n0, false)
    ensures NewArcOk(nodes, DecisionArcs(tgts, guards, n1, k1)[2 * j + 1], n0, false)
  {
    DecisionArcAt(tgts, guards, n1, k1, j);
    assert (n1 + 2 * j - n1) % 2 == 0 && (n1 + 2 * j + 1 - n1) % 2 == 1;
    assert nodes[n1 + 2 * j].kind == Transition(false, true);
  }

  /** The new nodes of a decision split: clones with one outgoing arc, and guard Places. */
  lemma DecisionNodesOk(nodes: seq<Node>, n1: nat, count: nat, guards: seq<Option<string>>, name: Option<string>,
                        c0: nat, a1: nat)
    requires DecisionClones(nodes, n1, count, guards, name, c0, a1)
    ensures NewNodesOk(nodes, n1, false)
  {
  }

  /** A decision split allocates new nodes and arcs as a decision pass makes them. */
  lemma DecisionSegmentOk(n1: nat, arcs1: seq<Arc>, tgts: seq<NodeId>, guards: seq<Option<string>>, fars: seq<NodeId>,
                          clones: seq<NodeId>, nodes: seq<Node>, arcs: seq<Arc>, n0: nat, k1: nat, k2: nat,
                          name: Option<string>, c0: nat, a1: nat)
    requires n0 <= n1 && |tgts| == |guards|
    requires forall i :: 0 <= i < |tgts| ==> tgts[i] < |nodes| && nodes[tgts[i]].kind.Place?
    requires forall i :: 0 <= i < |fars| ==> fars[i] < |nodes| && nodes[fars[i]].kind.Place?
    requires DecisionClones(nodes, n1, |tgts|, guards, name, c0, a1)
    requires forall i :: 0 <= i < |clones| ==> n1 <= clones[i] < |nodes| && nodes[clones[i]].kind == Transition(false, true)
    requires arcs == arcs1 + DecisionArcs(tgts, guards, n1, k1) + FanArcs(fars, clones, k2, true)
    ensures NewNodesOk(nodes, n1, false) && NewArcsOk(nodes, arcs, |arcs1|, n0, false) && arcs[..|arcs1|] == arcs1
  {
    FanArcsOk(nodes, fars, clones, k2, n0, false, true);
    var r := DecisionArcs(tgts, guards, n1, k1);
    forall a | 0 <= a < |r| ensures NewArcOk(nodes, r[a], n0, false) {
      DecisionArcOk(n1, tgts, guards, nodes, n0, k1, name, c0, a1, a / 2);
      assert a == 2 * (a / 2) || a == 2 * (a / 2) + 1;
    }
    SegmentsOk(nodes, arcs1, r, FanArcs(fars, clones, k2, true), n0, false);
    DecisionNodesOk(nodes, n1, |tgts|, guards, name, c0, a1);
  }

  /** The far ends of the arcs into a merge Transition and the targets of its outgoing arcs
      are Places. */
  lemma MergeEndsArePlaces(nodes1: seq<Node>, arcs1: seq<Arc>, nodes: seq<Node>, x: NodeId, relevant: seq<ArcId>)
    requires WellFormed(nodes1, arcs1) && NodesGrown(nodes1, nodes) && x < |nodes1| && nodes1[x].kind.Transition?
    requires forall i :: 0 <= i < |relevant| ==>
               relevant[i] < |arcs1| && arcs1[relevant[i]].target == Some(x) && arcs1[relevant[i]].source.Some?
    requires forall i :: 0 <= i < |nodes1[x].outgoing| ==>
               nodes1[x].outgoing[i] < |arcs1| && arcs1[nodes1[x].outgoing[i]].target.Some?
    ensures var srcs := Ends(arcs1, relevant, false);
            forall i :: 0 <= i < |srcs| ==> srcs[i] < |nodes| && nodes[srcs[i]].kind.Place?
    ensures var fars := Ends(arcs1, nodes1[x].outgoing, true);
            forall i :: 0 <= i < |fars| ==> fars[i] < |nodes| && nodes[fars[i]].kind.Place?
  {
    FarEndsArePlaces(nodes1, arcs1, nodes, x, relevant, true, false, Ends(arcs1, relevant, false));
    ListedEndsArePlaces(nodes1, arcs1, nodes, x, nodes1[x].outgoing, true, Ends(arcs1, nodes1[x].outgoing, true));
  }

  /** The far ends of the arcs out of a decision Transition and the sources of its incoming
      arcs are Places. */
  lemma DecisionEndsArePlaces(nodes1: seq<Node>, arcs1: seq<Arc>, nodes: seq<Node>, x: NodeId, relevant: seq<ArcId>)
    requires WellFormed(nodes1, arcs1) && NodesGrown(nodes1, nodes) && x < |nodes1| && nodes1[x].kind.Transition?
    requires forall i :: 0 <= i < |relevant| ==>
               relevant[i] < |arcs1| && arcs1[relevant[i]].source == Some(x) && arcs1[relevant[i]].target.Some?
    requires forall i :: 0 <= i < |nodes1[x].incoming| ==>
               nodes1[x].incoming[i] < |arcs1| && arcs1[nodes1[x].incoming[i]].source.Some?
    ensures var tgts := Ends(arcs1, relevant, true);
            forall i :: 0 <= i < |tgts| ==> tgts[i] < |nodes| && nodes[tgts[i]].kind.Place?
    ensures var fars := Ends(arcs1, nodes1[x].incoming, false);
            forall i :: 0 <= i < |fars| ==> fars[i] < |nodes| && nodes[fars[i]].kind.Place?
  {
    FarEndsArePlaces(nodes1, arcs1, nodes, x, relevant, false, true, Ends(arcs1, relevant, true));
    ListedEndsArePlaces(nodes1, arcs1, nodes, x, nodes1[x].incoming, false, Ends(arcs1, nodes1[x].incoming, false));
  }

  /** The nodes and arcs `SplitMerge` allocates are as a merge pass makes them. */
  lemma MergeSplitNewOk(n0: nat, nodes1: seq<Node>, arcs1: seq<Arc>, nodes: seq<Node>,
                        arcs: seq<Arc>, x: NodeId, relevant: seq<ArcId>, k1: nat, clones: seq<NodeId>, cloneCounter: nat,
                        srcs: seq<NodeId>, fars: seq<NodeId>)
    requires n0 <= |nodes1| && WellFormed(nodes1, arcs1)
    requires x < |nodes1| && nodes1[x].kind.Transition?
    requires forall i :: 0 <= i < |relevant| ==>
               relevant[i] < |arcs1| && arcs1[relevant[i]].target == Some(x) && arcs1[relevant[i]].source.Some?
    requires NodesGrown(nodes1, nodes)
    requires MergeClones(nodes, |nodes1|, |relevant|, nodes1[x].name, cloneCounter, |arcs1|)
    requires forall i :: 0 <= i < |clones| ==> |nodes1| <= clones[i] < |nodes|
    requires forall i :: 0 <= i < |nodes1[x].outgoing| ==>
               nodes1[x].outgoing[i] < |arcs1| && arcs1[nodes1[x].outgoing[i]].target.Some?
    requires srcs == Ends(arcs1, relevant, false) && fars == Ends(arcs1, nodes1[x].outgoing, true)
    requires arcs == arcs1 + MergeInArcs(srcs, |nodes1|, k1) + FanArcs(fars, clones, k1 + |relevant|, false)
    ensures NewNodesOk(nodes, |nodes1|, true) && NewArcsOk(nodes, arcs, |arcs1|, n0, true)
    ensures arcs[..|arcs1|] == arcs1
  {
    MergeEndsArePlaces(nodes1, arcs1, nodes, x, relevant);
    MergeSegmentOk(|nodes1|, arcs1, srcs, fars, clones,
                   nodes, arcs, n0, k1, k1 + |relevant|, nodes1[x].name, cloneCounter, |arcs1|, |relevant|);
  }

  /** What `SplitMerge` leaves behind extends the arena state of a merge pass. */
  lemma MergeSplitGrown(nodes0: seq<Node>, arcs0: seq<Arc>, nodes1: seq<Node>, arcs1: seq<Arc>, nodes: seq<Node>,
                        arcs: seq<Arc>, x: NodeId, relevant: seq<ArcId>, k1: nat, clones: seq<NodeId>, cloneCounter: nat,
                        srcs: seq<NodeId>, fars: seq<NodeId>)
    requires ArenaGrown(nodes0, arcs0, true, nodes1, arcs1)
    requires x < |nodes1| && nodes1[x].kind.Transition?
    requires forall i :: 0 <= i < |relevant| ==>
               relevant[i] < |arcs1| && arcs1[relevant[i]].target == Some(x) && arcs1[relevant[i]].source.Some?
    requires WellFormed(nodes, arcs) && NodesGrown(nodes1, nodes) && TransitionsKept(nodes1, nodes, |nodes1|)
    requires MergeClones(nodes, |nodes1|, |relevant|, nodes1[x].name, cloneCounter, |arcs1|)
    requires forall i :: 0 <= i < |clones| ==> |nodes1| <= clones[i] < |nodes|
    requires forall i :: 0 <= i < |nodes1[x].outgoing| ==>
               nodes1[x].outgoing[i] < |arcs1| && arcs1[nodes1[x].outgoing[i]].target.Some?
    requires srcs == Ends(arcs1, relevant, false) && fars == Ends(arcs1, nodes1[x].outgoing, true)
    requires arcs == arcs1 + MergeInArcs(srcs, |nodes1|, k1) + FanArcs(fars, clones, k1 + |relevant|, false)
    ensures ArenaGrown(nodes0, arcs0, true, nodes, arcs)
  {
    MergeSplitNewOk(|nodes0|, nodes1, arcs1, nodes, arcs, x, relevant, k1, clones, cloneCounter, srcs, fars);
    ArenaStep(nodes0, arcs0, true, nodes1, arcs1, nodes, arcs);
  }

  /** The nodes and arcs `SplitDecision` allocates are as a decision pass makes them. */
  lemma DecisionSplitNewOk(n0: nat, nodes1: seq<Node>, arcs1: seq<Arc>, nodes: seq<Node>,
                           arcs: seq<Arc>, x: NodeId, relevant: seq<ArcId>, k1: nat, clones: seq<NodeId>, cloneCounter: nat,
                           tgts: seq<NodeId>, guards: seq<Option<string>>, fars: seq<NodeId>)
    requires n0 <= |nodes1| && WellFormed(nodes1, arcs1)
    requires x < |nodes1| && nodes1[x].kind.Transition?
    requires forall i :: 0 <= i < |relevant| ==>
               relevant[i] < |arcs1| && arcs1[relevant[i]].source == Some(x) && arcs1[relevant[i]].target.Some?
    requires NodesGrown(nodes1, nodes)
    requires DecisionClones(nodes, |nodes1|, |relevant|, Guards(arcs1, relevant), nodes1[x].name, cloneCounter, |arcs1|)
    requires forall i :: 0 <= i < |clones| ==> |nodes1| <= clones[i] < |nodes| && nodes[clones[i]].kind == Transition(false, true)
    requires forall i :: 0 <= i < |nodes1[x].incoming| ==>
               nodes1[x].incoming[i] < |arcs1| && arcs1[nodes1[x].incoming[i]].source.Some?
    requires tgts == Ends(arcs1, relevant, true) && guards == Guards(arcs1, relevant)
    requires fars == Ends(arcs1, nodes1[x].incoming, false)
    requires arcs == arcs1 + DecisionArcs(tgts, guards, |nodes1|, k1) + FanArcs(fars, clones, k1 + |relevant|, true)
    ensures NewNodesOk(nodes, |nodes1|, false) && NewArcsOk(nodes, arcs, |arcs1|, n0, false)
    ensures arcs[..|arcs1|] == arcs1
  {
    DecisionEndsArePlaces(nodes1, arcs1, nodes, x, relevant);
    DecisionSegmentOk(|nodes1|, arcs1, tgts, guards, fars, clones, nodes, arcs, n0, k1, k1 + |relevant|,
                      nodes1[x].name, cloneCounter, |arcs1|);
  }

  /** What `SplitDecision` leaves behind extends the arena state of a decision pass. */
  lemma DecisionSplitGrown(nodes0: seq<Node>, arcs0: seq<Arc>, nodes1: seq<Node>, arcs1: seq<Arc>, nodes: seq<Node>,
                           arcs: seq<Arc>, x: NodeId, relevant: seq<ArcId>, k1: nat, clones: seq<NodeId>, cloneCounter: nat,
                           tgts: seq<NodeId>, guards: seq<Option<string>>, fars: seq<NodeId>)
    requires ArenaGrown(nodes0, arcs0, false, nodes1, arcs1)
    requires x < |nodes1| && nodes1[x].kind.Transition?
    requires forall i :: 0 <= i < |relevant| ==>
               relevant[i] < |arcs1| && arcs1[relevant[i]].source == Some(x) && arcs1[relevant[i]].target.Some?
    requires WellFormed(nodes, arcs) && NodesGrown(nodes1, nodes) && TransitionsKept(nodes1, nodes, |nodes1|)
    requires DecisionClones(nodes, |nodes1|, |relevant|, guards, nodes1[x].name, cloneCounter, |arcs1|)
    requires forall i :: 0 <= i < |clones| ==> |nodes1| <= clones[i] < |nodes| && nodes[clones[i]].kind == Transition(false, true)
    requires forall i :: 0 <= i < |nodes1[x].incoming| ==>
               nodes1[x].incoming[i] < |arcs1| && arcs1[nodes1[x].incoming[i]].source.Some?
    requires tgts == Ends(arcs1, relevant, true) && guards == Guards(arcs1, relevant)
    requires fars == Ends(arcs1, nodes1[x].incoming, false)
    requires arcs == arcs1 + DecisionArcs(tgts, guards, |nodes1|, k1) + FanArcs(fars, clones, k1 + |relevant|, true)
    ensures ArenaGrown(nodes0, arcs0, false, nodes, arcs)
  {
    DecisionSplitNewOk(|nodes0|, nodes1, arcs1, nodes, arcs, x, relevant, k1, clones, cloneCounter, tgts, guards, fars);
    ArenaStep(nodes0, arcs0, false, nodes1, arcs1, nodes, arcs);
  }

  /** Splitting the merge Transition `x` of a merge pass extends the arena state. */
  method MergeTurn(h: Heap, ids: IdGenerator, x: NodeId, relevant: seq<ArcId>, cloneCounter: nat,
                   ghost nodes0: seq<Node>, ghost arcs0: seq<Arc>)
    returns (removed: seq<ArcId>, counter: nat)
    requires ArenaGrown(nodes0, arcs0, true, h.nodes, h.arcs) && ids.Valid()
    requires x < |h.nodes| && h.nodes[x].kind.Transition?
    requires forall i :: 0 <= i < |relevant| ==>
               relevant[i] < |h.arcs| && h.arcs[relevant[i]].target == Some(x) && h.arcs[relevant[i]].source.Some?
    modifies h, ids
    ensures ids.Valid() && ArenaGrown(nodes0, arcs0, true, h.nodes, h.arcs)
    ensures removed == relevant + old(h.nodes)[x].outgoing && counter == cloneCounter + |relevant|
  {
    ghost var nodes1, arcs1, k1 := h.nodes, h.arcs, ids.idCounter;
    var clones;
    clones, removed, counter := SplitMerge(h, ids, x, relevant, cloneCounter);
    MergeSplitGrown(nodes0, arcs0, nodes1, arcs1, h.nodes, h.arcs, x, relevant, k1, clones, cloneCounter,
                    Ends(arcs1, relevant, false), Ends(arcs1, nodes1[x].outgoing, true));
  }

  /** Splitting the decision Transition `x` of a decision pass extends the arena state. */
  method DecisionTurn(h: Heap, ids: IdGenerator, x: NodeId, relevant: seq<ArcId>, cloneCounter: nat,
                      ghost nodes0: seq<Node>, ghost arcs0: seq<Arc>)
    returns (removed: seq<ArcId>, counter: nat)
    requires ArenaGrown(nodes0, arcs0, false, h.nodes, h.arcs) && ids.Valid()
    requires x < |h.nodes| && h.nodes[x].kind.Transition?
    requires forall i :: 0 <= i < |relevant| ==>
               relevant[i] < |h.arcs| && h.arcs[relevant[i]].source == Some(x) && h.arcs[relevant[i]].target.Some?
    modifies h, ids
    ensures ids.Valid() && ArenaGrown(nodes0, arcs0, false, h.nodes, h.arcs)
    ensures removed == relevant + old(h.nodes)[x].incoming && counter == cloneCounter + |relevant|
  {
    ghost var nodes1, arcs1, k1 := h.nodes, h.arcs, ids.idCounter;
    var clones;
    clones, removed, counter := SplitDecision(h, ids, x, relevant, cloneCounter);
    DecisionSplitGrown(nodes0, arcs0, nodes1, arcs1, h.nodes, h.arcs, x, relevant, k1, clones, cloneCounter,
                       Ends(arcs1, relevant, true), Guards(arcs1, relevant), Ends(arcs1, nodes1[x].incoming, false));
  }

  /** One entry of the pass's loop over the grouped Transitions: a Transition with more than
      one relevant arc is split, its relevant arcs and the arcs on its other side join
      `arcsToRemove`, and it joins `nodesToRemove`; any other entry is skipped. */
  method PassTurn(h: Heap, ids: IdGenerator, processMerge: bool, x: NodeId, relevant: seq<ArcId>, cloneCounter: nat,
                  arcsToRemove: seq<ArcId>, nodesToRemove: seq<NodeId>,
                  ghost nodes0: seq<Node>, ghost arcs0: seq<Arc>, ghost netArcs0: seq<ArcId>, ghost split: set<NodeId>)
    returns (arcsToRemove': seq<ArcId>, nodesToRemove': seq<NodeId>, counter: nat)
    requires PassPre(nodes0, arcs0, netArcs0) && ids.Valid()
    requires x in Group(nodes0, arcs0, netArcs0, processMerge) && relevant == Group(nodes0, arcs0, netArcs0, processMerge)[x]
    requires PassState(nodes0, arcs0, netArcs0, processMerge, split, h.nodes, h.arcs, arcsToRemove, nodesToRemove)
    modifies h, ids
    ensures ids.Valid()
    ensures PassState(nodes0, arcs0, netArcs0, processMerge, if |relevant| > 1 then split + {x} else split,
                      h.nodes, h.arcs, arcsToRemove', nodesToRemove')
    ensures counter == if |relevant| > 1 then cloneCounter + |relevant| else cloneCounter
  {
    if |relevant| <= 1 {
      return arcsToRemove, nodesToRemove, cloneCounter;
    }
    RelevantArcsReady(nodes0, arcs0, netArcs0, processMerge, h.nodes, h.arcs, x);
    var removed;
    if processMerge {
      removed, counter := MergeTurn(h, ids, x, relevant, cloneCounter, nodes0, arcs0);
    } else {
      removed, counter := DecisionTurn(h, ids, x, relevant, cloneCounter, nodes0, arcs0);
    }
    RemoveStep(nodes0, arcs0, netArcs0, processMerge, split, x, arcsToRemove, removed);
    arcsToRemove', nodesToRemove' := arcsToRemove + removed, nodesToRemove + [x];
  }

  /** The state before the first entry: nothing split, nothing collected. */
  lemma PassInit(nodes0: seq<Node>, arcs0: seq<Arc>, netArcs0: seq<ArcId>, processMerge: bool)
    requires PassPre(nodes0, arcs0, netArcs0)
    ensures PassState(nodes0, arcs0, netArcs0, processMerge, {}, nodes0, arcs0, [], [])
  {
    assert arcs0[..|arcs0|] == arcs0;
  }

  /** Visiting one more key adds it to the split Transitions exactly when it has more than one
      relevant arc. */
  lemma SplitAmongSnoc(g: map<NodeId, seq<ArcId>>, ks: seq<NodeId>, i: nat)
    requires i < |ks| && ks[i] in g
    ensures SplitAmong(g, ks[..i + 1]) == if |g[ks[i]]| > 1 then SplitAmong(g, ks[..i]) + {ks[i]} else SplitAmong(g, ks[..i])
  {
    assert ks[..i + 1] == ks[..i] + [ks[i]];
  }

  /** Once every key is visited, the split Transitions are the keys with more than one relevant
      arc. */
  lemma SplitAmongAll(g: map<NodeId, seq<ArcId>>, keys: seq<NodeId>)
    requires forall x :: x in keys <==> x in g
    ensures SplitAmong(g, keys[..|keys|]) == SplitKeys(g)
  {
    assert keys[..|keys|] == keys;
  }

  /** At the end of the loop the removal lists hold, as sets, the doomed arcs and the split
      Transitions. */
  lemma PassDone(nodes0: seq<Node>, arcs0: seq<Arc>, netArcs0: seq<ArcId>, processMerge: bool, split: set<NodeId>,
                 nodes: seq<Node>, arcs: seq<Arc>, arcsToRemove: seq<ArcId>, nodesToRemove: seq<NodeId>,
                 doomedArcs: set<ArcId>, doomedNodes: set<NodeId>)
    requires PassState(nodes0, arcs0, netArcs0, processMerge, split, nodes, arcs, arcsToRemove, nodesToRemove)
    requires forall a :: a in doomedArcs <==> a in arcsToRemove
    requires forall x :: x in doomedNodes <==> x in nodesToRemove
    ensures doomedArcs == RemovedArcs(arcs0, netArcs0, processMerge, split) && doomedNodes == split
  {
  }

  /** What `postProcessNode` leaves: the arena grown by the splits; the net's arc list without
      the doomed arcs, followed by every arc the pass allocated; the net's node list without
      the split Transitions, followed by every node the pass allocated. */
  ghost predicate PassResult(nodes0: seq<Node>, arcs0: seq<Arc>, netArcs0: seq<ArcId>, netNodes0: seq<NodeId>,
                             processMerge: bool, nodes: seq<Node>, arcs: seq<Arc>, netArcs: seq<ArcId>, netNodes: seq<NodeId>)
  {
    && InArena(nodes0, arcs0, netArcs0)
    && var split := SplitKeys(Group(nodes0, arcs0, netArcs0, processMerge));
    && ArenaGrown(nodes0, arcs0, processMerge, nodes, arcs)
    && netArcs == RemoveAll(netArcs0, RemovedArcs(arcs0, netArcs0, processMerge, split)) + Range(|arcs0|, |arcs|)
    && netNodes == RemoveAll(netNodes0, split) + Range(|nodes0|, |nodes|)
  }

  /** The loop of `postProcessNode` over the entries of the grouping, in the map's order. */
  method SplitGrouped(h: Heap, ids: IdGenerator, processMerge: bool, g: map<NodeId, seq<ArcId>>,
                      ghost netArcs0: seq<ArcId>)
    returns (arcsToRemove: seq<ArcId>, nodesToRemove: seq<NodeId>)
    requires PassPre(h.nodes, h.arcs, netArcs0) && ids.Valid() && g == Group(h.nodes, h.arcs, netArcs0, processMerge)
    modifies h, ids
    ensures ids.Valid()
    ensures PassState(old(h.nodes), old(h.arcs), netArcs0, processMerge, SplitKeys(g), h.nodes, h.arcs,
                      arcsToRemove, nodesToRemove)
  {
    ghost var nodes0, arcs0 := h.nodes, h.arcs;
    var keys := Enumerate(g.Keys);
    arcsToRemove, nodesToRemove := [], [];
    var cloneCounter := 1;
    PassInit(nodes0, arcs0, netArcs0, processMerge);
    for i := 0 to |keys|
      invariant ids.Valid()
      invariant PassState(nodes0, arcs0, netArcs0, processMerge, SplitAmong(g, keys[..i]), h.nodes, h.arcs,
                          arcsToRemove, nodesToRemove)
    {
      SplitAmongSnoc(g, keys, i);
      arcsToRemove, nodesToRemove, cloneCounter :=
        PassTurn(h, ids, processMerge, keys[i], g[keys[i]], cloneCounter, arcsToRemove, nodesToRemove,
                 nodes0, arcs0, netArcs0, SplitAmong(g, keys[..i]));
    }
    SplitAmongAll(g, keys);
  }

  /** `postProcessNode(petriNet, processMerge)`: group the net's arcs by the flagged Transition
      at their relevant end, split every Transition with more than one, then edit the net's
      lists once. */
  method PostProcessNode(h: Heap, net: PetriNet, ids: IdGenerator, processMerge: bool)
    requires PassPre(h.nodes, h.arcs, net.arcs) && ids.Valid()
    modifies h, net, ids
    ensures ids.Valid() && net.name == old(net.name)
    ensures PassResult(old(h.nodes), old(h.arcs), old(net.arcs), old(net.nodes), processMerge,
                       h.nodes, h.arcs, net.arcs, net.nodes)
  {
    var originalArcs := net.arcs;
    ghost var nodes0, arcs0 := h.nodes, h.arcs;
    var firstNew, firstNewArc := |h.nodes|, |h.arcs|;
    var g := GroupRelevantArcs(h, originalArcs, processMerge);
    var arcsToRemove, nodesToRemove := SplitGrouped(h, ids, processMerge, g, originalArcs);
    var doomedArcs, doomedNodes := set a | a in arcsToRemove, set x | x in nodesToRemove;
    PassDone(nodes0, arcs0, originalArcs, processMerge, SplitKeys(g), h.nodes, h.arcs, arcsToRemove, nodesToRemove,
             doomedArcs, doomedNodes);
    net.RemoveArcs(doomedArcs);
    net.AddArcs(Range(firstNewArc, |h.arcs|));
    net.RemoveNodes(doomedNodes);
    net.AddNodes(Range(firstNew, |h.nodes|));
  }
}
