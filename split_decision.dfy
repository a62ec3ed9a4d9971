/** The decision branch of `Transformer.postProcessNode`: a decision Transition with several
    outgoing arcs gets one clone per outgoing arc, guarded by a new Place named after the arc's
    guard and leading to the arc's target, and the clones share the node's incoming arcs
    through `targetToClone`. */
module DecisionSplit {
  import opened Wrappers
  import opened PetriNetModel
  import opened ArcIds
  import opened PostSplit

  /** The guards of the arcs `xs`. */
  function Guards(arcs: seq<Arc>, xs: seq<ArcId>): (r: seq<Option<string>>)
    requires forall i :: 0 <= i < |xs| ==> xs[i] < |arcs|
    ensures |r| == |xs| && forall i :: 0 <= i < |xs| ==> r[i] == arcs[xs[i]].guard
  {
    if |xs| == 0 then [] else Guards(arcs, xs[..|xs| - 1]) + [arcs[xs[|xs| - 1]].guard]
  }

  /** The arc named `"arc_" + guardName` from the guard Place, allocated right after `clone`,
      into the clone. */
  function GuardArc(guard: Option<string>, clone: NodeId): Arc {
    Arc(Some("arc_" + GuardName(guard)), 1, None, Some(clone + 1), Some(clone))
  }

  /** The arc from a clone to the target of the outgoing arc it replaces, named by generated
      id `k`. */
  function BranchArc(clone: NodeId, target: NodeId, k: nat): Arc {
    Arc(Some(GeneratedId(k)), 1, None, Some(clone), Some(target))
  }

  /** The arcs made for the outgoing arcs with targets `tgts` and guards `guards`: for the
      `k`-th, the guard arc and the branch arc, the clone being node `n1 + 2k`, its guard Place
      node `n1 + 2k + 1`, and the branch arc named by generated id `k1 + k`. */
  function DecisionArcs(tgts: seq<NodeId>, guards: seq<Option<string>>, n1: nat, k1: nat): (r: seq<Arc>)
    requires |tgts| == |guards|
    ensures |r| == 2 * |tgts|
  {
    if |tgts| == 0 then []
    else
      var k := |tgts| - 1;
      DecisionArcs(tgts[..k], guards[..k], n1, k1) + [GuardArc(guards[k], n1 + 2 * k), BranchArc(n1 + 2 * k, tgts[k], k1 + k)]
  }

  /** The arcs of the `j`-th outgoing arc in `DecisionArcs`: its guard arc at `2j`, into clone
      `n1 + 2j`, and its branch arc at `2j + 1`, from that clone to the `j`-th target. */
  lemma {:induction false} DecisionArcAt(tgts: seq<NodeId>, guards: seq<Option<string>>, n1: nat, k1: nat, j: nat)
    requires |tgts| == |guards| && j < |tgts|
    ensures DecisionArcs(tgts, guards, n1, k1)[2 * j] == GuardArc(guards[j], n1 + 2 * j)
    ensures DecisionArcs(tgts, guards, n1, k1)[2 * j + 1] == BranchArc(n1 + 2 * j, tgts[j], k1 + j)
  {
    var k := |tgts| - 1;
    if j < k {
      DecisionArcAt(tgts[..k], guards[..k], n1, k1, j);
      assert tgts[..k][j] == tgts[j] && guards[..k][j] == guards[j];
    }
  }

  /** The `count` clones and guard Places from `n1` on: node `n1 + 2k` is a decision clone named
      after `name` with counter value `c0 + k` whose only outgoing arc is the branch arc
      allocated for it, node `n1 + 2k + 1` a Place with no tokens named after the `k`-th guard. */
  predicate DecisionClones(nodes: seq<Node>, n1: nat, count: nat, guards: seq<Option<string>>, name: Option<string>,
                           c0: nat, a1: nat)
  {
    && |nodes| == n1 + 2 * count && count <= |guards|
    && forall n :: n1 <= n < |nodes| ==>
         if (n - n1) % 2 == 0 then
           && nodes[n].name == Some(CloneName(name, c0 + (n - n1) / 2)) && nodes[n].kind == Transition(false, true)
           && nodes[n].outgoing == [a1 + (n - n1) + 1]
         else
           nodes[n].name == Some(GuardName(guards[(n - n1) / 2])) && nodes[n].kind == Place(0)
  }

  /** The state after cloning for the first `k` outgoing arcs, whose targets are `tgts`. */
  predicate DecisionState(nodes1: seq<Node>, arcs1: seq<Arc>, k1: nat, c0: nat, tgts: seq<NodeId>,
                          guards: seq<Option<string>>, name: Option<string>,
                          k: nat, nodes: seq<Node>, arcs: seq<Arc>, counter: int)
  {
    && k <= |tgts| == |guards| && (forall i :: 0 <= i < |tgts| ==> tgts[i] < |nodes1| && nodes1[tgts[i]].kind.Place?)
    && WellFormed(nodes, arcs) && NodesGrown(nodes1, nodes) && TransitionsKept(nodes1, nodes, |nodes1|)
    && DecisionClones(nodes, |nodes1|, k, guards, name, c0, |arcs1|)
    && arcs == arcs1 + DecisionArcs(tgts[..k], guards[..k], |nodes1|, k1)
    && counter == k1 + k
  }

  /** The clone of the `k`-th outgoing arc, before it is linked. */
  function DecisionClone(name: Option<string>, c: nat): Node {
    Node(Some(CloneName(name, c)), [], [], Transition(false, true))
  }

  /** The guard Place of an outgoing arc, before it is linked. */
  function GuardPlace(guard: Option<string>): Node {
    Node(Some(GuardName(guard)), [], [], Place(0))
  }

  /** The arena's nodes after one turn: the clone and its guard Place appended, the guard arc
      `a` linked from the Place to the clone and the branch arc `a + 1` from the clone to
      `target`. */
  function DecisionLinked(nodes: seq<Node>, a: ArcId, name: Option<string>, c: nat, guard: Option<string>,
                          target: NodeId): seq<Node>
    requires target < |nodes|
  {
    var grown := nodes + [DecisionClone(name, c)] + [GuardPlace(guard)];
    LinkNodes(LinkNodes(grown, a, |nodes| + 1, |nodes|), a + 1, |nodes|, target)
  }

  lemma DecisionArcsSnoc(arcs1: seq<Arc>, arcs: seq<Arc>, tgts: seq<NodeId>, guards: seq<Option<string>>,
                         k: nat, n1: nat, k1: nat, clone: NodeId, c: nat)
    requires k < |tgts| == |guards| && arcs == arcs1 + DecisionArcs(tgts[..k], guards[..k], n1, k1)
    requires clone == n1 + 2 * k && c == k1 + k
    ensures arcs + [GuardArc(guards[k], clone), BranchArc(clone, tgts[k], c)]
         == arcs1 + DecisionArcs(tgts[..k + 1], guards[..k + 1], n1, k1)
  {
    var t, g := tgts[..k + 1], guards[..k + 1];
    assert t[..k] == tgts[..k] && g[..k] == guards[..k] && t[k] == tgts[k] && g[k] == guards[k];
    assert DecisionArcs(t, g, n1, k1)
        == DecisionArcs(tgts[..k], guards[..k], n1, k1) + [GuardArc(guards[k], clone), BranchArc(clone, tgts[k], c)];
  }

  /** The turn keeps the arena well formed: a Place feeding the new clone, and the clone
      feeding a Place. */
  lemma DecisionLinkedWellFormed(nodes: seq<Node>, arcs: seq<Arc>, name: Option<string>, c: nat,
                                 guard: Option<string>, target: NodeId, k: nat)
    requires WellFormed(nodes, arcs) && target < |nodes| && nodes[target].kind.Place?
    ensures WellFormed(DecisionLinked(nodes, |arcs|, name, c, guard, target),
                       arcs + [GuardArc(guard, |nodes|), BranchArc(|nodes|, target, k)])
  {
    var clone, place := |nodes|, |nodes| + 1;
    var g1 := nodes + [DecisionClone(name, c)];
    var grown := g1 + [GuardPlace(guard)];
    AllocNodePreservesWellFormed(nodes, arcs, DecisionClone(name, c));
    AllocNodePreservesWellFormed(g1, arcs, GuardPlace(guard));
    AppendLinkedPreservesWellFormed(grown, arcs, GuardArc(guard, clone));
    var linked := LinkNodes(grown, |arcs|, place, clone);
    assert linked[clone].kind == grown[clone].kind && linked[target].kind == grown[target].kind == nodes[target].kind;
    AppendLinkedPreservesWellFormed(linked, arcs + [GuardArc(guard, clone)], BranchArc(clone, target, k));
    assert arcs + [GuardArc(guard, clone)] + [BranchArc(clone, target, k)]
        == arcs + [GuardArc(guard, clone), BranchArc(clone, target, k)];
  }

  /** The turn keeps the original nodes and leaves their Transitions as they were. */
  lemma DecisionLinkedFrame(nodes1: seq<Node>, nodes: seq<Node>, a: ArcId, name: Option<string>, c: nat,
                            guard: Option<string>, target: NodeId)
    requires NodesGrown(nodes1, nodes) && TransitionsKept(nodes1, nodes, |nodes1|)
    requires target < |nodes1| && nodes1[target].kind.Place?
    ensures NodesGrown(nodes1, DecisionLinked(nodes, a, name, c, guard, target))
    ensures TransitionsKept(nodes1, DecisionLinked(nodes, a, name, c, guard, target), |nodes1|)
  {
    var grown := nodes + [DecisionClone(name, c)] + [GuardPlace(guard)];
    var linked := LinkNodes(grown, a, |nodes| + 1, |nodes|);
    assert NodesGrown(nodes, grown);
    NodesGrownTransitive(nodes1, nodes, grown);
    NodesGrownTransitive(nodes1, grown, linked);
    NodesGrownTransitive(nodes1, linked, DecisionLinked(nodes, a, name, c, guard, target));
  }

  /** The turn adds the next clone and guard Place, and leaves the earlier ones' names, kinds
      and the clones' outgoing lists as they were. */
  lemma DecisionClonesStep(nodes: seq<Node>, n1: nat, k: nat, guards: seq<Option<string>>, name: Option<string>,
                           c0: nat, a1: nat, a: ArcId, target: NodeId)
    requires DecisionClones(nodes, n1, k, guards, name, c0, a1) && k < |guards| && target < n1 && a == a1 + 2 * k
    ensures DecisionClones(DecisionLinked(nodes, a, name, c0 + k, guards[k], target), n1, k + 1, guards, name, c0, a1)
  {
    var grown := nodes + [DecisionClone(name, c0 + k)] + [GuardPlace(guards[k])];
    var linked := LinkNodes(grown, a, |nodes| + 1, |nodes|);
    var r := DecisionLinked(nodes, a, name, c0 + k, guards[k], target);
    forall n | n1 <= n < |r|
      ensures if (n - n1) % 2 == 0 then
                && r[n].name == Some(CloneName(name, c0 + (n - n1) / 2)) && r[n].kind == Transition(false, true)
                && r[n].outgoing == [a1 + (n - n1) + 1]
              else
                r[n].name == Some(GuardName(guards[(n - n1) / 2])) && r[n].kind == Place(0)
    {
      assert r[n].name == grown[n].name && r[n].kind == grown[n].kind;
      if n < |nodes| {
        assert r[n] == linked[n] == grown[n] == nodes[n];
      } else if n == |nodes| {
        assert (n - n1) % 2 == 0 && (n - n1) / 2 == k;
        assert linked[n].outgoing == [];
        assert r[n].outgoing == [a + 1];
      } else {
        assert (n - n1) % 2 == 1 && (n - n1) / 2 == k;
      }
    }
  }

  /** Allocating the next clone and guard Place and linking the two arcs moves the state one
      step on. */
  lemma DecisionStateStep(nodes1: seq<Node>, arcs1: seq<Arc>, k1: nat, c0: nat, tgts: seq<NodeId>,
                          guards: seq<Option<string>>, name: Option<string>,
                          k: nat, nodes: seq<Node>, arcs: seq<Arc>, counter: int, nodes': seq<Node>, arcs': seq<Arc>)
    requires DecisionState(nodes1, arcs1, k1, c0, tgts, guards, name, k, nodes, arcs, counter) && k < |tgts|
    requires nodes' == DecisionLinked(nodes, |arcs|, name, c0 + k, guards[k], tgts[k])
    requires arcs' == arcs + [GuardArc(guards[k], |nodes|), BranchArc(|nodes|, tgts[k], counter)]
    ensures DecisionState(nodes1, arcs1, k1, c0, tgts, guards, name, k + 1, nodes', arcs', counter + 1)
  {
    assert nodes[tgts[k]].kind == nodes1[tgts[k]].kind;
    DecisionLinkedWellFormed(nodes, arcs, name, c0 + k, guards[k], tgts[k], counter);
    DecisionLinkedFrame(nodes1, nodes, |arcs|, name, c0 + k, guards[k], tgts[k]);
    assert |arcs| == |arcs1| + 2 * k && |nodes| == |nodes1| + 2 * k;
    DecisionClonesStep(nodes, |nodes1|, k, guards, name, c0, |arcs1|, |arcs|, tgts[k]);
    DecisionArcsSnoc(arcs1, arcs, tgts, guards, k, |nodes1|, k1, |nodes|, counter);
  }

  /** One turn of the loop over the outgoing arcs: a clone named `name_cc`, flagged as
      decision; a guard Place named after the guard; the guard arc, named `arc_` and the guard,
      from the Place into the clone; and an arc from the clone to the outgoing arc's target,
      named by a new generated id. */
  method AddDecisionClone(h: Heap, ids: IdGenerator, name: Option<string>, guard: Option<string>, target: NodeId, cc: nat)
    returns (clone: NodeId)
    requires ids.Valid() && target < |h.nodes|
    modifies h, ids
    ensures ids.Valid() && ids.idCounter == old(ids.idCounter) + 1 && clone == |old(h.nodes)|
    ensures h.nodes == DecisionLinked(old(h.nodes), |old(h.arcs)|, name, cc, guard, target)
    ensures h.arcs == old(h.arcs) + [GuardArc(guard, clone), BranchArc(clone, target, old(ids.idCounter))]
  {
    ghost var nodes0, arcs0 := h.nodes, h.arcs;
    clone := NewClone(h, CloneName(name, cc), false);
    var guardName := GuardName(guard);
    var guardPlace := NewGuardPlace(h, guardName);
    assert guardPlace == clone + 1;
    var _ := LinkNewArc(h, guardPlace, clone, "arc_" + guardName);
    var id := ids.GenerateXmlSafeId();
    var _ := LinkNewArc(h, clone, target, id);
    assert h.arcs == arcs0 + [GuardArc(guard, clone)] + [BranchArc(clone, target, old(ids.idCounter))];
  }

  /** `AddDecisionClone` moves the loop's arena state one step on. */
  method DecisionStep(h: Heap, ids: IdGenerator, name: Option<string>, guard: Option<string>, target: NodeId, cc: nat,
                      ghost nodes1: seq<Node>, ghost arcs1: seq<Arc>, ghost k1: nat, ghost c0: nat,
                      ghost tgts: seq<NodeId>, ghost guards: seq<Option<string>>, ghost k: nat)
    returns (clone: NodeId)
    requires ids.Valid() && k < |tgts| == |guards| && target == tgts[k] && guard == guards[k] && cc == c0 + k
    requires DecisionState(nodes1, arcs1, k1, c0, tgts, guards, name, k, h.nodes, h.arcs, ids.idCounter)
    modifies h, ids
    ensures ids.Valid() && clone == |nodes1| + 2 * k
    ensures DecisionState(nodes1, arcs1, k1, c0, tgts, guards, name, k + 1, h.nodes, h.arcs, ids.idCounter)
  {
    ghost var nodes, arcs, counter := h.nodes, h.arcs, ids.idCounter;
    assert |nodes| == |nodes1| + 2 * k;
    clone := AddDecisionClone(h, ids, name, guard, target, cc);
    DecisionStateStep(nodes1, arcs1, k1, c0, tgts, guards, name, k, nodes, arcs, counter, h.nodes, h.arcs);
  }

  /** The node ids of the clones: the `k`-th is `n1 + 2k`. */
  function CloneIds(n1: nat, count: nat): (r: seq<NodeId>)
    ensures |r| == count && forall k :: 0 <= k < count ==> r[k] == n1 + 2 * k
  {
    seq(count, k => n1 + 2 * k)
  }

  /** One turn of the loop over the outgoing arcs, with its bookkeeping. */
  method CloneDecisionTurn(h: Heap, ids: IdGenerator, name: Option<string>, relevant: seq<ArcId>, k: nat,
                           targetToClone: map<NodeId, NodeId>, removed: seq<ArcId>, counter: nat,
                           ghost nodes1: seq<Node>, ghost arcs1: seq<Arc>, ghost k1: nat, ghost c0: nat,
                           ghost tgts: seq<NodeId>, ghost guards: seq<Option<string>>)
    returns (targetToClone': map<NodeId, NodeId>, removed': seq<ArcId>, counter': nat)
    requires ids.Valid() && k < |relevant|
    requires |tgts| == |relevant| == |guards|
    requires forall i :: 0 <= i < |relevant| ==>
               relevant[i] < |arcs1| && arcs1[relevant[i]].target == Some(tgts[i]) && arcs1[relevant[i]].guard == guards[i]
    requires CloneBooks(relevant, tgts, CloneIds(|nodes1|, |relevant|), c0, k, targetToClone, removed, counter)
    requires DecisionState(nodes1, arcs1, k1, c0, tgts, guards, name, k, h.nodes, h.arcs, ids.idCounter)
    modifies h, ids
    ensures ids.Valid()
    ensures CloneBooks(relevant, tgts, CloneIds(|nodes1|, |relevant|), c0, k + 1, targetToClone', removed', counter')
    ensures DecisionState(nodes1, arcs1, k1, c0, tgts, guards, name, k + 1, h.nodes, h.arcs, ids.idCounter)
  {
    assert h.arcs[relevant[k]] == (arcs1 + DecisionArcs(tgts[..k], guards[..k], |nodes1|, k1))[relevant[k]] == arcs1[relevant[k]];
    var arc := h.arcs[relevant[k]];
    var target := arc.target.value;
    ghost var vals := CloneIds(|nodes1|, |relevant|);
    CloneBooksStep(relevant, tgts, vals, c0, k, targetToClone, removed, counter);
    var clone := DecisionStep(h, ids, name, arc.guard, target, counter, nodes1, arcs1, k1, c0, tgts, guards, k);
    assert target == tgts[k] && clone == vals[k];
    targetToClone', removed', counter' := targetToClone[target := clone], removed + [relevant[k]], counter + 1;
  }

  /** The loop over the relevant (outgoing) arcs of a decision node: per arc a clone, its guard
      Place and guard arc, and an arc from the clone to the arc's target; `targetToClone` maps
      each target to its last clone, and every outgoing arc is collected for removal. */
  method CloneDecisionOutputs(h: Heap, ids: IdGenerator, t: NodeId, relevant: seq<ArcId>, cloneCounter: nat)
    returns (targetToClone: map<NodeId, NodeId>, removed: seq<ArcId>, counter: nat)
    requires WellFormed(h.nodes, h.arcs) && ids.Valid() && t < |h.nodes| && h.nodes[t].kind.Transition?
    requires forall i :: 0 <= i < |relevant| ==>
               relevant[i] < |h.arcs| && h.arcs[relevant[i]].source == Some(t) && h.arcs[relevant[i]].target.Some?
    modifies h, ids
    ensures WellFormed(h.nodes, h.arcs) && NodesGrown(old(h.nodes), h.nodes)
    ensures TransitionsKept(old(h.nodes), h.nodes, |old(h.nodes)|)
    ensures DecisionClones(h.nodes, |old(h.nodes)|, |relevant|, Guards(old(h.arcs), relevant), old(h.nodes)[t].name,
                           cloneCounter, |old(h.arcs)|)
    ensures h.arcs == old(h.arcs) + DecisionArcs(Ends(old(h.arcs), relevant, true), Guards(old(h.arcs), relevant),
                                                 |old(h.nodes)|, old(ids.idCounter))
    ensures ids.Valid() && ids.idCounter == old(ids.idCounter) + |relevant| && counter == cloneCounter + |relevant|
    ensures targetToClone == LastWins(Ends(old(h.arcs), relevant, true), CloneIds(|old(h.nodes)|, |relevant|))
    ensures removed == relevant
  {
    ghost var nodes1, arcs1, k1 := h.nodes, h.arcs, ids.idCounter;
    var name := h.nodes[t].name;
    ghost var tgts, guards := CloneDecisionInit(nodes1, arcs1, k1, t, relevant, cloneCounter);
    targetToClone, removed, counter := map[], [], cloneCounter;
    for k := 0 to |relevant|
      invariant ids.Valid()
      invariant CloneBooks(relevant, tgts, CloneIds(|nodes1|, |relevant|), cloneCounter, k, targetToClone, removed, counter)
      invariant DecisionState(nodes1, arcs1, k1, cloneCounter, tgts, guards, name, k, h.nodes, h.arcs, ids.idCounter)
    {
      targetToClone, removed, counter :=
        CloneDecisionTurn(h, ids, name, relevant, k, targetToClone, removed, counter, nodes1, arcs1, k1, cloneCounter, tgts, guards);
    }
    CloneDecisionDone(relevant, tgts, guards, nodes1, arcs1, k1, cloneCounter, name, h.nodes, h.arcs, ids.idCounter,
                      targetToClone, removed, counter);
  }

  /** Before the first turn: the outgoing arcs' targets, which are Places, their guards, and the
      empty state. */
  lemma CloneDecisionInit(nodes: seq<Node>, arcs: seq<Arc>, k1: nat, t: NodeId, relevant: seq<ArcId>, c0: nat)
    returns (tgts: seq<NodeId>, guards: seq<Option<string>>)
    requires WellFormed(nodes, arcs) && t < |nodes| && nodes[t].kind.Transition?
    requires forall i :: 0 <= i < |relevant| ==>
               relevant[i] < |arcs| && arcs[relevant[i]].source == Some(t) && arcs[relevant[i]].target.Some?
    ensures tgts == Ends(arcs, relevant, true) && guards == Guards(arcs, relevant)
    ensures |tgts| == |relevant| == |guards|
    ensures forall i :: 0 <= i < |relevant| ==>
              relevant[i] < |arcs| && arcs[relevant[i]].target == Some(tgts[i]) && arcs[relevant[i]].guard == guards[i]
    ensures CloneBooks(relevant, tgts, CloneIds(|nodes|, |relevant|), c0, 0, map[], [], c0)
    ensures DecisionState(nodes, arcs, k1, c0, tgts, guards, nodes[t].name, 0, nodes, arcs, k1)
  {
    tgts, guards := Ends(arcs, relevant, true), Guards(arcs, relevant);
    forall i | 0 <= i < |tgts| ensures tgts[i] < |nodes| && nodes[tgts[i]].kind.Place? {
      assert ArcOk(nodes, arcs, relevant[i]);
    }
    assert tgts[..0] == [] && guards[..0] == [];
    assert arcs + DecisionArcs(tgts[..0], guards[..0], |nodes|, k1) == arcs;
  }

  /** After the last turn: the state covers all outgoing arcs. */
  lemma CloneDecisionDone(relevant: seq<ArcId>, tgts: seq<NodeId>, guards: seq<Option<string>>, nodes1: seq<Node>,
                          arcs1: seq<Arc>, k1: nat, c0: nat, name: Option<string>, nodes: seq<Node>, arcs: seq<Arc>,
                          idCounter: int, targetToClone: map<NodeId, NodeId>, removed: seq<ArcId>, counter: nat)
    requires CloneBooks(relevant, tgts, CloneIds(|nodes1|, |relevant|), c0, |relevant|, targetToClone, removed, counter)
    requires DecisionState(nodes1, arcs1, k1, c0, tgts, guards, name, |relevant|, nodes, arcs, idCounter)
    ensures counter == c0 + |relevant| && removed == relevant
    ensures targetToClone == LastWins(tgts, CloneIds(|nodes1|, |relevant|))
    ensures WellFormed(nodes, arcs) && NodesGrown(nodes1, nodes) && TransitionsKept(nodes1, nodes, |nodes1|)
    ensures DecisionClones(nodes, |nodes1|, |relevant|, guards, name, c0, |arcs1|)
    ensures arcs == arcs1 + DecisionArcs(tgts, guards, |nodes1|, k1) && idCounter == k1 + |relevant|
  {
    var vals := CloneIds(|nodes1|, |relevant|);
    assert tgts[..|relevant|] == tgts && guards[..|relevant|] == guards;
    assert relevant[..|relevant|] == relevant && vals[..|relevant|] == vals;
  }

  /** A Transition's incoming arcs come from Places. */
  lemma IncomingFromPlaces(nodes: seq<Node>, arcs: seq<Arc>, t: NodeId)
    requires WellFormed(nodes, arcs) && t < |nodes| && nodes[t].kind.Transition?
    ensures forall i :: 0 <= i < |nodes[t].incoming| ==>
              nodes[t].incoming[i] < |arcs| && arcs[nodes[t].incoming[i]].source.Some?
    ensures forall i :: 0 <= i < |nodes[t].incoming| ==>
              var far := Ends(arcs, nodes[t].incoming, false)[i]; far < |nodes| && nodes[far].kind.Place?
  {
    var inc := nodes[t].incoming;
    assert NodeOk(nodes, arcs, t);
    forall i | 0 <= i < |inc| ensures inc[i] < |arcs| && arcs[inc[i]].source.Some? {
      assert inc[i] in inc;
    }
    var fars := Ends(arcs, inc, false);
    forall i | 0 <= i < |inc| ensures fars[i] < |nodes| && nodes[fars[i]].kind.Place? {
      assert ArcOk(nodes, arcs, inc[i]);
    }
  }

  /** The values left in `targetToClone` are among the clones made. */
  lemma SurvivingDecisionClones(tgts: seq<NodeId>, guards: seq<Option<string>>, nodes: seq<Node>, n1: nat,
                                name: Option<string>, c0: nat, a1: nat, clones: seq<NodeId>)
    requires |tgts| == |guards| && DecisionClones(nodes, n1, |tgts|, guards, name, c0, a1)
    requires forall x :: x in clones <==> x in LastWins(tgts, CloneIds(n1, |tgts|)).Values
    ensures forall i :: 0 <= i < |clones| ==> n1 <= clones[i] < |nodes| && nodes[clones[i]].kind == Transition(false, true)
  {
    forall i | 0 <= i < |clones| ensures n1 <= clones[i] < |nodes| && nodes[clones[i]].kind == Transition(false, true)
    {
      var m := LastWins(tgts, CloneIds(n1, |tgts|));
      assert clones[i] in m.Values;
      var x :| x in m && m[x] == clones[i];
      assert m[x] in CloneIds(n1, |tgts|);
      var k :| 0 <= k < |tgts| && CloneIds(n1, |tgts|)[k] == clones[i];
      DecisionCloneAt(nodes, n1, |tgts|, guards, name, c0, a1, k);
    }
  }

  /** The `k`-th clone is a decision Transition. */
  lemma DecisionCloneAt(nodes: seq<Node>, n1: nat, count: nat, guards: seq<Option<string>>, name: Option<string>,
                        c0: nat, a1: nat, k: nat)
    requires DecisionClones(nodes, n1, count, guards, name, c0, a1) && k < count
    ensures n1 + 2 * k < |nodes| && nodes[n1 + 2 * k].kind == Transition(false, true)
  {
    assert (n1 + 2 * k - n1) % 2 == 0;
  }

  /** The fan leaves the clones as they were on their outgoing side. */
  lemma DecisionClonesFanned(nodes: seq<Node>, nodes': seq<Node>, n1: nat, count: nat, guards: seq<Option<string>>,
                             name: Option<string>, c0: nat, a1: nat)
    requires DecisionClones(nodes, n1, count, guards, name, c0, a1)
    requires FanFrame(nodes, nodes', n1) && CloneListsKept(nodes, nodes', n1, true)
    ensures DecisionClones(nodes', n1, count, guards, name, c0, a1)
  {
    forall n | n1 <= n < |nodes'| && (n - n1) % 2 == 0 ensures nodes'[n].outgoing == nodes[n].outgoing {
      assert NormList(nodes'[n], false) == NormList(nodes[n], false);
    }
  }

  /** The decision branch for one node `t` with its relevant (outgoing) arcs: the clones, their
      guard Places and arcs, then a copy of every incoming arc of `t` into every clone left in
      `targetToClone`; the outgoing and incoming arcs of `t` are returned for removal. */
  method SplitDecision(h: Heap, ids: IdGenerator, t: NodeId, relevant: seq<ArcId>, cloneCounter: nat)
    returns (clones: seq<NodeId>, removed: seq<ArcId>, counter: nat)
    requires WellFormed(h.nodes, h.arcs) && ids.Valid() && t < |h.nodes| && h.nodes[t].kind.Transition?
    requires forall i :: 0 <= i < |relevant| ==>
               relevant[i] < |h.arcs| && h.arcs[relevant[i]].source == Some(t) && h.arcs[relevant[i]].target.Some?
    modifies h, ids
    ensures WellFormed(h.nodes, h.arcs) && NodesGrown(old(h.nodes), h.nodes)
    ensures TransitionsKept(old(h.nodes), h.nodes, |old(h.nodes)|)
    ensures h.nodes[t] == old(h.nodes)[t]
    ensures DecisionClones(h.nodes, |old(h.nodes)|, |relevant|, Guards(old(h.arcs), relevant), old(h.nodes)[t].name,
                           cloneCounter, |old(h.arcs)|)
    ensures forall x :: x in clones <==> x in LastWins(Ends(old(h.arcs), relevant, true), CloneIds(|old(h.nodes)|, |relevant|)).Values
    ensures forall i, j :: 0 <= i < j < |clones| ==> clones[i] != clones[j]
    ensures forall i :: 0 <= i < |clones| ==>
              |old(h.nodes)| <= clones[i] < |h.nodes| && h.nodes[clones[i]].kind == Transition(false, true)
    ensures forall i :: 0 <= i < |old(h.nodes)[t].incoming| ==>
              old(h.nodes)[t].incoming[i] < |old(h.arcs)| && old(h.arcs)[old(h.nodes)[t].incoming[i]].source.Some?
    ensures h.arcs == old(h.arcs) + DecisionArcs(Ends(old(h.arcs), relevant, true), Guards(old(h.arcs), relevant),
                                                 |old(h.nodes)|, old(ids.idCounter))
                      + FanArcs(Ends(old(h.arcs), old(h.nodes)[t].incoming, false), clones,
                                old(ids.idCounter) + |relevant|, true)
    ensures ids.Valid() && ids.idCounter == old(ids.idCounter) + |relevant| + |old(h.nodes)[t].incoming| * |clones|
    ensures removed == relevant + old(h.nodes)[t].incoming && counter == cloneCounter + |relevant|
  {
    ghost var nodes1, arcs1, k1 := h.nodes, h.arcs, ids.idCounter;
    ghost var tgts, guards := Ends(arcs1, relevant, true), Guards(arcs1, relevant);
    var targetToClone, outRemoved;
    targetToClone, outRemoved, counter := CloneDecisionOutputs(h, ids, t, relevant, cloneCounter);
    clones := Enumerate(targetToClone.Values);
    ghost var nodes2, arcs2, k2 := h.nodes, h.arcs, ids.idCounter;
    IncomingFromPlaces(nodes1, arcs1, t);
    assert h.nodes[t] == nodes1[t] && arcs2[..|arcs1|] == arcs1;
    EndsPrefix(arcs1, arcs2, nodes1[t].incoming, false);
    SurvivingDecisionClones(tgts, guards, nodes2, |nodes1|, nodes1[t].name, cloneCounter, |arcs1|, clones);
    FanEndsGrown(nodes1, nodes2, Ends(arcs1, nodes1[t].incoming, false), clones);
    ghost var fars := Ends(arcs1, nodes1[t].incoming, false);
    var inRemoved := Fan(h, ids, clones, h.nodes[t].incoming, true, |nodes1|);
    assert h.arcs == arcs2 + FanArcs(fars, clones, k2, true);
    removed := outRemoved + inRemoved;
    DecisionClonesFanned(nodes2, h.nodes, |nodes1|, |relevant|, guards, nodes1[t].name, cloneCounter, |arcs1|);
    NodesGrownTransitive(nodes1, nodes2, h.nodes);
    TransitionsKeptTransitive(nodes1, nodes2, h.nodes, |nodes1|);
  }
}
