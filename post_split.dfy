/** The splitting of one control Transition in `Transformer.postProcessNode`. A merge
    Transition with several incoming arcs gets one clone per incoming arc, and the clones
    share its outgoing arcs. A decision Transition with several outgoing arcs gets one clone
    per outgoing arc, guarded by a new Place named after the arc's guard, and the clones share
    its incoming arcs. The node itself and all of its arcs are only collected for removal here;
    the pass edits the net's lists at the end. */
module PostSplit {
  import opened Wrappers
  import opened Strings
  import opened PetriNetModel
  import opened ArcIds

  /** The end of an arc a pass groups by: the target in the merge pass, the source in the
      decision pass. */
  function End(a: Arc, processMerge: bool): Option<NodeId> {
    if processMerge then a.target else a.source
  }

  /** The arc list of a node that a pass reduces to one entry: incoming for merge nodes,
      outgoing for decision nodes. */
  function NormList(n: Node, processMerge: bool): seq<ArcId> {
    if processMerge then n.incoming else n.outgoing
  }

  /** A Transition with the flag the pass looks for. */
  predicate Flagged(k: NodeKind, processMerge: bool) {
    k.Transition? && (if processMerge then k.isMerge else k.isDecision)
  }

  /** `targetNode.getName() + "_" + cloneCounter`. */
  function CloneName(name: Option<string>, k: nat): string {
    NameText(name) + "_" + NatToString(k)
  }

  /** The clones of one node get pairwise different names, because their suffixes differ. */
  lemma CloneNameInjective(name: Option<string>, j: nat, k: nat)
    requires CloneName(name, j) == CloneName(name, k)
    ensures j == k
  {
    var p := |NameText(name)| + 1;
    assert NatToString(j) == CloneName(name, j)[p..] == CloneName(name, k)[p..] == NatToString(k);
    NatToStringInjective(j, k);
  }

  /** The guard label of a decision branch, `else` when the arc has none. */
  function GuardName(guard: Option<string>): (r: string)
    ensures guard.Some? ==> r == guard.value
    ensures guard.None? ==> r == "else"
    ensures guard.None? <==> r == "else" && guard != Some("else")
  {
    if guard.Some? then guard.value else "else"
  }

  /** The given ends of the arcs `xs`. */
  function Ends(arcs: seq<Arc>, xs: seq<ArcId>, processMerge: bool): (r: seq<NodeId>)
    requires forall i :: 0 <= i < |xs| ==> xs[i] < |arcs| && End(arcs[xs[i]], processMerge).Some?
    ensures |r| == |xs| && forall i :: 0 <= i < |xs| ==> r[i] == End(arcs[xs[i]], processMerge).value
  {
    if |xs| == 0 then [] else Ends(arcs, xs[..|xs| - 1], processMerge) + [End(arcs[xs[|xs| - 1]], processMerge).value]
  }

  /** `map.put(keys[i], vals[i])` for each `i` in order: a later entry for the same key
      replaces an earlier one. */
  function LastWins(keys: seq<NodeId>, vals: seq<NodeId>): (m: map<NodeId, NodeId>)
    requires |keys| == |vals|
    ensures forall x <- m :: m[x] in vals
  {
    if |keys| == 0 then map[]
    else LastWins(keys[..|keys| - 1], vals[..|vals| - 1])[keys[|keys| - 1] := vals[|vals| - 1]]
  }

  /** The bookkeeping of a splitting loop after `k` relevant arcs: the clone counter, the
      arcs collected for removal, and the map from each key (the far end of a relevant arc) to
      the clone made for its last occurrence, the clones being `vals`. */
  predicate CloneBooks(relevant: seq<ArcId>, keys: seq<NodeId>, vals: seq<NodeId>, c0: nat, k: nat,
                       m: map<NodeId, NodeId>, removed: seq<ArcId>, counter: nat)
  {
    && k <= |relevant| == |keys| == |vals|
    && counter == c0 + k && removed == relevant[..k]
    && m == LastWins(keys[..k], vals[..k])
  }

  /** A turn of a splitting loop: the next clone, the next arc to remove, `put` into the map. */
  lemma CloneBooksStep(relevant: seq<ArcId>, keys: seq<NodeId>, vals: seq<NodeId>, c0: nat, k: nat,
                       m: map<NodeId, NodeId>, removed: seq<ArcId>, counter: nat)
    requires CloneBooks(relevant, keys, vals, c0, k, m, removed, counter) && k < |relevant|
    ensures CloneBooks(relevant, keys, vals, c0, k + 1, m[keys[k] := vals[k]], removed + [relevant[k]], counter + 1)
  {
    assert keys[..k + 1][..k] == keys[..k] && vals[..k + 1][..k] == vals[..k];
    assert relevant[..k + 1] == relevant[..k] + [relevant[k]];
  }

  /** Every key is in the map, bound to the value of its last occurrence. */
  lemma {:induction false} LastWinsLast(keys: seq<NodeId>, vals: seq<NodeId>, k: nat)
    requires |keys| == |vals| && k < |keys|
    requires forall j :: k < j < |keys| ==> keys[j] != keys[k]
    ensures keys[k] in LastWins(keys, vals) && LastWins(keys, vals)[keys[k]] == vals[k]
    decreases |keys|
  {
    var n := |keys| - 1;
    if k < n {
      LastWinsLast(keys[..n], vals[..n], k);
    }
  }

  /** A value whose key occurs again later is overwritten: with distinct values it is gone. */
  lemma {:induction false} LastWinsOverwritten(keys: seq<NodeId>, vals: seq<NodeId>, k: nat, j: nat)
    requires |keys| == |vals| && k < j < |keys| && keys[j] == keys[k]
    requires forall i, i' :: 0 <= i < i' < |vals| ==> vals[i] != vals[i']
    ensures vals[k] !in LastWins(keys, vals).Values
    decreases |keys|
  {
    var n := |keys| - 1;
    if j < n {
      LastWinsOverwritten(keys[..n], vals[..n], k, j);
      LastWinsSnocMissing(keys, vals, vals[k]);
    } else {
      LastWinsShadowed(keys, vals, k);
    }
  }

  /** A value missing before the last binding, and not the last value, stays missing. */
  lemma LastWinsSnocMissing(keys: seq<NodeId>, vals: seq<NodeId>, v: NodeId)
    requires |keys| == |vals| > 0 && v != vals[|vals| - 1]
    requires v !in LastWins(keys[..|keys| - 1], vals[..|vals| - 1]).Values
    ensures v !in LastWins(keys, vals).Values
  {
    var n := |keys| - 1;
    var m, last := LastWins(keys[..n], vals[..n]), LastWins(keys, vals);
    forall x | x in last ensures last[x] != v {
      if x != keys[n] {
        assert last[x] == m[x] && m[x] in m.Values;
      }
    }
  }

  /** The value of an occurrence of the last key before the end is gone once the last key is
      bound again, when the values are distinct. */
  lemma LastWinsShadowed(keys: seq<NodeId>, vals: seq<NodeId>, k: nat)
    requires |keys| == |vals| && k < |keys| - 1 && keys[|keys| - 1] == keys[k]
    requires forall i, i' :: 0 <= i < i' < |vals| ==> vals[i] != vals[i']
    ensures vals[k] !in LastWins(keys, vals).Values
  {
    var n := |keys| - 1;
    var last := LastWins(keys, vals);
    forall x | x in last ensures last[x] != vals[k] {
      if x == keys[n] {
        assert last[x] == vals[n];
      } else {
        LastWinsValueKey(keys, vals, x);
        var i :| 0 <= i < |keys| && keys[i] == x && vals[i] == last[x];
        assert i != k;
      }
    }
  }

  /** The value bound to a key comes from an occurrence of that key. */
  lemma {:induction false} LastWinsValueKey(keys: seq<NodeId>, vals: seq<NodeId>, x: NodeId)
    requires |keys| == |vals| && x in LastWins(keys, vals)
    ensures exists i :: 0 <= i < |keys| && keys[i] == x && vals[i] == LastWins(keys, vals)[x]
    decreases |keys|
  {
    var n := |keys| - 1;
    if x != keys[n] {
      LastWinsValueKey(keys[..n], vals[..n], x);
      var i :| 0 <= i < n && keys[..n][i] == x && vals[..n][i] == LastWins(keys[..n], vals[..n])[x];
      assert keys[i] == x && vals[i] == LastWins(keys, vals)[x];
    }
  }

  /** Iteration over a `HashMap`'s key set or value collection: every element once, in an
      order the program does not control. */
  method Enumerate<T>(s: set<T>) returns (xs: seq<T>)
    ensures forall x :: x in xs <==> x in s
    ensures forall i, j :: 0 <= i < j < |xs| ==> xs[i] != xs[j]
  {
    xs := [];
    var rest := s;
    while rest != {}
      invariant rest <= s
      invariant forall x :: x in xs <==> x in s && x !in rest
      invariant forall i, j :: 0 <= i < j < |xs| ==> xs[i] != xs[j]
      decreases |rest|
    {
      var x :| x in rest;
      xs := xs + [x];
      rest := rest - {x};
    }
  }

  /** The nodes allocated from `n0` on are clones with a single entry in the list the pass
      reduces, or, in the decision pass, guard Places. */
  predicate NewNodesOk(nodes: seq<Node>, n0: nat, processMerge: bool) {
    forall n :: n0 <= n < |nodes| ==>
      || (nodes[n].kind == Transition(processMerge, !processMerge) && |NormList(nodes[n], processMerge)| == 1)
      || (!processMerge && nodes[n].kind == Place(0))
  }

  /** An arc the pass allocated, from the nodes the pass started with (`n0` of them): both ends
      set, each a Place or a node the pass allocated; its other end never carries the flag of
      the other pass, and its relevant end carries this pass's flag only if the pass
      allocated it. */
  predicate NewArcOk(nodes: seq<Node>, arc: Arc, n0: nat, processMerge: bool) {
    && arc.source.Some? && arc.target.Some? && arc.source.value < |nodes| && arc.target.value < |nodes|
    && (n0 <= arc.source.value || nodes[arc.source.value].kind.Place?)
    && (n0 <= arc.target.value || nodes[arc.target.value].kind.Place?)
    && !Flagged(nodes[End(arc, !processMerge).value].kind, !processMerge)
    && (Flagged(nodes[End(arc, processMerge).value].kind, processMerge) ==> n0 <= End(arc, processMerge).value)
  }

  predicate NewArcsOk(nodes: seq<Node>, arcs: seq<Arc>, lo: nat, n0: nat, processMerge: bool) {
    forall a :: lo <= a < |arcs| ==> NewArcOk(nodes, arcs[a], n0, processMerge)
  }

  /** Transitions below `n` are left exactly as they were. */
  predicate TransitionsKept(before: seq<Node>, after: seq<Node>, n: nat) {
    && n <= |before| <= |after|
    && forall m :: 0 <= m < n && before[m].kind.Transition? ==> after[m] == before[m]
  }

  /** `new Transition()`, `setName(name)` and the merge or decision flag. */
  method NewClone(h: Heap, name: string, isMerge: bool) returns (n: NodeId)
    modifies h
    ensures n == |old(h.nodes)| && h.nodes == old(h.nodes) + [Node(Some(name), [], [], Transition(isMerge, !isMerge))]
    ensures h.arcs == old(h.arcs)
    ensures WellFormed(old(h.nodes), old(h.arcs)) ==> WellFormed(h.nodes, h.arcs)
  {
    n := h.NewTransition();
    h.SetNodeName(n, Some(name));
    if isMerge {
      h.SetIsMerge(n, true);
    } else {
      h.SetIsDecision(n, true);
    }
  }

  /** `new Place()` and `setName(name)`. */
  method NewGuardPlace(h: Heap, name: string) returns (n: NodeId)
    modifies h
    ensures n == |old(h.nodes)| && h.nodes == old(h.nodes) + [Node(Some(name), [], [], Place(0))]
    ensures h.arcs == old(h.arcs)
    ensures WellFormed(old(h.nodes), old(h.arcs)) ==> WellFormed(h.nodes, h.arcs)
  {
    n := h.NewPlace();
    h.SetNodeName(n, Some(name));
  }

  /** `new Arc()`, `setSource(s)`, `setTarget(t)` and `setName(name)`. */
  method LinkNewArc(h: Heap, s: NodeId, t: NodeId, name: string) returns (a: ArcId)
    requires s < |h.nodes| && t < |h.nodes|
    modifies h
    ensures a == |old(h.arcs)| && h.arcs == old(h.arcs) + [Arc(Some(name), 1, None, Some(s), Some(t))]
    ensures h.nodes == LinkNodes(old(h.nodes), a, s, t)
    ensures WellFormed(old(h.nodes), old(h.arcs)) && Alternates(old(h.nodes)[s].kind, old(h.nodes)[t].kind)
            ==> WellFormed(h.nodes, h.arcs)
  {
    a := h.NewArc();
    Connect(h, a, s, t);
    h.SetArcName(a, Some(name));
  }

  /** The copy of a shared arc for one clone: from the far end into the clone (decision pass)
      or from the clone to the far end (merge pass), named by generated id `k`. */
  function FanArc(far: NodeId, clone: NodeId, k: nat, intoClones: bool): Arc {
    if intoClones then Arc(Some(GeneratedId(k)), 1, None, Some(far), Some(clone))
    else Arc(Some(GeneratedId(k)), 1, None, Some(clone), Some(far))
  }

  /** The copies of one shared arc, one per clone in `clones` order, with ids from `k` on. */
  function RowArcs(far: NodeId, clones: seq<NodeId>, k: nat, intoClones: bool): (r: seq<Arc>)
    ensures |r| == |clones|
  {
    if |clones| == 0 then []
    else RowArcs(far, clones[..|clones| - 1], k, intoClones) + [FanArc(far, clones[|clones| - 1], k + |clones| - 1, intoClones)]
  }

  /** The copies of every shared arc, whose far ends are `fars`, row after row. */
  function FanArcs(fars: seq<NodeId>, clones: seq<NodeId>, k: nat, intoClones: bool): (r: seq<Arc>)
    ensures |r| == |fars| * |clones|
  {
    if |fars| == 0 then []
    else FanArcs(fars[..|fars| - 1], clones, k, intoClones)
         + RowArcs(fars[|fars| - 1], clones, k + (|fars| - 1) * |clones|, intoClones)
  }

  /** Copies between Places `fars` and Transitions `clones` allocated from `n0` on. */
  predicate FanEnds(nodes: seq<Node>, fars: seq<NodeId>, clones: seq<NodeId>, n0: nat) {
    && n0 <= |nodes|
    && (forall i :: 0 <= i < |fars| ==> fars[i] < |nodes| && nodes[fars[i]].kind.Place?)
    && (forall i :: 0 <= i < |clones| ==> n0 <= clones[i] < |nodes| && nodes[clones[i]].kind.Transition?)
  }

  /** What adding copies leaves alone: the number of nodes, every name and kind, every list
      prefix, and every Transition allocated before `n0`. */
  predicate FanFrame(before: seq<Node>, after: seq<Node>, n0: nat) {
    |after| == |before| && NodesGrown(before, after) && TransitionsKept(before, after, n0)
  }

  /** Copies leave the list a pass reduces alone on every Transition allocated from `n0` on:
      a clone gains copies only on its other side. */
  predicate CloneListsKept(before: seq<Node>, after: seq<Node>, n0: nat, intoClones: bool)
    requires |before| <= |after|
  {
    forall n :: n0 <= n < |before| && before[n].kind.Transition? ==>
      NormList(after[n], !intoClones) == NormList(before[n], !intoClones)
  }

  lemma CloneListsKeptTransitive(a: seq<Node>, b: seq<Node>, c: seq<Node>, n0: nat, intoClones: bool)
    requires NodesGrown(a, b) && NodesGrown(b, c)
    requires CloneListsKept(a, b, n0, intoClones) && CloneListsKept(b, c, n0, intoClones)
    ensures CloneListsKept(a, c, n0, intoClones)
  {
    forall n | n0 <= n < |a| && a[n].kind.Transition?
      ensures NormList(c[n], !intoClones) == NormList(a[n], !intoClones)
    {
      assert b[n].kind == a[n].kind;
    }
  }

  /** The arc joins one of `fars` and one of `clones`, in the direction of the copies. */
  predicate Between(arc: Arc, fars: seq<NodeId>, clones: seq<NodeId>, intoClones: bool) {
    && arc.source.Some? && arc.target.Some?
    && if intoClones then arc.source.value in fars && arc.target.value in clones
       else arc.source.value in clones && arc.target.value in fars
  }

  /** The copies of one row join its far end and a clone. */
  lemma {:induction false} RowBetween(far: NodeId, clones: seq<NodeId>, k: nat, intoClones: bool)
    ensures forall a :: 0 <= a < |clones| ==> Between(RowArcs(far, clones, k, intoClones)[a], [far], clones, intoClones)
    decreases |clones|
  {
    if |clones| > 0 {
      var j := |clones| - 1;
      var init := clones[..j];
      RowBetween(far, init, k, intoClones);
      var r := RowArcs(far, clones, k, intoClones);
      forall a | 0 <= a < |clones| ensures Between(r[a], [far], clones, intoClones) {
        if a < j {
          assert r[a] == RowArcs(far, init, k, intoClones)[a];
          assert Between(r[a], [far], init, intoClones);
          assert forall c :: c in init ==> c in clones;
        } else {
          assert clones[j] in clones;
        }
      }
    }
  }

  /** Every copy joins one of the far ends and a clone. */
  lemma {:induction false} FanBetween(fars: seq<NodeId>, clones: seq<NodeId>, k: nat, intoClones: bool)
    ensures forall a :: 0 <= a < |fars| * |clones| ==> Between(FanArcs(fars, clones, k, intoClones)[a], fars, clones, intoClones)
    decreases |fars|
  {
    if |fars| > 0 {
      var j := |fars| - 1;
      var init := fars[..j];
      var k' := k + j * |clones|;
      FanBetween(init, clones, k, intoClones);
      RowBetween(fars[j], clones, k', intoClones);
      var r := FanArcs(fars, clones, k, intoClones);
      assert r == FanArcs(init, clones, k, intoClones) + RowArcs(fars[j], clones, k', intoClones);
      assert |FanArcs(init, clones, k, intoClones)| == j * |clones|;
      forall a | 0 <= a < |r| ensures Between(r[a], fars, clones, intoClones) {
        if a < j * |clones| {
          assert Between(r[a], init, clones, intoClones);
          assert forall f :: f in init ==> f in fars;
        } else {
          assert r[a] == RowArcs(fars[j], clones, k', intoClones)[a - j * |clones|];
          assert fars[j] in fars;
        }
      }
    }
  }

  /** The ends of one row stay a Place and Transitions while the lists grow. */
  lemma FanEndsRow(nodes0: seq<Node>, nodes: seq<Node>, fars: seq<NodeId>, clones: seq<NodeId>, n0: nat, j: nat)
    requires FanEnds(nodes0, fars, clones, n0) && FanFrame(nodes0, nodes, n0) && j < |fars|
    ensures FanEnds(nodes, [fars[j]], clones, n0)
  {
    forall i | 0 <= i < |clones| ensures nodes[clones[i]].kind.Transition? {
      assert nodes0[clones[i]].kind.Transition?;
    }
  }

  /** The ends of one copy. */
  lemma FanEndsOne(nodes: seq<Node>, far: NodeId, clones: seq<NodeId>, n0: nat, i: nat)
    requires FanEnds(nodes, [far], clones, n0) && i < |clones|
    ensures FanEnds(nodes, [far], [clones[i]], n0)
  {
  }

  /** A row of copies grows by one copy per clone. */
  lemma RowArcsSnoc(arcs0: seq<Arc>, far: NodeId, clones: seq<NodeId>, i: nat, k: nat, intoClones: bool)
    requires i < |clones|
    ensures arcs0 + RowArcs(far, clones[..i + 1], k, intoClones)
         == arcs0 + RowArcs(far, clones[..i], k, intoClones) + [FanArc(far, clones[i], k + i, intoClones)]
  {
    assert clones[..i + 1][..i] == clones[..i];
  }

  /** The copies grow by one row per shared arc. */
  lemma FanArcsSnoc(arcs0: seq<Arc>, fars: seq<NodeId>, clones: seq<NodeId>, j: nat, k: nat, intoClones: bool)
    requires j < |fars|
    ensures arcs0 + FanArcs(fars[..j + 1], clones, k, intoClones)
         == arcs0 + FanArcs(fars[..j], clones, k, intoClones) + RowArcs(fars[j], clones, k + j * |clones|, intoClones)
  {
    var f := fars[..j + 1];
    assert |f| - 1 == j && f[..|f| - 1] == fars[..j] && f[|f| - 1] == fars[j];
    var pre, row := FanArcs(fars[..j], clones, k, intoClones), RowArcs(fars[j], clones, k + j * |clones|, intoClones);
    assert FanArcs(f, clones, k, intoClones) == pre + row;
    assert arcs0 + (pre + row) == arcs0 + pre + row;
  }

  /** Appending an arc whose ends are set, between a Place and a Transition, and listing it at
      both ends keeps the arena well-formed. */
  lemma AppendLinkedPreservesWellFormed(nodes: seq<Node>, arcs: seq<Arc>, arc: Arc)
    requires WellFormed(nodes, arcs)
    requires arc.source.Some? && arc.target.Some? && arc.source.value < |nodes| && arc.target.value < |nodes|
    requires Alternates(nodes[arc.source.value].kind, nodes[arc.target.value].kind)
    ensures WellFormed(LinkNodes(nodes, |arcs|, arc.source.value, arc.target.value), arcs + [arc])
  {
    var bare := arc.(source := None, target := None);
    AllocArcPreservesWellFormed(nodes, arcs, bare);
    LinkPreservesWellFormed(nodes, arcs + [bare], |arcs|, arc.source.value, arc.target.value);
    assert (arcs + [bare])[|arcs| := bare.(source := arc.source, target := arc.target)] == arcs + [arc];
  }

  /** One copy of a shared arc for one clone, named by a new generated id. */
  method FanOne(h: Heap, ids: IdGenerator, c: NodeId, far: NodeId, intoClones: bool, ghost n0: nat) returns (a: ArcId)
    requires WellFormed(h.nodes, h.arcs) && ids.Valid() && FanEnds(h.nodes, [far], [c], n0)
    modifies h, ids
    ensures WellFormed(h.nodes, h.arcs) && FanFrame(old(h.nodes), h.nodes, n0)
    ensures ids.Valid() && ids.idCounter == old(ids.idCounter) + 1
    ensures a == |old(h.arcs)| && h.arcs == old(h.arcs) + [FanArc(far, c, old(ids.idCounter), intoClones)]
    ensures CloneListsKept(old(h.nodes), h.nodes, n0, intoClones)
  {
    assert [far][0] == far && [c][0] == c;
    var id := ids.GenerateXmlSafeId();
    if intoClones {
      a := LinkNewArc(h, far, c, id);
    } else {
      a := LinkNewArc(h, c, far, id);
    }
  }

  /** The inner loop over `sourceToClone.values()` or `targetToClone.values()`: one copy of a
      shared arc per clone, each named by a new generated id. */
  method FanRow(h: Heap, ids: IdGenerator, clones: seq<NodeId>, far: NodeId, intoClones: bool, ghost n0: nat)
    requires WellFormed(h.nodes, h.arcs) && ids.Valid() && FanEnds(h.nodes, [far], clones, n0)
    modifies h, ids
    ensures WellFormed(h.nodes, h.arcs) && FanFrame(old(h.nodes), h.nodes, n0)
    ensures ids.Valid() && ids.idCounter == old(ids.idCounter) + |clones|
    ensures h.arcs == old(h.arcs) + RowArcs(far, clones, old(ids.idCounter), intoClones)
    ensures CloneListsKept(old(h.nodes), h.nodes, n0, intoClones)
  {
    ghost var nodes0, arcs0, k0 := h.nodes, h.arcs, ids.idCounter;
    for i := 0 to |clones|
      invariant WellFormed(h.nodes, h.arcs) && FanFrame(nodes0, h.nodes, n0)
      invariant CloneListsKept(nodes0, h.nodes, n0, intoClones)
      invariant ids.Valid() && ids.idCounter == k0 + i
      invariant h.arcs == arcs0 + RowArcs(far, clones[..i], k0, intoClones)
    {
      RowArcsSnoc(arcs0, far, clones, i, k0, intoClones);
      ghost var before := h.nodes;
      FanEndsRow(nodes0, before, [far], clones, n0, 0);
      FanEndsOne(before, far, clones, n0, i);
      var _ := FanOne(h, ids, clones[i], far, intoClones, n0);
      NodesGrownTransitive(nodes0, before, h.nodes);
      CloneListsKeptTransitive(nodes0, before, h.nodes, n0, intoClones);
    }
    assert clones[..|clones|] == clones;
  }

  /** The state after copying the first `j` shared arcs, whose far ends are `fars`. */
  predicate FanState(nodes0: seq<Node>, arcs0: seq<Arc>, k0: nat, fars: seq<NodeId>, clones: seq<NodeId>,
                     intoClones: bool, n0: nat, j: nat, nodes: seq<Node>, arcs: seq<Arc>, counter: int)
  {
    && j <= |fars| && FanEnds(nodes0, fars, clones, n0)
    && WellFormed(nodes, arcs) && FanFrame(nodes0, nodes, n0) && CloneListsKept(nodes0, nodes, n0, intoClones)
    && arcs == arcs0 + FanArcs(fars[..j], clones, k0, intoClones)
    && counter == k0 + j * |clones|
  }

  /** One turn of the loop over the shared arcs: the copies of shared arc `j`. */
  method FanStep(h: Heap, ids: IdGenerator, clones: seq<NodeId>, shared: seq<ArcId>, intoClones: bool, ghost n0: nat, j: nat,
                 ghost nodes0: seq<Node>, ghost arcs0: seq<Arc>, ghost k0: nat)
    requires forall i :: 0 <= i < |shared| ==> shared[i] < |arcs0| && End(arcs0[shared[i]], !intoClones).Some?
    requires j < |shared| && ids.Valid()
    requires FanState(nodes0, arcs0, k0, Ends(arcs0, shared, !intoClones), clones, intoClones, n0, j, h.nodes, h.arcs, ids.idCounter)
    modifies h, ids
    ensures ids.Valid()
    ensures FanState(nodes0, arcs0, k0, Ends(arcs0, shared, !intoClones), clones, intoClones, n0, j + 1, h.nodes, h.arcs, ids.idCounter)
  {
    ghost var fars := Ends(arcs0, shared, !intoClones);
    FanArcsSnoc(arcs0, fars, clones, j, k0, intoClones);
    assert h.arcs[shared[j]] == arcs0[shared[j]];
    var far := End(h.arcs[shared[j]], !intoClones).value;
    ghost var before := h.nodes;
    FanEndsRow(nodes0, before, fars, clones, n0, j);
    FanRow(h, ids, clones, far, intoClones, n0);
    NodesGrownTransitive(nodes0, before, h.nodes);
    CloneListsKeptTransitive(nodes0, before, h.nodes, n0, intoClones);
    assert (j + 1) * |clones| == j * |clones| + |clones|;
  }

  /** The loop over the shared arcs of the node being split (`getOutgoingArcs()` of a merge
      node, `getIncomingArcs()` of a decision node): for each, a copy per clone, and the shared
      arc itself is collected for removal. */
  method Fan(h: Heap, ids: IdGenerator, clones: seq<NodeId>, shared: seq<ArcId>, intoClones: bool, ghost n0: nat)
    returns (removed: seq<ArcId>)
    requires WellFormed(h.nodes, h.arcs) && ids.Valid()
    requires forall i :: 0 <= i < |shared| ==> shared[i] < |h.arcs| && End(h.arcs[shared[i]], !intoClones).Some?
    requires FanEnds(h.nodes, Ends(h.arcs, shared, !intoClones), clones, n0)
    modifies h, ids
    ensures WellFormed(h.nodes, h.arcs) && FanFrame(old(h.nodes), h.nodes, n0)
    ensures ids.Valid() && ids.idCounter == old(ids.idCounter) + |shared| * |clones|
    ensures h.arcs == old(h.arcs) + FanArcs(Ends(old(h.arcs), shared, !intoClones), clones, old(ids.idCounter), intoClones)
    ensures CloneListsKept(old(h.nodes), h.nodes, n0, intoClones)
    ensures removed == shared
  {
    ghost var nodes0, arcs0, k0 := h.nodes, h.arcs, ids.idCounter;
    ghost var fars := Ends(arcs0, shared, !intoClones);
    removed := [];
    for j := 0 to |shared|
      invariant ids.Valid() && FanState(nodes0, arcs0, k0, fars, clones, intoClones, n0, j, h.nodes, h.arcs, ids.idCounter)
      invariant removed == shared[..j]
    {
      FanStep(h, ids, clones, shared, intoClones, n0, j, nodes0, arcs0, k0);
      removed := removed + [shared[j]];
    }
    assert fars[..|shared|] == fars;
  }

  /** The arcs `xs` have the same ends in an arena that only grew at the end. */
  lemma EndsPrefix(arcs: seq<Arc>, arcs': seq<Arc>, xs: seq<ArcId>, processMerge: bool)
    requires |arcs| <= |arcs'| && arcs'[..|arcs|] == arcs
    requires forall i :: 0 <= i < |xs| ==> xs[i] < |arcs| && End(arcs[xs[i]], processMerge).Some?
    ensures Ends(arcs', xs, processMerge) == Ends(arcs, xs, processMerge)
  {
    forall i | 0 <= i < |xs| ensures arcs'[xs[i]] == arcs[xs[i]] {
      assert arcs'[..|arcs|][xs[i]] == arcs'[xs[i]];
    }
  }

  /** Far ends that are Places stay Places while the arena grows. */
  lemma FanEndsGrown(nodes1: seq<Node>, nodes: seq<Node>, fars: seq<NodeId>, clones: seq<NodeId>)
    requires NodesGrown(nodes1, nodes)
    requires forall i :: 0 <= i < |fars| ==> fars[i] < |nodes1| && nodes1[fars[i]].kind.Place?
    requires forall i :: 0 <= i < |clones| ==> |nodes1| <= clones[i] < |nodes| && nodes[clones[i]].kind.Transition?
    ensures FanEnds(nodes, fars, clones, |nodes1|)
  {
    forall i | 0 <= i < |fars| ensures nodes[fars[i]].kind.Place? {
      assert nodes[fars[i]].kind == nodes1[fars[i]].kind;
    }
  }

  /** `TransitionsKept` composes. */
  lemma TransitionsKeptTransitive(a: seq<Node>, b: seq<Node>, c: seq<Node>, n: nat)
    requires TransitionsKept(a, b, n) && TransitionsKept(b, c, n)
    ensures TransitionsKept(a, c, n)
  {
  }
}
