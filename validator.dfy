/** `PetrinetValidator.validateArc_ArcTypeConstraint`: an arc must lead from a Place to a
    Transition or from a Transition to a Place. Only the constraint itself is modelled; the
    metamodel's generic EMF checks that run before it are not. */
module Validator {
  import opened Wrappers
  import opened PetriNetModel

  /** An error diagnostic raised by the constraint, with its message. */
  datatype Diagnostic = Diagnostic(constraint: string, message: string)

  const PlaceMessage := "Arc from Place to non-Transition is not allowed"
  const TransitionMessage := "Arc from Transition to non-Place is not allowed"

  /** The constraint on an arc whose endpoints have the given kinds (None for a null
      endpoint). Returns the verdict and the diagnostic chain after the call; `None` stands for
      a null chain, to which nothing is added. */
  function ValidateArcTypeConstraint(source: Option<NodeKind>, target: Option<NodeKind>,
                                     diagnostics: Option<seq<Diagnostic>>): (r: (bool, Option<seq<Diagnostic>>))
    // a Place source is valid exactly when the target is a Transition
    ensures source.Some? && source.value.Place? ==> (r.0 <==> target.Some? && target.value.Transition?)
    // a Transition source is valid exactly when the target is a Place
    ensures source.Some? && source.value.Transition? ==> (r.0 <==> target.Some? && target.value.Place?)
    // a null source is accepted whatever the target
    ensures source.None? ==> r.0
    // a null chain stays null; otherwise exactly one diagnostic is appended when invalid
    ensures diagnostics.None? <==> r.1.None?
    ensures diagnostics.Some? ==>
              && |r.1.value| == |diagnostics.value| + (if r.0 then 0 else 1)
              && r.1.value[..|diagnostics.value|] == diagnostics.value
    ensures diagnostics.Some? && !r.0 ==>
              r.1.value[|diagnostics.value|] ==
                Diagnostic("ArcTypeConstraint", if source.value.Place? then PlaceMessage else TransitionMessage)
  {
    match source
    case Some(Place(_)) =>
      if target.Some? && target.value.Transition? then (true, diagnostics)
      else (false, if diagnostics.Some? then Some(diagnostics.value + [Diagnostic("ArcTypeConstraint", PlaceMessage)]) else None)
    case Some(Transition(_, _)) =>
      if target.Some? && target.value.Place? then (true, diagnostics)
      else (false, if diagnostics.Some? then Some(diagnostics.value + [Diagnostic("ArcTypeConstraint", TransitionMessage)]) else None)
    case None => (true, diagnostics)
  }

  /** The verdict of the constraint on an arc of the arena. */
  function ArcKinds(nodes: seq<Node>, a: Arc): (r: (Option<NodeKind>, Option<NodeKind>))
    requires ArcInRange(nodes, a)
    ensures r.0.Some? <==> a.source.Some?
    ensures r.1.Some? <==> a.target.Some?
  {
    (if a.source.Some? then Some(nodes[a.source.value].kind) else None,
     if a.target.Some? then Some(nodes[a.target.value].kind) else None)
  }

  /** A bipartite net passes the constraint on every arc, and adds no diagnostic. */
  lemma {:induction false} BipartiteNetIsValid(nodes: seq<Node>, arcs: seq<Arc>, netArcs: seq<ArcId>,
                                               diagnostics: Option<seq<Diagnostic>>)
    requires Bipartite(nodes, arcs, netArcs)
    ensures forall i :: 0 <= i < |netArcs| ==>
              var k := ArcKinds(nodes, arcs[netArcs[i]]);
              ValidateArcTypeConstraint(k.0, k.1, diagnostics) == (true, diagnostics)
  {
    forall i | 0 <= i < |netArcs|
      ensures var k := ArcKinds(nodes, arcs[netArcs[i]]);
              ValidateArcTypeConstraint(k.0, k.1, diagnostics) == (true, diagnostics)
    {
      var a := arcs[netArcs[i]];
      assert Alternates(nodes[a.source.value].kind, nodes[a.target.value].kind);
    }
  }

  /** Conversely, an arc with both endpoints set that passes the constraint alternates. */
  lemma ValidArcAlternates(nodes: seq<Node>, a: Arc)
    requires ArcInRange(nodes, a) && a.source.Some? && a.target.Some?
    requires ValidateArcTypeConstraint(ArcKinds(nodes, a).0, ArcKinds(nodes, a).1, None).0
    ensures Alternates(nodes[a.source.value].kind, nodes[a.target.value].kind)
  {
  }
}
