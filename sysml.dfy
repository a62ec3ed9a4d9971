/** The SysML input as the transformation sees it, after the front end has resolved every
    reference: the behaviour's owned elements and its owned memberships. */
module SysML {
  import opened Wrappers

  /** A resolved flow endpoint: the referenced element's name, and whether that element is a
      `DecisionNode` (the only property of an endpoint element the transformation inspects). */
  datatype Endpoint = Endpoint(name: string, isDecisionNode: bool)

  datatype ElementKind =
    | ForkNode
    | JoinNode
    | MergeNode
    | DecisionNode
      /** any other `ActionUsage` that is not a `TransitionUsage` */
    | ActionUsage
      /** `succession.getSource()` / `getTarget()`: the lists of end elements, in order, each
          possibly null (None); only the first of each is used */
    | SuccessionAsUsage(sources: seq<Option<Endpoint>>, targets: seq<Option<Endpoint>>)
      /** `getSource()` / `getTarget()`, and the referent name of the first
          `TransitionFeatureMembership`, if any */
    | TransitionUsage(source: Option<Endpoint>, target: Option<Endpoint>, guard: Option<string>)
      /** attributes, literals and everything else the transformation ignores */
    | OtherElement

  datatype Element = Element(name: string, kind: ElementKind)

  /** The behaviour (`rootAction`): its name, owned elements in order, and owned memberships,
      each given by its member element (None for a null membership or member element). */
  datatype Behavior = Behavior(name: string, ownedElements: seq<Element>, ownedMemberships: seq<Option<Element>>)

  /** A succession one of whose end lists is empty: `getFirst()` on it throws
      `NoSuchElementException`. */
  predicate MissingEnd(e: Element) {
    e.kind.SuccessionAsUsage? && (|e.kind.sources| == 0 || |e.kind.targets| == 0)
  }

  /** The resolved endpoints of a succession or transition usage, when both are non-null: the
      first of each end list of a succession, the two ends of a transition usage. */
  function FlowEnds(e: Element): (r: Option<(Endpoint, Endpoint)>)
    ensures MissingEnd(e) ==> r.None?
    ensures e.kind.SuccessionAsUsage? ==>
              (r.Some? <==> !MissingEnd(e) && e.kind.sources[0].Some? && e.kind.targets[0].Some?)
    ensures e.kind.SuccessionAsUsage? && r.Some? ==> r.value == (e.kind.sources[0].value, e.kind.targets[0].value)
    ensures e.kind.TransitionUsage? ==> (r.Some? <==> e.kind.source.Some? && e.kind.target.Some?)
    ensures e.kind.TransitionUsage? && r.Some? ==> r.value == (e.kind.source.value, e.kind.target.value)
    ensures !e.kind.SuccessionAsUsage? && !e.kind.TransitionUsage? ==> r.None?
  {
    match e.kind
    case SuccessionAsUsage(sources, targets) =>
      if |sources| == 0 || |targets| == 0 then None
      else if sources[0].Some? && targets[0].Some? then Some((sources[0].value, targets[0].value))
      else None
    case TransitionUsage(Some(s), Some(t), _) => Some((s, t))
    case _ => None
  }
}
