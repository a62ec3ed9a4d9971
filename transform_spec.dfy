/** A reference definition of what `Transformer.transform` decides before it normalises the
    net: which error it throws, if any, and which names it registers along the way. The
    imperative stages in `TransformerBuild` are proved to agree with it. */
module TransformSpec {
  import opened Wrappers
  import opened SysML
  import opened PetriNetModel

  /** The exceptions `transform` throws. `ClassCastFailure` is the `ClassCastException` of
      casting a succession that leaves a `DecisionNode` to `TransitionUsage`; `MissingFlowEnd`
      is the `NoSuchElementException` of taking the first end of a succession with none (it
      carries no message; `Message` gives its class name). */
  datatype TransformError =
    | NoStartElement
    | DuplicateNodeName
    | SourceOrTargetNotFound
    | NoDoneElement
    | ClassCastFailure
    | MissingFlowEnd

  function Message(e: TransformError): string {
    match e
    case NoStartElement => "No start element found!"
    case DuplicateNodeName => "Duplicate node name found!"
    case SourceOrTargetNotFound => "Source or target node not found"
    case NoDoneElement => "No done element found!"
    case ClassCastFailure => "SuccessionAsUsage cannot be cast to TransitionUsage"
    case MissingFlowEnd => "NoSuchElementException"
  }

  predicate IsStart(m: Option<Element>) {
    m.Some? && m.value.name == "start"
  }

  /** The member element of the first owned membership named `start`. */
  function FindStart(ms: seq<Option<Element>>): (r: Option<Element>)
    ensures r.None? <==> forall i :: 0 <= i < |ms| ==> !IsStart(ms[i])
    ensures r.Some? ==> r.value.name == "start" && Some(r.value) in ms
    ensures r.Some? ==> exists i :: 0 <= i < |ms| && ms[i] == r && forall j :: 0 <= j < i ==> !IsStart(ms[j])
  {
    if |ms| == 0 then None
    else if IsStart(ms[0]) then ms[0]
    else FindStart(ms[1..])
  }

  /** The Petri-net node an element becomes in the first loop of `transform`, if any. */
  function NodeKindOf(e: Element): Option<NodeKind> {
    match e.kind
    case ForkNode => Some(Transition(false, false))
    case JoinNode => Some(Transition(false, false))
    case MergeNode => Some(Transition(true, false))
    case DecisionNode => Some(Transition(false, true))
    case ActionUsage => Some(Place(if e.name == "start" then 1 else 0))
    case _ => None
  }

  /** The elements that become nodes, in element order. */
  function NodeElements(es: seq<Element>): (r: seq<Element>)
    ensures |r| <= |es|
    ensures forall j :: 0 <= j < |r| ==> NodeKindOf(r[j]).Some?
  {
    if |es| == 0 then []
    else NodeElements(es[..|es| - 1]) + (if NodeKindOf(es[|es| - 1]).Some? then [es[|es| - 1]] else [])
  }

  /** An element is a node element exactly when it has a node kind. */
  lemma {:induction false} NodeElementsMembers(es: seq<Element>)
    ensures forall x :: x in NodeElements(es) <==> x in es && NodeKindOf(x).Some?
  {
    if |es| > 0 {
      var init := es[..|es| - 1];
      NodeElementsMembers(init);
      assert es == init + [es[|es| - 1]];
    }
  }

  /** Filtering distributes over concatenation, so the node elements keep the order the
      elements have. */
  lemma {:induction false} NodeElementsAppend(a: seq<Element>, b: seq<Element>)
    ensures NodeElements(a + b) == NodeElements(a) + NodeElements(b)
    decreases |b|
  {
    if |b| == 0 {
      assert a + b == a;
    } else {
      var b' := b[..|b| - 1];
      assert (a + b)[..|a + b| - 1] == a + b';
      NodeElementsAppend(a, b');
    }
  }

  /** Filtering a prefix of the elements gives a prefix of the filtered elements. */
  lemma {:induction false} NodeElementsPrefix(es: seq<Element>, k: nat)
    requires k <= |es|
    ensures NodeElements(es[..k]) <= NodeElements(es)
    decreases |es|
  {
    if k == |es| {
      assert es[..k] == es;
    } else {
      var init := es[..|es| - 1];
      assert init[..k] == es[..k];
      NodeElementsPrefix(init, k);
    }
  }

  predicate DistinctNames(es: seq<Element>) {
    forall i, j :: 0 <= i < j < |es| ==> es[i].name != es[j].name
  }

  /** Appending an element under a name not yet used keeps the names distinct. */
  lemma DistinctNamesSnoc(es: seq<Element>, e: Element)
    requires DistinctNames(es) && e.name !in Names(es)
    ensures DistinctNames(es + [e])
  {
    var es' := es + [e];
    forall i, j | 0 <= i < j < |es'| ensures es'[i].name != es'[j].name {
      if j == |es| {
        NamesMember(es, es[i].name);
      }
    }
  }

  /** Two positions of a prefix holding the same name make the names of the whole list
      collide. */
  lemma SharedNameInPrefix(p: seq<Element>, es: seq<Element>, i: nat, j: nat)
    requires p <= es && i < j < |p| && p[i].name == p[j].name
    ensures !DistinctNames(es)
  {
    assert es[i] == p[i] && es[j] == p[j];
  }

  /** The names of `es`. */
  function Names(es: seq<Element>): set<string> {
    if |es| == 0 then {} else Names(es[..|es| - 1]) + {es[|es| - 1].name}
  }

  lemma NamesSnoc(es: seq<Element>, e: Element)
    ensures Names(es + [e]) == Names(es) + {e.name}
  {
    assert (es + [e])[..|es|] == es;
  }

  lemma {:induction false} NamesMember(es: seq<Element>, x: string)
    ensures x in Names(es) <==> exists j :: 0 <= j < |es| && es[j].name == x
  {
    if |es| > 0 {
      var init := es[..|es| - 1];
      NamesMember(init, x);
      if x in Names(init) {
        var j :| 0 <= j < |init| && init[j].name == x;
        assert es[j].name == x;
      }
      if exists j :: 0 <= j < |es| && es[j].name == x {
        var j :| 0 <= j < |es| && es[j].name == x;
        if j < |init| {
          assert init[j].name == x;
        }
      }
    }
  }

  /** The name registry `nodeMap`, abstracted to whether each registered node is a Place. */
  type Registry = map<string, bool>

  /** The registry after the first loop: each node element's name, mapped to whether it is a
      Place. */
  function InitialRegistry(ne: seq<Element>): (reg: Registry)
    requires forall j :: 0 <= j < |ne| ==> NodeKindOf(ne[j]).Some?
    ensures reg.Keys == Names(ne)
  {
    if |ne| == 0 then map[]
    else
      var last := ne[|ne| - 1];
      InitialRegistry(ne[..|ne| - 1])[last.name := NodeKindOf(last).value.Place?]
  }

  lemma InitialRegistrySnoc(ne: seq<Element>, e: Element)
    requires forall j :: 0 <= j < |ne| ==> NodeKindOf(ne[j]).Some?
    requires NodeKindOf(e).Some?
    ensures InitialRegistry(ne + [e]) == InitialRegistry(ne)[e.name := NodeKindOf(e).value.Place?]
  {
    assert (ne + [e])[..|ne|] == ne;
  }

  /** The name given to a node interposed between two nodes of the same kind. */
  function InterposedName(source: string, target: string): string {
    source + "_to_" + target
  }

  /** No interposed node is ever called `done`. */
  lemma InterposedNameNotDone(source: string, target: string)
    ensures InterposedName(source, target) != "done"
  {
    var n := InterposedName(source, target);
    if |source| == 0 {
      assert n[0] == '_';
    } else {
      assert |n| > 4;
    }
  }

  /** One iteration of the arc-building loop, on the registry: the first end of each of a
      succession's end lists, lazy creation of `done`, the endpoint lookup, the guard cast, and the registration of an interposed node. */
  function ArcStep(reg: Registry, e: Element): Result<Registry, TransformError> {
    if MissingEnd(e) then Failure(MissingFlowEnd)
    else match FlowEnds(e)
    case None => Success(reg)
    case Some((s, t)) =>
      var reg1 := if t.name == "done" && "done" !in reg then reg["done" := true] else reg;
      if s.name !in reg1 || t.name !in reg1 then Failure(SourceOrTargetNotFound)
      else if s.isDecisionNode && e.kind.SuccessionAsUsage? then Failure(ClassCastFailure)
      else if reg1[s.name] == reg1[t.name] then Success(reg1[InterposedName(s.name, t.name) := !reg1[s.name]])
      else Success(reg1)
  }

  /** The arc-building loop over all elements: the first failing iteration decides. */
  function ArcFold(reg: Registry, es: seq<Element>): Result<Registry, TransformError> {
    if |es| == 0 then Success(reg)
    else
      match ArcFold(reg, es[..|es| - 1])
      case Failure(err) => Failure(err)
      case Success(r) => ArcStep(r, es[|es| - 1])
  }

  /** The first failing iteration decides: a failure on a prefix is the failure of the whole
      loop. */
  lemma {:induction false} ArcFoldFailurePersists(reg: Registry, es: seq<Element>, k: nat)
    requires k <= |es| && ArcFold(reg, es[..k]).Failure?
    ensures ArcFold(reg, es) == ArcFold(reg, es[..k])
    decreases |es|
  {
    if k < |es| {
      var init := es[..|es| - 1];
      assert init[..k] == es[..k];
      ArcFoldFailurePersists(reg, init, k);
    } else {
      assert es[..k] == es;
    }
  }

  /** A succession with an empty end list anywhere among the elements makes the arc-building
      loop fail, whether with its own `NoSuchElementException` or an earlier error. */
  lemma {:induction false} MissingEndFailsFold(reg: Registry, es: seq<Element>, i: nat)
    requires i < |es| && MissingEnd(es[i])
    ensures ArcFold(reg, es).Failure?
  {
    var p := es[..i + 1];
    assert p[..|p| - 1] == es[..i] && p[|p| - 1] == es[i];
    ArcFoldFailurePersists(reg, es, i + 1);
  }

  /** The owned elements followed by the `start` member, the sequence both loops walk. */
  function StartedElements(b: Behavior): (es: seq<Element>)
    requires FindStart(b.ownedMemberships).Some?
    ensures |es| == |b.ownedElements| + 1 && es[|b.ownedElements|] == FindStart(b.ownedMemberships).value
  {
    b.ownedElements + [FindStart(b.ownedMemberships).value]
  }

  /** The outcome of the two building loops and the check for `done` over the elements `es`:
      None when `transform` goes on to normalise the net. */
  function BuiltOutcome(es: seq<Element>): Option<TransformError> {
    if !DistinctNames(NodeElements(es)) then Some(DuplicateNodeName)
    else
      match ArcFold(InitialRegistry(NodeElements(es)), es)
      case Failure(err) => Some(err)
      case Success(reg) => if "done" in reg then None else Some(NoDoneElement)
  }

  /** Such a succession means the two building loops never hand a net to normalisation. */
  lemma MissingEndNeverBuilds(es: seq<Element>, i: nat)
    requires i < |es| && MissingEnd(es[i])
    ensures BuiltOutcome(es).Some?
  {
    if DistinctNames(NodeElements(es)) {
      MissingEndFailsFold(InitialRegistry(NodeElements(es)), es, i);
    }
  }

  /** The outcome of `transform` before normalisation: None when it goes on to normalise. */
  function ExpectedOutcome(b: Behavior): Option<TransformError> {
    match FindStart(b.ownedMemberships)
    case None => Some(NoStartElement)
    case Some(start) => BuiltOutcome(StartedElements(b))
  }

  predicate TargetsDone(e: Element) {
    FlowEnds(e).Some? && FlowEnds(e).value.1.name == "done"
  }

  /** Arc building registers `done` exactly when it was registered before or some succession
      or transition usage has `done` as its target; a source named `done` does not count. */
  lemma {:induction false} DoneAfterArcFold(reg: Registry, es: seq<Element>)
    requires ArcFold(reg, es).Success?
    ensures "done" in ArcFold(reg, es).value <==>
              "done" in reg || exists i :: 0 <= i < |es| && TargetsDone(es[i])
  {
    if |es| > 0 {
      var init := es[..|es| - 1];
      DoneAfterArcFold(reg, init);
      var r := ArcFold(reg, init).value;
      var e := es[|es| - 1];
      if FlowEnds(e).Some? {
        var (s, t) := FlowEnds(e).value;
        InterposedNameNotDone(s.name, t.name);
      }
      if exists i :: 0 <= i < |init| && TargetsDone(init[i]) {
        var i :| 0 <= i < |init| && TargetsDone(init[i]);
        assert TargetsDone(es[i]);
      }
      if exists i :: 0 <= i < |es| && TargetsDone(es[i]) {
        var i :| 0 <= i < |es| && TargetsDone(es[i]);
        if i < |init| { assert TargetsDone(init[i]); }
      }
    }
  }

  /** A successful arc-building loop never unregisters a name. */
  lemma {:induction false} ArcFoldKeepsKeys(reg: Registry, es: seq<Element>)
    requires ArcFold(reg, es).Success?
    ensures reg.Keys <= ArcFold(reg, es).value.Keys
  {
    if |es| > 0 {
      ArcFoldKeepsKeys(reg, es[..|es| - 1]);
    }
  }

  /** Whenever the transformation gets past its error checks, `done` was either an element
      that became a node or the target of some succession or transition usage. */
  lemma SuccessMeansDoneReferenced(b: Behavior)
    requires ExpectedOutcome(b).None?
    ensures "done" in Names(NodeElements(StartedElements(b))) ||
            exists i :: 0 <= i < |StartedElements(b)| && TargetsDone(StartedElements(b)[i])
  {
    var es := StartedElements(b);
    var ne := NodeElements(es);
    var reg0 := InitialRegistry(ne);
    DoneAfterArcFold(reg0, es);
  }

  /** Two elements that both become nodes under one name make the transformation fail with
      "Duplicate node name found!" (once a `start` member exists). */
  lemma DuplicateNameFails(b: Behavior, i: nat, j: nat)
    requires FindStart(b.ownedMemberships).Some?
    requires var ne := NodeElements(StartedElements(b));
             i < j < |ne| && ne[i].name == ne[j].name
    ensures ExpectedOutcome(b) == Some(DuplicateNodeName)
  {
  }

  /** Without a `start` member, nothing else is looked at. */
  lemma NoStartFails(b: Behavior)
    requires forall m <- b.ownedMemberships :: !IsStart(m)
    ensures ExpectedOutcome(b) == Some(NoStartElement)
  {
  }
}
