# SysML to Petri net: a Dafny model of the transformation core

This project models the core of the SysML-to-Petri-net converter and proves properties of it. That core is `Transformer.transform`, which runs in four steps:

1. It finds the `start` member and appends it to the behaviour's elements.
2. It turns every control node and action into a Transition or a Place, registered by name.
3. It turns every succession and transition usage into arcs. Between two nodes of the same kind it puts a node of the other kind, and it creates `done` lazily.
4. It checks that `done` was registered, then normalises the net with `postProcessNode`: a decision pass, then a merge pass.

The model also covers:

- the in-memory Petri-net classes (`Arc`, `Node`, `Transition`, `PetriNet`);
- the arc-type constraint of `PetrinetValidator`;
- the text `TransformerPNML.saveToPNML` writes, and the output file name it derives.

The model keeps the source's imperative form:

- **Object graph.** The Java objects live in an arena, the class `Heap`. It holds one `Node` and one `Arc` record per object, and an index stands for an object reference. `Heap` has one method per setter. `setSource`/`setTarget` append the arc to the end node's list, exactly as `Arc.java` does.
- **The net.** The class `PetriNet` holds the name and the net's live node and arc lists.
- **Arc-name counter.** The static counter behind `generateXmlSafeId` is the object `IdGenerator`, passed to every method that names an arc.
- **The two loops of `transform`** and the loops of `postProcessNode` are methods with loop invariants.
- **Errors.** The exceptions `transform` throws are the values of `TransformError`.

Reference definitions tie the methods to what the code decides:

- `TransformSpec.ArcStep`, `ArcFold` and `ExpectedOutcome` say which error `transform` throws and which names it registers.
- `TransformerArcs.BuildStep` and `BuildFold` say which nodes, arcs and net arcs the arc loop builds.
- `PostProcess.PassResult` says what one pass leaves.
- `Pnml.Document` says what the writer writes.

The properties proved are these:

- Every arc the transformation leaves joins a Place and a Transition, which is what `validateArc_ArcTypeConstraint` checks.
- After both passes:
  - every merge Transition has at most one incoming net arc;
  - every decision Transition has at most one outgoing net arc;
  - every Place is in the net;
  - every net arc joins two net nodes.
- Arc names from the counter never repeat.
- Each error happens exactly when the reference definition says.
- The writer emits one element per node and per arc, in list order, with the net's names, markings and weights.

Behaviours of the code worth noting; the model follows the code in each:

- A branch with no guard gets no guard while arcs are built. Only the guard Place of a decision clone is named `else` (`Transformer.java:136-138`, `:270-275`).
- A succession that leaves a DecisionNode is cast to `TransitionUsage` (`Transformer.java:271`). The resulting `ClassCastException` is the error `ClassCastFailure`.
- A succession with an empty source or target list throws `NoSuchElementException` from `getFirst()` (`Transformer.java:245-246`) before anything else in its iteration. This is the error `MissingFlowEnd`. A null first end, by contrast, skips the flow.
- Clone suffixes come from one counter shared by the whole pass (`Transformer.java:74`); they do not restart at `_1` for each node.
- When two relevant arcs of a node share their far end, only the last clone for that end receives the fanned-out arcs. This is because `sourceToClone`/`targetToClone` are maps keyed by that end (`Transformer.java:102`, `:154`).
- A clone's branch arc has weight 1; it does not copy the original arc's weight.
- Node names are not forced to be unique:
  - an interposed node replaces any registry entry of the same name;
  - every guard-less branch gets its own Place called `else` and its own arc `arc_else`.
- The `done` check looks at the registry key. A node called `done` that is a Transition also passes it.
- When the root namespace has no members, the code skips building and fails with "No done element found!".
- The normal form proved is "at most one" relevant net arc per flagged Transition. A flagged Transition whose relevant arcs all came from a different pass can have none.
- The PNML writer writes an ISO-8859-1 declaration and no `<page>` element, and a transition is an open/close pair on two lines.
- The arc-name counter is process-wide (static), not per run: `IdGenerator` keeps counting across transformations.

## Model

| member | source | states |
|---|---|---|
| Strings.NatToString | src/main/java/nl/utwente/sysml2petrinet/m2m/Transformer.java:29 | the decimal text of a counter value is non-empty, all digits, and one digit long exactly when the value is below 10 |
| Strings.NatToStringInjective | src/main/java/nl/utwente/sysml2petrinet/m2m/Transformer.java:29 | two counter values with the same decimal text are equal |
| Strings.IntToString | src/main/java/nl/utwente/sysml2petrinet/m2t_direct/TransformerPNML.java:64 | Java's text of an int is non-empty, starts with `-` exactly for negative values, and is the decimal text otherwise |
| Strings.LastIndexOf | src/main/java/nl/utwente/sysml2petrinet/m2t_direct/TransformerPNML.java:43 | the result is -1 or an index holding the character, with no occurrence after it |
| ArcIds.GeneratedId | src/main/java/nl/utwente/sysml2petrinet/m2m/Transformer.java:28-30 | a generated arc name is `arc` followed by a digit |
| ArcIds.GeneratedIdInjective | src/main/java/nl/utwente/sysml2petrinet/m2m/Transformer.java:27-30 | different counter values give different arc names |
| ArcIds.GuardArcNameNotGenerated | src/main/java/nl/utwente/sysml2petrinet/m2m/Transformer.java:142 | a guard arc name `arc_<guard>` never equals a generated name |
| ArcIds.IdGenerator.constructor | src/main/java/nl/utwente/sysml2petrinet/m2m/Transformer.java:27 | the counter starts at 1 and no name has been issued |
| ArcIds.IdGenerator.GenerateXmlSafeId | src/main/java/nl/utwente/sysml2petrinet/m2m/Transformer.java:28-30 | returns `arc<counter>` and increments the counter; the name was never issued before, so generated names never repeat |
| SysML.FlowEnds | src/main/java/nl/utwente/sysml2petrinet/m2m/Transformer.java:241-252 | a succession yields the first element of its source and of its target list when both lists are non-empty and both are non-null; a transition usage yields its two ends when both are non-null; any other element yields none |
| Validator.ValidateArcTypeConstraint | src/main/resources/metamodel/PetriNet/src/petrinet/util/PetrinetValidator.java:165-210 | a Place source is valid iff the target is a Transition; a Transition source is valid iff the target is a Place; a null source is always valid; exactly one diagnostic with the matching message is appended when the arc is invalid and the chain is non-null, none otherwise |
| Validator.ArcKinds | src/main/resources/metamodel/PetriNet/src/petrinet/util/PetrinetValidator.java:169-170 | an arc's end kinds are present exactly when its ends are set |
| Validator.BipartiteNetIsValid | src/main/resources/metamodel/PetriNet/src/petrinet/util/PetrinetValidator.java:165-210 | every arc of a bipartite net passes the constraint and leaves the diagnostics unchanged |
| Validator.ValidArcAlternates | src/main/resources/metamodel/PetriNet/src/petrinet/util/PetrinetValidator.java:173-207 | an arc with both ends set that passes the constraint joins a Place and a Transition |
| PetriNetModel.AppendOutgoing | src/main/java/nl/utwente/sysml2petrinet/PetriNet/Arc.java:33-38 | appending to one node's outgoing list changes nothing else |
| PetriNetModel.AppendIncoming | src/main/java/nl/utwente/sysml2petrinet/PetriNet/Arc.java:44-49 | appending to one node's incoming list changes nothing else |
| PetriNetModel.LinkNodes | src/main/java/nl/utwente/sysml2petrinet/PetriNet/Arc.java:33-49 | linking an arc appends it to the source's outgoing and the target's incoming list and touches no other node |
| PetriNetModel.RemoveAll | src/main/java/nl/utwente/sysml2petrinet/m2m/Transformer.java:175-178 | after `removeAll` an element is in the list iff it was there and is not in the removed set; the list never grows |
| PetriNetModel.RemoveAllAppend | src/main/java/nl/utwente/sysml2petrinet/m2m/Transformer.java:175-178 | removing from a concatenation is removing from each part, so the survivors keep their relative order |
| PetriNetModel.AllocNodePreservesWellFormed | src/main/java/nl/utwente/sysml2petrinet/PetriNet/Node.java:11-14 | a new node with empty arc lists keeps the arena consistent |
| PetriNetModel.AllocArcPreservesWellFormed | src/main/java/nl/utwente/sysml2petrinet/PetriNet/Arc.java:9-11 | a new arc with no ends keeps the arena consistent |
| PetriNetModel.UpdateNodePreservesWellFormed | src/main/java/nl/utwente/sysml2petrinet/PetriNet/Node.java:20-22 | renaming a node or changing its flags or marking keeps the arena consistent |
| PetriNetModel.UpdateArcPreservesWellFormed | src/main/java/nl/utwente/sysml2petrinet/PetriNet/Arc.java:17-27 | changing an arc's name, weight or guard keeps the arena consistent |
| PetriNetModel.LinkPreservesWellFormed | src/main/java/nl/utwente/sysml2petrinet/PetriNet/Arc.java:33-49 | linking a detached arc from a node to one of the other kind keeps every arc alternating and every node's lists consistent with its arcs |
| PetriNetModel.WellFormedBipartite | src/main/resources/metamodel/PetriNet/src/petrinet/util/PetrinetValidator.java:173-207 | in a consistent arena every net arc with both ends set joins a Place and a Transition |
| PetriNetModel.Heap.NewPlace | src/main/java/nl/utwente/sysml2petrinet/m2m/Transformer.java:224 | a new Place has no name, marking 0 and empty arc lists, and nothing else changes |
| PetriNetModel.Heap.NewTransition | src/main/java/nl/utwente/sysml2petrinet/PetriNet/Transition.java:6-10 | a new Transition has both flags false and empty arc lists, and nothing else changes |
| PetriNetModel.Heap.NewArc | src/main/java/nl/utwente/sysml2petrinet/PetriNet/Arc.java:9-11 | a new Arc has weight 1 and no name, guard, source or target |
| PetriNetModel.Heap.SetNodeName | src/main/java/nl/utwente/sysml2petrinet/PetriNet/Node.java:20-22 | only the node's name changes |
| PetriNetModel.Heap.SetInitialMarking | src/main/java/nl/utwente/sysml2petrinet/m2m/Transformer.java:227-229 | only the Place's marking changes |
| PetriNetModel.Heap.SetIsMerge | src/main/java/nl/utwente/sysml2petrinet/PetriNet/Transition.java:15-17 | only `isMerge` changes; `isDecision` may be true at the same time |
| PetriNetModel.Heap.SetIsDecision | src/main/java/nl/utwente/sysml2petrinet/PetriNet/Transition.java:19 | only `isDecision` changes; `isMerge` may be true at the same time |
| PetriNetModel.Heap.SetArcName | src/main/java/nl/utwente/sysml2petrinet/PetriNet/Arc.java:17-19 | only the arc's name changes |
| PetriNetModel.Heap.SetWeight | src/main/java/nl/utwente/sysml2petrinet/PetriNet/Arc.java:25-27 | only the arc's weight changes |
| PetriNetModel.Heap.SetGuard | src/main/java/nl/utwente/sysml2petrinet/m2m/Transformer.java:273 | only the arc's guard changes |
| PetriNetModel.Heap.SetSource | src/main/java/nl/utwente/sysml2petrinet/PetriNet/Arc.java:33-38 | the source field becomes `n`; a non-null `n` gets the arc appended to its outgoing list, even when it was already there or was the previous source; null touches no list |
| PetriNetModel.Heap.SetTarget | src/main/java/nl/utwente/sysml2petrinet/PetriNet/Arc.java:44-49 | the target field becomes `n`; a non-null `n` gets the arc appended to its incoming list; null touches no list |
| PetriNetModel.Connect | src/main/java/nl/utwente/sysml2petrinet/m2m/Transformer.java:305-307 | `setSource` then `setTarget` on a detached arc links it both ways, and keeps the arena consistent when the ends alternate |
| PetriNetModel.PetriNet.constructor | src/main/java/nl/utwente/sysml2petrinet/PetriNet/PetriNet.java:11-14 | a new net has no name and empty node and arc lists |
| PetriNetModel.PetriNet.SetName | src/main/java/nl/utwente/sysml2petrinet/PetriNet/PetriNet.java:20-22 | only the name changes |
| PetriNetModel.PetriNet.AddNode | src/main/java/nl/utwente/sysml2petrinet/PetriNet/PetriNet.java:32-34 | appends exactly one node, with no duplicate check; the arc list is unchanged |
| PetriNetModel.PetriNet.AddArc | src/main/java/nl/utwente/sysml2petrinet/PetriNet/PetriNet.java:36-38 | appends exactly one arc, with no duplicate check; the node list is unchanged |
| PetriNetModel.PetriNet.RemoveArcs | src/main/java/nl/utwente/sysml2petrinet/m2m/Transformer.java:175 | the live arc list loses exactly the removed arcs |
| PetriNetModel.PetriNet.AddArcs | src/main/java/nl/utwente/sysml2petrinet/m2m/Transformer.java:176 | the new arcs are appended after the remaining ones |
| PetriNetModel.PetriNet.RemoveNodes | src/main/java/nl/utwente/sysml2petrinet/m2m/Transformer.java:178 | the live node list loses exactly the removed nodes |
| PetriNetModel.PetriNet.AddNodes | src/main/java/nl/utwente/sysml2petrinet/m2m/Transformer.java:179 | the new nodes are appended after the remaining ones |
| PetriNetModel.NameText | src/main/java/nl/utwente/sysml2petrinet/m2t_direct/TransformerPNML.java:53 | a null name is written as `null`, in the PNML text and in clone names alike |
| TransformSpec.FindStart | src/main/java/nl/utwente/sysml2petrinet/m2m/Transformer.java:196-200 | there is no start exactly when no membership's element is named `start`; otherwise the result is the element of the first such membership |
| TransformSpec.NodeElements | src/main/java/nl/utwente/sysml2petrinet/m2m/Transformer.java:208-237 | the node elements are no more than the elements, and each has a node kind |
| TransformSpec.NodeElementsMembers | src/main/java/nl/utwente/sysml2petrinet/m2m/Transformer.java:208-237 | an element becomes a node exactly when it has a node kind |
| TransformSpec.NodeElementsAppend | src/main/java/nl/utwente/sysml2petrinet/m2m/Transformer.java:208-237 | the node elements of a concatenation are those of each part, in order, so element order is kept |
| TransformSpec.InitialRegistry | src/main/java/nl/utwente/sysml2petrinet/m2m/Transformer.java:218-234 | the registry after the first loop holds exactly the node elements' names |
| TransformSpec.InterposedNameNotDone | src/main/java/nl/utwente/sysml2petrinet/m2m/Transformer.java:280 | no interposed node is ever called `done` |
| TransformSpec.ArcFoldFailurePersists | src/main/java/nl/utwente/sysml2petrinet/m2m/Transformer.java:240-312 | the first failing flow decides the error of the whole arc loop |
| TransformSpec.MissingEndFailsFold | src/main/java/nl/utwente/sysml2petrinet/m2m/Transformer.java:240-246 | a succession with an empty end list anywhere in the elements makes the arc loop fail |
| TransformSpec.MissingEndNeverBuilds | src/main/java/nl/utwente/sysml2petrinet/m2m/Transformer.java:240-246 | such a succession means the building loops never reach normalisation |
| TransformSpec.StartedElements | src/main/java/nl/utwente/sysml2petrinet/m2m/Transformer.java:193-197 | both loops walk the owned elements followed by the start element |
| TransformSpec.DoneAfterArcFold | src/main/java/nl/utwente/sysml2petrinet/m2m/Transformer.java:254-260 | after the arc loop `done` is registered iff it was before or some flow targets `done`; a source named `done` does not count |
| TransformSpec.ArcFoldKeepsKeys | src/main/java/nl/utwente/sysml2petrinet/m2m/Transformer.java:240-312 | the arc loop never unregisters a name |
| TransformSpec.SuccessMeansDoneReferenced | src/main/java/nl/utwente/sysml2petrinet/m2m/Transformer.java:314-316 | a successful build has an element named `done` or a flow targeting `done` |
| TransformSpec.DuplicateNameFails | src/main/java/nl/utwente/sysml2petrinet/m2m/Transformer.java:218-220 | two node elements with one name make the transformation fail with "Duplicate node name found!" |
| TransformSpec.NoStartFails | src/main/java/nl/utwente/sysml2petrinet/m2m/Transformer.java:196-200 | with no `start` membership the transformation fails with "No start element found!" |
| TransformerBuild.NodesBuiltStep | src/main/java/nl/utwente/sysml2petrinet/m2m/Transformer.java:208-236 | registering a fresh name and appending its node keeps the correspondence between elements, nodes, net list and registry |
| TransformerBuild.DuplicateFound | src/main/java/nl/utwente/sysml2petrinet/m2m/Transformer.java:218-220 | an element whose name is already registered means the node elements' names are not distinct |
| TransformerBuild.PrefixCollision | src/main/java/nl/utwente/sysml2petrinet/m2m/Transformer.java:231-233 | a name collision among the elements seen so far is a collision of the whole list |
| TransformerBuild.NewElementNode | src/main/java/nl/utwente/sysml2petrinet/m2m/Transformer.java:209-235 | Fork, Join, Merge and Decision become Transitions, with `isMerge` only for Merge and `isDecision` only for Decision; other actions become Places with marking 1 iff named `start`; each node is named after its element |
| TransformerBuild.BuildNodes | src/main/java/nl/utwente/sysml2petrinet/m2m/Transformer.java:208-237 | fails with "Duplicate node name found!" iff two node elements share a name; otherwise the arena and the net hold one node per node element, in element order, each registered under its name |
| TransformerBuild.InitialMap | src/main/java/nl/utwente/sysml2petrinet/m2m/Transformer.java:221-234 | after the first loop each node element's name is registered, and only those, each pointing at a node element of that name |
| TransformerBuild.NodesBuiltMap | src/main/java/nl/utwente/sysml2petrinet/m2m/Transformer.java:208-237 | after the first loop the registry is exactly `InitialMap` of the node elements |
| TransformerArcs.NewNamedArc | src/main/java/nl/utwente/sysml2petrinet/m2m/Transformer.java:268-269 | appends a weight-1 detached arc named by the next generated id |
| TransformerArcs.AddDoneIfMissing | src/main/java/nl/utwente/sysml2petrinet/m2m/Transformer.java:254-260 | a Place `done` with marking 0 is created, registered and added to the net exactly when the target is `done` and `done` is not registered |
| TransformerArcs.AddInterposedNode | src/main/java/nl/utwente/sysml2petrinet/m2m/Transformer.java:279-282 | a Transition between two Places, or a Place with marking 0 between two Transitions, named `src_to_tgt`, registered without a duplicate check and added to the net |
| TransformerArcs.LinkArc | src/main/java/nl/utwente/sysml2petrinet/m2m/Transformer.java:305-307 | weight 1, then source and target set, and the node lists updated by the setters |
| TransformerArcs.LinkThrough | src/main/java/nl/utwente/sysml2petrinet/m2m/Transformer.java:283-289 | the first arc goes into the interposed node and the second out of it, and the second arc is added to the net before the first |
| TransformerArcs.JoinSameKind | src/main/java/nl/utwente/sysml2petrinet/m2m/Transformer.java:276-303 | two ends of one kind give one interposed node of the other kind and two weight-1 arcs `src→mid` (carrying the guard) and `mid→tgt`, named by consecutive ids |
| TransformerArcs.JoinDirect | src/main/java/nl/utwente/sysml2petrinet/m2m/Transformer.java:304-309 | ends of different kinds give one weight-1 arc `src→tgt` added to the net |
| TransformerArcs.JoinEnds | src/main/java/nl/utwente/sysml2petrinet/m2m/Transformer.java:276-309 | one flow adds the arcs `FlowArcs` defines: a direct arc between ends of different kinds, or an interposed node and two arcs between ends of one kind; the registry gains the interposed name, with the kind opposite to the source's, exactly in the second case |
| TransformerArcs.ArcsFromRegistered | src/main/java/nl/utwente/sysml2petrinet/m2m/Transformer.java:261-309 | fails with "Source or target node not found" iff an end is unregistered, and with a cast failure iff a succession leaves a DecisionNode; the guard is set only on an arc leaving a DecisionNode |
| TransformerArcs.ArcStepUnfold | src/main/java/nl/utwente/sysml2petrinet/m2m/Transformer.java:254-309 | one iteration on the registry is the `done` creation followed by the lookup, the cast and the interposed registration |
| TransformerArcs.ArcsForFlow | src/main/java/nl/utwente/sysml2petrinet/m2m/Transformer.java:241-311 | one iteration fails exactly as `ArcStep` does, with its error, and otherwise leaves the registry `ArcStep` computes and the arcs and nodes `FlowBuilt` describes; other elements change nothing; a succession leaving a DecisionNode never succeeds; on success the new state is `BuildStep` of the old one |
| TransformerArcs.ArcsForEnds | src/main/java/nl/utwente/sysml2petrinet/m2m/Transformer.java:253-309 | for a flow with both ends set, the iteration fails exactly as `ArcStep` does and otherwise builds what `FlowBuilt` and `BuildStep` describe |
| TransformerArcs.JoinSketch | src/main/java/nl/utwente/sysml2petrinet/m2m/Transformer.java:261-309 | the arcs of one flow only append; each new arc is in the net, took one generated id, and joins a Place and a Transition, through an interposed node when the ends have the same kind |
| TransformerArcs.BuildStep | src/main/java/nl/utwente/sysml2petrinet/m2m/Transformer.java:241-311 | one iteration only appends: nodes, arcs and net arcs keep their prefix; every new arc is in the net, took one generated id, and joins a Place and a Transition |
| TransformerArcs.BuildFold | src/main/java/nl/utwente/sysml2petrinet/m2m/Transformer.java:240-312 | the whole loop only appends, every new arc is in the net and took one generated id, and every new arc joins a Place and a Transition |
| TransformerArcs.FlowSketchFromParts | src/main/java/nl/utwente/sysml2petrinet/m2m/Transformer.java:252-309 | the `done` step followed by an iteration that passes the lookup and the cast is exactly `BuildStep` on the names, kinds, arcs, net arcs, registry and counter |
| TransformerArcs.BuildArcs | src/main/java/nl/utwente/sysml2petrinet/m2m/Transformer.java:240-312 | the arc loop fails exactly when `ArcFold` does, with the same error; otherwise it leaves the registry `ArcFold` computes, a consistent arena, and exactly the node names and kinds, arena arcs, net arcs, registry and counter that `BuildFold` builds |
| Transformer.NodesBuiltWellFormed | src/main/java/nl/utwente/sysml2petrinet/m2m/Transformer.java:208-237 | the nodes of the first loop, with no arcs, make a consistent arena |
| Transformer.BuiltSketch | src/main/java/nl/utwente/sysml2petrinet/m2m/Transformer.java:208-312 | what the two building loops make: the node elements' nodes first, in element order, then arcs that each join a Place and a Transition, are all in the net and took one generated id each |
| Transformer.BuiltNormalisable | src/main/java/nl/utwente/sysml2petrinet/m2m/Transformer.java:240-316 | after building, every node is in the net, so every net arc's ends and every Place are |
| Transformer.TwoPasses | src/main/java/nl/utwente/sysml2petrinet/m2m/Transformer.java:317-318 | the decision pass then the merge pass leave a bipartite net in both normal forms |
| Transformer.BuildNet | src/main/java/nl/utwente/sysml2petrinet/m2m/Transformer.java:208-316 | the error of the two loops and the `done` check is the one `BuiltOutcome` predicts; on success the node names and kinds, arena arcs, net arcs and counter are exactly those of `BuiltSketch`, every node is in the net, and `done` is registered |
| Transformer.Normalise | src/main/java/nl/utwente/sysml2petrinet/m2m/Transformer.java:317-318 | the result is the decision pass followed by the merge pass, each as `PassResult` describes; it is bipartite, closed, has every Place in the net, and has at most one relevant net arc per merge and per decision Transition |
| Transformer.Transform | src/main/java/nl/utwente/sysml2petrinet/m2m/Transformer.java:185-319 | the error thrown is exactly the one the reference definition predicts; on success the net is named after the behaviour, is in normal form, and is what the decision pass then the merge pass (`PassResult`) make of a consistent arena whose node names and kinds, arcs and net arcs are exactly those of `BuiltSketch` |
| PostSplit.CloneNameInjective | src/main/java/nl/utwente/sysml2petrinet/m2m/Transformer.java:91 | clones of one node get pairwise different names |
| PostSplit.GuardName | src/main/java/nl/utwente/sysml2petrinet/m2m/Transformer.java:136-138 | the guard Place is named after the guard when there is one and `else` otherwise; a missing guard and a guard literally named `else` give the same name |
| PostSplit.LastWins | src/main/java/nl/utwente/sysml2petrinet/m2m/Transformer.java:102 | the clone map only holds clones that were created |
| PostSplit.LastWinsLast | src/main/java/nl/utwente/sysml2petrinet/m2m/Transformer.java:102 | the clone map holds, for each far end, the clone of its last arc |
| PostSplit.LastWinsOverwritten | src/main/java/nl/utwente/sysml2petrinet/m2m/Transformer.java:102 | a clone whose far end recurs later is not among the map's values, so it gets no fanned-out arcs |
| PostSplit.LastWinsValueKey | src/main/java/nl/utwente/sysml2petrinet/m2m/Transformer.java:154 | every entry of the map comes from one relevant arc and its clone |
| PostSplit.CloneBooksStep | src/main/java/nl/utwente/sysml2petrinet/m2m/Transformer.java:102-103 | one turn puts its clone in the map, collects its arc for removal and advances the clone counter |
| PostSplit.Enumerate | src/main/java/nl/utwente/sysml2petrinet/m2m/Transformer.java:76 | the map's keys are visited once each, in some order |
| PostSplit.NewClone | src/main/java/nl/utwente/sysml2petrinet/m2m/Transformer.java:90-92 | a clone is a Transition with the given name and only the pass's flag set |
| PostSplit.NewGuardPlace | src/main/java/nl/utwente/sysml2petrinet/m2m/Transformer.java:139-140 | a guard Place has the guard's name and marking 0 |
| PostSplit.LinkNewArc | src/main/java/nl/utwente/sysml2petrinet/m2m/Transformer.java:96-99 | a new weight-1 arc with the given name and ends, linked into both ends' lists |
| PostSplit.FanBetween | src/main/java/nl/utwente/sysml2petrinet/m2m/Transformer.java:106-117 | every fanned-out arc joins one far end and one clone, in the pass's direction |
| PostSplit.FanOne | src/main/java/nl/utwente/sysml2petrinet/m2m/Transformer.java:110-114 | one fanned-out arc between a clone and a far end, named by the next id |
| PostSplit.FanRow | src/main/java/nl/utwente/sysml2petrinet/m2m/Transformer.java:109-115 | one far end gets an arc to or from every clone in the map, in the map's order |
| PostSplit.Fan | src/main/java/nl/utwente/sysml2petrinet/m2m/Transformer.java:106-117 | every shared arc is copied once per clone, row by row, and every shared arc is collected for removal |
| MergeSplit.MergeInArcs | src/main/java/nl/utwente/sysml2petrinet/m2m/Transformer.java:96-100 | the k-th clone's incoming arc runs from the k-th original source and is named by the k-th id |
| MergeSplit.MergeClonesStep | src/main/java/nl/utwente/sysml2petrinet/m2m/Transformer.java:88-98 | each merge clone is named `name_c` with consecutive c, has `isMerge` only, and has exactly its one new incoming arc |
| MergeSplit.AddMergeClone | src/main/java/nl/utwente/sysml2petrinet/m2m/Transformer.java:89-100 | one clone appended and one arc from the source into it |
| MergeSplit.CloneMergeInputs | src/main/java/nl/utwente/sysml2petrinet/m2m/Transformer.java:86-104 | one clone and one incoming arc per relevant arc; the map is the last clone per source; all relevant arcs are collected |
| MergeSplit.OutgoingToPlaces | src/main/java/nl/utwente/sysml2petrinet/m2m/Transformer.java:106-107 | every downstream target of a merge Transition is a Place |
| MergeSplit.FanMergeOutputs | src/main/java/nl/utwente/sysml2petrinet/m2m/Transformer.java:106-117 | each downstream arc is copied from every clone in the map and collected for removal |
| MergeSplit.SplitMerge | src/main/java/nl/utwente/sysml2petrinet/m2m/Transformer.java:86-119 | the arcs appended are the clones' incoming arcs, then the fanned-out downstream arcs; the clones are exactly the map's values; all incoming and outgoing arcs are collected; the split node itself is unchanged, so its lists iterated as they were at the start are the live lists |
| DecisionSplit.DecisionArcAt | src/main/java/nl/utwente/sysml2petrinet/m2m/Transformer.java:141-152 | for the k-th branch, the guard arc runs from its guard Place into its clone, and the branch arc from the clone to the original target |
| DecisionSplit.DecisionLinkedWellFormed | src/main/java/nl/utwente/sysml2petrinet/m2m/Transformer.java:139-152 | adding a clone, its guard Place and their two arcs keeps the arena consistent |
| DecisionSplit.DecisionClonesStep | src/main/java/nl/utwente/sysml2petrinet/m2m/Transformer.java:131-146 | each decision clone is named `name_c` with consecutive c, has `isDecision` only and exactly its one branch arc out; its guard Place has marking 0 and the guard's name or `else` |
| DecisionSplit.AddDecisionClone | src/main/java/nl/utwente/sysml2petrinet/m2m/Transformer.java:129-152 | a clone, then its guard Place, then `arc_<guard>` into the clone and a generated-id arc from the clone to the target |
| DecisionSplit.CloneDecisionOutputs | src/main/java/nl/utwente/sysml2petrinet/m2m/Transformer.java:127-156 | one clone, guard Place, guard arc and branch arc per relevant arc; the map is the last clone per target; all relevant arcs are collected |
| DecisionSplit.IncomingFromPlaces | src/main/java/nl/utwente/sysml2petrinet/m2m/Transformer.java:158-159 | every upstream source of a decision Transition is a Place |
| DecisionSplit.SurvivingDecisionClones | src/main/java/nl/utwente/sysml2petrinet/m2m/Transformer.java:161 | every clone in the map is a new decision Transition |
| DecisionSplit.SplitDecision | src/main/java/nl/utwente/sysml2petrinet/m2m/Transformer.java:127-171 | the arcs appended are the guard and branch arcs, then the fanned-out upstream arcs; the clones are exactly the map's values; all outgoing and incoming arcs are collected; the split node itself is unchanged, so its lists iterated as they were at the start are the live lists |
| PostProcess.GroupMembership | src/main/java/nl/utwente/sysml2petrinet/m2m/Transformer.java:51-68 | an arc is grouped under a node iff it is a net arc whose relevant end is that node and the node carries the pass's flag |
| PostProcess.GroupRelevantArcs | src/main/java/nl/utwente/sysml2petrinet/m2m/Transformer.java:47-68 | the loop builds exactly the grouping `Group` defines |
| PostProcess.RemoveStep | src/main/java/nl/utwente/sysml2petrinet/m2m/Transformer.java:103-119 | after splitting one more node, the removal list holds exactly the arcs doomed by the split nodes |
| PostProcess.MergeSplitGrown | src/main/java/nl/utwente/sysml2petrinet/m2m/Transformer.java:86-119 | a merge split only appends clones and arcs that keep the arena consistent and leave old Transitions untouched |
| PostProcess.DecisionSplitGrown | src/main/java/nl/utwente/sysml2petrinet/m2m/Transformer.java:127-171 | a decision split only appends clones, guard Places and arcs that keep the arena consistent and leave old Transitions untouched |
| PostProcess.MergeTurn | src/main/java/nl/utwente/sysml2petrinet/m2m/Transformer.java:86-119 | the collected arcs are the relevant arcs then the outgoing arcs; the clone counter advances by the number of relevant arcs |
| PostProcess.DecisionTurn | src/main/java/nl/utwente/sysml2petrinet/m2m/Transformer.java:127-171 | the collected arcs are the relevant arcs then the incoming arcs; the clone counter advances by the number of relevant arcs |
| PostProcess.PassTurn | src/main/java/nl/utwente/sysml2petrinet/m2m/Transformer.java:76-172 | a node with at most one relevant arc is skipped; otherwise it is split and it and its arcs are collected |
| PostProcess.PassInit | src/main/java/nl/utwente/sysml2petrinet/m2m/Transformer.java:70-74 | the pass starts with empty removal lists |
| PostProcess.PassDone | src/main/java/nl/utwente/sysml2petrinet/m2m/Transformer.java:175-179 | at the end the removal lists are exactly the doomed arcs and the split nodes |
| PostProcess.SplitGrouped | src/main/java/nl/utwente/sysml2petrinet/m2m/Transformer.java:76-173 | the loop over the grouping splits exactly the nodes with more than one relevant arc |
| PostProcess.PostProcessNode | src/main/java/nl/utwente/sysml2petrinet/m2m/Transformer.java:46-182 | the net's arcs are the survivors in order followed by every new arc; its nodes are the unsplit nodes in order followed by every new node; the arena only grows |
| PassProperties.PassPair | src/main/java/nl/utwente/sysml2petrinet/m2m/Transformer.java:46-182 | two net arcs sharing a flagged relevant end after a pass are the same arc |
| PassProperties.PassNormal | src/main/java/nl/utwente/sysml2petrinet/m2m/Transformer.java:46-182 | after a pass every flagged Transition has at most one relevant net arc |
| PassProperties.KeptPair | src/main/java/nl/utwente/sysml2petrinet/m2m/Transformer.java:317-318 | a pass does not give a Transition flagged for the other pass a second relevant net arc |
| PassProperties.PassKeepsNormal | src/main/java/nl/utwente/sysml2petrinet/m2m/Transformer.java:317-318 | a pass keeps the normal form the other pass established |
| PassProperties.SplitIsTransition | src/main/java/nl/utwente/sysml2petrinet/m2m/Transformer.java:57-66 | only Transitions are split |
| PassProperties.NetArcAfterPass | src/main/java/nl/utwente/sysml2petrinet/m2m/Transformer.java:175-179 | every net arc after a pass has both ends set and among the net's nodes |
| PassProperties.PlacesInNetAfterPass | src/main/java/nl/utwente/sysml2petrinet/m2m/Transformer.java:175-179 | every Place, old or new, is in the net after a pass |
| PassProperties.PassKeepsNormalisable | src/main/java/nl/utwente/sysml2petrinet/m2m/Transformer.java:175-179 | the net after a pass can undergo another pass |
| Pnml.Rendered | src/main/java/nl/utwente/sysml2petrinet/m2t_direct/TransformerPNML.java:46-94 | the strings written are the chunks' texts, one per `write` call, in order |
| Pnml.NodeElements | src/main/java/nl/utwente/sysml2petrinet/m2t_direct/TransformerPNML.java:56-77 | one element per node of the net's list, in list order |
| Pnml.ArcElements | src/main/java/nl/utwente/sysml2petrinet/m2t_direct/TransformerPNML.java:79-90 | one element per arc of the net's list, in list order |
| Pnml.Writer.constructor | src/main/java/nl/utwente/sysml2petrinet/m2t_direct/TransformerPNML.java:46 | a new stream holds nothing |
| Pnml.Writer.Write | src/main/java/nl/utwente/sysml2petrinet/m2t_direct/TransformerPNML.java:48 | one `write` call appends one string |
| Pnml.WriteHeader | src/main/java/nl/utwente/sysml2petrinet/m2t_direct/TransformerPNML.java:48-54 | writes the declaration, `<pnml>` and the `<net>` line |
| Pnml.WriteFooter | src/main/java/nl/utwente/sysml2petrinet/m2t_direct/TransformerPNML.java:91-94 | writes `</net>` and `</pnml>` |
| Pnml.WriteMarking | src/main/java/nl/utwente/sysml2petrinet/m2t_direct/TransformerPNML.java:61-68 | writes the marking block only for a positive marking |
| Pnml.WriteNode | src/main/java/nl/utwente/sysml2petrinet/m2t_direct/TransformerPNML.java:57-76 | writes a `<place>` with its marking block or a `<transition>` |
| Pnml.WriteArc | src/main/java/nl/utwente/sysml2petrinet/m2t_direct/TransformerPNML.java:80-89 | writes an `<arc>` with its inscription |
| Pnml.WriteNodes | src/main/java/nl/utwente/sysml2petrinet/m2t_direct/TransformerPNML.java:56-77 | the node loop writes exactly the nodes section |
| Pnml.WriteArcs | src/main/java/nl/utwente/sysml2petrinet/m2t_direct/TransformerPNML.java:79-90 | the arc loop writes exactly the arcs section |
| Pnml.SaveToPnml | src/main/java/nl/utwente/sysml2petrinet/m2t_direct/TransformerPNML.java:46-95 | the whole output is the document of the net: header, nodes, arcs, footer |
| Pnml.NodeElementAt | src/main/java/nl/utwente/sysml2petrinet/m2t_direct/TransformerPNML.java:56-77 | the k-th node's element sits in the nodes section at its place in list order and opens with its kind and name |
| Pnml.ArcElementAt | src/main/java/nl/utwente/sysml2petrinet/m2t_direct/TransformerPNML.java:79-89 | the k-th arc's element opens with its name and its ends' names and carries its weight as the inscription value |
| Pnml.NodesBeforeArcs | src/main/java/nl/utwente/sysml2petrinet/m2t_direct/TransformerPNML.java:55-90 | every node element ends before any arc element begins |
| Pnml.DocumentFrame | src/main/java/nl/utwente/sysml2petrinet/m2t_direct/TransformerPNML.java:48-54 | the document starts with the declaration, `<pnml>` and the `<net>` line with the net's name, and ends with `</net>` and `</pnml>` |
| Pnml.NotMarkingOpenLine | src/main/java/nl/utwente/sysml2petrinet/m2t_direct/TransformerPNML.java:58-70 | no other line of a Place element reads as `<initialMarking>` |
| Pnml.PlaceMarking | src/main/java/nl/utwente/sysml2petrinet/m2t_direct/TransformerPNML.java:61-68 | a Place's text has an `<initialMarking>` line iff its marking is positive, and then a value line with that marking |
| Pnml.IntToStringInjective | src/main/java/nl/utwente/sysml2petrinet/m2t_direct/TransformerPNML.java:64 | different ints are written differently |
| Pnml.MarkingValueInjective | src/main/java/nl/utwente/sysml2petrinet/m2t_direct/TransformerPNML.java:64 | the marking line determines the marking |
| Pnml.InscriptionValueInjective | src/main/java/nl/utwente/sysml2petrinet/m2t_direct/TransformerPNML.java:84 | the inscription line determines the weight |
| Pnml.PlaceOpenInjective | src/main/java/nl/utwente/sysml2petrinet/m2t_direct/TransformerPNML.java:58 | the `<place>` line determines the name |
| Pnml.TransitionOpenInjective | src/main/java/nl/utwente/sysml2petrinet/m2t_direct/TransformerPNML.java:72 | the `<transition>` line determines the name |
| Pnml.PlaceLineIsNotTransitionLine | src/main/java/nl/utwente/sysml2petrinet/m2t_direct/TransformerPNML.java:58-72 | a Place line is never a Transition line |
| Pnml.DropTrailingSlashes | src/main/java/nl/utwente/sysml2petrinet/m2t_direct/TransformerPNML.java:26 | `File` drops trailing separators and nothing else |
| Pnml.BaseName | src/main/java/nl/utwente/sysml2petrinet/m2t_direct/TransformerPNML.java:26 | the base name is the part after the last `/`, with no `/` in it |
| Pnml.OutputFileName | src/main/java/nl/utwente/sysml2petrinet/m2t_direct/TransformerPNML.java:43-44 | the output name is the base name up to its last `.` plus `.pnml`; a base name without `.` is an error, as `substring(0, -1)` throws |

## Left out

- `Transformer.saveToXMI` (EMF resources, the `Diagnostician` chain, the file save) and all log4j logging: foreign-library I/O.
- The SysML API calls: ownership, memberships, `getSource`/`getTarget`, `getReferent` and `instanceof` on SysML types. The input is the resolved `Behavior` value; a flow's ends are resolved endpoints carrying their name and whether they are DecisionNodes.
- Element names are non-null strings. The `NullPointerException` paths of null element names are not modelled.
- The root namespace guard `rootElement != null && !getMember().isEmpty()` is the input flag `rootHasMembers`.
- `elements.add(start)` mutates the behaviour's own element list; the model builds a new sequence.
- ArcIds.IdGenerator.GenerateXmlSafeId: does not model the 32-bit wrap-around of `idCounter` (nor that of `cloneCounter`, `Transformer.java:74`). Counters are unbounded integers, so the uniqueness proved holds for the Java code only while fewer than 2^31 - 1 names have been generated.
- PostSplit.Enumerate: the `HashMap` iteration order of control nodes and of clone-map values is an arbitrary order (each element once); no specific order is modelled.
- TransformerArcs.BuildStep: an iteration that throws leaves the sketch as it was. The partial arena the exception leaves is not modelled: a `done` Place, or a named arc created before the cast fails, with its id consumed. The sketch is read only when the loop succeeds.
- TransformerArcs.BuildArcs states the nodes' names and kinds exactly; their incoming and outgoing lists are stated only as consistent with the arcs (`WellFormed`), not as explicit sequences.
- Transformer.BuildNet states the nodes' lists the same way as `BuildArcs`.
- Transformer.Transform states the nodes' lists of the built net the same way, and the net between the two passes only as some net that `PassResult` allows.
- PostProcess.PostProcessNode: `arcsToAdd`/`nodesToAdd` are stated as the range of arcs and nodes the pass allocated. The code adds each one right after allocating it, so the two coincide.
- PostProcess.PostProcessNode does not state the clone names at pass level. The per-node splits (`MergeSplit.SplitMerge`, `DecisionSplit.SplitDecision`) state them.
- The `DiagnosticChain` is a sequence of diagnostics carrying the constraint name and message. Severity, source, code and labels are dropped. The EMF default-constraint chain and classifier dispatch of `PetrinetValidator` are not part of this model.
- Place.java, PlaceImpl.java and the metamodel Node.java (EMF-generated types) are not part of this model. The in-memory Place is the `Place(initialMarking)` kind of a node.
- `TransformerPNML`:
  - Directory creation, the file stream, the ISO-8859-1 charset and `Paths.get` are not modelled; only the strings written and the output file name are.
  - `System.lineSeparator()` is a parameter `nl` of `Text`.
  - The writer records one token per `write` call; `Text` gives the exact string for each token.
- Pnml.WriteArc requires both ends to be set. The `NullPointerException` of `getSource().getName()` on an unset end is left out, because the nets `transform` returns never have one.
- The `ClassCastException` at `Transformer.java:271` (a succession leaving a DecisionNode) is the error value `ClassCastFailure`, not a Java exception. Likewise the `NoSuchElementException` at `Transformer.java:245-246` is `MissingFlowEnd`. Java gives it no message; `Message` returns its class name instead.
- The `FeatureReferenceExpression` cast at `Transformer.java:273` is assumed to succeed; the guard is the referent name or absent.
