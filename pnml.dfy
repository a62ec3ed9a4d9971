/** `TransformerPNML`: the text `saveToPNML` writes for a net, as the sequence of strings passed
    to `writer.write`, and the name of the file it writes them to. The line separator is a
    parameter (`System.lineSeparator()`). */
module Pnml {
  import opened Wrappers
  import opened Strings
  import opened PetriNetModel

  /** One call of `writer.write`: each constructor stands for the string `Text` gives it. */
  datatype Chunk =
    | XmlDeclaration | LineSeparator | PnmlOpen | NetIndent | NetOpen(netName: Option<string>)
    | PlaceOpen(placeName: Option<string>) | MarkingOpen | MarkingValue(marking: int) | MarkingClose | PlaceClose
    | TransitionOpen(transitionName: Option<string>) | TransitionClose
    | ArcOpen(arcName: Option<string>, sourceName: Option<string>, targetName: Option<string>)
    | InscriptionOpen | InscriptionValue(weight: int) | InscriptionClose | ArcClose
    | NetClose | PnmlClose

  /** The exact string written for a chunk; `nl` is `System.lineSeparator()`. */
  function Text(c: Chunk, nl: string): string {
    match c
    case XmlDeclaration => "<?xml version=\"1.0\" encoding=\"iso-8859-1\"?>"
    case LineSeparator => nl
    case PnmlOpen => "<pnml>"
    case NetIndent => "  "
    case NetOpen(n) => "<net id=\"" + NameText(n) + "\" type=\"http://www.pnml.org/version-2009/grammar/pnmlcoremodel\">"
    case PlaceOpen(n) => "            <place id=\"" + NameText(n) + "\">"
    case MarkingOpen => "              <initialMarking>"
    case MarkingValue(m) => "                <value>" + IntToString(m) + "</value>"
    case MarkingClose => "              </initialMarking>"
    case PlaceClose => "            </place>"
    case TransitionOpen(n) => "            <transition id=\"" + NameText(n) + "\">"
    case TransitionClose => "            </transition>"
    case ArcOpen(n, s, t) =>
      "          <arc id=\"" + NameText(n) + "\" source=\"" + NameText(s) + "\" target=\"" + NameText(t) + "\">"
    case InscriptionOpen => "            <inscription>"
    case InscriptionValue(w) => "              <value>" + IntToString(w) + "</value>"
    case InscriptionClose => "            </inscription>"
    case ArcClose => "          </arc>"
    case NetClose => "  </net>"
    case PnmlClose => "</pnml>"
  }

  /** The strings a sequence of chunks writes, in order. */
  function Rendered(cs: seq<Chunk>, nl: string): (r: seq<string>)
    ensures |r| == |cs| && forall i :: 0 <= i < |cs| ==> r[i] == Text(cs[i], nl)
  {
    seq(|cs|, i requires 0 <= i < |cs| => Text(cs[i], nl))
  }

  /** The XML declaration, `<pnml>`, and the `<net>` element named after the net. */
  function Header(netName: Option<string>): seq<Chunk> {
    [XmlDeclaration, LineSeparator, PnmlOpen, LineSeparator, NetIndent, NetOpen(netName), LineSeparator]
  }

  function Footer(): seq<Chunk> {
    [NetClose, LineSeparator, PnmlClose, LineSeparator]
  }

  function MarkingChunks(marking: int): seq<Chunk> {
    if marking > 0 then [MarkingOpen, LineSeparator, MarkingValue(marking), LineSeparator, MarkingClose, LineSeparator]
    else []
  }

  /** The element of one node: a `<place>` with its marking block, or a `<transition>`. */
  function NodeChunks(n: Node): seq<Chunk> {
    match n.kind
    case Place(m) => [PlaceOpen(n.name), LineSeparator] + MarkingChunks(m) + [PlaceClose, LineSeparator]
    case Transition(_, _) => [TransitionOpen(n.name), LineSeparator, TransitionClose, LineSeparator]
  }

  predicate ArcWritable(nodes: seq<Node>, a: Arc) {
    a.source.Some? && a.target.Some? && a.source.value < |nodes| && a.target.value < |nodes|
  }

  /** The element of one arc, whose ends must be set: `getSource().getName()` on a null source
      is a `NullPointerException`. */
  function ArcChunks(a: Arc, nodes: seq<Node>): seq<Chunk>
    requires ArcWritable(nodes, a)
  {
    [ArcOpen(a.name, nodes[a.source.value].name, nodes[a.target.value].name), LineSeparator,
     InscriptionOpen, LineSeparator, InscriptionValue(a.weight), LineSeparator,
     InscriptionClose, LineSeparator, ArcClose, LineSeparator]
  }

  predicate NodesWritable(nodes: seq<Node>, netNodes: seq<NodeId>) {
    forall i :: 0 <= i < |netNodes| ==> netNodes[i] < |nodes|
  }

  predicate ArcsWritable(nodes: seq<Node>, arcs: seq<Arc>, netArcs: seq<ArcId>) {
    forall i :: 0 <= i < |netArcs| ==> netArcs[i] < |arcs| && ArcWritable(nodes, arcs[netArcs[i]])
  }

  /** The parts one after the other. */
  function Concat(parts: seq<seq<Chunk>>): seq<Chunk> {
    if |parts| == 0 then [] else Concat(parts[..|parts| - 1]) + parts[|parts| - 1]
  }

  /** The element of each node of the net's list, in list order. */
  function NodeElements(nodes: seq<Node>, netNodes: seq<NodeId>): (r: seq<seq<Chunk>>)
    requires NodesWritable(nodes, netNodes)
    ensures |r| == |netNodes| && forall i :: 0 <= i < |r| ==> r[i] == NodeChunks(nodes[netNodes[i]])
  {
    seq(|netNodes|, i requires 0 <= i < |netNodes| => NodeChunks(nodes[netNodes[i]]))
  }

  /** The element of each arc of the net's list, in list order. */
  function ArcElements(nodes: seq<Node>, arcs: seq<Arc>, netArcs: seq<ArcId>): (r: seq<seq<Chunk>>)
    requires ArcsWritable(nodes, arcs, netArcs)
    ensures |r| == |netArcs| && forall i :: 0 <= i < |r| ==> r[i] == ArcChunks(arcs[netArcs[i]], nodes)
  {
    seq(|netArcs|, i requires 0 <= i < |netArcs| => ArcChunks(arcs[netArcs[i]], nodes))
  }

  function NodesSection(nodes: seq<Node>, netNodes: seq<NodeId>): seq<Chunk>
    requires NodesWritable(nodes, netNodes)
  {
    Concat(NodeElements(nodes, netNodes))
  }

  function ArcsSection(nodes: seq<Node>, arcs: seq<Arc>, netArcs: seq<ArcId>): seq<Chunk>
    requires ArcsWritable(nodes, arcs, netArcs)
  {
    Concat(ArcElements(nodes, arcs, netArcs))
  }

  /** Everything `saveToPNML` writes for a net. */
  function Document(nodes: seq<Node>, arcs: seq<Arc>, netName: Option<string>, netNodes: seq<NodeId>, netArcs: seq<ArcId>)
    : seq<Chunk>
    requires NodesWritable(nodes, netNodes) && ArcsWritable(nodes, arcs, netArcs)
  {
    Header(netName) + NodesSection(nodes, netNodes) + ArcsSection(nodes, arcs, netArcs) + Footer()
  }

  /** The output stream: the chunks written so far, in order. The characters in the file are
      those of `Rendered(written, nl)`. */
  class Writer {
    var written: seq<Chunk>

    constructor()
      ensures written == []
    {
      written := [];
    }

    method Write(c: Chunk)
      modifies this
      ensures written == old(written) + [c]
    {
      written := written + [c];
    }
  }

  method WriteHeader(w: Writer, netName: Option<string>)
    modifies w
    ensures w.written == old(w.written) + Header(netName)
  {
    w.Write(XmlDeclaration);
    w.Write(LineSeparator);
    w.Write(PnmlOpen);
    w.Write(LineSeparator);
    w.Write(NetIndent);
    w.Write(NetOpen(netName));
    w.Write(LineSeparator);
  }

  method WriteFooter(w: Writer)
    modifies w
    ensures w.written == old(w.written) + Footer()
  {
    w.Write(NetClose);
    w.Write(LineSeparator);
    w.Write(PnmlClose);
    w.Write(LineSeparator);
  }

  /** The marking block of a Place, written only for a positive marking. */
  method WriteMarking(w: Writer, marking: int)
    modifies w
    ensures w.written == old(w.written) + MarkingChunks(marking)
  {
    if marking > 0 {
      w.Write(MarkingOpen);
      w.Write(LineSeparator);
      w.Write(MarkingValue(marking));
      w.Write(LineSeparator);
      w.Write(MarkingClose);
      w.Write(LineSeparator);
    }
  }

  /** The body of the node loop for one node. */
  method WriteNode(w: Writer, n: Node)
    modifies w
    ensures w.written == old(w.written) + NodeChunks(n)
  {
    match n.kind
    case Place(m) =>
      w.Write(PlaceOpen(n.name));
      w.Write(LineSeparator);
      WriteMarking(w, m);
      w.Write(PlaceClose);
      w.Write(LineSeparator);
    case Transition(_, _) =>
      w.Write(TransitionOpen(n.name));
      w.Write(LineSeparator);
      w.Write(TransitionClose);
      w.Write(LineSeparator);
  }

  /** The body of the arc loop for one arc. */
  method WriteArc(w: Writer, a: Arc, nodes: seq<Node>)
    requires ArcWritable(nodes, a)
    modifies w
    ensures w.written == old(w.written) + ArcChunks(a, nodes)
  {
    w.Write(ArcOpen(a.name, nodes[a.source.value].name, nodes[a.target.value].name));
    w.Write(LineSeparator);
    w.Write(InscriptionOpen);
    w.Write(LineSeparator);
    w.Write(InscriptionValue(a.weight));
    w.Write(LineSeparator);
    w.Write(InscriptionClose);
    w.Write(LineSeparator);
    w.Write(ArcClose);
    w.Write(LineSeparator);
  }

  /** The loop over `petriNet.getNodes()`. */
  method WriteNodes(w: Writer, nodes: seq<Node>, netNodes: seq<NodeId>)
    requires NodesWritable(nodes, netNodes)
    modifies w
    ensures w.written == old(w.written) + NodesSection(nodes, netNodes)
  {
    ghost var parts := NodeElements(nodes, netNodes);
    for i := 0 to |netNodes|
      invariant w.written == old(w.written) + Concat(parts[..i])
    {
      assert parts[..i + 1][..i] == parts[..i];
      WriteNode(w, nodes[netNodes[i]]);
    }
    assert parts[..|netNodes|] == parts;
  }

  /** The loop over `petriNet.getArcs()`. */
  method WriteArcs(w: Writer, nodes: seq<Node>, arcs: seq<Arc>, netArcs: seq<ArcId>)
    requires ArcsWritable(nodes, arcs, netArcs)
    modifies w
    ensures w.written == old(w.written) + ArcsSection(nodes, arcs, netArcs)
  {
    ghost var parts := ArcElements(nodes, arcs, netArcs);
    for i := 0 to |netArcs|
      invariant w.written == old(w.written) + Concat(parts[..i])
    {
      assert parts[..i + 1][..i] == parts[..i];
      WriteArc(w, arcs[netArcs[i]], nodes);
    }
    assert parts[..|netArcs|] == parts;
  }

  /** `saveToPNML`, once the file is open: the header, every node of the net in list order,
      every arc in list order, and the footer. */
  method SaveToPnml(h: Heap, net: PetriNet, w: Writer)
    requires NodesWritable(h.nodes, net.nodes) && ArcsWritable(h.nodes, h.arcs, net.arcs)
    modifies w
    ensures w.written == old(w.written) + Document(h.nodes, h.arcs, net.name, net.nodes, net.arcs)
  {
    WriteHeader(w, net.name);
    WriteNodes(w, h.nodes, net.nodes);
    WriteArcs(w, h.nodes, h.arcs, net.arcs);
    WriteFooter(w);
  }

  /** The parts before the `k`-th make a prefix of the whole. */
  lemma {:induction false} ConcatPrefix(parts: seq<seq<Chunk>>, k: nat)
    requires k <= |parts|
    ensures Concat(parts[..k]) <= Concat(parts)
    decreases |parts|
  {
    if k < |parts| {
      var init := parts[..|parts| - 1];
      assert init[..k] == parts[..k];
      ConcatPrefix(init, k);
    } else {
      assert parts[..k] == parts;
    }
  }

  /** `x` occurs in `all` at `at`, when `all` extends `before + x`. */
  lemma SliceAfterPrefix(before: seq<Chunk>, x: seq<Chunk>, all: seq<Chunk>)
    requires before + x <= all
    ensures all[|before|..|before| + |x|] == x
  {
    assert all[..|before| + |x|] == before + x;
  }

  /** A prefix of the middle part is, after the same head, a prefix of the whole. */
  lemma PrefixWithin(p: seq<Chunk>, x: seq<Chunk>, y: seq<Chunk>, z: seq<Chunk>)
    requires x <= y
    ensures p + x <= p + y + z
  {
    var t := p + y + z;
    forall i | 0 <= i < |p| + |x| ensures t[i] == (p + x)[i] {
      if i >= |p| {
        assert y[i - |p|] == x[i - |p|];
      }
    }
    assert t[..|p| + |x|] == p + x;
  }

  lemma AppendAssociative(a: seq<Chunk>, b: seq<Chunk>, c: seq<Chunk>, d: seq<Chunk>)
    ensures a + b + c + d == a + b + (c + d)
  {
  }

  /** Between a head and a tail, the `k`-th part is written whole right after the parts
      before it. */
  lemma PartAt(head: seq<Chunk>, parts: seq<seq<Chunk>>, tail: seq<Chunk>, k: nat)
    requires k < |parts|
    ensures var at := |head| + |Concat(parts[..k])|;
            && at + |parts[k]| <= |head| + |Concat(parts)|
            && (head + Concat(parts) + tail)[at..at + |parts[k]|] == parts[k]
  {
    ConcatPrefix(parts, k + 1);
    var before := Concat(parts[..k]);
    assert parts[..k + 1][..k] == parts[..k];
    PrefixWithin(head, before + parts[k], Concat(parts), tail);
    assert head + (before + parts[k]) == head + before + parts[k];
    SliceAfterPrefix(head + before, parts[k], head + Concat(parts) + tail);
  }

  /** The `k`-th node of the net's list is written, whole, right after the nodes before it:
      a `<place>` for a Place and a `<transition>` for a Transition. */
  lemma NodeElementAt(nodes: seq<Node>, arcs: seq<Arc>, netName: Option<string>, netNodes: seq<NodeId>,
                      netArcs: seq<ArcId>, k: nat)
    requires NodesWritable(nodes, netNodes) && ArcsWritable(nodes, arcs, netArcs) && k < |netNodes|
    ensures var doc := Document(nodes, arcs, netName, netNodes, netArcs);
            var at := |Header(netName)| + |Concat(NodeElements(nodes, netNodes)[..k])|;
            var n := nodes[netNodes[k]];
            && at + |NodeChunks(n)| <= |Header(netName)| + |NodesSection(nodes, netNodes)|
            && doc[at..at + |NodeChunks(n)|] == NodeChunks(n)
            && doc[at] == if n.kind.Place? then PlaceOpen(n.name) else TransitionOpen(n.name)
  {
    var parts := NodeElements(nodes, netNodes);
    var tail := ArcsSection(nodes, arcs, netArcs) + Footer();
    PartAt(Header(netName), parts, tail, k);
    AppendAssociative(Header(netName), Concat(parts), ArcsSection(nodes, arcs, netArcs), Footer());
    var doc := Document(nodes, arcs, netName, netNodes, netArcs);
    var at := |Header(netName)| + |Concat(parts[..k])|;
    var c := NodeChunks(nodes[netNodes[k]]);
    assert doc[at] == doc[at..at + |c|][0] == c[0];
  }

  /** The `k`-th arc of the net's list is written, whole, after every node and after the arcs
      before it, with the arc's name, the names of its ends and its weight. */
  lemma ArcElementAt(nodes: seq<Node>, arcs: seq<Arc>, netName: Option<string>, netNodes: seq<NodeId>,
                     netArcs: seq<ArcId>, k: nat)
    requires NodesWritable(nodes, netNodes) && ArcsWritable(nodes, arcs, netArcs) && k < |netArcs|
    ensures var doc := Document(nodes, arcs, netName, netNodes, netArcs);
            var at := |Header(netName)| + |NodesSection(nodes, netNodes)| + |Concat(ArcElements(nodes, arcs, netArcs)[..k])|;
            var a := arcs[netArcs[k]];
            && at + |ArcChunks(a, nodes)| <= |doc|
            && doc[at..at + |ArcChunks(a, nodes)|] == ArcChunks(a, nodes)
            && doc[at] == ArcOpen(a.name, nodes[a.source.value].name, nodes[a.target.value].name)
            && doc[at + 4] == InscriptionValue(a.weight)
  {
    var parts := ArcElements(nodes, arcs, netArcs);
    var head := Header(netName) + NodesSection(nodes, netNodes);
    PartAt(head, parts, Footer(), k);
    var doc := Document(nodes, arcs, netName, netNodes, netArcs);
    var at := |head| + |Concat(parts[..k])|;
    var c := ArcChunks(arcs[netArcs[k]], nodes);
    assert doc[at] == doc[at..at + |c|][0] == c[0];
    assert doc[at + 4] == doc[at..at + |c|][4] == c[4];
  }

  /** Every node element comes before every arc element. */
  lemma NodesBeforeArcs(nodes: seq<Node>, arcs: seq<Arc>, netName: Option<string>, netNodes: seq<NodeId>,
                        netArcs: seq<ArcId>, k: nat, j: nat)
    requires NodesWritable(nodes, netNodes) && ArcsWritable(nodes, arcs, netArcs) && k < |netNodes| && j < |netArcs|
    ensures |Header(netName)| + |Concat(NodeElements(nodes, netNodes)[..k])| + |NodeChunks(nodes[netNodes[k]])|
            <= |Header(netName)| + |NodesSection(nodes, netNodes)| + |Concat(ArcElements(nodes, arcs, netArcs)[..j])|
  {
    NodeElementAt(nodes, arcs, netName, netNodes, netArcs, k);
  }

  /** The document opens with the XML declaration and `<pnml>` and ends with `</pnml>`. */
  lemma DocumentFrame(nodes: seq<Node>, arcs: seq<Arc>, netName: Option<string>, netNodes: seq<NodeId>,
                      netArcs: seq<ArcId>)
    requires NodesWritable(nodes, netNodes) && ArcsWritable(nodes, arcs, netArcs)
    ensures var doc := Document(nodes, arcs, netName, netNodes, netArcs);
            && |doc| >= 11 && doc[0] == XmlDeclaration && doc[2] == PnmlOpen && doc[5] == NetOpen(netName)
            && doc[|doc| - 4] == NetClose && doc[|doc| - 2] == PnmlClose
  {
  }

  predicate IsLineSeparator(nl: string) {
    nl == "\n" || nl == "\r\n"
  }

  /** The lines of a Place's element other than the marking block are not the
      `<initialMarking>` line. */
  lemma NotMarkingOpenLine(c: Chunk, nl: string)
    requires c.PlaceOpen? || c == PlaceClose || c == LineSeparator
    requires IsLineSeparator(nl)
    ensures Text(c, nl) != Text(MarkingOpen, nl)
  {
    var open := Text(MarkingOpen, nl);
    assert open[12] == ' ';
    if c.PlaceOpen? {
      assert Text(c, nl)[12] == '<';
    } else if c == PlaceClose {
      assert Text(c, nl)[12] == '<';
    } else {
      assert |open| > 2;
    }
  }

  /** A Place's element holds the `<initialMarking>` line exactly when its marking is
      positive, and then also the marking's `<value>` line. */
  lemma PlaceMarking(n: Node, nl: string)
    requires n.kind.Place? && IsLineSeparator(nl)
    ensures Text(MarkingOpen, nl) in Rendered(NodeChunks(n), nl) <==> n.kind.initialMarking > 0
    ensures n.kind.initialMarking > 0 ==> Text(MarkingValue(n.kind.initialMarking), nl) in Rendered(NodeChunks(n), nl)
  {
    var cs := NodeChunks(n);
    var r := Rendered(cs, nl);
    if n.kind.initialMarking <= 0 {
      assert cs == [PlaceOpen(n.name), LineSeparator, PlaceClose, LineSeparator];
      forall i | 0 <= i < |r| ensures r[i] != Text(MarkingOpen, nl) {
        NotMarkingOpenLine(cs[i], nl);
      }
    } else {
      assert cs[2] == MarkingOpen && cs[4] == MarkingValue(n.kind.initialMarking);
      assert r[2] == Text(MarkingOpen, nl);
      assert r[4] == Text(MarkingValue(n.kind.initialMarking), nl);
    }
  }

  /** A string framed by a fixed prefix and suffix determines what it frames. */
  lemma FramedInjective(p: string, x: string, y: string, s: string)
    requires p + x + s == p + y + s
    ensures x == y
  {
    var t := p + x + s;
    assert t[|p|..|p| + |x|] == x;
    assert (p + y + s)[|p|..|p| + |y|] == y;
  }

  /** Different integers have different decimal texts. */
  lemma IntToStringInjective(a: int, b: int)
    requires IntToString(a) == IntToString(b)
    ensures a == b
  {
    if a < 0 && b < 0 {
      assert NatToString(-a) == IntToString(a)[1..] == IntToString(b)[1..] == NatToString(-b);
      NatToStringInjective(-a, -b);
    } else if a >= 0 && b >= 0 {
      NatToStringInjective(a, b);
    }
  }

  /** The marking's `<value>` line gives back the marking. */
  lemma MarkingValueInjective(m1: int, m2: int, nl: string)
    requires Text(MarkingValue(m1), nl) == Text(MarkingValue(m2), nl)
    ensures m1 == m2
  {
    FramedInjective("                <value>", IntToString(m1), IntToString(m2), "</value>");
    IntToStringInjective(m1, m2);
  }

  /** The inscription's `<value>` line gives back the arc's weight. */
  lemma InscriptionValueInjective(w1: int, w2: int, nl: string)
    requires Text(InscriptionValue(w1), nl) == Text(InscriptionValue(w2), nl)
    ensures w1 == w2
  {
    FramedInjective("              <value>", IntToString(w1), IntToString(w2), "</value>");
    IntToStringInjective(w1, w2);
  }

  /** A `<place>` line gives back the Place's name as Java prints it. */
  lemma PlaceOpenInjective(n1: Option<string>, n2: Option<string>, nl: string)
    requires Text(PlaceOpen(n1), nl) == Text(PlaceOpen(n2), nl)
    ensures NameText(n1) == NameText(n2)
  {
    FramedInjective("            <place id=\"", NameText(n1), NameText(n2), "\">");
  }

  /** A `<transition>` line gives back the Transition's name as Java prints it. */
  lemma TransitionOpenInjective(n1: Option<string>, n2: Option<string>, nl: string)
    requires Text(TransitionOpen(n1), nl) == Text(TransitionOpen(n2), nl)
    ensures NameText(n1) == NameText(n2)
  {
    FramedInjective("            <transition id=\"", NameText(n1), NameText(n2), "\">");
  }

  /** A `<place>` line is never a `<transition>` line. */
  lemma PlaceLineIsNotTransitionLine(n1: Option<string>, n2: Option<string>, nl: string)
    ensures Text(PlaceOpen(n1), nl) != Text(TransitionOpen(n2), nl)
  {
    assert Text(PlaceOpen(n1), nl)[13] == 'p' && Text(TransitionOpen(n2), nl)[13] == 't';
  }

  /** `new File(path).getName()` on a Unix path: `File` drops trailing separators, then the
      name is what follows the last `/`. */
  function DropTrailingSlashes(path: string): (r: string)
    ensures r <= path && (|r| == 0 || r[|r| - 1] != '/')
    ensures forall i :: |r| <= i < |path| ==> path[i] == '/'
  {
    if |path| == 0 || path[|path| - 1] != '/' then path else DropTrailingSlashes(path[..|path| - 1])
  }

  function BaseName(path: string): (r: string)
    ensures '/' !in r
    ensures var q := DropTrailingSlashes(path);
            && |r| <= |q| && r == q[|q| - |r|..]
            && (|r| < |q| ==> q[|q| - |r| - 1] == '/')
  {
    var q := DropTrailingSlashes(path);
    q[LastIndexOf(q, '/') + 1..]
  }

  /** The output file name: the base name up to its last `.`, then `.pnml`. A base name
      without `.` makes `substring(0, -1)` throw, which is None here. */
  function OutputFileName(inputFilename: string): (r: Option<string>)
    ensures r.None? <==> '.' !in BaseName(inputFilename)
    ensures r.Some? ==>
              var b := BaseName(inputFilename);
              var k := |r.value| - 5;
              && 0 <= k < |b| && r.value == b[..k] + ".pnml"
              && b[k] == '.' && '.' !in b[k + 1..]
  {
    var b := BaseName(inputFilename);
    var dot := LastIndexOf(b, '.');
    if dot < 0 then None else Some(b[..dot] + ".pnml")
  }
}
