/** The base multimodal network as an arena: nodes, directed links and
    transit lines addressed by id, with the attributes the fare engine
    reads and writes. */
module Network {

  type NodeId = int
  /** Dense transit-line group number; 0 is a line no group selected. */
  type GroupId = int
  /** A link is identified by its ordered end nodes (one link per pair). */
  type LinkKey = (NodeId, NodeId)
  type LineId = string

  datatype ModeKind = Auto | Transit | AuxTransit | AuxAuto
  datatype Mode = Mode(id: char, kind: ModeKind)

  /** Topological role of a node (0, 1, 2 in PCAP's numbering). */
  datatype NodeRole = Untouched | Surface | Station
  /** Topological role of a link (0, 1, 2 in PCAP's numbering). */
  datatype LinkRole = Ordinary | StationConnector | StationTransfer

  /** `hyperOwner` names the node whose group-to-virtual-node dictionary
      this node carries: a node's own id after preparation, and the base
      node's id on every attribute copy, since copying node attributes
      copies the reference to that dictionary. `zone` is the fare zone
      read from the node's zone proxy (0 when it has none); preparation
      keeps it on regular nodes only. */
  datatype Node = Node(
    isCentroid: bool,
    x: real,
    y: real,
    labelText: string,
    zone: int,
    role: NodeRole,
    stopping: set<GroupId>,
    passing: set<GroupId>,
    hyperOwner: NodeId)

  datatype Link = Link(modes: set<Mode>, role: LinkRole, length: real, fare: real)

  /** One step of a line's itinerary, starting at `iNode`; the last segment
      of a line is the hidden one that has no link. */
  datatype Segment = Segment(
    iNode: NodeId,
    allowBoardings: bool,
    allowAlightings: bool,
    fare: real,
    baseINode: NodeId)

  datatype Line = Line(group: GroupId, mode: Mode, vehicle: int, segments: seq<Segment>) {

    /** The link under segment `k` (every segment but the last has one). */
    function LinkOf(k: int): LinkKey
      requires 0 <= k < |segments| - 1
    {
      (segments[k].iNode, segments[k + 1].iNode)
    }
  }

  /** `lineOrder` is the order in which the network lists its lines. */
  datatype Network = Network(
    nodes: map<NodeId, Node>,
    links: map<LinkKey, Link>,
    lines: map<LineId, Line>,
    lineOrder: seq<LineId>)

  /** A segment lets passengers on or off: its i-node is a stop. */
  predicate Stops(s: Segment)
  {
    s.allowBoardings || s.allowAlightings
  }

  predicate HasModeKind(l: Link, kind: ModeKind)
  {
    exists m | m in l.modes :: m.kind == kind
  }

  /** Every link joins two distinct nodes of the arena. */
  predicate LinksClosed(nodes: map<NodeId, Node>, links: map<LinkKey, Link>)
  {
    forall k | k in links :: k.0 in nodes && k.1 in nodes && k.0 != k.1
  }

  /** Every centroid is in fare zone 0, as preparation leaves it. */
  predicate CentroidZonesZero(nodes: map<NodeId, Node>)
  {
    forall n | n in nodes && nodes[n].isCentroid :: nodes[n].zone == 0
  }

  /** A line runs over regular nodes of the network along existing links. */
  predicate LineOnNetwork(net: Network, line: Line)
  {
    && |line.segments| >= 2
    && (forall k | 0 <= k < |line.segments| ::
          line.segments[k].iNode in net.nodes && !net.nodes[line.segments[k].iNode].isCentroid)
    && (forall k | 0 <= k < |line.segments| - 1 :: line.LinkOf(k) in net.links)
  }

  /** The line listing names every line once. */
  predicate LinesListed(net: Network)
  {
    && (forall i, j | 0 <= i < j < |net.lineOrder| :: net.lineOrder[i] != net.lineOrder[j])
    && (forall id | id in net.lines :: id in net.lineOrder)
    && (forall i | 0 <= i < |net.lineOrder| :: net.lineOrder[i] in net.lines)
  }

  predicate WellFormed(net: Network)
  {
    && LinksClosed(net.nodes, net.links)
    && LinesListed(net)
    && (forall id | id in net.lines :: LineOnNetwork(net, net.lines[id]))
  }

  /** The lines in listing order. */
  function ListedLines(net: Network): (ls: seq<Line>)
    requires LinesListed(net)
    ensures |ls| == |net.lineOrder|
    ensures forall i | 0 <= i < |ls| :: ls[i] == net.lines[net.lineOrder[i]]
  {
    seq(|net.lineOrder|, i requires 0 <= i < |net.lineOrder| => net.lines[net.lineOrder[i]])
  }
}
