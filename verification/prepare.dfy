/** Stop tagging and role classification: which groups stop at or pass
    through each node, and the topological role of every node and link. */
module Prepare {
  import opened Network

  /** Every node's stopping and passing groups are disjoint. */
  predicate GroupsDisjoint(nodes: map<NodeId, Node>)
  {
    forall n | n in nodes :: nodes[n].stopping !! nodes[n].passing
  }

  /** `a` and `b` agree on everything but the two group sets. */
  predicate SameButGroups(a: Node, b: Node)
  {
    a == b.(stopping := a.stopping, passing := a.passing)
  }

  predicate SegmentsOnNodes(nodes: map<NodeId, Node>, segs: seq<Segment>)
  {
    forall k | 0 <= k < |segs| :: segs[k].iNode in nodes
  }

  predicate LinesOnNodes(nodes: map<NodeId, Node>, ls: seq<Line>)
  {
    forall i | 0 <= i < |ls| :: SegmentsOnNodes(nodes, ls[i].segments)
  }

  /** Some segment of `segs` starts at `n` and is (or is not) a stop. */
  ghost predicate SegmentAt(segs: seq<Segment>, n: NodeId, stop: bool)
  {
    exists k :: 0 <= k < |segs| && segs[k].iNode == n && Stops(segs[k]) == stop
  }

  /** Some line of group `g` has a segment at `n` that is (or is not) a stop. */
  ghost predicate GroupAt(ls: seq<Line>, n: NodeId, g: GroupId, stop: bool)
  {
    exists i :: 0 <= i < |ls| && ls[i].group == g && SegmentAt(ls[i].segments, n, stop)
  }

  /** A segment of `segs` is one of its front or its last. */
  lemma SegmentAtSnoc(segs: seq<Segment>)
    requires segs != []
    ensures var front, last := segs[..|segs| - 1], segs[|segs| - 1];
      forall n, stop :: SegmentAt(segs, n, stop) <==>
        SegmentAt(front, n, stop) || (last.iNode == n && Stops(last) == stop)
  {
    var front, last := segs[..|segs| - 1], segs[|segs| - 1];
    forall n, stop | SegmentAt(segs, n, stop)
      ensures SegmentAt(front, n, stop) || (last.iNode == n && Stops(last) == stop)
    {
      var k :| 0 <= k < |segs| && segs[k].iNode == n && Stops(segs[k]) == stop;
      if k < |segs| - 1 {
        assert front[k] == segs[k];
      }
    }
    forall n, stop | SegmentAt(front, n, stop)
      ensures SegmentAt(segs, n, stop)
    {
      var k :| 0 <= k < |front| && front[k].iNode == n && Stops(front[k]) == stop;
      assert segs[k] == front[k];
    }
  }

  /** A line of `ls` is one of its front or its last. */
  lemma GroupAtSnoc(ls: seq<Line>)
    requires ls != []
    ensures var front, last := ls[..|ls| - 1], ls[|ls| - 1];
      forall n, h, stop :: GroupAt(ls, n, h, stop) <==>
        GroupAt(front, n, h, stop) || (last.group == h && SegmentAt(last.segments, n, stop))
  {
    var front, last := ls[..|ls| - 1], ls[|ls| - 1];
    forall n, h, stop | GroupAt(ls, n, h, stop)
      ensures GroupAt(front, n, h, stop) || (last.group == h && SegmentAt(last.segments, n, stop))
    {
      var i :| 0 <= i < |ls| && ls[i].group == h && SegmentAt(ls[i].segments, n, stop);
      if i < |ls| - 1 {
        assert front[i] == ls[i];
      }
    }
    forall n, h, stop | GroupAt(front, n, h, stop)
      ensures GroupAt(ls, n, h, stop)
    {
      var i :| 0 <= i < |front| && front[i].group == h && SegmentAt(front[i].segments, n, stop);
      assert ls[i] == front[i];
    }
  }

  /** One segment of a line of group `g`: a stop moves `g` into the
      stopping groups of its i-node (out of the passing ones); a non-stop
      records `g` as passing unless it already stops there. */
  function TagSegment(nodes: map<NodeId, Node>, g: GroupId, s: Segment): map<NodeId, Node>
    requires s.iNode in nodes
  {
    var nd := nodes[s.iNode];
    if Stops(s) then
      nodes[s.iNode := nd.(stopping := nd.stopping + {g}, passing := nd.passing - {g})]
    else if g in nd.stopping then
      nodes
    else
      nodes[s.iNode := nd.(passing := nd.passing + {g})]
  }

  /** One segment changes only the groups of its own i-node. */
  lemma TagSegmentAt(nodes: map<NodeId, Node>, g: GroupId, s: Segment)
    requires s.iNode in nodes && GroupsDisjoint(nodes)
    ensures var r := TagSegment(nodes, g, s);
      && r.Keys == nodes.Keys
      && GroupsDisjoint(r)
      && (forall n | n in nodes :: SameButGroups(r[n], nodes[n]))
      && (forall n, h | n in nodes ::
            h in r[n].stopping <==> h in nodes[n].stopping || (h == g && n == s.iNode && Stops(s)))
      && (forall n, h | n in nodes ::
            h in r[n].passing <==> (h in nodes[n].passing || (h == g && n == s.iNode && !Stops(s))) && h !in r[n].stopping)
  {
  }

  /** Tags the segments of one line of group `g`, in itinerary order. */
  function TagSegments(nodes: map<NodeId, Node>, g: GroupId, segs: seq<Segment>): (r: map<NodeId, Node>)
    requires SegmentsOnNodes(nodes, segs)
    requires GroupsDisjoint(nodes)
    ensures r.Keys == nodes.Keys
    ensures GroupsDisjoint(r)
    ensures forall n | n in nodes :: SameButGroups(r[n], nodes[n])
    ensures forall n, h | n in nodes ::
      h in r[n].stopping <==> h in nodes[n].stopping || (h == g && SegmentAt(segs, n, true))
    ensures forall n, h | n in nodes ::
      h in r[n].passing <==> (h in nodes[n].passing || (h == g && SegmentAt(segs, n, false))) && h !in r[n].stopping
    decreases |segs|
  {
    if segs == [] then nodes
    else
      var front := segs[..|segs| - 1];
      var last := segs[|segs| - 1];
      assert SegmentsOnNodes(nodes, front);
      var mid := TagSegments(nodes, g, front);
      var r := TagSegment(mid, g, last);
      TagSegmentAt(mid, g, last);
      SegmentAtSnoc(segs);
      r
  }

  /** Tags every segment of every line, lines in the given order. */
  function TagLines(nodes: map<NodeId, Node>, ls: seq<Line>): (r: map<NodeId, Node>)
    requires LinesOnNodes(nodes, ls)
    requires GroupsDisjoint(nodes)
    ensures r.Keys == nodes.Keys
    ensures GroupsDisjoint(r)
    ensures forall n | n in nodes :: SameButGroups(r[n], nodes[n])
    ensures forall n, h | n in nodes ::
      h in r[n].stopping <==> h in nodes[n].stopping || GroupAt(ls, n, h, true)
    ensures forall n, h | n in nodes ::
      h in r[n].passing <==> (h in nodes[n].passing || GroupAt(ls, n, h, false)) && h !in r[n].stopping
    decreases |ls|
  {
    if ls == [] then nodes
    else
      var front := ls[..|ls| - 1];
      var last := ls[|ls| - 1];
      assert LinesOnNodes(nodes, front);
      var mid := TagLines(nodes, front);
      var r := TagSegments(mid, last.group, last.segments);
      GroupAtSnoc(ls);
      r
  }
}

module Roles {
  import opened Network
  import opened Prepare

  /** Either end of link `k` is a centroid: a centroid connector. */
  predicate CentroidLink(nodes: map<NodeId, Node>, k: LinkKey)
  {
    (k.0 in nodes && nodes[k.0].isCentroid) || (k.1 in nodes && nodes[k.1].isCentroid)
  }

  /** Some incoming or outgoing link of `n` that is not a centroid
      connector carries an auto mode. */
  predicate TouchesAuto(nodes: map<NodeId, Node>, links: map<LinkKey, Link>, n: NodeId)
  {
    exists k | k in links :: (k.0 == n || k.1 == n) && !CentroidLink(nodes, k) && HasModeKind(links[k], Auto)
  }

  /** Role of a node from its group sets: a node with no transit is a
      plain road node unless it is a centroid; a node with transit is a
      station unless an auto link touches it. */
  function NodeRoleOf(nd: Node, autoAdjacent: bool): NodeRole
  {
    if nd.stopping == {} && nd.passing == {} then
      (if !nd.isCentroid then Surface else nd.role)
    else if autoAdjacent then Surface
    else Station
  }

  /** Role of a non-connector link from its end roles: a walkable link
      between a surface node and a station (either way) is a station
      connector, between two stations a station transfer. */
  function LinkRoleOf(l: Link, ri: NodeRole, rj: NodeRole): LinkRole
  {
    var walk := HasModeKind(l, AuxTransit);
    if ri == Surface && rj == Station && walk then StationConnector
    else if ri == Station && rj == Surface && walk then StationConnector
    else if ri == Station && rj == Station && walk then StationTransfer
    else l.role
  }

  /** The fare zone a node has after preparation: the fare-zone attribute
      is created as 0 and only regular nodes take the zone of their proxy. */
  function PreparedZone(nd: Node): int
  {
    if nd.isCentroid then 0 else nd.zone
  }

  /** Attributes created by preparation: empty group sets, the node's own
      (empty) hyper dictionary, role 0 on every node and link, and the
      fare zone of a regular node's proxy. */
  function ResetNodes(nodes: map<NodeId, Node>): (r: map<NodeId, Node>)
    ensures r.Keys == nodes.Keys
    ensures GroupsDisjoint(r)
  {
    map n | n in nodes :: nodes[n].(role := Untouched, stopping := {}, passing := {}, hyperOwner := n, zone := PreparedZone(nodes[n]))
  }

  function ResetLinks(links: map<LinkKey, Link>): (r: map<LinkKey, Link>)
    ensures r.Keys == links.Keys
  {
    map k | k in links :: links[k].(role := Ordinary)
  }

  /** A line of the network has a segment at `n`. */
  ghost predicate OnTransit(net: Network, n: NodeId)
  {
    exists id, k :: id in net.lines && 0 <= k < |net.lines[id].segments| && net.lines[id].segments[k].iNode == n
  }

  /** A line of group `g` has a segment at `n` that is (or is not) a stop. */
  ghost predicate ServedAt(net: Network, n: NodeId, g: GroupId, stop: bool)
  {
    exists id, k :: id in net.lines && net.lines[id].group == g && 0 <= k < |net.lines[id].segments|
      && net.lines[id].segments[k].iNode == n && Stops(net.lines[id].segments[k]) == stop
  }

  lemma {:induction false} ListedGroupAt(net: Network, n: NodeId, g: GroupId, stop: bool)
    requires LinesListed(net)
    ensures GroupAt(ListedLines(net), n, g, stop) <==> ServedAt(net, n, g, stop)
  {
    var ls := ListedLines(net);
    if GroupAt(ls, n, g, stop) {
      var i :| 0 <= i < |ls| && ls[i].group == g && SegmentAt(ls[i].segments, n, stop);
      var k :| 0 <= k < |ls[i].segments| && ls[i].segments[k].iNode == n && Stops(ls[i].segments[k]) == stop;
      assert net.lines[net.lineOrder[i]] == ls[i];
    }
    if ServedAt(net, n, g, stop) {
      var id, k :| id in net.lines && net.lines[id].group == g && 0 <= k < |net.lines[id].segments|
        && net.lines[id].segments[k].iNode == n && Stops(net.lines[id].segments[k]) == stop;
      var i :| 0 <= i < |net.lineOrder| && net.lineOrder[i] == id;
      assert ls[i] == net.lines[id];
      assert SegmentAt(ls[i].segments, n, stop);
    }
  }

  /** Stop tagging over every line of the network, in listing order. */
  function TagNetwork(net: Network): (r: map<NodeId, Node>)
    requires WellFormed(net)
    ensures r.Keys == net.nodes.Keys
    ensures GroupsDisjoint(r)
    ensures forall n, g | n in r :: g in r[n].stopping <==> ServedAt(net, n, g, true)
    ensures forall n, g | n in r ::
      g in r[n].passing <==> ServedAt(net, n, g, false) && !ServedAt(net, n, g, true)
    ensures forall n | n in r :: r[n].hyperOwner == n && r[n].role == Untouched
    ensures forall n | n in r :: SameButGroups(r[n], net.nodes[n].(role := Untouched, hyperOwner := n, zone := PreparedZone(net.nodes[n])))
  {
    var nodes0 := ResetNodes(net.nodes);
    var ls := ListedLines(net);
    assert LinesOnNodes(nodes0, ls) by {
      forall i | 0 <= i < |ls|
        ensures SegmentsOnNodes(nodes0, ls[i].segments)
      {
        assert LineOnNetwork(net, net.lines[net.lineOrder[i]]);
      }
    }
    forall n, g, stop
      ensures GroupAt(ls, n, g, stop) <==> ServedAt(net, n, g, stop)
    {
      ListedGroupAt(net, n, g, stop);
    }
    TagLines(nodes0, ls)
  }

  /** A node carries a group exactly when a line passes over it. */
  lemma {:induction false} TaggedIffOnTransit(net: Network, n: NodeId)
    requires WellFormed(net) && n in net.nodes
    ensures var t := TagNetwork(net);
      (t[n].stopping == {} && t[n].passing == {}) <==> !OnTransit(net, n)
  {
    var t := TagNetwork(net);
    if OnTransit(net, n) {
      var id, k :| id in net.lines && 0 <= k < |net.lines[id].segments| && net.lines[id].segments[k].iNode == n;
      var g := net.lines[id].group;
      var stop := Stops(net.lines[id].segments[k]);
      assert ServedAt(net, n, g, stop);
      assert g in t[n].stopping || g in t[n].passing;
    } else {
      forall g ensures g !in t[n].stopping && g !in t[n].passing {
        if ServedAt(net, n, g, true) {
          ServedOnTransit(net, n, g, true);
        }
        if ServedAt(net, n, g, false) {
          ServedOnTransit(net, n, g, false);
        }
      }
    }
  }

  lemma ServedOnTransit(net: Network, n: NodeId, g: GroupId, stop: bool)
    requires ServedAt(net, n, g, stop)
    ensures OnTransit(net, n)
  {
    var id, k :| id in net.lines && net.lines[id].group == g && 0 <= k < |net.lines[id].segments|
      && net.lines[id].segments[k].iNode == n && Stops(net.lines[id].segments[k]) == stop;
  }

  /** Node roles on the regular nodes; centroids keep theirs. */
  function ClassifyNodes(nodes: map<NodeId, Node>, links: map<LinkKey, Link>, base: map<NodeId, Node>): (r: map<NodeId, Node>)
    ensures r.Keys == nodes.Keys
    ensures forall n | n in nodes :: r[n] == nodes[n].(role := r[n].role)
    ensures forall n | n in nodes && nodes[n].isCentroid :: r[n].role == nodes[n].role
    ensures forall n | n in nodes && !nodes[n].isCentroid :: r[n].role == NodeRoleOf(nodes[n], TouchesAuto(base, links, n))
  {
    map n | n in nodes ::
      if nodes[n].isCentroid then nodes[n]
      else nodes[n].(role := NodeRoleOf(nodes[n], TouchesAuto(base, links, n)))
  }

  /** Link roles on the links that are not centroid connectors. */
  function ClassifyLinks(nodes: map<NodeId, Node>, links: map<LinkKey, Link>): (r: map<LinkKey, Link>)
    requires LinksClosed(nodes, links)
    ensures r.Keys == links.Keys
    ensures forall k | k in links :: r[k] == links[k].(role := r[k].role)
    ensures forall k | k in links && CentroidLink(nodes, k) :: r[k].role == links[k].role
    ensures forall k | k in links && !CentroidLink(nodes, k) ::
      r[k].role == LinkRoleOf(links[k], nodes[k.0].role, nodes[k.1].role)
  {
    map k | k in links ::
      if CentroidLink(nodes, k) then links[k]
      else links[k].(role := LinkRoleOf(links[k], nodes[k.0].role, nodes[k.1].role))
  }

  /** Stop tagging followed by node roles and then link roles. */
  function PrepareNetwork(net: Network): (r: Network)
    requires WellFormed(net)
    ensures r.nodes.Keys == net.nodes.Keys && r.links.Keys == net.links.Keys
    ensures r.lines == net.lines && r.lineOrder == net.lineOrder
    ensures GroupsDisjoint(r.nodes)
    ensures forall n, g | n in r.nodes :: g in r.nodes[n].stopping <==> ServedAt(net, n, g, true)
    ensures forall n, g | n in r.nodes ::
      g in r.nodes[n].passing <==> ServedAt(net, n, g, false) && !ServedAt(net, n, g, true)
    ensures forall n | n in r.nodes :: r.nodes[n].hyperOwner == n
    ensures forall n | n in r.nodes :: r.nodes[n].zone == if net.nodes[n].isCentroid then 0 else net.nodes[n].zone
    ensures CentroidZonesZero(r.nodes)
    ensures forall n | n in r.nodes :: r.nodes[n].(role := net.nodes[n].role, stopping := net.nodes[n].stopping,
      passing := net.nodes[n].passing, hyperOwner := net.nodes[n].hyperOwner, zone := net.nodes[n].zone) == net.nodes[n]
    ensures forall k | k in r.links :: r.links[k].(role := net.links[k].role) == net.links[k]
  {
    var tagged := TagNetwork(net);
    var nodes1 := ClassifyNodes(tagged, net.links, net.nodes);
    var links1 := ClassifyLinks(nodes1, ResetLinks(net.links));
    net.(nodes := nodes1, links := links1)
  }

  /** Node roles after preparation: centroids stay 0; a regular node
      with no transit is a surface node; a regular transit node is a
      surface node exactly when a non-connector link touching it carries
      an auto mode, a station otherwise. */
  lemma {:induction false} PreparedNodeRoles(net: Network, n: NodeId)
    requires WellFormed(net) && n in net.nodes
    ensures var r := PrepareNetwork(net);
      && (net.nodes[n].isCentroid ==> r.nodes[n].role == Untouched)
      && (!net.nodes[n].isCentroid && !OnTransit(net, n) ==> r.nodes[n].role == Surface)
      && (!net.nodes[n].isCentroid && OnTransit(net, n) ==>
            (r.nodes[n].role == Surface <==> TouchesAuto(net.nodes, net.links, n)) &&
            (r.nodes[n].role == Station <==> !TouchesAuto(net.nodes, net.links, n)))
  {
    TaggedIffOnTransit(net, n);
  }

  /** Link roles after preparation: centroid connectors stay 0; a walkable
      link is a station connector when it joins a surface node and a
      station (either way), a station transfer when it joins two stations. */
  lemma {:induction false} PreparedLinkRoles(net: Network, k: LinkKey)
    requires WellFormed(net) && k in net.links
    ensures var r := PrepareNetwork(net);
      && (CentroidLink(net.nodes, k) ==> r.links[k].role == Ordinary)
      && (!CentroidLink(net.nodes, k) ==>
            (r.links[k].role == StationConnector <==>
               HasModeKind(net.links[k], AuxTransit) &&
               ((r.nodes[k.0].role == Surface && r.nodes[k.1].role == Station) ||
                (r.nodes[k.0].role == Station && r.nodes[k.1].role == Surface))) &&
            (r.links[k].role == StationTransfer <==>
               HasModeKind(net.links[k], AuxTransit) && r.nodes[k.0].role == Station && r.nodes[k.1].role == Station))
  {
    var r := PrepareNetwork(net);
    var tagged := TagNetwork(net);
    var nodes1 := ClassifyNodes(tagged, net.links, net.nodes);
    assert CentroidLink(nodes1, k) == CentroidLink(net.nodes, k);
    assert HasModeKind(ResetLinks(net.links)[k], AuxTransit) == HasModeKind(net.links[k], AuxTransit);
  }
}
