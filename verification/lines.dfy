/** Rewriting the transit lines onto the hyper-network: each line's
    itinerary is mapped through the group-to-virtual-node dictionaries of
    its nodes, the virtual links it needs are created or gain the line's
    mode, and the segments whose link crosses between two fare zones are
    recorded in the zone-crossing grid. */
module Lines {
  import opened Outcomes
  import opened Collections
  import opened Network
  import opened HyperNet

  /** An entry of the zone-crossing grid: segment number `e.1.1` of line
      `e.1.0`, filed in cell (from-zone, to-zone). */
  type ZoneEntry = ((int, int), (LineId, int))

  /** The virtual node serving group `g` at node `n`, if its dictionary
      has one. */
  function HyperNode(h: Hyper, n: NodeId, g: GroupId): Option<NodeId>
  {
    if n in h.nodes && (h.nodes[n].hyperOwner, g) in h.hyper then Some(h.hyper[(h.nodes[n].hyperOwner, g)])
    else None
  }

  /** The fare zone of node `n` (0 for no zone). */
  function ZoneOf(h: Hyper, n: NodeId): int
  {
    if n in h.nodes then h.nodes[n].zone else 0
  }

  /** The nodes a line visits, one per segment. */
  function BaseNodes(line: Line): (ns: seq<NodeId>)
    ensures |ns| == |line.segments|
    ensures forall k | 0 <= k < |ns| :: ns[k] == line.segments[k].iNode
  {
    seq(|line.segments|, k requires 0 <= k < |line.segments| => line.segments[k].iNode)
  }

  /** Mapping nodes `ns` through their dictionaries for group `g`; a node
      whose dictionary lacks the group fails the lookup. */
  function MapNodes(h: Hyper, ns: seq<NodeId>, g: GroupId): (r: Result<seq<NodeId>>)
    ensures r.Ok? <==> forall k | 0 <= k < |ns| :: HyperNode(h, ns[k], g).Some?
    ensures r.Ok? ==> |r.value| == |ns| && forall k | 0 <= k < |ns| :: r.value[k] == HyperNode(h, ns[k], g).value
    decreases |ns|
  {
    if |ns| == 0 then Ok([])
    else
      match HyperNode(h, ns[0], g)
      case None => Err("KeyError: group missing from to_hyper_node")
      case Some(v) =>
        var rest :- MapNodes(h, ns[1..], g);
        Ok([v] + rest)
  }

  /** The links between consecutive nodes of an itinerary. */
  function Steps(vs: seq<NodeId>): (ks: seq<LinkKey>)
    ensures |ks| == if |vs| == 0 then 0 else |vs| - 1
    ensures forall k | 0 <= k < |ks| :: ks[k] == (vs[k], vs[k + 1])
  {
    if |vs| == 0 then [] else seq(|vs| - 1, k requires 0 <= k < |vs| - 1 => (vs[k], vs[k + 1]))
  }

  /** A virtual link created for a line: the base link's attributes, with
      the line's mode as its only mode. */
  function Created(base: Link, mode: Mode): Link
  {
    base.(modes := {mode})
  }

  /** Walking the line's virtual links `vkeys` in order: a missing one is
      created from its base link in `bases`, an existing one gains the
      line's mode. */
  function AddLineLinks(links: map<LinkKey, Link>, vkeys: seq<LinkKey>, bases: seq<Link>, mode: Mode): map<LinkKey, Link>
    requires |vkeys| == |bases|
    decreases |vkeys|
  {
    if |vkeys| == 0 then links
    else
      var n := |vkeys| - 1;
      var m := AddLineLinks(links, vkeys[..n], bases[..n], mode);
      var key := vkeys[n];
      if key in m then m[key := m[key].(modes := m[key].modes + {mode})]
      else m[key := Created(bases[n], mode)]
  }

  /** The segments of the rewritten line: those of the base line, in
      order, over the virtual nodes `vs`; with `save` each also records the
      base node it started from. */
  function NewSegments(segs: seq<Segment>, vs: seq<NodeId>, save: bool): (r: seq<Segment>)
    requires |segs| == |vs|
  {
    seq(|segs|, k requires 0 <= k < |segs| =>
      segs[k].(iNode := vs[k], baseINode := if save then segs[k].iNode else segs[k].baseINode))
  }

  /** The zone-crossing entries of line `id` over the base nodes `ns`: the
      segment leaving `ns[k]` is recorded when the zones of its two ends
      differ and neither is 0. */
  function CrossingsOf(h: Hyper, id: LineId, ns: seq<NodeId>): set<ZoneEntry>
    decreases |ns|
  {
    if |ns| < 2 then {}
    else
      var n := |ns| - 1;
      var zi := ZoneOf(h, ns[n - 1]);
      var zj := ZoneOf(h, ns[n]);
      CrossingsOf(h, id, ns[..n]) + (if zi != zj && zi != 0 && zj != 0 then {((zi, zj), (id, n - 1))} else {})
  }

  /** What rewriting one line produces. */
  datatype Rewritten = Rewritten(links: map<LinkKey, Link>, line: Line, crossings: set<ZoneEntry>)

  /** The base links under the line's segments, in order. */
  function BaseLinks(h: Hyper, line: Line): (r: seq<Link>)
    requires OnLinks(h, line)
    ensures |r| == if |line.segments| == 0 then 0 else |line.segments| - 1
  {
    if |line.segments| == 0 then []
    else seq(|line.segments| - 1, k requires 0 <= k < |line.segments| - 1 => h.links[line.LinkOf(k)])
  }

  /** The rewrite fails on a line without links, on a dictionary without
      the line's group, and where it would have to create a link from a
      node to itself or to a node the network lacks. */
  predicate Creatable(h: Hyper, vs: seq<NodeId>)
  {
    forall k | 0 <= k < |vs| - 1 :: (vs[k], vs[k + 1]) in h.links || (vs[k] != vs[k + 1] && vs[k] in h.nodes && vs[k + 1] in h.nodes)
  }

  /** Rewriting line `id` onto the hyper-network. */
  function RewriteLine(h: Hyper, id: LineId, line: Line, save: bool): (r: Result<Rewritten>)
  {
    var segs := line.segments;
    if |segs| < 2 then Err("IndexError: line without links")
    else if !OnLinks(h, line) then Err("segment without link")
    else
      var vs :- MapNodes(h, BaseNodes(line), line.group);
      if !Creatable(h, vs) then Err("cannot create link")
      else
        var links := AddLineLinks(h.links, Steps(vs), BaseLinks(h, line), line.mode);
        Ok(Rewritten(links, line.(segments := NewSegments(segs, vs, save)), CrossingsOf(h, id, BaseNodes(line))))
  }

  /** The network while its lines are rewritten. */
  datatype LineState = LineState(h: Hyper, lines: map<LineId, Line>, crossings: set<ZoneEntry>)

  /** Rewriting the lines `ids` in turn; each replaces its base line under
      the same id. */
  function ProcessLines(st: LineState, ids: seq<LineId>, save: bool): (r: Result<LineState>)
    ensures r.Ok? ==> r.value.h.nodes == st.h.nodes && r.value.h.hyper == st.h.hyper
    decreases |ids|
  {
    if |ids| == 0 then Ok(st)
    else if ids[0] !in st.lines then Err("no such transit line")
    else
      var rw :- RewriteLine(st.h, ids[0], st.lines[ids[0]], save);
      ProcessLines(LineState(st.h.(links := rw.links), st.lines[ids[0] := rw.line], st.crossings + rw.crossings), ids[1..], save)
  }

  // ---------------------------------------------------------------------
  // Properties

  /** Walking a line's links keeps every link, adding the line's mode to
      exactly the ones the line runs over. */
  lemma {:induction false} LineLinksKeep(links: map<LinkKey, Link>, vkeys: seq<LinkKey>, bases: seq<Link>, mode: Mode)
    requires |vkeys| == |bases|
    ensures var r := AddLineLinks(links, vkeys, bases, mode);
            forall key | key in links ::
              key in r && r[key] == links[key].(modes := links[key].modes + (if key in vkeys then {mode} else {}))
    decreases |vkeys|
  {
    if |vkeys| > 0 {
      var n := |vkeys| - 1;
      LineLinksKeep(links, vkeys[..n], bases[..n], mode);
      assert forall key :: key in vkeys <==> key in vkeys[..n] || key == vkeys[n];
    }
  }

  /** Every link a line runs over is present afterwards and carries the
      line's mode. */
  lemma {:induction false} LineLinksCover(links: map<LinkKey, Link>, vkeys: seq<LinkKey>, bases: seq<Link>, mode: Mode)
    requires |vkeys| == |bases|
    ensures var r := AddLineLinks(links, vkeys, bases, mode);
            forall k | 0 <= k < |vkeys| :: vkeys[k] in r && mode in r[vkeys[k]].modes
    decreases |vkeys|
  {
    if |vkeys| > 0 {
      var n := |vkeys| - 1;
      LineLinksCover(links, vkeys[..n], bases[..n], mode);
      forall k | 0 <= k < n
        ensures vkeys[..n][k] == vkeys[k]
      {
      }
    }
  }

  /** A link the walk creates is one the line runs over, with the
      attributes of the base link under it and only the line's mode. */
  lemma {:induction false} LineLinksOnly(links: map<LinkKey, Link>, vkeys: seq<LinkKey>, bases: seq<Link>, mode: Mode)
    requires |vkeys| == |bases|
    ensures var r := AddLineLinks(links, vkeys, bases, mode);
            forall key | key in r && key !in links ::
              exists k | 0 <= k < |vkeys| :: vkeys[k] == key && r[key] == Created(bases[k], mode)
    decreases |vkeys|
  {
    if |vkeys| > 0 {
      var n := |vkeys| - 1;
      var m := AddLineLinks(links, vkeys[..n], bases[..n], mode);
      var r := AddLineLinks(links, vkeys, bases, mode);
      LineLinksOnly(links, vkeys[..n], bases[..n], mode);
      forall key | key in r && key !in links
        ensures exists k | 0 <= k < |vkeys| :: vkeys[k] == key && r[key] == Created(bases[k], mode)
      {
        if key in m {
          var k :| 0 <= k < n && vkeys[..n][k] == key && m[key] == Created(bases[..n][k], mode);
          assert vkeys[k] == key && bases[k] == bases[..n][k];
        } else {
          assert vkeys[n] == key;
        }
      }
    }
  }

  /** The segment leaving `ns[k]` crosses between two fare zones. */
  predicate Crosses(h: Hyper, ns: seq<NodeId>, k: int)
    requires 0 <= k < |ns| - 1
  {
    var zi := ZoneOf(h, ns[k]);
    var zj := ZoneOf(h, ns[k + 1]);
    zi != zj && zi != 0 && zj != 0
  }

  /** Entry `e` files the crossing segment of line `id` leaving `ns[e.1.1]`
      under the zones of its two ends. */
  predicate CrossingEntry(h: Hyper, id: LineId, ns: seq<NodeId>, e: ZoneEntry)
  {
    && e.1.0 == id && 0 <= e.1.1 < |ns| - 1 && Crosses(h, ns, e.1.1)
    && e.0 == (ZoneOf(h, ns[e.1.1]), ZoneOf(h, ns[e.1.1 + 1]))
  }

  lemma CrossingEntrySnoc(h: Hyper, id: LineId, ns: seq<NodeId>, e: ZoneEntry)
    requires |ns| >= 2
    ensures var n := |ns| - 1;
            var zi, zj := ZoneOf(h, ns[n - 1]), ZoneOf(h, ns[n]);
            CrossingEntry(h, id, ns, e) <==>
              || CrossingEntry(h, id, ns[..n], e)
              || (e == ((zi, zj), (id, n - 1)) && zi != zj && zi != 0 && zj != 0)
  {
    var n := |ns| - 1;
    if 0 <= e.1.1 < n - 1 {
      assert ns[..n][e.1.1] == ns[e.1.1] && ns[..n][e.1.1 + 1] == ns[e.1.1 + 1];
    }
  }

  /** The zone-crossing entries of a line are exactly its crossing
      segments. */
  lemma {:induction false} CrossingsIff(h: Hyper, id: LineId, ns: seq<NodeId>)
    ensures forall e :: e in CrossingsOf(h, id, ns) <==> CrossingEntry(h, id, ns, e)
    decreases |ns|
  {
    if |ns| >= 2 {
      var n := |ns| - 1;
      CrossingsIff(h, id, ns[..n]);
      forall e ensures e in CrossingsOf(h, id, ns) <==> CrossingEntry(h, id, ns, e) {
        CrossingEntrySnoc(h, id, ns, e);
      }
    }
  }

  /** The zone-crossing entries of a line are exactly its crossing
      segments, each filed under the zones of its two ends. */
  lemma CrossingsAt(h: Hyper, id: LineId, ns: seq<NodeId>)
    ensures forall e | e in CrossingsOf(h, id, ns) ::
              && e.1.0 == id && 0 <= e.1.1 < |ns| - 1 && Crosses(h, ns, e.1.1)
              && e.0 == (ZoneOf(h, ns[e.1.1]), ZoneOf(h, ns[e.1.1 + 1]))
    ensures forall k | 0 <= k < |ns| - 1 && Crosses(h, ns, k) ::
              ((ZoneOf(h, ns[k]), ZoneOf(h, ns[k + 1])), (id, k)) in CrossingsOf(h, id, ns)
  {
    CrossingsIff(h, id, ns);
    forall k | 0 <= k < |ns| - 1 && Crosses(h, ns, k)
      ensures ((ZoneOf(h, ns[k]), ZoneOf(h, ns[k + 1])), (id, k)) in CrossingsOf(h, id, ns)
    {
      assert CrossingEntry(h, id, ns, ((ZoneOf(h, ns[k]), ZoneOf(h, ns[k + 1])), (id, k)));
    }
  }

  /** Every link under the line's segments is in the network. */
  predicate OnLinks(h: Hyper, line: Line)
  {
    forall k | 0 <= k < |line.segments| - 1 :: line.LinkOf(k) in h.links
  }

  /** The dictionary of every node of the line holds the line's group. */
  predicate AllMapped(h: Hyper, line: Line)
  {
    forall k | 0 <= k < |line.segments| :: HyperNode(h, line.segments[k].iNode, line.group).Some?
  }

  /** No two consecutive nodes of the line share their virtual node. */
  predicate NoSelfStep(h: Hyper, line: Line)
  {
    forall k | 0 <= k < |line.segments| - 1 ::
      HyperNode(h, line.segments[k].iNode, line.group) != HyperNode(h, line.segments[k + 1].iNode, line.group)
  }

  /** On a sound network the rewrite of a line fails exactly when the line
      has no link, runs over a missing link, visits a node whose dictionary
      lacks its group, or would join a virtual node to itself. */
  lemma RewriteOkIff(h: Hyper, id: LineId, line: Line, save: bool)
    requires Sound(h)
    ensures RewriteLine(h, id, line, save).Ok? <==>
              |line.segments| >= 2 && OnLinks(h, line) && AllMapped(h, line) && NoSelfStep(h, line)
  {
    var segs := line.segments;
    var g := line.group;
    var ns := BaseNodes(line);
    var m := MapNodes(h, ns, g);
    var r := RewriteLine(h, id, line, save);
    assert m.Ok? <==> AllMapped(h, line);
    if |segs| >= 2 && OnLinks(h, line) {
      if m.Ok? {
        var vs := m.value;
        assert r.Ok? <==> Creatable(h, vs);
        assert forall k | 0 <= k < |vs| :: HyperNode(h, ns[k], g) == Some(vs[k]);
        NoSelfStepIff(h, line, vs);
        CreatableIff(h, vs);
      } else {
        assert r.Err?;
      }
    } else {
      assert r.Err?;
    }
  }

  lemma NoSelfStepIff(h: Hyper, line: Line, vs: seq<NodeId>)
    requires |vs| == |line.segments|
    requires forall k | 0 <= k < |vs| :: HyperNode(h, BaseNodes(line)[k], line.group) == Some(vs[k])
    ensures NoSelfStep(h, line) <==> forall k | 0 <= k < |vs| - 1 :: vs[k] != vs[k + 1]
  {
    assert forall k | 0 <= k < |vs| :: BaseNodes(line)[k] == line.segments[k].iNode;
  }

  /** On a sound network, links can be created along virtual nodes of the
      network exactly when no two consecutive ones coincide. */
  lemma CreatableIff(h: Hyper, vs: seq<NodeId>)
    requires Sound(h) && forall k | 0 <= k < |vs| :: vs[k] in h.nodes
    ensures Creatable(h, vs) <==> forall k | 0 <= k < |vs| - 1 :: vs[k] != vs[k + 1]
  {
    if forall k | 0 <= k < |vs| - 1 :: vs[k] != vs[k + 1] {
      forall k | 0 <= k < |vs| - 1
        ensures (vs[k], vs[k + 1]) in h.links || (vs[k] != vs[k + 1] && vs[k] in h.nodes && vs[k + 1] in h.nodes)
      {
      }
    }
  }

  /** A successful rewrite keeps the line's group, mode and vehicle and
      its segments in order, moving each onto the virtual node of the
      line's group at its base node, with its other attributes unchanged
      (its base node recorded when asked). */
  lemma RewriteLineShape(h: Hyper, id: LineId, line: Line, save: bool)
    requires RewriteLine(h, id, line, save).Ok?
    ensures var nl := RewriteLine(h, id, line, save).value.line;
            var segs := line.segments;
            && nl.group == line.group && nl.mode == line.mode && nl.vehicle == line.vehicle
            && |nl.segments| == |segs| >= 2
            && forall k | 0 <= k < |segs| ::
                 && HyperNode(h, segs[k].iNode, line.group).Some?
                 && nl.segments[k].iNode == HyperNode(h, segs[k].iNode, line.group).value
                 && nl.segments[k].baseINode == (if save then segs[k].iNode else segs[k].baseINode)
                 && nl.segments[k].(iNode := segs[k].iNode, baseINode := segs[k].baseINode) == segs[k]
  {
  }

  /** A successful rewrite keeps every link of the network, adding the
      line's mode to those it runs over; it links every pair of
      consecutive virtual nodes; and every link it creates is one of these,
      with the attributes of the base link under it. */
  lemma RewriteLineLinks(h: Hyper, id: LineId, line: Line, save: bool)
    requires RewriteLine(h, id, line, save).Ok?
    ensures var r := RewriteLine(h, id, line, save).value.links;
            var vs := MapNodes(h, BaseNodes(line), line.group).value;
            var segs := line.segments;
            && (forall key | key in h.links ::
                  key in r && r[key].(modes := h.links[key].modes) == h.links[key]
                  && r[key].modes == h.links[key].modes + (if key in Steps(vs) then {line.mode} else {}))
            && (forall k | 0 <= k < |segs| - 1 :: (vs[k], vs[k + 1]) in r && line.mode in r[(vs[k], vs[k + 1])].modes)
            && (forall key | key in r && key !in h.links ::
                  exists k | 0 <= k < |segs| - 1 :: key == (vs[k], vs[k + 1]) && r[key] == Created(h.links[line.LinkOf(k)], line.mode))
  {
    var r := RewriteLine(h, id, line, save).value.links;
    var vs := MapNodes(h, BaseNodes(line), line.group).value;
    var bases := BaseLinks(h, line);
    var ks := Steps(vs);
    assert r == AddLineLinks(h.links, ks, bases, line.mode);
    LineLinksKeep(h.links, ks, bases, line.mode);
    LineLinksCover(h.links, ks, bases, line.mode);
    LineLinksOnly(h.links, ks, bases, line.mode);
    forall k | 0 <= k < |line.segments| - 1
      ensures (vs[k], vs[k + 1]) in r && line.mode in r[(vs[k], vs[k + 1])].modes
    {
      assert ks[k] == (vs[k], vs[k + 1]);
    }
    forall key | key in r && key !in h.links
      ensures exists k | 0 <= k < |line.segments| - 1 :: key == (vs[k], vs[k + 1]) && r[key] == Created(h.links[line.LinkOf(k)], line.mode)
    {
      var k :| 0 <= k < |ks| && ks[k] == key && r[key] == Created(bases[k], line.mode);
      assert bases[k] == h.links[line.LinkOf(k)];
    }
  }

  /** Rewriting the lines only adds modes to the links the network had,
      keeps it sound, and leaves every line not rewritten as it was. */
  lemma {:induction false} ProcessLinesKeeps(st: LineState, ids: seq<LineId>, save: bool)
    requires Sound(st.h) && ProcessLines(st, ids, save).Ok?
    ensures var r := ProcessLines(st, ids, save).value;
            && Sound(r.h)
            && (forall key | key in st.h.links ::
                  key in r.h.links && r.h.links[key].(modes := st.h.links[key].modes) == st.h.links[key]
                  && st.h.links[key].modes <= r.h.links[key].modes)
            && (forall id | id in st.lines && id !in ids :: id in r.lines && r.lines[id] == st.lines[id])
            && st.crossings <= r.crossings
    decreases |ids|
  {
    if |ids| > 0 {
      var rw := RewriteLine(st.h, ids[0], st.lines[ids[0]], save).value;
      var st1 := LineState(st.h.(links := rw.links), st.lines[ids[0] := rw.line], st.crossings + rw.crossings);
      RewriteLineLinks(st.h, ids[0], st.lines[ids[0]], save);
      RewriteSound(st.h, ids[0], st.lines[ids[0]], save);
      ProcessLinesKeeps(st1, ids[1..], save);
      assert forall id | id !in ids :: id != ids[0] && id !in ids[1..];
    }
  }

  /** A rewrite only creates links between distinct nodes. */
  lemma RewriteSound(h: Hyper, id: LineId, line: Line, save: bool)
    requires Sound(h) && RewriteLine(h, id, line, save).Ok?
    ensures Sound(h.(links := RewriteLine(h, id, line, save).value.links))
  {
    var r := RewriteLine(h, id, line, save).value.links;
    var vs := MapNodes(h, BaseNodes(line), line.group).value;
    RewriteLineLinks(h, id, line, save);
    forall key | key in r
      ensures key.0 in h.nodes && key.1 in h.nodes && key.0 != key.1
    {
      if key !in h.links {
        var k :| 0 <= k < |line.segments| - 1 && key == (vs[k], vs[k + 1]) && r[key] == Created(h.links[line.LinkOf(k)], line.mode);
        assert Creatable(h, vs);
      }
    }
  }
}
