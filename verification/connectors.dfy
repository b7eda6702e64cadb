/** Indexing the connectors of station centroids: for each station group
    (a line group and the centroids serving its stations), every link
    from such a centroid into a node where the group stops is filed in
    cell (0, group) of the transfer grid, and every link from such a node
    into the centroid in cell (group, 0). */
module StationIndex {
  import opened Outcomes
  import opened Network
  import opened HyperNet

  /** A station group as loaded: the external id of a line group and the
      centroids selected for it. */
  datatype StationGroup = StationGroup(forGroup: string, centroids: seq<NodeId>)

  /** The entries filed for centroid `c` and group number `idx`: its
      outgoing links into nodes where `idx` stops, and its incoming links
      from such nodes. A node that is not a centroid files nothing. */
  function CentroidEntries(h: Hyper, c: NodeId, idx: GroupId): set<Entry>
    requires c in h.nodes
  {
    if !h.nodes[c].isCentroid then {}
    else
      (set k | k in h.links && k.0 == c && k.1 in h.nodes && idx in h.nodes[k.1].stopping :: ((0, idx), k))
      + (set k | k in h.links && k.1 == c && k.0 in h.nodes && idx in h.nodes[k.0].stopping :: ((idx, 0), k))
  }

  /** The centroids `cs` of one station group, in turn; an id the network
      does not hold fails. */
  function IndexCentroids(h: Hyper, cs: seq<NodeId>, idx: GroupId): (r: Result<set<Entry>>)
    decreases |cs|
  {
    if |cs| == 0 then Ok({})
    else if cs[0] !in h.nodes then Err("no such node")
    else
      var rest :- IndexCentroids(h, cs[1..], idx);
      Ok(CentroidEntries(h, cs[0], idx) + rest)
  }

  /** Indexing every station group; a group id without a number fails. */
  function IndexStationConnectors(h: Hyper, items: seq<StationGroup>, groupIds: map<string, GroupId>): (r: Result<Hyper>)
    ensures r.Ok? ==> r.value.(grid := h.grid) == h && h.grid <= r.value.grid
    decreases |items|
  {
    if |items| == 0 then Ok(h)
    else if items[0].forGroup !in groupIds then Err("KeyError: unknown line group")
    else
      var es :- IndexCentroids(h, items[0].centroids, groupIds[items[0].forGroup]);
      var h1 := h.(grid := h.grid + es);
      IndexStationConnectors(h1, items[1..], groupIds)
  }

  // ---------------------------------------------------------------------
  // Properties

  /** Entry `e` files a connector of centroid `c` for group number `idx`:
      a link leaving `c` for a node where `idx` stops, in cell (0, idx), or
      a link from such a node into `c`, in cell (idx, 0). */
  predicate FilesConnector(h: Hyper, c: NodeId, idx: GroupId, e: Entry)
  {
    && c in h.nodes && h.nodes[c].isCentroid && e.1 in h.links
    && ((e.0 == (0, idx) && e.1.0 == c && e.1.1 in h.nodes && idx in h.nodes[e.1.1].stopping)
        || (e.0 == (idx, 0) && e.1.1 == c && e.1.0 in h.nodes && idx in h.nodes[e.1.0].stopping))
  }

  /** The entries filed for a centroid are exactly its connectors. */
  lemma CentroidEntriesAt(h: Hyper, c: NodeId, idx: GroupId, e: Entry)
    requires c in h.nodes
    ensures e in CentroidEntries(h, c, idx) <==> FilesConnector(h, c, idx, e)
  {
    if FilesConnector(h, c, idx, e) {
      var k := e.1;
      if e.0 == (0, idx) && k.0 == c && k.1 in h.nodes && idx in h.nodes[k.1].stopping {
        assert e in (set k | k in h.links && k.0 == c && k.1 in h.nodes && idx in h.nodes[k.1].stopping :: ((0, idx), k));
      } else {
        assert e in (set k | k in h.links && k.1 == c && k.0 in h.nodes && idx in h.nodes[k.0].stopping :: ((idx, 0), k));
      }
    }
  }

  /** The entries of one station group are exactly the connectors of its
      centroids; it fails exactly when one of them is not a node. */
  lemma {:induction false} IndexCentroidsAt(h: Hyper, cs: seq<NodeId>, idx: GroupId)
    ensures IndexCentroids(h, cs, idx).Ok? <==> forall c | c in cs :: c in h.nodes
    ensures IndexCentroids(h, cs, idx).Ok? ==>
              forall e :: e in IndexCentroids(h, cs, idx).value <==> exists c | c in cs :: FilesConnector(h, c, idx, e)
    decreases |cs|
  {
    if |cs| > 0 {
      IndexCentroidsAt(h, cs[1..], idx);
      assert forall c :: c in cs <==> c == cs[0] || c in cs[1..];
      var r := IndexCentroids(h, cs, idx);
      if r.Ok? {
        var rest := IndexCentroids(h, cs[1..], idx).value;
        assert r.value == CentroidEntries(h, cs[0], idx) + rest;
        forall e
          ensures e in r.value <==> exists c | c in cs :: FilesConnector(h, c, idx, e)
        {
          CentroidEntriesAt(h, cs[0], idx, e);
        }
      }
    }
  }

  /** Indexing succeeds exactly when every station group names a known
      line group and every centroid it lists is a node. */
  lemma {:induction false} IndexOkIff(h: Hyper, items: seq<StationGroup>, groupIds: map<string, GroupId>)
    ensures IndexStationConnectors(h, items, groupIds).Ok? <==>
              forall t | 0 <= t < |items| ::
                items[t].forGroup in groupIds && forall c | c in items[t].centroids :: c in h.nodes
    decreases |items|
  {
    if |items| > 0 && items[0].forGroup in groupIds {
      var cs := items[0].centroids;
      IndexCentroidsAt(h, cs, groupIds[items[0].forGroup]);
      var r := IndexCentroids(h, cs, groupIds[items[0].forGroup]);
      if r.Ok? {
        IndexOkIff(h.(grid := h.grid + r.value), items[1..], groupIds);
      }
      assert forall t | 0 < t < |items| :: items[1..][t - 1] == items[t];
    }
  }

  /** After indexing, the grid holds what it held and, besides that,
      exactly the connectors of the centroids of every station group, each
      under the number of its line group. */
  lemma {:induction false} IndexedEntries(h: Hyper, items: seq<StationGroup>, groupIds: map<string, GroupId>)
    requires IndexStationConnectors(h, items, groupIds).Ok?
    ensures forall e :: e in IndexStationConnectors(h, items, groupIds).value.grid <==>
              || e in h.grid
              || exists t, c | 0 <= t < |items| && c in items[t].centroids ::
                   items[t].forGroup in groupIds && FilesConnector(h, c, groupIds[items[t].forGroup], e)
    decreases |items|
  {
    if |items| > 0 {
      var idx := groupIds[items[0].forGroup];
      var cs := items[0].centroids;
      IndexCentroidsAt(h, cs, idx);
      var es := IndexCentroids(h, cs, idx).value;
      var h1 := h.(grid := h.grid + es);
      IndexedEntries(h1, items[1..], groupIds);
      assert forall t | 0 < t < |items| :: items[1..][t - 1] == items[t];
      assert forall c: NodeId, g: GroupId, e: Entry :: FilesConnector(h1, c, g, e) == FilesConnector(h, c, g, e);
    }
  }
}
