/** The expansion of a station node: the first stopping group keeps the
    station itself, every other stopping group gets a virtual copy that
    inherits copies of the station's catalogued links, the group nodes
    are meshed, and each passing group gets an unconnected copy. */
module Station {
  import opened Collections
  import opened Network
  import opened HyperNet
  import opened Meshing

  /** The far ends of the station's links, classified once before any
      copy is made: `outs`/`ins` are the ends of the catalogued links
      (station connectors, and centroid connectors when those count as
      station connectors), `outConns`/`inConns` the ends of the centroid
      connectors otherwise. */
  datatype Catalogue = Catalogue(outs: set<NodeId>, ins: set<NodeId>, outConns: set<NodeId>, inConns: set<NodeId>)

  /** Link `k` with far end `far` is copied and indexed with the station. */
  predicate Catalogued(h: Hyper, k: LinkKey, far: NodeId, flag: bool)
    requires k in h.links
  {
    h.links[k].role == StationConnector || (flag && far in h.nodes && h.nodes[far].isCentroid)
  }

  /** Link `k` with far end `far` is a centroid connector that is copied
      but not indexed. */
  predicate PlainConnector(h: Hyper, k: LinkKey, far: NodeId, flag: bool)
    requires k in h.links
  {
    h.links[k].role != StationConnector && !flag && far in h.nodes && h.nodes[far].isCentroid
  }

  function CatalogueOf(h: Hyper, b: NodeId, flag: bool): (cat: Catalogue)
    ensures forall j | j in cat.outs + cat.outConns :: (b, j) in h.links
    ensures forall i | i in cat.ins + cat.inConns :: (i, b) in h.links
  {
    Catalogue(
      set k | k in h.links && k.0 == b && Catalogued(h, k, k.1, flag) :: k.1,
      set k | k in h.links && k.1 == b && Catalogued(h, k, k.0, flag) :: k.0,
      set k | k in h.links && k.0 == b && PlainConnector(h, k, k.1, flag) :: k.1,
      set k | k in h.links && k.1 == b && PlainConnector(h, k, k.0, flag) :: k.0)
  }

  /** Copies onto `v` of the links from `b` to each of `js`. */
  function OutCopies(links0: map<LinkKey, Link>, b: NodeId, v: NodeId, js: set<NodeId>): map<LinkKey, Link>
  {
    map k | k in (set j | j in js :: (v, j)) && (b, k.1) in links0 :: links0[(b, k.1)]
  }

  /** Copies onto `v` of the links to `b` from each of `starts`. */
  function InCopies(links0: map<LinkKey, Link>, b: NodeId, v: NodeId, starts: set<NodeId>): map<LinkKey, Link>
  {
    map k | k in (set i | i in starts :: (i, v)) && (k.0, b) in links0 :: links0[(k.0, b)]
  }

  /** Every link copy a virtual node `v` of the station receives. */
  function Copies(links0: map<LinkKey, Link>, b: NodeId, v: NodeId, cat: Catalogue, flag: bool): map<LinkKey, Link>
  {
    var conns := if flag then map[] else OutCopies(links0, b, v, cat.outConns) + InCopies(links0, b, v, cat.inConns);
    conns + OutCopies(links0, b, v, cat.outs) + InCopies(links0, b, v, cat.ins)
  }

  /** The grid entries of the catalogued links of group node `u` (the
      station itself or one of its copies) for group `g`: leaving links
      in cell (g, 0), arriving ones in cell (0, g). */
  function CatalogueEntries(b: NodeId, u: NodeId, g: GroupId, cat: Catalogue): set<Entry>
  {
    (set j | j in cat.outs :: ((g, 0), (u, j))) + (set i | i in cat.ins :: ((0, g), (i, u)))
  }

  /** The first stopping group is served by the station itself. */
  function StationFirst(h: Hyper, b: NodeId, g: GroupId, cat: Catalogue): Hyper
    requires b in h.nodes
  {
    h.(hyper := h.hyper[(h.nodes[b].hyperOwner, g) := b], grid := h.grid + CatalogueEntries(b, b, g, cat))
  }

  /** A later stopping group: a virtual copy with copies of the links in
      `links0`, the station's links when the expansion started. */
  function StationCopy(h: Hyper, b: NodeId, g: GroupId, cat: Catalogue, links0: map<LinkKey, Link>, flag: bool): (r: (Hyper, NodeId))
    requires b in h.nodes
  {
    var (h1, v) := NewVirtual(h, b, g);
    (h1.(links := h1.links + Copies(links0, b, v, cat, flag), grid := h1.grid + CatalogueEntries(b, v, g, cat)), v)
  }

  function StationCopies(h: Hyper, b: NodeId, gs: seq<GroupId>, cat: Catalogue, links0: map<LinkKey, Link>, flag: bool): (r: (Hyper, seq<NodeId>))
    requires b in h.nodes
    ensures |r.1| == |gs|
    ensures b in r.0.nodes && r.0.nodes[b] == h.nodes[b]
    decreases |gs|
  {
    if |gs| == 0 then (h, [])
    else
      var n := |gs| - 1;
      var (h1, vs1) := StationCopies(h, b, gs[..n], cat, links0, flag);
      var (h2, v) := StationCopy(h1, b, gs[n], cat, links0, flag);
      (h2, vs1 + [v])
  }

  /** The link copies of every virtual node of `vs`. */
  function AllCopies(links0: map<LinkKey, Link>, b: NodeId, vs: seq<NodeId>, cat: Catalogue, flag: bool): map<LinkKey, Link>
  {
    MergeOver(v => Copies(links0, b, v, cat, flag), vs)
  }

  /** The catalogue entries of the group nodes `us` for groups `gs`. */
  function AllEntries(b: NodeId, us: seq<NodeId>, gs: seq<GroupId>, cat: Catalogue): set<Entry>
    requires |us| == |gs|
    decreases |us|
  {
    if |us| == 0 then {}
    else
      var n := |us| - 1;
      AllEntries(b, us[..n], gs[..n], cat) + CatalogueEntries(b, us[n], gs[n], cat)
  }

  lemma CopiesNodes(h0: Hyper, b: NodeId, gs: seq<GroupId>, cat: Catalogue, links0: map<LinkKey, Link>, flag: bool)
    requires b in h0.nodes
    ensures var (h, vs) := StationCopies(h0, b, gs, cat, links0, flag);
            && Allocated(h0, h, h0.nodes[b], vs)
            && h.hyper == h0.hyper + Zip(h0.nodes[b].hyperOwner, gs, vs)
  {
    CopiesAllocated(h0, b, gs, cat, links0, flag);
    CopiesHyper(h0, b, gs, cat, links0, flag);
  }

  lemma {:induction false} CopiesAllocated(h0: Hyper, b: NodeId, gs: seq<GroupId>, cat: Catalogue, links0: map<LinkKey, Link>, flag: bool)
    requires b in h0.nodes
    ensures var (h, vs) := StationCopies(h0, b, gs, cat, links0, flag);
            Allocated(h0, h, h0.nodes[b], vs)
    decreases |gs|
  {
    if |gs| == 0 {
      var e: seq<NodeId> := [];
      assert Uniform(Elems(e), h0.nodes[b]) == map[];
    } else {
      var n := |gs| - 1;
      CopiesAllocated(h0, b, gs[..n], cat, links0, flag);
      var (h1, vs1) := StationCopies(h0, b, gs[..n], cat, links0, flag);
      AllocatedStep(h0, h1, b, vs1, gs[n]);
    }
  }

  lemma {:induction false} CopiesHyper(h0: Hyper, b: NodeId, gs: seq<GroupId>, cat: Catalogue, links0: map<LinkKey, Link>, flag: bool)
    requires b in h0.nodes
    ensures var (h, vs) := StationCopies(h0, b, gs, cat, links0, flag);
            h.hyper == h0.hyper + Zip(h0.nodes[b].hyperOwner, gs, vs)
    decreases |gs|
  {
    if |gs| == 0 {
      assert h0.hyper + map[] == h0.hyper;
    } else {
      var n := |gs| - 1;
      CopiesHyper(h0, b, gs[..n], cat, links0, flag);
      var (h1, vs1) := StationCopies(h0, b, gs[..n], cat, links0, flag);
      var (h2, v) := StationCopy(h1, b, gs[n], cat, links0, flag);
      HyperSnoc(h0.hyper, h1.hyper, h0.nodes[b].hyperOwner, gs[..n], vs1, gs[n], v);
      PrefixSnoc(gs, n);
    }
  }

  lemma {:induction false} CopiesLinks(h0: Hyper, b: NodeId, gs: seq<GroupId>, cat: Catalogue, links0: map<LinkKey, Link>, flag: bool)
    requires b in h0.nodes
    ensures var (h, vs) := StationCopies(h0, b, gs, cat, links0, flag);
            && h.links == h0.links + AllCopies(links0, b, vs, cat, flag)
            && h.grid == h0.grid + AllEntries(b, vs, gs, cat)
    decreases |gs|
  {
    if |gs| == 0 {
      assert h0.links + map[] == h0.links;
    } else {
      var n := |gs| - 1;
      CopiesLinks(h0, b, gs[..n], cat, links0, flag);
      var (h1, vs1) := StationCopies(h0, b, gs[..n], cat, links0, flag);
      var (h2, v) := StationCopy(h1, b, gs[n], cat, links0, flag);
      var vs := vs1 + [v];
      assert vs[..n] == vs1 && vs[n] == v;
      PrefixSnoc(gs, n);
      MergeAssoc(h0.links, AllCopies(links0, b, vs1, cat, flag), Copies(links0, b, v, cat, flag));
    }
  }

  /** The group nodes of a station: itself for the first stopping group,
      then its copies. */
  function GroupNodes(b: NodeId, gs: seq<GroupId>, vs: seq<NodeId>): (us: seq<NodeId>)
    requires |gs| == |vs| + 1 || (|gs| == 0 && |vs| == 0)
    ensures |us| == |gs|
  {
    if |gs| == 0 then [] else [b] + vs
  }

  /** The stopping groups of the station: the station itself for the
      first, a copy for each later one. */
  function StationGroups(h: Hyper, b: NodeId, gs: seq<GroupId>, cat: Catalogue, flag: bool): (r: (Hyper, seq<NodeId>))
    requires b in h.nodes
    ensures |gs| == |r.1| + 1 || (|gs| == 0 && |r.1| == 0)
    ensures b in r.0.nodes && r.0.nodes[b] == h.nodes[b]
  {
    if |gs| == 0 then (h, [])
    else StationCopies(StationFirst(h, b, gs[0], cat), b, gs[1..], cat, h.links, flag)
  }

  /** The whole station expansion of `b`, with `gs` its stopping groups in
      the order the expansion visits them (the first one is kept by the
      station) and `flag` telling whether centroid connectors count as
      station connectors. */
  function TransformStation(h: Hyper, b: NodeId, gs: seq<GroupId>, mode: Mode, flag: bool): (r: (Hyper, seq<NodeId>, seq<NodeId>))
    requires b in h.nodes
    ensures b in r.0.nodes && r.0.nodes[b] == h.nodes[b]
    ensures |r.1| == if |gs| == 0 then 0 else |gs| - 1
    ensures |r.2| == |h.nodes[b].passing|
  {
    var (h2, vs) := StationGroups(h, b, gs, CatalogueOf(h, b, flag), flag);
    var h3 := Mesh(h2, GroupNodes(b, gs, vs), gs, mode);
    var (h4, ws) := AddVirtuals(h3, b, Ascending(h.nodes[b].passing));
    (h4, vs, ws)
  }

  lemma {:induction false} GroupsNodes(h: Hyper, b: NodeId, gs: seq<GroupId>, cat: Catalogue, flag: bool)
    requires b in h.nodes
    ensures var (h2, vs) := StationGroups(h, b, gs, cat, flag);
            var o := h.nodes[b].hyperOwner;
            && Allocated(h, h2, h.nodes[b], vs)
            && (|gs| == 0 ==> h2.hyper == h.hyper)
            && (|gs| > 0 ==> h2.hyper == h.hyper[(o, gs[0]) := b] + Zip(o, gs[1..], vs))
  {
    if |gs| == 0 {
      var e: seq<NodeId> := [];
      assert Uniform(Elems(e), h.nodes[b]) == map[];
    } else {
      var h1 := StationFirst(h, b, gs[0], cat);
      CopiesNodes(h1, b, gs[1..], cat, h.links, flag);
    }
  }

  /** The nodes a station expansion creates: first-fit copies of `b`, one
      per stopping group after the first and one per passing group. */
  lemma {:induction false} StationAllocated(h: Hyper, b: NodeId, gs: seq<GroupId>, mode: Mode, flag: bool)
    requires b in h.nodes
    ensures var (r, vs, ws) := TransformStation(h, b, gs, mode, flag);
            && Allocated(h, r, h.nodes[b], vs + ws)
            && NoDup(vs + ws) && forall v | v in vs + ws :: v !in h.nodes
  {
    var nd := h.nodes[b];
    var (h2, vs) := StationGroups(h, b, gs, CatalogueOf(h, b, flag), flag);
    var h3 := Mesh(h2, GroupNodes(b, gs, vs), gs, mode);
    var (r, ws) := AddVirtuals(h3, b, Ascending(nd.passing));
    GroupsNodes(h, b, gs, CatalogueOf(h, b, flag), flag);
    VirtualsAdded(h3, b, Ascending(nd.passing));
    assert Allocated(h2, r, nd, ws);
    AllocatedAppend(h, h2, r, nd, vs, ws);
    FirstFitFresh(h.nodes.Keys, h.next, vs + ws, r.next);
  }

  /** The copies of `b` share its zone, so centroids stay in zone 0. */
  lemma StationCentroidZones(h: Hyper, b: NodeId, gs: seq<GroupId>, mode: Mode, flag: bool)
    requires b in h.nodes && CentroidZonesZero(h.nodes)
    ensures CentroidZonesZero(TransformStation(h, b, gs, mode, flag).0.nodes)
  {
    var (r, vs, ws) := TransformStation(h, b, gs, mode, flag);
    StationAllocated(h, b, gs, mode, flag);
    AllocatedCentroidZones(h, r, h.nodes[b], vs + ws);
  }

  /** The dictionary `b` carries sends the first stopping group to `b`,
      every later one to its copy, and every passing group to its copy. */
  lemma {:induction false} StationHyper(h: Hyper, b: NodeId, gs: seq<GroupId>, mode: Mode, flag: bool)
    requires b in h.nodes
    ensures var (r, vs, ws) := TransformStation(h, b, gs, mode, flag);
            var nd := h.nodes[b];
            var ps := Ascending(nd.passing);
            && (|gs| == 0 ==> r.hyper == h.hyper + Zip(nd.hyperOwner, ps, ws))
            && (|gs| > 0 ==> r.hyper == h.hyper[(nd.hyperOwner, gs[0]) := b]
                                        + Zip(nd.hyperOwner, gs[1..], vs) + Zip(nd.hyperOwner, ps, ws))
  {
    var nd := h.nodes[b];
    var (h2, vs) := StationGroups(h, b, gs, CatalogueOf(h, b, flag), flag);
    var h3 := Mesh(h2, GroupNodes(b, gs, vs), gs, mode);
    GroupsNodes(h, b, gs, CatalogueOf(h, b, flag), flag);
    VirtualsAdded(h3, b, Ascending(nd.passing));
  }

  lemma {:induction false} GroupsLinks(h: Hyper, b: NodeId, gs: seq<GroupId>, cat: Catalogue, flag: bool)
    requires b in h.nodes
    ensures var (h2, vs) := StationGroups(h, b, gs, cat, flag);
            && h2.links == h.links + AllCopies(h.links, b, vs, cat, flag)
            && (|gs| == 0 ==> h2.grid == h.grid)
            && (|gs| > 0 ==> h2.grid == h.grid + CatalogueEntries(b, b, gs[0], cat) + AllEntries(b, vs, gs[1..], cat))
  {
    if |gs| == 0 {
      assert h.links + map[] == h.links;
    } else {
      CopiesLinks(StationFirst(h, b, gs[0], cat), b, gs[1..], cat, h.links, flag);
    }
  }

  /** The links of a station expansion: the station's links, copies of
      them onto every copy node, and the transfer mesh among its group
      nodes. */
  lemma {:induction false} StationLinks(h: Hyper, b: NodeId, gs: seq<GroupId>, mode: Mode, flag: bool)
    requires b in h.nodes
    ensures var (r, vs, ws) := TransformStation(h, b, gs, mode, flag);
            r.links == h.links + AllCopies(h.links, b, vs, CatalogueOf(h, b, flag), flag)
                               + Uniform(MeshKeys(GroupNodes(b, gs, vs)), TransferLink(mode))
  {
    var cat := CatalogueOf(h, b, flag);
    var (h2, vs) := StationGroups(h, b, gs, cat, flag);
    GroupsLinks(h, b, gs, cat, flag);
    MeshLinks(h2, GroupNodes(b, gs, vs), gs, mode);
  }

  /** The grid entries of a station expansion: the catalogued links of
      every group node under its group, and the mesh among them. */
  lemma {:induction false} StationGrid(h: Hyper, b: NodeId, gs: seq<GroupId>, mode: Mode, flag: bool)
    requires b in h.nodes
    ensures var (r, vs, ws) := TransformStation(h, b, gs, mode, flag);
            var cat := CatalogueOf(h, b, flag);
            && (|gs| == 0 ==> r.grid == h.grid)
            && (|gs| > 0 ==> r.grid == h.grid + CatalogueEntries(b, b, gs[0], cat) + AllEntries(b, vs, gs[1..], cat)
                                               + MeshEntries([b] + vs, gs))
  {
    var cat := CatalogueOf(h, b, flag);
    var (h2, vs) := StationGroups(h, b, gs, cat, flag);
    GroupsLinks(h, b, gs, cat, flag);
    MeshLinks(h2, GroupNodes(b, gs, vs), gs, mode);
  }

  /** A copy joins the copy node with a neighbour of the station. */
  lemma CopyKeys(links0: map<LinkKey, Link>, b: NodeId, v: NodeId, cat: Catalogue, flag: bool, k: LinkKey)
    requires k in Copies(links0, b, v, cat, flag)
    ensures (k.0 == v && (b, k.1) in links0) || (k.1 == v && (k.0, b) in links0)
  {
  }

  lemma {:induction false} AllCopiesKeys(links0: map<LinkKey, Link>, b: NodeId, vs: seq<NodeId>, cat: Catalogue, flag: bool, k: LinkKey)
    requires k in AllCopies(links0, b, vs, cat, flag)
    ensures (k.0 in vs && (b, k.1) in links0) || (k.1 in vs && (k.0, b) in links0)
    decreases |vs|
  {
    var n := |vs| - 1;
    if k in Copies(links0, b, vs[n], cat, flag) {
      CopyKeys(links0, b, vs[n], cat, flag, k);
    } else {
      AllCopiesKeys(links0, b, vs[..n], cat, flag, k);
      assert forall x | x in vs[..n] :: x in vs;
    }
  }

  /** The group nodes are distinct when the copies are new. */
  lemma GroupNodesDistinct(b: NodeId, gs: seq<GroupId>, vs: seq<NodeId>)
    requires |gs| == |vs| + 1 || (|gs| == 0 && |vs| == 0)
    requires NoDup(vs) && b !in vs
    ensures NoDup(GroupNodes(b, gs, vs))
  {
    var us := GroupNodes(b, gs, vs);
    if |gs| > 0 {
      forall s, t | 0 <= s < t < |us|
        ensures us[s] != us[t]
      {
        assert us[t] == vs[t - 1];
        if s > 0 {
          assert us[s] == vs[s - 1];
        }
      }
    }
  }

  lemma {:induction false} StationLinksClosed(h: Hyper, b: NodeId, gs: seq<GroupId>, mode: Mode, flag: bool)
    requires b in h.nodes && Sound(h)
    ensures var r := TransformStation(h, b, gs, mode, flag).0; LinksClosed(r.nodes, r.links)
  {
    var cat := CatalogueOf(h, b, flag);
    var (r, vs, ws) := TransformStation(h, b, gs, mode, flag);
    var us := GroupNodes(b, gs, vs);
    StationAllocated(h, b, gs, mode, flag);
    StationLinks(h, b, gs, mode, flag);
    FirstFitFresh(h.nodes.Keys, h.next, vs + ws, r.next);
    NoDupAppend(vs, ws);
    GroupNodesDistinct(b, gs, vs);
    forall k | k in r.links
      ensures k.0 in r.nodes && k.1 in r.nodes && k.0 != k.1
    {
      if k in Uniform(MeshKeys(us), TransferLink(mode)) {
        MeshKeysAt(us, k);
      } else if k in AllCopies(h.links, b, vs, cat, flag) {
        AllCopiesKeys(h.links, b, vs, cat, flag, k);
      } else {
        assert k in h.links;
      }
    }
  }

  lemma {:induction false} StationSound(h: Hyper, b: NodeId, gs: seq<GroupId>, mode: Mode, flag: bool)
    requires b in h.nodes && Sound(h)
    ensures Sound(TransformStation(h, b, gs, mode, flag).0)
  {
    var (r, vs, ws) := TransformStation(h, b, gs, mode, flag);
    StationLinksClosed(h, b, gs, mode, flag);
    StationAllocated(h, b, gs, mode, flag);
    StationHyper(h, b, gs, mode, flag);
    AllocatedNodes(h, r, h.nodes[b], vs + ws);
    var o := h.nodes[b].hyperOwner;
    var zw := Zip(o, Ascending(h.nodes[b].passing), ws);
    forall key | key in r.hyper
      ensures r.hyper[key] in r.nodes
    {
      if key in zw {
        assert r.hyper[key] == zw[key];
        assert zw[key] in vs + ws;
      } else if |gs| > 0 {
        var zv := Zip(o, gs[1..], vs);
        if key in zv {
          assert r.hyper[key] == zv[key];
          assert zv[key] in vs + ws;
        } else if key == (o, gs[0]) {
          assert r.hyper[key] == b;
        } else {
          assert r.hyper[key] == h.hyper[key];
        }
      } else {
        assert r.hyper[key] == h.hyper[key];
      }
    }
  }

  /** No link of `links0` touches `v`. */
  predicate Detached(links0: map<LinkKey, Link>, v: NodeId)
  {
    forall k | k in links0 :: k.0 != v && k.1 != v
  }

  /** A copy node receives each catalogued link, unchanged. */
  lemma CopyAt(links0: map<LinkKey, Link>, b: NodeId, v: NodeId, cat: Catalogue, flag: bool)
    requires Detached(links0, v)
    ensures forall j | j in cat.outs && (b, j) in links0 ::
              (v, j) in Copies(links0, b, v, cat, flag) && Copies(links0, b, v, cat, flag)[(v, j)] == links0[(b, j)]
    ensures forall i | i in cat.ins && (i, b) in links0 ::
              (i, v) in Copies(links0, b, v, cat, flag) && Copies(links0, b, v, cat, flag)[(i, v)] == links0[(i, b)]
  {
    var c := Copies(links0, b, v, cat, flag);
    forall j | j in cat.outs && (b, j) in links0
      ensures (v, j) in c && c[(v, j)] == links0[(b, j)]
    {
      assert (v, j) in (set j' | j' in cat.outs :: (v, j'));
      assert (v, j) !in InCopies(links0, b, v, cat.ins);
    }
    forall i | i in cat.ins && (i, b) in links0
      ensures (i, v) in c && c[(i, v)] == links0[(i, b)]
    {
      assert (i, v) in (set i' | i' in cat.ins :: (i', v));
    }
  }

  /** Later copy nodes do not overwrite the copies of earlier ones. */
  lemma AllCopiesAt(links0: map<LinkKey, Link>, b: NodeId, vs: seq<NodeId>, cat: Catalogue, flag: bool, t: int, k: LinkKey)
    requires NoDup(vs) && forall x | x in vs :: Detached(links0, x)
    requires 0 <= t < |vs| && k in Copies(links0, b, vs[t], cat, flag)
    ensures k in AllCopies(links0, b, vs, cat, flag)
    ensures AllCopies(links0, b, vs, cat, flag)[k] == Copies(links0, b, vs[t], cat, flag)[k]
  {
    var f := v => Copies(links0, b, v, cat, flag);
    CopyKeys(links0, b, vs[t], cat, flag, k);
    forall s | 0 <= s < |vs| && s != t
      ensures k !in f(vs[s])
    {
      assert Detached(links0, vs[t]) && Detached(links0, vs[s]) && vs[s] != vs[t];
      if k in f(vs[s]) {
        CopyKeys(links0, b, vs[s], cat, flag, k);
        assert false;
      }
    }
    MergeOverAt(f, vs, t, k);
  }

  /** The grid entries of every copy node are among those of the copies. */
  lemma {:induction false} AllEntriesAt(b: NodeId, us: seq<NodeId>, gs: seq<GroupId>, cat: Catalogue, t: int)
    requires |us| == |gs| && 0 <= t < |us|
    ensures CatalogueEntries(b, us[t], gs[t], cat) <= AllEntries(b, us, gs, cat)
    decreases |us|
  {
    var n := |us| - 1;
    if t < n {
      assert us[..n][t] == us[t] && gs[..n][t] == gs[t];
      AllEntriesAt(b, us[..n], gs[..n], cat, t);
    }
  }

  /** Every stopping group of the station is served by its group node:
      the station itself for the first, its copy for each later one. */
  lemma StationGroupNode(h: Hyper, b: NodeId, gs: seq<GroupId>, mode: Mode, flag: bool, t: int)
    requires b in h.nodes && NoDup(gs) && 0 <= t < |gs|
    requires forall g | g in gs :: g !in h.nodes[b].passing
    ensures var (r, vs, ws) := TransformStation(h, b, gs, mode, flag);
            var key := (h.nodes[b].hyperOwner, gs[t]);
            && key in r.hyper
            && r.hyper[key] == GroupNodes(b, gs, vs)[t]
            && (t == 0 ==> r.hyper[key] == b)
  {
    var (r, vs, ws) := TransformStation(h, b, gs, mode, flag);
    var nd := h.nodes[b];
    StationHyper(h, b, gs, mode, flag);
    GroupNodeLookup(h.hyper, nd.hyperOwner, b, gs, vs, Ascending(nd.passing), ws, t);
  }

  /** The dictionary built for a station, looked up at a stopping group. */
  lemma GroupNodeLookup(hy: map<(NodeId, GroupId), NodeId>, o: NodeId, b: NodeId, gs: seq<GroupId>,
                        vs: seq<NodeId>, ps: seq<GroupId>, ws: seq<NodeId>, t: int)
    requires NoDup(gs) && 0 <= t < |gs| && |vs| == |gs| - 1 && |ps| == |ws|
    requires gs[t] !in ps
    ensures var m := hy[(o, gs[0]) := b] + Zip(o, gs[1..], vs) + Zip(o, ps, ws);
            && (o, gs[t]) in m
            && m[(o, gs[t])] == GroupNodes(b, gs, vs)[t]
            && (t == 0 ==> m[(o, gs[t])] == b)
  {
    var key := (o, gs[t]);
    var zv := Zip(o, gs[1..], vs);
    var first := hy[(o, gs[0]) := b];
    assert key !in Zip(o, ps, ws);
    NoDupTail(gs);
    if t == 0 {
      assert key !in zv;
    } else {
      assert gs[1..][t - 1] == gs[t];
      ZipAt(o, gs[1..], vs, t - 1);
    }
  }

  /** The copy nodes `vs` are distinct and untouched by `links0`, and the
      group nodes `us` are distinct and are `b` or copy nodes. */
  predicate FreshCopies(links0: map<LinkKey, Link>, b: NodeId, vs: seq<NodeId>, us: seq<NodeId>)
  {
    && NoDup(vs) && NoDup(us)
    && (forall x | x in us :: x == b || x in vs)
    && (forall v | v in vs :: Detached(links0, v))
    && (forall k | k in links0 :: k.0 != k.1)
  }

  /** The copy nodes of a station are new, so nothing the network had
      touches them. */
  lemma StationFresh(h: Hyper, b: NodeId, gs: seq<GroupId>, mode: Mode, flag: bool)
    requires b in h.nodes && Sound(h)
    ensures var (r, vs, ws) := TransformStation(h, b, gs, mode, flag);
            && FreshCopies(h.links, b, vs, GroupNodes(b, gs, vs))
            && forall v | v in vs :: v !in h.nodes && v in r.nodes && r.nodes[v] == h.nodes[b]
  {
    var (r, vs, ws) := TransformStation(h, b, gs, mode, flag);
    StationAllocated(h, b, gs, mode, flag);
    AllocatedNodes(h, r, h.nodes[b], vs + ws);
    NoDupAppend(vs, ws);
    GroupNodesDistinct(b, gs, vs);
    forall v | v in vs
      ensures v !in h.nodes && Detached(h.links, v) && v in r.nodes && r.nodes[v] == h.nodes[b]
    {
      assert v in vs + ws;
    }
    assert forall x | x in GroupNodes(b, gs, vs) :: x == b || x in vs;
  }

  /** The expansion of a station keeps every link the network had. */
  lemma StationKeepsLinks(h: Hyper, b: NodeId, gs: seq<GroupId>, mode: Mode, flag: bool)
    requires b in h.nodes && Sound(h)
    ensures var r := TransformStation(h, b, gs, mode, flag).0;
            forall k | k in h.links :: k in r.links && r.links[k] == h.links[k]
  {
    var (r, vs, ws) := TransformStation(h, b, gs, mode, flag);
    StationLinks(h, b, gs, mode, flag);
    StationFresh(h, b, gs, mode, flag);
    CopiesKeep(h.links, b, vs, CatalogueOf(h, b, flag), flag, GroupNodes(b, gs, vs), TransferLink(mode));
  }

  /** Adding the copies and a mesh among the group nodes `us` keeps every
      link of `links0`: each new key touches a new node. */
  lemma CopiesKeep(links0: map<LinkKey, Link>, b: NodeId, vs: seq<NodeId>, cat: Catalogue, flag: bool,
                   us: seq<NodeId>, t: Link)
    requires FreshCopies(links0, b, vs, us)
    ensures var m := links0 + AllCopies(links0, b, vs, cat, flag) + Uniform(MeshKeys(us), t);
            forall k | k in links0 :: k in m && m[k] == links0[k]
  {
    var copies := AllCopies(links0, b, vs, cat, flag);
    forall k | k in links0
      ensures k !in copies && k !in MeshKeys(us)
    {
      assert k.0 !in vs && k.1 !in vs;
      MeshKeysAt(us, k);
      if k in copies {
        AllCopiesKeys(links0, b, vs, cat, flag, k);
        assert false;
      }
    }
  }

  /** Every copy node of a station carries a copy of each catalogued
      link, with the station link's attributes. */
  lemma StationCopyLinks(h: Hyper, b: NodeId, gs: seq<GroupId>, mode: Mode, flag: bool, s: int)
    requires b in h.nodes && Sound(h)
    requires 0 <= s < |TransformStation(h, b, gs, mode, flag).1|
    ensures var (r, vs, ws) := TransformStation(h, b, gs, mode, flag);
            var cat := CatalogueOf(h, b, flag);
            && (forall j | j in cat.outs :: (vs[s], j) in r.links && r.links[(vs[s], j)] == h.links[(b, j)])
            && (forall i | i in cat.ins :: (i, vs[s]) in r.links && r.links[(i, vs[s])] == h.links[(i, b)])
  {
    var (r, vs, ws) := TransformStation(h, b, gs, mode, flag);
    StationLinks(h, b, gs, mode, flag);
    StationFresh(h, b, gs, mode, flag);
    CopiesCarry(h.links, b, vs, CatalogueOf(h, b, flag), flag, GroupNodes(b, gs, vs), TransferLink(mode), s);
  }

  /** After the copies and the mesh, copy node `vs[s]` holds a copy of each
      catalogued link of `b` in `links0`. */
  lemma CopiesCarry(links0: map<LinkKey, Link>, b: NodeId, vs: seq<NodeId>, cat: Catalogue, flag: bool,
                    us: seq<NodeId>, t: Link, s: int)
    requires FreshCopies(links0, b, vs, us)
    requires 0 <= s < |vs|
    ensures var m := links0 + AllCopies(links0, b, vs, cat, flag) + Uniform(MeshKeys(us), t);
            && (forall j | j in cat.outs && (b, j) in links0 :: (vs[s], j) in m && m[(vs[s], j)] == links0[(b, j)])
            && (forall i | i in cat.ins && (i, b) in links0 :: (i, vs[s]) in m && m[(i, vs[s])] == links0[(i, b)])
  {
    var v := vs[s];
    var copies := AllCopies(links0, b, vs, cat, flag);
    CopyAt(links0, b, v, cat, flag);
    forall j | j in cat.outs && (b, j) in links0
      ensures (v, j) in copies && copies[(v, j)] == links0[(b, j)] && (v, j) !in MeshKeys(us)
    {
      var k := (v, j);
      assert j !in vs && j != b;
      AllCopiesAt(links0, b, vs, cat, flag, s, k);
      MeshKeysAt(us, k);
    }
    forall i | i in cat.ins && (i, b) in links0
      ensures (i, v) in copies && copies[(i, v)] == links0[(i, b)] && (i, v) !in MeshKeys(us)
    {
      var k := (i, v);
      assert i !in vs && i != b;
      AllCopiesAt(links0, b, vs, cat, flag, s, k);
      MeshKeysAt(us, k);
    }
  }

  /** Every group node's catalogued links are indexed under its group. */
  lemma StationGroupEntries(h: Hyper, b: NodeId, gs: seq<GroupId>, mode: Mode, flag: bool, t: int)
    requires b in h.nodes && 0 <= t < |gs|
    ensures var (r, vs, ws) := TransformStation(h, b, gs, mode, flag);
            CatalogueEntries(b, GroupNodes(b, gs, vs)[t], gs[t], CatalogueOf(h, b, flag)) <= r.grid
  {
    var (r, vs, ws) := TransformStation(h, b, gs, mode, flag);
    StationGrid(h, b, gs, mode, flag);
    if t > 0 {
      AllEntriesAt(b, vs, gs[1..], CatalogueOf(h, b, flag), t - 1);
      assert GroupNodes(b, gs, vs)[t] == vs[t - 1] && gs[1..][t - 1] == gs[t];
    }
  }
}
