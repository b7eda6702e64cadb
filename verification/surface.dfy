/** The expansion of a surface node: one virtual node per stopping group,
    joined to the base node by a spoke each way and to each other by the
    transfer mesh, then one unconnected virtual node per passing group. */
module Surface {
  import opened Collections
  import opened Network
  import opened HyperNet
  import opened Meshing

  /** The two transfer links between `b` and each of `vs`. */
  function SpokeKeys(b: NodeId, vs: seq<NodeId>): (r: set<LinkKey>)
    ensures forall v | v in vs :: (b, v) in r && (v, b) in r
    ensures forall k | k in r :: (k.0 == b && k.1 in vs) || (k.1 == b && k.0 in vs)
    decreases |vs|
  {
    if |vs| == 0 then {}
    else
      var n := |vs| - 1;
      assert forall v | v in vs :: v in vs[..n] || v == vs[n];
      SpokeKeys(b, vs[..n]) + {(b, vs[n]), (vs[n], b)}
  }

  /** The grid entries of the spokes: boarding group `gs[t]` from the
      street through link (b, vs[t]) is cell (0, gs[t]); alighting through
      (vs[t], b) is cell (gs[t], 0). */
  function SpokeEntries(b: NodeId, gs: seq<GroupId>, vs: seq<NodeId>): (r: set<Entry>)
    requires |gs| == |vs|
    decreases |gs|
  {
    if |gs| == 0 then {}
    else
      var n := |gs| - 1;
      SpokeEntries(b, gs[..n], vs[..n]) + {((0, gs[n]), (b, vs[n])), ((gs[n], 0), (vs[n], b))}
  }

  lemma {:induction false} SpokesSnoc(b: NodeId, gs: seq<GroupId>, vs: seq<NodeId>, g: GroupId, v: NodeId)
    requires |gs| == |vs|
    ensures SpokeKeys(b, vs + [v]) == SpokeKeys(b, vs) + {(b, v), (v, b)}
    ensures SpokeEntries(b, gs + [g], vs + [v]) == SpokeEntries(b, gs, vs) + {((0, g), (b, v)), ((g, 0), (v, b))}
  {
    assert (gs + [g])[..|gs|] == gs && (vs + [v])[..|vs|] == vs;
  }

  /** Spoke entries, stated per stop: both cells of every stop, and
      nothing else. */
  lemma {:induction false} SpokeEntriesAt(b: NodeId, gs: seq<GroupId>, vs: seq<NodeId>, e: Entry)
    requires |gs| == |vs|
    ensures e in SpokeEntries(b, gs, vs) <==>
            exists t | 0 <= t < |gs| :: e == ((0, gs[t]), (b, vs[t])) || e == ((gs[t], 0), (vs[t], b))
    decreases |gs|
  {
    if |gs| > 0 {
      var n := |gs| - 1;
      SpokeEntriesAt(b, gs[..n], vs[..n], e);
      if e in SpokeEntries(b, gs[..n], vs[..n]) {
        var t :| 0 <= t < n && (e == ((0, gs[..n][t]), (b, vs[..n][t])) || e == ((gs[..n][t], 0), (vs[..n][t], b)));
        assert gs[..n][t] == gs[t] && vs[..n][t] == vs[t];
      }
      if exists t | 0 <= t < |gs| :: e == ((0, gs[t]), (b, vs[t])) || e == ((gs[t], 0), (vs[t], b)) {
        var t :| 0 <= t < |gs| && (e == ((0, gs[t]), (b, vs[t])) || e == ((gs[t], 0), (vs[t], b)));
        if t < n {
          assert gs[..n][t] == gs[t] && vs[..n][t] == vs[t];
        }
      }
    }
  }

  /** One stop of surface node `b`: its virtual node for group `g` and a
      transfer link each way, both filed in the grid. */
  function AddStop(h: Hyper, b: NodeId, g: GroupId, mode: Mode): (r: (Hyper, NodeId))
    requires b in h.nodes
  {
    var (h', v) := NewVirtual(h, b, g);
    (h'.(links := h.links[(b, v) := TransferLink(mode)][(v, b) := TransferLink(mode)],
         grid := h.grid + {((0, g), (b, v)), ((g, 0), (v, b))}), v)
  }

  /** The stops of surface node `b` for its stopping groups `gs`, in order;
      also yields the virtual nodes created. */
  function AddStops(h: Hyper, b: NodeId, gs: seq<GroupId>, mode: Mode): (r: (Hyper, seq<NodeId>))
    requires b in h.nodes
    ensures |r.1| == |gs|
    ensures b in r.0.nodes && r.0.nodes[b] == h.nodes[b]
    decreases |gs|
  {
    if |gs| == 0 then (h, [])
    else
      var n := |gs| - 1;
      var (h1, vs1) := AddStops(h, b, gs[..n], mode);
      var (h2, v) := AddStop(h1, b, gs[n], mode);
      (h2, vs1 + [v])
  }

  lemma {:induction false} StopsNodes(h0: Hyper, b: NodeId, gs: seq<GroupId>, mode: Mode)
    requires b in h0.nodes
    ensures var (h, vs) := AddStops(h0, b, gs, mode); Allocated(h0, h, h0.nodes[b], vs)
    decreases |gs|
  {
    if |gs| == 0 {
      var e: seq<NodeId> := [];
      assert Uniform(Elems(e), h0.nodes[b]) == map[];
    } else {
      var n := |gs| - 1;
      StopsNodes(h0, b, gs[..n], mode);
      var (h1, vs1) := AddStops(h0, b, gs[..n], mode);
      AllocatedStep(h0, h1, b, vs1, gs[n]);
    }
  }

  lemma {:induction false} StopsSound(h0: Hyper, b: NodeId, gs: seq<GroupId>, mode: Mode)
    requires b in h0.nodes && Sound(h0)
    ensures Sound(AddStops(h0, b, gs, mode).0)
    decreases |gs|
  {
    if |gs| > 0 {
      var n := |gs| - 1;
      StopsSound(h0, b, gs[..n], mode);
    }
  }

  lemma {:induction false} StopsHyper(h0: Hyper, b: NodeId, gs: seq<GroupId>, mode: Mode)
    requires b in h0.nodes
    ensures var (h, vs) := AddStops(h0, b, gs, mode); h.hyper == h0.hyper + Zip(h0.nodes[b].hyperOwner, gs, vs)
    decreases |gs|
  {
    if |gs| == 0 {
      assert h0.hyper + map[] == h0.hyper;
    } else {
      var n := |gs| - 1;
      StopsHyper(h0, b, gs[..n], mode);
      var (h1, vs1) := AddStops(h0, b, gs[..n], mode);
      var (h2, v) := AddStop(h1, b, gs[n], mode);
      ZipSnoc(h0.nodes[b].hyperOwner, gs[..n], vs1, gs[n], v);
      PrefixSnoc(gs, n);
      MergeUpdate(h0.hyper, Zip(h0.nodes[b].hyperOwner, gs[..n], vs1), (h0.nodes[b].hyperOwner, gs[n]), v);
    }
  }

  lemma {:induction false} StopsLinks(h0: Hyper, b: NodeId, gs: seq<GroupId>, mode: Mode)
    requires b in h0.nodes && Sound(h0)
    ensures var (h, vs) := AddStops(h0, b, gs, mode);
            && h.links == h0.links + Uniform(SpokeKeys(b, vs), TransferLink(mode))
            && |h.links| == |h0.links| + 2 * |vs|
    decreases |gs|
  {
    var T := TransferLink(mode);
    if |gs| == 0 {
      var e: seq<NodeId> := [];
      assert Uniform(SpokeKeys(b, e), T) == map[];
      assert h0.links + map[] == h0.links;
    } else {
      var n := |gs| - 1;
      StopsLinks(h0, b, gs[..n], mode);
      StopsSound(h0, b, gs[..n], mode);
      var (h1, vs1) := AddStops(h0, b, gs[..n], mode);
      var (h2, v) := AddStop(h1, b, gs[n], mode);
      assert v !in h1.nodes;
      assert (b, v) !in h1.links && (v, b) !in h1.links;
      AddTwoSize(h1.links, (b, v), T, (v, b), T);
      SpokesSnoc(b, gs[..n], vs1, gs[n], v);
      UniformAddTwo(h0.links, SpokeKeys(b, vs1), (b, v), (v, b), T);
    }
  }

  lemma {:induction false} StopsGrid(h0: Hyper, b: NodeId, gs: seq<GroupId>, mode: Mode)
    requires b in h0.nodes
    ensures var (h, vs) := AddStops(h0, b, gs, mode); h.grid == h0.grid + SpokeEntries(b, gs, vs)
    decreases |gs|
  {
    if |gs| > 0 {
      var n := |gs| - 1;
      StopsGrid(h0, b, gs[..n], mode);
      var (h1, vs1) := AddStops(h0, b, gs[..n], mode);
      var (h2, v) := AddStop(h1, b, gs[n], mode);
      SpokesSnoc(b, gs[..n], vs1, gs[n], v);
      PrefixSnoc(gs, n);
    }
  }

  /** The whole surface-node expansion of `b`: stops for its stopping
      groups in ascending order, their mesh, then its passing groups. */
  function TransformSurface(h: Hyper, b: NodeId, mode: Mode): (r: (Hyper, seq<NodeId>, seq<NodeId>))
    requires b in h.nodes
    ensures b in r.0.nodes && r.0.nodes[b] == h.nodes[b]
    ensures |r.1| == |h.nodes[b].stopping| && |r.2| == |h.nodes[b].passing|
  {
    var gs := Ascending(h.nodes[b].stopping);
    var (h1, vs) := AddStops(h, b, gs, mode);
    var h2 := Mesh(h1, vs, gs, mode);
    var (h3, ws) := AddVirtuals(h2, b, Ascending(h.nodes[b].passing));
    (h3, vs, ws)
  }

  /** The nodes a surface expansion creates: first-fit copies of `b`, one
      per stopping group and one per passing group, each recorded in the
      dictionary `b` carries under its group. */
  lemma {:induction false} SurfaceNodes(h: Hyper, b: NodeId, mode: Mode)
    requires b in h.nodes
    ensures var (r, vs, ws) := TransformSurface(h, b, mode);
            var nd := h.nodes[b];
            && Allocated(h, r, nd, vs + ws)
            && r.hyper == h.hyper + Zip(nd.hyperOwner, Ascending(nd.stopping), vs)
                                  + Zip(nd.hyperOwner, Ascending(nd.passing), ws)
  {
    var nd := h.nodes[b];
    var gs, ps := Ascending(nd.stopping), Ascending(nd.passing);
    var (h1, vs) := AddStops(h, b, gs, mode);
    var h2 := Mesh(h1, vs, gs, mode);
    StopsNodes(h, b, gs, mode);
    StopsHyper(h, b, gs, mode);
    VirtualsAdded(h2, b, ps);
    var (h3, ws) := AddVirtuals(h2, b, ps);
    assert Allocated(h1, h3, nd, ws);
    AllocatedAppend(h, h1, h3, nd, vs, ws);
  }

  /** The copies of `b` share its zone, so centroids stay in zone 0. */
  lemma SurfaceCentroidZones(h: Hyper, b: NodeId, mode: Mode)
    requires b in h.nodes && CentroidZonesZero(h.nodes)
    ensures CentroidZonesZero(TransformSurface(h, b, mode).0.nodes)
  {
    var (r, vs, ws) := TransformSurface(h, b, mode);
    SurfaceNodes(h, b, mode);
    AllocatedCentroidZones(h, r, h.nodes[b], vs + ws);
  }

  /** The stop nodes are distinct and no link runs between two of them. */
  lemma {:induction false} StopsApart(h0: Hyper, b: NodeId, gs: seq<GroupId>, mode: Mode)
    requires b in h0.nodes && Sound(h0)
    ensures var (h, vs) := AddStops(h0, b, gs, mode); NoDup(vs) && NoLinkAmong(h.links, vs)
  {
    var (h, vs) := AddStops(h0, b, gs, mode);
    StopsNodes(h0, b, gs, mode);
    StopsLinks(h0, b, gs, mode);
    FirstFitFresh(h0.nodes.Keys, h0.next, vs, h.next);
    forall key | key in h.links
      ensures !(key.0 in vs && key.1 in vs)
    {
      if key in h0.links {
        assert key.0 in h0.nodes;
      } else {
        assert key.0 == b || key.1 == b;
      }
    }
  }

  /** The links of a surface expansion: a spoke each way between `b` and
      each stop node and the full mesh among the stop nodes, all of them
      transfer links. */
  lemma {:induction false} SurfaceLinks(h: Hyper, b: NodeId, mode: Mode)
    requires b in h.nodes && Sound(h)
    ensures var (r, vs, ws) := TransformSurface(h, b, mode);
            r.links == h.links + Uniform(SpokeKeys(b, vs) + MeshKeys(vs), TransferLink(mode))
  {
    var gs := Ascending(h.nodes[b].stopping);
    var (h1, vs) := AddStops(h, b, gs, mode);
    StopsLinks(h, b, gs, mode);
    MeshLinks(h1, vs, gs, mode);
    UniformUnion(h.links, SpokeKeys(b, vs), MeshKeys(vs), TransferLink(mode));
  }

  /** All those links are new: k * (k + 1) of them for k stopping groups. */
  lemma {:induction false} SurfaceLinkCount(h: Hyper, b: NodeId, mode: Mode)
    requires b in h.nodes && Sound(h)
    ensures var k := |h.nodes[b].stopping|;
            |TransformSurface(h, b, mode).0.links| == |h.links| + k * (k + 1)
  {
    var gs := Ascending(h.nodes[b].stopping);
    var (h1, vs) := AddStops(h, b, gs, mode);
    StopsLinks(h, b, gs, mode);
    StopsApart(h, b, gs, mode);
    MeshSize(h1, vs, gs, mode);
    var k := |vs|;
    var h2 := Mesh(h1, vs, gs, mode);
    assert |h2.links| == |h.links| + 2 * k + OrderedPairs(k);
    assert TransformSurface(h, b, mode).0.links == h2.links;
    SpokesAndMeshCount(k);
  }

  /** The grid entries of a surface expansion: spokes in the street rows
      and columns, mesh links in the cells of their two groups. */
  lemma {:induction false} SurfaceGrid(h: Hyper, b: NodeId, mode: Mode)
    requires b in h.nodes
    ensures var (r, vs, ws) := TransformSurface(h, b, mode);
            var gs := Ascending(h.nodes[b].stopping);
            r.grid == h.grid + SpokeEntries(b, gs, vs) + MeshEntries(vs, gs)
  {
    var gs := Ascending(h.nodes[b].stopping);
    var (h1, vs) := AddStops(h, b, gs, mode);
    StopsGrid(h, b, gs, mode);
    MeshLinks(h1, vs, gs, mode);
  }

  lemma {:induction false} SurfaceSound(h: Hyper, b: NodeId, mode: Mode)
    requires b in h.nodes && Sound(h)
    ensures Sound(TransformSurface(h, b, mode).0)
  {
    var nd := h.nodes[b];
    var gs, ps := Ascending(nd.stopping), Ascending(nd.passing);
    var (h1, vs) := AddStops(h, b, gs, mode);
    StopsNodes(h, b, gs, mode);
    StopsSound(h, b, gs, mode);
    FirstFitFresh(h.nodes.Keys, h.next, vs, h1.next);
    MeshSound(h1, vs, gs, mode);
    VirtualsSound(Mesh(h1, vs, gs, mode), b, ps);
  }

  /** After the expansion the dictionary of `b` sends each stopping group
      `g` to a new copy of `b`, joined to `b` by a transfer link each way
      that is filed under boarding (0, g) and alighting (g, 0). */
  lemma {:induction false} SurfaceStop(h: Hyper, b: NodeId, mode: Mode, g: GroupId)
    requires b in h.nodes && Sound(h)
    requires g in h.nodes[b].stopping && g !in h.nodes[b].passing
    ensures var (r, vs, ws) := TransformSurface(h, b, mode);
            var o := h.nodes[b].hyperOwner;
            && (o, g) in r.hyper
            && var v := r.hyper[(o, g)];
               && v !in h.nodes && v in r.nodes && r.nodes[v] == h.nodes[b]
               && (b, v) in r.links && r.links[(b, v)] == TransferLink(mode)
               && (v, b) in r.links && r.links[(v, b)] == TransferLink(mode)
               && ((0, g), (b, v)) in r.grid && ((g, 0), (v, b)) in r.grid
  {
    var nd := h.nodes[b];
    var o := nd.hyperOwner;
    var gs, ps := Ascending(nd.stopping), Ascending(nd.passing);
    var (r, vs, ws) := TransformSurface(h, b, mode);
    SurfaceNodes(h, b, mode);
    SurfaceLinks(h, b, mode);
    SurfaceGrid(h, b, mode);
    var t :| 0 <= t < |gs| && gs[t] == g;
    ZipAt(o, gs, vs, t);
    assert (o, g) !in Zip(o, ps, ws);
    var v := vs[t];
    assert r.hyper[(o, g)] == v;
    FirstFitFresh(h.nodes.Keys, h.next, vs + ws, r.next);
    assert v in vs + ws;
    assert (b, v) in SpokeKeys(b, vs) && (v, b) in SpokeKeys(b, vs);
    SpokeEntriesAt(b, gs, vs, ((0, g), (b, v)));
    SpokeEntriesAt(b, gs, vs, ((g, 0), (v, b)));
  }

  /** Each passing group `g` of `b` gets a new copy of `b` that no link
      touches. */
  lemma {:induction false} SurfacePassing(h: Hyper, b: NodeId, mode: Mode, g: GroupId)
    requires b in h.nodes && Sound(h)
    requires g in h.nodes[b].passing
    ensures var (r, vs, ws) := TransformSurface(h, b, mode);
            var o := h.nodes[b].hyperOwner;
            && (o, g) in r.hyper
            && var w := r.hyper[(o, g)];
               && w !in h.nodes && w in r.nodes && r.nodes[w] == h.nodes[b]
               && forall key | key in r.links :: key.0 != w && key.1 != w
  {
    var nd := h.nodes[b];
    var o := nd.hyperOwner;
    var ps := Ascending(nd.passing);
    var (r, vs, ws) := TransformSurface(h, b, mode);
    SurfaceNodes(h, b, mode);
    SurfaceLinks(h, b, mode);
    var t :| 0 <= t < |ps| && ps[t] == g;
    ZipAt(o, ps, ws, t);
    var w := ws[t];
    assert r.hyper[(o, g)] == w;
    FirstFitFresh(h.nodes.Keys, h.next, vs + ws, r.next);
    NoDupAppend(vs, ws);
    assert w in vs + ws;
    assert w !in vs && w != b && w !in h.nodes;
    forall key | key in r.links
      ensures key.0 != w && key.1 != w
    {
      if key in h.links {
        assert key.0 in h.nodes && key.1 in h.nodes;
      } else if key in MeshKeys(vs) {
        MeshKeysAt(vs, key);
      } else {
        assert key in SpokeKeys(b, vs);
      }
    }
  }
}
