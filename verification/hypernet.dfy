/** The state of the expansion of the prepared network into the fare
    hyper-network, and the allocation of virtual nodes: each surface and
    station node gets one virtual node per line group. */
module HyperNet {
  import opened Collections
  import opened Network
  import opened Allocator

  /** An entry of the transfer grid: link `e` filed in cell `c`. Cell
      (g1, g2) holds the links that move a rider from group g1 to group
      g2, group 0 standing for the street. */
  type Entry = ((int, int), LinkKey)

  /** The network while it is being expanded. `hyper` is the group-to-
      virtual-node dictionary of every base node, keyed by the owner's id
      (see `Node.hyperOwner`); `grid` is the transfer grid as the set of
      its entries; `next` is the allocation counter. */
  datatype Hyper = Hyper(
    nodes: map<NodeId, Node>,
    links: map<LinkKey, Link>,
    hyper: map<(NodeId, GroupId), NodeId>,
    grid: set<Entry>,
    next: int)

  /** A link created with only the transfer mode: every other attribute
      at its default. */
  function TransferLink(mode: Mode): Link
  {
    Link({mode}, Ordinary, 0.0, 0.0)
  }

  /** Links stay between nodes, and the dictionaries point at nodes. */
  predicate Sound(h: Hyper)
  {
    && LinksClosed(h.nodes, h.links)
    && (forall key | key in h.hyper :: h.hyper[key] in h.nodes)
  }

  /** `vs` are the ids a first-fit scan hands out, in order, from the
      counter `start` over the taken ids `used`, leaving the counter at
      `next`: every id it steps over was taken. */
  predicate FirstFit(used: set<NodeId>, start: int, vs: seq<NodeId>, next: int)
  {
    && (forall t | 0 <= t < |vs| :: start <= vs[t] && vs[t] !in used)
    && (forall s, t | 0 <= s < t < |vs| :: vs[s] < vs[t])
    && next == (if |vs| == 0 then start else vs[|vs| - 1])
    && (forall k | start <= k < next :: k in used || k in vs)
  }

  /** One more allocation extends a first-fit run. */
  lemma {:induction false} FirstFitStep(used: set<NodeId>, start: int, vs: seq<NodeId>, next: int, taken: set<NodeId>)
    requires FirstFit(used, start, vs, next)
    requires forall k :: k in taken <==> k in used || k in vs
    ensures FirstFit(used, start, vs + [FirstFree(taken, next)], FirstFree(taken, next))
  {
    var v := FirstFree(taken, next);
    var vs' := vs + [v];
    assert v !in used && v !in vs;
    if |vs| > 0 {
      assert vs[|vs| - 1] == next;
      assert vs[|vs| - 1] < v;
    }
    assert forall t | 0 <= t < |vs| :: vs'[t] == vs[t];
    forall k | start <= k < v
      ensures k in used || k in vs'
    {
      if k < next {
        assert k in used || k in vs;
      } else {
        assert k in taken;
      }
    }
  }

  /** Two first-fit runs in a row are one run. */
  lemma {:induction false} FirstFitAppend(used: set<NodeId>, start: int, vs1: seq<NodeId>, mid: int,
                                          taken: set<NodeId>, vs2: seq<NodeId>, next: int)
    requires FirstFit(used, start, vs1, mid)
    requires forall k :: k in taken <==> k in used || k in vs1
    requires FirstFit(taken, mid, vs2, next)
    ensures FirstFit(used, start, vs1 + vs2, next)
  {
    var vs := vs1 + vs2;
    assert mid >= start;
    forall s, t | 0 <= s < t < |vs|
      ensures vs[s] < vs[t]
    {
      if t >= |vs1| && s < |vs1| {
        assert vs[s] in vs1;
        assert vs[s] <= mid;
        assert vs[t] == vs2[t - |vs1|];
        assert vs[t] != mid || mid !in vs1;
        assert mid < vs[t] || (|vs1| == 0);
      }
    }
    forall k | start <= k < next
      ensures k in used || k in vs
    {
      if k < mid {
        assert k in used || k in vs1;
      } else {
        assert k in taken || k in vs2;
      }
    }
  }

  /** The dictionary entries (o, gs[t]) -> vs[t] of owner `o`. */
  function Zip(o: NodeId, gs: seq<GroupId>, vs: seq<NodeId>): (m: map<(NodeId, GroupId), NodeId>)
    requires |gs| == |vs|
    ensures forall key | key in m :: key.0 == o && key.1 in gs && m[key] in vs
    ensures forall g | g in gs :: (o, g) in m
    decreases |gs|
  {
    if |gs| == 0 then map[]
    else
      var n := |gs| - 1;
      Zip(o, gs[..n], vs[..n])[(o, gs[n]) := vs[n]]
  }

  lemma {:induction false} ZipSnoc(o: NodeId, gs: seq<GroupId>, vs: seq<NodeId>, g: GroupId, v: NodeId)
    requires |gs| == |vs|
    ensures Zip(o, gs + [g], vs + [v]) == Zip(o, gs, vs)[(o, g) := v]
  {
    assert (gs + [g])[..|gs|] == gs && (vs + [v])[..|vs|] == vs;
  }

  /** A later group other than `gs[t]` leaves its entry alone. */
  lemma ZipKeep(o: NodeId, gs: seq<GroupId>, vs: seq<NodeId>, t: int)
    requires |gs| == |vs| && 0 <= t < |gs| - 1
    requires gs[t] != gs[|gs| - 1]
    requires Zip(o, gs[..|gs| - 1], vs[..|vs| - 1])[(o, gs[t])] == vs[t]
    ensures Zip(o, gs, vs)[(o, gs[t])] == vs[t]
  {
  }

  lemma NoDupPrefix<T>(s: seq<T>, n: int)
    requires NoDup(s) && 0 <= n <= |s|
    ensures NoDup(s[..n])
  {
    forall a, b | 0 <= a < b < n ensures s[..n][a] != s[..n][b] {
      assert s[..n][a] == s[a] && s[..n][b] == s[b];
    }
  }

  /** With distinct groups, the dictionary maps group `gs[t]` to `vs[t]`. */
  lemma {:induction false} ZipAt(o: NodeId, gs: seq<GroupId>, vs: seq<NodeId>, t: int)
    requires |gs| == |vs| && NoDup(gs) && 0 <= t < |gs|
    ensures Zip(o, gs, vs)[(o, gs[t])] == vs[t]
    decreases |gs|
  {
    var n := |gs| - 1;
    if t < n {
      NoDupPrefix(gs, n);
      assert gs[..n][t] == gs[t] && vs[..n][t] == vs[t];
      ZipAt(o, gs[..n], vs[..n], t);
      ZipKeep(o, gs, vs, t);
    }
  }

  /** A fresh node for group `g` of base node `b`: the first free id from
      the counter, holding a copy of every attribute of `b`, recorded in
      the dictionary `b` carries. */
  function NewVirtual(h: Hyper, b: NodeId, g: GroupId): (r: (Hyper, NodeId))
    requires b in h.nodes
    ensures r.1 !in h.nodes && r.1 >= h.next
    ensures forall k :: h.next <= k < r.1 ==> k in h.nodes
    ensures r.0 == h.(nodes := h.nodes[r.1 := h.nodes[b]], hyper := h.hyper[(h.nodes[b].hyperOwner, g) := r.1], next := r.1)
  {
    var v := FirstFree(h.nodes.Keys, h.next);
    (h.(nodes := h.nodes[v := h.nodes[b]], hyper := h.hyper[(h.nodes[b].hyperOwner, g) := v], next := v), v)
  }

  /** `h` is `h0` with the first-fit nodes `vs` added, each a copy of `copy`. */
  ghost predicate Allocated(h0: Hyper, h: Hyper, copy: Node, vs: seq<NodeId>)
  {
    && FirstFit(h0.nodes.Keys, h0.next, vs, h.next)
    && h.nodes == h0.nodes + Uniform(Elems(vs), copy)
    && |h.nodes| == |h0.nodes| + |vs|
  }

  lemma {:induction false} AllocatedStep(h0: Hyper, h: Hyper, b: NodeId, vs: seq<NodeId>, g: GroupId)
    requires b in h0.nodes && Allocated(h0, h, h0.nodes[b], vs)
    ensures b in h.nodes && h.nodes[b] == h0.nodes[b]
    ensures var (h', v) := NewVirtual(h, b, g);
            && Allocated(h0, h', h0.nodes[b], vs + [v])
            && v !in h.nodes && v != b
  {
    assert b !in Elems(vs);
    var (h', v) := NewVirtual(h, b, g);
    FirstFitStep(h0.nodes.Keys, h0.next, vs, h.next, h.nodes.Keys);
    ElemsSnoc(vs, v);
    UniformAdd(h0.nodes, Elems(vs), v, h0.nodes[b]);
  }

  /** After an allocation the old nodes are unchanged and every new one
      is a copy. */
  lemma AllocatedNodes(h0: Hyper, h: Hyper, copy: Node, vs: seq<NodeId>)
    requires Allocated(h0, h, copy, vs)
    ensures forall x | x in h0.nodes :: x in h.nodes && h.nodes[x] == h0.nodes[x]
    ensures forall x | x in vs :: x in h.nodes && h.nodes[x] == copy && x !in h0.nodes
    ensures forall x | x in h.nodes :: x in h0.nodes || x in vs
  {
  }

  /** Copying a node that is not a centroid outside zone 0 keeps every
      centroid in zone 0. */
  lemma AllocatedCentroidZones(h0: Hyper, h: Hyper, copy: Node, vs: seq<NodeId>)
    requires Allocated(h0, h, copy, vs) && CentroidZonesZero(h0.nodes)
    requires copy.isCentroid ==> copy.zone == 0
    ensures CentroidZonesZero(h.nodes)
  {
    AllocatedNodes(h0, h, copy, vs);
  }

  /** Allocations in a row are one allocation. */
  lemma {:induction false} AllocatedAppend(h0: Hyper, h1: Hyper, h2: Hyper, copy: Node, vs1: seq<NodeId>, vs2: seq<NodeId>)
    requires Allocated(h0, h1, copy, vs1) && Allocated(h1, h2, copy, vs2)
    ensures Allocated(h0, h2, copy, vs1 + vs2)
  {
    assert forall k :: k in h1.nodes.Keys <==> k in h0.nodes.Keys || k in vs1;
    FirstFitAppend(h0.nodes.Keys, h0.next, vs1, h1.next, h1.nodes.Keys, vs2, h2.next);
    ElemsAppend(vs1, vs2);
    MergeAssoc(h0.nodes, Uniform(Elems(vs1), copy), Uniform(Elems(vs2), copy));
    UniformUnion(h0.nodes, Elems(vs1), Elems(vs2), copy);
  }

  /** First-fit ids are new and distinct. */
  lemma FirstFitFresh(used: set<NodeId>, start: int, vs: seq<NodeId>, next: int)
    requires FirstFit(used, start, vs, next)
    ensures NoDup(vs)
    ensures forall v | v in vs :: v !in used
  {
  }

  /** One virtual node per group of `ps` for base node `b`, recorded in
      its dictionary and joined to nothing. */
  function AddVirtuals(h: Hyper, b: NodeId, ps: seq<GroupId>): (r: (Hyper, seq<NodeId>))
    requires b in h.nodes
    ensures |r.1| == |ps|
    ensures b in r.0.nodes && r.0.nodes[b] == h.nodes[b]
    ensures r.0.links == h.links && r.0.grid == h.grid
    decreases |ps|
  {
    if |ps| == 0 then (h, [])
    else
      var n := |ps| - 1;
      var (h1, ws1) := AddVirtuals(h, b, ps[..n]);
      var (h2, w) := NewVirtual(h1, b, ps[n]);
      (h2, ws1 + [w])
  }

  /** The virtual nodes are first-fit copies of `b`, recorded under the
      groups in the dictionary `b` carries. */
  lemma {:induction false} VirtualsAdded(h0: Hyper, b: NodeId, ps: seq<GroupId>)
    requires b in h0.nodes
    ensures var (h, ws) := AddVirtuals(h0, b, ps);
            && Allocated(h0, h, h0.nodes[b], ws)
            && h.hyper == h0.hyper + Zip(h0.nodes[b].hyperOwner, ps, ws)
  {
    VirtualsAllocated(h0, b, ps);
    VirtualsHyper(h0, b, ps);
  }

  lemma {:induction false} VirtualsAllocated(h0: Hyper, b: NodeId, ps: seq<GroupId>)
    requires b in h0.nodes
    ensures var (h, ws) := AddVirtuals(h0, b, ps);
            Allocated(h0, h, h0.nodes[b], ws)
    decreases |ps|
  {
    if |ps| == 0 {
      var e: seq<NodeId> := [];
      assert Uniform(Elems(e), h0.nodes[b]) == map[];
    } else {
      var n := |ps| - 1;
      VirtualsAllocated(h0, b, ps[..n]);
      var (h1, ws1) := AddVirtuals(h0, b, ps[..n]);
      AllocatedStep(h0, h1, b, ws1, ps[n]);
    }
  }

  /** One more group recorded in the dictionary of owner `o`. */
  lemma HyperSnoc(hy0: map<(NodeId, GroupId), NodeId>, hy1: map<(NodeId, GroupId), NodeId>, o: NodeId,
                  gs: seq<GroupId>, vs: seq<NodeId>, g: GroupId, v: NodeId)
    requires |gs| == |vs| && hy1 == hy0 + Zip(o, gs, vs)
    ensures hy1[(o, g) := v] == hy0 + Zip(o, gs + [g], vs + [v])
  {
    ZipSnoc(o, gs, vs, g, v);
    MergeUpdate(hy0, Zip(o, gs, vs), (o, g), v);
  }

  lemma {:induction false} VirtualsHyper(h0: Hyper, b: NodeId, ps: seq<GroupId>)
    requires b in h0.nodes
    ensures var (h, ws) := AddVirtuals(h0, b, ps);
            h.hyper == h0.hyper + Zip(h0.nodes[b].hyperOwner, ps, ws)
    decreases |ps|
  {
    if |ps| == 0 {
      assert h0.hyper + map[] == h0.hyper;
    } else {
      var n := |ps| - 1;
      VirtualsHyper(h0, b, ps[..n]);
      var (h1, ws1) := AddVirtuals(h0, b, ps[..n]);
      var (h2, w) := NewVirtual(h1, b, ps[n]);
      HyperSnoc(h0.hyper, h1.hyper, h0.nodes[b].hyperOwner, ps[..n], ws1, ps[n], w);
      PrefixSnoc(ps, n);
    }
  }

  lemma {:induction false} VirtualsSound(h0: Hyper, b: NodeId, ps: seq<GroupId>)
    requires b in h0.nodes && Sound(h0)
    ensures Sound(AddVirtuals(h0, b, ps).0)
    decreases |ps|
  {
    if |ps| > 0 {
      VirtualsSound(h0, b, ps[..|ps| - 1]);
    }
  }
}
