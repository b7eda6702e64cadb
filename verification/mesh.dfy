/** The transfer mesh among the virtual nodes of one base node: every
    unordered pair, taken in the order of `itertools.combinations`, gets a
    transfer link each way, filed in the grid under the pair's groups. */
module Meshing {
  import opened Collections
  import opened Network
  import opened HyperNet

  /** The links of one pair and their grid entries. */
  function Pair(h: Hyper, a: NodeId, ga: GroupId, u: NodeId, gu: GroupId, mode: Mode): Hyper
  {
    h.(links := h.links[(a, u) := TransferLink(mode)][(u, a) := TransferLink(mode)],
       grid := h.grid + {((ga, gu), (a, u)), ((gu, ga), (u, a))})
  }

  /** Node `a` of group `ga` paired with each of `us` (groups `gus`) in turn. */
  function Fan(h: Hyper, a: NodeId, ga: GroupId, us: seq<NodeId>, gus: seq<GroupId>, mode: Mode): (r: Hyper)
    requires |us| == |gus|
    ensures r.nodes == h.nodes && r.hyper == h.hyper && r.next == h.next
    decreases |us|
  {
    if |us| == 0 then h
    else Fan(Pair(h, a, ga, us[0], gus[0], mode), a, ga, us[1..], gus[1..], mode)
  }

  /** Every pair of `vs` (groups `gs`): the first node with all later ones,
      then the pairs of the rest. */
  function Mesh(h: Hyper, vs: seq<NodeId>, gs: seq<GroupId>, mode: Mode): (r: Hyper)
    requires |vs| == |gs|
    ensures r.nodes == h.nodes && r.hyper == h.hyper && r.next == h.next
    decreases |vs|
  {
    if |vs| == 0 then h
    else Mesh(Fan(h, vs[0], gs[0], vs[1..], gs[1..], mode), vs[1..], gs[1..], mode)
  }

  /** The keys of the links of a fan. */
  function FanKeys(a: NodeId, us: seq<NodeId>): set<LinkKey>
    decreases |us|
  {
    if |us| == 0 then {} else {(a, us[0]), (us[0], a)} + FanKeys(a, us[1..])
  }

  /** The grid entries of a fan. */
  function FanEntries(a: NodeId, ga: GroupId, us: seq<NodeId>, gus: seq<GroupId>): set<Entry>
    requires |us| == |gus|
    decreases |us|
  {
    if |us| == 0 then {}
    else {((ga, gus[0]), (a, us[0])), ((gus[0], ga), (us[0], a))} + FanEntries(a, ga, us[1..], gus[1..])
  }

  function MeshKeys(vs: seq<NodeId>): set<LinkKey>
    decreases |vs|
  {
    if |vs| == 0 then {} else FanKeys(vs[0], vs[1..]) + MeshKeys(vs[1..])
  }

  function MeshEntries(vs: seq<NodeId>, gs: seq<GroupId>): set<Entry>
    requires |vs| == |gs|
    decreases |vs|
  {
    if |vs| == 0 then {} else FanEntries(vs[0], gs[0], vs[1..], gs[1..]) + MeshEntries(vs[1..], gs[1..])
  }

  /** The number of ordered pairs of distinct elements among `n`. */
  function OrderedPairs(n: nat): nat
  {
    if n == 0 then 0 else OrderedPairs(n - 1) + 2 * (n - 1)
  }

  lemma {:induction false} OrderedPairsCount(n: nat)
    ensures OrderedPairs(n) == n * (n - 1)
  {
    if n > 0 {
      OrderedPairsCount(n - 1);
      assert (n - 1) * (n - 2) + 2 * (n - 1) == n * (n - 1);
    }
  }

  /** A spoke each way to each of k nodes, and their mesh. */
  lemma SpokesAndMeshCount(k: nat)
    ensures 2 * k + OrderedPairs(k) == k * (k + 1)
  {
    OrderedPairsCount(k);
  }

  /** The fan's links are exactly its keys, all transfer links. */
  lemma {:induction false} FanLinks(h: Hyper, a: NodeId, ga: GroupId, us: seq<NodeId>, gus: seq<GroupId>, mode: Mode)
    requires |us| == |gus|
    ensures Fan(h, a, ga, us, gus, mode).links == h.links + Uniform(FanKeys(a, us), TransferLink(mode))
    ensures Fan(h, a, ga, us, gus, mode).grid == h.grid + FanEntries(a, ga, us, gus)
    decreases |us|
  {
    var T := TransferLink(mode);
    if |us| == 0 {
      assert h.links + Uniform({}, T) == h.links;
    } else {
      var h1 := Pair(h, a, ga, us[0], gus[0], mode);
      FanLinks(h1, a, ga, us[1..], gus[1..], mode);
      UniformPrepend(h.links, (a, us[0]), (us[0], a), FanKeys(a, us[1..]), T);
    }
  }

  lemma {:induction false} MeshLinks(h: Hyper, vs: seq<NodeId>, gs: seq<GroupId>, mode: Mode)
    requires |vs| == |gs|
    ensures Mesh(h, vs, gs, mode).links == h.links + Uniform(MeshKeys(vs), TransferLink(mode))
    ensures Mesh(h, vs, gs, mode).grid == h.grid + MeshEntries(vs, gs)
    decreases |vs|
  {
    var T := TransferLink(mode);
    if |vs| == 0 {
      assert h.links + Uniform({}, T) == h.links;
    } else {
      var h1 := Fan(h, vs[0], gs[0], vs[1..], gs[1..], mode);
      FanLinks(h, vs[0], gs[0], vs[1..], gs[1..], mode);
      MeshLinks(h1, vs[1..], gs[1..], mode);
      UniformUnion(h.links, FanKeys(vs[0], vs[1..]), MeshKeys(vs[1..]), T);
    }
  }

  /** A fan joins `a` with each of `us`, both ways, and nothing else. */
  lemma {:induction false} FanKeysAt(a: NodeId, us: seq<NodeId>, k: LinkKey)
    ensures k in FanKeys(a, us) <==> (k.0 == a && k.1 in us) || (k.1 == a && k.0 in us)
    decreases |us|
  {
    if |us| > 0 {
      FanKeysAt(a, us[1..], k);
      assert forall u :: u in us <==> u == us[0] || u in us[1..];
    }
  }

  /** The mesh of distinct nodes joins every two different ones of them. */
  lemma {:induction false} MeshKeysAt(vs: seq<NodeId>, k: LinkKey)
    requires NoDup(vs)
    ensures k in MeshKeys(vs) <==> k.0 in vs && k.1 in vs && k.0 != k.1
    decreases |vs|
  {
    if |vs| > 0 {
      var rest := vs[1..];
      NoDupTail(vs);
      FanKeysAt(vs[0], rest, k);
      MeshKeysAt(rest, k);
      assert forall u :: u in vs <==> u == vs[0] || u in rest;
    }
  }

  /** The fan's grid entries: cell (ga, gus[t]) holds the link out to
      `us[t]` and cell (gus[t], ga) the link back. */
  lemma {:induction false} FanEntriesAt(a: NodeId, ga: GroupId, us: seq<NodeId>, gus: seq<GroupId>, e: Entry)
    requires |us| == |gus|
    ensures e in FanEntries(a, ga, us, gus) <==>
            exists t | 0 <= t < |us| :: e == ((ga, gus[t]), (a, us[t])) || e == ((gus[t], ga), (us[t], a))
    decreases |us|
  {
    if |us| > 0 {
      FanEntriesAt(a, ga, us[1..], gus[1..], e);
      if exists t | 0 <= t < |us| :: e == ((ga, gus[t]), (a, us[t])) || e == ((gus[t], ga), (us[t], a)) {
        var t :| 0 <= t < |us| && (e == ((ga, gus[t]), (a, us[t])) || e == ((gus[t], ga), (us[t], a)));
        if t > 0 {
          assert us[1..][t - 1] == us[t] && gus[1..][t - 1] == gus[t];
        }
      }
      if e in FanEntries(a, ga, us[1..], gus[1..]) {
        var t :| 0 <= t < |us| - 1 && (e == ((ga, gus[1..][t]), (a, us[1..][t])) || e == ((gus[1..][t], ga), (us[1..][t], a)));
        assert us[1..][t] == us[t + 1] && gus[1..][t] == gus[t + 1];
      }
    }
  }

  /** The mesh's grid entries: for every two different positions s and t,
      cell (gs[s], gs[t]) holds the link from vs[s] to vs[t]. */
  lemma {:induction false} MeshEntriesAt(vs: seq<NodeId>, gs: seq<GroupId>, e: Entry)
    requires |vs| == |gs|
    ensures e in MeshEntries(vs, gs) <==>
            exists s, t | 0 <= s < |vs| && 0 <= t < |vs| && s != t :: e == ((gs[s], gs[t]), (vs[s], vs[t]))
    decreases |vs|
  {
    if |vs| > 0 {
      var rest, grest := vs[1..], gs[1..];
      FanEntriesAt(vs[0], gs[0], rest, grest, e);
      MeshEntriesAt(rest, grest, e);
      if exists s, t | 0 <= s < |vs| && 0 <= t < |vs| && s != t :: e == ((gs[s], gs[t]), (vs[s], vs[t])) {
        var s, t :| 0 <= s < |vs| && 0 <= t < |vs| && s != t && e == ((gs[s], gs[t]), (vs[s], vs[t]));
        if s == 0 {
          assert rest[t - 1] == vs[t] && grest[t - 1] == gs[t];
        } else if t == 0 {
          assert rest[s - 1] == vs[s] && grest[s - 1] == gs[s];
        } else {
          assert rest[s - 1] == vs[s] && grest[s - 1] == gs[s];
          assert rest[t - 1] == vs[t] && grest[t - 1] == gs[t];
        }
      }
      if e in FanEntries(vs[0], gs[0], rest, grest) {
        var t :| 0 <= t < |rest| && (e == ((gs[0], grest[t]), (vs[0], rest[t])) || e == ((grest[t], gs[0]), (rest[t], vs[0])));
        assert rest[t] == vs[t + 1] && grest[t] == gs[t + 1];
      }
      if e in MeshEntries(rest, grest) {
        var s, t :| 0 <= s < |rest| && 0 <= t < |rest| && s != t && e == ((grest[s], grest[t]), (rest[s], rest[t]));
        assert rest[s] == vs[s + 1] && grest[s] == gs[s + 1];
        assert rest[t] == vs[t + 1] && grest[t] == gs[t + 1];
      }
    }
  }

  /** No link of `links` runs from one of `vs` to one of `vs`. */
  predicate NoLinkAmong(links: map<LinkKey, Link>, vs: seq<NodeId>)
  {
    forall k | k in links :: !(k.0 in vs && k.1 in vs)
  }

  /** A fan from a node to nodes it has no links with adds two links per node. */
  lemma {:induction false} FanSize(h: Hyper, a: NodeId, ga: GroupId, us: seq<NodeId>, gus: seq<GroupId>, mode: Mode)
    requires |us| == |gus| && NoDup(us) && a !in us
    requires forall k | k in h.links :: !(k.0 == a && k.1 in us) && !(k.1 == a && k.0 in us)
    ensures |Fan(h, a, ga, us, gus, mode).links| == |h.links| + 2 * |us|
    decreases |us|
  {
    if |us| > 0 {
      var u := us[0];
      var h1 := Pair(h, a, ga, u, gus[0], mode);
      NoDupTail(us);
      AddTwoSize(h.links, (a, u), TransferLink(mode), (u, a), TransferLink(mode));
      assert forall x | x in us[1..] :: x in us;
      FanSize(h1, a, ga, us[1..], gus[1..], mode);
    }
  }

  /** Meshing `n` distinct nodes with no links among them adds n * (n - 1) links. */
  lemma {:induction false} MeshSize(h: Hyper, vs: seq<NodeId>, gs: seq<GroupId>, mode: Mode)
    requires |vs| == |gs| && NoDup(vs) && NoLinkAmong(h.links, vs)
    ensures |Mesh(h, vs, gs, mode).links| == |h.links| + OrderedPairs(|vs|)
    decreases |vs|
  {
    if |vs| > 0 {
      var rest := vs[1..];
      NoDupTail(vs);
      assert forall x | x in rest :: x in vs;
      FanSize(h, vs[0], gs[0], rest, gs[1..], mode);
      var h1 := Fan(h, vs[0], gs[0], rest, gs[1..], mode);
      FanLinks(h, vs[0], gs[0], rest, gs[1..], mode);
      assert NoLinkAmong(h1.links, rest) by {
        forall k | k in h1.links
          ensures !(k.0 in rest && k.1 in rest)
        {
          if k !in h.links {
            FanKeysAt(vs[0], rest, k);
          }
        }
      }
      MeshSize(h1, rest, gs[1..], mode);
    }
  }

  /** Meshing distinct nodes of the arena keeps links between nodes. */
  lemma {:induction false} MeshSound(h: Hyper, vs: seq<NodeId>, gs: seq<GroupId>, mode: Mode)
    requires |vs| == |gs| && NoDup(vs) && Sound(h)
    requires forall v | v in vs :: v in h.nodes
    ensures Sound(Mesh(h, vs, gs, mode))
  {
    var r := Mesh(h, vs, gs, mode);
    MeshLinks(h, vs, gs, mode);
    forall k | k in r.links
      ensures k.0 in r.nodes && k.1 in r.nodes && k.0 != k.1
    {
      if k !in h.links {
        MeshKeysAt(vs, k);
      }
    }
  }
}
