/** Connecting the expanded nodes: every connector link leaving a base
    node is reproduced between the virtual nodes of each pair of stopping
    groups at its two ends, and indexed in the transfer grid when the
    groups differ. */
module Connecting {
  import opened Outcomes
  import opened Collections
  import opened Network
  import opened HyperNet

  /** One pass of the inner loop: connector `link` from the base node to
      `far`, considered for the groups `g1` (at the base node) and `g2`
      (at `far`). */
  datatype Job = Job(far: NodeId, link: Link, g1: GroupId, g2: GroupId)

  /** The jobs of connector `link` to `far`, for group `g1` at the base
      node and each of the groups `g2s` at the far end. */
  function Row(far: NodeId, link: Link, g1: GroupId, g2s: seq<GroupId>): (r: seq<Job>)
    ensures forall job :: job in r <==> job.far == far && job.link == link && job.g1 == g1 && job.g2 in g2s
    decreases |g2s|
  {
    if |g2s| == 0 then []
    else [Job(far, link, g1, g2s[0])] + Row(far, link, g1, g2s[1..])
  }

  /** The jobs of one connector: every group at the base node (outer loop)
      against every group at the far end (inner loop). */
  function Product(far: NodeId, link: Link, g1s: seq<GroupId>, g2s: seq<GroupId>): (r: seq<Job>)
    ensures forall job :: job in r <==> job.far == far && job.link == link && job.g1 in g1s && job.g2 in g2s
    decreases |g1s|
  {
    if |g1s| == 0 then []
    else Row(far, link, g1s[0], g2s) + Product(far, link, g1s[1..], g2s)
  }

  /** The stopping groups of node `n` in the order the expansion visits
      them (none for a node the network does not hold). */
  function StopsOf(h: Hyper, n: NodeId): seq<GroupId>
  {
    if n in h.nodes then Ascending(h.nodes[n].stopping) else []
  }

  /** The jobs of the connectors from `b` to each of `fars`, in order. */
  function JobsFrom(h: Hyper, b: NodeId, fars: seq<NodeId>): (r: seq<Job>)
    requires b in h.nodes
    requires forall j | j in fars :: (b, j) in h.links
    ensures forall job | job in r :: job.far in fars
    decreases |fars|
  {
    if |fars| == 0 then []
    else
      var j := fars[0];
      Product(j, h.links[(b, j)], StopsOf(h, b), StopsOf(h, j)) + JobsFrom(h, b, fars[1..])
  }

  /** The far ends of the connectors (links of a role other than ordinary)
      leaving `b`, in increasing order. */
  function ConnectorEnds(h: Hyper, b: NodeId): (r: seq<NodeId>)
    ensures forall j :: j in r <==> (b, j) in h.links && h.links[(b, j)].role != Ordinary
  {
    Ascending(set k | k in h.links && k.0 == b && h.links[k].role != Ordinary :: k.1)
  }

  /** Every job of base node `b`, over the connectors it has when its turn
      comes. */
  function Jobs(h: Hyper, b: NodeId): seq<Job>
    requires b in h.nodes
  {
    JobsFrom(h, b, ConnectorEnds(h, b))
  }

  /** The virtual nodes a job joins, when both dictionaries hold its groups. */
  function Target(h: Hyper, b: NodeId, job: Job): Option<LinkKey>
    requires b in h.nodes
  {
    var o1 := h.nodes[b].hyperOwner;
    if (o1, job.g1) !in h.hyper || job.far !in h.nodes then None
    else
      var o2 := h.nodes[job.far].hyperOwner;
      if (o2, job.g2) !in h.hyper then None
      else Some((h.hyper[(o1, job.g1)], h.hyper[(o2, job.g2)]))
  }

  /** The grid entry a job files, if any: only transfers between different
      groups are indexed. */
  function JobEntries(key: LinkKey, job: Job): set<Entry>
  {
    if job.g1 != job.g2 then {((job.g1, job.g2), key)} else {}
  }

  /** One job: reuse the link between the two virtual nodes if there is
      one, otherwise create it with the connector's attributes. */
  function ConnectJob(h: Hyper, b: NodeId, job: Job): (r: Result<Hyper>)
    requires b in h.nodes
    ensures r.Ok? ==> r.value.nodes == h.nodes && r.value.hyper == h.hyper && r.value.next == h.next
  {
    match Target(h, b, job)
    case None => Err("KeyError: group missing from to_hyper_node")
    case Some(key) =>
      if key in h.links then Ok(h.(grid := h.grid + JobEntries(key, job)))
      else if key.0 == key.1 || key.0 !in h.nodes || key.1 !in h.nodes then Err("cannot create link")
      else Ok(h.(links := h.links[key := job.link], grid := h.grid + JobEntries(key, job)))
  }

  /** The jobs in order; the first failure aborts. */
  function ConnectJobs(h: Hyper, b: NodeId, jobs: seq<Job>): (r: Result<Hyper>)
    requires b in h.nodes
    ensures r.Ok? ==> r.value.nodes == h.nodes && r.value.hyper == h.hyper && r.value.next == h.next
    decreases |jobs|
  {
    if |jobs| == 0 then Ok(h)
    else
      var h1 :- ConnectJob(h, b, jobs[0]);
      ConnectJobs(h1, b, jobs[1..])
  }

  /** The virtual node of group `g1` at the base node is looked up before
      that group's row of jobs runs, even when the row is empty. */
  predicate BaseHas(h: Hyper, b: NodeId, g1: GroupId)
    requires b in h.nodes
  {
    (h.nodes[b].hyperOwner, g1) in h.hyper
  }

  /** The rows of one connector to `far`: for each group `g1s[i]` at the
      base node, look up its virtual node, then run its row of jobs. */
  function ConnectRows(h: Hyper, b: NodeId, far: NodeId, link: Link, g1s: seq<GroupId>, g2s: seq<GroupId>): (r: Result<Hyper>)
    requires b in h.nodes
    ensures r.Ok? ==> r.value.nodes == h.nodes && r.value.hyper == h.hyper && r.value.next == h.next
    decreases |g1s|
  {
    if |g1s| == 0 then Ok(h)
    else if !BaseHas(h, b, g1s[0]) then Err("KeyError: group missing from to_hyper_node")
    else
      var h1 :- ConnectJobs(h, b, Row(far, link, g1s[0], g2s));
      ConnectRows(h1, b, far, link, g1s[1..], g2s)
  }

  /** The connectors from `b` to each of `fars` in turn, their attributes
      and stopping groups read from `h0`, the network as it was when `b`'s
      turn came. */
  function ConnectFrom(h0: Hyper, h: Hyper, b: NodeId, fars: seq<NodeId>): (r: Result<Hyper>)
    requires b in h0.nodes && b in h.nodes
    requires forall j | j in fars :: (b, j) in h0.links
    ensures r.Ok? ==> r.value.nodes == h.nodes && r.value.hyper == h.hyper && r.value.next == h.next
    decreases |fars|
  {
    if |fars| == 0 then Ok(h)
    else
      var j := fars[0];
      var h1 :- ConnectRows(h, b, j, h0.links[(b, j)], StopsOf(h0, b), StopsOf(h0, j));
      ConnectFrom(h0, h1, b, fars[1..])
  }

  /** Connecting base node `b`: each of its connectors in turn. */
  function Connect(h: Hyper, b: NodeId): Result<Hyper>
    requires b in h.nodes
  {
    ConnectFrom(h, h, b, ConnectorEnds(h, b))
  }

  /** Connecting the base nodes `bs` in turn: the surface nodes, then the
      station nodes. */
  function ConnectAll(h: Hyper, bs: seq<NodeId>): (r: Result<Hyper>)
    requires forall b | b in bs :: b in h.nodes
    ensures r.Ok? ==> r.value.nodes == h.nodes && r.value.hyper == h.hyper && r.value.next == h.next
    decreases |bs|
  {
    if |bs| == 0 then Ok(h)
    else
      var h1 :- Connect(h, bs[0]);
      ConnectAll(h1, bs[1..])
  }

  // ---------------------------------------------------------------------
  // Properties

  /** A job can be carried out: both dictionaries hold its groups and its
      two virtual nodes differ. */
  predicate JobOk(h: Hyper, b: NodeId, job: Job)
    requires b in h.nodes
  {
    Target(h, b, job).Some? && Target(h, b, job).value.0 != Target(h, b, job).value.1
  }

  /** The jobs of `b` are exactly the pairs of a connector leaving `b`, a
      stopping group of `b` and a stopping group of the far end. */
  lemma {:induction false} JobsAt(h: Hyper, b: NodeId, fars: seq<NodeId>, job: Job)
    requires b in h.nodes
    requires forall j | j in fars :: (b, j) in h.links
    ensures job in JobsFrom(h, b, fars) <==>
              && job.far in fars && job.link == h.links[(b, job.far)]
              && job.g1 in StopsOf(h, b) && job.g2 in StopsOf(h, job.far)
    decreases |fars|
  {
    if |fars| > 0 {
      JobsAt(h, b, fars[1..], job);
      assert forall j :: j in fars <==> j == fars[0] || j in fars[1..];
    }
  }

  lemma ConnectJobKeeps(h: Hyper, b: NodeId, job: Job)
    requires b in h.nodes && ConnectJob(h, b, job).Ok?
    ensures var r := ConnectJob(h, b, job).value;
            && (forall k | k in h.links :: k in r.links && r.links[k] == h.links[k])
            && h.grid <= r.grid
  {
  }

  /** Connecting never alters a link that exists: an existing link between
      two virtual nodes is reused, not replaced. */
  lemma {:induction false} ConnectKeeps(h: Hyper, b: NodeId, jobs: seq<Job>)
    requires b in h.nodes && ConnectJobs(h, b, jobs).Ok?
    ensures var r := ConnectJobs(h, b, jobs).value;
            && (forall k | k in h.links :: k in r.links && r.links[k] == h.links[k])
            && h.grid <= r.grid
    decreases |jobs|
  {
    if |jobs| > 0 {
      var h1 := ConnectJob(h, b, jobs[0]).value;
      ConnectJobKeeps(h, b, jobs[0]);
      ConnectKeeps(h1, b, jobs[1..]);
    }
  }

  /** After a successful connection every job's virtual nodes are linked,
      and the link is filed under the job's two groups when they differ. */
  lemma {:induction false} ConnectCovers(h: Hyper, b: NodeId, jobs: seq<Job>)
    requires b in h.nodes && ConnectJobs(h, b, jobs).Ok?
    ensures var r := ConnectJobs(h, b, jobs).value;
            forall job | job in jobs ::
              && Target(h, b, job).Some?
              && Target(h, b, job).value in r.links
              && JobEntries(Target(h, b, job).value, job) <= r.grid
    decreases |jobs|
  {
    if |jobs| > 0 {
      var r := ConnectJobs(h, b, jobs).value;
      var h1 := ConnectJob(h, b, jobs[0]).value;
      ConnectKeeps(h1, b, jobs[1..]);
      ConnectCovers(h1, b, jobs[1..]);
      assert forall job :: Target(h1, b, job) == Target(h, b, job);
      assert forall job | job in jobs :: job == jobs[0] || job in jobs[1..];
    }
  }

  /** Connecting adds nothing but the jobs' links, each carrying the
      attributes of a connector it reproduces, and the jobs' grid entries. */
  lemma {:induction false} ConnectOnly(h: Hyper, b: NodeId, jobs: seq<Job>)
    requires b in h.nodes && ConnectJobs(h, b, jobs).Ok?
    ensures var r := ConnectJobs(h, b, jobs).value;
            && (forall k | k in r.links && k !in h.links ::
                  exists job | job in jobs :: Target(h, b, job) == Some(k) && r.links[k] == job.link)
            && (forall e | e in r.grid && e !in h.grid ::
                  exists job | job in jobs :: Target(h, b, job) == Some(e.1) && e in JobEntries(e.1, job))
    decreases |jobs|
  {
    if |jobs| > 0 {
      var r := ConnectJobs(h, b, jobs).value;
      var h1 := ConnectJob(h, b, jobs[0]).value;
      ConnectOnly(h1, b, jobs[1..]);
      ConnectKeeps(h1, b, jobs[1..]);
      assert forall job :: Target(h1, b, job) == Target(h, b, job);
      forall k | k in r.links && k !in h.links
        ensures exists job | job in jobs :: Target(h, b, job) == Some(k) && r.links[k] == job.link
      {
        if k !in h1.links {
          var job :| job in jobs[1..] && Target(h1, b, job) == Some(k) && r.links[k] == job.link;
          assert job in jobs;
        } else {
          assert Target(h, b, jobs[0]) == Some(k) && h1.links[k] == jobs[0].link;
        }
      }
      forall e | e in r.grid && e !in h.grid
        ensures exists job | job in jobs :: Target(h, b, job) == Some(e.1) && e in JobEntries(e.1, job)
      {
        if e !in h1.grid {
          var job :| job in jobs[1..] && Target(h1, b, job) == Some(e.1) && e in JobEntries(e.1, job);
          assert job in jobs;
        } else {
          assert Target(h, b, jobs[0]) == Some(e.1) && e in JobEntries(e.1, jobs[0]);
        }
      }
    }
  }

  /** Connecting keeps links between distinct nodes of the network. */
  lemma {:induction false} ConnectSound(h: Hyper, b: NodeId, jobs: seq<Job>)
    requires b in h.nodes && Sound(h) && ConnectJobs(h, b, jobs).Ok?
    ensures Sound(ConnectJobs(h, b, jobs).value)
    decreases |jobs|
  {
    if |jobs| > 0 {
      var h1 := ConnectJob(h, b, jobs[0]).value;
      assert Sound(h1);
      ConnectSound(h1, b, jobs[1..]);
    }
  }

  /** On a sound network, connecting fails exactly when some job's group
      is missing from a dictionary or its two virtual nodes coincide. */
  lemma {:induction false} ConnectOkIff(h: Hyper, b: NodeId, jobs: seq<Job>)
    requires b in h.nodes && Sound(h)
    ensures ConnectJobs(h, b, jobs).Ok? <==> forall job | job in jobs :: JobOk(h, b, job)
    decreases |jobs|
  {
    if |jobs| > 0 {
      assert forall job | job in jobs :: job == jobs[0] || job in jobs[1..];
      var c := ConnectJob(h, b, jobs[0]);
      if c.Ok? {
        var h1 := c.value;
        assert Sound(h1);
        ConnectOkIff(h1, b, jobs[1..]);
        assert forall job :: JobOk(h1, b, job) == JobOk(h, b, job);
        assert JobOk(h, b, jobs[0]);
      } else {
        assert !JobOk(h, b, jobs[0]);
      }
    }
  }

  /** Running two lists of jobs one after the other is running their
      concatenation. */
  lemma {:induction false} ConnectJobsAppend(h: Hyper, b: NodeId, a: seq<Job>, c: seq<Job>)
    requires b in h.nodes
    ensures ConnectJobs(h, b, a + c) ==
              if ConnectJobs(h, b, a).Ok? then ConnectJobs(ConnectJobs(h, b, a).value, b, c)
              else ConnectJobs(h, b, a)
    decreases |a|
  {
    if |a| > 0 {
      assert (a + c)[0] == a[0] && (a + c)[1..] == a[1..] + c;
      var c0 := ConnectJob(h, b, a[0]);
      if c0.Ok? {
        ConnectJobsAppend(c0.value, b, a[1..], c);
      }
    } else {
      assert a + c == c;
    }
  }

  /** The rows of one connector succeed exactly when every group at the
      base node has a virtual node and the connector's jobs all succeed,
      and then they leave the network the jobs leave. */
  lemma {:induction false} ConnectRowsJobs(h: Hyper, b: NodeId, far: NodeId, link: Link, g1s: seq<GroupId>, g2s: seq<GroupId>)
    requires b in h.nodes
    ensures var r := ConnectRows(h, b, far, link, g1s, g2s);
            && (r.Ok? <==> (forall g1 | g1 in g1s :: BaseHas(h, b, g1)) && ConnectJobs(h, b, Product(far, link, g1s, g2s)).Ok?)
            && (r.Ok? ==> r == ConnectJobs(h, b, Product(far, link, g1s, g2s)))
    decreases |g1s|
  {
    if |g1s| > 0 {
      var row := Row(far, link, g1s[0], g2s);
      var rest := Product(far, link, g1s[1..], g2s);
      assert Product(far, link, g1s, g2s) == row + rest;
      if BaseHas(h, b, g1s[0]) {
        ConnectJobsAppend(h, b, row, rest);
        var c := ConnectJobs(h, b, row);
        if c.Ok? {
          assert ConnectRows(h, b, far, link, g1s, g2s) == ConnectRows(c.value, b, far, link, g1s[1..], g2s);
          ConnectRowsJobs(c.value, b, far, link, g1s[1..], g2s);
          assert forall g1 :: BaseHas(c.value, b, g1) == BaseHas(h, b, g1);
          assert forall g1 | g1 in g1s :: g1 == g1s[0] || g1 in g1s[1..];
        }
      }
    }
  }

  /** The connectors in turn succeed exactly when, if there is any, every
      group at the base node has a virtual node and all their jobs
      succeed, and then they leave the network the jobs leave. */
  lemma {:induction false} ConnectFromJobs(h0: Hyper, h: Hyper, b: NodeId, fars: seq<NodeId>)
    requires b in h0.nodes && b in h.nodes
    requires forall j | j in fars :: (b, j) in h0.links
    ensures var r := ConnectFrom(h0, h, b, fars);
            var mapped := |fars| == 0 || forall g1 | g1 in StopsOf(h0, b) :: BaseHas(h, b, g1);
            && (r.Ok? <==> mapped && ConnectJobs(h, b, JobsFrom(h0, b, fars)).Ok?)
            && (r.Ok? ==> r == ConnectJobs(h, b, JobsFrom(h0, b, fars)))
    decreases |fars|
  {
    if |fars| > 0 {
      var j := fars[0];
      var p := Product(j, h0.links[(b, j)], StopsOf(h0, b), StopsOf(h0, j));
      var rest := JobsFrom(h0, b, fars[1..]);
      ConnectJobsAppend(h, b, p, rest);
      ConnectRowsJobs(h, b, j, h0.links[(b, j)], StopsOf(h0, b), StopsOf(h0, j));
      var c := ConnectRows(h, b, j, h0.links[(b, j)], StopsOf(h0, b), StopsOf(h0, j));
      if c.Ok? {
        ConnectFromJobs(h0, c.value, b, fars[1..]);
        assert forall g1 :: BaseHas(c.value, b, g1) == BaseHas(h, b, g1);
      }
    }
  }

  /** Every group at the base node has a virtual node, or the base node has
      no connector and nothing is looked up. */
  predicate BaseMapped(h: Hyper, b: NodeId)
    requires b in h.nodes
  {
    |ConnectorEnds(h, b)| == 0 || forall g1 | g1 in h.nodes[b].stopping :: BaseHas(h, b, g1)
  }

  /** Connecting `b` succeeds exactly when the lookups of its groups
      succeed and so do all its jobs, and then it leaves the network the
      jobs leave. */
  lemma ConnectIsJobs(h: Hyper, b: NodeId)
    requires b in h.nodes
    ensures Connect(h, b).Ok? <==> BaseMapped(h, b) && ConnectJobs(h, b, Jobs(h, b)).Ok?
    ensures Connect(h, b).Ok? ==> Connect(h, b) == ConnectJobs(h, b, Jobs(h, b))
  {
    ConnectFromJobs(h, h, b, ConnectorEnds(h, b));

  }

  /** On a sound network, connecting `b` fails exactly when it has a
      connector and one of its groups has no virtual node, or some job's
      group is missing from a dictionary or its two virtual nodes
      coincide. */
  lemma ConnectNodeOkIff(h: Hyper, b: NodeId)
    requires b in h.nodes && Sound(h)
    ensures Connect(h, b).Ok? <==> BaseMapped(h, b) && forall job | job in Jobs(h, b) :: JobOk(h, b, job)
  {
    ConnectIsJobs(h, b);
    ConnectOkIff(h, b, Jobs(h, b));
  }

  /** Connecting the base nodes in turn never alters an existing link and
      keeps the network sound. */
  lemma {:induction false} ConnectAllKeeps(h: Hyper, bs: seq<NodeId>)
    requires forall b | b in bs :: b in h.nodes
    requires Sound(h) && ConnectAll(h, bs).Ok?
    ensures var r := ConnectAll(h, bs).value;
            && Sound(r)
            && (forall k | k in h.links :: k in r.links && r.links[k] == h.links[k])
            && h.grid <= r.grid
    decreases |bs|
  {
    if |bs| > 0 {
      var h1 := Connect(h, bs[0]).value;
      ConnectIsJobs(h, bs[0]);
      ConnectKeeps(h, bs[0], Jobs(h, bs[0]));
      ConnectSound(h, bs[0], Jobs(h, bs[0]));
      ConnectAllKeeps(h1, bs[1..]);
    }
  }

  /** Connecting `b` links, for every connector from `b` to `j` and every
      stopping group `g1` of `b` and `g2` of `j`, the virtual node of `g1`
      at `b` to that of `g2` at `j`, filing the link under (g1, g2) when the
      groups differ. */
  lemma ConnectConnectors(h: Hyper, b: NodeId)
    requires b in h.nodes && Connect(h, b).Ok?
    ensures var r := Connect(h, b).value;
            forall j, g1, g2 | (b, j) in h.links && h.links[(b, j)].role != Ordinary && j in h.nodes
                               && g1 in h.nodes[b].stopping && g2 in h.nodes[j].stopping ::
              var job := Job(j, h.links[(b, j)], g1, g2);
              && Target(h, b, job).Some?
              && Target(h, b, job).value in r.links
              && JobEntries(Target(h, b, job).value, job) <= r.grid
  {
    var fars := ConnectorEnds(h, b);
    ConnectIsJobs(h, b);
    ConnectCovers(h, b, Jobs(h, b));
    forall j, g1, g2 | (b, j) in h.links && h.links[(b, j)].role != Ordinary && j in h.nodes
                       && g1 in h.nodes[b].stopping && g2 in h.nodes[j].stopping
      ensures Job(j, h.links[(b, j)], g1, g2) in Jobs(h, b)
    {
      JobsAt(h, b, fars, Job(j, h.links[(b, j)], g1, g2));
    }
  }
}
