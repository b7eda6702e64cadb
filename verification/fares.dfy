/** The fare rules: each rule of a fare schema adds its cost to the fare
    of the hyper-network links that a cell of the transfer grid files
    (boarding and transfer fares) or to the fare of the line segments that
    a cell of the zone-crossing grid files or a line group runs (zone
    crossing and distance fares). The network is the state the line
    rewrite leaves: the expanded network, the rewritten lines and the
    zone-crossing grid. */
module Fares {
  import opened Outcomes
  import opened Collections
  import opened Network
  import opened HyperNet
  import opened Lines

  /** Segment number `r.1` of line `r.0`. */
  type SegmentRef = (LineId, int)

  /** A fare rule once its ids have been turned into group and zone
      numbers. A rule of a type the engine does not know is skipped. */
  datatype FareRule =
    | InitialBoarding(cost: real, group: GroupId, inZone: Option<int>, includeAll: bool)
    | TransferBoarding(cost: real, fromGroup: GroupId, toGroup: GroupId, bidirectional: bool)
    | ByDistance(cost: real, group: GroupId)
    | ZoneCrossing(cost: real, group: GroupId, fromZone: int, toZone: int, bidirectional: bool)
    | Unrecognised
  {
    function Cost(): real
      requires !Unrecognised?
    {
      match this
      case InitialBoarding(c, _, _, _) => c
      case TransferBoarding(c, _, _, _) => c
      case ByDistance(c, _) => c
      case ZoneCrossing(c, _, _, _, _) => c
    }
  }

  /** A `fare` element as read: its attributes and, per child tag, the
      text of the first child with that tag. */
  datatype FareElement = FareElement(attrs: map<string, string>, children: map<string, string>)

  // ---------------------------------------------------------------------
  // Reading a rule

  /** The words a boolean child may hold, and their values. */
  const BoolWords: map<string, bool> := map["TRUE" := true, "T" := true, "FALSE" := false, "F" := false]

  /** ASCII upper-casing of one character. */
  function UpperChar(c: char): char
  {
    if 'a' <= c <= 'z' then (c as int - 'a' as int + 'A' as int) as char else c
  }

  /** ASCII upper-casing (no other case mapping is modelled). */
  function Upper(s: string): (u: string)
    ensures |u| == |s| && forall i | 0 <= i < |s| :: u[i] == UpperChar(s[i])
  {
    seq(|s|, i requires 0 <= i < |s| => UpperChar(s[i]))
  }

  /** The text of child `name`; a missing child has no text to read. */
  function ChildText(e: FareElement, name: string): Result<string>
  {
    if name in e.children then Ok(e.children[name]) else Err("AttributeError: missing child element")
  }

  /** The number an id stands for; an unknown id is a key error. */
  function Number(ids: map<string, int>, id: string): Result<int>
  {
    if id in ids then Ok(ids[id]) else Err("KeyError: unknown id")
  }

  /** The number the text of child `name` stands for. */
  function ChildNumber(e: FareElement, name: string, ids: map<string, int>): Result<int>
  {
    var text :- ChildText(e, name);
    Number(ids, text)
  }

  /** A boolean child as the transfer and zone-crossing rules read it:
      upper-cased first. Absent, it is false. */
  function Bidirectional(e: FareElement): Result<bool>
  {
    if "bidirectional" !in e.children then Ok(false)
    else
      var word := Upper(e.children["bidirectional"]);
      if word in BoolWords then Ok(BoolWords[word]) else Err("KeyError: not a boolean word")
  }

  /** The `include_all_groups` child as the boarding rule reads it: NOT
      upper-cased. Absent, it is true. */
  function IncludeAll(e: FareElement): Result<bool>
  {
    if "include_all_groups" !in e.children then Ok(true)
    else
      var word := e.children["include_all_groups"];
      if word in BoolWords then Ok(BoolWords[word]) else Err("KeyError: not a boolean word")
  }

  /** The rule's cost, read with the host's decimal parser `parse`. */
  function CostOf(e: FareElement, parse: string -> Option<real>): Result<real>
  {
    if "cost" !in e.attrs then Err("KeyError: no cost")
    else match parse(e.attrs["cost"])
      case None => Err("ValueError: cost is not a number")
      case Some(c) => Ok(c)
  }

  /** Reading one fare element in the order the rule application reads
      it. An unknown type reads nothing, not even its cost. */
  function ToRule(e: FareElement, groupIds: map<string, GroupId>, zoneIds: map<string, int>,
                  parse: string -> Option<real>): (r: Result<FareRule>)
    ensures r.Ok? ==> "type" in e.attrs
    ensures r.Ok? && r.value.Unrecognised? <==>
              "type" in e.attrs && e.attrs["type"] !in {"initial_boarding", "transfer", "distance_in_vehicle", "zone_crossing"}
    ensures r.Ok? && !r.value.Unrecognised? ==> CostOf(e, parse) == Ok(r.value.Cost())
  {
    if "type" !in e.attrs then Err("KeyError: no type")
    else
      var typ := e.attrs["type"];
      if typ == "initial_boarding" then
        var cost :- CostOf(e, parse);
        var g :- ChildNumber(e, "group", groupIds);
        var inZone :- if "in_zone" in e.children then
                        (var z :- Number(zoneIds, e.children["in_zone"]); Ok(Some(z)))
                      else Ok(None);
        var all :- IncludeAll(e);
        Ok(InitialBoarding(cost, g, inZone, all))
      else if typ == "transfer" then
        var cost :- CostOf(e, parse);
        var f :- ChildNumber(e, "from_group", groupIds);
        var t :- ChildNumber(e, "to_group", groupIds);
        var bi :- Bidirectional(e);
        Ok(TransferBoarding(cost, f, t, bi))
      else if typ == "distance_in_vehicle" then
        var cost :- CostOf(e, parse);
        var g :- ChildNumber(e, "group", groupIds);
        Ok(ByDistance(cost, g))
      else if typ == "zone_crossing" then
        var cost :- CostOf(e, parse);
        var g :- ChildNumber(e, "group", groupIds);
        var f :- ChildNumber(e, "from_zone", zoneIds);
        var t :- ChildNumber(e, "to_zone", zoneIds);
        var bi :- Bidirectional(e);
        Ok(ZoneCrossing(cost, g, f, t, bi))
      else Ok(Unrecognised)
  }

  /** Child `name` is present and its text is one of the ids in `ids`. */
  predicate ChildIn<T>(e: FareElement, name: string, ids: map<string, T>)
  {
    name in e.children && e.children[name] in ids
  }

  /** An initial boarding rule is read exactly when its cost parses, its
      group is known, its zone (if given) is known and its include-all word
      (if given) is one of the exact-case boolean words. The rule takes the
      group's number, the zone's number or no zone, and the include-all
      word's value, true when absent. */
  lemma BoardingRuleFields(e: FareElement, groupIds: map<string, GroupId>, zoneIds: map<string, int>,
                           parse: string -> Option<real>)
    requires "type" in e.attrs && e.attrs["type"] == "initial_boarding"
    ensures ToRule(e, groupIds, zoneIds, parse).Ok? <==>
              && CostOf(e, parse).Ok? && ChildIn(e, "group", groupIds)
              && ("in_zone" in e.children ==> ChildIn(e, "in_zone", zoneIds))
              && ("include_all_groups" in e.children ==> ChildIn(e, "include_all_groups", BoolWords))
    ensures ToRule(e, groupIds, zoneIds, parse).Ok? ==>
              var r := ToRule(e, groupIds, zoneIds, parse).value;
              && r.InitialBoarding?
              && r.group == groupIds[e.children["group"]]
              && r.inZone == (if "in_zone" in e.children then Some(zoneIds[e.children["in_zone"]]) else None)
              && r.includeAll == (if "include_all_groups" in e.children then BoolWords[e.children["include_all_groups"]] else true)
  {
  }

  /** A transfer rule is read exactly when its cost parses, both groups
      are known and its bidirectional word (if given) is a boolean word in
      any letter case. The rule takes the two groups' numbers and the
      word's value, false when absent. */
  lemma TransferRuleFields(e: FareElement, groupIds: map<string, GroupId>, zoneIds: map<string, int>,
                           parse: string -> Option<real>)
    requires "type" in e.attrs && e.attrs["type"] == "transfer"
    ensures ToRule(e, groupIds, zoneIds, parse).Ok? <==>
              && CostOf(e, parse).Ok? && ChildIn(e, "from_group", groupIds) && ChildIn(e, "to_group", groupIds)
              && ("bidirectional" in e.children ==> Upper(e.children["bidirectional"]) in BoolWords)
    ensures ToRule(e, groupIds, zoneIds, parse).Ok? ==>
              var r := ToRule(e, groupIds, zoneIds, parse).value;
              && r.TransferBoarding?
              && r.fromGroup == groupIds[e.children["from_group"]]
              && r.toGroup == groupIds[e.children["to_group"]]
              && r.bidirectional == (if "bidirectional" in e.children then BoolWords[Upper(e.children["bidirectional"])] else false)
  {
  }

  /** A distance rule is read exactly when its cost parses and its group
      is known; it takes the group's number. */
  lemma DistanceRuleFields(e: FareElement, groupIds: map<string, GroupId>, zoneIds: map<string, int>,
                           parse: string -> Option<real>)
    requires "type" in e.attrs && e.attrs["type"] == "distance_in_vehicle"
    ensures ToRule(e, groupIds, zoneIds, parse).Ok? <==> CostOf(e, parse).Ok? && ChildIn(e, "group", groupIds)
    ensures ToRule(e, groupIds, zoneIds, parse).Ok? ==>
              var r := ToRule(e, groupIds, zoneIds, parse).value;
              r.ByDistance? && r.group == groupIds[e.children["group"]]
  {
  }

  /** A zone-crossing rule is read exactly when its cost parses, its group
      and both zones are known and its bidirectional word (if given) is a
      boolean word in any letter case. The rule takes their numbers and the
      word's value, false when absent. */
  lemma ZoneCrossingRuleFields(e: FareElement, groupIds: map<string, GroupId>, zoneIds: map<string, int>,
                               parse: string -> Option<real>)
    requires "type" in e.attrs && e.attrs["type"] == "zone_crossing"
    ensures ToRule(e, groupIds, zoneIds, parse).Ok? <==>
              && CostOf(e, parse).Ok? && ChildIn(e, "group", groupIds)
              && ChildIn(e, "from_zone", zoneIds) && ChildIn(e, "to_zone", zoneIds)
              && ("bidirectional" in e.children ==> Upper(e.children["bidirectional"]) in BoolWords)
    ensures ToRule(e, groupIds, zoneIds, parse).Ok? ==>
              var r := ToRule(e, groupIds, zoneIds, parse).value;
              && r.ZoneCrossing?
              && r.group == groupIds[e.children["group"]]
              && r.fromZone == zoneIds[e.children["from_zone"]]
              && r.toZone == zoneIds[e.children["to_zone"]]
              && r.bidirectional == (if "bidirectional" in e.children then BoolWords[Upper(e.children["bidirectional"])] else false)
  {
  }

  // ---------------------------------------------------------------------
  // Charging links and segments

  /** Adding `cost` to the fare of every link in `ks`. */
  function ChargeLinks(links: map<LinkKey, Link>, ks: set<LinkKey>, cost: real): map<LinkKey, Link>
  {
    map k | k in links :: if k in ks then links[k].(fare := links[k].fare + cost) else links[k]
  }

  /** The boarding filter: with a zone, only links leaving a node of that
      fare zone. */
  predicate InZone(h: Hyper, k: LinkKey, inZone: Option<int>)
  {
    inZone.None? || ZoneOf(h, k.0) == inZone.value
  }

  /** The links filed in cell `c` of the transfer grid that pass the
      zone filter. */
  function CellLinks(h: Hyper, c: (int, int), inZone: Option<int>): set<LinkKey>
  {
    set e | e in h.grid && e.0 == c && InZone(h, e.1, inZone) :: e.1
  }

  /** The initial boarding rule walks the cells (x, g) for x from 0 up to
      `n` - 1 in turn, charging the links in each. */
  function BoardCells(h: Hyper, links: map<LinkKey, Link>, g: GroupId, inZone: Option<int>, cost: real, n: nat): map<LinkKey, Link>
    decreases n
  {
    if n == 0 then links
    else ChargeLinks(BoardCells(h, links, g, inZone, cost, n - 1), CellLinks(h, (n - 1, g), inZone), cost)
  }

  /** Adding `cost` to the fare of every segment in `refs`. */
  function ChargeSegments(lines: map<LineId, Line>, refs: set<SegmentRef>, cost: real): map<LineId, Line>
  {
    map id | id in lines ::
      lines[id].(segments := seq(|lines[id].segments|, k requires 0 <= k < |lines[id].segments| =>
        if (id, k) in refs then lines[id].segments[k].(fare := lines[id].segments[k].fare + cost)
        else lines[id].segments[k]))
  }

  /** The segments filed in cell `c` of the zone-crossing grid. */
  function CellSegments(crossings: set<ZoneEntry>, c: (int, int)): set<SegmentRef>
  {
    set e | e in crossings && e.0 == c :: e.1
  }

  /** Every segment a cell files names a line, and those of group `g`
      name one of its segments: otherwise the lookup fails. */
  predicate CellReadable(lines: map<LineId, Line>, refs: set<SegmentRef>, g: GroupId)
  {
    forall r | r in refs :: r.0 in lines && (lines[r.0].group == g ==> 0 <= r.1 < |lines[r.0].segments|)
  }

  /** The segments of `refs` whose line runs in group `g`. */
  function OfGroup(lines: map<LineId, Line>, refs: set<SegmentRef>, g: GroupId): set<SegmentRef>
  {
    set r | r in refs && r.0 in lines && lines[r.0].group == g
  }

  /** One pass of the zone-crossing rule over cell `c`. */
  function CrossCell(lines: map<LineId, Line>, crossings: set<ZoneEntry>, c: (int, int), g: GroupId, cost: real): Result<map<LineId, Line>>
  {
    var refs := CellSegments(crossings, c);
    if !CellReadable(lines, refs, g) then Err("segment lookup failed")
    else Ok(ChargeSegments(lines, OfGroup(lines, refs, g), cost))
  }

  /** Every segment of the line but the last runs over a link. */
  predicate LinksPresent(links: map<LinkKey, Link>, line: Line)
  {
    forall k | 0 <= k < |line.segments| - 1 :: line.LinkOf(k) in links
  }

  /** What the distance rule adds to segment `k`: its link's length times
      the cost, and nothing to the last segment, which has no link. */
  function LengthCost(links: map<LinkKey, Link>, line: Line, k: int, cost: real): real
    requires LinksPresent(links, line)
  {
    if 0 <= k < |line.segments| - 1 then links[line.LinkOf(k)].length * cost else 0.0
  }

  /** A line with `cost` per unit of length added to every segment that
      has a link. A segment whose link the network lacks fails. */
  function ChargeByLength(links: map<LinkKey, Link>, line: Line, cost: real): (r: Result<Line>)
  {
    if !LinksPresent(links, line) then Err("segment without link")
    else Ok(line.(segments := seq(|line.segments|, k requires 0 <= k < |line.segments| =>
      line.segments[k].(fare := line.segments[k].fare + LengthCost(links, line, k, cost)))))
  }

  /** The distance rule walks the lines `ids` in listing order and charges
      those of group `g`. */
  function DistanceLines(links: map<LinkKey, Link>, lines: map<LineId, Line>, ids: seq<LineId>, g: GroupId, cost: real): Result<map<LineId, Line>>
    decreases |ids|
  {
    if |ids| == 0 then Ok(lines)
    else
      var n := |ids| - 1;
      var m :- DistanceLines(links, lines, ids[..n], g, cost);
      if ids[n] !in m then Err("no such transit line")
      else if m[ids[n]].group != g then Ok(m)
      else
        var line :- ChargeByLength(links, m[ids[n]], cost);
        Ok(m[ids[n] := line])
  }

  /** The line groups the listing `ids` runs, as the distance rule's
      index of lines by group has them. */
  predicate RunsGroup(lines: map<LineId, Line>, ids: seq<LineId>, g: GroupId)
  {
    exists t | 0 <= t < |ids| :: ids[t] in lines && lines[ids[t]].group == g
  }

  /** Applying one rule. `ids` lists the lines in network order and
      `size` is the number of columns of the transfer grid (the number of
      groups plus one). */
  function ApplyRule(st: LineState, rule: FareRule, ids: seq<LineId>, size: nat): (r: Result<LineState>)
    ensures r.Ok? ==> r.value.h.(links := st.h.links) == st.h && r.value.crossings == st.crossings
  {
    match rule
    case InitialBoarding(cost, g, inZone, all) =>
      var n := if all then size else 1;
      Ok(st.(h := st.h.(links := BoardCells(st.h, st.h.links, g, inZone, cost, n))))
    case TransferBoarding(cost, f, t, bi) =>
      var l1 := ChargeLinks(st.h.links, CellLinks(st.h, (f, t), None), cost);
      var l2 := if bi then ChargeLinks(l1, CellLinks(st.h, (t, f), None), cost) else l1;
      Ok(st.(h := st.h.(links := l2)))
    case ByDistance(cost, g) =>
      if !RunsGroup(st.lines, ids, g) then Err("KeyError: no line in the group")
      else
        var lines :- DistanceLines(st.h.links, st.lines, ids, g, cost);
        Ok(st.(lines := lines))
    case ZoneCrossing(cost, g, f, t, bi) =>
      var l1 :- CrossCell(st.lines, st.crossings, (f, t), g, cost);
      var l2 :- if bi then CrossCell(l1, st.crossings, (t, f), g, cost) else Ok(l1);
      Ok(st.(lines := l2))
    case Unrecognised => Ok(st)
  }

  /** Applying the rules of one fare schema in order. */
  function ApplyFareRules(st: LineState, elems: seq<FareElement>, groupIds: map<string, GroupId>, zoneIds: map<string, int>,
                          parse: string -> Option<real>, ids: seq<LineId>, size: nat): (r: Result<LineState>)
    decreases |elems|
  {
    if |elems| == 0 then Ok(st)
    else
      var rule :- ToRule(elems[0], groupIds, zoneIds, parse);
      var st1 :- ApplyRule(st, rule, ids, size);
      ApplyFareRules(st1, elems[1..], groupIds, zoneIds, parse, ids, size)
  }

  /** The audit of negative fares: the links and the segments whose fare
      is below zero, and whether to warn. Emme's segment listing leaves out
      each line's hidden last segment, so the audit never sees it. */
  function NegativeFares(st: LineState): (r: (set<LinkKey>, set<SegmentRef>, bool))
    ensures forall k :: k in r.0 <==> k in st.h.links && st.h.links[k].fare < 0.0
    ensures forall s: SegmentRef :: s in r.1 <==>
              s.0 in st.lines && 0 <= s.1 < |st.lines[s.0].segments| - 1 && st.lines[s.0].segments[s.1].fare < 0.0
    ensures r.2 <==> (exists k | k in st.h.links :: st.h.links[k].fare < 0.0)
                     || (exists id, k | id in st.lines && 0 <= k < |st.lines[id].segments| - 1 :: st.lines[id].segments[k].fare < 0.0)
  {
    var ls := set k | k in st.h.links && st.h.links[k].fare < 0.0;
    var ss := set id, k | id in st.lines && 0 <= k < |st.lines[id].segments| - 1 && st.lines[id].segments[k].fare < 0.0 :: (id, k);
    assert (exists k | k in st.h.links :: st.h.links[k].fare < 0.0) ==> |ls| > 0 by {
      if exists k | k in st.h.links :: st.h.links[k].fare < 0.0 {
        var k :| k in st.h.links && st.h.links[k].fare < 0.0;
        assert k in ls;
      }
    }
    assert (exists id, k | id in st.lines && 0 <= k < |st.lines[id].segments| - 1 :: st.lines[id].segments[k].fare < 0.0) ==> |ss| > 0 by {
      if exists id, k | id in st.lines && 0 <= k < |st.lines[id].segments| - 1 :: st.lines[id].segments[k].fare < 0.0 {
        var id, k :| id in st.lines && 0 <= k < |st.lines[id].segments| - 1 && st.lines[id].segments[k].fare < 0.0;
        assert (id, k) in ss;
      }
    }
    assert |ls| > 0 ==> exists k | k in st.h.links :: st.h.links[k].fare < 0.0 by {
      if |ls| > 0 { var k :| k in ls; }
    }
    assert |ss| > 0 ==> exists id, k | id in st.lines && 0 <= k < |st.lines[id].segments| - 1 :: st.lines[id].segments[k].fare < 0.0 by {
      if |ss| > 0 { var x :| x in ss; }
    }
    (ls, ss, |ls| + |ss| > 0)
  }

  // ---------------------------------------------------------------------
  // Properties

  /** 1 for a cell that files the link or segment, 0 otherwise. */
  function Ind(b: bool): real
  {
    if b then 1.0 else 0.0
  }

  /** The columns x below `n` whose cell (x, g) files link `k`. */
  function Hits(h: Hyper, k: LinkKey, g: GroupId, n: nat): set<int>
  {
    set x | 0 <= x < n && ((x, g), k) in h.grid
  }

  /** Charging a cell adds the cost exactly to the links it files that
      pass the zone filter. */
  lemma ChargeCellAt(h: Hyper, links: map<LinkKey, Link>, c: (int, int), inZone: Option<int>, cost: real, k: LinkKey)
    requires k in links
    ensures k in ChargeLinks(links, CellLinks(h, c, inZone), cost)
    ensures ChargeLinks(links, CellLinks(h, c, inZone), cost)[k]
              == links[k].(fare := links[k].fare + if (c, k) in h.grid && InZone(h, k, inZone) then cost else 0.0)
  {
    if (c, k) in h.grid && InZone(h, k, inZone) {
      assert k in CellLinks(h, c, inZone);
    }
  }

  /** How many times the boarding walk over the first `n` columns charges
      link `k`: once per cell (x, g) that files it, if it passes the zone
      filter. */
  function BoardCount(h: Hyper, k: LinkKey, g: GroupId, inZone: Option<int>, n: nat): nat
  {
    if InZone(h, k, inZone) then |Hits(h, k, g, n)| else 0
  }

  /** One more column adds one charge exactly when its cell files the
      link and the link passes the filter. */
  lemma BoardCountStep(h: Hyper, k: LinkKey, g: GroupId, inZone: Option<int>, n: nat)
    ensures BoardCount(h, k, g, inZone, n + 1)
            == BoardCount(h, k, g, inZone, n) + if ((n, g), k) in h.grid && InZone(h, k, inZone) then 1 else 0
  {
    if ((n, g), k) in h.grid {
      assert Hits(h, k, g, n + 1) == Hits(h, k, g, n) + {n};
    } else {
      assert Hits(h, k, g, n + 1) == Hits(h, k, g, n);
    }
  }

  /** `cost` added `n` times over. */
  function Times(n: nat, cost: real): real
  {
    if n == 0 then 0.0 else Times(n - 1, cost) + cost
  }

  /** Adding a cost `n` times over is adding `n` times the cost. */
  lemma {:induction false} TimesIsProduct(n: nat, cost: real)
    ensures Times(n, cost) == (n as real) * cost
  {
    if n > 0 {
      TimesIsProduct(n - 1, cost);
      assert (n as real) * cost == ((n - 1) as real) * cost + cost;
    }
  }

  /** One column of the boarding walk, for one link. */
  lemma BoardStepAt(h: Hyper, links: map<LinkKey, Link>, prev: map<LinkKey, Link>, g: GroupId, inZone: Option<int>, cost: real, n: nat, k: LinkKey)
    requires k in links && k in prev
    requires prev[k] == links[k].(fare := links[k].fare + Times(BoardCount(h, k, g, inZone, n), cost))
    ensures k in ChargeLinks(prev, CellLinks(h, (n, g), inZone), cost)
    ensures ChargeLinks(prev, CellLinks(h, (n, g), inZone), cost)[k]
              == links[k].(fare := links[k].fare + Times(BoardCount(h, k, g, inZone, n + 1), cost))
  {
    var b := ((n, g), k) in h.grid && InZone(h, k, inZone);
    ChargeCellAt(h, prev, (n, g), inZone, cost, k);
    BoardCountStep(h, k, g, inZone, n);
  }

  /** Walking the cells (x, g) charges each link once per cell that files
      it, provided it passes the zone filter; the set of links stays. */
  lemma {:induction false} BoardCellsFares(h: Hyper, links: map<LinkKey, Link>, g: GroupId, inZone: Option<int>, cost: real, n: nat)
    ensures BoardCells(h, links, g, inZone, cost, n).Keys == links.Keys
    ensures forall k | k in links :: BoardCells(h, links, g, inZone, cost, n)[k]
              == links[k].(fare := links[k].fare + Times(BoardCount(h, k, g, inZone, n), cost))
    decreases n
  {
    if n > 0 {
      var prev := BoardCells(h, links, g, inZone, cost, n - 1);
      BoardCellsFares(h, links, g, inZone, cost, n - 1);
      var next := ChargeLinks(prev, CellLinks(h, (n - 1, g), inZone), cost);
      assert BoardCells(h, links, g, inZone, cost, n) == next;
      forall k | k in links
        ensures next[k] == links[k].(fare := links[k].fare + Times(BoardCount(h, k, g, inZone, n), cost))
      {
        BoardStepAt(h, links, prev, g, inZone, cost, n - 1, k);
      }
    }
  }

  /** The initial boarding rule: with `include_all_groups` every link
      filed in a cell (x, g), x below the grid's size, gains the cost once
      per such cell; without, only the links of cell (0, g) gain it once.
      With a zone, only links leaving a node of that zone are charged.
      Nothing else changes. */
  lemma InitialBoardingFares(st: LineState, rule: FareRule, ids: seq<LineId>, size: nat)
    requires rule.InitialBoarding?
    ensures ApplyRule(st, rule, ids, size).Ok?
    ensures var r := ApplyRule(st, rule, ids, size).value;
            && r.lines == st.lines && r.h.links.Keys == st.h.links.Keys
            && forall k | k in st.h.links ::
                 var hits := if rule.includeAll then |Hits(st.h, k, rule.group, size)|
                             else if ((0, rule.group), k) in st.h.grid then 1 else 0;
                 r.h.links[k] == st.h.links[k].(fare := st.h.links[k].fare + Times(if InZone(st.h, k, rule.inZone) then hits else 0, rule.cost))
  {
    var n := if rule.includeAll then size else 1;
    BoardCellsFares(st.h, st.h.links, rule.group, rule.inZone, rule.cost, n);
    if !rule.includeAll {
      forall k | k in st.h.links
        ensures |Hits(st.h, k, rule.group, 1)| == if ((0, rule.group), k) in st.h.grid then 1 else 0
      {
        if ((0, rule.group), k) in st.h.grid {
          assert Hits(st.h, k, rule.group, 1) == {0};
        } else {
          assert Hits(st.h, k, rule.group, 1) == {};
        }
      }
    }
  }

  /** On a prepared network centroids are in zone 0 and zones are numbered
      from 1, so a boarding rule restricted to a zone never charges a link
      leaving a centroid, whatever cells file it. */
  lemma BoardingSkipsCentroids(st: LineState, rule: FareRule, ids: seq<LineId>, size: nat)
    requires rule.InitialBoarding? && rule.inZone.Some? && rule.inZone.value != 0
    requires CentroidZonesZero(st.h.nodes)
    ensures ApplyRule(st, rule, ids, size).Ok?
    ensures ApplyRule(st, rule, ids, size).value.h.links.Keys == st.h.links.Keys
    ensures forall k | k in st.h.links && k.0 in st.h.nodes && st.h.nodes[k.0].isCentroid ::
              ApplyRule(st, rule, ids, size).value.h.links[k] == st.h.links[k]
  {
    InitialBoardingFares(st, rule, ids, size);
  }

  /** The transfer rule: a link gains the cost once if cell (from, to)
      files it and, when the rule is bidirectional, once more if cell
      (to, from) does. Nothing else changes. */
  lemma TransferFares(st: LineState, rule: FareRule, ids: seq<LineId>, size: nat)
    requires rule.TransferBoarding?
    ensures ApplyRule(st, rule, ids, size).Ok?
    ensures var r := ApplyRule(st, rule, ids, size).value;
            && r.lines == st.lines && r.h.links.Keys == st.h.links.Keys
            && forall k | k in st.h.links ::
                 var once := if ((rule.fromGroup, rule.toGroup), k) in st.h.grid then 1 else 0;
                 var back := if rule.bidirectional && ((rule.toGroup, rule.fromGroup), k) in st.h.grid then 1 else 0;
                 r.h.links[k] == st.h.links[k].(fare := st.h.links[k].fare + Times(once + back, rule.cost))
  {
    var f, t := rule.fromGroup, rule.toGroup;
    var l1 := ChargeLinks(st.h.links, CellLinks(st.h, (f, t), None), rule.cost);
    forall k | k in st.h.links
      ensures ApplyRule(st, rule, ids, size).value.h.links[k] == st.h.links[k].(fare := st.h.links[k].fare
                + Times((if ((f, t), k) in st.h.grid then 1 else 0) + (if rule.bidirectional && ((t, f), k) in st.h.grid then 1 else 0), rule.cost))
    {
      ChargeCellAt(st.h, st.h.links, (f, t), None, rule.cost, k);
      if rule.bidirectional {
        ChargeCellAt(st.h, l1, (t, f), None, rule.cost, k);
      }
      assert Times(2, rule.cost) == Times(1, rule.cost) + rule.cost;
    }
  }

  /** Line `b` is line `a` with only the fares of its segments changed. */
  predicate SameButFares(a: Line, b: Line)
  {
    && b.(segments := a.segments) == a
    && |b.segments| == |a.segments|
    && forall k | 0 <= k < |a.segments| :: b.segments[k].(fare := a.segments[k].fare) == a.segments[k]
  }

  /** Charging segments adds the cost exactly to the segments named. */
  lemma ChargeSegmentsAt(lines: map<LineId, Line>, refs: set<SegmentRef>, cost: real)
    ensures ChargeSegments(lines, refs, cost).Keys == lines.Keys
    ensures forall id | id in lines ::
              && SameButFares(lines[id], ChargeSegments(lines, refs, cost)[id])
              && forall k | 0 <= k < |lines[id].segments| ::
                   ChargeSegments(lines, refs, cost)[id].segments[k].fare
                   == lines[id].segments[k].fare + if (id, k) in refs then cost else 0.0
  {
  }

  /** One pass over a zone-crossing cell: it fails exactly when the cell
      names a missing line or a missing segment of a line of the group,
      and it adds the cost to the segments of the group's lines the cell
      files. */
  lemma CrossCellAt(lines: map<LineId, Line>, crossings: set<ZoneEntry>, c: (int, int), g: GroupId, cost: real)
    ensures CrossCell(lines, crossings, c, g, cost).Ok? <==> CellReadable(lines, CellSegments(crossings, c), g)
    ensures CrossCell(lines, crossings, c, g, cost).Ok? ==>
              var r := CrossCell(lines, crossings, c, g, cost).value;
              && r.Keys == lines.Keys
              && forall id | id in lines ::
                   && SameButFares(lines[id], r[id])
                   && forall k | 0 <= k < |lines[id].segments| ::
                        r[id].segments[k].fare
                        == lines[id].segments[k].fare + if lines[id].group == g && (c, (id, k)) in crossings then cost else 0.0
  {
    var refs := CellSegments(crossings, c);
    var hit := OfGroup(lines, refs, g);
    ChargeSegmentsAt(lines, hit, cost);
    forall id, k | id in lines && lines[id].group == g && (c, (id, k)) in crossings
      ensures (id, k) in hit
    {
      assert (id, k) in refs;
    }
  }

  /** Lines that differ only in segment fares read a cell alike. */
  lemma ReadableAlike(a: map<LineId, Line>, b: map<LineId, Line>, refs: set<SegmentRef>, g: GroupId)
    requires a.Keys == b.Keys && forall id | id in a :: SameButFares(a[id], b[id])
    ensures CellReadable(a, refs, g) <==> CellReadable(b, refs, g)
    ensures OfGroup(a, refs, g) == OfGroup(b, refs, g)
  {
  }

  /** The zone-crossing rule: it fails exactly when a cell it reads names
      a missing line or segment; otherwise a segment of a line of the
      rule's group gains the cost once if cell (from, to) files it and,
      when the rule is bidirectional, once more if cell (to, from) does.
      Segments of other groups and everything else stay. */
  lemma ZoneCrossingFares(st: LineState, rule: FareRule, ids: seq<LineId>, size: nat)
    requires rule.ZoneCrossing?
    ensures var f, t, g := rule.fromZone, rule.toZone, rule.group;
            ApplyRule(st, rule, ids, size).Ok? <==>
              && CellReadable(st.lines, CellSegments(st.crossings, (f, t)), g)
              && (rule.bidirectional ==> CellReadable(st.lines, CellSegments(st.crossings, (t, f)), g))
    ensures ApplyRule(st, rule, ids, size).Ok? ==>
              var r := ApplyRule(st, rule, ids, size).value;
              && r.h == st.h && r.lines.Keys == st.lines.Keys
              && forall id | id in st.lines ::
                   && SameButFares(st.lines[id], r.lines[id])
                   && forall k | 0 <= k < |st.lines[id].segments| ::
                        var once := if ((rule.fromZone, rule.toZone), (id, k)) in st.crossings then 1 else 0;
                        var back := if rule.bidirectional && ((rule.toZone, rule.fromZone), (id, k)) in st.crossings then 1 else 0;
                        r.lines[id].segments[k].fare
                        == st.lines[id].segments[k].fare + if st.lines[id].group == rule.group then Times(once + back, rule.cost) else 0.0
  {
    var f, t, g, cost := rule.fromZone, rule.toZone, rule.group, rule.cost;
    CrossCellAt(st.lines, st.crossings, (f, t), g, cost);
    var r1 := CrossCell(st.lines, st.crossings, (f, t), g, cost);
    if r1.Ok? {
      var l1 := r1.value;
      ReadableAlike(st.lines, l1, CellSegments(st.crossings, (t, f)), g);
      CrossCellAt(l1, st.crossings, (t, f), g, cost);
      assert Times(2, cost) == Times(1, cost) + cost;
    }
  }

  /** Charging a line by length fails exactly when a segment's link is
      missing; otherwise every segment with a link gains its length times
      the cost and nothing else changes. */
  lemma ChargeByLengthAt(links: map<LinkKey, Link>, line: Line, cost: real)
    ensures ChargeByLength(links, line, cost).Ok? ==>
              var r := ChargeByLength(links, line, cost).value;
              && SameButFares(line, r)
              && forall k | 0 <= k < |line.segments| :: r.segments[k].fare == line.segments[k].fare + LengthCost(links, line, k, cost)
  {
  }

  /** One line after the distance rule, charged or not. */
  lemma DistanceLineAt(links: map<LinkKey, Link>, line: Line, out: Line, charged: bool, cost: real)
    requires charged ==> ChargeByLength(links, line, cost).Ok? && out == ChargeByLength(links, line, cost).value
    requires !charged ==> out == line
    ensures SameButFares(line, out)
    ensures forall k | 0 <= k < |line.segments| ::
              out.segments[k].fare == line.segments[k].fare + if charged then LengthCost(links, line, k, cost) else 0.0
  {
    if charged {
      ChargeByLengthAt(links, line, cost);
    }
  }

  /** The segment fares after a walk that charged exactly the listed
      lines of the group. */
  lemma DistanceLinesFares(links: map<LinkKey, Link>, lines: map<LineId, Line>, m: map<LineId, Line>, ids: seq<LineId>, g: GroupId, cost: real)
    requires forall id | id in lines && id in ids && lines[id].group == g :: LinksPresent(links, lines[id])
    requires m.Keys == lines.Keys
    requires forall id | id in lines :: m[id] == if id in ids && lines[id].group == g then ChargeByLength(links, lines[id], cost).value else lines[id]
    ensures forall id | id in lines ::
              && SameButFares(lines[id], m[id])
              && forall k | 0 <= k < |lines[id].segments| ::
                   m[id].segments[k].fare == lines[id].segments[k].fare +
                     if id in ids && lines[id].group == g then LengthCost(links, lines[id], k, cost) else 0.0
  {
    forall id | id in lines
      ensures SameButFares(lines[id], m[id])
      ensures forall k | 0 <= k < |lines[id].segments| ::
                m[id].segments[k].fare == lines[id].segments[k].fare +
                  if id in ids && lines[id].group == g then LengthCost(links, lines[id], k, cost) else 0.0
    {
      var charged := id in ids && lines[id].group == g;
      DistanceLineAt(links, lines[id], m[id], charged, cost);
    }
  }

  /** Walking the listing charges each line of the group exactly once,
      provided the listing names each line once; it fails exactly when
      the listing names a missing line or a line of the group runs over a
      missing link. */
  lemma {:induction false} DistanceLinesAt(links: map<LinkKey, Link>, lines: map<LineId, Line>, ids: seq<LineId>, g: GroupId, cost: real)
    requires NoDup(ids)
    ensures DistanceLines(links, lines, ids, g, cost).Ok? <==>
              forall t | 0 <= t < |ids| :: ids[t] in lines && (lines[ids[t]].group == g ==> ChargeByLength(links, lines[ids[t]], cost).Ok?)
    ensures DistanceLines(links, lines, ids, g, cost).Ok? ==>
              var r := DistanceLines(links, lines, ids, g, cost).value;
              && r.Keys == lines.Keys
              && forall id | id in lines ::
                   r[id] == if id in ids && lines[id].group == g then ChargeByLength(links, lines[id], cost).value else lines[id]
    decreases |ids|
  {
    if |ids| > 0 {
      var n := |ids| - 1;
      var pre := ids[..n];
      assert forall t | 0 <= t < n :: pre[t] == ids[t];
      assert NoDup(pre);
      DistanceLinesAt(links, lines, pre, g, cost);
      assert forall id :: id in ids <==> id in pre || id == ids[n];
      var m := DistanceLines(links, lines, pre, g, cost);
      if m.Ok? {
        assert ids[n] !in pre;
        if ids[n] in lines && lines[ids[n]].group == g {
          ChargeByLengthAt(links, lines[ids[n]], cost);
        }
      }
    }
  }

  /** The distance rule: it fails when no listed line runs in the group,
      when the listing names a missing line, or when a line of the group
      runs over a missing link; otherwise every segment with a link of
      every line of the group gains its link's length times the cost, and
      nothing else changes. */
  lemma DistanceFares(st: LineState, rule: FareRule, ids: seq<LineId>, size: nat)
    requires rule.ByDistance? && NoDup(ids)
    ensures ApplyRule(st, rule, ids, size).Ok? <==>
              && RunsGroup(st.lines, ids, rule.group)
              && forall t | 0 <= t < |ids| ::
                   ids[t] in st.lines && (st.lines[ids[t]].group == rule.group ==> LinksPresent(st.h.links, st.lines[ids[t]]))
    ensures ApplyRule(st, rule, ids, size).Ok? ==>
              var r := ApplyRule(st, rule, ids, size).value;
              && r.h == st.h && r.lines.Keys == st.lines.Keys
              && forall id | id in st.lines ::
                   var line := st.lines[id];
                   && SameButFares(line, r.lines[id])
                   && forall k | 0 <= k < |line.segments| ::
                        r.lines[id].segments[k].fare == line.segments[k].fare +
                          if id in ids && line.group == rule.group then LengthCost(st.h.links, line, k, rule.cost) else 0.0
  {
    DistanceLinesAt(st.h.links, st.lines, ids, rule.group, rule.cost);
    if ApplyRule(st, rule, ids, size).Ok? {
      var m := DistanceLines(st.h.links, st.lines, ids, rule.group, rule.cost).value;
      assert ApplyRule(st, rule, ids, size).value.lines == m;
      forall id | id in st.lines && id in ids && st.lines[id].group == rule.group
        ensures LinksPresent(st.h.links, st.lines[id])
      {
        var t :| 0 <= t < |ids| && ids[t] == id;
      }
      DistanceLinesFares(st.h.links, st.lines, m, ids, rule.group, rule.cost);
    }
  }

  /** The distance rule over a listing of every line of the network, as
      the engine's own listing is: it fails exactly when no line runs in
      the group or a line of the group runs over a missing link; otherwise
      every segment with a link of every line of the group gains its
      link's length times the cost, and every other fare is unchanged. */
  lemma DistanceFaresAllLines(st: LineState, rule: FareRule, ids: seq<LineId>, size: nat)
    requires rule.ByDistance? && NoDup(ids)
    requires forall id :: id in ids <==> id in st.lines
    ensures ApplyRule(st, rule, ids, size).Ok? <==>
              && (exists id | id in st.lines :: st.lines[id].group == rule.group)
              && forall id | id in st.lines && st.lines[id].group == rule.group :: LinksPresent(st.h.links, st.lines[id])
    ensures ApplyRule(st, rule, ids, size).Ok? ==>
              var r := ApplyRule(st, rule, ids, size).value;
              && r.h == st.h && r.lines.Keys == st.lines.Keys
              && forall id | id in st.lines ::
                   var line := st.lines[id];
                   && SameButFares(line, r.lines[id])
                   && forall k | 0 <= k < |line.segments| ::
                        r.lines[id].segments[k].fare == line.segments[k].fare +
                          if line.group == rule.group then LengthCost(st.h.links, line, k, rule.cost) else 0.0
  {
    DistanceFares(st, rule, ids, size);
    if exists id | id in st.lines :: st.lines[id].group == rule.group {
      var id :| id in st.lines && st.lines[id].group == rule.group;
      assert id in ids;
      var t :| 0 <= t < |ids| && ids[t] == id;
      assert RunsGroup(st.lines, ids, rule.group);
    }
    if RunsGroup(st.lines, ids, rule.group) {
      var t :| 0 <= t < |ids| && ids[t] in st.lines && st.lines[ids[t]].group == rule.group;
    }
    forall id | id in st.lines && st.lines[id].group == rule.group && ApplyRule(st, rule, ids, size).Ok?
      ensures LinksPresent(st.h.links, st.lines[id])
    {
      assert id in ids;
      var t :| 0 <= t < |ids| && ids[t] == id;
    }
    if (forall id | id in st.lines && st.lines[id].group == rule.group :: LinksPresent(st.h.links, st.lines[id])) {
      forall t | 0 <= t < |ids|
        ensures ids[t] in st.lines && (st.lines[ids[t]].group == rule.group ==> LinksPresent(st.h.links, st.lines[ids[t]]))
      {
        assert ids[t] in ids;
      }
    }
  }

  /** State `b` is state `a` with only link and segment fares changed. */
  predicate FaresOnly(a: LineState, b: LineState)
  {
    && b.h.(links := a.h.links) == a.h && b.crossings == a.crossings
    && b.h.links.Keys == a.h.links.Keys
    && (forall k | k in a.h.links :: b.h.links[k].(fare := a.h.links[k].fare) == a.h.links[k])
    && b.lines.Keys == a.lines.Keys
    && (forall id | id in a.lines :: SameButFares(a.lines[id], b.lines[id]))
  }

  /** No fare of `a` is lower in `b`. */
  predicate NoFareFalls(a: LineState, b: LineState)
  {
    && (forall k | k in a.h.links && k in b.h.links :: a.h.links[k].fare <= b.h.links[k].fare)
    && (forall id, k | id in a.lines && id in b.lines && 0 <= k < |a.lines[id].segments| && k < |b.lines[id].segments| ::
          a.lines[id].segments[k].fare <= b.lines[id].segments[k].fare)
  }

  predicate NonNegativeLengths(links: map<LinkKey, Link>)
  {
    forall k | k in links :: links[k].length >= 0.0
  }

  /** No link and no segment the audit sees (every segment but a line's
      hidden last one) carries a negative fare. */
  predicate FaresNonNegative(st: LineState)
  {
    && (forall k | k in st.h.links :: st.h.links[k].fare >= 0.0)
    && (forall id, k | id in st.lines && 0 <= k < |st.lines[id].segments| - 1 :: st.lines[id].segments[k].fare >= 0.0)
  }

  lemma {:induction false} TimesNonNegative(n: nat, cost: real)
    requires cost >= 0.0
    ensures Times(n, cost) >= 0.0
  {
    if n > 0 {
      TimesNonNegative(n - 1, cost);
    }
  }

  lemma LengthCostNonNegative(links: map<LinkKey, Link>, line: Line, k: int, cost: real)
    requires LinksPresent(links, line) && NonNegativeLengths(links) && cost >= 0.0
    ensures LengthCost(links, line, k, cost) >= 0.0
  {
    if 0 <= k < |line.segments| - 1 {
      var len := links[line.LinkOf(k)].length;
      assert len >= 0.0;
      assert len * cost >= 0.0;
    }
  }

  /** A rule changes fares and nothing else, and with a cost that is not
      negative, over links whose lengths are not negative, it lowers no
      fare. */
  lemma ApplyRuleFaresOnly(st: LineState, rule: FareRule, ids: seq<LineId>, size: nat)
    requires NoDup(ids)
    ensures ApplyRule(st, rule, ids, size).Ok? ==> FaresOnly(st, ApplyRule(st, rule, ids, size).value)
    ensures ApplyRule(st, rule, ids, size).Ok? && NonNegativeLengths(st.h.links) && (!rule.Unrecognised? ==> rule.Cost() >= 0.0) ==>
              NoFareFalls(st, ApplyRule(st, rule, ids, size).value)
  {
    var r := ApplyRule(st, rule, ids, size);
    match rule
    case InitialBoarding(cost, g, inZone, all) =>
      InitialBoardingFares(st, rule, ids, size);
      if cost >= 0.0 {
        forall k | k in st.h.links ensures st.h.links[k].fare <= r.value.h.links[k].fare {
          var hits := if all then |Hits(st.h, k, g, size)| else if ((0, g), k) in st.h.grid then 1 else 0;
          TimesNonNegative(if InZone(st.h, k, inZone) then hits else 0, cost);
        }
      }
    case TransferBoarding(cost, f, t, bi) =>
      TransferFares(st, rule, ids, size);
      if cost >= 0.0 {
        forall k | k in st.h.links ensures st.h.links[k].fare <= r.value.h.links[k].fare {
          var once := if ((f, t), k) in st.h.grid then 1 else 0;
          var back := if bi && ((t, f), k) in st.h.grid then 1 else 0;
          TimesNonNegative(once + back, cost);
        }
      }
    case ByDistance(cost, g) =>
      DistanceFares(st, rule, ids, size);
      if r.Ok? && NonNegativeLengths(st.h.links) && cost >= 0.0 {
        forall id, k | id in st.lines && 0 <= k < |st.lines[id].segments|
          ensures st.lines[id].segments[k].fare <= r.value.lines[id].segments[k].fare
        {
          if id in ids && st.lines[id].group == g {
            var t :| 0 <= t < |ids| && ids[t] == id;
            LengthCostNonNegative(st.h.links, st.lines[id], k, cost);
          }
        }
      }
    case ZoneCrossing(cost, g, f, t, bi) =>
      ZoneCrossingFares(st, rule, ids, size);
      if r.Ok? && cost >= 0.0 {
        forall id, k | id in st.lines && 0 <= k < |st.lines[id].segments|
          ensures st.lines[id].segments[k].fare <= r.value.lines[id].segments[k].fare
        {
          var once := if ((f, t), (id, k)) in st.crossings then 1 else 0;
          var back := if bi && ((t, f), (id, k)) in st.crossings then 1 else 0;
          TimesNonNegative(once + back, cost);
        }
      }
    case Unrecognised =>
  }

  /** Every rule cost the schema states, once read, is not negative. */
  predicate NonNegativeCosts(elems: seq<FareElement>, parse: string -> Option<real>)
  {
    forall i | 0 <= i < |elems| :: CostOf(elems[i], parse).Ok? ==> CostOf(elems[i], parse).value >= 0.0
  }

  lemma FaresOnlyNonNegative(a: LineState, b: LineState)
    requires FaresOnly(a, b) && NoFareFalls(a, b) && FaresNonNegative(a)
    ensures FaresNonNegative(b)
  {
    forall id, k | id in b.lines && 0 <= k < |b.lines[id].segments| - 1
      ensures b.lines[id].segments[k].fare >= 0.0
    {
      assert SameButFares(a.lines[id], b.lines[id]);
    }
  }

  lemma FaresOnlyTrans(a: LineState, b: LineState, c: LineState)
    requires FaresOnly(a, b) && FaresOnly(b, c)
    ensures FaresOnly(a, c)
  {
    forall id | id in a.lines ensures SameButFares(a.lines[id], c.lines[id]) {
      assert SameButFares(a.lines[id], b.lines[id]) && SameButFares(b.lines[id], c.lines[id]);
    }
  }

  /** Applying a fare schema changes link and segment fares and nothing
      else. */
  lemma {:induction false} ApplyFareRulesFrame(st: LineState, elems: seq<FareElement>, groupIds: map<string, GroupId>,
                                                zoneIds: map<string, int>, parse: string -> Option<real>, ids: seq<LineId>, size: nat)
    requires NoDup(ids)
    ensures ApplyFareRules(st, elems, groupIds, zoneIds, parse, ids, size).Ok? ==>
              FaresOnly(st, ApplyFareRules(st, elems, groupIds, zoneIds, parse, ids, size).value)
    decreases |elems|
  {
    var r := ApplyFareRules(st, elems, groupIds, zoneIds, parse, ids, size);
    if |elems| > 0 && r.Ok? {
      var rule := ToRule(elems[0], groupIds, zoneIds, parse).value;
      var st1 := ApplyRule(st, rule, ids, size).value;
      ApplyRuleFaresOnly(st, rule, ids, size);
      ApplyFareRulesFrame(st1, elems[1..], groupIds, zoneIds, parse, ids, size);
      FaresOnlyTrans(st, st1, r.value);
    }
  }

  /** When every cost a fare schema states is not negative, no link
      length is negative and the network starts without negative fares,
      applying the schema leaves no negative fare and the audit does not
      warn. */
  lemma {:induction false} ApplyFareRulesSafe(st: LineState, elems: seq<FareElement>, groupIds: map<string, GroupId>,
                                               zoneIds: map<string, int>, parse: string -> Option<real>, ids: seq<LineId>, size: nat)
    requires NoDup(ids) && NonNegativeLengths(st.h.links) && NonNegativeCosts(elems, parse) && FaresNonNegative(st)
    ensures ApplyFareRules(st, elems, groupIds, zoneIds, parse, ids, size).Ok? ==>
              var r := ApplyFareRules(st, elems, groupIds, zoneIds, parse, ids, size).value;
              FaresNonNegative(r) && !NegativeFares(r).2
    decreases |elems|
  {
    var r := ApplyFareRules(st, elems, groupIds, zoneIds, parse, ids, size);
    if |elems| == 0 {
      assert r.value == st;
    } else if r.Ok? {
      var rule := ToRule(elems[0], groupIds, zoneIds, parse).value;
      var st1 := ApplyRule(st, rule, ids, size).value;
      assert !rule.Unrecognised? ==> rule.Cost() >= 0.0;
      ApplyRuleFaresOnly(st, rule, ids, size);
      FaresOnlyNonNegative(st, st1);
      assert NonNegativeLengths(st1.h.links);
      assert NonNegativeCosts(elems[1..], parse) by {
        forall i | 0 <= i < |elems[1..]| ensures CostOf(elems[1..][i], parse).Ok? ==> CostOf(elems[1..][i], parse).value >= 0.0 {
          assert elems[1..][i] == elems[i + 1];
        }
      }
      ApplyFareRulesSafe(st1, elems[1..], groupIds, zoneIds, parse, ids, size);
    }
  }
}
