/** Checking a fare schema before anything is applied, and numbering the
    line groups and fare zones the base schema declares. */
module FareSchema {
  import opened Outcomes
  import opened Collections
  import opened Fares

  /** What the text of a child element must be. */
  datatype Check = GroupIdCheck | ZoneIdCheck | BoolCheck

  /** The rule types the validator knows. */
  const RuleTypes: set<string> := {"initial_boarding", "transfer", "zone_crossing", "distance_in_vehicle"}

  /** The children a rule of type `typ` must have, and how each is checked. */
  function Required(typ: string): seq<(string, Check)>
  {
    if typ == "initial_boarding" then [("group", GroupIdCheck)]
    else if typ == "transfer" then [("from_group", GroupIdCheck), ("to_group", GroupIdCheck)]
    else if typ == "zone_crossing" then [("group", GroupIdCheck), ("from_zone", ZoneIdCheck), ("to_zone", ZoneIdCheck)]
    else if typ == "distance_in_vehicle" then [("group", GroupIdCheck)]
    else []
  }

  /** The children a rule of type `typ` may have, and how each is checked. */
  function Optional(typ: string): seq<(string, Check)>
  {
    if typ == "initial_boarding" then [("in_zone", ZoneIdCheck), ("include_all_groups", BoolCheck)]
    else if typ == "transfer" || typ == "zone_crossing" then [("bidirectional", BoolCheck)]
    else []
  }

  /** A child's text passes its check: a declared group id, a declared
      zone id, or a boolean word in any letter case. */
  predicate Passes(c: Check, text: string, groups: set<string>, zones: set<string>)
  {
    match c
    case GroupIdCheck => text in groups
    case ZoneIdCheck => text in zones
    case BoolCheck => Upper(text) in BoolWords
  }

  function CheckText(c: Check, text: string, groups: set<string>, zones: set<string>): Result<()>
  {
    match c
    case GroupIdCheck => if text in groups then Ok(()) else Err("Could not find a group with that id")
    case ZoneIdCheck => if text in zones then Ok(()) else Err("Could not find a zone with that id")
    case BoolCheck => if Upper(text) in BoolWords then Ok(()) else Err("Value must be True or False")
  }

  /** The required children, in turn: each must be present and pass. */
  function CheckRequired(e: FareElement, cs: seq<(string, Check)>, groups: set<string>, zones: set<string>): Result<()>
    decreases |cs|
  {
    if |cs| == 0 then Ok(())
    else if cs[0].0 !in e.children then Err("Fare element must specify a required child")
    else
      var _ :- CheckText(cs[0].1, e.children[cs[0].0], groups, zones);
      CheckRequired(e, cs[1..], groups, zones)
  }

  /** The optional children, in turn: each one present must pass. */
  function CheckOptional(e: FareElement, cs: seq<(string, Check)>, groups: set<string>, zones: set<string>): Result<()>
    decreases |cs|
  {
    if |cs| == 0 then Ok(())
    else if cs[0].0 !in e.children then CheckOptional(e, cs[1..], groups, zones)
    else
      var _ :- CheckText(cs[0].1, e.children[cs[0].0], groups, zones);
      CheckOptional(e, cs[1..], groups, zones)
  }

  /** Checking one fare element, in the validator's order. */
  function CheckElement(e: FareElement, groups: set<string>, zones: set<string>, parse: string -> Option<real>): Result<()>
  {
    if "cost" !in e.attrs then Err("Fare element must specify a 'cost' attribute")
    else if "type" !in e.attrs then Err("Fare element must specify a 'type' attribute")
    else if parse(e.attrs["cost"]).None? then Err("Fare element attribute 'cost' must be valid decimal number")
    else if e.attrs["type"] !in RuleTypes then Err("Fare rule type not recognized")
    else
      var typ := e.attrs["type"];
      var _ :- CheckRequired(e, Required(typ), groups, zones);
      CheckOptional(e, Optional(typ), groups, zones)
  }

  function CheckElements(es: seq<FareElement>, groups: set<string>, zones: set<string>, parse: string -> Option<real>): Result<()>
    decreases |es|
  {
    if |es| == 0 then Ok(())
    else
      var _ :- CheckElement(es[0], groups, zones, parse);
      CheckElements(es[1..], groups, zones, parse)
  }

  /** Checking a fare schema: `rules` is its `fare_rules` element, if any,
      as the list of its `fare` children. The result is the number of
      rules. */
  function ValidateFareSchema(rules: Option<seq<FareElement>>, groups: set<string>, zones: set<string>,
                              parse: string -> Option<real>): (r: Result<int>)
    ensures r.Ok? ==> rules.Some? && r.value == |rules.value|
  {
    match rules
    case None => Err("Fare schema must specify a 'fare_rules' element")
    case Some(es) =>
      match CheckElements(es, groups, zones, parse)
      case Err(msg) => Err(msg)
      case Ok(_) => Ok(|es|)
  }

  // ---------------------------------------------------------------------
  // What a valid rule is

  /** A fare element the validator accepts: it has a cost the parser reads
      and a known type, every required child of its type is present and
      passes, and every optional child present passes. */
  predicate ValidElement(e: FareElement, groups: set<string>, zones: set<string>, parse: string -> Option<real>)
  {
    && "cost" in e.attrs && "type" in e.attrs
    && parse(e.attrs["cost"]).Some?
    && e.attrs["type"] in RuleTypes
    && (forall t | 0 <= t < |Required(e.attrs["type"])| ::
          var c := Required(e.attrs["type"])[t];
          c.0 in e.children && Passes(c.1, e.children[c.0], groups, zones))
    && (forall t | 0 <= t < |Optional(e.attrs["type"])| ::
          var c := Optional(e.attrs["type"])[t];
          c.0 in e.children ==> Passes(c.1, e.children[c.0], groups, zones))
  }

  lemma {:induction false} CheckRequiredOk(e: FareElement, cs: seq<(string, Check)>, groups: set<string>, zones: set<string>)
    ensures CheckRequired(e, cs, groups, zones).Ok? <==>
              forall t | 0 <= t < |cs| :: cs[t].0 in e.children && Passes(cs[t].1, e.children[cs[t].0], groups, zones)
    decreases |cs|
  {
    if |cs| > 0 {
      CheckRequiredOk(e, cs[1..], groups, zones);
      assert forall t | 1 <= t < |cs| :: cs[1..][t - 1] == cs[t];
    }
  }

  lemma {:induction false} CheckOptionalOk(e: FareElement, cs: seq<(string, Check)>, groups: set<string>, zones: set<string>)
    ensures CheckOptional(e, cs, groups, zones).Ok? <==>
              forall t | 0 <= t < |cs| :: cs[t].0 in e.children ==> Passes(cs[t].1, e.children[cs[t].0], groups, zones)
    decreases |cs|
  {
    if |cs| > 0 {
      CheckOptionalOk(e, cs[1..], groups, zones);
      assert forall t | 1 <= t < |cs| :: cs[1..][t - 1] == cs[t];
    }
  }

  /** The validator accepts exactly the valid elements. */
  lemma CheckElementOk(e: FareElement, groups: set<string>, zones: set<string>, parse: string -> Option<real>)
    ensures CheckElement(e, groups, zones, parse).Ok? <==> ValidElement(e, groups, zones, parse)
  {
    if "type" in e.attrs {
      CheckRequiredOk(e, Required(e.attrs["type"]), groups, zones);
      CheckOptionalOk(e, Optional(e.attrs["type"]), groups, zones);
    }
  }

  /** A fare schema passes exactly when it has a `fare_rules` element and
      every rule in it is valid; it then counts its rules. */
  lemma {:induction false} ValidateFareSchemaOk(rules: Option<seq<FareElement>>, groups: set<string>, zones: set<string>,
                                                 parse: string -> Option<real>)
    ensures ValidateFareSchema(rules, groups, zones, parse).Ok? <==>
              rules.Some? && forall i | 0 <= i < |rules.value| :: ValidElement(rules.value[i], groups, zones, parse)
  {
    if rules.Some? {
      CheckElementsOk(rules.value, groups, zones, parse);
    }
  }

  lemma {:induction false} CheckElementsOk(es: seq<FareElement>, groups: set<string>, zones: set<string>, parse: string -> Option<real>)
    ensures CheckElements(es, groups, zones, parse).Ok? <==> forall i | 0 <= i < |es| :: ValidElement(es[i], groups, zones, parse)
    decreases |es|
  {
    if |es| > 0 {
      CheckElementOk(es[0], groups, zones, parse);
      CheckElementsOk(es[1..], groups, zones, parse);
      assert forall i | 1 <= i < |es| :: es[1..][i - 1] == es[i];
    }
  }

  // ---------------------------------------------------------------------
  // From checking to applying

  /** A valid rule reads into a fare rule when the group and zone numbers
      cover the declared ids, unless it is an initial boarding rule whose
      `include_all_groups` is not written in capitals: the application
      reads that child without upper-casing it. */
  lemma ValidElementReads(e: FareElement, groupIds: map<string, Network.GroupId>, zoneIds: map<string, int>,
                          parse: string -> Option<real>)
    requires ValidElement(e, groupIds.Keys, zoneIds.Keys, parse)
    requires e.attrs["type"] == "initial_boarding" && "include_all_groups" in e.children ==>
               e.children["include_all_groups"] in BoolWords
    ensures ToRule(e, groupIds, zoneIds, parse).Ok?
    ensures !ToRule(e, groupIds, zoneIds, parse).value.Unrecognised?
  {
    var typ := e.attrs["type"];
    var req := Required(typ);
    var opt := Optional(typ);
    assert forall t | 0 <= t < |req| :: req[t].0 in e.children && Passes(req[t].1, e.children[req[t].0], groupIds.Keys, zoneIds.Keys);
    if typ == "initial_boarding" {
      assert req[0] == ("group", GroupIdCheck);
      assert opt[0] == ("in_zone", ZoneIdCheck);
    } else if typ == "transfer" {
      assert req[0] == ("from_group", GroupIdCheck) && req[1] == ("to_group", GroupIdCheck);
      assert opt[0] == ("bidirectional", BoolCheck);
    } else if typ == "zone_crossing" {
      assert req[0] == ("group", GroupIdCheck) && req[1] == ("from_zone", ZoneIdCheck) && req[2] == ("to_zone", ZoneIdCheck);
      assert opt[0] == ("bidirectional", BoolCheck);
    } else {
      assert req[0] == ("group", GroupIdCheck);
    }
  }

  /** The validator takes `include_all_groups` in any letter case, but a
      boarding rule that writes it in lower case fails when it is
      applied. */
  lemma LowerCaseIncludeAllFails(e: FareElement, groupIds: map<string, Network.GroupId>, zoneIds: map<string, int>,
                                 parse: string -> Option<real>)
    requires "type" in e.attrs && e.attrs["type"] == "initial_boarding"
    requires "include_all_groups" in e.children && e.children["include_all_groups"] == "true"
    ensures Passes(BoolCheck, e.children["include_all_groups"], groupIds.Keys, zoneIds.Keys)
    ensures ToRule(e, groupIds, zoneIds, parse).Err?
  {
    assert Upper("true") == "TRUE";
    assert "true" !in BoolWords;
  }

  // ---------------------------------------------------------------------
  // Numbering groups and zones

  /** Numbering declared ids from 1 in declaration order, both ways: the
      number of every id, and the id of every number. */
  function Numbering(ids: seq<string>): (r: (map<string, int>, map<int, string>))
    decreases |ids|
  {
    if |ids| == 0 then (map[], map[])
    else
      var n := |ids|;
      var m := Numbering(ids[..n - 1]);
      (m.0[ids[n - 1] := n], m.1[n := ids[n - 1]])
  }

  /** Id `ids[t]` gets number t + 1 and number t + 1 names it, the
      numbers run from 1 to the count of ids, and only declared ids are
      numbered. */
  lemma {:induction false} NumberingAt(ids: seq<string>)
    requires NoDup(ids)
    ensures var r := Numbering(ids);
            && (forall id :: id in r.0 <==> id in ids)
            && (forall n :: n in r.1 <==> 1 <= n <= |ids|)
            && (forall t | 0 <= t < |ids| :: r.0[ids[t]] == t + 1 && r.1[t + 1] == ids[t])
    decreases |ids|
  {
    if |ids| > 0 {
      var n := |ids|;
      var pre := ids[..n - 1];
      assert forall t | 0 <= t < n - 1 :: pre[t] == ids[t];
      assert forall id :: id in ids <==> id in pre || id == ids[n - 1];
      assert NoDup(pre);
      NumberingAt(pre);
      assert ids[n - 1] !in pre;
    }
  }

  /** With unique ids, each numbering map undoes the other, and the group
      numbers never include 0, the street. */
  lemma NumberingRoundTrip(ids: seq<string>)
    requires NoDup(ids)
    ensures var r := Numbering(ids);
            && (forall id | id in r.0 :: 1 <= r.0[id] <= |ids| && r.0[id] in r.1 && r.1[r.0[id]] == id)
            && (forall n | n in r.1 :: r.1[n] in r.0 && r.0[r.1[n]] == n)
  {
    NumberingAt(ids);
    var r := Numbering(ids);
    forall id | id in r.0 ensures 1 <= r.0[id] <= |ids| && r.0[id] in r.1 && r.1[r.0[id]] == id {
      var t :| 0 <= t < |ids| && ids[t] == id;
    }
    forall n | n in r.1 ensures r.1[n] in r.0 && r.0[r.1[n]] == n {
      assert ids[n - 1] == r.1[n];
    }
  }
}
