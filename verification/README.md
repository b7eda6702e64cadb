# PCAP fare-based hyper-network engine, in Dafny

This project models the fare-based transit network builder of PCAP
(`python_projects/PCAP/part_1/pcap.py`). It also models the C# template
writer of the XTMF2 tooling
(`python_projects/travel_modelling_group/csharp_code_writer.py`).

The network is an arena of immutable records:
- nodes and links live in maps keyed by node id and by (i-node, j-node);
- transit lines are maps from line id to a sequence of segments;
- the two lookup grids are sets of ((x, y), element) entries; `Grid.Holds`
  relates such a set to the flat table the engine allocates.

The engine builds a hyper-network in these steps:
1. **Preparation.** Each node is tagged with the line groups that stop at
   it and the groups that only pass it. Then roles are assigned: surface
   node or station for nodes; station connector or station transfer for
   walking links. Regular nodes take the fare zone read for them;
   centroids are left in zone 0.
2. **Expansion.**
   - A surface node gets one virtual copy per stopping group. Each copy
     has a spoke to the node and one back, and the copies are joined by a
     full mesh.
   - A station keeps its first stopping group. It gets a copy for every
     other group, and each copy carries copies of the station's connector
     links.
   - Every passing group gets an unlinked copy.
   - Fresh ids come from a first-fit scan upward from a counter.
3. **Connection.** Connector links are reproduced between the virtual
   nodes of each pair of stopping groups at their two ends.
4. **Line rewriting.** Each line is moved onto the virtual nodes of its
   group. Missing virtual links are created. Segments that cross between
   two fare zones are recorded.
5. **Fare rules.** Initial boarding, transfer, in-vehicle distance and
   zone crossing rules each add their cost to links or segments found
   through the grids. An audit then collects every negative fare.
6. **Schema validation.** The fare-rule schema is checked over an
   abstract element record of attributes and child texts. Groups and
   zones are numbered densely from 1.

The template writer is modelled as pure string functions, together with
its key/value table.

Modules, one file each (prepare.dfy holds `Prepare` and `Roles`):

| module | file | models |
|---|---|---|
| `Outcomes` | outcomes.dfy | `Result` and `Option` |
| `Collections` | collections.dfy | sequences and sets |
| `Grid` | grid.dfy | the `grid` table |
| `Network` | network.dfy | node, link, segment and line records |
| `Prepare` | prepare.dfy | stop tagging |
| `Roles` | prepare.dfy | role classification |
| `Allocator` | allocator.dfy | `_get_new_node_number` |
| `HyperNet` | hypernet.dfy | the expansion state and virtual nodes |
| `Meshing` | mesh.dfy | the transfer mesh |
| `Surface` | surface.dfy | `_transform_surface_node` |
| `Station` | station.dfy | `_transform_station_node` |
| `Connecting` | connect.dfy | `_connect_surface_or_station_node` |
| `Lines` | lines.dfy | `_process_transit_line` |
| `StationIndex` | connectors.dfy | `_index_station_connectors` |
| `Fares` | fares.dfy | the `_apply_*` rules and the negative-fare audit |
| `FareSchema` | schema.dfy | `_ValidateFareSchemaFile` and the numbering |
| `CSharpWriter` | csharp.dfy | the template writer |

Nothing is read from disk or Emme; every input the source obtains from I/O
is a parameter.

## Model

Paths are relative to the repository root.

| member | source | states |
|---|---|---|
| Grid.Create | python_projects/PCAP/part_1/pcap.py:112-121 | a fresh x by y table is valid, has the given dimensions, and every cell in range holds the default |
| Grid.AddIsPut | python_projects/PCAP/part_1/pcap.py:123-133 | adding to cell (i, j) of the flat table changes that cell of its map view and no other, so cells never share storage |
| Grid.AddHolds | python_projects/PCAP/part_1/pcap.py:123-133 | a table holding a set of (cell, element) entries, once given element e in cell (i, j), holds that set plus the one entry; so the hyper-network's entry sets stand for the engine's tables |
| Grid.CreateView | python_projects/PCAP/part_1/pcap.py:112-121 | seen as a map, a fresh table holds the default in every cell in range and nothing outside it |
| Allocator.FirstFree | python_projects/PCAP/part_1/pcap.py:1060-1066 | the new id is at least the counter, is not in use, and every id skipped between the counter and it is in use |
| HyperNet.NewVirtual | python_projects/PCAP/part_1/pcap.py:1060-1093 | a virtual node takes a first-fit id at or above the counter, copies the base node, is recorded under its group in the base node's dictionary, and moves the counter to it; the passing and station copies at lines 1119-1127, 1174-1182 and 1221-1227 are made the same way |
| HyperNet.FirstFitFresh | python_projects/PCAP/part_1/pcap.py:1060-1066 | ids allocated first-fit in turn are distinct and new to the network |
| Roles.TagNetwork | python_projects/PCAP/part_1/pcap.py:938-948 | a node's stopping groups are exactly the groups of the lines that board or alight there; its passing groups are exactly those that only pass it; the two are disjoint |
| Roles.TaggedIffOnTransit | python_projects/PCAP/part_1/pcap.py:938-948 | a node carries no group exactly when no line passes over it |
| Roles.PrepareNetwork | python_projects/PCAP/part_1/pcap.py:913-935 | preparation keeps the nodes, links and lines; every centroid ends in fare zone 0 whatever it was given, and a regular node keeps the zone read for it; each node is its own dictionary owner |
| Roles.PreparedNodeRoles | python_projects/PCAP/part_1/pcap.py:951-971 | centroids keep role 0; a regular node without transit is a surface node; a transit node is a surface node exactly when a non-centroid link touching it carries an auto mode, a station otherwise |
| Roles.PreparedLinkRoles | python_projects/PCAP/part_1/pcap.py:974-987 | centroid connectors keep role 0; an auxiliary-transit link is a station connector exactly when it joins a surface node and a station, and a station transfer exactly when it joins two stations |
| Meshing.MeshKeysAt | python_projects/PCAP/part_1/pcap.py:1107-1116 | the mesh links exactly the ordered pairs of different virtual nodes |
| Meshing.MeshEntriesAt | python_projects/PCAP/part_1/pcap.py:1107-1116 | the mesh link from the node of group a to that of group b is filed in cell (a, b), for a and b different, and nothing else is filed |
| Surface.SurfaceNodes | python_projects/PCAP/part_1/pcap.py:1083-1131 | the expansion adds one first-fit copy of the node per stopping group and per passing group, each recorded under its group |
| Surface.SurfaceLinks | python_projects/PCAP/part_1/pcap.py:1083-1116 | the links after expansion are the old ones plus a spoke each way per stop node plus the mesh among stop nodes, all transfer links |
| Surface.SurfaceLinkCount | python_projects/PCAP/part_1/pcap.py:1083-1116 | k stopping groups add exactly k(k+1) new links |
| Surface.SurfaceGrid | python_projects/PCAP/part_1/pcap.py:1083-1116 | the new grid entries are the spokes in the boarding and alighting cells and the mesh links in the cells of their two groups |
| Surface.SurfaceStop | python_projects/PCAP/part_1/pcap.py:1083-1105 | each stopping group maps to a new copy joined to the node both ways; the spoke from the node to the copy is filed in (0, g) and the one back in (g, 0) |
| Surface.SurfacePassing | python_projects/PCAP/part_1/pcap.py:1119-1131 | each passing group maps to a new copy that no link touches |
| Surface.SurfaceCentroidZones | python_projects/PCAP/part_1/pcap.py:1083-1127 | surface expansion copies the base node's zone into its copies, so centroids stay in zone 0 |
| Surface.SurfaceSound | python_projects/PCAP/part_1/pcap.py:1068-1131 | the expansion keeps every link between two distinct nodes of the network |
| Station.StationGroupNode | python_projects/PCAP/part_1/pcap.py:1159-1183 | the station's first stopping group maps to the station itself and every other one to its own copy |
| Station.StationAllocated | python_projects/PCAP/part_1/pcap.py:1173-1227 | the expansion adds first-fit copies of the station, one per stopping group after the first and one per passing group, all new and distinct |
| Station.StationHyper | python_projects/PCAP/part_1/pcap.py:1159-1227 | the station's dictionary maps its first group to itself, each later stopping group to its copy and each passing group to its copy |
| Station.StationLinks | python_projects/PCAP/part_1/pcap.py:1173-1218 | the links after expansion are the old ones plus the copies of the catalogued links onto every copy node plus the mesh among the group nodes |
| Station.StationCopyLinks | python_projects/PCAP/part_1/pcap.py:1173-1207 | every copy node carries a copy of each catalogued link, with the station link's attributes |
| Station.StationGroupEntries | python_projects/PCAP/part_1/pcap.py:1159-1207 | each group node's catalogued links are indexed under its group |
| Station.StationGrid | python_projects/PCAP/part_1/pcap.py:1159-1218 | the new grid entries are the catalogued links of each group node under its group plus the mesh |
| Station.StationKeepsLinks | python_projects/PCAP/part_1/pcap.py:1133-1227 | the expansion keeps every link the network had, unchanged |
| Station.StationCentroidZones | python_projects/PCAP/part_1/pcap.py:1174-1227 | station expansion copies the station's zone into its copies, so centroids stay in zone 0 |
| Station.StationSound | python_projects/PCAP/part_1/pcap.py:1133-1227 | the expansion keeps every link between two distinct nodes of the network |
| Connecting.ConnectConnectors | python_projects/PCAP/part_1/pcap.py:1229-1258 | for every connector from b to j and stopping groups g1 at b and g2 at j, the virtual nodes of g1 and g2 are linked and the link is filed under (g1, g2) when the groups differ |
| Connecting.ConnectKeeps | python_projects/PCAP/part_1/pcap.py:1241-1258 | an existing virtual link is reused and never altered or duplicated |
| Connecting.ConnectOnly | python_projects/PCAP/part_1/pcap.py:1241-1258 | every new link is some job's virtual pair with the connector's attributes, and every new entry is a job's pair in cell (g1, g2) with g1 and g2 different |
| Connecting.ConnectIsJobs | python_projects/PCAP/part_1/pcap.py:1229-1258 | connecting a base node, which looks up each of its groups once per connector before that group's row of jobs, succeeds exactly when the node has no connector or all its groups have virtual nodes, and all the jobs succeed; it then leaves the network the jobs leave |
| Connecting.ConnectOkIff | python_projects/PCAP/part_1/pcap.py:1239-1258 | on a sound network a list of jobs fails exactly when some job's group is missing from a dictionary or its two virtual nodes coincide |
| Connecting.ConnectNodeOkIff | python_projects/PCAP/part_1/pcap.py:1229-1258 | on a sound network connecting a base node fails exactly when it has a connector and one of its groups lacks a virtual node, or some job's group is missing from a dictionary or its two virtual nodes coincide |
| Connecting.ConnectAllKeeps | python_projects/PCAP/part_1/pcap.py:1229-1258 | connecting the base nodes in turn keeps the network sound and every existing link |
| Lines.RewriteOkIff | python_projects/PCAP/part_1/pcap.py:1260-1287 | the rewrite fails exactly when the line has no link, runs over a missing link, visits a node whose dictionary lacks its group, or steps from a virtual node to itself |
| Lines.RewriteLineShape | python_projects/PCAP/part_1/pcap.py:1265-1287 | the rewritten line has as many segments as before, each node is the virtual node of its group at the base node, and the base node is recorded on request |
| Lines.RewriteLineLinks | python_projects/PCAP/part_1/pcap.py:1270-1287 | existing links keep their attributes and gain the line's mode only where the line runs; consecutive virtual nodes are linked; every created link copies the base link under it with only the line's mode |
| Lines.CrossingsAt | python_projects/PCAP/part_1/pcap.py:1288-1297 | a segment is filed in cell (zone i, zone j) exactly when its two zones differ and neither is 0 |
| Lines.ProcessLinesKeeps | python_projects/PCAP/part_1/pcap.py:1260-1301 | processing lines keeps the network sound, only adds modes to existing links, leaves lines not processed as they were, and only adds crossings |
| StationIndex.IndexOkIff | python_projects/PCAP/part_1/pcap.py:1303-1318 | indexing succeeds exactly when every station group names a known line group and every centroid it lists is a node |
| StationIndex.IndexedEntries | python_projects/PCAP/part_1/pcap.py:1303-1318 | the grid gains exactly each listed centroid's outgoing links into nodes where the group stops, in (0, g), and incoming links from such nodes, in (g, 0) |
| Fares.ToRule | python_projects/PCAP/part_1/pcap.py:1325-1348 | a rule is read only when the element has a type; an unknown type reads as a rule that is skipped; a known rule carries the parsed cost |
| Fares.BoardingRuleFields | python_projects/PCAP/part_1/pcap.py:1353-1376 | a boarding rule is read exactly when its cost parses, its group is known, its zone if given is known and its include-all word if given is an exact-case boolean word; it carries the group's number, the zone's number or no zone, and the word's value, true when absent |
| Fares.TransferRuleFields | python_projects/PCAP/part_1/pcap.py:1392-1409 | a transfer rule is read exactly when its cost parses, both groups are known and its bidirectional word if given is a boolean word in any case; it carries both groups' numbers and the word's value, false when absent |
| Fares.DistanceRuleFields | python_projects/PCAP/part_1/pcap.py:1422-1426 | a distance rule is read exactly when its cost parses and its group is known, and carries the group's number |
| Fares.ZoneCrossingRuleFields | python_projects/PCAP/part_1/pcap.py:1435-1454 | a zone-crossing rule is read exactly when its cost parses, its group and both zones are known and its bidirectional word if given is a boolean word in any case; it carries the three numbers and the word's value, false when absent |
| Fares.InitialBoardingFares | python_projects/PCAP/part_1/pcap.py:1353-1390 | each link passing the zone filter gains the cost once per cell (x, g) filing it when all groups are included, once for cell (0, g) otherwise; nothing else changes |
| Fares.BoardingSkipsCentroids | python_projects/PCAP/part_1/pcap.py:1353-1390 | on a network whose centroids are in zone 0, a boarding rule restricted to a zone numbered from 1 leaves every link leaving a centroid as it was |
| Fares.TransferFares | python_projects/PCAP/part_1/pcap.py:1392-1420 | each link gains the cost once if cell (from, to) files it and, when bidirectional, once more if (to, from) does; nothing else changes |
| Fares.DistanceFares | python_projects/PCAP/part_1/pcap.py:1422-1433 | the rule fails without a listed line in the group or with a segment lacking a link; otherwise each segment with a link of each listed line in the group gains its link's length times the cost |
| Fares.DistanceFaresAllLines | python_projects/PCAP/part_1/pcap.py:1422-1433 | over a listing of every line, the rule fails exactly when no line is in the group or a line of the group runs over a missing link; otherwise each segment with a link of each line in the group gains its link's length times the cost, and no other fare changes |
| Fares.ZoneCrossingFares | python_projects/PCAP/part_1/pcap.py:1435-1465 | the rule fails exactly when a cell it reads names a missing line or segment; otherwise a segment of the group gains the cost per matching cell and nothing else changes |
| Fares.NegativeFares | python_projects/PCAP/part_1/pcap.py:1467-1475 | the audit collects exactly the links whose fare is below zero and exactly the segments, by line and index, whose fare is below zero, leaving out each line's hidden last segment as Emme's segment listing does; it warns exactly when either is non-empty |
| Fares.ApplyRuleFaresOnly | python_projects/PCAP/part_1/pcap.py:1325-1465 | a rule changes only link and segment fares, and with a non-negative cost over non-negative lengths it lowers no fare |
| Fares.ApplyFareRulesSafe | python_projects/PCAP/part_1/pcap.py:1325-1475 | with non-negative costs and lengths and no negative fare to start with on a link or an audited segment, applying the schema leaves none and the audit stays silent |
| FareSchema.CheckElementOk | python_projects/PCAP/part_1/pcap.py:641-687 | an element passes exactly when it has a cost and a type, the cost parses, the type is known, every required child is present and passes its check, and every optional child present passes its check |
| FareSchema.ValidateFareSchemaOk | python_projects/PCAP/part_1/pcap.py:619-689 | a schema passes exactly when it has a rules element and every rule in it is valid |
| FareSchema.ValidateFareSchema | python_projects/PCAP/part_1/pcap.py:619-689 | on success the result is the number of rules |
| FareSchema.ValidElementReads | python_projects/PCAP/part_1/pcap.py:641-687 | a valid element whose include-all word is upper-case reads as a recognised rule |
| FareSchema.LowerCaseIncludeAllFails | python_projects/PCAP/part_1/pcap.py:1372-1376 | an include-all word "true" passes validation yet fails when the boarding rule reads it |
| FareSchema.NumberingRoundTrip | python_projects/PCAP/part_1/pcap.py:707-712 | with distinct ids, the id-to-number and number-to-id maps invert each other, numbering from 1 to the count |
| FareSchema.NumberingAt | python_projects/PCAP/part_1/pcap.py:782-789 | the t-th id gets number t + 1 and number t + 1 names it |
| CSharpWriter.ParameterDeclarationLines | python_projects/travel_modelling_group/csharp_code_writer.py:182-200 | the declaration splits into three lines in order (name and description, index, function type and name) and ends with a line break |
| CSharpWriter.ModuleCallIsWriterCall | python_projects/travel_modelling_group/csharp_code_writer.py:203-239 | the module line is the writer call of kind Boolean, Number or String on the function's result; int and float write alike |
| CSharpWriter.ModuleCallReads | python_projects/travel_modelling_group/csharp_code_writer.py:203-239 | the module line parses back into its writer kind, module name and argument |
| CSharpWriter.UnitTestWritersAgree | python_projects/travel_modelling_group/csharp_code_writer.py:242-317 | the two unit-test writers return the same string, which is the writer call of the type's kind on the default value |
| CSharpWriter.UnitTestModuleReads | python_projects/travel_modelling_group/csharp_code_writer.py:320-322 | the initialiser reads back into the parameter name and the default passed to the helper |
| CSharpWriter.ParametersDictAt | python_projects/travel_modelling_group/csharp_code_writer.py:325-340 | the table fails exactly when there are more key lines than value lines; otherwise its keys are the key lines, and each key's last occurrence maps to its row split at ';', which joins back to the line |
| CSharpWriter.DefaultOfShape | python_projects/travel_modelling_group/csharp_code_writer.py:368-371 | the default is empty for a row of fewer than five fields; otherwise it matches the fifth field letter for letter up to case and holds no capital |

## Left out

- Emme plumbing (`run`, `__call__`, scenario copy and publish, extra attributes, `changeTransitLineId`): this is foreign API. Line ids and the listing order are left unchanged.
- XML parsing: a fare element is a record of attribute and child texts. A child present with no text is not modelled.
- Decimal parsing of costs: the host parser is the parameter `parse`. Float rounding is not modelled; costs are `real`.
- Group and zone selection through selectors, and shapefile zones: a line's group and a node's zone are given fields.
- Logging, HTML reports, the progress tracker and the module-level print loops: output only.
- The `_transform_network` driver: it only sequences the modelled steps. Surface expansion visits groups in ascending order. Station expansion takes any enumeration of its stopping groups, so the "first" group is arbitrary.
- Python set and dict iteration order: modelled as ascending order wherever it does not matter to the property.
- Multiple fare classes: one fare accumulator per link and segment is modelled.
- Connecting iterates the connectors a base node has when its turn comes; whether Emme's iterator also sees links created during the loop is not modelled.
- Station.StationLinks: states which links the expansion adds, not how many, because counting map comprehensions is out of reach here.
- Fares.DistanceFares: requires the listed line ids to be distinct, as Emme's line listing is.
- Lines.RewriteLineLinks: attributes Emme copies with a created link are taken to be every attribute of the base link except its modes.
- Python `KeyError` and `IndexError` paths (missing dictionary entry, missing node, line without links): modelled as `Err` results.
- Validation (`pcap.py:641-687`) does not reject a negative cost. Negative fares are only reported afterwards, by the audit (`pcap.py:1467-1475`).
- Rule types: an unknown rule type is rejected by validation but skipped when rules are applied. The boarding rule reads `include_all_groups` without upper-casing it. Both behaviours are kept.
- Case mapping (`upper`, `lower`): ASCII only.
- `assign_transit.py` and `station_boarding_alighting.py`: floating-point and file-processing scripts over Emme objects, outside this engine.
