# gtfs2ptnet in Dafny

A verified model of the core of `gtfs2ptnet`, the MORPC tool that turns a GTFS
feed into CUBE public-transport lines on a highway network. For every route
shape the tool:

- matches the stops to the nearest network nodes near the shape;
- walks consecutive stop pairs and builds a continuous node sequence through
  the road graph, stitching in a path between matched stops that are connected;
- where the graph has no connection, cuts the matching stretch out of the
  sampled shape and synthesises a transit-only link, registered in both
  directions;
- gives unmatched stops fresh node ids taken from a counter seeded above every
  base node id;
- re-matches stops against transit-only nodes, then marks the non-stop nodes of
  the sequence with a negative sign;
- merges the transit-only nodes and links into the network, keyed on the node
  id and on the `abs(A)_abs(B)` link key;
- computes one headway per service period and a line name of at most ten
  characters.

Around this sit the encoders for the output files:

- the DBF field types;
- the CUBE attribute-rename text;
- file-name sanitising;
- normalisation of GTFS arrival times past midnight.

The driver script is modelled too:

- the parameter-file reader, which joins bracketed multi-line statements;
- the fresh-id seed;
- the per-shape loop, which skips shapes and collects the lines.

Modules:

- **Wrappers:** `Option`, `Result` and `Fault`. A `Fault` stands for the Python exception a call raises.
- **Seqs:** filtering and reversal of sequences.
- **Tables:** node and link rows, the link key, network cleaning, and the nodes within a shape.
- **Matching:** nearest-node selection, stop matching and re-resolution against transit-only nodes, and the sign convention.
- **Graphs:** the directed graph as a class with node and edge sets, plus a verified breadth-first search. The search stands behind `has_path` and `shortest_path`.
- **ShapeGap:** bracketing a gap on the shape and building a gap link, with intermediate-node substitution.
- **Registry:** the transit-only registries. New links come as twins and new nodes are numbered consecutively.
- **Sequencer:** `create_node_seq` and its pair step, which mutate the graph and thread the route state from pair to pair.
- **Headway:** `calculate_headway` with its in-place sort, and Python's round-half-to-even.
- **Encoders:** line names, file names, arrival times, DBF field types and the rename text.
- **Driver:** the parameter joiner, the fresh-id seed, and the shape loop with its headways.

How the source's effects are modelled:

- **Exceptions.** A Python exception is an `Err` result with a `Fault` naming its kind:
  - `max` or `np.min` of an empty column gives `EmptySequence`;
  - `line[0]` of an empty line gives `IndexOutOfRange`;
  - a missing route or bracket gives `NotFound`;
  - a DBF field that is too wide gives `TooLong`;
  - an arrival time the date parser rejects gives `BadTime`.
- **Distances.** A distance is a caller-supplied function on points.
- **Shortest path.** `nx.shortest_path` is specified only as returning a path along graph edges.
- **Arrival times.** The arrival times of a shape in a period, `list_arrival_times_by_shp_service_time` (`gtfs2ptnet/__init__.py:386-398`), are a caller-supplied function. `Encoders.ClockOrder` shows that its string comparisons on normalised `HH:MM:SS` times compare times of day.

## Model

| member | source | states |
|---|---|---|
| Tables.NetCleaning | gtfs2ptnet/__init__.py:52-59 | The kept nodes are those whose id lies in no avoided range, in order. The kept links are those not caught by any range's `A >= lo and B <= hi` test and whose FACTYPE is not avoided. |
| Tables.NodesWithin | gtfs2ptnet/__init__.py:80-83 | A node is kept exactly when some link has it as A or B. The order is that of the node table. |
| Matching.NearestNode | gtfs2ptnet/__init__.py:85-92 | An empty candidate list raises. Otherwise the result is the id of the first row at minimum distance when that distance is within the inclusive threshold, and None exactly when no row is within it. |
| Matching.NearestIsRow | gtfs2ptnet/__init__.py:85-92 | A returned node is one of the candidate rows. |
| Matching.NearestMonotone | gtfs2ptnet/__init__.py:85-92 | A node found within a threshold is found unchanged under any larger threshold. |
| Matching.MatchStops | gtfs2ptnet/__init__.py:94-97 | One match per stop, in stop order. Each is the nearest-node answer for that stop. The call fails only when there are stops and no candidates. |
| Matching.TransitCandidates | gtfs2ptnet/__init__.py:101 | The transit-only nodes considered are exactly those whose id is among the nodes within the shape. |
| Matching.Retarget | gtfs2ptnet/__init__.py:103 | A stop re-matched within 328 feet goes to a transit-only node that is also within the shape. |
| Matching.ReResolve | gtfs2ptnet/__init__.py:99-106 | A stop that finds a transit-only node within 328 feet takes it, whether or not it was matched before. Every other stop keeps its match. A matched stop never becomes unmatched. |
| Matching.ReResolveIdempotent | gtfs2ptnet/__init__.py:99-106 | Re-resolving twice against the same tables gives the same matches as once. |
| Matching.SignSeq | gtfs2ptnet/__init__.py:326-329 | Same length and absolute values. Stop ids are unchanged and every other id becomes `-abs(id)`. |
| Matching.SignMarksStops | gtfs2ptnet/__init__.py:326-329 | On positive ids, a node stays positive exactly when it is a stop. |
| Matching.SignIdempotent | gtfs2ptnet/__init__.py:326-329 | Applying the sign mapping twice is applying it once. |
| Matching.SignLinksAgree | gtfs2ptnet/__init__.py:327-329 | The signed A column (all but the last node) and B column (all but the first) are slices of the signed node sequence. |
| Graphs.FindPath | gtfs2ptnet/__init__.py:115 | A path is found exactly when the target is reachable, and the path found runs along edges from source to target. |
| Graphs.SearchComplete | gtfs2ptnet/__init__.py:126 | When the search queue is empty, every node reachable from the source has been reached. |
| Graphs.Graph.FromTables | gtfs2ptnet/__init__.py:108-112 | The graph's nodes are the node ids plus every link end, and its edges are the links. |
| Graphs.Graph.AddNode | gtfs2ptnet/__init__.py:253 | Adds the node and leaves the edges unchanged. |
| Graphs.Graph.AddEdge | gtfs2ptnet/__init__.py:124-125 | Adds the edge and its two end nodes. |
| Graphs.Graph.RemoveEdge | gtfs2ptnet/__init__.py:127-128 | Removes exactly that edge, which must be present. The nodes stay. |
| Graphs.Graph.HasPath | gtfs2ptnet/__init__.py:126 | True exactly when the target is reachable from the source. Both must be nodes of the graph. |
| Graphs.Graph.ShortestPath | gtfs2ptnet/__init__.py:115 | Returns a walk along edges from source to target. |
| Sequencer.Stitch | gtfs2ptnet/__init__.py:117-120 | The old sequence is a prefix of the result, and the result ends at the path's last node. |
| Sequencer.StitchWalk | gtfs2ptnet/__init__.py:114-121 | The result is again a walk, and its length is the old length plus the path without its first node (the whole path when the sequence was empty), so the shared node is not duplicated. |
| Sequencer.AddNodesToSeq | gtfs2ptnet/__init__.py:114-121 | Extends the sequence with a path from source to target. The prefix is kept. A walk ending at the source stays a walk that ends at the target. |
| Sequencer.TestNewLink | gtfs2ptnet/__init__.py:123-134 | Both end nodes are added. If the candidate twins connect source to target they stay and the candidate is returned. Otherwise exactly those two edges are removed, the source-target twins are added, and the full link is returned. Either way the target is reachable from the source afterwards. |
| ShapeGap.EndpointTable | gtfs2ptnet/__init__.py:169-174 | Two rows for source and target, at the stops' points. An unmatched source is numbered 1 and an unmatched target 2. |
| ShapeGap.NearColumn | gtfs2ptnet/__init__.py:176 | For each shape point, the nearest of the two endpoints within the radius, as `nearest_node_to_stop` answers. |
| ShapeGap.ScanColumn | gtfs2ptnet/__init__.py:178-184 | The scan stops at the first point near the target that follows a point near the source, and then reports the last such source point before it. Otherwise it reports that no pair closes. |
| ShapeGap.FindBracket | gtfs2ptnet/__init__.py:175-186 | The bracket is found at the first of the nine radii 164, 246, …, 820 that closes a pair. Every smaller radius closes none. No bracket at any radius is an error. |
| ShapeGap.CutGap | gtfs2ptnet/__init__.py:187-188 | The gap holds the shape points numbered between the two bracket points, inclusive. The cursor keeps the points from the target's point on. |
| ShapeGap.CutGapFacts | gtfs2ptnet/__init__.py:187-188 | On an increasing shape both bracket points lie in the gap and the target's point lies in the cursor. The gap and the cursor stay increasing, so the cursor only moves forward. |
| ShapeGap.BracketGap | gtfs2ptnet/__init__.py:168-189 | The gap and the cursor are cut at the bracket FindBracket describes, or the call fails with NotFound. |
| ShapeGap.NearNet | gtfs2ptnet/__init__.py:192 | One nearest network node within 328 feet per gap point. It fails on a non-empty gap with no nodes. |
| ShapeGap.FirstOther | gtfs2ptnet/__init__.py:199-201 | The first gap point whose near node exists and differs from the given node, if any. |
| ShapeGap.LastOther | gtfs2ptnet/__init__.py:206-208 | The last such gap point, if any. |
| ShapeGap.Rule | gtfs2ptnet/__init__.py:195-211 | The substitution chosen picks a gap point whose near node differs from the endpoint it keeps. |
| ShapeGap.ApplyRule | gtfs2ptnet/__init__.py:198-213 | Builds the link the chosen rule describes. With a new target, the gap is cut after the substitute point and the link ends at the substitute node. With a new source, the gap starts there. Otherwise both stops are kept. The full link always spans the whole gap. |
| ShapeGap.CreateNewLink | gtfs2ptnet/__init__.py:191-214 | Fails exactly when there are no network nodes within the shape. Otherwise the link is the one ApplyRule builds for the rule the near nodes select. |
| ShapeGap.NewLinkEnds | gtfs2ptnet/__init__.py:191-214 | Each end is its stop or a node within the shape, and distinct stops give distinct ends. The link has at least three points and the full link has the gap's points plus both stops. |
| ShapeGap.KeepBothIsFull | gtfs2ptnet/__init__.py:194-213 | When no substitution applies, the link joins the two stops and equals the full link. |
| Registry.TwinPair | gtfs2ptnet/__init__.py:238-239 | The A→B row and the B→A row with the reversed polyline. Both are stamped with the attributes and the key. |
| Registry.TwinAppendedTwins | gtfs2ptnet/__init__.py:238-239 | The rows appended for one gap form a twin pair. |
| Tables.TransitLink | gtfs2ptnet/__init__.py:345-353 | The appended row has the given ends, geometry and attributes, and its AB key is `abs(A)_abs(B)`. |
| Tables.KeyInjective | gtfs2ptnet/__init__.py:350 | Two keys are equal exactly when their endpoints agree in absolute value. |
| Tables.KeyDirected | gtfs2ptnet/__init__.py:350 | A link and its reverse have different keys unless their ends agree in absolute value. |
| Tables.Rekey | gtfs2ptnet/__init__.py:336 | Every link gets its `abs(A)_abs(B)` key and nothing else changes. |
| Tables.MergeNodes | gtfs2ptnet/__init__.py:335 | Fails, with the missing-column error, exactly when the transit-only node registry is still empty. |
| Tables.MergeLinks | gtfs2ptnet/__init__.py:336-338 | Fails, with the missing-column error, exactly when the transit-only link registry is still empty. |
| Tables.MergeNodesAppendsAbsent | gtfs2ptnet/__init__.py:335 | Fails exactly on an empty registry. Otherwise the existing nodes come first, unchanged, a transit-only node is appended exactly when its id is absent, and the ids are the union. |
| Tables.MergeLinksAppendsAbsent | gtfs2ptnet/__init__.py:336-338 | Fails exactly on an empty registry. Otherwise the existing links are kept and only rekeyed, a transit-only link is appended exactly when its key is absent, and the keys are the union. |
| Tables.MergeNodesIdempotent | gtfs2ptnet/__init__.py:332-339 | Merging the same transit-only nodes again adds nothing. |
| Tables.MergeLinksIdempotent | gtfs2ptnet/__init__.py:332-339 | Merging the same keyed transit-only links again adds nothing. |
| Tables.MergeNetwork | gtfs2ptnet/__init__.py:332-339 | Fails exactly when either registry is still empty. Otherwise the node ids and the link keys are the unions of the network's and the registries'. |
| Tables.MergeNetworkGuarded | gtfs2ptnet/__init__.py:332-339 | Never fails. Existing nodes and links are kept (links rekeyed), and the node ids and link keys are the unions, an empty registry adding nothing. |
| Tables.MergeGuardedAgrees | gtfs2ptnet/__init__.py:332-339 | Wherever the source's merge succeeds, the guarded merge gives the same network. |
| Sequencer.ProjectStops | gtfs2ptnet/__init__.py:244-249 | A matched stop keeps its node. An unmatched stop becomes a new node at its bracket point on the shape, numbered from the counter with the source before the target. Exactly one new node is created per unmatched end. |
| Sequencer.GapForPair | gtfs2ptnet/__init__.py:231 | The gap holds both bracket points and the new cursor is an increasing part of the old one. A bracket that cannot be found is NotFound. |
| Sequencer.ProjectGap | gtfs2ptnet/__init__.py:242-253 | Cuts the gap, projects the unmatched stops and adds their nodes to the graph. The two ends are distinct and below the advanced counter. The edges are unchanged. |
| Sequencer.PlaceLink | gtfs2ptnet/__init__.py:233-234 | Fails exactly when `create_new_link` fails, that is when no node lies within the shape. Otherwise returns `test_new_link`'s choice: the candidate pair and its link when that pair connects source and target, else source and target with the full link. The edge set afterwards is exactly what `test_new_link` leaves: the candidate twin edges added when they connect the ends, otherwise those edges taken out and the source-target twins added. No other edge changes, and the target is reachable from the source. |
| Sequencer.CloseGap | gtfs2ptnet/__init__.py:234-240 | Fails exactly when no node lies within the shape. Otherwise it records both ends on the stops, appends the new nodes, and appends exactly the twin rows of the link `test_new_link` chose for the candidate `create_new_link` built from the ends. The edge set is exactly the one `test_new_link` leaves. The stitched path runs from source to target. |
| Sequencer.SynthesizeGap | gtfs2ptnet/__init__.py:230-314 | A whole gap. The ends are the projection of the pair onto the cut of the shape. The stops, cursor, new nodes, counter and near-node list are exactly those the gap leaves. The registry gains exactly the twin rows of the link `test_new_link` chose for that cut's candidate. The graph gains exactly the two ends as nodes, and its edges are exactly those `test_new_link` leaves. The stitched path runs from source to target. |
| Sequencer.ConsistentAfterGap | gtfs2ptnet/__init__.py:236-249 | After a gap the route state is consistent again: matched stops are nodes within the shape and in the graph, every id in use is below the counter, and the cursor is ordered. |
| Sequencer.AssignedAfterGap | gtfs2ptnet/__init__.py:250-302 | A matched stop keeps its node and an unmatched one gets the next counter value. No other stop changes. |
| Sequencer.GainedNodes | gtfs2ptnet/__init__.py:253-305 | The graph gains exactly the ids of the new transit-only nodes. |
| Sequencer.ReResolveKeeps | gtfs2ptnet/__init__.py:316 | Re-resolution after a pair keeps the route state consistent. |
| Sequencer.PathPair | gtfs2ptnet/__init__.py:228-229 | Connected stops: the returned source-to-target path is the one stitched in, then the stops are re-resolved. The graph, the counter and the registries are untouched. |
| Sequencer.GapPair | gtfs2ptnet/__init__.py:230-316 | Unconnected or unmatched stops: the step is a gap step. Its cut, projected ends and kept link are those of the shape, and the graph and registries afterwards are exactly as the gap leaves them. The path from the source's new node to the target's is the one stitched in, and the final matches are the re-resolution of the column with the ends placed. |
| Sequencer.GapStepFacts | gtfs2ptnet/__init__.py:230-316 | A gap step keeps the state consistent and only appends. The counter rises by the number of unmatched ends, and one link twin is appended. The unmatched ends get the next numbers, and the pair's ends are joined by a path in the graph after the step. |
| Sequencer.ProcessPair | gtfs2ptnet/__init__.py:221-316 | The step meets the spec of its pair. A pair matched to one node changes nothing. A pair whose nodes are connected stitches a path between them and re-resolves, and the graph, counter and registries are unchanged. Every other pair is a gap step whose state and graph afterwards are exactly as above. A skipped pair returns the state unchanged, and a connected pair never becomes a gap. |
| Sequencer.StepFacts | gtfs2ptnet/__init__.py:221-316 | Whatever branch a step took, it keeps the state consistent and only appends to the registries and the node sequence. Its walk is well formed and extends the node sequence, and the counter rises by the number of unmatched ends. Links are appended exactly for a gap. An unskipped pair ends with both ends placed, joined by a path, and with its matches re-resolved. |
| Sequencer.CreateNodeSeq | gtfs2ptnet/__init__.py:216-318 | One step per consecutive stop pair, in order. Step `k` meets the spec of pair `k`, read from the state the step before it left. The steps chain from the starting state and graph to the final ones, so the final matches, registries and graph are what the last step left. The node sequence is the stitching of the steps' paths, each a walk over the network and the new transit-only links. The counter rises by the summed number of unmatched ends. Two links are appended per gap. Consistency is kept, and every node the graph gains lies between the old and the new counter. |
| Sequencer.AdvanceTrans | gtfs2ptnet/__init__.py:221 | What one pair may do composes over several pairs. |
| Sequencer.StitchAllWalk | gtfs2ptnet/__init__.py:216-318 | When each pair's path starts where the sequence before it ends, the whole node sequence is one walk. |
| Sequencer.NoGapMergeFails | gtfs2ptnet/__init__.py:320-339 | A first route none of whose pairs needed a gap leaves the link registry empty. The column reads on that registry then fail: the run aborts at line 321 or 323, and the merge at lines 335 and 338 would fail the same way, which the modelled merge reports as an error. |
| Sequencer.WithinRows | gtfs2ptnet/__init__.py:236-311 | The rows added to the nodes within the shape are the gap's ends, and every unmatched end is among them. |
| Sequencer.NewNodesNumbered | gtfs2ptnet/__init__.py:244-249 | Every new graph node lies in `[old counter, new counter)`. |
| Encoders.SanitizeFileName | gtfs2ptnet/__init__.py:383-384 | Keeps exactly the letters, digits, white space and dots, so no path separator survives. |
| Encoders.SanitizeIdempotent | gtfs2ptnet/__init__.py:383-384 | A sanitised name is unchanged by sanitising. |
| Encoders.SanitizeAppend | gtfs2ptnet/__init__.py:383-384 | Characters are dropped in place, never reordered. |
| Encoders.NormalizeArrival | gtfs2ptnet/__init__.py:69 | An hour of 24 or more loses 24 hours. The result reads back as the normalised time. Minutes or seconds past 59, or an hour still past 23, are an error. |
| Encoders.ClockRoundTrip | gtfs2ptnet/__init__.py:69 | Parsing the `%H:%M:%S` text of a valid time gives the time back. |
| Encoders.ClockOrder | gtfs2ptnet/__init__.py:393-396 | On normalised times, string order is time-of-day order. |
| Encoders.SecondsOrder | gtfs2ptnet/__init__.py:400 | Seconds of the day order times by hour, then minute, then second. |
| Headway.CalculateHeadway | gtfs2ptnet/__init__.py:399-405 | Sorts the caller's times in place as a permutation, and returns the headway of the original times. |
| Headway.Headway | gtfs2ptnet/__init__.py:401-405 | 0 below two times. Otherwise the rounded value is within half a step of (latest − earliest) / (60 × gaps). |
| Headway.SortInPlace | gtfs2ptnet/__init__.py:400 | Sorted, and a permutation of the input. |
| Headway.InsertAt | gtfs2ptnet/__init__.py:400 | Extends the sorted prefix by one element. It only rearranges the first `i + 1` elements among themselves and leaves every later element where it was. |
| Headway.SumGapsTelescopes | gtfs2ptnet/__init__.py:401-403 | The consecutive gaps sum to last minus first. |
| Headway.SortedEnds | gtfs2ptnet/__init__.py:400-401 | A sorted permutation starts at the minimum and ends at the maximum. |
| Headway.RoundHalfEven | gtfs2ptnet/__init__.py:403 | Python's `round`: the nearest integer, with a tie going to the even one. |
| Headway.RoundUnique | gtfs2ptnet/__init__.py:403 | These two properties determine the rounding. |
| Encoders.SetLineName | gtfs2ptnet/__init__.py:407-410 | At most ten characters. The name ends in `_` and the last three characters of the shape id, and starts with a prefix of the head sign: the whole head sign when it fits, otherwise as much of it as fills the name to exactly ten characters. |
| Encoders.LineNamesDistinct | gtfs2ptnet/__init__.py:407-410 | Shape ids with different last three characters give different names. |
| Encoders.Longest | gtfs2ptnet/__init__.py:439-453 | `max(..., key=len)` is a member of maximal length. |
| Encoders.FloatDecimals | gtfs2ptnet/__init__.py:445-448 | Six decimals, reduced only as far as needed to fit 32 characters. |
| Encoders.ColumnDbfType | gtfs2ptnet/__init__.py:436-455 | Integer columns give `N(longest,0)`, and more than 32 digits is an error. Float columns give `N(int+decimals+1, decimals)`, and an integer part of 32 or more is an error. Text columns give `C(longest)`. Other types give None. An empty column is an error. The returned text is the field type's text. |
| Encoders.FieldTypeText | gtfs2ptnet/__init__.py:441-453 | The text has the form `N(...)` for a numeric type and `C(...)` for a character type. |
| Encoders.FieldTypeTextInjective | gtfs2ptnet/__init__.py:441-453 | Different field types have different texts, so the width and decimals can be read back. |
| Encoders.AppendEntries | gtfs2ptnet/__init__.py:477-479 | The loop appends the entry of each name longer than ten characters, in column order. |
| Encoders.EntriesEmptyIff | gtfs2ptnet/__init__.py:477-479 | There are entries exactly when some name is longer than ten characters. |
| Encoders.WriteRenameText | gtfs2ptnet/__init__.py:473-480 | The text as the source builds it, cut by two characters whenever there is a column. |
| Encoders.RenameTextQuirk | gtfs2ptnet/__init__.py:475-480 | For every non-empty column list whose names all fit in ten characters, the text ends in a dangling `, RENAM` and differs from the intended text. |
| Encoders.RenameText | gtfs2ptnet/__init__.py:473-480 | The intended text. It is the header alone exactly when no name needs renaming. Otherwise it is the header, `, RENAME=` and the entries without their final separator. |
| Encoders.RenameTextAgrees | gtfs2ptnet/__init__.py:473-480 | When some name is renamed, the source's text is the intended one. |
| Driver.StripTrims | gtfs2ptnet_main.py:47 | `strip` returns the slice left after removing leading and trailing ASCII white space. |
| Driver.JoinStep | gtfs2ptnet_main.py:47-58 | One line of the joiner fails exactly when it strips to nothing, which is the `line[0]` IndexError. |
| Driver.ParamJoiner.constructor | gtfs2ptnet_main.py:44 | The buffer starts empty and no statement has been emitted. |
| Driver.ParamJoiner.Feed | gtfs2ptnet_main.py:46-60 | The five cases: an empty line raises; a comment does nothing; an opener replaces the buffer; a balanced line is appended to a non-empty buffer; any other line is appended and the whole buffer is emitted and cleared. |
| Driver.JoinAll | gtfs2ptnet_main.py:44-61 | The whole-file joiner fails only with the `line[0]` index error. |
| Driver.ReadParameters | gtfs2ptnet_main.py:44-61 | Reading the whole file fails exactly when the whole-file joiner fails, and otherwise yields its statements. |
| Driver.JoinAllFails | gtfs2ptnet_main.py:47-48 | The file fails exactly when some line strips to nothing. |
| Driver.CommentsIgnored | gtfs2ptnet_main.py:48 | Removing comment lines changes nothing. |
| Driver.SingleLineStatements | gtfs2ptnet_main.py:55-60 | Plain lines are each emitted alone, stripped. |
| Driver.BlockJoined | gtfs2ptnet_main.py:49-58 | An opener, balanced middle lines and a closer form one statement, concatenated without separators. |
| Driver.NestedOpenerDropsBuffer | gtfs2ptnet_main.py:49-51 | An opening line met while a statement is pending replaces the buffer. Reading then goes on exactly as if nothing had been pending, so the gathered lines are dropped. |
| Driver.StatementsAreCode | gtfs2ptnet_main.py:48-60 | Every emitted statement is non-empty and does not start with `#`. |
| Driver.FreshIdSeed | gtfs2ptnet_main.py:67 | The seed is above every base node id and is exactly max + 1. An empty node table raises. |
| Driver.LineFor | gtfs2ptnet_main.py:98-153 | A processed shape's line has the shape's id, the table's mode, the shape's line name, and one headway per period in period order. |
| Driver.Headways | gtfs2ptnet_main.py:148-153 | The loop computes `calculate_headway` for each period, in order. |
| Driver.ProcessShapes | gtfs2ptnet_main.py:78-156 | The loop's result is the whole-run function AllLines. |
| Driver.AbortsOnUnknownRoute | gtfs2ptnet_main.py:100 | The run fails exactly when some processed shape's route is missing from the mode table. |
| Driver.LinesFromProcessedShapes | gtfs2ptnet_main.py:82-156 | Shapes with no trip or an unwanted mode add no line. Line k belongs to the k-th processed shape. |

## Left out

- Geometry. Shapely's distance, buffer, interpolate and length are left out, and so is the shape sampling every 30 feet (`gtfs2ptnet/__init__.py:218-220`). Points are carried as values and the distance is a parameter. A shape is its sequence of numbered sample points.
- The link length `DIST = length/5280` (`gtfs2ptnet/__init__.py:349`) is a floating-point measure and is not a column of the model's link rows.
- Graphs.Graph.ShortestPath: returns some path along edges, not the one of least total `length`. Edge weights are floating-point geometry.
- The geopandas spatial joins of the driver (`gtfs2ptnet_main.py:112-131`) are left out: links within and intersecting the buffers, and stops outside them set to unmatched. The model's route state takes `within` and the initial matches as given.
- `exec` of the joined parameter statements (`gtfs2ptnet_main.py:60`) is left out. The model yields the statements but does not execute them.
- Reading and writing files is left out: shapefiles, CSV, GTFS tables, DBF tables, the `.LIN` writer `write_lin_file` with its `textwrap` wrapping, and the rename file itself. The rename text and the field types are modelled as values.
- `plot` and the timing and progress prints are left out.
- `update_nodes_when_new_link` and `update_links_when_new_link` dispatch on pandas types and raise on others. Here they are plain appends of rows.
- Tables.MergeNodes and Tables.MergeLinks model the merge after a route. The same unguarded column reads in `create_node_and_link_seq_gdf` (`gtfs2ptnet/__init__.py:321` and `:323`) fail in the same case one step earlier; that function's merge into the shape's tables is not modelled apart from the sign mapping.
- Encoders.SanitizeFileName: models `isalnum` and `isspace` on ASCII only. Other Unicode letters and spaces are dropped rather than kept.
- Encoders.NormalizeArrival: takes the time already split into hour, minute and second fields. The text formats `pd.to_datetime` accepts are not modelled.
- Driver.ProcessShapes: each shape's node sequence (`create_node_seq`, `create_node_and_link_seq_gdf`) and the registry merge are not threaded through this loop. They are modelled separately in Sequencer.CreateNodeSeq, Matching.SignSeq and the merge lemmas of Tables. A shape's route type is assumed present in the routes table.
- Driver.Headways: returns integers. The source's `calculate_headway` returns the float `0.0` for fewer than two times, which is the same value.
- Sequencer.CreateNodeSeq: each pair's path is a walk over the network and the new transit-only links, but the whole sequence is not claimed to be one walk. Re-resolution after a pair (`gtfs2ptnet/__init__.py:316`) may re-point the next pair's source to another node, so the next path need not start where the sequence ends. Sequencer.StitchAllWalk states when it is one walk. The walks are also not claimed to stay in the final graph: when `test_new_link` falls back, it removes the candidate edges (`gtfs2ptnet/__init__.py:127-128`), and those may be network edges an earlier pair's path used.
- Matching.ReResolve: a stop matched to a network node is also re-pointed when a transit-only node lies within 328 feet. This follows the code (`gtfs2ptnet/__init__.py:104-105`), which overwrites every stop found there, not only unmatched ones.
- Tables.NetCleaning: the link test is the source's `A >= lo and B <= hi` (`gtfs2ptnet/__init__.py:56`), not a test of both ends against the range.
- ShapeGap.FindBracket: when no radius closes a pair, the source compares the shape's `N` column with `None` (`gtfs2ptnet/__init__.py:187-188`). Those comparisons raise nothing and give an empty gap and an empty cursor. The run fails later, at `.values[0]` on the empty gap (`gtfs2ptnet/__init__.py:245`, `:265` or `:286`) or inside `create_new_link`. The model reports that later failure as NotFound at the bracket, and does not model the empty cursor that later pairs would see.

## Findings

| source | as written | input that shows it | evidently intended | confidence | as-written member | corrected member |
|---|---|---|---|---|---|---|
| gtfs2ptnet/__init__.py:320-339 | `create_node_and_link_seq_gdf` (lines 321 and 323) and the merge after each route (lines 335 and 338) read the `N` and `AB` columns of the transit-only registries without checking that they have rows. The registries start as column-less `pd.DataFrame()` | the first processed shape whose stop pairs are all skipped or joined by a path leaves both registries empty. The run then aborts with AttributeError at line 321 or 323, called from `gtfs2ptnet_main.py:141`, before the merge at `gtfs2ptnet_main.py:145` is reached. The merge's reads at lines 335 and 338 would fail the same way on the same empty registries | an empty registry adds nothing, as the `shape[0] != 0` guard of `match_stops_and_transit_nodes` (`gtfs2ptnet/__init__.py:100`) does | not executed | Tables.MergeNetwork, Sequencer.NoGapMergeFails | Tables.MergeNetworkGuarded, Tables.MergeGuardedAgrees |
| gtfs2ptnet/__init__.py:475-480 | `text = text[:-2]` runs whenever `cols` is non-empty, including when no column name is longer than ten characters | any non-empty `cols` with no name longer than ten characters, e.g. `cols = ["N"]`: the text ends in `, RENAM` | the rename clause appears only when some name is renamed, and only the final `, ` is removed | not executed | Encoders.WriteRenameText, Encoders.RenameTextQuirk | Encoders.RenameText, Encoders.RenameTextAgrees |
