/** The per-route sequencer `create_node_seq`: walks the line's consecutive
    stop pairs and builds a node path through the route graph, stitching
    shortest paths between matched stops and synthesising transit-only
    nodes and links where the graph has a gap. */
module Sequencer {
  import opened Wrappers
  import opened Seqs
  import opened Tables
  import opened Matching
  import opened ShapeGap
  import opened Graphs
  import opened Registry

  function Last(xs: seq<int>): int
    requires |xs| > 0
  {
    xs[|xs| - 1]
  }

  /** The node sequence after appending a stop-to-stop path: the path without
      its first node when the sequence already has nodes, the whole path
      otherwise. */
  function Stitch(nodeSeq: seq<int>, path: seq<int>): (r: seq<int>)
    requires |path| > 0
    ensures |r| >= |nodeSeq| && |r| > 0 && r[..|nodeSeq|] == nodeSeq
    ensures |nodeSeq| == 0 || |path| > 1 ==> Last(r) == Last(path)
  {
    if |nodeSeq| != 0 then nodeSeq + path[1..] else path
  }

  /** When the sequence ends where the path starts, stitching continues the
      walk: the shared boundary node appears once and every consecutive pair
      is an edge. */
  lemma StitchWalk(edges: set<Edge>, nodeSeq: seq<int>, path: seq<int>)
    requires IsWalk(edges, path)
    requires |nodeSeq| > 0 ==> IsWalk(edges, nodeSeq) && Last(nodeSeq) == path[0]
    ensures IsWalk(edges, Stitch(nodeSeq, path))
    ensures |Stitch(nodeSeq, path)| == |nodeSeq| + |path| - (if |nodeSeq| > 0 then 1 else 0)
  {
    var r := Stitch(nodeSeq, path);
    if |nodeSeq| > 0 {
      forall i | 0 <= i < |r| - 1 ensures (r[i], r[i + 1]) in edges {
        if i < |nodeSeq| - 1 {
          assert r[i] == nodeSeq[i] && r[i + 1] == nodeSeq[i + 1];
        } else {
          assert r[i] == path[i - |nodeSeq| + 1] && r[i + 1] == path[i - |nodeSeq| + 2];
        }
      }
    }
  }

  /** `add_nodes_to_seq`. */
  method AddNodesToSeq(g: Graph, src: int, tgt: int, nodeSeq: seq<int>) returns (nodeSeq': seq<int>)
    requires src in g.nodes && tgt in g.nodes && Reachable(g.edges, src, tgt)
    ensures exists p :: PathFromTo(g.edges, src, tgt, p) && nodeSeq' == Stitch(nodeSeq, p)
    ensures |nodeSeq'| >= |nodeSeq| && nodeSeq'[..|nodeSeq|] == nodeSeq
    ensures |nodeSeq| == 0 || src != tgt ==> Last(nodeSeq') == tgt
    ensures |nodeSeq| > 0 && IsWalk(g.edges, nodeSeq) && Last(nodeSeq) == src ==> IsWalk(g.edges, nodeSeq')
    ensures |nodeSeq| == 0 ==> nodeSeq'[0] == src && IsWalk(g.edges, nodeSeq')
  {
    var path := g.ShortestPath(src, tgt);
    nodeSeq' := Stitch(nodeSeq, path);
    StitchWalk(g.edges, if |nodeSeq| > 0 && IsWalk(g.edges, nodeSeq) && Last(nodeSeq) == src then nodeSeq else [], path);
  }

  /** `test_new_link`: adds the candidate pair A->B, B->A; when the target is
      still unreachable from the source, removes both and adds the pair
      source->target, target->source instead, with the full link. The
      caller never passes A == B (removing the second twin of a self-loop
      would fail). */
  method TestNewLink(g: Graph, a: int, b: int, src: int, tgt: int, link: seq<Point>, full: seq<Point>)
    returns (a': int, b': int, link': seq<Point>)
    requires a != b && src in g.nodes && tgt in g.nodes
    modifies g
    ensures g.nodes == old(g.nodes) + {a, b}
    ensures Reachable(old(g.edges) + {(a, b), (b, a)}, src, tgt) ==>
      a' == a && b' == b && link' == link && g.edges == old(g.edges) + {(a, b), (b, a)}
    ensures !Reachable(old(g.edges) + {(a, b), (b, a)}, src, tgt) ==>
      a' == src && b' == tgt && link' == full
      && g.edges == old(g.edges) - {(a, b), (b, a)} + {(src, tgt), (tgt, src)}
    ensures Reachable(g.edges, src, tgt)
    ensures g.edges <= old(g.edges) + {(a', b'), (b', a')}
  {
    g.AddEdge(a, b);
    g.AddEdge(b, a);
    assert g.edges == old(g.edges) + {(a, b), (b, a)};
    var ok := g.HasPath(src, tgt);
    a', b', link' := a, b, link;
    if !ok {
      g.RemoveEdge(a, b);
      g.RemoveEdge(b, a);
      a', b', link' := src, tgt, full;
      g.AddEdge(a', b');
      g.AddEdge(b', a');
      assert g.edges == old(g.edges) - {(a, b), (b, a)} + {(src, tgt), (tgt, src)};
      EdgeIsReachable(g.edges, src, tgt);
    }
  }

  /** The tables the sequencer threads from pair to pair. */
  datatype RouteState = RouteState(
    matched: seq<Option<int>>,   // the stops' matched node ids (`line_stops.N`)
    nodeSeq: seq<int>,           // `line_node_seq`
    cursor: seq<NodeRow>,        // the unused part of the sampled shape (`shp_nodes`)
    transitNodes: seq<NodeRow>,  // the transit-only node registry
    transitLinks: seq<LinkRow>,  // the transit-only link registry
    within: seq<NodeRow>,        // `nodes_within_shp_df`
    counter: int)                // `new_nodes_from`

  /** What holds between pairs: every matched stop is a node near the shape
      and in the graph, every id in use is below the fresh-id counter, the
      shape cursor is ordered and every registered link carries its key. */
  predicate Consistent(st: RouteState, nodes: set<int>) {
    && StopIds(st.matched) <= Ids(st.within) <= nodes
    && (forall x :: x in nodes ==> x < st.counter)
    && (forall r :: r in st.transitNodes ==> r.n < st.counter)
    && Increasing(st.cursor)
    && WellKeyed(st.transitLinks)
  }

  /** The two ends of a gap after unmatched stops are projected onto the
      shape, and the transit-only nodes created for them. */
  datatype Ends = Ends(srcId: int, srcAt: Point, tgtId: int, tgtAt: Point, added: seq<NodeRow>)

  function NewCount(src: Option<int>, tgt: Option<int>): nat {
    (if src.None? then 1 else 0) + (if tgt.None? then 1 else 0)
  }

  /** An unmatched stop becomes a new node at the gap's bracket point for
      it, numbered from the counter, the source before the target. */
  function ProjectStops(src: Option<int>, srcStop: Point, tgt: Option<int>, tgtStop: Point, gap: Gap, counter: int): (e: Ends)
    requires gap.s in Ids(gap.points) && gap.t in Ids(gap.points)
    ensures |e.added| == NewCount(src, tgt)
    ensures forall k :: 0 <= k < |e.added| ==> e.added[k].n == counter + k
    ensures src.Some? ==> e.srcId == src.value && e.srcAt == srcStop
    ensures src.None? ==> e.srcId == counter && e.added[0] == NodeRow(e.srcId, e.srcAt)
    ensures src.None? ==> exists p :: p in gap.points && p.n == gap.s && p.at == e.srcAt
    ensures tgt.Some? ==> e.tgtId == tgt.value && e.tgtAt == tgtStop
    ensures tgt.None? ==> e.tgtId == counter + |e.added| - 1 && e.added[|e.added| - 1] == NodeRow(e.tgtId, e.tgtAt)
    ensures tgt.None? ==> exists p :: p in gap.points && p.n == gap.t && p.at == e.tgtAt
  {
    var sp := gap.points[RowOf(gap.points, gap.s)].at;
    var tp := gap.points[RowOf(gap.points, gap.t)].at;
    match (src, tgt)
    case (Some(a), Some(b)) => Ends(a, srcStop, b, tgtStop, [])
    case (None, Some(b)) => Ends(counter, sp, b, tgtStop, [NodeRow(counter, sp)])
    case (Some(a), None) => Ends(a, srcStop, counter, tp, [NodeRow(counter, tp)])
    case (None, None) => Ends(counter, sp, counter + 1, tp, [NodeRow(counter, sp), NodeRow(counter + 1, tp)])
  }

  /** The rows appended to `nodes_within_shp_df` for a gap: both ends when
      both stops were matched or neither was, otherwise only the new one. */
  function WithinRows(src: Option<int>, tgt: Option<int>, e: Ends): (rows: seq<NodeRow>)
    ensures forall x :: x in rows ==> x == NodeRow(e.srcId, e.srcAt) || x == NodeRow(e.tgtId, e.tgtAt)
    ensures src.None? ==> NodeRow(e.srcId, e.srcAt) in rows
    ensures tgt.None? ==> NodeRow(e.tgtId, e.tgtAt) in rows
  {
    (if src.None? || tgt.Some? then [NodeRow(e.srcId, e.srcAt)] else [])
    + (if tgt.None? || src.Some? then [NodeRow(e.tgtId, e.tgtAt)] else [])
  }

  /** The stop pair `(ind, ind + 1)` now carries the ends of the gap:
      a matched stop keeps its node, an unmatched one gets the next id. */
  predicate EndsAssigned(matched: seq<Option<int>>, matched': seq<Option<int>>, ind: nat, counter: int) {
    && ind + 1 < |matched| == |matched'|
    && var src := matched[ind]; var tgt := matched[ind + 1];
    && (forall k :: 0 <= k < |matched| && k != ind && k != ind + 1 ==> matched'[k] == matched[k])
    && (src.Some? ==> matched'[ind] == src) && (src.None? ==> matched'[ind] == Some(counter))
    && (tgt.Some? ==> matched'[ind + 1] == tgt)
    && (tgt.None? ==> matched'[ind + 1] == Some(counter + NewCount(src, tgt) - 1))
  }

  /** A matched stop is a graph node below the counter. */
  lemma MatchedIsNode(st: RouteState, nodes: set<int>, k: nat)
    requires Consistent(st, nodes) && k < |st.matched| && st.matched[k].Some?
    ensures st.matched[k].value in Ids(st.within) && st.matched[k].value in nodes
    ensures st.matched[k].value < st.counter
  {
    assert st.matched[k] in st.matched;
  }

  lemma SetAddPresent(s: set<int>, x: int, y: int)
    requires y in s
    ensures s + {x} == s + {x, y}
  {
  }

  lemma SetAddTwo(s: set<int>, x: int, y: int)
    ensures s + {x} + {y} == s + {x, y}
  {
  }

  /** The bracket search of a stop pair, seen from the sequencer: a gap
      holding both bracket points and an ordered cursor that only shrinks. */
  method GapForPair(shape: seq<NodeRow>, src: Endpoint, tgt: Endpoint, dist: Distance) returns (r: Result<Gap>)
    requires Increasing(shape)
    ensures r.Err? ==> r.fault == NotFound
    ensures r.Ok? ==> var gap := r.value;
      && gap.s in Ids(gap.points) && gap.t in Ids(gap.points)
      && Increasing(gap.cursor) && (forall p :: p in gap.cursor ==> p in shape)
  {
    var b;
    r, b := BracketGap(shape, src, tgt, dist);
    if r.Ok? {
      CutGapFacts(shape, b.s, b.t);
      assert r.value.s in Ids(r.value.points) && r.value.t in Ids(r.value.points);
    }
  }

  /** First half of a gap: find the bracket on the shape cursor and project
      the unmatched stops onto it as new graph nodes. */
  method ProjectGap(g: Graph, st: RouteState, ind: nat, stops: seq<Point>, dist: Distance)
    returns (r: Result<(Gap, Ends)>)
    requires ind + 1 < |st.matched| == |stops|
    requires Consistent(st, g.nodes)
    requires st.matched[ind].Some? && st.matched[ind + 1].Some? ==> st.matched[ind].value != st.matched[ind + 1].value
    modifies g
    ensures r.Err? ==> r.fault == NotFound
    ensures r.Ok? ==> var (gap, e) := r.value; var src := st.matched[ind]; var tgt := st.matched[ind + 1];
      && gap.s in Ids(gap.points) && gap.t in Ids(gap.points)
      && e == ProjectStops(src, stops[ind], tgt, stops[ind + 1], gap, st.counter)
      && Increasing(gap.cursor) && (forall p :: p in gap.cursor ==> p in st.cursor)
      && g.nodes == old(g.nodes) + {e.srcId, e.tgtId} && g.edges == old(g.edges)
      && e.srcId != e.tgtId && e.srcId < st.counter + NewCount(src, tgt) && e.tgtId < st.counter + NewCount(src, tgt)
  {
    var src, tgt := st.matched[ind], st.matched[ind + 1];
    var gr := GapForPair(st.cursor, Endpoint(src, stops[ind]), Endpoint(tgt, stops[ind + 1]), dist);
    if gr.Err? {
      return Err(gr.fault);
    }
    var gap := gr.value;
    var e := ProjectStops(src, stops[ind], tgt, stops[ind + 1], gap, st.counter);
    var sid, tid := e.srcId, e.tgtId;
    if src.Some? {
      MatchedIsNode(st, g.nodes, ind);
      assert sid in g.nodes;
    } else {
      g.AddNode(sid);
    }
    assert g.nodes == old(g.nodes) + {sid};
    ghost var nodes1 := g.nodes;
    if tgt.Some? {
      MatchedIsNode(st, old(g.nodes), ind + 1);
      SetAddPresent(old(g.nodes), sid, tid);
    } else {
      g.AddNode(tid);
      SetAddTwo(old(g.nodes), sid, tid);
    }
    r := Ok((gap, e));
  }

  /** The pair `test_new_link` keeps for candidate `l` between the nodes
      `src` and `tgt`: the candidate when it connects them, otherwise the
      pair's own nodes joined by the full link. */
  ghost function KeptLink(edges: set<Edge>, l: NewLink, src: int, tgt: int): (int, int, seq<Point>) {
    if Reachable(edges + {(l.a, l.b), (l.b, l.a)}, src, tgt) then (l.a, l.b, l.link) else (src, tgt, l.full)
  }

  /** The edge set `test_new_link` leaves for candidate `l`: the candidate
      pair added when it connects `src` and `tgt`, otherwise the candidate
      pair taken out again and `src`-`tgt` added; no other edge changes. */
  ghost function TestedEdges(edges: set<Edge>, l: NewLink, src: int, tgt: int): set<Edge> {
    if Reachable(edges + {(l.a, l.b), (l.b, l.a)}, src, tgt) then edges + {(l.a, l.b), (l.b, l.a)}
    else edges - {(l.a, l.b), (l.b, l.a)} + {(src, tgt), (tgt, src)}
  }

  /** The link a gap registers: `test_new_link`'s choice for the
      candidate `create_new_link` builds from the gap's ends, appended to
      the link registry with its twin. */
  ghost predicate Registered(st: RouteState, links': seq<LinkRow>, gap: Gap, e: Ends, link: (int, int, seq<Point>),
                             attrs: Attributes, edges: set<Edge>, edges': set<Edge>, dist: Distance) {
    && |gap.points| > 0 && st.within != []
    && var nl := CreateNewLink(e.srcId, e.srcAt, e.tgtId, e.tgtAt, st.transitNodes + e.added, st.within, gap.points, dist).value;
    && link == KeptLink(edges, nl, e.srcId, e.tgtId)
    && edges' == TestedEdges(edges, nl, e.srcId, e.tgtId)
    && |links'| == |st.transitLinks| + 2 && links'[..|st.transitLinks|] == st.transitLinks
    && links'[|st.transitLinks|..] == TwinPair(link.0, link.1, link.2, attrs)
  }

  /** The link a gap finally gets (`create_new_link`, then
      `test_new_link`): it fails exactly when there is no node near the
      shape; otherwise it is the candidate or its fallback, the target is
      reachable from the source afterwards and the only edges added are
      the two directions of the returned pair. */
  method PlaceLink(g: Graph, st: RouteState, gap: Gap, e: Ends, dist: Distance) returns (r: Result<(int, int, seq<Point>)>)
    requires |gap.points| > 0 && e.srcId != e.tgtId && e.srcId in g.nodes && e.tgtId in g.nodes
    requires Ids(st.within) <= g.nodes
    modifies g
    ensures var nl := CreateNewLink(e.srcId, e.srcAt, e.tgtId, e.tgtAt, st.transitNodes + e.added, st.within, gap.points, dist);
      && (r.Err? <==> nl.Err?)
      && (r.Ok? ==> r.value == KeptLink(old(g.edges), nl.value, e.srcId, e.tgtId)
                    && g.edges == TestedEdges(old(g.edges), nl.value, e.srcId, e.tgtId))
    ensures r.Err? ==> r.fault == EmptySequence && st.within == []
    ensures r.Ok? ==> var (a, b, _) := r.value;
      && g.nodes == old(g.nodes)
      && g.edges <= old(g.edges) + {(a, b), (b, a)}
      && Reachable(g.edges, e.srcId, e.tgtId)
  {
    var nl := CreateNewLink(e.srcId, e.srcAt, e.tgtId, e.tgtAt, st.transitNodes + e.added, st.within, gap.points, dist);
    if nl.Err? {
      return Err(nl.fault);
    }
    NewLinkEnds(e.srcId, e.srcAt, e.tgtId, e.tgtAt, st.transitNodes + e.added, st.within, gap.points, dist);
    var a, b, link := TestNewLink(g, nl.value.a, nl.value.b, e.srcId, e.tgtId, nl.value.link, nl.value.full);
    assert (a, b, link) == KeptLink(old(g.edges), nl.value, e.srcId, e.tgtId);
    return Ok((a, b, link));
  }

  /** Second half of a gap: place the link, record both ends as nodes near
      the shape, register the link and its twin, and stitch the path
      between the ends. */
  method CloseGap(g: Graph, st: RouteState, ind: nat, gap: Gap, e: Ends, attrs: Attributes, dist: Distance)
    returns (r: Result<RouteState>, ghost link: (int, int, seq<Point>))
    requires ind + 1 < |st.matched|
    requires |gap.points| > 0 && e.srcId != e.tgtId && e.srcId in g.nodes && e.tgtId in g.nodes
    requires Ids(st.within) <= g.nodes
    modifies g
    ensures r.Err? <==> st.within == []
    ensures r.Err? ==> r.fault == EmptySequence
    ensures r.Ok? ==> Registered(st, r.value.transitLinks, gap, e, link, attrs, old(g.edges), g.edges, dist)
    ensures r.Ok? ==> var st' := r.value;
      && st'.matched == st.matched[ind := Some(e.srcId)][ind + 1 := Some(e.tgtId)]
      && st'.cursor == gap.cursor && st'.transitNodes == st.transitNodes + e.added
      && st'.counter == st.counter + |e.added|
      && TwinAppended(st.transitLinks, st'.transitLinks, attrs)
      && st'.within == st.within + WithinRows(st.matched[ind], st.matched[ind + 1], e)
      && g.nodes == old(g.nodes)
      && g.edges <= old(g.edges) + Pairs(st'.transitLinks[|st.transitLinks|..])
      && (exists p :: PathFromTo(g.edges, e.srcId, e.tgtId, p) && st'.nodeSeq == Stitch(st.nodeSeq, p))
  {
    link := (0, 0, []);
    var pl := PlaceLink(g, st, gap, e, dist);
    if pl.Err? {
      r := Err(pl.fault);
      return;
    }
    link := pl.value;
    var (a, b, geom) := pl.value;
    var pair := TwinPair(a, b, geom, attrs);
    var transitLinks := st.transitLinks + pair;
    assert transitLinks[|st.transitLinks|..] == pair;
    var nodeSeq := AddNodesToSeq(g, e.srcId, e.tgtId, st.nodeSeq);
    var within := st.within + WithinRows(st.matched[ind], st.matched[ind + 1], e);
    var matched := st.matched[ind := Some(e.srcId)][ind + 1 := Some(e.tgtId)];
    r := Ok(RouteState(matched, nodeSeq, gap.cursor, st.transitNodes + e.added, transitLinks, within, st.counter + |e.added|));
  }

  /** The tables after a gap, before re-resolution: both ends recorded on
      the stops, the cursor cut at the gap, the new nodes registered and
      counted, and the ends noted as near the shape. */
  predicate Closed(st: RouteState, st': RouteState, ind: nat, gap: Gap, e: Ends)
    requires ind + 1 < |st.matched|
  {
    && st'.matched == st.matched[ind := Some(e.srcId)][ind + 1 := Some(e.tgtId)]
    && st'.cursor == gap.cursor
    && st'.transitNodes == st.transitNodes + e.added
    && st'.counter == st.counter + |e.added|
    && st'.within == st.within + WithinRows(st.matched[ind], st.matched[ind + 1], e)
  }

  /** The gap branches of `create_node_seq` (source and/or target unmatched,
      or both matched with no path between them). */
  method SynthesizeGap(g: Graph, st: RouteState, ind: nat, stops: seq<Point>, attrs: Attributes, dist: Distance)
    returns (r: Result<RouteState>, ghost gap: Gap, ghost e: Ends, ghost link: (int, int, seq<Point>))
    requires ind + 1 < |st.matched| == |stops|
    requires Consistent(st, g.nodes)
    requires st.matched[ind].Some? && st.matched[ind + 1].Some? ==> st.matched[ind].value != st.matched[ind + 1].value
    modifies g
    ensures r.Err? ==> r.fault == NotFound || (r.fault == EmptySequence && st.within == [])
    ensures r.Ok? ==>
      && gap.s in Ids(gap.points) && gap.t in Ids(gap.points)
      && e == ProjectStops(st.matched[ind], stops[ind], st.matched[ind + 1], stops[ind + 1], gap, st.counter)
      && Registered(st, r.value.transitLinks, gap, e, link, attrs, old(g.edges), g.edges, dist)
      && Closed(st, r.value, ind, gap, e)
      && Increasing(gap.cursor) && (forall p :: p in gap.cursor ==> p in st.cursor)
      && g.nodes == old(g.nodes) + {e.srcId, e.tgtId}
      && (exists p :: PathFromTo(g.edges, e.srcId, e.tgtId, p) && r.value.nodeSeq == Stitch(st.nodeSeq, p))
  {
    gap, e, link := Gap([], [], 0, 0), Ends(0, Point(0.0, 0.0), 0, Point(0.0, 0.0), []), (0, 0, []);
    var pr := ProjectGap(g, st, ind, stops, dist);
    if pr.Err? {
      r := Err(pr.fault);
      return;
    }
    var (gp, en) := pr.value;
    gap, e := gp, en;
    assert gap.s in Ids(gap.points);
    r, link := CloseGap(g, st, ind, gp, en, attrs, dist);
  }

  lemma StopsStayNear(matched: seq<Option<int>>, within: seq<NodeRow>, within': seq<NodeRow>, ind: nat, sid: int, tid: int)
    requires ind + 1 < |matched| && StopIds(matched) <= Ids(within) && Ids(within) <= Ids(within')
    requires sid in Ids(within') && tid in Ids(within')
    ensures StopIds(matched[ind := Some(sid)][ind + 1 := Some(tid)]) <= Ids(within')
  {
    var m := matched[ind := Some(sid)][ind + 1 := Some(tid)];
    forall x | x in StopIds(m) ensures x in Ids(within') {
      var o :| o in m && o.Some? && o.value == x;
      var k :| 0 <= k < |m| && m[k] == o;
      if k != ind && k != ind + 1 {
        assert matched[k] in matched;
      }
    }
  }

  lemma EndsNear(st: RouteState, nodes: set<int>, ind: nat, e: Ends)
    requires ind + 1 < |st.matched| && Consistent(st, nodes)
    requires st.matched[ind].Some? ==> e.srcId == st.matched[ind].value
    requires st.matched[ind + 1].Some? ==> e.tgtId == st.matched[ind + 1].value
    ensures var within' := st.within + WithinRows(st.matched[ind], st.matched[ind + 1], e);
      e.srcId in Ids(within') && e.tgtId in Ids(within') && Ids(within') <= Ids(st.within) + {e.srcId, e.tgtId}
  {
    var rows := WithinRows(st.matched[ind], st.matched[ind + 1], e);
    AppendIds(st.within, rows);
    if st.matched[ind].Some? { MatchedIsNode(st, nodes, ind); } else { assert NodeRow(e.srcId, e.srcAt) in rows; }
    if st.matched[ind + 1].Some? { MatchedIsNode(st, nodes, ind + 1); } else { assert NodeRow(e.tgtId, e.tgtAt) in rows; }
    assert Ids(rows) <= {e.srcId, e.tgtId};
  }

  lemma TransitBelow(transit: seq<NodeRow>, added: seq<NodeRow>, counter: int, n: nat)
    requires forall r :: r in transit ==> r.n < counter
    requires |added| == n && forall k :: 0 <= k < n ==> added[k].n == counter + k
    ensures forall r :: r in transit + added ==> r.n < counter + n
    ensures NumberedFrom(transit, transit + added, counter, n)
  {
    forall r | r in transit + added ensures r.n < counter + n {
      if r !in transit {
        var k :| 0 <= k < |added| && added[k] == r;
      }
    }
    assert (transit + added)[..|transit|] == transit;
  }

  lemma TwinKeyed(links: seq<LinkRow>, links': seq<LinkRow>, attrs: Attributes)
    requires WellKeyed(links) && TwinAppended(links, links', attrs)
    ensures WellKeyed(links')
  {
    forall k | 0 <= k < |links'| ensures links'[k].ab == Key(links'[k].a, links'[k].b) {
      if k < |links| { assert links'[k] == links[k]; }
    }
  }

  lemma ConsistentAfterGap(st: RouteState, st': RouteState, ind: nat, nodes: set<int>, nodes': set<int>,
                           stops: seq<Point>, gap: Gap, e: Ends, attrs: Attributes)
    requires ind + 1 < |st.matched| == |stops|
    requires Consistent(st, nodes)
    requires gap.s in Ids(gap.points) && gap.t in Ids(gap.points)
    requires e == ProjectStops(st.matched[ind], stops[ind], st.matched[ind + 1], stops[ind + 1], gap, st.counter)
    requires Increasing(gap.cursor)
    requires nodes' == nodes + {e.srcId, e.tgtId}
    requires e.srcId < st.counter + NewCount(st.matched[ind], st.matched[ind + 1])
    requires e.tgtId < st.counter + NewCount(st.matched[ind], st.matched[ind + 1])
    requires st'.matched == st.matched[ind := Some(e.srcId)][ind + 1 := Some(e.tgtId)]
    requires st'.cursor == gap.cursor && st'.transitNodes == st.transitNodes + e.added
    requires st'.counter == st.counter + |e.added|
    requires TwinAppended(st.transitLinks, st'.transitLinks, attrs)
    requires st'.within == st.within + WithinRows(st.matched[ind], st.matched[ind + 1], e)
    ensures Consistent(st', nodes')
    ensures NumberedFrom(st.transitNodes, st'.transitNodes, st.counter, NewCount(st.matched[ind], st.matched[ind + 1]))
  {
    var n := NewCount(st.matched[ind], st.matched[ind + 1]);
    EndsNear(st, nodes, ind, e);
    assert Ids(st.within) <= Ids(st'.within) by {
      AppendIds(st.within, WithinRows(st.matched[ind], st.matched[ind + 1], e));
    }
    assert Ids(st'.within) <= nodes';
    StopsStayNear(st.matched, st.within, st'.within, ind, e.srcId, e.tgtId);
    assert |e.added| == n;
    forall x | x in nodes'
      ensures x < st'.counter
    {
      if x !in nodes {
        assert x == e.srcId || x == e.tgtId;
      }
    }
    TransitBelow(st.transitNodes, e.added, st.counter, n);
    TwinKeyed(st.transitLinks, st'.transitLinks, attrs);
  }

  /** The stops of the pair now carry their ends, numbered from the
      counter where they were unmatched; no other stop changes. */
  lemma AssignedAfterGap(matched: seq<Option<int>>, matched': seq<Option<int>>, ind: nat, stops: seq<Point>,
                         gap: Gap, e: Ends, counter: int)
    requires ind + 1 < |matched| == |stops|
    requires gap.s in Ids(gap.points) && gap.t in Ids(gap.points)
    requires e == ProjectStops(matched[ind], stops[ind], matched[ind + 1], stops[ind + 1], gap, counter)
    requires matched' == matched[ind := Some(e.srcId)][ind + 1 := Some(e.tgtId)]
    ensures EndsAssigned(matched, matched', ind, counter)
  {
  }

  // ---------------------------------------------------------------------
  // The pair loop.

  /** Both stops of the pair are matched to the same node: the pair is
      skipped, without re-resolution. */
  predicate Skips(matched: seq<Option<int>>, ind: nat)
    requires ind + 1 < |matched|
  {
    matched[ind].Some? && matched[ind + 1].Some? && matched[ind].value == matched[ind + 1].value
  }

  /** Both stops are matched to distinct nodes joined by a path. */
  ghost predicate Linked(matched: seq<Option<int>>, ind: nat, edges: set<Edge>)
    requires ind + 1 < |matched|
  {
    && matched[ind].Some? && matched[ind + 1].Some? && matched[ind].value != matched[ind + 1].value
    && Reachable(edges, matched[ind].value, matched[ind + 1].value)
  }

  /** What one pair, or several, may do to the route state and the graph:
      registries and tables only grow at their end, new transit-only nodes
      take consecutive ids from the counter, new links come in twins, the
      graph gains exactly the new transit-only nodes, and every edge it
      gains belongs to a new transit-only link. */
  ghost predicate Advance(st: RouteState, st': RouteState, attrs: Attributes,
                          nodes: set<int>, nodes': set<int>, edges: set<Edge>, edges': set<Edge>)
  {
    && |st'.matched| == |st.matched|
    && st.counter <= st'.counter
    && NumberedFrom(st.transitNodes, st'.transitNodes, st.counter, st'.counter - st.counter)
    && |st'.transitLinks| >= |st.transitLinks| && st'.transitLinks[..|st.transitLinks|] == st.transitLinks
    && Twins(st'.transitLinks[|st.transitLinks|..], attrs)
    && |st'.within| >= |st.within| && st'.within[..|st.within|] == st.within
    && |st'.nodeSeq| >= |st.nodeSeq| && st'.nodeSeq[..|st.nodeSeq|] == st.nodeSeq
    && nodes' == nodes + Ids(st'.transitNodes[|st.transitNodes|..])
    && edges' <= edges + Pairs(st'.transitLinks[|st.transitLinks|..])
  }

  lemma AdvanceNothing(st: RouteState, st': RouteState, attrs: Attributes, nodes: set<int>, edges: set<Edge>, edges': set<Edge>)
    requires st'.counter == st.counter && st'.transitNodes == st.transitNodes && st'.transitLinks == st.transitLinks
    requires st'.within == st.within && |st'.matched| == |st.matched|
    requires |st'.nodeSeq| >= |st.nodeSeq| && st'.nodeSeq[..|st.nodeSeq|] == st.nodeSeq
    requires edges' <= edges
    ensures Advance(st, st', attrs, nodes, nodes, edges, edges')
  {
    assert st'.transitNodes[|st.transitNodes|..] == [];
    assert st'.transitLinks[|st.transitLinks|..] == [];
  }

  /** Two advances in a row are one advance. */
  lemma AdvanceTrans(s0: RouteState, s1: RouteState, s2: RouteState, attrs: Attributes,
                     n0: set<int>, n1: set<int>, n2: set<int>, e0: set<Edge>, e1: set<Edge>, e2: set<Edge>)
    requires Advance(s0, s1, attrs, n0, n1, e0, e1) && Advance(s1, s2, attrs, n1, n2, e1, e2)
    ensures Advance(s0, s2, attrs, n0, n2, e0, e2)
  {
    NumberedTrans(s0.transitNodes, s1.transitNodes, s2.transitNodes, s0.counter, s1.counter - s0.counter, s2.counter - s1.counter);
    SliceIds(s0.transitNodes, s1.transitNodes, s2.transitNodes);
    SlicePairs(s0.transitLinks, s1.transitLinks, s2.transitLinks);
    TwinsAppend(s1.transitLinks[|s0.transitLinks|..], s2.transitLinks[|s1.transitLinks|..], attrs);
    PrefixTrans(s0.within, s1.within, s2.within);
    PrefixTrans(s0.nodeSeq, s1.nodeSeq, s2.nodeSeq);
    PrefixTrans(s0.transitLinks, s1.transitLinks, s2.transitLinks);
  }

  /** The graph nodes a gap adds are exactly the new transit-only nodes. */
  lemma GainedNodes(st: RouteState, st': RouteState, ind: nat, nodes: set<int>, nodes': set<int>)
    requires ind + 1 < |st.matched| && Consistent(st, nodes)
    requires EndsAssigned(st.matched, st'.matched, ind, st.counter)
    requires NumberedFrom(st.transitNodes, st'.transitNodes, st.counter, NewCount(st.matched[ind], st.matched[ind + 1]))
    requires st'.matched[ind].Some? && st'.matched[ind + 1].Some?
    requires nodes' == nodes + {st'.matched[ind].value, st'.matched[ind + 1].value}
    ensures nodes' == nodes + Ids(st'.transitNodes[|st.transitNodes|..])
  {
    var added := st'.transitNodes[|st.transitNodes|..];
    var src, tgt := st.matched[ind], st.matched[ind + 1];
    assert forall k :: 0 <= k < |added| ==> added[k] == st'.transitNodes[|st.transitNodes| + k];
    if src.Some? { MatchedIsNode(st, nodes, ind); }
    if tgt.Some? { MatchedIsNode(st, nodes, ind + 1); }
    if src.None? && tgt.None? {
      assert added == [added[0], added[1]];
    } else if src.None? || tgt.None? {
      assert added == [added[0]];
    } else {
      assert added == [];
    }
  }

  /** Re-resolution keeps the route state consistent: a stop it moves goes
      to a transit-only node near the shape. */
  lemma ReResolveKeeps(st: RouteState, nodes: set<int>, stops: seq<Point>, dist: Distance)
    requires |st.matched| == |stops| && Consistent(st, nodes)
    ensures Consistent(st.(matched := ReResolve(st.matched, stops, st.transitNodes, st.within, dist)), nodes)
  {
    var m := ReResolve(st.matched, stops, st.transitNodes, st.within, dist);
    forall x | x in StopIds(m) ensures x in Ids(st.within) {
      var o :| o in m && o.Some? && o.value == x;
      var k :| 0 <= k < |m| && m[k] == o;
      if m[k] == st.matched[k] {
        assert st.matched[k] in st.matched;
      }
    }
  }

  /** A pair whose stops are joined in the graph: stitch the path. */
  method PathPair(g: Graph, st: RouteState, ind: nat, stops: seq<Point>, attrs: Attributes, dist: Distance)
    returns (st': RouteState, ghost path: seq<int>)
    requires ind + 1 < |st.matched| == |stops| && Consistent(st, g.nodes)
    requires Linked(st.matched, ind, g.edges)
    ensures Consistent(st', g.nodes) && Advance(st, st', attrs, g.nodes, g.nodes, g.edges, g.edges)
    ensures st'.counter == st.counter && st'.transitLinks == st.transitLinks
    ensures PathFromTo(g.edges, st.matched[ind].value, st.matched[ind + 1].value, path)
    ensures st'.nodeSeq == Stitch(st.nodeSeq, path)
    ensures st'.matched == ReResolve(st.matched, stops, st'.transitNodes, st'.within, dist)
    ensures st' == st.(nodeSeq := st'.nodeSeq, matched := st'.matched)
  {
    MatchedIsNode(st, g.nodes, ind);
    MatchedIsNode(st, g.nodes, ind + 1);
    var nodeSeq := AddNodesToSeq(g, st.matched[ind].value, st.matched[ind + 1].value, st.nodeSeq);
    path :| PathFromTo(g.edges, st.matched[ind].value, st.matched[ind + 1].value, path) && nodeSeq == Stitch(st.nodeSeq, path);
    var m := ReResolve(st.matched, stops, st.transitNodes, st.within, dist);
    ReResolveKeeps(st, g.nodes, stops, dist);
    st' := st.(nodeSeq := nodeSeq, matched := m);
    AdvanceNothing(st, st', attrs, g.nodes, g.edges, g.edges);
  }

  /** A pair with an unmatched stop, or with no path: synthesise the gap
      and re-resolve. */
  method GapPair(g: Graph, st: RouteState, ind: nat, stops: seq<Point>, attrs: Attributes, dist: Distance)
    returns (r: Result<RouteState>, ghost step: PairStep)
    requires ind + 1 < |st.matched| == |stops| && Consistent(st, g.nodes)
    requires !Skips(st.matched, ind)
    modifies g
    ensures r.Err? ==> r.fault == NotFound || r.fault == EmptySequence
    ensures step.src == st.matched[ind] && step.tgt == st.matched[ind + 1] && step.gap
    ensures r.Ok? ==>
      && Snapshot(step, st, r.value, old(g.nodes), g.nodes, old(g.edges), g.edges)
      && GapStep(step, ind, stops, attrs, dist)
  {
    ghost var gap, e, link;
    r, gap, e, link := SynthesizeGap(g, st, ind, stops, attrs, dist);
    if r.Err? {
      step := PairStep(st.matched[ind], st.matched[ind + 1], [], true, st, st, {}, {}, {}, {}, [], gap, e, link);
      return;
    }
    var mid := r.value;
    ghost var path :| PathFromTo(g.edges, e.srcId, e.tgtId, path) && mid.nodeSeq == Stitch(st.nodeSeq, path);
    var m := ReResolve(mid.matched, stops, mid.transitNodes, mid.within, dist);
    r := Ok(mid.(matched := m));
    step := PairStep(st.matched[ind], st.matched[ind + 1], path, true, st, r.value,
                     old(g.nodes), old(g.edges), g.nodes, g.edges, mid.matched, gap, e, link);
    GapStepHolds(step, mid, ind, stops, attrs, dist);
  }

  lemma GapStepHolds(s: PairStep, mid: RouteState, k: nat, stops: seq<Point>, attrs: Attributes, dist: Distance)
    requires k + 1 < |s.pre.matched| == |stops|
    requires s.cut.s in Ids(s.cut.points) && s.cut.t in Ids(s.cut.points)
    requires Increasing(s.cut.cursor) && (forall p :: p in s.cut.cursor ==> p in s.pre.cursor)
    requires s.ends == ProjectStops(s.pre.matched[k], stops[k], s.pre.matched[k + 1], stops[k + 1], s.cut, s.pre.counter)
    requires Registered(s.pre, mid.transitLinks, s.cut, s.ends, s.link, attrs, s.edges, s.edgesAfter, dist)
    requires Closed(s.pre, mid, k, s.cut, s.ends) && s.placed == mid.matched
    requires s.nodesAfter == s.nodes + {s.ends.srcId, s.ends.tgtId}
    requires PathFromTo(s.edgesAfter, s.ends.srcId, s.ends.tgtId, s.path)
    requires mid.nodeSeq == Stitch(s.pre.nodeSeq, s.path)
    requires s.post == mid.(matched := ReResolve(mid.matched, stops, mid.transitNodes, mid.within, dist))
    ensures GapStep(s, k, stops, attrs, dist)
  {
    assert s.post.(matched := s.placed) == mid;
  }

  /** What a gap step does to the route state and the graph: consistency
      is kept, the state advances, the counter grows by the number of new
      ends, one link twin is appended, and the ends are placed on the pair
      with a path between them in the graph after the step. */
  lemma GapStepFacts(s: PairStep, k: nat, stops: seq<Point>, attrs: Attributes, dist: Distance)
    requires GapStep(s, k, stops, attrs, dist) && Consistent(s.pre, s.nodes)
    ensures Consistent(s.post, s.nodesAfter)
    ensures Advance(s.pre, s.post, attrs, s.nodes, s.nodesAfter, s.edges, s.edgesAfter)
    ensures s.post.counter == s.pre.counter + NewCount(s.pre.matched[k], s.pre.matched[k + 1])
    ensures TwinAppended(s.pre.transitLinks, s.post.transitLinks, attrs)
    ensures EndsAssigned(s.pre.matched, s.placed, k, s.pre.counter)
    ensures s.placed[k].Some? && s.placed[k + 1].Some?
    ensures PathFromTo(s.edgesAfter, s.placed[k].value, s.placed[k + 1].value, s.path)
  {
    var st, mid, e := s.pre, s.post.(matched := s.placed), s.ends;
    if st.matched[k].Some? { MatchedIsNode(st, s.nodes, k); }
    if st.matched[k + 1].Some? { MatchedIsNode(st, s.nodes, k + 1); }
    ConsistentAfterGap(st, mid, k, s.nodes, s.nodesAfter, stops, s.cut, e, attrs);
    AssignedAfterGap(st.matched, s.placed, k, stops, s.cut, e, st.counter);
    GainedNodes(st, mid, k, s.nodes, s.nodesAfter);
    TwinAppendedTwins(st.transitLinks, mid.transitLinks, attrs);
    ReResolveKeeps(mid, s.nodesAfter, stops, dist);
    assert s.post == mid.(matched := ReResolve(mid.matched, stops, mid.transitNodes, mid.within, dist));
  }

  /** What the pair loop did with one stop pair: the pair's matches when it
      was reached, the path stitched in for it (empty for a skipped pair),
      whether a gap link was synthesised for it, and the route state and
      graph before and after it. A gap step also keeps the match column
      with its ends placed (before re-resolution), the cut of the shape, the
      projected ends and the link `test_new_link` kept. */
  datatype PairStep = PairStep(src: Option<int>, tgt: Option<int>, path: seq<int>, gap: bool,
                               pre: RouteState, post: RouteState,
                               nodes: set<int>, edges: set<Edge>, nodesAfter: set<int>, edgesAfter: set<Edge>,
                               placed: seq<Option<int>>, cut: Gap, ends: Ends, link: (int, int, seq<Point>))

  /** `s` records the states a pair went from and to. */
  predicate Snapshot(s: PairStep, st: RouteState, st': RouteState,
                     nodes: set<int>, nodes': set<int>, edges: set<Edge>, edges': set<Edge>) {
    && s.pre == st && s.post == st'
    && s.nodes == nodes && s.nodesAfter == nodes' && s.edges == edges && s.edgesAfter == edges'
  }

  /** A gap for pair `k`: the shape is cut around the pair, the unmatched
      stops are projected onto the cut as new nodes, the graph gains the
      two ends, its edges become what `test_new_link` leaves, the kept link
      and its twin are registered, the ends are recorded on the stops and
      noted as near the shape, a walk between the ends is stitched in, and
      the stops are re-resolved against the grown tables. */
  ghost predicate GapStep(s: PairStep, k: nat, stops: seq<Point>, attrs: Attributes, dist: Distance) {
    && k + 1 < |s.pre.matched| == |stops|
    && s.cut.s in Ids(s.cut.points) && s.cut.t in Ids(s.cut.points)
    && Increasing(s.cut.cursor) && (forall p :: p in s.cut.cursor ==> p in s.pre.cursor)
    && s.ends == ProjectStops(s.pre.matched[k], stops[k], s.pre.matched[k + 1], stops[k + 1], s.cut, s.pre.counter)
    && s.nodesAfter == s.nodes + {s.ends.srcId, s.ends.tgtId}
    && Registered(s.pre, s.post.transitLinks, s.cut, s.ends, s.link, attrs, s.edges, s.edgesAfter, dist)
    && s.placed == s.pre.matched[k := Some(s.ends.srcId)][k + 1 := Some(s.ends.tgtId)]
    && Closed(s.pre, s.post.(matched := s.placed), k, s.cut, s.ends)
    && PathFromTo(s.edgesAfter, s.ends.srcId, s.ends.tgtId, s.path)
    && s.post.nodeSeq == Stitch(s.pre.nodeSeq, s.path)
    && s.post.matched == ReResolve(s.placed, stops, s.post.transitNodes, s.post.within, dist)
  }

  /** Pair `k` as `create_node_seq` handles it: a pair matched to one node
      is skipped and changes nothing; a pair of distinct nodes joined by a
      path stitches in a walk between them and re-resolves, leaving the
      graph alone; any other pair goes through a gap. */
  ghost predicate StepSpec(s: PairStep, k: nat, stops: seq<Point>, attrs: Attributes, dist: Distance) {
    && k + 1 < |s.pre.matched| == |stops|
    && s.src == s.pre.matched[k] && s.tgt == s.pre.matched[k + 1]
    && if SameNode(s.src, s.tgt) then
         && !s.gap && s.path == [] && s.post == s.pre && s.nodesAfter == s.nodes && s.edgesAfter == s.edges
       else if Linked(s.pre.matched, k, s.edges) then
         && !s.gap && s.nodesAfter == s.nodes && s.edgesAfter == s.edges && s.placed == s.pre.matched
         && PathFromTo(s.edges, s.src.value, s.tgt.value, s.path)
         && s.post == s.pre.(nodeSeq := Stitch(s.pre.nodeSeq, s.path),
                             matched := ReResolve(s.pre.matched, stops, s.pre.transitNodes, s.pre.within, dist))
       else
         s.gap && GapStep(s, k, stops, attrs, dist)
  }

  predicate SameNode(src: Option<int>, tgt: Option<int>) {
    src.Some? && tgt.Some? && src.value == tgt.value
  }

  /** A pair matched to one node contributes nothing; any other pair
      contributes a walk from the source's node to the target's node, and a
      pair with an unmatched stop always goes through a gap. */
  ghost predicate StepOk(s: PairStep, edges: set<Edge>) {
    if SameNode(s.src, s.tgt) then s.path == [] && !s.gap
    else
      && IsWalk(edges, s.path)
      && (s.src.Some? ==> s.path[0] == s.src.value)
      && (s.tgt.Some? ==> s.path[|s.path| - 1] == s.tgt.value)
      && (s.src.None? || s.tgt.None? ==> s.gap)
  }

  /** The node sequence after a step: its path stitched in, if it has one. */
  function Extend(nodeSeq: seq<int>, s: PairStep): seq<int> {
    if s.path == [] then nodeSeq else Stitch(nodeSeq, s.path)
  }

  /** The node sequence the steps build from an empty one, in order. */
  function StitchAll(trace: seq<PairStep>): seq<int> {
    if trace == [] then [] else Extend(StitchAll(trace[..|trace| - 1]), trace[|trace| - 1])
  }

  /** The fresh ids the steps hand out: one per unmatched stop of each pair. */
  function FreshSum(trace: seq<PairStep>): nat {
    if trace == [] then 0 else FreshSum(trace[..|trace| - 1]) + NewCount(trace[|trace| - 1].src, trace[|trace| - 1].tgt)
  }

  function GapCount(trace: seq<PairStep>): nat {
    if trace == [] then 0 else GapCount(trace[..|trace| - 1]) + (if trace[|trace| - 1].gap then 1 else 0)
  }

  /** Each step's path begins where the sequence stitched before it ends. */
  ghost predicate Joins(trace: seq<PairStep>) {
    forall k :: 0 <= k < |trace| && trace[k].path != [] && StitchAll(trace[..k]) != [] ==>
      trace[k].path[0] == Last(StitchAll(trace[..k]))
  }

  /** Stitching steps whose paths join up yields one continuous walk: no
      boundary node is repeated and no edge is missing. */
  lemma {:induction false} StitchAllWalk(trace: seq<PairStep>, edges: set<Edge>)
    requires forall k :: 0 <= k < |trace| ==> StepOk(trace[k], edges)
    requires Joins(trace)
    ensures StitchAll(trace) == [] || IsWalk(edges, StitchAll(trace))
  {
    if trace != [] {
      var init, s := trace[..|trace| - 1], trace[|trace| - 1];
      assert forall k :: 0 <= k < |init| ==> init[k] == trace[k] && init[..k] == trace[..k];
      StitchAllWalk(init, edges);
      if s.path != [] {
        assert trace[..|init|] == init;
        StitchWalk(edges, StitchAll(init), s.path);
      }
    }
  }

  lemma StepGrows(s: PairStep, edges: set<Edge>, more: set<Edge>)
    requires StepOk(s, edges) && edges <= more
    ensures StepOk(s, more)
  {
    if !SameNode(s.src, s.tgt) {
      WalkGrows(edges, more, s.path);
    }
  }

  /** One iteration of `create_node_seq`'s loop over stop pairs. */
  method ProcessPair(g: Graph, st: RouteState, ind: nat, stops: seq<Point>, attrs: Attributes, dist: Distance)
    returns (r: Result<RouteState>, ghost step: PairStep)
    requires ind + 1 < |st.matched| == |stops| && Consistent(st, g.nodes)
    modifies g
    ensures step.src == st.matched[ind] && step.tgt == st.matched[ind + 1]
    ensures r.Ok? ==>
      && Snapshot(step, st, r.value, old(g.nodes), g.nodes, old(g.edges), g.edges)
      && StepSpec(step, ind, stops, attrs, dist)
    ensures r.Err? ==> r.fault == NotFound || r.fault == EmptySequence
    ensures Skips(st.matched, ind) ==> r == Ok(st) && g.nodes == old(g.nodes) && g.edges == old(g.edges)
    ensures Linked(st.matched, ind, old(g.edges)) ==>
      r.Ok? && !step.gap && g.nodes == old(g.nodes) && g.edges == old(g.edges)
  {
    var src, tgt := st.matched[ind], st.matched[ind + 1];
    ghost var none := PairStep(src, tgt, [], false, st, st, g.nodes, g.edges, g.nodes, g.edges, st.matched,
                               Gap([], [], 0, 0), Ends(0, Point(0.0, 0.0), 0, Point(0.0, 0.0), []), (0, 0, []));
    if src.Some? && tgt.Some? {
      if src.value == tgt.value {
        step := none;
        return Ok(st), step;
      }
      MatchedIsNode(st, g.nodes, ind);
      MatchedIsNode(st, g.nodes, ind + 1);
      var linked := g.HasPath(src.value, tgt.value);
      if linked {
        var st', path := PathPair(g, st, ind, stops, attrs, dist);
        step := none.(path := path, post := st');
        return Ok(st'), step;
      }
    }
    r, step := GapPair(g, st, ind, stops, attrs, dist);
    if r.Ok? {
      GapIsStep(step, ind, stops, attrs, dist);
    }
  }

  /** A gap synthesised for a pair that neither shares a node nor has a
      path is that pair's step. */
  lemma GapIsStep(s: PairStep, k: nat, stops: seq<Point>, attrs: Attributes, dist: Distance)
    requires k + 1 < |s.pre.matched| == |stops| && s.src == s.pre.matched[k] && s.tgt == s.pre.matched[k + 1]
    requires !SameNode(s.src, s.tgt) && !Linked(s.pre.matched, k, s.edges)
    requires s.gap && GapStep(s, k, stops, attrs, dist)
    ensures StepSpec(s, k, stops, attrs, dist)
  {
  }

  /** What any step does, whichever branch it took: consistency is kept,
      the state advances, the walk is well formed and extends the node
      sequence, the counter grows by the number of unmatched ends, a link
      twin is appended exactly for a gap, and an unskipped pair ends up
      with both ends placed, a path between them, and re-resolved matches. */
  lemma StepFacts(s: PairStep, k: nat, stops: seq<Point>, attrs: Attributes, dist: Distance)
    requires StepSpec(s, k, stops, attrs, dist) && Consistent(s.pre, s.nodes)
    ensures Consistent(s.post, s.nodesAfter)
    ensures Advance(s.pre, s.post, attrs, s.nodes, s.nodesAfter, s.edges, s.edgesAfter)
    ensures StepOk(s, s.edgesAfter) && s.post.nodeSeq == Extend(s.pre.nodeSeq, s)
    ensures s.post.counter == s.pre.counter + NewCount(s.src, s.tgt)
    ensures s.gap ==> TwinAppended(s.pre.transitLinks, s.post.transitLinks, attrs)
    ensures !s.gap ==> s.post.transitLinks == s.pre.transitLinks
    ensures !Skips(s.pre.matched, k) ==>
      && EndsAssigned(s.pre.matched, s.placed, k, s.pre.counter) && s.placed[k].Some? && s.placed[k + 1].Some?
      && PathFromTo(s.edgesAfter, s.placed[k].value, s.placed[k + 1].value, s.path)
      && s.post.matched == ReResolve(s.placed, stops, s.post.transitNodes, s.post.within, dist)
  {
    if SameNode(s.src, s.tgt) {
      AdvanceNothing(s.pre, s.post, attrs, s.nodes, s.edges, s.edgesAfter);
    } else if Linked(s.pre.matched, k, s.edges) {
      ReResolveKeeps(s.pre, s.nodes, stops, dist);
      AdvanceNothing(s.pre, s.post, attrs, s.nodes, s.edges, s.edgesAfter);
    } else {
      GapStepFacts(s, k, stops, attrs, dist);
    }
  }

  /** The loop's record so far: the node sequence, the counter and the link
      registry are what the steps made of the starting state, and every
      step's walk runs along the starting edges and the new links. */
  ghost predicate Traced(st0: RouteState, st: RouteState, trace: seq<PairStep>, edges0: set<Edge>)
    requires |st.transitLinks| >= |st0.transitLinks|
  {
    && st.nodeSeq == StitchAll(trace)
    && st.counter == st0.counter + FreshSum(trace)
    && |st.transitLinks| == |st0.transitLinks| + 2 * GapCount(trace)
    && forall k :: 0 <= k < |trace| ==> StepOk(trace[k], edges0 + Pairs(st.transitLinks[|st0.transitLinks|..]))
  }

  lemma TraceStep(st0: RouteState, st: RouteState, st': RouteState, trace: seq<PairStep>, step: PairStep,
                  attrs: Attributes, n0: set<int>, n1: set<int>, n2: set<int>,
                  edges0: set<Edge>, edges1: set<Edge>, edges': set<Edge>)
    requires Advance(st0, st, attrs, n0, n1, edges0, edges1) && Advance(st, st', attrs, n1, n2, edges1, edges')
    requires Traced(st0, st, trace, edges0)
    requires StepOk(step, edges')
    requires st'.nodeSeq == Extend(st.nodeSeq, step)
    requires st'.counter == st.counter + NewCount(step.src, step.tgt)
    requires step.gap ==> |st'.transitLinks| == |st.transitLinks| + 2
    requires !step.gap ==> st'.transitLinks == st.transitLinks
    ensures Traced(st0, st', trace + [step], edges0)
  {
    var t := trace + [step];
    assert t[..|t| - 1] == trace && t[|t| - 1] == step;
    AdvanceTrans(st0, st, st', attrs, n0, n1, n2, edges0, edges1, edges');
    SlicePairs(st0.transitLinks, st.transitLinks, st'.transitLinks);
    var more := edges0 + Pairs(st'.transitLinks[|st0.transitLinks|..]);
    forall k | 0 <= k < |t| ensures StepOk(t[k], more) {
      if k < |trace| {
        StepGrows(trace[k], edges0 + Pairs(st.transitLinks[|st0.transitLinks|..]), more);
      } else {
        StepGrows(step, edges', more);
      }
    }
  }

  /** The steps chain up: the first starts from the loop's starting state
      and graph, each later one from where its predecessor ended, and the
      current state and graph are where the last one ended. */
  ghost predicate Anchored(st0: RouteState, st: RouteState, trace: seq<PairStep>,
                           nodes0: set<int>, nodes: set<int>, edges0: set<Edge>, edges: set<Edge>) {
    && (if trace == [] then st == st0 && nodes == nodes0 && edges == edges0
        else
          && trace[0].pre == st0 && trace[0].nodes == nodes0 && trace[0].edges == edges0
          && var last := trace[|trace| - 1];
          st == last.post && nodes == last.nodesAfter && edges == last.edgesAfter)
    && (forall k :: 0 <= k < |trace| - 1 ==>
          trace[k + 1].pre == trace[k].post && trace[k + 1].nodes == trace[k].nodesAfter
          && trace[k + 1].edges == trace[k].edgesAfter)
  }

  /** Step `k` handled pair `k`, for every step. */
  ghost predicate Stepped(trace: seq<PairStep>, stops: seq<Point>, attrs: Attributes, dist: Distance) {
    forall k :: 0 <= k < |trace| ==> StepSpec(trace[k], k, stops, attrs, dist)
  }

  lemma AnchorStep(st0: RouteState, st: RouteState, st': RouteState, trace: seq<PairStep>, step: PairStep,
                   nodes0: set<int>, nodes: set<int>, nodes': set<int>, edges0: set<Edge>, edges: set<Edge>, edges': set<Edge>)
    requires Anchored(st0, st, trace, nodes0, nodes, edges0, edges)
    requires Snapshot(step, st, st', nodes, nodes', edges, edges')
    ensures Anchored(st0, st', trace + [step], nodes0, nodes', edges0, edges')
  {
    var t := trace + [step];
    assert forall k :: 0 <= k < |trace| ==> t[k] == trace[k];
  }

  lemma SteppedStep(trace: seq<PairStep>, step: PairStep, stops: seq<Point>, attrs: Attributes, dist: Distance)
    requires Stepped(trace, stops, attrs, dist) && StepSpec(step, |trace|, stops, attrs, dist)
    ensures Stepped(trace + [step], stops, attrs, dist)
  {
    var t := trace + [step];
    assert forall k :: 0 <= k < |trace| ==> t[k] == trace[k];
  }

  /** The state of `create_node_seq`'s loop after `ind` pairs. */
  ghost predicate Looping(st0: RouteState, st: RouteState, trace: seq<PairStep>, ind: nat, stops: seq<Point>, attrs: Attributes,
                          dist: Distance, nodes0: set<int>, nodes: set<int>, edges0: set<Edge>, edges: set<Edge>)
  {
    && |st.matched| == |stops| && Consistent(st, nodes)
    && Advance(st0, st, attrs, nodes0, nodes, edges0, edges)
    && |trace| == ind && (ind == 0 || ind < |stops|) && (ind == 0 ==> st == st0)
    && Anchored(st0, st, trace, nodes0, nodes, edges0, edges) && Stepped(trace, stops, attrs, dist)
    && Traced(st0, st, trace, edges0)
  }

  /** The body of `create_node_seq`'s loop: processes pair `ind` and records it. */
  method NextPair(g: Graph, st0: RouteState, st: RouteState, ind: nat, stops: seq<Point>, attrs: Attributes, dist: Distance,
                  ghost trace: seq<PairStep>, ghost nodes0: set<int>, ghost edges0: set<Edge>)
    returns (r: Result<RouteState>, ghost trace': seq<PairStep>)
    requires ind + 1 < |stops| && Looping(st0, st, trace, ind, stops, attrs, dist, nodes0, g.nodes, edges0, g.edges)
    modifies g
    ensures r.Err? ==> r.fault == NotFound || r.fault == EmptySequence
    ensures r.Ok? ==> Looping(st0, r.value, trace', ind + 1, stops, attrs, dist, nodes0, g.nodes, edges0, g.edges)
  {
    ghost var nodes, edges := g.nodes, g.edges;
    ghost var step;
    r, step := ProcessPair(g, st, ind, stops, attrs, dist);
    trace' := trace + [step];
    if r.Ok? {
      StepFacts(step, ind, stops, attrs, dist);
      TraceStep(st0, st, r.value, trace, step, attrs, nodes0, nodes, g.nodes, edges0, edges, g.edges);
      AnchorStep(st0, st, r.value, trace, step, nodes0, nodes, g.nodes, edges0, edges, g.edges);
      SteppedStep(trace, step, stops, attrs, dist);
      AdvanceTrans(st0, st, r.value, attrs, nodes0, nodes, g.nodes, edges0, edges, g.edges);
    }
  }

  /** `create_node_seq`: processes every consecutive stop pair in order,
      starting from an empty node sequence; the first failed gap aborts. The
      ghost trace records what each pair did. */
  method CreateNodeSeq(g: Graph, st0: RouteState, stops: seq<Point>, attrs: Attributes, dist: Distance)
    returns (r: Result<RouteState>, ghost trace: seq<PairStep>)
    requires |st0.matched| == |stops| && st0.nodeSeq == [] && Consistent(st0, g.nodes)
    modifies g
    ensures r.Err? ==> r.fault == NotFound || r.fault == EmptySequence
    ensures r.Ok? ==> Consistent(r.value, g.nodes) && Advance(st0, r.value, attrs, old(g.nodes), g.nodes, old(g.edges), g.edges)
    ensures r.Ok? ==> forall x :: x in g.nodes - old(g.nodes) ==> st0.counter <= x < r.value.counter
    ensures r.Ok? ==> |trace| == (if |stops| < 2 then 0 else |stops| - 1)
    ensures r.Ok? && |stops| >= 2 ==> trace[0].src == st0.matched[0] && trace[0].tgt == st0.matched[1]
    ensures r.Ok? ==> Anchored(st0, r.value, trace, old(g.nodes), g.nodes, old(g.edges), g.edges)
    ensures r.Ok? ==> Stepped(trace, stops, attrs, dist) && Traced(st0, r.value, trace, old(g.edges))
  {
    var st := st0;
    var ind := 0;
    trace := [];
    AdvanceNothing(st0, st0, attrs, g.nodes, g.edges, g.edges);
    assert st0.transitLinks[|st0.transitLinks|..] == [];
    while ind + 1 < |stops|
      invariant Looping(st0, st, trace, ind, stops, attrs, dist, old(g.nodes), g.nodes, old(g.edges), g.edges)
    {
      var pr;
      pr, trace := NextPair(g, st0, st, ind, stops, attrs, dist, trace, old(g.nodes), old(g.edges));
      if pr.Err? {
        return Err(pr.fault), trace;
      }
      st := pr.value;
      ind := ind + 1;
    }
    NewNodesNumbered(st0, st, old(g.nodes), g.nodes);
    r := Ok(st);
  }

  lemma {:induction false} NoGapCounted(trace: seq<PairStep>)
    requires forall k :: 0 <= k < |trace| ==> !trace[k].gap
    ensures GapCount(trace) == 0
  {
    if trace != [] {
      NoGapCounted(trace[..|trace| - 1]);
    }
  }

  /** A first route none of whose pairs needed a gap leaves the link
      registry empty, and the merge that follows the route then fails. */
  lemma NoGapMergeFails(st0: RouteState, st: RouteState, trace: seq<PairStep>, edges0: set<Edge>,
                        nodes: seq<NodeRow>, links: seq<LinkRow>)
    requires |st.transitLinks| >= |st0.transitLinks| && Traced(st0, st, trace, edges0)
    requires st0.transitLinks == [] && forall k :: 0 <= k < |trace| ==> !trace[k].gap
    ensures st.transitLinks == [] && MergeNetwork(nodes, links, st.transitNodes, st.transitLinks).Err?
  {
    NoGapCounted(trace);
  }

  /** Every node the loop adds to the graph is a fresh id handed out by it. */
  lemma NewNodesNumbered(st0: RouteState, st: RouteState, nodes: set<int>, nodes': set<int>)
    requires st0.counter <= st.counter
    requires NumberedFrom(st0.transitNodes, st.transitNodes, st0.counter, st.counter - st0.counter)
    requires nodes' == nodes + Ids(st.transitNodes[|st0.transitNodes|..])
    ensures forall x :: x in nodes' - nodes ==> st0.counter <= x < st.counter
  {
    forall x | x in nodes' - nodes ensures st0.counter <= x < st.counter {
      var row :| row in st.transitNodes[|st0.transitNodes|..] && row.n == x;
      var k :| 0 <= k < |st.transitNodes| - |st0.transitNodes| && st.transitNodes[|st0.transitNodes|..][k] == row;
      assert st.transitNodes[|st0.transitNodes| + k] == row;
    }
  }
}
