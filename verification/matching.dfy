/** Stop-to-node matching: the nearest node under an inclusive distance
    threshold, the matching of a line's stops, the re-resolution of stops
    against transit-only nodes and the sign convention of the output
    node sequence. */
module Matching {
  import opened Wrappers
  import opened Seqs
  import opened Tables

  /** The distance between two points, supplied by the caller. */
  type Distance = (Point, Point) -> real

  /** A search radius; `Unbounded` is the default `np.inf`. */
  datatype Threshold = Unbounded | AtMost(limit: real)

  predicate Within(d: real, t: Threshold) {
    t.Unbounded? || d <= t.limit
  }

  /** The snap radius used against network and transit-only nodes. */
  const SnapRadius: real := 328.0

  /** `i` is the first position of minimum distance from `p`. */
  predicate FirstNearest(p: Point, rows: seq<NodeRow>, dist: Distance, i: int) {
    && 0 <= i < |rows|
    && (forall j :: 0 <= j < |rows| ==> dist(p, rows[i].at) <= dist(p, rows[j].at))
    && (forall j :: 0 <= j < i ==> dist(p, rows[j].at) > dist(p, rows[i].at))
  }

  /** `np.argmin` over the distances from `p` to `rows[lo..]`. */
  function ArgMin(p: Point, rows: seq<NodeRow>, dist: Distance, lo: nat): (i: nat)
    requires lo < |rows|
    ensures lo <= i < |rows|
    ensures forall j :: lo <= j < |rows| ==> dist(p, rows[i].at) <= dist(p, rows[j].at)
    ensures forall j :: lo <= j < i ==> dist(p, rows[j].at) > dist(p, rows[i].at)
    decreases |rows| - lo
  {
    if lo == |rows| - 1 then lo
    else
      var k := ArgMin(p, rows, dist, lo + 1);
      if dist(p, rows[lo].at) <= dist(p, rows[k].at) then lo else k
  }

  /** `nearest_node_to_stop`: the id of the first nearest row when its
      distance is within the threshold (inclusive), `None` otherwise; an
      empty table fails (the minimum of no distances). */
  function NearestNode(p: Point, rows: seq<NodeRow>, threshold: Threshold, dist: Distance): (r: Result<Option<int>>)
    ensures r.Err? <==> rows == []
    ensures r.Err? ==> r.fault == EmptySequence
    ensures r.Ok? && r.value.Some? ==>
      exists i :: FirstNearest(p, rows, dist, i) && rows[i].n == r.value.value && Within(dist(p, rows[i].at), threshold)
    ensures r.Ok? ==> (r.value.None? <==> forall j :: 0 <= j < |rows| ==> !Within(dist(p, rows[j].at), threshold))
  {
    if rows == [] then Err(EmptySequence)
    else
      var i := ArgMin(p, rows, dist, 0);
      assert FirstNearest(p, rows, dist, i);
      if Within(dist(p, rows[i].at), threshold) then Ok(Some(rows[i].n)) else Ok(None)
  }

  /** A match, when there is one, is the id of a row of the table. */
  lemma NearestIsRow(p: Point, rows: seq<NodeRow>, threshold: Threshold, dist: Distance)
    requires NearestNode(p, rows, threshold, dist).Ok?
    ensures var r := NearestNode(p, rows, threshold, dist).value;
      r.Some? ==> r.value in Ids(rows)
  {
    var r := NearestNode(p, rows, threshold, dist).value;
    if r.Some? {
      var i :| FirstNearest(p, rows, dist, i) && rows[i].n == r.value && Within(dist(p, rows[i].at), threshold);
      assert rows[i] in rows;
    }
  }

  /** Widening the threshold never loses a match, and a match found under
      the narrower threshold is kept. */
  lemma NearestMonotone(p: Point, rows: seq<NodeRow>, lo: real, hi: real, dist: Distance)
    requires lo <= hi
    ensures var a := NearestNode(p, rows, AtMost(lo), dist);
      var b := NearestNode(p, rows, AtMost(hi), dist);
      a.Ok? && a.value.Some? ==> b == a
  {
  }

  /** `match_stops_and_nodes`: every stop of the line, in stop order, matched
      against the table; the stops are given already ordered by
      `stop_sequence`. */
  function MatchStops(stops: seq<Point>, rows: seq<NodeRow>, threshold: Threshold, dist: Distance): (r: Result<seq<Option<int>>>)
    ensures r.Err? <==> stops != [] && rows == []
    ensures r.Ok? ==> |r.value| == |stops|
    ensures r.Ok? ==> forall i :: 0 <= i < |stops| ==> NearestNode(stops[i], rows, threshold, dist) == Ok(r.value[i])
    ensures r.Ok? ==> forall i :: 0 <= i < |stops| && r.value[i].Some? ==> r.value[i].value in Ids(rows)
  {
    if stops == [] then Ok([])
    else if rows == [] then Err(EmptySequence)
    else
      var m := seq(|stops|, i requires 0 <= i < |stops| => NearestNode(stops[i], rows, threshold, dist).value);
      assert forall i :: 0 <= i < |stops| && m[i].Some? ==> m[i].value in Ids(rows) by {
        forall i | 0 <= i < |stops| ensures m[i].Some? ==> m[i].value in Ids(rows) {
          NearestIsRow(stops[i], rows, threshold, dist);
        }
      }
      Ok(m)
  }

  /** The transit-only rows that are also nodes near the current shape. */
  function TransitCandidates(transit: seq<NodeRow>, within: seq<NodeRow>): (c: seq<NodeRow>)
    ensures forall x :: x in c <==> x in transit && x.n in Ids(within)
    ensures Ids(c) <= Ids(transit) * Ids(within)
  {
    var ids := Ids(within);
    Filter(transit, (x: NodeRow) => x.n in ids)
  }

  /** `match_stops_and_transit_nodes`: each stop that has a candidate
      transit-only node within the snap radius takes that node, whatever
      it was matched to before; every other stop keeps its match. */
  function ReResolve(matched: seq<Option<int>>, stops: seq<Point>, transit: seq<NodeRow>,
                     within: seq<NodeRow>, dist: Distance): (r: seq<Option<int>>)
    requires |matched| == |stops|
    ensures |r| == |matched|
    ensures forall i :: 0 <= i < |r| && r[i] != matched[i] ==>
      r[i].Some? && r[i].value in Ids(transit) && r[i].value in Ids(within)
    ensures forall i :: 0 <= i < |r| && matched[i].Some? ==> r[i].Some?
    // The two clauses above, and ReResolveIdempotent, do not rest on the one below.
    ensures forall i :: 0 <= i < |r| ==>
      r[i] == (var t := Retarget(stops[i], transit, within, dist); if t.Some? then t else matched[i])
  {
    var cands := TransitCandidates(transit, within);
    if cands == [] then matched
    else
      var m := MatchStops(stops, cands, AtMost(SnapRadius), dist).value;
      seq(|matched|, i requires 0 <= i < |matched| => if m[i].Some? then m[i] else matched[i])
  }

  /** The transit-only node a stop is moved to by re-resolution, if any. */
  function Retarget(p: Point, transit: seq<NodeRow>, within: seq<NodeRow>, dist: Distance): (r: Option<int>)
    ensures r.Some? ==> r.value in Ids(transit) && r.value in Ids(within)
  {
    var cands := TransitCandidates(transit, within);
    if cands == [] then None
    else
      NearestIsRow(p, cands, AtMost(SnapRadius), dist);
      NearestNode(p, cands, AtMost(SnapRadius), dist).value
  }

  /** Re-resolving a second time against the same registries changes nothing. */
  lemma ReResolveIdempotent(matched: seq<Option<int>>, stops: seq<Point>, transit: seq<NodeRow>,
                            within: seq<NodeRow>, dist: Distance)
    requires |matched| == |stops|
    ensures ReResolve(ReResolve(matched, stops, transit, within, dist), stops, transit, within, dist)
         == ReResolve(matched, stops, transit, within, dist)
  {
  }

  // ---------------------------------------------------------------------
  // Sign convention of `create_node_and_link_seq_gdf`.

  /** The ids the route's stops are matched to. */
  function StopIds(matched: seq<Option<int>>): set<int> {
    set o | o in matched && o.Some? :: o.value
  }

  /** A stop node keeps its id; any other node id becomes `-abs(id)`. */
  function Sign(x: int, stopIds: set<int>): int {
    if x in stopIds then x else 0 - Abs(x)
  }

  function SignSeq(xs: seq<int>, stopIds: set<int>): (r: seq<int>)
    ensures |r| == |xs|
    ensures forall i :: 0 <= i < |xs| ==> Abs(r[i]) == Abs(xs[i])
    ensures forall i :: 0 <= i < |xs| ==> (xs[i] in stopIds ==> r[i] == xs[i]) && (xs[i] !in stopIds ==> r[i] <= 0)
  {
    seq(|xs|, i requires 0 <= i < |xs| => Sign(xs[i], stopIds))
  }

  /** With positive node ids, a signed id is positive exactly at stop nodes. */
  lemma SignMarksStops(xs: seq<int>, stopIds: set<int>)
    requires forall i :: 0 <= i < |xs| ==> xs[i] > 0
    ensures forall i :: 0 <= i < |xs| ==> (SignSeq(xs, stopIds)[i] > 0 <==> xs[i] in stopIds)
  {
  }

  /** Signing a signed sequence again changes nothing. */
  lemma SignIdempotent(xs: seq<int>, stopIds: set<int>)
    ensures SignSeq(SignSeq(xs, stopIds), stopIds) == SignSeq(xs, stopIds)
  {
  }

  /** The link columns `A` = seq[:-1] and `B` = seq[1:] signed one by one are
      the signed node sequence shifted: node and link signs agree. */
  lemma SignLinksAgree(xs: seq<int>, stopIds: set<int>)
    requires |xs| > 0
    ensures SignSeq(xs[..|xs| - 1], stopIds) == SignSeq(xs, stopIds)[..|xs| - 1]
    ensures SignSeq(xs[1..], stopIds) == SignSeq(xs, stopIds)[1..]
  {
  }
}
