/** Bracketing a stop pair on the sampled route shape, and building the
    candidate and full links that close a gap between them. */
module ShapeGap {
  import opened Wrappers
  import opened Seqs
  import opened Tables
  import opened Matching

  /** A stop of the pair being sequenced: its matched node id, if any, and
      its geometry. */
  datatype Endpoint = Endpoint(n: Option<int>, at: Point)

  /** The search radii 164, 246, ..., 820, tried in this order. */
  function Radius(k: nat): real {
    (164 + 82 * k) as real
  }

  const RadiusCount: nat := 9

  /** Sampled shape points carry strictly increasing ids `N` (0, 1, 2, ...). */
  predicate Increasing(shape: seq<NodeRow>) {
    forall i, j :: 0 <= i < j < |shape| ==> shape[i].n < shape[j].n
  }

  lemma IncreasingCons(x: NodeRow, rest: seq<NodeRow>)
    requires Increasing(rest) && forall y :: y in rest ==> x.n < y.n
    ensures Increasing([x] + rest)
  {
    var r := [x] + rest;
    forall i, j | 0 <= i < j < |r| ensures r[i].n < r[j].n {
      if i == 0 { assert r[j] in rest; }
      else { assert r[i] == rest[i - 1] && r[j] == rest[j - 1]; }
    }
  }

  lemma HeadBelowTail(shape: seq<NodeRow>)
    requires shape != [] && Increasing(shape)
    ensures Increasing(shape[1..])
    ensures forall y :: y in shape[1..] ==> shape[0].n < y.n
  {
    forall y | y in shape[1..] ensures shape[0].n < y.n {
      var j :| 0 <= j < |shape[1..]| && shape[1..][j] == y;
      assert shape[j + 1] == y;
    }
  }

  lemma {:induction false} FilterIncreasing(shape: seq<NodeRow>, keep: NodeRow -> bool)
    requires Increasing(shape)
    ensures Increasing(Filter(shape, keep))
  {
    if shape != [] {
      HeadBelowTail(shape);
      var rest := Filter(shape[1..], keep);
      FilterIncreasing(shape[1..], keep);
      if keep(shape[0]) {
        IncreasingCons(shape[0], rest);
      }
    }
  }

  /** The temporary two-row table: a missing source id reads 1 and a
      missing target id reads 2. */
  function EndpointTable(src: Endpoint, tgt: Endpoint): (t: seq<NodeRow>)
    ensures |t| == 2 && t[0].at == src.at && t[1].at == tgt.at
    ensures src.n.Some? ==> t[0].n == src.n.value
    ensures src.n.None? ==> t[0].n == 1
    ensures tgt.n.Some? ==> t[1].n == tgt.n.value
    ensures tgt.n.None? ==> t[1].n == 2
  {
    [NodeRow(src.n.GetOr(1), src.at), NodeRow(tgt.n.GetOr(2), tgt.at)]
  }

  /** The `NEAR_SHP_POINTS` column for one radius: which of the two stops,
      if either, each shape point is nearest to within that radius. */
  function NearColumn(shape: seq<NodeRow>, table: seq<NodeRow>, radius: real, dist: Distance): (c: seq<Option<int>>)
    requires |table| == 2
    ensures |c| == |shape|
    ensures forall k :: 0 <= k < |c| ==> NearestNode(shape[k].at, table, AtMost(radius), dist) == Ok(c[k])
  {
    seq(|shape|, k requires 0 <= k < |shape| => NearestNode(shape[k].at, table, AtMost(radius), dist).value)
  }

  /** Position `j` is near the target and some position up to it is near
      the source. */
  predicate Closes(c: seq<Option<int>>, sid: int, tid: int, j: int) {
    0 <= j < |c| && c[j] == Some(tid) && exists i :: 0 <= i <= j && c[i] == Some(sid)
  }

  /** `(i, j)` is what the scan of one column finds: `j` is the first
      closing position and `i` the last source-near position up to it. */
  predicate BracketAt(c: seq<Option<int>>, sid: int, tid: int, i: int, j: int) {
    && Closes(c, sid, tid, j)
    && (forall j' :: 0 <= j' < j ==> !Closes(c, sid, tid, j'))
    && 0 <= i <= j && c[i] == Some(sid)
    && (forall i' :: i < i' <= j ==> c[i'] != Some(sid))
  }

  predicate NoClose(c: seq<Option<int>>, sid: int, tid: int) {
    forall j :: 0 <= j < |c| ==> !Closes(c, sid, tid, j)
  }

  /** The inner loop over one radius: remembers the latest source-near
      point and stops at the first target-near point that follows one. */
  method ScanColumn(c: seq<Option<int>>, sid: int, tid: int) returns (s: Option<nat>, t: Option<nat>)
    ensures t.Some? ==> s.Some? && BracketAt(c, sid, tid, s.value, t.value)
    ensures t.None? ==> NoClose(c, sid, tid)
  {
    s, t := None, None;
    var k := 0;
    while k < |c| && t.None?
      invariant 0 <= k <= |c|
      invariant t.None? ==> forall j :: 0 <= j < k ==> !Closes(c, sid, tid, j)
      invariant t.None? && s.Some? ==> s.value < k && c[s.value] == Some(sid) && forall i' :: s.value < i' < k ==> c[i'] != Some(sid)
      invariant t.None? && s.None? ==> forall i' :: 0 <= i' < k ==> c[i'] != Some(sid)
      invariant t.Some? ==> s.Some? && BracketAt(c, sid, tid, s.value, t.value)
    {
      if c[k] == Some(sid) {
        s := Some(k);
      }
      if s.Some? && c[k] == Some(tid) {
        t := Some(k);
        assert Closes(c, sid, tid, k);
      }
      k := k + 1;
    }
  }

  /** The near columns of the nine radii, in radius order. */
  function Columns(shape: seq<NodeRow>, src: Endpoint, tgt: Endpoint, dist: Distance): (cs: seq<seq<Option<int>>>)
    ensures |cs| == RadiusCount && forall k :: 0 <= k < RadiusCount ==> |cs[k]| == |shape|
  {
    seq(RadiusCount, k requires 0 <= k => NearColumn(shape, EndpointTable(src, tgt), Radius(k), dist))
  }

  /** Where a bracket was found: the radius number and the positions, in the
      shape cursor, of the source and target bracket points. */
  datatype Bracket = Bracket(radius: nat, s: nat, t: nat)

  /** Tries the radii in increasing order and keeps the bracket found at
      the first radius that closes; when none does, the pair has no
      bracket. */
  method FindBracket(shape: seq<NodeRow>, src: Endpoint, tgt: Endpoint, dist: Distance) returns (r: Result<Bracket>)
    ensures r.Ok? ==> var b := r.value; var ids := EndpointTable(src, tgt); var cs := Columns(shape, src, tgt, dist);
      && b.radius < RadiusCount
      && BracketAt(cs[b.radius], ids[0].n, ids[1].n, b.s, b.t)
      && (forall k :: 0 <= k < b.radius ==> NoClose(cs[k], ids[0].n, ids[1].n))
    ensures r.Err? ==> r.fault == NotFound
    ensures r.Err? ==> var ids := EndpointTable(src, tgt); var cs := Columns(shape, src, tgt, dist);
      forall k :: 0 <= k < RadiusCount ==> NoClose(cs[k], ids[0].n, ids[1].n)
  {
    var table := EndpointTable(src, tgt);
    var sid, tid := table[0].n, table[1].n;
    var cs := Columns(shape, src, tgt, dist);
    for k := 0 to RadiusCount
      invariant forall k' :: 0 <= k' < k ==> NoClose(cs[k'], sid, tid)
    {
      var s, t := ScanColumn(cs[k], sid, tid);
      if t.Some? {
        return Ok(Bracket(k, s.value, t.value));
      }
    }
    return Err(NotFound);
  }

  /** The shape points of a gap, the shape cursor left for the next pairs
      and the ids of the two bracket points. */
  datatype Gap = Gap(points: seq<NodeRow>, cursor: seq<NodeRow>, s: int, t: int)

  /** The shape points with ids from `s` to `t`, and the cursor cut down to
      the points from `t` on (the cursor only moves forward). */
  function CutGap(shape: seq<NodeRow>, s: int, t: int): (g: Gap)
    ensures g.s == s && g.t == t
    ensures forall p :: p in g.points <==> p in shape && s <= p.n <= t
    ensures forall p :: p in g.cursor <==> p in shape && p.n >= t
    ensures |g.cursor| <= |shape|
  {
    Gap(Filter(shape, (p: NodeRow) => s <= p.n <= t), Filter(shape, (p: NodeRow) => p.n >= t), s, t)
  }

  /** Cutting an increasing shape between two of its points gives a gap
      that holds both bracket points and an increasing cursor that starts
      at the target bracket point. */
  lemma CutGapFacts(shape: seq<NodeRow>, i: nat, j: nat)
    requires Increasing(shape) && i <= j < |shape|
    ensures var g := CutGap(shape, shape[i].n, shape[j].n);
      && g.s <= g.t
      && shape[i] in g.points && shape[j] in g.points && shape[j] in g.cursor
      && Increasing(g.points) && Increasing(g.cursor)
  {
    FilterIncreasing(shape, (p: NodeRow) => shape[i].n <= p.n <= shape[j].n);
    FilterIncreasing(shape, (p: NodeRow) => p.n >= shape[j].n);
  }

  /** `find_near_shp_points_to_source_target`: the bracket of the first
      radius that has one, and the gap and cursor it cuts. */
  method BracketGap(shape: seq<NodeRow>, src: Endpoint, tgt: Endpoint, dist: Distance) returns (r: Result<Gap>, b: Bracket)
    ensures r.Err? ==> r.fault == NotFound
    ensures r.Err? ==> var ids := EndpointTable(src, tgt); var cs := Columns(shape, src, tgt, dist);
      forall k :: 0 <= k < RadiusCount ==> NoClose(cs[k], ids[0].n, ids[1].n)
    ensures r.Ok? ==> var ids := EndpointTable(src, tgt); var cs := Columns(shape, src, tgt, dist);
      && b.radius < RadiusCount && b.s <= b.t < |shape|
      && BracketAt(cs[b.radius], ids[0].n, ids[1].n, b.s, b.t)
      && (forall k :: 0 <= k < b.radius ==> NoClose(cs[k], ids[0].n, ids[1].n))
      && r.value == CutGap(shape, shape[b.s].n, shape[b.t].n)
  {
    var found := FindBracket(shape, src, tgt, dist);
    if found.Err? {
      return Err(found.fault), Bracket(0, 0, 0);
    }
    b := found.value;
    return Ok(CutGap(shape, shape[b.s].n, shape[b.t].n)), b;
  }

  // ---------------------------------------------------------------------
  // `create_new_link`.

  function Points(rows: seq<NodeRow>): (ps: seq<Point>)
    ensures |ps| == |rows| && forall k :: 0 <= k < |rows| ==> ps[k] == rows[k].at
  {
    seq(|rows|, k requires 0 <= k < |rows| => rows[k].at)
  }

  /** The `NEAR_NET_NODE` column: each gap point's nearest node near the
      shape within the snap radius. */
  function NearNet(gap: seq<NodeRow>, within: seq<NodeRow>, dist: Distance): (r: Result<seq<Option<int>>>)
    ensures r.Err? <==> gap != [] && within == []
    ensures r.Ok? ==> |r.value| == |gap| && forall k :: 0 <= k < |gap| && r.value[k].Some? ==> r.value[k].value in Ids(within)
  {
    MatchStops(Points(gap), within, AtMost(SnapRadius), dist)
  }

  /** A gap point snapped to a node other than `x`. */
  predicate Other(o: Option<int>, x: int) {
    o.Some? && o.value != x
  }

  function FirstOther(near: seq<Option<int>>, x: int): (k: Option<nat>)
    ensures k.Some? ==> k.value < |near| && Other(near[k.value], x)
    ensures k.Some? ==> forall j :: 0 <= j < k.value ==> !Other(near[j], x)
    ensures k.None? ==> forall j :: 0 <= j < |near| ==> !Other(near[j], x)
  {
    if near == [] then None
    else if Other(near[0], x) then Some(0)
    else match FirstOther(near[1..], x)
      case None => None
      case Some(k) => Some(k + 1)
  }

  function LastOther(near: seq<Option<int>>, x: int): (k: Option<nat>)
    ensures k.Some? ==> k.value < |near| && Other(near[k.value], x)
    ensures k.Some? ==> forall j :: k.value < j < |near| ==> !Other(near[j], x)
    ensures k.None? ==> forall j :: 0 <= j < |near| ==> !Other(near[j], x)
  {
    if near == [] then None
    else if Other(near[|near| - 1], x) then Some(|near| - 1)
    else LastOther(near[..|near| - 1], x)
  }

  /** The first row with id `n` (`.loc[N == n].iloc[0]`). */
  function RowOf(rows: seq<NodeRow>, n: int): (k: nat)
    requires n in Ids(rows)
    ensures k < |rows| && rows[k].n == n && forall j :: 0 <= j < k ==> rows[j].n != n
  {
    if rows[0].n == n then 0
    else
      assert n in Ids(rows[1..]) by { var x :| x in rows && x.n == n; assert x in rows[1..]; }
      1 + RowOf(rows[1..], n)
  }

  /** The endpoints chosen for a gap link, the candidate polyline and the
      full-gap polyline used when the candidate is rejected. */
  datatype NewLink = NewLink(a: int, b: int, link: seq<Point>, full: seq<Point>)

  /** Which rule `create_new_link` applies. */
  datatype Substitution = KeepBoth | NewTarget(k: nat) | NewSource(k: nat)

  function Rule(srcN: int, tgtN: int, transit: seq<NodeRow>, near: seq<Option<int>>): (u: Substitution)
    ensures u.NewTarget? ==> u.k < |near| && Other(near[u.k], srcN)
    ensures u.NewSource? ==> u.k < |near| && Other(near[u.k], tgtN)
  {
    var srcT := srcN in Ids(transit);
    var tgtT := tgtN in Ids(transit);
    if forall k :: 0 <= k < |near| ==> near[k].None? then KeepBoth
    else if srcT && !tgtT then (if FirstOther(near, srcN).Some? then NewTarget(FirstOther(near, srcN).value) else KeepBoth)
    else if !srcT && tgtT then (if LastOther(near, tgtN).Some? then NewSource(LastOther(near, tgtN).value) else KeepBoth)
    else KeepBoth
  }

  /** The link `create_new_link` builds under rule `u`. */
  predicate BuiltBy(u: Substitution, srcN: int, srcAt: Point, tgtN: int, tgtAt: Point, within: seq<NodeRow>,
                    gap: seq<NodeRow>, near: seq<Option<int>>, l: NewLink) {
    && |near| == |gap| && |l.link| >= 2
    && l.full == [l.link[0]] + Points(gap) + [l.link[|l.link| - 1]]
    && match u
       case KeepBoth => l.a == srcN && l.b == tgtN && l.link == [srcAt] + Points(gap) + [tgtAt]
       case NewTarget(k) =>
         && k < |gap| && near[k].Some? && l.a == srcN && l.b == near[k].value && l.b in Ids(within)
         && l.link == [srcAt] + Points(gap[..k + 1]) + [within[RowOf(within, l.b)].at]
       case NewSource(k) =>
         && k < |gap| && near[k].Some? && l.a == near[k].value && l.b == tgtN && l.a in Ids(within)
         && l.link == [within[RowOf(within, l.a)].at] + Points(gap[k..]) + [tgtAt]
  }

  /** `create_new_link`. When only the source is transit-only, the link ends
      at the first gap point snapped to another node and that node becomes
      `B`; when only the target is, the link starts at the last such point
      and its node becomes `A`; otherwise `A`, `B` are the pair's own nodes.
      The full link spans the whole gap between the chosen end geometries.
      Snapping the gap points fails when there is no node near the shape. */
  function CreateNewLink(srcN: int, srcAt: Point, tgtN: int, tgtAt: Point, transit: seq<NodeRow>,
                         within: seq<NodeRow>, gap: seq<NodeRow>, dist: Distance): (r: Result<NewLink>)
    requires |gap| > 0
    ensures r.Err? <==> within == []
    ensures r.Ok? ==> NearNet(gap, within, dist).Ok? && var near := NearNet(gap, within, dist).value;
      BuiltBy(Rule(srcN, tgtN, transit, near), srcN, srcAt, tgtN, tgtAt, within, gap, near, r.value)
  {
    var nn := NearNet(gap, within, dist);
    if nn.Err? then Err(nn.fault)
    else Ok(ApplyRule(Rule(srcN, tgtN, transit, nn.value), srcN, srcAt, tgtN, tgtAt, within, gap, nn.value))
  }

  /** The link under rule `u`, for snapped gap points `near`. */
  function ApplyRule(u: Substitution, srcN: int, srcAt: Point, tgtN: int, tgtAt: Point, within: seq<NodeRow>,
                     gap: seq<NodeRow>, near: seq<Option<int>>): (l: NewLink)
    requires |near| == |gap| > 0
    requires forall k :: 0 <= k < |gap| && near[k].Some? ==> near[k].value in Ids(within)
    requires u.NewTarget? ==> u.k < |near| && near[u.k].Some?
    requires u.NewSource? ==> u.k < |near| && near[u.k].Some?
    ensures BuiltBy(u, srcN, srcAt, tgtN, tgtAt, within, gap, near, l)
  {
    match u
    case KeepBoth => Keep(srcN, srcAt, tgtN, tgtAt, gap)
    case NewTarget(k) => SubstituteTarget(srcN, srcAt, within, gap, near, k)
    case NewSource(k) => SubstituteSource(tgtN, tgtAt, within, gap, near, k)
  }

  function Keep(srcN: int, srcAt: Point, tgtN: int, tgtAt: Point, gap: seq<NodeRow>): (l: NewLink)
    ensures l.a == srcN && l.b == tgtN && l.link == l.full
    ensures l.link == [srcAt] + Points(gap) + [tgtAt]
  {
    NewLink(srcN, tgtN, [srcAt] + Points(gap) + [tgtAt], [srcAt] + Points(gap) + [tgtAt])
  }

  function SubstituteTarget(srcN: int, srcAt: Point, within: seq<NodeRow>, gap: seq<NodeRow>,
                            near: seq<Option<int>>, k: nat): (l: NewLink)
    requires k < |gap| == |near| && near[k].Some? && near[k].value in Ids(within)
    ensures l.a == srcN && l.b == near[k].value
    ensures l.link == [srcAt] + Points(gap[..k + 1]) + [within[RowOf(within, near[k].value)].at]
    ensures l.full == [l.link[0]] + Points(gap) + [l.link[|l.link| - 1]]
  {
    var at := within[RowOf(within, near[k].value)].at;
    var link := [srcAt] + Points(gap[..k + 1]) + [at];
    assert link[0] == srcAt && link[|link| - 1] == at;
    NewLink(srcN, near[k].value, link, [srcAt] + Points(gap) + [at])
  }

  function SubstituteSource(tgtN: int, tgtAt: Point, within: seq<NodeRow>, gap: seq<NodeRow>,
                            near: seq<Option<int>>, k: nat): (l: NewLink)
    requires k < |gap| == |near| && near[k].Some? && near[k].value in Ids(within)
    ensures l.a == near[k].value && l.b == tgtN
    ensures l.link == [within[RowOf(within, near[k].value)].at] + Points(gap[k..]) + [tgtAt]
    ensures l.full == [l.link[0]] + Points(gap) + [l.link[|l.link| - 1]]
  {
    var at := within[RowOf(within, near[k].value)].at;
    var link := [at] + Points(gap[k..]) + [tgtAt];
    assert link[0] == at && link[|link| - 1] == tgtAt;
    NewLink(near[k].value, tgtN, link, [at] + Points(gap) + [tgtAt])
  }

  /** The chosen ends are the pair's own nodes or nodes near the shape, and
      a pair of distinct nodes never gets a self-loop. */
  lemma NewLinkEnds(srcN: int, srcAt: Point, tgtN: int, tgtAt: Point, transit: seq<NodeRow>,
                    within: seq<NodeRow>, gap: seq<NodeRow>, dist: Distance)
    requires |gap| > 0 && within != []
    ensures var l := CreateNewLink(srcN, srcAt, tgtN, tgtAt, transit, within, gap, dist).value;
      && (l.a == srcN || l.a in Ids(within)) && (l.b == tgtN || l.b in Ids(within))
      && (srcN != tgtN ==> l.a != l.b)
      && |l.link| >= 3 && |l.full| == |gap| + 2
  {
    var near := NearNet(gap, within, dist).value;
    assert forall k :: 0 <= k < |near| && near[k].Some? ==> near[k].value in Ids(within);
  }

  /** Without a substitution the candidate is the full link, so a rejected
      candidate always comes from a substitution. */
  lemma KeepBothIsFull(srcN: int, srcAt: Point, tgtN: int, tgtAt: Point, transit: seq<NodeRow>,
                       within: seq<NodeRow>, gap: seq<NodeRow>, dist: Distance)
    requires |gap| > 0 && within != []
    requires Rule(srcN, tgtN, transit, NearNet(gap, within, dist).value).KeepBoth?
    ensures var l := CreateNewLink(srcN, srcAt, tgtN, tgtAt, transit, within, gap, dist).value;
      l.a == srcN && l.b == tgtN && l.link == l.full
  {
  }
}
