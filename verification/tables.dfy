/** Rows of the node and link tables, the `abs(A)_abs(B)` link key, the
    merge of the transit-only registries into the network tables, and the
    network cleaning by id range and facility type. */
module Tables {
  import opened Wrappers
  import opened Seqs

  /** A point geometry. Only its coordinates are modelled; distances between
      points are supplied by the caller. */
  datatype Point = Point(x: real, y: real)

  /** A caller-supplied attribute value (facility type, mode, ...). */
  datatype AttrValue = Num(n: int) | Text(t: string)

  type Attributes = map<string, AttrValue>

  /** A node row: id `N` and its geometry (`X`, `Y` are the point's coordinates). */
  datatype NodeRow = NodeRow(n: int, at: Point)

  /** A link row: endpoints `A`, `B`, the dedup key `AB`, the other attributes
      (for a transit-only link, the caller's `transit_only_attributes`) and the
      link's polyline. */
  datatype LinkRow = LinkRow(a: int, b: int, ab: string, attrs: Attributes, geom: seq<Point>)

  function Abs(i: int): nat {
    if i < 0 then -i else i
  }

  function Ids(rows: seq<NodeRow>): set<int> {
    set r | r in rows :: r.n
  }

  /** The directed pairs `(A, B)` of some link rows. */
  function Pairs(links: seq<LinkRow>): set<(int, int)> {
    set l | l in links :: (l.a, l.b)
  }

  // ---------------------------------------------------------------------
  // Decimal text of a non-negative integer (Python's `str` of an int).

  predicate IsDigit(c: char) {
    '0' <= c <= '9'
  }

  function DigitChar(d: nat): (c: char)
    requires d < 10
    ensures IsDigit(c)
  {
    (48 + d) as char
  }

  function Decimal(n: nat): (s: string)
    ensures |s| > 0 && (|s| == 1 <==> n < 10)
    ensures forall i :: 0 <= i < |s| ==> IsDigit(s[i])
  {
    if n < 10 then [DigitChar(n)] else Decimal(n / 10) + [DigitChar(n % 10)]
  }

  /** Different numbers have different decimal texts. */
  lemma {:induction false} DecimalInjective(m: nat, n: nat)
    requires Decimal(m) == Decimal(n)
    ensures m == n
  {
    var s := Decimal(m);
    if m < 10 {
      assert n < 10;
      assert s == [DigitChar(m)] && s == [DigitChar(n)];
    } else {
      assert n >= 10;
      assert Decimal(m / 10) == s[..|s| - 1] == Decimal(n / 10);
      DecimalInjective(m / 10, n / 10);
      assert DigitChar(m % 10) == s[|s| - 1] == DigitChar(n % 10);
    }
  }

  // ---------------------------------------------------------------------
  // The `AB` key: `abs(A)` and `abs(B)` as decimal text joined by '_'.

  function Key(a: int, b: int): (k: string)
    ensures '_' in k
  {
    assert (Decimal(Abs(a)) + "_" + Decimal(Abs(b)))[|Decimal(Abs(a))|] == '_';
    Decimal(Abs(a)) + "_" + Decimal(Abs(b))
  }

  /** Index of the first '_' in `s`, or |s| when there is none. */
  function FirstUnderscore(s: string): (i: nat)
    ensures i <= |s| && (i < |s| ==> s[i] == '_')
    ensures forall j :: 0 <= j < i ==> s[j] != '_'
  {
    if s == [] then 0 else if s[0] == '_' then 0 else 1 + FirstUnderscore(s[1..])
  }

  lemma SplitAtUnderscore(x: string, y: string)
    requires forall i :: 0 <= i < |x| ==> IsDigit(x[i])
    ensures FirstUnderscore(x + "_" + y) == |x|
    ensures (x + "_" + y)[..|x|] == x && (x + "_" + y)[|x| + 1..] == y
  {
    var w := x + "_" + y;
    var i := FirstUnderscore(w);
    assert w[|x|] == '_';
    assert forall j :: 0 <= j < |x| ==> w[j] == x[j];
  }

  /** Two links share a key exactly when their endpoints agree up to sign:
      the key identifies the unsigned pair (A, B). */
  lemma KeyInjective(a: int, b: int, c: int, d: int)
    ensures Key(a, b) == Key(c, d) <==> Abs(a) == Abs(c) && Abs(b) == Abs(d)
  {
    if Key(a, b) == Key(c, d) {
      var w := Key(a, b);
      SplitAtUnderscore(Decimal(Abs(a)), Decimal(Abs(b)));
      SplitAtUnderscore(Decimal(Abs(c)), Decimal(Abs(d)));
      DecimalInjective(Abs(a), Abs(c));
      DecimalInjective(Abs(b), Abs(d));
    }
  }

  /** The two directions of a gap link have different keys unless both
      endpoints have the same absolute value. */
  lemma KeyDirected(a: int, b: int)
    requires Abs(a) != Abs(b)
    ensures Key(a, b) != Key(b, a)
  {
    KeyInjective(a, b, b, a);
  }

  // ---------------------------------------------------------------------
  // Transit-only registries.

  /** Every row carries the key of its own endpoints. */
  predicate WellKeyed(links: seq<LinkRow>) {
    forall i :: 0 <= i < |links| ==> links[i].ab == Key(links[i].a, links[i].b)
  }

  /** `append_transit_only_links`: the new row stamps the caller's attributes
      and the key of its endpoints. */
  function TransitLink(a: int, b: int, geom: seq<Point>, attrs: Attributes): (l: LinkRow)
    ensures l.a == a && l.b == b && l.geom == geom && l.attrs == attrs
    ensures WellKeyed([l])
  {
    LinkRow(a, b, Key(a, b), attrs, geom)
  }

  // ---------------------------------------------------------------------
  // `update_nodes_links_with_transit_only`.

  function Keys(links: seq<LinkRow>): set<string> {
    set l | l in links :: l.ab
  }

  /** `links_df['AB'] = ...`: every row's key recomputed from its endpoints. */
  function Rekey(links: seq<LinkRow>): (r: seq<LinkRow>)
    ensures |r| == |links| && WellKeyed(r)
    ensures forall i :: 0 <= i < |r| ==> r[i] == links[i].(ab := Key(links[i].a, links[i].b))
  {
    seq(|links|, i requires 0 <= i < |links| => links[i].(ab := Key(links[i].a, links[i].b)))
  }

  /** The existing nodes, then the transit-only rows whose id is not yet a node. */
  function AppendNewNodes(nodes: seq<NodeRow>, transit: seq<NodeRow>): seq<NodeRow> {
    var present := Ids(nodes);
    nodes + Filter(transit, (r: NodeRow) => r.n !in present)
  }

  /** The rekeyed links, then the transit-only rows whose key is not yet present. */
  function AppendNewLinks(links: seq<LinkRow>, transit: seq<LinkRow>): seq<LinkRow> {
    var keyed := Rekey(links);
    var present := Keys(keyed);
    keyed + Filter(transit, (l: LinkRow) => l.ab !in present)
  }

  /** The node half of the merge. The registries start as the column-less
      `pd.DataFrame()` and only ever grow, so an empty registry is one that
      never got columns, and reading its `N` column raises. */
  function MergeNodes(nodes: seq<NodeRow>, transit: seq<NodeRow>): (r: Result<seq<NodeRow>>)
    ensures r.Err? <==> transit == []
    ensures r.Err? ==> r.fault == MissingColumn
  {
    if transit == [] then Err(MissingColumn) else Ok(AppendNewNodes(nodes, transit))
  }

  /** The link half of the merge; an empty registry has no `AB` column. */
  function MergeLinks(links: seq<LinkRow>, transit: seq<LinkRow>): (r: Result<seq<LinkRow>>)
    ensures r.Err? <==> transit == []
    ensures r.Err? ==> r.fault == MissingColumn
  {
    if transit == [] then Err(MissingColumn) else Ok(AppendNewLinks(links, transit))
  }

  lemma NewNodesFacts(nodes: seq<NodeRow>, transit: seq<NodeRow>)
    ensures var m := AppendNewNodes(nodes, transit);
      && m[..|nodes|] == nodes
      && (forall x :: x in m[|nodes|..] <==> x in transit && x.n !in Ids(nodes))
      && Ids(m) == Ids(nodes) + Ids(transit)
  {
    var m := AppendNewNodes(nodes, transit);
    var f := Filter(transit, (r: NodeRow) => r.n !in Ids(nodes));
    assert m[|nodes|..] == f;
    forall n | n in Ids(transit) ensures n in Ids(m) {
      var r :| r in transit && r.n == n;
      if r.n !in Ids(nodes) { assert r in f && r in m; } else { var q :| q in nodes && q.n == n; assert q in m; }
    }
  }

  lemma NewLinksFacts(links: seq<LinkRow>, transit: seq<LinkRow>)
    ensures var m := AppendNewLinks(links, transit);
      && |m| >= |links|
      && (forall i :: 0 <= i < |links| ==> m[i] == links[i].(ab := Key(links[i].a, links[i].b)))
      && (forall l :: l in m[|links|..] <==> l in transit && l.ab !in Keys(Rekey(links)))
      && Keys(m) == Keys(Rekey(links)) + Keys(transit)
  {
    var keyed := Rekey(links);
    var m := AppendNewLinks(links, transit);
    var f := Filter(transit, (l: LinkRow) => l.ab !in Keys(keyed));
    assert m[|links|..] == f;
    forall k | k in Keys(transit) ensures k in Keys(m) {
      var l :| l in transit && l.ab == k;
      if l.ab !in Keys(keyed) { assert l in f && l in m; } else { var q :| q in keyed && q.ab == k; assert q in m; }
    }
  }

  /** The merge keeps every existing node row in place and appends exactly
      the transit-only rows whose id is not already a node; it fails exactly
      on an empty registry. */
  lemma MergeNodesAppendsAbsent(nodes: seq<NodeRow>, transit: seq<NodeRow>)
    ensures var r := MergeNodes(nodes, transit);
      && (r.Err? <==> transit == [])
      && (r.Ok? ==> var m := r.value;
        && m[..|nodes|] == nodes
        && (forall x :: x in m[|nodes|..] <==> x in transit && x.n !in Ids(nodes))
        && Ids(m) == Ids(nodes) + Ids(transit))
  {
    NewNodesFacts(nodes, transit);
  }

  /** The merge keeps every existing link (only its key is recomputed) and
      appends exactly the transit-only rows whose key is not already present;
      it fails exactly on an empty registry. */
  lemma MergeLinksAppendsAbsent(links: seq<LinkRow>, transit: seq<LinkRow>)
    ensures var r := MergeLinks(links, transit);
      && (r.Err? <==> transit == [])
      && (r.Ok? ==> var m := r.value;
        && |m| >= |links|
        && (forall i :: 0 <= i < |links| ==> m[i] == links[i].(ab := Key(links[i].a, links[i].b)))
        && (forall l :: l in m[|links|..] <==> l in transit && l.ab !in Keys(Rekey(links)))
        && Keys(m) == Keys(Rekey(links)) + Keys(transit))
  {
    NewLinksFacts(links, transit);
  }

  lemma {:induction false} NewNodesIdempotent(nodes: seq<NodeRow>, transit: seq<NodeRow>)
    ensures AppendNewNodes(AppendNewNodes(nodes, transit), transit) == AppendNewNodes(nodes, transit)
  {
    var m := AppendNewNodes(nodes, transit);
    NewNodesFacts(nodes, transit);
    var keep := (r: NodeRow) => r.n !in Ids(m);
    forall i | 0 <= i < |transit| ensures !keep(transit[i]) {
      assert transit[i].n in Ids(transit);
    }
    FilterNone(transit, keep);
  }

  /** Merging the same registries a second time adds nothing. */
  lemma MergeNodesIdempotent(nodes: seq<NodeRow>, transit: seq<NodeRow>)
    ensures var r := MergeNodes(nodes, transit); r.Ok? ==> MergeNodes(r.value, transit) == r
  {
    NewNodesIdempotent(nodes, transit);
  }

  lemma RekeyWellKeyed(links: seq<LinkRow>)
    requires WellKeyed(links)
    ensures Rekey(links) == links
  {
  }

  lemma {:induction false} NewLinksIdempotent(links: seq<LinkRow>, transit: seq<LinkRow>)
    requires WellKeyed(transit)
    ensures AppendNewLinks(AppendNewLinks(links, transit), transit) == AppendNewLinks(links, transit)
  {
    var keyed := Rekey(links);
    var added := Filter(transit, (l: LinkRow) => l.ab !in Keys(keyed));
    var m := AppendNewLinks(links, transit);
    assert m == keyed + added;
    assert WellKeyed(m) by {
      forall i | 0 <= i < |m| ensures m[i].ab == Key(m[i].a, m[i].b) {
        if i >= |keyed| {
          assert m[i] in added;
          var j :| 0 <= j < |transit| && transit[j] == m[i];
        }
      }
    }
    RekeyWellKeyed(m);
    var keep := (l: LinkRow) => l.ab !in Keys(m);
    forall i | 0 <= i < |transit| ensures !keep(transit[i]) {
      if transit[i].ab !in Keys(keyed) {
        assert transit[i] in added;
        assert transit[i] in m;
      } else {
        var l :| l in keyed && l.ab == transit[i].ab;
        assert l in m;
      }
    }
    FilterNone(transit, keep);
  }

  /** Merging the same (well-keyed) link registry a second time adds nothing
      and changes no key. */
  lemma MergeLinksIdempotent(links: seq<LinkRow>, transit: seq<LinkRow>)
    requires WellKeyed(transit)
    ensures var r := MergeLinks(links, transit); r.Ok? ==> MergeLinks(r.value, transit) == r
  {
    NewLinksIdempotent(links, transit);
  }

  /** `update_nodes_links_with_transit_only` as written: the node merge, then
      the link merge, each reading its registry's columns unguarded. */
  function MergeNetwork(nodes: seq<NodeRow>, links: seq<LinkRow>, transitNodes: seq<NodeRow>, transitLinks: seq<LinkRow>)
    : (r: Result<(seq<NodeRow>, seq<LinkRow>)>)
    ensures r.Err? <==> transitNodes == [] || transitLinks == []
    ensures r.Err? ==> r.fault == MissingColumn
    ensures r.Ok? ==> Ids(r.value.0) == Ids(nodes) + Ids(transitNodes)
    ensures r.Ok? ==> Keys(r.value.1) == Keys(Rekey(links)) + Keys(transitLinks)
  {
    MergeNodesAppendsAbsent(nodes, transitNodes);
    MergeLinksAppendsAbsent(links, transitLinks);
    var mn := MergeNodes(nodes, transitNodes);
    if mn.Err? then Err(mn.fault)
    else
      var ml := MergeLinks(links, transitLinks);
      if ml.Err? then Err(ml.fault) else Ok((mn.value, ml.value))
  }

  /** The merge as evidently intended: an empty registry, like the one
      `match_stops_and_transit_nodes` guards against, contributes no rows
      instead of failing. */
  function MergeNetworkGuarded(nodes: seq<NodeRow>, links: seq<LinkRow>, transitNodes: seq<NodeRow>, transitLinks: seq<LinkRow>)
    : (r: (seq<NodeRow>, seq<LinkRow>))
    ensures |r.0| >= |nodes| && r.0[..|nodes|] == nodes && Ids(r.0) == Ids(nodes) + Ids(transitNodes)
    ensures |r.1| >= |links| && Keys(r.1) == Keys(Rekey(links)) + Keys(transitLinks)
    ensures forall i :: 0 <= i < |links| ==> r.1[i] == links[i].(ab := Key(links[i].a, links[i].b))
  {
    NewNodesFacts(nodes, transitNodes);
    NewLinksFacts(links, transitLinks);
    (AppendNewNodes(nodes, transitNodes), AppendNewLinks(links, transitLinks))
  }

  /** Wherever the source's merge succeeds, the guarded merge agrees with it. */
  lemma MergeGuardedAgrees(nodes: seq<NodeRow>, links: seq<LinkRow>, transitNodes: seq<NodeRow>, transitLinks: seq<LinkRow>)
    ensures var r := MergeNetwork(nodes, links, transitNodes, transitLinks);
      r.Ok? ==> r.value == MergeNetworkGuarded(nodes, links, transitNodes, transitLinks)
  {
  }

  // ---------------------------------------------------------------------
  // `find_nodes_within_shp`.

  /** Ids used as an endpoint by some link. */
  function LinkEnds(links: seq<LinkRow>): set<int> {
    (set l | l in links :: l.a) + (set l | l in links :: l.b)
  }

  /** The node rows, in table order, that some link uses as an endpoint. */
  function NodesWithin(nodes: seq<NodeRow>, links: seq<LinkRow>): (r: seq<NodeRow>)
    ensures forall x :: x in r <==> x in nodes && exists l :: l in links && (l.a == x.n || l.b == x.n)
    ensures Ids(r) <= Ids(nodes)
  {
    var ends := LinkEnds(links);
    Filter(nodes, (x: NodeRow) => x.n in ends)
  }

  // ---------------------------------------------------------------------
  // `net_cleaning`.

  /** An inclusive id range `[lo, hi]` of `nodes_ranges_to_avoid`. */
  datatype IdRange = IdRange(lo: int, hi: int)

  function FacType(l: LinkRow): Option<int> {
    if "FACTYPE" in l.attrs && l.attrs["FACTYPE"].Num? then Some(l.attrs["FACTYPE"].n) else None
  }

  /** A node is dropped by a range that contains its id. */
  predicate NodeInRange(r: NodeRow, range: IdRange) {
    range.lo <= r.n <= range.hi
  }

  /** A link is dropped by a range when `A >= lo` and `B <= hi`: the test
      looks at `A` against the lower bound and at `B` against the upper one,
      not at both endpoints against both bounds. */
  predicate LinkInRange(l: LinkRow, range: IdRange) {
    l.a >= range.lo && l.b <= range.hi
  }

  /** The rows that no range and no facility type removes. */
  predicate NodeKept(r: NodeRow, ranges: seq<IdRange>) {
    forall k :: 0 <= k < |ranges| ==> !NodeInRange(r, ranges[k])
  }

  predicate LinkKept(l: LinkRow, ranges: seq<IdRange>, factypes: seq<int>) {
    && (forall k :: 0 <= k < |ranges| ==> !LinkInRange(l, ranges[k]))
    && (forall k :: 0 <= k < |factypes| ==> FacType(l) != Some(factypes[k]))
  }

  function NodeFilter(ranges: seq<IdRange>): NodeRow -> bool {
    r => NodeKept(r, ranges)
  }

  function LinkFilter(ranges: seq<IdRange>, factypes: seq<int>): LinkRow -> bool {
    l => LinkKept(l, ranges, factypes)
  }

  lemma NodeRangeStep(nodes: seq<NodeRow>, ranges: seq<IdRange>, k: nat)
    requires k < |ranges|
    ensures Filter(Filter(nodes, NodeFilter(ranges[..k])), (r: NodeRow) => !NodeInRange(r, ranges[k]))
         == Filter(nodes, NodeFilter(ranges[..k + 1]))
  {
    FilterTwice(nodes, NodeFilter(ranges[..k]), (r: NodeRow) => !NodeInRange(r, ranges[k]), NodeFilter(ranges[..k + 1]));
  }

  lemma LinkRangeStep(links: seq<LinkRow>, ranges: seq<IdRange>, k: nat)
    requires k < |ranges|
    ensures Filter(Filter(links, LinkFilter(ranges[..k], [])), (l: LinkRow) => !LinkInRange(l, ranges[k]))
         == Filter(links, LinkFilter(ranges[..k + 1], []))
  {
    FilterTwice(links, LinkFilter(ranges[..k], []), (l: LinkRow) => !LinkInRange(l, ranges[k]), LinkFilter(ranges[..k + 1], []));
  }

  lemma FacTypeStep(links: seq<LinkRow>, ranges: seq<IdRange>, factypes: seq<int>, k: nat)
    requires k < |factypes|
    ensures Filter(Filter(links, LinkFilter(ranges, factypes[..k])), (l: LinkRow) => FacType(l) != Some(factypes[k]))
         == Filter(links, LinkFilter(ranges, factypes[..k + 1]))
  {
    FilterTwice(links, LinkFilter(ranges, factypes[..k]), (l: LinkRow) => FacType(l) != Some(factypes[k]),
                LinkFilter(ranges, factypes[..k + 1]));
  }

  /** Drops, range by range and then facility type by facility type, the rows
      the source drops; the survivors keep their order. */
  method NetCleaning(nodes: seq<NodeRow>, links: seq<LinkRow>, ranges: seq<IdRange>, factypes: seq<int>)
    returns (nodes': seq<NodeRow>, links': seq<LinkRow>)
    ensures nodes' == Filter(nodes, NodeFilter(ranges))
    ensures links' == Filter(links, LinkFilter(ranges, factypes))
  {
    nodes', links' := nodes, links;
    FilterAll(nodes, NodeFilter(ranges[..0]));
    FilterAll(links, LinkFilter(ranges[..0], []));
    for k := 0 to |ranges|
      invariant nodes' == Filter(nodes, NodeFilter(ranges[..k]))
      invariant links' == Filter(links, LinkFilter(ranges[..k], []))
    {
      var range := ranges[k];
      NodeRangeStep(nodes, ranges, k);
      LinkRangeStep(links, ranges, k);
      nodes' := Filter(nodes', (r: NodeRow) => !NodeInRange(r, range));
      links' := Filter(links', (l: LinkRow) => !LinkInRange(l, range));
    }
    assert ranges[..|ranges|] == ranges;
    assert factypes[..0] == [];
    for k := 0 to |factypes|
      invariant links' == Filter(links, LinkFilter(ranges, factypes[..k]))
    {
      var f := factypes[k];
      FacTypeStep(links, ranges, factypes, k);
      links' := Filter(links', (l: LinkRow) => FacType(l) != Some(f));
    }
    assert factypes[..|factypes|] == factypes;
  }
}
