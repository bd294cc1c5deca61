/** The transit-only registries: link twins, consecutive numbering of new
    nodes, and how ids and pairs of appended rows combine. */
module Registry {
  import opened Seqs
  import opened Tables

  /** The A->B link and its B->A twin with the reversed polyline. */
  predicate TwinLinks(l: LinkRow, m: LinkRow, attrs: Attributes) {
    && m.a == l.b && m.b == l.a && m.geom == Reverse(l.geom)
    && l.attrs == attrs && m.attrs == attrs
    && l.ab == Key(l.a, l.b) && m.ab == Key(m.a, m.b)
  }

  /** `after` is `before` with `n` rows appended, numbered from `counter`. */
  predicate NumberedFrom(before: seq<NodeRow>, after: seq<NodeRow>, counter: int, n: nat) {
    && |after| == |before| + n && after[..|before|] == before
    && forall k :: |before| <= k < |after| ==> after[k].n == counter + (k - |before|)
  }

  /** `after` is `before` with one link and its twin appended. */
  predicate TwinAppended(before: seq<LinkRow>, after: seq<LinkRow>, attrs: Attributes) {
    && |after| == |before| + 2 && after[..|before|] == before
    && TwinLinks(after[|before|], after[|before| + 1], attrs)
  }

  /** The two registry rows of a gap link: A->B and B->A with the
      reversed polyline, both stamped with the caller's attributes. */
  function TwinPair(a: int, b: int, link: seq<Point>, attrs: Attributes): (r: seq<LinkRow>)
    ensures |r| == 2 && TwinLinks(r[0], r[1], attrs) && r[0].a == a && r[0].b == b && r[0].geom == link
    ensures Pairs(r) == {(a, b), (b, a)}
  {
    [TransitLink(a, b, link, attrs), TransitLink(b, a, Reverse(link), attrs)]
  }

  lemma AppendIds(within: seq<NodeRow>, rows: seq<NodeRow>)
    ensures Ids(within + rows) == Ids(within) + Ids(rows)
  {
    assert forall x :: x in within + rows <==> x in within || x in rows;
  }

  /** A sequence of link rows made of consecutive A->B, B->A twins. */
  predicate Twins(links: seq<LinkRow>, attrs: Attributes) {
    && |links| % 2 == 0
    && forall k :: 0 <= k < |links| - 1 && k % 2 == 0 ==> TwinLinks(links[k], links[k + 1], attrs)
  }

  lemma TwinsAppend(links: seq<LinkRow>, extra: seq<LinkRow>, attrs: Attributes)
    requires Twins(links, attrs) && Twins(extra, attrs)
    ensures Twins(links + extra, attrs)
  {
    var joined := links + extra;
    forall k | 0 <= k < |joined| - 1 && k % 2 == 0 ensures TwinLinks(joined[k], joined[k + 1], attrs) {
      if k < |links| {
        assert joined[k] == links[k] && joined[k + 1] == links[k + 1];
      } else {
        assert joined[k] == extra[k - |links|] && joined[k + 1] == extra[k - |links| + 1];
      }
    }
  }

  lemma SliceIds(a: seq<NodeRow>, b: seq<NodeRow>, c: seq<NodeRow>)
    requires |a| <= |b| <= |c| && b[..|a|] == a && c[..|b|] == b
    ensures Ids(c[|a|..]) == Ids(b[|a|..]) + Ids(c[|b|..])
  {
    assert c[|a|..] == b[|a|..] + c[|b|..];
    AppendIds(b[|a|..], c[|b|..]);
  }

  lemma SlicePairs(a: seq<LinkRow>, b: seq<LinkRow>, c: seq<LinkRow>)
    requires |a| <= |b| <= |c| && b[..|a|] == a && c[..|b|] == b
    ensures Pairs(c[|a|..]) == Pairs(b[|a|..]) + Pairs(c[|b|..])
    ensures c[|a|..] == b[|a|..] + c[|b|..]
  {
    assert c[|a|..] == b[|a|..] + c[|b|..];
    assert forall l :: l in c[|a|..] <==> l in b[|a|..] || l in c[|b|..];
  }

  /** Numbering from the counter composes over two appends. */
  lemma NumberedTrans(t0: seq<NodeRow>, t1: seq<NodeRow>, t2: seq<NodeRow>, c0: int, n1: nat, n2: nat)
    requires NumberedFrom(t0, t1, c0, n1) && NumberedFrom(t1, t2, c0 + n1, n2)
    ensures NumberedFrom(t0, t2, c0, n1 + n2)
  {
    forall k | |t0| <= k < |t2| ensures t2[k].n == c0 + (k - |t0|) {
      if k < |t1| { assert t2[k] == t1[k]; }
    }
    PrefixTrans(t0, t1, t2);
  }

  /** One twin pair appended is a run of twins. */
  lemma TwinAppendedTwins(before: seq<LinkRow>, after: seq<LinkRow>, attrs: Attributes)
    requires TwinAppended(before, after, attrs)
    ensures Twins(after[|before|..], attrs)
  {
    var tail := after[|before|..];
    assert tail[2..] == [];
  }
}
