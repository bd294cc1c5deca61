/** The per-route directed graph (a networkx DiGraph in the source) as a
    finite set of nodes and of directed edges, with path search. */
module Graphs {
  import opened Wrappers

  type Edge = (int, int)

  /** `p` is a non-empty walk along `edges`. */
  predicate IsWalk(edges: set<Edge>, p: seq<int>) {
    |p| > 0 && forall i :: 0 <= i < |p| - 1 ==> (p[i], p[i + 1]) in edges
  }

  /** `p` is a walk along `edges` from `s` to `t`. */
  predicate PathFromTo(edges: set<Edge>, s: int, t: int, p: seq<int>) {
    IsWalk(edges, p) && p[0] == s && p[|p| - 1] == t
  }

  /** networkx's `has_path`: some walk leads from `s` to `t`. */
  ghost predicate Reachable(edges: set<Edge>, s: int, t: int) {
    exists p :: PathFromTo(edges, s, t, p)
  }

  /** Every edge leaving `k` ends in `k`. */
  ghost predicate Closed(edges: set<Edge>, k: set<int>) {
    forall e :: e in edges && e.0 in k ==> e.1 in k
  }

  function Endpoints(edges: set<Edge>): set<int> {
    (set e | e in edges :: e.0) + (set e | e in edges :: e.1)
  }

  lemma {:induction false} WalkStaysIn(edges: set<Edge>, k: set<int>, p: seq<int>)
    requires Closed(edges, k) && IsWalk(edges, p) && p[0] in k
    ensures p[|p| - 1] in k
  {
    if |p| > 1 {
      var q := p[..|p| - 1];
      assert IsWalk(edges, q) by {
        forall i | 0 <= i < |q| - 1 ensures (q[i], q[i + 1]) in edges {
          assert (p[i], p[i + 1]) in edges;
        }
      }
      WalkStaysIn(edges, k, q);
      assert (p[|p| - 2], p[|p| - 1]) in edges;
    }
  }

  lemma ReachableStaysIn(edges: set<Edge>, k: set<int>, s: int, t: int)
    requires Closed(edges, k) && s in k && Reachable(edges, s, t)
    ensures t in k
  {
    var p :| PathFromTo(edges, s, t, p);
    WalkStaysIn(edges, k, p);
  }

  /** Adding edges never destroys a walk. */
  lemma WalkGrows(edges: set<Edge>, more: set<Edge>, p: seq<int>)
    requires IsWalk(edges, p) && edges <= more
    ensures IsWalk(more, p)
  {
  }

  lemma EdgeIsReachable(edges: set<Edge>, s: int, t: int)
    requires (s, t) in edges
    ensures Reachable(edges, s, t)
  {
    assert PathFromTo(edges, s, t, [s, t]);
  }

  lemma ExtendWalk(edges: set<Edge>, s: int, u: int, v: int, p: seq<int>)
    requires PathFromTo(edges, s, u, p) && (u, v) in edges
    ensures PathFromTo(edges, s, v, p + [v])
  {
    var q := p + [v];
    forall i | 0 <= i < |q| - 1 ensures (q[i], q[i + 1]) in edges {
      if i < |q| - 2 {
        assert (p[i], p[i + 1]) in edges;
      }
    }
  }

  /** Every node in `paths` carries a walk from `s` to it. */
  ghost predicate WalksFrom(edges: set<Edge>, s: int, paths: map<int, seq<int>>) {
    forall v :: v in paths ==> PathFromTo(edges, s, v, paths[v])
  }

  /** One breadth-first step: every successor of `u` not yet reached gets the
      walk to `u` extended by one edge; `added` lists the nodes reached now. */
  method Expand(edges: set<Edge>, s: int, u: int, paths: map<int, seq<int>>)
    returns (paths': map<int, seq<int>>, added: seq<int>)
    requires u in paths && WalksFrom(edges, s, paths)
    ensures WalksFrom(edges, s, paths') && paths.Keys <= paths'.Keys
    ensures paths'.Keys == paths.Keys + (set v | v in added)
    ensures (set v | v in added) <= Endpoints(edges)
    ensures forall e :: e in edges && e.0 == u ==> e.1 in paths'
  {
    paths', added := paths, [];
    var rest := edges;
    while rest != {}
      invariant rest <= edges
      invariant u in paths' && WalksFrom(edges, s, paths') && paths.Keys <= paths'.Keys
      invariant paths'.Keys == paths.Keys + (set v | v in added)
      invariant (set v | v in added) <= Endpoints(edges)
      invariant forall e :: e in edges - rest && e.0 == u ==> e.1 in paths'
      decreases rest
    {
      var e :| e in rest;
      if e.0 == u && e.1 !in paths' {
        ExtendWalk(edges, s, u, e.1, paths'[u]);
        paths' := paths'[e.1 := paths'[u] + [e.1]];
        added := added + [e.1];
      }
      rest := rest - {e};
    }
  }

  /** What the search knows after expanding the nodes in `done`: every
      reached node has a walk from `s`, and no edge leaves `done` unreached. */
  ghost predicate SearchState(edges: set<Edge>, s: int, paths: map<int, seq<int>>,
                              queue: seq<int>, done: set<int>)
  {
    && paths.Keys == (set v | v in queue) + done
    && s in paths && paths.Keys <= Endpoints(edges) + {s}
    && WalksFrom(edges, s, paths)
    && forall e :: e in edges && e.0 in done ==> e.1 in paths
  }

  lemma SearchStep(edges: set<Edge>, s: int, paths: map<int, seq<int>>,
                   paths': map<int, seq<int>>, added: seq<int>, queue: seq<int>, done: set<int>)
    requires SearchState(edges, s, paths, queue, done) && queue != []
    requires WalksFrom(edges, s, paths') && paths.Keys <= paths'.Keys
    requires paths'.Keys == paths.Keys + (set v | v in added)
    requires (set v | v in added) <= Endpoints(edges)
    requires forall e :: e in edges && e.0 == queue[0] ==> e.1 in paths'
    ensures SearchState(edges, s, paths', queue[1..] + added, done + {queue[0]})
  {
    var q := queue[1..] + added;
    assert (set v | v in queue) == (set v | v in queue[1..]) + {queue[0]};
    assert (set v | v in q) == (set v | v in queue[1..]) + (set v | v in added);
  }

  lemma SkipStep(edges: set<Edge>, s: int, paths: map<int, seq<int>>, queue: seq<int>, done: set<int>)
    requires SearchState(edges, s, paths, queue, done) && queue != [] && queue[0] in done
    ensures SearchState(edges, s, paths, queue[1..], done)
  {
    assert (set v | v in queue) == (set v | v in queue[1..]) + {queue[0]};
  }

  lemma Shrinks(universe: set<int>, done: set<int>, u: int)
    requires u in universe && u !in done
    ensures |universe - (done + {u})| < |universe - done|
  {
    assert universe - (done + {u}) == (universe - done) - {u};
  }

  /** A finished search has reached every reachable node. */
  lemma SearchComplete(edges: set<Edge>, s: int, paths: map<int, seq<int>>, done: set<int>, t: int)
    requires SearchState(edges, s, paths, [], done)
    ensures Reachable(edges, s, t) ==> t in paths
  {
    if Reachable(edges, s, t) {
      ReachableStaysIn(edges, paths.Keys, s, t);
    }
  }

  /** Breadth-first search that keeps, for every node it reaches, a walk from
      `s` to it. It stands for networkx's path search: `Some` exactly when `t`
      is reachable, with a walk from `s` to `t`. */
  method FindPath(edges: set<Edge>, s: int, t: int) returns (r: Option<seq<int>>)
    ensures r.Some? <==> Reachable(edges, s, t)
    ensures r.Some? ==> PathFromTo(edges, s, t, r.value)
  {
    var paths: map<int, seq<int>> := map[s := [s]];
    var queue: seq<int> := [s];
    var done: set<int> := {};
    ghost var universe := Endpoints(edges) + {s};
    while queue != []
      invariant SearchState(edges, s, paths, queue, done)
      decreases |universe - done|, |queue|
    {
      var u := queue[0];
      if u in done {
        SkipStep(edges, s, paths, queue, done);
        queue := queue[1..];
      } else {
        var paths', added := Expand(edges, s, u, paths);
        SearchStep(edges, s, paths, paths', added, queue, done);
        Shrinks(universe, done, u);
        queue := queue[1..] + added;
        done := done + {u};
        paths := paths';
      }
    }
    SearchComplete(edges, s, paths, done, t);
    if t in paths {
      r := Some(paths[t]);
    } else {
      r := None;
    }
  }

  /** The route's working graph, updated in place by the gap synthesis. */
  class Graph {
    var nodes: set<int>
    var edges: set<Edge>

    /** `create_netx`: one node per node row, one edge per link row (adding
        an edge also adds its endpoints). */
    constructor FromTables(nodeIds: seq<int>, links: seq<Edge>)
      ensures nodes == (set n | n in nodeIds) + Endpoints(set l | l in links)
      ensures edges == set l | l in links
    {
      edges := set l | l in links;
      nodes := (set n | n in nodeIds) + Endpoints(set l | l in links);
    }

    method AddNode(n: int)
      modifies this
      ensures nodes == old(nodes) + {n} && edges == old(edges)
    {
      nodes := nodes + {n};
    }

    method AddEdge(a: int, b: int)
      modifies this
      ensures nodes == old(nodes) + {a, b} && edges == old(edges) + {(a, b)}
    {
      nodes := nodes + {a, b};
      edges := edges + {(a, b)};
    }

    /** networkx raises when the edge is absent. */
    method RemoveEdge(a: int, b: int)
      requires (a, b) in edges
      modifies this
      ensures nodes == old(nodes) && edges == old(edges) - {(a, b)}
    {
      edges := edges - {(a, b)};
    }

    /** `nx.has_path`; networkx raises for a node not in the graph. */
    method HasPath(s: int, t: int) returns (b: bool)
      requires s in nodes && t in nodes
      ensures b <==> Reachable(edges, s, t)
    {
      var r := FindPath(edges, s, t);
      b := r.Some?;
    }

    /** `nx.shortest_path`; its callers only ask for reachable targets. */
    method ShortestPath(s: int, t: int) returns (p: seq<int>)
      requires s in nodes && t in nodes && Reachable(edges, s, t)
      ensures PathFromTo(edges, s, t, p)
    {
      var r := FindPath(edges, s, t);
      p := r.value;
    }
  }
}
