/**
 * path_finder.py: `find_shortest_path` builds an undirected graph whose
 * nodes are location names and whose edges come from the links, then asks
 * for an unweighted shortest path; the `__main__` block renders the path
 * as a route string.
 *
 * The graph is a map from each node to its neighbours in insertion order,
 * as networkx keeps them. The shortest-path query is a breadth-first search
 * by layers; which of several equally short paths it returns is not
 * specified.
 */
module PathFinding {
  import opened Wrappers
  import opened Text
  import opened Locations

  /** `networkx.Graph`: node -> neighbours, without repetition. */
  type Graph = map<string, seq<string>>

  /** Every neighbour is a node, and no neighbour is listed twice. */
  ghost predicate WellFormed(g: Graph) {
    forall x | x in g :: (forall y | y in g[x] :: y in g)
      && (forall i, j | 0 <= i < j < |g[x]| :: g[x][i] != g[x][j])
  }

  /** Names of the first `n` locations. */
  function NamesUpTo(s: Store, n: nat): set<string>
    requires n <= |s|
  {
    set j | 0 <= j < n :: s[j].name
  }

  /** The node set: every location's name, namesakes collapsed. */
  function Names(s: Store): set<string> {
    NamesUpTo(s, |s|)
  }

  /** `(location.name, link.name)` for each entry of one list. */
  function LinkPairs(s: Store, j: LocId, links: seq<Link>): (r: seq<(string, string)>)
    requires j < |s| && forall l | l in links :: l.peer < |s|
    ensures |r| == |links|
  {
    seq(|links|, k requires 0 <= k < |links| => (s[j].name, s[links[k].peer].name))
  }

  /** The pairs passed to `add_edge` for the first `n` locations, in loop order. */
  function PairsUpTo(s: Store, n: nat): seq<(string, string)>
    requires n <= |s| && PeersInStore(s)
  {
    if n == 0 then [] else PairsUpTo(s, n - 1) + LinkPairs(s, n - 1, s[n - 1].links)
  }

  /**
   * The edge relation: `x` and `y` are joined when some location named `x`
   * has an entry whose peer is named `y`, or the other way round. Link
   * types play no part and parallel links give one edge.
   */
  ghost predicate Edge(s: Store, x: string, y: string)
    requires PeersInStore(s)
  {
    exists j, l | 0 <= j < |s| && l in s[j].links ::
      (s[j].name == x && s[l.peer].name == y) || (s[j].name == y && s[l.peer].name == x)
  }

  /** `G.add_edge(u, v)`: both ends are nodes already; each end is listed once in the other's neighbours. */
  function AddEdge(g: Graph, u: string, v: string): (r: Graph)
    requires u in g && v in g
    ensures r.Keys == g.Keys
  {
    var g1 := if v in g[u] then g else g[u := g[u] + [v]];
    if u in g1[v] then g1 else g1[v := g1[v] + [u]]
  }

  lemma AddEdgeNeighbours(g: Graph, u: string, v: string)
    requires u in g && v in g && WellFormed(g)
    ensures var r := AddEdge(g, u, v);
      && WellFormed(r)
      && forall x, y | x in g :: y in r[x] <==> y in g[x] || (x == u && y == v) || (x == v && y == u)
  {
  }

  /** `(x, y)` or `(y, x)` is among `pairs`. */
  predicate Paired(pairs: seq<(string, string)>, x: string, y: string)
    decreases |pairs|
  {
    pairs != [] &&
      (pairs[|pairs| - 1] == (x, y) || pairs[|pairs| - 1] == (y, x) || Paired(pairs[..|pairs| - 1], x, y))
  }

  lemma {:induction false} PairedIn(pairs: seq<(string, string)>, x: string, y: string)
    ensures Paired(pairs, x, y) <==> (x, y) in pairs || (y, x) in pairs
    decreases |pairs|
  {
    if pairs != [] {
      var front := pairs[..|pairs| - 1];
      PairedIn(front, x, y);
      assert pairs == front + [pairs[|pairs| - 1]];
    }
  }

  lemma PairedSnoc(pairs: seq<(string, string)>, u: string, v: string, x: string, y: string)
    ensures Paired(pairs + [(u, v)], x, y) <==> (u, v) == (x, y) || (u, v) == (y, x) || Paired(pairs, x, y)
  {
    assert (pairs + [(u, v)])[..|pairs|] == pairs;
  }

  /** `g`'s neighbour lists hold exactly the pairs given to `add_edge`, both ways round. */
  ghost predicate Joins(g: Graph, pairs: seq<(string, string)>) {
    forall x, y | x in g :: y in g[x] <==> Paired(pairs, x, y)
  }

  lemma AddEdgeJoins(g: Graph, pairs: seq<(string, string)>, u: string, v: string)
    requires u in g && v in g && WellFormed(g) && Joins(g, pairs)
    ensures WellFormed(AddEdge(g, u, v)) && Joins(AddEdge(g, u, v), pairs + [(u, v)])
  {
    AddEdgeNeighbours(g, u, v);
    forall x, y | x in g ensures y in AddEdge(g, u, v)[x] <==> Paired(pairs + [(u, v)], x, y) {
      PairedSnoc(pairs, u, v, x, y);
    }
  }

  lemma LinkPairsSnoc(s: Store, j: LocId, links: seq<Link>, k: nat)
    requires j < |s| && k < |links| && forall l | l in links :: l.peer < |s|
    ensures LinkPairs(s, j, links[..k + 1]) == LinkPairs(s, j, links[..k]) + [(s[j].name, s[links[k].peer].name)]
  {
    assert links[k] in links;
    var a, b := LinkPairs(s, j, links[..k + 1]), LinkPairs(s, j, links[..k]) + [(s[j].name, s[links[k].peer].name)];
    forall i | 0 <= i < |a| ensures a[i] == b[i] {
      assert links[..k + 1][i] == links[i];
    }
  }

  lemma NamesStep(s: Store, j: nat)
    requires j < |s|
    ensures NamesUpTo(s, j + 1) == NamesUpTo(s, j) + {s[j].name}
  {
  }

  /** The first loop of `find_shortest_path`: `G.add_node(location.name)` for each location. */
  method AddNodes(s: Store) returns (g: Graph)
    ensures g.Keys == Names(s)
    ensures forall x | x in g :: g[x] == []
  {
    g := map[];
    var j := 0;
    while j < |s|
      invariant j <= |s|
      invariant g.Keys == NamesUpTo(s, j)
      invariant forall x | x in g :: g[x] == []
    {
      NamesStep(s, j);
      if s[j].name !in g {
        g := g[s[j].name := []];
      }
      j := j + 1;
    }
  }

  /** The inner loop of the second loop: `G.add_edge(location.name, link.name)` for each entry of location `j`. */
  method AddLinkEdges(s: Store, j: LocId, g0: Graph) returns (g: Graph)
    requires PeersInStore(s) && j < |s|
    requires g0.Keys == Names(s) && WellFormed(g0) && Joins(g0, PairsUpTo(s, j))
    ensures g.Keys == Names(s) && WellFormed(g)
    ensures Joins(g, PairsUpTo(s, j + 1))
  {
    g := g0;
    ghost var pairs := PairsUpTo(s, j);
    var k := 0;
    assert pairs + LinkPairs(s, j, s[j].links[..0]) == pairs;
    while k < |s[j].links|
      invariant k <= |s[j].links|
      invariant g.Keys == Names(s) && WellFormed(g)
      invariant Joins(g, pairs + LinkPairs(s, j, s[j].links[..k]))
    {
      var l := s[j].links[k];
      assert l in s[j].links;
      var u, v := s[j].name, s[l.peer].name;
      assert u in Names(s) && v in Names(s);
      ghost var done := pairs + LinkPairs(s, j, s[j].links[..k]);
      AddEdgeJoins(g, done, u, v);
      g := AddEdge(g, u, v);
      LinkPairsSnoc(s, j, s[j].links, k);
      assert done + [(u, v)] == pairs + LinkPairs(s, j, s[j].links[..k + 1]);
      k := k + 1;
    }
    assert s[j].links[..k] == s[j].links;
    assert PairsUpTo(s, j + 1) == pairs + LinkPairs(s, j, s[j].links);
  }

  /** The second loop: `G.add_edge(location.name, link.name)` for each entry of each list. */
  method AddEdges(s: Store, g0: Graph) returns (g: Graph)
    requires PeersInStore(s) && g0.Keys == Names(s) && forall x | x in g0 :: g0[x] == []
    ensures g.Keys == Names(s) && WellFormed(g)
    ensures Joins(g, PairsUpTo(s, |s|))
  {
    g := g0;
    assert WellFormed(g) && Joins(g, PairsUpTo(s, 0)) by {
      assert PairsUpTo(s, 0) == [];
    }
    var j := 0;
    while j < |s|
      invariant j <= |s|
      invariant g.Keys == Names(s) && WellFormed(g)
      invariant Joins(g, PairsUpTo(s, j))
    {
      g := AddLinkEdges(s, j, g);
      j := j + 1;
    }
  }

  /**
   * `find_shortest_path`'s graph: its nodes are exactly the location names
   * and two names are neighbours exactly when a link joins locations of
   * those names.
   */
  method BuildGraph(s: Store) returns (g: Graph)
    requires PeersInStore(s)
    ensures g.Keys == Names(s)
    ensures WellFormed(g)
    ensures forall x, y | x in g :: y in g[x] <==> Edge(s, x, y)
  {
    g := AddNodes(s);
    g := AddEdges(s, g);
    forall x, y | x in g ensures y in g[x] <==> Edge(s, x, y) {
      PairedIn(PairsUpTo(s, |s|), x, y);
      PairsEdge(s, x, y);
    }
  }

  /** A pair is passed to `add_edge` exactly when some entry gives it. */
  lemma {:induction false} PairsFrom(s: Store, n: nat, x: string, y: string)
    requires n <= |s| && PeersInStore(s)
    ensures (x, y) in PairsUpTo(s, n) <==>
      exists j, l | 0 <= j < n && l in s[j].links :: s[j].name == x && s[l.peer].name == y
  {
    if n > 0 {
      PairsFrom(s, n - 1, x, y);
      var p := LinkPairs(s, n - 1, s[n - 1].links);
      if (x, y) in p {
        var k :| 0 <= k < |p| && p[k] == (x, y);
        assert s[n - 1].links[k] in s[n - 1].links;
      }
      if exists l | l in s[n - 1].links :: s[n - 1].name == x && s[l.peer].name == y {
        var l :| l in s[n - 1].links && s[n - 1].name == x && s[l.peer].name == y;
        var k :| 0 <= k < |s[n - 1].links| && s[n - 1].links[k] == l;
        assert p[k] == (x, y);
      }
    }
  }

  lemma PairsEdge(s: Store, x: string, y: string)
    requires PeersInStore(s)
    ensures (x, y) in PairsUpTo(s, |s|) || (y, x) in PairsUpTo(s, |s|) <==> Edge(s, x, y)
  {
    PairsFrom(s, |s|, x, y);
    PairsFrom(s, |s|, y, x);
  }

  /** `q` follows edges of `g` from `a` to `b`; `[a]` is the path from `a` to itself. */
  ghost predicate IsPath(g: Graph, q: seq<string>, a: string, b: string) {
    && |q| > 0 && q[0] == a && q[|q| - 1] == b
    && forall i | 0 <= i < |q| - 1 :: q[i] in g && q[i + 1] in g[q[i]]
  }

  lemma ExtendPath(g: Graph, q: seq<string>, a: string, x: string, y: string)
    requires IsPath(g, q, a, x) && x in g && y in g[x]
    ensures IsPath(g, q + [y], a, y)
  {
  }

  lemma PathPrefix(g: Graph, q: seq<string>, a: string, b: string, n: nat)
    requires IsPath(g, q, a, b) && 0 < n < |q|
    ensures IsPath(g, q[..n], a, q[n - 1]) && q[n - 1] in g && q[n] in g[q[n - 1]]
  {
  }

  /**
   * The search state after the layers up to `d`: `paths` maps each node
   * found to a path of at most `d` names from `start`, `frontier` lists the
   * nodes found in the last layer, every neighbour of an earlier layer has
   * been found, and every node reachable with at most `d` names has been
   * found with a path no longer than any other.
   */
  ghost predicate Layered(g: Graph, start: string, paths: map<string, seq<string>>, frontier: seq<string>, d: nat) {
    && d >= 1 && start in paths && paths.Keys <= g.Keys
    && (forall x | x in paths :: IsPath(g, paths[x], start, x) && |paths[x]| <= d)
    && (forall x :: x in frontier <==> x in paths && |paths[x]| == d)
    && (forall x, y | x in paths && |paths[x]| < d && y in g[x] :: y in paths)
    && (forall y, q | IsPath(g, q, start, y) && |q| <= d :: y in paths && |paths[y]| <= |q|)
  }

  /** During one layer: `grown` extends `paths` by nodes one step further, listed in `next`. */
  ghost predicate Grows(g: Graph, start: string, paths: map<string, seq<string>>,
                        grown: map<string, seq<string>>, next: seq<string>, d: nat) {
    && paths.Keys <= grown.Keys <= g.Keys
    && (forall x | x in paths :: grown[x] == paths[x])
    && (forall y | y in grown && y !in paths :: IsPath(g, grown[y], start, y) && |grown[y]| == d + 1)
    && (forall y :: y in next <==> y in grown && y !in paths)
  }

  /** The neighbours of one frontier node `x`, in list order. */
  method Visit(g: Graph, start: string, paths: map<string, seq<string>>, d: nat, x: string,
               grown0: map<string, seq<string>>, next0: seq<string>)
    returns (grown: map<string, seq<string>>, next: seq<string>)
    requires WellFormed(g) && x in paths && x in g && IsPath(g, paths[x], start, x) && |paths[x]| == d
    requires Grows(g, start, paths, grown0, next0, d)
    ensures Grows(g, start, paths, grown, next, d)
    ensures grown0.Keys <= grown.Keys
    ensures forall y | y in g[x] :: y in grown
  {
    grown, next := grown0, next0;
    var k := 0;
    while k < |g[x]|
      invariant k <= |g[x]|
      invariant Grows(g, start, paths, grown, next, d)
      invariant grown0.Keys <= grown.Keys
      invariant forall z | z in g[x][..k] :: z in grown
    {
      var y := g[x][k];
      if y !in grown {
        ExtendPath(g, paths[x], start, x, y);
        grown := grown[y := paths[x] + [y]];
        next := next + [y];
      }
      assert g[x][..k + 1] == g[x][..k] + [y];
      k := k + 1;
    }
    assert g[x][..k] == g[x];
  }

  /** One layer of the search: every neighbour of the frontier not yet found is found through it. */
  method Expand(g: Graph, start: string, paths: map<string, seq<string>>, frontier: seq<string>, d: nat)
    returns (grown: map<string, seq<string>>, next: seq<string>)
    requires WellFormed(g) && Layered(g, start, paths, frontier, d)
    ensures Grows(g, start, paths, grown, next, d)
    ensures forall x, y | x in frontier && y in g[x] :: y in grown
  {
    grown, next := paths, [];
    var i := 0;
    while i < |frontier|
      invariant i <= |frontier|
      invariant Grows(g, start, paths, grown, next, d)
      invariant forall x, y | x in frontier[..i] && y in g[x] :: y in grown
    {
      var x := frontier[i];
      assert x in paths;
      grown, next := Visit(g, start, paths, d, x, grown, next);
      assert frontier[..i + 1] == frontier[..i] + [x];
      i := i + 1;
    }
    assert frontier[..i] == frontier;
  }

  /** A finished layer gives the state for the next one. */
  lemma LayerStep(g: Graph, start: string, paths: map<string, seq<string>>, frontier: seq<string>, d: nat,
                  grown: map<string, seq<string>>, next: seq<string>)
    requires Layered(g, start, paths, frontier, d)
    requires Grows(g, start, paths, grown, next, d)
    requires forall x, y | x in frontier && y in g[x] :: y in grown
    ensures Layered(g, start, grown, next, d + 1)
  {
    forall y, q | IsPath(g, q, start, y) && |q| <= d + 1
      ensures y in grown && |grown[y]| <= |q|
    {
      if |q| == d + 1 && y !in paths {
        PathPrefix(g, q, start, y, d);
        var z := q[d - 1];
        assert z in paths;
        assert |paths[z]| == d;
      }
    }
  }

  /** When the search runs out of layers, everything reachable has been found. */
  lemma {:induction false} ReachableFound(g: Graph, start: string, paths: map<string, seq<string>>, d: nat,
                                          q: seq<string>, y: string)
    requires Layered(g, start, paths, [], d) && IsPath(g, q, start, y)
    ensures y in paths
    decreases |q|
  {
    if |q| > 1 {
      PathPrefix(g, q, start, y, |q| - 1);
      ReachableFound(g, start, paths, d, q[..|q| - 1], q[|q| - 2]);
      LayeredClosed(g, start, paths, d, q[|q| - 2], y);
    }
  }

  /** With an empty frontier, every neighbour of a found node has been found. */
  lemma LayeredClosed(g: Graph, start: string, paths: map<string, seq<string>>, d: nat, x: string, y: string)
    requires Layered(g, start, paths, [], d) && x in paths && x in g && y in g[x]
    ensures y in paths
  {
    assert x !in [];
  }

  lemma FewerUnfound(g: Graph, paths: map<string, seq<string>>, grown: map<string, seq<string>>, y: string)
    requires paths.Keys <= grown.Keys <= g.Keys && y in grown && y !in paths
    ensures |g.Keys - grown.Keys| < |g.Keys - paths.Keys|
  {
    var a, b := g.Keys - grown.Keys, g.Keys - paths.Keys;
    assert b == a + (b - a) && a * (b - a) == {};
    assert y in b - a;
    assert |b - a| != 0;
  }

  lemma FirstLayer(g: Graph, start: string)
    requires start in g
    ensures Layered(g, start, map[start := [start]], [start], 1)
  {
  }

  /** A node found when the search stops was found by a shortest path. */
  lemma FoundShortest(g: Graph, start: string, paths: map<string, seq<string>>, frontier: seq<string>, d: nat, end: string)
    requires Layered(g, start, paths, frontier, d) && end in paths
    ensures IsPath(g, paths[end], start, end)
    ensures forall q | IsPath(g, q, start, end) :: |paths[end]| <= |q|
  {
  }

  /** A node not found when the search runs out of layers cannot be reached. */
  lemma NotFoundUnreachable(g: Graph, start: string, paths: map<string, seq<string>>, d: nat, end: string)
    requires Layered(g, start, paths, [], d) && end !in paths
    ensures forall q :: !IsPath(g, q, start, end)
  {
    forall q ensures !IsPath(g, q, start, end) {
      if IsPath(g, q, start, end) {
        ReachableFound(g, start, paths, d, q, end);
      }
    }
  }

  /** One pass of the search loop: the next layer, with fewer nodes left to find or an empty frontier. */
  method NextLayer(g: Graph, start: string, paths: map<string, seq<string>>, frontier: seq<string>, d: nat)
    returns (grown: map<string, seq<string>>, next: seq<string>)
    requires WellFormed(g) && Layered(g, start, paths, frontier, d)
    ensures Layered(g, start, grown, next, d + 1)
    ensures |g.Keys - grown.Keys| < |g.Keys - paths.Keys| || (grown.Keys == paths.Keys && next == [])
  {
    grown, next := Expand(g, start, paths, frontier, d);
    LayerStep(g, start, paths, frontier, d, grown, next);
    if next != [] {
      FewerUnfound(g, paths, grown, next[0]);
    }
  }

  /**
   * `nx.shortest_path(G, start, end)` on a graph that has both nodes: a
   * path from `start` to `end` that no path beats, or `None` when there is
   * no path at all.
   */
  method ShortestPath(g: Graph, start: string, end: string) returns (p: Option<seq<string>>)
    requires WellFormed(g) && start in g && end in g
    ensures p.Some? ==> IsPath(g, p.value, start, end)
    ensures p.Some? ==> forall q | IsPath(g, q, start, end) :: |p.value| <= |q|
    ensures p.None? <==> forall q :: !IsPath(g, q, start, end)
  {
    var paths := map[start := [start]];
    var frontier := [start];
    var d := 1;
    FirstLayer(g, start);
    while frontier != [] && end !in paths
      invariant Layered(g, start, paths, frontier, d)
      decreases |g.Keys - paths.Keys|, |frontier|
    {
      paths, frontier := NextLayer(g, start, paths, frontier, d);
      d := d + 1;
    }
    if end in paths {
      FoundShortest(g, start, paths, frontier, d, end);
      p := Some(paths[end]);
    } else {
      NotFoundUnreachable(g, start, paths, d, end);
      p := None;
    }
  }

  /** `q` goes from `a` to `b` through location names, each step along a link. */
  ghost predicate IsRoute(s: Store, q: seq<string>, a: string, b: string)
    requires PeersInStore(s)
  {
    && |q| > 0 && q[0] == a && q[|q| - 1] == b
    && (forall i | 0 <= i < |q| :: q[i] in Names(s))
    && (forall i | 0 <= i < |q| - 1 :: Edge(s, q[i], q[i + 1]))
  }

  lemma EdgeNames(s: Store, x: string, y: string)
    requires PeersInStore(s) && Edge(s, x, y)
    ensures x in Names(s) && y in Names(s)
  {
    var j, l :| 0 <= j < |s| && l in s[j].links &&
      ((s[j].name == x && s[l.peer].name == y) || (s[j].name == y && s[l.peer].name == x));
    assert s[j].name in Names(s) && s[l.peer].name in Names(s);
  }

  /** Paths of the built graph are exactly the routes of the store. */
  lemma PathsAreRoutes(s: Store, g: Graph, q: seq<string>, a: string, b: string)
    requires PeersInStore(s) && g.Keys == Names(s)
    requires forall x, y | x in g :: y in g[x] <==> Edge(s, x, y)
    requires a in Names(s)
    ensures IsPath(g, q, a, b) <==> IsRoute(s, q, a, b)
  {
    if IsRoute(s, q, a, b) {
      forall i | 0 <= i < |q| - 1 ensures q[i] in g && q[i + 1] in g[q[i]] {
      }
    }
    if IsPath(g, q, a, b) {
      forall i | 0 <= i < |q| ensures q[i] in Names(s) {
        if i > 0 {
          assert q[i] in g[q[i - 1]];
          EdgeNames(s, q[i - 1], q[i]);
        }
      }
    }
  }

  /**
   * `find_shortest_path(location_manager, start, end)` for two location
   * names: a route with the fewest names, or `None` when the two are not
   * connected.
   */
  method FindShortestPath(s: Store, start: string, end: string) returns (p: Option<seq<string>>)
    requires PeersInStore(s) && start in Names(s) && end in Names(s)
    ensures p.Some? ==> IsRoute(s, p.value, start, end)
    ensures p.Some? ==> forall q | IsRoute(s, q, start, end) :: |p.value| <= |q|
    ensures p.None? <==> forall q :: !IsRoute(s, q, start, end)
  {
    var g := BuildGraph(s);
    p := ShortestPath(g, start, end);
    forall q ensures IsPath(g, q, start, end) <==> IsRoute(s, q, start, end) {
      PathsAreRoutes(s, g, q, start, end);
    }
  }

  /**
   * The text written between `x` and the arrow to the next name `y`:
   * `" (<type>)"` for the type `find_link_type` gives between the first
   * locations named `x` and `y`, nothing for an empty type, and `None`
   * when the lookup fails (`find_location` gives `None`, or the type is
   * `None`), where the script stops with an exception.
   */
  function StepLabel(s: Store, x: string, y: string): (r: Option<string>)
    requires PeersInStore(s)
    ensures r.Some? <==> FindLocation(s, x).Some? && FindLocation(s, y).Some?
                         && FindLinkType(s[FindLocation(s, x).value].links, FindLocation(s, y).value).Some?
  {
    match FindLocation(s, x)
    case None => None
    case Some(a) =>
      match FindLocation(s, y)
      case None => None
      case Some(b) =>
        match FindLinkType(s[a].links, b)
        case None => None
        case Some(t) => Some(TypeTag(t))
  }

  /** What a step adds after a name for link type `t`: `" (t)"`, or nothing for an empty type. */
  function TypeTag(t: string): string {
    if t == "" then "" else " (" + t + ")"
  }

  /** `find_location(x).find_link_type(find_location(y))` is `t`. */
  predicate LinkedAs(s: Store, x: string, y: string, t: string) {
    && FindLocation(s, x).Some? && FindLocation(s, y).Some?
    && FindLinkType(s[FindLocation(s, x).value].links, FindLocation(s, y).value) == Some(t)
  }

  /** Each name of the path followed by the tag of the step that leaves it (none after the last). */
  function Tagged(path: seq<string>, types: seq<string>): (r: seq<string>)
    requires |types| + 1 == |path|
    ensures |r| == |path|
  {
    seq(|path|, i requires 0 <= i < |path| => path[i] + (if i < |types| then TypeTag(types[i]) else ""))
  }

  /** Reference definition of the route string: each name, its step label and an arrow, no trailing arrow. */
  function Route(s: Store, path: seq<string>): Option<string>
    requires PeersInStore(s)
  {
    if |path| == 0 then Some("")
    else if |path| == 1 then Some(path[0])
    else match StepLabel(s, path[0], path[1])
      case None => None
      case Some(tag) =>
        match Route(s, path[1..])
        case None => None
        case Some(rest) => Some(path[0] + tag + " -> " + rest)
  }

  function Prepend(prefix: string, r: Option<string>): (p: Option<string>)
    ensures p.Some? <==> r.Some?
    ensures r.Some? ==> p.value == prefix + r.value
  {
    match r
    case None => None
    case Some(x) => Some(prefix + x)
  }

  /**
   * The loop of the `__main__` block that accumulates `output_path`;
   * `None` stands for the exception it raises when a lookup fails.
   */
  method RenderRoute(s: Store, path: seq<string>) returns (out: Option<string>)
    requires PeersInStore(s)
    ensures out == Route(s, path)
  {
    var output := "";
    var num := 0;
    assert path[0..] == path;
    PrependPrepend("", "", Route(s, path));
    while num < |path|
      invariant num <= |path|
      invariant Route(s, path) == Prepend(output, Route(s, path[num..]))
    {
      ghost var before := output;
      output := output + path[num];
      if num < |path| - 1 {
        var tag := StepText(s, path[num], path[num + 1]);
        RouteStep(s, path, num, before, if tag.Some? then tag.value else "");
        if tag.None? {
          return None;
        }
        output := output + tag.value;
        output := output + " -> ";
      } else {
        RouteStep(s, path, num, before, "");
      }
      num := num + 1;
    }
    assert path[num..] == [] && output + "" == output;
    out := Some(output);
  }

  /**
   * The lookups of one step of the loop: the type between the first
   * locations named `x` and `y`, shown as `" (<type>)"` unless it is empty;
   * `None` where a lookup gives `None` and the script raises.
   */
  method StepText(s: Store, x: string, y: string) returns (tag: Option<string>)
    requires PeersInStore(s)
    ensures tag == StepLabel(s, x, y)
  {
    var here := FindLocation(s, x);
    var there := FindLocation(s, y);
    if here.None? || there.None? {
      return None;
    }
    var methodOfTravel := FindLinkType(s[here.value].links, there.value);
    if methodOfTravel.None? {
      return None;
    }
    if methodOfTravel.value != "" {
      tag := Some(" (" + methodOfTravel.value + ")");
    } else {
      tag := Some("");
    }
  }

  /** One pass of the rendering loop: the name at `num` and, before another name, its step label and an arrow. */
  lemma RouteStep(s: Store, path: seq<string>, num: nat, before: string, tag: string)
    requires PeersInStore(s) && num < |path|
    requires Route(s, path) == Prepend(before, Route(s, path[num..]))
    ensures num == |path| - 1 ==> Route(s, path) == Prepend(before + path[num], Route(s, path[num + 1..]))
    ensures num < |path| - 1 && StepLabel(s, path[num], path[num + 1]).None? ==> Route(s, path) == None
    ensures num < |path| - 1 && StepLabel(s, path[num], path[num + 1]) == Some(tag) ==>
      Route(s, path) == Prepend(before + path[num] + tag + " -> ", Route(s, path[num + 1..]))
  {
    var p := path[num..];
    RouteHead(s, p);
    assert p[1..] == path[num + 1..];
    if num == |path| - 1 {
      PrependPrepend(before, path[num], Route(s, path[num + 1..]));
    } else if StepLabel(s, path[num], path[num + 1]) == Some(tag) {
      assert before + path[num] + tag + " -> " == before + (path[num] + tag + " -> ");
      PrependPrepend(before, path[num] + tag + " -> ", Route(s, path[num + 1..]));
    }
  }

  /** One step of `Route`. */
  lemma RouteHead(s: Store, p: seq<string>)
    requires PeersInStore(s) && |p| >= 1
    ensures |p| == 1 ==> Route(s, p) == Prepend(p[0], Route(s, p[1..]))
    ensures |p| >= 2 && StepLabel(s, p[0], p[1]).None? ==> Route(s, p) == None
    ensures |p| >= 2 && StepLabel(s, p[0], p[1]).Some? ==>
      Route(s, p) == Prepend(p[0] + StepLabel(s, p[0], p[1]).value + " -> ", Route(s, p[1..]))
  {
    if |p| == 1 {
      assert p[1..] == [] && p[0] + "" == p[0];
    }
  }

  lemma PrependPrepend(a: string, b: string, r: Option<string>)
    ensures Prepend(a, Prepend(b, r)) == Prepend(a + b, r)
    ensures Prepend("", r) == r
  {
    if r.Some? {
      assert a + (b + r.value) == (a + b) + r.value;
      assert "" + r.value == r.value;
    }
  }

  /** The route is `None` exactly when some step's lookup fails. */
  lemma {:induction false} RouteFails(s: Store, path: seq<string>)
    requires PeersInStore(s)
    ensures Route(s, path).None? <==> exists i | 0 <= i < |path| - 1 :: StepLabel(s, path[i], path[i + 1]).None?
  {
    if |path| >= 2 {
      RouteFails(s, path[1..]);
      if StepLabel(s, path[0], path[1]).Some? && Route(s, path[1..]).None? {
        var i :| 0 <= i < |path[1..]| - 1 && StepLabel(s, path[1..][i], path[1..][i + 1]).None?;
        assert StepLabel(s, path[i + 1], path[i + 2]).None?;
      }
      if exists i | 0 <= i < |path| - 1 :: StepLabel(s, path[i], path[i + 1]).None? {
        var i :| 0 <= i < |path| - 1 && StepLabel(s, path[i], path[i + 1]).None?;
        if i > 0 {
          assert StepLabel(s, path[1..][i - 1], path[1..][i]).None?;
        }
      }
    }
  }

  /** With no link types to show, the route is the names joined by `" -> "`. */
  lemma {:induction false} UntypedRoute(s: Store, path: seq<string>)
    requires PeersInStore(s)
    requires forall i | 0 <= i < |path| - 1 :: StepLabel(s, path[i], path[i + 1]) == Some("")
    ensures Route(s, path) == Some(Join(path, " -> "))
  {
    if |path| >= 2 {
      forall i | 0 <= i < |path[1..]| - 1 ensures StepLabel(s, path[1..][i], path[1..][i + 1]) == Some("") {
        assert StepLabel(s, path[i + 1], path[i + 2]) == Some("");
      }
      UntypedRoute(s, path[1..]);
      assert path[0] + "" == path[0];
    }
  }

  /**
   * The route in closed form: when step `i` goes along a link of type
   * `types[i]`, the route is each name followed by its step's tag, joined
   * by `" -> "`.
   */
  lemma {:induction false} TypedRoute(s: Store, path: seq<string>, types: seq<string>)
    requires PeersInStore(s) && |path| > 0 && |types| + 1 == |path|
    requires forall i | 0 <= i < |types| :: LinkedAs(s, path[i], path[i + 1], types[i])
    ensures Route(s, path) == Some(Join(Tagged(path, types), " -> "))
  {
    if |path| == 1 {
      assert Tagged(path, types) == [path[0] + ""];
      assert path[0] + "" == path[0];
    } else {
      assert LinkedAs(s, path[0], path[1], types[0]);
      forall i | 0 <= i < |types[1..]| ensures LinkedAs(s, path[1..][i], path[1..][i + 1], types[1..][i]) {
        assert LinkedAs(s, path[i + 1], path[i + 2], types[i + 1]);
      }
      TypedRoute(s, path[1..], types[1..]);
      assert Tagged(path, types)[1..] == Tagged(path[1..], types[1..]);
    }
  }

  /** A rendered route starts with the first name and ends with the last one: no trailing arrow. */
  lemma {:induction false} RouteEnds(s: Store, path: seq<string>)
    requires PeersInStore(s) && |path| > 0 && Route(s, path).Some?
    ensures path[0] <= Route(s, path).value
    ensures var r := Route(s, path).value; |path[|path| - 1]| <= |r| && r[|r| - |path[|path| - 1]|..] == path[|path| - 1]
  {
    if |path| >= 2 {
      RouteEnds(s, path[1..]);
      var tag := StepLabel(s, path[0], path[1]).value;
      var rest := Route(s, path[1..]).value;
      var r := Route(s, path).value;
      assert r == path[0] + (tag + " -> " + rest);
      assert r == (path[0] + tag + " -> ") + rest;
    }
  }

  lemma FirstWithName(s: Store, j: LocId)
    requires j < |s| && UniqueNames(s)
    ensures FindLocation(s, s[j].name) == Some(j)
  {
    FindLocationFirst(s, s[j].name);
  }

  /**
   * With unique names and two-sided links, every step between neighbours
   * of the graph has a link type, so a route found by `find_shortest_path`
   * always renders.
   */
  lemma StepOnEdge(s: Store, x: string, y: string)
    requires PeersInStore(s) && Symmetric(s) && UniqueNames(s) && Edge(s, x, y)
    ensures StepLabel(s, x, y).Some?
  {
    var j, l :| 0 <= j < |s| && l in s[j].links &&
      ((s[j].name == x && s[l.peer].name == y) || (s[j].name == y && s[l.peer].name == x));
    FirstWithName(s, j);
    FirstWithName(s, l.peer);
    if s[j].name == x && s[l.peer].name == y {
      FindLinkTypeFirst(s[j].links, l.peer);
      assert s[j].links[IndexOf(s[j].links, l)].peer == l.peer;
    } else {
      var back := Link(j, l.linkType);
      assert Count(s[j].links, Link(l.peer, l.linkType)) > 0;
      assert Count(s[l.peer].links, back) > 0;
      assert back in s[l.peer].links;
      FindLinkTypeFirst(s[l.peer].links, j);
      assert s[l.peer].links[IndexOf(s[l.peer].links, back)].peer == j;
    }
  }

  function IndexOf(links: seq<Link>, l: Link): (k: nat)
    requires l in links
    ensures k < |links| && links[k] == l
  {
    if links[0] == l then 0 else 1 + IndexOf(links[1..], l)
  }

  lemma RouteRenders(s: Store, q: seq<string>, a: string, b: string)
    requires PeersInStore(s) && Symmetric(s) && UniqueNames(s) && IsRoute(s, q, a, b)
    ensures Route(s, q).Some?
  {
    RouteFails(s, q);
    forall i | 0 <= i < |q| - 1 ensures StepLabel(s, q[i], q[i + 1]).Some? {
      StepOnEdge(s, q[i], q[i + 1]);
    }
  }
}
