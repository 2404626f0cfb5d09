/** Dependency graphs of makefile rules, their paths and cycles (parallel_make/parmake.c). */
module RuleGraph {
  /** A target name. */
  type Key = nat

  /** For every vertex the targets its rule depends on, in order. */
  type Graph = map<Key, seq<Key>>

  ghost predicate Closed(g: Graph) {
    forall v, d :: v in g && d in g[v] ==> d in g
  }

  ghost predicate Path(g: Graph, p: seq<Key>) {
    && p != []
    && (forall i :: 0 <= i < |p| ==> p[i] in g)
    && (forall i, j :: 0 <= i < j < |p| && j == i + 1 ==> p[j] in g[p[i]])
  }

  ghost predicate PathFromTo(g: Graph, p: seq<Key>, a: Key, b: Key) {
    Path(g, p) && p[0] == a && p[|p| - 1] == b
  }

  ghost predicate Reaches(g: Graph, a: Key, b: Key) {
    exists p :: PathFromTo(g, p, a, b)
  }

  /** A path of at least one edge from a vertex to itself. */
  ghost predicate Cycle(g: Graph, p: seq<Key>) {
    Path(g, p) && |p| >= 2 && p[|p| - 1] == p[0]
  }

  ghost predicate ReachesCycle(g: Graph, a: Key) {
    exists p, c :: Cycle(g, c) && PathFromTo(g, p, a, c[0])
  }

  lemma ReachesSelf(g: Graph, a: Key)
    requires a in g
    ensures Reaches(g, a, a)
  {
    assert PathFromTo(g, [a], a, a);
  }

  lemma PathStep(g: Graph, a: Key, d: Key, p: seq<Key>, b: Key)
    requires a in g && d in g[a] && PathFromTo(g, p, d, b)
    ensures PathFromTo(g, [a] + p, a, b)
  {
    var q := [a] + p;
    assert forall i :: 0 < i < |q| ==> q[i] == p[i - 1];
  }

  lemma ReachesStep(g: Graph, a: Key, d: Key, b: Key)
    requires a in g && d in g[a] && Reaches(g, d, b)
    ensures Reaches(g, a, b)
  {
    var p :| PathFromTo(g, p, d, b);
    PathStep(g, a, d, p, b);
  }

  lemma ReachesCycleStep(g: Graph, a: Key, d: Key)
    requires a in g && d in g[a] && ReachesCycle(g, d)
    ensures ReachesCycle(g, a)
  {
    var p, c :| Cycle(g, c) && PathFromTo(g, p, d, c[0]);
    PathStep(g, a, d, p, c[0]);
  }

  /** A path that comes back to one of its vertices closes a cycle. */
  lemma PathClosesCycle(g: Graph, p: seq<Key>, i: nat)
    requires Path(g, p) && i < |p| - 1 && p[i] == p[|p| - 1]
    ensures ReachesCycle(g, p[|p| - 1])
  {
    var c := p[i..];
    assert Cycle(g, c);
    assert PathFromTo(g, [p[i]], p[i], c[0]);
  }

  lemma PathExtend(g: Graph, p: seq<Key>, d: Key)
    requires Path(g, p) && d in g && d in g[p[|p| - 1]]
    ensures Path(g, p + [d])
  {
  }

  // ---- orders in which dependencies come first ----

  ghost predicate Distinct(s: seq<Key>) {
    forall i, j :: 0 <= i < j < |s| ==> s[i] != s[j]
  }

  /** Every dependency of a listed vertex is listed before it. */
  ghost predicate DepsEarlier(g: Graph, s: seq<Key>) {
    forall i, d :: 0 <= i < |s| && s[i] in g && d in g[s[i]] ==> d in s[..i]
  }

  ghost predicate Ordered(g: Graph, s: seq<Key>) {
    Distinct(s) && DepsEarlier(g, s) && (forall i :: 0 <= i < |s| ==> s[i] in g)
  }

  lemma OrderedAppend(g: Graph, s: seq<Key>, v: Key)
    requires Ordered(g, s) && v in g && v !in s && (forall d :: d in g[v] ==> d in s)
    ensures Ordered(g, s + [v])
  {
    var r := s + [v];
    forall i, d | 0 <= i < |r| && r[i] in g && d in g[r[i]]
      ensures d in r[..i]
    {
      assert r[..i] == s[..i];
    }
  }

  function Rank(s: seq<Key>, v: Key): (r: nat)
    ensures r <= |s|
    ensures r < |s| ==> s[r] == v
    ensures v in s <==> r < |s|
  {
    if s == [] then 0 else if s[0] == v then 0 else 1 + Rank(s[1..], v)
  }

  lemma RankBelow(g: Graph, s: seq<Key>, v: Key, d: Key)
    requires Ordered(g, s) && v in s && d in g[v]
    ensures d in s && Rank(s, d) < Rank(s, v)
  {
    var i := Rank(s, v);
    assert d in s[..i];
    var j :| 0 <= j < i && s[..i][j] == d;
    assert s[j] == d;
    var k := Rank(s, d);
    assert s[k] == s[j];
  }

  /** Along a path from an ordered vertex everything is ordered and the rank falls. */
  lemma {:induction false} RankFalls(g: Graph, s: seq<Key>, p: seq<Key>, i: nat)
    requires Ordered(g, s) && Path(g, p) && p[0] in s && i < |p|
    ensures p[i] in s && (i > 0 ==> Rank(s, p[i]) < Rank(s, p[0]))
  {
    if i > 0 {
      RankFalls(g, s, p, i - 1);
      assert p[i] in g[p[i - 1]];
      RankBelow(g, s, p[i - 1], p[i]);
    }
  }

  /** An ordered vertex reaches no cycle, and reaches only ordered vertices. */
  lemma OrderedReachesNoCycle(g: Graph, s: seq<Key>, a: Key)
    requires Ordered(g, s) && a in s
    ensures !ReachesCycle(g, a)
    ensures forall b :: Reaches(g, a, b) ==> b in s
  {
    forall p, c | Cycle(g, c) && PathFromTo(g, p, a, c[0])
      ensures false
    {
      RankFalls(g, s, p, |p| - 1);
      RankFalls(g, s, c, |c| - 1);
    }
    forall b | Reaches(g, a, b)
      ensures b in s
    {
      var p :| PathFromTo(g, p, a, b);
      RankFalls(g, s, p, |p| - 1);
    }
  }

  // ---- removing vertices ----

  function Filtered(s: seq<Key>, k: Key): (r: seq<Key>)
    ensures forall x :: x in r <==> x in s && x != k
    ensures k !in s ==> r == s
  {
    if s == [] then [] else (if s[0] == k then [] else [s[0]]) + Filtered(s[1..], k)
  }

  /** `graph_remove_vertex`: the vertex and all edges to it. */
  function RemoveVertex(g: Graph, k: Key): (r: Graph)
    ensures r.Keys == g.Keys - {k}
    ensures forall v :: v in r ==> (k !in g[v] ==> r[v] == g[v]) && (forall x :: x in r[v] <==> x in g[v] && x != k)
  {
    map v | v in g && v != k :: Filtered(g[v], k)
  }

  /** On the vertices of an order that `h` leaves as they were, the two graphs have the same paths. */
  lemma SameReach(g: Graph, h: Graph, s: seq<Key>, a: Key, b: Key)
    requires Ordered(g, s) && Ordered(h, s) && a in s && (forall v :: v in s ==> v in h && h[v] == g[v])
    ensures Reaches(g, a, b) <==> Reaches(h, a, b)
  {
    if Reaches(g, a, b) {
      var p :| PathFromTo(g, p, a, b);
      SamePath(g, h, s, p);
      assert PathFromTo(h, p, a, b);
    }
    if Reaches(h, a, b) {
      var p :| PathFromTo(h, p, a, b);
      SamePath(h, g, s, p);
      assert PathFromTo(g, p, a, b);
    }
  }

  lemma SamePath(g: Graph, h: Graph, s: seq<Key>, p: seq<Key>)
    requires Ordered(g, s) && Path(g, p) && p[0] in s && (forall v :: v in s ==> v in g && v in h && h[v] == g[v])
    ensures Path(h, p)
  {
    forall i | 0 <= i < |p|
      ensures p[i] in s
    {
      RankFalls(g, s, p, i);
    }
  }

  /** A list closed under dependencies contains everything its members reach. */
  lemma {:induction false} ListedReach(g: Graph, s: seq<Key>, p: seq<Key>, i: nat)
    requires DepsEarlier(g, s) && Path(g, p) && p[0] in s && i < |p|
    ensures p[i] in s
  {
    if i > 0 {
      ListedReach(g, s, p, i - 1);
      var j :| 0 <= j < |s| && s[j] == p[i - 1];
      assert p[i] in s[..j];
    }
  }

  ghost predicate FromTargets(g: Graph, targets: seq<Key>, v: Key) {
    exists t :: t in targets && Reaches(g, t, v)
  }

  lemma ListedDescendants(g: Graph, s: seq<Key>, targets: seq<Key>, v: Key)
    requires DepsEarlier(g, s) && FromTargets(g, targets, v) && (forall t :: t in targets ==> t in s)
    ensures v in s
  {
    var t :| t in targets && Reaches(g, t, v);
    var p :| PathFromTo(g, p, t, v);
    ListedReach(g, s, p, |p| - 1);
  }
}
