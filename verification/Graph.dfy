/**
 Directed relations between packages (dev/depgraph/internal/graph/graph.go), the walks
 through them, and the facts about walks that both traversals are proved against.
 */
module Graph {

  type Vertex = string

  /** A package path mapped to the list of packages it points to; lists may repeat a target. */
  type Relation = map<Vertex, seq<Vertex>>

  /** Reading a missing key of a Go map of slices gives the empty slice. */
  function Targets(rel: Relation, v: Vertex): seq<Vertex> {
    if v in rel then rel[v] else []
  }

  // ----- Walks and distances: the reference notions -----

  /** `p` goes from `u` to `v`, each vertex pointing to the next; its length is `|p| - 1`. */
  ghost predicate Walk(rel: Relation, u: Vertex, v: Vertex, p: seq<Vertex>) {
    && |p| >= 1
    && p[0] == u
    && p[|p| - 1] == v
    && forall i :: 0 <= i < |p| - 1 ==> p[i + 1] in Targets(rel, p[i])
  }

  /** `v` can be reached from `u` by at most `n` edges. */
  ghost predicate WithinSteps(rel: Relation, u: Vertex, v: Vertex, n: nat) {
    exists p :: Walk(rel, u, v, p) && |p| <= n + 1
  }

  /** `v` can be reached from `u` by one or more edges. */
  ghost predicate Reaches(rel: Relation, u: Vertex, v: Vertex) {
    exists p :: Walk(rel, u, v, p) && |p| >= 2
  }

  /** The shortest walk from `u` to `v` has length `d`. */
  ghost predicate IsDistance(rel: Relation, u: Vertex, v: Vertex, d: nat) {
    && (exists p :: Walk(rel, u, v, p) && |p| == d + 1)
    && forall p :: Walk(rel, u, v, p) ==> |p| >= d + 1
  }

  // ----- Balls: the sets a breadth-first search computes -----

  ghost function Successors(rel: Relation, s: set<Vertex>): set<Vertex> {
    set u, v | u in s && v in Targets(rel, u) :: v
  }

  ghost function Ball(rel: Relation, root: Vertex, n: nat): set<Vertex> {
    if n == 0 then {root}
    else Ball(rel, root, n - 1) + Successors(rel, Ball(rel, root, n - 1))
  }

  lemma {:induction false} BallMonotone(rel: Relation, root: Vertex, m: nat, n: nat)
    requires m <= n
    ensures Ball(rel, root, m) <= Ball(rel, root, n)
    decreases n
  {
    if m < n {
      BallMonotone(rel, root, m, n - 1);
    }
  }

  /** Once a ball stops growing it never grows again. */
  lemma {:induction false} BallStable(rel: Relation, root: Vertex, m: nat, n: nat)
    requires Successors(rel, Ball(rel, root, m)) <= Ball(rel, root, m)
    requires m <= n
    ensures Ball(rel, root, n) == Ball(rel, root, m)
    decreases n
  {
    if m < n {
      BallStable(rel, root, m, n - 1);
    }
  }

  lemma {:induction false} WalkStaysInBall(rel: Relation, root: Vertex, v: Vertex, p: seq<Vertex>)
    requires Walk(rel, root, v, p)
    ensures v in Ball(rel, root, |p| - 1)
    decreases |p|
  {
    if |p| > 1 {
      var q := p[..|p| - 1];
      WalkStaysInBall(rel, root, q[|q| - 1], q);
      assert p[|q| - 1 + 1] in Targets(rel, p[|q| - 1]);
    }
  }

  lemma {:induction false} WalkTo(rel: Relation, root: Vertex, v: Vertex, n: nat) returns (p: seq<Vertex>)
    requires v in Ball(rel, root, n)
    ensures Walk(rel, root, v, p) && |p| <= n + 1
    decreases n
  {
    if n == 0 {
      p := [root];
    } else if v in Ball(rel, root, n - 1) {
      p := WalkTo(rel, root, v, n - 1);
    } else {
      var u :| u in Ball(rel, root, n - 1) && v in Targets(rel, u);
      var q := WalkTo(rel, root, u, n - 1);
      p := q + [v];
    }
  }

  /** The ball of radius `n` is exactly what walks of length at most `n` reach. */
  lemma BallIsWithinSteps(rel: Relation, root: Vertex, v: Vertex, n: nat)
    ensures v in Ball(rel, root, n) <==> WithinSteps(rel, root, v, n)
  {
    if v in Ball(rel, root, n) {
      var p := WalkTo(rel, root, v, n);
    }
    if WithinSteps(rel, root, v, n) {
      var p :| Walk(rel, root, v, p) && |p| <= n + 1;
      WalkStaysInBall(rel, root, v, p);
      BallMonotone(rel, root, |p| - 1, n);
    }
  }

  /** The radius at which a vertex first appears is its distance. */
  lemma FirstRadiusIsDistance(rel: Relation, root: Vertex, v: Vertex, d: nat)
    requires v in Ball(rel, root, d)
    requires d > 0 ==> v !in Ball(rel, root, d - 1)
    ensures IsDistance(rel, root, v, d)
  {
    var q := WalkTo(rel, root, v, d);
    forall p | Walk(rel, root, v, p)
      ensures |p| >= d + 1
    {
      WalkStaysInBall(rel, root, v, p);
      if |p| < d + 1 {
        BallMonotone(rel, root, |p| - 1, d - 1);
      }
    }
  }

  // ----- Saturation: a ball of radius at least the number of vertices is closed -----

  ghost predicate Closed(rel: Relation, s: set<Vertex>) {
    forall u, v :: u in s && v in Targets(rel, u) ==> v in s
  }

  /** Every vertex that `rel` mentions, and `root`. */
  ghost function Vertices(rel: Relation, root: Vertex): (s: set<Vertex>)
    ensures root in s && Closed(rel, s)
  {
    {root} + rel.Keys + set u, v | u in rel && v in rel[u] :: v
  }

  lemma SubsetSize(a: set<Vertex>, b: set<Vertex>)
    requires a <= b
    ensures |a| <= |b|
    ensures a != b ==> |a| < |b|
  {
    assert b == a + (b - a);
    if a != b {
      var x :| x in b - a;
    }
  }

  lemma {:induction false} BallInside(rel: Relation, root: Vertex, all: set<Vertex>, n: nat)
    requires root in all && Closed(rel, all)
    ensures Ball(rel, root, n) <= all
    decreases n
  {
    if n > 0 {
      BallInside(rel, root, all, n - 1);
    }
  }

  lemma GrowsUnlessClosed(rel: Relation, b: set<Vertex>)
    ensures Closed(rel, b) <==> b + Successors(rel, b) == b
  {
  }

  /** Each radius either adds a vertex or has already reached everything. */
  lemma {:induction false} BallGrows(rel: Relation, root: Vertex, n: nat)
    ensures Closed(rel, Ball(rel, root, n)) || |Ball(rel, root, n)| >= n + 1
    decreases n
  {
    if n > 0 {
      BallGrows(rel, root, n - 1);
      var b := Ball(rel, root, n - 1);
      assert Ball(rel, root, n) == b + Successors(rel, b);
      GrowsUnlessClosed(rel, b);
      SubsetSize(b, b + Successors(rel, b));
    }
  }

  lemma BallSaturates(rel: Relation, root: Vertex, n: nat)
    requires n >= |Vertices(rel, root)|
    ensures Closed(rel, Ball(rel, root, n))
  {
    BallGrows(rel, root, n);
    BallInside(rel, root, Vertices(rel, root), n);
    SubsetSize(Ball(rel, root, n), Vertices(rel, root));
  }

  // ----- Closures: what the fixed-point traversal computes -----

  /** A walk that starts in a closed set never leaves it. */
  lemma {:induction false} WalkStaysInClosed(rel: Relation, s: set<Vertex>, u: Vertex, v: Vertex, p: seq<Vertex>)
    requires Closed(rel, s) && u in s
    requires Walk(rel, u, v, p)
    ensures v in s
    decreases |p|
  {
    if |p| > 1 {
      var q := p[..|p| - 1];
      WalkStaysInClosed(rel, s, u, q[|q| - 1], q);
      assert p[|q| - 1 + 1] in Targets(rel, p[|q| - 1]);
    }
  }

  lemma ReachesExtends(rel: Relation, root: Vertex, u: Vertex, v: Vertex)
    requires u == root || Reaches(rel, root, u)
    requires v in Targets(rel, u)
    ensures Reaches(rel, root, v)
  {
    var p := [root];
    if Reaches(rel, root, u) {
      p :| Walk(rel, root, u, p) && |p| >= 2;
    }
    assert Walk(rel, root, v, p + [v]);
  }

  /** A set that holds the direct targets, is closed, and holds only reachable vertices is the closure. */
  lemma ClosureIsReaches(rel: Relation, root: Vertex, s: set<Vertex>)
    requires forall v :: v in Targets(rel, root) ==> v in s
    requires Closed(rel, s)
    requires forall v :: v in s ==> Reaches(rel, root, v)
    ensures forall v :: v in s <==> Reaches(rel, root, v)
  {
    forall v | Reaches(rel, root, v)
      ensures v in s
    {
      var p :| Walk(rel, root, v, p) && |p| >= 2;
      assert p[0 + 1] in Targets(rel, p[0]);
      assert Walk(rel, p[1], v, p[1..]);
      WalkStaysInClosed(rel, s, p[1], v, p[1..]);
    }
  }

  // ----- Reversal -----

  /** `inv` holds exactly the edges of `rel` turned around, each as often as `rel` has it. */
  ghost predicate Inverse(rel: Relation, inv: Relation) {
    forall u, v :: multiset(Targets(inv, v))[u] == multiset(Targets(rel, u))[v]
  }

  lemma InverseEdges(rel: Relation, inv: Relation, u: Vertex, v: Vertex)
    requires Inverse(rel, inv)
    ensures u in Targets(inv, v) <==> v in Targets(rel, u)
  {
  }

  ghost function Turned(p: seq<Vertex>): seq<Vertex> {
    seq(|p|, i requires 0 <= i < |p| => p[|p| - 1 - i])
  }

  lemma TurnedWalk(rel: Relation, inv: Relation, u: Vertex, v: Vertex, p: seq<Vertex>)
    requires Inverse(rel, inv)
    requires Walk(rel, u, v, p)
    ensures Walk(inv, v, u, Turned(p))
  {
  }

  lemma InverseIsSymmetric(rel: Relation, inv: Relation)
    requires Inverse(rel, inv)
    ensures Inverse(inv, rel)
  {
  }

  /** Dependencies and dependents are two views of the same walks. */
  lemma ReachesBothWays(rel: Relation, inv: Relation, u: Vertex, v: Vertex)
    requires Inverse(rel, inv)
    ensures Reaches(rel, u, v) <==> Reaches(inv, v, u)
  {
    InverseIsSymmetric(rel, inv);
    if Reaches(rel, u, v) {
      var p :| Walk(rel, u, v, p) && |p| >= 2;
      TurnedWalk(rel, inv, u, v, p);
    }
    if Reaches(inv, v, u) {
      var p :| Walk(inv, v, u, p) && |p| >= 2;
      TurnedWalk(inv, rel, v, u, p);
    }
  }

  /** Adds the edges from `dependencies` back to `pkg`. */
  method AddReversed(pkg: Vertex, dependencies: seq<Vertex>, before: Relation) returns (reversed: Relation)
    ensures forall u, v :: multiset(Targets(reversed, v))[u] ==
                           multiset(Targets(before, v))[u] + if u == pkg then multiset(dependencies)[v] else 0
  {
    reversed := before;
    for i := 0 to |dependencies|
      invariant forall u, v :: multiset(Targets(reversed, v))[u] ==
                               multiset(Targets(before, v))[u] +
                               if u == pkg then multiset(dependencies[..i])[v] else 0
    {
      var dependency := dependencies[i];
      assert dependencies[..i + 1] == dependencies[..i] + [dependency];
      reversed := reversed[dependency := Targets(reversed, dependency) + [pkg]];
    }
    assert dependencies[..|dependencies|] == dependencies;
  }

  /** The graph with all edges reversed, for any order in which the map is iterated. */
  method ReverseGraph(graph: Relation) returns (reversed: Relation)
    ensures Inverse(graph, reversed)
  {
    reversed := map[];
    var todo := graph.Keys;
    while todo != {}
      invariant todo <= graph.Keys
      invariant forall u, v :: multiset(Targets(reversed, v))[u] ==
                               if u in todo then 0 else multiset(Targets(graph, u))[v]
      decreases todo
    {
      var pkg :| pkg in todo;
      reversed := AddReversed(pkg, graph[pkg], reversed);
      todo := todo - {pkg};
    }
  }
}
