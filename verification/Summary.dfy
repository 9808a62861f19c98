/**
 The fixed-point closure of dev/depgraph/summary.go, its agreement with the breadth-first
 search, and the duality of the two closures that `depgraph summary` prints.
 */
module Summary {
  import opened Graph
  import Trace

  /** What a summary of `pkg` holds: everything reachable, direct targets flagged. */
  ghost predicate IsSummary(rel: Relation, pkg: Vertex, m: map<Vertex, bool>) {
    && (forall v :: v in m <==> Reaches(rel, pkg, v))
    && (forall v :: v in m ==> (m[v] <==> v in Targets(rel, pkg)))
  }

  /** What holds of the map while it grows. */
  ghost predicate Partial(rel: Relation, pkg: Vertex, m: map<Vertex, bool>) {
    && (forall v :: v in m ==> Reaches(rel, pkg, v))
    && (forall v :: v in Targets(rel, pkg) ==> v in m)
    && (forall v :: v in m ==> (m[v] <==> v in Targets(rel, pkg)))
  }

  method DirectTargets(pkg: Vertex, relation: Relation) returns (m: map<Vertex, bool>)
    ensures Partial(relation, pkg, m)
  {
    m := map[];
    var direct := Targets(relation, pkg);
    for i := 0 to |direct|
      invariant forall v :: v in m ==> v in direct && m[v]
      invariant forall j :: 0 <= j < i ==> direct[j] in m
    {
      m := m[direct[i] := true];
    }
    forall v | v in m
      ensures Reaches(relation, pkg, v)
    {
      ReachesExtends(relation, pkg, pkg, v);
    }
  }

  lemma PartialGrows(rel: Relation, pkg: Vertex, m: map<Vertex, bool>, k: Vertex, v: Vertex)
    requires Partial(rel, pkg, m)
    requires k in m && v in Targets(rel, k) && v !in m
    ensures Partial(rel, pkg, m[v := false])
  {
    ReachesExtends(rel, pkg, k, v);
  }

  method FirstMissing(targets: seq<Vertex>, m: map<Vertex, bool>) returns (i: nat)
    ensures i <= |targets|
    ensures forall j :: 0 <= j < i ==> targets[j] in m
    ensures i < |targets| ==> targets[i] !in m
  {
    i := 0;
    while i < |targets| && targets[i] in m
      invariant i <= |targets| && forall j :: 0 <= j < i ==> targets[j] in m
    {
      i := i + 1;
    }
  }

  /**
   One pass of the labelled loop, over the keys in any order: adds the first target found
   missing and says so, or finds none missing.
   */
  method Pass(pkg: Vertex, relation: Relation, m0: map<Vertex, bool>) returns (m: map<Vertex, bool>, added: bool)
    requires Partial(relation, pkg, m0)
    ensures Partial(relation, pkg, m)
    ensures added ==> m0.Keys < m.Keys
    ensures !added ==> m == m0 && Closed(relation, m.Keys)
  {
    m, added := m0, false;
    var todo := m.Keys;
    while todo != {}
      invariant todo <= m.Keys
      invariant forall k, v :: k in m.Keys - todo && v in Targets(relation, k) ==> v in m
      decreases todo
    {
      var k :| k in todo;
      var targets := Targets(relation, k);
      var i := FirstMissing(targets, m);
      if i < |targets| {
        PartialGrows(relation, pkg, m, k, targets[i]);
        return m[targets[i] := false], true;
      }
      todo := todo - {k};
    }
  }

  method SummaryTraverse(pkg: Vertex, relation: Relation) returns (m: map<Vertex, bool>)
    ensures IsSummary(relation, pkg, m)
  {
    m := DirectTargets(pkg, relation);
    PartialInside(relation, pkg, m);
    var added := true;
    while added
      invariant Partial(relation, pkg, m)
      invariant m.Keys <= Vertices(relation, pkg)
      invariant !added ==> Closed(relation, m.Keys)
      decreases Vertices(relation, pkg) - m.Keys, added
    {
      m, added := Pass(pkg, relation, m);
      PartialInside(relation, pkg, m);
    }
    ClosureIsReaches(relation, pkg, m.Keys);
  }

  lemma PartialInside(rel: Relation, pkg: Vertex, m: map<Vertex, bool>)
    requires Partial(rel, pkg, m)
    ensures m.Keys <= Vertices(rel, pkg)
  {
    forall v | v in m
      ensures v in Vertices(rel, pkg)
    {
      var p :| Walk(rel, pkg, v, p) && |p| >= 2;
      WalkStaysInClosed(rel, Vertices(rel, pkg), pkg, v, p);
    }
  }

  /** Whatever order the map was iterated in, the summary is the same. */
  lemma SummaryIsUnique(rel: Relation, pkg: Vertex, m: map<Vertex, bool>, m': map<Vertex, bool>)
    requires IsSummary(rel, pkg, m) && IsSummary(rel, pkg, m')
    ensures m == m'
  {
  }

  lemma DeepSearchReachesAll(rel: Relation, pkg: Vertex, v: Vertex, n: nat)
    requires n >= |Vertices(rel, pkg)|
    ensures WithinSteps(rel, pkg, v, n) <==> v == pkg || Reaches(rel, pkg, v)
  {
    if WithinSteps(rel, pkg, v, n) {
      var p :| Walk(rel, pkg, v, p) && |p| <= n + 1;
      assert |p| == 1 ==> v == pkg;
    }
    if v == pkg {
      assert Walk(rel, pkg, v, [pkg]);
    } else if Reaches(rel, pkg, v) {
      var p :| Walk(rel, pkg, v, p) && |p| >= 2;
      BallSaturates(rel, pkg, n);
      BallMonotone(rel, pkg, 0, n);
      WalkStaysInClosed(rel, Ball(rel, pkg, n), pkg, v, p);
      BallIsWithinSteps(rel, pkg, v, n);
    }
  }

  /** From a depth of as many edges as there are vertices, the search and the closure agree. */
  lemma TraceAgreesWithSummary(rel: Relation, pkg: Vertex, maxDepth: int, packages: seq<Vertex>, m: map<Vertex, bool>)
    requires maxDepth >= |Vertices(rel, pkg)|
    requires forall v :: v in packages <==> WithinSteps(rel, pkg, v, Trace.Radius(maxDepth))
    requires IsSummary(rel, pkg, m)
    ensures forall v :: v in packages <==> v == pkg || v in m
  {
    forall v
      ensures v in packages <==> v == pkg || v in m
    {
      DeepSearchReachesAll(rel, pkg, v, maxDepth);
    }
  }

  /**
   The two closures `depgraph summary` computes are duals: `d` is a dependency of `p`, direct or
   transitive, exactly if `p` is a dependent of `d` of the same kind.
   */
  lemma DependenciesAndDependentsAreDual(imports: Relation, reverse: Relation, p: Vertex, d: Vertex,
                                         dependencies: map<Vertex, bool>, dependents: map<Vertex, bool>)
    requires Inverse(imports, reverse)
    requires IsSummary(imports, p, dependencies)
    requires IsSummary(reverse, d, dependents)
    ensures d in dependencies <==> p in dependents
    ensures d in dependencies ==> dependencies[d] == dependents[p]
  {
    ReachesBothWays(imports, reverse, p, d);
    InverseEdges(imports, reverse, p, d);
  }

  /** With a importing b and b importing c, b is a direct and c a transitive dependency of a. */
  lemma SummaryExample(m: map<Vertex, bool>)
    requires IsSummary(map["a" := ["b"], "b" := ["c"]], "a", m)
    ensures m == map["b" := true, "c" := false]
  {
    var rel: Relation := map["a" := ["b"], "b" := ["c"]];
    assert "b" != "a" && "c" != "a" && "c" != "b";
    assert Targets(rel, "a") == ["b"] && Targets(rel, "b") == ["c"] && Targets(rel, "c") == [];
    ReachesExtends(rel, "a", "a", "b");
    ReachesExtends(rel, "a", "b", "c");
    ClosureIsReaches(rel, "a", {"b", "c"});
    assert forall v :: v in m <==> v in {"b", "c"};
  }
}
