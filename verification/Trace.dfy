/**
 The depth-bounded breadth-first search of dev/depgraph/trace.go.

 Slices of the input relation are heap arrays here, because the edge list of the root is the
 input's own slice and pruning overwrites it in place.
 */
module Trace {
  import opened Graph
  import opened StringOrder

  /** A Go slice that starts at the beginning of its backing array. */
  datatype Slice = Slice(data: array<Vertex>, len: nat)

  ghost function Contents(relation: map<Vertex, array<Vertex>>): (rel: Relation)
    reads relation.Values
    ensures rel.Keys == relation.Keys
  {
    map v | v in relation :: relation[v][..]
  }

  /** The elements of `s` that lie in `kept`, in order and with repetitions. */
  ghost function Keep(s: seq<Vertex>, kept: set<Vertex>): (r: seq<Vertex>)
    ensures |r| <= |s|
  {
    if s == [] then []
    else
      var last := s[|s| - 1];
      Keep(s[..|s| - 1], kept) + if last in kept then [last] else []
  }

  /** A backing array after its slice has been filtered in place: the tail keeps its old values. */
  ghost function Compacted(s: seq<Vertex>, kept: set<Vertex>): seq<Vertex> {
    Keep(s, kept) + s[|Keep(s, kept)|..]
  }

  ghost function Radius(maxDepth: int): nat {
    if maxDepth < 0 then 0 else maxDepth
  }

  ghost function SetOf(s: seq<Vertex>): set<Vertex> {
    set x | x in s
  }

  // ----- Properties of in-place filtering -----

  lemma {:induction false} KeepAll(s: seq<Vertex>, kept: set<Vertex>)
    requires forall x :: x in s ==> x in kept
    ensures Keep(s, kept) == s
    decreases |s|
  {
    if s != [] {
      var front, last := s[..|s| - 1], s[|s| - 1];
      assert s == front + [last];
      KeepAll(front, kept);
    }
  }

  /** Filtering keeps exactly the multiplicities of the kept targets and drops all others. */
  lemma {:induction false} KeepCounts(s: seq<Vertex>, kept: set<Vertex>, x: Vertex)
    ensures multiset(Keep(s, kept))[x] == if x in kept then multiset(s)[x] else 0
    decreases |s|
  {
    if s != [] {
      KeepCounts(s[..|s| - 1], kept, x);
      assert s == s[..|s| - 1] + [s[|s| - 1]];
    }
  }

  /** No other vertex is listed before `root`. */
  ghost predicate SelfLoopsFirst(s: seq<Vertex>, root: Vertex) {
    forall i, j :: 0 <= i < j < |s| && s[j] == root ==> s[i] == root
  }

  lemma {:induction false} KeepOneVertex(s: seq<Vertex>, root: Vertex)
    ensures |Keep(s, {root})| == multiset(s)[root]
    ensures forall i :: 0 <= i < |Keep(s, {root})| ==> Keep(s, {root})[i] == root
    decreases |s|
  {
    if s != [] {
      KeepOneVertex(s[..|s| - 1], root);
      assert s == s[..|s| - 1] + [s[|s| - 1]];
    }
  }

  lemma {:induction false} CountAtMostLength(s: seq<Vertex>, root: Vertex)
    ensures multiset(s)[root] <= |s|
    ensures multiset(s)[root] == |s| <==> forall i :: 0 <= i < |s| ==> s[i] == root
    decreases |s|
  {
    if s != [] {
      var front := s[..|s| - 1];
      CountAtMostLength(front, root);
      assert s == front + [s[|s| - 1]];
      assert (forall i :: 0 <= i < |s| ==> s[i] == root) <==>
             (forall i :: 0 <= i < |front| ==> front[i] == root) && s[|s| - 1] == root;
    }
  }

  /** What compaction to the root alone leaves in the array: its roots, then the old tail. */
  lemma CompactedToRoot(s: seq<Vertex>, root: Vertex, i: nat)
    requires i < |s|
    ensures |Compacted(s, {root})| == |s| && multiset(s)[root] <= |s|
    ensures Compacted(s, {root})[i] == if i < multiset(s)[root] then root else s[i]
  {
    KeepOneVertex(s, root);
    CountAtMostLength(s, root);
  }

  lemma RootsThenRest(s: seq<Vertex>, root: Vertex)
    ensures var k := multiset(s)[root];
            k <= |s| && (Compacted(s, {root}) == s <==> forall i :: 0 <= i < k ==> s[i] == root)
  {
    var k, c := multiset(s)[root], Compacted(s, {root});
    CountAtMostLength(s, root);
    KeepOneVertex(s, root);
    if c == s {
      forall i | 0 <= i < k
        ensures s[i] == root
      {
        CompactedToRoot(s, root, i);
      }
    }
    if forall i :: 0 <= i < k ==> s[i] == root {
      forall i | 0 <= i < |s|
        ensures c[i] == s[i]
      {
        CompactedToRoot(s, root, i);
      }
    }
  }

  /** The count of a vertex up to a position and from it on. */
  lemma CountSplits(s: seq<Vertex>, i: nat, root: Vertex)
    requires i <= |s|
    ensures multiset(s)[root] == multiset(s[..i])[root] + multiset(s[i..])[root]
    ensures multiset(s[..i])[root] <= i
    ensures multiset(s[..i])[root] == i <==> forall j :: 0 <= j < i ==> s[j] == root
    ensures multiset(s[i..])[root] > 0 <==> exists j :: i <= j < |s| && s[j] == root
  {
    assert s == s[..i] + s[i..];
    CountAtMostLength(s[..i], root);
    assert multiset(s[i..])[root] > 0 <==> root in s[i..];
    if j :| i <= j < |s| && s[j] == root {
      assert s[i..][j - i] == root;
    }
  }

  /** Keeping only the root leaves the array as it was exactly if its roots already come first. */
  lemma KeepRootOnly(s: seq<Vertex>, root: Vertex)
    ensures Compacted(s, {root}) == s <==> SelfLoopsFirst(s, root)
  {
    var k := multiset(s)[root];
    RootsThenRest(s, root);
    CountSplits(s, k, root);
    if i :| 0 <= i < k && s[i] != root {
      CountSplits(s, i, root);
    }
  }

  /**
   Whether the input survives pruning can be told from the arguments: it does from depth one
   on, and at depth zero only if the root's own list names the root before anything else.
   */
  lemma InputSurvivesExactlyWhen(rel: Relation, root: Vertex, maxDepth: int)
    ensures Compacted(Targets(rel, root), Ball(rel, root, Radius(maxDepth))) == Targets(rel, root) <==>
            maxDepth >= 1 || SelfLoopsFirst(Targets(rel, root), root)
  {
    var s := Targets(rel, root);
    if maxDepth >= 1 {
      BallMonotone(rel, root, 1, maxDepth);
      assert Ball(rel, root, 0) == {root};
      assert forall x :: x in s ==> x in Successors(rel, {root});
      KeepAll(s, Ball(rel, root, maxDepth));
    } else {
      KeepRootOnly(s, root);
    }
  }

  /** At depth zero the input can be corrupted: `["a", "r"]` becomes `["r", "r"]`. */
  lemma DepthZeroCanCorruptInput()
    ensures var rel: Relation := map["r" := ["a", "r"]];
            Compacted(Targets(rel, "r"), Ball(rel, "r", 0)) == ["r", "r"]
  {
    var s: seq<Vertex> := ["a", "r"];
    assert "a" != "r";
    assert s[..1] == ["a"];
    assert Keep(["a"], {"r"}) == Keep([], {"r"}) + [];
    assert Keep(s, {"r"}) == ["r"];
  }

  // ----- The search as a function of the relation -----

  /** What the search has found and what it will look at next. */
  datatype Progress = Progress(depths: map<Vertex, int>, frontier: seq<Vertex>)

  /** Offers one vertex at `depth`: it is recorded and its targets are queued unless it is known. */
  ghost function Offer(rel: Relation, depth: int, b: Progress, v: Vertex): Progress {
    if v in b.depths then b else Progress(b.depths[v := depth], b.frontier + Targets(rel, v))
  }

  ghost function Offered(rel: Relation, depth: int, depths0: map<Vertex, int>, done: seq<Vertex>): Progress {
    if done == [] then Progress(depths0, [])
    else Offer(rel, depth, Offered(rel, depth, depths0, done[..|done| - 1]), done[|done| - 1])
  }

  /** The search after `n` rounds. */
  ghost function Round(rel: Relation, root: Vertex, n: nat): Progress {
    if n == 0 then Progress(map[root := 0], Targets(rel, root))
    else
      var before := Round(rel, root, n - 1);
      Offered(rel, n - 1, before.depths, before.frontier)
  }

  /** Vertex `v` was first met when the search looked at radius `depth + 1`. */
  ghost predicate Discovered(rel: Relation, root: Vertex, v: Vertex, depth: int) {
    depth >= 0 && v in Ball(rel, root, depth + 1) && v !in Ball(rel, root, depth)
  }

  /** After the vertices of `done` were offered at `depth`, starting from `depths0`. */
  ghost predicate Visited(rel: Relation, depth: int, depths0: map<Vertex, int>, done: seq<Vertex>,
                          depths: map<Vertex, int>, next: seq<Vertex>) {
    && depths.Keys == depths0.Keys + SetOf(done)
    && (forall v :: v in depths ==> depths[v] == if v in depths0 then depths0[v] else depth)
    && SetOf(next) == Successors(rel, depths.Keys - depths0.Keys)
  }

  lemma VisitedAgain(rel: Relation, depth: int, depths0: map<Vertex, int>, done: seq<Vertex>,
                     depths: map<Vertex, int>, next: seq<Vertex>, v: Vertex)
    requires Visited(rel, depth, depths0, done, depths, next)
    requires v in depths
    ensures Visited(rel, depth, depths0, done + [v], depths, next)
  {
  }

  lemma VisitedNew(rel: Relation, depth: int, depths0: map<Vertex, int>, done: seq<Vertex>,
                   depths: map<Vertex, int>, next: seq<Vertex>, v: Vertex)
    requires Visited(rel, depth, depths0, done, depths, next)
    requires v !in depths
    ensures Visited(rel, depth, depths0, done + [v], depths[v := depth], next + Targets(rel, v))
  {
    assert SetOf(done + [v]) == SetOf(done) + {v};
    var own := Targets(rel, v);
    assert depths[v := depth].Keys - depths0.Keys == depths.Keys - depths0.Keys + {v};
    assert SetOf(next + own) == SetOf(next) + SetOf(own);
  }

  lemma {:induction false} OfferedVisits(rel: Relation, depth: int, depths0: map<Vertex, int>, done: seq<Vertex>)
    ensures var b := Offered(rel, depth, depths0, done); Visited(rel, depth, depths0, done, b.depths, b.frontier)
    decreases |done|
  {
    if done != [] {
      var front, v := done[..|done| - 1], done[|done| - 1];
      var b := Offered(rel, depth, depths0, front);
      OfferedVisits(rel, depth, depths0, front);
      assert front + [v] == done;
      if v in b.depths {
        VisitedAgain(rel, depth, depths0, front, b.depths, b.frontier, v);
      } else {
        VisitedNew(rel, depth, depths0, front, b.depths, b.frontier, v);
      }
    }
  }

  /**
   Between rounds: a whole ball has been visited, each vertex at its own radius, and only the
   frontier can lie just outside it.
   */
  ghost predicate AtRadius(rel: Relation, root: Vertex, n: nat, depths: map<Vertex, int>, frontier: seq<Vertex>) {
    && depths.Keys == Ball(rel, root, n)
    && SetOf(frontier) <= Successors(rel, depths.Keys) <= depths.Keys + SetOf(frontier)
    && root in depths && depths[root] == 0
    && forall v :: v in depths && v != root ==> Discovered(rel, root, v, depths[v])
  }

  lemma StartRadius(rel: Relation, root: Vertex, frontier: seq<Vertex>)
    requires frontier == Targets(rel, root)
    ensures AtRadius(rel, root, 0, map[root := 0], frontier)
  {
  }

  lemma NextRadius(rel: Relation, root: Vertex, n: nat, depths: map<Vertex, int>, frontier: seq<Vertex>,
                   depths': map<Vertex, int>, frontier': seq<Vertex>)
    requires AtRadius(rel, root, n, depths, frontier)
    requires Visited(rel, n, depths, frontier, depths', frontier')
    ensures AtRadius(rel, root, n + 1, depths', frontier')
  {
  }

  /** What has been recorded at the end: the whole ball, each vertex at its own radius. */
  ghost predicate Searched(rel: Relation, root: Vertex, maxDepth: int, depths: map<Vertex, int>) {
    && depths.Keys == Ball(rel, root, Radius(maxDepth))
    && root in depths && depths[root] == 0
    && forall v :: v in depths && v != root ==> Discovered(rel, root, v, depths[v])
  }

  /** After `n` rounds the search is at radius `n`. */
  lemma {:induction false} RoundIsAtRadius(rel: Relation, root: Vertex, n: nat)
    ensures var b := Round(rel, root, n); AtRadius(rel, root, n, b.depths, b.frontier)
    decreases n
  {
    if n == 0 {
      StartRadius(rel, root, Targets(rel, root));
    } else {
      var before, after := Round(rel, root, n - 1), Round(rel, root, n);
      RoundIsAtRadius(rel, root, n - 1);
      OfferedVisits(rel, n - 1, before.depths, before.frontier);
      NextRadius(rel, root, n - 1, before.depths, before.frontier, after.depths, after.frontier);
    }
  }

  lemma LastRadius(rel: Relation, root: Vertex, n: nat, maxDepth: int, depths: map<Vertex, int>, frontier: seq<Vertex>)
    requires AtRadius(rel, root, n, depths, frontier)
    requires n <= Radius(maxDepth)
    requires n >= maxDepth || frontier == []
    ensures Searched(rel, root, maxDepth, depths)
  {
    if n < maxDepth {
      BallStable(rel, root, n, maxDepth);
    }
  }

  /** The search may stop after the last round, or when nothing is left to look at. */
  lemma SearchEnds(rel: Relation, root: Vertex, n: nat, maxDepth: int)
    requires n <= Radius(maxDepth)
    requires n >= maxDepth || Round(rel, root, n).frontier == []
    ensures Searched(rel, root, maxDepth, Round(rel, root, n).depths)
  {
    var b := Round(rel, root, n);
    RoundIsAtRadius(rel, root, n);
    LastRadius(rel, root, n, maxDepth, b.depths, b.frontier);
  }

  // ----- The traversal -----

  /** Filters one slice in place, as appending to `targets[:0]` does. */
  method PruneSlice(data: array<Vertex>, kept: set<Vertex>) returns (len: nat)
    modifies data
    ensures len <= data.Length
    ensures data[..len] == Keep(old(data[..]), kept)
    ensures data[..] == Compacted(old(data[..]), kept)
  {
    len := 0;
    ghost var was := data[..];
    for i := 0 to data.Length
      invariant len <= i
      invariant data[..len] == Keep(was[..i], kept)
      invariant data[len..] == was[len..]
    {
      assert was[..i + 1][..i] == was[..i];
      assert data[i] == data[len..][i - len] == was[len..][i - len] == was[i];
      if data[i] in kept {
        ghost var prefix, suffix := data[..len], data[len + 1..];
        data[len] := data[i];
        assert data[..len] == prefix;
        assert data[len + 1..] == suffix;
        len := len + 1;
        assert data[..len] == prefix + [was[i]];
      }
    }
    assert was[..data.Length] == was;
    assert data[..] == data[..len] + data[len..];
  }

  /** Prunes every edge list, in whatever order the map is iterated. */
  method PruneEdges(targets: map<Vertex, array<Vertex>>, kept: set<Vertex>) returns (edges: map<Vertex, Slice>)
    requires forall u, v :: u in targets && v in targets && u != v ==> targets[u] != targets[v]
    modifies targets.Values
    ensures edges.Keys == targets.Keys
    ensures forall v :: v in edges ==>
              && edges[v].data == targets[v]
              && edges[v].len <= edges[v].data.Length
              && edges[v].data[..edges[v].len] == Keep(old(targets[v][..]), kept)
              && edges[v].data[..] == Compacted(old(targets[v][..]), kept)
  {
    edges := map[];
    var todo := targets.Keys;
    while todo != {}
      invariant todo <= targets.Keys
      invariant edges.Keys == targets.Keys - todo
      invariant forall v :: v in todo ==> targets[v][..] == old(targets[v][..])
      invariant forall v :: v in edges ==>
                  && edges[v].data == targets[v]
                  && edges[v].len <= edges[v].data.Length
                  && edges[v].data[..edges[v].len] == Keep(old(targets[v][..]), kept)
                  && edges[v].data[..] == Compacted(old(targets[v][..]), kept)
      decreases todo
    {
      var v :| v in todo;
      var len := PruneSlice(targets[v], kept);
      edges := edges[v := Slice(targets[v], len)];
      todo := todo - {v};
    }
  }

  /**
   `targets` holds the lists of `rel`, each in an array of its own; only the root's array may
   belong to the input.
   */
  ghost predicate Mirrors(rel: Relation, root: Vertex, relation: map<Vertex, array<Vertex>>, targets: map<Vertex, array<Vertex>>)
    reads targets.Values
  {
    && root in targets
    && (root in relation ==> targets[root] == relation[root])
    && (forall u, v :: u in targets && v in targets && u != v ==> targets[u] != targets[v])
    && (forall v :: v in targets ==> targets[v][..] == Targets(rel, v))
  }

  /** Appending to a missing edge list copies the input's list to a new backing array. */
  method CopyTargets(ghost rel: Relation, root: Vertex, relation: map<Vertex, array<Vertex>>, pkg: Vertex,
                     targets0: map<Vertex, array<Vertex>>)
    returns (targets: map<Vertex, array<Vertex>>)
    requires rel == Contents(relation)
    requires Mirrors(rel, root, relation, targets0)
    requires pkg !in targets0
    ensures targets.Keys == targets0.Keys + {pkg}
    ensures targets == targets0[pkg := targets[pkg]] && fresh(targets[pkg])
    ensures Mirrors(rel, root, relation, targets)
  {
    var own: array<Vertex>;
    if pkg in relation {
      var source := relation[pkg];
      own := new Vertex[source.Length](i requires 0 <= i < source.Length reads source => source[i]);
    } else {
      own := new Vertex[0];
    }
    targets := targets0[pkg := own];
  }

  /** The input's own slice of the root's targets, or an empty one if the root has no entry. */
  method ShareRoot(ghost rel: Relation, root: Vertex, relation: map<Vertex, array<Vertex>>)
    returns (targets: map<Vertex, array<Vertex>>)
    requires rel == Contents(relation)
    ensures targets.Keys == {root}
    ensures Mirrors(rel, root, relation, targets)
    ensures root in relation || fresh(targets[root])
  {
    if root in relation {
      targets := map[root := relation[root]];
    } else {
      var none := new Vertex[0];
      targets := map[root := none];
    }
  }

  /** One round of the search: visits what is new on the frontier and collects the next frontier. */
  method VisitFrontier(ghost rel: Relation, root: Vertex, relation: map<Vertex, array<Vertex>>, frontier: seq<Vertex>,
                       depth: int, depths0: map<Vertex, int>, targets0: map<Vertex, array<Vertex>>)
    returns (depths: map<Vertex, int>, targets: map<Vertex, array<Vertex>>, nextFrontier: seq<Vertex>)
    requires rel == Contents(relation)
    requires Mirrors(rel, root, relation, targets0)
    requires targets0.Keys == depths0.Keys
    ensures Progress(depths, nextFrontier) == Offered(rel, depth, depths0, frontier)
    ensures Mirrors(rel, root, relation, targets)
    ensures targets.Keys == depths.Keys
    ensures forall v :: v in targets0 ==> v in targets && targets[v] == targets0[v]
    ensures forall v :: v in targets && v !in targets0 ==> fresh(targets[v])
  {
    depths, targets, nextFrontier := depths0, targets0, [];
    for i := 0 to |frontier|
      invariant Progress(depths, nextFrontier) == Offered(rel, depth, depths0, frontier[..i])
      invariant Mirrors(rel, root, relation, targets)
      invariant targets.Keys == depths.Keys
      invariant forall v :: v in targets0 ==> v in targets && targets[v] == targets0[v]
      invariant forall v :: v in targets && v !in targets0 ==> fresh(targets[v])
    {
      var pkg := frontier[i];
      assert frontier[..i + 1][..i] == frontier[..i];
      if pkg !in depths {
        targets := CopyTargets(rel, root, relation, pkg, targets);
        depths := depths[pkg := depth];
        nextFrontier := nextFrontier + targets[pkg][..];
      }
    }
    assert frontier[..|frontier|] == frontier;
  }

  /** The search itself; the lists it collects are not pruned yet. */
  method Search(ghost rel: Relation, root: Vertex, relation: map<Vertex, array<Vertex>>, maxDepth: int)
    returns (depths: map<Vertex, int>, targets: map<Vertex, array<Vertex>>)
    requires rel == Contents(relation)
    ensures Searched(rel, root, maxDepth, depths)
    ensures targets.Keys == depths.Keys
    ensures Mirrors(rel, root, relation, targets)
    ensures forall v :: v in targets && v != root ==> fresh(targets[v])
    ensures root in relation || fresh(targets[root])
  {
    targets := ShareRoot(rel, root, relation);
    var frontier := targets[root][..];
    depths := map[root := 0];
    var depth := 0;
    ghost var shared := targets[root];
    while depth < maxDepth && |frontier| > 0
      invariant 0 <= depth <= Radius(maxDepth)
      invariant Progress(depths, frontier) == Round(rel, root, depth)
      invariant targets.Keys == depths.Keys
      invariant Mirrors(rel, root, relation, targets) && targets[root] == shared
      invariant forall v :: v in targets && v != root ==> fresh(targets[v])
    {
      depths, targets, frontier := VisitFrontier(rel, root, relation, frontier, depth, depths, targets);
      depth := depth + 1;
    }
    SearchEnds(rel, root, depth, maxDepth);
  }

  /** What the search records, in terms of walks. */
  lemma DepthsAreDistances(rel: Relation, root: Vertex, maxDepth: int, depths: map<Vertex, int>)
    requires Searched(rel, root, maxDepth, depths)
    ensures forall v :: v in depths <==> WithinSteps(rel, root, v, Radius(maxDepth))
    ensures forall v :: v in depths && v != root ==>
              depths[v] >= 0 && IsDistance(rel, root, v, depths[v] + 1)
  {
    forall v
      ensures v in depths <==> WithinSteps(rel, root, v, Radius(maxDepth))
    {
      BallIsWithinSteps(rel, root, v, Radius(maxDepth));
    }
    forall v | v in depths && v != root
      ensures depths[v] >= 0 && IsDistance(rel, root, v, depths[v] + 1)
    {
      FirstRadiusIsDistance(rel, root, v, depths[v] + 1);
    }
  }

  /**
   What a traversal finds: the vertices at most `maxDepth` edges away and no others, listed in
   order, each recorded one below its distance from the root, and the root at zero.
   */
  ghost predicate Found(rel: Relation, root: Vertex, maxDepth: int, packages: seq<Vertex>, depths: map<Vertex, int>) {
    && Sorted(packages)
    && (forall v :: v in packages <==> WithinSteps(rel, root, v, Radius(maxDepth)))
    && (forall v :: v in depths <==> v in packages)
    && root in depths && depths[root] == 0
    && forall v :: v in depths && v != root ==> depths[v] >= 0 && IsDistance(rel, root, v, depths[v] + 1)
  }

  method SearchAndSort(ghost rel: Relation, root: Vertex, relation: map<Vertex, array<Vertex>>, maxDepth: int)
    returns (packages: seq<Vertex>, depths: map<Vertex, int>, targets: map<Vertex, array<Vertex>>)
    requires rel == Contents(relation)
    ensures Found(rel, root, maxDepth, packages, depths)
    ensures depths.Keys == Ball(rel, root, Radius(maxDepth))
    ensures targets.Keys == depths.Keys
    ensures Mirrors(rel, root, relation, targets)
    ensures forall v :: v in targets && v != root ==> fresh(targets[v])
    ensures root in relation || fresh(targets[root])
  {
    depths, targets := Search(rel, root, relation, maxDepth);
    DepthsAreDistances(rel, root, maxDepth, depths);
    packages := SortedList(depths.Keys);
  }

  method TraceTraverse(root: Vertex, relation: map<Vertex, array<Vertex>>, maxDepth: int)
    returns (packages: seq<Vertex>, edges: map<Vertex, Slice>, ghost depths: map<Vertex, int>)
    modifies if root in relation then {relation[root]} else {}
    ensures Found(old(Contents(relation)), root, maxDepth, packages, depths)
    // The edges are those of the input between visited vertices, in order and with repetitions.
    ensures edges.Keys == depths.Keys
    ensures forall v :: v in edges ==>
              && edges[v].len <= edges[v].data.Length
              && edges[v].data[..edges[v].len] == Keep(Targets(old(Contents(relation)), v), depths.Keys)
    // The root's list is shared with the input; what becomes of it.
    ensures root in relation ==> edges[root].data == relation[root]
    ensures root in relation ==> relation[root][..] == Compacted(old(relation[root][..]), depths.Keys)
    ensures root in relation ==>
            (relation[root][..] == old(relation[root][..]) <==> maxDepth >= 1 || SelfLoopsFirst(old(relation[root][..]), root))
    ensures maxDepth >= 1 ==> forall v :: v in relation ==> relation[v][..] == old(relation[v][..])
  {
    ghost var rel := Contents(relation);
    var packageMap, targets;
    packages, packageMap, targets := SearchAndSort(rel, root, relation, maxDepth);
    depths := packageMap;
    InputSurvivesExactlyWhen(rel, root, maxDepth);
    label pruning:
    edges := PruneEdges(targets, packageMap.Keys);
    forall v | v in relation && (root !in relation || relation[v] != relation[root])
      ensures relation[v][..] == old(relation[v][..])
    {
      assert unchanged@pruning(relation[v]);
    }
  }

  lemma BallExample(v: Vertex)
    ensures v in Ball(map["b" := ["a"]], "b", 1) <==> v == "a" || v == "b"
  {
    var rel: Relation := map["b" := ["a"]];
    assert Targets(rel, "b") == ["a"] && Ball(rel, "b", 0) == {"b"};
    assert v in Successors(rel, {"b"}) <==> v == "a" by {
      assert "a" in Targets(rel, "b");
    }
  }

  /** From b, which imports a, one step leads to a; both are listed in order. */
  lemma TraceExample(packages: seq<Vertex>, depths: map<Vertex, int>)
    requires Found(map["b" := ["a"]], "b", 1, packages, depths)
    ensures packages == ["a", "b"] && depths == map["b" := 0, "a" := 0]
  {
    var rel: Relation := map["b" := ["a"]];
    assert Targets(rel, "b") == ["a"] && "a" != "b";
    forall v
      ensures v in packages <==> v in ["a", "b"]
    {
      BallIsWithinSteps(rel, "b", v, 1);
      BallExample(v);
    }
    assert Less("a", "b");
    SortedListIsUnique(packages, ["a", "b"]);
    assert Walk(rel, "b", "a", ["b", "a"]);
  }
}
