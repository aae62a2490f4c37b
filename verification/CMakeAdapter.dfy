/** Ordering of package plans, dependencies first. */
module CMakeAdapter {
  import opened Common
  import opened Lexical
  import opened Permutations
  import opened DependencyCounts

  const PACKAGE_REQUIREMENT := "PackageRequirement"

  datatype GraphEdge = GraphEdge(kind: string, from: string, to: string)

  datatype PackagePlan = PackagePlan(packageInstance: string, source: string, cache: seq<CacheBinding>)

  datatype CacheBinding = CacheBinding(artifact: bool, name: string, kind: string, value: string)

  function Names(packages: seq<PackagePlan>): (r: seq<string>)
    ensures |r| == |packages|
    ensures forall i :: 0 <= i < |packages| ==> r[i] == packages[i].packageInstance
  {
    seq(|packages|, i requires 0 <= i < |packages| => packages[i].packageInstance)
  }

  ghost predicate Distinct(s: seq<string>) {
    forall i, j :: 0 <= i < j < |s| ==> s[i] != s[j]
  }

  function Elements(s: seq<string>): set<string> {
    set x | x in s
  }

  /* ---------- the dependency graph ---------- */

  // A set of pairs (dependent, dependency).
  type Graph = set<(string, string)>

  // The requirement an edge stands for, between the representatives of its ends.
  function Requirement(e: GraphEdge, representatives: map<string, string>, nodes: set<string>)
    : Option<(string, string)>
  {
    if e.kind == PACKAGE_REQUIREMENT && e.from in representatives && e.to in representatives &&
       representatives[e.from] != representatives[e.to] &&
       representatives[e.from] in nodes && representatives[e.to] in nodes
    then Some((representatives[e.from], representatives[e.to]))
    else None
  }

  function Requirements(edges: seq<GraphEdge>, representatives: map<string, string>, nodes: set<string>): Graph {
    if edges == [] then {}
    else
      var n := |edges| - 1;
      Requirements(edges[..n], representatives, nodes) + One(Requirement(edges[n], representatives, nodes))
  }

  function One<T>(o: Option<T>): set<T> {
    match o case None => {} case Some(x) => {x}
  }

  // Some edge says that package a requires package b: between different
  // representatives that are among the names.
  ghost predicate Requires(edges: seq<GraphEdge>, representatives: map<string, string>, names: set<string>,
                           a: string, b: string) {
    exists e :: e in edges && EdgeFrom(e, representatives, a, b) && a != b && a in names && b in names
  }

  // The edge requires a package and leads from a's representation to b's.
  predicate EdgeFrom(e: GraphEdge, representatives: map<string, string>, a: string, b: string) {
    && e.kind == "PackageRequirement" && e.from in representatives && e.to in representatives
    && representatives[e.from] == a && representatives[e.to] == b
  }

  lemma {:induction false} RequirementsMean(edges: seq<GraphEdge>, representatives: map<string, string>,
                                            nodes: set<string>, a: string, b: string)
    ensures (a, b) in Requirements(edges, representatives, nodes) <==> Requires(edges, representatives, nodes, a, b)
  {
    if edges != [] {
      var n := |edges| - 1;
      RequirementsMean(edges[..n], representatives, nodes, a, b);
      assert edges == edges[..n] + [edges[n]];
      assert forall e :: e in edges <==> e in edges[..n] || e == edges[n];
      assert Requirement(edges[n], representatives, nodes) == Some((a, b)) <==>
             EdgeFrom(edges[n], representatives, a, b) && a != b && a in nodes && b in nodes;
    }
  }

  // In the order, whatever a package requires stands before it.
  ghost predicate RespectsEdges(order: seq<string>, edges: seq<GraphEdge>, representatives: map<string, string>) {
    forall e, i, j :: e in edges && 0 <= i < |order| && 0 <= j < |order| && order[i] != order[j] ==>
      (EdgeFrom(e, representatives, order[i], order[j]) ==> j < i)
  }

  // An order of the names in which dependencies come first.
  ghost predicate Fitting(order: seq<string>, names: set<string>, edges: seq<GraphEdge>,
                          representatives: map<string, string>) {
    Distinct(order) && Elements(order) == names && RespectsEdges(order, edges, representatives)
  }

  lemma FittingIsTopological(order: seq<string>, names: set<string>, edges: seq<GraphEdge>,
                             representatives: map<string, string>)
    ensures Fitting(order, names, edges, representatives) <==>
            Topological(order, names, Requirements(edges, representatives, names))
  {
    var g := Requirements(edges, representatives, names);
    if Fitting(order, names, edges, representatives) {
      forall i, j | 0 <= i < |order| && 0 <= j < |order| && (order[i], order[j]) in g
        ensures j < i
      {
        RequirementsMean(edges, representatives, names, order[i], order[j]);
      }
    }
    if Topological(order, names, g) {
      forall e, i, j | e in edges && 0 <= i < |order| && 0 <= j < |order| && order[i] != order[j] &&
        EdgeFrom(e, representatives, order[i], order[j])
        ensures j < i
      {
        assert order[i] in Elements(order) && order[j] in Elements(order);
        RequirementsMean(edges, representatives, names, order[i], order[j]);
      }
    }
  }

  lemma {:induction false} RequirementsAreOver(edges: seq<GraphEdge>, representatives: map<string, string>,
                                               nodes: set<string>)
    ensures Over(Requirements(edges, representatives, nodes), nodes)
    ensures forall v :: (v, v) !in Requirements(edges, representatives, nodes)
  {
    if edges != [] {
      RequirementsAreOver(edges[..|edges| - 1], representatives, nodes);
    }
  }

  // Each node of the walk depends on the next.
  ghost predicate Walk(c: seq<string>, g: Graph) {
    forall i :: 0 <= i < |c| - 1 ==> (c[i], c[i + 1]) in g
  }

  ghost predicate Cycle(c: seq<string>, g: Graph) {
    c != [] && Walk(c, g) && (c[|c| - 1], c[0]) in g
  }

  ghost predicate Acyclic(g: Graph) {
    forall c :: !Cycle(c, g)
  }

  // Every dependency comes before its dependents.
  ghost predicate DependencyFirst(order: seq<string>, g: Graph) {
    forall i, j :: 0 <= i < |order| && 0 <= j < |order| && (order[i], order[j]) in g ==> j < i
  }

  ghost predicate Topological(order: seq<string>, nodes: set<string>, g: Graph) {
    Distinct(order) && Elements(order) == nodes && DependencyFirst(order, g)
  }

  // Compared node by node, a comes no later than b.
  ghost predicate NoLater(a: seq<string>, b: seq<string>) {
    a == b || exists k :: 0 <= k < |a| && k < |b| && a[..k] == b[..k] && Less(a[k], b[k])
  }

  ghost predicate LeastTopological(order: seq<string>, nodes: set<string>, g: Graph) {
    && Topological(order, nodes, g)
    && forall other :: Topological(other, nodes, g) ==> NoLater(order, other)
  }

  // done was built by always taking the least node that was ready.
  ghost predicate Greedy(done: seq<string>, nodes: set<string>, g: Graph) {
    forall i :: 0 <= i < |done| ==> IsLeast(done[i], Ready(Elements(done[..i]), nodes, g))
  }

  /* ---------- greedy orders are the least topological ones ---------- */

  lemma GreedyIsTopological(done: seq<string>, nodes: set<string>, g: Graph)
    requires Over(g, nodes) && Greedy(done, nodes, g) && Elements(done) == nodes
    ensures Topological(done, nodes, g)
  {
    forall i, j | 0 <= i < j < |done|
      ensures done[i] != done[j]
    {
      assert done[i] in done[..j];
    }
    forall i, j | 0 <= i < |done| && 0 <= j < |done| && (done[i], done[j]) in g
      ensures j < i
    {
      assert done[i] in Ready(Elements(done[..i]), nodes, g);
      assert done[j] in Elements(done);
      assert done[j] !in Pending(done[i], Elements(done[..i]), nodes, g);
      assert done[j] in Elements(done[..i]);
      var k :| 0 <= k < i && done[k] == done[j];
    }
  }

  lemma {:induction false} FirstDifference(a: seq<string>, b: seq<string>) returns (k: nat)
    requires |a| == |b| && a != b
    ensures k < |a| && a[..k] == b[..k] && a[k] != b[k]
  {
    if a[0] != b[0] {
      k := 0;
    } else {
      assert a == [a[0]] + a[1..] && b == [b[0]] + b[1..];
      k := FirstDifference(a[1..], b[1..]);
      k := k + 1;
      assert a[..k] == [a[0]] + a[1..][..k - 1] && b[..k] == [b[0]] + b[1..][..k - 1];
    }
  }

  // In a topological order, each node is ready once the ones before it are done.
  lemma TopologicalIsReady(order: seq<string>, nodes: set<string>, g: Graph, k: nat)
    requires Over(g, nodes) && Topological(order, nodes, g) && k < |order|
    ensures order[k] in Ready(Elements(order[..k]), nodes, g)
  {
    forall d | d in nodes && (order[k], d) in g
      ensures d in Elements(order[..k])
    {
      assert d in Elements(order);
      var j :| 0 <= j < |order| && order[j] == d;
      assert order[j] in order[..k];
    }
    assert order[k] in Elements(order);
  }

  lemma GreedyIsLeast(done: seq<string>, nodes: set<string>, g: Graph, other: seq<string>)
    requires Over(g, nodes) && Greedy(done, nodes, g) && Elements(done) == nodes
    requires Topological(other, nodes, g)
    ensures NoLater(done, other)
  {
    GreedyIsTopological(done, nodes, g);
    DistinctLength(done, nodes);
    DistinctLength(other, nodes);
    if done != other {
      var k := FirstDifference(done, other);
      TopologicalIsReady(other, nodes, g, k);
      assert IsLeast(done[k], Ready(Elements(done[..k]), nodes, g));
      assert Less(done[k], other[k]);
    }
  }

  lemma {:induction false} DistinctLength(s: seq<string>, nodes: set<string>)
    requires Distinct(s) && Elements(s) == nodes
    ensures |s| == |nodes|
  {
    if s != [] {
      var n := |s| - 1;
      assert s == s[..n] + [s[n]];
      assert Elements(s[..n]) == nodes - {s[n]};
      DistinctLength(s[..n], nodes - {s[n]});
    }
  }

  lemma LeastTopologicalUnique(a: seq<string>, b: seq<string>, nodes: set<string>, g: Graph)
    requires LeastTopological(a, nodes, g) && LeastTopological(b, nodes, g)
    ensures a == b
  {
    if a != b {
      var k :| 0 <= k < |a| && k < |b| && a[..k] == b[..k] && Less(a[k], b[k]);
      var l :| 0 <= l < |a| && l < |b| && b[..l] == a[..l] && Less(b[l], a[l]);
      LessIrreflexive(a[k]);
      LessIrreflexive(b[l]);
      SamePrefix(a, b, k, l);
      SamePrefix(b, a, l, k);
      LessTransitive(a[k], b[k], a[k]);
    }
  }

  lemma SamePrefix(a: seq<string>, b: seq<string>, k: nat, l: nat)
    requires k < |a| && k < |b| && l <= |a| && l <= |b| && a[..l] == b[..l]
    ensures k < l ==> a[k] == b[k]
  {
    assert k < l ==> a[k] == a[..l][k] && b[k] == b[..l][k];
  }

  /* ---------- when an order exists ---------- */

  // Positions in a dependency-first order fall along a walk.
  lemma {:induction false} WalkGoesBack(order: seq<string>, nodes: set<string>, g: Graph, c: seq<string>, i: nat)
      returns (p: nat, q: nat)
    requires Over(g, nodes) && Topological(order, nodes, g) && Cycle(c, g) && i < |c|
    ensures p < |order| && q < |order| && order[p] == c[0] && order[q] == c[i] && q <= p
  {
    if i == 0 {
      var last := c[|c| - 1];
      assert (last, c[0]) in g && c[0] in Elements(order);
      p :| 0 <= p < |order| && order[p] == c[0];
      q := p;
    } else {
      var r: nat;
      p, r := WalkGoesBack(order, nodes, g, c, i - 1);
      assert (c[i - 1], c[i]) in g && c[i] in Elements(order);
      q :| 0 <= q < |order| && order[q] == c[i];
      assert (order[r], order[q]) in g;
    }
  }

  lemma OrderedIsAcyclic(order: seq<string>, nodes: set<string>, g: Graph)
    requires Over(g, nodes) && Topological(order, nodes, g)
    ensures Acyclic(g)
  {
    if c :| Cycle(c, g) {
      var p, q := WalkGoesBack(order, nodes, g, c, |c| - 1);
      assert false;
    }
  }

  // If every node of a set depends on another node of it, walking never ends,
  // so a finite set holds a cycle.
  lemma {:induction false} StuckMeansCycle(stuck: set<string>, g: Graph, walk: seq<string>)
    requires walk != [] && Distinct(walk) && Elements(walk) <= stuck && Walk(walk, g)
    requires forall v :: v in stuck ==> exists d :: d in stuck && (v, d) in g
    ensures !Acyclic(g)
    decreases stuck - Elements(walk)
  {
    var last := walk[|walk| - 1];
    assert last in Elements(walk);
    var d :| d in stuck && (last, d) in g;
    if d in walk {
      var k :| 0 <= k < |walk| && walk[k] == d;
      assert Cycle(walk[k..], g);
    } else {
      var longer := walk + [d];
      assert Elements(longer) == Elements(walk) + {d};
      StuckMeansCycle(stuck, g, longer);
    }
  }

  lemma NothingReady(done: set<string>, nodes: set<string>, g: Graph)
    requires Over(g, nodes) && done < nodes && Ready(done, nodes, g) == {}
    ensures !Acyclic(g)
  {
    var stuck := nodes - done;
    forall v | v in stuck
      ensures exists d :: d in stuck && (v, d) in g
    {
      assert v !in Ready(done, nodes, g);
      var d :| d in Pending(v, done, nodes, g);
    }
    assert stuck != {} by {
      assert nodes == done + stuck;
    }
    var v :| v in stuck;
    assert Elements([v]) == {v};
    StuckMeansCycle(stuck, g, [v]);
  }

  /* ---------- the sort ---------- */

  method CountRequirements(nodes: set<string>, edges: seq<GraphEdge>, representatives: map<string, string>)
      returns (dependents: map<string, set<string>>, incoming: map<string, nat>)
    ensures Counted(dependents, incoming, {}, nodes, Requirements(edges, representatives, nodes))
  {
    incoming := map v | v in nodes :: 0;
    dependents := map v | v in nodes :: {};
    ghost var g: Graph := {};
    NothingCounted(nodes, dependents, incoming);
    for i := 0 to |edges|
      invariant g == Requirements(edges[..i], representatives, nodes)
      invariant Counts(incoming, {}, nodes, g) && Inverse(dependents, nodes, g)
    {
      var r := Requirement(edges[i], representatives, nodes);
      RequirementsStep(edges, i, representatives, nodes);
      if r.Some? {
        dependents, incoming := CountOne(dependents, incoming, r.value.0, r.value.1, nodes, g);
        g := g + {r.value};
      }
    }
    assert edges[..|edges|] == edges;
  }

  lemma RequirementsStep(edges: seq<GraphEdge>, i: nat, representatives: map<string, string>, nodes: set<string>)
    requires i < |edges|
    ensures Requirements(edges[..i + 1], representatives, nodes) ==
            Requirements(edges[..i], representatives, nodes) + One(Requirement(edges[i], representatives, nodes))
  {
    assert edges[..i + 1][..i] == edges[..i];
  }

  /**
   Succeeds exactly when the package instances are distinct and their
   requirements have no cycle; the result is then the packages in the least
   dependency-first order of their names.
   */
  ghost predicate SortedFirst(packages: seq<PackagePlan>, edges: seq<GraphEdge>, representatives: map<string, string>,
                              ok: bool, ordered: seq<PackagePlan>) {
    var nodes := Elements(Names(packages));
    var g := Requirements(edges, representatives, nodes);
    && (ok <==> Distinct(Names(packages)) && Acyclic(g))
    && (ok ==> multiset(ordered) == multiset(packages) && LeastTopological(Names(ordered), nodes, g))
  }

  method SortPackagesDependencyFirst(packages: seq<PackagePlan>, edges: seq<GraphEdge>,
                                     representatives: map<string, string>)
      returns (ok: bool, ordered: seq<PackagePlan>)
    ensures SortedFirst(packages, edges, representatives, ok, ordered)
  {
    var indices := IndexByName(packages);
    var nodes := indices.Keys;
    ghost var g := Requirements(edges, representatives, nodes);
    var dependents, incoming := CountRequirements(nodes, edges, representatives);
    RequirementsAreOver(edges, representatives, nodes);

    var ready := set v | v in incoming && incoming[v] == 0;
    InitiallyReady(incoming, nodes, g);
    ordered := [];
    ghost var done: seq<string> := [];
    assert Elements(done) == {} && Taken(done, nodes, g) && Collected(ordered, done, packages);
    while ready != {}
      invariant Taken(done, nodes, g) && Elements(done) <= nodes && ready == Ready(Elements(done), nodes, g)
      invariant Counted(dependents, incoming, Elements(done), nodes, g)
      invariant Collected(ordered, done, packages)
      decreases nodes - Elements(done)
    {
      var package: string;
      package, incoming, ready := TakeFirst(done, dependents, incoming, ready, nodes, g);
      CollectOne(ordered, done, packages, indices[package]);
      ordered := ordered + [packages[indices[package]]];
      done := done + [package];
    }
    ok := |ordered| == |packages|;
    SortOutcome(packages, ordered, done, nodes, g);
  }

  // ordered holds packages whose names are done.
  ghost predicate Collected(ordered: seq<PackagePlan>, done: seq<string>, packages: seq<PackagePlan>) {
    forall s {:trigger Opened(s)} :: Opened(s) ==>
      done == Names(ordered) && forall i :: 0 <= i < |ordered| ==> ordered[i] in packages
  }

  lemma CollectOne(ordered: seq<PackagePlan>, done: seq<string>, packages: seq<PackagePlan>, i: nat)
    requires Collected(ordered, done, packages) && i < |packages|
    ensures Collected(ordered + [packages[i]], done + [packages[i].packageInstance], packages)
  {
    assert Opened(Seal);
    assert Names(ordered + [packages[i]]) == Names(ordered) + [packages[i].packageInstance];
  }

  // One round of the loop: the first ready package is taken and its dependents released.
  method TakeFirst(ghost done: seq<string>, dependents: map<string, set<string>>, incoming: map<string, nat>,
                   ready: set<string>, ghost nodes: set<string>, ghost g: Graph)
      returns (package: string, incoming': map<string, nat>, ready': set<string>)
    requires Taken(done, nodes, g) && Counted(dependents, incoming, Elements(done), nodes, g)
    requires Over(g, nodes) && (forall v :: (v, v) !in g)
    requires ready != {} && ready == Ready(Elements(done), nodes, g)
    ensures package in nodes && package !in Elements(done)
    ensures Elements(done + [package]) == Elements(done) + {package}
    ensures Taken(done + [package], nodes, g)
    ensures Counted(dependents, incoming', Elements(done + [package]), nodes, g)
    ensures ready' == Ready(Elements(done + [package]), nodes, g)
  {
    package := First(ready);
    ghost var left := TakeOne(done, package, dependents, incoming, nodes, g);
    incoming', ready' := Release(dependents[package], incoming, ready - {package}, left);
  }

  // done is a dependency-closed list of nodes, taken greedily.
  ghost predicate Taken(done: seq<string>, nodes: set<string>, g: Graph) {
    forall s {:trigger Opened(s)} :: Opened(s) ==> TakenBody(done, nodes, g)
  }

  ghost predicate TakenBody(done: seq<string>, nodes: set<string>, g: Graph) {
    && Elements(done) <= nodes && Distinct(done) && Greedy(done, nodes, g)
    && forall v :: v in Elements(done) ==> Pending(v, Elements(done), nodes, g) == {}
  }

  // What one round of the loop leaves behind.
  lemma TakeOne(done: seq<string>, p: string, dependents: map<string, set<string>>, incoming: map<string, nat>,
                nodes: set<string>, g: Graph) returns (left: map<string, nat>)
    requires Taken(done, nodes, g) && Counted(dependents, incoming, Elements(done), nodes, g)
    requires Over(g, nodes) && (p, p) !in g && IsLeast(p, Ready(Elements(done), nodes, g))
    ensures left.Keys == nodes && p in nodes && dependents[p] <= nodes
    ensures forall v :: v in nodes ==> incoming[v] == left[v] + (if v in dependents[p] then 1 else 0)
    ensures Taken(done + [p], nodes, g) && Elements(done + [p]) == Elements(done) + {p} && p !in Elements(done)
    ensures Counted(dependents, left, Elements(done + [p]), nodes, g)
    ensures Ready(Elements(done), nodes, g) - {p} + (set v | v in dependents[p] && left[v] == 0) ==
            Ready(Elements(done + [p]), nodes, g)
  {
    assert Opened(Seal);
    left := map v | v in nodes :: |Pending(v, Elements(done) + {p}, nodes, g)|;
    forall v | v in nodes
      ensures incoming[v] == left[v] + (if v in dependents[p] then 1 else 0)
    {
      CountAfter(dependents, incoming, Elements(done), nodes, g, p, v);
    }
    forall v | v in nodes
      ensures CountedAt(left, v, Elements(done) + {p}, nodes, g)
    {
    }
    ReadyAfter(dependents, incoming, Elements(done), nodes, g, p, left);
    GreedyStep(done, p, nodes, g);
    assert (set v | v in dependents[p] && v in left && left[v] == 0) == set v | v in dependents[p] && left[v] == 0;
  }

  method IndexByName(packages: seq<PackagePlan>) returns (indices: map<string, nat>)
    ensures indices.Keys == Elements(Names(packages))
    ensures forall v :: v in indices ==> indices[v] < |packages| && packages[indices[v]].packageInstance == v
  {
    indices := map[];
    for i := 0 to |packages|
      invariant indices.Keys == Elements(Names(packages)[..i])
      invariant forall v :: v in indices ==> indices[v] < |packages| && packages[indices[v]].packageInstance == v
    {
      assert Names(packages)[..i + 1] == Names(packages)[..i] + [packages[i].packageInstance];
      if packages[i].packageInstance !in indices {
        indices := indices[packages[i].packageInstance := i];
      }
    }
    assert Names(packages)[..|packages|] == Names(packages);
  }

  lemma GreedyStep(done: seq<string>, p: string, nodes: set<string>, g: Graph)
    requires Greedy(done, nodes, g) && Distinct(done)
    requires IsLeast(p, Ready(Elements(done), nodes, g))
    requires forall v :: v in Elements(done) ==> Pending(v, Elements(done), nodes, g) == {}
    ensures Greedy(done + [p], nodes, g) && Distinct(done + [p])
    ensures Elements(done + [p]) == Elements(done) + {p}
    ensures forall v :: v in Elements(done + [p]) ==> Pending(v, Elements(done + [p]), nodes, g) == {}
  {
    var longer := done + [p];
    assert Elements(longer) == Elements(done) + {p};
    forall v | v in Elements(longer)
      ensures Pending(v, Elements(longer), nodes, g) == {}
    {
      PendingAfter(v, Elements(done), p, nodes, g);
    }
    forall i | 0 <= i < |longer|
      ensures IsLeast(longer[i], Ready(Elements(longer[..i]), nodes, g))
    {
      if i < |done| {
        assert longer[..i] == done[..i];
      } else {
        assert longer[..i] == done;
      }
    }
  }

  lemma SortOutcome(packages: seq<PackagePlan>, ordered: seq<PackagePlan>, done: seq<string>,
                    nodes: set<string>, g: Graph)
    requires nodes == Elements(Names(packages)) && Over(g, nodes)
    requires Collected(ordered, done, packages) && Taken(done, nodes, g) && Ready(Elements(done), nodes, g) == {}
    ensures |ordered| == |packages| <==> Distinct(Names(packages)) && Acyclic(g)
    ensures |ordered| == |packages| ==>
              multiset(ordered) == multiset(packages) && LeastTopological(Names(ordered), nodes, g)
  {
    assert Opened(Seal);
    DistinctLength(done, Elements(done));
    if Elements(done) == nodes {
      GreedyIsTopological(done, nodes, g);
      OrderedIsAcyclic(done, nodes, g);
      forall other | Topological(other, nodes, g)
        ensures NoLater(done, other)
      {
        GreedyIsLeast(done, nodes, g, other);
      }
    } else {
      NothingReady(Elements(done), nodes, g);
      ProperSubsetIsSmaller(Elements(done), nodes);
    }
    NamesLength(Names(packages));
    if |ordered| == |packages| {
      SamePackages(packages, ordered);
    }
  }

  lemma ProperSubsetIsSmaller(a: set<string>, b: set<string>)
    requires a < b
    ensures |a| < |b|
  {
    assert b == a + (b - a);
  }

  // A list is as long as its set of elements exactly when nothing repeats.
  lemma {:induction false} NamesLength(s: seq<string>)
    ensures |Elements(s)| <= |s|
    ensures |Elements(s)| == |s| <==> Distinct(s)
  {
    if s == [] {
      assert Elements(s) == {};
    } else {
      var n := |s| - 1;
      var rest := s[..n];
      NamesLength(rest);
      assert s == rest + [s[n]];
      assert Elements(s) == Elements(rest) + {s[n]};
      if s[n] in rest {
        var k :| 0 <= k < n && rest[k] == s[n];
        assert s[k] == s[n];
        assert Elements(s) == Elements(rest);
      } else {
        assert Distinct(s) <==> Distinct(rest) by {
          assert forall i :: 0 <= i < n ==> s[i] == rest[i];
          assert forall i :: 0 <= i < n ==> rest[i] in rest;
        }
      }
    }
  }

  lemma SamePackages(packages: seq<PackagePlan>, ordered: seq<PackagePlan>)
    requires |ordered| == |packages| && Distinct(Names(ordered)) && Distinct(Names(packages))
    requires forall i :: 0 <= i < |ordered| ==> ordered[i] in packages
    ensures multiset(ordered) == multiset(packages)
  {
    var a, b := set p | p in ordered, set p | p in packages;
    PackagesOnce(ordered);
    PackagesOnce(packages);
    assert a <= b;
    SubsetOfSameSize(a, b);
  }

  lemma SubsetOfSameSize<T>(a: set<T>, b: set<T>)
    requires a <= b && |a| == |b|
    ensures a == b
  {
    assert b == a + (b - a);
  }

  lemma {:induction false} PackagesOnce(s: seq<PackagePlan>)
    requires Distinct(Names(s))
    ensures multiset(s) == multiset(set p | p in s)
    ensures |set p | p in s| == |s|
  {
    if s == [] {
      assert (set p | p in s) == {};
    } else {
      var n := |s| - 1;
      var rest := s[..n];
      DistinctPrefix(s, n);
      PackagesOnce(rest);
      assert s == rest + [s[n]];
      assert (set p | p in s) == (set p | p in rest) + {s[n]};
    }
  }

  lemma DistinctPrefix(s: seq<PackagePlan>, n: nat)
    requires Distinct(Names(s)) && n < |s|
    ensures Distinct(Names(s[..n])) && s[n] !in s[..n]
  {
    var names := Names(s);
    assert forall i :: 0 <= i < n ==> Names(s[..n])[i] == names[i];
    forall k | 0 <= k < n
      ensures s[..n][k] != s[n]
    {
      assert names[k] != names[n];
    }
  }

  /**
   What a caller gets, in terms of the edges alone: sorting succeeds exactly when
   the names are distinct and can be ordered with dependencies first; the result
   is then a permutation in such an order, and no later than any other.
   */
  lemma SortedFirstMeans(packages: seq<PackagePlan>, edges: seq<GraphEdge>, representatives: map<string, string>,
                         ok: bool, ordered: seq<PackagePlan>)
    requires SortedFirst(packages, edges, representatives, ok, ordered)
    ensures var names := Elements(Names(packages));
      && (ok <==> Distinct(Names(packages)) && exists order :: Fitting(order, names, edges, representatives))
      && (ok ==> multiset(ordered) == multiset(packages) && Fitting(Names(ordered), names, edges, representatives))
      && (ok ==> forall other :: Fitting(other, names, edges, representatives) ==> NoLater(Names(ordered), other))
  {
    var names := Elements(Names(packages));
    var g := Requirements(edges, representatives, names);
    forall order
      ensures Fitting(order, names, edges, representatives) <==> Topological(order, names, g)
    {
      FittingIsTopological(order, names, edges, representatives);
    }
    if order :| Fitting(order, names, edges, representatives) {
      RequirementsAreOver(edges, representatives, names);
      OrderedIsAcyclic(order, names, g);
    }
  }

  /** Neither whether sorting succeeds nor its result depends on the order of the
      packages or of the edges. */
  lemma OrderIndependent(packages: seq<PackagePlan>, edges: seq<GraphEdge>, packages': seq<PackagePlan>,
                         edges': seq<GraphEdge>, representatives: map<string, string>,
                         ok: bool, ordered: seq<PackagePlan>, ok': bool, ordered': seq<PackagePlan>)
    requires multiset(packages) == multiset(packages') && multiset(edges) == multiset(edges')
    requires SortedFirst(packages, edges, representatives, ok, ordered)
    requires SortedFirst(packages', edges', representatives, ok', ordered')
    ensures ok == ok' && (ok ==> ordered == ordered')
  {
    SameNames(packages, packages');
    var nodes := Elements(Names(packages));
    SameRequirements(edges, edges', representatives, nodes);
    if ok {
      SameDistinct(packages, packages');
    }
    if ok' {
      SameDistinct(packages', packages);
    }
    if ok && ok' {
      LeastTopologicalUnique(Names(ordered), Names(ordered'), nodes, Requirements(edges, representatives, nodes));
      SameOrder(ordered, ordered');
    }
  }

  lemma SameRequirements(edges: seq<GraphEdge>, edges': seq<GraphEdge>, representatives: map<string, string>,
                         nodes: set<string>)
    requires multiset(edges) == multiset(edges')
    ensures Requirements(edges, representatives, nodes) == Requirements(edges', representatives, nodes)
  {
    assert forall e :: e in edges <==> e in multiset(edges);
    assert forall e :: e in edges' <==> e in multiset(edges');
    forall r: (string, string)
      ensures r in Requirements(edges, representatives, nodes) <==> r in Requirements(edges', representatives, nodes)
    {
      RequirementsMean(edges, representatives, nodes, r.0, r.1);
      RequirementsMean(edges', representatives, nodes, r.0, r.1);
    }
  }

  lemma SameOrder(ordered: seq<PackagePlan>, ordered': seq<PackagePlan>)
    requires multiset(ordered) == multiset(ordered') && Names(ordered) == Names(ordered') && Distinct(Names(ordered))
    ensures ordered == ordered'
  {
    assert |ordered| == |Names(ordered)| == |ordered'|;
    forall i | 0 <= i < |ordered|
      ensures ordered[i] == ordered'[i]
    {
      assert ordered[i] in multiset(ordered) && ordered[i] in multiset(ordered');
      var k :| 0 <= k < |ordered'| && ordered'[k] == ordered[i];
      assert Names(ordered')[k] == Names(ordered)[i] == Names(ordered')[i];
    }
  }

  lemma SameDistinct(a: seq<PackagePlan>, b: seq<PackagePlan>)
    requires multiset(a) == multiset(b) && Distinct(Names(a))
    ensures Distinct(Names(b))
  {
    var key := (p: PackagePlan) => p.packageInstance;
    assert forall i :: 0 <= i < |a| ==> Names(a)[i] == key(a[i]);
    assert forall i :: 0 <= i < |b| ==> Names(b)[i] == key(b[i]);
    StayDistinct(a, b, key);
  }

  lemma SameNames(a: seq<PackagePlan>, b: seq<PackagePlan>)
    requires multiset(a) == multiset(b)
    ensures Elements(Names(a)) == Elements(Names(b))
  {
    forall x | x in Names(a)
      ensures x in Names(b)
    {
      var i :| 0 <= i < |a| && Names(a)[i] == x;
      assert a[i] in multiset(b);
      var j :| 0 <= j < |b| && b[j] == a[i];
      assert Names(b)[j] == x;
    }
    forall x | x in Names(b)
      ensures x in Names(a)
    {
      var i :| 0 <= i < |b| && Names(b)[i] == x;
      assert b[i] in multiset(a);
      var j :| 0 <= j < |a| && a[j] == b[i];
      assert Names(a)[j] == x;
    }
  }
}
