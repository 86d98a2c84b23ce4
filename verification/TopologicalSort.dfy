/**
 * The publish order: Kahn's algorithm over the local-dependency graph of the
 * discovered packages. An edge runs from a dependency to each package that
 * lists it, once per listing; names that match no package add no edge.
 */
module PublishOrder {
  import opened Wrappers
  import opened Manifest

  /** (dependency, dependent) */
  type Edge = (string, string)

  /** The package names. */
  function NameSet(ps: seq<Package>): (names: set<string>)
    ensures forall k :: 0 <= k < |ps| ==> ps[k].name in names
    ensures forall n :: n in names ==> exists k :: 0 <= k < |ps| && ps[k].name == n
  {
    if |ps| == 0 then {}
    else
      var r := NameSet(ps[..|ps| - 1]) + {ps[|ps| - 1].name};
      assert forall k :: 0 <= k < |ps| - 1 ==> ps[..|ps| - 1][k] == ps[k];
      r
  }

  predicate DistinctNames(ps: seq<Package>)
  {
    forall i, j :: 0 <= i < j < |ps| ==> ps[i].name != ps[j].name
  }

  predicate NoDuplicates<T(==)>(s: seq<T>)
  {
    forall i, j :: 0 <= i < j < |s| ==> s[i] != s[j]
  }

  /**
   * Every package comes after each package it lists as a local dependency;
   * in particular no package lists itself.
   */
  predicate RespectsDependencies(order: seq<Package>)
  {
    forall i, j :: 0 <= i < |order| && 0 <= j < |order| && order[i].name in order[j].localDependencies ==> i < j
  }

  /** `order` publishes exactly the given packages, each after its local dependencies. */
  predicate IsPublishOrder(order: seq<Package>, ps: seq<Package>)
  {
    multiset(order) == multiset(ps) && RespectsDependencies(order)
  }

  /** `package_map`: the last package with a given name wins. */
  function PackageMap(ps: seq<Package>): (m: map<string, Package>)
    ensures m.Keys == NameSet(ps)
    ensures forall n :: n in m ==> m[n].name == n && m[n] in ps
  {
    if |ps| == 0 then map[]
    else
      var last := ps[|ps| - 1];
      var m := PackageMap(ps[..|ps| - 1])[last.name := last];
      assert forall p :: p in ps[..|ps| - 1] ==> p in ps;
      m
  }

  /** The edges one package contributes, one per listed dependency that names a package. */
  function DependencyEdges(deps: seq<string>, dependent: string, known: set<string>): seq<Edge>
  {
    if |deps| == 0 then []
    else
      var d := deps[|deps| - 1];
      DependencyEdges(deps[..|deps| - 1], dependent, known) + (if d in known then [(d, dependent)] else [])
  }

  /** The dependency graph, as the list of edges in the order they are added. */
  function Edges(ps: seq<Package>, known: set<string>): seq<Edge>
  {
    if |ps| == 0 then []
    else
      var p := ps[|ps| - 1];
      Edges(ps[..|ps| - 1], known) + DependencyEdges(p.localDependencies, p.name, known)
  }

  lemma {:induction false} DependencyEdgesMember(deps: seq<string>, dependent: string, known: set<string>, e: Edge)
    ensures e in DependencyEdges(deps, dependent, known) <==> e.1 == dependent && e.0 in known && e.0 in deps
  {
    if |deps| > 0 {
      DependencyEdgesMember(deps[..|deps| - 1], dependent, known, e);
      assert deps == deps[..|deps| - 1] + [deps[|deps| - 1]];
    }
  }

  /** An edge is in the graph exactly when some package lists its source, a known name, as a dependency. */
  lemma {:induction false} EdgesMember(ps: seq<Package>, known: set<string>, e: Edge)
    ensures e in Edges(ps, known) <==>
            e.0 in known && exists k :: 0 <= k < |ps| && ps[k].name == e.1 && e.0 in ps[k].localDependencies
  {
    if |ps| > 0 {
      var init := ps[..|ps| - 1];
      var p := ps[|ps| - 1];
      EdgesMember(init, known, e);
      DependencyEdgesMember(p.localDependencies, p.name, known, e);
      assert forall k :: 0 <= k < |init| ==> init[k] == ps[k];
    }
  }

  /** The dependents `x` releases, one per edge leaving it, in edge order. */
  function Targets(E: seq<Edge>, x: string): seq<string>
  {
    if |E| == 0 then []
    else Targets(E[..|E| - 1], x) + (if E[|E| - 1].0 == x then [E[|E| - 1].1] else [])
  }

  /** The number of edges into `n` whose source is not yet published. */
  function Pending(E: seq<Edge>, n: string, done: set<string>): nat
  {
    if |E| == 0 then 0
    else Pending(E[..|E| - 1], n, done) + (if E[|E| - 1].1 == n && E[|E| - 1].0 !in done then 1 else 0)
  }

  lemma {:induction false} TargetsMember(E: seq<Edge>, x: string, t: string)
    ensures t in Targets(E, x) <==> (x, t) in E
  {
    if |E| > 0 {
      TargetsMember(E[..|E| - 1], x, t);
      assert E == E[..|E| - 1] + [E[|E| - 1]];
    }
  }

  /** Publishing `x` removes from each count exactly the edges `x` releases. */
  lemma {:induction false} PendingRelease(E: seq<Edge>, n: string, done: set<string>, x: string)
    requires x !in done
    ensures Pending(E, n, done) == Pending(E, n, done + {x}) + multiset(Targets(E, x))[n]
  {
    if |E| > 0 {
      PendingRelease(E[..|E| - 1], n, done, x);
    }
  }

  lemma {:induction false} PendingZero(E: seq<Edge>, n: string, done: set<string>)
    requires Pending(E, n, done) == 0
    ensures forall e :: e in E && e.1 == n ==> e.0 in done
  {
    if |E| > 0 {
      PendingZero(E[..|E| - 1], n, done);
      assert E == E[..|E| - 1] + [E[|E| - 1]];
    }
  }

  lemma {:induction false} PendingPositive(E: seq<Edge>, n: string, done: set<string>)
    requires Pending(E, n, done) > 0
    ensures exists e :: e in E && e.1 == n && e.0 !in done
  {
    if Pending(E[..|E| - 1], n, done) > 0 {
      PendingPositive(E[..|E| - 1], n, done);
      var e :| e in E[..|E| - 1] && e.1 == n && e.0 !in done;
      assert e in E;
    } else {
      assert E[|E| - 1] in E;
    }
  }

  lemma {:induction false} NoEdgeNoPending(E: seq<Edge>, n: string, done: set<string>)
    requires forall e :: e in E ==> e.1 != n
    ensures Pending(E, n, done) == 0
  {
    if |E| > 0 {
      assert forall e :: e in E[..|E| - 1] ==> e in E;
      NoEdgeNoPending(E[..|E| - 1], n, done);
      assert E[|E| - 1] in E;
    }
  }

  lemma DistinctNamesSnoc(ps: seq<Package>)
    requires |ps| > 0
    ensures DistinctNames(ps) <==> DistinctNames(ps[..|ps| - 1]) && ps[|ps| - 1].name !in NameSet(ps[..|ps| - 1])
  {
    var init := ps[..|ps| - 1];
    assert forall k :: 0 <= k < |init| ==> init[k] == ps[k];
  }

  /** There are never more names than packages, and exactly as many when they are distinct. */
  lemma {:induction false} NameSetSize(ps: seq<Package>)
    ensures |NameSet(ps)| <= |ps|
    ensures |NameSet(ps)| == |ps| <==> DistinctNames(ps)
  {
    if |ps| > 0 {
      var init := ps[..|ps| - 1];
      NameSetSize(init);
      DistinctNamesSnoc(ps);
      assert NameSet(ps) == NameSet(init) + {ps[|ps| - 1].name};
    }
  }

  lemma {:induction false} SubsetSize<T>(a: set<T>, b: set<T>)
    requires a <= b
    ensures |a| <= |b|
    decreases a
  {
    if a != {} {
      var x :| x in a;
      SubsetSize(a - {x}, b - {x});
    }
  }

  lemma ProperSubset<T>(a: set<T>, b: set<T>)
    requires a <= b && |a| < |b|
    ensures b - a != {}
  {
    if b - a == {} {
      forall x | x in b
        ensures x in a
      {
        assert x !in b - a;
      }
      SubsetSize(b, a);
    }
  }

  lemma SubsetSameSize<T>(a: set<T>, b: set<T>)
    requires a <= b && |a| >= |b|
    ensures a == b
  {
    if b - a != {} {
      var x :| x in b - a;
      SubsetSize(a, b - {x});
    }
  }

  function Elements<T>(s: seq<T>): set<T>
  {
    set x | x in s
  }

  lemma {:induction false} DistinctSize<T>(s: seq<T>)
    requires NoDuplicates(s)
    ensures |Elements(s)| == |s|
  {
    if |s| > 0 {
      var init := s[..|s| - 1];
      assert Elements(s) == Elements(init) + {s[|s| - 1]};
      DistinctSize(init);
    }
  }

  lemma {:induction false} DistinctCounts<T>(s: seq<T>)
    requires NoDuplicates(s)
    ensures forall x :: multiset(s)[x] == if x in s then 1 else 0
  {
    if |s| > 0 {
      var init := s[..|s| - 1];
      assert s == init + [s[|s| - 1]];
      DistinctCounts(init);
    }
  }

  /** Two duplicate-free lists of the same length, the first contained in the second, hold the same elements. */
  lemma SameElements<T>(a: seq<T>, b: seq<T>)
    requires |a| == |b| && NoDuplicates(a) && NoDuplicates(b)
    requires forall x :: x in a ==> x in b
    ensures multiset(a) == multiset(b)
  {
    DistinctSize(a);
    DistinctSize(b);
    SubsetSameSize(Elements(a), Elements(b));
    DistinctCounts(a);
    DistinctCounts(b);
    assert forall x :: x in a <==> x in Elements(b);
    assert forall x :: multiset(a)[x] == multiset(b)[x];
  }

  /** With distinct names, a package of the order that has the name of an input package is that package. */
  lemma SameNameSamePackage(ps: seq<Package>, order: seq<Package>, k: nat, m: nat)
    requires DistinctNames(ps) && multiset(order) == multiset(ps)
    requires k < |order| && m < |ps| && order[k].name == ps[m].name
    ensures order[k] == ps[m]
  {
    assert order[k] in multiset(ps);
    var m' :| 0 <= m' < |ps| && ps[m'] == order[k];
  }

  /** Every input package has a position in the order. */
  lemma Placed(ps: seq<Package>, order: seq<Package>, m: nat) returns (k: nat)
    requires multiset(order) == multiset(ps) && m < |ps|
    ensures k < |order| && order[k] == ps[m]
  {
    assert ps[m] in multiset(order);
    k :| 0 <= k < |order| && order[k] == ps[m];
  }

  /** Some edge into `n` leaves a name of `stuck`. */
  ghost predicate WaitsWithin(E: seq<Edge>, stuck: set<string>, n: string)
  {
    exists e :: e in E && e.1 == n && e.0 in stuck
  }

  /** Every name of `stuck` waits on a name of `stuck`. */
  ghost predicate Stuck(E: seq<Edge>, stuck: set<string>)
  {
    forall n {:trigger WaitsWithin(E, stuck, n)} :: n in stuck ==> WaitsWithin(E, stuck, n)
  }

  /**
   * The heart of completeness: if every name of a set `stuck` has a
   * dependency inside `stuck`, no package of `stuck` can be placed in an order
   * that respects dependencies, by induction over the positions of the order.
   */
  lemma {:induction false} StuckNeverPlaced(ps: seq<Package>, stuck: set<string>, order: seq<Package>, k: nat)
    requires DistinctNames(ps)
    requires stuck <= NameSet(ps)
    requires Stuck(Edges(ps, NameSet(ps)), stuck)
    requires multiset(order) == multiset(ps) && RespectsDependencies(order)
    requires k < |order|
    ensures order[k].name !in stuck
    decreases k
  {
    if order[k].name in stuck {
      assert WaitsWithin(Edges(ps, NameSet(ps)), stuck, order[k].name);
      var e :| e in Edges(ps, NameSet(ps)) && e.1 == order[k].name && e.0 in stuck;
      var k' := EarlierDependency(ps, order, k, e);
      StuckNeverPlaced(ps, stuck, order, k');
    }
  }

  /** The source of an edge into a placed package is placed before it. */
  lemma EarlierDependency(ps: seq<Package>, order: seq<Package>, k: nat, e: Edge) returns (k': nat)
    requires DistinctNames(ps)
    requires multiset(order) == multiset(ps) && RespectsDependencies(order)
    requires k < |order| && e in Edges(ps, NameSet(ps)) && e.1 == order[k].name
    ensures k' < k && order[k'].name == e.0
  {
    EdgesMember(ps, NameSet(ps), e);
    var m :| 0 <= m < |ps| && ps[m].name == e.1 && e.0 in ps[m].localDependencies;
    SameNameSamePackage(ps, order, k, m);
    var d :| 0 <= d < |ps| && ps[d].name == e.0;
    k' := Placed(ps, order, d);
  }

  /** So a non-empty such set rules out every publish order. */
  lemma NoPublishOrder(ps: seq<Package>, stuck: set<string>, order: seq<Package>)
    requires DistinctNames(ps)
    requires stuck <= NameSet(ps) && stuck != {}
    requires Stuck(Edges(ps, NameSet(ps)), stuck)
    ensures !IsPublishOrder(order, ps)
  {
    if IsPublishOrder(order, ps) {
      var n :| n in stuck;
      var m :| 0 <= m < |ps| && ps[m].name == n;
      var k := Placed(ps, order, m);
      StuckNeverPlaced(ps, stuck, order, k);
    }
  }

  lemma NoPublishOrderAtAll(ps: seq<Package>, stuck: set<string>)
    requires DistinctNames(ps)
    requires stuck <= NameSet(ps) && stuck != {}
    requires Stuck(Edges(ps, NameSet(ps)), stuck)
    ensures forall order :: !IsPublishOrder(order, ps)
  {
    forall order
      ensures !IsPublishOrder(order, ps)
    {
      NoPublishOrder(ps, stuck, order);
    }
  }

  /** A package listing its own name can never be published: the sort reports a cycle. */
  lemma SelfDependencyHasNoOrder(ps: seq<Package>, m: nat, order: seq<Package>)
    requires DistinctNames(ps) && m < |ps|
    requires ps[m].name in ps[m].localDependencies
    ensures !IsPublishOrder(order, ps)
  {
    var n := ps[m].name;
    var e := (n, n);
    EdgesMember(ps, NameSet(ps), e);
    NoPublishOrder(ps, {n}, order);
  }

  /** Adding an edge adds one target to its source and one pending edge to its target. */
  lemma AppendEdge(E: seq<Edge>, e: Edge)
    ensures forall d :: Targets(E + [e], d) == Targets(E, d) + (if e.0 == d then [e.1] else [])
    ensures forall n, done :: Pending(E + [e], n, done) == Pending(E, n, done) + (if e.1 == n && e.0 !in done then 1 else 0)
  {
    assert (E + [e])[..|E|] == E;
  }

  /** The dependents of a name in the adjacency map. */
  function Adjacent(graph: map<string, seq<string>>, d: string): seq<string>
  {
    if d in graph then graph[d] else []
  }

  /** The in-degree and adjacency maps agree with the edge list `E` over the names `known`. */
  ghost predicate GraphOf(inDegree: map<string, nat>, graph: map<string, seq<string>>, E: seq<Edge>, known: set<string>)
  {
    && (forall e :: e in E ==> e.0 in known && e.1 in inDegree)
    && (forall d :: Adjacent(graph, d) == Targets(E, d))
    && (forall n :: n in inDegree ==> inDegree[n] == Pending(E, n, {}))
  }

  lemma AddNameStep(inDegree: map<string, nat>, graph: map<string, seq<string>>, E: seq<Edge>, known: set<string>, name: string)
    requires GraphOf(inDegree, graph, E, known) && name !in inDegree
    ensures GraphOf(inDegree[name := 0], graph, E, known)
  {
    NoEdgeNoPending(E, name, {});
  }

  lemma AddEdgeStep(inDegree: map<string, nat>, graph: map<string, seq<string>>, E: seq<Edge>, known: set<string>,
                    dep: string, name: string)
    requires GraphOf(inDegree, graph, E, known) && dep in known && name in inDegree
    ensures GraphOf(inDegree[name := inDegree[name] + 1], graph[dep := Adjacent(graph, dep) + [name]],
                    E + [(dep, name)], known)
  {
    AddEdgeFacts(inDegree, graph, E, known, dep, name);
  }

  lemma AddEdgeFacts(inDegree: map<string, nat>, graph: map<string, seq<string>>, E: seq<Edge>, known: set<string>,
                     dep: string, name: string)
    requires GraphOf(inDegree, graph, E, known) && dep in known && name in inDegree
    ensures forall e :: e in E + [(dep, name)] ==> e.0 in known && e.1 in inDegree[name := inDegree[name] + 1]
    ensures forall d :: Adjacent(graph[dep := Adjacent(graph, dep) + [name]], d) == Targets(E + [(dep, name)], d)
    ensures var m := inDegree[name := inDegree[name] + 1];
            forall n :: n in m ==> m[n] == Pending(E + [(dep, name)], n, {})
  {
    AppendEdge(E, (dep, name));
  }

  lemma PackagesStep(ps: seq<Package>, i: nat, known: set<string>)
    requires i < |ps|
    ensures NameSet(ps[..i + 1]) == NameSet(ps[..i]) + {ps[i].name}
    ensures Edges(ps[..i + 1], known) == Edges(ps[..i], known) + DependencyEdges(ps[i].localDependencies, ps[i].name, known)
  {
    assert ps[..i + 1][..i] == ps[..i];
  }

  lemma DependencyEdgesStep(deps: seq<string>, j: nat, dependent: string, known: set<string>)
    requires j < |deps|
    ensures DependencyEdges(deps[..j + 1], dependent, known)
         == DependencyEdges(deps[..j], dependent, known) + (if deps[j] in known then [(deps[j], dependent)] else [])
  {
    assert deps[..j + 1][..j] == deps[..j];
  }

  lemma AppendAssoc<T>(a: seq<T>, b: seq<T>, x: T)
    ensures a + (b + [x]) == (a + b) + [x]
  {
  }

  lemma GraphOfEmpty(known: set<string>)
    ensures GraphOf(map[], map[], [], known)
  {
  }

  /** The first loop of `topological_sort`: one in-degree per name and one adjacency entry per edge. */
  method BuildGraph(packages: seq<Package>, packageMap: map<string, Package>)
    returns (inDegree: map<string, nat>, graph: map<string, seq<string>>, ghost E: seq<Edge>)
    requires packageMap == PackageMap(packages)
    ensures E == Edges(packages, NameSet(packages))
    ensures inDegree.Keys == NameSet(packages)
    ensures GraphOf(inDegree, graph, E, NameSet(packages))
  {
    ghost var known := NameSet(packages);
    inDegree := map[];
    graph := map[];
    E := [];
    GraphOfEmpty(known);
    for i := 0 to |packages|
      invariant inDegree.Keys == NameSet(packages[..i])
      invariant E == Edges(packages[..i], known)
      invariant GraphOf(inDegree, graph, E, known)
    {
      var p := packages[i];
      PackagesStep(packages, i, known);
      inDegree, graph, E := AddPackage(inDegree, graph, E, p, packageMap);
    }
    assert packages[..|packages|] == packages;
  }

  method AddPackage(inDegree: map<string, nat>, graph: map<string, seq<string>>, ghost E: seq<Edge>,
                    p: Package, packageMap: map<string, Package>)
    returns (inDegree': map<string, nat>, graph': map<string, seq<string>>, ghost E': seq<Edge>)
    requires GraphOf(inDegree, graph, E, packageMap.Keys)
    ensures inDegree'.Keys == inDegree.Keys + {p.name}
    ensures E' == E + DependencyEdges(p.localDependencies, p.name, packageMap.Keys)
    ensures GraphOf(inDegree', graph', E', packageMap.Keys)
  {
    inDegree', graph', E' := inDegree, graph, E;
    if p.name !in inDegree' {
      AddNameStep(inDegree', graph', E', packageMap.Keys, p.name);
      inDegree' := inDegree'[p.name := 0];
    }
    ghost var E0 := E';
    inDegree', graph', E' := AddDependencies(inDegree', graph', E', p.name, p.localDependencies, packageMap);
    assert E0 == E;
  }

  method AddDependencies(inDegree: map<string, nat>, graph: map<string, seq<string>>, ghost E: seq<Edge>,
                    name: string, deps: seq<string>, packageMap: map<string, Package>)
    returns (inDegree': map<string, nat>, graph': map<string, seq<string>>, ghost E': seq<Edge>)
    requires GraphOf(inDegree, graph, E, packageMap.Keys) && name in inDegree
    ensures inDegree'.Keys == inDegree.Keys
    ensures E' == E + DependencyEdges(deps, name, packageMap.Keys)
    ensures GraphOf(inDegree', graph', E', packageMap.Keys)
  {
    inDegree', graph', E' := inDegree, graph, E;
    assert deps[..0] == [] && E' == E + [];
    for j := 0 to |deps|
      invariant inDegree'.Keys == inDegree.Keys
      invariant E' == E + DependencyEdges(deps[..j], name, packageMap.Keys)
      invariant GraphOf(inDegree', graph', E', packageMap.Keys)
    {
      var dep := deps[j];
      DependencyEdgesStep(deps, j, name, packageMap.Keys);
      if dep in packageMap {
        AddEdgeStep(inDegree', graph', E', packageMap.Keys, dep, name);
        AppendAssoc(E, DependencyEdges(deps[..j], name, packageMap.Keys), (dep, name));
        graph' := graph'[dep := Adjacent(graph', dep) + [name]];
        inDegree' := inDegree'[name := inDegree'[name] + 1];
        E' := E' + [(dep, name)];
      }
    }
    assert deps[..|deps|] == deps;
  }

  /** The FIFO queue's contents: no repeats, and exactly the unpublished names with nothing pending. */
  predicate QueueHolds(queue: seq<string>, inDegree: map<string, nat>, done: set<string>)
  {
    && NoDuplicates(queue)
    && (forall n :: n in queue ==> n in inDegree && n !in done && inDegree[n] == 0)
    && (forall n :: n in inDegree && n !in done && inDegree[n] == 0 ==> n in queue)
  }

  /** The second loop of `topological_sort`: every name whose in-degree is zero, in map iteration order. */
  method SeedQueue(inDegree: map<string, nat>) returns (queue: seq<string>)
    ensures QueueHolds(queue, inDegree, {})
  {
    queue := [];
    var unseen := inDegree.Keys;
    while unseen != {}
      invariant NoDuplicates(queue)
      invariant forall n :: n in queue ==> n in inDegree && n !in unseen && inDegree[n] == 0
      invariant forall n :: n in inDegree && n !in unseen && inDegree[n] == 0 ==> n in queue
    {
      var name :| name in unseen;
      unseen := unseen - {name};
      if inDegree[name] == 0 {
        queue := queue + [name];
      }
    }
  }

  lemma MultisetTail<T>(s: seq<T>, k: nat)
    requires k < |s|
    ensures multiset(s[k..]) == multiset{s[k]} + multiset(s[k + 1..])
  {
    assert s[k..] == [s[k]] + s[k + 1..];
  }

  /**
   * The inner loop over a published name's dependents: each listing lowers
   * the dependent's in-degree by one, and a dependent reaching zero joins the
   * queue.
   */
  method ReleaseDependents(inDegree: map<string, nat>, queue: seq<string>, dependents: seq<string>,
                           ghost remaining: map<string, nat>, ghost done: set<string>)
    returns (inDegree': map<string, nat>, queue': seq<string>)
    requires remaining.Keys == inDegree.Keys
    requires forall t :: t in dependents ==> t in inDegree && t !in done
    requires forall n :: n in inDegree ==> inDegree[n] == remaining[n] + multiset(dependents)[n]
    requires QueueHolds(queue, inDegree, done)
    ensures inDegree' == remaining
    ensures QueueHolds(queue', inDegree', done)
  {
    inDegree', queue' := inDegree, queue;
    for k := 0 to |dependents|
      invariant inDegree'.Keys == remaining.Keys
      invariant forall n :: n in inDegree' ==> inDegree'[n] == remaining[n] + multiset(dependents[k..])[n]
      invariant QueueHolds(queue', inDegree', done)
    {
      var dependent := dependents[k];
      MultisetTail(dependents, k);
      inDegree' := inDegree'[dependent := inDegree'[dependent] - 1];
      if inDegree'[dependent] == 0 {
        queue' := queue' + [dependent];
      }
    }
    assert dependents[|dependents|..] == [];
  }

  /** The in-degree each name has left once the names in `done` are published. */
  function Remaining(E: seq<Edge>, known: set<string>, done: set<string>): map<string, nat>
  {
    map n | n in known :: Pending(E, n, done)
  }

  /** The state of the main loop once the names of `order`, which form `done`, are published. */
  ghost predicate Draining(inDegree: map<string, nat>, queue: seq<string>, E: seq<Edge>, known: set<string>,
                     order: seq<string>, done: set<string>)
  {
    && inDegree == Remaining(E, known, done)
    && done <= known && |done| == |order| && NoDuplicates(order)
    && (forall n :: n in done <==> n in order)
    && QueueHolds(queue, inDegree, done)
    && (forall e :: e in E ==> e.0 in known && e.1 in known)
    && (forall k, e :: 0 <= k < |order| && e in E && e.1 == order[k] ==> e.0 in order[..k])
  }

  lemma DrainingStart(inDegree: map<string, nat>, graph: map<string, seq<string>>, queue: seq<string>,
                      E: seq<Edge>, known: set<string>)
    requires inDegree.Keys == known && GraphOf(inDegree, graph, E, known)
    requires QueueHolds(queue, inDegree, {})
    ensures Draining(inDegree, queue, E, known, [], {})
  {
  }

  /** The queue's head may be published: all edges into it come from published names. */
  lemma HeadReady(inDegree: map<string, nat>, queue: seq<string>, E: seq<Edge>, known: set<string>,
                  order: seq<string>, done: set<string>)
    requires Draining(inDegree, queue, E, known, order, done) && queue != []
    ensures queue[0] in known && queue[0] !in done
    ensures forall e :: e in E && e.1 == queue[0] ==> e.0 in done
  {
    assert queue[0] in queue;
    assert Pending(E, queue[0], done) == inDegree[queue[0]] == 0;
    PendingZero(E, queue[0], done);
  }

  /** The dependents of a name about to be published are known and not yet published, itself included. */
  lemma ReleaseTargets(E: seq<Edge>, known: set<string>, order: seq<string>, done: set<string>, name: string)
    requires forall e :: e in E ==> e.0 in known && e.1 in known
    requires forall n :: n in done <==> n in order
    requires forall k, e :: 0 <= k < |order| && e in E && e.1 == order[k] ==> e.0 in order[..k]
    requires name !in done
    requires forall e :: e in E && e.1 == name ==> e.0 in done
    ensures forall t :: t in Targets(E, name) ==> t in known && t !in done + {name}
  {
    forall t | t in Targets(E, name)
      ensures t in known && t !in done + {name}
    {
      TargetsMember(E, name, t);
    }
  }

  /** Publishing `name` lowers each in-degree by the number of its edges into that name. */
  lemma ReleaseCounts(inDegree: map<string, nat>, E: seq<Edge>, known: set<string>, done: set<string>, name: string)
    requires inDegree == Remaining(E, known, done) && name !in done
    ensures Remaining(E, known, done + {name}).Keys == inDegree.Keys
    ensures forall n :: n in inDegree ==>
              inDegree[n] == Remaining(E, known, done + {name})[n] + multiset(Targets(E, name))[n]
  {
    forall n | n in inDegree
      ensures inDegree[n] == Remaining(E, known, done + {name})[n] + multiset(Targets(E, name))[n]
    {
      PendingRelease(E, n, done, name);
    }
  }

  lemma QueueTail(queue: seq<string>, inDegree: map<string, nat>, done: set<string>)
    requires QueueHolds(queue, inDegree, done) && queue != []
    ensures QueueHolds(queue[1..], inDegree, done + {queue[0]})
  {
  }

  /** Publishing the queue's head: what releasing its dependents needs. */
  lemma PublishStep(inDegree: map<string, nat>, queue: seq<string>, E: seq<Edge>, known: set<string>,
                    order: seq<string>, done: set<string>)
    requires Draining(inDegree, queue, E, known, order, done) && queue != []
    ensures Remaining(E, known, done + {queue[0]}).Keys == inDegree.Keys
    ensures forall t :: t in Targets(E, queue[0]) ==> t in inDegree && t !in done + {queue[0]}
    ensures forall n :: n in inDegree ==>
              inDegree[n] == Remaining(E, known, done + {queue[0]})[n] + multiset(Targets(E, queue[0]))[n]
    ensures QueueHolds(queue[1..], inDegree, done + {queue[0]})
    ensures queue[0] in known
  {
    var name := queue[0];
    HeadReady(inDegree, queue, E, known, order, done);
    ReleaseTargets(E, known, order, done, name);
    ReleaseCounts(inDegree, E, known, done, name);
    QueueTail(queue, inDegree, done);
  }

  /** After the release the loop state holds again, one name further. */
  lemma AfterRelease(inDegree: map<string, nat>, queue: seq<string>, E: seq<Edge>, known: set<string>,
                     order: seq<string>, done: set<string>, inDegree': map<string, nat>, queue': seq<string>)
    requires Draining(inDegree, queue, E, known, order, done) && queue != []
    requires inDegree' == Remaining(E, known, done + {queue[0]})
    requires QueueHolds(queue', inDegree', done + {queue[0]})
    ensures Draining(inDegree', queue', E, known, order + [queue[0]], done + {queue[0]})
  {
    var name := queue[0];
    HeadReady(inDegree, queue, E, known, order, done);
    OrderExtends(E, order, name);
  }

  /** Publishing `name` after `order` keeps every edge into a published name behind it. */
  lemma OrderExtends(E: seq<Edge>, order: seq<string>, name: string)
    requires forall k, e :: 0 <= k < |order| && e in E && e.1 == order[k] ==> e.0 in order[..k]
    requires forall e :: e in E && e.1 == name ==> e.0 in order
    ensures var order' := order + [name];
            forall k, e :: 0 <= k < |order'| && e in E && e.1 == order'[k] ==> e.0 in order'[..k]
  {
    var order' := order + [name];
    assert order'[..|order|] == order;
    forall k | 0 <= k < |order|
      ensures order'[..k] == order[..k]
    {
    }
  }

  /** `result` holds, position by position, the packages the map gives for the names of `order`. */
  predicate FromMap(result: seq<Package>, order: seq<string>, packageMap: map<string, Package>)
  {
    |result| == |order| && forall k :: 0 <= k < |order| ==> order[k] in packageMap && result[k] == packageMap[order[k]]
  }

  lemma FromMapSnoc(result: seq<Package>, order: seq<string>, packageMap: map<string, Package>, name: string)
    requires FromMap(result, order, packageMap) && name in packageMap
    ensures FromMap(result + [packageMap[name]], order + [name], packageMap)
  {
  }

  /**
   * `topological_sort`: on success the packages in an order that publishes
   * each after its local dependencies; `CircularDependency` exactly when the
   * names repeat or no such order exists.
   */
  method TopologicalSort(packages: seq<Package>) returns (r: Result<seq<Package>, PublishError>)
    ensures r.Ok? ==> DistinctNames(packages) && IsPublishOrder(r.value, packages)
    ensures r.Err? ==> r.error == CircularDependency
    ensures r.Err? ==> !DistinctNames(packages) || forall o :: !IsPublishOrder(o, packages)
  {
    var packageMap := PackageMap(packages);
    ghost var known := NameSet(packages);
    var inDegree, graph, E := BuildGraph(packages, packageMap);
    var queue := SeedQueue(inDegree);
    DrainingStart(inDegree, graph, queue, E, known);
    var result: seq<Package> := [];
    ghost var order: seq<string> := [];
    ghost var done: set<string> := {};
    while queue != []
      invariant Draining(inDegree, queue, E, known, order, done)
      invariant FromMap(result, order, packageMap)
      decreases known - done
    {
      var name := queue[0];
      PublishStep(inDegree, queue, E, known, order, done);
      FromMapSnoc(result, order, packageMap, name);
      result := result + [packageMap[name]];
      var dependents := Adjacent(graph, name);
      ghost var inDegree0, queue0 := inDegree, queue;
      inDegree, queue := ReleaseDependents(inDegree, queue[1..], dependents, Remaining(E, known, done + {name}), done + {name});
      AfterRelease(inDegree0, queue0, E, known, order, done, inDegree, queue);
      order := order + [name];
      done := done + {name};
    }
    if |result| != |packages| {
      CircularWhenStuck(packages, E, inDegree, order, done);
      return Err(CircularDependency);
    }
    AllDrained(packages, E, inDegree, order, done);
    SortedIsPublishOrder(packages, E, order, result, packageMap);
    return Ok(result);
  }

  /** When the queue runs dry with names left, those names form a cycle (or a name repeats). */
  lemma CircularWhenStuck(packages: seq<Package>, E: seq<Edge>, inDegree: map<string, nat>,
                          order: seq<string>, done: set<string>)
    requires E == Edges(packages, NameSet(packages))
    requires Draining(inDegree, [], E, NameSet(packages), order, done)
    requires |order| != |packages|
    ensures !DistinctNames(packages) || forall o :: !IsPublishOrder(o, packages)
  {
    if DistinctNames(packages) {
      NameSetSize(packages);
      SubsetSize(done, NameSet(packages));
      var stuck := StuckSet(inDegree, E, NameSet(packages), order, done);
      NoPublishOrderAtAll(packages, stuck);
    }
  }

  /** The names left once the queue runs dry, when some are left: each waits on another of them. */
  lemma StuckSet(inDegree: map<string, nat>, E: seq<Edge>, known: set<string>,
                 order: seq<string>, done: set<string>) returns (stuck: set<string>)
    requires Draining(inDegree, [], E, known, order, done) && |done| < |known|
    ensures stuck <= known && stuck != {}
    ensures Stuck(E, stuck)
  {
    stuck := known - done;
    ProperSubset(done, known);
    StuckCycle(inDegree, E, known, done);
  }

  /** Every name left unpublished has an edge from another unpublished name. */
  lemma StuckCycle(inDegree: map<string, nat>, E: seq<Edge>, known: set<string>, done: set<string>)
    requires inDegree == Remaining(E, known, done) && QueueHolds([], inDegree, done)
    requires forall e :: e in E ==> e.0 in known
    ensures Stuck(E, known - done)
  {
    forall n | n in known - done
      ensures WaitsWithin(E, known - done, n)
    {
      PendingPositive(E, n, done);
    }
  }

  /** Every name published: the names were distinct and `done` holds them all. */
  lemma AllPublished(packages: seq<Package>, done: set<string>)
    requires done <= NameSet(packages) && |done| == |packages|
    ensures done == NameSet(packages) && DistinctNames(packages)
  {
    NameSetSize(packages);
    SubsetSameSize(done, NameSet(packages));
  }

  /** When every name was published, the names were distinct and the order holds each once, after its dependencies. */
  lemma AllDrained(packages: seq<Package>, E: seq<Edge>, inDegree: map<string, nat>, order: seq<string>, done: set<string>)
    requires Draining(inDegree, [], E, NameSet(packages), order, done)
    requires |order| == |packages|
    ensures DistinctNames(packages)
    ensures NoDuplicates(order) && forall n :: n in NameSet(packages) <==> n in order
    ensures forall k, e :: 0 <= k < |order| && e in E && e.1 == order[k] ==> e.0 in order[..k]
  {
    AllPublished(packages, done);
  }

  /** Then the packages taken from the map form a publish order. */
  lemma SortedIsPublishOrder(packages: seq<Package>, E: seq<Edge>, order: seq<string>, result: seq<Package>,
                             packageMap: map<string, Package>)
    requires E == Edges(packages, NameSet(packages))
    requires packageMap == PackageMap(packages)
    requires DistinctNames(packages) && |order| == |packages|
    requires NoDuplicates(order) && forall n :: n in NameSet(packages) <==> n in order
    requires forall k, e :: 0 <= k < |order| && e in E && e.1 == order[k] ==> e.0 in order[..k]
    requires FromMap(result, order, packageMap)
    ensures IsPublishOrder(result, packages)
  {
    ResultRespects(packages, E, order, result, packageMap);
    ResultMembers(packages, order, result, packageMap);
    SameElements(result, packages);
  }

  /** The packages taken from the map in publishing order come after their dependencies. */
  lemma ResultRespects(packages: seq<Package>, E: seq<Edge>, order: seq<string>, result: seq<Package>,
                       packageMap: map<string, Package>)
    requires E == Edges(packages, NameSet(packages))
    requires packageMap == PackageMap(packages)
    requires NoDuplicates(order) && forall n :: n in NameSet(packages) <==> n in order
    requires FromMap(result, order, packageMap)
    requires forall k, e :: 0 <= k < |order| && e in E && e.1 == order[k] ==> e.0 in order[..k]
    ensures RespectsDependencies(result)
  {
    forall i, j | 0 <= i < |result| && 0 <= j < |result| && result[i].name in result[j].localDependencies
      ensures i < j
    {
      ResultPairRespects(packages, E, order, result, packageMap, i, j);
    }
  }

  /** The packages taken from the map are input packages, all different. */
  lemma ResultMembers(packages: seq<Package>, order: seq<string>, result: seq<Package>, packageMap: map<string, Package>)
    requires packageMap == PackageMap(packages) && DistinctNames(packages)
    requires NoDuplicates(order) && forall n :: n in order ==> n in NameSet(packages)
    requires FromMap(result, order, packageMap)
    ensures forall x :: x in result ==> x in packages
    ensures NoDuplicates(result) && NoDuplicates(packages)
  {
    forall i, j | 0 <= i < j < |result| ensures result[i] != result[j] {
      assert result[i].name == order[i] && result[j].name == order[j];
    }
  }

  lemma ResultPairRespects(packages: seq<Package>, E: seq<Edge>, order: seq<string>, result: seq<Package>,
                           packageMap: map<string, Package>, i: nat, j: nat)
    requires E == Edges(packages, NameSet(packages))
    requires packageMap == PackageMap(packages)
    requires NoDuplicates(order) && forall n :: n in NameSet(packages) <==> n in order
    requires FromMap(result, order, packageMap)
    requires forall k, e :: 0 <= k < |order| && e in E && e.1 == order[k] ==> e.0 in order[..k]
    requires i < |result| && j < |result| && result[i].name in result[j].localDependencies
    ensures i < j
  {
    var e := (order[i], order[j]);
    var m :| 0 <= m < |packages| && packages[m] == result[j];
    EdgesMember(packages, NameSet(packages), e);
    assert order[i] in order[..j];
    var i' :| 0 <= i' < j && order[i'] == order[i];
  }
}
