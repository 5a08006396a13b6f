/** The depth-first package order behind building, packing and publishing: `computeClosure` and
    `publishOrder`, first as functions, then as the methods that grow `order` and `visited`. */
module PackageOrder {
  import opened Graphs
  import opened Options
  import opened Sequences

  const SCOPE := "@jini-ai/"

  /** One package's manifest: the keys of `dependencies` and `peerDependencies` in file order. */
  datatype Manifest = Manifest(dependencies: seq<Node>, peers: seq<Node>, isPrivate: bool)

  type Registry = map<Node, Manifest>

  /** What a sort ends with: an order, or one of the two errors it throws. */
  datatype Outcome = Ordered(order: seq<Node>) | Cyclic(path: seq<Node>) | Unknown(name: Node)

  predicate Scoped(name: Node) {
    SCOPE <= name
  }

  function InScope(names: seq<Node>): (r: seq<Node>)
    ensures forall n :: n in r <==> n in names && Scoped(n)
  {
    FilterMember(names, Scoped);
    Filter(names, Scoped)
  }

  function In(registry: Registry): Node -> bool {
    n => n in registry
  }

  function NotIn(taken: seq<Node>): Node -> bool {
    n => n !in taken
  }

  function Known(registry: Registry, names: seq<Node>): (r: seq<Node>)
    ensures forall n :: n in r <==> n in names && n in registry
  {
    FilterMember(names, In(registry));
    Filter(names, In(registry))
  }

  function Without(names: seq<Node>, taken: seq<Node>): (r: seq<Node>)
    ensures forall n :: n in r <==> n in names && n !in taken
  {
    FilterMember(names, NotIn(taken));
    Filter(names, NotIn(taken))
  }

  /** The sibling packages a manifest names: its dependencies, then the peers that are not also dependencies. */
  function Siblings(registry: Registry, m: Manifest): seq<Node> {
    Known(registry, m.dependencies + Without(m.peers, m.dependencies))
  }

  /** The graph `computeClosure` walks: every scoped dependency, in the registry or not. */
  function DependencyGraph(registry: Registry): Graph {
    map n | n in registry :: InScope(registry[n].dependencies)
  }

  /** The graph `publishOrder` walks: dependencies and peers that are workspace packages. */
  function SiblingGraph(registry: Registry): Graph {
    map n | n in registry :: Siblings(registry, registry[n])
  }

  /** What the two sorts follow: the dependencies in the scope, in the workspace or not; and the dependencies and peers
      that are workspace packages. A package outside the workspace leads nowhere. */
  lemma EdgesExactly(registry: Registry, n: Node, d: Node)
    ensures d in Succ(DependencyGraph(registry), n)
            <==> n in registry && d in registry[n].dependencies && "@jini-ai/" <= d
    ensures d in Succ(SiblingGraph(registry), n)
            <==> n in registry && d in registry && (d in registry[n].dependencies || d in registry[n].peers)
    ensures DependencyGraph(registry).Keys == SiblingGraph(registry).Keys == registry.Keys
  {
  }

  lemma {:induction false} FilterFilter(names: seq<Node>, p: Node -> bool, q: Node -> bool)
    ensures Filter(Filter(names, p), q) == Filter(names, n => p(n) && q(n))
  {
    if names != [] {
      FilterFilter(names[1..], p, q);
      FilterConcat(if p(names[0]) then [names[0]] else [], Filter(names[1..], p), q);
    }
  }

  /** The order in which they are visited: dependencies in file order, then those peers that are not among them. */
  lemma SiblingsInOrder(registry: Registry, m: Manifest)
    ensures Siblings(registry, m)
            == Filter(m.dependencies, n => n in registry)
               + Filter(m.peers, n => n !in m.dependencies && n in registry)
  {
    FilterConcat(m.dependencies, Without(m.peers, m.dependencies), In(registry));
    FilterFilter(m.peers, NotIn(m.dependencies), In(registry));
    FilterAgrees(m.dependencies, In(registry), n => n in registry);
    FilterAgrees(m.peers, n => NotIn(m.dependencies)(n) && In(registry)(n), n => n !in m.dependencies && n in registry);
  }

  /* ---- the sort as a function ---- */

  function Visit(g: Graph, name: Node, chain: seq<Node>, order: seq<Node>): Outcome
    decreases g.Keys - Elements(chain), 0
  {
    if name in order then Ordered(order)
    else if name in chain then Cyclic(chain + [name])
    else if name !in g then Unknown(name)
    else
      assert name in g.Keys - Elements(chain) && name !in g.Keys - Elements(chain + [name]);
      match VisitAll(g, g[name], chain + [name], order)
      case Ordered(grown) => Ordered(grown + [name])
      case thrown => thrown
  }

  function VisitAll(g: Graph, names: seq<Node>, chain: seq<Node>, order: seq<Node>): Outcome
    decreases g.Keys - Elements(chain), 1 + |names|
  {
    if names == [] then Ordered(order)
    else
      match Visit(g, names[0], chain, order)
      case Ordered(grown) => VisitAll(g, names[1..], chain, grown)
      case thrown => thrown
  }

  function Sort(g: Graph, roots: seq<Node>): Outcome {
    VisitAll(g, roots, [], [])
  }

  function ComputeClosure(registry: Registry, roots: seq<Node>): Outcome {
    Sort(DependencyGraph(registry), roots)
  }

  function PublishOrder(registry: Registry, names: seq<Node>): Outcome {
    Sort(SiblingGraph(registry), names)
  }

  /* ---- what an order means ---- */

  /** No name twice, and every name stands after everything it depends on. */
  ghost predicate DependenciesFirst(g: Graph, order: seq<Node>) {
    && Distinct(order)
    && (forall i :: 0 <= i < |order| ==> order[i] in g)
    && (forall i, d :: 0 <= i < |order| && d in Succ(g, order[i]) ==> d in order[..i])
  }

  /** The error names a cycle: a walk in the graph that ends at a node it has passed before. */
  ghost predicate ClosesCycle(g: Graph, path: seq<Node>) {
    IsWalk(g, path) && path[|path| - 1] in path[..|path| - 1]
  }

  /** What visiting `from` after `order` owes its caller. */
  ghost predicate Sound(g: Graph, from: seq<Node>, chain: seq<Node>, order: seq<Node>, r: Outcome) {
    match r
    case Ordered(grown) =>
      && DependenciesFirst(g, grown) && order <= grown
      && (forall n :: n in from ==> n in grown)
      && (forall n :: n in grown ==> n in order || ReachedFrom(g, from, n))
      && (forall c :: c in chain ==> c !in grown)
    case Cyclic(path) => ClosesCycle(g, path) && if chain == [] then path[0] in from else path[0] == chain[0]
    case Unknown(name) => name !in g && ReachedFrom(g, from, name)
  }

  /** What a call needs: `order` is already sorted, `chain` leads to every name in `from`, and nothing on
      the chain has been ordered. */
  ghost predicate Ready(g: Graph, from: seq<Node>, chain: seq<Node>, order: seq<Node>) {
    && DependenciesFirst(g, order)
    && (forall c :: c in chain ==> c in g && c !in order)
    && (forall n :: n in from ==> IsWalk(g, chain + [n]))
  }

  lemma {:induction false} VisitIsSound(g: Graph, name: Node, chain: seq<Node>, order: seq<Node>)
    requires Ready(g, [name], chain, order)
    ensures Sound(g, [name], chain, order, Visit(g, name, chain, order))
    decreases g.Keys - Elements(chain), 0
  {
    ReachesSelf(g, name);
    assert IsWalk(g, chain + [name]);
    if name in order {
    } else if name in chain {
      var path := chain + [name];
      assert path[|path| - 1] == name && path[..|path| - 1] == chain;
    } else if name in g {
      var deeper := chain + [name];
      forall d | d in g[name] ensures IsWalk(g, deeper + [d]) {
        assert deeper[|deeper| - 1] == name;
      }
      assert name in g.Keys - Elements(chain) && name !in g.Keys - Elements(deeper);
      VisitAllIsSound(g, g[name], deeper, order);
      match VisitAll(g, g[name], deeper, order) {
        case Ordered(grown) =>
          assert name in deeper;
          AppendKeepsDependenciesFirst(g, grown, name);
          ReachedThrough(g, name, grown, order);
        case Cyclic(path) =>
        case Unknown(missing) =>
          var d :| d in g[name] && Reaches(g, d, missing);
          StepReaches(g, name, d, missing);
      }
    }
  }

  lemma {:induction false} VisitAllIsSound(g: Graph, names: seq<Node>, chain: seq<Node>, order: seq<Node>)
    requires Ready(g, names, chain, order)
    ensures Sound(g, names, chain, order, VisitAll(g, names, chain, order))
    decreases g.Keys - Elements(chain), 1 + |names|
  {
    if names != [] {
      VisitIsSound(g, names[0], chain, order);
      match Visit(g, names[0], chain, order) {
        case Ordered(grown) =>
          VisitAllIsSound(g, names[1..], chain, grown);
        case _ =>
      }
    }
  }

  lemma AppendKeepsDependenciesFirst(g: Graph, order: seq<Node>, name: Node)
    requires DependenciesFirst(g, order) && name in g && name !in order
    requires forall d :: d in g[name] ==> d in order
    ensures DependenciesFirst(g, order + [name])
  {
    var grown := order + [name];
    forall i, d | 0 <= i < |grown| && d in Succ(g, grown[i]) ensures d in grown[..i] {
      if i < |order| {
        assert d in order[..i] && grown[..i] == order[..i];
      } else {
        assert grown[..i] == order;
      }
    }
  }

  /** Everything new below `name` is reached from `name`. */
  lemma ReachedThrough(g: Graph, name: Node, grown: seq<Node>, order: seq<Node>)
    requires name in g
    requires forall n :: n in grown ==> n in order || ReachedFrom(g, g[name], n)
    ensures forall n :: n in grown + [name] ==> n in order || ReachedFrom(g, [name], n)
  {
    forall n | n in grown + [name] && n !in order ensures ReachedFrom(g, [name], n) {
      ReachesSelf(g, name);
      if n != name {
        var d :| d in g[name] && Reaches(g, d, n);
        StepReaches(g, name, d, n);
      }
      assert name in [name];
    }
  }

  /** In a sorted order, a walk never climbs to a later position than the one it starts from. */
  lemma {:induction false} WalkStaysBelow(g: Graph, order: seq<Node>, p: seq<Node>, k: nat, i: nat)
    requires DependenciesFirst(g, order) && IsWalk(g, p) && k < |order| && p[0] == order[k] && i < |p|
    ensures p[i] in order[..k + 1]
  {
    if i > 0 {
      WalkStaysBelow(g, order, p, k, i - 1);
      var j :| 0 <= j < k + 1 && order[j] == p[i - 1];
      assert p[i] in Succ(g, p[i - 1]);
      assert p[i] in order[..j];
    }
  }

  /** An order with every dependency first contains, with each name, all that name reaches, and no cycle. */
  lemma SortedIsClosedAndAcyclic(g: Graph, order: seq<Node>, a: Node, n: Node)
    requires DependenciesFirst(g, order) && a in order && Reaches(g, a, n)
    ensures n in order && n in g && !OnCycle(g, n)
  {
    var p :| WalkBetween(g, p, a, n);
    var i :| 0 <= i < |order| && order[i] == a;
    WalkStaysBelow(g, order, p, i, |p| - 1);
    assert n in order;
    if OnCycle(g, n) {
      var k :| 0 <= k < |order| && order[k] == n;
      var m :| m in Succ(g, n) && Reaches(g, m, n);
      var q :| WalkBetween(g, q, m, n);
      assert m in order[..k];
      var j :| 0 <= j < k && order[j] == m;
      WalkStaysBelow(g, order, q, j, |q| - 1);
    }
  }

  /** `computeClosure` and `publishOrder` in one statement. The sort returns normally exactly when every
      name reached from the roots is in the registry and none lies on a cycle. The order is then free of
      duplicates, exactly the names reached, dependencies first. A cycle error carries a real cycle
      reached from a root, and an unknown name is reached from a root and missing. */
  lemma SortIsExact(g: Graph, roots: seq<Node>)
    ensures Sort(g, roots).Ordered? <==> (forall n :: ReachedFrom(g, roots, n) ==> n in g) && AcyclicFrom(g, roots)
    ensures match Sort(g, roots)
            case Ordered(order) => DependenciesFirst(g, order) && (forall n :: n in order <==> ReachedFrom(g, roots, n))
            case Cyclic(path) => ClosesCycle(g, path) && path[0] in roots
            case Unknown(name) => name !in g && ReachedFrom(g, roots, name)
  {
    assert Ready(g, roots, [], []);
    VisitAllIsSound(g, roots, [], []);
    match Sort(g, roots) {
      case Ordered(order) =>
        forall n ensures ReachedFrom(g, roots, n) ==> n in order && n in g && !OnCycle(g, n) {
          if ReachedFrom(g, roots, n) {
            var a :| a in roots && Reaches(g, a, n);
            SortedIsClosedAndAcyclic(g, order, a, n);
          }
        }
      case Cyclic(path) =>
        var last := |path| - 1;
        var i :| 0 <= i < last && path[i] == path[last];
        RepeatedNodeIsOnCycle(g, path, i, last);
        WalkReaches(g, path, 0, i);
        assert ReachedFrom(g, roots, path[i]) && OnCycle(g, path[i]);
      case Unknown(name) =>
    }
  }

  lemma ClosureIsRegistered(registry: Registry, roots: seq<Node>, closure: seq<Node>)
    requires ComputeClosure(registry, roots) == Ordered(closure)
    ensures Elements(closure) <= registry.Keys && (forall n :: n in closure ==> n in registry)
    ensures DependenciesFirst(DependencyGraph(registry), closure)
  {
    SortIsExact(DependencyGraph(registry), roots);
    forall n | n in closure ensures n in registry {
      assert n in DependencyGraph(registry);
    }
  }

  /* ---- the sort as the code runs it ---- */

  /** The two variables `computeClosure` and `publishOrder` share with their inner `visit`. */
  class Sorter {
    const graph: Graph
    var order: seq<Node>
    var visited: set<Node>

    ghost predicate Valid()
      reads this
    {
      visited == Elements(order)
    }

    constructor (g: Graph)
      ensures Valid() && graph == g && order == []
    {
      graph := g;
      order := [];
      visited := {};
    }

    /** Either leaves the spec's order behind or throws the spec's error. */
    method Enter(name: Node, chain: seq<Node>) returns (thrown: Option<Outcome>)
      requires Valid()
      modifies this
      ensures match thrown
              case None => Valid() && Visit(graph, name, chain, old(order)) == Ordered(order)
              case Some(error) => !error.Ordered? && Visit(graph, name, chain, old(order)) == error
      decreases graph.Keys - Elements(chain), 0
    {
      if name in visited { return None; }
      if name in chain { return Some(Cyclic(chain + [name])); }
      if name !in graph { return Some(Unknown(name)); }
      assert name in graph.Keys - Elements(chain) && name !in graph.Keys - Elements(chain + [name]);
      thrown := EnterEach(graph[name], chain + [name]);
      if thrown.None? {
        visited := visited + {name};
        order := order + [name];
      }
    }

    method EnterEach(names: seq<Node>, chain: seq<Node>) returns (thrown: Option<Outcome>)
      requires Valid()
      modifies this
      ensures match thrown
              case None => Valid() && VisitAll(graph, names, chain, old(order)) == Ordered(order)
              case Some(error) => !error.Ordered? && VisitAll(graph, names, chain, old(order)) == error
      decreases graph.Keys - Elements(chain), 1
    {
      var i := 0;
      while i < |names|
        invariant 0 <= i <= |names| && Valid()
        invariant VisitAll(graph, names, chain, old(order)) == VisitAll(graph, names[i..], chain, order)
      {
        assert names[i..][0] == names[i] && names[i..][1..] == names[i + 1..];
        thrown := Enter(names[i], chain);
        if thrown.Some? { return; }
        i := i + 1;
      }
      return None;
    }
  }

  method ComputeClosureInPlace(registry: Registry, roots: seq<Node>) returns (r: Outcome)
    ensures r == ComputeClosure(registry, roots)
  {
    var sorter := new Sorter(DependencyGraph(registry));
    var thrown := sorter.EnterEach(roots, []);
    r := if thrown.Some? then thrown.value else Ordered(sorter.order);
  }

  method PublishOrderInPlace(registry: Registry, names: seq<Node>) returns (r: Outcome)
    requires forall n :: n in names ==> n in registry
    ensures r == PublishOrder(registry, names)
  {
    var sorter := new Sorter(SiblingGraph(registry));
    var thrown := sorter.EnterEach(names, []);
    r := if thrown.Some? then thrown.value else Ordered(sorter.order);
  }
}
