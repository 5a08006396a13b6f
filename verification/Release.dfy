/** The guard and the release run together: which audited workspaces `publish-pending.ts` can order. */
module Release {
  import opened Graphs
  import opened Options
  import opened PackageOrder
  import opened Layers
  import Publish

  /** Where one graph has all the edges of another, it has its walks. */
  lemma MoreEdgesReachMore(g: Graph, h: Graph, a: Node, b: Node)
    requires (forall n, d :: d in Succ(g, n) ==> d in Succ(h, n)) && Reaches(g, a, b)
    ensures Reaches(h, a, b)
  {
    var p :| WalkBetween(g, p, a, b);
    assert WalkBetween(h, p, a, b);
  }

  lemma FewerEdgesStayAcyclic(g: Graph, h: Graph)
    requires (forall n, d :: d in Succ(g, n) ==> d in Succ(h, n)) && Acyclic(h)
    ensures Acyclic(g)
  {
    forall n ensures !OnCycle(g, n) {
      if OnCycle(g, n) {
        var m :| m in Succ(g, n) && Reaches(g, m, n);
        MoreEdgesReachMore(g, h, m, n);
        assert OnCycle(h, n);
      }
    }
  }

  lemma DependenciesAreSiblings(registry: Registry)
    requires DependenciesKnown(registry)
    ensures forall n, d :: d in Succ(DependencyGraph(registry), n) ==> d in Succ(SiblingGraph(registry), n)
  {
  }

  /** A plan for the whole workspace exists exactly when its scoped dependencies are known and its siblings acyclic. */
  lemma PlanNeedsAcyclic(registry: Registry, keys: seq<Node>)
    requires Elements(keys) == registry.Keys
    ensures Publish.MakePlan(registry, keys, true, None).Selected?
            <==> DependenciesKnown(registry) && Acyclic(SiblingGraph(registry))
  {
    var closure := ComputeClosure(registry, keys);
    WholeClosureNeedsAcyclic(registry, keys);
    if DependenciesKnown(registry) && Acyclic(SiblingGraph(registry)) {
      DependenciesAreSiblings(registry);
      FewerEdgesStayAcyclic(DependencyGraph(registry), SiblingGraph(registry));
    }
    if closure.Ordered? {
      ClosureIsWorkspace(registry, keys, closure.order);
      WholeOrderNeedsAcyclic(registry, closure.order);
    }
  }

  lemma ClosureIsWorkspace(registry: Registry, keys: seq<Node>, order: seq<Node>)
    requires Elements(keys) == registry.Keys && ComputeClosure(registry, keys) == Ordered(order)
    ensures Elements(order) == registry.Keys
  {
    var g := DependencyGraph(registry);
    SortIsExact(g, keys);
    forall n ensures n in Elements(order) <==> n in registry {
      if n in registry {
        assert n in Elements(keys);
        ReachesSelf(g, n);
      }
      if n in order {
        assert n in g;
      }
    }
  }

  /** When the guard reports nothing, the release run can order the workspace, and goes on to ask npm, exactly when
      every scoped dependency is in the workspace and no upward exception's target leads back to its owner. */
  lemma CleanWorkspacePublishes(packages: seq<Package>, sources: map<Node, seq<Import>>, keys: seq<Node>)
    requires Violations(packages, sources, ByName(packages)) == []
    requires Elements(keys) == WorkspaceRegistry(packages).Keys
    ensures var registry := WorkspaceRegistry(packages);
            Publish.MakePlan(registry, keys, true, None).Selected?
            <==> DependenciesKnown(registry) && NoExceptionLeadsBack(SiblingGraph(registry))
  {
    var registry := WorkspaceRegistry(packages);
    WorkspaceHasRegistry(packages);
    CyclesRunThroughExceptions(packages, sources, registry, keys);
    assert IsSortGraph(registry, SiblingGraph(registry));
    PlanNeedsAcyclic(registry, keys);
  }
}
