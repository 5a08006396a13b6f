/** `RenderComponent` of `A2uiLab.tsx`: a walk over a component map that may be cyclic or dangling, guarded by the
    set of ancestors. */
module RenderTree {
  import opened Graphs
  import opened Sequences
  import opened Options

  datatype Layout = Column | Row

  /** A component; a container's `children` is absent when they are a template instead of a list. */
  datatype Component = Text | Container(layout: Layout, children: Option<seq<Node>>) | Button(child: Node) | Other

  type Surface = map<Node, Component>

  /** What is rendered, placeholders included. */
  datatype Tree =
    | CyclePlaceholder(id: Node)
    | MissingPlaceholder(id: Node)
    | TextSpan(id: Node)
    | Box(id: Node, layout: Layout, items: seq<Tree>)
    | TemplatePlaceholder(id: Node, layout: Layout)
    | ButtonBox(id: Node, item: Tree)
    | UnknownPlaceholder(id: Node)

  function Children(c: Component): seq<Node> {
    match c
    case Container(_, Some(children)) => children
    case Button(child) => [child]
    case _ => []
  }

  /** The component graph. */
  function ComponentGraph(surface: Surface): Graph {
    map id | id in surface :: Children(surface[id])
  }

  /** Terminates on every map: each level adds one of its ids to the ancestors. */
  function Render(surface: Surface, id: Node, ancestors: set<Node>): (t: Tree)
    ensures t.id == id
    decreases surface.Keys - ancestors, 0
  {
    if id in ancestors then CyclePlaceholder(id)
    else if id !in surface then MissingPlaceholder(id)
    else
      assert id in surface.Keys - ancestors && id !in surface.Keys - (ancestors + {id});
      match surface[id]
      case Text => TextSpan(id)
      case Container(layout, Some(children)) => Box(id, layout, RenderEach(surface, children, ancestors + {id}))
      case Container(layout, None) => TemplatePlaceholder(id, layout)
      case Button(child) => ButtonBox(id, Render(surface, child, ancestors + {id}))
      case Other => UnknownPlaceholder(id)
  }

  function RenderEach(surface: Surface, ids: seq<Node>, ancestors: set<Node>): (ts: seq<Tree>)
    ensures |ts| == |ids| && forall i :: 0 <= i < |ids| ==> ts[i] == Render(surface, ids[i], ancestors)
    decreases surface.Keys - ancestors, 1 + |ids|
  {
    if ids == [] then [] else [Render(surface, ids[0], ancestors)] + RenderEach(surface, ids[1..], ancestors)
  }

  function Items(t: Tree): (items: seq<Tree>)
    ensures forall i :: 0 <= i < |items| ==> items[i] < t
  {
    match t
    case Box(_, _, items) => items
    case ButtonBox(_, item) => [item]
    case _ => []
  }

  ghost predicate HasCycle(t: Tree) {
    t.CyclePlaceholder? || exists i :: 0 <= i < |Items(t)| && HasCycle(Items(t)[i])
  }

  ghost predicate HasMissing(t: Tree) {
    t.MissingPlaceholder? || exists i :: 0 <= i < |Items(t)| && HasMissing(Items(t)[i])
  }

  /** From position k on, `p` lists the ids from the root of `t` down to the node `end`. */
  ghost predicate PathFrom(t: Tree, p: seq<Node>, k: nat, end: Tree)
    decreases |p| - k
  {
    && k < |p| && p[k] == t.id
    && if k == |p| - 1 then t == end else exists i :: 0 <= i < |Items(t)| && PathFrom(Items(t)[i], p, k + 1, end)
  }

  ghost predicate PathTo(t: Tree, p: seq<Node>, end: Tree) {
    PathFrom(t, p, 0, end)
  }

  /** Below a component that is rendered, the items are its children rendered one level deeper. */
  lemma ItemsAreChildren(surface: Surface, id: Node, ancestors: set<Node>)
    ensures var items := Items(Render(surface, id, ancestors));
            if id in ancestors || id !in surface then items == []
            else |items| == |Succ(ComponentGraph(surface), id)|
                 && forall i :: 0 <= i < |items|
                                ==> items[i] == Render(surface, Succ(ComponentGraph(surface), id)[i], ancestors + {id})
  {
  }

  /* ---- what is rendered, node by node ---- */

  /** Which components a component shows: those a container lists, and a button's one child. */
  lemma ShownChildrenExactly(surface: Surface, id: Node, child: Node)
    ensures child in Succ(ComponentGraph(surface), id)
            <==> id in surface
                 && match surface[id]
                    case Container(_, Some(children)) => child in children
                    case Button(only) => child == only
                    case _ => false
  {
  }

  /** The node for an id met below the ids `above`: a placeholder for a cycle, a missing component, a template or an
      unknown kind; otherwise the component's own kind, with one item for each child, in order. */
  ghost predicate NodeFits(surface: Surface, t: Tree, above: set<Node>) {
    if t.id in above then t.CyclePlaceholder?
    else if t.id !in surface then t.MissingPlaceholder?
    else
      match surface[t.id]
      case Text => t.TextSpan?
      case Container(layout, Some(children)) =>
        && t.Box? && t.layout == layout && |t.items| == |children|
        && forall i :: 0 <= i < |children| ==> t.items[i].id == children[i]
      case Container(layout, None) => t.TemplatePlaceholder? && t.layout == layout
      case Button(child) => t.ButtonBox? && t.item.id == child
      case Other => t.UnknownPlaceholder?
  }

  /** Every node of the tree fits below the nodes above it. */
  ghost predicate Depicts(surface: Surface, t: Tree, above: set<Node>) {
    NodeFits(surface, t, above) && forall i :: 0 <= i < |Items(t)| ==> Depicts(surface, Items(t)[i], above + {t.id})
  }

  lemma {:induction false} RenderDepicts(surface: Surface, id: Node, above: set<Node>)
    ensures Depicts(surface, Render(surface, id, above), above)
    decreases surface.Keys - above
  {
    var t := Render(surface, id, above);
    ItemsAreChildren(surface, id, above);
    if id !in above && id in surface {
      var children := Succ(ComponentGraph(surface), id);
      assert id in surface.Keys - above && id !in surface.Keys - (above + {id});
      forall i | 0 <= i < |Items(t)| ensures Depicts(surface, Items(t)[i], above + {id}) {
        RenderDepicts(surface, children[i], above + {id});
      }
    }
  }

  lemma {:induction false} DepictionIsUnique(surface: Surface, t: Tree, above: set<Node>)
    requires Depicts(surface, t, above)
    ensures t == Render(surface, t.id, above)
    decreases t
  {
    var rendered := Render(surface, t.id, above);
    ItemsAreChildren(surface, t.id, above);
    forall i | 0 <= i < |Items(t)| ensures Items(t)[i] == Render(surface, Items(t)[i].id, above + {t.id}) {
      DepictionIsUnique(surface, Items(t)[i], above + {t.id});
    }
    if t.Box? {
      assert rendered.Box? && Items(rendered) == rendered.items;
      forall i | 0 <= i < |t.items| ensures t.items[i] == rendered.items[i] {
        assert Items(t)[i] == Render(surface, t.items[i].id, above + {t.id});
        assert rendered.items[i] == Render(surface, surface[t.id].children.value[i], above + {t.id});
      }
      assert t.items == rendered.items;
    } else if t.ButtonBox? {
      assert rendered.ButtonBox? && Items(t)[0] == t.item && Items(rendered)[0] == rendered.item;
      assert t.item == Render(surface, t.item.id, above + {t.id});
    }
  }

  /** What is rendered is the one tree with that root whose every node fits. */
  lemma RenderExactly(surface: Surface, id: Node, above: set<Node>, t: Tree)
    ensures t == Render(surface, id, above) <==> t.id == id && Depicts(surface, t, above)
  {
    RenderDepicts(surface, id, above);
    if t.id == id && Depicts(surface, t, above) {
      DepictionIsUnique(surface, t, above);
    }
  }

  /* ---- paths ---- */

  /** The ids at positions k up to n are distinct and none is an ancestor. */
  ghost predicate Simple(p: seq<Node>, k: nat, n: nat, ancestors: set<Node>)
    requires n <= |p|
  {
    && (forall i :: k <= i < n ==> p[i] !in ancestors)
    && (forall i, j :: k <= i < j < n ==> p[i] != p[j])
  }

  lemma SimpleCons(p: seq<Node>, k: nat, n: nat, ancestors: set<Node>)
    requires k < n <= |p| && p[k] !in ancestors && Simple(p, k + 1, n, ancestors + {p[k]})
    ensures Simple(p, k, n, ancestors)
  {
  }

  /** A path that goes on goes on through a child. */
  lemma NextOnPath(surface: Surface, p: seq<Node>, k: nat, ancestors: set<Node>, end: Tree)
    requires k + 1 < |p| && PathFrom(Render(surface, p[k], ancestors), p, k, end)
    ensures p[k] !in ancestors && p[k + 1] in Succ(ComponentGraph(surface), p[k])
    ensures PathFrom(Render(surface, p[k + 1], ancestors + {p[k]}), p, k + 1, end)
  {
    var t := Render(surface, p[k], ancestors);
    ItemsAreChildren(surface, p[k], ancestors);
    var i :| 0 <= i < |Items(t)| && PathFrom(Items(t)[i], p, k + 1, end);
  }

  ghost predicate WalkFrom(g: Graph, p: seq<Node>, k: nat) {
    forall i, j :: k <= i && j == i + 1 && j < |p| ==> p[j] in Succ(g, p[i])
  }

  /** A path of the tree is a walk of the component graph. */
  lemma {:induction false} PathsAreWalks(surface: Surface, p: seq<Node>, k: nat, ancestors: set<Node>, end: Tree)
    requires k < |p| && PathFrom(Render(surface, p[k], ancestors), p, k, end)
    ensures WalkFrom(ComponentGraph(surface), p, k) && end.id == p[|p| - 1]
    decreases |p| - k
  {
    if k + 1 < |p| {
      NextOnPath(surface, p, k, ancestors, end);
      PathsAreWalks(surface, p, k + 1, ancestors + {p[k]}, end);
    }
  }

  /** Before its last node a path passes no id twice and no ancestor. */
  lemma {:induction false} PathsPassNoIdTwice(surface: Surface, p: seq<Node>, k: nat, ancestors: set<Node>, end: Tree)
    requires k < |p| && PathFrom(Render(surface, p[k], ancestors), p, k, end)
    ensures Simple(p, k, |p| - 1, ancestors)
    decreases |p| - k
  {
    if k + 1 < |p| {
      NextOnPath(surface, p, k, ancestors, end);
      PathsPassNoIdTwice(surface, p, k + 1, ancestors + {p[k]}, end);
      SimpleCons(p, k, |p| - 1, ancestors);
    }
  }

  /** The last id is an ancestor or stands earlier on the path. */
  ghost predicate EndsInCycle(p: seq<Node>, k: nat, ancestors: set<Node>)
    requires k < |p|
  {
    p[|p| - 1] in ancestors || exists i :: k <= i < |p| - 1 && p[i] == p[|p| - 1]
  }

  lemma EndsInCycleCons(p: seq<Node>, k: nat, ancestors: set<Node>)
    requires k + 1 < |p|
    ensures EndsInCycle(p, k, ancestors) <==> EndsInCycle(p, k + 1, ancestors + {p[k]})
  {
  }

  /** A path ends at a cycle placeholder exactly when its last id is an ancestor or has been passed. */
  lemma {:induction false} PathsEndInCycles(surface: Surface, p: seq<Node>, k: nat, ancestors: set<Node>, end: Tree)
    requires k < |p| && PathFrom(Render(surface, p[k], ancestors), p, k, end)
    ensures end.CyclePlaceholder? <==> EndsInCycle(p, k, ancestors)
    decreases |p| - k
  {
    if k + 1 < |p| {
      NextOnPath(surface, p, k, ancestors, end);
      PathsEndInCycles(surface, p, k + 1, ancestors + {p[k]}, end);
      EndsInCycleCons(p, k, ancestors);
    }
  }

  /** On any path no id repeats and none is an ancestor, except that a path ends at a cycle placeholder exactly when
      its last id is one it has passed or an ancestor. */
  lemma PathsAreSimple(surface: Surface, id: Node, ancestors: set<Node>, p: seq<Node>, end: Tree)
    requires PathTo(Render(surface, id, ancestors), p, end)
    ensures IsWalk(ComponentGraph(surface), p) && end.id == p[|p| - 1]
    ensures Simple(p, 0, |p| - 1, ancestors)
    ensures if end.CyclePlaceholder? then EndsInCycle(p, 0, ancestors) else Simple(p, 0, |p|, ancestors)
  {
    RootId(surface, id, ancestors);
    PathsAreWalks(surface, p, 0, ancestors, end);
    PathsPassNoIdTwice(surface, p, 0, ancestors, end);
    PathsEndInCycles(surface, p, 0, ancestors, end);
  }

  lemma RootId(surface: Surface, id: Node, ancestors: set<Node>)
    ensures Render(surface, id, ancestors).id == id
  {
  }

  /* ---- cycles ---- */

  /** Without a cycle placeholder every walk avoids the ancestors and never repeats a node. */
  lemma {:induction false} CleanWalks(surface: Surface, id: Node, ancestors: set<Node>, p: seq<Node>)
    requires !HasCycle(Render(surface, id, ancestors))
    requires IsWalk(ComponentGraph(surface), p) && p[0] == id
    ensures Distinct(p) && Elements(p) !! ancestors
    decreases |p|
  {
    var t := Render(surface, id, ancestors);
    ItemsAreChildren(surface, id, ancestors);
    assert id !in ancestors;
    if |p| > 1 {
      var rest, children := p[1..], Succ(ComponentGraph(surface), id);
      assert rest[0] in children;
      var i :| 0 <= i < |children| && children[i] == rest[0];
      assert !HasCycle(Items(t)[i]);
      CleanWalks(surface, rest[0], ancestors + {id}, rest);
      assert p == [id] + rest;
      forall k | 0 <= k < |rest| ensures rest[k] != id {
        assert rest[k] in Elements(rest);
      }
    }
  }

  /** A cycle placeholder is reached by a walk that ends at an ancestor or at a node it has passed. */
  lemma {:induction false} CycleWalk(surface: Surface, id: Node, ancestors: set<Node>) returns (p: seq<Node>)
    requires HasCycle(Render(surface, id, ancestors))
    ensures IsWalk(ComponentGraph(surface), p) && p[0] == id
    ensures p[|p| - 1] in ancestors || EndRepeats(p)
    decreases surface.Keys - ancestors
  {
    var t := Render(surface, id, ancestors);
    ItemsAreChildren(surface, id, ancestors);
    if id in ancestors {
      p := [id];
    } else {
      var i :| 0 <= i < |Items(t)| && HasCycle(Items(t)[i]);
      var child := Succ(ComponentGraph(surface), id)[i];
      assert id in surface.Keys - ancestors && id !in surface.Keys - (ancestors + {id});
      var rest := CycleWalk(surface, child, ancestors + {id});
      WalkCons(ComponentGraph(surface), id, rest);
      EndsRepeatedly(id, rest, ancestors);
      p := [id] + rest;
    }
  }

  ghost predicate EndRepeats(p: seq<Node>) {
    exists k :: 0 <= k < |p| - 1 && p[k] == p[|p| - 1]
  }

  lemma EndsRepeatedly(id: Node, rest: seq<Node>, ancestors: set<Node>)
    requires rest != [] && (rest[|rest| - 1] in ancestors + {id} || EndRepeats(rest))
    ensures rest[|rest| - 1] in ancestors || EndRepeats([id] + rest)
  {
    var p := [id] + rest;
    if rest[|rest| - 1] == id {
      assert p[0] == p[|p| - 1];
    } else if rest[|rest| - 1] !in ancestors {
      var k :| 0 <= k < |rest| - 1 && rest[k] == rest[|rest| - 1];
      assert p[k + 1] == p[|p| - 1];
    }
  }

  /** A cycle placeholder appears exactly when some component reached from the root lies on a cycle. */
  lemma CyclePlaceholderIffCycle(surface: Surface, root: Node)
    ensures HasCycle(Render(surface, root, {})) <==> !AcyclicFrom(ComponentGraph(surface), [root])
  {
    var g := ComponentGraph(surface);
    if HasCycle(Render(surface, root, {})) {
      var p := CycleWalk(surface, root, {});
      var k :| 0 <= k < |p| - 1 && p[k] == p[|p| - 1];
      RepeatedNodeIsOnCycle(g, p, k, |p| - 1);
      WalkReaches(g, p, 0, k);
      assert root in [root] && ReachedFrom(g, [root], p[k]);
    }
    if !AcyclicFrom(g, [root]) && !HasCycle(Render(surface, root, {})) {
      var n :| ReachedFrom(g, [root], n) && OnCycle(g, n);
      var a :| WalkBetween(g, a, root, n);
      var m :| m in Succ(g, n) && Reaches(g, m, n);
      var b :| WalkBetween(g, b, m, n);
      var p := a + b;
      assert IsWalk(g, p) && p[|a| - 1] == n && p[|p| - 1] == n;
      CleanWalks(surface, root, {}, p);
    }
  }

  /* ---- missing components ---- */

  lemma {:induction false} MissingWalk(surface: Surface, id: Node, ancestors: set<Node>) returns (n: Node)
    requires HasMissing(Render(surface, id, ancestors))
    ensures n !in surface && Reaches(ComponentGraph(surface), id, n)
    decreases surface.Keys - ancestors
  {
    var t := Render(surface, id, ancestors);
    ItemsAreChildren(surface, id, ancestors);
    ReachesSelf(ComponentGraph(surface), id);
    if t.MissingPlaceholder? {
      n := id;
    } else {
      var i :| 0 <= i < |Items(t)| && HasMissing(Items(t)[i]);
      var child := Succ(ComponentGraph(surface), id)[i];
      assert id in surface.Keys - ancestors && id !in surface.Keys - (ancestors + {id});
      n := MissingWalk(surface, child, ancestors + {id});
      StepReaches(ComponentGraph(surface), id, child, n);
    }
  }

  /** A missing id that a walk clear of the ancestors leads to is found, even if the walk itself loops. */
  lemma {:induction false} MissingIsFound(surface: Surface, id: Node, ancestors: set<Node>, p: seq<Node>)
    requires IsWalk(ComponentGraph(surface), p) && p[0] == id && p[|p| - 1] !in surface
    requires Elements(p) !! ancestors
    ensures HasMissing(Render(surface, id, ancestors))
    decreases |p|
  {
    var t := Render(surface, id, ancestors);
    ItemsAreChildren(surface, id, ancestors);
    assert id in Elements(p);
    if k :| 0 < k < |p| && p[k] == id {
      forall n | n in Elements(p[k..]) ensures n in Elements(p) {
      }
      MissingIsFound(surface, id, ancestors, p[k..]);
    } else if |p| > 1 {
      var rest, children := p[1..], Succ(ComponentGraph(surface), id);
      assert rest[0] in children;
      var i :| 0 <= i < |children| && children[i] == rest[0];
      forall n | n in Elements(rest) ensures n !in ancestors + {id} {
        var j :| 0 <= j < |rest| && rest[j] == n;
        assert p[j + 1] == n && n in Elements(p);
      }
      MissingIsFound(surface, rest[0], ancestors + {id}, rest);
      assert HasMissing(Items(t)[i]);
    }
  }

  /** A missing placeholder appears exactly when a missing id is reached from the root. */
  lemma MissingPlaceholderIffMissing(surface: Surface, root: Node)
    ensures HasMissing(Render(surface, root, {}))
            <==> exists n :: Reaches(ComponentGraph(surface), root, n) && n !in surface
  {
    if HasMissing(Render(surface, root, {})) {
      var n := MissingWalk(surface, root, {});
    }
    if n :| Reaches(ComponentGraph(surface), root, n) && n !in surface {
      var p :| WalkBetween(ComponentGraph(surface), p, root, n);
      MissingIsFound(surface, root, {}, p);
    }
  }
}
