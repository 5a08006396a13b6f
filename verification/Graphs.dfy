/** Directed graphs over names (package names, file paths, component ids) and what reaches what.

    A graph is a finite map from a node to the targets of its edges, in source order. A node that is
    not a key has no outgoing edges; a target need not be a key. */
module Graphs {
  type Node = string
  type Graph = map<Node, seq<Node>>

  function Succ(g: Graph, n: Node): seq<Node> {
    if n in g then g[n] else []
  }

  /** A nonempty sequence of nodes, each joined to the next by an edge. */
  ghost predicate IsWalk(g: Graph, p: seq<Node>) {
    |p| > 0 && forall i, j :: 0 <= i && j == i + 1 && j < |p| ==> p[j] in Succ(g, p[i])
  }

  ghost predicate WalkBetween(g: Graph, p: seq<Node>, a: Node, b: Node) {
    IsWalk(g, p) && p[0] == a && p[|p| - 1] == b
  }

  ghost predicate Reaches(g: Graph, a: Node, b: Node) {
    exists p :: WalkBetween(g, p, a, b)
  }

  ghost predicate ReachedFrom(g: Graph, starts: seq<Node>, b: Node) {
    exists a :: a in starts && Reaches(g, a, b)
  }

  /** `n` can be left along an edge and reached again. */
  ghost predicate OnCycle(g: Graph, n: Node) {
    exists m :: m in Succ(g, n) && Reaches(g, m, n)
  }

  ghost predicate AcyclicFrom(g: Graph, starts: seq<Node>) {
    forall n :: ReachedFrom(g, starts, n) ==> !OnCycle(g, n)
  }

  ghost predicate Acyclic(g: Graph) {
    forall n :: !OnCycle(g, n)
  }

  ghost predicate ClosedUnderSucc(g: Graph, s: set<Node>) {
    forall n, m :: n in s && m in Succ(g, n) ==> m in s
  }

  function Elements(p: seq<Node>): set<Node> {
    set n | n in p
  }

  lemma ElementsNext(p: seq<Node>, i: nat)
    requires i < |p|
    ensures Elements(p[..i + 1]) == Elements(p[..i]) + {p[i]}
  {
    assert p[..i + 1] == p[..i] + [p[i]];
  }

  /** How many nodes come before the first one in `stops`. */
  function Until(p: seq<Node>, stops: set<Node>): (k: nat)
    ensures k <= |p|
    ensures forall i :: 0 <= i < k ==> p[i] !in stops
    ensures k < |p| ==> p[k] in stops
  {
    if p == [] || p[0] in stops then 0 else 1 + Until(p[1..], stops)
  }

  lemma UntilNext(p: seq<Node>, i: nat, stops: set<Node>)
    requires i < |p|
    ensures Until(p[i..], stops) == if p[i] in stops then 0 else 1 + Until(p[i + 1..], stops)
  {
    assert p[i..][1..] == p[i + 1..];
  }

  lemma ReachesSelf(g: Graph, a: Node)
    ensures Reaches(g, a, a)
  {
    assert WalkBetween(g, [a], a, a);
  }

  lemma ReachesStep(g: Graph, a: Node, b: Node, c: Node)
    requires Reaches(g, a, b) && c in Succ(g, b)
    ensures Reaches(g, a, c)
  {
    var p :| WalkBetween(g, p, a, b);
    assert WalkBetween(g, p + [c], a, c);
  }

  lemma StepReaches(g: Graph, a: Node, b: Node, c: Node)
    requires b in Succ(g, a) && Reaches(g, b, c)
    ensures Reaches(g, a, c)
  {
    var p :| WalkBetween(g, p, b, c);
    assert WalkBetween(g, [a] + p, a, c);
  }

  lemma WalkCons(g: Graph, a: Node, p: seq<Node>)
    requires IsWalk(g, p) && p[0] in Succ(g, a)
    ensures IsWalk(g, [a] + p)
  {
  }

  lemma ReachesTrans(g: Graph, a: Node, b: Node, c: Node)
    requires Reaches(g, a, b) && Reaches(g, b, c)
    ensures Reaches(g, a, c)
  {
    var p :| WalkBetween(g, p, a, b);
    var q :| WalkBetween(g, q, b, c);
    assert WalkBetween(g, p + q[1..], a, c);
  }

  /** A set closed under edges contains every node of a walk that starts in it. */
  lemma {:induction false} WalkStaysInside(g: Graph, s: set<Node>, p: seq<Node>, i: nat)
    requires ClosedUnderSucc(g, s) && IsWalk(g, p) && p[0] in s && i < |p|
    ensures p[i] in s
  {
    if i > 0 {
      WalkStaysInside(g, s, p, i - 1);
    }
  }

  lemma ClosedSetContains(g: Graph, s: set<Node>, a: Node, b: Node)
    requires ClosedUnderSucc(g, s) && a in s && Reaches(g, a, b)
    ensures b in s
  {
    var p :| WalkBetween(g, p, a, b);
    WalkStaysInside(g, s, p, |p| - 1);
  }

  /** A rank that every edge lowers forbids returning to a node. */
  lemma {:induction false} RankFallsAlongWalk(g: Graph, rank: Node -> int, p: seq<Node>, i: nat)
    requires forall n, m :: m in Succ(g, n) ==> rank(m) < rank(n)
    requires IsWalk(g, p) && i < |p|
    ensures rank(p[i]) <= rank(p[0])
  {
    if i > 0 {
      RankFallsAlongWalk(g, rank, p, i - 1);
    }
  }

  lemma RankedIsAcyclic(g: Graph, rank: Node -> int)
    requires forall n, m :: m in Succ(g, n) ==> rank(m) < rank(n)
    ensures Acyclic(g)
  {
    forall n ensures !OnCycle(g, n) {
      if OnCycle(g, n) {
        var m :| m in Succ(g, n) && Reaches(g, m, n);
        var p :| WalkBetween(g, p, m, n);
        RankFallsAlongWalk(g, rank, p, |p| - 1);
      }
    }
  }

  /** A walk whose last node occurs earlier closes a cycle at that node. */
  lemma RepeatedNodeIsOnCycle(g: Graph, p: seq<Node>, i: nat, j: nat)
    requires IsWalk(g, p) && i < j < |p| && p[i] == p[j]
    ensures OnCycle(g, p[i])
  {
    assert WalkBetween(g, p[i + 1..j + 1], p[i + 1], p[i]);
    assert p[i + 1] in Succ(g, p[i]);
  }

  lemma WalkReaches(g: Graph, p: seq<Node>, i: nat, j: nat)
    requires IsWalk(g, p) && i <= j < |p|
    ensures Reaches(g, p[i], p[j])
  {
    assert WalkBetween(g, p[i..j + 1], p[i], p[j]);
  }
}
