/** The publish run of `publish-pending.ts`: which packages it uploads, in which order, and what is on
    npm after it stops anywhere. */
module Publish {
  import opened Graphs
  import opened Options
  import opened PackageOrder
  import opened Sequences

  /** Where a package's current version stands on npm. */
  datatype NpmState = OnNpm | Pending | NeverPublished

  type Npm = map<Node, NpmState>

  datatype Row = Skipped(name: Node, state: NpmState) | Published(name: Node)

  datatype Error =
    | IncompatiblePeers | Unsortable(outcome: Outcome) | UnknownOnly
    | QueryFailed(name: Node) | UploadFailed(name: Node)

  datatype Plan = Refused(error: Error) | Selected(order: seq<Node>)

  function IsPublic(registry: Registry): Node -> bool {
    n => n in registry && !registry[n].isPrivate
  }

  function Named(only: Option<set<Node>>): Node -> bool {
    n => only.None? || n in only.value
  }

  function IsPending(npm: Npm): Node -> bool {
    n => n in npm && npm[n] == Pending
  }

  /** Everything `main` decides before it asks npm: the peer check, both sorts, and `--only`. */
  function MakePlan(registry: Registry, keys: seq<Node>, peersAgree: bool, only: Option<set<Node>>): Plan {
    if !peersAgree then Refused(IncompatiblePeers)
    else
      var closure := ComputeClosure(registry, keys);
      if !closure.Ordered? then Refused(Unsortable(closure))
      else
        var published := PublishOrder(registry, closure.order);
        if !published.Ordered? then Refused(Unsortable(published))
        else
          SelectFrom(registry, published.order, only)
  }

  /** The public packages of an order, and of those the ones `--only` names. */
  function SelectFrom(registry: Registry, order: seq<Node>, only: Option<set<Node>>): Plan {
    var publicNames := Filter(order, IsPublic(registry));
    if only.Some? && !(only.value <= Elements(publicNames)) then Refused(UnknownOnly)
    else Selected(Filter(publicNames, Named(only)))
  }

  lemma SelectedAreRegistered(registry: Registry, order: seq<Node>, only: Option<set<Node>>)
    requires SelectFrom(registry, order, only).Selected?
    ensures forall n :: n in SelectFrom(registry, order, only).order ==> n in registry
  {
    FilterMember(order, IsPublic(registry));
    FilterMember(Filter(order, IsPublic(registry)), Named(only));
  }

  /** npm once `names` have been uploaded. */
  function After(npm: Npm, names: seq<Node>): Npm {
    map n | n in npm :: if n in names then OnNpm else npm[n]
  }

  function SkipRows(npm: Npm, order: seq<Node>): seq<Row> {
    if order == [] then []
    else (if order[0] in npm && npm[order[0]] != Pending then [Skipped(order[0], npm[order[0]])] else [])
         + SkipRows(npm, order[1..])
  }

  function PublishedRows(names: seq<Node>): seq<Row> {
    if names == [] then [] else [Published(names[0])] + PublishedRows(names[1..])
  }

  /** How a run is called and what happens to it: the packages whose `npm view` fails for another reason than a 404,
      and those that cannot be packed or uploaded. */
  datatype Attempt = Attempt(only: Option<set<Node>>, planOnly: bool, unanswered: set<Node>, failing: set<Node>)

  /** What one run over the selected packages uploads: nothing unless every query is answered, then the pending
      packages up to the first that fails. */
  function RunUploads(npm: Npm, order: seq<Node>, attempt: Attempt): seq<Node> {
    var pending := PendingOf(npm, order);
    if attempt.planOnly || Until(order, attempt.unanswered) < |order| then []
      else pending[..Until(pending, attempt.failing)]
  }

  function RunError(npm: Npm, order: seq<Node>, attempt: Attempt): Option<Error> {
    var asked, pending := Until(order, attempt.unanswered), PendingOf(npm, order);
    if asked < |order| then Some(QueryFailed(order[asked]))
    else
      var k := Until(pending, attempt.failing);
      if k < |pending| && !attempt.planOnly then Some(UploadFailed(pending[k])) else None
  }

  /** What the upload loop walks. */
  function PendingOf(npm: Npm, order: seq<Node>): seq<Node> {
    Filter(order, IsPending(npm))
  }

  /* ---- safety of every prefix ---- */

  /** Every workspace package `p` depends or peers on has its version on npm. */
  ghost predicate SiblingsOnNpm(registry: Registry, npm: Npm, p: Node)
    requires p in registry
  {
    forall s :: s in Siblings(registry, registry[p]) ==> s in npm && npm[s] == OnNpm
  }

  /** A sibling this run leaves on npm: there already, or pending and among the packages the run selected. */
  ghost predicate Covered(npm: Npm, order: seq<Node>, s: Node) {
    s in npm && (npm[s] == OnNpm || (npm[s] == Pending && s in order))
  }

  ghost predicate Planned(registry: Registry, keys: seq<Node>, only: Option<set<Node>>, order: seq<Node>) {
    MakePlan(registry, keys, true, only) == Selected(order)
  }

  /** The order both sorts agree on: the whole workspace, dependencies and peers first. */
  lemma WorkspaceOrder(registry: Registry, keys: seq<Node>, order: seq<Node>)
    requires Elements(keys) == registry.Keys && ComputeClosure(registry, keys).Ordered?
    requires PublishOrder(registry, ComputeClosure(registry, keys).order) == Ordered(order)
    ensures DependenciesFirst(SiblingGraph(registry), order) && (forall n :: n in order <==> n in registry)
  {
    var closure := ComputeClosure(registry, keys).order;
    SortIsExact(DependencyGraph(registry), keys);
    SortIsExact(SiblingGraph(registry), closure);
    forall n | n in registry ensures n in order {
      ReachesSelf(DependencyGraph(registry), n);
      assert n in Elements(keys);
      ReachesSelf(SiblingGraph(registry), n);
      assert n in closure;
    }
  }

  lemma FilterKeepsSiblingsFirst(registry: Registry, order: seq<Node>, keep: Node -> bool, i: nat, s: Node)
    requires DependenciesFirst(SiblingGraph(registry), order) && (forall n :: n in order <==> n in registry)
    requires i < |Filter(order, keep)| && s in Filter(order, keep)
    ensures Filter(order, keep)[i] in registry
    ensures s in Siblings(registry, registry[Filter(order, keep)[i]]) ==> s in Filter(order, keep)[..i]
  {
    var p := Filter(order, keep)[i];
    FilterMember(order, keep);
    assert p in Filter(order, keep);
    var k :| 0 <= k < |order| && order[k] == p;
    if s in Siblings(registry, registry[p]) {
      assert s in Succ(SiblingGraph(registry), order[k]);
      FilterKeepsBefore(order, keep, k, i, s);
    }
  }

  lemma PlanParts(registry: Registry, keys: seq<Node>, only: Option<set<Node>>, order: seq<Node>)
    returns (published: seq<Node>)
    requires Planned(registry, keys, only, order)
    ensures ComputeClosure(registry, keys).Ordered?
    ensures PublishOrder(registry, ComputeClosure(registry, keys).order) == Ordered(published)
    ensures order == Filter(Filter(published, IsPublic(registry)), Named(only))
  {
    published := PublishOrder(registry, ComputeClosure(registry, keys).order).order;
  }

  /** The selected packages are the public ones `--only` names, none twice. */
  lemma PlanIsExact(registry: Registry, keys: seq<Node>, only: Option<set<Node>>, order: seq<Node>)
    requires Elements(keys) == registry.Keys && Planned(registry, keys, only, order)
    ensures Distinct(order)
    ensures forall n :: n in order <==> n in registry && !registry[n].isPrivate && (only.None? || n in only.value)
  {
    var published := PlanParts(registry, keys, only, order);
    WorkspaceOrder(registry, keys, published);
    FilterDistinct(published, IsPublic(registry));
    FilterDistinct(Filter(published, IsPublic(registry)), Named(only));
    FilterMember(published, IsPublic(registry));
    FilterMember(Filter(published, IsPublic(registry)), Named(only));
  }

  /** Each selected package stands after the siblings it shares the list with. */
  lemma PlanPutsSiblingsFirst(registry: Registry, keys: seq<Node>, only: Option<set<Node>>, order: seq<Node>, i: nat,
                              s: Node)
    requires Elements(keys) == registry.Keys && Planned(registry, keys, only, order)
    requires i < |order| && s in order
    ensures order[i] in registry
    ensures s in Siblings(registry, registry[order[i]]) ==> s in order[..i]
  {
    var published := PlanParts(registry, keys, only, order);
    var both: Node -> bool := n => IsPublic(registry)(n) && Named(only)(n);
    WorkspaceOrder(registry, keys, published);
    FilterTwice(published, IsPublic(registry), Named(only), both);
    FilterKeepsSiblingsFirst(registry, published, both, i, s);
  }

  /** Before the `j`-th upload, and so for good, the package's siblings are all on npm exactly when each of
      them was there at the start or is itself pending and selected. */
  lemma UploadIsSafe(registry: Registry, keys: seq<Node>, only: Option<set<Node>>, order: seq<Node>, npm: Npm, j: nat)
    requires Elements(keys) == registry.Keys <= npm.Keys && Planned(registry, keys, only, order)
    requires j < |PendingOf(npm, order)|
    ensures var pending, p := PendingOf(npm, order), PendingOf(npm, order)[j];
            && p in registry
            && (SiblingsOnNpm(registry, After(npm, pending[..j]), p)
                <==> forall s :: s in Siblings(registry, registry[p]) ==> Covered(npm, order, s))
  {
    PlanIsExact(registry, keys, only, order);
    var pending := PendingOf(npm, order);
    var p := pending[j];
    FilterMember(order, IsPending(npm));
    assert p in pending;
    var i :| 0 <= i < |order| && order[i] == p;
    var later := After(npm, pending[..j]);
    forall s | s in Siblings(registry, registry[p])
      ensures s in later && later[s] == OnNpm <==> Covered(npm, order, s)
    {
      if s in pending[..j] {
        assert s in pending;
      } else if s in npm && npm[s] == Pending && s in order {
        PlanPutsSiblingsFirst(registry, keys, only, order, i, s);
        FilterKeepsBefore(order, IsPending(npm), i, j, s);
      }
    }
  }

  /** What is on npm stays there. */
  lemma SiblingsStay(registry: Registry, npm: Npm, pending: seq<Node>, j: nat, k: nat, p: Node)
    requires j <= k <= |pending| && p in registry && SiblingsOnNpm(registry, After(npm, pending[..j]), p)
    ensures SiblingsOnNpm(registry, After(npm, pending[..k]), p)
  {
    forall s | s in Siblings(registry, registry[p])
      ensures s in After(npm, pending[..k]) && After(npm, pending[..k])[s] == OnNpm
    {
      assert s in After(npm, pending[..j]);
      if s in pending[..j] {
        var i :| 0 <= i < j && pending[i] == s;
        assert pending[..k][i] == s;
      }
    }
  }

  /** No package depends or peers on one that can never get onto npm. */
  ghost predicate SiblingsPublishable(registry: Registry, npm: Npm)
    requires registry.Keys <= npm.Keys
  {
    forall p, s :: p in registry && s in Siblings(registry, registry[p])
      ==> s in registry && !registry[s].isPrivate && npm[s] != NeverPublished
  }

  /** `--only` leaves out no sibling of a package it names, but for those already on npm. */
  ghost predicate KeepsSiblings(registry: Registry, npm: Npm, only: Option<set<Node>>)
    requires registry.Keys <= npm.Keys
  {
    only.Some? ==> forall p, s :: p in only.value && p in registry && s in Siblings(registry, registry[p])
                     ==> s in only.value || (s in npm && npm[s] == OnNpm)
  }

  lemma AllCovered(registry: Registry, keys: seq<Node>, only: Option<set<Node>>, order: seq<Node>, npm: Npm, p: Node)
    requires Elements(keys) == registry.Keys <= npm.Keys && Planned(registry, keys, only, order) && p in order
    requires SiblingsPublishable(registry, npm) && KeepsSiblings(registry, npm, only)
    ensures p in registry && forall s :: s in Siblings(registry, registry[p]) ==> Covered(npm, order, s)
  {
    PlanIsExact(registry, keys, only, order);
  }

  /** With no sibling that is private or was never published, and an `--only` that leaves out no sibling still missing
      from npm, npm never serves a package this run uploaded without everything it depends or peers on: after any
      number of uploads. */
  lemma EveryPrefixIsSafe(registry: Registry, keys: seq<Node>, only: Option<set<Node>>, order: seq<Node>, npm: Npm,
                          k: nat)
    requires Elements(keys) == registry.Keys <= npm.Keys && Planned(registry, keys, only, order)
    requires SiblingsPublishable(registry, npm) && KeepsSiblings(registry, npm, only)
    requires k <= |PendingOf(npm, order)|
    ensures AllSafe(registry, After(npm, PendingOf(npm, order)[..k]), PendingOf(npm, order)[..k])
  {
    var pending := PendingOf(npm, order);
    FilterMember(order, IsPending(npm));
    forall p | p in pending[..k] ensures p in registry && SiblingsOnNpm(registry, After(npm, pending[..k]), p) {
      var j :| 0 <= j < k && pending[j] == p;
      assert p in pending;
      UploadIsSafe(registry, keys, only, order, npm, j);
      AllCovered(registry, keys, only, order, npm, p);
      SiblingsStay(registry, npm, pending, j, k, p);
    }
  }

  /** Each of the packages has all its siblings on npm. */
  ghost predicate AllSafe(registry: Registry, npm: Npm, uploaded: seq<Node>) {
    forall p :: p in uploaded ==> p in registry && SiblingsOnNpm(registry, npm, p)
  }

  /** Stopping after `k` uploads and running again leaves exactly the rest to do, in the same order. */
  lemma RerunResumes(npm: Npm, order: seq<Node>, k: nat)
    requires Distinct(order) && k <= |PendingOf(npm, order)|
    ensures PendingOf(After(npm, PendingOf(npm, order)[..k]), order) == PendingOf(npm, order)[k..]
    ensures Distinct(PendingOf(npm, order))
  {
    var pending := PendingOf(npm, order);
    FilterDistinct(order, IsPending(npm));
    FilterMember(order, IsPending(npm));
    var done: Node -> bool := n => n !in pending[..k];
    var both: Node -> bool := n => IsPending(npm)(n) && done(n);
    FilterTwice(order, IsPending(npm), done, both);
    FilterAgrees(order, both, IsPending(After(npm, pending[..k])));
    DropFilter(pending, k, done);
  }

  /* ---- what one run does, package by package ---- */

  predicate PendingOn(npm: Npm, n: Node) {
    n in npm && npm[n] == Pending
  }

  ghost predicate AllAnswered(order: seq<Node>, attempt: Attempt) {
    forall i :: 0 <= i < |order| ==> order[i] !in attempt.unanswered
  }

  /** No pending package among the first i of the order fails. */
  ghost predicate NoneFails(npm: Npm, order: seq<Node>, attempt: Attempt, i: nat)
    requires i <= |order|
  {
    forall j :: 0 <= j < i && PendingOn(npm, order[j]) ==> order[j] !in attempt.failing
  }

  /** The run gets to upload p: p is selected and pending, every query was answered, and neither p nor a pending
      package before it fails. */
  ghost predicate Reached(npm: Npm, order: seq<Node>, attempt: Attempt, p: Node) {
    && !attempt.planOnly && AllAnswered(order, attempt)
    && exists i :: 0 <= i < |order| && order[i] == p && PendingOn(npm, p) && NoneFails(npm, order, attempt, i + 1)
  }

  ghost predicate StandBefore(order: seq<Node>, x: Node, y: Node) {
    exists i, j :: 0 <= i < j < |order| && order[i] == x && order[j] == y
  }

  /** `more` keeps the order of `order`. */
  ghost predicate InOrder(order: seq<Node>, more: seq<Node>) {
    forall a, b :: 0 <= a < b < |more| ==> StandBefore(order, more[a], more[b])
  }

  ghost predicate FirstUnanswered(order: seq<Node>, attempt: Attempt, n: Node) {
    exists i :: 0 <= i < |order| && order[i] == n && n in attempt.unanswered
                && forall j :: 0 <= j < i ==> order[j] !in attempt.unanswered
  }

  ghost predicate FirstFailing(npm: Npm, order: seq<Node>, attempt: Attempt, n: Node) {
    exists i :: 0 <= i < |order| && order[i] == n && PendingOn(npm, n) && n in attempt.failing
                && NoneFails(npm, order, attempt, i)
  }

  lemma FilterNode(x: Node, rest: seq<Node>, order: seq<Node>, keep: Node -> bool)
    requires order == [x] + rest
    ensures Filter(order, keep) == (if keep(x) then [x] else []) + Filter(rest, keep)
  {
    FilterFirst(x, rest, keep);
  }

  lemma ShiftNoneFails(npm: Npm, x: Node, rest: seq<Node>, attempt: Attempt, i: nat)
    requires i <= |rest|
    ensures NoneFails(npm, [x] + rest, attempt, i + 1)
            <==> (PendingOn(npm, x) ==> x !in attempt.failing) && NoneFails(npm, rest, attempt, i)
  {
    var order := [x] + rest;
    assert order[0] == x;
    forall j | 0 <= j < |rest| ensures order[j + 1] == rest[j] {
    }
    if NoneFails(npm, order, attempt, i + 1) {
      forall j | 0 <= j < i && PendingOn(npm, rest[j]) ensures rest[j] !in attempt.failing {
        assert order[j + 1] == rest[j];
      }
    }
  }

  lemma UntilSkips(x: Node, rest: seq<Node>, failing: set<Node>)
    ensures Until([x] + rest, failing) == if x in failing then 0 else 1 + Until(rest, failing)
  {
    assert ([x] + rest)[1..] == rest;
  }

  lemma PrefixStep(x: Node, rest: seq<Node>, failing: set<Node>, p: Node)
    ensures var whole := [x] + rest;
            p in whole[..Until(whole, failing)]
            <==> x !in failing && (p == x || p in rest[..Until(rest, failing)])
  {
    var whole := [x] + rest;
    UntilSkips(x, rest, failing);
    if x !in failing {
      assert whole[..1 + Until(rest, failing)] == [x] + rest[..Until(rest, failing)];
    }
  }

  /** The pending packages before the first failing one, seen from the order they were filtered from. */
  lemma {:induction false} BeforeFailure(npm: Npm, order: seq<Node>, attempt: Attempt, i: nat)
    requires Distinct(order) && i < |order|
    ensures var pending := PendingOf(npm, order);
            order[i] in pending[..Until(pending, attempt.failing)]
            <==> PendingOn(npm, order[i]) && NoneFails(npm, order, attempt, i + 1)
  {
    var x, rest := order[0], order[1..];
    var pending, later := PendingOf(npm, order), PendingOf(npm, rest);
    assert order == [x] + rest;
    FilterNode(x, rest, order, IsPending(npm));
    FilterMember(rest, IsPending(npm));
    ShiftNoneFails(npm, x, rest, attempt, i);
    if IsPending(npm)(x) {
      assert pending == [x] + later;
      PrefixStep(x, later, attempt.failing, order[i]);
    } else {
      assert pending == later;
    }
    if i > 0 {
      BeforeFailure(npm, rest, attempt, i - 1);
      assert order[i] == rest[i - 1] && order[i] != x;
    } else {
      assert NoneFails(npm, rest, attempt, 0);
      assert x !in rest;
    }
  }

  /** The first failing pending package, seen from the order. */
  lemma {:induction false} FailureIsFirst(npm: Npm, order: seq<Node>, attempt: Attempt)
    ensures var pending := PendingOf(npm, order);
            var k := Until(pending, attempt.failing);
            && (k == |pending| <==> NoneFails(npm, order, attempt, |order|))
            && forall n :: FirstFailing(npm, order, attempt, n) <==> k < |pending| && pending[k] == n
  {
    if order != [] {
      var x, rest := order[0], order[1..];
      var pending, later := PendingOf(npm, order), PendingOf(npm, rest);
      assert order == [x] + rest;
      FailureIsFirst(npm, rest, attempt);
      FilterNode(x, rest, order, IsPending(npm));
      ShiftNoneFails(npm, x, rest, attempt, |rest|);
      FirstFailingNext(npm, x, rest, attempt);
      if IsPending(npm)(x) {
        assert pending == [x] + later;
        UntilSkips(x, later, attempt.failing);
      } else {
        assert pending == later;
      }
    }
  }

  lemma FirstFailingNext(npm: Npm, x: Node, rest: seq<Node>, attempt: Attempt)
    ensures forall n :: FirstFailing(npm, [x] + rest, attempt, n)
                        <==> if PendingOn(npm, x) && x in attempt.failing then n == x
                             else FirstFailing(npm, rest, attempt, n)
  {
    var order := [x] + rest;
    forall n
      ensures FirstFailing(npm, order, attempt, n)
              <==> if PendingOn(npm, x) && x in attempt.failing then n == x else FirstFailing(npm, rest, attempt, n)
    {
      if FirstFailing(npm, order, attempt, n) {
        var i :| 0 <= i < |order| && order[i] == n && PendingOn(npm, n) && n in attempt.failing
                 && NoneFails(npm, order, attempt, i);
        if i > 0 {
          ShiftNoneFails(npm, x, rest, attempt, i - 1);
          assert rest[i - 1] == n;
        }
      }
      if PendingOn(npm, x) && x in attempt.failing {
        assert order[0] == x && NoneFails(npm, order, attempt, 0);
      } else if FirstFailing(npm, rest, attempt, n) {
        var i :| 0 <= i < |rest| && rest[i] == n && PendingOn(npm, n) && n in attempt.failing
                 && NoneFails(npm, rest, attempt, i);
        ShiftNoneFails(npm, x, rest, attempt, i);
        assert order[i + 1] == n;
      }
    }
  }

  lemma PendingInOrder(npm: Npm, order: seq<Node>, k: nat)
    requires k <= |PendingOf(npm, order)|
    ensures InOrder(order, PendingOf(npm, order)[..k])
  {
    var pending := PendingOf(npm, order);
    forall a, b | 0 <= a < b < k ensures StandBefore(order, pending[a], pending[b]) {
      FilterOrder(order, IsPending(npm), a, b);
    }
  }

  /** A run uploads exactly the packages it reaches, in the order of the plan; `--plan` reaches none. */
  lemma RunUploadsExactly(npm: Npm, order: seq<Node>, attempt: Attempt)
    requires Distinct(order)
    ensures var more := RunUploads(npm, order, attempt);
            && Distinct(more) && InOrder(order, more)
            && forall p :: p in more <==> Reached(npm, order, attempt, p)
  {
    var more, pending := RunUploads(npm, order, attempt), PendingOf(npm, order);
    UploadsArePrefix(npm, order, attempt);
    assert Until(order, attempt.unanswered) == |order| <==> AllAnswered(order, attempt);
    PendingInOrder(npm, order, |more|);
    assert more == pending[..|more|];
    FilterMember(order, IsPending(npm));
    if !attempt.planOnly && AllAnswered(order, attempt) {
      forall p ensures p in more <==> Reached(npm, order, attempt, p) {
        if p in more {
          assert p in pending;
          var i :| 0 <= i < |order| && order[i] == p;
          BeforeFailure(npm, order, attempt, i);
        }
        if Reached(npm, order, attempt, p) {
          var i :| 0 <= i < |order| && order[i] == p && PendingOn(npm, p) && NoneFails(npm, order, attempt, i + 1);
          BeforeFailure(npm, order, attempt, i);
        }
      }
    }
  }

  /** What a run throws: the first unanswered query; failing that, the first pending package that fails, unless the
      run only plans; failing that, nothing. */
  lemma RunErrorExactly(npm: Npm, order: seq<Node>, attempt: Attempt)
    ensures var thrown := RunError(npm, order, attempt);
            && (thrown.None?
                <==> AllAnswered(order, attempt) && (attempt.planOnly || NoneFails(npm, order, attempt, |order|)))
            && (forall n :: thrown == Some(QueryFailed(n)) <==> FirstUnanswered(order, attempt, n))
            && (forall n :: thrown == Some(UploadFailed(n))
                            <==> AllAnswered(order, attempt) && !attempt.planOnly
                                 && FirstFailing(npm, order, attempt, n))
  {
    FailureIsFirst(npm, order, attempt);
    var asked := Until(order, attempt.unanswered);
    forall n ensures FirstUnanswered(order, attempt, n) <==> asked < |order| && order[asked] == n {
    }
    assert asked == |order| <==> AllAnswered(order, attempt);
  }

  /** So `--plan` uploads nothing and throws only for an unanswered query; and an ordinary run whose queries are all
      answered and whose uploads all succeed uploads every selected pending package, once, and throws nothing. */
  lemma CleanRunsExactly(npm: Npm, order: seq<Node>, attempt: Attempt)
    requires Distinct(order)
    ensures attempt.planOnly ==> RunUploads(npm, order, attempt) == []
    ensures attempt.planOnly && AllAnswered(order, attempt) ==> RunError(npm, order, attempt) == None
    ensures !attempt.planOnly && AllAnswered(order, attempt) && NoneFails(npm, order, attempt, |order|)
            ==> RunError(npm, order, attempt) == None && Distinct(RunUploads(npm, order, attempt))
                && forall p :: p in RunUploads(npm, order, attempt) <==> p in order && PendingOn(npm, p)
  {
    RunUploadsExactly(npm, order, attempt);
    RunErrorExactly(npm, order, attempt);
    if !attempt.planOnly && AllAnswered(order, attempt) && NoneFails(npm, order, attempt, |order|) {
      forall p | p in order && PendingOn(npm, p) ensures Reached(npm, order, attempt, p) {
        var i :| 0 <= i < |order| && order[i] == p;
        assert NoneFails(npm, order, attempt, i + 1);
      }
    }
  }

  /** The plan selects p and the run reaches it. */
  ghost predicate UploadedBy(npm: Npm, registry: Registry, keys: seq<Node>, attempt: Attempt, p: Node) {
    match MakePlan(registry, keys, true, attempt.only)
    case Refused(_) => false
    case Selected(order) => Reached(npm, order, attempt, p)
  }

  /** npm after a run that uploaded `more`: those are on npm, everything else is as it was. */
  ghost predicate Moved(npm: Npm, more: seq<Node>, after: Npm) {
    after.Keys == npm.Keys && forall n :: n in npm ==> after[n] == if n in more then OnNpm else npm[n]
  }

  lemma SkipRowsExactly(npm: Npm, order: seq<Node>, n: Node, state: NpmState)
    requires forall m :: m in order ==> m in npm
    ensures Skipped(n, state) in SkipRows(npm, order) <==> n in order && npm[n] == state && state != Pending
  {
    if order != [] {
      SkipRowsExactly(npm, order[1..], n, state);
      assert order == [order[0]] + order[1..];
    }
  }

  lemma {:induction false} PublishedRowsExactly(names: seq<Node>)
    ensures |PublishedRows(names)| == |names|
    ensures forall i :: 0 <= i < |names| ==> PublishedRows(names)[i] == Published(names[i])
  {
    if names != [] {
      PublishedRowsExactly(names[1..]);
      forall i | 0 < i < |names| ensures PublishedRows(names)[i] == Published(names[i]) {
        assert names[i] == names[1..][i - 1];
      }
    }
  }

  /** Why a plan is refused. */
  lemma PlanRefusedExactly(registry: Registry, keys: seq<Node>, peersAgree: bool, only: Option<set<Node>>)
    requires Elements(keys) == registry.Keys
    ensures var plan := MakePlan(registry, keys, peersAgree, only);
            && (plan == Refused(IncompatiblePeers) <==> !peersAgree)
            && (plan.Selected?
                <==> peersAgree && MakePlan(registry, keys, true, None).Selected?
                     && (only.None? || forall n :: n in only.value ==> n in registry && !registry[n].isPrivate))
            && (peersAgree && MakePlan(registry, keys, true, None).Selected?
                ==> plan.Selected? || plan == Refused(UnknownOnly))
  {
    var closure := ComputeClosure(registry, keys);
    if closure.Ordered? && PublishOrder(registry, closure.order).Ordered? {
      var order := PublishOrder(registry, closure.order).order;
      WorkspaceOrder(registry, keys, order);
      SelectFromExactly(registry, order, only);
      SelectFromExactly(registry, order, None);
    }
  }

  lemma SelectFromExactly(registry: Registry, order: seq<Node>, only: Option<set<Node>>)
    requires forall n :: n in order <==> n in registry
    ensures var plan := SelectFrom(registry, order, only);
            && (plan.Selected? || plan == Refused(UnknownOnly))
            && (plan.Selected?
                <==> only.None? || forall n :: n in only.value ==> n in registry && !registry[n].isPrivate)
  {
    var publicNames := Filter(order, IsPublic(registry));
    FilterMember(order, IsPublic(registry));
    forall n ensures n in Elements(publicNames) <==> n in registry && !registry[n].isPrivate {
    }
    if only.Some? && !(only.value <= Elements(publicNames)) {
      var n :| n in only.value && n !in Elements(publicNames);
    }
  }

  /* ---- any series of runs ---- */

  datatype History = History(npm: Npm, uploaded: seq<Node>)

  /** What one run uploads, from the command line on. */
  function Run(npm: Npm, registry: Registry, keys: seq<Node>, attempt: Attempt): seq<Node> {
    match MakePlan(registry, keys, true, attempt.only)
    case Refused(_) => []
    case Selected(order) => RunUploads(npm, order, attempt)
  }

  /** One run after another over the same workspace, each with its own `--only`. */
  function Series(npm: Npm, registry: Registry, keys: seq<Node>, attempts: seq<Attempt>): History {
    if attempts == [] then History(npm, [])
    else
      var before := Series(npm, registry, keys, attempts[..|attempts| - 1]);
      var more := Run(before.npm, registry, keys, attempts[|attempts| - 1]);
      History(After(before.npm, more), before.uploaded + more)
  }

  lemma AfterBoth(npm: Npm, a: seq<Node>, b: seq<Node>)
    ensures After(After(npm, a), b) == After(npm, a + b)
  {
  }

  lemma DistinctPrefix(s: seq<Node>, k: nat)
    requires Distinct(s) && k <= |s|
    ensures Distinct(s[..k])
  {
  }

  /** A run uploads some first packages of its pending ones. */
  lemma RunIsPrefix(npm: Npm, registry: Registry, keys: seq<Node>, attempt: Attempt)
    requires Elements(keys) == registry.Keys
    ensures var more := Run(npm, registry, keys, attempt);
            && Distinct(more) && (forall n :: n in more ==> n in npm && npm[n] == Pending)
            && forall order :: Planned(registry, keys, attempt.only, order) ==> more <= PendingOf(npm, order)
  {
    if MakePlan(registry, keys, true, attempt.only).Selected? {
      var order := MakePlan(registry, keys, true, attempt.only).order;
      PlanIsExact(registry, keys, attempt.only, order);
      UploadsArePrefix(npm, order, attempt);
    }
  }

  lemma UploadsArePrefix(npm: Npm, order: seq<Node>, attempt: Attempt)
    requires Distinct(order)
    ensures var more := RunUploads(npm, order, attempt);
            more <= PendingOf(npm, order) && Distinct(more) && forall n :: n in more ==> n in npm && npm[n] == Pending
  {
    FilterDistinct(order, IsPending(npm));
    FilterMember(order, IsPending(npm));
    var more := RunUploads(npm, order, attempt);
    assert more == PendingOf(npm, order)[..|more|];
    DistinctPrefix(PendingOf(npm, order), |more|);
    forall n | n in more ensures n in PendingOf(npm, order) {
    }
  }

  lemma JoinDistinct(a: seq<Node>, b: seq<Node>)
    requires Distinct(a) && Distinct(b) && forall n :: n in a ==> n !in b
    ensures Distinct(a + b)
  {
    forall i, j | 0 <= i < |a| && 0 <= j < |b| ensures a[i] != b[j] {
      assert a[i] in a && b[j] in b;
    }
  }

  /** However many runs, each narrowed as it may be and stopped anywhere: no package is uploaded twice, only packages
      pending at the start are uploaded, and npm is what those uploads make of it. */
  lemma {:induction false} SeriesNeverRepeats(npm: Npm, registry: Registry, keys: seq<Node>, attempts: seq<Attempt>)
    requires Elements(keys) == registry.Keys
    ensures var h := Series(npm, registry, keys, attempts);
            && Distinct(h.uploaded) && (forall n :: n in h.uploaded ==> n in npm && npm[n] == Pending)
            && h.npm == After(npm, h.uploaded)
  {
    if attempts == [] {
      assert After(npm, []) == npm;
    } else {
      var front, last := attempts[..|attempts| - 1], attempts[|attempts| - 1];
      var before := Series(npm, registry, keys, front);
      var more := Run(before.npm, registry, keys, last);
      SeriesNeverRepeats(npm, registry, keys, front);
      RunIsPrefix(before.npm, registry, keys, last);
      PendingWasPending(npm, before.uploaded, more);
      JoinDistinct(before.uploaded, more);
      AfterBoth(npm, before.uploaded, more);
    }
  }

  /** What is pending after some uploads was pending before and is not among them. */
  lemma PendingWasPending(npm: Npm, uploaded: seq<Node>, more: seq<Node>)
    requires forall n :: n in more ==> n in After(npm, uploaded) && After(npm, uploaded)[n] == Pending
    ensures forall n :: n in more ==> n in npm && npm[n] == Pending && n !in uploaded
  {
  }

  lemma PrefixOfRest(s: seq<Node>, i: nat, k: nat)
    requires i + k <= |s|
    ensures s[..i] + s[i..][..k] == s[..i + k]
  {
  }

  /** Runs that select the same packages together upload the pending packages of the first run in order, as far as
      they get. */
  lemma {:induction false} SeriesResumes(npm: Npm, registry: Registry, keys: seq<Node>, order: seq<Node>,
                                         attempts: seq<Attempt>) returns (k: nat)
    requires Elements(keys) == registry.Keys
    requires forall k :: 0 <= k < |attempts| ==> Planned(registry, keys, attempts[k].only, order)
    requires Distinct(order)
    ensures k <= |PendingOf(npm, order)|
    ensures Series(npm, registry, keys, attempts).uploaded == PendingOf(npm, order)[..k]
    ensures Series(npm, registry, keys, attempts).npm == After(npm, PendingOf(npm, order)[..k])
  {
    var pending := PendingOf(npm, order);
    if attempts == [] {
      k := 0;
      assert After(npm, []) == npm && pending[..0] == [];
    } else {
      var last := attempts[|attempts| - 1];
      var j := SeriesResumes(npm, registry, keys, order, attempts[..|attempts| - 1]);
      var more := RunAfter(npm, order, j, last);
      PlannedRun(After(npm, pending[..j]), registry, keys, order, last);
      SeriesLast(npm, registry, keys, attempts);
      k := j + more;
    }
  }

  lemma SeriesLast(npm: Npm, registry: Registry, keys: seq<Node>, attempts: seq<Attempt>)
    requires attempts != []
    ensures var before := Series(npm, registry, keys, attempts[..|attempts| - 1]);
            var more := Run(before.npm, registry, keys, attempts[|attempts| - 1]);
            Series(npm, registry, keys, attempts) == History(After(before.npm, more), before.uploaded + more)
  {
  }

  lemma PlannedRun(npm: Npm, registry: Registry, keys: seq<Node>, order: seq<Node>, attempt: Attempt)
    requires Planned(registry, keys, attempt.only, order)
    ensures Run(npm, registry, keys, attempt) == RunUploads(npm, order, attempt)
  {
  }

  /** One more run after j uploads goes on where they ended. */
  lemma RunAfter(npm: Npm, order: seq<Node>, j: nat, attempt: Attempt) returns (more: nat)
    requires Distinct(order) && j <= |PendingOf(npm, order)|
    ensures var pending := PendingOf(npm, order);
            var before := After(npm, pending[..j]);
            && j + more <= |pending|
            && pending[..j] + RunUploads(before, order, attempt) == pending[..j + more]
            && After(before, RunUploads(before, order, attempt)) == After(npm, pending[..j + more])
  {
    var pending := PendingOf(npm, order);
    RerunResumes(npm, order, j);
    var uploads := RunUploads(After(npm, pending[..j]), order, attempt);
    more := |uploads|;
    assert uploads == pending[j..][..more];
    PrefixOfRest(pending, j, more);
    AfterBoth(npm, pending[..j], uploads);
  }

  /** The conditions of a safe run still hold after uploads. */
  lemma ConditionsStay(registry: Registry, npm: Npm, uploaded: seq<Node>, only: Option<set<Node>>)
    requires registry.Keys <= npm.Keys
    requires SiblingsPublishable(registry, npm) && KeepsSiblings(registry, npm, only)
    ensures registry.Keys <= After(npm, uploaded).Keys
    ensures SiblingsPublishable(registry, After(npm, uploaded)) && KeepsSiblings(registry, After(npm, uploaded), only)
  {
  }

  /** A run that starts after other uploads: its first i uploads are safe. */
  lemma RunIsSafe(registry: Registry, keys: seq<Node>, npm: Npm, attempt: Attempt, i: nat)
    requires Elements(keys) == registry.Keys <= npm.Keys
    requires SiblingsPublishable(registry, npm) && KeepsSiblings(registry, npm, attempt.only)
    requires i <= |Run(npm, registry, keys, attempt)|
    ensures var more := Run(npm, registry, keys, attempt);
            AllSafe(registry, After(npm, more[..i]), more[..i])
  {
    RunIsPrefix(npm, registry, keys, attempt);
    var more := Run(npm, registry, keys, attempt);
    if MakePlan(registry, keys, true, attempt.only).Selected? {
      var order := MakePlan(registry, keys, true, attempt.only).order;
      var sent := PendingOf(npm, order)[..i];
      assert more[..i] == sent;
      EveryPrefixIsSafe(registry, keys, attempt.only, order, npm, i);
    } else {
      assert more[..i] == [];
    }
  }

  lemma SafeStays(registry: Registry, npm: Npm, uploaded: seq<Node>, more: seq<Node>)
    requires AllSafe(registry, npm, uploaded)
    ensures AllSafe(registry, After(npm, more), uploaded)
  {
    forall p | p in uploaded ensures SiblingsOnNpm(registry, After(npm, more), p) {
      forall s | s in Siblings(registry, registry[p]) ensures s in After(npm, more) && After(npm, more)[s] == OnNpm {
        assert s in npm && npm[s] == OnNpm;
      }
    }
  }

  lemma SafeThenRun(registry: Registry, keys: seq<Node>, npm: Npm, uploaded: seq<Node>, attempt: Attempt, j: nat)
    requires Elements(keys) == registry.Keys <= npm.Keys
    requires SiblingsPublishable(registry, npm) && KeepsSiblings(registry, npm, attempt.only)
    requires AllSafe(registry, After(npm, uploaded), uploaded)
    requires j <= |Run(After(npm, uploaded), registry, keys, attempt)|
    ensures var more := Run(After(npm, uploaded), registry, keys, attempt);
            AllSafe(registry, After(npm, uploaded + more[..j]), uploaded + more[..j])
  {
    var between := After(npm, uploaded);
    var more := Run(between, registry, keys, attempt);
    ConditionsStay(registry, npm, uploaded, attempt.only);
    RunIsSafe(registry, keys, between, attempt, j);
    SafeStays(registry, between, uploaded, more[..j]);
    AfterBoth(npm, uploaded, more[..j]);
    SafeBoth(registry, After(npm, uploaded + more[..j]), uploaded, more[..j]);
  }

  lemma SafeBoth(registry: Registry, npm: Npm, a: seq<Node>, b: seq<Node>)
    requires AllSafe(registry, npm, a) && AllSafe(registry, npm, b)
    ensures AllSafe(registry, npm, a + b)
  {
  }

  /** After each single upload, every package uploaded so far has all its siblings on npm. */
  ghost predicate SafeThroughout(registry: Registry, npm: Npm, uploaded: seq<Node>) {
    forall i :: 0 <= i <= |uploaded| ==> AllSafe(registry, After(npm, uploaded[..i]), uploaded[..i])
  }

  ghost predicate SafeAlong(registry: Registry, npm: Npm, uploaded: seq<Node>, more: seq<Node>) {
    forall j :: 0 <= j <= |more| ==> AllSafe(registry, After(npm, uploaded + more[..j]), uploaded + more[..j])
  }

  lemma SafeLonger(registry: Registry, npm: Npm, uploaded: seq<Node>, more: seq<Node>)
    requires SafeThroughout(registry, npm, uploaded) && SafeAlong(registry, npm, uploaded, more)
    ensures SafeThroughout(registry, npm, uploaded + more)
  {
    var all := uploaded + more;
    forall i | 0 <= i <= |all| ensures AllSafe(registry, After(npm, all[..i]), all[..i]) {
      if i <= |uploaded| {
        assert all[..i] == uploaded[..i];
      } else {
        assert all[..i] == uploaded + more[..i - |uploaded|];
      }
    }
  }

  lemma SafeOneRunLonger(registry: Registry, keys: seq<Node>, npm: Npm, uploaded: seq<Node>, attempt: Attempt)
    requires Elements(keys) == registry.Keys <= npm.Keys
    requires SiblingsPublishable(registry, npm) && KeepsSiblings(registry, npm, attempt.only)
    requires SafeThroughout(registry, npm, uploaded)
    ensures SafeThroughout(registry, npm, uploaded + Run(After(npm, uploaded), registry, keys, attempt))
  {
    var more := Run(After(npm, uploaded), registry, keys, attempt);
    assert uploaded[..|uploaded|] == uploaded;
    forall j | 0 <= j <= |more| ensures AllSafe(registry, After(npm, uploaded + more[..j]), uploaded + more[..j]) {
      SafeThenRun(registry, keys, npm, uploaded, attempt, j);
    }
    SafeLonger(registry, npm, uploaded, more);
  }

  /** Over any series of runs npm never serves an uploaded package without everything it depends or peers on, as long
      as every `--only` keeps the siblings that were missing from npm at the start. */
  lemma {:induction false} SeriesIsSafe(registry: Registry, keys: seq<Node>, npm: Npm, attempts: seq<Attempt>)
    requires Elements(keys) == registry.Keys <= npm.Keys && SiblingsPublishable(registry, npm)
    requires forall k :: 0 <= k < |attempts| ==> KeepsSiblings(registry, npm, attempts[k].only)
    ensures SafeThroughout(registry, npm, Series(npm, registry, keys, attempts).uploaded)
    decreases |attempts|
  {
    if attempts != [] {
      var front, last := attempts[..|attempts| - 1], attempts[|attempts| - 1];
      SeriesIsSafe(registry, keys, npm, front);
      SeriesNeverRepeats(npm, registry, keys, front);
      SafeOneRunLonger(registry, keys, npm, Series(npm, registry, keys, front).uploaded, last);
    }
  }

  lemma VisitLeaf(g: Graph, name: Node, chain: seq<Node>, order: seq<Node>)
    requires name in g && g[name] == [] && name !in order && name !in chain
    ensures Visit(g, name, chain, order) == Ordered(order + [name])
  {
    assert VisitAll(g, [], chain + [name], order) == Ordered(order);
  }

  lemma SortOfTwoLeaves(g: Graph, a: Node, b: Node)
    requires a != b && g == map[a := [], b := []]
    ensures Sort(g, [a, b]) == Ordered([a, b])
  {
    VisitLeaf(g, a, [], []);
    VisitLeaf(g, b, [], [a]);
    assert [] + [a] == [a] && [b][1..] == [] && [a, b][1..] == [b];
    assert VisitAll(g, [b], [], [a]) == Ordered([a, b]);
  }

  lemma SortOfOneEdge(g: Graph, a: Node, b: Node)
    requires a != b && g == map[a := [b], b := []]
    ensures Sort(g, [a, b]) == Ordered([b, a])
  {
    VisitLeaf(g, b, [a], []);
    assert [] + [a] == [a] && [b][1..] == [] && [a, b][1..] == [b] && [] + [b] == [b];
    assert VisitAll(g, [b], [a], []) == Ordered([b]);
    assert Visit(g, a, [], []) == Ordered([b, a]);
    assert VisitAll(g, [b], [], [b, a]) == Ordered([b, a]);
  }

  lemma NoSiblings(registry: Registry, ui: Node)
    requires ui in registry && registry[ui] == Manifest([], [], false)
    ensures Known(registry, []) == [] && Siblings(registry, registry[ui]) == []
  {
  }

  lemma OneSibling(registry: Registry, chat: Node, ui: Node)
    requires chat in registry && ui in registry && registry[chat] == Manifest([], [ui], false)
    ensures Siblings(registry, registry[chat]) == [ui]
  {
    KeepAll([ui], NotIn([]));
    KeepAll([ui], In(registry));
    assert [] + [ui] == [ui];
  }

  lemma NoDependencies(registry: Registry, chat: Node, ui: Node)
    requires registry.Keys == {chat, ui} && registry[chat].dependencies == [] && registry[ui].dependencies == []
    ensures DependencyGraph(registry) == map[chat := [], ui := []]
  {
    assert InScope([]) == [];
  }

  lemma TwoPackageGraphs(registry: Registry, chat: Node, ui: Node)
    requires chat != ui && registry == map[chat := Manifest([], [ui], false), ui := Manifest([], [], false)]
    ensures DependencyGraph(registry) == map[chat := [], ui := []]
    ensures SiblingGraph(registry) == map[chat := [ui], ui := []]
  {
    NoDependencies(registry, chat, ui);
    NoSiblings(registry, ui);
    OneSibling(registry, chat, ui);
    assert SiblingGraph(registry).Keys == {chat, ui};
  }

  lemma OnlyKeepsChat(registry: Registry, chat: Node, ui: Node)
    requires chat != ui && registry == map[chat := Manifest([], [ui], false), ui := Manifest([], [], false)]
    ensures Filter([ui, chat], IsPublic(registry)) == [ui, chat]
    ensures Filter([ui, chat], Named(Some({chat}))) == [chat]
  {
    KeepAll([ui, chat], IsPublic(registry));
    FilterConcat([ui], [chat], Named(Some({chat})));
    assert [ui] + [chat] == [ui, chat] && [] + [chat] == [chat];
  }

  /** `--only chat` uploads a package whose peer is not on npm: the guard in `UploadIsSafe` is needed. */
  lemma OnlyCanStrandAPeer(registry: Registry, keys: seq<Node>, npm: Npm, chat: Node, ui: Node)
    requires chat != ui && registry == map[chat := Manifest([], [ui], false), ui := Manifest([], [], false)]
    requires keys == [chat, ui] && npm == map[chat := Pending, ui := Pending]
    ensures Elements(keys) == registry.Keys <= npm.Keys && Planned(registry, keys, Some({chat}), [chat])
    ensures PendingOf(npm, [chat]) == [chat] && !SiblingsOnNpm(registry, After(npm, [chat]), chat)
  {
    assert Elements(keys) == registry.Keys;
    TwoPackageGraphs(registry, chat, ui);
    assert Planned(registry, keys, Some({chat}), [chat]) by {
      SortOfTwoLeaves(DependencyGraph(registry), chat, ui);
      SortOfOneEdge(SiblingGraph(registry), chat, ui);
      OnlyKeepsChat(registry, chat, ui);
    }
    assert PendingOf(npm, [chat]) == [chat] by {
      KeepAll([chat], IsPending(npm));
    }
    assert !SiblingsOnNpm(registry, After(npm, [chat]), chat) by {
      assert ui in Succ(SiblingGraph(registry), chat);
    }
  }

  /* ---- the run as the code performs it ---- */

  lemma {:induction false} SkipRowsConcat(npm: Npm, a: seq<Node>, b: seq<Node>)
    ensures SkipRows(npm, a + b) == SkipRows(npm, a) + SkipRows(npm, b)
  {
    if a == [] {
      assert a + b == b;
    } else {
      assert (a + b)[0] == a[0] && (a + b)[1..] == a[1..] + b;
      SkipRowsConcat(npm, a[1..], b);
    }
  }

  lemma SkipRowsOne(npm: Npm, n: Node)
    requires n in npm
    ensures SkipRows(npm, [n]) == if npm[n] == Pending then [] else [Skipped(n, npm[n])]
    ensures PendingOf(npm, [n]) == if npm[n] == Pending then [n] else []
  {
    assert [n][1..] == [] && SkipRows(npm, []) == [];
    assert IsPending(npm)(n) <==> npm[n] == Pending;
    assert Filter([n], IsPending(npm)) == (if IsPending(npm)(n) then [n] else []) + Filter([], IsPending(npm));
  }

  /** What asking npm about the i-th package adds to the pending packages and to the rows. */
  lemma SurveyNext(npm: Npm, order: seq<Node>, i: nat, rows: seq<Row>)
    requires i < |order| && order[i] in npm
    ensures PendingOf(npm, order[..i + 1]) == PendingOf(npm, order[..i]) + if npm[order[i]] == Pending then [order[i]]
            else []
    ensures rows + SkipRows(npm, order[..i + 1])
         == (rows + SkipRows(npm, order[..i])) + if npm[order[i]] == Pending then []
            else [Skipped(order[i], npm[order[i]])]
  {
    assert order[..i + 1] == order[..i] + [order[i]];
    SkipRowsConcat(npm, order[..i], [order[i]]);
    FilterConcat(order[..i], [order[i]], IsPending(npm));
    SkipRowsOne(npm, order[i]);
    assert rows + (SkipRows(npm, order[..i]) + SkipRows(npm, [order[i]]))
           == (rows + SkipRows(npm, order[..i])) + SkipRows(npm, [order[i]]);
  }

  /** What one more upload does to npm, the rows and the uploads still to come. */
  lemma UploadNext(npm: Npm, pending: seq<Node>, i: nat, failing: set<Node>, uploaded: seq<Node>, rows: seq<Row>)
    requires i < |pending| && pending[i] in npm
    ensures After(npm, pending[..i + 1]) == After(npm, pending[..i])[pending[i] := OnNpm]
    ensures Until(pending[i..], failing) == if pending[i] in failing then 0 else 1 + Until(pending[i + 1..], failing)
    ensures uploaded + pending[..i + 1] == (uploaded + pending[..i]) + [pending[i]]
    ensures rows + PublishedRows(pending[..i + 1]) == (rows + PublishedRows(pending[..i])) + [Published(pending[i])]
  {
    assert pending[..i + 1] == pending[..i] + [pending[i]];
    UntilNext(pending, i, failing);
    PublishedRowsSnoc(pending[..i], pending[i]);
  }

  lemma NothingUploaded(npm: Npm)
    ensures After(npm, []) == npm && PublishedRows([]) == []
  {
  }

  /** npm and the job summary, as `main` changes them. */
  class Publisher {
    const registry: Registry
    var npm: Npm
    var rows: seq<Row>
    var uploaded: seq<Node>

    constructor (r: Registry, state: Npm)
      ensures registry == r && npm == state && rows == [] && uploaded == []
    {
      registry, npm, rows, uploaded := r, state, [], [];
    }

    /** Asks npm about each selected package in turn, until a query fails; packages that will not be uploaded get a
        row. */
    method Survey(order: seq<Node>, unanswered: set<Node>) returns (pending: seq<Node>, thrown: Option<Error>)
      requires forall n :: n in order ==> n in npm
      modifies this`rows
      ensures var asked := Until(order, unanswered);
              && rows == old(rows) + SkipRows(npm, order[..asked])
              && if asked < |order| then thrown == Some(QueryFailed(order[asked]))
                 else thrown == None && pending == PendingOf(npm, order)
    {
      pending := [];
      var i := 0;
      assert SkipRows(npm, order[..0]) == [];
      while i < |order|
        invariant 0 <= i <= |order|
        invariant Until(order, unanswered) == i + Until(order[i..], unanswered)
        invariant pending == PendingOf(npm, order[..i])
        invariant rows == old(rows) + SkipRows(npm, order[..i])
      {
        UntilNext(order, i, unanswered);
        if order[i] in unanswered { return pending, Some(QueryFailed(order[i])); }
        SurveyNext(npm, order, i, old(rows));
        var state := npm[order[i]];
        if state == Pending { pending := pending + [order[i]]; }
        if state == OnNpm { rows := rows + [Skipped(order[i], OnNpm)]; }
        if state == NeverPublished { rows := rows + [Skipped(order[i], NeverPublished)]; }
        i := i + 1;
      }
      assert order[..i] == order;
      thrown := None;
    }

    /** Uploads until a package cannot be packed or published; `failing` are the packages for which that happens. */
    method Upload(pending: seq<Node>, failing: set<Node>) returns (thrown: Option<Error>)
      requires forall n :: n in pending ==> n in npm
      modifies this
      ensures var k := Until(pending, failing);
              && uploaded == old(uploaded) + pending[..k]
              && npm == After(old(npm), pending[..k])
              && rows == old(rows) + PublishedRows(pending[..k])
              && thrown == if k < |pending| then Some(UploadFailed(pending[k])) else None
    {
      var i := 0;
      assert npm == After(npm, pending[..0]);
      while i < |pending|
        invariant 0 <= i <= |pending|
        invariant Until(pending, failing) == i + Until(pending[i..], failing)
        invariant uploaded == old(uploaded) + pending[..i]
        invariant npm == After(old(npm), pending[..i])
        invariant rows == old(rows) + PublishedRows(pending[..i])
      {
        UploadNext(old(npm), pending, i, failing, old(uploaded), old(rows));
        if pending[i] in failing { return Some(UploadFailed(pending[i])); }
        npm := npm[pending[i] := OnNpm];
        uploaded := uploaded + [pending[i]];
        rows := rows + [Published(pending[i])];
        i := i + 1;
      }
      assert pending[..i] == pending;
      return None;
    }

    /** A refused plan changes nothing; otherwise the run uploads what `RunUploads` says and throws what `RunError`
        says. */
    method PublishPending(keys: seq<Node>, peersAgree: bool, attempt: Attempt)
      returns (thrown: Option<Error>)
      requires Elements(keys) == registry.Keys <= npm.Keys
      modifies this
      ensures match MakePlan(registry, keys, peersAgree, attempt.only)
              case Refused(error) => thrown == Some(error) && npm == old(npm) && uploaded == old(uploaded)
                && rows == old(rows)
              case Selected(order) =>
                var more := RunUploads(old(npm), order, attempt);
                && uploaded == old(uploaded) + more
                && npm == After(old(npm), more)
                && rows == old(rows) + SkipRows(old(npm), order[..Until(order, attempt.unanswered)])
                   + PublishedRows(more)
                && thrown == RunError(old(npm), order, attempt)
      ensures peersAgree ==> uploaded == old(uploaded) + Run(old(npm), registry, keys, attempt)
      ensures old(uploaded) <= uploaded && Moved(old(npm), uploaded[|old(uploaded)|..], npm)
      ensures forall p :: p in uploaded[|old(uploaded)|..]
                          <==> peersAgree && UploadedBy(old(npm), registry, keys, attempt, p)
      ensures Distinct(uploaded[|old(uploaded)|..])
      ensures attempt.planOnly ==> uploaded == old(uploaded) && npm == old(npm)
      ensures match MakePlan(registry, keys, peersAgree, attempt.only)
              case Refused(_) => thrown.Some?
              case Selected(order) =>
                && (thrown.None?
                    <==> AllAnswered(order, attempt)
                         && (attempt.planOnly || NoneFails(old(npm), order, attempt, |order|)))
                && (thrown.None? && !attempt.planOnly
                    ==> forall p :: p in order && PendingOn(old(npm), p)
                                    ==> p in uploaded[|old(uploaded)|..] && npm[p] == OnNpm)
    {
      var plan := Select(keys, peersAgree, attempt.only);
      NothingUploaded(npm);
      if plan.Refused? {
        assert uploaded[|old(uploaded)|..] == [];
        return Some(plan.error);
      }
      PlanIsExact(registry, keys, attempt.only, plan.order);
      RunUploadsExactly(npm, plan.order, attempt);
      RunErrorExactly(npm, plan.order, attempt);
      CleanRunsExactly(npm, plan.order, attempt);
      thrown := RunOver(plan.order, attempt);
      assert uploaded[|old(uploaded)|..] == RunUploads(old(npm), plan.order, attempt);
    }

    /** The survey, then the uploads. */
    method RunOver(order: seq<Node>, attempt: Attempt) returns (thrown: Option<Error>)
      requires forall n :: n in order ==> n in npm
      modifies this
      ensures var more := RunUploads(old(npm), order, attempt);
              && uploaded == old(uploaded) + more
              && npm == After(old(npm), more)
              && rows == old(rows) + SkipRows(old(npm), order[..Until(order, attempt.unanswered)]) + PublishedRows(more)
      ensures thrown == RunError(old(npm), order, attempt)
    {
      var pending;
      NothingUploaded(npm);
      pending, thrown := Survey(order, attempt.unanswered);
      if thrown.Some? { return; }
      FilterMember(order, IsPending(npm));
      var names := if attempt.planOnly then [] else pending;
      thrown := Upload(names, attempt.failing);
      assert RunUploads(old(npm), order, attempt) == names[..Until(names, attempt.failing)];
    }

    /** The checks and sorts before npm is asked. */
    method Select(keys: seq<Node>, peersAgree: bool, only: Option<set<Node>>) returns (plan: Plan)
      requires Elements(keys) == registry.Keys
      ensures plan == MakePlan(registry, keys, peersAgree, only)
      ensures plan.Selected? ==> forall n :: n in plan.order ==> n in registry
    {
      if !peersAgree { return Refused(IncompatiblePeers); }
      var closure := ComputeClosureInPlace(registry, keys);
      if !closure.Ordered? { return Refused(Unsortable(closure)); }
      ClosureIsRegistered(registry, keys, closure.order);
      var published := PublishOrderInPlace(registry, closure.order);
      if !published.Ordered? { return Refused(Unsortable(published)); }
      plan := ParseOnly(published.order, only);
    }

    /** Keeps the public packages, and refuses an `--only` that names anything else. */
    method ParseOnly(order: seq<Node>, only: Option<set<Node>>) returns (plan: Plan)
      ensures plan == SelectFrom(registry, order, only)
      ensures plan.Selected? ==> forall n :: n in plan.order ==> n in registry
    {
      var publicNames := Filter(order, IsPublic(registry));
      if only.Some? && !(only.value <= Elements(publicNames)) { return Refused(UnknownOnly); }
      plan := Selected(Filter(publicNames, Named(only)));
      SelectedAreRegistered(registry, order, only);
    }
  }

  lemma {:induction false} PublishedRowsSnoc(names: seq<Node>, n: Node)
    ensures PublishedRows(names + [n]) == PublishedRows(names) + [Published(n)]
  {
    if names != [] {
      assert (names + [n])[1..] == names[1..] + [n];
      PublishedRowsSnoc(names[1..], n);
    }
  }
}
