/** `buildAndPackClosure`: build every package of a closure, then pack each with its scoped dependencies
    pointing at sibling tarballs. */
module Packing {
  import opened Graphs
  import opened Options
  import opened PackageOrder
  import opened Sequences

  /** What `pnpm pack` produced for one package: the tarball's path and the manifest inside it. */
  datatype Packed = Packed(path: string, dependencies: map<Node, string>)

  datatype Error =
    | Unsorted(outcome: Outcome) | BuildFailed(name: Node) | NameMismatch(name: Node)
    | NoTarball(name: Node, dependency: Node)

  datatype Result<+T> = Ok(value: T) | Err(error: Error)

  function TrimAt(name: string): string {
    if name != "" && name[0] == '@' then name[1..] else name
  }

  function Dashed(name: string): (r: string)
    ensures |r| == |name|
  {
    if name == "" then "" else [if name[0] == '/' then '-' else name[0]] + Dashed(name[1..])
  }

  /** `@jini-ai/core` at `0.0.0` is packed as `jini-ai-core-0.0.0.tgz`. */
  function TarballFileName(name: string, version: string): string {
    Dashed(TrimAt(name)) + "-" + version + ".tgz"
  }

  function TarballPath(destDir: string, name: string, version: string): string {
    destDir + "/" + TarballFileName(name, version)
  }

  /** A packed dependency after the rewrite. */
  function RewrittenRange(dependency: Node, range: string, tarballs: map<Node, string>): string {
    if Scoped(dependency) && dependency in tarballs then "file:" + tarballs[dependency] else range
  }

  ghost predicate IsRewritten(deps: map<Node, string>, tarballs: map<Node, string>, r: map<Node, string>) {
    r.Keys == deps.Keys && forall d :: d in deps ==> r[d] == RewrittenRange(d, deps[d], tarballs)
  }

  predicate HasTarball(dependency: Node, tarballs: map<Node, string>) {
    Scoped(dependency) ==> dependency in tarballs && tarballs[dependency] != ""
  }

  ghost predicate HasTarballs(deps: map<Node, string>, tarballs: map<Node, string>) {
    forall d :: d in deps ==> HasTarball(d, tarballs)
  }

  /** Each character of the file name's stem, and of the whole name of a package in the scope. */
  lemma {:induction false} DashedExactly(name: string)
    ensures forall i :: 0 <= i < |name| ==> Dashed(name)[i] == if name[i] == '/' then '-' else name[i]
  {
    if name != "" {
      DashedExactly(name[1..]);
      forall i | 0 < i < |name| ensures Dashed(name)[i] == if name[i] == '/' then '-' else name[i] {
        assert name[i] == name[1..][i - 1];
      }
    }
  }

  lemma TarballsExactly(destDir: string, bare: string, version: string)
    requires '/' !in bare
    ensures TarballPath(destDir, "@jini-ai/" + bare, version) == destDir + "/jini-ai-" + bare + "-" + version + ".tgz"
  {
    var name := "@jini-ai/" + bare;
    var trimmed := TrimAt(name);
    assert trimmed == "jini-ai/" + bare;
    DashedExactly(trimmed);
    assert Dashed(trimmed) == "jini-ai-" + bare;
    assert destDir + "/" + ("jini-ai-" + bare + "-" + version + ".tgz")
        == destDir + "/jini-ai-" + bare + "-" + version + ".tgz";
  }

  /** A dependency of the scope that has a tarball points at its file; any other keeps its range. */
  ghost predicate PointsAt(dependency: Node, range: string, tarballs: map<Node, string>, now: string) {
    if "@jini-ai/" <= dependency && dependency in tarballs then now == "file:" + tarballs[dependency] else now == range
  }

  lemma RewritesExactly(deps: map<Node, string>, tarballs: map<Node, string>, r: map<Node, string>)
    ensures IsRewritten(deps, tarballs, r)
            <==> r.Keys == deps.Keys && forall d :: d in deps ==> PointsAt(d, deps[d], tarballs, r[d])
  {
  }

  /** Every scoped dependency becomes its sibling's tarball path and nothing else changes; the rewrite fails
      exactly when some scoped dependency has no tarball. `keys` is the order the manifest lists them in. */
  method RewriteDependencies(name: Node, deps: map<Node, string>, keys: seq<Node>, tarballs: map<Node, string>)
    returns (r: Result<map<Node, string>>)
    requires Elements(keys) == deps.Keys
    ensures r.Ok? <==> HasTarballs(deps, tarballs)
    ensures r.Ok? ==> IsRewritten(deps, tarballs, r.value)
    ensures r.Ok? ==> r.value.Keys == deps.Keys && forall d :: d in deps ==> PointsAt(d, deps[d], tarballs, r.value[d])
    ensures r.Ok? <==> forall d :: d in deps && "@jini-ai/" <= d ==> d in tarballs && tarballs[d] != ""
    ensures r.Err? ==> r.error.NoTarball? && r.error.name == name && r.error.dependency in deps
                       && !HasTarball(r.error.dependency, tarballs)
  {
    var rewritten := deps;
    var i := 0;
    while i < |keys|
      invariant 0 <= i <= |keys| && rewritten.Keys == deps.Keys
      invariant forall d :: d in keys[..i] ==> HasTarball(d, tarballs)
      invariant forall d :: d in keys[..i] ==> d in deps && rewritten[d] == RewrittenRange(d, deps[d], tarballs)
      invariant forall d :: d in deps && d !in keys[..i] ==> rewritten[d] == deps[d]
    {
      var d := keys[i];
      assert d in Elements(keys);
      assert keys[..i + 1] == keys[..i] + [d];
      if Scoped(d) {
        if d !in tarballs || tarballs[d] == "" { return Err(NoTarball(name, d)); }
        rewritten := rewritten[d := "file:" + tarballs[d]];
      }
      i := i + 1;
    }
    assert keys[..i] == keys;
    forall d | d in deps ensures d in keys {
      assert d in Elements(keys);
    }
    RewritesExactly(deps, tarballs, rewritten);
    return Ok(rewritten);
  }

  /** The workspace while a closure is built and packed. */
  class Workspace {
    const registry: Registry
    const versions: map<Node, string>
    /** What `pnpm pack` yields for each package, and the order its manifest lists dependencies in. */
    const packed: map<Node, Packed>
    const packedKeys: map<Node, seq<Node>>
    var built: seq<Node>
    var manifests: map<Node, map<Node, string>>

    ghost predicate Valid() {
      && versions.Keys == registry.Keys == packed.Keys == packedKeys.Keys
      && (forall n :: n in registry ==> Elements(packedKeys[n]) == packed[n].dependencies.Keys)
    }

    constructor (r: Registry, v: map<Node, string>, p: map<Node, Packed>, k: map<Node, seq<Node>>)
      requires v.Keys == r.Keys == p.Keys == k.Keys
      requires forall n :: n in r ==> Elements(k[n]) == p[n].dependencies.Keys
      ensures Valid() && registry == r && versions == v && packed == p && packedKeys == k
      ensures built == [] && manifests == map[]
    {
      registry, versions, packed, packedKeys := r, v, p, k;
      built, manifests := [], map[];
    }

    /** `tarballs` says where each package of the closure goes. */
    ghost predicate LocatesTarballs(destDir: string, closure: seq<Node>, tarballs: map<Node, string>)
      requires Valid()
    {
      && tarballs.Keys == Elements(closure) <= registry.Keys
      && forall n :: n in tarballs ==> tarballs[n] == TarballPath(destDir, n, versions[n])
    }

    /** Packing `n` succeeds: pnpm named the tarball as expected and every scoped dependency has one. */
    ghost predicate Packs(n: Node, tarballs: map<Node, string>)
      requires Valid() && n in registry && n in tarballs
    {
      packed[n].path == tarballs[n] && HasTarballs(packed[n].dependencies, tarballs)
    }

    /** Every manifest written so far is the packed one with its scoped dependencies rewritten. */
    ghost predicate AllRewritten(tarballs: map<Node, string>)
      reads this
    {
      forall n :: n in manifests ==> n in packed && IsRewritten(packed[n].dependencies, tarballs, manifests[n])
    }

    /** `pnpm pack` names the tarballs as expected and adds no scoped dependency to a manifest. */
    ghost predicate PacksAsDeclared(destDir: string) {
      && Valid()
      && (forall n :: n in registry ==> packed[n].path == TarballPath(destDir, n, versions[n]))
      && (forall n, d :: n in registry && d in packed[n].dependencies && Scoped(d) ==> d in registry[n].dependencies)
    }

    /** Packs one package and rewrites its manifest; fails exactly when it does not pack. */
    method PackAndRewrite(name: Node, tarballs: map<Node, string>) returns (error: Option<Error>)
      requires Valid() && name in registry && name in tarballs
      modifies this`manifests
      ensures error.None? <==> Packs(name, tarballs)
      ensures error.None? ==> name in manifests && IsRewritten(packed[name].dependencies, tarballs, manifests[name])
      ensures error.None? ==> manifests == old(manifests)[name := manifests[name]]
      ensures error.Some? ==> manifests == old(manifests)
    {
      if packed[name].path != tarballs[name] { return Some(NameMismatch(name)); }
      var rewritten := RewriteDependencies(name, packed[name].dependencies, packedKeys[name], tarballs);
      if rewritten.Err? { return Some(rewritten.error); }
      manifests := manifests[name := rewritten.value];
      return None;
    }

    /** Packs each package of the closure in turn; fails exactly when one of them cannot be packed. */
    method PackEach(closure: seq<Node>, tarballs: map<Node, string>) returns (error: Option<Error>)
      requires Valid() && tarballs.Keys == Elements(closure) <= registry.Keys && manifests == map[]
      modifies this`manifests
      ensures error.None? <==> forall n :: n in tarballs ==> Packs(n, tarballs)
      ensures error.None? ==> manifests.Keys == Elements(closure)
      ensures error.None? ==> AllRewritten(tarballs)
    {
      var i := 0;
      while i < |closure|
        invariant 0 <= i <= |closure| && manifests.Keys == Elements(closure[..i])
        invariant forall n :: n in manifests ==> n in tarballs && Packs(n, tarballs)
        invariant AllRewritten(tarballs)
      {
        assert closure[i] in Elements(closure);
        ElementsNext(closure, i);
        error := PackAndRewrite(closure[i], tarballs);
        if error.Some? {
          assert closure[i] in tarballs && !Packs(closure[i], tarballs);
          return;
        }
        i := i + 1;
      }
      assert closure[..i] == closure;
      return None;
    }

    /** Runs the build of each package in turn, up to the first one whose command fails. */
    method BuildEach(closure: seq<Node>, broken: set<Node>) returns (error: Option<Error>)
      modifies this`built
      ensures var k := Until(closure, broken);
              && built == old(built) + closure[..k]
              && error == if k < |closure| then Some(BuildFailed(closure[k])) else None
    {
      for i := 0 to |closure|
        invariant Until(closure, broken) == i + Until(closure[i..], broken)
        invariant built == old(built) + closure[..i]
      {
        UntilNext(closure, i, broken);
        if closure[i] in broken { return Some(BuildFailed(closure[i])); }
        AppendNext(old(built), closure, i);
        built := built + [closure[i]];
      }
      assert closure[..|closure|] == closure;
      return None;
    }

    method LocateEach(closure: seq<Node>, destDir: string) returns (tarballs: map<Node, string>)
      requires Valid() && Elements(closure) <= registry.Keys
      ensures LocatesTarballs(destDir, closure, tarballs)
    {
      tarballs := map[];
      for i := 0 to |closure|
        invariant LocatesTarballs(destDir, closure[..i], tarballs)
      {
        assert closure[i] in Elements(closure);
        ElementsNext(closure, i);
        tarballs := tarballs[closure[i] := TarballPath(destDir, closure[i], versions[closure[i]])];
      }
      assert closure[..|closure|] == closure;
    }

    /** Nothing is built unless the closure sorts. Then packages are built once each, after all their scoped
        dependencies, up to the first of the `broken` ones, whose build fails; nothing is packed unless all builds
        succeed. Packing each can then only fail for a reason of pnpm's: if `pnpm pack` keeps to the manifests, every
        tarball lookup succeeds and every scoped dependency of every packed manifest points at the tarball of a
        package of the closure. */
    method BuildAndPackClosure(roots: seq<Node>, destDir: string, broken: set<Node>)
      returns (r: Result<seq<Node>>, tarballs: map<Node, string>)
      requires Valid() && built == [] && manifests == map[]
      modifies this
      ensures match ComputeClosure(registry, roots)
              case Ordered(closure) =>
                var k := Until(closure, broken);
                && built == closure[..k] && DependenciesFirst(DependencyGraph(registry), built)
                && (k < |closure| ==> r == Err(BuildFailed(closure[k])) && manifests == map[])
                && (k == |closure| ==> LocatesTarballs(destDir, closure, tarballs))
                && (k == |closure| ==> (r.Ok? <==> forall n :: n in tarballs ==> Packs(n, tarballs)))
                && (k == |closure| && PacksAsDeclared(destDir) ==> r.Ok?)
                && (r.Ok? ==> r.value == closure && manifests.Keys == Elements(closure))
                && (r.Ok? ==> AllRewritten(tarballs))
              case failed => r == Err(Unsorted(failed)) && built == [] && manifests == map[]
    {
      tarballs := map[];
      var outcome := ComputeClosureInPlace(registry, roots);
      if !outcome.Ordered? { return Err(Unsorted(outcome)), tarballs; }
      var closure := outcome.order;
      ClosureIsRegistered(registry, roots, closure);
      PrefixIsDependenciesFirst(DependencyGraph(registry), closure, Until(closure, broken));

      var failed := BuildEach(closure, broken);
      if failed.Some? { return Err(failed.value), tarballs; }
      r, tarballs := PackBuilt(roots, closure, destDir);
    }

    /** What follows the builds. */
    method PackBuilt(ghost roots: seq<Node>, closure: seq<Node>, destDir: string)
      returns (r: Result<seq<Node>>, tarballs: map<Node, string>)
      requires Valid() && manifests == map[]
      requires ComputeClosure(registry, roots) == Ordered(closure) && Elements(closure) <= registry.Keys
      modifies this`manifests
      ensures LocatesTarballs(destDir, closure, tarballs)
      ensures r.Ok? <==> forall n :: n in tarballs ==> Packs(n, tarballs)
      ensures PacksAsDeclared(destDir) ==> r.Ok?
      ensures r.Ok? ==> r.value == closure && manifests.Keys == Elements(closure)
      ensures r.Ok? ==> AllRewritten(tarballs)
    {
      tarballs := LocateEach(closure, destDir);
      if PacksAsDeclared(destDir) {
        forall n | n in tarballs ensures Packs(n, tarballs) {
          DeclaredPacks(roots, destDir, closure, tarballs, n);
        }
      }
      var error := PackEach(closure, tarballs);
      r := if error.Some? then Err(error.value) else Ok(closure);
    }

    lemma DeclaredPacks(roots: seq<Node>, destDir: string, closure: seq<Node>, tarballs: map<Node, string>, n: Node)
      requires PacksAsDeclared(destDir) && ComputeClosure(registry, roots) == Ordered(closure)
      requires LocatesTarballs(destDir, closure, tarballs) && n in tarballs
      ensures Packs(n, tarballs)
    {
      assert n in closure;
      ClosureHasTarballs(registry, roots, closure, n);
      forall d | d in packed[n].dependencies ensures HasTarball(d, tarballs) {
        if Scoped(d) {
          assert d in Elements(closure);
        }
      }
    }
  }

  lemma PrefixIsDependenciesFirst(g: Graph, order: seq<Node>, k: nat)
    requires DependenciesFirst(g, order) && k <= |order|
    ensures DependenciesFirst(g, order[..k])
  {
    forall i, d | 0 <= i < k && d in Succ(g, order[..k][i]) ensures d in order[..k][..i] {
      assert order[..k][..i] == order[..i] && order[..k][i] == order[i];
    }
  }

  /** The closure holds every scoped dependency of its members. */
  lemma ClosureHasTarballs(registry: Registry, roots: seq<Node>, closure: seq<Node>, n: Node)
    requires ComputeClosure(registry, roots) == Ordered(closure) && n in closure
    ensures n in registry
    ensures forall d :: d in registry[n].dependencies && Scoped(d) ==> d in closure
  {
    var g := DependencyGraph(registry);
    SortIsExact(g, roots);
    assert n in g;
    forall d | d in registry[n].dependencies && Scoped(d) ensures d in closure {
      var a :| a in roots && Reaches(g, a, n);
      ReachesStep(g, a, n, d);
    }
  }
}
