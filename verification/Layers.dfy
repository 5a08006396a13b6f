/** The layer guard of `check-package-layers.ts`: which dependency and import edges between packages it
    accepts, and why an accepted workspace gives the package sorts an acyclic graph. */
module Layers {
  import opened Options
  import opened Graphs
  import opened PackageOrder
  import opened Sequences
  import ExportPatterns
  import Text

  /** A workspace package as the guard sees it: `bundler` marks a plugin-packaging distribution. */
  datatype Package = Package(name: Node, manifest: Manifest, devDependencies: seq<Node>, bundler: bool,
                             exports: Option<seq<ExportPatterns.Entry>>)

  /** One import in production source. */
  datatype Import = Import(sourcePath: string, spec: string)

  datatype Violation =
    | UnlistedPackage(name: Node)
    | UnlistedEdge(owner: Node, spec: string)
    | McpOauthEdge(owner: Node, spec: string)
    | LayerEdge(owner: Node, spec: string)
    | BrowserPlatform(owner: Node, spec: string)
    | UndeclaredEdge(owner: Node, spec: string)
    | MissingPackage(owner: Node, spec: string)

  const L0 := {"core"}
  const L1 := {"protocol", "ui-kit"}
  const L2 := {"platform", "oauth", "db", "diagnostics", "sandbox", "memory", "artifacts", "desktop-host", "vibecoding",
               "cookie-consent"}
  const L3 := {"http-kit", "sidecar", "agent-runtime", "cli", "agentic", "capability-providers", "registry"}
  const L4 := {"daemon", "user-management", "cms", "cms-forms", "mcp", "integrations", "agent-plugins", "devops",
               "chat", "plugins", "analytics"}
  const L5 := {"ui", "admin", "search"}
  const L6 := {"server", "sqlite", "infra", "commerce"}
  const L7 := {"provider-plugins", "plugin-ai-trace-langfuse", "plugin-analytics-posthog", "plugin-fixture-provider",
               "plugin-observability-opentelemetry", "plugin-observability-sentry", "plugin-payments-stripe",
               "plugin-ui-ux-design", "plugin-catalog"}

  /** The layer table. */
  function Layer(local: string): Option<nat> {
    if local in L0 then Some(0) else if local in L1 then Some(1) else if local in L2 then Some(2)
    else if local in L3 then Some(3) else if local in L4 then Some(4) else if local in L5 then Some(5)
    else if local in L6 then Some(6) else if local in L7 then Some(7) else None
  }

  const CATALOG := "@jini-ai/integrations/media-providers/catalog"
  const CREDENTIALS := "@jini-ai/platform/secrets/credential-sets/contracts"

  /** A package name without its scope. */
  function Local(name: string): string {
    if |SCOPE| <= |name| then name[|SCOPE|..] else ""
  }

  /** The package a specifier enters, without its scope. */
  function Target(spec: string): string {
    Text.Before(Local(spec), '/')
  }

  predicate SameLayerEdge(owner: string, target: string) {
    (owner == "cli" && target == "sidecar") || (owner == "cms-forms" && target == "cms")
      || (owner == "admin" && target == "ui")
  }

  predicate ReviewedLeaf(owner: string, target: string, spec: string, sourcePath: Option<string>) {
    match sourcePath
    case None =>
      && spec == SCOPE + target
      && ((owner == "agent-runtime" && target == "integrations") || (owner == "memory" && target == "integrations")
          || (owner == "db" && target == "platform"))
    case Some(file) =>
      || (owner == "agent-runtime" && target == "integrations" && spec == CATALOG
         && file == "src/model-discovery-adapters.ts")
      || (owner == "memory" && target == "integrations" && spec == CATALOG && file == "src/llm-provider.ts")
      || (owner == "db" && target == "platform" && spec == CREDENTIALS && file == "src/secrets-vault/repo.sql.ts")
  }

  predicate ReactPeer(owner: string, target: string, integrationPeer: bool) {
    || (owner == "user-management" && target in {"ui", "admin", "agentic"} && integrationPeer)
    || (owner == "chat" && target == "ui")
  }

  predicate ReactIntegration(owner: string, target: string, sourcePath: Option<string>, integrationPeer: bool) {
    && ReactPeer(owner, target, integrationPeer)
    && (sourcePath.None? || Text.StartsWith(sourcePath.value, "src/react/")
        || (owner == "chat" && Text.StartsWith(sourcePath.value, "src/embed-widget/react/")))
  }

  predicate AdminIntegration(owner: string, target: string, spec: string, sourcePath: Option<string>,
                             integrationPeer: bool,
                             byName: map<Node, Package>) {
    && owner == "user-management" && target == "admin" && integrationPeer
    && sourcePath.Some? && Text.StartsWith(sourcePath.value, "src/admin/")
    && ExportPatterns.IsPublicEntry(spec, if SCOPE + "admin" in byName then byName[SCOPE + "admin"].exports else None)
  }

  predicate Allowed(pkg: Package, spec: string, sourcePath: Option<string>, declaredPeer: bool,
                    byName: map<Node, Package>)
    requires Layer(Local(pkg.name)).Some? && Layer(Target(spec)).Some?
  {
    var owner, target := Local(pkg.name), Target(spec);
    var integrationPeer := declaredPeer || (sourcePath.Some? && SCOPE + target in pkg.manifest.peers);
    || Layer(target).value < Layer(owner).value
    || SameLayerEdge(owner, target)
    || ReactIntegration(owner, target, sourcePath, integrationPeer)
    || AdminIntegration(owner, target, spec, sourcePath, integrationPeer, byName)
    || ReviewedLeaf(owner, target, spec, sourcePath)
  }

  predicate BundledAtBuild(pkg: Package, target: string) {
    pkg.bundler && SCOPE + target in pkg.devDependencies
  }

  predicate Declares(pkg: Package, target: string) {
    SCOPE + target in pkg.manifest.dependencies || SCOPE + target in pkg.manifest.peers
  }

  function SourceProblems(pkg: Package, spec: string, byName: map<Node, Package>): seq<Violation> {
    var owner, target := Local(pkg.name), Target(spec);
    (if owner in {"ui", "chat"} && target == "platform" && spec != "@jini-ai/platform/fetch-with-timeout"
        && spec != "@jini-ai/platform/net/endpoint-policy" then [BrowserPlatform(owner, spec)] else [])
    + (if !BundledAtBuild(pkg, target) && !Declares(pkg, target) then [UndeclaredEdge(owner, spec)] else [])
    + (if SCOPE + target !in byName then [MissingPackage(owner, spec)] else [])
  }

  /** The part of `check` behind its early returns. */
  function EdgeProblems(pkg: Package, spec: string, sourcePath: Option<string>, declaredPeer: bool,
                        byName: map<Node, Package>): seq<Violation>
    requires Layer(Local(pkg.name)).Some? && Layer(Target(spec)).Some?
  {
    (if Allowed(pkg, spec, sourcePath, declaredPeer, byName) then [] else [LayerEdge(Local(pkg.name), spec)])
    + (if sourcePath.Some? then SourceProblems(pkg, spec, byName) else [])
  }

  /** What `check` reports for one edge; `sourcePath` is None for a manifest edge. */
  function CheckEdge(pkg: Package, spec: string, sourcePath: Option<string>, declaredPeer: bool,
                     byName: map<Node, Package>): seq<Violation> {
    var owner, target := Local(pkg.name), Target(spec);
    if !Scoped(spec) then []
    else if Layer(owner).None? || Layer(target).None? then [UnlistedEdge(owner, spec)]
    else if (owner == "mcp" && target == "oauth") || (owner == "oauth" && target == "mcp")
      then [McpOauthEdge(owner, spec)]
    else if owner == target && sourcePath.Some? then []
    else EdgeProblems(pkg, spec, sourcePath, declaredPeer, byName)
  }

  function CheckNames(pkg: Package, names: seq<Node>, declaredPeer: bool, byName: map<Node, Package>): seq<Violation> {
    if names == [] then []
    else CheckEdge(pkg, names[0], None, declaredPeer, byName) + CheckNames(pkg, names[1..], declaredPeer, byName)
  }

  function ManifestViolations(pkg: Package, byName: map<Node, Package>): seq<Violation> {
    (if Layer(Local(pkg.name)).Some? then [] else [UnlistedPackage(pkg.name)])
    + CheckNames(pkg, pkg.manifest.dependencies, false, byName)
    + CheckNames(pkg, pkg.manifest.peers, true, byName)
  }

  function CheckImport(pkg: Package, imp: Import, byName: map<Node, Package>): seq<Violation> {
    CheckEdge(pkg, imp.spec, Some(imp.sourcePath), false, byName)
  }

  function SourceViolations(pkg: Package, imports: seq<Import>, byName: map<Node, Package>): seq<Violation> {
    if imports == [] then []
    else CheckImport(pkg, imports[0], byName) + SourceViolations(pkg, imports[1..], byName)
  }

  function ImportsOf(sources: map<Node, seq<Import>>, name: Node): seq<Import> {
    if name in sources then sources[name] else []
  }

  function PackageViolations(pkg: Package, imports: seq<Import>, byName: map<Node, Package>): seq<Violation> {
    ManifestViolations(pkg, byName) + SourceViolations(pkg, imports, byName)
  }

  function PackageCheck(sources: map<Node, seq<Import>>, byName: map<Node, Package>): Package -> seq<Violation> {
    (pkg: Package) => PackageViolations(pkg, ImportsOf(sources, pkg.name), byName)
  }

  function Violations(packages: seq<Package>, sources: map<Node, seq<Import>>,
                      byName: map<Node, Package>): seq<Violation> {
    FlatMap(packages, PackageCheck(sources, byName))
  }

  /** Later packages of one name replace earlier ones, as in `new Map(...)`. */
  function ByName(packages: seq<Package>): map<Node, Package> {
    if packages == [] then map[]
    else ByName(packages[..|packages| - 1])[packages[|packages| - 1].name := packages[|packages| - 1]]
  }

  /* ---- the guard as the code runs it ---- */

  class LayerAudit {
    const byName: map<Node, Package>
    var violations: seq<Violation>

    constructor (packages: seq<Package>)
      ensures byName == ByName(packages) && violations == []
    {
      byName := ByName(packages);
      violations := [];
    }

    method Check(pkg: Package, spec: string, sourcePath: Option<string>, declaredPeer: bool)
      modifies this
      ensures violations == old(violations) + CheckEdge(pkg, spec, sourcePath, declaredPeer, byName)
    {
      if !Scoped(spec) { return; }
      var owner, target := Local(pkg.name), Target(spec);
      if Layer(owner).None? || Layer(target).None? {
        violations := violations + [UnlistedEdge(owner, spec)];
        return;
      }
      if (owner == "mcp" && target == "oauth") || (owner == "oauth" && target == "mcp") {
        violations := violations + [McpOauthEdge(owner, spec)];
        return;
      }
      if owner == target && sourcePath.Some? { return; }
      CheckRules(pkg, spec, sourcePath, declaredPeer);
    }

    method CheckRules(pkg: Package, spec: string, sourcePath: Option<string>, declaredPeer: bool)
      requires Layer(Local(pkg.name)).Some? && Layer(Target(spec)).Some?
      modifies this
      ensures violations == old(violations) + EdgeProblems(pkg, spec, sourcePath, declaredPeer, byName)
    {
      if !Allowed(pkg, spec, sourcePath, declaredPeer, byName) {
        violations := violations + [LayerEdge(Local(pkg.name), spec)];
      }
      if sourcePath.Some? {
        violations := violations + SourceProblems(pkg, spec, byName);
      }
    }

    method CheckName(pkg: Package, name: Node, declaredPeer: bool, ghost rest: seq<Violation>)
      modifies this
      ensures violations == old(violations) + CheckEdge(pkg, name, None, declaredPeer, byName)
      ensures violations + rest == old(violations) + (CheckEdge(pkg, name, None, declaredPeer, byName) + rest)
    {
      Check(pkg, name, None, declaredPeer);
    }

    method CheckAll(pkg: Package, names: seq<Node>, declaredPeer: bool)
      modifies this
      ensures violations == old(violations) + CheckNames(pkg, names, declaredPeer, byName)
    {
      var i := 0;
      while i < |names|
        invariant 0 <= i <= |names|
        invariant violations + CheckNames(pkg, names[i..], declaredPeer, byName)
                  == old(violations) + CheckNames(pkg, names, declaredPeer, byName)
      {
        assert names[i..][0] == names[i] && names[i..][1..] == names[i + 1..];
        CheckName(pkg, names[i], declaredPeer, CheckNames(pkg, names[i + 1..], declaredPeer, byName));
        i := i + 1;
      }
    }

    method CheckManifest(pkg: Package)
      modifies this
      ensures violations == old(violations) + ManifestViolations(pkg, byName)
    {
      if Layer(Local(pkg.name)).None? { violations := violations + [UnlistedPackage(pkg.name)]; }
      ghost var start := violations;
      CheckAll(pkg, pkg.manifest.dependencies, false);
      assert violations == start + CheckNames(pkg, pkg.manifest.dependencies, false, byName);
      CheckAll(pkg, pkg.manifest.peers, true);
    }

    method CheckOneImport(pkg: Package, imp: Import, ghost rest: seq<Violation>)
      modifies this
      ensures violations == old(violations) + CheckImport(pkg, imp, byName)
      ensures violations + rest == old(violations) + (CheckImport(pkg, imp, byName) + rest)
    {
      Check(pkg, imp.spec, Some(imp.sourcePath), false);
    }

    method CheckSources(pkg: Package, imports: seq<Import>)
      modifies this
      ensures violations == old(violations) + SourceViolations(pkg, imports, byName)
    {
      var i := 0;
      while i < |imports|
        invariant 0 <= i <= |imports|
        invariant violations + SourceViolations(pkg, imports[i..], byName)
                  == old(violations) + SourceViolations(pkg, imports, byName)
      {
        assert imports[i..][0] == imports[i] && imports[i..][1..] == imports[i + 1..];
        CheckOneImport(pkg, imports[i], SourceViolations(pkg, imports[i + 1..], byName));
        i := i + 1;
      }
    }

    method CheckPackage(pkg: Package, imports: seq<Import>, ghost rest: seq<Violation>)
      modifies this
      ensures violations == old(violations) + PackageViolations(pkg, imports, byName)
      ensures violations + rest == old(violations) + (PackageViolations(pkg, imports, byName) + rest)
    {
      CheckManifest(pkg);
      CheckSources(pkg, imports);
    }

    method CheckPackages(packages: seq<Package>, sources: map<Node, seq<Import>>)
      modifies this
      ensures violations == old(violations) + Violations(packages, sources, byName)
    {
      var i := 0;
      while i < |packages|
        invariant 0 <= i <= |packages|
        invariant violations + Violations(packages[i..], sources, byName)
                  == old(violations) + Violations(packages, sources, byName)
      {
        assert packages[i..][0] == packages[i] && packages[i..][1..] == packages[i + 1..];
        CheckPackage(packages[i], ImportsOf(sources, packages[i].name), Violations(packages[i + 1..], sources, byName));
        i := i + 1;
      }
    }
  }

  /* ---- which edges are accepted ---- */

  const TIES := {("cli", "sidecar"), ("cms-forms", "cms"), ("admin", "ui")}
  const REVIEWED := {("agent-runtime", "integrations"), ("memory", "integrations"), ("db", "platform")}

  /** For each reviewed owner the one leaf it may import, and the one file that may. */
  const LEAVES := map["agent-runtime" := (CATALOG, "src/model-discovery-adapters.ts"),
                      "memory" := (CATALOG, "src/llm-provider.ts"),
                      "db" := (CREDENTIALS, "src/secrets-vault/repo.sql.ts")]

  ghost predicate Listed(owner: string, target: string) {
    Layer(owner).Some? && Layer(target).Some?
  }

  predicate IsMcpOauth(owner: string, target: string) {
    (owner, target) in {("mcp", "oauth"), ("oauth", "mcp")}
  }

  /** What a manifest may name: a lower layer, a tie, a React peer or, by its bare name, a reviewed package. */
  ghost predicate ManifestAllows(owner: string, target: string, spec: string, declaredPeer: bool)
    requires Listed(owner, target)
  {
    || Layer(target).value < Layer(owner).value
    || (owner, target) in TIES
    || (owner, target) == ("chat", "ui")
    || (owner == "user-management" && target in {"ui", "admin", "agentic"} && declaredPeer)
    || ((owner, target) in REVIEWED && spec == SCOPE + target)
  }

  /** What a source file may import: a lower layer, a tie, a React peer from a React subtree, a public admin entry from
      the admin subtree, or a reviewed leaf from the one file reviewed for it. */
  ghost predicate ImportAllows(pkg: Package, spec: string, file: string, byName: map<Node, Package>)
    requires Listed(Local(pkg.name), Target(spec))
  {
    var owner, target := Local(pkg.name), Target(spec);
    var peer := SCOPE + target in pkg.manifest.peers;
    || Layer(target).value < Layer(owner).value
    || (owner, target) in TIES
    || ((owner, target) == ("chat", "ui")
        && (Text.StartsWith(file, "src/react/") || Text.StartsWith(file, "src/embed-widget/react/")))
    || (owner == "user-management" && target in {"ui", "admin", "agentic"} && peer
        && Text.StartsWith(file, "src/react/"))
    || (owner == "user-management" && target == "admin" && peer && Text.StartsWith(file, "src/admin/")
        && SCOPE + "admin" in byName && ExportPatterns.IsPublicEntry(spec, byName[SCOPE + "admin"].exports))
    || ((owner, target) in REVIEWED && LEAVES[owner] == (spec, file))
  }

  /** Browser packages may use two entries of `platform` only. */
  ghost predicate BrowserSafe(owner: string, target: string, spec: string) {
    owner in {"ui", "chat"} && target == "platform"
    ==> spec in {"@jini-ai/platform/fetch-with-timeout", "@jini-ai/platform/net/endpoint-policy"}
  }

  ghost predicate DeclaredIn(pkg: Package, name: Node) {
    || name in pkg.manifest.dependencies || name in pkg.manifest.peers
    || (pkg.bundler && name in pkg.devDependencies)
  }

  ghost predicate ManifestEdgeOk(pkg: Package, spec: string, declaredPeer: bool) {
    var owner, target := Local(pkg.name), Target(spec);
    Scoped(spec)
    ==> Listed(owner, target) && !IsMcpOauth(owner, target) && ManifestAllows(owner, target, spec, declaredPeer)
  }

  ghost predicate ImportOk(pkg: Package, imp: Import, byName: map<Node, Package>) {
    var owner, target := Local(pkg.name), Target(imp.spec);
    Scoped(imp.spec) ==>
      && Listed(owner, target) && !IsMcpOauth(owner, target)
      && (owner == target
          || (ImportAllows(pkg, imp.spec, imp.sourcePath, byName) && BrowserSafe(owner, target, imp.spec)
              && DeclaredIn(pkg, SCOPE + target) && SCOPE + target in byName))
  }

  lemma TieRule(owner: string, target: string)
    ensures SameLayerEdge(owner, target) <==> (owner, target) in TIES
  {
  }

  lemma ReviewedManifestRule(owner: string, target: string, spec: string)
    ensures ReviewedLeaf(owner, target, spec, None) <==> (owner, target) in REVIEWED && spec == SCOPE + target
  {
  }

  lemma OwnersDiffer()
    ensures "agent-runtime" != "memory" && "agent-runtime" != "db" && "memory" != "db"
  {
    assert |"agent-runtime"| == 13 && |"memory"| == 6 && |"db"| == 2;
  }

  lemma LeavesOf()
    ensures LEAVES.Keys == {"agent-runtime", "memory", "db"}
    ensures LEAVES["agent-runtime"] == (CATALOG, "src/model-discovery-adapters.ts")
    ensures LEAVES["memory"] == (CATALOG, "src/llm-provider.ts")
    ensures LEAVES["db"] == (CREDENTIALS, "src/secrets-vault/repo.sql.ts")
  {
    OwnersDiffer();
  }

  lemma ReviewedImportRule(owner: string, target: string, spec: string, file: string)
    ensures ReviewedLeaf(owner, target, spec, Some(file))
            <==> (owner, target) in REVIEWED && LEAVES[owner] == (spec, file)
  {
    LeavesOf();
    OwnersDiffer();
  }

  lemma ReactRule(owner: string, target: string, path: Option<string>, peer: bool)
    ensures ReactIntegration(owner, target, path, peer)
            <==> || ((owner, target) == ("chat", "ui")
                     && (path.None? || Text.StartsWith(path.value, "src/react/")
                         || Text.StartsWith(path.value, "src/embed-widget/react/")))
                 || (owner == "user-management" && target in {"ui", "admin", "agentic"} && peer
                     && (path.None? || Text.StartsWith(path.value, "src/react/")))
  {
    assert "chat" != "user-management" by {
      assert |"chat"| != |"user-management"|;
    }
  }

  lemma ManifestRule(pkg: Package, spec: string, declaredPeer: bool, byName: map<Node, Package>)
    requires Listed(Local(pkg.name), Target(spec))
    ensures Allowed(pkg, spec, None, declaredPeer, byName)
            <==> ManifestAllows(Local(pkg.name), Target(spec), spec, declaredPeer)
  {
    var owner, target := Local(pkg.name), Target(spec);
    TieRule(owner, target);
    ReviewedManifestRule(owner, target, spec);
    ReactRule(owner, target, None, declaredPeer);
  }

  lemma ImportRule(pkg: Package, spec: string, file: string, byName: map<Node, Package>)
    requires Listed(Local(pkg.name), Target(spec))
    ensures Allowed(pkg, spec, Some(file), false, byName) <==> ImportAllows(pkg, spec, file, byName)
  {
    var owner, target := Local(pkg.name), Target(spec);
    TieRule(owner, target);
    ReviewedImportRule(owner, target, spec, file);
    ReactRule(owner, target, Some(file), SCOPE + target in pkg.manifest.peers);
  }

  lemma SourceRules(pkg: Package, spec: string, byName: map<Node, Package>)
    ensures SourceProblems(pkg, spec, byName) == []
            <==> BrowserSafe(Local(pkg.name), Target(spec), spec) && DeclaredIn(pkg, SCOPE + Target(spec))
                 && SCOPE + Target(spec) in byName
  {
  }

  /** A manifest edge is reported clean exactly when both packages are listed, they are not mcp and oauth, and the
      manifest may name the target. */
  lemma ManifestEdgeExactly(pkg: Package, spec: string, declaredPeer: bool, byName: map<Node, Package>)
    ensures CheckEdge(pkg, spec, None, declaredPeer, byName) == [] <==> ManifestEdgeOk(pkg, spec, declaredPeer)
  {
    if Scoped(spec) && Listed(Local(pkg.name), Target(spec)) {
      ManifestRule(pkg, spec, declaredPeer, byName);
    }
  }

  /** An import is reported clean exactly when it is of the package itself, or of a listed package that the file may
      import, the package declares and the workspace has. */
  lemma ImportExactly(pkg: Package, imp: Import, byName: map<Node, Package>)
    ensures CheckImport(pkg, imp, byName) == [] <==> ImportOk(pkg, imp, byName)
  {
    if Scoped(imp.spec) && Listed(Local(pkg.name), Target(imp.spec)) {
      ImportRule(pkg, imp.spec, imp.sourcePath, byName);
      SourceRules(pkg, imp.spec, byName);
    }
  }

  /** What is reported for an edge that the layer rules are not asked about. */
  lemma EarlyReports(pkg: Package, spec: string, sourcePath: Option<string>, declaredPeer: bool,
                     byName: map<Node, Package>)
    ensures var owner, target := Local(pkg.name), Target(spec);
            var r := CheckEdge(pkg, spec, sourcePath, declaredPeer, byName);
            && (!Scoped(spec) ==> r == [])
            && (Scoped(spec) && !Listed(owner, target) ==> r == [UnlistedEdge(owner, spec)])
            && (Scoped(spec) && Listed(owner, target) && IsMcpOauth(owner, target) ==> r == [McpOauthEdge(owner, spec)])
            && (Scoped(spec) && Listed(owner, owner) && owner == target && sourcePath.Some? ==> r == [])
  {
  }

  /** Otherwise a manifest edge is reported exactly when the manifest may not name the target. */
  lemma ManifestReports(pkg: Package, spec: string, declaredPeer: bool, byName: map<Node, Package>)
    requires Scoped(spec) && Listed(Local(pkg.name), Target(spec)) && !IsMcpOauth(Local(pkg.name), Target(spec))
    ensures CheckEdge(pkg, spec, None, declaredPeer, byName)
            == if ManifestAllows(Local(pkg.name), Target(spec), spec, declaredPeer) then []
               else [LayerEdge(Local(pkg.name), spec)]
  {
    ManifestRule(pkg, spec, declaredPeer, byName);
  }

  /** ... and an import once for each rule it breaks. */
  lemma ImportReports(pkg: Package, spec: string, file: string, byName: map<Node, Package>)
    requires Scoped(spec) && Listed(Local(pkg.name), Target(spec)) && !IsMcpOauth(Local(pkg.name), Target(spec))
    requires Local(pkg.name) != Target(spec)
    ensures var owner, target := Local(pkg.name), Target(spec);
            var r := CheckEdge(pkg, spec, Some(file), false, byName);
            && (LayerEdge(owner, spec) in r <==> !ImportAllows(pkg, spec, file, byName))
            && (BrowserPlatform(owner, spec) in r <==> !BrowserSafe(owner, target, spec))
            && (UndeclaredEdge(owner, spec) in r <==> !DeclaredIn(pkg, SCOPE + target))
            && (MissingPackage(owner, spec) in r <==> SCOPE + target !in byName)
  {
    var owner := Local(pkg.name);
    ImportRule(pkg, spec, file, byName);
    SourceKinds(pkg, spec, byName);
    var layer := if Allowed(pkg, spec, Some(file), false, byName) then [] else [LayerEdge(owner, spec)];
    assert CheckEdge(pkg, spec, Some(file), false, byName) == layer + SourceProblems(pkg, spec, byName);
  }

  lemma SourceKinds(pkg: Package, spec: string, byName: map<Node, Package>)
    ensures var owner, target := Local(pkg.name), Target(spec);
            var r := SourceProblems(pkg, spec, byName);
            && (BrowserPlatform(owner, spec) in r <==> !BrowserSafe(owner, target, spec))
            && (UndeclaredEdge(owner, spec) in r <==> !DeclaredIn(pkg, SCOPE + target))
            && (MissingPackage(owner, spec) in r <==> SCOPE + target !in byName)
            && forall v :: v in r ==> !v.LayerEdge?
  {
    var owner, target := Local(pkg.name), Target(spec);
    SourceParts(pkg, spec, byName);
    PartsHold(owner, spec, !BrowserSafe(owner, target, spec), !DeclaredIn(pkg, SCOPE + target),
              SCOPE + target !in byName);
  }

  function Parts(owner: Node, spec: string, unsafe: bool, undeclared: bool, missing: bool): seq<Violation> {
    (if unsafe then [BrowserPlatform(owner, spec)] else [])
    + (if undeclared then [UndeclaredEdge(owner, spec)] else [])
    + (if missing then [MissingPackage(owner, spec)] else [])
  }

  lemma SourceParts(pkg: Package, spec: string, byName: map<Node, Package>)
    ensures var owner, target := Local(pkg.name), Target(spec);
            SourceProblems(pkg, spec, byName)
            == Parts(owner, spec, !BrowserSafe(owner, target, spec), !DeclaredIn(pkg, SCOPE + target),
                     SCOPE + target !in byName)
  {
  }

  lemma PartsHold(owner: Node, spec: string, unsafe: bool, undeclared: bool, missing: bool)
    ensures var r := Parts(owner, spec, unsafe, undeclared, missing);
            && (BrowserPlatform(owner, spec) in r <==> unsafe) && (UndeclaredEdge(owner, spec) in r <==> undeclared)
            && (MissingPackage(owner, spec) in r <==> missing)
            && forall v :: v in r ==> !v.LayerEdge?
  {
  }

  lemma BeforeSlash(a: string, rest: string)
    requires '/' !in a
    ensures Text.Before(a + "/" + rest, '/') == a && Text.Before(a, '/') == a
  {
    var s := a + "/" + rest;
    assert s[|a|] == '/' && s[..|a|] == a;
    Text.PositionIs(s, '/', |a|);
    Text.PositionIs(a, '/', |a|);
    assert a[..|a|] == a;
  }

  /** A specifier enters the package its first segment behind the scope names. */
  lemma TargetOf(a: string, rest: string)
    requires '/' !in a
    ensures Local(SCOPE + a) == a && Target(SCOPE + a) == a && Target(SCOPE + a + "/" + rest) == a
  {
    BeforeSlash(a, rest);
    assert (SCOPE + a)[|SCOPE|..] == a;
    assert (SCOPE + a + "/" + rest)[|SCOPE|..] == a + "/" + rest;
  }

  lemma {:induction false} CleanNamesExactly(pkg: Package, names: seq<Node>, declaredPeer: bool,
                                             byName: map<Node, Package>)
    ensures CheckNames(pkg, names, declaredPeer, byName) == []
            <==> forall d :: d in names ==> CheckEdge(pkg, d, None, declaredPeer, byName) == []
  {
    if names != [] {
      CleanNamesExactly(pkg, names[1..], declaredPeer, byName);
      assert names == [names[0]] + names[1..];
    }
  }

  lemma {:induction false} CleanImportsExactly(pkg: Package, imports: seq<Import>, byName: map<Node, Package>)
    ensures SourceViolations(pkg, imports, byName) == []
            <==> forall imp :: imp in imports ==> CheckImport(pkg, imp, byName) == []
  {
    if imports != [] {
      CleanImportsExactly(pkg, imports[1..], byName);
      assert imports == [imports[0]] + imports[1..];
    }
  }

  /** The package is listed, and its manifest and its imports keep the rules. */
  ghost predicate PackageOk(pkg: Package, imports: seq<Import>, byName: map<Node, Package>) {
    && Layer(Local(pkg.name)).Some?
    && (forall d :: d in pkg.manifest.dependencies ==> ManifestEdgeOk(pkg, d, false))
    && (forall d :: d in pkg.manifest.peers ==> ManifestEdgeOk(pkg, d, true))
    && (forall imp :: imp in imports ==> ImportOk(pkg, imp, byName))
  }

  lemma PackageExactly(pkg: Package, imports: seq<Import>, byName: map<Node, Package>)
    ensures PackageViolations(pkg, imports, byName) == [] <==> PackageOk(pkg, imports, byName)
  {
    CleanNamesExactly(pkg, pkg.manifest.dependencies, false, byName);
    CleanNamesExactly(pkg, pkg.manifest.peers, true, byName);
    CleanImportsExactly(pkg, imports, byName);
    forall d ensures CheckEdge(pkg, d, None, false, byName) == [] <==> ManifestEdgeOk(pkg, d, false) {
      ManifestEdgeExactly(pkg, d, false, byName);
    }
    forall d ensures CheckEdge(pkg, d, None, true, byName) == [] <==> ManifestEdgeOk(pkg, d, true) {
      ManifestEdgeExactly(pkg, d, true, byName);
    }
    forall imp ensures CheckImport(pkg, imp, byName) == [] <==> ImportOk(pkg, imp, byName) {
      ImportExactly(pkg, imp, byName);
    }
    PartsEmpty(pkg, imports, byName);
  }

  lemma PartsEmpty(pkg: Package, imports: seq<Import>, byName: map<Node, Package>)
    ensures PackageViolations(pkg, imports, byName) == []
            <==> Layer(Local(pkg.name)).Some?
                 && CheckNames(pkg, pkg.manifest.dependencies, false, byName) == []
                 && CheckNames(pkg, pkg.manifest.peers, true, byName) == []
                 && SourceViolations(pkg, imports, byName) == []
  {
  }

  /** The guard is silent exactly when every package keeps the rules. */
  lemma SilentExactly(packages: seq<Package>, sources: map<Node, seq<Import>>)
    ensures Violations(packages, sources, ByName(packages)) == []
            <==> forall p :: p in packages ==> PackageOk(p, ImportsOf(sources, p.name), ByName(packages))
  {
    var check := PackageCheck(sources, ByName(packages));
    forall p ensures check(p) == [] <==> PackageOk(p, ImportsOf(sources, p.name), ByName(packages)) {
      PackageExactly(p, ImportsOf(sources, p.name), ByName(packages));
    }
    if Violations(packages, sources, ByName(packages)) == [] {
      forall p | p in packages ensures check(p) == [] {
        FlatMapEmpty(packages, check, p);
      }
    } else if forall p :: p in packages ==> check(p) == [] {
      AllEmptyFlatMap(packages, check);
    }
  }

  /* ---- accepted edges fall in rank ---- */

  /** The accepted edges that lead to a higher layer. */
  predicate UpwardException(owner: string, target: string) {
    || (owner == "chat" && target == "ui")
    || (owner == "user-management" && target in {"ui", "admin"})
    || (owner == "agent-runtime" && target == "integrations")
    || (owner == "memory" && target == "integrations")
  }

  /** The layer first; within a layer, the owner of a same-layer edge stands above the rest. */
  function Rank(local: string): int {
    (if Layer(local).Some? then 2 * Layer(local).value else 0)
      + (if local in {"cli", "cms-forms", "admin", "db"} then 1 else 0)
  }

  function NodeRank(name: Node): int {
    Rank(Target(name))
  }

  lemma TieLayers()
    ensures Layer("cli") == Layer("sidecar") == Some(3)
    ensures Layer("cms-forms") == Layer("cms") == Some(4)
    ensures Layer("admin") == Layer("ui") == Some(5)
    ensures Layer("db") == Layer("platform") == Some(2)
    ensures Layer("agentic") == Some(3) && Layer("user-management") == Layer("chat") == Some(4)
  {
  }

  lemma LowNamesHaveNoSlash(local: string)
    requires local in L0 || local in L1 || local in L2 || local in L3
    ensures '/' !in local
  {
  }

  lemma HighNamesHaveNoSlash(local: string)
    requires local in L5 || local in L6 || local in L7
    ensures '/' !in local
  {
  }

  lemma LayerNamesHaveNoSlash(local: string)
    requires Layer(local).Some?
    ensures '/' !in local
  {
    if Layer(local).value < 4 {
      LowNamesHaveNoSlash(local);
    } else if Layer(local).value > 4 {
      HighNamesHaveNoSlash(local);
    }
  }

  lemma RankOfLayer(local: string)
    requires Layer(local).Some?
    ensures 2 * Layer(local).value <= Rank(local) <= 2 * Layer(local).value + 1
  {
  }

  lemma TiesFall(owner: string, target: string)
    requires SameLayerEdge(owner, target) || (owner == "db" && target == "platform")
             || (owner == "user-management" && target == "agentic")
    ensures Rank(target) < Rank(owner)
  {
    TieLayers();
  }

  lemma AcceptedEdgeIsAllowed(pkg: Package, spec: string, declaredPeer: bool, byName: map<Node, Package>)
    requires Scoped(spec) && CheckEdge(pkg, spec, None, declaredPeer, byName) == []
    ensures Layer(Local(pkg.name)).Some? && Layer(Target(spec)).Some? && Allowed(pkg, spec, None, declaredPeer, byName)
  {
  }

  /** A manifest edge the guard accepts falls in rank exactly when it is none of the upward exceptions. */
  lemma AcceptedEdgeFalls(pkg: Package, spec: string, declaredPeer: bool, byName: map<Node, Package>)
    requires Scoped(spec) && CheckEdge(pkg, spec, None, declaredPeer, byName) == []
    ensures Layer(Local(pkg.name)).Some? && Layer(Target(spec)).Some?
    ensures Rank(Target(spec)) < Rank(Local(pkg.name)) <==> !UpwardException(Local(pkg.name), Target(spec))
  {
    var owner, target := Local(pkg.name), Target(spec);
    AcceptedEdgeIsAllowed(pkg, spec, declaredPeer, byName);
    RankOfLayer(owner);
    RankOfLayer(target);
    if UpwardException(owner, target) {
      ExceptionClimbs(owner, target);
    } else if Layer(target).value >= Layer(owner).value {
      TiesFall(owner, target);
    }
  }

  /** ... and an exception the guard accepts does climb, so the list is exact. */
  lemma ExceptionClimbs(owner: string, target: string)
    requires UpwardException(owner, target)
    ensures Layer(owner).Some? && Layer(target).Some? && Layer(target).value > Layer(owner).value
  {
  }

  lemma {:induction false} CleanNames(pkg: Package, names: seq<Node>, declaredPeer: bool, byName: map<Node, Package>,
                                      spec: string)
    requires CheckNames(pkg, names, declaredPeer, byName) == [] && spec in names
    ensures CheckEdge(pkg, spec, None, declaredPeer, byName) == []
  {
    if spec != names[0] {
      assert names == [names[0]] + names[1..];
      CleanNames(pkg, names[1..], declaredPeer, byName, spec);
    }
  }

  /** Every registry entry is a package the guard checked and found clean. */
  ghost predicate Clean(registry: Registry, byName: map<Node, Package>) {
    forall n :: n in registry ==>
      exists pkg: Package :: pkg.name == n && Scoped(n) && pkg.manifest == registry[n]
        && ManifestViolations(pkg, byName) == []
  }

  /** A registry of the audited workspace: every entry is the manifest of an audited package, and every scoped
      package has an entry. */
  ghost predicate IsRegistryOf(registry: Registry, packages: seq<Package>) {
    && (forall n :: n in registry
                    ==> Scoped(n) && exists p :: p in packages && p.name == n && p.manifest == registry[n])
    && (forall p :: p in packages && Scoped(p.name) ==> p.name in registry)
  }

  lemma NoViolationOf(packages: seq<Package>, sources: map<Node, seq<Import>>, byName: map<Node, Package>, pkg: Package)
    requires Violations(packages, sources, byName) == [] && pkg in packages
    ensures PackageViolations(pkg, ImportsOf(sources, pkg.name), byName) == []
  {
    FlatMapEmpty(packages, PackageCheck(sources, byName), pkg);
  }

  lemma NoViolationInParts(pkg: Package, imports: seq<Import>, byName: map<Node, Package>)
    requires PackageViolations(pkg, imports, byName) == []
    ensures ManifestViolations(pkg, byName) == [] && SourceViolations(pkg, imports, byName) == []
  {
  }

  /** An audit without violations leaves a clean registry. */
  lemma AuditMeansClean(packages: seq<Package>, sources: map<Node, seq<Import>>, registry: Registry)
    requires Violations(packages, sources, ByName(packages)) == [] && IsRegistryOf(registry, packages)
    ensures Clean(registry, ByName(packages))
  {
    forall n | n in registry
      ensures exists p: Package :: p.name == n && Scoped(n) && p.manifest == registry[n]
                                   && ManifestViolations(p, ByName(packages)) == []
    {
      var p :| p in packages && p.name == n && p.manifest == registry[n];
      NoViolationOf(packages, sources, ByName(packages), p);
      NoViolationInParts(p, ImportsOf(sources, p.name), ByName(packages));
    }
  }

  lemma {:induction false} ByNameMembers(packages: seq<Package>)
    ensures forall n :: n in ByName(packages) ==> ByName(packages)[n].name == n && ByName(packages)[n] in packages
    ensures forall p :: p in packages ==> p.name in ByName(packages)
  {
    if packages != [] {
      var front, last := packages[..|packages| - 1], packages[|packages| - 1];
      ByNameMembers(front);
      assert packages == front + [last];
    }
  }

  /** What `discoverJiniPackages` builds from the same packages. */
  function WorkspaceRegistry(packages: seq<Package>): Registry {
    map n | n in ByName(packages) && Scoped(n) :: ByName(packages)[n].manifest
  }

  lemma WorkspaceHasRegistry(packages: seq<Package>)
    ensures IsRegistryOf(WorkspaceRegistry(packages), packages)
  {
    ByNameMembers(packages);
  }

  /** `a` depends or peers on `b` by one of the upward exceptions. */
  predicate Climbs(a: Node, b: Node) {
    Scoped(a) && Scoped(b) && UpwardException(Target(a), Target(b))
  }

  lemma CleanEdgeFalls(registry: Registry, byName: map<Node, Package>, n: Node, d: Node)
    requires Clean(registry, byName) && n in registry && Scoped(d)
    requires d in registry[n].dependencies || d in registry[n].peers
    ensures !Climbs(n, d) ==> NodeRank(d) < NodeRank(n)
  {
    var pkg: Package :| pkg.name == n && Scoped(n) && pkg.manifest == registry[n]
      && ManifestViolations(pkg, byName) == [];
    LayerNamesHaveNoSlash(Local(n));
    assert Target(n) == Local(n);
    if d in registry[n].dependencies {
      CleanNames(pkg, pkg.manifest.dependencies, false, byName, d);
      AcceptedEdgeFalls(pkg, d, false, byName);
    } else {
      CleanNames(pkg, pkg.manifest.peers, true, byName, d);
      AcceptedEdgeFalls(pkg, d, true, byName);
    }
  }

  /** The edges both sorts can walk. */
  lemma SortEdges(registry: Registry, n: Node, d: Node)
    requires forall m :: m in registry ==> Scoped(m)
    requires d in Succ(DependencyGraph(registry), n) || d in Succ(SiblingGraph(registry), n)
    ensures n in registry && Scoped(d) && (d in registry[n].dependencies || d in registry[n].peers)
  {
  }

  ghost predicate NoException(registry: Registry) {
    forall n, d :: n in registry && (d in registry[n].dependencies || d in registry[n].peers) ==> !Climbs(n, d)
  }

  lemma CleanRegistrySorts(registry: Registry, byName: map<Node, Package>, names: seq<Node>)
    requires Clean(registry, byName) && NoException(registry)
    ensures Acyclic(DependencyGraph(registry)) && Acyclic(SiblingGraph(registry))
    ensures !ComputeClosure(registry, names).Cyclic? && !PublishOrder(registry, names).Cyclic?
  {
    forall n, d | d in Succ(DependencyGraph(registry), n) || d in Succ(SiblingGraph(registry), n)
      ensures NodeRank(d) < NodeRank(n)
    {
      SortEdges(registry, n, d);
      CleanEdgeFalls(registry, byName, n, d);
    }
    RankedIsAcyclic(DependencyGraph(registry), NodeRank);
    RankedIsAcyclic(SiblingGraph(registry), NodeRank);
    NoCycleNoThrow(DependencyGraph(registry), names);
    NoCycleNoThrow(SiblingGraph(registry), names);
  }

  /** A workspace whose audit reports nothing and that uses none of the upward exceptions has acyclic dependency and
      sibling graphs, so neither sort can report a cycle. */
  lemma CleanWorkspaceSorts(packages: seq<Package>, sources: map<Node, seq<Import>>, registry: Registry,
                            names: seq<Node>)
    requires Violations(packages, sources, ByName(packages)) == [] && IsRegistryOf(registry, packages)
    requires NoException(registry)
    ensures Acyclic(DependencyGraph(registry)) && Acyclic(SiblingGraph(registry))
    ensures !ComputeClosure(registry, names).Cyclic? && !PublishOrder(registry, names).Cyclic?
  {
    AuditMeansClean(packages, sources, registry);
    CleanRegistrySorts(registry, ByName(packages), names);
  }

  lemma NoCycleNoThrow(g: Graph, roots: seq<Node>)
    requires Acyclic(g)
    ensures !Sort(g, roots).Cyclic?
  {
    SortIsExact(g, roots);
    if Sort(g, roots).Cyclic? {
      var path := Sort(g, roots).path;
      var i :| 0 <= i < |path| - 1 && path[i] == path[|path| - 1];
      RepeatedNodeIsOnCycle(g, path, i, |path| - 1);
    }
  }

  ghost predicate FallsUnlessClimbs(g: Graph, rank: Node -> int, climbs: (Node, Node) -> bool) {
    forall n, d :: d in Succ(g, n) && !climbs(n, d) ==> rank(d) < rank(n)
  }

  /** Each step of the walk climbs or falls. */
  ghost predicate ClimbsOrFalls(rank: Node -> int, climbs: (Node, Node) -> bool, p: seq<Node>) {
    forall i, j :: 0 <= i && j == i + 1 && j < |p| ==> climbs(p[i], p[j]) || rank(p[j]) < rank(p[i])
  }

  /** A walk without a climbing edge never rises. */
  lemma {:induction false} FirstClimb(rank: Node -> int, climbs: (Node, Node) -> bool, p: seq<Node>, i: nat)
    returns (k: nat)
    requires ClimbsOrFalls(rank, climbs, p) && i < |p|
    ensures k <= i
    ensures if k < i then climbs(p[k], p[k + 1]) else i == 0 || rank(p[i]) < rank(p[0])
  {
    if i == 0 {
      return 0;
    }
    k := FirstClimb(rank, climbs, p, i - 1);
    if k == i - 1 && !climbs(p[i - 1], p[i]) {
      k := i;
    }
  }

  /** So a cycle passes a climbing edge whose target leads back to its owner. */
  lemma CycleClimbs(g: Graph, rank: Node -> int, climbs: (Node, Node) -> bool, n: Node)
    returns (owner: Node, target: Node)
    requires FallsUnlessClimbs(g, rank, climbs) && OnCycle(g, n)
    ensures target in Succ(g, owner) && climbs(owner, target) && Reaches(g, target, owner)
  {
    var m :| m in Succ(g, n) && Reaches(g, m, n);
    var q :| WalkBetween(g, q, m, n);
    WalkCons(g, n, q);
    var p := [n] + q;
    var last := |p| - 1;
    assert p[last] == n;
    WalkClimbsOrFalls(g, rank, climbs, p);
    var k := FirstClimb(rank, climbs, p, last);
    owner, target := p[k], p[k + 1];
    WalkReaches(g, p, k + 1, last);
    WalkReaches(g, p, 0, k);
    ReachesTrans(g, target, n, owner);
  }

  lemma WalkClimbsOrFalls(g: Graph, rank: Node -> int, climbs: (Node, Node) -> bool, p: seq<Node>)
    requires FallsUnlessClimbs(g, rank, climbs) && IsWalk(g, p)
    ensures ClimbsOrFalls(rank, climbs, p)
  {
  }

  /** The graphs the two sorts walk. */
  predicate IsSortGraph(registry: Registry, g: Graph) {
    g == DependencyGraph(registry) || g == SiblingGraph(registry)
  }

  ghost predicate NoExceptionLeadsBack(g: Graph) {
    forall n, d :: d in Succ(g, n) && Climbs(n, d) ==> !Reaches(g, d, n)
  }

  lemma CleanCyclesRunThroughExceptions(registry: Registry, byName: map<Node, Package>, g: Graph)
    requires Clean(registry, byName) && IsSortGraph(registry, g)
    ensures Acyclic(g) <==> NoExceptionLeadsBack(g)
  {
    if !Acyclic(g) {
      var n :| OnCycle(g, n);
      forall n, d | d in Succ(g, n) && !Climbs(n, d) ensures NodeRank(d) < NodeRank(n) {
        SortEdges(registry, n, d);
        CleanEdgeFalls(registry, byName, n, d);
      }
      var owner, target := CycleClimbs(g, NodeRank, Climbs, n);
    } else {
      forall n, d | d in Succ(g, n) && Climbs(n, d) ensures !Reaches(g, d, n) {
        assert !OnCycle(g, n);
      }
    }
  }

  /** Every scoped dependency is a workspace package. */
  ghost predicate DependenciesKnown(registry: Registry) {
    forall n, d :: n in registry && d in registry[n].dependencies && Scoped(d) ==> d in registry
  }

  /** With the exceptions in use the guard alone decides nothing about cycles; what does is this: in a workspace whose
      audit reports nothing, either graph is acyclic, and so either sort succeeds, exactly when no exception edge's
      target leads back to its owner; and for `computeClosure`, every scoped dependency is in the workspace. */
  lemma CyclesRunThroughExceptions(packages: seq<Package>, sources: map<Node, seq<Import>>, registry: Registry,
                                   names: seq<Node>)
    requires Violations(packages, sources, ByName(packages)) == [] && IsRegistryOf(registry, packages)
    requires Elements(names) == registry.Keys
    ensures forall g :: IsSortGraph(registry, g) ==> (Acyclic(g) <==> NoExceptionLeadsBack(g))
    ensures ComputeClosure(registry, names).Ordered?
            <==> DependenciesKnown(registry) && NoExceptionLeadsBack(DependencyGraph(registry))
    ensures PublishOrder(registry, names).Ordered? <==> NoExceptionLeadsBack(SiblingGraph(registry))
  {
    AuditMeansClean(packages, sources, registry);
    forall g | IsSortGraph(registry, g) ensures Acyclic(g) <==> NoExceptionLeadsBack(g) {
      CleanCyclesRunThroughExceptions(registry, ByName(packages), g);
    }
    assert IsSortGraph(registry, DependencyGraph(registry)) && IsSortGraph(registry, SiblingGraph(registry));
    WholeClosureNeedsAcyclic(registry, names);
    WholeOrderNeedsAcyclic(registry, names);
  }

  /** Sorting a whole graph succeeds exactly when no edge leaves it and it is acyclic. */
  lemma WholeSortNeedsAcyclic(g: Graph, names: seq<Node>)
    requires Elements(names) == g.Keys
    ensures Sort(g, names).Ordered? <==> ClosedUnderSucc(g, g.Keys) && Acyclic(g)
  {
    SortIsExact(g, names);
    forall n | n in g ensures ReachedFrom(g, names, n) {
      assert n in Elements(names);
      ReachesSelf(g, n);
    }
    if ClosedUnderSucc(g, g.Keys) {
      forall n | ReachedFrom(g, names, n) ensures n in g {
        var a :| a in names && Reaches(g, a, n);
        assert a in Elements(names);
        ClosedSetContains(g, g.Keys, a, n);
      }
    }
    if Sort(g, names).Ordered? {
      forall n, m | n in g && m in Succ(g, n) ensures m in g {
        var a :| a in names && Reaches(g, a, n);
        ReachesStep(g, a, n, m);
        assert ReachedFrom(g, names, m);
      }
      forall n ensures !OnCycle(g, n) {
        if n in g {
          assert ReachedFrom(g, names, n);
        }
      }
    }
  }

  lemma WholeClosureNeedsAcyclic(registry: Registry, names: seq<Node>)
    requires Elements(names) == registry.Keys
    ensures ComputeClosure(registry, names).Ordered?
            <==> DependenciesKnown(registry) && Acyclic(DependencyGraph(registry))
  {
    var g := DependencyGraph(registry);
    WholeSortNeedsAcyclic(g, names);
    if ClosedUnderSucc(g, g.Keys) {
      forall n, d | n in registry && d in registry[n].dependencies && Scoped(d) ensures d in registry {
        assert d in Succ(g, n);
        assert d in g.Keys;
      }
    }
  }

  lemma WholeOrderNeedsAcyclic(registry: Registry, names: seq<Node>)
    requires Elements(names) == registry.Keys
    ensures PublishOrder(registry, names).Ordered? <==> Acyclic(SiblingGraph(registry))
  {
    WholeSortNeedsAcyclic(SiblingGraph(registry), names);
  }

  lemma OneName(pkg: Package, name: Node, declaredPeer: bool, byName: map<Node, Package>)
    ensures CheckNames(pkg, [name], declaredPeer, byName) == CheckEdge(pkg, name, None, declaredPeer, byName)
  {
    assert [name][1..] == [];
  }

  lemma ChatAndUiAreClean(chat: Package, ui: Package, byName: map<Node, Package>)
    requires chat == Package("@jini-ai/chat", Manifest([], ["@jini-ai/ui"], false), [], false, None)
    requires ui == Package("@jini-ai/ui", Manifest(["@jini-ai/chat"], [], false), [], false, None)
    ensures ManifestViolations(chat, byName) == [] && ManifestViolations(ui, byName) == []
  {
    TieLayers();
    LayerNamesHaveNoSlash("ui");
    LayerNamesHaveNoSlash("chat");
    assert Local(chat.name) == "chat" && Local(ui.name) == "ui" && Target(ui.name) == "ui"
           && Target(chat.name) == "chat";
    OneName(chat, ui.name, true, byName);
    OneName(ui, chat.name, false, byName);
    assert CheckEdge(chat, ui.name, None, true, byName) == [];
    assert CheckEdge(ui, chat.name, None, false, byName) == [];
  }

  lemma AuditOfTwo(a: Package, b: Package, byName: map<Node, Package>)
    requires ManifestViolations(a, byName) == [] && ManifestViolations(b, byName) == []
    ensures Violations([a, b], map[], byName) == []
  {
    var check := PackageCheck(map[], byName);
    assert check(a) == [] && check(b) == [];
    assert [a, b][1..] == [b] && [b][1..] == [];
    assert FlatMap([b], check) == [];
  }

  lemma RegistryOfTwo(a: Package, b: Package, registry: Registry)
    requires Scoped(a.name) && Scoped(b.name) && a.name != b.name
    requires registry == map[a.name := a.manifest, b.name := b.manifest]
    ensures IsRegistryOf(registry, [a, b])
  {
    assert a in [a, b] && b in [a, b];
  }

  /** The audit reports nothing about `chat` peering on `ui` and `ui` depending on `chat`: a cycle. */
  lemma GuardAcceptsACycle(chat: Package, ui: Package, registry: Registry)
    requires chat == Package("@jini-ai/chat", Manifest([], ["@jini-ai/ui"], false), [], false, None)
    requires ui == Package("@jini-ai/ui", Manifest(["@jini-ai/chat"], [], false), [], false, None)
    requires registry == map[chat.name := chat.manifest, ui.name := ui.manifest]
    ensures Violations([chat, ui], map[], ByName([chat, ui])) == [] && IsRegistryOf(registry, [chat, ui])
    ensures !Acyclic(SiblingGraph(registry))
  {
    assert chat.name != ui.name by {
      assert |chat.name| != |ui.name|;
    }
    RegistryOfTwo(chat, ui, registry);
    ChatAndUiAreClean(chat, ui, ByName([chat, ui]));
    AuditOfTwo(chat, ui, ByName([chat, ui]));
    MutualSiblingsCycle(registry, chat.name, ui.name);
  }

  lemma MutualSiblingsCycle(registry: Registry, a: Node, b: Node)
    requires a in registry && b in registry
    requires (b in registry[a].dependencies || b in registry[a].peers)
             && (a in registry[b].dependencies || a in registry[b].peers)
    ensures OnCycle(SiblingGraph(registry), a)
  {
    var g := SiblingGraph(registry);
    assert b in Succ(g, a) && a in Succ(g, b);
    ReachesSelf(g, a);
    StepReaches(g, b, a, a);
  }

  lemma {:induction false} NoViolationOfImport(pkg: Package, imports: seq<Import>, byName: map<Node, Package>,
                                               imp: Import)
    requires SourceViolations(pkg, imports, byName) == [] && imp in imports
    ensures CheckImport(pkg, imp, byName) == []
  {
    if imp != imports[0] {
      assert imports == [imports[0]] + imports[1..];
      NoViolationOfImport(pkg, imports[1..], byName, imp);
    }
  }

  lemma ImportsAreChecked(packages: seq<Package>, sources: map<Node, seq<Import>>, pkg: Package, imp: Import)
    requires Violations(packages, sources, ByName(packages)) == [] && pkg in packages
             && imp in ImportsOf(sources, pkg.name)
    ensures CheckImport(pkg, imp, ByName(packages)) == []
  {
    NoViolationOf(packages, sources, ByName(packages), pkg);
    NoViolationInParts(pkg, ImportsOf(sources, pkg.name), ByName(packages));
    NoViolationOfImport(pkg, ImportsOf(sources, pkg.name), ByName(packages), imp);
  }

  lemma ImportIsDeclared(pkg: Package, imp: Import, byName: map<Node, Package>)
    requires CheckImport(pkg, imp, byName) == [] && Scoped(imp.spec)
    requires Local(pkg.name) != Target(imp.spec) && !BundledAtBuild(pkg, Target(imp.spec))
    ensures Declares(pkg, Target(imp.spec)) && SCOPE + Target(imp.spec) in byName
  {
    assert SourceProblems(pkg, imp.spec, byName) == [];
  }

  lemma RegistryHolds(packages: seq<Package>, registry: Registry, n: Node)
    requires IsRegistryOf(registry, packages) && n in ByName(packages) && Scoped(n)
    ensures n in registry
  {
    ByNameMembers(packages);
  }

  lemma DeclaredIsSibling(registry: Registry, pkg: Package, target: Node)
    requires pkg.name in registry && registry[pkg.name] == pkg.manifest && target in registry
    requires target in pkg.manifest.dependencies || target in pkg.manifest.peers
    ensures target in Succ(SiblingGraph(registry), pkg.name)
  {
  }

  /** When the audit reports nothing, source depends on no more than the manifests say: every import of another
      package, in any package that does not bundle it at build time, is a manifest edge the sorts walk. */
  lemma AcceptedImportIsDeclared(packages: seq<Package>, sources: map<Node, seq<Import>>, registry: Registry,
                                 pkg: Package, imp: Import)
    requires Violations(packages, sources, ByName(packages)) == [] && IsRegistryOf(registry, packages)
    requires pkg in packages && Scoped(pkg.name) && registry[pkg.name] == pkg.manifest
    requires imp in ImportsOf(sources, pkg.name) && Scoped(imp.spec)
    requires Local(pkg.name) != Target(imp.spec) && !BundledAtBuild(pkg, Target(imp.spec))
    ensures SCOPE + Target(imp.spec) in Succ(SiblingGraph(registry), pkg.name)
  {
    ImportsAreChecked(packages, sources, pkg, imp);
    ImportIsDeclared(pkg, imp, ByName(packages));
    RegistryHolds(packages, registry, SCOPE + Target(imp.spec));
    DeclaredIsSibling(registry, pkg, SCOPE + Target(imp.spec));
  }

  /** `checkPackageLayers`. */
  method CheckPackageLayers(packages: seq<Package>, sources: map<Node, seq<Import>>)
    returns (violations: seq<Violation>)
    ensures violations == Violations(packages, sources, ByName(packages))
    ensures violations == []
            <==> forall p :: p in packages ==> PackageOk(p, ImportsOf(sources, p.name), ByName(packages))
  {
    SilentExactly(packages, sources);
    var audit := new LayerAudit(packages);
    audit.CheckPackages(packages, sources);
    violations := audit.violations;
  }
}
