# Jini: a verified model of the repository's graph, protocol and scanner code

This project models, in Dafny, the algorithms that the repository's release tooling, import audit, example Hosts
and validators rely on, and proves what they promise. Each `.dfy` file is one module; `dafny verify dfyconfig.toml`
checks them all.

Code that changes variables step by step (`computeClosure`, `auditEntry`, the MCP Apps Host, `stripComments`, the
validators) is a class or a method with loops. It is proved equal to a function of its inputs or of its old state, and
the properties are then proved of that function over all inputs or all runs. Where such a function decides something, a
lemma whose name ends in `Exactly` says when it does so in terms of the raw fields, characters or events.

| module | what it models |
|---|---|
| `Graphs`, `Sequences`, `Counters`, `Options` | finite directed graphs, walks, reachability, cycles; filters and other shared helpers |
| `PackageOrder` | the depth-first sort inside `computeClosure` and `publishOrder`, as a function and as the recursive method that grows `order` and `visited` |
| `Packing` | `buildAndPackClosure` and the dependency rewrite |
| `Publish` | the plan, the npm survey, the interruptible upload loop, and series of such runs |
| `Release` | the guard and the release run together |
| `Layers` | the layer table, its exceptions, the edge checks, and how they bear on the sorts' cycle errors |
| `ExportPatterns`, `Sorting` | how `isPublicEntry` picks an export pattern; stable sort followed by find |
| `Isolation`, `Text` | file ownership, the findings of one file, the worklist over the import graph |
| `McpHost` | the Host half of the MCP Apps handshake: messages, timers, the teardown button, session restarts |
| `McpHistory` | what the Host's state says about the whole run that led to it |
| `PluginDirectory` | reading an identity, admission at install time, runs of installs and removals, the live lookup |
| `StripComments` | a token grammar and the character machine that implements it |
| `LineFramer` | newline framing of chunked input |
| `GuardDrift` | the multiset diff against a baseline |
| `PeerRanges` | the pairwise peer range check, and Helly's theorem in one dimension |
| `RenderTree` | the recursive render of a component map that may be cyclic or incomplete |
| `EvalCatalog`, `EvalRuns`, `EvalLabel`, `EvalSuite` | the seed catalogue and its depth gates; the checks on scored runs; the status label over both |

Package names, file paths and component ids are strings. What the code reads from outside is an input of the model:
manifests, import lists, top-level effects, npm states, what `pnpm pack` yields, delivered window messages, which
lines a handler throws on, which ranges `semver` finds valid or intersecting.

## Where the code falls short of what it says

These are properties the code or its comments suggest and the code does not have. Each has a concrete case and the
exact condition under which the property holds.

- The layer guard does not exclude dependency cycles: `chat` may peer on `ui` while `ui` depends on `chat`
  (`Layers.GuardAcceptsACycle`). An accepted workspace is acyclic exactly when the target of no upward exception leads
  back to its owner (`Layers.CyclesRunThroughExceptions`), and that decides whether it can be published
  (`Release.CleanWorkspacePublishes`).
- A publish run narrowed by `--only` can put a package on npm without its peer (`Publish.OnlyCanStrandAPeer`). An upload
  is safe exactly when each sibling is on npm at the start or is itself pending and selected (`Publish.UploadIsSafe`).
- The audit can miss a foreign domain that owns one of the entry's own start files, as when two entries publish one
  file (`Isolation.OwnedStartCanBeMissed`). Its answer about a domain is right, whatever the sources import, exactly
  when none of the entry's start files belongs to that domain (`Isolation.RightExactlyWithoutOwnedStart`).
- The comment on `violationKey` says that its separator avoids collisions. A file or reason that contains `|` can still
  hide a new violation behind a known one (`GuardDrift.BarCanHideAViolation`); counts are exact exactly when keys tell
  the violations apart (`GuardDrift.ExactIffKeysTellApart`).
- With keys that contain two stars the choice of export pattern depends on the order of the keys
  (`ExportPatterns.TwoStarsCanTie`); the verdict is order-free exactly when the key is listed or the tied patterns agree
  (`ExportPatterns.OrderMattersExactlyOnTies`).
- The peer check compares pairs only, so one unsatisfiable range declared by a single package passes
  (`PeerRanges.AcceptedPeerHasOneVersion` names the exact condition), and three `||` ranges can intersect pairwise with
  no common version (`PeerRanges.UnionsBreakTheRule`). With `||` ranges there is a common version exactly when one
  alternative of each declaration can be chosen so that the chosen ones meet pairwise
  (`PeerRanges.UnionsMeetExactly`).
- An iframe that is mounted but has no content window accepts a message whose source is null and sends no reply
  (`McpHost.NullSourceIsAcceptedWithoutReply`); a reply is sent exactly when there is a window
  (`McpHost.ReplyNeedsAWindow`).
- Admission alone does not make the lookup exact: a provider whose id contains a colon can take the key of a legacy
  provider (`PluginDirectory.ColonIdShadowsLegacy`). The lookup is exact exactly when no provider does
  (`PluginDirectory.DirectoryIsExact`), and ids that `readPluginIdentity` yields never do
  (`PluginDirectory.ManifestIdsAreFound`).

## Model

| member | source | states |
|---|---|---|
| PackageOrder.SortIsExact | scripts/lib/pack-jini-packages.ts:110-130 | the sort returns normally exactly when every name reached from the roots is in the registry and none lies on a cycle; the order is then duplicate-free, exactly the names reached, dependencies first; a cycle error carries a real cycle from a root, an unknown name is reached and missing |
| PackageOrder.VisitIsSound | scripts/lib/pack-jini-packages.ts:114-126 | one visit extends a sorted order by what the name reaches, never orders a name still on the chain, and throws only real cycles or missing names |
| PackageOrder.VisitAllIsSound | scripts/publish-pending.ts:70-74 | the same for a list of names visited one after another |
| PackageOrder.SortedIsClosedAndAcyclic | scripts/lib/pack-jini-packages.ts:105-109 | an order with dependencies first contains with each name all that it reaches, and nothing in it is on a cycle |
| PackageOrder.Sorter.Enter | scripts/lib/pack-jini-packages.ts:114-126 | the recursive `visit` over shared `order` and `visited` leaves the specified order or throws the specified error |
| PackageOrder.Sorter.EnterEach | scripts/lib/pack-jini-packages.ts:123-128 | the loop over dependencies or roots does the same for a list |
| PackageOrder.ComputeClosureInPlace | scripts/lib/pack-jini-packages.ts:110-130 | the imperative `computeClosure` is the sort of the scoped dependency graph |
| PackageOrder.PublishOrderInPlace | scripts/publish-pending.ts:61-76 | the imperative `publishOrder` is the sort over dependencies and peers that are workspace packages |
| PackageOrder.EdgesExactly | scripts/lib/pack-jini-packages.ts:36-38 | from the manifests alone: `computeClosure` follows every dependency in the scope, `publishOrder` every dependency or peer that is a workspace package, and neither follows anything else |
| PackageOrder.SiblingsInOrder | scripts/publish-pending.ts:68-70 | siblings are visited dependencies first, in file order, then the peers that are not also dependencies |
| Packing.RewriteDependencies | scripts/lib/pack-jini-packages.ts:165-173 | every scoped dependency becomes `file:` and its sibling's path and all else stays; it fails exactly when a scoped dependency has no tarball, and names one |
| Packing.TarballsExactly | scripts/lib/pack-jini-packages.ts:40-43 | the tarball of `@jini-ai/x` at version v is `jini-ai-x-v.tgz` in the destination directory |
| Packing.ClosureHasTarballs | scripts/lib/pack-jini-packages.ts:205-212 | the closure holds every scoped dependency of its members, so every lookup in it succeeds |
| Packing.Workspace.PackEach | scripts/lib/pack-jini-packages.ts:214-217 | packing succeeds exactly when every package is named as computed and every scoped dependency has a tarball; all manifests are then rewritten |
| Packing.Workspace.LocateEach | scripts/lib/pack-jini-packages.ts:207-212 | the tarball map has exactly the closure as keys and the computed path for each |
| Packing.Workspace.BuildEach | scripts/lib/pack-jini-packages.ts:200-203 | builds up to the first package whose command fails, and names it |
| Packing.Workspace.PackAndRewrite | scripts/lib/pack-jini-packages.ts:138-183 | one package packs exactly when pnpm names the tarball as computed and every scoped dependency has one; its manifest is then rewritten and no other changes |
| Packing.Workspace.BuildAndPackClosure | scripts/lib/pack-jini-packages.ts:192-220 | nothing is built unless the closure sorts; packages are built once each, after their dependencies, up to the first build that fails, and nothing is packed unless all succeed; if `pnpm pack` keeps to the manifests packing then cannot fail |
| Packing.Workspace.DeclaredPacks | scripts/lib/pack-jini-packages.ts:166-172 | a packed manifest that adds no scoped dependency finds a tarball for each of its scoped dependencies |
| Publish.WorkspaceOrder | scripts/publish-pending.ts:107-109 | running both sorts over the whole workspace orders exactly the workspace, siblings first |
| Publish.PlanIsExact | scripts/publish-pending.ts:107-111 | the selected packages are exactly the public ones that `--only` names, none twice |
| Publish.PlanRefusedExactly | scripts/publish-pending.ts:104-110 | a plan is refused exactly when peers clash, the workspace does not sort, or `--only` names something that is no public package |
| Publish.RunUploadsExactly | scripts/publish-pending.ts:113-133 | from plan and npm alone: a package is uploaded, once and in plan order, exactly when the run does more than plan, every query was answered, and the package is pending and neither it nor a pending package before it fails |
| Publish.RunErrorExactly | scripts/publish-pending.ts:115-133 | the run throws for the first unanswered query; failing that, unless it only plans, for the first pending package that fails; otherwise for nothing |
| Publish.CleanRunsExactly | scripts/publish-pending.ts:128-133 | `--plan` uploads nothing; a run whose queries are all answered and whose uploads all succeed uploads every selected pending package once and throws nothing |
| Publish.SkipRowsExactly | scripts/publish-pending.ts:120-124 | a skip row is written for exactly the packages asked about that are not pending, with their state |
| Publish.PlanPutsSiblingsFirst | scripts/publish-pending.ts:55-76 | filtering by privacy and `--only` keeps every selected sibling before the package that needs it |
| Publish.UploadIsSafe | scripts/publish-pending.ts:113-133 | before an upload all siblings are on npm exactly when each was there at the start or is pending and selected |
| Publish.EveryPrefixIsSafe | scripts/publish-pending.ts:55-60 | with no private and no never-published siblings, and no `--only` or one that leaves out no sibling still missing from npm, after any number of uploads every uploaded package has all its siblings on npm |
| Publish.RerunResumes | scripts/publish-pending.ts:113-125 | after a stop a second run finds exactly the remaining pending packages, in the same order, none twice |
| Publish.SeriesNeverRepeats | scripts/publish-pending.ts:101-137 | over any series of runs, each with its own `--only` and stopped anywhere, no package is uploaded twice, only packages pending at the start are, and npm is what the uploads make of it |
| Publish.SeriesResumes | scripts/publish-pending.ts:113-133 | runs that select the same packages together upload a prefix of the first run's pending packages, in order |
| Publish.SeriesIsSafe | scripts/publish-pending.ts:55-60 | over any such series, after every single upload, each package uploaded so far has all its siblings on npm, as long as every `--only` keeps the siblings that were missing from npm at the start |
| Publish.OnlyCanStrandAPeer | scripts/publish-pending.ts:110-111 | concrete workspace where `--only` uploads a package whose peer is not on npm |
| Publish.Publisher.Survey | scripts/publish-pending.ts:113-125 | asks in order up to the first query that fails other than by a 404, and names that package; otherwise collects exactly the pending packages in order and one skip row for each other package |
| Publish.Publisher.Upload | scripts/publish-pending.ts:129-133 | the loop uploads up to the first failing package: uploads, npm and rows grow by exactly that prefix, and the error names the failing package |
| Publish.Publisher.Select | scripts/publish-pending.ts:104-109 | the checks before npm is asked, in order: peers, both sorts, unknown `--only` names |
| Publish.Publisher.ParseOnly | scripts/publish-pending.ts:46-53 | keeps the public packages and of them the named ones, in order; a name that is no public package is refused |
| Publish.Publisher.PublishPending | scripts/publish-pending.ts:101-137 | a refused plan changes nothing; `--plan` uploads nothing and leaves npm alone; otherwise exactly the packages the plan selects and the run reaches are uploaded, each once, and stand on npm, all else is unchanged; nothing is thrown exactly when every query is answered and, unless only planning, no selected pending package fails |
| Layers.AcceptedEdgeFalls | scripts/check-package-layers.ts:117-121 | an accepted manifest edge strictly lowers the rank (layer, then same-layer tie) exactly when it is no upward exception |
| Layers.AuditMeansClean | scripts/check-package-layers.ts:212-216 | an audit that reports nothing leaves every package's manifest without violations |
| Layers.CleanWorkspaceSorts | scripts/check-package-layers.ts:156-217 | a workspace whose audit reports nothing and that uses no upward exception has acyclic dependency and sibling graphs, so neither sort throws a cycle |
| Layers.CyclesRunThroughExceptions | scripts/check-package-layers.ts:88-121 | in a workspace whose audit reports nothing, the dependency graph and the sibling graph are each acyclic exactly when no exception edge's target leads back to its owner; so `publishOrder` succeeds exactly then, and `computeClosure` exactly when moreover every scoped dependency is in the workspace |
| Layers.FirstClimb | scripts/check-package-layers.ts:117-121 | along a walk either some edge climbs or the rank has fallen |
| Layers.GuardAcceptsACycle | scripts/check-package-layers.ts:88-91 | concrete workspace of two packages about which the audit reports nothing and whose graph is cyclic |
| Layers.AcceptedImportIsDeclared | scripts/check-package-layers.ts:139-148 | when the audit reports nothing, every import of another package is an edge of the manifest graph, unless the package bundles its sources |
| Layers.LayerAudit.Check | scripts/check-package-layers.ts:164-185 | `check` appends exactly the specified violations, with its three early returns |
| Layers.LayerAudit.CheckManifest | scripts/check-package-layers.ts:186-195 | a manifest's violations: the unlisted package, then dependencies, then peers |
| Layers.LayerAudit.CheckSources | scripts/check-package-layers.ts:196-211 | the violations of all production imports, in order |
| Layers.LayerAudit.CheckPackages | scripts/check-package-layers.ts:212-216 | the whole audit is the concatenation over the packages |
| Layers.CheckPackageLayers | scripts/check-package-layers.ts:156-217 | the exported function reports exactly the specified violations; it reports nothing exactly when every package is listed and all its manifest edges and imports satisfy the written-out rules |
| Layers.ManifestEdgeExactly | scripts/check-package-layers.ts:164-185 | over raw names: a scoped manifest edge is clean exactly when both ends are listed, it is not between mcp and oauth, and the target is lower, one of the three same-layer pairs, a React peer under its peer condition, or a reviewed leaf named by the package itself |
| Layers.EarlyReports | scripts/check-package-layers.ts:165-178 | what each early return of `check` reports |
| Layers.TargetOf | scripts/check-package-layers.ts:166-167 | the package a scoped specifier enters is its first segment behind the scope |
| Layers.ImportExactly | scripts/check-package-layers.ts:164-185 | the same for an import, with the source-path conditions of each exception, the self-import rule, the browser-platform rule and the declaration rule |
| Layers.PackageExactly | scripts/check-package-layers.ts:186-211 | a package reports nothing exactly when it is listed and all its dependencies, peers and imports are clean in that sense |
| Layers.SilentExactly | scripts/check-package-layers.ts:212-216 | and the whole audit exactly when every package is |
| Layers.ManifestReports | scripts/check-package-layers.ts:171-182 | which violation a manifest edge reports when it is not clean |
| Layers.ImportReports | scripts/check-package-layers.ts:127-148 | which violations an import reports when it is not clean |
| Release.PlanNeedsAcyclic | scripts/publish-pending.ts:104-111 | a plan for the whole workspace exists exactly when its scoped dependencies are in the workspace and its sibling graph is acyclic |
| Release.CleanWorkspacePublishes | scripts/publish-pending.ts:104-111 | when the guard reports nothing, the release run can order the workspace exactly when every scoped dependency is in it and no upward exception's target leads back to its owner |
| ExportPatterns.ChosenIsMostSpecific | scripts/check-package-layers.ts:55-60 | sorting and finding yields a matching pattern than which no matching pattern is more specific, and none only if none matches |
| ExportPatterns.MostSpecificIsUnique | scripts/check-package-layers.ts:56-60 | two one-star patterns that are most specific for one subpath are the same key |
| ExportPatterns.OrderIsIrrelevant | scripts/check-package-layers.ts:44-62 | with one-star keys the verdict does not depend on the order of the keys |
| ExportPatterns.OrderMattersExactlyOnTies | scripts/check-package-layers.ts:54-61 | for any keys the verdict is order-free exactly when the subpath is a key or the most specific patterns agree on being null |
| ExportPatterns.TwoStarsCanTie | scripts/check-package-layers.ts:57-60 | concrete two-star keys whose order decides the verdict |
| ExportPatterns.ExactKeyDecides | scripts/check-package-layers.ts:54 | a listed key decides alone; a null one beats every pattern |
| ExportPatterns.MatchIsAStretch | scripts/check-package-layers.ts:57-60 | a one-star pattern matches exactly when some nonempty stretch stands in for the star; with more stars, when the stretch covers what lies between the two pieces compared |
| ExportPatterns.CodeMatchesLikeNode | scripts/check-package-layers.ts:57-60 | with one star the code's test is Node's own (PACKAGE_IMPORTS_EXPORTS_RESOLVE in the 'Resolution Algorithm Specification' section of the Node.js ESM documentation) |
| ExportPatterns.PublicEntriesExactly | scripts/check-package-layers.ts:48-54 | a specifier of the package is public exactly when the package has exports, no segment between the slashes of the subpath is `.`, `..` or `node_modules`, and `.` plus the subpath is exported |
| ExportPatterns.ExportedExactly | scripts/check-package-layers.ts:54-61 | over the characters of the keys: a listed key is exported unless its target is null; for any other key the pattern decides that fits it, has most text before its star, then most text in all, and is listed first among equals |
| Sorting.SortThenFind | scripts/check-package-layers.ts:55-60 | stable sort followed by find is the first maximal match |
| Sorting.SortPermutes | scripts/check-package-layers.ts:55-56 | the sort is a permutation |
| Sorting.SortKeepsTies | scripts/check-package-layers.ts:55-56 | elements that tie keep their order |
| Sorting.BestIsLeftmost | scripts/check-package-layers.ts:55-60 | the match found is the leftmost: every match before it in the list comes strictly after it in the order |
| Sorting.BestIsMaximal | scripts/check-subpath-isolation.ts:179-191 | that match has the property, and nothing with the property comes before it |
| Isolation.OwnerIsMostSpecific | scripts/check-subpath-isolation.ts:184-193 | outside the shared paths the owner is the root lying inside every other root that contains the file; with no root, core or nobody |
| Isolation.SharedIsCore | scripts/check-subpath-isolation.ts:188 | a file in a shared directory belongs to core |
| Isolation.SharedExactly | scripts/check-subpath-isolation.ts:185-188 | which files those are: at or below a shared path other than the core directory, or the contracts directory |
| Isolation.RootsExactly | scripts/check-subpath-isolation.ts:157-168 | the roots loaded are exactly the root path of each file of each entry that is no aggregate, and the directory of the same name where there is one |
| Isolation.RootPathExactly | scripts/check-subpath-isolation.ts:153-156 | the root path is the folder of an index or entry file unless that is `src`, else the file |
| Isolation.SuccessorsExactly | scripts/check-subpath-isolation.ts:256-290 | from imports and exports alone: t succeeds a code file exactly when one of its runtime imports is relative and resolves to t, or names a workspace package that exports t at that subpath |
| Isolation.FileFindingsExactly | scripts/check-subpath-isolation.ts:292-316 | from the inputs alone: which findings one file of the closure reports, of every kind, and no others |
| Isolation.PackageNameExactly | scripts/check-subpath-isolation.ts:62-64 | the package of a specifier is its text up to the first slash, or up to the second when it starts with an at sign |
| Isolation.DependenciesExactly | scripts/check-subpath-isolation.ts:268-270 | the packages recorded are exactly those named by runtime imports that are neither relative, `node:` nor `#` |
| Isolation.CodeFilesExactly | scripts/check-subpath-isolation.ts:337 | which file names are read for imports |
| Isolation.CodeImportsExactly | scripts/check-subpath-isolation.ts:260 | which relative specifiers must resolve |
| Isolation.AggregateExactly | scripts/check-subpath-isolation.ts:318-325 | an aggregate entry is reported exactly when the visited files of its package belong to two different domains other than core |
| Isolation.CrossingIffEntersDomain | scripts/check-subpath-isolation.ts:279-290 | a crossing finding names domain d exactly when some edge of the closure enters d |
| Isolation.CrossingDecidesReach | scripts/check-subpath-isolation.ts:279-290 | when no start file belongs to d, a crossing finding names d exactly when the closure contains a file of d |
| Isolation.FirstEntry | scripts/check-subpath-isolation.ts:283-286 | a path from outside d to a file of d has an edge entering d, however often it leaves and returns |
| Isolation.RightExactlyWithoutOwnedStart | scripts/check-subpath-isolation.ts:279-290 | for a given package and entry, whatever the sources import, the audit's answer about d is right exactly when no start file of the entry belongs to d |
| Isolation.OwnedStartCanBeMissed | scripts/check-subpath-isolation.ts:152-168 | concrete package whose two entries publish one file: by the loader's own roots the first owns it, and the second entry's audit never names that domain |
| Isolation.TurnKeepsInvariant | scripts/check-subpath-isolation.ts:333-339 | popping any pending file keeps the worklist invariant |
| Isolation.TurnLowersMeasure | scripts/check-subpath-isolation.ts:333-339 | every turn lowers (files not yet visited, files pending), on cyclic graphs too |
| Isolation.WorkEnds | scripts/check-subpath-isolation.ts:327-348 | an emptied worklist has visited exactly the least set that contains the starts and is closed under runtime imports |
| Isolation.AnyOrderGivesTheClosure | scripts/check-subpath-isolation.ts:333-334 | whatever order files are popped in, the visited files are the closure |
| Isolation.Audit.Add | scripts/check-subpath-isolation.ts:247-255 | a finding is appended once |
| Isolation.Audit.EnqueueTargets | scripts/check-subpath-isolation.ts:279-290 | reports exactly the crossing targets and queues every target |
| Isolation.Audit.AuditRef | scripts/check-subpath-isolation.ts:309-315 | one runtime import: findings in the code's order, targets queued, dependency recorded |
| Isolation.Audit.AuditFile | scripts/check-subpath-isolation.ts:299-316 | one code file: effects, then its runtime imports; queued are its successors in the import graph |
| Isolation.Audit.Walk | scripts/check-subpath-isolation.ts:333-339 | the loop ends with nothing pending and its invariant intact |
| Isolation.Audit.AuditEntry | scripts/check-subpath-isolation.ts:327-348 | visits exactly the least set that contains the entry's files and is closed under the imports of its code files, as read from imports and exports; collects exactly the packages imported there, and adds exactly the findings of its code files, the missing source and the mixed aggregate |
| Text.RootsNest | scripts/check-subpath-isolation.ts:65-67 | of two directories that contain one path the longer lies inside the other |
| McpHost.EveryRunFits | examples/reference-web/src/McpUiLabHost.tsx:97-171 | in every run a teardown waiter and its timer exist exactly while tearing down and carry the newest id, the initialized timer is armed exactly while awaiting it, no other timer is armed; the log holds the newest at most 300 entries, numbered without gaps |
| McpHost.StepSummary | examples/reference-web/src/McpUiLabHost.tsx:132-259 | what one step posts, which phase follows, when a teardown id is spent |
| McpHost.SessionMovesForward | examples/reference-web/src/McpUiLabHost.tsx:152-229 | within a session the phase only moves forward, and timed-out and torn-down are final |
| McpHost.NumbersAreConsecutive | examples/reference-web/src/McpUiLabHost.tsx:93-134 | teardown numbers are consecutive over a run, across restarts |
| McpHost.IssuedIdsAreDistinct | examples/reference-web/src/McpUiLabHost.tsx:134 | no teardown id is issued twice, across restarts too |
| McpHost.ResponseAcknowledges | examples/reference-web/src/McpUiLabHost.tsx:248-259 | a response acknowledges exactly when the Host is tearing down and the id is the newest issued; any other only logs |
| McpHistory.AcknowledgedExactly | examples/reference-web/src/McpUiLabHost.tsx:132-149 | over every run: the teardown is acknowledged, or not, exactly when one began in this session and the first event to end its wait was an accepted response to its id without an error, or else with one, or its timeout |
| McpHistory.TeardownPhasesExactly | examples/reference-web/src/McpUiLabHost.tsx:132-149 | over every run: tearing down exactly while such a wait lasts, torn down exactly when there is a verdict |
| McpHistory.SizeExactly | examples/reference-web/src/McpUiLabHost.tsx:172-178 | over every run: the size is the last one that a heard size-changed notification of this session carried, if any |
| McpHistory.LogExactly | examples/reference-web/src/McpUiLabHost.tsx:97-109 | over every run: the log holds the newest 300 notes of the session in order, each event noting exactly what is written out for it |
| McpHistory.PhasesExactly | examples/reference-web/src/McpUiLabHost.tsx:160-229 | when each phase of the handshake is entered, kept and left, by what is heard and which timer expires |
| McpHistory.HandshakeTimerExactly | examples/reference-web/src/McpUiLabHost.tsx:221-226 | the handshake timer is started with the reply to `ui/initialize` and stays the same while `initialized` is awaited |
| McpHistory.PostsExactly | examples/reference-web/src/McpUiLabHost.tsx:187-246 | everything a step posts: result, invalid request or method not found to a request that is heard, a teardown request when one begins, each only to a window |
| McpHistory.HearsExactly | examples/reference-web/src/McpUiLabHost.tsx:261-272 | only a JSON-RPC message from the View's window and origin is heard; from another window nothing changes, otherwise only the log |
| McpHistory.FrameExactly | examples/reference-web/src/McpUiLabHost.tsx:123-126 | the frame is the one attached last |
| McpHistory.OriginExactly | examples/reference-web/src/McpUiLabHost.tsx:264 | the origin compared is the one of the last session start |
| McpHistory.DecimalReads | examples/reference-web/src/McpUiLabHost.tsx:134 | the number in a teardown id is decimal, has no leading zero and reads back as the number |
| McpHost.EarlierTeardownIsIgnored | examples/reference-web/src/McpUiLabHost.tsx:248-259 | a response to a teardown of an earlier session never acknowledges the current one |
| McpHost.OneReplyPerRequest | examples/reference-web/src/McpUiLabHost.tsx:158-284 | with the window attached, the replies of any run are one per accepted request, in order, with its id, and notifications and responses get none (sections 4.1 and 5 of the JSON-RPC 2.0 Specification) |
| McpHost.ReplyNeedsAWindow | examples/reference-web/src/McpUiLabHost.tsx:123-130 | in general an accepted request is answered exactly when the iframe has a window |
| McpHost.NullSourceIsAcceptedWithoutReply | examples/reference-web/src/McpUiLabHost.tsx:261-263 | concrete accepted request that gets no reply |
| McpHost.SessionTraffic | examples/reference-web/src/McpUiLabHost.tsx:187-246 | a session's posts are refusals, at most one result, refusals, methodNotFound while ready, at most one teardown request, refusals |
| McpHost.SessionDiscipline | examples/reference-web/src/McpUiLabHost.tsx:187-246 | at most one success result per session, methodNotFound and the teardown request only after it, nothing but refusals after the teardown request |
| McpHost.McpUiLabHost.AskTeardown | examples/reference-web/src/McpUiLabHost.tsx:132-149 | the handler's whole effect on state, refs, timers and posts |
| McpHost.McpUiLabHost.HandleViewNotification | examples/reference-web/src/McpUiLabHost.tsx:158-185 | the same for notifications |
| McpHost.McpUiLabHost.HandleViewRequest | examples/reference-web/src/McpUiLabHost.tsx:187-246 | the same for requests |
| McpHost.McpUiLabHost.HandleViewResponse | examples/reference-web/src/McpUiLabHost.tsx:248-259 | the same for responses |
| McpHost.McpUiLabHost.Receive | examples/reference-web/src/McpUiLabHost.tsx:261-284 | which window messages are ours, which are dropped with a log entry, and which handler runs |
| McpHost.McpUiLabHost.TimerFires | examples/reference-web/src/McpUiLabHost.tsx:139-147 | an armed timer runs its callback and a cleared one does nothing; a teardown timeout leaves the teardown unacknowledged |
| McpHost.McpUiLabHost.BeginSession | examples/reference-web/src/McpUiLabHost.tsx:151-290 | cleanup and restart: both timers cleared, session state reset, counters kept |
| McpHost.McpUiLabHost.Handle | examples/reference-web/src/McpUiLabHost.tsx:132-290 | every event changes the object as the step function says |
| PluginDirectory.ReadIdentityIsExact | packages/core/plugin-directory.js:26-31 | the id read is the declared one, which is never under `unknown/`, or the legacy one, and has no colon |
| PluginDirectory.ReadsExactly | packages/core/plugin-directory.js:16-79 | reading succeeds exactly when objects stand where objects are due, the id is absent or a publisher's own, the capabilities are absent or all well formed, and a manifest without an id has a plain name |
| PluginDirectory.DeclaredIdsExactly | packages/core/plugin-directory.js:3-12 | a declared id is publisher, slash and name, each runs of letters and digits joined by single dots or hyphens, at most 129 characters |
| PluginDirectory.CapabilitiesExactly | packages/core/plugin-directory.js:8-13 | a capability is one such segment, or two around a colon, at most 129 characters |
| PluginDirectory.AssertIdentityAvailable | packages/core/plugin-directory.js:102-108 | nothing is thrown exactly when every installed provider is compatible in its raw fields: in the candidate's slot the same id or its legacy fallback, elsewhere another id or two legacy ids of different families; otherwise the first incompatible one decides the error |
| PluginDirectory.ConflictNames | packages/core/plugin-directory.js:110-122 | which error an incompatible provider causes: a publisher change in the slot, a duplicate id elsewhere |
| PluginDirectory.InstallExactly | packages/core/plugin-directory.js:102-108 | an install whose candidate is compatible with everything installed takes its own slot and leaves the others alone; any other install changes nothing |
| PluginDirectory.UpgradeIsAdmitted | packages/core/plugin-directory.js:94-95 | a plugin can be upgraded in its own slot, and a legacy one there can take a publisher id nobody holds |
| PluginDirectory.AdmissionIgnoresOrder | packages/core/plugin-directory.js:102-122 | the verdict depends on what is installed, not on the order it is listed in |
| PluginDirectory.StepKeepsAdmitted | packages/core/plugin-directory.js:110-122 | whatever ids candidates carry, an admitted install keeps an id from being held twice, but for legacy ids in different families |
| PluginDirectory.RunIsAdmitted | packages/core/plugin-directory.js:94-122 | so does every run of installs and removals |
| PluginDirectory.SlotIdSettles | packages/core/plugin-directory.js:94-96 | while a slot stays installed its id is the first one, or changed from the legacy id |
| PluginDirectory.SlotIdChangesOnce | packages/core/plugin-directory.js:94-114 | a slot's id changes at most once along a run, from `unknown/localId` to a declared publisher |
| PluginDirectory.SharedKeyShadows | packages/core/plugin-directory.js:155 | two admitted providers share a lookup key exactly when one takes the key of the other, a legacy one |
| PluginDirectory.Snapshot | packages/core/plugin-directory.js:150-164 | the dedup loop keeps the first provider of each key and warns once for each other |
| PluginDirectory.KeepsFirst | packages/core/plugin-directory.js:154-162 | a provider is kept exactly when none before it has its key |
| PluginDirectory.KeysExactly | packages/core/plugin-directory.js:155 | when two providers have the same key, in terms of their ids and families |
| PluginDirectory.SnapshotIsComplete | packages/core/plugin-directory.js:150-164 | in any admitted directory and any listing order the snapshot drops nothing exactly when no legacy provider is shadowed |
| PluginDirectory.FoundExactlyWhenUnshadowed | packages/core/plugin-directory.js:171-174 | every provider is found by its id and family exactly when no legacy provider is shadowed |
| PluginDirectory.GetPluginIsExact | packages/core/plugin-directory.js:171-174 | `getPlugin` yields p exactly when p is the only provider with that id and family |
| PluginDirectory.EveryProviderIsFound | packages/core/plugin-directory.js:171-174 | each provider is found by id and family; by id alone it is missed only for a legacy id that two families hold |
| PluginDirectory.DirectoryIsExact | packages/core/plugin-directory.js:102-178 | after any run of admitted installs and removals from an empty directory: nothing is dropped, and every provider is found by id and family, exactly when none is shadowed; then an id alone fails only where two families hold the same legacy id |
| PluginDirectory.ManifestIdsAreFound | packages/core/plugin-directory.js:61-79 | ids read from manifests shadow nobody, so after any run of such installs nothing is dropped and every provider is found |
| PluginDirectory.FindProvidersIsComplete | packages/core/plugin-directory.js:175-177 | `findProviders` yields exactly the installed providers with the capability, enabled ones only on request |
| PluginDirectory.ColonIdShadowsLegacy | packages/core/plugin-directory.js:155-158 | concrete pair of providers that admission accepts and the snapshot cannot tell apart |
| StripComments.TokenizeIsGrammatical | scripts/lib/walk-imports.ts:78-81 | every source has a reading as code characters, literals, line and block comments |
| StripComments.GrammarIsUnambiguous | scripts/lib/walk-imports.ts:78-81 | and only one |
| StripComments.StripRefinesGrammar | scripts/lib/walk-imports.ts:88-134 | the stripper writes the source's tokens in order, code and literals verbatim, comments blanked |
| StripComments.FitsExactly | scripts/lib/walk-imports.ts:61-76 | the tokens, character by character: a literal goes on to the first quote of its kind with an even number of backslashes before it, a line comment to a newline, a block comment to the first closing mark, or each to the end |
| StripComments.WellFormedExactly | scripts/lib/walk-imports.ts:88-134 | a reading is well formed exactly when each token is such a one in front of the rest |
| StripComments.StripExactly | scripts/lib/walk-imports.ts:78-81 | however a source is read, a character of a comment that is no newline becomes a space and every other character is kept |
| StripComments.StripKeepsPositions | scripts/lib/walk-imports.ts:78-81 | same length, newlines at the same indices, every other character kept or made a space |
| StripComments.StripIsIdempotent | scripts/lib/walk-imports.ts:88-134 | stripping twice is stripping once |
| StripComments.NoNewComment | scripts/lib/walk-imports.ts:61-66 | blanking never creates a comment start |
| StripComments.Stripper.ConsumeCode | scripts/lib/walk-imports.ts:94-109 | the handler takes the step the machine specifies from code |
| StripComments.Stripper.ConsumeCharacter | scripts/lib/walk-imports.ts:110-131 | the handler takes the specified step from any mode |
| StripComments.Stripper.Run | scripts/lib/walk-imports.ts:132-133 | the loop produces the specified text |
| StripComments.StripCommentsInPlace | scripts/lib/walk-imports.ts:88-134 | the whole function is the machine run from code mode, and blanks exactly the comment characters of any reading of the source |
| LineFramer.Framer.OnData | examples/minimal-host/src/acp-fixture.ts:42-51 | for any way to write buffer and chunk as newline-ended lines and a tail, one chunk hands over the nonempty lines, up to a line the handler throws on, and keeps the tail |
| LineFramer.DrainIsOutcome | examples/minimal-host/src/acp-fixture.ts:44-50 | the loop, turn by turn, comes to the nonempty complete lines up to the first one that throws, and leaves the text after the last newline |
| LineFramer.FeedAll | examples/minimal-host/src/acp-fixture.ts:42-51 | a framer given any number of chunks ends in the state `Feed` names; the lines handed over and the buffer are those of the framing of the concatenated text |
| LineFramer.EffectOfTwo | examples/minimal-host/src/acp-fixture.ts:43-50 | text in two pieces has the effect of the first, then of its unread tail with the second |
| LineFramer.ChunkingIsIrrelevant | examples/minimal-host/src/acp-fixture.ts:42-51 | for two splittings of one text that state has the same lines, the same survival and the same buffer |
| LineFramer.NothingIsLost | examples/minimal-host/src/acp-fixture.ts:45-48 | lines and tail put together again are the text |
| LineFramer.FramedExactly | examples/minimal-host/src/acp-fixture.ts:43-48 | a text is newline-ended lines and a tail without newline in exactly one way, and that is how it is cut |
| LineFramer.OutcomeExactly | examples/minimal-host/src/acp-fixture.ts:44-50 | the outcome is the only one in which the nonempty lines before the first that throws are handed over |
| GuardDrift.CountByKey | scripts/check-guard-drift.ts:63-70 | the map counts each key |
| GuardDrift.Surplus | scripts/check-guard-drift.ts:90-101 | one direction of the diff keeps the occurrences that as many equal keys precede as the other side has |
| GuardDrift.DiffAgainstBaseline | scripts/check-guard-drift.ts:86-117 | both directions |
| GuardDrift.SurplusCount | scripts/check-guard-drift.ts:90-101 | per key the result counts exactly how far the list exceeds the allowance |
| GuardDrift.DiffBalances | scripts/check-guard-drift.ts:72-79 | added and removed are both differences, baseline plus added equals current plus removed, and no key is in both |
| GuardDrift.SurplusIsTheTail | scripts/check-guard-drift.ts:96-97 | the k-th occurrence of a key is reported exactly when k exceeds what the other side has of it |
| GuardDrift.PruningSettles | scripts/check-guard-drift.ts:76-78 | deleting the removed counts from the baseline leaves added unchanged and removed empty |
| GuardDrift.ExactIffKeysTellApart | scripts/check-guard-drift.ts:55-61 | a diff misses no violation exactly when keys tell the violations apart |
| GuardDrift.BarFreeKeysTellApart | scripts/check-guard-drift.ts:59-61 | rules and files without `|` suffice for that |
| GuardDrift.BarCanHideAViolation | scripts/check-guard-drift.ts:55-61 | concrete new violation hidden behind a known one with the same key |
| PeerRanges.PeerConflicts | scripts/lib/peer-range-compatibility.ts:17-28 | reports every pair without a common version and nothing else |
| PeerRanges.AllConflicts | scripts/lib/peer-range-compatibility.ts:48 | the conflicts of all peers together |
| PeerRanges.GroupingExtends | scripts/lib/peer-range-compatibility.ts:41-46 | grouping one package appends its declarations to each peer's list in order |
| PeerRanges.AssertCompatiblePeerRanges | scripts/lib/peer-range-compatibility.ts:34-50 | accepts exactly when every public range is valid and no two entries for one peer, in the order of packages and entries, lack a common version; otherwise names the first invalid public range or exactly the disagreeing pairs |
| PeerRanges.ClashesExactly | scripts/lib/peer-range-compatibility.ts:37-46 | the clashes among the collected declarations are exactly the disagreements between entries of public manifests |
| PeerRanges.ValidExactly | scripts/lib/peer-range-compatibility.ts:40-42 | ranges count as valid exactly when those of all entries of public manifests are |
| PeerRanges.Helly | scripts/lib/peer-range-compatibility.ts:17-28 | any number of intervals over a total order that meet pairwise have a common point |
| PeerRanges.AcceptedPeerHasOneVersion | scripts/lib/peer-range-compatibility.ts:30-33 | with interval ranges an accepted peer has one version for all declarations exactly when it is not a single unsatisfiable declaration |
| PeerRanges.UnionsMeetExactly | scripts/lib/peer-range-compatibility.ts:24 | a peer whose ranges are unions of intervals has one version for all declarations exactly when one alternative of each can be chosen so that the chosen ones meet pairwise, each also with itself |
| PeerRanges.UnionsBreakTheRule | scripts/lib/peer-range-compatibility.ts:24 | concrete `||` ranges that meet pairwise and not together |
| RenderTree.PathsAreSimple | examples/reference-web/src/A2uiLab.tsx:76-95 | a path of the rendered tree is a walk of the component graph on which no id repeats before a cycle placeholder |
| RenderTree.PathsEndInCycles | examples/reference-web/src/A2uiLab.tsx:76-82 | a path ends at a cycle placeholder exactly when its last id is an ancestor or has been passed |
| RenderTree.CyclePlaceholderIffCycle | examples/reference-web/src/A2uiLab.tsx:76-82 | a cycle placeholder appears exactly when a component reached from the root lies on a cycle |
| RenderTree.MissingPlaceholderIffMissing | examples/reference-web/src/A2uiLab.tsx:83-91 | a missing placeholder appears exactly when an id reached from the root is missing |
| RenderTree.CleanWalks | examples/reference-web/src/A2uiLab.tsx:76-95 | without a cycle placeholder no walk from the root repeats a component |
| RenderTree.MissingIsFound | examples/reference-web/src/A2uiLab.tsx:105-144 | a walk to a missing id without earlier repeats shows up as a placeholder |
| RenderTree.RenderExactly | examples/reference-web/src/A2uiLab.tsx:62-151 | what is rendered is the one tree with that root in which every node fits its component and the ids above it, with one item for each child in order |
| RenderTree.ShownChildrenExactly | examples/reference-web/src/A2uiLab.tsx:105-144 | the children shown are those a container lists and a button's one child |
| EvalCatalog.CheckRows | AI-Dev-Shop/harness-engineering/validators/validate_eval_suite.py:405-651 | no row error exactly when ids are nonempty and distinct and every row is well formed and sits in a cell of the matrix that is not pruned and agrees with it; the control counts and the cells used are then exact |
| EvalCatalog.CheckCells | AI-Dev-Shop/harness-engineering/validators/validate_eval_suite.py:652-659 | reports exactly the required cells that no row uses |
| EvalCatalog.AcceptedCatalogFitsMatrix | AI-Dev-Shop/harness-engineering/validators/validate_eval_suite.py:536-562 | an accepted catalogue uses every required cell and no pruned or unknown one, and so has at least as many seeds as there are required cells |
| EvalCatalog.CountDimensions | AI-Dev-Shop/harness-engineering/validators/validate_eval_suite.py:693-697 | counts each dimension over all rows but the negative controls |
| EvalCatalog.ValidateSeedCatalog | AI-Dev-Shop/harness-engineering/validators/validate_eval_suite.py:405-708 | no error exactly when the catalogue meets every condition, counted over its rows: ids, rows, coverage cells, controls, one negative for every 15% of the standard seeds, 8 seeds for each dimension measured |
| EvalCatalog.CatalogExactly | AI-Dev-Shop/harness-engineering/validators/validate_eval_suite.py:405-708 | the counters' conditions are those conditions on the rows themselves |
| EvalCatalog.ComputeDepthReadiness | AI-Dev-Shop/harness-engineering/validators/validate_eval_suite.py:711-786 | ready exactly when the shares of the depth-eligible seeds keep within every tier, staff+, shallow-hard and concept bound |
| EvalCatalog.DepthExactly | AI-Dev-Shop/harness-engineering/validators/validate_eval_suite.py:711-786 | the integer comparisons are those bounds on real shares over sets of rows, with the stricter table exactly when some agent is an architect or does code review |
| EvalCatalog.MentionsExactly | AI-Dev-Shop/harness-engineering/validators/validate_eval_suite.py:731-734 | how often a concept counts: the places where a staff+ seed names it, if it is in the taxonomy |
| EvalCatalog.FloorsExactly | AI-Dev-Shop/harness-engineering/validators/validate_eval_suite.py:142-157 | both tables of bounds and when each applies |
| EvalCatalog.TierMinimaImplyStaffPlus | AI-Dev-Shop/harness-engineering/validators/validate_eval_suite.py:142-157 | in exact arithmetic the three tier minima imply the staff+ floor, for both tables |
| EvalCatalog.StaffPlusTestIsRedundant | AI-Dev-Shop/harness-engineering/validators/validate_eval_suite.py:761-766 | so dropping the staff+ test changes no verdict |
| EvalLabel.AcceptedCatalogPassesRepeatedTests | AI-Dev-Shop/harness-engineering/validators/validate_eval_suite.py:1392-1415 | a benchmark catalogue without errors always passes the control, ratio and density tests of `main` |
| EvalLabel.LabelIsExact | AI-Dev-Shop/harness-engineering/validators/validate_eval_suite.py:1422-1440 | given tiers, structure, depth and three runs the label is stable exactly from 54 seeds and benchmark exactly from 36 to 53, otherwise pilot |
| EvalLabel.LabelsExactly | AI-Dev-Shop/harness-engineering/validators/validate_eval_suite.py:1422-1440 | every suite, accepted or not, has exactly the label written out over its rows |
| EvalLabel.AcceptedSuiteLabel | AI-Dev-Shop/harness-engineering/validators/validate_eval_suite.py:1417-1440 | with accepted scored rows and at least three runs asked for there are at least three, and the label is decided by the seeds alone |
| EvalLabel.Tally | AI-Dev-Shop/harness-engineering/validators/validate_eval_suite.py:1390-1409 | the sums and sets over the accepted rows |
| EvalLabel.ComputeLabel | AI-Dev-Shop/harness-engineering/validators/validate_eval_suite.py:1389-1440 | the code's counters and sets lead to the label written out over the rows, the distinct benchmark_full runs and the depth shares |
| EvalRuns.ValidateRunResults | AI-Dev-Shop/harness-engineering/validators/validate_eval_suite.py:1002-1290 | no problem exactly when the rows, as written out, are filled, scored and backed by the manifest, each seed once per run, in enough runs, every full run complete, every large run confirmed |
| EvalRuns.AcceptedExactly | AI-Dev-Shop/harness-engineering/validators/validate_eval_suite.py:1034-1290 | acceptance in terms of the rows themselves |
| EvalRuns.RowsExactly | AI-Dev-Shop/harness-engineering/validators/validate_eval_suite.py:1034-1216 | a row is fine exactly when every column has a known value, the evidence exists, the score fits the seed's control type, and a completed manifest row agrees with it |
| EvalRuns.RunAudit.AuditRow | AI-Dev-Shop/harness-engineering/validators/validate_eval_suite.py:1034-1069 | one row: an empty run, unknown seed or repeated score skips the rest; as long as nothing is reported the counters tally the rows |
| EvalRuns.RunAudit.AuditRows | AI-Dev-Shop/harness-engineering/validators/validate_eval_suite.py:1034-1227 | the row loop reports nothing exactly when all rows are fine and distinct, and then has tallied them |
| EvalRuns.CheckRunCounts | AI-Dev-Shop/harness-engineering/validators/validate_eval_suite.py:1251-1259 | nothing exactly when every target seed is in enough runs |
| EvalRuns.CheckCompleteness | AI-Dev-Shop/harness-engineering/validators/validate_eval_suite.py:1261-1269 | nothing exactly when every full run covers the catalogue |
| EvalRuns.CheckConfirmation | AI-Dev-Shop/harness-engineering/validators/validate_eval_suite.py:1271-1288 | nothing exactly when every manifest row of every large run is confirmed |
| EvalRuns.RowsAreAuditable | AI-Dev-Shop/harness-engineering/validators/validate_eval_suite.py:1155-1178 | every accepted row has a completed manifest row that agrees on scope, mode, agent and model |
| EvalRuns.FullRunScoresEverySeedOnce | AI-Dev-Shop/harness-engineering/validators/validate_eval_suite.py:1261-1269 | in an accepted result a benchmark_full run scores every catalogue seed exactly once, and all its rows are benchmark_full |
| EvalRuns.FullRunHasOneRowPerSeed | AI-Dev-Shop/harness-engineering/validators/validate_eval_suite.py:1060-1069 | so it has exactly as many rows as the catalogue has seeds |
| EvalRuns.SeedsAreScoredOftenEnough | AI-Dev-Shop/harness-engineering/validators/validate_eval_suite.py:1251-1259 | in benchmark mode each seed is scored in at least the required number of distinct runs, each of which covers the whole catalogue exactly once |
| EvalRuns.EnoughFullRuns | AI-Dev-Shop/harness-engineering/validators/validate_eval_suite.py:1417-1419 | an accepted benchmark with any seed has at least the required number of benchmark_full runs |

## Left out

- File system, git, npm, pnpm, tar and network calls: their results are inputs.
- The TypeScript parser and the module-effects scan: import lists and effects are inputs; `optionalPeerContractProblems` is not part of this model.
- Isolation.Audit.Add: findings are records, so two that differ only in a field the code does not print would be one finding there and are two here.
- Isolation.Audit.AuditEntry: closures are sets of absolute paths; the relative, sorted file lists of the report are left out.
- Layers.LayerAudit.Check: does not model a layer lookup of a name on `Object.prototype`, such as `constructor`, nor a dependency whose range is the empty string, which the source check reads as undeclared.
- Packing.Workspace.BuildEach: a build either succeeds or fails; what it produces is left out.
- Layers.CleanWorkspaceSorts: the registry sorted for release is one of the packages the guard audits; that the two directory scans find the same packages is not modelled.
- Packing.Workspace.LocateEach: `join` is concatenation with a slash, and two packages may share a tarball file name, so file names are not claimed to be distinct.
- Publish.Publisher.Upload: the checks on tarball contents are one question, whether the package can be packed and uploaded.
- Publish.Publisher.Survey: a query's answer is one of on npm, pending, never published or failed; how npm's output is read is left out.
- Publish.EveryPrefixIsSafe: assumes that nobody else changes npm during the run; being on npm means being there in the workspace's version, ranges are not evaluated.
- PluginDirectory.Snapshot: the final ordering by `localeCompare`, the copied version and keywords, and keyword warnings are left out; so are concurrent installs.
- McpHost: React batching, unmounting without a restart, log and error texts, and the buffer for early messages, which is not part of this model.
- StripComments: regex literals and template substitutions get no treatment of their own, as in the code.
- PeerRanges.AcceptedPeerHasOneVersion: the `semver` library enters as parameters, and the result assumes that ranges are intervals of a total order.
- PeerRanges.AllConflicts: does not state the order in which the conflicts of different peers are listed.
- RenderTree: React keys and text resolution.
- LineFramer.Framer.OnData: JSON parsing and the ACP replies are left out; whether handling a line throws is a parameter, and a throw ends the process.
- EvalCatalog.ComputeDepthReadiness: shares are compared exactly, without IEEE rounding.
- EvalCatalog.CheckRows: row checks that look at a single row and no cell of the matrix (known bug nature and concepts, complexity category, severity, references, extension columns) enter as one flag per row.
- EvalCatalog.ValidateSeedCatalog: the same flag stands for those checks.
- EvalRuns.ValidateRunResults: the number, order and text of messages are left out; what is stated is exactly when there is none.
- The validators of the manifest, of the coverage matrix's own rows and of the ledger: lists of single-row checks.
