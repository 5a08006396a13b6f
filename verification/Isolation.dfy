/** The subpath isolation audit of `check-subpath-isolation.ts`: the import closure of a package entry, who
    owns each file, and the findings the audit reports on the way. */
module Isolation {
  import opened Options
  import opened Graphs
  import opened Sequences
  import Sorting
  import Text

  const AGGREGATE := "$aggregate"
  const CORE := "core"

  datatype Root = Root(domain: string, path: string)

  /** `roots` are in the audit's order; `forbidden` and `aliases` come from `jini.isolation` and `jini.entries`. */
  datatype Package = Package(name: string, directory: string, roots: seq<Root>, shared: seq<string>,
                             forbidden: map<string, seq<string>>, aliases: map<string, string>)

  datatype Entry = Entry(subpath: string, domain: string, files: seq<Node>, target: string)

  /** An import; `relative` is the source file a relative specifier resolves to, if any. */
  datatype Ref = Ref(specifier: string, typeOnly: bool, relative: Option<Node>)

  /** A package directory with its optional peers, for `checkDefaultLoad`. */
  datatype Host = Host(directory: string, optionalPeers: set<string>)

  /** What the audit reads from disk: imports and top-level effects per file, the source files behind each
      workspace package's exported subpaths, and the package directories, longest first. */
  datatype Sources = Sources(imports: map<Node, seq<Ref>>, effects: map<Node, seq<string>>,
                             exports: map<string, map<string, seq<Node>>>, hosts: seq<Host>)

  datatype Finding =
    | Crossing(package: string, subpath: string, entryDomain: string, file: Node, target: Node, owner: string,
               specifier: string)
    | Forbidden(package: string, subpath: string, file: Node, specifier: string)
    | Unresolved(package: string, subpath: string, file: Node, specifier: string)
    | NoSourceExport(package: string, subpath: string, file: Node, specifier: string)
    | Effect(package: string, subpath: string, file: Node, effect: string)
    | OptionalPeer(package: string, subpath: string, file: Node, peer: string)
    | NoSourceFile(package: string, subpath: string, target: string)
    | Aggregate(package: string, subpath: string, file: Node, domains: set<string>)

  /* ---- who owns a file ---- */

  /** The order `loadPackages` sorts roots into. */
  predicate LongerPath(a: Root, b: Root) {
    |a.path| > |b.path|
  }

  function SortRoots(roots: seq<Root>): seq<Root> {
    Sorting.StableSort(roots, LongerPath)
  }

  function Holds(file: Node): Root -> bool {
    (r: Root) => Text.Inside(file, r.path)
  }

  predicate IsShared(file: Node, pkg: Package) {
    var core, contracts := pkg.directory + "/src/core", pkg.directory + "/src/contracts";
    (exists path :: path in pkg.shared && path != core && path != contracts && Text.Inside(file, path))
      || Text.Inside(file, contracts)
  }

  function Owner(file: Node, pkg: Package): Option<string> {
    if IsShared(file, pkg) then Some(CORE)
    else
      match Sorting.Find(pkg.roots, Holds(file))
      case Some(root) => Some(root.domain)
      case None => if Text.Inside(file, pkg.directory + "/src/core") then Some(CORE) else None
  }

  /** The most specific public owner wins: the root found contains the file and lies inside every other root
      that does, so it is the only one of its length. */
  lemma OwnerIsMostSpecific(file: Node, pkg: Package, roots: seq<Root>)
    requires pkg.roots == SortRoots(roots) && !IsShared(file, pkg)
    ensures var candidates := set r | r in roots && Text.Inside(file, r.path);
            if candidates == {} then Owner(file, pkg) == if Text.Inside(file, pkg.directory + "/src/core")
              then Some(CORE) else None
            else exists r :: r in candidates && Owner(file, pkg) == Some(r.domain)
                             && forall other :: other in candidates ==> Text.Inside(r.path, other.path)
  {
    Sorting.SortThenFind(roots, LongerPath, Holds(file));
    Sorting.BestIsMaximal(roots, LongerPath, Holds(file));
    var best := Sorting.Best(roots, LongerPath, Holds(file));
    var candidates := set r | r in roots && Text.Inside(file, r.path);
    if best.Some? {
      assert best.value in candidates;
      forall other | other in candidates ensures Text.Inside(best.value.path, other.path) {
        assert !LongerPath(other, best.value);
        Text.RootsNest(file, best.value.path, other.path);
      }
    }
  }

  /* ---- the roots entries bring along ---- */

  /** The path up to the last slash. */
  function Directory(file: Node): string {
    if file == "" || file[|file| - 1] == '/' then (if file == "" then "" else file[..|file| - 1])
    else Directory(file[..|file| - 1])
  }

  function WithoutExtension(file: Node): string {
    if Text.EndsWith(file, ".ts") then file[..|file| - 3]
    else if Text.EndsWith(file, ".tsx") || Text.EndsWith(file, ".cts") || Text.EndsWith(file, ".mts")
      then file[..|file| - 4]
    else if Text.EndsWith(file, ".ctsx") || Text.EndsWith(file, ".mtsx") then file[..|file| - 5]
    else file
  }

  predicate IsIndexFile(file: Node) {
    var stem := WithoutExtension(file);
    stem != file && (Text.EndsWith(stem, "/index") || Text.EndsWith(stem, "/entry"))
  }

  /** A file stands for its directory when it is an index file below `src`, otherwise for itself. */
  function RootPath(directory: string, file: Node): string {
    if IsIndexFile(file) && Directory(file) != directory + "/src" then Directory(file) else file
  }

  /** `directories` are the directories that exist beside files of the same name. */
  function FileRoots(directory: string, domain: string, file: Node, directories: set<string>): seq<Root> {
    [Root(domain, RootPath(directory, file))]
    + if WithoutExtension(file) in directories then [Root(domain, WithoutExtension(file))] else []
  }

  function FilesRoots(directory: string, domain: string, files: seq<Node>, directories: set<string>): seq<Root> {
    if files == [] then []
    else FileRoots(directory, domain, files[0], directories) + FilesRoots(directory, domain, files[1..], directories)
  }

  /** Every entry but an aggregate makes its own files roots of its domain. */
  function EntryRoots(directory: string, entries: seq<Entry>, directories: set<string>): seq<Root> {
    if entries == [] then []
    else
      (if entries[0].domain == AGGREGATE then []
       else FilesRoots(directory, entries[0].domain, entries[0].files, directories))
      + EntryRoots(directory, entries[1..], directories)
  }

  /** A path of `shared`, or below one; the package's own core directory does not count, its contracts do. */
  lemma SharedExactly(file: Node, pkg: Package)
    ensures IsShared(file, pkg)
            <==> exists path :: path in pkg.shared + [pkg.directory + "/src/contracts"]
                                && path != pkg.directory + "/src/core" && IsBelow(file, path)
  {
    var core, contracts := pkg.directory + "/src/core", pkg.directory + "/src/contracts";
    forall path ensures IsBelow(file, path) <==> Text.Inside(file, path) {
      if Text.StartsWith(file, path + "/") {
        assert file == path + "/" + file[|path| + 1..];
      }
    }
    assert |core| != |contracts|;
  }

  ghost predicate IsBelow(file: Node, path: string) {
    file == path || exists rest :: file == path + "/" + rest
  }

  predicate IsSourceExtension(extension: string) {
    || extension == ".ts" || extension == ".tsx" || extension == ".cts" || extension == ".mts"
    || extension == ".ctsx" || extension == ".mtsx"
  }

  /** The file's name is that stem and a TypeScript extension. */
  ghost predicate HasStem(file: Node, stem: string) {
    exists extension :: IsSourceExtension(extension) && file == stem + extension
  }

  /** A text that ends with an extension ends with what is no longer only if the extension does. */
  lemma EndsWithLess(stem: string, extension: string, suffix: string)
    requires |suffix| <= |extension|
    ensures Text.EndsWith(stem + extension, suffix) <==> extension[|extension| - |suffix|..] == suffix
  {
    var file := stem + extension;
    assert file[|file| - |suffix|..] == extension[|extension| - |suffix|..];
  }

  lemma Cut(stem: string, extension: string)
    ensures (stem + extension)[..|stem + extension| - |extension|] == stem
  {
  }

  lemma StemOfThree(stem: string)
    ensures WithoutExtension(stem + ".ts") == stem
  {
    EndsWithLess(stem, ".ts", ".ts");
    Cut(stem, ".ts");
  }

  lemma StemOfFour(stem: string, extension: string)
    requires extension == ".tsx" || extension == ".cts" || extension == ".mts"
    ensures WithoutExtension(stem + extension) == stem
  {
    EndsWithLess(stem, extension, ".ts");
    assert extension[1] != '.';
    EndsWithLess(stem, extension, extension);
    Cut(stem, extension);
  }

  lemma StemOfFive(stem: string, extension: string)
    requires extension == ".ctsx" || extension == ".mtsx"
    ensures WithoutExtension(stem + extension) == stem
  {
    assert extension[1] != '.' && extension[2] != '.';
    EndsWithLess(stem, extension, ".ts");
    EndsWithLess(stem, extension, ".tsx");
    EndsWithLess(stem, extension, ".cts");
    EndsWithLess(stem, extension, ".mts");
    EndsWithLess(stem, extension, extension);
    Cut(stem, extension);
  }

  lemma StemOf(stem: string, extension: string)
    requires IsSourceExtension(extension)
    ensures WithoutExtension(stem + extension) == stem
  {
    if extension == ".ts" {
      StemOfThree(stem);
    } else if |extension| == 4 {
      StemOfFour(stem, extension);
    } else {
      StemOfFive(stem, extension);
    }
  }

  lemma ExtensionsAreShort(extension: string)
    requires IsSourceExtension(extension)
    ensures extension != "" && '/' !in extension
  {
  }

  lemma CutOff(file: Node)
    requires WithoutExtension(file) != file
    ensures HasStem(file, WithoutExtension(file))
  {
    var stem := WithoutExtension(file);
    assert file == stem + file[|stem|..];
    assert IsSourceExtension(file[|stem|..]);
  }

  lemma StemExactly(file: Node, stem: string)
    ensures HasStem(file, stem) <==> WithoutExtension(file) == stem && stem != file
  {
    if HasStem(file, stem) {
      var extension :| IsSourceExtension(extension) && file == stem + extension;
      StemOf(stem, extension);
      ExtensionsAreShort(extension);
    }
    if WithoutExtension(file) != file {
      CutOff(file);
    }
  }

  /** The file is an index or entry file right in that folder. */
  ghost predicate IsIndexOf(file: Node, folder: string) {
    HasStem(file, folder + "/index") || HasStem(file, folder + "/entry")
  }

  lemma {:induction false} DirectoryIs(folder: string, name: string)
    requires '/' !in name
    ensures Directory(folder + "/" + name) == folder
    decreases |name|
  {
    var file := folder + "/" + name;
    if name == "" {
      assert file[..|file| - 1] == folder;
    } else {
      assert file[|file| - 1] == name[|name| - 1];
      assert file[..|file| - 1] == folder + "/" + name[..|name| - 1];
      DirectoryIs(folder, name[..|name| - 1]);
    }
  }

  lemma EndsWithPiece(folder: string, piece: string)
    ensures Text.EndsWith(folder + piece, piece)
  {
    assert (folder + piece)[|folder|..] == piece;
  }

  lemma FolderOf(file: Node, folder: string, name: string)
    requires HasStem(file, folder + "/" + name) && '/' !in name
    ensures Directory(file) == folder
  {
    var extension :| IsSourceExtension(extension) && file == folder + "/" + name + extension;
    ExtensionsAreShort(extension);
    Regroup(folder + "/", name, extension);
    DirectoryIs(folder, name + extension);
  }

  lemma NamedInFolder(folder: string)
    ensures folder + "/index" == folder + "/" + "index" && folder + "/entry" == folder + "/" + "entry"
  {
    assert "/index" == "/" + "index" && "/entry" == "/" + "entry";
    Regroup(folder, "/", "index");
    Regroup(folder, "/", "entry");
  }

  lemma IndexNamed(file: Node, folder: string, piece: string)
    requires HasStem(file, folder + piece) && (piece == "/index" || piece == "/entry")
    ensures IsIndexFile(file)
  {
    StemExactly(file, folder + piece);
    EndsWithPiece(folder, piece);
  }

  lemma IndexOf(file: Node, folder: string)
    requires IsIndexOf(file, folder)
    ensures IsIndexFile(file) && Directory(file) == folder
  {
    NamedInFolder(folder);
    if HasStem(file, folder + "/index") {
      IndexNamed(file, folder, "/index");
      FolderOf(file, folder, "index");
    } else {
      IndexNamed(file, folder, "/entry");
      FolderOf(file, folder, "entry");
    }
  }

  lemma IndexHasFolder(file: Node)
    requires IsIndexFile(file)
    ensures exists folder :: IsIndexOf(file, folder)
  {
    var stem := WithoutExtension(file);
    StemExactly(file, stem);
    var folder := stem[..|stem| - 6];
    assert stem == folder + stem[|stem| - 6..];
    assert IsIndexOf(file, folder);
  }

  /** The path an entry file makes a root of its domain: its folder, if it is an index file below `src`, else itself. */
  lemma RootPathExactly(directory: string, file: Node)
    ensures forall folder :: IsIndexOf(file, folder) && folder != directory + "/src"
                             ==> RootPath(directory, file) == folder
    ensures (forall folder :: !IsIndexOf(file, folder) || folder == directory + "/src")
            ==> RootPath(directory, file) == file
  {
    forall folder | IsIndexOf(file, folder) ensures IsIndexFile(file) && Directory(file) == folder {
      IndexOf(file, folder);
    }
    if IsIndexFile(file) {
      IndexHasFolder(file);
    }
  }

  ghost predicate BringsRoot(directory: string, file: Node, directories: set<string>, path: string) {
    path == RootPath(directory, file) || (path == WithoutExtension(file) && path in directories)
  }

  lemma {:induction false} FilesBringRoots(directory: string, domain: string, files: seq<Node>,
                                           directories: set<string>, r: Root)
    ensures r in FilesRoots(directory, domain, files, directories)
            <==> r.domain == domain && exists file :: file in files && BringsRoot(directory, file, directories, r.path)
  {
    if files != [] {
      var file := files[0];
      FilesBringRoots(directory, domain, files[1..], directories, r);
      assert files == [file] + files[1..];
      assert r in FileRoots(directory, domain, file, directories)
             <==> r.domain == domain && BringsRoot(directory, file, directories, r.path) by {
        assert r == Root(r.domain, r.path);
      }
    }
  }

  /** The roots are exactly what the files of the entries bring along, aggregates left out: each file its root path, and
      the directory of the same name if there is one. */
  lemma {:induction false} RootsExactly(directory: string, entries: seq<Entry>, directories: set<string>, r: Root)
    ensures r in EntryRoots(directory, entries, directories)
            <==> exists entry, file :: entry in entries && entry.domain == r.domain && r.domain != "$aggregate"
                                       && file in entry.files && BringsRoot(directory, file, directories, r.path)
  {
    if entries != [] {
      var e := entries[0];
      RootsExactly(directory, entries[1..], directories, r);
      FilesBringRoots(directory, e.domain, e.files, directories, r);
      assert entries == [e] + entries[1..];
    }
  }

  /** What lies in a shared directory belongs to everybody: the reviewed ones, and `contracts`. */
  lemma SharedIsCore(file: Node, pkg: Package, path: string)
    requires path in pkg.shared + [pkg.directory + "/src/contracts"] && path != pkg.directory + "/src/core"
    requires file == path || Text.StartsWith(file, path + "/")
    ensures Owner(file, pkg) == Some("core")
  {
  }

  /* ---- what one file contributes ---- */

  predicate EndsWithAny(name: string, suffixes: seq<string>) {
    exists k :: 0 <= k < |suffixes| && Text.EndsWith(name, suffixes[k])
  }

  const CODE_SUFFIXES := [".ts", ".mts", ".cts", ".tsx", ".mtsx", ".ctsx", ".js", ".mjs", ".cjs", ".jsx"]

  const IMPORT_SUFFIXES := [".js", ".mjs", ".cjs", ".jsx", ".ts", ".tsx", ".mts", ".cts"]

  /** The files whose imports are followed. */
  predicate IsCode(file: Node) {
    EndsWithAny(file, CODE_SUFFIXES)
  }

  predicate NamesCode(specifier: string) {
    EndsWithAny(specifier, IMPORT_SUFFIXES)
  }

  predicate IsRelative(specifier: string) {
    Text.StartsWith(specifier, ".")
  }

  predicate IsBuiltin(specifier: string) {
    Text.StartsWith(specifier, "node:") || Text.StartsWith(specifier, "#")
  }

  predicate IsWorkspace(specifier: string) {
    Text.StartsWith(specifier, "@jini-ai/")
  }

  /** `@scope/name` for a scoped specifier, else its first segment. */
  function PackageName(specifier: string): (name: string)
    ensures |name| <= |specifier|
  {
    if Text.StartsWith(specifier, "@") && '/' in specifier
    then Text.Before(specifier, '/') + "/" + Text.Before(Text.After(specifier, '/'), '/')
    else Text.Before(specifier, '/')
  }

  function ExportKey(specifier: string): string {
    var name := PackageName(specifier);
    if specifier == name then "." else "." + specifier[|name|..]
  }

  function ExportFiles(w: Sources, specifier: string): seq<Node> {
    var name, key := PackageName(specifier), ExportKey(specifier);
    if name in w.exports && key in w.exports[name] then w.exports[name][key] else []
  }

  /** The files an import leads to. */
  function Targets(w: Sources, ref: Ref): seq<Node> {
    if IsRelative(ref.specifier) then (if ref.relative.Some? then [ref.relative.value] else [])
    else if IsBuiltin(ref.specifier) || !IsWorkspace(ref.specifier) then []
    else ExportFiles(w, ref.specifier)
  }

  function Dependencies(ref: Ref): set<string> {
    if IsRelative(ref.specifier) || IsBuiltin(ref.specifier) then {} else {PackageName(ref.specifier)}
  }

  function OwnDomain(file: Node, pkg: Package): Option<string> {
    if Text.Inside(file, pkg.directory) then Owner(file, pkg) else None
  }

  /** A domain that is neither absent, shared, nor the entry's own. */
  predicate IsForeign(entry: Entry, domain: Option<string>) {
    domain.Some? && domain.value != "" && domain.value != CORE && domain.value != entry.domain
  }

  /** The edge from `file` to `target` enters a foreign domain. */
  predicate Crosses(pkg: Package, entry: Entry, file: Node, target: Node) {
    entry.domain != AGGREGATE && IsForeign(entry, OwnDomain(target, pkg))
      && OwnDomain(file, pkg) != OwnDomain(target, pkg)
  }

  function CrossingFindings(pkg: Package, entry: Entry, file: Node, specifier: string,
                            targets: seq<Node>): seq<Finding> {
    if targets == [] then []
    else (if Crosses(pkg, entry, file, targets[0])
          then [Crossing(pkg.name, entry.subpath, entry.domain, file, targets[0], Owner(targets[0], pkg).value,
                         specifier)] else [])
         + CrossingFindings(pkg, entry, file, specifier, targets[1..])
  }

  function ResolutionFindings(w: Sources, pkg: Package, entry: Entry, file: Node, ref: Ref): seq<Finding> {
    if IsRelative(ref.specifier) then
      if ref.relative.None? && NamesCode(ref.specifier) then [Unresolved(pkg.name, entry.subpath, file, ref.specifier)]
        else []
    else if !IsBuiltin(ref.specifier) && IsWorkspace(ref.specifier) && ExportFiles(w, ref.specifier) == []
    then [NoSourceExport(pkg.name, entry.subpath, file, ref.specifier)]
    else []
  }

  function LiesIn(file: Node): Host -> bool {
    (h: Host) => Text.Inside(file, h.directory)
  }

  function DefaultLoadFindings(w: Sources, pkg: Package, entry: Entry, file: Node, ref: Ref): seq<Finding> {
    var host := Sorting.Find(w.hosts, LiesIn(file));
    if entry.subpath == "." && host.Some? && PackageName(ref.specifier) in host.value.optionalPeers
    then [OptionalPeer(pkg.name, entry.subpath, file, PackageName(ref.specifier))] else []
  }

  function Banned(pkg: Package, entry: Entry): seq<string> {
    var alias := if entry.subpath in pkg.aliases then pkg.aliases[entry.subpath] else "";
    if entry.subpath in pkg.forbidden then pkg.forbidden[entry.subpath]
    else if alias in pkg.forbidden then pkg.forbidden[alias] else []
  }

  predicate IsBannedBy(specifier: string, spec: string) {
    if Text.EndsWith(spec, ":") then Text.StartsWith(specifier, spec) else Text.Inside(specifier, spec)
  }

  function ForbiddenFindings(pkg: Package, entry: Entry, file: Node, ref: Ref): seq<Finding> {
    if exists spec :: spec in Banned(pkg, entry) && IsBannedBy(ref.specifier, spec)
    then [Forbidden(pkg.name, entry.subpath, file, ref.specifier)] else []
  }

  /** Everything one runtime import reports, in order. */
  function RefFindings(w: Sources, pkg: Package, entry: Entry, file: Node, ref: Ref): seq<Finding> {
    DefaultLoadFindings(w, pkg, entry, file, ref) + ResolutionFindings(w, pkg, entry, file, ref)
    + CrossingFindings(pkg, entry, file, ref.specifier, Targets(w, ref)) + ForbiddenFindings(pkg, entry, file, ref)
  }

  /** Type-only imports report nothing and lead nowhere. */
  function RuntimeFindings(w: Sources, pkg: Package, entry: Entry, file: Node, ref: Ref): seq<Finding> {
    if ref.typeOnly then [] else RefFindings(w, pkg, entry, file, ref)
  }

  function RefsFindings(w: Sources, pkg: Package, entry: Entry, file: Node, refs: seq<Ref>): seq<Finding> {
    if refs == [] then []
    else RuntimeFindings(w, pkg, entry, file, refs[0]) + RefsFindings(w, pkg, entry, file, refs[1..])
  }

  function EffectFindings(pkg: Package, entry: Entry, file: Node, effects: seq<string>): seq<Finding> {
    if effects == [] then []
    else [Effect(pkg.name, entry.subpath, file, effects[0])] + EffectFindings(pkg, entry, file, effects[1..])
  }

  function RefsOf(w: Sources, file: Node): seq<Ref> {
    if file in w.imports then w.imports[file] else []
  }

  function EffectsOf(w: Sources, pkg: Package, file: Node): seq<string> {
    if Text.Inside(file, pkg.directory) && file in w.effects then w.effects[file] else []
  }

  /** Everything auditing one code file reports. */
  function FileFindings(w: Sources, pkg: Package, entry: Entry, file: Node): seq<Finding> {
    EffectFindings(pkg, entry, file, EffectsOf(w, pkg, file)) + RefsFindings(w, pkg, entry, file, RefsOf(w, file))
  }

  function RuntimeTargets(w: Sources, ref: Ref): seq<Node> {
    if ref.typeOnly then [] else Targets(w, ref)
  }

  function RefsTargets(w: Sources, refs: seq<Ref>): seq<Node> {
    if refs == [] then [] else RuntimeTargets(w, refs[0]) + RefsTargets(w, refs[1..])
  }

  function RuntimeDependencies(ref: Ref): set<string> {
    if ref.typeOnly then {} else Dependencies(ref)
  }

  function RefsDependencies(refs: seq<Ref>): set<string> {
    if refs == [] then {} else RuntimeDependencies(refs[0]) + RefsDependencies(refs[1..])
  }

  /** The runtime import graph: the code files and where their imports lead. */
  function ImportGraph(w: Sources): Graph {
    map f | f in w.imports && IsCode(f) :: RefsTargets(w, w.imports[f])
  }

  /** The entry's import closure. */
  ghost predicate InClosure(w: Sources, entry: Entry, file: Node) {
    ReachedFrom(ImportGraph(w), entry.files, file)
  }

  /** Everything the entry's audit reports while it walks. */
  ghost predicate Reported(w: Sources, pkg: Package, entry: Entry, x: Finding) {
    exists f :: InClosure(w, entry, f) && IsCode(f) && x in FileFindings(w, pkg, entry, f)
  }

  /** Some code file of the entry's closure imports the package d. */
  ghost predicate IsImported(w: Sources, entry: Entry, d: string) {
    exists f :: InClosure(w, entry, f) && IsCode(f) && d in RefsDependencies(RefsOf(w, f))
  }

  /* ---- which files an import leads to ---- */

  /** The specifier is a workspace package's name, or that and a subpath; `key` is how the package's exports call it. */
  ghost predicate NamesExport(specifier: string, name: string, key: string) {
    exists p, rest :: Splits(p, rest) && specifier == "@jini-ai/" + p + rest && name == "@jini-ai/" + p
      && key == "." + rest
  }

  predicate Splits(p: string, rest: string) {
    '/' !in p && (rest == "" || rest[0] == '/')
  }

  /** A runtime import leads to the file its relative path resolves to, or to the files of the export it names. */
  ghost predicate RefLeads(w: Sources, ref: Ref, t: Node) {
    && !ref.typeOnly
    && ((Text.StartsWith(ref.specifier, ".") && ref.relative == Some(t))
        || exists name, key :: NamesExport(ref.specifier, name, key) && name in w.exports && key in w.exports[name]
                               && t in w.exports[name][key])
  }

  ghost predicate Leads(w: Sources, f: Node, t: Node) {
    IsCode(f) && f in w.imports && exists ref :: ref in w.imports[f] && RefLeads(w, ref, t)
  }

  lemma ScopedName(p: string, rest: string)
    requires Splits(p, rest)
    ensures PackageName("@jini-ai/" + p + rest) == "@jini-ai/" + p
  {
    var specifier, tail := "@jini-ai/" + p + rest, p + rest;
    assert specifier[8] == '/' && specifier[..8] == "@jini-ai" && '/' !in "@jini-ai" && specifier[9..] == tail;
    Text.PositionIs(specifier, '/', 8);
    assert tail[..|p|] == p;
    Text.PositionIs(tail, '/', |p|);
    assert "@jini-ai" + "/" + p == "@jini-ai/" + p;
  }

  lemma ScopedPieces(p: string, rest: string)
    requires Splits(p, rest)
    ensures var specifier := "@jini-ai/" + p + rest;
            PackageName(specifier) == "@jini-ai/" + p && ExportKey(specifier) == "." + rest
  {
    var name, specifier := "@jini-ai/" + p, "@jini-ai/" + p + rest;
    ScopedName(p, rest);
    assert specifier == name + rest && specifier[|name|..] == rest;
    if rest != "" {
      assert |specifier| > |name|;
    }
  }

  lemma WorkspaceSplits(specifier: string) returns (p: string, rest: string)
    requires IsWorkspace(specifier)
    ensures Splits(p, rest) && specifier == "@jini-ai/" + p + rest
  {
    var tail := specifier[9..];
    var k := Text.PositionOf(tail, '/');
    p, rest := tail[..k], tail[k..];
    assert specifier == "@jini-ai/" + tail && tail == p + rest;
  }

  lemma ExportFilesExactly(w: Sources, specifier: string, t: Node)
    requires IsWorkspace(specifier)
    ensures t in ExportFiles(w, specifier)
            <==> exists name, key :: NamesExport(specifier, name, key) && name in w.exports && key in w.exports[name]
                                     && t in w.exports[name][key]
  {
    var p, rest := WorkspaceSplits(specifier);
    ScopedPieces(p, rest);
    assert NamesExport(specifier, "@jini-ai/" + p, "." + rest);
    forall name, key | NamesExport(specifier, name, key)
      ensures name == PackageName(specifier) && key == ExportKey(specifier)
    {
      var q, more :| Splits(q, more) && specifier == "@jini-ai/" + q + more && name == "@jini-ai/" + q
        && key == "." + more;
      ScopedPieces(q, more);
    }
  }

  lemma WorkspaceIsNotRelative(specifier: string, name: string, key: string)
    requires NamesExport(specifier, name, key)
    ensures IsWorkspace(specifier) && !IsRelative(specifier) && !IsBuiltin(specifier)
  {
    assert specifier[0] == '@';
  }

  lemma RuntimeTargetsExactly(w: Sources, ref: Ref, t: Node)
    ensures t in RuntimeTargets(w, ref) <==> RefLeads(w, ref, t)
  {
    if IsWorkspace(ref.specifier) {
      assert ref.specifier[0] == '@';
      ExportFilesExactly(w, ref.specifier, t);
    }
    forall name, key | NamesExport(ref.specifier, name, key) ensures IsWorkspace(ref.specifier) {
      WorkspaceIsNotRelative(ref.specifier, name, key);
    }
  }

  lemma {:induction false} RefsTargetsExactly(w: Sources, refs: seq<Ref>, t: Node)
    ensures t in RefsTargets(w, refs) <==> exists ref :: ref in refs && RefLeads(w, ref, t)
  {
    if refs != [] {
      RuntimeTargetsExactly(w, refs[0], t);
      RefsTargetsExactly(w, refs[1..], t);
      assert refs == [refs[0]] + refs[1..];
    }
  }

  /** The import graph's edges are exactly the runtime imports of code files and where they lead. */
  lemma SuccessorsExactly(w: Sources, f: Node, t: Node)
    ensures t in Succ(ImportGraph(w), f) <==> Leads(w, f, t)
  {
    if f in w.imports {
      RefsTargetsExactly(w, w.imports[f], t);
    }
  }

  ghost predicate ClosedUnderImports(w: Sources, files: set<Node>) {
    forall f, t :: f in files && Leads(w, f, t) ==> t in files
  }

  lemma ClosedExactly(w: Sources, files: set<Node>)
    ensures ClosedUnderImports(w, files) <==> ClosedUnderSucc(ImportGraph(w), files)
  {
    forall f, t ensures t in Succ(ImportGraph(w), f) <==> Leads(w, f, t) {
      SuccessorsExactly(w, f, t);
    }
  }

  /** The least set of files that contains the starts and is closed under runtime imports. */
  ghost predicate IsClosure(w: Sources, starts: seq<Node>, files: set<Node>) {
    && Elements(starts) <= files && ClosedUnderImports(w, files)
    && forall other :: Elements(starts) <= other && ClosedUnderImports(w, other) ==> files <= other
  }

  /** The name by which a specifier is installed: its first segment, or the first two behind an `@`. */
  ghost predicate NamesPackage(specifier: string, name: string) {
    if Text.StartsWith(specifier, "@") && '/' in specifier
    then exists a, b, rest :: '/' !in a && Splits(b, rest) && name == a + "/" + b && specifier == name + rest
    else exists rest :: Splits(name, rest) && specifier == name + rest
  }

  lemma CutAtSlash(s: string)
    ensures Splits(Text.Before(s, '/'), s[|Text.Before(s, '/')|..])
            && s == Text.Before(s, '/') + s[|Text.Before(s, '/')|..]
  {
  }

  lemma TwoSegments(specifier: string, a: string, b: string, rest: string)
    requires '/' !in a && Splits(b, rest) && specifier == (a + "/" + b) + rest && Text.StartsWith(specifier, "@")
    ensures NamesPackage(specifier, a + "/" + b)
  {
    assert specifier[|a|] == '/';
  }

  lemma SlashJoins(s: string)
    requires '/' in s
    ensures s == Text.Before(s, '/') + "/" + Text.After(s, '/')
  {
    var k := Text.PositionOf(s, '/');
    assert s == s[..k] + [s[k]] + s[k + 1..];
  }

  lemma OneSegment(specifier: string, name: string, rest: string)
    requires Splits(name, rest) && specifier == name + rest && !(Text.StartsWith(specifier, "@") && '/' in specifier)
    ensures NamesPackage(specifier, name)
  {
  }

  lemma ScopedNameExactly(specifier: string)
    requires Text.StartsWith(specifier, "@") && '/' in specifier
    ensures NamesPackage(specifier, PackageName(specifier))
  {
    var a, after := Text.Before(specifier, '/'), Text.After(specifier, '/');
    var b := Text.Before(after, '/');
    var rest := after[|b|..];
    SlashJoins(specifier);
    CutAtSlash(after);
    CutAtSlash(specifier);
    assert a + "/" + (b + rest) == (a + "/" + b) + rest;
    TwoSegments(specifier, a, b, rest);
    assert PackageName(specifier) == a + "/" + b;
  }

  lemma PackageNameExactly(specifier: string)
    ensures NamesPackage(specifier, PackageName(specifier))
  {
    if Text.StartsWith(specifier, "@") && '/' in specifier {
      ScopedNameExactly(specifier);
    } else {
      var name := Text.Before(specifier, '/');
      CutAtSlash(specifier);
      OneSegment(specifier, name, specifier[|name|..]);
    }
  }

  /** The packages a file imports at run time: neither its own files nor built-ins nor package-internal names. */
  lemma {:induction false} DependenciesExactly(refs: seq<Ref>, d: string)
    ensures d in RefsDependencies(refs)
            <==> exists ref :: ref in refs && !ref.typeOnly && PackageName(ref.specifier) == d
                               && !Text.StartsWith(ref.specifier, ".") && !Text.StartsWith(ref.specifier, "node:")
                               && !Text.StartsWith(ref.specifier, "#")
  {
    if refs != [] {
      DependenciesExactly(refs[1..], d);
      assert refs == [refs[0]] + refs[1..];
    }
  }

  lemma SuffixExactly(file: string, suffix: string)
    ensures Text.EndsWith(file, suffix) <==> exists stem :: file == stem + suffix
  {
    if Text.EndsWith(file, suffix) {
      assert file == file[..|file| - |suffix|] + suffix;
    }
  }

  /** `[cm]?tsx?`, `[cm]?js` and `jsx`, spelled out. */
  const CODE_EXTENSIONS := ["ts", "mts", "cts", "tsx", "mtsx", "ctsx", "js", "mjs", "cjs", "jsx"]

  lemma DottedExtension(k: nat)
    requires k < 10
    ensures |CODE_SUFFIXES| == 10 && CODE_SUFFIXES[k] == "." + CODE_EXTENSIONS[k]
  {
  }

  lemma EndsWithAnyExactly(name: string, suffixes: seq<string>)
    ensures EndsWithAny(name, suffixes) <==> exists stem, k :: 0 <= k < |suffixes| && name == stem + suffixes[k]
  {
    forall k | 0 <= k < |suffixes|
      ensures Text.EndsWith(name, suffixes[k]) <==> exists stem :: name == stem + suffixes[k]
    {
      SuffixExactly(name, suffixes[k]);
    }
  }

  /** Code files are told by their extension. */
  lemma CodeFilesExactly(file: Node)
    ensures IsCode(file) <==> exists stem, k :: 0 <= k < 10 && file == stem + ("." + CODE_EXTENSIONS[k])
  {
    EndsWithAnyExactly(file, CODE_SUFFIXES);
    forall k | 0 <= k < 10 ensures |CODE_SUFFIXES| == 10 && CODE_SUFFIXES[k] == "." + CODE_EXTENSIONS[k] {
      DottedExtension(k);
    }
  }

  const IMPORT_EXTENSIONS := ["js", "mjs", "cjs", "jsx", "ts", "tsx", "mts", "cts"]

  lemma DottedImport(k: nat)
    requires k < 8
    ensures |IMPORT_SUFFIXES| == 8 && IMPORT_SUFFIXES[k] == "." + IMPORT_EXTENSIONS[k]
  {
  }

  /** And so are relative specifiers that must resolve. */
  lemma CodeImportsExactly(specifier: string)
    ensures NamesCode(specifier) <==> exists stem, k :: 0 <= k < 8 && specifier == stem + ("." + IMPORT_EXTENSIONS[k])
  {
    EndsWithAnyExactly(specifier, IMPORT_SUFFIXES);
    forall k | 0 <= k < 8 ensures |IMPORT_SUFFIXES| == 8 && IMPORT_SUFFIXES[k] == "." + IMPORT_EXTENSIONS[k] {
      DottedImport(k);
    }
  }

  /* ---- what is reported about a file ---- */

  /** The file has a runtime import of this specifier. */
  ghost predicate Imports(w: Sources, f: Node, ref: Ref) {
    f in w.imports && ref in w.imports[f] && !ref.typeOnly
  }

  /** The package lists the spec for the entry: under its subpath; failing that, under the alias the manifest gives the
      subpath, or under no name if it gives none. */
  ghost predicate Lists(pkg: Package, entry: Entry, spec: string) {
    var alias := if entry.subpath in pkg.aliases then pkg.aliases[entry.subpath] else "";
    || (entry.subpath in pkg.forbidden && spec in pkg.forbidden[entry.subpath])
    || (entry.subpath !in pkg.forbidden && alias in pkg.forbidden && spec in pkg.forbidden[alias])
  }

  ghost predicate Bans(spec: string, specifier: string) {
    if spec != "" && spec[|spec| - 1] == ':' then Text.StartsWith(specifier, spec)
    else specifier == spec || Text.StartsWith(specifier, spec + "/")
  }

  /** The package directory the file lies in, longest first, makes this package an optional peer. */
  ghost predicate OptionalFor(w: Sources, f: Node, peer: string) {
    exists i :: 0 <= i < |w.hosts| && Text.Inside(f, w.hosts[i].directory) && peer in w.hosts[i].optionalPeers
                && forall j :: 0 <= j < i ==> !Text.Inside(f, w.hosts[j].directory)
  }

  /** Each kind of finding, in terms of what the file imports and who owns what. */
  ghost predicate IsReported(w: Sources, pkg: Package, entry: Entry, f: Node, x: Finding) {
    && !x.NoSourceFile? && !x.Aggregate?
    && x.package == pkg.name && x.subpath == entry.subpath && x.file == f
    && match x
       case Crossing(_, _, from, _, target, owner, specifier) =>
         && from == entry.domain && entry.domain != "$aggregate" && owner !in {"", "core", entry.domain}
         && OwnedBy(pkg, target, owner) && !OwnedBy(pkg, f, owner)
         && exists ref :: Imports(w, f, ref) && ref.specifier == specifier && RefLeads(w, ref, target)
       case Forbidden(_, _, _, specifier) =>
         (exists ref :: Imports(w, f, ref) && ref.specifier == specifier)
         && exists spec :: Lists(pkg, entry, spec) && Bans(spec, specifier)
       case Unresolved(_, _, _, specifier) =>
         exists ref :: Imports(w, f, ref) && ref.specifier == specifier && Text.StartsWith(specifier, ".")
                       && ref.relative == None && NamesCode(specifier)
       case NoSourceExport(_, _, _, specifier) =>
         exists ref :: Imports(w, f, ref) && ref.specifier == specifier && Text.StartsWith(specifier, "@jini-ai/")
                       && forall t :: !RefLeads(w, ref, t)
       case Effect(_, _, _, effect) => Text.Inside(f, pkg.directory) && f in w.effects && effect in w.effects[f]
       case OptionalPeer(_, _, _, peer) =>
         entry.subpath == "." && OptionalFor(w, f, peer)
         && exists ref :: Imports(w, f, ref) && PackageName(ref.specifier) == peer
       case _ => false
  }

  /** What one import reports, kind by kind. */
  ghost predicate RefReports(w: Sources, pkg: Package, entry: Entry, f: Node, ref: Ref, x: Finding) {
    && !x.NoSourceFile? && !x.Aggregate? && !x.Effect?
    && x.package == pkg.name && x.subpath == entry.subpath && x.file == f && !ref.typeOnly
    && match x
       case Crossing(_, _, from, _, target, owner, specifier) =>
         && from == entry.domain && entry.domain != "$aggregate" && owner !in {"", "core", entry.domain}
         && OwnedBy(pkg, target, owner) && !OwnedBy(pkg, f, owner)
         && ref.specifier == specifier && RefLeads(w, ref, target)
       case Forbidden(_, _, _, specifier) =>
         ref.specifier == specifier && exists spec :: Lists(pkg, entry, spec) && Bans(spec, specifier)
       case Unresolved(_, _, _, specifier) =>
         ref.specifier == specifier && Text.StartsWith(specifier, ".") && ref.relative == None && NamesCode(specifier)
       case NoSourceExport(_, _, _, specifier) =>
         ref.specifier == specifier && Text.StartsWith(specifier, "@jini-ai/") && forall t :: !RefLeads(w, ref, t)
       case OptionalPeer(_, _, _, peer) =>
         entry.subpath == "." && OptionalFor(w, f, peer) && PackageName(ref.specifier) == peer
       case _ => false
  }

  lemma {:induction false} CrossingsExactly(pkg: Package, entry: Entry, file: Node, specifier: string,
                                            targets: seq<Node>,
                                            x: Finding)
    ensures x in CrossingFindings(pkg, entry, file, specifier, targets)
            <==> x.Crossing? && x.target in targets && Crosses(pkg, entry, file, x.target)
                 && x == Crossing(pkg.name, entry.subpath, entry.domain, file, x.target, Owner(x.target, pkg).value,
                                  specifier)
  {
    if targets != [] {
      CrossingsExactly(pkg, entry, file, specifier, targets[1..], x);
      assert targets == [targets[0]] + targets[1..];
    }
  }

  lemma BannedExactly(pkg: Package, entry: Entry, spec: string)
    ensures spec in Banned(pkg, entry) <==> Lists(pkg, entry, spec)
  {
  }

  lemma BansExactly(specifier: string, spec: string)
    ensures IsBannedBy(specifier, spec) <==> Bans(spec, specifier)
  {
    if spec != "" {
      assert spec[|spec| - 1..] == [spec[|spec| - 1]];
    }
  }

  lemma OptionalExactly(w: Sources, f: Node, peer: string)
    ensures OptionalFor(w, f, peer)
            <==> var host := Sorting.Find(w.hosts, LiesIn(f)); host.Some? && peer in host.value.optionalPeers
  {
    var host := Sorting.Find(w.hosts, LiesIn(f));
    if host.Some? && peer in host.value.optionalPeers {
      var i := Sorting.FindIndex(w.hosts, LiesIn(f));
      forall j | 0 <= j < i ensures !Text.Inside(f, w.hosts[j].directory) {
        assert !LiesIn(f)(w.hosts[j]);
      }
      assert OptionalFor(w, f, peer);
    }
    if OptionalFor(w, f, peer) {
      var i :| 0 <= i < |w.hosts| && Text.Inside(f, w.hosts[i].directory) && peer in w.hosts[i].optionalPeers
               && forall j :: 0 <= j < i ==> !Text.Inside(f, w.hosts[j].directory);
      Sorting.FindAt(w.hosts, LiesIn(f), i);
    }
  }

  lemma CrossingReports(w: Sources, pkg: Package, entry: Entry, f: Node, ref: Ref, x: Finding)
    requires !ref.typeOnly && x.Crossing?
    ensures x in CrossingFindings(pkg, entry, f, ref.specifier, Targets(w, ref))
            <==> RefReports(w, pkg, entry, f, ref, x)
  {
    CrossingsExactly(pkg, entry, f, ref.specifier, Targets(w, ref), x);
    RuntimeTargetsExactly(w, ref, x.target);
  }

  lemma OtherReports(w: Sources, pkg: Package, entry: Entry, f: Node, ref: Ref, x: Finding)
    requires !ref.typeOnly && !x.Crossing?
    ensures RefReports(w, pkg, entry, f, ref, x)
            <==> x in DefaultLoadFindings(w, pkg, entry, f, ref) || x in ResolutionFindings(w, pkg, entry, f, ref)
                 || x in ForbiddenFindings(pkg, entry, f, ref)
  {
    match x {
      case OptionalPeer(_, _, _, peer) => OptionalExactly(w, f, peer);
      case Forbidden(_, _, _, specifier) =>
        forall spec ensures IsBannedBy(ref.specifier, spec) <==> Bans(spec, ref.specifier) {
          BansExactly(ref.specifier, spec);
        }
        forall spec ensures spec in Banned(pkg, entry) <==> Lists(pkg, entry, spec) {
          BannedExactly(pkg, entry, spec);
        }
      case NoSourceExport(_, _, _, specifier) => if IsWorkspace(ref.specifier) { NoExportExactly(w, ref); }
      case _ =>
    }
  }

  lemma NoExportExactly(w: Sources, ref: Ref)
    requires !ref.typeOnly && IsWorkspace(ref.specifier)
    ensures ExportFiles(w, ref.specifier) == [] <==> forall t :: !RefLeads(w, ref, t)
  {
    assert ref.specifier[0] == '@';
    var files := ExportFiles(w, ref.specifier);
    forall t ensures RefLeads(w, ref, t) <==> t in files {
      RuntimeTargetsExactly(w, ref, t);
    }
    if files != [] {
      assert files[0] in files;
    }
  }

  lemma RefReportsExactly(w: Sources, pkg: Package, entry: Entry, f: Node, ref: Ref, x: Finding)
    ensures x in RuntimeFindings(w, pkg, entry, f, ref) <==> RefReports(w, pkg, entry, f, ref, x)
  {
    if !ref.typeOnly {
      RefFindingsParts(w, pkg, entry, f, ref, x);
      if x.Crossing? {
        CrossingReports(w, pkg, entry, f, ref, x);
      } else {
        OtherReports(w, pkg, entry, f, ref, x);
      }
    }
  }

  lemma RefFindingsParts(w: Sources, pkg: Package, entry: Entry, f: Node, ref: Ref, x: Finding)
    ensures x in RefFindings(w, pkg, entry, f, ref)
            <==> if x.Crossing? then x in CrossingFindings(pkg, entry, f, ref.specifier, Targets(w, ref))
                 else x in DefaultLoadFindings(w, pkg, entry, f, ref) || x in ResolutionFindings(w, pkg, entry, f, ref)
                      || x in ForbiddenFindings(pkg, entry, f, ref)
  {
    CrossingsExactly(pkg, entry, f, ref.specifier, Targets(w, ref), x);
  }

  lemma {:induction false} RefsReportsExactly(w: Sources, pkg: Package, entry: Entry, f: Node, refs: seq<Ref>,
                                              x: Finding)
    ensures x in RefsFindings(w, pkg, entry, f, refs)
            <==> exists ref :: ref in refs && RefReports(w, pkg, entry, f, ref, x)
  {
    if refs != [] {
      RefReportsExactly(w, pkg, entry, f, refs[0], x);
      RefsReportsExactly(w, pkg, entry, f, refs[1..], x);
      assert refs == [refs[0]] + refs[1..];
    }
  }

  lemma {:induction false} EffectsExactly(pkg: Package, entry: Entry, file: Node, effects: seq<string>, x: Finding)
    ensures x in EffectFindings(pkg, entry, file, effects)
            <==> x.Effect? && x.effect in effects && x == Effect(pkg.name, entry.subpath, file, x.effect)
  {
    if effects != [] {
      EffectsExactly(pkg, entry, file, effects[1..], x);
      assert effects == [effects[0]] + effects[1..];
    }
  }

  /** Everything auditing one code file reports, and nothing else. */
  lemma FileFindingsExactly(w: Sources, pkg: Package, entry: Entry, f: Node, x: Finding)
    ensures x in FileFindings(w, pkg, entry, f) <==> IsReported(w, pkg, entry, f, x)
  {
    EffectsExactly(pkg, entry, f, EffectsOf(w, pkg, f), x);
    RefsReportsExactly(w, pkg, entry, f, RefsOf(w, f), x);
    if !x.Effect? {
      ReportedByRef(w, pkg, entry, f, x);
    }
  }

  lemma ReportedByRef(w: Sources, pkg: Package, entry: Entry, f: Node, x: Finding)
    requires !x.Effect?
    ensures IsReported(w, pkg, entry, f, x)
            <==> exists ref :: ref in RefsOf(w, f) && RefReports(w, pkg, entry, f, ref, x)
  {
    if ref :| ref in RefsOf(w, f) && RefReports(w, pkg, entry, f, ref, x) {
      assert Imports(w, f, ref);
    }
    if IsReported(w, pkg, entry, f, x) {
      var ref := Cause(w, pkg, entry, f, x);
      assert ref in RefsOf(w, f);
    }
  }

  lemma Cause(w: Sources, pkg: Package, entry: Entry, f: Node, x: Finding) returns (ref: Ref)
    requires IsReported(w, pkg, entry, f, x) && !x.Effect?
    ensures Imports(w, f, ref) && RefReports(w, pkg, entry, f, ref, x)
  {
    match x {
      case Crossing(_, _, _, _, target, _, specifier) =>
        ref :| Imports(w, f, ref) && ref.specifier == specifier && RefLeads(w, ref, target);
      case Forbidden(_, _, _, specifier) =>
        ref :| Imports(w, f, ref) && ref.specifier == specifier;
      case Unresolved(_, _, _, specifier) =>
        ref :| Imports(w, f, ref) && ref.specifier == specifier && Text.StartsWith(specifier, ".")
               && ref.relative == None && NamesCode(specifier);
      case NoSourceExport(_, _, _, specifier) =>
        ref :| Imports(w, f, ref) && ref.specifier == specifier && Text.StartsWith(specifier, "@jini-ai/")
               && forall t :: !RefLeads(w, ref, t);
      case OptionalPeer(_, _, _, peer) =>
        ref :| Imports(w, f, ref) && PackageName(ref.specifier) == peer;
    }
  }

  /* ---- a local check decides a global question ---- */

  ghost predicate OwnedBy(pkg: Package, file: Node, d: string) {
    OwnDomain(file, pkg) == Some(d)
  }

  ghost predicate CrossingNames(x: Finding, d: string) {
    x.Crossing? && x.owner == d
  }

  /** The closure has an edge into domain d from outside it. */
  ghost predicate EntersDomain(w: Sources, pkg: Package, entry: Entry, d: string) {
    exists f, t :: InClosure(w, entry, f) && t in Succ(ImportGraph(w), f) && !OwnedBy(pkg, f, d) && OwnedBy(pkg, t, d)
  }

  lemma {:induction false} CrossingsOfTargets(pkg: Package, entry: Entry, file: Node, specifier: string,
                                              targets: seq<Node>, d: string)
    requires entry.domain != AGGREGATE && IsForeign(entry, Some(d))
    ensures (exists x :: x in CrossingFindings(pkg, entry, file, specifier, targets) && CrossingNames(x, d))
            <==> !OwnedBy(pkg, file, d) && exists t :: t in targets && OwnedBy(pkg, t, d)
    ensures forall x :: x in CrossingFindings(pkg, entry, file, specifier, targets) ==> x.Crossing?
  {
    if targets != [] {
      CrossingsOfTargets(pkg, entry, file, specifier, targets[1..], d);
      var rest := CrossingFindings(pkg, entry, file, specifier, targets[1..]);
      assert targets == [targets[0]] + targets[1..];
      if Crosses(pkg, entry, file, targets[0]) {
        var first := Crossing(pkg.name, entry.subpath, entry.domain, file, targets[0], Owner(targets[0], pkg).value,
                              specifier);
        assert CrossingFindings(pkg, entry, file, specifier, targets) == [first] + rest;
        assert first in [first] + rest && forall x :: x in rest ==> x in [first] + rest;
        assert CrossingNames(first, d) <==> OwnedBy(pkg, targets[0], d);
      }
    }
  }

  ghost predicate NamedIn(xs: seq<Finding>, d: string) {
    exists x :: x in xs && CrossingNames(x, d)
  }

  ghost predicate OwnedIn(pkg: Package, files: seq<Node>, d: string) {
    exists f :: f in files && OwnedBy(pkg, f, d)
  }

  lemma NamedInConcat(a: seq<Finding>, b: seq<Finding>, d: string)
    ensures NamedIn(a + b, d) <==> NamedIn(a, d) || NamedIn(b, d)
  {
    forall x ensures x in a + b <==> x in a || x in b {
    }
  }

  lemma OwnedInConcat(pkg: Package, a: seq<Node>, b: seq<Node>, d: string)
    ensures OwnedIn(pkg, a + b, d) <==> OwnedIn(pkg, a, d) || OwnedIn(pkg, b, d)
  {
    forall f ensures f in a + b <==> f in a || f in b {
    }
  }

  /** Of what one import reports only the crossings name a domain. */
  lemma CrossingsOfRef(w: Sources, pkg: Package, entry: Entry, file: Node, ref: Ref, d: string)
    requires entry.domain != AGGREGATE && IsForeign(entry, Some(d))
    ensures NamedIn(RuntimeFindings(w, pkg, entry, file, ref), d)
            <==> !OwnedBy(pkg, file, d) && OwnedIn(pkg, RuntimeTargets(w, ref), d)
  {
    if !ref.typeOnly {
      var crossing := CrossingFindings(pkg, entry, file, ref.specifier, Targets(w, ref));
      CrossingsOfTargets(pkg, entry, file, ref.specifier, Targets(w, ref), d);
      OthersNameNoDomain(w, pkg, entry, file, ref, d);
      var byDefault, resolving := DefaultLoadFindings(w, pkg, entry, file, ref),
                                  ResolutionFindings(w, pkg, entry, file, ref);
      NamedInConcat(byDefault, resolving, d);
      NamedInConcat(byDefault + resolving, crossing, d);
      NamedInConcat(byDefault + resolving + crossing, ForbiddenFindings(pkg, entry, file, ref), d);
    }
  }

  lemma OthersNameNoDomain(w: Sources, pkg: Package, entry: Entry, file: Node, ref: Ref, d: string)
    ensures !NamedIn(DefaultLoadFindings(w, pkg, entry, file, ref), d)
    ensures !NamedIn(ResolutionFindings(w, pkg, entry, file, ref), d)
    ensures !NamedIn(ForbiddenFindings(pkg, entry, file, ref), d)
  {
  }

  lemma {:induction false} CrossingsOfRefs(w: Sources, pkg: Package, entry: Entry, file: Node, refs: seq<Ref>,
                                           d: string)
    requires entry.domain != AGGREGATE && IsForeign(entry, Some(d))
    ensures NamedIn(RefsFindings(w, pkg, entry, file, refs), d)
            <==> !OwnedBy(pkg, file, d) && OwnedIn(pkg, RefsTargets(w, refs), d)
  {
    if refs != [] {
      CrossingsOfRef(w, pkg, entry, file, refs[0], d);
      CrossingsOfRefs(w, pkg, entry, file, refs[1..], d);
      NamedInConcat(RuntimeFindings(w, pkg, entry, file, refs[0]), RefsFindings(w, pkg, entry, file, refs[1..]), d);
      OwnedInConcat(pkg, RuntimeTargets(w, refs[0]), RefsTargets(w, refs[1..]), d);
    }
  }

  lemma {:induction false} EffectsNameNoDomain(pkg: Package, entry: Entry, file: Node, effects: seq<string>)
    ensures forall x :: x in EffectFindings(pkg, entry, file, effects) ==> x.Effect?
  {
    if effects != [] {
      EffectsNameNoDomain(pkg, entry, file, effects[1..]);
    }
  }

  /** For every non-aggregate entry: a crossing finding names d exactly when some edge of the closure enters d. */
  lemma CrossingIffEntersDomain(w: Sources, pkg: Package, entry: Entry, d: string)
    requires entry.domain != AGGREGATE && IsForeign(entry, Some(d))
    ensures (exists x :: Reported(w, pkg, entry, x) && CrossingNames(x, d)) <==> EntersDomain(w, pkg, entry, d)
  {
    forall f | IsCode(f)
      ensures (exists x :: x in FileFindings(w, pkg, entry, f) && CrossingNames(x, d))
              <==> !OwnedBy(pkg, f, d) && exists t :: t in Succ(ImportGraph(w), f) && OwnedBy(pkg, t, d)
    {
      CrossingsOfRefs(w, pkg, entry, f, RefsOf(w, f), d);
      EffectsNameNoDomain(pkg, entry, f, EffectsOf(w, pkg, f));
      assert RefsTargets(w, RefsOf(w, f)) == Succ(ImportGraph(w), f);
    }
    if EntersDomain(w, pkg, entry, d) {
      var f, t :| InClosure(w, entry, f) && t in Succ(ImportGraph(w), f) && !OwnedBy(pkg, f, d) && OwnedBy(pkg, t, d);
      var x :| x in FileFindings(w, pkg, entry, f) && CrossingNames(x, d);
      assert Reported(w, pkg, entry, x);
    }
  }

  /** On a walk from outside d to a file of d, some edge enters d, however often the walk leaves and returns. */
  lemma {:induction false} FirstEntry(pkg: Package, p: seq<Node>, from: nat, d: string) returns (i: nat)
    requires from < |p| && !OwnedBy(pkg, p[from], d) && OwnedBy(pkg, p[|p| - 1], d)
    ensures i + 1 < |p| && !OwnedBy(pkg, p[i], d) && OwnedBy(pkg, p[i + 1], d)
    decreases |p| - from
  {
    if OwnedBy(pkg, p[from + 1], d) {
      i := from;
    } else {
      i := FirstEntry(pkg, p, from + 1, d);
    }
  }

  /** The edge-local check decides the global question: when no start file belongs to d, a crossing finding
      names d exactly when the closure contains a file of d. */
  lemma CrossingDecidesReach(w: Sources, pkg: Package, entry: Entry, d: string)
    requires entry.domain != AGGREGATE && IsForeign(entry, Some(d))
    requires forall f :: f in entry.files ==> !OwnedBy(pkg, f, d)
    ensures (exists x :: Reported(w, pkg, entry, x) && CrossingNames(x, d))
            <==> exists f :: InClosure(w, entry, f) && OwnedBy(pkg, f, d)
  {
    CrossingIffEntersDomain(w, pkg, entry, d);
    var g := ImportGraph(w);
    if EntersDomain(w, pkg, entry, d) {
      var f, t :| InClosure(w, entry, f) && t in Succ(g, f) && !OwnedBy(pkg, f, d) && OwnedBy(pkg, t, d);
      var a :| a in entry.files && Reaches(g, a, f);
      ReachesStep(g, a, f, t);
      assert InClosure(w, entry, t);
    }
    if exists f :: InClosure(w, entry, f) && OwnedBy(pkg, f, d) {
      var f :| InClosure(w, entry, f) && OwnedBy(pkg, f, d);
      var a :| a in entry.files && Reaches(g, a, f);
      var p :| WalkBetween(g, p, a, f);
      var i := FirstEntry(pkg, p, 0, d);
      WalkReaches(g, p, 0, i);
      assert InClosure(w, entry, p[i]) && p[i + 1] in Succ(g, p[i]);
    }
  }

  /** A start file that already belongs to d is in the closure without any edge entering d, and nothing reports it:
      over given sources the check is then right only if an edge enters d all the same. */
  lemma OwnedStartNeedsAnEdge(w: Sources, pkg: Package, entry: Entry, d: string)
    requires entry.domain != AGGREGATE && IsForeign(entry, Some(d))
    requires exists f :: f in entry.files && OwnedBy(pkg, f, d)
    ensures ((exists x :: Reported(w, pkg, entry, x) && CrossingNames(x, d))
             <==> exists f :: InClosure(w, entry, f) && OwnedBy(pkg, f, d))
            <==> EntersDomain(w, pkg, entry, d)
  {
    CrossingIffEntersDomain(w, pkg, entry, d);
    var f :| f in entry.files && OwnedBy(pkg, f, d);
    ReachesSelf(ImportGraph(w), f);
    assert InClosure(w, entry, f);
  }

  /** ... and with no edge at all the check says nothing about a domain the closure contains. */
  lemma NoEdgeNoFinding(w: Sources, pkg: Package, entry: Entry, d: string)
    requires forall f :: Succ(ImportGraph(w), f) == []
    requires entry.domain != AGGREGATE && IsForeign(entry, Some(d))
    ensures forall x :: Reported(w, pkg, entry, x) ==> !CrossingNames(x, d)
  {
    CrossingIffEntersDomain(w, pkg, entry, d);
  }

  lemma NoImportsNoEdges(w: Sources)
    requires forall f :: f in w.imports ==> w.imports[f] == []
    ensures forall f :: Succ(ImportGraph(w), f) == []
  {
  }

  /** The audit's answer about domain d is the right one. */
  ghost predicate IsRight(w: Sources, pkg: Package, entry: Entry, d: string) {
    (exists x :: Reported(w, pkg, entry, x) && CrossingNames(x, d))
    <==> exists f :: InClosure(w, entry, f) && OwnedBy(pkg, f, d)
  }

  /** What a caller can test before the audit: its answer about d is right whatever the sources import exactly when no
      start file of the entry belongs to d. */
  lemma RightExactlyWithoutOwnedStart(pkg: Package, entry: Entry, d: string)
    requires entry.domain != AGGREGATE && IsForeign(entry, Some(d))
    ensures (forall w :: IsRight(w, pkg, entry, d)) <==> forall f :: f in entry.files ==> !OwnedBy(pkg, f, d)
  {
    if forall f :: f in entry.files ==> !OwnedBy(pkg, f, d) {
      forall w ensures IsRight(w, pkg, entry, d) {
        CrossingDecidesReach(w, pkg, entry, d);
      }
    } else {
      var w := Sources(map[], map[], map[], []);
      OwnedStartNeedsAnEdge(w, pkg, entry, d);
      NoImportsNoEdges(w);
      assert !EntersDomain(w, pkg, entry, d);
      assert !IsRight(w, pkg, entry, d);
    }
  }

  /** Two entries of a package that publish the same file under different domains. */
  const SHARED_FILE := "/p/src/a.ts"
  const ENTRY_X := Entry("./x", "x", [SHARED_FILE], "./src/a.ts")
  const ENTRY_Y := Entry("./y", "y", [SHARED_FILE], "./src/a.ts")

  lemma SharedFileIsPlain()
    ensures !IsIndexFile(SHARED_FILE)
  {
    var stem := WithoutExtension(SHARED_FILE);
    assert stem == SHARED_FILE[..|SHARED_FILE| - 3];
    assert stem[|stem| - 1] == 'a';
  }

  lemma SharedFileRoots(directory: string, entries: seq<Entry>)
    requires entries == [ENTRY_X, ENTRY_Y]
    ensures EntryRoots(directory, entries, {}) == [Root("x", SHARED_FILE), Root("y", SHARED_FILE)]
  {
    SharedFileIsPlain();
    OneFileRoot(directory, "x");
    OneFileRoot(directory, "y");
    assert entries[1..] == [ENTRY_Y] && entries[1..][1..] == [];
    assert EntryRoots(directory, entries[1..], {}) == [Root("y", SHARED_FILE)];
  }

  lemma OneFileRoot(directory: string, domain: string)
    ensures FilesRoots(directory, domain, [SHARED_FILE], {}) == [Root(domain, SHARED_FILE)]
  {
    SharedFileIsPlain();
    assert [SHARED_FILE][1..] == [];
    assert FileRoots(directory, domain, SHARED_FILE, {}) == [Root(domain, SHARED_FILE)];
  }

  lemma TiedRootsKeepOrder(a: Root, b: Root)
    requires a.path == b.path
    ensures SortRoots([a, b]) == [a, b]
  {
    assert [a, b][1..] == [b] && [b][1..] == [];
    assert Sorting.StableSort([b], LongerPath) == [b];
  }

  /** A file outside the shared directories belongs to the first of two roots that are the file itself. */
  lemma FirstRootOwns(pkg: Package, file: Node, first: Root, second: Root)
    requires pkg.roots == [first, second] && first.path == file && !IsShared(file, pkg)
             && Text.Inside(file, pkg.directory)
    ensures OwnedBy(pkg, file, first.domain)
  {
  }

  lemma SharedFileIsNotCore(pkg: Package)
    requires pkg.directory == "/p" && pkg.shared == ["/p/src/core", "/p/src/contracts"]
    ensures !IsShared(SHARED_FILE, pkg) && Text.Inside(SHARED_FILE, pkg.directory)
  {
    assert SHARED_FILE[7] == 'a';
    assert pkg.directory + "/src/core" == "/p/src/core" && pkg.directory + "/src/contracts" == "/p/src/contracts";
    assert "/p" + "/" == "/p/" <= SHARED_FILE;
  }

  /** The loader gives both domains the shared file as a root, the first listed wins, and the second entry's audit
      never names it although its closure starts with a file of that domain. */
  lemma OwnedStartCanBeMissed(pkg: Package, w: Sources)
    requires pkg == Package("@jini-ai/p", "/p", SortRoots(EntryRoots("/p", [ENTRY_X, ENTRY_Y], {})),
                            ["/p/src/core", "/p/src/contracts"], map[], map[])
    requires w == Sources(map[SHARED_FILE := []], map[], map[], [])
    ensures Root(ENTRY_Y.domain, SHARED_FILE) in pkg.roots
    ensures IsForeign(ENTRY_Y, Some("x")) && InClosure(w, ENTRY_Y, SHARED_FILE) && OwnedBy(pkg, SHARED_FILE, "x")
    ensures forall x :: Reported(w, pkg, ENTRY_Y, x) ==> !CrossingNames(x, "x")
  {
    SharedFileRoots("/p", [ENTRY_X, ENTRY_Y]);
    TiedRootsKeepOrder(Root("x", SHARED_FILE), Root("y", SHARED_FILE));
    SharedFileIsNotCore(pkg);
    FirstRootOwns(pkg, SHARED_FILE, Root("x", SHARED_FILE), Root("y", SHARED_FILE));
    ReachesSelf(ImportGraph(w), SHARED_FILE);
    NoImportsNoEdges(w);
    NoEdgeNoFinding(w, pkg, ENTRY_Y, "x");
  }

  /* ---- the worklist, popped in any order ---- */

  datatype Work = Work(visited: set<Node>, pending: seq<Node>)

  /** One turn of the loop with the file at position i popped: already visited, or visited now and its
      imports queued. */
  function Turn(g: Graph, s: Work, i: nat): Work
    requires i < |s.pending|
  {
    var file, rest := s.pending[i], s.pending[..i] + s.pending[i + 1..];
    if file in s.visited then Work(s.visited, rest) else Work(s.visited + {file}, rest + Succ(g, file))
  }

  ghost predicate WorkInvariant(g: Graph, starts: seq<Node>, s: Work) {
    && (forall f :: f in s.visited || f in s.pending ==> ReachedFrom(g, starts, f))
    && (forall f :: f in starts ==> f in s.visited || f in s.pending)
    && (forall f, t :: f in s.visited && t in Succ(g, f) ==> t in s.visited || t in s.pending)
  }

  lemma WorkBegins(g: Graph, starts: seq<Node>)
    ensures WorkInvariant(g, starts, Work({}, starts))
  {
    forall f | f in starts ensures ReachedFrom(g, starts, f) {
      ReachesSelf(g, f);
    }
  }

  lemma TurnMembers(g: Graph, s: Work, i: nat)
    requires i < |s.pending|
    ensures var file, next := s.pending[i], Turn(g, s, i);
            && file in next.visited
            && (forall f :: f in next.visited || f in next.pending
                            <==> f in s.visited || f in s.pending || (file !in s.visited && f in Succ(g, file)))
  {
    assert s.pending == s.pending[..i] + [s.pending[i]] + s.pending[i + 1..];
  }

  lemma TurnKeepsInvariant(g: Graph, starts: seq<Node>, s: Work, i: nat)
    requires WorkInvariant(g, starts, s) && i < |s.pending|
    ensures WorkInvariant(g, starts, Turn(g, s, i))
  {
    var file, next := s.pending[i], Turn(g, s, i);
    TurnMembers(g, s, i);
    assert ReachedFrom(g, starts, file);
    var a :| a in starts && Reaches(g, a, file);
    forall t | t in Succ(g, file) ensures ReachedFrom(g, starts, t) {
      ReachesStep(g, a, file, t);
    }
  }

  /** When nothing is pending, the files visited are exactly the least set that contains the starts and is
      closed under imports. */
  lemma WorkEnds(g: Graph, starts: seq<Node>, s: Work)
    requires WorkInvariant(g, starts, s) && s.pending == []
    ensures forall f :: f in s.visited <==> ReachedFrom(g, starts, f)
    ensures Elements(starts) <= s.visited && ClosedUnderSucc(g, s.visited)
    ensures forall closed :: Elements(starts) <= closed && ClosedUnderSucc(g, closed) ==> s.visited <= closed
  {
    forall f | ReachedFrom(g, starts, f) ensures f in s.visited {
      var a :| a in starts && Reaches(g, a, f);
      ClosedSetContains(g, s.visited, a, f);
    }
    forall closed, f | Elements(starts) <= closed && ClosedUnderSucc(g, closed) && f in s.visited ensures f in closed {
      var a :| a in starts && Reaches(g, a, f);
      assert a in Elements(starts);
      ClosedSetContains(g, closed, a, f);
    }
  }

  lemma EndsInClosure(w: Sources, starts: seq<Node>, files: set<Node>)
    requires Elements(starts) <= files && ClosedUnderSucc(ImportGraph(w), files)
    requires forall other :: Elements(starts) <= other && ClosedUnderSucc(ImportGraph(w), other) ==> files <= other
    ensures IsClosure(w, starts, files)
  {
    ClosedExactly(w, files);
    forall other | Elements(starts) <= other && ClosedUnderImports(w, other) ensures files <= other {
      ClosedExactly(w, other);
    }
  }

  /** Every file a walk from the starts can meet. */
  ghost function Universe(g: Graph, starts: seq<Node>): set<Node> {
    Elements(starts) + set f, t | f in g && t in g[f] :: t
  }

  lemma PendingInUniverse(g: Graph, starts: seq<Node>, f: Node)
    requires ReachedFrom(g, starts, f)
    ensures f in Universe(g, starts)
  {
    var a :| a in starts && Reaches(g, a, f);
    assert a in Elements(starts);
    ClosedSetContains(g, Universe(g, starts), a, f);
  }

  /** The loop's measure: files not yet visited, then files pending. */
  ghost function Unvisited(g: Graph, starts: seq<Node>, s: Work): nat {
    |Universe(g, starts) - s.visited|
  }

  ghost predicate Lowers(g: Graph, starts: seq<Node>, s: Work, next: Work) {
    || Unvisited(g, starts, next) < Unvisited(g, starts, s)
    || (Unvisited(g, starts, next) == Unvisited(g, starts, s) && |next.pending| < |s.pending|)
  }

  /** Every turn lowers it, on cyclic graphs too. */
  lemma TurnLowersMeasure(g: Graph, starts: seq<Node>, s: Work, i: nat)
    requires WorkInvariant(g, starts, s) && i < |s.pending|
    ensures Lowers(g, starts, s, Turn(g, s, i))
  {
    var file := s.pending[i];
    if file !in s.visited {
      PendingInUniverse(g, starts, file);
      var left := Universe(g, starts) - s.visited;
      assert Universe(g, starts) - (s.visited + {file}) == left - {file};
    }
  }

  /** The work left after popping at the given positions, one turn each. */
  ghost function Drain(g: Graph, s: Work, picks: seq<nat>): Option<Work>
    decreases picks
  {
    if picks == [] then Some(s)
    else if picks[0] < |s.pending| then Drain(g, Turn(g, s, picks[0]), picks[1..])
    else None
  }

  lemma {:induction false} DrainKeepsInvariant(g: Graph, starts: seq<Node>, s: Work, picks: seq<nat>)
    requires WorkInvariant(g, starts, s)
    ensures Drain(g, s, picks).Some? ==> WorkInvariant(g, starts, Drain(g, s, picks).value)
    decreases picks
  {
    if picks != [] && picks[0] < |s.pending| {
      TurnKeepsInvariant(g, starts, s, picks[0]);
      DrainKeepsInvariant(g, starts, Turn(g, s, picks[0]), picks[1..]);
    }
  }

  /** Whatever order the files are popped in, a drained worklist has visited exactly the closure. */
  lemma AnyOrderGivesTheClosure(g: Graph, starts: seq<Node>, picks: seq<nat>)
    requires Drain(g, Work({}, starts), picks).Some? && Drain(g, Work({}, starts), picks).value.pending == []
    ensures forall f :: f in Drain(g, Work({}, starts), picks).value.visited <==> ReachedFrom(g, starts, f)
  {
    WorkBegins(g, starts);
    DrainKeepsInvariant(g, starts, Work({}, starts), picks);
    WorkEnds(g, starts, Drain(g, Work({}, starts), picks).value);
  }

  /* ---- the audit as the code runs it ---- */

  /** Findings are appended once each. */
  function Record(findings: seq<Finding>, more: seq<Finding>): seq<Finding>
    decreases more
  {
    if more == [] then findings
    else Record(if more[0] in findings then findings else findings + [more[0]], more[1..])
  }

  lemma {:induction false} RecordConcat(findings: seq<Finding>, a: seq<Finding>, b: seq<Finding>)
    ensures Record(findings, a + b) == Record(Record(findings, a), b)
    decreases a
  {
    if a == [] {
      assert a + b == b;
    } else {
      assert (a + b)[0] == a[0] && (a + b)[1..] == a[1..] + b;
      RecordConcat(if a[0] in findings then findings else findings + [a[0]], a[1..], b);
    }
  }

  lemma {:induction false} RecordMembers(findings: seq<Finding>, more: seq<Finding>)
    ensures forall x :: x in Record(findings, more) <==> x in findings || x in more
    ensures NoDuplicates(findings) ==> NoDuplicates(Record(findings, more))
    decreases more
  {
    if more != [] {
      RecordMembers(if more[0] in findings then findings else findings + [more[0]], more[1..]);
      assert more == [more[0]] + more[1..];
    }
  }

  ghost predicate NoDuplicates(findings: seq<Finding>) {
    forall i, j :: 0 <= i < j < |findings| ==> findings[i] != findings[j]
  }

  /** What is left to do from the i-th import on, split into that import and the rest. */
  lemma RefsStep(w: Sources, pkg: Package, entry: Entry, file: Node, refs: seq<Ref>, i: nat,
                 findings: seq<Finding>, pending: seq<Node>, dependencies: set<string>)
    requires i < |refs|
    ensures pending + RefsTargets(w, refs[i..])
            == (pending + RuntimeTargets(w, refs[i])) + RefsTargets(w, refs[i + 1..])
    ensures dependencies + RefsDependencies(refs[i..])
            == (dependencies + RuntimeDependencies(refs[i])) + RefsDependencies(refs[i + 1..])
    ensures Record(findings, RefsFindings(w, pkg, entry, file, refs[i..]))
         == Record(Record(findings, RuntimeFindings(w, pkg, entry, file, refs[i])),
                   RefsFindings(w, pkg, entry, file, refs[i + 1..]))
  {
    assert refs[i..][0] == refs[i] && refs[i..][1..] == refs[i + 1..];
    RecordConcat(findings, RuntimeFindings(w, pkg, entry, file, refs[i]),
                 RefsFindings(w, pkg, entry, file, refs[i + 1..]));
  }

  class Audit {
    const sources: Sources
    var findings: seq<Finding>
    var seen: set<Finding>
    var pending: seq<Node>
    var visited: set<Node>
    var dependencies: set<string>

    ghost predicate Valid()
      reads this
    {
      (forall x :: x in seen <==> x in findings) && NoDuplicates(findings)
    }

    constructor (w: Sources)
      ensures Valid() && sources == w && findings == []
    {
      sources := w;
      findings, seen, pending, visited, dependencies := [], {}, [], {}, {};
    }

    method Add(x: Finding)
      requires Valid()
      modifies this`findings, this`seen
      ensures Valid() && findings == Record(old(findings), [x])
    {
      assert [x][1..] == [];
      if x !in seen {
        findings := findings + [x];
        seen := seen + {x};
      }
    }

    method AddEach(more: seq<Finding>)
      requires Valid()
      modifies this`findings, this`seen
      ensures Valid() && findings == Record(old(findings), more)
    {
      var i := 0;
      while i < |more|
        invariant 0 <= i <= |more| && Valid()
        invariant findings == Record(old(findings), more[..i])
      {
        RecordConcat(old(findings), more[..i], [more[i]]);
        assert more[..i + 1] == more[..i] + [more[i]];
        Add(more[i]);
        i := i + 1;
      }
      assert more[..i] == more;
    }

    /** Reports each target that crosses into a foreign domain and queues every target. */
    method EnqueueTargets(pkg: Package, entry: Entry, file: Node, ref: Ref, targets: seq<Node>)
      requires Valid()
      modifies this`findings, this`seen, this`pending
      ensures Valid() && pending == old(pending) + targets
      ensures findings == Record(old(findings), CrossingFindings(pkg, entry, file, ref.specifier, targets))
    {
      var i := 0;
      while i < |targets|
        invariant 0 <= i <= |targets| && Valid()
        invariant pending == old(pending) + targets[..i]
        invariant Record(findings, CrossingFindings(pkg, entry, file, ref.specifier, targets[i..]))
               == Record(old(findings), CrossingFindings(pkg, entry, file, ref.specifier, targets))
      {
        var target := targets[i];
        assert targets[i..][0] == target && targets[i..][1..] == targets[i + 1..];
        if Crosses(pkg, entry, file, target) {
          ghost var before := findings;
          var x := Crossing(pkg.name, entry.subpath, entry.domain, file, target, Owner(target, pkg).value,
                            ref.specifier);
          RecordConcat(before, [x], CrossingFindings(pkg, entry, file, ref.specifier, targets[i + 1..]));
          Add(x);
        } else {
          assert CrossingFindings(pkg, entry, file, ref.specifier, targets[i..])
              == CrossingFindings(pkg, entry, file, ref.specifier, targets[i + 1..]);
        }
        pending := pending + [target];
        i := i + 1;
      }
      assert targets[..i] == targets;
    }

    method AuditRef(pkg: Package, entry: Entry, file: Node, ref: Ref)
      requires Valid() && !ref.typeOnly
      modifies this`findings, this`seen, this`pending, this`dependencies
      ensures Valid() && pending == old(pending) + Targets(sources, ref)
      ensures dependencies == old(dependencies) + Dependencies(ref)
      ensures findings == Record(old(findings), RefFindings(sources, pkg, entry, file, ref))
    {
      ghost var byDefault, resolving :=
        DefaultLoadFindings(sources, pkg, entry, file, ref), ResolutionFindings(sources, pkg, entry, file, ref);
      ghost var crossing := CrossingFindings(pkg, entry, file, ref.specifier, Targets(sources, ref));
      RecordConcat(findings, byDefault, resolving);
      RecordConcat(findings, byDefault + resolving, crossing);
      RecordConcat(findings, byDefault + resolving + crossing, ForbiddenFindings(pkg, entry, file, ref));
      AddEach(DefaultLoadFindings(sources, pkg, entry, file, ref));
      dependencies := dependencies + Dependencies(ref);
      AddEach(ResolutionFindings(sources, pkg, entry, file, ref));
      EnqueueTargets(pkg, entry, file, ref, Targets(sources, ref));
      AddEach(ForbiddenFindings(pkg, entry, file, ref));
    }

    /** A type-only import is skipped. */
    method AuditRuntimeRef(pkg: Package, entry: Entry, file: Node, ref: Ref)
      requires Valid()
      modifies this`findings, this`seen, this`pending, this`dependencies
      ensures Valid() && pending == old(pending) + RuntimeTargets(sources, ref)
      ensures dependencies == old(dependencies) + RuntimeDependencies(ref)
      ensures findings == Record(old(findings), RuntimeFindings(sources, pkg, entry, file, ref))
    {
      if !ref.typeOnly {
        AuditRef(pkg, entry, file, ref);
      }
    }

    method AuditRefs(pkg: Package, entry: Entry, file: Node, refs: seq<Ref>)
      requires Valid()
      modifies this`findings, this`seen, this`pending, this`dependencies
      ensures Valid() && pending == old(pending) + RefsTargets(sources, refs)
      ensures dependencies == old(dependencies) + RefsDependencies(refs)
      ensures findings == Record(old(findings), RefsFindings(sources, pkg, entry, file, refs))
    {
      var i := 0;
      while i < |refs|
        invariant 0 <= i <= |refs| && Valid()
        invariant pending + RefsTargets(sources, refs[i..]) == old(pending) + RefsTargets(sources, refs)
        invariant dependencies + RefsDependencies(refs[i..]) == old(dependencies) + RefsDependencies(refs)
        invariant Record(findings, RefsFindings(sources, pkg, entry, file, refs[i..]))
               == Record(old(findings), RefsFindings(sources, pkg, entry, file, refs))
      {
        RefsStep(sources, pkg, entry, file, refs, i, findings, pending, dependencies);
        AuditRuntimeRef(pkg, entry, file, refs[i]);
        i := i + 1;
      }
    }

    /** Audits one code file: its top-level effects, then each runtime import. */
    method AuditFile(pkg: Package, entry: Entry, file: Node)
      requires Valid() && IsCode(file)
      modifies this`findings, this`seen, this`pending, this`dependencies
      ensures Valid() && pending == old(pending) + Succ(ImportGraph(sources), file)
      ensures dependencies == old(dependencies) + RefsDependencies(RefsOf(sources, file))
      ensures findings == Record(old(findings), FileFindings(sources, pkg, entry, file))
    {
      var effects := EffectsOf(sources, pkg, file);
      RecordConcat(findings, EffectFindings(pkg, entry, file, effects),
                   RefsFindings(sources, pkg, entry, file, RefsOf(sources, file)));
      AddEach(EffectFindings(pkg, entry, file, effects));
      AuditRefs(pkg, entry, file, RefsOf(sources, file));
    }

    /** The findings are the earlier ones and what the visited code files report. */
    ghost predicate Accounts(pkg: Package, entry: Entry, before: seq<Finding>)
      reads this
    {
      forall x :: x in findings
        <==> x in before || exists f :: f in visited && IsCode(f) && x in FileFindings(sources, pkg, entry, f)
    }

    ghost predicate AccountsDependencies()
      reads this
    {
      forall d :: d in dependencies
        <==> exists f :: f in visited && IsCode(f) && d in RefsDependencies(RefsOf(sources, f))
    }

    /** One turn of the loop: the file popped last is skipped when visited, and audited when it is code. */
    method PopOne(pkg: Package, entry: Entry, ghost before: seq<Finding>)
      requires Valid() && pending != [] && Accounts(pkg, entry, before) && AccountsDependencies()
      modifies this
      ensures Valid() && Accounts(pkg, entry, before) && AccountsDependencies()
      ensures Work(visited, pending) == Turn(ImportGraph(sources), old(Work(visited, pending)), |old(pending)| - 1)
    {
      var last := |pending| - 1;
      var file := pending[last];
      assert pending[..last] + pending[last + 1..] == pending[..last];
      pending := pending[..last];
      if file in visited { return; }
      visited := visited + {file};
      if !IsCode(file) { return; }
      RecordMembers(findings, FileFindings(sources, pkg, entry, file));
      AuditFile(pkg, entry, file);
    }

    /** The loop's invariant. */
    ghost predicate Walking(pkg: Package, entry: Entry, before: seq<Finding>)
      reads this
    {
      && Valid() && Accounts(pkg, entry, before) && AccountsDependencies()
      && WorkInvariant(ImportGraph(sources), entry.files, Work(visited, pending))
    }

    method PopNext(pkg: Package, entry: Entry, ghost before: seq<Finding>)
      requires Walking(pkg, entry, before) && pending != []
      modifies this
      ensures Walking(pkg, entry, before)
      ensures Lowers(ImportGraph(sources), entry.files, old(Work(visited, pending)), Work(visited, pending))
    {
      ghost var g, s, last := ImportGraph(sources), Work(visited, pending), |pending| - 1;
      TurnKeepsInvariant(g, entry.files, s, last);
      TurnLowersMeasure(g, entry.files, s, last);
      PopOne(pkg, entry, before);
      assert Work(visited, pending) == Turn(g, s, last);
    }

    /** The loop of `auditEntry`. */
    method Walk(pkg: Package, entry: Entry)
      requires Walking(pkg, entry, findings)
      modifies this
      ensures Walking(pkg, entry, old(findings)) && pending == []
    {
      while pending != []
        invariant Walking(pkg, entry, old(findings))
        decreases Unvisited(ImportGraph(sources), entry.files, Work(visited, pending)), |pending|
      {
        PopNext(pkg, entry, old(findings));
      }
    }

    /** Walks one entry: visits exactly its import closure, collects exactly the packages imported there, and
        reports exactly what the closure's code files report, an entry without source, and an aggregate
        that mixes domains. */
    method AuditEntry(pkg: Package, entry: Entry)
      requires Valid()
      modifies this
      ensures Valid()
      ensures forall f :: f in visited <==> InClosure(sources, entry, f)
      ensures IsClosure(sources, entry.files, visited)
      ensures forall d :: d in dependencies <==> IsImported(sources, entry, d)
      ensures forall x :: x in findings <==>
                          || x in old(findings) || x in MissingSource(pkg, entry) || Reported(sources, pkg, entry, x)
                          || x in AggregateFindings(pkg, entry, visited)
    {
      AddEach(MissingSource(pkg, entry));
      RecordMembers(old(findings), MissingSource(pkg, entry));
      ghost var before := findings;
      visited, dependencies, pending := {}, {}, entry.files;
      WorkBegins(ImportGraph(sources), entry.files);
      Walk(pkg, entry);
      AccountsAreReports(pkg, entry, before);
      WorkEnds(ImportGraph(sources), entry.files, Work(visited, pending));
      EndsInClosure(sources, entry.files, visited);
      RecordMembers(findings, AggregateFindings(pkg, entry, visited));
      AddEach(AggregateFindings(pkg, entry, visited));
    }

    lemma AccountsAreReports(pkg: Package, entry: Entry, before: seq<Finding>)
      requires Walking(pkg, entry, before) && pending == []
      ensures forall f :: f in visited <==> InClosure(sources, entry, f)
      ensures forall x :: x in findings <==> x in before || Reported(sources, pkg, entry, x)
      ensures forall d :: d in dependencies <==> IsImported(sources, entry, d)
    {
      WorkEnds(ImportGraph(sources), entry.files, Work(visited, pending));
    }
  }

  function MissingSource(pkg: Package, entry: Entry): seq<Finding> {
    if entry.files == [] then [NoSourceFile(pkg.name, entry.subpath, entry.target)] else []
  }

  /** The domains a compatibility barrel loads, core aside. */
  function LoadedDomains(pkg: Package, visited: set<Node>): set<string> {
    set f | f in visited && OwnDomain(f, pkg).Some? && OwnDomain(f, pkg).value != ""
      && OwnDomain(f, pkg).value != CORE :: OwnDomain(f, pkg).value
  }

  function AggregateFindings(pkg: Package, entry: Entry, visited: set<Node>): seq<Finding> {
    var domains := LoadedDomains(pkg, visited);
    if entry.domain == AGGREGATE && |domains| > 1 && entry.files != []
    then [Aggregate(pkg.name, entry.subpath, entry.files[0], domains)] else []
  }

  /** A domain of a file other than core, by which an aggregate can mix. */
  ghost predicate Loads(pkg: Package, visited: set<Node>, d: string) {
    d !in {"", "core"} && exists f :: f in visited && OwnedBy(pkg, f, d)
  }

  /** An aggregate with source is reported exactly when two files of its closure belong to different domains, core
      aside; the finding names all such domains. */
  lemma AggregateExactly(pkg: Package, entry: Entry, visited: set<Node>)
    ensures AggregateFindings(pkg, entry, visited) != []
            <==> entry.domain == "$aggregate" && entry.files != []
                 && exists d, e :: d != e && Loads(pkg, visited, d) && Loads(pkg, visited, e)
    ensures forall x :: x in AggregateFindings(pkg, entry, visited)
                        ==> x.Aggregate? && x.package == pkg.name && x.subpath == entry.subpath
                            && forall d :: d in x.domains <==> Loads(pkg, visited, d)
  {
    var domains := LoadedDomains(pkg, visited);
    forall d ensures d in domains <==> Loads(pkg, visited, d) {
      if f :| f in visited && OwnedBy(pkg, f, d) {
        assert OwnDomain(f, pkg) == Some(d);
      }
    }
    if d, e :| d != e && Loads(pkg, visited, d) && Loads(pkg, visited, e) {
      SubsetIsSmaller({d, e}, domains);
    }
    if |domains| > 1 {
      var d :| d in domains;
      assert |domains - {d}| > 0;
      var e :| e in domains - {d};
      assert Loads(pkg, visited, d) && Loads(pkg, visited, e);
    }
  }
}
