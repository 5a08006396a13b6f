/** The peer range check of `peer-range-compatibility.ts`: public packages must not declare peer ranges that have
    no version in common. `semver` is a parameter: which ranges are valid and which pairs intersect. */
module PeerRanges {
  import opened Sequences

  datatype Semver = Semver(valid: string -> bool, intersects: (string, string) -> bool)

  datatype Peer = Peer(name: string, range: string)

  /** A manifest: its name ('(unnamed package)' when it has none), whether it is private, its peers in order. */
  datatype Package = Package(name: string, isPrivate: bool, peers: seq<Peer>)

  datatype Declaration = Declaration(name: string, range: string)

  datatype Conflict = Conflict(peer: string, a: Declaration, b: Declaration)

  datatype Verdict =
    | Accepted | InvalidRange(name: string, peer: string, range: string) | Incompatible(conflicts: seq<Conflict>)

  function DeclaredAt(pkg: Package, i: nat, peer: string): seq<Declaration>
    requires i < |pkg.peers|
  {
    if pkg.peers[i].name == peer then [Declaration(pkg.name, pkg.peers[i].range)] else []
  }

  /** What a package's first i peer entries declare for one peer, in order. */
  function DeclaredUpTo(pkg: Package, i: nat, peer: string): seq<Declaration>
    requires i <= |pkg.peers|
  {
    if i == 0 then [] else DeclaredUpTo(pkg, i - 1, peer) + DeclaredAt(pkg, i - 1, peer)
  }

  /** What the public packages declare for one peer, in order. */
  function Declarations(packages: seq<Package>, peer: string): seq<Declaration> {
    if packages == [] then []
    else
      var last := packages[|packages| - 1];
      Declarations(packages[..|packages| - 1], peer) + if last.isPrivate then []
        else DeclaredUpTo(last, |last.peers|, peer)
  }

  /** A public package declares an invalid range. */
  ghost predicate HasInvalid(semver: Semver, packages: seq<Package>, name: string, peer: Peer) {
    exists p :: p in packages && !p.isPrivate && p.name == name && peer in p.peers && !semver.valid(peer.range)
  }

  ghost predicate AllValid(semver: Semver, packages: seq<Package>) {
    forall p, peer :: p in packages && !p.isPrivate && peer in p.peers ==> semver.valid(peer.range)
  }

  ghost predicate PairsIntersect(semver: Semver, declarations: seq<Declaration>) {
    forall i, j :: 0 <= i < j < |declarations| ==> semver.intersects(declarations[i].range, declarations[j].range)
  }

  ghost predicate Clashes(semver: Semver, declarations: seq<Declaration>, a: Declaration, b: Declaration) {
    exists i, j :: 0 <= i < j < |declarations| && declarations[i] == a && declarations[j] == b
      && !semver.intersects(a.range, b.range)
  }

  /** `peerConflicts`: every pair without a common version, and nothing else. */
  method PeerConflicts(semver: Semver, peer: string, declarations: seq<Declaration>) returns (conflicts: seq<Conflict>)
    ensures forall c :: c in conflicts <==> c.peer == peer && Clashes(semver, declarations, c.a, c.b)
    ensures conflicts == [] <==> PairsIntersect(semver, declarations)
  {
    conflicts := [];
    var left := 0;
    while left < |declarations|
      invariant 0 <= left <= |declarations|
      invariant forall c :: c in conflicts <==> c.peer == peer && ClashesUpTo(semver, declarations, left, 0, c.a, c.b)
    {
      var right := left + 1;
      while right < |declarations|
        invariant left < right <= |declarations|
        invariant forall c :: c in conflicts
                              <==> c.peer == peer && ClashesUpTo(semver, declarations, left, right, c.a, c.b)
      {
        var a, b := declarations[left], declarations[right];
        if !semver.intersects(a.range, b.range) {
          conflicts := conflicts + [Conflict(peer, a, b)];
        }
        right := right + 1;
      }
      left := left + 1;
    }
    PairsOrClash(semver, declarations);
    forall a, b ensures Clashes(semver, declarations, a, b) <==> Conflict(peer, a, b) in conflicts {
    }
    if conflicts != [] {
      assert conflicts[0] in conflicts;
    }
  }

  /** The clashes found so far: all rows before `left`, and row `left` up to `right`. */
  ghost predicate ClashesUpTo(semver: Semver, declarations: seq<Declaration>, left: nat, right: nat, a: Declaration,
                              b: Declaration) {
    exists i, j :: 0 <= i < j < |declarations| && (i < left || (i == left && j < right))
                   && declarations[i] == a && declarations[j] == b && !semver.intersects(a.range, b.range)
  }

  function Listed(byPeer: map<string, seq<Declaration>>, peer: string): seq<Declaration> {
    if peer in byPeer then byPeer[peer] else []
  }

  ghost predicate RangesValid(semver: Semver, pkg: Package, i: nat)
    requires i <= |pkg.peers|
  {
    forall k :: 0 <= k < i ==> semver.valid(pkg.peers[k].range)
  }

  /** `grouped` extends `byPeer` by the package's first i declarations. */
  ghost predicate Extends(pkg: Package, i: nat, byPeer: map<string, seq<Declaration>>,
                          grouped: map<string, seq<Declaration>>)
    requires i <= |pkg.peers|
  {
    forall name :: Listed(grouped, name) == Listed(byPeer, name) + DeclaredUpTo(pkg, i, name)
  }

  function AddPeer(pkg: Package, i: nat, grouped: map<string, seq<Declaration>>): map<string, seq<Declaration>>
    requires i < |pkg.peers|
  {
    var peer := pkg.peers[i];
    grouped[peer.name := Listed(grouped, peer.name) + [Declaration(pkg.name, peer.range)]]
  }

  /** The map after the package's first i entries. */
  function GroupedUpTo(pkg: Package, i: nat, byPeer: map<string, seq<Declaration>>): map<string, seq<Declaration>>
    requires i <= |pkg.peers|
  {
    if i == 0 then byPeer else AddPeer(pkg, i - 1, GroupedUpTo(pkg, i - 1, byPeer))
  }

  lemma AddPeerAt(pkg: Package, i: nat, grouped: map<string, seq<Declaration>>, name: string)
    requires i < |pkg.peers|
    ensures Listed(AddPeer(pkg, i, grouped), name) == Listed(grouped, name) + DeclaredAt(pkg, i, name)
  {
    if pkg.peers[i].name != name {
      assert Listed(grouped, name) + [] == Listed(grouped, name);
    }
  }

  lemma AddPeerExtends(pkg: Package, i: nat, byPeer: map<string, seq<Declaration>>,
                       grouped: map<string, seq<Declaration>>)
    requires i < |pkg.peers| && Extends(pkg, i, byPeer, grouped)
    ensures Extends(pkg, i + 1, byPeer, AddPeer(pkg, i, grouped))
  {
    forall name
      ensures Listed(AddPeer(pkg, i, grouped), name) == Listed(byPeer, name) + DeclaredUpTo(pkg, i + 1, name)
    {
      AddPeerAt(pkg, i, grouped, name);
      Regroup(Listed(byPeer, name), DeclaredUpTo(pkg, i, name), DeclaredAt(pkg, i, name));
    }
  }

  lemma NothingAdded(pkg: Package, byPeer: map<string, seq<Declaration>>)
    ensures Extends(pkg, 0, byPeer, byPeer)
  {
  }

  lemma OneMoreGrouped(pkg: Package, i: nat, byPeer: map<string, seq<Declaration>>)
    requires i < |pkg.peers|
    ensures GroupedUpTo(pkg, i + 1, byPeer) == AddPeer(pkg, i, GroupedUpTo(pkg, i, byPeer))
  {
  }

  lemma {:induction false} GroupingExtends(pkg: Package, i: nat, byPeer: map<string, seq<Declaration>>)
    requires i <= |pkg.peers|
    ensures Extends(pkg, i, byPeer, GroupedUpTo(pkg, i, byPeer))
  {
    if i == 0 {
      NothingAdded(pkg, byPeer);
    } else {
      var before := GroupedUpTo(pkg, i - 1, byPeer);
      GroupingExtends(pkg, i - 1, byPeer);
      AddPeerExtends(pkg, i - 1, byPeer, before);
      OneMoreGrouped(pkg, i - 1, byPeer);
    }
  }

  /** Entry k, and none before it, has an invalid range. */
  ghost predicate FirstInvalidAt(semver: Semver, pkg: Package, k: nat, peer: Peer) {
    k < |pkg.peers| && pkg.peers[k] == peer && !semver.valid(peer.range) && RangesValid(semver, pkg, k)
  }

  /** That entry of that package is the first of all public ones with an invalid range. */
  ghost predicate IsFirstInvalid(semver: Semver, packages: seq<Package>, name: string, peer: Peer) {
    exists p, k :: 0 <= p < |packages| && !packages[p].isPrivate && packages[p].name == name
                   && AllValid(semver, packages[..p]) && FirstInvalidAt(semver, packages[p], k, peer)
  }

  /** Groups one public package's peers; stops at an invalid range. */
  method GroupPackage(semver: Semver, pkg: Package, byPeer: map<string, seq<Declaration>>)
    returns (grouped: map<string, seq<Declaration>>, invalid: Verdict)
    ensures invalid.Accepted? || (invalid.InvalidRange? && invalid.name == pkg.name
                                    && Peer(invalid.peer, invalid.range) in pkg.peers && !semver.valid(invalid.range))
    ensures invalid.InvalidRange? ==> exists k :: FirstInvalidAt(semver, pkg, k, Peer(invalid.peer, invalid.range))
    ensures invalid.Accepted?
            ==> RangesValid(semver, pkg, |pkg.peers|) && grouped == GroupedUpTo(pkg, |pkg.peers|, byPeer)
  {
    grouped := byPeer;
    var i := 0;
    while i < |pkg.peers|
      invariant 0 <= i <= |pkg.peers|
      invariant RangesValid(semver, pkg, i)
      invariant grouped == GroupedUpTo(pkg, i, byPeer)
    {
      var peer := pkg.peers[i];
      if !semver.valid(peer.range) {
        assert Peer(peer.name, peer.range) == pkg.peers[i];
        assert FirstInvalidAt(semver, pkg, i, peer);
        return grouped, InvalidRange(pkg.name, peer.name, peer.range);
      }
      grouped := grouped[peer.name := Listed(grouped, peer.name) + [Declaration(pkg.name, peer.range)]];
      i := i + 1;
    }
    return grouped, Accepted;
  }

  /** `assertCompatiblePeerRanges`: accepts exactly when every public range is valid and, for each peer, every
      pair of public declarations intersects; otherwise it names an invalid range or every clashing pair. */
  method AssertCompatiblePeerRanges(semver: Semver, packages: seq<Package>) returns (verdict: Verdict)
    ensures verdict.Accepted?
            <==> AllValid(semver, packages) && forall peer :: PairsIntersect(semver, Declarations(packages, peer))
    ensures verdict.InvalidRange? ==> HasInvalid(semver, packages, verdict.name, Peer(verdict.peer, verdict.range))
    ensures verdict.InvalidRange?
            ==> IsFirstInvalid(semver, packages, verdict.name, Peer(verdict.peer, verdict.range))
    ensures verdict.Incompatible? ==> AllValid(semver, packages)
    ensures verdict.Incompatible? ==>
              forall c :: c in verdict.conflicts <==> Clashes(semver, Declarations(packages, c.peer), c.a, c.b)
    ensures verdict.Accepted?
            <==> AllValid(semver, packages) && forall peer :: Agree(semver, packages, peer)
    ensures verdict.Incompatible?
            ==> forall c :: c in verdict.conflicts <==> Disagree(semver, packages, c.peer, c.a, c.b)
  {
    var byPeer: map<string, seq<Declaration>> := map[];
    var i := 0;
    while i < |packages|
      invariant 0 <= i <= |packages|
      invariant AllValid(semver, packages[..i])
      invariant Groups(packages[..i], byPeer)
    {
      var pkg := packages[i];
      var invalid := Accepted;
      var grouped := byPeer;
      if !pkg.isPrivate {
        grouped, invalid := GroupPackage(semver, pkg, byPeer);
        if !invalid.Accepted? {
          InvalidIsReported(semver, packages, i, Peer(invalid.peer, invalid.range));
          assert !AllValid(semver, packages);
          return invalid;
        }
      }
      GroupsNext(semver, packages, i, byPeer, grouped);
      byPeer := grouped;
      i := i + 1;
    }
    assert packages[..i] == packages;
    var conflicts := AllConflicts(semver, byPeer);
    GroupedClashes(semver, packages, byPeer, conflicts);
    ConflictsDecide(semver, packages, conflicts);
    verdict := if conflicts == [] then Accepted else Incompatible(conflicts);
    VerdictExactly(semver, packages, verdict);
  }

  ghost predicate Groups(packages: seq<Package>, byPeer: map<string, seq<Declaration>>) {
    forall peer :: Listed(byPeer, peer) == Declarations(packages, peer)
  }

  lemma InvalidIsReported(semver: Semver, packages: seq<Package>, i: nat, peer: Peer)
    requires i < |packages| && !packages[i].isPrivate && peer in packages[i].peers && !semver.valid(peer.range)
    ensures HasInvalid(semver, packages, packages[i].name, peer) && !AllValid(semver, packages)
  {
    assert packages[i] in packages;
  }

  lemma GroupsNext(semver: Semver, packages: seq<Package>, i: nat, byPeer: map<string, seq<Declaration>>,
                   grouped: map<string, seq<Declaration>>)
    requires i < |packages| && AllValid(semver, packages[..i]) && Groups(packages[..i], byPeer)
    requires var pkg := packages[i];
             if pkg.isPrivate then grouped == byPeer
             else RangesValid(semver, pkg, |pkg.peers|) && grouped == GroupedUpTo(pkg, |pkg.peers|, byPeer)
    ensures AllValid(semver, packages[..i + 1]) && Groups(packages[..i + 1], grouped)
  {
    var pkg, now := packages[i], packages[..i + 1];
    assert now == packages[..i] + [pkg];
    forall p, peer | p in now && !p.isPrivate && peer in p.peers ensures semver.valid(peer.range) {
      if p !in packages[..i] {
        assert p == pkg;
      }
    }
    assert now[..|now| - 1] == packages[..i];
    GroupingExtends(pkg, |pkg.peers|, byPeer);
    forall peer ensures Listed(grouped, peer) == Declarations(now, peer) {
      assert Listed(byPeer, peer) == Declarations(packages[..i], peer);
    }
  }

  lemma GroupedClashes(semver: Semver, packages: seq<Package>, byPeer: map<string, seq<Declaration>>,
                       conflicts: seq<Conflict>)
    requires Groups(packages, byPeer)
    requires forall c :: c in conflicts <==> Clashes(semver, Listed(byPeer, c.peer), c.a, c.b)
    ensures forall c :: c in conflicts <==> Clashes(semver, Declarations(packages, c.peer), c.a, c.b)
  {
    forall c ensures c in conflicts <==> Clashes(semver, Declarations(packages, c.peer), c.a, c.b) {
      assert Listed(byPeer, c.peer) == Declarations(packages, c.peer);
    }
  }

  lemma ConflictsDecide(semver: Semver, packages: seq<Package>, conflicts: seq<Conflict>)
    requires forall c :: c in conflicts <==> Clashes(semver, Declarations(packages, c.peer), c.a, c.b)
    ensures conflicts == [] <==> forall peer :: PairsIntersect(semver, Declarations(packages, peer))
  {
    if conflicts != [] {
      var c := conflicts[0];
      assert c in conflicts;
      PairsOrClash(semver, Declarations(packages, c.peer));
      assert Clashes(semver, Declarations(packages, c.peer), c.a, c.b);
      assert !PairsIntersect(semver, Declarations(packages, c.peer));
    } else {
      forall peer ensures PairsIntersect(semver, Declarations(packages, peer)) {
        PairsOrClash(semver, Declarations(packages, peer));
        forall a, b ensures !Clashes(semver, Declarations(packages, peer), a, b) {
          assert Conflict(peer, a, b) !in conflicts;
        }
      }
    }
  }

  lemma PairsOrClash(semver: Semver, declarations: seq<Declaration>)
    ensures PairsIntersect(semver, declarations) <==> !exists a, b :: Clashes(semver, declarations, a, b)
  {
    if !PairsIntersect(semver, declarations) {
      var i, j :| 0 <= i < j < |declarations| && !semver.intersects(declarations[i].range, declarations[j].range);
      assert Clashes(semver, declarations, declarations[i], declarations[j]);
    }
  }

  /** The conflicts of every group, one peer after another. */
  method AllConflicts(semver: Semver, byPeer: map<string, seq<Declaration>>) returns (conflicts: seq<Conflict>)
    ensures forall c :: c in conflicts <==> Clashes(semver, Listed(byPeer, c.peer), c.a, c.b)
  {
    conflicts := [];
    var rest := byPeer.Keys;
    while rest != {}
      invariant rest <= byPeer.Keys
      invariant forall c :: c in conflicts
                            <==> c.peer in byPeer && c.peer !in rest && Clashes(semver, byPeer[c.peer], c.a, c.b)
      decreases rest
    {
      var peer :| peer in rest;
      var found := PeerConflicts(semver, peer, byPeer[peer]);
      conflicts := conflicts + found;
      rest := rest - {peer};
    }
  }

  /* ---- declarations, by where they stand ---- */

  /** Entry k of the package's peers is that declaration. */
  ghost predicate Declares(pkg: Package, k: nat, peer: string, d: Declaration) {
    k < |pkg.peers| && pkg.peers[k].name == peer && d == Declaration(pkg.name, pkg.peers[k].range)
  }

  ghost predicate PublicDeclares(packages: seq<Package>, p: nat, k: nat, peer: string, d: Declaration) {
    p < |packages| && !packages[p].isPrivate && Declares(packages[p], k, peer, d)
  }

  /** Two declarations of one peer by public packages, in the order of packages and entries, that share no version. */
  ghost predicate Disagree(semver: Semver, packages: seq<Package>, peer: string, a: Declaration, b: Declaration) {
    !semver.intersects(a.range, b.range)
    && exists p, k, q, l :: PublicDeclares(packages, p, k, peer, a) && PublicDeclares(packages, q, l, peer, b)
                            && (p < q || (p == q && k < l))
  }

  ghost predicate InOrder(s: seq<Declaration>, a: Declaration, b: Declaration) {
    exists i, j :: 0 <= i < j < |s| && s[i] == a && s[j] == b
  }

  lemma InOrderConcat(x: seq<Declaration>, y: seq<Declaration>, a: Declaration, b: Declaration)
    ensures InOrder(x + y, a, b) <==> InOrder(x, a, b) || InOrder(y, a, b) || (a in x && b in y)
  {
    if i, j :| 0 <= i < j < |y| && y[i] == a && y[j] == b {
      assert (x + y)[|x| + i] == a && (x + y)[|x| + j] == b;
    }
    if i, j :| 0 <= i < j < |x| && x[i] == a && x[j] == b {
      assert (x + y)[i] == a && (x + y)[j] == b;
    }
    if a in x && b in y {
      var i :| 0 <= i < |x| && x[i] == a;
      var j :| 0 <= j < |y| && y[j] == b;
      assert (x + y)[i] == a && (x + y)[|x| + j] == b;
    }
    if i, j :| 0 <= i < j < |x + y| && (x + y)[i] == a && (x + y)[j] == b {
      if i >= |x| {
        assert y[i - |x|] == a && y[j - |x|] == b;
      }
    }
  }

  lemma {:induction false} DeclaredExactly(pkg: Package, i: nat, peer: string, d: Declaration)
    requires i <= |pkg.peers|
    ensures d in DeclaredUpTo(pkg, i, peer) <==> exists k: nat :: k < i && Declares(pkg, k, peer, d)
  {
    if i > 0 {
      var n := i - 1;
      DeclaredExactly(pkg, n, peer, d);
      assert d in DeclaredAt(pkg, n, peer) <==> Declares(pkg, n, peer, d);
    }
  }

  ghost predicate DeclaresInOrder(pkg: Package, i: nat, peer: string, a: Declaration, b: Declaration) {
    exists k: nat, l: nat :: k < l < i && Declares(pkg, k, peer, a) && Declares(pkg, l, peer, b)
  }

  lemma DeclaresOneMore(pkg: Package, n: nat, peer: string, a: Declaration, b: Declaration)
    ensures DeclaresInOrder(pkg, n + 1, peer, a, b)
            <==> DeclaresInOrder(pkg, n, peer, a, b)
                 || (Declares(pkg, n, peer, b) && exists k: nat :: k < n && Declares(pkg, k, peer, a))
  {
  }

  lemma {:induction false} DeclaredOrderExactly(pkg: Package, i: nat, peer: string, a: Declaration, b: Declaration)
    requires i <= |pkg.peers|
    ensures InOrder(DeclaredUpTo(pkg, i, peer), a, b) <==> DeclaresInOrder(pkg, i, peer, a, b)
  {
    if i > 0 {
      var n := i - 1;
      DeclaredOrderExactly(pkg, n, peer, a, b);
      DeclaredExactly(pkg, n, peer, a);
      InOrderConcat(DeclaredUpTo(pkg, n, peer), DeclaredAt(pkg, n, peer), a, b);
      DeclaresOneMore(pkg, n, peer, a, b);
      assert b in DeclaredAt(pkg, n, peer) <==> Declares(pkg, n, peer, b);
    }
  }

  ghost predicate DeclaredBefore(packages: seq<Package>, n: nat, peer: string, d: Declaration) {
    exists p: nat, k: nat :: p < n && PublicDeclares(packages, p, k, peer, d)
  }

  ghost predicate OrderedBefore(packages: seq<Package>, n: nat, peer: string, a: Declaration, b: Declaration) {
    exists p: nat, k: nat, q: nat, l: nat ::
      && p < n && q < n && PublicDeclares(packages, p, k, peer, a) && PublicDeclares(packages, q, l, peer, b)
      && (p < q || (p == q && k < l))
  }

  /** What package n adds. */
  function Added(packages: seq<Package>, n: nat, peer: string): seq<Declaration>
    requires n < |packages|
  {
    if packages[n].isPrivate then [] else DeclaredUpTo(packages[n], |packages[n].peers|, peer)
  }

  lemma DeclarationsNext(packages: seq<Package>, n: nat, peer: string)
    requires n < |packages|
    ensures Declarations(packages[..n + 1], peer) == Declarations(packages[..n], peer) + Added(packages, n, peer)
  {
    assert packages[..n + 1][..n] == packages[..n];
  }

  lemma AddedExactly(packages: seq<Package>, n: nat, peer: string, a: Declaration, b: Declaration)
    requires n < |packages|
    ensures a in Added(packages, n, peer) <==> exists k: nat :: PublicDeclares(packages, n, k, peer, a)
    ensures InOrder(Added(packages, n, peer), a, b)
            <==> exists k: nat, l: nat ::
                   k < l && PublicDeclares(packages, n, k, peer, a) && PublicDeclares(packages, n, l, peer, b)
  {
    var pkg := packages[n];
    if !pkg.isPrivate {
      DeclaredExactly(pkg, |pkg.peers|, peer, a);
      DeclaredOrderExactly(pkg, |pkg.peers|, peer, a, b);
      forall k: nat, d ensures PublicDeclares(packages, n, k, peer, d) <==> Declares(pkg, k, peer, d) {
      }
    }
  }

  lemma DeclaredOneMore(packages: seq<Package>, m: nat, peer: string, d: Declaration)
    ensures DeclaredBefore(packages, m + 1, peer, d)
            <==> DeclaredBefore(packages, m, peer, d) || exists k: nat :: PublicDeclares(packages, m, k, peer, d)
  {
  }

  lemma {:induction false} DeclarationsHold(packages: seq<Package>, n: nat, peer: string, d: Declaration)
    requires n <= |packages|
    ensures d in Declarations(packages[..n], peer) <==> DeclaredBefore(packages, n, peer, d)
  {
    if n > 0 {
      var m := n - 1;
      DeclarationsHold(packages, m, peer, d);
      DeclarationsNext(packages, m, peer);
      AddedExactly(packages, m, peer, d, d);
      DeclaredOneMore(packages, m, peer, d);
    }
  }

  lemma OrderedOneMore(packages: seq<Package>, m: nat, peer: string, a: Declaration, b: Declaration)
    ensures OrderedBefore(packages, m + 1, peer, a, b)
            <==> OrderedBefore(packages, m, peer, a, b)
                 || (DeclaredBefore(packages, m, peer, a) && exists l: nat :: PublicDeclares(packages, m, l, peer, b))
                 || exists k: nat, l: nat ::
                      k < l && PublicDeclares(packages, m, k, peer, a) && PublicDeclares(packages, m, l, peer, b)
  {
  }

  lemma {:induction false} DeclarationsOrdered(packages: seq<Package>, n: nat, peer: string, a: Declaration,
                                               b: Declaration)
    requires n <= |packages|
    ensures InOrder(Declarations(packages[..n], peer), a, b) <==> OrderedBefore(packages, n, peer, a, b)
  {
    if n > 0 {
      var m := n - 1;
      DeclarationsOrdered(packages, m, peer, a, b);
      DeclarationsHold(packages, m, peer, a);
      DeclarationsNext(packages, m, peer);
      AddedExactly(packages, m, peer, a, b);
      AddedExactly(packages, m, peer, b, b);
      InOrderConcat(Declarations(packages[..m], peer), Added(packages, m, peer), a, b);
      OrderedOneMore(packages, m, peer, a, b);
    }
  }

  /** The clashes among the collected declarations are exactly the disagreements between entries of the manifests. */
  lemma ClashesExactly(semver: Semver, packages: seq<Package>, peer: string, a: Declaration, b: Declaration)
    ensures Clashes(semver, Declarations(packages, peer), a, b) <==> Disagree(semver, packages, peer, a, b)
  {
    assert packages[..|packages|] == packages;
    DeclarationsOrdered(packages, |packages|, peer, a, b);
    var declarations := Declarations(packages, peer);
    if Clashes(semver, declarations, a, b) {
      assert InOrder(declarations, a, b);
    }
    if Disagree(semver, packages, peer, a, b) {
      assert OrderedBefore(packages, |packages|, peer, a, b);
    }
  }

  lemma ValidExactly(semver: Semver, packages: seq<Package>)
    ensures AllValid(semver, packages)
            <==> forall p, k, peer, d :: PublicDeclares(packages, p, k, peer, d) ==> semver.valid(d.range)
  {
    if forall p, k, peer, d :: PublicDeclares(packages, p, k, peer, d) ==> semver.valid(d.range) {
      forall pkg, entry | pkg in packages && !pkg.isPrivate && entry in pkg.peers ensures semver.valid(entry.range) {
        var p :| 0 <= p < |packages| && packages[p] == pkg;
        var k :| 0 <= k < |pkg.peers| && pkg.peers[k] == entry;
        assert PublicDeclares(packages, p, k, entry.name, Declaration(pkg.name, entry.range));
      }
    }
  }

  /** All declarations of the peer by public packages agree. */
  ghost predicate Agree(semver: Semver, packages: seq<Package>, peer: string) {
    forall a, b :: !Disagree(semver, packages, peer, a, b)
  }

  lemma AgreeExactly(semver: Semver, packages: seq<Package>, peer: string)
    ensures PairsIntersect(semver, Declarations(packages, peer)) <==> Agree(semver, packages, peer)
  {
    forall a, b
      ensures Clashes(semver, Declarations(packages, peer), a, b) <==> Disagree(semver, packages, peer, a, b)
    {
      ClashesExactly(semver, packages, peer, a, b);
    }
    PairsOrClash(semver, Declarations(packages, peer));
  }

  lemma AllAgreeExactly(semver: Semver, packages: seq<Package>)
    ensures (forall peer :: PairsIntersect(semver, Declarations(packages, peer)))
            <==> forall peer :: Agree(semver, packages, peer)
  {
    if peer :| !Agree(semver, packages, peer) {
      AgreeExactly(semver, packages, peer);
    } else {
      forall peer ensures PairsIntersect(semver, Declarations(packages, peer)) {
        AgreeExactly(semver, packages, peer);
      }
    }
  }

  /** The same of the whole verdict. */
  lemma VerdictExactly(semver: Semver, packages: seq<Package>, verdict: Verdict)
    requires verdict.Accepted?
             <==> AllValid(semver, packages) && forall peer :: PairsIntersect(semver, Declarations(packages, peer))
    requires verdict.Incompatible?
             ==> forall c :: c in verdict.conflicts <==> Clashes(semver, Declarations(packages, c.peer), c.a, c.b)
    ensures verdict.Accepted? <==> AllValid(semver, packages) && forall peer :: Agree(semver, packages, peer)
    ensures verdict.Incompatible?
            ==> forall c :: c in verdict.conflicts <==> Disagree(semver, packages, c.peer, c.a, c.b)
  {
    AllAgreeExactly(semver, packages);
    if verdict.Incompatible? {
      forall c ensures c in verdict.conflicts <==> Disagree(semver, packages, c.peer, c.a, c.b) {
        ClashesExactly(semver, packages, c.peer, c.a, c.b);
      }
    }
  }

  /* ---- one version for all: Helly in one dimension ---- */

  ghost predicate TotalOrder<V(!new)>(leq: (V, V) -> bool) {
    && (forall a :: leq(a, a))
    && (forall a, b :: leq(a, b) || leq(b, a))
    && (forall a, b, c :: leq(a, b) && leq(b, c) ==> leq(a, c))
  }

  /** An interval: everything between two of its versions belongs to it. */
  ghost predicate Convex<V(!new)>(leq: (V, V) -> bool, s: iset<V>) {
    forall a, b, c :: a in s && c in s && leq(a, b) && leq(b, c) ==> b in s
  }

  ghost predicate Meet<V(!new)>(a: iset<V>, b: iset<V>) {
    exists v :: v in a && v in b
  }

  /** Of three intervals that meet pairwise, the middle witness lies in all three. */
  lemma ThreeMeet<V(!new)>(leq: (V, V) -> bool, a: iset<V>, b: iset<V>, c: iset<V>)
    requires TotalOrder(leq) && Convex(leq, a) && Convex(leq, b) && Convex(leq, c)
    requires Meet(a, b) && Meet(b, c) && Meet(a, c)
    ensures Meet(a * c, b * c)
  {
    var x :| x in a && x in b;
    var y :| y in b && y in c;
    var z :| z in a && z in c;
    var middle :=
      if leq(x, y) then (if leq(y, z) then y else if leq(x, z) then z else x)
      else (if leq(x, z) then x else if leq(y, z) then z else y);
    assert middle in a * c && middle in b * c;
  }

  /** Each but the last of the sets, cut down to its part in the last. */
  ghost function CutByLast<V(!new)>(sets: seq<iset<V>>): (cut: seq<iset<V>>)
    requires |sets| > 1
    ensures |cut| == |sets| - 1 && forall i :: 0 <= i < |cut| ==> cut[i] == sets[i] * sets[|sets| - 1]
  {
    seq(|sets| - 1, i requires 0 <= i < |sets| - 1 => sets[i] * sets[|sets| - 1])
  }

  ghost predicate AllConvex<V(!new)>(leq: (V, V) -> bool, sets: seq<iset<V>>) {
    forall i :: 0 <= i < |sets| ==> Convex(leq, sets[i])
  }

  ghost predicate AllMeet<V(!new)>(sets: seq<iset<V>>) {
    forall i, j :: 0 <= i < |sets| && 0 <= j < |sets| ==> Meet(sets[i], sets[j])
  }

  lemma CutKeeps<V(!new)>(leq: (V, V) -> bool, sets: seq<iset<V>>)
    requires TotalOrder(leq) && |sets| > 1 && AllConvex(leq, sets) && AllMeet(sets)
    ensures AllConvex(leq, CutByLast(sets)) && AllMeet(CutByLast(sets))
  {
    var cut, n := CutByLast(sets), |sets| - 1;
    forall i, j | 0 <= i < n && 0 <= j < n ensures Meet(cut[i], cut[j]) {
      ThreeMeet(leq, sets[i], sets[j], sets[n]);
    }
    forall i | 0 <= i < n ensures Convex(leq, cut[i]) {
      assert Convex(leq, sets[i]) && Convex(leq, sets[n]);
    }
  }

  /** Any number of intervals that meet pairwise have a version in common. */
  lemma {:induction false} Helly<V(!new)>(leq: (V, V) -> bool, sets: seq<iset<V>>) returns (v: V)
    requires TotalOrder(leq) && sets != [] && AllConvex(leq, sets) && AllMeet(sets)
    ensures forall i :: 0 <= i < |sets| ==> v in sets[i]
    decreases |sets|
  {
    if |sets| == 1 {
      assert Meet(sets[0], sets[0]);
      v :| v in sets[0];
    } else {
      CutKeeps(leq, sets);
      v := Helly(leq, CutByLast(sets));
      assert v in CutByLast(sets)[0];
      forall i | 0 <= i < |sets| - 1 ensures v in sets[i] {
        assert v in CutByLast(sets)[i];
      }
    }
  }

  /** What a range admits; `semver` is right about it. */
  ghost predicate Describes<V(!new)>(semver: Semver, admits: string -> iset<V>) {
    forall a, b :: semver.intersects(a, b) <==> Meet(admits(a), admits(b))
  }

  ghost predicate CommonVersion<V(!new)>(admits: string -> iset<V>, declarations: seq<Declaration>) {
    exists v :: InAll(admits, declarations, v)
  }

  ghost predicate InAll<V>(admits: string -> iset<V>, declarations: seq<Declaration>, v: V) {
    forall i :: 0 <= i < |declarations| ==> v in admits(declarations[i].range)
  }

  /** When ranges are intervals over a total order, a peer the check accepts has one version satisfying all its
      declarations exactly when it is not declared just once with a range nothing satisfies. */
  lemma AcceptedPeerHasOneVersion<V(!new)>(semver: Semver, leq: (V, V) -> bool, admits: string -> iset<V>,
                                           declarations: seq<Declaration>)
    requires TotalOrder(leq) && Describes(semver, admits)
    requires declarations != [] && PairsIntersect(semver, declarations)
    requires forall i :: 0 <= i < |declarations| ==> Convex(leq, admits(declarations[i].range))
    ensures CommonVersion(admits, declarations) <==> |declarations| > 1 || admits(declarations[0].range) != iset{}
  {
    if |declarations| > 1 || admits(declarations[0].range) != iset{} {
      var sets := seq(|declarations|, i requires 0 <= i < |declarations| => admits(declarations[i].range));
      forall i, j | 0 <= i < |sets| && 0 <= j < |sets| ensures Meet(sets[i], sets[j]) {
        RangesMeet(semver, admits, declarations, i, j);
      }
      var v := Helly(leq, sets);
      forall i | 0 <= i < |declarations| ensures v in admits(declarations[i].range) {
        assert v in sets[i];
      }
      assert InAll(admits, declarations, v);
    } else {
      forall v ensures !InAll(admits, declarations, v) {
      }
    }
  }

  lemma RangesMeet<V(!new)>(semver: Semver, admits: string -> iset<V>, declarations: seq<Declaration>, i: nat, j: nat)
    requires Describes(semver, admits) && PairsIntersect(semver, declarations) && i < |declarations|
             && j < |declarations|
    requires |declarations| > 1 || admits(declarations[0].range) != iset{}
    ensures Meet(admits(declarations[i].range), admits(declarations[j].range))
  {
    if i != j {
      var a, b := if i < j then i else j, if i < j then j else i;
      assert semver.intersects(declarations[a].range, declarations[b].range);
    } else if |declarations| > 1 {
      var k := if i == 0 then 1 else 0;
      var a, b := if i < k then i else k, if i < k then k else i;
      assert semver.intersects(declarations[a].range, declarations[b].range);
    } else {
      var v :| v in admits(declarations[0].range);
    }
  }

  /* ---- ranges with several alternatives ---- */

  /** `parts(range)` are the alternatives a range joins by `||`. */
  ghost predicate Splits<V(!new)>(admits: string -> iset<V>, parts: string -> seq<iset<V>>) {
    forall range, v :: v in admits(range) <==> InSome(parts(range), v)
  }

  ghost predicate InSome<V>(sets: seq<iset<V>>, v: V) {
    exists k :: 0 <= k < |sets| && v in sets[k]
  }

  /** One alternative per declaration. */
  ghost predicate Chooses<V>(parts: string -> seq<iset<V>>, declarations: seq<Declaration>, choice: seq<nat>) {
    && |choice| == |declarations|
    && forall i :: 0 <= i < |declarations| ==> choice[i] < |parts(declarations[i].range)|
  }

  ghost function Chosen<V>(parts: string -> seq<iset<V>>, declarations: seq<Declaration>,
                           choice: seq<nat>): seq<iset<V>>
    requires Chooses(parts, declarations, choice)
  {
    seq(|declarations|, i requires 0 <= i < |declarations| => parts(declarations[i].range)[choice[i]])
  }

  /** A version all declarations admit picks an alternative of each. */
  lemma {:induction false} ChooseFor<V(!new)>(admits: string -> iset<V>, parts: string -> seq<iset<V>>,
                                              declarations: seq<Declaration>, v: V) returns (choice: seq<nat>)
    requires Splits(admits, parts) && InAll(admits, declarations, v)
    ensures Chooses(parts, declarations, choice)
    ensures forall i :: 0 <= i < |declarations| ==> v in Chosen(parts, declarations, choice)[i]
  {
    if declarations == [] {
      choice := [];
    } else {
      var n := |declarations| - 1;
      var front := ChooseFor(admits, parts, declarations[..n], v);
      var last := parts(declarations[n].range);
      assert v in admits(declarations[n].range) && InSome(last, v);
      var k :| 0 <= k < |last| && v in last[k];
      choice := front + [k];
      forall i | 0 <= i < |declarations|
        ensures choice[i] < |parts(declarations[i].range)| && v in parts(declarations[i].range)[choice[i]]
      {
        if i < n {
          assert v in Chosen(parts, declarations[..n], front)[i];
        }
      }
    }
  }

  /** Whether or not the pairwise check accepts it: a peer whose ranges are unions of intervals has one version for
      all its declarations exactly when one alternative of each can be chosen so that the chosen ones meet
      pairwise, each also with itself. */
  lemma UnionsMeetExactly<V(!new)>(leq: (V, V) -> bool, admits: string -> iset<V>, parts: string -> seq<iset<V>>,
                                   declarations: seq<Declaration>)
    requires TotalOrder(leq) && Splits(admits, parts) && declarations != []
    requires forall range, k :: 0 <= k < |parts(range)| ==> Convex(leq, parts(range)[k])
    ensures CommonVersion(admits, declarations)
            <==> exists choice :: Chooses(parts, declarations, choice) && AllMeet(Chosen(parts, declarations, choice))
  {
    if v :| InAll(admits, declarations, v) {
      var choice := ChooseFor(admits, parts, declarations, v);
      assert AllMeet(Chosen(parts, declarations, choice));
    }
    if choice :| Chooses(parts, declarations, choice) && AllMeet(Chosen(parts, declarations, choice)) {
      var v := Helly(leq, Chosen(parts, declarations, choice));
      forall i | 0 <= i < |declarations| ensures v in admits(declarations[i].range) {
        assert v in Chosen(parts, declarations, choice)[i];
        assert InSome(parts(declarations[i].range), v);
      }
      assert InAll(admits, declarations, v);
    }
  }

  /** A range with `||` need not be an interval, and then pairs prove nothing about all three. */
  lemma UnionsBreakTheRule(semver: Semver, admits: string -> iset<int>)
    requires Describes(semver, admits)
    requires admits("1 || 2") == iset{1, 2} && admits("2 || 3") == iset{2, 3} && admits("1 || 3") == iset{1, 3}
    ensures var declarations := [Declaration("a", "1 || 2"), Declaration("b", "2 || 3"), Declaration("c", "1 || 3")];
            PairsIntersect(semver, declarations) && !CommonVersion(admits, declarations)
  {
    var declarations := [Declaration("a", "1 || 2"), Declaration("b", "2 || 3"), Declaration("c", "1 || 3")];
    assert 2 in admits("1 || 2") && 2 in admits("2 || 3") && 1 in admits("1 || 2") && 1 in admits("1 || 3")
           && 3 in admits("2 || 3") && 3 in admits("1 || 3");
    forall v ensures !InAll(admits, declarations, v) {
      assert v !in admits(declarations[0].range) || v !in admits(declarations[1].range)
             || v !in admits(declarations[2].range);
    }
  }
}
