/** The plugin identity directory of `plugin-directory.js`: reading an identity from a manifest, admitting it
    beside the installed ones, and looking plugins up. */
module PluginDirectory {
  import opened Options
  import Text

  /* ---- identities ---- */

  const LEGACY := "unknown/"
  const ID_LIMIT: nat := 129

  predicate Alnum(c: char) {
    'a' <= c <= 'z' || '0' <= c <= '9'
  }

  predicate Separator(c: char) {
    c == '.' || c == '-'
  }

  /** Runs of lowercase letters and digits joined by single dots or hyphens. */
  predicate IsSegment(s: string) {
    && s != "" && Alnum(s[0]) && Alnum(s[|s| - 1])
    && (forall i :: 0 <= i < |s| ==> Alnum(s[i]) || Separator(s[i]))
    && (forall i, j :: 0 <= i < |s| && 0 <= j < |s| && j == i + 1 && Separator(s[i]) ==> !Separator(s[j]))
  }

  predicate IsDeclaredId(id: string) {
    |id| <= ID_LIMIT && '/' in id && IsSegment(Text.Before(id, '/')) && IsSegment(Text.After(id, '/'))
  }

  predicate IsLegacyName(name: string) {
    name != "" && forall i :: 0 <= i < |name| ==> Alnum(name[i]) || Separator(name[i])
  }

  predicate IsCapability(s: string) {
    |s| <= ID_LIMIT && if ':' in s then IsSegment(Text.Before(s, ':')) && IsSegment(Text.After(s, ':'))
      else IsSegment(s)
  }

  function LegacyId(localName: string): string {
    LEGACY + localName
  }

  /** A manifest's JSON values, as far as identity looks at them. */
  datatype Json = Undefined | Str(s: string) | Arr(items: seq<Json>) | Obj(fields: map<string, Json>) | Other

  datatype Result<+T> = Ok(value: T) | Err(errors: seq<string>)

  datatype Identity = Identity(id: string, capabilities: seq<string>)

  function Field(o: Json, name: string): Json {
    if o.Obj? && name in o.fields then o.fields[name] else Undefined
  }

  function StructuralError(manifest: Json, namespace: string): Option<string> {
    if !manifest.Obj? then Some("Plugin manifest must be an object.")
    else
      var extensions := Field(manifest, "extensions");
      if extensions != Undefined && !extensions.Obj? then Some("Plugin extensions must be an object.")
      else
        var extension := Field(extensions, namespace);
        if extension != Undefined && !extension.Obj? then Some("Plugin identity extension must be an object.") else None
  }

  const MALFORMED_ID :=
    "Plugin id must have the form publisher/name (lowercase letters, digits, dots and hyphens)."
  const RESERVED_PUBLISHER := "Plugin publisher 'unknown' is reserved for legacy identities."

  function IdErrors(id: Json): seq<string> {
    if id == Undefined then []
    else if !id.Str? || !IsDeclaredId(id.s)
      then [MALFORMED_ID]
    else if LEGACY <= id.s then [RESERVED_PUBLISHER] else []
  }

  predicate ValidProvides(declared: Json) {
    declared == Undefined || (declared.Arr? && forall p :: p in declared.items ==> p.Str? && IsCapability(p.s))
  }

  function ValidateIdentity(manifest: Json, namespace: string): seq<string> {
    var structural := StructuralError(manifest, namespace);
    if structural.Some? then [structural.value]
    else
      var extension := Field(Field(manifest, "extensions"), namespace);
      if extension == Undefined then []
      else IdErrors(Field(extension, "id"))
           + (if ValidProvides(Field(extension, "provides")) then []
             else ["Plugin provides must be an array of capability names."])
  }

  function Strings(items: seq<Json>): seq<string>
    requires forall p :: p in items ==> p.Str?
  {
    if items == [] then [] else [items[0].s] + Strings(items[1..])
  }

  function LocalName(manifest: Json, name: Option<string>): Json {
    if name.Some? then Str(name.value) else Field(manifest, "name")
  }

  /** The declared id, or `unknown/<name>` for a manifest without one. */
  function ReadIdentity(manifest: Json, namespace: string, name: Option<string>): Result<Identity> {
    var errors := ValidateIdentity(manifest, namespace);
    if errors != [] then Err(errors)
    else
      var extension := Field(Field(manifest, "extensions"), namespace);
      var declared, offered := Field(extension, "id"), Field(extension, "provides");
      var capabilities := if offered.Arr? then Strings(offered.items) else [];
      if declared.Str? then Ok(Identity(declared.s, capabilities))
      else
        var localName := LocalName(manifest, name);
        if localName.Str? && IsLegacyName(localName.s) then Ok(Identity(LegacyId(localName.s), capabilities))
        else Err(["A valid plugin name is required for a legacy identity."])
  }

  /** An id its publisher declared. */
  predicate Declared(id: string) {
    IsDeclaredId(id) && !(LEGACY <= id)
  }

  function DeclaredId(manifest: Json, namespace: string): Json {
    Field(Field(Field(manifest, "extensions"), namespace), "id")
  }

  /** What is read is the declared id, never one in the reserved `unknown/` space, or, when none is declared, the
      legacy id of the name: a publisher cannot pass for a legacy plugin. */
  lemma ReadIdentityIsExact(manifest: Json, namespace: string, name: Option<string>)
    requires ReadIdentity(manifest, namespace, name).Ok?
    ensures var id := ReadIdentity(manifest, namespace, name).value.id;
            && (match DeclaredId(manifest, namespace)
                case Str(declared) => id == declared && Declared(id)
                case _ =>
                  var localName := LocalName(manifest, name);
                  localName.Str? && id == LegacyId(localName.s) && !Declared(id))
            && ':' !in id
  {
    if DeclaredId(manifest, namespace).Str? {
      ReadDeclared(manifest, namespace, name);
      DeclaredHasNoColon(ReadIdentity(manifest, namespace, name).value.id);
    } else {
      ReadLegacy(manifest, namespace, name);
      LegacyIsNotDeclared(LocalName(manifest, name).s);
    }
  }

  lemma ReadDeclared(manifest: Json, namespace: string, name: Option<string>)
    requires ReadIdentity(manifest, namespace, name).Ok? && DeclaredId(manifest, namespace).Str?
    ensures var id := ReadIdentity(manifest, namespace, name).value.id;
            id == DeclaredId(manifest, namespace).s && Declared(id)
  {
    assert IdErrors(DeclaredId(manifest, namespace)) == [];
  }

  lemma ReadLegacy(manifest: Json, namespace: string, name: Option<string>)
    requires ReadIdentity(manifest, namespace, name).Ok? && !DeclaredId(manifest, namespace).Str?
    ensures var localName := LocalName(manifest, name);
            localName.Str? && IsLegacyName(localName.s)
            && ReadIdentity(manifest, namespace, name).value.id == LegacyId(localName.s)
  {
  }

  lemma LegacyIsNotDeclared(localName: string)
    requires IsLegacyName(localName)
    ensures !Declared(LegacyId(localName)) && ':' !in LegacyId(localName)
  {
    assert LEGACY <= LegacyId(localName);
    assert ':' !in localName && ':' !in LEGACY;
  }

  lemma SegmentHasNoColon(s: string)
    requires IsSegment(s)
    ensures ':' !in s && '/' !in s
  {
  }

  lemma DeclaredHasNoColon(id: string)
    requires IsDeclaredId(id)
    ensures ':' !in id
  {
    SegmentHasNoColon(Text.Before(id, '/'));
    SegmentHasNoColon(Text.After(id, '/'));
    assert id == Text.Before(id, '/') + "/" + Text.After(id, '/');
  }

  /* ---- the grammar of ids ---- */

  ghost predicate LetterOrDigit(c: char) {
    'a' <= c <= 'z' || '0' <= c <= '9'
  }

  ghost predicate IsRun(s: string) {
    s != "" && forall i :: 0 <= i < |s| ==> LetterOrDigit(s[i])
  }

  /** Runs of letters and digits joined by single separators. */
  ghost predicate InGrammar(s: string)
    decreases |s|
  {
    IsRun(s) || exists i :: Joins(s, i) && InGrammar(s[i + 1..])
  }

  ghost predicate Joins(s: string, i: nat) {
    i < |s| && (s[i] == '.' || s[i] == '-') && IsRun(s[..i])
  }

  lemma {:induction false} GrammarIsSegment(s: string)
    requires InGrammar(s)
    ensures IsSegment(s)
    decreases |s|
  {
    if !IsRun(s) {
      var i: nat :| Joins(s, i) && InGrammar(s[i + 1..]);
      var rest := s[i + 1..];
      GrammarIsSegment(rest);
      forall k | 0 <= k < i ensures Alnum(s[k]) {
        assert s[k] == s[..i][k];
      }
      forall k | i < k < |s| ensures s[k] == rest[k - i - 1] {
      }
      assert s[|s| - 1] == rest[|rest| - 1];
      forall k, l | 0 <= k < |s| && 0 <= l < |s| && l == k + 1 && Separator(s[k]) ensures !Separator(s[l]) {
        assert s[l] == rest[l - i - 1];
      }
    }
  }

  /** What plugins without a publisher were named by: any such characters. */
  ghost predicate PlainName(j: Json) {
    j.Str? && j.s != "" && forall i :: 0 <= i < |j.s| ==> LetterOrDigit(j.s[i]) || j.s[i] == '.' || j.s[i] == '-'
  }

  lemma FirstSeparator(s: string) returns (i: nat)
    requires IsSegment(s) && !IsRun(s)
    ensures Joins(s, i)
  {
    var k: nat :| k < |s| && !LetterOrDigit(s[k]);
    i := 0;
    while Alnum(s[i])
      invariant i <= k && forall j :: 0 <= j < i ==> Alnum(s[j])
      decreases k - i
    {
      i := i + 1;
    }
    assert i > 0;
    forall k | 0 <= k < i ensures Alnum(s[..i][k]) {
    }
  }

  lemma {:induction false} SegmentIsGrammar(s: string)
    requires IsSegment(s)
    ensures InGrammar(s)
    decreases |s|
  {
    if !IsRun(s) {
      var i := FirstSeparator(s);
      var rest := s[i + 1..];
      assert i + 1 < |s|;
      forall k | 0 <= k < |rest| ensures rest[k] == s[k + i + 1] {
      }
      assert IsSegment(rest);
      SegmentIsGrammar(rest);
    }
  }

  /** A segment is what the grammar says. */
  lemma SegmentsExactly(s: string)
    ensures IsSegment(s) <==> InGrammar(s)
  {
    if IsSegment(s) {
      SegmentIsGrammar(s);
    }
    if InGrammar(s) {
      GrammarIsSegment(s);
    }
  }

  /** A declared id is a publisher and a name in that grammar, at most 129 characters long. */
  lemma DeclaredIdsExactly(id: string)
    ensures IsDeclaredId(id)
            <==> |id| <= 129
                 && exists publisher, name :: InGrammar(publisher) && InGrammar(name) && id == publisher + "/" + name
  {
    if IsDeclaredId(id) {
      var publisher, name := Text.Before(id, '/'), Text.After(id, '/');
      SegmentsExactly(publisher);
      SegmentsExactly(name);
      assert id == publisher + "/" + name;
    }
    if publisher, name :| InGrammar(publisher) && InGrammar(name) && id == publisher + "/" + name {
      SegmentsExactly(publisher);
      SegmentsExactly(name);
      SegmentHasNoColon(publisher);
      assert id[..|publisher|] == publisher && id[|publisher|] == '/' && id[|publisher| + 1..] == name;
      Text.PositionIs(id, '/', |publisher|);
    }
  }

  ghost predicate PairsUp(s: string, a: string, b: string) {
    InGrammar(a) && InGrammar(b) && s == a + ":" + b
  }

  lemma PairIsCapability(a: string, b: string)
    requires InGrammar(a) && InGrammar(b) && |a + ":" + b| <= 129
    ensures IsCapability(a + ":" + b)
  {
    var s := a + ":" + b;
    SegmentsExactly(a);
    SegmentsExactly(b);
    SegmentHasNoColon(a);
    assert s[..|a|] == a && s[|a|] == ':' && s[|a| + 1..] == b;
    Text.PositionIs(s, ':', |a|);
  }

  lemma CapabilityParts(s: string)
    requires IsCapability(s)
    ensures InGrammar(s) || PairsUp(s, Text.Before(s, ':'), Text.After(s, ':'))
  {
    if ':' in s {
      SegmentsExactly(Text.Before(s, ':'));
      SegmentsExactly(Text.After(s, ':'));
      assert s == Text.Before(s, ':') + ":" + Text.After(s, ':');
    } else {
      SegmentsExactly(s);
    }
  }

  /** A capability is one segment, or two around a colon, at most 129 characters long. */
  lemma CapabilitiesExactly(s: string)
    ensures IsCapability(s)
            <==> |s| <= 129 && (InGrammar(s) || exists a, b :: PairsUp(s, a, b))
  {
    if IsCapability(s) {
      CapabilityParts(s);
    }
    if InGrammar(s) {
      SegmentsExactly(s);
      SegmentHasNoColon(s);
    }
    if |s| <= 129 && exists a, b :: PairsUp(s, a, b) {
      var a, b :| PairsUp(s, a, b);
      PairIsCapability(a, b);
    }
  }

  /** Absent, or an object. */
  ghost predicate ObjectIfAny(j: Json) {
    j == Undefined || j.Obj?
  }

  /** A publisher's own id: well formed, and not in the space reserved for legacy plugins. */
  ghost predicate OwnId(j: Json) {
    j.Str? && IsDeclaredId(j.s) && !("unknown/" <= j.s)
  }

  ghost predicate Capabilities(j: Json) {
    j.Arr? && forall i :: 0 <= i < |j.items| ==> j.items[i].Str? && IsCapability(j.items[i].s)
  }

  lemma StructureExactly(manifest: Json, namespace: string)
    ensures var extensions := Field(manifest, "extensions");
            StructuralError(manifest, namespace).None?
            <==> manifest.Obj? && ObjectIfAny(extensions) && ObjectIfAny(Field(extensions, namespace))
  {
  }

  lemma IdExactly(id: Json)
    ensures IdErrors(id) == [] <==> id == Undefined || OwnId(id)
  {
  }

  lemma ProvidesExactly(offered: Json)
    ensures ValidProvides(offered) <==> offered == Undefined || Capabilities(offered)
  {
  }

  lemma ValidatesExactly(manifest: Json, namespace: string)
    ensures var extensions := Field(manifest, "extensions");
            var extension := Field(extensions, namespace);
            var id, offered := Field(extension, "id"), Field(extension, "provides");
            ValidateIdentity(manifest, namespace) == []
            <==> manifest.Obj? && ObjectIfAny(extensions) && ObjectIfAny(extension)
                 && (id == Undefined || OwnId(id)) && (offered == Undefined || Capabilities(offered))
  {
    var extension := Field(Field(manifest, "extensions"), namespace);
    StructureExactly(manifest, namespace);
    if StructuralError(manifest, namespace).None? {
      IdExactly(Field(extension, "id"));
      ProvidesExactly(Field(extension, "provides"));
      if extension != Undefined && !ValidProvides(Field(extension, "provides")) {
        assert |ValidateIdentity(manifest, namespace)| > 0;
      }
    } else {
      assert |ValidateIdentity(manifest, namespace)| == 1;
    }
  }

  /** When reading an identity succeeds, and what it yields: objects where objects are due, an id that is absent or a
      publisher's own, capabilities that are absent or all well formed; without an id, a name of lowercase letters,
      digits, dots and hyphens. */
  lemma ReadsExactly(manifest: Json, namespace: string, name: Option<string>)
    ensures var extensions := Field(manifest, "extensions");
            var extension := Field(extensions, namespace);
            var id, offered := Field(extension, "id"), Field(extension, "provides");
            var localName := if name.Some? then Str(name.value) else Field(manifest, "name");
            var read := ReadIdentity(manifest, namespace, name);
            && (read.Ok?
                <==> manifest.Obj? && ObjectIfAny(extensions) && ObjectIfAny(extension)
                     && (OwnId(id) || (id == Undefined && PlainName(localName)))
                     && (offered == Undefined || Capabilities(offered)))
            && (read.Ok? ==> |read.value.capabilities| == if offered.Arr? then |offered.items| else 0)
            && (read.Ok? && offered.Arr?
                ==> forall i :: 0 <= i < |offered.items| ==> offered.items[i] == Str(read.value.capabilities[i]))
  {
    ValidatesExactly(manifest, namespace);
    var offered := Field(Field(Field(manifest, "extensions"), namespace), "provides");
    if Capabilities(offered) {
      StringsExactly(offered.items);
    }
  }

  lemma {:induction false} StringsExactly(items: seq<Json>)
    requires forall p :: p in items ==> p.Str?
    ensures |Strings(items)| == |items| && forall i :: 0 <= i < |items| ==> items[i] == Str(Strings(items)[i])
  {
    if items != [] {
      StringsExactly(items[1..]);
      assert items[0] in items;
      forall i | 0 < i < |items| ensures items[i] == Str(Strings(items)[i]) {
        assert items[i] == items[1..][i - 1];
      }
    }
  }

  /* ---- admission ---- */

  datatype Provider = Provider(id: string, family: string, localId: string, enabled: bool, capabilities: seq<string>)

  datatype Slot = Slot(family: string, localId: string)

  datatype Conflict = DifferentPublisher(localId: string) | DuplicateId(id: string)

  function SlotOf(p: Provider): Slot {
    Slot(p.family, p.localId)
  }

  predicate IsLegacy(p: Provider) {
    p.id == LegacyId(p.localId)
  }

  function ConflictWith(plugin: Provider, candidate: Provider): Option<Conflict> {
    if SlotOf(plugin) == SlotOf(candidate) then
      if plugin.id == candidate.id || plugin.id == LegacyId(candidate.localId) then None
        else Some(DifferentPublisher(candidate.localId))
    else if plugin.id != candidate.id then None
    else if plugin.family != candidate.family && IsLegacy(candidate) && IsLegacy(plugin) then None
    else Some(DuplicateId(candidate.id))
  }

  function FirstConflict(candidate: Provider, installed: seq<Provider>): Option<Conflict> {
    if installed == [] then None
    else if ConflictWith(installed[0], candidate).Some? then ConflictWith(installed[0], candidate)
    else FirstConflict(candidate, installed[1..])
  }

  /** `assertPluginIdentityAvailable`: the first conflict is thrown. */
  method AssertIdentityAvailable(candidate: Provider, installed: seq<Provider>) returns (thrown: Option<Conflict>)
    ensures thrown == FirstConflict(candidate, installed)
    ensures thrown.None? <==> forall p :: p in installed ==> Compatible(p, candidate)
    ensures thrown.Some? ==> exists i :: 0 <= i < |installed| && thrown == ConflictWith(installed[i], candidate)
                                         && !Compatible(installed[i], candidate)
                                         && forall j :: 0 <= j < i ==> Compatible(installed[j], candidate)
  {
    forall p ensures ConflictWith(p, candidate).None? <==> Compatible(p, candidate) {
      CompatibleExactly(p, candidate);
    }
    var i := 0;
    while i < |installed|
      invariant 0 <= i <= |installed|
      invariant forall j :: 0 <= j < i ==> Compatible(installed[j], candidate)
      invariant FirstConflict(candidate, installed) == FirstConflict(candidate, installed[i..])
    {
      var conflict := ConflictWith(installed[i], candidate);
      if conflict.Some? { return conflict; }
      assert installed[i..][1..] == installed[i + 1..];
      i := i + 1;
    }
    return None;
  }

  /** What the installed plugin p must be for the candidate to be admitted beside it: in the candidate's own slot, the
      same identity or its legacy fallback; elsewhere, of another id, or of another family with both ids legacy. */
  ghost predicate Compatible(p: Provider, candidate: Provider) {
    if p.family == candidate.family && p.localId == candidate.localId
    then p.id == candidate.id || p.id == "unknown/" + candidate.localId
    else p.id == candidate.id ==> p.family != candidate.family && p.id == "unknown/" + p.localId
                                  && candidate.id == "unknown/" + candidate.localId
  }

  lemma CompatibleExactly(p: Provider, candidate: Provider)
    ensures ConflictWith(p, candidate).None? <==> Compatible(p, candidate)
  {
  }

  /** Which complaint is thrown: a publisher change in the candidate's slot, or a reuse of its id elsewhere. */
  lemma ConflictNames(p: Provider, candidate: Provider)
    ensures var conflict := ConflictWith(p, candidate);
            && (conflict == Some(DifferentPublisher(candidate.localId))
                <==> !Compatible(p, candidate) && p.family == candidate.family && p.localId == candidate.localId)
            && (conflict == Some(DuplicateId(candidate.id))
                <==> !Compatible(p, candidate) && !(p.family == candidate.family && p.localId == candidate.localId))
  {
  }

  /** What is installed: at most one provider per storage slot. */
  type Directory = map<Slot, Provider>

  ghost predicate Keyed(d: Directory) {
    forall s :: s in d ==> SlotOf(d[s]) == s
  }

  /** `list` enumerates the directory, in any order. */
  ghost predicate Lists(d: Directory, list: seq<Provider>) {
    && (forall p :: p in list <==> SlotOf(p) in d && d[SlotOf(p)] == p)
    && DistinctSlots(list)
  }

  predicate Admits(d: Directory, candidate: Provider) {
    forall s :: s in d ==> ConflictWith(d[s], candidate).None?
  }

  lemma {:induction false} FirstConflictExact(candidate: Provider, installed: seq<Provider>)
    ensures FirstConflict(candidate, installed).None?
            <==> forall p :: p in installed ==> ConflictWith(p, candidate).None?
  {
    if installed != [] {
      FirstConflictExact(candidate, installed[1..]);
      assert installed == [installed[0]] + installed[1..];
    }
  }

  /** The check over any listing of the directory admits exactly what the directory admits. */
  lemma AdmissionIgnoresOrder(d: Directory, list: seq<Provider>, candidate: Provider)
    requires Keyed(d) && Lists(d, list)
    ensures FirstConflict(candidate, list).None? <==> Admits(d, candidate)
  {
    FirstConflictExact(candidate, list);
    forall s | s in d ensures d[s] in list {
      assert SlotOf(d[s]) == s;
    }
  }

  datatype Event = Install(candidate: Provider) | Remove(slot: Slot)

  /** An install is checked against everything installed; a refused one changes nothing. */
  function Step(d: Directory, e: Event): Directory {
    match e
    case Install(candidate) => if Admits(d, candidate) then d[SlotOf(candidate) := candidate] else d
    case Remove(slot) => d - {slot}
  }

  function Run(d: Directory, events: seq<Event>): Directory
    decreases events
  {
    if events == [] then d else Run(Step(d, events[0]), events[1..])
  }

  /** An install is admitted exactly when the candidate is compatible with everything installed; it then takes its own
      slot and leaves the others alone, and a refused one changes nothing. */
  lemma InstallExactly(d: Directory, candidate: Provider)
    ensures var after := Step(d, Install(candidate));
            if forall s :: s in d ==> Compatible(d[s], candidate)
            then SlotOf(candidate) in after && after[SlotOf(candidate)] == candidate
                 && after.Keys == d.Keys + {Slot(candidate.family, candidate.localId)}
                 && forall s :: s in d && s != SlotOf(candidate) ==> after[s] == d[s]
            else after == d
  {
    forall s | s in d ensures ConflictWith(d[s], candidate).None? <==> Compatible(d[s], candidate) {
      CompatibleExactly(d[s], candidate);
    }
  }

  /** So a plugin can always be upgraded in its slot, and a legacy one there can take a publisher's id that nobody
      holds. */
  lemma UpgradeIsAdmitted(d: Directory, candidate: Provider)
    requires Admitted(d) && SlotOf(candidate) in d
    requires d[SlotOf(candidate)].id == candidate.id
             || (d[SlotOf(candidate)].id == LegacyId(candidate.localId)
                 && forall s :: s in d ==> d[s].id != candidate.id)
    ensures Step(d, Install(candidate)) == d[SlotOf(candidate) := candidate]
  {
    forall s | s in d ensures Compatible(d[s], candidate) {
      if s != SlotOf(candidate) && d[s].id == candidate.id {
        assert d[s].id == d[SlotOf(candidate)].id;
      }
    }
    InstallExactly(d, candidate);
  }

  /** What admission alone keeps: an id is held twice only by legacy plugins of different families. */
  ghost predicate Admitted(d: Directory) {
    && Keyed(d)
    && forall s, t :: s in d && t in d && s != t && d[s].id == d[t].id
         ==> s.family != t.family && IsLegacy(d[s]) && IsLegacy(d[t])
  }

  lemma StepKeepsAdmitted(d: Directory, e: Event)
    requires Admitted(d)
    ensures Admitted(Step(d, e))
  {
    if e.Install? && Admits(d, e.candidate) {
      InstallKeepsAdmitted(d, e.candidate);
    }
  }

  lemma AdmittedShares(d: Directory, candidate: Provider, s: Slot)
    requires Keyed(d) && Admits(d, candidate) && s in d && s != SlotOf(candidate) && d[s].id == candidate.id
    ensures s.family != candidate.family && IsLegacy(d[s]) && IsLegacy(candidate)
  {
    assert ConflictWith(d[s], candidate).None? && SlotOf(d[s]) == s;
  }

  lemma InstallKeepsAdmitted(d: Directory, candidate: Provider)
    requires Admitted(d) && Admits(d, candidate)
    ensures Admitted(d[SlotOf(candidate) := candidate])
  {
    var after, slot := d[SlotOf(candidate) := candidate], SlotOf(candidate);
    forall s, t | s in after && t in after && s != t && after[s].id == after[t].id
      ensures s.family != t.family && IsLegacy(after[s]) && IsLegacy(after[t])
    {
      if s == slot {
        AdmittedShares(d, candidate, t);
      } else if t == slot {
        AdmittedShares(d, candidate, s);
      }
    }
  }

  lemma {:induction false} RunIsAdmitted(d: Directory, events: seq<Event>)
    requires Admitted(d)
    ensures Admitted(Run(d, events))
    decreases events
  {
    if events != [] {
      StepKeepsAdmitted(d, events[0]);
      RunIsAdmitted(Step(d, events[0]), events[1..]);
    }
  }

  /* ---- a slot's id ---- */

  ghost predicate Keeps(events: seq<Event>, slot: Slot) {
    forall i :: 0 <= i < |events| ==> events[i] != Remove(slot)
  }

  /** While a slot stays installed its id changes at most once, from the legacy id to another. */
  lemma {:induction false} SlotIdSettles(d: Directory, events: seq<Event>, slot: Slot)
    requires Keyed(d) && slot in d && Keeps(events, slot)
    ensures Keyed(Run(d, events)) && slot in Run(d, events)
    ensures Run(d, events)[slot].id != d[slot].id ==> d[slot].id == LegacyId(slot.localId)
    decreases events
  {
    if events != [] {
      SlotIdSettles(Step(d, events[0]), events[1..], slot);
    }
  }

  lemma {:induction false} RunConcat(d: Directory, a: seq<Event>, b: seq<Event>)
    ensures Run(d, a + b) == Run(Run(d, a), b)
    decreases a
  {
    if a == [] {
      assert a + b == b;
    } else {
      assert (a + b)[0] == a[0] && (a + b)[1..] == a[1..] + b;
      RunConcat(Step(d, a[0]), a[1..], b);
    }
  }

  /** Every id a run installs is one `readPluginIdentity` yields for the slot's own name. */
  predicate WellFormed(events: seq<Event>) {
    forall i :: 0 <= i < |events| && events[i].Install?
      ==> Declared(events[i].candidate.id) || IsLegacy(events[i].candidate)
  }

  /** Once a slot's id has changed it is a declared publisher's, was `unknown/localId` before, and never
      changes again. */
  lemma SlotIdChangesOnce(d: Directory, a: seq<Event>, b: seq<Event>, slot: Slot)
    requires Keyed(d) && slot in d && Keeps(a + b, slot) && WellFormed(a)
    ensures slot in Run(d, a) && slot in Run(d, a + b)
    ensures Run(d, a)[slot].id != d[slot].id
            ==> d[slot].id == LegacyId(slot.localId) && Declared(Run(d, a)[slot].id)
                && Run(d, a + b)[slot].id == Run(d, a)[slot].id
  {
    assert Keeps(a, slot) by {
      assert forall i :: 0 <= i < |a| ==> a[i] == (a + b)[i];
    }
    assert Keeps(b, slot) by {
      assert forall i :: 0 <= i < |b| ==> b[i] == (a + b)[|a| + i];
    }
    RunConcat(d, a, b);
    SlotIdSettles(d, a, slot);
    SlotIdSettles(Run(d, a), b, slot);
    HeldIdIsWellFormed(d, a, slot);
  }

  lemma {:induction false} HeldIdIsWellFormed(d: Directory, events: seq<Event>, slot: Slot)
    requires Keyed(d) && slot in d && Keeps(events, slot) && WellFormed(events)
    ensures slot in Run(d, events)
    ensures Run(d, events)[slot].id == d[slot].id || Declared(Run(d, events)[slot].id)
            || Run(d, events)[slot].id == LegacyId(slot.localId)
    decreases events
  {
    if events != [] {
      HeldIdIsWellFormed(Step(d, events[0]), events[1..], slot);
    }
  }

  /* ---- lookup ---- */

  /** Legacy ids are kept apart by family. */
  function Key(p: Provider): string {
    if p.id == LegacyId(p.localId) then p.family + ":" + p.id else p.id
  }

  /** The first provider of each key. */
  function Unique(plugins: seq<Provider>, seen: set<string>): seq<Provider> {
    if plugins == [] then []
    else if Key(plugins[0]) in seen then Unique(plugins[1..], seen)
    else [plugins[0]] + Unique(plugins[1..], seen + {Key(plugins[0])})
  }

  /** The loop of `snapshot`; every omitted provider is warned about. */
  method Snapshot(plugins: seq<Provider>) returns (unique: seq<Provider>, warnings: nat)
    ensures unique == Unique(plugins, {})
    ensures warnings == |plugins| - |unique|
  {
    unique, warnings := [], 0;
    var seen: set<string> := {};
    var i := 0;
    while i < |plugins|
      invariant 0 <= i <= |plugins|
      invariant unique + Unique(plugins[i..], seen) == Unique(plugins, {})
      invariant warnings + |unique| == i
    {
      assert plugins[i..][0] == plugins[i] && plugins[i..][1..] == plugins[i + 1..];
      var key := Key(plugins[i]);
      if key in seen {
        warnings := warnings + 1;
      } else {
        seen := seen + {key};
        unique := unique + [plugins[i]];
      }
      i := i + 1;
    }
  }

  function Matching(plugins: seq<Provider>, id: string, family: Option<string>): seq<Provider> {
    if plugins == [] then []
    else (if plugins[0].id == id && (family.None? || plugins[0].family == family.value) then [plugins[0]] else [])
         + Matching(plugins[1..], id, family)
  }

  function GetPlugin(list: seq<Provider>, id: string, family: Option<string>): Option<Provider> {
    var matches := Matching(Unique(list, {}), id, family);
    if |matches| == 1 then Some(matches[0]) else None
  }

  function FindProviders(list: seq<Provider>, capability: string, enabledOnly: bool): seq<Provider> {
    Providing(Unique(list, {}), capability, enabledOnly)
  }

  function Providing(plugins: seq<Provider>, capability: string, enabledOnly: bool): seq<Provider> {
    if plugins == [] then []
    else (if (!enabledOnly || plugins[0].enabled) && capability in plugins[0].capabilities then [plugins[0]] else [])
         + Providing(plugins[1..], capability, enabledOnly)
  }

  /** A colon before colon-free tails splits a string in one way only. */
  lemma LastColonSplits(a: string, x: string, b: string, y: string)
    requires a + ":" + x == b + ":" + y && ':' !in x && ':' !in y
    ensures a == b && x == y
  {
    var s := a + ":" + x;
    assert s[|a|] == ':' && s[|b|] == ':';
    forall j | |a| < j < |s| ensures s[j] != ':' {
      assert s[j] == x[j - |a| - 1];
    }
    forall j | |b| < j < |s| ensures s[j] != ':' {
      assert s[j] == y[j - |b| - 1];
    }
    assert a == s[..|a|] && b == s[..|b|] && x == s[|a| + 1..] && y == s[|b| + 1..];
  }

  lemma LegacyKeyHasColon(p: Provider)
    ensures IsLegacy(p) ==> ':' in Key(p)
  {
    if IsLegacy(p) {
      assert Key(p)[|p.family|] == ':';
    }
  }

  /** p takes the key of the legacy plugin q. */
  predicate Shadows(p: Provider, q: Provider) {
    IsLegacy(q) && Key(p) == q.family + ":" + q.id
  }

  ghost predicate Unshadowed(d: Directory) {
    forall s, t :: s in d && t in d && s != t ==> !Shadows(d[s], d[t])
  }

  ghost predicate FallsBack(p: Provider) {
    p.id == "unknown/" + p.localId
  }

  /** When a snapshot takes two providers for the same: equal declared ids, legacy ids equal with their families in
      front, or a declared id that reads like a legacy one with its family. */
  lemma KeysExactly(p: Provider, q: Provider)
    ensures Key(p) == Key(q)
            <==> (!FallsBack(p) && !FallsBack(q) && p.id == q.id)
                 || (FallsBack(p) && FallsBack(q) && p.family + ":" + p.id == q.family + ":" + q.id)
                 || (FallsBack(p) && !FallsBack(q) && p.family + ":" + p.id == q.id)
                 || (!FallsBack(p) && FallsBack(q) && p.id == q.family + ":" + q.id)
  {
  }

  /** Among admitted plugins only a shadowed legacy plugin shares its key. */
  lemma SharedKeyShadows(d: Directory, s: Slot, t: Slot)
    requires Admitted(d) && s in d && t in d && s != t
    ensures Key(d[s]) == Key(d[t]) <==> Shadows(d[s], d[t]) || Shadows(d[t], d[s])
  {
  }

  /** No two elements share a key. */
  ghost predicate DistinctKeys(plugins: seq<Provider>) {
    forall i, j :: 0 <= i < j < |plugins| ==> Key(plugins[i]) != Key(plugins[j])
  }

  lemma ListedKeys(d: Directory, list: seq<Provider>)
    requires Admitted(d) && Lists(d, list)
    ensures DistinctKeys(list) <==> Unshadowed(d)
  {
    if Unshadowed(d) {
      forall i, j | 0 <= i < j < |list| ensures Key(list[i]) != Key(list[j]) {
        assert list[i] in list && list[j] in list;
        SharedKeyShadows(d, SlotOf(list[i]), SlotOf(list[j]));
      }
    } else {
      var s, t :| s in d && t in d && s != t && Shadows(d[s], d[t]);
      assert SlotOf(d[s]) == s && SlotOf(d[t]) == t;
      var i :| 0 <= i < |list| && list[i] == d[s];
      var j :| 0 <= j < |list| && list[j] == d[t];
      SharedKeyShadows(d, s, t);
    }
  }

  lemma {:induction false} UniqueKeys(plugins: seq<Provider>, seen: set<string>)
    ensures DistinctKeys(Unique(plugins, seen))
    ensures forall p :: p in Unique(plugins, seen) ==> p in plugins && Key(p) !in seen
  {
    if plugins != [] {
      UniqueKeys(plugins[1..], seen);
      UniqueKeys(plugins[1..], seen + {Key(plugins[0])});
      assert plugins == [plugins[0]] + plugins[1..];
      var rest := Unique(plugins[1..], seen + {Key(plugins[0])});
      forall j | 0 <= j < |rest| ensures Key(rest[j]) != Key(plugins[0]) {
        assert rest[j] in rest;
      }
    }
  }

  /** A provider is kept exactly when no earlier one has its key. */
  lemma {:induction false} KeepsFirst(plugins: seq<Provider>, seen: set<string>, i: nat)
    requires i < |plugins| && forall j, k :: 0 <= j < k < |plugins| ==> plugins[j] != plugins[k]
    ensures plugins[i] in Unique(plugins, seen)
            <==> Key(plugins[i]) !in seen && forall j :: 0 <= j < i ==> Key(plugins[j]) != Key(plugins[i])
  {
    var rest, key := plugins[1..], Key(plugins[0]);
    UniqueKeys(rest, seen);
    UniqueKeys(rest, seen + {key});
    if i > 0 {
      KeepsFirst(rest, if key in seen then seen else seen + {key}, i - 1);
      assert forall j :: 0 <= j < i - 1 ==> rest[j] == plugins[j + 1];
      if forall j :: 0 <= j < i - 1 ==> Key(rest[j]) != Key(plugins[i]) {
        forall j | 0 < j < i ensures Key(plugins[j]) != Key(plugins[i]) {
          assert rest[j - 1] == plugins[j];
        }
      }
    } else {
      assert plugins[0] !in rest;
    }
  }

  lemma {:induction false} NothingDropped(plugins: seq<Provider>, seen: set<string>)
    requires DistinctKeys(plugins) && forall i :: 0 <= i < |plugins| ==> Key(plugins[i]) !in seen
    ensures Unique(plugins, seen) == plugins
  {
    if plugins != [] {
      NothingDropped(plugins[1..], seen + {Key(plugins[0])});
    }
  }

  /** Whatever order the source lists the plugins in: the snapshot drops none exactly when no legacy plugin is
      shadowed. */
  lemma SnapshotIsComplete(d: Directory, list: seq<Provider>)
    requires Admitted(d) && Lists(d, list)
    ensures Unique(list, {}) == list <==> Unshadowed(d)
  {
    ListedKeys(d, list);
    UniqueKeys(list, {});
    if DistinctKeys(list) {
      NothingDropped(list, {});
    }
  }

  ghost predicate Matches(p: Provider, id: string, family: Option<string>) {
    p.id == id && (family.None? || p.family == family.value)
  }

  lemma {:induction false} MatchingMembers(list: seq<Provider>, id: string, family: Option<string>)
    ensures forall p :: p in Matching(list, id, family) <==> p in list && Matches(p, id, family)
  {
    if list != [] {
      MatchingMembers(list[1..], id, family);
      assert list == [list[0]] + list[1..];
    }
  }

  ghost predicate DistinctSlots(list: seq<Provider>) {
    forall i, j :: 0 <= i < j < |list| ==> SlotOf(list[i]) != SlotOf(list[j])
  }

  /** Exactly the matching providers, each once. */
  lemma {:induction false} MatchingIsDistinct(list: seq<Provider>, id: string, family: Option<string>)
    requires DistinctSlots(list)
    ensures DistinctSlots(Matching(list, id, family))
  {
    if list != [] {
      var rest := Matching(list[1..], id, family);
      MatchingIsDistinct(list[1..], id, family);
      MatchingMembers(list[1..], id, family);
      forall j | 0 <= j < |rest| ensures SlotOf(list[0]) != SlotOf(rest[j]) {
        assert rest[j] in rest;
        var k :| 0 <= k < |list[1..]| && list[1..][k] == rest[j];
        assert list[k + 1] == rest[j];
      }
      assert Matching(list, id, family) == (if Matches(list[0], id, family) then [list[0]] else []) + rest;
    }
  }

  ghost predicate Sole(list: seq<Provider>, id: string, family: Option<string>, p: Provider) {
    p in list && Matches(p, id, family) && forall q :: q in list && Matches(q, id, family) ==> q == p
  }

  /** A lookup returns a provider exactly when it is the only one installed that matches. */
  lemma GetPluginIsExact(d: Directory, list: seq<Provider>, id: string, family: Option<string>, p: Provider)
    requires Admitted(d) && Unshadowed(d) && Lists(d, list)
    ensures GetPlugin(list, id, family) == Some(p) <==> Sole(list, id, family, p)
  {
    SnapshotIsComplete(d, list);
    MatchingMembers(list, id, family);
    MatchingIsDistinct(list, id, family);
    SoleElement(Matching(list, id, family), p);
  }

  lemma SoleElement(m: seq<Provider>, p: Provider)
    requires DistinctSlots(m)
    ensures |m| == 1 && m[0] == p <==> p in m && forall q :: q in m ==> q == p
  {
    if |m| > 1 {
      assert m[0] in m && m[1] in m && SlotOf(m[0]) != SlotOf(m[1]);
    }
  }

  /** With its id and family every installed provider is found; with its id alone it is found unless the id is a
      legacy one held in another family too. */
  lemma EveryProviderIsFound(d: Directory, list: seq<Provider>, p: Provider)
    requires Admitted(d) && Unshadowed(d) && Lists(d, list) && p in list
    ensures GetPlugin(list, p.id, Some(p.family)) == Some(p)
    ensures GetPlugin(list, p.id, None) == Some(p)
            || (GetPlugin(list, p.id, None) == None && IsLegacy(p)
                && exists q :: q in list && q.id == p.id && q.family != p.family && IsLegacy(q))
    ensures GetPlugin(list, p.id, None) == None <==> exists q :: q in list && q.id == p.id && q != p
  {
    GetPluginIsExact(d, list, p.id, Some(p.family), p);
    GetPluginIsExact(d, list, p.id, None, p);
    assert Matches(p, p.id, Some(p.family)) && Matches(p, p.id, None);
    forall q | q in list && q.id == p.id && q != p ensures q.family != p.family && IsLegacy(p) && IsLegacy(q) {
      assert SlotOf(q) != SlotOf(p);
    }
    if GetPlugin(list, p.id, None).Some? {
      GetPluginIsExact(d, list, p.id, None, GetPlugin(list, p.id, None).value);
    }
    assert GetPlugin(list, p.id, None) != Some(p) ==> exists q :: q in list && Matches(q, p.id, None) && q != p;
  }

  /** Every plugin is found by its id and family exactly when none is shadowed. */
  lemma FoundExactlyWhenUnshadowed(d: Directory, list: seq<Provider>)
    requires Admitted(d) && Lists(d, list)
    ensures (forall p :: p in list ==> GetPlugin(list, p.id, Some(p.family)) == Some(p)) <==> Unshadowed(d)
  {
    if Unshadowed(d) {
      forall p | p in list ensures GetPlugin(list, p.id, Some(p.family)) == Some(p) {
        EveryProviderIsFound(d, list, p);
      }
    } else {
      ListedKeys(d, list);
      var i, j :| 0 <= i < j < |list| && Key(list[i]) == Key(list[j]);
      assert SlotOf(list[i]) != SlotOf(list[j]);
      NotBothKept(list, list[i], list[j]);
      FoundIsKept(list, list[i]);
      FoundIsKept(list, list[j]);
    }
  }

  lemma FoundIsKept(list: seq<Provider>, p: Provider)
    ensures GetPlugin(list, p.id, Some(p.family)) == Some(p) ==> p in Unique(list, {})
  {
    MatchingMembers(Unique(list, {}), p.id, Some(p.family));
  }

  lemma NotBothKept(list: seq<Provider>, p: Provider, q: Provider)
    requires p != q && Key(p) == Key(q)
    ensures p !in Unique(list, {}) || q !in Unique(list, {})
  {
    UniqueKeys(list, {});
  }

  /** The whole story from an empty directory, whatever ids the candidates carry: after any run the snapshot drops
      nobody and every plugin is found by id and family exactly when no legacy plugin is shadowed; then an id alone
      fails to find its plugin only where two families hold the same legacy id. */
  lemma DirectoryIsExact(events: seq<Event>, list: seq<Provider>)
    requires Lists(Run(map[], events), list)
    ensures Unique(list, {}) == list <==> Unshadowed(Run(map[], events))
    ensures (forall p :: p in list ==> GetPlugin(list, p.id, Some(p.family)) == Some(p))
            <==> Unshadowed(Run(map[], events))
    ensures Unshadowed(Run(map[], events))
            ==> forall p :: p in list ==> GetPlugin(list, p.id, None) == Some(p) || SharedLegacyId(list, p)
  {
    var d := Run(map[], events);
    RunIsAdmitted(map[], events);
    SnapshotIsComplete(d, list);
    FoundExactlyWhenUnshadowed(d, list);
    if Unshadowed(d) {
      forall p | p in list ensures GetPlugin(list, p.id, None) == Some(p) || SharedLegacyId(list, p) {
        EveryProviderIsFound(d, list, p);
      }
    }
  }

  ghost predicate SharedLegacyId(list: seq<Provider>, p: Provider) {
    IsLegacy(p) && exists q :: q in list && q.id == p.id && q.family != p.family && IsLegacy(q)
  }

  lemma {:induction false} ProvidersOfCapability(plugins: seq<Provider>, capability: string, enabledOnly: bool)
    ensures forall p :: p in Providing(plugins, capability, enabledOnly)
                        <==> p in plugins && capability in p.capabilities && (!enabledOnly || p.enabled)
  {
    if plugins != [] {
      ProvidersOfCapability(plugins[1..], capability, enabledOnly);
      assert plugins == [plugins[0]] + plugins[1..];
    }
  }

  /** Searching by capability misses nobody installed. */
  lemma FindProvidersIsComplete(d: Directory, list: seq<Provider>, capability: string, enabledOnly: bool)
    requires Admitted(d) && Unshadowed(d) && Lists(d, list)
    ensures forall p :: p in FindProviders(list, capability, enabledOnly)
                        <==> p in list && capability in p.capabilities && (!enabledOnly || p.enabled)
  {
    SnapshotIsComplete(d, list);
    ProvidersOfCapability(list, capability, enabledOnly);
  }

  /* ---- ids from manifests have no colon, so nothing is shadowed ---- */

  /** Ids as `readPluginIdentity` yields them contain no colon. */
  predicate ColonFree(events: seq<Event>) {
    forall i :: 0 <= i < |events| && events[i].Install? ==> ':' !in events[i].candidate.id
  }

  ghost predicate NoColons(d: Directory) {
    forall s :: s in d ==> ':' !in d[s].id
  }

  lemma {:induction false} RunHoldsNoColons(d: Directory, events: seq<Event>)
    requires NoColons(d) && ColonFree(events)
    ensures NoColons(Run(d, events))
    decreases events
  {
    if events != [] {
      RunHoldsNoColons(Step(d, events[0]), events[1..]);
    }
  }

  lemma NoColonsNoShadow(d: Directory)
    requires Admitted(d) && NoColons(d)
    ensures Unshadowed(d)
  {
    forall s, t | s in d && t in d && s != t ensures !Shadows(d[s], d[t]) {
      var p, q := d[s], d[t];
      if Shadows(p, q) {
        LegacyKeyHasColon(q);
        if IsLegacy(p) {
          LastColonSplits(p.family, p.id, q.family, q.id);
        }
      }
    }
  }

  /** After any run of admitted installs of identities read from manifests nothing is shadowed, so nothing is
      dropped and everything is found. */
  lemma ManifestIdsAreFound(events: seq<Event>, list: seq<Provider>)
    requires ColonFree(events) && Lists(Run(map[], events), list)
    ensures Unshadowed(Run(map[], events)) && Unique(list, {}) == list
    ensures forall p :: p in list ==> GetPlugin(list, p.id, Some(p.family)) == Some(p)
  {
    RunIsAdmitted(map[], events);
    RunHoldsNoColons(map[], events);
    NoColonsNoShadow(Run(map[], events));
    DirectoryIsExact(events, list);
  }

  /** The condition matters: an id with a colon, which no manifest can yield, can shadow a legacy plugin. */
  lemma ColonIdShadowsLegacy(legacy: Provider, intruder: Provider)
    requires legacy == Provider("unknown/x", "site", "x", true, [])
             && intruder == Provider("site:unknown/x", "site", "y", true, [])
    ensures Admits(map[SlotOf(legacy) := legacy], intruder) && Shadows(intruder, legacy)
    ensures Unique([intruder, legacy], {}) == [intruder]
  {
    assert Key(legacy) == "site:unknown/x" == Key(intruder);
    assert [intruder, legacy][1..] == [legacy];
    assert Unique([legacy], {} + {Key(intruder)}) == [];
  }
}
