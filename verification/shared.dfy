/** Share scopes: the registry of shared packages that containers fill in
    and consume from, and the helpers of remoteEntry.71fdd4ee54dea9240f59.js
    that act on it — initialisation `g.I`, version selection `l`, the
    existence check `i`, the warning text `u`, picking `s`/`f` and the
    consumer `d` — and the container's `init`. */
module SharedScope {
  import opened Text
  import opened Results
  import opened Version
  import opened Ranges
  import opened Bundle

  /** What calling an entry's `get` starts: loading some chunks and then
      requiring a module of this container, or a getter of another container. */
  datatype Getter = Load(chunks: seq<ChunkId>, moduleId: ModuleId) | Foreign(owner: string)

  /** A registered version: its getter, the container it came from, whether
      it was registered eagerly, and whether some consumer has taken it. */
  datatype Entry = Entry(get: Getter, from: string, eager: bool, loaded: bool)

  datatype Slot = Slot(version: string, entry: Entry)

  /** The versions of one package, in the order `Object.keys` lists them:
      a new key goes at the end, an overwritten key keeps its place. */
  type VersionTable = seq<Slot>

  /** A share scope maps a package name to its versions. */
  type Scope = map<string, VersionTable>

  /** Object identity of a share scope: one this runtime created for a name,
      or one the host handed in. */
  datatype ScopeId = Local(name: string) | Host(n: nat)

  datatype ScopeObject = ScopeObject(id: ScopeId, packages: Scope)

  /** The marker object `r[t]` a container pushes on the list of visited
      containers while it initialises scope `t`. */
  datatype InitToken = InitToken(container: string, scope: string)

  /** `g.S` (scope name to scope object) and the scope names whose
      initialisation has completed (`e[t]` set). */
  datatype ShareState = ShareState(scopes: map<string, ScopeObject>, initialized: set<string>)

  const EmptyShare: ShareState := ShareState(map[], {})

  /** The entry the container registers for itself. */
  const LocalGetter: Getter := Load(MainChunks, MainModule)

  // ---------------------------------------------------------------------
  // Version tables

  function Versions(t: VersionTable): (vs: seq<string>)
    ensures |vs| == |t|
    ensures forall i :: 0 <= i < |t| ==> vs[i] == t[i].version
  {
    if |t| == 0 then [] else [t[0].version] + Versions(t[1..])
  }

  /** `t[version]`. */
  function Lookup(t: VersionTable, version: string): (r: Option<Entry>)
    ensures r.None? <==> version !in Versions(t)
  {
    if |t| == 0 then None
    else if t[0].version == version then Some(t[0].entry)
    else Lookup(t[1..], version)
  }

  /** `t[version] = entry`: overwrite in place, or add at the end. */
  function Put(t: VersionTable, version: string, entry: Entry): (r: VersionTable)
    ensures version in Versions(t) ==> Versions(r) == Versions(t)
    ensures version !in Versions(t) ==> Versions(r) == Versions(t) + [version]
    ensures Lookup(r, version) == Some(entry)
    ensures forall w :: w != version ==> Lookup(r, w) == Lookup(t, w)
  {
    if |t| == 0 then [Slot(version, entry)]
    else if t[0].version == version then [Slot(version, entry)] + t[1..]
    else
      var r := [t[0]] + Put(t[1..], version, entry);
      assert r[1..] == Put(t[1..], version, entry);
      assert Versions(t) == [t[0].version] + Versions(t[1..]);
      r
  }

  /** `e.loaded = 1` on the entry of `version`. */
  function MarkLoaded(t: VersionTable, version: string): (r: VersionTable)
    ensures Versions(r) == Versions(t)
    ensures forall w :: w != version ==> Lookup(r, w) == Lookup(t, w)
    ensures Lookup(t, version).Some? ==> Lookup(r, version) == Some(Lookup(t, version).value.(loaded := true))
  {
    if |t| == 0 then []
    else if t[0].version == version then [Slot(version, t[0].entry.(loaded := true))] + t[1..]
    else
      var r := [t[0]] + MarkLoaded(t[1..], version);
      assert r[1..] == MarkLoaded(t[1..], version);
      r
  }

  predicate IsLoaded(t: VersionTable, version: string) {
    Lookup(t, version).Some? && Lookup(t, version).value.loaded
  }

  // ---------------------------------------------------------------------
  // Registration

  /** Whether a registration from `from` takes the place of `prior`. The
      bundle passes no `eager` flag, so an eager entry is never replaced; a
      non-eager one that no consumer has taken is replaced by a container
      whose name sorts after the entry's `from`. */
  predicate Replaces(prior: Option<Entry>, from: string) {
    prior.None? || (!prior.value.loaded && !prior.value.eager && StrLt(prior.value.from, from))
  }

  /** The `register` step of `g.I`: the package's table is created if
      missing, and the new non-eager entry is stored when `Replaces` allows. */
  function Register(scope: Scope, name: string, version: string, get: Getter, from: string): (r: Scope)
    ensures r.Keys == scope.Keys + {name}
    ensures forall p :: p in scope && p != name ==> r[p] == scope[p]
    ensures var prior := if name in scope then Lookup(scope[name], version) else None;
      Lookup(r[name], version) == (if Replaces(prior, from) then Some(Entry(get, from, false, false)) else prior)
    ensures forall w :: w != version ==>
      Lookup(r[name], w) == (if name in scope then Lookup(scope[name], w) else None)
  {
    var table := if name in scope then scope[name] else [];
    var prior := Lookup(table, version);
    if Replaces(prior, from) then scope[name := Put(table, version, Entry(get, from, false, false))]
    else scope[name := table]
  }

  /** A registration that is already in place is not replaced by itself. */
  lemma RegisterIdempotent(scope: Scope, name: string, version: string, get: Getter, from: string)
    ensures Register(Register(scope, name, version, get, from), name, version, get, from)
         == Register(scope, name, version, get, from)
  {
    var r := Register(scope, name, version, get, from);
    StrLtIrreflexive(from);
    assert !Replaces(Lookup(r[name], version), from);
    assert r[name := r[name]] == r;
  }

  /** A registration never replaces an entry a consumer has taken, or an eager one. */
  lemma RegisterKeepsTaken(scope: Scope, name: string, version: string, get: Getter, from: string)
    requires name in scope && Lookup(scope[name], version).Some?
    requires Lookup(scope[name], version).value.loaded || Lookup(scope[name], version).value.eager
    ensures Lookup(Register(scope, name, version, get, from)[name], version) == Lookup(scope[name], version)
  {
  }

  // ---------------------------------------------------------------------
  // `g.I`

  /** What `g.I` returns (`ran`: 1, otherwise `undefined`), the list of
      visited containers afterwards, and the share state. */
  datatype InitOutcome = InitOutcome(ran: bool, visited: seq<InitToken>, state: ShareState)

  /** `g.I(name, visited)`: a container already on the list returns at
      once; otherwise it goes on the list, and the first initialisation of a
      scope name creates the scope if needed, registers the container's own
      package in "default", and records the name as initialised. */
  function InitScope(st: ShareState, name: string, visited: seq<InitToken>): (r: InitOutcome)
    ensures InitToken(ContainerName, name) in visited ==> r == InitOutcome(false, visited, st)
    ensures InitToken(ContainerName, name) !in visited ==>
      && r.ran && r.visited == visited + [InitToken(ContainerName, name)]
      && r.state.initialized == st.initialized + {name}
      && (name !in st.initialized ==> r.state.scopes.Keys == st.scopes.Keys + {name})
      && (forall n :: n in st.scopes && n != name ==> n in r.state.scopes && r.state.scopes[n] == st.scopes[n])
    ensures name in st.initialized ==> r.state == st
  {
    var token := InitToken(ContainerName, name);
    if token in visited then InitOutcome(false, visited, st)
    else
      var visited' := visited + [token];
      if name in st.initialized then InitOutcome(true, visited', st)
      else
        var obj := if name in st.scopes then st.scopes[name] else ScopeObject(Local(name), map[]);
        var obj' :=
          if name == "default"
          then obj.(packages := Register(obj.packages, ContainerName, ContainerVersion, LocalGetter, ContainerName))
          else obj;
        InitOutcome(true, visited', ShareState(st.scopes[name := obj'], st.initialized + {name}))
  }

  /** After a first `g.I("default")` the container's version is in the
      default scope, with its own getter unless an entry another container
      registered (taken, eager or from a later name) was kept. */
  lemma InitRegistersContainer(st: ShareState, visited: seq<InitToken>)
    requires "default" !in st.initialized && InitToken(ContainerName, "default") !in visited
    ensures var r := InitScope(st, "default", visited).state;
      && ContainerName in r.scopes["default"].packages
      && Lookup(r.scopes["default"].packages[ContainerName], ContainerVersion).Some?
    ensures "default" !in st.scopes ==>
      var r := InitScope(st, "default", visited).state;
      Lookup(r.scopes["default"].packages[ContainerName], ContainerVersion)
        == Some(Entry(LocalGetter, ContainerName, false, false))
  {
  }

  /** A scope is initialised once: a second `g.I` leaves the share state alone. */
  lemma InitScopeOnce(st: ShareState, name: string, first: seq<InitToken>, second: seq<InitToken>)
    requires InitToken(ContainerName, name) !in first
    ensures var r := InitScope(st, name, first).state;
      InitScope(r, name, second).state == r
  {
  }

  // ---------------------------------------------------------------------
  // The container's `init`

  const InitConflictMessage: string :=
    "Container initialization failed as it has already been initialized with a different share scope"

  /** `init(shareScope, initScope)`: a different "default" scope already in
      place is an error; otherwise the given scope becomes "default" and is
      initialised. A missing `initScope` is the empty list.

      A scope object is identified by its `id`; `packages` is its content as
      the caller last saw it. When "default" already holds the object with
      that id, `g.S.default = shareScope` stores the same object again, so
      its current content is kept, not the caller's view of it. */
  function ContainerInit(st: ShareState, share: ScopeObject, visited: seq<InitToken>): (r: Result<InitOutcome>)
    ensures r.Failure? <==> "default" in st.scopes && st.scopes["default"].id != share.id
    ensures r.Failure? ==> r.error == Thrown(InitConflictMessage)
    ensures r.Success? ==> "default" in r.value.state.scopes && r.value.state.scopes["default"].id == share.id
  {
    if "default" in st.scopes then
      if st.scopes["default"].id != share.id then Failure(Thrown(InitConflictMessage))
      else Success(InitScope(st, "default", visited))
    else
      Success(InitScope(st.(scopes := st.scopes["default" := share]), "default", visited))
  }

  /** Initialising with the scope object already in place keeps what the
      scope holds: every other package as it was, and in the container's own
      package every other version, and 4.3.0 too once a consumer took it. */
  lemma ContainerInitKeepsPackages(st: ShareState, share: ScopeObject, visited: seq<InitToken>)
    requires "default" in st.scopes && st.scopes["default"].id == share.id
    ensures ContainerInit(st, share, visited).Success?
    ensures var before := st.scopes["default"].packages;
      var after := ContainerInit(st, share, visited).value.state.scopes["default"].packages;
      && (forall p :: p in before ==> p in after)
      && (forall p :: p in before && p != ContainerName ==> after[p] == before[p])
      && (ContainerName in before ==>
            forall w :: w != ContainerVersion || IsLoaded(before[ContainerName], w) ==>
              Lookup(after[ContainerName], w) == Lookup(before[ContainerName], w))
  {
    var before := st.scopes["default"].packages;
    if ContainerName in before && IsLoaded(before[ContainerName], ContainerVersion) {
      RegisterKeepsTaken(before, ContainerName, ContainerVersion, LocalGetter, ContainerName);
    }
  }

  /** Initialising the container again with the same scope object,
      whatever content the caller's view of it shows and whatever list comes
      with it, changes nothing. */
  lemma ContainerInitAgain(st: ShareState, share: ScopeObject, again: ScopeObject, first: seq<InitToken>, second: seq<InitToken>)
    requires ContainerInit(st, share, first).Success?
    requires InitToken(ContainerName, "default") !in first
    requires again.id == share.id
    ensures var s1 := ContainerInit(st, share, first).value.state;
      ContainerInit(s1, again, second) == Success(InitScope(s1, "default", second))
    ensures var s1 := ContainerInit(st, share, first).value.state;
      ContainerInit(s1, again, second).value.state == s1
  {
  }

  // ---------------------------------------------------------------------
  // Choosing a version: `l`

  /** The `reduce` of `l` from slot `i` on, `acc` being the chosen key so far
      (`None` for the initial 0). A falsy choice is replaced by the next key;
      a choice no consumer has taken is replaced by a key it is below; a
      taken choice stays. `versionLt` throws on a key the pattern rejects. */
  function FindFrom(t: VersionTable, i: nat, acc: Option<string>): (r: Result<Option<string>>)
    ensures r.Failure? ==> r.error == TypeError
    decreases |t| - i
  {
    if i >= |t| then Success(acc)
    else
      var key := t[i].version;
      if acc.None? || acc.value == "" then FindFrom(t, i + 1, Some(key))
      else if IsLoaded(t, acc.value) then FindFrom(t, i + 1, acc)
      else
        var lt :- VersionLt(acc.value, key);
        FindFrom(t, i + 1, if lt then Some(key) else acc)
  }

  /** `l(scope, name)` on the package's table. */
  function FindVersion(t: VersionTable): Result<Option<string>> {
    FindFrom(t, 0, None)
  }

  lemma {:induction false} FindFromKey(t: VersionTable, i: nat, acc: Option<string>)
    requires acc.Some? ==> acc.value in Versions(t)
    requires FindFrom(t, i, acc).Success?
    ensures var r := FindFrom(t, i, acc).value;
      && (r.None? <==> acc.None? && i >= |t|)
      && (r.Some? ==> r.value in Versions(t))
    decreases |t| - i
  {
    if i < |t| {
      var key := t[i].version;
      assert key in Versions(t);
      if acc.None? || acc.value == "" {
        FindFromKey(t, i + 1, Some(key));
      } else if IsLoaded(t, acc.value) {
        FindFromKey(t, i + 1, acc);
      } else {
        var lt := VersionLt(acc.value, key).value;
        FindFromKey(t, i + 1, if lt then Some(key) else acc);
      }
    }
  }

  /** `l` yields one of the table's keys, and 0 exactly when it has none. */
  lemma FindVersionKey(t: VersionTable)
    requires FindVersion(t).Success?
    ensures FindVersion(t).value.None? <==> |t| == 0
    ensures FindVersion(t).value.Some? ==> FindVersion(t).value.value in Versions(t)
  {
    FindFromKey(t, 0, None);
  }

  lemma {:induction false} FindFromKeepsLoaded(t: VersionTable, i: nat, k: string)
    requires k != "" && IsLoaded(t, k)
    ensures FindFrom(t, i, Some(k)) == Success(Some(k))
    decreases |t| - i
  {
    if i < |t| {
      FindFromKeepsLoaded(t, i + 1, k);
    }
  }

  /** A taken choice is never displaced: once the first key of the table is
      a taken, non-empty version, `l` returns it whatever follows. */
  lemma FindVersionKeepsLoaded(t: VersionTable)
    requires |t| >= 1 && t[0].version != "" && IsLoaded(t, t[0].version)
    ensures FindVersion(t) == Success(Some(t[0].version))
  {
    FindFromKeepsLoaded(t, 1, t[0].version);
  }

  /** Every key parses and none is the empty string. */
  predicate WellFormedKeys(t: VersionTable) {
    forall j :: 0 <= j < |t| ==> t[j].version != "" && Parse(t[j].version).Some?
  }

  predicate NoneLoaded(t: VersionTable) {
    forall j :: 0 <= j < |t| ==> !IsLoaded(t, t[j].version)
  }

  /** `k` is not below the version `w` in the order of `versionLt`. */
  predicate NotBelow(k: string, w: string) {
    Parse(k).Some? && Parse(w).Some? && !Lt(Parse(k).value, Parse(w).value)
  }

  /** One step of the `reduce`: whichever of `k` and `key` is kept, a
      version not below the kept one is below neither. */
  lemma KeepHigher(pm: Version, pk: Version, pkey: Version)
    requires if Lt(pk, pkey) then !Lt(pm, pkey) else !Lt(pm, pk)
    ensures !Lt(pm, pk) && !Lt(pm, pkey)
  {
    if Lt(pk, pkey) {
      if Lt(pm, pk) {
        LtTransitive(pm, pk, pkey);
      }
    } else if Lt(pm, pkey) && pm != pk {
      LtConnected(pm, pk);
      LtTransitive(pk, pm, pkey);
    }
  }

  lemma {:induction false} FindFromMaximal(t: VersionTable, i: nat, k: string)
    requires WellFormedKeys(t) && NoneLoaded(t)
    requires k in Versions(t)
    ensures FindFrom(t, i, Some(k)).Success?
    ensures var r := FindFrom(t, i, Some(k)).value;
      && r.Some? && r.value in Versions(t)
      && NotBelow(r.value, k)
      && forall j :: i <= j < |t| ==> NotBelow(r.value, t[j].version)
    decreases |t| - i
  {
    var j0 :| 0 <= j0 < |t| && t[j0].version == k;
    var pk := Parse(k).value;
    if i >= |t| {
      LtIrreflexive(pk);
    } else {
      var key := t[i].version;
      var pkey := Parse(key).value;
      assert key in Versions(t);
      var lt := Lt(pk, pkey);
      assert !IsLoaded(t, k) && k != "";
      assert VersionLt(k, key) == Success(lt);
      var next := if lt then key else k;
      assert FindFrom(t, i, Some(k)) == FindFrom(t, i + 1, Some(next));
      FindFromMaximal(t, i + 1, next);
      var m := FindFrom(t, i + 1, Some(next)).value.value;
      KeepHigher(Parse(m).value, pk, pkey);
      assert NotBelow(m, k) && NotBelow(m, key);
      assert forall j :: i + 1 <= j < |t| ==> NotBelow(m, t[j].version);
    }
  }

  /** When every key parses, none is empty and none has been taken, `l`
      succeeds and picks a key that no other key is above: the highest
      version in the order of `versionLt`. */
  lemma FindVersionHighest(t: VersionTable)
    requires |t| >= 1 && WellFormedKeys(t) && NoneLoaded(t)
    ensures FindVersion(t).Success? && FindVersion(t).value.Some?
    ensures var k := FindVersion(t).value.value;
      k in Versions(t) && forall j :: 0 <= j < |t| ==> NotBelow(k, t[j].version)
  {
    var k := t[0].version;
    assert k in Versions(t);
    assert FindVersion(t) == FindFrom(t, 1, Some(k));
    FindFromMaximal(t, 1, k);
  }

  // ---------------------------------------------------------------------
  // Checking, warning and picking: `i`, `u`, `s`, `f`

  function MissingSharedMessage(name: string, scopeName: string): string {
    "Shared module " + name + " doesn't exist in shared scope " + scopeName
  }

  /** `i(scopeName, name)`: the scope and the package must exist. */
  function CheckExists(st: ShareState, scopeName: string, name: string): (r: Result<Scope>)
    ensures r.Success? <==> scopeName in st.scopes && name in st.scopes[scopeName].packages
    ensures r.Failure? ==> r.error == Thrown(MissingSharedMessage(name, scopeName))
    ensures r.Success? ==> r.value == st.scopes[scopeName].packages
  {
    if scopeName in st.scopes && name in st.scopes[scopeName].packages then
      Success(st.scopes[scopeName].packages)
    else
      Failure(Thrown(MissingSharedMessage(name, scopeName)))
  }

  /** Whether `i` finds the package once `g.I` has run on the scope: it was
      there already, or it is this container's own package and this is the
      first initialisation of "default", which registers it. */
  predicate PackageVisible(st: ShareState, scopeName: string, name: string) {
    || (scopeName in st.scopes && name in st.scopes[scopeName].packages)
    || (scopeName == "default" && "default" !in st.initialized && name == ContainerName)
  }

  /** The check `i` after the consumer's `g.I` succeeds exactly for the
      packages already in the scope, plus this container's own package on
      the first initialisation of "default". */
  lemma ExistsAfterInit(st: ShareState, scopeName: string, name: string)
    ensures CheckExists(InitScope(st, scopeName, []).state, scopeName, name).Success?
        <==> PackageVisible(st, scopeName, name)
  {
    var st1 := InitScope(st, scopeName, []).state;
    if scopeName !in st.initialized {
      var obj := if scopeName in st.scopes then st.scopes[scopeName] else ScopeObject(Local(scopeName), map[]);
      assert st1.scopes[scopeName].packages.Keys
          == obj.packages.Keys + (if scopeName == "default" then {ContainerName} else {});
    }
  }

  /** `u`: the warning for a chosen version outside the required range.
      `version` is the chosen key, `from` what `t && e[r][t].from` gives. */
  function UnsatisfiedMessage(version: string, from: string, name: string, required: string): string {
    "Unsatisfied version " + version + " from " + from + " of shared singleton module " + name
      + " (required " + required + ")"
  }

  /** The outcome of `s`: the getter `f` called, the warning printed (if
      any), and the scope with the chosen entry marked as taken. */
  datatype Pick = Pick(version: string, get: Getter, warning: Option<string>, scope: Scope)

  /** The version text `a` tests: the chosen key, or 0 (which reads as "0"). */
  function ChosenText(found: Option<string>): string {
    if found.Some? then found.value else "0"
  }

  /** `t && e[r][t].from` in the warning: a falsy choice prints itself. */
  function WarningFrom(t: VersionTable, found: Option<string>): string {
    if found.None? || found.value == "" then ChosenText(found)
    else match Lookup(t, found.value)
      case Some(entry) => entry.from
      case None => "undefined"
  }

  /** The advice step of `s`: test the choice against the range with `a`,
      and build the warning with `u` (which prints the range with `o`) when
      it is outside. */
  function Advice(t: VersionTable, found: Option<string>, name: string, range: Range): (r: Result<Option<string>>)
    ensures r.Success? ==> (r.value.None? <==> SatisfiesText(range, ChosenText(found)) == Success(true))
    ensures r.Failure? ==> r.error == TypeError
  {
    var ok :- SatisfiesText(range, ChosenText(found));
    if ok then Success(None)
    else
      var required :- Format(range);
      Success(Some(UnsatisfiedMessage(ChosenText(found), WarningFrom(t, found), name, required)))
  }

  /** `s(scope, 0, name, range)`: choose a version with `l`, warn when it is
      outside the range, then mark it taken and call its getter (`f`). The
      range is only advice: an unsatisfied choice is still taken. A package
      with no versions fails when `f` reads the entry of key 0. */
  function PickShared(scope: Scope, name: string, range: Range): (r: Result<Pick>)
    ensures r.Success? ==>
      && name in scope
      && FindVersion(scope[name]) == Success(Some(r.value.version))
      && Lookup(scope[name], r.value.version).Some?
      && r.value.get == Lookup(scope[name], r.value.version).value.get
      && Advice(scope[name], Some(r.value.version), name, range) == Success(r.value.warning)
      && r.value.scope == scope[name := MarkLoaded(scope[name], r.value.version)]
    ensures name in scope && scope[name] == [] ==> r.Failure?
    ensures name !in scope ==> r == Failure(TypeError)
    ensures r.Failure? ==> r.error == TypeError
  {
    if name !in scope then Failure(TypeError)
    else
      var table := scope[name];
      var found :- FindVersion(table);
      var warning :- Advice(table, found, name, range);
      if found.None? then Failure(TypeError)
      else
        match Lookup(table, found.value)
        case None => Failure(TypeError)
        case Some(entry) => Success(Pick(found.value, entry.get, warning, scope[name := MarkLoaded(table, found.value)]))
  }

  /** The warning against a leaf range, by the order `versionLt`: for a
      chosen version of numbers and strings, `u` is printed exactly when the
      version misses the leaf's fixed prefix or lies on the wrong side of its
      bound, and it names the chosen version, its provider, the package and
      the range as `o` prints it. */
  lemma AdviceByOrder(t: VersionTable, found: Option<string>, name: string, k: int, toks: seq<Token>)
    requires Parse(ChosenText(found)).Some? && AllPlain(Parse(ChosenText(found)).value)
    requires AllPlain(toks) && FixedCount(k) <= |toks|
    ensures var v := Parse(ChosenText(found)).value;
      Advice(t, found, name, Leaf(k, toks))
        == Success(if PrefixAgrees(v, toks, FixedCount(k), 0) && (Lt(v, toks) == (k < 0)) then None
                   else Some(UnsatisfiedMessage(ChosenText(found), WarningFrom(t, found), name, Format(Leaf(k, toks)).value)))
  {
    LeafMatchesOrder(k, toks, Parse(ChosenText(found)).value);
  }

  /** The warning `s` prints, if any. It is printed before `f` reads the
      chosen entry, so it is printed even when that read fails: a package
      with an empty table chooses 0, warns when "0" is outside the range,
      and then fails. */
  function PickWarning(scope: Scope, name: string, range: Range): (r: Option<string>)
    ensures PickShared(scope, name, range).Success? ==> r == PickShared(scope, name, range).value.warning
    ensures name in scope && scope[name] == [] ==>
      (r.Some? <==> SatisfiesText(range, "0") == Success(false) && Format(range).Success?)
    ensures name in scope && scope[name] == [] && r.Some? ==>
      r.value == UnsatisfiedMessage("0", "0", name, Format(range).value)
  {
    if name !in scope then None
    else match FindVersion(scope[name])
      case Failure(_) => None
      case Success(found) =>
        match Advice(scope[name], found, name, range)
        case Failure(_) => None
        case Success(w) => w
  }

  /** On a table whose keys all parse and that no consumer has touched, the
      pick succeeds with a highest version, and warns exactly when that
      version is outside the range. */
  lemma PickChoosesHighest(scope: Scope, name: string, range: Range)
    requires name in scope && |scope[name]| >= 1 && WellFormedKeys(scope[name]) && NoneLoaded(scope[name])
    requires Format(range).Success?
    ensures PickShared(scope, name, range).Success?
    ensures var p := PickShared(scope, name, range).value;
      && (forall j :: 0 <= j < |scope[name]| ==> NotBelow(p.version, scope[name][j].version))
      && (p.warning.None? <==> SatisfiesText(range, p.version) == Success(true))
  {
    var t := scope[name];
    FindVersionHighest(t);
    var k := FindVersion(t).value.value;
    var j :| 0 <= j < |t| && t[j].version == k;
    assert Parse(k).Some?;
    assert SatisfiesText(range, k).Success?;
    assert Lookup(t, k).Some?;
  }

  /** The chosen version ends up taken, and the scope is otherwise the same:
      the same packages, the same keys, the same other entries. */
  lemma PickMarksTaken(scope: Scope, name: string, range: Range)
    requires PickShared(scope, name, range).Success?
    ensures var p := PickShared(scope, name, range).value;
      && p.scope.Keys == scope.Keys
      && IsLoaded(p.scope[name], p.version)
      && Versions(p.scope[name]) == Versions(scope[name])
      && (forall w :: w != p.version ==> Lookup(p.scope[name], w) == Lookup(scope[name], w))
      && (forall q :: q in scope && q != name ==> p.scope[q] == scope[q])
  {
  }

  /** The consumer takes the chosen version even when the range rejects it:
      two ranges give the same getter and the same scope, and differ at most
      in the warning. */
  lemma PickIgnoresRange(scope: Scope, name: string, r1: Range, r2: Range)
    requires PickShared(scope, name, r1).Success? && PickShared(scope, name, r2).Success?
    ensures PickShared(scope, name, r1).value.version == PickShared(scope, name, r2).value.version
    ensures PickShared(scope, name, r1).value.get == PickShared(scope, name, r2).value.get
    ensures PickShared(scope, name, r1).value.scope == PickShared(scope, name, r2).value.scope
  {
  }

  lemma {:induction false} MarkLoadedTwice(t: VersionTable, k: string)
    ensures MarkLoaded(MarkLoaded(t, k), k) == MarkLoaded(t, k)
    decreases |t|
  {
    if |t| > 0 && t[0].version != k {
      MarkLoadedTwice(t[1..], k);
      assert MarkLoaded(t, k)[1..] == MarkLoaded(t[1..], k);
    }
  }

  lemma {:induction false} FindAfterTaking(t: VersionTable, i: nat, acc: Option<string>, k: string)
    requires k != "" && Lookup(t, k).Some?
    requires FindFrom(t, i, acc) == Success(Some(k))
    ensures FindFrom(MarkLoaded(t, k), i, acc) == Success(Some(k))
    decreases |t| - i
  {
    var t' := MarkLoaded(t, k);
    if acc == Some(k) {
      FindFromKeepsLoaded(t', i, k);
    } else if i < |t| {
      assert Versions(t') == Versions(t);
      assert t'[i].version == t[i].version;
      var key := t[i].version;
      if acc.None? || acc.value == "" {
        FindAfterTaking(t, i + 1, Some(key), k);
      } else {
        assert IsLoaded(t', acc.value) == IsLoaded(t, acc.value);
        if IsLoaded(t, acc.value) {
          FindAfterTaking(t, i + 1, acc, k);
        } else {
          var lt := VersionLt(acc.value, key).value;
          FindAfterTaking(t, i + 1, if lt then Some(key) else acc, k);
        }
      }
    }
  }

  /** Picking again from the scope a pick left behind gives the same pick:
      the first pick marked its version taken, so `l` keeps it. */
  lemma PickTwice(scope: Scope, name: string, range: Range)
    requires PickShared(scope, name, range).Success?
    requires PickShared(scope, name, range).value.version != ""
    ensures var p := PickShared(scope, name, range).value;
      PickShared(p.scope, name, range) == Success(p)
  {
    var p := PickShared(scope, name, range).value;
    var t := scope[name];
    var k := p.version;
    var t' := MarkLoaded(t, k);
    assert p.scope[name] == t';
    FindAfterTaking(t, 0, None, k);
    assert FindVersion(t') == Success(Some(k));
    assert WarningFrom(t', Some(k)) == WarningFrom(t, Some(k));
    assert Advice(t', Some(k), name, range) == Advice(t, Some(k), name, range);
    MarkLoadedTwice(t, k);
    assert p.scope[name := MarkLoaded(t', k)] == p.scope;
    PickOfParts(p.scope, name, range, k, p.warning);
  }

  /** A pick put together from its parts: the choice of `l`, the entry it
      names and the advice. */
  lemma PickOfParts(scope: Scope, name: string, range: Range, k: string, w: Option<string>)
    requires name in scope && FindVersion(scope[name]) == Success(Some(k)) && Lookup(scope[name], k).Some?
    requires Advice(scope[name], Some(k), name, range) == Success(w)
    ensures PickShared(scope, name, range)
         == Success(Pick(k, Lookup(scope[name], k).value.get, w, scope[name := MarkLoaded(scope[name], k)]))
  {
  }

  // ---------------------------------------------------------------------
  // The consumer `d`

  /** `d(scopeName, name, range)`: initialise the scope with a fresh list,
      check that the package exists, then pick. The share state returned
      carries the chosen entry marked as taken. */
  function Consume(st: ShareState, scopeName: string, name: string, range: Range): (r: Result<(Pick, ShareState)>)
    ensures r.Success? ==>
      var st1 := InitScope(st, scopeName, []).state;
      && scopeName in st1.scopes && name in st1.scopes[scopeName].packages
      && PickShared(st1.scopes[scopeName].packages, name, range) == Success(r.value.0)
      && r.value.1.initialized == st.initialized + {scopeName}
      && r.value.1.scopes == st1.scopes[scopeName := st1.scopes[scopeName].(packages := r.value.0.scope)]
    ensures var st1 := InitScope(st, scopeName, []).state;
      (scopeName !in st1.scopes || name !in st1.scopes[scopeName].packages) ==>
      r == Failure(Thrown(MissingSharedMessage(name, scopeName)))
  {
    var init := InitScope(st, scopeName, []);
    var st1 := init.state;
    var packages :- CheckExists(st1, scopeName, name);
    var pick :- PickShared(packages, name, range);
    var obj := st1.scopes[scopeName];
    Success((pick, st1.(scopes := st1.scopes[scopeName := obj.(packages := pick.scope)])))
  }

  /** The consumer throws the existence error exactly when the package is
      not visible after its `g.I`; every other way it fails is a TypeError. */
  lemma ConsumeExistenceError(st: ShareState, scopeName: string, name: string, range: Range)
    ensures Consume(st, scopeName, name, range) == Failure(Thrown(MissingSharedMessage(name, scopeName)))
        <==> !PackageVisible(st, scopeName, name)
    ensures PackageVisible(st, scopeName, name) && Consume(st, scopeName, name, range).Failure? ==>
      Consume(st, scopeName, name, range).error == TypeError
  {
    ExistsAfterInit(st, scopeName, name);
  }

  /** The warning the consumer prints, whether the pick then succeeds or not. */
  function ConsumeWarning(st: ShareState, scopeName: string, name: string, range: Range): (r: Option<string>)
    ensures Consume(st, scopeName, name, range).Success? ==> r == Consume(st, scopeName, name, range).value.0.warning
    ensures !PackageVisible(st, scopeName, name) ==> r.None?
  {
    ExistsAfterInit(st, scopeName, name);
    var st1 := InitScope(st, scopeName, []).state;
    if scopeName in st1.scopes && name in st1.scopes[scopeName].packages
    then PickWarning(st1.scopes[scopeName].packages, name, range)
    else None
  }

  /** On a scope already initialised, the consumer is the pick alone. */
  lemma ConsumeOnInitialized(st: ShareState, scopeName: string, name: string, range: Range, pick: Pick)
    requires scopeName in st.initialized && scopeName in st.scopes
    requires PickShared(st.scopes[scopeName].packages, name, range) == Success(pick)
    ensures Consume(st, scopeName, name, range)
         == Success((pick, st.(scopes := st.scopes[scopeName := st.scopes[scopeName].(packages := pick.scope)])))
  {
    assert InitScope(st, scopeName, []).state == st;
    assert CheckExists(st, scopeName, name) == Success(st.scopes[scopeName].packages);
  }

  /** A consumer that comes second takes the version the first one took,
      and changes nothing: the first consumer marked it taken, so `l` keeps
      it. */
  lemma ConsumeTwiceSameVersion(st: ShareState, scopeName: string, name: string, range: Range)
    requires Consume(st, scopeName, name, range).Success?
    requires Consume(st, scopeName, name, range).value.0.version != ""
    ensures var first := Consume(st, scopeName, name, range).value;
      Consume(first.1, scopeName, name, range) == Success(first)
  {
    var first := Consume(st, scopeName, name, range).value;
    var st1 := InitScope(st, scopeName, []).state;
    var pick := first.0;
    var st2 := first.1;
    PickTwice(st1.scopes[scopeName].packages, name, range);
    assert PickShared(pick.scope, name, range) == Success(pick);
    assert scopeName in st2.initialized && scopeName in st2.scopes;
    assert st2.scopes[scopeName].packages == pick.scope;
    ConsumeOnInitialized(st2, scopeName, name, range, pick);
    assert st2.scopes[scopeName].(packages := pick.scope) == st2.scopes[scopeName];
    assert st2.(scopes := st2.scopes[scopeName := st2.scopes[scopeName]]) == st2;
  }
}
