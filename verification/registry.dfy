/** The module registry of remoteEntry.71fdd4ee54dea9240f59.js: factories
    `g.m` (the bundle's `v`), the cache of module records `g.c` (the
    bundle's `m`), the `require` function `g`, and `g.d`, which copies
    exports onto an exports object without touching keys already there.

    A factory body is modelled as a list of steps run in order: define
    exports through `g.d`, require another module and copy one of its
    exports, or throw. */
module Registry {
  import opened Results
  import opened Bundle

  /** An exported value. Getter functions are modelled by their values. */
  datatype Val = Undefined | Data(n: int) | Callable(name: string)

  type Exports = map<string, Val>

  datatype Step =
    /** `g.d(exports, defs)`. */
    | Define(defs: Exports)
    /** `into = g(dep)[key]` stored on the module's own exports. */
    | Import(dep: ModuleId, key: string, into: string)
    /** `throw new Error(message)`. */
    | Throw(message: string)

  datatype Factory =
    /** A module of the bundle. */
    | Body(steps: seq<Step>)
    /** The factory the consumes handler installs once a shared module has
        arrived: it deletes its own record and returns the provider's exports. */
    | SharedReady(exports: Exports)
    /** The factory installed when fetching a shared module failed: it deletes
        its own record and throws the failure. */
    | SharedFailed(error: Error)

  /** Factories, cached module records, and the order in which bodies ran. */
  datatype RegState = RegState(factories: map<ModuleId, Factory>, cache: map<ModuleId, Exports>, ran: seq<ModuleId>)

  datatype Outcome = Outcome(result: Result<Exports>, state: RegState)

  // ---------------------------------------------------------------------
  // `g.d`

  /** What `g.d(exports, defs)` leaves: every key of `defs` the exports did
      not have is added; keys already there are never overwritten. */
  function Defined(exports: Exports, defs: Exports): (r: Exports)
    ensures r.Keys == exports.Keys + defs.Keys
    ensures forall k :: k in exports ==> r[k] == exports[k]
    ensures forall k :: k in defs && k !in exports ==> r[k] == defs[k]
  {
    map k | k in exports.Keys + defs.Keys :: if k in exports then exports[k] else defs[k]
  }

  /** The loop of `g.d`: for each own key of `defs` missing from `exports`,
      define it. */
  method DefineGetters(exports: Exports, defs: Exports) returns (r: Exports)
    ensures r == Defined(exports, defs)
  {
    r := exports;
    var keys := defs.Keys;
    ghost var done: set<string> := {};
    while keys != {}
      invariant done + keys == defs.Keys && done !! keys
      invariant DefinedSoFar(exports, defs, done, r)
      decreases keys
    {
      var k :| k in keys;
      DefineStep(exports, defs, done, r, k);
      if k !in r {
        r := r[k := defs[k]];
      }
      done := done + {k};
      keys := keys - {k};
    }
    assert done == defs.Keys;
    DefinedByKeys(exports, defs, r);
  }

  /** The state of `g.d` after the keys in `done`. */
  predicate DefinedSoFar(exports: Exports, defs: Exports, done: set<string>, r: Exports) {
    && done <= defs.Keys
    && r.Keys == exports.Keys + done
    && (forall k :: k in exports ==> r[k] == exports[k])
    && (forall k :: k in done && k !in exports ==> r[k] == defs[k])
  }

  lemma DefineStep(exports: Exports, defs: Exports, done: set<string>, r: Exports, k: string)
    requires DefinedSoFar(exports, defs, done, r) && k in defs && k !in done
    ensures DefinedSoFar(exports, defs, done + {k}, if k in r then r else r[k := defs[k]])
  {
  }

  /** A map with the keys and values `g.d` promises is the map it leaves. */
  lemma DefinedByKeys(exports: Exports, defs: Exports, r: Exports)
    requires DefinedSoFar(exports, defs, defs.Keys, r)
    ensures r == Defined(exports, defs)
  {
  }

  /** Applying the same definitions twice is applying them once. */
  lemma DefinedTwice(exports: Exports, defs: Exports)
    ensures Defined(Defined(exports, defs), defs) == Defined(exports, defs)
  {
  }

  // ---------------------------------------------------------------------
  // `require`

  /** Modules whose factory is a bundle body. */
  function BodyIds(f: map<ModuleId, Factory>): set<ModuleId> {
    set x | x in f && f[x].Body?
  }

  /** Bundle bodies that have not run yet: the termination measure of `g`. */
  function Pending(s: RegState): nat {
    |BodyIds(s.factories) - s.cache.Keys|
  }

  lemma SubsetCard<T>(a: set<T>, b: set<T>)
    requires a <= b
    ensures |a| <= |b|
    ensures a < b ==> |a| < |b|
  {
    if a != {} {
      var x :| x in a;
      SubsetCard(a - {x}, b - {x});
    } else if b != {} {
      var y :| y in b;
      assert |b| >= 1 by {
        assert {y} <= b;
        assert b == (b - {y}) + {y};
      }
    }
  }

  /** Body records are never dropped, and the log of bodies run only grows. */
  predicate Grows(s: RegState, r: RegState) {
    && r.factories == s.factories
    && (forall x :: x in s.cache && x in BodyIds(s.factories) ==> x in r.cache)
    && |s.ran| <= |r.ran| && r.ran[..|s.ran|] == s.ran
  }

  /** Every body that ran has its record in the cache, and none ran twice. */
  predicate RanOnce(s: RegState) {
    && (forall i :: 0 <= i < |s.ran| ==> s.ran[i] in s.cache && s.ran[i] in BodyIds(s.factories))
    && (forall i, j :: 0 <= i < j < |s.ran| ==> s.ran[i] != s.ran[j])
  }

  lemma PendingShrinks(s: RegState, r: RegState)
    requires Grows(s, r)
    ensures Pending(r) <= Pending(s)
  {
    SubsetCard(BodyIds(r.factories) - r.cache.Keys, BodyIds(s.factories) - s.cache.Keys);
  }

  lemma AddingPendingBody(s: RegState, id: ModuleId, rec: Exports)
    requires id in BodyIds(s.factories) && id !in s.cache
    ensures Pending(s.(cache := s.cache[id := rec])) < Pending(s)
  {
    var before := BodyIds(s.factories) - s.cache.Keys;
    var after := BodyIds(s.factories) - s.cache[id := rec].Keys;
    assert after == before - {id};
    SubsetCard(after, before);
  }

  /** `g(id)`: a cached record answers at once. Otherwise the record
      `{exports: {}}` is stored before the factory runs, so a cycle back to
      this module sees the exports as far as they got. A missing factory
      raises a TypeError and leaves the empty record behind. The factories
      of shared modules delete their record again. */
  function Require(s: RegState, id: ModuleId): (r: Outcome)
    ensures Grows(s, r.state)
    ensures RanOnce(s) ==> RanOnce(r.state)
    ensures id in s.cache ==> r == Outcome(Success(s.cache[id]), s)
    ensures id !in s.cache && id in BodyIds(s.factories) ==>
      && id in r.state.cache
      && (r.result.Success? ==> r.result.value == r.state.cache[id])
      && |r.state.ran| > |s.ran| && r.state.ran[|s.ran|] == id
    decreases Pending(s), 1, 0
  {
    if id in s.cache then Outcome(Success(s.cache[id]), s)
    else if id !in s.factories then Outcome(Failure(TypeError), s.(cache := s.cache[id := map[]]))
    else
      match s.factories[id]
      case SharedReady(exports) => Outcome(Success(exports), s)
      case SharedFailed(error) => Outcome(Failure(error), s)
      case Body(steps) =>
        var s1 := s.(cache := s.cache[id := map[]], ran := s.ran + [id]);
        AddingPendingBody(s, id, map[]);
        assert s1.ran[..|s.ran|] == s.ran;
        var r := RunBody(s1, id, steps, 0);
        assert r.state.ran[..|s.ran|] == s.ran by {
          assert r.state.ran[..|s.ran|] == r.state.ran[..|s1.ran|][..|s.ran|];
        }
        assert r.state.ran[|s.ran|] == r.state.ran[..|s1.ran|][|s.ran|];
        r
  }

  /** Run a factory body from step `i` on; the module's record is in the
      cache throughout and collects its exports as they are defined. A
      throw leaves the record as far as it got. */
  function RunBody(s: RegState, id: ModuleId, steps: seq<Step>, i: nat): (r: Outcome)
    requires id in s.cache && id in BodyIds(s.factories)
    ensures Grows(s, r.state)
    ensures RanOnce(s) ==> RanOnce(r.state)
    ensures id in r.state.cache
    ensures r.result.Success? ==> r.result.value == r.state.cache[id]
    decreases Pending(s) + 1, 0, |steps| - i, 1
  {
    if i >= |steps| then Outcome(Success(s.cache[id]), s)
    else
      match steps[i]
      case Define(defs) =>
        var s1 := s.(cache := s.cache[id := Defined(s.cache[id], defs)]);
        assert s1.cache.Keys == s.cache.Keys;
        assert s1.ran[..|s.ran|] == s.ran;
        RunBody(s1, id, steps, i + 1)
      case Throw(message) => Outcome(Failure(Thrown(message)), s)
      case Import(dep, key, into) => RunImport(s, id, steps, i)
  }

  /** An `Import` step: require the dependency (its failure propagates and
      ends the body), copy the export, and go on with the next step. */
  function RunImport(s: RegState, id: ModuleId, steps: seq<Step>, i: nat): (r: Outcome)
    requires id in s.cache && id in BodyIds(s.factories)
    requires i < |steps| && steps[i].Import?
    ensures Grows(s, r.state)
    ensures RanOnce(s) ==> RanOnce(r.state)
    ensures id in r.state.cache
    ensures r.result.Success? ==> r.result.value == r.state.cache[id]
    decreases Pending(s) + 1, 0, |steps| - i, 0
  {
    var o := Require(s, steps[i].dep);
    if o.result.Failure? then o
    else
      var v := if steps[i].key in o.result.value then o.result.value[steps[i].key] else Undefined;
      var s2 := o.state;
      var s3 := s2.(cache := s2.cache[id := s2.cache[id][steps[i].into := v]]);
      PendingShrinks(s, s2);
      assert s3.cache.Keys == s2.cache.Keys;
      ContinueAfterImport(s, s2, s3, id);
      var r := RunBody(s3, id, steps, i + 1);
      assert r.state.ran[..|s.ran|] == s.ran by {
        assert r.state.ran[..|s.ran|] == r.state.ran[..|s3.ran|][..|s.ran|];
      }
      r
  }

  lemma ContinueAfterImport(s: RegState, s2: RegState, s3: RegState, id: ModuleId)
    requires Grows(s, s2) && id in s2.cache
    requires s3.factories == s2.factories && s3.ran == s2.ran
    requires s3.cache.Keys == s2.cache.Keys
    ensures Grows(s, s3)
    ensures RanOnce(s2) ==> RanOnce(s3)
  {
  }

  /** Requiring a bundle module again returns what the first require
      returned, without running anything: its factory runs at most once. */
  lemma RequireMemoized(s: RegState, id: ModuleId)
    requires Require(s, id).result.Success? && id in BodyIds(s.factories)
    ensures var r := Require(s, id);
      Require(r.state, id) == r
  {
  }

  /** A bundle module whose factory threw is not retried: the next require
      returns the exports it had defined before the throw. */
  lemma FailedBodyKeepsPartialRecord(s: RegState, id: ModuleId)
    requires id !in s.cache && id in BodyIds(s.factories)
    requires Require(s, id).result.Failure?
    ensures var r := Require(s, id).state;
      id in r.cache && Require(r, id) == Outcome(Success(r.cache[id]), r)
  {
  }

  /** A module id without a factory raises a TypeError once; the empty
      record it leaves then answers later requires. */
  lemma MissingFactory(s: RegState, id: ModuleId)
    requires id !in s.cache && id !in s.factories
    ensures Require(s, id).result == Failure(TypeError)
    ensures Require(Require(s, id).state, id).result == Success(map[])
  {
  }

  /** The factories of shared modules leave no record, so each require
      runs them again. */
  lemma SharedFactoryNotCached(s: RegState, id: ModuleId)
    requires id !in s.cache && id in s.factories && !s.factories[id].Body?
    ensures Require(s, id).state == s
    ensures Require(Require(s, id).state, id) == Require(s, id)
  {
  }

  // ---------------------------------------------------------------------
  // The container module

  /** Module 6958 defines the container interface `get` and `init`. */
  const ContainerModule: ModuleId := 6958

  const StartFactories: map<ModuleId, Factory> := map[
    ContainerModule := Body([Define(map["get" := Callable("get"), "init" := Callable("init")])])
  ]

  const StartRegistry: RegState := RegState(StartFactories, map[], [])

  /** The last statement of the bundle requires module 6958: the container
      it publishes has exactly `get` and `init`. */
  lemma StartupExports()
    ensures Require(StartRegistry, ContainerModule).result
         == Success(map["get" := Callable("get"), "init" := Callable("init")])
  {
    var defs := map["get" := Callable("get"), "init" := Callable("init")];
    var steps := [Define(defs)];
    assert ContainerModule in BodyIds(StartFactories);
    var s1 := StartRegistry.(cache := map[ContainerModule := map[]], ran := [ContainerModule]);
    assert Defined(map[], defs) == defs;
    var s2 := s1.(cache := map[ContainerModule := defs]);
    assert RunBody(s2, ContainerModule, steps, 1) == Outcome(Success(defs), s2);
    assert RunBody(s1, ContainerModule, steps, 0) == RunBody(s2, ContainerModule, steps, 1);
    assert StartRegistry.factories[ContainerModule] == Body(steps);
    assert StartRegistry.ran + [ContainerModule] == [ContainerModule];
    assert StartRegistry.cache[ContainerModule := map[]] == map[ContainerModule := map[]];
    assert Require(StartRegistry, ContainerModule) == RunBody(s1, ContainerModule, steps, 0);
  }
}
