/** The runtime of remoteEntry.71fdd4ee54dea9240f59.js put together: the
    handler `g.f.consumes` that fetches shared modules before a chunk runs,
    `g.e` which runs the handlers for a chunk, the container's `get`, and
    the JSONP callback acting on the module factories.

    Calling a shared entry's `get` starts work this model does not run (the
    provider may be another container); it is modelled as a fetch whose
    outcome arrives later through `ShareArrived`. */
module Runtime {
  import opened Results
  import opened Bundle
  import SharedScope
  import Registry
  import Chunks

  /** `c[e]`: 0 once the shared module arrived, or the promise of its fetch. */
  datatype InFlight = Arrived | Fetching(fetch: nat)

  /** A fetch `get().then(t).catch(n)`: the module it is for, the getter
      called, and whether it has settled. The catch handler swallows the
      failure, so the promise of a fetch is fulfilled either way. */
  datatype Fetch = Fetch(moduleId: ModuleId, getter: SharedScope.Getter, settled: bool)

  /** What a handler pushes for `Promise.all` to wait on. */
  datatype Await = Ready | ChunkPromise(promise: nat) | FetchPromise(fetch: nat)

  datatype Runtime = Runtime(
    share: SharedScope.ShareState,
    chunks: Chunks.ChunkState,
    registry: Registry.RegState,
    consumes: map<ModuleId, InFlight>,
    fetches: seq<Fetch>,
    warnings: seq<string>)

  /** The runtime as the bundle leaves it: no share scopes, the runtime
      chunk installed, the container module registered. */
  function Start(publicPath: string, document: seq<Chunks.Script>): (r: Runtime)
    ensures Valid(r)
  {
    Runtime(SharedScope.EmptyShare, Chunks.StartChunks(publicPath, document), Registry.StartRegistry, map[], [], [])
  }

  /** Chunk promises stay well formed, and every fetch still in flight is
      the entry of its module. */
  predicate Valid(rt: Runtime) {
    && Chunks.Valid(rt.chunks)
    && (forall e :: e in rt.consumes && rt.consumes[e].Fetching? ==> rt.consumes[e].fetch < |rt.fetches|)
    && (forall q :: 0 <= q < |rt.fetches| && !rt.fetches[q].settled ==>
          rt.fetches[q].moduleId in rt.consumes && rt.consumes[rt.fetches[q].moduleId] == Fetching(q))
  }

  // ---------------------------------------------------------------------
  // `g.f.consumes`

  /** The share state a failed consumer leaves: its `g.I` has run. */
  function AfterFailedConsume(st: SharedScope.ShareState, req: ConsumeRequest): SharedScope.ShareState {
    SharedScope.InitScope(st, req.scope, []).state
  }

  /** One consumed module `e`: an entry `c[e]` is pushed again as it is.
      Otherwise the consumer `d` runs: when it throws (the module is not
      in the scope, or `e` has no consumer and calling it is a TypeError),
      `g.m[e]` becomes a factory that throws the error and nothing is
      pushed; when it picks a version, its getter is called, the fetch is
      pushed and becomes `c[e]`, and an unsatisfied range adds a warning. */
  function ConsumeModule(rt: Runtime, e: ModuleId): (r: (Runtime, seq<Await>))
    requires Valid(rt)
    ensures Valid(r.0)
    ensures r.0.chunks == rt.chunks
    ensures e in rt.consumes ==>
      r == (rt, [if rt.consumes[e].Arrived? then Ready else FetchPromise(rt.consumes[e].fetch)])
    ensures e !in rt.consumes && e !in ConsumeRequests ==>
      && r.1 == [] && r.0.consumes == rt.consumes
      && r.0.registry.factories == rt.registry.factories[e := Registry.SharedFailed(TypeError)]
    ensures e !in rt.consumes && e in ConsumeRequests ==>
      var req := ConsumeRequests[e];
      match SharedScope.Consume(rt.share, req.scope, req.package, req.range)
      case Failure(err) =>
        && r.1 == [] && r.0.consumes == rt.consumes && r.0.fetches == rt.fetches
        && r.0.share == AfterFailedConsume(rt.share, req)
        && r.0.registry.factories == rt.registry.factories[e := Registry.SharedFailed(err)]
        && r.0.warnings == rt.warnings + Printed(SharedScope.ConsumeWarning(rt.share, req.scope, req.package, req.range))
      case Success(picked) =>
        && r.1 == [FetchPromise(|rt.fetches|)]
        && r.0.consumes == rt.consumes[e := Fetching(|rt.fetches|)]
        && r.0.fetches == rt.fetches + [Fetch(e, picked.0.get, false)]
        && r.0.share == picked.1
        && r.0.registry == rt.registry
        && (picked.0.warning.Some? ==> r.0.warnings == rt.warnings + [picked.0.warning.value])
        && (picked.0.warning.None? ==> r.0.warnings == rt.warnings)
  {
    if e in rt.consumes then
      (rt, [if rt.consumes[e].Arrived? then Ready else FetchPromise(rt.consumes[e].fetch)])
    else if e !in ConsumeRequests then
      (FailConsume(rt, e, TypeError, rt.share, None), [])
    else
      var req := ConsumeRequests[e];
      match SharedScope.Consume(rt.share, req.scope, req.package, req.range)
      case Failure(err) =>
        var warning := SharedScope.ConsumeWarning(rt.share, req.scope, req.package, req.range);
        (FailConsume(rt, e, err, AfterFailedConsume(rt.share, req), warning), [])
      case Success(picked) => (StartFetch(rt, e, picked.0, picked.1), [FetchPromise(|rt.fetches|)])
  }

  /** The warnings a step prints. */
  function Printed(w: Option<string>): seq<string> {
    if w.Some? then [w.value] else []
  }

  /** The consumer threw: `g.m[e]` throws the error when required. A
      warning the consumer printed before it threw is kept. */
  function FailConsume(rt: Runtime, e: ModuleId, err: Error, share: SharedScope.ShareState, warning: Option<string>): (r: Runtime)
    requires Valid(rt) && e !in rt.consumes
    ensures Valid(r)
    ensures r.chunks == rt.chunks && r.consumes == rt.consumes && r.fetches == rt.fetches && r.share == share
    ensures r.registry.factories == rt.registry.factories[e := Registry.SharedFailed(err)]
    ensures r.warnings == rt.warnings + Printed(warning)
  {
    rt.(share := share, registry := rt.registry.(factories := rt.registry.factories[e := Registry.SharedFailed(err)]),
        warnings := rt.warnings + Printed(warning))
  }

  /** The consumer picked a version: its getter's fetch becomes `c[e]`. */
  function StartFetch(rt: Runtime, e: ModuleId, picked: SharedScope.Pick, share: SharedScope.ShareState): (r: Runtime)
    requires Valid(rt) && e !in rt.consumes
    ensures Valid(r)
    ensures r.chunks == rt.chunks && r.registry == rt.registry && r.share == share
    ensures r.consumes == rt.consumes[e := Fetching(|rt.fetches|)]
    ensures r.fetches == rt.fetches + [Fetch(e, picked.get, false)]
    ensures picked.warning.Some? ==> r.warnings == rt.warnings + [picked.warning.value]
    ensures picked.warning.None? ==> r.warnings == rt.warnings
  {
    var q := |rt.fetches|;
    var warnings := if picked.warning.Some? then rt.warnings + [picked.warning.value] else rt.warnings;
    var r := rt.(share := share, consumes := rt.consumes[e := Fetching(q)],
                 fetches := rt.fetches + [Fetch(e, picked.get, false)], warnings := warnings);
    assert forall x :: x in rt.consumes && rt.consumes[x].Fetching? ==> rt.consumes[x].fetch < q && x != e;
    r
  }

  /** A module is fetched at most once at a time: consuming it again while
      its fetch is in flight pushes the same promise and changes nothing. */
  lemma ConsumeTwice(rt: Runtime, e: ModuleId)
    requires Valid(rt)
    requires ConsumeModule(rt, e).1 != []
    ensures var first := ConsumeModule(rt, e);
      ConsumeModule(first.0, e) == first
  {
  }

  /** After consuming `e`, it has an entry or a factory, and every module
      that had one still has it. */
  lemma ConsumeModuleCovers(rt: Runtime, e: ModuleId, x: ModuleId)
    requires Valid(rt)
    requires x == e || x in rt.consumes || x in rt.registry.factories
    ensures var r := ConsumeModule(rt, e).0;
      x in r.consumes || x in r.registry.factories
  {
    if e !in rt.consumes && e in ConsumeRequests {
      var req := ConsumeRequests[e];
      match SharedScope.Consume(rt.share, req.scope, req.package, req.range)
      case Failure(_) =>
      case Success(_) =>
    }
  }

  lemma ConsumeModuleCoversAll(rt: Runtime, e: ModuleId)
    requires Valid(rt)
    ensures var r := ConsumeModule(rt, e).0;
      && (e in r.consumes || e in r.registry.factories)
      && forall x :: x in rt.consumes || x in rt.registry.factories ==> x in r.consumes || x in r.registry.factories
  {
    ConsumeModuleCovers(rt, e, e);
    forall x | x in rt.consumes || x in rt.registry.factories
      ensures x in ConsumeModule(rt, e).0.consumes || x in ConsumeModule(rt, e).0.registry.factories
    {
      ConsumeModuleCovers(rt, e, x);
    }
  }

  /** `g.f.consumes(chunkId, promises)`: the consumed modules the chunk
      needs, in order. */
  function ConsumeAll(rt: Runtime, ids: seq<ModuleId>): (r: (Runtime, seq<Await>))
    requires Valid(rt)
    ensures Valid(r.0)
    ensures r.0.chunks == rt.chunks
    ensures forall e :: e in ids ==> e in r.0.consumes || e in r.0.registry.factories
    ensures forall e :: e in rt.consumes || e in rt.registry.factories ==> e in r.0.consumes || e in r.0.registry.factories
    decreases |ids|
  {
    if |ids| == 0 then (rt, [])
    else
      var (rt1, a) := ConsumeModule(rt, ids[0]);
      ConsumeModuleCoversAll(rt, ids[0]);
      var (rt2, b) := ConsumeAll(rt1, ids[1..]);
      assert forall x :: x in ids <==> x == ids[0] || x in ids[1..];
      (rt2, a + b)
  }

  function ConsumesOf(id: ChunkId): seq<ModuleId> {
    if id in ChunkConsumes then ChunkConsumes[id] else []
  }

  /** A fetch settles: on success `c[e]` becomes 0 and `g.m[e]` a factory
      returning the provider's exports; on failure `c[e]` is deleted, so
      the next request fetches again, and `g.m[e]` a factory that throws.
      A fetch settles once. */
  function ShareArrived(rt: Runtime, q: nat, outcome: Result<Registry.Exports>): (r: Runtime)
    requires Valid(rt)
    ensures Valid(r)
    ensures r.chunks == rt.chunks && r.share == rt.share
    ensures q >= |rt.fetches| || rt.fetches[q].settled ==> r == rt
    ensures q < |rt.fetches| && !rt.fetches[q].settled ==>
      var e := rt.fetches[q].moduleId;
      && r.fetches == rt.fetches[q := rt.fetches[q].(settled := true)]
      && (outcome.Success? ==>
            && r.consumes == rt.consumes[e := Arrived]
            && r.registry.factories == rt.registry.factories[e := Registry.SharedReady(outcome.value)])
      && (outcome.Failure? ==>
            && r.consumes == rt.consumes - {e}
            && r.registry.factories == rt.registry.factories[e := Registry.SharedFailed(outcome.error)])
  {
    if q >= |rt.fetches| || rt.fetches[q].settled then rt
    else
      var e := rt.fetches[q].moduleId;
      var fetches := rt.fetches[q := rt.fetches[q].(settled := true)];
      match outcome
      case Success(exports) =>
        rt.(consumes := rt.consumes[e := Arrived], fetches := fetches,
            registry := rt.registry.(factories := rt.registry.factories[e := Registry.SharedReady(exports)]))
      case Failure(err) =>
        rt.(consumes := rt.consumes - {e}, fetches := fetches,
            registry := rt.registry.(factories := rt.registry.factories[e := Registry.SharedFailed(err)]))
  }

  /** After a shared module arrived, consuming it pushes nothing to wait
      for and requiring it returns the provider's exports. */
  lemma ArrivedThenReady(rt: Runtime, q: nat, exports: Registry.Exports)
    requires Valid(rt) && q < |rt.fetches| && !rt.fetches[q].settled
    requires rt.fetches[q].moduleId !in rt.registry.cache
    ensures var e := rt.fetches[q].moduleId;
      var r := ShareArrived(rt, q, Success(exports));
      && ConsumeModule(r, e) == (r, [Ready])
      && Registry.Require(r.registry, e) == Registry.Outcome(Success(exports), r.registry)
  {
  }

  /** After a fetch failed, requiring the module throws its error, and
      consuming it again starts a new fetch. */
  lemma FailedThenRetried(rt: Runtime, q: nat, err: Error)
    requires Valid(rt) && q < |rt.fetches| && !rt.fetches[q].settled
    requires rt.fetches[q].moduleId !in rt.registry.cache
    ensures var e := rt.fetches[q].moduleId;
      var r := ShareArrived(rt, q, Failure(err));
      && Registry.Require(r.registry, e).result == Failure(err)
      && e !in r.consumes
      && (ConsumeModule(r, e).1 == [] || ConsumeModule(r, e).1 == [FetchPromise(|rt.fetches|)])
  {
    var e := rt.fetches[q].moduleId;
    var r := ShareArrived(rt, q, Failure(err));
    if e in ConsumeRequests {
      var req := ConsumeRequests[e];
      match SharedScope.Consume(r.share, req.scope, req.package, req.range)
      case Failure(_) =>
      case Success(_) =>
    }
  }

  // ---------------------------------------------------------------------
  // `g.e` and the container's `get`

  /** Every listed chunk is installed, or loading with its promise among
      the awaited values. */
  predicate Awaited(rt: Runtime, ids: seq<ChunkId>, awaits: seq<Await>) {
    forall id :: id in ids ==>
      || Chunks.SlotOf(rt.chunks, id).Installed?
      || (Chunks.SlotOf(rt.chunks, id).Loading? && ChunkPromise(Chunks.SlotOf(rt.chunks, id).promise) in awaits)
  }

  /** `g.e(chunkId)`: run `g.f.consumes` and then `g.f.j` for the chunk
      and wait for everything they pushed, in that order. */
  function LoadChunk(rt: Runtime, id: ChunkId): (r: (Runtime, seq<Await>))
    requires Valid(rt)
    ensures Valid(r.0)
    ensures var c := ConsumeAll(rt, ConsumesOf(id));
      var j := Chunks.EnsureChunk(c.0.chunks, id);
      r == (c.0.(chunks := j.0), c.1 + ChunkAwaits(j.1))
    ensures Chunks.SlotOf(rt.chunks, id).Installed? ==> r.0.chunks == rt.chunks
    ensures !Chunks.SlotOf(r.0.chunks, id).Cleared?
    ensures forall x :: !Chunks.SlotOf(rt.chunks, x).Cleared? ==> !Chunks.SlotOf(r.0.chunks, x).Cleared?
    ensures forall x :: !Chunks.SlotOf(rt.chunks, x).Cleared? || x != id ==> Chunks.SlotOf(r.0.chunks, x) == Chunks.SlotOf(rt.chunks, x)
    ensures Awaited(r.0, [id], r.1)
  {
    var (rt1, a) := ConsumeAll(rt, ConsumesOf(id));
    var (cs, ps) := Chunks.EnsureChunk(rt1.chunks, id);
    var r := rt1.(chunks := cs);
    assert Valid(r);
    var awaits := a + ChunkAwaits(ps);
    assert Chunks.SlotOf(cs, id).Loading? ==>
      ps == [Chunks.SlotOf(cs, id).promise] && awaits[|a|] == ChunkPromise(ps[0]);
    (r, awaits)
  }

  function ChunkAwaits(ps: seq<nat>): (r: seq<Await>)
    ensures |r| == |ps|
    ensures forall i :: 0 <= i < |ps| ==> r[i] == ChunkPromise(ps[i])
  {
    seq(|ps|, i requires 0 <= i < |ps| => ChunkPromise(ps[i]))
  }

  /** `g.e` for each chunk in order. */
  function LoadChunks(rt: Runtime, ids: seq<ChunkId>): (r: (Runtime, seq<Await>))
    requires Valid(rt)
    ensures Valid(r.0)
    ensures forall id :: id in ids ==> !Chunks.SlotOf(r.0.chunks, id).Cleared?
    ensures forall x :: !Chunks.SlotOf(rt.chunks, x).Cleared? ==> !Chunks.SlotOf(r.0.chunks, x).Cleared?
    ensures forall x :: !Chunks.SlotOf(rt.chunks, x).Cleared? ==> Chunks.SlotOf(r.0.chunks, x) == Chunks.SlotOf(rt.chunks, x)
    ensures Awaited(r.0, ids, r.1)
    decreases |ids|
  {
    if |ids| == 0 then (rt, [])
    else
      var (rt1, a) := LoadChunk(rt, ids[0]);
      var (rt2, b) := LoadChunks(rt1, ids[1..]);
      assert forall x :: x in ids <==> x == ids[0] || x in ids[1..];
      assert Chunks.SlotOf(rt2.chunks, ids[0]) == Chunks.SlotOf(rt1.chunks, ids[0]);
      assert forall w :: w in a ==> w in a + b;
      assert forall w :: w in b ==> w in a + b;
      (rt2, a + b)
  }

  /** What the promise of `get` waits for, and the module its factory requires. */
  datatype GetPromise = GetPromise(awaits: seq<Await>, moduleId: ModuleId)

  function MissingModuleMessage(name: string): string {
    "Module \"" + name + "\" does not exist in container."
  }

  /** The container's `get(name)`: an exposed name loads its chunks (each
      through `g.e`) and then resolves to a factory requiring its module;
      any other name is a promise rejected with an error naming it, and
      nothing is loaded. */
  function ContainerGet(rt: Runtime, name: string): (r: (Runtime, Result<GetPromise>))
    requires Valid(rt)
    ensures Valid(r.0)
    ensures name !in ExposedModules <==> r.1.Failure?
    ensures name !in ExposedModules ==> r == (rt, Failure(Thrown(MissingModuleMessage(name))))
    ensures name in ExposedModules ==>
      && r.1.value.moduleId == ExposedModules[name].moduleId
      && (forall id :: id in ExposedModules[name].chunks ==> !Chunks.SlotOf(r.0.chunks, id).Cleared?)
      && Awaited(r.0, ExposedModules[name].chunks, r.1.value.awaits)
  {
    if name !in ExposedModules then (rt, Failure(Thrown(MissingModuleMessage(name))))
    else
      var exposed := ExposedModules[name];
      var (rt1, awaits) := LoadChunks(rt, exposed.chunks);
      (rt1, Success(GetPromise(awaits, exposed.moduleId)))
  }

  // ---------------------------------------------------------------------
  // `Promise.all`

  /** The state of one awaited value. */
  function AwaitState(rt: Runtime, a: Await): Chunks.Settlement {
    match a
    case Ready => Chunks.Fulfilled
    case ChunkPromise(p) => if p < |rt.chunks.promises| then rt.chunks.promises[p] else Chunks.Pending
    case FetchPromise(q) => if q < |rt.fetches| && rt.fetches[q].settled then Chunks.Fulfilled else Chunks.Pending
  }

  /** `Promise.all(awaits)`: rejected as soon as one is rejected (the first
      in the list here), fulfilled when all are, pending otherwise. */
  function All(rt: Runtime, awaits: seq<Await>): (r: Chunks.Settlement)
    ensures r.Fulfilled? <==> forall i :: 0 <= i < |awaits| ==> AwaitState(rt, awaits[i]).Fulfilled?
    ensures r.Rejected? <==> exists i :: 0 <= i < |awaits| && AwaitState(rt, awaits[i]).Rejected?
    decreases |awaits|
  {
    if |awaits| == 0 then Chunks.Fulfilled
    else
      var first := AwaitState(rt, awaits[0]);
      var rest := All(rt, awaits[1..]);
      assert forall i :: 1 <= i < |awaits| ==> awaits[i] == awaits[1..][i - 1];
      if first.Rejected? then first
      else if rest.Rejected? then rest
      else if first.Fulfilled? && rest.Fulfilled? then Chunks.Fulfilled
      else Chunks.Pending
  }

  /** A chunk that is already installed and consumes nothing makes `g.e`
      wait for nothing. */
  lemma InstalledChunkReady(rt: Runtime, id: ChunkId)
    requires Valid(rt) && Chunks.SlotOf(rt.chunks, id).Installed? && id !in ChunkConsumes
    ensures var (r, awaits) := LoadChunk(rt, id);
      r == rt && All(r, awaits).Fulfilled?
  {
    var (r, awaits) := LoadChunk(rt, id);
    assert awaits == [];
  }

  /** Once everything awaited is fulfilled, the awaited chunks are
      installed: a chunk still loading holds a pending promise, and its
      promise is among the awaited values. */
  lemma FulfilledMeansInstalled(rt: Runtime, ids: seq<ChunkId>, awaits: seq<Await>)
    requires Valid(rt) && Awaited(rt, ids, awaits) && All(rt, awaits).Fulfilled?
    ensures forall id :: id in ids ==> Chunks.SlotOf(rt.chunks, id).Installed?
  {
    forall a | a in awaits
      ensures AwaitState(rt, a).Fulfilled?
    {
      var i :| 0 <= i < |awaits| && awaits[i] == a;
    }
  }

  /** The promise of `get` for an exposed module is fulfilled only once
      every chunk the module needs is installed, and then its factory
      requires the module. */
  lemma GetResolvesAfterChunks(rt: Runtime, name: string)
    requires Valid(rt) && name in ExposedModules
    ensures var (r, res) := ContainerGet(rt, name);
      All(r, res.value.awaits).Fulfilled? ==>
        && (forall id :: id in ExposedModules[name].chunks ==> Chunks.SlotOf(r.chunks, id).Installed?)
        && res.value.moduleId == ExposedModules[name].moduleId
  {
    var (r, res) := ContainerGet(rt, name);
    if All(r, res.value.awaits).Fulfilled? {
      FulfilledMeansInstalled(r, ExposedModules[name].chunks, res.value.awaits);
    }
  }

  /** A script event that fails an awaited loading chunk rejects the
      `Promise.all` that waits for it. */
  lemma LoadFailureRejects(rt: Runtime, awaits: seq<Await>, id: ChunkId, url: string, eventType: string)
    requires Valid(rt) && Chunks.SlotOf(rt.chunks, id).Loading?
    requires ChunkPromise(Chunks.SlotOf(rt.chunks, id).promise) in awaits
    requires url in rt.chunks.loader.inProgress && id in rt.chunks.loader.inProgress[url].waiting
    ensures All(rt.(chunks := Chunks.ScriptEvent(rt.chunks, url, eventType)), awaits).Rejected?
  {
    var r := rt.(chunks := Chunks.ScriptEvent(rt.chunks, url, eventType));
    var p := Chunks.SlotOf(rt.chunks, id).promise;
    var i :| 0 <= i < |awaits| && awaits[i] == ChunkPromise(p);
    assert AwaitState(r, awaits[i]).Rejected?;
  }

  // ---------------------------------------------------------------------
  // The JSONP callback on the runtime

  /** A chunk file ran: its chunks are installed and, if any was new, its
      module factories join `g.m`. */
  function Deliver(rt: Runtime, payload: Chunks.Payload): (r: Runtime)
    requires Valid(rt)
    ensures Valid(r)
    ensures forall id :: id in payload.chunkIds ==> Chunks.SlotOf(r.chunks, id).Installed?
    ensures Chunks.AnyNew(rt.chunks, payload.chunkIds) ==>
      forall m :: m in payload.modules ==> m in r.registry.factories && r.registry.factories[m] == payload.modules[m]
    ensures r.consumes == rt.consumes && r.fetches == rt.fetches && r.share == rt.share
  {
    var (cs, factories) := Chunks.Jsonp(rt.chunks, rt.registry.factories, payload);
    rt.(chunks := cs, registry := rt.registry.(factories := factories))
  }
}
