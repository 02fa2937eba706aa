/** Loading chunks on demand in remoteEntry.71fdd4ee54dea9240f59.js: the
    file name of a chunk `g.u`, the script loader `g.l`, the table of chunk
    states with its handler `g.f.j`, and the JSONP callback through which a
    chunk file, once it runs, installs its modules.

    Promises are entries of a table; the model settles them explicitly
    where the runtime calls `resolve` or `reject`. Script elements are
    values with their `src` and `data-webpack` attributes. */
module Chunks {
  import opened Text
  import opened Results
  import opened Bundle
  import Registry

  // ---------------------------------------------------------------------
  // `g.u`

  /** The content hash `g.u` looks up; a chunk it does not know reads as
      "undefined", as the JavaScript string concatenation does. */
  function HashOf(id: ChunkId): string {
    if id in ChunkHashes then ChunkHashes[id] else "undefined"
  }

  /** `g.u(id)`: "<id>.<hash>.js?v=<hash>". */
  function ChunkFile(id: ChunkId): string {
    NatToString(id) + "." + HashedName(id)
  }

  /** What follows the first dot of a chunk's file name. */
  function HashedName(id: ChunkId): string {
    HashOf(id) + ".js?v=" + HashOf(id)
  }

  /** The chunk a file name belongs to: the decimal number before its first dot. */
  function ChunkOfFile(file: string): (r: Option<ChunkId>)
    ensures r.Some? ==> exists i :: 0 < i <= |file| && AllDigits(file[..i]) && r.value == DigitsValue(file[..i])
  {
    var i := IndexOf(file, '.');
    if i > 0 && AllDigits(file[..i]) then Some(DigitsValue(file[..i])) else None
  }

  lemma FirstDotAfterDigits(a: string, b: string)
    requires AllDigits(a)
    ensures IndexOf(a + "." + b, '.') == |a|
  {
    var s := a + "." + b;
    assert s[|a|] == '.';
    assert forall j :: 0 <= j < |a| ==> s[j] == a[j];
  }

  /** A file name that starts with digits and a dot belongs to the chunk
      those digits spell. */
  lemma ChunkOfDigitsFile(digits: string, rest: string)
    requires |digits| > 0 && AllDigits(digits)
    ensures ChunkOfFile(digits + "." + rest) == Some(DigitsValue(digits))
  {
    FirstDotAfterDigits(digits, rest);
    assert (digits + "." + rest)[..|digits|] == digits;
  }

  /** The chunk id can be read back from its file name, so two chunks
      never share a file. */
  lemma ChunkFileRoundTrip(id: ChunkId)
    ensures ChunkOfFile(ChunkFile(id)) == Some(id)
  {
    ChunkOfDigitsFile(NatToString(id), HashedName(id));
  }

  lemma ChunkFileInjective(a: ChunkId, b: ChunkId)
    requires ChunkFile(a) == ChunkFile(b)
    ensures a == b
  {
    ChunkFileRoundTrip(a);
    ChunkFileRoundTrip(b);
  }

  // ---------------------------------------------------------------------
  // The script loader `g.l`

  /** A script element: its `src` and its `data-webpack` attribute. */
  datatype Script = Script(src: string, key: string)

  /** A URL being loaded: the script element and the chunks whose handlers
      wait for it, in the order they asked. */
  datatype Request = Request(script: Script, waiting: seq<ChunkId>)

  /** The loader's table of URLs in progress and the script elements of the document. */
  datatype Loader = Loader(inProgress: map<string, Request>, document: seq<Script>)

  /** The first script of the document whose `src` is the URL or whose
      `data-webpack` attribute is the given one. */
  function FindScript(document: seq<Script>, url: string, key: string): (r: Option<nat>)
    ensures r.Some? ==> r.value < |document| && (document[r.value].src == url || document[r.value].key == key)
    ensures r.Some? ==> forall j :: 0 <= j < r.value ==> document[j].src != url && document[j].key != key
    ensures r.None? ==> forall j :: 0 <= j < |document| ==> document[j].src != url && document[j].key != key
  {
    if |document| == 0 then None
    else if document[0].src == url || document[0].key == key then Some(0)
    else
      match FindScript(document[1..], url, key)
      case None => None
      case Some(j) => Some(j + 1)
  }

  /** `g.l(url, done, key)`: a URL already in progress only queues the
      handler. Otherwise the loader reuses a script of the document with
      that `src` or `data-webpack` attribute, or appends a new one, and the
      handler is the first to wait for it. */
  function LoadScript(ld: Loader, url: string, done: ChunkId, key: string): (r: Loader)
    ensures r.inProgress.Keys == ld.inProgress.Keys + {url}
    ensures forall u :: u in ld.inProgress && u != url ==> r.inProgress[u] == ld.inProgress[u]
    ensures url in ld.inProgress ==>
      r == ld.(inProgress := ld.inProgress[url := ld.inProgress[url].(waiting := ld.inProgress[url].waiting + [done])])
    ensures url !in ld.inProgress ==> r.inProgress[url].waiting == [done]
    ensures url !in ld.inProgress ==>
      var found := FindScript(ld.document, url, ScriptKeyPrefix + key);
      && (found.Some? ==> r.document == ld.document && r.inProgress[url].script == ld.document[found.value])
      && (found.None? ==> r.document == ld.document + [Script(url, ScriptKeyPrefix + key)]
                          && r.inProgress[url].script == Script(url, ScriptKeyPrefix + key))
  {
    if url in ld.inProgress then
      var req := ld.inProgress[url];
      ld.(inProgress := ld.inProgress[url := req.(waiting := req.waiting + [done])])
    else
      var tag := ScriptKeyPrefix + key;
      match FindScript(ld.document, url, tag)
      case Some(i) => ld.(inProgress := ld.inProgress[url := Request(ld.document[i], [done])])
      case None =>
        var script := Script(url, tag);
        Loader(ld.inProgress[url := Request(script, [done])], ld.document + [script])
  }

  /** Two loads of one URL share a request and a script element: the second
      adds no element and only queues its handler behind the first. */
  lemma LoadScriptCoalesces(ld: Loader, url: string, a: ChunkId, b: ChunkId, ka: string, kb: string)
    ensures var once := LoadScript(ld, url, a, ka);
      var twice := LoadScript(once, url, b, kb);
      && twice.document == once.document
      && twice.inProgress[url].script == once.inProgress[url].script
      && twice.inProgress[url].waiting == once.inProgress[url].waiting + [b]
      && (url !in ld.inProgress ==> twice.inProgress[url].waiting == [a, b])
  {
  }

  /** The document without the first occurrence of a script element. */
  function RemoveScript(document: seq<Script>, s: Script): (r: seq<Script>)
    ensures s in document ==> multiset(r) == multiset(document) - multiset{s}
    ensures s !in document ==> r == document
  {
    if |document| == 0 then document
    else if document[0] == s then
      assert document == [s] + document[1..];
      document[1..]
    else
      assert document == [document[0]] + document[1..];
      [document[0]] + RemoveScript(document[1..], s)
  }

  /** The handler `d` of the script element for `url` (load, error or the
      two-minute timeout): the request is dropped, its element leaves the
      document, and the handlers that waited are returned in order for the
      caller to run. */
  function ScriptDone(ld: Loader, url: string): (r: (Loader, seq<ChunkId>))
    ensures url !in r.0.inProgress
    ensures r.0.inProgress == ld.inProgress - {url}
    ensures url in ld.inProgress ==> r.1 == ld.inProgress[url].waiting
    ensures url !in ld.inProgress ==> r == (ld, [])
  {
    if url !in ld.inProgress then (ld, [])
    else
      var req := ld.inProgress[url];
      (Loader(ld.inProgress - {url}, RemoveScript(ld.document, req.script)), req.waiting)
  }

  /** Once a URL is done, loading it again starts a new request. */
  lemma LoadAfterDone(ld: Loader, url: string, done: ChunkId, key: string)
    ensures LoadScript(ScriptDone(ld, url).0, url, done, key).inProgress[url].waiting == [done]
  {
  }

  // ---------------------------------------------------------------------
  // Promises

  datatype Settlement = Pending | Fulfilled | Rejected(reason: Error)

  /** Settle promise `p`; a promise settles once, later calls are ignored. */
  function Settle(promises: seq<Settlement>, p: nat, s: Settlement): (r: seq<Settlement>)
    ensures |r| == |promises|
    ensures forall q :: 0 <= q < |promises| && q != p ==> r[q] == promises[q]
    ensures p < |promises| ==> r[p] == (if promises[p].Pending? then s else promises[p])
  {
    if p < |promises| && promises[p].Pending? then promises[p := s] else promises
  }

  // ---------------------------------------------------------------------
  // The chunk table and `g.f.j`

  /** A chunk's entry: 0 once installed, `[resolve, reject, promise]` while
      it loads, and `undefined` once a load failed. A chunk with no entry
      behaves as `undefined`. */
  datatype ChunkSlot = Installed | Loading(promise: nat) | Cleared

  datatype ChunkState = ChunkState(
    publicPath: string,
    slots: map<ChunkId, ChunkSlot>,
    promises: seq<Settlement>,
    loader: Loader)

  /** The runtime chunk is installed from the start; the public path `g.p`
      is taken from the document and is a parameter here. */
  function StartChunks(publicPath: string, document: seq<Script>): (r: ChunkState)
    ensures Valid(r)
  {
    ChunkState(publicPath, map[RuntimeChunk := Installed], [], Loader(map[], document))
  }

  function SlotOf(cs: ChunkState, id: ChunkId): ChunkSlot {
    if id in cs.slots then cs.slots[id] else Cleared
  }

  function ChunkUrl(cs: ChunkState, id: ChunkId): string {
    cs.publicPath + ChunkFile(id)
  }

  /** Every loading chunk holds a pending promise of its own. */
  predicate Valid(cs: ChunkState) {
    && (forall id :: id in cs.slots && cs.slots[id].Loading? ==>
          cs.slots[id].promise < |cs.promises| && cs.promises[cs.slots[id].promise].Pending?)
    && (forall a, b :: a in cs.slots && b in cs.slots && a != b && cs.slots[a].Loading? && cs.slots[b].Loading? ==>
          cs.slots[a].promise != cs.slots[b].promise)
  }

  /** `g.f.j(id, promises)`: an installed chunk adds nothing; a loading
      chunk adds the promise it already has; any other chunk gets a new
      pending promise and a script load of `g.p + g.u(id)` keyed
      "chunk-<id>", whose handler is this chunk's failure handler. The
      promises to wait for are returned. */
  function EnsureChunk(cs: ChunkState, id: ChunkId): (r: (ChunkState, seq<nat>))
    requires Valid(cs)
    ensures Valid(r.0)
    ensures SlotOf(cs, id).Installed? ==> r == (cs, [])
    ensures SlotOf(cs, id).Loading? ==> r == (cs, [SlotOf(cs, id).promise])
    ensures SlotOf(cs, id).Cleared? ==>
      && r.1 == [|cs.promises|] && r.0.promises == cs.promises + [Pending]
      && r.0.slots == cs.slots[id := Loading(|cs.promises|)]
      && r.0.loader == LoadScript(cs.loader, ChunkUrl(cs, id), id, "chunk-" + NatToString(id))
    ensures r.0.publicPath == cs.publicPath
  {
    match SlotOf(cs, id)
    case Installed => (cs, [])
    case Loading(p) => (cs, [p])
    case Cleared =>
      var p := |cs.promises|;
      var loader := LoadScript(cs.loader, ChunkUrl(cs, id), id, "chunk-" + NatToString(id));
      var r := cs.(slots := cs.slots[id := Loading(p)], promises := cs.promises + [Pending], loader := loader);
      assert forall x :: x in cs.slots && cs.slots[x].Loading? ==> cs.slots[x].promise < p;
      (r, [p])
  }

  /** Asking for a chunk twice starts one load: the second call returns the
      same promise and changes nothing. */
  lemma EnsureTwice(cs: ChunkState, id: ChunkId)
    requires Valid(cs)
    ensures var first := EnsureChunk(cs, id);
      EnsureChunk(first.0, id) == (first.0, first.1)
  {
  }

  /** The failure `type` of a script event: a script that loaded without
      installing its chunk is "missing". */
  function FailureKind(eventType: string): string {
    if eventType == "load" then "missing" else eventType
  }

  function ChunkLoadMessage(id: ChunkId, kind: string, src: string): string {
    "Loading chunk " + NatToString(id) + " failed.\n(" + kind + ": " + src + ")"
  }

  /** The chunk's handler for the end of its script (`load`, `error` or
      `timeout`, with the element's `src`): a chunk that is not installed
      is reset to `undefined`, so a later request loads it again, and a
      loading chunk's promise is rejected with a ChunkLoadError. */
  function ChunkFailed(cs: ChunkState, id: ChunkId, eventType: string, src: string): (r: ChunkState)
    requires Valid(cs)
    ensures Valid(r)
    ensures |r.promises| == |cs.promises|
    ensures r.loader == cs.loader && r.publicPath == cs.publicPath
    ensures id !in cs.slots || cs.slots[id].Installed? ==> r == cs
    ensures id in cs.slots && !cs.slots[id].Installed? ==> r.slots == cs.slots[id := Cleared]
    ensures id in cs.slots && cs.slots[id].Loading? ==>
      var kind := FailureKind(eventType);
      r.promises == cs.promises[cs.slots[id].promise := Rejected(ChunkLoadError(ChunkLoadMessage(id, kind, src), kind, src))]
    ensures id in cs.slots && cs.slots[id].Cleared? ==> r.promises == cs.promises
  {
    if id !in cs.slots || cs.slots[id].Installed? then cs
    else
      var prior := cs.slots[id];
      var slots := cs.slots[id := Cleared];
      match prior
      case Loading(p) =>
        var kind := FailureKind(eventType);
        var err := ChunkLoadError(ChunkLoadMessage(id, kind, src), kind, src);
        cs.(slots := slots, promises := Settle(cs.promises, p, Rejected(err)))
      case _ => cs.(slots := slots)
  }

  /** Run the waiting handlers in order. */
  function RunFailed(cs: ChunkState, waiting: seq<ChunkId>, eventType: string, src: string): (r: ChunkState)
    requires Valid(cs)
    ensures Valid(r)
    ensures |r.promises| == |cs.promises|
    ensures r.loader == cs.loader && r.publicPath == cs.publicPath
    ensures forall id :: id in waiting && id in cs.slots && !cs.slots[id].Installed? ==>
      id in r.slots && r.slots[id].Cleared?
    ensures forall id :: id !in waiting || id !in cs.slots || cs.slots[id].Installed? ==>
      (id in r.slots <==> id in cs.slots) && (id in cs.slots ==> r.slots[id] == cs.slots[id])
    decreases |waiting|
  {
    if |waiting| == 0 then cs
    else RunFailed(ChunkFailed(cs, waiting[0], eventType, src), waiting[1..], eventType, src)
  }

  /** A script event for `url`: the loader drops the request and runs the
      handlers that waited for it, with the event's type and the
      element's `src`. */
  function ScriptEvent(cs: ChunkState, url: string, eventType: string): (r: ChunkState)
    requires Valid(cs)
    ensures Valid(r)
    ensures |r.promises| == |cs.promises|
    ensures url !in r.loader.inProgress
    ensures url !in cs.loader.inProgress ==> r == cs
    ensures url in cs.loader.inProgress ==>
      forall id :: id in cs.loader.inProgress[url].waiting && id in cs.slots && !cs.slots[id].Installed? ==>
        id in r.slots && r.slots[id].Cleared?
    ensures url in cs.loader.inProgress ==>
      var waiting := cs.loader.inProgress[url].waiting;
      forall id :: id !in waiting || id !in cs.slots || cs.slots[id].Installed? ==> SlotOf(r, id) == SlotOf(cs, id)
    ensures url in cs.loader.inProgress ==>
      var waiting := cs.loader.inProgress[url].waiting;
      var src := cs.loader.inProgress[url].script.src;
      var kind := FailureKind(eventType);
      forall id :: id in waiting && id in cs.slots && cs.slots[id].Loading? ==>
        r.promises[cs.slots[id].promise] == Rejected(ChunkLoadError(ChunkLoadMessage(id, kind, src), kind, src))
    ensures url in cs.loader.inProgress ==>
      forall p :: 0 <= p < |cs.promises| && Untouched(cs, cs.loader.inProgress[url].waiting, p) ==>
        r.promises[p] == cs.promises[p]
  {
    if url !in cs.loader.inProgress then cs
    else
      var src := cs.loader.inProgress[url].script.src;
      var (loader, waiting) := ScriptDone(cs.loader, url);
      RunFailedRejects(cs.(loader := loader), waiting, eventType, src);
      RunFailedKeeps(cs.(loader := loader), waiting, eventType, src);
      RunFailed(cs.(loader := loader), waiting, eventType, src)
  }

  /** The handlers run for a script event reject the promise of each
      loading chunk among them with its ChunkLoadError. */
  lemma {:induction false} RunFailedRejects(cs: ChunkState, waiting: seq<ChunkId>, eventType: string, src: string)
    requires Valid(cs)
    ensures var r := RunFailed(cs, waiting, eventType, src);
      var kind := FailureKind(eventType);
      forall id :: id in waiting && id in cs.slots && cs.slots[id].Loading? ==>
        r.promises[cs.slots[id].promise] == Rejected(ChunkLoadError(ChunkLoadMessage(id, kind, src), kind, src))
    decreases |waiting|
  {
    if |waiting| > 0 {
      var w := waiting[0];
      var kind := FailureKind(eventType);
      var cs1 := ChunkFailed(cs, w, eventType, src);
      var rest := waiting[1..];
      RunFailedRejects(cs1, rest, eventType, src);
      RunFailedKeeps(cs1, rest, eventType, src);
      var r := RunFailed(cs1, rest, eventType, src);
      assert RunFailed(cs, waiting, eventType, src) == r;
      forall id | id in waiting && id in cs.slots && cs.slots[id].Loading?
        ensures r.promises[cs.slots[id].promise] == Rejected(ChunkLoadError(ChunkLoadMessage(id, kind, src), kind, src))
      {
        var p := cs.slots[id].promise;
        if id == w {
          assert Untouched(cs1, rest, p);
        } else {
          assert id in rest;
        }
      }
    }
  }

  /** The handlers run for a script event leave every promise alone that
      is not the promise of a loading chunk among them. */
  lemma {:induction false} RunFailedKeeps(cs: ChunkState, waiting: seq<ChunkId>, eventType: string, src: string)
    requires Valid(cs)
    ensures var r := RunFailed(cs, waiting, eventType, src);
      forall p :: 0 <= p < |cs.promises| && Untouched(cs, waiting, p) ==> r.promises[p] == cs.promises[p]
    decreases |waiting|
  {
    if |waiting| > 0 {
      var cs1 := ChunkFailed(cs, waiting[0], eventType, src);
      var rest := waiting[1..];
      RunFailedKeeps(cs1, rest, eventType, src);
      var r := RunFailed(cs1, rest, eventType, src);
      assert RunFailed(cs, waiting, eventType, src) == r;
      forall p | 0 <= p < |cs.promises| && Untouched(cs, waiting, p)
        ensures r.promises[p] == cs.promises[p]
      {
        assert Untouched(cs1, rest, p) by {
          forall id | id in rest && id in cs1.slots
            ensures cs1.slots[id] != Loading(p)
          {
            assert id in waiting;
          }
        }
      }
    }
  }

  // ---------------------------------------------------------------------
  // The JSONP callback

  /** What a chunk file pushes: the chunk ids it holds and its module
      factories. */
  datatype Payload = Payload(chunkIds: seq<ChunkId>, modules: map<ModuleId, Registry.Factory>)

  /** Install one chunk: resolve its promise if it is loading, mark it 0. */
  function InstallOne(cs: ChunkState, id: ChunkId): (r: ChunkState)
    requires Valid(cs)
    ensures Valid(r)
    ensures r.loader == cs.loader && r.publicPath == cs.publicPath
    ensures r.slots == cs.slots[id := Installed]
    ensures id in cs.slots && cs.slots[id].Loading? ==> r.promises == cs.promises[cs.slots[id].promise := Fulfilled]
    ensures id !in cs.slots || !cs.slots[id].Loading? ==> r.promises == cs.promises
  {
    var promises := if id in cs.slots && cs.slots[id].Loading? then Settle(cs.promises, cs.slots[id].promise, Fulfilled) else cs.promises;
    cs.(slots := cs.slots[id := Installed], promises := promises)
  }

  /** Resolve the promise of every loading chunk in the list, then mark
      each listed chunk installed. */
  function MarkInstalled(cs: ChunkState, ids: seq<ChunkId>): (r: ChunkState)
    requires Valid(cs)
    ensures Valid(r)
    ensures r.loader == cs.loader && r.publicPath == cs.publicPath
    ensures r.slots.Keys == cs.slots.Keys + set id | id in ids
    ensures forall id :: id in ids ==> r.slots[id].Installed?
    ensures forall id :: id in cs.slots && id !in ids ==> r.slots[id] == cs.slots[id]
    ensures |r.promises| == |cs.promises|
    decreases |ids|
  {
    if |ids| == 0 then cs
    else
      var r := MarkInstalled(InstallOne(cs, ids[0]), ids[1..]);
      assert forall x :: x in ids <==> x == ids[0] || x in ids[1..];
      r
  }

  /** The promise of every listed chunk that was loading is fulfilled;
      every other promise is as it was. */
  lemma MarkInstalledResolves(cs: ChunkState, ids: seq<ChunkId>)
    requires Valid(cs)
    ensures var r := MarkInstalled(cs, ids);
      forall id :: id in ids && id in cs.slots && cs.slots[id].Loading? ==> r.promises[cs.slots[id].promise].Fulfilled?
    ensures var r := MarkInstalled(cs, ids);
      forall p :: 0 <= p < |cs.promises| && Untouched(cs, ids, p) ==> r.promises[p] == cs.promises[p]
  {
    MarkInstalledFulfils(cs, ids);
    MarkInstalledKeeps(cs, ids);
  }

  /** No listed chunk is loading with promise `p`. */
  predicate Untouched(cs: ChunkState, ids: seq<ChunkId>, p: nat) {
    forall id :: id in ids && id in cs.slots ==> cs.slots[id] != Loading(p)
  }

  lemma {:induction false} MarkInstalledKeeps(cs: ChunkState, ids: seq<ChunkId>)
    requires Valid(cs)
    ensures forall p :: 0 <= p < |cs.promises| && Untouched(cs, ids, p) ==>
      MarkInstalled(cs, ids).promises[p] == cs.promises[p]
    decreases |ids|
  {
    if |ids| > 0 {
      var cs1 := InstallOne(cs, ids[0]);
      MarkInstalledKeeps(cs1, ids[1..]);
      assert MarkInstalled(cs, ids) == MarkInstalled(cs1, ids[1..]);
      forall p | 0 <= p < |cs.promises| && Untouched(cs, ids, p)
        ensures MarkInstalled(cs, ids).promises[p] == cs.promises[p]
      {
        assert ids[0] in ids;
        assert cs1.promises[p] == cs.promises[p];
        forall id | id in ids[1..] && id in cs1.slots
          ensures cs1.slots[id] != Loading(p)
        {
          assert id in ids;
        }
      }
    }
  }

  lemma {:induction false} MarkInstalledFulfils(cs: ChunkState, ids: seq<ChunkId>)
    requires Valid(cs)
    ensures var r := MarkInstalled(cs, ids);
      forall id :: id in ids && id in cs.slots && cs.slots[id].Loading? ==> r.promises[cs.slots[id].promise].Fulfilled?
    decreases |ids|
  {
    if |ids| > 0 {
      var cs1 := InstallOne(cs, ids[0]);
      var r := MarkInstalled(cs1, ids[1..]);
      assert MarkInstalled(cs, ids) == r;
      MarkInstalledFulfils(cs1, ids[1..]);
      MarkInstalledKeeps(cs1, ids[1..]);
      forall id | id in ids && id in cs.slots && cs.slots[id].Loading?
        ensures r.promises[cs.slots[id].promise].Fulfilled?
      {
        var p := cs.slots[id].promise;
        if id == ids[0] {
          assert cs1.promises[p] == Fulfilled;
          forall other | other in ids[1..] && other in cs1.slots
            ensures cs1.slots[other] != Loading(p)
          {
            if other != ids[0] && cs.slots[other].Loading? {
              assert cs.slots[other].promise != p;
            }
          }
        } else {
          assert id in ids[1..] && cs1.slots[id] == cs.slots[id];
        }
      }
    }
  }

  /** Whether some listed chunk is not installed yet (`a.some(r => 0 !== e[r])`). */
  predicate AnyNew(cs: ChunkState, ids: seq<ChunkId>) {
    exists i :: 0 <= i < |ids| && !SlotOf(cs, ids[i]).Installed?
  }

  /** The JSONP callback: if some listed chunk is not installed yet, the
      payload's factories are copied into `g.m` (overwriting); then every
      listed loading chunk's promise is resolved and every listed chunk
      becomes installed. */
  function Jsonp(cs: ChunkState, factories: map<ModuleId, Registry.Factory>, payload: Payload)
    : (r: (ChunkState, map<ModuleId, Registry.Factory>))
    requires Valid(cs)
    ensures Valid(r.0)
    ensures r.0.loader == cs.loader
    ensures AnyNew(cs, payload.chunkIds) ==> r.1 == factories + payload.modules
    ensures !AnyNew(cs, payload.chunkIds) ==> r.1 == factories
    ensures r.0 == MarkInstalled(cs, payload.chunkIds)
  {
    var factories' := if AnyNew(cs, payload.chunkIds) then factories + payload.modules else factories;
    (MarkInstalled(cs, payload.chunkIds), factories')
  }

  /** The handler of a chunk whose file has run finds it installed and does
      nothing: a script `load` after the JSONP callback rejects nothing. */
  lemma LoadAfterJsonp(cs: ChunkState, factories: map<ModuleId, Registry.Factory>, payload: Payload, id: ChunkId, eventType: string, src: string)
    requires Valid(cs) && id in payload.chunkIds
    ensures var after := Jsonp(cs, factories, payload).0;
      ChunkFailed(after, id, eventType, src) == after
  {
  }

  /** A chunk file that runs a second time finds its chunks installed and
      leaves the factories alone. */
  lemma JsonpTwice(cs: ChunkState, factories: map<ModuleId, Registry.Factory>, payload: Payload)
    requires Valid(cs)
    ensures var first := Jsonp(cs, factories, payload);
      Jsonp(first.0, first.1, payload).1 == first.1
  {
    var first := Jsonp(cs, factories, payload);
    var ids := payload.chunkIds;
    forall i | 0 <= i < |ids|
      ensures SlotOf(first.0, ids[i]).Installed?
    {
      assert ids[i] in ids;
    }
  }

  // ---------------------------------------------------------------------
  // A chunk's life

  /** A script that loads without its chunk file calling back: the chunk's
      promise is rejected with a ChunkLoadError of type "missing" naming the
      script's `src`, the chunk is reset, and asking for it again starts a
      new load with a new promise. */
  lemma MissingChunk(cs: ChunkState, id: ChunkId)
    requires Valid(cs) && SlotOf(cs, id).Cleared? && ChunkUrl(cs, id) !in cs.loader.inProgress
    ensures var (cs1, ps) := EnsureChunk(cs, id);
      var url := ChunkUrl(cs, id);
      var src := cs1.loader.inProgress[url].script.src;
      var cs2 := ScriptEvent(cs1, url, "load");
      && ps == [|cs.promises|]
      && cs2.promises[|cs.promises|] == Rejected(ChunkLoadError(ChunkLoadMessage(id, "missing", src), "missing", src))
      && SlotOf(cs2, id).Cleared?
      && EnsureChunk(cs2, id).1 == [|cs.promises| + 1]
  {
    var (cs1, ps) := EnsureChunk(cs, id);
    var url := ChunkUrl(cs, id);
    var req := cs1.loader.inProgress[url];
    assert req.waiting == [id];
    var cs1' := cs1.(loader := ScriptDone(cs1.loader, url).0);
    assert ScriptEvent(cs1, url, "load") == RunFailed(cs1', [id], "load", req.script.src);
    var cs2 := ChunkFailed(cs1', id, "load", req.script.src);
    assert RunFailed(cs1', [id], "load", req.script.src) == RunFailed(cs2, [], "load", req.script.src);
  }

  /** A chunk whose file runs before its script's `load` event: the chunk
      is installed, its promise fulfilled, and the `load` event then
      changes nothing more. */
  lemma LoadedChunk(cs: ChunkState, id: ChunkId, factories: map<ModuleId, Registry.Factory>, modules: map<ModuleId, Registry.Factory>)
    requires Valid(cs) && SlotOf(cs, id).Cleared? && ChunkUrl(cs, id) !in cs.loader.inProgress
    ensures var (cs1, ps) := EnsureChunk(cs, id);
      var (cs2, f2) := Jsonp(cs1, factories, Payload([id], modules));
      var cs3 := ScriptEvent(cs2, ChunkUrl(cs, id), "load");
      && f2 == factories + modules
      && cs3.promises[|cs.promises|].Fulfilled?
      && SlotOf(cs3, id).Installed?
  {
    var (cs1, ps) := EnsureChunk(cs, id);
    var url := ChunkUrl(cs, id);
    assert !SlotOf(cs1, [id][0]).Installed?;
    var (cs2, f2) := Jsonp(cs1, factories, Payload([id], modules));
    MarkInstalledResolves(cs1, [id]);
    assert cs2.loader.inProgress[url].waiting == [id];
    var cs2' := cs2.(loader := ScriptDone(cs2.loader, url).0);
    var src := cs2.loader.inProgress[url].script.src;
    assert ScriptEvent(cs2, url, "load") == RunFailed(cs2', [id], "load", src);
    assert ChunkFailed(cs2', id, "load", src) == cs2';
    assert RunFailed(cs2', [id], "load", src) == RunFailed(cs2', [], "load", src);
  }
}
