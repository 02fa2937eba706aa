/** The constants this build of `@jupyterlab/mathjax3-extension` bakes into
    its container entry: names, chunk hashes, exposed modules and the one
    shared dependency it consumes. */
module Bundle {
  import opened Version
  import opened Ranges

  type ModuleId = nat
  type ChunkId = nat

  /** The container's unique name; it is also the `from` of its registrations. */
  const ContainerName: string := "@jupyterlab/mathjax3-extension"

  /** The version under which the container offers itself in the "default" scope. */
  const ContainerVersion: string := "4.3.0"

  /** Prefix of the `data-webpack` attribute of the script elements it creates. */
  const ScriptKeyPrefix: string := "@jupyterlab/mathjax3-extension:"

  /** The module the container's own package resolves to, and the chunks it needs. */
  const MainModule: ModuleId := 1568
  const MainChunks: seq<ChunkId> := [102, 568]

  /** The content hash of each lazily loaded chunk. */
  const ChunkHashes: map<ChunkId, string> := map[
    102 := "9b248409ff5181032e12",
    568 := "1504a3900d9d11a258ee",
    643 := "de2915af0a05fda2d147",
    696 := "89c4d3f78e2537ae2d5b"
  ]

  /** The chunk that holds the runtime itself: installed from the start. */
  const RuntimeChunk: ChunkId := 717

  /** What `get` resolves an exposed name to: chunks to load, then the module to require. */
  datatype Exposed = Exposed(chunks: seq<ChunkId>, moduleId: ModuleId)

  const ExposedModules: map<string, Exposed> := map[
    "./index" := Exposed(MainChunks, MainModule),
    "./extension" := Exposed(MainChunks, MainModule),
    "./style" := Exposed([696, 643], 6643)
  ]

  /** One consumed shared module: scope, package name and the compiled range. */
  datatype ConsumeRequest = ConsumeRequest(scope: string, package: string, range: Range)

  /** Module 2736 is `@jupyterlab/rendermime` at `^3.2.8` from the default scope. */
  const ConsumeRequests: map<ModuleId, ConsumeRequest> := map[
    2736 := ConsumeRequest("default", "@jupyterlab/rendermime", Leaf(1, [Num(3), Num(2), Num(8)]))
  ]

  /** The consumed modules each chunk needs before it can run. */
  const ChunkConsumes: map<ChunkId, seq<ModuleId>> := map[568 := [2736]]
}
