# Module Federation runtime of `@jupyterlab/mathjax3-extension`

The JupyterLab extension `@jupyterlab/mathjax3-extension` ships a webpack
Module Federation container, `remoteEntry.71fdd4ee54dea9240f59.js`. The
container is a single minified line, so every source citation below is line
1 of that file. This project models its runtime in Dafny and proves
properties of the model. The runtime has these parts:

- **Versions.** The parser `t` turns a version string into tokens: release
  segments, then an array hole and the pre-release segments, then an empty
  array `[]` and the build segments. `versionLt` (`n`) is a strict order on
  those token lists (`Version`).
- **Ranges.** `a` is the satisfaction test of a compiled range array:
  - a leaf is `[k, tokens…]`;
  - a composite is a postfix program whose operators are `0` (not), `1` (or)
    and `2` (and).

  `o` is the printer that turns a range back into text (`Ranges`).
- **Share scopes.** This part covers:
  - `g.I`, which initialises a scope and registers the container's own
    package `@jupyterlab/mathjax3-extension` 4.3.0 in "default";
  - the container's `init`;
  - the helpers `i` (existence check), `l` (version choice), `u` (warning
    text), `s`/`f` (pick and take) and `d` (the consumer) (`SharedScope`).
- **Modules.** `require` (`g`) has its cache `g.c`, and each module's record
  is stored before its factory runs. `g.d` defines exports without
  overwriting existing keys. Module 6958 is the container module
  (`Registry`).
- **Chunks.** The chunk file name `g.u` and the script loader `g.l` (which
  coalesces requests by URL) are modelled. The chunk table has the handler
  `g.f.j`, the failure handler that raises a `ChunkLoadError`, and the JSONP
  callback that installs a chunk's modules (`Chunks`).
- **Putting it together.** `g.f.consumes` fetches shared modules before a
  chunk runs, and `g.e` runs the chunk handlers in key order (consumes, then
  j). The container's `get` and `Promise.all` are modelled too (`Runtime`).
- **The bundle's constants.** These are the chunk hashes, the exposed
  modules and the one consumed module (`@jupyterlab/rendermime` at `^3.2.8`)
  (`Bundle`). Worked cases on concrete inputs are in `WorkedCases`.

Promises become explicit state:
- a table of chunk promises (pending, fulfilled or rejected);
- a list of shared-module fetches that are settled by a separate step.

`console.warn` becomes a list of returned warning strings, including a
warning printed just before an exception. A JavaScript
exception becomes a `Failure` of the `Result` type. Its error is one of:
- `TypeError`;
- `Thrown(message)`;
- `ChunkLoadError(message, type, request)`.

Where the code does something other than one might expect of a webpack
Module Federation runtime, the model follows the code:
- **Build metadata.** It takes part in `versionLt`: a `[]` marker sorts above
  the end of a list, so `1.0.0+b` is above `1.0.0` (`WorkedCases.LtCases`).
  Range tests ignore it (`Ranges.BuildEndsComparison`).
- **Caret ranges.** No zero-major special case exists at run time. A caret
  range is whatever prefix count the build step compiled.
- **Version choice.** `l` does not look at the range. It picks the highest
  key, and keeps a key that a consumer has already taken once it reaches it.
  The range is only used to print a warning; the pick happens anyway
  (`SharedScope.PickIgnoresRange`).
- **Registration.** The bundle calls `register` without an `eager` argument.
  So an eager entry is never replaced, and a non-eager entry nobody has taken
  is replaced only by a container whose name sorts after the entry's `from`.
- **Failed module bodies.** A module whose body threw is not cached as
  failed. Its record stays with the exports it had defined, and later
  requires return that partial record
  (`Registry.FailedBodyKeepsPartialRecord`).
- **Failed chunk loads.** A failed or timed-out chunk load resets the chunk
  to `undefined`, so the next request loads it again (`Chunks.MissingChunk`).
- **Scope initialisation.** `g.I` initialises a scope name once. Later calls
  change nothing (`SharedScope.InitScopeOnce`).

## Model

| member | source | states |
|---|---|---|
| Text.NatToString | quantum_env/share/jupyter/labextensions/@jupyterlab/mathjax3-extension/static/remoteEntry.71fdd4ee54dea9240f59.js:1 | A chunk id printed in decimal (as in `g.u` and the chunk error message) is a non-empty digit string that reads back as the same number. |
| Text.JoinSplit | quantum_env/share/jupyter/labextensions/@jupyterlab/mathjax3-extension/static/remoteEntry.71fdd4ee54dea9240f59.js:1 | Joining the parts of `split(".")` with the separator gives back the string, so no character is lost when a version is split into segments. |
| Text.SplitJoin | quantum_env/share/jupyter/labextensions/@jupyterlab/mathjax3-extension/static/remoteEntry.71fdd4ee54dea9240f59.js:1 | `split` undoes a join of parts that hold no separator. |
| Text.StrLtTransitive | quantum_env/share/jupyter/labextensions/@jupyterlab/mathjax3-extension/static/remoteEntry.71fdd4ee54dea9240f59.js:1 | The string `<` used on string segments and on `from` names is transitive. |
| Text.StrLtConnected | quantum_env/share/jupyter/labextensions/@jupyterlab/mathjax3-extension/static/remoteEntry.71fdd4ee54dea9240f59.js:1 | Two different strings are ordered one way or the other by `<`. |
| Version.MatchAllGroups | quantum_env/share/jupyter/labextensions/@jupyterlab/mathjax3-extension/static/remoteEntry.71fdd4ee54dea9240f59.js:1 | The version pattern splits `release-pre+build` into its three groups when the release holds no `-`/`+`, the pre-release no `+`, and the build no line terminator. |
| Version.MatchGroupsMarkers | quantum_env/share/jupyter/labextensions/@jupyterlab/mathjax3-extension/static/remoteEntry.71fdd4ee54dea9240f59.js:1 | When the pattern matches, it finds a pre-release group exactly when a `-` precedes every `+`, and a build group exactly when the string contains a `+`. |
| Version.ParseLayout | quantum_env/share/jupyter/labextensions/@jupyterlab/mathjax3-extension/static/remoteEntry.71fdd4ee54dea9240f59.js:1 | A parsed version holds the hole marker exactly when the string has a pre-release dash, and the `[]` marker exactly when it has a `+`. |
| Version.ParseRelease | quantum_env/share/jupyter/labextensions/@jupyterlab/mathjax3-extension/static/remoteEntry.71fdd4ee54dea9240f59.js:1 | A release string parses to its dot-separated segments, numbers where all digits. |
| Version.ParsePreRelease | quantum_env/share/jupyter/labextensions/@jupyterlab/mathjax3-extension/static/remoteEntry.71fdd4ee54dea9240f59.js:1 | `release-pre` parses to the release segments, one hole, then the pre-release segments; an empty release gives none. |
| Version.LtStep | quantum_env/share/jupyter/labextensions/@jupyterlab/mathjax3-extension/static/remoteEntry.71fdd4ee54dea9240f59.js:1 | One step of the `versionLt` loop is a comparison of ranks: hole < end of list < `[]` < number < string. Equal ranks compare the values, and equal tokens move on. |
| Version.LtIrreflexive | quantum_env/share/jupyter/labextensions/@jupyterlab/mathjax3-extension/static/remoteEntry.71fdd4ee54dea9240f59.js:1 | No version is below itself. |
| Version.LtTransitive | quantum_env/share/jupyter/labextensions/@jupyterlab/mathjax3-extension/static/remoteEntry.71fdd4ee54dea9240f59.js:1 | `versionLt` is transitive on parsed versions. |
| Version.LtAsymmetric | quantum_env/share/jupyter/labextensions/@jupyterlab/mathjax3-extension/static/remoteEntry.71fdd4ee54dea9240f59.js:1 | Two versions are never each below the other. |
| Version.LtConnected | quantum_env/share/jupyter/labextensions/@jupyterlab/mathjax3-extension/static/remoteEntry.71fdd4ee54dea9240f59.js:1 | Two different token lists are always ordered, so `versionLt` is a strict total order, which is what lets `l` find a highest key. |
| Ranges.SatisfiesTextByVersionLt | quantum_env/share/jupyter/labextensions/@jupyterlab/mathjax3-extension/static/remoteEntry.71fdd4ee54dea9240f59.js:1 | On a leaf of numbers and strings and a version string of numbers and strings, `a` agrees with `versionLt`: the string satisfies `[k, …]` exactly when it keeps the leaf's fixed prefix and is below the leaf's version for `k < 0`, and not below it otherwise. |
| Ranges.LeafMatchesOrder | quantum_env/share/jupyter/labextensions/@jupyterlab/mathjax3-extension/static/remoteEntry.71fdd4ee54dea9240f59.js:1 | On versions of numbers and strings, a leaf `[k, …]` accepts exactly when the fixed prefix agrees and the version is not below the tokens (`k >= 0`) or is below them (`k < 0`), in the order of `versionLt`. |
| Ranges.PreReleaseNeedsSameRelease | quantum_env/share/jupyter/labextensions/@jupyterlab/mathjax3-extension/static/remoteEntry.71fdd4ee54dea9240f59.js:1 | A pre-release version satisfies a leaf only if the leaf has a hole at the same place and the same release tokens before it. |
| Ranges.BuildEndsComparison | quantum_env/share/jupyter/labextensions/@jupyterlab/mathjax3-extension/static/remoteEntry.71fdd4ee54dea9240f59.js:1 | Build metadata never changes a leaf's verdict: the test on a version equals the test on its part before `[]`. |
| Ranges.RunCompiled | quantum_env/share/jupyter/labextensions/@jupyterlab/mathjax3-extension/static/remoteEntry.71fdd4ee54dea9240f59.js:1 | Running the postfix code of an expression anywhere in a composite pushes exactly the expression's truth value onto the stack. |
| Ranges.CompositeMeansExpression | quantum_env/share/jupyter/labextensions/@jupyterlab/mathjax3-extension/static/remoteEntry.71fdd4ee54dea9240f59.js:1 | A composite compiled from a boolean expression over sub-ranges (`0` not, `1` or, `2` and) is satisfied exactly when the expression holds. |
| Ranges.FormatLeaf | quantum_env/share/jupyter/labextensions/@jupyterlab/mathjax3-extension/static/remoteEntry.71fdd4ee54dea9240f59.js:1 | `o` prints a one-element range as `*`. A leaf of printable tokens prints as its operator followed by a text that parses back to those tokens. |
| Ranges.ReleaseRoundTrip | quantum_env/share/jupyter/labextensions/@jupyterlab/mathjax3-extension/static/remoteEntry.71fdd4ee54dea9240f59.js:1 | The version text `o` prints for release tokens parses back with `t` to the same tokens. |
| Ranges.PreReleaseRoundTrip | quantum_env/share/jupyter/labextensions/@jupyterlab/mathjax3-extension/static/remoteEntry.71fdd4ee54dea9240f59.js:1 | The text `o` prints for release tokens, a hole and pre-release tokens parses back to the same tokens. |
| SharedScope.Put | quantum_env/share/jupyter/labextensions/@jupyterlab/mathjax3-extension/static/remoteEntry.71fdd4ee54dea9240f59.js:1 | Storing a version in a package's table overwrites the key in place or appends it as the last key. Afterwards the key maps to the new entry and every other key is unchanged. |
| SharedScope.MarkLoaded | quantum_env/share/jupyter/labextensions/@jupyterlab/mathjax3-extension/static/remoteEntry.71fdd4ee54dea9240f59.js:1 | `e.loaded = 1` sets the flag on the chosen entry only, keeping its getter and the order of keys. |
| SharedScope.Register | quantum_env/share/jupyter/labextensions/@jupyterlab/mathjax3-extension/static/remoteEntry.71fdd4ee54dea9240f59.js:1 | Registration creates the package table if missing. It stores a new non-eager entry when there is none, or when the existing one is not taken, not eager, and from a name that sorts before; otherwise the old entry stays. Other packages and versions are untouched. |
| SharedScope.RegisterIdempotent | quantum_env/share/jupyter/labextensions/@jupyterlab/mathjax3-extension/static/remoteEntry.71fdd4ee54dea9240f59.js:1 | Repeating a registration changes nothing. |
| SharedScope.RegisterKeepsTaken | quantum_env/share/jupyter/labextensions/@jupyterlab/mathjax3-extension/static/remoteEntry.71fdd4ee54dea9240f59.js:1 | An entry a consumer has taken, or an eager one, is never replaced by a registration. |
| SharedScope.InitScope | quantum_env/share/jupyter/labextensions/@jupyterlab/mathjax3-extension/static/remoteEntry.71fdd4ee54dea9240f59.js:1 | If the container's token for the name is already on the visited list, `g.I` returns undefined and changes nothing. Otherwise it appends the token. The first time, it creates the scope and records the name as initialised, and other scopes are unchanged. |
| SharedScope.InitRegistersContainer | quantum_env/share/jupyter/labextensions/@jupyterlab/mathjax3-extension/static/remoteEntry.71fdd4ee54dea9240f59.js:1 | After the first `g.I("default")`, version 4.3.0 of the container's package is in the default scope. On a fresh scope the entry has the container's own getter (chunks 102 and 568, then module 1568). |
| SharedScope.InitScopeOnce | quantum_env/share/jupyter/labextensions/@jupyterlab/mathjax3-extension/static/remoteEntry.71fdd4ee54dea9240f59.js:1 | A second `g.I` on an initialised scope leaves the share state as it was. |
| SharedScope.ContainerInit | quantum_env/share/jupyter/labextensions/@jupyterlab/mathjax3-extension/static/remoteEntry.71fdd4ee54dea9240f59.js:1 | `init` throws the "already been initialized with a different share scope" error exactly when another scope object already holds "default". Otherwise the scope object of that identity is "default" afterwards: the given one when "default" was free, the stored one when it was already in place. |
| SharedScope.ContainerInitKeepsPackages | quantum_env/share/jupyter/labextensions/@jupyterlab/mathjax3-extension/static/remoteEntry.71fdd4ee54dea9240f59.js:1 | `init` with the scope object already in place succeeds and keeps every package of the scope. Other packages stay as they were. In the container's own package no version but 4.3.0 changes, and 4.3.0 does not change either once a consumer took it. |
| SharedScope.ContainerInitAgain | quantum_env/share/jupyter/labextensions/@jupyterlab/mathjax3-extension/static/remoteEntry.71fdd4ee54dea9240f59.js:1 | Calling `init` again with the same scope object, whatever contents the caller's view of it shows and whatever list comes with it, succeeds and changes nothing. |
| SharedScope.FindVersionKey | quantum_env/share/jupyter/labextensions/@jupyterlab/mathjax3-extension/static/remoteEntry.71fdd4ee54dea9240f59.js:1 | `l` yields one of the table's keys, and the initial 0 exactly when the table is empty. |
| SharedScope.FindVersionKeepsLoaded | quantum_env/share/jupyter/labextensions/@jupyterlab/mathjax3-extension/static/remoteEntry.71fdd4ee54dea9240f59.js:1 | A taken first key is returned whatever versions follow it. |
| SharedScope.FindVersionHighest | quantum_env/share/jupyter/labextensions/@jupyterlab/mathjax3-extension/static/remoteEntry.71fdd4ee54dea9240f59.js:1 | When every key parses and none is taken, `l` succeeds with a key that no other key is above in the order of `versionLt`. |
| SharedScope.ExistsAfterInit | quantum_env/share/jupyter/labextensions/@jupyterlab/mathjax3-extension/static/remoteEntry.71fdd4ee54dea9240f59.js:1 | After the consumer's `g.I`, `i` finds a package exactly when the scope already held it, or when it is the container's own package and this is the first initialisation of "default". |
| SharedScope.AdviceByOrder | quantum_env/share/jupyter/labextensions/@jupyterlab/mathjax3-extension/static/remoteEntry.71fdd4ee54dea9240f59.js:1 | Against a leaf range, `u` is printed exactly when the chosen version misses the leaf's fixed prefix or lies on the wrong side of its bound in the order of `versionLt`. The text names the chosen version, the `from` of its provider, the package and the range as `o` prints it. |
| SharedScope.PickChoosesHighest | quantum_env/share/jupyter/labextensions/@jupyterlab/mathjax3-extension/static/remoteEntry.71fdd4ee54dea9240f59.js:1 | On a table whose keys all parse and that no consumer has taken, `s` succeeds with a version no key is above, and warns exactly when that version does not satisfy the range. |
| SharedScope.PickWarning | quantum_env/share/jupyter/labextensions/@jupyterlab/mathjax3-extension/static/remoteEntry.71fdd4ee54dea9240f59.js:1 | The warning of `s` is printed before `f` reads the chosen entry, so a failing pick still warns. On an empty table it warns exactly when "0" is outside a printable range, naming version 0 from 0, and the pick then fails. |
| SharedScope.PickMarksTaken | quantum_env/share/jupyter/labextensions/@jupyterlab/mathjax3-extension/static/remoteEntry.71fdd4ee54dea9240f59.js:1 | After a pick the chosen entry is taken, and nothing else changes: packages, keys and other entries. |
| SharedScope.PickIgnoresRange | quantum_env/share/jupyter/labextensions/@jupyterlab/mathjax3-extension/static/remoteEntry.71fdd4ee54dea9240f59.js:1 | Two ranges lead to the same version, getter and scope; they differ at most in the warning. |
| SharedScope.PickTwice | quantum_env/share/jupyter/labextensions/@jupyterlab/mathjax3-extension/static/remoteEntry.71fdd4ee54dea9240f59.js:1 | Picking again from the scope a pick left gives the same pick. |
| SharedScope.ConsumeExistenceError | quantum_env/share/jupyter/labextensions/@jupyterlab/mathjax3-extension/static/remoteEntry.71fdd4ee54dea9240f59.js:1 | `d` throws "Shared module … doesn't exist in shared scope …" exactly when the package is not there after its `g.I`. Any other failure of `d` is a TypeError. |
| SharedScope.ConsumeWarning | quantum_env/share/jupyter/labextensions/@jupyterlab/mathjax3-extension/static/remoteEntry.71fdd4ee54dea9240f59.js:1 | The consumer's warning is the pick's warning when `d` succeeds. There is none when the package is not there. |
| SharedScope.ConsumeOnInitialized | quantum_env/share/jupyter/labextensions/@jupyterlab/mathjax3-extension/static/remoteEntry.71fdd4ee54dea9240f59.js:1 | On a scope `g.I` has already initialised, `d` is exactly the pick from that scope, stored back into it. |
| SharedScope.ConsumeTwiceSameVersion | quantum_env/share/jupyter/labextensions/@jupyterlab/mathjax3-extension/static/remoteEntry.71fdd4ee54dea9240f59.js:1 | A second consumer of a package gets the same version and getter as the first and changes nothing. |
| Registry.Defined | quantum_env/share/jupyter/labextensions/@jupyterlab/mathjax3-extension/static/remoteEntry.71fdd4ee54dea9240f59.js:1 | `g.d` adds every definition whose key the exports lack, and never overwrites a key already there. |
| Registry.DefineGetters | quantum_env/share/jupyter/labextensions/@jupyterlab/mathjax3-extension/static/remoteEntry.71fdd4ee54dea9240f59.js:1 | The key-by-key loop of `g.d` leaves exactly the exports `Registry.Defined` describes, whatever order the keys are visited in. |
| Registry.DefinedTwice | quantum_env/share/jupyter/labextensions/@jupyterlab/mathjax3-extension/static/remoteEntry.71fdd4ee54dea9240f59.js:1 | Applying `g.d` with the same definitions twice is applying it once. |
| Registry.Require | quantum_env/share/jupyter/labextensions/@jupyterlab/mathjax3-extension/static/remoteEntry.71fdd4ee54dea9240f59.js:1 | A cached record answers at once without change. A body module not yet cached is recorded and runs next, and its result is its record. Records are never dropped, and no body runs twice. |
| Registry.RequireMemoized | quantum_env/share/jupyter/labextensions/@jupyterlab/mathjax3-extension/static/remoteEntry.71fdd4ee54dea9240f59.js:1 | Requiring a bundle module a second time returns the same outcome and runs nothing. |
| Registry.FailedBodyKeepsPartialRecord | quantum_env/share/jupyter/labextensions/@jupyterlab/mathjax3-extension/static/remoteEntry.71fdd4ee54dea9240f59.js:1 | A module whose body threw keeps its record, and the next require returns it without error. |
| Registry.MissingFactory | quantum_env/share/jupyter/labextensions/@jupyterlab/mathjax3-extension/static/remoteEntry.71fdd4ee54dea9240f59.js:1 | Requiring an id with no factory is a TypeError. The empty record it leaves answers the next require. |
| Registry.SharedFactoryNotCached | quantum_env/share/jupyter/labextensions/@jupyterlab/mathjax3-extension/static/remoteEntry.71fdd4ee54dea9240f59.js:1 | The factories the consumes handler installs delete their own record, so each require runs them again with the same outcome. |
| Registry.StartupExports | quantum_env/share/jupyter/labextensions/@jupyterlab/mathjax3-extension/static/remoteEntry.71fdd4ee54dea9240f59.js:1 | Requiring module 6958 at start-up yields exactly `get` and `init`. |
| Chunks.ChunkFileRoundTrip | quantum_env/share/jupyter/labextensions/@jupyterlab/mathjax3-extension/static/remoteEntry.71fdd4ee54dea9240f59.js:1 | The chunk id reads back from the digits before the first dot of `g.u(id)`. |
| Chunks.ChunkFileInjective | quantum_env/share/jupyter/labextensions/@jupyterlab/mathjax3-extension/static/remoteEntry.71fdd4ee54dea9240f59.js:1 | Two chunks never share a file name. |
| Chunks.FindScript | quantum_env/share/jupyter/labextensions/@jupyterlab/mathjax3-extension/static/remoteEntry.71fdd4ee54dea9240f59.js:1 | The search of `g.l` finds the first script whose `src` or `data-webpack` matches, or reports that none does. |
| Chunks.LoadScript | quantum_env/share/jupyter/labextensions/@jupyterlab/mathjax3-extension/static/remoteEntry.71fdd4ee54dea9240f59.js:1 | A URL in progress only queues the handler. Otherwise a matching script is reused, or a new one keyed `@jupyterlab/mathjax3-extension:<key>` is appended, and the handler is the only one waiting. Other URLs are untouched. |
| Chunks.LoadScriptCoalesces | quantum_env/share/jupyter/labextensions/@jupyterlab/mathjax3-extension/static/remoteEntry.71fdd4ee54dea9240f59.js:1 | Two loads of one URL share one request and one script element, and the handlers wait in call order. |
| Chunks.RemoveScript | quantum_env/share/jupyter/labextensions/@jupyterlab/mathjax3-extension/static/remoteEntry.71fdd4ee54dea9240f59.js:1 | Removing a script from the document takes away one occurrence of it and nothing else. |
| Chunks.ScriptDone | quantum_env/share/jupyter/labextensions/@jupyterlab/mathjax3-extension/static/remoteEntry.71fdd4ee54dea9240f59.js:1 | The script's end handler drops the URL's request and hands back the waiting handlers in order. |
| Chunks.LoadAfterDone | quantum_env/share/jupyter/labextensions/@jupyterlab/mathjax3-extension/static/remoteEntry.71fdd4ee54dea9240f59.js:1 | After a URL is done, loading it again starts a new request. |
| Chunks.EnsureChunk | quantum_env/share/jupyter/labextensions/@jupyterlab/mathjax3-extension/static/remoteEntry.71fdd4ee54dea9240f59.js:1 | `g.f.j` adds nothing for an installed chunk and the existing promise for a loading one. Any other chunk gets a new pending promise and a script load of `g.p + g.u(id)` keyed `chunk-<id>`. |
| Chunks.EnsureTwice | quantum_env/share/jupyter/labextensions/@jupyterlab/mathjax3-extension/static/remoteEntry.71fdd4ee54dea9240f59.js:1 | Asking for a chunk again while it loads returns the same promise and starts nothing. |
| Chunks.ChunkFailed | quantum_env/share/jupyter/labextensions/@jupyterlab/mathjax3-extension/static/remoteEntry.71fdd4ee54dea9240f59.js:1 | A chunk that is not installed is reset to undefined. A loading chunk's promise is rejected with "Loading chunk <id> failed.\n(<type>: <src>)", where a `load` event reads as "missing". An installed chunk is untouched. |
| Chunks.ScriptEvent | quantum_env/share/jupyter/labextensions/@jupyterlab/mathjax3-extension/static/remoteEntry.71fdd4ee54dea9240f59.js:1 | A script event ends the URL's request and resets every waiting chunk that is not installed; other chunks keep their state. The promise of each waiting loading chunk is rejected with its ChunkLoadError, whose type reads "missing" for a `load` event, and every other promise is kept. |
| Chunks.RunFailedRejects | quantum_env/share/jupyter/labextensions/@jupyterlab/mathjax3-extension/static/remoteEntry.71fdd4ee54dea9240f59.js:1 | The failure handlers a script event runs reject the promise of each loading chunk among them with "Loading chunk <id> failed.\n(<type>: <src>)". |
| Chunks.RunFailedKeeps | quantum_env/share/jupyter/labextensions/@jupyterlab/mathjax3-extension/static/remoteEntry.71fdd4ee54dea9240f59.js:1 | The failure handlers a script event runs leave alone every promise that does not belong to a loading chunk among them. |
| Chunks.MarkInstalledResolves | quantum_env/share/jupyter/labextensions/@jupyterlab/mathjax3-extension/static/remoteEntry.71fdd4ee54dea9240f59.js:1 | The JSONP callback resolves the promise of every listed loading chunk and no other promise. |
| Chunks.Jsonp | quantum_env/share/jupyter/labextensions/@jupyterlab/mathjax3-extension/static/remoteEntry.71fdd4ee54dea9240f59.js:1 | The payload's factories replace those in `g.m` exactly when some listed chunk was not installed. Then every listed chunk is installed. |
| Chunks.LoadAfterJsonp | quantum_env/share/jupyter/labextensions/@jupyterlab/mathjax3-extension/static/remoteEntry.71fdd4ee54dea9240f59.js:1 | A script event after the chunk's file ran rejects nothing and changes nothing. |
| Chunks.JsonpTwice | quantum_env/share/jupyter/labextensions/@jupyterlab/mathjax3-extension/static/remoteEntry.71fdd4ee54dea9240f59.js:1 | A chunk file that runs again leaves the factories as they are. |
| Chunks.MissingChunk | quantum_env/share/jupyter/labextensions/@jupyterlab/mathjax3-extension/static/remoteEntry.71fdd4ee54dea9240f59.js:1 | A script that loads without installing its chunk rejects the promise with a "missing" ChunkLoadError naming the `src`. The chunk is reset, and the next request gets a new promise. |
| Chunks.LoadedChunk | quantum_env/share/jupyter/labextensions/@jupyterlab/mathjax3-extension/static/remoteEntry.71fdd4ee54dea9240f59.js:1 | A chunk whose file runs before the `load` event is installed with its promise fulfilled, and its modules join `g.m`. |
| Runtime.ConsumeModule | quantum_env/share/jupyter/labextensions/@jupyterlab/mathjax3-extension/static/remoteEntry.71fdd4ee54dea9240f59.js:1 | For a consumed module, an existing `c[e]` is pushed as it is. A consumer that throws makes `g.m[e]` a throwing factory and pushes nothing. A successful pick starts a fetch of the chosen getter, stores it as `c[e]` and pushes it, and adds the warning if the range was unsatisfied. On failure, the warning printed before the error is still recorded. |
| Runtime.ConsumeTwice | quantum_env/share/jupyter/labextensions/@jupyterlab/mathjax3-extension/static/remoteEntry.71fdd4ee54dea9240f59.js:1 | A shared module is fetched at most once at a time: consuming it again pushes the same promise and changes nothing. |
| Runtime.ConsumeAll | quantum_env/share/jupyter/labextensions/@jupyterlab/mathjax3-extension/static/remoteEntry.71fdd4ee54dea9240f59.js:1 | After `g.f.consumes`, every listed module has a `c[e]` entry or a factory, and none that had one loses it. |
| Runtime.ShareArrived | quantum_env/share/jupyter/labextensions/@jupyterlab/mathjax3-extension/static/remoteEntry.71fdd4ee54dea9240f59.js:1 | A fetch settles once. On success `c[e]` becomes 0 and `g.m[e]` returns the provider's exports. On failure `c[e]` is deleted and `g.m[e]` throws. |
| Runtime.ArrivedThenReady | quantum_env/share/jupyter/labextensions/@jupyterlab/mathjax3-extension/static/remoteEntry.71fdd4ee54dea9240f59.js:1 | After a shared module arrived, consuming it pushes 0, and requiring it returns the provider's exports. |
| Runtime.FailedThenRetried | quantum_env/share/jupyter/labextensions/@jupyterlab/mathjax3-extension/static/remoteEntry.71fdd4ee54dea9240f59.js:1 | After a fetch failed, requiring the module throws the failure, and consuming it again starts a new fetch (or fails again in the consumer). |
| Runtime.LoadChunk | quantum_env/share/jupyter/labextensions/@jupyterlab/mathjax3-extension/static/remoteEntry.71fdd4ee54dea9240f59.js:1 | `g.e` runs the consumes handler before `g.f.j` and awaits the promises of both. Afterwards the chunk is installed or loading, and if it is loading its promise is among the awaited values. An installed chunk is left alone, and no other chunk changes. |
| Runtime.LoadChunks | quantum_env/share/jupyter/labextensions/@jupyterlab/mathjax3-extension/static/remoteEntry.71fdd4ee54dea9240f59.js:1 | The `Promise.all` over `t.e` of a list of chunks leaves every listed chunk installed or loading, with the promise of each loading one among the awaited values. No chunk that was installed or loading changes. |
| Runtime.ContainerGet | quantum_env/share/jupyter/labextensions/@jupyterlab/mathjax3-extension/static/remoteEntry.71fdd4ee54dea9240f59.js:1 | `get` fails with `Module "<name>" does not exist in container.` exactly for names the container does not expose, and then loads nothing. For an exposed name, every one of its chunks is installed or loading afterwards, the promise of each loading one is awaited, and the factory requires the exposed module. |
| Runtime.All | quantum_env/share/jupyter/labextensions/@jupyterlab/mathjax3-extension/static/remoteEntry.71fdd4ee54dea9240f59.js:1 | `Promise.all` is fulfilled exactly when every awaited value is, and rejected exactly when one of them is. |
| Runtime.InstalledChunkReady | quantum_env/share/jupyter/labextensions/@jupyterlab/mathjax3-extension/static/remoteEntry.71fdd4ee54dea9240f59.js:1 | `g.e` on an installed chunk that consumes nothing changes nothing and waits for nothing. |
| Runtime.FulfilledMeansInstalled | quantum_env/share/jupyter/labextensions/@jupyterlab/mathjax3-extension/static/remoteEntry.71fdd4ee54dea9240f59.js:1 | Once the `Promise.all` over the values awaited for some chunks is fulfilled, every one of those chunks is installed. |
| Runtime.GetResolvesAfterChunks | quantum_env/share/jupyter/labextensions/@jupyterlab/mathjax3-extension/static/remoteEntry.71fdd4ee54dea9240f59.js:1 | The promise `get` returns for an exposed module is fulfilled only when every chunk the module needs is installed, and its factory then requires the exposed module. |
| Runtime.LoadFailureRejects | quantum_env/share/jupyter/labextensions/@jupyterlab/mathjax3-extension/static/remoteEntry.71fdd4ee54dea9240f59.js:1 | A script event that fails a loading chunk whose promise is awaited rejects the `Promise.all` that waits for it. |
| Runtime.Deliver | quantum_env/share/jupyter/labextensions/@jupyterlab/mathjax3-extension/static/remoteEntry.71fdd4ee54dea9240f59.js:1 | After the JSONP callback every listed chunk is installed. If one was new, the payload's factories are in `g.m`. Shared-module state is untouched. |
| WorkedCases.ParseCase | quantum_env/share/jupyter/labextensions/@jupyterlab/mathjax3-extension/static/remoteEntry.71fdd4ee54dea9240f59.js:1 | `"1.2.3-beta.1+x"` parses to `[1, 2, 3, <hole>, "beta", 1, [], "x"]`. |
| WorkedCases.LtCases | quantum_env/share/jupyter/labextensions/@jupyterlab/mathjax3-extension/static/remoteEntry.71fdd4ee54dea9240f59.js:1 | A pre-release sorts below its release, a shorter release below a longer one, a number below a string, and build metadata raises a version. |
| WorkedCases.CaretCases | quantum_env/share/jupyter/labextensions/@jupyterlab/mathjax3-extension/static/remoteEntry.71fdd4ee54dea9240f59.js:1 | The bundle's `^3.2.8` (`[1, 3, 2, 8]`) accepts 3.2.8 and 3.9.0, and rejects 4.0.0, 3.2.7 and 3.2.8-alpha. |
| WorkedCases.BelowCases | quantum_env/share/jupyter/labextensions/@jupyterlab/mathjax3-extension/static/remoteEntry.71fdd4ee54dea9240f59.js:1 | `<2` (`[-1, 2]`) accepts 1.5.0 and rejects 2.0.0. |
| WorkedCases.BuildCase | quantum_env/share/jupyter/labextensions/@jupyterlab/mathjax3-extension/static/remoteEntry.71fdd4ee54dea9240f59.js:1 | 3.2.8+b satisfies `^3.2.8`. |
| WorkedCases.FormatCases | quantum_env/share/jupyter/labextensions/@jupyterlab/mathjax3-extension/static/remoteEntry.71fdd4ee54dea9240f59.js:1 | `o` prints `[1, 3, 2, 8]` as `^3.2.8`, and prints a one-element range as `*`. |
| WorkedCases.EmptyTableCase | quantum_env/share/jupyter/labextensions/@jupyterlab/mathjax3-extension/static/remoteEntry.71fdd4ee54dea9240f59.js:1 | A consumer of `@jupyterlab/rendermime` at `^3.2.8` that finds an empty version table gets the warning "Unsatisfied version 0 from 0 …" and then a TypeError. |
| WorkedCases.CompositeCases | quantum_env/share/jupyter/labextensions/@jupyterlab/mathjax3-extension/static/remoteEntry.71fdd4ee54dea9240f59.js:1 | The postfix `not(<2) or ^3.2.8` accepts 3.4.0, and `not(<2) and ^3.2.8` rejects 1.4.0. |
| WorkedCases.CycleCase | quantum_env/share/jupyter/labextensions/@jupyterlab/mathjax3-extension/static/remoteEntry.71fdd4ee54dea9240f59.js:1 | In a require cycle, the inner module sees the outer module's exports as far as they got (`a`, but not yet `c`). Each body runs once, outer first. |

## Left out

- The DOM is a list of script values: element creation, `charset`, the 120-second `timeout` attribute, the nonce `g.nc`, `onerror`/`onload` wiring and `clearTimeout` are not modelled. A timeout is a script event of type "timeout".
- The public path `g.p` is a parameter. Its computation from `document.currentScript` or the last script tag (and the "Automatic publicPath is not supported" error) is not modelled.
- `g.g` (the global object), `g.r` (the ES-module marker), `g.n` and `t.R` (the request recorded during `get`) are not modelled.
- `console.warn` is not called; the warning text is returned instead.
- Promise scheduling is not modelled. Settling is an explicit step, and `Promise.all` reports a rejection when any awaited value is rejected, regardless of the order in which they settled.
- Getters installed by `g.d` through `Object.defineProperty` are modelled by the values they return, so live bindings are not modelled: an `Import` step copies the value at the time of the import.
- A shared entry's getter is not run: calling it is modelled as a fetch whose outcome arrives later through `Runtime.ShareArrived`. A getter that returns a non-promise is not modelled (the synchronous branch of `g.f.consumes`).
- The JSONP callback's call of the chunk's runtime function and of the original `push` are not modelled, and neither is the replay of the chunk array filled before the runtime ran.
- `Object.keys` lists integer-like keys first in ascending order. The model keeps insertion order for every version key.
- Loose equality of the composite loop (`1 == h` with `h` a nested array) and the numeric coercion `+e == e` are modelled only for their plain cases: a segment is a number exactly when it is all decimal digits ("" counting as 0). Segments such as " 1", "1e3" or "0x10", which JavaScript also coerces to numbers, stay strings.
- Strings are sequences of Unicode scalar values. JavaScript compares UTF-16 code units, which differs for characters outside the Basic Multilingual Plane.
- A string the version pattern rejects parses to `None`. The TypeError that `t` raises when it reads a group of a failed match becomes the `Failure` of `Ranges.SatisfiesText`.
- Ranges.FormatLeaf: stated only for tokens that print unambiguously (numbers, and strings that are not all digits and hold no `.`, `-` or `+`). Other strings print too, but do not parse back to the same tokens.
- SharedScope.FindVersionHighest: stated only when every key parses, none is empty and none is taken. Otherwise `l` may throw (`SharedScope.FindVersionKey` covers what it returns when it succeeds).
- Runtime.ContainerGet: states what `get` starts and awaits when it is called. That its promise is fulfilled only once the chunks are installed, and is rejected when one of them fails, is stated for a given state by `Runtime.GetResolvesAfterChunks` and `Runtime.LoadFailureRejects`. The order in which later events settle the awaited promises is not tracked.
- Version segments, chunk ids and module ids are unbounded naturals. JavaScript numbers are doubles: segments above 2^53 lose precision, and `o` and `g.u` print numbers of 1e21 and above in exponent form. Neither effect is modelled.
