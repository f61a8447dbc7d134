# Watch Face Format validator plugin: a Dafny model

This project models the core of a Gradle plugin that validates Watch Face Format (WFF)
XML resources during an Android build. It covers four pieces:

- **The incremental validation task** (`ValidateWffFilesTask.validate`), in `validation.dfy`.
  Gradle reports a sequence of file changes. The task skips removals. For every other change it runs the
  validator jar once, with the arguments `[version, "--stop-on-fail", absolute path]`.
  It then overwrites its single output file with the result's text.
  A failing validator run makes the task throw, which stops the loop.
  The class `ValidateWffFilesTask` holds the output file's contents and a log of invocations.
  Its method `Validate` is proved against the pure specification `Run`. The lemmas state what `Run` does.
- **The input-file selection** (`getWffFileCollection`), in `file_selection.dfy`. A file is watched when it is a
  regular file, its name ends in `.xml`, and its parent directory's name starts with `raw`.
  The directory walk is a given list of entries. A path is a sequence of name segments.
  The generic filter and its lemmas are in `seqs.dfy`.
- **Release-tag templating** (`apply`, the tag and six derived strings), in `release_tag.dfy`.
  The tag is the project property `release`, or `"release"` when that property is absent.
  Each of the two download URLs, two jar caches and two output paths is a prefix, then the tag, then a suffix.
- **The task graph** (the seven task names and the `afterEvaluate` wiring), in `task_graph.dfy`. `plugin.dfy` holds
  `Apply`, which registers the tasks in a `TaskContainer` and wires the four `dependsOn` edges.

`Int.toString` of the version is modelled in `decimal.dfy`, together with a parse that reads it back.
`options.dfy` holds the `Option` type.

The validator is an oracle parameter `exec: Invocation -> ExecResult`. It returns `Pass(text)`, where `text` is
what the task writes to the output file, or `Fail` for a non-zero exit (`javaexec` then throws).
The change sequence and the version number are inputs.

Three behaviours of the code are worth stating plainly; the model follows each:
- The output file is overwritten on every processed change (`writeText`), so after a run it holds only the last
  result. Results are not accumulated.
- When no change is processed, the task does not write the output file.
- A failure surfaces as the exception `javaexec` throws, which does not name the file. The model's
  `ValidationFailed(change)` records which change failed, so that the lemmas can say which one it was.

## Model

| member | source | states |
|---|---|---|
| Validation.ValidateWffFilesTask.Validate | validator-plugin/plugins/src/main/kotlin/ValidateWffFilesTask.kt:58-72 | the output file and the invocation log after the task are those `Run` gives from the old state; the outcome is a failure naming the rejected change exactly when `Run` records one |
| Validation.RunOutcome | validator-plugin/plugins/src/main/kotlin/ValidateWffFilesTask.kt:61-71 | a run is determined by its non-removed changes: it invokes them in order up to and including the first rejected one, fails exactly then, and leaves the last accepted result in the output file |
| Validation.RemovedChangesAreInert | validator-plugin/plugins/src/main/kotlin/ValidateWffFilesTask.kt:61-62 | running the whole change set equals running only its non-REMOVED changes, so a removal never causes an invocation or a write |
| Validation.EveryInvocationIsForAProcessedChange | validator-plugin/plugins/src/main/kotlin/ValidateWffFilesTask.kt:59-67 | the log only grows, by at most one invocation per non-REMOVED change; the k-th new invocation is for the k-th non-REMOVED change of the set; its classpath is the validator jar; its arguments are exactly [the version in decimal, "--stop-on-fail", that change's path]; the first argument is the same for every invocation and parses back to the version |
| Validation.ProcessedAreNotRemovals | validator-plugin/plugins/src/main/kotlin/ValidateWffFilesTask.kt:61-62 | every change the task processes is a change of the set and is not a REMOVED one |
| Validation.SuccessfulRun | validator-plugin/plugins/src/main/kotlin/ValidateWffFilesTask.kt:61-69 | when the validator accepts every non-REMOVED change, each one is invoked exactly once, in order, the task succeeds, and the output file holds only the last one's text (or is unchanged when there was none) |
| Validation.OnlyRemovalsChangeNothing | validator-plugin/plugins/src/main/kotlin/ValidateWffFilesTask.kt:61-71 | a change set made only of removals leaves the output file and the log unchanged |
| Validation.FailureStopsTheRun | validator-plugin/plugins/src/main/kotlin/ValidateWffFilesTask.kt:63-69 | a failed task failed at the first rejected change; that change's invocation is the last one made, so later changes are never invoked; its result is not written, and the output holds the previous accepted change's text or its contents from before the run |
| Validation.RunAfterFailure | validator-plugin/plugins/src/main/kotlin/ValidateWffFilesTask.kt:63-69 | once the task has failed, further changes change nothing (the exception leaves the loop) |
| Validation.RunAppend | validator-plugin/plugins/src/main/kotlin/ValidateWffFilesTask.kt:61 | handling two change sequences one after the other is the same as handling their concatenation |
| Validation.FirstRejected | validator-plugin/plugins/src/main/kotlin/ValidateWffFilesTask.kt:63-68 | the position of the first change the validator rejects: every earlier change passes and the change there fails, or the whole sequence passes |
| Decimal.IntToDecimal | validator-plugin/plugins/src/main/kotlin/ValidateWffFilesTask.kt:67 | `Int.toString` is never empty and starts with '-' exactly for negative values |
| Decimal.NatToDecimal | validator-plugin/plugins/src/main/kotlin/ValidateWffFilesTask.kt:67 | the digits of a natural number are decimal digits with no leading zero |
| Decimal.NatToDecimalValue | validator-plugin/plugins/src/main/kotlin/ValidateWffFilesTask.kt:67 | the digits of n have the value n |
| Decimal.IntToDecimalRoundTrip | validator-plugin/plugins/src/main/kotlin/ValidateWffFilesTask.kt:67 | parsing the version argument gives back the version |
| Decimal.IntToDecimalInjective | validator-plugin/plugins/src/main/kotlin/ValidateWffFilesTask.kt:67 | distinct versions give distinct version arguments |
| FileSelection.WffFilesMembership | validator-plugin/plugins/src/main/kotlin/WffValidatorPlugin.kt:124-129 | an entry is selected iff it is in the walk, is a regular file, its name ends with ".xml" and its parent directory's name starts with "raw" |
| FileSelection.WffFilesIsOneFilter | validator-plugin/plugins/src/main/kotlin/WffValidatorPlugin.kt:126-128 | the chain of three filters is one filter by their conjunction |
| FileSelection.WffFilesPreservesOrder | validator-plugin/plugins/src/main/kotlin/WffValidatorPlugin.kt:126-128 | the selection is the walk read at strictly increasing positions: an order-preserving subsequence |
| FileSelection.WffFilesIdempotent | validator-plugin/plugins/src/main/kotlin/WffValidatorPlugin.kt:126-128 | selecting from the selection changes nothing |
| FileSelection.RawPrefixExamples | validator-plugin/plugins/src/main/kotlin/WffValidatorPlugin.kt:126-128 | the tests are case-sensitive and look only at the immediate parent: `raw-night/face.xml` is selected; `values/`, `Raw/`, `raw/sub/`, `face.XML` and a non-file are not |
| ReleaseTag.ResolveTag | validator-plugin/plugins/src/main/kotlin/WffValidatorPlugin.kt:51 | the tag is the "release" property when present and non-null, and the literal "release" (the default at line 35) otherwise |
| ReleaseTag.UnformatFormat | validator-plugin/plugins/src/main/kotlin/WffValidatorPlugin.kt:36-44 | stripping a template's prefix and suffix from a formatted string gives the tag back |
| ReleaseTag.FormatUnformat | validator-plugin/plugins/src/main/kotlin/WffValidatorPlugin.kt:36-44 | a string that unformats to a tag is exactly that tag formatted |
| ReleaseTag.FormatInjective | validator-plugin/plugins/src/main/kotlin/WffValidatorPlugin.kt:53-59 | distinct tags give distinct strings under every template |
| ReleaseTag.LocationsCarryTag | validator-plugin/plugins/src/main/kotlin/WffValidatorPlugin.kt:53-59 | each of the six derived strings yields the tag back when its template's prefix and suffix are stripped |
| ReleaseTag.LocationsInjective | validator-plugin/plugins/src/main/kotlin/WffValidatorPlugin.kt:54-59 | distinct tags give distinct jar caches and distinct output paths for both tools |
| ReleaseTag.JarAndOutputDifferOnlyInExtension | validator-plugin/plugins/src/main/kotlin/WffValidatorPlugin.kt:38-44 | each tool's jar path and output path are the same stem followed by ".jar" and ".txt" respectively, and are distinct |
| ReleaseTag.ToolsNeverShareAPath | validator-plugin/plugins/src/main/kotlin/WffValidatorPlugin.kt:38-44 | the validator's and the memory-footprint tool's jars and outputs never coincide, whatever the two tags |
| ReleaseTag.LatestOverride | validator-plugin/plugins/src/main/kotlin/WffValidatorPlugin.kt:48-59 | the property "latest" makes both URLs and both caches use "latest"; an absent or null property gives "release" |
| TaskGraph.TaskNamedNameOf | validator-plugin/plugins/src/main/kotlin/WffValidatorPlugin.kt:27-33 | every task is found again under its own name |
| TaskGraph.NamesDistinct | validator-plugin/plugins/src/main/kotlin/WffValidatorPlugin.kt:27-33 | the seven task-name constants are pairwise distinct |
| TaskGraph.ChainDescends | validator-plugin/plugins/src/main/kotlin/WffValidatorPlugin.kt:109-121 | along any chain of the plugin's edges, a task's layer is strictly above the layer of every task it depends on |
| TaskGraph.PluginGraphAcyclic | validator-plugin/plugins/src/main/kotlin/WffValidatorPlugin.kt:109-121 | no task depends on itself, directly or transitively: the graph is acyclic |
| TaskGraph.ValidationPrecedesInstallAndMeasurement | validator-plugin/plugins/src/main/kotlin/WffValidatorPlugin.kt:110-120 | validateWffAndInstall and memoryFootprint both depend transitively on validateWff |
| TaskGraph.ValidationRunsFirst | validator-plugin/plugins/src/main/kotlin/WffValidatorPlugin.kt:110-120 | in any execution order that honours the edges, validateWff ran before assembleDebug, bundleDebug, validateWffAndInstall and memoryFootprint, so if validation does not complete, none of them runs |
| TaskGraph.SomeOrderHonoursTheEdges | validator-plugin/plugins/src/main/kotlin/WffValidatorPlugin.kt:109-121 | the seven tasks have an execution order that honours all four edges |
| TaskGraph.TaskContainer.Register | validator-plugin/plugins/src/main/kotlin/WffValidatorPlugin.kt:61-73 | registering adds the name and fails exactly when the name is already taken; edges are untouched |
| TaskGraph.TaskContainer.AddDependency | validator-plugin/plugins/src/main/kotlin/WffValidatorPlugin.kt:111-120 | `named(task).configure { dependsOn(prerequisite) }` adds exactly that edge, and fails, adding nothing, when the task is not registered |
| TaskGraph.TaskContainer.WireDependencies | validator-plugin/plugins/src/main/kotlin/WffValidatorPlugin.kt:109-121 | succeeds iff the five tasks it looks up are registered, and then adds exactly the four edges; it never adds any other edge, and nothing at all when validateWff is missing |
| Plugin.Apply | validator-plugin/plugins/src/main/kotlin/WffValidatorPlugin.kt:47-121 | the locations are those of the resolved tag; the plugin succeeds exactly when no name it registers is taken and every task it wires exists; on success it has registered the two download tasks, plus the three variant tasks when there is a debug variant, and added exactly the four edges; in every case it registers nothing but its own five tasks and adds no edge but the four |
| Plugin.ApplyToAndroidProject | validator-plugin/plugins/src/main/kotlin/WffValidatorPlugin.kt:78-121 | applied to a project that has assembleDebug and bundleDebug, the plugin ends with all seven tasks and exactly the four edges |

## Left out

- Gradle's change detection (`inputs.getFileChanges`, ValidateWffFilesTask.kt:60) and its fingerprinting are left out. The change sequence is an input. So is the fact that a non-incremental run reports every file as ADDED.
- `getWffVersion` (ValidateWffFilesTask.kt:59) reads the merged manifest, and that code is not part of this model. The version is an integer input, read once per run. Kotlin's 32-bit `Int` range is not modelled. `Int.toString` renders in-range values as `IntToDecimal` does.
- `execOperations.javaexec` is an oracle: a fixed function from the invocation (classpath and arguments) to `Pass(text)` or `Fail`. The process, the validator's rules and the format of `result.toString()` are left out. The classpath is modelled as the validator jar's path.
- `WffToolDownloadTask`, `AdbInstallTask` and `MemoryFootprintTask` are not part of this model. This covers the download, the adb install and the footprint measurement.
- Gradle's lazy providers, `afterEvaluate` timing, variant selection and the caching and input annotations are left out. The dependency edges that Gradle infers from the providers to the two download tasks (WffValidatorPlugin.kt:84, 101) are not among the modelled edges. `Apply` runs the variant callback (when there is a debug variant) before the wiring.
- The task configuration values (`toolUrl`, `toolJarPath`, `buildDirectory.file(...)`, the manifest and APK artifacts) are not stored in `TaskContainer`. `Apply` returns the six derived strings instead.
- The directory walk of `src/main/res` (WffValidatorPlugin.kt:125) and reading file contents are left out. The walk is a given list of entries, each with a path and a regular-file flag.
- A project property's value is modelled as its string rendering, or `None` for null.
