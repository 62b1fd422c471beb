# Step outputs of drone-runner-docker, verified

A step of a pipeline publishes outputs with a helper command, and later steps read them through `from_output`. This
project models, in Dafny, the three parts of the runner that this feature rests on, and proves what they promise each
other.

**The multiplexed stream** (`StdCopy`). Container logs arrive as frames of an 8-byte header and a payload. The
writer and the copier are modelled with their buffer, in place, against a reader and writers that choose their own
chunk sizes, ends of file and failures. Whatever is written, however the bytes are cut up, and wherever the stream ends,
the copier hands over exactly the complete writes, each to its own side. Both sides may be one writer, as
`engine/engine.go:504` and `engine/engine.go:525` call it.

**The output store.** `Text` holds the parts of Go's string library that matter, `Keys` the keys, `References` the
written forms of a reference, `Flatten` and `Flattened` the way from a nested value to a patch, `Patches` what applying a patch is meant
to do. A patch is applied to a directory (`Directory`) or sent as operations (`OutputProto`, `PatchOps`) to the output
service, which is a state machine of critical sections (`ServiceModel`) and a class whose methods are tied to them
(`OutputService`). `Lookup` reads values back, with negative list indices. `Backends` and `Published` put the pieces
together: both transports store the same, and a consumer gets the same answer.

**The dependency graph.** `Graph` has reachability and topological order, `Resource` the parser's check of references,
`Linter` the linter's check of the order, `Compiler` and `CompiledGraph` the compiler's rewriting of the graph,
`SpecChecks` the check on the compiled steps, `Execer` the executor's methods, and `Runs` a state machine over all
interleavings of the steps' goroutines and containers. `Example` takes a pipeline through all of them.

Main results:

- Taking apart what was put together gives it back, exactly for the writes the header can describe, for every chunking
  and for every truncation (`StdCopy.RoundTripExactly`, `StdCopy.TruncatedStream`, `StdCopy.StdCopy`, `StdCopy.Transfer`).
- From the text of a pipeline to a run: if the parser and the linter accept it, a reference means the same from the
  moment its consumer is entered, and a step is only launched with the values of producers that succeeded, published and
  returned (`Runs.ReferencesAreRaceFree`, `Runs.LaunchAfterProducers`, `Runs.DeliveredForGood`); told by the actions of the
  run, the producer exited with 0, published and returned before the consumer was entered (`Runs.LaunchOrder`). The values are those that the
  producer wrote (`Runs.LaunchedWithWritten`). Whether a consumer can be launched is settled when it is entered
  (`Runs.LaunchesExactly`). The number of moves in a run is bounded, and the graph never blocks a run
  (`Runs.AcceptedRunsNeverBlock`).
- The depth-first searches decide exactly the reflexive and transitive closure, compiling keeps it in graph mode, and the
  compiled graph has no cycle (`Resource.DependsOn`, `SpecChecks.DependsOnStep`, `CompiledGraph.CompilingKeepsReachability`,
  `CompiledGraph.CompiledInOrder`). What the parser accepts, and what the compiler makes of it, is said in
  terms of the source alone (`Resource.LintAcceptsExactly`, `CompiledGraph.CompiledExactly`).
- The service, with its objects, its two-phase `Apply` and its collector, implements a machine that has none of them
  (`ServiceModel.ServiceImplements`). From this follow: the collector is unobservable, a deleted pipeline stays empty
  until it is registered again, what is read then was written by calls whose lookup followed the registration, exactly
  (`ServiceModel.ValuesFollowRegistration`), a token in use stays alive, and one that is not expires
  (`ServiceModel.TokenLifetime`, `ServiceModel.TokenExpires`).
- Applying a patch in sorted order, or as operations in any order, has one closed form, under conditions that are
  necessary as well (`Directory.Dir.ApplyPatch`, `PatchOps.OrderIndependentExactly`, `Backends.BackendsAgreeExactly`).
- Flattening is injective and prefix-free for map keys without dots (`Flattened.FlattenedExactly`). Negative indices count
  from the end, as the documentation says, exactly if the stored indices are canonical (`Lookup.NegativeIndexExactly`).
- What was set is read back, and unsetting undoes setting, at every depth (`Published.SettingAgrees`,
  `Published.UnsetUndoesSetting`, `Keys.CoversExactly`).

Where the code and `docs/step-outputs.md` differ, the model follows the code:

- `docs/step-outputs.md:133` allows a negative index only as the last segment. The key validator's flag for it has no
  effect: negative segments are accepted everywhere (`Keys.ValidateKeyExactly`), also in the documentation's own example
  (`Keys.NegativeInTheMiddleIsAccepted`).
- `docs/step-outputs.md:136` says stored indices are canonical. Nothing enforces it; an item stored as `tags.01` is counted
  but not found (`Lookup.NonCanonicalItemIsMissed`). A number below the 64-bit range is no index; it is missing, not an
  error (`Lookup.NegativeIndex`). A shorter list set over a longer one leaves the old tail, so `-1` is
  an old item then (`Published.NegativeIndexAfterSet`).
- `docs/step-outputs.md:444` says that a failed step publishes nothing. That holds when outputs are files
  (`Runs.RunKeepsSafe`); the service publishes at once.
- `docs/step-outputs.md:16` and `docs/step-outputs.md:416` allow references only in the environment; the code also
  resolves them in settings.
- The implicit order of a serial pipeline does not count for the parser: without any `depends_on` it only accepts
  references of a step to itself (`Resource.SerialReferencesOnlySelf`), and those never launch
  (`Runs.SelfReferenceNeverLaunches`).
- With a dot inside a map key two leaves can compete for one key, and which wins depends on map order
  (`Flattened.DottedKeysCompete`); `Flattened.OrderIrrelevantExactly` says when that happens.
- Writing a key stages under the key with `.tmp` appended, and so destroys a stored value of that name
  (`Directory.StagingDestroys`); `Directory.PatchedExactly` says when that matters.
- Keys of nested maps that are no strings are dropped silently, while at the root they are an error (`Flatten.FlattenRoot`).
- Unsetting a malformed key is an error on files; the service accepts it, without effect (`Backends.MalformedUnsetIsIdle`).
  An empty patch succeeds on files, but no request for it passes (`PatchOps.RequestPassesExactly`).
- `engine/compiler/util.go:164` checks the references again on the compiled steps, but nothing calls it. For an
  accepted pipeline it would only add that services and detached steps have no references
  (`SpecChecks.CompiledRefsExactly`).

## Model

| member | source | states |
|---|---|---|
| StdCopy.Uint32OfBigEndian | internal/docker/stdcopy/stdcopy.go:66 | reading the length field gives back the number that was written to it |
| StdCopy.BigEndianOrdered | internal/docker/stdcopy/stdcopy.go:66 | the length field has its most significant byte first: the order of lengths is the dictionary order of their bytes |
| StdCopy.WireFormat | internal/docker/stdcopy/stdcopy.go:65-69 | the bytes of one frame on the wire, written out, and a header with an unknown stream |
| StdCopy.FramesExactly | internal/docker/stdcopy/stdcopy.go:115-187 | what a stream is taken apart into are the frames, and the bytes left over, that it can be cut into from the front until no frame follows; the three bytes after the stream may be anything |
| StdCopy.PayloadsBySide | internal/docker/stdcopy/stdcopy.go:132-143 | frames of streams 0 and 1 go to the one side and frames of stream 2 to the other, each in order and with nothing lost or doubled; a writer that is both sides gets everything |
| StdCopy.RoundTrip | internal/docker/stdcopy/stdcopy.go:57-188 | the frames of what the writers put on the wire are the writes, and nothing is left over |
| StdCopy.RoundTripExactly | internal/docker/stdcopy/stdcopy.go:57-80 | the round trip holds if and only if every write has a known stream and a length below 2^32 |
| StdCopy.WritesBeforeIsTheMost | internal/docker/stdcopy/stdcopy.go:115-131 | the number of writes that lie before a cut: so many fit, and one more does not |
| StdCopy.CutFrameIsLost | internal/docker/stdcopy/stdcopy.go:121-124 | a stream that ends inside its first write contains no frame and never a bad header |
| StdCopy.TruncatedStream | internal/docker/stdcopy/stdcopy.go:115-170 | any prefix of a multiplexed stream contains exactly the writes that lie completely in it |
| StdCopy.Source.Read | internal/docker/stdcopy/stdcopy.go:119 | what is assumed of a reader: any chunk size, at least one byte unless it reports something, end of file with or without data |
| StdCopy.Sink.Write | internal/docker/stdcopy/stdcopy.go:173 | what is assumed of a writer: takes a prefix of the bytes, all of them if it is reliable |
| StdCopy.StdWriter.Write | internal/docker/stdcopy/stdcopy.go:57-80 | puts exactly one encoded frame on the wire, a prefix of it if the writer fails, nothing for a nil payload; reports the payload bytes that went out |
| StdCopy.Refill | internal/docker/stdcopy/stdcopy.go:117-130 | buffered plus unread bytes stay the same stream, over any chunking, and without an error enough is buffered |
| StdCopy.Grow | internal/docker/stdcopy/stdcopy.go:151-154 | the larger buffer starts with the old one's bytes |
| StdCopy.CopyDown | internal/docker/stdcopy/stdcopy.go:184 | moves the overlapping rest of the buffer to its front in place |
| StdCopy.FetchFrame | internal/docker/stdcopy/stdcopy.go:116-170 | buffers one whole frame, or says rightly that the stream ends, is broken or has a bad header |
| StdCopy.DeliverFrame | internal/docker/stdcopy/stdcopy.go:172-186 | hands the payload to standard error for stream 2 and to standard output otherwise, and leaves exactly the rest of the stream |
| StdCopy.CopyFrame | internal/docker/stdcopy/stdcopy.go:115-187 | one round of the loop on the abstract stream: the first frame goes out and is gone |
| StdCopy.StdCopy | internal/docker/stdcopy/stdcopy.go:105-188 | terminates; the writers receive the payloads of exactly the complete frames, in order; what is reported for each way to end |
| StdCopy.Multiplex | internal/docker/stdcopy/stdcopy.go:57-93 | several writers on one connection put the writes on the wire in order |
| StdCopy.Transfer | internal/docker/stdcopy/stdcopy.go:57-188 | writer, truncation at any byte, any chunking, copier: each side gets exactly the writes that arrived completely, without an error; if all writes are for one side, they are all there and the other side stays empty; their length is reported |
| Text.SplitLast | internal/stepoutput/stepoutput.go:260-265 | splitting a key gives its segments, the last one last |
| Text.JoinSplit | internal/stepoutput/stepoutput.go:260-265 | joining the segments of a key gives back the key |
| Text.TrimSpaceExactly | internal/stepoutput/stepoutput.go:26 | exactly the spaces around a text are cut off |
| Text.DigitsExactly | internal/stepoutput/stepoutput.go:411-417 | the decimal numerals of a number are its printed form with any number of zeros before it |
| Text.ItoaLength | internal/stepoutput/stepoutput.go:357-362 | indices are printed in base ten and without leading zeros |
| Text.AtoiOfItoa | internal/stepoutput/stepoutput.go:275-289 | parsing a printed index gives back the index |
| Text.ItoaInjective | internal/stepoutput/stepoutput.go:357-362 | different indices are printed differently |
| Keys.ValidateKeyExactly | internal/stepoutput/stepoutput.go:68-90 | the validator accepts exactly the keys of legal characters with single dots between them, whatever its flag |
| Keys.LegalExactly | internal/stepoutput/stepoutput.go:83-87 | the characters of a key, apart from dots, are the ASCII letters and digits, `_` and `-` |
| Keys.NegativeInTheMiddleIsAccepted | internal/stepoutput/stepoutput.go:80-88 | `matrix.-1.name` is accepted with either value of the flag |
| Keys.ValidKeyConcat | internal/stepoutput/stepoutput.go:363-371 | a valid name appended to a valid prefix is a valid key |
| Keys.AboveValid | internal/stepoutput/stepoutput.go:204-225 | every dotted ancestor of a valid key is valid |
| Keys.CoversExactly | internal/stepoutput/stepoutput.go:215-218 | unsetting a key reaches exactly the keys that start with its segments, at every depth |
| References.ParseRef | internal/stepoutput/stepoutput.go:25-66 | computes the reference that a text denotes, with the loop over its fields |
| References.ParseTrims | internal/stepoutput/stepoutput.go:26 | spaces around a reference do not matter, whatever its form |
| References.FieldsExactly | internal/stepoutput/stepoutput.go:36-52 | the form with fields is an error if some part is no field; of each field the last one counts |
| References.ParsedIsWellFormed | internal/stepoutput/stepoutput.go:25-66 | whatever is parsed names a step and a valid key |
| References.SlashForm | internal/stepoutput/stepoutput.go:53-58 | `step/key` denotes the step and the key |
| References.StepsForm | internal/stepoutput/stepoutput.go:30-35 | `steps.step.outputs.key` denotes the step and the key |
| References.FieldsForm | internal/stepoutput/stepoutput.go:36-52 | `step=step,key=key` and `key=key,step=step` denote the step and the key, with any spaces around the fields and their values, and for any step without spaces and commas |
| References.DottedForm | internal/stepoutput/stepoutput.go:59-64 | `step.key` denotes the step and the key if and only if it is not taken for the `steps` form |
| Graph.ExploredMeansUnreachable | engine/resource/parser.go:108-126 | a failed search that started with nothing visited proves that there is no path |
| Graph.InOrderExactly | engine/linter/linter.go:74-96 | one pass that checks each step against the earlier names decides topological order |
| Graph.ReachesGoesBack | engine/linter/linter.go:181-192 | in an ordered list, whatever a step depends on, directly or not, exists and comes before it |
| Resource.GetStep | engine/resource/pipeline.go:74-81 | finds a step with the name if there is one |
| Resource.GetStepIsFirst | engine/resource/pipeline.go:74-81 | of several steps with the name it finds the first |
| Resource.HasReferenceExactly | engine/resource/parser.go:66-69 | an entry is a reference if and only if it contains anything but spaces |
| Resource.FirstEdgesOfDistinct | engine/resource/pipeline.go:74-81 | with unique names, looking at the first step of a name misses no dependency |
| Resource.DependsOn | engine/resource/parser.go:108-126 | terminates on any steps, cyclic or dangling; with nothing visited it decides the reflexive and transitive closure |
| Resource.CheckNames | engine/resource/parser.go:43-59 | accepts if and only if all names are there, at most 100 bytes long and unique |
| Resource.CheckReferences | engine/resource/parser.go:66-84 | accepts if and only if every reference parses and names a step that is not detached and that the consumer depends on |
| Resource.IndexSteps | engine/resource/parser.go:61-64 | the index finds the same steps as the search by name |
| Resource.Lint | engine/resource/parser.go:42-106 | accepts exactly the pipelines with proper names and allowed references in environments and settings |
| Resource.LintAcceptsExactly | engine/resource/parser.go:42-126 | the same in terms of the steps alone: names of 1 to 100 bytes that all differ, and for each reference a chain of steps, each of which names the next one in its `depends_on`, that leads from the consumer to a step that has the referenced name and is not detached |
| Resource.SerialReferencesOnlySelf | engine/resource/parser.go:108-126 | without any `depends_on` only a reference of a step to itself is allowed |
| Linter.CheckSteps | engine/linter/linter.go:72-98 | accepts if and only if names are unique, every dependency names an earlier step, and each step obeys its own rules |
| Linter.AcceptsInOrder | engine/linter/linter.go:72-98 | the same step by step: the name was not there before, the dependencies were, as earlier services or steps or as the clone step |
| CompiledGraph.GraphExactly | engine/compiler/util.go:42-49 | a pipeline is compiled in graph mode if and only if some service or step has a dependency |
| CompiledGraph.CompiledExactly | engine/compiler/compiler.go:459-619 | the compiled graph of an accepted pipeline, in terms of the source: clone, services, steps in this order; without any dependency each waits for the one before it, otherwise for what it names, or for clone if it names nothing |
| CompiledGraph.CompiledInOrder | engine/compiler/compiler.go:613-619 | for an accepted pipeline the compiled steps have unique names and only depend on earlier ones, in both modes |
| CompiledGraph.CompiledHasNoCycle | internal/outputexec/execer.go:106-111 | the graph handed to the runner has no cycle and no edge to a missing step |
| CompiledGraph.ClonePrecedesAll | engine/compiler/util.go:137-146 | with cloning enabled every compiled step depends on the clone step, directly or not |
| CompiledGraph.SerialReachesExactly | engine/compiler/util.go:53-61 | if no service and no step has a dependency, one compiled step depends on another if and only if it does not come before it |
| CompiledGraph.CompilingKeepsReachability | engine/compiler/compiler.go:501-619 | if some service or step has a dependency, one step depends on another in the compiled pipeline if and only if it did in the source |
| CompiledGraph.SourceReachesStay | engine/compiler/compiler.go:613-619 | in either mode no dependency of the source is lost |
| Compiler.ConfigureSerial | engine/compiler/util.go:53-61 | in place, every step after the first depends on just the one before it, and nothing else changes |
| Compiler.ConfigureCloneDeps | engine/compiler/util.go:137-146 | in place, exactly the steps without dependencies, other than clone, get the clone edge |
| Compiler.RemoveCloneDeps | engine/compiler/util.go:150-162 | in place, if there is no clone step, exactly the steps that depend on just `clone` lose the edge |
| Compiler.IsGraphSpec | engine/compiler/util.go:42-49 | true if and only if some step names a dependency |
| Compiler.ConvertOutputEnv | engine/compiler/util.go:99-115 | carries over exactly the entries with a reference, parsed, or fails if and only if one does not parse |
| Compiler.ConvertOutputSettings | engine/compiler/util.go:117-133 | the same under the plugin names; settings whose names coincide compete |
| Compiler.PluginNameExactly | engine/compiler/util.go:127 | plugin names start with `PLUGIN_` and have no lower-case letters; two settings share one if and only if they differ in case only |
| Compiler.CreateStep | engine/compiler/step.go:19-60 | the compiled step has the source's name, dependencies and references |
| Compiler.BuildOne | engine/compiler/compiler.go:502-531 | appends the compiled form of the next step, or stops at a malformed reference |
| Compiler.BuildSteps | engine/compiler/compiler.go:459-579 | clone, services, steps in this order; stops exactly at the first with a malformed reference |
| Compiler.ConfigureDeps | engine/compiler/compiler.go:613-619 | rewrites the graph as the mode and the clone setting ask for |
| Compiler.Compile | engine/compiler/compiler.go:459-619 | if all references parse, the whole pipeline with the rewritten graph, in which each step of an accepted pipeline waits for what it should; and else exactly the steps before the first that has a malformed reference, not rewritten |
| Compiler.CompiledParts | engine/compiler/compiler.go:459-579 | services are detached, steps are if the source says so, a step whose conditions are not met never runs, references are carried over, and the clone step is plain |
| SpecChecks.DependsOnStep | engine/compiler/util.go:204-223 | terminates on any compiled steps; with nothing visited it decides the reflexive and transitive closure over all steps of each name |
| SpecChecks.CheckRefs | engine/compiler/util.go:169-201 | accepts a step's references if and only if each is allowed and a detached step has none |
| SpecChecks.ValidateOutputRefs | engine/compiler/util.go:164-202 | accepts if and only if all references of all compiled steps are allowed |
| SpecChecks.CompiledRefsExactly | engine/compiler/util.go:164-202 | after parser, linter and compiler this check accepts if and only if no service and no detached step has a reference |
| Lookup.SortedRank | internal/stepoutput/stepoutput.go:283 | what stands at a place of the sorted indices |
| Lookup.SortIntsSorts | internal/stepoutput/stepoutput.go:283 | the indices come out sorted |
| Lookup.SortIntsCounts | internal/stepoutput/stepoutput.go:283 | sorting keeps how many indices lie below any bound |
| Lookup.CollectIndices | internal/stepoutput/stepoutput.go:266-279 | collects the indices of exactly the direct numbered children, in whatever order the keys come |
| Lookup.ResolveValue | internal/stepoutput/stepoutput.go:253-292 | the stored value, or for a negative index the child at that rank from the end; when it is missing and when it is an error |
| Lookup.StoredIsFound | internal/stepoutput/stepoutput.go:254-256 | a stored key denotes its value, whatever it looks like |
| Lookup.MissingExactly | internal/stepoutput/stepoutput.go:257-264 | a key that is not stored is an error if it is malformed, and missing if its last segment is no negative index |
| Lookup.NegativeIndexForm | internal/stepoutput/stepoutput.go:411-417 | negative indices are a minus, any zeros, and a number up to 2^63 |
| Lookup.ChildIndexExactly | internal/stepoutput/stepoutput.go:266-279 | the list items of a prefix are the direct children that are numbers, with a plus or leading zeros or not |
| Lookup.PaddedFromEnd | internal/stepoutput/stepoutput.go:284 | zeros after the minus change nothing |
| Lookup.MinusZero | internal/stepoutput/stepoutput.go:284-288 | `prefix.-0` is an error if there are items, and missing if not |
| Lookup.NothingBeforeIndex | internal/stepoutput/stepoutput.go:265-282 | a negative index without a prefix is missing |
| Lookup.ResolvedFromEnd | internal/stepoutput/stepoutput.go:280-291 | what `prefix.-n` denotes in terms of the children and their order |
| Lookup.NegativeIndex | internal/stepoutput/stepoutput.go:253-292 | for every n, `prefix.-n` is an error if and only if there are children but fewer than n, and n fits the 64-bit range; missing if there are none or n does not fit; with canonical indices it counts from the end as far as there are children |
| Lookup.NegativeIndexExactly | internal/stepoutput/stepoutput.go:253-292 | for all n up to the number of children `prefix.-n` is the value of the child with exactly n-1 children of larger index, if and only if all children's indices are canonical |
| Lookup.NonCanonicalItemIsMissed | internal/stepoutput/stepoutput.go:289-291 | an item with a leading zero in its index is counted and not found |
| Lookup.NegativeIndexOfList | internal/stepoutput/stepoutput.go:253-292 | in a list of length L, `-n` is the item at L-n |
| Execer.Execer.ResolveOutputValue | internal/outputexec/execer.go:278-304 | the value of a reference, if there is one: in the service if there is one and the transport is not `file`, else in the collected outputs |
| Execer.Execer.ResolveAll | internal/outputexec/execer.go:260-273 | resolves all references or none, in whatever order they come |
| Execer.Execer.InjectOutputs | internal/outputexec/execer.go:255-276 | fails if and only if some reference has no value; else the environment is overlaid with all values, settings last |
| Execer.Execer.CollectOutputs | internal/outputexec/execer.go:306-343 | publishes exactly the files of the step's directory, or of the copy of it if the runner does not see it, under the step's name; fails, and then publishes nothing, if and only if there is no such copy where one is needed or a file name is no valid key |
| Runs.ActionKeepsSafe | internal/outputexec/execer.go:127-253 | every action of every step keeps the invariant: dependencies returned, only successes published, their directories unchanged since, values read still stand, launched steps have all their values |
| Runs.RunKeepsSafe | internal/outputexec/execer.go:89-111 | the invariant holds in every state of every run, and published outputs never change |
| Runs.LaunchAfterPublication | internal/outputexec/execer.go:185-206 | whatever the dependencies, a step is only launched when every producer it refers to exited with 0 and published; each injected value is what the reference denotes |
| Runs.MayCollect | internal/outputexec/execer.go:229-236 | a step may publish if and only if it has exited with 0, outputs are files, and all its file names are valid keys |
| Runs.CollectAfterExit | internal/outputexec/execer.go:229-236 | in every run, publishing comes after the container has exited with 0, and that after its launch |
| Runs.PublishedAfterSuccess | internal/outputexec/execer.go:229-236 | whatever is published at the end of a run was published by a step whose container has exited with 0 before |
| Runs.PublishedKeysValid | internal/outputexec/execer.go:306-343 | all keys that are ever published are valid |
| Runs.LaunchAfterCollect | internal/outputexec/execer.go:185-206 | in every run, the launch of a step comes after its producers were launched, exited with 0 and published, in this order; a step whose conditions are not met is never launched |
| Runs.LaunchAfterProducers | internal/outputexec/execer.go:106-111 | if the step also depends on the producer, directly or not, in an ordered pipeline, the producer's function has returned as well |
| Runs.EnterAfterReturn | internal/outputexec/execer.go:106-111 | in every run of an ordered pipeline, a step is entered after each producer it depends on has published and then returned |
| Runs.DeliveredForGood | internal/outputexec/execer.go:229-343 | what a launched step was given stays the value of its references for the rest of the run |
| Runs.NoOutputNoLaunch | internal/outputexec/execer.go:290-303 | if a producer returned and the reference denotes nothing, because it did not publish, the key is missing or its lookup is an error, no step with this reference is ever launched |
| Runs.CanLaunch | internal/outputexec/execer.go:185-206 | a step that was entered, and whose references all denote values, has a run that launches it |
| Runs.LaunchesExactly | internal/outputexec/execer.go:185-206 | once a step of an accepted pipeline is entered, some run launches it if and only if all its references denote values at that moment |
| Runs.SelfReferenceNeverLaunches | internal/outputexec/execer.go:290-295 | a step that refers to itself is never launched |
| Runs.LaunchedWithInjected | internal/outputexec/execer.go:255-276 | what a launched step was given, slot by slot, is what injecting all its references at once returns |
| Runs.DirectoryHoldsPatches | internal/stepoutput/stepoutput.go:175-202 | in every run a step's directory is what its patches make of it, from first to last |
| Runs.LaunchedWithWritten | internal/outputexec/execer.go:185-343 | from publishing to injection: each value a step was launched with is what its reference denotes in the patches that the producer applied to an empty directory |
| Runs.LaunchedWithLast | internal/outputexec/execer.go:185-343 | if the producer's last patch sets the key, the step was launched with that value |
| Runs.DetachedNeverPublishes | internal/outputexec/execer.go:196-202 | a detached step has returned as soon as it is launched; its container may go on writing, and nothing of it is ever published |
| Runs.RunIsBounded | internal/outputexec/execer.go:127-253 | the executor's actions in a run are bounded by the steps and their references |
| Runs.NeverStuck | internal/outputexec/execer.go:106-111 | in every reachable state of an ordered pipeline in which some step has not returned, some step can go on |
| Runs.CanFinish | internal/outputexec/execer.go:106-114 | from every safe state of an ordered pipeline some continuation lets every step return |
| Runs.AcceptedRunsNeverBlock | internal/outputexec/execer.go:89-114 | hence in the runs of an accepted and compiled pipeline the number of moves is bounded, some move is allowed as long as some step has not returned, and some continuation lets every step return |
| Runs.ReachedHasReturned | internal/outputexec/execer.go:106-111 | when a step is entered, every step it depends on, directly or not, has returned |
| Runs.ValueSettledAtEntry | internal/outputexec/execer.go:185-191 | a reference to a step that the consumer depends on means the same from the moment the consumer is entered |
| Runs.CompiledReferenceAllowed | engine/resource/parser.go:65-104 | the references of compiled steps are those the parser has allowed, and their dependency is still there |
| Runs.ReferencesAreRaceFree | internal/outputexec/execer.go:89-343 | parser, linter, compiler and executor together: no reference of an accepted pipeline races with its producer, and a consumer is launched only after the producers it refers to published and returned |
| Runs.LaunchOrder | engine/resource/parser.go:61-104 | the story of a launch, for accepted and compiled pipelines: producer launched, exited with 0, published, returned, then the consumer entered, then launched |
| Example.ConsumerLaunches | docs/step-outputs.md:423-432 | the documented consumer, with a producer `build` and without a clone step, which the example leaves open: the pipeline is accepted by parser and linter and compiled, and in some run the consumer is launched with the producer's value; so the assumptions of the results above can be met together |
| Example.UnorderedConsumerLaunchesEarly | internal/outputexec/execer.go:229-246 | without the dependency a consumer can be launched while its producer has published and not yet returned |
| Patches.MergedSet | internal/stepoutput/stepoutput.go:192-199 | setting one more key after a patch is the patch with that key set |
| Patches.MergedUnset | internal/stepoutput/stepoutput.go:204-225 | unsetting one more key after a patch is the patch with that key unset, unless it is an ancestor of a set key |
| Directory.AncestorsFirst | internal/stepoutput/stepoutput.go:183 | in sorted order a key comes after its dotted ancestors |
| Directory.LexExactly | internal/stepoutput/stepoutput.go:183 | the order of the keys: a beginning comes first, otherwise the smaller character at the first difference |
| Directory.SortedKeys | internal/stepoutput/stepoutput.go:179-183 | all keys of the patch, strictly sorted |
| Directory.Dir.Unset | internal/stepoutput/stepoutput.go:204-225 | removes exactly the key and the keys that continue its segments, at every depth, or fails on a malformed key and changes nothing |
| Directory.Dir.Put | internal/stepoutput/stepoutput.go:192-199 | the key gets the value, and a stored value under the staging name is lost |
| Directory.Dir.ApplyPatch | internal/stepoutput/stepoutput.go:175-202 | the directory is there and becomes the closed form: old values without what was unset or staged over, overridden by what was set; on a malformed unset key, for exactly the entries whose keys come before it |
| Directory.Dir.Load | internal/stepoutput/stepoutput.go:227-251 | gives exactly the stored values, or fails if and only if some name is no valid key |
| Directory.PatchedExactly | internal/stepoutput/stepoutput.go:193-199 | the closed form is the intended merge if and only if no stored value that the patch leaves alone has the name of a staging file |
| Directory.StagingDestroys | internal/stepoutput/stepoutput.go:193-199 | setting `a` over a stored `a.tmp` loses it, where the intended merge keeps it |
| PatchOps.PatchToOps | internal/stepoutput/ops.go:5-23 | exactly one operation for every entry, in whatever order they come |
| PatchOps.ApplyAll | internal/outputservice/service.go:116-132 | applies the operations up to the first invalid one, and reports whether there was one |
| PatchOps.RequestPassesExactly | internal/outputproto/proto.go:35-70 | the request for a patch is accepted if and only if it has a token and the patch is not empty and has no blank key; then no operation is invalid |
| PatchOps.AnyOrderMerges | internal/outputservice/service.go:116-132 | in any order, the operations of a patch do what the patch is meant to do, unless an unset key is an ancestor of a set one |
| PatchOps.ConflictingOrder | internal/outputservice/service.go:125-130 | if it is, the order that unsets last loses a set value |
| PatchOps.OrderIndependentExactly | internal/outputservice/service.go:116-132 | all orders do what the patch is meant to do if and only if no unset key is an ancestor of a set one |
| Flatten.NormalizeKeepsLeaves | internal/stepoutput/stepoutput.go:378-409 | normalizing changes no leaf |
| Flatten.NormalizeKeepsErrors | internal/stepoutput/stepoutput.go:378-409 | a value can be flattened if and only if its normal form can |
| Flatten.NormalizeTwice | internal/stepoutput/stepoutput.go:378-409 | normalizing again, as the recursion does, changes nothing |
| Flatten.LeafAtExactly | internal/stepoutput/stepoutput.go:338-376 | the leaves are exactly the nulls and the scalars that indices into lists and keys into maps lead to |
| Flatten.FlattenableExactly | internal/stepoutput/stepoutput.go:338-376 | flattening fails if and only if somewhere inside is an unsupported value or an invalid key of a map |
| Flatten.RootFlattenableExactly | internal/stepoutput/stepoutput.go:147-173 | at the root a map is needed as well, and only string keys |
| Flatten.WalkOfNormal | internal/stepoutput/stepoutput.go:378-409 | normalizing changes no walk |
| Flatten.WalkOverlays | internal/stepoutput/stepoutput.go:338-376 | every walk overlays the patch with an entry for every leaf, and nothing more |
| Flatten.FlattenInto | internal/stepoutput/stepoutput.go:338-376 | fails if and only if a value is unsupported or a map key invalid; else does one of the walks through the value, lists from front to back and maps in some order |
| Flatten.FlattenItems | internal/stepoutput/stepoutput.go:357-362 | the same for the loop over a list |
| Flatten.FlattenEntries | internal/stepoutput/stepoutput.go:363-371 | the same for the loop over a map, in whatever order |
| Flatten.FlattenUnder | internal/stepoutput/stepoutput.go:136-145 | succeeds if and only if prefix and value are fine, with the result of a walk |
| Flatten.FlattenRoot | internal/stepoutput/stepoutput.go:147-173 | succeeds if and only if the value is a map with valid string keys and fine values, with the result of a walk |
| Flattened.SuffixInjective | internal/stepoutput/stepoutput.go:357-371 | paths of names without dots are told apart by their keys |
| Flattened.KeysAreJoined | internal/stepoutput/stepoutput.go:338-376 | keys are the names on the way to the leaf, joined by dots |
| Flattened.FlattenedExactly | internal/stepoutput/stepoutput.go:338-376 | without dots in map keys: one entry for each leaf with its value and no other, all keys valid, no key an ancestor of another |
| Flattened.LeafCanWin | internal/stepoutput/stepoutput.go:338-376 | for every leaf there is an order of the map entries in which its key ends up with its value |
| Flattened.OrderIrrelevantExactly | internal/stepoutput/stepoutput.go:363-371 | the result does not depend on the order of map entries if and only if no two leaves with different contents have the same key |
| Flattened.RootOrderIrrelevantExactly | internal/stepoutput/stepoutput.go:147-173 | the same at the root |
| Flattened.FlattenedTheSame | internal/stepoutput/stepoutput.go:363-371 | without dots in map keys the order of the map entries does not matter |
| Flattened.DottedKeysCompete | internal/stepoutput/stepoutput.go:363-371 | a value with a dot in a map key, and its two entries walked through in both orders: the results differ |
| ServiceModel.ServiceImplements | internal/outputservice/service.go:58-182 | after every interleaving the service is in step with the machine without objects, pointers and collector |
| ServiceModel.SameAnswers | internal/outputservice/service.go:85-153 | the same lookups succeed, and the same values are read, as in that machine |
| ServiceModel.CollectionUnobservable | internal/outputservice/service.go:168-182 | running the collector at any point changes no result of any later lookup or resolve |
| ServiceModel.DeletedStaysEmpty | internal/outputservice/service.go:74-83 | after a deletion nothing is found until the pipeline is registered again, whatever calls are under way |
| ServiceModel.CommitTakesEffectExactly | internal/outputservice/service.go:109-133 | a commit is visible if and only if its call is in flight, and then exactly in its own pipeline and step |
| ServiceModel.LiveExactly | internal/outputservice/service.go:85-107 | the calls of the simpler machine are exactly those in flight: whose lookup succeeded, and whose pipeline was neither deleted nor registered since, and that have not committed |
| ServiceModel.ValuesFollowRegistration | internal/outputservice/service.go:58-153 | what is read after a registration, until the next one or a deletion, is exactly what the commits since then have written whose calls are in flight, and the lookups of these calls all followed the registration; nothing if the pipeline has expired |
| ServiceModel.TokenInvariant | internal/outputservice/service.go:58-107 | in every reachable state the pipeline of a live token is present and expires no earlier; its lookup succeeds as long as time permits |
| ServiceModel.TokenLifetime | internal/outputservice/service.go:103-105 | a token that was used keeps working for a whole renewal period, through everything but deletion of its pipeline or giving the token away |
| ServiceModel.TokenExpires | internal/outputservice/service.go:184-186 | a token that is neither used nor granted for longer than a renewal period stops working |
| ServiceModel.PipelineExpires | internal/outputservice/service.go:136-145 | a pipeline that is neither registered nor written to for longer than a renewal period reads as empty, for every key |
| ServiceModel.CollectionLeavesLive | internal/outputservice/service.go:168-182 | a collection leaves exactly the entries that have not expired, unchanged |
| ServiceModel.FailedLookupRemoves | internal/outputservice/service.go:88-101 | after a lookup that fails, the token is gone or its pipeline is |
| OutputService.Service.constructor | internal/outputservice/service.go:39-52 | starts empty, with the default renewal period if none is given |
| OutputService.Service.GrantTokens | internal/outputservice/service.go:66-71 | every step's token is registered; of steps that share one, one gets it |
| OutputService.Service.RegisterPipeline | internal/outputservice/service.go:58-72 | does to the state what the model's registration does, with a new object |
| OutputService.Service.DeletePipeline | internal/outputservice/service.go:74-83 | does to the state what the model's deletion does |
| OutputService.Service.ApplyLookup | internal/outputservice/service.go:86-107 | the first critical section: succeeds if and only if the lookup does, renews or removes entries, and returns the object |
| OutputService.Service.ApplyCommit | internal/outputservice/service.go:109-133 | the second critical section: changes one step's values in the object it was given, in place |
| OutputService.Service.Apply | internal/outputservice/service.go:85-134 | both without anything in between |
| OutputService.Service.Resolve | internal/outputservice/service.go:136-153 | what a consumer reads in the model's state |
| OutputService.Service.Prune | internal/outputservice/service.go:168-182 | removes exactly the expired entries |
| Backends.BackendsAgreeExactly | internal/stepoutput/stepoutput.go:175-202 | directory and service agree on a patch, for every order of operations, if and only if no unset key is above a set one and staging destroys nothing |
| Backends.MalformedUnsetIsIdle | internal/stepoutput/stepoutput.go:204-207 | a malformed key has no effect on either side |
| Backends.BackendsAgree | internal/outputservice/service.go:109-133 | over any number of orderly patches the two transports hold the same values |
| Backends.HistoryAgrees | internal/outputservice/service.go:85-153 | in every interleaving: if the calls in flight since a registration have committed the operations of orderly patches, a consumer reads what the patches make of an empty directory |
| Backends.LastPatchDecides | internal/stepoutput/stepoutput.go:253-264 | a key that the last patch sets denotes its value; a key that it unsets denotes none, unless it looks like a negative index |
| Backends.ConsumersAgree | internal/outputexec/execer.go:278-304 | if the service holds what was collected, a reference resolves the same through either transport |
| Backends.RequestKeepsHolding | internal/outputservice/service.go:85-134 | a request with a live token applies its operations to the values of the token's step |
| Backends.PublishBoth | internal/stepoutput/stepoutput.go:175-251 | the code of both sides, run on the same patches: loading the directory gives what a consumer reads from the service |
| Flattened.RootFlattenedExactly | internal/stepoutput/stepoutput.go:147-173 | flattening at the root: one entry for each leaf with its value and no other, all keys valid, no key an ancestor of another |
| Backends.ConsumeBoth | internal/outputexec/execer.go:278-343 | one executor that collects the directory and one that asks the service resolve a reference to the same value |
| Backends.RegisterAndPublish | internal/outputservice/service.go:58-72 | from registering a pipeline over publishing to resolving, over any transport but files: both give what the reference denotes in the patches; for a key of the last patch, that is its value in it |
| Published.FlattenedIsOrderly | internal/stepoutput/stepoutput.go:136-145 | a flattened value without dots and `tmp` in its map keys is a patch on which both transports agree |
| Published.SettingAgrees | command/output.go:36-46 | a structured `set` is stored the same by both transports: each leaf under its own key, and no null under its; and each scalar is read back by its key |
| Published.NothingBelow | internal/stepoutput/stepoutput.go:215-218 | after a key is unset nothing is left below it, at any depth |
| Published.UnsetUndoesSetting | internal/stepoutput/stepoutput.go:204-225 | setting a structured value and then unsetting its key is unsetting the key, with either transport; if nothing was there before, everything is as it was |
| Published.ScalarsSet | internal/stepoutput/stepoutput.go:357-362 | flattening a list of scalars sets its items, and nothing else |
| Published.NegativeIndexAfterSet | internal/stepoutput/stepoutput.go:253-292 | after a list is set where another one was, `-n` counts from the end of the longer of the two |

## Left out

- The HTTP and Unix transports, their JSON encoding, and the choice of the transport. That requests are validated before they are applied is all that is kept of them.
- Docker itself: containers, images, log tailing, copying outputs out of a container, volumes, networks, secrets and their masking.
- Decoding JSON, YAML, TOML and env files, and printing numbers and booleans: flattening starts from a tree whose scalars are texts.
- The tests for trivial values and file formats in the helper, its command line, and its environment variables.
- The rest of the compiler: environment merging, workspace, labels, scripts, privileges, registry credentials, internal steps, the random tokens of `engine/compiler/compiler.go:442-457`, and the rule that a mounted repository skips the clone step.
- Nil steps, which parser and linter reject; every step of the model is there. The conditions of a step are one flag, `matches`.
- The graph runner is a library. It is assumed to call each step's function at most once, and only after the functions of all its dependencies have returned.
- The state, reporter, streamer, semaphore and cancellation of the executor: any step may give up before it is launched, and may return without publishing after it has exited.
- Linter.CheckSteps: the rules for a single step (image, privileges, devices, DNS, network, volumes) are one flag, `plain`, because each only looks at one field.
- Execer.Execer.InjectOutputs: with the service, all references are resolved at one reading of the clock and in one state; the runs in `Runs` resolve them one by one, in file mode.
- Execer.Execer.CollectOutputs: how the engine copies the files out of the container; the copy is a directory, which is empty if the container has none.
- Runs.LaunchedWithWritten: takes the steps to have a directory each, into which only their own container writes. The directory is the step's name joined to a root, so names that are the same as paths, such as `x` and `./x`, share one; neither parser nor linter excludes such names.
- Runs.AcceptedRunsNeverBlock: what is allowed, not what the runner does; it is only assumed to call each function at most once.
- Compiler.ConvertOutputSettings: upper-cases ASCII letters only, where Go maps all of Unicode.
- Runs.ReferencesAreRaceFree: one pipeline on a fresh executor with empty output directories, in file mode. The executor never clears its outputs, and the service publishes values at once, whether their step succeeds or not; the code promises nothing for these cases.
- OutputService.Service.Resolve: releases the pipeline's lock before it reads the values; here the read is part of the same step.
- OutputService.Service.Apply: as a single method nothing comes in between; interleavings are in `ServiceModel`, where its two critical sections are two events.
- StdCopy.StdCopy: the two refill loops, growing, and moving the rest are methods of their own; the number of bytes written is unbounded, and `int` is taken to have 64 bits, so that every length in a header is a length.
- StdCopy.StdWriter.Write: the pool that the buffer comes from.
- Directory.Dir.ApplyPatch: a flat directory of regular files whose operations do not fail; names are not limited in length. A key that is set has to be a file name, without a slash: other keys would leave the directory, and no caller passes one, because flattening only gives valid keys.
- Text.AtoiOfItoa: for numbers that fit in a 64-bit integer, which is also the limit of the parser in the model.
- Strings are sequences of Unicode characters, not of UTF-8 bytes, which need not be valid.
