# A verified model of the isolate sandbox runtime

The isolate runtime runs WebAssembly modules in sandboxes. Around the engine it has a number of
algorithms and state machines of its own; this project models them in Dafny, one module or group
of modules for each, and proves what they promise.

* **Pipelines** (`PipelineGraph`, `PipelineBuild`, `PipelineBuilder`, `PipelineExecute`,
  `PipelineRuns`). The builder records stages and edges and fills a forward and a reverse map; a
  topological sort by in-degrees decides whether there is a cycle; execution runs the stages in
  that order, with retries, and routes each stage's stdin. A sandbox run is an oracle giving the
  outcome of each attempt. Schedules, and in particular maximal ones, are the specification of the sort:
  they make the verdict independent of hash-map order. The end result is stated in terms of the
  declared edges alone.
* **The import reader** (`Leb128`, `WasmImports`, `ImportKinds`, `TableImports`,
  `WrappedSections`, `Sorting`, `PolicyAnalysis`). The decoder and the encoder
  of unsigned LEB128 (WebAssembly Core Specification, section 5.2.2), the reader of the import
  section and a printer for the format (sections 5.5.2 and 5.5.5), with the round trip between
  them, and the risk report made from the imports.
* **The cold-start cache** (`ColdStart`, `ColdStartGuarantee`, `ColdStartInterleaved`,
  `ColdStartMixes`, `ColdStartDigests`). Precompile, load and remove as tasks over files that are inodes, one byte per
  step, in any interleaving and with crashes and lost data; the exact conditions under which a load can
  be trusted.
* **The output sanitizer** (`Utf8`, `Sanitizer`). The escape-sequence filter and the truncation on
  a character boundary.
* **State machines and bounded stores** (`CircuitBreaker`, `TimingStats`, `SandboxLifecycle`,
  `ModuleRegistry`, `SandboxKv`, `Retry`, `ConfigFile`), each a class or loop proved against a
  simple specification, with the properties of that specification over all histories or inputs.

`Common`, `Powers`, `SetSum`, `ByteTotals` and `Text` hold what several of them share.

## Where the code and its documentation differ

The model follows the code.

* The reader skips a table import's descriptor by a fixed number of bytes
  (isolate-core/src/policy_gen.rs:314). This is right exactly for tables without a maximum and with a
  one-byte minimum. The round trip is proved for all lists in which only the last descriptor may be
  another one. After any other table, some next import is reported wrong, or panics the reader on a valid
  module (`ContinuesRightIffSkipFits`, `LongTableTraps`); some pass by chance. `LongTableMisleads`,
  `LargeMaximumTraps` and `LongTableCanPass` are modules of each kind.
* Section positions are added up without a check (isolate-core/src/policy_gen.rs:339). Where additions
  wrap around, a section size can send the reader back for ever; `WrappedSections` says exactly when.
* The documentation of the cold-start cache calls the digest file a commit marker
  (isolate-core/src/coldstart.rs:116-120). Writers of one name may interleave within the digest
  file, so a digest without collisions is not quite enough; the exact condition is `SpliceFree`, and it
  holds when all precompiles of a name serialize alike. If nothing is lost and only given serializations
  are ever begun, the exact condition is `MixFree`. As far as the digests of the given serializations can
  tell, it is `SpliceClosed`; for two of them, that their digests differ in at most one character.
* The sanitizer says that a sequence ends at a byte from 0x40 to 0x7E
  (isolate-core/src/ai_sandbox.rs:340), but only letters and the tilde end it, and a sequence that nothing
  ends swallows the rest of the text.
* The timing buffer's slot is taken after the count is incremented (isolate-core/src/metrics.rs:406-416), so
  between 1000 and 2000 samples the buffer is not the last 1000.
* `average` narrows the count to 32 bits, so it is not the mean from 2^32 samples on, and divides by
  zero at multiples of 2^32 (isolate-core/src/metrics.rs:429).
* `run` is documented to end in Terminated in any case (isolate-core/src/sandbox.rs:801), but a failed
  instantiation leaves the sandbox in Running (isolate-core/src/sandbox.rs:874-892), and nothing leads
  out of it again.
* The delay between a pipeline stage's retries is a checked multiplication (isolate-core/src/pipeline.rs:333),
  so `execute` panics if a stage goes on failing with a base delay that is too long.
* `wrapping_shl` takes its distance modulo 32 (isolate-core/src/retry.rs:86), so delays start over at
  attempt 32.
* The registry evicts before it checks storage and signature (isolate-core/src/module_registry.rs:154-165).
* `parse_size` is described as case-insensitive, but mixed-case units are rejected
  (isolate-core/src/config.rs:1525, 1537-1555).
* `topological_order` alone can return Ok on an ill-formed definition with a cycle
  (isolate-core/src/pipeline.rs:244-248); together with the endpoint check the verdict is exact.
* `execute` consults neither branch conditions nor retry exit codes nor stage timeouts
  (isolate-core/src/pipeline.rs:300-354).
* A breaker threshold of 0 acts as 1, and a registry limit of no modules still lets one in.

## Model

| member | source | states |
|---|---|---|
| PipelineGraph.MaximalSchedulesAgree | isolate-core/src/pipeline.rs:215-249 | All maximal schedules of a definition have the same stages and the same length, so the verdict of the sort does not depend on hash-map iteration order |
| PipelineGraph.StuckIsMaximal | isolate-core/src/pipeline.rs:229-242 | A schedule outside which every node still waits for a node outside it contains every node that any schedule contains |
| PipelineGraph.CompleteScheduleIsAcyclic | isolate-core/src/pipeline.rs:244-248 | If a schedule lists every node, the edge relation has no directed cycle (soundness of the verdict) |
| PipelineGraph.StuckSetIsCyclic | isolate-core/src/pipeline.rs:244-246 | A non-empty set in which every node has a predecessor contains a directed cycle, by walking backwards and the pigeonhole principle (completeness of the verdict) |
| PipelineGraph.ScheduleCountsDecide | isolate-core/src/pipeline.rs:244-248 | For a well-formed definition, a maximal schedule has as many nodes as there are stages if and only if the edges have no cycle |
| PipelineGraph.CountCanCoincide | isolate-core/src/pipeline.rs:244-270 | A concrete ill-formed definition on which the count comes out right although there is a cycle: the endpoint check is needed as well |
| PipelineBuild.InDegrees | isolate-core/src/pipeline.rs:216-224 | The table's keys are exactly the stages and edge targets, and each entry is the number of edges into that node, duplicates counted |
| PipelineBuild.ZeroDegreeNodes | isolate-core/src/pipeline.rs:226-227 | The first queue lists each node without incoming edges exactly once, and no other |
| PipelineBuild.ReleaseTargets | isolate-core/src/pipeline.rs:232-241 | Taking off a node's out-edges never goes below zero, and queues exactly the targets whose last pending edge goes, each once |
| PipelineBuild.TopologicalOrder | isolate-core/src/pipeline.rs:215-249 | For every definition, well-formed or not: Ok is a maximal schedule (each node once, after all its predecessors) as long as there are stages; HasCycle means that maximal schedules have another length |
| PipelineBuild.Validate | isolate-core/src/pipeline.rs:252-273 | Ok if and only if there is a stage, every edge endpoint is a stage and there is no directed cycle; a missing stage is named only if an edge mentions it and it is missing |
| PipelineBuilder.Builder.constructor | isolate-core/src/pipeline.rs:410-412 | A new builder has no stages and no edges |
| PipelineBuilder.Builder.AddStage | isolate-core/src/pipeline.rs:415-418 | The stage is stored under its id, replacing an earlier one; edges are untouched |
| PipelineBuilder.Builder.AddEdge | isolate-core/src/pipeline.rs:426-446 | The edge is appended in declaration order, unchecked; stages are untouched |
| PipelineBuilder.Builder.BranchOnExit | isolate-core/src/pipeline.rs:449-468 | Two stdout edges are appended, the one for exit code 0 first |
| PipelineBuilder.Builder.FillMaps | isolate-core/src/pipeline.rs:472-478 | The forward and the reverse map list the declared edges per key in declaration order, with no empty entries |
| PipelineBuilder.Builder.Build | isolate-core/src/pipeline.rs:471-483 | Ok if and only if there is a stage, every declared endpoint is known and the declared edges have no closed walk (self-loops and duplicates included); the result represents the declarations |
| PipelineBuilder.EdgesAreDeclared | isolate-core/src/pipeline.rs:472-478 | Forward map, reverse map and declarations all have the same edge relation |
| PipelineBuilder.OneMoreDeclaration | isolate-core/src/pipeline.rs:472-478 | A declaration adds its target, flow and condition at the end of its source's list, and its source at the end of its target's list, and changes no other |
| PipelineBuilder.WellFormedIffKnown | isolate-core/src/pipeline.rs:261-270 | The definition is well-formed if and only if every declared endpoint is a stage |
| PipelineBuilder.CyclicIffDeclared | isolate-core/src/pipeline.rs:244-246 | The definition has a cycle if and only if the declared edges have one |
| PipelineBuilder.MissingStageIsDeclared | isolate-core/src/pipeline.rs:261-270 | A stage that the definition mentions in an edge is an endpoint of a declared edge |
| PipelineExecute.RunStage | isolate-core/src/pipeline.rs:309-335 | The result is that of the first attempt that is not retryable, or of attempt max_retries, unless the delay after an earlier attempt is not representable and panics; a failure to create the sandbox ends the loop at once; the retry count is that attempt's index |
| PipelineExecute.StageOutcomeUnique | isolate-core/src/pipeline.rs:309-335 | The outcomes of the attempts determine output, error and retry count |
| PipelineExecute.FactorIsSaturated | isolate-core/src/pipeline.rs:333 | The factor of the delay after attempt a is 2^a, but at most 2^32 - 1 |
| PipelineExecute.StageYieldsIff | isolate-core/src/pipeline.rs:309-335 | An output with n retries if and only if attempt n ran with it, exited with 0 or was the last allowed, and attempts 0 to n-1 failed with delays, base times min(2^a, 2^32 - 1), that are representable |
| PipelineExecute.StageErrsIff | isolate-core/src/pipeline.rs:309-335 | A sandbox error if and only if some attempt reached in that way could not create its sandbox, or failed as the last allowed one |
| PipelineExecute.StagePanicsIff | isolate-core/src/pipeline.rs:309-335 | A panic if and only if some attempt reached in that way, but not the last allowed, failed, and base times min(2^n, 2^32 - 1) exceeds the longest duration |
| PipelineExecute.NeverPanicsIff | isolate-core/src/pipeline.rs:332-334 | Whatever the sandboxes do, no panic, if and only if there are no retries or base times min(2^(max_retries - 1), 2^32 - 1) is representable |
| PipelineExecute.FirstUsableEdge | isolate-core/src/pipeline.rs:380-393 | The loop over one upstream's out-edges finds the first usable edge to the stage, as the reference routing defines it |
| PipelineExecute.ResolveStageInput | isolate-core/src/pipeline.rs:366-398 | The nested loops deliver what the reference routing selects |
| PipelineExecute.Execute | isolate-core/src/pipeline.rs:285-363 | Ok: the results are those of a prefix of a complete execution order, each with the outcome its retries yield on its routed stdin, complete with all exit codes zero or stopped at the first non-zero one; Err: where and why the run ended |
| PipelineRuns.FirstVia | isolate-core/src/pipeline.rs:380-393 | Among the out-edges of its source, the first declared edge into a stage is the one routing settles on |
| PipelineRuns.FirstUpstream | isolate-core/src/pipeline.rs:472-478 | The reverse map lists the source of the first declared edge first |
| PipelineRuns.FirstEdgeRoutes | isolate-core/src/pipeline.rs:366-398 | Once its source has run, or if it passes the input through, the first declared edge into a stage decides its stdin, whatever else is declared |
| PipelineRuns.UpstreamSucceeded | isolate-core/src/pipeline.rs:285-363 | In every execution of a built pipeline, each upstream of a stage that ran has run earlier with exit code 0 |
| PipelineRuns.StdinFollowsDeclarations | isolate-core/src/pipeline.rs:366-398 | In every such execution a stage gets its stdin from its first declared incoming edge (that source's stdout, or the pipeline input); the routing loops find an edge if and only if there is an upstream, and a stage without one has left before them, so the fallback behind the loops is never reached |
| PipelineRuns.ExecutionsOfBuiltPipelines | isolate-core/src/pipeline.rs:285-363 | The stages run are a prefix of a topological order of all stages, upstreams first, each on its declared stdin; all but the last exited with 0; success if and only if all stages ran with exit code 0; the failed stage is the last one run |
| PipelineRuns.ErrorsOfBuiltPipelines | isolate-core/src/pipeline.rs:285-363 | A built pipeline never fails with a cycle or a missing stage: an execution ends early only at a stage whose upstreams all exited with 0 and whose attempts on its declared stdin failed, by its error or by a delay that panics |
| PipelineRuns.EntryAndExitDeclared | isolate-core/src/pipeline.rs:189-199 | The entry stages are those into which no edge is declared, the exit stages those out of which none is |
| PipelineRuns.OrdersRunFromEntryToExit | isolate-core/src/pipeline.rs:189-199 | Every execution order of a built pipeline starts at an entry stage and ends at an exit stage |
| Leb128.NextGroup | isolate-core/src/policy_gen.rs:391-393 | Or-ing a seven-bit group in at its shift adds it modulo 2^64; of a tenth group only the lowest bit survives |
| Leb128.LengthUnique | isolate-core/src/policy_gen.rs:394-396 | The reader stops at the first byte without the continuation bit, if it is among the first ten |
| Leb128.ReadLeb128 | isolate-core/src/policy_gen.rs:383-405 | On arbitrary bytes: the value is the reference reading modulo 2^64, and at most ten bytes, and never more than there are, are consumed |
| Leb128.EncodeSize | isolate-core/benches/engine.rs:73-87 | The encoder loop yields the recursive encoding of its argument |
| Leb128.EncodeMeaning | isolate-core/benches/engine.rs:73-87 | The encoding denotes the number, and exactly its last byte lacks the continuation bit |
| Leb128.EncodeLength | isolate-core/benches/engine.rs:73-87 | A number below 2^(7k) takes at most k bytes |
| Leb128.ReadEncode | isolate-core/src/policy_gen.rs:383-405 | For every 64-bit n and any trailing bytes, reading the encoding of n gives n and the exact encoded length |
| ImportKinds.ThreeByteNumber | isolate-core/src/policy_gen.rs:383-405 | 624485 is E5 8E 26, whatever follows |
| WasmImports.ReadEntries | isolate-core/src/policy_gen.rs:285-335 | The entry loop computes the recursive reading of a given number of imports, including every out-of-range read |
| WasmImports.ExtractImports | isolate-core/src/policy_gen.rs:257-344 | With checked additions, the section loop computes the recursive reading of a module; position overflow is a trap |
| WasmImports.SkipIsExact | isolate-core/src/policy_gen.rs:304-329 | The reader's position after a printed descriptor is its exact end if and only if it is no table, or a table without maximum and with a one-byte minimum |
| WasmImports.ImportAt | isolate-core/src/policy_gen.rs:290-334 | A printed import is read back with its names and WASI flag; the reader's position after it is its exact end if and only if the fixed skip fits its descriptor |
| WasmImports.ImportsAt | isolate-core/src/policy_gen.rs:285-335 | A printed list of imports is read back in order; only the last descriptor may be one that the fixed skip does not fit |
| WasmImports.SectionsAt | isolate-core/src/policy_gen.rs:264-278 | Sections other than the import section are stepped over exactly |
| WasmImports.ExtractPrinted | isolate-core/src/policy_gen.rs:257-344 | Parsing undoes printing: after any 8-byte header, any other sections and before any tail, exactly the declared imports are reported, nothing is read out of range, and the reader stops where the section ends |
| WasmImports.ReportedWasiIff | isolate-core/src/policy_gen.rs:331-332 | In every module that is read at all, an import is reported as WASI if and only if its module name begins with wasi_snapshot_preview1 or wasi: |
| WasmImports.PrintedWasiIff | isolate-core/src/policy_gen.rs:257-344 | So in every printed module, import k is reported under its declared names, and as WASI if and only if it was declared under such a module name |
| ImportKinds.MemoryByLowestBit | isolate-core/src/policy_gen.rs:315-325 | A memory of any flags, shared or not, is stepped over exactly: one number, and a second one if the lowest bit is set |
| ImportKinds.OtherKinds | isolate-core/src/policy_gen.rs:304-329 | What is stepped over for functions, tables, globals and unknown kinds, on arbitrary bytes; a descriptor at the section's end is not read |
| ImportKinds.FourKindsAreRead | isolate-core/src/policy_gen.rs:257-344 | A module with a function, a shared memory, a global and a table, byte by byte, and what is reported of it |
| TableImports.PrefixRead | isolate-core/src/policy_gen.rs:285-335 | Imports whose descriptors the skip fits are read back, and whatever follows is read from exactly where they end |
| ImportKinds.CountOrEnd | isolate-core/src/policy_gen.rs:285-288 | The reader stops at the declared count or at the end of the section, whichever comes first |
| TableImports.NextIsMisread | isolate-core/src/policy_gen.rs:304-314 | After a table the skip does not fit, the next import is reported under a wrong module name, or the reader panics, unless its module name is exactly as long as the first number left over in the table's limits |
| TableImports.NextTraps | isolate-core/src/policy_gen.rs:290-299 | It panics if that number exceeds the bytes behind it |
| TableImports.LongTableTraps | isolate-core/src/policy_gen.rs:257-344 | So every valid module in which such a table is followed by one more import that is short enough makes the reader panic |
| TableImports.ContinuesRightIffSkipFits | isolate-core/src/policy_gen.rs:257-344 | After imports the skip fits, one more import of any kind leaves every continuation of the module reported right if and only if the skip fits it too |
| TableImports.MisleadingIsPrinted | isolate-core/src/policy_gen.rs:314 | The two modules of the next two rows are what the printer makes of a bounded table import and a function import |
| TableImports.LongTableMisleads | isolate-core/src/policy_gen.rs:314 | In the first, the reader reports a wrong module name for the function: a concrete module whose imports are not reported right |
| TableImports.LongTableCanPass | isolate-core/src/policy_gen.rs:314 | In the second, everything is reported right by chance although the table is too long for the skip: that is why the exact condition speaks of all continuations |
| TableImports.LargeMaximumTraps | isolate-core/src/policy_gen.rs:257-344 | A third, with maximum 127, makes the reader panic |
| WrappedSections.ExtractWrapping | isolate-core/src/policy_gen.rs:262-344 | With wrapping additions: whenever the section loop ends at all, what is returned, after at most as many rounds as there are bytes |
| WrappedSections.EndsIffEndsSoon | isolate-core/src/policy_gen.rs:264-340 | The loop ends if and only if it does within as many rounds as there are bytes, on arbitrary bytes |
| WrappedSections.EndsIffNeverBack | isolate-core/src/policy_gen.rs:264-340 | It ends if and only if it never comes back to a section that it has passed |
| WrappedSections.EndlessNeedsHugeSize | isolate-core/src/policy_gen.rs:273-339 | A loop that never ends meets a section size less than the module's length short of 2^64 |
| WrappedSections.EndlessModule | isolate-core/src/policy_gen.rs:273-339 | Every module whose first section, of any kind but imports, has size 2^64 - 11 sends the loop back to that section for ever, whatever follows |
| WrappedSections.WrappingAgrees | isolate-core/src/policy_gen.rs:262-344 | Wherever the checked reader does not trap, the wrapping one ends with the same result |
| WasmImports.CreatePaddedWasm | isolate-core/benches/engine.rs:59-99 | The output is the bare header up to 18 bytes, and beyond that the header and one custom section of the right size |
| WasmImports.PaddedSize | isolate-core/benches/engine.rs:59-99 | The module is four bytes short of the target size, but for the bytes that the section size takes |
| WasmImports.PaddedHasNoImports | isolate-core/src/policy_gen.rs:257-344 | For every padding, the reader finds no import in a padded module and ends exactly at its end |
| Sorting.SortSorts | isolate-core/src/policy_gen.rs:241 | The stable sort returns a sorted permutation |
| PolicyAnalysis.ScanPatterns | isolate-core/src/policy_gen.rs:196-221 | For one import, its matching patterns append, in table order, exactly a suggestion each and a concern from High on, and raise the risk |
| PolicyAnalysis.Scan | isolate-core/src/policy_gen.rs:193-238 | After all imports, both lists are exactly the expected ones, in order and multiplicity, and with the risk they summarise exactly the matches and the non-WASI imports |
| PolicyAnalysis.DedupByCapability | isolate-core/src/policy_gen.rs:242 | From a sorted list, the result is strictly sorted, covers every capability, and keeps the first element of each |
| PolicyAnalysis.LexLeqIff | isolate-core/src/policy_gen.rs:241 | Capabilities are ordered by their first difference, a prefix coming first |
| PolicyAnalysis.SortIsStable | isolate-core/src/policy_gen.rs:241 | Sorting keeps the order of the suggestions for one capability, so the first one found is the one kept |
| PolicyAnalysis.ConcernsAreExact | isolate-core/src/policy_gen.rs:208-238 | A concern is reported if and only if it is a match of High or more, or a non-WASI import, and none exceeds the risk |
| PolicyAnalysis.RiskIsExact | isolate-core/src/policy_gen.rs:190-238 | The overall risk is the exact maximum of Low, the matched risks, and Medium if an import is not WASI; the concerns are exactly the High matches and foreign imports, none above it |
| PolicyAnalysis.SuggestionsAreExact | isolate-core/src/policy_gen.rs:241-242 | The suggestions are strictly sorted by capability, each the first match found for it, and cover exactly the matched capabilities |
| PolicyAnalysis.RiskIsByCases | isolate-core/src/policy_gen.rs:190-238 | Critical if a critical pattern has module and name of an import; else High if a high one has; else Medium if a medium one has, or an import's module is not named as WASI; else Low |
| PolicyAnalysis.ConcernsAreByCases | isolate-core/src/policy_gen.rs:208-238 | The concerns are one kind for each such import with a high or critical pattern, and one of medium risk for each import not named as WASI, and nothing else |
| PolicyAnalysis.LowModules | isolate-core/src/policy_gen.rs:190-238 | A module that imports only under WASI names and nothing above low risk is Low, with no concern |
| PolicyAnalysis.SuggestionsAreFirstHits | isolate-core/src/policy_gen.rs:193-242 | Each suggestion is that of the first pair of import and pattern for its capability, imports first |
| PolicyAnalysis.ModuleAnalyzer.Analyze | isolate-core/src/policy_gen.rs:186-254 | For every module and pattern table: no report if and only if reading traps; else the imports read, flagged by their module names, and risk, concerns and suggestions as in the rows above |
| ColdStart.StepKeepsInv | isolate-core/src/coldstart.rs:104-204 | One small step of any precompile, load or remove keeps the invariant: every digest file holds, position by position, characters of digests of serializations completely written under its name, or zeros |
| ColdStart.RunKeepsInv | isolate-core/src/coldstart.rs:104-204 | So does every run: any number of interleaved tasks, crashes anywhere, module data damaged at will, digest files that lose data or get any earlier content back in part or whole, directory entries that are lost or come back |
| ColdStartGuarantee.SoloLoad | isolate-core/src/coldstart.rs:143-185 | An undisturbed load reports none for a missing module file, an error for a missing or different digest, and the module file's bytes otherwise |
| ColdStartGuarantee.VerdictInPlainTerms | isolate-core/src/coldstart.rs:143-185 | That verdict is none if and only if there is no module file, and bytes if and only if both files exist, these are the module file's, and their digest is the trimmed content of the digest file |
| ColdStartGuarantee.VanishedModuleFails | isolate-core/src/coldstart.rs:154 | A module file that vanishes between the check and the opening is an error |
| ColdStartGuarantee.PrecompileThenLoad | isolate-core/src/coldstart.rs:104-185 | From any reachable or unreachable state, an undisturbed precompile leaves files from which the next load reports exactly what was written |
| ColdStartGuarantee.RemoveThenLoad | isolate-core/src/coldstart.rs:193-204 | An undisturbed remove leaves nothing to load |
| ColdStartGuarantee.TornPrecompileFails | isolate-core/src/coldstart.rs:116-128 | A precompile of a new name that is torn anywhere in its module file leaves only an error to load |
| ColdStartGuarantee.TornRemoveIsEnough | isolate-core/src/coldstart.rs:193-202 | A remove that is torn between its two files leaves nothing to load |
| ColdStartGuarantee.ReportedIsSplice | isolate-core/src/coldstart.rs:143-185 | In every run, what a load reports has a digest each character of which is that of some serialization completely written under the same name |
| ColdStartGuarantee.SpliceIsReported | isolate-core/src/coldstart.rs:104-185 | Conversely, any byte string with such a digest is reported in some run, even one in which nothing is lost and only writes interleave and one is torn |
| ColdStartGuarantee.LoadsAreGenuineIffSpliceFree | isolate-core/src/coldstart.rs:104-185 | Over all runs without losses, and likewise over all runs with them, loads report only serializations completely written under the name (up to digest collision) if and only if no digest can be pieced together from theirs |
| ColdStartInterleaved.StepKeepsMix | isolate-core/src/coldstart.rs:104-204 | If nothing is lost, one small step of any task keeps every module file, and all that was read of one, a mix: each byte is that of some serialization begun under its name at that place, or a zero over which a longer one was written |
| ColdStartInterleaved.RunKeepsMix | isolate-core/src/coldstart.rs:104-204 | So does every run without losses |
| ColdStartMixes.ReportedIsMix | isolate-core/src/coldstart.rs:143-185 | What a load reports there is such a mix, with a digest pieced together as before |
| ColdStartMixes.MixIsReported | isolate-core/src/coldstart.rs:104-185 | Conversely, every such mix is reported in some run that begins to write only the given serializations |
| ColdStartMixes.LoadsAreGenuineIffMixFree | isolate-core/src/coldstart.rs:104-185 | Over all runs without losses that write, in whole or in part, only given serializations under the name, loads are genuine if and only if no mix of them has a pieced-together digest |
| ColdStartMixes.MixFreeIsWeaker | isolate-core/src/coldstart.rs:104-185 | A digest and two serializations for which this holds although splices exist |
| ColdStartGuarantee.OneSerializationIsSpliceFree | isolate-core/src/coldstart.rs:104-185 | That condition holds if all precompiles of the name serialize to the same bytes |
| ColdStartGuarantee.SplicesExist | isolate-core/src/coldstart.rs:104-185 | A digest, collision-free on the bytes concerned, for which it fails with two serializations |
| ColdStartDigests.LoadsAreGenuineIffSpliceClosed | isolate-core/src/coldstart.rs:104-185 | Whatever the digests of all other byte strings, loads are genuine if and only if every text pieced together from the digests of the given serializations is one of them: a condition on these digests alone |
| ColdStartDigests.TwoAreClosedIff | isolate-core/src/coldstart.rs:104-185 | For two serializations that is so if and only if their digests differ in at most one character |
| Sanitizer.SkipSequence | isolate-core/src/ai_sandbox.rs:341-346 | The inner loop stops behind the first letter or tilde, or at the end |
| Sanitizer.FilterOutput | isolate-core/src/ai_sandbox.rs:335-362 | The transducer loop computes the recursive filter |
| Sanitizer.SanitizeOutput | isolate-core/src/ai_sandbox.rs:331-374 | Walking the limit back to a character boundary and truncating keeps the longest whole-character prefix |
| Sanitizer.SanitizedIsCleanPrefix | isolate-core/src/ai_sandbox.rs:331-374 | Only newlines, tabs and code points 0x20 to 0x7E and from 0xA0 on; a subsequence of the input; the longest whole-character prefix of the filtered text within the limit |
| Sanitizer.SanitizedIdentityIff | isolate-core/src/ai_sandbox.rs:331-374 | The text is unchanged if and only if it consists of such characters and fits the limit |
| Sanitizer.SanitizedIdempotent | isolate-core/src/ai_sandbox.rs:331-374 | Sanitizing again changes nothing |
| Sanitizer.FilterUndoesRender | isolate-core/src/ai_sandbox.rs:335-362 | Filtering a text rendered from shown characters, escape sequences, lone escapes and control characters gives exactly the shown characters; an unended sequence swallows the rest |
| Sanitizer.EveryTextIsRendered | isolate-core/src/ai_sandbox.rs:335-362 | Every text is such a rendering, so the previous row decides what is kept of every input |
| Sanitizer.TokensInPlainTerms | isolate-core/src/ai_sandbox.rs:335-362 | What the tokens are: a sequence is ESC, a bracket, anything but letters and tildes, and one of these; controls are 0x00 to 0x1F but for newline, tab and escape, and 0x7F to 0x9F |
| Sanitizer.ColoursGo | isolate-core/src/ai_sandbox.rs:335-362 | A plain text between two sequences, say a colour and its reset, is shown as it is |
| Utf8.BoundaryIffWholeCharacters | isolate-core/src/ai_sandbox.rs:366-370 | A byte position is a boundary if and only if it cuts off whole characters |
| Utf8.TakeFits | isolate-core/src/ai_sandbox.rs:365-371 | The prefix taken fits, is everything if everything fits, and no longer whole-character prefix fits |
| Utf8.EncodeDenotes | isolate-core/src/ai_sandbox.rs:365-371 | The byte lengths that the limit is about are those of UTF-8, with its leading bits and groups of six bits |
| CircuitBreaker.Breaker.constructor | isolate-core/src/rpc.rs:232-242 | A new breaker has an empty history and is in its state |
| CircuitBreaker.Breaker.AllowRequest | isolate-core/src/rpc.rs:245-262 | The state stays that of the whole history of events; an open breaker admits if and only if the latest failure is long enough ago, and then becomes half-open with no successes counted; the others admit, and no count changes |
| CircuitBreaker.Breaker.RecordSuccess | isolate-core/src/rpc.rs:265-280 | The state stays that of the history; half-open, it counts one more and closes if and only if the threshold is reached; otherwise the state stays; closed, the failures are zero |
| CircuitBreaker.Breaker.RecordFailure | isolate-core/src/rpc.rs:283-291 | The state stays that of the history; the breaker is closed afterwards if and only if it was and the failures in a row are below the threshold |
| CircuitBreaker.CountersReflectHistory | isolate-core/src/rpc.rs:245-291 | After every history: closed means the failure count is the number of trailing failures and below the threshold; else it is at or above; the last failure time is that of the latest failure; half-open successes are trailing successes below their threshold |
| CircuitBreaker.TripsExactlyAtThreshold | isolate-core/src/rpc.rs:283-291 | A failure opens a closed breaker if and only if it makes the failures in a row reach the threshold |
| CircuitBreaker.ClosesOnlyAfterSuccesses | isolate-core/src/rpc.rs:265-280 | It closes only from half-open, on a success that makes the latest success_threshold outcomes all successes |
| CircuitBreaker.HalfOpenFailureReopens | isolate-core/src/rpc.rs:283-291 | Any failure in half-open reopens it |
| CircuitBreaker.OpenAdmitsExactlyAfterCooling | isolate-core/src/rpc.rs:245-262 | While open, a request is admitted if and only if open_duration has passed since the most recent failure |
| CircuitBreaker.StaysOpenWhileCooling | isolate-core/src/rpc.rs:245-291 | Until then, over every sequence of requests and late outcomes, it stays open and admits nothing |
| CircuitBreaker.RecoversExactly | isolate-core/src/rpc.rs:245-280 | After cooling and an admitted request, over any requests and successes in any order, it is closed if and only if the successes have reached success_threshold, and else half-open with exactly their number counted |
| CircuitBreaker.HalfOpenCountsSuccesses | isolate-core/src/rpc.rs:245-291 | In every half-open state, the count is the number of successes since the request that half-opened the breaker, and nothing has failed since |
| CircuitBreaker.RecoversAfterSuccesses | isolate-core/src/rpc.rs:245-280 | After cooling, one request and success_threshold successes close it |
| TimingStats.Collector.RecordSample | isolate-core/src/metrics.rs:404-418 | Count, sum, minimum, maximum and buffer stay those of the whole history of samples |
| TimingStats.Collector.Average | isolate-core/src/metrics.rs:426-433 | None for no samples, else the sum divided by the count narrowed to 32 bits |
| TimingStats.AverageNarrows | isolate-core/src/metrics.rs:426-433 | The sum over the count modulo 2^32, and a division by zero where that is zero |
| TimingStats.AverageIsMean | isolate-core/src/metrics.rs:426-433 | That is the mean if and only if the count fits 32 bits, or the sum is so small that both quotients are zero |
| TimingStats.Collector.Percentile | isolate-core/src/metrics.rs:446-457 | None if and only if nothing was recorded; for p from 0 to 100 the order statistic of the rank nearest to p/100 * (n - 1), up from halves; at 0 and below the minimum, at 100 and above the maximum |
| TimingStats.BufferSlots | isolate-core/src/metrics.rs:404-418 | Closed form, slot by slot, of the buffer after n samples |
| TimingStats.BufferRetains | isolate-core/src/metrics.rs:404-418 | The buffer holds all n samples up to 1000, exactly the last 1000 from 2000 on, and sample 1 with the last 999 in between |
| TimingStats.BufferInNumbers | isolate-core/src/metrics.rs:404-418 | The same, with the numbers 1000, 2000 and 999 |
| TimingStats.PercentileIsOrderStatistic | isolate-core/src/metrics.rs:446-457 | The percentile is a buffered sample; at most rank samples are smaller, and more than rank are no larger |
| TimingStats.OrderStatisticUnique | isolate-core/src/metrics.rs:446-457 | Which determines it |
| TimingStats.PercentileRounds | isolate-core/src/metrics.rs:455 | The rank k is the one with exact - 1/2 < k <= exact + 1/2, exact being p/100 * (n - 1) |
| TimingStats.PercentileIsSample | isolate-core/src/metrics.rs:446-457 | A percentile is a buffered sample, for every p |
| TimingStats.PercentileMonotone | isolate-core/src/metrics.rs:446-457 | Percentiles are monotone in p |
| TimingStats.PercentileEnds | isolate-core/src/metrics.rs:446-457 | At 0 and below it is the buffer's minimum, at 100 and above its maximum |
| SandboxLifecycle.SandboxObject.RunOnce | isolate-core/src/sandbox.rs:866-989 | The object stays as its whole history of calls determines; Ok if and only if admitted and completed |
| SandboxLifecycle.SandboxObject.CallExport | isolate-core/src/sandbox.rs:1029-1089 | Ok if and only if admitted and completed; an admitted call leaves the sandbox ready with an instance, or running if interrupted or not instantiated; nothing is logged |
| SandboxLifecycle.SandboxObject.StartStreaming | isolate-core/src/sandbox.rs:1195-1317 | Likewise; Ok if and only if admitted and instantiated |
| SandboxLifecycle.SandboxObject.FinishStream | isolate-core/src/sandbox.rs:1245-1311 | The background task appends a trace for its own input on completion, whatever the state |
| SandboxLifecycle.SandboxObject.RunInputs | isolate-core/src/sandbox.rs:1376-1442 | Likewise; an empty batch changes nothing, a non-empty one logs nothing |
| SandboxLifecycle.SandboxObject.TerminateNow | isolate-core/src/sandbox.rs:1119-1140 | Refused if and only if running |
| SandboxLifecycle.SandboxObject.ResetToReady | isolate-core/src/sandbox.rs:1339-1359 | Accepted if and only if terminated; the log stays |
| SandboxLifecycle.NotReadyUntilReset | isolate-core/src/sandbox.rs:866-1442 | Over every sequence of calls, after an execution started the sandbox is not ready before a successful reset |
| SandboxLifecycle.ExecutionsAreSeparatedByResets | isolate-core/src/sandbox.rs:866-1442 | Any two executions started by run, run_streaming or a non-empty run_batch are separated by a successful reset |
| SandboxLifecycle.RunningIsAbsorbing | isolate-core/src/sandbox.rs:866-1442 | Once a call has returned with the state Running, no later call is ever admitted |
| SandboxLifecycle.StartEndsTerminatedIff | isolate-core/src/sandbox.rs:866-1442 | Exactly which started executions leave the sandbox Terminated; a failed instantiation or an interruption leaves it Running |
| SandboxLifecycle.CallsCanFollow | isolate-core/src/sandbox.rs:1029-1089 | Over every history, an admitted call leaves the sandbox Running if and only if it was interrupted, or could not be instantiated without a cached instance, and else Ready with an instance, with log and streams unchanged, so that the next permitted call or run is admitted |
| SandboxLifecycle.LogOnlyGrows | isolate-core/src/sandbox.rs:866-1442 | The log only grows, across resets too, by exactly one trace for each completed run or stream |
| SandboxLifecycle.StreamIdsAreFresh | isolate-core/src/sandbox.rs:1195-1317 | Every stream under way has an id below the next one to be given |
| SandboxLifecycle.StreamTakesNextId | isolate-core/src/sandbox.rs:1195-1317 | A started stream takes the next id, which no stream under way has, and the next id goes up by one |
| SandboxLifecycle.StreamStaysEnded | isolate-core/src/sandbox.rs:1195-1317 | Over any calls the next id never goes down, and a stream that has ended is never under way again |
| SandboxLifecycle.StreamEndsOnce | isolate-core/src/sandbox.rs:1245-1311 | So every stream ends, and is recorded, at most once |
| ModuleRegistry.Registry.MakeRoom | isolate-core/src/module_registry.rs:153-156 | At capacity one least-accessed entry goes, below it none; then one more fits |
| ModuleRegistry.Registry.Store | isolate-core/src/module_registry.rs:141-189 | A known hash changes nothing; else what is kept, which error, and the new contents and counts exactly; full if and only if the size does not fit what is left, checked before the signature; an unsigned module never gets in where signatures are required; the invariant holds even after an error |
| ModuleRegistry.Registry.Get | isolate-core/src/module_registry.rs:192-211 | A hit returns bytes whose hash is the key and raises that count by one; hits and misses are counted exactly |
| ModuleRegistry.Registry.Remove | isolate-core/src/module_registry.rs:219-226 | Exactly that entry goes, and the byte counter never goes below zero |
| ModuleRegistry.Registry.Clear | isolate-core/src/module_registry.rs:244-247 | Contents and byte counter are reset; hits and misses stay |
| ModuleRegistry.Registry.EvictLru | isolate-core/src/module_registry.rs:249-259 | Exactly one entry of lowest access count goes, if there is any |
| ModuleRegistry.LeastInPlainTerms | isolate-core/src/module_registry.rs:249-259 | The entry that goes is one that no other has been read less often than |
| ModuleRegistry.RemoveKeepsConsistent | isolate-core/src/module_registry.rs:219-226 | Removing keeps keys the hashes of their bytes, the counter the sum of sizes, and both limits |
| ModuleRegistry.InsertKeepsConsistent | isolate-core/src/module_registry.rs:165-187 | So does inserting within both limits |
| ModuleRegistry.FailingStoreLosesAtMostOne | isolate-core/src/module_registry.rs:153-165 | A failing store loses at most one entry, a least-accessed one, and loses one if and only if the registry is at capacity and not empty: the eviction comes before the checks |
| ModuleRegistry.StoredIsReadable | isolate-core/src/module_registry.rs:141-189 | Enough storage and a signature where required suffice for success, and the bytes are then present under their hash |
| ByteTotals.TotalUpdate | isolate-core/src/sandbox_kv.rs:112-145 | How the total size changes when one key is set, new or present |
| ByteTotals.TotalRemove | isolate-core/src/sandbox_kv.rs:155-162 | The total size is the removed value's size and that of the rest, so subtracting it never underflows |
| SandboxKv.QuotasAfterUpdate | isolate-core/src/sandbox_kv.rs:100-152 | The updated map is within all three quotas if and only if the code's own guards pass |
| SandboxKv.QuotasAfterDelete | isolate-core/src/sandbox_kv.rs:155-162 | Deleting keeps all quotas |
| SandboxKv.Namespace.Get | isolate-core/src/sandbox_kv.rs:95-97 | The map's value, or none |
| SandboxKv.Namespace.Set | isolate-core/src/sandbox_kv.rs:100-152 | Accepted if and only if the updated map is within all quotas; a rejected set changes nothing; which quota each error means; the counter stays the sum of sizes |
| SandboxKv.Namespace.Delete | isolate-core/src/sandbox_kv.rs:155-162 | Exactly that key goes; the invariant is kept |
| SandboxKv.Namespace.Clear | isolate-core/src/sandbox_kv.rs:183-186 | Empties map and counter |
| SandboxKv.Store.GetNamespace | isolate-core/src/sandbox_kv.rs:207-227 | A live name yields its one namespace, a new one a fresh empty namespace if and only if there is room |
| SandboxKv.Store.RemoveNamespace | isolate-core/src/sandbox_kv.rs:230-232 | Exactly that name goes; the namespace object is untouched |
| SandboxKv.SetThroughOneReadThroughOther | isolate-core/src/sandbox_kv.rs:207-227 | Two handles to one live name alias, and setting through one touches no other namespace |
| SandboxKv.Recreate | isolate-core/src/sandbox_kv.rs:207-232 | A removed and recreated name is a new empty namespace, shared with no old handle |
| SandboxKv.SetThroughStaleHandle | isolate-core/src/sandbox_kv.rs:207-232 | A value set through a handle from before the removal is not seen through one from after it |
| Retry.RetryWithOutcome | isolate-core/src/retry.rs:153-187 | Stops after the first attempt that succeeds or is not retryable, or the last allowed one; returns that attempt's result, having slept the computed delays in order |
| Retry.AttemptsAreMinimum | isolate-core/src/retry.rs:153-187 | The number of attempts is min(k, max_retries + 1), k the first success or non-retryable error |
| Retry.DelayInPlainTerms | isolate-core/src/retry.rs:84-95 | The delay is base * 2^(attempt mod 32), limited by max_delay and the longest duration |
| Retry.DelayNeverExceedsCap | isolate-core/src/retry.rs:84-95 | No delay exceeds max_delay, at any attempt |
| Retry.DelaysGrowUntilWrap | isolate-core/src/retry.rs:84-95 | Delays are non-decreasing within each block of 32 attempts |
| Retry.DelaysRepeat | isolate-core/src/retry.rs:86 | The delay sequence repeats after 32 attempts |
| Retry.DelayFallsAtWrap | isolate-core/src/retry.rs:86 | Attempt 32 waits less than attempt 31 if and only if the base is positive and below the caps |
| Retry.UncappedDelaysAddUp | isolate-core/src/retry.rs:84-95 | While uncapped and r is at most 32, the first r delays add up to the base times 2^r - 1 |
| ConfigFile.DecimalDenotes | isolate-core/src/config.rs:1537-1555 | Decimal printing yields digits that denote the number |
| ConfigFile.ScalePrinted | isolate-core/src/config.rs:1547-1555 | A printed number, spaces after it or not, scales to the product, or to an error exactly on 64-bit overflow, which tells a number that is too large itself from a product that is |
| ConfigFile.PrintedSizeParses | isolate-core/src/config.rs:1537-1555 | For every n and unit suffix, the printed size parses to n times the unit, and to an error if and only if that overflows, with the text that the code puts into it |
| ConfigFile.MixedCaseIsRejected | isolate-core/src/config.rs:1537-1555 | A mixed-case two-letter suffix is always an error |
| ConfigFile.PrintedDurationParses | isolate-core/src/config.rs:1571-1590 | For every n and unit suffix, the printed duration parses to n times the unit, an error if and only if that overflows, with the code's text; "ms" is never taken for "m" or "s" |
| ConfigFile.UnitsInNumbers | isolate-core/src/config.rs:1537-1583 | The units in numbers |
| ConfigFile.SizesSpelledOut | isolate-core/src/config.rs:1537-1555 | Some sizes, spelled out |
| ConfigFile.DurationsSpelledOut | isolate-core/src/config.rs:1571-1590 | Some durations, spelled out |
| ConfigFile.PlusSign | isolate-core/src/config.rs:1550-1551 | A plus sign may precede a number, but is none |
| ConfigFile.TextsInPlainTerms | isolate-core/src/config.rs:1092-1146 | Which field of which section sets which limit |
| ConfigFile.ValidateInPlainTerms | isolate-core/src/config.rs:1420-1446 | Validation reports the first malformed text, in the order heap, stack, CPU time, reading, writing, timeout |
| ConfigFile.UpdatedInPlainTerms | isolate-core/src/config.rs:1092-1146 | A limit without a text stays what it was; with one it becomes what the text says |
| ConfigFile.ApplyConfigFile | isolate-core/src/config.rs:1092-1146 | Succeeds if and only if validating does, fails with the same error, and sets exactly the limits that the file mentions |

## Left out

- Compiling, instantiating and running modules, the command line, the gRPC and HTTP layers, dashboards and reports: engine and plumbing. What an execution does is an oracle or an outcome given with the call.
- Tokio sleeping and wall-clock time: delays are computed, not waited for; times are parameters. Of the delay between a pipeline stage's retries only whether it is representable matters.
- ColdStart: the in-memory entries, access counts, the choice of what to evict and the statistics are left out, since they do not decide what a load reports; an eviction is a remove. Deserialization of accepted bytes, the shortening and validation of names, and `clear` are left out too. A remove that ends with an error is one that crashes there. Losses may turn module data into anything, but never invent digest characters: a digest file gets back a prefix of some content it had, possibly zeroed in part.
- WasmImports: names are kept as bytes, without the lossy conversion to text. Slice overruns are the outcome Trap, and so is position overflow, except in WrappedSections; the report of PolicyAnalysis is that of the checked reader. The printer's numbers may have 64 bits where the format allows 32.
- PolicyAnalysis: the concrete pattern table, confidence, mitigation and summary texts; the theorems hold for every pattern table.
- CircuitBreaker: counters are naturals, so 2^32 consecutive failures do not wrap around; each method is one atomic step under its lock.
- TimingStats: counts and sums are naturals, and the percentile's rank is computed over real numbers; rounding of doubles and a rank that is not a number are not modelled.
- SandboxLifecycle: metering, metrics and the internals of the rate limiter; whether a call is permitted is an input. Poisoning of the log's lock is not modelled.
- ModuleRegistry: hashes are given by any function, and of the metadata only the signature matters. Counters are naturals, and calls are atomic: interleavings inside the concurrent map are not modelled.
- SandboxKv: as for the registry, calls are atomic and counters are naturals. The listing and statistics functions only read.
- Machine words are 64 bits wide: on 32-bit platforms sizes would overflow earlier.
- Retry: jitter is left out, and the attempt counter is a natural, so max_retries of 2^32 - 1 does not overflow.
- ConfigFile: the parsing of JSON, TOML and YAML, and the capabilities, environment, arguments and entry point that applying a file also copies.
- Branch conditions and `downstream`: stored by the builder but never consulted by an execution.
- The remaining components (debugger, OCI registry, policy files, lineage, profiles): bounded queues, lookups and overrides that would only add easy members.
