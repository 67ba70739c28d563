# Verified models of gem5's tooling algorithms

Around the simulator, gem5 carries a set of Python scripts whose correctness is not obvious from
reading them: they order port bindings, migrate checkpoints, sort pipeline traces in bounded memory,
frame protobuf messages, merge memory images and build cache trees. This project models those
algorithms in Dafny and proves what they are for.

| file | models |
|---|---|
| `PortBinder.dfy` | choosing an order for append-only port bindings (`read_config.py`) |
| `CheckpointUpgrader.dfy`, `UpgraderRuns.dfy` | loading upgrader scripts, applying them in dependency order, and a whole run (`cpt_upgrader.py`) |
| `ReorderBuffer.dfy`, `Timeline.dfy`, `TimelineInTicks.dfy` | the streaming sort and the timeline drawing of `o3-pipeview.py` |
| `Protolib.dfy` | varints and length-delimited message streams (`protolib.py`) |
| `DepTrace.dfy` | the text form of dependency traces, printed and parsed |
| `CacheTree.dfy` | the recursive cache and tester tree of `memtest.py` |
| `CheckpointAggregator.dfy`, `SectionNames.dfy` | merging checkpoints and renaming their sections (`checkpoint_aggregator.py`) |
| `ScriptCheckpoints.dfy` | periodic checkpoints against an arbitrary simulator (`Simulation.py`) |
| `CommentBlocks.dfy`, `YearRanges.dfy` | comment blocks and year ranges (`find_copyrights.py`) |
| `RangeSweep.dfy` | the working-set sizes of `lat_mem_rd.py` |
| `Sorting.dfy`, `Alphabet.dfy`, `Text.dfy`, `Bits.dfy`, `Wrappers.dfy` | shared: stable sorting, alphabetical order, numbers and separated lists as text, bitwise operators, common types |

State that the scripts update in place is a class (`ConfigManager`, `Registry`, `Pipeview`, `InFile`,
`OutFile`, `Builder`, `Simulator`) or a method with a loop, tied to a specification function; the
theorems are about the specification functions and so about every run of the methods. The order in
which Python iterates over a set or a dictionary is arbitrary in the model.

## Where the code and its documentation differ

The models follow the code. Where the two differ, a lemma gives a concrete input, and another one the
exact condition under which the code does what is promised.

- `read_config.py:321-323` says that one direction of each pair is always bindable because the list is
  sorted. `OnePassMissesAnOrder` is a configuration that has a correct order and is rejected;
  `GreedyIsOptimal` says exactly which configurations are accepted.
- `cpt_upgrader.py:60-65` asks that a downgrade tag one depends on be gone; `ready` asks that it be
  present. With the tag gone the run aborts without an upgrade that the comment allows
  (`GoneDowngradeAborts`); with the tag present it applies the upgrade before the removal
  (`PresentDowngradeApplied`). `DocumentedExactly` says from the pending tags alone when a run completes
  as the comment describes.
- `o3-pipeview.py:237-254`: in the compact form two stages in different cycles can share a column, so
  the line grows longer than the width. `WrappedStagesClash` shows it; `WidthInTicks` gives the condition.
- `o3-pipeview.py:51-52` asks for arrivals at most min_threshold places out of order. One more is
  already too many for every pair of thresholds (`DisorderBoundIsTight`); `StreamedSortedExactly` says
  exactly which traces come out in order.
- `o3-pipeview.py:134` passes one argument too few, so leaving the region of interest raises an error
  and loses the queue. `LeavingRegionLoses` is such a trace; `ProcessRegion` says exactly when it happens
  and what has been printed by then.
- `Simulation.py:261-262` does not refresh `exit_cause`, so a checkpoint instruction ends the series of
  periodic checkpoints. `CheckpointsLost` shows it; `AllWrittenExactly` says for which simulator
  behaviours all checkpoints that fit are written.
- `protolib.py:138`: an empty message ends a stream. `EmptyMessageEndsStream` shows it;
  `StreamRoundTrip` and `NonEmptyPrefixExactly` say which messages come back.

## Model

| member | source | states |
|---|---|---|
| PortBinder.HalfCountIsExact | gem5/configs/example/read_config.py:305-346 | for every symmetric, duplicate-free list without self-connections the half-count test passes if and only if every connection is bound in exactly one direction, sits at its configured index on both ports once the bindings are replayed as appends, and no port holds anything else |
| PortBinder.HalfMeansAll | gem5/configs/example/read_config.py:343-346 | bindings taken in order are half as many as the entries exactly when each entry or its reverse is among them |
| PortBinder.EndBoundOnce | gem5/configs/example/read_config.py:335-341 | in an order in which each index matches its port's counter, no port end is bound twice |
| PortBinder.PeersAt | gem5/configs/example/read_config.py:348-354 | a binding made in order is found at its configured index on both of its ports |
| PortBinder.PeersComeFrom | gem5/configs/example/read_config.py:348-354 | every element of a port comes from one of the bindings |
| PortBinder.GreedyStaysAhead | gem5/configs/example/read_config.py:331-341 | at every point of the pass no port counter is behind where any one-pass plan has it |
| PortBinder.GreedyIsOptimal | gem5/configs/example/read_config.py:331-346 | the greedy pass binds everything if and only if one direction per connection can be picked such that the picks, in sorted order, count up from 0 on every port |
| PortBinder.IncreasingMeansInOrder | gem5/configs/example/read_config.py:331-341 | picks with rising indices that cover gapless ports count up from 0 on every port |
| PortBinder.StarWiringIsOrdered | gem5/configs/example/read_config.py:331-346 | with gapless indices and one single-connection port per connection the sorted pass binds everything, so "can't be ordered" is never raised |
| PortBinder.OnePassMissesAnOrder | gem5/configs/example/read_config.py:321-346 | a well-formed configuration with gapless indices and a correct order that the pass rejects |
| PortBinder.SortedExactly | gem5/configs/example/read_config.py:158-160 | the list that is passed over is the one rearrangement of the connections that goes by the left end's object name, then port name, both compared at the first differing character, then index, and among equal left ends by the right end |
| PortBinder.InitialIndices | gem5/configs/example/read_config.py:305-311 | exactly the ports on the left of some connection are known, each with count 0 |
| PortBinder.ChooseOrder | gem5/configs/example/read_config.py:305-346 | the loop with its counter dictionary computes the greedy pass over the sorted list; it accepts on the half count only, and a port without a counter is one that is never on the left |
| PortBinder.ConfigManager.Connect | gem5/configs/example/read_config.py:353-354 | one assignment appends each end's peer to both ports and to no other |
| PortBinder.RefusedExactly | gem5/src/python/m5/params.py:1896-1903 | in an order in which each index matches its port's counter, a binding is refused exactly when an object does not exist or an end is a scalar port with an index above 0 |
| PortBinder.ConnectableExactly | gem5/configs/example/read_config.py:348-354 | the bindings of an accepted order can all be made exactly when no connection of the configuration names a missing object or a further index of a scalar port |
| PortBinder.ConfigManager.Obstacle | gem5/configs/example/read_config.py:350-354 | looks up both objects and then refuses a scalar port that has a peer, and refuses nothing else |
| PortBinder.ConfigManager.TryNext | gem5/configs/example/read_config.py:349-354 | makes the next binding or, exactly when it is refused, changes nothing |
| PortBinder.ConfigManager.ConnectAll | gem5/configs/example/read_config.py:348-354 | all ports grow by the peers of the order, in that order, up to the first binding that is refused |
| PortBinder.ConfigManager.BindPorts | gem5/configs/example/read_config.py:300-354 | a list that cannot be ordered changes no port; on well-formed lists this is so exactly when no rearrangement by object name, port name and index has a one-pass plan, and otherwise, from unconnected ports, it succeeds exactly when every connection is usable and then realizes every configured index on both ends; a refused binding stops it, for the reason reported, with those before it made |
| CheckpointUpgrader.MigrateTags | gem5/util/cpt_upgrader.py:240-252 | after any run the tags are the initial ones with the applied upgrades added and the applied downgrades removed, and what is left was never touched |
| CheckpointUpgrader.CompletedTags | gem5/util/cpt_upgrader.py:233-252 | a run is complete if and only if the tags are (initial and upgrade tags) without the downgrade tags; unknown tags are kept |
| CheckpointUpgrader.SecondRunIsIdle | gem5/util/cpt_upgrader.py:238-256 | migrating a migrated checkpoint applies nothing and changes nothing |
| CheckpointUpgrader.AppliedOnce | gem5/util/cpt_upgrader.py:240-252 | in every iteration order each pending tag is applied exactly once, unless the run leaves it |
| CheckpointUpgrader.DependenciesFirst | gem5/util/cpt_upgrader.py:140-144 | in every iteration order each dependency of an applied tag was present at the start or has been applied earlier |
| CheckpointUpgrader.ReachesLeastFixedPoint | gem5/util/cpt_upgrader.py:240-252 | with upgraders only, the tags when the loop stops are the least superset of the initial ones closed under "all dependencies present" |
| CheckpointUpgrader.AbortsExactlyOnCycles | gem5/util/cpt_upgrader.py:241-246 | with registered dependencies, none of a pending tag on a downgrade tag, the loop aborts if and only if the pending tags contain a dependency cycle |
| CheckpointUpgrader.UpgradersAbortExactlyOnCycles | gem5/util/cpt_upgrader.py:241-246 | in particular for every registry of upgraders only |
| CheckpointUpgrader.DocumentedExactly | gem5/util/cpt_upgrader.py:60-65 | a run completes and applies each script only when the header comment says it may, if and only if no pending tag depends on a downgrade tag and the pending tags contain no dependency cycle |
| CheckpointUpgrader.GoneDowngradeAborts | gem5/util/cpt_upgrader.py:140-144 | a registry and a checkpoint without the downgrade tag on which an upgrade the header comment allows is never applied |
| CheckpointUpgrader.PresentDowngradeApplied | gem5/util/cpt_upgrader.py:140-144 | the same registry and a checkpoint with the downgrade tag on which that upgrade is applied before the comment allows it |
| CheckpointUpgrader.LegacyInVersionOrder | gem5/util/cpt_upgrader.py:211-252 | every completed run from a legacy version applies each later legacy upgrade once, in strictly increasing version order, and no earlier one |
| CheckpointUpgrader.LoadedLegacyChain | gem5/util/cpt_upgrader.py:167-171 | loaded upgraders under distinct tags with legacy versions 2 to n form the chain that orders legacy runs |
| CheckpointUpgrader.BaseUnique | gem5/util/cpt_upgrader.py:167-171 | declared and chained dependencies are determined by the scripts, not by the order of any dictionary |
| CheckpointUpgrader.LegacySound | gem5/util/cpt_upgrader.py:135-136 | a legacy version names a loaded script that claims it, so different versions name different scripts |
| CheckpointUpgrader.RegistryKinds | gem5/util/cpt_upgrader.py:119-138 | every registered tag is an upgrade or a downgrade tag, and no tag is both exactly when no two scripts make it both |
| CheckpointUpgrader.Registry.Register | gem5/util/cpt_upgrader.py:94-138 | one script enters the tables; of two scripts with one tag or one legacy version the later loaded is kept |
| CheckpointUpgrader.Registry.ChainLegacy | gem5/util/cpt_upgrader.py:167-171 | every version reached by counting from 3 depends on exactly its predecessor, nothing else changes; it fails only when version 3 exists without version 2 |
| CheckpointUpgrader.Registry.AddForwards | gem5/util/cpt_upgrader.py:174-180 | exactly the named scripts come to depend on this one; it fails exactly on an unregistered name |
| CheckpointUpgrader.Registry.AuditDependencies | gem5/util/cpt_upgrader.py:181-185 | accepts exactly when every dependency is registered |
| CheckpointUpgrader.Registry.ResolveScript | gem5/util/cpt_upgrader.py:174-185 | one turn of the loop adds one script's forward dependencies and succeeds exactly when what it names is registered |
| CheckpointUpgrader.Registry.ResolveDependencies | gem5/util/cpt_upgrader.py:173-185 | in any dictionary order, d is a dependency of x afterwards if and only if it was one before or names x forwards; it succeeds exactly when everything named is registered |
| CheckpointUpgrader.DependsExactly | gem5/util/cpt_upgrader.py:167-180 | after loading, d is listed for t if and only if the last loaded script of t declares it, or is chained to it as its legacy predecessor instead, or the last loaded script of d names t forwards |
| CheckpointUpgrader.NamedExactly | gem5/util/cpt_upgrader.py:173-185 | the audit passes exactly when every dependency so understood, and every forward one, is the tag of a script |
| CheckpointUpgrader.Registry.LinkScripts | gem5/util/cpt_upgrader.py:167-185 | after the scripts have been read: chaining, forward dependencies and the audit, with the same outcome in any dictionary order |
| CheckpointUpgrader.Registry.LoadAll | gem5/util/cpt_upgrader.py:161-185 | for all scripts, also with repeated tags: succeeds exactly when the legacy chain starts at 2 and everything named is the tag of a script; then the rules a run consults are, tag by tag and dependency by dependency, those the scripts ask for, and are fit for a run exactly when no tag has both kinds of script |
| CheckpointUpgrader.Registry.InitialTags | gem5/util/cpt_upgrader.py:210-227 | a legacy version stands for the tags of versions 2 up to it, or fails on the first unregistered one; a tag list stands for itself; without either it is fatal |
| CheckpointUpgrader.Registry.ApplyBatch | gem5/util/cpt_upgrader.py:248-250 | in whatever order the set is iterated, every ready script is applied once, `remove` never fails and the tags end the same |
| CheckpointUpgrader.Registry.ApplyAll | gem5/util/cpt_upgrader.py:240-252 | the loop terminates, and its tags, remainder and order of application are those of the batch-by-batch migration |
| CheckpointUpgrader.Registry.ProcessFile | gem5/util/cpt_upgrader.py:208-258 | fatal exactly without version information or with an unregistered legacy version, naming the first; otherwise aborted with the unresolvable remainder exactly when there is one, left alone exactly when the tags were listed and none is pending, and else written with the initial and upgrade tags less the downgrade tags |
| UpgraderRuns.UpgradeCheckpoint | gem5/util/cpt_upgrader.py:161-262 | from the scripts to the written file: each script is applied behind everything it depends on and at most once, all that is due is applied unless the run aborts, the written tags are those of the start and the upgrades without the downgrades, and an abort names what was due and left |
| UpgraderRuns.OutcomeAborts | gem5/util/cpt_upgrader.py:241-246 | if no due script depends on a downgrade tag, a run aborts if and only if the scripts' own dependencies have a cycle among the due ones |
| UpgraderRuns.VersionsRise | gem5/util/cpt_upgrader.py:167-171 | for upgraders under distinct tags with legacy versions from 2 on without a gap, every run from a legacy checkpoint, completed or aborted, applies later versions later |
| ReorderBuffer.StreamedEqualsSorted | gem5/util/o3-pipeview.py:159-188 | for distinct sequence numbers with at most min_threshold larger predecessors each, the streamed order through the end of input is the sort of the whole input |
| ReorderBuffer.StreamedIsPermutation | gem5/util/o3-pipeview.py:159-171 | whatever the disorder, nothing is lost or repeated |
| ReorderBuffer.StreamKeepsElements | gem5/util/o3-pipeview.py:159-171 | popped and queued together are the arrivals, and the queue stays within the larger threshold |
| ReorderBuffer.StragglerIsLate | gem5/util/o3-pipeview.py:51-52 | an arrival, anywhere in the trace, numbered below one popped before it makes the output differ from the sort |
| ReorderBuffer.StreamedSortedExactly | gem5/util/o3-pipeview.py:159-171 | for distinct sequence numbers the streamed order is the sort of the whole input if and only if no instruction arrives after a larger one has been popped |
| ReorderBuffer.DisorderBoundIsTight | gem5/util/o3-pipeview.py:47-52 | for all thresholds there is a trace with one more larger predecessor than min_threshold that is printed out of order |
| ReorderBuffer.PrintedStream | gem5/util/o3-pipeview.py:167-188 | filtering the stream equals filtering and then sorting the whole input; without the bound it is still a permutation of the filtered input |
| ReorderBuffer.OutputShown | gem5/util/o3-pipeview.py:177-187 | whatever is printed lies within every bound that is set, and has retired if only committed instructions are asked for |
| ReorderBuffer.OutputComplete | gem5/util/o3-pipeview.py:167-188 | every arrival within the bounds is printed, as often as it arrived |
| ReorderBuffer.ArrivalsRecorded | gem5/util/o3-pipeview.py:126-145 | every queued instruction has the fetch and retire ticks the filter looks up |
| ReorderBuffer.AssembledExactly | gem5/util/o3-pipeview.py:129-143 | a stage of the instruction being assembled has the tick of the last line that records one for it, also if that line belonged to an earlier instruction, and no entry if there is none |
| ReorderBuffer.Pipeview.PrintInsts | gem5/util/o3-pipeview.py:167-188 | sorts the queue, pops down to the threshold and prints what the window admits, in place |
| ReorderBuffer.Pipeview.PrintItem | gem5/util/o3-pipeview.py:177-188 | the chain of tests prints an instruction or passes it over |
| ReorderBuffer.Pipeview.QueueInst | gem5/util/o3-pipeview.py:159-164 | one arrival leaves at most max_threshold instructions queued |
| ReorderBuffer.Pipeview.ProcessLine | gem5/util/o3-pipeview.py:129-144 | a line updates the instruction being assembled, and a retire line queues it |
| ReorderBuffer.Pipeview.ProcessRegion | gem5/util/o3-pipeview.py:126-150 | the loop crashes exactly when a fetch line has a tick beyond the last one and the drift, or a number beyond the last one and max_threshold, with only what had been popped by then printed; otherwise the output is the filtered stream and within the disorder bound the sorted filtered input; all that is printed is within the bounds, and without a crash everything within them is printed |
| ReorderBuffer.LeavingRegionLoses | gem5/util/o3-pipeview.py:131-135 | a trace on which an instruction inside the window is queued and lost to the crash |
| Timeline.OnExactlyOneLine | gem5/util/o3-pipeview.py:239-259 | every non-zero stage at or after fetch lies on exactly one of the lines, in compact and in multi-line form |
| TimelineInTicks.LetterOnItsLine | gem5/util/o3-pipeview.py:225-281 | the letter of every stage that happened at or after the fetch stands on line tick / time_width - fetch / time_width, or on the only line if everything fits one, and on no other, except that a dispatch in the tick of the issue has no letter; a stage that did not happen has none |
| TimelineInTicks.LineInFull | gem5/util/o3-pipeview.py:246-282 | every column p of a line of the right width shows the letter of the stage with (tick mod time_width) / cycle_time equal to p that belongs on it, and else '=' for an abandoned and '.' for a completed instruction |
| TimelineInTicks.NumberOfLines | gem5/util/o3-pipeview.py:227-242 | one line if every stage is less than time_width ticks after the fetch, and else one more than the lines between the fetch and the latest stage |
| TimelineInTicks.LettersInOrder | gem5/util/o3-pipeview.py:260-263 | on every line, also where letters collide, they stand in the order of tick mod time_width and, where that is equal, of the stages' names |
| Timeline.LineLength | gem5/util/o3-pipeview.py:264-282 | a line is the width plus one character per column shared |
| Timeline.SharedColumnExactly | gem5/util/o3-pipeview.py:250-281 | two stages of a line share a column if and only if they are in the same cycle or exactly width cycles apart |
| TimelineInTicks.WidthInTicks | gem5/util/o3-pipeview.py:250-282 | a line has exactly width characters if and only if no two stages that belong on it, other than a dispatch left to its issue, are in the same cycle or width cycles apart |
| Timeline.WrappedStagesClash | gem5/util/o3-pipeview.py:237-254 | an instruction whose stages are in different cycles and whose compact line is too long |
| Timeline.GatherEvents | gem5/util/o3-pipeview.py:255-263 | collects the events of a line in order |
| Timeline.DrawEvents | gem5/util/o3-pipeview.py:264-282 | the loop over events draws the text of the line |
| Timeline.PrintInst | gem5/util/o3-pipeview.py:225-282 | draws every line of the timeline; KeyError exactly when a stage has no entry, ZeroDivisionError exactly when width or cycle time is zero, IndexError exactly when all ticks are zero |
| Protolib.VarintRoundTrip | gem5/util/protolib.py:101-158 | decoding the encoding of v followed by anything gives v and the bytes written if and only if v is below 2^32, and these are at most 5 |
| Protolib.DecodedIsCongruent | gem5/util/protolib.py:108-129 | every accepted input is at most ten bytes, the last one without continuation bit, and the result is congruent modulo 2^32 to its 7-bit little-endian value |
| Protolib.VarintLength | gem5/util/protolib.py:152-158 | v takes at most n bytes if and only if it is below 2^(7n) |
| Protolib.VarintValue | gem5/util/protolib.py:152-158 | the bytes written spell v, seven bits at a time |
| Protolib.NextOfEncoded | gem5/util/protolib.py:131-144 | the next message of an encoded stream is the first one, unless that is empty |
| Protolib.StreamRoundTrip | gem5/util/protolib.py:131-166 | for messages below 2^32 bytes, decoding the encoded stream returns the messages before the first empty one |
| Protolib.NonEmptyPrefixExactly | gem5/util/protolib.py:138-139 | that is all of them if and only if none is empty |
| Protolib.EmptyMessageEndsStream | gem5/util/protolib.py:138-139 | an empty message followed by any message yields nothing |
| Protolib.MaskTo32 | gem5/util/protolib.py:112-125 | masking, and sign extension by the complement of the mask, reduce modulo 2^32 into the lower or the negative range |
| Protolib.InFile.Read | gem5/util/protolib.py:140-140 | `read` takes the requested bytes, all that are left if they are fewer, and all of them for a negative size |
| Protolib.DecodeVarint32 | gem5/util/protolib.py:101-129 | the bitwise loop, with its masking, computes the reduced arithmetic value, stops behind its last byte and never consumes more than ten |
| Protolib.DecodeMessage | gem5/util/protolib.py:131-144 | reads exactly the next frame, or reports that there is none |
| Protolib.DecodeAll | gem5/util/decode_inst_dep_trace.py:156-157 | the decode loop terminates and yields the messages of the stream |
| Protolib.OutFile.EncodeVarint32 | gem5/util/protolib.py:146-158 | the bitwise loop appends the base-128 digits of the value |
| Protolib.OutFile.EncodeMessage | gem5/util/protolib.py:160-166 | appends the length and the message |
| Protolib.OutFile.EncodeMessages | gem5/util/encode_inst_dep_trace.py:150-197 | a loop of such calls appends the stream |
| DepTrace.RoundTrip | gem5/util/decode_inst_dep_trace.py:157-206 | parsing the printed line of a record gives it back with pc and weight defaults if and only if memory accesses have all three memory fields and computations none |
| DepTrace.TraceRoundTrip | gem5/util/encode_inst_dep_trace.py:150-197 | the same for the text of a whole trace, split into lines |
| DepTrace.PrintedInFull | gem5/util/decode_inst_dep_trace.py:160-206 | the printed line, piece by piece: sequence number, pc or 0, weight or 1, the type's name, the memory fields that are there, the delay, and a comma before each dependency behind each colon |
| DepTrace.PrintInfo | gem5/util/decode_inst_dep_trace.py:160-191 | writes the comma-separated fields one after another |
| DepTrace.PrintDeps | gem5/util/decode_inst_dep_trace.py:193-204 | writes a comma before each dependency |
| DepTrace.PrintLine | gem5/util/decode_inst_dep_trace.py:160-206 | writes the record's line |
| DepTrace.DecodeTrace | gem5/util/decode_inst_dep_trace.py:157-206 | writes one line per record |
| DepTrace.ParseDepItems | gem5/util/encode_inst_dep_trace.py:182-195 | appends the numbers `long` accepts, skips empty items and refuses others |
| DepTrace.ParseFields | gem5/util/encode_inst_dep_trace.py:153-180 | the fields before the dependencies, filled in one after the other, with the source's three ways to fail |
| Text.NumeralParses | gem5/util/encode_inst_dep_trace.py:155-157 | `long` and `int` accept digits with white space around them, a sign that white space may follow and, for `long`, a suffix, and give the number spelt |
| Text.ParsedIsNumeral | gem5/util/encode_inst_dep_trace.py:155-157 | and accept nothing else |
| Text.DecimalDigits | gem5/util/decode_inst_dep_trace.py:161-161 | digit k of a printed number, from the right, is that of 10^k, and no zero is printed in front |
| Text.ParseNatExactly | gem5/util/encode_inst_dep_trace.py:155-155 | a string spells a number exactly when it is its printed form behind zeros |
| DepTrace.ParseRecord | gem5/util/encode_inst_dep_trace.py:151-195 | parses a line field by field, with the source's three ways to fail |
| DepTrace.EncodeTrace | gem5/util/encode_inst_dep_trace.py:150-198 | parses line by line and stops at the first failure |
| CacheTree.NumTesters | gem5/configs/example/memtest.py:119-130 | the multiplier list and zip compute the testers of the tree, defined by recursion over its subtrees |
| CacheTree.ScaledTestersCount | gem5/configs/example/memtest.py:119-130 | summing per level with multipliers equals summing per subtree |
| CacheTree.ScalePrototypes | gem5/configs/example/memtest.py:193-217 | one prototype per cache level; size, associativity and MSHRs are the first level's times the product of the fan-outs before, latencies grow tenfold per level, and inclusivity and clean writebacks alternate |
| CacheTree.WholeTree | gem5/configs/example/memtest.py:234-303 | a tree built from zero counters has each name once, at each level as many subsystems as the earlier fan-outs multiply to, and each tester port and both sides of each cache wired exactly once |
| CacheTree.Builder.MakeCacheLevel | gem5/configs/example/memtest.py:239-300 | from any state of the counters that whole subtrees leave, the recursion adds one such subtree with exactly its wires, wires the cache below it once and never runs out of prototypes |
| CacheTree.Builder.MakeSubsystem | gem5/configs/example/memtest.py:242-263 | takes the next index of the level and adds the level's testers |
| CacheTree.Builder.BeginLevel | gem5/configs/example/memtest.py:242-271 | starts a subsystem whose own crossbar, and nothing else, is wired to the cache below |
| CacheTree.Builder.AddSubtree | gem5/configs/example/memtest.py:280-282 | wires a tree cache's memory side and builds the subtree on its processor side |
| CacheTree.Builder.AddTesters | gem5/configs/example/memtest.py:283-285 | wires every tester of the level through a cache of its own |
| CacheTree.Builder.MakeTopLevel | gem5/configs/example/memtest.py:286-300 | wires the uppermost testers, through a crossbar when there are several |
| CacheTree.WholeExact | gem5/configs/example/memtest.py:234-303 | the wires of the whole tree, each once, are those between the ends that belong together, and there are no others |
| CacheTree.DevicesJoined | gem5/configs/example/memtest.py:280-285 | each memory side is joined to the crossbar of its own subsystem and each tester below the uppermost level to the cache of its own number |
| CacheTree.SubsystemsHang | gem5/configs/example/memtest.py:265-300 | subsystem i of a level hangs, by its crossbar or at the uppermost level by its only tester, on tree cache i modulo the fan-out of subsystem i divided by the fan-out one level down, and on nothing else |
| CacheTree.RootHangsFree | gem5/configs/example/memtest.py:302-303 | the lowest crossbar is left for the memory |
| CacheTree.BuildTree | gem5/configs/example/memtest.py:193-303 | for every valid specification builds exactly numtesters testers, with all names distinct, every tester port and cache side wired once, and exactly the wires meant |
| CheckpointAggregator.ByteRelocated | gem5/util/checkpoint_aggregator.py:97-112 | byte p of checkpoint i is in the merged memory at p plus the offset added to its physical addresses |
| CheckpointAggregator.PlacedExactly | gem5/util/checkpoint_aggregator.py:97-112 | a checkpoint's memory starts at that offset if and only if all images before it are full |
| CheckpointAggregator.OffsetsDisjoint | gem5/util/checkpoint_aggregator.py:98-99 | the address ranges of different checkpoints do not overlap |
| CheckpointAggregator.EntriesStillPointHome | gem5/util/checkpoint_aggregator.py:67-80 | every page-table entry is written under its renamed section and points at the byte it pointed at before |
| CheckpointAggregator.ConfigExactly | gem5/util/checkpoint_aggregator.py:67-92 | the merged configuration holds the renamed and moved copies of all processor sections, with the process number where the name ends in it, the other sections of the last checkpoint unchanged, and nothing else |
| CheckpointAggregator.FdMapExactly | gem5/util/checkpoint_aggregator.py:79-80 | the process number goes to names that end in workload, any character and FdMap256 |
| CheckpointAggregator.CopyCpuSection | gem5/util/checkpoint_aggregator.py:68-80 | one processor section, item by item |
| CheckpointAggregator.MergedNamesDistinct | gem5/util/checkpoint_aggregator.py:67-95 | sections of all checkpoints are written under distinct names, none of them one of the two added at the end |
| CheckpointAggregator.RangeSizeExactly | gem5/util/checkpoint_aggregator.py:121-134 | `range_size` is the length of the padded memory if and only if every image is full |
| CheckpointAggregator.PaddedPages | gem5/util/checkpoint_aggregator.py:121-129 | the padded page count is the least, not below the pages copied, that covers the requested size |
| CheckpointAggregator.MaxTickIsMax | gem5/util/checkpoint_aggregator.py:84-87 | the tick written is the largest of any checkpoint |
| CheckpointAggregator.CopyPages | gem5/util/checkpoint_aggregator.py:105-112 | reading page by page copies the announced pages, or what there is of them |
| CheckpointAggregator.MergeSections | gem5/util/checkpoint_aggregator.py:67-92 | the loop over sections writes the relocated ones and keeps the largest tick |
| CheckpointAggregator.Pad | gem5/util/checkpoint_aggregator.py:121-129 | appends whole pages of the character '0' until the size is reached |
| CheckpointAggregator.Aggregate | gem5/util/checkpoint_aggregator.py:58-137 | the script as a whole, with its page, process and tick entries; it fails exactly when the last checkpoint lacks the section for the range size |
| SectionNames.RenamedInjective | gem5/util/checkpoint_aggregator.py:59-70 | two sections are renamed alike only if they are the same section of the same checkpoint |
| SectionNames.NumberedFirst | gem5/util/checkpoint_aggregator.py:69-69 | behind the first occurrence of cpu the digits are inserted, and the rest of the name is treated likewise |
| SectionNames.NumberedNothing | gem5/util/checkpoint_aggregator.py:69-69 | a name without an occurrence stays as it is |
| SectionNames.HasCpuExactly | gem5/util/checkpoint_aggregator.py:68-68 | the search finds cpu at any place and only cpu |
| SectionNames.ZeroFillExactly | gem5/util/checkpoint_aggregator.py:69-69 | the number is filled with zeros in front up to the width |
| SectionNames.HasCpuKept | gem5/util/checkpoint_aggregator.py:68-69 | a renamed section still has "cpu" in its name |
| ScriptCheckpoints.CountBounds | gem5/configs/common/Simulation.py:251-265 | against every simulator at most max(1, max_checkpoints) checkpoints are written, none but the first beyond maxtick |
| ScriptCheckpoints.AllWrittenExactly | gem5/configs/common/Simulation.py:238-265 | all checkpoints that fit, min(max_checkpoints, (maxtick - when) / period + 1), are written if and only if the first target is reached, every further period but the last reaches its limit at once, and the last one reaches it over checkpoint instructions or not |
| ScriptCheckpoints.AllCheckpointsWritten | gem5/configs/common/Simulation.py:238-265 | in particular if every call reaches its limit |
| ScriptCheckpoints.CheckpointInstEndsSeries | gem5/configs/common/Simulation.py:257-265 | for every run whose first checkpoint instruction after the first target falls in period k, exactly k checkpoints are written, or k + 1 if that period still reaches its limit, whatever follows |
| ScriptCheckpoints.CheckpointsLost | gem5/configs/common/Simulation.py:258-265 | one such instruction leaves two checkpoints where all that fit would have been written without it |
| ScriptCheckpoints.Simulator.SimulateTo | gem5/configs/common/Simulation.py:238-242 | goes on over checkpoint instructions and reaches the target tick exactly if the limit is reported; a target in the past ends the script |
| ScriptCheckpoints.Simulator.PeriodicCheckpoints | gem5/configs/common/Simulation.py:248-265 | the main loop writes its checkpoints at when, when + period, ... without a gap |
| ScriptCheckpoints.Simulator.TakeCheckpoints | gem5/configs/common/Simulation.py:236-265 | the branch as a whole: the number of checkpoints and the tick of each, and none when the first tick is in the past |
| CommentBlocks.ScanLineComments | gem5/util/find_copyrights.py:17-45 | yields exactly the maximal runs of comment lines that another line closes, up to the first line of code not directly behind a comment |
| CommentBlocks.ScanCComments | gem5/util/find_copyrights.py:47-93 | yields non-empty, disjoint, ascending blocks in bounds, each a whole C comment or a whole `//` notice, that account for every line before the stop; the three mode assertions hold, and the fourth fails exactly on a line with both kinds of comment |
| CommentBlocks.ScanUnique | gem5/util/find_copyrights.py:47-93 | from any line on, at most one choice of blocks, stop and pending comment has these properties |
| CommentBlocks.ScanDetermined | gem5/util/find_copyrights.py:47-93 | so the lines determine the blocks yielded and whether the scan fails |
| CommentBlocks.StopFrom | gem5/util/find_copyrights.py:25-27 | the scan stops at the first line of code that is not directly behind a comment |
| YearRanges.RoundTripExactly | gem5/util/find_copyrights.py:98-116 | reading the printed ranges gives the years back if and only if every range is a single year or lies between 1000 and 9999 |
| YearRanges.FourDigitYears | gem5/util/find_copyrights.py:98-116 | for four-digit years the round trip always holds |
| YearRanges.MatchRangeExactly | gem5/util/find_copyrights.py:98-106 | the regular expression matches exactly four digits, a dash that white space may surround, and four digits at the front of an item, and picks out the two numbers |
| YearRanges.PrintedExample | gem5/util/find_copyrights.py:180-199 | the years 2001, 2002, 2003 and 2005 as they are printed |
| YearRanges.FewestRanges | gem5/util/find_copyrights.py:188-197 | ranges separated by gaps are as few as any cover of the same years |
| YearRanges.SortYears | gem5/util/find_copyrights.py:176-177 | a strictly ascending list of exactly the years |
| YearRanges.GroupYears | gem5/util/find_copyrights.py:186-197 | the loop groups them into ascending ranges with gaps between them that cover exactly the years |
| YearRanges.DateStr | gem5/util/find_copyrights.py:175-199 | prints the fewest ranges that cover the years, readable again when all have four digits; fails exactly on the empty set |
| YearRanges.FormatRanges | gem5/util/find_copyrights.py:180-199 | prints range by range and joins with commas |
| YearRanges.ProcessDates | gem5/util/find_copyrights.py:99-116 | the loop collects the years of every item |
| YearRanges.AddItem | gem5/util/find_copyrights.py:104-114 | a range adds its years one by one, a number adds itself, and anything else adds nothing |
| RangeSweep.IsPow2Exactly | gem5/configs/dram/lat_mem_rd.py:145-146 | the bit test holds of the powers of two and of nothing else |
| RangeSweep.SizeNext | gem5/configs/dram/lat_mem_rd.py:157-161 | size and step follow a closed form, the step doubling every fourth size |
| RangeSweep.StepIsQuarter | gem5/configs/dram/lat_mem_rd.py:155-160 | the step is a quarter of the largest power of two not above the size |
| RangeSweep.SizeIsPow2 | gem5/configs/dram/lat_mem_rd.py:159-160 | a size passes the test exactly when its number is a multiple of four |
| RangeSweep.Ranges | gem5/configs/dram/lat_mem_rd.py:151-161 | the loop terminates with the sizes of the closed form, and only the last one reaches the maximum |
| RangeSweep.ListedSizes | gem5/configs/dram/lat_mem_rd.py:151-161 | sizes ascend strictly, and every power of two from 4096 to the last size is listed, at every fourth place and nowhere else |

## Left out

- PortBinder.ConfigManager.BindPorts: port roles and ports that an object does not have are not modelled, because those checks are in the parameter classes; a scalar port connected to itself is given two elements, where the script would give it one.
- Reading the configuration file, parsing and printing port names, and setting parameters in `read_config.py`: regular expressions and parameter classes.
- CheckpointUpgrader.Registry.ProcessFile: for registries in which no tag has both an upgrader and a downgrader; on others the script may fail in `tags.remove`, and the header comment rules them out.
- The type checks on script attributes, and the effect of individual upgraders and downgraders on the checkpoint: only which are applied, and in which order.
- CheckpointUpgrader.ReachesLeastFixedPoint: for registries of upgraders only; with downgraders readiness comes and goes, and there is no least such set.
- ReorderBuffer.Pipeview.ProcessRegion: starts at the first fetch line of the region; skipping lines up to it is not modelled, a store completion is taken to be tagged "store", and min_threshold is taken not to exceed max_threshold, as the script's constants have it.
- Colours, the header and the text behind the timeline.
- Compression, protobuf serialization and files: messages are byte sequences, and a decoded record is taken as it was before serialization.
- DepTrace.ParseRecord: the 32- and 64-bit upper bounds of the fields are not modelled, so that the round trip is for all naturals. Records are counted in neither direction.
- CacheTree.BuildTree: the limit of 64 testers and the random topologies only choose specifications and are not modelled; parameters of caches, crossbars and testers other than the prototype scaling are left out.
- CheckpointAggregator.Aggregate: the printed warnings are left out; that a parsed file has distinct section names is taken from ConfigParser.
- The branch of `scriptCheckpoints` for checkpoints at an instruction count.
- `repeatSwitch` and the other simulation drivers of `Simulation.py`: loops around simulator calls with little state of their own.
- CommentBlocks.ScanCComments: lines are given by what the regular expressions say of them; an unknown language and the extraction of owners and authors are not modelled.
- YearRanges.DateStr: years are natural numbers.
- SimObject construction scripts, address interleaving, option and registry modules, the runner, the viewers and the style hooks: they set parameters of classes outside these files or drive external programs.
