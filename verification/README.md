# Witchy verification model

A Dafny model of the parts of Witchy whose correctness is not visible from
reading one function: the parallel compile-time scheduler, the two artifact
formats with their strict readers, the bounded channel and the fannkuch kernel of
the benchmarks, the module loader, the binding plan, the sandbox's cycle check
and handshake, session allocation and the source highlighters. `dafny verify
dfyconfig.toml` checks the whole project.

| file | component |
|---|---|
| `Prelude.dfy` | outcomes, sets and sequences, the order on names |
| `ProducerGraph.dfy`, `ProducerOrder.dfy`, `SourceBlocks.dfy` | compile-time producers and blocks |
| `Flips.dfy`, `Odometer.dfy`, `Fannkuch.dfy` | the fannkuch kernel |
| `Channel.dfy` | the bounded channel |
| `Bytes.dfy`, `SourceInputs.dfy`, `TrustedImage.dfy`, `PortableWasm.dfy`, `ArtifactFormats.dfy`, `CodeBodies.dfy` | binary formats |
| `BindingPlan.dfy` | configured bindings against `main` |
| `ModuleLoader.dfy` | the authenticated loader |
| `PortableValue.dfy`, `FrameHandshake.dfy` | the sandbox |
| `SessionStore.dfy` | fixture sessions |
| `Highlight.dfy` | the highlighters |

How things are modelled. Code that changes things step by step is a method or a
class; its contract ties it to a specification function, and the lemmas are about
that function. Hashing, JSON, Wasm validation, regular expressions, file access,
parsing and the execution of a producer are arbitrary functions passed as
parameters, so the theorems hold for all of them. Bytes are integers below 256;
shifts and masks on unsigned integers are division, remainder and addition.
Errors that only differ in their text share a constructor.

Where the model shows something the source or its comments do not say:

- The second emptiness check of a batch (src/canonical_comptime.rs:312-314) is
  unreachable: a round with a ready producer always selects one.
- The trusted-publisher writer accepts an empty launcher template, and the reader
  refuses the image it gets (`TrustedImage.EmptyTemplateIsUnreadable`). The round
  trip holds exactly for non-empty templates outside one collision of the legacy
  magic, which needs a binding plan of 4984738529471121751 bytes.
- The portable reader's documentation asks for a canonically encoded section. The
  section size must be in shortest form, but two other things need not be as the
  writer makes them: the length of the section's name
  (`PortableWasm.PaddedNameIsAccepted`) and the encoding of the inputs
  (`PortableWasm.OtherEncodingIsAccepted`). An accepted file is the sealed form of
  its module and inputs exactly when the name's length is the single byte 16 and
  the input bytes are the encoder's own (`PortableWasm.AcceptedIsSealedIff`).
- The channel keeps its discipline exactly for capacities of at least one. With
  capacity zero a later send overtakes an earlier one (`Channel.NoRoomReorders`);
  values come out in sending order exactly for capacities of at least one
  (`Channel.FirstInFirstOutIff`).
- The body walk of the benchmark matrix digests a truncated last body without
  complaint (`CodeBodies.TruncatedBodyIsDigested`); the bodies of an accepted file
  are whole exactly when the end that the header of its code section announces
  lies within the file (`CodeBodies.WalkIsWholeIff`).

## Model

| member | source | states |
|---|---|---|
| `Names.SortedWithoutAdjacentDuplicates` | src/canonical_comptime.rs:258-262 | on sorted producers, looking at neighbours finds every duplicate |
| `Names.BeforeByIndex` | src/canonical_comptime.rs:258-259 | names are ordered by the first differing character, smaller first, a proper prefix before the longer name |
| `ProducerGraph.ScanPending` | src/canonical_comptime.rs:268-285 | the scan adds to the cache exactly the producers before the first failing scan, reports that failure, and marks as ready exactly those of them whose dependencies have completed |
| `ProducerGraph.NextSimulated` | src/canonical_comptime.rs:296-304 | the next simulated producer is the one the one-at-a-time scheduler would choose, and is missing exactly when that scheduler would choose none |
| `ProducerGraph.SelectBatch` | src/canonical_comptime.rs:290-311 | a batch is a run of successive one-at-a-time choices, within the bound, all ready at the start of the round, and non-empty exactly when something is ready |
| `ProducerGraph.ReadyNowDecides` | src/canonical_comptime.rs:286-288 | something is ready exactly when the one-at-a-time scheduler can choose, and its choice is among the ready ones |
| `ProducerGraph.AttachPredecessors` | src/canonical_comptime.rs:316-321 | each producer of a batch gets the outputs of its dependencies in output order |
| `ProducerGraph.RunBatch` | src/canonical_comptime.rs:322-347 | in turn or in parallel, the joined results are those of the producers in batch order, and an early failure is the first one in that order |
| `ProducerGraph.BatchIsGreedy` | src/canonical_comptime.rs:316-353 | running a batch with the predecessors known at the start of the round equals running its producers one at a time |
| `ProducerGraph.Commit` | src/canonical_comptime.rs:348-353 | committing results in order continues the one-at-a-time schedule or ends with the first failure; pending strictly shrinks |
| `ProducerGraph.ExecuteProducerGraph` | src/canonical_comptime.rs:249-356 | for every session and every parallelism bound the batched scheduler returns exactly what the one-at-a-time scheduler returns: outputs, order or failure |
| `ProducerOrder.ScheduleIsLeastTopologicalOrder` | src/canonical_comptime.rs:290-311 | on success the order is topological and lexicographically least among all topological orders |
| `ProducerOrder.ScheduleFeedsPredecessors` | src/canonical_comptime.rs:316-330 | every output is what its producer yields on exactly the earlier outputs of its dependencies |
| `ProducerOrder.PredecessorsKeepOrder` | src/canonical_comptime.rs:316-321 | the predecessors are exactly the outputs of the dependencies, picked by position in output order |
| `ProducerOrder.ScheduleExistsIff` | src/canonical_comptime.rs:258-314 | when no producer fails on the outputs of its dependencies, a schedule is found exactly for distinct producers with a topological order |
| `ProducerOrder.DuplicatesReportedIff` | src/canonical_comptime.rs:258-262 | duplicate producers are reported exactly when two positions hold the same name |
| `ProducerOrder.CyclicFailureIff` | src/canonical_comptime.rs:286-288 | with readable producers that depend on producers and none failing on the outputs of its dependencies, the cyclic failure is reported exactly when the import graph has a cycle |
| `ProducerOrder.ExactPredecessorsSuffice` | crates/witchy-types/src/pipeline/comptime_recipe/block_session.rs:241-253 | a session that runs a producer whenever its predecessors are exactly its dependencies never fails in a schedule, whatever it does with other names and predecessors |
| `ProducerOrder.ReportedFailureIff` | src/canonical_comptime.rs:267-354 | a message is reported exactly when the one-at-a-time choices, correctly fed, lead to a first producer that cannot be scanned, nothing before it being ready, or whose execution on its predecessors fails, with that message |
| `SourceBlocks.ExecuteBlocks` | src/canonical_comptime.rs:371-408 | the blocks of a session are executed to the end exactly when that takes at most 256 blocks and nothing fails; the limit is reported exactly when a block is left after 256, and a message exactly when the execution comes to a block that fails with it |
| `SourceBlocks.CompleteIsUnique` | src/canonical_comptime.rs:371-408 | a session has at most one complete execution |
| `Flips.ReversePrefix` | benchmarks/fannkuch.rs:24-30 | swapping from both ends reverses exactly the prefix |
| `Flips.FlipGainsWeight` | benchmarks/fannkuch.rs:23-33 | each flip strictly raises the sum of 2^i over the fixed points |
| `Flips.FlipCountBounded` | benchmarks/fannkuch.rs:23-33 | the flips of a permutation of n elements end after fewer than 2^n |
| `Flips.FlipCountIsTrailLength` | benchmarks/fannkuch.rs:20-33 | the flip count is the number of flips of every trail that flips at the first element until it is zero |
| `Flips.TrailExists` | benchmarks/fannkuch.rs:20-33 | every permutation has such a trail |
| `Flips.CountFlips` | benchmarks/fannkuch.rs:19-33 | the loop terminates on every permutation, counts its flips and leaves a permutation starting with zero |
| `Odometer.RoundMeetsEveryPermutationOnce` | benchmarks/fannkuch.rs:12-67 | one round of the odometer from the identity meets every permutation of 0..n exactly once, n! of them |
| `Odometer.FullRound` | benchmarks/fannkuch.rs:53-64 | a full round of one wheel restores the permutation |
| `Odometer.RotateByIndex` | benchmarks/fannkuch.rs:53-57 | rotating moves each of the first m elements one place down and the first to the end |
| `Odometer.ResetWheels` | benchmarks/fannkuch.rs:13-16 | resetting the lower wheels neither adds nor loses a permutation to meet, nor changes where the round ends |
| `Odometer.TurnWheel` | benchmarks/fannkuch.rs:47-65 | turning a wheel either starts the lower wheels over at the rotated permutation or makes the next wheel due, losing no permutation |
| `Odometer.RestLength` | benchmarks/fannkuch.rs:12-67 | the permutations left to meet number what the wheels read in factorial base |
| `Fannkuch.RotatePrefix` | benchmarks/fannkuch.rs:53-57 | shifting in place rotates the prefix by one |
| `Fannkuch.ResetCounts` | benchmarks/fannkuch.rs:13-16 | the lower counters are set to their starting positions and no other counter changes |
| `Fannkuch.Tally` | benchmarks/fannkuch.rs:18-44 | the flips of the current permutation enter the maximum and, by parity, the checksum; the permutation itself is untouched |
| `Fannkuch.ChecksumSplits` | benchmarks/fannkuch.rs:39-43 | the checksum of one permutation is its flip count, and what follows an odd number of permutations enters with the opposite sign |
| `Fannkuch.Advance` | benchmarks/fannkuch.rs:46-65 | moving on leaves exactly the rest to be met, or ends with nothing left |
| `Fannkuch.Pass` | benchmarks/fannkuch.rs:12-67 | one pass visits one permutation and keeps visited plus remaining equal to the whole round |
| `Fannkuch.UnderwayCounts` | benchmarks/fannkuch.rs:12-67 | visited permutations, the block about to start and the factorial-base reading of the upper wheels add up to n! |
| `Fannkuch.Kernel` | benchmarks/fannkuch.rs:3-68 | for every n the kernel visits exactly the whole round, in order, the odometer counting down: its maximum, printed checksum, final count n! - 1 and final identity |
| `Fannkuch.AnswerIsMaximum` | benchmarks/fannkuch.rs:35-50 | the answer bounds the flip count of every permutation of 0..n and is reached by one |
| `Channel.BoundedChannel.constructor` | benchmarks/chan_throughput.js:2-8 | a new channel is empty and open |
| `Channel.BoundedChannel.SendValue` | benchmarks/chan_throughput.js:10-26 | a send is the model's send step on the whole state |
| `Channel.BoundedChannel.CloseChannel` | benchmarks/chan_throughput.js:28-34 | closing resolves every parked receiver with the end and changes nothing else |
| `Channel.BoundedChannel.ReceiveValue` | benchmarks/chan_throughput.js:36-51 | a receive is the model's receive step on the whole state, with its immediate answer |
| `Channel.SendKeepsGood` | benchmarks/chan_throughput.js:10-26 | a send keeps conservation, parking order and buffer discipline |
| `Channel.ReceiveKeepsGood` | benchmarks/chan_throughput.js:36-51 | a receive keeps them when the capacity is at least one |
| `Channel.CloseKeepsGood` | benchmarks/chan_throughput.js:28-34 | closing keeps them |
| `Channel.CloseEndsReceivers` | benchmarks/chan_throughput.js:28-34 | closing closes the channel, ends exactly the calls that wait and changes nothing else |
| `Channel.RunIsGood` | benchmarks/chan_throughput.js:1-58 | after every sequence of calls: received, buffered and parked values make up the send history; receivers park only on an empty channel, senders only on a full one, none on a closed one |
| `Channel.RunRecords` | benchmarks/chan_throughput.js:1-58 | for every capacity and run: the history is what was sent, every receive call has its answer or waits, the channel is closed exactly by a close, and no receive waits from then on |
| `Channel.DisciplineNeedsRoom` | benchmarks/chan_throughput.js:16-25 | that holds on every run exactly when the capacity is at least one |
| `Channel.NoRoomReorders` | benchmarks/chan_throughput.js:10-51 | with capacity zero there is a run in which a later value is received first |
| `Channel.FirstInFirstOutIff` | benchmarks/chan_throughput.js:10-51 | values are received in sending order on every run exactly when the capacity is at least one |
| `Channel.FirstInFirstOut` | benchmarks/chan_throughput.js:10-51 | the i-th receive call that gets a value gets the i-th value sent |
| `Channel.ReceiveGetsOldest` | benchmarks/chan_throughput.js:36-43 | while values are outstanding a receive gets the oldest |
| `Channel.RunSettles` | benchmarks/chan_throughput.js:10-51 | a promise that has resolved never changes in the rest of a run |
| `Channel.DoneMeansDrained` | benchmarks/chan_throughput.js:28-47 | a receive call learns of the end at one moment, when the channel is closed and everything sent has been received |
| `Bytes.LowBytesFirst` | src/trusted_publisher.rs:668-681 | fixed-width numbers have their lowest byte first |
| `Leb128.WriteLeb` | src/portable_artifact.rs:109-119 | appends the shortest LEB128 encoding |
| `Leb128.ReadInteger` | scripts/performance-matrix.py:30-39 | the accumulating reader computes the LEB128 value and end position, or fails at the end of the data |
| `Leb128.LebRoundTrip` | scripts/performance-matrix.py:30-39 | the reader inverts the writer for every value at every position |
| `Leb128.LowGroupsFirst` | src/portable_artifact.rs:109-119 | the lowest seven bits come first, and the top bit says whether more bytes follow |
| `Leb128.ShortestForm` | src/portable_artifact.rs:92-96 | an encoding is the shortest exactly when it does not end in a zero group, a lone zero aside |
| `CodeBodies.Bodies` | scripts/performance-matrix.py:27-59 | the loop over sections is the specified walk, with each of its failures |
| `CodeBodies.CodeSection` | scripts/performance-matrix.py:48-57 | the loop over bodies digests each and accepts exactly when it ends at the section's end |
| `CodeBodies.WalkFindsBodies` | scripts/performance-matrix.py:43-58 | for every module with a code section the walk returns the digests of its bodies in order |
| `CodeBodies.TruncatedBodyIsDigested` | scripts/performance-matrix.py:51-57 | a file that ends inside its last body is accepted |
| `CodeBodies.BodiesAreWholeIff` | scripts/performance-matrix.py:51-54 | a run of bodies is read whole exactly when the position after it lies within the data |
| `CodeBodies.CodeIsWholeIff` | scripts/performance-matrix.py:48-57 | the bodies of an accepted code section are whole exactly when the end its header gives lies within the data |
| `CodeBodies.WalkIsWholeIff` | scripts/performance-matrix.py:43-58 | an accepted file yields whole bodies exactly when the announced end of its first code section lies within the file |
| `ArtifactFormats.InputsAreNotTransplanted` | src/portable_artifact.rs:27-35 | no accepted portable file holds the inputs of an accepted trusted-publisher image, unless the digest confuses the launcher that image starts with and the portable domain |
| `TrustedImage.ReadsAsIsLayout` | src/trusted_publisher.rs:851-891 | reading the descriptor's fields at their offsets succeeds with given values exactly when its bytes are the written ones |
| `TrustedImage.AcceptedIsImage` | src/trusted_publisher.rs:833-902 | whatever the reader accepts is launcher, Wasm, bindings, inputs and their exact descriptor, part for part |
| `TrustedImage.ImageIsAccepted` | src/trusted_publisher.rs:833-902 | an acceptable image is accepted, or refused as legacy exactly on the magic collision |
| `TrustedImage.ProbeAcceptsExactly` | src/trusted_publisher.rs:833-902 | the accepted images are exactly the acceptable ones outside the collision |
| `TrustedImage.LegacyWindow` | src/trusted_publisher.rs:834-838 | the legacy check sees the bindings length followed by digest bytes |
| `TrustedImage.CollisionIff` | src/trusted_publisher.rs:834-838 | the legacy check misfires for one bindings length and one digest prefix only, never below 2^62 bytes |
| `TrustedImage.BuildDescriptor` | src/trusted_publisher.rs:668-684 | appending the fields one by one gives the 232-byte descriptor |
| `TrustedImage.Package` | src/trusted_publisher.rs:644-700 | packaging succeeds exactly under its checks and yields the image of its parts, or the first failing check |
| `TrustedImage.PackageSucceedsIff` | src/trusted_publisher.rs:644-700 | packaging succeeds exactly for a plain template, valid Wasm with a launch contract, inputs that pass once bound to the template, and an image within 64 bits, whatever the inputs were bound to before |
| `TrustedImage.PackageRefusals` | src/trusted_publisher.rs:644-700 | the first failing check decides the refusal, in the order template, Wasm, launch contract, inputs, size |
| `TrustedImage.PlainImageIff` | src/trusted_publisher.rs:833-845 | an image carries no application exactly when its tail shows neither the current nor the legacy magic |
| `TrustedImage.PackageRoundTrip` | src/trusted_publisher.rs:644-700 | the reader recovers exactly what was packaged if and only if the template is non-empty and there is no collision, refuses the image otherwise, and an image cannot be packaged again |
| `TrustedImage.EmptyTemplateIsUnreadable` | src/trusted_publisher.rs:644-700 | packaging onto an empty template succeeds and the result is refused |
| `TrustedImage.LoadIsProbe` | src/trusted_publisher.rs:706-742 | loading from the tail decides as probing the whole image does, and the descriptor never disappears in between |
| `PortableWasm.ScanSections` | src/portable_artifact.rs:70-84 | the loop finds the one source section, or fails on a malformed or second one |
| `PortableWasm.HeaderIsCanonicalIff` | src/portable_artifact.rs:92-97 | the comparison before the payload succeeds exactly for a shortest-form size, and then starts at the section's id byte |
| `PortableWasm.VarU32RoundTrip` | src/portable_artifact.rs:71-72 | every 32-bit value is read back from its shortest encoding, and no reading exceeds five bytes or 32 bits |
| `PortableWasm.ScanFinds` | src/portable_artifact.rs:71-85 | a found section starts at a section boundary, and what precedes it is a module without a source section |
| `PortableWasm.ProbeAcceptsExactly` | src/portable_artifact.rs:68-107 | the reader accepts exactly a module without source followed by a canonical section that describes that very module |
| `PortableWasm.Seal` | src/portable_artifact.rs:29-51 | sealing appends the section under its checks, or gives the first failing check |
| `PortableWasm.SealSucceedsIff` | src/portable_artifact.rs:29-51 | sealing succeeds exactly for a module without source, inputs that pass once bound to the portable format, and a payload within the limit, whatever the inputs were bound to before |
| `PortableWasm.SealRefusals` | src/portable_artifact.rs:29-45 | the first failing check decides the refusal, in the order module, audit, profile, size |
| `PortableWasm.SealRoundTrip` | src/portable_artifact.rs:29-51 | probing a sealed module returns that module and the rebound inputs, and sealing it again is refused |
| `PortableWasm.PaddedNameIsAccepted` | src/portable_artifact.rs:92-106 | a padded name length is accepted beside the sealed form |
| `PortableWasm.OtherEncodingIsAccepted` | src/portable_artifact.rs:98-106 | other bytes that decode to the same inputs are accepted beside the sealed form |
| `PortableWasm.CanonicalPayloadIff` | src/portable_artifact.rs:37-42 | an accepted payload is the written one exactly when its name length is the byte 16 and its input bytes are the encoder's |
| `PortableWasm.AcceptedIsSealedIff` | src/portable_artifact.rs:64-107 | an accepted file is what sealing its module and inputs gives under exactly those two conditions |
| `BindingPlan.FsRights` | src/trusted_publisher.rs:575-589 | rights are collected exactly when every argument is Read or Write |
| `BindingPlan.KindByType` | src/trusted_publisher.rs:260-394 | which unqualified type name asks for which kind of binding |
| `BindingPlan.BindParameter` | src/trusted_publisher.rs:260-394 | one step of the parameter loop, each kind written out, is the specified binding step |
| `BindingPlan.BindOne` | src/trusted_publisher.rs:260-394 | binding one more parameter succeeds exactly when all parameters so far are compatible, and takes exactly its binding |
| `BindingPlan.LeftoversDecide` | src/trusted_publisher.rs:402-406 | nothing is left over exactly when, in each section, the configured names are the parameters' names |
| `BindingPlan.BuildBindingPlan` | src/trusted_publisher.rs:254-420 | a plan is built exactly when `main` and the configuration fit together, and it is the plan they determine |
| `BindingPlan.FitsIff` | src/trusted_publisher.rs:254-420 | fitting together by kinds is fitting together by type names and positions: every parameter served, no binding shared or left over, programs with a readable directory, secrets with a store and a provider |
| `BindingPlan.PlanFollowsMain` | src/trusted_publisher.rs:260-371 | each list of grants follows the parameters of its type one for one, in their order, under their names, with the rights their types name |
| `BindingPlan.PlanKeepsNames` | src/trusted_publisher.rs:280-345 | directories, files and network grants keep parameter order, environment names are strictly sorted with none added or lost |
| `BindingPlan.PlanKeepsBindings` | src/trusted_publisher.rs:297-371 | every planned grant carries its configured source, path, addresses (all of them when unrestricted) or programs, and exactly the rights its type names |
| `ModuleLoader.QueueImports` | src/source.rs:839-879 | the imports of a module are queued in order, visited and precompiled ones aside; precompiled ones are assigned once; a failure is that of the first import that cannot be resolved |
| `ModuleLoader.LoadModules` | src/source.rs:751-881 | terminates when the import graph of the entry is finite; the load succeeds exactly when the walk can empty its queue, and fails with a message exactly when the walk comes to a module that fails with it |
| `ModuleLoader.WalksAgree` | src/source.rs:799-881 | two walks from the same entry visit the same modules in the same order as far as both go |
| `ModuleLoader.StopDecides` | src/source.rs:804-881 | once a walk stops at a failing module no load succeeds and no other message is possible |
| `ModuleLoader.LoadDecides` | src/source.rs:799-881 | once a walk empties its queue no load fails and every load visits the same modules in the same order |
| `ModuleLoader.LoadIsClosure` | src/source.rs:802-881 | the loaded modules are exactly the import closure of the entry, precompiled modules being leaves |
| `ModuleLoader.LoadIsBreadthFirst` | src/source.rs:799-804 | modules come in order of their import distance from the entry, a distance some chain of imports attains and none undercuts |
| `ModuleLoader.SiblingsBelongToFirstImporter` | src/source.rs:870-878 | a sibling is looked for beside the first module that imports it and belongs to its package and directory |
| `ModuleLoader.DependenciesKeepTheirOwner` | src/source.rs:843-869 | a dependency is looked for at its configured path under its configured owner, a bundled module beside the entry under the toolchain's |
| `ModuleLoader.OneOwnerPerModule` | src/source.rs:836-860 | every visited module has exactly one loop-time owner assignment, its own |
| `ModuleLoader.OneOwnerPerPrecompiled` | src/source.rs:839-853 | every precompiled module that is imported and not itself visited has exactly one loop-time owner assignment, the given one |
| `ModuleLoader.BundledModulesStayBundled` | src/source.rs:806-820 | a bundled source is owned by the toolchain, and a closed package cannot replace it |
| `ModuleLoader.EnterIff` | src/source.rs:804-836 | a module is entered as user code or as the bundled module under exactly these conditions on file, authentication and bundle |
| `ModuleLoader.ResolveIff` | src/source.rs:843-878 | an import resolves to a dependency first, then to a bundled module, then to a sibling of its importer |
| `ModuleLoader.SourcesAreAuthentic` | src/source.rs:804-836 | every loaded file passed authentication under its proposed owner, and every other source is the bundled one |
| `ModuleLoader.UserModulesIff` | src/source.rs:821-860 | the user modules are the visited user code and the imported precompiled modules that were not visited |
| `PortableValue.Checker.AssertPortable` | web/witchy-cell-sandbox.js:49-73 | the recursive check gives the specified verdict and restores its path set on normal return |
| `PortableValue.ChildrenArePlaces` | web/witchy-cell-sandbox.js:59-70 | what is visited is what the object holds: array items by index, record entries by key, nothing of bytes |
| `PortableValue.AcceptedIff` | web/witchy-cell-sandbox.js:49-73 | accepted exactly when everything reachable is plain and no walk meets an object twice; sharing is allowed |
| `PortableValue.ComplaintIsGenuine` | web/witchy-cell-sandbox.js:53-67 | the path of a complaint leads to a non-cloneable value, an object on its own path or a non-plain object, and everything visited before is clean |
| `FrameHandshake.RunIsSound` | web/witchy-cell-sandbox.js:109-156 | in every run INIT is posted at most once and after READY, at most one action starts, and the page settles at most once, with the first result, a failed post after READY or the timeout, letting go of everything |
| `FrameHandshake.SettledIsFinal` | web/witchy-cell-sandbox.js:114-122 | a settled page never changes again |
| `FrameHandshake.ResolvedMeansHandshake` | web/witchy-cell-sandbox.js:130-149 | a resolved page went through READY, INIT and an action, with a result the frame posted |
| `FrameHandshake.TimeoutSettles` | web/witchy-cell-sandbox.js:123-129 | the timeout settles whatever is not settled |
| `FrameHandshake.SettlesIff` | web/witchy-cell-sandbox.js:123-152 | what settles an unsettled page and with which outcome: a delivered result, a matching READY while posting fails, or the timer with the current progress |
| `FrameHandshake.ReadyIsAnswered` | web/witchy-cell-sandbox.js:139-153 | a listening page answers the matching READY with INIT unless posting fails, and reacts to no other window message |
| `FrameHandshake.RunReportsProgress` | web/witchy-cell-sandbox.js:111-143 | in every run the progress of an unsettled page is the last stage the frame reported, or what the page waits for |
| `FrameHandshake.HandshakeCompletes` | web/witchy-cell-sandbox.js:130-153 | from any state of any run in which the page listens, READY, INIT and a result complete the handshake |
| `FrameHandshake.Page.Settle` | web/witchy-cell-sandbox.js:114-122 | the first settlement releases timer, listener, port and frame; later ones do nothing |
| `FrameHandshake.Page.ReceiveWindow` | web/witchy-cell-sandbox.js:139-153 | only the first matching READY posts INIT or settles with the post error |
| `FrameHandshake.Page.ReceivePort` | web/witchy-cell-sandbox.js:130-137 | progress is recorded, a result settles, anything else is ignored |
| `FrameHandshake.Page.ReceiveTimer` | web/witchy-cell-sandbox.js:123-129 | an armed timer settles with the current progress |
| `FrameHandshake.Frame.ReceiveMessage` | web/witchy-cell-frame.js:34-47 | only the first proper INIT starts an action |
| `SessionStore.AllocationFailsIff` | src/lib.rs:934-943 | with one probe more than live sessions, allocation fails exactly when every identifier is live, from any counter position |
| `SessionStore.AllocationIsFirstFree` | src/lib.rs:934-943 | allocation returns the first free identifier in wrapping order and leaves the counter after the last one probed |
| `SessionStore.FixtureSessionStore.AllocateSession` | src/lib.rs:934-943 | the loop allocates a free non-zero identifier within live + 1 probes, or all are live |
| `SessionStore.FixtureSessionStore.Open` | src/lib.rs:897-912 | opening is the opening step of a run: it adds one session under a fresh identifier, or leaves the sessions as they were |
| `SessionStore.FixtureSessionStore.Consume` | src/lib.rs:922-932 | finishing or discarding is the consuming step of a run: it removes the session, and an unknown one is reported |
| `SessionStore.ConsumedAtMostOnce` | src/lib.rs:897-932 | over every run an identifier is handed out as often as it is consumed, plus once while live |
| `Highlight.TextOfEscaped` | web/witchy-highlight.js:32-34 | decoding undoes escaping |
| `Highlight.EscapedHasNoMarkup` | web/witchy-highlight.js:32-34 | escaped text holds no tag delimiters |
| `Highlight.TextOfRendered` | web/witchy-highlight.js:58-86 | dropping the tags and decoding the entities of rendered pieces gives their source |
| `Highlight.WordClassIff` | web/witchy-highlight.js:72-82 | a word is a keyword before a literal before a builtin before a capitalised type, or bare |
| `Highlight.GapsAndMatchesAlternate` | web/witchy-highlight.js:91-126 | gaps and matches alternate, and every match has the class of its group |
| `Highlight.StringAlternates` | web/witchy-highlight.js:43-56 | string parts and interpolations alternate in a string |
| `Highlight.WitchyToken` | web/witchy-highlight.js:66-83 | a token is painted by its group: comment, string, number, lifetime or word |
| `Highlight.HighlightString` | web/witchy-highlight.js:43-56 | for every matcher the highlighted string reads back as the string |
| `Highlight.HighlightWitchy` | web/witchy-highlight.js:58-86 | for every matcher the highlighted source reads back as the source, interpolated strings included, each token painted by its group |
| `Highlight.HighlightShell` | web/witchy-highlight.js:91-105 | the same for shell text: comments, strings, variables and options in their classes |
| `Highlight.HighlightToml` | web/witchy-highlight.js:109-126 | the same for TOML: comments, sections, keys, strings, booleans and numbers in their classes |

## Left out

- Fannkuch.Kernel: does not model 32-bit overflow. The printed `checksum * 1000 + max_flips` leaves the 32-bit range from n = 12 on (there the checksum is 3968050), `perm_count` from n = 13 on. n = 0 is excluded because the source underflows there.
- TrustedImage.Package: models a 64-bit platform, so a length always fits the descriptor; error texts that share a cause share a constructor.
- TrustedImage.LoadIsProbe: takes the file as one unchanging byte string; opening, seeking and reading it are not modelled.
- PortableWasm.ScanSections: what a section other than a custom one may hold is a parameter, and the order of sections is not checked, as validation is a separate step.
- BindingPlan.BuildBindingPlan: refusals carry no text; the providers of secrets are checked but the list of secrets in the plan is not modelled; the encoding of the plan, the declared contract and the confinement mode are not modelled.
- ModuleLoader.LoadModules: the assignments for the bundled toolchain appended after the loop (src/source.rs:883-890) are not modelled, nor are directories beyond how a path is joined.
- Highlight.HighlightWitchy: the regular expressions are parameters that find non-empty matches, each in one group; which text they match is not modelled.
- FrameHandshake.RunIsSound: assumes that only the page sends INIT with its token; forged tokens are outside the model.
- PortableValue.AcceptedIff: property getters and sparse array holes are not modelled.
- ProducerGraph.RunBatch: threads are modelled by their joined results; a panicking worker is not.
- Compiler crates behind admission, lowering and execution are arbitrary functions here.
- `resolve_binding_plan`, `package_file` and the command line: files, processes and text.
- The resolver for bundled sources in `src/lib.rs` repeats the loader's closure and would only add easier members.
- `receivePriority` in the fan-in benchmark and the other benchmark kernels.
- The editor services and statistics records.
