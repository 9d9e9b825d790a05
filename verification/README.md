# TensorFlow C API, Go binding and StreamExecutor: a verified model

This project models, in Dafny, the parts of the TensorFlow C API, of its Go binding and of the StreamExecutor
host layer that have real state, arithmetic or program transformation in them, and proves what they are for.
`dafny verify dfyconfig.toml` checks all of it.

## What is modelled

**While loops** (`GraphModel`, `Dataflow`, `DataflowRuns`, `WhileGraph`, `WhileMeaning`, `WhileStops`, `WhileCorrect`,
`WhileTheorem`, `WhileExamples`, `WhileLowering`, `WhileFinish`). `TF_FinishWhile` is a small compiler: it copies a
condition graph and a body graph into a parent graph, between Enter, Merge, Switch, NextIteration and Exit nodes.
`Dataflow` gives such graphs the executor's meaning, in which a node fires once for each frame and iteration, with a
live, dead or missing token on each edge. `DataflowRuns` gives them runs, in which ready nodes fire one at a time and
in any order. `WhileMeaning` gives the loop its meaning as a program, by its data edges: test, apply the body, repeat.
The main theorem is an equivalence. For all kernels and all initial values, whenever the source loop stops, the
lowered graph lets every loop variable out exactly once, with its value after the last iteration, and then falls
silent, **if and only if** the loop is `Lowerable`, a condition on what the caller hands over:

- the copy of the condition can execute (`Feeds`);
- the condition needs some variable that ends with the loop (`CondGuarded`): the body computes it from loop variables,
  or cannot compute it at all;
- the copies of the body's outputs can execute, or the condition only reads variables that the body hands on among
  themselves and that entered the loop with equal values (`Frozen`), so that the loop stops at once or never.

The "only if" is a finding about the code, twice. The nodes of the body that read no loop variable hang on the first
Switch node by a control edge alone, and a control edge of a live Switch is live even where its true output is dead; so
a body output that needs no loop variable is computed once more after the loop has stopped, and a condition that does
not notice lets the loop exit again (`ConstantLoopFails`). And a control edge from the placeholder of a loop variable
is not remapped, so that its copy waits for a placeholder that nothing feeds (`LateLoopFails`). `FinishWhile` is the
builder itself, an imperative method on a graph with its name index, for all graphs that import can copy, loops inside
them included. It is proved to build exactly the graph that the theorem is about, or to leave a prefix of it, and it is
said when that prefix has a Merge with nothing behind it. `BuildWhile` puts builder and theorem together.

**Graphs and sessions** (`GraphImport`, `GraphBuilder`, `Gradients`, `SessionDelivery`, `GraphLifetime`, `GoSession`).
Operations, imports with any options, and loops keep the name index in agreement with the graph; operations and imports
that fail leave no trace in either but used ids. `TF_AddGradients` keeps it **if and only if** the names of what it adds
are distinct and unused; a second call can break it (`SecondCallBreaksIndex`), for good. The delivery of a growing
graph to sessions, the reference-counted deletion of graphs and the Go close protocol are step machines with any number
of threads; their theorems are about every state of every run.

**Codecs** (`Varint`, `StringTensor`, `TensorShape`, `GoTensor`, `GoNumeric`, `GoStrings`). String tensors as C++ and as
Go write and read them, and nested Go slices as tensors. The length prefix is the varint of the Protocol Buffers Encoding
specification, section "Base 128 Varints". The two implementations of the string format are proved to write the same
bytes, and every codec to invert itself. Where acceptance does not imply that a value comes back, the exact condition
is proved and an input is given: ragged slices (`RaggedAccepted`) and sizes that wrap around (`WrappedAccepted`,
`WrappedStringsAccepted`). The C++ format has such a case only for data of 2^63 bytes and more (`LongString`), and no
buffer of that size exists.

**Device arithmetic** (`TensorLayout`, `Occupancy`, `RegisterSearch`). Strides are a bijection whatever the layout and
rank. The occupancy is the greatest number of blocks that fit. The register search, which skips, finds the true
maximum for all devices of a warp size and granularity **if and only if** its step loses nothing (`Lossless`): the
granularity is a multiple of the warp or between one and two warps, or the loss comes only beyond the range of the search, or
the step is too large for an int and is not taken for zero (`SearchExactIff`).

**Argument lists, attribute lists, registries** (`KernelArgs`, `AttrLists`, `PluginRegistry`, `ExecutorCache`).
Replay of arguments kept by kind, getters for which the reported sizes suffice, defaults that resolve, and a cache
that is a flat table.

Where the code works by changing things step by step the model is a class or a method with loops, proved against a
function; where several threads are at work it is a step machine; elsewhere it is functions. Critical sections are
single steps. Results of code outside the model (validation of an operation, `Session::Extend`, `TF_CloseSession`)
are parameters, or steps with both outcomes. Integers are unbounded except where a width matters; there, the wrap is
written out. Where the code and its documentation differ, the model follows the code: the Go documentation asks that
all slices of a slice have the same length, and the code checks this on the first path and on each slice by itself.

## Model

| member | source | states |
|---|---|---|
| Dataflow.OutcomeDependsOnEarlier | tensorflow/core/common_runtime/executor.cc:1892-1990 | A firing is determined by firings of earlier iterations and of earlier nodes of the same iteration, so the meaning of a loop graph is well founded despite its back edges |
| Dataflow.ExecutedConsistent | tensorflow/core/common_runtime/executor.cc:2372-2460 | For every graph, kernels and inputs there is a table of firings that obeys the propagation rules at every node, frame and iteration |
| Dataflow.ConsistentUnique | tensorflow/core/common_runtime/executor.cc:2372-2460 | That table is unique: two executions that obey the rules agree everywhere |
| DataflowRuns.EarlyOutcome | tensorflow/core/common_runtime/executor.cc:2372-2460 | A node that fires as soon as it is ready, a Merge at its first live input, fires with the outcome that the complete execution gives it |
| DataflowRuns.RunAgrees | tensorflow/core/common_runtime/executor.cc:2044-2080 | In every run, whatever the order of its steps, everything that has fired agrees with the unique execution |
| DataflowRuns.FinishedComplete | tensorflow/core/common_runtime/executor.cc:1997-2042 | When nothing more can fire, everything that the unique execution fires has fired |
| DataflowRuns.RunLength | tensorflow/core/common_runtime/executor.cc:1997-2042 | A run has fired as many nodes as it has made steps |
| WhileMeaning.CopyLive | tensorflow/c/c_api.cc:1858-1889 | With live loop variables, a copied node fires live in each iteration with the value that it has in the source graph |
| WhileMeaning.CopyBlocked | tensorflow/c/c_api.cc:1858-1889 | A copied node that needs a loop variable does not fire while that variable is missing |
| WhileMeaning.CopyNotLive | tensorflow/c/c_api.cc:1858-1889 | A copied node that needs a loop variable is not live where that variable is dead or missing |
| WhileMeaning.CopyUnfed | tensorflow/core/graph/graph_constructor.cc:580-582 | The copy of a node that waits, over any edges, for a placeholder never fires |
| WhileStops.KeptValues | tensorflow/c/c_api.h:922-942 | Variables that the body hands on among themselves, from equal starts, keep their values |
| WhileStops.TermTells | tensorflow/c/c_api.h:922-942 | With kernels that compute terms, equal outputs were computed from equal variables |
| WhileStops.CanStopLaterIff | tensorflow/c/c_api.h:922-942 | For some kernels and inputs the source loop stops after running its body, if and only if it is not frozen |
| WhileCorrect.BackEdgeResolves | tensorflow/c/c_api.cc:1779-1801 | The name in the back edge of each Merge resolves to the NextIteration node of its variable, and to no other |
| WhileCorrect.MergeFirst | tensorflow/core/kernels/control_flow_ops.cc:215-237 | In the first iteration a Merge forwards the value that entered the loop |
| WhileCorrect.MergeLater | tensorflow/core/kernels/control_flow_ops.cc:215-237 | In later iterations a Merge forwards what NextIteration gave it, and fires only if that is live |
| WhileCorrect.IterationsHold | tensorflow/c/c_api.cc:1986-2062 | For as long as the source loop goes on, the Merges of iteration t hold the loop variables after t applications of the body |
| WhileCorrect.NeverExits | tensorflow/c/c_api.cc:1986-2062 | A loop whose condition nothing feeds lets no variable out in any iteration |
| WhileCorrect.NextUnfed | tensorflow/c/c_api.cc:1986-2062 | A variable whose body output nothing feeds does not reach another iteration |
| WhileCorrect.ExitsOnceIfGuarded | tensorflow/c/c_api.cc:1986-2062 | If the loop is guarded, what it needs can execute and it stops after k iterations, each Exit is live exactly in iteration k, with the variable after k applications of the body |
| WhileTheorem.QuietIfGuarded | tensorflow/c/c_api.cc:1986-2062 | After a guarded loop has stopped in iteration k no node fires in any iteration after k + 1 |
| WhileTheorem.UnguardedExitsTwice | tensorflow/c/c_api.cc:1986-2062 | An unguarded loop that stops at once lets some variable out in two iterations |
| WhileTheorem.UnfedConditionFails | tensorflow/c/c_api.cc:908-910 | A valid loop whose condition nothing feeds is not computed, however soon it stops |
| WhileTheorem.UnfedBodyFails | tensorflow/c/c_api.cc:908-910 | A valid loop with a body output that nothing feeds is not computed once it runs its body |
| WhileTheorem.LoweringCorrectIff | tensorflow/c/c_api.cc:1986-2062 | The lowered graph computes a valid source loop for all kernels and inputs if and only if the loop is lowerable |
| WhileTheorem.RunsComputeLoop | tensorflow/c/c_api.cc:1986-2062 | Every run of a lowerable loop that stops is bounded, in it a live exit carries only the final value, and a finished run has let every variable out |
| WhileExamples.ConstantLoopFails | tensorflow/c/c_api.cc:1986-2062 | A loop whose condition reads its variable, which the body replaces by a constant, is valid, can execute, and is not computed |
| WhileExamples.LateLoopFails | tensorflow/c/c_api.cc:908-910 | A guarded loop whose condition waits for the placeholder of its variable is valid and is not computed |
| WhileExamples.PlainLoopComputed | tensorflow/c/c_api.cc:1986-2062 | Without that edge it is computed |
| WhileExamples.FixedLoopComputed | tensorflow/c/c_api.cc:1986-2062 | A loop with a constant condition is computed although its body cannot execute |
| GraphModel.ForwardEdgesAcyclic | tensorflow/c/c_api.cc:1779-1801 | In a well-formed graph the edges other than back edges form no cycle, along any path |
| GraphBuilder.Graph.constructor | tensorflow/c/c_api.cc:1592-1598 | A new graph has the two sentinels, an empty index, and is valid |
| GraphBuilder.Graph.FinishOperation | tensorflow/c/c_api.cc:1116-1147 | An accepted operation is appended and indexed; a duplicate name, a rejected or a refused one leaves live nodes and index as they were, and the invariant holds |
| GraphImport.ImportedPrecedes | tensorflow/core/graph/graph_constructor.cc:574-639 | A copy, with its inputs, control inputs and dependencies mapped, reads only nodes that are in the graph before it; other inputs of a Merge stay names |
| GraphBuilder.Graph.ImportGraph | tensorflow/c/c_api.cc:1700-1730 | For any graph definition and options: an import passes every check, appends the copies, indexes them and returns the mapped outputs, or leaves live nodes and index as they were; and it succeeds if its own checks and those of the nodes do |
| GraphBuilder.Graph.Convert | tensorflow/core/graph/graph_constructor.cc:671-806 | The copies are made in the order taken, and an index that has them all agrees with the graph |
| GraphBuilder.Graph.Undo | tensorflow/core/graph/graph_constructor.cc:880-887 | Undoing an import leaves empty slots where its nodes were |
| GraphBuilder.Graph.AddToIndex | tensorflow/c/c_api.cc:1719-1722 | The loop over new ids gives the index in which the last node of a name wins |
| GraphBuilder.Graph.AddGradients | tensorflow/c/c_api.cc:2115-2139 | Whatever nodes the gradient builder adds, the index agrees with the graph afterwards if and only if their names are new and distinct |
| GraphBuilder.IndexedAgreesIff | tensorflow/c/c_api.cc:2134-2138 | The same of the loop alone, for any nodes appended |
| Gradients.SameScope | tensorflow/cc/framework/scope.cc:398-409 | A call adds no node with the bare name of its scope, so that the next call gets the same scope |
| Gradients.SecondCallBreaksIndex | tensorflow/cc/framework/scope.cc:484-498 | Of two calls that begin by asking for the same name the second breaks the index |
| Gradients.BrokenForGood | tensorflow/c/c_api.cc:2134-2138 | No index agrees again with a graph that has a name twice |
| GraphBuilder.Graph.NextOperation | tensorflow/c/c_api.cc:1621-1642 | The next live operation after a position, or none if there is none |
| GraphBuilder.Graph.AllOperations | tensorflow/c/c_api.cc:1621-1642 | Iterating from zero ends, and visits each live operation once in the order of ids |
| GraphBuilder.IndexGivesUniqueNames | tensorflow/c/c_api_internal.h:70-72 | Where the index agrees with the graph, no two live operations have the same name |
| GraphBuilder.ImportedFresh | tensorflow/core/graph/graph_constructor.cc:260-306 | After the check for collisions, with a prefix or without, the copies of an import have new and distinct names |
| WhileGraph.ImportIsCopy | tensorflow/c/c_api.cc:1858-1889 | In a graph without control flow a copy is the node with its name prefixed, loop variables replaced and the pivot added where it inherits none |
| WhileLowering.CreateEnters | tensorflow/c/c_api.cc:1996-2003 | One Enter for each loop variable, in order, in the frame named after the loop |
| WhileLowering.CreateMerges | tensorflow/c/c_api.cc:2005-2013 | One Merge for each variable, with its Enter and the name of a NextIteration that does not exist yet |
| WhileLowering.LowerCondition | tensorflow/c/c_api.cc:1996-2023 | The Enters, Merges and the copy of the condition are built, and the mapped output is returned |
| WhileLowering.LowerBody | tensorflow/c/c_api.cc:2025-2044 | The Switches and the copy of the body are built after them, and the mapped outputs are returned |
| WhileLowering.LowerEnds | tensorflow/c/c_api.cc:2046-2061 | The NextIterations and the Exits are built after them |
| WhileLowering.CopySub | tensorflow/c/c_api.cc:1858-1889 | A copy of a graph is added as the next group, or what was built before it is left |
| WhileLowering.LoweredIsLowered | tensorflow/c/c_api.cc:1996-2061 | The seven groups of nodes together are the lowered loop that the theorem speaks of |
| WhileLowering.FailureLeaves | tensorflow/c/c_api.cc:1996-2061 | A failure leaves a Merge exactly if it had been created, and its back edge refers to nothing exactly if its NextIteration had not been and no older node had the name |
| WhileLowering.DanglingUnknown | tensorflow/core/graph/graph_constructor.cc:389-443 | A graph with such a Merge fails the check of inputs in every import |
| WhileLowering.PlainCanBeBuilt | tensorflow/core/graph/graph_constructor.cc:671-700 | For graphs without control flow there is an order in which import can take the nodes, so that the loop can be built |
| WhileLowering.FinishWhile | tensorflow/c/c_api.cc:1986-2062 | Success gives exactly the lowered loop, unique names and the Exits as outputs; unset parameters change nothing; failure leaves the old nodes, a prefix of the loop's and used ids; with a fresh name and accepted operations it succeeds |
| WhileFinish.BuildWhile | tensorflow/c/c_api.cc:2065-2072 | If it succeeds on a valid loop, its outputs are the Exits, and the graph computes the loop if and only if the loop is lowerable |
| SessionDelivery.Session.Extend | tensorflow/c/c_api.cc:2248-2282 | One call brings the session from the ops below its old mark to exactly those below the new one, or leaves it unchanged |
| SessionDelivery.EachOpOnce | tensorflow/c/c_api.cc:2258-2268 | Each op below the mark is in what was delivered, at exactly one place |
| SessionDelivery.StepKeeps | tensorflow/c/c_api.cc:2248-2282 | Every step of every thread keeps the invariant of locks, marks and partial collections |
| SessionDelivery.ExactlyOnce | tensorflow/c/c_api.cc:2248-2282 | In every state of every run a session has received exactly the ops below its mark, each once and in the order of ids, and the mark is within the graph |
| SessionDelivery.RunSeesEarlierOps | tensorflow/c/c_api.cc:2290-2300 | A run starts with every op that was in the graph when it was called |
| SessionDelivery.NeverForgets | tensorflow/c/c_api.cc:2272-2276 | Marks never go back, and what was delivered stays, over any part of a run |
| SessionDelivery.FailureKeepsSession | tensorflow/c/c_api.cc:2269-2276 | A failed Extend changes nothing of the session but its lock |
| SessionDelivery.NoDeadlock | tensorflow/c/c_api.cc:2250-2253 | While a call is under way some call can go on |
| GraphLifetime.StepKeepsIff | tensorflow/c/c_api.cc:2231-2243 | Of all calls a client can make, exactly a new session of a released graph breaks the count of sessions and frees |
| GraphLifetime.LateSessionDangles | tensorflow/c/c_api.cc:2148-2162 | Such a session refers to a graph that is freed or about to be |
| GraphLifetime.NeverFreedInUse | tensorflow/c/c_api_internal.h:74-80 | The counter is the number of live sessions; while there is one the graph is neither freed nor about to be; it is freed at most once |
| GraphLifetime.CallsFindGraph | tensorflow/c/c_api.cc:1603-1609 | Every call that takes the lock, and the one that frees, finds the graph still there |
| GraphLifetime.FreedOnceReleased | tensorflow/c/c_api_internal.h:74-80 | When no free is pending, the graph has been freed once if deletion was asked for and no session is left, and otherwise not |
| GoSession.StepKeeps | tensorflow/go/session.go:75-96 | Every step keeps: the wait group counts the calls in flight, they have an open handle, and nothing is in flight while the session is being closed |
| GoSession.CallsAreSafe | tensorflow/go/session.go:120-144 | A call in flight has a non-nil handle, and the C session is not closed or deleted meanwhile |
| GoSession.DeletedAtMostOnce | tensorflow/go/session.go:209-224 | However often Close is called and fails, the C session is deleted at most once and not used after |
| GoSession.StaysClosed | tensorflow/go/session.go:209-224 | A session once closed stays closed |
| GoSession.NoneJoinsWhileWaiting | tensorflow/go/session.go:209-212 | While Close waits, calls leave the wait group and none joins it |
| GoSession.WaitIsBounded | tensorflow/go/session.go:209-212 | Close waits for no more steps than there were calls in flight when it got the mutex |
| GoSession.NoDeadlock | tensorflow/go/session.go:183-190 | While any call or Close is under way one of them can go on |
| Varint.EncodeIsVarint | tensorflow/core/lib/core/coding.cc:110-119 | The bytes written are one varint, and its digits are the number |
| Varint.VarintUnique | tensorflow/core/lib/core/coding.cc:166-181 | No varint is a proper prefix of another |
| Varint.GetVarint64 | tensorflow/core/lib/core/coding.cc:166-181 | The reader finds the varint of at most ten bytes at the start of the input and its low 64 bits, or that there is none |
| Varint.ReadsBack | tensorflow/core/lib/core/coding.cc:166-181 | An encoded 64-bit number is read back whatever follows it |
| Varint.EncodeVarint64 | tensorflow/core/lib/core/coding.cc:110-119 | The buffer has the encoding at the place given and is otherwise unchanged |
| Varint.VarintLength | tensorflow/core/lib/core/coding.cc:127-134 | The length computed is that of the encoding |
| StringTensor.StringEncode | tensorflow/c/c_api.cc:243-259 | It succeeds exactly if the encoded size does not overflow and fits, writes the encoding, and otherwise changes nothing |
| StringTensor.StringDecode | tensorflow/c/c_api.cc:261-279 | It fails exactly if no varint is there; else it returns where the varint ends and the length it gives, without a check of the end |
| StringTensor.SizeOf | tensorflow/c/c_api.cc:433-439 | The sizing pass gives the size of the format |
| StringTensor.PlacedIsEncoded | tensorflow/c/c_api.h:210-216 | A buffer of the right size with every offset and string in its place is the format, byte by byte |
| StringTensor.EncodeStrings | tensorflow/c/c_api.cc:431-470 | For strings whose total size fits, both checks hold and the buffer is the format |
| StringTensor.DecodeStrings | tensorflow/c/c_api.cc:395-428 | Every element is read as its own offset says, or the first one that is not decides between malformed and reading outside |
| StringTensor.ElementIsLocal | tensorflow/c/c_api.cc:408-426 | An element depends only on its offset and its own bytes |
| StringTensor.EncodedInPlace | tensorflow/c/c_api.cc:441-456 | Every offset of the format is below the end of the data, and its string is there |
| StringTensor.RoundTripIff | tensorflow/c/c_api.cc:395-470 | Decoding inverts encoding exactly when the data is shorter than the largest pointer difference |
| StringTensor.LongIsRefused | tensorflow/c/c_api.cc:411-415 | A longer tensor is refused at its first element |
| StringTensor.LongString | tensorflow/c/c_api.cc:411-415 | One string of 2^63 bytes or more is encoded and refused |
| TensorShape.MultiplyWithoutOverflow | tensorflow/core/util/overflow.h:26-46 | The check by division, left out for small factors, gives a negative number exactly if the product does not fit an int64, and else the product |
| TensorShape.CheckDims | tensorflow/core/framework/tensor_shape.cc:240-253 | The constructor goes through exactly if there are at most 254 dimensions and no prefix of them has 2^63 elements |
| TensorShape.EmptyRefused | tensorflow/core/framework/tensor_shape.cc:240-253 | A shape without elements that is refused |
| GoTensor.ShapeOf | tensorflow/go/tensor.go:234-259 | The shape is that of the path of first elements, with zeros after an empty slice, or an error if a slice on that path is uneven |
| GoTensor.NumElements | tensorflow/go/tensor.go:279-285 | The product of the shape, in 64 bits |
| GoTensor.RectangularFound | tensorflow/go/tensor.go:234-259 | A rectangular value has the shape found and passes every check of lengths, empty dimensions included |
| GoTensor.Rebuilt | tensorflow/go/tensor.go:172-188 | The value built from the elements of v in a shape has that shape and those elements, and is v exactly when v has that shape |
| GoNumeric.EncodeTensor | tensorflow/go/tensor.go:304-342 | It succeeds exactly if every slice is even, and appends the elements in row-major order |
| GoNumeric.DecodeTensor | tensorflow/go/tensor.go:346-372 | It succeeds exactly if there are bytes for the whole shape, and builds the value of that shape from them |
| GoNumeric.NewTensor | tensorflow/go/tensor.go:70-111 | It accepts exactly the values that are even everywhere and whose size is that of the shape found; it aborts exactly for shapes that cannot be represented, and panics exactly for other buffers that are too large |
| GoNumeric.ValueOf | tensorflow/go/tensor.go:172-188 | The value of the tensor's shape with its bytes as elements, or a panic if there are too few |
| GoNumeric.RoundTrip | tensorflow/go/tensor.go:70-111 | An accepted value can be read back exactly when its size did not wrap; what is read has the shape found and the same elements, and is the value exactly when that has the shape |
| GoNumeric.RectangularRoundTrip | tensorflow/go/tensor.go:70-111 | A rectangular value that fits is accepted exactly if its shape can be represented, and comes back |
| GoNumeric.RaggedAccepted | tensorflow/go/tensor.go:240-250 | A ragged value that is accepted |
| GoNumeric.WrappedAccepted | tensorflow/go/tensor.go:76-77 | A value of 2^27 elements of 8 bytes in a shape of 2^61 + 2^27 that is accepted and cannot be read |
| GoStrings.ByteSize | tensorflow/go/tensor.go:289-300 | The size computed is that of all the strings, encoded |
| GoStrings.StringEncoder.Encode | tensorflow/go/tensor.go:381-403 | There is always room for the next string, and with a table of the right length offsets and strings go to their places |
| GoStrings.NewStringTensor | tensorflow/go/tensor.go:70-111 | It accepts exactly if the first path is even, its shape can be represented and there are as many strings as it has elements, and writes the bytes that TF_Tensor_EncodeStrings writes for them; it aborts and panics exactly for shapes and for sizes that are too large |
| GoStrings.StringDecoder.Decode | tensorflow/go/tensor.go:411-442 | It succeeds exactly if the next elements can all be read, and builds the value from them |
| GoStrings.StringValueOf | tensorflow/go/tensor.go:172-188 | The value of the tensor's shape with the strings read, or a panic |
| GoStrings.DecodersAgree | tensorflow/go/tensor.go:411-432 | The Go and the C++ decoder read the same strings wherever the offset is in range |
| GoStrings.StringRoundTrip | tensorflow/go/tensor.go:374-442 | As for numbers: read back exactly when the table did not wrap, with the shape found and the same strings, equal to the value exactly when that has the shape |
| GoStrings.RectangularStrings | tensorflow/go/tensor.go:374-442 | A rectangular value of strings that fits is accepted exactly if its shape can be represented, and comes back |
| GoStrings.WrappedStringsAccepted | tensorflow/go/tensor.go:81 | A value of 2^26 empty strings in a shape of 2^61 + 2^26 that is accepted and cannot be read |
| TensorLayout.GetDimIndices | tensorflow/stream_executor/dnn.cc:145-176 | The places of depth, batch and space are in range and do not overlap |
| TensorLayout.PackOfParts | tensorflow/stream_executor/dnn.cc:145-176 | The places are those of the order that each layout names, for every rank |
| TensorLayout.ReorderDims | tensorflow/stream_executor/dnn.cc:178-201 | Batch, depth and space go to their places in the other layout |
| TensorLayout.FullDims | tensorflow/stream_executor/dnn.cc:222-228 | The dimensions in the order of the layout asked for |
| TensorLayout.FullStrides | tensorflow/stream_executor/dnn.cc:230-247 | The row-major strides of the stored layout in the order asked for, or the fatal error |
| TensorLayout.NodesPerFeatureMap | tensorflow/stream_executor/dnn.cc:309-315 | The product of the spatial sizes |
| TensorLayout.ElementCount | tensorflow/stream_executor/dnn.cc:321-323 | The product of all sizes |
| TensorLayout.QueryLayoutIrrelevant | tensorflow/stream_executor/dnn.cc:230-247 | Whether an index is valid, and its offset, are the same in every query layout |
| TensorLayout.StridesBijective | tensorflow/stream_executor/dnn.cc:230-247 | Index times strides maps the valid indices one-to-one onto the numbers below the element count, for every rank, layout and query layout |
| Occupancy.CeilTimes | tensorflow/stream_executor/device_description.cc:154-156 | Rounding up gives the least multiple that is not below the value |
| Occupancy.OccupancyExact | tensorflow/stream_executor/device_description.cc:163-213 | In range, a number of blocks fits the four budgets exactly if it is at most the occupancy |
| Occupancy.OccupancyMonotone | tensorflow/stream_executor/device_description.cc:163-213 | The occupancy never rises with registers, shared memory or threads |
| RegisterSearch.CalculateRegisterLimit | tensorflow/stream_executor/device_description.cc:215-232 | The loop computes the search, divisions by zero and conversions to int included |
| RegisterSearch.SkipIsSafe | tensorflow/stream_executor/device_description.cc:222-231 | Without losses, no number of registers that a step skips meets a target that the one it looks at misses |
| RegisterSearch.LargeStepExact | tensorflow/stream_executor/device_description.cc:221-224 | A step too large for an int, whatever it is taken for but zero, loses nothing |
| RegisterSearch.SearchExact | tensorflow/stream_executor/device_description.cc:215-232 | Without losses the search returns the greatest number that meets the target, or zero if none does |
| RegisterSearch.LostRegisterFails | tensorflow/stream_executor/device_description.cc:220-224 | Where steps lose a register within the range of the search, a device on which it stops short |
| RegisterSearch.ZeroStepFails | tensorflow/stream_executor/device_description.cc:220-224 | For a step that is zero or taken for zero, a device on which it divides by zero |
| RegisterSearch.SearchExactIff | tensorflow/stream_executor/device_description.cc:215-232 | For all 64-bit warp sizes and granularities, the search is exact on all devices that have them if and only if nothing is lost |
| KernelArgs.KernelArgsArray.AddArgument | tensorflow/stream_executor/kernel.h:407-412 | Within capacity, the call is added to the log that the lists hold |
| KernelArgs.KernelArgsArray.AddDeviceMemoryArgument | tensorflow/stream_executor/kernel.h:415-422 | The same for device memory, whose pointer is kept in the list |
| KernelArgs.KernelArgsArray.AddSharedBytes | tensorflow/stream_executor/kernel.h:428-434 | The same for shared memory; the total is the sum of the shared sizes |
| KernelArgs.KernelArgIterator.Next | tensorflow/stream_executor/kernel.h:304-324 | The next argument in call order with its address and size, or no value after the last |
| KernelArgs.IndicesTell | tensorflow/stream_executor/kernel.h:304-324 | The list of indices says of each argument whether it is shared, and the counts say where it is kept |
| KernelArgs.PointerKept | tensorflow/stream_executor/kernel.h:415-422 | The address of a device memory argument is that of its own pointer |
| KernelArgs.Drain | tensorflow/stream_executor/kernel.h:454-459 | Draining an iterator replays exactly the calls, in order |
| AttrLists.StringListMetadata | tensorflow/c/c_api.cc:1330-1332 | Length and total size of a list of strings, and minus one for an empty one |
| AttrLists.GetStringList | tensorflow/c/c_api.cc:1416-1441 | It succeeds exactly if the strings asked for fit, and then fills consecutive regions with them |
| AttrLists.ReadStringList | tensorflow/c/c_api.cc:1416-1441 | With the reported sizes it does not fail, and the regions give the list back |
| AttrLists.RegionsDisjoint | tensorflow/c/c_api.cc:1428-1440 | The regions do not overlap and follow each other without gaps |
| AttrLists.ShapeListMetadata | tensorflow/c/c_api.cc:1337-1341 | Length and total size of a list of shapes, unknown ranks counting nothing |
| AttrLists.GetShapeList | tensorflow/c/c_api.cc:1483-1512 | It succeeds exactly if the shapes asked for fit, fills consecutive regions, and gives minus one for an unknown rank |
| AttrLists.ReadShapeList | tensorflow/c/c_api.cc:1483-1512 | With the reported sizes it does not fail, and gives the shapes back, unknown ranks included |
| PluginRegistry.DefaultResolves | tensorflow/stream_executor/plugin_registry.cc:105-144 | After any sequence of calls the default is the last one set, and a request for it succeeds unless none, or the null plugin, was set |
| PluginRegistry.PluginRegistry.RegisterFactory | tensorflow/stream_executor/plugin_registry.cc:70-86 | The first registration of an id for a platform is kept, and others fail |
| PluginRegistry.PluginRegistry.RegisterFactoryForAllPlatforms | tensorflow/stream_executor/plugin_registry.cc:201-207 | The same for all platforms |
| PluginRegistry.PluginRegistry.HasFactory | tensorflow/stream_executor/plugin_registry.cc:146-176 | It holds exactly if a request for the explicit id succeeds |
| PluginRegistry.PluginRegistry.SetDefaultFactory | tensorflow/stream_executor/plugin_registry.cc:105-144 | It succeeds exactly for a registered id, and sets the default of that platform and kind alone |
| PluginRegistry.PluginRegistry.GetFactory | tensorflow/stream_executor/plugin_registry.cc:209-227 | The platform's factory before the generic one, for the id or the default, and the errors; the table is unchanged |
| ExecutorCache.ExecutorCache.Get | tensorflow/stream_executor/executor_cache.cc:35-53 | The search finds what the flat table has for ordinal, plugins and flags |
| ExecutorCache.ExecutorCache.Insert | tensorflow/stream_executor/executor_cache.cc:23-33 | It succeeds exactly for a new key, so that the first executor stays, and no two entries match |
| ExecutorCache.ExecutorCache.DestroyAllExecutors | tensorflow/stream_executor/executor_cache.cc:55 | The table is empty |

## Left out

- GraphBuilder.Graph.FinishOperation: the builder's and the shape refiner's own validation, of names too, is a parameter that accepts, rejects before or refuses after a node is added.
- GraphBuilder.Graph.ImportGraph: the order in which the importer takes up nodes is any in which each can be taken, given as a parameter; versions, colocation, the parsing of graph definitions and the checks of nodes and prefixes are parameters or not modelled, and it is called on graphs whose index agrees.
- GraphBuilder.Graph.AddGradients: what nodes the gradient builder adds is a parameter.
- WhileLowering.FinishWhile: the condition and the body are graphs that import can take in full; `TF_NewWhile`, which makes the placeholders, and the release of the two graphs would only add easy members.
- WhileTheorem.LoweringCorrectIff: loops and conditionals inside a condition or a body can be built but are given no meaning; where the body alone cannot execute, that tensors can stand for terms is a hypothesis, since tensors are an opaque type.
- Dataflow.ExecutedConsistent: limits on parallel iterations, the deletion of frames, the dead exits of a finished frame and the second output of Merge are not modelled.
- SessionDelivery.Session.Extend: `TF_LoadSessionFromSavedModel`, which starts a session at the end of a graph, sessions without a graph and the function library are not modelled.
- SessionDelivery.ExactlyOnce: nodes that are changed after they were sent, as `AddControlInput` in the Python API does, are outside the model.
- GraphLifetime.StepKeepsIff: a lock is a single step, so that a graph freed while another thread is still leaving its mutex is not modelled.
- StringTensor.EncodeStrings: the loop index is an `int`, so that more than 2^31 strings are not modelled; offsets are little-endian.
- GoNumeric.NewTensor: elements are blocks of bytes, and arrays are taken as slices; memory always suffices.
- GoStrings.NewStringTensor: values whose encoded size does not fit 64 bits are not modelled.
- TensorLayout.FullStrides: products beyond 64 bits are not modelled.
- RegisterSearch.SearchExactIff: register limits of 2^31 and more, which are not ints, are not modelled.
- AttrLists.GetStringList: the lookup of the attribute and the other kinds of attribute are easy members.
- `TF_SessionRun` and its partial variants: argument handling around code that is not part of this model.
- BLAS, DNN, FFT and RNG interfaces, streams, timers and loaders: declarations or wrappers without logic of their own.
