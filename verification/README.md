# Bentobox, modelled and proved in Dafny

Bentobox lets a user write game systems as Python functions over the attributes of entities. The SDK traces such a
function into a computation graph, and the engine runs the graph on its component store. The engine's texture loader
carries stb_image. This project models both and proves what they are for.

**From Python to the engine.** `Components` is the symbolic store of a trace, with the dictionaries components share.
`Tracer` runs a small AST twice: on nodes, as the transformed code does with its branch functions and deep copies, and
on values. `Views` runs every branch on values, failures kept, as the trace does on nodes. `TraceMeaning` and
`Compile` prove that the two agree for every nesting of branches, and say exactly where they do not; `Scopes` says
when a function can be traced. `Activity` is the analysis that finds the symbols a block uses and assigns, in place on
any AST; `Analysis` says what it finds on the if statements of a function, and so which functions are traced right.
`Values`, `Graph`, `RunGraph` and `Typing` are the engine's operations, running outputs in sequence, and type
soundness. `UserComponents`, `CompVec`, `Indexes`, `EngineStores`, `Interpreter` and `Simulations` are the engine's
objects; `FlatStore` is the plain map from references to values they are proved to stand for. `Ids` gives entities and
systems their ids. `Calls` is the service as a state machine, with properties of whole runs; `Service` proves the
service's methods against it.

**Images.** `Bits`, `Huffman`, `HuffmanTable` and `ZBuf` are table-driven Huffman decoding of DEFLATE; `Deflate` and
`Inflate` the LZ77 expansion into a growing buffer. `PngFilter`, `Adam7` and `Deinterlace` are PNG unfiltering and
de-interlacing. `GifLzw` is LZW on strings with its encoder's side; `GifFrame` the row order and painting of a frame;
`Gif` the code table, the cursor and the loop over sub-blocks. `Bytes` holds what they share.

**How to read it.** Objects the source updates in place are classes; their methods are proved against functions on
values, and the main theorems are lemmas about those functions. A C++ exception is the result `Throws`, behaviour C++
leaves undefined (integer overflow, division by zero, casts out of range) is `Undefined`; nothing is claimed after it.
Where the code does not do what its documentation says, the code is kept and the condition is stated:

- An if statement whose first branch writes to an entity that is not among its arguments writes to the caller's trace
  before the other branch is traced. The documentation says branches do not interfere;
  `TraceMeaning.SharedBranchMeaning` says exactly when such a statement is still right. The analysis makes an entity
  an argument exactly when the statement uses an attribute of it, of any component, that is assigned before and in
  another block (`Analysis.AnalyzedIsolated`): a statement whose test reads what the function has assigned is isolated
  (`Analysis.TestCarries`, `Analysis.CollisionIsolated`), an if statement alone in a function gets no arguments
  (`Analysis.LoneIfMeaning`).
- A write of an attribute's own retrieve is dropped even when the attribute was overwritten
  (`Components.ReadAfterWrite`, `TraceMeaning.WriteMeaning`, `Compile.StaleRestore`).
- Keys of the tracer's dictionaries join names with slashes and can coincide (`Graph.KeyCollision`); names in Python
  have no slash.
- Outputs are run in sequence, so a traced swap is not a swap (`RunGraph.SwapRun`); `RunGraph.CompiledRunExact` says
  exactly when the sequence is right.
- Counting ids from 1 to the size is right only while no live id is beyond the size (`CompVecs.EnumeratedIds`). The
  engine never removes a component.
- 32-bit id counters wrap (`Ids.EntityIdsDistinct`, `Ids.SystemIdsSet`).
- GIF data that keep a full code table for long are refused, although the specification allows them
  (`GifLzw.RunSpelled`).

`dafny verify dfyconfig.toml` checks the project.

## Model

| member | source | states |
|---|---|---|
| Compile.GraphMeaning | sdk/bento/graph/transforms.py:161-263 | What an attribute's node in the graph evaluates to on the store before the run is what the original code leaves in the attribute, for any nesting of if/elif/else and conditional expressions whose executed statements are traced right (`TraceMeaning.Sound`); it throws exactly when the code leaves the attribute unset |
| TraceMeaning.BlockMeaning | sdk/bento/graph/transforms.py:161-263 | After every block each symbol's node evaluates on the initial store to what reading the symbol gives in the direct run, locals included, in every enclosing branch function |
| TraceMeaning.JoinedMeaning | sdk/bento/graph/transforms.py:217-263 | A joined symbol's switch evaluates to what the branch taken leaves in it, an unset attribute included |
| TraceMeaning.SharedBranchMeaning | sdk/bento/graph/transforms.py:166-263 | Whatever the arguments and the branches, a joined symbol is right exactly when the second branch is not taken, or leaves the same in it run on what the first left in entities that are not arguments; a first branch that would fail is included |
| TraceMeaning.FirstBranchLeaks | sdk/bento/graph/transforms.py:166-215 | After the first branch is traced its caller sees what that branch leaves in attributes of entities that are not arguments, and nothing else of it |
| TraceMeaning.WriteMeaning | sdk/bento/ecs/graph.py:242-267 | An assignment keeps trace and direct run related exactly unless its write is dropped over an earlier write of another value |
| TraceMeaning.WriteMarks | sdk/bento/ecs/graph.py:242-267 | A trace is marked as having dropped a write exactly when one was dropped over an earlier write of the attribute |
| TraceMeaning.IsolatedSound | sdk/bento/graph/transforms.py:161-263 | Code whose output symbols are listed and whose first branches write only to arguments, and whose trace drops no write over an earlier one, is traced right on every run |
| Views.RunIsExec | sdk/bento/graph/transforms.py:161-263 | What a direct run leaves, running only the branches taken, is what running every branch and keeping the chosen results leaves |
| Scopes.FunctionTraced | sdk/bento/graph/transforms.py:66-263 | A function can be traced exactly when every symbol read in any branch is bound, the variables a branch makes local counted as unbound at its start, and every if statement has an output symbol |
| TraceMeaning.FirstBranchIsolated | sdk/bento/graph/transforms.py:197-215 | Tracing the first branch leaves the caller's dictionaries as they were when the entities it writes to are arguments |
| TraceMeaning.BranchFrame | sdk/bento/graph/transforms.py:166-215 | A branch function reaches its caller's dictionaries only through entities that are not arguments |
| TraceMeaning.ExprMeaning | sdk/bento/graph/transforms.py:66-87 | A traced expression, a conditional expression turned into a switch included, evaluates to the value of the expression |
| Compile.StaleRestore | sdk/bento/ecs/graph.py:242-267 | Saving an attribute, overwriting it and writing the saved value back keeps the overwriting value |
| Compile.GraphTidy | sdk/bento/ecs/graph.py:225-267 | The graph has one output an attribute, and its inputs include every attribute any output retrieves |
| Compile.ExprReads | sdk/bento/ecs/graph.py:225-240 | What building an expression reads as inputs are attributes that were not set |
| Compile.OneSidedMeaning | sdk/bento/graph/transforms.py:166-215 | A one-sided if that writes one attribute of an entity missing from the arguments is right exactly when the second branch is not taken or the value written is the one already there, failing values included |
| Compile.StraightLineOrder | sdk/bento/ecs/graph.py:256-267 | The outputs of code without branches are the last write of each attribute, in the order of those writes |
| Components.ReadAfterWrite | sdk/bento/ecs/graph.py:225-267 | Reading after writing gives the written node, exactly unless the write is a retrieve of the attribute itself and something else was recorded |
| Components.OutputsInWriteOrder | sdk/bento/ecs/graph.py:256-267 | After any run of writes the outputs are the last write of each attribute, in the order of those writes |
| Components.GraphComponent.GetAttr | sdk/bento/ecs/graph.py:225-240 | Returns what was recorded or a retrieve, and records exactly the retrieve as input |
| Components.GraphComponent.SetAttr | sdk/bento/ecs/graph.py:242-267 | The shared outputs become those of Set: a write to an attribute's own retrieve is dropped, any other goes to the end |
| Components.GraphComponent.DeepCopy | sdk/bento/ecs/graph.py:273-282 | A copy has outputs of its own with the same contents and shares the inputs |
| Graph.BuildMeaning | sdk/bento/ecs/graph.py:65-162 | The node each operator builds means the engine's operation: at-most is less-or-equal, greater swaps the operands |
| Graph.OperatorValue | sdk/bento/ecs/graph.py:65-162 | On two numbers an operator's node gives their sum, difference, product, quotient, remainder, larger or smaller, and for comparisons whether the first is less, more, equal, at most or at least the second |
| Graph.NotValue | sim/src/interpreter/operations.cpp:291-306 | A "not" node negates a boolean and throws on anything else |
| Graph.KeyInjective | sdk/bento/utils.py:18-19 | Distinct attributes have distinct dictionary keys when attribute names, or component names, contain no slash |
| Graph.KeyCollision | sdk/bento/utils.py:18-19 | Two attributes share a dictionary key exactly when they are the same or the name of one's component runs on into the name of the other's attribute |
| Activity.AnalyzeActivity | sdk/bento/graph/analyzers.py:438-505 | Whatever the tree, every block ends with exactly the symbols used from outside, stored or deleted inside it as keys, none twice |
| Activity.LabelledMeans | sdk/bento/graph/analyzers.py:438-505 | The inputs of a labelled block are the symbols loaded inside it from outside, its outputs those stored or deleted inside it, and the base entries the variables these start with |
| Activity.Record | sdk/bento/graph/analyzers.py:438-473 | Each block gets the entries of the symbols whose block it is |
| Activity.Ast.PropagateActivity | sdk/bento/graph/analyzers.py:475-504 | In place, every block gets the keys of all blocks inside it |
| Activity.Ast.AnalyzeBlock | sdk/bento/graph/analyzers.py:400-411 | Every node is told the nearest block around it |
| Activity.WithinParts | sdk/bento/graph/analyzers.py:475-502 | What is inside a block is what is directly in it and what its children pass up |
| Activity.NestedKeys | sdk/bento/graph/analyzers.py:475-502 | Every key of a nested block is a key of each block around it |
| Analysis.AnalyzedListed | sdk/bento/graph/analyzers.py:438-505 | The output symbols of every if statement are exactly the symbols assigned anywhere in its branches, none twice |
| Analysis.AnalyzedArgs | sdk/bento/graph/analyzers.py:313-356 | The arguments of the branch functions are exactly the variables of which the statement uses a symbol, whatever component of an entity it names, that was assigned before and has an assignment in another block |
| Analysis.ArgsAreUsed | sdk/bento/graph/analyzers.py:313-356 | Read off the text of a function: something is an argument of an if statement exactly when the statement loads a symbol of it that is stored earlier in the text and, anywhere in it, in another block |
| Analysis.AnalyzedIsolated | sdk/bento/graph/transforms.py:166-183 | The analysis isolates the first branch of every if statement exactly when the statement uses, from outside, a symbol of each entity that branch assigns to |
| Analysis.TestCarries | sdk/bento/graph/transforms.py:166-183 | An if statement whose test reads an attribute the function assigned before gets the entity as an argument, so writes to any of its components are isolated |
| Analysis.CollisionIsolated | sdk/bento/example/mountcar.py:103-107 | The collision of the mountain car, which tests the position and writes the velocity, is isolated |
| Analysis.PassesAnalyze | sdk/bento/graph/analyzers.py:438-505 | A function whose statements take their keys from the tree the passes labelled is analyzed |
| Analysis.AnalyzedMeaning | sdk/bento/graph/transforms.py:161-263 | From analysis to graph: for such code every node of the graph evaluates to what the original code leaves in its attribute |
| Analysis.LoneIfUnprotected | sdk/bento/graph/transforms.py:166-183 | The branches of an if statement that is all of a function get no arguments |
| Analysis.LoneIfMeaning | sdk/bento/graph/transforms.py:161-263 | So the trace of such a statement is right in an output symbol exactly when the second branch is not taken or leaves the same in it run after the first as run alone |
| RunGraph.CompiledRun | sim/src/interpreter/graphInterpreter.cpp:79-86 | Compiled code on the engine, when every output writes at its turn what it would write on the store before the run: it succeeds exactly when the original code leaves every written attribute set to a value its type takes, and then each ends as that value cast and the others are unchanged |
| RunGraph.CompiledRunExact | sim/src/interpreter/graphInterpreter.cpp:79-86 | The run succeeds and is right at every attribute if and only if every value the original code leaves can be assigned and every output writes at its turn what it would write on the store before the run |
| RunGraph.SequentialExact | sim/src/interpreter/graphInterpreter.cpp:79-86 | Running in sequence succeeds and is the same as evaluating all on the first store and then writing exactly when the run is undisturbed |
| RunGraph.NoInterferenceUndisturbed | sim/src/interpreter/graphInterpreter.cpp:79-86 | A run is undisturbed when no output retrieves an attribute an earlier output changes |
| RunGraph.SequentialIsAtOnce | sim/src/interpreter/graphInterpreter.cpp:79-86 | Without such interference running outputs in sequence is evaluating all on the first store and then writing, up to the first output that fails |
| RunGraph.AtOnceValue | sim/src/interpreter/graphInterpreter.cpp:79-86 | Writing all at once stores each output's value in its attribute and nothing else |
| RunGraph.SwapRun | sim/src/interpreter/graphInterpreter.cpp:79-86 | A traced swap ends with both attributes equal to the second |
| Typing.RunTyped | sim/src/interpreter/operations.cpp:26-170 | A well-typed graph whose retrieved attributes are set, at the start or by an earlier output, never throws, and the store stays typed |
| Typing.EvalTyped | sim/src/interpreter/graphInterpreter.cpp:7-77 | A well-typed node does not throw and its value declares the type it stores |
| Values.ApplyType | sim/include/proto/userValue.h:166-257 | An operation throws exactly when the conversions of C++ give its stored operands no type; a result has that type |
| Values.ArithmeticValue | sim/src/interpreter/operations.cpp:61-127 | The number a sum, difference, product, maximum or minimum holds is that of the operands' numbers, of whatever types they are |
| Values.DivisionValue | sim/src/interpreter/operations.cpp:88-95 | Division gives the quotient of reals, and of integers the quotient cut towards zero |
| Values.RemainderValue | sim/src/interpreter/operations.cpp:162-170 | The remainder of integers goes with the quotient that division gives: it has the dividend's sign and is smaller than the divisor |
| Values.ComparisonValue | sim/src/interpreter/operations.cpp:308-369 | A comparison is true exactly when it holds of the numbers, and equality also of two strings or two booleans |
| Values.LogicValue | sim/src/interpreter/operations.cpp:251-306 | And, or and not on booleans |
| Values.UndefinedExactly | sim/src/interpreter/operations.cpp:61-170 | Behaviour is undefined exactly when the exact integer result leaves the common type, an integer is divided by zero or the smallest by -1, or a real is divided by zero |
| Values.CommonIsWider | sim/include/proto/userValue.h:166-257 | The common type of two numbers is one of theirs: the wider, a floating point type before any integer |
| Values.DivisionTruncates | sim/src/interpreter/operations.cpp:88-95 | Integer division is cut towards zero and agrees with the remainder |
| UserComponents.StoredType | sim/src/component/userComponent.cpp:24-83 | A stored value has the attribute's type; an assignment throws exactly when the types are neither both numeric nor equal |
| UserComponents.StoredCut | sim/src/component/userComponent.cpp:52-61 | A real assigned to an integer attribute is cut towards zero; undefined exactly when the result is out of the type's range |
| UserComponents.StoredInt | sim/src/component/userComponent.cpp:52-61 | An integer assigned to an integer attribute is unchanged in 64 bits and congruent modulo 2^32 in 32 bits |
| UserComponents.StoredReal | sim/src/component/userComponent.cpp:52-61 | A number assigned to a floating point attribute keeps its value |
| UserComponents.StoredSame | sim/src/component/userComponent.cpp:52-67 | A value that already has the attribute's type is stored unchanged |
| UserComponents.ArrayTakesPrimitive | sim/src/component/userComponent.cpp:44-50 | An attribute of an array type takes any primitive value |
| UserComponents.UserComponent.SetValue | sim/src/component/userComponent.cpp:24-83 | Succeeds exactly when the attribute exists and the cast does, stores the cast value (`StoredCut`, `StoredInt`, `StoredReal`), and a failed call changes nothing that can be read; typing is kept |
| UserComponents.UserComponent.GetMutableValue | sim/src/component/userComponent.cpp:13-22 | Reads a set attribute; a failed read inserts an empty entry at most and changes nothing that can be read |
| CompVecs.CompVec.Add | sim/lib/core/include/core/ics/compVec.h:74-95 | Adds under an id never used before; every other id reads as before; ids and places stay in correspondence, free places are queued once |
| CompVecs.CompVec.Remove | sim/lib/core/include/core/ics/compVec.h:97-108 | Removes one id and frees its place; other ids read as before; an unknown id throws without effect |
| CompVecs.CompVec.At | sim/lib/core/include/core/ics/compVec.h:62-72 | Reads exactly the live ids: both checks of the program agree |
| CompVecs.EnumeratedIds | sim/lib/core/src/ics/componentStore.cpp:4-16 | Counting from 1 to the size finds the live ids exactly when no live id is beyond the size |
| Indexes.ComponentStore.AsCompSet | sim/lib/core/src/ics/componentStore.cpp:4-16 | Gives exactly the ids of a store from which nothing was removed |
| Indexes.ComponentStore.AddComponent | sim/lib/core/include/core/ics/componentStore.h:37-43 | A component gets a new id in its group and no other component moves |
| Indexes.ComponentTypeIndex.AddComponentType | sim/src/index/componentTypeIndex.cpp:9-20 | Types keep their group, distinct types have distinct groups |
| Indexes.ComponentTypeIndex.FilterCompType | sim/include/index/componentTypeIndex.h:22-36 | Keeps exactly the ids of the type's group; an unknown type throws |
| Indexes.EntityIndex.SetEntityIds | sim/include/index/entityIndex.h:34-50 | Knows exactly the given ids and counts on from the largest |
| Indexes.SetIntersection | sim/lib/core/include/core/ics/util/setIntersection.h:9-20 | The loop computes the intersection |
| EngineStores.FoundRows | sim/src/ics.cpp:8-13 | The three filters leave exactly the ids listed for the entity and the type |
| EngineStores.EngineStore.GetComponent | sim/src/ics.cpp:4-25 | Finds a component exactly when one and only one was listed for the entity and the type |
| EngineStores.EngineStore.AddComponent | sim/include/ics.h:12-24 | Adds and lists a component; the indexes stay exact |
| FlatStore.FlatUpdate | sim/src/component/userComponent.cpp:24-83 | Setting one component's attribute is an update of the flat map at that reference and nowhere else |
| Interpreter.EvaluateNode | sim/src/interpreter/graphInterpreter.cpp:7-77 | On the indexed store a node evaluates to its value on the flat map, which stays as it is |
| Interpreter.MutateOp | sim/src/interpreter/operations.cpp:26-39 | On the indexed store an output does what it does on the flat map, failures included |
| Interpreter.RunGraph | sim/src/interpreter/graphInterpreter.cpp:79-86 | On the indexed store a graph does what it does on the flat map, failures included |
| Ids.EntityIdsDistinct | sim/include/simulation.h:36-60 | Entities end with distinct ids exactly when the configured ids are distinct and the 32-bit count does not come round to one of them |
| Ids.WithIdsAt | sim/include/simulation.h:36-60 | Configured ids are kept, unset ones are counted on from the largest, passing over zero |
| Ids.WithIdsStable | sim/include/simulation.h:36-60 | Applying the returned definition again changes no entity id |
| Ids.SystemIdsStable | sim/include/simulation.h:72-90 | Once every system has an id, applying the definition again changes none |
| Ids.SystemIdsFresh | sim/include/simulation.h:72-90 | While the count stays below 2^32 systems keep configured ids and get distinct larger ones |
| Ids.SystemIdsSet | sim/include/simulation.h:72-90 | Every system ends with an id exactly when the count stays below 2^32 |
| Ids.ListedOnce | sim/include/simulation.h:62-70 | With distinct entity ids and no name repeated in an entity, lookups find exactly the listed pairs |
| Ids.SchemaOfLast | sim/include/simulation.h:29-34 | The schema a component name has is that of its last definition |
| Simulations.Simulation.Fill | sim/include/simulation.h:24-91 | The constructor's loops give every id and list every component of every entity, in order; nothing is set |
| Simulations.Simulation.EntityId | sim/include/simulation.h:52-60 | The do-while loop gives the counter's id, passing over zero |
| Simulations.Simulation.SetSystemIds | sim/include/simulation.h:72-90 | The two loops over the systems assign the ids of AssignSystemIds |
| Simulations.Simulation.Step | sim/src/service/engineService.cpp:115-151 | Locks the simulation and runs the systems in order up to the first that fails |
| Calls.StepRuns | sim/src/service/engineService.cpp:115-151 | A step that finds its simulation locks it and runs all outputs of its systems in order up to the first that fails, whose error it returns; definition, types and the other simulations stay |
| Calls.StepWrites | sim/src/service/engineService.cpp:115-151 | One system that writes a constant: after a step the attribute reads as that constant, cast |
| Calls.ApplyHolds | sim/src/service/engineService.cpp:31-71 | An accepted definition holds, not locked and with the constructor's ids, what its initial graph leaves on an empty store |
| Calls.DropForgets | sim/src/service/engineService.cpp:73-219 | Dropping forgets the simulation; reading changes nothing; a name that is not there is reported without effect |
| Calls.LockedUntilDropped | sim/src/service/engineService.cpp:31-113 | From the first step until the drop the definition stays the same and every apply of that name is refused without effect, over any run of calls |
| Calls.OthersUntouched | sim/src/service/engineService.cpp:31-219 | Calls on other names never change a simulation, over any run of calls |
| Calls.SetThenGet | sim/src/service/engineService.cpp:153-219 | A successful set is read back as the cast value, a failed one changes nothing, other references read as before |
| Calls.FailingRun | sim/src/service/engineService.cpp:135-148 | A failing run leaves exactly the effects of the outputs before the failing one |
| Calls.StepIsOneRun | sim/src/service/engineService.cpp:135-148 | A step is one run of all systems' outputs in order |
| Calls.AllOutputsAt | sim/src/service/engineService.cpp:135-148 | Every system's outputs stand among all outputs, after those of the systems before it |
| Calls.TypedForever | sim/src/service/engineService.cpp:31-219 | Over any run of calls every value a simulation holds has its attribute's type, for schemas without array types |
| Calls.AttributesListed | sim/src/ics.cpp:4-25 | The attributes of a simulation are exactly those in the schemas of the listed components, when ids are distinct and no name repeats |
| Service.EngineService.ApplySimulation | sim/src/service/engineService.cpp:31-71 | The state machine's Apply: refused when locked; the new simulation takes the name even when its initial graph fails |
| Service.EngineService.StepSimulation | sim/src/service/engineService.cpp:115-151 | The state machine's Step, on the indexed store |
| Service.EngineService.GetAttribute | sim/src/service/engineService.cpp:153-185 | The state machine's GetAttribute: the value of the flat map or not found |
| Service.EngineService.SetAttribute | sim/src/service/engineService.cpp:187-219 | The state machine's SetAttribute |
| Service.EngineService.GetSimulation | sim/src/service/engineService.cpp:73-86 | Returns the definition with the ids the constructor gave |
| Service.EngineService.DropSimulation | sim/src/service/engineService.cpp:103-113 | Removes the simulation of that name and nothing else |
| Bits.BitReverse16IsRev | sim/lib/core/lib/stb_image/stb_image.h:3995-4002 | The masks and shifts reverse the low 16 bits |
| Bits.BitReverseIsRev | sim/lib/core/lib/stb_image/stb_image.h:4004-4010 | Reverses the low bits of a number, for every width up to 16 |
| Huffman.FeasibleIsKraft | sim/lib/core/lib/stb_image/stb_image.h:4017-4037 | The step-by-step tests of the code lengths amount to Kraft's inequality |
| Huffman.PrefixFree | sim/lib/core/lib/stb_image/stb_image.h:4012-4057 | No canonical code is a prefix of another |
| Huffman.FirstCodes | sim/lib/core/lib/stb_image/stb_image.h:4012-4057 | The smallest code of each length follows from the shorter ones as in step 2 of section 3.2.2 of RFC 1951 |
| Huffman.ConsecutiveCodes | sim/lib/core/lib/stb_image/stb_image.h:4012-4057 | Codes of one length are consecutive in the order of their symbols |
| Huffman.ExampleCodes | sim/lib/core/lib/stb_image/stb_image.h:4012-4057 | The codes of the standard's example |
| Huffman.MatchUnique | sim/lib/core/lib/stb_image/stb_image.h:4130-4147 | At most one symbol's code starts the stream |
| Huffman.MatchesIsStartsWith | sim/lib/core/lib/stb_image/stb_image.h:4111-4128 | The code comparison on reversed numbers is a prefix test on bit strings (section 3.2.2 of RFC 1951) |
| Huffman.CompleteCodeMatches | sim/lib/core/lib/stb_image/stb_image.h:4130-4147 | When the code is complete every stream starts with a code |
| HuffmanTable.ZHuffman.Build | sim/lib/core/lib/stb_image/stb_image.h:4012-4057 | Accepts exactly the length lists that satisfy Kraft's inequality, and then fills tables that decode them |
| HuffmanTable.MatchesIsStride | sim/lib/core/lib/stb_image/stb_image.h:4046-4052 | The streams that start with a code are those at every 2^s-th index of the fast table |
| ZBuf.Reader.Decode | sim/lib/core/lib/stb_image/stb_image.h:4130-4147 | Returns the symbol whose canonical code starts the stream and consumes that code, or -1 exactly when there is none; the fast table and the slow path agree |
| ZBuf.Reader.DecodeSlowPath | sim/lib/core/lib/stb_image/stb_image.h:4111-4128 | The slow path finds the code past the fast lengths; its range checks never fire |
| ZBuf.Reader.FillBits | sim/lib/core/lib/stb_image/stb_image.h:4089-4099 | Refilling neither loses nor reorders bits |
| ZBuf.StreamBit | sim/lib/core/lib/stb_image/stb_image.h:4089-4099 | Bit k of byte i is bit 8i + k of the stream |
| Deflate.CopyBackRepeats | sim/lib/core/lib/stb_image/stb_image.h:4216-4222 | Byte k of an overlapping copy repeats the last d bytes |
| Deflate.LengthTable | sim/lib/core/lib/stb_image/stb_image.h:4171-4177 | The length table: from 3, each code's values after those of the one before, no extra bits for eight codes and then one more every four; the last code is 258 (section 3.2.5) |
| Deflate.DistanceTable | sim/lib/core/lib/stb_image/stb_image.h:4179-4183 | The distance table: from 1, no extra bits for two codes and then one more every two |
| Deflate.MatchFor | sim/lib/core/lib/stb_image/stb_image.h:4171-4183 | Every length from 3 to 258 with every distance from 1 to 32768 has a match |
| Deflate.MatchIsOne | sim/lib/core/lib/stb_image/stb_image.h:4171-4183 | Other lengths and distances have none, and none has two, leaving out the last length code |
| Deflate.BlockIsString | sim/lib/core/lib/stb_image/stb_image.h:4185-4225 | An encoded block is the string of its tokens' bits, codes from their most significant bit and extra bits from their least, and the end code (section 3.1.1) |
| Deflate.ExpandAt | sim/lib/core/lib/stb_image/stb_image.h:4185-4225 | The output token by token: a literal is its byte, every byte of a match is the byte its distance before |
| Deflate.InWindowIs | sim/lib/core/lib/stb_image/stb_image.h:4212-4213 | A block keeps to its window exactly when no match's distance is larger than the output before it; its output is as long as its tokens say |
| Inflate.Inflater.ParseHuffmanBlock | sim/lib/core/lib/stb_image/stb_image.h:4185-4225 | Succeeds on every encoded block that fits with 15 bits to spare; on success it has consumed an encoded block and appended the LZ77 expansion of its tokens, within the limit of the buffer (section 3.2.5 of RFC 1951) |
| Inflate.RefusedMeans | sim/lib/core/lib/stb_image/stb_image.h:4185-4225 | A refused stream is no block, read as bits, with 15 bits after it, room for its bytes and matches that stay in the output |
| Inflate.Inflater.Expand | sim/lib/core/lib/stb_image/stb_image.h:4149-4169 | Keeps the contents, makes room for n bytes, terminates; fails exactly beyond the limit |
| Inflate.CapacityDoubles | sim/lib/core/lib/stb_image/stb_image.h:4149-4169 | The capacity is the size doubled until it exceeds 2^31 - 1, and no further |
| Inflate.Inflater.ReadMatch | sim/lib/core/lib/stb_image/stb_image.h:4204-4211 | Reads the length and distance of the match the bits encode |
| Inflate.EncodesUnique | sim/lib/core/lib/stb_image/stb_image.h:4185-4225 | A stream encodes at most one block |
| PngFilter.PaethIsNearest | sim/lib/core/lib/stb_image/stb_image.h:4525-4534 | The predictor is the nearest neighbour, ties in the order left, above, upper left (section 9.4 of the PNG Specification, Second Edition) |
| PngFilter.KindsUndo | sim/lib/core/lib/stb_image/stb_image.h:4516-4523 | The first-row filters are the ordinary ones over a row of zeros |
| PngFilter.FilterMeaning | sim/lib/core/lib/stb_image/stb_image.h:4584-4634 | A byte is its filtered byte plus nothing, the byte to the left, the byte above, half their sum rounded down, or the Paeth predictor, modulo 256 (section 9.2) |
| PngFilter.EncodedByte | sim/lib/core/lib/stb_image/stb_image.h:4565-4661 | Each row of the encoding is its filter type and then its filtered bytes, over the row before it or zeros |
| PngFilter.EncodeRowsInjective | sim/lib/core/lib/stb_image/stb_image.h:4565-4661 | The filtered bytes determine filter types and image |
| PngFilter.CreateImageRaw | sim/lib/core/lib/stb_image/stb_image.h:4538-4661 | Decoding inverts the five filters for every image size and choice of filters, with or without an added alpha channel; errors are exact (sections 9.2 to 9.4) |
| PngFilter.UnfilterRow | sim/lib/core/lib/stb_image/stb_image.h:4584-4634 | In place, a row without added alpha |
| PngFilter.UnfilterRowAlpha | sim/lib/core/lib/stb_image/stb_image.h:4584-4649 | In place, a row with an opaque alpha byte a pixel |
| Adam7.EachPixelOnce | sim/lib/core/lib/stb_image/stb_image.h:4762-4789 | The seven passes copy every pixel exactly once (section 8.2) |
| Adam7.PatternIsPassOf | sim/lib/core/lib/stb_image/stb_image.h:4762-4770 | The pass of a pixel is the one in the standard's 8 by 8 pattern |
| Adam7.CopyInBounds | sim/lib/core/lib/stb_image/stb_image.h:4777-4784 | Every copy stays in the image |
| Adam7.PassSizeIsCount | sim/lib/core/lib/stb_image/stb_image.h:4769-4770 | The unsigned pass sizes never underflow and count the pixels of the pass |
| Adam7.OffsetsDisjoint | sim/lib/core/lib/stb_image/stb_image.h:4780-4783 | Different pixels do not overlap |
| Deinterlace.CreatePngImage | sim/lib/core/lib/stb_image/stb_image.h:4751-4793 | Data that start with the seven encoded passes of an image decode to that image; accepted data start with the encodings of the seven passes the result is made of; data fail exactly with the error of the first pass that is short or has a filter type above 4 |
| GifLzw.RunSpelled | sim/lib/core/lib/stb_image/stb_image.h:6545-6589 | Decoding inverts LZW encoding, with any choice of codes, clear codes anywhere and the code that equals the next entry, exactly when no more codes stand between two clear codes than the table can learn from (Appendix F of the GIF89a Specification) |
| GifLzw.CodeMeaning | sim/lib/core/lib/stb_image/stb_image.h:6545-6589 | Which codes clear, end, are errors or emit, what they emit and what entry they add |
| GifLzw.DecodePacked | sim/lib/core/lib/stb_image/stb_image.h:6516-6591 | The same on bits: codes in the smallest width for the entries learnt so far |
| GifLzw.GrowIsWidth | sim/lib/core/lib/stb_image/stb_image.h:6580-6583 | Widening when the count reaches a power of two keeps the width smallest |
| Gif.RasterDecoded | sim/lib/core/lib/stb_image/stb_image.h:6508-6591 | The same on the data of a frame: a size byte and the packed codes cut into any sub-blocks |
| Gif.BlocksRead | sim/lib/core/lib/stb_image/stb_image.h:6537-6544 | Reading sub-blocks gives their bytes joined, however they are cut, and ends after the empty block |
| Gif.RasterSizes | sim/lib/core/lib/stb_image/stb_image.h:6516-6518 | Symbol sizes above 12 are refused, and any other size with no data is an empty raster |
| Gif.SmallRaster | sim/lib/core/lib/stb_image/stb_image.h:6508-6591 | The five bytes 2, 2, 4C, 01, 0 are the symbol 1 |
| Gif.FrameDecoded | sim/lib/core/lib/stb_image/stb_image.h:6471-6591 | Every pixel of a decoded frame shows the symbol of its number |
| Gif.LearnSpells | sim/lib/core/lib/stb_image/stb_image.h:6566-6574 | A learnt entry spells its string: prefix is a smaller code, first and suffix are the ends |
| Gif.Gif.ProcessRaster | sim/lib/core/lib/stb_image/stb_image.h:6508-6591 | Draws what the reference decoder gives, reports an error exactly when it does, and ends after the chain of sub-blocks |
| Gif.Gif.OutGifCode | sim/lib/core/lib/stb_image/stb_image.h:6471-6506 | The recursion over prefixes terminates and draws the code's string at the cursor |
| Gif.Gif.NextRow | sim/lib/core/lib/stb_image/stb_image.h:6496-6505 | The cursor's byte offsets move to the next row of the pass, or to the next pass that has one |
| Gif.Gif.BeginFrame | sim/lib/core/lib/stb_image/stb_image.h:6662-6697 | Accepts exactly frames inside the image and puts the cursor on the first pixel |
| GifFrame.EachPixelOnce | sim/lib/core/lib/stb_image/stb_image.h:6471-6506 | The cursor visits every pixel of a frame exactly once, interlaced in four passes or not (Appendix E) |
| GifFrame.FrameShown | sim/lib/core/lib/stb_image/stb_image.h:6471-6506 | Pixel by pixel: symbol n is shown at pixel n, transparent colors leave it, symbols beyond the last pixel are dropped |
| GifFrame.PixelAndColor | sim/lib/core/lib/stb_image/stb_image.h:6471-6506 | Pixels are numbered row by row, and a color above alpha 128 is shown as red, green, blue, alpha from a table kept blue first |
| GifFrame.PaintOutside | sim/lib/core/lib/stb_image/stb_image.h:6471-6506 | Pixels outside the frame are as before |

## Left out

- Resolving definitions and labelling symbols on a whole Python AST: `Analysis` computes for assignments, if statements and conditional expressions whether a symbol is used from outside; keys are compared as sets, so their order and the lists of nodes stored under them are not modelled.
- Compile.GraphMeaning: asks that every statement the run executes is traced right; the condition is exact for each statement (`TraceMeaning.WriteMeaning`, `TraceMeaning.SharedBranchMeaning`), but a later write can repair an earlier wrong one.
- Python parsing, unparsing and module loading, augmented and multiple assignment, arithmetic on native numbers before they become nodes, `and`/`or`/`not` and `!=` on nodes.
- Aliases: two variables for one entity, a component kept in a variable (`pos = car[Position]`), an entity variable assigned again, and two spellings of one component (`car[Position]` and `car["position"]`), which the analysis would take for different symbols.
- Floating point rounding, infinities and NaN: floating point values are reals, and division of a real by zero is `Undefined`.
- Interpreter.EvaluateNode: the other operations are not modelled. Powers and trigonometry are about rounding, a random node has no value to state, and which type abs, floor and ceil give depends on the overloads the C++ headers declare, since the source calls them unqualified.
- Values of array types beyond what `setValue` does with them: type deduction on them throws.
- CompVecs.CompVec.At: gives the place itself; that writing through it changes one component is stated at the store. The 64-bit id counter does not wrap.
- Indexes.ComponentStore.AddComponent: the component object itself is placed, where the source copies it; its caller keeps no other use of it.
- The exact text of errors, gRPC, protobuf encoding, rendering, file loading and environment variables.
- Ids: definitions with 2^32 - 1 entities or more.
- Inflate.Inflater.ParseHuffmanBlock: length symbols above 285 and distance symbols above 29 are `Unspecified`; the source reads a zero base for them. With fewer than 15 bits to spare after the block nothing is promised. The output pointer field is up to date after every byte, where the source keeps it in a local until the block ends.
- Inflate.Inflater.Expand: asks for a buffer that is not empty, as doubling an empty one does not end; allocation does not fail.
- ZBuf.Reader.Decode: with fewer than 16 bits in a used-up input the result is -1, as in the source, whatever the bits.
- DEFLATE block headers, code length codes, stored blocks, the zlib header and checksums.
- PngFilter.CreateImageRaw: 8-bit channels; 16-bit channels, packed pixels, palettes, size overflow checks and PNG chunks are not modelled.
- Adam7.PassSizeIsCount: sizes up to the 2^24 the loader accepts.
- Gif.Gif.ProcessRaster: cursor offsets are unbounded integers; frame disposal, extensions, the screen header and color table parsing are not modelled.
- GifLzw.DecodePacked: symbol sizes of 2 to 11 bits; sizes 0 and 1, which the specification excludes, are decoded by the model but have no encoder.
- The other image formats of stb_image, and its memory allocation.
