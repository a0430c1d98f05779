# Graal OSR entry location and guard-action algebra, in Dafny

This project models two small parts of the Graal JIT compiler as it ships in JDK 11.

1. **Guard priority and deoptimization-action algebra** (`StaticDeoptimizingNode`).
   `GuardPriority` has three values, declared from highest to lowest priority: `Speculation`, `Profile`, `None`.
   The comparisons go through `Enum.compareTo`, which compares declaration indices.
   `computePriority` derives a guard's priority from its speculation and its `DeoptimizationAction`.
   `mergeActions` combines two guard actions, or reports that they cannot be combined.
   Java's `null` is `Wrappers.None` here, and so is `SpeculationLog.NO_SPECULATION`.
2. **The OSR entry locator and compilation trigger** (`GraalOsrTestBase`).
   `getBackedgeBCI` walks the bytecode block mapping and returns the start bci of the target of the first back edge.
   That bci is where HotSpot triggers on-stack replacement.
   The block mapping is an input: a list of `BciBlock(startBci, endBci, successors)`, where `endBci` is the bci of the block's last bytecode.
   Successors are indices into that same list, and `WellFormed` says they are in range.
   A start bci of `-1` marks a synthetic block.
   `GetBackedgeBci` is a method with two nested loops, as in the source.
   It is proved equal to the ghost function `OsrEntryBci`.
   `OsrEntryBci` is the declarative answer: the target start of the lexicographically first (block, successor) back edge, or `-1`.
   `compile` and `compileOSR` are modelled over oracles.
   The oracles stand for the VM's installed-code query, its full-optimization level, and the compiler's result.

Notes on what the code does:

- `compile` checks `hasCodeAtLevel` for whatever bci it is given, including the normal-entry bci -1.
- `compile` throws a `GraalError` for every failure the request reports; a bailout is not told apart.
- `compile` casts the method to `HotSpotResolvedJavaMethod` when it builds the request. A non-HotSpot method therefore fails there (`CastFailure`), before the `instanceof` test, which then always holds.
- `compile` builds its task from `debug.getOptions()`. Here `debug` is the context of the eagerly parsed graph, so the compiler sees the defaulted options. The compiler oracle takes those options as input.
- `assert bci != -1` only fires when Java assertions are enabled. `CompileOsr` takes that as a parameter. Without assertions, compilation runs at bci `-1`.

## Model

| member | source | states |
|---|---|---|
| `StaticDeoptimizingNode.IsHigherPriorityThan` | jdk.internal.vm.compiler/org.graalvm.compiler.nodes/src/org/graalvm/compiler/nodes/StaticDeoptimizingNode.java:57-59 | computed through `compareTo`; holds exactly when Speculation is compared with another priority, or Profile with None |
| `StaticDeoptimizingNode.IsLowerPriorityThan` | jdk.internal.vm.compiler/org.graalvm.compiler.nodes/src/org/graalvm/compiler/nodes/StaticDeoptimizingNode.java:61-63 | `a.isLowerPriorityThan(b)` holds exactly when `b.isHigherPriorityThan(a)` |
| `StaticDeoptimizingNode.Highest` | jdk.internal.vm.compiler/org.graalvm.compiler.nodes/src/org/graalvm/compiler/nodes/StaticDeoptimizingNode.java:65-67 | no priority is higher than the result, and the result is higher than every other priority |
| `StaticDeoptimizingNode.PriorityIrreflexive` | jdk.internal.vm.compiler/org.graalvm.compiler.nodes/src/org/graalvm/compiler/nodes/StaticDeoptimizingNode.java:49-59 | no priority is higher than itself |
| `StaticDeoptimizingNode.PriorityAsymmetric` | jdk.internal.vm.compiler/org.graalvm.compiler.nodes/src/org/graalvm/compiler/nodes/StaticDeoptimizingNode.java:49-59 | if a is higher than b then b is not higher than a |
| `StaticDeoptimizingNode.PriorityTransitive` | jdk.internal.vm.compiler/org.graalvm.compiler.nodes/src/org/graalvm/compiler/nodes/StaticDeoptimizingNode.java:49-59 | higher-than is transitive |
| `StaticDeoptimizingNode.PriorityTrichotomy` | jdk.internal.vm.compiler/org.graalvm.compiler.nodes/src/org/graalvm/compiler/nodes/StaticDeoptimizingNode.java:49-59 | of two distinct priorities exactly one is higher than the other |
| `StaticDeoptimizingNode.ComputePriority` | jdk.internal.vm.compiler/org.graalvm.compiler.nodes/src/org/graalvm/compiler/nodes/StaticDeoptimizingNode.java:70-85 | a real speculation gives the highest priority whatever the action; without one the result is strictly below the highest, and it is Profile exactly for InvalidateReprofile and InvalidateRecompile; total over all five actions |
| `StaticDeoptimizingNode.MergeActions` | jdk.internal.vm.compiler/org.graalvm.compiler.nodes/src/org/graalvm/compiler/nodes/StaticDeoptimizingNode.java:87-96 | mergeable exactly when the actions are equal or are the pair {InvalidateRecompile, InvalidateReprofile}; a merge result is one of the two inputs, and for distinct inputs it is InvalidateReprofile |
| `StaticDeoptimizingNode.MergeReflexive` | jdk.internal.vm.compiler/org.graalvm.compiler.nodes/src/org/graalvm/compiler/nodes/StaticDeoptimizingNode.java:88-90 | every action merges with itself to itself |
| `StaticDeoptimizingNode.MergeCommutative` | jdk.internal.vm.compiler/org.graalvm.compiler.nodes/src/org/graalvm/compiler/nodes/StaticDeoptimizingNode.java:91-94 | merging is independent of argument order |
| `StaticDeoptimizingNode.MergeAssociative` | jdk.internal.vm.compiler/org.graalvm.compiler.nodes/src/org/graalvm/compiler/nodes/StaticDeoptimizingNode.java:87-96 | folding three actions gives the same result (or the same unmergeability) whichever pair is merged first |
| `StaticDeoptimizingNode.MergePreservesPriority` | jdk.internal.vm.compiler/org.graalvm.compiler.nodes/src/org/graalvm/compiler/nodes/StaticDeoptimizingNode.java:75-96 | mergeable actions have the same priority, and the merged action keeps it |
| `StaticDeoptimizingNode.MergeExamples` | jdk.internal.vm.compiler/org.graalvm.compiler.nodes/src/org/graalvm/compiler/nodes/StaticDeoptimizingNode.java:91-95 | InvalidateRecompile with InvalidateReprofile gives InvalidateReprofile; InvalidateStopCompiling with RecompileIfTooManyDeopts is unmergeable |
| `GraalOsrTestBase.GetBackedgeBci` | jdk.internal.vm.compiler/org.graalvm.compiler.hotspot.test/src/org/graalvm/compiler/hotspot/test/GraalOSRTestBase.java:101-124 | the nested scan returns exactly `OsrEntryBci`: the target start of the first back edge, or -1 |
| `GraalOsrTestBase.FirstBackEdgeExistsFrom` | jdk.internal.vm.compiler/org.graalvm.compiler.hotspot.test/src/org/graalvm/compiler/hotspot/test/GraalOSRTestBase.java:107-116 | from any back edge, a lexicographically first back edge exists |
| `GraalOsrTestBase.FirstBackEdgeExists` | jdk.internal.vm.compiler/org.graalvm.compiler.hotspot.test/src/org/graalvm/compiler/hotspot/test/GraalOSRTestBase.java:107-116 | a block list with a back edge has a first one, so the scan always has an answer to find |
| `GraalOsrTestBase.FirstBackEdgeUnique` | jdk.internal.vm.compiler/org.graalvm.compiler.hotspot.test/src/org/graalvm/compiler/hotspot/test/GraalOSRTestBase.java:107-116 | the first back edge is unique, so the result is deterministic |
| `GraalOsrTestBase.OsrEntryBciOfFirst` | jdk.internal.vm.compiler/org.graalvm.compiler.hotspot.test/src/org/graalvm/compiler/hotspot/test/GraalOSRTestBase.java:107-116 | the entry bci is the target start of whichever pair is the first back edge |
| `GraalOsrTestBase.OsrEntryBciSpec` | jdk.internal.vm.compiler/org.graalvm.compiler.hotspot.test/src/org/graalvm/compiler/hotspot/test/GraalOSRTestBase.java:107-123 | -1 exactly when no real block has a real successor starting before its end; otherwise the start of a real successor S of a real block B with S.start < B.end, with no earlier block or successor position qualifying |
| `GraalOsrTestBase.EmptyHasNoOsrEntry` | jdk.internal.vm.compiler/org.graalvm.compiler.hotspot.test/src/org/graalvm/compiler/hotspot/test/GraalOSRTestBase.java:107-123 | an empty block list gives -1 |
| `GraalOsrTestBase.EqualBciIsNotBackEdge` | jdk.internal.vm.compiler/org.graalvm.compiler.hotspot.test/src/org/graalvm/compiler/hotspot/test/GraalOSRTestBase.java:113 | the comparison is strict: a successor starting at the block's end bci is no back edge |
| `GraalOsrTestBase.OsrEntryBciNonNegative` | jdk.internal.vm.compiler/org.graalvm.compiler.hotspot.test/src/org/graalvm/compiler/hotspot/test/GraalOSRTestBase.java:108-115 | when real blocks start at non-negative bcis, the result is -1 or non-negative |
| `GraalOsrTestBase.SyntheticBlocksIgnored` | jdk.internal.vm.compiler/org.graalvm.compiler.hotspot.test/src/org/graalvm/compiler/hotspot/test/GraalOSRTestBase.java:108 | the end bci and successors of synthetic blocks never affect the result |
| `GraalOsrTestBase.OsrEntryBciPrefixStable` | jdk.internal.vm.compiler/org.graalvm.compiler.hotspot.test/src/org/graalvm/compiler/hotspot/test/GraalOSRTestBase.java:107-116 | once a well-formed list has a back edge, appending blocks does not change the answer |
| `GraalOsrTestBase.SingleLoopEntersAtFive` | jdk.internal.vm.compiler/org.graalvm.compiler.hotspot.test/src/org/graalvm/compiler/hotspot/test/GraalOSRTestBase.java:101-124 | blocks (0, 4) -> (5, 11) -> (12, 19) -> (5, 11), as (start bci, end bci of the last bytecode), give entry bci 5 |
| `GraalOsrTestBase.OneBytecodeSelfLoopNotReported` | jdk.internal.vm.compiler/org.graalvm.compiler.hotspot.test/src/org/graalvm/compiler/hotspot/test/GraalOSRTestBase.java:113 | a one-bytecode block (5, 5) jumping to itself gives -1, because the comparison is strict |
| `GraalOsrTestBase.EffectiveOptions` | jdk.internal.vm.compiler/org.graalvm.compiler.hotspot.test/src/org/graalvm/compiler/hotspot/test/GraalOSRTestBase.java:134-139 | an unset CompilationBailoutAction becomes Silent; a caller's setting is kept; other options are unchanged |
| `GraalOsrTestBase.EffectiveOptionsIdempotent` | jdk.internal.vm.compiler/org.graalvm.compiler.hotspot.test/src/org/graalvm/compiler/hotspot/test/GraalOSRTestBase.java:137-139 | defaulting already-defaulted options changes nothing |
| `GraalOsrTestBase.Compile` | jdk.internal.vm.compiler/org.graalvm.compiler.hotspot.test/src/org/graalvm/compiler/hotspot/test/GraalOSRTestBase.java:78-95 | a cast failure exactly for a non-HotSpot method; no compilation exactly when code is installed at the full-optimization level for the bci; otherwise a GraalError exactly when the request reports a failure, carrying its message |
| `GraalOsrTestBase.AlreadyInstalledIgnoresCompiler` | jdk.internal.vm.compiler/org.graalvm.compiler.hotspot.test/src/org/graalvm/compiler/hotspot/test/GraalOSRTestBase.java:84-91 | with code already installed, the outcome is the same whatever the compiler would have returned |
| `GraalOsrTestBase.CompileAfterInstallIsNoOp` | jdk.internal.vm.compiler/org.graalvm.compiler.hotspot.test/src/org/graalvm/compiler/hotspot/test/GraalOSRTestBase.java:87-89 | after full-optimization code is installed at a bci, compiling there again is a no-op |
| `GraalOsrTestBase.CompileOsr` | jdk.internal.vm.compiler/org.graalvm.compiler.hotspot.test/src/org/graalvm/compiler/hotspot/test/GraalOSRTestBase.java:133-146 | stops before compiling exactly when assertions are on and there is no back edge; otherwise compiles at the first back edge's target bci with the defaulted options |

## Left out

- `AnnotationTypeWriterImpl.java` is not part of this model. It generates javadoc HTML pages and holds no algorithm to state.
- Building the block mapping (`BciBlockMapping.create`) and decoding bytecode are not modelled. The block list is an input, and `WellFormed` is its precondition.
- The `TTY.println` diagnostics and the disassembly printed when no back edge is found are not modelled. They are output only.
- `parseEager`, `method.reprofile()`, `HotSpotJVMCIRuntime.runtime()` and the construction of the request and task are not modelled. They are calls into the VM and the compiler. `hasCodeAtLevel`, the full-optimization level and `CompilationTask.runCompilation` are oracles held in `ResolvedMethod` and `Runtime`.
- `Compile`: the request's `jvmciEnv` and the task's profiling and install flags are not modelled. They only reach the compiler oracle.
- `Compile`: a request failure's retry flag is not modelled. `compile` does not read it.
- The JUnit glue is not modelled: `testOSR`, `checkResult`, `ReturnValue` and the constructors.
- The abstract getters and setters of `StaticDeoptimizingNode` are not modelled, and neither is `DeoptimizationReason`. They play no part in priority or merge.
- `ComputePriority`: the `assert getSpeculation() != null` has no counterpart. `Option` cannot be null.
- Concurrency is not modelled. The installed-code query is read once as a snapshot.
