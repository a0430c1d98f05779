/**
 * The on-stack-replacement entry locator and the compilation trigger of
 * GraalOSRTestBase. The block mapping of a method is given as a list of
 * blocks whose successors are indices into that same list; a start bci of
 * -1 marks a synthetic block. The locator returns the target bci of the
 * first back edge in (block, successor) order, or -1 when there is none;
 * the trigger compiles a method at that bci unless code is already
 * installed there at the full-optimization level.
 */
module GraalOsrTestBase {
  import Wrappers

  /** A block of the bytecode block mapping: its start and end bci and its successors' indices. */
  datatype BciBlock = BciBlock(startBci: int, endBci: int, successors: seq<nat>)

  /** Every successor index points into the block list. */
  predicate WellFormed(blocks: seq<BciBlock>)
  {
    forall i, k :: 0 <= i < |blocks| && 0 <= k < |blocks[i].successors| ==> blocks[i].successors[k] < |blocks|
  }

  /** Block i exists and has a successor at position k that is in the list. */
  predicate IsEdge(blocks: seq<BciBlock>, i: nat, k: nat)
  {
    i < |blocks| && k < |blocks[i].successors| && blocks[i].successors[k] < |blocks|
  }

  /** The successor block at position k of block i. */
  function Target(blocks: seq<BciBlock>, i: nat, k: nat): BciBlock
    requires IsEdge(blocks, i, k)
  {
    blocks[blocks[i].successors[k]]
  }

  /**
   * The edge from block i to its k-th successor is a back edge: both blocks
   * are real and the successor starts strictly before block i ends.
   */
  predicate IsBackEdge(blocks: seq<BciBlock>, i: nat, k: nat)
  {
    && IsEdge(blocks, i, k)
    && blocks[i].startBci != -1
    && Target(blocks, i, k).startBci != -1
    && Target(blocks, i, k).startBci < blocks[i].endBci
  }

  /** None of the first n blocks has a back edge. */
  ghost predicate NoBackEdgeBefore(blocks: seq<BciBlock>, n: nat)
  {
    forall i: nat, k: nat :: i < n ==> !IsBackEdge(blocks, i, k)
  }

  /** No block has a back edge. */
  ghost predicate NoBackEdge(blocks: seq<BciBlock>)
  {
    forall i: nat, k: nat :: !IsBackEdge(blocks, i, k)
  }

  /** (i, k) is a back edge and no pair before it in (block, successor) order is one. */
  ghost predicate IsFirstBackEdge(blocks: seq<BciBlock>, i: nat, k: nat)
  {
    && IsBackEdge(blocks, i, k)
    && NoBackEdgeBefore(blocks, i)
    && forall k': nat :: k' < k ==> !IsBackEdge(blocks, i, k')
  }

  /** Whenever some back edge exists, a first one exists. */
  lemma {:induction false} FirstBackEdgeExistsFrom(blocks: seq<BciBlock>, i: nat, k: nat)
    requires IsBackEdge(blocks, i, k)
    ensures exists i': nat, k': nat :: IsFirstBackEdge(blocks, i', k')
    decreases i, k
  {
    if !IsFirstBackEdge(blocks, i, k) {
      if !NoBackEdgeBefore(blocks, i) {
        var i': nat, k': nat :| i' < i && IsBackEdge(blocks, i', k');
        FirstBackEdgeExistsFrom(blocks, i', k');
      } else {
        var k': nat :| k' < k && IsBackEdge(blocks, i, k');
        FirstBackEdgeExistsFrom(blocks, i, k');
      }
    }
  }

  /** A block list with some back edge has a first one. */
  lemma FirstBackEdgeExists(blocks: seq<BciBlock>)
    requires !NoBackEdge(blocks)
    ensures exists i: nat, k: nat :: IsFirstBackEdge(blocks, i, k)
  {
    var i: nat, k: nat :| IsBackEdge(blocks, i, k);
    FirstBackEdgeExistsFrom(blocks, i, k);
  }

  /** The first back edge is unique. */
  lemma FirstBackEdgeUnique(blocks: seq<BciBlock>, i1: nat, k1: nat, i2: nat, k2: nat)
    requires IsFirstBackEdge(blocks, i1, k1) && IsFirstBackEdge(blocks, i2, k2)
    ensures i1 == i2 && k1 == k2
  {
  }

  /**
   * The OSR entry bci the locator is meant to find: the start bci of the
   * target of the first back edge, or -1 when there is no back edge.
   */
  ghost function OsrEntryBci(blocks: seq<BciBlock>): int
  {
    if NoBackEdge(blocks) then
      -1
    else
      FirstBackEdgeExists(blocks);
      var i: nat, k: nat :| IsFirstBackEdge(blocks, i, k);
      Target(blocks, i, k).startBci
  }

  /** The OSR entry bci is the target start of the first back edge. */
  lemma {:induction false} OsrEntryBciOfFirst(blocks: seq<BciBlock>, i: nat, k: nat)
    requires IsFirstBackEdge(blocks, i, k)
    ensures OsrEntryBci(blocks) == Target(blocks, i, k).startBci
  {
    assert !NoBackEdge(blocks);
    forall i': nat, k': nat | IsFirstBackEdge(blocks, i', k')
      ensures i' == i && k' == k
    {
      FirstBackEdgeUnique(blocks, i, k, i', k');
    }
  }

  /**
   * A result other than -1 is the start bci of a real successor S of a real
   * block B with S.start < B.end, and no earlier pair is such an edge; the
   * result is -1 exactly when there is no back edge at all.
   */
  lemma OsrEntryBciSpec(blocks: seq<BciBlock>)
    ensures OsrEntryBci(blocks) == -1 <==> NoBackEdge(blocks)
    ensures OsrEntryBci(blocks) != -1 ==>
      exists i: nat, k: nat ::
        && IsFirstBackEdge(blocks, i, k)
        && blocks[i].startBci != -1
        && Target(blocks, i, k).startBci != -1
        && Target(blocks, i, k).startBci < blocks[i].endBci
        && OsrEntryBci(blocks) == Target(blocks, i, k).startBci
  {
  }

  /** An empty block list has no back edge. */
  lemma EmptyHasNoOsrEntry()
    ensures OsrEntryBci([]) == -1
  {
  }

  /** The comparison is strict: a successor starting exactly at the block's end bci is no back edge. */
  lemma EqualBciIsNotBackEdge(blocks: seq<BciBlock>, i: nat, k: nat)
    requires IsEdge(blocks, i, k) && Target(blocks, i, k).startBci == blocks[i].endBci
    ensures !IsBackEdge(blocks, i, k)
  {
  }

  /** Every real block starts at a non-negative bci. */
  predicate RealStartsNonNegative(blocks: seq<BciBlock>)
  {
    forall i :: 0 <= i < |blocks| && blocks[i].startBci != -1 ==> blocks[i].startBci >= 0
  }

  /** When real blocks start at non-negative bcis, a found entry is a non-negative bci. */
  lemma OsrEntryBciNonNegative(blocks: seq<BciBlock>)
    requires RealStartsNonNegative(blocks)
    ensures OsrEntryBci(blocks) == -1 || OsrEntryBci(blocks) >= 0
  {
  }

  /**
   * Two block lists that agree on every start bci and on every real block
   * (they may differ in the end bci and successors of synthetic blocks).
   */
  predicate SameRealBlocks(b1: seq<BciBlock>, b2: seq<BciBlock>)
  {
    && |b1| == |b2|
    && (forall j :: 0 <= j < |b1| ==> b1[j].startBci == b2[j].startBci)
    && (forall j :: 0 <= j < |b1| && b1[j].startBci != -1 ==> b1[j] == b2[j])
  }

  /** Synthetic blocks are never examined: what they point to cannot change the result. */
  lemma {:induction false} SyntheticBlocksIgnored(b1: seq<BciBlock>, b2: seq<BciBlock>)
    requires SameRealBlocks(b1, b2)
    ensures OsrEntryBci(b1) == OsrEntryBci(b2)
  {
    forall i: nat, k: nat
      ensures IsBackEdge(b1, i, k) <==> IsBackEdge(b2, i, k)
    {
      if i < |b1| && b1[i].startBci != -1 {
        assert b1[i] == b2[i];
      }
    }
    if !NoBackEdge(b1) {
      FirstBackEdgeExists(b1);
      var i: nat, k: nat :| IsFirstBackEdge(b1, i, k);
      assert IsFirstBackEdge(b2, i, k);
      OsrEntryBciOfFirst(b1, i, k);
      OsrEntryBciOfFirst(b2, i, k);
    }
  }

  /** Blocks appended after a well-formed list with a back edge cannot change the result. */
  lemma {:induction false} OsrEntryBciPrefixStable(blocks: seq<BciBlock>, more: seq<BciBlock>)
    requires WellFormed(blocks) && OsrEntryBci(blocks) != -1
    ensures OsrEntryBci(blocks + more) == OsrEntryBci(blocks)
  {
    FirstBackEdgeExists(blocks);
    var i: nat, k: nat :| IsFirstBackEdge(blocks, i, k);
    var all := blocks + more;
    forall i': nat, k': nat | i' < |blocks|
      ensures IsBackEdge(all, i', k') <==> IsBackEdge(blocks, i', k')
    {
      assert all[i'] == blocks[i'];
      if k' < |blocks[i'].successors| {
        assert all[blocks[i'].successors[k']] == blocks[blocks[i'].successors[k']];
      }
    }
    assert IsFirstBackEdge(all, i, k);
    OsrEntryBciOfFirst(blocks, i, k);
    OsrEntryBciOfFirst(all, i, k);
  }

  /**
   * getBackedgeBCI: scans the blocks in order, skipping synthetic ones, and
   * each real block's successors in order; returns the start bci of the
   * first real successor that starts before the block's end bci, else -1.
   */
  method GetBackedgeBci(blocks: seq<BciBlock>) returns (bci: int)
    requires WellFormed(blocks)
    ensures bci == OsrEntryBci(blocks)
  {
    var i := 0;
    while i < |blocks|
      invariant 0 <= i <= |blocks|
      invariant NoBackEdgeBefore(blocks, i)
    {
      var block := blocks[i];
      if block.startBci != -1 {
        var end := block.endBci;
        var k := 0;
        while k < |block.successors|
          invariant 0 <= k <= |block.successors|
          invariant forall k': nat :: k' < k ==> !IsBackEdge(blocks, i, k')
        {
          var succ := blocks[block.successors[k]];
          if succ.startBci != -1 {
            var succBci := succ.startBci;
            if succBci < end {
              // back edge
              assert IsFirstBackEdge(blocks, i, k);
              OsrEntryBciOfFirst(blocks, i, k);
              return succBci;
            }
          }
          k := k + 1;
        }
      }
      i := i + 1;
    }
    return -1;
  }

  /**
   * Three blocks given as (start bci, end bci, successors), where the end bci
   * is that of the block's last bytecode: (0, 4) -> (5, 11) -> (12, 19), and
   * (12, 19) jumps back to (5, 11). The loop is entered at bci 5.
   */
  function SingleLoop(): seq<BciBlock>
  {
    [BciBlock(0, 4, [1]), BciBlock(5, 11, [2]), BciBlock(12, 19, [1])]
  }

  lemma SingleLoopEntersAtFive()
    ensures OsrEntryBci(SingleLoop()) == 5
  {
    var blocks := SingleLoop();
    assert !IsBackEdge(blocks, 0, 0);
    assert !IsBackEdge(blocks, 1, 0);
    assert IsFirstBackEdge(blocks, 2, 0);
    OsrEntryBciOfFirst(blocks, 2, 0);
  }

  /**
   * Because the comparison is strict, a block of a single bytecode that
   * jumps to itself starts at its own end bci and is not reported.
   */
  lemma OneBytecodeSelfLoopNotReported()
    ensures OsrEntryBci([BciBlock(5, 5, [0])]) == -1
  {
    var blocks := [BciBlock(5, 5, [0])];
    forall i: nat, k: nat
      ensures !IsBackEdge(blocks, i, k)
    {
      if IsEdge(blocks, i, k) {
        EqualBciIsNotBackEdge(blocks, i, k);
      }
    }
  }

  // ---------------------------------------------------------------------
  // The compilation trigger. The VM queries and the compiler are oracles.

  /** CompilationWrapper.ExceptionAction, the values of the CompilationBailoutAction option. */
  datatype ExceptionAction = Silent | Print | Diagnose | ExitVM

  /**
   * The option values a compilation sees: CompilationBailoutAction, absent
   * when the caller has not set it, and every other option.
   */
  datatype OptionValues = OptionValues(
    compilationBailoutAction: Wrappers.Option<ExceptionAction>,
    others: map<string, string>)

  /**
   * compileOSR's option defaulting: a CompilationBailoutAction that has not
   * been set becomes Silent; a caller's own setting and all other options
   * are kept.
   */
  function EffectiveOptions(options: OptionValues): (g: OptionValues)
    ensures g.others == options.others
    ensures options.compilationBailoutAction.Some? ==> g == options
    ensures options.compilationBailoutAction.None? ==> g.compilationBailoutAction == Wrappers.Some(Silent)
  {
    if options.compilationBailoutAction.None? then
      OptionValues(Wrappers.Some(Silent), options.others)
    else
      options
  }

  /** Defaulting twice is defaulting once. */
  lemma EffectiveOptionsIdempotent(options: OptionValues)
    ensures EffectiveOptions(EffectiveOptions(options)) == EffectiveOptions(options)
  {
  }

  /**
   * A method to compile: its identity, whether it is a HotSpot method, its
   * installed code, and its block mapping.
   */
  datatype ResolvedMethod = ResolvedMethod(
    id: nat,
    isHotSpotMethod: bool,
    hasCodeAtLevel: (int, int) -> bool,  // (bci, compilation level)
    blocks: seq<BciBlock>)

  /** What a compilation request reports: success, or a failure with its message. */
  datatype RequestResult = Success | Failure(message: string)

  /** The VM: its full-optimization level and the compilation it runs for (options, method id, bci). */
  datatype Runtime = Runtime(
    compilationLevelFullOptimization: int,
    runCompilation: (OptionValues, nat, int) -> RequestResult)

  /**
   * How compile ends: the request's cast fails, code is already installed
   * so nothing is compiled, the compilation succeeds, or it fails and
   * compile throws a GraalError with the failure message.
   */
  datatype CompileOutcome = CastFailure | AlreadyInstalled | Compiled | GraalError(message: string)

  /**
   * compile(debug, method, bci). The request casts the method to a HotSpot
   * method first, so the later instanceof test always holds.
   */
  function Compile(options: OptionValues, m: ResolvedMethod, bci: int, runtime: Runtime): (r: CompileOutcome)
    ensures r == CastFailure <==> !m.isHotSpotMethod
    ensures r == AlreadyInstalled <==>
      m.isHotSpotMethod && m.hasCodeAtLevel(bci, runtime.compilationLevelFullOptimization)
    ensures r.GraalError? <==>
      && m.isHotSpotMethod
      && !m.hasCodeAtLevel(bci, runtime.compilationLevelFullOptimization)
      && runtime.runCompilation(options, m.id, bci).Failure?
    ensures r.GraalError? ==> r.message == runtime.runCompilation(options, m.id, bci).message
  {
    if !m.isHotSpotMethod then
      CastFailure
    else if m.isHotSpotMethod && m.hasCodeAtLevel(bci, runtime.compilationLevelFullOptimization) then
      AlreadyInstalled
    else
      var result := runtime.runCompilation(options, m.id, bci);
      if result.Failure? then GraalError(result.message) else Compiled
  }

  /** When code is already installed, the compiler is never consulted: any compiler gives the same outcome. */
  lemma AlreadyInstalledIgnoresCompiler(options: OptionValues, m: ResolvedMethod, bci: int, r1: Runtime, r2: Runtime)
    requires r1.compilationLevelFullOptimization == r2.compilationLevelFullOptimization
    requires m.isHotSpotMethod && m.hasCodeAtLevel(bci, r1.compilationLevelFullOptimization)
    ensures Compile(options, m, bci, r1) == Compile(options, m, bci, r2) == AlreadyInstalled
  {
  }

  /** The method after code for bci has been installed at the given level. */
  function Installed(m: ResolvedMethod, bci: int, level: int): ResolvedMethod
  {
    m.(hasCodeAtLevel := (b, l) => (b == bci && l == level) || m.hasCodeAtLevel(b, l))
  }

  /** A second compile at a bci whose full-optimization code has been installed is a no-op. */
  lemma CompileAfterInstallIsNoOp(options: OptionValues, m: ResolvedMethod, bci: int, runtime: Runtime)
    requires m.isHotSpotMethod
    ensures Compile(options, Installed(m, bci, runtime.compilationLevelFullOptimization), bci, runtime) == AlreadyInstalled
  {
  }

  /** How compileOSR ends: the bci assertion fails, or compile ran at that bci with this outcome. */
  datatype OsrOutcome = BackedgeMissing | Attempted(bci: int, outcome: CompileOutcome)

  /**
   * compileOSR: default the bailout action, locate the first back edge and
   * compile at its target bci with the defaulted options. With assertions
   * enabled a missing back edge stops it before compile; without them
   * compile runs at bci -1.
   */
  method CompileOsr(options: OptionValues, m: ResolvedMethod, runtime: Runtime, assertionsEnabled: bool)
    returns (result: OsrOutcome)
    requires WellFormed(m.blocks)
    ensures result == BackedgeMissing <==> assertionsEnabled && NoBackEdge(m.blocks)
    ensures result.Attempted? ==>
      && result.bci == OsrEntryBci(m.blocks)
      && result.outcome == Compile(EffectiveOptions(options), m, result.bci, runtime)
  {
    var goptions := EffectiveOptions(options);
    var bci := GetBackedgeBci(m.blocks);
    OsrEntryBciSpec(m.blocks);
    if assertionsEnabled && bci == -1 {
      return BackedgeMissing;
    }
    var outcome := Compile(goptions, m, bci, runtime);
    return Attempted(bci, outcome);
  }
}
