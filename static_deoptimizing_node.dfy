/**
 * Guard priorities and the deoptimization-action algebra of a
 * StaticDeoptimizingNode. A guard's priority is derived from whether it
 * carries a speculation and from its deoptimization action; two guard
 * actions combine only when they are equal or form the
 * InvalidateRecompile/InvalidateReprofile pair.
 */
module StaticDeoptimizingNode {
  import Wrappers

  /** The five JVMCI deoptimization actions, in declaration order. */
  datatype DeoptimizationAction =
    | None
    | RecompileIfTooManyDeopts
    | InvalidateReprofile
    | InvalidateRecompile
    | InvalidateStopCompiling

  /**
   * An attached speculation. A guard whose speculation is
   * SpeculationLog.NO_SPECULATION carries Wrappers.None instead.
   */
  datatype SpeculationToken = SpeculationToken(id: nat)

  /** Guard priorities, declared from highest to lowest priority. */
  datatype GuardPriority = Speculation | Profile | None

  /** The declaration index of a priority, which is what Enum.compareTo compares. */
  function Ordinal(p: GuardPriority): nat
  {
    match p
    case Speculation => 0
    case Profile => 1
    case None => 2
  }

  /** Enum.compareTo: negative, zero or positive as a is declared before, at or after b. */
  function CompareTo(a: GuardPriority, b: GuardPriority): int
  {
    Ordinal(a) - Ordinal(b)
  }

  /** a.isHigherPriorityThan(b): Speculation beats Profile and None, Profile beats None. */
  function IsHigherPriorityThan(a: GuardPriority, b: GuardPriority): (r: bool)
    ensures r <==> (a == Speculation && b != Speculation) || (a == Profile && b == GuardPriority.None)
  {
    CompareTo(a, b) < 0
  }

  /** a.isLowerPriorityThan(b) is the converse of isHigherPriorityThan. */
  function IsLowerPriorityThan(a: GuardPriority, b: GuardPriority): (r: bool)
    ensures r <==> IsHigherPriorityThan(b, a)
  {
    CompareTo(a, b) > 0
  }

  /** GuardPriority.highest(): nothing is higher, and it is higher than every other priority. */
  function Highest(): (p: GuardPriority)
    ensures forall q :: !IsHigherPriorityThan(q, p)
    ensures forall q :: q != p ==> IsHigherPriorityThan(p, q)
  {
    Speculation
  }

  /** isHigherPriorityThan is irreflexive. */
  lemma PriorityIrreflexive(a: GuardPriority)
    ensures !IsHigherPriorityThan(a, a)
  {
  }

  /** isHigherPriorityThan is asymmetric. */
  lemma PriorityAsymmetric(a: GuardPriority, b: GuardPriority)
    ensures IsHigherPriorityThan(a, b) ==> !IsHigherPriorityThan(b, a)
  {
  }

  /** isHigherPriorityThan is transitive. */
  lemma PriorityTransitive(a: GuardPriority, b: GuardPriority, c: GuardPriority)
    requires IsHigherPriorityThan(a, b) && IsHigherPriorityThan(b, c)
    ensures IsHigherPriorityThan(a, c)
  {
  }

  /** Of two distinct priorities exactly one is the higher. */
  lemma PriorityTrichotomy(a: GuardPriority, b: GuardPriority)
    requires a != b
    ensures IsHigherPriorityThan(a, b) != IsHigherPriorityThan(b, a)
  {
  }

  /**
   * computePriority: a guard carrying a real speculation has the highest
   * priority whatever its action; otherwise the action decides, and only
   * the two Invalidate-and-profile actions give Profile. The switch covers
   * all five actions, so its shouldNotReachHere is unreachable.
   */
  function ComputePriority(speculation: Wrappers.Option<SpeculationToken>, action: DeoptimizationAction): (p: GuardPriority)
    ensures speculation.Some? ==> p == Highest()
    ensures speculation.None? ==> IsHigherPriorityThan(Highest(), p)
    ensures speculation.None? ==> (p == Profile <==> action in {InvalidateReprofile, InvalidateRecompile})
  {
    if speculation.Some? then
      GuardPriority.Speculation
    else
      match action
      case InvalidateReprofile => Profile
      case InvalidateRecompile => Profile
      case RecompileIfTooManyDeopts => GuardPriority.None
      case InvalidateStopCompiling => GuardPriority.None
      case None => GuardPriority.None
  }

  /**
   * mergeActions: equal actions merge to themselves, the pair
   * {InvalidateRecompile, InvalidateReprofile} merges to InvalidateReprofile,
   * and every other pair is unmergeable (Java null, here Wrappers.None).
   */
  function MergeActions(a1: DeoptimizationAction, a2: DeoptimizationAction): (r: Wrappers.Option<DeoptimizationAction>)
    ensures r.Some? <==> a1 == a2 || {a1, a2} == {InvalidateRecompile, InvalidateReprofile}
    ensures r.Some? ==> r.value == a1 || r.value == a2
    ensures a1 != a2 && r.Some? ==> r.value == InvalidateReprofile
  {
    if a1 == a2 then
      Wrappers.Some(a1)
    else if (a1 == InvalidateRecompile && a2 == InvalidateReprofile)
         || (a1 == InvalidateReprofile && a2 == InvalidateRecompile) then
      Wrappers.Some(InvalidateReprofile)
    else
      Wrappers.None
  }

  /** Merging an action with itself gives that action. */
  lemma MergeReflexive(a: DeoptimizationAction)
    ensures MergeActions(a, a) == Wrappers.Some(a)
  {
  }

  /** The order of the two actions does not matter. */
  lemma MergeCommutative(a1: DeoptimizationAction, a2: DeoptimizationAction)
    ensures MergeActions(a1, a2) == MergeActions(a2, a1)
  {
  }

  /** Merges a possibly-unmergeable result with one more action. */
  function MergeInto(m: Wrappers.Option<DeoptimizationAction>, a: DeoptimizationAction): Wrappers.Option<DeoptimizationAction>
  {
    match m
    case Some(x) => MergeActions(x, a)
    case None => Wrappers.None
  }

  /** Folding three guards' actions into one gives the same result whichever two are merged first. */
  lemma MergeAssociative(a1: DeoptimizationAction, a2: DeoptimizationAction, a3: DeoptimizationAction)
    ensures MergeInto(MergeActions(a1, a2), a3) == MergeInto(MergeActions(a2, a3), a1)
  {
  }

  /**
   * A merge never changes the priority of a guard without a speculation:
   * the merged action has the priority of both merged actions.
   */
  lemma MergePreservesPriority(a1: DeoptimizationAction, a2: DeoptimizationAction)
    requires MergeActions(a1, a2).Some?
    ensures ComputePriority(Wrappers.None, MergeActions(a1, a2).value) == ComputePriority(Wrappers.None, a1)
    ensures ComputePriority(Wrappers.None, a1) == ComputePriority(Wrappers.None, a2)
  {
  }

  /** Two sample merges: the profile pair merges; InvalidateStopCompiling and RecompileIfTooManyDeopts do not. */
  lemma MergeExamples()
    ensures MergeActions(InvalidateRecompile, InvalidateReprofile) == Wrappers.Some(InvalidateReprofile)
    ensures MergeActions(InvalidateStopCompiling, RecompileIfTooManyDeopts) == Wrappers.None
  {
  }
}
