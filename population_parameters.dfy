/** `PopulationParameters`: the population size, the training budget, the archive size and the number
    of children bred from the best individual. */
module PopulationConfig {
  import opened Wrappers

  datatype ParameterError = ArgumentError(paramName: string)

  /** A C# `int`. */
  type Int32 = x: int | -0x8000_0000 <= x < 0x8000_0000

  /** Two's-complement wrap-around of an `int` result, as unchecked C# arithmetic does it. */
  function Wrap32(x: int): (r: Int32)
    ensures -0x8000_0000 <= x < 0x8000_0000 ==> r == x
    ensures (x - r) % 0x1_0000_0000 == 0
  {
    var m := x % 0x1_0000_0000;
    if m < 0x8000_0000 then m else m - 0x1_0000_0000
  }

  datatype PopulationParameters = PopulationParameters(
    populationSize: Int32, trainIterations: Int32, archiveSize: Int32, bestChildCount: Int32)

  /** The constructor guards, checked in this order. The third guard reports the parameter name
      `populationSize`, as the source's `nameof` does, and adds the two counts in 32-bit arithmetic:
      counts whose sum overflows wrap to a negative sum and pass. */
  function New(populationSize: Int32, trainIterations: Int32, archiveSize: Int32, bestChildCount: Int32)
    : (r: Result<PopulationParameters, ParameterError>)
    ensures r.Success? <==>
              populationSize >= 1 && archiveSize >= 0 && bestChildCount >= 0
              && Wrap32(bestChildCount + archiveSize) <= populationSize
    ensures bestChildCount + archiveSize < 0x8000_0000 ==>
              (r.Success? <==>
                 populationSize >= 1 && archiveSize >= 0 && bestChildCount >= 0
                 && bestChildCount + archiveSize <= populationSize)
    ensures (populationSize >= 1 && archiveSize >= 0 && bestChildCount >= 0
             && bestChildCount + archiveSize >= 0x8000_0000) ==> r.Success?
    ensures populationSize < 1 ==> r == Failure(ArgumentError("populationSize"))
    ensures populationSize >= 1 && archiveSize < 0 ==> r == Failure(ArgumentError("archiveSize"))
    ensures (populationSize >= 1 && archiveSize >= 0
             && (bestChildCount < 0 || Wrap32(bestChildCount + archiveSize) > populationSize))
            ==> r == Failure(ArgumentError("populationSize"))
    ensures r.Success? ==> r.value == PopulationParameters(populationSize, trainIterations, archiveSize, bestChildCount)
  {
    if populationSize < 1 then Failure(ArgumentError("populationSize"))
    else if archiveSize < 0 then Failure(ArgumentError("archiveSize"))
    else if bestChildCount < 0 || Wrap32(bestChildCount + archiveSize) > populationSize then Failure(ArgumentError("populationSize"))
    else Success(PopulationParameters(populationSize, trainIterations, archiveSize, bestChildCount))
  }

  /** The number of children bred from two random individuals in one generation, computed in 32-bit
      arithmetic as `XorModel.Search` computes it. */
  function RandomChildCount(p: PopulationParameters): Int32 {
    Wrap32(p.populationSize - Wrap32(p.bestChildCount + p.archiveSize))
  }

  /** The size of the next generation when the current one has `count` individuals: the best children,
      the random children and the archive, which `Take` cuts to at most `count`. */
  function NextGenerationSize(p: PopulationParameters, count: nat): int {
    p.bestChildCount + RandomChildCount(p) + (if p.archiveSize <= count then p.archiveSize else count)
  }

  /** For accepted parameters whose two counts add up without overflow, the random-child count is never
      negative (so `Enumerable.Range` accepts it) and a generation of `populationSize` individuals is
      followed by one of the same size. */
  lemma GenerationSizeIsStable(populationSize: Int32, trainIterations: Int32, archiveSize: Int32, bestChildCount: Int32)
    requires New(populationSize, trainIterations, archiveSize, bestChildCount).Success?
    requires bestChildCount + archiveSize < 0x8000_0000
    ensures var p := New(populationSize, trainIterations, archiveSize, bestChildCount).value;
      RandomChildCount(p) >= 0 && NextGenerationSize(p, populationSize) == populationSize
  {
  }

  /** The guards accept a best-child count and an archive size whose sum overflows: the wrapped sum is
      negative. With two individuals, an archive of `int.MaxValue` and one best child, the best-child
      positions are in range, and then the random-child count is negative, which `Enumerable.Range`
      rejects. */
  lemma AcceptedOverflowingCounts()
    ensures New(2, 0, 0x7FFF_FFFF, 1).Success?
    ensures BestChildIndicesInRange(New(2, 0, 0x7FFF_FFFF, 1).value)
    ensures RandomChildCount(New(2, 0, 0x7FFF_FFFF, 1).value) < 0
  {
    assert BestChildPositions(New(2, 0, 0x7FFF_FFFF, 1).value) == [1];
  }

  /** The best children cross the best individual with the individuals at positions `1..bestChildCount`
      of a generation of `populationSize` individuals; each of those positions must exist. */
  function BestChildPositions(p: PopulationParameters): seq<int> {
    if p.bestChildCount <= 0 then [] else seq(p.bestChildCount, k => k + 1)
  }

  predicate BestChildIndicesInRange(p: PopulationParameters) {
    forall k :: 0 <= k < |BestChildPositions(p)| ==> BestChildPositions(p)[k] < p.populationSize
  }

  /** The guards accept a single individual with one best child and no archive, and then position 1 of a
      one-individual generation is read. */
  lemma AcceptedBestChildIndexOutOfRange()
    ensures New(1, 0, 0, 1).Success? && !BestChildIndicesInRange(New(1, 0, 0, 1).value)
  {
    var p := New(1, 0, 0, 1).value;
    assert BestChildPositions(p)[0] == 1 == p.populationSize;
  }

  /** The guards with the missing bounds: the two counts are compared without overflow (as
      `bestChildCount > populationSize - archiveSize`, which cannot overflow once the first two guards
      pass), and the best children must come from the other individuals. */
  function NewChecked(populationSize: Int32, trainIterations: Int32, archiveSize: Int32, bestChildCount: Int32)
    : (r: Result<PopulationParameters, ParameterError>)
    ensures r.Success? ==> r == New(populationSize, trainIterations, archiveSize, bestChildCount)
    ensures r.Success? <==>
              New(populationSize, trainIterations, archiveSize, bestChildCount).Success?
              && bestChildCount + archiveSize <= populationSize && bestChildCount < populationSize
  {
    if populationSize >= 1 && archiveSize >= 0 && bestChildCount > populationSize - archiveSize
    then Failure(ArgumentError("populationSize"))
    else if bestChildCount >= populationSize && populationSize >= 1 && archiveSize >= 0
    then Failure(ArgumentError("bestChildCount"))
    else New(populationSize, trainIterations, archiveSize, bestChildCount)
  }

  /** Parameters the corrected guards accept keep every best-child position inside the generation, give
      a random-child count that is not negative, and keep the generation size stable. */
  lemma CheckedParametersAreSafe(populationSize: Int32, trainIterations: Int32, archiveSize: Int32, bestChildCount: Int32)
    requires NewChecked(populationSize, trainIterations, archiveSize, bestChildCount).Success?
    ensures var p := NewChecked(populationSize, trainIterations, archiveSize, bestChildCount).value;
      && BestChildIndicesInRange(p) && RandomChildCount(p) >= 0
      && NextGenerationSize(p, populationSize) == populationSize
  {
    GenerationSizeIsStable(populationSize, trainIterations, archiveSize, bestChildCount);
  }
}
