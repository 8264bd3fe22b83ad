/** `NetworkParameters`: the input and output counts, and the single bias node. */
module NetworkConfig {
  import opened Wrappers

  /** There is exactly one bias node; it has index 0. */
  const BiasNodeCount: int := 1
  /** The constant post-activation of the bias node. */
  const BiasNodeValue: real := 1.0

  datatype ParameterError = ArgumentOutOfRange(paramName: string)

  datatype NetworkParameters = NetworkParameters(inputNodeCount: int, outputNodeCount: int) {
    /** What every constructed value satisfies. */
    ghost predicate Valid() {
      inputNodeCount > 0 && outputNodeCount > 0
    }

    /** Index of the first input node: the inputs are `1..N`. */
    function FirstInputIdx(): int { BiasNodeCount }
    /** Index of the first output node: the outputs are `N+1..N+M`. */
    function FirstOutputIdx(): int { BiasNodeCount + inputNodeCount }
    /** One past the last output index. */
    function NodeCount(): int { BiasNodeCount + inputNodeCount + outputNodeCount }
  }

  /** The constructor: the input count is checked first, then the output count; accepted counts are kept. */
  function New(inputNodeCount: int, outputNodeCount: int): (r: Result<NetworkParameters, ParameterError>)
    ensures r.Success? <==> inputNodeCount > 0 && outputNodeCount > 0
    ensures inputNodeCount <= 0 ==> r == Failure(ArgumentOutOfRange("inputNodeCount"))
    ensures inputNodeCount > 0 && outputNodeCount <= 0 ==> r == Failure(ArgumentOutOfRange("outputNodeCount"))
    ensures r.Success? ==>
              r.value.Valid() && r.value.inputNodeCount == inputNodeCount && r.value.outputNodeCount == outputNodeCount
  {
    if inputNodeCount <= 0 then Failure(ArgumentOutOfRange("inputNodeCount"))
    else if outputNodeCount <= 0 then Failure(ArgumentOutOfRange("outputNodeCount"))
    else Success(NetworkParameters(inputNodeCount, outputNodeCount))
  }
}
