/**
 * The data shapes passed between the parser, the matchers and the analyzer.
 * AlgorithmResult.ExecutionTime is timing data and is not part of the model.
 */
module Models {
  /** A block of a data file: its file, its 1-based number in that file, and
      its trimmed non-blank lines. */
  datatype FileBlock = FileBlock(fileName: string, blockNumber: int, organizations: seq<string>)

  /** A block some matcher reported. */
  datatype BlockResult = BlockResult(fileName: string, blockNumber: int, organizations: seq<string>)

  /** One matcher's run over all blocks. */
  datatype AlgorithmResult = AlgorithmResult(
    algorithmName: string, totalBlocks: int, foundBlocksCount: int, foundBlocks: seq<BlockResult>)

  /** The merged record of one block across all matchers. */
  datatype BlockDetectionInfo = BlockDetectionInfo(
    fileName: string, blockNumber: int, organizations: seq<string>, detectedByAlgorithms: seq<string>)
  {
    /** BlockDetectionInfo.DetectionCount. */
    function DetectionCount(): nat
    {
      |detectedByAlgorithms|
    }
  }
}
