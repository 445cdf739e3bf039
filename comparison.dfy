/**
 * The program runs every matcher over the same blocks and compares them.
 * Whatever their internals, the three matchers answer the same question,
 * so they report the same blocks.
 */
module Comparison {
  import opened Phrases
  import opened Models
  import opened AhoCorasick
  import opened InvertedIndex
  import opened SimdSearch
  import opened Algorithms
  import opened BlockAnalyzer

  /** Three fresh matchers give the same answer for a line: the line verdict. */
  method CheckLineWithAll(line: string, bannedOrganizations: seq<string>, avx2: bool, sse2: bool)
    returns (byAhoCorasick: bool, byIndex: bool, bySimd: bool)
    ensures byAhoCorasick == byIndex == bySimd == LineVerdict(bannedOrganizations, line)
  {
    var ac := new AhoCorasickAlgorithm();
    var index := new InvertedIndexAlgorithm();
    var simd := new SimdSearchAlgorithm(avx2, sse2);
    byAhoCorasick := ac.CheckLine(line, bannedOrganizations);
    byIndex := index.CheckLine(line, bannedOrganizations);
    bySimd := simd.CheckLine(line, bannedOrganizations);
  }

  /** Three fresh matchers, each run over all blocks, report the same blocks
      in the same order. */
  method ProcessWithAll(allBlocks: seq<FileBlock>, bannedOrganizations: seq<string>, avx2: bool, sse2: bool)
    returns (byAhoCorasick: seq<BlockResult>, byIndex: seq<BlockResult>, bySimd: seq<BlockResult>)
    ensures byAhoCorasick == byIndex == bySimd == Found(bannedOrganizations, allBlocks)
  {
    var ac := new AhoCorasickAlgorithm();
    var index := new InvertedIndexAlgorithm();
    var simd := new SimdSearchAlgorithm(avx2, sse2);
    byAhoCorasick := ProcessBlocksWithAlgorithm(allBlocks, bannedOrganizations, AhoCorasickMatcher(ac));
    byIndex := ProcessBlocksWithAlgorithm(allBlocks, bannedOrganizations, InvertedIndexMatcher(index));
    bySimd := ProcessBlocksWithAlgorithm(allBlocks, bannedOrganizations, SimdMatcher(simd));
    if |allBlocks| == 0 {
      assert Found(bannedOrganizations, allBlocks) == [];
    }
  }
}
