/**
 * IAlgorithm: the three matchers behind one interface. Each variant holds
 * one matcher object; CheckBlock and CheckLine dispatch to it.
 */
module Algorithms {
  import opened Phrases
  import opened AhoCorasick
  import opened InvertedIndex
  import opened SimdSearch

  datatype Algorithm =
    | AhoCorasickMatcher(ac: AhoCorasickAlgorithm)
    | InvertedIndexMatcher(index: InvertedIndexAlgorithm)
    | SimdMatcher(simd: SimdSearchAlgorithm)
  {
    /** The matcher object behind the interface. */
    function Object(): object
    {
      match this
      case AhoCorasickMatcher(a) => a
      case InvertedIndexMatcher(a) => a
      case SimdMatcher(a) => a
    }

    /** IAlgorithm.Name. */
    function Name(): string
    {
      match this
      case AhoCorasickMatcher(a) => a.Name()
      case InvertedIndexMatcher(a) => a.Name()
      case SimdMatcher(a) => a.Name()
    }

    /** The matcher's invariant; the SIMD matcher's also covers its byte arrays. */
    ghost predicate Valid()
      reads Object(), if SimdMatcher? then simd.normalizedBannedBytes else []
    {
      match this
      case AhoCorasickMatcher(a) => a.Valid()
      case InvertedIndexMatcher(a) => a.Valid()
      case SimdMatcher(a) => a.Valid()
    }

    /** Whether the matcher has fixed its denylist. */
    ghost function IsInitialized(): bool
      reads Object()
    {
      match this
      case AhoCorasickMatcher(a) => a.isInitialized
      case InvertedIndexMatcher(a) => a.isInitialized
      case SimdMatcher(a) => a.isInitialized
    }

    /** The denylist the matcher was initialised with. */
    ghost function Denylist(): seq<string>
      reads Object()
    {
      match this
      case AhoCorasickMatcher(a) => a.denylist
      case InvertedIndexMatcher(a) => a.denylist
      case SimdMatcher(a) => a.denylist
    }
  }

  /** IAlgorithm.CheckBlock: whichever matcher answers, the answer is the
      block verdict under the denylist the matcher was first given. */
  method CheckBlock(algorithm: Algorithm, block: seq<string>, bannedOrganizations: seq<string>)
    returns (found: bool)
    requires algorithm.Valid()
    modifies algorithm.Object()
    ensures algorithm.Valid() && algorithm.IsInitialized()
    ensures algorithm.Denylist() ==
      if old(algorithm.IsInitialized()) then old(algorithm.Denylist()) else bannedOrganizations
    ensures found == BlockVerdict(algorithm.Denylist(), block)
  {
    match algorithm
    case AhoCorasickMatcher(a) =>
      found := a.CheckBlock(block, bannedOrganizations);
    case InvertedIndexMatcher(a) =>
      found := a.CheckBlock(block, bannedOrganizations);
    case SimdMatcher(a) =>
      found := a.CheckBlock(block, bannedOrganizations);
  }

  /** IAlgorithm.CheckLine. */
  method CheckLine(algorithm: Algorithm, line: string, bannedOrganizations: seq<string>)
    returns (found: bool)
    requires algorithm.Valid()
    modifies algorithm.Object()
    ensures algorithm.Valid() && algorithm.IsInitialized()
    ensures algorithm.Denylist() ==
      if old(algorithm.IsInitialized()) then old(algorithm.Denylist()) else bannedOrganizations
    ensures found == LineVerdict(algorithm.Denylist(), line)
  {
    match algorithm
    case AhoCorasickMatcher(a) =>
      found := a.CheckLine(line, bannedOrganizations);
    case InvertedIndexMatcher(a) =>
      found := a.CheckLine(line, bannedOrganizations);
    case SimdMatcher(a) =>
      found := a.CheckLine(line, bannedOrganizations);
  }
}
