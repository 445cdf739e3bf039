# organization-checker, modelled in Dafny

organization-checker reads a denylist of organisation names and data files of
organisation lines. It splits each file into blocks at blank lines and runs
three interchangeable matchers over every block:

- an Aho-Corasick automaton;
- an inverted word index;
- a byte scanner with 16- and 32-byte lane comparison.

It then merges the blocks each matcher found into one table keyed by file
and block number.

This project models that core and proves what it promises.

- **Normalisation and the whole-word rule** (`StringNormalizer`, with the
  character classes in `Chars`).
  - A line or phrase is lower-cased and trimmed, and every white-space run
    becomes one space.
  - A phrase matches a text when some occurrence of it is flanked by
    non-letter/digit characters or by the ends of the text. The search loop
    visits every occurrence, overlapping ones included.
- **The matcher contract** (`Phrases`), stated once.
  - The denylist entries are normalised and blank ones dropped
    (`NormalizeAll`).
  - A line verdict means some such phrase is a whole-word match in the
    normalised line (`LineVerdict`).
  - A block verdict means some line matches (`BlockVerdict`).
- **The three matchers.** Each is a Dafny class with the source's fields and
  its one-shot lazy initialisation. Each `CheckLine`/`CheckBlock` is proved
  to return exactly the line or block verdict under the denylist the object
  was first given.
  - **Aho-Corasick** (`AhoCorasick`, `AhoCorasickTrie`, `Suffixes`):
    - the trie is an arena of nodes addressed by index;
    - failure links are built breadth-first and proved to point at the
      longest proper suffix that is a trie path;
    - each node's output is proved to be exactly the phrases ending its path;
    - the scan is proved to return exactly the phrases occurring in the text.
  - **Inverted index** (`InvertedIndex`):
    - the index files each phrase under each of its cleaned words, and
      nothing else;
    - the candidates are exactly the stored phrases sharing a cleaned word
      with the line;
    - the index phase can only confirm what the direct scan already decided.
  - **Byte scanner** (`SimdSearch`, `Utf8`):
    - UTF-8 encoding is written out and proved invertible and homomorphic;
    - the lane loops are proved equal to the naive byte search whatever the
      hardware flags are;
    - the whole-word test after a byte hit makes the verdict the line
      verdict.
- **Block glue.**
  - `FileParser`: blank-line block splitting, and numbering blocks per
    file.
  - `BlockAnalyzer`: filtering blocks by a matcher, merging the detections
    into a table, and finding the first denylist entry a text matches.
- **The interface and the comparison.**
  - `Algorithms`: the `IAlgorithm` interface as a datatype over the three
    classes.
  - `Comparison`: three fresh matchers give the same verdict on every line
    and report the same blocks.

The inverted index's phrase list keeps duplicate phrases: only its
companion set removes them. The list is `NormalizeAll(denylist)`.

## Model

| member | source | states |
|---|---|---|
| StringNormalizer.NormalizeEmpty | Utils/StringNormalizer.cs:17-18 | the normal form is "" exactly when the input is empty or all white space |
| StringNormalizer.NormalizeIsNormalized | Utils/StringNormalizer.cs:20 | the normal form is lower case, has no white space at either end, and its only white space is single spaces between other characters |
| StringNormalizer.NormalizeIdempotent | Utils/StringNormalizer.cs:15-21 | normalising a normal form changes nothing |
| StringNormalizer.NormalizeBlank | Utils/StringNormalizer.cs:15-21 | the normal form is blank exactly when the input is blank |
| StringNormalizer.CollapseKeepsWords | Utils/StringNormalizer.cs:20 | the white-space regex replacement keeps every other character, in order and with its multiplicity |
| StringNormalizer.TrimKeepsWords | Utils/StringNormalizer.cs:20 | Trim keeps every character that is not white space, in order and with its multiplicity |
| StringNormalizer.NormalizeKeepsWords | Utils/StringNormalizer.cs:15-21 | dropping white space from the normal form gives exactly the lower-cased input without its white space: no other character is lost, added or moved |
| StringNormalizer.CollapseIsCollapsed | Utils/StringNormalizer.cs:20 | after the white-space regex replacement every white-space character is a space and no two are adjacent; every other character comes from the input |
| StringNormalizer.TrimShape | Utils/StringNormalizer.cs:20 | trimming a non-blank string leaves a non-empty string whose ends are not white space, made only of the input's characters |
| StringNormalizer.IsExactMatch | Utils/StringNormalizer.cs:26-54 | false when text or pattern is empty; otherwise true iff some occurrence of the lower-cased pattern in the lower-cased text has a boundary character or the string edge on both sides |
| StringNormalizer.FindWord | Utils/StringNormalizer.cs:35-51 | the restart-at-index+1 loop terminates and returns true iff some occurrence, overlapping ones included, is a whole word, so a later valid occurrence is found after an embedded one |
| StringNormalizer.IndexOf | Utils/StringNormalizer.cs:50 | the ordinal search returns the first occurrence at or after the start index, or -1 when there is none |
| StringNormalizer.ExactMatchNormalized | Utils/StringNormalizer.cs:31-32 | on normalised strings lower-casing is the identity, so an exact match is a plain whole-word occurrence |
| StringNormalizer.ExactMatchOccurs | Utils/StringNormalizer.cs:35 | an exact match on normalised strings is in particular a substring occurrence |
| Chars.ToLowerKeepsWhiteSpace | Utils/StringNormalizer.cs:20 | lower-casing neither creates nor removes white space |
| Chars.ToLowerIdempotent | Utils/StringNormalizer.cs:20 | lower-casing is idempotent |
| Chars.ToLowerCyrillicExtended | Utils/StringNormalizer.cs:20 | Cyrillic capitals beyond the Russian alphabet lower-case too: GHE WITH UPTURN, KA WITH DESCENDER, and PALOCHKA to its small form |
| Phrases.NormalizeAllShape | Algorithms/AhoCorasickAlgorithm.cs:39-41 | the normalised denylist holds exactly the normal forms of the non-blank entries, each non-empty and normalised |
| Phrases.OrderByLengthPermutes | Algorithms/AhoCorasickAlgorithm.cs:42 | the length sort is a permutation of its input |
| Phrases.OrderByLengthSorted | Algorithms/AhoCorasickAlgorithm.cs:42 | the length sort puts longer phrases first |
| Phrases.InsertByLengthSorted | Algorithms/AhoCorasickAlgorithm.cs:42 | inserting into a longest-first list keeps it longest-first |
| Phrases.DistinctShape | Algorithms/AhoCorasickAlgorithm.cs:43 | Distinct keeps every element, exactly once, and adds nothing |
| Phrases.DistinctKeepsOrder | Algorithms/AhoCorasickAlgorithm.cs:42-43 | Distinct after the sort keeps the list longest-first |
| Phrases.PreparedPhrasesShape | Algorithms/AhoCorasickAlgorithm.cs:39-44 | the prepared list has the same phrases as the normalised denylist, each non-empty, normalised and once, longest first, and is no longer than the denylist |
| Phrases.BlankLineNeverMatches | Algorithms/AhoCorasickAlgorithm.cs:183-184 | a blank line has a false verdict |
| Phrases.BlankDenylistNeverMatches | Algorithms/InvertedIndexAlgorithm.cs:36-38 | a denylist of blank entries normalises to nothing and matches no line |
| Phrases.BlockVerdictExits | Algorithms/AhoCorasickAlgorithm.cs:166-171 | a matching line makes the block verdict true; a block none of whose lines match has a false verdict |
| Phrases.MatchesWithinAll | Algorithms/SimdSearchAlgorithm.cs:71-84 | what a left-to-right loop over the phrases has decided after n steps is whether one of the first n matches; after the whole list, that is the line's Matches |
| AhoCorasick.AhoCorasickAlgorithm.Initialize | Algorithms/AhoCorasickAlgorithm.cs:34-47 | the first call stores the prepared phrases of its list; a later call, whatever its list, changes nothing |
| AhoCorasick.AhoCorasickAlgorithm.BuildTrie | Algorithms/AhoCorasickAlgorithm.cs:52-76 | the trie is built once and is then a complete automaton for the prepared phrases; a second call changes nothing |
| AhoCorasick.BuildAutomaton | Algorithms/AhoCorasickAlgorithm.cs:56-74 | on a fresh root, every phrase becomes a trie path and every node has its final failure link and output |
| AhoCorasick.InsertPhrase | Algorithms/AhoCorasickAlgorithm.cs:59-71 | walking a phrase from the root, creating missing children, keeps the trie well formed and marks the phrase's node as outputting it |
| AhoCorasickTrie.AddChildShape | Algorithms/AhoCorasickAlgorithm.cs:64-67 | adding a missing child keeps the path/node correspondence, prefix closure and child maps consistent |
| AhoCorasick.BuildFailureLinks | Algorithms/AhoCorasickAlgorithm.cs:81-114 | after the breadth-first pass the root's link is null, every other node links to the node of the longest proper suffix of its path that is a trie path, and every node outputs exactly the phrases that are suffixes of its path; the children are untouched |
| AhoCorasick.LinkRootChildren | Algorithms/AhoCorasickAlgorithm.cs:86-90 | the root's children link to the root and are queued, which sets up the breadth-first invariant |
| AhoCorasick.LinkEachChild | Algorithms/AhoCorasickAlgorithm.cs:96-112 | linking every child of a dequeued node keeps the breadth-first invariant and the queue's depth order |
| AhoCorasick.LinkChild | Algorithms/AhoCorasickAlgorithm.cs:98-111 | one child gets its final link and output (its own phrase plus its link's output) and is queued one level deeper |
| AhoCorasick.FailureTarget | Algorithms/AhoCorasickAlgorithm.cs:98-106 | the failure walk ends at the node of the longest proper suffix of the child's path that is a trie path, or at the root |
| AhoCorasickTrie.DequeueQueue | Algorithms/AhoCorasickAlgorithm.cs:92-94 | taking the head off the queue keeps the rest done, unprocessed, distinct and in depth order within one level of the head |
| Suffixes.Longest | Algorithms/AhoCorasickAlgorithm.cs:100-106 | the state a failure link or a scan denotes: a trie path that is a suffix of the string, with no longer such suffix |
| AhoCorasick.NextState | Algorithms/AhoCorasickAlgorithm.cs:136-144 | from the longest trie-path suffix of the text read so far, the transition on ch reaches the longest trie-path suffix of the text plus ch |
| AhoCorasick.ScanAdvance | Algorithms/AhoCorasickAlgorithm.cs:146-153 | when the new state is the longest trie-path suffix and its output is the phrases that are its suffixes, that output adds exactly the phrases ending at the character just read |
| Suffixes.ScanStep | Algorithms/AhoCorasickAlgorithm.cs:131-153 | the phrases ending within the first i+1 characters are those ending within the first i plus those that are suffixes of the new state |
| AhoCorasick.Scan | Algorithms/AhoCorasickAlgorithm.cs:128-154 | the loop keeps the state at the longest trie-path suffix of the text read and returns every phrase ending somewhere in the text |
| Suffixes.EndingWithinAll | Algorithms/AhoCorasickAlgorithm.cs:121-157 | the phrases ending somewhere in the text are exactly the phrases occurring in it |
| AhoCorasick.AhoCorasickAlgorithm.Search | Algorithms/AhoCorasickAlgorithm.cs:121-157 | builds the trie if needed and returns exactly the prepared phrases that occur in the text, so it is sound and complete |
| AhoCorasick.AnyExactMatch | Algorithms/AhoCorasickAlgorithm.cs:190-196 | true iff some found phrase is a whole-word match |
| AhoCorasick.FoundCandidates | Algorithms/AhoCorasickAlgorithm.cs:187-196 | the phrases Search finds are normalised denylist phrases, and the line verdict holds iff one of them is a whole-word match |
| AhoCorasick.AhoCorasickAlgorithm.CheckLine | Algorithms/AhoCorasickAlgorithm.cs:177-197 | false on a blank line; in general, the line verdict under the denylist of the first call |
| AhoCorasick.AhoCorasickAlgorithm.CheckBlock | Algorithms/AhoCorasickAlgorithm.cs:162-172 | true iff some line of the block has a true line verdict |
| InvertedIndex.CleanWordShape | Algorithms/InvertedIndexAlgorithm.cs:67-72 | the cleaned word is a slice of the word with only listed punctuation removed, only at the ends (hyphens stay), and neither end is punctuation |
| InvertedIndex.CleanWordIdempotent | Algorithms/InvertedIndexAlgorithm.cs:67-72 | cleaning a cleaned word changes nothing |
| InvertedIndex.SplitWordsShape | Algorithms/InvertedIndexAlgorithm.cs:44 | splitting on spaces without empty entries gives non-empty words without spaces, made of the string's characters |
| InvertedIndex.AddKeywords | Algorithms/InvertedIndexAlgorithm.cs:46-58 | filing a phrase under each non-empty cleaned word of its distinct words extends the index invariant to the phrase |
| InvertedIndex.AddPhrase | Algorithms/InvertedIndexAlgorithm.cs:36-58 | a non-blank normal form is added to the list, the set and the index; a blank one changes nothing |
| InvertedIndex.BuildIndex | Algorithms/InvertedIndexAlgorithm.cs:30-59 | the list is the normalised non-blank denylist (duplicates kept), the set is its elements, and the index files exactly each stored phrase under each of its keywords, with no empty bucket |
| InvertedIndex.InvertedIndexAlgorithm.Initialize | Algorithms/InvertedIndexAlgorithm.cs:26-62 | the first call builds the index for its list; a later call changes nothing |
| InvertedIndex.LineWordsShape | Algorithms/InvertedIndexAlgorithm.cs:110-114 | the words looked up are exactly the line's non-empty cleaned words, each once |
| InvertedIndex.CollectCandidates | Algorithms/InvertedIndexAlgorithm.cs:120-133 | the candidates are the phrases filed under some looked-up word and no longer than the line |
| InvertedIndex.CandidatesExact | Algorithms/InvertedIndexAlgorithm.cs:120-133 | a phrase is a candidate iff it is stored, no longer than the line, and shares a keyword with it |
| InvertedIndex.ContainedExactMatch | Algorithms/InvertedIndexAlgorithm.cs:100-102 | on normalised strings the Contains pre-test never changes the exact-match answer |
| InvertedIndex.DirectScan | Algorithms/InvertedIndexAlgorithm.cs:98-107 | true iff some stored phrase is a whole-word match |
| InvertedIndex.AnyCandidateMatches | Algorithms/InvertedIndexAlgorithm.cs:139-148 | true iff some candidate is a whole-word match, whatever order the set yields |
| InvertedIndex.IndexScan | Algorithms/InvertedIndexAlgorithm.cs:110-150 | true iff some candidate is a whole-word match, which implies a stored phrase matches: the index phase cannot add a verdict the direct scan missed |
| InvertedIndex.InvertedIndexAlgorithm.CheckLine | Algorithms/InvertedIndexAlgorithm.cs:89-151 | false on a blank line; in general, the line verdict under the denylist of the first call; a later call leaves the index alone |
| InvertedIndex.InvertedIndexAlgorithm.CheckBlock | Algorithms/InvertedIndexAlgorithm.cs:74-84 | true iff some line of the block has a true line verdict |
| Utf8.EncodeAppend | Algorithms/SimdSearchAlgorithm.cs:68 | encoding a concatenation gives the concatenation of the encodings |
| Utf8.DecodeEncode | Algorithms/SimdSearchAlgorithm.cs:39 | decoding the encoding of a string gives back its scalar values |
| SimdSearch.OccursEncoded | Algorithms/SimdSearchAlgorithm.cs:77-78 | a character occurrence is a byte occurrence of the encodings, so the byte pre-test never rejects a real match |
| SimdSearch.NoBytesNoMatch | Algorithms/SimdSearchAlgorithm.cs:77-78 | when a normalised phrase's bytes do not occur in the normalised line's bytes, the phrase is no whole-word match |
| SimdSearch.EncodeAll | Algorithms/SimdSearchAlgorithm.cs:38-40 | the byte list has one array per phrase, holding that phrase's UTF-8 bytes |
| SimdSearch.ToBytes | Algorithms/SimdSearchAlgorithm.cs:68 | a new array holding the UTF-8 bytes of the string |
| SimdSearch.SimdSearchAlgorithm.Initialize | Algorithms/SimdSearchAlgorithm.cs:27-43 | the first call stores the distinct normalised phrases and, entry by entry, their UTF-8 bytes; a later call changes nothing |
| SimdSearch.ContainsBytesSimple | Algorithms/SimdSearchAlgorithm.cs:212-230 | false for an empty pattern, otherwise true iff the pattern's bytes occur in the text at some offset |
| SimdSearch.CheckRemainingBytes | Algorithms/SimdSearchAlgorithm.cs:199-207 | true iff the length bytes at the two offsets are equal |
| SimdSearch.CompareEqualAll | Algorithms/SimdSearchAlgorithm.cs:144 | every lane of CompareEqual is set iff the two vectors are equal |
| SimdSearch.MoveMaskAllLanes | Algorithms/SimdSearchAlgorithm.cs:147 | MoveMask is -1 for 32 lanes or 0xFFFF for 16 lanes iff every lane is set |
| SimdSearch.BytesAtSplit | Algorithms/SimdSearchAlgorithm.cs:146-158 | the pattern occurs at i iff its first lane-width bytes and its remaining bytes both match there |
| SimdSearch.ContainsBytesLanes | Algorithms/SimdSearchAlgorithm.cs:136-194 | the lane loop (vector compare, then tail check), with every read in bounds, answers exactly the byte search |
| SimdSearch.ContainsBytesAvx2Exact | Algorithms/SimdSearchAlgorithm.cs:136-163 | the 32-byte lane search answers exactly the byte search |
| SimdSearch.ContainsBytesSse2Exact | Algorithms/SimdSearchAlgorithm.cs:168-194 | the 16-byte lane search answers exactly the byte search |
| SimdSearch.SimdSearchAlgorithm.ContainsBytesSimdExact | Algorithms/SimdSearchAlgorithm.cs:108-131 | whatever the hardware flags, the answer equals ContainsBytesSimple's |
| SimdSearch.SimdSearchAlgorithm.ContainsBytesSimd | Algorithms/SimdSearchAlgorithm.cs:90-103 | false for an empty pattern or a text shorter than it; in general, the byte search's answer on every path |
| SimdSearch.SimdSearchAlgorithm.MatchesPhrase | Algorithms/SimdSearchAlgorithm.cs:77-78 | the byte search followed by IsExactMatch answers exactly the whole-word test on the normal forms |
| SimdSearch.SimdSearchAlgorithm.ScanPhrases | Algorithms/SimdSearchAlgorithm.cs:71-84 | true iff some stored phrase is a whole-word match in the line |
| SimdSearch.SimdSearchAlgorithm.CheckLine | Algorithms/SimdSearchAlgorithm.cs:60-85 | false on a blank line; in general, the line verdict under the denylist of the first call |
| SimdSearch.SimdSearchAlgorithm.CheckBlock | Algorithms/SimdSearchAlgorithm.cs:45-55 | true iff some line of the block has a true line verdict |
| Algorithms.CheckBlock | Models/IAlgorithm.cs:15 | whichever matcher is behind the interface, the block verdict under its first denylist |
| Algorithms.CheckLine | Models/IAlgorithm.cs:20 | whichever matcher is behind the interface, the line verdict under its first denylist |
| BlockAnalyzer.ProcessBlocksWithAlgorithm | Services/BlockAnalyzer.cs:11-32 | the found blocks are the blocks with a true block verdict, in input order, under the denylist the matcher keeps; afterwards the matcher is initialised iff it was before or some block was checked, and its denylist is the old one unless a fresh matcher checked a block, when it is the given list |
| BlockAnalyzer.FoundShape | Services/BlockAnalyzer.cs:18-29 | a result is reported iff it is a field-for-field copy of an input block with a true verdict; there are never more results than blocks |
| BlockAnalyzer.FoundAppend | Services/BlockAnalyzer.cs:18-29 | filtering distributes over concatenation, so results keep the input order |
| BlockAnalyzer.RecordBlocks | Services/BlockAnalyzer.cs:40-57 | one matcher's found blocks are recorded in turn |
| BlockAnalyzer.CollectDetectionInfo | Services/BlockAnalyzer.cs:34-62 | the table is every detection recorded in the order of the two loops |
| BlockAnalyzer.CollectDetectionInfoShape | Services/BlockAnalyzer.cs:39-57 | the keys are exactly the found (file, block) pairs; each entry is built from the first sighting of its key, with organisations deduplicated and never replaced; its matcher names have no repeats and are exactly the matchers that found it |
| BlockAnalyzer.DetectionCountIsFinders | Services/BlockAnalyzer.cs:53-57 | DetectionCount is the number of distinct matchers that found the block, so never more than the number of distinct matcher names |
| BlockAnalyzer.FindBannedOrganizationInText | Services/BlockAnalyzer.cs:64-79 | returns the first raw entry, in list order, whose normal form exact-matches the normalised text, or None when there is none; never a blank entry; something is returned iff the line verdict holds |
| BlockAnalyzer.MatchIsVerdict | Services/BlockAnalyzer.cs:70-74 | a matching entry is not blank and makes the line verdict true |
| BlockAnalyzer.NoMatchNoVerdict | Services/BlockAnalyzer.cs:67-78 | when no entry matches, the line verdict is false |
| FileParser.ParseFileBlocks | Services/FileParser.cs:66-98 | the loop computes the reference split of the lines into blocks |
| FileParser.BlocksWellFormed | Services/FileParser.cs:75-95 | no block is empty, and every line in a block is trimmed and non-blank |
| FileParser.BlocksFlatten | Services/FileParser.cs:73-95 | the blocks laid end to end are the trimmed non-blank input lines in order |
| FileParser.BlocksCount | Services/FileParser.cs:75-95 | there is one block per maximal run of non-blank lines |
| FileParser.LoadAllBlocks | Services/FileParser.cs:42-61 | the loop computes every file's numbered blocks, file after file |
| FileParser.AppendNumbered | Services/FileParser.cs:49-57 | one file's blocks are appended, numbered from 1 and tagged with the file name |
| FileParser.AllBlocksNamed | Services/FileParser.cs:53 | every loaded block carries the name of one of the files |
| FileParser.LoadAllBlocksPerFile | Services/FileParser.cs:46-58 | with distinct file names, the blocks of each file are its parsed blocks numbered 1..n in order |
| FileParser.LoadAllBlocksFileOrder | Services/FileParser.cs:46-58 | of two loaded blocks from different files, the earlier one comes from the earlier file |
| Comparison.CheckLineWithAll | Models/IAlgorithm.cs:20 | three fresh matchers give the same answer on every line: the line verdict |
| Comparison.ProcessWithAll | Program.cs:47-58 | three fresh matchers, each run over all blocks, report the same blocks in the same order |

## Left out

- Console output, timing (`Stopwatch`, `AlgorithmResult.ExecutionTime`), `Console.ReadKey` and the table printing of `ResultPrinter` are not modelled. `Program.Main` is represented only by `Comparison`.
- File-system access is not modelled: `FindDataDirectory`, `File.Exists`, and `File.ReadAllLines`. Each file arrives as its sequence of lines, and a missing file's exception is not modelled.
- `char.IsLetterOrDigit` and `char.ToLowerInvariant` are concrete functions over ASCII, Latin-1 and the Cyrillic block U+0400..U+04FF, with every capital/small pair of that block. They are not the full Unicode tables: letters of other scripts count as boundary characters and keep their case. `char.IsWhiteSpace` lists .NET's white-space code points.
- `string.IndexOf(string)` is modelled as ordinal search. .NET's default is culture-sensitive.
- Strings are sequences of Unicode scalar values. UTF-16 surrogate pairs and lone surrogates are not modelled, so neither is their UTF-8 replacement encoding.
- `HashSet` and `Dictionary` iteration order is not modelled. Sets are iterated by arbitrary choice, and dictionaries are maps. No verdict depends on the order.
- `Avx2.IsSupported` and `Sse2.IsSupported` are constructor arguments. Vector loads, `CompareEqual` and `MoveMask` are modelled lane by lane over byte sequences. Pointers become array offsets.
- `BlockDetectionInfo` is modified in place in the source. The model replaces the map entry with an updated value instead. This is equivalent because each entry is reachable only through its key.
- `Models.BlockDetectionInfo.DetectionCount`: its meaning is stated by `BlockAnalyzer.DetectionCountIsFinders` rather than by a contract of its own.
- `Name` properties are constant strings and carry no contract.
