/**
 * BlockAnalyzer: runs one matcher over every block, merges the blocks the
 * matchers found into one table keyed by file and block number, and looks
 * up which denylist entry a text matches.
 */
module BlockAnalyzer {
  import opened StringNormalizer
  import opened Phrases
  import opened Models
  import opened Wrappers
  import opened Algorithms

  /* ---- ProcessBlocksWithAlgorithm ---- */

  /** A found block: the block's fields, copied. */
  function ToResult(b: FileBlock): (r: BlockResult)
    ensures r.fileName == b.fileName && r.blockNumber == b.blockNumber && r.organizations == b.organizations
  {
    BlockResult(b.fileName, b.blockNumber, b.organizations)
  }

  /** The blocks some line of which matches the denylist, in input order. */
  ghost function Found(denylist: seq<string>, blocks: seq<FileBlock>): seq<BlockResult>
  {
    if |blocks| == 0 then []
    else
      var n := |blocks| - 1;
      Found(denylist, blocks[..n])
        + (if BlockVerdict(denylist, blocks[n].organizations) then [ToResult(blocks[n])] else [])
  }

  /** BlockAnalyzer.ProcessBlocksWithAlgorithm. The matcher takes the
      denylist on its first call and keeps it; the blocks reported are
      exactly those that match that denylist. */
  method ProcessBlocksWithAlgorithm(allBlocks: seq<FileBlock>, bannedOrganizations: seq<string>, algorithm: Algorithm)
    returns (foundBlocks: seq<BlockResult>)
    requires algorithm.Valid()
    modifies algorithm.Object()
    ensures algorithm.Valid()
    ensures algorithm.IsInitialized() == (old(algorithm.IsInitialized()) || |allBlocks| > 0)
    ensures algorithm.Denylist() ==
      if old(algorithm.IsInitialized()) || |allBlocks| == 0 then old(algorithm.Denylist()) else bannedOrganizations
    ensures foundBlocks == Found(algorithm.Denylist(), allBlocks)
  {
    ghost var d := if algorithm.IsInitialized() then algorithm.Denylist() else bannedOrganizations;
    ghost var wasInitialized := algorithm.IsInitialized();
    foundBlocks := [];
    for i := 0 to |allBlocks|
      invariant algorithm.Valid()
      invariant algorithm.IsInitialized() == (wasInitialized || i > 0)
      invariant algorithm.Denylist() == if i == 0 then old(algorithm.Denylist()) else d
      invariant foundBlocks == Found(d, allBlocks[..i])
    {
      assert allBlocks[..i + 1][..i] == allBlocks[..i];
      foundBlocks := ProcessBlock(foundBlocks, allBlocks[i], bannedOrganizations, algorithm, d);
    }
    assert allBlocks[..|allBlocks|] == allBlocks;
  }

  /** The body of ProcessBlocksWithAlgorithm's loop: the block is added when
      the matcher finds it. */
  method ProcessBlock(foundBlocks: seq<BlockResult>, block: FileBlock, bannedOrganizations: seq<string>,
                      algorithm: Algorithm, ghost d: seq<string>) returns (r: seq<BlockResult>)
    requires algorithm.Valid()
    requires algorithm.IsInitialized() ==> algorithm.Denylist() == d
    requires !algorithm.IsInitialized() ==> bannedOrganizations == d
    modifies algorithm.Object()
    ensures algorithm.Valid() && algorithm.IsInitialized() && algorithm.Denylist() == d
    ensures r == foundBlocks + if BlockVerdict(d, block.organizations) then [ToResult(block)] else []
  {
    var found := CheckBlock(algorithm, block.organizations, bannedOrganizations);
    r := foundBlocks;
    if found {
      r := r + [ToResult(block)];
    }
  }

  /** Found distributes over concatenation: results keep the input order. */
  lemma {:induction false} FoundAppend(denylist: seq<string>, a: seq<FileBlock>, b: seq<FileBlock>)
    ensures Found(denylist, a + b) == Found(denylist, a) + Found(denylist, b)
  {
    if |b| == 0 {
      assert a + b == a;
    } else {
      var n := |b| - 1;
      assert (a + b)[..|a + b| - 1] == a + b[..n];
      FoundAppend(denylist, a, b[..n]);
    }
  }

  /** A result is reported iff it is the copy of a block that matches. */
  lemma {:induction false} FoundShape(denylist: seq<string>, blocks: seq<FileBlock>)
    ensures forall r :: r in Found(denylist, blocks) <==>
      exists b :: b in blocks && BlockVerdict(denylist, b.organizations) && r == ToResult(b)
    ensures |Found(denylist, blocks)| <= |blocks|
  {
    if |blocks| > 0 {
      var n := |blocks| - 1;
      FoundShape(denylist, blocks[..n]);
      assert forall b :: b in blocks <==> b in blocks[..n] || b == blocks[n];
    }
  }

  /* ---- CollectDetectionInfo ---- */

  /** The dictionary key of a found block. */
  function KeyOf(b: BlockResult): (string, int)
  {
    (b.fileName, b.blockNumber)
  }

  /** A found block tagged with the name of the matcher that found it. */
  type Detection = (string, BlockResult)

  /** One matcher's found blocks, tagged with its name. */
  function Tagged(name: string, blocks: seq<BlockResult>): (r: seq<Detection>)
    ensures |r| == |blocks|
  {
    seq(|blocks|, i requires 0 <= i < |blocks| => (name, blocks[i]))
  }

  /** Every detection, in the order the two loops visit them. */
  function Detections(results: seq<AlgorithmResult>): seq<Detection>
  {
    if |results| == 0 then []
    else
      var n := |results| - 1;
      Detections(results[..n]) + Tagged(results[n].algorithmName, results[n].foundBlocks)
  }

  /** The loop body: create the entry on the first sighting of its key, then
      add the matcher's name unless it is already listed. */
  function Record(table: map<(string, int), BlockDetectionInfo>, d: Detection): map<(string, int), BlockDetectionInfo>
  {
    var (name, block) := d;
    var key := KeyOf(block);
    var info :=
      if key in table then table[key]
      else BlockDetectionInfo(block.fileName, block.blockNumber, Distinct(block.organizations), []);
    var info' :=
      if name in info.detectedByAlgorithms then info
      else info.(detectedByAlgorithms := info.detectedByAlgorithms + [name]);
    table[key := info']
  }

  /** The table after recording each detection in turn. */
  function RecordAll(table: map<(string, int), BlockDetectionInfo>, ds: seq<Detection>): map<(string, int), BlockDetectionInfo>
  {
    if |ds| == 0 then table else Record(RecordAll(table, ds[..|ds| - 1]), ds[|ds| - 1])
  }

  lemma {:induction false} RecordAllAppend(table: map<(string, int), BlockDetectionInfo>, a: seq<Detection>, b: seq<Detection>)
    ensures RecordAll(table, a + b) == RecordAll(RecordAll(table, a), b)
  {
    if |b| == 0 {
      assert a + b == a;
    } else {
      var n := |b| - 1;
      assert (a + b)[..|a + b| - 1] == a + b[..n];
      RecordAllAppend(table, a, b[..n]);
    }
  }

  /** The inner loop of CollectDetectionInfo: one matcher's found blocks. */
  method RecordBlocks(table: map<(string, int), BlockDetectionInfo>, name: string, blocks: seq<BlockResult>)
    returns (r: map<(string, int), BlockDetectionInfo>)
    ensures r == RecordAll(table, Tagged(name, blocks))
  {
    r := table;
    for i := 0 to |blocks|
      invariant r == RecordAll(table, Tagged(name, blocks[..i]))
    {
      ghost var before := r;
      var block := blocks[i];
      var key := KeyOf(block);
      if key !in r {
        r := r[key := BlockDetectionInfo(block.fileName, block.blockNumber, Distinct(block.organizations), [])];
      }
      if name !in r[key].detectedByAlgorithms {
        r := r[key := r[key].(detectedByAlgorithms := r[key].detectedByAlgorithms + [name])];
      }
      assert r == Record(before, (name, block));
      assert Tagged(name, blocks[..i + 1]) == Tagged(name, blocks[..i]) + [(name, block)];
      RecordAllSnoc(table, Tagged(name, blocks[..i]), (name, block));
    }
    assert blocks[..|blocks|] == blocks;
  }

  lemma RecordAllSnoc(table: map<(string, int), BlockDetectionInfo>, ds: seq<Detection>, d: Detection)
    ensures RecordAll(table, ds + [d]) == Record(RecordAll(table, ds), d)
  {
    assert (ds + [d])[..|ds|] == ds;
  }

  /** BlockAnalyzer.CollectDetectionInfo. */
  method CollectDetectionInfo(algorithmResults: seq<AlgorithmResult>)
    returns (allDetectedBlocks: map<(string, int), BlockDetectionInfo>)
    ensures allDetectedBlocks == RecordAll(map[], Detections(algorithmResults))
  {
    allDetectedBlocks := map[];
    for i := 0 to |algorithmResults|
      invariant allDetectedBlocks == RecordAll(map[], Detections(algorithmResults[..i]))
    {
      assert algorithmResults[..i + 1][..i] == algorithmResults[..i];
      var algorithmResult := algorithmResults[i];
      RecordAllAppend(map[], Detections(algorithmResults[..i]),
        Tagged(algorithmResult.algorithmName, algorithmResult.foundBlocks));
      allDetectedBlocks := RecordBlocks(allDetectedBlocks, algorithmResult.algorithmName, algorithmResult.foundBlocks);
    }
    assert algorithmResults[..|algorithmResults|] == algorithmResults;
  }

  /** Some detection has this key. */
  predicate Seen(ds: seq<Detection>, key: (string, int))
  {
    exists i :: 0 <= i < |ds| && KeyOf(ds[i].1) == key
  }

  /** Detection i is the first with this key. */
  predicate FirstWithKey(ds: seq<Detection>, key: (string, int), i: int)
  {
    0 <= i < |ds| && KeyOf(ds[i].1) == key && forall j :: 0 <= j < i ==> KeyOf(ds[j].1) != key
  }

  /** The entry is built from the first detection of its key. */
  ghost predicate FromFirst(ds: seq<Detection>, key: (string, int), info: BlockDetectionInfo)
  {
    exists i :: FirstWithKey(ds, key, i)
      && info.fileName == ds[i].1.fileName && info.blockNumber == ds[i].1.blockNumber
      && info.organizations == Distinct(ds[i].1.organizations)
  }

  /** The matcher named name found the block with this key. */
  predicate FoundBy(ds: seq<Detection>, key: (string, int), name: string)
  {
    exists i :: 0 <= i < |ds| && KeyOf(ds[i].1) == key && ds[i].0 == name
  }

  /** What the table holds after recording ds into an empty table. */
  ghost predicate CollectInvariant(ds: seq<Detection>, table: map<(string, int), BlockDetectionInfo>)
  {
    && (forall key :: key in table <==> Seen(ds, key))
    && (forall key :: key in table ==> FromFirst(ds, key, table[key]))
    && (forall key :: key in table ==> NoDuplicates(table[key].detectedByAlgorithms))
    && (forall key, name :: key in table ==>
          (name in table[key].detectedByAlgorithms <==> FoundBy(ds, key, name)))
  }

  lemma RecordKeys(ds: seq<Detection>, table: map<(string, int), BlockDetectionInfo>, d: Detection)
    requires forall key :: key in table <==> Seen(ds, key)
    ensures forall key :: key in Record(table, d) <==> Seen(ds + [d], key)
  {
    var ds' := ds + [d];
    forall key ensures Seen(ds, key) ==> Seen(ds', key) {
      if Seen(ds, key) {
        var i :| 0 <= i < |ds| && KeyOf(ds[i].1) == key;
        assert ds'[i] == ds[i];
      }
    }
    assert ds'[|ds|] == d;
    forall key | Seen(ds', key) ensures Seen(ds, key) || key == KeyOf(d.1) {
      var i :| 0 <= i < |ds'| && KeyOf(ds'[i].1) == key;
      if i < |ds| {
        assert ds'[i] == ds[i];
      }
    }
  }

  lemma RecordFirst(ds: seq<Detection>, table: map<(string, int), BlockDetectionInfo>, d: Detection)
    requires forall key :: key in table <==> Seen(ds, key)
    requires forall key :: key in table ==> FromFirst(ds, key, table[key])
    ensures forall key :: key in Record(table, d) ==> FromFirst(ds + [d], key, Record(table, d)[key])
  {
    var ds' := ds + [d];
    var t' := Record(table, d);
    forall key | key in t' ensures FromFirst(ds', key, t'[key]) {
      if key in table {
        var i :| FirstWithKey(ds, key, i)
          && table[key].fileName == ds[i].1.fileName && table[key].blockNumber == ds[i].1.blockNumber
          && table[key].organizations == Distinct(ds[i].1.organizations);
        assert ds'[i] == ds[i];
        assert forall j :: 0 <= j < i ==> ds'[j] == ds[j];
        assert FirstWithKey(ds', key, i);
      } else {
        assert key == KeyOf(d.1) && ds'[|ds|] == d;
        forall j | 0 <= j < |ds| ensures KeyOf(ds'[j].1) != key {
          assert ds'[j] == ds[j];
        }
        assert FirstWithKey(ds', key, |ds|);
      }
    }
  }

  lemma RecordNames(ds: seq<Detection>, table: map<(string, int), BlockDetectionInfo>, d: Detection)
    requires forall key :: key in table <==> Seen(ds, key)
    requires forall key :: key in table ==> NoDuplicates(table[key].detectedByAlgorithms)
    requires forall key, name :: key in table ==>
      (name in table[key].detectedByAlgorithms <==> FoundBy(ds, key, name))
    ensures forall key :: key in Record(table, d) ==> NoDuplicates(Record(table, d)[key].detectedByAlgorithms)
    ensures forall key, name :: key in Record(table, d) ==>
      (name in Record(table, d)[key].detectedByAlgorithms <==> FoundBy(ds + [d], key, name))
  {
    var ds' := ds + [d];
    var t' := Record(table, d);
    assert ds'[|ds|] == d;
    forall key, name ensures FoundBy(ds', key, name) <==> FoundBy(ds, key, name) || (key == KeyOf(d.1) && name == d.0) {
      if FoundBy(ds, key, name) {
        var i :| 0 <= i < |ds| && KeyOf(ds[i].1) == key && ds[i].0 == name;
        assert ds'[i] == ds[i];
      }
      if FoundBy(ds', key, name) {
        var i :| 0 <= i < |ds'| && KeyOf(ds'[i].1) == key && ds'[i].0 == name;
        if i < |ds| {
          assert ds'[i] == ds[i];
        }
      }
    }
    forall key | key in t' && key != KeyOf(d.1) ensures t'[key] == table[key] { }
    forall key, name | key !in table ensures !FoundBy(ds, key, name) {
      assert !Seen(ds, key);
    }
  }

  lemma {:induction false} RecordAllInvariant(ds: seq<Detection>)
    ensures CollectInvariant(ds, RecordAll(map[], ds))
  {
    if |ds| > 0 {
      var n := |ds| - 1;
      RecordAllInvariant(ds[..n]);
      var t := RecordAll(map[], ds[..n]);
      RecordKeys(ds[..n], t, ds[n]);
      RecordFirst(ds[..n], t, ds[n]);
      RecordNames(ds[..n], t, ds[n]);
      assert ds[..n] + [ds[n]] == ds;
    }
  }

  /** The table has an entry for exactly the blocks some matcher found;
      each entry's block and organizations come from the first sighting of
      its key (organizations without repeats); the entry lists each matcher
      that found the block once, and no other. */
  lemma CollectDetectionInfoShape(algorithmResults: seq<AlgorithmResult>)
    ensures CollectInvariant(Detections(algorithmResults), RecordAll(map[], Detections(algorithmResults)))
  {
    RecordAllInvariant(Detections(algorithmResults));
  }

  /** The names of the matchers that found the block with this key. */
  ghost function FinderNames(ds: seq<Detection>, key: (string, int)): set<string>
  {
    set i | 0 <= i < |ds| && KeyOf(ds[i].1) == key :: ds[i].0
  }

  lemma {:induction false} NoDuplicatesCard(s: seq<string>)
    requires NoDuplicates(s)
    ensures |Elems(s)| == |s|
  {
    if |s| > 0 {
      var n := |s| - 1;
      NoDuplicatesCard(s[..n]);
      assert Elems(s) == Elems(s[..n]) + {s[n]};
      assert s[n] !in Elems(s[..n]);
    }
  }

  /** DetectionCount is the number of distinct matchers that found the block,
      so it is never more than the number of distinct matcher names. */
  lemma DetectionCountIsFinders(ds: seq<Detection>, key: (string, int))
    requires key in RecordAll(map[], ds)
    ensures RecordAll(map[], ds)[key].DetectionCount() == |FinderNames(ds, key)|
    ensures |FinderNames(ds, key)| <= |set i | 0 <= i < |ds| :: ds[i].0|
  {
    RecordAllInvariant(ds);
    var info := RecordAll(map[], ds)[key];
    NoDuplicatesCard(info.detectedByAlgorithms);
    forall name ensures name in Elems(info.detectedByAlgorithms) <==> name in FinderNames(ds, key) {
      if name in FinderNames(ds, key) {
        var i :| 0 <= i < |ds| && KeyOf(ds[i].1) == key && ds[i].0 == name;
        assert FoundBy(ds, key, name);
      }
    }
    assert Elems(info.detectedByAlgorithms) == FinderNames(ds, key);
    assert FinderNames(ds, key) <= set i | 0 <= i < |ds| :: ds[i].0;
    SubsetCard(FinderNames(ds, key), set i | 0 <= i < |ds| :: ds[i].0);
  }

  lemma SubsetCard(a: set<string>, b: set<string>)
    requires a <= b
    ensures |a| <= |b|
  {
    assert b == a + (b - a);
  }

  /* ---- FindBannedOrganizationInText ---- */

  /** No entry before index i matches the normalised text. */
  predicate NoMatchBefore(text: string, bannedOrganizations: seq<string>, i: int)
    requires 0 <= i <= |bannedOrganizations|
  {
    forall j :: 0 <= j < i ==> !ExactMatch(Normalize(text), Normalize(bannedOrganizations[j]))
  }

  lemma NoMatchBeforeStep(text: string, bannedOrganizations: seq<string>, i: int)
    requires 0 <= i < |bannedOrganizations| && NoMatchBefore(text, bannedOrganizations, i)
    requires !ExactMatch(Normalize(text), Normalize(bannedOrganizations[i]))
    ensures NoMatchBefore(text, bannedOrganizations, i + 1)
  {
  }

  /** Entry i is the first whose normal form exact-matches the normalised text. */
  predicate IsFirstMatch(text: string, bannedOrganizations: seq<string>, i: int)
  {
    && 0 <= i < |bannedOrganizations|
    && ExactMatch(Normalize(text), Normalize(bannedOrganizations[i]))
    && NoMatchBefore(text, bannedOrganizations, i)
  }

  /** BlockAnalyzer.FindBannedOrganizationInText: the first raw entry that
      matches, or None. Something is found exactly when the line verdict of
      the matchers is true, and a blank entry is never returned. */
  method FindBannedOrganizationInText(text: string, bannedOrganizations: seq<string>)
    returns (r: Option<string>)
    ensures r.Some? ==> exists i :: IsFirstMatch(text, bannedOrganizations, i) && r.value == bannedOrganizations[i]
    ensures r.None? ==> NoMatchBefore(text, bannedOrganizations, |bannedOrganizations|)
    ensures r.Some? ==> !IsBlank(r.value)
    ensures r.Some? <==> LineVerdict(bannedOrganizations, text)
  {
    var normalizedText := Normalize(text);
    for i := 0 to |bannedOrganizations|
      invariant NoMatchBefore(text, bannedOrganizations, i)
    {
      var normalizedBannedOrg := Normalize(bannedOrganizations[i]);
      var isMatch := IsExactMatch(normalizedText, normalizedBannedOrg);
      if isMatch {
        MatchIsVerdict(text, bannedOrganizations, i);
        return Some(bannedOrganizations[i]);
      }
      NoMatchBeforeStep(text, bannedOrganizations, i);
    }
    NoMatchNoVerdict(text, bannedOrganizations);
    return None;
  }

  /** A matching entry is not blank and makes the line verdict true. */
  lemma MatchIsVerdict(text: string, bannedOrganizations: seq<string>, i: int)
    requires 0 <= i < |bannedOrganizations|
    requires ExactMatch(Normalize(text), Normalize(bannedOrganizations[i]))
    ensures !IsBlank(bannedOrganizations[i])
    ensures LineVerdict(bannedOrganizations, text)
  {
    NormalizeEmpty(bannedOrganizations[i]);
    NormalizeAllShape(bannedOrganizations);
    assert bannedOrganizations[i] in bannedOrganizations;
  }

  /** When no entry matches, the line verdict is false. */
  lemma NoMatchNoVerdict(text: string, bannedOrganizations: seq<string>)
    requires NoMatchBefore(text, bannedOrganizations, |bannedOrganizations|)
    ensures !LineVerdict(bannedOrganizations, text)
  {
    NormalizeAllShape(bannedOrganizations);
  }
}
