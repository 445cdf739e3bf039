/**
 * InvertedIndexAlgorithm: an index from each cleaned word of a normalised
 * denylist phrase to the phrases containing it. CheckLine first tries every
 * phrase directly; only when none matches does it look up the words of the
 * line in the index and try the phrases found there.
 */
module InvertedIndex {
  import opened StringNormalizer
  import opened Phrases

  /** The characters CleanWord strips from both ends of a word; the hyphen is
      deliberately not among them. */
  predicate IsPunctuation(c: char)
  {
    c in {'"', '\'', '\U{00AB}', '\U{00BB}', '(', ')', '[', ']', '{', '}', '.', ',', ';', ':', '!', '?'}
  }

  function TrimPunctuationStart(s: string): (r: string)
    ensures |r| <= |s|
    decreases |s|
  {
    if |s| > 0 && IsPunctuation(s[0]) then TrimPunctuationStart(s[1..]) else s
  }

  function TrimPunctuationEnd(s: string): (r: string)
    ensures |r| <= |s|
    decreases |s|
  {
    if |s| > 0 && IsPunctuation(s[|s| - 1]) then TrimPunctuationEnd(s[..|s| - 1]) else s
  }

  /** InvertedIndexAlgorithm.CleanWord: string.Trim over the punctuation set. */
  function CleanWord(word: string): string
  {
    TrimPunctuationEnd(TrimPunctuationStart(word))
  }

  lemma {:induction false} TrimPunctuationStartShape(s: string)
    ensures TrimPunctuationStart(s) == s[|s| - |TrimPunctuationStart(s)|..]
    ensures forall i :: 0 <= i < |s| - |TrimPunctuationStart(s)| ==> IsPunctuation(s[i])
    ensures |TrimPunctuationStart(s)| > 0 ==> !IsPunctuation(TrimPunctuationStart(s)[0])
    decreases |s|
  {
    if |s| > 0 && IsPunctuation(s[0]) {
      TrimPunctuationStartShape(s[1..]);
    }
  }

  lemma {:induction false} TrimPunctuationEndShape(s: string)
    ensures TrimPunctuationEnd(s) == s[..|TrimPunctuationEnd(s)|]
    ensures forall i :: |TrimPunctuationEnd(s)| <= i < |s| ==> IsPunctuation(s[i])
    ensures |TrimPunctuationEnd(s)| > 0 ==> !IsPunctuation(TrimPunctuationEnd(s)[|TrimPunctuationEnd(s)| - 1])
    decreases |s|
  {
    if |s| > 0 && IsPunctuation(s[|s| - 1]) {
      TrimPunctuationEndShape(s[..|s| - 1]);
    }
  }

  /** A cleaned word is a slice of the word with only punctuation cut off,
      and neither of its ends is punctuation. */
  lemma CleanWordShape(word: string)
    ensures exists a, b :: (0 <= a <= b <= |word| && CleanWord(word) == word[a..b]
      && (forall i :: 0 <= i < a ==> IsPunctuation(word[i]))
      && (forall i :: b <= i < |word| ==> IsPunctuation(word[i])))
    ensures |CleanWord(word)| > 0 ==>
      !IsPunctuation(CleanWord(word)[0]) && !IsPunctuation(CleanWord(word)[|CleanWord(word)| - 1])
  {
    var t := TrimPunctuationStart(word);
    TrimPunctuationStartShape(word);
    TrimPunctuationEndShape(t);
    var a := |word| - |t|;
    var b := a + |TrimPunctuationEnd(t)|;
    assert CleanWord(word) == word[a..b];
    forall i | b <= i < |word| ensures IsPunctuation(word[i]) {
      assert word[i] == t[i - a];
    }
    assert 0 <= a <= b <= |word| && CleanWord(word) == word[a..b]
      && (forall i :: 0 <= i < a ==> IsPunctuation(word[i]))
      && (forall i :: b <= i < |word| ==> IsPunctuation(word[i]));
    if |CleanWord(word)| > 0 {
      assert CleanWord(word)[0] == t[0];
    }
  }

  /** Cleaning a cleaned word changes nothing. */
  lemma CleanWordIdempotent(word: string)
    ensures CleanWord(CleanWord(word)) == CleanWord(word)
  {
    var c := CleanWord(word);
    CleanWordShape(word);
    if |c| > 0 {
      assert TrimPunctuationStart(c) == c;
      assert TrimPunctuationEnd(c) == c;
    }
  }

  /** The number of characters before the first space. */
  function WordLength(s: string): (n: nat)
    ensures n <= |s|
    ensures |s| > 0 && s[0] != ' ' ==> n > 0
    decreases |s|
  {
    if |s| == 0 || s[0] == ' ' then 0 else 1 + WordLength(s[1..])
  }

  /** string.Split(' ', StringSplitOptions.RemoveEmptyEntries). */
  function SplitWords(s: string): seq<string>
    decreases |s|
  {
    if |s| == 0 then []
    else if s[0] == ' ' then SplitWords(s[1..])
    else [s[..WordLength(s)]] + SplitWords(s[WordLength(s)..])
  }

  lemma {:induction false} WordLengthShape(s: string)
    ensures forall i :: 0 <= i < WordLength(s) ==> s[i] != ' '
    ensures WordLength(s) < |s| ==> s[WordLength(s)] == ' '
    decreases |s|
  {
    if |s| > 0 && s[0] != ' ' {
      WordLengthShape(s[1..]);
    }
  }

  /** The pieces of a split are non-empty, hold no space, and hold only
      characters of the string. */
  lemma {:induction false} SplitWordsShape(s: string)
    ensures forall w :: w in SplitWords(s) ==> w != "" && ' ' !in w && forall c :: c in w ==> c in s
    decreases |s|
  {
    if |s| > 0 {
      if s[0] == ' ' {
        SplitWordsShape(s[1..]);
      } else {
        var n := WordLength(s);
        WordLengthShape(s);
        SplitWordsShape(s[n..]);
        forall w | w in SplitWords(s) ensures w != "" && ' ' !in w && forall c :: c in w ==> c in s {
          if w != s[..n] {
            assert w in SplitWords(s[n..]);
            forall c | c in w ensures c in s {
              var k :| 0 <= k < |s[n..]| && s[n..][k] == c;
              assert s[n + k] == c;
            }
          }
        }
      }
    }
  }

  /** The non-empty cleaned forms of some words: what the index is keyed by. */
  function KeywordsOf(words: seq<string>): set<string>
  {
    set w | w in words && CleanWord(w) != "" :: CleanWord(w)
  }

  /** The keywords of a phrase or of a line. */
  function Keywords(s: string): set<string>
  {
    KeywordsOf(SplitWords(s))
  }

  lemma KeywordsSnoc(words: seq<string>, j: nat)
    requires j < |words|
    ensures KeywordsOf(words[..j + 1]) ==
      KeywordsOf(words[..j]) + if CleanWord(words[j]) != "" then {CleanWord(words[j])} else {}
  {
    assert words[..j + 1] == words[..j] + [words[j]];
  }

  lemma KeywordsOfSameElems(a: seq<string>, b: seq<string>)
    requires Elems(a) == Elems(b)
    ensures KeywordsOf(a) == KeywordsOf(b)
  {
    forall x | x in KeywordsOf(a) ensures x in KeywordsOf(b) {
      var w :| w in a && CleanWord(w) != "" && x == CleanWord(w);
      assert w in Elems(a);
    }
    forall x | x in KeywordsOf(b) ensures x in KeywordsOf(a) {
      var w :| w in b && CleanWord(w) != "" && x == CleanWord(w);
      assert w in Elems(b);
    }
  }

  /** words.Select(CleanWord).Where(w => !string.IsNullOrEmpty(w)). */
  function CleanedWords(words: seq<string>): seq<string>
  {
    if |words| == 0 then []
    else
      var c := CleanWord(words[0]);
      (if c == "" then [] else [c]) + CleanedWords(words[1..])
  }

  lemma {:induction false} CleanedWordsElems(words: seq<string>)
    ensures Elems(CleanedWords(words)) == KeywordsOf(words)
  {
    if |words| > 0 {
      CleanedWordsElems(words[1..]);
      var c := CleanWord(words[0]);
      assert CleanedWords(words) == (if c == "" then [] else [c]) + CleanedWords(words[1..]);
      forall x ensures x in KeywordsOf(words) <==> x in KeywordsOf(words[1..]) || (c != "" && x == c) {
        if x in KeywordsOf(words) {
          var w :| w in words && CleanWord(w) != "" && x == CleanWord(w);
          if w != words[0] {
            assert w in words[1..];
          }
        }
        if x in KeywordsOf(words[1..]) {
          var w :| w in words[1..] && CleanWord(w) != "" && x == CleanWord(w);
          assert w in words;
        }
      }
    }
  }

  /** The word list CheckLine looks up, .Distinct() included. */
  function LineWords(normalizedLine: string): seq<string>
  {
    Distinct(CleanedWords(SplitWords(normalizedLine)))
  }

  /** The words looked up are exactly the line's keywords, each once. */
  lemma LineWordsShape(normalizedLine: string)
    ensures Elems(LineWords(normalizedLine)) == Keywords(normalizedLine)
    ensures NoDuplicates(LineWords(normalizedLine))
  {
    DistinctShape(CleanedWords(SplitWords(normalizedLine)));
    CleanedWordsElems(SplitWords(normalizedLine));
  }

  /** The index maps each keyword of each stored phrase to the phrases having
      it as a keyword, and to nothing else; no key maps to the empty set. */
  ghost predicate Indexes(index: map<string, set<string>>, list: seq<string>)
  {
    && (forall w :: w in index ==> index[w] != {})
    && (forall w, o :: w in index && o in index[w] ==> o in list && w in Keywords(o))
    && (forall w, o :: o in list && w in Keywords(o) ==> w in index && o in index[w])
  }

  /** Indexes, while org is being added: the keywords in added are done. */
  ghost predicate IndexesPartly(index: map<string, set<string>>, list: seq<string>, org: string, added: set<string>)
  {
    && (forall w :: w in index ==> index[w] != {})
    && (forall w, o :: w in index && o in index[w] ==> (o in list && w in Keywords(o)) || (o == org && w in added))
    && (forall w, o :: o in list && w in Keywords(o) ==> w in index && o in index[w])
    && (forall w :: w in added ==> w in index && org in index[w])
  }

  /** The body of Initialize's loop: record org under each of its cleaned
      words. */
  method AddKeywords(index: map<string, set<string>>, ghost list: seq<string>, org: string, words: seq<string>)
    returns (r: map<string, set<string>>)
    requires Indexes(index, list) && Elems(words) == Elems(SplitWords(org))
    ensures Indexes(r, list + [org])
  {
    r := index;
    for j := 0 to |words|
      invariant IndexesPartly(r, list, org, KeywordsOf(words[..j]))
    {
      KeywordsSnoc(words, j);
      var cleanWord := CleanWord(words[j]);
      if cleanWord == "" {
        continue;
      }
      AddKeywordStep(r, list, org, KeywordsOf(words[..j]), cleanWord);
      var filed := if cleanWord in r then r[cleanWord] else {};
      r := r[cleanWord := filed + {org}];
    }
    assert words[..|words|] == words;
    KeywordsOfSameElems(words, SplitWords(org));
    IndexesAdded(r, list, org);
  }

  /** Filing org under one more keyword keeps the partial index. */
  lemma AddKeywordStep(index: map<string, set<string>>, list: seq<string>, org: string, added: set<string>,
                       cleanWord: string)
    requires IndexesPartly(index, list, org, added)
    ensures IndexesPartly(index[cleanWord := (if cleanWord in index then index[cleanWord] else {}) + {org}],
                          list, org, added + {cleanWord})
  {
  }

  /** Once org is filed under all its keywords, the index covers list + [org]. */
  lemma IndexesAdded(index: map<string, set<string>>, list: seq<string>, org: string)
    requires IndexesPartly(index, list, org, Keywords(org))
    ensures Indexes(index, list + [org])
  {
  }

  /** Initialize's loop over the denylist, on a cleared index. */
  method BuildIndex(banned: seq<string>) returns (index: map<string, set<string>>, all: set<string>, list: seq<string>)
    ensures list == NormalizeAll(banned) && all == Elems(list) && Indexes(index, list)
  {
    index, all, list := map[], {}, [];
    for i := 0 to |banned|
      invariant list == NormalizeAll(banned[..i]) && all == Elems(list) && Indexes(index, list)
    {
      NormalizeAllSnoc(banned, i);
      index, all, list := AddPhrase(index, all, list, banned[i]);
    }
    assert banned[..|banned|] == banned;
  }

  /** The body of Initialize's loop: a phrase that is not blank once
      normalised is stored and filed under its words. */
  method AddPhrase(index: map<string, set<string>>, all: set<string>, list: seq<string>, bannedOrg: string)
    returns (index': map<string, set<string>>, all': set<string>, list': seq<string>)
    requires all == Elems(list) && Indexes(index, list)
    ensures list' == if IsBlank(Normalize(bannedOrg)) then list else list + [Normalize(bannedOrg)]
    ensures all' == Elems(list') && Indexes(index', list')
  {
    var normalizedOrg := Normalize(bannedOrg);
    if IsBlank(normalizedOrg) {
      return index, all, list;
    }
    all' := all + {normalizedOrg};
    list' := list + [normalizedOrg];
    var words := Distinct(SplitWords(normalizedOrg));
    DistinctElems(SplitWords(normalizedOrg));
    index' := AddKeywords(index, list, normalizedOrg, words);
  }

  /** The phrases filed under some word of words and no longer than n. */
  function CandidateSet(index: map<string, set<string>>, words: seq<string>, n: nat): set<string>
  {
    set w, o | w in words && w in index && o in index[w] && |o| <= n :: o
  }

  /** The candidates are the stored phrases no longer than the line that share
      a keyword with it: the index neither invents nor loses a phrase. */
  lemma CandidatesExact(index: map<string, set<string>>, list: seq<string>, normalizedLine: string)
    requires Indexes(index, list)
    ensures forall o :: o in CandidateSet(index, LineWords(normalizedLine), |normalizedLine|) <==>
      o in list && |o| <= |normalizedLine| && exists w :: w in Keywords(normalizedLine) && w in Keywords(o)
  {
    var words := LineWords(normalizedLine);
    LineWordsShape(normalizedLine);
    forall o | o in list && |o| <= |normalizedLine| && (exists w :: w in Keywords(normalizedLine) && w in Keywords(o))
      ensures o in CandidateSet(index, words, |normalizedLine|)
    {
      var w :| w in Keywords(normalizedLine) && w in Keywords(o);
      assert w in Elems(words);
      assert w in index && o in index[w];
      assert w in words && |o| <= |normalizedLine|;
    }
    forall o | o in CandidateSet(index, words, |normalizedLine|)
      ensures o in list && exists w :: w in Keywords(normalizedLine) && w in Keywords(o)
    {
      var w :| w in words && w in index && o in index[w] && |o| <= |normalizedLine|;
      assert w in Elems(words);
      assert o in list && w in Keywords(o);
    }
  }

  lemma CandidateSetSnoc(index: map<string, set<string>>, words: seq<string>, i: nat, n: nat)
    requires i < |words|
    ensures CandidateSet(index, words[..i + 1], n) == CandidateSet(index, words[..i], n) +
      if words[i] in index then set o | o in index[words[i]] && |o| <= n else {}
  {
    assert words[..i + 1] == words[..i] + [words[i]];
  }

  /** The candidate loop: for each word found in the index, every phrase
      filed under it that is no longer than the line. */
  method CollectCandidates(index: map<string, set<string>>, words: seq<string>, n: nat)
    returns (candidates: set<string>)
    ensures candidates == CandidateSet(index, words, n)
  {
    candidates := {};
    for i := 0 to |words|
      invariant candidates == CandidateSet(index, words[..i], n)
    {
      CandidateSetSnoc(index, words, i, n);
      if words[i] in index {
        var orgs := index[words[i]];
        var remaining := orgs;
        while remaining != {}
          invariant remaining <= orgs
          invariant candidates == CandidateSet(index, words[..i], n) + set o | o in orgs - remaining && |o| <= n
          decreases remaining
        {
          var org :| org in remaining;
          if |org| <= n {
            candidates := candidates + {org};
          }
          remaining := remaining - {org};
        }
      }
    }
    assert words[..|words|] == words;
  }

  /** normalizedLine.Contains(org) && IsExactMatch(normalizedLine, org): on
      normalised strings the substring test only saves work. */
  method ContainedExactMatch(normalizedLine: string, org: string) returns (found: bool)
    requires IsNormalized(normalizedLine) && IsNormalized(org)
    ensures found == ExactMatch(normalizedLine, org)
  {
    if Contains(normalizedLine, org) {
      found := IsExactMatch(normalizedLine, org);
    } else {
      found := false;
      assert !ExactMatch(normalizedLine, org) by {
        if ExactMatch(normalizedLine, org) {
          ExactMatchOccurs(normalizedLine, org);
        }
      }
    }
  }

  /** The direct check: every stored phrase in turn. */
  method DirectScan(normalizedLine: string, list: seq<string>) returns (found: bool)
    requires IsNormalized(normalizedLine) && forall p :: p in list ==> IsNormalized(p)
    ensures found == Matches(list, normalizedLine)
  {
    for i := 0 to |list|
      invariant forall j :: 0 <= j < i ==> !ExactMatch(normalizedLine, list[j])
    {
      var hit := ContainedExactMatch(normalizedLine, list[i]);
      if hit {
        return true;
      }
    }
    return false;
  }

  /** The check over the candidates, in whatever order the set yields them. */
  method AnyCandidateMatches(normalizedLine: string, candidates: set<string>) returns (found: bool)
    requires IsNormalized(normalizedLine) && forall c :: c in candidates ==> IsNormalized(c)
    ensures found <==> exists c :: c in candidates && ExactMatch(normalizedLine, c)
  {
    var remaining := candidates;
    while remaining != {}
      invariant remaining <= candidates
      invariant forall c :: c in candidates - remaining ==> !ExactMatch(normalizedLine, c)
      decreases remaining
    {
      var candidate :| candidate in remaining;
      var hit := ContainedExactMatch(normalizedLine, candidate);
      if hit {
        return true;
      }
      remaining := remaining - {candidate};
    }
    return false;
  }

  /** The index phase of CheckLine: look up the line's words, gather the
      candidates, check them. */
  method IndexScan(normalizedLine: string, index: map<string, set<string>>, ghost list: seq<string>)
    returns (found: bool)
    requires IsNormalized(normalizedLine) && Indexes(index, list)
    requires forall p :: p in list ==> IsNormalized(p)
    ensures found <==>
      exists c :: c in CandidateSet(index, LineWords(normalizedLine), |normalizedLine|) && ExactMatch(normalizedLine, c)
    ensures found ==> Matches(list, normalizedLine)
  {
    var words := LineWords(normalizedLine);
    if |words| == 0 {
      return false;
    }
    var candidates := CollectCandidates(index, words, |normalizedLine|);
    CandidatesExact(index, list, normalizedLine);
    if |candidates| == 0 {
      return false;
    }
    found := AnyCandidateMatches(normalizedLine, candidates);
  }

  class InvertedIndexAlgorithm {
    var wordIndex: map<string, set<string>>
    var allBannedOrganizations: set<string>
    var normalizedBannedOrganizations: seq<string>
    var isInitialized: bool
    /** The list given to the first call; the one that counts from then on. */
    ghost var denylist: seq<string>

    function Name(): string
    {
      "Инвертированный индекс + фильтрация"
    }

    ghost predicate Valid()
      reads this
    {
      && (isInitialized ==>
            && normalizedBannedOrganizations == NormalizeAll(denylist)
            && allBannedOrganizations == Elems(normalizedBannedOrganizations)
            && Indexes(wordIndex, normalizedBannedOrganizations))
      && (!isInitialized ==> wordIndex == map[] && allBannedOrganizations == {} && normalizedBannedOrganizations == [])
    }

    constructor()
      ensures Valid() && !isInitialized
    {
      wordIndex := map[];
      allBannedOrganizations := {};
      normalizedBannedOrganizations := [];
      isInitialized := false;
      denylist := [];
    }

    /** Builds the index on the first call only; later calls, whatever list
        they pass, change nothing. */
    method Initialize(bannedOrganizations: seq<string>)
      requires Valid()
      modifies this
      ensures Valid() && isInitialized
      ensures old(isInitialized) ==> unchanged(this)
      ensures !old(isInitialized) ==> denylist == bannedOrganizations
    {
      if isInitialized {
        return;
      }
      wordIndex, allBannedOrganizations, normalizedBannedOrganizations := BuildIndex(bannedOrganizations);
      denylist := bannedOrganizations;
      isInitialized := true;
    }

    /** CheckLine: the direct check decides; the index phase, run when it
        finds nothing, finds nothing either. */
    method CheckLine(line: string, bannedOrganizations: seq<string>) returns (found: bool)
      requires Valid()
      modifies this
      ensures Valid() && isInitialized
      ensures denylist == if old(isInitialized) then old(denylist) else bannedOrganizations
      ensures unchanged(this`wordIndex, this`normalizedBannedOrganizations) || !old(isInitialized)
      ensures found == LineVerdict(denylist, line)
    {
      Initialize(bannedOrganizations);
      var normalizedLine := Normalize(line);
      if IsBlank(normalizedLine) {
        NormalizeBlank(line);
        BlankLineNeverMatches(denylist, line);
        return false;
      }
      NormalizeIsNormalized(line);
      NormalizeAllShape(denylist);
      var direct := DirectScan(normalizedLine, normalizedBannedOrganizations);
      if direct {
        return true;
      }
      found := IndexScan(normalizedLine, wordIndex, normalizedBannedOrganizations);
    }

    /** CheckBlock: some line of the block passes CheckLine. */
    method CheckBlock(block: seq<string>, bannedOrganizations: seq<string>) returns (found: bool)
      requires Valid()
      modifies this
      ensures Valid() && isInitialized
      ensures denylist == if old(isInitialized) then old(denylist) else bannedOrganizations
      ensures found == BlockVerdict(denylist, block)
    {
      Initialize(bannedOrganizations);
      ghost var d := denylist;
      for i := 0 to |block|
        invariant Valid() && isInitialized && denylist == d
        invariant NoLineMatches(d, block, i)
      {
        var hit := CheckLine(block[i], bannedOrganizations);
        if hit {
          BlockVerdictExits(d, block, i);
          return true;
        }
        NoLineMatchesStep(d, block, i);
      }
      BlockVerdictExits(d, block, |block|);
      return false;
    }
  }
}
