/**
 * AhoCorasickAlgorithm: the denylist phrases go into a trie with failure
 * links, one pass over a normalised line collects every phrase occurring in
 * it, and each collected phrase is then checked for a whole-word match.
 * The trie is an arena (see AhoCorasickTrie); node 0 is the root.
 */
module AhoCorasick {
  import opened StringNormalizer
  import opened Phrases
  import opened Suffixes
  import opened AhoCorasickTrie

  class AhoCorasickAlgorithm {
    var nodes: seq<TrieNode>
    var normalizedBannedOrganizations: seq<string>
    var isInitialized: bool
    var trieBuilt: bool
    /** The list given to the first call; the one that counts from then on. */
    ghost var denylist: seq<string>
    ghost var paths: seq<string>
    ghost var nodeOf: map<string, nat>

    function Name(): string
    {
      "Ахо-Корасик"
    }

    ghost predicate Valid()
      reads this
    {
      && TrieShape(Children(nodes), paths, nodeOf)
      && (isInitialized ==> normalizedBannedOrganizations == PreparedPhrases(denylist))
      && (!isInitialized ==> !trieBuilt && normalizedBannedOrganizations == [])
      && (trieBuilt ==> Automaton(nodes, paths, nodeOf, Elems(normalizedBannedOrganizations)))
    }

    constructor()
      ensures Valid() && !isInitialized && !trieBuilt
      ensures nodes == [EmptyNode]
    {
      nodes := [EmptyNode];
      normalizedBannedOrganizations := [];
      isInitialized := false;
      trieBuilt := false;
      denylist := [];
      paths := [[]];
      nodeOf := map[[] := 0];
    }

    /** Prepares the phrase list on the first call only; later calls, whatever
        list they pass, change nothing. */
    method Initialize(bannedOrganizations: seq<string>)
      requires Valid()
      modifies this`normalizedBannedOrganizations, this`isInitialized, this`denylist
      ensures Valid() && isInitialized
      ensures old(isInitialized) ==> unchanged(this)
      ensures !old(isInitialized) ==>
        denylist == bannedOrganizations && normalizedBannedOrganizations == PreparedPhrases(bannedOrganizations)
    {
      if isInitialized {
        return;
      }
      normalizedBannedOrganizations := PreparedPhrases(bannedOrganizations);
      denylist := bannedOrganizations;
      isInitialized := true;
    }

    /** Builds the trie of the prepared phrases and its failure links, once. */
    method BuildTrie()
      requires Valid() && isInitialized
      modifies this`nodes, this`paths, this`nodeOf, this`trieBuilt
      ensures Valid() && trieBuilt
      ensures old(trieBuilt) ==> unchanged(this)
    {
      if trieBuilt {
        return;
      }
      var list := normalizedBannedOrganizations;
      assert "" !in list by {
        PreparedPhrasesShape(denylist);
      }
      var built;
      ghost var builtPaths, builtNodeOf;
      built, builtPaths, builtNodeOf := BuildAutomaton(list);
      nodes, paths, nodeOf := built, builtPaths, builtNodeOf;
      trieBuilt := true;
    }

    /** Every prepared phrase occurring anywhere in the text. */
    method Search(text: string) returns (results: set<string>)
      requires Valid() && isInitialized
      modifies this`nodes, this`paths, this`nodeOf, this`trieBuilt
      ensures Valid() && trieBuilt
      ensures old(trieBuilt) ==> unchanged(this)
      ensures results == set p | p in normalizedBannedOrganizations && Occurs(text, p)
    {
      if !trieBuilt {
        BuildTrie();
      }
      results := Scan(nodes, text, paths, nodeOf, Elems(normalizedBannedOrganizations));
      EndingWithinAll(Elems(normalizedBannedOrganizations), text);
    }

    /** CheckLine: some prepared phrase is a whole-word match in the
        normalised line. */
    method CheckLine(line: string, bannedOrganizations: seq<string>) returns (found: bool)
      requires Valid()
      modifies this
      ensures Valid() && isInitialized
      ensures denylist == if old(isInitialized) then old(denylist) else bannedOrganizations
      ensures found == LineVerdict(denylist, line)
    {
      Initialize(bannedOrganizations);
      var normalizedLine := Normalize(line);
      if IsBlank(normalizedLine) {
        NormalizeBlank(line);
        BlankLineNeverMatches(denylist, line);
        return false;
      }
      var matches := Search(normalizedLine);
      found := AnyExactMatch(normalizedLine, matches);
      FoundCandidates(normalizedBannedOrganizations, denylist, line, matches);
    }

    /** CheckBlock: some line of the block passes CheckLine. */
    method CheckBlock(block: seq<string>, bannedOrganizations: seq<string>) returns (found: bool)
      requires Valid()
      modifies this
      ensures Valid() && isInitialized
      ensures denylist == if old(isInitialized) then old(denylist) else bannedOrganizations
      ensures found == BlockVerdict(denylist, block)
    {
      Initialize(bannedOrganizations);
      ghost var d := denylist;
      for i := 0 to |block|
        invariant Valid() && isInitialized && denylist == d
        invariant NoLineMatches(d, block, i)
      {
        var hit := CheckLine(block[i], bannedOrganizations);
        if hit {
          BlockVerdictExits(d, block, i);
          return true;
        }
        NoLineMatchesStep(d, block, i);
      }
      BlockVerdictExits(d, block, |block|);
      return false;
    }
  }

  /** BuildTrie's work on a fresh root: every phrase inserted, then the
      failure links. */
  method BuildAutomaton(list: seq<string>) returns (nodes: seq<TrieNode>, ghost paths: seq<string>,
                                                    ghost nodeOf: map<string, nat>)
    requires "" !in list
    ensures Automaton(nodes, paths, nodeOf, Elems(list))
  {
    nodes := [EmptyNode];
    paths := [[]];
    nodeOf := map[[] := 0];
    for i := 0 to |list|
      invariant Building(nodes, paths, nodeOf, Elems(list[..i]))
    {
      assert list[..i + 1] == list[..i] + [list[i]];
      assert Elems(list[..i + 1]) == Elems(list[..i]) + {list[i]};
      nodes, paths, nodeOf := InsertPhrase(nodes, list[i], paths, nodeOf, Elems(list[..i]));
    }
    assert list[..|list|] == list;
    nodes := BuildFailureLinks(nodes, paths, nodeOf, Elems(list));
  }

  /** The trie while phrases are being added: well formed, holding the
      phrases added so far, every output still the node's own phrase. */
  ghost predicate Building(nodes: seq<TrieNode>, paths: seq<string>, nodeOf: map<string, nat>, inserted: set<string>)
  {
    && 0 < |nodes| == |paths|
    && TrieShape(Children(nodes), paths, nodeOf)
    && inserted <= nodeOf.Keys && nodes[0].failureLink == -1
    && forall k :: 0 <= k < |nodes| ==> TerminalOnly(nodes, paths, inserted, k)
  }

  /** The body of BuildTrie's foreach: walk down from the root along org,
      creating each missing child, and record org at the node reached. */
  method InsertPhrase(nodes: seq<TrieNode>, org: string, ghost paths: seq<string>, ghost nodeOf: map<string, nat>,
                      ghost inserted: set<string>)
    returns (r: seq<TrieNode>, ghost rPaths: seq<string>, ghost rNodeOf: map<string, nat>)
    requires Building(nodes, paths, nodeOf, inserted)
    ensures Building(r, rPaths, rNodeOf, inserted + {org})
  {
    r, rPaths, rNodeOf := nodes, paths, nodeOf;
    var currentNode: nat := 0;
    var j := 0;
    while j < |org|
      invariant Building(r, rPaths, rNodeOf, inserted)
      invariant 0 <= j <= |org| && currentNode < |r| && rPaths[currentNode] == org[..j]
    {
      var ch := org[j];
      if ch !in r[currentNode].children {
        InsertChild(r, rPaths, rNodeOf, inserted, currentNode, ch);
        var newNode: nat := |r|;
        ghost var s := rPaths[currentNode] + [ch];
        r := r[currentNode := r[currentNode].(children := r[currentNode].children[ch := newNode])] + [EmptyNode];
        rPaths := rPaths + [s];
        rNodeOf := rNodeOf[s := newNode];
      }
      ChildIndex(Children(r), rPaths, rNodeOf, currentNode, ch);
      assert org[..j + 1] == org[..j] + [org[j]];
      currentNode := r[currentNode].children[ch];
      j := j + 1;
    }
    assert org[..j] == org;
    MarkTerminal(r, rPaths, rNodeOf, inserted, currentNode, org);
    r := r[currentNode := r[currentNode].(output := r[currentNode].output + [org])];
  }

  /** Breadth-first over the trie: each child's failure link is found by
      walking its parent's failure chain, and its output gains the output
      of the node the link points to. */
  method BuildFailureLinks(nodes: seq<TrieNode>, ghost paths: seq<string>, ghost nodeOf: map<string, nat>,
                           ghost phrases: set<string>) returns (r: seq<TrieNode>)
    requires Building(nodes, paths, nodeOf, phrases) && [] !in phrases
    ensures Automaton(r, paths, nodeOf, phrases)
    ensures Children(r) == Children(nodes)
  {
    var queue;
    ghost var done;
    r, queue, done := LinkRootChildren(nodes, paths, nodeOf, phrases);
    ghost var processed: set<nat> := {0};
    ghost var current: nat := 0;
    while |queue| > 0
      invariant BfsInv(r, paths, nodeOf, phrases, queue, done, processed, current, {})
      invariant Children(r) == Children(nodes)
      decreases (set k | 0 <= k < |paths| && k !in processed)
    {
      ghost var before := set k | 0 <= k < |paths| && k !in processed;
      ghost var q := queue[0];
      r, queue, done, processed, current := LinkChildren(r, paths, nodeOf, phrases, queue, done, processed, current);
      assert q in before - (set k | 0 <= k < |paths| && k !in processed);
    }
    forall k | 0 <= k < |r| ensures Final(r, paths, nodeOf, phrases, k) {
      QueueEmptyAllDone(r, paths, nodeOf, phrases, done, processed, current, k);
    }
  }

  /** The first loop of BuildFailureLinks: the root's children fail to the
      root and start the queue. */
  method LinkRootChildren(nodes: seq<TrieNode>, ghost paths: seq<string>, ghost nodeOf: map<string, nat>,
                          ghost phrases: set<string>) returns (r: seq<TrieNode>, queue: seq<nat>, ghost done: set<nat>)
    requires Building(nodes, paths, nodeOf, phrases) && [] !in phrases
    ensures BfsInv(r, paths, nodeOf, phrases, queue, done, {0}, 0, {})
    ensures Children(r) == Children(nodes)
  {
    r := nodes;
    done := {0};
    BfsStart(r, paths, nodeOf, phrases);
    queue := [];
    var rootKeys := r[0].children.Keys;
    while rootKeys != {}
      invariant 0 < |r| == |paths|
      invariant rootKeys <= r[0].children.Keys
      invariant BfsInv(r, paths, nodeOf, phrases, queue, done, {0}, 0, rootKeys)
      invariant DepthBand(paths, queue, 0)
      invariant Children(r) == Children(nodes)
      decreases rootKeys
    {
      var c :| c in rootKeys;
      var child := r[0].children[c];
      r := LinkRootChild(r, paths, nodeOf, phrases, queue, done, rootKeys, c);
      DepthBandSnoc(paths, queue, 0, child);
      queue := queue + [child];
      done := done + {child};
      rootKeys := rootKeys - {c};
    }
  }

  /** The body of BuildFailureLinks's first loop: a child of the root fails
      to the root. */
  method LinkRootChild(nodes: seq<TrieNode>, ghost paths: seq<string>, ghost nodeOf: map<string, nat>,
                       ghost phrases: set<string>, queue: seq<nat>, ghost done: set<nat>, ghost pending: set<char>,
                       c: char) returns (r: seq<TrieNode>)
    requires BfsInv(nodes, paths, nodeOf, phrases, queue, done, {0}, 0, pending)
    requires 0 < |nodes| && c in pending && pending <= nodes[0].children.Keys
    requires DepthBand(paths, queue, 0)
    ensures Children(r) == Children(nodes)
    ensures var child := nodes[0].children[c];
      child < |paths| && |paths[child]| == 1
    ensures var child := nodes[0].children[c];
      BfsInv(r, paths, nodeOf, phrases, queue + [child], done + {child}, {0}, 0, pending - {c})
  {
    var child := nodes[0].children[c];
    ChildIndex(Children(nodes), paths, nodeOf, 0, c);
    assert child !in done && TerminalOnly(nodes, paths, phrases, child);
    RootChildFinal(nodes, paths, nodeOf, phrases, child);
    var n := nodes[child].(failureLink := 0);
    BfsFinishChild(nodes, paths, nodeOf, phrases, queue, done, {0}, 0, pending, c, n);
    ChildrenAfterUpdate(nodes, child, n);
    r := nodes[child := n];
  }

  /** One round of BuildFailureLinks's second loop: dequeue a node and link
      each of its children. */
  method LinkChildren(nodes: seq<TrieNode>, ghost paths: seq<string>, ghost nodeOf: map<string, nat>,
                      ghost phrases: set<string>, queue: seq<nat>, ghost done: set<nat>, ghost processed: set<nat>,
                      ghost last: nat)
    returns (r: seq<TrieNode>, queue': seq<nat>, ghost done': set<nat>, ghost processed': set<nat>, ghost current: nat)
    requires BfsInv(nodes, paths, nodeOf, phrases, queue, done, processed, last, {}) && |queue| > 0
    ensures BfsInv(r, paths, nodeOf, phrases, queue', done', processed', current, {})
    ensures Children(r) == Children(nodes)
    ensures processed <= processed' && queue[0] < |paths| && queue[0] in processed' - processed
  {
    BfsDequeue(nodes, paths, nodeOf, phrases, queue, done, processed, last);
    var currentNode := queue[0];
    processed' := processed + {currentNode};
    current := currentNode;
    r, queue', done' := LinkEachChild(nodes, paths, nodeOf, phrases, queue[1..], done, processed', currentNode);
  }

  /** Every queued node is at depth d or d + 1. */
  ghost predicate DepthBand(paths: seq<string>, queue: seq<nat>, d: nat)
  {
    forall i :: 0 <= i < |queue| ==> queue[i] < |paths| && d <= |paths[queue[i]]| <= d + 1
  }

  lemma DepthBandSnoc(paths: seq<string>, queue: seq<nat>, d: nat, k: nat)
    requires DepthBand(paths, queue, d) && k < |paths| && |paths[k]| == d + 1
    ensures DepthBand(paths, queue + [k], d)
  {
  }

  /** The inner loop of BuildFailureLinks: link every child of currentNode
      and put it at the back of the queue. */
  method LinkEachChild(nodes: seq<TrieNode>, ghost paths: seq<string>, ghost nodeOf: map<string, nat>,
                       ghost phrases: set<string>, queue: seq<nat>, ghost done: set<nat>, ghost processed: set<nat>,
                       currentNode: nat)
    returns (r: seq<TrieNode>, queue': seq<nat>, ghost done': set<nat>)
    requires currentNode in processed && 0 < currentNode < |nodes|
    requires BfsInv(nodes, paths, nodeOf, phrases, queue, done, processed, currentNode, nodes[currentNode].children.Keys)
    requires DepthBand(paths, queue, |paths[currentNode]|)
    ensures BfsInv(r, paths, nodeOf, phrases, queue', done', processed, currentNode, {})
    ensures Children(r) == Children(nodes)
  {
    r, queue', done' := nodes, queue, done;
    var childKeys := r[currentNode].children.Keys;
    while childKeys != {}
      invariant currentNode < |r| && childKeys <= r[currentNode].children.Keys
      invariant BfsInv(r, paths, nodeOf, phrases, queue', done', processed, currentNode, childKeys)
      invariant DepthBand(paths, queue', |paths[currentNode]|)
      invariant Children(r) == Children(nodes)
      decreases childKeys
    {
      var c :| c in childKeys;
      var child := r[currentNode].children[c];
      r := LinkChild(r, paths, nodeOf, phrases, queue', done', processed, childKeys, currentNode, c);
      DepthBandSnoc(paths, queue', |paths[currentNode]|, child);
      queue' := queue' + [child];
      done' := done' + {child};
      childKeys := childKeys - {c};
    }
  }

  /** The body of BuildFailureLinks's inner loop for the child under key c
      of currentNode: the failure walk, the link and the output. */
  method LinkChild(nodes: seq<TrieNode>, ghost paths: seq<string>, ghost nodeOf: map<string, nat>,
                   ghost phrases: set<string>, queue: seq<nat>, ghost done: set<nat>, ghost processed: set<nat>,
                   ghost pending: set<char>, currentNode: nat, c: char) returns (r: seq<TrieNode>)
    requires BfsInv(nodes, paths, nodeOf, phrases, queue, done, processed, currentNode, pending)
    requires currentNode in processed && 0 < currentNode < |nodes| && c in pending
    requires pending <= nodes[currentNode].children.Keys
    requires DepthBand(paths, queue, |paths[currentNode]|)
    ensures Children(r) == Children(nodes)
    ensures var child := nodes[currentNode].children[c];
      child < |paths| && |paths[child]| == |paths[currentNode]| + 1
    ensures var child := nodes[currentNode].children[c];
      BfsInv(r, paths, nodeOf, phrases, queue + [child], done + {child}, processed, currentNode, pending - {c})
  {
    var child := nodes[currentNode].children[c];
    ChildIndex(Children(nodes), paths, nodeOf, currentNode, c);
    ghost var w := paths[currentNode][1..];
    var target := FailureTarget(nodes, paths, nodeOf, phrases, queue, done, processed, pending, currentNode, c);
    assert paths[child][1..] == w + [c];
    ShallowIsDone(nodes, paths, nodeOf, phrases, queue, done, processed, currentNode, pending, target);
    assert child !in done && TerminalOnly(nodes, paths, phrases, child);
    ChildFinal(nodes, paths, nodeOf, phrases, child, target);
    var n := nodes[child].(failureLink := target, output := nodes[child].output + nodes[target].output);
    BfsFinishChild(nodes, paths, nodeOf, phrases, queue, done, processed, currentNode, pending, c, n);
    ChildrenAfterUpdate(nodes, child, n);
    r := nodes[child := n];
  }

  /** The failure walk of LinkChild: follow failure links from currentNode's
      own link until a node has a child under c; that child, or the root
      when the walk runs off the root, is the longest proper suffix of the
      new path that is in the trie. */
  method FailureTarget(nodes: seq<TrieNode>, ghost paths: seq<string>, ghost nodeOf: map<string, nat>,
                       ghost phrases: set<string>, queue: seq<nat>, ghost done: set<nat>, ghost processed: set<nat>,
                       ghost pending: set<char>, currentNode: nat, c: char) returns (target: nat)
    requires BfsInv(nodes, paths, nodeOf, phrases, queue, done, processed, currentNode, pending)
    requires currentNode in processed && 0 < currentNode < |nodes| && c in pending
    requires pending <= nodes[currentNode].children.Keys
    requires DepthBand(paths, queue, |paths[currentNode]|)
    ensures target < |nodes| && paths[target] == Longest(nodeOf.Keys, paths[currentNode][1..] + [c])
  {
    ghost var P := nodeOf.Keys;
    ghost var w := paths[currentNode][1..];
    assert Final(nodes, paths, nodeOf, phrases, currentNode);
    var failureNode := nodes[currentNode].failureLink;
    WalkStart(P, w, c);
    while failureNode != -1 && c !in nodes[failureNode].children
      invariant failureNode == -1 ==> WalkInv(P, w, c, -1)
      invariant failureNode != -1 ==> 0 <= failureNode < |nodes| && IsSuffix(paths[failureNode], w)
                                      && WalkInv(P, w, c, |paths[failureNode]|)
      decreases if failureNode == -1 then 0 else |paths[failureNode]| + 1
    {
      ShallowIsDone(nodes, paths, nodeOf, phrases, queue, done, processed, currentNode, pending, failureNode);
      FailureStep(nodes, paths, nodeOf, phrases, w, c, failureNode);
      failureNode := nodes[failureNode].failureLink;
    }
    WalkTarget(nodes, paths, nodeOf, w, c, failureNode);
    target := if failureNode != -1 then nodes[failureNode].children[c] else 0;
  }

  /** Search's loop over the text: the automaton state is the longest suffix
      of the text read so far that is a trie path, and after each character
      the phrases ending there are added. */
  method Scan(nodes: seq<TrieNode>, text: string, ghost paths: seq<string>, ghost nodeOf: map<string, nat>,
              ghost Q: set<string>) returns (results: set<string>)
    requires Automaton(nodes, paths, nodeOf, Q)
    ensures results == EndingWithin(Q, text, |text|)
  {
    results := {};
    var currentNode: nat := 0;
    ScanStart(nodes, paths, nodeOf, Q, text);
    for i := 0 to |text|
      invariant currentNode < |nodes| && paths[currentNode] == Longest(nodeOf.Keys, text[..i])
      invariant results == EndingWithin(Q, text, i)
    {
      currentNode := NextState(nodes, currentNode, text[i], paths, nodeOf, Q, text[..i]);
      assert Final(nodes, paths, nodeOf, Q, currentNode);
      ScanAdvance(nodeOf.Keys, Q, text, i, paths[currentNode], nodes[currentNode].output);
      if nodes[currentNode].IsTerminal() {
        results := AddAll(results, nodes[currentNode].output);
      } else {
        assert nodes[currentNode].output == [];
      }
    }
  }

  /** The transition on ch: follow failure links until a node has a child
      under ch or the root is reached, then take that child if there is one. */
  method NextState(nodes: seq<TrieNode>, currentNode: nat, ch: char, ghost paths: seq<string>,
                   ghost nodeOf: map<string, nat>, ghost Q: set<string>, ghost w: string) returns (next: nat)
    requires Automaton(nodes, paths, nodeOf, Q)
    requires currentNode < |nodes| && paths[currentNode] == Longest(nodeOf.Keys, w)
    ensures next < |nodes| && paths[next] == Longest(nodeOf.Keys, w + [ch])
  {
    ghost var P := nodeOf.Keys;
    WalkStart(P, w, ch);
    next := currentNode;
    while next != 0 && ch !in nodes[next].children
      invariant next < |nodes| && IsSuffix(paths[next], w)
      invariant WalkInv(P, w, ch, |paths[next]|)
      decreases |paths[next]|
    {
      FailureStep(nodes, paths, nodeOf, Q, w, ch, next);
      next := nodes[next].failureLink;
    }
    if ch in nodes[next].children {
      WalkTarget(nodes, paths, nodeOf, w, ch, next);
      next := nodes[next].children[ch];
    } else {
      FailureStep(nodes, paths, nodeOf, Q, w, ch, next);
      WalkTarget(nodes, paths, nodeOf, w, ch, -1);
    }
  }

  /** foreach (var match in currentNode.Output) results.Add(match). */
  method AddAll(results: set<string>, output: seq<string>) returns (r: set<string>)
    ensures r == results + Elems(output)
  {
    r := results;
    for j := 0 to |output|
      invariant r == results + Elems(output[..j])
    {
      assert output[..j + 1] == output[..j] + [output[j]];
      r := r + {output[j]};
    }
    assert output[..|output|] == output;
  }

  /** Before the first character the state is the root and nothing is found. */
  lemma ScanStart(nodes: seq<TrieNode>, paths: seq<string>, nodeOf: map<string, nat>, Q: set<string>, text: string)
    requires Automaton(nodes, paths, nodeOf, Q)
    ensures paths[0] == Longest(nodeOf.Keys, text[..0]) && EndingWithin(Q, text, 0) == {}
  {
    assert text[..0] == [];
  }

  /** One character of the scan: the new state's output holds exactly the
      phrases that end at the character just read. */
  lemma ScanAdvance(P: set<string>, Q: set<string>, text: string, i: nat, state: string, output: seq<string>)
    requires [] in P && Q <= P && i < |text|
    requires state == Longest(P, text[..i] + [text[i]])
    requires Elems(output) == SuffixPhrases(Q, state)
    ensures state == Longest(P, text[..i + 1])
    ensures EndingWithin(Q, text, i + 1) == EndingWithin(Q, text, i) + Elems(output)
  {
    assert text[..i + 1] == text[..i] + [text[i]];
    ScanStep(P, Q, text, i);
  }

  /** The loop over Search's results: some candidate is a whole-word match. */
  method AnyExactMatch(normalizedLine: string, matches: set<string>) returns (found: bool)
    ensures found <==> exists m :: m in matches && ExactMatch(normalizedLine, m)
  {
    var remaining := matches;
    while remaining != {}
      invariant remaining <= matches
      invariant forall m :: m in matches - remaining ==> !ExactMatch(normalizedLine, m)
      decreases remaining
    {
      var m :| m in remaining;
      var exact := IsExactMatch(normalizedLine, m);
      if exact {
        return true;
      }
      remaining := remaining - {m};
    }
    return false;
  }

  /** The phrases Search returns are exactly the candidates for a whole-word
      match: a line matches some prepared phrase iff its normal form matches
      one of them. */
  lemma FoundCandidates(prepared: seq<string>, banned: seq<string>, line: string, matches: set<string>)
    requires prepared == PreparedPhrases(banned)
    requires matches == set p | p in prepared && Occurs(Normalize(line), p)
    ensures matches <= Elems(NormalizeAll(banned))
    ensures LineVerdict(banned, line) <==> exists m :: m in matches && ExactMatch(Normalize(line), m)
  {
    var n := Normalize(line);
    NormalizeIsNormalized(line);
    PreparedPhrasesShape(banned);
    forall p | p in NormalizeAll(banned) && ExactMatch(n, p) ensures p in matches {
      ExactMatchOccurs(n, p);
    }
  }
}
