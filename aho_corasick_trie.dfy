/**
 * The Aho-Corasick trie as an arena: node k is nodes[k], the root is node 0,
 * a child or failure link is an index into the same sequence and the null
 * failure link is -1. The ghost map nodeOf names the node of each trie path
 * and paths[k] is the path of node k; the predicates below say what a
 * well-formed trie, a finished automaton and each stage of the breadth-first
 * failure-link construction look like.
 */
module AhoCorasickTrie {
  import opened Phrases
  import opened Suffixes

  /** AhoCorasickAlgorithm.TrieNode. */
  datatype TrieNode = TrieNode(children: map<char, nat>, failureLink: int, output: seq<string>)
  {
    /** TrieNode.IsTerminal. */
    predicate IsTerminal()
    {
      |output| > 0
    }
  }

  /** new TrieNode(): no children, a null failure link, no output. */
  const EmptyNode := TrieNode(map[], -1, [])

  /** The child map of every node, in arena order. */
  function Children(nodes: seq<TrieNode>): (r: seq<map<char, nat>>)
    ensures |r| == |nodes| && forall k :: 0 <= k < |nodes| ==> r[k] == nodes[k].children
  {
    seq(|nodes|, k requires 0 <= k < |nodes| => nodes[k].children)
  }

  /** Node k has path paths[k]; paths and node indices are in one-to-one
      correspondence through nodeOf; the paths are closed under prefixes; and
      c is a key of child map k exactly when paths[k] + [c] is a path, the
      child being that path's node. */
  ghost predicate TrieShape(children: seq<map<char, nat>>, paths: seq<string>, nodeOf: map<string, nat>)
  {
    && |children| == |paths| > 0
    && paths[0] == []
    && (forall k :: 0 <= k < |paths| ==> paths[k] in nodeOf && nodeOf[paths[k]] == k)
    && (forall s :: s in nodeOf ==> nodeOf[s] < |paths| && paths[nodeOf[s]] == s)
    && (forall k :: 0 < k < |paths| ==> |paths[k]| > 0)
    && PrefixClosed(nodeOf.Keys)
    && (forall k, c {:trigger c in children[k]} {:trigger paths[k] + [c] in nodeOf} ::
          0 <= k < |children| ==> (c in children[k] <==> paths[k] + [c] in nodeOf))
    && (forall k, c {:trigger children[k][c]} ::
          0 <= k < |children| && c in children[k] ==> children[k][c] == nodeOf[paths[k] + [c]])
  }

  /** A child is a node other than the root, one character deeper. */
  lemma ChildIndex(children: seq<map<char, nat>>, paths: seq<string>, nodeOf: map<string, nat>, k: nat, c: char)
    requires TrieShape(children, paths, nodeOf) && k < |children| && c in children[k]
    ensures 0 < children[k][c] < |children| && paths[children[k][c]] == paths[k] + [c]
  {
    var s := paths[k] + [c];
    assert s in nodeOf && paths[nodeOf[s]] == s;
    assert s != paths[0];
  }

  /** The node one character up the trie. */
  ghost function Parent(children: seq<map<char, nat>>, paths: seq<string>, nodeOf: map<string, nat>, k: nat): (p: nat)
    requires TrieShape(children, paths, nodeOf) && 0 < k < |paths|
    ensures p < |paths| && paths[k] == paths[p] + [paths[k][|paths[k]| - 1]]
    ensures paths[k][|paths[k]| - 1] in children[p] && children[p][paths[k][|paths[k]| - 1]] == k
  {
    var s := paths[k];
    assert s == s[..|s| - 1] + [s[|s| - 1]];
    nodeOf[s[..|s| - 1]]
  }

  /** Before failure links exist: each node outputs its own path if that path
      is one of the phrases inserted so far, and nothing else. */
  ghost predicate TerminalOnly(nodes: seq<TrieNode>, paths: seq<string>, inserted: set<string>, k: nat)
  {
    && k < |nodes| == |paths|
    && Elems(nodes[k].output) == (if paths[k] in inserted then {paths[k]} else {})
  }

  /** Node k of the finished automaton: its failure link is the node of the
      longest proper suffix of its path that is a trie path (null for the
      root), and it outputs every phrase that ends its path. */
  ghost predicate Final(nodes: seq<TrieNode>, paths: seq<string>, nodeOf: map<string, nat>, phrases: set<string>, k: nat)
  {
    && k < |nodes| == |paths|
    && [] in nodeOf.Keys
    && (k == 0 ==> nodes[0].failureLink == -1)
    && (k != 0 ==> |paths[k]| > 0 && 0 <= nodes[k].failureLink < |nodes|
                   && paths[nodes[k].failureLink] == Longest(nodeOf.Keys, paths[k][1..]))
    && Elems(nodes[k].output) == SuffixPhrases(phrases, paths[k])
  }

  /** The automaton BuildTrie promises: every phrase is a trie path and every
      node is final. */
  ghost predicate Automaton(nodes: seq<TrieNode>, paths: seq<string>, nodeOf: map<string, nat>, phrases: set<string>)
  {
    && 0 < |nodes| == |paths|
    && TrieShape(Children(nodes), paths, nodeOf)
    && phrases <= nodeOf.Keys && [] !in phrases
    && forall k :: 0 <= k < |nodes| ==> Final(nodes, paths, nodeOf, phrases, k)
  }

  /** The state of BuildFailureLinks. `processed` holds the root and every
      node taken off the queue; `done` the nodes whose link and output are
      final. A node is done exactly when its parent has been processed and,
      for the node being processed (`current`), its key is no longer
      `pending` (every node but the root is the child of its parent). The
      queue holds done, unprocessed nodes, without repeats, in breadth-first
      (non-decreasing depth) order. */
  ghost predicate BfsInv(
    nodes: seq<TrieNode>, paths: seq<string>, nodeOf: map<string, nat>, phrases: set<string>,
    queue: seq<nat>, done: set<nat>, processed: set<nat>, current: nat, pending: set<char>)
  {
    && BfsNodes(nodes, paths, nodeOf, phrases, done)
    && 0 in processed && processed <= done
    && BfsDone(Children(nodes), done, processed, current, pending)
    && BfsQueue(paths, queue, done, processed)
  }

  /** Done nodes are final; the others still hold only their own phrase. */
  ghost predicate BfsNodes(nodes: seq<TrieNode>, paths: seq<string>, nodeOf: map<string, nat>,
                           phrases: set<string>, done: set<nat>)
  {
    && TrieShape(Children(nodes), paths, nodeOf)
    && phrases <= nodeOf.Keys && [] !in phrases
    && (forall k :: k in done ==> k < |nodes|)
    && (forall k :: 0 <= k < |nodes| && k in done ==> Final(nodes, paths, nodeOf, phrases, k))
    && (forall k :: 0 <= k < |nodes| && k !in done ==> TerminalOnly(nodes, paths, phrases, k))
  }

  /** A child is done exactly when its parent has been processed and its key
      is not pending. */
  ghost predicate BfsDone(children: seq<map<char, nat>>, done: set<nat>, processed: set<nat>, current: nat, pending: set<char>)
  {
    forall p, c {:trigger children[p][c]} :: 0 <= p < |children| && c in children[p] ==>
      (children[p][c] in done <==> p in processed && !(p == current && c in pending))
  }

  /** The queue: done and unprocessed nodes, each once, by depth, spanning at
      most two depths; every done node is processed or queued. */
  ghost predicate BfsQueue(paths: seq<string>, queue: seq<nat>, done: set<nat>, processed: set<nat>)
  {
    && (forall i :: 0 <= i < |queue| ==> queue[i] in done && queue[i] !in processed && queue[i] < |paths|)
    && (forall k :: k in done ==> k in processed || k in queue)
    && NoDuplicates(queue)
    && (forall i, j :: 0 <= i < j < |queue| ==> |paths[queue[i]]| <= |paths[queue[j]]|)
    && (|queue| > 0 ==> |paths[queue[|queue| - 1]]| <= |paths[queue[0]]| + 1)
  }

  /** Adding the child `ch` under node `cur` keeps the trie well formed. */
  lemma AddChildShape(children: seq<map<char, nat>>, paths: seq<string>, nodeOf: map<string, nat>, cur: nat, ch: char)
    requires TrieShape(children, paths, nodeOf) && cur < |children| && ch !in children[cur]
    ensures
      var k: nat := |children|;
      var s := paths[cur] + [ch];
      var m: map<char, nat> := children[cur][ch := k];
      TrieShape(children[cur := m] + [map[]], paths + [s], nodeOf[s := k])
  {
    var k: nat := |children|;
    var s := paths[cur] + [ch];
    var m: map<char, nat> := children[cur][ch := k];
    var children' := children[cur := m] + [map[]];
    AddChildPaths(children, paths, nodeOf, cur, ch);
    AddChildKeys(children, paths, nodeOf, cur, ch, m, children');
    AddChildValues(children, paths, nodeOf, cur, ch, m, children');
  }

  /** The path/node correspondence and prefix closure after adding a child. */
  lemma AddChildPaths(children: seq<map<char, nat>>, paths: seq<string>, nodeOf: map<string, nat>, cur: nat, ch: char)
    requires TrieShape(children, paths, nodeOf) && cur < |children| && ch !in children[cur]
    ensures
      var s := paths[cur] + [ch];
      var paths', nodeOf' := paths + [s], nodeOf[s := |children|];
      && paths'[0] == []
      && (forall k :: 0 <= k < |paths'| ==> paths'[k] in nodeOf' && nodeOf'[paths'[k]] == k)
      && (forall t :: t in nodeOf' ==> nodeOf'[t] < |paths'| && paths'[nodeOf'[t]] == t)
      && (forall k :: 0 < k < |paths'| ==> |paths'[k]| > 0)
      && PrefixClosed(nodeOf'.Keys)
  {
    var s := paths[cur] + [ch];
    var nodeOf' := nodeOf[s := |children|];
    assert s !in nodeOf;
    forall t, c | t + [c] in nodeOf'.Keys ensures t in nodeOf'.Keys {
      AppendOneInjective(t, c, paths[cur], ch);
    }
  }

  /** The child keys after adding a child are the one-character extensions. */
  lemma AddChildKeys(children: seq<map<char, nat>>, paths: seq<string>, nodeOf: map<string, nat>, cur: nat, ch: char,
                     m: map<char, nat>, children': seq<map<char, nat>>)
    requires TrieShape(children, paths, nodeOf) && cur < |children| && ch !in children[cur]
    requires m == children[cur][ch := |children|] && children' == children[cur := m] + [map[]]
    ensures
      var s := paths[cur] + [ch];
      var paths', nodeOf' := paths + [s], nodeOf[s := |children|];
      forall k, c {:trigger c in children'[k]} {:trigger paths'[k] + [c] in nodeOf'} ::
        0 <= k < |children'| ==> (c in children'[k] <==> paths'[k] + [c] in nodeOf')
  {
    var s := paths[cur] + [ch];
    var paths', nodeOf' := paths + [s], nodeOf[s := |children|];
    assert s !in nodeOf;
    forall j, c | 0 <= j < |children'| ensures (c in children'[j] <==> paths'[j] + [c] in nodeOf') {
      AppendOneInjective(paths'[j], c, paths[cur], ch);
    }
  }

  /** Each child entry after adding a child names its path's node. */
  lemma AddChildValues(children: seq<map<char, nat>>, paths: seq<string>, nodeOf: map<string, nat>, cur: nat, ch: char,
                       m: map<char, nat>, children': seq<map<char, nat>>)
    requires TrieShape(children, paths, nodeOf) && cur < |children| && ch !in children[cur]
    requires m == children[cur][ch := |children|] && children' == children[cur := m] + [map[]]
    ensures
      var s := paths[cur] + [ch];
      var paths', nodeOf' := paths + [s], nodeOf[s := |children|];
      forall k, c {:trigger children'[k][c]} ::
        0 <= k < |children'| && c in children'[k] ==> children'[k][c] == nodeOf'[paths'[k] + [c]]
  {
    var s := paths[cur] + [ch];
    var paths', nodeOf' := paths + [s], nodeOf[s := |children|];
    assert s !in nodeOf;
    forall j, c | 0 <= j < |children'| && c in children'[j]
      ensures children'[j][c] == nodeOf'[paths'[j] + [c]]
    {
      AppendOneInjective(paths'[j], c, paths[cur], ch);
    }
  }

  lemma AppendOneInjective(u: string, c: char, v: string, d: char)
    ensures u + [c] == v + [d] ==> u == v && c == d
  {
    if u + [c] == v + [d] {
      assert u == (u + [c])[..|u|] && v == (v + [d])[..|v|];
      assert c == (u + [c])[|u|];
    }
  }

  /** The child maps after a new child node is appended. */
  lemma ChildrenAfterAdd(nodes: seq<TrieNode>, cur: nat, ch: char)
    requires cur < |nodes|
    ensures
      var k: nat := |nodes|;
      Children(nodes[cur := nodes[cur].(children := nodes[cur].children[ch := k])] + [EmptyNode])
        == Children(nodes)[cur := nodes[cur].children[ch := k]] + [map[]]
  {
  }

  /** Rewriting a node's failure link or output leaves the child maps alone. */
  lemma ChildrenAfterUpdate(nodes: seq<TrieNode>, k: nat, n: TrieNode)
    requires k < |nodes| && n.children == nodes[k].children
    ensures Children(nodes[k := n]) == Children(nodes)
  {
  }

  /** While node `current` is processed and every queued node is at least
      as deep, every node no deeper than `current` is done. */
  lemma {:induction false} ShallowIsDone(
    nodes: seq<TrieNode>, paths: seq<string>, nodeOf: map<string, nat>, phrases: set<string>,
    queue: seq<nat>, done: set<nat>, processed: set<nat>, current: nat, pending: set<char>, k: nat)
    requires BfsInv(nodes, paths, nodeOf, phrases, queue, done, processed, current, pending)
    requires current < |nodes|
    requires forall i :: 0 <= i < |queue| ==> |paths[queue[i]]| >= |paths[current]|
    requires k < |nodes|
    ensures |paths[k]| <= |paths[current]| ==> k in done
    decreases |paths[k]|
  {
    if k !in done {
      var ch := Children(nodes);
      var p := Parent(ch, paths, nodeOf, k);
      var c := paths[k][|paths[k]| - 1];
      assert ch[p][c] == k;
      assert p in processed ==> p == current && c in pending;
      if p !in processed {
        if p in done {
          var i :| 0 <= i < |queue| && queue[i] == p;
        } else {
          ShallowIsDone(nodes, paths, nodeOf, phrases, queue, done, processed, current, pending, p);
        }
      }
    }
  }

  /** When the queue is empty and nothing is pending, every node is done. */
  lemma {:induction false} QueueEmptyAllDone(
    nodes: seq<TrieNode>, paths: seq<string>, nodeOf: map<string, nat>, phrases: set<string>,
    done: set<nat>, processed: set<nat>, current: nat, k: nat)
    requires BfsInv(nodes, paths, nodeOf, phrases, [], done, processed, current, {})
    requires k < |nodes|
    ensures k in done
    decreases |paths[k]|
  {
    if k != 0 {
      var p := Parent(Children(nodes), paths, nodeOf, k);
      QueueEmptyAllDone(nodes, paths, nodeOf, phrases, done, processed, current, p);
    }
  }

  /** The state before the root's children are linked. */
  lemma BfsStart(nodes: seq<TrieNode>, paths: seq<string>, nodeOf: map<string, nat>, phrases: set<string>)
    requires TrieShape(Children(nodes), paths, nodeOf) && phrases <= nodeOf.Keys && [] !in phrases
    requires nodes[0].failureLink == -1
    requires forall k :: 0 <= k < |nodes| ==> TerminalOnly(nodes, paths, phrases, k)
    ensures BfsInv(nodes, paths, nodeOf, phrases, [], {0}, {0}, 0, nodes[0].children.Keys)
  {
    assert Final(nodes, paths, nodeOf, phrases, 0) by {
      assert TerminalOnly(nodes, paths, phrases, 0);
      RootOutput(phrases);
    }
    var ch := Children(nodes);
    forall p, c | 0 <= p < |ch| && c in ch[p]
      ensures (ch[p][c] in {0} <==> p in {0} && !(p == 0 && c in nodes[0].children.Keys))
    {
      ChildIndex(ch, paths, nodeOf, p, c);
    }
  }

  /** Taking `current` off the front of the queue: it becomes processed and
      all of its children become pending. */
  lemma BfsDequeue(
    nodes: seq<TrieNode>, paths: seq<string>, nodeOf: map<string, nat>, phrases: set<string>,
    queue: seq<nat>, done: set<nat>, processed: set<nat>, last: nat)
    requires BfsInv(nodes, paths, nodeOf, phrases, queue, done, processed, last, {}) && |queue| > 0
    ensures queue[0] < |nodes|
    ensures BfsInv(nodes, paths, nodeOf, phrases, queue[1..], done, processed + {queue[0]}, queue[0],
                   nodes[queue[0]].children.Keys)
    ensures forall i :: 0 <= i < |queue| - 1 ==>
      |paths[queue[0]]| <= |paths[queue[1..][i]]| <= |paths[queue[0]]| + 1
  {
    assert queue[0] !in processed;
    DequeueDone(Children(nodes), done, processed, last, queue[0]);
    DequeueQueue(paths, queue, done, processed);
  }

  lemma DequeueDone(children: seq<map<char, nat>>, done: set<nat>, processed: set<nat>, last: nat, q: nat)
    requires BfsDone(children, done, processed, last, {}) && q < |children| && q !in processed
    ensures BfsDone(children, done, processed + {q}, q, children[q].Keys)
  {
    forall p, c | 0 <= p < |children| && c in children[p]
      ensures (children[p][c] in done <==> p in processed + {q} && !(p == q && c in children[q].Keys))
    {
      assert children[p][c] in done <==> p in processed && !(p == last && c in {});
    }
  }

  lemma DequeueQueue(paths: seq<string>, queue: seq<nat>, done: set<nat>, processed: set<nat>)
    requires BfsQueue(paths, queue, done, processed) && |queue| > 0
    ensures BfsQueue(paths, queue[1..], done, processed + {queue[0]})
    ensures forall i :: 0 <= i < |queue| - 1 ==>
      |paths[queue[0]]| <= |paths[queue[1..][i]]| <= |paths[queue[0]]| + 1
  {
    DequeueMembers(paths, queue, done, processed);
    DequeueOrder(paths, queue, done, processed);
  }

  /** After taking the head off the queue, the rest is still done and
      unprocessed, and every done node is processed or still queued. */
  lemma DequeueMembers(paths: seq<string>, queue: seq<nat>, done: set<nat>, processed: set<nat>)
    requires BfsQueue(paths, queue, done, processed) && |queue| > 0
    ensures forall i :: 0 <= i < |queue| - 1 ==>
      queue[1..][i] in done && queue[1..][i] !in processed + {queue[0]} && queue[1..][i] < |paths|
    ensures forall k :: k in done ==> k in processed + {queue[0]} || k in queue[1..]
  {
    var q := queue[0];
    var queue' := queue[1..];
    forall i | 0 <= i < |queue'| ensures queue'[i] in done && queue'[i] !in processed + {q} && queue'[i] < |paths| {
      assert queue'[i] == queue[i + 1];
    }
    forall k | k in done ensures k in processed + {q} || k in queue' {
      if k !in processed && k != q {
        var i :| 0 <= i < |queue| && queue[i] == k;
        assert queue'[i - 1] == k;
      }
    }
  }

  /** After taking the head off the queue, the rest keeps its order and
      depth band, which starts at the head's depth. */
  lemma DequeueOrder(paths: seq<string>, queue: seq<nat>, done: set<nat>, processed: set<nat>)
    requires BfsQueue(paths, queue, done, processed) && |queue| > 0
    ensures forall i, j :: 0 <= i < j < |queue| - 1 ==>
      queue[1..][i] != queue[1..][j] && |paths[queue[1..][i]]| <= |paths[queue[1..][j]]|
    ensures forall i :: 0 <= i < |queue| - 1 ==>
      |paths[queue[0]]| <= |paths[queue[1..][i]]| <= |paths[queue[0]]| + 1
  {
    var q := queue[0];
    var queue' := queue[1..];
    forall i, j | 0 <= i < j < |queue'| ensures queue'[i] != queue'[j] && |paths[queue'[i]]| <= |paths[queue'[j]]| {
      assert queue'[i] == queue[i + 1] && queue'[j] == queue[j + 1];
    }
    forall i | 0 <= i < |queue'| ensures |paths[q]| <= |paths[queue'[i]]| <= |paths[q]| + 1 {
      assert queue'[i] == queue[i + 1];
    }
  }

  /** The root's child `child` is final once linked to the root. */
  lemma RootChildFinal(nodes: seq<TrieNode>, paths: seq<string>, nodeOf: map<string, nat>, phrases: set<string>, child: nat)
    requires [] in nodeOf.Keys && [] !in phrases
    requires 0 < child < |paths| && |paths[child]| == 1 && paths[0] == []
    requires TerminalOnly(nodes, paths, phrases, child)
    ensures Final(nodes[child := nodes[child].(failureLink := 0)], paths, nodeOf, phrases, child)
  {
    var x := paths[child];
    forall p | p in phrases && IsSuffix(p, x) ensures p == x {
      assert |p| == 1;
    }
  }

  /** A child whose failure link is `target` is final once its output is
      extended with the (final) output of `target`. */
  lemma ChildFinal(nodes: seq<TrieNode>, paths: seq<string>, nodeOf: map<string, nat>, phrases: set<string>,
                   child: nat, target: nat)
    requires PrefixClosed(nodeOf.Keys) && phrases <= nodeOf.Keys
    requires 0 < child < |paths| && target < |paths| && |paths[child]| > 0
    requires paths[target] == Longest(nodeOf.Keys, paths[child][1..])
    requires Final(nodes, paths, nodeOf, phrases, target)
    requires TerminalOnly(nodes, paths, phrases, child)
    ensures Final(nodes[child := nodes[child].(failureLink := target,
                                              output := nodes[child].output + nodes[target].output)],
                  paths, nodeOf, phrases, child)
  {
    OutputStep(nodeOf.Keys, phrases, paths[child]);
    var out := nodes[child].output + nodes[target].output;
    assert Elems(out) == Elems(nodes[child].output) + Elems(nodes[target].output);
  }

  /** Recording a newly final child of `current` keeps the construction state. */
  lemma BfsFinishChild(
    nodes: seq<TrieNode>, paths: seq<string>, nodeOf: map<string, nat>, phrases: set<string>,
    queue: seq<nat>, done: set<nat>, processed: set<nat>, current: nat, pending: set<char>,
    c: char, n: TrieNode)
    requires BfsInv(nodes, paths, nodeOf, phrases, queue, done, processed, current, pending)
    requires current in processed && c in pending && current < |nodes| && c in nodes[current].children
    requires var child := nodes[current].children[c];
      && child < |nodes| && n.children == nodes[child].children
      && Final(nodes[child := n], paths, nodeOf, phrases, child)
    requires forall i :: 0 <= i < |queue| ==> |paths[queue[i]]| <= |paths[current]| + 1
    requires |queue| > 0 ==> |paths[current]| <= |paths[queue[0]]|
    ensures var child := nodes[current].children[c];
      BfsInv(nodes[child := n], paths, nodeOf, phrases, queue + [child], done + {child}, processed,
             current, pending - {c})
  {
    var ch := Children(nodes);
    var child := ch[current][c];
    ChildrenAfterUpdate(nodes, child, n);
    ChildIndex(ch, paths, nodeOf, current, c);
    FinishDone(ch, paths, nodeOf, done, processed, current, pending, c);
    FinishNodes(nodes, paths, nodeOf, phrases, done, child, n);
    assert child !in done;
    FinishQueue(paths, queue, done, processed, child);
  }

  lemma FinishDone(children: seq<map<char, nat>>, paths: seq<string>, nodeOf: map<string, nat>,
                   done: set<nat>, processed: set<nat>, current: nat, pending: set<char>, c: char)
    requires TrieShape(children, paths, nodeOf) && BfsDone(children, done, processed, current, pending)
    requires current in processed && c in pending && current < |children| && c in children[current]
    ensures BfsDone(children, done + {children[current][c]}, processed, current, pending - {c})
  {
    var child := children[current][c];
    ChildIndex(children, paths, nodeOf, current, c);
    forall p, c' {:trigger children[p][c']} | 0 <= p < |children| && c' in children[p]
      ensures (children[p][c'] in done + {child} <==> p in processed && !(p == current && c' in pending - {c}))
    {
      ChildIndex(children, paths, nodeOf, p, c');
      AppendOneInjective(paths[p], c', paths[current], c);
      if p != current || c' != c {
        assert paths[children[p][c']] != paths[child];
        assert children[p][c'] in done <==> p in processed && !(p == current && c' in pending);
      }
    }
  }

  lemma FinishNodes(nodes: seq<TrieNode>, paths: seq<string>, nodeOf: map<string, nat>, phrases: set<string>,
                    done: set<nat>, child: nat, n: TrieNode)
    requires BfsNodes(nodes, paths, nodeOf, phrases, done)
    requires child < |nodes| && n.children == nodes[child].children
    requires Final(nodes[child := n], paths, nodeOf, phrases, child)
    ensures BfsNodes(nodes[child := n], paths, nodeOf, phrases, done + {child})
  {
    var nodes' := nodes[child := n];
    ChildrenAfterUpdate(nodes, child, n);
    forall k | 0 <= k < |nodes'| && k in done + {child} ensures Final(nodes', paths, nodeOf, phrases, k) {
      if k != child {
        assert nodes'[k] == nodes[k];
      }
    }
    forall k | 0 <= k < |nodes'| && k !in done + {child} ensures TerminalOnly(nodes', paths, phrases, k) {
      assert nodes'[k] == nodes[k];
    }
  }

  lemma FinishQueue(paths: seq<string>, queue: seq<nat>, done: set<nat>, processed: set<nat>, child: nat)
    requires BfsQueue(paths, queue, done, processed)
    requires child !in done && child !in processed && child < |paths|
    requires forall i :: 0 <= i < |queue| ==> |paths[queue[i]]| <= |paths[child]|
    requires |queue| > 0 ==> |paths[child]| <= |paths[queue[0]]| + 1
    ensures BfsQueue(paths, queue + [child], done + {child}, processed)
  {
    var q' := queue + [child];
    forall i, j | 0 <= i < j < |q'| ensures q'[i] != q'[j] && |paths[q'[i]]| <= |paths[q'[j]]| {
      if j == |queue| {
        assert q'[i] == queue[i];
      }
    }
  }

  /** One failure step of a walk looking for a c-transition: from a final
      node f without one, the walk moves to f's failure link, which ends a
      shorter suffix of w, or leaves the root, when no suffix of w at all can
      be extended by c. */
  lemma FailureStep(nodes: seq<TrieNode>, paths: seq<string>, nodeOf: map<string, nat>, phrases: set<string>,
                    w: string, c: char, f: nat)
    requires TrieShape(Children(nodes), paths, nodeOf)
    requires f < |nodes| && Final(nodes, paths, nodeOf, phrases, f) && c !in nodes[f].children
    requires IsSuffix(paths[f], w) && WalkInv(nodeOf.Keys, w, c, |paths[f]|)
    ensures var g := nodes[f].failureLink;
      && (g == -1 <==> f == 0)
      && (g == -1 ==> WalkInv(nodeOf.Keys, w, c, -1))
      && (g != -1 ==> 0 <= g < |nodes| && |paths[g]| < |paths[f]| && IsSuffix(paths[g], w)
                      && WalkInv(nodeOf.Keys, w, c, |paths[g]|))
  {
    var ch := Children(nodes);
    assert c !in ch[f];
    assert paths[f] + [c] !in nodeOf;
    if f == 0 {
      assert paths[f] + [c] == [c];
      WalkExhausted(nodeOf.Keys, w, c);
    } else {
      WalkStep(nodeOf.Keys, w, c, paths[f]);
    }
  }

  /** Where a walk ends: the c-child of the node it stopped at, or the root
      when it fell off; either way the node of the longest suffix of w + [c]
      that is a trie path. */
  lemma WalkTarget(nodes: seq<TrieNode>, paths: seq<string>, nodeOf: map<string, nat>, w: string, c: char, f: int)
    requires TrieShape(Children(nodes), paths, nodeOf)
    requires f == -1 ==> WalkInv(nodeOf.Keys, w, c, -1)
    requires f != -1 ==> 0 <= f < |nodes| && c in nodes[f].children && IsSuffix(paths[f], w)
                         && WalkInv(nodeOf.Keys, w, c, |paths[f]|)
    ensures var t := if f != -1 then nodes[f].children[c] else 0;
      t < |nodes| && paths[t] == Longest(nodeOf.Keys, w + [c])
  {
    if f != -1 {
      var ch := Children(nodes);
      ChildIndex(ch, paths, nodeOf, f, c);
      WalkHit(nodeOf.Keys, w, c, paths[f]);
    } else {
      WalkMiss(nodeOf.Keys, w, c);
    }
  }

  /** Appending a fresh child during insertion keeps the trie well formed and
      every existing node's output as it was; the new node outputs nothing. */
  lemma InsertChild(nodes: seq<TrieNode>, paths: seq<string>, nodeOf: map<string, nat>, inserted: set<string>,
                    cur: nat, ch: char)
    requires TrieShape(Children(nodes), paths, nodeOf) && cur < |nodes| && ch !in nodes[cur].children
    requires inserted <= nodeOf.Keys && nodes[0].failureLink == -1
    requires forall k :: 0 <= k < |nodes| ==> TerminalOnly(nodes, paths, inserted, k)
    ensures
      var k: nat := |nodes|;
      var s := paths[cur] + [ch];
      var nodes' := nodes[cur := nodes[cur].(children := nodes[cur].children[ch := k])] + [EmptyNode];
      && TrieShape(Children(nodes'), paths + [s], nodeOf[s := k])
      && inserted <= nodeOf[s := k].Keys && nodes'[0].failureLink == -1
      && forall j :: 0 <= j < |nodes'| ==> TerminalOnly(nodes', paths + [s], inserted, j)
  {
    var k: nat := |nodes|;
    var s := paths[cur] + [ch];
    var nodes' := nodes[cur := nodes[cur].(children := nodes[cur].children[ch := k])] + [EmptyNode];
    ChildrenAfterAdd(nodes, cur, ch);
    AddChildShape(Children(nodes), paths, nodeOf, cur, ch);
    assert s !in nodeOf;
    forall j | 0 <= j < |nodes'| ensures TerminalOnly(nodes', paths + [s], inserted, j) {
      if j < k {
        assert nodes'[j].output == nodes[j].output && (paths + [s])[j] == paths[j];
        assert TerminalOnly(nodes, paths, inserted, j);
      }
    }
  }

  /** Recording a phrase at the node of its path. */
  lemma MarkTerminal(nodes: seq<TrieNode>, paths: seq<string>, nodeOf: map<string, nat>, inserted: set<string>,
                     cur: nat, org: string)
    requires TrieShape(Children(nodes), paths, nodeOf) && cur < |nodes| && paths[cur] == org
    requires inserted <= nodeOf.Keys && nodes[0].failureLink == -1
    requires forall k :: 0 <= k < |nodes| ==> TerminalOnly(nodes, paths, inserted, k)
    ensures
      var nodes' := nodes[cur := nodes[cur].(output := nodes[cur].output + [org])];
      && TrieShape(Children(nodes'), paths, nodeOf)
      && inserted + {org} <= nodeOf.Keys && nodes'[0].failureLink == -1
      && forall j :: 0 <= j < |nodes'| ==> TerminalOnly(nodes', paths, inserted + {org}, j)
  {
    var nodes' := nodes[cur := nodes[cur].(output := nodes[cur].output + [org])];
    ChildrenAfterUpdate(nodes, cur, nodes'[cur]);
    forall j | 0 <= j < |nodes'| ensures TerminalOnly(nodes', paths, inserted + {org}, j) {
      assert TerminalOnly(nodes, paths, inserted, j);
      if j == cur {
        assert Elems(nodes'[j].output) == Elems(nodes[j].output) + {org};
      } else {
        assert paths[j] != org;
      }
    }
  }
}
