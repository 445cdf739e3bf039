/**
 * The string theory behind the Aho-Corasick automaton. P is the set of trie
 * paths (closed under prefixes, containing the empty path), Q the set of
 * phrases. A scan state is the longest suffix of the text read so far that is
 * a trie path; a failure link points to the longest proper suffix of a path
 * that is a trie path; the failure chain of a path visits, longest first,
 * every suffix of it that is a trie path.
 */
module Suffixes {
  import opened StringNormalizer

  /** v is a suffix of w. */
  predicate IsSuffix(v: string, w: string)
  {
    |v| <= |w| && forall i :: 0 <= i < |v| ==> v[i] == w[|w| - |v| + i]
  }

  /** The set of trie paths: the empty path is in it, and it is closed under
      taking prefixes. */
  ghost predicate PrefixClosed(P: set<string>)
  {
    && [] in P
    && forall s, c :: s + [c] in P ==> s in P
  }

  lemma SuffixTrans(u: string, v: string, w: string)
    requires IsSuffix(u, v) && IsSuffix(v, w)
    ensures IsSuffix(u, w)
  {
    assert w[|w| - |u|..] == w[|w| - |v|..][|v| - |u|..];
  }

  /** Of two suffixes of the same string, the shorter is a suffix of the longer. */
  lemma SuffixOrder(u: string, v: string, w: string)
    requires IsSuffix(u, w) && IsSuffix(v, w) && |u| <= |v|
    ensures IsSuffix(u, v)
  {
    assert v[|v| - |u|..] == w[|w| - |v|..][|v| - |u|..];
  }

  /** A suffix shorter than w is a suffix of w without its first character. */
  lemma SuffixOfTail(v: string, w: string)
    requires IsSuffix(v, w) && |v| < |w|
    ensures IsSuffix(v, w[1..])
  {
    assert w[1..][|w[1..]| - |v|..] == w[|w| - |v|..];
  }

  /** The only suffix of w as long as w is w itself. */
  lemma SuffixSameLength(v: string, w: string)
    requires IsSuffix(v, w)
    ensures |v| == |w| ==> v == w
  {
    if |v| == |w| {
      assert v == w;
    }
  }

  /** A non-empty suffix of w + [c] is a suffix of w followed by c. */
  lemma SuffixSplit(x: string, w: string, c: char)
    requires IsSuffix(x, w + [c]) && |x| > 0
    ensures x == x[..|x| - 1] + [c] && IsSuffix(x[..|x| - 1], w)
  {
    var u := x[..|x| - 1];
    assert x == u + [x[|x| - 1]];
    assert (w + [c])[|w| + 1 - |x|..] == w[|w| - |u|..] + [c];
  }

  /** Appending the same character keeps a suffix a suffix. */
  lemma SuffixAppend(v: string, w: string, c: char)
    requires IsSuffix(v, w)
    ensures IsSuffix(v + [c], w + [c])
  {
  }

  /** The longest suffix of w that is in P. */
  ghost function Longest(P: set<string>, w: string): (r: string)
    requires [] in P
    ensures r in P && IsSuffix(r, w)
    ensures forall v {:trigger IsSuffix(v, w)} :: v in P && IsSuffix(v, w) ==> |v| <= |r|
    decreases |w|
  {
    if w in P then w
    else
      var r := Longest(P, w[1..]);
      assert IsSuffix(r, w) by { SuffixTrans(r, w[1..], w); }
      assert forall v :: v in P && IsSuffix(v, w) ==> |v| <= |r| by {
        forall v | v in P && IsSuffix(v, w) ensures |v| <= |r| {
          SuffixSameLength(v, w);
          SuffixOfTail(v, w);
        }
      }
      r
  }

  /** Every suffix of w in P is a suffix of Longest(P, w). */
  lemma SuffixOfLongest(P: set<string>, v: string, w: string)
    requires [] in P && v in P && IsSuffix(v, w)
    ensures IsSuffix(v, Longest(P, w))
  {
    SuffixOrder(v, Longest(P, w), w);
  }

  /** No suffix of w longer than n can be extended by c inside P: the state
      of a failure-link walk that has looked at every longer suffix. */
  ghost predicate WalkInv(P: set<string>, w: string, c: char, n: int)
  {
    forall u :: IsSuffix(u, w) && |u| > n ==> u + [c] !in P
  }

  /** The walk starts at the longest suffix of w in P. */
  lemma WalkStart(P: set<string>, w: string, c: char)
    requires PrefixClosed(P)
    ensures WalkInv(P, w, c, |Longest(P, w)|)
  {
    forall u | IsSuffix(u, w) && |u| > |Longest(P, w)| ensures u + [c] !in P {
    }
  }

  /** One failure step: from a trie path v that cannot be extended by c, the
      walk moves to the longest proper suffix of v in P. */
  lemma WalkStep(P: set<string>, w: string, c: char, v: string)
    requires PrefixClosed(P) && v in P && IsSuffix(v, w) && |v| > 0
    requires WalkInv(P, w, c, |v|) && v + [c] !in P
    ensures IsSuffix(Longest(P, v[1..]), w)
    ensures |Longest(P, v[1..])| < |v|
    ensures WalkInv(P, w, c, |Longest(P, v[1..])|)
  {
    var f := Longest(P, v[1..]);
    SuffixTrans(f, v[1..], v);
    SuffixTrans(f, v, w);
    forall u | IsSuffix(u, w) && |u| > |f| ensures u + [c] !in P {
      if |u| == |v| {
        assert u == v;
      } else if |u| < |v| {
        SuffixOrder(u, v, w);
        SuffixOfTail(u, v);
        assert u !in P;
      }
    }
  }

  /** At the empty path, a missing c-transition ends the walk: no suffix of
      w at all can be extended by c. */
  lemma WalkExhausted(P: set<string>, w: string, c: char)
    requires WalkInv(P, w, c, 0) && [c] !in P
    ensures WalkInv(P, w, c, -1)
  {
    forall u | IsSuffix(u, w) && |u| > -1 ensures u + [c] !in P {
      if |u| == 0 {
        assert u + [c] == [c];
      }
    }
  }

  /** The walk succeeds at v: v + [c] is the longest suffix of w + [c] in P. */
  lemma WalkHit(P: set<string>, w: string, c: char, v: string)
    requires PrefixClosed(P) && IsSuffix(v, w)
    requires WalkInv(P, w, c, |v|) && v + [c] in P
    ensures Longest(P, w + [c]) == v + [c]
  {
    var l := Longest(P, w + [c]);
    SuffixAppend(v, w, c);
    SuffixSplit(l, w, c);
    SuffixOrder(v + [c], l, w + [c]);
    SuffixSameLength(v + [c], l);
  }

  /** The walk fell off the root: the longest suffix of w + [c] in P is empty. */
  lemma WalkMiss(P: set<string>, w: string, c: char)
    requires PrefixClosed(P) && WalkInv(P, w, c, -1)
    ensures Longest(P, w + [c]) == []
  {
    var l := Longest(P, w + [c]);
    if |l| > 0 {
      SuffixSplit(l, w, c);
    }
  }

  /** The phrases of Q that end the string x. */
  ghost function SuffixPhrases(Q: set<string>, x: string): set<string>
  {
    set p | p in Q && IsSuffix(p, x)
  }

  /** Output(x) = own phrase + Output(failure(x)): a phrase ending x is x
      itself or ends the longest proper suffix of x in P. */
  lemma OutputStep(P: set<string>, Q: set<string>, x: string)
    requires PrefixClosed(P) && Q <= P && |x| > 0
    ensures SuffixPhrases(Q, x) ==
      (if x in Q then {x} else {}) + SuffixPhrases(Q, Longest(P, x[1..]))
  {
    var f := Longest(P, x[1..]);
    var lhs := SuffixPhrases(Q, x);
    var rhs := (if x in Q then {x} else {}) + SuffixPhrases(Q, f);
    forall p | p in rhs ensures p in lhs {
      if p != x {
        OutputViaFailure(P, Q, x, p);
      }
    }
    forall p | p in lhs ensures p in rhs {
      if p != x {
        OutputOfFailure(P, Q, x, p);
      }
    }
  }

  lemma OutputViaFailure(P: set<string>, Q: set<string>, x: string, p: string)
    requires PrefixClosed(P) && |x| > 0
    requires p in SuffixPhrases(Q, Longest(P, x[1..]))
    ensures p in SuffixPhrases(Q, x)
  {
    var f := Longest(P, x[1..]);
    SuffixTrans(f, x[1..], x);
    SuffixTrans(p, f, x);
  }

  lemma OutputOfFailure(P: set<string>, Q: set<string>, x: string, p: string)
    requires PrefixClosed(P) && Q <= P && |x| > 0
    requires p in SuffixPhrases(Q, x) && p != x
    ensures p in SuffixPhrases(Q, Longest(P, x[1..]))
  {
    assert |p| < |x|;
    SuffixOfTail(p, x);
    SuffixOfLongest(P, p, x[1..]);
  }

  /** The empty path ends no phrase when Q holds no empty string. */
  lemma RootOutput(Q: set<string>)
    requires [] !in Q
    ensures SuffixPhrases(Q, []) == {}
  {
  }

  /** The phrases of Q that end somewhere within text[..i]. */
  ghost function EndingWithin(Q: set<string>, text: string, i: nat): set<string>
    requires i <= |text|
  {
    set p | p in Q && exists j :: 0 < j <= i && IsSuffix(p, text[..j])
  }

  /** Reading text[i] adds exactly the phrases ending the new scan state. */
  lemma {:induction false} ScanStep(P: set<string>, Q: set<string>, text: string, i: nat)
    requires [] in P && Q <= P && i < |text|
    ensures EndingWithin(Q, text, i + 1) ==
      EndingWithin(Q, text, i) + SuffixPhrases(Q, Longest(P, text[..i + 1]))
  {
    ScanKeeps(Q, text, i);
    ScanAdds(P, Q, text, i);
    ScanOnlyAdds(P, Q, text, i);
    UnionOfParts(EndingWithin(Q, text, i), SuffixPhrases(Q, Longest(P, text[..i + 1])), EndingWithin(Q, text, i + 1));
  }

  lemma UnionOfParts<T>(a: set<T>, b: set<T>, c: set<T>)
    requires a <= c && b <= c && c <= a + b
    ensures c == a + b
  {
  }

  lemma ScanKeeps(Q: set<string>, text: string, i: nat)
    requires i < |text|
    ensures EndingWithin(Q, text, i) <= EndingWithin(Q, text, i + 1)
  {
  }

  lemma ScanAdds(P: set<string>, Q: set<string>, text: string, i: nat)
    requires [] in P && i < |text|
    ensures SuffixPhrases(Q, Longest(P, text[..i + 1])) <= EndingWithin(Q, text, i + 1)
  {
    var l := Longest(P, text[..i + 1]);
    forall p | p in SuffixPhrases(Q, l) ensures p in EndingWithin(Q, text, i + 1) {
      SuffixTrans(p, l, text[..i + 1]);
    }
  }

  lemma ScanOnlyAdds(P: set<string>, Q: set<string>, text: string, i: nat)
    requires [] in P && Q <= P && i < |text|
    ensures EndingWithin(Q, text, i + 1) <= EndingWithin(Q, text, i) + SuffixPhrases(Q, Longest(P, text[..i + 1]))
  {
    var l := Longest(P, text[..i + 1]);
    forall p | p in EndingWithin(Q, text, i + 1)
      ensures p in EndingWithin(Q, text, i) || p in SuffixPhrases(Q, l)
    {
      var j :| 0 < j <= i + 1 && IsSuffix(p, text[..j]);
      if j == i + 1 {
        SuffixOfLongest(P, p, text[..i + 1]);
      } else {
        assert 0 < j <= i && IsSuffix(p, text[..j]);
      }
    }
  }

  /** After the whole text, the phrases found are exactly those occurring in it. */
  lemma EndingWithinAll(Q: set<string>, text: string)
    requires [] !in Q
    ensures EndingWithin(Q, text, |text|) == set p | p in Q && Occurs(text, p)
  {
    forall p | p in Q && Occurs(text, p) ensures p in EndingWithin(Q, text, |text|) {
      var i :| 0 <= i <= |text| - |p| && OccursAt(text, p, i);
      var j := i + |p|;
      assert p != [];
      assert text[..j][j - |p|..] == text[i..i + |p|];
      assert IsSuffix(p, text[..j]);
    }
    forall p | p in EndingWithin(Q, text, |text|) ensures Occurs(text, p) {
      var j :| 0 < j <= |text| && IsSuffix(p, text[..j]);
      var i := j - |p|;
      assert text[i..i + |p|] == text[..j][j - |p|..];
      assert OccursAt(text, p, i);
    }
  }
}
