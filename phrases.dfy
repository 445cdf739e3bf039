/**
 * The contract every matcher implements (the IAlgorithm interface), stated
 * once as functions: which denylist phrases survive normalisation, and when
 * a line or a block counts as containing one of them.
 */
module Phrases {
  import opened StringNormalizer

  /** The elements of a list, as a set. */
  function Elems<T>(s: seq<T>): set<T>
  {
    set x | x in s
  }

  /** bannedOrganizations.Select(Normalize).Where(org => !IsNullOrWhiteSpace(org)). */
  function NormalizeAll(banned: seq<string>): (r: seq<string>)
    ensures |r| <= |banned|
  {
    if |banned| == 0 then []
    else
      var front := NormalizeAll(banned[..|banned| - 1]);
      var last := banned[|banned| - 1];
      if IsBlank(Normalize(last)) then front else front + [Normalize(last)]
  }

  /** One more denylist entry: its normal form is appended unless blank. */
  lemma NormalizeAllSnoc(banned: seq<string>, i: nat)
    requires i < |banned|
    ensures NormalizeAll(banned[..i + 1]) ==
      if IsBlank(Normalize(banned[i])) then NormalizeAll(banned[..i])
      else NormalizeAll(banned[..i]) + [Normalize(banned[i])]
  {
    assert banned[..i + 1][..i] == banned[..i];
  }

  /** The normalised denylist holds exactly the normal forms of the non-blank
      entries, and each of them is non-empty and normalised. */
  lemma NormalizeAllShape(banned: seq<string>)
    ensures forall p :: p in NormalizeAll(banned) ==> p != "" && IsNormalized(p)
    ensures forall b :: b in banned && !IsBlank(b) ==> Normalize(b) in NormalizeAll(banned)
    ensures forall p :: p in NormalizeAll(banned) ==> exists b :: b in banned && !IsBlank(b) && Normalize(b) == p
  {
    NormalizeAllSound(banned);
    NormalizeAllComplete(banned);
  }

  lemma {:induction false} NormalizeAllSound(banned: seq<string>)
    ensures forall p :: p in NormalizeAll(banned) ==> p != "" && IsNormalized(p)
    ensures forall p :: p in NormalizeAll(banned) ==> exists b :: b in banned && !IsBlank(b) && Normalize(b) == p
  {
    if |banned| > 0 {
      var front := banned[..|banned| - 1];
      var last := banned[|banned| - 1];
      var n := Normalize(last);
      NormalizeAllSound(front);
      NormalizeIsNormalized(last);
      NormalizeEmpty(last);
      NormalizedBlank(n);
      assert NormalizeAll(banned) == if IsBlank(n) then NormalizeAll(front) else NormalizeAll(front) + [n];
      forall p | p in NormalizeAll(banned) ensures exists b :: b in banned && !IsBlank(b) && Normalize(b) == p {
        if p in NormalizeAll(front) {
          var b :| b in front && !IsBlank(b) && Normalize(b) == p;
          assert b in banned;
        } else {
          assert last in banned;
        }
      }
    }
  }

  lemma {:induction false} NormalizeAllComplete(banned: seq<string>)
    ensures forall b :: b in banned && !IsBlank(b) ==> Normalize(b) in NormalizeAll(banned)
  {
    if |banned| > 0 {
      var front := banned[..|banned| - 1];
      var last := banned[|banned| - 1];
      var n := Normalize(last);
      NormalizeAllComplete(front);
      NormalizeIsNormalized(last);
      NormalizeEmpty(last);
      NormalizedBlank(n);
      assert NormalizeAll(banned) == if IsBlank(n) then NormalizeAll(front) else NormalizeAll(front) + [n];
      assert forall b :: b in banned ==> b in front || b == last;
    }
  }

  /** No element occurs twice. */
  predicate NoDuplicates<T(==)>(s: seq<T>)
  {
    forall i, j :: 0 <= i < j < |s| ==> s[i] != s[j]
  }

  /** Enumerable.Distinct: the first occurrence of each element, in order. */
  function Distinct<T(==)>(s: seq<T>): seq<T>
  {
    if |s| == 0 then []
    else
      var front := Distinct(s[..|s| - 1]);
      if s[|s| - 1] in s[..|s| - 1] then front else front + [s[|s| - 1]]
  }

  /** Distinct keeps every element once and nothing else. */
  lemma {:induction false} DistinctShape<T>(s: seq<T>)
    ensures forall x :: x in Distinct(s) <==> x in s
    ensures NoDuplicates(Distinct(s))
    ensures |Distinct(s)| <= |s|
  {
    if |s| > 0 {
      DistinctShape(s[..|s| - 1]);
      assert forall x :: x in s ==> x in s[..|s| - 1] || x == s[|s| - 1];
    }
  }

  /** Distinct keeps the same set of elements. */
  lemma DistinctElems<T>(s: seq<T>)
    ensures Elems(Distinct(s)) == Elems(s)
  {
    DistinctShape(s);
    var kept, all := Elems(Distinct(s)), Elems(s);
    assert kept <= all && all <= kept;
  }

  /** Distinct keeps the relative order of what it keeps, so a list sorted
      longest first stays sorted. */
  lemma {:induction false} DistinctKeepsOrder(s: seq<string>)
    requires SortedByLengthDescending(s)
    ensures SortedByLengthDescending(Distinct(s))
  {
    if |s| > 0 {
      var front := s[..|s| - 1];
      DistinctKeepsOrder(front);
      DistinctShape(front);
      var d := Distinct(front);
      forall i | 0 <= i < |d| ensures |d[i]| >= |s[|s| - 1]| {
        assert d[i] in d;
        var j :| 0 <= j < |front| && front[j] == d[i];
      }
    }
  }

  predicate SortedByLengthDescending(s: seq<string>)
  {
    forall i, j :: 0 <= i < j < |s| ==> |s[i]| >= |s[j]|
  }

  /** Puts x after every element of s at least as long, so equal lengths keep
      their order. */
  function InsertByLength(x: string, s: seq<string>): seq<string>
  {
    if |s| == 0 then [x]
    else if |s[0]| >= |x| then [s[0]] + InsertByLength(x, s[1..])
    else [x] + s
  }

  /** Inserting adds exactly x. */
  lemma {:induction false} InsertByLengthPermutes(x: string, s: seq<string>)
    ensures multiset(InsertByLength(x, s)) == multiset(s) + multiset{x}
    ensures |InsertByLength(x, s)| == |s| + 1
  {
    if |s| > 0 && |s[0]| >= |x| {
      InsertByLengthPermutes(x, s[1..]);
      assert s == [s[0]] + s[1..];
    }
  }

  /** Inserting into a list sorted longest first keeps it sorted; the head is
      x or the old head. */
  lemma {:induction false} InsertByLengthSorted(x: string, s: seq<string>)
    requires SortedByLengthDescending(s)
    ensures SortedByLengthDescending(InsertByLength(x, s))
    ensures |s| > 0 ==> InsertByLength(x, s)[0] == x || InsertByLength(x, s)[0] == s[0]
  {
    if |s| > 0 {
      if |s[0]| >= |x| {
        var rest := InsertByLength(x, s[1..]);
        InsertByLengthSorted(x, s[1..]);
        InsertByLengthPermutes(x, s[1..]);
        assert |s[0]| >= |rest[0]| by {
          if |s| > 1 {
            assert s[1..][0] == s[1];
          }
        }
        assert forall k :: 0 <= k < |rest| ==> |rest[k]| <= |rest[0]|;
        assert InsertByLength(x, s) == [s[0]] + rest;
      } else {
        assert forall k :: 0 <= k < |s| ==> |s[k]| <= |s[0]|;
      }
    }
  }

  /** Enumerable.OrderByDescending(org => org.Length), a stable sort. */
  function OrderByLengthDescending(s: seq<string>): seq<string>
  {
    if |s| == 0 then []
    else InsertByLength(s[|s| - 1], OrderByLengthDescending(s[..|s| - 1]))
  }

  /** The sort is a permutation of its input. */
  lemma {:induction false} OrderByLengthPermutes(s: seq<string>)
    ensures multiset(OrderByLengthDescending(s)) == multiset(s)
    ensures |OrderByLengthDescending(s)| == |s|
  {
    if |s| > 0 {
      var front, last := s[..|s| - 1], s[|s| - 1];
      OrderByLengthPermutes(front);
      InsertByLengthPermutes(last, OrderByLengthDescending(front));
      assert s == front + [last];
    }
  }

  /** The sort puts longer phrases first. */
  lemma {:induction false} OrderByLengthSorted(s: seq<string>)
    ensures SortedByLengthDescending(OrderByLengthDescending(s))
  {
    if |s| > 0 {
      var front, last := s[..|s| - 1], s[|s| - 1];
      OrderByLengthSorted(front);
      InsertByLengthSorted(last, OrderByLengthDescending(front));
    }
  }

  lemma SameMultisetSameElements(a: seq<string>, b: seq<string>)
    requires multiset(a) == multiset(b)
    ensures forall p :: p in a <==> p in b
  {
    forall p ensures p in a <==> p in b {
      assert p in a <==> p in multiset(a);
      assert p in b <==> p in multiset(b);
    }
  }

  /** The phrase list every matcher prepares on its first call: normalised,
      blank entries dropped, longest first, repeats removed. */
  function PreparedPhrases(banned: seq<string>): seq<string>
  {
    Distinct(OrderByLengthDescending(NormalizeAll(banned)))
  }

  /** The prepared list holds the normalised non-blank entries, each once,
      longest first, and is no longer than the denylist. */
  lemma PreparedPhrasesShape(banned: seq<string>)
    ensures forall p :: p in PreparedPhrases(banned) <==> p in NormalizeAll(banned)
    ensures forall p :: p in PreparedPhrases(banned) ==> p != "" && IsNormalized(p)
    ensures NoDuplicates(PreparedPhrases(banned))
    ensures SortedByLengthDescending(PreparedPhrases(banned))
    ensures |PreparedPhrases(banned)| <= |banned|
  {
    var sorted := OrderByLengthDescending(NormalizeAll(banned));
    OrderByLengthPermutes(NormalizeAll(banned));
    OrderByLengthSorted(NormalizeAll(banned));
    SameMultisetSameElements(sorted, NormalizeAll(banned));
    DistinctShape(sorted);
    DistinctKeepsOrder(sorted);
    NormalizeAllShape(banned);
  }

  /** Some phrase of the list is a whole-word match in the text. */
  predicate Matches(phrases: seq<string>, text: string)
  {
    exists p :: p in phrases && ExactMatch(text, p)
  }

  /** Some phrase among the first n is a whole-word match in the text: what
      a loop over the list has decided after n steps. */
  predicate MatchesWithin(phrases: seq<string>, text: string, n: nat)
    requires n <= |phrases|
  {
    n > 0 && (MatchesWithin(phrases, text, n - 1) || ExactMatch(text, phrases[n - 1]))
  }

  /** After the whole list, the loop has decided Matches. */
  lemma {:induction false} MatchesWithinAll(phrases: seq<string>, text: string, n: nat)
    requires n <= |phrases|
    ensures MatchesWithin(phrases, text, n) <==> exists j :: 0 <= j < n && ExactMatch(text, phrases[j])
    ensures n == |phrases| ==> (MatchesWithin(phrases, text, n) <==> Matches(phrases, text))
  {
    if n > 0 {
      MatchesWithinAll(phrases, text, n - 1);
    }
    if n == |phrases| && Matches(phrases, text) {
      var p :| p in phrases && ExactMatch(text, p);
      var j :| 0 <= j < |phrases| && phrases[j] == p;
    }
  }

  /** The verdict every matcher's CheckLine computes for one raw line. */
  predicate LineVerdict(banned: seq<string>, line: string)
  {
    Matches(NormalizeAll(banned), Normalize(line))
  }

  /** The verdict every matcher's CheckBlock computes: some line matches. */
  predicate BlockVerdict(banned: seq<string>, block: seq<string>)
  {
    exists line :: line in block && LineVerdict(banned, line)
  }

  /** A blank line never matches. */
  lemma BlankLineNeverMatches(banned: seq<string>, line: string)
    requires IsBlank(line)
    ensures !LineVerdict(banned, line)
  {
    NormalizeEmpty(line);
  }

  /** A denylist of blank entries only behaves like an empty denylist. */
  lemma {:induction false} BlankDenylistNeverMatches(banned: seq<string>, line: string)
    requires forall b :: b in banned ==> IsBlank(b)
    ensures NormalizeAll(banned) == []
    ensures !LineVerdict(banned, line)
  {
    if |banned| > 0 {
      BlankDenylistNeverMatches(banned[..|banned| - 1], line);
      NormalizeEmpty(banned[|banned| - 1]);
      NormalizeIsNormalized(banned[|banned| - 1]);
      NormalizedBlank(Normalize(banned[|banned| - 1]));
    }
  }

  /** The verdict only depends on which phrases are present. */
  lemma MatchesSameElements(a: seq<string>, b: seq<string>, text: string)
    requires forall p :: p in a <==> p in b
    ensures Matches(a, text) == Matches(b, text)
  {
  }

  /** No line of block[..i] matches: the state of a CheckBlock loop that has
      not returned yet. */
  predicate NoLineMatches(banned: seq<string>, block: seq<string>, i: int)
    requires i <= |block|
  {
    forall j :: 0 <= j < i ==> !LineVerdict(banned, block[j])
  }

  lemma NoLineMatchesStep(banned: seq<string>, block: seq<string>, i: nat)
    requires i < |block| && NoLineMatches(banned, block, i) && !LineVerdict(banned, block[i])
    ensures NoLineMatches(banned, block, i + 1)
  {
  }

  /** CheckBlock's two exits: a matching line makes the block match, and a
      block none of whose lines match does not. */
  lemma BlockVerdictExits(banned: seq<string>, block: seq<string>, i: nat)
    requires i <= |block|
    ensures i < |block| && LineVerdict(banned, block[i]) ==> BlockVerdict(banned, block)
    ensures i == |block| && NoLineMatches(banned, block, i) ==> !BlockVerdict(banned, block)
  {
    if i < |block| {
      assert block[i] in block;
    }
  }
}
