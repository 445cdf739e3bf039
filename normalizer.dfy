/**
 * StringNormalizer: canonical form of a line or a denylist phrase, and the
 * whole-word ("exact") match every matcher uses as its final verdict.
 */
module StringNormalizer {
  import opened Chars

  /** string.IsNullOrWhiteSpace (a Dafny string is never null). */
  predicate IsBlank(s: string)
  {
    forall i :: 0 <= i < |s| ==> IsWhiteSpace(s[i])
  }

  /** string.ToLowerInvariant: code unit by code unit, length preserving. */
  function Lower(s: string): (r: string)
    ensures |r| == |s|
    ensures forall i :: 0 <= i < |s| ==> r[i] == ToLower(s[i])
  {
    seq(|s|, i requires 0 <= i < |s| => ToLower(s[i]))
  }

  /** The leading-white-space half of string.Trim. */
  function TrimStart(s: string): (r: string)
    ensures |r| <= |s|
  {
    if |s| > 0 && IsWhiteSpace(s[0]) then TrimStart(s[1..]) else s
  }

  /** TrimStart removes a white-space prefix and stops at the first other
      character. */
  lemma TrimStartShape(s: string)
    ensures TrimStart(s) == s[|s| - |TrimStart(s)|..]
    ensures forall i :: 0 <= i < |s| - |TrimStart(s)| ==> IsWhiteSpace(s[i])
    ensures |TrimStart(s)| > 0 ==> !IsWhiteSpace(TrimStart(s)[0])
  {
    if |s| > 0 && IsWhiteSpace(s[0]) {
      TrimStartShape(s[1..]);
    }
  }

  /** The trailing-white-space half of string.Trim. */
  function TrimEnd(s: string): (r: string)
    ensures |r| <= |s|
  {
    if |s| > 0 && IsWhiteSpace(s[|s| - 1]) then TrimEnd(s[..|s| - 1]) else s
  }

  /** TrimEnd removes a white-space suffix and stops at the last other
      character. */
  lemma TrimEndShape(s: string)
    ensures TrimEnd(s) == s[..|TrimEnd(s)|]
    ensures forall i :: |TrimEnd(s)| <= i < |s| ==> IsWhiteSpace(s[i])
    ensures |TrimEnd(s)| > 0 ==> !IsWhiteSpace(TrimEnd(s)[|TrimEnd(s)| - 1])
  {
    if |s| > 0 && IsWhiteSpace(s[|s| - 1]) {
      TrimEndShape(s[..|s| - 1]);
    }
  }

  /** string.Trim(): drops white space at both ends and nothing else. */
  function Trim(s: string): (r: string)
  {
    TrimEnd(TrimStart(s))
  }

  /** Regex.Replace(s, @"\s+", " "): every maximal run of white space
      becomes one space. The last character of a run emits the space. */
  function Collapse(s: string): (r: string)
  {
    if |s| == 0 then ""
    else if IsWhiteSpace(s[0]) then
      (if |s| > 1 && IsWhiteSpace(s[1]) then Collapse(s[1..]) else " " + Collapse(s[1..]))
    else [s[0]] + Collapse(s[1..])
  }

  /** StringNormalizer.Normalize. */
  function Normalize(input: string): string
  {
    if IsBlank(input) then "" else Collapse(Trim(Lower(input)))
  }

  /** No white space other than single spaces between non-space characters. */
  predicate IsCollapsed(s: string)
  {
    && (forall i :: 0 <= i < |s| && IsWhiteSpace(s[i]) ==> s[i] == ' ')
    && (forall i :: 0 < i < |s| && IsWhiteSpace(s[i]) ==> !IsWhiteSpace(s[i - 1]))
  }

  /** The shape of Normalize's output: lower case, trimmed, single-spaced. */
  predicate IsNormalized(s: string)
  {
    && (forall i :: 0 <= i < |s| ==> ToLower(s[i]) == s[i])
    && IsCollapsed(s)
    && (|s| > 0 ==> !IsWhiteSpace(s[0]) && !IsWhiteSpace(s[|s| - 1]))
  }

  lemma {:induction false} CollapseEnds(s: string)
    requires |s| > 0
    ensures |Collapse(s)| > 0
    ensures IsWhiteSpace(Collapse(s)[0]) <==> IsWhiteSpace(s[0])
    ensures IsWhiteSpace(Collapse(s)[|Collapse(s)| - 1]) <==> IsWhiteSpace(s[|s| - 1])
    decreases |s|
  {
    if |s| > 1 {
      CollapseEnds(s[1..]);
    }
  }

  lemma {:induction false} CollapseIsCollapsed(s: string)
    ensures IsCollapsed(Collapse(s))
    ensures forall i :: 0 <= i < |Collapse(s)| ==> Collapse(s)[i] == ' ' || Collapse(s)[i] in s
    decreases |s|
  {
    if |s| > 0 {
      CollapseIsCollapsed(s[1..]);
      if |s| > 1 {
        CollapseEnds(s[1..]);
      }
      var tail := Collapse(s[1..]);
      forall i | 0 <= i < |tail| ensures tail[i] == ' ' || tail[i] in s {
        if tail[i] != ' ' {
          assert tail[i] in s[1..];
        }
      }
    }
  }

  lemma {:induction false} CollapseFixed(s: string)
    requires IsCollapsed(s)
    ensures Collapse(s) == s
    decreases |s|
  {
    if |s| > 0 {
      assert IsCollapsed(s[1..]) by {
        forall i | 0 < i < |s[1..]| && IsWhiteSpace(s[1..][i])
          ensures !IsWhiteSpace(s[1..][i - 1])
        {
          assert s[1..][i] == s[i + 1] && s[1..][i - 1] == s[i];
        }
      }
      CollapseFixed(s[1..]);
      if |s| > 1 && IsWhiteSpace(s[0]) {
        assert !IsWhiteSpace(s[1]);
      }
    }
  }

  /** Lower-casing keeps a non-blank string non-blank, and its result is
      made of characters that lower-casing leaves alone. */
  lemma LowerShape(s: string)
    ensures IsBlank(Lower(s)) <==> IsBlank(s)
    ensures forall i :: 0 <= i < |s| ==> ToLower(Lower(s)[i]) == Lower(s)[i]
  {
    forall i | 0 <= i < |s| ensures ToLower(Lower(s)[i]) == Lower(s)[i]
      && (IsWhiteSpace(Lower(s)[i]) <==> IsWhiteSpace(s[i]))
    {
      ToLowerIdempotent(s[i]);
      ToLowerKeepsWhiteSpace(s[i]);
    }
  }

  /** TrimStart keeps every non-white-space character, at the same distance
      from the end. */
  lemma TrimStartKeeps(s: string, k: nat)
    requires k < |s| && !IsWhiteSpace(s[k])
    ensures |TrimStart(s)| >= |s| - k
    ensures TrimStart(s)[k - (|s| - |TrimStart(s)|)] == s[k]
  {
    TrimStartShape(s);
  }

  /** TrimEnd keeps every non-white-space character, at the same index. */
  lemma TrimEndKeeps(s: string, k: nat)
    requires k < |s| && !IsWhiteSpace(s[k])
    ensures |TrimEnd(s)| > k
  {
    TrimEndShape(s);
  }

  /** Trimming a non-blank string leaves something. */
  lemma TrimNonEmpty(s: string)
    requires !IsBlank(s)
    ensures |TrimStart(s)| > 0 && |Trim(s)| > 0
  {
    var k :| 0 <= k < |s| && !IsWhiteSpace(s[k]);
    TrimStartKeeps(s, k);
    TrimEndKeeps(TrimStart(s), k - (|s| - |TrimStart(s)|));
  }

  /** What is left after trimming neither starts nor ends with white space. */
  lemma TrimEnds(s: string)
    requires |TrimStart(s)| > 0 && |Trim(s)| > 0
    ensures !IsWhiteSpace(Trim(s)[0]) && !IsWhiteSpace(Trim(s)[|Trim(s)| - 1])
  {
    TrimStartShape(s);
    TrimEndShape(TrimStart(s));
    assert Trim(s)[0] == TrimStart(s)[0];
  }

  /** Trimming only removes characters. */
  lemma TrimChars(s: string)
    ensures forall i :: 0 <= i < |Trim(s)| ==> Trim(s)[i] in s
  {
    var ts := TrimStart(s);
    var t := TrimEnd(ts);
    TrimStartShape(s);
    TrimEndShape(ts);
    forall i | 0 <= i < |t| ensures t[i] in s {
      var j := i + |s| - |ts|;
      assert t[i] == ts[i] == s[j];
      assert s[j] in s;
    }
  }

  /** Trimming a non-blank string leaves a non-empty slice of it whose ends
      are not white space. */
  lemma TrimShape(s: string)
    requires !IsBlank(s)
    ensures |Trim(s)| > 0
    ensures !IsWhiteSpace(Trim(s)[0]) && !IsWhiteSpace(Trim(s)[|Trim(s)| - 1])
    ensures forall i :: 0 <= i < |Trim(s)| ==> Trim(s)[i] in s
  {
    TrimNonEmpty(s);
    TrimEnds(s);
    TrimChars(s);
  }

  /** Normalize's output is lower case, trimmed and single-spaced. */
  lemma NormalizeIsNormalized(input: string)
    ensures IsNormalized(Normalize(input))
  {
    if !IsBlank(input) {
      var low := Lower(input);
      LowerShape(input);
      var t := Trim(low);
      TrimShape(low);
      CollapseEnds(t);
      CollapseIsCollapsed(t);
      var r := Collapse(t);
      forall i | 0 <= i < |r| ensures ToLower(r[i]) == r[i] {
        if r[i] != ' ' {
          assert r[i] in t;
          var j :| 0 <= j < |t| && t[j] == r[i];
          assert t[j] in low;
        }
      }
    }
  }

  /** A normalised string is its own normal form. */
  lemma NormalizeFixed(s: string)
    requires IsNormalized(s)
    ensures Normalize(s) == s
  {
    if !IsBlank(s) {
      assert Lower(s) == s;
      assert TrimStart(s) == s;
      assert TrimEnd(s) == s;
      CollapseFixed(s);
    }
  }

  /** Normalize is idempotent. */
  lemma NormalizeIdempotent(input: string)
    ensures Normalize(Normalize(input)) == Normalize(input)
  {
    NormalizeIsNormalized(input);
    NormalizeFixed(Normalize(input));
  }

  /** Normalize yields "" exactly for an empty or all-white-space input. */
  lemma NormalizeEmpty(input: string)
    ensures Normalize(input) == "" <==> IsBlank(input)
  {
    if !IsBlank(input) {
      LowerShape(input);
      TrimShape(Lower(input));
      CollapseEnds(Trim(Lower(input)));
    }
  }

  /** A normalised string is blank only when it is empty. */
  lemma NormalizedBlank(s: string)
    requires IsNormalized(s)
    ensures IsBlank(s) <==> s == ""
  {
    if |s| > 0 {
      assert !IsWhiteSpace(s[0]);
    }
  }

  /** The normal form is blank exactly when the input is. */
  lemma NormalizeBlank(input: string)
    ensures IsBlank(Normalize(input)) <==> IsBlank(input)
  {
    NormalizeIsNormalized(input);
    NormalizedBlank(Normalize(input));
    NormalizeEmpty(input);
  }

  /** The characters of s that are not white space, in order. */
  function NonWhiteSpace(s: string): string
  {
    if |s| == 0 then ""
    else (if IsWhiteSpace(s[0]) then "" else [s[0]]) + NonWhiteSpace(s[1..])
  }

  lemma {:induction false} NonWhiteSpaceAppend(a: string, b: string)
    ensures NonWhiteSpace(a + b) == NonWhiteSpace(a) + NonWhiteSpace(b)
    decreases |a|
  {
    if |a| > 0 {
      assert (a + b)[1..] == a[1..] + b;
      NonWhiteSpaceAppend(a[1..], b);
    } else {
      assert a + b == b;
    }
  }

  lemma {:induction false} NonWhiteSpaceBlank(s: string)
    requires IsBlank(s)
    ensures NonWhiteSpace(s) == ""
    decreases |s|
  {
    if |s| > 0 {
      NonWhiteSpaceBlank(s[1..]);
    }
  }

  /** Collapsing white-space runs keeps every other character, in order. */
  lemma {:induction false} CollapseKeepsWords(s: string)
    ensures NonWhiteSpace(Collapse(s)) == NonWhiteSpace(s)
    decreases |s|
  {
    if |s| > 0 {
      CollapseKeepsWords(s[1..]);
      if IsWhiteSpace(s[0]) && !(|s| > 1 && IsWhiteSpace(s[1])) {
        NonWhiteSpaceAppend(" ", Collapse(s[1..]));
      } else if !IsWhiteSpace(s[0]) {
        NonWhiteSpaceAppend([s[0]], Collapse(s[1..]));
      }
    }
  }

  /** Trimming keeps every character that is not white space, in order. */
  lemma {:induction false} TrimKeepsWords(s: string)
    ensures NonWhiteSpace(Trim(s)) == NonWhiteSpace(s)
  {
    var t := TrimStart(s);
    TrimStartShape(s);
    var k := |s| - |t|;
    assert s == s[..k] + t;
    NonWhiteSpaceAppend(s[..k], t);
    NonWhiteSpaceBlank(s[..k]);
    TrimEndShape(t);
    var m := |TrimEnd(t)|;
    assert t == TrimEnd(t) + t[m..];
    NonWhiteSpaceAppend(TrimEnd(t), t[m..]);
    NonWhiteSpaceBlank(t[m..]);
  }

  /** Normalize keeps exactly the non-white-space characters of the
      lower-cased input, in order and with their multiplicity. */
  lemma NormalizeKeepsWords(input: string)
    ensures NonWhiteSpace(Normalize(input)) == NonWhiteSpace(Lower(input))
  {
    if IsBlank(input) {
      forall i | 0 <= i < |input| ensures IsWhiteSpace(Lower(input)[i]) {
        ToLowerKeepsWhiteSpace(input[i]);
      }
      NonWhiteSpaceBlank(Lower(input));
    } else {
      CollapseKeepsWords(Trim(Lower(input)));
      TrimKeepsWords(Lower(input));
    }
  }

  /** Lower-casing a normalised string changes nothing. */
  lemma LowerNormalized(s: string)
    requires IsNormalized(s)
    ensures Lower(s) == s
  {
  }

  /** The boundary test of the whole-word rule: neither letter nor digit. */
  predicate IsBoundaryChar(c: char)
  {
    !IsLetterOrDigit(c)
  }

  /** p occurs in t starting at index i. */
  predicate OccursAt(t: string, p: string, i: int)
  {
    0 <= i && i + |p| <= |t| && t[i..i + |p|] == p
  }

  /** string.Contains(string), ordinal. */
  predicate Occurs(t: string, p: string)
  {
    exists i :: 0 <= i <= |t| - |p| && OccursAt(t, p, i)
  }

  /** An occurrence of p at i flanked by boundary characters or the string ends. */
  predicate IsWordOccurrence(t: string, p: string, i: int)
  {
    && OccursAt(t, p, i)
    && (i == 0 || IsBoundaryChar(t[i - 1]))
    && (i + |p| == |t| || IsBoundaryChar(t[i + |p|]))
  }

  /** What IsExactMatch decides: both strings non-empty and some occurrence of
      the lower-cased pattern in the lower-cased text is a whole word. */
  predicate ExactMatch(text: string, pattern: string)
  {
    && |text| > 0 && |pattern| > 0
    && exists i :: 0 <= i <= |text| - |pattern| && IsWordOccurrence(Lower(text), Lower(pattern), i)
  }

  /** string.IndexOf(value, startIndex), modelled as an ordinal search: the
      first index at or after start where p occurs, or -1. */
  function IndexOf(s: string, p: string, start: nat): (r: int)
    requires start <= |s|
    ensures r == -1 || (start <= r && OccursAt(s, p, r))
    ensures r == -1 ==> forall k :: start <= k ==> !OccursAt(s, p, k)
    ensures r != -1 ==> forall k :: start <= k < r ==> !OccursAt(s, p, k)
    decreases |s| - start
  {
    if start + |p| > |s| then -1
    else if s[start..start + |p|] == p then start
    else IndexOf(s, p, start + 1)
  }

  /** string.Contains(string), computed with the ordinal search. */
  function Contains(t: string, p: string): (r: bool)
    ensures r <==> Occurs(t, p)
  {
    if IndexOf(t, p, 0) == -1 then
      assert forall k :: 0 <= k ==> !OccursAt(t, p, k);
      false
    else
      true
  }

  /** StringNormalizer.IsExactMatch: visits every occurrence, overlapping ones
      included, by restarting the search one past the last hit. */
  method IsExactMatch(text: string, pattern: string) returns (found: bool)
    ensures found == ExactMatch(text, pattern)
  {
    if |text| == 0 || |pattern| == 0 {
      return false;
    }
    found := FindWord(Lower(text), Lower(pattern));
  }

  /** The search loop of IsExactMatch, on the lower-cased strings. */
  method FindWord(t: string, p: string) returns (found: bool)
    requires |p| > 0
    ensures found <==> exists i :: 0 <= i <= |t| - |p| && IsWordOccurrence(t, p, i)
  {
    var index := IndexOf(t, p, 0);
    NoWordSkip(t, p, 0, index);
    while index != -1
      invariant index == -1 || OccursAt(t, p, index)
      invariant NoWordBefore(t, p, if index == -1 then |t| + 1 else index)
      decreases if index == -1 then 0 else |t| + 1 - index
    {
      var isLeftBoundaryValid := index == 0 || IsBoundaryChar(t[index - 1]);
      var isRightBoundaryValid := index + |p| == |t| || IsBoundaryChar(t[index + |p|]);
      if isLeftBoundaryValid && isRightBoundaryValid {
        assert IsWordOccurrence(t, p, index);
        return true;
      }
      var next := IndexOf(t, p, index + 1);
      NoWordSkip(t, p, index + 1, next);
      index := next;
    }
    return false;
  }

  /** No whole-word occurrence of p in t starts before n. */
  predicate NoWordBefore(t: string, p: string, n: int)
  {
    forall k :: 0 <= k < n ==> !IsWordOccurrence(t, p, k)
  }

  /** The search from start found next: nothing in between is a word occurrence. */
  lemma NoWordSkip(t: string, p: string, start: nat, next: int)
    requires start <= |t| && next == IndexOf(t, p, start)
    requires start > 0 ==> NoWordBefore(t, p, start - 1) && !IsWordOccurrence(t, p, start - 1)
    ensures NoWordBefore(t, p, if next == -1 then |t| + 1 else next)
  {
  }

  /** An exact match needs a non-empty pattern and a non-empty text. */
  lemma ExactMatchNonEmpty(text: string, pattern: string)
    requires ExactMatch(text, pattern)
    ensures text != "" && pattern != ""
  {
  }

  /** On normalised strings an exact match is a plain whole-word occurrence. */
  lemma ExactMatchNormalized(text: string, pattern: string)
    requires IsNormalized(text) && IsNormalized(pattern)
    ensures ExactMatch(text, pattern) <==>
      |text| > 0 && |pattern| > 0 && exists i :: 0 <= i <= |text| - |pattern| && IsWordOccurrence(text, pattern, i)
  {
    LowerNormalized(text);
    LowerNormalized(pattern);
  }

  /** An exact match on a normalised pair is in particular a substring hit. */
  lemma ExactMatchOccurs(text: string, pattern: string)
    requires IsNormalized(text) && IsNormalized(pattern)
    requires ExactMatch(text, pattern)
    ensures Occurs(text, pattern)
  {
    ExactMatchNormalized(text, pattern);
    var i :| 0 <= i <= |text| - |pattern| && IsWordOccurrence(text, pattern, i);
    assert OccursAt(text, pattern, i);
  }
}
