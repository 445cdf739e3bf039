/**
 * SimdSearchAlgorithm: the normalised phrases are kept next to their UTF-8
 * bytes; a line matches when the bytes of some phrase occur in the line's
 * bytes and the phrase is a whole-word match. Long patterns are compared a
 * vector at a time (32 bytes with AVX2, 16 with SSE2); the vector
 * operations are modelled lane by lane and whether the processor has them
 * is a constructor argument.
 */
module SimdSearch {
  import opened StringNormalizer
  import opened Phrases
  import opened Utf8

  /** The bytes of p occur in t at index k. */
  predicate BytesAt(t: seq<byte>, p: seq<byte>, k: int)
  {
    0 <= k && k + |p| <= |t| && t[k..k + |p|] == p
  }

  /** The bytes of p occur somewhere in t. */
  predicate BytesOccur(t: seq<byte>, p: seq<byte>)
  {
    exists k :: 0 <= k <= |t| - |p| && BytesAt(t, p, k)
  }

  /** A character occurrence is a byte occurrence of the encodings. */
  lemma OccursEncoded(t: string, p: string)
    requires Occurs(t, p)
    ensures BytesOccur(Encode(t), Encode(p))
  {
    var i :| 0 <= i <= |t| - |p| && OccursAt(t, p, i);
    var before, after := t[..i], t[i + |p|..];
    assert t == before + p + after;
    EncodeAppend(before + p, after);
    EncodeAppend(before, p);
    var k := |Encode(before)|;
    assert Encode(t)[k..k + |Encode(p)|] == Encode(p);
    assert BytesAt(Encode(t), Encode(p), k);
  }

  /** Vector CompareEqual: lane k holds whether the k-th bytes agree. */
  function CompareEqual(a: seq<byte>, b: seq<byte>): seq<bool>
    requires |a| == |b|
  {
    seq(|a|, k requires 0 <= k < |a| => a[k] == b[k])
  }

  /** Every lane is set exactly when the two vectors are equal. */
  lemma CompareEqualAll(a: seq<byte>, b: seq<byte>)
    requires |a| == |b|
    ensures (forall k :: 0 <= k < |a| ==> CompareEqual(a, b)[k]) <==> a == b
  {
    if forall k :: 0 <= k < |a| ==> CompareEqual(a, b)[k] {
      forall k | 0 <= k < |a| ensures a[k] == b[k] {
        assert CompareEqual(a, b)[k];
      }
    }
  }

  function Pow2(n: nat): nat
  {
    if n == 0 then 1 else 2 * Pow2(n - 1)
  }

  lemma {:induction false} Pow2Add(a: nat, b: nat)
    ensures Pow2(a + b) == Pow2(a) * Pow2(b)
  {
    if a > 0 {
      Pow2Add(a - 1, b);
      var x: int, y: int := Pow2(a - 1), Pow2(b);
      assert Pow2(a + b) == 2 * (x * y);
      assert 2 * (x * y) == (2 * x) * y;
    }
  }

  lemma Pow2Values()
    ensures Pow2(16) == 0x1_0000 && Pow2(32) == 0x1_0000_0000
  {
    assert Pow2(2) == 4;
    Pow2Add(2, 2);
    Pow2Add(4, 4);
    Pow2Add(8, 8);
    Pow2Add(16, 16);
  }

  /** The mask bits: bit k is set exactly when lane k is. */
  function MaskBits(lanes: seq<bool>): nat
  {
    if |lanes| == 0 then 0 else (if lanes[0] then 1 else 0) + 2 * MaskBits(lanes[1..])
  }

  /** The mask bits fit in one bit per lane, and they are all set exactly
      when every lane is. */
  lemma {:induction false} MaskBitsFull(lanes: seq<bool>)
    ensures MaskBits(lanes) < Pow2(|lanes|)
    ensures MaskBits(lanes) == Pow2(|lanes|) - 1 <==> forall k :: 0 <= k < |lanes| ==> lanes[k]
  {
    if |lanes| > 0 {
      MaskBitsFull(lanes[1..]);
      if !lanes[0] {
        assert MaskBits(lanes) % 2 == 0;
      }
      if forall k :: 0 <= k < |lanes| - 1 ==> lanes[1..][k] {
        assert forall k :: 0 <= k < |lanes| ==> lanes[k] <==> k == 0 ==> lanes[0] by {
          forall k | 0 < k < |lanes| ensures lanes[k] {
            assert lanes[k] == lanes[1..][k - 1];
          }
        }
      } else {
        var k :| 0 <= k < |lanes| - 1 && !lanes[1..][k];
        assert !lanes[k + 1];
      }
    }
  }

  /** Vector MoveMask, read as the signed 32-bit int the intrinsic returns. */
  function MoveMask(lanes: seq<bool>): int
    requires |lanes| <= 32
  {
    MaskBitsFull(lanes);
    Pow2Values();
    Pow2Add(|lanes|, 32 - |lanes|);
    var bits := MaskBits(lanes);
    if bits >= 0x8000_0000 then bits - 0x1_0000_0000 else bits
  }

  /** The full-lane constants of the source: MoveMask of 32 lanes is -1, and
      MoveMask of 16 lanes is 0xFFFF, exactly when every lane is equal. */
  lemma MoveMaskAllLanes(lanes: seq<bool>, allLanes: int)
    requires (|lanes| == 32 && allLanes == -1) || (|lanes| == 16 && allLanes == 0xFFFF)
    ensures MoveMask(lanes) == allLanes <==> forall k :: 0 <= k < |lanes| ==> lanes[k]
  {
    MaskBitsFull(lanes);
    Pow2Values();
  }

  /** A pattern occurs at i exactly when its first w bytes and the rest do. */
  lemma BytesAtSplit(t: seq<byte>, p: seq<byte>, i: nat, w: nat)
    requires w <= |p| && i + |p| <= |t|
    ensures BytesAt(t, p, i) <==> t[i..i + w] == p[..w] && t[i + w..i + |p|] == p[w..]
  {
    if t[i..i + w] == p[..w] && t[i + w..i + |p|] == p[w..] {
      assert t[i..i + |p|] == t[i..i + w] + t[i + w..i + |p|];
      assert p == p[..w] + p[w..];
    }
  }

  /** CheckRemainingBytes: length bytes of text from textStart against the
      pattern from patternStart; the caller keeps both ranges in bounds. */
  method CheckRemainingBytes(text: array<byte>, textStart: nat, pattern: array<byte>, patternStart: nat, length: nat)
    returns (equal: bool)
    requires textStart + length <= text.Length && patternStart + length <= pattern.Length
    ensures equal == (text[textStart..textStart + length] == pattern[patternStart..patternStart + length])
  {
    for i := 0 to length
      invariant text[textStart..textStart + i] == pattern[patternStart..patternStart + i]
    {
      if text[textStart + i] != pattern[patternStart + i] {
        assert text[textStart..textStart + length][i] != pattern[patternStart..patternStart + length][i];
        return false;
      }
      assert text[textStart..textStart + i + 1] == text[textStart..textStart + i] + [text[textStart + i]];
      assert pattern[patternStart..patternStart + i + 1] == pattern[patternStart..patternStart + i] + [pattern[patternStart + i]];
    }
    return true;
  }

  /** ContainsBytesSimple: every start position, byte by byte. */
  method ContainsBytesSimple(text: array<byte>, pattern: array<byte>) returns (found: bool)
    ensures found == (pattern.Length > 0 && BytesOccur(text[..], pattern[..]))
  {
    if pattern.Length == 0 {
      return false;
    }
    var i := 0;
    while i <= text.Length - pattern.Length
      invariant 0 <= i && (text.Length >= pattern.Length ==> i <= text.Length - pattern.Length + 1)
      invariant forall k :: 0 <= k < i ==> !BytesAt(text[..], pattern[..], k)
      decreases text.Length - pattern.Length + 1 - i
    {
      var isMatch := true;
      for j := 0 to pattern.Length
        invariant isMatch == (text[i..i + j] == pattern[..j])
      {
        assert text[i..i + j + 1] == text[i..i + j] + [text[i + j]];
        assert pattern[..j + 1] == pattern[..j] + [pattern[j]];
        if text[i + j] != pattern[j] {
          isMatch := false;
          break;
        }
      }
      assert isMatch == BytesAt(text[..], pattern[..], i) by {
        assert pattern[..pattern.Length] == pattern[..];
        assert text[..][i..i + pattern.Length] == text[i..i + pattern.Length];
        if !isMatch {
          var j :| 0 <= j < pattern.Length && text[i + j] != pattern[j];
        }
      }
      if isMatch {
        return true;
      }
      i := i + 1;
    }
    return false;
  }

  /** ContainsBytesAvx2Exact and ContainsBytesSse2Exact: at every start
      position compare the first width bytes as one vector, and after a
      full-lane hit check the rest of the pattern byte by byte. */
  method ContainsBytesLanes(text: array<byte>, pattern: array<byte>, width: nat, allLanes: int)
    returns (found: bool)
    requires (width == 32 && allLanes == -1) || (width == 16 && allLanes == 0xFFFF)
    requires pattern.Length >= width
    ensures found == BytesOccur(text[..], pattern[..])
  {
    var patternVec := pattern[..width];
    var i := 0;
    while i <= text.Length - pattern.Length
      invariant 0 <= i && (text.Length >= pattern.Length ==> i <= text.Length - pattern.Length + 1)
      invariant forall k :: 0 <= k < i ==> !BytesAt(text[..], pattern[..], k)
      decreases text.Length - pattern.Length + 1 - i
    {
      var textVec := text[i..i + width];
      var equalMask := CompareEqual(textVec, patternVec);
      MoveMaskAllLanes(equalMask, allLanes);
      BytesAtSplit(text[..], pattern[..], i, width);
      assert text[..][i..i + width] == textVec && pattern[..][..width] == patternVec;
      assert text[..][i + width..i + pattern.Length] == text[i + width..i + pattern.Length];
      assert pattern[..][width..] == pattern[width..pattern.Length];
      CompareEqualAll(textVec, patternVec);
      if MoveMask(equalMask) == allLanes {
        if pattern.Length > width {
          var rest := CheckRemainingBytes(text, i + width, pattern, width, pattern.Length - width);
          if rest {
            return true;
          }
        } else {
          assert pattern[width..pattern.Length] == [];
          return true;
        }
      }
      i := i + 1;
    }
    return false;
  }

  /** ContainsBytesAvx2Exact: 32-byte lanes, full mask -1. */
  method ContainsBytesAvx2Exact(text: array<byte>, pattern: array<byte>) returns (found: bool)
    requires pattern.Length >= 32
    ensures found == BytesOccur(text[..], pattern[..])
  {
    found := ContainsBytesLanes(text, pattern, 32, -1);
  }

  /** ContainsBytesSse2Exact: 16-byte lanes, full mask 0xFFFF. */
  method ContainsBytesSse2Exact(text: array<byte>, pattern: array<byte>) returns (found: bool)
    requires pattern.Length >= 16
    ensures found == BytesOccur(text[..], pattern[..])
  {
    found := ContainsBytesLanes(text, pattern, 16, 0xFFFF);
  }

  /** Encoding.UTF8.GetBytes into a new byte array. */
  method ToBytes(s: string) returns (a: array<byte>)
    ensures fresh(a) && a[..] == Encode(s)
  {
    var e := Encode(s);
    a := new byte[|e|](k requires 0 <= k < |e| => e[k]);
  }

  /** The byte arrays of a phrase list, entry by entry: Initialize's
      Select(Encoding.UTF8.GetBytes). */
  method EncodeAll(list: seq<string>) returns (bytes: seq<array<byte>>)
    ensures |bytes| == |list|
    ensures forall j :: 0 <= j < |list| ==> bytes[j][..] == Encode(list[j])
  {
    bytes := [];
    for i := 0 to |list|
      invariant |bytes| == i
      invariant forall j :: 0 <= j < i ==> bytes[j][..] == Encode(list[j])
    {
      var a := ToBytes(list[i]);
      bytes := bytes + [a];
    }
  }

  /** A phrase whose bytes do not occur in the line's bytes is no whole-word
      match of it: the byte pre-test never hides a match. */
  lemma NoBytesNoMatch(text: string, p: string)
    requires IsNormalized(text) && IsNormalized(p)
    requires !(|Encode(p)| > 0 && BytesOccur(Encode(text), Encode(p)))
    ensures !ExactMatch(text, p)
  {
    if ExactMatch(text, p) {
      ExactMatchOccurs(text, p);
      OccursEncoded(text, p);
      EncodeNonEmpty(p);
    }
  }

  class SimdSearchAlgorithm {
    var normalizedBannedBytes: seq<array<byte>>
    var normalizedBannedOrganizations: seq<string>
    var isInitialized: bool
    /** The list given to the first call; the one that counts from then on. */
    ghost var denylist: seq<string>
    /** Avx2.IsSupported and Sse2.IsSupported on the running processor. */
    const avx2Supported: bool
    const sse2Supported: bool

    function Name(): string
    {
      "SIMD-ускоренный поиск"
    }

    /** The byte list is the phrase list encoded, entry by entry. */
    ghost predicate Valid()
      reads this, normalizedBannedBytes
    {
      && |normalizedBannedBytes| == |normalizedBannedOrganizations|
      && (forall i :: 0 <= i < |normalizedBannedBytes| ==>
            normalizedBannedBytes[i][..] == Encode(normalizedBannedOrganizations[i]))
      && (isInitialized ==> normalizedBannedOrganizations == Distinct(NormalizeAll(denylist)))
      && (!isInitialized ==> normalizedBannedOrganizations == [])
    }

    constructor(avx2: bool, sse2: bool)
      ensures Valid() && !isInitialized
      ensures avx2Supported == avx2 && sse2Supported == sse2
    {
      normalizedBannedBytes := [];
      normalizedBannedOrganizations := [];
      isInitialized := false;
      denylist := [];
      avx2Supported := avx2;
      sse2Supported := sse2;
    }

    /** Prepares the phrase and byte lists on the first call only. */
    method Initialize(bannedOrganizations: seq<string>)
      requires Valid()
      modifies this
      ensures Valid() && isInitialized
      ensures old(isInitialized) ==> unchanged(this)
      ensures !old(isInitialized) ==> denylist == bannedOrganizations
    {
      if isInitialized {
        return;
      }
      var list := Distinct(NormalizeAll(bannedOrganizations));
      var bytes := EncodeAll(list);
      normalizedBannedOrganizations := list;
      normalizedBannedBytes := bytes;
      denylist := bannedOrganizations;
      isInitialized := true;
    }

    /** ContainsBytesSimdExact: the widest vector the processor has and the
        pattern fills, else the simple search. */
    method ContainsBytesSimdExact(text: array<byte>, pattern: array<byte>) returns (found: bool)
      ensures found == (pattern.Length > 0 && BytesOccur(text[..], pattern[..]))
    {
      if avx2Supported && pattern.Length >= 32 {
        found := ContainsBytesAvx2Exact(text, pattern);
      } else if sse2Supported && pattern.Length >= 16 {
        found := ContainsBytesSse2Exact(text, pattern);
      } else {
        found := ContainsBytesSimple(text, pattern);
      }
    }

    /** ContainsBytesSimd: patterns under 16 bytes take the simple search.
        Whichever path is taken, the answer is the byte search's. */
    method ContainsBytesSimd(text: array<byte>, pattern: array<byte>) returns (found: bool)
      ensures found == (pattern.Length > 0 && BytesOccur(text[..], pattern[..]))
    {
      if pattern.Length == 0 || text.Length < pattern.Length {
        return false;
      }
      if pattern.Length < 16 || text.Length < pattern.Length {
        found := ContainsBytesSimple(text, pattern);
        return;
      }
      found := ContainsBytesSimdExact(text, pattern);
    }

    /** The test inside CheckLine's loop: the byte search first, then the
        whole-word test. The pair answers exactly the whole-word test. */
    method MatchesPhrase(lineBytes: array<byte>, bannedBytes: array<byte>, normalizedLine: string, bannedOrg: string)
      returns (found: bool)
      requires IsNormalized(normalizedLine) && lineBytes[..] == Encode(normalizedLine)
      requires IsNormalized(bannedOrg) && bannedBytes[..] == Encode(bannedOrg)
      ensures found == ExactMatch(normalizedLine, bannedOrg)
    {
      var contains := ContainsBytesSimd(lineBytes, bannedBytes);
      if contains {
        found := IsExactMatch(normalizedLine, bannedOrg);
      } else {
        NoBytesNoMatch(normalizedLine, bannedOrg);
        found := false;
      }
    }

    /** CheckLine's loop over the phrase and byte lists in lockstep. */
    method ScanPhrases(lineBytes: array<byte>, normalizedLine: string) returns (found: bool)
      requires Valid() && IsNormalized(normalizedLine) && lineBytes[..] == Encode(normalizedLine)
      requires forall p :: p in normalizedBannedOrganizations ==> IsNormalized(p) && p != ""
      ensures found == Matches(normalizedBannedOrganizations, normalizedLine)
    {
      var phrases := normalizedBannedOrganizations;
      for i := 0 to |normalizedBannedBytes|
        invariant !MatchesWithin(phrases, normalizedLine, i)
      {
        var bannedBytes := normalizedBannedBytes[i];
        var bannedOrg := phrases[i];
        assert bannedOrg in phrases;
        var exact := MatchesPhrase(lineBytes, bannedBytes, normalizedLine, bannedOrg);
        if exact {
          assert MatchesWithin(phrases, normalizedLine, i + 1);
          MatchesWithinAll(phrases, normalizedLine, |phrases|);
          return true;
        }
      }
      MatchesWithinAll(phrases, normalizedLine, |phrases|);
      return false;
    }

    /** CheckLine: some phrase's bytes occur in the line's bytes and the
        phrase is a whole-word match. */
    method CheckLine(line: string, bannedOrganizations: seq<string>) returns (found: bool)
      requires Valid()
      modifies this
      ensures Valid() && isInitialized
      ensures denylist == if old(isInitialized) then old(denylist) else bannedOrganizations
      ensures found == LineVerdict(denylist, line)
    {
      Initialize(bannedOrganizations);
      var normalizedLine := Normalize(line);
      if IsBlank(normalizedLine) {
        NormalizeBlank(line);
        BlankLineNeverMatches(denylist, line);
        return false;
      }
      NormalizeIsNormalized(line);
      NormalizeAllShape(denylist);
      DistinctShape(NormalizeAll(denylist));
      var lineBytes := ToBytes(normalizedLine);
      found := ScanPhrases(lineBytes, normalizedLine);
      MatchesSameElements(normalizedBannedOrganizations, NormalizeAll(denylist), normalizedLine);
    }

    /** CheckBlock: some line of the block passes CheckLine. */
    method CheckBlock(block: seq<string>, bannedOrganizations: seq<string>) returns (found: bool)
      requires Valid()
      modifies this
      ensures Valid() && isInitialized
      ensures denylist == if old(isInitialized) then old(denylist) else bannedOrganizations
      ensures found == BlockVerdict(denylist, block)
    {
      Initialize(bannedOrganizations);
      ghost var d := denylist;
      for i := 0 to |block|
        invariant Valid() && isInitialized && denylist == d
        invariant NoLineMatches(d, block, i)
      {
        var hit := CheckLine(block[i], bannedOrganizations);
        if hit {
          BlockVerdictExits(d, block, i);
          return true;
        }
        NoLineMatchesStep(d, block, i);
      }
      BlockVerdictExits(d, block, |block|);
      return false;
    }
  }
}
