/**
 * The three character classifications the normaliser relies on:
 * .NET's char.IsWhiteSpace, char.IsLetterOrDigit and char.ToLowerInvariant.
 * IsWhiteSpace lists exactly the code points .NET treats as white space;
 * IsLetterOrDigit and ToLower cover ASCII, Latin-1 and the Cyrillic block
 * U+0400..U+04FF.
 */
module Chars {

  /** char.IsWhiteSpace: Unicode categories Zs, Zl, Zp plus the C0 controls
      U+0009..U+000D and U+0085. */
  predicate IsWhiteSpace(c: char)
  {
    ('\U{9}' <= c <= '\U{D}') || c == ' ' || c == '\U{85}' || c == '\U{A0}'
    || c == '\U{1680}' || ('\U{2000}' <= c <= '\U{200A}') || c == '\U{2028}'
    || c == '\U{2029}' || c == '\U{202F}' || c == '\U{205F}' || c == '\U{3000}'
  }

  /** char.IsLetterOrDigit restricted to ASCII, Latin-1 and Cyrillic. */
  predicate IsLetterOrDigit(c: char)
  {
    ('0' <= c <= '9') || ('a' <= c <= 'z') || ('A' <= c <= 'Z')
    || c == '\U{AA}' || c == '\U{B5}' || c == '\U{BA}'
    || ('\U{C0}' <= c <= '\U{FF}' && c != '\U{D7}' && c != '\U{F7}')
    || ('\U{400}' <= c <= '\U{481}') || ('\U{48A}' <= c <= '\U{4FF}')
  }

  /** A capital of the Cyrillic block whose small letter is the next code
      point: the even members of U+0460..U+0480, U+048A..U+04BE and
      U+04D0..U+04FE, and the odd members of U+04C1..U+04CD. */
  predicate IsCyrillicPairCapital(c: char)
  {
    if '\U{4C1}' <= c <= '\U{4CE}' then c as int % 2 == 1
    else
      (('\U{460}' <= c <= '\U{481}') || ('\U{48A}' <= c <= '\U{4BF}')
       || ('\U{4D0}' <= c <= '\U{4FF}'))
      && c as int % 2 == 0
  }

  /** char.ToLowerInvariant restricted to ASCII, Latin-1 and Cyrillic capitals. */
  function ToLower(c: char): char
  {
    if 'A' <= c <= 'Z' then (c as int + 32) as char
    else if '\U{C0}' <= c <= '\U{DE}' && c != '\U{D7}' then (c as int + 32) as char
    else if '\U{410}' <= c <= '\U{42F}' then (c as int + 32) as char
    else if '\U{400}' <= c <= '\U{40F}' then (c as int + 80) as char
    else if c == '\U{4C0}' then '\U{4CF}'
    else if IsCyrillicPairCapital(c) then (c as int + 1) as char
    else c
  }

  /** Lower-casing is idempotent. */
  lemma ToLowerIdempotent(c: char)
    ensures ToLower(ToLower(c)) == ToLower(c)
  {
  }

  /** Lower-casing neither creates nor removes white space. */
  lemma ToLowerKeepsWhiteSpace(c: char)
    ensures IsWhiteSpace(ToLower(c)) == IsWhiteSpace(c)
    ensures IsWhiteSpace(c) ==> ToLower(c) == c
  {
  }

  /** Two letters missing from the basic Russian alphabet: Ukrainian GHE WITH
      UPTURN and Kazakh KA WITH DESCENDER lower-case to their small forms. */
  lemma ToLowerCyrillicExtended()
    ensures ToLower('\U{490}') == '\U{491}' && ToLower('\U{49A}') == '\U{49B}'
    ensures ToLower('\U{4C0}') == '\U{4CF}' && ToLower('\U{4C1}') == '\U{4C2}'
    ensures ToLower('\U{491}') == '\U{491}' && ToLower('\U{4CF}') == '\U{4CF}'
  {
  }
}
