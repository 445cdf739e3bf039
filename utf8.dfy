/**
 * Encoding.UTF8.GetBytes, written out: each Unicode scalar value becomes one
 * to four bytes (RFC 3629, section 3), and a string becomes the
 * concatenation of its characters' encodings. A decoder is given as the
 * encoder's reference inverse.
 */
module Utf8 {
  import opened Wrappers

  newtype byte = x: int | 0 <= x < 256

  /** The bytes of one scalar value. */
  function EncodeChar(c: char): (r: seq<byte>)
    ensures 1 <= |r| <= 4
  {
    var n := c as int;
    if n < 0x80 then [n as byte]
    else if n < 0x800 then [(0xC0 + n / 0x40) as byte, (0x80 + n % 0x40) as byte]
    else if n < 0x10000 then
      [(0xE0 + n / 0x1000) as byte, (0x80 + n / 0x40 % 0x40) as byte, (0x80 + n % 0x40) as byte]
    else
      [(0xF0 + n / 0x40000) as byte, (0x80 + n / 0x1000 % 0x40) as byte,
       (0x80 + n / 0x40 % 0x40) as byte, (0x80 + n % 0x40) as byte]
  }

  /** Encoding.UTF8.GetBytes(s). */
  function Encode(s: string): seq<byte>
  {
    if |s| == 0 then [] else EncodeChar(s[0]) + Encode(s[1..])
  }

  /** Encoding distributes over concatenation. */
  lemma {:induction false} EncodeAppend(a: string, b: string)
    ensures Encode(a + b) == Encode(a) + Encode(b)
  {
    if |a| > 0 {
      assert (a + b)[0] == a[0];
      assert (a + b)[1..] == a[1..] + b;
      EncodeAppend(a[1..], b);
    } else {
      assert a + b == b;
    }
  }

  /** A non-empty string has a non-empty encoding. */
  lemma EncodeNonEmpty(s: string)
    ensures |Encode(s)| >= |s|
    ensures |s| > 0 ==> |Encode(s)| > 0
  {
    if |s| > 0 {
      EncodeNonEmpty(s[1..]);
    }
  }

  /** The length of the sequence a lead byte starts. */
  function SequenceLength(lead: byte): (n: nat)
    ensures 1 <= n <= 4
  {
    if lead < 0x80 then 1 else if lead < 0xE0 then 2 else if lead < 0xF0 then 3 else 4
  }

  /** The scalar value of the sequence at the head of b. */
  function DecodeScalar(b: seq<byte>): int
    requires |b| >= 1 && |b| >= SequenceLength(b[0])
  {
    var n := SequenceLength(b[0]);
    if n == 1 then b[0] as int
    else if n == 2 then (b[0] as int - 0xC0) * 0x40 + (b[1] as int - 0x80)
    else if n == 3 then (b[0] as int - 0xE0) * 0x1000 + (b[1] as int - 0x80) * 0x40 + (b[2] as int - 0x80)
    else
      (b[0] as int - 0xF0) * 0x40000 + (b[1] as int - 0x80) * 0x1000
      + (b[2] as int - 0x80) * 0x40 + (b[3] as int - 0x80)
  }

  /** The scalar values of a byte string, or None when a sequence is cut off. */
  function Decode(b: seq<byte>): Option<seq<int>>
    decreases |b|
  {
    if |b| == 0 then Some([])
    else if |b| < SequenceLength(b[0]) then None
    else
      match Decode(b[SequenceLength(b[0])..])
      case None => None
      case Some(rest) => Some([DecodeScalar(b)] + rest)
  }

  /** The scalar values of a string. */
  function Scalars(s: string): (r: seq<int>)
    ensures |r| == |s|
  {
    seq(|s|, i requires 0 <= i < |s| => s[i] as int)
  }

  /** The lead byte of a character's encoding announces its length, and the
      sequence decodes to the character, whatever follows it. */
  lemma EncodeCharDecodes(c: char, rest: seq<byte>)
    ensures SequenceLength(EncodeChar(c)[0]) == |EncodeChar(c)|
    ensures DecodeScalar(EncodeChar(c) + rest) == c as int
  {
    var n := c as int;
    var e := EncodeChar(c) + rest;
    if n < 0x80 {
    } else if n < 0x800 {
      assert e[0] as int == 0xC0 + n / 0x40 && e[1] as int == 0x80 + n % 0x40;
      Split2(n);
    } else if n < 0x10000 {
      assert e[0] as int == 0xE0 + n / 0x1000 && e[1] as int == 0x80 + n / 0x40 % 0x40;
      assert e[2] as int == 0x80 + n % 0x40;
      Split3(n);
    } else {
      assert e[0] as int == 0xF0 + n / 0x40000 && e[1] as int == 0x80 + n / 0x1000 % 0x40;
      assert e[2] as int == 0x80 + n / 0x40 % 0x40 && e[3] as int == 0x80 + n % 0x40;
      Split4(n);
    }
  }

  lemma Split2(n: int)
    requires 0x80 <= n < 0x800
    ensures n / 0x40 * 0x40 + n % 0x40 == n
  {
  }

  lemma Split3(n: int)
    requires 0x800 <= n < 0x10000
    ensures n / 0x1000 * 0x1000 + n / 0x40 % 0x40 * 0x40 + n % 0x40 == n
  {
    Digits(n);
    var n1, n2 := n / 0x40, n / 0x40 / 0x40;
    assert n1 == 0x40 * n2 + n1 % 0x40;
    assert n == 0x40 * n1 + n % 0x40;
  }

  lemma Split4(n: int)
    requires 0x10000 <= n < 0x110000
    ensures n / 0x40000 * 0x40000 + n / 0x1000 % 0x40 * 0x1000 + n / 0x40 % 0x40 * 0x40 + n % 0x40 == n
  {
    Digits(n);
    var n1, n2, n3 := n / 0x40, n / 0x40 / 0x40, n / 0x40 / 0x40 / 0x40;
    assert n2 == 0x40 * n3 + n2 % 0x40;
    assert n1 == 0x40 * n2 + n1 % 0x40;
    assert n == 0x40 * n1 + n % 0x40;
  }

  /** Dividing by 0x1000 or 0x40000 is dividing by 0x40 two or three times. */
  lemma Digits(n: int)
    requires 0 <= n
    ensures n / 0x1000 == n / 0x40 / 0x40
    ensures n / 0x40000 == n / 0x40 / 0x40 / 0x40
  {
    var n1, n2, n3 := n / 0x40, n / 0x40 / 0x40, n / 0x40 / 0x40 / 0x40;
    var d0, d1, d2 := n % 0x40, n1 % 0x40, n2 % 0x40;
    assert n == 0x40 * n1 + d0 && n1 == 0x40 * n2 + d1 && n2 == 0x40 * n3 + d2;
    assert n == 0x1000 * n2 + (0x40 * d1 + d0);
    assert n == 0x40000 * n3 + (0x1000 * d2 + 0x40 * d1 + d0);
  }

  /** Decoding undoes encoding. */
  lemma {:induction false} DecodeEncode(s: string)
    ensures Decode(Encode(s)) == Some(Scalars(s))
  {
    if |s| > 0 {
      var e := EncodeChar(s[0]);
      DecodeEncode(s[1..]);
      EncodeCharDecodes(s[0], Encode(s[1..]));
      assert (e + Encode(s[1..]))[..1] == e[..1];
      assert (e + Encode(s[1..]))[|e|..] == Encode(s[1..]);
      assert Scalars(s) == [s[0] as int] + Scalars(s[1..]);
    }
  }
}
