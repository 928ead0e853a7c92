/** UTF-8, as Encoding.UTF8.GetBytes / GetString use it for strings and byte arrays. */
module Utf8 {
  import opened Bytes

  /** U+FFFD, which GetString puts in place of bytes that do not form a character. */
  const Replacement: char := '�'

  predicate IsContinuation(b: byte)
  {
    0x80 <= b < 0xC0
  }

  /** The one to four bytes of a Unicode scalar value. */
  function EncodeChar(c: char): (r: seq<byte>)
    ensures 1 <= |r| <= 4
    ensures forall k :: 1 <= k < |r| ==> IsContinuation(r[k])
  {
    var n := c as int;
    if n < 0x80 then [n as byte]
    else if n < 0x800 then [(0xC0 + n / 64) as byte, (0x80 + n % 64) as byte]
    else if n < 0x10000 then
      [(0xE0 + n / 4096) as byte, (0x80 + (n / 64) % 64) as byte, (0x80 + n % 64) as byte]
    else
      [(0xF0 + n / 262144) as byte, (0x80 + (n / 4096) % 64) as byte,
       (0x80 + (n / 64) % 64) as byte, (0x80 + n % 64) as byte]
  }

  /** Encoding.UTF8.GetBytes. */
  function Encode(s: string): seq<byte>
  {
    if s == [] then [] else EncodeChar(s[0]) + Encode(s[1..])
  }

  predicate IsScalar(n: int)
  {
    0 <= n < 0xD800 || 0xE000 <= n < 0x11_0000
  }

  /**
   * How many bytes the sequence that the lead byte b0 starts has, after Table 3-7 of the Unicode
   * Standard; 0 for a byte no sequence starts with (a continuation byte, C0, C1, F5 to FF).
   */
  function SequenceLength(b0: byte): (n: nat)
    ensures n <= 4
  {
    if b0 < 0x80 then 1
    else if 0xC2 <= b0 < 0xE0 then 2
    else if 0xE0 <= b0 < 0xF0 then 3
    else if 0xF0 <= b0 < 0xF5 then 4
    else 0
  }

  /**
   * Whether b1 may follow the lead byte b0: E0, ED, F0 and F4 narrow the second byte so as to
   * exclude overlong forms, surrogates and values past U+10FFFF; every other lead takes any
   * continuation byte.
   */
  predicate SecondFits(b0: byte, b1: byte)
  {
    if b0 == 0xE0 then 0xA0 <= b1 < 0xC0
    else if b0 == 0xED then 0x80 <= b1 < 0xA0
    else if b0 == 0xF0 then 0x90 <= b1 < 0xC0
    else if b0 == 0xF4 then 0x80 <= b1 < 0x90
    else IsContinuation(b1)
  }

  /** Whether byte k (1 <= k) of a sequence that starts with b0 may be b. */
  predicate FitsAt(b0: byte, k: nat, b: byte)
  {
    if k == 1 then SecondFits(b0, b) else IsContinuation(b)
  }

  /**
   * The length of the longest prefix of b, at most n bytes long, whose bytes after the first all
   * fit a sequence started by b[0]: the maximal subpart of the Unicode Standard when it is
   * shorter than n.
   */
  function Fitting(b: seq<byte>, n: nat, k: nat): (m: nat)
    requires 1 <= k <= n && k <= |b|
    ensures k <= m <= n && m <= |b|
    ensures forall j :: k <= j < m ==> FitsAt(b[0], j, b[j])
    ensures m < n && m < |b| ==> !FitsAt(b[0], m, b[m])
    decreases n - k
  {
    if k == n || k == |b| || !FitsAt(b[0], k, b[k]) then k
    else Fitting(b, n, k + 1)
  }

  /**
   * The first character of b and how many bytes it took. A well-formed sequence gives its
   * scalar value; otherwise, as Encoding.UTF8.GetString does, one U+FFFD stands for the maximal
   * subpart: a byte that cannot start a sequence alone, or a lead byte with the bytes after it
   * that still fit.
   */
  function DecodeFirst(b: seq<byte>): (r: (char, nat))
    requires |b| > 0
    ensures 1 <= r.1 <= |b|
    ensures b[0] < 0x80 ==> r == (b[0] as char, 1)
    ensures SequenceLength(b[0]) == 0 ==> r == (Replacement, 1)
    ensures SequenceLength(b[0]) > 0 ==> r.1 <= SequenceLength(b[0])
    ensures forall j :: 1 <= j < r.1 ==> FitsAt(b[0], j, b[j])
    ensures r.1 < SequenceLength(b[0]) ==> r.0 == Replacement && (r.1 < |b| ==> !FitsAt(b[0], r.1, b[r.1]))
  {
    var n := SequenceLength(b[0]);
    if n == 0 then (Replacement, 1)
    else
      var m := Fitting(b, n, 1);
      if m < n then (Replacement, m)
      else if n == 1 then (b[0] as char, 1)
      else if n == 2 then
        (((b[0] as int - 0xC0) * 64 + (b[1] as int - 0x80)) as char, 2)
      else if n == 3 then
        assert FitsAt(b[0], 1, b[1]) && FitsAt(b[0], 2, b[2]);
        (((b[0] as int - 0xE0) * 4096 + (b[1] as int - 0x80) * 64 + (b[2] as int - 0x80)) as char, 3)
      else
        assert FitsAt(b[0], 1, b[1]) && FitsAt(b[0], 2, b[2]) && FitsAt(b[0], 3, b[3]);
        (((b[0] as int - 0xF0) * 262144 + (b[1] as int - 0x80) * 4096 + (b[2] as int - 0x80) * 64
          + (b[3] as int - 0x80)) as char, 4)
  }

  /** Encoding.UTF8.GetString. */
  function Decode(b: seq<byte>): string
    decreases |b|
  {
    if b == [] then [] else
      var (c, k) := DecodeFirst(b);
      [c] + Decode(b[k..])
  }

  /**
   * A lead byte with only part of its sequence gives one U+FFFD for the part, not one per byte:
   * E2 82 (the start of a three-byte sequence) followed by 'A' reads as U+FFFD then 'A'.
   */
  lemma TruncatedSequenceOneReplacement()
    ensures Decode([0xE2, 0x82, 0x41]) == [Replacement, 'A']
  {
    var b: seq<byte> := [0xE2, 0x82, 0x41];
    assert DecodeFirst(b) == (Replacement, 2);
    assert b[2..] == [0x41];
    assert DecodeFirst(b[2..]) == ('A', 1);
    assert b[2..][1..] == [];
  }

  /** The first character of an encoding followed by anything decodes back, using the encoding's length. */
  lemma DecodeFirstOfEncodeChar(c: char, rest: seq<byte>)
    ensures DecodeFirst(EncodeChar(c) + rest) == (c, |EncodeChar(c)|)
  {
    var n := c as int;
    if n < 0x80 {
    } else if n < 0x800 {
      DecodeTwo(c, rest);
    } else if n < 0x10000 {
      DecodeThree(c, rest);
    } else {
      DecodeFour(c, rest);
    }
  }

  /** The two-byte case of DecodeFirstOfEncodeChar. */
  lemma DecodeTwo(c: char, rest: seq<byte>)
    requires 0x80 <= c as int < 0x800
    ensures DecodeFirst(EncodeChar(c) + rest) == (c, 2)
  {
    var n := c as int;
    var b := EncodeChar(c) + rest;
    assert b[0] as int == 0xC0 + n / 64 && b[1] as int == 0x80 + n % 64;
    assert (n / 64) * 64 + n % 64 == n;
  }

  /** The three-byte case. */
  lemma DecodeThree(c: char, rest: seq<byte>)
    requires 0x800 <= c as int < 0x10000
    ensures DecodeFirst(EncodeChar(c) + rest) == (c, 3)
  {
    var n := c as int;
    var b := EncodeChar(c) + rest;
    assert b[0] as int == 0xE0 + n / 4096 && b[1] as int == 0x80 + (n / 64) % 64 && b[2] as int == 0x80 + n % 64;
    assert (n / 4096) * 4096 + ((n / 64) % 64) * 64 + n % 64 == n;
  }

  /** The four-byte case. */
  lemma DecodeFour(c: char, rest: seq<byte>)
    requires 0x10000 <= c as int
    ensures DecodeFirst(EncodeChar(c) + rest) == (c, 4)
  {
    var n := c as int;
    var b := EncodeChar(c) + rest;
    assert b[0] as int == 0xF0 + n / 262144 && b[1] as int == 0x80 + (n / 4096) % 64;
    assert b[2] as int == 0x80 + (n / 64) % 64 && b[3] as int == 0x80 + n % 64;
    FourDigits(n);
  }

  /** n written in base 64 with its top digit counted in units of 64^3. */
  lemma FourDigits(n: int)
    requires 0 <= n
    ensures (n / 262144) * 262144 + ((n / 4096) % 64) * 4096 + ((n / 64) % 64) * 64 + n % 64 == n
  {
    var a, r0 := n / 64, n % 64;
    var b, r1 := a / 64, a % 64;
    var c, r2 := b / 64, b % 64;
    assert n == 4096 * b + (64 * r1 + r0) && 0 <= 64 * r1 + r0 < 4096;
    assert n / 4096 == b;
    assert n == 262144 * c + (4096 * r2 + 64 * r1 + r0) && 0 <= 4096 * r2 + 64 * r1 + r0 < 262144;
    assert n / 262144 == c;
  }

  /** Decoding what was encoded gives back the string: strings survive a trip through bytes. */
  lemma {:induction false} DecodeEncode(s: string)
    ensures Decode(Encode(s)) == s
  {
    if s != [] {
      var b := Encode(s);
      DecodeFirstOfEncodeChar(s[0], Encode(s[1..]));
      assert b[|EncodeChar(s[0])|..] == Encode(s[1..]);
      DecodeEncode(s[1..]);
    }
  }

  /** Encoding is injective: two strings with the same bytes are the same string. */
  lemma EncodeInjective(s: string, t: string)
    requires Encode(s) == Encode(t)
    ensures s == t
  {
    DecodeEncode(s);
    DecodeEncode(t);
  }
}
