/**
 * UTF-8 as CPython's codec implements it: the encoder, and the decoder with
 * `errors='replace'`, which replaces each maximal ill-formed subpart of the
 * input by one U+FFFD (Unicode Standard, section 3.9, "U+FFFD Substitution of
 * Maximal Subparts").
 */
module Utf8 {

  type byte = b: int | 0 <= b < 0x100

  /** The character `errors='replace'` substitutes for ill-formed input. */
  const Replacement: char := '�'

  predicate IsContinuation(b: byte) {
    0x80 <= b < 0xC0
  }

  /** Length of the sequence a lead byte announces; 0 for a byte that cannot start one. */
  function SequenceLength(lead: byte): (n: nat)
    ensures n <= 4
    ensures n == 1 <==> lead < 0x80
  {
    if lead < 0x80 then 1
    else if lead < 0xC2 then 0
    else if lead < 0xE0 then 2
    else if lead < 0xF0 then 3
    else if lead < 0xF5 then 4
    else 0
  }

  /** Bounds on the byte that follows `lead` (Table 3-7 of the Unicode Standard). */
  function SecondLow(lead: byte): byte {
    if lead == 0xE0 then 0xA0 else if lead == 0xF0 then 0x90 else 0x80
  }

  function SecondHigh(lead: byte): byte {
    if lead == 0xED then 0x9F else if lead == 0xF4 then 0x8F else 0xBF
  }

  /** `bs` is exactly one well-formed UTF-8 sequence. */
  predicate WellFormed(bs: seq<byte>) {
    && |bs| > 0
    && |bs| == SequenceLength(bs[0])
    && (|bs| >= 2 ==> SecondLow(bs[0]) <= bs[1] <= SecondHigh(bs[0]))
    && (forall i | 2 <= i < |bs| :: IsContinuation(bs[i]))
  }

  /** The scalar value a well-formed sequence encodes. */
  function CodePoint(bs: seq<byte>): (c: char)
    requires WellFormed(bs)
    ensures |bs| == 1 <==> c as int < 0x80
    ensures |bs| == 2 <==> 0x80 <= c as int < 0x800
    ensures |bs| == 3 <==> 0x800 <= c as int < 0x10000
    ensures |bs| == 4 <==> 0x10000 <= c as int
  {
    var b0: int := bs[0];
    if |bs| == 1 then
      b0 as char
    else
      var b1: int := bs[1];
      if |bs| == 2 then
        ((b0 - 0xC0) * 64 + (b1 - 0x80)) as char
      else
        var b2: int := bs[2];
        assert IsContinuation(bs[2]);
        if |bs| == 3 then
          var v := (b0 - 0xE0) * 4096 + (b1 - 0x80) * 64 + (b2 - 0x80);
          assert b0 == 0xED ==> v < 0xD800;
          assert b0 != 0xED ==> v < 0xD000 || 0xE000 <= v;
          v as char
        else
          var b3: int := bs[3];
          assert IsContinuation(bs[3]);
          ((b0 - 0xF0) * 262144 + (b1 - 0x80) * 4096 + (b2 - 0x80) * 64 + (b3 - 0x80)) as char
  }

  /** Byte `j` (after the lead) can continue the sequence that `bs[0]` starts. */
  predicate Continues(bs: seq<byte>, j: nat)
    requires 1 <= j < |bs|
  {
    if j == 1 then SecondLow(bs[0]) <= bs[1] <= SecondHigh(bs[0]) else IsContinuation(bs[j])
  }

  /** How many leading bytes of `bs` (at most `n`) a decoder can accept as the
      start of the `n`-byte sequence that `bs[0]` announces: the longest prefix
      every byte of which continues the sequence. */
  function AcceptedPrefix(bs: seq<byte>, n: nat): (k: nat)
    requires |bs| > 0 && 2 <= n && n == SequenceLength(bs[0])
    ensures 1 <= k <= n && k <= |bs|
    ensures k == n <==> n <= |bs| && WellFormed(bs[..n])
    ensures forall j | 1 <= j < k :: Continues(bs, j)
    ensures k < n ==> k == |bs| || !Continues(bs, k)
  {
    if |bs| < 2 || !(SecondLow(bs[0]) <= bs[1] <= SecondHigh(bs[0])) then 1
    else if n == 2 || |bs| < 3 || !IsContinuation(bs[2]) then 2
    else if n == 3 || |bs| < 4 || !IsContinuation(bs[3]) then 3
    else 4
  }

  /** `bytes.decode('utf-8', 'replace')`. */
  function Decode(bs: seq<byte>): (s: string)
    ensures |s| <= |bs|
    decreases |bs|
  {
    if bs == [] then []
    else
      var n := SequenceLength(bs[0]);
      if n == 0 then [Replacement] + Decode(bs[1..])
      else if n == 1 then [bs[0] as char] + Decode(bs[1..])
      else
        var k := AcceptedPrefix(bs, n);
        if k == n then [CodePoint(bs[..n])] + Decode(bs[n..])
        else [Replacement] + Decode(bs[k..])
  }

  /** The UTF-8 encoding of one character. */
  function EncodeChar(c: char): (bs: seq<byte>)
    ensures WellFormed(bs) && CodePoint(bs) == c
  {
    var n := c as int;
    // n is split into 6-bit groups: n == ((hi * 64 + mid) * 64 + low6) * 64 + low
    var low, above := n % 64, n / 64;
    var low6, above6 := above % 64, above / 64;
    var mid, hi := above6 % 64, above6 / 64;
    if n < 0x80 then
      [n]
    else if n < 0x800 then
      [0xC0 + above, 0x80 + low]
    else if n < 0x10000 then
      [0xE0 + above6, 0x80 + low6, 0x80 + low]
    else
      [0xF0 + hi, 0x80 + mid, 0x80 + low6, 0x80 + low]
  }

  /** `str.encode('utf-8')`. */
  function Encode(s: string): (bs: seq<byte>)
    ensures |bs| >= |s|
  {
    if s == [] then [] else EncodeChar(s[0]) + Encode(s[1..])
  }

  predicate AllAsciiBytes(bs: seq<byte>) {
    forall i | 0 <= i < |bs| :: bs[i] < 0x80
  }

  /** The characters whose code points are the given ASCII bytes. */
  function AsciiChars(bs: seq<byte>): (s: string)
    requires AllAsciiBytes(bs)
    ensures |s| == |bs| && forall i | 0 <= i < |bs| :: s[i] as int == bs[i]
  {
    seq(|bs|, i requires 0 <= i < |bs| => bs[i] as char)
  }

  /** Decoding starts with the character a well-formed sequence encodes. */
  lemma {:induction false} DecodeWellFormed(bs: seq<byte>, rest: seq<byte>)
    requires WellFormed(bs)
    ensures Decode(bs + rest) == [CodePoint(bs)] + Decode(rest)
  {
    var all := bs + rest;
    assert all[0] == bs[0];
    var n := |bs|;
    if n > 1 {
      assert all[..n] == bs;
      assert all[n..] == rest;
      assert AcceptedPrefix(all, n) == n;
    } else {
      assert all[1..] == rest;
    }
  }

  /** Decoding undoes encoding, for every string. */
  lemma {:induction false} DecodeEncode(s: string)
    ensures Decode(Encode(s)) == s
  {
    if s != [] {
      DecodeWellFormed(EncodeChar(s[0]), Encode(s[1..]));
      DecodeEncode(s[1..]);
      assert s == [s[0]] + s[1..];
    }
  }

  /** Bytes below 0x80 decode one to one into the characters with those code points. */
  lemma {:induction false} DecodeAscii(bs: seq<byte>)
    requires AllAsciiBytes(bs)
    ensures Decode(bs) == AsciiChars(bs)
  {
    if bs != [] {
      DecodeAscii(bs[1..]);
    }
  }
}
