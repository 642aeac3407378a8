/**
 * `urllib.parse.unquote_plus` as CPython writes it: `+` becomes a space, then
 * every maximal run of ASCII characters is percent-decoded to bytes
 * (`unquote_to_bytes`, which splits the run at each `%`) and the bytes are
 * decoded as UTF-8 with `errors='replace'`; characters outside ASCII are kept.
 * Percent-decoding is that of section 2.1 of RFC 3986; `+` as a space comes
 * from the application/x-www-form-urlencoded format (section 5.1 of the
 * WHATWG URL Standard).
 */
module UrlDecode {
  import opened Utf8
  import opened Seqs

  predicate IsAscii(c: char) {
    c as int < 0x80
  }

  predicate AllAscii(s: string) {
    forall i | 0 <= i < |s| :: IsAscii(s[i])
  }

  /** One of the characters CPython's `_hexdig` lists: `0123456789ABCDEFabcdef`. */
  predicate IsHexDigit(c: char) {
    '0' <= c <= '9' || 'A' <= c <= 'F' || 'a' <= c <= 'f'
  }

  function HexValue(c: char): (v: nat)
    requires IsHexDigit(c)
    ensures v < 16
  {
    if '0' <= c <= '9' then c as int - '0' as int
    else if 'A' <= c <= 'F' then c as int - 'A' as int + 10
    else c as int - 'a' as int + 10
  }

  /** The byte that the escape `%` d1 d2 stands for. */
  function HexByte(d1: char, d2: char): byte
    requires IsHexDigit(d1) && IsHexDigit(d2)
  {
    HexValue(d1) * 16 + HexValue(d2)
  }

  /** `%` as a byte. */
  const PercentByte: byte := 0x25

  /** A byte that spells a hex digit. */
  predicate IsHexByte(b: byte) {
    IsHexDigit(b as char)
  }

  /** `bytes.split(b'%')`: the pieces between the percent signs, in order. */
  function SplitPercent(bs: seq<byte>): (bits: seq<seq<byte>>)
    ensures |bits| >= 1
    ensures bits[0] <= bs  // the first piece is a prefix of bs
  {
    if bs == [] then [[]]
    else
      var rest := SplitPercent(bs[1..]);
      if bs[0] == PercentByte then [[]] + rest
      else [[bs[0]] + rest[0]] + rest[1..]
  }

  /** `b'%'.join(items)`: the pieces with one `%` between each two. */
  function JoinPercent(items: seq<seq<byte>>): seq<byte>
    requires |items| >= 1
  {
    if |items| == 1 then items[0] else items[0] + [PercentByte] + JoinPercent(items[1..])
  }

  /** No piece of `split(b'%')` holds a `%`. */
  lemma {:induction false} SplitPercentNoPercent(bs: seq<byte>)
    ensures forall i | 0 <= i < |SplitPercent(bs)| :: PercentByte !in SplitPercent(bs)[i]
  {
    if bs != [] {
      var rest := SplitPercent(bs[1..]);
      SplitPercentNoPercent(bs[1..]);
      var bits := SplitPercent(bs);
      if bs[0] == PercentByte {
        assert bits == [[]] + rest;
      } else {
        assert bits == [[bs[0]] + rest[0]] + rest[1..];
        assert forall i | 1 <= i < |bits| :: bits[i] == rest[i];
      }
    }
  }

  /** Joining the pieces of `split(b'%')` with `%` gives the input back. */
  lemma {:induction false} SplitPercentJoin(bs: seq<byte>)
    ensures JoinPercent(SplitPercent(bs)) == bs
  {
    if bs != [] {
      var rest := SplitPercent(bs[1..]);
      SplitPercentJoin(bs[1..]);
      if bs[0] == PercentByte {
        assert SplitPercent(bs)[1..] == rest;
        assert bs == [] + [PercentByte] + bs[1..];
      } else {
        JoinOrdinaryByte(bs[0], rest);
        assert bs == [bs[0]] + bs[1..];
      }
    }
  }

  /** Putting a byte in front of the first piece puts it in front of the join. */
  lemma {:induction false} JoinOrdinaryByte(b: byte, rest: seq<seq<byte>>)
    requires |rest| >= 1
    ensures JoinPercent([[b] + rest[0]] + rest[1..]) == [b] + JoinPercent(rest)
  {
    var bits := [[b] + rest[0]] + rest[1..];
    assert bits[0] == [b] + rest[0];
    if |rest| > 1 {
      assert bits[1..] == rest[1..];
      var tail := [PercentByte] + JoinPercent(rest[1..]);
      assert JoinPercent(rest) == rest[0] + tail;
      Assoc([b], rest[0], tail);
    }
  }

  /** What `unquote_to_bytes` appends for one piece that followed a `%`: the
      escaped byte and the rest of the piece when the piece starts with two hex
      digits, and otherwise the `%` itself and the whole piece. */
  function UnquoteItem(item: seq<byte>): seq<byte> {
    if |item| >= 2 && IsHexByte(item[0]) && IsHexByte(item[1])
    then [HexByte(item[0] as char, item[1] as char)] + item[2..]
    else [PercentByte] + item
  }

  function UnquoteItems(items: seq<seq<byte>>): seq<byte> {
    if items == [] then [] else UnquoteItem(items[0]) + UnquoteItems(items[1..])
  }

  /** `unquote_to_bytes` on bytes, split-based as CPython writes it. */
  function UnquoteBytes(bs: seq<byte>): seq<byte> {
    var bits := SplitPercent(bs);
    bits[0] + UnquoteItems(bits[1..])
  }

  /** `unquote_to_bytes` on a string, which it first encodes as UTF-8. */
  function UnquoteToBytes(s: string): seq<byte> {
    UnquoteBytes(Encode(s))
  }

  /** Percent-decoding read left to right, as section 2.1 of RFC 3986 describes
      it: `%` followed by two hex digits is the byte they spell; every other
      byte, a `%` without two hex digits after it included, is itself. */
  function PercentDecode(bs: seq<byte>): (r: seq<byte>)
    ensures |r| <= |bs|
  {
    if bs == [] then []
    else if bs[0] == PercentByte && |bs| >= 3 && IsHexByte(bs[1]) && IsHexByte(bs[2])
    then [HexByte(bs[1] as char, bs[2] as char)] + PercentDecode(bs[3..])
    else [bs[0]] + PercentDecode(bs[1..])
  }

  /** Length of the longest prefix of `s` made of ASCII characters. */
  function AsciiRunLength(s: string): (n: nat)
    ensures n <= |s| && AllAscii(s[..n])
    ensures n < |s| ==> !IsAscii(s[n])
    ensures s != [] && IsAscii(s[0]) ==> n > 0
  {
    if s == [] || !IsAscii(s[0]) then 0 else 1 + AsciiRunLength(s[1..])
  }

  /** The general path of `unquote`: ASCII runs decoded, other characters kept. */
  function DecodeRuns(s: string): string
    decreases |s|
  {
    if s == [] then []
    else if !IsAscii(s[0]) then [s[0]] + DecodeRuns(s[1..])
    else
      var n := AsciiRunLength(s);
      Decode(UnquoteToBytes(s[..n])) + DecodeRuns(s[n..])
  }

  /** `urllib.parse.unquote(s)`, whose first step returns a `%`-free string unchanged. */
  function Unquote(s: string): string {
    if '%' !in s then s else DecodeRuns(s)
  }

  /** `s.replace('+', ' ')`. */
  function ReplacePlus(s: string): (r: string)
    ensures |r| == |s|
    ensures forall i | 0 <= i < |s| :: r[i] == (if s[i] == '+' then ' ' else s[i])
  {
    seq(|s|, i requires 0 <= i < |s| => if s[i] == '+' then ' ' else s[i])
  }

  /** `urllib.parse.unquote_plus(s)`. */
  function UnquotePlus(s: string): string {
    Unquote(ReplacePlus(s))
  }

  // ---------------------------------------------------------------------------
  // The split-based decoder agrees with the left-to-right reading.

  /** CPython's split-based `unquote_to_bytes` is left-to-right percent-decoding. */
  lemma {:induction false} UnquoteMatchesPercentDecode(bs: seq<byte>)
    ensures UnquoteBytes(bs) == PercentDecode(bs)
    decreases |bs|, 0
  {
    if bs != [] {
      var c, t := bs[0], bs[1..];
      assert bs == [c] + t;
      if c == PercentByte {
        UnquoteItemsMatch(t);
      } else {
        UnquoteMatchesPercentDecode(t);
        UnquoteOrdinaryByte(c, t);
      }
    }
  }

  /** An ordinary first byte joins the first piece and is copied. */
  lemma {:induction false} UnquoteOrdinaryByte(c: byte, t: seq<byte>)
    requires c != PercentByte
    ensures UnquoteBytes([c] + t) == [c] + UnquoteBytes(t)
    ensures PercentDecode([c] + t) == [c] + PercentDecode(t)
  {
    var bs := [c] + t;
    assert bs[0] == c && bs[1..] == t;
    var bits := SplitPercent(t);
    assert SplitPercent(bs) == [[c] + bits[0]] + bits[1..];
  }

  /** The pieces that follow a `%` decode as the bytes after that `%` do. */
  lemma {:induction false} UnquoteItemsMatch(t: seq<byte>)
    ensures UnquoteItems(SplitPercent(t)) == PercentDecode([PercentByte] + t)
    decreases |t|, 1
  {
    if |t| >= 2 && IsHexByte(t[0]) && IsHexByte(t[1]) {
      UnquoteMatchesPercentDecode(t[2..]);
      UnquoteEscape(t);
    } else {
      UnquoteMatchesPercentDecode(t);
      UnquoteLonePercent(t);
    }
  }

  lemma {:induction false} UnquoteItemsCons(items: seq<seq<byte>>)
    requires |items| > 0
    ensures UnquoteItems(items) == UnquoteItem(items[0]) + UnquoteItems(items[1..])
  {
  }

  /** `%` and two hex digits: the escaped byte, then the rest decoded alike. */
  lemma {:induction false} UnquoteEscape(t: seq<byte>)
    requires |t| >= 2 && IsHexByte(t[0]) && IsHexByte(t[1])
    ensures UnquoteItems(SplitPercent(t)) == [HexByte(t[0] as char, t[1] as char)] + UnquoteBytes(t[2..])
    ensures PercentDecode([PercentByte] + t) == [HexByte(t[0] as char, t[1] as char)] + PercentDecode(t[2..])
  {
    PercentDecodeEscape(t);
    EscapeFirstPiece(t);
    var bits, rb := SplitPercent(t), SplitPercent(t[2..]);
    UnquoteItemsCons(bits);
    var h, rest := HexByte(t[0] as char, t[1] as char), UnquoteItems(rb[1..]);
    assert UnquoteBytes(t[2..]) == rb[0] + rest;
    assert UnquoteItems(bits) == ([h] + rb[0]) + rest;
    Assoc([h], rb[0], rest);
  }

  lemma {:induction false} PercentDecodeEscape(t: seq<byte>)
    requires |t| >= 2 && IsHexByte(t[0]) && IsHexByte(t[1])
    ensures PercentDecode([PercentByte] + t) == [HexByte(t[0] as char, t[1] as char)] + PercentDecode(t[2..])
  {
    var bs := [PercentByte] + t;
    assert bs[0] == PercentByte && bs[1] == t[0] && bs[2] == t[1] && bs[3..] == t[2..];
  }

  /** After `%` and two hex digits, the first piece is the two digits and the
      first piece of the rest; the later pieces are those of the rest. */
  lemma {:induction false} EscapeFirstPiece(t: seq<byte>)
    requires |t| >= 2 && IsHexByte(t[0]) && IsHexByte(t[1])
    ensures SplitPercent(t)[1..] == SplitPercent(t[2..])[1..]
    ensures UnquoteItem(SplitPercent(t)[0]) == [HexByte(t[0] as char, t[1] as char)] + SplitPercent(t[2..])[0]
  {
    var r := t[2..];
    assert t[1..][1..] == r && t[1..][0] == t[1];
    var bits := SplitPercent(r);
    assert SplitPercent(t[1..]) == [[t[1]] + bits[0]] + bits[1..];
    var first := [t[0]] + ([t[1]] + bits[0]);
    assert SplitPercent(t) == [first] + bits[1..];
    assert first[0] == t[0] && first[1] == t[1] && first[2..] == bits[0];
  }

  /** `%` without two hex digits after it: the `%` itself, then the rest decoded alike. */
  lemma {:induction false} UnquoteLonePercent(t: seq<byte>)
    requires !(|t| >= 2 && IsHexByte(t[0]) && IsHexByte(t[1]))
    ensures UnquoteItems(SplitPercent(t)) == [PercentByte] + UnquoteBytes(t)
    ensures PercentDecode([PercentByte] + t) == [PercentByte] + PercentDecode(t)
  {
    PercentDecodeLonePercent(t);
    LonePercentFirstPiece(t);
    var bits := SplitPercent(t);
    UnquoteItemsCons(bits);
    var rest := UnquoteItems(bits[1..]);
    assert UnquoteBytes(t) == bits[0] + rest;
    assert UnquoteItems(bits) == ([PercentByte] + bits[0]) + rest;
    Assoc([PercentByte], bits[0], rest);
  }

  lemma {:induction false} PercentDecodeLonePercent(t: seq<byte>)
    requires !(|t| >= 2 && IsHexByte(t[0]) && IsHexByte(t[1]))
    ensures PercentDecode([PercentByte] + t) == [PercentByte] + PercentDecode(t)
  {
    var bs := [PercentByte] + t;
    assert bs[0] == PercentByte && bs[1..] == t;
    assert !(|bs| >= 3 && IsHexByte(bs[1]) && IsHexByte(bs[2])) by {
      if |bs| >= 3 { assert bs[1] == t[0] && bs[2] == t[1]; }
    }
  }

  /** The piece right after a lone `%` does not start with two hex digits either. */
  lemma {:induction false} LonePercentFirstPiece(t: seq<byte>)
    requires !(|t| >= 2 && IsHexByte(t[0]) && IsHexByte(t[1]))
    ensures UnquoteItem(SplitPercent(t)[0]) == [PercentByte] + SplitPercent(t)[0]
  {
    var b := SplitPercent(t)[0];
    assert !(|b| >= 2 && IsHexByte(b[0]) && IsHexByte(b[1])) by {
      if |b| >= 2 { assert b[0] == t[0] && b[1] == t[1]; }
    }
  }

  /** `str.encode('utf-8')` of ASCII text is one byte per character, its code point. */
  lemma {:induction false} EncodeAscii(s: string)
    requires AllAscii(s)
    ensures |Encode(s)| == |s|
    ensures forall i | 0 <= i < |s| :: Encode(s)[i] == s[i] as int
  {
    if s != [] {
      EncodeAscii(s[1..]);
      assert EncodeChar(s[0]) == [s[0] as int];
      assert forall i | 1 <= i < |s| :: Encode(s)[i] == Encode(s[1..])[i - 1];
    }
  }

  lemma {:induction false} EncodeAppend(x: string, y: string)
    ensures Encode(x + y) == Encode(x) + Encode(y)
  {
    if x != [] {
      assert (x + y)[0] == x[0] && (x + y)[1..] == x[1..] + y;
      EncodeAppend(x[1..], y);
      Assoc(EncodeChar(x[0]), Encode(x[1..]), Encode(y));
    } else {
      assert x + y == y;
    }
  }

  // ---------------------------------------------------------------------------
  // Decoding never lengthens a key.

  lemma {:induction false} DecodeRunsLength(s: string)
    ensures |DecodeRuns(s)| <= |s|
    decreases |s|
  {
    if s != [] {
      if !IsAscii(s[0]) {
        DecodeRunsLength(s[1..]);
      } else {
        var n := AsciiRunLength(s);
        EncodeAscii(s[..n]);
        UnquoteMatchesPercentDecode(Encode(s[..n]));
        DecodeRunsLength(s[n..]);
      }
    }
  }

  /** `unquote_plus` returns at most as many characters as it is given. */
  lemma {:induction false} UnquotePlusLength(s: string)
    ensures |UnquotePlus(s)| <= |s|
  {
    DecodeRunsLength(ReplacePlus(s));
  }

  // ---------------------------------------------------------------------------
  // Text without a valid escape is kept as it is.

  /** `s[i..i + 3]` is `%` followed by two hex digits. */
  predicate EscapeAt(s: string, i: int) {
    0 <= i && i + 2 < |s| && s[i] == '%' && IsHexDigit(s[i + 1]) && IsHexDigit(s[i + 2])
  }

  predicate NoEscapes(s: string) {
    forall i | 0 <= i < |s| :: !EscapeAt(s, i)
  }

  /** ASCII text without an escape percent-decodes to its own bytes. */
  lemma {:induction false} PercentDecodeNoEscapes(s: string)
    requires AllAscii(s) && NoEscapes(s)
    ensures PercentDecode(Encode(s)) == Encode(s)
  {
    if s != [] {
      EncodeAscii(s);
      var bs := Encode(s);
      assert !EscapeAt(s, 0);
      assert forall i | 0 <= i < |s| - 1 :: EscapeAt(s[1..], i) == EscapeAt(s, i + 1);
      assert AllAscii(s[1..]) by {
        assert forall i | 0 <= i < |s| - 1 :: s[1..][i] == s[i + 1];
      }
      PercentDecodeNoEscapes(s[1..]);
      assert bs[1..] == Encode(s[1..]);
      assert !(bs[0] == PercentByte && |bs| >= 3 && IsHexByte(bs[1]) && IsHexByte(bs[2])) by {
        if |bs| >= 3 {
          assert bs[0] as char == s[0] && bs[1] as char == s[1] && bs[2] as char == s[2];
        }
      }
    }
  }

  /** An ASCII run without escapes comes back unchanged from the bytes round trip. */
  lemma {:induction false} DecodeAsciiRun(s: string)
    requires AllAscii(s) && NoEscapes(s)
    ensures Decode(UnquoteToBytes(s)) == s
  {
    UnquoteMatchesPercentDecode(Encode(s));
    PercentDecodeNoEscapes(s);
    EncodeAscii(s);
    DecodeAscii(Encode(s));
    assert AsciiChars(Encode(s)) == s;
  }

  lemma {:induction false} NoEscapesSlices(s: string, n: nat)
    requires NoEscapes(s) && n <= |s|
    ensures NoEscapes(s[..n]) && NoEscapes(s[n..])
  {
    assert forall i | 0 <= i < |s| - n :: EscapeAt(s[n..], i) == EscapeAt(s, i + n);
    assert forall i | 0 <= i < n :: EscapeAt(s[..n], i) ==> EscapeAt(s, i);
  }

  lemma {:induction false} DecodeRunsNoEscapes(s: string)
    requires NoEscapes(s)
    ensures DecodeRuns(s) == s
    decreases |s|
  {
    if s == [] {
    } else if !IsAscii(s[0]) {
      NoEscapesSlices(s, 1);
      DecodeRunsNoEscapes(s[1..]);
      assert s == [s[0]] + s[1..];
    } else {
      var n := AsciiRunLength(s);
      NoEscapesSlices(s, n);
      DecodeRunsNoEscapes(s[n..]);
      DecodeAsciiRun(s[..n]);
      assert s == s[..n] + s[n..];
    }
  }

  /** The `%`-free shortcut at the head of `unquote` gives what the general path would. */
  lemma {:induction false} UnquoteIsDecodeRuns(s: string)
    ensures Unquote(s) == DecodeRuns(s)
  {
    if '%' !in s {
      assert forall i | 0 <= i < |s| :: !EscapeAt(s, i) by {
        forall i | 0 <= i < |s| ensures !EscapeAt(s, i) {
          assert s[i] in s;
        }
      }
      DecodeRunsNoEscapes(s);
    }
  }

  /** A key without a valid escape comes back with only `+` turned into a space:
      in particular a `%` not followed by two hex digits is kept literally. */
  lemma {:induction false} UnquotePlusNoEscapes(s: string)
    requires NoEscapes(s)
    ensures UnquotePlus(s) == ReplacePlus(s)
  {
    var t := ReplacePlus(s);
    assert forall i | 0 <= i < |t| :: EscapeAt(t, i) ==> EscapeAt(s, i);
    UnquoteIsDecodeRuns(t);
    DecodeRunsNoEscapes(t);
  }

  /** On ASCII text, `unquote` is percent-decoding followed by one UTF-8 decode. */
  lemma {:induction false} UnquoteAscii(s: string)
    requires AllAscii(s)
    ensures Unquote(s) == Decode(PercentDecode(Encode(s)))
  {
    UnquoteIsDecodeRuns(s);
    if s != [] {
      var n := AsciiRunLength(s);
      assert n == |s|;
      assert s[..n] == s && s[n..] == [];
      UnquoteMatchesPercentDecode(Encode(s));
      assert DecodeRuns(s) == Decode(UnquoteToBytes(s)) + DecodeRuns([]);
    }
  }

  // ---------------------------------------------------------------------------
  // `quote_plus`, the encoding a notification producer applies to a key, is undone.

  /** A byte `quote_plus` leaves as it is: an ASCII letter or digit, or one of `_.-~`. */
  predicate IsUnreserved(b: byte) {
    || 0x30 <= b <= 0x39 || 0x41 <= b <= 0x5A || 0x61 <= b <= 0x7A
    || b == 0x5F || b == 0x2E || b == 0x2D || b == 0x7E
  }

  /** The upper-case hex digit for a value below 16. */
  function HexDigit(v: nat): (c: char)
    requires v < 16
    ensures IsHexDigit(c) && HexValue(c) == v
  {
    if v < 10 then ('0' as int + v) as char else ('A' as int + v - 10) as char
  }

  function QuoteByte(b: byte): string {
    if b == 0x20 then "+"
    else if IsUnreserved(b) then [b as char]
    else ['%', HexDigit(b / 16), HexDigit(b % 16)]
  }

  function QuoteBytes(bs: seq<byte>): (s: string)
    ensures AllAscii(s)
  {
    if bs == [] then [] else QuoteByte(bs[0]) + QuoteBytes(bs[1..])
  }

  /** `urllib.parse.quote_plus(s)`: UTF-8 bytes, unreserved ones kept, space as `+`,
      every other byte as `%` and two upper-case hex digits. */
  function QuotePlus(s: string): (q: string)
    ensures AllAscii(q)
  {
    QuoteBytes(Encode(s))
  }

  lemma {:induction false} ReplacePlusAppend(x: string, y: string)
    ensures ReplacePlus(x + y) == ReplacePlus(x) + ReplacePlus(y)
  {
  }

  /** One quoted byte, with `+` read back as a space, decodes to that byte. */
  lemma {:induction false} PercentDecodeQuotedByte(b: byte, r: seq<byte>)
    ensures PercentDecode(Encode(ReplacePlus(QuoteByte(b))) + r) == [b] + PercentDecode(r)
  {
    if b != 0x20 && !IsUnreserved(b) {
      PercentDecodeEscapedByte(b, r);
    } else {
      var q := ReplacePlus(QuoteByte(b));
      EncodeAscii(q);
      var t := Encode(q) + r;
      assert t[0] == b && t[0] != PercentByte;
      assert t[1..] == r;
    }
  }

  lemma {:induction false} PercentDecodeEscapedByte(b: byte, r: seq<byte>)
    requires b != 0x20 && !IsUnreserved(b)
    ensures PercentDecode(Encode(ReplacePlus(QuoteByte(b))) + r) == [b] + PercentDecode(r)
  {
    var d1, d2 := HexDigit(b / 16), HexDigit(b % 16);
    var q := ReplacePlus(QuoteByte(b));
    assert q == ['%', d1, d2];
    EncodeAscii(q);
    var t := Encode(q) + r;
    assert t[0] == PercentByte && t[1] as char == d1 && t[2] as char == d2;
    assert t[3..] == r;
  }

  lemma {:induction false} PercentDecodeQuoted(bs: seq<byte>)
    ensures PercentDecode(Encode(ReplacePlus(QuoteBytes(bs)))) == bs
  {
    if bs != [] {
      var head, tail := ReplacePlus(QuoteByte(bs[0])), ReplacePlus(QuoteBytes(bs[1..]));
      ReplacePlusAppend(QuoteByte(bs[0]), QuoteBytes(bs[1..]));
      EncodeAppend(head, tail);
      PercentDecodeQuoted(bs[1..]);
      PercentDecodeQuotedByte(bs[0], Encode(tail));
    }
  }

  /** Decoding a `quote_plus`-encoded key gives the key back, for every key. */
  lemma {:induction false} UnquotePlusQuotePlus(s: string)
    ensures UnquotePlus(QuotePlus(s)) == s
  {
    PercentDecodeQuoted(Encode(s));
    UnquoteAscii(ReplacePlus(QuotePlus(s)));
    DecodeEncode(s);
  }
}
